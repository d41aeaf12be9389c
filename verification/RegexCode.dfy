/** The program a regular expression compiles to: the bytes of its nodes as a function of the
    syntax tree, and what following and patching "next" pointers does to them. */
module RegexCode {
  import opened Basics
  import opened RegexSyntax

  const END: Byte := 0
  const BOL: Byte := 1
  const EOL: Byte := 2
  const ANY: Byte := 3
  const ANYOF: Byte := 4
  const ANYBUT: Byte := 5
  const BRANCH: Byte := 6
  const BACK: Byte := 7
  const EXACTLY: Byte := 8
  const NOTHING: Byte := 9
  const STAR: Byte := 10
  const PLUS: Byte := 11
  const OPEN: Byte := 20
  const CLOSE: Byte := 30

  type Code = seq<Byte>

  /** Where the last node of a piece leads: nowhere yet, or d bytes past the end of the piece. */
  datatype Exit = Dangling | To(d: nat)

  /** The two bytes of a "next" pointer, high byte first; the emitter masks both to 8 bits. */
  function Off(n: nat): (c: Code)
    ensures |c| == 2
  {
    [(n / 256) % 256, n % 256]
  }

  /** The "next" bytes of a last node that lies k bytes before the end of its piece. */
  function ExitOff(ex: Exit, k: nat): (c: Code)
    ensures |c| == 2
  {
    if ex.Dangling? then Off(0) else Off(k + ex.d)
  }

  predicate Complex(re: Re) {
    re.Rep? && (re.op == Opt || !IsSimple(re.x))
  }

  // Every piece is the bytes up to the opcode of its last node (Pre), the "next" bytes of that
  // node, and what follows them (Post): its literal text, or the operand of a STAR or PLUS.

  function Pre(re: Re): (c: Code)
    ensures |c| > 0
    decreases re, 0
  {
    match re
    case Bol => [BOL]
    case Eol => [EOL]
    case Any => [ANY]
    case Class(neg, _) => [if neg then ANYBUT else ANYOF]
    case Lit(_) => [EXACTLY]
    case Group(no, alts) => [(OPEN + no) % 256] + Off(3) + EncAlts(alts) + [(CLOSE + no) % 256]
    case Rep(op, x) =>
      if op == Opt then
        [BRANCH] + Off(3 + |Enc(x, To(3))|) + Enc(x, To(3)) + [BRANCH] + Off(3) + [NOTHING]
      else if IsSimple(x) then
        [if op == Star then STAR else PLUS]
      else if op == Star then
        [BRANCH] + Off(6 + |Enc(x, To(0))|) + Enc(x, To(0)) + [BACK] + Off(3 + |Enc(x, To(0))|) + [BRANCH] + Off(3)
          + [NOTHING]
      else
        Enc(x, To(0)) + [BRANCH] + Off(6) + [BACK] + Off(3 + |Enc(x, To(0))|) + [BRANCH] + Off(3) + [NOTHING]
  }

  function Post(re: Re): Code
    decreases re, 0
  {
    match re
    case Class(_, chars) => chars + [0]
    case Lit(str) => str + [0]
    case Rep(op, x) => if op != Opt && IsSimple(x) then Enc(x, Dangling) else []
    case _ => []
  }

  /** The code of a piece. */
  function Enc(re: Re, ex: Exit): (c: Code)
    ensures |c| == |Pre(re)| + 2 + |Post(re)|
    decreases re, 1
  {
    Pre(re) + ExitOff(ex, 3 + |Post(re)|) + Post(re)
  }

  /** Pieces in sequence, each leading to the next. */
  function EncPieces(ps: seq<Re>, ex: Exit): (c: Code)
    requires ps != []
    decreases ps, 2
  {
    if |ps| == 1 then Enc(ps[0], ex) else Enc(ps[0], To(0)) + EncPieces(ps[1..], ex)
  }

  /** The operand of a BRANCH node; an empty alternative is a NOTHING node. */
  function EncBody(b: Branch, ex: Exit): (c: Code)
    decreases b, 3
  {
    if b.pieces == [] then [NOTHING] + ExitOff(ex, 3) else EncPieces(b.pieces, ex)
  }

  /** Alternatives in sequence: each BRANCH leads to what follows its operand, each operand to
      what follows the last alternative. */
  function EncAlts(alts: seq<Branch>): (c: Code)
    decreases alts, 4
  {
    if alts == [] then []
    else
      var rest := EncAlts(alts[1..]);
      var body := EncBody(alts[0], To(|rest|));
      [BRANCH] + Off(3 + |body|) + body + rest
  }

  /** A whole program after the magic number. */
  function EncProgram(alts: seq<Branch>): Code {
    EncAlts(alts) + [END] + Off(0)
  }

  function Len(re: Re): (n: nat)
    ensures n >= 3
  {
    |Pre(re)| + 2 + |Post(re)|
  }

  // ---------- Regions of a program ----------

  ghost predicate Region(c: Code, a: nat, seg: Code) {
    a + |seg| <= |c| && c[a..a + |seg|] == seg
  }

  lemma RegionConcat(c: Code, a: nat, x: Code, y: Code)
    ensures Region(c, a, x + y) <==> Region(c, a, x) && Region(c, a + |x|, y)
  {
    if a + |x + y| <= |c| {
      var whole := c[a..a + |x + y|];
      assert c[a..a + |x|] == whole[..|x|] && c[a + |x|..a + |x| + |y|] == whole[|x|..];
      assert whole == whole[..|x|] + whole[|x|..];
    }
  }

  lemma RegionConcat3(c: Code, a: nat, x: Code, y: Code, z: Code)
    ensures Region(c, a, x + y + z) <==> Region(c, a, x) && Region(c, a + |x|, y) && Region(c, a + |x| + |y|, z)
  {
    RegionConcat(c, a, x + y, z);
    RegionConcat(c, a, x, y);
  }

  lemma RegionAt(c: Code, a: nat, seg: Code, k: nat)
    requires Region(c, a, seg) && k < |seg|
    ensures c[a + k] == seg[k]
  {
    assert c[a..a + |seg|][k] == seg[k];
  }

  /** The "next" pointer of the node at p. */
  function NextOff(c: Code, p: nat): nat
    requires p + 2 < |c|
  {
    (c[p + 1] as int) * 256 + (c[p + 2] as int)
  }

  lemma OffIs(c: Code, p: nat, op: Byte, n: nat)
    requires Region(c, p, [op] + Off(n)) && n < 0x1_0000
    ensures p + 2 < |c| && c[p] == op && NextOff(c, p) == n
  {
    RegionAt(c, p, [op] + Off(n), 0);
    RegionAt(c, p, [op] + Off(n), 1);
    RegionAt(c, p, [op] + Off(n), 2);
  }

  /** Where the chain of "next" pointers from p ends; -1 if it leaves the program or passes a
      BACK node that already leads somewhere. */
  function TailOf(c: Code, p: nat): (t: int)
    ensures t == -1 || (p <= t && t + 2 < |c| && NextOff(c, t) == 0)
    decreases |c| - p
  {
    if p + 2 >= |c| then -1
    else if NextOff(c, p) == 0 then p
    else if c[p] == BACK then -1
    else TailOf(c, p + NextOff(c, p))
  }

  /** Following "next" pointers from a leads to b, past no literal. */
  ghost predicate Leads(c: Code, a: nat, b: nat)
    decreases b - a
  {
    a == b || (a + 2 < |c| && c[a] != BACK && c[a] != EXACTLY && NextOff(c, a) > 0
               && a + NextOff(c, a) <= b && Leads(c, a + NextOff(c, a), b))
  }

  lemma {:induction false} LeadsOn(c: Code, a: nat, b: nat, d: nat)
    requires Leads(c, a, b) && Leads(c, b, d) && b <= d
    ensures Leads(c, a, d)
    decreases b - a
  {
    if a != b {
      LeadsOn(c, a + NextOff(c, a), b, d);
    }
  }

  lemma LeadsStep(c: Code, p: nat, op: Byte, n: nat)
    requires Region(c, p, [op] + Off(n)) && 0 < n < 0x1_0000 && op != BACK && op != EXACTLY
    ensures Leads(c, p, p + n)
  {
    OffIs(c, p, op, n);
    assert Leads(c, p + n, p + n);
  }

  lemma {:induction false} LeadsTail(c: Code, a: nat, b: nat)
    requires Leads(c, a, b)
    ensures TailOf(c, a) == TailOf(c, b)
    decreases b - a
  {
    if a != b {
      LeadsTail(c, a + NextOff(c, a), b);
    }
  }

  /** A node that leads n bytes forward passes its tail on. */
  lemma TailStep(c: Code, p: nat, op: Byte, n: nat)
    requires Region(c, p, [op] + Off(n)) && n < 0x1_0000 && op != BACK
    ensures TailOf(c, p) == if n == 0 then p else TailOf(c, p + n)
    ensures c[p] == op
  {
    OffIs(c, p, op, n);
  }

  /** The node that ends a piece. */
  function LastNode(re: Re): nat {
    |Pre(re)| - 1
  }

  function LastOp(re: Re): Byte {
    Pre(re)[|Pre(re)| - 1]
  }

  /** The last node of a piece, seen in the program. */
  lemma LastNodeRegion(c: Code, a: nat, re: Re, ex: Exit)
    requires Region(c, a, Enc(re, ex))
    ensures Region(c, a, Pre(re)) && Region(c, a + LastNode(re), [LastOp(re)] + ExitOff(ex, 3 + |Post(re)|))
    ensures Region(c, a + |Pre(re)| + 2, Post(re))
  {
    hide Region, Pre, Post, ExitOff;
    var pre, off, post := Pre(re), ExitOff(ex, 3 + |Post(re)|), Post(re);
    RegionConcat3(c, a, pre, off, post);
    LastByte(c, a, pre, off);
  }

  lemma LastByte(c: Code, a: nat, x: Code, y: Code)
    requires x != [] && Region(c, a, x) && Region(c, a + |x|, y)
    ensures Region(c, a + |x| - 1, [x[|x| - 1]] + y)
  {
    hide Region;
    var init, last := x[..|x| - 1], [x[|x| - 1]];
    assert x == init + last;
    RegionConcat(c, a, init, last);
    RegionConcat(c, a + |init|, last, y);
  }

  /** Following a piece from its first node leads to its last node if that dangles, and else
      to where that leads. */
  lemma {:induction false} TailPiece(c: Code, a: nat, re: Re, ex: Exit)
    requires Wf(re) && Region(c, a, Enc(re, ex)) && |c| < 0x8000
    requires ex.To? ==> a + Len(re) + ex.d < 0x1_0000
    ensures TailOf(c, a) == if ex.Dangling? then a + LastNode(re) else TailOf(c, a + Len(re) + ex.d)
    ensures a + LastNode(re) < |c| && c[a + LastNode(re)] == LastOp(re) != BACK
  {
    hide Region, Pre, Post, TailOf, Enc, Leads;
    LastNodeRegion(c, a, re, ex);
    EncLen(re, ex);
    RegionFits(c, a, Enc(re, ex));
    LeadsToLast(c, a, re);
    LeadsTail(c, a, a + LastNode(re));
    TailStep(c, a + LastNode(re), LastOp(re), if ex.Dangling? then 0 else 3 + |Post(re)| + ex.d);
  }

  /** A piece leads past its end, or else is a literal. */
  lemma {:induction false} LeadsPiece(c: Code, a: nat, re: Re, d: nat)
    requires Wf(re) && Region(c, a, Enc(re, To(d))) && |c| < 0x8000 && Len(re) + d < 0x1_0000 && !re.Lit?
    ensures Leads(c, a, a + Len(re) + d)
    decreases re, 1
  {
    hide Region, Pre, Post, TailOf, Enc, Leads;
    LastNodeRegion(c, a, re, To(d));
    EncLen(re, To(d));
    LeadsToLast(c, a, re);
    LeadsStep(c, a + LastNode(re), LastOp(re), 3 + |Post(re)| + d);
    LeadsOn(c, a, a + LastNode(re), a + Len(re) + d);
  }

  lemma EncLen(re: Re, ex: Exit)
    ensures |Enc(re, ex)| == Len(re) == LastNode(re) + 3 + |Post(re)|
  {
  }

  lemma RegionFits(c: Code, a: nat, seg: Code)
    requires Region(c, a, seg)
    ensures a + |seg| <= |c|
  {
  }

  /** The first node of a piece leads to its last node. */
  lemma {:induction false} LeadsToLast(c: Code, a: nat, re: Re)
    requires Wf(re) && Region(c, a, Pre(re)) && |c| < 0x8000
    ensures Leads(c, a, a + LastNode(re))
    ensures LastOp(re) != BACK && (LastOp(re) == EXACTLY <==> re.Lit?)
    decreases re, 0
  {
    hide Region, Enc, EncAlts, Off, Leads;
    RegionFits(c, a, Pre(re));
    match re
    case Group(no, alts) =>
      var open, body, close := [(OPEN + no) % 256] + Off(3), EncAlts(alts), [(CLOSE + no) % 256];
      RegionConcat3(c, a, open, body, close);
      LeadsStep(c, a, (OPEN + no) % 256, 3);
      LeadsAlts(c, a + 3, alts);
      LeadsOn(c, a, a + 3, a + 3 + |body|);
    case Rep(op, x) =>
      if op == Opt {
        LeadsOpt(c, a, Enc(x, To(3)));
      } else if !IsSimple(x) && op == Star {
        LeadsStar(c, a, Enc(x, To(0)));
      } else if !IsSimple(x) {
        LeadsPlus(c, a, x);
      } else {
        LeadsSelf(c, a);
      }
    case _ => LeadsSelf(c, a);
  }

  lemma LeadsSelf(c: Code, a: nat)
    ensures Leads(c, a, a)
  {
  }

  lemma LeadsOpt(c: Code, a: nat, e: Code)
    requires Region(c, a, [BRANCH] + Off(3 + |e|) + e + [BRANCH] + Off(3) + [NOTHING]) && |c| < 0x8000
    ensures Leads(c, a, a + 6 + |e|)
  {
    hide Region, Leads, Off;
    RegionFits(c, a, [BRANCH] + Off(3 + |e|) + e + [BRANCH] + Off(3) + [NOTHING]);
    RegionConcat(c, a, [BRANCH] + Off(3 + |e|) + e + [BRANCH] + Off(3), [NOTHING]);
    RegionConcat3(c, a, [BRANCH] + Off(3 + |e|) + e, [BRANCH], Off(3));
    RegionConcat(c, a + 3 + |e|, [BRANCH], Off(3));
    RegionConcat(c, a, [BRANCH] + Off(3 + |e|), e);
    LeadsStep(c, a, BRANCH, 3 + |e|);
    LeadsStep(c, a + 3 + |e|, BRANCH, 3);
    LeadsOn(c, a, a + 3 + |e|, a + 6 + |e|);
  }

  lemma LeadsStar(c: Code, a: nat, e: Code)
    requires Region(c, a, [BRANCH] + Off(6 + |e|) + e + [BACK] + Off(3 + |e|) + [BRANCH] + Off(3) + [NOTHING])
    requires |c| < 0x8000
    ensures Leads(c, a, a + 9 + |e|)
  {
    hide Region, Leads, Off;
    RegionFits(c, a, [BRANCH] + Off(6 + |e|) + e + [BACK] + Off(3 + |e|) + [BRANCH] + Off(3) + [NOTHING]);
    var head := [BRANCH] + Off(6 + |e|);
    RegionConcat(c, a, head + e + [BACK] + Off(3 + |e|) + [BRANCH] + Off(3), [NOTHING]);
    RegionConcat3(c, a, head + e + [BACK] + Off(3 + |e|), [BRANCH], Off(3));
    RegionConcat(c, a + 6 + |e|, [BRANCH], Off(3));
    RegionConcat3(c, a, head + e, [BACK], Off(3 + |e|));
    RegionConcat(c, a, head, e);
    LeadsStep(c, a, BRANCH, 6 + |e|);
    LeadsStep(c, a + 6 + |e|, BRANCH, 3);
    LeadsOn(c, a, a + 6 + |e|, a + 9 + |e|);
  }

  lemma LeadsPlus(c: Code, a: nat, x: Re)
    requires var e := Enc(x, To(0));
             Region(c, a, e + [BRANCH] + Off(6) + [BACK] + Off(3 + |e|) + [BRANCH] + Off(3) + [NOTHING])
    requires Wf(x) && !x.Lit? && |c| < 0x8000
    ensures Leads(c, a, a + 9 + |Enc(x, To(0))|)
    decreases x, 2
  {
    hide Region, Leads, Off, Enc;
    var e := Enc(x, To(0));
    EncLen(x, To(0));
    RegionFits(c, a, e + [BRANCH] + Off(6) + [BACK] + Off(3 + |e|) + [BRANCH] + Off(3) + [NOTHING]);
    RegionConcat(c, a, e + [BRANCH] + Off(6) + [BACK] + Off(3 + |e|) + [BRANCH] + Off(3), [NOTHING]);
    RegionConcat3(c, a, e + [BRANCH] + Off(6) + [BACK] + Off(3 + |e|), [BRANCH], Off(3));
    RegionConcat(c, a + |e| + 6, [BRANCH], Off(3));
    RegionConcat3(c, a, e + [BRANCH] + Off(6), [BACK], Off(3 + |e|));
    RegionConcat3(c, a, e, [BRANCH], Off(6));
    RegionConcat(c, a + |e|, [BRANCH], Off(6));
    LeadsPiece(c, a, x, 0);
    LeadsStep(c, a + |e|, BRANCH, 6);
    LeadsStep(c, a + |e| + 6, BRANCH, 3);
    LeadsOn(c, a, a + |e|, a + |e| + 6);
    LeadsOn(c, a, a + |e| + 6, a + |e| + 9);
  }

  lemma {:induction false} LeadsAlts(c: Code, a: nat, alts: seq<Branch>)
    requires Region(c, a, EncAlts(alts)) && |c| < 0x8000
    ensures Leads(c, a, a + |EncAlts(alts)|)
    decreases |alts|
  {
    hide Region, Leads, Off, EncBody;
    if alts == [] {
      LeadsSelf(c, a);
    } else {
      var rest := EncAlts(alts[1..]);
      var body := EncBody(alts[0], To(|rest|));
      RegionFits(c, a, EncAlts(alts));
      RegionConcat3(c, a, [BRANCH] + Off(3 + |body|), body, rest);
      LeadsStep(c, a, BRANCH, 3 + |body|);
      LeadsAlts(c, a + 3 + |body|, alts[1..]);
      LeadsOn(c, a, a + 3 + |body|, a + |EncAlts(alts)|);
    }
  }

  // ---------- Patching ----------

  /** Storing n in the "next" pointer of the node at t. */
  function SetOff(c: Code, t: nat, n: nat): (r: Code)
    requires t + 2 < |c|
    ensures |r| == |c|
  {
    c[t + 1 := Off(n)[0]][t + 2 := Off(n)[1]]
  }

  lemma PatchAt(c: Code, t: nat, n: nat, off: Code)
    requires |off| == 2 && t + 2 < |c| && Region(c, t, [c[t]] + off)
    ensures Region(SetOff(c, t, n), t, [c[t]] + Off(n))
  {
    var r := SetOff(c, t, n);
    assert r[t..t + 3] == [c[t]] + Off(n);
  }

  lemma PatchElsewhere(c: Code, t: nat, n: nat, a: nat, seg: Code)
    requires t + 2 < |c| && Region(c, a, seg) && (a + |seg| <= t + 1 || t + 3 <= a)
    ensures Region(SetOff(c, t, n), a, seg)
  {
    var r := SetOff(c, t, n);
    assert r[a..a + |seg|] == c[a..a + |seg|];
  }

  /** Patching inside a stretch leaves what is around it. */
  lemma PatchMiddle(c: Code, a: nat, x: Code, y: Code, z: Code, t: nat, n: nat, y': Code)
    requires Region(c, a, x + y + z) && |y'| == |y| && a + |x| <= t && t + 2 < a + |x| + |y| && t + 2 < |c|
    requires Region(SetOff(c, t, n), a + |x|, y')
    ensures Region(SetOff(c, t, n), a, x + y' + z)
  {
    hide Region, SetOff;
    RegionConcat3(c, a, x, y, z);
    PatchElsewhere(c, t, n, a, x);
    PatchElsewhere(c, t, n, a + |x| + |y|, z);
    RegionConcat3(SetOff(c, t, n), a, x, y', z);
  }

  /** Patching the last node of a dangling piece makes it lead to d bytes past its end. */
  lemma PatchPiece(c: Code, a: nat, re: Re, d: nat)
    requires Region(c, a, Enc(re, Dangling))
    ensures a + LastNode(re) + 2 < |c|
    ensures Region(SetOff(c, a + LastNode(re), 3 + |Post(re)| + d), a, Enc(re, To(d)))
  {
    hide Region, Pre, Post, SetOff, Off;
    var t, n := a + LastNode(re), 3 + |Post(re)| + d;
    EncLen(re, Dangling);
    EncLen(re, To(d));
    RegionFits(c, a, Enc(re, Dangling));
    LastNodeRegion(c, a, re, Dangling);
    RegionAt(c, t, [LastOp(re)] + Off(0), 0);
    PatchAt(c, t, n, Off(0));
    var c' := SetOff(c, t, n);
    PatchElsewhere(c, t, n, a, Pre(re));
    PatchElsewhere(c, t, n, t + 3, Post(re));
    RegionConcat(c', t, [LastOp(re)], Off(n));
    RegionConcat3(c', a, Pre(re), Off(n), Post(re));
  }

  // ---------- Sequences of pieces ----------

  function PiecesLen(ps: seq<Re>): nat {
    if ps == [] then 0 else Len(ps[0]) + PiecesLen(ps[1..])
  }

  lemma {:induction false} EncPiecesLen(ps: seq<Re>, ex: Exit)
    requires ps != []
    ensures |EncPieces(ps, ex)| == PiecesLen(ps)
    decreases |ps|
  {
    EncLen(ps[0], if |ps| == 1 then ex else To(0));
    if |ps| > 1 {
      EncPiecesLen(ps[1..], ex);
    } else {
      assert ps[1..] == [];
    }
  }

  lemma {:induction false} EncPiecesSnoc(ps: seq<Re>, p: Re, ex: Exit)
    requires ps != []
    ensures EncPieces(ps + [p], ex) == EncPieces(ps, To(0)) + Enc(p, ex)
    ensures PiecesLen(ps + [p]) == PiecesLen(ps) + Len(p)
    decreases |ps|
  {
    assert (ps + [p])[0] == ps[0];
    if |ps| == 1 {
      assert (ps + [p])[1..] == [p];
      assert PiecesLen([p]) == Len(p) + PiecesLen([p][1..]);
    } else {
      assert (ps + [p])[1..] == ps[1..] + [p];
      EncPiecesSnoc(ps[1..], p, ex);
      ConcatAssoc(Enc(ps[0], To(0)), EncPieces(ps[1..], To(0)), Enc(p, ex));
    }
  }

  lemma {:induction false} WfSnoc(ps: seq<Re>, p: Re)
    ensures WfPieces(ps + [p]) <==> WfPieces(ps) && Wf(p)
    decreases |ps|
  {
    if ps == [] {
      assert ps + [p] == [p] && [p][1..] == [];
    } else {
      assert (ps + [p])[0] == ps[0] && (ps + [p])[1..] == ps[1..] + [p];
      WfSnoc(ps[1..], p);
    }
  }

  /** The start of the last piece of a sequence. */
  function LastStart(ps: seq<Re>): nat
    requires ps != []
  {
    if |ps| == 1 then 0 else Len(ps[0]) + LastStart(ps[1..])
  }

  function Last(ps: seq<Re>): Re
    requires ps != []
  {
    ps[|ps| - 1]
  }

  /** The last node of a body, counted from its start. */
  function BodyLast(b: Branch): nat {
    if b.pieces == [] then 0 else LastStart(b.pieces) + LastNode(Last(b.pieces))
  }

  function BodyLen(b: Branch): nat {
    if b.pieces == [] then 3 else PiecesLen(b.pieces)
  }

  lemma EncBodyLen(b: Branch, ex: Exit)
    ensures |EncBody(b, ex)| == BodyLen(b)
  {
    if b.pieces != [] {
      EncPiecesLen(b.pieces, ex);
    }
  }

  lemma {:induction false} TailPieces(c: Code, a: nat, ps: seq<Re>)
    requires ps != [] && WfPieces(ps) && Region(c, a, EncPieces(ps, Dangling)) && |c| < 0x8000
    ensures var t := TailOf(c, a); t == a + LastStart(ps) + LastNode(Last(ps)) < |c| && c[t] != BACK
    decreases |ps|
  {
    hide Region, TailOf, Enc, Wf, Len, LastNode;
    if |ps| == 1 {
      TailPiece(c, a, ps[0], Dangling);
    } else {
      RegionConcat(c, a, Enc(ps[0], To(0)), EncPieces(ps[1..], Dangling));
      EncLen(ps[0], To(0));
      RegionFits(c, a, Enc(ps[0], To(0)));
      TailPiece(c, a, ps[0], To(0));
      TailPieces(c, a + Len(ps[0]), ps[1..]);
      assert Last(ps[1..]) == Last(ps);
    }
  }

  lemma {:induction false} PatchPieces(c: Code, a: nat, ps: seq<Re>, d: nat)
    requires ps != [] && Region(c, a, EncPieces(ps, Dangling))
    ensures a + LastStart(ps) + LastNode(Last(ps)) + 2 < |c|
    ensures Region(SetOff(c, a + LastStart(ps) + LastNode(Last(ps)), 3 + |Post(Last(ps))| + d), a, EncPieces(ps, To(d)))
    ensures LastStart(ps) + LastNode(Last(ps)) + 3 + |Post(Last(ps))| == PiecesLen(ps)
    decreases |ps|
  {
    hide Region, Enc, Len, LastNode, Pre, Post, SetOff, Off;
    EncLen(ps[0], To(0));
    if |ps| == 1 {
      PatchPiece(c, a, ps[0], d);
      assert ps[1..] == [];
    } else {
      var n := 3 + |Post(Last(ps))| + d;
      var t := a + LastStart(ps) + LastNode(Last(ps));
      RegionConcat(c, a, Enc(ps[0], To(0)), EncPieces(ps[1..], Dangling));
      assert Last(ps[1..]) == Last(ps);
      PatchPieces(c, a + Len(ps[0]), ps[1..], d);
      PatchElsewhere(c, t, n, a, Enc(ps[0], To(0)));
      RegionConcat(SetOff(c, t, n), a, Enc(ps[0], To(0)), EncPieces(ps[1..], To(d)));
    }
  }

  lemma TailBody(c: Code, a: nat, b: Branch)
    requires WfPieces(b.pieces) && Region(c, a, EncBody(b, Dangling)) && |c| < 0x8000
    ensures TailOf(c, a) == a + BodyLast(b) < |c| && c[a + BodyLast(b)] != BACK
  {
    hide Region, TailOf;
    if b.pieces == [] {
      TailStep(c, a, NOTHING, 0);
    } else {
      TailPieces(c, a, b.pieces);
    }
  }

  /** Patching a dangling body makes it lead d bytes past its end. */
  lemma PatchBody(c: Code, a: nat, b: Branch, d: nat)
    requires Region(c, a, EncBody(b, Dangling))
    ensures a + BodyLast(b) + 2 < |c| && BodyLast(b) + 3 <= BodyLen(b)
    ensures Region(SetOff(c, a + BodyLast(b), BodyLen(b) - BodyLast(b) + d), a, EncBody(b, To(d)))
  {
    hide Region, SetOff, Off, Enc, Len, Pre, Post, LastNode;
    if b.pieces == [] {
      RegionFits(c, a, [NOTHING] + Off(0));
      RegionAt(c, a, [NOTHING] + Off(0), 0);
      PatchAt(c, a, 3 + d, Off(0));
    } else {
      PatchPieces(c, a, b.pieces, d);
    }
  }

  // ---------- Alternatives while reg puts them together ----------

  /** A BRANCH node that leads nowhere yet, with a dangling operand. */
  function BranchOpen(b: Branch): Code {
    [BRANCH] + Off(0) + EncBody(b, Dangling)
  }

  /** A BRANCH node that leads to what follows its operand. */
  function BranchTo(b: Branch, ex: Exit): Code {
    [BRANCH] + Off(3 + BodyLen(b)) + EncBody(b, ex)
  }

  function AltsLen(alts: seq<Branch>): nat {
    if alts == [] then 0 else 3 + BodyLen(alts[0]) + AltsLen(alts[1..])
  }

  /** Alternatives that are linked, the operands of the first j of which lead to what follows
      the last alternative, while those of the others still dangle. */
  function MixAlts(alts: seq<Branch>, j: nat): (c: Code)
    ensures |c| == AltsLen(alts)
  {
    if alts == [] then []
    else
      EncBodyLen(alts[0], Dangling);
      EncBodyLen(alts[0], To(AltsLen(alts[1..])));
      BranchTo(alts[0], if j > 0 then To(AltsLen(alts[1..])) else Dangling)
      + MixAlts(alts[1..], if j > 0 then j - 1 else 0)
  }

  lemma {:induction false} MixAll(alts: seq<Branch>, j: nat)
    requires j >= |alts|
    ensures MixAlts(alts, j) == EncAlts(alts)
    decreases |alts|
  {
    hide EncBody, Off;
    if alts != [] {
      MixAll(alts[1..], j - 1);
      EncBodyLen(alts[0], To(|EncAlts(alts[1..])|));
    }
  }

  lemma {:induction false} MixSnoc(alts: seq<Branch>, b: Branch)
    ensures MixAlts(alts + [b], 0) == MixAlts(alts, 0) + BranchTo(b, Dangling)
    ensures AltsLen(alts + [b]) == AltsLen(alts) + 3 + BodyLen(b)
    decreases |alts|
  {
    if alts == [] {
      assert alts + [b] == [b] && [b][1..] == [];
      assert MixAlts([b], 0) == BranchTo(b, Dangling) + MixAlts([], 0);
    } else {
      assert (alts + [b])[0] == alts[0] && (alts + [b])[1..] == alts[1..] + [b];
      MixSnoc(alts[1..], b);
      ConcatAssoc(BranchTo(alts[0], Dangling), MixAlts(alts[1..], 0), BranchTo(b, Dangling));
    }
  }

  /** Following linked alternatives leads past the last one. */
  lemma {:induction false} TailMix(c: Code, a: nat, alts: seq<Branch>, j: nat)
    requires Region(c, a, MixAlts(alts, j)) && |c| < 0x8000
    ensures TailOf(c, a) == TailOf(c, a + AltsLen(alts))
    decreases |alts|
  {
    hide Region, TailOf, Off, EncBody;
    if alts != [] {
      var ex := if j > 0 then To(AltsLen(alts[1..])) else Dangling;
      EncBodyLen(alts[0], ex);
      RegionFits(c, a, MixAlts(alts, j));
      RegionConcat3(c, a, [BRANCH] + Off(3 + BodyLen(alts[0])), EncBody(alts[0], ex),
        MixAlts(alts[1..], if j > 0 then j - 1 else 0));
      TailStep(c, a, BRANCH, 3 + BodyLen(alts[0]));
      TailMix(c, a + 3 + BodyLen(alts[0]), alts[1..], if j > 0 then j - 1 else 0);
    }
  }

  /** Linking the last alternative to what follows it. */
  lemma LinkLast(c: Code, a: nat, alts: seq<Branch>, b: Branch)
    requires Region(c, a, MixAlts(alts, 0) + BranchOpen(b)) && |c| < 0x8000
    ensures TailOf(c, a) == a + AltsLen(alts) && a + AltsLen(alts) + 3 + BodyLen(b) <= |c|
    ensures c[a + AltsLen(alts)] == BRANCH
    ensures Region(SetOff(c, a + AltsLen(alts), 3 + BodyLen(b)), a, MixAlts(alts + [b], 0))
  {
    hide Region, TailOf, Off, EncBody, SetOff, MixAlts;
    var t, n := a + AltsLen(alts), 3 + BodyLen(b);
    EncBodyLen(b, Dangling);
    RegionFits(c, a, MixAlts(alts, 0) + BranchOpen(b));
    RegionConcat(c, a, MixAlts(alts, 0), BranchOpen(b));
    RegionConcat(c, t, [BRANCH] + Off(0), EncBody(b, Dangling));
    TailMix(c, a, alts, 0);
    TailStep(c, t, BRANCH, 0);
    RegionAt(c, t, [BRANCH] + Off(0), 0);
    PatchAt(c, t, n, Off(0));
    ConcatAssoc(MixAlts(alts, 0), [BRANCH] + Off(0), EncBody(b, Dangling));
    PatchMiddle(c, a, MixAlts(alts, 0), [BRANCH] + Off(0), EncBody(b, Dangling), t, n, [BRANCH] + Off(n));
    ConcatAssoc(MixAlts(alts, 0), [BRANCH] + Off(n), EncBody(b, Dangling));
    MixSnoc(alts, b);
  }

  /** What tying the operand of alternative j to what follows the last alternative does. */
  ghost predicate Tied(c: Code, a: nat, alts: seq<Branch>, j: nat)
    requires j < |alts|
  {
    var p := a + AltsLen(alts[..j]);
    var t := p + 3 + BodyLast(alts[j]);
    && p + 3 + BodyLen(alts[j]) <= |c| && c[p] == BRANCH && NextOff(c, p) == 3 + BodyLen(alts[j])
    && AltsLen(alts[..j + 1]) == AltsLen(alts[..j]) + 3 + BodyLen(alts[j]) <= AltsLen(alts)
    && TailOf(c, p + 3) == t && t + 2 < p + 3 + BodyLen(alts[j]) && c[t] != BACK
    && Region(SetOff(c, t, a + AltsLen(alts) - t), a, MixAlts(alts, j + 1))
  }

  lemma TieFirst(c: Code, a: nat, alts: seq<Branch>)
    requires alts != [] && WfAlts(alts) && Region(c, a, MixAlts(alts, 0)) && |c| < 0x8000
    ensures Tied(c, a, alts, 0)
  {
    hide Region, TailOf, Off, EncBody, SetOff, NextOff, Wf, WfPieces, BodyLen, BodyLast;
    var b, rest := alts[0], alts[1..];
    EncBodyLen(b, Dangling);
    EncBodyLen(b, To(AltsLen(rest)));
    RegionFits(c, a, MixAlts(alts, 0));
    RegionConcat(c, a, BranchTo(b, Dangling), MixAlts(rest, 0));
    RegionConcat(c, a, [BRANCH] + Off(3 + BodyLen(b)), EncBody(b, Dangling));
    assert alts[..0] == [] && alts[..1] == [b] && [b][1..] == [];
    OffIs(c, a, BRANCH, 3 + BodyLen(b));
    TailBody(c, a + 3, b);
    PatchBody(c, a + 3, b, AltsLen(rest));
    var t := a + 3 + BodyLast(b);
    var n := BodyLen(b) - BodyLast(b) + AltsLen(rest);
    PatchMiddle(c, a, [BRANCH] + Off(3 + BodyLen(b)), EncBody(b, Dangling), MixAlts(rest, 0), t, n,
                EncBody(b, To(AltsLen(rest))));
  }

  lemma {:induction false} TieOperand(c: Code, a: nat, alts: seq<Branch>, j: nat)
    requires j < |alts| && WfAlts(alts) && Region(c, a, MixAlts(alts, j)) && |c| < 0x8000
    ensures Tied(c, a, alts, j)
    decreases |alts|
  {
    hide Region, TailOf, Off, EncBody, SetOff, NextOff, BranchTo, Wf, WfPieces, BodyLen, BodyLast;
    if j == 0 {
      TieFirst(c, a, alts);
    } else {
      var b, rest := alts[0], alts[1..];
      var ex := To(AltsLen(rest));
      BranchLen(b, ex);
      RegionFits(c, a, MixAlts(alts, j));
      RegionConcat(c, a, BranchTo(b, ex), MixAlts(rest, j - 1));
      var a' := a + 3 + BodyLen(b);
      LenBehind(alts, j);
      LenBehind(alts, j + 1);
      LenBehind(alts, |alts|);
      assert MixAlts(alts, j + 1) == BranchTo(b, ex) + MixAlts(rest, j);
      TieOperand(c, a', rest, j - 1);
      hide AltsLen, MixAlts;
      var t := a' + AltsLen(rest[..j - 1]) + 3 + BodyLast(rest[j - 1]);
      var n := a + AltsLen(alts) - t;
      PatchElsewhere(c, t, n, a, BranchTo(b, ex));
      RegionConcat(SetOff(c, t, n), a, BranchTo(b, ex), MixAlts(rest, j));
    }
  }

  lemma LenBehind(alts: seq<Branch>, j: nat)
    requires 0 < j <= |alts|
    ensures AltsLen(alts[..j]) == 3 + BodyLen(alts[0]) + AltsLen(alts[1..][..j - 1])
    ensures alts[..|alts|] == alts && alts[1..][..|alts| - 1] == alts[1..]
  {
    assert alts[..j][0] == alts[0] && alts[..j][1..] == alts[1..][..j - 1];
  }

  lemma BranchLen(b: Branch, ex: Exit)
    ensures |BranchTo(b, ex)| == 3 + BodyLen(b)
  {
    EncBodyLen(b, ex);
  }
}
