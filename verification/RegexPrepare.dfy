/** regcomp: the two passes, and the information that regexec uses to reject strings quickly. */
module RegexPrepare {
  import opened Basics
  import opened RegexSyntax
  import opened RegexCode
  import opened RegexPatch
  import opened RegexCompile
  import opened RegexGroups

  /** A compiled expression; regmust is a position in the program, -1 for none. */
  datatype Regexp = Regexp(program: Code, regstart: Byte, reganch: bool, regmust: int, regmlen: nat)

  // ---------- What the fields mean ----------

  /** The last of the longest literals among some pieces; -1 if there is none. */
  function Longest(ps: seq<Re>): (k: int)
    ensures -1 <= k < |ps|
    ensures k >= 0 ==> ps[k].Lit?
    ensures forall j | 0 <= j < |ps| && ps[j].Lit? ::
              k >= 0 && |ps[j].str| <= |ps[k].str| && (j > k ==> |ps[j].str| < |ps[k].str|)
  {
    if ps == [] then -1
    else
      var n := |ps| - 1;
      var k := Longest(ps[..n]);
      if ps[n].Lit? && (k < 0 || |ps[n].str| >= |ps[k].str|) then n else k
  }

  /** The only alternative's first piece, if there is one. */
  predicate Starts(alts: seq<Branch>) {
    |alts| == 1 && alts[0].pieces != []
  }

  function StartOf(alts: seq<Branch>): Byte {
    if Starts(alts) && alts[0].pieces[0].Lit? && alts[0].pieces[0].str != [] then alts[0].pieces[0].str[0] else 0
  }

  predicate AnchorOf(alts: seq<Branch>) {
    Starts(alts) && alts[0].pieces[0].Bol?
  }

  /** The piece that regmust points into; -1 for none. */
  function MustOf(alts: seq<Branch>): int {
    if |alts| == 1 && AltsSpStart(alts) then Longest(alts[0].pieces) else -1
  }

  /** What regcomp makes of the alternatives of a pattern. */
  ghost predicate Compiled(r: Regexp, alts: seq<Branch>) {
    && alts != [] && WfAlts(alts) && AltsNumbered(alts, AltsTab(alts), 0)
    && r.program == [MAGIC] + EncProgram(alts) && |r.program| < 0x7fff
    && r.regstart == StartOf(alts) && r.reganch == AnchorOf(alts)
    && if MustOf(alts) < 0 then r.regmust == -1
       else
         var str := alts[0].pieces[MustOf(alts)].str;
         r.regmlen == |str| && r.regmust >= 0 && Region(r.program, r.regmust, str + [0])
  }

  // ---------- The chain of the only alternative ----------

  /** Where piece k starts in a program with one alternative. */
  function PieceAt(ps: seq<Re>, k: nat): nat
    requires k <= |ps|
  {
    4 + PiecesLen(ps[..k])
  }

  /** Where the END node is. */
  function EndAt(ps: seq<Re>): nat {
    4 + BodyLen(Branch(ps))
  }

  lemma OneAlternative(b: Branch)
    ensures var c := [MAGIC] + EncProgram([b]);
            && |c| == 7 + BodyLen(b)
            && Region(c, 1, Node(BRANCH, 3 + BodyLen(b))) && Region(c, 4, EncBody(b, To(0)))
            && Region(c, 4 + BodyLen(b), Node(END, 0))
  {
    hide EncBody, BodyLen, Region, Off;
    var head, body, tail := Node(BRANCH, 3 + BodyLen(b)), EncBody(b, To(0)), Node(END, 0);
    EncBodyLen(b, To(0));
    assert [b][1..] == [] && EncAlts([]) == [];
    assert EncAlts([b]) == head + body;
    var c := [MAGIC] + EncProgram([b]);
    assert c == [MAGIC] + (head + body + tail);
    assert [MAGIC] + (head + body + tail) + [] == c;
    MidRegion([MAGIC], head + body + tail, []);
    RegionConcat3(c, 1, head, body, tail);
  }

  /** With several alternatives the first BRANCH node leads to another one. */
  lemma ManyAlternatives(alts: seq<Branch>)
    requires |alts| > 1 && |EncProgram(alts)| < 0x7fff
    ensures var c := [MAGIC] + EncProgram(alts);
            3 < |c| && c[1] == BRANCH && 0 < NextOff(c, 1) && 1 + NextOff(c, 1) < |c| && c[1 + NextOff(c, 1)] == BRANCH
  {
    hide EncBody, Region, Off;
    var rest := EncAlts(alts[1..]);
    var body := EncBody(alts[0], To(|rest|));
    var head := Node(BRANCH, 3 + |body|);
    var c := [MAGIC] + EncProgram(alts);
    assert EncAlts(alts) == head + body + rest;
    MidRegion([MAGIC], EncAlts(alts), Node(END, 0));
    assert c == [MAGIC] + EncAlts(alts) + Node(END, 0);
    RegionConcat3(c, 1, head, body, rest);
    OffIs(c, 1, BRANCH, 3 + |body|);
    assert alts[1..] != [] && rest[0] == BRANCH;
    RegionAt(c, 1 + 3 + |body|, rest, 0);
  }

  /** Piece k of the only alternative. */
  lemma {:induction false} PieceRegion(c: Code, a: nat, ps: seq<Re>, k: nat)
    requires k < |ps| && Region(c, a, EncPieces(ps, To(0)))
    ensures Region(c, a + PiecesLen(ps[..k]), Enc(ps[k], To(0)))
    ensures PiecesLen(ps[..k + 1]) == PiecesLen(ps[..k]) + Len(ps[k]) <= PiecesLen(ps)
    decreases |ps|
  {
    hide Region, Enc, Len;
    PiecesLenAdds(ps[..k + 1], ps[k + 1..]);
    assert ps[..k + 1] + ps[k + 1..] == ps;
    EncLen(ps[0], To(0));
    if |ps| > 1 {
      RegionConcat(c, a, Enc(ps[0], To(0)), EncPieces(ps[1..], To(0)));
    }
    if k == 0 {
      assert ps[..0] == [] && ps[..1] == [ps[0]] && [ps[0]][1..] == [];
    } else {
      assert ps[..k][0] == ps[0] && ps[..k][1..] == ps[1..][..k - 1];
      assert ps[..k + 1][0] == ps[0] && ps[..k + 1][1..] == ps[1..][..k];
      PieceRegion(c, a + Len(ps[0]), ps[1..], k - 1);
    }
  }

  /** The first node of a piece is a literal or ^ only if the piece is. */
  lemma FirstOp(re: Re, ex: Exit)
    requires Wf(re)
    ensures Enc(re, ex)[0] == EXACTLY <==> re.Lit?
    ensures Enc(re, ex)[0] == BOL <==> re.Bol?
  {
    if re.Rep? && re.op == Plus && !IsSimple(re.x) {
      assert re.x.Group?;
      assert Enc(re, ex)[0] == Enc(re.x, To(0))[0];
    }
  }

  // ---------- Digging out the information ----------

  method StrLen(c: Compiler, p: nat, ghost str: Code) returns (n: nat)
    requires c.Valid() && c.emitting && Region(c.code, p, str + [0]) && 0 !in str
    ensures n == |str|
  {
    hide Region;
    c.CodeFits();
    RegionFits(c.code, p, str + [0]);
    n := 0;
    StrAt(c, p, str, 0);
    while c.program[p + n] != 0
      invariant n <= |str| && c.program[p + n] == (str + [0])[n]
      decreases |str| - n
    {
      n := n + 1;
      StrAt(c, p, str, n);
    }
  }

  lemma StrAt(c: Compiler, p: nat, str: Code, k: nat)
    requires c.Valid() && c.emitting && Region(c.code, p, str + [0]) && k <= |str|
    ensures p + k < |c.code| == c.regcode <= c.program.Length && c.program[p + k] == (str + [0])[k]
  {
    RegionAt(c.code, p, str + [0], k);
  }

  /** The node at scan, on the way to piece k of the only alternative or to the END node. */
  ghost predicate OnTheWay(c: Code, ps: seq<Re>, k: nat, scan: nat) {
    && k <= |ps| && (k < |ps| ==> ps[k].Lit?)
    && Leads(c, scan, if k == |ps| then EndAt(ps) else PieceAt(ps, k))
  }

  /** A program with one alternative. */
  ghost predicate Single(c: Code, ps: seq<Re>) {
    c == [MAGIC] + EncProgram([Branch(ps)]) && WfPieces(ps) && |c| < 0x7fff
  }

  /** The next literal from piece k on. */
  ghost function NextLit(ps: seq<Re>, k: nat): (n: nat)
    requires k <= |ps|
    ensures k <= n <= |ps| && (n < |ps| ==> ps[n].Lit?)
    ensures forall j | k <= j < n :: !ps[j].Lit?
    decreases |ps| - k
  {
    if k == |ps| || ps[k].Lit? then k else NextLit(ps, k + 1)
  }

  lemma {:induction false} LongestSkips(ps: seq<Re>, k: nat, n: nat)
    requires k <= n <= |ps| && forall j | k <= j < n :: !ps[j].Lit?
    ensures Longest(ps[..n]) == Longest(ps[..k])
    decreases n
  {
    if k < n {
      assert ps[..n][..n - 1] == ps[..n - 1];
      LongestSkips(ps, k, n - 1);
    }
  }

  /** From the start of piece k, with no literal before piece n, the chain leads to piece n. */
  lemma {:induction false} LeadsToLit(c: Code, ps: seq<Re>, k: nat, n: nat)
    requires Single(c, ps) && ps != [] && k <= n <= |ps| && forall j | k <= j < n :: !ps[j].Lit?
    ensures PieceAt(ps, k) <= PieceAt(ps, n) && Leads(c, PieceAt(ps, k), PieceAt(ps, n))
    decreases n - k
  {
    hide Leads, Region, Enc, Len, EncProgram, EncPieces, PiecesLen;
    if k == n {
      LeadsSelf(c, PieceAt(ps, k));
    } else {
      OneAlternative(Branch(ps));
      PieceRegion(c, 4, ps, k);
      WfAt(ps, k);
      LeadsPiece(c, PieceAt(ps, k), ps[k], 0);
      LeadsToLit(c, ps, k + 1, n);
      LeadsOn(c, PieceAt(ps, k), PieceAt(ps, k + 1), PieceAt(ps, n));
    }
  }

  lemma {:induction false} WfAt(ps: seq<Re>, k: nat)
    requires k < |ps| && WfPieces(ps)
    ensures Wf(ps[k])
    decreases |ps|
  {
    if k > 0 {
      WfAt(ps[1..], k - 1);
    }
  }

  /** The chain from the operand of the BRANCH node. */
  lemma WayStart(c: Code, ps: seq<Re>)
    requires Single(c, ps)
    ensures OnTheWay(c, ps, NextLit(ps, 0), 4) && Longest(ps[..NextLit(ps, 0)]) == -1
  {
    hide Leads, Region, EncProgram, EncPieces;
    OneAlternative(Branch(ps));
    if ps == [] {
      LeadsStep(c, 4, NOTHING, 3);
    } else {
      LeadsToLit(c, ps, 0, NextLit(ps, 0));
      assert ps[..0] == [] && ps[..|ps|] == ps;
    }
    LongestSkips(ps, 0, NextLit(ps, 0));
  }

  /** What the loop sees at the node at scan: a literal, a node on the way, or the end. */
  lemma WayNext(c: Code, ps: seq<Re>, k: nat, scan: nat)
    requires Single(c, ps) && OnTheWay(c, ps, k, scan)
    ensures scan + 2 < |c| && c[scan] != BACK
    ensures c[scan] == EXACTLY ==> k < |ps| && ps[k].Lit?
    ensures c[scan] == EXACTLY <==> k < |ps| && scan == PieceAt(ps, k)
    ensures c[scan] == EXACTLY ==> Region(c, scan + 3, ps[k].str + [0]) && 0 !in ps[k].str && NextOff(c, scan) > 0
                                   && OnTheWay(c, ps, NextLit(ps, k + 1), scan + NextOff(c, scan))
    ensures NextOff(c, scan) == 0 <==> k == |ps| && scan == EndAt(ps)
    ensures c[scan] != EXACTLY && NextOff(c, scan) > 0 ==> OnTheWay(c, ps, k, scan + NextOff(c, scan))
  {
    hide EncProgram, EncPieces, Enc, PiecesLen, Region, Off;
    OneAlternative(Branch(ps));
    if k == |ps| {
      if scan == EndAt(ps) {
        OffIs(c, scan, END, 0);
      }
    } else if scan == PieceAt(ps, k) {
      PieceRegion(c, 4, ps, k);
      WfAt(ps, k);
      LitRegion(c, scan, ps[k]);
      LeadsToLit(c, ps, k + 1, NextLit(ps, k + 1));
      assert ps[..|ps|] == ps;
    }
  }

  lemma LitRegion(c: Code, a: nat, re: Re)
    requires re.Lit? && Wf(re) && Region(c, a, Enc(re, To(0))) && |c| < 0x8000
    ensures a + 2 < |c| && c[a] == EXACTLY && NextOff(c, a) == Len(re) > 0 && Region(c, a + 3, re.str + [0])
            && 0 !in re.str
  {
    hide Region, Off;
    LastNodeRegion(c, a, re, To(0));
    EncLen(re, To(0));
    RegionFits(c, a, Enc(re, To(0)));
    OffIs(c, a, EXACTLY, Len(re));
  }

  /** longest and len describe piece b of the only alternative, or nothing. */
  ghost predicate Must(c: Code, ps: seq<Re>, b: int, longest: int, len: nat)
    requires b < |ps| && (b >= 0 ==> ps[b].Lit?)
  {
    if b < 0 then longest == -1 && len == 0
    else len == |ps[b].str| && longest >= 0 && Region(c, longest, ps[b].str + [0])
  }

  lemma MustStep(c: Code, ps: seq<Re>, k: nat, longest: int, len: nat, p: nat)
    requires k < |ps| && ps[k].Lit? && Must(c, ps, Longest(ps[..k]), longest, len) && Region(c, p, ps[k].str + [0])
    ensures var n := |ps[k].str|; var b := Longest(ps[..NextLit(ps, k + 1)]);
            if n >= len then Must(c, ps, b, p, n) else Must(c, ps, b, longest, len)
  {
    hide Region;
    assert ps[..k + 1][..k] == ps[..k];
    LongestSkips(ps, k + 1, NextLit(ps, k + 1));
  }

  /** The longest literal that must appear. */
  method FindMust(c: Compiler, ghost ps: seq<Re>) returns (longest: int, len: nat)
    requires c.Valid() && c.emitting && Single(c.code, ps)
    ensures Must(c.code, ps, Longest(ps), longest, len)
  {
    hide c.Valid, Single, OnTheWay, Must, Region, NextOff, Longest, NextLit;
    longest, len := -1, 0;
    ghost var k: nat := NextLit(ps, 0);
    WayStart(c.code, ps);
    MustNone(c.code, ps, k);
    var scan: int := 4;
    while scan != -1
      invariant scan >= -1 && k <= |ps| && (if scan == -1 then k == |ps| else OnTheWay(c.code, ps, k, scan))
      invariant Must(c.code, ps, Longest(ps[..k]), longest, len)
      decreases if scan == -1 then 0 else 1 + |c.code| - scan
    {
      c.CodeFits();
      WayNext(c.code, ps, k, scan);
      ProgramAt(c, scan);
      ghost var j := k;
      if c.program[scan] == EXACTLY {
        var n := StrLen(c, scan + 3, ps[k].str);
        MustStep(c.code, ps, k, longest, len, scan + 3);
        if n >= len {
          longest, len := scan + 3, n;
        }
        k := NextLit(ps, k + 1);
      }
      scan := c.RegNext(scan);
    }
    assert ps[..|ps|] == ps;
  }

  lemma MustNone(c: Code, ps: seq<Re>, k: nat)
    requires k <= |ps| && Longest(ps[..k]) == -1
    ensures Must(c, ps, Longest(ps[..k]), -1, 0)
  {
  }

  lemma ProgramAt(c: Compiler, p: nat)
    requires c.Valid() && c.emitting && p < |c.code|
    ensures p < c.program.Length && c.program[p] == c.code[p]
  {
  }

  /** The information about a compiled program. */
  method DigOut(c: Compiler, flags: Flags, ghost alts: seq<Branch>)
    returns (regstart: Byte, reganch: bool, longest: int, len: nat)
    requires c.Valid() && c.emitting && c.code == [MAGIC] + EncProgram(alts) && |c.code| < 0x7fff
    requires alts != [] && WfAlts(alts) && flags == AltsFlags(alts)
    ensures regstart == StartOf(alts) && reganch == AnchorOf(alts)
    ensures if MustOf(alts) < 0 then longest == -1 else Must(c.code, alts[0].pieces, MustOf(alts), longest, len)
  {
    hide c.Valid, Region, NextOff, Longest, EncProgram, EncBody, AltsSpStart, AltsHaveWidth, PiecesHaveWidth, SpStart;
    regstart, reganch, longest, len := 0, false, -1, 0;
    FirstBranch(c.code, alts);
    var next := c.RegNext(1);
    ProgramAt(c, next);
    if c.program[next] == END {
      ghost var ps := alts[0].pieces;
      Operand(c.code, ps);
      ProgramAt(c, 4);
      if c.program[4] == EXACTLY {
        ProgramAt(c, 7);
        regstart := c.program[7];
      } else if c.program[4] == BOL {
        reganch := true;
      }
      if flags.spStart {
        longest, len := FindMust(c, ps);
      }
    }
  }

  /** The first BRANCH node leads to the END node exactly when it is the only one. */
  lemma FirstBranch(c: Code, alts: seq<Branch>)
    requires c == [MAGIC] + EncProgram(alts) && |c| < 0x7fff && alts != [] && WfAlts(alts)
    ensures 3 < |c| && c[1] == BRANCH && 0 < NextOff(c, 1) && 1 + NextOff(c, 1) < |c|
    ensures c[1 + NextOff(c, 1)] == END <==> |alts| == 1
    ensures |alts| == 1 ==> alts == [Branch(alts[0].pieces)] && Single(c, alts[0].pieces)
  {
    hide EncProgram, Off, Region;
    if |alts| > 1 {
      ManyAlternatives(alts);
    } else {
      var b := alts[0];
      assert alts == [b];
      OneAlternative(b);
      OffIs(c, 1, BRANCH, 3 + BodyLen(b));
      OffIs(c, 4 + BodyLen(b), END, 0);
    }
  }

  /** The first node of the only alternative. */
  lemma Operand(c: Code, ps: seq<Re>)
    requires Single(c, ps)
    ensures 6 < |c|
    ensures c[4] == EXACTLY <==> ps != [] && ps[0].Lit?
    ensures c[4] == BOL <==> ps != [] && ps[0].Bol?
    ensures c[4] == EXACTLY ==> 7 < |c| && ps[0].str != [] && c[7] == ps[0].str[0]
  {
    hide EncProgram, Off, Region, EncPieces, Enc;
    OneAlternative(Branch(ps));
    RegionFits(c, 4, EncBody(Branch(ps), To(0)));
    if ps == [] {
      RegionAt(c, 4, EncBody(Branch(ps), To(0)), 0);
    } else {
      PieceRegion(c, 4, ps, 0);
      assert ps[..0] == [];
      WfAt(ps, 0);
      FirstOp(ps[0], To(0));
      EncLen(ps[0], To(0));
      RegionAt(c, 4, Enc(ps[0], To(0)), 0);
      if ps[0].Lit? {
        LitRegion(c, 4, ps[0]);
        RegionAt(c, 7, ps[0].str + [0], 0);
      }
    }
  }

  lemma Complete(exp: seq<Byte>, r: Regexp)
    requires 0 !in exp && Parse(exp).Good? && var alts := Parse(exp).val;
             && r.program == [MAGIC] + EncProgram(alts) && |r.program| < 0x7fff && r.regstart == StartOf(alts)
             && r.reganch == AnchorOf(alts)
             && if MustOf(alts) < 0 then r.regmust == -1
               else Must(r.program, alts[0].pieces, MustOf(alts), r.regmust, r.regmlen)
    ensures Compiled(r, Parse(exp).val)
  {
    hide EncProgram, Region;
    AltsWf(exp, 0, 1);
    AltsNumbers(exp, 0, 1);
  }

  /** regcomp: fails exactly on malformed patterns and on those whose program would be too big. */
  method RegComp(exp: seq<Byte>) returns (ok: bool, r: Regexp)
    requires 0 !in exp
    ensures var p := Parse(exp); ok <==> p.Good? && 1 + |EncProgram(p.val)| < 32767
    ensures ok ==> Compiled(r, Parse(exp).val)
  {
    hide Compiled, StartOf, AnchorOf, MustOf, Must, ParseAlts, EncAlts, WfAlts;
    r := Regexp([], 0, false, -1, 0);
    ghost var p := Parse(exp);
    var c := new Compiler(exp);
    // counting run: rejects malformed patterns and leaves the length of the program in regsize
    c.RegC(MAGIC);
    var first, flags;
    ok, first, flags := c.Reg(false);
    if !ok {
      return;
    }
    if c.regsize >= 32767 {
      return false, r;
    }
    // writing run: the same parse again, now into an array of that length
    c.program := new Byte[c.regsize];
    c.regparse, c.regnpar, c.regcode, c.emitting, c.code := 0, 1, 0, true, [];
    c.RegC(MAGIC);
    ok, first, flags := c.Reg(false);
    AltsWf(exp, 0, 1);
    var regstart, reganch, longest, len := DigOut(c, flags, p.val);
    r := Regexp(c.program[..], regstart, reganch, longest, len);
    Complete(exp, r);
  }
}
