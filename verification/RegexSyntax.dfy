/** Regular expressions as regcomp reads them: the syntax tree, and the grammar as a parser that
    makes the decisions of reg, regbranch, regpiece and regatom. */
module RegexSyntax {
  import opened Basics

  const NSUBEXP := 10

  datatype RepOp = Star | Plus | Opt

  /** An alternative is a sequence of pieces; a group is a sequence of alternatives. */
  datatype Branch = Branch(pieces: seq<Re>)

  datatype Re =
    | Bol
    | Eol
    | Any
    | Class(neg: bool, chars: seq<Byte>)
    | Lit(str: seq<Byte>)
    | Group(no: nat, alts: seq<Branch>)
    | Rep(op: RepOp, x: Re)

  datatype Parsed<T> = Bad | Good(val: T, pos: nat, npar: nat)

  const CARET: Byte := 94
  const DOLLAR: Byte := 36
  const DOT: Byte := 46
  const LBRACKET: Byte := 91
  const RBRACKET: Byte := 93
  const DASH: Byte := 45
  const LPAREN: Byte := 40
  const RPAREN: Byte := 41
  const BAR: Byte := 124
  const QUESTION: Byte := 63
  const PLUS_SIGN: Byte := 43
  const ASTERISK: Byte := 42
  const BACKSLASH: Byte := 92

  /** The character at position i of a C string: past its text there is the NUL. */
  function Char(pat: seq<Byte>, i: nat): Byte {
    if i < |pat| then pat[i] else 0
  }

  predicate IsMult(c: Byte) {
    c == ASTERISK || c == PLUS_SIGN || c == QUESTION
  }

  /** META: the characters that end a run of ordinary ones. */
  const META: seq<Byte> := [CARET, DOLLAR, DOT, LBRACKET, LPAREN, RPAREN, BAR, QUESTION, PLUS_SIGN, ASTERISK, BACKSLASH]

  predicate IsMeta(c: Byte) {
    c in META
  }

  // ---------- What the flags mean ----------

  /** HASWIDTH: known never to match the empty string. */
  predicate HasWidth(re: Re)
    decreases re, 0
  {
    match re
    case Bol => false
    case Eol => false
    case Any => true
    case Class(_, _) => true
    case Lit(_) => true
    case Group(_, alts) => AltsHaveWidth(alts)
    case Rep(op, _) => op == Plus
  }

  predicate AltsHaveWidth(alts: seq<Branch>)
    decreases alts, 0
  {
    alts == [] || (PiecesHaveWidth(alts[0].pieces) && AltsHaveWidth(alts[1..]))
  }

  predicate PiecesHaveWidth(ps: seq<Re>)
    decreases ps, 0
  {
    ps != [] && (HasWidth(ps[0]) || PiecesHaveWidth(ps[1..]))
  }

  /** SIMPLE: one character per match, so that STAR and PLUS nodes can be used. */
  predicate IsSimple(re: Re) {
    re.Any? || re.Class? || (re.Lit? && |re.str| == 1)
  }

  /** One node, which matches at most one way. */
  predicate Leaf(re: Re) {
    !re.Group? && !re.Rep?
  }

  /** SPSTART: starts with a repetition. */
  predicate SpStart(re: Re)
    decreases re, 0
  {
    match re
    case Group(_, alts) => AltsSpStart(alts)
    case Rep(op, _) => op != Plus
    case _ => false
  }

  predicate AltsSpStart(alts: seq<Branch>)
    decreases alts, 0
  {
    alts != [] && ((alts[0].pieces != [] && SpStart(alts[0].pieces[0])) || AltsSpStart(alts[1..]))
  }

  // ---------- The grammar ----------

  /** The number of ordinary characters from position i on: strcspn(regparse, META). */
  function RunLength(pat: seq<Byte>, i: nat): (n: nat)
    ensures i <= |pat| ==> i + n <= |pat|
    ensures forall k | i <= k < i + n :: k < |pat| && !IsMeta(pat[k])
    ensures i + n < |pat| ==> IsMeta(pat[i + n])
    decreases |pat| - i
  {
    if i < |pat| && !IsMeta(pat[i]) then 1 + RunLength(pat, i + 1) else 0
  }

  /** The characters lo+1, .., hi. */
  function RangeAfter(lo: Byte, hi: Byte): (r: seq<Byte>)
    ensures |r| == if lo < hi then hi - lo else 0
    ensures forall k | 0 <= k < |r| :: r[k] == lo + 1 + k
    ensures forall c: Byte :: c in r <==> lo < c <= hi
    decreases hi - lo
  {
    if lo >= hi then [] else
      var r := RangeAfter(lo + 1, hi);
      assert forall c: Byte :: c in [lo + 1 as Byte] + r <==> c == lo + 1 || c in r;
      [lo + 1] + r
  }

  /** The characters of a bracket expression from position i up to its closing bracket, added
      to those in acc. */
  function ParseClass(pat: seq<Byte>, i: nat, acc: seq<Byte>): (r: Parsed<seq<Byte>>)
    requires 0 < i <= |pat|
    ensures r.Good? ==> i < r.pos <= |pat| && acc <= r.val
    decreases |pat| - i
  {
    var c := Char(pat, i);
    if c == 0 then Bad
    else if c == RBRACKET then Good(acc, i + 1, 0)
    else if c == DASH then
      var e := Char(pat, i + 1);
      if e == RBRACKET || e == 0 then ParseClass(pat, i + 1, acc + [DASH])
      else if pat[i - 1] > e then Bad
      else ParseClass(pat, i + 2, acc + RangeAfter(pat[i - 1], e))
    else ParseClass(pat, i + 1, acc + [c])
  }

  /** A bracket expression from position j, after its opening: ] and - are ordinary there. */
  function ParseBrackets(pat: seq<Byte>, j: nat): (r: Parsed<seq<Byte>>)
    requires 0 < j <= |pat|
    ensures r.Good? ==> j < r.pos <= |pat|
  {
    if Char(pat, j) == RBRACKET || Char(pat, j) == DASH then ParseClass(pat, j + 1, [pat[j]])
      else ParseClass(pat, j, [])
  }

  /** regatom. */
  function ParseAtom(pat: seq<Byte>, i: nat, npar: nat): (r: Parsed<Re>)
    requires i <= |pat|
    ensures r.Good? ==> i < r.pos <= |pat|
    decreases |pat| - i, 0
  {
    var c := Char(pat, i);
    if c == CARET then Good(Bol, i + 1, npar)
    else if c == DOLLAR then Good(Eol, i + 1, npar)
    else if c == DOT then Good(Any, i + 1, npar)
    else if c == LBRACKET then
      var neg := Char(pat, i + 1) == CARET;
      var j := if neg then i + 2 else i + 1;
      var r := ParseBrackets(pat, j);
      if r.Bad? then Bad else Good(Class(neg, r.val), r.pos, npar)
    else if c == LPAREN then
      if npar >= NSUBEXP then Bad else
        var r := ParseAlts(pat, i + 1, npar + 1);
        if r.Bad? || Char(pat, r.pos) != RPAREN then Bad
        else Good(Group(npar, r.val), r.pos + 1, r.npar)
    else if c == 0 || c == BAR || c == RPAREN || IsMult(c) then Bad
    else if c == BACKSLASH then
      if Char(pat, i + 1) == 0 then Bad else Good(Lit([pat[i + 1]]), i + 2, npar)
    else
      var n := RunLength(pat, i);
      var len := if n > 1 && IsMult(Char(pat, i + n)) then n - 1 else n;
      Good(Lit(pat[i..i + len]), i + len, npar)
  }

  lemma MetaIs(c: Byte)
    ensures IsMeta(c) <==> c == CARET || c == DOLLAR || c == DOT || c == LBRACKET || c == LPAREN || c == RPAREN
                           || c == BAR || c == BACKSLASH || IsMult(c)
  {
    assert META == [CARET, DOLLAR, DOT, LBRACKET, LPAREN, RPAREN, BAR, QUESTION, PLUS_SIGN, ASTERISK, BACKSLASH];
  }

  lemma RunIs(pat: seq<Byte>, i: nat, npar: nat)
    requires i < |pat| && !IsMeta(pat[i]) && pat[i] != 0
    ensures var n := RunLength(pat, i);
            var len := if n > 1 && IsMult(Char(pat, i + n)) then n - 1 else n;
            0 < len && i + len <= |pat| && ParseAtom(pat, i, npar) == Good(Lit(pat[i..i + len]), i + len, npar)
  {
    hide IsMeta;
    MetaIs(pat[i]);
  }

  function RepOf(c: Byte): RepOp {
    if c == ASTERISK then Star else if c == PLUS_SIGN then Plus else Opt
  }

  /** regpiece. */
  function ParsePiece(pat: seq<Byte>, i: nat, npar: nat): (r: Parsed<Re>)
    requires i <= |pat|
    ensures r.Good? ==> i < r.pos <= |pat|
    decreases |pat| - i, 1
  {
    var a := ParseAtom(pat, i, npar);
    if a.Bad? then Bad
    else
      var op := Char(pat, a.pos);
      if !IsMult(op) then a
      else if !HasWidth(a.val) && op != QUESTION then Bad
      else if IsMult(Char(pat, a.pos + 1)) then Bad
      else Good(Rep(RepOf(op), a.val), a.pos + 1, a.npar)
  }

  predicate EndsBranch(c: Byte) {
    c == 0 || c == BAR || c == RPAREN
  }

  /** regbranch. */
  function ParseBranch(pat: seq<Byte>, i: nat, npar: nat): (r: Parsed<Branch>)
    requires i <= |pat|
    ensures r.Good? ==> i <= r.pos <= |pat| && EndsBranch(Char(pat, r.pos))
    decreases |pat| - i, 2
  {
    if EndsBranch(Char(pat, i)) then Good(Branch([]), i, npar)
    else
      var p := ParsePiece(pat, i, npar);
      if p.Bad? then Bad
      else
        var r := ParseBranch(pat, p.pos, p.npar);
        if r.Bad? then Bad else Good(Branch([p.val] + r.val.pieces), r.pos, r.npar)
  }

  /** The alternatives inside reg. */
  function ParseAlts(pat: seq<Byte>, i: nat, npar: nat): (r: Parsed<seq<Branch>>)
    requires i <= |pat|
    ensures r.Good? ==> i <= r.pos <= |pat| && r.val != [] && (Char(pat, r.pos) == 0 || Char(pat, r.pos) == RPAREN)
    decreases |pat| - i, 3
  {
    var b := ParseBranch(pat, i, npar);
    if b.Bad? then Bad
    else if Char(pat, b.pos) != BAR then Good([b.val], b.pos, b.npar)
    else
      var r := ParseAlts(pat, b.pos + 1, b.npar);
      if r.Bad? then Bad else Good([b.val] + r.val, r.pos, r.npar)
  }

  /** reg: alternatives that must be closed by a parenthesis, or reach the end of the pattern. */
  function ParseReg(pat: seq<Byte>, i: nat, npar: nat, paren: bool): (r: Parsed<seq<Branch>>)
    requires i <= |pat|
    ensures r.Good? ==> i <= r.pos <= |pat| && r.val != []
  {
    if paren then
      if npar >= NSUBEXP then Bad else
        var r := ParseAlts(pat, i, npar + 1);
        if r.Bad? || Char(pat, r.pos) != RPAREN then Bad else Good(r.val, r.pos + 1, r.npar)
    else
      var r := ParseAlts(pat, i, npar);
      if r.Bad? || Char(pat, r.pos) != 0 then Bad else r
  }

  /** A whole pattern. */
  function Parse(pat: seq<Byte>): (r: Parsed<seq<Branch>>)
    ensures r.Good? ==> r.val != []
  {
    ParseReg(pat, 0, 1, false)
  }

  // ---------- The grammar read from left to right ----------

  /** The branch of which the pieces in done have been read up to position pos. */
  function PiecesRest(pat: seq<Byte>, done: seq<Re>, pos: nat, npar: nat): Parsed<Branch>
    requires pos <= |pat|
  {
    var r := ParseBranch(pat, pos, npar);
    if r.Bad? then Bad else Good(Branch(done + r.val.pieces), r.pos, r.npar)
  }

  lemma PiecesStep(pat: seq<Byte>, done: seq<Re>, pos: nat, npar: nat)
    requires pos <= |pat|
    ensures var p := ParsePiece(pat, pos, npar);
            PiecesRest(pat, done, pos, npar) ==
            if EndsBranch(Char(pat, pos)) then Good(Branch(done), pos, npar)
            else if p.Bad? then Bad
            else PiecesRest(pat, done + [p.val], p.pos, p.npar)
  {
    hide ParsePiece;
    assert done + [] == done;
    var p := ParsePiece(pat, pos, npar);
    if !EndsBranch(Char(pat, pos)) && p.Good? {
      var r := ParseBranch(pat, p.pos, p.npar);
      if r.Good? {
        assert done + ([p.val] + r.val.pieces) == done + [p.val] + r.val.pieces;
      }
    }
  }

  /** The alternatives of which those in done have been read up to position pos. */
  function AltsRest(pat: seq<Byte>, done: seq<Branch>, pos: nat, npar: nat): (r: Parsed<seq<Branch>>)
    requires pos <= |pat|
    ensures r.Good? ==> done <= r.val && pos <= r.pos <= |pat|
  {
    if Char(pat, pos) != BAR then Good(done, pos, npar)
    else
      var r := ParseAlts(pat, pos + 1, npar);
      if r.Bad? then Bad else Good(done + r.val, r.pos, r.npar)
  }

  lemma AltsStart(pat: seq<Byte>, pos: nat, npar: nat)
    requires pos <= |pat|
    ensures var b := ParseBranch(pat, pos, npar);
            ParseAlts(pat, pos, npar) == if b.Bad? then Bad else AltsRest(pat, [b.val], b.pos, b.npar)
  {
    hide ParseBranch;
  }

  lemma AltsStep(pat: seq<Byte>, done: seq<Branch>, pos: nat, npar: nat)
    requires pos <= |pat| && Char(pat, pos) == BAR
    ensures var b := ParseBranch(pat, pos + 1, npar);
            AltsRest(pat, done, pos, npar) == if b.Bad? then Bad else AltsRest(pat, done + [b.val], b.pos, b.npar)
  {
    hide ParseBranch;
    var b := ParseBranch(pat, pos + 1, npar);
    if b.Good? && Char(pat, b.pos) == BAR {
      var r := ParseAlts(pat, b.pos + 1, b.npar);
      if r.Good? {
        assert done + ([b.val] + r.val) == done + [b.val] + r.val;
      }
    }
  }

  // ---------- Well-formed trees ----------

  /** What the parser guarantees: texts without NUL, group numbers in range, and operands of *
      and + that cannot be empty. */
  predicate Wf(re: Re)
    decreases re, 0
  {
    match re
    case Class(_, chars) => 0 !in chars
    case Lit(str) => str != [] && 0 !in str
    case Group(no, alts) => 0 < no < NSUBEXP && alts != [] && WfAlts(alts)
    case Rep(op, x) => Wf(x) && !x.Rep? && (op != Opt ==> HasWidth(x) && (IsSimple(x) || x.Group?))
    case _ => true
  }

  predicate WfPieces(ps: seq<Re>)
    decreases ps, 0
  {
    ps == [] || (Wf(ps[0]) && WfPieces(ps[1..]))
  }

  predicate WfAlts(alts: seq<Branch>)
    decreases alts, 0
  {
    alts == [] || (WfPieces(alts[0].pieces) && WfAlts(alts[1..]))
  }

  lemma {:induction false} ClassWf(pat: seq<Byte>, i: nat, acc: seq<Byte>)
    requires 0 < i <= |pat| && 0 !in pat && 0 !in acc
    ensures var r := ParseClass(pat, i, acc); r.Good? ==> 0 !in r.val
    decreases |pat| - i
  {
    var c := Char(pat, i);
    if c != 0 && c != RBRACKET {
      if c == DASH {
        var e := Char(pat, i + 1);
        if e == RBRACKET || e == 0 {
          ClassWf(pat, i + 1, acc + [DASH]);
        } else if pat[i - 1] <= e {
          ClassWf(pat, i + 2, acc + RangeAfter(pat[i - 1], e));
        }
      } else {
        ClassWf(pat, i + 1, acc + [c]);
      }
    }
  }

  /** What the parser builds is well formed. */
  lemma {:induction false} AtomWf(pat: seq<Byte>, i: nat, npar: nat)
    requires i <= |pat| && 0 !in pat && npar > 0
    ensures var r := ParseAtom(pat, i, npar); r.Good? ==> Wf(r.val) && !r.val.Rep? && r.npar > 0
    ensures var r := ParseAtom(pat, i, npar);
            r.Good? && IsMult(Char(pat, r.pos)) && HasWidth(r.val) ==> IsSimple(r.val) || r.val.Group?
    decreases |pat| - i, 0
  {
    var c := Char(pat, i);
    if c == LBRACKET {
      var neg := Char(pat, i + 1) == CARET;
      var j := if neg then i + 2 else i + 1;
      if Char(pat, j) == RBRACKET || Char(pat, j) == DASH {
        ClassWf(pat, j + 1, [pat[j]]);
      } else {
        ClassWf(pat, j, []);
      }
    } else if c == LPAREN {
      if npar < NSUBEXP {
        AltsWf(pat, i + 1, npar + 1);
      }
    } else if !(c == CARET || c == DOLLAR || c == DOT || c == 0 || c == BAR || c == RPAREN || IsMult(c)
                || c == BACKSLASH) {
      var n := RunLength(pat, i);
      assert n > 0;
      assert forall k | i <= k < i + n :: !IsMult(pat[k]);
    }
  }

  lemma {:induction false} PieceWf(pat: seq<Byte>, i: nat, npar: nat)
    requires i <= |pat| && 0 !in pat && npar > 0
    ensures var r := ParsePiece(pat, i, npar); r.Good? ==> Wf(r.val) && r.npar > 0
    decreases |pat| - i, 1
  {
    AtomWf(pat, i, npar);
  }

  lemma {:induction false} BranchWf(pat: seq<Byte>, i: nat, npar: nat)
    requires i <= |pat| && 0 !in pat && npar > 0
    ensures var r := ParseBranch(pat, i, npar); r.Good? ==> WfPieces(r.val.pieces) && r.npar > 0
    decreases |pat| - i, 2
  {
    if !EndsBranch(Char(pat, i)) {
      PieceWf(pat, i, npar);
      var p := ParsePiece(pat, i, npar);
      if p.Good? {
        BranchWf(pat, p.pos, p.npar);
        var r := ParseBranch(pat, p.pos, p.npar);
        if r.Good? {
          assert ([p.val] + r.val.pieces)[1..] == r.val.pieces;
        }
      }
    }
  }

  lemma {:induction false} AltsWf(pat: seq<Byte>, i: nat, npar: nat)
    requires i <= |pat| && 0 !in pat && npar > 0
    ensures var r := ParseAlts(pat, i, npar); r.Good? ==> WfAlts(r.val) && r.npar > 0
    decreases |pat| - i, 3
  {
    BranchWf(pat, i, npar);
    var b := ParseBranch(pat, i, npar);
    if b.Good? {
      if Char(pat, b.pos) != BAR {
        assert [b.val][1..] == [];
      } else {
        AltsWf(pat, b.pos + 1, b.npar);
        var r := ParseAlts(pat, b.pos + 1, b.npar);
        if r.Good? {
          assert ([b.val] + r.val)[1..] == r.val;
        }
      }
    }
  }

  // ---------- The flags of a sequence that grows ----------

  lemma {:induction false} PiecesFlagSnoc(ps: seq<Re>, p: Re)
    ensures PiecesHaveWidth(ps + [p]) == (PiecesHaveWidth(ps) || HasWidth(p))
    decreases |ps|
  {
    if ps == [] {
      assert [p][1..] == [] && ps + [p] == [p];
    } else {
      assert (ps + [p])[0] == ps[0] && (ps + [p])[1..] == ps[1..] + [p];
      PiecesFlagSnoc(ps[1..], p);
    }
  }

  lemma {:induction false} AltsFlagSnoc(alts: seq<Branch>, b: Branch)
    ensures AltsHaveWidth(alts + [b]) == (AltsHaveWidth(alts) && PiecesHaveWidth(b.pieces))
    ensures AltsSpStart(alts + [b]) == (AltsSpStart(alts) || (b.pieces != [] && SpStart(b.pieces[0])))
    ensures WfAlts(alts + [b]) == (WfAlts(alts) && WfPieces(b.pieces))
    decreases |alts|
  {
    if alts == [] {
      assert [b][1..] == [] && alts + [b] == [b];
    } else {
      assert (alts + [b])[0] == alts[0] && (alts + [b])[1..] == alts[1..] + [b];
      AltsFlagSnoc(alts[1..], b);
    }
  }
}
