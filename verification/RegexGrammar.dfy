/** The grammar of patterns, told without a parser: how a pattern is written down, and what it says.
    The parser reads back exactly what can be written, and as what it was written. */
module RegexGrammar {
  import opened Basics
  import opened RegexSyntax
  import opened RegexCode
  import opened RegexPatch

  /** The code of an ASCII character. */
  function Ch(c: char): Byte
    requires c < 128 as char
  {
    c as int
  }

  /** Inside brackets, after the first character: a character, or a dash and the upper end of a range
      that begins with the character written before. */
  datatype Item = Itself(c: Byte) | UpTo(c: Byte)

  /** A pattern as it is written. */
  datatype Written =
    | Begin
    | End
    | AnyChar
    | Bracket(neg: bool, first: Byte, items: seq<Item>)
    | Escaped(c: Byte)
    | Run(str: seq<Byte>)
    | Paren(alts: seq<Alternative>)
    | Repeat(op: RepOp, x: Written)

  datatype Alternative = Alternative(pieces: seq<Written>)

  // ---------- How it is written ----------

  function ShowOp(op: RepOp): Byte {
    match op
    case Star => Ch('*')
    case Plus => Ch('+')
    case Opt => Ch('?')
  }

  function ShowItems(items: seq<Item>): seq<Byte> {
    if items == [] then []
    else
      (match items[0]
       case Itself(c) => [c]
       case UpTo(c) => [Ch('-'), c]) + ShowItems(items[1..])
  }

  function Show(t: Written): seq<Byte>
    decreases t, 0
  {
    match t
    case Begin => [Ch('^')]
    case End => [Ch('$')]
    case AnyChar => [Ch('.')]
    case Bracket(neg, first, items) =>
      (if neg then [Ch('['), Ch('^')] else [Ch('[')]) + ([first] + (ShowItems(items) + [Ch(']')]))
    case Escaped(c) => [Ch('\\'), c]
    case Run(str) => str
    case Paren(alts) => [Ch('(')] + (ShowAlts(alts) + [Ch(')')])
    case Repeat(op, x) => Show(x) + [ShowOp(op)]
  }

  function ShowPieces(ps: seq<Written>): seq<Byte>
    decreases ps, 0
  {
    if ps == [] then [] else Show(ps[0]) + ShowPieces(ps[1..])
  }

  function ShowAlts(alts: seq<Alternative>): seq<Byte>
    decreases alts, 0
  {
    if alts == [] then []
    else if |alts| == 1 then ShowPieces(alts[0].pieces)
    else ShowPieces(alts[0].pieces) + ([Ch('|')] + ShowAlts(alts[1..]))
  }

  // ---------- What it says ----------

  /** The characters above lo, up to hi. */
  function Above(lo: Byte, hi: Byte): seq<Byte> {
    if lo < hi then seq(hi - lo, k requires 0 <= k < hi - lo => lo + 1 + k) else []
  }

  /** The characters of items, the one before them being prev. */
  function Chars(prev: Byte, items: seq<Item>): seq<Byte>
    decreases |items|
  {
    if items == [] then []
    else
      (match items[0]
       case Itself(c) => [c]
       case UpTo(c) => Above(prev, c)) + Chars(items[0].c, items[1..])
  }

  /** How many groups open in it; they are numbered in that order. */
  function Groups(t: Written): nat
    decreases t, 0
  {
    match t
    case Paren(alts) => 1 + AltsGroups(alts)
    case Repeat(_, x) => Groups(x)
    case _ => 0
  }

  function PiecesGroups(ps: seq<Written>): nat
    decreases ps, 0
  {
    if ps == [] then 0 else Groups(ps[0]) + PiecesGroups(ps[1..])
  }

  function AltsGroups(alts: seq<Alternative>): nat
    decreases alts, 0
  {
    if alts == [] then 0 else PiecesGroups(alts[0].pieces) + AltsGroups(alts[1..])
  }

  /** The tree it stands for, its first group having the number no. */
  function Tree(t: Written, no: nat): Re
    decreases t, 0
  {
    match t
    case Begin => Bol
    case End => Eol
    case AnyChar => Any
    case Bracket(neg, first, items) => Class(neg, [first] + Chars(first, items))
    case Escaped(c) => Lit([c])
    case Run(str) => Lit(str)
    case Paren(alts) => Group(no, AltsTree(alts, no + 1))
    case Repeat(op, x) => Rep(op, Tree(x, no))
  }

  function PiecesTree(ps: seq<Written>, no: nat): seq<Re>
    decreases ps, 0
  {
    if ps == [] then [] else [Tree(ps[0], no)] + PiecesTree(ps[1..], no + Groups(ps[0]))
  }

  function AltsTree(alts: seq<Alternative>, no: nat): seq<Branch>
    decreases alts, 0
  {
    if alts == [] then []
    else [Branch(PiecesTree(alts[0].pieces, no))] + AltsTree(alts[1..], no + PiecesGroups(alts[0].pieces))
  }

  // ---------- What may be written ----------

  /** Characters that mean something outside brackets. */
  predicate Special(c: Byte) {
    c == Ch('^') || c == Ch('$') || c == Ch('.') || c == Ch('[') || c == Ch('(') || c == Ch(')') || c == Ch('|')
    || c == Ch('\\') || Operator(c)
  }

  predicate Operator(c: Byte) {
    c == Ch('*') || c == Ch('+') || c == Ch('?')
  }

  predicate Ordinary(c: Byte) {
    c != 0 && !Special(c)
  }

  /** A dash that stands for itself comes first or last; a bracket that does comes first; ranges are
      not backwards. */
  predicate FineItems(prev: Byte, items: seq<Item>)
    decreases |items|
  {
    items == []
    || (&& items[0].c != 0 && items[0].c != Ch(']')
        && (match items[0]
            case Itself(c) => c == Ch('-') ==> |items| == 1
            case UpTo(c) => prev <= c)
        && FineItems(items[0].c, items[1..]))
  }

  /** There are nine groups at most. An operator applies to one character, a bracket expression or
      a group, and what is repeated by * or + does not match the empty string. */
  predicate Fine(t: Written, no: nat)
    decreases t, 0
  {
    match t
    case Bracket(neg, first, items) => first != 0 && (neg || first != Ch('^')) && FineItems(first, items)
    case Escaped(c) => c != 0
    case Run(str) => str != [] && forall c | c in str :: Ordinary(c)
    case Paren(alts) => no <= 9 && alts != [] && FineAlts(alts, no + 1)
    case Repeat(op, x) =>
      && !x.Repeat? && Fine(x, no) && (x.Run? ==> |x.str| == 1)
      && (op != Opt ==> HasWidth(Tree(x, no)))
    case _ => true
  }

  /** Characters in a row are one run. */
  predicate FinePieces(ps: seq<Written>, no: nat)
    decreases ps, 0
  {
    ps == []
    || (&& Fine(ps[0], no) && FinePieces(ps[1..], no + Groups(ps[0]))
        && (|ps| > 1 && ps[0].Run? ==> !ps[1].Run?))
  }

  predicate FineAlts(alts: seq<Alternative>, no: nat)
    decreases alts, 0
  {
    alts == [] || (FinePieces(alts[0].pieces, no) && FineAlts(alts[1..], no + PiecesGroups(alts[0].pieces)))
  }

  /** The pattern exp can be written as t. */
  ghost predicate Writes(exp: seq<Byte>, t: seq<Alternative>) {
    t != [] && FineAlts(t, 1) && ShowAlts(t) == exp
  }

  // ---------- Brackets ----------

  /** The character written before item k. */
  function Before(first: Byte, items: seq<Item>, k: nat): Byte
    requires k <= |items|
  {
    if k == 0 then first else items[k - 1].c
  }

  predicate Covers(before: Byte, item: Item, c: Byte) {
    match item
    case Itself(d) => c == d
    case UpTo(hi) => before <= c <= hi
  }

  /** What a bracket expression contains: the characters that stand there, and those of the ranges. */
  lemma {:induction false} ClassMeans(first: Byte, items: seq<Item>, c: Byte)
    requires FineItems(first, items)
    ensures c in [first] + Chars(first, items) <==>
              c == first || exists k :: 0 <= k < |items| && Covers(Before(first, items, k), items[k], c)
    decreases |items|
  {
    if items != [] {
      var head, rest := items[0], items[1..];
      ClassMeans(head.c, rest, c);
      var own := match head case Itself(d) => [d] case UpTo(hi) => Above(first, hi);
      assert Chars(first, items) == own + Chars(head.c, rest);
      assert c in [first] + own <==> c == first || Covers(first, head, c) by {
        if head.UpTo? && first < c <= head.c {
          assert own[c - first - 1] == c;
        }
      }
      forall k | 0 <= k < |rest| && Covers(Before(head.c, rest, k), rest[k], c)
        ensures Covers(Before(first, items, k + 1), items[k + 1], c)
      {
      }
      forall k | 0 < k < |items| && Covers(Before(first, items, k), items[k], c)
        ensures Covers(Before(head.c, rest, k - 1), rest[k - 1], c)
      {
      }
      if Covers(first, head, c) {
        assert Covers(Before(first, items, 0), items[0], c);
      }
    }
  }

  lemma OneRegion(pat: seq<Byte>, j: nat)
    requires j < |pat|
    ensures Region(pat, j, [pat[j]])
    ensures j + 1 < |pat| ==> Region(pat, j, [pat[j], pat[j + 1]])
  {
  }

  lemma NoRegion(pat: seq<Byte>, j: nat)
    requires j <= |pat|
    ensures Region(pat, j, [])
  {
  }

  lemma AboveIs(lo: Byte, hi: Byte)
    ensures RangeAfter(lo, hi) == Above(lo, hi)
  {
  }

  /** Reading the rest of a bracket expression that was written. */
  lemma {:induction false} ItemsRead(pat: seq<Byte>, i: nat, acc: seq<Byte>, items: seq<Item>)
    requires 0 < i && Region(pat, i, ShowItems(items) + [Ch(']')]) && FineItems(pat[i - 1], items)
    ensures ParseClass(pat, i, acc) == Good(acc + Chars(pat[i - 1], items), i + |ShowItems(items)| + 1, 0)
    decreases |items|
  {
    if items == [] {
      RegionAt(pat, i, ShowItems(items) + [Ch(']')], 0);
      assert acc + [] == acc;
    } else {
      var head, rest := items[0], items[1..];
      var own: seq<Byte> := match head case Itself(c) => [c] case UpTo(c) => [Ch('-'), c];
      ConcatAssoc(own, ShowItems(rest), [Ch(']')]);
      RegionConcat(pat, i, own, ShowItems(rest) + [Ch(']')]);
      RegionAt(pat, i, own, 0);
      RegionAt(pat, i, own, |own| - 1);
      var got := match head case Itself(c) => [c] case UpTo(c) => Above(pat[i - 1], c);
      if head == Itself(DASH) {
        assert rest == [];
        RegionAt(pat, i + 1, ShowItems(rest) + [Ch(']')], 0);
      } else if head.UpTo? {
        AboveIs(pat[i - 1], head.c);
      }
      ItemsRead(pat, i + |own|, acc + got, rest);
      ConcatAssoc(acc, got, Chars(head.c, rest));
    }
  }

  /** And what is read was written so. */
  lemma {:induction false} ItemsWritten(pat: seq<Byte>, i: nat, acc: seq<Byte>) returns (items: seq<Item>)
    requires 0 < i <= |pat| && 0 !in pat && ParseClass(pat, i, acc).Good?
    ensures var r := ParseClass(pat, i, acc);
            && r == Good(acc + Chars(pat[i - 1], items), i + |ShowItems(items)| + 1, 0)
            && Region(pat, i, ShowItems(items) + [Ch(']')]) && FineItems(pat[i - 1], items)
    decreases |pat| - i
  {
    hide Region;
    var c := Char(pat, i);
    if c == RBRACKET {
      items := [];
      assert acc + [] == acc;
      OneRegion(pat, i);
      assert ShowItems(items) + [Ch(']')] == [pat[i]];
    } else {
      var range := c == DASH && Char(pat, i + 1) != RBRACKET;
      var head := if range then UpTo(pat[i + 1]) else Itself(c);
      var own: seq<Byte> := match head case Itself(c) => [c] case UpTo(c) => [Ch('-'), c];
      var got := match head case Itself(c) => [c] case UpTo(c) => Above(pat[i - 1], c);
      if range {
        AboveIs(pat[i - 1], head.c);
      }
      var rest := ItemsWritten(pat, i + |own|, acc + got);
      items := [head] + rest;
      assert items[1..] == rest;
      OneRegion(pat, i);
      ConcatAssoc(own, ShowItems(rest), [Ch(']')]);
      RegionConcat(pat, i, own, ShowItems(rest) + [Ch(']')]);
      ConcatAssoc(acc, got, Chars(head.c, rest));
    }
  }

  // ---------- What was written is read ----------

  lemma CodesAgree(c: Byte)
    ensures IsMult(c) <==> Operator(c)
    ensures IsMeta(c) <==> Special(c)
  {
    MetaIs(c);
  }

  /** What follows a run of characters: no further ordinary one, unless it has an operator to itself. */
  predicate RunStops(pat: seq<Byte>, str: seq<Byte>, e: nat) {
    if Operator(Char(pat, e)) then |str| == 1 else Ordinary(Char(pat, e)) ==> Operator(Char(pat, e + 1))
  }

  lemma RunOrdinary(pat: seq<Byte>, i: nat, str: seq<Byte>, no: nat)
    requires Region(pat, i, str) && Fine(Run(str), no)
    ensures forall k | i <= k < i + |str| :: Ordinary(pat[k]) && !IsMeta(pat[k])
  {
    forall k | i <= k < i + |str| ensures Ordinary(pat[k]) && !IsMeta(pat[k]) {
      RegionAt(pat, i, str, k - i);
      assert str[k - i] in str;
      CodesAgree(pat[k]);
    }
  }

  /** How many ordinary characters there are from i on. */
  lemma RunEnds(pat: seq<Byte>, i: nat, str: seq<Byte>, no: nat)
    requires Region(pat, i, str) && 0 !in pat && Fine(Run(str), no) && RunStops(pat, str, i + |str|)
    ensures RunLength(pat, i) == if Ordinary(Char(pat, i + |str|)) then |str| + 1 else |str|
  {
    RunOrdinary(pat, i, str, no);
    CodesAgree(Char(pat, i + |str|));
    CodesAgree(Char(pat, i + |str| + 1));
    hide Region, Fine, Special, IsMeta;
    var n := RunLength(pat, i);
    CodesAgree(Char(pat, i + n));
  }

  lemma RunRead(pat: seq<Byte>, i: nat, str: seq<Byte>, no: nat)
    requires Region(pat, i, str) && 0 !in pat && Fine(Run(str), no) && RunStops(pat, str, i + |str|)
    ensures ParseAtom(pat, i, no) == Good(Lit(str), i + |str|, no)
  {
    RunOrdinary(pat, i, str, no);
    RunEnds(pat, i, str, no);
    hide Special, ParseAtom;
    CodesAgree(Char(pat, i + |str|));
    CodesAgree(Char(pat, i + |str| + 1));
    RunIs(pat, i, no);
  }

  lemma BracketsRead(pat: seq<Byte>, j: nat, first: Byte, items: seq<Item>)
    requires j > 0 && Region(pat, j, [first] + (ShowItems(items) + [Ch(']')])) && first != 0 && FineItems(first, items)
    ensures ParseBrackets(pat, j) == Good([first] + Chars(first, items), j + 2 + |ShowItems(items)|, 0)
  {
    hide Region, ShowItems, Chars, FineItems;
    RegionConcat(pat, j, [first], ShowItems(items) + [Ch(']')]);
    RegionFits(pat, j, [first]);
    RegionAt(pat, j, [first], 0);
    ItemsRead(pat, j + 1, [first], items);
    assert [] + [first] == [first];
  }

  lemma BracketRead(pat: seq<Byte>, i: nat, t: Written, no: nat)
    requires Region(pat, i, Show(t)) && Fine(t, no) && t.Bracket?
    ensures ParseAtom(pat, i, no) == Good(Tree(t, no), i + |Show(t)|, no)
  {
    hide Region, ShowItems, Chars, FineItems, ParseBrackets;
    var open := if t.neg then [Ch('['), Ch('^')] else [Ch('[')];
    var close := [t.first] + (ShowItems(t.items) + [Ch(']')]);
    RegionConcat(pat, i, open, close);
    RegionFits(pat, i, open + close);
    RegionAt(pat, i, open, 0);
    RegionAt(pat, i, open, |open| - 1);
    RegionAt(pat, i + |open|, close, 0);
    BracketsRead(pat, i + |open|, t.first, t.items);
  }

  /** Atoms, */
  lemma {:induction false} AtomRead(pat: seq<Byte>, i: nat, t: Written, no: nat)
    requires Region(pat, i, Show(t)) && 0 !in pat && Fine(t, no) && !t.Repeat?
    requires t.Run? ==> RunStops(pat, t.str, i + |Show(t)|)
    ensures ParseAtom(pat, i, no) == Good(Tree(t, no), i + |Show(t)|, no + Groups(t))
    decreases t, 0
  {
    hide IsMeta, ParseAlts, ShowAlts, AltsTree, FineAlts, AltsGroups, ParseBrackets, RunLength, FineItems, Chars,
         RunStops;
    match t
    case Bracket(_, _, _) =>
      BracketRead(pat, i, t, no);
    case Run(str) =>
      RunRead(pat, i, str, no);
    case Paren(alts) =>
      RegionConcat(pat, i, [Ch('(')], ShowAlts(alts) + [Ch(')')]);
      RegionConcat(pat, i + 1, ShowAlts(alts), [Ch(')')]);
      RegionAt(pat, i, [Ch('(')], 0);
      RegionAt(pat, i + 1 + |ShowAlts(alts)|, [Ch(')')], 0);
      AltsRead(pat, i + 1, alts, no + 1);
    case Escaped(_) =>
      RegionAt(pat, i, Show(t), 0);
      RegionAt(pat, i, Show(t), 1);
    case Begin =>
      RegionAt(pat, i, Show(t), 0);
    case End =>
      RegionAt(pat, i, Show(t), 0);
    case AnyChar =>
      RegionAt(pat, i, Show(t), 0);
    case Repeat(_, _) =>
  }

  /** pieces, */
  lemma {:induction false} PieceRead(pat: seq<Byte>, i: nat, t: Written, no: nat)
    requires Region(pat, i, Show(t)) && 0 !in pat && Fine(t, no)
    requires !Operator(Char(pat, i + |Show(t)|)) && (t.Run? ==> RunStops(pat, t.str, i + |Show(t)|))
    ensures ParsePiece(pat, i, no) == Good(Tree(t, no), i + |Show(t)|, no + Groups(t))
    decreases t, 1
  {
    hide IsMeta, ParseAtom;
    if t.Repeat? {
      RegionConcat(pat, i, Show(t.x), [ShowOp(t.op)]);
      RegionAt(pat, i + |Show(t.x)|, [ShowOp(t.op)], 0);
      AtomRead(pat, i, t.x, no);
    } else {
      AtomRead(pat, i, t, no);
    }
  }

  /** A piece begins with a character that ends no alternative and is no operator, and unless it begins
      with a run that character is special. */
  lemma FirstCharacter(t: Written, no: nat)
    requires Fine(t, no)
    ensures var r := if t.Repeat? then t.x else t;
            && Show(t) != [] && !EndsBranch(Show(t)[0]) && !Operator(Show(t)[0])
            && (Ordinary(Show(t)[0]) <==> r.Run?)
            && (t.Repeat? && r.Run? ==> Show(t) == [Show(t)[0], ShowOp(t.op)])
  {
    match t
    case Repeat(_, x) =>
      FirstCharacter(x, no);
      assert Show(t)[0] == Show(x)[0];
    case Run(str) =>
      assert str[0] in str;
    case Bracket(neg, _, _) =>
      assert Show(t)[0] == Ch('[');
    case _ =>
  }

  /** alternatives, */
  lemma {:induction false} PiecesRead(pat: seq<Byte>, i: nat, ps: seq<Written>, no: nat)
    requires Region(pat, i, ShowPieces(ps)) && 0 !in pat && FinePieces(ps, no)
    requires EndsBranch(Char(pat, i + |ShowPieces(ps)|))
    ensures ParseBranch(pat, i, no)
            == Good(Branch(PiecesTree(ps, no)), i + |ShowPieces(ps)|, no + PiecesGroups(ps))
    decreases ps, 0
  {
    hide ParsePiece, Show, Tree, Fine, Groups, Region;
    if ps != [] {
      var t, rest := ps[0], ps[1..];
      var e := i + |Show(t)|;
      RegionConcat(pat, i, Show(t), ShowPieces(rest));
      FirstCharacter(t, no);
      RegionAt(pat, i, Show(t), 0);
      PieceStops(pat, e, rest, no + Groups(t));
      if t.Run? {
        assert [t] + rest == ps;
        RunStopsBefore(pat, e, t, rest, no);
      }
      PieceRead(pat, i, t, no);
      PiecesRead(pat, e, rest, no + Groups(t));
    }
  }

  /** What comes after a piece. */
  lemma PieceStops(pat: seq<Byte>, e: nat, rest: seq<Written>, no: nat)
    requires Region(pat, e, ShowPieces(rest)) && FinePieces(rest, no)
    requires EndsBranch(Char(pat, e + |ShowPieces(rest)|))
    ensures !Operator(Char(pat, e))
    ensures rest == [] ==> EndsBranch(Char(pat, e))
    ensures rest != [] && Ordinary(Char(pat, e)) ==> rest[0].Run? || Operator(Char(pat, e + 1))
  {
    hide Show, Fine, Groups;
    if rest != [] {
      var next := rest[0];
      FirstCharacter(next, no);
      RegionConcat(pat, e, Show(next), ShowPieces(rest[1..]));
      RegionAt(pat, e, Show(next), 0);
      if next.Repeat? && next.x.Run? {
        RegionAt(pat, e, Show(next), 1);
      }
    }
  }

  lemma RunStopsBefore(pat: seq<Byte>, e: nat, t: Written, rest: seq<Written>, no: nat)
    requires FinePieces([t] + rest, no) && t.Run? && !Operator(Char(pat, e))
    requires rest == [] ==> EndsBranch(Char(pat, e))
    requires rest != [] && Ordinary(Char(pat, e)) ==> rest[0].Run? || Operator(Char(pat, e + 1))
    ensures RunStops(pat, t.str, e)
  {
  }

  /** and lists of alternatives. */
  lemma {:induction false} AltsRead(pat: seq<Byte>, i: nat, alts: seq<Alternative>, no: nat)
    requires Region(pat, i, ShowAlts(alts)) && 0 !in pat && FineAlts(alts, no) && alts != []
    requires Char(pat, i + |ShowAlts(alts)|) == 0 || Char(pat, i + |ShowAlts(alts)|) == Ch(')')
    ensures ParseAlts(pat, i, no) == Good(AltsTree(alts, no), i + |ShowAlts(alts)|, no + AltsGroups(alts))
    decreases alts, 0
  {
    hide ParseAlts, ParseBranch, AltsTree, PiecesTree, Region, ShowPieces, ShowAlts;
    var ps, rest := alts[0].pieces, alts[1..];
    BarBetween(pat, i, alts);
    PiecesRead(pat, i, ps, no);
    if rest != [] {
      AltsRead(pat, i + |ShowPieces(ps)| + 1, rest, no + PiecesGroups(ps));
    }
    ReadOn(pat, i, alts, no);
  }

  /** Where the first alternative ends. */
  lemma BarBetween(pat: seq<Byte>, i: nat, alts: seq<Alternative>)
    requires Region(pat, i, ShowAlts(alts)) && alts != []
    ensures var e := i + |ShowPieces(alts[0].pieces)|;
            && Region(pat, i, ShowPieces(alts[0].pieces)) && e <= |pat|
            && if |alts| == 1 then e == i + |ShowAlts(alts)|
               else && Region(pat, e + 1, ShowAlts(alts[1..])) && e < |pat| && pat[e] == Ch('|')
                    && e + 1 + |ShowAlts(alts[1..])| == i + |ShowAlts(alts)|
  {
    hide ShowPieces, Region;
    if |alts| > 1 {
      assert ShowAlts(alts) == ShowPieces(alts[0].pieces) + ([Ch('|')] + ShowAlts(alts[1..]));
      hide ShowAlts;
      BehindBar(pat, i, ShowPieces(alts[0].pieces), ShowAlts(alts[1..]));
    } else {
      RegionFits(pat, i, ShowAlts(alts));
    }
  }

  lemma BehindBar(pat: seq<Byte>, i: nat, x: seq<Byte>, y: seq<Byte>)
    requires Region(pat, i, x + ([Ch('|')] + y))
    ensures Region(pat, i, x) && Region(pat, i + |x| + 1, y) && i + |x| < |pat| && pat[i + |x|] == Ch('|')
    ensures |x + ([Ch('|')] + y)| == |x| + 1 + |y|
  {
    hide Region;
    RegionConcat(pat, i, x, [Ch('|')] + y);
    RegionConcat(pat, i + |x|, [Ch('|')], y);
    RegionAt(pat, i + |x|, [Ch('|')], 0);
    RegionFits(pat, i + |x|, [Ch('|')]);
  }

  lemma ReadOn(pat: seq<Byte>, i: nat, alts: seq<Alternative>, no: nat)
    requires alts != []
    requires var ps, rest := alts[0].pieces, alts[1..];
             var e := i + |ShowPieces(ps)|;
             var no' := no + PiecesGroups(ps);
             && e <= |pat| && ParseBranch(pat, i, no) == Good(Branch(PiecesTree(ps, no)), e, no')
             && if rest == [] then Char(pat, e) != BAR && |ShowAlts(alts)| == |ShowPieces(ps)|
                else && Char(pat, e) == BAR && |ShowAlts(alts)| == |ShowPieces(ps)| + 1 + |ShowAlts(rest)|
                     && e < |pat| && ParseAlts(pat, e + 1, no')
                     == Good(AltsTree(rest, no'), e + 1 + |ShowAlts(rest)|, no' + AltsGroups(rest))
    ensures ParseAlts(pat, i, no) == Good(AltsTree(alts, no), i + |ShowAlts(alts)|, no + AltsGroups(alts))
  {
    hide ParseBranch, ShowPieces, ShowAlts, PiecesTree, PiecesGroups;
    if |alts| == 1 {
      assert AltsTree(alts, no) == [Branch(PiecesTree(alts[0].pieces, no))];
    }
  }

  /** A pattern is read as what it was written. */
  lemma PatternRead(exp: seq<Byte>, t: seq<Alternative>)
    requires Writes(exp, t) && 0 !in exp
    ensures Parse(exp) == Good(AltsTree(t, 1), |exp|, 1 + AltsGroups(t))
  {
    assert exp[0..|exp|] == exp;
    AltsRead(exp, 0, t, 1);
  }

  // ---------- What is read was written ----------

  lemma RunWritten(pat: seq<Byte>, i: nat, no: nat) returns (t: Written)
    requires i < |pat| && 0 !in pat && Ordinary(pat[i])
    ensures ParseAtom(pat, i, no) == Good(Tree(t, no), i + |Show(t)|, no)
    ensures Region(pat, i, Show(t)) && Fine(t, no) && t.Run? && RunStops(pat, t.str, i + |Show(t)|)
  {
    CodesAgree(pat[i]);
    RunIs(pat, i, no);
    hide IsMeta, Special, ParseAtom;
    var n := RunLength(pat, i);
    CodesAgree(Char(pat, i + n));
    var len := if n > 1 && IsMult(Char(pat, i + n)) then n - 1 else n;
    t := Run(pat[i..i + len]);
    AllOrdinary(pat, i, n, len);
    if len < n {
      CodesAgree(pat[i + len]);
    }
  }

  lemma AllOrdinary(pat: seq<Byte>, i: nat, n: nat, len: nat)
    requires len <= n && i + n <= |pat| && 0 !in pat && forall k | i <= k < i + n :: !IsMeta(pat[k])
    ensures forall c | c in pat[i..i + len] :: Ordinary(c)
    ensures forall k | i <= k < i + n :: !Operator(pat[k])
  {
    forall k | i <= k < i + n ensures Ordinary(pat[k]) {
      CodesAgree(pat[k]);
    }
  }

  lemma BracketsWritten(pat: seq<Byte>, j: nat) returns (items: seq<Item>)
    requires 0 < j <= |pat| && 0 !in pat && ParseBrackets(pat, j).Good?
    ensures j < |pat| && FineItems(pat[j], items)
    ensures ParseBrackets(pat, j) == Good([pat[j]] + Chars(pat[j], items), j + 2 + |ShowItems(items)|, 0)
    ensures Region(pat, j, [pat[j]] + (ShowItems(items) + [Ch(']')]))
  {
    hide ShowItems, Chars, FineItems, Region;
    assert [] + [pat[j]] == [pat[j]];
    items := ItemsWritten(pat, j + 1, [pat[j]]);
    OneRegion(pat, j);
    RegionConcat(pat, j, [pat[j]], ShowItems(items) + [Ch(']')]);
  }

  lemma BracketWritten(pat: seq<Byte>, i: nat, no: nat) returns (t: Written)
    requires i < |pat| && 0 !in pat && pat[i] == Ch('[') && ParseAtom(pat, i, no).Good?
    ensures ParseAtom(pat, i, no) == Good(Tree(t, no), i + |Show(t)|, no)
    ensures Region(pat, i, Show(t)) && Fine(t, no) && t.Bracket?
  {
    hide ParseBrackets, ShowItems, Chars, FineItems, Region;
    var neg := Char(pat, i + 1) == CARET;
    var j := if neg then i + 2 else i + 1;
    var items := BracketsWritten(pat, j);
    t := Bracket(neg, pat[j], items);
    OneRegion(pat, i);
    RegionConcat(pat, i, if neg then [Ch('['), Ch('^')] else [Ch('[')],
                 [t.first] + (ShowItems(items) + [Ch(']')]));
  }

  lemma {:induction false} AtomWritten(pat: seq<Byte>, i: nat, no: nat) returns (t: Written)
    requires i <= |pat| && 0 !in pat && ParseAtom(pat, i, no).Good?
    ensures ParseAtom(pat, i, no) == Good(Tree(t, no), i + |Show(t)|, no + Groups(t))
    ensures Region(pat, i, Show(t)) && Fine(t, no) && !t.Repeat?
    ensures t.Run? ==> RunStops(pat, t.str, i + |Show(t)|)
    decreases |pat| - i, 0
  {
    hide IsMeta, ParseAlts, ShowAlts, AltsTree, FineAlts, AltsGroups, ParseBrackets, RunLength, FineItems, Chars,
         RunStops, Region;
    var c := Char(pat, i);
    if i < |pat| {
      OneRegion(pat, i);
    }
    CodesAgree(c);
    if c == Ch('[') {
      t := BracketWritten(pat, i, no);
    } else if c == Ch('(') {
      var alts := AltsWritten(pat, i + 1, no + 1);
      t := Paren(alts);
      var e := i + 1 + |ShowAlts(alts)|;
      OneRegion(pat, e);
      RegionConcat(pat, i + 1, ShowAlts(alts), [Ch(')')]);
      RegionConcat(pat, i, [Ch('(')], ShowAlts(alts) + [Ch(')')]);
    } else if Ordinary(c) {
      t := RunWritten(pat, i, no);
    } else if c == Ch('\\') {
      t := Escaped(pat[i + 1]);
    } else {
      t := if c == Ch('^') then Begin else if c == Ch('$') then End else AnyChar;
    }
  }

  lemma {:induction false} PieceWritten(pat: seq<Byte>, i: nat, no: nat) returns (t: Written)
    requires i <= |pat| && 0 !in pat && ParsePiece(pat, i, no).Good?
    ensures ParsePiece(pat, i, no) == Good(Tree(t, no), i + |Show(t)|, no + Groups(t))
    ensures Region(pat, i, Show(t)) && Fine(t, no) && !Operator(Char(pat, i + |Show(t)|))
    ensures t.Run? ==> RunStops(pat, t.str, i + |Show(t)|)
    decreases |pat| - i, 1
  {
    hide IsMeta, ParseAtom, Region;
    t := AtomWritten(pat, i, no);
    var e := i + |Show(t)|;
    var op := Char(pat, e);
    if IsMult(op) {
      var x := t;
      t := Repeat(RepOf(op), x);
      OneRegion(pat, e);
      RegionConcat(pat, i, Show(x), [op]);
    }
  }

  lemma {:induction false} PiecesWritten(pat: seq<Byte>, i: nat, no: nat) returns (ps: seq<Written>)
    requires i <= |pat| && 0 !in pat && ParseBranch(pat, i, no).Good?
    ensures ParseBranch(pat, i, no)
            == Good(Branch(PiecesTree(ps, no)), i + |ShowPieces(ps)|, no + PiecesGroups(ps))
    ensures Region(pat, i, ShowPieces(ps)) && FinePieces(ps, no)
    ensures ps != [] ==> Region(pat, i, Show(ps[0])) && !Operator(Char(pat, i + |Show(ps[0])|))
    decreases |pat| - i, 2
  {
    hide ParsePiece, Show, Tree, Fine, Groups, Region;
    if EndsBranch(Char(pat, i)) {
      ps := [];
      NoRegion(pat, i);
    } else {
      var t := PieceWritten(pat, i, no);
      var e := i + |Show(t)|;
      var rest := PiecesWritten(pat, e, no + Groups(t));
      ps := [t] + rest;
      assert ps[1..] == rest;
      RegionConcat(pat, i, Show(t), ShowPieces(rest));
      if t.Run? && rest != [] {
        OneRun(pat, e, t, rest[0], no + Groups(t));
      }
    }
  }

  /** Two runs in a row would have been read as one. */
  lemma OneRun(pat: seq<Byte>, e: nat, t: Written, next: Written, no: nat)
    requires t.Run? && Fine(next, no) && RunStops(pat, t.str, e) && Region(pat, e, Show(next))
    requires !Operator(Char(pat, e)) && !Operator(Char(pat, e + |Show(next)|))
    ensures !next.Run?
  {
    if next.Run? {
      RunOrdinary(pat, e, next.str, no);
    }
  }

  lemma {:induction false} AltsWritten(pat: seq<Byte>, i: nat, no: nat) returns (alts: seq<Alternative>)
    requires i <= |pat| && 0 !in pat && ParseAlts(pat, i, no).Good?
    ensures ParseAlts(pat, i, no) == Good(AltsTree(alts, no), i + |ShowAlts(alts)|, no + AltsGroups(alts))
    ensures Region(pat, i, ShowAlts(alts)) && FineAlts(alts, no) && alts != []
    decreases |pat| - i, 3
  {
    hide ParseBranch, ShowPieces, PiecesTree, FinePieces, PiecesGroups, Region;
    var ps := PiecesWritten(pat, i, no);
    var e := i + |ShowPieces(ps)|;
    if Char(pat, e) != BAR {
      alts := [Alternative(ps)];
      assert alts[1..] == [];
      assert AltsTree(alts, no) == [Branch(PiecesTree(ps, no))];
    } else {
      var rest := AltsWritten(pat, e + 1, no + PiecesGroups(ps));
      alts := [Alternative(ps)] + rest;
      assert alts[1..] == rest;
      OneRegion(pat, e);
      RegionConcat(pat, e, [Ch('|')], ShowAlts(rest));
      RegionConcat(pat, i, ShowPieces(ps), [Ch('|')] + ShowAlts(rest));
    }
  }

  lemma PatternWritten(exp: seq<Byte>) returns (t: seq<Alternative>)
    requires 0 !in exp && Parse(exp).Good?
    ensures Writes(exp, t) && Parse(exp) == Good(AltsTree(t, 1), |exp|, 1 + AltsGroups(t))
  {
    t := AltsWritten(exp, 0, 1);
    assert exp[0..|exp|] == exp;
  }

  /** The parser accepts exactly what can be written, and reads it as what it was written. */
  lemma ParseMeans(exp: seq<Byte>)
    requires 0 !in exp
    ensures Parse(exp).Good? <==> exists t :: Writes(exp, t)
    ensures forall t | Writes(exp, t) :: Parse(exp).Good? && Parse(exp).val == AltsTree(t, 1)
  {
    hide Parse, Writes;
    if Parse(exp).Good? {
      var t := PatternWritten(exp);
    }
    forall t | Writes(exp, t) ensures Parse(exp).Good? && Parse(exp).val == AltsTree(t, 1) {
      PatternRead(exp, t);
    }
  }

  // ---------- How long a program is ----------

  /** Three bytes a node, and the texts with their NULs. An operator takes three bytes in front of a
      single character, and otherwise the nodes of an alternative or of a loop. */
  function Weight(re: Re): nat
    decreases re, 0
  {
    match re
    case Class(_, chars) => 3 + |chars| + 1
    case Lit(str) => 3 + |str| + 1
    case Group(_, alts) => 3 + AltsWeight(alts) + 3
    case Rep(op, x) => Weight(x) + if op == Opt then 9 else if IsSimple(x) then 3 else 12
    case _ => 3
  }

  function PiecesWeight(ps: seq<Re>): nat
    decreases ps, 0
  {
    if ps == [] then 0 else Weight(ps[0]) + PiecesWeight(ps[1..])
  }

  function AltsWeight(alts: seq<Branch>): nat
    decreases alts, 0
  {
    if alts == [] then 0
    else 3 + (if alts[0].pieces == [] then 3 else PiecesWeight(alts[0].pieces)) + AltsWeight(alts[1..])
  }

  lemma {:induction false} WeightIs(re: Re)
    ensures Len(re) == Weight(re)
    decreases re, 0
  {
    match re
    case Group(_, alts) =>
      hide Off, EncAlts;
      AltsWeightIs(alts);
    case Rep(op, x) =>
      WeightIs(x);
      RepLen(op, x);
    case _ =>
  }

  lemma {:induction false} PiecesWeightIs(ps: seq<Re>, ex: Exit)
    requires ps != []
    ensures |EncPieces(ps, ex)| == PiecesWeight(ps)
    decreases ps, 0
  {
    hide Enc, Len;
    WeightIs(ps[0]);
    EncLen(ps[0], ex);
    EncLen(ps[0], To(0));
    if |ps| > 1 {
      PiecesWeightIs(ps[1..], ex);
    }
  }

  lemma {:induction false} AltsWeightIs(alts: seq<Branch>)
    ensures |EncAlts(alts)| == AltsWeight(alts)
    decreases alts, 0
  {
    hide EncPieces, Off;
    if alts != [] {
      AltsWeightIs(alts[1..]);
      if alts[0].pieces != [] {
        PiecesWeightIs(alts[0].pieces, To(|EncAlts(alts[1..])|));
      }
    }
  }

  /** The program is small enough for 15-bit offsets: a magic number, the alternatives and an END node. */
  predicate Fits(alts: seq<Branch>) {
    1 + AltsWeight(alts) + 3 < 32767
  }

  lemma FitsIs(alts: seq<Branch>)
    ensures Fits(alts) <==> 1 + |EncProgram(alts)| < 32767
  {
    hide EncAlts, AltsWeight;
    AltsWeightIs(alts);
  }
}
