/** What the matcher sees at a node, and that one step of it keeps the ways ahead. */
module RegexSteps {
  import opened Basics
  import opened RegexSyntax
  import opened RegexLang
  import opened RegexCode
  import opened RegexPatch
  import opened RegexFrames
  import opened RegexPrepare
  import opened RegexWays
  import opened RegexAhead

  // ---------- Nodes that match at most one way ----------

  lemma LeafNode(c: Code, a: nat, re: Re, d: nat, k: Cont)
    requires At(c, a, Piece(re, d, k)) && Leaf(re) && |c| < 0x7fff
    ensures NodeAt(c, a, Pre(re)[0], Len(re) + d) && Region(c, a + 3, Post(re)) && At(c, a + Len(re) + d, k)
  {
    hide Region, At, Off;
    PieceAt(c, a, re, d, k);
    LastNodeRegion(c, a, re, To(d));
    EncLen(re, To(d));
    AtFits(c, a + Len(re) + d, k);
    NodeIs(c, a, Pre(re)[0], Len(re) + d);
  }

  lemma PieceAt(c: Code, a: nat, re: Re, d: nat, k: Cont)
    requires At(c, a, Piece(re, d, k))
    ensures Wf(re) && Region(c, a, Enc(re, To(d))) && At(c, a + Len(re) + d, k)
  {
  }

  /** A leaf: fails, or passes on to what follows. */
  lemma LeafStep(c: Code, s: seq<Byte>, f: Cont, a: nat, i: nat)
    requires Live(c, s, f, a, i) && f.Piece? && Leaf(f.re)
    ensures NodeAt(c, a, Pre(f.re)[0], Len(f.re) + f.d) && Region(c, a + 3, Post(f.re)) && Wf(f.re)
    ensures var e := LeafEnd(f.re, s, i);
            if e < 0 then Ahead(f, s, i) == [] else Steps(c, s, f, a, i, f.k, a + Len(f.re) + f.d, e)
  {
    hide Region, Ahead, Pre, Post, Len, NodeAt;
    LeafNode(c, a, f.re, f.d, f.k);
    LeafAhead(f.re, f.d, f.k, s, i);
    var e := LeafEnd(f.re, s, i);
    PieceAt(c, a, f.re, f.d, f.k);
    if e >= 0 {
      OkayLater(f.k, i, HasWidth(f.re), e, false);
    }
  }

  /** Groups, their ends, empty alternatives, and the ends of loops: one way on, without consuming. */
  function Passed(f: Cont, i: nat): Cont
    requires f.Close? || f.Empty? || f.LoopBack? || f.PlusBack? || (f.Piece? && f.re.Group?)
  {
    match f
    case Close(_, _, k) => k
    case Empty(_, k) => k
    case LoopBack(x, _, d, k) => Piece(Rep(Star, x), d, k)
    case PlusBack(x, _, d, k) => Piece(x, 0, PlusTail(x, i, d, k))
    case Piece(re, d, k) => Choice(re.alts, Close(re.no, d, k))
  }

  /** The mark that is passed with them. */
  function Passing(f: Cont, i: nat): seq<Mark> {
    if f.Close? then [Mark(false, f.no, i)] else if f.Piece? && f.re.Group? then [Mark(true, f.re.no, i)] else []
  }

  lemma CloseStep(c: Code, s: seq<Byte>, f: Cont, a: nat, i: nat)
    requires Live(c, s, f, a, i) && (f.Close? || f.Empty?)
    ensures NodeAt(c, a, if f.Close? then (CLOSE + f.no) % 256 else NOTHING, 3 + f.d)
            && (f.Close? ==> 0 < f.no < NSUBEXP)
    ensures Goes(c, s, f, a, i, f.k, a + 3 + f.d, i) && Ahead(f, s, i) == Prefixed(Passing(f, i), Ahead(f.k, s, i))
  {
    hide Region;
    AtFits(c, a + 3 + f.d, f.k);
    NodeIs(c, a, if f.Close? then (CLOSE + f.no) % 256 else NOTHING, 3 + f.d);
    PrefixedNone(Ahead(f.k, s, i));
  }

  lemma GroupStep(c: Code, s: seq<Byte>, f: Cont, a: nat, i: nat)
    requires Live(c, s, f, a, i) && f.Piece? && f.re.Group?
    ensures NodeAt(c, a, (OPEN + f.re.no) % 256, 3) && 0 < f.re.no < NSUBEXP
    ensures var f' := Choice(f.re.alts, Close(f.re.no, f.d, f.k));
            Goes(c, s, f, a, i, f', a + 3, i) && Ahead(f, s, i) == Prefixed([Mark(true, f.re.no, i)], Ahead(f', s, i))
  {
    hide Region, Off, EncAlts, Ahead;
    var no, alts, d := f.re.no, f.re.alts, f.d;
    assert f.re == Group(no, alts) && f == Piece(Group(no, alts), d, f.k);
    EncLen(f.re, To(d));
    AtFits(c, a + Len(f.re) + d, f.k);
    GroupNodes(c, a, no, alts, d);
    NodeIs(c, a, (OPEN + no) % 256, 3);
    var f' := Choice(alts, Close(no, d, f.k));
    assert At(c, a + 3 + |EncAlts(alts)|, Close(no, d, f.k));
    assert Size(Close(no, d, f.k), i) == 1 + Size(f.k, i);
    assert Okay(Close(no, d, f.k), i, AltsHaveWidth(alts));
    GroupAhead(no, alts, d, f.k, s, i);
  }

  lemma GroupNodes(c: Code, a: nat, no: nat, alts: seq<Branch>, d: nat)
    requires Region(c, a, Enc(Group(no, alts), To(d)))
    ensures var n := |EncAlts(alts)|;
            && Len(Group(no, alts)) == n + 6
            && Region(c, a, Node((OPEN + no) % 256, 3)) && Region(c, a + 3, EncAlts(alts))
            && Region(c, a + 3 + n, Node((CLOSE + no) % 256, 3 + d))
  {
    hide Region, Off, EncAlts;
    var re := Group(no, alts);
    var open, body, close := Node((OPEN + no) % 256, 3), EncAlts(alts), Node((CLOSE + no) % 256, 3 + d);
    assert Enc(re, To(d)) == open + body + close;
    RegionConcat3(c, a, open, body, close);
  }

  /** The BACK node of x*. */
  lemma BackStep(c: Code, s: seq<Byte>, f: Cont, a: nat, i: nat)
    requires Live(c, s, f, a, i) && f.LoopBack?
    ensures NodeAt(c, a, BACK, 3 + Len(f.x)) && a >= 3 + Len(f.x)
    ensures Steps(c, s, f, a, i, Piece(Rep(Star, f.x), f.d, f.k), a - 3 - Len(f.x), i)
  {
    hide Region, Enc, Len;
    RepLen(Star, f.x);
    AtFits(c, a, f);
    StarNodes(c, a - 3 - Len(f.x), f.x, f.d);
    NodeIs(c, a, BACK, 3 + Len(f.x));
    OkayLater(f.k, i, false, i, false);
  }

  /** x+ begins with x. */
  lemma PlusStart(c: Code, s: seq<Byte>, x: Re, d: nat, k: Cont, a: nat, i: nat)
    requires |c| < 0x7fff && 0 !in s && i <= |s| && Loop(x) && LoopAt(c, a, Plus, x, d)
             && At(c, a + Len(x) + 12 + d, k) && Okay(k, i, true)
    ensures Live(c, s, Piece(x, 0, PlusTail(x, i, d, k)), a, i)
    ensures Size(Piece(x, 0, PlusTail(x, i, d, k)), i) == 2 + ReSize(x) + Size(k, i)
  {
    hide Region, Enc, Len, Pre, Post, Wf;
    PlusNodes(c, a, x, d);
    var f' := Piece(x, 0, PlusTail(x, i, d, k));
    assert At(c, a + Len(x), PlusTail(x, i, d, k));
    assert Size(PlusTail(x, i, d, k), i) == 1 + Size(k, i);
    assert Okay(PlusTail(x, i, d, k), i, true);
  }

  lemma PlusExpand(c: Code, s: seq<Byte>, f: Cont, a: nat, i: nat)
    requires Live(c, s, f, a, i) && f.Piece? && f.re.Rep? && f.re.op == Plus && !IsSimple(f.re.x)
    ensures Steps(c, s, f, a, i, Piece(f.re.x, 0, PlusTail(f.re.x, i, f.d, f.k)), a, i)
  {
    hide Region, Enc, Len;
    RepLen(Plus, f.re.x);
    assert f.re == Rep(Plus, f.re.x);
    PlusStart(c, s, f.re.x, f.d, f.k, a, i);
    PlusAhead(f.re.x, i, f.d, f.k, s, i);
  }

  /** The BACK node of x+. */
  lemma PlusBackStep(c: Code, s: seq<Byte>, f: Cont, a: nat, i: nat)
    requires Live(c, s, f, a, i) && f.PlusBack?
    ensures NodeAt(c, a, BACK, 3 + Len(f.x)) && a >= 3 + Len(f.x)
    ensures Steps(c, s, f, a, i, Piece(f.x, 0, PlusTail(f.x, i, f.d, f.k)), a - 3 - Len(f.x), i)
  {
    hide Region, Enc, Len;
    RepLen(Plus, f.x);
    AtFits(c, a, f);
    PlusNodes(c, a - 3 - Len(f.x), f.x, f.d);
    NodeIs(c, a, BACK, 3 + Len(f.x));
    OkayLater(f.k, i, false, i, true);
    PlusStart(c, s, f.x, f.d, f.k, a - 3 - Len(f.x), i);
    PlusAhead(f.x, i, f.d, f.k, s, i);
  }

  // ---------- BRANCH nodes: a choice ----------

  /** From a on, BRANCH nodes that lead from one to the next, with these operands. */
  ghost predicate BranchesAt(c: Code, a: nat, fs: seq<Cont>)
    decreases |fs|
  {
    a + 2 < |c| && if fs == [] then c[a] != BRANCH
                   else
                     && c[a] == BRANCH && NextOff(c, a) > 0 && At(c, a + 3, fs[0])
                     && BranchesAt(c, a + NextOff(c, a), fs[1..])
  }

  /** Any of them can be taken, none costs more than the whole, and tried in order they have its ways ahead. */
  ghost predicate Options(c: Code, s: seq<Byte>, f: Cont, a: nat, i: nat, fs: seq<Cont>) {
    && fs != [] && BranchesAt(c, a, fs)
    && (forall t | 0 <= t < |fs| :: Okay(fs[t], i, false) && Size(fs[t], i) < Size(f, i))
    && Ahead(f, s, i) == AllAhead(fs, s, i)
  }

  lemma {:induction false} BodyFacts(ps: seq<Re>, d: nat, k: Cont, i: nat, w: bool)
    requires Okay(k, i, w || PiecesHaveWidth(ps))
    ensures Okay(BodyOf(ps, d, k), i, w) && Size(BodyOf(ps, d, k), i) <= PiecesSize(ps) + Size(k, i)
    decreases |ps|
  {
    if |ps| == 1 {
      assert PiecesHaveWidth(ps) == (HasWidth(ps[0]) || PiecesHaveWidth(ps[1..]));
    } else if ps != [] {
      BodyFacts(ps[1..], d, k, i, w || HasWidth(ps[0]));
    }
  }

  lemma {:induction false} BodyAt(c: Code, a: nat, ps: seq<Re>, d: nat, k: Cont)
    requires WfPieces(ps) && Region(c, a, EncBody(Branch(ps), To(d))) && At(c, a + BodyLen(Branch(ps)) + d, k)
    ensures At(c, a, BodyOf(ps, d, k))
    decreases |ps|
  {
    hide Region, Enc, Len, Off, Wf;
    if |ps| == 1 {
      assert ps[1..] == [] && PiecesLen(ps) == Len(ps[0]);
    } else if ps != [] {
      RegionConcat(c, a, Enc(ps[0], To(0)), EncPieces(ps[1..], To(d)));
      EncLen(ps[0], To(0));
      BodyAt(c, a + Len(ps[0]), ps[1..], d, k);
    }
  }

  lemma {:induction false} AltsAt(c: Code, a: nat, bs: seq<Branch>, k: Cont)
    requires WfAlts(bs) && Region(c, a, EncAlts(bs)) && At(c, a + |EncAlts(bs)|, k) && (k.Close? || k.Done?)
             && |c| < 0x7fff
    ensures BranchesAt(c, a, AltConts(bs, k))
    decreases |bs|
  {
    hide Region, Off, EncBody, At, BodyOf;
    if bs == [] {
      EnderNode(c, a, k);
    } else {
      var rest := EncAlts(bs[1..]);
      var b := bs[0];
      var head, body := Node(BRANCH, 3 + BodyLen(b)), EncBody(b, To(|rest|));
      EncBodyLen(b, To(|rest|));
      assert EncAlts(bs) == head + body + rest;
      RegionFits(c, a, EncAlts(bs));
      RegionConcat3(c, a, head, body, rest);
      NodeIs(c, a, BRANCH, 3 + BodyLen(b));
      assert b == Branch(b.pieces);
      BodyAt(c, a + 3, b.pieces, |rest|, k);
      AltsAt(c, a + 3 + BodyLen(b), bs[1..], k);
      assert AltConts(bs, k)[1..] == AltConts(bs[1..], k);
    }
  }

  lemma EnderNode(c: Code, a: nat, k: Cont)
    requires At(c, a, k) && (k.Close? || k.Done?) && |c| < 0x7fff
    ensures a + 2 < |c| && c[a] != BRANCH
  {
    hide Region;
    AtFits(c, a, k);
    if k.Close? {
      AtFits(c, a + 3 + k.d, k.k);
      NodeIs(c, a, (CLOSE + k.no) % 256, 3 + k.d);
    } else {
      NodeIs(c, a, END, 0);
    }
  }

  lemma {:induction false} AltsFit(bs: seq<Branch>, k: Cont, i: nat, t: nat)
    requires t < |bs| && Okay(k, i, AltsHaveWidth(bs))
    ensures Okay(AltConts(bs, k)[t], i, false) && Size(AltConts(bs, k)[t], i) < 1 + AltsSize(bs) + Size(k, i)
    decreases |bs|
  {
    hide BodyOf, EncAlts;
    if t == 0 {
      OkayLater(k, i, AltsHaveWidth(bs), i, PiecesHaveWidth(bs[0].pieces));
      BodyFacts(bs[0].pieces, |EncAlts(bs[1..])|, k, i, false);
    } else {
      OkayLater(k, i, AltsHaveWidth(bs), i, AltsHaveWidth(bs[1..]));
      AltsFit(bs[1..], k, i, t - 1);
    }
  }

  lemma ChoiceOptions(c: Code, s: seq<Byte>, f: Cont, a: nat, i: nat)
    requires Live(c, s, f, a, i) && f.Choice?
    ensures Options(c, s, f, a, i, AltConts(f.bs, f.k))
  {
    hide Region, AltsWays, BranchesAt, AltConts, After, AllAhead;
    var bs, k := f.bs, f.k;
    var fs := AltConts(bs, k);
    AltsAt(c, a, bs, k);
    forall t | 0 <= t < |fs| ensures Okay(fs[t], i, false) && Size(fs[t], i) < Size(f, i) {
      AltsFit(bs, k, i, t);
    }
    AltsAhead(bs, k, s, i);
  }

  /** A choice between two operands. */
  lemma TwoAt(c: Code, a: nat, n: nat, f1: Cont, f2: Cont)
    requires NodeAt(c, a, BRANCH, n) && n > 0 && At(c, a + 3, f1)
    requires NodeAt(c, a + n, BRANCH, 3) && At(c, a + n + 3, f2) && a + n + 5 < |c| && c[a + n + 3] != BRANCH
    ensures BranchesAt(c, a, [f1, f2])
  {
    hide At;
    assert [f1, f2][1..] == [f2] && [f2][1..] == [];
    assert BranchesAt(c, a + n + 3, []);
    assert BranchesAt(c, a + n, [f2]);
  }

  lemma TwoOptions(c: Code, s: seq<Byte>, f: Cont, a: nat, i: nat, f1: Cont, f2: Cont)
    requires BranchesAt(c, a, [f1, f2])
    requires Okay(f1, i, false) && Okay(f2, i, false) && Size(f1, i) < Size(f, i) && Size(f2, i) < Size(f, i)
    requires Ahead(f, s, i) == Ahead(f1, s, i) + Ahead(f2, s, i)
    ensures Options(c, s, f, a, i, [f1, f2])
  {
    hide Okay, Size, Ahead, BranchesAt, AllAhead;
    TwoAhead(f1, f2, s, i);
  }

  lemma OptOptions(c: Code, s: seq<Byte>, f: Cont, a: nat, i: nat)
    requires Live(c, s, f, a, i) && f.Piece? && f.re.Rep? && f.re.op == Opt
    ensures Options(c, s, f, a, i, [Piece(f.re.x, 3, Empty(f.d, f.k)), Empty(f.d, f.k)])
  {
    hide Region, Enc, Len, Off, Pre, Post, Options, BranchesAt, Ways, After;
    var x, d, k := f.re.x, f.d, f.k;
    var none := Empty(d, k);
    var some := Piece(x, 3, none);
    assert f.re == Rep(Opt, x);
    RepLen(Opt, x);
    OptNodes(c, a, x, d);
    AtFits(c, a + Len(f.re) + d, k);
    NodeIs(c, a, BRANCH, 3 + Len(x));
    NodeIs(c, a + 3 + Len(x), BRANCH, 3);
    NodeIs(c, a + 6 + Len(x), NOTHING, 3 + d);
    assert At(c, a + 6 + Len(x), none);
    TwoAt(c, a, 3 + Len(x), some, none);
    OkayLater(k, i, false, i, HasWidth(x));
    assert Okay(none, i, HasWidth(x)) && Size(none, i) == 1 + Size(k, i);
    OptAhead(x, d, k, s, i);
    TwoOptions(c, s, f, a, i, some, none);
  }

  lemma StarOptions(c: Code, s: seq<Byte>, f: Cont, a: nat, i: nat)
    requires Live(c, s, f, a, i) && f.Piece? && f.re.Rep? && f.re.op == Star && !IsSimple(f.re.x)
    ensures Options(c, s, f, a, i, [Piece(f.re.x, 0, LoopBack(f.re.x, i, f.d, f.k)), Empty(f.d, f.k)])
  {
    hide Region, Enc, Len, Off, Pre, Post, Options, BranchesAt, Ways, After;
    var x, d, k := f.re.x, f.d, f.k;
    var none, back := Empty(d, k), LoopBack(x, i, d, k);
    var some := Piece(x, 0, back);
    assert f.re == Rep(Star, x) && Loop(x);
    RepLen(Star, x);
    StarNodes(c, a, x, d);
    AtFits(c, a + Len(f.re) + d, k);
    NodeIs(c, a, BRANCH, 6 + Len(x));
    NodeIs(c, a + 6 + Len(x), BRANCH, 3);
    NodeIs(c, a + 9 + Len(x), NOTHING, 3 + d);
    assert At(c, a + 9 + Len(x), none);
    assert At(c, a + 3 + Len(x), back);
    TwoAt(c, a, 6 + Len(x), some, none);
    OkayLater(k, i, false, i, true);
    assert Okay(back, i, true) && Size(back, i) == 1 + Size(k, i);
    StarTurns(x, d, k, s, i);
    TwoOptions(c, s, f, a, i, some, none);
  }

  lemma StarTurns(x: Re, d: nat, k: Cont, s: seq<Byte>, i: nat)
    requires Wf(x) && HasWidth(x) && i <= |s|
    ensures Ahead(Piece(Rep(Star, x), d, k), s, i)
            == Ahead(Piece(x, 0, LoopBack(x, i, d, k)), s, i) + Ahead(Empty(d, k), s, i)
  {
    hide Ways, Wf, HasWidth;
    PieceAhead(Rep(Star, x), d, k, s, i);
    PlusWays(x, s, i);
    StarAhead(x, k, s, i);
    TurnAhead(x, 0, LoopBack(x, i, d, k), k, s, i);
  }

  lemma TailOptions(c: Code, s: seq<Byte>, f: Cont, a: nat, i: nat)
    requires Live(c, s, f, a, i) && f.PlusTail?
    ensures Options(c, s, f, a, i, [PlusBack(f.x, f.e, f.d, f.k), Empty(f.d, f.k)])
  {
    hide Region, Enc, Len, Off, Pre, Post, Options, BranchesAt, Ways, After;
    var x, d, k := f.x, f.d, f.k;
    var none, back := Empty(d, k), PlusBack(x, f.e, d, k);
    RepLen(Plus, x);
    PlusNodes(c, a - Len(x), x, d);
    AtFits(c, a + 12 + d, k);
    NodeIs(c, a, BRANCH, 6);
    NodeIs(c, a + 6, BRANCH, 3);
    NodeIs(c, a + 9, NOTHING, 3 + d);
    assert At(c, a + 9, none);
    assert At(c, a + 3, back);
    TwoAt(c, a, 6, back, none);
    StarAhead(x, k, s, i);
    TwoOptions(c, s, f, a, i, back, none);
  }

  // ---------- STAR and PLUS nodes ----------

  /** After how many characters of the run what follows may be tried. */
  predicate InRun(re: Re, s: seq<Byte>, i: nat, p: nat)
    requires re.Rep? && IsSimple(re.x)
  {
    i + Least(re.op) <= p <= i + Run(re.x, s, i)
  }

  /** A STAR or PLUS node. */
  lemma RepeatStep(c: Code, s: seq<Byte>, f: Cont, a: nat, i: nat)
    requires Live(c, s, f, a, i) && Repeating(f)
    ensures NodeAt(c, a, if f.re.op == Star then STAR else PLUS, Len(f.re) + f.d)
    ensures var x := f.re.x; Wf(x) && a + 3 < |c| && c[a + 3] == Pre(x)[0] && Region(c, a + 6, Post(x))
    ensures At(c, a + Len(f.re) + f.d, f.k)
  {
    hide Region, Enc, Len, Off, Pre, Post;
    var op, x, k := f.re.op, f.re.x, f.k;
    assert f.re == Rep(op, x);
    RepeatNodes(c, a, op, x, f.d);
    AtFits(c, a + Len(f.re) + f.d, k);
    NodeIs(c, a, if op == Star then STAR else PLUS, Len(f.re) + f.d);
  }

  lemma RepeatLive(c: Code, s: seq<Byte>, f: Cont, a: nat, i: nat, p: nat)
    requires Live(c, s, f, a, i) && Repeating(f) && InRun(f.re, s, i, p)
    ensures Live(c, s, f.k, a + Len(f.re) + f.d, p) && i <= p && (p > i || Size(f.k, p) < Size(f, i))
  {
    hide Region, Enc, Len;
    OkayLater(f.k, i, HasWidth(f.re), p, false);
  }

  lemma RepeatNodes(c: Code, a: nat, op: RepOp, x: Re, d: nat)
    requires Region(c, a, Enc(Rep(op, x), To(d))) && op != Opt && IsSimple(x) && Wf(x)
    ensures Region(c, a, Node(if op == Star then STAR else PLUS, Len(Rep(op, x)) + d))
    ensures a + 3 < |c| && c[a + 3] == Pre(x)[0] && Region(c, a + 6, Post(x))
  {
    hide Region, Off;
    var re := Rep(op, x);
    var opcode := if op == Star then STAR else PLUS;
    var e := Enc(x, Dangling);
    EncLen(x, Dangling);
    assert Enc(re, To(d)) == Node(opcode, Len(re) + d) + e;
    RegionConcat(c, a, Node(opcode, Len(re) + d), e);
    LastNodeRegion(c, a + 3, x, Dangling);
    RegionFits(c, a + 3, e);
    RegionAt(c, a + 3, e, 0);
  }

  /** The character that a literal at a must begin with. */
  lemma Lookahead(c: Code, a: nat, f: Cont)
    requires At(c, a, f) && |c| < 0x7fff
    ensures a + 2 < |c|
    ensures c[a] == EXACTLY ==>
              && f.Piece? && f.re.Lit? && f.re.str != [] && f.re.str[0] != 0
              && a + 3 < |c| && c[a + 3] == f.re.str[0]
  {
    hide Region, Enc, Pre, Post, Len, Off, EncAlts;
    AtFits(c, a, f);
    if f.Piece? {
      EncLen(f.re, To(f.d));
      RegionAt(c, a, Enc(f.re, To(f.d)), 0);
      FirstOp(f.re, To(f.d));
      if f.re.Lit? {
        LeafNode(c, a, f.re, f.d, f.k);
        LitPost(f.re);
        RegionFits(c, a + 3, Post(f.re));
        RegionAt(c, a + 3, Post(f.re), 0);
      }
    } else {
      OtherOp(c, a, f);
    }
  }

  lemma LitPost(re: Re)
    requires re.Lit? && Wf(re)
    ensures Post(re) == re.str + [0] && re.str != [] && re.str[0] != 0
  {
  }

  /** The opcode at a frame that is not a piece. */
  function OpOf(f: Cont): Byte
    requires !f.Piece?
  {
    match f
    case Done => END
    case Close(no, _, _) => (CLOSE + no) % 256
    case Empty(_, _) => NOTHING
    case LoopBack(_, _, _, _) => BACK
    case PlusBack(_, _, _, _) => BACK
    case Choice(_, _) => BRANCH
    case PlusTail(_, _, _, _) => BRANCH
  }

  lemma OtherOp(c: Code, a: nat, f: Cont)
    requires At(c, a, f) && |c| < 0x7fff && !f.Piece?
    ensures a + 2 < |c| && c[a] == OpOf(f) && (f.Done? ==> NextOff(c, a) == 0) && (f.Close? ==> 0 < f.no < NSUBEXP)
  {
    hide Region, Enc, Pre, Post, Len, Off, EncAlts, EncBody, Wf, WfAlts, NextOff, BodyOf, EncPieces;
    AtFits(c, a, f);
    if f.Done? {
      NodeIs(c, a, END, 0);
    } else if f.Close? {
      AtFits(c, a + 3 + f.d, f.k);
      NodeIs(c, a, (CLOSE + f.no) % 256, 3 + f.d);
    } else if f.Empty? {
      AtFits(c, a + 3 + f.d, f.k);
      NodeIs(c, a, NOTHING, 3 + f.d);
    } else if f.LoopBack? {
      StarNodes(c, a - 3 - Len(f.x), f.x, f.d);
      NodeIs(c, a, BACK, 3 + Len(f.x));
    } else if f.PlusBack? {
      PlusNodes(c, a - 3 - Len(f.x), f.x, f.d);
      NodeIs(c, a, BACK, 3 + Len(f.x));
    } else if f.PlusTail? {
      PlusNodes(c, a - Len(f.x), f.x, f.d);
      NodeIs(c, a, BRANCH, 6);
    } else {
      ChoiceOp(c, a, f);
    }
  }

  lemma ChoiceOp(c: Code, a: nat, f: Cont)
    requires At(c, a, f) && |c| < 0x7fff && f.Choice?
    ensures a + 2 < |c| && c[a] == BRANCH
  {
    hide Region, Enc, EncAlts, BodyOf;
    AltsAt(c, a, f.bs, f.k);
  }

  /** Where control can be when the next node is looked at: not in front of a complex x+, which
      has no node of its own. */
  predicate Plain(f: Cont) {
    f.Piece? && f.re.Rep? && f.re.op == Plus ==> IsSimple(f.re.x)
  }

  predicate Branching(f: Cont) {
    f.Choice? || f.PlusTail? || (f.Piece? && Complex(f.re))
  }

  predicate Repeating(f: Cont) {
    f.Piece? && f.re.Rep? && f.re.op != Opt && IsSimple(f.re.x)
  }

  /** What is at a node by its opcode, and the other way round. */
  lemma Dispatch(c: Code, s: seq<Byte>, f: Cont, a: nat, i: nat)
    requires Live(c, s, f, a, i) && Plain(f)
    ensures a + 2 < |c|
    ensures c[a] == END <==> f.Done?
    ensures c[a] == BRANCH <==> Branching(f)
    ensures c[a] == STAR || c[a] == PLUS <==> Repeating(f)
    ensures c[a] == BACK <==> f.LoopBack? || f.PlusBack?
    ensures c[a] == NOTHING <==> f.Empty?
    ensures OPEN < c[a] < OPEN + NSUBEXP <==> f.Piece? && f.re.Group?
    ensures CLOSE < c[a] < CLOSE + NSUBEXP <==> f.Close?
    ensures f.Piece? && Leaf(f.re) ==> c[a] == Pre(f.re)[0]
    ensures f.Done? ==> NextOff(c, a) == 0
  {
    hide Region, Enc, Post, Len, Off, EncAlts, EncBody, BranchesAt, Ahead, AllAhead, Size, Okay;
    if !f.Piece? {
      OtherOp(c, a, f);
    } else if Leaf(f.re) {
      LeafStep(c, s, f, a, i);
    } else if f.re.Group? {
      GroupStep(c, s, f, a, i);
    } else if Repeating(f) {
      RepeatStep(c, s, f, a, i);
    } else if f.re.op == Opt {
      OptBranch(c, s, f, a, i);
    } else {
      StarBranch(c, s, f, a, i);
    }
  }

  lemma OptBranch(c: Code, s: seq<Byte>, f: Cont, a: nat, i: nat)
    requires Live(c, s, f, a, i) && f.Piece? && f.re.Rep? && f.re.op == Opt
    ensures a + 2 < |c| && c[a] == BRANCH
  {
    OptOptions(c, s, f, a, i);
  }

  lemma StarBranch(c: Code, s: seq<Byte>, f: Cont, a: nat, i: nat)
    requires Live(c, s, f, a, i) && f.Piece? && f.re.Rep? && f.re.op == Star && !IsSimple(f.re.x)
    ensures a + 2 < |c| && c[a] == BRANCH
  {
    StarOptions(c, s, f, a, i);
  }

  // ---------- Steps in terms of the "next" pointer ----------

  /** Where the "next" pointer of the node at p leads; -1 if nowhere. */
  function NextOf(c: Code, p: nat): int
    requires p + 2 < |c|
  {
    if NextOff(c, p) == 0 then -1 else if c[p] == BACK then p - NextOff(c, p) else p + NextOff(c, p)
  }

  lemma PassOn(c: Code, s: seq<Byte>, f: Cont, a: nat, i: nat)
    requires Live(c, s, f, a, i) && (f.Close? || f.Empty? || f.LoopBack? || f.PlusBack? || (f.Piece? && f.re.Group?))
    ensures a + 2 < |c| && NextOf(c, a) >= 0 && Goes(c, s, f, a, i, Passed(f, i), NextOf(c, a), i)
    ensures Ahead(f, s, i) == Prefixed(Passing(f, i), Ahead(Passed(f, i), s, i))
    ensures (f.Close? ==> c[a] == CLOSE + f.no) && (f.Piece? ==> c[a] == OPEN + f.re.no)
  {
    hide Live, Goes, At, Ahead;
    PrefixedNone(Ahead(Passed(f, i), s, i));
    if f.Close? || f.Empty? {
      CloseStep(c, s, f, a, i);
    } else if f.LoopBack? {
      BackStep(c, s, f, a, i);
    } else if f.PlusBack? {
      PlusBackStep(c, s, f, a, i);
    } else {
      GroupStep(c, s, f, a, i);
    }
  }

  lemma LeafOn(c: Code, s: seq<Byte>, f: Cont, a: nat, i: nat)
    requires Live(c, s, f, a, i) && f.Piece? && Leaf(f.re)
    ensures a + 2 < |c| && NextOf(c, a) >= 0
    ensures var e := LeafEnd(f.re, s, i);
            if e < 0 then Ahead(f, s, i) == [] else Steps(c, s, f, a, i, f.k, NextOf(c, a), e)
  {
    hide Live, Steps, Ahead, At, LeafEnd;
    LeafStep(c, s, f, a, i);
  }

  lemma RepeatOn(c: Code, s: seq<Byte>, f: Cont, a: nat, i: nat)
    requires Live(c, s, f, a, i) && Repeating(f)
    ensures a + 2 < |c| && NextOf(c, a) >= 0 && (c[a] == STAR <==> f.re.op == Star) && f.re.op != Opt && i <= |s|
    ensures var x := f.re.x; Wf(x) && IsSimple(x) && a + 3 < |c| && c[a + 3] == Pre(x)[0] && Region(c, a + 6, Post(x))
    ensures forall p: nat | InRun(f.re, s, i, p) ::
              Live(c, s, f.k, NextOf(c, a), p) && i <= p <= |s| && (p > i || Size(f.k, p) < Size(f, i))
    ensures At(c, NextOf(c, a), f.k)
  {
    hide At, Pre, Post, Region, Okay, Size;
    RepeatStep(c, s, f, a, i);
    forall p: nat | InRun(f.re, s, i, p)
      ensures Live(c, s, f.k, NextOf(c, a), p) && i <= p <= |s| && (p > i || Size(f.k, p) < Size(f, i))
    {
      RepeatLive(c, s, f, a, i, p);
    }
  }

  /** What BRANCH nodes offer. */
  function OptionsOf(f: Cont, i: nat): seq<Cont>
    requires Branching(f)
  {
    match f
    case Choice(bs, k) => AltConts(bs, k)
    case PlusTail(x, e, d, k) => [PlusBack(x, e, d, k), Empty(d, k)]
    case Piece(re, d, k) =>
      if re.op == Opt then [Piece(re.x, 3, Empty(d, k)), Empty(d, k)]
        else [Piece(re.x, 0, LoopBack(re.x, i, d, k)), Empty(d, k)]
  }

  lemma BranchOptions(c: Code, s: seq<Byte>, f: Cont, a: nat, i: nat)
    requires Live(c, s, f, a, i) && Branching(f) && Plain(f)
    ensures Options(c, s, f, a, i, OptionsOf(f, i))
  {
    hide Live, Options, At;
    if f.Choice? {
      ChoiceOptions(c, s, f, a, i);
    } else if f.PlusTail? {
      TailOptions(c, s, f, a, i);
    } else if f.re.op == Opt {
      OptOptions(c, s, f, a, i);
    } else {
      StarOptions(c, s, f, a, i);
    }
  }

  /** A BRANCH node that does not lead to another one offers no choice. */
  lemma OnlyOption(c: Code, s: seq<Byte>, f: Cont, a: nat, i: nat, fs: seq<Cont>)
    requires Live(c, s, f, a, i) && Options(c, s, f, a, i, fs)
    ensures a + 2 < |c| && c[a] == BRANCH && 0 <= NextOf(c, a) < |c| && fs != []
    ensures c[NextOf(c, a)] != BRANCH ==> Steps(c, s, f, a, i, fs[0], a + 3, i)
  {
    hide Ahead, Size, Okay, At;
    assert BranchesAt(c, a + NextOff(c, a), fs[1..]);
    if c[NextOf(c, a)] != BRANCH {
      assert fs[1..] == [] && AllAhead([], s, i) == [];
    }
  }

  // ---------- Walks ----------

  /** A walk from the frames f at i0 to the frames g at i, with the same ways ahead. */
  ghost predicate Walk(c: Code, s: seq<Byte>, f: Cont, i0: nat, g: Cont, a: nat, i: nat) {
    Live(c, s, g, a, i) && i0 <= i && Ahead(f, s, i0) == Ahead(g, s, i) && (i0 < i || Size(g, i) <= Size(f, i0))
  }

  lemma WalkStart(c: Code, s: seq<Byte>, f: Cont, a: nat, i: nat)
    requires Live(c, s, f, a, i)
    ensures Walk(c, s, f, i, f, a, i)
  {
  }

  lemma WalkOn(c: Code, s: seq<Byte>, f: Cont, i0: nat, g: Cont, a: nat, i: nat, g': Cont, a': nat, i': nat)
    requires Walk(c, s, f, i0, g, a, i) && Steps(c, s, g, a, i, g', a', i')
    ensures Walk(c, s, f, i0, g', a', i') && i <= i' && (i < i' || Size(g', i') < Size(g, i))
  {
    hide Live, Size, Ahead;
  }

  /** The same where no mark is passed. */
  lemma WalkGoes(c: Code, s: seq<Byte>, f: Cont, i0: nat, g: Cont, a: nat, i: nat, g': Cont, a': nat, i': nat)
    requires Walk(c, s, f, i0, g, a, i) && Goes(c, s, g, a, i, g', a', i') && Ahead(g, s, i) == Ahead(g', s, i')
    ensures Walk(c, s, f, i0, g', a', i') && i <= i' && (i < i' || Size(g', i') < Size(g, i))
  {
    hide Live, Size, Ahead, Goes, Walk;
    WalkOn(c, s, f, i0, g, a, i, g', a', i');
  }

  lemma GoesLive(c: Code, s: seq<Byte>, f: Cont, a: nat, i: nat, f': Cont, a': nat, i': nat)
    requires Goes(c, s, f, a, i, f', a', i')
    ensures Live(c, s, f', a', i') && i <= i' && (i < i' || Size(f', i') < Size(f, i))
  {
  }

  lemma WalkLive(c: Code, s: seq<Byte>, f: Cont, i0: nat, g: Cont, a: nat, i: nat)
    requires Walk(c, s, f, i0, g, a, i)
    ensures Live(c, s, g, a, i) && i0 <= i && Ahead(f, s, i0) == Ahead(g, s, i) && (i0 < i || Size(g, i) <= Size(f, i0))
  {
  }

  /** The frames with x+ replaced by what its code begins with. */
  function Normal(f: Cont, i: nat): Cont {
    if Plain(f) then f else Piece(f.re.x, 0, PlusTail(f.re.x, i, f.d, f.k))
  }

  lemma WalkNormal(c: Code, s: seq<Byte>, f: Cont, i0: nat, g: Cont, a: nat, i: nat)
    requires Walk(c, s, f, i0, g, a, i)
    ensures Walk(c, s, f, i0, Normal(g, i), a, i) && Plain(Normal(g, i)) && Size(Normal(g, i), i) <= Size(g, i)
  {
    hide Live, Size, Ahead, Steps;
    if !Plain(g) {
      WalkLive(c, s, f, i0, g, a, i);
      PlusIsGroup(c, s, g, a, i);
      PlusExpand(c, s, g, a, i);
      WalkOn(c, s, f, i0, g, a, i, Normal(g, i), a, i);
    }
  }

  lemma PlusIsGroup(c: Code, s: seq<Byte>, f: Cont, a: nat, i: nat)
    requires Live(c, s, f, a, i) && !Plain(f)
    ensures f.re.x.Group?
  {
  }

  lemma LitStarts(re: Re, s: seq<Byte>, p: nat)
    requires re.Lit? && re.str != []
    ensures LeafEnd(re, s, p) >= 0 ==> Char(s, p) == re.str[0]
  {
    if LeafEnd(re, s, p) >= 0 {
      assert s[p..p + |re.str|][0] == s[p];
    }
  }

  /** The lookahead: where what follows begins with a literal, it cannot match unless the literal's
      first character is next. */
  lemma LookaheadSound(c: Code, a: nat, f: Cont, s: seq<Byte>, p: nat)
    requires At(c, a, f) && |c| < 0x7fff && a + 2 < |c| && c[a] == EXACTLY
    ensures a + 3 < |c| && c[a + 3] != 0
    ensures Char(s, p) != c[a + 3] ==> Ahead(f, s, p) == []
  {
    hide At;
    Lookahead(c, a, f);
    if Char(s, p) != c[a + 3] {
      LeafAhead(f.re, f.d, f.k, s, p);
      LitStarts(f.re, s, p);
      assert f == Piece(f.re, f.d, f.k);
    }
  }
}
