/** The matcher's position in a program as a stack of frames: what the code at a node is for, and
    what follows it. Frames give the ways in which the END node is reached, in order of preference. */
module RegexFrames {
  import opened Basics
  import opened RegexSyntax
  import opened RegexCode
  import opened RegexPatch
  import opened RegexWays

  /** Where control is. In LoopBack, PlusTail and PlusBack, e is the input position at which the
      current turn of the loop was entered. */
  datatype Cont =
    | Done
    | Piece(re: Re, d: nat, k: Cont)
    | Choice(bs: seq<Branch>, k: Cont)
    | Close(no: nat, d: nat, k: Cont)
    | Empty(d: nat, k: Cont)
    | LoopBack(x: Re, e: nat, d: nat, k: Cont)
    | PlusTail(x: Re, e: nat, d: nat, k: Cont)
    | PlusBack(x: Re, e: nat, d: nat, k: Cont)

  /** What a complex * or + may be applied to. */
  predicate Loop(x: Re) {
    Wf(x) && x.Group? && HasWidth(x)
  }

  ghost predicate LoopAt(c: Code, a: nat, op: RepOp, x: Re, d: nat) {
    Region(c, a, Enc(Rep(op, x), To(d)))
  }

  /** The code at position a is that of the frame, and what it leads to that of those below it. */
  ghost predicate At(c: Code, a: nat, f: Cont)
    decreases f
  {
    match f
    case Done => Region(c, a, Node(END, 0))
    case Piece(re, d, k) => Wf(re) && Region(c, a, Enc(re, To(d))) && At(c, a + Len(re) + d, k)
    case Choice(bs, k) =>
      bs != [] && WfAlts(bs) && (k.Close? || k.Done?) && Region(c, a, EncAlts(bs)) && At(c, a + |EncAlts(bs)|, k)
    case Close(no, d, k) => 0 < no < NSUBEXP && Region(c, a, Node((CLOSE + no) % 256, 3 + d)) && At(c, a + 3 + d, k)
    case Empty(d, k) => Region(c, a, Node(NOTHING, 3 + d)) && At(c, a + 3 + d, k)
    case LoopBack(x, _, d, k) =>
      Loop(x) && a >= 3 + Len(x) && LoopAt(c, a - 3 - Len(x), Star, x, d) && At(c, a + 9 + d, k)
    case PlusTail(x, _, d, k) => Loop(x) && a >= Len(x) && LoopAt(c, a - Len(x), Plus, x, d) && At(c, a + 12 + d, k)
    case PlusBack(x, _, d, k) =>
      Loop(x) && a >= 3 + Len(x) && LoopAt(c, a - 3 - Len(x), Plus, x, d) && At(c, a + 9 + d, k)
  }

  /** The ways in which the frames reach the END node from position i in s. */
  function Ahead(f: Cont, s: seq<Byte>, i: nat): seq<Way>
    decreases f, 0, 0
  {
    match f
    case Done => [Way(i, [])]
    case Piece(re, _, k) => After(Ways(re, s, i), k, s)
    case Choice(bs, k) => After(AltsWays(bs, s, i), k, s)
    case Close(no, _, k) => Prefixed([Mark(false, no, i)], Ahead(k, s, i))
    case Empty(_, k) => Ahead(k, s, i)
    case LoopBack(x, _, _, k) => After(StarWays(x, s, i), k, s)
    case PlusTail(x, _, _, k) => After(StarWays(x, s, i), k, s)
    case PlusBack(x, _, _, k) => After(Ways(Rep(Plus, x), s, i), k, s)
  }

  /** Each of the ways so far, followed by the frames. */
  function After(ws: seq<Way>, k: Cont, s: seq<Byte>): seq<Way>
    decreases k, 1, |ws|
  {
    if ws == [] then [] else Prefixed(ws[0].marks, Ahead(k, s, ws[0].end)) + After(ws[1..], k, s)
  }

  /** Whenever control gets to a loop's end, at least one character has been consumed since its
      turn was entered: it has been already, or w says that a piece before it has width. */
  ghost predicate Okay(f: Cont, i: nat, w: bool)
    decreases f
  {
    match f
    case Done => true
    case Piece(re, _, k) => Okay(k, i, w || HasWidth(re))
    case Choice(bs, k) => Okay(k, i, w || AltsHaveWidth(bs))
    case Close(_, _, k) => Okay(k, i, w)
    case Empty(_, k) => Okay(k, i, w)
    case LoopBack(_, e, _, k) => (e < i || w) && e <= i && Okay(k, i, w)
    case PlusTail(_, e, _, k) => (e < i || w) && e <= i && Okay(k, i, w)
    case PlusBack(_, e, _, k) => (e < i || w) && e <= i && Okay(k, i, w)
  }

  lemma {:induction false} OkayLater(f: Cont, i: nat, w: bool, i': nat, w': bool)
    requires Okay(f, i, w) && (i < i' || (i == i' && (w ==> w')))
    ensures Okay(f, i', w')
    decreases f
  {
    if f.Piece? {
      OkayLater(f.k, i, w || HasWidth(f.re), i', w' || HasWidth(f.re));
    } else if f.Choice? {
      OkayLater(f.k, i, w || AltsHaveWidth(f.bs), i', w' || AltsHaveWidth(f.bs));
    } else if !f.Done? {
      OkayLater(f.k, i, w, i', w');
    }
  }

  // ---------- How many nodes can be passed without consuming a character ----------

  function ReSize(re: Re): nat
    decreases re, 0
  {
    match re
    case Group(_, alts) => 3 + AltsSize(alts)
    case Rep(_, x) => 3 + ReSize(x)
    case _ => 0
  }

  function AltsSize(alts: seq<Branch>): nat
    decreases alts, 0
  {
    if alts == [] then 0 else 1 + PiecesSize(alts[0].pieces) + AltsSize(alts[1..])
  }

  function PiecesSize(ps: seq<Re>): nat
    decreases ps, 0
  {
    if ps == [] then 1 else 1 + ReSize(ps[0]) + PiecesSize(ps[1..])
  }

  /** A loop counts again only after its turn has consumed a character. */
  function Size(f: Cont, i: nat): nat
    decreases f
  {
    match f
    case Done => 0
    case Piece(re, _, k) => 1 + ReSize(re) + Size(k, i)
    case Choice(bs, k) => 1 + AltsSize(bs) + Size(k, i)
    case Close(_, _, k) => 1 + Size(k, i)
    case Empty(_, k) => 1 + Size(k, i)
    case LoopBack(x, e, _, k) => if e < i then 5 + ReSize(x) + Size(k, i) else 1 + Size(k, i)
    case PlusTail(x, e, _, k) => if e < i then 6 + ReSize(x) + Size(k, i) else 1 + Size(k, i)
    case PlusBack(x, e, _, k) => if e < i then 5 + ReSize(x) + Size(k, i) else 1 + Size(k, i)
  }

  // ---------- Positions ----------

  /** Control is at the node at a, with the input at i. */
  ghost predicate Live(c: Code, s: seq<Byte>, f: Cont, a: nat, i: nat) {
    |c| < 0x7fff && 0 !in s && i <= |s| && At(c, a, f) && Okay(f, i, false)
  }

  /** From one position to another that is nearer to the end of the match. */
  ghost predicate Goes(c: Code, s: seq<Byte>, f: Cont, a: nat, i: nat, f': Cont, a': nat, i': nat) {
    Live(c, s, f', a', i') && i <= i' && (i < i' || Size(f', i') < Size(f, i))
  }

  /** The same, with the same ways ahead. */
  ghost predicate Steps(c: Code, s: seq<Byte>, f: Cont, a: nat, i: nat, f': Cont, a': nat, i': nat) {
    Goes(c, s, f, a, i, f', a', i') && Ahead(f, s, i) == Ahead(f', s, i')
  }

  // ---------- Nodes ----------

  /** A node with this opcode leads n bytes forward. */
  ghost predicate NodeAt(c: Code, a: nat, op: Byte, n: nat) {
    a + 2 < |c| && c[a] == op && NextOff(c, a) == n
  }

  lemma NodeIs(c: Code, a: nat, op: Byte, n: nat)
    requires Region(c, a, Node(op, n)) && n < 0x1_0000
    ensures NodeAt(c, a, op, n)
  {
    OffIs(c, a, op, n);
  }

  /** Frames lie inside the program. */
  lemma AtFits(c: Code, a: nat, f: Cont)
    requires At(c, a, f)
    ensures a + 2 < |c|
  {
    hide Enc, EncAlts, Pre, Post, Wf, WfAlts;
    if f.Piece? {
      EncLen(f.re, To(f.d));
    } else if f.Choice? {
      AltsNonempty(f.bs);
    } else if f.LoopBack? {
      EncLen(Rep(Star, f.x), To(f.d));
      RepLen(Star, f.x);
    } else if f.PlusTail? || f.PlusBack? {
      EncLen(Rep(Plus, f.x), To(f.d));
      RepLen(Plus, f.x);
    }
  }

  lemma AltsNonempty(bs: seq<Branch>)
    requires bs != []
    ensures |EncAlts(bs)| >= 3
  {
  }

  /** The nodes of an optional piece. */
  lemma OptNodes(c: Code, a: nat, x: Re, d: nat)
    requires Region(c, a, Enc(Rep(Opt, x), To(d)))
    ensures var n := Len(x);
            && Region(c, a, Node(BRANCH, 3 + n)) && Region(c, a + 3, Enc(x, To(3)))
            && Region(c, a + 3 + n, Node(BRANCH, 3)) && Region(c, a + 6 + n, Node(NOTHING, 3 + d))
  {
    hide Region, Off, Enc;
    var e := Enc(x, To(3));
    EncLen(x, To(3));
    var re := Rep(Opt, x);
    RepTo(re, d);
    var head, mid := [BRANCH] + Off(3 + |e|), [BRANCH] + Off(3);
    assert Pre(re) + Off(3 + d) == head + e + mid + ([NOTHING] + Off(3 + d));
    RegionConcat3(c, a, head + e, mid, [NOTHING] + Off(3 + d));
    RegionConcat(c, a, head, e);
  }

  lemma RepTo(re: Re, d: nat)
    requires Complex(re)
    ensures Enc(re, To(d)) == Pre(re) + Off(3 + d)
  {
  }

  lemma StarNodes(c: Code, a: nat, x: Re, d: nat)
    requires LoopAt(c, a, Star, x, d) && Loop(x)
    ensures var n := Len(x);
            && Region(c, a, Node(BRANCH, 6 + n)) && Region(c, a + 3, Enc(x, To(0)))
            && Region(c, a + 3 + n, Node(BACK, 3 + n))
            && Region(c, a + 6 + n, Node(BRANCH, 3)) && Region(c, a + 9 + n, Node(NOTHING, 3 + d))
  {
    hide Region, Off, Enc;
    var e := Enc(x, To(0));
    EncLen(x, To(0));
    var re := Rep(Star, x);
    RepTo(re, d);
    var head, back, mid := [BRANCH] + Off(6 + |e|), [BACK] + Off(3 + |e|), [BRANCH] + Off(3);
    assert Pre(re) + Off(3 + d) == head + e + back + mid + ([NOTHING] + Off(3 + d));
    RegionConcat3(c, a, head + e + back, mid, [NOTHING] + Off(3 + d));
    RegionConcat3(c, a, head, e, back);
  }

  lemma PlusNodes(c: Code, a: nat, x: Re, d: nat)
    requires LoopAt(c, a, Plus, x, d) && Loop(x)
    ensures var n := Len(x);
            && Region(c, a, Enc(x, To(0))) && Region(c, a + n, Node(BRANCH, 6))
            && Region(c, a + 3 + n, Node(BACK, 3 + n))
            && Region(c, a + 6 + n, Node(BRANCH, 3)) && Region(c, a + 9 + n, Node(NOTHING, 3 + d))
  {
    hide Region, Off, Enc;
    var e := Enc(x, To(0));
    EncLen(x, To(0));
    var re := Rep(Plus, x);
    RepTo(re, d);
    var head, back, mid := [BRANCH] + Off(6), [BACK] + Off(3 + |e|), [BRANCH] + Off(3);
    assert Pre(re) + Off(3 + d) == e + head + back + mid + ([NOTHING] + Off(3 + d));
    RegionConcat3(c, a, e + head + back, mid, [NOTHING] + Off(3 + d));
    RegionConcat3(c, a, e, head, back);
  }
}
