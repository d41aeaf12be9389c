/** Following and patching chains in a program of which one segment is known: x + segment + y. */
module RegexPatch {
  import opened Basics
  import opened RegexSyntax
  import opened RegexCode

  function Node(op: Byte, n: nat): (c: Code)
    ensures |c| == 3
  {
    [op] + Off(n)
  }

  lemma MidRegion(x: Code, seg: Code, y: Code)
    ensures Region(x + seg + y, |x|, seg)
  {
  }

  lemma MidPatched(x: Code, seg: Code, y: Code, t: nat, n: nat, seg': Code)
    requires |x| <= t && t + 2 < |x| + |seg| && |seg'| == |seg|
    requires Region(SetOff(x + seg + y, t, n), |x|, seg')
    ensures SetOff(x + seg + y, t, n) == x + seg' + y
  {
    var c' := SetOff(x + seg + y, t, n);
    assert c'[..|x|] == x && c'[|x| + |seg|..] == y;
    assert c' == c'[..|x|] + c'[|x|..|x| + |seg|] + c'[|x| + |seg|..];
  }

  lemma NodeMid(x: Code, op: Byte, y: Code, m: nat)
    requires op != BACK || m < 0x1_0000
    ensures var c := x + Node(op, 0) + y;
            TailOf(c, |x|) == |x| && c[|x|] == op && SetOff(c, |x|, m) == x + Node(op, m) + y
  {
    hide TailOf, NextOff, SetOff, Off;
    var c := x + Node(op, 0) + y;
    MidRegion(x, Node(op, 0), y);
    OffIs(c, |x|, op, 0);
    TailZero(c, |x|);
    PatchAt(c, |x|, m, Off(0));
    MidPatched(x, Node(op, 0), y, |x|, m, Node(op, m));
  }

  lemma TailZero(c: Code, p: nat)
    requires p + 2 < |c| && NextOff(c, p) == 0
    ensures TailOf(c, p) == p
  {
  }

  /** The tail of a dangling piece, and what patching it does. */
  lemma PieceMid(x: Code, re: Re, y: Code, d: nat)
    requires Wf(re) && |x + Enc(re, Dangling) + y| < 0x8000
    ensures var c, t := x + Enc(re, Dangling) + y, |x| + LastNode(re);
            && t + 2 < |c| && TailOf(c, |x|) == t && c[t] != BACK
            && SetOff(c, t, |x| + Len(re) + d - t) == x + Enc(re, To(d)) + y
  {
    hide Region, TailOf, SetOff, Enc, Pre, Post;
    var c := x + Enc(re, Dangling) + y;
    MidRegion(x, Enc(re, Dangling), y);
    EncLen(re, Dangling);
    EncLen(re, To(d));
    TailPiece(c, |x|, re, Dangling);
    PatchPiece(c, |x|, re, d);
    MidPatched(x, Enc(re, Dangling), y, |x| + LastNode(re), 3 + |Post(re)| + d, Enc(re, To(d)));
  }

  /** Linking a new alternative to what follows it. */
  lemma LinkMid(x: Code, alts: seq<Branch>, b: Branch, y: Code)
    requires |x + (MixAlts(alts, 0) + BranchOpen(b)) + y| < 0x8000
    ensures var c, t := x + (MixAlts(alts, 0) + BranchOpen(b)) + y, |x| + AltsLen(alts);
            && t + 2 < |c| && TailOf(c, |x|) == t && c[t] == BRANCH
            && SetOff(c, t, 3 + BodyLen(b)) == x + MixAlts(alts + [b], 0) + y
  {
    hide Region, TailOf, SetOff, MixAlts;
    var seg := MixAlts(alts, 0) + BranchOpen(b);
    var c, t := x + seg + y, |x| + AltsLen(alts);
    MidRegion(x, seg, y);
    LinkLast(c, |x|, alts, b);
    EncBodyLen(b, Dangling);
    MixSnoc(alts, b);
    MidPatched(x, seg, y, t, 3 + BodyLen(b), MixAlts(alts + [b], 0));
  }

  /** Tying the operand of alternative j to what follows the last alternative. */
  lemma TieMid(x: Code, alts: seq<Branch>, j: nat, y: Code)
    requires j < |alts| && WfAlts(alts) && |x + MixAlts(alts, j) + y| < 0x8000
    ensures var c := x + MixAlts(alts, j) + y;
            && Tied(c, |x|, alts, j)
            && var p := |x| + AltsLen(alts[..j]);
               var t := p + 3 + BodyLast(alts[j]);
               && SetOff(c, t, |x| + AltsLen(alts) - t) == x + MixAlts(alts, j + 1) + y
               && NextOff(x + MixAlts(alts, j + 1) + y, p) == 3 + BodyLen(alts[j])
  {
    hide Region, TailOf, MixAlts, BodyLast, WfAlts;
    var c := x + MixAlts(alts, j) + y;
    MidRegion(x, MixAlts(alts, j), y);
    TieOperand(c, |x|, alts, j);
    var p := |x| + AltsLen(alts[..j]);
    var t := p + 3 + BodyLast(alts[j]);
    MidPatched(x, MixAlts(alts, j), y, t, |x| + AltsLen(alts) - t, MixAlts(alts, j + 1));
  }

  // ---------- The shapes that regpiece puts together ----------

  lemma OptShape(x: Code, re: Re)
    ensures var e := Enc(re, To(3));
            x + Node(BRANCH, 3 + |e|) + e + Node(BRANCH, 3) + Node(NOTHING, 0) == x + Enc(Rep(Opt, re), Dangling)
  {
    hide Off, Enc;
    var e := Enc(re, To(3));
    EncRep(Rep(Opt, re));
    assert Pre(Rep(Opt, re)) == [BRANCH] + Off(3 + |e|) + e + [BRANCH] + Off(3) + [NOTHING];
  }

  lemma EncRep(re: Re)
    requires Complex(re)
    ensures Enc(re, Dangling) == Pre(re) + Off(0)
  {
  }

  lemma StarShape(x: Code, re: Re)
    requires !IsSimple(re)
    ensures var e := Enc(re, To(0));
            x + Node(BRANCH, 6 + |e|) + e + Node(BACK, 3 + |e|) + Node(BRANCH, 3) + Node(NOTHING, 0)
              == x + Enc(Rep(Star, re), Dangling)
  {
    hide Off, Enc, Pre;
    var e := Enc(re, To(0));
    EncRep(Rep(Star, re));
    StarPre(re);
  }

  lemma StarPre(re: Re)
    requires !IsSimple(re)
    ensures var e := Enc(re, To(0));
            Pre(Rep(Star, re)) == [BRANCH] + Off(6 + |e|) + e + [BACK] + Off(3 + |e|) + [BRANCH] + Off(3) + [NOTHING]
  {
    hide Off, Post, EncAlts, EncPieces, EncBody, Len, Wf;
  }

  lemma PlusShape(x: Code, re: Re)
    requires !IsSimple(re)
    ensures var e := Enc(re, To(0));
            x + e + Node(BRANCH, 6) + Node(BACK, 3 + |e|) + Node(BRANCH, 3) + Node(NOTHING, 0)
              == x + Enc(Rep(Plus, re), Dangling)
  {
    hide Off, Enc, Pre;
    var e := Enc(re, To(0));
    EncRep(Rep(Plus, re));
    PlusPre(re);
  }

  lemma PlusPre(re: Re)
    requires !IsSimple(re)
    ensures var e := Enc(re, To(0));
            Pre(Rep(Plus, re)) == e + [BRANCH] + Off(6) + [BACK] + Off(3 + |e|) + [BRANCH] + Off(3) + [NOTHING]
  {
    hide Off, Post, EncAlts, EncPieces, EncBody, Len, Wf;
  }

  lemma SimpleShape(x: Code, op: RepOp, re: Re)
    requires op != Opt && IsSimple(re)
    ensures x + Node(if op == Star then STAR else PLUS, 0) + Enc(re, Dangling) == x + Enc(Rep(op, re), Dangling)
  {
    hide Off, Enc;
    EncSimple(op, re);
  }

  lemma EncSimple(op: RepOp, re: Re)
    requires op != Opt && IsSimple(re)
    ensures Enc(Rep(op, re), Dangling) == Node(if op == Star then STAR else PLUS, 0) + Enc(re, Dangling)
  {
  }

  // ---------- The steps by which regpiece puts them together ----------

  /** A node inserted in front of what starts at p. */
  function Inserted(c: Code, op: Byte, p: nat): (r: Code)
    requires p <= |c|
    ensures |r| == |c| + 3
  {
    c[..p] + Node(op, 0) + c[p..]
  }

  /** A node added at the end. */
  function Then(c: Code, op: Byte): (r: Code)
    ensures |r| == |c| + 3
  {
    c + Node(op, 0)
  }

  lemma InsertedIs(c: Code, op: Byte, p: nat, r: Code)
    requires p <= |c| && |r| == |c| + 3 && r[p] == op && r[p + 1] == r[p + 2] == 0
    requires forall k | 0 <= k < p :: r[k] == c[k]
    requires forall k | p + 3 <= k < |r| :: r[k] == c[k - 3]
    ensures r == Inserted(c, op, p)
  {
  }

  lemma InsertMid(x: Code, e: Code, op: Byte)
    ensures Inserted(x + e, op, |x|) == x + Node(op, 0) + e
  {
    hide Node;
    assert (x + e)[..|x|] == x && (x + e)[|x|..] == e;
  }

  lemma Assoc4(x: Code, a: Code, b: Code, c: Code)
    ensures x + a + b + c == x + a + (b + c) == x + (a + b + c) == x + (a + b) + c
  {
  }

  /** The nodes to patch for x?, where e is the code of x, whose last node is last bytes in: each
      time the node at which the chain ends, and in the end the whole code. */
  ghost predicate OptPatches(c0: Code, e: Code, last: nat, whole: Code)
    requires last + 3 <= |e|
  {
    var a, n := |c0|, |e|;
    var t := a + 3 + last;
    var c2 := Then(Inserted(c0 + e, BRANCH, a), BRANCH);
    var c4 := Then(SetOff(c2, a, 3 + n), NOTHING);
    var c5 := SetOff(c4, a + 3 + n, 3);
    && TailOf(c2, a) == a && c2[a] == BRANCH
    && TailOf(c4, a) == a + 3 + n && c4[a + 3 + n] == BRANCH
    && c5[a] == BRANCH && TailOf(c5, a + 3) == t && c5[t] != BACK
    && SetOff(c5, t, a + 6 + n - t) == whole
  }

  /** x? as (x|). */
  lemma OptSteps(c0: Code, x: Re)
    requires Wf(x) && |c0| + Len(x) + 9 < 0x8000
    ensures LastNode(x) + 3 <= |Enc(x, Dangling)| == Len(x)
    ensures OptPatches(c0, Enc(x, Dangling), LastNode(x), c0 + Enc(Rep(Opt, x), Dangling))
  {
    hide TailOf, NextOff, SetOff, Off, Enc, LastNode, Node, Inserted, Len, Pre, Post, Wf;
    var e, branch, nothing := Enc(x, Dangling), Node(BRANCH, 0), Node(NOTHING, 0);
    EncLen(x, Dangling);
    EncLen(x, To(3));
    InsertMid(c0, e, BRANCH);
    Assoc4(c0, branch, e, branch);
    NodeMid(c0, BRANCH, e + branch, 3 + |e|);
    var head := c0 + Node(BRANCH, 3 + |e|);
    Assoc4(c0, Node(BRANCH, 3 + |e|), e, branch);
    OptTail(c0, e, nothing);
    NodeMid(head + e, BRANCH, nothing, 3);
    Assoc4(head, e, Node(BRANCH, 3), nothing);
    PieceMid(head, x, Node(BRANCH, 3) + nothing, 3);
    Assoc4(head, Enc(x, To(3)), Node(BRANCH, 3), nothing);
    HeadOp(c0, BRANCH, 3 + |e|, e + Node(BRANCH, 3) + nothing);
    Assoc4(head, e, Node(BRANCH, 3), nothing);
    OptShape(c0, x);
  }

  lemma HeadOp(x: Code, op: Byte, n: nat, y: Code)
    ensures (x + Node(op, n) + y)[|x|] == op
  {
  }

  lemma OptTail(x: Code, e: Code, y: Code)
    requires 3 + |e| < 0x1_0000
    ensures TailOf(x + Node(BRANCH, 3 + |e|) + e + Node(BRANCH, 0) + y, |x|) == |x| + 3 + |e|
  {
    hide TailOf, NextOff, Off;
    var c := x + Node(BRANCH, 3 + |e|) + e + Node(BRANCH, 0) + y;
    NodeMid(x + Node(BRANCH, 3 + |e|) + e, BRANCH, y, 0);
    MidRegion(x, Node(BRANCH, 3 + |e|), e + Node(BRANCH, 0) + y);
    assert c == x + Node(BRANCH, 3 + |e|) + (e + Node(BRANCH, 0) + y);
    TailStep(c, |x|, BRANCH, 3 + |e|);
  }

  /** The nodes to patch for x*, where e is the code of x, whose last node is last bytes in. */
  ghost predicate StarPatches(c0: Code, e: Code, last: nat, whole: Code)
    requires last + 3 <= |e|
  {
    var a, n := |c0|, |e|;
    var t := a + 3 + last;
    var c2 := Then(Inserted(c0 + e, BRANCH, a), BACK);
    var c3 := SetOff(c2, t, a + 3 + n - t);
    var c5 := Then(SetOff(c3, a + 3 + n, 3 + n), BRANCH);
    var c7 := Then(SetOff(c5, a, 6 + n), NOTHING);
    && c2[a] == BRANCH && TailOf(c2, a + 3) == t && c2[t] != BACK
    && c3[a] == BRANCH && TailOf(c3, a + 3) == a + 3 + n && c3[a + 3 + n] == BACK
    && TailOf(c5, a) == a && c5[a] == BRANCH
    && TailOf(c7, a) == a + 6 + n && c7[a + 6 + n] == BRANCH
    && SetOff(c7, a + 6 + n, 3) == whole
  }

  /** x* as (x&|), where & leads back to the start. */
  lemma StarSteps(c0: Code, x: Re)
    requires Wf(x) && !IsSimple(x) && |c0| + Len(x) + 12 < 0x8000
    ensures LastNode(x) + 3 <= |Enc(x, Dangling)| == Len(x)
    ensures StarPatches(c0, Enc(x, Dangling), LastNode(x), c0 + Enc(Rep(Star, x), Dangling))
  {
    hide TailOf, NextOff, SetOff, Off, Enc, LastNode, Node, Inserted, Len, Pre, Post, Wf;
    var e, e0, branch, back, nothing := Enc(x, Dangling), Enc(x, To(0)), Node(BRANCH, 0), Node(BACK, 0),
      Node(NOTHING, 0);
    EncLen(x, Dangling);
    EncLen(x, To(0));
    InsertMid(c0, e, BRANCH);
    PieceMid(c0 + branch, x, back, 0);
    Assoc4(c0, branch, e, back);
    HeadOp(c0, BRANCH, 0, e + back);
    Assoc4(c0, branch, e0, back);
    HeadOp(c0, BRANCH, 0, e0 + back);
    BackTail(c0 + branch, x);
    var back' := Node(BACK, 3 + |e|);
    EndMid(c0 + branch + e0, BACK, 3 + |e|);
    Assoc4(c0, branch, e0, back' + branch);
    Assoc4(c0 + branch, e0, back', branch);
    NodeMid(c0, BRANCH, e0 + back' + branch, 6 + |e|);
    StarEnd(c0, e0, back');
    StarShape(c0, x);
  }

  /** The operand of a loop leads to its BACK node. */
  lemma BackTail(x: Code, re: Re)
    requires Wf(re) && |x| + Len(re) + 3 < 0x8000
    ensures var c := x + Enc(re, To(0)) + Node(BACK, 0); var t := |x| + Len(re);
            TailOf(c, |x|) == t && c[t] == BACK
  {
    hide TailOf, NextOff, SetOff, Off, Enc, LastNode, Len, Region, Node, Pre, Post, Wf;
    EncLen(re, To(0));
    MidRegion(x, Enc(re, To(0)), Node(BACK, 0));
    EndMid(x + Enc(re, To(0)), BACK, 0);
    BackTailAt(x + Enc(re, To(0)) + Node(BACK, 0), |x|, re);
  }

  lemma BackTailAt(c: Code, a: nat, re: Re)
    requires Wf(re) && |c| < 0x8000 && Region(c, a, Enc(re, To(0)))
    ensures TailOf(c, a) == TailOf(c, a + Len(re))
  {
    hide TailOf, NextOff, Off, Enc, LastNode, Len, Region, Pre, Post, Wf;
    EncLen(re, To(0));
    RegionFits(c, a, Enc(re, To(0)));
    TailPiece(c, a, re, To(0));
  }

  lemma EndMid(x: Code, op: Byte, m: nat)
    requires op != BACK || m < 0x1_0000
    ensures var c := x + Node(op, 0); TailOf(c, |x|) == |x| && c[|x|] == op && SetOff(c, |x|, m) == x + Node(op, m)
  {
    hide TailOf, NextOff, SetOff, Off;
    NodeMid(x, op, [], m);
    assert x + Node(op, 0) + [] == x + Node(op, 0) && x + Node(op, m) + [] == x + Node(op, m);
  }

  /** The last two nodes of a loop. */
  lemma StarEnd(c0: Code, e: Code, back: Code)
    requires |back| == 3 && |c0| + |e| + 12 < 0x8000
    ensures var t := |c0| + 6 + |e|;
            var c := c0 + Node(BRANCH, 6 + |e|) + (e + back + Node(BRANCH, 0)) + Node(NOTHING, 0);
            && TailOf(c, |c0|) == t && c[t] == BRANCH
            && SetOff(c, t, 3) == c0 + Node(BRANCH, 6 + |e|) + e + back + Node(BRANCH, 3) + Node(NOTHING, 0)
  {
    hide TailOf, NextOff, SetOff, Off, Node;
    ChoiceTail(c0, Node(BRANCH, 6 + |e|), e, back, Node(BRANCH, 0), Node(BRANCH, 3), Node(NOTHING, 0));
  }

  lemma ChoiceTail(x: Code, head: Code, e: Code, back: Code, a: Code, b: Code, y: Code)
    requires 3 + |e| + |back| < 0x1_0000 && head == Node(BRANCH, 3 + |e| + |back|)
    requires a == Node(BRANCH, 0) && b == Node(BRANCH, 3)
    ensures var t := |x| + 3 + |e| + |back|;
            var c := x + head + (e + back + a) + y;
            && TailOf(c, |x|) == t && t < |c| && c[t] == BRANCH
            && t + 2 < |c| && SetOff(c, t, 3) == x + head + e + back + b + y
  {
    hide TailOf, NextOff, SetOff, Off, Node;
    var front := x + head + (e + back);
    ChoiceJoin(x, head, e, back, a, b, y);
    ChoiceEnd(x, e + back, front, y);
  }

  lemma ChoiceJoin(x: Code, head: Code, e: Code, back: Code, a: Code, b: Code, y: Code)
    ensures var front := x + head + (e + back);
            && x + head + (e + back + a) + y == front + a + y
            && front + b + y == x + head + e + back + b + y
            && |front| == |x| + |head| + |e| + |back|
  {
    Assoc4(x, head, e + back, a);
    Assoc4(x, head, e, back);
  }

  /** The last BRANCH node of a choice: the chain ends there, and it can be made to lead on. */
  lemma ChoiceEnd(x: Code, e: Code, front: Code, y: Code)
    requires 3 + |e| < 0x1_0000 && front == x + Node(BRANCH, 3 + |e|) + e
    ensures var c := front + Node(BRANCH, 0) + y;
            TailOf(c, |x|) == |front| && c[|front|] == BRANCH && SetOff(c, |front|, 3) == front + Node(BRANCH, 3) + y
  {
    hide TailOf, NextOff, SetOff, Off;
    OptTail(x, e, y);
    NodeMid(front, BRANCH, y, 3);
  }

  /** The nodes to patch for x+. */
  ghost predicate PlusPatches(c0: Code, e: Code, last: nat, whole: Code)
    requires last + 3 <= |e|
  {
    var a, n := |c0|, |e|;
    var t := a + last;
    var c1 := Then(c0 + e, BRANCH);
    var c3 := Then(SetOff(c1, t, a + n - t), BACK);
    var c5 := Then(SetOff(c3, a + n + 3, 3 + n), BRANCH);
    var c7 := Then(SetOff(c5, a + n, 6), NOTHING);
    && TailOf(c1, a) == t && c1[t] != BACK
    && TailOf(c3, a + n + 3) == a + n + 3 && c3[a + n + 3] == BACK
    && TailOf(c5, a + n) == a + n && c5[a + n] == BRANCH
    && TailOf(c7, a) == a + n + 6 && c7[a + n + 6] == BRANCH
    && SetOff(c7, a + n + 6, 3) == whole
  }

  /** x+ as x(&|), where & leads back to the start. */
  lemma PlusSteps(c0: Code, x: Re)
    requires Wf(x) && !IsSimple(x) && |c0| + Len(x) + 12 < 0x8000
    ensures LastNode(x) + 3 <= |Enc(x, Dangling)| == Len(x)
    ensures PlusPatches(c0, Enc(x, Dangling), LastNode(x), c0 + Enc(Rep(Plus, x), Dangling))
  {
    hide TailOf, NextOff, SetOff, Off, Enc, LastNode, Node, Len, Pre, Post, Wf;
    var e0, branch, back := Enc(x, To(0)), Node(BRANCH, 0), Node(BACK, 3 + Len(x));
    EncLen(x, Dangling);
    EncLen(x, To(0));
    PieceMid(c0, x, branch, 0);
    EndMid(c0 + e0 + branch, BACK, 3 + |e0|);
    Assoc4(c0 + e0, branch, back, branch);
    NodeMid(c0 + e0, BRANCH, back + branch, 6);
    Assoc4(c0 + e0, Node(BRANCH, 6), back, branch);
    PlusEnd(c0, x, back);
    NodeMid(c0 + e0 + Node(BRANCH, 6) + back, BRANCH, Node(NOTHING, 0), 3);
    PlusShape(c0, x);
  }

  lemma RegionOn(c: Code, y: Code, a: nat, seg: Code)
    requires Region(c, a, seg)
    ensures Region(c + y, a, seg)
  {
  }

  lemma RegionEnd(x: Code, seg: Code)
    ensures Region(x + seg, |x|, seg)
  {
  }

  lemma LongEnough(x: Code, e: Code, head: Code, y: Code, z: Code, w: Code)
    ensures |x + e + head + y + z + w| == |x| + |e| + |head| + |y| + |z| + |w|
  {
  }

  lemma FourOn(x: Code, e: Code, head: Code, y: Code, z: Code, w: Code)
    requires |head| == 3 && |y| == 3
    ensures var c := x + e + head + y + z + w;
            Region(c, |x|, e) && Region(c, |x| + |e|, head) && Region(c, |x| + |e| + 6, z)
  {
    hide Region;
    RegionEnd(x, e);
    RegionOn(x + e, head, |x|, e);
    RegionEnd(x + e, head);
    RegionOn(x + e + head, y, |x|, e);
    RegionOn(x + e + head, y, |x + e|, head);
    RegionOn(x + e + head + y, z, |x|, e);
    RegionOn(x + e + head + y, z, |x + e|, head);
    RegionOn(x + e + head + y + z, w, |x|, e);
    RegionOn(x + e + head + y + z, w, |x + e|, head);
    RegionEnd(x + e + head + y, z);
    RegionOn(x + e + head + y + z, w, |x + e + head + y|, z);
  }

  lemma PlusTail(c: Code, a: nat, x: Re)
    requires Wf(x) && |c| < 0x8000 && Region(c, a, Enc(x, To(0)))
    requires Region(c, a + Len(x), Node(BRANCH, 6)) && Region(c, a + Len(x) + 6, Node(BRANCH, 0))
    ensures TailOf(c, a) == a + Len(x) + 6
  {
    hide TailOf, NextOff, Off, Enc, LastNode, Len, Region, Pre, Post, Wf;
    EncLen(x, To(0));
    RegionFits(c, a, Enc(x, To(0)));
    TailPiece(c, a, x, To(0));
    TailStep(c, a + Len(x), BRANCH, 6);
    TailStep(c, a + Len(x) + 6, BRANCH, 0);
  }

  lemma PlusEnd(c0: Code, x: Re, back: Code)
    requires Wf(x) && |back| == 3 && |c0| + Len(x) + 12 < 0x8000
    ensures var e := Enc(x, To(0));
            TailOf(c0 + e + Node(BRANCH, 6) + back + Node(BRANCH, 0) + Node(NOTHING, 0), |c0|) == |c0| + Len(x) + 6
  {
    hide TailOf, NextOff, SetOff, Off, Enc, LastNode, Node, Len, Region, Pre, Post, Wf, IsSimple;
    var e, head, branch, nothing := Enc(x, To(0)), Node(BRANCH, 6), Node(BRANCH, 0), Node(NOTHING, 0);
    EncLen(x, To(0));
    FourOn(c0, e, head, back, branch, nothing);
    var c := c0 + e + head + back + branch + nothing;
    LongEnough(c0, e, head, back, branch, nothing);
    PlusTail(c, |c0|, x);
  }

  // ---------- What regatom, regbranch and reg put together ----------

  lemma LeafShape(c: Code, re: Re)
    requires Leaf(re)
    ensures Then(c, Pre(re)[0]) + Post(re) == c + Enc(re, Dangling) && Len(re) == 3 + |Post(re)|
  {
    hide Off;
    assert Enc(re, Dangling) == Node(Pre(re)[0], 0) + Post(re);
  }

  lemma RepLen(op: RepOp, x: Re)
    ensures Len(Rep(op, x)) == Len(x) + if op == Opt then 9 else if IsSimple(x) then 3 else 12
  {
    hide Off, Enc;
    EncLen(x, To(0));
    EncLen(x, To(3));
    EncLen(x, Dangling);
  }

  /** Pieces in sequence, each leading to the next and the last to what follows. */
  function Strung(ps: seq<Re>): Code {
    if ps == [] then [] else EncPieces(ps, To(0))
  }

  lemma StrungSnoc(ps: seq<Re>, p: Re)
    ensures Strung(ps + [p]) == Strung(ps) + Enc(p, To(0))
    ensures EncPieces(ps + [p], Dangling) == Strung(ps) + Enc(p, Dangling)
    ensures |Strung(ps)| == PiecesLen(ps) && PiecesLen(ps + [p]) == PiecesLen(ps) + Len(p)
  {
    hide Enc, Len;
    if ps == [] {
      assert ps + [p] == [p] && [p][1..] == [];
    } else {
      EncPiecesSnoc(ps, p, To(0));
      EncPiecesSnoc(ps, p, Dangling);
      EncPiecesLen(ps, To(0));
    }
  }

  lemma {:induction false} PiecesLenAdds(ps: seq<Re>, qs: seq<Re>)
    ensures PiecesLen(ps + qs) == PiecesLen(ps) + PiecesLen(qs)
    decreases |ps|
  {
    hide Len;
    if ps == [] {
      assert ps + qs == qs;
    } else {
      assert (ps + qs)[0] == ps[0] && (ps + qs)[1..] == ps[1..] + qs;
      PiecesLenAdds(ps[1..], qs);
    }
  }

  lemma {:induction false} AltsLenAdds(alts: seq<Branch>, more: seq<Branch>)
    ensures AltsLen(alts + more) == AltsLen(alts) + AltsLen(more)
    decreases |alts|
  {
    hide BodyLen;
    if alts == [] {
      assert alts + more == more;
    } else {
      assert (alts + more)[0] == alts[0] && (alts + more)[1..] == alts[1..] + more;
      AltsLenAdds(alts[1..], more);
    }
  }

  /** What reg emits: a group, or the whole program. */
  function RegSeg(paren: bool, no: nat, alts: seq<Branch>): Code {
    if paren then Enc(Group(no, alts), Dangling) else EncProgram(alts)
  }

  function Opening(paren: bool, no: nat): (c: Code)
    ensures |c| == if paren then 3 else 0
  {
    if paren then Node((OPEN + no) % 256, 3) else []
  }

  function Ender(paren: bool, no: nat): Byte {
    if paren then (CLOSE + no) % 256 else END
  }

  lemma RegShape(c: Code, paren: bool, no: nat, alts: seq<Branch>)
    ensures c + Opening(paren, no) + MixAlts(alts, |alts|) + Node(Ender(paren, no), 0) == c + RegSeg(paren, no, alts)
    ensures |RegSeg(paren, no, alts)| == |Opening(paren, no)| + AltsLen(alts) + 3
  {
    hide Off, MixAlts, EncAlts;
    MixAll(alts, |alts|);
    if paren {
      assert Enc(Group(no, alts), Dangling) == Opening(paren, no) + EncAlts(alts) + Node(Ender(paren, no), 0);
    } else {
      assert c + Opening(paren, no) == c;
    }
  }

  /** The opening node leads to the first alternative. */
  lemma OpeningTail(c: Code, y: Code, paren: bool, no: nat)
    requires paren ==> no < NSUBEXP && |c| + 3 < 0x8000
    ensures TailOf(c + Opening(paren, no) + y, |c|) == TailOf(c + Opening(paren, no) + y, |c + Opening(paren, no)|)
  {
    hide TailOf, Off;
    if paren {
      MidRegion(c, Opening(paren, no), y);
      TailStep(c + Opening(paren, no) + y, |c|, (OPEN + no) % 256, 3);
    }
  }

  /** Pieces in sequence, the last of which dangles. */
  function Loose(ps: seq<Re>): Code {
    if ps == [] then [] else EncPieces(ps, Dangling)
  }

  lemma LooseLen(ps: seq<Re>)
    ensures |Loose(ps)| == PiecesLen(ps)
  {
    if ps != [] {
      EncPiecesLen(ps, Dangling);
    }
  }

  lemma StringShape(x: Code, init: seq<Re>, last: Re, p: Re)
    ensures x + Loose(init + [last]) == x + Strung(init) + Enc(last, Dangling)
    ensures x + Loose(init + [last] + [p]) == x + Strung(init) + Enc(last, To(0)) + Enc(p, Dangling)
    ensures |x + Strung(init)| == |x| + PiecesLen(init) && PiecesLen(init + [last]) == PiecesLen(init) + Len(last)
  {
    hide Enc, Len, PiecesLen;
    StrungSnoc(init, last);
    StrungSnoc(init + [last], p);
    ConcatAssoc(x, Strung(init), Enc(last, Dangling));
    Assoc4(x, Strung(init), Enc(last, To(0)), Enc(p, Dangling));
  }

  /** Stringing one more piece on. */
  lemma StringOn(x: Code, ps: seq<Re>, p: Re)
    requires ps != [] && WfPieces(ps) && |x| + PiecesLen(ps) + Len(p) < 0x8000
    ensures var c := x + Loose(ps) + Enc(p, Dangling);
            var a := |x| + PiecesLen(ps[..|ps| - 1]);
            var t := a + LastNode(Last(ps));
            && t + 2 < |c| && TailOf(c, a) == t && c[t] != BACK && t <= |x| + PiecesLen(ps)
            && SetOff(c, t, |x| + PiecesLen(ps) - t) == x + Loose(ps + [p])
  {
    hide TailOf, NextOff, SetOff, Off, Enc, LastNode, Len, Pre, Post, Wf, Loose, Strung, PiecesLen;
    var init, last := ps[..|ps| - 1], Last(ps);
    assert ps == init + [last];
    EncLen(last, Dangling);
    EncLen(p, Dangling);
    WfSnoc(init, last);
    StringShape(x, init, last, p);
    PieceMid(x + Strung(init), last, Enc(p, Dangling), 0);
  }

  lemma BranchShape(c: Code, ps: seq<Re>)
    ensures if ps == [] then Then(Then(c, BRANCH), NOTHING) == c + BranchOpen(Branch([]))
            else Then(c, BRANCH) + Loose(ps) == c + BranchOpen(Branch(ps))
    ensures |BranchOpen(Branch(ps))| == 3 + BodyLen(Branch(ps))
  {
    hide Off, EncPieces;
    EncBodyLen(Branch(ps), Dangling);
  }

  /** Alternatives that are linked, except the last, which has just been read. */
  function Linked(alts: seq<Branch>): Code
    requires alts != []
  {
    MixAlts(alts[..|alts| - 1], 0) + BranchOpen(alts[|alts| - 1])
  }

  lemma LinkedLen(alts: seq<Branch>)
    requires alts != []
    ensures |Linked(alts)| == AltsLen(alts)
  {
    var init, last := alts[..|alts| - 1], alts[|alts| - 1];
    assert alts == init + [last];
    MixSnoc(init, last);
    EncBodyLen(last, Dangling);
  }

  /** Linking the alternative read last to what follows it. */
  lemma LinkOn(x: Code, alts: seq<Branch>, y: Code)
    requires alts != [] && |x| + AltsLen(alts) + |y| < 0x8000
    ensures var c := x + Linked(alts) + y;
            var t := |x| + AltsLen(alts[..|alts| - 1]);
            && t + 2 < |c| && TailOf(c, |x|) == t && c[t] == BRANCH && t <= |x| + AltsLen(alts)
            && SetOff(c, t, |x| + AltsLen(alts) - t) == x + MixAlts(alts, 0) + y
  {
    hide TailOf, NextOff, SetOff, Off, MixAlts, BranchOpen;
    var init, last := alts[..|alts| - 1], alts[|alts| - 1];
    assert alts == init + [last];
    LinkedLen(alts);
    MixSnoc(init, last);
    LinkMid(x, init, last, y);
  }

  lemma LinkedSnoc(x: Code, alts: seq<Branch>, b: Branch)
    ensures x + MixAlts(alts, 0) + BranchOpen(b) == x + Linked(alts + [b])
  {
    hide MixAlts, BranchOpen;
    assert (alts + [b])[..|alts|] == alts;
  }

  // ---------- Tying the alternatives to the closing node ----------

  /** The node at br is the opening node (j == -1), alternative j, or the closing node (j == |alts|). */
  ghost predicate TieAt(c0: Code, paren: bool, no: nat, alts: seq<Branch>, j: int, br: int) {
    && -1 <= j <= |alts|
    && br == (if j < 0 then |c0| else |c0 + Opening(paren, no)| + AltsLen(alts[..j]))
    && (j < 0 ==> paren)
  }

  /** The program when the operands of the first j alternatives have been tied. */
  function TieCode(c0: Code, paren: bool, no: nat, alts: seq<Branch>, j: int): Code {
    c0 + Opening(paren, no) + MixAlts(alts, if j < 0 then 0 else if j <= |alts| then j else |alts|)
      + Node(Ender(paren, no), 0)
  }

  /** The node after whose operand alternative j ends. */
  function TieLast(c0: Code, paren: bool, no: nat, alts: seq<Branch>, j: int): nat {
    if 0 <= j < |alts| then |c0 + Opening(paren, no)| + AltsLen(alts[..j]) + 3 + BodyLast(alts[j]) else 0
  }

  /** What regoptail and regnext see and do at the node at br. */
  ghost predicate TieFacts(c0: Code, paren: bool, no: nat, alts: seq<Branch>, j: int, br: nat) {
    var c, c' := TieCode(c0, paren, no, alts, j), TieCode(c0, paren, no, alts, j + 1);
    var t, ender := TieLast(c0, paren, no, alts, j), |c0 + Opening(paren, no)| + AltsLen(alts);
    && br + 2 < |c| == |c'|
    && (c[br] == BRANCH <==> 0 <= j < |alts|)
    && (c[br] == BRANCH ==>
          TailOf(c, br + 3) == t && t + 2 < |c| && c[t] != BACK && t <= ender && c' == SetOff(c, t, ender - t))
    && (c[br] != BRANCH ==> c' == c)
    && c'[br] != BACK
    && (NextOff(c', br) == 0 <==> j == |alts|)
    && (j < |alts| ==> TieAt(c0, paren, no, alts, j + 1, br + NextOff(c', br)))
  }

  lemma TieCodeIs(c0: Code, paren: bool, no: nat, alts: seq<Branch>, j: nat)
    requires j <= |alts|
    ensures TieCode(c0, paren, no, alts, j) == c0 + Opening(paren, no) + MixAlts(alts, j) + Node(Ender(paren, no), 0)
  {
  }

  lemma TieOpening(c0: Code, no: nat, alts: seq<Branch>)
    requires no < NSUBEXP && |TieCode(c0, true, no, alts, -1)| < 0x8000
    ensures TieFacts(c0, true, no, alts, -1, |c0|)
  {
    hide TailOf, SetOff, MixAlts, BodyLen, BodyLast, Off;
    var x, close := c0 + Opening(true, no), Node(Ender(true, no), 0);
    var y := MixAlts(alts, 0) + close;
    ConcatAssoc(x, MixAlts(alts, 0), close);
    MidRegion(c0, Opening(true, no), y);
    OffIs(x + y, |c0|, (OPEN + no) % 256, 3);
    assert alts[..0] == [];
  }

  lemma TieClosing(c0: Code, paren: bool, no: nat, alts: seq<Branch>, br: nat)
    requires (paren ==> no < NSUBEXP) && TieAt(c0, paren, no, alts, |alts|, br)
    ensures TieFacts(c0, paren, no, alts, |alts|, br)
  {
    hide TailOf, SetOff, MixAlts, BodyLen, BodyLast, Off, Opening;
    var x, close := c0 + Opening(paren, no), Node(Ender(paren, no), 0);
    assert alts[..|alts|] == alts;
    RegionEnd(x + MixAlts(alts, |alts|), close);
    OffIs(x + MixAlts(alts, |alts|) + close, br, Ender(paren, no), 0);
  }

  lemma TieBranch(c0: Code, paren: bool, no: nat, alts: seq<Branch>, j: nat, br: nat)
    requires WfAlts(alts) && j < |alts| && TieAt(c0, paren, no, alts, j, br)
             && |TieCode(c0, paren, no, alts, j)| < 0x8000
    ensures TieFacts(c0, paren, no, alts, j, br)
  {
    hide TailOf, SetOff, MixAlts, BodyLen, BodyLast, Off, NextOff, Opening, Node, Ender, TieCode;
    var x, close := c0 + Opening(paren, no), Node(Ender(paren, no), 0);
    TieCodeIs(c0, paren, no, alts, j);
    TieCodeIs(c0, paren, no, alts, j + 1);
    TieMid(x, alts, j, close);
    TieKeeps(x + MixAlts(alts, j) + close, br, TieLast(c0, paren, no, alts, j), |x| + AltsLen(alts));
  }

  lemma TieNext(c0: Code, paren: bool, no: nat, alts: seq<Branch>, j: int, br: nat)
    requires (paren ==> no < NSUBEXP) && WfAlts(alts) && TieAt(c0, paren, no, alts, j, br)
    requires |TieCode(c0, paren, no, alts, j)| < 0x8000
    ensures TieFacts(c0, paren, no, alts, j, br)
  {
    hide TieFacts, TieCode;
    if j < 0 {
      TieOpening(c0, no, alts);
    } else if j == |alts| {
      TieClosing(c0, paren, no, alts, br);
    } else {
      TieBranch(c0, paren, no, alts, j, br);
    }
  }

  lemma TieKeeps(c: Code, p: nat, t: nat, n: nat)
    requires p + 2 < t && t + 2 < |c| && n >= t
    ensures SetOff(c, t, n - t)[p] == c[p]
  {
  }

  lemma TieStart(c0: Code, paren: bool, no: nat, alts: seq<Branch>)
    ensures TieAt(c0, paren, no, alts, if paren then -1 else 0, |c0|)
    ensures TieCode(c0, paren, no, alts, if paren then -1 else 0)
            == c0 + Opening(paren, no) + MixAlts(alts, 0) + Node(Ender(paren, no), 0)
  {
    assert alts[..0] == [];
  }

  lemma TieEnd(c0: Code, paren: bool, no: nat, alts: seq<Branch>, j: int)
    requires j > |alts|
    ensures TieCode(c0, paren, no, alts, j)
            == c0 + Opening(paren, no) + MixAlts(alts, |alts|) + Node(Ender(paren, no), 0)
  {
  }
}
