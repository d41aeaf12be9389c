/** Files as arrays of bytes: which slot holds a logical block, what byte a file has at an
    offset, and what allocating blocks does to both. */
module ByteFiles {
  import opened Basics
  import opened Blocks
  import opened FileTree

  const NULLBLK: Word := 0xFFFF

  /** The logical block an offset falls in, as the 16-bit number readwritei computes. */
  function BlockIndex(off: nat): (bn: Word)
    ensures off < MAXBYTES ==> bn == off / 512
  {
    (off / BUFSIZE) % 0x1_0000
  }

  /** The position of an offset in its block. */
  function InBlock(off: nat): (uoff: nat)
    ensures uoff < 512
  {
    off % BUFSIZE
  }

  function Min(a: nat, b: nat): nat {
    if a < b then a else b
  }

  /** A word read as a signed 16-bit integer. */
  function Signed(w: Word): int {
    if w < 0x8000 then w else w - 0x1_0000
  }

  /** The kernel's Min, which takes signed integers. */
  function SignedMin(a: Word, b: Word): (r: Word)
    ensures a <= 0x7FFF && b <= 0x7FFF ==> r == Min(a, b)
  {
    if Signed(a) < Signed(b) then a else b
  }

  /** Why a request must not exceed 32767 bytes: for larger counts the amount copied in one
      turn of the loop does not stop at the end of the block. */
  lemma AmountStaysInBlock(todo: Word, off: nat)
    ensures SignedMin(todo, 512 - InBlock(off)) <= 512 - InBlock(off) <==> todo <= 0x7FFF
  {
  }

  /** The slot for logical block bn of inode i: 18 direct blocks, 256 below the single and
      the rest below the double indirect block. */
  function Place(i: nat, bn: nat): Slot {
    if bn < DIRECTBLOCKS then Root(i, bn)
    else if bn < DIRECTBLOCKS + 256 then Sub(i, SINGLE, bn - DIRECTBLOCKS)
    else Leaf(i, (bn - DIRECTBLOCKS - 256) / 256, (bn - DIRECTBLOCKS - 256) % 256)
  }

  /** The slots passed on the way to logical block bn. */
  function Path(i: nat, bn: nat): (p: set<Slot>)
    ensures Place(i, bn) in p
  {
    if bn < DIRECTBLOCKS then {Root(i, bn)}
    else if bn < DIRECTBLOCKS + 256 then {Root(i, SINGLE), Sub(i, SINGLE, bn - DIRECTBLOCKS)}
    else
      {Root(i, DOUBLE), Sub(i, DOUBLE, (bn - DIRECTBLOCKS - 256) / 256), Place(i, bn)}
  }

  /** Distinct 16-bit block numbers reach distinct slots, all of them inside the tree. */
  lemma PlaceInjective(i: nat, bn: Word, i': nat, bn': Word)
    ensures Place(i, bn) == Place(i', bn') ==> i == i' && bn == bn'
    ensures match Place(i, bn)
            case Root(_, k) => k < DIRECTBLOCKS
            case Sub(_, _, a) => a < 256
            case Leaf(_, a, b) => a < 256 && b < 256
    ensures IsDataSlot(Place(i, bn))
  {
    if bn >= DIRECTBLOCKS + 256 && bn' >= DIRECTBLOCKS + 256 {
      var n: nat, n': nat := bn - DIRECTBLOCKS - 256, bn' - DIRECTBLOCKS - 256;
      assert n == 256 * (n / 256) + n % 256 && n' == 256 * (n' / 256) + n' % 256;
    }
  }

  function Size(g: Image, i: nat): nat
    requires i < |g.inodes|
  {
    g.inodes[i].size
  }

  /** The byte of file i at an offset; a block that was never allocated reads as zeros. */
  function ByteAt(g: Image, i: nat, off: nat): Byte {
    var b := Holds(g, Place(i, off / BUFSIZE));
    if 0 != b < |g.store| then g.store[b][off % BUFSIZE] else 0
  }

  /** Which block that byte is in, from the pointers of the inode and the words of the pointer blocks: the first
      18 blocks are named by the inode, the next 256 by the block of pointer 18, and 256 times 256 more by the
      blocks that the block of pointer 19 names. */
  lemma BlockOfByte(g: Image, i: nat, off: nat)
    requires i < |g.inodes| && !IsDevice(g.inodes[i].kind) && off < MAXBYTES
    ensures var addr, bn := g.inodes[i].addr, off / 512;
            var b := if bn < 18 then addr[bn]
                     else if bn < 274 then Ref(g.store, addr[18], bn - 18)
                     else Ref(g.store, Ref(g.store, addr[19], (bn - 274) / 256), (bn - 274) % 256);
            ByteAt(g, i, off) == if 0 != b < |g.store| then g.store[b][off % 512] else 0
  {
  }

  // ---------- Allocation seen from the slots ----------

  /** What data slot s shows: the contents of its block, or zeros. */
  function Shown(g: Image, s: Slot): Block {
    if 0 != Holds(g, s) < |g.store| then g.store[Holds(g, s)] else ZeroBlock()
  }

  /** g' is g after exactly the slots of `news` got blocks from the top of the free list;
      no data slot shows anything new. */
  ghost predicate Grown(g: Image, g': Image, news: set<Slot>) {
    && Ok(g')
    && g'.first == g.first && g'.fsize == g.fsize && g'.sealed == g.sealed
    && |news| <= |g.stack| && g'.stack == g.stack[..|g.stack| - |news|]
    && |g'.inodes| == |g.inodes|
    && (forall i | 0 <= i < |g.inodes| :: SameButBlocks(g.inodes[i], g'.inodes[i]))
    && (forall s | s in news :: Holds(g, s) == 0 && Holds(g', s) != 0)
    && (forall s: Slot | s !in news :: Holds(g', s) == Holds(g, s))
    && (forall s: Slot | IsDataSlot(s) :: Shown(g', s) == Shown(g, s))
  }

  /** Only block pointers may differ, and a changed inode is marked for writing back. */
  predicate SameButBlocks(n: Inode, n': Inode) {
    n'.kind == n.kind && n'.nlink == n.nlink && n'.refs == n.refs && n'.size == n.size
    && n'.readonly == n.readonly && (n' == n || n'.dirty)
  }

  lemma GrownNone(g: Image)
    requires Ok(g)
    ensures Grown(g, g, {})
  {
    assert g.stack[..|g.stack|] == g.stack;
  }

  lemma GrownThen(g: Image, g1: Image, g2: Image, a: set<Slot>, b: set<Slot>)
    requires Grown(g, g1, a) && Grown(g1, g2, b)
    ensures Grown(g, g2, a + b) && a !! b
  {
    hide Ok, Shown, Holds, IsDataSlot;
    assert a !! b by {
      forall s | s in a ensures s !in b {
        assert Holds(g1, s) != 0;
      }
    }
    assert |a + b| == |a| + |b|;
    assert g.stack[..|g.stack| - |a|][..|g1.stack| - |b|] == g.stack[..|g.stack| - |a + b|];
    forall s | s in a + b ensures Holds(g, s) == 0 && Holds(g2, s) != 0 {
      if s in a {
        assert s !in b;
      } else {
        assert s !in a;
      }
    }
  }

  lemma GraftGrows(g: Image, g': Image, s: Slot, nb: Word)
    requires Ok(g) && Reachable(g, s) && Holds(g, s) == 0 && Grafted(g, g', s, nb)
    requires FreeOk(g')
    requires forall i | 0 <= i < |g.inodes| :: SameButBlocks(g.inodes[i], g'.inodes[i])
    ensures Grown(g, g', {s}) && Holds(g', s) == nb
  {
    hide Shown, Holds, Ok, FreeOk, SameButBlocks;
    GraftOk(g, g', s, nb);
    GraftStack(g, g', s, nb);
    forall t: Slot | IsDataSlot(t) ensures Shown(g', t) == Shown(g, t) {
      GraftShown(g, g', s, nb, t);
    }
    forall t: Slot ensures Holds(g', t) == if t in {s} then nb else Holds(g, t) {
    }
  }

  lemma GraftStack(g: Image, g': Image, s: Slot, nb: Word)
    requires Ok(g) && Grafted(g, g', s, nb)
    ensures nb in g.stack && nb != 0
  {
  }

  /** No data slot shows anything new. */
  lemma GraftShown(g: Image, g': Image, s: Slot, nb: Word, t: Slot)
    requires Ok(g) && Reachable(g, s) && Holds(g, s) == 0 && Grafted(g, g', s, nb) && IsDataSlot(t)
    requires forall u: Slot :: Holds(g', u) == if u == s then nb else Holds(g, u)
    ensures Shown(g', t) == Shown(g, t)
  {
    hide At;
    assert nb in g.stack;
    if t != s && Holds(g, t) != 0 {
      HeldNotFree(g, t);
      assert !s.Root? && Holds(g, Parent(s)) != 0 ==> Holds(g, Parent(s)) != Holds(g, t);
    }
  }

  /** g' is g after a block nb was popped from the free list and zeroed. */
  ghost predicate PoppedTo(g: Image, g': Image, nb: Word) {
    && FreeOk(g')
    && |g.stack| > 0 && nb == g.stack[|g.stack| - 1] && nb < |g.store|
    && g' == g.(nfree := g'.nfree, free := g'.free, tfree := g'.tfree,
                stack := g.stack[..|g.stack| - 1], store := g.store[nb := ZeroBlock()])
  }

  /** Recording a popped block in the inode. */
  lemma RecordRoot(g: Image, g1: Image, g2: Image, i: nat, k: nat, nb: Word)
    requires Ok(g) && Reachable(g, Root(i, k)) && Holds(g, Root(i, k)) == 0 && PoppedTo(g, g1, nb)
    requires g2 == g1.(owner := g1.owner[nb := Used(Root(i, k))],
                       inodes := g1.inodes[i := g1.inodes[i].(addr := g1.inodes[i].addr[k := nb], dirty := true)])
    ensures Grown(g, g2, {Root(i, k)}) && Holds(g2, Root(i, k)) == nb
  {
    FreeOkSame(g1, g2);
    GraftGrows(g, g2, Root(i, k), nb);
  }

  /** Recording a popped block in the pointer block p that slot s lies in. */
  lemma RecordBelow(g: Image, g1: Image, g2: Image, s: Slot, nb: Word, p: Word)
    requires Ok(g) && !s.Root? && Reachable(g, s) && Holds(g, s) == 0 && PoppedTo(g, g1, nb)
    requires p == Holds(g, Parent(s)) && p < |g1.store| && Index(s) < 256
    requires g2 == g1.(owner := g1.owner[nb := Used(s)],
                       store := g1.store[p := SetWord(g1.store[p], Index(s), nb)])
    ensures Grown(g, g2, {s}) && Holds(g2, s) == nb
  {
    HeldNotFree(g, Parent(s));
    assert nb in g.stack;
    FreeOkTouch(g1, g2, p);
    GraftGrows(g, g2, s, nb);
  }

  /** Allocation is invisible in the bytes of every file. */
  lemma GrownBytes(g: Image, g': Image, news: set<Slot>)
    requires Grown(g, g', news)
    ensures forall i: nat, off: nat | off < 0x1_0000 * BUFSIZE :: ByteAt(g', i, off) == ByteAt(g, i, off)
  {
    forall i: nat, off: nat | off < 0x1_0000 * BUFSIZE ensures ByteAt(g', i, off) == ByteAt(g, i, off) {
      PlaceInjective(i, off / BUFSIZE, i, off / BUFSIZE);
      assert Shown(g', Place(i, off / BUFSIZE)) == Shown(g, Place(i, off / BUFSIZE));
      assert ZeroBlock()[off % BUFSIZE] == 0;
      assert ByteAt(g, i, off) == Shown(g, Place(i, off / BUFSIZE))[off % BUFSIZE];
      assert ByteAt(g', i, off) == Shown(g', Place(i, off / BUFSIZE))[off % BUFSIZE];
    }
  }

  /** The slot bmap has reached when its counter of levels is j (1 only for a block below the
      double indirect one, 3 at the end), and the slots it has passed. */
  ghost function Stop(i: nat, bn: nat, j: nat): Slot
    requires DIRECTBLOCKS <= bn
  {
    if j == 3 then Place(i, bn)
    else if bn < DIRECTBLOCKS + 256 then Root(i, SINGLE)
    else if j == 1 then Root(i, DOUBLE)
    else Sub(i, DOUBLE, (bn - DIRECTBLOCKS - 256) / 256)
  }

  ghost function Passed(i: nat, bn: nat, j: nat): set<Slot>
    requires DIRECTBLOCKS <= bn
  {
    if j == 3 then Path(i, bn)
    else if bn < DIRECTBLOCKS + 256 then {Root(i, SINGLE)}
    else if j == 1 then {Root(i, DOUBLE)}
    else {Root(i, DOUBLE), Sub(i, DOUBLE, (bn - DIRECTBLOCKS - 256) / 256)}
  }

  /** bn >> sh for the two shifts that occur. */
  function Shift(bn: nat, sh: int): nat {
    if sh == 8 then bn / 256 else bn
  }

  /** The block number left after the direct blocks, and the single indirect ones if passed. */
  function Remaining(bn: nat): nat
    requires DIRECTBLOCKS <= bn
  {
    if bn < DIRECTBLOCKS + 256 then bn - DIRECTBLOCKS else bn - DIRECTBLOCKS - 256
  }

  /** The next slot lies in the block of the current one, at the word bmap computes. */
  lemma StopNext(g: Image, i: nat, bn: Word, j: nat)
    requires DIRECTBLOCKS <= bn && 1 <= j <= 2 && (j == 1 ==> bn >= DIRECTBLOCKS + 256)
    requires Holds(g, Stop(i, bn, j)) != 0
    ensures var s := Stop(i, bn, j + 1);
            && !s.Root? && Parent(s) == Stop(i, bn, j) && Index(s) == Shift(Remaining(bn), 8 * (2 - j)) % 256
            && Passed(i, bn, j + 1) == Passed(i, bn, j) + {s}
            && s in Path(i, bn) - Passed(i, bn, j) && Passed(i, bn, j) <= Path(i, bn)
            && Reachable(g, s)
            && Holds(g, s) == Ref(g.store, Holds(g, Stop(i, bn, j)), Index(s))
  {
  }

  /** Just where that slot is. */
  lemma StopBelow(g: Image, i: nat, bn: Word, j: nat)
    requires DIRECTBLOCKS <= bn && 1 <= j <= 2 && (j == 1 ==> bn >= DIRECTBLOCKS + 256)
    requires Holds(g, Stop(i, bn, j)) != 0
    ensures var s := Stop(i, bn, j + 1);
            && !s.Root? && Parent(s) == Stop(i, bn, j) && Index(s) == Shift(Remaining(bn), 8 * (2 - j)) % 256
            && Reachable(g, s) && Holds(g, s) == Ref(g.store, Holds(g, Stop(i, bn, j)), Index(s))
  {
    hide Holds, Reachable, Passed, Path, Shift, Remaining;
    StopNext(g, i, bn, j);
  }

  // ---------- What an allocating bmap needs ----------

  /** The slots on the way to block bn that have no block yet. */
  ghost function Need(g: Image, i: nat, bn: nat): set<Slot> {
    set s | s in Path(i, bn) && Holds(g, s) == 0
  }

  /** All slots of `seen` that were missing in g have been filled to reach g1. */
  ghost predicate Filled(g: Image, g1: Image, seen: set<Slot>) {
    Grown(g, g1, set s | s in seen && Holds(g, s) == 0)
  }

  lemma FilledNone(g: Image)
    requires Ok(g)
    ensures Filled(g, g, {})
  {
    GrownNone(g);
    assert (set s | s in {} && Holds(g, s) == 0) == {};
  }

  /** Passing a slot that is already there. */
  lemma FilledPass(g: Image, g1: Image, seen: set<Slot>, s: Slot)
    requires Filled(g, g1, seen) && s !in seen && Holds(g1, s) != 0
    ensures Filled(g, g1, seen + {s})
  {
    hide Ok, Shown, Holds, SameButBlocks;
    var a := set t | t in seen && Holds(g, t) == 0;
    assert s !in a && Holds(g, s) != 0;
    hide Grown;
    assert (set t | t in seen + {s} && Holds(g, t) == 0) == a;
  }

  /** The block for the last missing slot is the last one taken from the free list. */
  lemma TakenLast(g: Image, g1: Image, g2: Image, seen: set<Slot>, s: Slot, nb: Word)
    requires Filled(g, g1, seen) && s !in seen && Grown(g1, g2, {s})
    requires g1.stack != [] && nb == g1.stack[|g1.stack| - 1]
    ensures |g2.stack| < |g.stack| && nb == g.stack[|g2.stack|]
  {
    hide Ok, Shown, Holds, SameButBlocks;
  }

  /** A slot not passed yet holds what it held. */
  lemma NotPassed(g: Image, g1: Image, seen: set<Slot>, s: Slot)
    requires Filled(g, g1, seen) && s !in seen
    ensures Holds(g, s) == Holds(g1, s)
  {
    hide Ok, Shown, Holds, SameButBlocks;
  }

  /** Passing a slot by allocating a block for it. */
  lemma FilledStep(g: Image, g1: Image, g2: Image, seen: set<Slot>, s: Slot)
    requires Filled(g, g1, seen) && s !in seen && Holds(g1, s) == 0 && Grown(g1, g2, {s})
    ensures Filled(g, g2, seen + {s})
  {
    hide Ok, Shown, Holds, SameButBlocks;
    var a := set t | t in seen && Holds(g, t) == 0;
    assert s !in a && Holds(g, s) == 0;
    GrownThen(g, g1, g2, a, {s});
    hide Grown;
    assert (set t | t in seen + {s} && Holds(g, t) == 0) == a + {s};
  }

  lemma FilledOk(g: Image, g1: Image, seen: set<Slot>)
    requires Filled(g, g1, seen)
    ensures Ok(g1)
  {
    hide Ok;
  }

  /** One level further down, through a slot that is there, */
  lemma StepThere(g: Image, g1: Image, i: nat, bn: Word, j: nat)
    requires DIRECTBLOCKS <= bn && 1 <= j <= 2 && (j == 1 ==> bn >= DIRECTBLOCKS + 256)
    requires Filled(g, g1, Passed(i, bn, j)) && Holds(g1, Stop(i, bn, j)) != 0 && Holds(g1, Stop(i, bn, j + 1)) != 0
    ensures Filled(g, g1, Passed(i, bn, j + 1)) && Holds(g, Stop(i, bn, j + 1)) != 0
  {
    hide Filled, Holds;
    StopNext(g1, i, bn, j);
    NotPassed(g, g1, Passed(i, bn, j), Stop(i, bn, j + 1));
    FilledPass(g, g1, Passed(i, bn, j), Stop(i, bn, j + 1));
  }

  /** or through one that was missing. */
  lemma StepTaken(g: Image, g1: Image, g2: Image, i: nat, bn: Word, j: nat, nb: Word)
    requires DIRECTBLOCKS <= bn && 1 <= j <= 2 && (j == 1 ==> bn >= DIRECTBLOCKS + 256)
    requires Filled(g, g1, Passed(i, bn, j)) && Holds(g1, Stop(i, bn, j)) != 0 && Holds(g1, Stop(i, bn, j + 1)) == 0
    requires Grown(g1, g2, {Stop(i, bn, j + 1)}) && g1.stack != [] && nb == g1.stack[|g1.stack| - 1]
    ensures Filled(g, g2, Passed(i, bn, j + 1)) && |g2.stack| < |g.stack| && nb == g.stack[|g2.stack|]
  {
    hide Filled, Holds, Grown;
    StopNext(g1, i, bn, j);
    TakenLast(g, g1, g2, Passed(i, bn, j), Stop(i, bn, j + 1), nb);
    FilledStep(g, g1, g2, Passed(i, bn, j), Stop(i, bn, j + 1));
  }

  /** The slots of a set that have a block in g' and had none in g. */
  ghost function Gained(g: Image, g': Image, slots: set<Slot>): set<Slot> {
    set s | s in slots && Holds(g, s) == 0 && Holds(g', s) != 0
  }

  /** What a bmap call that may allocate does: it fills the whole path if the free list is
      long enough, and otherwise uses the list up and reports NULLBLK. */
  ghost predicate Mapped(g: Image, g': Image, i: nat, bn: nat, nb: Word) {
    if |Need(g, i, bn)| <= |g.stack| then
      Grown(g, g', Need(g, i, bn)) && nb == Holds(g', Place(i, bn)) && nb != 0 && nb != NULLBLK
    else
      nb == NULLBLK && g'.stack == [] && Grown(g, g', Gained(g, g', Path(i, bn))) && Holds(g', Place(i, bn)) == 0
  }

  /** Running out of blocks before slot s: the free list is used up and was too short. */
  lemma MappedShort(g: Image, g1: Image, seen: set<Slot>, s: Slot, i: nat, bn: nat)
    requires Filled(g, g1, seen) && seen <= Path(i, bn) && s in Path(i, bn) - seen
    requires Holds(g1, s) == 0 && g1.stack == []
    ensures Mapped(g, g1, i, bn, NULLBLK)
  {
    hide Ok, Path, Place, SameButBlocks, Shown;
    var a := set t | t in seen && Holds(g, t) == 0;
    NeedMore(g, g1, seen, s, i, bn);
    assert Gained(g, g1, Path(i, bn)) == a;
    NotPlaced(g1, s, i, bn);
  }

  lemma LastStop(g: Image, i: nat, bn: Word, j: nat)
    requires DIRECTBLOCKS <= bn && 1 <= j <= 2 && (j == 1 ==> bn >= DIRECTBLOCKS + 256)
    requires Holds(g, Stop(i, bn, j)) != 0 && Holds(g, Stop(i, bn, j + 1)) == 0
    ensures Holds(g, Place(i, bn)) == 0
  {
    hide Holds;
    StopNext(g, i, bn, j);
    NotPlaced(g, Stop(i, bn, j + 1), i, bn);
  }

  /** A level at which there is no block left. */
  lemma StepShort(g: Image, g1: Image, i: nat, bn: Word, j: nat)
    requires DIRECTBLOCKS <= bn && 1 <= j <= 2 && (j == 1 ==> bn >= DIRECTBLOCKS + 256)
    requires Filled(g, g1, Passed(i, bn, j)) && Holds(g1, Stop(i, bn, j)) != 0 && Holds(g1, Stop(i, bn, j + 1)) == 0
    requires g1.stack == []
    ensures Mapped(g, g1, i, bn, NULLBLK)
  {
    hide Filled, Holds, Mapped;
    StopNext(g1, i, bn, j);
    MappedShort(g, g1, Passed(i, bn, j), Stop(i, bn, j + 1), i, bn);
  }

  lemma NeedMore(g: Image, g1: Image, seen: set<Slot>, s: Slot, i: nat, bn: nat)
    requires Filled(g, g1, seen) && seen <= Path(i, bn) && s in Path(i, bn) - seen
    requires Holds(g1, s) == 0 && g1.stack == []
    ensures |Need(g, i, bn)| > |g.stack|
  {
    hide Ok, Path, Place, SameButBlocks, Shown, Holds;
    var a := set t | t in seen && Holds(g, t) == 0;
    assert s !in a && Holds(g, s) == 0;
    assert |a| == |g.stack|;
    SubsetCount(a + {s}, Need(g, i, bn));
  }

  /** Where a slot on the path has no block, there is no block at its end. */
  lemma NotPlaced(g: Image, s: Slot, i: nat, bn: nat)
    requires s in Path(i, bn) && Holds(g, s) == 0
    ensures Holds(g, Place(i, bn)) == 0
  {
  }

  /** Passing the whole path fills exactly what was missing on it. */
  lemma MappedDone(g: Image, g1: Image, i: nat, bn: nat)
    requires Filled(g, g1, Path(i, bn)) && Holds(g1, Place(i, bn)) != 0
    ensures Mapped(g, g1, i, bn, Holds(g1, Place(i, bn)))
  {
    assert (set s | s in Path(i, bn) && Holds(g, s) == 0) == Need(g, i, bn);
    HeldNotFree(g1, Place(i, bn));
  }

  /** At most three blocks are taken for one block of a file. */
  lemma NeedAtMostThree(g: Image, i: nat, bn: nat)
    ensures |Need(g, i, bn)| <= 3
  {
    SubsetCount(Need(g, i, bn), Path(i, bn));
  }

  // ---------- Writing bytes ----------

  /** The slots passed for blocks lo, .., hi-1. */
  function Paths(i: nat, lo: nat, hi: nat): set<Slot>
    decreases hi - lo
  {
    if lo >= hi then {} else Path(i, lo) + Paths(i, lo + 1, hi)
  }

  /** What a write to blocks lo, .., hi-1 has to allocate. */
  ghost function Missing(g: Image, i: nat, lo: nat, hi: nat): set<Slot> {
    set s | s in Paths(i, lo, hi) && Holds(g, s) == 0
  }

  /** After the first block got its path, exactly the rest is missing. */
  lemma MissingRest(g: Image, g': Image, i: nat, lo: nat, hi: nat)
    requires lo < hi && Grown(g, g', Need(g, i, lo))
    ensures |Missing(g, i, lo, hi)| - |g.stack| == |Missing(g', i, lo + 1, hi)| - |g'.stack|
  {
    var need, rest := Need(g, i, lo), Missing(g', i, lo + 1, hi);
    assert Missing(g, i, lo, hi) == need + rest && need !! rest;
    assert |need + rest| == |need| + |rest|;
  }

  lemma MissingFirst(g: Image, i: nat, lo: nat, hi: nat)
    requires lo < hi
    ensures |Need(g, i, lo)| <= |Missing(g, i, lo, hi)|
  {
    assert Need(g, i, lo) <= Missing(g, i, lo, hi);
    SubsetCount(Need(g, i, lo), Missing(g, i, lo, hi));
  }

  /** New contents for the block of a data slot: the trees stay, one slot shows the change. */
  lemma DataWrite(g: Image, g': Image, s: Slot, d: Block)
    requires Ok(g) && IsDataSlot(s) && 0 != Holds(g, s) < |g.store|
    requires g' == g.(store := g.store[Holds(g, s) := d])
    ensures Ok(g')
    ensures forall t: Slot :: Holds(g', t) == Holds(g, t)
    ensures forall t: Slot | IsDataSlot(t) :: Shown(g', t) == if t == s then d else Shown(g, t)
  {
    var p := Holds(g, s);
    HeldNotFree(g, s);
    DataWriteHolds(g, g', s, d);
    FreeOkTouch(g, g', p);
    forall t: Slot | IsDataSlot(t) ensures Shown(g', t) == if t == s then d else Shown(g, t) {
      assert Holds(g, t) == p ==> g.owner[p] == Used(t);
    }
  }

  lemma DataWriteHolds(g: Image, g': Image, s: Slot, d: Block)
    requires Ok(g) && IsDataSlot(s) && 0 != Holds(g, s) < |g.store|
    requires g' == g.(store := g.store[Holds(g, s) := d])
    ensures forall t: Slot :: Holds(g', t) == Holds(g, t)
  {
    var p := Holds(g, s);
    assert g.owner[p] == Used(s);
    forall t: Slot ensures Holds(g', t) == Holds(g, t) {
      match t
      case Root(_, _) =>
      case Sub(i, k, a) =>
        assert SINGLE <= k <= DOUBLE ==> Holds(g, Root(i, k)) != p;
      case Leaf(i, a, b) =>
        assert Holds(g, Root(i, DOUBLE)) != p && Holds(g, Sub(i, DOUBLE, a)) != p;
    }
  }

  /** Inode attributes other than block pointers and the dirty flag are the same. */
  ghost predicate SameFiles(g: Image, g': Image) {
    && |g'.inodes| == |g.inodes|
    && g'.first == g.first && g'.fsize == g.fsize && g'.sealed == g.sealed
    && forall i | 0 <= i < |g.inodes| :: SameButBlocks(g.inodes[i], g'.inodes[i])
  }

  const MAXBYTES := 0x1_0000 * 512

  /** g' shows the bytes of g everywhere, except that data stands at offset o of file i. */
  ghost predicate BytesPut(g: Image, g': Image, i: nat, o: nat, data: seq<Byte>) {
    forall f: nat, off: nat | off < MAXBYTES ::
      ByteAt(g', f, off) == if f == i && o <= off < o + |data| then data[off - o] else ByteAt(g, f, off)
  }

  ghost predicate Wrote(g: Image, g': Image, i: nat, o: nat, data: seq<Byte>) {
    Ok(g') && SameFiles(g, g') && BytesPut(g, g', i, o, data)
  }

  /** A finished write: the bytes are in place and file i has the given size. */
  ghost predicate WroteSized(g: Image, g': Image, i: nat, o: nat, data: seq<Byte>, size: nat) {
    && Ok(g') && BytesPut(g, g', i, o, data)
    && g'.first == g.first && g'.fsize == g.fsize && g'.sealed == g.sealed
    && |g'.inodes| == |g.inodes|
    && forall f | 0 <= f < |g.inodes| ::
         && SameButBlocks(g.inodes[f].(size := 0), g'.inodes[f].(size := 0))
         && g'.inodes[f].size == (if f == i then size else g.inodes[f].size)
         && (g'.inodes[f] == g.inodes[f] || g'.inodes[f].dirty)
  }

  /** What writing src at o comes to. If the free list covers the missing blocks, all of it is
      in place and the size covers it; if not, the first `moved` bytes are in place, up to a
      block that could not be had, the size is as before, and the free list is used up. */
  ghost predicate WriteOutcome(g: Image, g': Image, i: nat, o: nat, src: seq<Byte>, moved: nat)
    requires i < |g.inodes|
  {
    if |Missing(g, i, o / 512, EndBlock(o, |src|))| <= |g.stack| then
      && moved == |src|
      && WroteSized(g, g', i, o, src, if o + |src| > g.inodes[i].size then o + |src| else g.inodes[i].size)
    else
      moved < |src| && g'.stack == [] && Wrote(g, g', i, o, src[..moved]) && Holds(g', Place(i, (o + moved) / 512)) == 0
  }

  /** Sizes and dirty flags have no part in the trees. */
  lemma Resize(g: Image, g': Image, i: nat, size: nat, dirty: bool)
    requires Ok(g) && i < |g.inodes|
    requires g' == g.(inodes := g.inodes[i := g.inodes[i].(size := size, dirty := dirty)])
    ensures Ok(g')
    ensures forall t: Slot :: Holds(g', t) == Holds(g, t)
    ensures forall f: nat, off: nat :: ByteAt(g', f, off) == ByteAt(g, f, off)
  {
    forall t: Slot ensures Holds(g', t) == Holds(g, t) {
    }
    FreeOkSame(g, g');
  }

  lemma WroteResized(g: Image, g1: Image, g2: Image, i: nat, o: nat, data: seq<Byte>, size: nat, dirty: bool)
    requires Wrote(g, g1, i, o, data) && i < |g1.inodes|
    requires g2 == g1.(inodes := g1.inodes[i := g1.inodes[i].(size := size, dirty := dirty)])
    requires dirty || g2.inodes == g1.inodes
    ensures WroteSized(g, g2, i, o, data, size)
  {
    Resize(g1, g2, i, size, dirty);
    forall f | 0 <= f < |g.inodes|
      ensures SameButBlocks(g.inodes[f].(size := 0), g2.inodes[f].(size := 0))
      ensures g2.inodes[f].size == if f == i then size else g.inodes[f].size
      ensures g2.inodes[f] == g.inodes[f] || g2.inodes[f].dirty
    {
      assert SameButBlocks(g.inodes[f], g1.inodes[f]);
    }
  }

  lemma WroteNothing(g: Image, i: nat, o: nat)
    requires Ok(g)
    ensures Wrote(g, g, i, o, [])
  {
  }

  /** Allocating between two writes changes nothing that can be read. */
  lemma WroteGrown(g: Image, g1: Image, g2: Image, i: nat, o: nat, data: seq<Byte>, news: set<Slot>)
    requires Wrote(g, g1, i, o, data) && Grown(g1, g2, news)
    ensures Wrote(g, g2, i, o, data)
  {
    GrownBytes(g1, g2, news);
    forall f | 0 <= f < |g.inodes| ensures SameButBlocks(g.inodes[f], g2.inodes[f]) {
      assert SameButBlocks(g1.inodes[f], g2.inodes[f]);
    }
  }

  /** d is block b with the bytes src put at position uoff. */
  ghost predicate Patched(b: Block, d: Block, uoff: nat, src: seq<Byte>) {
    uoff + |src| <= 512
    && forall k | 0 <= k < 512 :: d[k] == if uoff <= k < uoff + |src| then src[k - uoff] else b[k]
  }

  /** Putting the next bytes into the block that holds them. */
  lemma WroteMore(g: Image, g1: Image, g2: Image, i: nat, o: nat, data: seq<Byte>, src: seq<Byte>, d: Block)
    requires Wrote(g, g1, i, o, data) && o + |data| + |src| <= MAXBYTES && |src| > 0
    requires var s := Place(i, (o + |data|) / 512);
             && 0 != Holds(g1, s) < |g1.store|
             && Patched(g1.store[Holds(g1, s)], d, (o + |data|) % 512, src)
             && g2 == g1.(store := g1.store[Holds(g1, s) := d])
    ensures Wrote(g, g2, i, o, data + src)
  {
    hide Ok, Shown, Patched, Place, ByteAt;
    var at := o + |data|;
    var s := Place(i, at / 512);
    PlaceInjective(i, at / 512, i, at / 512);
    DataWrite(g1, g2, s, d);
    forall f: nat, off: nat | off < MAXBYTES
      ensures ByteAt(g2, f, off) == if f == i && o <= off < o + |data + src| then (data + src)[off - o]
              else ByteAt(g, f, off)
    {
      OneByte(g1, g2, i, at, src, d, f, off);
    }
  }

  lemma OneByte(g1: Image, g2: Image, i: nat, at: nat, src: seq<Byte>, d: Block, f: nat, off: nat)
    requires at + |src| <= MAXBYTES && |src| > 0 && off < MAXBYTES
    requires var s := Place(i, at / 512);
             && 0 != Holds(g1, s) < |g1.store| && |g2.store| == |g1.store|
             && Patched(g1.store[Holds(g1, s)], d, at % 512, src)
             && (forall t: Slot :: Holds(g2, t) == Holds(g1, t))
             && (forall t: Slot | IsDataSlot(t) :: Shown(g2, t) == if t == s then d else Shown(g1, t))
    ensures ByteAt(g2, f, off) == if f == i && at <= off < at + |src| then src[off - at] else ByteAt(g1, f, off)
  {
    PlaceInjective(f, off / 512, i, at / 512);
    assert ByteAt(g2, f, off) == Shown(g2, Place(f, off / 512))[off % 512];
    assert ByteAt(g1, f, off) == Shown(g1, Place(f, off / 512))[off % 512];
    assert off == 512 * (off / 512) + off % 512 && at == 512 * (at / 512) + at % 512;
  }

  /** The block after the last one that a transfer of n bytes at o touches. */
  function EndBlock(o: nat, n: nat): nat {
    if n == 0 then o / 512 else (o + n + 511) / 512
  }

  /** Part way through writing n bytes at o: data is written, the blocks touched so far are
      complete, and the free list has shrunk by exactly what is no longer missing. */
  ghost predicate Writing(g: Image, g1: Image, i: nat, o: nat, n: nat, data: seq<Byte>) {
    && Wrote(g, g1, i, o, data) && |data| <= n && o + n <= MAXBYTES
    && (0 < |data| < n ==> (o + |data|) % 512 == 0)
    && |Missing(g, i, o / 512, EndBlock(o, n))| - |g.stack|
       == |Missing(g1, i, EndBlock(o, |data|), EndBlock(o, n))| - |g1.stack|
  }

  lemma WritingStarts(g: Image, i: nat, o: nat, n: nat)
    requires Ok(g) && o + n <= MAXBYTES
    ensures Writing(g, g, i, o, n, [])
  {
    WroteNothing(g, i, o);
  }

  lemma WritingShort(g: Image, g1: Image, g2: Image, i: nat, o: nat, n: nat, data: seq<Byte>)
    requires Writing(g, g1, i, o, n, data) && |data| < n
    requires Mapped(g1, g2, i, BlockIndex(o + |data|), NULLBLK)
    ensures |Missing(g, i, o / 512, EndBlock(o, n))| > |g.stack| && g2.stack == []
    ensures Wrote(g, g2, i, o, data) && Holds(g2, Place(i, (o + |data|) / 512)) == 0
  {
    hide Ok, Holds, Place, Path, BytesPut, Missing, Need, Grown;
    MissingFirst(g1, i, (o + |data|) / 512, EndBlock(o, n));
    WroteGrown(g, g1, g2, i, o, data, Gained(g1, g2, Path(i, (o + |data|) / 512)));
  }

  /** Where a transfer stands after the part that falls in the block at o + m. */
  lemma NextBlock(o: nat, n: nat, m: nat)
    requires m < n && o + n <= MAXBYTES && (m > 0 ==> (o + m) % 512 == 0)
    ensures var a := Min(n - m, 512 - InBlock(o + m));
            && 0 < a <= n - m
            && BlockIndex(o + m) == EndBlock(o, m) == (o + m) / 512 < EndBlock(o, n)
            && EndBlock(o, m + a) == (o + m) / 512 + 1
            && (m + a < n ==> (o + m + a) % 512 == 0)
  {
  }

  lemma WritingStep(g: Image, g1: Image, g2: Image, g3: Image, i: nat, o: nat, n: nat, data: seq<Byte>,
                    nb: Word, src: seq<Byte>, d: Block)
    requires Writing(g, g1, i, o, n, data) && |data| < n
    requires nb != NULLBLK && Mapped(g1, g2, i, BlockIndex(o + |data|), nb)
    requires nb < |g2.store| && Patched(g2.store[nb], d, InBlock(o + |data|), src)
    requires |src| == Min(n - |data|, 512 - InBlock(o + |data|))
    requires g3 == g2.(store := g2.store[nb := d])
    ensures Writing(g, g3, i, o, n, data + src)
  {
    hide Grown, Ok, FreeOk, Wrote, Patched, Shown, EndBlock, Min, Missing;
    NextBlock(o, n, |data|);
    WroteGrown(g, g1, g2, i, o, data, Need(g1, i, BlockIndex(o + |data|)));
    WroteMore(g, g2, g3, i, o, data, src, d);
    CountStep(g1, g2, g3, i, BlockIndex(o + |data|), EndBlock(o, n), nb, d);
  }

  lemma CountStep(g1: Image, g2: Image, g3: Image, i: nat, bn: Word, hi: nat, nb: Word, d: Block)
    requires bn < hi && nb != NULLBLK && Mapped(g1, g2, i, bn, nb) && nb < |g2.store|
    requires g3 == g2.(store := g2.store[nb := d])
    ensures |Missing(g1, i, bn, hi)| - |g1.stack| == |Missing(g3, i, bn + 1, hi)| - |g3.stack|
  {
    hide Ok, Shown;
    MissingRest(g1, g2, i, bn, hi);
    PlaceInjective(i, bn, i, bn);
    GrownOk(g1, g2, Need(g1, i, bn));
    DataWriteHolds(g2, g3, Place(i, bn), d);
    assert Missing(g3, i, bn + 1, hi) == Missing(g2, i, bn + 1, hi);
  }

  lemma GrownOk(g: Image, g': Image, news: set<Slot>)
    requires Grown(g, g', news)
    ensures Ok(g')
  {
  }

  lemma WritingOk(g: Image, g1: Image, i: nat, o: nat, n: nat, data: seq<Byte>)
    requires Writing(g, g1, i, o, n, data)
    ensures Ok(g1)
  {
  }

  lemma WritingEnds(g: Image, g1: Image, i: nat, o: nat, n: nat, data: seq<Byte>)
    requires Writing(g, g1, i, o, n, data) && |data| == n
    ensures |Missing(g, i, o / 512, EndBlock(o, n))| <= |g.stack|
    ensures Wrote(g, g1, i, o, data)
  {
    assert Missing(g1, i, EndBlock(o, n), EndBlock(o, n)) == {};
  }

  // ---------- Reading bytes ----------

  /** n bytes of file i from an offset on. */
  function Bytes(g: Image, i: nat, off: nat, n: nat): (r: seq<Byte>)
    ensures |r| == n
  {
    seq<Byte>(n, k requires 0 <= k < n => ByteAt(g, i, off + k))
  }

  /** How much of a request for n bytes a file of the given size can serve: all of it, or as much as
      there is before the end of the file. */
  function Readable(size: nat, off: nat, n: nat): (r: nat)
    ensures r <= n && (r > 0 ==> off + r <= size)
    ensures r < n ==> off + r == size || (r == 0 && off >= size)
  {
    if off >= size then 0 else Min(n, size - off)
  }

  /** What was written is what is read back; all other ranges and all other files read as
      before. */
  lemma ReadBack(g: Image, g': Image, i: nat, o: nat, data: seq<Byte>)
    requires BytesPut(g, g', i, o, data) && o + |data| <= MAXBYTES
    ensures Bytes(g', i, o, |data|) == data
    ensures forall f: nat, off: nat, n: nat |
              off + n <= MAXBYTES && (f != i || off + n <= o || o + |data| <= off) ::
              Bytes(g', f, off, n) == Bytes(g, f, off, n)
  {
    forall f: nat, off: nat, n: nat | off + n <= MAXBYTES && (f != i || off + n <= o || o + |data| <= off)
      ensures Bytes(g', f, off, n) == Bytes(g, f, off, n)
    {
      forall k | 0 <= k < n ensures Bytes(g', f, off, n)[k] == Bytes(g, f, off, n)[k] {
        assert ByteAt(g', f, off + k) == ByteAt(g, f, off + k);
      }
    }
    forall k | 0 <= k < |data| ensures Bytes(g', i, o, |data|)[k] == data[k] {
      assert ByteAt(g', i, o + k) == data[k];
    }
  }

  lemma BytesMore(g: Image, i: nat, o: nat, n: nat, a: nat)
    ensures Bytes(g, i, o, n) + Bytes(g, i, o + n, a) == Bytes(g, i, o, n + a)
  {
  }

  /** The bytes of one block are the bytes its slot shows. */
  lemma BytesShown(g: Image, i: nat, off: nat, a: nat)
    requires InBlock(off) + a <= 512
    ensures Bytes(g, i, off, a) == Shown(g, Place(i, off / 512))[InBlock(off)..InBlock(off) + a]
  {
    hide Place, Holds;
    forall k | 0 <= k < a
      ensures Bytes(g, i, off, a)[k] == Shown(g, Place(i, off / 512))[InBlock(off)..InBlock(off) + a][k]
    {
      assert (off + k) / 512 == off / 512 && (off + k) % 512 == off % 512 + k;
      var bn := (off + k) / 512;
      assert Bytes(g, i, off, a)[k] == ByteAt(g, i, off + k);
      assert ByteAt(g, i, off + k) == Shown(g, Place(i, bn))[(off + k) % 512];
    }
  }

  /** A write past everything that exists leaves a hole, and the hole reads as zeros. */
  lemma HoleReadsZero(g: Image, i: nat, off: nat, n: nat)
    requires Ok(g)
    requires forall bn: nat | off / 512 <= bn < EndBlock(off, n) :: Holds(g, Place(i, bn)) == 0
    ensures forall k | 0 <= k < n :: Bytes(g, i, off, n)[k] == 0
  {
    hide Place, Holds, Ok;
    forall k | 0 <= k < n ensures Bytes(g, i, off, n)[k] == 0 {
      var bn: nat := (off + k) / 512;
      assert off / 512 <= bn < EndBlock(off, n);
      assert Holds(g, Place(i, bn)) == 0;
      assert Bytes(g, i, off, n)[k] == ByteAt(g, i, off + k);
    }
  }
}
