/** Inodes and the block trees below them, and what it means for a volume to be consistent:
    the data region is partitioned into the free list and the trees. */
module FileTree {
  import opened Basics
  import opened Blocks
  import opened FreeChain

  const DIRECTBLOCKS := 18
  const SINGLE := 18
  const DOUBLE := 19
  const TOTALREFBLOCKS := 20

  datatype Kind = Unused | Regular | Directory | SymLink | Pipe | CharDevice | BlockDevice

  /** isdevice(): the S_IFCHR bit of the mode. */
  predicate IsDevice(k: Kind) {
    k.CharDevice? || k.BlockDevice?
  }

  type Addr = a: seq<Word> | |a| == 20 witness seq(20, i => 0)

  function NoBlocks(): Addr {
    seq(20, i => 0)
  }

  datatype Inode = Inode(kind: Kind, nlink: nat, refs: nat, size: nat, addr: Addr,
                         dirty: bool, readonly: bool)

  /** A place that can hold a block number: one of the 20 pointers of inode i, a word of the
      block that pointer 18 or 19 names, or a word of a block at the second level. */
  datatype Slot =
    | Root(ino: nat, k: nat)
    | Sub(ino: nat, k: nat, a: nat)
    | Leaf(ino: nat, a: nat, b: nat)

  datatype Owner = Free | Used(slot: Slot)

  /** Everything about a mounted volume that the invariants speak of. */
  datatype Image = Image(first: nat, fsize: nat,
                         nfree: Word, free: seq<Word>, tfree: Word,
                         store: Store, inodes: seq<Inode>,
                         stack: seq<Word>, sealed: bool, owner: map<Word, Owner>)

  function Ref(store: Store, p: Word, j: nat): Word
    requires j < 256
  {
    if 0 != p < |store| then GetWord(store[p], j) else 0
  }

  function RootAt(inodes: seq<Inode>, i: nat, k: nat): Word {
    if i < |inodes| && !IsDevice(inodes[i].kind) && k < TOTALREFBLOCKS then inodes[i].addr[k] else 0
  }

  function SubAt(store: Store, inodes: seq<Inode>, i: nat, k: nat, a: nat): Word {
    if SINGLE <= k <= DOUBLE && a < 256 then Ref(store, RootAt(inodes, i, k), a) else 0
  }

  /** The block number a slot holds, 0 if there is none. */
  function At(store: Store, inodes: seq<Inode>, s: Slot): Word {
    match s
    case Root(i, k) => RootAt(inodes, i, k)
    case Sub(i, k, a) => SubAt(store, inodes, i, k, a)
    case Leaf(i, a, b) => if b < 256 then Ref(store, SubAt(store, inodes, i, DOUBLE, a), b) else 0
  }

  function Holds(g: Image, s: Slot): Word {
    At(g.store, g.inodes, s)
  }

  predicate InRegion(g: Image, b: Word) {
    g.first <= b < g.fsize
  }

  ghost predicate Layout(g: Image) {
    1 <= g.first <= g.fsize < 0x1_0000 && |g.store| == g.fsize
  }

  /** The free list is well formed and counted by s_tfree. */
  ghost predicate FreeOk(g: Image) {
    && Layout(g)
    && Chain(g.nfree, g.free, g.store, g.stack, g.sealed)
    && Distinct(g.stack)
    && (forall b | b in g.stack :: InRegion(g, b))
    && g.tfree == |g.stack|
  }

  /** Every block of the data region has one owner, and the owner is right about it. */
  ghost predicate Ok(g: Image) {
    && FreeOk(g)
    && (forall b: Word :: b in g.owner <==> InRegion(g, b))
    && (forall b | b in g.owner :: g.owner[b].Free? <==> b in g.stack)
    && (forall b | b in g.owner && g.owner[b].Used? :: Holds(g, g.owner[b].slot) == b)
    && (forall s: Slot | Holds(g, s) != 0 ::
          Holds(g, s) in g.owner && g.owner[Holds(g, s)] == Used(s))
  }

  /** The slots of an inode that hold data blocks; the others hold pointer blocks. */
  predicate IsDataSlot(s: Slot) {
    match s
    case Root(_, k) => k < DIRECTBLOCKS
    case Sub(_, k, _) => k == SINGLE
    case Leaf(_, _, _) => true
  }

  // ---------- Conservation ----------

  ghost predicate IsUsed(g: Image, b: Word) {
    exists s: Slot :: Holds(g, s) == b
  }

  /** The blocks some slot holds. */
  ghost function UsedBlocks(g: Image): set<Word> {
    set b | b in g.owner && g.owner[b].Used?
  }

  /** What consistency means without the owner map: a block of the data region is on the
      free list or in exactly one slot, never both; nothing outside the region is in either;
      and no block is lost, so the counts add up to the size of the region. */
  lemma Conservation(g: Image)
    requires Ok(g)
    ensures forall b: Word | InRegion(g, b) :: b in g.stack <==> !IsUsed(g, b)
    ensures forall s: Slot, t: Slot | Holds(g, s) == Holds(g, t) != 0 :: s == t
    ensures forall s: Slot | Holds(g, s) != 0 :: InRegion(g, Holds(g, s))
    ensures forall i, j | 0 <= i < j < |g.stack| :: g.stack[i] != g.stack[j]
    ensures forall b: Word :: b in UsedBlocks(g) <==> InRegion(g, b) && IsUsed(g, b)
    ensures g.tfree + |UsedBlocks(g)| == g.fsize - g.first
  {
    forall b: Word | InRegion(g, b) ensures b in g.stack <==> !IsUsed(g, b) {
      assert b in g.owner;
      if g.owner[b].Used? {
        assert Holds(g, g.owner[b].slot) == b;
      }
    }
    forall b: Word ensures b in UsedBlocks(g) <==> InRegion(g, b) && IsUsed(g, b) {
    }
    Total(g.stack, UsedBlocks(g), g.first, g.fsize);
  }

  /** Two disjoint parts of a range that make up all of it. */
  lemma Total(stack: seq<Word>, used: set<Word>, lo: nat, hi: nat)
    requires Distinct(stack) && lo <= hi <= 0x1_0000
    requires forall b: Word :: b in used ==> lo <= b < hi && b !in stack
    requires forall b: Word | lo <= b < hi :: b in stack || b in used
    requires forall b | b in stack :: lo <= b < hi
    ensures |stack| + |used| == hi - lo
  {
    DistinctCount(stack);
    RangeCount(lo, hi);
    forall b ensures b in Range(lo, hi) <==> b in Elements(stack) + used {
      if lo <= b < hi {
        var w: Word := b;
        assert w in stack || w in used;
      }
    }
    assert Range(lo, hi) == Elements(stack) + used;
    assert Elements(stack) !! used;
  }

  // ---------- One step of the free list ----------

  /** What the superblock array shows of the stack. */
  lemma TopOfList(g: Image)
    requires FreeOk(g)
    ensures Layout(g) && |g.free| == FSFREEBLOCKS && g.nfree <= FSFREEBLOCKS && g.tfree == |g.stack|
    ensures g.nfree == 0 <==> g.stack == [] && !g.sealed
    ensures g.nfree > 0 ==> (g.free[g.nfree - 1] == 0 <==> g.stack == [])
    ensures g.stack != [] ==> g.nfree > 0 && g.free[g.nfree - 1] == g.stack[|g.stack| - 1]
    ensures g.stack != [] ==> InRegion(g, g.stack[|g.stack| - 1])
  {
    if g.nfree > 1 {
      PopTop(g.nfree, g.free, g.store, g.stack, g.sealed);
    } else if g.nfree == 1 && g.free[0] != 0 {
      PopBottom(g.nfree, g.free, g.store, g.stack, g.sealed);
    }
    assert g.stack != [] ==> g.stack[|g.stack| - 1] in g.stack;
  }

  /** The free list does not depend on inodes or owners. */
  lemma FreeOkSame(g: Image, g': Image)
    requires g' == g.(inodes := g'.inodes, owner := g'.owner)
    ensures FreeOk(g) <==> FreeOk(g')
  {
  }

  /** Nor on the contents of a block that is not free. */
  lemma FreeOkTouch(g: Image, g': Image, p: Word)
    requires FreeOk(g) && p < |g.store| && p !in g.stack
    requires p < |g'.store|
    requires g' == g.(inodes := g'.inodes, owner := g'.owner, store := g.store[p := g'.store[p]])
    ensures FreeOk(g')
  {
    ChainFrame(g.nfree, g.free, g.store, g'.store, g.stack, g.sealed);
  }

  /** Taking the top entry, refilling the array from that block if it was the last one, and
      zeroing the block leaves a list for the rest of the stack. */
  lemma PopOk(g: Image, g': Image)
    requires FreeOk(g) && g.stack != [] && g.stack[|g.stack| - 1] < |g.store|
    requires g'.first == g.first && g'.fsize == g.fsize && g'.sealed == g.sealed
    requires g'.stack == g.stack[..|g.stack| - 1] && g'.tfree == g.tfree - 1
    requires g'.store == g.store[g.stack[|g.stack| - 1] := ZeroBlock()]
    requires g.nfree != 1 ==> g'.nfree == g.nfree - 1 && g'.free == g.free
    requires g.nfree == 1 ==> g'.nfree == GetWord(g.store[g.stack[|g.stack| - 1]], 0)
                              && g'.free == ChainWords(g.store[g.stack[|g.stack| - 1]])
    ensures FreeOk(g')
  {
    hide Chain, GetWord, ChainWords, Distinct;
    TopOfList(g);
    if g.nfree > 1 {
      PopTop(g.nfree, g.free, g.store, g.stack, g.sealed);
    } else {
      PopBottom(g.nfree, g.free, g.store, g.stack, g.sealed);
    }
    assert g.stack == g'.stack + [g.stack[|g.stack| - 1]];
    DistinctSplit(g'.stack, [g.stack[|g.stack| - 1]]);
    forall b | b in g'.stack ensures InRegion(g', b) {
      assert b in g.stack;
    }
    ChainFrame(g'.nfree, g'.free, g.store, g'.store, g'.stack, g'.sealed);
  }

  /** Pushing a block that is not free: into the array, or, if that is full, by saving the
      array in the block (whose other words become arbitrary) and starting a new one. */
  lemma PushOk(g: Image, g': Image, blk: Word)
    requires FreeOk(g) && InRegion(g, blk) && blk !in g.stack && (g.sealed || g.stack != [])
    requires g'.first == g.first && g'.fsize == g.fsize && g'.sealed == g.sealed
    requires g'.stack == g.stack + [blk] && g'.tfree == g.tfree + 1
    requires |g'.store| == |g.store|
    requires forall b: Word | b < |g.store| && b != blk :: g'.store[b] == g.store[b]
    requires g.nfree < FSFREEBLOCKS ==>
               g'.store == g.store && g'.nfree == g.nfree + 1 && g'.free == g.free[g.nfree := blk]
    requires g.nfree == FSFREEBLOCKS ==>
               && g'.nfree == 1 && g'.free == g.free[0 := blk]
               && GetWord(g'.store[blk], 0) == FSFREEBLOCKS
               && forall k | 0 <= k < FSFREEBLOCKS :: GetWord(g'.store[blk], k + 1) == g.free[k]
    ensures FreeOk(g')
  {
    TopOfList(g);
    DistinctConcat(g.stack, [blk]);
    forall b | b in g'.stack ensures InRegion(g', b) {
      assert b in g.stack || b == blk;
    }
    if g.nfree < FSFREEBLOCKS {
      PushRoom(g.nfree, g.free, g.store, g.stack, g.sealed, blk);
    } else {
      PushSpill(g.nfree, g.free, g.store, g.stack, g.sealed, blk, g'.store, g'.free);
    }
  }

  /** The free count cannot overflow its 16 bits. */
  lemma FreeCountBound(g: Image, blk: Word)
    requires FreeOk(g) && InRegion(g, blk) && blk !in g.stack
    ensures |g.stack| + 1 <= g.fsize - g.first
  {
    var s: seq<int> := g.stack + [blk];
    DistinctConcat(g.stack, [blk]);
    Pigeonhole(s, g.first, g.fsize);
  }

  // ---------- Freeing onto a drained list ----------

  // blk_free does not clear the first block that goes onto an empty array. That block then passes
  // for a chain block, and what it contains for the rest of the list. If that does not do, the block
  // is called stray here.

  /** The free list stands for no stack at all. */
  ghost predicate NoList(g: Image) {
    forall st: seq<Word>, se: bool :: !FreeOk(g.(stack := st, sealed := se))
  }

  /** The volume if block stray were all zeros. */
  ghost function ListOf(g: Image, stray: Word): Image
    requires stray < |g.store|
  {
    g.(store := g.store[stray := ZeroBlock()])
  }

  /** The free list is in order, or would be but for the contents of the stray block, its bottom entry. */
  ghost predicate Loose(g: Image, stray: Word) {
    if stray == 0 then FreeOk(g)
    else
      && stray < |g.store| && !Suits(g.store[stray]) && FreeOk(ListOf(g, stray))
      && !g.sealed && g.stack != [] && g.stack[0] == stray
  }

  lemma LooseIs(g: Image, stray: Word)
    requires Loose(g, stray)
    ensures Layout(g) && stray < |g.store| && g.tfree == |g.stack| && |g.free| == FSFREEBLOCKS
            && g.nfree <= FSFREEBLOCKS
    ensures Distinct(g.stack) && 0 !in g.stack && (g.nfree == 0 <==> g.stack == [] && !g.sealed)
    ensures forall b | b in g.stack :: InRegion(g, b)
    ensures if stray == 0 then FreeOk(g) else NoList(g) && stray in g.stack
  {
    if stray == 0 {
      TopOfList(g);
    } else {
      TopOfList(ListOf(g, stray));
      assert stray in g.stack;
      forall st: seq<Word>, se: bool ensures !FreeOk(g.(stack := st, sealed := se)) {
        if |st| == |g.stack| {
          StrayChain(g.nfree, g.free, g.store, g.stack, stray, st, se);
        }
      }
    }
  }

  lemma LooseCount(g: Image, stray: Word)
    requires Loose(g, stray)
    ensures |g.stack| <= g.fsize - g.first
  {
    LooseIs(g, stray);
    Pigeonhole(g.stack, g.first, g.fsize);
  }

  /** g' is g after a block was pushed: into the array, or, if that is full, by saving the array in
      the block (whose other words become arbitrary) and starting a new one. */
  ghost predicate Pushed(g: Image, g': Image, blk: Word) {
    && |g.free| == FSFREEBLOCKS && g.nfree <= FSFREEBLOCKS
    && g'.first == g.first && g'.fsize == g.fsize
    && g'.stack == g.stack + [blk] && g'.tfree == g.tfree + 1
    && |g'.store| == |g.store|
    && (forall b: Word | b < |g.store| && b != blk :: g'.store[b] == g.store[b])
    && (g.nfree < FSFREEBLOCKS ==>
          g'.store == g.store && g'.nfree == g.nfree + 1 && g'.free == g.free[g.nfree := blk])
    && (g.nfree == FSFREEBLOCKS ==>
          && blk < |g'.store| && g'.nfree == 1 && g'.free == g.free[0 := blk]
          && GetWord(g'.store[blk], 0) == FSFREEBLOCKS
          && forall k | 0 <= k < FSFREEBLOCKS :: GetWord(g'.store[blk], k + 1) == g.free[k])
  }

  /** The stray block after the blocks ws were freed. */
  ghost function Lands(g: Image, stray: Word, ws: seq<Word>): Word {
    if g.nfree != 0 || ws == [] || ws[0] >= |g.store| then stray else if Suits(g.store[ws[0]]) then 0 else ws[0]
  }

  /** Whether the list then has a bottom entry 0, be it only in the words of the first block. */
  ghost predicate Seals(g: Image, ws: seq<Word>) {
    g.sealed || (g.nfree == 0 && ws != [] && ws[0] < |g.store|
                 && GetWord(g.store[ws[0]], 0) == 1 && GetWord(g.store[ws[0]], 1) == 0)
  }

  /** Pushing a block that is not free. */
  lemma PushLoose(g: Image, stray: Word, g': Image, blk: Word)
    requires Loose(g, stray) && InRegion(g, blk) && blk !in g.stack
    requires Pushed(g, g', blk) && g'.sealed == Seals(g, [blk])
    ensures Loose(g', Lands(g, stray, [blk]))
  {
    hide Chain, GetWord, Distinct, Layout;
    LooseIs(g, stray);
    if g.nfree == 0 {
      PushFirst(g, g', blk);
    } else if stray == 0 {
      PushOk(g, g', blk);
    } else {
      TopOfList(ListOf(g, stray));
      PushOk(ListOf(g, stray), ListOf(g', stray), blk);
    }
  }

  /** Onto an empty array. */
  lemma PushFirst(g: Image, g': Image, blk: Word)
    requires FreeOk(g) && g.nfree == 0 && InRegion(g, blk) && Pushed(g, g', blk) && g'.sealed == Seals(g, [blk])
    ensures Loose(g', if Suits(g.store[blk]) then 0 else blk)
  {
    assert g'.stack == [blk];
    PushDrained(g.free, g.store, blk);
    if !Suits(g.store[blk]) {
      ZeroBlockWords(0);
      PushDrained(g.free, ListOf(g', blk).store, blk);
    }
  }

  /** From g, with stray block st, to g', with stray block st', exactly the blocks ws were freed. */
  ghost predicate Freed(g: Image, st: Word, g': Image, st': Word, ws: seq<Word>) {
    && Loose(g', st')
    && g'.first == g.first && g'.fsize == g.fsize && g'.sealed == Seals(g, ws)
    && g'.stack == g.stack + ws && OnlyTouches(g.store, g'.store, ws)
    && (g'.nfree != 0 <==> g.nfree != 0 || ws != [])
    && st' == Lands(g, st, ws)
  }

  lemma FreedNone(g: Image, st: Word)
    requires Loose(g, st)
    ensures Freed(g, st, g, st, [])
  {
  }

  lemma FreedThen(g: Image, st: Word, g1: Image, st1: Word, g2: Image, st2: Word, a: seq<Word>, b: seq<Word>)
    requires Freed(g, st, g1, st1, a) && Freed(g1, st1, g2, st2, b)
    ensures Freed(g, st, g2, st2, a + b)
  {
    hide Loose, Suits;
    assert g2.stack == g.stack + (a + b);
    if a == [] {
      assert a + b == b;
      assert g1.nfree == 0 <==> g.nfree == 0;
    }
  }

  /** When the list is in order after blocks were freed: unless it was drained and the first of them
      does not suit. Then there is no list any more. */
  lemma FreedOutcome(g: Image, g': Image, st': Word, ws: seq<Word>)
    requires FreeOk(g) && Freed(g, 0, g', st', ws)
    ensures FreeOk(g') <==> g.nfree != 0 || ws == [] || (ws[0] < |g.store| && Suits(g.store[ws[0]]))
    ensures if FreeOk(g') then st' == 0 else NoList(g')
  {
    hide FreeOk, Suits, NoList;
    LooseIs(g', st');
    assert ws != [] ==> ws[0] in g'.stack;
    if st' != 0 {
      NoListIs(g');
    }
  }

  lemma NoListIs(g: Image)
    requires NoList(g)
    ensures !FreeOk(g)
  {
    assert g == g.(stack := g.stack, sealed := g.sealed);
  }

  /** One block freed by blk_free. */
  lemma FreedOne(g: Image, st: Word, g': Image, blk: Word)
    requires Loose(g, st) && InRegion(g, blk) && blk !in g.stack && Pushed(g, g', blk) && g'.sealed == Seals(g, [blk])
    ensures Freed(g, st, g', Lands(g, st, [blk]), [blk])
  {
    hide FreeOk;
    PushLoose(g, st, g', blk);
  }

  /** Pushing a block that is free already: the list can no longer be read. */
  lemma PushTwice(g: Image, g': Image, blk: Word)
    requires FreeOk(g) && blk in g.stack && Pushed(g, g', blk)
    ensures NoList(g')
  {
    assert blk != 0;
    forall st: seq<Word>, se: bool ensures !FreeOk(g'.(stack := st, sealed := se)) {
      hide FreeOk;
      if FreeOk(g'.(stack := st, sealed := se)) {
        PushedBelow(g, g', blk, st, se);
      }
    }
  }

  /** However the list is read after a push, that block is on top, and below it what was there. */
  lemma PushedBelow(g: Image, g': Image, blk: Word, st: seq<Word>, se: bool)
    requires FreeOk(g) && Pushed(g, g', blk) && g.stack != [] && blk != 0 && FreeOk(g'.(stack := st, sealed := se))
    ensures st == g.stack + [blk] && blk !in g.stack
  {
    UnderPushed(g, g', blk, st, se);
    hide Chain, Pushed, Layout;
    var below := st[..|st| - 1];
    ChainUnique(g.nfree, g.free, g.store, g.stack, g.sealed, below, se);
    assert st == below + [blk];
    assert forall k | 0 <= k < |below| :: below[k] != st[|st| - 1];
  }

  lemma UnderPushed(g: Image, g': Image, blk: Word, st: seq<Word>, se: bool)
    requires FreeOk(g) && Pushed(g, g', blk) && g.stack != [] && blk != 0 && FreeOk(g'.(stack := st, sealed := se))
    ensures st != [] && st[|st| - 1] == blk && Chain(g.nfree, g.free, g.store, st[..|st| - 1], se)
  {
    TopOfList(g);
    var below := st[..|st| - 1];
    if g.nfree < FSFREEBLOCKS {
      hide GetWord, ChainWords, Distinct;
      PopTop(g'.nfree, g'.free, g'.store, st, se);
      assert g'.free[..g.nfree] == g.free[..g.nfree];
      ChainPrefix(g.nfree, g'.free, g.free, g.store, below, se);
    } else {
      assert ChainWords(g'.store[blk]) == g.free;
      assert forall k | 0 <= k < |below| :: below[k] != st[|st| - 1];
      hide Chain, GetWord, ChainWords, Distinct;
      PopBottom(g'.nfree, g'.free, g'.store, st, se);
      ChainFrame(g.nfree, g.free, g'.store, g.store, below, se);
    }
  }

  // ---------- Adding a block to a tree ----------

  /** The slot whose block contains slot s. */
  function Parent(s: Slot): Slot
    requires !s.Root?
  {
    match s
    case Sub(i, k, _) => Root(i, k)
    case Leaf(i, a, _) => Sub(i, DOUBLE, a)
  }

  function Index(s: Slot): nat {
    match s
    case Root(_, k) => k
    case Sub(_, _, a) => a
    case Leaf(_, _, b) => b
  }

  /** s names an existing place: its indices are in range and the block containing it exists. */
  ghost predicate Reachable(g: Image, s: Slot) {
    match s
    case Root(i, k) => i < |g.inodes| && !IsDevice(g.inodes[i].kind) && k < TOTALREFBLOCKS
    case Sub(i, k, a) => SINGLE <= k <= DOUBLE && a < 256 && Holds(g, Root(i, k)) != 0
    case Leaf(i, a, b) => b < 256 && Holds(g, Sub(i, DOUBLE, a)) != 0
  }

  /** g' is g after a block nb was popped from the free list, zeroed, and stored in slot s. */
  ghost predicate Grafted(g: Image, g': Image, s: Slot, nb: Word) {
    && g'.first == g.first && g'.fsize == g.fsize && g'.sealed == g.sealed
    && |g.stack| > 0 && nb == g.stack[|g.stack| - 1]
    && g'.stack == g.stack[..|g.stack| - 1]
    && g'.owner == g.owner[nb := Used(s)]
    && |g'.inodes| == |g.inodes| && nb < |g.store|
    && (forall i | 0 <= i < |g.inodes| :: g'.inodes[i].kind == g.inodes[i].kind)
    && (forall j | 0 <= j < |g.inodes| :: g'.inodes[j].addr ==
          if s.Root? && j == s.ino && s.k < 20 then g.inodes[j].addr[s.k := nb] else g.inodes[j].addr)
    && if s.Root? then g'.store == g.store[nb := ZeroBlock()] else GraftedBelow(g, g', s, nb, Holds(g, Parent(s)))
  }

  /** The store after nb was zeroed and its number put in the pointer block p containing s. */
  ghost predicate GraftedBelow(g: Image, g': Image, s: Slot, nb: Word, p: Word) {
    && nb < |g.store| && p < |g.store| && Index(s) < 256
    && g'.store == g.store[nb := ZeroBlock()][p := SetWord(g.store[p], Index(s), nb)]
  }

  /** Holding a block is exclusive: a used block is never on the free list. */
  lemma HeldNotFree(g: Image, s: Slot)
    requires Ok(g) && Holds(g, s) != 0
    ensures Holds(g, s) !in g.stack && InRegion(g, Holds(g, s)) && Holds(g, s) < |g.store| <= 0xFFFF
  {
  }

  /** A grafted block appears in its slot and nowhere else, brings no pointers with it, and
      moves no other block. */
  lemma GraftHolds(g: Image, g': Image, s: Slot, nb: Word)
    requires Ok(g) && Reachable(g, s) && Holds(g, s) == 0 && Grafted(g, g', s, nb)
    ensures forall t: Slot :: Holds(g', t) == if t == s then nb else Holds(g, t)
  {
    hide Ok, Holds, Grafted, Reachable;
    forall t: Slot ensures Holds(g', t) == if t == s then nb else Holds(g, t) {
      match t
      case Root(i, k) => GraftRoot(g, g', s, nb, i, k);
      case Sub(i, k, a) => GraftSub(g, g', s, nb, i, k, a);
      case Leaf(i, a, b) => GraftLeaf(g, g', s, nb, i, a, b);
    }
  }

  lemma GraftRoot(g: Image, g': Image, s: Slot, nb: Word, i: nat, k: nat)
    requires Reachable(g, s) && Grafted(g, g', s, nb)
    ensures Holds(g', Root(i, k)) == if Root(i, k) == s then nb else Holds(g, Root(i, k))
  {
  }

  lemma GraftSub(g: Image, g': Image, s: Slot, nb: Word, i: nat, k: nat, a: nat)
    requires Ok(g) && Reachable(g, s) && Holds(g, s) == 0 && Grafted(g, g', s, nb)
    ensures Holds(g', Sub(i, k, a)) == if Sub(i, k, a) == s then nb else Holds(g, Sub(i, k, a))
  {
    hide FreeOk;
    ZeroWords();
    GraftRoot(g, g', s, nb, i, k);
  }

  lemma GraftLeaf(g: Image, g': Image, s: Slot, nb: Word, i: nat, a: nat, b: nat)
    requires Ok(g) && Reachable(g, s) && Holds(g, s) == 0 && Grafted(g, g', s, nb)
    ensures Holds(g', Leaf(i, a, b)) == if Leaf(i, a, b) == s then nb else Holds(g, Leaf(i, a, b))
  {
    hide FreeOk;
    ZeroWords();
    GraftSub(g, g', s, nb, i, DOUBLE, a);
  }

  lemma ZeroWords()
    ensures forall j | 0 <= j < 256 :: GetWord(ZeroBlock(), j) == 0
  {
    forall j | 0 <= j < 256 ensures GetWord(ZeroBlock(), j) == 0 {
      ZeroBlockWords(j);
    }
  }

  lemma FreeDistinct(g: Image)
    requires FreeOk(g)
    ensures 0 < g.first && Distinct(g.stack) && forall b | b in g.stack :: InRegion(g, b)
  {
  }

  lemma GraftOk(g: Image, g': Image, s: Slot, nb: Word)
    requires Ok(g) && Reachable(g, s) && Holds(g, s) == 0 && Grafted(g, g', s, nb)
    requires FreeOk(g')
    ensures Ok(g')
    ensures forall t: Slot :: Holds(g', t) == if t == s then nb else Holds(g, t)
  {
    hide FreeOk, GraftedBelow, Reachable, Holds;
    GraftHolds(g, g', s, nb);
    FreeDistinct(g);
    assert g.stack == g'.stack + [nb];
    assert nb in g.stack && nb !in g'.stack;
  }

  // ---------- Giving a tree back ----------

  /** The blocks of the tree at blk with `level` levels of pointers, in the order freeblk
      frees them: children from word 255 down to word 0, each after its own subtree. */
  function TreeSeq(store: Store, blk: Word, level: nat): seq<Word>
    decreases level, 256, blk
  {
    if blk == 0 then []
    else if level == 0 then [blk]
    else Kids(store, blk, 0, level - 1) + [blk]
  }

  /** The subtrees below words 255, .., j of pointer block p. */
  function Kids(store: Store, p: Word, j: nat, level: nat): seq<Word>
    decreases level, 256 + if j <= 256 then 256 - j else 0, p
  {
    if j >= 256 then [] else Kids(store, p, j + 1, level) + TreeSeq(store, Ref(store, p, j), level)
  }

  /** The first k direct blocks. */
  function Directs(addr: Addr, k: nat): seq<Word>
    requires k <= DIRECTBLOCKS
    decreases k, addr
  {
    if k == 0 then [] else Directs(addr, k - 1) + if addr[k - 1] == 0 then [] else [addr[k - 1]]
  }

  /** All blocks of a file in the order f_trunc frees them. */
  function FileSeq(store: Store, addr: Addr): seq<Word> {
    TreeSeq(store, addr[DOUBLE], 2) + TreeSeq(store, addr[SINGLE], 1) + Directs(addr, DIRECTBLOCKS)
  }

  /** How many levels of pointers hang below a slot. */
  function SlotLevel(s: Slot): nat {
    match s
    case Root(_, k) => if k == DOUBLE then 2 else if k == SINGLE then 1 else 0
    case Sub(_, k, _) => if k == DOUBLE then 1 else 0
    case Leaf(_, _, _) => 0
  }

  function Child(s: Slot, j: nat): Slot
    requires SlotLevel(s) > 0
  {
    match s
    case Root(i, k) => Sub(i, k, j)
    case Sub(i, k, a) => Leaf(i, a, j)
  }

  ghost predicate Below(s: Slot, t: Slot) {
    || t == s
    || match s {
         case Root(i, k) => (t.Sub? && t.ino == i && t.k == k) || (t.Leaf? && t.ino == i && k == DOUBLE)
         case Sub(i, k, a) => t.Leaf? && t.ino == i && k == DOUBLE && t.a == a
         case Leaf(_, _, _) => false
       }
  }

  ghost predicate OwnedBelow(g: Image, b: Word, s: Slot) {
    b in g.owner && g.owner[b].Used? && Below(s, g.owner[b].slot)
  }

  ghost predicate OwnedBelowChild(g: Image, b: Word, s: Slot, j: nat)
    requires SlotLevel(s) > 0
  {
    b in g.owner && g.owner[b].Used? && g.owner[b].slot != s && Below(s, g.owner[b].slot)
    && j <= ChildIndex(s, g.owner[b].slot) < 256
  }

  /** Which child of s leads to t. */
  function ChildIndex(s: Slot, t: Slot): nat
    requires SlotLevel(s) > 0
  {
    match t
    case Root(_, _) => 256
    case Sub(_, _, a) => a
    case Leaf(_, a, b) => if s.Root? then a else b
  }

  /** ws lists exactly the blocks owned at or below slot s, each once. */
  ghost predicate ListsTree(g: Image, s: Slot, ws: seq<Word>) {
    Distinct(ws) && forall b: Word :: b in ws <==> OwnedBelow(g, b, s)
  }

  ghost predicate ListsKids(g: Image, s: Slot, j: nat, ws: seq<Word>)
    requires SlotLevel(s) > 0
  {
    Distinct(ws) && forall b: Word :: b in ws <==> OwnedBelowChild(g, b, s, j)
  }

  lemma NothingBelow(g: Image, s: Slot)
    requires Ok(g) && Holds(g, s) == 0
    ensures ListsTree(g, s, [])
  {
  }

  lemma OnlyItself(g: Image, s: Slot)
    requires Ok(g) && Holds(g, s) != 0 && SlotLevel(s) == 0
    ensures ListsTree(g, s, [Holds(g, s)])
  {
  }

  lemma KidsThenItself(g: Image, s: Slot, kids: seq<Word>)
    requires Ok(g) && Holds(g, s) != 0 && SlotLevel(s) > 0 && ListsKids(g, s, 0, kids)
    ensures ListsTree(g, s, kids + [Holds(g, s)])
  {
    var p := Holds(g, s);
    assert p !in kids by {
      assert g.owner[p] == Used(s);
      assert !OwnedBelowChild(g, p, s, 0);
    }
    DistinctConcat(kids, [p]);
    forall b: Word ensures b in kids + [p] <==> OwnedBelow(g, b, s) {
      if OwnedBelow(g, b, s) && b != p {
        assert Holds(g, g.owner[b].slot) == b;
        assert OwnedBelowChild(g, b, s, 0);
      }
    }
  }

  /** The tree below a slot lists exactly the blocks owned at or below it, each once. */
  lemma {:induction false} TreeOwned(g: Image, s: Slot)
    requires Ok(g)
    ensures ListsTree(g, s, TreeSeq(g.store, Holds(g, s), SlotLevel(s)))
    decreases SlotLevel(s), 257
  {
    var p := Holds(g, s);
    if p == 0 {
      NothingBelow(g, s);
    } else if SlotLevel(s) == 0 {
      OnlyItself(g, s);
    } else {
      KidsOwned(g, s, 0);
      KidsThenItself(g, s, Kids(g.store, p, 0, SlotLevel(s) - 1));
    }
  }

  lemma {:induction false} KidsOwned(g: Image, s: Slot, j: nat)
    requires Ok(g) && SlotLevel(s) > 0 && Holds(g, s) != 0 && j <= 256
    ensures ListsKids(g, s, j, Kids(g.store, Holds(g, s), j, SlotLevel(s) - 1))
    decreases SlotLevel(s), 256 - j
  {
    if j < 256 {
      var c, l := Child(s, j), SlotLevel(s) - 1;
      KidsOwned(g, s, j + 1);
      TreeOwned(g, c);
      assert SlotLevel(c) == l && Holds(g, c) == Ref(g.store, Holds(g, s), j);
      JoinKids(g, s, j, Kids(g.store, Holds(g, s), j + 1, l), TreeSeq(g.store, Holds(g, c), l));
    }
  }

  lemma BelowChild(s: Slot, j: nat, t: Slot)
    requires SlotLevel(s) > 0
    ensures Below(Child(s, j), t) <==> Below(s, t) && t != s && ChildIndex(s, t) == j
  {
  }

  lemma JoinKids(g: Image, s: Slot, j: nat, rest: seq<Word>, tree: seq<Word>)
    requires SlotLevel(s) > 0 && j < 256
    requires ListsKids(g, s, j + 1, rest) && ListsTree(g, Child(s, j), tree)
    ensures ListsKids(g, s, j, rest + tree)
  {
    forall b: Word
      ensures OwnedBelow(g, b, Child(s, j)) <==> OwnedBelowChild(g, b, s, j) && !OwnedBelowChild(g, b, s, j + 1)
    {
      if b in g.owner && g.owner[b].Used? {
        BelowChild(s, j, g.owner[b].slot);
      }
    }
    assert Disjoint(rest, tree) by {
      forall x | x in rest ensures x !in tree {
        assert OwnedBelowChild(g, x, s, j + 1);
      }
    }
    DistinctConcat(rest, tree);
  }

  /** A tree read from two stores is the same if they agree on its blocks. */
  lemma {:induction false} TreeFrame(store: Store, store': Store, blk: Word, level: nat)
    requires |store| == |store'|
    requires forall b: Word | b in TreeSeq(store, blk, level) && b < |store| :: store'[b] == store[b]
    ensures TreeSeq(store', blk, level) == TreeSeq(store, blk, level)
    decreases level, 256
  {
    if blk != 0 && level > 0 {
      var kids := Kids(store, blk, 0, level - 1);
      assert TreeSeq(store, blk, level) == kids + [blk];
      assert forall b | b in kids :: b in TreeSeq(store, blk, level);
      KidsFrame(store, store', blk, 0, level - 1);
    }
  }

  lemma {:induction false} KidsFrame(store: Store, store': Store, p: Word, j: nat, level: nat)
    requires |store| == |store'| && j <= 256
    requires p < |store| ==> store'[p] == store[p]
    requires forall b: Word | b in Kids(store, p, j, level) && b < |store| :: store'[b] == store[b]
    ensures Kids(store', p, j, level) == Kids(store, p, j, level)
    decreases level, 512 - j
  {
    if j < 256 {
      var rest, tree := Kids(store, p, j + 1, level), TreeSeq(store, Ref(store, p, j), level);
      assert Kids(store, p, j, level) == rest + tree;
      assert forall b | b in rest :: b in Kids(store, p, j, level);
      assert forall b | b in tree :: b in Kids(store, p, j, level);
      KidsFrame(store, store', p, j + 1, level);
      TreeFrame(store, store', Ref(store, p, j), level);
    }
  }

  /** The blocks of ws can all be freed: distinct data blocks, none of them free already. */
  ghost predicate Freeable(g: Image, ws: seq<Word>) {
    Distinct(ws) && (forall b | b in ws :: InRegion(g, b)) && Disjoint(ws, g.stack)
  }

  /** store' differs from store at most in the blocks of ws. */
  ghost predicate OnlyTouches(store: Store, store': Store, ws: seq<Word>) {
    |store'| == |store| && forall b: Word | b < |store| && b !in ws :: store'[b] == store[b]
  }

  /** After part a of a + b was freed, what remains of the list is freeable. */
  lemma FreeableRest(g: Image, g': Image, a: seq<Word>, b: seq<Word>)
    requires Freeable(g, a + b) && g'.stack == g.stack + a && g'.first == g.first && g'.fsize == g.fsize
    ensures Freeable(g', b)
  {
    DistinctSplit(a, b);
    forall x | x in b ensures InRegion(g', x) && x !in g'.stack {
      assert x in a + b;
    }
  }

  /** The next part of a list, when the part before it is free. */
  lemma FreeableNext(g: Image, g': Image, done: seq<Word>, next: seq<Word>, post: seq<Word>)
    requires Freeable(g, done + next + post)
    requires g'.stack == g.stack + done && g'.first == g.first && g'.fsize == g.fsize
    ensures Freeable(g', next) && Disjoint(done, next)
    ensures forall b | b in next :: b in done + next + post
  {
    FreeablePrefix(g, done + next, post);
    FreeableRest(g, g', done, next);
    DistinctSplit(done, next);
  }

  lemma FreeablePrefix(g: Image, a: seq<Word>, b: seq<Word>)
    requires Freeable(g, a + b)
    ensures Freeable(g, a)
  {
    DistinctSplit(a, b);
    forall x | x in a ensures InRegion(g, x) && x !in g.stack {
      assert x in a + b;
    }
  }

  /** The subtrees below words j-1, .., 0, which are freed after those below the others. */
  function KidsRest(store: Store, p: Word, j: nat, level: nat): seq<Word> {
    if j == 0 then [] else TreeSeq(store, Ref2(store, p, j - 1), level) + KidsRest(store, p, j - 1, level)
  }

  function Ref2(store: Store, p: Word, j: nat): Word {
    if j < 256 then Ref(store, p, j) else 0
  }

  lemma {:induction false} KidsSplit(store: Store, p: Word, j: nat, level: nat)
    requires j <= 256
    ensures Kids(store, p, 0, level) == Kids(store, p, j, level) + KidsRest(store, p, j, level)
    decreases j
  {
    if j > 0 {
      KidsSplit(store, p, j - 1, level);
      ConcatAssoc(Kids(store, p, j, level), TreeSeq(store, Ref(store, p, j - 1), level),
        KidsRest(store, p, j - 1, level));
    }
  }

  /** ws lists exactly the blocks owned by inode i, each once. */
  ghost predicate ListsFile(g: Image, i: nat, ws: seq<Word>) {
    Distinct(ws) && forall b: Word :: b in ws <==> b in g.owner && g.owner[b].Used? && g.owner[b].slot.ino == i
  }

  ghost predicate ListsDirects(g: Image, i: nat, k: nat, ws: seq<Word>) {
    && Distinct(ws)
    && forall b: Word :: b in ws <==>
         b in g.owner && g.owner[b].Used? && g.owner[b].slot.Root? && g.owner[b].slot.ino == i
         && g.owner[b].slot.k < k
  }

  lemma {:induction false} DirectsOwned(g: Image, i: nat, k: nat)
    requires Ok(g) && i < |g.inodes| && !IsDevice(g.inodes[i].kind) && k <= DIRECTBLOCKS
    ensures ListsDirects(g, i, k, Directs(g.inodes[i].addr, k))
  {
    if k > 0 {
      DirectsOwned(g, i, k - 1);
      OneMoreDirect(g, i, k - 1, Directs(g.inodes[i].addr, k - 1));
    }
  }

  lemma OneMoreDirect(g: Image, i: nat, k: nat, ws: seq<Word>)
    requires Ok(g) && i < |g.inodes| && !IsDevice(g.inodes[i].kind) && k < DIRECTBLOCKS
    requires ListsDirects(g, i, k, ws)
    ensures ListsDirects(g, i, k + 1, ws + if g.inodes[i].addr[k] == 0 then [] else [g.inodes[i].addr[k]])
  {
    var w := g.inodes[i].addr[k];
    assert Holds(g, Root(i, k)) == w;
    if w == 0 {
      assert ws + [] == ws;
    } else {
      assert g.owner[w] == Used(Root(i, k));
      DistinctConcat(ws, [w]);
    }
  }

  /** The blocks f_trunc frees are exactly the blocks of that inode, each once. */
  lemma FileOwned(g: Image, i: nat)
    requires Ok(g) && i < |g.inodes| && !IsDevice(g.inodes[i].kind)
    ensures ListsFile(g, i, FileSeq(g.store, g.inodes[i].addr))
  {
    var addr := g.inodes[i].addr;
    var d, s, r := TreeSeq(g.store, addr[DOUBLE], 2), TreeSeq(g.store, addr[SINGLE], 1), Directs(addr, DIRECTBLOCKS);
    TreeOwned(g, Root(i, DOUBLE));
    TreeOwned(g, Root(i, SINGLE));
    DirectsOwned(g, i, DIRECTBLOCKS);
    assert Holds(g, Root(i, DOUBLE)) == addr[DOUBLE] && Holds(g, Root(i, SINGLE)) == addr[SINGLE];
    JoinFile(g, i, d, s, r);
  }

  /** When the block in a slot is freed, counted from the start of f_trunc: the blocks below pointer 19 from the
      last to the first, each pointer block behind those it names; then those below pointer 18 likewise; then
      the direct blocks from the first to the last. */
  function Turn(s: Slot): nat {
    match s
    case Leaf(_, a, b) => if a < 256 && b < 256 then 257 * (255 - a) + 255 - b else 0
    case Sub(_, k, a) => if a >= 256 then 0 else if k == 19 then 257 * (255 - a) + 256 else 257 * 256 + 1 + 255 - a
    case Root(_, k) => if k == 19 then 257 * 256 else if k == 18 then 257 * 256 + 1 + 256 else 257 * 257 + 1 + k
  }

  ghost predicate InTurn(g: Image, ws: seq<Word>) {
    && (forall n | 0 <= n < |ws| :: ws[n] in g.owner && g.owner[ws[n]].Used?)
    && forall m, n | 0 <= m < n < |ws| :: Turn(g.owner[ws[m]].slot) < Turn(g.owner[ws[n]].slot)
  }

  ghost predicate Before(g: Image, x: seq<Word>, y: seq<Word>) {
    forall b, c | b in x && c in y && b in g.owner && c in g.owner && g.owner[b].Used? && g.owner[c].Used? ::
      Turn(g.owner[b].slot) < Turn(g.owner[c].slot)
  }

  lemma InTurnConcat(g: Image, x: seq<Word>, y: seq<Word>)
    requires InTurn(g, x) && InTurn(g, y) && Before(g, x, y)
    ensures InTurn(g, x + y)
  {
    hide Turn;
    forall n | 0 <= n < |x + y| ensures (x + y)[n] in g.owner && g.owner[(x + y)[n]].Used? {
      assert (x + y)[n] == if n < |x| then x[n] else y[n - |x|];
    }
    forall m, n | 0 <= m < n < |x + y| ensures Turn(g.owner[(x + y)[m]].slot) < Turn(g.owner[(x + y)[n]].slot) {
      if m < |x| <= n {
        assert x[m] in x && y[n - |x|] in y;
      }
    }
  }

  /** A slot that holds a block has its indices in range. */
  lemma IndicesInRange(g: Image, s: Slot)
    requires Holds(g, s) != 0
    ensures match s
            case Root(_, k) => k < 20
            case Sub(_, k, a) => 18 <= k <= 19 && a < 256
            case Leaf(_, a, b) => a < 256 && b < 256
  {
  }

  lemma ChildrenInTurn(s: Slot, t: Slot, t': Slot, j: nat)
    requires SlotLevel(s) > 0 && j < 256 && Below(s, t) && t != s && j < ChildIndex(s, t) < 256
    requires Below(Child(s, j), t') && match s case Root(_, k) => 18 <= k <= 19 case Sub(_, k, a) => a < 256
    requires match t case Leaf(_, a, b) => a < 256 && b < 256 case _ => true
    requires match t' case Leaf(_, a, b) => a < 256 && b < 256 case _ => true
    ensures Turn(t) < Turn(t') < Turn(s)
  {
  }

  lemma {:induction false} TreeInTurn(g: Image, s: Slot)
    requires Ok(g)
    ensures InTurn(g, TreeSeq(g.store, Holds(g, s), SlotLevel(s)))
    decreases SlotLevel(s), 257
  {
    var p := Holds(g, s);
    if p != 0 {
      var l := SlotLevel(s);
      if l > 0 {
        KidsInTurn(g, s, 0);
        KidsOwned(g, s, 0);
        IndicesInRange(g, s);
        var kids := Kids(g.store, p, 0, l - 1);
        forall b | b in kids ensures Turn(g.owner[b].slot) < Turn(s) {
          assert OwnedBelowChild(g, b, s, 0);
          ParentInTurn(g, s, b);
        }
        InTurnConcat(g, kids, [p]);
      }
    }
  }

  lemma ParentInTurn(g: Image, s: Slot, b: Word)
    requires Ok(g) && SlotLevel(s) > 0 && Holds(g, s) != 0 && OwnedBelowChild(g, b, s, 0)
    ensures Turn(g.owner[b].slot) < Turn(s)
  {
    IndicesInRange(g, s);
    IndicesInRange(g, g.owner[b].slot);
  }

  lemma {:induction false} KidsInTurn(g: Image, s: Slot, j: nat)
    requires Ok(g) && SlotLevel(s) > 0 && Holds(g, s) != 0 && j <= 256
    ensures InTurn(g, Kids(g.store, Holds(g, s), j, SlotLevel(s) - 1))
    decreases SlotLevel(s), 256 - j
  {
    if j < 256 {
      var c, l := Child(s, j), SlotLevel(s) - 1;
      KidsInTurn(g, s, j + 1);
      KidsOwned(g, s, j + 1);
      TreeInTurn(g, c);
      TreeOwned(g, c);
      assert SlotLevel(c) == l && Holds(g, c) == Ref(g.store, Holds(g, s), j);
      var rest, tree := Kids(g.store, Holds(g, s), j + 1, l), TreeSeq(g.store, Holds(g, c), l);
      SiblingsInTurn(g, s, j, rest, tree);
      InTurnConcat(g, rest, tree);
    }
  }

  lemma SiblingsInTurn(g: Image, s: Slot, j: nat, rest: seq<Word>, tree: seq<Word>)
    requires Ok(g) && SlotLevel(s) > 0 && Holds(g, s) != 0 && j < 256
    requires ListsKids(g, s, j + 1, rest) && ListsTree(g, Child(s, j), tree)
    ensures Before(g, rest, tree)
  {
    IndicesInRange(g, s);
    forall b, c | b in rest && c in tree && b in g.owner && c in g.owner && g.owner[b].Used? && g.owner[c].Used?
      ensures Turn(g.owner[b].slot) < Turn(g.owner[c].slot)
    {
      assert OwnedBelowChild(g, b, s, j + 1) && OwnedBelow(g, c, Child(s, j));
      IndicesInRange(g, g.owner[b].slot);
      IndicesInRange(g, g.owner[c].slot);
      ChildrenInTurn(s, g.owner[b].slot, g.owner[c].slot, j);
    }
  }

  lemma DirectOwner(g: Image, i: nat, k: nat)
    requires Ok(g) && i < |g.inodes| && !IsDevice(g.inodes[i].kind) && k < DIRECTBLOCKS && g.inodes[i].addr[k] != 0
    ensures var w := g.inodes[i].addr[k]; w in g.owner && g.owner[w] == Used(Root(i, k))
  {
    assert Holds(g, Root(i, k)) == g.inodes[i].addr[k];
  }

  lemma {:induction false} DirectsInTurn(g: Image, i: nat, k: nat)
    requires Ok(g) && i < |g.inodes| && !IsDevice(g.inodes[i].kind) && k <= DIRECTBLOCKS
    ensures InTurn(g, Directs(g.inodes[i].addr, k))
    ensures forall b | b in Directs(g.inodes[i].addr, k) ::
              b in g.owner && g.owner[b].Used? && exists n :: 0 <= n < k && g.owner[b].slot == Root(i, n)
    decreases k
  {
    hide Ok;
    if k > 0 {
      var addr := g.inodes[i].addr;
      DirectsInTurn(g, i, k - 1);
      if addr[k - 1] != 0 {
        DirectOwner(g, i, k - 1);
        InTurnConcat(g, Directs(addr, k - 1), [addr[k - 1]]);
      }
    }
  }

  /** The order in which f_trunc frees the blocks. */
  lemma FileInTurn(g: Image, i: nat)
    requires Ok(g) && i < |g.inodes| && !IsDevice(g.inodes[i].kind)
    ensures InTurn(g, FileSeq(g.store, g.inodes[i].addr))
  {
    var addr := g.inodes[i].addr;
    var d, s, r := TreeSeq(g.store, addr[DOUBLE], 2), TreeSeq(g.store, addr[SINGLE], 1), Directs(addr, DIRECTBLOCKS);
    TreeOwned(g, Root(i, DOUBLE));
    TreeOwned(g, Root(i, SINGLE));
    TreeInTurn(g, Root(i, DOUBLE));
    TreeInTurn(g, Root(i, SINGLE));
    DirectsInTurn(g, i, DIRECTBLOCKS);
    assert Holds(g, Root(i, DOUBLE)) == addr[DOUBLE] && Holds(g, Root(i, SINGLE)) == addr[SINGLE];
    TreesInTurn(g, i, d, s, r);
    InTurnConcat(g, d, s);
    InTurnConcat(g, d + s, r);
  }

  lemma TreesInTurn(g: Image, i: nat, d: seq<Word>, s: seq<Word>, r: seq<Word>)
    requires Ok(g) && ListsTree(g, Root(i, DOUBLE), d) && ListsTree(g, Root(i, SINGLE), s)
    requires forall b | b in r ::
               b in g.owner && g.owner[b].Used? && exists n :: 0 <= n < 18 && g.owner[b].slot == Root(i, n)
    ensures Before(g, d, s) && Before(g, d + s, r)
  {
    forall b | b in d ensures b in g.owner && g.owner[b].Used? && Turn(g.owner[b].slot) <= 257 * 256 {
      assert OwnedBelow(g, b, Root(i, DOUBLE));
      IndicesInRange(g, g.owner[b].slot);
    }
    forall b | b in s ensures b in g.owner && g.owner[b].Used? && 257 * 256 < Turn(g.owner[b].slot) <= 257 * 257 {
      assert OwnedBelow(g, b, Root(i, SINGLE));
      IndicesInRange(g, g.owner[b].slot);
    }
  }

  lemma JoinFile(g: Image, i: nat, d: seq<Word>, s: seq<Word>, r: seq<Word>)
    requires Ok(g)
    requires ListsTree(g, Root(i, DOUBLE), d) && ListsTree(g, Root(i, SINGLE), s)
    requires ListsDirects(g, i, DIRECTBLOCKS, r)
    ensures ListsFile(g, i, d + s + r)
  {
    forall b: Word | b in g.owner && g.owner[b].Used? && g.owner[b].slot.ino == i ensures b in d + s + r {
      assert Holds(g, g.owner[b].slot) == b;
      assert OwnedBelow(g, b, Root(i, DOUBLE)) || OwnedBelow(g, b, Root(i, SINGLE)) || b in r;
    }
    forall b: Word | b in d + s + r
      ensures b in g.owner && g.owner[b].Used? && g.owner[b].slot.ino == i
    {
      assert OwnedBelow(g, b, Root(i, DOUBLE)) || OwnedBelow(g, b, Root(i, SINGLE)) || b in r;
    }
    assert Disjoint(d, s) by {
      forall b | b in d ensures b !in s {
        assert OwnedBelow(g, b, Root(i, DOUBLE));
      }
    }
    DistinctConcat(d, s);
    assert Disjoint(d + s, r) by {
      forall b | b in d + s ensures b !in r {
        assert OwnedBelow(g, b, Root(i, DOUBLE)) || OwnedBelow(g, b, Root(i, SINGLE));
      }
    }
    DistinctConcat(d + s, r);
  }

  /** The owner map after every block of ws went back to the free list. */
  ghost function Released(owner: map<Word, Owner>, ws: seq<Word>): map<Word, Owner> {
    map b | b in owner :: if b in ws then Free else owner[b]
  }

  /** g' is g after the blocks of inode i were freed and its pointers cleared. */
  ghost predicate Truncated(g: Image, g': Image, i: nat) {
    && i < |g.inodes| && |g'.inodes| == |g.inodes| && |g'.store| == |g.store|
    && g'.first == g.first && g'.fsize == g.fsize
    && (forall j | 0 <= j < |g.inodes| && j != i ::
          g'.inodes[j].kind == g.inodes[j].kind && g'.inodes[j].addr == g.inodes[j].addr)
    && g'.inodes[i].addr == NoBlocks()
    && g'.stack == g.stack + FileSeq(g.store, g.inodes[i].addr)
    && (forall b: Word | b < |g.store| && b !in FileSeq(g.store, g.inodes[i].addr) :: g'.store[b] == g.store[b])
    && g'.owner == Released(g.owner, FileSeq(g.store, g.inodes[i].addr))
  }

  lemma TruncHolds(g: Image, g': Image, i: nat)
    requires Ok(g) && Truncated(g, g', i) && !IsDevice(g.inodes[i].kind)
    ensures forall t: Slot :: Holds(g', t) == if t.ino == i then 0 else Holds(g, t)
  {
    FileOwned(g, i);
    forall t: Slot ensures Holds(g', t) == if t.ino == i then 0 else Holds(g, t) {
      match t
      case Root(_, _) =>
      case Sub(j, k, a) =>
        assert Holds(g, Root(j, k)) != 0 && j != i ==> Holds(g, Root(j, k)) !in FileSeq(g.store, g.inodes[i].addr);
      case Leaf(j, a, b) =>
        assert Holds(g, Root(j, DOUBLE)) != 0 && j != i ==>
          Holds(g, Root(j, DOUBLE)) !in FileSeq(g.store, g.inodes[i].addr);
        assert Holds(g, Sub(j, DOUBLE, a)) != 0 && j != i ==>
          Holds(g, Sub(j, DOUBLE, a)) !in FileSeq(g.store, g.inodes[i].addr);
    }
  }

  /** Everything but the free list is then in order. */
  lemma TruncOk(g: Image, g': Image, i: nat)
    requires Ok(g) && Truncated(g, g', i) && !IsDevice(g.inodes[i].kind)
    ensures FreeOk(g') <==> Ok(g')
    ensures forall t: Slot :: Holds(g', t) == if t.ino == i then 0 else Holds(g, t)
  {
    FileOwned(g, i);
    TruncHolds(g, g', i);
  }

  // ---------- Freeing a device number ----------

  /** No stack and no owners make the volume consistent. */
  ghost predicate Hopeless(g: Image) {
    forall st: seq<Word>, se: bool, ow: map<Word, Owner> :: !Ok(g.(stack := st, sealed := se, owner := ow))
  }

  lemma NoListHopeless(g: Image)
    requires NoList(g)
    ensures Hopeless(g)
  {
    forall st: seq<Word>, se: bool, ow: map<Word, Owner> ensures !Ok(g.(stack := st, sealed := se, owner := ow)) {
      assert !FreeOk(g.(stack := st, sealed := se));
    }
  }

  lemma HopelessIs(g: Image)
    requires Hopeless(g)
    ensures !Ok(g)
  {
    assert g == g.(stack := g.stack, sealed := g.sealed, owner := g.owner);
  }

  /** Overwriting a block does not change which slot holds it. */
  lemma HeldStays(g: Image, store': Store, s: Slot)
    requires Ok(g) && Holds(g, s) != 0 && |store'| == |g.store|
    requires forall b: Word | b < |g.store| && b != Holds(g, s) :: store'[b] == g.store[b]
    ensures At(store', g.inodes, s) == Holds(g, s)
  {
    match s
    case Root(_, _) =>
    case Sub(i, k, _) =>
      assert Holds(g, Root(i, k)) == RootAt(g.inodes, i, k);
    case Leaf(i, a, _) =>
      assert Holds(g, Root(i, DOUBLE)) == RootAt(g.inodes, i, DOUBLE);
      assert Holds(g, Sub(i, DOUBLE, a)) == SubAt(g.store, g.inodes, i, DOUBLE, a);
  }

  /** The first pointer of a device inode is a device number. Pushing it as a block, if it is one of the
      data region, leaves a volume that is not consistent, whatever that block is used for: on the free
      list it would be twice, and in a file's tree it would be free as well. */
  lemma NumberPushed(g: Image, g': Image, d: Word)
    requires Ok(g) && InRegion(g, d) && Pushed(g, g', d)
    requires forall s: Slot :: Holds(g', s) == At(g'.store, g.inodes, s)
    ensures Hopeless(g')
  {
    if d in g.stack {
      PushTwice(g, g', d);
      NoListHopeless(g');
    } else {
      var s := g.owner[d].slot;
      HeldStays(g, g'.store, s);
      forall st: seq<Word>, se: bool, ow: map<Word, Owner> ensures !Ok(g'.(stack := st, sealed := se, owner := ow)) {
        var h := g'.(stack := st, sealed := se, owner := ow);
        assert Holds(h, s) == Holds(g', s) == d;
        if FreeOk(h) {
          TopOfList(h);
          assert st != [] && st[|st| - 1] == d;
        }
      }
    }
  }
}
