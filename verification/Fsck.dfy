/** fsck, pass 2: rebuilding the free list from the bitmap of used blocks, and fsck's own
    allocator on the result. */
module Fsck {
  import opened Basics
  import opened Blocks
  import opened FreeChain
  import opened SuperBlocks

  function Pow2(k: nat): (p: nat)
    ensures p > 0
  {
    if k == 0 then 1 else 2 * Pow2(k - 1)
  }

  /** The bit of block b is clear, that is, no inode was found to use the block. */
  predicate IsClear(bitmap: seq<Byte>, b: nat)
    requires b / 8 < |bitmap|
  {
    (bitmap[b / 8] / Pow2(b % 8)) % 2 == 0
  }

  /** Which bit of the bitmap is a block's: in byte b / 8, from the lowest bit up. */
  lemma BitOfBlock(bitmap: seq<Byte>, b: nat)
    requires b / 8 < |bitmap|
    ensures IsClear(bitmap, b) <==> bitmap[b / 8] / [1, 2, 4, 8, 16, 32, 64, 128][b % 8] % 2 == 0
  {
    assert Pow2(0) == 1 && Pow2(1) == 2 && Pow2(2) == 4 && Pow2(3) == 8;
    assert Pow2(4) == 16 && Pow2(5) == 32 && Pow2(6) == 64 && Pow2(7) == 128;
  }

  /** The clear blocks of [j, hi), highest first. */
  function ClearDown(bitmap: seq<Byte>, j: nat, hi: nat): seq<Word>
    requires j <= hi <= 0xFFFF && hi / 8 < |bitmap|
    decreases hi - j
  {
    if j == hi then [] else ClearDown(bitmap, j + 1, hi) + if IsClear(bitmap, j) then [j] else []
  }

  /** That list holds exactly the clear blocks of the range, in strictly descending order. */
  lemma {:induction false} ClearDownIs(bitmap: seq<Byte>, j: nat, hi: nat)
    requires j <= hi <= 0xFFFF && hi / 8 < |bitmap|
    ensures forall b: Word :: b in ClearDown(bitmap, j, hi) <==> j <= b < hi && IsClear(bitmap, b)
    ensures forall m, n | 0 <= m < n < |ClearDown(bitmap, j, hi)| ::
              ClearDown(bitmap, j, hi)[m] > ClearDown(bitmap, j, hi)[n]
    decreases hi - j
  {
    if j < hi {
      ClearDownIs(bitmap, j + 1, hi);
      var rest := ClearDown(bitmap, j + 1, hi);
      assert forall m | 0 <= m < |rest| :: rest[m] in rest;
    }
  }

  lemma ClearDownStep(bitmap: seq<Byte>, j: nat, hi: nat)
    requires j < hi <= 0xFFFF && hi / 8 < |bitmap|
    ensures ClearDown(bitmap, j, hi)
            == if IsClear(bitmap, j) then ClearDown(bitmap, j + 1, hi) + [j] else ClearDown(bitmap, j + 1, hi)
  {
  }

  class Checker {
    // the superblock being repaired
    var mounted: Word
    var reserv: Word
    var isize: Word
    var fsize: Word
    var tfree: Word
    var nfree: Word
    var free: seq<Word>
    // the bitmap built by pass 1, and the device
    var bitmap: seq<Byte>
    var disk: Store

    ghost predicate Shaped()
      reads this
    {
      && |free| == FSFREEBLOCKS && |disk| == fsize && |bitmap| == fsize / 8 + 1
      && 1 < reserv + isize <= fsize
    }

    /** The superblock in memory. */
    function Super(): SuperBlock
      reads this
    {
      SuperBlock(mounted, reserv, isize, fsize, tfree, nfree, free)
    }

    /** The list of free blocks, built from the top of the device down over an entry 0. */
    method Pass2(junk: Block)
      requires Shaped()
      modifies this`nfree, this`tfree, this`free, this`disk
      ensures Shaped()
      ensures Chain(nfree, free, disk, ClearDown(bitmap, reserv + isize, fsize), true)
      ensures tfree == |ClearDown(bitmap, reserv + isize, fsize)|
      ensures ReadSuper(disk[SUPERBLOCK]) == Super()
      ensures forall b | 0 <= b < fsize && b != SUPERBLOCK && (b < reserv + isize || !IsClear(bitmap, b)) ::
                disk[b] == old(disk)[b]
    {
      hide Chain, ClearDown, IsClear, ReadSuper;
      ClearDownIs(bitmap, reserv + isize, fsize);
      nfree := 1;
      free := free[0 := 0];
      tfree := 0;
      var j: nat := fsize - 1;
      JustSentinel(free, disk, bitmap, fsize);
      while j >= reserv + isize
        invariant reserv + isize - 1 <= j < fsize
        invariant Shaped() && 0 < nfree <= FSFREEBLOCKS
        invariant Chain(nfree, free, disk, ClearDown(bitmap, j + 1, fsize), true)
        invariant tfree == |ClearDown(bitmap, j + 1, fsize)| <= fsize - 1 - j
        invariant forall b | 0 <= b < fsize && (b <= j || !IsClear(bitmap, b)) :: disk[b] == old(disk)[b]
      {
        ClearDownStep(bitmap, j, fsize);
        if IsClear(bitmap, j) {
          ClearDownIs(bitmap, j + 1, fsize);
          AddFree(j, junk, ClearDown(bitmap, j + 1, fsize));
        }
        j := j - 1;
      }
      WriteSuper(junk);
    }

    /** The body of that loop for a clear block. */
    method AddFree(j: Word, junk: Block, ghost stack: seq<Word>)
      requires Shaped() && 0 < nfree <= FSFREEBLOCKS && 0 < j < fsize && j !in stack
      requires Chain(nfree, free, disk, stack, true) && tfree < 0xFFFF
      modifies this`nfree, this`tfree, this`free, this`disk
      ensures Shaped() && 0 < nfree <= FSFREEBLOCKS && tfree == old(tfree) + 1
      ensures Chain(nfree, free, disk, stack + [j], true)
      ensures forall b | 0 <= b < fsize && b != j :: disk[b] == old(disk)[b]
    {
      hide Chain;
      ghost var disk1, free1, n1 := disk, free, nfree;
      if nfree == FSFREEBLOCKS {
        disk := disk[j := SetWords(SetWord(junk, 0, nfree), 1, free)];
        nfree := 0;
      }
      free := free[nfree := j];
      nfree := nfree + 1;
      tfree := tfree + 1;
      if n1 < FSFREEBLOCKS {
        PushRoom(n1, free1, disk1, stack, true, j);
      } else {
        PushSpill(n1, free1, disk1, stack, true, j, disk, free);
      }
    }

    /** dwrite(SUPERBLOCK, &filsys), with whatever follows the list in memory (`junk`): block 1 is
        not part of any list. */
    method WriteSuper(junk: Block)
      requires Shaped()
      modifies this`disk
      ensures Shaped() && ReadSuper(disk[SUPERBLOCK]) == Super()
      ensures forall b | 0 <= b < fsize && b != SUPERBLOCK :: disk[b] == old(disk)[b]
      ensures forall stack: seq<Word>, sealed |
                old(Chain(nfree, free, disk, stack, sealed)) && SUPERBLOCK !in stack ::
                Chain(nfree, free, disk, stack, sealed)
    {
      SuperRoundTrip(junk, Super());
      disk := disk[SUPERBLOCK := SetWords(junk, 0, SuperWords(Super()))];
      forall stack: seq<Word>, sealed | old(Chain(nfree, free, disk, stack, sealed)) && SUPERBLOCK !in stack
        ensures Chain(nfree, free, disk, stack, sealed)
      {
        ChainFrame(nfree, free, old(disk), disk, stack, sealed);
      }
    }
  
    /** fsck's allocator: the top of the list, or 0 when only the sentinel is left. */
    method BlkAlloc(junk: Block, ghost stack: seq<Word>) returns (newno: Word)
      requires Shaped() && Chain(nfree, free, disk, stack, true) && tfree == |stack|
      requires forall b | b in stack :: reserv + isize <= b < fsize
      modifies this`nfree, this`tfree, this`free, this`disk
      ensures Shaped()
      ensures stack == [] ==> newno == 0 && tfree == 0 && Chain(nfree, free, disk, stack, true)
      ensures stack != [] ==>
                && newno == stack[|stack| - 1] && tfree == |stack| - 1 && ReadSuper(disk[SUPERBLOCK]) == Super()
                && Chain(nfree, free, disk, stack[..|stack| - 1], true)
    {
      hide Chain, ReadSuper;
      SealedTop(nfree, free, disk, stack);
      assert forall k | 0 <= k < |stack| :: stack[k] in stack;
      nfree := nfree - 1;
      newno := free[nfree];
      if newno == 0 {
        nfree := nfree + 1;
        return 0;
      }
      if nfree == 0 {
        var buf := disk[newno];
        nfree := GetWord(buf, 0);
        free := ChainWords(buf);
      }
      tfree := tfree - 1;
      assert reserv <= newno < fsize;  // the list is never reported as corrupt
      WriteSuper(junk);
    }

    /** fsck builds the list and then allocates k times. */
    method RebuildAndDrain(k: nat, junk: Block) returns (out: seq<Word>)
      requires Shaped()
      modifies this`nfree, this`tfree, this`free, this`disk
      ensures Shaped() && |out| == k
      ensures var clear := ClearDown(bitmap, reserv + isize, fsize);
              forall n | 0 <= n < k :: out[n] == if n < |clear| then clear[|clear| - 1 - n] else 0
    {
      hide Chain, ClearDown, IsClear;
      Pass2(junk);
      ghost var clear := ClearDown(bitmap, reserv + isize, fsize);
      ClearDownIs(bitmap, reserv + isize, fsize);
      ghost var stack := clear;
      assert clear == clear[..|clear|];
      out := [];
      while |out| < k
        invariant Shaped() && |out| <= k
        invariant stack == clear[..if |out| < |clear| then |clear| - |out| else 0]
        invariant Chain(nfree, free, disk, stack, true) && tfree == |stack|
        invariant forall n | 0 <= n < |out| :: out[n] == if n < |clear| then clear[|clear| - 1 - n] else 0
      {
        forall b | b in stack ensures reserv + isize <= b < fsize {
          assert b in clear;
        }
        var newno := BlkAlloc(junk, stack);
        out := out + [newno];
        if stack != [] {
          stack := stack[..|stack| - 1];
        }
      }
    }
  }

  /** The array of a sealed list shows the sentinel exactly when nothing is left. */
  lemma SealedTop(n: Word, free: seq<Word>, disk: Store, stack: seq<Word>)
    requires Chain(n, free, disk, stack, true) && 0 !in stack
    ensures |free| == FSFREEBLOCKS && 0 < n <= FSFREEBLOCKS
    ensures free[n - 1] == 0 <==> stack == []
    ensures stack != [] ==> free[n - 1] == stack[|stack| - 1]
    ensures stack != [] && n > 1 ==> Chain(n - 1, free, disk, stack[..|stack| - 1], true)
    ensures stack != [] && n == 1 ==>
              && free[0] < |disk|
              && Chain(GetWord(disk[free[0]], 0), ChainWords(disk[free[0]]), disk, stack[..|stack| - 1], true)
  {
    if n > 1 {
      PopTop(n, free, disk, stack, true);
      assert stack[|stack| - 1] in stack;
    } else if free[0] != 0 {
      PopBottom(n, free, disk, stack, true);
    }
  }

  /** Read from the back, the list of clear blocks ascends: the order in which it drains. */
  lemma DrainsAscending(bitmap: seq<Byte>, lo: nat, hi: nat, m: nat, n: nat)
    requires lo <= hi <= 0xFFFF && hi / 8 < |bitmap| && m < n < |ClearDown(bitmap, lo, hi)|
    ensures var c := ClearDown(bitmap, lo, hi); c[|c| - 1 - m] < c[|c| - 1 - n]
  {
    ClearDownIs(bitmap, lo, hi);
  }

  lemma JustSentinel(free: seq<Word>, disk: Store, bitmap: seq<Byte>, hi: nat)
    requires |free| == FSFREEBLOCKS && free[0] == 0 && hi <= 0xFFFF && hi / 8 < |bitmap|
    ensures Chain(1, free, disk, ClearDown(bitmap, hi, hi), true) && ClearDown(bitmap, hi, hi) == []
  {
  }
}
