/** The free-block list. Up to 50 block numbers sit in the superblock; when that array
    overflows it is copied into the block being freed, which becomes its bottom entry.
    `Chain` says that such a structure represents one plain stack of block numbers. */
module FreeChain {
  import opened Basics
  import opened Blocks

  const FSFREEBLOCKS := 50

  type Store = seq<Block>

  /** The 50 list entries saved in a chain block, after the count in word 0. */
  function ChainWords(b: Block): (ws: seq<Word>)
    ensures |ws| == FSFREEBLOCKS
  {
    seq(FSFREEBLOCKS, k requires 0 <= k < FSFREEBLOCKS => GetWord(b, k + 1))
  }

  /** The superblock array (n entries of free) and the chain blocks behind it represent
      `stack`, whose last element is the next block to be allocated. A sealed list ends in
      an entry 0 below every block; an unsealed one ends in a chain block whose count is 0. */
  ghost predicate Chain(n: Word, free: seq<Word>, store: Store, stack: seq<Word>, sealed: bool)
    decreases |stack|
  {
    && |free| == FSFREEBLOCKS
    && n <= FSFREEBLOCKS
    && if n == 0 then
         !sealed && stack == []
       else if free[0] == 0 then
         sealed && stack == free[1..n]
       else
         && n <= |stack|
         && stack[|stack| - n..] == free[..n]
         && free[0] < |store|
         && Chain(GetWord(store[free[0]], 0), ChainWords(store[free[0]]), store,
                  stack[..|stack| - n], sealed)
  }

  /** The chain depends only on the contents of the free blocks themselves. */
  lemma {:induction false} ChainFrame(n: Word, free: seq<Word>, store: Store, store': Store,
                                      stack: seq<Word>, sealed: bool)
    requires Chain(n, free, store, stack, sealed)
    requires |store| == |store'|
    requires forall b | b in stack && b < |store| :: store'[b] == store[b]
    ensures Chain(n, free, store', stack, sealed)
    decreases |stack|
  {
    if n != 0 && free[0] != 0 {
      assert free[0] == free[..n][0] == stack[|stack| - n];
      ChainFrame(GetWord(store[free[0]], 0), ChainWords(store[free[0]]), store, store',
                 stack[..|stack| - n], sealed);
    }
  }

  /** One superblock array and one store represent at most one stack, so "the" free stack
      of a volume is well defined. */
  lemma {:induction false} ChainUnique(n: Word, free: seq<Word>, store: Store,
                                       s: seq<Word>, a: bool, t: seq<Word>, b: bool)
    requires Chain(n, free, store, s, a) && Chain(n, free, store, t, b)
    ensures s == t && a == b
    decreases |s|
  {
    if n != 0 && free[0] != 0 {
      ChainUnique(GetWord(store[free[0]], 0), ChainWords(store[free[0]]), store,
                  s[..|s| - n], a, t[..|t| - n], b);
      assert s == s[..|s| - n] + s[|s| - n..];
      assert t == t[..|t| - n] + t[|t| - n..];
    }
  }

  /** An unsealed list that stands for some block has a bottom entry, which is not 0. */
  lemma NonEmpty(n: Word, free: seq<Word>, store: Store, stack: seq<Word>)
    requires Chain(n, free, store, stack, false) && stack != []
    ensures 0 < n <= |stack| && |free| == FSFREEBLOCKS && n <= FSFREEBLOCKS && 0 != free[0] < |store|
    ensures stack[|stack| - n..] == free[..n]
  {
  }

  /** The top part of a list, and the rest of it in the block of the bottom entry. */
  lemma ChainStep(n: Word, free: seq<Word>, store: Store, stack: seq<Word>, sealed: bool)
    requires 0 < n <= |stack| && |free| == FSFREEBLOCKS && n <= FSFREEBLOCKS && 0 != free[0] < |store|
    ensures Chain(n, free, store, stack, sealed) <==>
              && stack[|stack| - n..] == free[..n]
              && Chain(GetWord(store[free[0]], 0), ChainWords(store[free[0]]), store, stack[..|stack| - n], sealed)
  {
  }

  /** What the words of a block must be for it to read as an empty list. */
  lemma EmptyChain(b: Block, store: Store, sealed: bool)
    ensures Chain(GetWord(b, 0), ChainWords(b), store, [], sealed) <==>
              if sealed then GetWord(b, 0) == 1 && GetWord(b, 1) == 0 else GetWord(b, 0) == 0
  {
    assert ChainWords(b)[0] == GetWord(b, 1);
  }

  /** Popping an entry that is not the bottom one. */
  lemma PopTop(n: Word, free: seq<Word>, store: Store, stack: seq<Word>, sealed: bool)
    requires Chain(n, free, store, stack, sealed) && n > 1
    ensures |stack| > 0 && free[n - 1] == stack[|stack| - 1]
    ensures Chain(n - 1, free, store, stack[..|stack| - 1], sealed)
  {
    if free[0] == 0 {
      assert free[1..n][..n - 2] == free[1..n - 1];
    } else {
      var rest := stack[..|stack| - 1];
      assert stack[|stack| - n..][n - 1] == free[n - 1];
      SplitShorter(stack, n);
      SliceTake(free, 0, n, n - 1);
      assert |rest| - (n - 1) == |stack| - n;
    }
  }

  /** Popping the bottom entry: the array saved in that block is the list for the rest. */
  lemma PopBottom(n: Word, free: seq<Word>, store: Store, stack: seq<Word>, sealed: bool)
    requires Chain(n, free, store, stack, sealed) && n == 1 && free[0] != 0
    ensures |stack| > 0 && free[0] == stack[|stack| - 1] && free[0] < |store|
    ensures Chain(GetWord(store[free[0]], 0), ChainWords(store[free[0]]), store,
                  stack[..|stack| - 1], sealed)
  {
    assert stack[|stack| - 1..][0] == free[..1][0];
  }

  /** Pushing into an array that has room. */
  lemma PushRoom(n: Word, free: seq<Word>, store: Store, stack: seq<Word>, sealed: bool, blk: Word)
    requires Chain(n, free, store, stack, sealed) && 0 < n < FSFREEBLOCKS
    ensures Chain(n + 1, free[n := blk], store, stack + [blk], sealed)
  {
    var free', stack' := free[n := blk], stack + [blk];
    if free[0] == 0 {
      assert free'[1..n + 1] == free[1..n] + [blk];
    } else {
      SplitLonger(stack, n, blk);
      assert free'[..n + 1] == free[..n] + [blk];
      assert |stack'| - (n + 1) == |stack| - n;
    }
  }

  /** Pushing onto a full array after saving it in the freed block itself. */
  lemma PushSpill(n: Word, free: seq<Word>, store: Store, stack: seq<Word>, sealed: bool,
                  blk: Word, store': Store, free': seq<Word>)
    requires Chain(n, free, store, stack, sealed)
    requires 0 != blk < |store| && |store'| == |store| && blk !in stack
    requires GetWord(store'[blk], 0) == n
    requires forall k | 0 <= k < FSFREEBLOCKS :: GetWord(store'[blk], k + 1) == free[k]
    requires forall b | 0 <= b < |store| && b != blk :: store'[b] == store[b]
    requires |free'| == FSFREEBLOCKS && free'[0] == blk
    ensures Chain(1, free', store', stack + [blk], sealed)
  {
    assert |free| == FSFREEBLOCKS && ChainWords(store'[blk]) == free;
    hide Chain, GetWord, ChainWords;
    ChainFrame(n, free, store, store', stack, sealed);
    var stack' := stack + [blk];
    assert stack'[..|stack'| - 1] == stack;
    assert stack'[|stack'| - 1..] == [blk] == free'[..1];
    ChainStep(1, free', store', stack', sealed);
  }

  /** A list whose bottom was an all-used chain block (count 0) is left without a bottom
      once it is drained. The next block freed becomes the bottom entry, and blk_free does
      not clear it: the result represents the stack [blk] exactly when the stale contents of
      that block happen to read as an empty list, with or without a sentinel. */
  lemma PushDrained(free: seq<Word>, store: Store, blk: Word)
    requires |free| == FSFREEBLOCKS && 0 != blk < |store|
    ensures Chain(0, free, store, [], false)
    ensures Chain(1, free[0 := blk], store, [blk], false) <==> GetWord(store[blk], 0) == 0
    ensures Chain(1, free[0 := blk], store, [blk], true)
            <==> GetWord(store[blk], 0) == 1 && GetWord(store[blk], 1) == 0
  {
    assert [blk][..0] == [];
    assert [blk][0..] == [blk] == free[0 := blk][..1];
    var ws := ChainWords(store[blk]);
    assert ws[0] == GetWord(store[blk], 1);
    assert ws[1..1] == [];
  }

  /** The words of an empty chain block, without or with a sentinel. */
  predicate Suits(b: Block) {
    GetWord(b, 0) == 0 || (GetWord(b, 0) == 1 && GetWord(b, 1) == 0)
  }

  /** A list whose bottom entry is block b, in order if b were all zeros. It can only be read as a list
      of that many blocks in one way, and that it can exactly if b suits, with a sentinel or without. */
  lemma {:induction false} StrayChain(n: Word, free: seq<Word>, store: Store, stack: seq<Word>, b: Word,
                                      st: seq<Word>, se: bool)
    requires b < |store| && Distinct(stack) && stack != [] && stack[0] == b && |st| == |stack|
    requires Chain(n, free, store[b := ZeroBlock()], stack, false)
    ensures Chain(n, free, store, st, se) <==>
              && st == stack
              && if se then GetWord(store[b], 0) == 1 && GetWord(store[b], 1) == 0 else GetWord(store[b], 0) == 0
    decreases |stack|
  {
    hide Chain, GetWord, ChainWords;
    var store' := store[b := ZeroBlock()];
    NonEmpty(n, free, store', stack);
    ChainStep(n, free, store', stack, false);
    ChainStep(n, free, store, st, se);
    var low, low' := stack[..|stack| - n], st[..|stack| - n];
    assert free[0] == free[..n][0] == stack[|stack| - n];
    assert st == low' + st[|stack| - n..] && stack == low + stack[|stack| - n..];
    if n < |stack| {
      assert store'[free[0]] == store[free[0]];
      StrayChain(GetWord(store[free[0]], 0), ChainWords(store[free[0]]), store, low, b, low', se);
    } else {
      assert low == low' == [];
      EmptyChain(store[b], store, se);
    }
  }

  /** Only the first n entries of the array count. */
  lemma ChainPrefix(n: Word, free: seq<Word>, free': seq<Word>, store: Store, stack: seq<Word>, sealed: bool)
    requires Chain(n, free, store, stack, sealed) && |free'| == FSFREEBLOCKS && free'[..n] == free[..n]
    ensures Chain(n, free', store, stack, sealed)
  {
    if n != 0 {
      assert free'[0] == free'[..n][0] == free[..n][0];
      assert free'[1..n] == free'[..n][1..] && free[1..n] == free[..n][1..];
    }
  }
}
