/** Machine words and disk blocks: a block is 512 bytes, and the kernel also reads it
    as 256 little-endian 16-bit words when it holds block numbers. */
module Blocks {
  import opened Basics

  type Word = x: int | 0 <= x < 0x1_0000

  const BUFSIZE := 512
  const WORDS_PER_BLOCK := 256

  type Block = b: seq<Byte> | |b| == 512 witness seq(512, i => 0)

  function ZeroBlock(): Block {
    seq(512, i => 0)
  }

  /** Word j of a block (the Z80 stores the low byte first). */
  function GetWord(b: Block, j: nat): (w: Word)
    requires j < 256
  {
    (b[2 * j] as int) + 256 * (b[2 * j + 1] as int)
  }

  /** The two bytes of a word in a block: the low one comes first. */
  lemma WordBytes(b: Block, j: nat, w: Word)
    requires j < 256
    ensures GetWord(b, j) == w <==> b[2 * j] == w % 256 && b[2 * j + 1] == w / 256
  {
    assert (b[2 * j] as int + 256 * (b[2 * j + 1] as int)) % 256 == b[2 * j];
  }

  function SetWord(b: Block, j: nat, w: Word): (r: Block)
    requires j < 256
    ensures GetWord(r, j) == w
    ensures forall k | 0 <= k < 256 && k != j :: GetWord(r, k) == GetWord(b, k)
  {
    b[2 * j := w % 256][2 * j + 1 := w / 256]
  }

  /** Copies the words ws to word positions from.. of a block. */
  function SetWords(b: Block, from: nat, ws: seq<Word>): (r: Block)
    requires from + |ws| <= 256
    ensures forall k | 0 <= k < 256 ::
              GetWord(r, k) == if from <= k < from + |ws| then ws[k - from] else GetWord(b, k)
    decreases |ws|
  {
    if ws == [] then b else SetWords(SetWord(b, from, ws[0]), from + 1, ws[1..])
  }

  lemma ZeroBlockWords(j: nat)
    requires j < 256
    ensures GetWord(ZeroBlock(), j) == 0
  {
  }

  /** No two positions of s hold the same value. */
  ghost predicate Distinct<T>(s: seq<T>) {
    forall i, j | 0 <= i < j < |s| :: s[i] != s[j]
  }

  ghost predicate Disjoint<T>(s: seq<T>, t: seq<T>) {
    forall x | x in s :: x !in t
  }

  lemma DistinctConcat<T>(s: seq<T>, t: seq<T>)
    requires Distinct(s) && Distinct(t) && Disjoint(s, t)
    ensures Distinct(s + t)
  {
    forall i, j | 0 <= i < j < |s + t| ensures (s + t)[i] != (s + t)[j] {
      if i < |s| <= j {
        assert s[i] in s && t[j - |s|] in t;
      }
    }
  }

  lemma DistinctSplit<T>(s: seq<T>, t: seq<T>)
    requires Distinct(s + t)
    ensures Distinct(s) && Distinct(t) && Disjoint(s, t)
  {
    forall i, j | 0 <= i < j < |s| ensures s[i] != s[j] {
      assert (s + t)[i] != (s + t)[j];
    }
    forall i, j | 0 <= i < j < |t| ensures t[i] != t[j] {
      assert (s + t)[|s| + i] != (s + t)[|s| + j];
    }
    forall i, j | 0 <= i < |s| && 0 <= j < |t| ensures s[i] != t[j] {
      assert (s + t)[i] != (s + t)[|s| + j];
    }
  }

  ghost function Elements<T>(s: seq<T>): set<T> {
    set x | x in s
  }

  lemma {:induction false} DistinctCount<T>(s: seq<T>)
    requires Distinct(s)
    ensures |Elements(s)| == |s|
  {
    if s != [] {
      var t := s[..|s| - 1];
      DistinctCount(t);
      assert s == t + [s[|s| - 1]];
      assert Elements(s) == Elements(t) + {s[|s| - 1]};
      assert s[|s| - 1] !in t;
    }
  }

  /** The integers lo, .., hi-1 as a set, and how many there are. */
  function Range(lo: int, hi: int): (r: set<int>)
    ensures forall x :: x in r <==> lo <= x < hi
    decreases hi - lo
  {
    if hi <= lo then {} else Range(lo, hi - 1) + {hi - 1}
  }

  lemma {:induction false} RangeCount(lo: int, hi: int)
    requires lo <= hi
    ensures |Range(lo, hi)| == hi - lo
    decreases hi - lo
  {
    if lo < hi {
      RangeCount(lo, hi - 1);
    }
  }

  lemma SubsetCount<T>(a: set<T>, b: set<T>)
    requires a <= b
    ensures |a| <= |b|
  {
    assert b == a + (b - a);
  }

  /** Distinct numbers drawn from [lo, hi) are at most hi - lo many. */
  lemma Pigeonhole(s: seq<int>, lo: int, hi: int)
    requires lo <= hi && Distinct(s)
    requires forall x | x in s :: lo <= x < hi
    ensures |s| <= hi - lo
  {
    DistinctCount(s);
    RangeCount(lo, hi);
    SubsetCount(Elements(s), Range(lo, hi));
  }
}
