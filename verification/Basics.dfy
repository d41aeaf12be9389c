/** What every part of the project uses. */
module Basics {
  /** An 8-bit value: a char of the source. */
  type Byte = x: int | 0 <= x < 256

  /** A slice of a slice. */
  lemma SliceTake<T>(s: seq<T>, from: nat, n: nat, k: nat)
    requires k <= n && from + n <= |s|
    ensures s[from..from + n][..k] == s[from..from + k]
  {
  }

  /** What the split n from the end becomes when the last element goes, */
  lemma SplitShorter<T>(s: seq<T>, n: nat)
    requires 0 < n <= |s|
    ensures s[..|s| - 1][|s| - n..] == s[|s| - n..][..n - 1]
    ensures s[..|s| - 1][..|s| - n] == s[..|s| - n]
  {
  }

  /** and when one more comes. */
  lemma SplitLonger<T>(s: seq<T>, n: nat, x: T)
    requires n <= |s|
    ensures (s + [x])[|s| - n..] == s[|s| - n..] + [x]
    ensures (s + [x])[..|s| - n] == s[..|s| - n]
  {
  }

  lemma ConcatAssoc<T>(a: seq<T>, b: seq<T>, c: seq<T>)
    ensures (a + b) + c == a + (b + c)
  {
  }
}
