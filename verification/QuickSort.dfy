/** qsort: quicksort with a three-way partition, in place on an array of fixed-width elements
    that are compared only through the caller's function. */
module QuickSort {
  import opened Basics

  type Elem = seq<Byte>

  // ---------- The comparison function ----------

  /** cmp orders all elements: its sign is antisymmetric and "not after" is transitive. */
  ghost predicate TotalPreorder(cmp: (Elem, Elem) -> int) {
    && (forall a, b :: cmp(a, b) < 0 <==> cmp(b, a) > 0)
    && (forall a, b, c :: cmp(a, b) <= 0 && cmp(b, c) <= 0 ==> cmp(a, c) <= 0)
  }

  ghost predicate SortedRange(cmp: (Elem, Elem) -> int, s: seq<Elem>, lo: int, hi: int)
    requires 0 <= lo <= hi <= |s|
  {
    forall i, j | lo <= i < j < hi :: cmp(s[i], s[j]) <= 0
  }

  // ---------- Rearrangements ----------

  /** s' is s with the elements of [lo, hi) in some other order. */
  ghost predicate Rearranged(s: seq<Elem>, s': seq<Elem>, lo: int, hi: int) {
    && |s'| == |s| && 0 <= lo <= hi <= |s|
    && s'[..lo] == s[..lo] && s'[hi..] == s[hi..]
    && multiset(s'[lo..hi]) == multiset(s[lo..hi])
  }

  function Swap(s: seq<Elem>, i: int, j: int): seq<Elem>
    requires 0 <= i < |s| && 0 <= j < |s|
  {
    s[i := s[j]][j := s[i]]
  }

  /** The element at r moves to p, that at q to r and that at p to q. */
  function Rotate(s: seq<Elem>, p: int, q: int, r: int): seq<Elem>
    requires 0 <= p < |s| && 0 <= q < |s| && 0 <= r < |s|
  {
    if q == r then Swap(s, p, q) else s[p := s[r]][r := s[q]][q := s[p]]
  }

  lemma SwapRearranges(s: seq<Elem>, i: int, j: int, lo: int, hi: int)
    requires 0 <= lo <= i < hi <= |s| && lo <= j < hi
    ensures Rearranged(s, Swap(s, i, j), lo, hi)
  {
    var t, t' := s[lo..hi], Swap(s, i, j)[lo..hi];
    assert t' == t[i - lo := t[j - lo]][j - lo := t[i - lo]];
    assert Swap(s, i, j)[..lo] == s[..lo] && Swap(s, i, j)[hi..] == s[hi..];
  }

  lemma RotateIs(s: seq<Elem>, p: int, q: int, r: int)
    requires 0 <= p < |s| && 0 <= q < |s| && 0 <= r < |s| && p != q && p != r && q != r
    ensures Rotate(s, p, q, r) == Swap(Swap(s, p, r), q, r)
  {
  }

  lemma RotateTwo(s: seq<Elem>, p: int, q: int)
    requires 0 <= p < |s| && 0 <= q < |s|
    ensures Rotate(s, p, q, q) == Swap(s, p, q) && |Swap(s, p, q)| == |s|
  {
  }

  lemma RotateRearranges(s: seq<Elem>, p: int, q: int, r: int, lo: int, hi: int)
    requires 0 <= lo <= p < hi <= |s| && lo <= q < hi && lo <= r < hi && p != q && p != r
    ensures Rearranged(s, Rotate(s, p, q, r), lo, hi)
  {
    hide Rearranged, Rotate, Swap;
    RotateTwo(s, p, q);
    SwapRearranges(s, p, r, lo, hi);
    if q != r {
      SwapRearranges(Swap(s, p, r), q, r, lo, hi);
      RotateIs(s, p, q, r);
      Compose(s, Swap(s, p, r), Rotate(s, p, q, r), lo, hi);
    }
  }

  lemma Compose(s: seq<Elem>, t: seq<Elem>, u: seq<Elem>, lo: int, hi: int)
    requires Rearranged(s, t, lo, hi) && Rearranged(t, u, lo, hi)
    ensures Rearranged(s, u, lo, hi)
  {
  }

  lemma Widen(s: seq<Elem>, t: seq<Elem>, lo: int, hi: int, lo': int, hi': int)
    requires Rearranged(s, t, lo, hi) && 0 <= lo' <= lo && hi <= hi' <= |s|
    ensures Rearranged(s, t, lo', hi')
  {
    assert s[lo'..hi'] == s[..lo][lo'..] + s[lo..hi] + s[hi..][..hi' - hi];
    assert t[lo'..hi'] == t[..lo][lo'..] + t[lo..hi] + t[hi..][..hi' - hi];
    assert t[..lo'] == t[..lo][..lo'] == s[..lo'];
    assert t[hi'..] == t[hi..][hi' - hi..] == s[hi'..];
  }

  /** Outside the range nothing moves; inside, every element comes from inside. */
  lemma ComesFrom(s: seq<Elem>, t: seq<Elem>, lo: int, hi: int, k: int) returns (j: int)
    requires Rearranged(s, t, lo, hi) && 0 <= k < |s|
    ensures 0 <= j < |s| && t[k] == s[j]
    ensures if lo <= k < hi then lo <= j < hi else j == k
  {
    if k < lo {
      assert t[..lo][k] == s[..lo][k];
      j := k;
    } else if k >= hi {
      assert t[hi..][k - hi] == s[hi..][k - hi];
      j := k;
    } else {
      assert t[lo..hi][k - lo] in multiset(t[lo..hi]);
      assert t[k] in s[lo..hi];
      var m :| 0 <= m < hi - lo && s[lo..hi][m] == t[k];
      j := lo + m;
    }
  }

  // ---------- Elements in memory ----------

  /** The address of element k of an array at `base`. */
  function Addr(base: nat, width: nat, k: nat): nat {
    base + k * width
  }

  function ElemAt(m: seq<Byte>, base: nat, width: nat, k: nat): Elem {
    var a := Addr(base, width, k);
    if a + width <= |m| then m[a..a + width] else []
  }

  function Elements(m: seq<Byte>, base: nat, width: nat, nel: nat): (s: seq<Elem>)
    ensures |s| == nel
  {
    seq(nel, k requires 0 <= k < nel => ElemAt(m, base, width, k))
  }

  /** The k-th element is the k-th group of width bytes from base on. */
  lemma ElementBytes(m: seq<Byte>, base: nat, width: nat, nel: nat, k: nat)
    requires k < nel && base + nel * width <= |m|
    ensures base + k * width + width <= |m|
    ensures Elements(m, base, width, nel)[k] == m[base + k * width..base + k * width + width]
  {
    Apart(base, width, k, nel);
  }

  lemma Apart(base: nat, width: nat, i: nat, j: nat)
    requires i < j
    ensures Addr(base, width, i) + width <= Addr(base, width, j)
  {
    assert (j - i - 1) * width >= 0;
  }

  /** Byte x of memory after the n bytes at p and at q changed places. */
  function SwappedByte(m: seq<Byte>, p: nat, q: nat, n: nat, x: nat): Byte
    requires p + n <= |m| && q + n <= |m| && x < |m|
  {
    if p <= x < p + n then m[q + (x - p)] else if q <= x < q + n then m[p + (x - q)] else m[x]
  }

  /** The same for three places: r to p, q to r, p to q. */
  function RotatedByte(m: seq<Byte>, p: nat, q: nat, r: nat, n: nat, x: nat): Byte
    requires p + n <= |m| && q + n <= |m| && r + n <= |m| && x < |m|
  {
    if p <= x < p + n then m[r + (x - p)]
    else if q <= x < q + n then m[p + (x - q)]
    else if r <= x < r + n then m[q + (x - r)]
    else m[x]
  }

  /** The n bytes at a and those at p are the same bytes or share none. */
  predicate Aligned(a: nat, p: nat, n: nat) {
    a == p || a + n <= p || p + n <= a
  }

  lemma SwappedChunk(m: seq<Byte>, m': seq<Byte>, p: nat, q: nat, n: nat, a: nat)
    requires p + n <= |m| && q + n <= |m| && a + n <= |m| && |m'| == |m|
    requires Aligned(a, p, n) && Aligned(a, q, n)
    requires forall x | 0 <= x < |m| :: m'[x] == SwappedByte(m, p, q, n, x)
    ensures m'[a..a + n] == if a == p then m[q..q + n] else if a == q then m[p..p + n] else m[a..a + n]
  {
  }

  lemma RotatedChunk(m: seq<Byte>, m': seq<Byte>, p: nat, q: nat, r: nat, n: nat, a: nat)
    requires p + n <= |m| && q + n <= |m| && r + n <= |m| && a + n <= |m| && |m'| == |m|
    requires Aligned(a, p, n) && Aligned(a, q, n) && Aligned(a, r, n)
    requires forall x | 0 <= x < |m| :: m'[x] == RotatedByte(m, p, q, r, n, x)
    ensures m'[a..a + n] == if a == p then m[r..r + n] else if a == q then m[p..p + n]
                            else if a == r then m[q..q + n] else m[a..a + n]
  {
  }

  lemma ElemIs(m: seq<Byte>, m': seq<Byte>, base: nat, width: nat, k: nat)
    requires |m'| == |m|
    ensures var a := Addr(base, width, k);
            a + width <= |m| ==>
              ElemAt(m, base, width, k) == m[a..a + width] && ElemAt(m', base, width, k) == m'[a..a + width]
  {
  }

  /** Swapping the bytes of two elements swaps the elements. */
  lemma SwapElements(m: seq<Byte>, m': seq<Byte>, base: nat, width: nat, nel: nat, i: nat, j: nat)
    requires width > 0 && Addr(base, width, nel) <= |m| && |m'| == |m| && i < nel && j < nel
    requires Addr(base, width, i) + width <= |m| && Addr(base, width, j) + width <= |m|
    requires forall x | 0 <= x < |m| :: m'[x] == SwappedByte(m, Addr(base, width, i), Addr(base, width, j), width, x)
    ensures Elements(m', base, width, nel) == Swap(Elements(m, base, width, nel), i, j)
  {
    hide SwappedByte, Addr;
    var s, s' := Elements(m, base, width, nel), Elements(m', base, width, nel);
    forall k | 0 <= k < nel ensures s'[k] == Swap(s, i, j)[k] {
      SwapElement(m, m', base, width, nel, i, j, k);
    }
  }

  lemma SwapElement(m: seq<Byte>, m': seq<Byte>, base: nat, width: nat, nel: nat, i: nat, j: nat, k: nat)
    requires width > 0 && Addr(base, width, nel) <= |m| && |m'| == |m| && i < nel && j < nel && k < nel
    requires Addr(base, width, i) + width <= |m| && Addr(base, width, j) + width <= |m|
    requires forall x | 0 <= x < |m| :: m'[x] == SwappedByte(m, Addr(base, width, i), Addr(base, width, j), width, x)
    ensures ElemAt(m', base, width, k) == ElemAt(m, base, width, if k == i then j else if k == j then i else k)
  {
    hide SwappedByte, Addr, ElemAt;
    ElemIs(m, m', base, width, k);
    ElemIs(m, m, base, width, i);
    ElemIs(m, m, base, width, j);
    Apart(base, width, k, nel);
    Separate(base, width, k, i);
    Separate(base, width, k, j);
    var a, p, q := Addr(base, width, k), Addr(base, width, i), Addr(base, width, j);
    assert (a == p <==> k == i) && (a == q <==> k == j);
    SwappedChunk(m, m', p, q, width, a);
  }

  lemma RotateElements(m: seq<Byte>, m': seq<Byte>, base: nat, width: nat, nel: nat, p: nat, q: nat, r: nat)
    requires width > 0 && Addr(base, width, nel) <= |m| && |m'| == |m| && p < nel && q < nel && r < nel
    requires p != q && q != r && p != r
    requires Addr(base, width, p) + width <= |m| && Addr(base, width, q) + width <= |m|
             && Addr(base, width, r) + width <= |m|
    requires forall x | 0 <= x < |m| ::
               m'[x] == RotatedByte(m, Addr(base, width, p), Addr(base, width, q), Addr(base, width, r), width, x)
    ensures Elements(m', base, width, nel) == Rotate(Elements(m, base, width, nel), p, q, r)
  {
    hide RotatedByte, Addr;
    var s, s' := Elements(m, base, width, nel), Elements(m', base, width, nel);
    forall k | 0 <= k < nel ensures s'[k] == Rotate(s, p, q, r)[k] {
      RotateElement(m, m', base, width, nel, p, q, r, k);
    }
  }

  lemma RotateElement(m: seq<Byte>, m': seq<Byte>, base: nat, width: nat, nel: nat, p: nat, q: nat, r: nat, k: nat)
    requires width > 0 && Addr(base, width, nel) <= |m| && |m'| == |m| && p < nel && q < nel && r < nel && k < nel
    requires p != q && q != r && p != r
    requires Addr(base, width, p) + width <= |m| && Addr(base, width, q) + width <= |m|
             && Addr(base, width, r) + width <= |m|
    requires forall x | 0 <= x < |m| ::
               m'[x] == RotatedByte(m, Addr(base, width, p), Addr(base, width, q), Addr(base, width, r), width, x)
    ensures ElemAt(m', base, width, k)
            == ElemAt(m, base, width, if k == p then r else if k == q then p else if k == r then q else k)
  {
    hide RotatedByte, Addr, ElemAt;
    ElemIs(m, m', base, width, k);
    ElemIs(m, m, base, width, p);
    ElemIs(m, m, base, width, q);
    ElemIs(m, m, base, width, r);
    Separate(base, width, p, q);
    Separate(base, width, q, r);
    Separate(base, width, p, r);
    Apart(base, width, k, nel);
    Separate(base, width, k, p);
    Separate(base, width, k, q);
    Separate(base, width, k, r);
    var a, b, c, d := Addr(base, width, k), Addr(base, width, p), Addr(base, width, q), Addr(base, width, r);
    assert (a == b <==> k == p) && (a == c <==> k == q) && (a == d <==> k == r);
    RotatedChunk(m, m', b, c, d, width, a);
  }

  lemma Separate(base: nat, width: nat, k: nat, i: nat)
    ensures k != i ==>
              || Addr(base, width, k) + width <= Addr(base, width, i)
              || Addr(base, width, i) + width <= Addr(base, width, k)
  {
    if k < i {
      Apart(base, width, k, i);
    } else if i < k {
      Apart(base, width, i, k);
    }
  }

  /** The bytes of two places that are equal or share no byte change places. */
  method QExchange(mem: array<Byte>, p: nat, q: nat, n: nat)
    requires p + n <= mem.Length && q + n <= mem.Length && Aligned(p, q, n)
    modifies mem
    ensures forall x | 0 <= x < mem.Length :: mem[x] == SwappedByte(old(mem[..]), p, q, n, x)
  {
    ghost var m := mem[..];
    var k := 0;
    while k < n
      invariant 0 <= k <= n
      invariant forall x | 0 <= x < mem.Length :: mem[x] == SwappedByte(m, p, q, k, x)
    {
      var c := mem[p + k];
      mem[p + k] := mem[q + k];
      mem[q + k] := c;
      k := k + 1;
    }
  }

  /** The bytes at r move to p, those at q to r and those at p to q; q and r may be the same. */
  method Q3Exchange(mem: array<Byte>, p: nat, q: nat, r: nat, n: nat)
    requires p + n <= mem.Length && q + n <= mem.Length && r + n <= mem.Length
    requires Aligned(p, q, n) && Aligned(q, r, n) && Aligned(p, r, n) && (n > 0 ==> p != q && p != r)
    modifies mem
    ensures forall x | 0 <= x < mem.Length ::
              mem[x] == if q == r then SwappedByte(old(mem[..]), p, q, n, x)
                else RotatedByte(old(mem[..]), p, q, r, n, x)
  {
    ghost var m := mem[..];
    var k := 0;
    while k < n
      invariant 0 <= k <= n
      invariant forall x | 0 <= x < mem.Length ::
                  mem[x] == if q == r then SwappedByte(m, p, q, k, x) else RotatedByte(m, p, q, r, k, x)
    {
      var c := mem[p + k];
      mem[p + k] := mem[r + k];
      mem[r + k] := mem[q + k];
      mem[q + k] := c;
      k := k + 1;
    }
  }

  // ---------- The partition ----------

  /** Around a middle interval of elements equal to the pivot: smaller ones from lo up to left,
      larger ones from right up to hi, and two stretches not looked at yet. */
  ghost predicate Parted(cmp: (Elem, Elem) -> int, s: seq<Elem>, lo: int, hi: int,
                         left: int, lefteq: int, righteq: int, right: int, pivot: Elem) {
    && 0 <= lo <= left <= lefteq <= righteq <= right < hi <= |s|
    && (forall k | lo <= k < left :: cmp(s[k], pivot) < 0)
    && (forall k | lefteq <= k <= righteq :: cmp(s[k], pivot) == 0)
    && (forall k | right < k < hi :: cmp(s[k], pivot) > 0)
  }

  /** Comparing with an element of the middle interval is comparing with the pivot. */
  lemma LikePivot(cmp: (Elem, Elem) -> int, a: Elem, e: Elem, pivot: Elem)
    requires TotalPreorder(cmp) && cmp(e, pivot) == 0
    ensures cmp(a, e) < 0 <==> cmp(a, pivot) < 0
    ensures cmp(a, e) == 0 <==> cmp(a, pivot) == 0
  {
    assert cmp(pivot, e) == 0;
    assert cmp(a, e) <= 0 ==> cmp(a, pivot) <= 0;
    assert cmp(a, pivot) <= 0 ==> cmp(a, e) <= 0;
    assert cmp(e, a) <= 0 ==> cmp(pivot, a) <= 0;
    assert cmp(pivot, a) <= 0 ==> cmp(e, a) <= 0;
  }

  /** Part way through a partition of s0. */
  ghost predicate Parting(cmp: (Elem, Elem) -> int, s0: seq<Elem>, s: seq<Elem>, lo: int, hi: int,
                          left: int, lefteq: int, righteq: int, right: int, pivot: Elem) {
    TotalPreorder(cmp) && Parted(cmp, s, lo, hi, left, lefteq, righteq, right, pivot) && Rearranged(s0, s, lo, hi)
  }

  lemma PartingBounds(cmp: (Elem, Elem) -> int, s0: seq<Elem>, s: seq<Elem>, lo: int, hi: int,
                      left: int, lefteq: int, righteq: int, right: int, pivot: Elem)
    requires Parting(cmp, s0, s, lo, hi, left, lefteq, righteq, right, pivot)
    ensures 0 <= lo <= left <= lefteq <= righteq <= right < hi <= |s| == |s0|
    ensures TotalPreorder(cmp) && cmp(s[lefteq], pivot) == 0
  {
  }

  lemma StartsParting(cmp: (Elem, Elem) -> int, s: seq<Elem>, lo: int, hi: int, mid: int)
    requires TotalPreorder(cmp) && 0 <= lo <= mid < hi <= |s|
    ensures Parting(cmp, s, s, lo, hi, lo, mid, mid, hi - 1, s[mid])
  {
    assert cmp(s[mid], s[mid]) == 0;
  }

  /** A smaller element on the left stays. */
  lemma LeftSmaller(cmp: (Elem, Elem) -> int, s0: seq<Elem>, s: seq<Elem>, lo: int, hi: int,
                    left: int, lefteq: int, righteq: int, right: int, pivot: Elem)
    requires Parting(cmp, s0, s, lo, hi, left, lefteq, righteq, right, pivot)
    requires left < lefteq && cmp(s[left], s[lefteq]) < 0
    ensures Parting(cmp, s0, s, lo, hi, left + 1, lefteq, righteq, right, pivot)
  {
    LikePivot(cmp, s[left], s[lefteq], pivot);
  }

  /** An equal element on the left joins the middle interval. */
  lemma LeftEqual(cmp: (Elem, Elem) -> int, s0: seq<Elem>, s: seq<Elem>, lo: int, hi: int,
                  left: int, lefteq: int, righteq: int, right: int, pivot: Elem)
    requires Parting(cmp, s0, s, lo, hi, left, lefteq, righteq, right, pivot)
    requires left < lefteq && cmp(s[left], s[lefteq]) == 0
    ensures Parting(cmp, s0, Swap(s, left, lefteq - 1), lo, hi, left, lefteq - 1, righteq, right, pivot)
  {
    hide TotalPreorder, Rearranged;
    LikePivot(cmp, s[left], s[lefteq], pivot);
    LeftEqualParted(cmp, s, lo, hi, left, lefteq, righteq, right, pivot);
    SwapRearranges(s, left, lefteq - 1, lo, hi);
    Compose(s0, s, Swap(s, left, lefteq - 1), lo, hi);
  }

  /** A smaller element on the right and a larger one on the left change places. */
  lemma Crossing(cmp: (Elem, Elem) -> int, s0: seq<Elem>, s: seq<Elem>, lo: int, hi: int,
                 left: int, lefteq: int, righteq: int, right: int, pivot: Elem)
    requires Parting(cmp, s0, s, lo, hi, left, lefteq, righteq, right, pivot)
    requires left < lefteq && righteq < right && cmp(s[left], s[lefteq]) > 0 && cmp(s[right], s[righteq]) < 0
    ensures Parting(cmp, s0, Swap(s, left, right), lo, hi, left + 1, lefteq, righteq, right - 1, pivot)
  {
    LikePivot(cmp, s[left], s[lefteq], pivot);
    LikePivot(cmp, s[right], s[righteq], pivot);
    SwapRearranges(s, left, right, lo, hi);
    Compose(s0, s, Swap(s, left, right), lo, hi);
  }

  /** A smaller element on the right when the left is done: the middle interval moves up. */
  lemma MiddleUp(cmp: (Elem, Elem) -> int, s0: seq<Elem>, s: seq<Elem>, lo: int, hi: int,
                 lefteq: int, righteq: int, right: int, pivot: Elem)
    requires Parting(cmp, s0, s, lo, hi, lefteq, lefteq, righteq, right, pivot)
    requires righteq < right && cmp(s[right], s[righteq]) < 0
    ensures Parting(cmp, s0, Rotate(s, lefteq, righteq + 1, right), lo, hi,
                    lefteq + 1, lefteq + 1, righteq + 1, right, pivot)
  {
    hide TotalPreorder, Rearranged;
    LikePivot(cmp, s[right], s[righteq], pivot);
    RotateRearranges(s, lefteq, righteq + 1, right, lo, hi);
    Compose(s0, s, Rotate(s, lefteq, righteq + 1, right), lo, hi);
  }

  /** An equal element on the right joins the middle interval. */
  lemma RightEqual(cmp: (Elem, Elem) -> int, s0: seq<Elem>, s: seq<Elem>, lo: int, hi: int,
                   left: int, lefteq: int, righteq: int, right: int, pivot: Elem)
    requires Parting(cmp, s0, s, lo, hi, left, lefteq, righteq, right, pivot)
    requires righteq < right && cmp(s[right], s[righteq]) == 0
    ensures Parting(cmp, s0, Swap(s, right, righteq + 1), lo, hi, left, lefteq, righteq + 1, right, pivot)
  {
    hide TotalPreorder, Rearranged;
    LikePivot(cmp, s[right], s[righteq], pivot);
    SwapRearranges(s, right, righteq + 1, lo, hi);
    Compose(s0, s, Swap(s, right, righteq + 1), lo, hi);
  }

  /** A larger element on the right stays. */
  lemma RightGreater(cmp: (Elem, Elem) -> int, s0: seq<Elem>, s: seq<Elem>, lo: int, hi: int,
                     left: int, lefteq: int, righteq: int, right: int, pivot: Elem)
    requires Parting(cmp, s0, s, lo, hi, left, lefteq, righteq, right, pivot)
    requires righteq < right && cmp(s[right], s[righteq]) > 0
    ensures Parting(cmp, s0, s, lo, hi, left, lefteq, righteq, right - 1, pivot)
  {
    LikePivot(cmp, s[right], s[righteq], pivot);
  }

  lemma LeftEqualParted(cmp: (Elem, Elem) -> int, s: seq<Elem>, lo: int, hi: int,
                        left: int, lefteq: int, righteq: int, right: int, pivot: Elem)
    requires Parted(cmp, s, lo, hi, left, lefteq, righteq, right, pivot) && left < lefteq && cmp(s[left], pivot) == 0
    ensures Parted(cmp, Swap(s, left, lefteq - 1), lo, hi, left, lefteq - 1, righteq, right, pivot)
  {
  }

  lemma MiddleDownParted(cmp: (Elem, Elem) -> int, s: seq<Elem>, lo: int, hi: int,
                         left: int, lefteq: int, righteq: int, pivot: Elem)
    requires Parted(cmp, s, lo, hi, left, lefteq, righteq, righteq, pivot) && left < lefteq && cmp(s[left], pivot) > 0
    ensures Parted(cmp, Rotate(s, righteq, lefteq - 1, left), lo, hi, left, lefteq - 1, righteq - 1, righteq - 1, pivot)
  {
  }

  /** A larger element on the left when the right is done: the middle interval moves down. */
  lemma MiddleDown(cmp: (Elem, Elem) -> int, s0: seq<Elem>, s: seq<Elem>, lo: int, hi: int,
                   left: int, lefteq: int, righteq: int, pivot: Elem)
    requires Parting(cmp, s0, s, lo, hi, left, lefteq, righteq, righteq, pivot)
    requires left < lefteq && cmp(s[left], s[lefteq]) > 0
    ensures Parting(cmp, s0, Rotate(s, righteq, lefteq - 1, left), lo, hi,
                    left, lefteq - 1, righteq - 1, righteq - 1, pivot)
  {
    hide TotalPreorder, Rearranged, Parted, Rotate;
    PartingBounds(cmp, s0, s, lo, hi, left, lefteq, righteq, righteq, pivot);
    LikePivot(cmp, s[left], s[lefteq], pivot);
    MiddleDownParted(cmp, s, lo, hi, left, lefteq, righteq, pivot);
    RotateRearranges(s, righteq, lefteq - 1, left, lo, hi);
    Compose(s0, s, Rotate(s, righteq, lefteq - 1, left), lo, hi);
  }

  class Sorter {
    const mem: array<Byte>
    const base: nat
    const width: nat
    const nel: nat
    const qcompar: (Elem, Elem) -> int

    constructor (mem: array<Byte>, base: nat, width: nat, nel: nat, compar: (Elem, Elem) -> int)
      ensures this.mem == mem && this.base == base && this.width == width && this.nel == nel && qcompar == compar
    {
      this.mem, this.base, this.width, this.nel, this.qcompar := mem, base, width, nel, compar;
    }

    ghost predicate Valid() {
      width > 0 && Addr(base, width, nel) <= mem.Length && TotalPreorder(qcompar)
    }

    ghost function Elems(): (s: seq<Elem>)
      reads mem
      ensures |s| == nel
    {
      Elements(mem[..], base, width, nel)
    }

    /** Bytes that do not belong to the array of elements are untouched. */
    twostate predicate OutsideKept()
      reads mem
    {
      forall x | 0 <= x < mem.Length && (x < base || Addr(base, width, nel) <= x) :: mem[x] == old(mem[x])
    }

    method Compare(i: nat, j: nat) returns (c: int)
      requires Valid() && i < nel && j < nel
      ensures c == qcompar(Elems()[i], Elems()[j])
    {
      Apart(base, width, i, nel);
      Apart(base, width, j, nel);
      c := qcompar(mem[Addr(base, width, i)..Addr(base, width, i) + width],
                   mem[Addr(base, width, j)..Addr(base, width, j) + width]);
    }

    method Exchange(i: nat, j: nat)
      requires Valid() && i < nel && j < nel
      modifies mem
      ensures Elems() == Swap(old(Elems()), i, j) && OutsideKept()
    {
      hide SwappedByte, Swap, Elements;
      ghost var m := mem[..];
      Apart(base, width, i, nel);
      Apart(base, width, j, nel);
      Separate(base, width, i, j);
      QExchange(mem, Addr(base, width, i), Addr(base, width, j), width);
      SwapElements(m, mem[..], base, width, nel, i, j);
      SwapOutside(m, mem[..], base, width, nel, i, j);
    }

    method Exchange3(p: nat, q: nat, r: nat)
      requires Valid() && p < nel && q < nel && r < nel && p != q && p != r
      modifies mem
      ensures Elems() == Rotate(old(Elems()), p, q, r) && OutsideKept()
    {
      hide SwappedByte, RotatedByte, Swap, Rotate, Elements;
      ghost var m := mem[..];
      Apart(base, width, p, nel);
      Apart(base, width, q, nel);
      Apart(base, width, r, nel);
      Separate(base, width, p, q);
      Separate(base, width, q, r);
      Separate(base, width, p, r);
      Q3Exchange(mem, Addr(base, width, p), Addr(base, width, q), Addr(base, width, r), width);
      if q == r {
        SwapElements(m, mem[..], base, width, nel, p, q);
        SwapOutside(m, mem[..], base, width, nel, p, q);
        RotateTwo(Elements(m, base, width, nel), p, q);
      } else {
        RotateElements(m, mem[..], base, width, nel, p, q, r);
        RotateOutside(m, mem[..], base, width, nel, p, q, r);
      }
    }
  
    /** The partition of [lo, hi) in qsort1, from the choice of the middle element to the end
        of its two scans. */
    method Partition(lo: nat, hi: nat) returns (lefteq: nat, righteq: nat, ghost pivot: Elem)
      requires Valid() && lo + 1 < hi <= nel
      modifies mem
      ensures OutsideKept()
      ensures Parting(qcompar, old(Elems()), Elems(), lo, hi, lefteq, lefteq, righteq, righteq, pivot)
    {
      hide Parting, TotalPreorder, Swap, Rotate, Addr;
      var left, right := lo, hi - 1;
      lefteq := lo + (hi - lo) / 2;
      righteq := lefteq;
      ghost var s0 := Elems();
      pivot := s0[lefteq];
      StartsParting(qcompar, s0, lo, hi, lefteq);
      while true
        invariant lo <= left <= lefteq <= righteq <= right < hi && OutsideKept()
        invariant Parting(qcompar, s0, Elems(), lo, hi, left, lefteq, righteq, right, pivot)
        decreases lefteq - left + right - righteq
      {
        left, lefteq := ScanLeft(lo, hi, left, lefteq, righteq, right, s0, pivot);
        var again;
        left, lefteq, righteq, right, again := ScanRight(lo, hi, left, lefteq, righteq, right, s0, pivot);
        if !again {
          if left == lefteq {
            return;
          }
          MiddleDown(qcompar, s0, Elems(), lo, hi, left, lefteq, righteq, pivot);
          lefteq := lefteq - 1;
          Exchange3(right, lefteq, left);
          righteq := righteq - 1;
          right := righteq;
        }
      }
    }

    /** The first scan: stops at an element larger than the middle ones. */
    method ScanLeft(lo: nat, hi: nat, left0: nat, lefteq0: nat, righteq: nat, right: nat, ghost s0: seq<Elem>,
        ghost pivot: Elem)
      returns (left: nat, lefteq: nat)
      requires Valid() && lo <= left0 <= lefteq0 <= righteq <= right < hi <= nel
      requires Parting(qcompar, s0, Elems(), lo, hi, left0, lefteq0, righteq, right, pivot)
      modifies mem
      ensures OutsideKept()
      ensures left0 <= left <= lefteq <= lefteq0
      ensures Parting(qcompar, s0, Elems(), lo, hi, left, lefteq, righteq, right, pivot)
      ensures left < lefteq ==> qcompar(Elems()[left], Elems()[lefteq]) > 0
    {
      hide Parting, TotalPreorder, Swap, Addr, Elements;
      left, lefteq := left0, lefteq0;
      while left < lefteq
        invariant left0 <= left <= lefteq <= lefteq0 && OutsideKept()
        invariant Parting(qcompar, s0, Elems(), lo, hi, left, lefteq, righteq, right, pivot)
        decreases lefteq - left
      {
        var cmp := Compare(left, lefteq);
        if cmp > 0 {
          return;
        }
        if cmp < 0 {
          LeftSmaller(qcompar, s0, Elems(), lo, hi, left, lefteq, righteq, right, pivot);
          left := left + 1;
        } else {
          LeftEqual(qcompar, s0, Elems(), lo, hi, left, lefteq, righteq, right, pivot);
          lefteq := lefteq - 1;
          Exchange(left, lefteq);
        }
      }
    }

    /** The second scan: stops when it has used up the larger element on the left, or when no
        element is left on the right. */
    method ScanRight(lo: nat, hi: nat, left0: nat, lefteq0: nat, righteq0: nat, right0: nat, ghost s0: seq<Elem>,
        ghost pivot: Elem)
      returns (left: nat, lefteq: nat, righteq: nat, right: nat, again: bool)
      requires Valid() && lo <= left0 <= lefteq0 <= righteq0 <= right0 < hi <= nel
      requires Parting(qcompar, s0, Elems(), lo, hi, left0, lefteq0, righteq0, right0, pivot)
      requires left0 < lefteq0 ==> qcompar(Elems()[left0], Elems()[lefteq0]) > 0
      modifies mem
      ensures OutsideKept()
      ensures lo <= left <= lefteq <= righteq <= right < hi
      ensures lefteq - left + right - righteq <= lefteq0 - left0 + right0 - righteq0
      ensures again ==> lefteq - left + right - righteq < lefteq0 - left0 + right0 - righteq0
      ensures Parting(qcompar, s0, Elems(), lo, hi, left, lefteq, righteq, right, pivot)
      ensures !again ==> right == righteq && (left < lefteq ==> qcompar(Elems()[left], Elems()[lefteq]) > 0)
    {
      hide Parting, TotalPreorder, Addr, Elements;
      left, lefteq, righteq, right := left0, lefteq0, righteq0, right0;
      while right > righteq
        invariant lo <= left <= lefteq <= righteq <= right < hi && OutsideKept()
        invariant lefteq - left + right - righteq <= lefteq0 - left0 + right0 - righteq0
        invariant Parting(qcompar, s0, Elems(), lo, hi, left, lefteq, righteq, right, pivot)
        invariant left < lefteq ==> qcompar(Elems()[left], Elems()[lefteq]) > 0
        decreases right - righteq
      {
        var cmp := Compare(right, righteq);
        if cmp < 0 {
          if left < lefteq {
            Crossing(qcompar, s0, Elems(), lo, hi, left, lefteq, righteq, right, pivot);
            Exchange(left, right);
            left := left + 1;
            right := right - 1;
            return left, lefteq, righteq, right, true;
          }
          MiddleUp(qcompar, s0, Elems(), lo, hi, lefteq, righteq, right, pivot);
          righteq := righteq + 1;
          Exchange3(left, righteq, right);
          lefteq := lefteq + 1;
          left := lefteq;
        } else if cmp == 0 {
          RightEqual(qcompar, s0, Elems(), lo, hi, left, lefteq, righteq, right, pivot);
          righteq := righteq + 1;
          Exchange(right, righteq);
        } else {
          RightGreater(qcompar, s0, Elems(), lo, hi, left, lefteq, righteq, right, pivot);
          right := right - 1;
        }
      }
      again := false;
    }
  
    /** qsort1 on [lo, hi): the part below the middle interval by recursion, the part above it
        in the next turn of the loop. */
    method QSort1(lo: nat, hi: nat)
      requires Valid() && lo <= hi <= nel
      modifies mem
      ensures OutsideKept()
      ensures Rearranged(old(Elems()), Elems(), lo, hi) && SortedRange(qcompar, Elems(), lo, hi)
      decreases hi - lo
    {
      hide Parting, TotalPreorder, Addr, Elements, Rearranged;
      var a1 := lo;
      ghost var s0 := Elems();
      NothingDone(qcompar, s0, lo, hi);
      while true
        invariant lo <= a1 <= hi && OutsideKept()
        invariant Done(qcompar, s0, Elems(), lo, hi, a1)
        decreases hi - a1
      {
        if hi <= a1 + 1 {
          AllDone(qcompar, s0, Elems(), lo, hi, a1);
          return;
        }
        ghost var s := Elems();
        var lefteq, righteq, pivot := Partition(a1, hi);
        ghost var s1 := Elems();
        InBounds(qcompar, s, s1, a1, hi, lefteq, righteq, pivot);
        QSort1(a1, lefteq);
        OneMoreTurn(qcompar, s0, s, s1, Elems(), lo, hi, a1, lefteq, righteq, pivot);
        a1 := righteq + 1;
      }
    }
  }

  /** [lo, a1) is sorted and nothing in it is larger than anything in [a1, hi). */
  ghost predicate Done(cmp: (Elem, Elem) -> int, s0: seq<Elem>, s: seq<Elem>, lo: int, hi: int, a1: int) {
    && TotalPreorder(cmp) && Rearranged(s0, s, lo, hi) && lo <= a1 <= hi
    && SortedRange(cmp, s, lo, a1)
    && forall i, j | lo <= i < a1 <= j < hi :: cmp(s[i], s[j]) <= 0
  }

  lemma NothingDone(cmp: (Elem, Elem) -> int, s: seq<Elem>, lo: int, hi: int)
    requires TotalPreorder(cmp) && 0 <= lo <= hi <= |s|
    ensures Done(cmp, s, s, lo, hi, lo)
  {
  }

  lemma AllDone(cmp: (Elem, Elem) -> int, s0: seq<Elem>, s: seq<Elem>, lo: int, hi: int, a1: int)
    requires Done(cmp, s0, s, lo, hi, a1) && hi <= a1 + 1
    ensures Rearranged(s0, s, lo, hi) && SortedRange(cmp, s, lo, hi)
  {
  }

  lemma InBounds(cmp: (Elem, Elem) -> int, s0: seq<Elem>, s: seq<Elem>, lo: int, hi: int, lefteq: int, righteq: int,
      pivot: Elem)
    requires Parting(cmp, s0, s, lo, hi, lefteq, lefteq, righteq, righteq, pivot)
    ensures 0 <= lo <= lefteq <= righteq < hi <= |s|
  {
  }

  /** One turn: s is partitioned into s1, whose lower part is then sorted to give s2. */
  lemma OneMoreTurn(cmp: (Elem, Elem) -> int, s0: seq<Elem>, s: seq<Elem>, s1: seq<Elem>, s2: seq<Elem>,
                    lo: int, hi: int, a1: int, lefteq: int, righteq: int, pivot: Elem)
    requires Done(cmp, s0, s, lo, hi, a1) && Parting(cmp, s, s1, a1, hi, lefteq, lefteq, righteq, righteq, pivot)
    requires Rearranged(s1, s2, a1, lefteq) && SortedRange(cmp, s2, a1, lefteq)
    ensures Done(cmp, s0, s2, lo, hi, righteq + 1)
  {
    Widen(s1, s2, a1, lefteq, a1, hi);
    Compose(s, s1, s2, a1, hi);
    Widen(s, s2, a1, hi, lo, hi);
    Compose(s0, s, s2, lo, hi);
    forall i, j | lo <= i < j < hi && i <= righteq ensures cmp(s2[i], s2[j]) <= 0 {
      Ordered(cmp, s0, s, s1, s2, lo, hi, a1, lefteq, righteq, pivot, i, j);
    }
  }

  /** Every element placed so far is in order with everything after it. */
  lemma Ordered(cmp: (Elem, Elem) -> int, s0: seq<Elem>, s: seq<Elem>, s1: seq<Elem>, s2: seq<Elem>,
                lo: int, hi: int, a1: int, lefteq: int, righteq: int, pivot: Elem, i: int, j: int)
    requires Done(cmp, s0, s, lo, hi, a1) && Parting(cmp, s, s1, a1, hi, lefteq, lefteq, righteq, righteq, pivot)
    requires Rearranged(s1, s2, a1, lefteq) && SortedRange(cmp, s2, a1, lefteq) && Rearranged(s, s2, a1, hi)
    requires lo <= i < j < hi && i <= righteq
    ensures cmp(s2[i], s2[j]) <= 0
  {
    if i < a1 {
      var i' := ComesFrom(s, s2, a1, hi, i);
      var j' := ComesFrom(s, s2, a1, hi, j);
      assert i' == i;
    } else if j >= lefteq {
      var i' := ComesFrom(s1, s2, a1, lefteq, i);
      var j' := ComesFrom(s1, s2, a1, lefteq, j);
      assert j' == j;
      assert cmp(s1[i'], pivot) <= 0;
      assert cmp(pivot, s1[j]) <= 0;
    }
  }

  lemma SwapOutside(m: seq<Byte>, m': seq<Byte>, base: nat, width: nat, nel: nat, i: nat, j: nat)
    requires Addr(base, width, nel) <= |m| && |m'| == |m| && i < nel && j < nel
    requires Addr(base, width, i) + width <= Addr(base, width, nel)
             && Addr(base, width, j) + width <= Addr(base, width, nel)
    requires forall x | 0 <= x < |m| :: m'[x] == SwappedByte(m, Addr(base, width, i), Addr(base, width, j), width, x)
    ensures forall x | 0 <= x < |m| && (x < base || Addr(base, width, nel) <= x) :: m'[x] == m[x]
  {
    assert Addr(base, width, i) >= base && Addr(base, width, j) >= base;
    hide Addr;
  }

  lemma RotateOutside(m: seq<Byte>, m': seq<Byte>, base: nat, width: nat, nel: nat, p: nat, q: nat, r: nat)
    requires Addr(base, width, nel) <= |m| && |m'| == |m| && p < nel && q < nel && r < nel
    requires Addr(base, width, p) + width <= Addr(base, width, nel)
             && Addr(base, width, q) + width <= Addr(base, width, nel)
    requires Addr(base, width, r) + width <= Addr(base, width, nel)
    requires forall x | 0 <= x < |m| ::
               m'[x] == RotatedByte(m, Addr(base, width, p), Addr(base, width, q), Addr(base, width, r), width, x)
    ensures forall x | 0 <= x < |m| && (x < base || Addr(base, width, nel) <= x) :: m'[x] == m[x]
  {
    assert Addr(base, width, p) >= base && Addr(base, width, q) >= base && Addr(base, width, r) >= base;
    hide Addr;
  }

  /** qsort: the elements at base are put in the order of compar; they are a permutation of
      what was there, and no other byte of memory changes. */
  method QSort(mem: array<Byte>, base: nat, nel: nat, width: nat, compar: (Elem, Elem) -> int)
    requires width > 0 && Addr(base, width, nel) <= mem.Length && TotalPreorder(compar)
    modifies mem
    ensures var s, s' := Elements(old(mem[..]), base, width, nel), Elements(mem[..], base, width, nel);
            && multiset(s') == multiset(s)
            && forall i, j | 0 <= i < j < nel :: compar(s'[i], s'[j]) <= 0
    ensures forall x | 0 <= x < mem.Length && (x < base || Addr(base, width, nel) <= x) :: mem[x] == old(mem[x])
  {
    var sorter := new Sorter(mem, base, width, nel, compar);
    if nel == 0 {
      return;
    }
    sorter.QSort1(0, nel);
    assert sorter.Elems()[0..nel] == sorter.Elems();
    assert old(Elements(mem[..], base, width, nel))[0..nel] == old(Elements(mem[..], base, width, nel));
  }
}
