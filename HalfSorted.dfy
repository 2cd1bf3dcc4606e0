/**
 * The half-sorted list of hw6/hw6.py: negatives, zeros and positives in
 * that order (the negatives and positives each in any order). `find_zero`
 * locates a zero by halving an index range; three in-place sorts of a
 * range `[left, right)` of a list; and `sort_halfsorted`, which sorts the
 * two sides of the zero with one of them.
 */
module HalfSorted {
  import opened Util
  import opened Seqs
  import MagicSort

  function Sign(x: int): int
  {
    if x < 0 then -1 else if x == 0 then 0 else 1
  }

  /** Negatives, then zeros, then positives. */
  predicate SignOrdered(s: seq<int>)
  {
    forall i, j :: 0 <= i < j < |s| ==> Sign(s[i]) <= Sign(s[j])
  }

  predicate AllNegative(s: seq<int>)
  {
    forall k :: 0 <= k < |s| ==> s[k] < 0
  }

  // ---------------------------------------------------------------------------
  // find_zero

  /**
   * `find_zero` as written. The loop indexes `L[median]` before it tests
   * `median == high`; on a list with no zero and no positive the range
   * closes at `len(L)`, so the index is out of range and an IndexError
   * escapes where None was meant.
   */
  method FindZero(L: seq<int>) returns (r: Result<Option<nat>>)
    ensures r.Ok? && r.value.Some? ==> r.value.value < |L| && L[r.value.value] == 0
    ensures r.Err? ==> r.error == IndexError
    ensures SignOrdered(L) && 0 in L ==> r.Ok? && r.value.Some?
    ensures SignOrdered(L) && 0 !in L && !AllNegative(L) ==> r == Ok(None)
    ensures SignOrdered(L) && AllNegative(L) ==> r == Err(IndexError)
  {
    var low, high := 0, |L|;
    while true
      invariant 0 <= low <= high <= |L|
      invariant SignOrdered(L) ==> forall k :: 0 <= k < low ==> L[k] < 0
      invariant SignOrdered(L) ==> forall k :: high <= k < |L| ==> L[k] > 0
      decreases high - low
    {
      var median := (low + high) / 2;
      if median >= |L| {
        return Err(IndexError);
      }
      if L[median] == 0 {
        return Ok(Some(median));
      } else if median == high {
        return Ok(None);
      } else if L[median] < 0 {
        low := median + 1;
      } else {
        high := median;
      }
    }
  }

  /** `find_zero` with `median == high` tested before indexing: None whenever there is no zero. */
  method FindZeroChecked(L: seq<int>) returns (r: Option<nat>)
    ensures r.Some? ==> r.value < |L| && L[r.value] == 0
    ensures SignOrdered(L) ==> (r.Some? <==> 0 in L)
  {
    var low, high := 0, |L|;
    while true
      invariant 0 <= low <= high <= |L|
      invariant SignOrdered(L) ==> forall k :: 0 <= k < low ==> L[k] < 0
      invariant SignOrdered(L) ==> forall k :: high <= k < |L| ==> L[k] > 0
      decreases high - low
    {
      var median := (low + high) / 2;
      if median == high {
        return None;
      } else if L[median] == 0 {
        return Some(median);
      } else if L[median] < 0 {
        low := median + 1;
      } else {
        high := median;
      }
    }
  }

  /** All negative, no zero: the loop as written indexes past the end; the corrected one says None. */
  method AllNegativeRaises() returns (r: Result<Option<nat>>, c: Option<nat>)
    ensures r == Err(IndexError) && c == None
  {
    assert SignOrdered([-1, -2]) && AllNegative([-1, -2]);
    r := FindZero([-1, -2]);
    c := FindZeroChecked([-1, -2]);
  }

  /** With a positive after the negatives the range closes inside the list and None comes back. */
  method NoZeroWithPositive() returns (r: Result<Option<nat>>)
    ensures r == Ok(None)
  {
    var L := [-1, -1, -2, 7];
    assert SignOrdered(L) && L[3] > 0;
    r := FindZero(L);
  }

  /** The only zero is the index found. */
  method SingleZero() returns (r: Result<Option<nat>>)
    ensures r == Ok(Some(3))
  {
    var L := [-1, -2, -69, 0, 2, 3];
    assert SignOrdered(L) && L[3] == 0;
    r := FindZero(L);
    assert L[r.value.value] == 0;
  }

  // ---------------------------------------------------------------------------
  // Range sorts

  /** A bound on every element of a range still holds after the range is permuted. */
  lemma AtMostPermuted(s: seq<int>, t: seq<int>, lo: int, hi: int, m: int)
    requires PermutedWithin(s, t, lo, hi)
    requires forall k :: lo <= k < hi ==> s[k] <= m
    ensures forall k :: lo <= k < hi ==> t[k] <= m
  {
    forall k | lo <= k < hi
      ensures t[k] <= m
    {
      assert t[k] == t[lo..hi][k - lo];
      assert t[k] in multiset(s[lo..hi]);
      var j :| 0 <= j < hi - lo && s[lo..hi][j] == t[k];
      assert s[lo + j] == t[k];
    }
  }

  lemma AtLeastPermuted(s: seq<int>, t: seq<int>, lo: int, hi: int, m: int)
    requires PermutedWithin(s, t, lo, hi)
    requires forall k :: lo <= k < hi ==> m <= s[k]
    ensures forall k :: lo <= k < hi ==> m <= t[k]
  {
    forall k | lo <= k < hi
      ensures m <= t[k]
    {
      assert t[k] == t[lo..hi][k - lo];
      assert t[k] in multiset(s[lo..hi]);
      var j :| 0 <= j < hi - lo && s[lo..hi][j] == t[k];
      assert s[lo + j] == t[k];
    }
  }

  /** `s[lo..hi]` is sorted, stated by index. */
  predicate SortedRange(s: seq<int>, lo: int, hi: int)
  {
    forall p, q :: 0 <= lo <= p < q < hi <= |s| ==> s[p] <= s[q]
  }

  /** No element of `s[lo..hi]` exceeds `m`. */
  predicate AtMost(s: seq<int>, lo: int, hi: int, m: int)
  {
    forall p :: 0 <= lo <= p < hi <= |s| ==> s[p] <= m
  }

  lemma SortedSlice(s: seq<int>, lo: int, hi: int)
    requires 0 <= lo <= hi <= |s| && SortedRange(s, lo, hi)
    ensures Sorted(s[lo..hi])
  {
    forall x, y | 0 <= x < y < hi - lo
      ensures s[lo..hi][x] <= s[lo..hi][y]
    {
      assert s[lo..hi][x] == s[lo + x] && s[lo..hi][y] == s[lo + y];
    }
  }

  /** `if L[j] > L[j + 1]: swap`: the pair ends in order and nothing else moves. */
  method OrderPair(a: array<int>, lo: int, hi: int, j: int)
    requires 0 <= lo <= j && j + 1 < hi <= a.Length
    modifies a
    ensures PermutedWithin(old(a[..]), a[..], lo, hi)
    ensures a[j + 1] == if old(a[j]) > old(a[j + 1]) then old(a[j]) else old(a[j + 1])
    ensures a[j] <= a[j + 1]
    ensures forall p :: 0 <= p < a.Length && p != j && p != j + 1 ==> a[p] == old(a[p])
  {
    if a[j] > a[j + 1] {
      ghost var s := a[..];
      SwapPermutes(s, lo, hi, j, j + 1);
      a[j], a[j + 1] := a[j + 1], a[j];
      assert a[..] == s[j := s[j + 1]][j + 1 := s[j]];
    } else {
      assert PermutedWithin(a[..], a[..], lo, hi);
    }
  }

  /** One pass of `bubble`'s inner loop over `[lo, hi)`: the largest element ends at `hi - 1`. */
  method BubblePass(a: array<int>, lo: int, hi: int)
    requires 0 <= lo < hi <= a.Length
    modifies a
    ensures PermutedWithin(old(a[..]), a[..], lo, hi)
    ensures AtMost(a[..], lo, hi, a[hi - 1])
    ensures forall p :: hi <= p < a.Length ==> a[p] == old(a[p])
  {
    var j := lo;
    while j < hi - 1
      invariant lo <= j < hi
      invariant PermutedWithin(old(a[..]), a[..], lo, hi)
      invariant forall p :: lo <= p < j ==> a[p] <= a[j]
      invariant forall p :: hi <= p < a.Length ==> a[p] == old(a[p])
    {
      ghost var s := a[..];
      OrderPair(a, lo, hi, j);
      PermutedWithinTrans(old(a[..]), s, a[..], lo, hi);
      j := j + 1;
    }
  }

  /**
   * `bubble`: ValueError when `left > right`; otherwise `[left, right)`
   * ends sorted, holding the same elements, and nothing outside it changes.
   * Pass `i` bubbles the largest of `[left, right - (i - left))` to the end
   * of that range. The `swapped` flag decides nothing, since its `continue`
   * ends an iteration that is already over.
   */
  method Bubble(a: array<int>, left: int, right: int) returns (r: Outcome)
    requires 0 <= left && right <= a.Length
    modifies a
    ensures r == if left <= right then Done else Raised(ValueError)
    ensures left > right ==> a[..] == old(a[..])
    ensures left <= right ==> PermutedWithin(old(a[..]), a[..], left, right) && Sorted(a[left..right])
  {
    if !(left <= right) {
      return Raised(ValueError);
    }
    r := Done;
    if right - left == 0 || right - left == 1 {
      assert PermutedWithin(old(a[..]), a[..], left, right);
      return;
    }
    var i := left;
    var hi := right;
    while i < right
      invariant left <= i <= right && hi == right - (i - left)
      invariant PermutedWithin(old(a[..]), a[..], left, right)
      invariant SortedRange(a[..], hi, right)
      invariant hi < right ==> AtMost(a[..], left, hi, a[hi])
    {
      ghost var s := a[..];
      BubblePass(a, left, hi);
      PermutedWithinWiden(s, a[..], left, hi, left, right);
      PermutedWithinTrans(old(a[..]), s, a[..], left, right);
      PassExtends(s, a[..], left, hi, right);
      i, hi := i + 1, hi - 1;
    }
    SortedSlice(a[..], left, right);
  }

  /**
   * After a pass over `[left, hi)` whose largest element ends at `hi - 1`,
   * the sorted run above `hi`, all of whose elements bound the range,
   * grows down to `hi - 1`.
   */
  lemma PassExtends(s: seq<int>, t: seq<int>, left: int, hi: int, right: int)
    requires left < hi <= right <= |s|
    requires PermutedWithin(s, t, left, hi)
    requires AtMost(t, left, hi, t[hi - 1])
    requires SortedRange(s, hi, right)
    requires hi < right ==> AtMost(s, left, hi, s[hi])
    ensures SortedRange(t, hi - 1, right)
    ensures hi - 1 < right ==> AtMost(t, left, hi - 1, t[hi - 1])
  {
    forall k | hi <= k < |s|
      ensures t[k] == s[k]
    {
      assert t[k] == t[hi..][k - hi];
    }
    if hi < right {
      AtMostPermuted(s, t, left, hi, s[hi]);
    }
  }

  /** `min(range(i, right), key=L.__getitem__)`: the first position of a least element. */
  method MinIndex(a: array<int>, i: int, right: int) returns (m: int)
    requires 0 <= i < right <= a.Length
    ensures i <= m < right
    ensures forall k :: i <= k < right ==> a[m] <= a[k]
    ensures forall k :: i <= k < m ==> a[m] < a[k]
  {
    m := i;
    var k := i + 1;
    while k < right
      invariant i <= m < k <= right
      invariant forall p :: i <= p < k ==> a[m] <= a[p]
      invariant forall p :: i <= p < m ==> a[m] < a[p]
    {
      if a[k] < a[m] {
        m := k;
      }
      k := k + 1;
    }
  }

  /**
   * `selection`: ValueError when `left > right`; otherwise `[left, right)`
   * ends sorted, holding the same elements, and nothing outside it changes.
   * Step `i` swaps the first least element of `[i, right)` into place `i`.
   */
  method Selection(a: array<int>, left: int, right: int) returns (r: Outcome)
    requires 0 <= left && right <= a.Length
    modifies a
    ensures r == if left <= right then Done else Raised(ValueError)
    ensures left > right ==> a[..] == old(a[..])
    ensures left <= right ==> PermutedWithin(old(a[..]), a[..], left, right) && Sorted(a[left..right])
  {
    if !(left <= right) {
      return Raised(ValueError);
    }
    r := Done;
    if right - left == 0 || right - left == 1 {
      assert PermutedWithin(old(a[..]), a[..], left, right);
      return;
    }
    var i := left;
    while i < right
      invariant left <= i <= right
      invariant PermutedWithin(old(a[..]), a[..], left, right)
      invariant SortedRange(a[..], left, i) && Split(a[..], left, i, right)
    {
      var m := MinIndex(a, i, right);
      ghost var s := a[..];
      SwapPermutes(s, left, right, i, m);
      SelectStep(s, left, i, m, right);
      a[i], a[m] := a[m], a[i];
      assert a[..] == s[i := s[m]][m := s[i]];
      PermutedWithinTrans(old(a[..]), s, a[..], left, right);
      i := i + 1;
    }
    SortedSlice(a[..], left, right);
  }

  /** Nothing in `s[lo..mid]` exceeds anything in `s[mid..hi]`. */
  predicate Split(s: seq<int>, lo: int, mid: int, hi: int)
  {
    forall p, q :: 0 <= lo <= p < mid <= q < hi <= |s| ==> s[p] <= s[q]
  }

  /** Swapping a least element of `[i, right)` into place `i` extends the sorted prefix by one. */
  lemma SelectStep(s: seq<int>, left: int, i: int, m: int, right: int)
    requires 0 <= left <= i <= m < right <= |s|
    requires SortedRange(s, left, i) && Split(s, left, i, right)
    requires forall k :: i <= k < right ==> s[m] <= s[k]
    ensures SortedRange(s[i := s[m]][m := s[i]], left, i + 1)
    ensures Split(s[i := s[m]][m := s[i]], left, i + 1, right)
  {
  }

  /** `next((j for j in range(left, i) if L[i] < L[j]), i)`: the first position holding a larger element. */
  method FirstGreater(a: array<int>, lo: int, i: int) returns (ins: int)
    requires 0 <= lo <= i < a.Length
    ensures lo <= ins <= i
    ensures forall j :: lo <= j < ins ==> a[j] <= a[i]
    ensures ins < i ==> a[i] < a[ins]
  {
    ins := lo;
    while ins < i && !(a[i] < a[ins])
      invariant lo <= ins <= i
      invariant forall j :: lo <= j < ins ==> a[j] <= a[i]
    {
      ins := ins + 1;
    }
  }

  /**
   * `insertion`: ValueError when `left > right`; otherwise `[left, right)`
   * ends sorted, holding the same elements, and nothing outside it changes.
   * Each element not above its predecessor moves in front of the first
   * larger element before it. The test reads `L[i - 1]`, which for
   * `i == 0` is the last element of the list; the first step changes
   * nothing whichever way that test goes.
   */
  method Insertion(a: array<int>, left: int, right: int) returns (r: Outcome)
    requires 0 <= left && right <= a.Length
    modifies a
    ensures r == if left <= right then Done else Raised(ValueError)
    ensures left > right ==> a[..] == old(a[..])
    ensures left <= right ==> PermutedWithin(old(a[..]), a[..], left, right) && Sorted(a[left..right])
  {
    if !(left <= right) {
      return Raised(ValueError);
    }
    r := Done;
    if right - left == 0 || right - left == 1 {
      assert PermutedWithin(old(a[..]), a[..], left, right);
      return;
    }
    var i := left;
    while i < right
      invariant left <= i <= right
      invariant PermutedWithin(old(a[..]), a[..], left, right)
      invariant Sorted(a[left..i])
    {
      var prev := if i == 0 then a.Length - 1 else i - 1;
      if a[prev] < a[i] {
        if i > left {
          MagicSort.SortedExtend(a[..], left, i);
        }
        i := i + 1;
        continue;
      }
      var ins := FirstGreater(a, left, i);
      ghost var s := a[..];
      MagicSort.RotatedSorted(s, left, ins, i);
      MagicSort.RotatedPermutes(s, left, right, ins, i);
      MagicSort.MoveBack(a, ins, i);
      PermutedWithinTrans(old(a[..]), s, a[..], left, right);
      i := i + 1;
    }
  }

  // ---------------------------------------------------------------------------
  // sort_halfsorted

  /** The `sort` argument of `sort_halfsorted`. */
  datatype RangeSort = BubbleSort | SelectionSort | InsertionSort

  method SortRange(a: array<int>, sort: RangeSort, left: int, right: int) returns (r: Outcome)
    requires 0 <= left && right <= a.Length
    modifies a
    ensures r == if left <= right then Done else Raised(ValueError)
    ensures left > right ==> a[..] == old(a[..])
    ensures left <= right ==> PermutedWithin(old(a[..]), a[..], left, right) && Sorted(a[left..right])
  {
    match sort
    case BubbleSort => r := Bubble(a, left, right);
    case SelectionSort => r := Selection(a, left, right);
    case InsertionSort => r := Insertion(a, left, right);
  }

  /** In a sign-ordered sequence nothing before a zero is positive and nothing after it is negative. */
  lemma AroundZero(s: seq<int>, z: int)
    requires SignOrdered(s) && 0 <= z < |s| && s[z] == 0
    ensures forall k :: 0 <= k < z ==> s[k] <= 0
    ensures forall k :: z < k < |s| ==> 0 <= s[k]
  {
    forall k | 0 <= k < z
      ensures s[k] <= 0
    {
      assert Sign(s[k]) <= Sign(s[z]);
    }
    forall k | z < k < |s|
      ensures 0 <= s[k]
    {
      assert Sign(s[z]) <= Sign(s[k]);
    }
  }

  /** Both sides of the zero sorted, every element left of it at most 0 and right of it at least 0: all sorted. */
  lemma SortedAroundZero(s: seq<int>, z: int)
    requires 0 <= z < |s| && s[z] == 0
    requires Sorted(s[..z]) && Sorted(s[z + 1..])
    requires forall k :: 0 <= k < z ==> s[k] <= 0
    requires forall k :: z < k < |s| ==> 0 <= s[k]
    ensures Sorted(s)
  {
    forall x, y | 0 <= x < y < |s|
      ensures s[x] <= s[y]
    {
      if y < z {
        assert s[x] == s[..z][x] && s[y] == s[..z][y];
      } else if z < x {
        assert s[x] == s[z + 1..][x - z - 1] && s[y] == s[z + 1..][y - z - 1];
      }
    }
  }

  /** Permuting the range before a position and then the range after it permutes the whole sequence. */
  lemma AroundMultiset(s0: seq<int>, s1: seq<int>, s2: seq<int>, z: int)
    requires 0 <= z < |s0|
    requires PermutedWithin(s0, s1, 0, z) && PermutedWithin(s1, s2, z + 1, |s1|)
    ensures multiset(s2) == multiset(s0) && s2[z] == s0[z]
  {
    PermutedWithinWiden(s0, s1, 0, z, 0, |s0|);
    MagicSort.WholeRange(s0, s1);
    PermutedWithinWiden(s1, s2, z + 1, |s1|, 0, |s1|);
    MagicSort.WholeRange(s1, s2);
    assert s2[z] == s2[..z + 1][z] == s1[..z + 1][z];
    assert s1[z] == s1[z..][0] == s0[z..][0];
  }

  /** Sorting both sides of a zero of a sign-ordered sequence sorts all of it. */
  lemma AroundSorted(s0: seq<int>, s1: seq<int>, s2: seq<int>, z: int)
    requires 0 <= z < |s0| && s0[z] == 0 && SignOrdered(s0)
    requires PermutedWithin(s0, s1, 0, z) && PermutedWithin(s1, s2, z + 1, |s1|)
    requires Sorted(s1[0..z]) && Sorted(s2[z + 1..|s1|])
    ensures Sorted(s2)
  {
    AroundMultiset(s0, s1, s2, z);
    AroundZero(s0, z);
    AtMostPermuted(s0, s1, 0, z, 0);
    assert s1[z + 1..] == s0[z + 1..];
    forall k | z < k < |s0|
      ensures 0 <= s1[k]
    {
      assert s1[k] == s1[z + 1..][k - z - 1];
    }
    AtLeastPermuted(s1, s2, z + 1, |s1|, 0);
    assert s2[..z] == s1[..z] by {
      assert s2[..z + 1] == s1[..z + 1];
    }
    forall k | 0 <= k < z
      ensures s2[k] <= 0
    {
      assert s2[k] == s2[..z][k];
    }
    assert s1[0..z] == s1[..z];
    assert s2[z + 1..] == s2[z + 1..|s1|];
    SortedAroundZero(s2, z);
  }

  /**
   * `sort_halfsorted`: finds a zero, fails the assertion when there is none,
   * and sorts the ranges before and after it with `sort`. On a sign-ordered
   * list with a zero the whole list ends sorted, holding the same elements.
   * An IndexError from `find_zero` escapes on an all-negative list.
   */
  method SortHalfSorted(a: array<int>, sort: RangeSort) returns (r: Outcome)
    modifies a
    ensures r.Raised? ==> a[..] == old(a[..])
    ensures r == Done ==> multiset(a[..]) == multiset(old(a[..]))
    ensures SignOrdered(old(a[..])) && 0 in old(a[..]) ==> r == Done && Sorted(a[..])
    ensures SignOrdered(old(a[..])) && 0 !in old(a[..]) && !AllNegative(old(a[..])) ==> r == Raised(AssertionError)
    ensures SignOrdered(old(a[..])) && AllNegative(old(a[..])) ==> r == Raised(IndexError)
  {
    var found := FindZero(a[..]);
    if found.Err? {
      return Raised(found.error);
    }
    if found.value.None? {
      return Raised(AssertionError);
    }
    var z := found.value.value;
    ghost var s0 := a[..];
    var r1 := SortRange(a, sort, 0, z);
    ghost var s1 := a[..];
    var r2 := SortRange(a, sort, z + 1, a.Length);
    AroundMultiset(s0, s1, a[..], z);
    if SignOrdered(s0) {
      AroundSorted(s0, s1, a[..], z);
    }
    r := Done;
  }
}
