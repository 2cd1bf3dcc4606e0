/**
 * The adaptive "magic sort" (hw7/MagicSort.py): a linear scan classifies the
 * list, and the list is then reversed, insertion-sorted, or quicksorted with
 * a depth limit past which mergesort takes over. Every sort works in place on
 * a sub-range `[left, right)` of an array of integers and reports the set of
 * algorithms it used.
 */
module MagicSort {
  import opened Util
  import opened Seqs

  const MaxOutOfOrder: int := 5
  const SmallListThreshold: int := 16

  datatype EdgeCase = AlreadySorted | ReverseSorted | MostlySorted | MostlyReverseSorted

  datatype Algorithm = ReverseList | InsertionSort | QuickSort | MergeSort

  // ---------------------------------------------------------------------------
  // linear_scan

  /** The number of adjacent positions where an element is smaller than the one before it. */
  function Descents(s: seq<int>): (d: nat)
    ensures |s| > 0 ==> d <= |s| - 1
    ensures |s| == 0 ==> d == 0
  {
    if |s| <= 1 then 0
    else Descents(s[..|s| - 1]) + (if s[|s| - 1] < s[|s| - 2] then 1 else 0)
  }

  /** The verdict of `linear_scan` from a number of descents among `n` elements. */
  function Classify(d: int, n: int): Option<EdgeCase>
  {
    if d == 0 then Some(AlreadySorted)
    else if d == n - 1 then Some(ReverseSorted)
    else if d <= MaxOutOfOrder then Some(MostlySorted)
    else if d >= n - MaxOutOfOrder - 1 then Some(MostlyReverseSorted)
    else None
  }

  /** Extending a prefix by `k` elements adds at most `k` descents. */
  lemma {:induction false} DescentsPrefix(s: seq<int>, t: nat)
    requires t <= |s|
    ensures Descents(s[..t]) <= Descents(s)
    ensures t > 0 ==> Descents(s) <= Descents(s[..t]) + (|s| - t)
  {
    if t < |s| {
      var p := s[..|s| - 1];
      DescentsPrefix(p, t);
      assert p[..t] == s[..t];
    } else {
      assert s[..t] == s;
    }
  }

  /** No descents exactly when the sequence is sorted (empty and singleton included). */
  lemma {:induction false} DescentsZeroIffSorted(s: seq<int>)
    ensures Descents(s) == 0 <==> Sorted(s)
  {
    if |s| > 1 {
      var p := s[..|s| - 1];
      DescentsZeroIffSorted(p);
      if Sorted(s) {
        assert Sorted(p);
        assert s[|s| - 2] <= s[|s| - 1];
      }
      if Descents(s) == 0 {
        assert Sorted(p) && s[|s| - 2] <= s[|s| - 1];
        forall i, j | 0 <= i < j < |s|
          ensures s[i] <= s[j]
        {
          if j < |s| - 1 {
            assert p[i] <= p[j];
          } else if i < |s| - 2 {
            assert p[i] <= p[|s| - 2];
          }
        }
      }
    }
  }

  /** Every adjacent pair descends exactly when the sequence is strictly decreasing. */
  lemma {:induction false} DescentsFullIffDecreasing(s: seq<int>)
    requires |s| >= 1
    ensures Descents(s) == |s| - 1 <==> StrictlyDecreasing(s)
  {
    if |s| > 1 {
      var p := s[..|s| - 1];
      DescentsFullIffDecreasing(p);
      if StrictlyDecreasing(s) {
        assert StrictlyDecreasing(p);
        assert s[|s| - 1] < s[|s| - 2];
      }
      if Descents(s) == |s| - 1 {
        assert StrictlyDecreasing(p) && s[|s| - 1] < s[|s| - 2];
        forall i, j | 0 <= i < j < |s|
          ensures s[i] > s[j]
        {
          if j < |s| - 1 {
            assert p[i] > p[j];
          } else if i < |s| - 2 {
            assert p[i] > p[|s| - 2];
          }
        }
      }
    }
  }

  /** `linear_scan` reports an already sorted input exactly when it is sorted. */
  lemma ScanSortedIff(s: seq<int>)
    ensures Classify(Descents(s), |s|) == Some(AlreadySorted) <==> Sorted(s)
  {
    DescentsZeroIffSorted(s);
  }

  /** From two elements on, `linear_scan` reports a reversed input exactly when it is strictly decreasing. */
  lemma ScanReversedIff(s: seq<int>)
    requires |s| >= 2
    ensures Classify(Descents(s), |s|) == Some(ReverseSorted) <==> StrictlyDecreasing(s)
  {
    DescentsFullIffDecreasing(s);
  }

  /**
   * `linear_scan`: count descents in one pass, stopping early once more than
   * five descents and more than five ascents are seen, since no edge case
   * can then apply. The early stop does not change the verdict.
   */
  method LinearScan(a: array<int>) returns (c: Option<EdgeCase>)
    ensures c == Classify(Descents(a[..]), a.Length)
  {
    var outOfOrder := 0;
    var total := 0;
    var stopped := false;
    while total < a.Length && !stopped
      invariant 0 <= total <= a.Length
      invariant outOfOrder == Descents(a[..total])
      invariant stopped ==> MaxOutOfOrder < outOfOrder < total - MaxOutOfOrder - 1
    {
      assert a[..total + 1][..total] == a[..total];
      if total > 0 && a[total] < a[total - 1] {
        outOfOrder := outOfOrder + 1;
      }
      total := total + 1;
      var maxInOrder := total - MaxOutOfOrder - 1;
      if MaxOutOfOrder < outOfOrder < maxInOrder {
        stopped := true;
      }
    }
    if stopped {
      DescentsPrefix(a[..], total);
    } else {
      assert a[..total] == a[..];
    }
    c := Classify(outOfOrder, total);
  }

  // ---------------------------------------------------------------------------
  // reverse_list

  /** `reverse_list`: swap the i-th element from each end, for the first half. */
  method ReverseInPlace(a: array<int>)
    modifies a
    ensures a[..] == Reverse(old(a[..]))
  {
    ghost var s := a[..];
    var n := a.Length;
    var i := 0;
    while i < n / 2
      invariant 0 <= i <= n / 2
      invariant forall k :: 0 <= k < i ==> a[k] == s[n - 1 - k] && a[n - 1 - k] == s[k]
      invariant forall k :: i <= k < n - i ==> a[k] == s[k]
    {
      a[i], a[n - 1 - i] := a[n - 1 - i], a[i];
      i := i + 1;
    }
  }

  // ---------------------------------------------------------------------------
  // insertionsort

  /** Element `i` moved back to position `ins`, the elements in between shifted up by one. */
  function Rotated(s: seq<int>, ins: int, i: int): seq<int>
    requires 0 <= ins <= i < |s|
  {
    s[..ins] + [s[i]] + s[ins..i] + s[i + 1..]
  }

  lemma RotatedStep(s: seq<int>, k: int, i: int)
    requires 0 < k <= i < |s|
    ensures var r := Rotated(s, k, i);
      r[k - 1 := r[k]][k := r[k - 1]] == Rotated(s, k - 1, i)
  {
    var r := Rotated(s, k, i);
    var u := Rotated(s, k - 1, i);
    assert |r| == |u|;
    forall m | 0 <= m < |u|
      ensures r[k - 1 := r[k]][k := r[k - 1]][m] == u[m]
    {
      if m < k - 1 {
        assert r[m] == s[m] && u[m] == s[m];
      } else if m > k {
        assert r[m] == u[m];
      }
    }
  }

  lemma RotatedPermutes(s: seq<int>, lo: int, hi: int, ins: int, i: int)
    requires 0 <= lo <= ins <= i < hi <= |s|
    ensures PermutedWithin(s, Rotated(s, ins, i), lo, hi)
  {
    var r := Rotated(s, ins, i);
    assert r[..lo] == s[..lo];
    assert r[hi..] == s[hi..];
    assert s[lo..hi] == s[lo..ins] + s[ins..i] + [s[i]] + s[i + 1..hi];
    assert r[lo..hi] == s[lo..ins] + [s[i]] + s[ins..i] + s[i + 1..hi];
  }

  /**
   * Moving `s[i]` behind the elements of the sorted run `s[lo..i]` not
   * above it and in front of the next one extends the run by one.
   */
  lemma RotatedSorted(s: seq<int>, lo: int, ins: int, i: int)
    requires 0 <= lo <= ins <= i < |s| && Sorted(s[lo..i])
    requires forall j :: lo <= j < ins ==> s[j] <= s[i]
    requires ins < i ==> s[i] <= s[ins]
    ensures Sorted(Rotated(s, ins, i)[lo..i + 1])
  {
    var r := Rotated(s, ins, i)[lo..i + 1];
    assert r == s[lo..ins] + [s[i]] + s[ins..i];
    forall x, y | 0 <= x < y < |r|
      ensures r[x] <= r[y]
    {
      if y < ins - lo {
        assert r[x] == s[lo..i][x] && r[y] == s[lo..i][y];
      } else if x < ins - lo && y == ins - lo {
      } else if x < ins - lo {
        assert r[x] == s[lo..i][x] && r[y] == s[lo..i][y - 1];
      } else if x == ins - lo {
        assert r[y] == s[lo..i][y - 1] && s[ins] == s[lo..i][ins - lo];
      } else {
        assert r[x] == s[lo..i][x - 1] && r[y] == s[lo..i][y - 1];
      }
    }
  }

  lemma SortedExtend(s: seq<int>, lo: int, i: int)
    requires 0 <= lo < i < |s| && Sorted(s[lo..i]) && s[i - 1] <= s[i]
    ensures Sorted(s[lo..i + 1])
  {
    var r := s[lo..i + 1];
    forall x, y | 0 <= x < y < |r|
      ensures r[x] <= r[y]
    {
      if y < |r| - 1 {
        assert r[x] == s[lo..i][x] && r[y] == s[lo..i][y];
      } else if x < |r| - 2 {
        assert r[x] == s[lo..i][x] && s[i - 1] == s[lo..i][i - 1 - lo];
      }
    }
  }

  /** The first index in `[lo, i)` whose element is not smaller than `a[i]`, or `i` when there is none. */
  method FindInsertIndex(a: array<int>, lo: int, i: int) returns (ins: int)
    requires 0 <= lo <= i < a.Length
    ensures lo <= ins <= i
    ensures forall j :: lo <= j < ins ==> a[j] < a[i]
    ensures ins < i ==> a[i] <= a[ins]
  {
    ins := lo;
    while ins < i && !(a[i] <= a[ins])
      invariant lo <= ins <= i
      invariant forall j :: lo <= j < ins ==> a[j] < a[i]
    {
      ins := ins + 1;
    }
  }

  /** `list.insert(ins, list.pop(i))`, as a run of adjacent swaps. */
  method MoveBack(a: array<int>, ins: int, i: int)
    requires 0 <= ins <= i < a.Length
    modifies a
    ensures a[..] == Rotated(old(a[..]), ins, i)
  {
    ghost var s := a[..];
    var k := i;
    assert Rotated(s, i, i) == s;
    while k > ins
      invariant ins <= k <= i
      invariant a[..] == Rotated(s, k, i)
    {
      RotatedStep(s, k, i);
      a[k - 1], a[k] := a[k], a[k - 1];
      k := k - 1;
    }
  }

  /**
   * `insertionsort`: ValueError when `left > right`; otherwise `[left, right)`
   * ends sorted, holding the same elements, and nothing outside it changes.
   * The test of each element against its predecessor reads `L[i - 1]`, which
   * for `i == 0` is the last element of the list; that step changes nothing
   * either way.
   */
  method InsertionSortRange(a: array<int>, left: int, right: int) returns (r: Outcome)
    requires 0 <= left && right <= a.Length
    modifies a
    ensures r == if left <= right then Done else Raised(ValueError)
    ensures left > right ==> a[..] == old(a[..])
    ensures left <= right ==> PermutedWithin(old(a[..]), a[..], left, right) && Sorted(a[left..right])
  {
    if !(left <= right) {
      return Raised(ValueError);
    }
    r := Done;
    if right - left == 0 || right - left == 1 {
      assert PermutedWithin(old(a[..]), a[..], left, right);
      return;
    }
    var i := left;
    while i < right
      invariant left <= i <= right
      invariant PermutedWithin(old(a[..]), a[..], left, right)
      invariant Sorted(a[left..i])
    {
      var prev := if i == 0 then a.Length - 1 else i - 1;
      if a[prev] < a[i] {
        if i > left {
          SortedExtend(a[..], left, i);
        }
        i := i + 1;
        continue;
      }
      var ins := FindInsertIndex(a, left, i);
      ghost var s := a[..];
      RotatedSorted(s, left, ins, i);
      RotatedPermutes(s, left, right, ins, i);
      MoveBack(a, ins, i);
      PermutedWithinTrans(old(a[..]), s, a[..], left, right);
      i := i + 1;
    }
  }

  // ---------------------------------------------------------------------------
  // quicksort

  /** A bound that holds for every element of a range still holds after the range is permuted. */
  lemma BoundsSurvivePermutation(s: seq<int>, t: seq<int>, lo: int, hi: int, lower: int, upper: int)
    requires PermutedWithin(s, t, lo, hi)
    requires forall k :: lo <= k < hi ==> lower <= s[k] < upper
    ensures forall k :: lo <= k < hi ==> lower <= t[k] < upper
  {
    forall k | lo <= k < hi
      ensures lower <= t[k] < upper
    {
      assert t[k] == t[lo..hi][k - lo];
      assert t[k] in multiset(s[lo..hi]);
      var m :| 0 <= m < hi - lo && s[lo..hi][m] == t[k];
      assert s[lo + m] == t[k];
    }
  }

  /** Two sorted adjacent runs, every element of the first below every element of the second, form one sorted run. */
  lemma SortedJoin(s: seq<int>, lo: int, mid: int, hi: int)
    requires 0 <= lo <= mid <= hi <= |s|
    requires Sorted(s[lo..mid]) && Sorted(s[mid..hi])
    requires forall x, y :: lo <= x < mid <= y < hi ==> s[x] <= s[y]
    ensures Sorted(s[lo..hi])
  {
    var r := s[lo..hi];
    forall x, y | 0 <= x < y < |r|
      ensures r[x] <= r[y]
    {
      if y < mid - lo {
        assert r[x] == s[lo..mid][x] && r[y] == s[lo..mid][y];
      } else if x >= mid - lo {
        assert r[x] == s[mid..hi][x - (mid - lo)] && r[y] == s[mid..hi][y - (mid - lo)];
      }
    }
  }

  /**
   * `_quicksort_partition`: with the last element as pivot, move the smaller
   * elements to the front, then swap the pivot into place and return its index.
   */
  method Partition(a: array<int>, left: int, right: int) returns (p: int)
    requires 0 <= left < right <= a.Length
    modifies a
    ensures left <= p < right
    ensures PermutedWithin(old(a[..]), a[..], left, right)
    ensures a[p] == old(a[right - 1])
    ensures forall k :: left <= k < p ==> a[k] < a[p]
    ensures forall k :: p < k < right ==> a[p] <= a[k]
  {
    var pivotIdx, pivot := right - 1, a[right - 1];
    var li, ri := left, right - 2;
    while li <= ri
      invariant left <= li <= ri + 1 <= right - 1
      invariant PermutedWithin(old(a[..]), a[..], left, right)
      invariant a[right - 1] == pivot
      invariant forall k :: left <= k < li ==> a[k] < pivot
      invariant forall k :: ri < k <= right - 2 ==> pivot <= a[k]
      decreases ri + 1 - li
    {
      while li <= ri && a[li] < pivot
        invariant left <= li <= ri + 1
        invariant forall k :: left <= k < li ==> a[k] < pivot
      {
        li := li + 1;
      }
      while li <= ri && pivot <= a[ri]
        invariant li - 1 <= ri <= right - 2
        invariant forall k :: ri < k <= right - 2 ==> pivot <= a[k]
      {
        ri := ri - 1;
      }
      if li <= ri {
        ghost var before := a[..];
        Swap(a, left, right, li, ri);
        PermutedWithinTrans(old(a[..]), before, a[..], left, right);
        li := li + 1;
        ri := ri - 1;
      }
    }
    ghost var before := a[..];
    Swap(a, left, right, li, pivotIdx);
    PermutedWithinTrans(old(a[..]), before, a[..], left, right);
    p := li;
  }

  /** Exchange two elements of the range `[lo, hi)`. */
  method Swap(a: array<int>, lo: int, hi: int, i: int, j: int)
    requires 0 <= lo <= i < hi <= a.Length && lo <= j < hi
    modifies a
    ensures a[..] == old(a[..])[i := old(a[j])][j := old(a[i])]
    ensures PermutedWithin(old(a[..]), a[..], lo, hi)
  {
    SwapPermutes(a[..], lo, hi, i, j);
    a[i], a[j] := a[j], a[i];
  }

  /** `2^k`. */
  function Pow2(k: nat): nat
  {
    if k == 0 then 1 else 2 * Pow2(k - 1)
  }

  /** `int.bit_length`: the number of binary digits of `n`. */
  function BitLength(n: nat): (b: nat)
    ensures n < Pow2(b) && (n > 0 ==> Pow2(b - 1) <= n)
  {
    if n == 0 then 0 else 1 + BitLength(n / 2)
  }

  /**
   * The recursion of `quicksort`: small ranges go to insertion sort, ranges
   * past the depth limit go to mergesort, the rest are partitioned and both
   * sides sorted, the pivot's side being `[p, right)`.
   */
  method QuickSortDepth(a: array<int>, left: int, right: int, depth: int, bestMaxDepth: int) returns (algs: set<Algorithm>)
    requires 0 <= left <= right <= a.Length
    modifies a
    decreases bestMaxDepth * 2 - depth
    ensures PermutedWithin(old(a[..]), a[..], left, right) && Sorted(a[left..right])
    ensures algs <= {InsertionSort, QuickSort, MergeSort}
    ensures right - left <= 1 ==> algs == {}
    ensures 1 < right - left <= SmallListThreshold ==> algs == {InsertionSort}
    ensures right - left > SmallListThreshold && depth < bestMaxDepth * 2 ==> QuickSort in algs
    ensures right - left > SmallListThreshold && depth >= bestMaxDepth * 2 ==> algs == {InsertionSort, MergeSort}
    ensures right - left > SmallListThreshold ==> InsertionSort in algs
  {
    if right - left <= 1 {
      assert PermutedWithin(old(a[..]), a[..], left, right);
      return {};
    }
    if right - left <= SmallListThreshold {
      var _ := InsertionSortRange(a, left, right);
      return {InsertionSort};
    }
    if depth >= bestMaxDepth * 2 {
      var r := MergeSortRange(a, left, right);
      return r.value;
    }
    var middle := Partition(a, left, right);
    ghost var s0 := a[..];
    var pv := a[middle];
    var algs1 := QuickSortDepth(a, left, middle, depth + 1, bestMaxDepth);
    ghost var s1 := a[..];
    var algs2 := QuickSortDepth(a, middle, right, depth + 1, bestMaxDepth);
    ghost var s2 := a[..];
    SortedAfterPartition(old(a[..]), s0, s1, s2, left, middle, right, pv);
    algs := algs1 + algs2 + {QuickSort};
  }

  /** The two recursive sorts after a partition leave the whole range sorted and permuted. */
  lemma SortedAfterPartition(s: seq<int>, s0: seq<int>, s1: seq<int>, s2: seq<int>, left: int, middle: int, right: int, pv: int)
    requires left <= middle < right
    requires PermutedWithin(s, s0, left, right) && s0[middle] == pv
    requires forall k :: left <= k < middle ==> s0[k] < pv
    requires forall k :: middle < k < right ==> pv <= s0[k]
    requires PermutedWithin(s0, s1, left, middle) && Sorted(s1[left..middle])
    requires PermutedWithin(s1, s2, middle, right) && Sorted(s2[middle..right])
    ensures PermutedWithin(s, s2, left, right) && Sorted(s2[left..right])
  {
    BoundsSurvivePermutation(s0, s1, left, middle, MinOf(s0, left, middle), pv);
    assert forall k :: middle <= k < right ==> s1[k] == s0[k] by {
      assert s1[middle..] == s0[middle..];
      forall k | middle <= k < right
        ensures s1[k] == s0[k]
      {
        assert s1[k] == s1[middle..][k - middle];
      }
    }
    BoundsSurvivePermutation(s1, s2, middle, right, pv, MaxOf(s1, middle, right) + 1);
    forall k | left <= k < middle
      ensures s2[k] == s1[k]
    {
      assert s2[k] == s2[..middle][k];
    }
    SortedJoin(s2, left, middle, right);
    PermutedWithinWiden(s0, s1, left, middle, left, right);
    PermutedWithinWiden(s1, s2, middle, right, left, right);
    PermutedWithinTrans(s, s0, s1, left, right);
    PermutedWithinTrans(s, s1, s2, left, right);
  }

  /** The least element of a non-empty range, or 0 for an empty one. */
  function MinOf(s: seq<int>, lo: int, hi: int): (m: int)
    requires 0 <= lo <= hi <= |s|
    ensures forall k :: lo <= k < hi ==> m <= s[k]
    decreases hi - lo
  {
    if lo == hi then 0
    else
      var rest := MinOf(s, lo + 1, hi);
      if lo + 1 == hi || s[lo] <= rest then s[lo] else rest
  }

  /** The greatest element of a non-empty range, or 0 for an empty one. */
  function MaxOf(s: seq<int>, lo: int, hi: int): (m: int)
    requires 0 <= lo <= hi <= |s|
    ensures forall k :: lo <= k < hi ==> s[k] <= m
    decreases hi - lo
  {
    if lo == hi then 0
    else
      var rest := MaxOf(s, lo + 1, hi);
      if lo + 1 == hi || s[lo] >= rest then s[lo] else rest
  }

  /** `quicksort`: ValueError when `left > right`; otherwise the range sorted, depth limit twice the bit length of the list's length. */
  method QuickSortRange(a: array<int>, left: int, right: int) returns (r: Result<set<Algorithm>>)
    requires 0 <= left && right <= a.Length
    modifies a
    ensures left > right ==> r == Err(ValueError) && a[..] == old(a[..])
    ensures left <= right ==> r.Ok? && PermutedWithin(old(a[..]), a[..], left, right) && Sorted(a[left..right])
    ensures left <= right ==> r.value <= {InsertionSort, QuickSort, MergeSort}
    ensures left <= right && right - left <= 1 ==> r.value == {}
    ensures left <= right && 1 < right - left <= SmallListThreshold ==> r.value == {InsertionSort}
    ensures left <= right && right - left > SmallListThreshold ==> QuickSort in r.value && InsertionSort in r.value
  {
    if !(left <= right) {
      return Err(ValueError);
    }
    var algs := QuickSortDepth(a, left, right, 0, BitLength(a.Length));
    assert right - left > SmallListThreshold ==> BitLength(a.Length) > 0;
    r := Ok(algs);
  }

  // ---------------------------------------------------------------------------
  // mergesort

  /** The stable merge of two sequences: on a tie the element of the first is taken. */
  function Merge(xs: seq<int>, ys: seq<int>): (m: seq<int>)
    ensures |m| == |xs| + |ys|
    decreases |xs| + |ys|
  {
    if xs == [] then ys
    else if ys == [] then xs
    else if xs[0] <= ys[0] then [xs[0]] + Merge(xs[1..], ys)
    else [ys[0]] + Merge(xs, ys[1..])
  }

  lemma {:induction false} MergeMultiset(xs: seq<int>, ys: seq<int>)
    ensures multiset(Merge(xs, ys)) == multiset(xs) + multiset(ys)
    decreases |xs| + |ys|
  {
    if xs != [] && ys != [] {
      if xs[0] <= ys[0] {
        var tail := xs[1..];
        MergeMultiset(tail, ys);
        assert Merge(xs, ys) == [xs[0]] + Merge(tail, ys);
        assert xs == [xs[0]] + tail;
      } else {
        var tail := ys[1..];
        MergeMultiset(xs, tail);
        assert Merge(xs, ys) == [ys[0]] + Merge(xs, tail);
        assert ys == [ys[0]] + tail;
      }
    }
  }

  /** Every element of a merge is bounded below by a bound of both inputs. */
  lemma {:induction false} MergeLowerBound(xs: seq<int>, ys: seq<int>, b: int)
    requires forall i :: 0 <= i < |xs| ==> b <= xs[i]
    requires forall j :: 0 <= j < |ys| ==> b <= ys[j]
    ensures forall k :: 0 <= k < |Merge(xs, ys)| ==> b <= Merge(xs, ys)[k]
    decreases |xs| + |ys|
  {
    if xs != [] && ys != [] {
      if xs[0] <= ys[0] {
        MergeLowerBound(xs[1..], ys, b);
      } else {
        MergeLowerBound(xs, ys[1..], b);
      }
    }
  }

  /** Merging two sorted sequences gives a sorted sequence. */
  lemma {:induction false} MergeSorted(xs: seq<int>, ys: seq<int>)
    requires Sorted(xs) && Sorted(ys)
    ensures Sorted(Merge(xs, ys))
    decreases |xs| + |ys|
  {
    if xs != [] && ys != [] {
      if xs[0] <= ys[0] {
        var t := Merge(xs[1..], ys);
        MergeSorted(xs[1..], ys);
        MergeLowerBound(xs[1..], ys, xs[0]);
        assert Merge(xs, ys) == [xs[0]] + t;
      } else {
        var t := Merge(xs, ys[1..]);
        MergeSorted(xs, ys[1..]);
        MergeLowerBound(xs, ys[1..], ys[0]);
        assert Merge(xs, ys) == [ys[0]] + t;
      }
    }
  }

  /** Two sorted runs already in order merge to their concatenation, which is what the early return of `_mergesort_merge` keeps. */
  lemma {:induction false} MergeInOrder(xs: seq<int>, ys: seq<int>)
    requires Sorted(xs) && Sorted(ys)
    requires xs != [] && ys != [] && xs[|xs| - 1] <= ys[0]
    ensures Merge(xs, ys) == xs + ys
    decreases |xs|
  {
    var tail := xs[1..];
    assert xs[0] <= ys[0] by {
      assert xs[0] <= xs[|xs| - 1];
    }
    assert Merge(xs, ys) == [xs[0]] + Merge(tail, ys);
    if tail != [] {
      assert Sorted(tail) && tail[|tail| - 1] == xs[|xs| - 1];
      MergeInOrder(tail, ys);
    }
    assert xs == [xs[0]] + tail;
  }

  /**
   * `_mergesort_merge`: nothing changes when `L[middle-1] <= L[middle]`;
   * otherwise the two runs are merged into a new list that is copied back
   * over `[left, right)`.
   */
  method MergeRuns(a: array<int>, left: int, middle: int, right: int)
    requires 0 <= left < middle < right <= a.Length
    modifies a
    ensures a[..left] == old(a[..left]) && a[right..] == old(a[right..])
    ensures a[left..right] == if old(a[middle - 1] <= a[middle]) then old(a[left..right])
      else Merge(old(a[left..middle]), old(a[middle..right]))
  {
    if a[middle - 1] <= a[middle] {
      return;
    }
    var merged := MergedRuns(a, left, middle, right);
    CopyBack(a, left, merged);
  }

  /** The merge loop of `_mergesort_merge`, which builds the merged list without changing `L`. */
  method MergedRuns(a: array<int>, left: int, middle: int, right: int) returns (merged: seq<int>)
    requires 0 <= left <= middle <= right <= a.Length
    ensures merged == Merge(a[left..middle], a[middle..right])
  {
    ghost var xs, ys := a[left..middle], a[middle..right];
    merged := [];
    var li, ri := left, middle;
    ghost var i: nat, j: nat := 0, 0;
    while li < middle && ri < right
      invariant left <= li <= middle <= ri <= right && li == left + i && ri == middle + j
      invariant merged + MergeFrom(xs, ys, i, j) == MergeFrom(xs, ys, 0, 0)
      decreases (middle - li) + (right - ri)
    {
      assert a[li] == xs[i] && a[ri] == ys[j];
      MergeFromStep(merged, xs, ys, i, j);
      if a[li] <= a[ri] {
        merged := merged + [a[li]];
        li, i := li + 1, i + 1;
      } else {
        merged := merged + [a[ri]];
        ri, j := ri + 1, j + 1;
      }
    }
    if li < middle {
      assert MergeFrom(xs, ys, i, j) == a[li..middle];
      merged := merged + a[li..middle];
    } else if ri < right {
      assert MergeFrom(xs, ys, i, j) == a[ri..right];
      merged := merged + a[ri..right];
    } else {
      assert MergeFrom(xs, ys, i, j) == [];
    }
    MergeFromIs(xs, ys, 0, 0);
    assert xs[0..] == xs && ys[0..] == ys;
  }

  /** The merge of `xs[i..]` and `ys[j..]`, by positions rather than by slices. */
  function MergeFrom(xs: seq<int>, ys: seq<int>, i: nat, j: nat): seq<int>
    requires i <= |xs| && j <= |ys|
    decreases |xs| - i + |ys| - j
  {
    if i == |xs| then ys[j..]
    else if j == |ys| then xs[i..]
    else if xs[i] <= ys[j] then [xs[i]] + MergeFrom(xs, ys, i + 1, j)
    else [ys[j]] + MergeFrom(xs, ys, i, j + 1)
  }

  /** Taking the smaller head keeps what has been taken followed by the merge of the rest unchanged. */
  lemma MergeFromStep(merged: seq<int>, xs: seq<int>, ys: seq<int>, i: nat, j: nat)
    requires i < |xs| && j < |ys|
    ensures xs[i] <= ys[j] ==> (merged + [xs[i]]) + MergeFrom(xs, ys, i + 1, j) == merged + MergeFrom(xs, ys, i, j)
    ensures ys[j] < xs[i] ==> (merged + [ys[j]]) + MergeFrom(xs, ys, i, j + 1) == merged + MergeFrom(xs, ys, i, j)
  {
    if xs[i] <= ys[j] {
      var rest := MergeFrom(xs, ys, i + 1, j);
      assert (merged + [xs[i]]) + rest == merged + ([xs[i]] + rest);
    } else {
      var rest := MergeFrom(xs, ys, i, j + 1);
      assert (merged + [ys[j]]) + rest == merged + ([ys[j]] + rest);
    }
  }

  lemma {:induction false} MergeFromIs(xs: seq<int>, ys: seq<int>, i: nat, j: nat)
    requires i <= |xs| && j <= |ys|
    ensures MergeFrom(xs, ys, i, j) == Merge(xs[i..], ys[j..])
    decreases |xs| - i + |ys| - j
  {
    if i < |xs| && j < |ys| {
      MergeTake(xs, ys, i, j);
      if xs[i] <= ys[j] {
        MergeFromIs(xs, ys, i + 1, j);
      } else {
        MergeFromIs(xs, ys, i, j + 1);
      }
    }
  }

  lemma SliceSplit(s: seq<int>, lo: int, mid: int, hi: int)
    requires 0 <= lo <= mid <= hi <= |s|
    ensures s[lo..hi] == s[lo..mid] + s[mid..hi]
  {
  }

  /** One step of the merge: the smaller head (the first run's on a tie) comes out first. */
  lemma MergeTake(xs: seq<int>, ys: seq<int>, i: int, j: int)
    requires 0 <= i < |xs| && 0 <= j < |ys|
    ensures xs[i] <= ys[j] ==> Merge(xs[i..], ys[j..]) == [xs[i]] + Merge(xs[i + 1..], ys[j..])
    ensures ys[j] < xs[i] ==> Merge(xs[i..], ys[j..]) == [ys[j]] + Merge(xs[i..], ys[j + 1..])
  {
    assert xs[i..][1..] == xs[i + 1..];
    assert ys[j..][1..] == ys[j + 1..];
  }

  /** `L[left:left + len(merged)] = merged` */
  method CopyBack(a: array<int>, left: int, merged: seq<int>)
    requires 0 <= left && left + |merged| <= a.Length
    modifies a
    ensures a[..left] == old(a[..left]) && a[left + |merged|..] == old(a[left + |merged|..])
    ensures a[left..left + |merged|] == merged
  {
    var k := 0;
    while k < |merged|
      invariant 0 <= k <= |merged|
      invariant a[..left] == old(a[..left]) && a[left + |merged|..] == old(a[left + |merged|..])
      invariant a[left..left + k] == merged[..k]
      invariant a[left + k..left + |merged|] == old(a[left + k..left + |merged|])
    {
      a[left + k] := merged[k];
      k := k + 1;
    }
  }

  /** After the two halves are sorted, the merge leaves the whole range sorted and permuted. */
  lemma MergeStep(s0: seq<int>, s1: seq<int>, left: int, middle: int, right: int)
    requires 0 <= left < middle < right <= |s0| == |s1|
    requires Sorted(s0[left..middle]) && Sorted(s0[middle..right])
    requires s1[..left] == s0[..left] && s1[right..] == s0[right..]
    requires s1[left..right] == if s0[middle - 1] <= s0[middle] then s0[left..right]
      else Merge(s0[left..middle], s0[middle..right])
    ensures PermutedWithin(s0, s1, left, right) && Sorted(s1[left..right])
  {
    var xs, ys := s0[left..middle], s0[middle..right];
    SliceSplit(s0, left, middle, right);
    MergeSorted(xs, ys);
    MergeMultiset(xs, ys);
    if s0[middle - 1] <= s0[middle] {
      assert xs[|xs| - 1] == s0[middle - 1] && ys[0] == s0[middle];
      MergeInOrder(xs, ys);
    }
  }

  /**
   * `mergesort`: ValueError when `left > right`; otherwise small ranges go
   * to insertion sort, larger ones are split at the midpoint, sorted and merged.
   */
  method MergeSortRange(a: array<int>, left: int, right: int) returns (r: Result<set<Algorithm>>)
    requires 0 <= left && right <= a.Length
    modifies a
    decreases right - left
    ensures left > right ==> r == Err(ValueError) && a[..] == old(a[..])
    ensures left <= right ==> r.Ok? && PermutedWithin(old(a[..]), a[..], left, right) && Sorted(a[left..right])
    ensures left <= right ==> r.value <= {InsertionSort, MergeSort}
    ensures left <= right && right - left <= 1 ==> r.value == {}
    ensures left <= right && 1 < right - left <= SmallListThreshold ==> r.value == {InsertionSort}
    ensures left <= right && right - left > SmallListThreshold ==> r.value == {InsertionSort, MergeSort}
  {
    if !(left <= right) {
      return Err(ValueError);
    }
    if right - left <= 1 {
      assert PermutedWithin(old(a[..]), a[..], left, right);
      return Ok({});
    }
    if right - left <= SmallListThreshold {
      var _ := InsertionSortRange(a, left, right);
      return Ok({InsertionSort});
    }
    var middle := (left + right) / 2;
    var r1 := MergeSortRange(a, left, middle);
    ghost var s1 := a[..];
    var r2 := MergeSortRange(a, middle, right);
    ghost var s2 := a[..];
    HalvesSorted(old(a[..]), s1, s2, left, middle, right);
    MergeRuns(a, left, middle, right);
    MergeStep(s2, a[..], left, middle, right);
    PermutedWithinTrans(old(a[..]), s2, a[..], left, right);
    r := Ok(r1.value + r2.value + {MergeSort});
  }

  /** Sorting each half in turn leaves both halves sorted and the range permuted. */
  lemma HalvesSorted(s: seq<int>, s1: seq<int>, s2: seq<int>, left: int, middle: int, right: int)
    requires 0 <= left <= middle <= right <= |s|
    requires PermutedWithin(s, s1, left, middle) && Sorted(s1[left..middle])
    requires PermutedWithin(s1, s2, middle, right) && Sorted(s2[middle..right])
    ensures PermutedWithin(s, s2, left, right)
    ensures Sorted(s2[left..middle]) && Sorted(s2[middle..right])
  {
    assert s2[left..middle] == s2[..middle][left..] && s1[left..middle] == s1[..middle][left..];
    PermutedWithinWiden(s, s1, left, middle, left, right);
    PermutedWithinWiden(s1, s2, middle, right, left, right);
    PermutedWithinTrans(s, s1, s2, left, right);
  }

  // ---------------------------------------------------------------------------
  // magic_sort

  /**
   * `magic_sort`: sort the whole list with the algorithm the scan suggests,
   * returning the set of algorithms used.
   */
  method MagicSortList(a: array<int>) returns (algs: set<Algorithm>)
    modifies a
    ensures Sorted(a[..]) && multiset(a[..]) == multiset(old(a[..]))
    ensures var c := Classify(Descents(old(a[..])), a.Length);
      && (c == Some(AlreadySorted) ==> algs == {} && a[..] == old(a[..]))
      && (c == Some(ReverseSorted) ==> algs == {ReverseList} && a[..] == Reverse(old(a[..])))
      && (c == Some(MostlySorted) ==> algs == {InsertionSort})
      && (c == Some(MostlyReverseSorted) ==> algs == {ReverseList, InsertionSort})
      && (c == None ==> algs <= {InsertionSort, QuickSort, MergeSort})
      && (c == None && a.Length <= SmallListThreshold ==> algs == {InsertionSort})
      && (c == None && a.Length > SmallListThreshold ==> QuickSort in algs && InsertionSort in algs)
  {
    ghost var s := a[..];
    var c := LinearScan(a);
    match c {
      case Some(AlreadySorted) =>
        DescentsZeroIffSorted(s);
        algs := {};
      case Some(ReverseSorted) =>
        DescentsFullIffDecreasing(s);
        ReverseOfDecreasing(s);
        ReverseMultiset(s);
        ReverseInPlace(a);
        algs := {ReverseList};
      case Some(MostlySorted) =>
        var _ := InsertionSortRange(a, 0, a.Length);
        WholeRange(s, a[..]);
        algs := {InsertionSort};
      case Some(MostlyReverseSorted) =>
        ReverseMultiset(s);
        ReverseInPlace(a);
        ghost var s1 := a[..];
        var _ := InsertionSortRange(a, 0, a.Length);
        WholeRange(s1, a[..]);
        algs := {ReverseList, InsertionSort};
      case None =>
        var r := QuickSortRange(a, 0, a.Length);
        WholeRange(s, a[..]);
        algs := r.value;
    }
  }

  /** A permutation of the whole range is a permutation of the sequence. */
  lemma WholeRange(s: seq<int>, t: seq<int>)
    requires PermutedWithin(s, t, 0, |s|)
    ensures multiset(t) == multiset(s) && t[0..|t|] == t
  {
    assert s[0..|s|] == s && t[0..|t|] == t;
  }
}
