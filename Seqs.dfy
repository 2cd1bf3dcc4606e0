/** Facts about integer sequences shared by the sorting and searching modules. */
module Seqs {
  /** Non-decreasing. */
  predicate Sorted(s: seq<int>)
  {
    forall i, j :: 0 <= i < j < |s| ==> s[i] <= s[j]
  }

  /** No element occurs twice. */
  predicate NoDups<T(==)>(s: seq<T>)
  {
    forall i, j :: 0 <= i < j < |s| ==> s[i] != s[j]
  }

  /** Strictly decreasing. */
  predicate StrictlyDecreasing(s: seq<int>)
  {
    forall i, j :: 0 <= i < j < |s| ==> s[i] > s[j]
  }

  /** `s` and `t` agree outside `[lo, hi)` and hold the same elements inside it. */
  predicate PermutedWithin(s: seq<int>, t: seq<int>, lo: int, hi: int)
  {
    0 <= lo <= hi <= |s| == |t|
    && s[..lo] == t[..lo] && s[hi..] == t[hi..]
    && multiset(s[lo..hi]) == multiset(t[lo..hi])
  }

  function Reverse<T>(s: seq<T>): (r: seq<T>)
    ensures |r| == |s|
    ensures forall i :: 0 <= i < |s| ==> r[i] == s[|s| - 1 - i]
  {
    if s == [] then [] else Reverse(s[1..]) + [s[0]]
  }

  lemma ReverseReverse<T>(s: seq<T>)
    ensures Reverse(Reverse(s)) == s
  {
  }

  /** Concatenation regrouped: the last three parts of a four-part concatenation may be joined first. */
  lemma Regroup<T>(a: seq<T>, b: seq<T>, c: seq<T>, d: seq<T>)
    ensures a + b + c + d == a + (b + c + d)
  {
  }

  /** Reversing a concatenation reverses the order of the parts. */
  lemma {:induction false} ReverseConcat<T>(a: seq<T>, b: seq<T>)
    ensures Reverse(a + b) == Reverse(b) + Reverse(a)
  {
    if a == [] {
      assert a + b == b;
    } else {
      assert (a + b)[1..] == a[1..] + b;
      ReverseConcat(a[1..], b);
    }
  }

  lemma ReverseOfDecreasing(s: seq<int>)
    requires StrictlyDecreasing(s)
    ensures Sorted(Reverse(s))
  {
  }

  lemma ReverseMultiset<T>(s: seq<T>)
    ensures multiset(Reverse(s)) == multiset(s)
  {
    if s != [] {
      ReverseMultiset(s[1..]);
      assert s == [s[0]] + s[1..];
    }
  }

  /** Combining two range permutations. */
  lemma PermutedWithinTrans(s: seq<int>, t: seq<int>, u: seq<int>, lo: int, hi: int)
    requires PermutedWithin(s, t, lo, hi) && PermutedWithin(t, u, lo, hi)
    ensures PermutedWithin(s, u, lo, hi)
  {
  }

  /** A permutation of a sub-range is a permutation of any range containing it. */
  lemma PermutedWithinWiden(s: seq<int>, t: seq<int>, lo: int, hi: int, lo': int, hi': int)
    requires PermutedWithin(s, t, lo, hi) && 0 <= lo' <= lo && hi <= hi' <= |s|
    ensures PermutedWithin(s, t, lo', hi')
  {
    assert s[lo'..hi'] == s[lo'..lo] + s[lo..hi] + s[hi..hi'];
    assert t[lo'..hi'] == t[lo'..lo] + t[lo..hi] + t[hi..hi'];
    assert s[lo'..lo] == s[..lo][lo'..] && t[lo'..lo] == t[..lo][lo'..];
    assert s[hi..hi'] == s[hi..][..hi' - hi] && t[hi..hi'] == t[hi..][..hi' - hi];
  }

  /** Swapping two positions of a range permutes that range. */
  lemma SwapPermutes(s: seq<int>, lo: int, hi: int, i: int, j: int)
    requires 0 <= lo <= i < hi <= |s| && lo <= j < hi
    ensures PermutedWithin(s, s[i := s[j]][j := s[i]], lo, hi)
  {
    var t := s[i := s[j]][j := s[i]];
    assert t[..lo] == s[..lo];
    assert t[hi..] == s[hi..];
    var a, b := s[lo..hi], t[lo..hi];
    assert b == a[i - lo := a[j - lo]][j - lo := a[i - lo]];
  }

  /** Puts `x` before the first element greater than it. */
  function SortedInsert(x: int, s: seq<int>): (r: seq<int>)
    ensures multiset(r) == multiset(s) + multiset{x} && |r| == |s| + 1
  {
    if s == [] then [x]
    else
      assert s == [s[0]] + s[1..];
      if x < s[0] then [x] + s else [s[0]] + SortedInsert(x, s[1..])
  }

  /** Inserting keeps a sequence sorted. */
  lemma {:induction false} SortedInsertSorted(x: int, s: seq<int>)
    requires Sorted(s)
    ensures Sorted(SortedInsert(x, s))
  {
    if s != [] && x >= s[0] {
      SortedInsertSorted(x, s[1..]);
      var tail := SortedInsert(x, s[1..]);
      forall k | 0 <= k < |tail|
        ensures s[0] <= tail[k]
      {
        assert tail[k] in multiset(tail);
        if tail[k] != x {
          assert tail[k] in multiset(s[1..]);
          var m :| 0 <= m < |s[1..]| && s[1..][m] == tail[k];
          assert s[m + 1] == tail[k];
        }
      }
    }
  }

  /** The least element of a sorted sequence is its first. */
  lemma SortedFirstIsLeast(s: seq<int>, x: int)
    requires Sorted(s) && x in multiset(s)
    ensures s[0] <= x
  {
    var k :| 0 <= k < |s| && s[k] == x;
  }

  lemma SameFirst(s: seq<int>, t: seq<int>)
    requires Sorted(s) && Sorted(t) && multiset(s) == multiset(t) && s != []
    ensures t != [] && s[0] == t[0]
  {
    assert s[0] in multiset(t);
    assert t[0] in multiset(s);
    SortedFirstIsLeast(s, t[0]);
    SortedFirstIsLeast(t, s[0]);
  }

  lemma SameRest<T>(s: seq<T>, t: seq<T>)
    requires multiset(s) == multiset(t) && s != [] && t != [] && s[0] == t[0]
    ensures multiset(s[1..]) == multiset(t[1..])
  {
    assert s == [s[0]] + s[1..] && t == [t[0]] + t[1..];
    assert multiset(s[1..]) == multiset(s) - multiset{s[0]};
    assert multiset(t[1..]) == multiset(t) - multiset{s[0]};
  }

  /** Two sorted arrangements of the same elements are the same sequence. */
  lemma {:induction false} SortedUnique(s: seq<int>, t: seq<int>)
    requires Sorted(s) && Sorted(t) && multiset(s) == multiset(t)
    ensures s == t
    decreases |s|
  {
    if s != [] {
      SameFirst(s, t);
      SameRest(s, t);
      SortedUnique(s[1..], t[1..]);
    } else {
      assert |t| == |multiset(t)| == 0;
    }
  }

  /** Appending and then sorting, by any method, gives `SortedInsert`. */
  lemma AppendThenSort(s: seq<int>, x: int, t: seq<int>)
    requires Sorted(s) && Sorted(t) && multiset(t) == multiset(s + [x])
    ensures t == SortedInsert(x, s)
  {
    SortedInsertSorted(x, s);
    SortedUnique(SortedInsert(x, s), t);
  }
}
