/**
 * The two pair-sum searches of hw3/hw3.py. Both walk the input list and
 * collect, into a set, ordered pairs of values that add up to the target.
 */
module Pairs {

  /** The pairs the nested loops of `find_pairs_naive` collect: a value, then one at a later index. */
  ghost function NaivePairs(nums: seq<int>, target: int): set<(int, int)>
  {
    set i, j | 0 <= i < j < |nums| && nums[i] + nums[j] == target :: (nums[i], nums[j])
  }

  /** The pairs collected once the outer loop has passed index `i` and the inner loop index `j`. */
  ghost function NaivePairsUpTo(nums: seq<int>, target: int, i: int, j: int): set<(int, int)>
  {
    set a, b | 0 <= a < b < |nums| && (a < i || (a == i && b < j)) && nums[a] + nums[b] == target :: (nums[a], nums[b])
  }

  /** `find_pairs_naive`: every value against every value after it. */
  method FindPairsNaive(nums: seq<int>, target: int) returns (pairs: set<(int, int)>)
    ensures pairs == NaivePairs(nums, target)
  {
    pairs := {};
    var i := 0;
    while i < |nums|
      invariant 0 <= i <= |nums|
      invariant pairs == NaivePairsUpTo(nums, target, i, 0)
    {
      var j := i + 1;
      NaiveRowStart(nums, target, i);
      while j < |nums|
        invariant i < j <= |nums|
        invariant pairs == NaivePairsUpTo(nums, target, i, j)
      {
        NaiveStep(nums, target, i, j);
        if nums[i] + nums[j] == target {
          pairs := pairs + {(nums[i], nums[j])};
        }
        j := j + 1;
      }
      NaiveRowEnd(nums, target, i);
      i := i + 1;
    }
    NaiveDone(nums, target);
  }

  lemma NaiveRowStart(nums: seq<int>, target: int, i: int)
    requires 0 <= i < |nums|
    ensures NaivePairsUpTo(nums, target, i, 0) == NaivePairsUpTo(nums, target, i, i + 1)
  {
    forall p | p in NaivePairsUpTo(nums, target, i, i + 1)
      ensures p in NaivePairsUpTo(nums, target, i, 0)
    {
      var a, b :| 0 <= a < b < |nums| && (a < i || (a == i && b < i + 1)) && nums[a] + nums[b] == target && p == (nums[a], nums[b]);
    }
  }

  lemma NaiveStep(nums: seq<int>, target: int, i: int, j: int)
    requires 0 <= i < j < |nums|
    ensures NaivePairsUpTo(nums, target, i, j + 1) ==
      NaivePairsUpTo(nums, target, i, j) + (if nums[i] + nums[j] == target then {(nums[i], nums[j])} else {})
  {
    var A, B := NaivePairsUpTo(nums, target, i, j + 1), NaivePairsUpTo(nums, target, i, j);
    forall p | p in A
      ensures p in B || (nums[i] + nums[j] == target && p == (nums[i], nums[j]))
    {
      var a, b :| 0 <= a < b < |nums| && (a < i || (a == i && b < j + 1)) && nums[a] + nums[b] == target && p == (nums[a], nums[b]);
      if a < i || b < j {
        assert p in B;
      }
    }
  }

  lemma NaiveRowEnd(nums: seq<int>, target: int, i: int)
    requires 0 <= i < |nums|
    ensures NaivePairsUpTo(nums, target, i, |nums|) == NaivePairsUpTo(nums, target, i + 1, 0)
  {
    forall p | p in NaivePairsUpTo(nums, target, i + 1, 0)
      ensures p in NaivePairsUpTo(nums, target, i, |nums|)
    {
      var a, b :| 0 <= a < b < |nums| && (a < i + 1 || (a == i + 1 && b < 0)) && nums[a] + nums[b] == target && p == (nums[a], nums[b]);
    }
  }

  lemma NaiveDone(nums: seq<int>, target: int)
    ensures NaivePairsUpTo(nums, target, |nums|, 0) == NaivePairs(nums, target)
  {
  }

  /** Every naive pair adds up to the target, and both of its values occur in the input. */
  lemma NaivePairsSound(nums: seq<int>, target: int, p: (int, int))
    requires p in NaivePairs(nums, target)
    ensures p.0 + p.1 == target && p.0 in nums && p.1 in nums
  {
    var i, j :| 0 <= i < j < |nums| && nums[i] + nums[j] == target && p == (nums[i], nums[j]);
  }

  /** Fewer than two values give no pair. */
  lemma NaivePairsShort(nums: seq<int>, target: int)
    requires |nums| <= 1
    ensures NaivePairs(nums, target) == {}
  {
  }

  /** `[1, 2, 3, 4, 5]` with target 6 gives `{(1, 5), (2, 4)}`. */
  lemma NaivePairsExample()
    ensures NaivePairs([1, 2, 3, 4, 5], 6) == {(1, 5), (2, 4)}
  {
    var nums := [1, 2, 3, 4, 5];
    forall p | p in NaivePairs(nums, 6)
      ensures p == (1, 5) || p == (2, 4)
    {
      var i, j :| 0 <= i < j < |nums| && nums[i] + nums[j] == 6 && p == (nums[i], nums[j]);
    }
    assert nums[0] + nums[4] == 6 && nums[1] + nums[3] == 6;
  }

  // ---------------------------------------------------------------------------

  /** `a` and `b` are collected, in one order or the other. */
  predicate Paired(pairs: set<(int, int)>, a: int, b: int)
  {
    (a, b) in pairs || (b, a) in pairs
  }

  /** The index of the first occurrence of `x` in `s`. */
  function FirstIndex(s: seq<int>, x: int): (r: nat)
    requires x in s
    ensures r < |s| && s[r] == x && x !in s[..r]
  {
    if s[0] == x then 0 else
      var r := 1 + FirstIndex(s[1..], x);
      assert s[..r] == [s[0]] + s[1..][..r - 1];
      r
  }

  /** What `find_pairs_optimized` promises about its result for `nums` and `target`. */
  ghost predicate OptimizedPairsOk(nums: seq<int>, target: int, pairs: set<(int, int)>)
  {
    // each pair adds up to the target, of two different values both in the input
    && (forall p :: p in pairs ==> p.0 + p.1 == target && p.0 != p.1 && p.0 in nums && p.1 in nums)
    // no pair appears in both orders
    && (forall p :: p in pairs ==> (p.1, p.0) !in pairs)
    // every value whose different partner occurs is paired with it, in one order
    && (forall i :: 0 <= i < |nums| && target - nums[i] in nums && target - nums[i] != nums[i] ==>
          Paired(pairs, nums[i], target - nums[i]))
    // that order is the order in which the two values first occur
    && InFirstOrder(nums, pairs)
  }

  /** Each pair holds two values of the input, the one that occurs first in front. */
  ghost predicate InFirstOrder(nums: seq<int>, pairs: set<(int, int)>)
  {
    forall p :: p in pairs ==> p.0 in nums && p.1 in nums && FirstIndex(nums, p.0) < FirstIndex(nums, p.1)
  }

  /**
   * `find_pairs_optimized`: one pass, looking each value's partner up in
   * the set of all values, skipping a value paired with itself and a pair
   * already collected the other way round.
   */
  method FindPairsOptimized(nums: seq<int>, target: int) returns (pairs: set<(int, int)>)
    ensures OptimizedPairsOk(nums, target, pairs)
  {
    var numSet := set x | x in nums;
    pairs := {};
    var k := 0;
    while k < |nums|
      invariant 0 <= k <= |nums|
      invariant OptimizedSoFar(nums, target, k, pairs)
    {
      var n := nums[k];
      var m := target - n;
      if m in numSet && m != n {
        if (m, n) !in pairs {
          OptimizedAdd(nums, target, k, pairs);
          pairs := pairs + {(n, m)};
        } else {
          OptimizedKeep(nums, target, k, pairs);
        }
      } else {
        OptimizedKeep(nums, target, k, pairs);
      }
      k := k + 1;
    }
  }

  /** Each pair adds up to the target, of two different values both in the input. */
  ghost predicate SumsToTarget(nums: seq<int>, target: int, pairs: set<(int, int)>)
  {
    forall p :: p in pairs ==> p.0 + p.1 == target && p.0 != p.1 && p.0 in nums && p.1 in nums
  }

  /** No pair appears in both orders. */
  ghost predicate OneOrder(pairs: set<(int, int)>)
  {
    forall p :: p in pairs ==> (p.1, p.0) !in pairs
  }

  /** Each of the first `k` values whose different partner occurs is paired with it. */
  ghost predicate PairedUpTo(nums: seq<int>, target: int, k: int, pairs: set<(int, int)>)
    requires 0 <= k <= |nums|
  {
    forall i :: 0 <= i < k && target - nums[i] in nums && target - nums[i] != nums[i] ==>
      Paired(pairs, nums[i], target - nums[i])
  }

  /** The loop invariant of `find_pairs_optimized` once the first `k` values are handled. */
  ghost predicate OptimizedSoFar(nums: seq<int>, target: int, k: int, pairs: set<(int, int)>)
    requires 0 <= k <= |nums|
  {
    SumsToTarget(nums, target, pairs) && OneOrder(pairs) && PairedUpTo(nums, target, k, pairs) && InFirstOrder(nums, pairs)
  }

  /** A turn of the loop that collects a new pair keeps the invariant. */
  lemma OptimizedAdd(nums: seq<int>, target: int, k: int, pairs: set<(int, int)>)
    requires 0 <= k < |nums| && OptimizedSoFar(nums, target, k, pairs)
    requires var n, m := nums[k], target - nums[k]; m in nums && m != n && (m, n) !in pairs
    ensures OptimizedSoFar(nums, target, k + 1, pairs + {(nums[k], target - nums[k])})
  {
    var n, m := nums[k], target - nums[k];
    FirstSeenFirst(nums, target, k, pairs);
    AddInFirstOrder(nums, pairs, n, m);
    AddOneOrder(nums, pairs + {(n, m)});
    AddPaired(nums, target, k, pairs, pairs + {(n, m)});
    AddSums(nums, target, pairs, n, m);
  }

  /** A turn of the loop that collects nothing keeps the invariant. */
  lemma OptimizedKeep(nums: seq<int>, target: int, k: int, pairs: set<(int, int)>)
    requires 0 <= k < |nums| && OptimizedSoFar(nums, target, k, pairs)
    requires var n, m := nums[k], target - nums[k]; !(m in nums && m != n && (m, n) !in pairs)
    ensures OptimizedSoFar(nums, target, k + 1, pairs)
  {
    KeepPaired(nums, target, k, pairs);
  }

  /** Pairs in first-occurrence order never appear in both orders. */
  lemma AddOneOrder(nums: seq<int>, pairs: set<(int, int)>)
    requires InFirstOrder(nums, pairs)
    ensures OneOrder(pairs)
  {
  }

  lemma AddSums(nums: seq<int>, target: int, pairs: set<(int, int)>, n: int, m: int)
    requires SumsToTarget(nums, target, pairs) && n in nums && m in nums && n + m == target && n != m
    ensures SumsToTarget(nums, target, pairs + {(n, m)})
  {
  }

  lemma KeepPaired(nums: seq<int>, target: int, k: int, pairs: set<(int, int)>)
    requires 0 <= k < |nums| && PairedUpTo(nums, target, k, pairs)
    requires var n, m := nums[k], target - nums[k]; !(m in nums && m != n && (m, n) !in pairs)
    ensures PairedUpTo(nums, target, k + 1, pairs)
  {
  }

  lemma AddPaired(nums: seq<int>, target: int, k: int, before: set<(int, int)>, after: set<(int, int)>)
    requires 0 <= k < |nums| && PairedUpTo(nums, target, k, before)
    requires after == before + {(nums[k], target - nums[k])}
    ensures PairedUpTo(nums, target, k + 1, after)
  {
    forall i | 0 <= i < k + 1 && target - nums[i] in nums && target - nums[i] != nums[i]
      ensures Paired(after, nums[i], target - nums[i])
    {
      if i < k {
        assert Paired(before, nums[i], target - nums[i]);
      }
    }
  }

  /**
   * When the value at `k` finds its partner and the pair is not yet
   * collected the other way round, the value occurred first.
   */
  lemma FirstSeenFirst(nums: seq<int>, target: int, k: int, pairs: set<(int, int)>)
    requires 0 <= k < |nums| && target - nums[k] in nums && target - nums[k] != nums[k]
    requires (target - nums[k], nums[k]) !in pairs
    requires PairedUpTo(nums, target, k, pairs) && InFirstOrder(nums, pairs)
    ensures FirstIndex(nums, nums[k]) < FirstIndex(nums, target - nums[k])
  {
    var n, m := nums[k], target - nums[k];
    var i, j := FirstIndex(nums, n), FirstIndex(nums, m);
    if j < i {
      assert false;
    }
  }

  lemma AddInFirstOrder(nums: seq<int>, pairs: set<(int, int)>, n: int, m: int)
    requires InFirstOrder(nums, pairs) && n in nums && m in nums && FirstIndex(nums, n) < FirstIndex(nums, m)
    ensures InFirstOrder(nums, pairs + {(n, m)})
  {
  }

  /** Every pair of different values from the input that adds up to the target is collected, first-occurring value first. */
  lemma OptimizedOrientation(nums: seq<int>, target: int, pairs: set<(int, int)>, a: int, b: int)
    requires OptimizedPairsOk(nums, target, pairs)
    requires a in nums && b in nums && a + b == target && FirstIndex(nums, a) < FirstIndex(nums, b)
    ensures (a, b) in pairs && (b, a) !in pairs
  {
    var i := FirstIndex(nums, a);
    assert nums[i] == a && target - nums[i] == b;
  }

  /** Fewer than two values give no pair. */
  lemma OptimizedPairsShort(nums: seq<int>, target: int, pairs: set<(int, int)>)
    requires |nums| <= 1 && OptimizedPairsOk(nums, target, pairs)
    ensures pairs == {}
  {
  }

  /** Up to the order within a pair, the optimized search finds exactly the naive pairs of different values. */
  lemma OptimizedMatchesNaive(nums: seq<int>, target: int, pairs: set<(int, int)>, a: int, b: int)
    requires OptimizedPairsOk(nums, target, pairs) && a != b
    ensures Paired(pairs, a, b) <==> ((a, b) in NaivePairs(nums, target) || (b, a) in NaivePairs(nums, target))
  {
    if Paired(pairs, a, b) {
      var i :| 0 <= i < |nums| && nums[i] == a;
      var j :| 0 <= j < |nums| && nums[j] == b;
      assert a + b == target;
      if i < j {
        assert (a, b) in NaivePairs(nums, target);
      } else {
        assert i != j;
        assert (nums[j], nums[i]) in NaivePairs(nums, target);
      }
    }
    if (a, b) in NaivePairs(nums, target) || (b, a) in NaivePairs(nums, target) {
      var p := if (a, b) in NaivePairs(nums, target) then (a, b) else (b, a);
      var i, j :| 0 <= i < j < |nums| && nums[i] + nums[j] == target && p == (nums[i], nums[j]);
      assert target - nums[i] == nums[j];
    }
  }
}
