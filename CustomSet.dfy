/**
 * The hash set of lab8/lab8.py: a list of buckets, each a list of items,
 * an item's bucket being its hash modulo the number of buckets. The table
 * starts with 8 buckets, doubles when more than half as many items as
 * buckets are stored, and halves when fewer than a quarter are, but never
 * below 8. Python's `hash` is the constructor parameter `hash`; for a
 * positive modulus Python's `%` and Dafny's agree on every integer.
 */
module CustomSets {
  import opened Util
  import opened Seqs

  const MinBuckets := 8

  /** `hash(x) % n`. */
  function BucketOf<T>(hash: T -> int, x: T, n: int): (i: int)
    requires n > 0
    ensures 0 <= i < n
  {
    hash(x) % n
  }

  /** Everything in the buckets `L` is in `s`, in bucket `hash(x) % |L|`. */
  ghost predicate Holds<T>(hash: T -> int, L: seq<seq<T>>, s: set<T>)
  {
    forall j, k :: 0 <= j < |L| && 0 <= k < |L[j]| ==> L[j][k] in s && BucketOf(hash, L[j][k], |L|) == j
  }

  /** Everything in `s` is in its bucket. */
  ghost predicate Covers<T>(hash: T -> int, L: seq<seq<T>>, s: set<T>)
  {
    |L| > 0 && forall x :: x in s ==> x in L[BucketOf(hash, x, |L|)]
  }

  ghost predicate Distinct<T>(L: seq<seq<T>>)
  {
    forall j :: 0 <= j < |L| ==> NoDups(L[j])
  }

  /** The buckets `L` hold exactly the items of `s`, each once, in bucket `hash(x) % |L|`. */
  ghost predicate Placed<T>(hash: T -> int, L: seq<seq<T>>, s: set<T>)
  {
    Holds(hash, L, s) && Covers(hash, L, s) && Distinct(L)
  }

  /** `list.remove(x)`: the first occurrence of `x` dropped. */
  function Without<T(==)>(s: seq<T>, x: T): (r: seq<T>)
    requires x in s
    ensures |r| == |s| - 1
    ensures multiset(r) == multiset(s) - multiset{x}
  {
    assert s == [s[0]] + s[1..];
    if s[0] == x then s[1..]
    else [s[0]] + Without(s[1..], x)
  }

  lemma {:induction false} WithoutNoDups<T>(s: seq<T>, x: T)
    requires x in s && NoDups(s)
    ensures NoDups(Without(s, x))
    ensures forall k :: 0 <= k < |Without(s, x)| ==> Without(s, x)[k] in s && Without(s, x)[k] != x
  {
    assert s == [s[0]] + s[1..];
    assert forall j :: 0 < j < |s| ==> s[j] != s[0];
    if s[0] != x {
      WithoutNoDups(s[1..], x);
      var w := Without(s[1..], x);
      assert Without(s, x) == [s[0]] + w;
    }
  }

  /** The empty buckets of a new table. */
  lemma EmptyPlaced<T>(hash: T -> int, m: int)
    requires m > 0
    ensures Placed(hash, seq(m, _ => []), {})
  {
  }

  /** Appending a new item to its bucket adds it to the set held. */
  lemma AppendPlaced<T>(hash: T -> int, L: seq<seq<T>>, s: set<T>, x: T)
    requires Placed(hash, L, s) && x !in s
    ensures var i := BucketOf(hash, x, |L|);
      Placed(hash, L[i := L[i] + [x]], s + {x})
  {
    var i := BucketOf(hash, x, |L|);
    var L' := L[i := L[i] + [x]];
    forall j, k | 0 <= j < |L'| && 0 <= k < |L'[j]|
      ensures L'[j][k] in s + {x} && BucketOf(hash, L'[j][k], |L'|) == j
    {
      if j == i && k == |L[i]| {
      } else {
        assert L'[j][k] == L[j][k];
      }
    }
    forall y | y in s + {x}
      ensures y in L'[BucketOf(hash, y, |L'|)]
    {
      if y != x {
        var jy := BucketOf(hash, y, |L|);
        if jy == i {
          assert L'[jy] == L[jy] + [x];
        }
      }
    }
    forall j | 0 <= j < |L'|
      ensures NoDups(L'[j])
    {
      if j == i {
        forall k | 0 <= k < |L[i]|
          ensures L[i][k] != x
        {
        }
      }
    }
  }

  /** What bucket `j` holds is in the set and hashes to `j`. */
  lemma InBucket<T>(hash: T -> int, L: seq<seq<T>>, s: set<T>, j: int, y: T)
    requires Holds(hash, L, s) && 0 <= j < |L| && y in L[j]
    ensures y in s && BucketOf(hash, y, |L|) == j
  {
    var k :| 0 <= k < |L[j]| && L[j][k] == y;
  }

  /** Removing an item from its bucket removes it from the set held. */
  lemma RemovePlaced<T>(hash: T -> int, L: seq<seq<T>>, s: set<T>, x: T)
    requires Placed(hash, L, s) && x in s
    ensures var i := BucketOf(hash, x, |L|);
      x in L[i] && Placed(hash, L[i := Without(L[i], x)], s - {x})
  {
    var i := BucketOf(hash, x, |L|);
    WithoutNoDups(L[i], x);
    var L' := L[i := Without(L[i], x)];
    forall j, k | 0 <= j < |L'| && 0 <= k < |L'[j]|
      ensures L'[j][k] in s - {x} && BucketOf(hash, L'[j][k], |L'|) == j
    {
      if j == i {
        InBucket(hash, L, s, i, L'[j][k]);
      } else {
        assert L'[j][k] == L[j][k];
      }
    }
    forall y | y in s - {x}
      ensures y in L'[BucketOf(hash, y, |L'|)]
    {
      if BucketOf(hash, y, |L|) == i {
        assert y in multiset(L[i]) - multiset{x};
      }
    }
    assert Holds(hash, L', s - {x});
    assert Covers(hash, L', s - {x});
  }

  class CustomSet<T(==)> {
    const hash: T -> int
    /** `_n_buckets`. */
    var nBuckets: int
    /** `_len`. */
    var len: int
    /** `_L`. */
    var buckets: seq<seq<T>>
    /** The items held. */
    ghost var elems: set<T>

    ghost predicate Valid()
      reads this
    {
      && nBuckets >= MinBuckets
      && |buckets| == nBuckets
      && Placed(hash, buckets, elems)
      && len == |elems|
    }

    /** `CustomSet()`: 8 empty buckets. */
    constructor(hash: T -> int)
      ensures Valid() && elems == {} && len == 0 && nBuckets == 8
      ensures this.hash == hash
    {
      this.hash := hash;
      nBuckets := 8;
      len := 0;
      buckets := seq(8, _ => []);
      elems := {};
      new;
      EmptyPlaced(hash, 8);
    }

    /** `_find_bucket`. */
    function FindBucket(x: T): (i: int)
      reads this
      requires nBuckets > 0
      ensures 0 <= i < nBuckets
      ensures Valid() && x in elems ==> x in buckets[i]
    {
      BucketOf(hash, x, nBuckets)
    }

    /** `__len__`: the number of items held. */
    function Len(): (n: int)
      reads this
      requires Valid()
      ensures n == |elems|
    {
      len
    }

    /** `__contains__`: looks only in the item's own bucket, which is where it would be. */
    function Contains(x: T): (r: bool)
      reads this
      requires Valid()
      ensures r <==> x in elems
    {
      x in buckets[FindBucket(x)]
    }

    /** `_rehash(m)`: every item moved to bucket `hash % m` of `m` new buckets, in the order of the old ones. */
    method Rehash(m: int)
      requires Valid() && m >= MinBuckets
      modifies this
      ensures Valid() && elems == old(elems) && len == old(len) && nBuckets == m
    {
      var L: seq<seq<T>> := seq(m, _ => []);
      ghost var done: set<T> := {};
      EmptyPlaced(hash, m);
      var b := 0;
      while b < |buckets|
        invariant 0 <= b <= |buckets|
        invariant Valid() && unchanged(this)
        invariant |L| == m && Placed(hash, L, done)
        invariant forall x :: x in done <==> x in elems && BucketOf(hash, x, nBuckets) < b
      {
        L, done := MoveBucket(L, done, b);
        b := b + 1;
      }
      buckets, nBuckets := L, m;
      assert forall x :: x in done <==> x in elems;
      assert done == elems;
    }

    /** The inner loop of `_rehash`: the items of old bucket `b` appended to their new buckets. */
    method MoveBucket(L: seq<seq<T>>, ghost done: set<T>, b: int) returns (L': seq<seq<T>>, ghost done': set<T>)
      requires Valid() && 0 <= b < nBuckets
      requires Placed(hash, L, done)
      requires forall x :: x in done <==> x in elems && BucketOf(hash, x, nBuckets) < b
      ensures |L'| == |L| && Placed(hash, L', done')
      ensures forall x :: x in done' <==> x in elems && BucketOf(hash, x, nBuckets) <= b
    {
      L', done' := L, done;
      var bucket := buckets[b];
      var k := 0;
      while k < |bucket|
        invariant 0 <= k <= |bucket|
        invariant |L'| == |L| && Placed(hash, L', done')
        invariant forall x :: x in done' <==> x in elems && (BucketOf(hash, x, nBuckets) < b || x in bucket[..k])
      {
        var x := bucket[k];
        assert x !in bucket[..k];
        AppendPlaced(hash, L', done', x);
        var i := BucketOf(hash, x, |L'|);
        L' := L'[i := L'[i] + [x]];
        done' := done' + {x};
        assert bucket[..k + 1] == bucket[..k] + [x];
        k := k + 1;
      }
      assert bucket[..k] == bucket;
    }

    /** `add`: a new item is appended to its bucket, doubling the buckets once more than half are used; a duplicate changes nothing. */
    method Add(x: T)
      requires Valid()
      modifies this
      ensures Valid() && elems == old(elems) + {x}
      ensures len == if x in old(elems) then old(len) else old(len) + 1
      ensures nBuckets == if x !in old(elems) && old(len) + 1 > old(nBuckets) / 2 then 2 * old(nBuckets) else old(nBuckets)
      ensures old(len) <= old(nBuckets) / 2 ==> len <= nBuckets / 2
    {
      var i := FindBucket(x);
      if x !in buckets[i] {
        AppendPlaced(hash, buckets, elems, x);
        buckets := buckets[i := buckets[i] + [x]];
        elems := elems + {x};
        len := len + 1;
        if len > nBuckets / 2 {
          Rehash(2 * nBuckets);
        }
      }
    }

    /**
     * `remove`: KeyError, with nothing changed, when the item is absent;
     * otherwise it leaves its bucket, and the buckets halve once fewer than
     * a quarter are used, unless that would leave fewer than 8.
     */
    method Remove(x: T) returns (r: Outcome)
      requires Valid()
      modifies this
      ensures Valid()
      ensures x !in old(elems) ==> r == Raised(KeyError) && elems == old(elems) && len == old(len) && nBuckets == old(nBuckets)
      ensures x in old(elems) ==> r == Done && elems == old(elems) - {x} && len == old(len) - 1
      ensures x in old(elems) ==>
        nBuckets == if old(len) - 1 < old(nBuckets) / 4 && old(nBuckets) / 2 >= MinBuckets then old(nBuckets) / 2 else old(nBuckets)
      ensures old(len) <= old(nBuckets) / 2 ==> len <= nBuckets / 2
    {
      var i := FindBucket(x);
      if x !in buckets[i] {
        return Raised(KeyError);
      }
      RemovePlaced(hash, buckets, elems, x);
      buckets := buckets[i := Without(buckets[i], x)];
      elems := elems - {x};
      len := len - 1;
      r := Done;
      if len < nBuckets / 4 && nBuckets / 2 >= MinBuckets {
        Rehash(nBuckets / 2);
      }
    }
  }

  /** A new set holding 1 and 2. */
  method TwoItems() returns (s: CustomSet<int>)
    ensures fresh(s) && s.Valid() && s.elems == {1, 2} && s.nBuckets == 8 && s.len == 2
  {
    s := new CustomSet<int>(x => x);
    s.Add(1);
    s.Add(2);
  }

  /** Four items are not more than half of 8 buckets. */
  method FourItems() returns (s: CustomSet<int>)
    ensures fresh(s) && s.Valid() && s.elems == {1, 2, 3, 4} && s.nBuckets == 8 && s.len == 4
  {
    s := TwoItems();
    s.Add(3);
    s.Add(4);
  }

  /** Adding 4 again changes nothing; the fifth distinct item is more than half of 8 buckets, so there are 16. */
  method FifthAddDoubles() returns (n: int, size: int)
    ensures n == 5 && size == 16
  {
    var s := FourItems();
    s.Add(4);
    s.Add(5);
    n := s.Len();
    size := s.nBuckets;
  }
}
