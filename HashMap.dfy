/**
 * The open-addressing hash map of hw8/hashmap.py (`CustomHashMap`).
 *
 * The table is an array of slots; a slot is empty (`None` in the source),
 * holds a live entry (hash, key, value), or holds a tombstone: the entry of a
 * deleted key, whose key was replaced by a sentinel and whose hash and value
 * are kept. Keys are hashed by the function given to the constructor, which
 * stands for Python's `hash`; its results are non-negative here.
 *
 * The abstract value of a map is `MapOf(table)`, the Dafny map from each live
 * key to its value. The invariant `WellFormed` is the open-addressing
 * invariant: every live entry sits on its key's probe sequence before any
 * empty slot, so that a lookup which stops at the first empty slot has seen it.
 */
module HashMap {
  import opened Util
  import opened HashProbe

  const InitialSize: nat := 8
  const LargeDictSize: nat := 50000

  datatype Slot<K, V> = Empty | Live(hash: nat, key: K, value: V) | Deleted(hash: nat, value: V)

  /** The capacity after a rehash: four times larger, or twice for large tables. */
  function Grown(c: nat): nat
  {
    if c <= LargeDictSize then 4 * c else 2 * c
  }

  lemma GrownIsPow2(c: nat)
    requires IsPow2(c)
    ensures IsPow2(Grown(c)) && Grown(c) >= 2 * c
  {
    assert IsPow2(2 * c) by {
      assert (2 * c) / 2 == c;
    }
    if c <= LargeDictSize {
      assert (4 * c) / 2 == 2 * c;
    }
  }

  // ---------------------------------------------------------------------------
  // Slots, counts and the abstract map

  predicate HasEmpty<K, V>(t: seq<Slot<K, V>>)
  {
    exists i :: 0 <= i < |t| && t[i].Empty?
  }

  predicate TombstoneFree<K, V>(t: seq<Slot<K, V>>)
  {
    forall i :: 0 <= i < |t| ==> !t[i].Deleted?
  }

  function CountIf<K, V>(t: seq<Slot<K, V>>, f: Slot<K, V> -> bool): (n: nat)
    ensures n <= |t|
  {
    if t == [] then 0 else CountIf(t[..|t| - 1], f) + (if f(t[|t| - 1]) then 1 else 0)
  }

  function IsLive<K, V>(s: Slot<K, V>): bool { s.Live? }
  function IsFilled<K, V>(s: Slot<K, V>): bool { !s.Empty? }

  /** The number of live entries: what `len` reports. */
  function LiveCount<K, V>(t: seq<Slot<K, V>>): nat { CountIf(t, IsLive) }

  /** The number of slots that are not empty (live entries and tombstones). */
  function FilledCount<K, V>(t: seq<Slot<K, V>>): nat { CountIf(t, IsFilled) }

  /** Writing one slot changes a count by what left and what arrived. */
  lemma {:induction false} CountIfUpdate<K, V>(t: seq<Slot<K, V>>, f: Slot<K, V> -> bool, i: nat, s: Slot<K, V>)
    requires i < |t|
    ensures CountIf(t[i := s], f) + (if f(t[i]) then 1 else 0) == CountIf(t, f) + (if f(s) then 1 else 0)
  {
    var u := t[i := s];
    if i < |t| - 1 {
      assert u[..|u| - 1] == t[..|t| - 1][i := s];
      CountIfUpdate(t[..|t| - 1], f, i, s);
    } else {
      assert u[..|u| - 1] == t[..|t| - 1];
    }
  }

  lemma {:induction false} CountIfPrefix<K, V>(t: seq<Slot<K, V>>, f: Slot<K, V> -> bool, i: nat)
    requires i < |t|
    ensures CountIf(t[..i + 1], f) == CountIf(t[..i], f) + (if f(t[i]) then 1 else 0)
  {
    assert t[..i + 1][..i] == t[..i];
  }

  /** A table in which fewer slots are filled than there are slots has an empty slot. */
  lemma {:induction false} EmptyOfFilledCount<K, V>(t: seq<Slot<K, V>>)
    requires FilledCount(t) < |t|
    ensures HasEmpty(t)
  {
    var p := t[..|t| - 1];
    if !t[|t| - 1].Empty? {
      EmptyOfFilledCount(p);
      var i :| 0 <= i < |p| && p[i].Empty?;
      assert t[i].Empty?;
    }
  }

  /** In a table without tombstones, every filled slot is live. */
  lemma {:induction false} FilledIsLive<K, V>(t: seq<Slot<K, V>>)
    requires TombstoneFree(t)
    ensures FilledCount(t) == LiveCount(t)
  {
    if t != [] {
      FilledIsLive(t[..|t| - 1]);
    }
  }

  /** The abstract map: each live key to its value (later slots win on a clash, which `WellFormed` rules out). */
  function MapOf<K, V>(t: seq<Slot<K, V>>): map<K, V>
  {
    if t == [] then map[]
    else
      var m := MapOf(t[..|t| - 1]);
      match t[|t| - 1]
      case Live(_, k, v) => m[k := v]
      case _ => m
  }

  ghost predicate UniqueKeys<K, V>(t: seq<Slot<K, V>>)
  {
    forall i, j :: 0 <= i < |t| && 0 <= j < |t| && t[i].Live? && t[j].Live? && t[i].key == t[j].key ==> i == j
  }

  /** The keys of the abstract map are the keys of the live slots, with their values. */
  lemma {:induction false} MapOfChar<K, V>(t: seq<Slot<K, V>>)
    requires UniqueKeys(t)
    ensures forall k :: k in MapOf(t) ==> exists i :: 0 <= i < |t| && t[i].Live? && t[i].key == k
    ensures forall i :: 0 <= i < |t| && t[i].Live? ==> t[i].key in MapOf(t) && MapOf(t)[t[i].key] == t[i].value
    ensures |MapOf(t)| == LiveCount(t)
  {
    if t != [] {
      var p := t[..|t| - 1];
      assert UniqueKeys(p);
      MapOfChar(p);
      var last := t[|t| - 1];
      if last.Live? {
        forall i | 0 <= i < |p| && p[i].Live?
          ensures p[i].key != last.key
        {
          assert t[i] == p[i];
        }
        assert last.key !in MapOf(p);
      }
      forall k | k in MapOf(t)
        ensures exists i :: 0 <= i < |t| && t[i].Live? && t[i].key == k
      {
        if k in MapOf(p) {
          var i :| 0 <= i < |p| && p[i].Live? && p[i].key == k;
          assert t[i] == p[i];
        }
      }
      forall i | 0 <= i < |t| && t[i].Live?
        ensures t[i].key in MapOf(t) && MapOf(t)[t[i].key] == t[i].value
      {
        if i < |p| {
          assert t[i] == p[i];
        }
      }
    }
  }

  // ---------------------------------------------------------------------------
  // The lookup, as a specification

  predicate Matches<K(==), V>(s: Slot<K, V>, h: nat, key: K)
  {
    s.Live? && s.hash == h && s.key == key
  }

  /** The probe for (h, key) stops at step n: the slot is empty or holds the key. */
  predicate StopsAt<K(==), V>(t: seq<Slot<K, V>>, h: nat, key: K, n: nat)
    requires |t| > 0
  {
    var s := t[Probe(h, |t|, n)];
    s.Empty? || Matches(s, h, key)
  }

  lemma {:induction false} LeastStop<K, V>(t: seq<Slot<K, V>>, h: nat, key: K, from: nat, b: nat)
    requires |t| > 0 && from <= b && StopsAt(t, h, key, b)
    requires forall m: nat :: m < from ==> !StopsAt(t, h, key, m)
    ensures exists n: nat :: StopsAt(t, h, key, n) && forall m: nat :: m < n ==> !StopsAt(t, h, key, m)
    decreases b - from
  {
    if !StopsAt(t, h, key, from) {
      LeastStop(t, h, key, from + 1, b);
    }
  }

  /** With an empty slot in a power-of-two table, every probe stops. */
  lemma StopExists<K, V>(t: seq<Slot<K, V>>, h: nat, key: K)
    requires IsPow2(|t|) && HasEmpty(t)
    ensures exists n: nat :: StopsAt(t, h, key, n) && forall m: nat :: m < n ==> !StopsAt(t, h, key, m)
  {
    var e :| 0 <= e < |t| && t[e].Empty?;
    ProbeCovers(h, |t|, e);
    var b: nat :| Probe(h, |t|, b) == e;
    LeastStop(t, h, key, 0, b);
  }

  /** The step at which the probe for (h, key) stops. */
  ghost function StopStep<K, V>(t: seq<Slot<K, V>>, h: nat, key: K): (n: nat)
    requires IsPow2(|t|) && HasEmpty(t)
    ensures StopsAt(t, h, key, n) && forall m: nat :: m < n ==> !StopsAt(t, h, key, m)
  {
    StopExists(t, h, key);
    var n: nat :| StopsAt(t, h, key, n) && forall m: nat :: m < n ==> !StopsAt(t, h, key, m);
    n
  }

  /** The slot of the first tombstone among the first n probes, if any. */
  function DeletedSlot<K, V>(t: seq<Slot<K, V>>, h: nat, n: nat): (d: Option<nat>)
    requires |t| > 0
    ensures d.Some? ==> d.value < |t|
  {
    if n == 0 then None
    else match DeletedSlot(t, h, n - 1)
      case Some(d) => Some(d)
      case None => if t[Probe(h, |t|, n - 1)].Deleted? then Some(Probe(h, |t|, n - 1)) else None
  }

  lemma {:induction false} DeletedSlotFacts<K, V>(t: seq<Slot<K, V>>, h: nat, n: nat)
    requires |t| > 0
    ensures DeletedSlot(t, h, n).Some? ==>
      exists m: nat :: m < n && Probe(h, |t|, m) == DeletedSlot(t, h, n).value && t[Probe(h, |t|, m)].Deleted?
    ensures TombstoneFree(t) ==> DeletedSlot(t, h, n) == None
  {
    if n > 0 {
      DeletedSlotFacts(t, h, n - 1);
    }
  }

  /**
   * What `_lookup` returns: the slot holding the key and true, or, on a miss,
   * the slot where the key should go and false. On a miss the slot is the
   * first tombstone passed, except that a tombstone in slot 0 is passed over
   * (`deleted_slot or table_index` treats index 0 as absent).
   */
  ghost function LookupSpec<K, V>(t: seq<Slot<K, V>>, h: nat, key: K): (r: (nat, bool))
    requires IsPow2(|t|) && HasEmpty(t)
    ensures r.0 < |t|
  {
    var n := StopStep(t, h, key);
    var i := Probe(h, |t|, n);
    if !t[i].Empty? then (i, true)
    else match DeletedSlot(t, h, n)
      case Some(d) => if d != 0 then (d, false) else (i, false)
      case None => (i, false)
  }

  // ---------------------------------------------------------------------------
  // The open-addressing invariant

  /** Slot i is reached by the probe for hash h before any empty slot. */
  ghost predicate Reachable<K, V>(t: seq<Slot<K, V>>, h: nat, i: nat)
    requires |t| > 0
  {
    exists n: nat :: Probe(h, |t|, n) == i && forall m: nat :: m < n ==> !t[Probe(h, |t|, m)].Empty?
  }

  ghost predicate WellFormed<K, V>(t: seq<Slot<K, V>>, hash: K -> nat)
  {
    IsPow2(|t|)
    && (forall i :: 0 <= i < |t| && t[i].Live? ==> t[i].hash == hash(t[i].key))
    && UniqueKeys(t)
    && (forall i :: 0 <= i < |t| && t[i].Live? ==> Reachable(t, t[i].hash, i))
  }

  /** Filling slots never breaks reachability. */
  lemma ReachableMonotone<K, V>(t: seq<Slot<K, V>>, u: seq<Slot<K, V>>, h: nat, i: nat)
    requires |t| == |u| > 0 && Reachable(t, h, i)
    requires forall j :: 0 <= j < |t| && !t[j].Empty? ==> !u[j].Empty?
    ensures Reachable(u, h, i)
  {
    var n: nat :| Probe(h, |t|, n) == i && forall m: nat :: m < n ==> !t[Probe(h, |t|, m)].Empty?;
    assert forall m: nat :: m < n ==> !u[Probe(h, |u|, m)].Empty?;
  }

  /** The lookup finds exactly the keys of the abstract map, in the slot that holds them. */
  lemma LookupFinds<K, V>(t: seq<Slot<K, V>>, hash: K -> nat, key: K)
    requires WellFormed(t, hash) && HasEmpty(t)
    ensures LookupSpec(t, hash(key), key).1 <==> key in MapOf(t)
    ensures LookupSpec(t, hash(key), key).1 ==>
      t[LookupSpec(t, hash(key), key).0] == Live(hash(key), key, MapOf(t)[key])
    ensures !LookupSpec(t, hash(key), key).1 ==> !t[LookupSpec(t, hash(key), key).0].Live?
  {
    var h := hash(key);
    var c := |t|;
    var n := StopStep(t, h, key);
    var i := Probe(h, c, n);
    MapOfChar(t);
    if key in MapOf(t) {
      var j :| 0 <= j < c && t[j].Live? && t[j].key == key;
      var nj: nat :| Probe(h, c, nj) == j && forall m: nat :: m < nj ==> !t[Probe(h, c, m)].Empty?;
      assert StopsAt(t, h, key, nj);
      if n < nj {
        assert !t[i].Empty?;
      }
      assert Matches(t[i], h, key);
    }
    DeletedSlotFacts(t, h, n);
  }

  /** On a miss, the slot the lookup offers is on the key's probe sequence before any empty slot. */
  lemma LookupMissReachable<K, V>(t: seq<Slot<K, V>>, h: nat, key: K)
    requires IsPow2(|t|) && HasEmpty(t) && !LookupSpec(t, h, key).1
    ensures Reachable(t, h, LookupSpec(t, h, key).0)
  {
    var n := StopStep(t, h, key);
    var c := |t|;
    DeletedSlotFacts(t, h, n);
    var d := DeletedSlot(t, h, n);
    if d.Some? && d.value != 0 {
      var m: nat :| m < n && Probe(h, c, m) == d.value && t[Probe(h, c, m)].Deleted?;
      assert forall m': nat :: m' < m ==> !t[Probe(h, c, m')].Empty? by {
        forall m': nat | m' < m ensures !t[Probe(h, c, m')].Empty? {
          assert !StopsAt(t, h, key, m');
        }
      }
      assert LookupSpec(t, h, key).0 == Probe(h, c, m);
    } else {
      assert forall m': nat :: m' < n ==> !t[Probe(h, c, m')].Empty? by {
        forall m': nat | m' < n ensures !t[Probe(h, c, m')].Empty? {
          assert !StopsAt(t, h, key, m');
        }
      }
      assert LookupSpec(t, h, key).0 == Probe(h, c, n);
    }
  }

  /** When the key's first slot is empty, the lookup stops there at once. */
  lemma LookupHome<K, V>(t: seq<Slot<K, V>>, h: nat, key: K)
    requires IsPow2(|t|) && t[h % |t|].Empty?
    ensures HasEmpty(t) && LookupSpec(t, h, key) == (h % |t|, false)
  {
    assert StopsAt(t, h, key, 0);
  }

  /** A lookup for a key that no live slot holds, in a table with no empty slot, never stops. */
  lemma ProbeNeverStops<K, V>(t: seq<Slot<K, V>>, h: nat, key: K, n: nat)
    requires |t| > 0 && !HasEmpty(t) && key !in MapOf(t) && UniqueKeys(t)
    ensures !StopsAt(t, h, key, n)
  {
    MapOfChar(t);
  }

  // ---------------------------------------------------------------------------
  // Writing and clearing a slot

  lemma AllEmptyFacts<K, V>(t: seq<Slot<K, V>>)
    requires forall i :: 0 <= i < |t| ==> t[i].Empty?
    ensures MapOf(t) == map[] && LiveCount(t) == 0 && FilledCount(t) == 0
    ensures TombstoneFree(t) && UniqueKeys(t)
  {
    if t != [] {
      AllEmptyFacts(t[..|t| - 1]);
    }
  }

  /** Writing a live entry for k, over k's own slot or over a slot that is not live when k is absent. */
  lemma MapOfSet<K, V>(t: seq<Slot<K, V>>, i: nat, h: nat, k: K, v: V)
    requires UniqueKeys(t) && i < |t|
    requires (t[i].Live? && t[i].key == k) || (!t[i].Live? && k !in MapOf(t))
    ensures UniqueKeys(t[i := Live(h, k, v)])
    ensures MapOf(t[i := Live(h, k, v)]) == MapOf(t)[k := v]
  {
    var u := t[i := Live(h, k, v)];
    assert UniqueKeys(u) by {
      MapOfChar(t);
      forall a, b | 0 <= a < |u| && 0 <= b < |u| && u[a].Live? && u[b].Live? && u[a].key == u[b].key
        ensures a == b
      {
        assert a != i ==> t[a] == u[a];
        assert b != i ==> t[b] == u[b];
      }
    }
    assert forall x :: x in MapOf(u) ==> x in MapOf(t)[k := v] && MapOf(u)[x] == MapOf(t)[k := v][x] by {
      MapOfChar(t);
      MapOfChar(u);
      forall x | x in MapOf(u)
        ensures x in MapOf(t)[k := v] && MapOf(u)[x] == MapOf(t)[k := v][x]
      {
        var a :| 0 <= a < |u| && u[a].Live? && u[a].key == x;
        if a != i {
          assert t[a] == u[a];
        }
      }
    }
    assert forall x :: x in MapOf(t)[k := v] ==> x in MapOf(u) by {
      MapOfChar(t);
      MapOfChar(u);
      forall x | x in MapOf(t)[k := v]
        ensures x in MapOf(u)
      {
        if x != k {
          var a :| 0 <= a < |t| && t[a].Live? && t[a].key == x;
          assert a != i;
          assert u[a] == t[a];
        } else {
          assert u[i].Live? && u[i].key == x;
        }
      }
    }
    MapEq(MapOf(u), MapOf(t)[k := v]);
  }

  /** Two maps with the same keys and the same value at each key are equal. */
  lemma MapEq<K, V>(m: map<K, V>, n: map<K, V>)
    requires forall x :: x in m ==> x in n && m[x] == n[x]
    requires forall x :: x in n ==> x in m
    ensures m == n
  {
  }

  /** Replacing a live entry by something that is not live removes its key. */
  lemma MapOfClear<K, V>(t: seq<Slot<K, V>>, i: nat, s: Slot<K, V>)
    requires UniqueKeys(t) && i < |t| && t[i].Live? && !s.Live?
    ensures UniqueKeys(t[i := s])
    ensures MapOf(t[i := s]) == MapOf(t) - {t[i].key}
  {
    var u := t[i := s];
    var k := t[i].key;
    assert UniqueKeys(u) by {
      forall a, b | 0 <= a < |u| && 0 <= b < |u| && u[a].Live? && u[b].Live? && u[a].key == u[b].key
        ensures a == b
      {
        assert t[a] == u[a] && t[b] == u[b];
      }
    }
    assert forall x :: x in MapOf(u) ==> x in MapOf(t) - {k} && MapOf(u)[x] == MapOf(t)[x] by {
      MapOfChar(t);
      MapOfChar(u);
      forall x | x in MapOf(u)
        ensures x in MapOf(t) - {k} && MapOf(u)[x] == MapOf(t)[x]
      {
        var a :| 0 <= a < |u| && u[a].Live? && u[a].key == x;
        assert a != i;
        assert t[a] == u[a];
      }
    }
    assert forall x :: x in MapOf(t) - {k} ==> x in MapOf(u) by {
      MapOfChar(t);
      MapOfChar(u);
      forall x | x in MapOf(t) - {k}
        ensures x in MapOf(u)
      {
        var a :| 0 <= a < |t| && t[a].Live? && t[a].key == x;
        assert a != i;
        assert u[a] == t[a];
      }
    }
    MapEq(MapOf(u), MapOf(t) - {k});
  }

  /** Writing a live entry at a slot reachable for its hash keeps the table well formed. */
  lemma WellFormedSet<K, V>(t: seq<Slot<K, V>>, hash: K -> nat, i: nat, k: K, v: V)
    requires WellFormed(t, hash) && i < |t| && Reachable(t, hash(k), i)
    requires UniqueKeys(t[i := Live(hash(k), k, v)])
    ensures WellFormed(t[i := Live(hash(k), k, v)], hash)
  {
    var u := t[i := Live(hash(k), k, v)];
    forall j | 0 <= j < |u| && u[j].Live?
      ensures Reachable(u, u[j].hash, j)
    {
      if j == i {
        ReachableMonotone(t, u, hash(k), i);
      } else {
        assert t[j] == u[j];
        ReachableMonotone(t, u, t[j].hash, j);
      }
    }
  }

  /** Writing a tombstone over a live entry keeps the table well formed. */
  lemma WellFormedClear<K, V>(t: seq<Slot<K, V>>, hash: K -> nat, i: nat, s: Slot<K, V>)
    requires WellFormed(t, hash) && i < |t| && t[i].Live? && s.Deleted?
    ensures WellFormed(t[i := s], hash)
  {
    var u := t[i := s];
    MapOfClear(t, i, s);
    forall j | 0 <= j < |u| && u[j].Live?
      ensures Reachable(u, u[j].hash, j)
    {
      assert t[j] == u[j];
      ReachableMonotone(t, u, t[j].hash, j);
    }
  }

  /**
   * The write of `__setitem__`: at the slot the lookup offers, store the entry.
   * The abstract map gains the binding, and the live count grows exactly when
   * the key was absent.
   */
  lemma StoreFacts<K, V>(t: seq<Slot<K, V>>, hash: K -> nat, k: K, v: V)
    requires WellFormed(t, hash) && HasEmpty(t)
    ensures var u := t[LookupSpec(t, hash(k), k).0 := Live(hash(k), k, v)];
      && WellFormed(u, hash)
      && MapOf(u) == MapOf(t)[k := v]
      && LiveCount(u) == LiveCount(t) + (if k in MapOf(t) then 0 else 1)
      && (TombstoneFree(t) ==> TombstoneFree(u) && FilledCount(u) == FilledCount(t) + (if k in MapOf(t) then 0 else 1))
  {
    var (i, found) := LookupSpec(t, hash(k), k);
    var s := Live(hash(k), k, v);
    var u := t[i := s];
    LookupFinds(t, hash, k);
    MapOfSet(t, i, hash(k), k, v);
    if found {
      assert Reachable(t, hash(k), i);
    } else {
      LookupMissReachable(t, hash(k), k);
    }
    WellFormedSet(t, hash, i, k, v);
    CountIfUpdate(t, IsLive, i, s);
    CountIfUpdate(t, IsFilled, i, s);
    if TombstoneFree(t) && !found {
      var n := StopStep(t, hash(k), k);
      DeletedSlotFacts(t, hash(k), n);
      assert t[i].Empty?;
    }
  }

  /** The write of `__delitem__`: the key's entry becomes a tombstone keeping its hash and value. */
  lemma DeleteFacts<K, V>(t: seq<Slot<K, V>>, hash: K -> nat, k: K)
    requires WellFormed(t, hash) && HasEmpty(t) && k in MapOf(t)
    ensures var u := t[LookupSpec(t, hash(k), k).0 := Deleted(hash(k), MapOf(t)[k])];
      && WellFormed(u, hash)
      && MapOf(u) == MapOf(t) - {k}
      && LiveCount(u) == LiveCount(t) - 1
      && HasEmpty(u)
  {
    var i := LookupSpec(t, hash(k), k).0;
    var s := Deleted(hash(k), MapOf(t)[k]);
    var u := t[i := s];
    LookupFinds(t, hash, k);
    MapOfClear(t, i, s);
    WellFormedClear(t, hash, i, s);
    CountIfUpdate(t, IsLive, i, s);
    var e :| 0 <= e < |t| && t[e].Empty?;
    assert u[e].Empty?;
  }

  /**
   * One step of `_rehash`: re-inserting the next old slot into the new table
   * keeps the new table describing the old slots seen so far.
   */
  lemma RehashStep<K, V>(t: seq<Slot<K, V>>, hash: K -> nat, pre: seq<Slot<K, V>>, entry: Slot<K, V>)
    requires WellFormed(t, hash) && TombstoneFree(t) && FilledCount(t) < |t|
    requires MapOf(t) == MapOf(pre) && FilledCount(t) == LiveCount(pre) == LiveCount(t)
    requires UniqueKeys(pre + [entry]) && entry.Live? && entry.hash == hash(entry.key)
    ensures HasEmpty(t)
    ensures var u := t[LookupSpec(t, entry.hash, entry.key).0 := entry];
      && WellFormed(u, hash) && TombstoneFree(u)
      && MapOf(u) == MapOf(pre + [entry])
      && FilledCount(u) == LiveCount(pre + [entry]) == LiveCount(u)
  {
    EmptyOfFilledCount(t);
    var p := pre + [entry];
    assert p[..|p| - 1] == pre;
    assert UniqueKeys(pre) by {
      forall a, b | 0 <= a < |pre| && 0 <= b < |pre| && pre[a].Live? && pre[b].Live? && pre[a].key == pre[b].key
        ensures a == b
      {
        assert p[a] == pre[a] && p[b] == pre[b];
      }
    }
    MapOfChar(pre);
    forall a | 0 <= a < |pre| && pre[a].Live?
      ensures pre[a].key != entry.key
    {
      assert p[a] == pre[a] && p[|pre|] == entry;
    }
    assert entry.key !in MapOf(t);
    StoreFacts(t, hash, entry.key, entry.value);
    assert entry == Live(hash(entry.key), entry.key, entry.value);
  }

  /** A slot that is not live leaves the abstract map and the live count of a prefix alone. */
  lemma RehashSkip<K, V>(pre: seq<Slot<K, V>>, entry: Slot<K, V>)
    requires !entry.Live?
    ensures MapOf(pre + [entry]) == MapOf(pre) && LiveCount(pre + [entry]) == LiveCount(pre)
  {
    var p := pre + [entry];
    assert p[..|p| - 1] == pre;
  }

  /** The keys of the live slots, in slot order: what iterating over the map yields. */
  function LiveKeys<K, V>(t: seq<Slot<K, V>>): seq<K>
  {
    if t == [] then []
    else LiveKeys(t[..|t| - 1]) + (if t[|t| - 1].Live? then [t[|t| - 1].key] else [])
  }

  /** The keys listed are exactly the keys of the abstract map. */
  lemma {:induction false} LiveKeysMembers<K, V>(t: seq<Slot<K, V>>)
    requires UniqueKeys(t)
    ensures forall k :: k in LiveKeys(t) <==> k in MapOf(t)
  {
    if t != [] {
      var p := t[..|t| - 1];
      assert UniqueKeys(p);
      LiveKeysMembers(p);
      MapOfChar(p);
      forall k
        ensures k in LiveKeys(t) <==> k in MapOf(t)
      {
        if k in MapOf(p) {
          var i :| 0 <= i < |p| && p[i].Live? && p[i].key == k;
          assert t[i] == p[i];
        }
      }
    }
  }

  /** Each key is listed once, so the listing is as long as the map. */
  lemma {:induction false} LiveKeysFacts<K, V>(t: seq<Slot<K, V>>)
    requires UniqueKeys(t)
    ensures |LiveKeys(t)| == |MapOf(t)|
    ensures forall k :: k in LiveKeys(t) <==> k in MapOf(t)
    ensures forall a, b :: 0 <= a < b < |LiveKeys(t)| ==> LiveKeys(t)[a] != LiveKeys(t)[b]
  {
    MapOfChar(t);
    LiveKeysMembers(t);
    if t != [] {
      var p := t[..|t| - 1];
      assert UniqueKeys(p);
      LiveKeysFacts(p);
      var last := t[|t| - 1];
      if last.Live? {
        MapOfChar(p);
        forall i | 0 <= i < |p| && p[i].Live?
          ensures p[i].key != last.key
        {
          assert t[i] == p[i];
        }
        assert last.key !in MapOf(p);
      }
    }
  }

  // ---------------------------------------------------------------------------
  // The map object

  /** `CustomHashMap`: capacity, number of live entries and the slot table, updated in place. */
  class CustomHashMap<K(==), V> {
    const hash: K -> nat
    var capacity: nat
    var used: nat
    var table: array<Slot<K, V>>

    ghost predicate Valid()
      reads this, table
    {
      table.Length == capacity && capacity >= InitialSize
      && WellFormed(table[..], hash)
      && used == LiveCount(table[..])
    }

    /** The abstract value: each key to its value. */
    ghost function Contents(): map<K, V>
      reads this, table
    {
      MapOf(table[..])
    }

    /** An empty map: eight empty slots. */
    constructor (hash: K -> nat)
      ensures Valid() && fresh(table)
      ensures this.hash == hash && capacity == InitialSize && used == 0 && Contents() == map[]
      ensures forall i :: 0 <= i < table.Length ==> table[i] == Empty
      ensures TombstoneFree(table[..]) && HasEmpty(table[..])
    {
      this.hash := hash;
      capacity := InitialSize;
      used := 0;
      table := new Slot<K, V>[InitialSize](_ => Empty);
      new;
      assert IsPow2(8) by {
        assert IsPow2(1) && IsPow2(2) && IsPow2(4);
      }
      AllEmptyFacts(table[..]);
      assert table[0].Empty?;
    }

    /** A map built from key/value pairs in order, a later pair for a key overriding an earlier one. */
    constructor FromPairs(hash: K -> nat, pairs: seq<(K, V)>)
      ensures Valid() && fresh(table) && this.hash == hash
      ensures Contents() == PairsToMap(pairs)
      ensures TombstoneFree(table[..]) && HasEmpty(table[..])
    {
      this.hash := hash;
      capacity := InitialSize;
      used := 0;
      table := new Slot<K, V>[InitialSize](_ => Empty);
      new;
      assert IsPow2(8) by {
        assert IsPow2(1) && IsPow2(2) && IsPow2(4);
      }
      AllEmptyFacts(table[..]);
      assert table[0].Empty?;
      var i := 0;
      while i < |pairs|
        invariant 0 <= i <= |pairs|
        invariant Valid() && fresh(table) && this.hash == hash
        invariant TombstoneFree(table[..]) && HasEmpty(table[..])
        invariant Contents() == PairsToMap(pairs[..i])
      {
        SetItem(pairs[i].0, pairs[i].1);
        assert pairs[..i + 1][..i] == pairs[..i];
        i := i + 1;
      }
      assert pairs[..i] == pairs;
    }

    /**
     * A copy of another map: each of its keys, in its iteration order, stored
     * with its value. The other map is not changed.
     */
    constructor Copy(other: CustomHashMap<K, V>)
      requires other.Valid() && HasEmpty(other.table[..])
      ensures Valid() && fresh(table) && hash == other.hash
      ensures Contents() == other.Contents()
      ensures TombstoneFree(table[..]) && HasEmpty(table[..])
    {
      var pairs := other.Items();
      hash := other.hash;
      capacity := InitialSize;
      used := 0;
      table := new Slot<K, V>[InitialSize](_ => Empty);
      new;
      assert IsPow2(8) by {
        assert IsPow2(1) && IsPow2(2) && IsPow2(4);
      }
      AllEmptyFacts(table[..]);
      assert table[0].Empty?;
      var i := 0;
      while i < |pairs|
        invariant 0 <= i <= |pairs|
        invariant Valid() && fresh(table) && hash == other.hash
        invariant TombstoneFree(table[..]) && HasEmpty(table[..])
        invariant Contents() == PairsToMap(pairs[..i])
      {
        SetItem(pairs[i].0, pairs[i].1);
        assert pairs[..i + 1][..i] == pairs[..i];
        i := i + 1;
      }
      assert pairs[..i] == pairs;
    }

    /**
     * `_lookup`: follow the probe sequence from `hash(key) % capacity` until an
     * empty slot or the key's own slot, remembering the first tombstone.
     */
    method Lookup(key: K) returns (index: nat, found: bool)
      requires table.Length == capacity && IsPow2(capacity) && HasEmpty(table[..])
      ensures (index, found) == LookupSpec(table[..], hash(key), key)
    {
      var h := hash(key);
      ghost var t := table[..];
      ghost var c := capacity;
      var deleted: Option<nat> := None;
      var i := h % capacity;
      var perturb := h;
      ghost var n: nat := 0;
      ghost var e :| 0 <= e < |t| && t[e].Empty?;
      ProbeCovers(h, c, e);
      ghost var b: nat :| Probe(h, c, b) == e;
      while !table[i].Empty? && !(table[i].Live? && table[i].hash == h && table[i].key == key)
        invariant (i, perturb) == ProbeState(h, c, n)
        invariant n <= b
        invariant forall m: nat :: m < n ==> !StopsAt(t, h, key, m)
        invariant deleted == DeletedSlot(t, h, n)
        decreases b - n
      {
        if table[i].Deleted? && deleted.None? {
          deleted := Some(i);
        }
        i := (5 * i + perturb + 1) % capacity;
        perturb := perturb / 32;
        n := n + 1;
      }
      assert StopsAt(t, h, key, n);
      assert n == StopStep(t, h, key);
      if table[i].Empty? {
        found := false;
        index := if deleted.Some? && deleted.value != 0 then deleted.value else i;
      } else {
        found := true;
        index := i;
      }
    }

    /** `_rehash`: move every live entry into a fresh, larger table, dropping the tombstones. */
    method Rehash()
      requires table.Length == capacity && WellFormed(table[..], hash) && used == LiveCount(table[..])
      requires capacity >= InitialSize
      modifies this
      ensures Valid() && fresh(table)
      ensures capacity == Grown(old(capacity)) && used == old(used)
      ensures Contents() == old(Contents())
      ensures TombstoneFree(table[..]) && HasEmpty(table[..])
    {
      var oldTable := table;
      ghost var ot := oldTable[..];
      GrownIsPow2(capacity);
      capacity := Grown(capacity);
      table := new Slot<K, V>[capacity](_ => Empty);
      AllEmptyFacts(table[..]);
      MoveLive(oldTable);
      EmptyOfFilledCount(table[..]);
    }

    /** The loop of `_rehash`: every live entry of `from`, in slot order, goes into the new table. */
    method MoveLive(from: array<Slot<K, V>>)
      requires from != table && table.Length == capacity && capacity >= 2 * from.Length
      requires WellFormed(from[..], hash)
      requires WellFormed(table[..], hash) && TombstoneFree(table[..])
      requires MapOf(table[..]) == map[] && FilledCount(table[..]) == 0 == LiveCount(table[..])
      modifies table
      ensures WellFormed(table[..], hash) && TombstoneFree(table[..])
      ensures MapOf(table[..]) == MapOf(from[..])
      ensures FilledCount(table[..]) == LiveCount(from[..]) == LiveCount(table[..])
    {
      ghost var ot := from[..];
      assert ot[..0] == [];
      var j := 0;
      while j < from.Length
        invariant 0 <= j <= from.Length == |ot| && from[..] == ot
        invariant WellFormed(table[..], hash) && TombstoneFree(table[..])
        invariant MapOf(table[..]) == MapOf(ot[..j])
        invariant FilledCount(table[..]) == LiveCount(ot[..j]) == LiveCount(table[..])
      {
        var entry := from[j];
        assert ot[..j + 1] == ot[..j] + [entry];
        if entry.Live? {
          assert UniqueKeys(ot[..j + 1]);
          Reinsert(entry, ot[..j]);
        } else {
          RehashSkip(ot[..j], entry);
        }
        j := j + 1;
      }
      assert ot[..j] == ot;
    }

    /** One step of `_rehash`: a live entry of the old table goes into its slot in the new one. */
    method Reinsert(entry: Slot<K, V>, ghost pre: seq<Slot<K, V>>)
      requires table.Length == capacity && WellFormed(table[..], hash) && TombstoneFree(table[..])
      requires FilledCount(table[..]) < table.Length
      requires MapOf(table[..]) == MapOf(pre) && FilledCount(table[..]) == LiveCount(pre) == LiveCount(table[..])
      requires UniqueKeys(pre + [entry]) && entry.Live? && entry.hash == hash(entry.key)
      modifies table
      ensures WellFormed(table[..], hash) && TombstoneFree(table[..])
      ensures MapOf(table[..]) == MapOf(pre + [entry])
      ensures FilledCount(table[..]) == LiveCount(pre + [entry]) == LiveCount(table[..])
    {
      RehashStep(table[..], hash, pre, entry);
      var index, found := Lookup(entry.key);
      table[index] := entry;
    }

    /** `__len__`: the number of live entries. */
    method Len() returns (n: nat)
      requires Valid()
      ensures n == |Contents()|
    {
      MapOfChar(table[..]);
      n := used;
    }

    /** `__contains__` */
    method Contains(key: K) returns (b: bool)
      requires Valid() && HasEmpty(table[..])
      ensures b <==> key in Contents()
    {
      var _, found := Lookup(key);
      LookupFinds(table[..], hash, key);
      b := found;
    }

    /** `__getitem__`: the value, or KeyError for a missing key. */
    method GetItem(key: K) returns (r: Result<V>)
      requires Valid() && HasEmpty(table[..])
      ensures r == if key in Contents() then Ok(Contents()[key]) else Err(KeyError)
    {
      var index, found := Lookup(key);
      LookupFinds(table[..], hash, key);
      if !found {
        r := Err(KeyError);
      } else {
        r := Ok(table[index].value);
      }
    }

    /** The lookup and the write of `__setitem__`, before any rehash. */
    method Store(key: K, value: V)
      requires Valid() && HasEmpty(table[..])
      modifies this`used, table
      ensures table.Length == capacity && WellFormed(table[..], hash) && used == LiveCount(table[..])
      ensures Contents() == old(Contents())[key := value]
      ensures used == old(used) + (if key in old(Contents()) then 0 else 1)
      ensures table[..] == old(table[..])[LookupSpec(old(table[..]), hash(key), key).0 := Live(hash(key), key, value)]
      ensures old(TombstoneFree(table[..])) ==> TombstoneFree(table[..]) && FilledCount(table[..]) == used
    {
      var index, found := Lookup(key);
      StoreFacts(table[..], hash, key, value);
      LookupFinds(table[..], hash, key);
      if TombstoneFree(table[..]) {
        FilledIsLive(table[..]);
      }
      if !found {
        used := used + 1;
      }
      table[index] := Live(hash(key), key, value);
    }

    /**
     * `__setitem__` as written: store, then rehash when more than two thirds of
     * the slots hold LIVE entries. Tombstones are not counted, so a table whose
     * keys come and go can fill up with them (see `TombstoneExhaustion`).
     */
    method SetItem(key: K, value: V)
      requires Valid() && HasEmpty(table[..])
      modifies this, table
      ensures Valid()
      ensures Contents() == old(Contents())[key := value]
      ensures used == old(used) + (if key in old(Contents()) then 0 else 1)
      ensures capacity == if old(capacity) * 2 < 3 * used then Grown(old(capacity)) else old(capacity)
      ensures old(capacity) * 2 >= 3 * used ==>
        table == old(table) &&
        table[..] == old(table[..])[LookupSpec(old(table[..]), hash(key), key).0 := Live(hash(key), key, value)]
      ensures old(capacity) * 2 < 3 * used ==> fresh(table) && TombstoneFree(table[..]) && HasEmpty(table[..])
      ensures old(TombstoneFree(table[..])) ==> TombstoneFree(table[..]) && HasEmpty(table[..])
    {
      ghost var clean := TombstoneFree(table[..]);
      Store(key, value);
      if capacity * 2 < 3 * used {
        Rehash();
      } else if clean {
        EmptyOfFilledCount(table[..]);
      }
    }

    /** The number of filled slots (live entries and tombstones). */
    method CountFilled() returns (n: nat)
      requires Valid()
      ensures n == FilledCount(table[..])
      ensures n >= used
    {
      n := 0;
      var j := 0;
      assert table[..0] == [];
      while j < table.Length
        invariant 0 <= j <= table.Length
        invariant n == FilledCount(table[..j])
      {
        CountIfPrefix(table[..], IsFilled, j);
        assert table[..][..j] == table[..j] && table[..][..j + 1] == table[..j + 1];
        if !table[j].Empty? {
          n := n + 1;
        }
        j := j + 1;
      }
      assert table[..j] == table[..];
      FilledAtLeastLive(table[..]);
    }

    /**
     * `__setitem__` with the load factor the rehash's own comment describes:
     * rehash when more than two thirds of the slots are FILLED, tombstones
     * included. An empty slot then always remains, so every later lookup stops.
     */
    method SetItemCorrected(key: K, value: V)
      requires Valid() && HasEmpty(table[..])
      modifies this, table
      ensures Valid() && HasEmpty(table[..])
      ensures Contents() == old(Contents())[key := value]
      ensures used == old(used) + (if key in old(Contents()) then 0 else 1)
      ensures old(TombstoneFree(table[..])) ==>
        TombstoneFree(table[..]) &&
        capacity == if old(capacity) * 2 < 3 * used then Grown(old(capacity)) else old(capacity)
    {
      Store(key, value);
      var filled := CountFilled();
      if capacity * 2 < 3 * filled {
        Rehash();
      } else {
        EmptyOfFilledCount(table[..]);
      }
    }

    /** `__delitem__`: KeyError for a missing key; otherwise the entry becomes a tombstone. */
    method DelItem(key: K) returns (r: Outcome)
      requires Valid() && HasEmpty(table[..])
      modifies this`used, table
      ensures Valid() && HasEmpty(table[..])
      ensures r == if key in old(Contents()) then Done else Raised(KeyError)
      ensures Contents() == old(Contents()) - {key}
      ensures used == old(used) - (if key in old(Contents()) then 1 else 0)
      ensures key in old(Contents()) ==>
        table[..] == old(table[..])[LookupSpec(old(table[..]), hash(key), key).0 := Deleted(hash(key), old(Contents())[key])]
      ensures key !in old(Contents()) ==> table[..] == old(table[..])
    {
      var index, found := Lookup(key);
      LookupFinds(table[..], hash, key);
      if !found {
        r := Raised(KeyError);
        return;
      }
      DeleteFacts(table[..], hash, key);
      used := used - 1;
      table[index] := Deleted(table[index].hash, table[index].value);
      r := Done;
    }

    /** `__iter__`: the live keys in slot order. */
    method Keys() returns (ks: seq<K>)
      requires Valid()
      ensures ks == LiveKeys(table[..])
      ensures |ks| == |Contents()| && (forall k :: k in ks <==> k in Contents())
      ensures forall a, b :: 0 <= a < b < |ks| ==> ks[a] != ks[b]
    {
      ks := [];
      var j := 0;
      assert table[..0] == [];
      while j < table.Length
        invariant 0 <= j <= table.Length
        invariant ks == LiveKeys(table[..j])
      {
        assert table[..j + 1][..j] == table[..j];
        if table[j].Live? {
          ks := ks + [table[j].key];
        }
        j := j + 1;
      }
      assert table[..j] == table[..];
      LiveKeysFacts(table[..]);
    }

    /** The live entries as key/value pairs, in iteration order, each value read with `__getitem__`. */
    method Items() returns (pairs: seq<(K, V)>)
      requires Valid() && HasEmpty(table[..])
      ensures PairsToMap(pairs) == Contents()
    {
      var ks := Keys();
      ghost var m := Contents();
      CopiedAllKeys(ks, m);
      pairs := [];
      while |pairs| < |ks|
        invariant |pairs| <= |ks|
        invariant PairsToMap(pairs) == CopiedKeys(ks[..|pairs|], m)
      {
        var r := GetItem(ks[|pairs|]);
        assert ks[..|pairs| + 1][..|pairs|] == ks[..|pairs|];
        var p := pairs + [(ks[|pairs|], r.value)];
        assert p[..|p| - 1] == pairs;
        pairs := p;
      }
      assert ks[..|pairs|] == ks;
    }
  }

  /**
   * The tombstone exhaustion of `__setitem__` as written: with the identity
   * hash on eight slots, storing and deleting keys 0 to 6 and then storing 7
   * leaves one live entry and seven tombstones. The table never grows, since
   * only one entry is live, and no empty slot is left, so a lookup of any
   * other key (8, say) probes forever.
   */
  method TombstoneExhaustion() returns (slots: seq<Slot<nat, nat>>, size: nat)
    ensures |slots| == InitialSize && size == 1
    ensures forall i :: 0 <= i < 7 ==> slots[i] == Deleted(i, 0)
    ensures slots[7] == Live(7, 7, 0)
    ensures !HasEmpty(slots)
    ensures forall n: nat :: !StopsAt(slots, 8, 8, n)
  {
    var m := new CustomHashMap<nat, nat>(k => k);
    var j := 0;
    while j < 7
      invariant 0 <= j <= 7
      invariant m.Valid() && fresh(m) && fresh(m.table)
      invariant m.capacity == InitialSize && m.used == 0 && m.Contents() == map[]
      invariant ExhaustedUpTo(m.table[..], j)
    {
      ExhaustStep(m.table[..], j);
      m.SetItem(j, 0);
      var _ := m.DelItem(j);
      assert m.Contents() == map[];
      j := j + 1;
    }
    ExhaustStep(m.table[..], 7);
    m.SetItem(7, 0);
    slots := m.table[..];
    assert m.Contents() == map[7 := 0];
    size := m.Len();
    assert forall i :: 0 <= i < |slots| ==> !slots[i].Empty?;
    forall n: nat
      ensures !StopsAt(slots, 8, 8, n)
    {
      ProbeNeverStops(slots, 8, 8, n);
    }
  }

  /** Slots below `j` are the tombstones of keys `0 .. j-1` (hashed to themselves); the rest are empty. */
  ghost predicate ExhaustedUpTo(t: seq<Slot<nat, nat>>, j: nat)
  {
    |t| == InitialSize
    && (forall i :: 0 <= i < j && i < |t| ==> t[i] == Deleted(i, 0))
    && (forall i :: j <= i < |t| ==> t[i].Empty?)
  }

  /** Key `j`, hashed to `j`, is looked up at its empty home slot, and found there once stored. */
  lemma ExhaustStep(t: seq<Slot<nat, nat>>, j: nat)
    requires ExhaustedUpTo(t, j) && j < InitialSize
    ensures IsPow2(|t|) && HasEmpty(t)
    ensures LookupSpec(t, j, j) == (j, false)
    ensures j + 1 < InitialSize ==>
      && HasEmpty(t[j := Live(j, j, 0)])
      && LookupSpec(t[j := Live(j, j, 0)], j, j) == (j, true)
      && ExhaustedUpTo(t[j := Live(j, j, 0)][j := Deleted(j, 0)], j + 1)
  {
    assert IsPow2(8) by {
      assert IsPow2(1) && IsPow2(2) && IsPow2(4);
    }
    LookupHome(t, j, j);
    var u := t[j := Live(j, j, 0)];
    if j + 1 < InitialSize {
      assert u[j + 1].Empty?;
      assert StopsAt(u, j, j, 0);
      assert StopStep(u, j, j) == 0;
    }
  }

  /** The map built by storing, in order, each of `ks` with its value in `m`. */
  function CopiedKeys<K, V>(ks: seq<K>, m: map<K, V>): map<K, V>
    requires forall k :: k in ks ==> k in m
  {
    if ks == [] then map[]
    else CopiedKeys(ks[..|ks| - 1], m)[ks[|ks| - 1] := m[ks[|ks| - 1]]]
  }

  /** Copying every key of a map gives the map back. */
  lemma {:induction false} CopiedAllKeys<K, V>(ks: seq<K>, m: map<K, V>)
    requires forall k :: k in ks <==> k in m
    ensures CopiedKeys(ks, m) == m
  {
    CopiedKeysFacts(ks, m);
    assert CopiedKeys(ks, m).Keys == m.Keys;
  }

  lemma {:induction false} CopiedKeysFacts<K, V>(ks: seq<K>, m: map<K, V>)
    requires forall k :: k in ks ==> k in m
    ensures forall k :: k in CopiedKeys(ks, m) ==> k in ks
    ensures forall k :: k in ks ==> k in CopiedKeys(ks, m)
    ensures forall k :: k in CopiedKeys(ks, m) ==> CopiedKeys(ks, m)[k] == m[k]
  {
    if ks != [] {
      var p := ks[..|ks| - 1];
      assert ks == p + [ks[|ks| - 1]];
      CopiedKeysFacts(p, m);
    }
  }

  /** The map that a sequence of assignments builds, a later pair for a key overriding an earlier one. */
  function PairsToMap<K, V>(pairs: seq<(K, V)>): map<K, V>
  {
    if pairs == [] then map[]
    else PairsToMap(pairs[..|pairs| - 1])[pairs[|pairs| - 1].0 := pairs[|pairs| - 1].1]
  }

  lemma {:induction false} FilledAtLeastLive<K, V>(t: seq<Slot<K, V>>)
    ensures FilledCount(t) >= LiveCount(t)
  {
    if t != [] {
      FilledAtLeastLive(t[..|t| - 1]);
    }
  }
}
