/**
 * The two priority queues of lab10/lab10.py: a binary heap kept in a list
 * (`PriorityQueueUnorderedList`) and a list kept in non-increasing priority
 * order whose last entry is the next out (`PriorityQueueOrderedList`).
 */
module PriorityQueues {
  import opened Util
  import opened Heaps

  /** The heap-backed queue. */
  class HeapQueue<I(==)> {
    var tree: seq<Entry<I>>

    /** The constructor, which sifts down from the root downwards (see `Heaps.HeapifyAsWritten`). */
    constructor(entries: seq<Entry<I>>)
      ensures tree == HeapifyAsWritten(entries)
    {
      tree := entries;
      new;
      var i := 0;
      while i < |tree| / 2
        invariant |tree| == |entries| && 0 <= i <= |tree| / 2
        invariant SiftDownUpward(tree, i, |entries| / 2) == HeapifyAsWritten(entries)
      {
        SiftDownAt(i);
        i := i + 1;
      }
    }

    /** A constructor that sifts down from the last parent back to the root, which always builds a heap. */
    constructor Heapified(entries: seq<Entry<I>>)
      ensures tree == Heapify(entries) && IsHeap(tree)
    {
      tree := entries;
      new;
      SiftDownBelow(|tree| / 2);
      HeapifyIsHeap(entries);
    }

    /** Sift down from each index below `hi`, the last parent first. */
    method SiftDownBelow(hi: nat)
      modifies this
      ensures tree == SiftDownRange(old(tree), 0, hi)
    {
      var i: nat := hi;
      while i > 0
        invariant i <= hi
        invariant tree == SiftDownRange(old(tree), i, hi)
      {
        SiftDownAt(i - 1);
        i := i - 1;
      }
    }

    /** `_siftup` */
    method SiftUpAt(i: int)
      requires 0 <= i < |tree|
      modifies this
      ensures tree == SiftUp(old(tree), i)
    {
      var j := i;
      while j > 0
        invariant 0 <= j < |tree|
        invariant SiftUp(tree, j) == SiftUp(old(tree), i)
      {
        var parent := (j - 1) / 2;
        if EntryLess(tree[j], tree[parent]) {
          tree := Swap(tree, j, parent);
        }
        j := parent;
      }
    }

    /** `_siftdown` */
    method SiftDownAt(i: int)
      requires 0 <= i
      modifies this
      ensures tree == SiftDown(old(tree), i)
    {
      var j := i;
      while 2 * j + 1 < |tree|
        invariant 0 <= j
        invariant SiftDown(tree, j) == SiftDown(old(tree), i)
        decreases |tree| - j
      {
        var left, right := 2 * j + 1, 2 * j + 2;
        var child := if right < |tree| && EntryLess(tree[right], tree[left]) then right else left;
        assert child == SmallerChild(tree, j);
        if EntryLess(tree[child], tree[j]) {
          tree := Swap(tree, j, child);
        }
        j := child;
      }
    }

    function Len(): (n: nat)
      reads this
      ensures n == |Items(tree)|
    {
      |tree|
    }

    /** `__contains__`: whether some entry holds `x`. */
    predicate Contains(x: I)
      reads this
      ensures Contains(x) <==> x in Items(tree)
    {
      exists k :: 0 <= k < |tree| && tree[k].item == x
    }

    /** `find_min`: the root, without removing it; IndexError when empty. */
    function FindMin(): (r: Result<Entry<I>>)
      reads this
      ensures |tree| == 0 <==> r == Err(IndexError)
      ensures r.Ok? ==> r.value in tree
      ensures r.Ok? && IsHeap(tree) ==> forall k :: 0 <= k < |tree| ==> Precedes(r.value, tree[k])
    {
      if |tree| == 0 then Err(IndexError)
      else
        assert IsHeap(tree) ==> forall k :: 0 <= k < |tree| ==> Precedes(tree[0], tree[k]) by {
          if IsHeap(tree) {
            forall k | 0 <= k < |tree|
              ensures Precedes(tree[0], tree[k])
            {
              HeapRootLeast(tree, k);
            }
          }
        }
        Ok(tree[0])
    }

    /** `insert`: append the new entry and sift it up. */
    method Insert(item: I, priority: Priority)
      modifies this
      ensures tree == Pushed(old(tree), Entry(item, priority))
      ensures |tree| == old(|tree|) + 1
      ensures multiset(tree) == old(multiset(tree)) + multiset{Entry(item, priority)}
      ensures old(IsHeap(tree)) ==> IsHeap(tree)
    {
      ghost var t := tree;
      tree := tree + [Entry(item, priority)];
      SiftUpAt(|tree| - 1);
      if IsHeap(t) {
        PushKeepsHeap(t, Entry(item, priority));
      }
    }

    /** `remove_min`: IndexError when empty; otherwise the root, replaced by the last entry, which is sifted down. */
    method RemoveMin() returns (r: Result<Entry<I>>)
      modifies this
      ensures r == old(FindMin())
      ensures r.Err? ==> tree == old(tree)
      ensures r.Ok? ==> tree == Popped(old(tree)) && |tree| == old(|tree|) - 1
      ensures r.Ok? ==> multiset(tree) == old(multiset(tree)) - multiset{r.value}
      ensures old(IsHeap(tree)) ==> IsHeap(tree)
    {
      if |tree| == 0 {
        return Err(IndexError);
      }
      ghost var t := tree;
      r := Ok(tree[0]);
      tree := tree[0 := tree[|tree| - 1]];
      tree := tree[..|tree| - 1];
      SiftDownAt(0);
      if IsHeap(t) {
        PopKeepsHeap(t);
      }
    }
  }

  /** Non-increasing priority order: no entry is smaller than a later one. */
  ghost predicate Descending<I>(s: seq<Entry<I>>)
  {
    forall i, j :: 0 <= i < j < |s| ==> Precedes(s[j], s[i])
  }

  /** Where `insert` puts an entry of priority `p`: before the first entry of smaller priority, else at the end. */
  function InsertionIndex<I>(s: seq<Entry<I>>, p: Priority): (k: nat)
    ensures k <= |s|
    ensures forall j :: 0 <= j < k ==> !Below(s[j].priority, p)
    ensures k < |s| ==> Below(s[k].priority, p)
  {
    if s == [] || Below(s[0].priority, p) then 0
    else 1 + InsertionIndex(s[1..], p)
  }

  /** Inserting at `InsertionIndex` keeps the order non-increasing. */
  lemma InsertKeepsDescending<I>(s: seq<Entry<I>>, e: Entry<I>)
    requires Descending(s)
    ensures var k := InsertionIndex(s, e.priority);
      Descending(s[..k] + [e] + s[k..])
  {
    var k := InsertionIndex(s, e.priority);
    var u := s[..k] + [e] + s[k..];
    forall i, j | 0 <= i < j < |u|
      ensures Precedes(u[j], u[i])
    {
      if j < k {
        assert u[i] == s[i] && u[j] == s[j];
      } else if j == k {
        assert u[i] == s[i];
      } else if i < k {
        assert u[i] == s[i] && u[j] == s[j - 1];
        assert Precedes(s[j - 1], s[i]);
      } else if i == k {
        assert u[j] == s[j - 1];
        assert Precedes(s[j - 1], s[k]);
      } else {
        assert u[i] == s[i - 1] && u[j] == s[j - 1];
      }
    }
  }

  /** `s` with `e` inserted where `insert` puts it. */
  function InsertEntry<I>(s: seq<Entry<I>>, e: Entry<I>): seq<Entry<I>>
  {
    var k := InsertionIndex(s, e.priority);
    s[..k] + [e] + s[k..]
  }

  /** The entries inserted one after another, first to last, into an empty list. */
  function InsertAll<I>(s: seq<Entry<I>>): seq<Entry<I>>
  {
    if s == [] then [] else InsertEntry(InsertAll(s[..|s| - 1]), s[|s| - 1])
  }

  /** One insertion adds exactly the entry, and keeps a non-increasing order. */
  lemma InsertEntryFacts<I>(s: seq<Entry<I>>, e: Entry<I>)
    ensures multiset(InsertEntry(s, e)) == multiset(s) + multiset{e}
    ensures Descending(s) ==> Descending(InsertEntry(s, e))
  {
    var k := InsertionIndex(s, e.priority);
    if Descending(s) {
      InsertKeepsDescending(s, e);
    }
    var a, b := s[..k], s[k..];
    assert s == a + b;
    assert InsertEntry(s, e) == a + [e] + b;
  }

  /** Inserting every entry gives a non-increasing list of the same entries. */
  lemma {:induction false} InsertAllSorted<I>(s: seq<Entry<I>>)
    ensures Descending(InsertAll(s)) && multiset(InsertAll(s)) == multiset(s)
  {
    if s != [] {
      var s', e := s[..|s| - 1], s[|s| - 1];
      InsertAllSorted(s');
      InsertEntryFacts(InsertAll(s'), e);
      assert s == s' + [e];
    }
  }

  /** The entries of priority `p`, in their order. */
  function WithPriority<I>(s: seq<Entry<I>>, p: Priority): seq<Entry<I>>
  {
    if s == [] then [] else (if s[0].priority == p then [s[0]] else []) + WithPriority(s[1..], p)
  }

  lemma {:induction false} WithPriorityConcat<I>(s: seq<Entry<I>>, t: seq<Entry<I>>, p: Priority)
    ensures WithPriority(s + t, p) == WithPriority(s, p) + WithPriority(t, p)
  {
    if s == [] {
      assert s + t == t;
    } else {
      assert (s + t)[1..] == s[1..] + t;
      WithPriorityConcat(s[1..], t, p);
    }
  }

  lemma {:induction false} WithPriorityNone<I>(s: seq<Entry<I>>, p: Priority)
    requires forall k :: 0 <= k < |s| ==> s[k].priority != p
    ensures WithPriority(s, p) == []
  {
    if s != [] {
      WithPriorityNone(s[1..], p);
    }
  }

  /** One insertion into a non-increasing list puts the entry after every entry of its own priority. */
  lemma InsertEntryStable<I>(s: seq<Entry<I>>, e: Entry<I>, p: Priority)
    requires Descending(s)
    ensures WithPriority(InsertEntry(s, e), p) == WithPriority(s, p) + WithPriority([e], p)
  {
    var k := InsertionIndex(s, e.priority);
    var a, b := s[..k], s[k..];
    assert s == a + b;
    assert InsertEntry(s, e) == (a + [e]) + b;
    WithPriorityConcat(a + [e], b, p);
    WithPriorityConcat(a, [e], p);
    WithPriorityConcat(a, b, p);
    if e.priority == p {
      AfterInsertionIndex(s, p);
    }
  }

  /** In a non-increasing list, no entry from `InsertionIndex` on has priority `p`. */
  lemma AfterInsertionIndex<I>(s: seq<Entry<I>>, p: Priority)
    requires Descending(s)
    ensures WithPriority(s[InsertionIndex(s, p)..], p) == []
  {
    var k := InsertionIndex(s, p);
    forall j | 0 <= j < |s[k..]|
      ensures s[k..][j].priority != p
    {
      assert Precedes(s[k + j], s[k]);
    }
    WithPriorityNone(s[k..], p);
  }

  /**
   * `sort(reverse=True)` is stable: the entries of any one priority keep
   * the order they had, and inserting one after another does the same.
   */
  lemma {:induction false} InsertAllStable<I>(s: seq<Entry<I>>, p: Priority)
    ensures WithPriority(InsertAll(s), p) == WithPriority(s, p)
  {
    if s != [] {
      var s', e := s[..|s| - 1], s[|s| - 1];
      InsertAllStable(s', p);
      InsertAllSorted(s');
      InsertEntryStable(InsertAll(s'), e, p);
      assert s == s' + [e];
      WithPriorityConcat(s', [e], p);
    }
  }

  /** The ordered-list queue. */
  class OrderedQueue<I(==)> {
    var list: seq<Entry<I>>

    /**
     * The constructor: `list.sort(reverse=True)` on the entries, which
     * compare by priority alone; here by inserting each entry in turn.
     */
    constructor(entries: seq<Entry<I>>)
      ensures list == InsertAll(entries)
      ensures Descending(list) && multiset(list) == multiset(entries)
      ensures forall p :: WithPriority(list, p) == WithPriority(entries, p)
    {
      list := [];
      new;
      var i := 0;
      while i < |entries|
        invariant 0 <= i <= |entries|
        invariant list == InsertAll(entries[..i])
      {
        assert entries[..i + 1][..i] == entries[..i];
        Insert(entries[i].item, entries[i].priority);
        i := i + 1;
      }
      assert entries[..i] == entries;
      InsertAllSorted(entries);
      forall p {
        InsertAllStable(entries, p);
      }
    }

    function Len(): (n: nat)
      reads this
      ensures n == |Items(list)|
    {
      |list|
    }

    /** `__contains__`: whether some entry holds `x`. */
    predicate Contains(x: I)
      reads this
      ensures Contains(x) <==> x in Items(list)
    {
      exists k :: 0 <= k < |list| && list[k].item == x
    }

    /** `find_min`: the last entry; IndexError when empty. */
    function FindMin(): (r: Result<Entry<I>>)
      reads this
      ensures |list| == 0 <==> r == Err(IndexError)
      ensures r.Ok? ==> r.value in list
      ensures r.Ok? && Descending(list) ==> forall k :: 0 <= k < |list| ==> Precedes(r.value, list[k])
    {
      if |list| == 0 then Err(IndexError) else Ok(list[|list| - 1])
    }

    /** `insert`: scan for the first entry of smaller priority and insert in front of it. */
    method Insert(item: I, priority: Priority)
      modifies this
      ensures list == InsertEntry(old(list), Entry(item, priority))
      ensures multiset(list) == old(multiset(list)) + multiset{Entry(item, priority)}
      ensures old(Descending(list)) ==> Descending(list)
    {
      var i := 0;
      while i < |list| && !Below(list[i].priority, priority)
        invariant 0 <= i <= |list|
        invariant forall j :: 0 <= j < i ==> !Below(list[j].priority, priority)
      {
        i := i + 1;
      }
      InsertionIndexIs(list, priority, i);
      InsertEntryFacts(list, Entry(item, priority));
      list := list[..i] + [Entry(item, priority)] + list[i..];
    }

    /** `remove_min`: pop the last entry; IndexError when empty. */
    method RemoveMin() returns (r: Result<Entry<I>>)
      modifies this
      ensures r == old(FindMin())
      ensures r.Err? ==> list == old(list)
      ensures r.Ok? ==> list == old(list)[..|old(list)| - 1]
      ensures r.Ok? ==> multiset(list) == old(multiset(list)) - multiset{r.value}
      ensures old(Descending(list)) ==> Descending(list)
    {
      if |list| == 0 {
        return Err(IndexError);
      }
      r := Ok(list[|list| - 1]);
      assert list == list[..|list| - 1] + [list[|list| - 1]];
      list := list[..|list| - 1];
    }
  }

  /** The scan of `insert` stops exactly at `InsertionIndex`. */
  lemma InsertionIndexIs<I>(s: seq<Entry<I>>, p: Priority, i: int)
    requires 0 <= i <= |s|
    requires forall j :: 0 <= j < i ==> !Below(s[j].priority, p)
    requires i < |s| ==> Below(s[i].priority, p)
    ensures InsertionIndex(s, p) == i
  {
  }
}
