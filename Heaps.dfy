/**
 * Binary min-heaps stored in a sequence (entry `i` has children `2i + 1` and
 * `2i + 2`), as used by the priority queues of lab10/lab10.py and
 * hw11/Graph.py. The sift loops of both files are specified here as
 * functions on sequences; the two queue classes run those loops on their
 * own fields.
 */
module Heaps {
  /** A priority: an integer, or infinity (Python's `math.inf`), which is larger than every integer. */
  datatype Priority = Finite(value: int) | Infinity

  /** `a < b` on priorities. */
  predicate Below(a: Priority, b: Priority)
  {
    match a
    case Infinity => false
    case Finite(x) => b.Infinity? || x < b.value
  }

  /** An item paired with its priority. */
  datatype Entry<I> = Entry(item: I, priority: Priority)

  /** `Entry.__lt__`: entries compare by priority alone. */
  predicate EntryLess<I>(x: Entry<I>, y: Entry<I>)
  {
    Below(x.priority, y.priority)
  }

  /** `x` may sit above `y` in a heap: `not (y < x)`. */
  predicate Precedes<I>(x: Entry<I>, y: Entry<I>)
  {
    !EntryLess(y, x)
  }

  lemma BelowIsStrictTotalOrder(a: Priority, b: Priority, c: Priority)
    ensures !Below(a, a)
    ensures Below(a, b) && Below(b, c) ==> Below(a, c)
    ensures Below(a, b) || a == b || Below(b, a)
  {
  }

  function Parent(c: int): int
  {
    (c - 1) / 2
  }

  lemma ParentOf(k: int, j: int)
    requires 0 < k && 0 <= j
    ensures Parent(k) == j <==> k == 2 * j + 1 || k == 2 * j + 2
    ensures Parent(k) < k
  {
  }

  function Swap<I>(t: seq<Entry<I>>, i: int, j: int): (u: seq<Entry<I>>)
    requires 0 <= i < |t| && 0 <= j < |t|
    ensures |u| == |t| && multiset(u) == multiset(t)
    ensures u[i] == t[j] && u[j] == t[i]
    ensures forall k :: 0 <= k < |t| && k != i && k != j ==> u[k] == t[k]
  {
    t[i := t[j]][j := t[i]]
  }

  /** Every edge whose parent is at index `lo` or beyond is in heap order. */
  ghost predicate HeapFrom<I>(t: seq<Entry<I>>, lo: int)
  {
    forall k :: 0 < k < |t| && lo <= Parent(k) ==> Precedes(t[Parent(k)], t[k])
  }

  /** Every parent precedes its children, so the first entry has the least priority. */
  ghost predicate IsHeap<I>(t: seq<Entry<I>>)
  {
    HeapFrom(t, 0)
  }

  /**
   * The state during a sift-down started at `lo`: heap order holds on every
   * edge below `lo` except those leaving `j`, and `j`'s parent precedes
   * `j`'s children.
   */
  ghost predicate DownExcept<I>(t: seq<Entry<I>>, lo: int, j: int)
  {
    && (forall k :: 0 < k < |t| && lo <= Parent(k) && Parent(k) != j ==> Precedes(t[Parent(k)], t[k]))
    && (0 < j < |t| && lo <= Parent(j) ==>
          forall k :: 0 < k < |t| && Parent(k) == j ==> Precedes(t[Parent(j)], t[k]))
  }

  /**
   * The state during a sift-up at `j`: heap order holds on every edge except
   * the one into `j`, and `j`'s parent precedes `j`'s children.
   */
  ghost predicate UpExcept<I>(t: seq<Entry<I>>, j: int)
  {
    && 0 <= j < |t|
    && (forall k :: 0 < k < |t| && k != j ==> Precedes(t[Parent(k)], t[k]))
    && (0 < j ==> forall k :: 0 < k < |t| && Parent(k) == j ==> Precedes(t[Parent(j)], t[k]))
  }

  // ---------------------------------------------------------------------------
  // The two sift loops

  /**
   * `_siftup`: walk from `i` to the root, swapping an entry with its parent
   * whenever it is smaller. The walk does not stop at the first entry that
   * is already in place.
   */
  function SiftUp<I>(t: seq<Entry<I>>, i: int): (u: seq<Entry<I>>)
    requires 0 <= i < |t|
    ensures |u| == |t| && multiset(u) == multiset(t)
    decreases i
  {
    if i == 0 then t
    else
      var p := Parent(i);
      SiftUp(if EntryLess(t[i], t[p]) then Swap(t, i, p) else t, p)
  }

  /**
   * `_siftdown`: walk from `i` towards the leaves along the smaller child
   * (the left one on a tie), swapping whenever the child is smaller. The
   * walk continues to a leaf even after an entry is found in place.
   */
  function SiftDown<I>(t: seq<Entry<I>>, i: int): (u: seq<Entry<I>>)
    requires 0 <= i
    ensures |u| == |t| && multiset(u) == multiset(t)
    decreases |t| - i
  {
    if 2 * i + 1 >= |t| then t
    else
      var c := SmallerChild(t, i);
      SiftDown(if EntryLess(t[c], t[i]) then Swap(t, i, c) else t, c)
  }

  /** The child the sift-down follows: the right one only when it is strictly smaller. */
  function SmallerChild<I>(t: seq<Entry<I>>, i: int): (c: int)
    requires 0 <= i && 2 * i + 1 < |t|
    ensures c == 2 * i + 1 || (c == 2 * i + 2 && c < |t|)
    ensures forall k :: 0 < k < |t| && Parent(k) == i ==> Precedes(t[c], t[k])
  {
    var l, r := 2 * i + 1, 2 * i + 2;
    forall k | 0 < k < |t| && Parent(k) == i
      ensures k == l || k == r
    {
      ParentOf(k, i);
    }
    if r < |t| && EntryLess(t[r], t[l]) then r else l
  }

  // ---------------------------------------------------------------------------
  // What the sift loops restore

  /** A sift-down from `j` repairs the heap order below `lo` that only `j` broke. */
  lemma {:induction false} SiftDownRestores<I>(t: seq<Entry<I>>, lo: int, j: int)
    requires 0 <= lo <= j && DownExcept(t, lo, j)
    ensures HeapFrom(SiftDown(t, j), lo)
    decreases |t| - j
  {
    if 2 * j + 1 >= |t| {
      forall k | 0 < k < |t| && lo <= Parent(k)
        ensures Precedes(t[Parent(k)], t[k])
      {
        if Parent(k) == j {
          ParentOf(k, j);
        }
      }
    } else {
      var c := SmallerChild(t, j);
      var u := if EntryLess(t[c], t[j]) then Swap(t, j, c) else t;
      SiftDownStep(t, lo, j, c, u);
      SiftDownRestores(u, lo, c);
    }
  }

  /** One step of the sift-down moves the exception from `j` to the child `c`. */
  lemma SiftDownStep<I>(t: seq<Entry<I>>, lo: int, j: int, c: int, u: seq<Entry<I>>)
    requires 0 <= lo <= j && 2 * j + 1 < |t| && DownExcept(t, lo, j)
    requires c == SmallerChild(t, j)
    requires u == if EntryLess(t[c], t[j]) then Swap(t, j, c) else t
    ensures DownExcept(u, lo, c)
  {
    ParentOf(c, j);
    forall k | 0 < k < |u| && lo <= Parent(k) && Parent(k) != c
      ensures Precedes(u[Parent(k)], u[k])
    {
      ParentOf(k, j);
      ParentOf(k, c);
      if Parent(k) == j {
        assert Precedes(t[c], t[k]);
      } else if k == j {
        assert Precedes(t[Parent(j)], t[c]);
      } else {
        assert u[k] == t[k] && u[Parent(k)] == t[Parent(k)];
      }
    }
    forall k | 0 < k < |u| && Parent(k) == c
      ensures Precedes(u[j], u[k])
    {
      ParentOf(k, c);
      assert Parent(k) != j && u[k] == t[k];
      assert Precedes(t[c], t[k]);
    }
  }

  /** A sift-up from `j` repairs a heap whose only disorder is the edge into `j`. */
  lemma {:induction false} SiftUpRestores<I>(t: seq<Entry<I>>, j: int)
    requires UpExcept(t, j)
    ensures IsHeap(SiftUp(t, j))
    decreases j
  {
    if j == 0 {
      forall k | 0 < k < |t| && 0 <= Parent(k)
        ensures Precedes(t[Parent(k)], t[k])
      {
      }
    } else {
      var p := Parent(j);
      ParentOf(j, p);
      var u := if EntryLess(t[j], t[p]) then Swap(t, j, p) else t;
      forall k | 0 < k < |u| && k != p
        ensures Precedes(u[Parent(k)], u[k])
      {
        ParentOf(k, j);
        ParentOf(k, p);
        if k == j {
        } else if Parent(k) == j {
          assert Precedes(t[p], t[k]);
        } else if Parent(k) == p {
          assert Precedes(t[p], t[k]);
        } else {
          assert u[k] == t[k] && u[Parent(k)] == t[Parent(k)];
        }
      }
      if 0 < p {
        forall k | 0 < k < |u| && Parent(k) == p
          ensures Precedes(u[Parent(p)], u[k])
        {
          ParentOf(k, p);
          ParentOf(p, Parent(p));
          assert Precedes(t[Parent(p)], t[p]);
          if k == j {
          } else {
            assert Precedes(t[p], t[k]);
          }
        }
      }
      SiftUpRestores(u, p);
    }
  }

  /** A sift-up changes nothing when every edge into an index up to `j` is in order. */
  lemma {:induction false} SiftUpInPlace<I>(t: seq<Entry<I>>, j: int)
    requires 0 <= j < |t|
    requires forall k :: 0 < k <= j ==> Precedes(t[Parent(k)], t[k])
    ensures SiftUp(t, j) == t
    decreases j
  {
    if j > 0 {
      ParentOf(j, Parent(j));
      SiftUpInPlace(t, Parent(j));
    }
  }

  /** The root of a heap has the least priority. */
  lemma {:induction false} HeapRootLeast<I>(t: seq<Entry<I>>, k: int)
    requires IsHeap(t) && 0 <= k < |t|
    ensures Precedes(t[0], t[k])
    decreases k
  {
    if k > 0 {
      ParentOf(k, Parent(k));
      HeapRootLeast(t, Parent(k));
    }
  }

  // ---------------------------------------------------------------------------
  // The queue operations built from the sift loops

  /** `push`/`insert`: append, then sift up from the new last index. */
  function Pushed<I>(t: seq<Entry<I>>, e: Entry<I>): (u: seq<Entry<I>>)
    ensures |u| == |t| + 1 && multiset(u) == multiset(t) + multiset{e}
  {
    SiftUp(t + [e], |t|)
  }

  /** Pushing onto a heap gives a heap. */
  lemma PushKeepsHeap<I>(t: seq<Entry<I>>, e: Entry<I>)
    requires IsHeap(t)
    ensures IsHeap(Pushed(t, e))
  {
    var s := t + [e];
    forall k | 0 < k < |s| && k != |t|
      ensures Precedes(s[Parent(k)], s[k])
    {
      ParentOf(k, Parent(k));
    }
    forall k | 0 < k < |s| && Parent(k) == |t|
      ensures false
    {
      ParentOf(k, |t|);
    }
    SiftUpRestores(s, |t|);
  }

  /** `pop`/`remove_min` on a non-empty queue: the last entry replaces the root, then sifts down. */
  function Popped<I>(t: seq<Entry<I>>): (u: seq<Entry<I>>)
    requires |t| > 0
    ensures |u| == |t| - 1 && multiset(u) == multiset(t) - multiset{t[0]}
  {
    var s := t[0 := t[|t| - 1]][..|t| - 1];
    RootReplacedMultiset(t);
    SiftDown(s, 0)
  }

  /** Moving the last entry to the root and dropping the last slot removes the root. */
  lemma RootReplacedMultiset<I>(t: seq<Entry<I>>)
    requires |t| > 0
    ensures multiset(t[0 := t[|t| - 1]][..|t| - 1]) == multiset(t) - multiset{t[0]}
  {
    var s := t[0 := t[|t| - 1]][..|t| - 1];
    if |t| > 1 {
      var mid := t[1..|t| - 1];
      assert s == [t[|t| - 1]] + mid;
      assert t == [t[0]] + mid + [t[|t| - 1]];
    }
  }

  /** Popping a heap gives a heap, and the entry removed has the least priority. */
  lemma PopKeepsHeap<I>(t: seq<Entry<I>>)
    requires IsHeap(t) && |t| > 0
    ensures IsHeap(Popped(t))
    ensures forall k :: 0 <= k < |t| ==> Precedes(t[0], t[k])
  {
    forall k | 0 <= k < |t|
      ensures Precedes(t[0], t[k])
    {
      HeapRootLeast(t, k);
    }
    var s := t[0 := t[|t| - 1]][..|t| - 1];
    forall k | 0 < k < |s| && 0 <= Parent(k) && Parent(k) != 0
      ensures Precedes(s[Parent(k)], s[k])
    {
      ParentOf(k, Parent(k));
    }
    SiftDownRestores(s, 0, 0);
  }

  /** `update` at index `i`: replace the entry, sift up from `i`, then sift down from `i`. */
  function Updated<I>(t: seq<Entry<I>>, i: int, e: Entry<I>): (u: seq<Entry<I>>)
    requires 0 <= i < |t|
    ensures |u| == |t| && multiset(u) == multiset(t) - multiset{t[i]} + multiset{e}
  {
    var s := t[i := e];
    assert multiset(s) == multiset(t) - multiset{t[i]} + multiset{e};
    SiftDown(SiftUp(s, i), i)
  }

  /** Re-prioritising one entry of a heap gives a heap. */
  lemma UpdateKeepsHeap<I>(t: seq<Entry<I>>, i: int, e: Entry<I>)
    requires IsHeap(t) && 0 <= i < |t|
    ensures IsHeap(Updated(t, i, e))
  {
    var s := t[i := e];
    if 0 < i && EntryLess(e, t[Parent(i)]) {
      ParentOf(i, Parent(i));
      forall k | 0 < k < |s| && k != i
        ensures Precedes(s[Parent(k)], s[k])
      {
        ParentOf(k, i);
        if Parent(k) == i {
          assert Precedes(t[i], t[k]);
          assert Precedes(t[Parent(i)], t[i]);
        }
      }
      forall k | 0 < k < |s| && Parent(k) == i
        ensures Precedes(s[Parent(i)], s[k])
      {
        ParentOf(k, i);
        assert Precedes(t[i], t[k]);
      }
      SiftUpRestores(s, i);
      HeapSiftDownStays(SiftUp(s, i), i);
    } else {
      forall k | 0 < k <= i
        ensures Precedes(s[Parent(k)], s[k])
      {
        ParentOf(k, Parent(k));
      }
      SiftUpInPlace(s, i);
      forall k | 0 < k < |s| && Parent(k) != i
        ensures Precedes(s[Parent(k)], s[k])
      {
        ParentOf(k, Parent(k));
      }
      if 0 < i {
        forall k | 0 < k < |s| && Parent(k) == i
          ensures Precedes(s[Parent(i)], s[k])
        {
          ParentOf(k, i);
          ParentOf(i, Parent(i));
          assert Precedes(t[Parent(i)], t[i]) && Precedes(t[i], t[k]);
        }
      }
      SiftDownRestores(s, 0, i);
    }
  }

  /** A sift-down anywhere in a heap leaves a heap. */
  lemma HeapSiftDownStays<I>(t: seq<Entry<I>>, i: int)
    requires IsHeap(t) && 0 <= i
    ensures IsHeap(SiftDown(t, i))
  {
    if 0 < i < |t| {
      forall k | 0 < k < |t| && Parent(k) == i
        ensures Precedes(t[Parent(i)], t[k])
      {
        ParentOf(k, i);
        ParentOf(i, Parent(i));
        assert Precedes(t[Parent(i)], t[i]) && Precedes(t[i], t[k]);
      }
    }
    SiftDownRestores(t, 0, i);
  }

  // ---------------------------------------------------------------------------
  // Building a heap from a list

  /** Sift down from each index `i` with `lo <= i < hi`, in increasing order. */
  function SiftDownUpward<I>(t: seq<Entry<I>>, lo: nat, hi: nat): (u: seq<Entry<I>>)
    ensures |u| == |t| && multiset(u) == multiset(t)
    decreases hi - lo
  {
    if lo >= hi then t else SiftDownUpward(SiftDown(t, lo), lo + 1, hi)
  }

  /**
   * The constructors of both queues: `for i in range(len(tree) // 2):
   * siftdown(i)`, which visits the parents from the root downwards.
   */
  function HeapifyAsWritten<I>(t: seq<Entry<I>>): (u: seq<Entry<I>>)
    ensures |u| == |t| && multiset(u) == multiset(t)
  {
    SiftDownUpward(t, 0, |t| / 2)
  }

  /** Sift down from each index of `[lo, hi)`, in decreasing order. */
  function SiftDownRange<I>(t: seq<Entry<I>>, lo: nat, hi: nat): (u: seq<Entry<I>>)
    ensures |u| == |t| && multiset(u) == multiset(t)
    decreases hi - lo
  {
    if lo >= hi then t else SiftDown(SiftDownRange(t, lo + 1, hi), lo)
  }

  /** The intended construction: `for i in reversed(range(len(tree) // 2)): siftdown(i)`. */
  function Heapify<I>(t: seq<Entry<I>>): (u: seq<Entry<I>>)
    ensures |u| == |t| && multiset(u) == multiset(t)
  {
    SiftDownRange(t, 0, |t| / 2)
  }

  /** Sifting down from `hi - 1` back to `lo` extends the heap order from `hi` to `lo`. */
  lemma {:induction false} SiftDownRangeHeap<I>(t: seq<Entry<I>>, lo: nat, hi: nat)
    requires lo <= hi && HeapFrom(t, hi)
    ensures HeapFrom(SiftDownRange(t, lo, hi), lo)
    decreases hi - lo
  {
    if lo < hi {
      SiftDownRangeHeap(t, lo + 1, hi);
      var u := SiftDownRange(t, lo + 1, hi);
      forall k | 0 < k < |u| && lo <= Parent(k) && Parent(k) != lo
        ensures Precedes(u[Parent(k)], u[k])
      {
      }
      SiftDownRestores(u, lo, lo);
    }
  }

  /** Building bottom-up always gives a heap holding the same entries. */
  lemma HeapifyIsHeap<I>(t: seq<Entry<I>>)
    ensures IsHeap(Heapify(t))
  {
    forall k | 0 < k < |t| && |t| / 2 <= Parent(k)
      ensures false
    {
    }
    SiftDownRangeHeap(t, 0, |t| / 2);
  }

  /**
   * Building top-down does not always give a heap: from priorities
   * `[3, 2, 1, 0]` it builds `[1, 0, 3, 2]`, whose root is not the least
   * entry, so the next pop returns priority 1 before priority 0.
   */
  lemma HeapifyAsWrittenCounterexample()
    ensures var t := [Entry(0, Finite(3)), Entry(1, Finite(2)), Entry(2, Finite(1)), Entry(3, Finite(0))];
      && HeapifyAsWritten(t) == [Entry(2, Finite(1)), Entry(3, Finite(0)), Entry(0, Finite(3)), Entry(1, Finite(2))]
      && !IsHeap(HeapifyAsWritten(t))
  {
    var t := [Entry(0, Finite(3)), Entry(1, Finite(2)), Entry(2, Finite(1)), Entry(3, Finite(0))];
    var t1 := [Entry(2, Finite(1)), Entry(1, Finite(2)), Entry(0, Finite(3)), Entry(3, Finite(0))];
    var t2 := [Entry(2, Finite(1)), Entry(3, Finite(0)), Entry(0, Finite(3)), Entry(1, Finite(2))];
    assert SmallerChild(t, 0) == 2;
    assert SiftDown(t1, 2) == t1;
    assert SiftDown(t, 0) == t1;
    assert SmallerChild(t1, 1) == 3;
    assert SiftDown(t2, 3) == t2;
    assert SiftDown(t1, 1) == t2;
    assert SiftDownUpward(t2, 2, 2) == t2;
    assert SiftDownUpward(t1, 1, 2) == t2;
    assert Parent(1) == 0 && !Precedes(t2[0], t2[1]);
  }

  // ---------------------------------------------------------------------------
  // Membership

  /** `__contains__`: some entry holds the item. */
  predicate HasItem<I(==)>(t: seq<Entry<I>>, x: I)
  {
    exists k :: 0 <= k < |t| && t[k].item == x
  }

  /** The items of the entries, in order (`__iter__`). */
  function Items<I>(t: seq<Entry<I>>): (r: seq<I>)
    ensures |r| == |t| && forall k :: 0 <= k < |t| ==> r[k] == t[k].item
  {
    seq(|t|, k requires 0 <= k < |t| => t[k].item)
  }

  /** Entries that are a permutation of each other hold the same items. */
  lemma {:induction false} ItemsPermute<I>(t: seq<Entry<I>>, u: seq<Entry<I>>)
    requires multiset(t) == multiset(u)
    ensures multiset(Items(t)) == multiset(Items(u))
    decreases |t|
  {
    if t == [] {
      assert |u| == |multiset(u)| == 0;
    } else {
      var x := t[0];
      var j := IndexOf(u, x);
      var t', u' := RemoveAt(t, 0), RemoveAt(u, j);
      ItemsPermute(t', u');
      var it, iu := Items(t), Items(u);
      assert it[0] == x.item && iu[j] == x.item;
      RemoveOne(multiset(it), multiset(iu), x.item);
    }
  }

  /** Two multisets that both hold `x` and agree once one `x` is taken out are equal. */
  lemma RemoveOne<T>(a: multiset<T>, b: multiset<T>, x: T)
    requires x in a && x in b && a - multiset{x} == b - multiset{x}
    ensures a == b
  {
    assert a == a - multiset{x} + multiset{x};
    assert b == b - multiset{x} + multiset{x};
  }

  /** An index at which `x` occurs in `u`. */
  ghost function IndexOf<I>(u: seq<Entry<I>>, x: Entry<I>): (j: int)
    requires x in multiset(u)
    ensures 0 <= j < |u| && u[j] == x
  {
    if u[0] == x then 0
    else
      assert u == [u[0]] + u[1..];
      1 + IndexOf(u[1..], x)
  }

  /** `u` without its entry at `j`. */
  function RemoveAt<I>(u: seq<Entry<I>>, j: int): (r: seq<Entry<I>>)
    requires 0 <= j < |u|
    ensures multiset(r) == multiset(u) - multiset{u[j]}
    ensures multiset(Items(r)) == multiset(Items(u)) - multiset{u[j].item}
  {
    var r := u[..j] + u[j + 1..];
    assert u == u[..j] + [u[j]] + u[j + 1..];
    var iu := Items(u);
    assert Items(r) == iu[..j] + iu[j + 1..];
    assert iu == iu[..j] + [iu[j]] + iu[j + 1..];
    r
  }
}
