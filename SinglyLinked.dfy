/**
 * The singly linked list of lab4/Lab4.py: nodes joined by `next`
 * pointers, a head, a tail and a length counter.
 *
 * The ghost field `nodes` is the chain reached from the head, and `items`
 * holds their items. `Valid` is what every method keeps: a chain that ends
 * in null, and a tail that is either null or the last node. `add_first`
 * does not set the tail when the list is empty, so the tail can be null
 * while nodes remain. The intended invariant `Consistent` adds that the
 * tail is null only for an empty list and that the counter is the number
 * of nodes. `AddFirst` breaks it, and `AddFirstChecked`, the corrected
 * version, keeps it.
 */
module SinglyLinked {
  import opened Util

  class Node<T> {
    var item: T
    var next: Node?<T>

    constructor(item: T, next: Node?<T>)
      ensures this.item == item && this.next == next
    {
      this.item := item;
      this.next := next;
    }
  }

  class LinkedList<T> {
    var head: Node?<T>
    var tail: Node?<T>
    var len: int
    /** The nodes from the head, following `next`. */
    ghost var nodes: seq<Node<T>>
    /** Their items: what iteration yields. */
    ghost var items: seq<T>
    ghost var Repr: set<object>

    ghost predicate Valid()
      reads this, Repr
    {
      && this in Repr
      && |items| == |nodes|
      && (forall i :: 0 <= i < |nodes| ==> nodes[i] in Repr && nodes[i].item == items[i])
      && (forall i, j :: 0 <= i < j < |nodes| ==> nodes[i] != nodes[j])
      && head == (if nodes == [] then null else nodes[0])
      && (forall i :: 0 <= i < |nodes| - 1 ==> nodes[i].next == nodes[i + 1])
      && (nodes != [] ==> nodes[|nodes| - 1].next == null)
      && (tail == null || (nodes != [] && tail == nodes[|nodes| - 1]))
    }

    /** What the class means to hold: a tail exactly when there are nodes, and the right count. */
    ghost predicate Consistent()
      reads this, Repr
    {
      Valid() && (tail == null <==> nodes == []) && len == |nodes|
    }

    /** `LinkedList()`: empty. */
    constructor()
      ensures Consistent() && items == [] && fresh(Repr)
    {
      head, tail, len := null, null, 0;
      nodes, items := [], [];
      Repr := {this};
    }

    /** `LinkedList(items)`: `add_last` for each item, so the items keep their order. */
    constructor FromItems(xs: seq<T>)
      ensures Consistent() && items == xs && len == |xs| && fresh(Repr)
    {
      head, tail, len := null, null, 0;
      nodes, items := [], [];
      Repr := {this};
      new;
      var i := 0;
      while i < |xs|
        invariant 0 <= i <= |xs|
        invariant Consistent() && items == xs[..i] && fresh(Repr)
      {
        AddLast(xs[i]);
        assert xs[..i + 1] == xs[..i] + [xs[i]];
        i := i + 1;
      }
    }

    /** `__len__`: the counter, which under `Consistent` is the number of items. */
    function Len(): (n: int)
      reads this, Repr
      ensures Consistent() ==> n == |items|
    {
      len
    }

    /** `add_first` as written: the new node goes in front, but an empty list's tail stays null. */
    method AddFirst(item: T)
      requires Valid()
      modifies this
      ensures Valid() && fresh(Repr - old(Repr))
      ensures items == [item] + old(items) && len == old(len) + 1 && tail == old(tail)
      ensures old(Consistent()) && old(items) != [] ==> Consistent()
    {
      var n := new Node(item, head);
      head := n;
      len := len + 1;
      ghost var rest := nodes;
      nodes, items := [n] + nodes, [item] + items;
      Repr := Repr + {n};
      forall i | 0 < i < |nodes| - 1
        ensures nodes[i].next == nodes[i + 1]
      {
        assert nodes[i] == rest[i - 1] && nodes[i + 1] == rest[i];
      }
    }

    /** `add_first` with the tail set when the list was empty. */
    method AddFirstChecked(item: T)
      requires Valid()
      modifies this
      ensures Valid() && fresh(Repr - old(Repr))
      ensures items == [item] + old(items) && len == old(len) + 1
      ensures old(Consistent()) ==> Consistent()
    {
      var n := new Node(item, head);
      if tail == null && head == null {
        tail := n;
      }
      head := n;
      len := len + 1;
      ghost var rest := nodes;
      nodes, items := [n] + nodes, [item] + items;
      Repr := Repr + {n};
      forall i | 0 < i < |nodes| - 1
        ensures nodes[i].next == nodes[i + 1]
      {
        assert nodes[i] == rest[i - 1] && nodes[i + 1] == rest[i];
      }
    }

    /**
     * `add_last`: the new node goes after the tail. With no tail it becomes
     * the head, so any nodes an earlier `add_first` left without a tail are
     * dropped.
     */
    method AddLast(item: T)
      requires Valid()
      modifies this, tail
      ensures Valid() && fresh(Repr - old(Repr))
      ensures old(tail) != null ==> items == old(items) + [item]
      ensures old(tail) == null ==> items == [item]
      ensures len == old(len) + 1 && tail != null
      ensures old(Consistent()) ==> Consistent()
    {
      var n := new Node(item, null);
      if tail != null {
        tail.next := n;
        nodes, items := nodes + [n], items + [item];
      } else {
        head := n;
        nodes, items := [n], [item];
      }
      tail := n;
      len := len + 1;
      Repr := Repr + {n};
    }

    /** `remove_first`: the head's item, removed; a RuntimeError on an empty list. */
    method RemoveFirst() returns (r: Result<T>)
      requires Valid()
      modifies this
      ensures Valid() && Repr <= old(Repr)
      ensures old(items) == [] ==> r == Err(RuntimeError) && items == old(items) && len == old(len)
      ensures old(items) != [] ==> r == Ok(old(items)[0]) && items == old(items)[1..] && len == old(len) - 1
      ensures old(Consistent()) ==> Consistent()
    {
      if head == null {
        return Err(RuntimeError);
      }

      if head == tail {
        tail := null;
      }
      assert |nodes| > 1 ==> nodes[0].next == nodes[1];
      r := Ok(head.item);
      head := head.next;
      len := len - 1;
      nodes, items := nodes[1..], items[1..];
      forall i | 0 <= i < |nodes| - 1
        ensures nodes[i].next == nodes[i + 1]
      {
        assert nodes[i] == old(nodes)[i + 1] && nodes[i + 1] == old(nodes)[i + 2];
      }
    }

    /** `__iter__`: the items from the head along the `next` pointers. */
    method Iterate() returns (r: seq<T>)
      requires Valid()
      ensures r == items
    {
      r := [];
      var cur := head;
      var i := 0;
      while cur != null
        invariant 0 <= i <= |nodes| && r == items[..i]
        invariant cur == if i < |nodes| then nodes[i] else null
        decreases |nodes| - i
      {
        r := r + [cur.item];
        cur := cur.next;
        i := i + 1;
      }
    }
  }

  /** On an empty list, `add_first(1)` then `add_last(2)` loses the 1 while the length says 2. */
  method LostFirstItem() returns (n: int, r: seq<int>)
    ensures n == 2 && r == [2]
  {
    var l := new LinkedList<int>();
    l.AddFirst(1);
    l.AddLast(2);
    n := l.Len();
    r := l.Iterate();
  }

  /** The same calls with the corrected `add_first` keep both items. */
  method KeptFirstItem() returns (n: int, r: seq<int>)
    ensures n == 2 && r == [1, 2]
  {
    var l := new LinkedList<int>();
    l.AddFirstChecked(1);
    l.AddLast(2);
    n := l.Len();
    r := l.Iterate();
  }

  /** Adding at the front and removing from the front is last-in, first-out. */
  method FrontIsStack<T>(x: T, y: T) returns (a: Result<T>, b: Result<T>)
    ensures a == Ok(y) && b == Ok(x)
  {
    var l := new LinkedList<T>();
    l.AddFirstChecked(x);
    l.AddFirstChecked(y);
    a := l.RemoveFirst();
    b := l.RemoveFirst();
  }

  /** Adding at the back and removing from the front is first-in, first-out. */
  method BackIsQueue<T>(x: T, y: T) returns (a: Result<T>, b: Result<T>)
    ensures a == Ok(x) && b == Ok(y)
  {
    var l := new LinkedList<T>();
    l.AddLast(x);
    l.AddLast(y);
    a := l.RemoveFirst();
    b := l.RemoveFirst();
  }
}
