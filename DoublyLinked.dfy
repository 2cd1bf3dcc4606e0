/**
 * The doubly linked list of hw4/DoublyLinkedList.py: nodes with `prev` and
 * `next` pointers, a head, a tail, a length counter, and the dictionary
 * `_nodes` from an item to its node, used by `contains`, `neighbors` and
 * `remove_node`.
 *
 * The ghost field `nodes` is the chain from the head and `items` their
 * items. `Chain` describes the pointers. `Indexed` says that every entry of
 * `index`, the dictionary, holds a node carrying that key as its item.
 * Every method keeps both. `Live` is the intended invariant that every such
 * node is still in the chain. `remove_last` does not take its item out of
 * the dictionary, so it breaks `Live`, and `RemoveLastChecked`, the
 * corrected version, keeps it.
 *
 * Each public method updates the dictionary itself and leaves the pointer
 * updates to a helper: `LinkFront`, `LinkBack`, `UnlinkFirst`, `UnlinkLast`
 * and `Unlink`.
 */
module DoublyLinked {
  import opened Util

  class Node<T> {
    const item: T
    var next: Node?<T>
    var prev: Node?<T>

    constructor(item: T, next: Node?<T>, prev: Node?<T>)
      ensures this.item == item && this.next == next && this.prev == prev
    {
      this.item := item;
      this.next, this.prev := next, prev;
    }
  }

  /** The position of a node in a chain. */
  ghost function Position<T>(nodes: seq<Node<T>>, n: Node<T>): (i: nat)
    requires n in nodes
    ensures i < |nodes| && nodes[i] == n
  {
    if nodes[0] == n then 0 else 1 + Position(nodes[1..], n)
  }

  /** The position in a sequence of the `j`th element left once the one at `i` is removed. */
  function Skip(j: nat, i: nat): (k: nat)
    ensures j < i ==> k == j
    ensures j >= i ==> k == j + 1
  {
    if j < i then j else j + 1
  }

  /** Removing the element at `i` keeps the others in order. */
  lemma Splice<X>(s: seq<X>, i: nat)
    requires i < |s|
    ensures |s[..i] + s[i + 1..]| == |s| - 1
    ensures forall j :: 0 <= j < |s| - 1 ==> (s[..i] + s[i + 1..])[j] == s[Skip(j, i)]
  {
  }

  /** Removing an element from a sequence without repetitions leaves one without repetitions. */
  lemma SpliceDistinct<X>(s: seq<X>, i: nat)
    requires i < |s| && forall a, b :: 0 <= a < b < |s| ==> s[a] != s[b]
    ensures var r := s[..i] + s[i + 1..]; forall a, b :: 0 <= a < b < |r| ==> r[a] != r[b]
  {
    Splice(s, i);
    var r := s[..i] + s[i + 1..];
    forall a, b | 0 <= a < b < |r|
      ensures r[a] != r[b]
    {
      assert r[a] == s[Skip(a, i)] && r[b] == s[Skip(b, i)];
    }
  }

  class DoublyLinkedList<T(==)> {
    var head: Node?<T>
    var tail: Node?<T>
    var len: int
    /** `_nodes`: item to node. */
    var index: map<T, Node<T>>
    /** The nodes from the head, following `next`. */
    ghost var nodes: seq<Node<T>>
    /** Their items, front to back. */
    ghost var items: seq<T>
    /** This object and every node it has allocated, including those since removed. */
    ghost var Repr: set<object>

    /** A chain of distinct nodes from `head` to `tail`, linked both ways, counted by `len`. */
    ghost predicate Chain()
      reads this, Repr
    {
      && this in Repr
      && |items| == |nodes| && len == |nodes|
      && (forall i :: 0 <= i < |nodes| ==> nodes[i] in Repr && nodes[i].item == items[i])
      && (forall i, j :: 0 <= i < j < |nodes| ==> nodes[i] != nodes[j])
      && head == (if nodes == [] then null else nodes[0])
      && tail == (if nodes == [] then null else nodes[|nodes| - 1])
      && (forall i :: 0 <= i < |nodes| - 1 ==> nodes[i].next == nodes[i + 1] && nodes[i + 1].prev == nodes[i])
      && (nodes != [] ==> nodes[0].prev == null && nodes[|nodes| - 1].next == null)
    }

    /** Every dictionary entry is a node with the key as its item. */
    ghost predicate Indexed()
      reads this
    {
      forall k :: k in index ==> index[k] in Repr && index[k].item == k
    }

    ghost predicate Valid()
      reads this, Repr
    {
      Chain() && Indexed()
    }

    /** What the dictionary is meant to hold: only nodes still in the list. */
    ghost predicate Live()
      reads this, Repr
    {
      Valid() && forall k :: k in index ==> index[k] in nodes
    }

    constructor()
      ensures Live() && items == [] && index == map[] && fresh(Repr)
    {
      head, tail, len, index := null, null, 0, map[];
      nodes, items := [], [];
      Repr := {this};
    }

    /** `DoublyLinkedList(items)`: `add_last` for each item. */
    constructor FromItems(xs: seq<T>)
      ensures Live() && items == xs && fresh(Repr)
    {
      head, tail, len, index := null, null, 0, map[];
      nodes, items := [], [];
      Repr := {this};
      new;
      var i := 0;
      while i < |xs|
        invariant 0 <= i <= |xs|
        invariant Live() && items == xs[..i] && fresh(Repr)
      {
        AddLast(xs[i]);
        assert xs[..i + 1] == xs[..i] + [xs[i]];
        i := i + 1;
      }
    }

    /** `__len__`. */
    function Len(): (n: int)
      reads this, Repr
      ensures Valid() ==> n == |items|
    {
      len
    }

    /** `add_first`: the item goes in front and the dictionary maps it to its node. */
    method AddFirst(item: T)
      requires Valid()
      modifies this, head
      ensures Valid() && fresh(Repr - old(Repr)) && old(Repr) <= Repr
      ensures items == [item] + old(items) && index == old(index)[item := head]
      ensures old(Live()) ==> Live()
    {
      var n := LinkFront(item);
      index := index[item := n];
    }

    /** The pointer updates of `add_first`. */
    method LinkFront(item: T) returns (n: Node<T>)
      requires Chain()
      modifies this, head
      ensures Chain() && fresh(n) && Repr == old(Repr) + {n} && index == old(index)
      ensures nodes == [n] + old(nodes) && items == [item] + old(items) && head == n && n.item == item
    {
      ghost var rest := nodes;
      n := new Node(item, head, null);
      head, len := n, len + 1;
      if len == 1 {
        tail := head;
      } else if n.next != null {
        n.next.prev := n;
      } else {
        // unreachable: the counter is the number of nodes, so a second node has a successor
        assert false;
      }
      nodes, items, Repr := [n] + nodes, [item] + items, Repr + {n};
      forall i | 0 < i < |nodes| - 1
        ensures nodes[i].next == nodes[i + 1] && nodes[i + 1].prev == nodes[i]
      {
        assert nodes[i] == rest[i - 1] && nodes[i + 1] == rest[i];
      }
    }

    /** `add_last`: the item goes at the back and the dictionary maps it to its node. */
    method AddLast(item: T)
      requires Valid()
      modifies this, tail
      ensures Valid() && fresh(Repr - old(Repr)) && old(Repr) <= Repr
      ensures items == old(items) + [item] && index == old(index)[item := tail]
      ensures old(Live()) ==> Live()
    {
      var n := LinkBack(item);
      index := index[item := n];
    }

    /** The pointer updates of `add_last`. */
    method LinkBack(item: T) returns (n: Node<T>)
      requires Chain()
      modifies this, tail
      ensures Chain() && fresh(n) && Repr == old(Repr) + {n} && index == old(index)
      ensures nodes == old(nodes) + [n] && items == old(items) + [item] && tail == n && n.item == item
    {
      ghost var front := nodes;
      n := new Node(item, null, tail);
      tail, len := n, len + 1;
      if len == 1 {
        head := tail;
      } else if n.prev != null {
        n.prev.next := n;
      } else {
        // unreachable: the counter is the number of nodes, so a second node has a predecessor
        assert false;
      }
      nodes, items, Repr := nodes + [n], items + [item], Repr + {n};
      forall i | 0 <= i < |nodes| - 2
        ensures nodes[i].next == nodes[i + 1] && nodes[i + 1].prev == nodes[i]
      {
        assert nodes[i] == front[i] && nodes[i + 1] == front[i + 1];
      }
    }

    /**
     * `remove_first`: the first item, removed from the list and the
     * dictionary; a RuntimeError on an empty list, and a KeyError, with
     * nothing changed, when the dictionary no longer holds that item.
     */
    method RemoveFirst() returns (r: Result<T>)
      requires Valid()
      modifies this, Repr
      ensures Valid() && Repr == old(Repr)
      ensures old(items) == [] ==> r == Err(RuntimeError) && items == old(items) && index == old(index)
      ensures old(items) != [] && old(items)[0] !in old(index) ==>
        r == Err(KeyError) && items == old(items) && index == old(index)
      ensures old(items) != [] && old(items)[0] in old(index) ==>
        r == Ok(old(items)[0]) && items == old(items)[1..] && index == old(index) - {old(items)[0]}
      ensures old(Live()) ==> Live()
    {
      if len == 0 || head == null {
        return Err(RuntimeError);
      }
      var item := head.item;
      if item !in index {
        return Err(KeyError);
      }
      r := Ok(item);
      index := index - {item};
      UnlinkFirst();
      forall k | k in index
        ensures old(Live()) ==> index[k] in nodes
      {
        if old(Live()) {
          var j := Position(old(nodes), index[k]);
          assert j > 0 && nodes[j - 1] == index[k];
        }
      }
    }

    /** The pointer updates of `remove_first`: the head moves on one node. */
    method UnlinkFirst()
      requires Chain() && nodes != []
      modifies this, Repr
      ensures Chain() && Repr == old(Repr) && index == old(index)
      ensures nodes == old(nodes)[1..] && items == old(items)[1..]
    {
      assert |nodes| > 1 ==> nodes[0].next == nodes[1];
      head, len := head.next, len - 1;
      if len == 0 {
        tail := null;
      } else if head != null {
        head.prev := null;
      }
      nodes, items := nodes[1..], items[1..];
      forall i | 0 <= i < |nodes| - 1
        ensures nodes[i].next == nodes[i + 1] && nodes[i + 1].prev == nodes[i]
      {
        assert nodes[i] == old(nodes)[i + 1] && nodes[i + 1] == old(nodes)[i + 2];
      }
    }

    /** `remove_last` as written: the last item, removed from the list but left in the dictionary. */
    method RemoveLast() returns (r: Result<T>)
      requires Valid()
      modifies this, Repr
      ensures Valid() && Repr == old(Repr)
      ensures old(items) == [] ==> r == Err(RuntimeError) && items == old(items)
      ensures old(items) != [] ==> r == Ok(old(items)[|old(items)| - 1]) && items == old(items)[..|old(items)| - 1]
      ensures index == old(index)
    {
      if len == 0 || tail == null {
        return Err(RuntimeError);
      }
      r := Ok(tail.item);
      UnlinkLast();
    }

    /** `remove_last` that also takes the item out of the dictionary, as `remove_first` does. */
    method RemoveLastChecked() returns (r: Result<T>)
      requires Valid()
      modifies this, Repr
      ensures Valid() && Repr == old(Repr)
      ensures old(items) == [] ==> r == Err(RuntimeError) && items == old(items) && index == old(index)
      ensures old(items) != [] ==>
        r == Ok(old(items)[|old(items)| - 1]) && items == old(items)[..|old(items)| - 1] &&
        index == old(index) - {old(items)[|old(items)| - 1]}
      ensures old(Live()) ==> Live()
    {
      if len == 0 || tail == null {
        return Err(RuntimeError);
      }
      var item := tail.item;
      index := index - {item};
      r := Ok(item);
      UnlinkLast();
      forall k | k in index
        ensures old(Live()) ==> index[k] in nodes
      {
        if old(Live()) {
          var j := Position(old(nodes), index[k]);
          assert j < |nodes| && nodes[j] == index[k];
        }
      }
    }

    /** The pointer updates of `remove_last`: the tail moves back one node. */
    method UnlinkLast()
      requires Chain() && nodes != []
      modifies this, Repr
      ensures Chain() && Repr == old(Repr) && index == old(index)
      ensures nodes == old(nodes)[..|old(nodes)| - 1] && items == old(items)[..|old(items)| - 1]
    {
      ghost var last := |nodes| - 1;
      assert last > 0 ==> nodes[last].prev == nodes[last - 1];
      tail, len := tail.prev, len - 1;
      if len == 0 {
        head := null;
      } else if tail != null {
        tail.next := null;
      }
      nodes, items := nodes[..last], items[..last];
    }

    /** `__contains__`: whether the dictionary holds the item. */
    function Contains(item: T): (r: bool)
      reads this, Repr
      ensures r <==> item in index
      ensures Live() && r ==> item in items
    {
      if item in index then
        LiveItem(item);
        true
      else false
    }

    /** Under `Live`, an indexed item is in the list. */
    lemma LiveItem(item: T)
      requires item in index
      ensures Live() ==> item in items
    {
      if Live() {
        var i := Position(nodes, index[item]);
        assert items[i] == item;
      }
    }

    /**
     * `neighbors`: the items before and after the item's node, None at the
     * ends; a ValueError when the dictionary does not hold the item.
     */
    method Neighbors(item: T) returns (r: Result<(Option<T>, Option<T>)>)
      requires Valid()
      ensures item !in index ==> r == Err(ValueError)
      ensures item in index && Live() ==>
        var i := Position(nodes, index[item]);
        items[i] == item &&
        r == Ok((if i > 0 then Some(items[i - 1]) else None, if i + 1 < |items| then Some(items[i + 1]) else None))
    {
      if item !in index {
        return Err(ValueError);
      }
      var node := index[item];
      var before := if node.prev != null then Some(node.prev.item) else None;
      var after := if node.next != null then Some(node.next.item) else None;
      r := Ok((before, after));
    }

    /**
     * `remove_node`: the item's node is spliced out of the list and the
     * item out of the dictionary; a ValueError when the dictionary does not
     * hold the item.
     */
    method RemoveNode(item: T) returns (o: Outcome)
      requires Live()
      modifies this, Repr
      ensures Live() && Repr == old(Repr)
      ensures item !in old(index) ==> o == Raised(ValueError) && items == old(items) && index == old(index)
      ensures item in old(index) ==>
        var i := Position(old(nodes), old(index)[item]);
        o == Done && old(items)[i] == item && items == old(items)[..i] + old(items)[i + 1..] && index == old(index) - {item}
    {
      if item !in index {
        return Raised(ValueError);
      }
      var node := index[item];
      ghost var i := Position(nodes, node);
      index := index - {item};
      Unlink(node, i);
      o := Done;
      forall k | k in index
        ensures index[k] in nodes
      {
        var j := Position(old(nodes), index[k]);
        assert nodes[if j < i then j else j - 1] == index[k];
      }
    }

    /**
     * The pointer updates of `remove_node`. The source tests whether the
     * node has a predecessor (if not, the head moves on) and then whether it
     * has a successor (if not, the tail moves back); a node with neither is
     * the only node and both happen. The first two cases are exactly what
     * `UnlinkFirst` and `UnlinkLast` do, and a node with both neighbours is
     * bypassed in both directions by `UnlinkMiddle`.
     */
    method Unlink(node: Node<T>, ghost i: nat)
      requires Chain() && i < |nodes| && nodes[i] == node
      modifies this, Repr
      ensures Chain() && Repr == old(Repr) && index == old(index)
      ensures nodes == old(nodes)[..i] + old(nodes)[i + 1..] && items == old(items)[..i] + old(items)[i + 1..]
    {
      assert i > 0 ==> node.prev == nodes[i - 1];
      assert i < |nodes| - 1 ==> node.next == nodes[i + 1];
      if node.prev == null {
        assert i == 0 && node == head;
        UnlinkFirst();
        assert old(nodes)[..i] + old(nodes)[i + 1..] == old(nodes)[1..];
        assert old(items)[..i] + old(items)[i + 1..] == old(items)[1..];
      } else if node.next == null {
        assert i == |nodes| - 1 && node == tail;
        UnlinkLast();
        assert old(nodes)[..i] + old(nodes)[i + 1..] == old(nodes)[..i];
        assert old(items)[..i] + old(items)[i + 1..] == old(items)[..i];
      } else {
        UnlinkMiddle(node, i);
      }
    }

    /** A node with both neighbours: each is pointed past it at the other. */
    method UnlinkMiddle(node: Node<T>, ghost i: nat)
      requires Chain() && 0 < i < |nodes| - 1 && nodes[i] == node
      modifies this, Repr
      ensures Chain() && Repr == old(Repr) && index == old(index)
      ensures nodes == old(nodes)[..i] + old(nodes)[i + 1..] && items == old(items)[..i] + old(items)[i + 1..]
    {
      assert node.prev == nodes[i - 1] && node.next == nodes[i + 1];
      node.prev.next := node.next;
      node.next.prev := node.prev;
      Splice(nodes, i);
      Splice(items, i);
      SpliceDistinct(nodes, i);
      len, nodes, items := len - 1, nodes[..i] + nodes[i + 1..], items[..i] + items[i + 1..];
      forall j | 0 <= j < |nodes| - 1
        ensures nodes[j].next == nodes[j + 1] && nodes[j + 1].prev == nodes[j]
      {
        assert nodes[j] == old(nodes)[Skip(j, i)] && nodes[j + 1] == old(nodes)[Skip(j + 1, i)];
      }
    }
  }

  /** After `remove_last` on [1, 2], the list holds only 1 but `contains(2)` still answers true. */
  method StaleAfterRemoveLast() returns (l: DoublyLinkedList<int>, c: bool)
    ensures l.items == [1] && c
  {
    l := new DoublyLinkedList<int>();
    l.AddLast(1);
    l.AddLast(2);
    var r := l.RemoveLast();
    c := l.Contains(2);
  }

  /** With the corrected `remove_last`, `contains(2)` answers false. */
  method FreshAfterRemoveLast() returns (l: DoublyLinkedList<int>, c: bool)
    ensures l.items == [1] && !c && l.Live()
  {
    l := new DoublyLinkedList<int>();
    l.AddLast(1);
    l.AddLast(2);
    var r := l.RemoveLastChecked();
    c := l.Contains(2);
  }

  /** Adding at the front and removing from the front is last-in, first-out. */
  method FrontIsStack<T(==)>(x: T, y: T) returns (a: Result<T>, b: Result<T>)
    requires x != y
    ensures a == Ok(y) && b == Ok(x)
  {
    var l := new DoublyLinkedList<T>();
    l.AddFirst(x);
    l.AddFirst(y);
    a := l.RemoveFirst();
    b := l.RemoveFirst();
  }

  /** Adding at the back and removing from the front is first-in, first-out. */
  method BackIsQueue<T(==)>(x: T, y: T) returns (a: Result<T>, b: Result<T>)
    requires x != y
    ensures a == Ok(x) && b == Ok(y)
  {
    var l := new DoublyLinkedList<T>();
    l.AddLast(x);
    l.AddLast(y);
    a := l.RemoveFirst();
    b := l.RemoveFirst();
  }

  /**
   * The dictionary holds one node per item, so a repeated item is popped
   * from it once: removing the second copy from the front is a KeyError.
   */
  method RepeatedItem<T(==)>(x: T) returns (a: Result<T>, b: Result<T>)
    ensures a == Ok(x) && b == Err(KeyError)
  {
    var l := new DoublyLinkedList<T>();
    l.AddFirst(x);
    l.AddFirst(x);
    a := l.RemoveFirst();
    b := l.RemoveFirst();
  }
}
