/**
 * The weighted undirected graph of hw11/Graph.py: a vertex set and a map
 * from unordered edges (`frozenset({u, v})`, here the set `{u, v}`) to
 * non-negative integer weights; its heap priority queue; and the three
 * searches built on them: breadth-first paths, Dijkstra's shortest paths
 * and Prim's spanning tree. Iteration over a Python set has no order the
 * program relies on, so wherever the source loops over a set the model
 * picks the next element arbitrarily.
 */
module WeightedGraph {
  import opened Util
  import opened Heaps

  // ---------------------------------------------------------------------------
  // _PriorityQueue

  /** The heap priority queue of the graph algorithms. */
  class PriorityQueue<I(==)> {
    var tree: seq<Entry<I>>

    /** The constructor, which sifts down from the root downwards (see `Heaps.HeapifyAsWritten`). */
    constructor(entries: seq<Entry<I>>)
      ensures tree == HeapifyAsWritten(entries)
      ensures multiset(Items(tree)) == multiset(Items(entries))
    {
      tree := entries;
      new;
      var i := 0;
      while i < |tree| / 2
        invariant |tree| == |entries| && 0 <= i <= |tree| / 2
        invariant SiftDownUpward(tree, i, |entries| / 2) == HeapifyAsWritten(entries)
      {
        SiftDownAt(i);
        i := i + 1;
      }
      ItemsPermute(tree, entries);
    }

    /** A constructor that sifts down from the last parent back to the root, which always builds a heap. */
    constructor Heapified(entries: seq<Entry<I>>)
      ensures tree == Heapify(entries) && IsHeap(tree)
      ensures multiset(Items(tree)) == multiset(Items(entries))
    {
      tree := entries;
      new;
      SiftDownBelow(|tree| / 2);
      HeapifyIsHeap(entries);
      ItemsPermute(tree, entries);
    }

    /** Sift down from each index below `hi`, the last parent first. */
    method SiftDownBelow(hi: nat)
      modifies this
      ensures tree == SiftDownRange(old(tree), 0, hi)
    {
      var i: nat := hi;
      while i > 0
        invariant i <= hi
        invariant tree == SiftDownRange(old(tree), i, hi)
      {
        SiftDownAt(i - 1);
        i := i - 1;
      }
    }

    /** `_siftup` */
    method SiftUpAt(i: int)
      requires 0 <= i < |tree|
      modifies this
      ensures tree == SiftUp(old(tree), i)
    {
      var j := i;
      while j > 0
        invariant 0 <= j < |tree|
        invariant SiftUp(tree, j) == SiftUp(old(tree), i)
      {
        var parent := (j - 1) / 2;
        if EntryLess(tree[j], tree[parent]) {
          tree := Swap(tree, j, parent);
        }
        j := parent;
      }
    }

    /** `_siftdown` */
    method SiftDownAt(i: int)
      requires 0 <= i
      modifies this
      ensures tree == SiftDown(old(tree), i)
    {
      var j := i;
      while 2 * j + 1 < |tree|
        invariant 0 <= j
        invariant SiftDown(tree, j) == SiftDown(old(tree), i)
        decreases |tree| - j
      {
        var left, right := 2 * j + 1, 2 * j + 2;
        var child := if right < |tree| && EntryLess(tree[right], tree[left]) then right else left;
        assert child == SmallerChild(tree, j);
        if EntryLess(tree[child], tree[j]) {
          tree := Swap(tree, j, child);
        }
        j := child;
      }
    }

    function Len(): (n: nat)
      reads this
      ensures n == |Items(tree)|
    {
      |tree|
    }

    /** `__contains__`: whether some entry holds `x`. */
    predicate Contains(x: I)
      reads this
      ensures Contains(x) <==> x in Items(tree)
    {
      exists k :: 0 <= k < |tree| && tree[k].item == x
    }

    /** `front`: the item at the root; IndexError when empty. */
    function Front(): (r: Result<I>)
      reads this
      ensures |tree| == 0 <==> r == Err(IndexError)
      ensures r.Ok? ==> Contains(r.value)
      ensures r.Ok? && IsHeap(tree) ==> forall k :: 0 <= k < |tree| ==> Precedes(tree[0], tree[k])
    {
      if |tree| == 0 then Err(IndexError)
      else
        assert IsHeap(tree) ==> forall k :: 0 <= k < |tree| ==> Precedes(tree[0], tree[k]) by {
          if IsHeap(tree) {
            forall k | 0 <= k < |tree|
              ensures Precedes(tree[0], tree[k])
            {
              HeapRootLeast(tree, k);
            }
          }
        }
        assert Items(tree)[0] == tree[0].item;
        Ok(tree[0].item)
    }

    /** `pop`: remove and return the root's item; IndexError when empty. */
    method Pop() returns (r: Result<I>)
      modifies this
      ensures r == old(Front())
      ensures r.Err? ==> tree == old(tree)
      ensures r.Ok? ==> tree == Popped(old(tree))
      ensures r.Ok? ==> multiset(Items(tree)) + multiset{r.value} == old(multiset(Items(tree)))
      ensures old(IsHeap(tree)) ==> IsHeap(tree)
    {
      if |tree| == 0 {
        return Err(IndexError);
      }
      ghost var t := tree;
      var result := tree[0];
      tree := tree[0 := tree[|tree| - 1]];
      tree := tree[..|tree| - 1];
      SiftDownAt(0);
      r := Ok(result.item);
      PoppedItems(t);
      if IsHeap(t) {
        PopKeepsHeap(t);
      }
    }

    /** `push`: append and sift up. */
    method Push(item: I, priority: Priority)
      modifies this
      ensures tree == Pushed(old(tree), Entry(item, priority))
      ensures multiset(Items(tree)) == old(multiset(Items(tree))) + multiset{item}
      ensures old(IsHeap(tree)) ==> IsHeap(tree)
    {
      ghost var t := tree;
      tree := tree + [Entry(item, priority)];
      SiftUpAt(|tree| - 1);
      ItemsPermute(tree, t + [Entry(item, priority)]);
      assert Items(t + [Entry(item, priority)]) == Items(t) + [item];
      if IsHeap(t) {
        PushKeepsHeap(t, Entry(item, priority));
      }
    }

    /**
     * `update`: give the first entry holding `item` the new priority, then
     * sift up and down from its index; ValueError when no entry holds it.
     */
    method Update(item: I, priority: Priority) returns (r: Outcome)
      modifies this
      ensures r == if old(Contains(item)) then Done else Raised(ValueError)
      ensures r.Raised? ==> tree == old(tree)
      ensures r.Done? ==> var k := FirstIndex(old(tree), item);
        tree == Updated(old(tree), k, Entry(item, priority))
      ensures multiset(Items(tree)) == old(multiset(Items(tree)))
      ensures old(IsHeap(tree)) ==> IsHeap(tree)
    {
      var i := 0;
      while i < |tree|
        invariant 0 <= i <= |tree|
        invariant forall k :: 0 <= k < i ==> tree[k].item != item
      {
        if tree[i].item == item {
          ghost var t := tree;
          FirstIndexIs(t, item, i);
          tree := tree[i := Entry(item, priority)];
          SiftUpAt(i);
          SiftDownAt(i);
          ItemsPermute(tree, t[i := Entry(item, priority)]);
          ItemsReplaced(t, i, Entry(item, priority));
          if IsHeap(t) {
            UpdateKeepsHeap(t, i, Entry(item, priority));
          }
          return Done;
        }
        i := i + 1;
      }
      return Raised(ValueError);
    }
  }

  // The searches see the queue only through the items it holds; these
  // wrappers keep the sift details of `push`, `pop` and `update` out of
  // their proofs.

  method PushItem<I(==)>(q: PriorityQueue<I>, item: I, priority: Priority)
    modifies q
    ensures multiset(Items(q.tree)) == old(multiset(Items(q.tree))) + multiset{item}
  {
    q.Push(item, priority);
  }

  method PopItem<I(==)>(q: PriorityQueue<I>) returns (item: I)
    requires |q.tree| > 0
    modifies q
    ensures multiset(Items(q.tree)) + multiset{item} == old(multiset(Items(q.tree)))
  {
    var r := q.Pop();
    item := r.value;
  }

  method UpdateItem<I(==)>(q: PriorityQueue<I>, item: I, priority: Priority) returns (r: Outcome)
    modifies q
    ensures r == if item in old(multiset(Items(q.tree))) then Done else Raised(ValueError)
    ensures multiset(Items(q.tree)) == old(multiset(Items(q.tree)))
  {
    r := q.Update(item, priority);
  }

  /** `pop` takes one occurrence of the root's item out of the queue. */
  lemma PoppedItems<I>(t: seq<Entry<I>>)
    requires |t| > 0
    ensures multiset(Items(t)) == multiset(Items(Popped(t))) + multiset{t[0].item}
  {
    var u := Popped(t);
    ItemsPermute(u, RemoveAt(t, 0));
    assert Items(t)[0] == t[0].item;
  }

  /** The index of the first entry holding `x`. */
  function FirstIndex<I(==)>(t: seq<Entry<I>>, x: I): (k: int)
    requires exists k :: 0 <= k < |t| && t[k].item == x
    ensures 0 <= k < |t| && t[k].item == x
    ensures forall j :: 0 <= j < k ==> t[j].item != x
  {
    if t[0].item == x then 0
    else
      assert exists k :: 0 <= k < |t[1..]| && t[1..][k].item == x by {
        var k :| 0 <= k < |t| && t[k].item == x;
        assert t[1..][k - 1].item == x;
      }
      1 + FirstIndex(t[1..], x)
  }

  lemma FirstIndexIs<I>(t: seq<Entry<I>>, x: I, i: int)
    requires 0 <= i < |t| && t[i].item == x
    requires forall k :: 0 <= k < i ==> t[k].item != x
    ensures FirstIndex(t, x) == i
  {
    var k := FirstIndex(t, x);
    assert !(k < i) && !(i < k);
  }

  /** Replacing an entry by one with the same item keeps the items. */
  lemma ItemsReplaced<I>(t: seq<Entry<I>>, i: int, e: Entry<I>)
    requires 0 <= i < |t| && e.item == t[i].item
    ensures Items(t[i := e]) == Items(t)
  {
  }


  // ---------------------------------------------------------------------------
  // Walks, trees and distances

  /** Edges are keyed by the unordered pair of their endpoints. */
  type Edges<V> = map<set<V>, int>

  /** A key built from two endpoints holds at most two vertices. */
  ghost predicate AtMostTwo<V>(e: set<V>)
  {
    forall x, y, z :: x in e && y in e && z in e ==> x == y || y == z || x == z
  }

  /** A walk: consecutive vertices joined by edges, every vertex in `vs`. */
  ghost predicate IsWalk<V>(vs: set<V>, edges: Edges<V>, w: seq<V>)
  {
    && |w| >= 1
    && (forall i :: 0 <= i < |w| ==> w[i] in vs)
    && (forall i :: 0 <= i < |w| - 1 ==> {w[i], w[i + 1]} in edges)
  }

  /** The total weight of the edges of a walk. */
  ghost function WalkWeight<V>(edges: Edges<V>, w: seq<V>): int
    requires forall i :: 0 <= i < |w| - 1 ==> {w[i], w[i + 1]} in edges
  {
    if |w| <= 1 then 0
    else WalkWeight(edges, w[..|w| - 1]) + edges[{w[|w| - 2], w[|w| - 1]}]
  }

  /**
   * `parent` links every vertex reached other than `start` to one reached
   * before it (`rank` orders them) along an edge; `rank` holds exactly the
   * vertices reached.
   */
  ghost predicate RootedTree<V>(vs: set<V>, edges: Edges<V>, start: V, parent: map<V, V>, rank: map<V, nat>)
  {
    && start in rank && start !in parent
    && rank.Keys == parent.Keys + {start}
    && rank.Keys <= vs
    && forall v :: v in parent ==> parent[v] in rank && {parent[v], v} in edges && rank[parent[v]] < rank[v]
  }

  /** Every vertex joined to a vertex of `s` is in `s`. */
  ghost predicate Closed<V>(vs: set<V>, edges: Edges<V>, s: set<V>)
  {
    forall x, y :: x in s && y in vs && {x, y} in edges ==> y in s
  }

  /** Edge counts that grow by at most one along every edge. */
  ghost predicate Layered<V>(vs: set<V>, edges: Edges<V>, num: map<V, nat>)
  {
    forall x, y :: x in num && y in vs && {x, y} in edges ==> y in num && num[y] <= num[x] + 1
  }

  /** No edge can shorten a distance: the fixed point of Dijkstra's relaxation. */
  ghost predicate Relaxed<V>(edges: Edges<V>, dist: map<V, Priority>)
  {
    forall x, y :: x in dist && y in dist && {x, y} in edges ==> !Below(Add(dist[x], edges[{x, y}]), dist[y])
  }

  /**
   * Every finite distance other than `start`'s is accounted for exactly by
   * a tree link: the parent's distance plus the weight of the edge.
   */
  ghost predicate Tight<V>(edges: Edges<V>, start: V, parent: map<V, V>, dist: map<V, Priority>)
  {
    && (forall u :: u in dist && dist[u].Finite? ==> u == start || u in parent)
    && forall u :: u in parent ==>
         && u in dist && parent[u] in dist && {parent[u], u} in edges
         && dist[u].Finite? && dist[u] == Add(dist[parent[u]], edges[{parent[u], u}])
  }

  /** Links that always lead to a vertex of smaller rank, so following them ends. */
  ghost predicate Ranked<V>(parent: map<V, V>, rank: map<V, nat>)
  {
    forall u :: u in parent ==> u in rank && parent[u] in rank && rank[parent[u]] < rank[u]
  }

  /** Each vertex of a rooted tree is reached from the root by a walk of at most `rank` edges. */
  lemma {:induction false} TreeWalk<V>(vs: set<V>, edges: Edges<V>, start: V, parent: map<V, V>, rank: map<V, nat>, v: V)
    returns (w: seq<V>)
    requires RootedTree(vs, edges, start, parent, rank) && v in rank
    ensures IsWalk(vs, edges, w) && w[0] == start && w[|w| - 1] == v
    ensures |w| - 1 <= rank[v]
    ensures rank[start] == 0 && (forall x :: x in parent ==> rank[x] == rank[parent[x]] + 1) ==> |w| - 1 == rank[v]
    decreases rank[v]
  {
    if v == start {
      w := [start];
    } else {
      var w' := TreeWalk(vs, edges, start, parent, rank, parent[v]);
      w := w' + [v];
    }
  }

  /** A set of vertices closed under edges holds every walk that starts in it. */
  lemma {:induction false} ClosedHoldsWalks<V>(vs: set<V>, edges: Edges<V>, s: set<V>, w: seq<V>)
    requires IsWalk(vs, edges, w) && w[0] in s && Closed(vs, edges, s)
    ensures w[|w| - 1] in s
    decreases |w|
  {
    if |w| > 1 {
      ClosedHoldsWalks(vs, edges, s, w[..|w| - 1]);
    }
  }

  /** Layered edge counts bound the length of every walk from `start`. */
  lemma {:induction false} LayeredBound<V>(vs: set<V>, edges: Edges<V>, num: map<V, nat>, start: V, w: seq<V>)
    requires Layered(vs, edges, num) && start in num && num[start] == 0
    requires IsWalk(vs, edges, w) && w[0] == start
    ensures w[|w| - 1] in num && num[w[|w| - 1]] <= |w| - 1
    decreases |w|
  {
    if |w| > 1 {
      LayeredBound(vs, edges, num, start, w[..|w| - 1]);
    }
  }

  /** Relaxed distances bound the weight of every walk from `start`. */
  lemma {:induction false} RelaxedBound<V>(vs: set<V>, edges: Edges<V>, dist: map<V, Priority>, start: V, w: seq<V>)
    requires Relaxed(edges, dist) && dist.Keys == vs && start in vs && dist[start] == Finite(0)
    requires IsWalk(vs, edges, w) && w[0] == start
    ensures dist[w[|w| - 1]].Finite? && dist[w[|w| - 1]].value <= WalkWeight(edges, w)
    decreases |w|
  {
    if |w| > 1 {
      var w' := w[..|w| - 1];
      RelaxedBound(vs, edges, dist, start, w');
      assert w'[|w'| - 1] == w[|w| - 2];
    }
  }

  /** Tight distances are the weights of the walks along the tree links. */
  lemma {:induction false} TightWalk<V>(vs: set<V>, edges: Edges<V>, start: V, parent: map<V, V>, dist: map<V, Priority>, rank: map<V, nat>, u: V)
    returns (w: seq<V>)
    requires Tight(edges, start, parent, dist) && Ranked(parent, rank)
    requires dist.Keys == vs && start in vs && dist[start] == Finite(0)
    requires u in dist && dist[u].Finite?
    ensures IsWalk(vs, edges, w) && w[0] == start && w[|w| - 1] == u
    ensures WalkWeight(edges, w) == dist[u].value
    decreases if u in rank then rank[u] else 0
  {
    if u == start {
      w := [start];
    } else {
      var p := parent[u];
      assert {p, u} in edges && dist[p].Finite? && dist[u].value == dist[p].value + edges[{p, u}];
      var w' := TightWalk(vs, edges, start, parent, dist, rank, p);
      w := WalkExtend(vs, edges, w', u);
    }
  }

  /** A walk followed by an edge from its last vertex is a walk one edge heavier. */
  lemma WalkExtend<V>(vs: set<V>, edges: Edges<V>, w: seq<V>, u: V) returns (w': seq<V>)
    requires IsWalk(vs, edges, w) && u in vs && {w[|w| - 1], u} in edges
    ensures w' == w + [u] && IsWalk(vs, edges, w')
    ensures WalkWeight(edges, w') == WalkWeight(edges, w) + edges[{w[|w| - 1], u}]
  {
    w' := w + [u];
    assert w'[..|w'| - 1] == w;
  }

  /** The vertices of `vs` joined to `v` by an edge: what `neighbors(v)` enumerates. */
  function NeighborSet<V>(vs: set<V>, edges: Edges<V>, v: V): (r: set<V>)
    ensures forall u :: u in r ==> u in vs && {v, u} in edges
    ensures forall u :: u in vs && {v, u} in edges ==> u in r
  {
    set u | u in vs && {v, u} in edges
  }

  /** Adding a weight to a distance; infinity absorbs it. */
  function Add(d: Priority, w: int): (r: Priority)
    ensures r.Infinity? <==> d.Infinity?
    ensures r.Finite? ==> r.value == d.value + w
  {
    match d
    case Infinity => Infinity
    case Finite(x) => Finite(x + w)
  }

  predicate NonNegative(d: Priority)
  {
    d.Infinity? || d.value >= 0
  }

  /** The elements of a set in an arbitrary order, each once. */
  method Enumerate<V>(s: set<V>) returns (q: seq<V>)
    ensures multiset(q) == multiset(s)
    ensures forall k :: 0 <= k < |q| ==> q[k] in s
  {
    q := [];
    var rest := s;
    while rest != {}
      invariant rest <= s
      invariant multiset(q) + multiset(rest) == multiset(s)
      invariant forall k :: 0 <= k < |q| ==> q[k] in s
      decreases rest
    {
      var x :| x in rest;
      assert multiset(rest) == multiset(rest - {x}) + multiset{x};
      q := q + [x];
      rest := rest - {x};
    }
  }

  // ---------------------------------------------------------------------------
  // Graph

  class Graph<V(==)> {
    var vertices: set<V>
    var edges: Edges<V>

    /** The class invariant: every edge joins vertices of the graph, and weights are non-negative. */
    ghost predicate Valid()
      reads this
    {
      forall e :: e in edges ==> e <= vertices && edges[e] >= 0 && AtMostTwo(e)
    }

    predicate WeightsNonNegative()
      reads this
    {
      forall e :: e in edges ==> edges[e] >= 0
    }

    /** `__init__`, for the vertices; the edges are added by `AddEdges`. */
    constructor(vs: seq<V>)
      ensures vertices == set v | v in vs
      ensures edges == map[]
      ensures Valid()
    {
      vertices := set v | v in vs;
      edges := map[];
    }

    /** `__contains__` for a vertex: in a valid graph, every endpoint of an edge is one. */
    predicate HasVertex(v: V)
      reads this
      ensures Valid() && (exists e :: e in edges && v in e) ==> HasVertex(v)
    {
      v in vertices
    }

    /** `__contains__` for an edge, in either orientation. */
    predicate HasEdge(u: V, v: V)
      reads this
      ensures HasEdge(u, v) <==> {v, u} in edges
    {
      assert {u, v} == {v, u};
      {u, v} in edges
    }

    function Len(): (n: nat)
      reads this
      ensures n == |vertices|
    {
      |vertices|
    }

    method AddVertex(v: V)
      modifies this
      ensures vertices == old(vertices) + {v} && edges == old(edges)
      ensures old(Valid()) ==> Valid()
    {
      vertices := vertices + {v};
    }

    /** `add_edge`: ValueError unless both endpoints are vertices and the weight is non-negative. */
    method AddEdge(u: V, v: V, weight: int) returns (r: Outcome)
      modifies this
      ensures r == if u in old(vertices) && v in old(vertices) && weight >= 0 then Done else Raised(ValueError)
      ensures vertices == old(vertices)
      ensures r.Raised? ==> edges == old(edges)
      ensures r.Done? ==> edges == old(edges)[{u, v} := weight]
      ensures r.Done? ==> Weight(u, v) == Weight(v, u) == Ok(weight)
      ensures old(Valid()) ==> Valid()
    {
      if u !in vertices {
        return Raised(ValueError);
      }
      if v !in vertices {
        return Raised(ValueError);
      }
      if weight < 0 {
        return Raised(ValueError);
      }
      edges := edges[{u, v} := weight];
      r := Done;
    }

    /** The edges given to `__init__`, added in turn; the first failure is raised. */
    method AddEdges(es: seq<((V, V), int)>) returns (r: Outcome)
      modifies this
      ensures vertices == old(vertices)
      ensures r.Done? <==> forall k :: 0 <= k < |es| ==> es[k].0.0 in vertices && es[k].0.1 in vertices && es[k].1 >= 0
      ensures r.Raised? ==> r.error == ValueError
      ensures r.Done? ==> edges == WithEdges(old(edges), es)
      ensures old(Valid()) ==> Valid()
    {
      var i := 0;
      while i < |es|
        invariant 0 <= i <= |es| && vertices == old(vertices)
        invariant forall k :: 0 <= k < i ==> es[k].0.0 in vertices && es[k].0.1 in vertices && es[k].1 >= 0
        invariant edges == WithEdges(old(edges), es[..i])
        invariant old(Valid()) ==> Valid()
      {
        var o := AddEdge(es[i].0.0, es[i].0.1, es[i].1);
        if o.Raised? {
          return o;
        }
        assert es[..i + 1][..i] == es[..i];
        i := i + 1;
      }
      assert es[..i] == es;
      r := Done;
    }

    /**
     * `remove_vertex` as written: KeyError when `v` is absent; otherwise
     * `v` leaves the vertex set first, and then the edge to `v` from each
     * remaining vertex is deleted.
     */
    method RemoveVertex(v: V) returns (r: Outcome)
      modifies this
      ensures r == if v in old(vertices) then Done else Raised(KeyError)
      ensures r.Raised? ==> vertices == old(vertices) && edges == old(edges)
      ensures r.Done? ==> vertices == old(vertices) - {v}
      ensures r.Done? ==> edges == RemainingEdges(old(edges), vertices, v)
    {
      if v !in vertices {
        return Raised(KeyError);
      }
      vertices := vertices - {v};
      var rest := vertices;
      while rest != {}
        invariant rest <= vertices && vertices == old(vertices) - {v}
        invariant edges == RemainingEdges(old(edges), vertices - rest, v)
        decreases rest
      {
        var u :| u in rest;
        if {u, v} in edges {
          edges := edges - {{u, v}};
        }
        rest := rest - {u};
      }
      r := Done;
    }

    /** `remove_vertex` with the self-loop at `v` deleted as well, which keeps the class invariant. */
    method RemoveVertexCorrected(v: V) returns (r: Outcome)
      modifies this
      ensures r == if v in old(vertices) then Done else Raised(KeyError)
      ensures r.Raised? ==> vertices == old(vertices) && edges == old(edges)
      ensures r.Done? ==> vertices == old(vertices) - {v}
      ensures r.Done? ==> edges == RemainingEdges(old(edges), vertices, v) - {{v}}
      ensures r.Done? && old(Valid()) ==> forall e :: e in old(edges) ==> (e in edges <==> v !in e)
      ensures old(Valid()) ==> Valid()
    {
      r := RemoveVertex(v);
      if r.Done? {
        edges := edges - {{v}};
        if old(Valid()) {
          forall e | e in old(edges) && v in e
            ensures e !in edges
          {
            OnlySelfLoopRemains(old(vertices), e, v);
          }
        }
      }
    }

    /** `remove_edge`: KeyError (from `del`) when the edge is absent. */
    method RemoveEdge(u: V, v: V) returns (r: Outcome)
      modifies this
      ensures r == if {u, v} in old(edges) then Done else Raised(KeyError)
      ensures vertices == old(vertices)
      ensures edges == old(edges) - {{u, v}}
      ensures !HasEdge(u, v) && !HasEdge(v, u)
      ensures old(Valid()) ==> Valid()
    {
      if {u, v} !in edges {
        return Raised(KeyError);
      }
      edges := edges - {{u, v}};
      r := Done;
    }

    /** `weight`: ValueError when the edge is absent. */
    function Weight(u: V, v: V): (r: Result<int>)
      reads this
      ensures r.Ok? <==> HasEdge(u, v) && HasEdge(v, u)
      ensures r.Ok? ==> r.value == edges[{u, v}] == edges[{v, u}]
      ensures r.Err? ==> r.error == ValueError
    {
      assert {u, v} == {v, u};
      if {u, v} !in edges then Err(ValueError) else Ok(edges[{u, v}])
    }

    /** `neighbors`: ValueError for a missing vertex; otherwise the vertices joined to `v`, with the weights. */
    function Neighbors(v: V): (r: Result<map<V, int>>)
      reads this
      ensures r.Err? <==> v !in vertices
      ensures r.Ok? ==> forall u :: u in r.value ==> u in vertices && HasEdge(u, v)
      ensures r.Ok? ==> forall u :: u in vertices && HasEdge(u, v) ==> u in r.value
      ensures r.Ok? ==> forall u :: u in r.value ==> Weight(u, v) == Ok(r.value[u])
    {
      if v !in vertices then Err(ValueError)
      else Ok(map u | u in vertices && {u, v} in edges :: edges[{u, v}])
    }

    /** Adjacency is symmetric between vertices, with the same weight both ways. */
    lemma NeighborsSymmetric(u: V, v: V)
      requires u in vertices && v in vertices
      ensures u in Neighbors(v).value <==> v in Neighbors(u).value
      ensures u in Neighbors(v).value ==> Neighbors(v).value[u] == Neighbors(u).value[v]
    {
      assert {u, v} == {v, u};
    }

    /**
     * `paths_with_fewest_edges`: breadth-first search from `start`.
     * ValueError when `start` is not a vertex. Otherwise `prev` and the
     * edge counts form a tree rooted at `start` in which every link adds
     * one edge, and the counts grow by at most one along any edge; so the
     * reached vertices are exactly those reachable from `start`, and each
     * count is the fewest edges of any walk to it (`TreeWalk`, `LayeredBound`).
     */
    method FewestEdges(start: V) returns (r: Result<(map<V, V>, map<V, nat>)>)
      ensures start !in vertices <==> r == Err(ValueError)
      ensures r.Ok? ==> RootedTree(vertices, edges, start, r.value.0, r.value.1)
      ensures r.Ok? ==> r.value.1[start] == 0
      ensures r.Ok? ==> forall v :: v in r.value.0 ==> r.value.1[v] == r.value.1[r.value.0[v]] + 1
      ensures r.Ok? ==> Layered(vertices, edges, r.value.1)
    {
      if start !in vertices {
        return Err(ValueError);
      }
      var prev: map<V, V> := map[start := start];
      var numEdges: map<V, nat> := map[start := 0];
      var queue := [start];
      while queue != []
        invariant BfsState(vertices, edges, start, prev, numEdges, queue)
        decreases vertices - numEdges.Keys, |queue|
      {
        var u := queue[0];
        var rest := queue[1..];
        var prev', num', queue' := Discover(u, prev, numEdges, rest);
        BreadthFirstStep(vertices, edges, start, prev, numEdges, queue, prev', num', queue');
        if |queue'| > |rest| {
          assert queue'[|rest|] in num'.Keys - numEdges.Keys;
        }
        prev, numEdges, queue := prev', num', queue';
      }
      prev := prev - {start};
      r := Ok((prev, numEdges));
    }

    /**
     * The inner loop of `paths_with_fewest_edges`: each neighbour of `u` not
     * yet reached gets `u` as its predecessor and one edge more than `u`,
     * and joins the end of the queue.
     */
    method Discover(u: V, prev: map<V, V>, num: map<V, nat>, queue: seq<V>)
      returns (prev': map<V, V>, num': map<V, nat>, queue': seq<V>)
      requires u in num && prev.Keys == num.Keys
      ensures Discovered(vertices, edges, u, prev, num, queue, prev', num', queue')
    {
      prev', num', queue' := prev, num, queue;
      var todo := NeighborSet(vertices, edges, u);
      while todo != {}
        invariant todo <= NeighborSet(vertices, edges, u)
        invariant prev'.Keys == num'.Keys == num.Keys + (NeighborSet(vertices, edges, u) - todo)
        invariant forall x :: x in num ==> num'[x] == num[x] && prev'[x] == prev[x]
        invariant forall x :: x in num' && x !in num ==> prev'[x] == u && num'[x] == num[u] + 1
        invariant |queue| <= |queue'| && queue'[..|queue|] == queue
        invariant forall i :: |queue| <= i < |queue'| ==> queue'[i] in num' && queue'[i] !in num
        invariant forall i, j :: |queue| <= i < j < |queue'| ==> queue'[i] != queue'[j]
        invariant forall x :: x in num' && x !in num ==> x in queue'[|queue|..]
        decreases todo
      {
        var v :| v in todo;
        if v !in prev' {
          prev' := prev'[v := u];
          num' := num'[v := num'[u] + 1];
          ghost var q := queue';
          queue' := queue' + [v];
          assert queue'[|queue|..] == q[|queue|..] + [v];
        }
        todo := todo - {v};
      }
    }

    /**
     * `shortest_paths`: Dijkstra's algorithm. ValueError when `start` is
     * not a vertex, or when a shorter path turns up to a vertex already
     * taken off the queue (`update` then raises). When it returns, every
     * vertex has a distance, `start`'s is 0, no edge can shorten any
     * distance, and every finite distance other than `start`'s is its
     * tree parent's plus the weight of the edge between them; so each
     * distance is the least weight of a walk from `start`
     * (`RelaxedBound`, `TightWalk`).
     */
    method ShortestPaths(start: V) returns (r: Result<(map<V, V>, map<V, Priority>)>)
      requires WeightsNonNegative()
      ensures start !in vertices ==> r == Err(ValueError)
      ensures r.Err? ==> r.error == ValueError
      ensures r.Ok? ==> r.value.1.Keys == vertices && r.value.1[start] == Finite(0) && start !in r.value.0
      ensures r.Ok? ==> Relaxed(edges, r.value.1) && Tight(edges, start, r.value.0, r.value.1)
      ensures r.Ok? ==> exists rank :: Ranked(r.value.0, rank)
    {
      if start !in vertices {
        return Err(ValueError);
      }
      var ok, tree, distances, rank := Settle(start);
      if !ok {
        return Err(ValueError);
      }
      assert Ranked(tree, rank);
      r := Ok((tree, distances));
    }

    /**
     * The queue and loop of `shortest_paths`: every vertex starts at
     * distance infinity except `start` at 0, all are queued, and the
     * vertex at the front is taken off the queue and its edges relaxed
     * until the queue is empty. `ok` is false when `update` raised.
     */
    method Settle(start: V) returns (ok: bool, tree: map<V, V>, distances: map<V, Priority>, ghost rank: map<V, nat>)
      requires start in vertices && WeightsNonNegative()
      ensures ok ==> distances.Keys == vertices && distances[start] == Finite(0) && start !in tree
      ensures ok ==> Relaxed(edges, distances) && Tight(edges, start, tree, distances) && Ranked(tree, rank)
    {
      tree := map[];
      distances := map v | v in vertices :: Infinity;
      distances := distances[start := Finite(0)];
      var toVisit := QueueVertices(distances);
      DijkstraStart(vertices, edges, start, distances, multiset(Items(toVisit.tree)));
      ghost var visited: set<V> := {};
      ghost var count: nat := 0;
      rank := map[];
      ok := true;
      while toVisit.Len() > 0
        invariant DijkstraState(vertices, edges, start, tree, distances, visited, rank, count, multiset(Items(toVisit.tree)))
        invariant RelaxedFrom(edges, distances, visited, distances.Keys)
        decreases vertices - visited
      {
        ok, tree, distances, visited, rank, count := SettleFront(start, toVisit, tree, distances, visited, rank, count);
        if !ok {
          return;
        }
      }
      DijkstraDone(vertices, edges, start, tree, distances, visited, rank, count);
    }

    /**
     * One pass of that inner loop, for the neighbour `u`: when the path by
     * way of `v` is shorter, `u` gets that distance, `v` as its parent and
     * its priority updated; `ok` is false when `update` raised.
     */
    method RelaxEdge(start: V, toVisit: PriorityQueue<V>, v: V, u: V, tree: map<V, V>, distances: map<V, Priority>,
                     ghost visited: set<V>, ghost rank: map<V, nat>, ghost count: nat, ghost done: set<V>)
      returns (ok: bool, tree': map<V, V>, distances': map<V, Priority>)
      requires WeightsNonNegative() && v in visited && u in NeighborSet(vertices, edges, v)
      requires DijkstraState(vertices, edges, start, tree, distances, visited, rank, count, multiset(Items(toVisit.tree)))
      requires RelaxedFrom(edges, distances, visited - {v}, distances.Keys) && RelaxedFrom(edges, distances, {v}, done)
      modifies toVisit
      ensures ok ==> DijkstraState(vertices, edges, start, tree', distances', visited, rank, count, multiset(Items(toVisit.tree)))
      ensures ok ==> RelaxedFrom(edges, distances', visited - {v}, distances'.Keys)
      ensures ok ==> RelaxedFrom(edges, distances', {v}, done + {u})
    {
      var weight := edges[{v, u}];
      if Below(Add(distances[v], weight), distances[u]) {
        var o := UpdateItem(toVisit, u, Add(distances[v], weight));
        if o.Raised? {
          return false, tree, distances;
        }
        RelaxStep(vertices, edges, start, tree, distances, visited, rank, count, multiset(Items(toVisit.tree)), v, done, u);
        return true, tree[u := v], distances[u := Add(distances[v], weight)];
      }
      return true, tree, distances;
    }

    /**
     * The queue of `shortest_paths`: every vertex, with its distance as
     * priority, built bottom-up so that it is a heap (the code's top-down
     * build is not, see `DijkstraQueueAsWritten`).
     */
    method QueueVertices(distances: map<V, Priority>) returns (q: PriorityQueue<V>)
      requires vertices <= distances.Keys
      ensures fresh(q) && multiset(Items(q.tree)) == multiset(vertices) && IsHeap(q.tree)
    {
      var order := Enumerate(vertices);
      var entries := seq(|order|, k requires 0 <= k < |order| => Entry(order[k], distances[order[k]]));
      assert Items(entries) == order;
      q := new PriorityQueue.Heapified(entries);
    }

    /**
     * One round of `shortest_paths`' loop: take the vertex at the front of
     * the queue off it and relax every edge at it. The proof does not rely
     * on that vertex being the nearest one.
     */
    method SettleFront(start: V, toVisit: PriorityQueue<V>, tree: map<V, V>, distances: map<V, Priority>,
                         ghost visited: set<V>, ghost rank: map<V, nat>, ghost count: nat)
      returns (ok: bool, tree': map<V, V>, distances': map<V, Priority>,
               ghost visited': set<V>, ghost rank': map<V, nat>, ghost count': nat)
      requires WeightsNonNegative() && |toVisit.tree| > 0
      requires DijkstraState(vertices, edges, start, tree, distances, visited, rank, count, multiset(Items(toVisit.tree)))
      requires RelaxedFrom(edges, distances, visited, distances.Keys)
      modifies toVisit
      ensures ok ==> DijkstraState(vertices, edges, start, tree', distances', visited', rank', count', multiset(Items(toVisit.tree)))
      ensures ok ==> RelaxedFrom(edges, distances', visited', distances'.Keys)
      ensures ok ==> visited < visited' <= vertices
    {
      ghost var queued := multiset(Items(toVisit.tree));
      var v := PopItem(toVisit);
      DijkstraPop(vertices, edges, start, tree, distances, visited, rank, count, queued, v, multiset(Items(toVisit.tree)));
      visited', rank', count' := visited + {v}, rank[v := count], count + 1;
      assert visited' - {v} == visited;
      ok, tree', distances' := RelaxNeighbors(start, toVisit, v, tree, distances, visited', rank', count');
    }

    /**
     * The inner loop of `shortest_paths` over `neighbors(v)`: a neighbour
     * whose distance would shrink by way of `v` gets the smaller distance,
     * `v` as its parent and its priority updated. `ok` is false when
     * `update` raised because that neighbour was no longer queued.
     */
    method RelaxNeighbors(start: V, toVisit: PriorityQueue<V>, v: V, tree: map<V, V>, distances: map<V, Priority>,
                          ghost visited: set<V>, ghost rank: map<V, nat>, ghost count: nat)
      returns (ok: bool, tree': map<V, V>, distances': map<V, Priority>)
      requires WeightsNonNegative() && v in visited
      requires DijkstraState(vertices, edges, start, tree, distances, visited, rank, count, multiset(Items(toVisit.tree)))
      requires RelaxedFrom(edges, distances, visited - {v}, distances.Keys)
      modifies toVisit
      ensures ok ==> DijkstraState(vertices, edges, start, tree', distances', visited, rank, count, multiset(Items(toVisit.tree)))
      ensures ok ==> RelaxedFrom(edges, distances', visited, distances'.Keys)
    {
      tree', distances' := tree, distances;
      var todo := NeighborSet(vertices, edges, v);
      ghost var done: set<V> := {};
      while todo != {}
        invariant todo <= NeighborSet(vertices, edges, v)
        invariant forall n :: n in NeighborSet(vertices, edges, v) ==> n in todo || n in done
        invariant DijkstraState(vertices, edges, start, tree', distances', visited, rank, count, multiset(Items(toVisit.tree)))
        invariant RelaxedFrom(edges, distances', visited - {v}, distances'.Keys)
        invariant RelaxedFrom(edges, distances', {v}, done)
        decreases todo
      {
        var u :| u in todo;
        ok, tree', distances' := RelaxEdge(start, toVisit, v, u, tree', distances', visited, rank, count, done);
        if !ok {
          return;
        }
        done := done + {u};
        todo := todo - {u};
      }
      RelaxedAll(vertices, edges, distances', visited, v, done);
      ok := true;
    }

    /**
     * `minimum_spanning_tree`: Prim's algorithm from `start`. ValueError
     * when `start` is not a vertex. Otherwise `tree` links every vertex
     * reached other than `start` to one reached before it along an edge,
     * the reached vertices are closed under edges (so they are exactly
     * those reachable from `start`), and each vertex's weight is that of
     * the edge to its parent.
     */
    method MinimumSpanningTree(start: V) returns (r: Result<(map<V, V>, map<V, int>)>)
      ensures start !in vertices <==> r == Err(ValueError)
      ensures r.Ok? ==> exists rank :: RootedTree(vertices, edges, start, r.value.0, rank)
      ensures r.Ok? ==> Closed(vertices, edges, r.value.0.Keys + {start})
      ensures r.Ok? ==> r.value.1.Keys == r.value.0.Keys
      ensures r.Ok? ==> forall v :: v in r.value.0 ==> Weight(v, r.value.0[v]) == Ok(r.value.1[v])
    {
      if start !in vertices {
        return Err(ValueError);
      }
      var tree, rank, count := GrowTree(start);
      PrimDone(vertices, edges, start, tree, rank, count);
      tree := tree - {start};
      var weights := map v | v in tree :: edges[{tree[v], v}];
      forall v | v in tree
        ensures Weight(v, tree[v]) == Ok(weights[v])
      {
        assert {v, tree[v]} == {tree[v], v};
      }
      r := Ok((tree, weights));
    }

    /**
     * The queue and loop of `minimum_spanning_tree`: queue the edges at
     * `start`, then pop the lightest queued edge and, when its far end is
     * new, reach it and queue the edges there, until the queue is empty.
     */
    method GrowTree(start: V) returns (tree: map<V, V>, ghost rank: map<V, nat>, ghost count: nat)
      requires start in vertices
      ensures PrimState(vertices, edges, start, tree, rank, count, multiset{})
      ensures start in tree && tree[start] == start && tree.Keys <= vertices
      ensures forall v :: v in tree && v != start ==> tree[v] in tree && {tree[v], v} in edges
      ensures Closed(vertices, edges, tree.Keys)
    {
      var edgeQueue := new PriorityQueue<(V, V)>([]);
      assert Items(edgeQueue.tree) == [];
      PushEdges(edgeQueue, start);
      PrimStart(vertices, edges, start, multiset(Items(edgeQueue.tree)));
      tree, rank, count := map[start := start], map[start := 0], 1;
      while edgeQueue.Len() > 0
        invariant PrimState(vertices, edges, start, tree, rank, count, multiset(Items(edgeQueue.tree)))
        decreases vertices - tree.Keys, |edgeQueue.tree|
      {
        tree, rank, count := PrimRound(start, edgeQueue, tree, rank, count);
      }
      assert |Items(edgeQueue.tree)| == 0;
    }

    /**
     * One round of `minimum_spanning_tree`'s loop: pop the lightest queued
     * edge; when its far end is new, reach it and queue the edges there.
     * Either more vertices are reached or the queue is shorter.
     */
    method PrimRound(start: V, edgeQueue: PriorityQueue<(V, V)>, tree: map<V, V>, ghost rank: map<V, nat>, ghost count: nat)
      returns (tree': map<V, V>, ghost rank': map<V, nat>, ghost count': nat)
      requires PrimState(vertices, edges, start, tree, rank, count, multiset(Items(edgeQueue.tree)))
      requires |edgeQueue.tree| > 0
      modifies edgeQueue
      ensures PrimState(vertices, edges, start, tree', rank', count', multiset(Items(edgeQueue.tree)))
      ensures (tree.Keys < tree'.Keys <= vertices) || (tree' == tree && |edgeQueue.tree| < old(|edgeQueue.tree|))
    {
      ghost var queued := multiset(Items(edgeQueue.tree));
      var p := PopItem(edgeQueue);
      ghost var rest := multiset(Items(edgeQueue.tree));
      var (u, v) := p;
      if v !in tree {
        PushEdges(edgeQueue, v);
        PrimGrow(vertices, edges, start, tree, rank, count, queued, p, rest, multiset(Items(edgeQueue.tree)));
        tree', rank', count' := tree[v := u], rank[v := count], count + 1;
        assert v in tree'.Keys - tree.Keys;
      } else {
        PrimSkip(vertices, edges, start, tree, rank, count, queued, p, rest);
        assert |rest| < |queued|;
        tree', rank', count' := tree, rank, count;
      }
    }

    /**
     * The loops of `minimum_spanning_tree` over `neighbors(v)`: every edge
     * at `v` is pushed as the item `(v, n)` with its weight as priority.
     */
    method PushEdges(q: PriorityQueue<(V, V)>, v: V)
      modifies q
      ensures forall p :: p in multiset(Items(q.tree)) ==> p in old(multiset(Items(q.tree))) || (p.0 == v && p.1 in NeighborSet(vertices, edges, v))
      ensures forall p :: p in old(multiset(Items(q.tree))) ==> p in multiset(Items(q.tree))
      ensures forall n :: n in NeighborSet(vertices, edges, v) ==> (v, n) in multiset(Items(q.tree))
    {
      var todo := NeighborSet(vertices, edges, v);
      ghost var pushed: multiset<(V, V)> := multiset{};
      while todo != {}
        invariant todo <= NeighborSet(vertices, edges, v)
        invariant multiset(Items(q.tree)) == old(multiset(Items(q.tree))) + pushed
        invariant forall p :: p in pushed ==> p.0 == v && p.1 in NeighborSet(vertices, edges, v)
        invariant forall n :: n in NeighborSet(vertices, edges, v) - todo ==> (v, n) in pushed
        decreases todo
      {
        var n :| n in todo;
        PushItem(q, (v, n), Finite(edges[{v, n}]));
        pushed := pushed + multiset{(v, n)};
        todo := todo - {n};
      }
    }
  }

  /**
   * The state of Dijkstra's algorithm apart from relaxation: every vertex
   * has a non-negative distance, `start`'s being 0; the queue holds exactly
   * the vertices not yet taken off it (`visited`); the finite distances are
   * accounted for by tree links; every link leads to a visited vertex, and
   * to one visited earlier when both ends are visited.
   */
  ghost predicate DijkstraState<V>(vs: set<V>, edges: Edges<V>, start: V, tree: map<V, V>, dist: map<V, Priority>,
                                   visited: set<V>, rank: map<V, nat>, count: nat, queued: multiset<V>)
  {
    && dist.Keys == vs && start in vs && dist[start] == Finite(0)
    && (forall x :: x in dist ==> NonNegative(dist[x]))
    && visited <= vs && rank.Keys == visited
    && queued == multiset(vs - visited)
    && start !in tree && Tight(edges, start, tree, dist)
    && (forall u :: u in tree ==> tree[u] in visited)
    && (forall u :: u in tree && u in visited ==> rank[tree[u]] < rank[u])
    && (forall x :: x in rank ==> rank[x] < count)
  }

  /** No edge from a vertex of `from` to one of `to` can shorten a distance. */
  ghost predicate RelaxedFrom<V>(edges: Edges<V>, dist: map<V, Priority>, from: set<V>, to: set<V>)
  {
    forall x, y :: x in from && x in dist && y in to && y in dist && {x, y} in edges ==>
      !Below(Add(dist[x], edges[{x, y}]), dist[y])
  }

  /** Taking `v` off the queue makes it visited with the highest rank so far. */
  lemma DijkstraPop<V>(vs: set<V>, edges: Edges<V>, start: V, tree: map<V, V>, dist: map<V, Priority>,
                       visited: set<V>, rank: map<V, nat>, count: nat, queued: multiset<V>, v: V, rest: multiset<V>)
    requires DijkstraState(vs, edges, start, tree, dist, visited, rank, count, queued)
    requires rest + multiset{v} == queued
    ensures v in vs - visited
    ensures DijkstraState(vs, edges, start, tree, dist, visited + {v}, rank[v := count], count + 1, rest)
  {
    PopFromSet(vs, visited, queued, v, rest);
    var rank' := rank[v := count];
    assert rank'.Keys == visited + {v};
    forall u | u in tree && u in visited + {v}
      ensures rank'[tree[u]] < rank'[u]
    {
      assert tree[u] in visited;
    }
  }

  /** Taking one item off a queue holding `vs - visited` leaves `vs - (visited + {v})`. */
  lemma PopFromSet<V>(vs: set<V>, visited: set<V>, queued: multiset<V>, v: V, rest: multiset<V>)
    requires queued == multiset(vs - visited) && rest + multiset{v} == queued
    ensures v in vs - visited && rest == multiset(vs - (visited + {v}))
  {
    assert v in multiset(vs - visited);
    assert rest == queued - multiset{v};
    var s := vs - visited;
    assert s == (s - {v}) + {v};
    assert vs - (visited + {v}) == s - {v};
  }

  /**
   * Relaxing the edge from the visited `v` to the unvisited neighbour `u`
   * when it shortens `u`'s distance keeps the state, and `u` joins the
   * relaxed neighbours of `v`.
   */
  lemma RelaxStep<V>(vs: set<V>, edges: Edges<V>, start: V, tree: map<V, V>, dist: map<V, Priority>,
                     visited: set<V>, rank: map<V, nat>, count: nat, queued: multiset<V>, v: V, done: set<V>, u: V)
    requires DijkstraState(vs, edges, start, tree, dist, visited, rank, count, queued)
    requires forall e :: e in edges ==> edges[e] >= 0
    requires v in visited && u in queued && {v, u} in edges
    requires RelaxedFrom(edges, dist, visited - {v}, dist.Keys) && RelaxedFrom(edges, dist, {v}, done)
    requires Below(Add(dist[v], edges[{v, u}]), dist[u])
    ensures var dist' := dist[u := Add(dist[v], edges[{v, u}])];
      && DijkstraState(vs, edges, start, tree[u := v], dist', visited, rank, count, queued)
      && RelaxedFrom(edges, dist', visited - {v}, dist'.Keys)
      && RelaxedFrom(edges, dist', {v}, done + {u})
  {
    var d := Add(dist[v], edges[{v, u}]);
    var dist' := dist[u := d];
    assert u in multiset(vs - visited);
    assert u != start;
    RelaxKeepsTight(edges, start, tree, dist, visited, v, u);
    RelaxKeepsRelaxed(edges, dist, visited, v, done, u);
  }

  /**
   * Lowering `u`'s distance to `v`'s plus the edge weight keeps every edge
   * from the other visited vertices relaxed, and relaxes the edge from `v`
   * to `u`.
   */
  lemma RelaxKeepsRelaxed<V>(edges: Edges<V>, dist: map<V, Priority>, visited: set<V>, v: V, done: set<V>, u: V)
    requires v in visited && u !in visited && u in dist && v in dist && {v, u} in edges
    requires RelaxedFrom(edges, dist, visited - {v}, dist.Keys) && RelaxedFrom(edges, dist, {v}, done)
    requires Below(Add(dist[v], edges[{v, u}]), dist[u])
    ensures var dist' := dist[u := Add(dist[v], edges[{v, u}])];
      RelaxedFrom(edges, dist', visited - {v}, dist'.Keys) && RelaxedFrom(edges, dist', {v}, done + {u})
  {
    var d := Add(dist[v], edges[{v, u}]);
    var dist' := dist[u := d];
    DistanceDecreased(dist[u], d);
    forall x, y | x in visited - {v} && x in dist' && y in dist'.Keys && y in dist' && {x, y} in edges
      ensures !Below(Add(dist'[x], edges[{x, y}]), dist'[y])
    {
      assert x != u && dist'[x] == dist[x];
    }
    forall y | y in done + {u} && y in dist' && {v, y} in edges
      ensures !Below(Add(dist'[v], edges[{v, y}]), dist'[y])
    {
      assert dist'[v] == dist[v];
      if y == u {
        BelowIsStrictTotalOrder(d, d, d);
      }
    }
  }

  /**
   * Linking the unvisited `u` to the visited `v` at `v`'s distance plus the
   * edge weight keeps every finite distance accounted for, since no tree
   * link leads to `u`.
   */
  lemma RelaxKeepsTight<V>(edges: Edges<V>, start: V, tree: map<V, V>, dist: map<V, Priority>, visited: set<V>, v: V, u: V)
    requires Tight(edges, start, tree, dist) && (forall w :: w in tree ==> tree[w] in visited)
    requires v in visited && u !in visited && u in dist && v in dist && {v, u} in edges && dist[v].Finite?
    ensures Tight(edges, start, tree[u := v], dist[u := Add(dist[v], edges[{v, u}])])
  {
    var d := Add(dist[v], edges[{v, u}]);
    var tree', dist' := tree[u := v], dist[u := d];
    forall w | w in tree'
      ensures w in dist' && tree'[w] in dist' && {tree'[w], w} in edges
      ensures dist'[w].Finite? && dist'[w] == Add(dist'[tree'[w]], edges[{tree'[w], w}])
    {
      if w != u {
        assert tree'[w] == tree[w] && tree[w] != u;
      }
    }
  }

  /** Once every neighbour of `v` is relaxed, all of `visited` is. */
  lemma RelaxedAll<V>(vs: set<V>, edges: Edges<V>, dist: map<V, Priority>, visited: set<V>, v: V, done: set<V>)
    requires dist.Keys == vs && forall n :: n in NeighborSet(vs, edges, v) ==> n in done
    requires RelaxedFrom(edges, dist, visited - {v}, dist.Keys)
    requires RelaxedFrom(edges, dist, {v}, done)
    ensures RelaxedFrom(edges, dist, visited, dist.Keys)
  {
    forall x, y | x in visited && x in dist && y in dist.Keys && y in dist && {x, y} in edges
      ensures !Below(Add(dist[x], edges[{x, y}]), dist[y])
    {
      if x == v {
        assert y in NeighborSet(vs, edges, v);
      }
    }
  }

  /** With the queue empty every vertex is visited, so the state gives the results of `shortest_paths`. */
  lemma DijkstraDone<V>(vs: set<V>, edges: Edges<V>, start: V, tree: map<V, V>, dist: map<V, Priority>,
                        visited: set<V>, rank: map<V, nat>, count: nat)
    requires DijkstraState(vs, edges, start, tree, dist, visited, rank, count, multiset{})
    requires RelaxedFrom(edges, dist, visited, dist.Keys)
    ensures dist.Keys == vs && dist[start] == Finite(0) && start !in tree
    ensures Relaxed(edges, dist) && Tight(edges, start, tree, dist) && Ranked(tree, rank)
  {
    assert forall x :: x in vs - visited ==> x in multiset(vs - visited);
    assert vs - visited == {};
    forall x | x in vs
      ensures x in visited
    {
      assert x !in vs - visited;
    }
    assert visited == vs;
    forall u | u in tree
      ensures u in rank && tree[u] in rank && rank[tree[u]] < rank[u]
    {
      assert u in dist;
    }
  }

  /** Every vertex at distance infinity but `start` at 0, nothing visited and every vertex queued is a state. */
  lemma DijkstraStart<V>(vs: set<V>, edges: Edges<V>, start: V, dist: map<V, Priority>, queued: multiset<V>)
    requires start in vs && dist == (map v | v in vs :: Infinity)[start := Finite(0)]
    requires queued == multiset(vs)
    ensures DijkstraState(vs, edges, start, map[], dist, {}, map[], 0, queued)
    ensures RelaxedFrom(edges, dist, {}, dist.Keys)
  {
    assert vs - {} == vs;
  }

  /**
   * The state between two rounds of Prim's algorithm: `tree` (with `start`
   * its own parent) links every reached vertex to one reached earlier
   * along an edge, every queued pair is an edge leaving a reached vertex,
   * and every edge leaving a reached vertex leads to a reached vertex or
   * is queued.
   */
  ghost predicate PrimState<V>(vs: set<V>, edges: Edges<V>, start: V, tree: map<V, V>, rank: map<V, nat>, count: nat,
                               queued: multiset<(V, V)>)
  {
    && tree.Keys == rank.Keys <= vs && start in tree && tree[start] == start && rank[start] == 0
    && (forall v :: v in tree && v != start ==> tree[v] in tree && {tree[v], v} in edges && rank[tree[v]] < rank[v])
    && (forall x :: x in rank ==> rank[x] < count)
    && (forall p :: p in queued ==> p.0 in tree && p.1 in vs && {p.0, p.1} in edges)
    && (forall x, y :: x in tree && y in vs && {x, y} in edges ==> y in tree || (x, y) in queued)
  }

  /** Dropping a popped edge whose far end is already reached keeps the state. */
  lemma PrimSkip<V>(vs: set<V>, edges: Edges<V>, start: V, tree: map<V, V>, rank: map<V, nat>, count: nat,
                    queued: multiset<(V, V)>, p: (V, V), rest: multiset<(V, V)>)
    requires PrimState(vs, edges, start, tree, rank, count, queued)
    requires rest + multiset{p} == queued && p.1 in tree
    ensures PrimState(vs, edges, start, tree, rank, count, rest)
  {
    forall x, y | x in tree && y in vs && {x, y} in edges && y !in tree
      ensures (x, y) in rest
    {
      assert (x, y) in queued;
    }
  }

  /**
   * Reaching the far end `v` of a popped edge and queueing every edge at
   * `v` keeps the state.
   */
  lemma PrimGrow<V>(vs: set<V>, edges: Edges<V>, start: V, tree: map<V, V>, rank: map<V, nat>, count: nat,
                    queued: multiset<(V, V)>, p: (V, V), rest: multiset<(V, V)>, pushed: multiset<(V, V)>)
    requires PrimState(vs, edges, start, tree, rank, count, queued)
    requires rest + multiset{p} == queued && p.1 !in tree
    requires forall q :: q in pushed ==> q in rest || (q.0 == p.1 && q.1 in NeighborSet(vs, edges, p.1))
    requires forall q :: q in rest ==> q in pushed
    requires forall n :: n in NeighborSet(vs, edges, p.1) ==> (p.1, n) in pushed
    ensures p.1 in vs
    ensures PrimState(vs, edges, start, tree[p.1 := p.0], rank[p.1 := count], count + 1, pushed)
  {
    assert p in queued;
    var (u, v) := p;
    var tree', rank' := tree[v := u], rank[v := count];
    forall x, y | x in tree' && y in vs && {x, y} in edges && y !in tree'
      ensures (x, y) in pushed
    {
      if x == v {
        assert y in NeighborSet(vs, edges, v);
      } else {
        assert (x, y) in queued;
        assert (x, y) != p;
      }
    }
  }

  /** Reaching `start` alone and queueing every edge at it sets up the state. */
  lemma PrimStart<V>(vs: set<V>, edges: Edges<V>, start: V, pushed: multiset<(V, V)>)
    requires start in vs
    requires forall q :: q in pushed ==> q.0 == start && q.1 in NeighborSet(vs, edges, start)
    requires forall n :: n in NeighborSet(vs, edges, start) ==> (start, n) in pushed
    ensures PrimState(vs, edges, start, map[start := start], map[start := 0], 1, pushed)
  {
    forall x, y | x in {start} && y in vs && {x, y} in edges
      ensures (x, y) in pushed
    {
      assert y in NeighborSet(vs, edges, start);
    }
  }

  /** With nothing queued, the reached vertices are closed and `tree` minus `start` is a rooted tree. */
  lemma PrimDone<V>(vs: set<V>, edges: Edges<V>, start: V, tree: map<V, V>, rank: map<V, nat>, count: nat)
    requires PrimState(vs, edges, start, tree, rank, count, multiset{})
    ensures RootedTree(vs, edges, start, tree - {start}, rank)
    ensures Closed(vs, edges, (tree - {start}).Keys + {start})
  {
  }

  /**
   * The state between two rounds of breadth-first search: `prev` and `num`
   * describe a tree rooted at `start`, the queue holds reached vertices in
   * non-decreasing order of edge count spanning at most one layer, and
   * every vertex already processed has only neighbours reached with at
   * most one edge more.
   */
  ghost predicate BfsState<V>(vs: set<V>, edges: Edges<V>, start: V, prev: map<V, V>, num: map<V, nat>, queue: seq<V>)
  {
    && prev.Keys == num.Keys <= vs
    && start in num && num[start] == 0 && prev[start] == start
    && (forall v :: v in prev && v != start ==> prev[v] in num && {prev[v], v} in edges && num[v] == num[prev[v]] + 1)
    && (forall i :: 0 <= i < |queue| ==> queue[i] in num)
    && (forall i, j :: 0 <= i < j < |queue| ==> queue[i] != queue[j])
    && (forall i, j :: 0 <= i < j < |queue| ==> num[queue[i]] <= num[queue[j]])
    && (forall i :: 0 <= i < |queue| ==> num[queue[i]] <= num[queue[0]] + 1)
    && (forall x, i :: x in num && x !in queue && 0 <= i < |queue| ==> num[x] <= num[queue[i]])
    && (forall x, y :: x in num && x !in queue && y in vs && {x, y} in edges ==> y in num && num[y] <= num[x] + 1)
  }

  /**
   * What one round of breadth-first search does for `u`: its neighbours
   * not yet reached are reached through `u` with one edge more, and
   * queued after `queue` in some order, each once.
   */
  ghost predicate Discovered<V>(vs: set<V>, edges: Edges<V>, u: V, prev: map<V, V>, num: map<V, nat>, queue: seq<V>,
                                prev': map<V, V>, num': map<V, nat>, queue': seq<V>)
    requires u in num && prev.Keys == num.Keys
  {
    && prev'.Keys == num'.Keys == num.Keys + NeighborSet(vs, edges, u)
    && (forall x :: x in num ==> num'[x] == num[x] && prev'[x] == prev[x])
    && (forall x :: x in num' && x !in num ==> prev'[x] == u && num'[x] == num[u] + 1)
    && |queue| <= |queue'| && queue'[..|queue|] == queue
    && (forall i :: |queue| <= i < |queue'| ==> queue'[i] in num' && queue'[i] !in num)
    && (forall i, j :: |queue| <= i < j < |queue'| ==> queue'[i] != queue'[j])
    && (forall x :: x in num' && x !in num ==> x in queue'[|queue|..])
  }

  /** Processing the head of the queue keeps the breadth-first state. */
  lemma BreadthFirstStep<V>(vs: set<V>, edges: Edges<V>, start: V, prev: map<V, V>, num: map<V, nat>, queue: seq<V>,
                        prev': map<V, V>, num': map<V, nat>, queue': seq<V>)
    requires BfsState(vs, edges, start, prev, num, queue) && queue != []
    requires Discovered(vs, edges, queue[0], prev, num, queue[1..], prev', num', queue')
    ensures BfsState(vs, edges, start, prev', num', queue')
  {
    QueueShift(queue, queue');
    BfsStepLinks(vs, edges, start, prev, num, queue, prev', num', queue');
    BfsStepQueue(vs, edges, start, prev, num, queue, prev', num', queue');
    BfsStepDone(vs, edges, start, prev, num, queue, prev', num', queue');
  }

  /** The old queue minus its head is the front of the new one. */
  lemma QueueShift<V>(queue: seq<V>, queue': seq<V>)
    requires queue != [] && |queue| - 1 <= |queue'| && queue'[..|queue| - 1] == queue[1..]
    ensures forall i :: 0 <= i < |queue| - 1 ==> queue'[i] == queue[i + 1]
  {
    forall i | 0 <= i < |queue| - 1
      ensures queue'[i] == queue[i + 1]
    {
      assert queue'[..|queue| - 1][i] == queue[1..][i];
    }
  }

  lemma BfsStepLinks<V>(vs: set<V>, edges: Edges<V>, start: V, prev: map<V, V>, num: map<V, nat>, queue: seq<V>,
                        prev': map<V, V>, num': map<V, nat>, queue': seq<V>)
    requires BfsState(vs, edges, start, prev, num, queue) && queue != []
    requires Discovered(vs, edges, queue[0], prev, num, queue[1..], prev', num', queue')
    ensures prev'.Keys == num'.Keys <= vs
    ensures start in num' && num'[start] == 0 && prev'[start] == start
    ensures forall v :: v in prev' && v != start ==> prev'[v] in num' && {prev'[v], v} in edges && num'[v] == num'[prev'[v]] + 1
  {
    var u := queue[0];
    forall v | v in prev' && v != start
      ensures prev'[v] in num' && {prev'[v], v} in edges && num'[v] == num'[prev'[v]] + 1
    {
      if v !in num {
        assert v in NeighborSet(vs, edges, u);
      }
    }
  }

  lemma BfsStepQueue<V>(vs: set<V>, edges: Edges<V>, start: V, prev: map<V, V>, num: map<V, nat>, queue: seq<V>,
                        prev': map<V, V>, num': map<V, nat>, queue': seq<V>)
    requires BfsState(vs, edges, start, prev, num, queue) && queue != []
    requires Discovered(vs, edges, queue[0], prev, num, queue[1..], prev', num', queue')
    requires forall i :: 0 <= i < |queue| - 1 ==> queue'[i] == queue[i + 1]
    ensures forall i :: 0 <= i < |queue'| ==> queue'[i] in num'
    ensures forall i, j :: 0 <= i < j < |queue'| ==> queue'[i] != queue'[j]
    ensures forall i, j :: 0 <= i < j < |queue'| ==> num'[queue'[i]] <= num'[queue'[j]]
    ensures forall i :: 0 <= i < |queue'| ==> num'[queue'[i]] <= num'[queue'[0]] + 1
  {
    var u, n := queue[0], |queue| - 1;
    forall i | 0 <= i < |queue'|
      ensures queue'[i] in num' && num[u] <= num'[queue'[i]] <= num[u] + 1
    {
      if i < n {
        assert queue'[i] == queue[i + 1];
      }
    }
    forall i, j | 0 <= i < j < |queue'|
      ensures queue'[i] != queue'[j] && num'[queue'[i]] <= num'[queue'[j]]
    {
      if j < n {
        assert queue'[i] == queue[i + 1] && queue'[j] == queue[j + 1];
      } else if i < n {
        assert queue'[i] == queue[i + 1];
      }
    }
  }

  lemma BfsStepDone<V>(vs: set<V>, edges: Edges<V>, start: V, prev: map<V, V>, num: map<V, nat>, queue: seq<V>,
                        prev': map<V, V>, num': map<V, nat>, queue': seq<V>)
    requires BfsState(vs, edges, start, prev, num, queue) && queue != []
    requires Discovered(vs, edges, queue[0], prev, num, queue[1..], prev', num', queue')
    requires forall i :: 0 <= i < |queue| - 1 ==> queue'[i] == queue[i + 1]
    ensures forall x, i :: x in num' && x !in queue' && 0 <= i < |queue'| ==> num'[x] <= num'[queue'[i]]
    ensures forall x, y :: x in num' && x !in queue' && y in vs && {x, y} in edges ==> y in num' && num'[y] <= num'[x] + 1
  {
    var u, n := queue[0], |queue| - 1;
    forall i | 0 <= i < |queue'|
      ensures num[u] <= num'[queue'[i]]
    {
      if i < n {
        assert queue'[i] == queue[i + 1];
      }
    }
    forall x | x in num' && x !in queue'
      ensures x in num && (x == u || x !in queue)
    {
    }
    forall x, y | x in num' && x !in queue' && y in vs && {x, y} in edges
      ensures y in num' && num'[y] <= num'[x] + 1
    {
      if x == u {
        assert y in NeighborSet(vs, edges, u);
        if y in queue {
          var k :| 0 <= k < |queue| && queue[k] == y;
        }
      }
    }
  }

  /** `add_edge` over a sequence of edges, later ones overwriting earlier ones. */
  function WithEdges<V>(edges: Edges<V>, es: seq<((V, V), int)>): (r: Edges<V>)
    ensures forall k :: 0 <= k < |es| ==> {es[k].0.0, es[k].0.1} in r
    ensures forall e :: e in edges ==> e in r
  {
    if es == [] then edges
    else
      var last := es[|es| - 1];
      WithEdges(edges, es[..|es| - 1])[{last.0.0, last.0.1} := last.1]
  }

  /**
   * The edges `remove_vertex` leaves once it has deleted `{u, v}` for each
   * `u` in `others`: every edge except those joining `v` to one of `others`.
   */
  function RemainingEdges<V>(edges: Edges<V>, others: set<V>, v: V): (r: Edges<V>)
    ensures forall e :: e in r ==> e in edges && r[e] == edges[e] && !(exists u :: u in others && e == {u, v})
    ensures forall e :: e in edges && !(exists u :: u in others && e == {u, v}) ==> e in r
  {
    map e | e in edges && !(exists u :: u in others && e == {u, v}) :: edges[e]
  }

  /** A distance lowered by Dijkstra's relaxation stays below every bound the old one met. */
  lemma DistanceDecreased(before: Priority, after: Priority)
    requires Below(after, before)
    ensures forall a :: !Below(a, before) ==> !Below(a, after)
  {
    forall a | !Below(a, before)
      ensures !Below(a, after)
    {
      BelowIsStrictTotalOrder(a, after, before);
    }
  }

  /** The queue entries `shortest_paths` starts from for the vertices 0 to 3, listed in that order, with 3 as the start. */
  function DijkstraEntries(): seq<Entry<int>>
  {
    [Entry(0, Infinity), Entry(1, Infinity), Entry(2, Infinity), Entry(3, Finite(0))]
  }

  /** Built top-down, that queue is no heap: vertex 0, at infinity, is at the front. */
  lemma DijkstraBuildAsWritten()
    ensures HeapifyAsWritten(DijkstraEntries()) == [Entry(0, Infinity), Entry(3, Finite(0)), Entry(2, Infinity), Entry(1, Infinity)]
    ensures !IsHeap(HeapifyAsWritten(DijkstraEntries()))
  {
    var e0, e1, e2, e3 := Entry(0, Infinity), Entry(1, Infinity), Entry(2, Infinity), Entry(3, Finite(0));
    var t, t1 := [e0, e1, e2, e3], [e0, e3, e2, e1];
    DijkstraLastParent();
    assert SmallerChild(t, 0) == 1;
    assert SiftDown(t, 0) == t1;
    DijkstraSecondParent();
    assert SiftDownUpward(t1, 2, 2) == t1;
    assert SiftDownUpward(t1, 1, 2) == t1;
    assert Parent(1) == 0 && !Precedes(t1[0], t1[1]);
  }

  /** Sifting down from the slot now holding vertex 3 changes nothing. */
  lemma DijkstraSecondParent()
    ensures SiftDown([Entry(0, Infinity), Entry(3, Finite(0)), Entry(2, Infinity), Entry(1, Infinity)], 1) == [Entry(0, Infinity), Entry(3, Finite(0)), Entry(2, Infinity), Entry(1, Infinity)]
  {
    var e0, e1, e2, e3 := Entry(0, Infinity), Entry(1, Infinity), Entry(2, Infinity), Entry(3, Finite(0));
    var t1 := [e0, e3, e2, e1];
    assert SmallerChild(t1, 1) == 3;
    assert SiftDown(t1, 3) == t1;
  }

  /** Popping the top-down queue takes vertex 0 and brings vertex 3 to the front. */
  lemma DijkstraFirstPop()
    ensures Popped([Entry(0, Infinity), Entry(3, Finite(0)), Entry(2, Infinity), Entry(1, Infinity)]) == [Entry(3, Finite(0)), Entry(1, Infinity), Entry(2, Infinity)]
  {
    var e0, e1, e2, e3 := Entry(0, Infinity), Entry(1, Infinity), Entry(2, Infinity), Entry(3, Finite(0));
    var t1, s1, u := [e0, e3, e2, e1], [e1, e3, e2], [e3, e1, e2];
    assert t1[0 := t1[3]][..3] == s1;
    assert SmallerChild(s1, 0) == 1;
    assert Swap(s1, 0, 1) == u;
    assert SiftDown(u, 1) == u;
    assert SiftDown(s1, 0) == SiftDown(u, 1);
  }

  /** Popping again takes vertex 3 and leaves vertices 2 and 1. */
  lemma DijkstraSecondPop()
    ensures Popped([Entry(3, Finite(0)), Entry(1, Infinity), Entry(2, Infinity)]) == [Entry(2, Infinity), Entry(1, Infinity)]
  {
    var e1, e2, e3 := Entry(1, Infinity), Entry(2, Infinity), Entry(3, Finite(0));
    var u, s2 := [e3, e1, e2], [e2, e1];
    assert u[0 := u[2]][..2] == s2;
    assert SmallerChild(s2, 0) == 1;
    assert SiftDown(s2, 1) == s2;
    assert SiftDown(s2, 0) == s2;
  }

  /** Built bottom-up, the same queue has the start vertex 3 at its front. */
  lemma DijkstraBuildCorrected()
    ensures Heapify(DijkstraEntries()) == [Entry(3, Finite(0)), Entry(0, Infinity), Entry(2, Infinity), Entry(1, Infinity)]
  {
    var e0, e1, e2, e3 := Entry(0, Infinity), Entry(1, Infinity), Entry(2, Infinity), Entry(3, Finite(0));
    var t, t1, h := [e0, e1, e2, e3], [e0, e3, e2, e1], [e3, e0, e2, e1];
    DijkstraLastParent();
    assert SiftDownRange(t, 2, 2) == t;
    assert SiftDownRange(t, 1, 2) == t1;
    DijkstraRootDown();
  }

  /** Sifting down from vertex 1's slot swaps it with vertex 3. */
  lemma DijkstraLastParent()
    ensures SiftDown(DijkstraEntries(), 1) == [Entry(0, Infinity), Entry(3, Finite(0)), Entry(2, Infinity), Entry(1, Infinity)]
  {
    var e0, e1, e2, e3 := Entry(0, Infinity), Entry(1, Infinity), Entry(2, Infinity), Entry(3, Finite(0));
    var t, t1 := [e0, e1, e2, e3], [e0, e3, e2, e1];
    assert SmallerChild(t, 1) == 3;
    assert Swap(t, 1, 3) == t1;
    assert SiftDown(t1, 3) == t1;
  }

  /** Sifting the root down then brings vertex 3 to the front. */
  lemma DijkstraRootDown()
    ensures SiftDown([Entry(0, Infinity), Entry(3, Finite(0)), Entry(2, Infinity), Entry(1, Infinity)], 0) == [Entry(3, Finite(0)), Entry(0, Infinity), Entry(2, Infinity), Entry(1, Infinity)]
  {
    var e0, e1, e2, e3 := Entry(0, Infinity), Entry(1, Infinity), Entry(2, Infinity), Entry(3, Finite(0));
    var t1, h := [e0, e3, e2, e1], [e3, e0, e2, e1];
    assert SmallerChild(t1, 0) == 1;
    assert Swap(t1, 0, 1) == h;
    assert SmallerChild(h, 1) == 3;
    assert SiftDown(h, 3) == h;
    assert SiftDown(h, 1) == h;
  }

  /**
   * `shortest_paths` as written, on the vertices 0 to 3 (listed in that
   * order) with the one edge `{0, 3}` and 3 as the start: the top-down
   * build puts vertex 0 at the front, so it is popped first, at infinity;
   * vertex 3 comes next, its edge gives 0 a finite distance, and
   * `update(0)` raises ValueError because 0 has left the queue.
   */
  method DijkstraQueueAsWritten() returns (first: int, second: int, o: Outcome)
    ensures first == 0 && second == 3 && o == Raised(ValueError)
  {
    var q := BuildQueue(DijkstraEntries());
    assert q.tree == [Entry(0, Infinity), Entry(3, Finite(0)), Entry(2, Infinity), Entry(1, Infinity)] by {
      DijkstraBuildAsWritten();
    }
    assert Popped(q.tree) == [Entry(3, Finite(0)), Entry(1, Infinity), Entry(2, Infinity)] by {
      DijkstraFirstPop();
    }
    first := PopFront(q, [Entry(3, Finite(0)), Entry(1, Infinity), Entry(2, Infinity)]);
    assert Popped(q.tree) == [Entry(2, Infinity), Entry(1, Infinity)] by {
      DijkstraSecondPop();
    }
    second := PopFront(q, [Entry(2, Infinity), Entry(1, Infinity)]);
    o := UpdateAbsent(q, 0, Finite(1));
  }

  /** The as-written constructor, seen only through the tree it builds. */
  method BuildQueue(entries: seq<Entry<int>>) returns (q: PriorityQueue<int>)
    ensures fresh(q) && q.tree == HeapifyAsWritten(entries)
  {
    q := new PriorityQueue(entries);
  }

  /** `pop` on a queue whose next state is known: the front item comes back. */
  method PopFront(q: PriorityQueue<int>, next: seq<Entry<int>>) returns (item: int)
    requires |q.tree| > 0 && Popped(q.tree) == next
    modifies q
    ensures item == old(q.tree[0].item) && q.tree == next
  {
    var r := q.Pop();
    item := r.value;
  }

  /** `update` of an item no entry holds raises ValueError. */
  method UpdateAbsent(q: PriorityQueue<int>, item: int, priority: Priority) returns (o: Outcome)
    requires |q.tree| == 2 && q.tree[0].item != item && q.tree[1].item != item
    modifies q
    ensures o == Raised(ValueError)
  {
    assert !q.Contains(item);
    o := q.Update(item, priority);
  }

  /** Built bottom-up, the same queue has the start vertex 3 at its front. */
  method DijkstraQueueCorrected() returns (first: int)
    ensures first == 3
  {
    DijkstraBuildCorrected();
    var q := new PriorityQueue.Heapified(DijkstraEntries());
    var r := q.Pop();
    first := r.value;
  }

  /** A self-loop at the removed vertex survives `remove_vertex`, leaving an edge to a vertex no longer in the graph. */
  lemma RemoveVertexKeepsSelfLoop()
    ensures var edges := map[{0} := 1];
      {0} in RemainingEdges(edges, {0} - {0}, 0) && !({0} <= {0} - {0})
  {
  }

  /** Of the edges at `v`, only the self-loop is left once the edges to every other vertex are gone. */
  lemma OnlySelfLoopRemains<V>(vs: set<V>, e: set<V>, v: V)
    requires e <= vs && v in e && AtMostTwo(e)
    ensures e == {v} || exists u :: u in vs - {v} && e == {u, v}
  {
    if x :| x in e && x != v {
      assert e == {x, v};
    } else {
      assert e == {v};
    }
  }
}
