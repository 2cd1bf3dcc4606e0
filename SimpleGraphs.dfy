/**
 * The two graph classes of lab11/lab11.py. `Graph_ES` keeps a vertex set
 * and a set of directed edges; `Graph_AS` keeps a vertex set and a
 * dictionary from each vertex to its set of neighbours, adding every edge
 * in both directions. Constructors that raise are the static `Create`
 * methods, which return the new graph or the exception.
 */
module SimpleGraphs {
  import opened Util

  /** Every edge joins two vertices. */
  predicate EdgesWithin<V(==)>(vs: set<V>, es: set<(V, V)>)
  {
    forall e :: e in es ==> e.0 in vs && e.1 in vs
  }

  /** `Graph_ES`: vertices and directed edges. */
  class GraphES<V(==,!new)> {
    var vertices: set<V>
    var edges: set<(V, V)>

    ghost predicate Valid()
      reads this
    {
      EdgesWithin(vertices, edges)
    }

    constructor(vs: set<V>, es: set<(V, V)>)
      requires EdgesWithin(vs, es)
      ensures Valid() && vertices == vs && edges == es
    {
      vertices, edges := vs, es;
    }

    /** `Graph_ES(vertices, edges)`: ValueError when an edge has an endpoint that is not a vertex. */
    static method Create(vs: set<V>, es: set<(V, V)>) returns (r: Result<GraphES<V>>)
      ensures r.Ok? <==> EdgesWithin(vs, es)
      ensures r.Ok? ==> fresh(r.value) && r.value.Valid() && r.value.vertices == vs && r.value.edges == es
      ensures r.Err? ==> r.error == ValueError
    {
      if !(forall e | e in es :: e.0 in vs && e.1 in vs) {
        return Err(ValueError);
      }
      var g := new GraphES(vs, es);
      r := Ok(g);
    }

    /** `__len__`: the number of vertices. */
    function Len(): (n: nat)
      reads this
      ensures n == |vertices|
    {
      |vertices|
    }

    /** `__contains__`. */
    function Contains(v: V): (r: bool)
      reads this
      ensures r <==> v in vertices
    {
      v in vertices
    }

    /** `add_vertex`: ValueError, with nothing changed, when the vertex is already there. */
    method AddVertex(v: V) returns (r: Outcome)
      requires Valid()
      modifies this
      ensures Valid() && edges == old(edges)
      ensures v in old(vertices) ==> r == Raised(ValueError) && vertices == old(vertices)
      ensures v !in old(vertices) ==> r == Done && vertices == old(vertices) + {v}
    {
      if v in vertices {
        return Raised(ValueError);
      }
      vertices := vertices + {v};
      r := Done;
    }

    /** `remove_vertex`: ValueError when absent; otherwise the vertex and every edge touching it go. */
    method RemoveVertex(v: V) returns (r: Outcome)
      requires Valid()
      modifies this
      ensures Valid()
      ensures v !in old(vertices) ==> r == Raised(ValueError) && vertices == old(vertices) && edges == old(edges)
      ensures v in old(vertices) ==> r == Done && vertices == old(vertices) - {v}
      ensures v in old(vertices) ==> forall e :: e in edges <==> e in old(edges) && e.0 != v && e.1 != v
    {
      if v !in vertices {
        return Raised(ValueError);
      }
      vertices := vertices - {v};
      edges := set e | e in edges && e.0 != v && e.1 != v;
      r := Done;
    }

    /** `add_edge`: ValueError when the edge is there already or an endpoint is not a vertex. */
    method AddEdge(e: (V, V)) returns (r: Outcome)
      requires Valid()
      modifies this
      ensures Valid() && vertices == old(vertices)
      ensures r == Done <==> e !in old(edges) && e.0 in vertices && e.1 in vertices
      ensures r == Done ==> edges == old(edges) + {e}
      ensures r != Done ==> r == Raised(ValueError) && edges == old(edges)
    {
      if e in edges {
        return Raised(ValueError);
      }
      if e.0 !in vertices || e.1 !in vertices {
        return Raised(ValueError);
      }
      edges := edges + {e};
      r := Done;
    }

    /** `remove_edge`: ValueError when the edge is absent. */
    method RemoveEdge(e: (V, V)) returns (r: Outcome)
      requires Valid()
      modifies this
      ensures Valid() && vertices == old(vertices)
      ensures e !in old(edges) ==> r == Raised(ValueError) && edges == old(edges)
      ensures e in old(edges) ==> r == Done && edges == old(edges) - {e}
    {
      if e !in edges {
        return Raised(ValueError);
      }
      edges := edges - {e};
      r := Done;
    }

    /** `_neighbors`: the heads of the edges leaving `v`; the edges are directed. */
    function Neighbors(v: V): (r: set<V>)
      reads this
      ensures forall w :: w in r <==> (v, w) in edges
      ensures Valid() ==> r <= vertices
    {
      set e | e in edges && e.0 == v :: e.1
    }
  }

  /** Neighbour sets hold vertices only, and `w` is a neighbour of `u` exactly when `u` is one of `w`. */
  ghost predicate Symmetric<V>(vs: set<V>, adj: map<V, set<V>>)
  {
    && adj.Keys == vs
    && (forall u :: u in adj ==> adj[u] <= vs)
    && (forall u, w :: u in adj && w in adj[u] ==> u in adj[w])
  }

  /** `adj` joins `u` and `w` exactly when one of the pairs in `es` does, in either direction. */
  ghost predicate JoinsEdges<V(!new)>(adj: map<V, set<V>>, es: seq<(V, V)>)
  {
    forall u, w :: u in adj ==> (w in adj[u] <==> (u, w) in es || (w, u) in es)
  }

  /** Every pair in `es` joins two vertices. */
  predicate PairsWithin<V(==)>(vs: set<V>, es: seq<(V, V)>)
  {
    forall i :: 0 <= i < |es| ==> es[i].0 in vs && es[i].1 in vs
  }

  /** `_neighbor_dict[u].add(w)` and then `_neighbor_dict[w].add(u)`: each set gains exactly the other end. */
  function Join<V(==)>(adj: map<V, set<V>>, u: V, w: V): (r: map<V, set<V>>)
    requires u in adj && w in adj
    ensures r.Keys == adj.Keys
    ensures forall x :: x in adj ==> r[x] == adj[x] + (if x == u then {w} else {}) + (if x == w then {u} else {})
  {
    var adj' := adj[u := adj[u] + {w}];
    adj'[w := adj'[w] + {u}]
  }

  /**
   * The loop of `Graph_AS.__init__`: an empty set for each vertex, then
   * each edge added in both directions; ValueError at the first edge with
   * an endpoint that is not a vertex.
   */
  method Adjacency<V(==,!new)>(vs: set<V>, es: seq<(V, V)>) returns (r: Result<map<V, set<V>>>)
    ensures r.Ok? <==> PairsWithin(vs, es)
    ensures r.Ok? ==> Symmetric(vs, r.value) && JoinsEdges(r.value, es)
    ensures r.Err? ==> r.error == ValueError
  {
    var adj: map<V, set<V>> := map v | v in vs :: {};
    var i := 0;
    while i < |es|
      invariant 0 <= i <= |es|
      invariant PairsWithin(vs, es[..i])
      invariant Symmetric(vs, adj) && JoinsEdges(adj, es[..i])
    {
      var e := es[i];
      if e.0 !in vs || e.1 !in vs {
        return Err(ValueError);
      }
      JoinNext(vs, adj, es, i);
      adj := Join(adj, e.0, e.1);
      i := i + 1;
    }
    assert es[..i] == es;
    r := Ok(adj);
  }

  /** Joining two vertices keeps the neighbour relation symmetric. */
  lemma JoinSymmetric<V>(vs: set<V>, adj: map<V, set<V>>, u: V, w: V)
    requires Symmetric(vs, adj) && u in vs && w in vs
    ensures Symmetric(vs, Join(adj, u, w))
  {
  }

  /** Adding `w` to the set of `u` and then `u` to the set of `w` records one more edge. */
  lemma JoinBoth<V(!new)>(vs: set<V>, adj: map<V, set<V>>, es: seq<(V, V)>, e: (V, V))
    requires Symmetric(vs, adj) && JoinsEdges(adj, es) && e.0 in vs && e.1 in vs
    ensures JoinsEdges(Join(adj, e.0, e.1), es + [e])
    ensures PairsWithin(vs, es) ==> PairsWithin(vs, es + [e])
  {
    var (u, w) := e;
    var adj'' := Join(adj, u, w);
    forall x, y | x in adj''
      ensures y in adj''[x] <==> (x, y) in es + [(u, w)] || (y, x) in es + [(u, w)]
    {
      assert (x, y) in es + [(u, w)] <==> (x, y) in es || (x, y) == (u, w);
      assert (y, x) in es + [(u, w)] <==> (y, x) in es || (y, x) == (u, w);
    }
  }

  /** One step of the loop of `Adjacency`. */
  lemma JoinNext<V(!new)>(vs: set<V>, adj: map<V, set<V>>, es: seq<(V, V)>, i: int)
    requires 0 <= i < |es| && es[i].0 in vs && es[i].1 in vs
    requires Symmetric(vs, adj) && JoinsEdges(adj, es[..i]) && PairsWithin(vs, es[..i])
    ensures Symmetric(vs, Join(adj, es[i].0, es[i].1)) && JoinsEdges(Join(adj, es[i].0, es[i].1), es[..i + 1])
    ensures PairsWithin(vs, es[..i + 1])
  {
    JoinSymmetric(vs, adj, es[i].0, es[i].1);
    JoinBoth(vs, adj, es[..i], es[i]);
    assert es[..i + 1] == es[..i] + [es[i]];
  }

  /** `Graph_AS`: vertices and a neighbour set per vertex, edges undirected. */
  class GraphAS<V(==,!new)> {
    var vertices: set<V>
    /** `_neighbor_dict`. */
    var adj: map<V, set<V>>

    ghost predicate Valid()
      reads this
    {
      Symmetric(vertices, adj)
    }

    constructor(vs: set<V>, adj: map<V, set<V>>)
      requires Symmetric(vs, adj)
      ensures Valid() && vertices == vs && this.adj == adj
    {
      vertices, this.adj := vs, adj;
    }

    /** `Graph_AS(vertices, edges)`: ValueError when an edge has an endpoint that is not a vertex. */
    static method Create(vs: set<V>, es: seq<(V, V)>) returns (r: Result<GraphAS<V>>)
      ensures r.Ok? <==> PairsWithin(vs, es)
      ensures r.Ok? ==> fresh(r.value) && r.value.Valid() && r.value.vertices == vs && JoinsEdges(r.value.adj, es)
      ensures r.Err? ==> r.error == ValueError
    {
      var a := Adjacency(vs, es);
      if a.Err? {
        return Err(a.error);
      }
      var g := new GraphAS(vs, a.value);
      r := Ok(g);
    }

    /** `__len__`: the number of vertices. */
    function Len(): (n: nat)
      reads this
      ensures n == |vertices|
    {
      |vertices|
    }

    /** `__contains__`. */
    function Contains(v: V): (r: bool)
      reads this
      ensures r <==> v in vertices
    {
      v in vertices
    }

    /** `add_vertex`: ValueError when the vertex is already there; otherwise it starts with no neighbours. */
    method AddVertex(v: V) returns (r: Outcome)
      requires Valid()
      modifies this
      ensures Valid()
      ensures v in old(vertices) ==> r == Raised(ValueError) && vertices == old(vertices) && adj == old(adj)
      ensures v !in old(vertices) ==> r == Done && vertices == old(vertices) + {v} && adj == old(adj)[v := {}]
    {
      if v in vertices {
        return Raised(ValueError);
      }
      vertices := vertices + {v};
      adj := adj[v := {}];
      r := Done;
    }

    /** `remove_vertex`: ValueError when absent; otherwise its entry goes and every other entry loses it. */
    method RemoveVertex(v: V) returns (r: Outcome)
      requires Valid()
      modifies this
      ensures Valid()
      ensures v !in old(vertices) ==> r == Raised(ValueError) && vertices == old(vertices) && adj == old(adj)
      ensures v in old(vertices) ==> r == Done && vertices == old(vertices) - {v}
      ensures v in old(vertices) ==>
        adj.Keys == old(adj).Keys - {v} && forall u :: u in adj ==> adj[u] == old(adj)[u] - {v}
    {
      if v !in vertices {
        return Raised(ValueError);
      }
      vertices := vertices - {v};
      adj := DiscardEverywhere(adj - {v}, v);
      r := Done;
    }

    /** `add_edge`: ValueError when an endpoint is not a vertex; otherwise each end gains the other. A repeated edge changes nothing. */
    method AddEdge(e: (V, V)) returns (r: Outcome)
      requires Valid()
      modifies this
      ensures Valid() && vertices == old(vertices) && adj.Keys == old(adj).Keys
      ensures r == Done <==> e.0 in vertices && e.1 in vertices
      ensures r != Done ==> r == Raised(ValueError) && adj == old(adj)
      ensures r == Done ==> forall u :: u in adj ==>
        adj[u] == old(adj)[u] + (if u == e.0 then {e.1} else {}) + (if u == e.1 then {e.0} else {})
    {
      if e.0 !in vertices || e.1 !in vertices {
        return Raised(ValueError);
      }
      adj := adj[e.0 := adj[e.0] + {e.1}];
      adj := adj[e.1 := adj[e.1] + {e.0}];
      r := Done;
    }

    /**
     * `remove_edge`: each end loses the other, and a missing edge is no
     * error. Looking up an endpoint that is not a vertex raises KeyError;
     * by then nothing has changed, since no neighbour set holds a
     * non-vertex.
     */
    method RemoveEdge(e: (V, V)) returns (r: Outcome)
      requires Valid()
      modifies this
      ensures Valid() && vertices == old(vertices) && adj.Keys == old(adj).Keys
      ensures r == Done <==> e.0 in vertices && e.1 in vertices
      ensures r != Done ==> r == Raised(KeyError) && adj == old(adj)
      ensures r == Done ==> forall u :: u in adj ==>
        adj[u] == old(adj)[u] - (if u == e.0 then {e.1} else {}) - (if u == e.1 then {e.0} else {})
    {
      if e.0 !in adj {
        return Raised(KeyError);
      }
      ghost var before := adj;
      adj := adj[e.0 := adj[e.0] - {e.1}];
      if e.1 !in adj {
        assert before[e.0] - {e.1} == before[e.0];
        assert adj == before;
        return Raised(KeyError);
      }
      adj := adj[e.1 := adj[e.1] - {e.0}];
      r := Done;
    }

    /** `_neighbors`: KeyError for a vertex not in the graph; neighbourhood is symmetric. */
    function Neighbors(v: V): (r: Result<set<V>>)
      reads this
      ensures r.Ok? <==> v in adj
      ensures r.Err? ==> r.error == KeyError
      ensures Valid() && r.Ok? ==> r.value <= vertices && forall w :: w in r.value ==> v in adj[w]
    {
      if v in adj then Ok(adj[v]) else Err(KeyError)
    }
  }

  /** The loop of `Graph_AS.remove_vertex`: `discard(v)` on every remaining neighbour set. */
  method DiscardEverywhere<V(==)>(adj: map<V, set<V>>, v: V) returns (r: map<V, set<V>>)
    ensures r.Keys == adj.Keys
    ensures forall u :: u in r ==> r[u] == adj[u] - {v}
  {
    r := adj;
    var todo := adj.Keys;
    while todo != {}
      invariant todo <= adj.Keys && r.Keys == adj.Keys
      invariant forall u :: u in r ==> r[u] == if u in todo then adj[u] else adj[u] - {v}
      decreases todo
    {
      var u :| u in todo;
      r := r[u := r[u] - {v}];
      todo := todo - {u};
    }
  }

  /** The same edge list: `Graph_ES` sees one direction, `Graph_AS` both. */
  method DirectedVersusUndirected() returns (directed: set<int>, undirected: Result<set<int>>)
    ensures directed == {} && undirected == Ok({1})
  {
    var g1 := GraphES.Create({1, 2}, {(1, 2)});
    var g2 := GraphAS.Create({1, 2}, [(1, 2)]);
    directed := g1.value.Neighbors(2);
    undirected := g2.value.Neighbors(2);
    assert forall w :: w in directed ==> (2, w) in {(1, 2)};
    assert forall w :: w in g2.value.adj[2] <==> (2, w) in [(1, 2)] || (w, 2) in [(1, 2)];
    assert g2.value.adj[2] == {1};
  }
}
