/** An undirected graph in the shape networkx keeps it: the nodes in
    insertion order and, for every node, its neighbours in insertion
    order. A self-loop lists the node once among its own neighbours, and
    (as in networkx) counts twice towards its degree. */
module Graphs {
  import opened Seqs

  type NodeId = int

  datatype Graph = Graph(nodes: seq<NodeId>, adj: map<NodeId, seq<NodeId>>)

  /** The representation invariant every networkx graph satisfies. */
  ghost predicate Valid(g: Graph)
  {
    && Distinct(g.nodes)
    && (forall u :: u in g.nodes <==> u in g.adj)
    && (forall u | u in g.adj :: Distinct(g.adj[u]))
    && (forall u, v | u in g.adj && v in g.adj[u] :: v in g.adj && u in g.adj[v])
  }

  predicate HasEdge(g: Graph, u: NodeId, v: NodeId)
  {
    u in g.adj && v in g.adj[u]
  }

  /** networkx `G.degree(u)`: a self-loop contributes two. */
  function Degree(g: Graph, u: NodeId): nat
    requires u in g.adj
  {
    |g.adj[u]| + (if u in g.adj[u] then 1 else 0)
  }

  ghost predicate LoopFree(g: Graph)
  {
    forall u | u in g.adj :: u !in g.adj[u]
  }

  /** An undirected edge, named by its endpoints in increasing order. */
  datatype EdgeKey = EdgeKey(lo: NodeId, hi: NodeId)

  function Key(u: NodeId, v: NodeId): (k: EdgeKey)
    ensures k.lo <= k.hi
    ensures (k.lo == u && k.hi == v) || (k.lo == v && k.hi == u)
  {
    if u <= v then EdgeKey(u, v) else EdgeKey(v, u)
  }

  function Edges(g: Graph): set<EdgeKey>
  {
    set u, v | u in g.adj && v in g.adj[u] :: Key(u, v)
  }

  lemma EdgesMember(g: Graph, k: EdgeKey)
    requires Valid(g)
    ensures k in Edges(g) <==> k.lo <= k.hi && HasEdge(g, k.lo, k.hi)
  {
    if k in Edges(g) {
      var u, v :| u in g.adj && v in g.adj[u] && Key(u, v) == k;
    }
  }

  /** The key of a pair is an edge exactly when the pair is adjacent. */
  lemma EdgeKeyIff(g: Graph, u: NodeId, v: NodeId)
    requires Valid(g)
    ensures Key(u, v) in Edges(g) <==> HasEdge(g, u, v)
    ensures HasEdge(g, u, v) ==> u in g.adj && v in g.adj
  {
    EdgesMember(g, Key(u, v));
  }

  /** networkx `add_node` of a node that may already be present. */
  function AddNode(g: Graph, u: NodeId): (r: Graph)
    requires Valid(g)
    ensures Valid(r)
    ensures u in r.adj
    ensures r.nodes == (if u in g.adj then g.nodes else g.nodes + [u])
    ensures r.adj == (if u in g.adj then g.adj else g.adj[u := []])
  {
    if u in g.adj then g else Graph(g.nodes + [u], g.adj[u := []])
  }

  /** networkx `add_edge`: adds missing endpoints (u first), and leaves
      the adjacency order alone when the edge is already there. */
  function AddEdge(g: Graph, u: NodeId, v: NodeId): (r: Graph)
    requires Valid(g)
    ensures Valid(r)
    ensures HasEdge(r, u, v) && HasEdge(r, v, u)
    ensures Edges(r) == Edges(g) + {Key(u, v)}
    ensures r.adj.Keys == g.adj.Keys + {u, v}
    ensures |r.nodes| >= |g.nodes| && r.nodes[..|g.nodes|] == g.nodes
    ensures forall w | w in g.adj && w != u && w != v :: r.adj[w] == g.adj[w]
    ensures forall a, b | HasEdge(g, a, b) :: HasEdge(r, a, b)
    ensures HasEdge(g, u, v) ==> r == g
    ensures !HasEdge(g, u, v) && u != v ==>
      r.adj[u] == Neighbours(g, u) + [v] && r.adj[v] == Neighbours(g, v) + [u]
    ensures !HasEdge(g, u, v) && u == v ==> r.adj[u] == Neighbours(g, u) + [u]
  {
    var h := AddNode(AddNode(g, u), v);
    if v in h.adj[u] then
      AddEdgeOld(g, u, v, h);
      h
    else if u == v then
      var r := Graph(h.nodes, h.adj[u := h.adj[u] + [u]]);
      AddEdgeNew(g, u, v, h, r);
      r
    else
      var r := Graph(h.nodes, h.adj[u := h.adj[u] + [v]][v := h.adj[v] + [u]]);
      AddEdgeNew(g, u, v, h, r);
      r
  }

  lemma AddEdgeOld(g: Graph, u: NodeId, v: NodeId, r: Graph)
    requires Valid(g)
    requires r == AddNode(AddNode(g, u), v) && v in r.adj[u]
    ensures Valid(r)
    ensures HasEdge(r, u, v) && HasEdge(r, v, u)
    ensures Edges(r) == Edges(g) + {Key(u, v)}
    ensures r.adj.Keys == g.adj.Keys + {u, v}
    ensures |r.nodes| >= |g.nodes| && r.nodes[..|g.nodes|] == g.nodes
    ensures forall w | w in g.adj && w != u && w != v :: r.adj[w] == g.adj[w]
    ensures forall a, b | HasEdge(g, a, b) :: HasEdge(r, a, b)
    ensures HasEdge(g, u, v) ==> r == g
    ensures !HasEdge(g, u, v) && u != v ==>
      r.adj[u] == Neighbours(g, u) + [v] && r.adj[v] == Neighbours(g, v) + [u]
    ensures !HasEdge(g, u, v) && u == v ==> r.adj[u] == Neighbours(g, u) + [u]
  {
    AddNodesKeepEdges(g, u, v);
    AddNodesPrefix(g, u, v);
    EdgesMember(r, Key(u, v));
  }

  lemma AddEdgeNew(g: Graph, u: NodeId, v: NodeId, h: Graph, r: Graph)
    requires Valid(g)
    requires h == AddNode(AddNode(g, u), v) && v !in h.adj[u]
    requires r == if u == v then Graph(h.nodes, h.adj[u := h.adj[u] + [u]])
      else Graph(h.nodes, h.adj[u := h.adj[u] + [v]][v := h.adj[v] + [u]])
    ensures Valid(r)
    ensures HasEdge(r, u, v) && HasEdge(r, v, u)
    ensures Edges(r) == Edges(g) + {Key(u, v)}
    ensures r.adj.Keys == g.adj.Keys + {u, v}
    ensures |r.nodes| >= |g.nodes| && r.nodes[..|g.nodes|] == g.nodes
    ensures forall w | w in g.adj && w != u && w != v :: r.adj[w] == g.adj[w]
    ensures forall a, b | HasEdge(g, a, b) :: HasEdge(r, a, b)
    ensures !HasEdge(g, u, v)
    ensures u != v ==> r.adj[u] == Neighbours(g, u) + [v] && r.adj[v] == Neighbours(g, v) + [u]
    ensures u == v ==> r.adj[u] == Neighbours(g, u) + [u]
  {
    AddEdgeNewEdges(g, u, v, h, r);
    AddEdgeNewShape(g, u, v, h, r);
    AddEdgeNewKeeps(g, u, v, h, r);
  }

  lemma AddEdgeNewKeeps(g: Graph, u: NodeId, v: NodeId, h: Graph, r: Graph)
    requires Valid(g)
    requires h == AddNode(AddNode(g, u), v) && v !in h.adj[u]
    requires r == if u == v then Graph(h.nodes, h.adj[u := h.adj[u] + [u]])
      else Graph(h.nodes, h.adj[u := h.adj[u] + [v]][v := h.adj[v] + [u]])
    ensures forall a, b | HasEdge(g, a, b) :: HasEdge(r, a, b)
  {
    AddNodesShape(g, u, v);
    forall a, b | HasEdge(g, a, b) ensures HasEdge(r, a, b) {
      assert h.adj[a] == g.adj[a];
    }
  }

  lemma AddEdgeNewEdges(g: Graph, u: NodeId, v: NodeId, h: Graph, r: Graph)
    requires Valid(g)
    requires h == AddNode(AddNode(g, u), v) && v !in h.adj[u]
    requires r == if u == v then Graph(h.nodes, h.adj[u := h.adj[u] + [u]])
      else Graph(h.nodes, h.adj[u := h.adj[u] + [v]][v := h.adj[v] + [u]])
    ensures Valid(r)
    ensures HasEdge(r, u, v) && HasEdge(r, v, u)
    ensures Edges(r) == Edges(g) + {Key(u, v)}
  {
    AddNodesKeepEdges(g, u, v);
    EdgesAfterAdd(h, r, u, v);
  }

  lemma AddEdgeNewShape(g: Graph, u: NodeId, v: NodeId, h: Graph, r: Graph)
    requires Valid(g)
    requires h == AddNode(AddNode(g, u), v) && v !in h.adj[u]
    requires r == if u == v then Graph(h.nodes, h.adj[u := h.adj[u] + [u]])
      else Graph(h.nodes, h.adj[u := h.adj[u] + [v]][v := h.adj[v] + [u]])
    ensures r.adj.Keys == g.adj.Keys + {u, v}
    ensures |r.nodes| >= |g.nodes| && r.nodes[..|g.nodes|] == g.nodes
    ensures forall w | w in g.adj && w != u && w != v :: r.adj[w] == g.adj[w]
    ensures !HasEdge(g, u, v)
    ensures u != v ==> r.adj[u] == Neighbours(g, u) + [v] && r.adj[v] == Neighbours(g, v) + [u]
    ensures u == v ==> r.adj[u] == Neighbours(g, u) + [u]
  {
    AddNodesPrefix(g, u, v);
    AddNodesShape(g, u, v);
    assert !HasEdge(g, u, v) by {
      if u in g.adj { assert h.adj[u] == g.adj[u]; }
    }
    if u == v {
      LinkShapeSelf(g, u, h, r);
    } else {
      LinkShape(g, u, v, h, r);
    }
  }

  lemma LinkShapeSelf(g: Graph, u: NodeId, h: Graph, r: Graph)
    requires h.adj.Keys == g.adj.Keys + {u}
    requires forall w | w in h.adj :: h.adj[w] == Neighbours(g, w)
    requires |h.nodes| >= |g.nodes| && h.nodes[..|g.nodes|] == g.nodes
    requires r == Graph(h.nodes, h.adj[u := h.adj[u] + [u]])
    ensures r.adj.Keys == g.adj.Keys + {u}
    ensures |r.nodes| >= |g.nodes| && r.nodes[..|g.nodes|] == g.nodes
    ensures forall w | w in g.adj && w != u :: r.adj[w] == g.adj[w]
    ensures r.adj[u] == Neighbours(g, u) + [u]
  {
    forall w | w in g.adj && w != u ensures r.adj[w] == g.adj[w] {
      assert h.adj[w] == Neighbours(g, w);
    }
  }

  lemma LinkShape(g: Graph, u: NodeId, v: NodeId, h: Graph, r: Graph)
    requires u != v
    requires h.adj.Keys == g.adj.Keys + {u, v}
    requires forall w | w in h.adj :: h.adj[w] == Neighbours(g, w)
    requires |h.nodes| >= |g.nodes| && h.nodes[..|g.nodes|] == g.nodes
    requires r == Graph(h.nodes, h.adj[u := h.adj[u] + [v]][v := h.adj[v] + [u]])
    ensures r.adj.Keys == g.adj.Keys + {u, v}
    ensures |r.nodes| >= |g.nodes| && r.nodes[..|g.nodes|] == g.nodes
    ensures forall w | w in g.adj && w != u && w != v :: r.adj[w] == g.adj[w]
    ensures r.adj[u] == Neighbours(g, u) + [v] && r.adj[v] == Neighbours(g, v) + [u]
  {
    forall w | w in g.adj && w != u && w != v ensures r.adj[w] == g.adj[w] {
      assert h.adj[w] == Neighbours(g, w);
    }
  }

  lemma AddNodesShape(g: Graph, u: NodeId, v: NodeId)
    requires Valid(g)
    ensures AddNode(AddNode(g, u), v).adj.Keys == g.adj.Keys + {u, v}
    ensures forall w | w in AddNode(AddNode(g, u), v).adj :: AddNode(AddNode(g, u), v).adj[w] == Neighbours(g, w)
  {
  }

  lemma AddNodesPrefix(g: Graph, u: NodeId, v: NodeId)
    requires Valid(g)
    ensures |AddNode(AddNode(g, u), v).nodes| >= |g.nodes|
    ensures AddNode(AddNode(g, u), v).nodes[..|g.nodes|] == g.nodes
  {
    var h1 := AddNode(g, u);
    var h := AddNode(h1, v);
    assert h1.nodes[..|g.nodes|] == g.nodes;
    assert h.nodes[..|h1.nodes|] == h1.nodes;
    assert h.nodes[..|g.nodes|] == h1.nodes[..|g.nodes|];
  }

  lemma AddNodesKeepEdges(g: Graph, u: NodeId, v: NodeId)
    requires Valid(g)
    ensures Edges(AddNode(AddNode(g, u), v)) == Edges(g)
  {
    var h := AddNode(AddNode(g, u), v);
    forall k ensures k in Edges(h) <==> k in Edges(g) {
      EdgesMember(h, k);
      EdgesMember(g, k);
    }
  }

  /** The neighbours of `u`, or none when `u` is not a node. */
  function Neighbours(g: Graph, u: NodeId): seq<NodeId>
  {
    if u in g.adj then g.adj[u] else []
  }

  lemma EdgesAfterAdd(h: Graph, r: Graph, u: NodeId, v: NodeId)
    requires Valid(h) && u in h.adj && v in h.adj
    requires r ==
      if v in h.adj[u] then h
      else if u == v then Graph(h.nodes, h.adj[u := h.adj[u] + [u]])
      else Graph(h.nodes, h.adj[u := h.adj[u] + [v]][v := h.adj[v] + [u]])
    ensures Valid(r)
    ensures Edges(r) == Edges(h) + {Key(u, v)}
  {
    if v in h.adj[u] {
      EdgesMember(h, Key(u, v));
      assert Edges(h) + {Key(u, v)} == Edges(h);
    } else {
      assert u !in h.adj[v];
      forall a, b ensures HasEdge(r, a, b) <==> HasEdge(h, a, b) || (a == u && b == v) || (a == v && b == u) {
      }
      LinkValid(h, r, u, v);
      forall k ensures k in Edges(r) <==> k in Edges(h) + {Key(u, v)} {
        EdgesMember(h, k);
        EdgesMember(r, k);
      }
    }
  }

  /** Linking two nodes in both adjacency lists keeps a graph valid. */
  lemma LinkValid(h: Graph, r: Graph, u: NodeId, v: NodeId)
    requires Valid(h) && u in h.adj && v in h.adj && v !in h.adj[u] && u !in h.adj[v]
    requires r.nodes == h.nodes && r.adj.Keys == h.adj.Keys
    requires r.adj[u] == h.adj[u] + [v] && (u != v ==> r.adj[v] == h.adj[v] + [u])
    requires forall w | w in h.adj && w != u && w != v :: r.adj[w] == h.adj[w]
    ensures Valid(r)
  {
    forall w | w in r.adj ensures Distinct(r.adj[w]) {
      if w == u || w == v {
        var s := r.adj[w];
        assert forall i | 0 <= i < |s| - 1 :: s[i] == h.adj[w][i];
      }
    }
    forall a, b | a in r.adj && b in r.adj[a] ensures b in r.adj && a in r.adj[b] {
      if a != u && a != v {
        assert b in h.adj[a];
      } else if b in h.adj[a] {
        assert a in h.adj[b];
      }
    }
  }

  /** networkx `remove_edge`; the edge must exist (networkx raises
      otherwise). */
  function RemoveEdge(g: Graph, u: NodeId, v: NodeId): (r: Graph)
    requires Valid(g) && HasEdge(g, u, v)
    ensures Valid(r)
    ensures !HasEdge(r, u, v) && !HasEdge(r, v, u)
    ensures r.nodes == g.nodes && r.adj.Keys == g.adj.Keys
    ensures Edges(r) == Edges(g) - {Key(u, v)}
    ensures r.adj[u] == Without(g.adj[u], v) && r.adj[v] == Without(g.adj[v], u)
    ensures forall w | w in g.adj && w != u && w != v :: r.adj[w] == g.adj[w]
  {
    var r :=
      if u == v then Graph(g.nodes, g.adj[u := Without(g.adj[u], u)])
      else Graph(g.nodes, g.adj[u := Without(g.adj[u], v)][v := Without(g.adj[v], u)]);
    assert Valid(r);
    forall k ensures k in Edges(r) <==> k in Edges(g) - {Key(u, v)} {
      EdgesMember(g, k);
      EdgesMember(r, k);
    }
    r
  }

  /** networkx `remove_edges_from`: every edge named in `s` goes, the
      nodes stay. */
  function RemoveEdges(g: Graph, s: set<EdgeKey>): (r: Graph)
    requires Valid(g)
    ensures Valid(r)
    ensures r.nodes == g.nodes && r.adj.Keys == g.adj.Keys
    ensures forall u | u in g.adj :: r.adj[u] == Kept(g, s, u)
    ensures forall u, v :: HasEdge(r, u, v) <==> HasEdge(g, u, v) && Key(u, v) !in s
    ensures Edges(r) == Edges(g) - s
  {
    var r := Graph(g.nodes, map u | u in g.adj :: Kept(g, s, u));
    RemoveEdgesFacts(g, s, r);
    r
  }

  /** The neighbours of `u` whose edge to `u` is not named in `s`. */
  function Kept(g: Graph, s: set<EdgeKey>, u: NodeId): (r: seq<NodeId>)
    requires u in g.adj
    ensures forall v :: v in r <==> v in g.adj[u] && Key(u, v) !in s
    ensures Distinct(g.adj[u]) ==> Distinct(r)
  {
    Keep(g.adj[u], set v | v in g.adj[u] && Key(u, v) !in s)
  }

  lemma RemoveEdgesFacts(g: Graph, s: set<EdgeKey>, r: Graph)
    requires Valid(g)
    requires r == Graph(g.nodes, map u | u in g.adj :: Kept(g, s, u))
    ensures Valid(r)
    ensures forall u, v :: HasEdge(r, u, v) <==> HasEdge(g, u, v) && Key(u, v) !in s
    ensures Edges(r) == Edges(g) - s
  {
    RemoveEdgesHas(g, s, r);
    forall u | u in r.adj ensures Distinct(r.adj[u]) {
      assert r.adj[u] == Kept(g, s, u);
    }
    RemoveEdgesValid(g, s, r);
    forall k ensures k in Edges(r) <==> k in Edges(g) - s {
      EdgesMember(g, k);
      EdgesMember(r, k);
    }
  }

  lemma RemoveEdgesHas(g: Graph, s: set<EdgeKey>, r: Graph)
    requires Valid(g)
    requires r == Graph(g.nodes, map u | u in g.adj :: Kept(g, s, u))
    ensures forall u, v :: HasEdge(r, u, v) <==> HasEdge(g, u, v) && Key(u, v) !in s
  {
    forall u, v ensures HasEdge(r, u, v) <==> HasEdge(g, u, v) && Key(u, v) !in s {
      if u in g.adj {
        assert r.adj[u] == Kept(g, s, u);
      }
    }
  }

  lemma RemoveEdgesValid(g: Graph, s: set<EdgeKey>, r: Graph)
    requires Valid(g)
    requires r.nodes == g.nodes && r.adj.Keys == g.adj.Keys
    requires forall u | u in r.adj :: Distinct(r.adj[u])
    requires forall u, v :: HasEdge(r, u, v) <==> HasEdge(g, u, v) && Key(u, v) !in s
    ensures Valid(r)
  {
    forall u, v | u in r.adj && v in r.adj[u] ensures v in r.adj && u in r.adj[v] {
      assert HasEdge(g, u, v) && Key(u, v) !in s;
      KeySymmetric(u, v);
      assert HasEdge(g, v, u);
      assert HasEdge(r, v, u);
    }
  }

  lemma KeySymmetric(u: NodeId, v: NodeId)
    ensures Key(u, v) == Key(v, u)
  {
  }

  /** networkx `remove_nodes_from(list(nx.isolates(G)))`: every node of
      degree 0 goes, with its attributes; the order of the others stays. */
  function RemoveIsolates(g: Graph): (r: Graph)
    requires Valid(g)
    ensures Valid(r)
    ensures forall u :: u in r.adj <==> u in g.adj && g.adj[u] != []
    ensures forall u | u in r.adj :: r.adj[u] == g.adj[u]
    ensures r.nodes == Keep(g.nodes, set u | u in g.adj && g.adj[u] != [])
    ensures Subseq(r.nodes, g.nodes)
    ensures Edges(r) == Edges(g)
  {
    var keep := set u | u in g.adj && g.adj[u] != [];
    var r := Graph(Keep(g.nodes, keep), map u | u in keep :: g.adj[u]);
    IsolatesGone(g, keep, r.adj);
    RemoveIsolatesFacts(g, keep, r);
    r
  }

  lemma RemoveIsolatesFacts(g: Graph, keep: set<NodeId>, r: Graph)
    requires Valid(g)
    requires forall u :: u in keep <==> u in g.adj && g.adj[u] != []
    requires Distinct(r.nodes) && forall u :: u in r.nodes <==> u in g.nodes && u in keep
    requires forall u :: u in r.adj <==> u in g.adj && g.adj[u] != []
    requires forall u | u in r.adj :: r.adj[u] == g.adj[u] && Distinct(r.adj[u])
    requires forall u, v :: (u in r.adj && v in r.adj[u]) <==> HasEdge(g, u, v)
    ensures Valid(r)
    ensures Edges(r) == Edges(g)
  {
    assert forall u :: u in r.nodes <==> u in r.adj;
    forall u, v | u in r.adj && v in r.adj[u] ensures v in r.adj && u in r.adj[v] {
      assert HasEdge(g, v, u);
    }
    SameEdges(g, r);
  }

  /** Dropping the nodes without neighbours keeps every adjacency. */
  lemma IsolatesGone(g: Graph, keep: set<NodeId>, adj: map<NodeId, seq<NodeId>>)
    requires Valid(g)
    requires keep == set u | u in g.adj && g.adj[u] != []
    requires adj == map u | u in keep :: g.adj[u]
    ensures forall u :: u in adj <==> u in g.adj && g.adj[u] != []
    ensures forall u | u in adj :: adj[u] == g.adj[u] && Distinct(adj[u])
    ensures forall u, v :: (u in adj && v in adj[u]) <==> HasEdge(g, u, v)
  {
    forall u, v | HasEdge(g, u, v) ensures u in adj && v in adj[u] {
      assert g.adj[u] != [];
    }
  }

  /** Two graphs with the same adjacencies have the same edges. */
  lemma SameEdges(g: Graph, r: Graph)
    requires Valid(g) && Valid(r)
    requires forall u, v :: HasEdge(r, u, v) <==> HasEdge(g, u, v)
    ensures Edges(r) == Edges(g)
  {
    forall k ensures k in Edges(r) <==> k in Edges(g) {
      EdgesMember(g, k);
      EdgesMember(r, k);
    }
  }

  /** `remove_edges_from(s)` followed by removing the isolated nodes:
      the edges named in `s` go, then every node left without neighbours. */
  function Prune(g: Graph, s: set<EdgeKey>): (r: Graph)
    requires Valid(g)
    ensures Valid(r)
    ensures forall u :: u in r.adj <==> u in g.adj && Kept(g, s, u) != []
    ensures forall u | u in r.adj :: r.adj[u] == Kept(g, s, u)
    ensures forall u, v :: HasEdge(r, u, v) <==> HasEdge(g, u, v) && Key(u, v) !in s
    ensures Edges(r) == Edges(g) - s
    ensures Subseq(r.nodes, g.nodes)
  {
    var h := RemoveEdges(g, s);
    var r := RemoveIsolates(h);
    assert forall u, v :: HasEdge(r, u, v) <==> HasEdge(h, u, v);
    r
  }

  /** The nodes that keep a neighbour once the edges in `s` are gone, in
      their order in `g`. */
  lemma PruneNodes(g: Graph, s: set<EdgeKey>)
    requires Valid(g)
    ensures Prune(g, s).nodes == Keep(g.nodes, set u | u in g.adj && Kept(g, s, u) != [])
  {
    var h := RemoveEdges(g, s);
    KeepSameOn(g.nodes, set u | u in h.adj && h.adj[u] != [], set u | u in g.adj && Kept(g, s, u) != []);
  }

  /** Removing the neighbours named by `s1` and then those named by `s2`
      removes those named by either. */
  lemma KeptTwice(g: Graph, s1: set<EdgeKey>, s2: set<EdgeKey>, u: NodeId)
    requires Valid(g) && u in Prune(g, s1).adj
    ensures Kept(Prune(g, s1), s2, u) == Kept(g, s1 + s2, u)
  {
    var p := Prune(g, s1);
    var a1 := set v | v in g.adj[u] && Key(u, v) !in s1;
    var a2 := set v | v in p.adj[u] && Key(u, v) !in s2;
    assert p.adj[u] == Keep(g.adj[u], a1);
    KeepKeep(g.adj[u], a1, a2);
    KeepSameOn(g.adj[u], a1 * a2, set v | v in g.adj[u] && Key(u, v) !in s1 + s2);
  }

  /** A node whose neighbours are all named by `s1` has none left after
      removing `s1 + s2` either. */
  lemma KeptEmptyGrows(g: Graph, s1: set<EdgeKey>, s2: set<EdgeKey>, u: NodeId)
    requires Valid(g) && u in g.adj && Kept(g, s1, u) == []
    ensures Kept(g, s1 + s2, u) == []
  {
    KeepShrinks(g.adj[u], set v | v in g.adj[u] && Key(u, v) !in s1 + s2, set v | v in g.adj[u] && Key(u, v) !in s1);
  }

  /** Pruning twice is pruning once by the union: the cleaning loop may
      remove its edge sets one flag at a time. */
  lemma {:induction false} PruneTwice(g: Graph, s1: set<EdgeKey>, s2: set<EdgeKey>)
    requires Valid(g)
    ensures Prune(Prune(g, s1), s2) == Prune(g, s1 + s2)
  {
    PruneTwiceAdj(g, s1, s2);
    PruneTwiceNodes(g, s1, s2);
  }

  lemma PruneTwiceAdj(g: Graph, s1: set<EdgeKey>, s2: set<EdgeKey>)
    requires Valid(g)
    ensures Prune(Prune(g, s1), s2).adj == Prune(g, s1 + s2).adj
  {
    var a := Prune(Prune(g, s1), s2).adj;
    var b := Prune(g, s1 + s2).adj;
    forall u ensures u in a <==> u in b {
      PruneTwiceAt(g, s1, s2, u);
    }
    forall u | u in a ensures a[u] == b[u] {
      PruneTwiceAt(g, s1, s2, u);
    }
    SameMap(a, b);
  }

  lemma SameMap<K, V>(a: map<K, V>, b: map<K, V>)
    requires forall k :: k in a <==> k in b
    requires forall k | k in a :: a[k] == b[k]
    ensures a == b
  {
  }

  lemma PruneTwiceAt(g: Graph, s1: set<EdgeKey>, s2: set<EdgeKey>, u: NodeId)
    requires Valid(g)
    ensures u in Prune(Prune(g, s1), s2).adj <==> u in Prune(g, s1 + s2).adj
    ensures u in Prune(Prune(g, s1), s2).adj ==> Prune(Prune(g, s1), s2).adj[u] == Prune(g, s1 + s2).adj[u]
  {
    if u in Prune(g, s1).adj {
      KeptTwice(g, s1, s2, u);
    } else if u in g.adj {
      KeptEmptyGrows(g, s1, s2, u);
    }
  }

  lemma PruneTwiceNodes(g: Graph, s1: set<EdgeKey>, s2: set<EdgeKey>)
    requires Valid(g)
    ensures Prune(Prune(g, s1), s2).nodes == Prune(g, s1 + s2).nodes
  {
    var p1 := Prune(g, s1);
    var k1 := set u | u in g.adj && Kept(g, s1, u) != [];
    var k2 := set u | u in p1.adj && Kept(p1, s2, u) != [];
    var kt := set u | u in g.adj && Kept(g, s1 + s2, u) != [];
    PruneNodes(g, s1);
    PruneNodes(p1, s2);
    PruneNodes(g, s1 + s2);
    KeepKeep(g.nodes, k1, k2);
    forall u | u in g.nodes ensures u in k1 * k2 <==> u in kt {
      if u in p1.adj {
        KeptTwice(g, s1, s2, u);
      } else {
        KeptEmptyGrows(g, s1, s2, u);
      }
    }
    KeepSameOn(g.nodes, k1 * k2, kt);
  }

  /** The nodes at most `k` edges away from `u`: what networkx's
      `single_source_shortest_path_length(G, u, cutoff=k)` enumerates,
      computed level by level as a breadth-first search does. */
  function Ball(g: Graph, u: NodeId, k: nat): (b: set<NodeId>)
    ensures u in b
  {
    if k == 0 then {u}
    else
      var inner := Ball(g, u, k - 1);
      inner + set w, x | w in inner && w in g.adj && x in g.adj[w] :: x
  }

  /** `p` follows edges of `g`. */
  ghost predicate IsWalk(g: Graph, p: seq<NodeId>)
  {
    |p| > 0 && forall i | 0 <= i < |p| - 1 :: HasEdge(g, p[i], p[i + 1])
  }

  /** A walk from `u` to `v` of at most `k` edges. */
  ghost predicate ShortWalk(g: Graph, p: seq<NodeId>, u: NodeId, v: NodeId, k: nat)
  {
    IsWalk(g, p) && p[0] == u && p[|p| - 1] == v && |p| <= k + 1
  }

  /** The level-by-level search finds exactly the nodes joined to `u` by
      a walk of at most `k` edges. */
  lemma {:induction false} BallIsReach(g: Graph, u: NodeId, k: nat, v: NodeId)
    ensures v in Ball(g, u, k) <==> exists p :: ShortWalk(g, p, u, v, k)
  {
    if k == 0 {
      if v in Ball(g, u, k) {
        assert ShortWalk(g, [u], u, v, k);
      } else {
        forall p | ShortWalk(g, p, u, v, k) ensures false {
        }
      }
    } else {
      var inner := Ball(g, u, k - 1);
      if v in Ball(g, u, k) {
        if v in inner {
          BallIsReach(g, u, k - 1, v);
          var p :| ShortWalk(g, p, u, v, k - 1);
          assert ShortWalk(g, p, u, v, k);
        } else {
          var w :| w in inner && w in g.adj && v in g.adj[w];
          BallIsReach(g, u, k - 1, w);
          var p :| ShortWalk(g, p, u, w, k - 1);
          var q := p + [v];
          assert forall i | 0 <= i < |q| - 1 :: q[i] == p[i];
          assert ShortWalk(g, q, u, v, k);
        }
      } else {
        forall p | ShortWalk(g, p, u, v, k) ensures false {
          if |p| <= k {
            assert ShortWalk(g, p, u, v, k - 1);
            BallIsReach(g, u, k - 1, v);
          } else {
            var q := p[..|p| - 1];
            assert ShortWalk(g, q, u, q[|q| - 1], k - 1);
            BallIsReach(g, u, k - 1, q[|q| - 1]);
          }
        }
      }
    }
  }

  /** networkx `is_connected` for a graph with at least one node (for the
      empty graph networkx raises instead): a search from the first node
      that may go as deep as the graph has nodes reaches every node. */
  predicate Connected(g: Graph)
    requires |g.nodes| > 0
  {
    forall v | v in g.adj :: v in Ball(g, g.nodes[0], |g.nodes|)
  }

  /** Connectedness as walks: every node is joined to the first one by a
      walk of at most as many edges as there are nodes. */
  lemma ConnectedByWalks(g: Graph)
    requires |g.nodes| > 0
    ensures Connected(g) <==>
      forall v | v in g.adj :: exists p :: ShortWalk(g, p, g.nodes[0], v, |g.nodes|)
  {
    forall v | v in g.adj {
      BallIsReach(g, g.nodes[0], |g.nodes|, v);
    }
  }

  // ---------------------------------------------------------------------
  // Graph.copy

  /** A graph with nodes in order whose edges the old graph's nodes
      already cover keeps its node sequence: `Valid` forbids repeats, so
      nothing can follow the old prefix. */
  lemma SameKeysSameNodes(g: Graph, r: Graph)
    requires Valid(g) && Valid(r) && r.adj.Keys == g.adj.Keys
    requires |r.nodes| >= |g.nodes| && r.nodes[..|g.nodes|] == g.nodes
    ensures r.nodes == g.nodes
  {
    DistinctCard(g.nodes);
    DistinctCard(r.nodes);
    assert forall x :: x in r.nodes <==> x in g.nodes;
    assert (set x | x in r.nodes) == (set x | x in g.nodes);
  }

  /** `add_edge` between existing nodes adds no node. */
  lemma AddEdgeKeepsNodes(g: Graph, u: NodeId, v: NodeId)
    requires Valid(g)
    ensures u in g.adj && v in g.adj ==> AddEdge(g, u, v).nodes == g.nodes && AddEdge(g, u, v).adj.Keys == g.adj.Keys
  {
    if u in g.adj && v in g.adj {
      SameKeysSameNodes(g, AddEdge(g, u, v));
    }
  }

  /** The edges from `u` to the nodes of `vs`. */
  function RowKeys(u: NodeId, vs: seq<NodeId>): set<EdgeKey>
  {
    set v | v in vs :: Key(u, v)
  }

  /** `add_edge(u, v)` for each `v` of `vs` in turn. */
  function AddRow(g: Graph, u: NodeId, vs: seq<NodeId>): (r: Graph)
    requires Valid(g)
    ensures Valid(r)
    ensures Edges(r) == Edges(g) + RowKeys(u, vs)
    decreases |vs|
  {
    if |vs| == 0 then
      assert RowKeys(u, vs) == {};
      g
    else
      var h := AddRow(g, u, vs[..|vs| - 1]);
      RowKeysStep(u, vs);
      AddEdge(h, u, vs[|vs| - 1])
  }

  lemma RowKeysStep(u: NodeId, vs: seq<NodeId>)
    requires |vs| > 0
    ensures RowKeys(u, vs) == RowKeys(u, vs[..|vs| - 1]) + {Key(u, vs[|vs| - 1])}
  {
    assert forall v :: v in vs <==> v in vs[..|vs| - 1] || v == vs[|vs| - 1];
  }

  /** Edges between existing nodes add no node. */
  lemma {:induction false} AddRowKeepsNodes(g: Graph, u: NodeId, vs: seq<NodeId>)
    requires Valid(g) && u in g.adj && forall v | v in vs :: v in g.adj
    ensures AddRow(g, u, vs).nodes == g.nodes && AddRow(g, u, vs).adj.Keys == g.adj.Keys
    decreases |vs|
  {
    if |vs| > 0 {
      AddRowKeepsNodes(g, u, vs[..|vs| - 1]);
      AddEdgeKeepsNodes(AddRow(g, u, vs[..|vs| - 1]), u, vs[|vs| - 1]);
    }
  }

  /** The edges from the nodes of `ns` to their neighbours in `g`. */
  ghost function AdjKeys(g: Graph, ns: seq<NodeId>): set<EdgeKey>
    requires forall u | u in ns :: u in g.adj
  {
    set u, v | u in ns && v in g.adj[u] :: Key(u, v)
  }

  /** `add_edge(u, v)` for every node `u` of `ns` in turn and every
      neighbour `v` of `u` in `g`, in `g`'s order. */
  function AddRows(g: Graph, h: Graph, ns: seq<NodeId>): (r: Graph)
    requires Valid(g) && Valid(h) && forall u | u in ns :: u in g.adj
    ensures Valid(r)
    ensures Edges(r) == Edges(h) + AdjKeys(g, ns)
    decreases |ns|
  {
    if |ns| == 0 then
      assert AdjKeys(g, ns) == {};
      h
    else
      var p := AddRows(g, h, ns[..|ns| - 1]);
      AdjKeysStep(g, ns);
      AddRow(p, ns[|ns| - 1], g.adj[ns[|ns| - 1]])
  }

  lemma AdjKeysStep(g: Graph, ns: seq<NodeId>)
    requires |ns| > 0 && forall u | u in ns :: u in g.adj
    ensures AdjKeys(g, ns) == AdjKeys(g, ns[..|ns| - 1]) + RowKeys(ns[|ns| - 1], g.adj[ns[|ns| - 1]])
  {
    assert forall u :: u in ns <==> u in ns[..|ns| - 1] || u == ns[|ns| - 1];
  }

  /** The neighbours of a node of `g` are nodes of any graph with more nodes. */
  lemma NeighboursCovered(g: Graph, h: Graph, u: NodeId)
    requires Valid(g) && u in g.adj && g.adj.Keys <= h.adj.Keys
    ensures forall v | v in g.adj[u] :: v in h.adj
  {
  }

  /** Re-adding the edges of `g` to a graph on the nodes of `g` adds no
      node. */
  lemma {:induction false} AddRowsKeepsNodes(g: Graph, h: Graph, ns: seq<NodeId>)
    requires Valid(g) && Valid(h) && (forall u | u in ns :: u in g.adj) && g.adj.Keys <= h.adj.Keys
    ensures AddRows(g, h, ns).nodes == h.nodes && AddRows(g, h, ns).adj.Keys == h.adj.Keys
    decreases |ns|
  {
    if |ns| > 0 {
      var u := ns[|ns| - 1];
      var p := AddRows(g, h, ns[..|ns| - 1]);
      AddRowsKeepsNodes(g, h, ns[..|ns| - 1]);
      assert u in ns;
      NeighboursCovered(g, p, u);
      AddRowKeepsNodes(p, u, g.adj[u]);
      assert AddRows(g, h, ns) == AddRow(p, u, g.adj[u]);
    }
  }

  /** networkx `G.copy()`: `add_nodes_from` over the nodes in order, then
      `add_edges_from` over each node's neighbours in turn. The copy has
      the nodes and edges of `g`, but every adjacency list is rebuilt in
      the order the edges are added again, which can differ from `g`'s. */
  function Copy(g: Graph): (h: Graph)
    requires Valid(g)
    ensures Valid(h) && h.nodes == g.nodes && h.adj.Keys == g.adj.Keys
    ensures Edges(h) == Edges(g)
  {
    var e := Graph(g.nodes, map u | u in g.adj :: []);
    assert Edges(e) == {};
    assert Edges(g) == AdjKeys(g, g.nodes);
    AddRowsKeepsNodes(g, e, g.nodes);
    AddRows(g, e, g.nodes)
  }

  /** Two graphs on the same nodes with the same edges give every node the
      same degree, and have self-loops alike. */
  lemma EdgesFixDegrees(g: Graph, h: Graph)
    requires Valid(g) && Valid(h) && h.adj.Keys == g.adj.Keys && Edges(h) == Edges(g)
    ensures forall u | u in g.adj :: Degree(h, u) == Degree(g, u)
    ensures LoopFree(h) <==> LoopFree(g)
  {
    forall u | u in g.adj
      ensures Degree(h, u) == Degree(g, u)
      ensures u in h.adj[u] <==> u in g.adj[u]
    {
      forall v
        ensures v in h.adj[u] <==> v in g.adj[u]
      {
        EdgeKeyIff(g, u, v);
        EdgeKeyIff(h, u, v);
      }
      DistinctCard(h.adj[u]);
      DistinctCard(g.adj[u]);
      assert (set x | x in h.adj[u]) == (set x | x in g.adj[u]);
    }
  }

  /** The copy gives every node its degree in `g`. */
  lemma CopyDegrees(g: Graph)
    requires Valid(g)
    ensures forall u | u in g.adj :: Degree(Copy(g), u) == Degree(g, u)
    ensures LoopFree(Copy(g)) <==> LoopFree(g)
  {
    EdgesFixDegrees(g, Copy(g));
  }
}
