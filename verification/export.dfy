/** The graph analyses of `utils/export_fc.py`: breaking a cave network
    into single branches at its intersections, listing the nodes that a
    cleaning disconnected, and proposing new connections between nearby
    passage ends. */
module Export {
  import opened Wrappers
  import opened Seqs
  import opened Graphs
  import NxFc

  /** `EmptyGraph`: `max(G.nodes)` in `graph_to_branches` raises a
      ValueError on a graph without nodes, and `nx.is_connected` in
      `find_disconnected_node` raises NetworkXPointlessConcept on one.
      `UnknownNode`: `G.degree(k)` raises a KeyError for a node `k` of the
      cleaned graph that the original graph lacks. */
  datatype ExportError = EmptyGraph | UnknownNode(id: NodeId)

  /** The largest node id. */
  function MaxOf(s: seq<int>): (m: int)
    requires |s| > 0
    ensures m in s && forall x | x in s :: x <= m
  {
    if |s| == 1 then s[0]
    else
      var rest := MaxOf(s[1..]);
      assert forall x | x in s :: x == s[0] || x in s[1..];
      if s[0] >= rest then s[0] else rest
  }

  /** `n` consecutive ids starting at `lo`. */
  function Fresh(lo: int, n: nat): (r: seq<int>)
    ensures |r| == n && forall i | 0 <= i < n :: r[i] == lo + i
  {
    seq(n, i requires 0 <= i < n => lo + i)
  }

  lemma FreshSplit(lo: int, n: nat)
    requires n > 0
    ensures Fresh(lo, n) == [lo] + Fresh(lo + 1, n - 1)
  {
  }

  /** Without self-loops, the degree is the number of neighbours. */
  lemma LoopFreeDegree(g: Graph, u: NodeId)
    requires LoopFree(g) && u in g.adj
    ensures Degree(g, u) == |g.adj[u]|
  {
  }

  // ---------------------------------------------------------------------
  // graph_to_branches

  /** The graph being broken into branches, with the node attributes
      `pos`, `connected_component_number` and `intersection`. A node
      without an attribute is absent from the corresponding map. */
  datatype Branches = Branches(g: Graph, pos: map<NodeId, NxFc.Point>, component: map<NodeId, int>, intersection: map<NodeId, NodeId>)

  /** Copies attribute `a` of node `from` to node `to`; `to` gets none
      when `from` has none. networkx would store the value None on `to`
      instead: a `Get` reads both the same, but `get_node_attributes`
      would list `to` with None where this map leaves it out. */
  function CopyAttr<A>(m: map<NodeId, A>, from: NodeId, to: NodeId): (r: map<NodeId, A>)
    ensures Get(r, to) == Get(m, from)
    ensures forall u | u != to :: Get(r, u) == Get(m, u)
  {
    if from in m then m[to := m[from]] else m - {to}
  }

  /** Moves edge a-x to a new node `id`: `add_edge(id, x)` then
      `remove_edge(a, x)`. The number of edges does not change; `a` loses
      `x`, `x` swaps `a` for `id`, and `id` has `x` as its only neighbour. */
  function MoveEdge(g: Graph, a: NodeId, x: NodeId, id: NodeId): (r: Graph)
    requires Valid(g) && HasEdge(g, a, x) && id !in g.adj
    ensures Valid(r)
    ensures r.nodes == g.nodes + [id]
    ensures r.adj.Keys == g.adj.Keys + {id}
    ensures r.adj[id] == [x]
    ensures r.adj[x] == Without(g.adj[x], a) + [id]
    ensures a != x ==> r.adj[a] == Without(g.adj[a], x)
    ensures forall w | w in g.adj && w != a && w != x :: r.adj[w] == g.adj[w]
  {
    MoveEdgeAdj(g, a, x, id);
    RemoveEdge(AddEdge(AddNode(g, id), id, x), a, x)
  }

  /** Edge a-x becomes edge id-x; the number of edges does not change. */
  lemma MoveEdgeSwapsEdge(g: Graph, a: NodeId, x: NodeId, id: NodeId)
    requires Valid(g) && HasEdge(g, a, x) && id !in g.adj
    ensures Edges(MoveEdge(g, a, x, id)) == Edges(g) - {Key(a, x)} + {Key(id, x)}
    ensures |Edges(MoveEdge(g, a, x, id))| == |Edges(g)|
  {
    MoveEdgeEdges(g, a, x, id);
  }

  /** Every other neighbour of `a` stays a neighbour. */
  lemma MoveEdgeKeeps(g: Graph, a: NodeId, x: NodeId, id: NodeId, y: NodeId)
    requires Valid(g) && HasEdge(g, a, x) && id !in g.adj && HasEdge(g, a, y) && y != x
    ensures HasEdge(MoveEdge(g, a, x, id), a, y)
  {
    var r := MoveEdge(g, a, x, id);
    if a == x {
      assert y in Without(g.adj[a], a);
      assert r.adj[a] == Without(g.adj[a], a) + [id];
    } else {
      assert y in Without(g.adj[a], x);
    }
  }

  lemma MoveEdgeAdj(g: Graph, a: NodeId, x: NodeId, id: NodeId)
    requires Valid(g) && HasEdge(g, a, x) && id !in g.adj
    ensures var h := AddEdge(AddNode(g, id), id, x);
      HasEdge(h, a, x) &&
      var r := RemoveEdge(h, a, x);
      && r.nodes == g.nodes + [id]
      && r.adj.Keys == g.adj.Keys + {id}
      && r.adj[id] == [x]
      && r.adj[x] == Without(g.adj[x], a) + [id]
      && (a != x ==> r.adj[a] == Without(g.adj[a], x))
      && forall w | w in g.adj && w != a && w != x :: r.adj[w] == g.adj[w]
  {
    var h := AddEdge(AddNode(g, id), id, x);
    AddLeaf(g, id, x, h);
    var r := RemoveEdge(h, a, x);
    WithoutAppend(g.adj[x], a, id);
    assert id != a;
  }

  /** Adding a new node `id` joined to `x` appends `id` to the neighbours
      of `x` and touches nothing else. */
  lemma AddLeaf(g: Graph, id: NodeId, x: NodeId, h: Graph)
    requires Valid(g) && x in g.adj && id !in g.adj
    requires h == AddEdge(AddNode(g, id), id, x)
    ensures h.nodes == g.nodes + [id]
    ensures h.adj.Keys == g.adj.Keys + {id}
    ensures h.adj[id] == [x] && h.adj[x] == g.adj[x] + [id]
    ensures forall w | w in g.adj && w != x :: h.adj[w] == g.adj[w]
    ensures forall u, v | HasEdge(g, u, v) :: HasEdge(h, u, v)
  {
    var h0 := AddNode(g, id);
    assert h0.adj[id] == [] && !HasEdge(h0, id, x);
    assert h.nodes[..|h0.nodes|] == h0.nodes;
  }

  lemma MoveEdgeEdges(g: Graph, a: NodeId, x: NodeId, id: NodeId)
    requires Valid(g) && HasEdge(g, a, x) && id !in g.adj
    ensures var h := AddEdge(AddNode(g, id), id, x);
      HasEdge(h, a, x) &&
      var r := RemoveEdge(h, a, x);
      && Edges(r) == Edges(g) - {Key(a, x)} + {Key(id, x)}
      && |Edges(r)| == |Edges(g)|
  {
    EdgeKeyIff(g, a, x);
    EdgeKeyIff(g, id, x);
    var h := AddNode(g, id);
    AddNodesKeepEdges(g, id, id);
    assert AddNode(h, id) == h;
    var h2 := AddEdge(h, id, x);
    var r := RemoveEdge(h2, a, x);
    MoveEdgeCount(Edges(g), Edges(h2), Edges(r), Key(a, x), Key(id, x));
  }

  lemma MoveEdgeCount(e: set<EdgeKey>, e2: set<EdgeKey>, e3: set<EdgeKey>, gone: EdgeKey, added: EdgeKey)
    requires gone in e && added !in e && e2 == e + {added} && e3 == e2 - {gone}
    ensures e3 == e - {gone} + {added} && |e3| == |e|
  {
  }

  /** Moving an edge to a fresh node keeps the graph free of self-loops;
      only `a` loses a neighbour. */
  lemma MoveEdgeDegrees(g: Graph, a: NodeId, x: NodeId, id: NodeId)
    requires Valid(g) && HasEdge(g, a, x) && id !in g.adj && LoopFree(g)
    ensures var r := MoveEdge(g, a, x, id);
      && LoopFree(r)
      && Degree(r, a) == Degree(g, a) - 1
      && Degree(r, x) == Degree(g, x)
      && Degree(r, id) == 1
      && forall w | w in g.adj && w != a && w != x :: Degree(r, w) == Degree(g, w)
  {
    var r := MoveEdge(g, a, x, id);
    assert a != x;
    assert LoopFree(r) by {
      forall u | u in r.adj ensures u !in r.adj[u] {
        if u == id {
        } else if u == a {
        } else if u == x {
        } else {
          assert r.adj[u] == g.adj[u];
        }
      }
    }
    LoopFreeDegree(g, a);
    LoopFreeDegree(g, x);
    LoopFreeDegree(r, a);
    LoopFreeDegree(r, x);
    LoopFreeDegree(r, id);
  }

  /** The graph half of one step of the inner loop: edge a-x becomes edge
      id-x for a new node `id`. Every other neighbour of `a` stays one;
      without self-loops `a` loses one degree, `id` gets degree one and
      every other node keeps its degree. */
  method DetachEdge(g: Graph, a: NodeId, x: NodeId, id: NodeId) returns (h: Graph)
    requires Valid(g) && HasEdge(g, a, x) && id !in g.adj
    ensures Valid(h)
    ensures h.nodes == g.nodes + [id]
    ensures forall u :: u in h.adj <==> u in g.adj || u == id
    ensures Edges(h) == Edges(g) - {Key(a, x)} + {Key(id, x)}
    ensures |Edges(h)| == |Edges(g)|
    ensures forall y | HasEdge(g, a, y) && y != x :: HasEdge(h, a, y)
    ensures LoopFree(g) ==> LoopFree(h) && Degree(h, a) == Degree(g, a) - 1 && Degree(h, id) == 1
    ensures LoopFree(g) ==> forall w | w in g.adj && w != a :: Degree(h, w) == Degree(g, w)
  {
    h := MoveEdge(g, a, x, id);
    MoveEdgeSwapsEdge(g, a, x, id);
    forall y | HasEdge(g, a, y) && y != x ensures HasEdge(h, a, y) {
      MoveEdgeKeeps(g, a, x, id, y);
    }
    if LoopFree(g) {
      MoveEdgeDegrees(g, a, x, id);
    }
  }

  /** One step of the inner loop: besides moving the edge, the new node
      `id` copies the position and component number of `a` and records
      `a` as its intersection; no other node's attributes change. The
      edges still trace back one-to-one into `base`. */
  method Detach(b: Branches, a: NodeId, x: NodeId, id: NodeId, ghost keep: set<NodeId>, ghost base: set<EdgeKey>)
    returns (r: Branches)
    requires Valid(b.g) && HasEdge(b.g, a, x) && id !in b.g.adj
    requires a in keep && forall u | u in keep :: u in b.g.adj
    requires Traces(Edges(b.g), keep, b.intersection, base)
    ensures Valid(r.g)
    ensures r.g.nodes == b.g.nodes + [id]
    ensures forall u :: u in r.g.adj <==> u in b.g.adj || u == id
    ensures Edges(r.g) == Edges(b.g) - {Key(a, x)} + {Key(id, x)}
    ensures |Edges(r.g)| == |Edges(b.g)|
    ensures forall y | HasEdge(b.g, a, y) && y != x :: HasEdge(r.g, a, y)
    ensures forall u | u != id ::
      Get(r.pos, u) == Get(b.pos, u) && Get(r.component, u) == Get(b.component, u) && Get(r.intersection, u) == Get(b.intersection, u)
    ensures Get(r.intersection, id) == Some(a) && Get(r.pos, id) == Get(b.pos, a) && Get(r.component, id) == Get(b.component, a)
    ensures LoopFree(b.g) ==> LoopFree(r.g) && Degree(r.g, a) == Degree(b.g, a) - 1 && Degree(r.g, id) == 1
    ensures LoopFree(b.g) ==> forall w | w in b.g.adj && w != a :: Degree(r.g, w) == Degree(b.g, w)
    ensures Traces(Edges(r.g), keep, r.intersection, base)
  {
    var g := DetachEdge(b.g, a, x, id);
    r := Branches(g, CopyAttr(b.pos, a, id), CopyAttr(b.component, a, id), b.intersection[id := a]);
    DetachTraces(b.g, g, keep, b.intersection, r.intersection, base, a, x, id);
  }

  /** The inner loop of `graph_to_branches` at intersection `a`: each
      neighbour in `xs`, in order, is handed to a new node numbered from
      `next` on, and the new nodes are appended after the existing ones.
      The edge count and the old attributes stay; each new node records
      `a` and copies its position and component number. Without
      self-loops, `a` loses one degree per new node, the other nodes keep
      theirs, and each new node has degree one. Traced back through the
      recorded intersections to the nodes `keep`, the edges still map
      one-to-one into `base`. */
  method DetachAll(b: Branches, a: NodeId, xs: seq<NodeId>, next: int, ghost keep: set<NodeId>, ghost base: set<EdgeKey>)
    returns (r: Branches)
    requires Valid(b.g) && a in b.g.adj && Distinct(xs)
    requires forall x | x in xs :: HasEdge(b.g, a, x)
    requires forall u | u in b.g.adj :: u < next
    requires a in keep && forall u | u in keep :: u in b.g.adj
    requires Traces(Edges(b.g), keep, b.intersection, base)
    ensures Valid(r.g)
    ensures r.g.nodes == b.g.nodes + Fresh(next, |xs|)
    ensures forall u :: u in r.g.adj <==> u in b.g.adj || next <= u < next + |xs|
    ensures |Edges(r.g)| == |Edges(b.g)|
    ensures forall u | u in b.g.adj ::
      Get(r.pos, u) == Get(b.pos, u) && Get(r.component, u) == Get(b.component, u) && Get(r.intersection, u) == Get(b.intersection, u)
    ensures forall u | next <= u < next + |xs| ::
      Get(r.intersection, u) == Some(a) && Get(r.pos, u) == Get(b.pos, a) && Get(r.component, u) == Get(b.component, a)
    ensures LoopFree(b.g) ==> LoopFree(r.g) && Degree(r.g, a) == Degree(b.g, a) - |xs|
    ensures LoopFree(b.g) ==> forall u | u in b.g.adj && u != a :: Degree(r.g, u) == Degree(b.g, u)
    ensures LoopFree(b.g) ==> forall u | next <= u < next + |xs| :: Degree(r.g, u) == 1
    ensures Traces(Edges(r.g), keep, r.intersection, base)
  {
    r := b;
    var j := 0;
    assert b.g.nodes + Fresh(next, 0) == b.g.nodes;
    while j < |xs|
      invariant 0 <= j <= |xs|
      invariant Valid(r.g)
      invariant r.g.nodes == b.g.nodes + Fresh(next, j)
      invariant forall u :: u in r.g.adj <==> u in b.g.adj || next <= u < next + j
      invariant |Edges(r.g)| == |Edges(b.g)|
      invariant forall k | j <= k < |xs| :: HasEdge(r.g, a, xs[k])
      invariant Copied(b, a, next, j, r)
      invariant LoopFree(b.g) ==> Split(b, a, next, j, r)
      invariant Traces(Edges(r.g), keep, r.intersection, base)
    {
      r := DetachStep(b, a, xs, next, j, r, keep, base);
      j := j + 1;
    }
  }

  /** One turn of the inner loop: `xs[j]` goes to the new node `next + j`. */
  method DetachStep(b: Branches, a: NodeId, xs: seq<NodeId>, next: int, j: int, r: Branches,
                    ghost keep: set<NodeId>, ghost base: set<EdgeKey>)
    returns (r2: Branches)
    requires Valid(b.g) && a in b.g.adj && Distinct(xs)
    requires forall u | u in b.g.adj :: u < next
    requires a in keep && forall u | u in keep :: u in b.g.adj
    requires 0 <= j < |xs|
    requires Valid(r.g)
    requires r.g.nodes == b.g.nodes + Fresh(next, j)
    requires forall u :: u in r.g.adj <==> u in b.g.adj || next <= u < next + j
    requires |Edges(r.g)| == |Edges(b.g)|
    requires forall k | j <= k < |xs| :: HasEdge(r.g, a, xs[k])
    requires Copied(b, a, next, j, r)
    requires LoopFree(b.g) ==> Split(b, a, next, j, r)
    requires Traces(Edges(r.g), keep, r.intersection, base)
    ensures Valid(r2.g)
    ensures r2.g.nodes == b.g.nodes + Fresh(next, j + 1)
    ensures forall u :: u in r2.g.adj <==> u in b.g.adj || next <= u < next + (j + 1)
    ensures |Edges(r2.g)| == |Edges(b.g)|
    ensures forall k | j + 1 <= k < |xs| :: HasEdge(r2.g, a, xs[k])
    ensures Copied(b, a, next, j + 1, r2)
    ensures LoopFree(b.g) ==> Split(b, a, next, j + 1, r2)
    ensures Traces(Edges(r2.g), keep, r2.intersection, base)
  {
    assert next + j !in r.g.adj;
    assert forall u | u in keep :: u in r.g.adj;
    r2 := Detach(r, a, xs[j], next + j, keep, base);
    StepShape(b, a, xs, next, j, r, r2);
    StepCopies(b, a, next, j, r, r2);
    if LoopFree(b.g) {
      StepSplits(b, a, next, j, r, r2);
    }
  }

  /** The attribute invariant of the inner loop after `j` steps. */
  ghost predicate Copied(b: Branches, a: NodeId, next: int, j: int, r: Branches)
  {
    && (forall u | u in b.g.adj ::
         Get(r.pos, u) == Get(b.pos, u) && Get(r.component, u) == Get(b.component, u) && Get(r.intersection, u) == Get(b.intersection, u))
    && (forall u | next <= u < next + j ::
         Get(r.intersection, u) == Some(a) && Get(r.pos, u) == Get(b.pos, a) && Get(r.component, u) == Get(b.component, a))
  }

  /** The degree invariant of the inner loop after `j` steps. */
  ghost predicate Split(b: Branches, a: NodeId, next: int, j: int, r: Branches)
  {
    && LoopFree(r.g)
    && a in b.g.adj && a in r.g.adj && Degree(r.g, a) == Degree(b.g, a) - j
    && (forall u | u in b.g.adj && u != a :: u in r.g.adj && Degree(r.g, u) == Degree(b.g, u))
    && (forall u | next <= u < next + j :: u in r.g.adj && Degree(r.g, u) == 1)
  }

  /** One step keeps the node layout, the node set and the edges from `a`
      to the neighbours still to move. */
  lemma StepShape(b: Branches, a: NodeId, xs: seq<NodeId>, next: int, j: int, r: Branches, r2: Branches)
    requires Distinct(xs) && 0 <= j < |xs|
    requires r.g.nodes == b.g.nodes + Fresh(next, j)
    requires forall u :: u in r.g.adj <==> u in b.g.adj || next <= u < next + j
    requires forall k | j <= k < |xs| :: HasEdge(r.g, a, xs[k])
    requires r2.g.nodes == r.g.nodes + [next + j]
    requires forall u :: u in r2.g.adj <==> u in r.g.adj || u == next + j
    requires forall y | HasEdge(r.g, a, y) && y != xs[j] :: HasEdge(r2.g, a, y)
    ensures r2.g.nodes == b.g.nodes + Fresh(next, j + 1)
    ensures forall u :: u in r2.g.adj <==> u in b.g.adj || next <= u < next + j + 1
    ensures forall k | j + 1 <= k < |xs| :: HasEdge(r2.g, a, xs[k])
  {
    forall k | j + 1 <= k < |xs| ensures HasEdge(r2.g, a, xs[k]) {
      assert HasEdge(r.g, a, xs[k]) && xs[k] != xs[j];
    }
    assert Fresh(next, j + 1) == Fresh(next, j) + [next + j];
  }

  /** One step keeps the attribute invariant. */
  lemma StepCopies(b: Branches, a: NodeId, next: int, j: int, r: Branches, r2: Branches)
    requires 0 <= j && a in b.g.adj && (forall u | u in b.g.adj :: u < next)
    requires forall u | u != next + j ::
      Get(r2.pos, u) == Get(r.pos, u) && Get(r2.component, u) == Get(r.component, u) && Get(r2.intersection, u) == Get(r.intersection, u)
    requires Get(r2.intersection, next + j) == Some(a) && Get(r2.pos, next + j) == Get(r.pos, a) && Get(r2.component, next + j) == Get(r.component, a)
    requires Copied(b, a, next, j, r)
    ensures Copied(b, a, next, j + 1, r2)
  {
  }

  /** One step keeps the degree invariant of a graph without self-loops. */
  lemma StepSplits(b: Branches, a: NodeId, next: int, j: int, r: Branches, r2: Branches)
    requires 0 <= j && (forall u | u in b.g.adj :: u < next)
    requires forall u :: u in r2.g.adj <==> u in r.g.adj || u == next + j
    requires forall u | next <= u < next + j :: u in r.g.adj
    requires a in r.g.adj
    requires LoopFree(r2.g) && Degree(r2.g, a) == Degree(r.g, a) - 1 && Degree(r2.g, next + j) == 1
    requires forall w | w in r.g.adj && w != a :: Degree(r2.g, w) == Degree(r.g, w)
    requires Split(b, a, next, j, r)
    ensures Split(b, a, next, j + 1, r2)
  {
  }

  /** The neighbours of `a` after the first two: the ones the inner loop
      detaches (a Python slice `[2:]`, empty for a shorter list). */
  function Extra(g: Graph, a: NodeId): (xs: seq<NodeId>)
  {
    var ns := Neighbours(g, a);
    if |ns| > 2 then ns[2..] else []
  }

  lemma ExtraFacts(g: Graph, a: NodeId)
    requires Valid(g) && a in g.adj
    ensures Distinct(Extra(g, a))
    ensures forall x | x in Extra(g, a) :: HasEdge(g, a, x)
    ensures |Extra(g, a)| == if |g.adj[a]| > 2 then |g.adj[a]| - 2 else 0
  {
    var ns := g.adj[a];
    if |ns| > 2 {
      assert forall i, j | 0 <= i < j < |ns| - 2 :: ns[2..][i] == ns[i + 2] && ns[2..][j] == ns[j + 2];
    }
  }

  lemma FreshChain(s: seq<int>, s1: seq<int>, t: seq<int>, next: int, m: nat, n: nat)
    requires s1 == s + Fresh(next, m) && t == s1 + Fresh(next + m, n)
    ensures t == s + Fresh(next, m + n)
  {
    assert Fresh(next, m) + Fresh(next + m, n) == Fresh(next, m + n);
  }

  /** The nodes of degree more than two, in node order: the list the outer
      loop of `graph_to_branches` walks, taken once before any change. */
  function Intersections(g: Graph): (hubs: seq<NodeId>)
    requires Valid(g)
    ensures Distinct(hubs)
    ensures forall u :: u in hubs <==> u in g.adj && Degree(g, u) > 2
  {
    Keep(g.nodes, set u | u in g.adj && Degree(g, u) > 2)
  }

  /** How far the degree of `u` exceeds two. */
  function Excess(g: Graph, u: NodeId): nat
    requires u in g.adj
  {
    if Degree(g, u) > 2 then Degree(g, u) - 2 else 0
  }

  /** The sum of `Excess` over `s`. */
  function Surplus(g: Graph, s: seq<NodeId>): nat
    requires forall u | u in s :: u in g.adj
  {
    if |s| == 0 then 0 else Surplus(g, s[..|s| - 1]) + Excess(g, s[|s| - 1])
  }

  /** `graph_to_branches`: an empty graph has no largest id and raises.
      Otherwise the work is done on `G.copy()`: every intersection, in the
      order of `Intersections`, keeps its first two neighbours in the
      copy's adjacency order and hands each further neighbour to a new
      node; the new ids run on from the largest old id. The component
      numbers are those that `add_cc_attribute` wrote into the copy. */
  method GraphToBranches(g: Graph, pos: map<NodeId, NxFc.Point>, component: map<NodeId, int>, intersection: map<NodeId, NodeId>)
    returns (r: Result<Branches, ExportError>)
    requires Valid(g)
    ensures r.Failure? <==> |g.nodes| == 0
    ensures r.Failure? ==> r.error == EmptyGraph
    ensures r.Success? ==> Branched(g, pos, component, intersection, r.value)
  {
    if |g.nodes| == 0 {
      return Failure(EmptyGraph);
    }
    var b := SplitAll(g, pos, component, intersection);
    return Success(b);
  }

  /** The result `b` of breaking `g` into branches. The old nodes come
      first and the new ids run on from the largest old id. Mapping every
      node to its `Origin` maps the edges of `b` one-to-one onto those of
      `g`. Old nodes keep their attributes; a new node records an
      intersection of `g` and copies its position and component number.
      Without self-loops every intersection is left with degree two, each
      new node has degree one, and there is one new node per edge beyond
      the second at each intersection. */
  ghost predicate Branched(g: Graph, pos: map<NodeId, NxFc.Point>, component: map<NodeId, int>, intersection: map<NodeId, NodeId>,
                           b: Branches)
  {
    && Valid(g) && |g.nodes| > 0 && Valid(b.g)
    && |b.g.nodes| >= |g.nodes| && b.g.nodes == g.nodes + Fresh(MaxOf(g.nodes) + 1, |b.g.nodes| - |g.nodes|)
    && |Edges(b.g)| == |Edges(g)|
    && Traces(Edges(b.g), g.adj.Keys, b.intersection, Edges(g))
    && Onto(Edges(b.g), g.adj.Keys, b.intersection, Edges(g))
    && BranchTags(g, pos, component, intersection, b)
    && (LoopFree(g) ==> BranchDegrees(g, b))
  }

  /** The attributes of the branches: old nodes keep theirs; a new node
      records an intersection of `g` and copies its position and component
      number. */
  ghost predicate BranchTags(g: Graph, pos: map<NodeId, NxFc.Point>, component: map<NodeId, int>, intersection: map<NodeId, NodeId>,
                             b: Branches)
  {
    && (forall u | u in g.adj ::
         Get(b.pos, u) == Get(pos, u) && Get(b.component, u) == Get(component, u) &&
         Get(b.intersection, u) == Get(intersection, u))
    && (forall u | u in b.g.adj && u !in g.adj ::
         && Get(b.intersection, u).Some?
         && var a := b.intersection[u];
         && a in g.adj && Degree(g, a) > 2
         && Get(b.pos, u) == Get(pos, a) && Get(b.component, u) == Get(component, a))
  }

  /** The degrees of the branches of a graph without self-loops. */
  ghost predicate BranchDegrees(g: Graph, b: Branches)
    requires Valid(g)
  {
    && LoopFree(b.g)
    && (forall u | u in g.adj ::
         u in b.g.adj && Degree(b.g, u) == if Degree(g, u) > 2 then 2 else Degree(g, u))
    && (forall u | u in b.g.adj && u !in g.adj :: Degree(b.g, u) == 1)
    && (forall u | u in b.g.adj :: Degree(b.g, u) <= 2)
    && |b.g.nodes| == |g.nodes| + Surplus(g, Intersections(g))
  }

  /** `graph_to_branches` on a graph with nodes: the rounds run on the
      copy, whose nodes, edges and degrees are those of `g`. */
  method SplitAll(g: Graph, pos: map<NodeId, NxFc.Point>, component: map<NodeId, int>, intersection: map<NodeId, NodeId>)
    returns (b: Branches)
    requires Valid(g) && |g.nodes| > 0
    ensures Branched(g, pos, component, intersection, b)
  {
    var h := Copy(g);
    CopyDegrees(g);
    var hubs := Intersections(h);
    var start := MaxOf(h.nodes) + 1;
    var next;
    b, next := Rounds(h, pos, component, intersection, hubs, start);
    BranchesFinish(h, pos, component, intersection, hubs, b, start, next);
    BranchedOfCopy(g, h, pos, component, intersection, b);
  }

  /** The outer loop of `graph_to_branches`: the intersections `hubs` in
      turn, with new ids from `start` on. */
  method Rounds(g: Graph, pos: map<NodeId, NxFc.Point>, component: map<NodeId, int>, intersection: map<NodeId, NodeId>,
                hubs: seq<NodeId>, start: int)
    returns (cur: Branches, next: int)
    requires Valid(g) && Distinct(hubs)
    requires forall u | u in hubs :: u in g.adj && Degree(g, u) > 2
    requires forall u | u in g.adj :: u < start
    ensures start <= next && Valid(cur.g)
    ensures cur.g.nodes == g.nodes + Fresh(start, next - start)
    ensures forall u :: u in cur.g.adj <==> u in g.adj || start <= u < next
    ensures |Edges(cur.g)| == |Edges(g)|
    ensures Tagged(g, pos, component, intersection, hubs, cur, start, next)
    ensures LoopFree(g) ==> Trimmed(g, hubs, cur, start, next)
    ensures Traces(Edges(cur.g), g.adj.Keys, cur.intersection, Edges(g))
  {
    cur := Branches(g, pos, component, intersection);
    next := start;
    var i := 0;
    RoundsInit(g, pos, component, intersection, hubs, start);
    while i < |hubs|
      invariant 0 <= i <= |hubs| && start <= next
      invariant Valid(cur.g)
      invariant cur.g.nodes == g.nodes + Fresh(start, next - start)
      invariant forall u :: u in cur.g.adj <==> u in g.adj || start <= u < next
      invariant forall u | u in cur.g.adj :: u < next
      invariant |Edges(cur.g)| == |Edges(g)|
      invariant Tagged(g, pos, component, intersection, hubs[..i], cur, start, next)
      invariant LoopFree(g) ==> Trimmed(g, hubs[..i], cur, start, next)
      invariant Traces(Edges(cur.g), g.adj.Keys, cur.intersection, Edges(g))
    {
      cur, next := Round(g, pos, component, intersection, hubs, i, start, cur, next);
      i := i + 1;
    }
    assert hubs[..i] == hubs;
  }

  /** The outer-loop invariant before the first round. */
  lemma RoundsInit(g: Graph, pos: map<NodeId, NxFc.Point>, component: map<NodeId, int>, intersection: map<NodeId, NodeId>,
                   hubs: seq<NodeId>, start: int)
    requires Valid(g)
    ensures g.nodes + Fresh(start, 0) == g.nodes
    ensures Tagged(g, pos, component, intersection, hubs[..0], Branches(g, pos, component, intersection), start, start)
    ensures LoopFree(g) ==> Trimmed(g, hubs[..0], Branches(g, pos, component, intersection), start, start)
    ensures Traces(Edges(g), g.adj.Keys, intersection, Edges(g))
  {
    assert hubs[..0] == [];
    TracesInit(g, intersection);
  }

  /** One round of the outer loop: intersection `hubs[i]` hands its
      neighbours after the first two to new nodes numbered from `next` on. */
  method Round(g: Graph, pos: map<NodeId, NxFc.Point>, component: map<NodeId, int>, intersection: map<NodeId, NodeId>,
               hubs: seq<NodeId>, i: int, start: int, cur: Branches, next: int)
    returns (cur2: Branches, next2: int)
    requires Valid(g) && Distinct(hubs)
    requires forall u | u in hubs :: u in g.adj && Degree(g, u) > 2
    requires forall u | u in g.adj :: u < start
    requires 0 <= i < |hubs| && start <= next
    requires Valid(cur.g)
    requires cur.g.nodes == g.nodes + Fresh(start, next - start)
    requires forall u :: u in cur.g.adj <==> u in g.adj || start <= u < next
    requires forall u | u in cur.g.adj :: u < next
    requires |Edges(cur.g)| == |Edges(g)|
    requires Tagged(g, pos, component, intersection, hubs[..i], cur, start, next)
    requires LoopFree(g) ==> Trimmed(g, hubs[..i], cur, start, next)
    requires Traces(Edges(cur.g), g.adj.Keys, cur.intersection, Edges(g))
    ensures start <= next2
    ensures Valid(cur2.g)
    ensures cur2.g.nodes == g.nodes + Fresh(start, next2 - start)
    ensures forall u :: u in cur2.g.adj <==> u in g.adj || start <= u < next2
    ensures forall u | u in cur2.g.adj :: u < next2
    ensures |Edges(cur2.g)| == |Edges(g)|
    ensures Tagged(g, pos, component, intersection, hubs[..i + 1], cur2, start, next2)
    ensures LoopFree(g) ==> Trimmed(g, hubs[..i + 1], cur2, start, next2)
    ensures Traces(Edges(cur2.g), g.adj.Keys, cur2.intersection, Edges(g))
  {
    ExtraFacts(cur.g, hubs[i]);
    var xs := Extra(cur.g, hubs[i]);
    cur2 := DetachAll(cur, hubs[i], xs, next, g.adj.Keys, Edges(g));
    next2 := next + |xs|;
    RoundShape(g, start, cur, next, xs, cur2, next2);
    RoundTags(g, pos, component, intersection, hubs, i, cur, start, next, |xs|, cur2);
    if LoopFree(g) {
      RoundTrims(g, hubs, i, cur, start, next, xs, cur2, next2);
    }
  }

  /** The attribute invariant of the outer loop after the intersections
      `done`: old nodes keep theirs, each new node copies an intersection's. */
  ghost predicate Tagged(g: Graph, pos: map<NodeId, NxFc.Point>, component: map<NodeId, int>, intersection: map<NodeId, NodeId>,
                         done: seq<NodeId>, cur: Branches, start: int, next: int)
  {
    && (forall u | u in g.adj ::
         Get(cur.pos, u) == Get(pos, u) && Get(cur.component, u) == Get(component, u) && Get(cur.intersection, u) == Get(intersection, u))
    && (forall u | start <= u < next ::
         && Get(cur.intersection, u).Some? && cur.intersection[u] in done
         && Get(cur.pos, u) == Get(pos, cur.intersection[u]) && Get(cur.component, u) == Get(component, cur.intersection[u]))
  }

  /** The degree invariant of the outer loop after the intersections `done`,
      for a graph without self-loops. */
  ghost predicate Trimmed(g: Graph, done: seq<NodeId>, cur: Branches, start: int, next: int)
    requires forall u | u in done :: u in g.adj
  {
    && LoopFree(cur.g)
    && (forall u | u in g.adj :: u in cur.g.adj && Degree(cur.g, u) == if u in done then 2 else Degree(g, u))
    && (forall u | start <= u < next :: u in cur.g.adj && Degree(cur.g, u) == 1)
    && next - start == Surplus(g, done)
  }

  /** One round keeps the node layout, the node set and the edge count. */
  lemma RoundShape(g: Graph, start: int, cur: Branches, next: int, xs: seq<NodeId>, cur2: Branches, next2: int)
    requires start <= next && next2 == next + |xs| && (forall u | u in g.adj :: u < start)
    requires cur.g.nodes == g.nodes + Fresh(start, next - start)
    requires forall u :: u in cur.g.adj <==> u in g.adj || start <= u < next
    requires |Edges(cur.g)| == |Edges(g)|
    requires cur2.g.nodes == cur.g.nodes + Fresh(next, |xs|)
    requires forall u :: u in cur2.g.adj <==> u in cur.g.adj || next <= u < next + |xs|
    requires |Edges(cur2.g)| == |Edges(cur.g)|
    ensures cur2.g.nodes == g.nodes + Fresh(start, next2 - start)
    ensures forall u :: u in cur2.g.adj <==> u in g.adj || start <= u < next2
    ensures forall u | u in cur2.g.adj :: u < next2
    ensures |Edges(cur2.g)| == |Edges(g)|
  {
    FreshChain(g.nodes, cur.g.nodes, cur2.g.nodes, start, next - start, |xs|);
  }

  /** One round keeps the attribute invariant. */
  lemma RoundTags(g: Graph, pos: map<NodeId, NxFc.Point>, component: map<NodeId, int>, intersection: map<NodeId, NodeId>,
                  hubs: seq<NodeId>, i: int, cur: Branches, start: int, next: int, n: nat, cur2: Branches)
    requires 0 <= i < |hubs| && hubs[i] in g.adj
    requires forall u :: u in cur.g.adj <==> u in g.adj || start <= u < next
    requires forall u | u in cur.g.adj :: u < next
    requires forall u | u in cur.g.adj ::
      Get(cur2.pos, u) == Get(cur.pos, u) && Get(cur2.component, u) == Get(cur.component, u) && Get(cur2.intersection, u) == Get(cur.intersection, u)
    requires forall u | next <= u < next + n ::
      Get(cur2.intersection, u) == Some(hubs[i]) && Get(cur2.pos, u) == Get(cur.pos, hubs[i]) && Get(cur2.component, u) == Get(cur.component, hubs[i])
    requires Tagged(g, pos, component, intersection, hubs[..i], cur, start, next)
    ensures Tagged(g, pos, component, intersection, hubs[..i + 1], cur2, start, next + n)
  {
    var a := hubs[i];
    assert hubs[..i + 1] == hubs[..i] + [a];
    forall u | start <= u < next + n
      ensures Get(cur2.intersection, u).Some? && cur2.intersection[u] in hubs[..i + 1]
      ensures Get(cur2.pos, u) == Get(pos, cur2.intersection[u]) && Get(cur2.component, u) == Get(component, cur2.intersection[u])
    {
      if u < next {
        assert u in cur.g.adj;
      } else {
        assert Get(cur2.intersection, u) == Some(a);
      }
    }
  }

  /** One round keeps the degree invariant: without self-loops the
      intersection drops to degree two, giving up `Excess` edges to new
      nodes of degree one. */
  lemma RoundTrims(g: Graph, hubs: seq<NodeId>, i: int, cur: Branches, start: int, next: int, xs: seq<NodeId>, cur2: Branches, next2: int)
    requires LoopFree(g) && Valid(cur.g) && Distinct(hubs) && start <= next && next2 == next + |xs|
    requires forall u | u in g.adj :: u < start
    requires forall u | u in hubs :: u in g.adj && Degree(g, u) > 2
    requires 0 <= i < |hubs| && xs == Extra(cur.g, hubs[i])
    requires forall u :: u in cur.g.adj <==> u in g.adj || start <= u < next
    requires forall u :: u in cur2.g.adj <==> u in cur.g.adj || next <= u < next + |xs|
    requires Trimmed(g, hubs[..i], cur, start, next)
    requires LoopFree(cur.g) ==> LoopFree(cur2.g) && Degree(cur2.g, hubs[i]) == Degree(cur.g, hubs[i]) - |xs|
    requires LoopFree(cur.g) ==> forall u | u in cur.g.adj && u != hubs[i] :: Degree(cur2.g, u) == Degree(cur.g, u)
    requires LoopFree(cur.g) ==> forall u | next <= u < next + |xs| :: Degree(cur2.g, u) == 1
    ensures forall u | u in hubs[..i + 1] :: u in g.adj
    ensures Trimmed(g, hubs[..i + 1], cur2, start, next2)
  {
    var a := hubs[i];
    var done := hubs[..i + 1];
    assert done == hubs[..i] + [a];
    assert done[..|done| - 1] == hubs[..i];
    assert a !in hubs[..i];
    assert Degree(cur.g, a) == Degree(g, a);
    LoopFreeDegree(cur.g, a);
    ExtraFacts(cur.g, a);
    assert |xs| == Excess(g, a);
    assert next2 - start == Surplus(g, done);
    assert forall u :: u in done <==> u in hubs[..i] || u == a;
    TrimOld(g, hubs[..i], done, a, cur.g, cur2.g);
    TrimFresh(start, next, next2, a, cur.g, cur2.g);
    TrimmedIntro(g, done, cur2, start, next2);
  }

  /** `Trimmed` from its four parts. */
  lemma TrimmedIntro(g: Graph, done: seq<NodeId>, cur: Branches, start: int, next: int)
    requires forall u | u in done :: u in g.adj
    requires LoopFree(cur.g)
    requires forall u | u in g.adj :: u in cur.g.adj && Degree(cur.g, u) == if u in done then 2 else Degree(g, u)
    requires forall u | start <= u < next :: u in cur.g.adj && Degree(cur.g, u) == 1
    requires next - start == Surplus(g, done)
    ensures Trimmed(g, done, cur, start, next)
  { }

  /** The old nodes after one more intersection `a` is trimmed to degree
      two. */
  lemma TrimOld(g: Graph, prev: seq<NodeId>, done: seq<NodeId>, a: NodeId, h: Graph, h2: Graph)
    requires a in g.adj && forall u :: u in done <==> u in prev || u == a
    requires forall u | u in g.adj :: u in h.adj && Degree(h, u) == if u in prev then 2 else Degree(g, u)
    requires forall u | u in h.adj :: u in h2.adj
    requires Degree(h2, a) == 2
    requires forall w | w in h.adj && w != a :: Degree(h2, w) == Degree(h, w)
    ensures forall u | u in g.adj :: u in h2.adj && Degree(h2, u) == if u in done then 2 else Degree(g, u)
  {
    forall u | u in g.adj
      ensures u in h2.adj && Degree(h2, u) == if u in done then 2 else Degree(g, u)
    {
      if u != a {
        assert u in done <==> u in prev;
      }
    }
  }

  /** The new nodes of earlier rounds and of this one all have degree one. */
  lemma TrimFresh(start: int, next: int, next2: int, a: NodeId, h: Graph, h2: Graph)
    requires a < start <= next <= next2
    requires forall u | start <= u < next :: u in h.adj && Degree(h, u) == 1
    requires forall u :: u in h2.adj <==> u in h.adj || next <= u < next2
    requires forall w | w in h.adj && w != a :: Degree(h2, w) == Degree(h, w)
    requires forall u | next <= u < next2 :: Degree(h2, u) == 1
    ensures forall u | start <= u < next2 :: u in h2.adj && Degree(h2, u) == 1
  {
    forall u | start <= u < next2
      ensures u in h2.adj && Degree(h2, u) == 1
    {
      if u < next {
        assert u in h.adj;
      }
    }
  }

  /** The loop invariants at the end of the outer loop give the results
      of `graph_to_branches`. */
  lemma BranchesFinish(g: Graph, pos: map<NodeId, NxFc.Point>, component: map<NodeId, int>, intersection: map<NodeId, NodeId>,
                       hubs: seq<NodeId>, cur: Branches, start: int, next: int)
    requires Valid(g) && |g.nodes| > 0 && hubs == Intersections(g) && Valid(cur.g)
    requires start == MaxOf(g.nodes) + 1 && start <= next
    requires cur.g.nodes == g.nodes + Fresh(start, next - start)
    requires forall u :: u in cur.g.adj <==> u in g.adj || start <= u < next
    requires Tagged(g, pos, component, intersection, hubs, cur, start, next)
    requires LoopFree(g) ==> Trimmed(g, hubs, cur, start, next)
    requires |Edges(cur.g)| == |Edges(g)|
    requires Traces(Edges(cur.g), g.adj.Keys, cur.intersection, Edges(g))
    ensures Branched(g, pos, component, intersection, cur)
  {
    assert |cur.g.nodes| == |g.nodes| + (next - start);
    TracesOnto(Edges(cur.g), g.adj.Keys, cur.intersection, Edges(g));
  }

  /** What holds of the branches of the copy holds of the branches of `g`:
      both graphs have the same nodes, edges and degrees. */
  lemma BranchedOfCopy(g: Graph, h: Graph, pos: map<NodeId, NxFc.Point>, component: map<NodeId, int>, intersection: map<NodeId, NodeId>,
                       b: Branches)
    requires Valid(g) && Valid(h) && h.nodes == g.nodes && h.adj.Keys == g.adj.Keys && Edges(h) == Edges(g)
    requires forall u | u in g.adj :: Degree(h, u) == Degree(g, u)
    requires LoopFree(h) <==> LoopFree(g)
    requires Branched(h, pos, component, intersection, b)
    ensures Branched(g, pos, component, intersection, b)
  {
    assert forall u :: u in h.adj <==> u in g.adj;
    TagsOfCopy(g, h, pos, component, intersection, b);
    if LoopFree(g) {
      DegreesOfCopy(g, h, b);
    }
  }

  lemma TagsOfCopy(g: Graph, h: Graph, pos: map<NodeId, NxFc.Point>, component: map<NodeId, int>, intersection: map<NodeId, NodeId>,
                   b: Branches)
    requires forall u :: u in h.adj <==> u in g.adj
    requires forall u | u in g.adj :: Degree(h, u) == Degree(g, u)
    requires BranchTags(h, pos, component, intersection, b)
    ensures BranchTags(g, pos, component, intersection, b)
  {
  }

  lemma DegreesOfCopy(g: Graph, h: Graph, b: Branches)
    requires Valid(g) && Valid(h) && h.nodes == g.nodes && h.adj.Keys == g.adj.Keys
    requires forall u | u in g.adj :: Degree(h, u) == Degree(g, u)
    requires BranchDegrees(h, b)
    ensures BranchDegrees(g, b)
  {
    IntersectionsAlike(g, h);
    SurplusAlike(g, h, Intersections(g));
  }

  /** Equal degrees give the same intersections. */
  lemma IntersectionsAlike(g: Graph, h: Graph)
    requires Valid(g) && Valid(h) && h.nodes == g.nodes && h.adj.Keys == g.adj.Keys
    requires forall u | u in g.adj :: Degree(h, u) == Degree(g, u)
    ensures Intersections(h) == Intersections(g)
  {
    assert (set u | u in h.adj && Degree(h, u) > 2) == (set u | u in g.adj && Degree(g, u) > 2);
  }

  /** Equal degrees give equal surpluses. */
  lemma {:induction false} SurplusAlike(g: Graph, h: Graph, s: seq<NodeId>)
    requires forall u | u in s :: u in g.adj && u in h.adj && Degree(h, u) == Degree(g, u)
    ensures Surplus(h, s) == Surplus(g, s)
  {
    if |s| > 0 {
      SurplusAlike(g, h, s[..|s| - 1]);
    }
  }

  // ---------------------------------------------------------------------
  // Where the edges of the branches come from

  /** The node of the original graph that `u` stands for: itself when it
      is one of the original nodes `keep`, otherwise the intersection it
      records, if any. */
  function Origin(keep: set<NodeId>, inter: map<NodeId, NodeId>, u: NodeId): NodeId
  {
    var t := Get(inter, u);
    if u !in keep && t.Some? then t.value else u
  }

  /** An edge with both ends replaced by their origins. */
  function Lift(keep: set<NodeId>, inter: map<NodeId, NodeId>, k: EdgeKey): EdgeKey
  {
    Key(Origin(keep, inter, k.lo), Origin(keep, inter, k.hi))
  }

  /** No two edges of `es` have the same origin. */
  ghost predicate LiftInjective(es: set<EdgeKey>, keep: set<NodeId>, inter: map<NodeId, NodeId>)
  {
    forall k1, k2 | k1 in es && k2 in es && Lift(keep, inter, k1) == Lift(keep, inter, k2) :: k1 == k2
  }

  /** Traced back to their origins, the edges `es` map one-to-one into
      `base`. */
  ghost predicate Traces(es: set<EdgeKey>, keep: set<NodeId>, inter: map<NodeId, NodeId>, base: set<EdgeKey>)
  {
    && (forall k | k in es :: Lift(keep, inter, k) in base)
    && LiftInjective(es, keep, inter)
  }

  /** Every edge of `base` is the origin of some edge of `es`. */
  ghost predicate Onto(es: set<EdgeKey>, keep: set<NodeId>, inter: map<NodeId, NodeId>, base: set<EdgeKey>)
  {
    forall k | k in base :: exists e | e in es :: Lift(keep, inter, e) == k
  }

  /** Before any change every edge is its own origin. */
  lemma TracesInit(g: Graph, inter: map<NodeId, NodeId>)
    requires Valid(g)
    ensures Traces(Edges(g), g.adj.Keys, inter, Edges(g))
  {
    forall k | k in Edges(g)
      ensures Lift(g.adj.Keys, inter, k) == k
    {
      EdgesMember(g, k);
      EdgeKeyIff(g, k.lo, k.hi);
    }
  }

  /** Moving edge a-x to a new node `id` that records `a` keeps the
      trace: the new edge id-x has the origin a-x had. */
  lemma DetachTraces(g: Graph, g2: Graph, keep: set<NodeId>, inter: map<NodeId, NodeId>, inter2: map<NodeId, NodeId>,
                     base: set<EdgeKey>, a: NodeId, x: NodeId, id: NodeId)
    requires Valid(g) && HasEdge(g, a, x) && id !in g.adj && a in keep && forall u | u in keep :: u in g.adj
    requires Edges(g2) == Edges(g) - {Key(a, x)} + {Key(id, x)}
    requires Get(inter2, id) == Some(a) && forall u | u != id :: Get(inter2, u) == Get(inter, u)
    requires Traces(Edges(g), keep, inter, base)
    ensures Traces(Edges(g2), keep, inter2, base)
  {
    EdgeKeyIff(g, a, x);
    EdgeKeyIff(g, id, x);
    LiftUnchanged(g, keep, inter, inter2, id);
    assert Origin(keep, inter2, id) == a;
    assert Lift(keep, inter2, Key(id, x)) == Lift(keep, inter, Key(a, x));
    TraceSwap(Edges(g), Edges(g2), keep, inter, inter2, base, Key(a, x), Key(id, x));
  }

  /** Recording an intersection for a node outside `g` leaves the origins
      of the edges of `g` alone. */
  lemma LiftUnchanged(g: Graph, keep: set<NodeId>, inter: map<NodeId, NodeId>, inter2: map<NodeId, NodeId>, id: NodeId)
    requires Valid(g) && id !in g.adj
    requires forall u | u != id :: Get(inter2, u) == Get(inter, u)
    ensures forall k | k in Edges(g) :: Lift(keep, inter2, k) == Lift(keep, inter, k)
  {
    forall k | k in Edges(g)
      ensures Lift(keep, inter2, k) == Lift(keep, inter, k)
    {
      EdgesMember(g, k);
      EdgeKeyIff(g, k.lo, k.hi);
    }
  }

  /** Swapping edge `gone` for `added` with the same origin keeps a trace. */
  lemma TraceSwap(es: set<EdgeKey>, es2: set<EdgeKey>, keep: set<NodeId>, inter: map<NodeId, NodeId>, inter2: map<NodeId, NodeId>,
                  base: set<EdgeKey>, gone: EdgeKey, added: EdgeKey)
    requires gone in es && added !in es && es2 == es - {gone} + {added}
    requires forall k | k in es :: Lift(keep, inter2, k) == Lift(keep, inter, k)
    requires Lift(keep, inter2, added) == Lift(keep, inter, gone)
    requires Traces(es, keep, inter, base)
    ensures Traces(es2, keep, inter2, base)
  {
  }

  /** An injective image has as many elements as its source. */
  lemma {:induction false} LiftCard(es: set<EdgeKey>, keep: set<NodeId>, inter: map<NodeId, NodeId>)
    requires LiftInjective(es, keep, inter)
    ensures |set k | k in es :: Lift(keep, inter, k)| == |es|
  {
    if es != {} {
      var e :| e in es;
      var rest := es - {e};
      LiftCard(rest, keep, inter);
      assert (set k | k in es :: Lift(keep, inter, k)) == (set k | k in rest :: Lift(keep, inter, k)) + {Lift(keep, inter, e)};
      assert Lift(keep, inter, e) !in (set k | k in rest :: Lift(keep, inter, k));
    } else {
      assert (set k | k in es :: Lift(keep, inter, k)) == {};
    }
  }

  /** A one-to-one trace into a set of the same size is onto. */
  lemma TracesOnto(es: set<EdgeKey>, keep: set<NodeId>, inter: map<NodeId, NodeId>, base: set<EdgeKey>)
    requires Traces(es, keep, inter, base) && |es| == |base|
    ensures Onto(es, keep, inter, base)
  {
    var img := set k | k in es :: Lift(keep, inter, k);
    LiftCard(es, keep, inter);
    assert img <= base;
    assert |base - img| == 0 by {
      assert base == img + (base - img);
      assert img * (base - img) == {};
    }
    assert base == img;
  }

  // ---------------------------------------------------------------------
  // find_disconnected_node

  /** A node that the cleaning left as a dead end: degree one in the cleaned
      graph `h`, more than one in the original graph `g`. */
  ghost predicate CutEnd(g: Graph, h: Graph, k: NodeId)
  {
    k in h.adj && Degree(h, k) == 1 && k in g.adj && Degree(g, k) > 1
  }

  /** The scan of `find_disconnected_node` over the nodes `s` of `h`. A
      node of degree one is looked up in `g`, and one that `g` lacks raises
      a KeyError; the degree in `g` is read only after the degree in `h`
      is found to be one. The result lists the cut ends of `s` in order. */
  function CutEnds(g: Graph, h: Graph, s: seq<NodeId>): (r: Result<seq<NodeId>, ExportError>)
    requires forall k | k in s :: k in h.adj
    ensures r.Failure? <==> exists k | k in s :: Degree(h, k) == 1 && k !in g.adj
    ensures r.Failure? ==> r.error.UnknownNode? && r.error.id in s && Degree(h, r.error.id) == 1 && r.error.id !in g.adj
    ensures r.Success? ==> forall k :: k in r.value <==> k in s && CutEnd(g, h, k)
    ensures r.Success? ==> Subseq(r.value, s)
    ensures r.Success? && Distinct(s) ==> Distinct(r.value)
  {
    if |s| == 0 then Success([])
    else
      var k := s[0];
      assert forall j | j in s :: j == k || j in s[1..];
      if Degree(h, k) == 1 && k !in g.adj then Failure(UnknownNode(k))
      else
        var rest := CutEnds(g, h, s[1..]);
        if rest.Failure? then rest
        else if Degree(h, k) == 1 && Degree(g, k) > 1 then
          assert ([k] + rest.value)[1..] == rest.value;
          assert Distinct(s) ==> k !in s[1..];
          Success([k] + rest.value)
        else Success(rest.value)
  }

  /** `find_disconnected_node(G, H)`: `nx.is_connected` raises on an empty
      graph; a connected `h` gives None; otherwise the cut ends of `h`.
      Within a connected component the subgraph degree is the degree in
      `h`, since a component holds every neighbour of its nodes. */
  function FindDisconnectedNodes(g: Graph, h: Graph): (r: Result<Option<seq<NodeId>>, ExportError>)
    requires Valid(h)
    ensures r == Failure(EmptyGraph) <==> |h.nodes| == 0
    ensures r == Success(None) <==> |h.nodes| > 0 && Connected(h)
    ensures r.Success? && r.value.Some? ==> Distinct(r.value.value)
    ensures r.Success? && r.value.Some? ==> forall k :: k in r.value.value <==> CutEnd(g, h, k)
    ensures r.Failure? && |h.nodes| > 0 ==>
      r.error.UnknownNode? && r.error.id in h.adj && Degree(h, r.error.id) == 1 && r.error.id !in g.adj
    ensures (|h.nodes| > 0 && !Connected(h)) ==>
      (r.Failure? <==> exists k | k in h.adj :: Degree(h, k) == 1 && k !in g.adj)
  {
    if |h.nodes| == 0 then Failure(EmptyGraph)
    else if Connected(h) then Success(None)
    else
      var ends := CutEnds(g, h, h.nodes);
      if ends.Failure? then Failure(ends.error) else Success(Some(ends.value))
  }

  // ---------------------------------------------------------------------
  // get_potential_connection

  /** The squared horizontal distance between two positions. */
  function Horiz2(p: NxFc.Point, q: NxFc.Point): real
  {
    (q.x - p.x) * (q.x - p.x) + (q.y - p.y) * (q.y - p.y)
  }

  function Abs(x: real): real
  {
    if x < 0.0 then -x else x
  }

  /** `q` lies in the vertical cylinder around `p` of squared radius `rh2`
      reaching `rv` above and below it. */
  predicate InCylinder(p: NxFc.Point, q: NxFc.Point, rh2: real, rv: real)
  {
    Horiz2(p, q) <= rh2 && Abs(q.z - p.z) <= rv
  }

  /** Every node of `g` has a position. */
  predicate Placed(g: Graph, pos: map<NodeId, NxFc.Point>)
  {
    forall w | w in g.adj :: w in pos
  }

  /** `sel_ind_arr` before the exclusion: the nodes in the cylinder around
      `u`, in node order. */
  function Cylinder(g: Graph, pos: map<NodeId, NxFc.Point>, u: NodeId, rh2: real, rv: real): (sel: seq<NodeId>)
    requires Valid(g) && Placed(g, pos) && u in g.adj
    ensures forall w :: w in sel <==> w in g.adj && InCylinder(pos[u], pos[w], rh2, rv)
    ensures Distinct(sel)
  {
    Keep(g.nodes, set w | w in g.adj && InCylinder(pos[u], pos[w], rh2, rv))
  }

  /** The nodes `u` may be joined to: in the cylinder and more than `cut`
      edges away. */
  function Eligible(g: Graph, pos: map<NodeId, NxFc.Point>, u: NodeId, rh2: real, rv: real, cut: nat): set<NodeId>
    requires Placed(g, pos) && u in g.adj
  {
    set w | w in g.adj && InCylinder(pos[u], pos[w], rh2, rv) && w !in Ball(g, u, cut)
  }

  /** `np.argmin(d[sel])` mapped back to an index: the first index of a
      least `d[i]` among the indices with `ok[i]`, None when there is none. */
  function Nearest(d: seq<real>, ok: seq<bool>): (r: Option<nat>)
    requires |d| == |ok|
    ensures r.None? <==> forall j | 0 <= j < |ok| :: !ok[j]
    ensures r.Some? ==> r.value < |d| && ok[r.value]
    ensures r.Some? ==> forall j | 0 <= j < |d| && ok[j] :: d[r.value] <= d[j]
    ensures r.Some? ==> forall j | 0 <= j < r.value && ok[j] :: d[j] > d[r.value]
  {
    if |d| == 0 then None
    else
      var n := |d| - 1;
      var r0 := Nearest(d[..n], ok[..n]);
      if !ok[n] then r0
      else if r0.None? || d[n] < d[r0.value] then Some(n)
      else r0
  }

  /** `disth2`: the squared horizontal distance from `c` to the position
      of every node of `s`, in order. */
  function Distances(pos: map<NodeId, NxFc.Point>, c: NxFc.Point, s: seq<NodeId>): (d: seq<real>)
    requires forall i | 0 <= i < |s| :: s[i] in pos
    ensures |d| == |s| && forall i | 0 <= i < |s| :: d[i] == Horiz2(c, pos[s[i]])
  {
    seq(|s|, i requires 0 <= i < |s| => Horiz2(c, pos[s[i]]))
  }

  /** Every node in the node order has a position. */
  lemma PlacedNodes(g: Graph, pos: map<NodeId, NxFc.Point>)
    requires Valid(g) && Placed(g, pos)
    ensures forall i | 0 <= i < |g.nodes| :: g.nodes[i] in g.adj && g.nodes[i] in pos
  {
    forall i | 0 <= i < |g.nodes| ensures g.nodes[i] in g.adj && g.nodes[i] in pos {
      var w := g.nodes[i];
      assert w in g.nodes;
      assert w in g.adj;
    }
  }

  /** The node of `s` nearest to `c` horizontally among those in `elig`,
      the first in `s` on a tie; None when `s` has no eligible node. */
  function NearestOf(pos: map<NodeId, NxFc.Point>, c: NxFc.Point, s: seq<NodeId>, elig: set<NodeId>): (r: Option<NodeId>)
    requires forall i | 0 <= i < |s| :: s[i] in pos
    ensures r.None? <==> forall i | 0 <= i < |s| :: s[i] !in elig
    ensures r.Some? ==> r.value in s && r.value in elig && r.value in pos
    ensures r.Some? ==> forall i | 0 <= i < |s| && s[i] in elig :: Horiz2(c, pos[r.value]) <= Horiz2(c, pos[s[i]])
    ensures r.Some? && Distinct(s) ==>
      forall i, j | 0 <= j < i < |s| && s[i] == r.value && s[j] in elig :: Horiz2(c, pos[s[j]]) > Horiz2(c, pos[r.value])
  {
    var d := Distances(pos, c, s);
    var ok := seq(|s|, j requires 0 <= j < |s| => s[j] in elig);
    assert forall j | 0 <= j < |s| :: ok[j] == (s[j] in elig);
    var i := Nearest(d, ok);
    if i.None? then None
    else
      assert Distinct(s) ==> forall k | 0 <= k < |s| && s[k] == s[i.value] :: k == i.value;
      Some(s[i.value])
  }

  /** networkx's `cutoff` stops the search at the source for any bound of
      zero or less. */
  function Cutoff(k: int): nat
  {
    if k < 0 then 0 else k
  }

  /** The connection proposed for node `u`, if any: `u` must have degree
      `nodeDeg` and more than one node (itself included) in its cylinder;
      the partner is then the nearest eligible node. */
  function Connection(g: Graph, pos: map<NodeId, NxFc.Point>, u: NodeId, rh2: real, rv: real, nodeDeg: int, cut: nat): (r: Option<NodeId>)
    requires Valid(g) && Placed(g, pos) && u in g.adj
    ensures r.Some? ==> r.value in g.adj
  {
    if Degree(g, u) != nodeDeg then None
    else if |Cylinder(g, pos, u, rh2, rv)| <= 1 then None
    else
      PlacedNodes(g, pos);
      NearestOf(pos, pos[u], g.nodes, Eligible(g, pos, u, rh2, rv, cut))
  }

  /** What `Connection` proposes: a partner exists exactly when `u` has
      degree `nodeDeg`, its cylinder holds more than one node and some node
      is eligible; the partner is eligible, differs from `u`, is nearest
      among the eligible nodes and is the first such in node order. */
  lemma ConnectionSpec(g: Graph, pos: map<NodeId, NxFc.Point>, u: NodeId, rh2: real, rv: real, nodeDeg: int, cut: nat)
    requires Valid(g) && Placed(g, pos) && u in g.adj
    ensures var r := Connection(g, pos, u, rh2, rv, nodeDeg, cut);
      r.Some? <==> Degree(g, u) == nodeDeg && |Cylinder(g, pos, u, rh2, rv)| > 1 && Eligible(g, pos, u, rh2, rv, cut) != {}
    ensures var r := Connection(g, pos, u, rh2, rv, nodeDeg, cut);
      r.Some? ==> var v := r.value;
      && v != u && v in Eligible(g, pos, u, rh2, rv, cut)
      && (forall w | w in Eligible(g, pos, u, rh2, rv, cut) :: Horiz2(pos[u], pos[v]) <= Horiz2(pos[u], pos[w]))
      && (forall i, j | 0 <= j < i < |g.nodes| && g.nodes[i] == v && g.nodes[j] in Eligible(g, pos, u, rh2, rv, cut) ::
            Horiz2(pos[u], pos[g.nodes[j]]) > Horiz2(pos[u], pos[v]))
  {
    var elig := Eligible(g, pos, u, rh2, rv, cut);
    assert u in Ball(g, u, cut);
    PlacedNodes(g, pos);
    forall w | w in elig ensures exists k :: 0 <= k < |g.nodes| && g.nodes[k] == w {
      assert w in g.nodes;
    }
  }

  /** The first ends of a list of edges. */
  function Firsts(es: seq<(NodeId, NodeId)>): (us: seq<NodeId>)
    ensures |us| == |es| && forall i | 0 <= i < |es| :: us[i] == es[i].0
  {
    seq(|es|, i requires 0 <= i < |es| => es[i].0)
  }

  /** The loop of `get_potential_connection` over the nodes `s`, given
      the proposal `prop[u]` for every node: one edge per node that has a
      proposal, in the order of `s`. */
  function Collect(s: seq<NodeId>, prop: map<NodeId, Option<NodeId>>): (es: seq<(NodeId, NodeId)>)
    requires forall u | u in s :: u in prop
    ensures forall e | e in es :: e.0 in s && e.0 in prop && prop[e.0] == Some(e.1)
    ensures forall u | u in s && prop[u].Some? :: (u, prop[u].value) in es
    ensures Subseq(Firsts(es), s)
    ensures Distinct(s) ==> Distinct(Firsts(es))
  {
    if |s| == 0 then []
    else
      var u := s[0];
      assert forall w | w in s :: w == u || w in s[1..];
      var rest := Collect(s[1..], prop);
      if prop[u].None? then rest
      else
        var es := [(u, prop[u].value)] + rest;
        assert Firsts(es)[1..] == Firsts(rest);
        assert Distinct(s) ==> u !in s[1..];
        es
  }

  /** `get_potential_connection(G, dist_horiz_max, dist_vert_max, node_deg,
      exclude_neighbors_up_to_edge)`: the list of proposed edges, at most
      one per node, in node order. */
  function GetPotentialConnection(g: Graph, pos: map<NodeId, NxFc.Point>, distHoriz: real, distVert: real, nodeDeg: int, exclude: int)
    : (es: seq<(NodeId, NodeId)>)
    requires Valid(g) && Placed(g, pos)
    ensures Subseq(Firsts(es), g.nodes) && Distinct(Firsts(es))
    ensures forall e | e in es :: e.0 in g.adj && Connection(g, pos, e.0, distHoriz * distHoriz, distVert, nodeDeg, Cutoff(exclude)) == Some(e.1)
    ensures forall u | u in g.adj :: var c := Connection(g, pos, u, distHoriz * distHoriz, distVert, nodeDeg, Cutoff(exclude));
      c.Some? ==> (u, c.value) in es
  {
    assert forall u | u in g.nodes :: u in g.adj;
    Collect(g.nodes, map u | u in g.adj :: Connection(g, pos, u, distHoriz * distHoriz, distVert, nodeDeg, Cutoff(exclude)))
  }

  /** Every proposed edge (u, v) starts at a node of degree `nodeDeg` and
      ends at a node other than `u`, in its cylinder, more than
      `exclude` edges away, and horizontally nearest among such nodes. */
  lemma PotentialConnectionSound(g: Graph, pos: map<NodeId, NxFc.Point>, distHoriz: real, distVert: real, nodeDeg: int, exclude: int,
                                 u: NodeId, v: NodeId)
    requires Valid(g) && Placed(g, pos)
    requires (u, v) in GetPotentialConnection(g, pos, distHoriz, distVert, nodeDeg, exclude)
    ensures u in g.adj && v in g.adj && u != v
    ensures Degree(g, u) == nodeDeg
    ensures InCylinder(pos[u], pos[v], distHoriz * distHoriz, distVert)
    ensures v !in Ball(g, u, Cutoff(exclude))
    ensures forall w | w in g.adj && InCylinder(pos[u], pos[w], distHoriz * distHoriz, distVert) && w !in Ball(g, u, Cutoff(exclude)) ::
      Horiz2(pos[u], pos[v]) <= Horiz2(pos[u], pos[w])
  {
    ConnectionSpec(g, pos, u, distHoriz * distHoriz, distVert, nodeDeg, Cutoff(exclude));
    var elig := Eligible(g, pos, u, distHoriz * distHoriz, distVert, Cutoff(exclude));
    assert forall w | w in g.adj && InCylinder(pos[u], pos[w], distHoriz * distHoriz, distVert) && w !in Ball(g, u, Cutoff(exclude)) :: w in elig;
  }
}
