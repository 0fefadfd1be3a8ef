/** The flag bookkeeping and cleaning of `utils/cleaning_fc.py`: adding
    survey edges, tagging nodes and edges with string flags, and removing
    the edges whose flags mark them for removal. */
module Cleaning {
  import opened Wrappers
  import opened Seqs
  import opened Graphs
  import NxFc

  type Flag = string

  /** A cave graph with its `flags` attributes. A node or an edge that
      has no `flags` attribute is absent from the corresponding map. */
  datatype CaveGraph = CaveGraph(g: Graph, nodeFlags: map<NodeId, seq<Flag>>, edgeFlags: map<EdgeKey, seq<Flag>>)

  /** Attributes belong to nodes and edges that exist. */
  ghost predicate Valid(c: CaveGraph)
  {
    && Graphs.Valid(c.g)
    && (forall n | n in c.nodeFlags :: n in c.g.adj)
    && (forall k | k in c.edgeFlags :: k in Edges(c.g))
  }

  /** The flags stored in `m` under `k`; none when `k` has no `flags`
      attribute. */
  function FlagsOf<K>(m: map<K, seq<Flag>>, k: K): seq<Flag>
  {
    if k in m then m[k] else []
  }

  // ---------------------------------------------------------------------
  // Node identifiers

  /** The KeyErrors the cleaning functions can raise. */
  datatype CleanError = UnknownAddress(name: string) | UnknownNode(id: NodeId)

  /** `dict_address`: for every current node id, the older identifiers
      (station full addresses) that were merged into it, as the items of
      the dictionary in insertion order. */
  type AddressBook = seq<(NodeId, seq<string>)>

  /** How a caller names a node: a current id used as is (no
      `dict_address`), or an old identifier translated through the
      inverted `dict_address`. */
  function Direct(id: NodeId): (r: Result<NodeId, CleanError>)
    ensures r == Success(id)
  {
    Success(id)
  }

  /** `inverse_dict_address[name]`: the current id that `name` was merged
      into (the last one listing it); a KeyError when none lists it. */
  function ViaAddress(book: AddressBook, name: string): (r: Result<NodeId, CleanError>)
    ensures r.Failure? <==> forall i | 0 <= i < |book| :: name !in book[i].1
    ensures r.Failure? ==> r.error == UnknownAddress(name)
    ensures r.Success? ==> exists i :: NxFc.LastListing(book, name, i) && book[i].0 == r.value
  {
    var inverse := NxFc.Invert(book);
    if name in inverse then Success(inverse[name]) else Failure(UnknownAddress(name))
  }

  /** Resolves both endpoints of a requested edge, the first one first. */
  function ResolvePair<R>(resolve: R -> Result<NodeId, CleanError>, e: (R, R)): (r: Result<(NodeId, NodeId), CleanError>)
    ensures r.Success? <==> resolve(e.0).Success? && resolve(e.1).Success?
    ensures r.Success? ==> r.value == (resolve(e.0).value, resolve(e.1).value)
    ensures r.Failure? ==> r.error == if resolve(e.0).Failure? then resolve(e.0).error else resolve(e.1).error
  {
    match resolve(e.0)
    case Failure(err) => Failure(err)
    case Success(u) =>
      match resolve(e.1)
      case Failure(err) => Failure(err)
      case Success(v) => Success((u, v))
  }

  /** Resolves every request in order, as the loops of the cleaning
      functions do: the first request that does not resolve is the
      error. */
  function ResolveEach<X, Y>(xs: seq<X>, res: X -> Result<Y, CleanError>): (r: Result<seq<Y>, CleanError>)
    ensures r.Success? <==> forall i | 0 <= i < |xs| :: res(xs[i]).Success?
    ensures r.Success? ==> |r.value| == |xs|
    ensures r.Success? ==> forall i | 0 <= i < |xs| :: res(xs[i]) == Success(r.value[i])
    ensures r.Failure? ==> exists i | 0 <= i < |xs| ::
      res(xs[i]) == Failure(r.error) && forall j | 0 <= j < i :: res(xs[j]).Success?
  {
    if |xs| == 0 then Success([])
    else
      assert forall i | 0 <= i < |xs| - 1 :: xs[1..][i] == xs[i + 1];
      match res(xs[0])
      case Failure(err) => Failure(err)
      case Success(y) =>
        match ResolveEach(xs[1..], res)
        case Failure(err) =>
          var i :| 0 <= i < |xs| - 1 && res(xs[1..][i]) == Failure(err) &&
            forall j | 0 <= j < i :: res(xs[1..][j]).Success?;
          assert forall j | 0 <= j < i + 1 :: res(xs[j]).Success? by {
            forall j | 0 <= j < i + 1 ensures res(xs[j]).Success? {
              if j > 0 { assert xs[j] == xs[1..][j - 1]; }
            }
          }
          Failure(err)
        case Success(ys) =>
          assert forall i | 0 <= i < |xs| :: res(xs[i]).Success? by {
            forall i | 0 <= i < |xs| ensures res(xs[i]).Success? {
              if i > 0 { assert xs[i] == xs[1..][i - 1]; }
            }
          }
          Success([y] + ys)
  }

  /** The requests of a dictionary `{flag: [item, ...], ...}`, flag by
      flag in insertion order and item by item within a flag. */
  function Requests<X>(d: seq<(Flag, seq<X>)>): (r: seq<(Flag, X)>)
    ensures forall i, j | 0 <= i < |d| && 0 <= j < |d[i].1| :: (d[i].0, d[i].1[j]) in r
    ensures forall q | q in r :: exists i | 0 <= i < |d| :: q.0 == d[i].0 && q.1 in d[i].1
  {
    if |d| == 0 then []
    else
      var (f, l) := d[0];
      var here := seq(|l|, j requires 0 <= j < |l| => (f, l[j]));
      var rest := Requests(d[1..]);
      assert forall i | 0 <= i < |d| - 1 :: d[1..][i] == d[i + 1];
      assert forall i, j | 0 <= i < |d| && 0 <= j < |d[i].1| :: (d[i].0, d[i].1[j]) in here + rest by {
        forall i, j | 0 <= i < |d| && 0 <= j < |d[i].1| ensures (d[i].0, d[i].1[j]) in here + rest {
          if i == 0 {
            assert here[j] == (d[i].0, d[i].1[j]);
          } else {
            assert d[i] == d[1..][i - 1];
          }
        }
      }
      here + rest
  }

  /** The requests of one flag are its items in order, each paired with
      the flag. */
  lemma RequestsSingle<X>(f: Flag, l: seq<X>)
    ensures |Requests([(f, l)])| == |l|
    ensures forall j | 0 <= j < |l| :: Requests([(f, l)])[j] == (f, l[j])
  {
    assert [(f, l)][1..] == [];
  }

  /** The requests of two dictionaries one after the other are those of
      the first followed by those of the second: together with
      `RequestsSingle` this fixes the order and the count of the requests. */
  lemma {:induction false} RequestsAppend<X>(d1: seq<(Flag, seq<X>)>, d2: seq<(Flag, seq<X>)>)
    ensures Requests(d1 + d2) == Requests(d1) + Requests(d2)
  {
    if |d1| == 0 {
      assert d1 + d2 == d2;
    } else {
      assert (d1 + d2)[0] == d1[0];
      assert (d1 + d2)[1..] == d1[1..] + d2;
      RequestsAppend(d1[1..], d2);
    }
  }

  /** The flags that requests attach to `k`, in request order. */
  function Listed<K(==)>(reqs: seq<(Flag, K)>, k: K): seq<Flag>
  {
    if |reqs| == 0 then []
    else Listed(reqs[..|reqs| - 1], k) + (if reqs[|reqs| - 1].1 == k then [reqs[|reqs| - 1].0] else [])
  }

  // ---------------------------------------------------------------------
  // add_edges

  /** The edge named by a resolved pair. */
  function PairKey(p: (NodeId, NodeId)): EdgeKey
  {
    Key(p.0, p.1)
  }

  function PairKeys(ps: seq<(NodeId, NodeId)>): set<EdgeKey>
  {
    set i | 0 <= i < |ps| :: PairKey(ps[i])
  }

  function Endpoints(ps: seq<(NodeId, NodeId)>): set<NodeId>
  {
    (set i | 0 <= i < |ps| :: ps[i].0) + (set i | 0 <= i < |ps| :: ps[i].1)
  }

  /** Creates edge u-v (and missing endpoints) and sets its `flags`. */
  function SetEdgeFlags(c: CaveGraph, u: NodeId, v: NodeId, flags: seq<Flag>): (r: CaveGraph)
    requires Valid(c)
    ensures Valid(r)
    ensures HasEdge(r.g, u, v) && r.edgeFlags == c.edgeFlags[Key(u, v) := flags]
    ensures forall a, b | HasEdge(c.g, a, b) :: HasEdge(r.g, a, b)
    ensures r.nodeFlags == c.nodeFlags
    ensures Edges(r.g) == Edges(c.g) + {Key(u, v)}
    ensures r.g.adj.Keys == c.g.adj.Keys + {u, v}
    ensures |r.g.nodes| >= |c.g.nodes| && r.g.nodes[..|c.g.nodes|] == c.g.nodes
  {
    CaveGraph(AddEdge(c.g, u, v), c.nodeFlags, c.edgeFlags[Key(u, v) := flags])
  }

  /** The loop of `add_edges` over already resolved pairs. */
  function InsertEdges(c: CaveGraph, ps: seq<(NodeId, NodeId)>, flag: Flag): (r: CaveGraph)
    requires Valid(c)
    ensures Valid(r) && r.nodeFlags == c.nodeFlags
    ensures forall i | 0 <= i < |ps| :: HasEdge(r.g, ps[i].0, ps[i].1)
    ensures r.edgeFlags == c.edgeFlags + map k | k in PairKeys(ps) :: [flag]
    ensures Edges(r.g) == Edges(c.g) + PairKeys(ps)
    ensures r.g.adj.Keys == c.g.adj.Keys + Endpoints(ps)
    ensures |r.g.nodes| >= |c.g.nodes| && r.g.nodes[..|c.g.nodes|] == c.g.nodes
  {
    if |ps| == 0 then
      assert PairKeys(ps) == {} && Endpoints(ps) == {};
      c
    else
      var n := |ps| - 1;
      var mid := InsertEdges(c, ps[..n], flag);
      var r := SetEdgeFlags(mid, ps[n].0, ps[n].1, [flag]);
      InsertEdgesStep(ps, ps[..n], n);
      InsertEdgesHas(ps, n, mid.g, r.g);
      FlagMapGrows(c.edgeFlags, PairKeys(ps[..n]), PairKey(ps[n]), [flag]);
      PrefixOfPrefix(c.g.nodes, mid.g.nodes, r.g.nodes);
      GrowBy(Edges(c.g), PairKeys(ps[..n]), Edges(mid.g), {PairKey(ps[n])}, Edges(r.g), PairKeys(ps));
      GrowBy(c.g.adj.Keys, Endpoints(ps[..n]), mid.g.adj.Keys, {ps[n].0, ps[n].1}, r.g.adj.Keys, Endpoints(ps));
      r
  }

  lemma GrowBy<T>(base: set<T>, added: set<T>, mid: set<T>, more: set<T>, last: set<T>, all: set<T>)
    requires mid == base + added && last == mid + more && all == added + more
    ensures last == base + all
  {
  }

  lemma FlagMapGrows<K>(m: map<K, seq<Flag>>, s: set<K>, k: K, flags: seq<Flag>)
    ensures (m + map x | x in s :: flags)[k := flags] == m + map x | x in s + {k} :: flags
  {
  }

  lemma InsertEdgesHas(ps: seq<(NodeId, NodeId)>, n: nat, mid: Graph, r: Graph)
    requires n == |ps| - 1
    requires forall i | 0 <= i < |ps[..n]| :: HasEdge(mid, ps[..n][i].0, ps[..n][i].1)
    requires forall u, v | HasEdge(mid, u, v) :: HasEdge(r, u, v)
    requires HasEdge(r, ps[n].0, ps[n].1)
    ensures forall i | 0 <= i < |ps| :: HasEdge(r, ps[i].0, ps[i].1)
  {
    forall i | 0 <= i < |ps| ensures HasEdge(r, ps[i].0, ps[i].1) {
      if i < n {
        assert ps[..n][i] == ps[i];
      }
    }
  }

  lemma InsertEdgesStep(ps: seq<(NodeId, NodeId)>, init: seq<(NodeId, NodeId)>, n: nat)
    requires n < |ps| && init == ps[..n] && n == |ps| - 1
    ensures PairKeys(ps) == PairKeys(init) + {PairKey(ps[n])}
    ensures Endpoints(ps) == Endpoints(init) + {ps[n].0, ps[n].1}
  {
    assert forall i | 0 <= i < n :: init[i] == ps[i];
    forall k | k in PairKeys(ps) ensures k in PairKeys(init) + {PairKey(ps[n])} {
      var i :| 0 <= i < |ps| && PairKey(ps[i]) == k;
      if i < n { assert PairKey(init[i]) == k; }
    }
  }

  /** `add_edges(G, additional_edges, dict_address, flag)`: every
      requested edge is created (with any missing endpoint) and its
      `flags` set to exactly `[flag]`, replacing any flags it had; every
      other edge keeps its flags. An identifier that does not resolve
      raises a KeyError (the first such one in request order, as
      `ResolveEach` states). */
  function AddEdges<R>(c: CaveGraph, edges: seq<(R, R)>, resolve: R -> Result<NodeId, CleanError>, flag: Flag): (r: Result<CaveGraph, CleanError>)
    requires Valid(c)
    ensures r.Success? <==> ResolvedEdges(edges, resolve).Success?
    ensures r.Failure? ==> r.error == ResolvedEdges(edges, resolve).error
    ensures r.Success? ==>
      var ps := ResolvedEdges(edges, resolve).value;
      && Valid(r.value)
      && r.value.nodeFlags == c.nodeFlags
      && (forall i | 0 <= i < |ps| :: HasEdge(r.value.g, ps[i].0, ps[i].1))
      && r.value.edgeFlags == c.edgeFlags + (map k | k in PairKeys(ps) :: [flag])
      && Edges(r.value.g) == Edges(c.g) + PairKeys(ps)
      && r.value.g.adj.Keys == c.g.adj.Keys + Endpoints(ps)
      && |r.value.g.nodes| >= |c.g.nodes| && r.value.g.nodes[..|c.g.nodes|] == c.g.nodes
  {
    match ResolvedEdges(edges, resolve)
    case Failure(err) => Failure(err)
    case Success(ps) => Success(InsertEdges(c, ps, flag))
  }

  /** The requested edges with both endpoints resolved. */
  function ResolvedEdges<R>(edges: seq<(R, R)>, resolve: R -> Result<NodeId, CleanError>): Result<seq<(NodeId, NodeId)>, CleanError>
  {
    ResolveEach(edges, e => ResolvePair(resolve, e))
  }

  /** After `add_edges`, each requested edge exists and carries exactly
      `[flag]`, whatever it carried before. */
  lemma AddedEdgesCarryFlag<R>(c: CaveGraph, edges: seq<(R, R)>, resolve: R -> Result<NodeId, CleanError>, flag: Flag, i: nat)
    requires Valid(c) && AddEdges(c, edges, resolve, flag).Success? && i < |edges|
    ensures ResolvePair(resolve, edges[i]).Success?
    ensures var p := ResolvePair(resolve, edges[i]).value;
      var r := AddEdges(c, edges, resolve, flag).value;
      HasEdge(r.g, p.0, p.1) && PairKey(p) in r.edgeFlags && r.edgeFlags[PairKey(p)] == [flag]
  {
    var ps := ResolvedEdges(edges, resolve).value;
    assert PairKey(ps[i]) in PairKeys(ps);
  }

  // ---------------------------------------------------------------------
  // flag_nodes

  /** Resolves a node request and checks that the node exists:
      `G.nodes('flags')[id]` raises a KeyError for a missing node. The
      node set never changes while flags are added, so checking every
      request before applying any of them finds the same first error. */
  function ResolveNode<R>(c: CaveGraph, resolve: R -> Result<NodeId, CleanError>, q: (Flag, R)): (r: Result<(Flag, NodeId), CleanError>)
    ensures r.Success? <==> resolve(q.1).Success? && resolve(q.1).value in c.g.adj
    ensures r.Success? ==> r.value == (q.0, resolve(q.1).value)
    ensures r.Failure? && resolve(q.1).Failure? ==> r.error == resolve(q.1).error
    ensures r.Failure? && resolve(q.1).Success? ==> r.error == UnknownNode(resolve(q.1).value)
  {
    match resolve(q.1)
    case Failure(err) => Failure(err)
    case Success(n) => if n in c.g.adj then Success((q.0, n)) else Failure(UnknownNode(n))
  }

  /** The node requests of `flagged_nodes`, resolved to existing nodes. */
  function ResolvedNodes<R>(c: CaveGraph, flagged: seq<(Flag, seq<R>)>, resolve: R -> Result<NodeId, CleanError>): Result<seq<(Flag, NodeId)>, CleanError>
  {
    ResolveEach(Requests(flagged), q => ResolveNode(c, resolve, q))
  }

  /** The nodes that some request names. */
  function Named<K>(reqs: seq<(Flag, K)>): set<K>
  {
    set i | 0 <= i < |reqs| :: reqs[i].1
  }

  /** The loop of `flag_nodes` over resolved requests: a node without
      flags gets `[flag]`, a node with flags gets `flag` appended. */
  function ApplyNodeFlags(c: CaveGraph, reqs: seq<(Flag, NodeId)>): (r: CaveGraph)
    requires Valid(c) && forall i | 0 <= i < |reqs| :: reqs[i].1 in c.g.adj
    ensures Valid(r) && r.g == c.g && r.edgeFlags == c.edgeFlags
    ensures forall n :: FlagsOf(r.nodeFlags, n) == FlagsOf(c.nodeFlags, n) + Listed(reqs, n)
    ensures r.nodeFlags.Keys == c.nodeFlags.Keys + Named(reqs)
  {
    if |reqs| == 0 then
      assert Named(reqs) == {};
      c
    else
      var m := |reqs| - 1;
      assert forall i | 0 <= i < m :: reqs[..m][i] == reqs[i];
      var mid := ApplyNodeFlags(c, reqs[..m]);
      var (f, n) := reqs[m];
      var flags := if n !in mid.nodeFlags then [f] else mid.nodeFlags[n] + [f];
      var r := mid.(nodeFlags := mid.nodeFlags[n := flags]);
      FlagMapStep(c.nodeFlags, mid.nodeFlags, reqs, flags, r.nodeFlags);
      FlagKeysStep(c.nodeFlags, mid.nodeFlags, reqs, flags, r.nodeFlags);
      r
  }

  /** The last request of `ApplyNodeFlags` keeps its contract on the
      flag maps. */
  lemma FlagMapStep<K>(base: map<K, seq<Flag>>, mid: map<K, seq<Flag>>, reqs: seq<(Flag, K)>, flags: seq<Flag>, last: map<K, seq<Flag>>)
    requires |reqs| > 0
    requires forall x :: FlagsOf(mid, x) == FlagsOf(base, x) + Listed(reqs[..|reqs| - 1], x)
    requires flags == if reqs[|reqs| - 1].1 !in mid then [reqs[|reqs| - 1].0] else mid[reqs[|reqs| - 1].1] + [reqs[|reqs| - 1].0]
    requires last == mid[reqs[|reqs| - 1].1 := flags]
    ensures forall x :: FlagsOf(last, x) == FlagsOf(base, x) + Listed(reqs, x)
  {
    var (f, k) := reqs[|reqs| - 1];
    assert flags == FlagsOf(mid, k) + [f];
    AppendFlagStep(base, mid, last, reqs, k, f);
  }

  /** The keys of the flag map after the last request of `ApplyNodeFlags`. */
  lemma FlagKeysStep<K>(base: map<K, seq<Flag>>, mid: map<K, seq<Flag>>, reqs: seq<(Flag, K)>, flags: seq<Flag>, last: map<K, seq<Flag>>)
    requires |reqs| > 0
    requires mid.Keys == base.Keys + Named(reqs[..|reqs| - 1])
    requires last == mid[reqs[|reqs| - 1].1 := flags]
    ensures last.Keys == base.Keys + Named(reqs)
  {
    NamedStep(reqs, |reqs| - 1);
  }

  /** One more request appends its flag to its node and to nothing else. */
  lemma AppendFlagStep<K>(base: map<K, seq<Flag>>, mid: map<K, seq<Flag>>, last: map<K, seq<Flag>>, reqs: seq<(Flag, K)>, k: K, f: Flag)
    requires |reqs| > 0 && reqs[|reqs| - 1] == (f, k)
    requires forall x :: FlagsOf(mid, x) == FlagsOf(base, x) + Listed(reqs[..|reqs| - 1], x)
    requires last == mid[k := FlagsOf(mid, k) + [f]]
    ensures forall x :: FlagsOf(last, x) == FlagsOf(base, x) + Listed(reqs, x)
  {
    forall x ensures FlagsOf(last, x) == FlagsOf(base, x) + Listed(reqs, x) {
      AppendFlagAt(FlagsOf(base, x), FlagsOf(mid, x), FlagsOf(last, x), Listed(reqs[..|reqs| - 1], x), Listed(reqs, x), x == k, f);
    }
  }

  /** The flags of one node after one more request: `f` is appended when
      the request names the node. */
  lemma AppendFlagAt(prior: seq<Flag>, mid: seq<Flag>, last: seq<Flag>, before: seq<Flag>, after: seq<Flag>, named: bool, f: Flag)
    requires mid == prior + before
    requires after == before + (if named then [f] else [])
    requires last == if named then mid + [f] else mid
    ensures last == prior + after
  {
  }

  lemma NamedStep<K>(reqs: seq<(Flag, K)>, m: nat)
    requires m == |reqs| - 1
    ensures Named(reqs) == Named(reqs[..m]) + {reqs[m].1}
  {
    assert forall i | 0 <= i < m :: reqs[..m][i] == reqs[i];
    forall k | k in Named(reqs) ensures k in Named(reqs[..m]) + {reqs[m].1} {
      var i :| 0 <= i < |reqs| && reqs[i].1 == k;
      if i < m { assert reqs[..m][i].1 == k; }
    }
  }

  /** A flag is listed for `k` exactly when some request attaches it to
      `k`. */
  lemma {:induction false} ListedMember<K>(reqs: seq<(Flag, K)>, k: K, f: Flag)
    ensures f in Listed(reqs, k) <==> exists i | 0 <= i < |reqs| :: reqs[i] == (f, k)
  {
    if |reqs| > 0 {
      var m := |reqs| - 1;
      ListedMember(reqs[..m], k, f);
      assert forall i | 0 <= i < m :: reqs[..m][i] == reqs[i];
      if f in Listed(reqs, k) && f !in Listed(reqs[..m], k) {
        assert reqs[m] == (f, k);
      }
    }
  }

  /** `flag_nodes(G, flagged_nodes, dict_address)`: every node keeps its
      flags and gains, in request order, the flags that the requests
      attach to it; the graph and the edge flags are untouched. The first
      request whose identifier does not resolve, or whose node is not in
      the graph, raises a KeyError. */
  function FlagNodes<R>(c: CaveGraph, flagged: seq<(Flag, seq<R>)>, resolve: R -> Result<NodeId, CleanError>): (r: Result<CaveGraph, CleanError>)
    requires Valid(c)
    ensures r.Success? <==> ResolvedNodes(c, flagged, resolve).Success?
    ensures r.Failure? ==> r.error == ResolvedNodes(c, flagged, resolve).error
    ensures r.Success? ==>
      var reqs := ResolvedNodes(c, flagged, resolve).value;
      && Valid(r.value) && r.value.g == c.g && r.value.edgeFlags == c.edgeFlags
      && (forall n :: FlagsOf(r.value.nodeFlags, n) == FlagsOf(c.nodeFlags, n) + Listed(reqs, n))
      && r.value.nodeFlags.Keys == c.nodeFlags.Keys + Named(reqs)
  {
    match ResolvedNodes(c, flagged, resolve)
    case Failure(err) => Failure(err)
    case Success(reqs) =>
      assert forall i | 0 <= i < |reqs| :: reqs[i].1 in c.g.adj;
      Success(ApplyNodeFlags(c, reqs))
  }

  /** After `flag_nodes`, every listed node keeps its old flags in front
      and carries the flag it was listed under. */
  lemma FlaggedNodeCarriesFlag<R>(c: CaveGraph, flagged: seq<(Flag, seq<R>)>, resolve: R -> Result<NodeId, CleanError>, i: nat, j: nat)
    requires Valid(c) && FlagNodes(c, flagged, resolve).Success?
    requires i < |flagged| && j < |flagged[i].1|
    ensures resolve(flagged[i].1[j]).Success?
    ensures var n := resolve(flagged[i].1[j]).value;
      var flags := FlagsOf(FlagNodes(c, flagged, resolve).value.nodeFlags, n);
      && n in c.g.adj
      && flags[..|FlagsOf(c.nodeFlags, n)|] == FlagsOf(c.nodeFlags, n)
      && flagged[i].0 in flags
  {
    var all := Requests(flagged);
    var reqs := ResolvedNodes(c, flagged, resolve).value;
    var q := (flagged[i].0, flagged[i].1[j]);
    assert q in all;
    var k :| 0 <= k < |all| && all[k] == q;
    assert ResolveNode(c, resolve, all[k]) == Success(reqs[k]);
    var n := resolve(flagged[i].1[j]).value;
    ListedMember(reqs, n, flagged[i].0);
  }

  // ---------------------------------------------------------------------
  // flag_edges

  /** The edge requests of `flagged_edges`, both endpoints resolved. */
  function ResolvedEdgeRequests<R>(flagged: seq<(Flag, seq<(R, R)>)>, resolve: R -> Result<NodeId, CleanError>): Result<seq<(Flag, (NodeId, NodeId))>, CleanError>
  {
    ResolveEach(Requests(flagged), (q: (Flag, (R, R))) =>
      match ResolvePair(resolve, q.1)
      case Failure(err) => Failure(err)
      case Success(p) => Success((q.0, p)))
  }

  /** The requested pairs. */
  function Pairs(reqs: seq<(Flag, (NodeId, NodeId))>): (r: seq<(NodeId, NodeId)>)
    ensures |r| == |reqs| && forall i | 0 <= i < |reqs| :: r[i] == reqs[i].1
  {
    seq(|reqs|, i requires 0 <= i < |reqs| => reqs[i].1)
  }

  /** The requests with each pair replaced by the edge it names. */
  function Keyed(reqs: seq<(Flag, (NodeId, NodeId))>): (r: seq<(Flag, EdgeKey)>)
    ensures |r| == |reqs| && forall i | 0 <= i < |reqs| :: r[i] == (reqs[i].0, PairKey(reqs[i].1))
  {
    seq(|reqs|, i requires 0 <= i < |reqs| => (reqs[i].0, PairKey(reqs[i].1)))
  }

  lemma KeyedStep(reqs: seq<(Flag, (NodeId, NodeId))>, m: nat)
    requires m == |reqs| - 1
    ensures Keyed(reqs)[..m] == Keyed(reqs[..m]) && Pairs(reqs)[..m] == Pairs(reqs[..m])
    ensures Named(Keyed(reqs)) == Named(Keyed(reqs[..m])) + {PairKey(reqs[m].1)}
    ensures Endpoints(Pairs(reqs)) == Endpoints(Pairs(reqs[..m])) + {reqs[m].1.0, reqs[m].1.1}
  {
    assert Keyed(reqs)[..m] == Keyed(reqs[..m]);
    assert Pairs(reqs)[..m] == Pairs(reqs[..m]);
    NamedStep(Keyed(reqs), m);
    InsertEdgesStep(Pairs(reqs), Pairs(reqs[..m]), m);
  }

  /** One iteration of the loop of `flag_edges`: an existing edge
      without flags gets `[flag]`, an existing edge with flags gets `flag`
      appended, and a missing edge is created (with any missing endpoint)
      carrying `[flag]`. In every case the edge ends up with its old flags
      followed by `flag`. */
  function FlagEdge(c: CaveGraph, f: Flag, p: (NodeId, NodeId)): (r: CaveGraph)
    requires Valid(c)
    ensures Valid(r) && r.nodeFlags == c.nodeFlags
    ensures r.edgeFlags == c.edgeFlags[PairKey(p) := FlagsOf(c.edgeFlags, PairKey(p)) + [f]]
    ensures HasEdge(r.g, p.0, p.1)
    ensures forall a, b | HasEdge(c.g, a, b) :: HasEdge(r.g, a, b)
    ensures Edges(r.g) == Edges(c.g) + {PairKey(p)}
    ensures r.g.adj.Keys == c.g.adj.Keys + {p.0, p.1}
    ensures |r.g.nodes| >= |c.g.nodes| && r.g.nodes[..|c.g.nodes|] == c.g.nodes
  {
    var k := PairKey(p);
    EdgeKeyIff(c.g, p.0, p.1);
    if HasEdge(c.g, p.0, p.1) then
      if k !in c.edgeFlags then
        assert FlagsOf(c.edgeFlags, k) + [f] == [f];
        c.(edgeFlags := c.edgeFlags[k := [f]])
      else c.(edgeFlags := c.edgeFlags[k := c.edgeFlags[k] + [f]])
    else
      assert k !in c.edgeFlags;
      assert FlagsOf(c.edgeFlags, k) + [f] == [f];
      SetEdgeFlags(c, p.0, p.1, [f])
  }

  /** The loop of `flag_edges` over resolved requests. */
  function ApplyEdgeFlags(c: CaveGraph, reqs: seq<(Flag, (NodeId, NodeId))>): (r: CaveGraph)
    requires Valid(c)
    ensures Valid(r) && r.nodeFlags == c.nodeFlags
    ensures forall k :: FlagsOf(r.edgeFlags, k) == FlagsOf(c.edgeFlags, k) + Listed(Keyed(reqs), k)
    ensures forall i | 0 <= i < |reqs| :: HasEdge(r.g, reqs[i].1.0, reqs[i].1.1)
    ensures forall a, b | HasEdge(c.g, a, b) :: HasEdge(r.g, a, b)
    ensures Edges(r.g) == Edges(c.g) + Named(Keyed(reqs))
    ensures r.g.adj.Keys == c.g.adj.Keys + Endpoints(Pairs(reqs))
    ensures |r.g.nodes| >= |c.g.nodes| && r.g.nodes[..|c.g.nodes|] == c.g.nodes
  {
    if |reqs| == 0 then
      assert Named(Keyed(reqs)) == {} && Endpoints(Pairs(reqs)) == {};
      c
    else
      var m := |reqs| - 1;
      var mid := ApplyEdgeFlags(c, reqs[..m]);
      var r := FlagEdge(mid, reqs[m].0, reqs[m].1);
      KeyedStep(reqs, m);
      AppendFlagStep(c.edgeFlags, mid.edgeFlags, r.edgeFlags, Keyed(reqs), PairKey(reqs[m].1), reqs[m].0);
      ApplyEdgeFlagsGraph(c.g, reqs, m, mid.g, r.g);
      r
  }

  lemma ApplyEdgeFlagsGraph(c: Graph, reqs: seq<(Flag, (NodeId, NodeId))>, m: nat, mid: Graph, r: Graph)
    requires m == |reqs| - 1
    requires forall i | 0 <= i < m :: HasEdge(mid, reqs[..m][i].1.0, reqs[..m][i].1.1)
    requires forall a, b | HasEdge(c, a, b) :: HasEdge(mid, a, b)
    requires Edges(mid) == Edges(c) + Named(Keyed(reqs[..m]))
    requires mid.adj.Keys == c.adj.Keys + Endpoints(Pairs(reqs[..m]))
    requires |mid.nodes| >= |c.nodes| && mid.nodes[..|c.nodes|] == c.nodes
    requires Named(Keyed(reqs)) == Named(Keyed(reqs[..m])) + {PairKey(reqs[m].1)}
    requires Endpoints(Pairs(reqs)) == Endpoints(Pairs(reqs[..m])) + {reqs[m].1.0, reqs[m].1.1}
    requires forall a, b | HasEdge(mid, a, b) :: HasEdge(r, a, b)
    requires HasEdge(r, reqs[m].1.0, reqs[m].1.1)
    requires Edges(r) == Edges(mid) + {PairKey(reqs[m].1)}
    requires r.adj.Keys == mid.adj.Keys + {reqs[m].1.0, reqs[m].1.1}
    requires |r.nodes| >= |mid.nodes| && r.nodes[..|mid.nodes|] == mid.nodes
    ensures forall i | 0 <= i < |reqs| :: HasEdge(r, reqs[i].1.0, reqs[i].1.1)
    ensures forall a, b | HasEdge(c, a, b) :: HasEdge(r, a, b)
    ensures Edges(r) == Edges(c) + Named(Keyed(reqs))
    ensures r.adj.Keys == c.adj.Keys + Endpoints(Pairs(reqs))
    ensures |r.nodes| >= |c.nodes| && r.nodes[..|c.nodes|] == c.nodes
  {
    var p := reqs[m].1;
    GrowBy(Edges(c), Named(Keyed(reqs[..m])), Edges(mid), {PairKey(p)}, Edges(r), Named(Keyed(reqs)));
    GrowBy(c.adj.Keys, Endpoints(Pairs(reqs[..m])), mid.adj.Keys, {p.0, p.1}, r.adj.Keys, Endpoints(Pairs(reqs)));
    PrefixOfPrefix(c.nodes, mid.nodes, r.nodes);
    forall i | 0 <= i < |reqs| ensures HasEdge(r, reqs[i].1.0, reqs[i].1.1) {
      if i < m {
        assert reqs[..m][i] == reqs[i];
      }
    }
  }

  /** `flag_edges(G, flagged_edges, dict_address)`: every edge keeps its
      flags and gains, in request order, the flags that the requests
      attach to it; a requested edge that did not exist is created, with
      any missing endpoint. Node flags are untouched. The only KeyError is
      an identifier that does not resolve, the first in request order. */
  function FlagEdges<R>(c: CaveGraph, flagged: seq<(Flag, seq<(R, R)>)>, resolve: R -> Result<NodeId, CleanError>): (r: Result<CaveGraph, CleanError>)
    requires Valid(c)
    ensures r.Success? <==> ResolvedEdgeRequests(flagged, resolve).Success?
    ensures r.Failure? ==> r.error == ResolvedEdgeRequests(flagged, resolve).error
    ensures r.Success? ==>
      var reqs := ResolvedEdgeRequests(flagged, resolve).value;
      && Valid(r.value) && r.value.nodeFlags == c.nodeFlags
      && (forall k :: FlagsOf(r.value.edgeFlags, k) == FlagsOf(c.edgeFlags, k) + Listed(Keyed(reqs), k))
      && (forall i | 0 <= i < |reqs| :: HasEdge(r.value.g, reqs[i].1.0, reqs[i].1.1))
      && Edges(r.value.g) == Edges(c.g) + Named(Keyed(reqs))
      && r.value.g.adj.Keys == c.g.adj.Keys + Endpoints(Pairs(reqs))
      && |r.value.g.nodes| >= |c.g.nodes| && r.value.g.nodes[..|c.g.nodes|] == c.g.nodes
  {
    match ResolvedEdgeRequests(flagged, resolve)
    case Failure(err) => Failure(err)
    case Success(reqs) => Success(ApplyEdgeFlags(c, reqs))
  }

  /** After `flag_edges`, every listed edge exists, keeps its old flags in
      front and carries the flag it was listed under. */
  lemma FlaggedEdgeCarriesFlag<R>(c: CaveGraph, flagged: seq<(Flag, seq<(R, R)>)>, resolve: R -> Result<NodeId, CleanError>, i: nat, j: nat)
    requires Valid(c) && FlagEdges(c, flagged, resolve).Success?
    requires i < |flagged| && j < |flagged[i].1|
    ensures ResolvePair(resolve, flagged[i].1[j]).Success?
    ensures var p := ResolvePair(resolve, flagged[i].1[j]).value;
      var r := FlagEdges(c, flagged, resolve).value;
      var flags := FlagsOf(r.edgeFlags, PairKey(p));
      && HasEdge(r.g, p.0, p.1)
      && flags[..|FlagsOf(c.edgeFlags, PairKey(p))|] == FlagsOf(c.edgeFlags, PairKey(p))
      && flagged[i].0 in flags
  {
    var all := Requests(flagged);
    var reqs := ResolvedEdgeRequests(flagged, resolve).value;
    var q := (flagged[i].0, flagged[i].1[j]);
    assert q in all;
    var k :| 0 <= k < |all| && all[k] == q;
    var p := ResolvePair(resolve, flagged[i].1[j]).value;
    assert reqs[k] == (flagged[i].0, p);
    assert Keyed(reqs)[k] == (flagged[i].0, PairKey(p));
    ListedMember(Keyed(reqs), PairKey(p), flagged[i].0);
  }

  // ---------------------------------------------------------------------
  // remove_flagged_edges

  /** The default `flags_to_remove`: surface, duplicate, remove,
      artificial and splay shots. */
  const DefaultFlagsToRemove: seq<Flag> := ["srf", "dpl", "rmv", "art", "spl"]

  /** Every flag that appears on some edge: the set the removal loop
      iterates over, computed once before it starts. */
  function PresentFlags(c: CaveGraph): set<Flag>
  {
    set k, f | k in c.edgeFlags && f in c.edgeFlags[k] :: f
  }

  /** The edges whose flags include `f`. */
  function Carrying(c: CaveGraph, f: Flag): set<EdgeKey>
  {
    set k | k in c.edgeFlags && f in c.edgeFlags[k]
  }

  /** The edges that carry at least one flag of `toRemove`. */
  function Removable(c: CaveGraph, toRemove: seq<Flag>): set<EdgeKey>
  {
    set k | k in c.edgeFlags && exists f | f in c.edgeFlags[k] :: f in toRemove
  }

  /** Removes the edges in `s`, with their flags, then the nodes left
      isolated, with theirs. */
  function DropEdges(c: CaveGraph, s: set<EdgeKey>): (r: CaveGraph)
    requires Valid(c)
    ensures Valid(r) && r.g == Prune(c.g, s)
    ensures forall n :: n in r.nodeFlags <==> n in c.nodeFlags && n in r.g.adj
    ensures forall n | n in r.nodeFlags :: r.nodeFlags[n] == c.nodeFlags[n]
    ensures forall k :: k in r.edgeFlags <==> k in c.edgeFlags && k !in s
    ensures forall k | k in r.edgeFlags :: r.edgeFlags[k] == c.edgeFlags[k]
  {
    var g := Prune(c.g, s);
    CaveGraph(g, map n | n in c.nodeFlags && n in g.adj :: c.nodeFlags[n], map k | k in c.edgeFlags && k !in s :: c.edgeFlags[k])
  }

  /** Dropping two edge sets one after the other drops their union. */
  lemma DropEdgesTwice(c: CaveGraph, s1: set<EdgeKey>, s2: set<EdgeKey>)
    requires Valid(c)
    ensures DropEdges(DropEdges(c, s1), s2) == DropEdges(c, s1 + s2)
  {
    var a := DropEdges(DropEdges(c, s1), s2);
    var b := DropEdges(c, s1 + s2);
    PruneTwice(c.g, s1, s2);
    SameMap(a.nodeFlags, b.nodeFlags);
    SameMap(a.edgeFlags, b.edgeFlags);
  }

  /** One iteration of the removal loop: a flag of `toRemove` drops the
      edges that carry it now and then the isolated nodes; any other flag
      does nothing. */
  function RemoveFlagStep(c: CaveGraph, toRemove: seq<Flag>, f: Flag): (r: CaveGraph)
    requires Valid(c)
    ensures Valid(r)
  {
    if f in toRemove then DropEdges(c, Carrying(c, f)) else c
  }

  /** The removal loop over the flags in iteration order. */
  function RemoveFlaggedLoop(c: CaveGraph, toRemove: seq<Flag>, order: seq<Flag>): (r: CaveGraph)
    requires Valid(c)
    ensures Valid(r)
    decreases |order|
  {
    if |order| == 0 then c
    else RemoveFlaggedLoop(RemoveFlagStep(c, toRemove, order[0]), toRemove, order[1..])
  }

  /** Some flag already processed is one to remove. */
  predicate Touched(toRemove: seq<Flag>, done: seq<Flag>)
  {
    exists i | 0 <= i < |done| :: done[i] in toRemove
  }

  /** The edges of `c0` carrying a processed flag that is one to remove. */
  function RemovedBy(c0: CaveGraph, toRemove: seq<Flag>, done: seq<Flag>): set<EdgeKey>
  {
    set k | k in c0.edgeFlags && exists i | 0 <= i < |done| :: done[i] in toRemove && done[i] in c0.edgeFlags[k]
  }

  /** The state of the removal loop after processing `done`, in closed
      form. */
  function Partial(c0: CaveGraph, toRemove: seq<Flag>, done: seq<Flag>): CaveGraph
    requires Valid(c0)
  {
    if Touched(toRemove, done) then DropEdges(c0, RemovedBy(c0, toRemove, done)) else c0
  }

  lemma PartialStep(c0: CaveGraph, toRemove: seq<Flag>, done: seq<Flag>, f: Flag)
    requires Valid(c0)
    ensures RemoveFlagStep(Partial(c0, toRemove, done), toRemove, f) == Partial(c0, toRemove, done + [f])
  {
    var next := done + [f];
    assert forall i | 0 <= i < |done| :: next[i] == done[i];
    assert next[|done|] == f;
    if f !in toRemove {
      SkippedFlag(c0, toRemove, done, f);
    } else if !Touched(toRemove, done) {
      FirstRemovedFlag(c0, toRemove, done, f);
    } else {
      LaterRemovedFlag(c0, toRemove, done, f);
    }
  }

  lemma SkippedFlag(c0: CaveGraph, toRemove: seq<Flag>, done: seq<Flag>, f: Flag)
    requires Valid(c0) && f !in toRemove
    ensures Touched(toRemove, done + [f]) == Touched(toRemove, done)
    ensures RemovedBy(c0, toRemove, done + [f]) == RemovedBy(c0, toRemove, done)
  {
    var next := done + [f];
    assert forall i | 0 <= i < |done| :: next[i] == done[i];
  }

  lemma FirstRemovedFlag(c0: CaveGraph, toRemove: seq<Flag>, done: seq<Flag>, f: Flag)
    requires Valid(c0) && f in toRemove && !Touched(toRemove, done)
    ensures Touched(toRemove, done + [f])
    ensures RemovedBy(c0, toRemove, done + [f]) == Carrying(c0, f)
  {
    var next := done + [f];
    assert forall i | 0 <= i < |done| :: next[i] == done[i];
    assert next[|done|] == f;
  }

  lemma LaterRemovedFlag(c0: CaveGraph, toRemove: seq<Flag>, done: seq<Flag>, f: Flag)
    requires Valid(c0) && f in toRemove && Touched(toRemove, done)
    ensures var e := RemovedBy(c0, toRemove, done);
      DropEdges(DropEdges(c0, e), Carrying(DropEdges(c0, e), f)) == DropEdges(c0, RemovedBy(c0, toRemove, done + [f]))
  {
    var e := RemovedBy(c0, toRemove, done);
    var carried := Carrying(c0, f);
    CarryingAfterDrop(c0, e, f);
    DropEdgesTwice(c0, e, carried - e);
    RemovedByGrows(c0, toRemove, done, f);
    UnionOfDifference(e, carried);
    var all := RemovedBy(c0, toRemove, done + [f]);
    assert all == e + (carried - e);
    assert DropEdges(c0, all) == DropEdges(c0, e + (carried - e));
  }

  lemma UnionOfDifference<T>(a: set<T>, b: set<T>)
    ensures a + (b - a) == a + b
  {
  }

  lemma CarryingAfterDrop(c0: CaveGraph, e: set<EdgeKey>, f: Flag)
    requires Valid(c0)
    ensures Carrying(DropEdges(c0, e), f) == Carrying(c0, f) - e
  {
  }

  lemma RemovedByGrows(c0: CaveGraph, toRemove: seq<Flag>, done: seq<Flag>, f: Flag)
    requires f in toRemove
    ensures RemovedBy(c0, toRemove, done + [f]) == RemovedBy(c0, toRemove, done) + Carrying(c0, f)
  {
    var next := done + [f];
    assert forall i | 0 <= i < |done| :: next[i] == done[i];
    assert next[|done|] == f;
  }

  /** Running the rest of the loop from a closed-form state reaches the
      closed form of the whole iteration. */
  lemma {:induction false} LoopIsPartial(c0: CaveGraph, toRemove: seq<Flag>, done: seq<Flag>, rest: seq<Flag>)
    requires Valid(c0)
    ensures RemoveFlaggedLoop(Partial(c0, toRemove, done), toRemove, rest) == Partial(c0, toRemove, done + rest)
    decreases |rest|
  {
    if |rest| == 0 {
      assert done + rest == done;
    } else {
      PartialStep(c0, toRemove, done, rest[0]);
      LoopIsPartial(c0, toRemove, done + [rest[0]], rest[1..]);
      assert (done + [rest[0]]) + rest[1..] == done + rest;
    }
  }

  /** `remove_flagged_edges(G, flags_to_remove)`. `order` is the order in
      which the set of flags present on the edges is iterated. Whatever
      that order, the result is the closed form: when no edge carries a
      flag to remove nothing changes; otherwise every such edge goes, with
      its flags, and then every node left without neighbours. */
  function RemoveFlaggedEdges(c: CaveGraph, toRemove: seq<Flag>, order: seq<Flag>): (r: CaveGraph)
    requires Valid(c) && forall f :: f in order <==> f in PresentFlags(c)
    ensures r == if Removable(c, toRemove) == {} then c else DropEdges(c, Removable(c, toRemove))
  {
    LoopIsPartial(c, toRemove, [], order);
    assert [] + order == order;
    assert Partial(c, toRemove, []) == c;
    RemovedByAll(c, toRemove, order);
    RemoveFlaggedLoop(c, toRemove, order)
  }

  lemma RemovedByAll(c: CaveGraph, toRemove: seq<Flag>, order: seq<Flag>)
    requires forall f :: f in order <==> f in PresentFlags(c)
    ensures RemovedBy(c, toRemove, order) == Removable(c, toRemove)
    ensures Touched(toRemove, order) <==> Removable(c, toRemove) != {}
  {
    forall k | k in Removable(c, toRemove) ensures k in RemovedBy(c, toRemove, order) {
      var f :| f in c.edgeFlags[k] && f in toRemove;
      assert f in PresentFlags(c);
      var i :| 0 <= i < |order| && order[i] == f;
    }
    if Touched(toRemove, order) {
      var i :| 0 <= i < |order| && order[i] in toRemove;
      assert order[i] in PresentFlags(c);
      var k, f :| k in c.edgeFlags && f in c.edgeFlags[k] && f == order[i];
      assert k in Removable(c, toRemove);
    }
  }

  /** What `remove_flagged_edges` leaves: no edge carries a flag to
      remove, every other edge stays with its flags, the order of the
      surviving nodes is kept, and, once something was removed, no node is
      left isolated. */
  lemma FlaggedEdgesGone(c: CaveGraph, toRemove: seq<Flag>, order: seq<Flag>)
    requires Valid(c) && forall f :: f in order <==> f in PresentFlags(c)
    ensures var r := RemoveFlaggedEdges(c, toRemove, order);
      && Valid(r)
      && (forall k, f | k in r.edgeFlags && f in r.edgeFlags[k] :: f !in toRemove)
      && Edges(r.g) == Edges(c.g) - Removable(c, toRemove)
      && (forall k | k in c.edgeFlags && k !in Removable(c, toRemove) :: k in r.edgeFlags && r.edgeFlags[k] == c.edgeFlags[k])
      && Subseq(r.g.nodes, c.g.nodes)
      && (Removable(c, toRemove) != {} ==> forall u | u in r.g.adj :: r.g.adj[u] != [])
  {
    var r := RemoveFlaggedEdges(c, toRemove, order);
    if Removable(c, toRemove) == {} {
      forall k, f | k in c.edgeFlags && f in c.edgeFlags[k] ensures f !in toRemove {
        assert k !in Removable(c, toRemove);
      }
      SubseqRefl(c.g.nodes);
    }
  }

  /** With the default flags, no surface, duplicate, remove, artificial or
      splay shot is left in the graph. */
  lemma DefaultFlagsGone(c: CaveGraph, order: seq<Flag>)
    requires Valid(c) && forall f :: f in order <==> f in PresentFlags(c)
    ensures var r := RemoveFlaggedEdges(c, DefaultFlagsToRemove, order);
      forall k, f | k in r.edgeFlags && f in r.edgeFlags[k] ::
        f != "srf" && f != "dpl" && f != "rmv" && f != "art" && f != "spl"
  {
    FlaggedEdgesGone(c, DefaultFlagsToRemove, order);
  }
}
