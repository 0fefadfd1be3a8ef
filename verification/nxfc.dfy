/** The dictionary, attribute and path helpers of `utils/nx_fc.py`. */
module NxFc {
  import opened Wrappers
  import opened Seqs
  import opened Graphs

  /** A survey station position `[x, y, z]`. */
  datatype Point = Point(x: real, y: real, z: real)

  // ---------------------------------------------------------------------
  // Coordinate projections (`get_pos2d`, `get_posz`)

  /** The horizontal part `pos[0:2]` of every position. */
  function Pos2d(pos: map<NodeId, Point>): (r: map<NodeId, (real, real)>)
    ensures r.Keys == pos.Keys
    ensures forall u | u in r :: r[u].0 == pos[u].x && r[u].1 == pos[u].y
  {
    map u | u in pos :: (pos[u].x, pos[u].y)
  }

  /** The elevation `pos[2]` of every position. */
  function PosZ(pos: map<NodeId, Point>): (r: map<NodeId, real>)
    ensures r.Keys == pos.Keys
    ensures forall u | u in r :: r[u] == pos[u].z
  {
    map u | u in pos :: pos[u].z
  }

  /** The two projections together lose nothing: each position is
      rebuilt from its horizontal part and its elevation. */
  lemma ProjectionsRebuildPos(pos: map<NodeId, Point>)
    ensures Pos2d(pos).Keys == PosZ(pos).Keys == pos.Keys
    ensures forall u | u in pos ::
      Point(Pos2d(pos)[u].0, Pos2d(pos)[u].1, PosZ(pos)[u]) == pos[u]
  {
  }

  // ---------------------------------------------------------------------
  // Attribute search (`find_value_in_node_attribute`)

  /** The nodes, in node order, whose attribute equals `value`. A node
      without the attribute reads as None, so `value == None` selects
      exactly the nodes that lack it. */
  function FindValueInNodeAttribute<A(==)>(g: Graph, attr: map<NodeId, A>, value: Option<A>): (r: seq<NodeId>)
    ensures forall n | n in r :: n in g.nodes && Get(attr, n) == value
    ensures forall n | n in g.nodes && Get(attr, n) == value :: n in r
    ensures Subseq(r, g.nodes)
    ensures Distinct(g.nodes) ==> Distinct(r)
  {
    Keep(g.nodes, set n | n in g.nodes && Get(attr, n) == value)
  }

  /** The searches for different values split the nodes: each node is
      found under its own value and under no other. */
  lemma AttributeSearchPartitions<A>(g: Graph, attr: map<NodeId, A>, n: NodeId, value: Option<A>)
    requires n in g.nodes
    ensures n in FindValueInNodeAttribute(g, attr, Get(attr, n))
    ensures value != Get(attr, n) ==> n !in FindValueInNodeAttribute(g, attr, value)
  {
  }

  // ---------------------------------------------------------------------
  // Inverse lookups (`find_key_from_dict`, `find_key_from_fulladdress`)

  /** A Python KeyError for `key`. */
  datatype KeyError<K> = KeyError(key: K)

  /** `v` is listed under the entry at index `i`, and under no later
      entry. */
  ghost predicate LastListing<K, V>(d: seq<(K, seq<V>)>, v: V, i: int)
  {
    0 <= i < |d| && v in d[i].1 && forall j | i < j < |d| :: v !in d[j].1
  }

  /** `{v: k for k, l in d.items() for v in l}` over the items of a
      dictionary of lists, in insertion order: every listed value maps to
      its key, and when a value is listed under several keys the last one
      wins. */
  function Invert<K(==), V(==)>(d: seq<(K, seq<V>)>): (inv: map<V, K>)
    ensures forall i, v | 0 <= i < |d| && v in d[i].1 :: v in inv
    ensures forall v | v in inv :: exists i :: LastListing(d, v, i) && d[i].0 == inv[v]
  {
    if |d| == 0 then map[]
    else
      var prev := d[..|d| - 1];
      var (k, l) := d[|d| - 1];
      var init := Invert(prev);
      var inv := init + map v | v in l :: k;
      InvertStep(d, prev, k, l, init, inv);
      inv
  }

  lemma InvertStep<K, V>(d: seq<(K, seq<V>)>, prev: seq<(K, seq<V>)>, k: K, l: seq<V>, init: map<V, K>, inv: map<V, K>)
    requires |d| > 0 && prev == d[..|d| - 1] && d[|d| - 1] == (k, l)
    requires forall i, v | 0 <= i < |prev| && v in prev[i].1 :: v in init
    requires forall v | v in init :: exists i :: LastListing(prev, v, i) && prev[i].0 == init[v]
    requires inv == init + map v | v in l :: k
    ensures forall i, v | 0 <= i < |d| && v in d[i].1 :: v in inv
    ensures forall v | v in inv :: exists i :: LastListing(d, v, i) && d[i].0 == inv[v]
  {
    var n := |d| - 1;
    forall i, v | 0 <= i < |d| && v in d[i].1 ensures v in inv {
      if i < n {
        assert d[..n][i] == d[i];
      }
    }
    forall v | v in inv ensures exists i :: LastListing(d, v, i) && d[i].0 == inv[v] {
      if v in d[n].1 {
        assert LastListing(d, v, n);
      } else {
        var i :| LastListing(d[..n], v, i) && d[..n][i].0 == init[v];
        assert d[..n][i] == d[i];
        assert forall j | i < j < n :: d[..n][j] == d[j];
        assert LastListing(d, v, i);
      }
    }
  }

  /** `find_key_from_dict`: a key whose list holds `value` (the last such
      key in insertion order); KeyError when no list holds it. */
  function FindKeyFromDict<K(==), V(==)>(d: seq<(K, seq<V>)>, value: V): (r: Result<K, KeyError<V>>)
    ensures r.Failure? <==> forall i | 0 <= i < |d| :: value !in d[i].1
    ensures r.Failure? ==> r.error == KeyError(value)
    ensures r.Success? ==> exists i :: LastListing(d, value, i) && d[i].0 == r.value
  {
    var inv := Invert(d);
    if value in inv then Success(inv[value]) else Failure(KeyError(value))
  }

  /** Node `n` carries a full address listing `value`. */
  predicate Holds(fulladdress: map<NodeId, seq<string>>, n: NodeId, value: string)
  {
    n in fulladdress && value in fulladdress[n]
  }

  /** `find_key_from_fulladdress`: the first node, in node order, whose
      `fulladdress` attribute lists `value`; None when no node does.
      Nodes without the attribute are passed over. */
  function FindKeyFromFulladdress(nodes: seq<NodeId>, fulladdress: map<NodeId, seq<string>>, value: string): (r: Option<NodeId>)
    ensures r.None? <==> forall i | 0 <= i < |nodes| :: !Holds(fulladdress, nodes[i], value)
    ensures r.Some? ==> exists i | 0 <= i < |nodes| ::
      nodes[i] == r.value && Holds(fulladdress, nodes[i], value) &&
      forall j | 0 <= j < i :: !Holds(fulladdress, nodes[j], value)
  {
    if |nodes| == 0 then None
    else if Holds(fulladdress, nodes[0], value) then Some(nodes[0])
    else
      var r := FindKeyFromFulladdress(nodes[1..], fulladdress, value);
      assert forall i | 0 <= i < |nodes| - 1 :: nodes[1..][i] == nodes[i + 1];
      if r.Some? then
        var i :| 0 <= i < |nodes| - 1 && nodes[1..][i] == r.value && Holds(fulladdress, nodes[1..][i], value) &&
          forall j | 0 <= j < i :: !Holds(fulladdress, nodes[1..][j], value);
        assert forall j | 0 <= j < i + 1 :: !Holds(fulladdress, nodes[j], value) by {
          forall j | 0 <= j < i + 1 ensures !Holds(fulladdress, nodes[j], value) {
            if j > 0 { assert nodes[j] == nodes[1..][j - 1]; }
          }
        }
        r
      else r
  }

  // ---------------------------------------------------------------------
  // Group-by (`list2dict`)

  /** A Python IndexError. */
  datatype IndexError = IndexError

  /** The values at the indices below `|vs|` whose key is `k`, in index
      order. */
  function Select<K(==), V>(ks: seq<K>, vs: seq<V>, k: K): (r: seq<V>)
    requires |vs| <= |ks|
    ensures |r| == multiset(ks[..|vs|])[k]
  {
    if |vs| == 0 then []
    else
      var n := |vs| - 1;
      assert ks[..n + 1] == ks[..n] + [ks[n]];
      Select(ks, vs[..n], k) + (if ks[n] == k then [vs[n]] else [])
  }

  /** `list2dict(key_list, value_list)`: one entry per distinct key, holding
      the values whose position carries that key. The comprehension reads
      `key_list[idx]` for every index of `value_list`, so a longer value
      list is an IndexError unless there are no keys at all. */
  function List2Dict<K(==), V>(ks: seq<K>, vs: seq<V>): (r: Result<map<K, seq<V>>, IndexError>)
    ensures r.Failure? <==> |ks| > 0 && |vs| > |ks|
    ensures r.Success? ==> r.value.Keys == set k | k in ks
    ensures r.Success? ==> forall k | k in r.value :: |r.value[k]| == multiset(ks[..|vs|])[k]
  {
    if |ks| == 0 then Success(map[])
    else if |vs| > |ks| then Failure(IndexError)
    else Success(map k | k in ks :: Select(ks, vs, k))
  }

  /** How many times `ks[i]` occurs before index `i`. */
  function Rank<K(==)>(ks: seq<K>, i: nat): nat
    requires i < |ks|
  {
    multiset(ks[..i])[ks[i]]
  }

  lemma {:induction false} SelectRank<K, V>(ks: seq<K>, vs: seq<V>, i: nat)
    requires |vs| <= |ks| && i < |vs|
    ensures Rank(ks, i) < |Select(ks, vs, ks[i])|
    ensures Select(ks, vs, ks[i])[Rank(ks, i)] == vs[i]
  {
    var n := |vs| - 1;
    var k := ks[i];
    assert ks[..n + 1] == ks[..n] + [ks[n]];
    assert ks[..i + 1] == ks[..i] + [ks[i]];
    if i < n {
      SelectRank(ks, vs[..n], i);
      assert vs[..n][i] == vs[i];
    }
  }

  /** Grouping loses no value: the value at position `i` is found in the
      list of its key, at the place given by how often that key occurred
      before. */
  lemma List2DictRecovers<K, V>(ks: seq<K>, vs: seq<V>, i: nat)
    requires |vs| <= |ks| && i < |vs|
    ensures List2Dict(ks, vs).Success?
    ensures ks[i] in List2Dict(ks, vs).value
    ensures Rank(ks, i) < |List2Dict(ks, vs).value[ks[i]]|
    ensures List2Dict(ks, vs).value[ks[i]][Rank(ks, i)] == vs[i]
  {
    SelectRank(ks, vs, i);
  }

  /** The distinct elements of `s`, in order of first occurrence. */
  function Dedup<T(==)>(s: seq<T>): (r: seq<T>)
    ensures Distinct(r)
    ensures forall x | x in r :: x in s
    ensures forall x | x in s :: x in r
  {
    if |s| == 0 then []
    else
      var init := Dedup(s[..|s| - 1]);
      var x := s[|s| - 1];
      assert s == s[..|s| - 1] + [x];
      if x in init then init else init + [x]
  }

  /** The total length of the lists stored under `keys`. */
  function TotalLength<K, V>(m: map<K, seq<V>>, keys: seq<K>): nat
    requires forall i | 0 <= i < |keys| :: keys[i] in m
  {
    if |keys| == 0 then 0
    else TotalLength(m, keys[..|keys| - 1]) + |m[keys[|keys| - 1]]|
  }

  /** The occurrences in `m` of the elements of `keys`, added up. */
  function SumCounts<K>(m: multiset<K>, keys: seq<K>): nat
  {
    if |keys| == 0 then 0
    else SumCounts(m, keys[..|keys| - 1]) + m[keys[|keys| - 1]]
  }

  lemma {:induction false} SumCountsAdd<K>(m: multiset<K>, x: K, keys: seq<K>)
    requires Distinct(keys)
    ensures SumCounts(m + multiset{x}, keys) == SumCounts(m, keys) + (if x in keys then 1 else 0)
  {
    if |keys| > 0 {
      var init := keys[..|keys| - 1];
      assert keys == init + [keys[|keys| - 1]];
      SumCountsAdd(m, x, init);
    }
  }

  lemma {:induction false} SumCountsDedup<K>(ks: seq<K>)
    ensures SumCounts(multiset(ks), Dedup(ks)) == |ks|
  {
    if |ks| > 0 {
      var init := ks[..|ks| - 1];
      var x := ks[|ks| - 1];
      assert ks == init + [x];
      assert multiset(ks) == multiset(init) + multiset{x};
      SumCountsDedup(init);
      SumCountsAdd(multiset(init), x, Dedup(init));
      if x !in Dedup(init) {
        var d := Dedup(init) + [x];
        assert d[..|d| - 1] == Dedup(init);
        assert multiset(init)[x] == 0;
        assert SumCounts(multiset(ks), d) == SumCounts(multiset(ks), Dedup(init)) + multiset(ks)[x];
      }
    }
  }

  lemma {:induction false} TotalIsSumCounts<K, V>(m: map<K, seq<V>>, c: multiset<K>, keys: seq<K>)
    requires forall i | 0 <= i < |keys| :: keys[i] in m && |m[keys[i]]| == c[keys[i]]
    ensures TotalLength(m, keys) == SumCounts(c, keys)
  {
    if |keys| > 0 {
      TotalIsSumCounts(m, c, keys[..|keys| - 1]);
    }
  }

  /** For key and value lists of the same length, the groups together
      hold exactly as many values as were given. */
  lemma List2DictKeepsCount<K, V>(ks: seq<K>, vs: seq<V>)
    requires |ks| == |vs|
    ensures List2Dict(ks, vs).Success?
    ensures forall i | 0 <= i < |Dedup(ks)| :: Dedup(ks)[i] in List2Dict(ks, vs).value
    ensures TotalLength(List2Dict(ks, vs).value, Dedup(ks)) == |vs|
  {
    var r := List2Dict(ks, vs).value;
    assert ks[..|vs|] == ks;
    TotalIsSumCounts(r, multiset(ks), Dedup(ks));
    SumCountsDedup(ks);
  }

  // ---------------------------------------------------------------------
  // Output folder path (`make_filepath`, without the directory creation)

  predicate EndsWithSlash(s: string)
  {
    |s| > 0 && s[|s| - 1] == '/'
  }

  /** `s` without one trailing '/', if it has one. */
  function DropSlash(s: string): (r: string)
    ensures !EndsWithSlash(s) ==> r == s
    ensures EndsWithSlash(s) ==> r + "/" == s
  {
    if EndsWithSlash(s) then s[..|s| - 1] else s
  }

  /** `make_filepath(outputpath, foldername)`: the output path, a '/'
      unless it already ends in one, the folder name, and a closing '/'
      unless the folder name already ends in one. */
  function MakeFilepath(outputpath: string, foldername: string): (r: string)
    ensures EndsWithSlash(r)
    ensures |r| >= |outputpath| && r[..|outputpath|] == outputpath
    ensures EndsWithSlash(outputpath) ==>
      r == outputpath + foldername || r == outputpath + foldername + "/"
    ensures !EndsWithSlash(outputpath) ==>
      r == outputpath + "/" + foldername || r == outputpath + "/" + foldername + "/"
  {
    var sep := if EndsWithSlash(outputpath) then "" else "/";
    if EndsWithSlash(foldername) then outputpath + sep + foldername
    else outputpath + sep + foldername + "/"
  }

  /** Exactly one separator between the parts and exactly one at the end,
      whatever trailing '/' the parts came with. */
  lemma MakeFilepathNormalForm(outputpath: string, foldername: string)
    ensures MakeFilepath(outputpath, foldername) == DropSlash(outputpath) + "/" + DropSlash(foldername) + "/"
  {
  }
}
