# karstnet cave-graph utilities in Dafny

This project models the graph and dictionary helpers of karstnet. karstnet is a
Python package that studies karst cave networks, which it builds from cave
surveys (Therion exports) as networkx graphs. The model covers three source
files:

- `utils/cleaning_fc.py` cleans a survey graph. `add_edges` adds extra survey
  shots. `flag_nodes` and `flag_edges` attach string flags such as `ent`,
  `dpl` or `srf`. `remove_flagged_edges` drops every edge that carries a
  flag to remove, then drops the stations left isolated. Callers can name
  stations by their current node id or by an older identifier (a Therion
  full address). Older identifiers are translated through the inverted
  `dict_address`.
- `utils/export_fc.py` holds three analyses:
  - `graph_to_branches` cuts the network into single branches at every
    intersection, that is, every station of degree more than two;
  - `find_disconnected_node` lists the stations that the cleaning turned
    into dead ends;
  - the edge selection of `get_potential_connection` proposes, for every
    passage end, the nearest station in a vertical cylinder around it that
    is not already close in the graph.
- `utils/nx_fc.py` holds small helpers: coordinate projections, an
  attribute search, inverse dictionary lookups, a group-by (`list2dict`)
  and the path string of `make_filepath`.

A networkx graph is modelled as `Graphs.Graph`. It keeps the node sequence
in insertion order and, for every node, its neighbour sequence in insertion
order. `Graphs.Valid` is the invariant networkx maintains: nodes are
distinct, adjacency is symmetric, and no neighbour is listed twice. A
self-loop lists the node once among its own neighbours and counts twice
towards its degree, as in networkx.

Node attributes (`pos`, `flags`, `connected_component_number`,
`intersection`, `fulladdress`) are maps from node id. A node without the
attribute is absent from the map, which is how networkx reports it (`None`).
Edge flags are a map keyed by `Graphs.EdgeKey`, the endpoints in increasing
order. Python exceptions (`KeyError`, `ValueError`, `IndexError`) become the
`Failure` case of `Wrappers.Result`. Every operation is a pure function, or
a method with ghost-free results, from the old graph to the new one.

Modules:

- `wrappers.dfy`: `Option`, `Result`, `Get`
- `seqs.dfy`: `Distinct`, `Subseq`, `Keep`, `Without`
- `graphs.dfy`: the networkx primitives `add_node`, `add_edge`,
  `remove_edge`, `remove_edges_from` and isolate removal, the edge set,
  bounded breadth-first search and connectedness
- `nxfc.dfy`, `cleaning.dfy`, `export.dfy`: the three source files

## Model

| member | source | states |
|---|---|---|
| Graphs.AddNode | src/karstnet/utils/export_fc.py:83-85 | adding a node keeps an existing one untouched; a new one is appended to the node order with no neighbours |
| Graphs.AddEdge | src/karstnet/utils/cleaning_fc.py:51-54 | `add_edge` adds missing endpoints after the old nodes, makes u and v adjacent both ways, and adds exactly the key of u-v to the edge set; an existing edge leaves the graph unchanged; a new edge appends v to u's neighbours and u to v's |
| Graphs.EdgeKeyIff | src/karstnet/utils/cleaning_fc.py:173 | `has_edge(u, v)` holds exactly when the key of u-v is in the edge set |
| Graphs.RemoveEdge | src/karstnet/utils/export_fc.py:89 | `remove_edge` removes exactly that edge from the edge set and from both neighbour lists, keeping the nodes and every other list |
| Graphs.RemoveEdges | src/karstnet/utils/cleaning_fc.py:227 | `remove_edges_from(s)`: an adjacency survives exactly when its key is not in `s`; the edge set loses exactly `s`; the nodes stay |
| Graphs.RemoveIsolates | src/karstnet/utils/cleaning_fc.py:229 | exactly the nodes with no neighbour go; the others keep their neighbours and their relative order |
| Graphs.Prune | src/karstnet/utils/cleaning_fc.py:227-229 | removing `s` and then the isolates leaves exactly the nodes that keep a neighbour and the edges not in `s`, with the node order a subsequence of the old one |
| Graphs.PruneNodes | src/karstnet/utils/cleaning_fc.py:229 | the surviving nodes are the old node order filtered to the nodes that keep a neighbour |
| Graphs.PruneTwice | src/karstnet/utils/cleaning_fc.py:220-229 | pruning by `s1` and then by `s2` equals pruning once by `s1 + s2` |
| Graphs.BallIsReach | src/karstnet/utils/export_fc.py:422 | the level-by-level search with cutoff k finds exactly the nodes joined to u by a walk of at most k edges |
| Graphs.ConnectedByWalks | src/karstnet/utils/export_fc.py:299 | `is_connected` holds exactly when every node is joined to the first node by a walk of at most as many edges as the graph has nodes |
| Graphs.AddRow | src/karstnet/utils/export_fc.py:71 | `add_edge(u, v)` for each `v` of a list in turn adds to the edge set exactly the keys of u-v |
| Graphs.AddRows | src/karstnet/utils/export_fc.py:71 | `add_edges_from` over the adjacency of the given nodes adds to the edge set exactly their edges in `g` |
| Graphs.Copy | src/karstnet/utils/export_fc.py:71 | `G.copy()` re-adds the nodes and then the edges: the copy has the same node order, the same nodes and the same edge set, with adjacency lists in re-add order |
| Graphs.EdgesFixDegrees | src/karstnet/utils/export_fc.py:71-77 | two graphs with the same nodes and edges agree on every degree and on having self-loops |
| Graphs.CopyDegrees | src/karstnet/utils/export_fc.py:71-77 | `H.degree()` of the copy equals `G.degree()` at every node, and the copy has self-loops exactly when `G` has |
| NxFc.Pos2d | src/karstnet/utils/nx_fc.py:6-7 | same keys as `pos`; each value is the x and y of the position |
| NxFc.PosZ | src/karstnet/utils/nx_fc.py:10-11 | same keys as `pos`; each value is the z of the position |
| NxFc.ProjectionsRebuildPos | src/karstnet/utils/nx_fc.py:6-11 | the two projections together rebuild every position |
| NxFc.FindValueInNodeAttribute | src/karstnet/utils/nx_fc.py:27-28 | a node is listed exactly when its attribute equals the value (a missing attribute reads as None); the list follows the node order without repeats |
| NxFc.AttributeSearchPartitions | src/karstnet/utils/nx_fc.py:27-28 | each node is found under its own value and under no other |
| NxFc.Invert | src/karstnet/utils/nx_fc.py:63 | the inverted dictionary holds every listed value and maps it to the last key, in insertion order, whose list holds it |
| NxFc.FindKeyFromDict | src/karstnet/utils/nx_fc.py:61-64 | a KeyError exactly when no list holds the value; otherwise the last key whose list holds it |
| NxFc.FindKeyFromFulladdress | src/karstnet/utils/nx_fc.py:68-80 | None exactly when no node's `fulladdress` lists the value; otherwise the first such node in node order |
| NxFc.Select | src/karstnet/utils/nx_fc.py:47-48 | the group of a key has as many values as the key occurs among the first `len(value_list)` keys |
| NxFc.List2Dict | src/karstnet/utils/nx_fc.py:47-49 | an IndexError exactly when there are keys and more values than keys; otherwise the keys are the distinct keys of `key_list` and each group has the size given by the key's count |
| NxFc.List2DictRecovers | src/karstnet/utils/nx_fc.py:47-49 | the value at index i sits in its key's group, at the position given by how often that key occurred before i |
| NxFc.List2DictKeepsCount | src/karstnet/utils/nx_fc.py:47-49 | for lists of equal length the groups together hold exactly `len(value_list)` values |
| NxFc.MakeFilepath | src/karstnet/utils/nx_fc.py:52-53 | the result starts with `outputpath`, ends in '/', and adds a '/' after `outputpath` only when it lacks one |
| NxFc.MakeFilepathNormalForm | src/karstnet/utils/nx_fc.py:52-53 | the path is both parts stripped of one trailing '/', each followed by exactly one '/' |
| Cleaning.ViaAddress | src/karstnet/utils/cleaning_fc.py:39-47 | an old identifier translates to the last current id whose `dict_address` list holds it; a KeyError exactly when no list holds it |
| Cleaning.ResolvePair | src/karstnet/utils/cleaning_fc.py:44-49 | both endpoints translate, or the error of the first one that does not |
| Cleaning.ResolveEach | src/karstnet/utils/cleaning_fc.py:42-54 | every request resolves, in order, or the error is that of the first request that does not |
| Cleaning.Requests | src/karstnet/utils/cleaning_fc.py:107-109 | the (flag, item) requests are exactly the items listed under each flag |
| Cleaning.RequestsSingle | src/karstnet/utils/cleaning_fc.py:108-109 | the requests of one flag are its items, in list order, each paired with the flag |
| Cleaning.RequestsAppend | src/karstnet/utils/cleaning_fc.py:107-109 | the requests of two dictionaries in a row are those of the first followed by those of the second, so flags come in insertion order and items in list order |
| Cleaning.SetEdgeFlags | src/karstnet/utils/cleaning_fc.py:54 | `add_edge(u, v, flags=[flag])` creates the edge and missing endpoints and sets the edge's flags, leaving node flags and other edges alone |
| Cleaning.InsertEdges | src/karstnet/utils/cleaning_fc.py:42-54 | after the loop every pair is an edge, the edge flags are the old ones overridden by `[flag]` on exactly the requested edges, and the edge and node sets grow by exactly the requested ones |
| Cleaning.AddEdges | src/karstnet/utils/cleaning_fc.py:5-54 | a KeyError exactly when some identifier does not translate; otherwise the `InsertEdges` result on the translated pairs |
| Cleaning.AddedEdgesCarryFlag | src/karstnet/utils/cleaning_fc.py:42-54 | after `add_edges` every requested edge exists and its flags are exactly `[flag]` |
| Cleaning.ResolveNode | src/karstnet/utils/cleaning_fc.py:110-116 | a node request resolves exactly when its identifier translates and the node exists; a missing node is a KeyError for that id |
| Cleaning.ApplyNodeFlags | src/karstnet/utils/cleaning_fc.py:107-123 | every node's flags become its old flags followed by the flags requested for it, in request order; the graph and edge flags do not change |
| Cleaning.FlagNodes | src/karstnet/utils/cleaning_fc.py:103-123 | a KeyError exactly when some request does not resolve; otherwise the `ApplyNodeFlags` result |
| Cleaning.FlaggedNodeCarriesFlag | src/karstnet/utils/cleaning_fc.py:107-123 | after `flag_nodes` every listed node keeps its old flags in front and carries its flag |
| Cleaning.FlagEdge | src/karstnet/utils/cleaning_fc.py:173-188 | one request: an existing edge without flags gets `[flag]`, one with flags gets `flag` appended, a missing edge is created with `[flag]`; in every case the edge's flags become its old flags followed by `flag` and nothing else changes |
| Cleaning.ApplyEdgeFlags | src/karstnet/utils/cleaning_fc.py:162-188 | every edge's flags become its old flags followed by the flags requested for it, in request order; all old edges stay, and exactly the requested edges and endpoints are added |
| Cleaning.FlagEdges | src/karstnet/utils/cleaning_fc.py:157-188 | a KeyError exactly when some identifier does not translate; otherwise the `ApplyEdgeFlags` result |
| Cleaning.FlaggedEdgeCarriesFlag | src/karstnet/utils/cleaning_fc.py:162-188 | after `flag_edges` every listed edge exists, keeps its old flags in front and carries its flag |
| Cleaning.DropEdges | src/karstnet/utils/cleaning_fc.py:224-229 | removing an edge set and the isolates keeps exactly the flags of surviving nodes and edges, unchanged |
| Cleaning.DropEdgesTwice | src/karstnet/utils/cleaning_fc.py:220-229 | two removals in a row equal one removal of the union |
| Cleaning.CarryingAfterDrop | src/karstnet/utils/cleaning_fc.py:224 | the edges carrying a flag after an earlier removal are the original carriers minus the removed edges |
| Cleaning.PartialStep | src/karstnet/utils/cleaning_fc.py:220-229 | one turn of the loop takes the closed form after the flags seen so far to the closed form after one more flag |
| Cleaning.LoopIsPartial | src/karstnet/utils/cleaning_fc.py:220-231 | the whole loop, in any iteration order, ends at the closed form |
| Cleaning.RemovedByAll | src/karstnet/utils/cleaning_fc.py:216-224 | iterating over all present flags removes exactly the edges that carry a flag to remove |
| Cleaning.RemoveFlaggedEdges | src/karstnet/utils/cleaning_fc.py:194-231 | whatever the set iteration order: nothing changes when no edge carries a flag to remove; otherwise exactly those edges go, then the isolated nodes |
| Cleaning.FlaggedEdgesGone | src/karstnet/utils/cleaning_fc.py:216-231 | after `remove_flagged_edges` no edge carries a flag to remove; every other edge, flagged or not, survives with its flags; node order is kept; once something was removed, no node is isolated |
| Cleaning.DefaultFlagsGone | src/karstnet/utils/cleaning_fc.py:194-231 | with the default `flags_to_remove`, no remaining edge carries `srf`, `dpl`, `rmv`, `art` or `spl` |
| Export.MaxOf | src/karstnet/utils/export_fc.py:70 | `max(G.nodes)` is a node and no node is larger |
| Export.CopyAttr | src/karstnet/utils/export_fc.py:83-85 | the new node gets the intersection's attribute (none when it has none); other nodes keep theirs |
| Export.MoveEdge | src/karstnet/utils/export_fc.py:87-89 | `add_edge(id, x)` then `remove_edge(a, x)`: `id` is appended with `x` as its only neighbour, `x` swaps `a` for `id`, `a` loses `x`, nothing else changes |
| Export.MoveEdgeSwapsEdge | src/karstnet/utils/export_fc.py:87-89 | the edge set loses a-x and gains id-x, so the edge count is unchanged |
| Export.MoveEdgeKeeps | src/karstnet/utils/export_fc.py:87-89 | every other neighbour of `a` stays a neighbour |
| Export.MoveEdgeDegrees | src/karstnet/utils/export_fc.py:87-89 | without self-loops: no self-loop appears, `a` loses one degree, `id` has degree one, every other node keeps its degree |
| Export.Intersections | src/karstnet/utils/export_fc.py:77 | the nodes of degree more than two, in node order, once each |
| Export.ExtraFacts | src/karstnet/utils/export_fc.py:79 | the neighbours after the first two are distinct neighbours, the neighbour count minus two of them when there are more than two neighbours |
| Export.DetachEdge | src/karstnet/utils/export_fc.py:81-89 | the graph part of one inner step: node order gains `id`, the edge set swaps a-x for id-x, the other neighbours of `a` stay, and the degree facts hold |
| Export.Detach | src/karstnet/utils/export_fc.py:81-89 | one inner step: the graph part above; the new node records `a` as its intersection and copies its `pos` and component number; every other node's attributes are unchanged; the edges still trace back one-to-one to the original edges |
| Export.DetachStep | src/karstnet/utils/export_fc.py:79-89 | one turn of the inner loop keeps the inner-loop invariant, advanced by one new node, and keeps the edges tracing back one-to-one to the original edges |
| Export.DetachAll | src/karstnet/utils/export_fc.py:79-89 | the inner loop at `a`: new ids `next` onwards are appended in order, the edge count stays, the edges still trace back one-to-one to the original edges, each new node copies `a`'s attributes, and without self-loops `a` loses one degree per new node while each new node has degree one |
| Export.DetachTraces | src/karstnet/utils/export_fc.py:83-89 | after edge a-x moves to a new node that records `a`, the new edge id-x traces back to what a-x traced back to, and the trace stays one-to-one |
| Export.TracesInit | src/karstnet/utils/export_fc.py:71-77 | before any change every edge traces back to itself |
| Export.TracesOnto | src/karstnet/utils/export_fc.py:77-89 | a one-to-one trace into an edge set of the same size reaches every edge of it |
| Export.Round | src/karstnet/utils/export_fc.py:77-89 | one intersection handled keeps the outer-loop invariant: node layout, edge count, the one-to-one trace of the edges back to the original edges, attribute tags and, without self-loops, trimmed degrees |
| Export.Rounds | src/karstnet/utils/export_fc.py:77-89 | after all intersections, starting from the unchanged graph, the invariant holds for the whole list |
| Export.BranchedOfCopy | src/karstnet/utils/export_fc.py:70-77 | the results proved for the rounds on `G.copy()` hold of `G`: both have the same nodes, edges, degrees, intersections and surplus |
| Export.SplitAll | src/karstnet/utils/export_fc.py:70-89 | on a non-empty graph the rounds run on `G.copy()`, so the neighbours kept and detached follow the copy's adjacency order, and the result satisfies `Branched` |
| Export.GraphToBranches | src/karstnet/utils/export_fc.py:70-90 | an empty graph raises. Otherwise `Branched` holds. The new ids run consecutively from `max(G.nodes) + 1` after the old nodes. Mapping each new node to the intersection it records maps the result's edges one-to-one onto the edges of `G`. Old nodes keep their attributes; each new node records an intersection of degree more than two and copies its `pos` and component number. Without self-loops: every intersection ends at degree two, other old nodes keep their degree, new nodes have degree one, every degree is at most two, and the number of new nodes is the sum of degree minus two over the intersections |
| Export.CutEnds | src/karstnet/utils/export_fc.py:310-313 | the scanned nodes with degree one in H and more than one in G, in order; a KeyError exactly when a degree-one node of H is missing from G |
| Export.FindDisconnectedNodes | src/karstnet/utils/export_fc.py:299-319 | an empty H raises; a connected H gives None; otherwise exactly the nodes with H-degree 1 and G-degree > 1, without repeats, or the KeyError above |
| Export.Cylinder | src/karstnet/utils/export_fc.py:413-418 | the selection is exactly the nodes within squared horizontal distance `rh2` and vertical distance `rv` of u |
| Export.Nearest | src/karstnet/utils/export_fc.py:431 | `argmin` over the selected indices: None exactly when nothing is selected; otherwise a selected index whose distance is least, every earlier selected index being strictly farther |
| Export.NearestOf | src/karstnet/utils/export_fc.py:425-432 | the eligible node horizontally nearest to the centre, the first in node order on a tie; None exactly when no node is eligible |
| Export.ConnectionSpec | src/karstnet/utils/export_fc.py:407-432 | a node gets a proposal exactly when its degree is `node_deg`, its cylinder holds more than one node and some node is eligible; the partner differs from u, is eligible, is nearest, and comes first among equally near nodes |
| Export.Collect | src/karstnet/utils/export_fc.py:406-433 | one edge for every node with a proposal and no other, in node order, at most one per node |
| Export.GetPotentialConnection | src/karstnet/utils/export_fc.py:394-433 | the edge list holds exactly the proposals, in node order, with at most one edge per node |
| Export.PotentialConnectionSound | src/karstnet/utils/export_fc.py:407-432 | every proposed (u, v): u has degree `node_deg`, v differs from u, lies in the cylinder and is more than `exclude_neighbors_up_to_edge` edges away, and no such node is horizontally nearer |

## Left out

- `to_shp`, `export_to_gocad`, and the distance and angle outputs of `get_potential_connection` are not modelled. They are file writing, geopandas and shapely calls, and floating-point `sqrt`/`arccos` numerics.
- `print` logging and the `os.path.exists`/`os.makedirs` side effect of `make_filepath` are left out; only the path string is modelled.
- The other helpers of `nx_fc.py` (`get_pos3d`, `get_nodes_attributes`, `get_edges_attributes`, `find_neighbors`) are not modelled. They are direct networkx reads.
- networkx `connected_components` is not modelled. The component numbers that `add_cc_attribute` writes are an input map of `GraphToBranches`, copied like `pos`.
- `single_source_shortest_path_length` is modelled as the set it enumerates (`Graphs.Ball`), not as networkx's traversal.
- Positions are `real` triples. Float rounding is not modelled, and squared distances are compared, so no square root appears.
- `pos_arr` is modelled as aligned with the node order, so `Export.GetPotentialConnection` requires every node to have a position (`Export.Placed`). With a node lacking `pos`, the Python index arrays misalign.
- Python mutates its input in place; the model returns the new graph, so partial changes made before an exception are not modelled. `graph_to_branches` works on `G.copy()`, which the model rebuilds (`Graphs.Copy`) so that the copy's adjacency order decides which neighbours are detached; that it leaves `G` untouched holds by construction.
- `remove_flagged_edges`: the `attribute_name` parameter is fixed to its default `'flags'`. The edge flags are the one `edgeFlags` map of `Cleaning.CaveGraph`.
- `Cleaning.FlagNodes` checks every request before applying any. The node set does not change while flags are added, so the first KeyError is the same one the Python loop meets.
- `Cleaning.RemoveFlaggedEdges` takes the iteration order of the Python set of present flags as a parameter. Its contract is proved for every order.
- Export.GraphToBranches: the degree results are stated only for graphs without self-loops. networkx counts a self-loop twice, so an intersection with a self-loop can keep a degree above two.
- Export.FindDisconnectedNodes: reports the nodes in H's node order. networkx groups them by component, and the order within a component follows set iteration, so the contract speaks of membership, not order.
- Export.FindDisconnectedNodes: reads the degree in H. The `subgraph.degree` of the source equals it, because a connected component holds every neighbour of its nodes.
- Export.Connection: its own contract only says the partner is a node; `Export.ConnectionSpec` states the selection.
- Cleaning.RemoveFlagStep and Cleaning.RemoveFlaggedLoop: their own contracts only keep `Valid`; `Cleaning.PartialStep` and `Cleaning.LoopIsPartial` state what they compute.
