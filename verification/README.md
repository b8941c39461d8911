# Redundant multicast trees and experiment bookkeeping, in Dafny

This project models the algorithm-independent core of an SDN (software-defined
networking) topology manager and of its experiment tooling:

- **`NetworkTopology.get_redundant_multicast_trees`** builds k redundant
  multicast trees from a source to a set of destinations. The model covers:
  - destination sanitisation;
  - the `steiner` algorithm's penalty loop on a temporary per-edge weight;
  - the `diverse-paths` algorithm: destination ordering, greedy assignment of
    each destination's redundant paths to trees, and repair of non-trees by
    spanning-tree extraction and leaf trimming;
  - the `red-blue` algorithm's doubling rounds and its slice to k;
  - the `ilp` pass-through and the unknown-algorithm error;
  - `get_edges_for_path`.

  Every graph algorithm that the code borrows is a function-typed parameter
  (an oracle) and is never implemented: Steiner trees, shortest-path
  distances, redundant paths, tree tests, minimum spanning edges, red/blue
  splitting and the ILP heuristic.
- **`FiredexScenario`** (Sci-Fire scenario): reconciling the number of topic
  classes, splitting `num_topics` among the classes by weight, the memoised
  `ntopics_per_class`, the contiguous topic ranges of each class, and `as_dict`.
- **`NetworkExperimentStatistics`**: `get_treatment_str` (a results file name
  becomes its treatment name), `extract_parameters` (renaming and null
  filtering) and `varied_params`.
- **`NetworkxSdnTopology`**: classifying nodes by the first letter of their
  name, and the node and link filters built on that classification.

Graphs are `Graphs.Graph(nodes, links)` with string node names and integer
edge attributes. Python exceptions become `Err` values of a `Result`:
- `max()` of an empty sequence;
- `math.log` of a non-positive number;
- a failed `assert`;
- an unknown algorithm name;
- networkx's `NetworkXPointlessConcept`, raised by `is_tree` on a graph without nodes;
- `IndexError`;
- `KeyError`.

Files, one module each:
- `wrappers.dfy` (`Option` and `Result`)
- `seqs.dfy` (filtering, sums, powers of two)
- `graph.dfy`
- `leaf_trim.dfy`
- `steiner_penalty.dfy`
- `diverse_paths.dfy`
- `red_blue.dfy`
- `network_topology.dfy`
- `firedex_scenario.dfy`
- `experiment_statistics.dfy`
- `sdn_topology.dfy`

## Model

| member | source | states |
|---|---|---|
| NetworkTopology.Sanitise | topology_manager/network_topology.py:41-47 | The kept destinations are exactly the requested ones that are graph nodes; unknown ones are dropped without an error |
| NetworkTopology.SanitiseKeepsOrder | topology_manager/network_topology.py:41-47 | Sanitising distributes over concatenation, so the kept destinations keep their input order |
| NetworkTopology.SanitiseCounts | topology_manager/network_topology.py:41-47 | Each known destination keeps all its occurrences and each unknown one loses all of them |
| NetworkTopology.SanitiseAllKnown | topology_manager/network_topology.py:41-47 | When every destination is known, the list comes back unchanged |
| NetworkTopology.RedundantMulticastTrees | topology_manager/network_topology.py:33-203 | Dispatch on the algorithm name; every algorithm sees only the sanitised destinations. An unknown name is an error. Every algorithm except `ilp` returns exactly k trees. The graph is untouched except by `steiner` with k other than 1, which leaves only the scratch weight removed. `steiner` succeeds exactly when its penalty loop does and returns its trees; for k other than 1 no returned tree link carries the scratch key. `diverse-paths` fails on an empty `max` exactly when a visited destination has more than k paths. Its only other failure is `is_tree` on a graph without nodes, which happens exactly when one of the accumulated edge sets holds no topology link. An accumulation of edge sets exists and is unique, and on success each tree is repaired from its own edge set. `red-blue` with k = 0 is a math-domain error; otherwise it succeeds exactly when every destination lies in every red/blue graph, and fails only on a lost destination. `ilp` passes its oracle's answer through |
| SteinerPenalty.ChoosePolicy | topology_manager/network_topology.py:79-84 | The doubling penalty is chosen exactly when the first heuristic argument is `double`; anything else, including no arguments or an unknown name, selects the max penalty |
| SteinerPenalty.InitScratch | topology_manager/network_topology.py:73-74 | Every link gets a scratch weight equal to its metric, or 1 when the metric is absent; nothing else changes |
| SteinerPenalty.MaxScratch | topology_manager/network_topology.py:86 | The penalty base is a scratch weight of some link and at least every link's scratch weight |
| SteinerPenalty.Penalise | topology_manager/network_topology.py:91-95 | Only links on the round's tree change, and only their scratch weight, which is raised by the maximum or doubled |
| SteinerPenalty.Rounds | topology_manager/network_topology.py:88-96 | Exactly k trees. Tree i is the oracle's answer on the initial scratch weights penalised once for each use by trees 0..i-1, so the first tree sees the initial weights. The final graph is the initial one penalised by all k trees: every link's final scratch weight is its initial one penalised once per tree containing it, using the maximum measured before round 0. Non-negative weights never decrease. Nothing but scratch weights changes |
| SteinerPenalty.StripScratch | topology_manager/network_topology.py:98-99 | No link keeps the scratch key; every other attribute is unchanged |
| SteinerPenalty.PenalisedByStep | topology_manager/network_topology.py:89-96 | Penalising for one round's tree and then for the later trees is the same as penalising for all of them at once |
| SteinerPenalty.PrefixesStripped | topology_manager/network_topology.py:96-99 | Removing the scratch key from the trees does not change the weights they induce: penalties depend only on tree edges |
| SteinerPenalty.SteinerTrees | topology_manager/network_topology.py:59-100 | k = 1 returns one Steiner tree on the `weight` attribute and leaves the graph alone. Any other k fails (empty `max`) exactly when the graph has no edges. Otherwise it returns k trees with the graph unchanged apart from the removed scratch key. The removal reaches the trees, which share the topology's link attributes, so no returned tree link carries the key. Tree i is the oracle's tree on the metric-initialised weights penalised by trees 0..i-1 with the chosen policy and the maximum initial weight |
| DiversePaths.Sort | topology_manager/network_topology.py:113 | The result is sorted by (distance, name) tuples and is a permutation of the input |
| DiversePaths.SortedUnique | topology_manager/network_topology.py:113 | Two sorted permutations of the same tuples are equal, so the visiting order is fully determined |
| DiversePaths.DestinationOrder | topology_manager/network_topology.py:110-113 | The visited destinations are exactly the requested ones the distance oracle reports, in ascending (distance, name) order with ties broken by name |
| DiversePaths.BestBelow | topology_manager/network_topology.py:127-128 | The chosen tree is still available and has maximal overlap with the path; among equal overlaps the larger index wins; there is no choice only when no tree is left |
| DiversePaths.AssignRound | topology_manager/network_topology.py:123-130 | A round fails (empty `max`) exactly when a destination has more paths than there are trees. Otherwise the chosen trees are distinct, each one best for its path among those not yet chosen, and every tree is chosen when the path count equals k. Trees only grow, each path's edges land in its chosen tree, and no edge arrives from elsewhere: the result is exactly the starting trees plus the paths given to each |
| DiversePaths.RoundExact | topology_manager/network_topology.py:126-130 | Grown trees that hold every given path and no other new edge are exactly the starting trees plus the paths given to each |
| DiversePaths.ChoicesBestEach | topology_manager/network_topology.py:124-129 | Path m went to the best tree among those the first m choices left |
| DiversePaths.BestUnique | topology_manager/network_topology.py:127-128 | `max` over (overlap, index) tuples has a single answer |
| DiversePaths.RoundChoicesUnique | topology_manager/network_topology.py:123-130 | A round's contract leaves no freedom: only one choice sequence satisfies it |
| DiversePaths.AccumulateTrees | topology_manager/network_topology.py:118-130 | Over all destinations in visiting order: success exactly when no destination has more than k paths. On success the k edge sets are the ones the greedy rounds build. Each round's choices are distinct, each the best remaining tree judged against the trees as that round found them, and each tree gains exactly the edges of the paths it was given. Every path's edges lie in some tree, and when a destination has exactly k paths every tree receives one of them |
| DiversePaths.BuiltContents | topology_manager/network_topology.py:118-130 | An edge is in tree j exactly when it lies on a path that some destination's round gave to tree j |
| DiversePaths.AccumulatedUnique | topology_manager/network_topology.py:118-130 | The accumulation's contract admits one outcome: two choice records and tree lists that both satisfy it are equal |
| DiversePaths.AccumulatedPlaces | topology_manager/network_topology.py:118-130 | From the accumulation's contract alone: every path of a visited destination lies inside some tree, and a destination with as many paths as trees serves every tree |
| DiversePaths.RepairTree | topology_manager/network_topology.py:133-149 | `is_tree` raises exactly when the edge subgraph has no nodes, that is when no topology link lies on the edge set. Otherwise the edge subgraph is kept when it is a tree. If it is not, the result is `Trim` of the subgraph of the spanning oracle's edges: every source or destination node stays, no non-terminal leaf is left, and only links at removed nodes are dropped |
| DiversePaths.Materialise | topology_manager/network_topology.py:133-149 | Success exactly when every edge set's subgraph has nodes; otherwise the `is_tree` failure. On success one repaired graph per edge set, each repaired from its own edge set |
| DiversePaths.DiversePathTrees | topology_manager/network_topology.py:102-149 | Fails on an empty `max` exactly when a visited destination has more than k paths. Otherwise the k accumulated edge sets and choices are the greedy accumulation. The call succeeds exactly when every edge set's subgraph has nodes, and the i-th tree is repaired from the i-th edge set. Every tree is a subgraph of the topology and is a tree or has no non-terminal leaf |
| LeafTrim.Leaves | topology_manager/network_topology.py:142-143 | The listed nodes are exactly the degree-1 nodes that are neither the source nor a destination |
| LeafTrim.RemoveNodes | topology_manager/network_topology.py:146 | The removed nodes disappear together with every link touching them; nothing else does |
| LeafTrim.Trim | topology_manager/network_topology.py:142-148 | Rounds of removing all current non-terminal leaves at once leave a subgraph that keeps every source and destination node. No non-terminal leaf remains. A link between surviving nodes is never dropped |
| LeafTrim.TrimLeaves | topology_manager/network_topology.py:142-148 | The loop terminates with exactly the round-by-round `Trim` of its input, a subgraph keeping every terminal and every link between surviving nodes, with no non-terminal leaf. A graph without such leaves is returned unchanged |
| LeafTrim.TrimPendantExample | topology_manager/network_topology.py:142-148 | On the path s-x-d with a pendant y on x, with terminals s and d, only y is trimmed and the path keeps both links |
| Graphs.EdgeSubgraph | topology_manager/network_topology.py:133 | Exactly the links on the given edges (in either orientation) are kept, with their attributes, and exactly the nodes they touch |
| Graphs.EdgesForPath | topology_manager/network_topology.py:261-268 | A path of n ≥ 2 nodes gives n-1 edges, the i-th joining nodes i and i+1; shorter paths give none |
| Graphs.EdgesForPathRoundTrip | topology_manager/network_topology.py:261-268 | A non-empty path is recovered from its first node and its edge list |
| Graphs.EdgesForPathSplice | topology_manager/network_topology.py:318-326 | Joining two paths at a shared node gives exactly the edges of the first followed by those of the second, so every edge of the merged path belongs to one of them |
| RedBlue.FloorLog2 | topology_manager/network_topology.py:163 | ⌊log2 k⌋ as the exponent n with 2^n ≤ k < 2^(n+1) |
| RedBlue.CeilLog2 | topology_manager/network_topology.py:172 | ⌈log2 k⌉ as the least n with k ≤ 2^n |
| RedBlue.WarnsIffNotPowerOfTwo | topology_manager/network_topology.py:163-164 | The warning is issued exactly when k is not a power of two |
| RedBlue.CeilLog2OfPowerOfTwo | topology_manager/network_topology.py:163-172 | k is a power of two exactly when the round count ⌈log2 k⌉ equals ⌊log2 k⌋ |
| RedBlue.SplitAll | topology_manager/network_topology.py:173-180 | A round doubles the list, putting each graph's red half then its blue half in place |
| RedBlue.Partition | topology_manager/network_topology.py:170-181 | The loop yields the working list after ⌈log2 k⌉ rounds, of 2^⌈log2 k⌉ ≥ k graphs; k = 1 keeps the topology and k = 2 is one split |
| RedBlue.SplitRounds | topology_manager/network_topology.py:170-180 | After n rounds the working list holds 2^n graphs |
| RedBlue.FirstRound | topology_manager/network_topology.py:172-180 | One round turns the topology into its red half followed by its blue half |
| RedBlue.RedBlueTrees | topology_manager/network_topology.py:162-195 | k = 0 is a math-domain error. The warning flag is set exactly when k is not a power of two. For k ≥ 1 the call succeeds exactly when every destination lies in every graph of the final working list, and the only failure is the lost destination. On success the i-th of the exactly k trees is the rooted Steiner tree of the i-th working graph; for k = 1 that is the topology itself |
| FiredexScenario.ClassCount | scifire/firedex_scenario.py:90-94 | The class count is one of the four list lengths and at most each of them, so it is the minimum; when all four agree it is their common length |
| FiredexScenario.NewScenario | scifire/firedex_scenario.py:88-95 | A new scenario records the reconciled class count and has no per-class topic counts yet |
| FiredexScenario.Distribute | scifire/firedex_scenario.py:145-148 | The counts sum exactly to `num_topics`. Every class but the first keeps its weight-derived count. No count drops below its floor when the floors leave topics over |
| FiredexScenario.NTopicsPerClass | scifire/firedex_scenario.py:136-149 | A stored list is returned unchanged. Otherwise weights summing above 1 fail before anything is stored, and no weights store the empty list and then fail on index 0. In every other case the counts have one entry per weight, sum to `num_topics` and are stored. Only the store changes |
| FiredexScenario.NTopicsPerClassOnce | scifire/firedex_scenario.py:142-149 | After a read that stored a list, a second read changes nothing and returns the same list, or the empty list after the index failure |
| FiredexScenario.TopicsForClass | scifire/firedex_scenario.py:152-155 | Class i's topics are the count[i] numbers starting at the sum of the earlier counts; an index past the last class fails |
| FiredexScenario.TopicClasses | scifire/firedex_scenario.py:129-134 | One class per entry of the count list (one per weight, not per reconciled class), each the range of that class |
| FiredexScenario.ClassesOrdered | scifire/firedex_scenario.py:152-155 | Consecutive class ranges are adjacent, and every topic of an earlier class is below every topic of a later one, so classes are disjoint |
| FiredexScenario.TopicsEnumerate | scifire/firedex_scenario.py:122-127 | With non-negative counts, the topics are 0, 1, … up to the total count, each once, in increasing order |
| FiredexScenario.ScenarioTopics | scifire/firedex_scenario.py:122-149 | When the weight-derived counts leave topics over, the topics are exactly 0 … num_topics-1 in order, and there are as many classes as weights |
| FiredexScenario.AsDictAsWritten | scifire/firedex_scenario.py:103-120 | `as_dict` as written has fifteen keys, and `tc_pub_dists` holds the same value as `tc_pub_rates`: the publication rates |
| FiredexScenario.AsDictLosesPubDists | scifire/firedex_scenario.py:111-112 | As written, two scenarios that differ only in their publication distributions export the same dictionary |
| FiredexScenario.AsDict | scifire/firedex_scenario.py:103-120 | The corrected `as_dict` has the same fifteen keys, and every attribute can be read back under its own key |
| FiredexScenario.AsDictDeterminesAttributes | scifire/firedex_scenario.py:103-120 | Corrected, equal dictionaries come only from scenarios with equal attributes |
| ExperimentStatistics.LastDot | statistics/network_experiment_statistics.py:39-40 | `rfind('.')`: the index of the last dot, or -1 when the name has no dot |
| ExperimentStatistics.Stem | statistics/network_experiment_statistics.py:32-36 | Exactly the five characters `.json` are removed when the name ends with them; otherwise the name is kept whole |
| ExperimentStatistics.TreatmentStr | statistics/network_experiment_statistics.py:29-42 | The treatment is a prefix of the stem. Anything removed is one dot followed by decimal digits. A stem without a dot is kept whole |
| ExperimentStatistics.RunNumberStripped | statistics/network_experiment_statistics.py:29-42 | A name of the form treatment `.` run-number, with or without `.json`, gives back exactly the treatment |
| ExperimentStatistics.NonRunKept | statistics/network_experiment_statistics.py:38-42 | When the text after the last dot is not a run number, the stem is kept whole |
| ExperimentStatistics.RunFileExample | statistics/network_experiment_statistics.py:29-42 | `results.1.json` names treatment `results` |
| ExperimentStatistics.NestedRunExample | statistics/network_experiment_statistics.py:29-42 | Only one run number is removed: `a.1.2.json` names treatment `a.1` |
| ExperimentStatistics.NonRunExample | statistics/network_experiment_statistics.py:38-42 | `run.x.json` names treatment `run.x` |
| ExperimentStatistics.Rename | statistics/network_experiment_statistics.py:53-56 | Popping one key into another: the old key is gone, the new key holds the popped value, and every other entry is unchanged |
| ExperimentStatistics.ExtractParameters | statistics/network_experiment_statistics.py:44-64 | A missing `bandwidth` or `latency` is an error, and `bandwidth` is checked first. On success `experiment_type`, `bandwidth` and `latency` are renamed to `exp_type`, `bw` and `delay`, and none of the old keys remains. Null values are dropped, so a missing `experiment_type` gives no `exp_type`. Every other non-null entry is unchanged |
| ExperimentStatistics.IntroducedKeysAreVaried | statistics/network_experiment_statistics.py:18-23 | Every key the renaming introduces is one of the five varied parameters |
| ExperimentStatistics.PresetNamesOverwritten | statistics/network_experiment_statistics.py:53-62 | A value already stored under `exp_type` or `delay` does not survive the renaming: with `experiment_type` absent and `latency` null, neither key is in the result |
| SdnTopology.StartsWith | topology_manager/networkx_sdn_topology.py:55-62 | A name starts with a letter exactly when it is non-empty and its first character is that letter |
| SdnTopology.IsSwitch | topology_manager/networkx_sdn_topology.py:64-72 | An empty name raises. Otherwise a name is a switch exactly when its first letter is c, d, b, m or g, or also f or r when building switches are counted |
| SdnTopology.SwitchModesNested | topology_manager/networkx_sdn_topology.py:64-72 | A switch outside buildings is a switch when building switches are counted; the two modes differ exactly on names starting with f or r |
| SdnTopology.RolesAgree | topology_manager/networkx_sdn_topology.py:55-72 | A cloud gateway is a switch in both modes; hosts, servers and clouds never are |
| SdnTopology.GetServers | topology_manager/networkx_sdn_topology.py:29-30 | Exactly the nodes whose name starts with `s` |
| SdnTopology.GetClouds | topology_manager/networkx_sdn_topology.py:32-33 | Exactly the nodes whose name starts with `x` |
| SdnTopology.GetCloudGateways | topology_manager/networkx_sdn_topology.py:35-36 | Exactly the nodes whose name starts with `g` |
| SdnTopology.GetSwitches | topology_manager/networkx_sdn_topology.py:50-53 | An empty node name raises; otherwise exactly the switch nodes of the chosen mode |
| SdnTopology.RoleListsKeepOrder | topology_manager/networkx_sdn_topology.py:29-53 | Every role list, and the switch list with its failure, works piecewise on any split of the node list, so nodes keep the graph's order |
| SdnTopology.RoleListsSingle | topology_manager/networkx_sdn_topology.py:29-72 | A one-node graph lists its node in exactly the lists of its roles; an empty name makes the switch list raise |
| SdnTopology.RoleListsCount | topology_manager/networkx_sdn_topology.py:29-53 | Every repetition of a node with the role is listed, and no node without it |
| SdnTopology.RoleListsDisjoint | topology_manager/networkx_sdn_topology.py:29-53 | The server, cloud and gateway lists share no node, and every gateway is in the switch list |
| SdnTopology.Selected | topology_manager/networkx_sdn_topology.py:42-48 | With building switches every link passes. Otherwise the test raises exactly when the first end's name is empty, or the first end is not a switch and the second end's name is empty (short-circuit `or`). When it does not raise, a link passes exactly when one of its ends is a switch outside a building |
| SdnTopology.GetLinks | topology_manager/networkx_sdn_topology.py:38-44 | Success exactly when no link's test raises; then exactly the links that pass the test |
| SdnTopology.LinkFormsAgree | topology_manager/networkx_sdn_topology.py:41-48 | The attribute-free form has the same outcome and returns the same links reduced to their end points |
| SdnTopology.GetLinksReference | topology_manager/networkx_sdn_topology.py:38-48 | With non-empty names: counting building switches returns every link; otherwise exactly the links with an end that is a switch outside a building, in order |

## Left out

- File and JSON input, logging, `argparse`, pandas aggregation and drawing: they compute nothing the trees depend on.
- The `if __debug__:` block at the end of `get_redundant_multicast_trees` (network_topology.py:211-219) is left out; apart from it the model follows a normal run, `assert` statements included. That block only logs, except that its `is_tree` and `is_connected` raise `NetworkXPointlessConcept` on a tree without nodes, such as a repaired tree trimmed to nothing or an empty oracle tree. That failure is not modelled.
- The networkx and path-library routines are oracle parameters with no contract of their own: Steiner trees, shortest-path distances, redundant paths, `is_tree`, minimum spanning edges, `SkeletonList` red/blue splitting, the ILP heuristic. Nothing is assumed about them, so properties that depend on them, such as "the result is a tree", are not claimed.
- The final copy of each result into a fresh `nx.Graph` is the identity on this model's graphs.
- `get_multicast_tree`, `get_path`, `merge_paths` and `get_multi_source_disjoint_paths` are thin calls into unmodelled routines. The merged-path asserts at the end of the file are covered only by `Graphs.EdgesForPathSplice`, for paths already joined at a shared node.
- The import-time `NotImplementedError` branches are left out: the Steiner routine is always available here.
- Floating point: edge weights are integers; `int(w * num_topics)` is taken as given naturals; `math.log` becomes exact integer logarithms, so float rounding of `math.log` for large k is not modelled.
- Negative k: k is a natural number.
- `FiredexScenario.NTopicsPerClass`: the float test `sum(weights) <= 1.0` is an input flag, not computed from the weights.
- Graph orientation: a `Graph` does not record whether it is directed, so the final `to_undirected` of red-blue is the identity.
- `edge_subgraph` is modelled as a copy rather than a view sharing the topology's attribute dictionaries. The one place where the sharing is visible, the scratch key disappearing from the returned Steiner trees, is modelled explicitly by `SteinerPenalty.SteinerTrees`.
- `SteinerPenalty.Penalise` bumps every link whose ends match a tree edge. On the simple graphs the source uses (one link per node pair) this is the same as bumping each tree edge once.
- The temporary-weight race between concurrent callers sharing one topology.
- The distance oracle yields `(node, distance)` pairs, which is how the ordering loop unpacks `shortest_path_length`; the networkx version that returns a dictionary keyed by node is not modelled.
- A Steiner tree edge that is not a topology edge would raise `KeyError` when penalised. The model penalises only topology links, so it assumes the oracle returns edges of the graph it was given.
- `topics_for_class` is modelled for non-negative class indices, the only ones `topic_classes` passes. Python's negative slicing is not modelled.
- `ExperimentStatistics.TreatmentStr`: a run number is one or more decimal digits. The `parse` library's `{:d}` also accepts signs and other spellings, which are not modelled.
- `ExperimentStatistics.ExtractParameters`: returns a new map instead of updating the caller's dictionary in place, so the partial update left behind by a `KeyError` is not modelled. Null values are deleted while iterating over `items()`, which is a list snapshot under Python 2 (the language the source is written in).
- `get_ip_address` (it slices the node's attribute dictionary) and `get_ports_for_nodes` (it raises `NotImplementedError`) compute nothing modellable.
- Per-class data sizes, rates and distributions of a `FiredexScenario` are opaque: only their number and identity matter to the bookkeeping.

## Findings

| source | as written | input that shows it | evidently intended | confidence | as-written member | corrected member |
|---|---|---|---|---|---|---|
| scifire/firedex_scenario.py:112 | `as_dict` stores the publication rates under `tc_pub_dists` | any two scenarios differing only in their publication distributions export equal dictionaries | store `topic_class_pub_dists` under `tc_pub_dists` | not executed; high, the key names the other attribute | FiredexScenario.AsDictLosesPubDists | FiredexScenario.AsDict |
