/** `NetworkTopology.get_redundant_multicast_trees`: destination
    sanitisation and dispatch on the algorithm name to the four tree builders.
    The graph routines the builders rely on are supplied as `Oracles`. */
module NetworkTopology {
  import opened Wrappers
  import opened Seqs
  import opened Graphs
  import SteinerPenalty
  import DiversePaths
  import RedBlue

  /** The routines of the graph library and of the unseen algorithm modules. */
  datatype Oracles = Oracles(
    steiner: SteinerPenalty.SteinerOracle,
    distances: DiversePaths.DistanceOracle,
    redundantPaths: DiversePaths.PathsOracle,
    isTree: DiversePaths.TreeTest,
    spanning: DiversePaths.SpanningOracle,
    split: RedBlue.SplitOracle,
    rootedSteiner: RedBlue.RootedSteinerOracle,
    ilp: (Graph, Node, seq<Node>, nat) -> seq<Graph>)

  /** Drop (with a warning) every requested destination that is not a node of the graph. */
  function Sanitise(g: Graph, dests: seq<Node>): (r: seq<Node>)
    ensures forall d :: d in r <==> d in dests && d in g.nodes
    ensures |r| <= |dests|
  {
    Filter(dests, (d: Node) => d in g.nodes)
  }

  /** Sanitisation keeps known destinations in their requested order: it
      works piecewise on any split of the request. */
  lemma SanitiseKeepsOrder(g: Graph, a: seq<Node>, b: seq<Node>)
    ensures Sanitise(g, a + b) == Sanitise(g, a) + Sanitise(g, b)
  {
    FilterAppend(a, b, (d: Node) => d in g.nodes);
  }

  /** A known destination keeps every repetition; an unknown one disappears. */
  lemma SanitiseCounts(g: Graph, dests: seq<Node>, d: Node)
    ensures multiset(Sanitise(g, dests))[d] == if d in g.nodes then multiset(dests)[d] else 0
  {
    FilterCount(dests, (n: Node) => n in g.nodes, d);
  }

  /** When every destination is known nothing is dropped. */
  lemma SanitiseAllKnown(g: Graph, dests: seq<Node>)
    requires forall d :: d in dests ==> d in g.nodes
    ensures Sanitise(g, dests) == dests
  {
    FilterKeepsAll(dests, (d: Node) => d in g.nodes);
  }

  /** The builder's result: the graph as the call leaves it, and the trees. */
  datatype Built = Built(graph: Graph, trees: seq<Graph>)

  /** Build k redundant multicast trees from `source` to `dests` with the named
      algorithm. Only the `steiner` algorithm with k != 1 writes to the graph,
      and it leaves every link as it was apart from removing the scratch
      attribute. An unknown algorithm name is an error. */
  method RedundantMulticastTrees(g: Graph, source: Node, dests: seq<Node>, k: nat, algorithm: string,
                                 metric: string, heurArgs: Option<seq<string>>, o: Oracles)
    returns (r: Result<Built, TopologyError>)
    ensures algorithm !in {"steiner", "diverse-paths", "red-blue", "ilp"} ==> r == Err(UnknownAlgorithm(algorithm))
    ensures r.Ok? && algorithm != "ilp" ==> |r.value.trees| == k
    ensures r.Ok? && (algorithm != "steiner" || k == 1) ==> r.value.graph == g
    ensures r.Ok? && algorithm == "steiner" && k != 1 ==>
      SteinerPenalty.SameButScratch(g, r.value.graph) &&
      forall l :: l in r.value.graph.links ==> SteinerPenalty.ScratchKey !in l.attrs
    ensures r.Ok? && algorithm == "steiner" && k != 1 ==>
      forall t, l :: t in r.value.trees && l in t.links ==> SteinerPenalty.ScratchKey !in l.attrs
    ensures algorithm == "ilp" ==> r == Ok(Built(g, o.ilp(g, source, Sanitise(g, dests), k)))
    ensures algorithm == "diverse-paths" && r.Ok? ==> forall t :: t in r.value.trees ==> SubgraphOf(t, g)
    ensures algorithm == "steiner" ==>
      var s := SteinerPenalty.SteinerTrees(g, Sanitise(g, dests), source, k, metric, heurArgs, o.steiner);
      (r.Ok? <==> s.Ok?) && (r.Ok? ==> r.value == Built(s.value.0, s.value.1))
    ensures algorithm == "diverse-paths" ==>
      (r == Err(EmptyMax) <==> DiversePaths.Overfull(g, source, Sanitise(g, dests), k, metric, o.distances, o.redundantPaths))
    ensures algorithm == "diverse-paths" && r.Err? ==> r.error == EmptyMax || r.error == NullGraph
    ensures algorithm == "diverse-paths" && r != Err(EmptyMax) ==>
      exists c, acc :: DiversePaths.AccumulatesTo(g, source, Sanitise(g, dests), k, metric, o.distances, o.redundantPaths, c, acc)
    ensures algorithm == "diverse-paths" && r != Err(EmptyMax) ==>
      (r.Ok? <==> forall c, acc :: DiversePaths.AccumulatesTo(g, source, Sanitise(g, dests), k, metric, o.distances, o.redundantPaths, c, acc) ==>
         forall i :: 0 <= i < |acc| ==> EdgeSubgraph(g, acc[i]).nodes != [])
    ensures algorithm == "diverse-paths" && r.Ok? ==>
      forall c, acc :: DiversePaths.AccumulatesTo(g, source, Sanitise(g, dests), k, metric, o.distances, o.redundantPaths, c, acc) ==>
        forall i :: 0 <= i < k ==>
          DiversePaths.RepairedFrom(g, acc[i], r.value.trees[i], source, (set d | d in Sanitise(g, dests)), metric, o.isTree, o.spanning)
    ensures algorithm == "red-blue" && k == 0 ==> r == Err(MathDomain)
    ensures algorithm == "red-blue" && k > 0 ==>
      (r.Ok? <==> forall w, d :: w in RedBlue.SplitRounds(g, source, o.split, RedBlue.CeilLog2(k)) && d in Sanitise(g, dests) ==> d in w.nodes)
    ensures algorithm == "red-blue" && k > 0 && r.Err? ==> r.error == DestinationLost
  {
    var known := Sanitise(g, dests);
    if algorithm == "steiner" {
      var s :- SteinerPenalty.SteinerTrees(g, known, source, k, metric, heurArgs, o.steiner);
      return Ok(Built(s.0, s.1));
    } else if algorithm == "diverse-paths" {
      var d, acc, choices := DiversePaths.DiversePathTrees(g, source, known, k, metric, o.distances, o.redundantPaths,
                                                           o.isTree, o.spanning);
      DiverseOutcome(g, source, known, k, metric, o, d, acc, choices);
      if d.Err? {
        return Err(d.error);
      }
      return Ok(Built(g, d.value));
    } else if algorithm == "red-blue" {
      var trees, warned :- RedBlue.RedBlueTrees(g, source, known, k, metric, o.split, o.rootedSteiner);
      return Ok(Built(g, trees));
    } else if algorithm == "ilp" {
      return Ok(Built(g, o.ilp(g, source, known, k)));
    } else {
      return Err(UnknownAlgorithm(algorithm));
    }
  }

  /** The diverse-paths outcome restated over every accumulation the contract
      allows: there is one and only one, so "the" accumulated edge sets are well defined. */
  lemma DiverseOutcome(g: Graph, source: Node, dests: seq<Node>, k: nat, metric: string, o: Oracles,
                       d: Result<seq<Graph>, TopologyError>, acc: seq<set<Pair>>, choices: seq<seq<nat>>)
    requires d != Err(EmptyMax) ==>
      |acc| == k && DiversePaths.AccumulatesTo(g, source, dests, k, metric, o.distances, o.redundantPaths, choices, acc)
    requires d != Err(EmptyMax) ==> (d.Ok? <==> forall i :: 0 <= i < |acc| ==> EdgeSubgraph(g, acc[i]).nodes != [])
    requires d.Ok? ==> |d.value| == k && forall i :: 0 <= i < k ==>
      DiversePaths.RepairedFrom(g, acc[i], d.value[i], source, (set x | x in dests), metric, o.isTree, o.spanning)
    ensures d != Err(EmptyMax) ==>
      exists c, a :: DiversePaths.AccumulatesTo(g, source, dests, k, metric, o.distances, o.redundantPaths, c, a)
    ensures d != Err(EmptyMax) ==>
      (d.Ok? <==> forall c, a :: DiversePaths.AccumulatesTo(g, source, dests, k, metric, o.distances, o.redundantPaths, c, a) ==>
         forall i :: 0 <= i < |a| ==> EdgeSubgraph(g, a[i]).nodes != [])
    ensures d.Ok? ==>
      forall c, a :: DiversePaths.AccumulatesTo(g, source, dests, k, metric, o.distances, o.redundantPaths, c, a) ==>
        forall i :: 0 <= i < k ==>
          DiversePaths.RepairedFrom(g, a[i], d.value[i], source, (set x | x in dests), metric, o.isTree, o.spanning)
  {
    if d != Err(EmptyMax) {
      var order := DiversePaths.VisitOrder(g, source, dests, metric, o.distances);
      var rounds := DiversePaths.RoundPaths(g, source, order, k, o.redundantPaths);
      forall c, a | DiversePaths.AccumulatesTo(g, source, dests, k, metric, o.distances, o.redundantPaths, c, a)
        ensures a == acc
      {
        DiversePaths.AccumulatedUnique(k, rounds, c, choices, |order|, a, acc);
      }
    }
  }
}
