/** Repair of a near-tree: after a spanning subgraph has been taken, leaves
    that are neither the source nor a destination are stripped, round after
    round, until none is left. */
module LeafTrim {
  import opened Seqs
  import opened Graphs

  predicate Terminal(n: Node, source: Node, dests: set<Node>)
  {
    n == source || n in dests
  }

  /** A degree-1 node that the multicast tree does not need. */
  predicate NonTerminalLeaf(g: Graph, n: Node, source: Node, dests: set<Node>)
  {
    Degree(g.links, n) == 1 && !Terminal(n, source, dests)
  }

  /** The non-terminal leaves of `g`, in node order. */
  function Leaves(g: Graph, source: Node, dests: set<Node>): (r: seq<Node>)
    ensures forall n :: n in r <==> n in g.nodes && NonTerminalLeaf(g, n, source, dests)
  {
    Filter(g.nodes, (n: Node) => NonTerminalLeaf(g, n, source, dests))
  }

  /** networkx `remove_nodes_from`: the nodes go, and so does every link touching one. */
  function RemoveNodes(g: Graph, xs: seq<Node>): (h: Graph)
    ensures forall n :: n in h.nodes <==> n in g.nodes && n !in xs
    ensures forall l :: l in h.links <==> l in g.links && l.u !in xs && l.v !in xs
  {
    Graph(Filter(g.nodes, (n: Node) => n !in xs), Filter(g.links, (l: Link) => l.u !in xs && l.v !in xs))
  }

  /** The trimming loop as a definition: all current non-terminal leaves go
      at once, then the leaves of what is left are looked at again. Every
      terminal survives, no non-terminal leaf is left, and a link is dropped
      only together with one of its end nodes. */
  function Trim(g: Graph, source: Node, dests: set<Node>): (h: Graph)
    ensures SubgraphOf(h, g)
    ensures forall n :: n in g.nodes && Terminal(n, source, dests) ==> n in h.nodes
    ensures forall n :: n in h.nodes ==> !NonTerminalLeaf(h, n, source, dests)
    ensures forall l :: l in g.links && l.u in h.nodes && l.v in h.nodes ==> l in h.links
    decreases |g.nodes|
  {
    var leaves := Leaves(g, source, dests);
    if |leaves| == 0 then g
    else
      FilterShrinks(g.nodes, (n: Node) => n !in leaves, leaves[0]);
      Trim(RemoveNodes(g, leaves), source, dests)
  }

  /** Strip non-terminal leaves until none remains. Each round removes at
      least one node, so the loop ends. */
  method TrimLeaves(g: Graph, source: Node, dests: set<Node>) returns (h: Graph)
    ensures h == Trim(g, source, dests)
    ensures SubgraphOf(h, g)
    ensures forall n :: n in g.nodes && Terminal(n, source, dests) ==> n in h.nodes
    ensures forall n :: n in h.nodes ==> !NonTerminalLeaf(h, n, source, dests)
    ensures forall l :: l in g.links && l.u in h.nodes && l.v in h.nodes ==> l in h.links
    ensures |Leaves(g, source, dests)| == 0 ==> h == g
  {
    h := g;
    var leaves := Leaves(h, source, dests);
    while |leaves| > 0
      invariant Trim(h, source, dests) == Trim(g, source, dests)
      invariant leaves == Leaves(h, source, dests)
      invariant |Leaves(g, source, dests)| == 0 ==> h == g
      decreases |h.nodes|
    {
      FilterShrinks(h.nodes, (n: Node) => n !in leaves, leaves[0]);
      h := RemoveNodes(h, leaves);
      leaves := Leaves(h, source, dests);
    }
  }

  /** The path s-x-d with a pendant y hanging off x. */
  function PendantGraph(): Graph
  {
    Graph(["s", "x", "d", "y"], [Link("s", "x", map[]), Link("x", "d", map[]), Link("x", "y", map[])])
  }

  /** The path s-x-d on its own. */
  function PathGraph(): Graph
  {
    Graph(["s", "x", "d"], [Link("s", "x", map[]), Link("x", "d", map[])])
  }

  lemma PendantLeaves()
    ensures Leaves(PendantGraph(), "s", {"d"}) == ["y"]
  {
    var g := PendantGraph();
    var xd, xy := Link("x", "d", map[]), Link("x", "y", map[]);
    assert g.links[1..] == [xd, xy] && [xd, xy][1..] == [xy] && [xy][1..] == [];
    assert "s" != "x" && "s" != "y" && "s" != "d" && "x" != "d" && "x" != "y" && "d" != "y";
    assert Degree([xy], "x") == 1;
    assert Degree([xy], "y") == (if "x" == "y" then 1 else 0) + 1 + Degree([], "y");
    assert Degree([xd, xy], "x") == 1 + Degree([xy], "x");
    assert Degree([xd, xy], "y") == Degree([xy], "y");
    assert Degree(g.links, "x") == 3 && Degree(g.links, "y") == 1;
    var leaf := (n: Node) => NonTerminalLeaf(g, n, "s", {"d"});
    assert Filter(["y"], leaf) == ["y"];
    assert Filter(["d", "y"], leaf) == ["y"];
    assert Filter(["x", "d", "y"], leaf) == ["y"];
  }

  lemma PendantNodesKept()
    ensures Filter(PendantGraph().nodes, (n: Node) => n !in ["y"]) == PathGraph().nodes
  {
    var keep := (n: Node) => n !in ["y"];
    assert "s" != "y" && "x" != "y" && "d" != "y";
    assert ["s", "x", "d", "y"][1..] == ["x", "d", "y"] && ["x", "d", "y"][1..] == ["d", "y"];
    assert ["d", "y"][1..] == ["y"] && ["y"][1..] == [];
    assert Filter(["y"], keep) == [];
    assert Filter(["d", "y"], keep) == ["d"];
    assert Filter(["x", "d", "y"], keep) == ["x", "d"];
  }

  lemma PendantLinksKept()
    ensures Filter(PendantGraph().links, (l: Link) => l.u !in ["y"] && l.v !in ["y"]) == PathGraph().links
  {
    var sx, xd, xy := Link("s", "x", map[]), Link("x", "d", map[]), Link("x", "y", map[]);
    var keepLink := (l: Link) => l.u !in ["y"] && l.v !in ["y"];
    assert "s" != "y" && "x" != "y" && "d" != "y";
    assert [sx, xd, xy][1..] == [xd, xy] && [xd, xy][1..] == [xy] && [xy][1..] == [];
    assert Filter([xy], keepLink) == [];
    assert Filter([xd, xy], keepLink) == [xd];
  }

  lemma PendantRemoved()
    ensures RemoveNodes(PendantGraph(), ["y"]) == PathGraph()
  {
    PendantNodesKept();
    PendantLinksKept();
  }

  lemma PathHasNoLeaves()
    ensures Leaves(PathGraph(), "s", {"d"}) == []
  {
    var h := PathGraph();
    var xd := Link("x", "d", map[]);
    assert h.links[1..] == [xd] && [xd][1..] == [];
    assert "s" != "x" && "x" != "d";
    assert Degree(h.links, "x") == 2;
    var hleaf := (n: Node) => NonTerminalLeaf(h, n, "s", {"d"});
    assert Filter(["d"], hleaf) == [];
    assert Filter(h.nodes, hleaf) == [];
  }

  /** A path s-x-d with a pendant y on x: only the pendant goes, the path stays whole. */
  lemma TrimPendantExample()
    ensures Trim(PendantGraph(), "s", {"d"}) == PathGraph()
  {
    PendantLeaves();
    PendantRemoved();
    PathHasNoLeaves();
  }
}
