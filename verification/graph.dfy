/** The graph model of the topology: an undirected graph whose nodes are
    names and whose links carry a map of integer-valued attributes (the
    `weight` metric among them). Node and link order is the order in which
    the graph library enumerates them. */
module Graphs {
  import opened Seqs

  type Node = string

  /** An oriented node pair: an edge as a path produces it. */
  type Pair = (Node, Node)

  type Attrs = map<string, int>

  datatype Link = Link(u: Node, v: Node, attrs: Attrs)

  datatype Graph = Graph(nodes: seq<Node>, links: seq<Link>)

  /** The exceptions the multicast-tree builder can raise. */
  datatype TopologyError =
    | EmptyMax                      // ValueError: max() over an empty sequence
    | MathDomain                    // ValueError: logarithm of a non-positive k
    | DestinationLost               // AssertionError: a red/blue half lost a destination
    | UnknownAlgorithm(name: string) // ValueError: no such tree algorithm
    | NullGraph                     // NetworkXPointlessConcept: is_tree of a graph without nodes

  /** Two links are the same undirected edge when their end points agree in either orientation. */
  predicate SameEnds(a: Link, b: Link)
  {
    (a.u == b.u && a.v == b.v) || (a.u == b.v && a.v == b.u)
  }

  /** The link is one of the undirected edges named by `es`. */
  predicate OnEdges(l: Link, es: set<Pair>)
  {
    (l.u, l.v) in es || (l.v, l.u) in es
  }

  /** The number of link ends at `n`; a self-loop counts twice, as in networkx. */
  function Degree(links: seq<Link>, n: Node): nat
  {
    if |links| == 0 then 0
    else (if links[0].u == n then 1 else 0) + (if links[0].v == n then 1 else 0) + Degree(links[1..], n)
  }

  /** A node has a positive degree exactly when some link touches it. */
  lemma {:induction false} DegreePositive(links: seq<Link>, n: Node)
    ensures Degree(links, n) > 0 <==> exists l :: l in links && (l.u == n || l.v == n)
  {
    if |links| > 0 {
      DegreePositive(links[1..], n);
      assert forall l :: l in links <==> l == links[0] || l in links[1..];
    }
  }

  /** Every node and every link of `h` belongs to `g`. */
  predicate SubgraphOf(h: Graph, g: Graph)
  {
    && (forall n :: n in h.nodes ==> n in g.nodes)
    && (forall l :: l in h.links ==> l in g.links)
  }

  lemma SubgraphTransitive(a: Graph, b: Graph, c: Graph)
    requires SubgraphOf(a, b) && SubgraphOf(b, c)
    ensures SubgraphOf(a, c)
  {
  }

  /** Subgraph induced by a set of edges: the links on those edges and the
      nodes they touch, both in the graph's own order. */
  function EdgeSubgraph(g: Graph, es: set<Pair>): (h: Graph)
    ensures SubgraphOf(h, g)
    ensures forall l :: l in h.links <==> l in g.links && OnEdges(l, es)
    ensures forall n :: n in h.nodes <==> n in g.nodes && exists l :: l in h.links && (l.u == n || l.v == n)
  {
    var links := Filter(g.links, (l: Link) => OnEdges(l, es));
    Graph(Filter(g.nodes, (n: Node) => exists l :: l in links && (l.u == n || l.v == n)), links)
  }

  /** The consecutive node pairs of a path, as `get_edges_for_path` zips them. */
  function EdgesForPath(p: seq<Node>): (r: seq<Pair>)
    ensures |r| == if |p| <= 1 then 0 else |p| - 1
    ensures forall i :: 0 <= i < |r| ==> r[i] == (p[i], p[i + 1])
  {
    if |p| <= 1 then [] else [(p[0], p[1])] + EdgesForPath(p[1..])
  }

  /** Reading a path back off its first node and the far ends of its edges. */
  function PathOfEdges(first: Node, es: seq<Pair>): (p: seq<Node>)
    ensures |p| == |es| + 1 && p[0] == first
  {
    [first] + seq(|es|, i requires 0 <= i < |es| => es[i].1)
  }

  /** A path of at least one node is recovered from its edge list. */
  lemma EdgesForPathRoundTrip(p: seq<Node>)
    requires |p| >= 1
    ensures PathOfEdges(p[0], EdgesForPath(p)) == p
  {
    var q := PathOfEdges(p[0], EdgesForPath(p));
    assert forall i :: 0 < i < |p| ==> q[i] == EdgesForPath(p)[i - 1].1;
  }

  /** Splicing two paths at a shared join node concatenates their edge lists:
      every edge of the spliced path is an edge of one of the two, and it has
      one edge fewer than it has nodes. */
  lemma {:induction false} EdgesForPathSplice(p: seq<Node>, q: seq<Node>)
    requires |p| >= 1 && |q| >= 1 && p[|p| - 1] == q[0]
    ensures EdgesForPath(p + q[1..]) == EdgesForPath(p) + EdgesForPath(q)
  {
    var m := p + q[1..];
    var l := EdgesForPath(m);
    var r := EdgesForPath(p) + EdgesForPath(q);
    assert |l| == |r|;
    forall i | 0 <= i < |l|
      ensures l[i] == r[i]
    {
      if i < |p| - 1 {
        assert m[i] == p[i] && m[i + 1] == p[i + 1];
        assert r[i] == EdgesForPath(p)[i];
      } else {
        var j := i - (|p| - 1);
        assert r[i] == EdgesForPath(q)[j] == (q[j], q[j + 1]);
        if j == 0 {
          assert m[i] == p[|p| - 1] == q[0];
        } else {
          assert m[i] == q[1..][i - |p|] == q[j];
        }
        assert m[i + 1] == q[1..][i + 1 - |p|] == q[j + 1];
      }
    }
  }
}
