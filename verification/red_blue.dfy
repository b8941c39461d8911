/** The recursive red/blue scheme. Starting from the whole topology, every
    graph in the working list is split by the red/blue colouring into two
    rooted DAGs, ceil(log2 k) times, so the list doubles each round; it is
    then cut to its first k members and each is turned into a Steiner tree
    rooted at the source. A warning is issued when k is not a power of two. */
module RedBlue {
  import opened Wrappers
  import opened Seqs
  import opened Graphs

  /** The red/blue colouring of a graph rooted at the source: (red DAG, blue DAG). */
  type SplitOracle = (Graph, Node) -> (Graph, Graph)

  /** A Steiner-tree routine rooted at the source, returning the undirected tree. */
  type RootedSteinerOracle = (Graph, seq<Node>, Node, string) -> Graph

  /** `int(math.log(k, 2))`, computed on integers. */
  function FloorLog2(k: nat): (n: nat)
    requires k >= 1
    ensures Pow2(n) <= k < Pow2(n + 1)
  {
    if k == 1 then 0 else 1 + FloorLog2(k / 2)
  }

  /** `int(math.ceil(math.log(k, 2)))`, computed on integers: the fewest doublings reaching k. */
  function CeilLog2(k: nat): (n: nat)
    requires k >= 1
    ensures k <= Pow2(n)
    ensures n == 0 || Pow2(n - 1) < k
  {
    if k == 1 then 0 else 1 + CeilLog2((k + 1) / 2)
  }

  predicate IsPowerOfTwo(k: nat)
  {
    k == 1 || (k >= 2 && k % 2 == 0 && IsPowerOfTwo(k / 2))
  }

  /** The warning test `k != 2 ** int(math.log(k, 2))`. */
  predicate Warns(k: nat)
    requires k >= 1
  {
    k != Pow2(FloorLog2(k))
  }

  /** The warning is issued exactly when k is not a power of two. */
  lemma {:induction false} WarnsIffNotPowerOfTwo(k: nat)
    requires k >= 1
    ensures Warns(k) <==> !IsPowerOfTwo(k)
  {
    if k >= 2 {
      WarnsIffNotPowerOfTwo(k / 2);
      assert Pow2(FloorLog2(k)) == 2 * Pow2(FloorLog2(k / 2));
    }
  }

  /** For a power of two the rounds are exactly its logarithm; otherwise one more. */
  lemma {:induction false} CeilLog2OfPowerOfTwo(k: nat)
    requires k >= 1
    ensures IsPowerOfTwo(k) <==> CeilLog2(k) == FloorLog2(k)
  {
    WarnsIffNotPowerOfTwo(k);
    var c, f := CeilLog2(k), FloorLog2(k);
    if c == f {
      assert Pow2(f) <= k <= Pow2(c);
    } else if IsPowerOfTwo(k) {
      assert k == Pow2(f);
      if c < f {
        PowMonotone(c, f - 1);
      } else {
        PowMonotone(f, c - 1);
      }
    }
  }

  lemma {:induction false} PowMonotone(a: nat, b: nat)
    requires a <= b
    ensures Pow2(a) <= Pow2(b)
  {
    if a < b {
      PowMonotone(a, b - 1);
    }
  }

  /** One round: every graph is replaced by its red half followed by its blue half. */
  function SplitAll(ws: seq<Graph>, source: Node, split: SplitOracle): (r: seq<Graph>)
    ensures |r| == 2 * |ws|
    ensures forall i :: 0 <= i < |ws| ==> r[2 * i] == split(ws[i], source).0 && r[2 * i + 1] == split(ws[i], source).1
  {
    if |ws| == 0 then []
    else
      var rest := SplitAll(ws[1..], source, split);
      assert forall i :: 1 <= i < |ws| ==> ws[i] == ws[1..][i - 1];
      [split(ws[0], source).0, split(ws[0], source).1] + rest
  }

  /** The working list after `n` rounds, starting from the topology. */
  function SplitRounds(g: Graph, source: Node, split: SplitOracle, n: nat): (ws: seq<Graph>)
    ensures |ws| == Pow2(n)
  {
    if n == 0 then [g] else SplitAll(SplitRounds(g, source, split, n - 1), source, split)
  }

  /** The first round splits the topology into its red and blue halves. */
  lemma FirstRound(g: Graph, source: Node, split: SplitOracle)
    ensures SplitRounds(g, source, split, 1) == [split(g, source).0, split(g, source).1]
  {
    var r := SplitRounds(g, source, split, 1);
    assert SplitRounds(g, source, split, 0) == [g];
    assert r == SplitAll([g], source, split);
    assert r[0] == split(g, source).0 && r[1] == split(g, source).1;
  }

  /** The ceil(log2 k) rounds of splitting, starting from the topology. */
  method Partition(g: Graph, source: Node, k: nat, split: SplitOracle) returns (ws: seq<Graph>)
    requires k >= 1
    ensures ws == SplitRounds(g, source, split, CeilLog2(k))
    ensures |ws| == Pow2(CeilLog2(k)) && |ws| >= k
    ensures k == 1 ==> ws == [g]
    ensures k == 2 ==> ws == [split(g, source).0, split(g, source).1]
  {
    var rounds := CeilLog2(k);
    ws := [g];
    var i := 0;
    while i < rounds
      invariant i <= rounds && ws == SplitRounds(g, source, split, i)
    {
      ws := SplitAll(ws, source, split);
      i := i + 1;
    }
    if k == 2 {
      assert rounds == 1 by {
        assert Pow2(1) == 2;
      }
      FirstRound(g, source, split);
    }
  }

  /** `get_redundant_multicast_trees` with the `red-blue` algorithm, on the
      sanitised destinations. Also reports whether the warning was issued. */
  method RedBlueTrees(g: Graph, source: Node, dests: seq<Node>, k: nat, metric: string,
                      split: SplitOracle, steiner: RootedSteinerOracle)
    returns (r: Result<seq<Graph>, TopologyError>, warned: bool)
    ensures k == 0 ==> r == Err(MathDomain)
    ensures k >= 1 ==> (warned <==> !IsPowerOfTwo(k))
    ensures k >= 1 && r.Err? ==> r.error == DestinationLost
    ensures k >= 1 ==> (r.Ok? <==> forall w, d :: w in SplitRounds(g, source, split, CeilLog2(k)) && d in dests ==> d in w.nodes)
    ensures r.Ok? ==> |r.value| == k
    ensures r.Ok? ==> forall i :: 0 <= i < k ==>
      r.value[i] == steiner(SplitRounds(g, source, split, CeilLog2(k))[i], dests, source, metric)
    ensures k == 1 && r.Ok? ==> r.value == [steiner(g, dests, source, metric)]
  {
    if k == 0 {
      return Err(MathDomain), false;
    }
    warned := Warns(k);
    WarnsIffNotPowerOfTwo(k);
    var ws := Partition(g, source, k, split);
    if exists w, d :: w in ws && d in dests && d !in w.nodes {
      return Err(DestinationLost), warned;
    }
    ws := ws[..k];
    r := Ok(seq(k, i requires 0 <= i < k => steiner(ws[i], dests, source, metric)));
  }
}
