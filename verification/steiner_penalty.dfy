/** The iterative-penalty Steiner heuristic. For k trees the graph's links get
    a scratch weight (the weight metric, or 1 when absent); each round asks the
    Steiner oracle for a tree under the scratch weights and then penalises the
    tree's links, either adding the maximum scratch weight measured once before
    the first round or doubling. The scratch attribute is removed at the end. */
module SteinerPenalty {
  import opened Wrappers
  import opened Seqs
  import opened Graphs

  /** The scratch attribute written onto every link for k > 1. */
  const ScratchKey: string := "_temp_mcast_weight"

  /** The weight a link without the metric attribute is given. */
  const DefaultWeight: int := 1

  datatype Policy = MaxPenalty | DoublePenalty

  /** A Steiner-tree routine: graph, terminals, weight attribute name. */
  type SteinerOracle = (Graph, seq<Node>, string) -> Graph

  /** `heur_args[0]` selects the policy; anything but "double" means max
      (an unrecognised name is warned about and replaced by max). */
  function ChoosePolicy(heurArgs: Option<seq<string>>): (p: Policy)
    ensures p == DoublePenalty <==> heurArgs.Some? && |heurArgs.value| >= 1 && heurArgs.value[0] == "double"
  {
    if heurArgs.Some? && |heurArgs.value| >= 1 then
      if heurArgs.value[0] !in {"max", "double"} then MaxPenalty
      else if heurArgs.value[0] == "max" then MaxPenalty
      else DoublePenalty
    else MaxPenalty
  }

  function Weight(l: Link, metric: string): int
  {
    if metric in l.attrs then l.attrs[metric] else DefaultWeight
  }

  function Scratch(l: Link): int
    requires ScratchKey in l.attrs
  {
    l.attrs[ScratchKey]
  }

  /** The link with its scratch attribute (if any) removed. */
  function Unscratch(l: Link): Link
  {
    l.(attrs := l.attrs - {ScratchKey})
  }

  predicate HasScratch(g: Graph)
  {
    forall l :: l in g.links ==> ScratchKey in l.attrs
  }

  predicate NonNegativeScratch(g: Graph)
    requires HasScratch(g)
  {
    forall l :: l in g.links ==> Scratch(l) >= 0
  }

  /** `h` is `g` with the links in the same order and only the scratch attribute possibly different. */
  predicate SameButScratch(g: Graph, h: Graph)
  {
    && h.nodes == g.nodes
    && |h.links| == |g.links|
    && forall i :: 0 <= i < |g.links| ==> Unscratch(h.links[i]) == Unscratch(g.links[i])
  }

  lemma SameButScratchTransitive(a: Graph, b: Graph, c: Graph)
    requires SameButScratch(a, b) && SameButScratch(b, c)
    ensures SameButScratch(a, c)
  {
  }

  /** Write the scratch weight onto every link. */
  function InitScratch(g: Graph, metric: string): (h: Graph)
    ensures HasScratch(h)
    ensures SameButScratch(g, h)
    ensures forall i :: 0 <= i < |g.links| ==> Scratch(h.links[i]) == Weight(g.links[i], metric)
  {
    Graph(g.nodes, seq(|g.links|, i requires 0 <= i < |g.links| =>
      g.links[i].(attrs := g.links[i].attrs[ScratchKey := Weight(g.links[i], metric)])))
  }

  /** Delete the scratch attribute from every link. */
  function StripScratch(g: Graph): (h: Graph)
    ensures SameButScratch(g, h)
    ensures forall l :: l in h.links ==> ScratchKey !in l.attrs
  {
    Graph(g.nodes, seq(|g.links|, i requires 0 <= i < |g.links| => Unscratch(g.links[i])))
  }

  /** The largest scratch weight, `max(...)` over all links. */
  function MaxScratch(links: seq<Link>): (m: int)
    requires |links| > 0
    requires forall l :: l in links ==> ScratchKey in l.attrs
    ensures forall l :: l in links ==> Scratch(l) <= m
    ensures exists l :: l in links && Scratch(l) == m
  {
    if |links| == 1 then Scratch(links[0])
    else
      var rest := MaxScratch(links[1..]);
      assert forall l :: l in links ==> l == links[0] || l in links[1..];
      if Scratch(links[0]) >= rest then Scratch(links[0]) else rest
  }

  /** The link is one of the tree's edges, in either orientation. */
  predicate OnTree(t: Graph, l: Link)
  {
    exists e :: e in t.links && SameEnds(e, l)
  }

  function Bump(policy: Policy, w: int, maxWeight: int): int
  {
    match policy
    case MaxPenalty => w + maxWeight
    case DoublePenalty => w * 2
  }

  /** One round's penalty: only links on the tree change, and only their scratch weight. */
  function Penalise(g: Graph, t: Graph, policy: Policy, maxWeight: int): (h: Graph)
    requires HasScratch(g)
    ensures HasScratch(h)
    ensures SameButScratch(g, h)
    ensures forall i :: 0 <= i < |g.links| && !OnTree(t, g.links[i]) ==> h.links[i] == g.links[i]
    ensures forall i :: 0 <= i < |g.links| && OnTree(t, g.links[i]) ==>
      Scratch(h.links[i]) == Bump(policy, Scratch(g.links[i]), maxWeight)
  {
    Graph(g.nodes, seq(|g.links|, i requires 0 <= i < |g.links| =>
      var l := g.links[i];
      if OnTree(t, l) then l.(attrs := l.attrs[ScratchKey := Bump(policy, Scratch(l), maxWeight)]) else l))
  }

  /** How many of the trees use the link. */
  function TimesOnTree(trees: seq<Graph>, l: Link): nat
  {
    if |trees| == 0 then 0 else (if OnTree(trees[0], l) then 1 else 0) + TimesOnTree(trees[1..], l)
  }

  /** The penalty applied `n` times to a scratch weight. */
  function Penalty(policy: Policy, w: int, maxWeight: int, n: nat): int
  {
    match policy
    case MaxPenalty => w + maxWeight * n
    case DoublePenalty => w * Pow2(n)
  }

  /** `g` after the trees `ts` have each penalised the links they use: every
      link's scratch weight is penalised once per tree on it. */
  function PenalisedBy(g: Graph, ts: seq<Graph>, policy: Policy, maxWeight: int): Graph
    requires HasScratch(g)
  {
    Graph(g.nodes, seq(|g.links|, i requires 0 <= i < |g.links| =>
      var l := g.links[i];
      l.(attrs := l.attrs[ScratchKey := Penalty(policy, Scratch(l), maxWeight, TimesOnTree(ts, l))])))
  }

  /** No tree, no penalty. */
  lemma PenalisedByNone(g: Graph, policy: Policy, maxWeight: int)
    requires HasScratch(g)
    ensures PenalisedBy(g, [], policy, maxWeight) == g
  {
    var h := PenalisedBy(g, [], policy, maxWeight);
    forall i | 0 <= i < |g.links|
      ensures h.links[i] == g.links[i]
    {
      var l := g.links[i];
      assert l in g.links;
      assert Penalty(policy, Scratch(l), maxWeight, 0) == Scratch(l);
      assert l.attrs[ScratchKey := Scratch(l)] == l.attrs;
    }
  }

  /** Penalising for one tree and then for the rest is penalising for all of them. */
  lemma PenalisedByStep(g: Graph, t: Graph, ts: seq<Graph>, policy: Policy, maxWeight: int)
    requires HasScratch(g)
    ensures PenalisedBy(Penalise(g, t, policy, maxWeight), ts, policy, maxWeight) == PenalisedBy(g, [t] + ts, policy, maxWeight)
  {
    var h := Penalise(g, t, policy, maxWeight);
    var a := PenalisedBy(h, ts, policy, maxWeight);
    var b := PenalisedBy(g, [t] + ts, policy, maxWeight);
    forall i | 0 <= i < |g.links|
      ensures a.links[i] == b.links[i]
    {
      var l := g.links[i];
      var hl := h.links[i];
      assert l in g.links && hl in h.links;
      assert hl.u == l.u && hl.v == l.v;
      TimesOnTreeSameEnds(ts, hl, l);
      assert ([t] + ts)[1..] == ts;
      var n := TimesOnTree(ts, l);
      if OnTree(t, l) {
        PenaltyStep(policy, Scratch(l), maxWeight, n);
        var x := Penalty(policy, Scratch(l), maxWeight, n + 1);
        assert hl.attrs[ScratchKey := x] == l.attrs[ScratchKey := x];
      }
    }
  }

  /** A link is determined by its scratch-free part and its scratch weight. */
  lemma ScratchDetermines(a: Link, b: Link)
    requires ScratchKey in a.attrs && ScratchKey in b.attrs
    requires Unscratch(a) == Unscratch(b) && Scratch(a) == Scratch(b)
    ensures a == b
  {
    assert a.attrs == Unscratch(a).attrs[ScratchKey := Scratch(a)];
    assert b.attrs == Unscratch(b).attrs[ScratchKey := Scratch(b)];
  }

  /** The per-round inputs of one more round in front of the rest. */
  lemma RoundsPenalised(g: Graph, t: Graph, rest: seq<Graph>, terminals: seq<Node>, policy: Policy, maxWeight: int,
                        steiner: SteinerOracle)
    requires HasScratch(g)
    requires t == steiner(g, terminals, ScratchKey)
    requires forall i :: 0 <= i < |rest| ==>
      rest[i] == steiner(PenalisedBy(Penalise(g, t, policy, maxWeight), rest[..i], policy, maxWeight), terminals, ScratchKey)
    ensures forall i :: 0 <= i < |rest| + 1 ==>
      ([t] + rest)[i] == steiner(PenalisedBy(g, ([t] + rest)[..i], policy, maxWeight), terminals, ScratchKey)
  {
    forall i | 0 <= i < |rest| + 1
      ensures ([t] + rest)[i] == steiner(PenalisedBy(g, ([t] + rest)[..i], policy, maxWeight), terminals, ScratchKey)
    {
      if i == 0 {
        assert ([t] + rest)[..0] == [];
        PenalisedByNone(g, policy, maxWeight);
      } else {
        assert ([t] + rest)[..i] == [t] + rest[..i - 1];
        PenalisedByStep(g, t, rest[..i - 1], policy, maxWeight);
      }
    }
  }

  /** The k rounds of tree building. Round i asks the oracle for a tree under
      the scratch weights as the earlier rounds' trees left them. Every link
      ends up penalised once per tree that uses it, by the same fixed amount
      (max) or a factor of two (double); when all weights and the penalty are
      non-negative no scratch weight ever decreases. */
  function Rounds(g: Graph, terminals: seq<Node>, k: nat, policy: Policy, maxWeight: int,
                  steiner: SteinerOracle): (r: (Graph, seq<Graph>))
    requires HasScratch(g)
    ensures HasScratch(r.0)
    ensures |r.1| == k
    ensures SameButScratch(g, r.0)
    ensures k > 0 ==> r.1[0] == steiner(g, terminals, ScratchKey)
    ensures forall i :: 0 <= i < k ==> r.1[i] == steiner(PenalisedBy(g, r.1[..i], policy, maxWeight), terminals, ScratchKey)
    ensures r.0 == PenalisedBy(g, r.1, policy, maxWeight)
    ensures forall i :: 0 <= i < |g.links| ==>
      Scratch(r.0.links[i]) == Penalty(policy, Scratch(g.links[i]), maxWeight, TimesOnTree(r.1, g.links[i]))
    ensures NonNegativeScratch(g) && maxWeight >= 0 ==>
      NonNegativeScratch(r.0) && forall i :: 0 <= i < |g.links| ==> Scratch(r.0.links[i]) >= Scratch(g.links[i])
    decreases k
  {
    if k == 0 then PenalisedByNone(g, policy, maxWeight); (g, [])
    else
      var t := steiner(g, terminals, ScratchKey);
      var h := Penalise(g, t, policy, maxWeight);
      var rest := Rounds(h, terminals, k - 1, policy, maxWeight, steiner);
      RoundStep(g, h, t, rest.0, rest.1, policy, maxWeight);
      RoundsPenalised(g, t, rest.1, terminals, policy, maxWeight, steiner);
      PenalisedByStep(g, t, rest.1, policy, maxWeight);
      (rest.0, [t] + rest.1)
  }

  lemma PenaltyStep(policy: Policy, w: int, maxWeight: int, n: nat)
    ensures Penalty(policy, Bump(policy, w, maxWeight), maxWeight, n) == Penalty(policy, w, maxWeight, n + 1)
  {
    match policy
    case MaxPenalty =>
      assert maxWeight * (n + 1) == maxWeight * n + maxWeight;
    case DoublePenalty =>
      assert w * 2 * Pow2(n) == w * (2 * Pow2(n));
  }

  lemma {:induction false} TimesOnTreeSameEnds(trees: seq<Graph>, a: Link, b: Link)
    requires a.u == b.u && a.v == b.v
    ensures TimesOnTree(trees, a) == TimesOnTree(trees, b)
  {
    if |trees| > 0 {
      assert OnTree(trees[0], a) == OnTree(trees[0], b);
      TimesOnTreeSameEnds(trees[1..], a, b);
    }
  }

  /** The accounting of one round: the first tree's penalty followed by the remaining rounds' penalties. */
  lemma RoundStep(g: Graph, h: Graph, t: Graph, last: Graph, rest: seq<Graph>, policy: Policy, maxWeight: int)
    requires HasScratch(g) && HasScratch(h) && HasScratch(last)
    requires h == Penalise(g, t, policy, maxWeight)
    requires SameButScratch(h, last)
    requires forall i :: 0 <= i < |h.links| ==>
      Scratch(last.links[i]) == Penalty(policy, Scratch(h.links[i]), maxWeight, TimesOnTree(rest, h.links[i]))
    requires NonNegativeScratch(h) && maxWeight >= 0 ==>
      NonNegativeScratch(last) && forall i :: 0 <= i < |h.links| ==> Scratch(last.links[i]) >= Scratch(h.links[i])
    ensures SameButScratch(g, last)
    ensures forall i :: 0 <= i < |g.links| ==>
      Scratch(last.links[i]) == Penalty(policy, Scratch(g.links[i]), maxWeight, TimesOnTree([t] + rest, g.links[i]))
    ensures NonNegativeScratch(g) && maxWeight >= 0 ==>
      NonNegativeScratch(last) && forall i :: 0 <= i < |g.links| ==> Scratch(last.links[i]) >= Scratch(g.links[i])
  {
    forall i | 0 <= i < |g.links|
      ensures Unscratch(last.links[i]) == Unscratch(g.links[i])
      ensures Scratch(last.links[i]) == Penalty(policy, Scratch(g.links[i]), maxWeight, TimesOnTree([t] + rest, g.links[i]))
    {
      assert Unscratch(h.links[i]) == Unscratch(g.links[i]);
      assert h.links[i].u == g.links[i].u && h.links[i].v == g.links[i].v;
      TimesOnTreeSameEnds(rest, h.links[i], g.links[i]);
      assert ([t] + rest)[1..] == rest;
      if OnTree(t, g.links[i]) {
        PenaltyStep(policy, Scratch(g.links[i]), maxWeight, TimesOnTree(rest, g.links[i]));
      }
    }
    if NonNegativeScratch(g) && maxWeight >= 0 {
      forall i | 0 <= i < |g.links|
        ensures Scratch(h.links[i]) >= Scratch(g.links[i]) >= 0
      {
        assert g.links[i] in g.links;
      }
      assert NonNegativeScratch(h) by {
        forall l | l in h.links
          ensures Scratch(l) >= 0
        {
          var i :| 0 <= i < |h.links| && h.links[i] == l;
        }
      }
    }
  }

  /** Removing the scratch attribute does not move a tree's edges. */
  lemma OnTreeStripped(t: Graph, l: Link)
    ensures OnTree(StripScratch(t), l) == OnTree(t, l)
  {
    var s := StripScratch(t);
    if OnTree(t, l) {
      var e :| e in t.links && SameEnds(e, l);
      var i :| 0 <= i < |t.links| && t.links[i] == e;
      assert s.links[i] in s.links && SameEnds(s.links[i], l);
    }
    if OnTree(s, l) {
      var e :| e in s.links && SameEnds(e, l);
      var i :| 0 <= i < |s.links| && s.links[i] == e;
      assert t.links[i] in t.links && SameEnds(t.links[i], l);
    }
  }

  /** Stripped trees count on a link as often as the trees they came from. */
  lemma {:induction false} TimesOnTreeStripped(ts: seq<Graph>, ss: seq<Graph>, l: Link)
    requires |ss| == |ts| && forall j :: 0 <= j < |ts| ==> ss[j] == StripScratch(ts[j])
    ensures TimesOnTree(ss, l) == TimesOnTree(ts, l)
  {
    if |ts| > 0 {
      OnTreeStripped(ts[0], l);
      TimesOnTreeStripped(ts[1..], ss[1..], l);
    }
  }

  /** The penalised graph depends only on the edges of the trees, not on their attributes. */
  lemma PenalisedByStripped(g: Graph, ts: seq<Graph>, ss: seq<Graph>, policy: Policy, maxWeight: int)
    requires HasScratch(g)
    requires |ss| == |ts| && forall j :: 0 <= j < |ts| ==> ss[j] == StripScratch(ts[j])
    ensures PenalisedBy(g, ss, policy, maxWeight) == PenalisedBy(g, ts, policy, maxWeight)
  {
    forall i | 0 <= i < |g.links|
      ensures TimesOnTree(ss, g.links[i]) == TimesOnTree(ts, g.links[i])
    {
      TimesOnTreeStripped(ts, ss, g.links[i]);
    }
  }

  /** The trees as returned: the oracle's graphs share the topology's link
      attributes, so the final removal of the scratch attribute strips them too. */
  function StripTrees(ts: seq<Graph>): (ss: seq<Graph>)
    ensures |ss| == |ts|
    ensures forall j, l :: 0 <= j < |ss| && l in ss[j].links ==> ScratchKey !in l.attrs
  {
    seq(|ts|, j requires 0 <= j < |ts| => StripScratch(ts[j]))
  }

  /** Every prefix of the stripped trees penalises like the same prefix of the originals. */
  lemma PrefixesStripped(g: Graph, ts: seq<Graph>, policy: Policy, maxWeight: int)
    requires HasScratch(g)
    ensures forall i :: 0 <= i <= |ts| ==>
      PenalisedBy(g, StripTrees(ts)[..i], policy, maxWeight) == PenalisedBy(g, ts[..i], policy, maxWeight)
  {
    var ss := StripTrees(ts);
    forall i | 0 <= i <= |ts|
      ensures PenalisedBy(g, ss[..i], policy, maxWeight) == PenalisedBy(g, ts[..i], policy, maxWeight)
    {
      PenalisedByStripped(g, ts[..i], ss[..i], policy, maxWeight);
    }
  }

  /** `get_redundant_multicast_trees` with the `steiner` algorithm, on the
      sanitised destinations. For k == 1 the graph is untouched and the oracle
      is called with the library's default "weight" attribute. Otherwise the
      scratch weights are set up, `max` over all links is taken (raising on an
      edgeless graph), k rounds are run and the scratch attribute is removed
      from the graph and, through the shared attributes, from the trees. */
  function SteinerTrees(g: Graph, dests: seq<Node>, source: Node, k: nat, metric: string,
                        heurArgs: Option<seq<string>>, steiner: SteinerOracle): (r: Result<(Graph, seq<Graph>), TopologyError>)
    ensures k == 1 ==> r == Ok((g, [steiner(g, dests + [source], "weight")]))
    ensures k != 1 ==> (r.Err? <==> |g.links| == 0)
    ensures r.Err? ==> r.error == EmptyMax
    ensures k != 1 && r.Ok? ==> |r.value.1| == k && SameButScratch(g, r.value.0)
    ensures k != 1 && r.Ok? ==> forall l :: l in r.value.0.links ==> ScratchKey !in l.attrs
    ensures k != 1 && r.Ok? ==> forall j, l :: 0 <= j < |r.value.1| && l in r.value.1[j].links ==> ScratchKey !in l.attrs
    ensures k != 1 && r.Ok? ==>
      var h := InitScratch(g, metric);
      forall i :: 0 <= i < k ==>
        r.value.1[i] == StripScratch(steiner(PenalisedBy(h, r.value.1[..i], ChoosePolicy(heurArgs), MaxScratch(h.links)),
                                             dests + [source], ScratchKey))
  {
    var terminals := dests + [source];
    if k == 1 then Ok((g, [steiner(g, terminals, "weight")]))
    else
      var h := InitScratch(g, metric);
      var policy := ChoosePolicy(heurArgs);
      if |h.links| == 0 then Err(EmptyMax)
      else
        var maxWeight := MaxScratch(h.links);
        var rounds := Rounds(h, terminals, k, policy, maxWeight, steiner);
        var stripped := StripScratch(rounds.0);
        SameButScratchTransitive(g, h, rounds.0);
        SameButScratchTransitive(g, rounds.0, stripped);
        PrefixesStripped(h, rounds.1, policy, maxWeight);
        Ok((stripped, StripTrees(rounds.1)))
  }
}
