/** The diverse-paths heuristic. Destinations are visited in increasing
    (distance, name) order; each gets k redundant paths from the source, and
    each path joins the not-yet-served tree it overlaps most, ties going to the
    highest tree index. Trees are sets of oriented edges; at the end each is
    materialised as a subgraph and, when it is not a tree, replaced by a
    spanning subgraph with its non-terminal leaves trimmed. */
module DiversePaths {
  import opened Wrappers
  import opened Seqs
  import opened Graphs
  import opened LeafTrim

  // ---------------------------------------------------------------------------
  // Destination order

  /** Python's string order: lexicographic by character, a proper prefix first. */
  predicate StrLeq(a: string, b: string)
  {
    |a| == 0 || (|b| > 0 && (a[0] < b[0] || (a[0] == b[0] && StrLeq(a[1..], b[1..]))))
  }

  lemma {:induction false} StrLeqTotal(a: string, b: string)
    ensures StrLeq(a, b) || StrLeq(b, a)
  {
    if |a| > 0 && |b| > 0 && a[0] == b[0] {
      StrLeqTotal(a[1..], b[1..]);
    }
  }

  lemma {:induction false} StrLeqAntisymmetric(a: string, b: string)
    requires StrLeq(a, b) && StrLeq(b, a)
    ensures a == b
  {
    if |a| > 0 {
      StrLeqAntisymmetric(a[1..], b[1..]);
      assert a == [a[0]] + a[1..] && b == [b[0]] + b[1..];
    }
  }

  lemma {:induction false} StrLeqTransitive(a: string, b: string, c: string)
    requires StrLeq(a, b) && StrLeq(b, c)
    ensures StrLeq(a, c)
  {
    if |a| > 0 && a[0] == b[0] && b[0] == c[0] {
      StrLeqTransitive(a[1..], b[1..], c[1..]);
    }
  }

  /** A destination with its distance from the source, compared as the tuple (distance, name). */
  type Ranked = (int, Node)

  predicate RankLeq(x: Ranked, y: Ranked)
  {
    x.0 < y.0 || (x.0 == y.0 && StrLeq(x.1, y.1))
  }

  lemma RankLeqTransitive(x: Ranked, y: Ranked, z: Ranked)
    requires RankLeq(x, y) && RankLeq(y, z)
    ensures RankLeq(x, z)
  {
    if x.0 == y.0 && y.0 == z.0 {
      StrLeqTransitive(x.1, y.1, z.1);
    }
  }

  predicate Sorted(s: seq<Ranked>)
  {
    forall i :: 0 <= i < |s| - 1 ==> RankLeq(s[i], s[i + 1])
  }

  function Insert(x: Ranked, s: seq<Ranked>): (r: seq<Ranked>)
    requires Sorted(s)
    ensures Sorted(r)
    ensures multiset(r) == multiset(s) + multiset{x}
    ensures |r| == |s| + 1
    ensures r[0] == x || (|s| > 0 && r[0] == s[0])
  {
    if |s| == 0 then [x]
    else if RankLeq(x, s[0]) then [x] + s
    else
      StrLeqTotal(x.1, s[0].1);
      var rest := Insert(x, s[1..]);
      assert s == [s[0]] + s[1..];
      [s[0]] + rest
  }

  /** Insertion sort by (distance, name). */
  function Sort(s: seq<Ranked>): (r: seq<Ranked>)
    ensures Sorted(r)
    ensures multiset(r) == multiset(s)
  {
    if |s| == 0 then []
    else
      assert s == [s[0]] + s[1..];
      Insert(s[0], Sort(s[1..]))
  }

  lemma {:induction false} SortedHeadLeast(s: seq<Ranked>, x: Ranked)
    requires Sorted(s) && x in s
    ensures RankLeq(s[0], x)
  {
    if s[0] == x {
      StrLeqTotal(x.1, x.1);
    } else {
      assert x in s[1..];
      SortedHeadLeast(s[1..], x);
      RankLeqTransitive(s[0], s[1], x);
    }
  }

  /** A sorted arrangement is unique: any sort by the tuple order (Python's
      `sorted` included) gives exactly what `Sort` gives. */
  lemma {:induction false} SortedUnique(a: seq<Ranked>, b: seq<Ranked>)
    requires Sorted(a) && Sorted(b) && multiset(a) == multiset(b)
    ensures a == b
  {
    if |a| == 0 {
      assert |b| == |multiset(b)| == 0;
    } else {
      assert |b| == |multiset(b)| == |multiset(a)| == |a|;
      assert a[0] in multiset(b) && b[0] in multiset(a);
      SortedHeadLeast(a, b[0]);
      SortedHeadLeast(b, a[0]);
      StrLeqAntisymmetric(a[0].1, b[0].1);
      assert a == [a[0]] + a[1..] && b == [b[0]] + b[1..];
      assert multiset(a[1..]) == multiset(a) - multiset{a[0]};
      assert multiset(b[1..]) == multiset(b) - multiset{b[0]};
      SortedUnique(a[1..], b[1..]);
    }
  }

  /** The `(distance, dest)` tuples for the reachable nodes that are destinations, in the oracle's order. */
  function Ranks(dists: seq<(Node, int)>, dests: set<Node>): (r: seq<Ranked>)
    ensures forall x :: x in r <==> (x.1, x.0) in dists && x.1 in dests
  {
    if |dists| == 0 then []
    else
      assert forall y :: y in dists <==> y == dists[0] || y in dists[1..];
      (if dists[0].0 in dests then [(dists[0].1, dists[0].0)] else []) + Ranks(dists[1..], dests)
  }

  /** The visiting order: reachable destinations by ascending (distance, name). */
  function DestinationOrder(dists: seq<(Node, int)>, dests: set<Node>): (r: seq<Ranked>)
    ensures Sorted(r)
    ensures forall x :: x in r <==> (x.1, x.0) in dists && x.1 in dests
    ensures multiset(r) == multiset(Ranks(dists, dests))
  {
    var s := Sort(Ranks(dists, dests));
    assert forall x :: x in s <==> x in multiset(s);
    s
  }

  // ---------------------------------------------------------------------------
  // Assignment of one destination's paths to trees

  function EdgeSet(es: seq<Pair>): set<Pair>
  {
    set e | e in es
  }

  /** How many of the path's edges the tree already holds. */
  function Overlap(tree: set<Pair>, es: seq<Pair>): nat
  {
    |tree * EdgeSet(es)|
  }

  /** The tuple `(overlap, index)` of tree `j` is at most that of tree `b`. */
  predicate NoBetter(trees: seq<set<Pair>>, es: seq<Pair>, j: nat, b: nat)
    requires j < |trees| && b < |trees|
  {
    Overlap(trees[j], es) < Overlap(trees[b], es) || (Overlap(trees[j], es) == Overlap(trees[b], es) && j <= b)
  }

  /** `b` is `max((overlap, j) for j in left)`. */
  predicate IsBest(trees: seq<set<Pair>>, left: set<nat>, es: seq<Pair>, b: nat)
  {
    && b in left && b < |trees|
    && forall j :: j in left && j < |trees| ==> NoBetter(trees, es, j, b)
  }

  /** The best candidate among tree indices below `n`, scanning upwards so that a later index wins a tie. */
  function BestBelow(trees: seq<set<Pair>>, left: set<nat>, es: seq<Pair>, n: nat): (r: Option<nat>)
    requires n <= |trees|
    ensures r.None? <==> forall j :: 0 <= j < n ==> j !in left
    ensures r.Some? ==> r.value < n && r.value in left
    ensures r.Some? ==> forall j :: 0 <= j < n && j in left ==> NoBetter(trees, es, j, r.value)
  {
    if n == 0 then None
    else
      var b := BestBelow(trees, left, es, n - 1);
      if n - 1 in left && (b.None? || Overlap(trees[n - 1], es) >= Overlap(trees[b.value], es)) then Some(n - 1)
      else b
  }

  /** The tree indices `0 .. k-1` not used yet. */
  function Remaining(k: nat, used: seq<nat>): set<nat>
  {
    set j | 0 <= j < k && j !in used
  }

  lemma {:induction false} RangeSize(k: nat)
    ensures |Remaining(k, [])| == k
  {
    if k > 0 {
      RangeSize(k - 1);
      assert Remaining(k, []) == Remaining(k - 1, []) + {k - 1};
    }
  }

  /** One destination's round (the inner loop over its paths). Every path
      goes to the best remaining tree, judged on the trees as the round found
      them (a remaining tree has not changed); trees only grow; with exactly k
      paths every tree receives exactly one; more paths than trees make `max`
      raise on an empty candidate set. */
  method AssignRound(trees: seq<set<Pair>>, paths: seq<seq<Node>>)
    returns (r: Result<seq<set<Pair>>, TopologyError>, chosen: seq<nat>)
    ensures r.Ok? <==> |paths| <= |trees|
    ensures r.Err? ==> r.error == EmptyMax
    ensures r.Ok? ==> |r.value| == |trees| && |chosen| == |paths|
    ensures r.Ok? ==> forall a, b :: 0 <= a < b < |chosen| ==> chosen[a] != chosen[b]
    ensures r.Ok? ==> forall i :: 0 <= i < |chosen| ==> chosen[i] < |trees|
    ensures r.Ok? ==> ChoicesBest(trees, paths, chosen)
    ensures r.Ok? && |paths| == |trees| ==> forall j :: 0 <= j < |trees| ==> j in chosen
    ensures r.Ok? ==> forall j :: 0 <= j < |trees| ==> trees[j] <= r.value[j]
    ensures r.Ok? ==> Covered(r.value, paths, chosen)
    ensures r.Ok? ==> FromPaths(trees, r.value, paths, chosen)
    ensures r.Ok? ==> r.value == AfterRound(trees, paths, chosen)
  {
    var cur := trees;
    var left := Remaining(|trees|, []);
    chosen := [];
    AssignStart(trees, paths);
    while |chosen| < |paths|
      invariant AssignInvariant(trees, paths, cur, chosen, left)
      decreases |paths| - |chosen|
    {
      var es := EdgesForPath(paths[|chosen|]);
      var best := BestBelow(cur, left, es, |trees|);
      if best.None? {
        AssignExhausted(trees, paths, cur, chosen, left);
        return Err(EmptyMax), chosen;
      }
      var b := best.value;
      AssignStep(trees, paths, cur, chosen, left, b);
      cur := cur[b := cur[b] + EdgeSet(es)];
      chosen := chosen + [b];
      left := left - {b};
    }
    AssignEnd(trees, paths, cur, chosen, left);
    RoundExact(trees, cur, paths, chosen);
    r := Ok(cur);
  }

  /** The state of a round after the first `|chosen|` paths: the trees not
      chosen yet are untouched, and everything the round promises so far holds. */
  predicate AssignInvariant(trees: seq<set<Pair>>, paths: seq<seq<Node>>, cur: seq<set<Pair>>,
                           chosen: seq<nat>, left: set<nat>)
  {
    && |chosen| <= |paths| && |cur| == |trees|
    && left == Remaining(|trees|, chosen) && |left| + |chosen| == |trees|
    && (forall a, b :: 0 <= a < b < |chosen| ==> chosen[a] != chosen[b])
    && (forall a :: 0 <= a < |chosen| ==> chosen[a] < |trees|)
    && (forall j :: j in left ==> cur[j] == trees[j])
    && (forall j :: 0 <= j < |trees| ==> trees[j] <= cur[j])
    && Covered(cur, paths, chosen)
    && ChoicesBest(trees, paths, chosen)
    && FromPaths(trees, cur, paths, chosen)
  }

  lemma AssignStart(trees: seq<set<Pair>>, paths: seq<seq<Node>>)
    ensures AssignInvariant(trees, paths, trees, [], Remaining(|trees|, []))
  {
    RangeSize(|trees|);
  }

  /** No tree left while a path remains: there were more paths than trees. */
  lemma AssignExhausted(trees: seq<set<Pair>>, paths: seq<seq<Node>>, cur: seq<set<Pair>>,
                       chosen: seq<nat>, left: set<nat>)
    requires AssignInvariant(trees, paths, cur, chosen, left) && |chosen| < |paths|
    requires forall j :: 0 <= j < |trees| ==> j !in left
    ensures |paths| > |trees|
  {
    assert left == {};
  }

  /** Giving the next path to the best remaining tree keeps the invariant. */
  lemma AssignStep(trees: seq<set<Pair>>, paths: seq<seq<Node>>, cur: seq<set<Pair>>,
                  chosen: seq<nat>, left: set<nat>, b: nat)
    requires AssignInvariant(trees, paths, cur, chosen, left) && |chosen| < |paths|
    requires b < |trees| && b in left
    requires forall j :: 0 <= j < |trees| && j in left ==> NoBetter(cur, EdgesForPath(paths[|chosen|]), j, b)
    ensures var es := EdgesForPath(paths[|chosen|]);
            AssignInvariant(trees, paths, cur[b := cur[b] + EdgeSet(es)], chosen + [b], left - {b})
  {
    var es := EdgesForPath(paths[|chosen|]);
    assert IsBest(trees, left, es, b) by {
      forall j | j in left && j < |trees|
        ensures NoBetter(trees, es, j, b)
      {
        assert NoBetter(cur, es, j, b);
      }
    }
    ChoicesBestStep(trees, paths, chosen, b);
    FromPathsStep(trees, cur, paths, chosen, b);
    CoveredStep(cur, paths, chosen, b);
    assert Remaining(|trees|, chosen + [b]) == left - {b};
  }

  /** At the end of a round with as many paths as trees, every tree was chosen. */
  lemma AssignEnd(trees: seq<set<Pair>>, paths: seq<seq<Node>>, cur: seq<set<Pair>>,
                 chosen: seq<nat>, left: set<nat>)
    requires AssignInvariant(trees, paths, cur, chosen, left) && |chosen| == |paths|
    ensures |paths| <= |trees|
    ensures |paths| == |trees| ==> forall j :: 0 <= j < |trees| ==> j in chosen
  {
    if |paths| == |trees| {
      assert left == {};
      forall j | 0 <= j < |trees|
        ensures j in chosen
      {
        assert j !in left;
      }
    }
  }

  /** Each chosen tree holds the edges of the path it was given. */
  predicate Covered(cur: seq<set<Pair>>, paths: seq<seq<Node>>, chosen: seq<nat>)
  {
    && |chosen| <= |paths|
    && forall m :: 0 <= m < |chosen| ==> chosen[m] < |cur| && EdgeSet(EdgesForPath(paths[m])) <= cur[chosen[m]]
  }

  /** Each choice was the best among the trees not chosen before it. */
  predicate ChoicesBest(trees: seq<set<Pair>>, paths: seq<seq<Node>>, chosen: seq<nat>)
    decreases |chosen|
  {
    && |chosen| <= |paths|
    && (|chosen| == 0 ||
        var m := |chosen| - 1;
        && ChoicesBest(trees, paths, chosen[..m])
        && IsBest(trees, Remaining(|trees|, chosen[..m]), EdgesForPath(paths[m]), chosen[m]))
  }

  /** `ChoicesBest` choice by choice: the `m`-th path went to the best tree
      among those the first `m` choices left. */
  lemma {:induction false} ChoicesBestEach(trees: seq<set<Pair>>, paths: seq<seq<Node>>, chosen: seq<nat>)
    requires ChoicesBest(trees, paths, chosen)
    ensures forall m :: 0 <= m < |chosen| ==>
      IsBest(trees, Remaining(|trees|, chosen[..m]), EdgesForPath(paths[m]), chosen[m])
  {
    if |chosen| > 0 {
      var n := |chosen| - 1;
      ChoicesBestEach(trees, paths, chosen[..n]);
      forall m | 0 <= m < n
        ensures IsBest(trees, Remaining(|trees|, chosen[..m]), EdgesForPath(paths[m]), chosen[m])
      {
        assert chosen[..n][..m] == chosen[..m];
      }
    }
  }

  /** Every edge of a tree was there at the start or came from a path given to it. */
  predicate FromPaths(trees: seq<set<Pair>>, cur: seq<set<Pair>>, paths: seq<seq<Node>>, chosen: seq<nat>)
  {
    && |cur| == |trees| && |chosen| <= |paths|
    && forall j, e :: 0 <= j < |trees| && e in cur[j] ==>
         e in trees[j] || exists m :: 0 <= m < |chosen| && chosen[m] == j && e in EdgesForPath(paths[m])
  }

  lemma ChoicesBestStep(trees: seq<set<Pair>>, paths: seq<seq<Node>>, chosen: seq<nat>, b: nat)
    requires |chosen| < |paths|
    requires ChoicesBest(trees, paths, chosen)
    requires IsBest(trees, Remaining(|trees|, chosen), EdgesForPath(paths[|chosen|]), b)
    ensures ChoicesBest(trees, paths, chosen + [b])
  {
    assert (chosen + [b])[..|chosen|] == chosen;
  }

  lemma CoveredStep(cur: seq<set<Pair>>, paths: seq<seq<Node>>, chosen: seq<nat>, b: nat)
    requires |chosen| < |paths| && b < |cur|
    requires Covered(cur, paths, chosen)
    ensures Covered(cur[b := cur[b] + EdgeSet(EdgesForPath(paths[|chosen|]))], paths, chosen + [b])
  {
  }

  lemma FromPathsStep(trees: seq<set<Pair>>, cur: seq<set<Pair>>, paths: seq<seq<Node>>, chosen: seq<nat>, b: nat)
    requires |chosen| < |paths| && b < |cur|
    requires FromPaths(trees, cur, paths, chosen)
    ensures FromPaths(trees, cur[b := cur[b] + EdgeSet(EdgesForPath(paths[|chosen|]))], paths, chosen + [b])
  {
    var es := EdgesForPath(paths[|chosen|]);
    var cur' := cur[b := cur[b] + EdgeSet(es)];
    var c := chosen + [b];
    forall j, e | 0 <= j < |trees| && e in cur'[j]
      ensures e in trees[j] || exists m :: 0 <= m < |c| && c[m] == j && e in EdgesForPath(paths[m])
    {
      if j == b && e in EdgeSet(es) {
        assert c[|chosen|] == j;
      } else {
        assert e in cur[j];
        if e !in trees[j] {
          var m :| 0 <= m < |chosen| && chosen[m] == j && e in EdgesForPath(paths[m]);
          assert c[m] == j;
        }
      }
    }
  }

  /** The edges of the round's paths that were given to tree `j`. */
  function Given(paths: seq<seq<Node>>, chosen: seq<nat>, j: nat): set<Pair>
  {
    set m, e | 0 <= m < |paths| && m < |chosen| && chosen[m] == j && e in EdgesForPath(paths[m]) :: e
  }

  /** The trees after a round: each gains exactly the edges of the paths given to it. */
  function AfterRound(trees: seq<set<Pair>>, paths: seq<seq<Node>>, chosen: seq<nat>): (r: seq<set<Pair>>)
    ensures |r| == |trees|
  {
    seq(|trees|, j requires 0 <= j < |trees| => trees[j] + Given(paths, chosen, j))
  }

  /** Grown trees that hold every given path and nothing else new are exactly `AfterRound`. */
  lemma RoundExact(trees: seq<set<Pair>>, cur: seq<set<Pair>>, paths: seq<seq<Node>>, chosen: seq<nat>)
    requires |cur| == |trees| && |chosen| == |paths|
    requires forall j :: 0 <= j < |trees| ==> trees[j] <= cur[j]
    requires Covered(cur, paths, chosen) && FromPaths(trees, cur, paths, chosen)
    ensures cur == AfterRound(trees, paths, chosen)
  {
    var after := AfterRound(trees, paths, chosen);
    forall j | 0 <= j < |trees|
      ensures cur[j] == after[j]
    {
      forall e | e in cur[j]
        ensures e in after[j]
      {
        if e !in trees[j] {
          var m :| 0 <= m < |chosen| && chosen[m] == j && e in EdgesForPath(paths[m]);
          assert e in Given(paths, chosen, j);
        }
      }
      forall e | e in after[j]
        ensures e in cur[j]
      {
        if e !in trees[j] {
          var m :| 0 <= m < |paths| && m < |chosen| && chosen[m] == j && e in EdgesForPath(paths[m]);
          assert e in EdgeSet(EdgesForPath(paths[m]));
        }
      }
    }
  }

  /** What a successful round promises about its choices: one distinct tree
      per path, each the best remaining when its path came. */
  predicate RoundChoices(trees: seq<set<Pair>>, paths: seq<seq<Node>>, chosen: seq<nat>)
  {
    && |chosen| == |paths|
    && (forall a, b :: 0 <= a < b < |chosen| ==> chosen[a] != chosen[b])
    && (forall m :: 0 <= m < |chosen| ==> chosen[m] < |trees|)
    && (|paths| == |trees| ==> forall j :: 0 <= j < |trees| ==> j in chosen)
    && ChoicesBest(trees, paths, chosen)
  }

  /** `max` has one answer: the (overlap, index) order is total. */
  lemma BestUnique(trees: seq<set<Pair>>, left: set<nat>, es: seq<Pair>, b1: nat, b2: nat)
    requires IsBest(trees, left, es, b1) && IsBest(trees, left, es, b2)
    ensures b1 == b2
  {
    assert NoBetter(trees, es, b1, b2) && NoBetter(trees, es, b2, b1);
  }

  lemma {:induction false} ChoicesAgree(trees: seq<set<Pair>>, paths: seq<seq<Node>>, c1: seq<nat>, c2: seq<nat>)
    requires ChoicesBest(trees, paths, c1) && ChoicesBest(trees, paths, c2) && |c1| == |c2|
    ensures c1 == c2
  {
    if |c1| > 0 {
      var n := |c1| - 1;
      ChoicesAgree(trees, paths, c1[..n], c2[..n]);
      BestUnique(trees, Remaining(|trees|, c1[..n]), EdgesForPath(paths[n]), c1[n], c2[n]);
      assert c1 == c1[..n] + [c1[n]];
      assert c2 == c2[..n] + [c2[n]];
    }
  }

  /** The round's contract leaves no freedom: only one choice sequence meets it. */
  lemma RoundChoicesUnique(trees: seq<set<Pair>>, paths: seq<seq<Node>>, c1: seq<nat>, c2: seq<nat>)
    requires RoundChoices(trees, paths, c1) && RoundChoices(trees, paths, c2)
    ensures c1 == c2
  {
    ChoicesAgree(trees, paths, c1, c2);
  }

  // ---------------------------------------------------------------------------
  // The whole heuristic

  /** networkx `shortest_path_length` from a source: (node, distance) for every reachable node. */
  type DistanceOracle = (Graph, Node, string) -> seq<(Node, int)>

  /** The redundant-path routine: k paths between two nodes, as node sequences. */
  type PathsOracle = (Graph, Node, Node, nat) -> seq<seq<Node>>

  /** networkx `is_tree`. */
  type TreeTest = Graph -> bool

  /** networkx `minimum_spanning_edges` (without data), under a weight attribute. */
  type SpanningOracle = (Graph, string) -> seq<Pair>

  /** Some tree already holds every edge of the path. */
  predicate PathPlaced(trees: seq<set<Pair>>, p: seq<Node>)
  {
    exists j :: 0 <= j < |trees| && EdgeSet(EdgesForPath(p)) <= trees[j]
  }

  /** Tree `j` holds every edge of one of the paths. */
  predicate ServedBy(tree: set<Pair>, ps: seq<seq<Node>>)
  {
    exists m :: 0 <= m < |ps| && EdgeSet(EdgesForPath(ps[m])) <= tree
  }

  /** Each visited destination's redundant paths, in visiting order. */
  function RoundPaths(g: Graph, source: Node, order: seq<Ranked>, k: nat, paths: PathsOracle): (ps: seq<seq<seq<Node>>>)
    ensures |ps| == |order|
  {
    seq(|order|, i requires 0 <= i < |order| => paths(g, source, order[i].1, k))
  }

  /** The trees after the rounds of the first `n` destinations, starting from k empty trees. */
  function Built(k: nat, rounds: seq<seq<seq<Node>>>, choices: seq<seq<nat>>, n: nat): (r: seq<set<Pair>>)
    requires n <= |rounds| && n <= |choices|
    ensures |r| == k
  {
    if n == 0 then seq(k, _ => {})
    else AfterRound(Built(k, rounds, choices, n - 1), rounds[n - 1], choices[n - 1])
  }

  /** An edge is in tree `j` exactly when it lies on a path that some round gave to `j`. */
  lemma {:induction false} BuiltContents(k: nat, rounds: seq<seq<seq<Node>>>, choices: seq<seq<nat>>, n: nat,
                                         j: nat, e: Pair)
    requires n <= |rounds| && n <= |choices| && j < k
    ensures e in Built(k, rounds, choices, n)[j] <==>
      exists i, m :: 0 <= i < n && 0 <= m < |rounds[i]| && m < |choices[i]| && choices[i][m] == j &&
        e in EdgesForPath(rounds[i][m])
  {
    if n > 0 {
      BuiltContents(k, rounds, choices, n - 1, j, e);
      var last := Given(rounds[n - 1], choices[n - 1], j);
      assert Built(k, rounds, choices, n)[j] == Built(k, rounds, choices, n - 1)[j] + last;
      if e in last {
        var m :| 0 <= m < |rounds[n - 1]| && m < |choices[n - 1]| && choices[n - 1][m] == j &&
          e in EdgesForPath(rounds[n - 1][m]);
      }
      if exists i, m :: 0 <= i < n && 0 <= m < |rounds[i]| && m < |choices[i]| && choices[i][m] == j &&
           e in EdgesForPath(rounds[i][m]) {
        var i, m :| 0 <= i < n && 0 <= m < |rounds[i]| && m < |choices[i]| && choices[i][m] == j &&
          e in EdgesForPath(rounds[i][m]);
        if i == n - 1 {
          assert e in last;
        }
      }
    }
  }

  /** The trees depend only on the choices of the rounds so far. */
  lemma {:induction false} BuiltAgree(k: nat, rounds: seq<seq<seq<Node>>>, a: seq<seq<nat>>, b: seq<seq<nat>>, n: nat)
    requires n <= |rounds| && n <= |a| && n <= |b|
    requires forall i :: 0 <= i < n ==> a[i] == b[i]
    ensures Built(k, rounds, a, n) == Built(k, rounds, b, n)
  {
    if n > 0 {
      BuiltAgree(k, rounds, a, b, n - 1);
    }
  }

  /** Every one of the first `n` rounds made the choices a round promises,
      judged against the trees as that round found them. */
  predicate Greedy(k: nat, rounds: seq<seq<seq<Node>>>, choices: seq<seq<nat>>, n: nat)
    requires n <= |rounds| && n <= |choices|
  {
    n == 0 ||
    (Greedy(k, rounds, choices, n - 1) &&
     RoundChoices(Built(k, rounds, choices, n - 1), rounds[n - 1], choices[n - 1]))
  }

  /** The state after `n` destinations: greedy choices, and the trees they built. */
  predicate Accumulated(k: nat, rounds: seq<seq<seq<Node>>>, choices: seq<seq<nat>>, n: nat, trees: seq<set<Pair>>)
  {
    && n <= |rounds| && |choices| == n
    && Greedy(k, rounds, choices, n)
    && trees == Built(k, rounds, choices, n)
  }

  /** Whether the rounds were greedy depends only on their own choices. */
  lemma {:induction false} GreedyAgree(k: nat, rounds: seq<seq<seq<Node>>>, a: seq<seq<nat>>, b: seq<seq<nat>>, n: nat)
    requires n <= |rounds| && n <= |a| && n <= |b|
    requires forall i :: 0 <= i < n ==> a[i] == b[i]
    ensures Greedy(k, rounds, a, n) == Greedy(k, rounds, b, n)
  {
    if n > 0 {
      GreedyAgree(k, rounds, a, b, n - 1);
      BuiltAgree(k, rounds, a, b, n - 1);
    }
  }

  lemma AccumulateStep(k: nat, rounds: seq<seq<seq<Node>>>, choices: seq<seq<nat>>, n: nat,
                       trees: seq<set<Pair>>, chosen: seq<nat>)
    requires n < |rounds| && Accumulated(k, rounds, choices, n, trees)
    requires RoundChoices(trees, rounds[n], chosen)
    ensures Accumulated(k, rounds, choices + [chosen], n + 1, AfterRound(trees, rounds[n], chosen))
  {
    var c := choices + [chosen];
    GreedyAgree(k, rounds, c, choices, n);
    BuiltAgree(k, rounds, c, choices, n);
  }

  lemma {:induction false} RoundsAgree(k: nat, rounds: seq<seq<seq<Node>>>, c1: seq<seq<nat>>, c2: seq<seq<nat>>, n: nat)
    requires n <= |rounds| && n <= |c1| && n <= |c2|
    requires Greedy(k, rounds, c1, n) && Greedy(k, rounds, c2, n)
    ensures forall i :: 0 <= i < n ==> c1[i] == c2[i]
  {
    if n > 0 {
      RoundsAgree(k, rounds, c1, c2, n - 1);
      BuiltAgree(k, rounds, c1, c2, n - 1);
      RoundChoicesUnique(Built(k, rounds, c1, n - 1), rounds[n - 1], c1[n - 1], c2[n - 1]);
    }
  }

  /** The accumulation's contract determines its outcome: the choices and the
      trees are the only ones meeting it. */
  lemma AccumulatedUnique(k: nat, rounds: seq<seq<seq<Node>>>, c1: seq<seq<nat>>, c2: seq<seq<nat>>, n: nat,
                          t1: seq<set<Pair>>, t2: seq<set<Pair>>)
    requires Accumulated(k, rounds, c1, n, t1) && Accumulated(k, rounds, c2, n, t2)
    ensures c1 == c2 && t1 == t2
  {
    RoundsAgree(k, rounds, c1, c2, n);
  }

  /** The outer loop over destinations in visiting order. A destination whose
      oracle returns more than k paths makes the round's `max` raise.
      Otherwise the trees are exactly what the greedy rounds built; every path
      ends up inside some tree and, for a destination with exactly k paths,
      every tree holds one of that destination's paths. `choices` records
      which tree each round gave each path to. */
  method AccumulateTrees(g: Graph, source: Node, order: seq<Ranked>, k: nat, paths: PathsOracle)
    returns (r: Result<seq<set<Pair>>, TopologyError>, choices: seq<seq<nat>>)
    ensures r.Ok? <==> forall i :: 0 <= i < |order| ==> |paths(g, source, order[i].1, k)| <= k
    ensures r.Err? ==> r.error == EmptyMax
    ensures r.Ok? ==> |r.value| == k && Accumulated(k, RoundPaths(g, source, order, k, paths), choices, |order|, r.value)
    ensures r.Ok? ==> forall i, m :: 0 <= i < |order| && 0 <= m < |paths(g, source, order[i].1, k)| ==>
      PathPlaced(r.value, paths(g, source, order[i].1, k)[m])
    ensures r.Ok? ==> forall i, j :: 0 <= i < |order| && |paths(g, source, order[i].1, k)| == k && 0 <= j < k ==>
      ServedBy(r.value[j], paths(g, source, order[i].1, k))
  {
    var empty: seq<set<Pair>> := seq(k, _ => {});
    r, choices := AccumulateFrom(g, source, order, k, paths, 0, empty, []);
    if r.Ok? {
      ghost var rounds := RoundPaths(g, source, order, k, paths);
      AccumulatedPlaces(k, rounds, choices, |order|, r.value);
      assert forall i :: 0 <= i < |order| ==> rounds[i] == paths(g, source, order[i].1, k);
    }
  }

  /** The rounds of destinations `i` onwards, given the state after the first `i`. */
  method AccumulateFrom(g: Graph, source: Node, order: seq<Ranked>, k: nat, paths: PathsOracle, i: nat,
                        trees: seq<set<Pair>>, choices: seq<seq<nat>>)
    returns (r: Result<seq<set<Pair>>, TopologyError>, all: seq<seq<nat>>)
    requires i <= |order| && Accumulated(k, RoundPaths(g, source, order, k, paths), choices, i, trees)
    ensures r.Ok? <==> forall i' :: i <= i' < |order| ==> |paths(g, source, order[i'].1, k)| <= k
    ensures r.Err? ==> r.error == EmptyMax
    ensures r.Ok? ==> Accumulated(k, RoundPaths(g, source, order, k, paths), all, |order|, r.value)
    decreases |order| - i
  {
    if i == |order| {
      return Ok(trees), choices;
    }
    var round, chosen := NextRound(g, source, order, k, paths, i, trees, choices);
    if round.Err? {
      return Err(round.error), choices;
    }
    r, all := AccumulateFrom(g, source, order, k, paths, i + 1, round.value, choices + [chosen]);
  }

  /** Destination `i`'s round: it fails exactly when the destination has more
      paths than there are trees, and otherwise extends the accumulation by it. */
  method NextRound(g: Graph, source: Node, order: seq<Ranked>, k: nat, paths: PathsOracle, i: nat,
                   trees: seq<set<Pair>>, choices: seq<seq<nat>>)
    returns (r: Result<seq<set<Pair>>, TopologyError>, chosen: seq<nat>)
    requires i < |order| && Accumulated(k, RoundPaths(g, source, order, k, paths), choices, i, trees)
    ensures r.Ok? <==> |paths(g, source, order[i].1, k)| <= k
    ensures r.Err? ==> r.error == EmptyMax
    ensures r.Ok? ==> Accumulated(k, RoundPaths(g, source, order, k, paths), choices + [chosen], i + 1, r.value)
  {
    var ps := paths(g, source, order[i].1, k);
    r, chosen := AssignRound(trees, ps);
    if r.Ok? {
      ghost var rounds := RoundPaths(g, source, order, k, paths);
      assert rounds[i] == ps;
      AccumulateStep(k, rounds, choices, i, trees, chosen);
    }
  }

  /** Round `i` of a greedy accumulation made the choices a round promises. */
  lemma {:induction false} GreedyRound(k: nat, rounds: seq<seq<seq<Node>>>, choices: seq<seq<nat>>, n: nat, i: nat)
    requires n <= |rounds| && n <= |choices| && Greedy(k, rounds, choices, n) && i < n
    ensures RoundChoices(Built(k, rounds, choices, i), rounds[i], choices[i])
  {
    if i < n - 1 {
      GreedyRound(k, rounds, choices, n - 1, i);
    }
  }

  /** What the accumulation guarantees the caller: every path of a visited
      destination lies inside some tree, and a destination with as many
      paths as trees serves every tree. */
  lemma AccumulatedPlaces(k: nat, rounds: seq<seq<seq<Node>>>, choices: seq<seq<nat>>, n: nat, trees: seq<set<Pair>>)
    requires Accumulated(k, rounds, choices, n, trees)
    ensures forall i, m :: 0 <= i < n && 0 <= m < |rounds[i]| ==> PathPlaced(trees, rounds[i][m])
    ensures forall i, j :: 0 <= i < n && |rounds[i]| == k && 0 <= j < k ==> ServedBy(trees[j], rounds[i])
  {
    forall i, m | 0 <= i < n && 0 <= m < |rounds[i]|
      ensures PathPlaced(trees, rounds[i][m])
    {
      GreedyRound(k, rounds, choices, n, i);
      var j := choices[i][m];
      assert j < |Built(k, rounds, choices, i)| == k == |trees|;
      forall e | e in EdgeSet(EdgesForPath(rounds[i][m]))
        ensures e in trees[j]
      {
        BuiltContents(k, rounds, choices, n, j, e);
      }
      assert EdgeSet(EdgesForPath(rounds[i][m])) <= trees[j];
    }
    forall i, j | 0 <= i < n && |rounds[i]| == k && 0 <= j < k
      ensures ServedBy(trees[j], rounds[i])
    {
      GreedyRound(k, rounds, choices, n, i);
      assert j in choices[i];
      var m :| 0 <= m < |choices[i]| && choices[i][m] == j;
      forall e | e in EdgeSet(EdgesForPath(rounds[i][m]))
        ensures e in trees[j]
      {
        BuiltContents(k, rounds, choices, n, j, e);
      }
    }
  }

  /** A repaired tree has no leaf other than the source or a destination. */
  predicate Trimmed(t: Graph, source: Node, dests: set<Node>)
  {
    forall n :: n in t.nodes ==> !NonTerminalLeaf(t, n, source, dests)
  }

  /** `t` is what the source makes of the edge set `tree`: its subgraph `sub`
      of the topology when that is a tree; otherwise the spanning subgraph of
      `sub` with its non-terminal leaves trimmed round by round. */
  predicate RepairedFrom(g: Graph, tree: set<Pair>, t: Graph, source: Node, dests: set<Node>, metric: string,
                         isTree: TreeTest, spanning: SpanningOracle)
  {
    var sub := EdgeSubgraph(g, tree);
    && SubgraphOf(t, g)
    && (isTree(sub) ==> t == sub)
    && (!isTree(sub) ==>
          t == Trim(EdgeSubgraph(sub, EdgeSet(spanning(sub, metric))), source, dests))
  }

  /** One tree's materialisation and, when it is not a tree, its repair.
      `is_tree` rejects a subgraph without nodes. */
  method RepairTree(g: Graph, tree: set<Pair>, source: Node, dests: set<Node>, metric: string,
                    isTree: TreeTest, spanning: SpanningOracle) returns (r: Result<Graph, TopologyError>)
    ensures r.Err? <==> EdgeSubgraph(g, tree).nodes == []
    ensures r.Err? ==> r.error == NullGraph
    ensures r.Ok? ==> RepairedFrom(g, tree, r.value, source, dests, metric, isTree, spanning)
  {
    var t := EdgeSubgraph(g, tree);
    if |t.nodes| == 0 {
      return Err(NullGraph);
    }
    if !isTree(t) {
      var spanned := EdgeSubgraph(t, EdgeSet(spanning(t, metric)));
      var trimmed := TrimLeaves(spanned, source, dests);
      SubgraphTransitive(trimmed, spanned, t);
      SubgraphTransitive(trimmed, t, g);
      t := trimmed;
    }
    return Ok(t);
  }

  /** Each edge set becomes a subgraph of the topology; one that is not a tree
      is cut down to a spanning subgraph and trimmed of non-terminal leaves.
      The first edge set whose subgraph has no nodes makes `is_tree` raise. */
  method Materialise(g: Graph, trees: seq<set<Pair>>, source: Node, dests: set<Node>, metric: string,
                     isTree: TreeTest, spanning: SpanningOracle) returns (r: Result<seq<Graph>, TopologyError>)
    ensures r.Ok? <==> forall i :: 0 <= i < |trees| ==> EdgeSubgraph(g, trees[i]).nodes != []
    ensures r.Err? ==> r.error == NullGraph
    ensures r.Ok? ==> |r.value| == |trees|
    ensures r.Ok? ==> forall i :: 0 <= i < |trees| ==>
      RepairedFrom(g, trees[i], r.value[i], source, dests, metric, isTree, spanning)
  {
    if |trees| == 0 {
      return Ok([]);
    }
    var t := RepairTree(g, trees[0], source, dests, metric, isTree, spanning);
    if t.Err? {
      return Err(t.error);
    }
    var rest := Materialise(g, trees[1..], source, dests, metric, isTree, spanning);
    if rest.Err? {
      return Err(rest.error);
    }
    r := Ok([t.value] + rest.value);
    forall i | 0 < i < |trees|
      ensures RepairedFrom(g, trees[i], r.value[i], source, dests, metric, isTree, spanning)
    {
      assert trees[i] == trees[1..][i - 1] && r.value[i] == rest.value[i - 1];
    }
  }

  /** The destinations in the order the heuristic visits them. */
  function VisitOrder(g: Graph, source: Node, dests: seq<Node>, metric: string, distances: DistanceOracle): seq<Ranked>
  {
    DestinationOrder(distances(g, source, metric), set d | d in dests)
  }

  /** Some visited destination has more redundant paths than there are trees. */
  predicate Overfull(g: Graph, source: Node, dests: seq<Node>, k: nat, metric: string,
                     distances: DistanceOracle, paths: PathsOracle)
  {
    exists x :: x in VisitOrder(g, source, dests, metric, distances) && |paths(g, source, x.1, k)| > k
  }

  /** The accumulation over the visited destinations made `choices` and ended with the edge sets `acc`. */
  predicate AccumulatesTo(g: Graph, source: Node, dests: seq<Node>, k: nat, metric: string,
                          distances: DistanceOracle, paths: PathsOracle, choices: seq<seq<nat>>, acc: seq<set<Pair>>)
  {
    var order := VisitOrder(g, source, dests, metric, distances);
    Accumulated(k, RoundPaths(g, source, order, k, paths), choices, |order|, acc)
  }

  /** `get_redundant_multicast_trees` with the `diverse-paths` algorithm, on
      the sanitised destinations. `acc` and `choices` are the accumulated
      edge sets and the rounds' choices behind the result. */
  method DiversePathTrees(g: Graph, source: Node, dests: seq<Node>, k: nat, metric: string,
                          distances: DistanceOracle, paths: PathsOracle, isTree: TreeTest, spanning: SpanningOracle)
    returns (r: Result<seq<Graph>, TopologyError>, acc: seq<set<Pair>>, choices: seq<seq<nat>>)
    ensures r == Err(EmptyMax) <==> Overfull(g, source, dests, k, metric, distances, paths)
    ensures r.Err? ==> r.error == EmptyMax || r.error == NullGraph
    ensures r != Err(EmptyMax) ==> |acc| == k && AccumulatesTo(g, source, dests, k, metric, distances, paths, choices, acc)
    ensures r != Err(EmptyMax) ==> (r.Ok? <==> forall i :: 0 <= i < |acc| ==> EdgeSubgraph(g, acc[i]).nodes != [])
    ensures r.Ok? ==> |r.value| == k && forall i :: 0 <= i < k ==>
      RepairedFrom(g, acc[i], r.value[i], source, (set d | d in dests), metric, isTree, spanning)
    ensures r.Ok? ==> forall t :: t in r.value ==> SubgraphOf(t, g)
    ensures r.Ok? ==> forall t :: t in r.value ==> isTree(t) || Trimmed(t, source, set d | d in dests)
  {
    var destSet := set d | d in dests;
    var order := VisitOrder(g, source, dests, metric, distances);
    var built;
    built, choices := AccumulateTrees(g, source, order, k, paths);
    if built.Err? {
      ghost var i :| 0 <= i < |order| && |paths(g, source, order[i].1, k)| > k;
      assert order[i] in order;
      return Err(built.error), [], choices;
    }
    acc := built.value;
    assert !Overfull(g, source, dests, k, metric, distances, paths) by {
      forall x | x in order
        ensures |paths(g, source, x.1, k)| <= k
      {
        var i :| 0 <= i < |order| && order[i] == x;
      }
    }
    var results := Materialise(g, acc, source, destSet, metric, isTree, spanning);
    if results.Err? {
      return Err(results.error), acc, choices;
    }
    forall t | t in results.value
      ensures SubgraphOf(t, g) && (isTree(t) || Trimmed(t, source, destSet))
    {
      var i :| 0 <= i < |results.value| && results.value[i] == t;
      assert RepairedFrom(g, acc[i], t, source, destSet, metric, isTree, spanning);
    }
    return Ok(results.value), acc, choices;
  }
}
