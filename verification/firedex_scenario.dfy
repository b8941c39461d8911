/** The topic bookkeeping of `FiredexScenario`: reconciling the number of
    topic classes, splitting the topics among the classes by weight, and
    numbering each class's topics as a contiguous range. The float products
    `int(w * num_topics)` of the class weights are taken as given naturals. */
module FiredexScenario {
  import opened Wrappers
  import opened Seqs

  /** `IndexError`, and the `AssertionError` of a class-weight sum above 1. */
  datatype ScenarioError = IndexError | WeightsExceedOne

  /** The scenario parameters this bookkeeping reads. `weightTopics[i]` is
      `int(w * num_topics)` for the i-th class weight w, and
      `weightsWithinOne` says whether the weights sum to at most 1; of the
      other per-class lists only their lengths matter here. */
  datatype Scenario = Scenario(
    numTopics: nat,
    weightTopics: seq<nat>,
    weightsWithinOne: bool,
    dataSizes: seq<int>,
    pubRates: seq<int>,
    subDists: seq<int>,
    ntopicClasses: nat,
    cachedCounts: Option<seq<int>>)

  function Min(a: nat, b: nat): nat
  {
    if a <= b then a else b
  }

  /** The class count: the common length of the four per-class lists, or the shortest when they disagree. */
  function ClassCount(a: nat, b: nat, c: nat, d: nat): (n: nat)
    ensures n <= a && n <= b && n <= c && n <= d
    ensures n == a || n == b || n == c || n == d
  {
    if a == b && a == c && a == d then a else Min(Min(a, b), Min(c, d))
  }

  /** The constructor's validation step; the per-class topic counts are not computed yet. */
  function NewScenario(numTopics: nat, weightTopics: seq<nat>, weightsWithinOne: bool,
                       dataSizes: seq<int>, pubRates: seq<int>, subDists: seq<int>): (s: Scenario)
    ensures s.ntopicClasses <= |weightTopics| && s.ntopicClasses <= |dataSizes|
    ensures s.ntopicClasses <= |pubRates| && s.ntopicClasses <= |subDists|
    ensures s.ntopicClasses in {|weightTopics|, |dataSizes|, |pubRates|, |subDists|}
    ensures s.cachedCounts.None?
  {
    Scenario(numTopics, weightTopics, weightsWithinOne, dataSizes, pubRates, subDists,
             ClassCount(|weightTopics|, |dataSizes|, |pubRates|, |subDists|), None)
  }

  /** The weight-derived counts, with every unassigned topic added to class 0. */
  function Distribute(floors: seq<nat>, numTopics: nat): (c: seq<int>)
    requires |floors| > 0
    ensures |c| == |floors|
    ensures Sum(c) == numTopics
    ensures forall i :: 1 <= i < |c| ==> c[i] == floors[i]
    ensures Sum(floors) <= numTopics ==> forall i :: 0 <= i < |c| ==> c[i] >= floors[i] >= 0
  {
    [floors[0] + (numTopics - Sum(floors))] + floors[1..]
  }

  /** The `ntopics_per_class` property: computed and stored on the first call,
      returned from the store afterwards. Weights summing above 1 fail the
      assertion before anything is stored; with no class weights the store
      is set to the empty list before indexing class 0 raises. */
  function NTopicsPerClass(s: Scenario): (r: (Scenario, Result<seq<int>, ScenarioError>))
    ensures r.0 == s.(cachedCounts := r.0.cachedCounts)
    ensures s.cachedCounts.Some? ==> r == (s, Ok(s.cachedCounts.value))
    ensures r.1.Ok? ==> r.0.cachedCounts == Some(r.1.value)
    ensures r.1 == Err(WeightsExceedOne) <==> s.cachedCounts.None? && !s.weightsWithinOne
    ensures r.1 == Err(WeightsExceedOne) ==> r.0 == s
    ensures r.1 == Err(IndexError) <==> s.cachedCounts.None? && s.weightsWithinOne && |s.weightTopics| == 0
    ensures r.1 == Err(IndexError) ==> r.0.cachedCounts == Some([])
    ensures s.cachedCounts.None? && r.1.Ok? ==>
      |r.1.value| == |s.weightTopics| && Sum(r.1.value) == s.numTopics &&
      forall i :: 1 <= i < |s.weightTopics| ==> r.1.value[i] == s.weightTopics[i]
  {
    match s.cachedCounts
    case Some(c) => (s, Ok(c))
    case None =>
      if !s.weightsWithinOne then (s, Err(WeightsExceedOne))
      else if |s.weightTopics| == 0 then (s.(cachedCounts := Some([])), Err(IndexError))
      else
        var c := Distribute(s.weightTopics, s.numTopics);
        (s.(cachedCounts := Some(c)), Ok(c))
  }

  /** Once a read has stored a list, a second read changes nothing and
      returns it: the first answer, or the empty list after indexing failed. */
  lemma NTopicsPerClassOnce(s: Scenario)
    ensures var (s1, r1) := NTopicsPerClass(s);
            var (s2, r2) := NTopicsPerClass(s1);
            r1 != Err(WeightsExceedOne) ==>
              s2 == s1 && (r1.Ok? ==> r2 == r1) && (r1 == Err(IndexError) ==> r2 == Ok([]))
  {
  }

  /** `range(lo, hi)`: empty when hi <= lo. */
  function Range(lo: int, hi: int): (r: seq<int>)
    ensures |r| == if hi > lo then hi - lo else 0
    ensures forall j :: 0 <= j < |r| ==> r[j] == lo + j
  {
    seq(if hi > lo then hi - lo else 0, j requires j >= 0 => lo + j)
  }

  lemma RangeAppend(a: int, b: int, c: int)
    requires a <= b <= c
    ensures Range(a, b) + Range(b, c) == Range(a, c)
  {
    var l, r := Range(a, b) + Range(b, c), Range(a, c);
    assert |l| == |r|;
    forall j | 0 <= j < |l|
      ensures l[j] == r[j]
    {
      if j >= b - a {
        assert l[j] == Range(b, c)[j - (b - a)];
      }
    }
  }

  /** The topics of class `i`: after all topics of earlier classes, `counts[i]` of them. */
  function ClassRange(counts: seq<int>, i: nat): seq<int>
    requires i < |counts|
  {
    Range(Sum(counts[..i]), Sum(counts[..i]) + counts[i])
  }

  /** `topics_for_class`: an index past the last class raises. */
  function TopicsForClass(counts: seq<int>, i: nat): (r: Result<seq<int>, ScenarioError>)
    ensures r.Ok? <==> i < |counts|
    ensures r.Ok? && counts[i] >= 0 ==> |r.value| == counts[i]
    ensures r.Ok? && |r.value| > 0 ==> r.value[0] == Sum(counts[..i])
    ensures r.Ok? ==> forall j :: 0 <= j < |r.value| ==> r.value[j] == Sum(counts[..i]) + j
  {
    if i < |counts| then Ok(ClassRange(counts, i)) else Err(IndexError)
  }

  /** `topic_classes`: one range per entry of the count list (one per class weight). */
  function TopicClasses(counts: seq<int>): (r: seq<seq<int>>)
    ensures |r| == |counts|
    ensures forall i :: 0 <= i < |counts| ==> TopicsForClass(counts, i) == Ok(r[i])
  {
    seq(|counts|, i requires 0 <= i < |counts| => ClassRange(counts, i))
  }

  function Flatten(xs: seq<seq<int>>): seq<int>
  {
    if |xs| == 0 then [] else Flatten(xs[..|xs| - 1]) + xs[|xs| - 1]
  }

  /** `topics`: every class's topics, class after class. */
  function Topics(counts: seq<int>): seq<int>
  {
    Flatten(TopicClasses(counts))
  }

  predicate NonNegative(counts: seq<int>)
  {
    forall i :: 0 <= i < |counts| ==> counts[i] >= 0
  }

  lemma {:induction false} PrefixSumsGrow(counts: seq<int>, i: nat, j: nat)
    requires NonNegative(counts) && i <= j <= |counts|
    ensures Sum(counts[..i]) <= Sum(counts[..j])
  {
    if i < j {
      PrefixSumsGrow(counts, i, j - 1);
      SumPrefixStep(counts, j - 1);
    }
  }

  /** Consecutive classes are adjacent, and every topic of an earlier class
      is smaller than every topic of a later one, so classes never share a topic. */
  lemma ClassesOrdered(counts: seq<int>, i: nat, j: nat)
    requires NonNegative(counts) && i < j < |counts|
    ensures j == i + 1 ==> Sum(counts[..j]) == Sum(counts[..i]) + counts[i]
    ensures forall x, y :: x in ClassRange(counts, i) && y in ClassRange(counts, j) ==> x < y
  {
    SumPrefixStep(counts, i);
    PrefixSumsGrow(counts, i + 1, j);
  }

  /** With non-negative counts the topics are 0, 1, ..., up to the total, each once and in order. */
  lemma {:induction false} TopicsEnumerate(counts: seq<int>)
    requires NonNegative(counts)
    ensures Topics(counts) == Range(0, Sum(counts))
  {
    TopicsPrefix(counts, |counts|);
    assert counts[..|counts|] == counts;
    assert TopicClasses(counts)[..|counts|] == TopicClasses(counts);
  }

  lemma {:induction false} TopicsPrefix(counts: seq<int>, n: nat)
    requires NonNegative(counts) && n <= |counts|
    ensures Flatten(TopicClasses(counts)[..n]) == Range(0, Sum(counts[..n]))
  {
    var cls := TopicClasses(counts);
    if n == 0 {
      assert counts[..0] == [];
    } else {
      TopicsPrefix(counts, n - 1);
      assert cls[..n][..n - 1] == cls[..n - 1];
      SumPrefixStep(counts, n - 1);
      PrefixSumsGrow(counts, 0, n - 1);
      assert counts[..0] == [];
      RangeAppend(0, Sum(counts[..n - 1]), Sum(counts[..n]));
    }
  }

  /** For a scenario whose weights leave topics over (the weight sum is at
      most 1), the topics are exactly 0 .. num_topics-1 in increasing order,
      and there is one topic class per class weight, whatever the reconciled
      class count says. */
  lemma ScenarioTopics(s: Scenario)
    requires s.cachedCounts.None? && s.weightsWithinOne && |s.weightTopics| > 0
    requires Sum(s.weightTopics) <= s.numTopics
    ensures var counts := NTopicsPerClass(s).1.value;
            && Topics(counts) == Range(0, s.numTopics)
            && |TopicClasses(counts)| == |s.weightTopics|
  {
    var counts := NTopicsPerClass(s).1.value;
    assert NonNegative(counts);
    TopicsEnumerate(counts);
  }

  /** The scenario attributes `as_dict` exports. */
  datatype Attribute =
    | NumFfs | NumIots | NumNetFlows | NumPriorityLevels | NumTopics
    | ClassWeights | ClassDataSizes | ClassPubRates | ClassPubDists | ReliablePublication
    | ClassSubRates | ClassSubDists | IcSubRateFactor | ClassSubStartTimes | ClassSubDurations

  /** The key under which each attribute is meant to be exported. */
  function KeyOf(a: Attribute): string
  {
    match a
    case NumFfs => "nffs"
    case NumIots => "niots"
    case NumNetFlows => "nflows"
    case NumPriorityLevels => "nprios"
    case NumTopics => "ntopics"
    case ClassWeights => "tc_weights"
    case ClassDataSizes => "tc_sizes"
    case ClassPubRates => "tc_pub_rates"
    case ClassPubDists => "tc_pub_dists"
    case ReliablePublication => "retx_pubs"
    case ClassSubRates => "tc_sub_rates"
    case ClassSubDists => "tc_sub_dists"
    case IcSubRateFactor => "ic_subs"
    case ClassSubStartTimes => "tc_sub_start"
    case ClassSubDurations => "tc_sub_dur"
  }

  /** Which attribute `as_dict` reads for each key, as written: the
      publication-distribution key reads the publication rates. */
  const AsDictFieldsAsWritten: map<string, Attribute> := map[
    "nffs" := NumFfs, "niots" := NumIots, "nflows" := NumNetFlows, "nprios" := NumPriorityLevels,
    "ntopics" := NumTopics, "tc_weights" := ClassWeights, "tc_sizes" := ClassDataSizes,
    "tc_pub_rates" := ClassPubRates, "tc_pub_dists" := ClassPubRates,
    "retx_pubs" := ReliablePublication, "tc_sub_rates" := ClassSubRates,
    "tc_sub_dists" := ClassSubDists, "ic_subs" := IcSubRateFactor,
    "tc_sub_start" := ClassSubStartTimes, "tc_sub_dur" := ClassSubDurations]

  /** The corrected table: the publication-distribution key reads the distributions. */
  const AsDictFields: map<string, Attribute> := AsDictFieldsAsWritten["tc_pub_dists" := ClassPubDists]

  /** `as_dict` over a table: each key holds the attribute the table names. */
  function AsDictWith<V>(fields: map<string, Attribute>, attrs: Attribute -> V): (d: map<string, V>)
    ensures d.Keys == fields.Keys
    ensures forall k :: k in fields ==> d[k] == attrs(fields[k])
  {
    map k | k in fields :: attrs(fields[k])
  }

  /** `as_dict` as written: the publication-distribution key repeats the publication rates. */
  function AsDictAsWritten<V>(attrs: Attribute -> V): (d: map<string, V>)
    ensures d.Keys == AsDictFieldsAsWritten.Keys
    ensures d["tc_pub_dists"] == d["tc_pub_rates"] == attrs(ClassPubRates)
  {
    AsDictWith(AsDictFieldsAsWritten, attrs)
  }

  /** `as_dict` as intended: every attribute can be read back under its own key. */
  function AsDict<V>(attrs: Attribute -> V): (d: map<string, V>)
    ensures d.Keys == AsDictFields.Keys
    ensures forall a :: KeyOf(a) in d && d[KeyOf(a)] == attrs(a)
  {
    AsDictWith(AsDictFields, attrs)
  }

  /** As written, the publication distributions are lost: two scenarios that
      differ only there export the same dictionary. */
  lemma AsDictLosesPubDists()
    ensures exists a1: Attribute -> int, a2: Attribute -> int ::
      a1(ClassPubDists) != a2(ClassPubDists) && AsDictAsWritten(a1) == AsDictAsWritten(a2)
  {
    var a1 := (a: Attribute) => 0;
    var a2 := (a: Attribute) => if a == ClassPubDists then 1 else 0;
    assert forall k :: k in AsDictFieldsAsWritten ==> AsDictFieldsAsWritten[k] != ClassPubDists;
    assert AsDictAsWritten(a1) == AsDictAsWritten(a2);
  }

  /** Corrected, the dictionary determines the scenario attributes. */
  lemma AsDictDeterminesAttributes<V>(a1: Attribute -> V, a2: Attribute -> V)
    requires AsDict(a1) == AsDict(a2)
    ensures forall a :: a1(a) == a2(a)
  {
    forall a
      ensures a1(a) == a2(a)
    {
      assert AsDict(a1)[KeyOf(a)] == a1(a);
    }
  }
}
