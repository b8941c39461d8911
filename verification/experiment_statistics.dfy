/** Two helpers of `NetworkExperimentStatistics`: naming the treatment a
    results file belongs to, and renaming/filtering a run's parameters. */
module ExperimentStatistics {
  import opened Wrappers

  function EndsWith(s: string, suffix: string): bool
  {
    |suffix| <= |s| && s[|s| - |suffix|..] == suffix
  }

  /** `str.rfind('.')`: the index of the last dot, or -1 when there is none. */
  function LastDot(t: string): (r: int)
    ensures -1 <= r < |t|
    ensures r >= 0 ==> t[r] == '.' && forall j :: r < j < |t| ==> t[j] != '.'
    ensures r == -1 ==> forall j :: 0 <= j < |t| ==> t[j] != '.'
  {
    if |t| == 0 then -1
    else if t[|t| - 1] == '.' then |t| - 1
    else LastDot(t[..|t| - 1])
  }

  /** `t[i:]` for an index from `rfind`; -1 selects the last character. */
  function SliceFrom(t: string, i: int): (r: string)
    requires -1 <= i < |t|
    ensures i >= 0 ==> r == t[i..]
  {
    if i >= 0 then t[i..] else if |t| == 0 then [] else t[|t| - 1..]
  }

  /** `t[:i]` for an index from `rfind`; -1 drops the last character. */
  function SliceTo(t: string, i: int): (r: string)
    requires -1 <= i < |t|
    ensures i >= 0 ==> r == t[..i]
  {
    if i >= 0 then t[..i] else if |t| == 0 then [] else t[..|t| - 1]
  }

  predicate IsDigit(c: char)
  {
    '0' <= c <= '9'
  }

  /** What the `{:d}` field of the run-number pattern accepts: one or more decimal digits. */
  predicate IsDigits(s: string)
  {
    |s| > 0 && forall j :: 0 <= j < |s| ==> IsDigit(s[j])
  }

  /** The pattern `.{:d}` matched against a whole string. */
  predicate IsRunSuffix(s: string)
  {
    |s| > 0 && s[0] == '.' && IsDigits(s[1..])
  }

  const JsonExt := ".json"

  /** The file name without its `.json` extension, when it has one. */
  function Stem(filename: string): (t: string)
    ensures t <= filename
    ensures EndsWith(filename, JsonExt) ==> filename == t + JsonExt
    ensures !EndsWith(filename, JsonExt) ==> t == filename
  {
    if EndsWith(filename, JsonExt) then filename[..|filename| - |JsonExt|] else filename
  }

  /** `get_treatment_str`: the stem with a trailing run number removed. */
  function TreatmentStr(filename: string): (r: string)
    ensures r <= Stem(filename)
    ensures |r| < |Stem(filename)| ==>
      Stem(filename)[|r|] == '.' && IsDigits(Stem(filename)[|r| + 1..])
    ensures (forall j :: 0 <= j < |Stem(filename)| ==> Stem(filename)[j] != '.') ==> r == Stem(filename)
  {
    var t := Stem(filename);
    var i := LastDot(t);
    if IsRunSuffix(SliceFrom(t, i)) then SliceTo(t, i) else t
  }

  /** A run's results file names its treatment followed by the run number. */
  lemma RunNumberStripped(x: string, run: string)
    requires IsDigits(run)
    ensures TreatmentStr(x + "." + run + JsonExt) == x
    ensures TreatmentStr(x + "." + run) == x
  {
    var t := x + "." + run;
    assert forall j :: |x| < j < |t| ==> t[j] == run[j - |x| - 1];
    assert t[|x|] == '.';
    assert forall j :: |x| < j < |t| ==> IsDigit(t[j]);
    assert LastDot(t) == |x|;
    assert t[|x|..] == "." + run;
    assert t[..|x|] == x;
    assert EndsWith(t + JsonExt, JsonExt);
    assert (t + JsonExt)[..|t + JsonExt| - |JsonExt|] == t;
    assert IsDigit(t[|t| - 1]);
    assert !EndsWith(t, JsonExt);
  }

  /** A treatment whose last dot is not followed by a run number is kept whole. */
  lemma NonRunKept(filename: string)
    requires var t := Stem(filename); var i := LastDot(t); i >= 0 ==> !IsDigits(t[i + 1..])
    ensures TreatmentStr(filename) == Stem(filename)
  {
    var t := Stem(filename);
    var i := LastDot(t);
    if i >= 0 {
      assert SliceFrom(t, i)[1..] == t[i + 1..];
    }
  }

  lemma RunFileExample()
    ensures TreatmentStr("results.1.json") == "results"
  {
    RunNumberStripped("results", "1");
    assert "results" + "." + "1" + JsonExt == "results.1.json";
  }

  lemma NestedRunExample()
    ensures TreatmentStr("a.1.2.json") == "a.1"
  {
    RunNumberStripped("a.1", "2");
    assert "a.1" + "." + "2" + JsonExt == "a.1.2.json";
  }

  lemma NonRunExample()
    ensures TreatmentStr("run.x.json") == "run.x"
  {
    assert Stem("run.x.json") == "run.x";
    assert LastDot("run.x") == 3;
    NonRunKept("run.x.json");
  }

  /** The parameter names a treatment may vary over, after renaming. */
  const VariedParams: set<string> := {"error_rate", "bw", "delay", "jitter", "exp_type"}

  datatype ParamError = MissingKey(key: string)

  /** `dict.pop(k, None)`. */
  function PopOr<V>(p: map<string, Option<V>>, k: string): Option<V>
  {
    if k in p then p[k] else None
  }

  /** Keys the renaming neither reads nor writes. */
  predicate Untouched(k: string)
  {
    k !in {"experiment_type", "bandwidth", "latency", "exp_type", "bw", "delay"}
  }

  /** `p[to] = p.pop(from)` with the popped value already looked up. */
  function Rename<V>(p: map<string, Option<V>>, from: string, to: string, v: Option<V>): (r: map<string, Option<V>>)
    ensures forall k :: k in r <==> k == to || (k in p && k != from)
    ensures r[to] == v
    ensures forall k :: k in p && k != from && k != to ==> r[k] == p[k]
  {
    (p - {from})[to := v]
  }

  /** Delete every entry whose value is null. */
  function DropNulls<V>(p: map<string, Option<V>>): (r: map<string, V>)
    ensures forall k :: k in r <==> k in p && p[k].Some?
    ensures forall k :: k in r ==> r[k] == p[k].value
  {
    map k | k in p && p[k].Some? :: p[k].value
  }

  /** `extract_parameters`: rename three parameters and drop every parameter
      whose value is null (`None` here). `bandwidth` and `latency` must be
      present, in that order of checking. */
  function ExtractParameters<V>(p: map<string, Option<V>>): (r: Result<map<string, V>, ParamError>)
    ensures "bandwidth" !in p ==> r == Err(MissingKey("bandwidth"))
    ensures "bandwidth" in p && "latency" !in p ==> r == Err(MissingKey("latency"))
    ensures r.Ok? <==> "bandwidth" in p && "latency" in p
    ensures r.Ok? ==> forall k :: Untouched(k) ==>
      (k in r.value <==> k in p && p[k].Some?) && (k in r.value ==> r.value[k] == p[k].value)
    ensures r.Ok? ==> "experiment_type" !in r.value && "bandwidth" !in r.value && "latency" !in r.value
    ensures r.Ok? ==>
      && ("exp_type" in r.value <==> PopOr(p, "experiment_type").Some?)
      && ("exp_type" in r.value ==> r.value["exp_type"] == p["experiment_type"].value)
      && ("bw" in r.value <==> p["bandwidth"].Some?)
      && ("bw" in r.value ==> r.value["bw"] == p["bandwidth"].value)
      && ("delay" in r.value <==> p["latency"].Some?)
      && ("delay" in r.value ==> r.value["delay"] == p["latency"].value)
  {
    var p1 := Rename(p, "experiment_type", "exp_type", PopOr(p, "experiment_type"));
    if "bandwidth" !in p1 then Err(MissingKey("bandwidth"))
    else
      var p2 := Rename(p1, "bandwidth", "bw", p1["bandwidth"]);
      if "latency" !in p2 then Err(MissingKey("latency"))
      else
        var p3 := Rename(p2, "latency", "delay", p2["latency"]);
        Ok(DropNulls(p3))
  }

  /** Every name the renaming introduces is one a treatment may vary over. */
  lemma IntroducedKeysAreVaried<V>(p: map<string, Option<V>>, k: string)
    requires ExtractParameters(p).Ok? && k in ExtractParameters(p).value && k !in p
    ensures k in VariedParams
  {
  }

  /** A value already stored under a new name is replaced by the renamed
      parameter, and dropped when that parameter is absent. */
  lemma PresetNamesOverwritten<V>(p: map<string, Option<V>>, v: V)
    requires "bandwidth" in p && "latency" in p && "experiment_type" !in p && p["latency"] == None
    ensures var r := ExtractParameters(p["exp_type" := Some(v)]["delay" := Some(v)]).value;
            "exp_type" !in r && "delay" !in r
  {
  }
}
