/**
 Merging configuration layers, and the files that `loadConfig` merges.
 */
module ConfigMerging {
  import opened Json
  import opened Options

  // ------------------------------------------------------------------ merging two layers

  /** The result that `deepMerge` is to have: a source value wins unless both sides are objects. */
  ghost function Merge(target: Value, source: Value): (r: Value)
    requires target.Object? && source.Object?
    ensures r.Object? && r.fields.Keys == target.fields.Keys + source.fields.Keys
    decreases source
  {
    Object(map k | k in target.fields.Keys + source.fields.Keys ::
        if k !in source.fields then target.fields[k]
        else if k in target.fields && target.fields[k].Object? && source.fields[k].Object? then
          Merge(target.fields[k], source.fields[k])
        else source.fields[k])
  }

  method DeepMerge(target: Value, source: Value) returns (result: Value)
    requires target.Object? && source.Object?
    ensures result == Merge(target, source)
    decreases source
  {
    var fields := target.fields;
    var keys := source.fields.Keys;
    ghost var merged := Merge(target, source).fields;
    while keys != {}
      invariant keys <= source.fields.Keys
      invariant fields.Keys == target.fields.Keys + (source.fields.Keys - keys)
      invariant forall k :: k in fields ==> fields[k] == if k in keys then target.fields[k] else merged[k]
      decreases keys
    {
      var key :| key in keys;
      var sourceValue := source.fields[key];
      if sourceValue.Object? && key in fields && fields[key].Object? {
        var value := DeepMerge(fields[key], sourceValue);
        fields := fields[key := value];
      } else {
        fields := fields[key := sourceValue];
      }
      keys := keys - {key};
    }
    assert fields == merged;
    result := Object(fields);
  }

  ghost predicate LeafAt(v: Value, p: Path) {
    Lookup(v, p).Some? && !Lookup(v, p).value.Object?
  }

  /** A leaf above `p` cuts off everything at `p`. */
  ghost predicate Shadowed(v: Value, p: Path) {
    exists i :: 0 <= i < |p| && LeafAt(v, p[..i])
  }

  lemma ShadowedStep(v: Value, k: Key, p: Path)
    requires v.Object?
    ensures Shadowed(v, [k] + p) <==> k in v.fields && Shadowed(v.fields[k], p)
  {
    var kp := [k] + p;
    if k in v.fields && Shadowed(v.fields[k], p) {
      var i :| 0 <= i < |p| && LeafAt(v.fields[k], p[..i]);
      assert kp[..i + 1] == [k] + p[..i];
      LookupStep(v, k, p[..i]);
    }
    if Shadowed(v, kp) {
      var i :| 0 <= i < |kp| && LeafAt(v, kp[..i]);
      assert i > 0;
      assert kp[..i] == [k] + p[..i - 1];
      LookupStep(v, k, p[..i - 1]);
    }
  }

  /** The path-lookup law of a merge. */
  lemma {:induction false} LookupMerge(target: Value, source: Value, p: Path)
    requires target.Object? && source.Object?
    ensures Lookup(Merge(target, source), p) ==
      if ObjectAt(target, p) && ObjectAt(source, p) then Some(Merge(Lookup(target, p).value, Lookup(source, p).value))
      else if Lookup(source, p).Some? then Lookup(source, p)
      else if Shadowed(source, p) then None
      else Lookup(target, p)
    decreases |p|
  {
    if p != [] {
      var k, q := p[0], p[1..];
      assert p == [k] + q;
      ShadowedStep(source, k, q);
      if k in source.fields {
        if k in target.fields && target.fields[k].Object? && source.fields[k].Object? {
          LookupMerge(target.fields[k], source.fields[k], q);
        } else if q != [] && !source.fields[k].Object? {
          CutOffBelow(source.fields[k], q);
        }
      }
    }
  }

  lemma CutOffBelow(v: Value, p: Path)
    requires !v.Object? && p != []
    ensures Shadowed(v, p) && Lookup(v, p).None?
  {
    assert p[..0] == [];
  }

  // ------------------------------------------------------------------ layers

  /** The layers of `loadConfig` are merged in order, each into the result so far. */
  ghost function MergeAll(base: Value, layers: seq<Value>): Value
    requires base.Object? && forall l :: l in layers ==> l.Object?
  {
    if layers == [] then base
    else Merge(MergeAll(base, layers[..|layers| - 1]), layers[|layers| - 1])
  }

  /** The layer decides about `p`: it holds a value there or a leaf above. */
  ghost predicate Speaks(layer: Value, p: Path) {
    Lookup(layer, p).Some? || Shadowed(layer, p)
  }

  /** A layer that does not speak about a path lets the earlier layers show through. */
  lemma {:induction false} SilentLayers(base: Value, layers: seq<Value>, i: nat, p: Path)
    requires base.Object? && (forall l :: l in layers ==> l.Object?) && i <= |layers|
    requires forall j :: i <= j < |layers| ==> !Speaks(layers[j], p)
    ensures Lookup(MergeAll(base, layers), p) == Lookup(MergeAll(base, layers[..i]), p)
    decreases |layers|
  {
    if i == |layers| {
      assert layers[..i] == layers;
    } else {
      var front := layers[..|layers| - 1];
      assert front[..i] == layers[..i];
      SilentLayers(base, front, i, p);
      LookupMerge(MergeAll(base, front), layers[|layers| - 1], p);
    }
  }

  /** The last layer that speaks about a path where it holds a leaf decides its value. */
  lemma LastLeafWins(base: Value, layers: seq<Value>, i: nat, p: Path)
    requires base.Object? && (forall l :: l in layers ==> l.Object?) && i < |layers|
    requires LeafAt(layers[i], p) && forall j :: i < j < |layers| ==> !Speaks(layers[j], p)
    ensures Lookup(MergeAll(base, layers), p) == Lookup(layers[i], p)
  {
    SilentLayers(base, layers, i + 1, p);
    assert layers[..i + 1][..i] == layers[..i];
    LookupMerge(MergeAll(base, layers[..i]), layers[i], p);
  }

  // ------------------------------------------------------------------ the files

  /**
   What is found under one of the names that a file may have. An empty file parses to null; of any
   other value, merging reads its own properties only.
   */
  datatype Candidate =
    | Missing
    | Broken
    | ParsedNull
    | Parsed(fields: Fields)
  {
    predicate CanBeParsed() {
      ParsedNull? || Parsed?
    }

    function Config(): Value
      requires CanBeParsed()
    {
      if ParsedNull? then Null else Object(fields)
    }
  }

  datatype FileConfig = FileConfig(config: Value, warned: bool)

  const EMPTY := Object(map[])

  /** Candidates are tried in order up to the first that can be parsed; a broken one before it counts as empty. */
  function Results(candidates: seq<Candidate>): seq<FileConfig> {
    if candidates == [] then []
    else match candidates[0]
      case Missing => Results(candidates[1..])
      case Broken => [FileConfig(EMPTY, true)] + Results(candidates[1..])
      case _ => [FileConfig(candidates[0].Config(), false)]
  }

  /** The first candidate that can be parsed, or an empty configuration. */
  ghost function Chosen(candidates: seq<Candidate>): (v: Value)
    ensures v.Object? || v.Null?
  {
    if candidates == [] then EMPTY
    else if candidates[0].CanBeParsed() then candidates[0].Config()
    else Chosen(candidates[1..])
  }

  ghost predicate IsFirstParsed(candidates: seq<Candidate>, i: int) {
    && 0 <= i < |candidates| && candidates[i].CanBeParsed()
    && forall j :: 0 <= j < i ==> !candidates[j].CanBeParsed()
  }

  lemma {:induction false} ChosenIsFirst(candidates: seq<Candidate>) returns (i: nat)
    ensures
      if i < |candidates| then IsFirstParsed(candidates, i) && Chosen(candidates) == candidates[i].Config()
      else Chosen(candidates) == EMPTY && forall j :: 0 <= j < |candidates| ==> !candidates[j].CanBeParsed()
  {
    if candidates == [] || candidates[0].CanBeParsed() {
      i := 0;
    } else {
      var k := ChosenIsFirst(candidates[1..]);
      i := k + 1;
      assert forall j :: 1 <= j < |candidates| ==> candidates[j] == candidates[1..][j - 1];
    }
  }

  /** The broken candidates before the `k`th one. */
  ghost function BrokenBefore(candidates: seq<Candidate>, k: nat): set<nat>
    requires k <= |candidates|
  {
    set j | 0 <= j < k && candidates[j].Broken?
  }

  /**
   One empty result with a warning for each broken candidate before the first that can be parsed,
   and then that one, without a warning. `k` is its position, or the number of candidates.
   */
  ghost predicate TriedUpTo(results: seq<FileConfig>, candidates: seq<Candidate>, k: nat) {
    && k <= |candidates| && (forall j :: 0 <= j < k ==> !candidates[j].CanBeParsed())
    && var warnings := |BrokenBefore(candidates, k)|;
       && |results| == warnings + (if k < |candidates| then 1 else 0)
       && (forall i :: 0 <= i < warnings ==> results[i] == FileConfig(Object(map[]), true))
       && (k < |candidates| ==>
             candidates[k].CanBeParsed() && results[warnings] == FileConfig(candidates[k].Config(), false))
  }

  lemma BrokenBeforeNext(candidates: seq<Candidate>, k: nat)
    requires k < |candidates|
    ensures |BrokenBefore(candidates, k + 1)|
         == |BrokenBefore(candidates, k)| + if candidates[k].Broken? then 1 else 0
    ensures BrokenBefore(candidates, 0) == {}
  {
    assert BrokenBefore(candidates, k + 1) == BrokenBefore(candidates, k) + if candidates[k].Broken? then {k} else {};
  }

  method TryCandidates(candidates: seq<Candidate>) returns (results: seq<FileConfig>, ghost k: nat)
    ensures results == Results(candidates) && TriedUpTo(results, candidates, k)
  {
    results, k := [], |candidates|;
    assert BrokenBefore(candidates, 0) == {};
    for i := 0 to |candidates|
      invariant Results(candidates) == results + Results(candidates[i..])
      invariant k == |candidates| && |results| == |BrokenBefore(candidates, i)|
      invariant forall j :: 0 <= j < i ==> !candidates[j].CanBeParsed()
      invariant forall j :: 0 <= j < |results| ==> results[j] == FileConfig(EMPTY, true)
    {
      assert candidates[i..][1..] == candidates[i + 1..];
      BrokenBeforeNext(candidates, i);
      match candidates[i]
      case Missing =>
      case Broken =>
        results := results + [FileConfig(EMPTY, true)];
      case _ =>
        k := i;
        results := results + [FileConfig(candidates[i].Config(), false)];
        return;
    }
  }

  /** `loadConfigFiles`: the environment's file first, then the base file. */
  method LoadConfigFiles(envFiles: seq<Candidate>, baseFiles: seq<Candidate>)
    returns (results: seq<FileConfig>, ghost split: nat)
    ensures results == Results(envFiles) + Results(baseFiles)
    ensures split <= |results|
    ensures exists k :: TriedUpTo(results[..split], envFiles, k)
    ensures exists k :: TriedUpTo(results[split..], baseFiles, k)
  {
    var env, k := TryCandidates(envFiles);
    var base, l := TryCandidates(baseFiles);
    results, split := env + base, |env|;
    assert results[..split] == env && results[split..] == base;
  }

  ghost predicate ObjectsOrNull(results: seq<FileConfig>) {
    forall i :: 0 <= i < |results| ==> results[i].config.Object? || results[i].config.Null?
  }

  /** Merging the results into `v` one after the other; null has no keys to read, so merging it throws. */
  ghost function MergeResults(v: Value, results: seq<FileConfig>): (r: Option<Value>)
    requires v.Object? && ObjectsOrNull(results)
    ensures r.Some? ==> r.value.Object?
    decreases |results|
  {
    if results == [] then Some(v)
    else if results[0].config.Null? then None
    else MergeResults(Merge(v, results[0].config), results[1..])
  }

  lemma {:induction false} ResultsAreObjectsOrNull(candidates: seq<Candidate>)
    ensures ObjectsOrNull(Results(candidates))
  {
    if candidates != [] {
      ResultsAreObjectsOrNull(candidates[1..]);
    }
  }

  lemma MergeEmpty(target: Value)
    requires target.Object?
    ensures Merge(target, EMPTY) == target
  {
    assert Merge(target, EMPTY).fields == target.fields;
  }

  /**
   Merging what a group of candidates gives, and then more results, is merging the chosen one and
   then the others: warnings leave nothing behind, and a chosen null throws.
   */
  lemma {:induction false} ResultsMerge(v: Value, candidates: seq<Candidate>, more: seq<FileConfig>)
    requires v.Object? && ObjectsOrNull(more)
    ensures ObjectsOrNull(Results(candidates) + more)
    ensures MergeResults(v, Results(candidates) + more) ==
      if Chosen(candidates).Null? then None else MergeResults(Merge(v, Chosen(candidates)), more)
  {
    ResultsAreObjectsOrNull(candidates);
    MergeEmpty(v);
    if candidates == [] {
      assert Results(candidates) + more == more;
    } else {
      var rest := candidates[1..];
      ResultsMerge(v, rest, more);
      match candidates[0]
      case Missing =>
      case Broken =>
        assert (Results(candidates) + more)[1..] == Results(rest) + more;
      case _ =>
        assert (Results(candidates) + more)[1..] == more;
    }
  }

  /** What `loadConfig` has merged before it looks at environment variables; `None` if merging throws. */
  method MergeSources(defaults: Value, envDefaults: Value, envFiles: seq<Candidate>, baseFiles: seq<Candidate>)
    returns (config: Option<Value>)
    requires defaults.Object? && envDefaults.Object?
    ensures config.None? <==>
      || (exists i :: IsFirstParsed(envFiles, i) && envFiles[i].ParsedNull?)
      || (exists i :: IsFirstParsed(baseFiles, i) && baseFiles[i].ParsedNull?)
    ensures config.Some? ==>
      && Chosen(envFiles).Object? && Chosen(baseFiles).Object?
      && config.value == MergeAll(defaults, [envDefaults, Chosen(envFiles), Chosen(baseFiles)])
  {
    var current := DeepMerge(defaults, envDefaults);
    ghost var start := current;
    var files, _ := LoadConfigFiles(envFiles, baseFiles);
    SourcesMerge(start, envFiles, baseFiles);
    NullIsFirst(envFiles);
    NullIsFirst(baseFiles);
    hide Merge, Results, Chosen, IsFirstParsed;
    for i := 0 to |files|
      invariant current.Object? && ObjectsOrNull(files) && ObjectsOrNull(files[i..])
      invariant MergeResults(start, files) == MergeResults(current, files[i..])
    {
      assert files[i..][0] == files[i] && files[i..][1..] == files[i + 1..];
      if files[i].config.Null? {
        return None;
      }
      current := DeepMerge(current, files[i].config);
    }
    config := Some(current);
    MergeThree(defaults, envDefaults, Chosen(envFiles), Chosen(baseFiles));
  }

  lemma MergeThree(v: Value, a: Value, b: Value, c: Value)
    requires v.Object? && a.Object? && b.Object? && c.Object?
    ensures MergeAll(v, [a, b, c]) == Merge(Merge(Merge(v, a), b), c)
  {
    hide *;
    MergeNothing(v);
    MergeSnoc(v, [], a);
    MergeSnoc(v, [a], b);
    MergeSnoc(v, [a, b], c);
    assert [] + [a] == [a] && [a] + [b] == [a, b] && [a, b] + [c] == [a, b, c];
  }

  lemma MergeNothing(v: Value)
    requires v.Object?
    ensures MergeAll(v, []) == v
  {
  }

  lemma MergeSnoc(v: Value, layers: seq<Value>, l: Value)
    requires v.Object? && l.Object? && forall k :: k in layers ==> k.Object?
    ensures MergeAll(v, layers + [l]) == Merge(MergeAll(v, layers), l)
  {
    hide Merge;
    assert (layers + [l])[..|layers + [l]| - 1] == layers;
  }

  lemma NullIsFirst(candidates: seq<Candidate>)
    ensures Chosen(candidates).Null? <==> exists i :: IsFirstParsed(candidates, i) && candidates[i].ParsedNull?
  {
    var k := ChosenIsFirst(candidates);
    assert forall i :: IsFirstParsed(candidates, i) ==> i == k;
  }

  lemma SourcesMerge(v: Value, envFiles: seq<Candidate>, baseFiles: seq<Candidate>)
    requires v.Object?
    ensures
      var results, env, base := Results(envFiles) + Results(baseFiles), Chosen(envFiles), Chosen(baseFiles);
      && ObjectsOrNull(results)
      && MergeResults(v, results) ==
           if env.Null? || base.Null? then None else Some(Merge(Merge(v, env), base))
  {
    var env := Chosen(envFiles);
    ResultsAreObjectsOrNull(baseFiles);
    ResultsMerge(v, envFiles, Results(baseFiles));
    if env.Object? {
      ResultsMerge(Merge(v, env), baseFiles, []);
      assert Results(baseFiles) + [] == Results(baseFiles);
    }
  }

  /**
   The comments of `loadConfigFiles` give the environment's file the higher priority. It does not
   have it: a leaf of that file survives exactly when the base file says nothing about its path,
   or says the same.
   */
  lemma EnvironmentFileSurvives(
    defaults: Value, envDefaults: Value, envFiles: seq<Candidate>, baseFiles: seq<Candidate>, p: Path)
    requires defaults.Object? && envDefaults.Object? && Chosen(envFiles).Object? && Chosen(baseFiles).Object?
    requires LeafAt(Chosen(envFiles), p)
    ensures
      var config := MergeAll(defaults, [envDefaults, Chosen(envFiles), Chosen(baseFiles)]);
      Lookup(config, p) == Lookup(Chosen(envFiles), p) <==>
        !Speaks(Chosen(baseFiles), p) || Lookup(Chosen(baseFiles), p) == Lookup(Chosen(envFiles), p)
  {
    var start := Merge(defaults, envDefaults);
    MergeThree(defaults, envDefaults, Chosen(envFiles), Chosen(baseFiles));
    LookupMerge(start, Chosen(envFiles), p);
    LookupMerge(Merge(start, Chosen(envFiles)), Chosen(baseFiles), p);
  }

  /** Whatever leaf the base file holds is the final value. */
  lemma BaseFileWins(
    defaults: Value, envDefaults: Value, envFiles: seq<Candidate>, baseFiles: seq<Candidate>, p: Path)
    requires defaults.Object? && envDefaults.Object? && Chosen(envFiles).Object? && Chosen(baseFiles).Object?
    requires LeafAt(Chosen(baseFiles), p)
    ensures
      var config := MergeAll(defaults, [envDefaults, Chosen(envFiles), Chosen(baseFiles)]);
      Lookup(config, p) == Lookup(Chosen(baseFiles), p)
  {
    LastLeafWins(defaults, [envDefaults, Chosen(envFiles), Chosen(baseFiles)], 2, p);
  }
}
