/**
 * The makefile rules of the BAM pipeline (paleomix/pipelines/ngs/makefile.py): the pre-processors
 * that turn the legacy 'Features' and 'ExcludeReads' lists into dicts, the passes that rewrite a
 * parsed makefile in place ("Features", "Options", "Prefixes"), the lane-type rule, the checks
 * made across records and across makefiles, and the test for a human genome whose chromosomes
 * are ordered lexically. A makefile is a `Makefile` object whose three parts the passes reassign.
 */
module NgsMakefile {
  import opened Wrappers
  import opened Text
  import opened Grouping

  // ---------------------------------------------------------------------------
  // Values

  /** A value read from a makefile. */
  datatype Value = Bool(b: bool) | Int(i: int) | Str(s: string) | List(items: seq<Value>) | Dict(d: map<string, Value>)

  /** Python's `bool(v)`. */
  predicate Truthy(v: Value) {
    match v
    case Bool(b) => b
    case Int(i) => i != 0
    case Str(s) => s != ""
    case List(items) => items != []
    case Dict(d) => d != map[]
  }

  /** The `MakefileError`s raised by the rules modelled here. */
  datatype MakefileError =
    | NotAllowed                                  // a legacy list names a value outside its allowed set
    | FeaturesBelowRoot(path: seq<string>)        // "Features may only be specified at root level"
    | WildcardInName(name: string)                // '*' in a prefix name, other than at the end
    | NoGlobMatches(pattern: string)              // a prefix search string matched no file
    | DuplicatePrefix(name: string)
    | NotFasta(name: string)                      // a prefix Path not ending in ".fasta"
    | NoPrefixes
    | PairMismatch                                // a {Pair} key on a read type other than Paired, or the reverse
    | UnknownLaneKeys
    | TrimmedSolexa(path: seq<string>)
    | LibrarySpansSamples(target: string, library: string)
    | DuplicateTarget(name: string)
    | DepthsWithoutBam

  /** `_READ_TYPES`. */
  const ReadTypes: set<string> := {"Single", "Singleton", "Collapsed", "CollapsedTruncated", "Paired"}

  /** The keys of `_VALID_FEATURES_DICT`. */
  const FeatureKeys: set<string> := {"Coverage", "Depths", "DuplicateHist", "RawBAM", "RealignedBAM", "Summary", "mapDamage"}

  /** The names `_VALID_FEATURES_LIST` accepts: the keys, and two of them written with a space. */
  const FeatureNames: set<string> := FeatureKeys + {"Raw BAM", "Realigned BAM"}

  // ---------------------------------------------------------------------------
  // BAMFeatures and ExcludeReads

  /** `ValuesSubsetOf(allowed)`: every item is one of the allowed strings. */
  predicate AllIn(items: seq<Value>, allowed: set<string>) {
    forall i :: 0 <= i < |items| ==> items[i].Str? && items[i].s in allowed
  }

  /** Some listed name, with its spaces removed, is `key`. */
  predicate Listed(items: seq<Value>, key: string) {
    exists i :: 0 <= i < |items| && items[i].Str? && Remove(items[i].s, ' ') == key
  }

  lemma {:induction false} RemoveAppend(a: string, b: string, c: char)
    ensures Remove(a + b, c) == Remove(a, c) + Remove(b, c)
  {
    if a == [] {
      assert a + b == b;
    } else {
      var head := if a[0] == c then [] else [a[0]];
      RemoveAppend(a[1..], b, c);
      assert (a + b)[0] == a[0] && (a + b)[1..] == a[1..] + b;
      assert Remove(a + b, c) == head + (Remove(a[1..], c) + Remove(b, c));
      assert Remove(a, c) == head + Remove(a[1..], c);
    }
  }

  lemma {:induction false} RemoveAbsent(s: string, c: char)
    requires c !in s
    ensures Remove(s, c) == s
  {
    if s != [] {
      RemoveAbsent(s[1..], c);
    }
  }

  /** Removing the one separator of two words joins them. */
  lemma RemoveJoin(a: string, b: string, c: char)
    requires c !in a && c !in b
    ensures Remove(a + [c] + b, c) == a + b
  {
    var ac := a + [c];
    RemoveAppend(ac, b, c);
    RemoveAppend(a, [c], c);
    RemoveAbsent(a, c);
    RemoveAbsent(b, c);
    assert Remove([c], c) == [];
    assert Remove(ac, c) == a + [];
    assert a + [] == a;
  }

  /** Every accepted feature name, with its spaces removed, is a key of the features dict. */
  lemma SpacesRemoved(n: string)
    requires n in FeatureNames
    ensures Remove(n, ' ') in FeatureKeys
  {
    if n in FeatureKeys {
      KeysWithoutSpaces(n);
      RemoveAbsent(n, ' ');
    } else {
      SpacedKeys();
    }
  }

  /** The two names written with a space. */
  lemma SpacedKeys()
    ensures Remove("Raw BAM", ' ') == "RawBAM"
    ensures Remove("Realigned BAM", ' ') == "RealignedBAM"
  {
    assert "Raw BAM" == "Raw" + [' '] + "BAM";
    RemoveJoin("Raw", "BAM", ' ');
    assert "Raw" + "BAM" == "RawBAM";
    assert "Realigned BAM" == "Realigned" + [' '] + "BAM";
    RemoveJoin("Realigned", "BAM", ' ');
    assert "Realigned" + "BAM" == "RealignedBAM";
  }

  lemma KeysWithoutSpaces(n: string)
    requires n in FeatureKeys
    ensures ' ' !in n
  {
  }

  /** Listing one more name marks that name, spaces removed, and nothing else. */
  lemma ListedStep(items: seq<Value>, i: nat)
    requires i < |items| && items[i].Str?
    ensures forall k :: Listed(items[..i + 1], k) <==> Listed(items[..i], k) || Remove(items[i].s, ' ') == k
  {
    forall k ensures Listed(items[..i + 1], k) <==> Listed(items[..i], k) || Remove(items[i].s, ' ') == k {
      if Listed(items[..i + 1], k) && Remove(items[i].s, ' ') != k {
        var j :| 0 <= j < i + 1 && items[..i + 1][j].Str? && Remove(items[..i + 1][j].s, ' ') == k;
        assert items[..i][j] == items[j];
      }
      if Listed(items[..i], k) {
        var j :| 0 <= j < i && items[..i][j].Str? && Remove(items[..i][j].s, ' ') == k;
        assert items[..i + 1][j] == items[j];
      }
      if Remove(items[i].s, ' ') == k {
        assert items[..i + 1][i] == items[i];
      }
    }
  }

  /**
   * `BAMFeatures`: a legacy list of features becomes a dict holding every feature, true exactly
   * for the listed ones, so that nothing is inherited; any other value is kept.
   */
  method BamFeatures(value: Value) returns (r: Result<Value, MakefileError>)
    ensures !value.List? ==> r == Success(value)
    ensures value.List? ==> (r.Success? <==> AllIn(value.items, FeatureNames))
    ensures r.Failure? ==> r.error == NotAllowed
    ensures value.List? && r.Success? ==> r.value.Dict? && r.value.d.Keys == FeatureKeys
    ensures value.List? && r.Success? ==>
              forall k :: k in FeatureKeys ==> r.value.d[k] == Bool(Listed(value.items, k))
  {
    if !value.List? {
      return Success(value);
    }
    var items := value.items;
    if !AllIn(items, FeatureNames) {
      return Failure(NotAllowed);
    }
    var result := map["Coverage" := Bool(false), "Depths" := Bool(false), "DuplicateHist" := Bool(false),
                      "RawBAM" := Bool(false), "RealignedBAM" := Bool(false), "Summary" := Bool(false),
                      "mapDamage" := Bool(false)];
    for i := 0 to |items|
      invariant result.Keys == FeatureKeys
      invariant forall k :: k in FeatureKeys ==> result[k] == Bool(Listed(items[..i], k))
    {
      SpacesRemoved(items[i].s);
      ListedStep(items, i);
      result := result[Remove(items[i].s, ' ') := Bool(true)];
    }
    assert items[..|items|] == items;
    return Success(Dict(result));
  }

  /** A read type is excluded when listed; "Singleton" also when "Single" is listed. */
  predicate Excluded(items: seq<Value>, key: string) {
    Str(key) in items || (key == "Singleton" && Str("Single") in items)
  }

  /**
   * `ExcludeReads`: a legacy list of read types becomes a dict over all five types, true
   * exactly for the excluded ones; any other value is kept.
   */
  method ExcludeReads(value: Value) returns (r: Result<Value, MakefileError>)
    ensures !value.List? ==> r == Success(value)
    ensures value.List? ==> (r.Success? <==> AllIn(value.items, ReadTypes))
    ensures r.Failure? ==> r.error == NotAllowed
    ensures value.List? && r.Success? ==> r.value.Dict? && r.value.d.Keys == ReadTypes
    ensures value.List? && r.Success? ==>
              forall k :: k in ReadTypes ==> r.value.d[k] == Bool(Excluded(value.items, k))
  {
    if !value.List? {
      return Success(value);
    }
    var items := value.items;
    if !AllIn(items, ReadTypes) {
      return Failure(NotAllowed);
    }
    var result: map<string, Value> := map[];
    for i := 0 to |items|
      invariant forall k :: k in result <==> Str(k) in items[..i]
      invariant forall k :: k in result ==> result[k] == Bool(true)
    {
      assert items[..i + 1] == items[..i] + [items[i]];
      result := result[items[i].s := Bool(true)];
    }
    assert items[..|items|] == items;
    // 'Singleton' was read as 'Single' before version 1.2
    if "Singleton" !in result {
      result := result["Singleton" := if "Single" in result then result["Single"] else Bool(false)];
    }
    var types := ["Single", "Singleton", "Collapsed", "CollapsedTruncated", "Paired"];
    for j := 0 to |types|
      invariant forall k :: k in result ==> k in ReadTypes && result[k] == Bool(Excluded(items, k))
      invariant forall k :: Str(k) in items ==> k in result
      invariant "Singleton" in result
      invariant forall t :: t in types[..j] ==> t in result
    {
      if types[j] !in result {
        result := result[types[j] := Bool(false)];
      }
    }
    assert types[..|types|] == types;
    return Success(Dict(result));
  }

  // ---------------------------------------------------------------------------
  // _mangle_features

  /** The "mapDamage" feature after `_mangle_features`. */
  function MapDamage(v: Value): Value {
    if v.Bool? then Str(if v.b then "plot" else "no")
    else if v == Str("yes") then Str("plot")
    else v
  }

  /** The values the validator allows for "mapDamage". */
  predicate MapDamageAllowed(v: Value) {
    v.Bool? || (v.Str? && v.s in {"rescale", "model", "plot", "no", "yes"})
  }

  /** Mangling an allowed value leaves one of the four modes, never a boolean or "yes". */
  lemma MapDamageModes(v: Value)
    requires MapDamageAllowed(v)
    ensures MapDamage(v).Str? && MapDamage(v).s in {"rescale", "model", "plot", "no"}
    ensures MapDamageAllowed(MapDamage(v))
  {
  }

  /** Mangling a mode that is already one of the four changes nothing, so mangling twice is mangling once. */
  lemma MapDamageIdempotent(v: Value)
    ensures MapDamage(MapDamage(v)) == MapDamage(v)
    ensures v.Str? && v.s != "yes" ==> MapDamage(v) == v
  {
  }

  type Options = map<string, Value>

  predicate HasMapDamage(o: Options) {
    "Features" in o && o["Features"].Dict? && "mapDamage" in o["Features"].d
  }

  /** The root options after `_mangle_features`: only "mapDamage" among the features changes. */
  function MangledFeatures(o: Options): (r: Options)
    requires HasMapDamage(o)
    ensures HasMapDamage(r)
  {
    var f := o["Features"].d;
    o["Features" := Dict(f["mapDamage" := MapDamage(f["mapDamage"])])]
  }

  /** The pass rewrites "mapDamage" alone, and a second run changes nothing more. */
  lemma MangledFeaturesOnlyMapDamage(o: Options)
    requires HasMapDamage(o)
    ensures MangledFeatures(o).Keys == o.Keys
    ensures forall k :: k in o && k != "Features" ==> MangledFeatures(o)[k] == o[k]
    ensures MangledFeatures(o)["Features"].d.Keys == o["Features"].d.Keys
    ensures forall k :: k in o["Features"].d && k != "mapDamage" ==>
              MangledFeatures(o)["Features"].d[k] == o["Features"].d[k]
    ensures MangledFeatures(MangledFeatures(o)) == MangledFeatures(o)
  {
    var v := o["Features"].d["mapDamage"];
    MapDamageIdempotent(v);
    var o1 := MangledFeatures(o);
    var f1 := o1["Features"].d;
    assert f1["mapDamage"] == MapDamage(v);
    assert f1["mapDamage" := MapDamage(f1["mapDamage"])] == f1;
    assert o1["Features" := Dict(f1)] == o1;
  }

  // ---------------------------------------------------------------------------
  // The makefile

  /** A prefix record: "Path", and after mangling "Name" and "Reference", among other keys. */
  type Prefix = map<string, Value>

  predicate HasPath(p: Prefix) {
    "Path" in p && p["Path"].Str?
  }

  /** The levels below the root. Each may carry its own "Options"; a library lists its lanes. */
  datatype Library = Library(options: Option<Options>, lanes: seq<(string, Value)>)
  datatype Sample = Sample(options: Option<Options>, libraries: seq<(string, Library)>)
  datatype Target = Target(options: Option<Options>, samples: seq<(string, Sample)>)

  /** A makefile after `_mangle_makefile` has split it: dicts are listed in their insertion order. */
  datatype Doc = Doc(options: Options, prefixes: seq<(string, Prefix)>, targets: seq<(string, Target)>)

  // ---------------------------------------------------------------------------
  // _mangle_options

  /** The options of a level: its own "Options" filled from those of the level above. */
  function Fill(own: Option<Options>, above: Options, fill: (Options, Options) -> Options): Options {
    if own.None? then above else fill(own.value, above)
  }

  predicate NoFeatures(own: Option<Options>) {
    own.None? || "Features" !in own.value
  }

  /** One level of `_do_update_options`: "Features" in the level's own options is an error. */
  function Inherit(own: Option<Options>, above: Options, path: seq<string>,
                   fill: (Options, Options) -> Options): Result<Options, MakefileError>
  {
    if !NoFeatures(own) then Failure(FeaturesBelowRoot(path)) else Success(Fill(own, above, fill))
  }

  /** The libraries of a sample, in order: each receives its merged options. */
  function LibrariesPass(above: Options, path: seq<string>, libs: seq<(string, Library)>,
                         fill: (Options, Options) -> Options): Result<seq<(string, Library)>, MakefileError>
    decreases |libs|
  {
    if libs == [] then Success([])
    else
      var name := libs[0].0;
      var o := Inherit(libs[0].1.options, above, path + [name], fill);
      if o.Failure? then Failure(o.error)
      else
        var rest := LibrariesPass(above, path, libs[1..], fill);
        if rest.Failure? then rest
        else Success([(name, Library(Some(o.value), libs[0].1.lanes))] + rest.value)
  }

  /** The samples of a target, in order: each loses its own options and passes them down. */
  function SamplesPass(above: Options, path: seq<string>, samples: seq<(string, Sample)>,
                       fill: (Options, Options) -> Options): Result<seq<(string, Sample)>, MakefileError>
    decreases |samples|
  {
    if samples == [] then Success([])
    else
      var name := samples[0].0;
      var o := Inherit(samples[0].1.options, above, path + [name], fill);
      if o.Failure? then Failure(o.error)
      else
        var libs := LibrariesPass(o.value, path + [name], samples[0].1.libraries, fill);
        if libs.Failure? then Failure(libs.error)
        else
          var rest := SamplesPass(above, path, samples[1..], fill);
          if rest.Failure? then rest
          else Success([(name, Sample(None, libs.value))] + rest.value)
  }

  /** `_do_update_options` called on one target. */
  function TargetPass(root: Options, name: string, t: Target,
                      fill: (Options, Options) -> Options): Result<Target, MakefileError>
  {
    var o := Inherit(t.options, root, [name], fill);
    if o.Failure? then Failure(o.error)
    else
      var samples := SamplesPass(o.value, [name], t.samples, fill);
      if samples.Failure? then Failure(samples.error)
      else Success(Target(None, samples.value))
  }

  /** `_mangle_options`: the targets in order; the first error raised stops the pass. */
  function TargetsPass(root: Options, targets: seq<(string, Target)>,
                       fill: (Options, Options) -> Options): Result<seq<(string, Target)>, MakefileError>
    decreases |targets|
  {
    if targets == [] then Success([])
    else
      var t := TargetPass(root, targets[0].0, targets[0].1, fill);
      if t.Failure? then Failure(t.error)
      else
        var rest := TargetsPass(root, targets[1..], fill);
        if rest.Failure? then rest else Success([(targets[0].0, t.value)] + rest.value)
  }

  predicate SampleClean(s: Sample) {
    NoFeatures(s.options) && forall k :: 0 <= k < |s.libraries| ==> NoFeatures(s.libraries[k].1.options)
  }

  predicate TargetClean(t: Target) {
    NoFeatures(t.options) && forall j :: 0 <= j < |t.samples| ==> SampleClean(t.samples[j].1)
  }

  /** The libraries pass fails exactly when some library sets "Features"; otherwise each library gets its options. */
  lemma {:induction false} LibrariesPassSpec(above: Options, path: seq<string>, libs: seq<(string, Library)>,
                                             fill: (Options, Options) -> Options)
    ensures LibrariesPass(above, path, libs, fill).Success? <==>
              forall k :: 0 <= k < |libs| ==> NoFeatures(libs[k].1.options)
    ensures LibrariesPass(above, path, libs, fill).Success? ==>
              var r := LibrariesPass(above, path, libs, fill).value;
              |r| == |libs| &&
              forall k :: 0 <= k < |libs| ==>
                r[k] == (libs[k].0, Library(Some(Fill(libs[k].1.options, above, fill)), libs[k].1.lanes))
    decreases |libs|
  {
    if libs != [] {
      LibrariesPassSpec(above, path, libs[1..], fill);
      assert forall k :: 1 <= k < |libs| ==> libs[1..][k - 1] == libs[k];
    }
  }

  /** The samples pass fails exactly when some sample or library sets "Features". */
  lemma {:induction false} SamplesPassSpec(above: Options, path: seq<string>, samples: seq<(string, Sample)>,
                                           fill: (Options, Options) -> Options)
    ensures SamplesPass(above, path, samples, fill).Success? <==>
              forall j :: 0 <= j < |samples| ==> SampleClean(samples[j].1)
    ensures SamplesPass(above, path, samples, fill).Success? ==>
              var r := SamplesPass(above, path, samples, fill).value;
              |r| == |samples| &&
              forall j :: 0 <= j < |samples| ==>
                r[j].0 == samples[j].0 && r[j].1.options.None? &&
                LibrariesPass(Fill(samples[j].1.options, above, fill), path + [samples[j].0],
                              samples[j].1.libraries, fill) == Success(r[j].1.libraries)
    decreases |samples|
  {
    if samples != [] {
      var s := samples[0].1;
      LibrariesPassSpec(Fill(s.options, above, fill), path + [samples[0].0], s.libraries, fill);
      SamplesPassSpec(above, path, samples[1..], fill);
      assert forall j :: 1 <= j < |samples| ==> samples[1..][j - 1] == samples[j];
    }
  }

  /** The options pass fails exactly when "Features" appears in some options below the root. */
  lemma {:induction false} TargetsPassSpec(root: Options, targets: seq<(string, Target)>,
                                           fill: (Options, Options) -> Options)
    ensures TargetsPass(root, targets, fill).Success? <==>
              forall i :: 0 <= i < |targets| ==> TargetClean(targets[i].1)
    ensures TargetsPass(root, targets, fill).Success? ==>
              var r := TargetsPass(root, targets, fill).value;
              |r| == |targets| &&
              forall i :: 0 <= i < |targets| ==>
                r[i].0 == targets[i].0 && r[i].1.options.None? &&
                SamplesPass(Fill(targets[i].1.options, root, fill), [targets[i].0],
                            targets[i].1.samples, fill) == Success(r[i].1.samples)
    decreases |targets|
  {
    if targets != [] {
      var t := targets[0].1;
      SamplesPassSpec(Fill(t.options, root, fill), [targets[0].0], t.samples, fill);
      TargetsPassSpec(root, targets[1..], fill);
      assert forall i :: 1 <= i < |targets| ==> targets[1..][i - 1] == targets[i];
    }
  }

  /**
   * After the pass, a library's options are its own filled from its sample's, those filled from
   * its target's and those from the root's; targets and samples keep no options of their own, and
   * every name and lane stays where it was.
   */
  lemma LibraryReceivesOptions(root: Options, targets: seq<(string, Target)>, fill: (Options, Options) -> Options,
                               i: nat, j: nat, k: nat)
    requires TargetsPass(root, targets, fill).Success?
    requires i < |targets| && j < |targets[i].1.samples| && k < |targets[i].1.samples[j].1.libraries|
    ensures var r := TargetsPass(root, targets, fill).value;
            var t := targets[i].1;
            var s := t.samples[j].1;
            var l := s.libraries[k].1;
            |r| == |targets| && r[i].0 == targets[i].0 && r[i].1.options.None? &&
            |r[i].1.samples| == |t.samples| && r[i].1.samples[j].0 == t.samples[j].0 &&
            r[i].1.samples[j].1.options.None? &&
            |r[i].1.samples[j].1.libraries| == |s.libraries| &&
            r[i].1.samples[j].1.libraries[k] ==
              (s.libraries[k].0, Library(Some(Fill(l.options, Fill(s.options, Fill(t.options, root, fill), fill), fill)),
                                         l.lanes))
  {
    var t := targets[i].1;
    var s := t.samples[j].1;
    TargetsPassSpec(root, targets, fill);
    var above := Fill(t.options, root, fill);
    SamplesPassSpec(above, [targets[i].0], t.samples, fill);
    LibrariesPassSpec(Fill(s.options, above, fill), [targets[i].0] + [t.samples[j].0], s.libraries, fill);
  }

  // ---------------------------------------------------------------------------
  // _mangle_prefixes

  /** `name[:-1]`. */
  function Init(name: string): string {
    if name == [] then [] else name[..|name| - 1]
  }

  /**
   * One entry of the "Prefixes" dict: a '*' before the last character is an error; a name ending
   * in '*' is a search string whose matches, given by `expand` as (name, filename) pairs for the
   * entry's Path, each become a copy of the entry with that Path; any other entry is kept.
   */
  function Expand(name: string, values: Prefix, expand: string -> seq<(string, string)>)
    : (r: Result<seq<(string, Prefix)>, MakefileError>)
    requires HasPath(values)
    ensures r.Success? ==> forall i :: 0 <= i < |r.value| ==> HasPath(r.value[i].1)
  {
    if '*' in Init(name) then Failure(WildcardInName(name))
    else if EndsWith(name, "*") then
      var matches := expand(values["Path"].s);
      if matches == [] then Failure(NoGlobMatches(values["Path"].s))
      else Success(seq(|matches|, i requires 0 <= i < |matches| => (matches[i].0, values["Path" := Str(matches[i].1)])))
    else Success([(name, values)])
  }

  /** The first loop of `_mangle_prefixes`: the records of every entry, in order. */
  function Collect(entries: seq<(string, Prefix)>, expand: string -> seq<(string, string)>)
    : (r: Result<seq<(string, Prefix)>, MakefileError>)
    requires forall i :: 0 <= i < |entries| ==> HasPath(entries[i].1)
    ensures r.Success? ==> forall i :: 0 <= i < |r.value| ==> HasPath(r.value[i].1)
    decreases |entries|
  {
    if entries == [] then Success([])
    else
      var records := Expand(entries[0].0, entries[0].1, expand);
      if records.Failure? then records
      else
        var rest := Collect(entries[1..], expand);
        if rest.Failure? then rest else Success(records.value + rest.value)
  }

  /** A kept record: "Name" is its name and "Reference" its Path. */
  function Tagged(name: string, record: Prefix): Prefix
    requires HasPath(record)
  {
    record["Name" := Str(name)]["Reference" := record["Path"]]
  }

  function Names(ps: seq<(string, Prefix)>): set<string> {
    set i | 0 <= i < |ps| :: ps[i].0
  }

  lemma NamesAppend(ps: seq<(string, Prefix)>, p: (string, Prefix))
    ensures Names(ps + [p]) == Names(ps) + {p.0}
  {
    var qs := ps + [p];
    assert qs[|ps|].0 == p.0;
    forall n | n in Names(ps)
      ensures n in Names(qs)
    {
      var i :| 0 <= i < |ps| && ps[i].0 == n;
      assert qs[i].0 == n;
    }
  }

  /** The second loop of `_mangle_prefixes`: a repeated name or a Path not ending in ".fasta" is an error. */
  function Kept(records: seq<(string, Prefix)>): Result<seq<(string, Prefix)>, MakefileError>
    requires forall i :: 0 <= i < |records| ==> HasPath(records[i].1)
  {
    if records == [] then Success([])
    else
      var kept := Kept(records[..|records| - 1]);
      var name := records[|records| - 1].0;
      var record := records[|records| - 1].1;
      assert HasPath(record);
      if kept.Failure? then kept
      else if name in Names(kept.value) then Failure(DuplicatePrefix(name))
      else if !EndsWith(record["Path"].s, ".fasta") then Failure(NotFasta(name))
      else Success(kept.value + [(name, Tagged(name, record))])
  }

  /** `_mangle_prefixes`: the new "Prefixes", of which there must be at least one. */
  function PrefixesPass(entries: seq<(string, Prefix)>, expand: string -> seq<(string, string)>)
    : Result<seq<(string, Prefix)>, MakefileError>
    requires forall i :: 0 <= i < |entries| ==> HasPath(entries[i].1)
  {
    var records := Collect(entries, expand);
    if records.Failure? then records
    else
      var kept := Kept(records.value);
      if kept.Failure? then kept
      else if kept.value == [] then Failure(NoPrefixes)
      else kept
  }

  predicate DistinctNames(ps: seq<(string, Prefix)>) {
    forall i, j :: 0 <= i < j < |ps| ==> ps[i].0 != ps[j].0
  }

  predicate IsFasta(p: Prefix)
    requires HasPath(p)
  {
    EndsWith(p["Path"].s, ".fasta")
  }

  /** The second loop succeeds exactly when names are distinct and every Path is a ".fasta". */
  lemma {:induction false} KeptSpec(records: seq<(string, Prefix)>)
    requires forall i :: 0 <= i < |records| ==> HasPath(records[i].1)
    ensures Kept(records).Success? <==>
              DistinctNames(records) && forall i :: 0 <= i < |records| ==> IsFasta(records[i].1)
  {
    if records != [] {
      var pre := records[..|records| - 1];
      var n := |records| - 1;
      KeptSpec(pre);
      assert forall i :: 0 <= i < n ==> pre[i] == records[i];
      if Kept(pre).Success? {
        KeptNameIn(pre, records[n].0);
      }
    }
  }

  /** A name is among those kept exactly when one of the records has it. */
  lemma KeptNameIn(records: seq<(string, Prefix)>, name: string)
    requires forall i :: 0 <= i < |records| ==> HasPath(records[i].1)
    requires Kept(records).Success?
    ensures name in Names(Kept(records).value) <==> exists i :: 0 <= i < |records| && records[i].0 == name
  {
    KeptTags(records);
    var kept := Kept(records).value;
    if name in Names(kept) {
      var i :| 0 <= i < |kept| && kept[i].0 == name;
      assert records[i].0 == name;
    }
    if exists i :: 0 <= i < |records| && records[i].0 == name {
      var i :| 0 <= i < |records| && records[i].0 == name;
      assert kept[i].0 == name;
    }
  }

  /** When the second loop succeeds, it keeps every record, in order, each tagged with its name. */
  lemma {:induction false} KeptTags(records: seq<(string, Prefix)>)
    requires forall i :: 0 <= i < |records| ==> HasPath(records[i].1)
    ensures Kept(records).Success? ==>
              |Kept(records).value| == |records| &&
              forall i :: 0 <= i < |records| ==> Kept(records).value[i] == (records[i].0, Tagged(records[i].0, records[i].1))
  {
    if records != [] {
      var pre := records[..|records| - 1];
      KeptTags(pre);
      assert forall i :: 0 <= i < |records| - 1 ==> pre[i] == records[i];
    }
  }

  lemma NoStarNoSearch(name: string)
    requires '*' !in name
    ensures '*' !in Init(name) && !EndsWith(name, "*")
  {
    if |name| >= 1 {
      assert name[|name| - 1..][0] == name[|name| - 1];
    }
  }

  /** Entries without a '*' in their names pass the first loop unchanged. */
  lemma {:induction false} CollectPlain(entries: seq<(string, Prefix)>, expand: string -> seq<(string, string)>)
    requires forall i :: 0 <= i < |entries| ==> HasPath(entries[i].1) && '*' !in entries[i].0
    ensures Collect(entries, expand) == Success(entries)
    decreases |entries|
  {
    if entries != [] {
      var name := entries[0].0;
      NoStarNoSearch(name);
      CollectPlain(entries[1..], expand);
      assert Expand(name, entries[0].1, expand) == Success([entries[0]]);
      assert [entries[0]] + entries[1..] == entries;
    }
  }

  /**
   * After `_mangle_prefixes`: at least one prefix, no name twice, every Path a ".fasta" file, and
   * each record's "Name" its name and its "Reference" its Path.
   */
  lemma PrefixesPassOk(entries: seq<(string, Prefix)>, expand: string -> seq<(string, string)>)
    requires forall i :: 0 <= i < |entries| ==> HasPath(entries[i].1)
    requires PrefixesPass(entries, expand).Success?
    ensures var r := PrefixesPass(entries, expand).value;
            r != [] && DistinctNames(r) &&
            forall i :: 0 <= i < |r| ==>
              HasPath(r[i].1) && IsFasta(r[i].1) &&
              "Name" in r[i].1 && r[i].1["Name"] == Str(r[i].0) &&
              "Reference" in r[i].1 && r[i].1["Reference"] == r[i].1["Path"]
  {
    KeptSpec(Collect(entries, expand).value);
    KeptTags(Collect(entries, expand).value);
  }

  // ---------------------------------------------------------------------------
  // _determine_lane_type and the Solexa check of _mangle_lanes

  datatype LaneType = Raw | Trimmed

  /**
   * A string is a raw lane; a dict keyed by read types is trimmed data, in which only the
   * "Paired" files may name the mate with {Pair}, and they must. `isPairedEnd` stands for
   * `paths.is_paired_end`.
   */
  function DetermineLaneType(data: Value, isPairedEnd: Value -> bool): Result<LaneType, MakefileError> {
    if data.Str? then Success(Raw)
    else if data.Dict? && data.d.Keys <= ReadTypes then
      if exists key :: key in data.d && isPairedEnd(data.d[key]) != (key == "Paired") then Failure(PairMismatch)
      else Success(Trimmed)
    else Failure(UnknownLaneKeys)
  }

  /** Trimmed lanes are dicts over read types where a {Pair} key appears exactly under "Paired"; anything not a string or such a dict fails. */
  lemma LaneTypeSpec(data: Value, isPairedEnd: Value -> bool)
    ensures DetermineLaneType(data, isPairedEnd) == Success(Raw) <==> data.Str?
    ensures DetermineLaneType(data, isPairedEnd) == Success(Trimmed) <==>
              data.Dict? && data.d.Keys <= ReadTypes &&
              forall key :: key in data.d ==> (isPairedEnd(data.d[key]) <==> key == "Paired")
    ensures DetermineLaneType(data, isPairedEnd).Failure? ==> !data.Str?
  {
  }

  datatype Lane = Lane(laneType: LaneType, data: Value, options: Options)

  /** The body of the lane loop in `_mangle_lanes`: trimmed lanes may not use Solexa qualities. */
  function MangledLane(options: Options, path: seq<string>, data: Value, isPairedEnd: Value -> bool)
    : (r: Result<Lane, MakefileError>)
    requires "QualityOffset" in options
    ensures r.Success? ==> r.value.data == data && r.value.options == options &&
                           Success(r.value.laneType) == DetermineLaneType(data, isPairedEnd) &&
                           !(r.value.laneType == Trimmed && options["QualityOffset"] == Str("Solexa"))
    ensures r.Failure? ==> DetermineLaneType(data, isPairedEnd).Failure? ||
                           (DetermineLaneType(data, isPairedEnd) == Success(Trimmed) &&
                            options["QualityOffset"] == Str("Solexa"))
  {
    var t := DetermineLaneType(data, isPairedEnd);
    if t.Failure? then Failure(t.error)
    else if t.value == Trimmed && options["QualityOffset"] == Str("Solexa") then Failure(TrimmedSolexa(path))
    else Success(Lane(t.value, data, options))
  }

  // ---------------------------------------------------------------------------
  // _validate_makefile_libraries

  /** `((target, library), sample)` once for each lane of the libraries, as `_iterate_over_records` yields them. */
  function LibraryPairs(target: string, sample: string, libs: seq<(string, Library)>): seq<((string, string), string)>
    decreases |libs|
  {
    if libs == [] then []
    else seq(|libs[0].1.lanes|, _ => ((target, libs[0].0), sample)) + LibraryPairs(target, sample, libs[1..])
  }

  function SamplePairs(target: string, samples: seq<(string, Sample)>): seq<((string, string), string)>
    decreases |samples|
  {
    if samples == [] then []
    else LibraryPairs(target, samples[0].0, samples[0].1.libraries) + SamplePairs(target, samples[1..])
  }

  function LibrarySamples(targets: seq<(string, Target)>): seq<((string, string), string)>
    decreases |targets|
  {
    if targets == [] then []
    else SamplePairs(targets[0].0, targets[0].1.samples) + LibrarySamples(targets[1..])
  }

  /** A library name of a target is recorded under two different samples. */
  ghost predicate SpansSamples(ps: seq<((string, string), string)>, key: (string, string)) {
    exists a, b :: (key, a) in ps && (key, b) in ps && a != b
  }

  ghost predicate NoneSpans(ps: seq<((string, string), string)>) {
    forall key :: !SpansSamples(ps, key)
  }

  /** `len(samples) > 1` for the set of samples listed. */
  predicate TwoOf(s: seq<string>) {
    exists a, b :: a in s && b in s && a != b
  }

  /** A spanning library is grouped, and its group holds two different samples exactly when it spans. */
  lemma GroupedSamples(ps: seq<((string, string), string)>, key: (string, string))
    ensures SpansSamples(ps, key) ==> key in Order(ps)
    ensures key in Order(ps) ==> key in Group(ps) && (TwoOf(Group(ps)[key]) <==> SpansSamples(ps, key))
  {
    SelectMembers(ps, key);
    GroupIsSelect(ps);
    if SpansSamples(ps, key) {
      var a :| (key, a) in ps;
      var i :| 0 <= i < |ps| && ps[i] == (key, a);
      assert ps[i].0 == key;
    }
  }

  /** A library is recorded under a sample exactly when that sample lists it with at least one lane. */
  lemma {:induction false} LibraryPairsMembers(target: string, sample: string, libs: seq<(string, Library)>,
                                               p: ((string, string), string))
    ensures p in LibraryPairs(target, sample, libs) <==>
              p.0.0 == target && p.1 == sample &&
              exists k :: 0 <= k < |libs| && libs[k].0 == p.0.1 && libs[k].1.lanes != []
    decreases |libs|
  {
    if libs != [] {
      LibraryPairsMembers(target, sample, libs[1..], p);
      var head := seq(|libs[0].1.lanes|, _ => ((target, libs[0].0), sample));
      assert p in head <==> p == ((target, libs[0].0), sample) && libs[0].1.lanes != [] by {
        if libs[0].1.lanes != [] {
          assert head[0] == ((target, libs[0].0), sample);
        }
      }
      assert forall k :: 1 <= k < |libs| ==> libs[1..][k - 1] == libs[k];
    }
  }

  /**
   * `_validate_makefile_libraries`: the samples of each (target, library) are collected; a library
   * name listed under two samples of one target is an error. Only libraries with lanes are seen.
   */
  method ValidateLibraries(targets: seq<(string, Target)>) returns (err: Option<MakefileError>)
    ensures err.None? <==> NoneSpans(LibrarySamples(targets))
    ensures err.Some? ==> err.value.LibrarySpansSamples? &&
                          SpansSamples(LibrarySamples(targets), (err.value.target, err.value.library))
  {
    var ps := LibrarySamples(targets);
    var libraries, order := GroupPairs(ps);
    for i := 0 to |order|
      invariant forall j :: 0 <= j < i ==> !SpansSamples(ps, order[j])
    {
      var key := order[i];
      GroupedSamples(ps, key);
      if TwoOf(libraries[key]) {
        assert (key.0, key.1) == key && SpansSamples(ps, key);
        return Some(LibrarySpansSamples(key.0, key.1));
      }
    }
    assert NoneSpans(ps) by {
      forall key ensures !SpansSamples(ps, key) {
        if SpansSamples(ps, key) {
          GroupedSamples(ps, key);
        }
      }
    }
    return None;
  }

  // ---------------------------------------------------------------------------
  // _validate_makefiles_duplicate_targets

  function TargetNames(targets: seq<(string, Target)>): seq<string> {
    seq(|targets|, i requires 0 <= i < |targets| => targets[i].0)
  }

  /** The target names of every makefile, makefile by makefile. */
  function AllTargetNames(makefiles: seq<Doc>): seq<string> {
    if makefiles == [] then []
    else AllTargetNames(makefiles[..|makefiles| - 1]) + TargetNames(makefiles[|makefiles| - 1].targets)
  }

  lemma {:induction false} AllTargetNamesPrefix(makefiles: seq<Doc>, m: nat)
    requires m <= |makefiles|
    ensures AllTargetNames(makefiles[..m]) <= AllTargetNames(makefiles)
    decreases |makefiles|
  {
    if m < |makefiles| {
      var pre := makefiles[..|makefiles| - 1];
      AllTargetNamesPrefix(pre, m);
      assert pre[..m] == makefiles[..m];
    } else {
      assert makefiles[..m] == makefiles;
    }
  }

  /**
   * `_validate_makefiles_duplicate_targets`: a target name used twice across the makefiles is an
   * error, reported at its first repetition.
   */
  method ValidateDuplicateTargets(makefiles: seq<Doc>) returns (err: Option<MakefileError>)
    ensures err.None? <==> Distinct(AllTargetNames(makefiles))
    ensures err.Some? ==>
              var all := AllTargetNames(makefiles);
              err.value.DuplicateTarget? &&
              exists j :: 0 <= j < |all| && all[j] == err.value.name && all[j] in all[..j] && Distinct(all[..j])
  {
    var seen: set<string> := {};
    ghost var flat: seq<string> := [];
    for m := 0 to |makefiles|
      invariant flat == AllTargetNames(makefiles[..m]) && Distinct(flat)
      invariant forall x :: x in seen <==> x in flat
    {
      var names := TargetNames(makefiles[m].targets);
      assert makefiles[..m + 1][..m] == makefiles[..m];
      for j := 0 to |names|
        invariant flat == AllTargetNames(makefiles[..m]) + names[..j] && Distinct(flat)
        invariant forall x :: x in seen <==> x in flat
      {
        if names[j] in seen {
          AllTargetNamesPrefix(makefiles, m + 1);
          assert names[..j + 1] == names[..j] + [names[j]];
          assert flat + [names[j]] <= AllTargetNames(makefiles);
          var all := AllTargetNames(makefiles);
          assert all[..|flat|] == flat && all[|flat|] == names[j];
          return Some(DuplicateTarget(names[j]));
        }
        seen := seen + {names[j]};
        assert names[..j + 1] == names[..j] + [names[j]];
        flat := flat + [names[j]];
      }
      assert names[..|names|] == names;
    }
    assert makefiles[..|makefiles|] == makefiles;
    return None;
  }

  // ---------------------------------------------------------------------------
  // _validate_makefiles_features

  predicate HasFeatures(o: Options) {
    "Features" in o && o["Features"].Dict? && {"Depths", "RawBAM", "RealignedBAM"} <= o["Features"].d.Keys
  }

  /** A prefix has regions of interest. */
  predicate HasRegions(p: Prefix) {
    "RegionsOfInterest" in p && Truthy(p["RegionsOfInterest"])
  }

  predicate RoiEnabled(prefixes: seq<(string, Prefix)>) {
    exists i :: 0 <= i < |prefixes| && HasRegions(prefixes[i].1)
  }

  /** Depth histograms over regions of interest need the raw or the realigned BAM. */
  predicate FeaturesConsistent(d: Doc)
    requires HasFeatures(d.options)
  {
    var f := d.options["Features"].d;
    Truthy(f["Depths"]) && RoiEnabled(d.prefixes) ==> Truthy(f["RawBAM"]) || Truthy(f["RealignedBAM"])
  }

  /** `_validate_makefiles_features`. */
  method ValidateFeatures(makefiles: seq<Doc>) returns (err: Option<MakefileError>)
    requires forall i :: 0 <= i < |makefiles| ==> HasFeatures(makefiles[i].options)
    ensures err.None? <==> forall i :: 0 <= i < |makefiles| ==> FeaturesConsistent(makefiles[i])
    ensures err.Some? ==> err == Some(DepthsWithoutBam)
  {
    for m := 0 to |makefiles|
      invariant forall i :: 0 <= i < m ==> FeaturesConsistent(makefiles[i])
    {
      var features := makefiles[m].options["Features"].d;
      var prefixes := makefiles[m].prefixes;
      var roi := false;
      for j := 0 to |prefixes|
        invariant roi <==> RoiEnabled(prefixes[..j])
      {
        assert forall i :: 0 <= i < j ==> prefixes[..j + 1][i] == prefixes[..j][i];
        assert prefixes[..j + 1][j] == prefixes[j];
        roi := roi || HasRegions(prefixes[j].1);
      }
      assert prefixes[..|prefixes|] == prefixes;
      if Truthy(features["Depths"]) && roi {
        if !(Truthy(features["RawBAM"]) || Truthy(features["RealignedBAM"])) {
          return Some(DepthsWithoutBam);
        }
      }
    }
    return None;
  }

  // ---------------------------------------------------------------------------
  // _is_invalid_hg_prefix

  /** Sizes of chr1, chr2 and chr10 in hg18, hg19 and hg38. */
  const Chr1Sizes: seq<nat> := [247249719, 249250621, 248956422]
  const Chr2Sizes: seq<nat> := [242951149, 243199373, 242193529]
  const Chr10Sizes: seq<nat> := [135374737, 135534747, 133797422]

  /** `size_to_idx`: each size maps to an index at which it occurs, a later one replacing an earlier. */
  function SizeToIndex(contigs: seq<(string, nat)>): map<nat, nat> {
    if contigs == [] then map[]
    else SizeToIndex(contigs[..|contigs| - 1])[contigs[|contigs| - 1].1 := |contigs| - 1]
  }

  /** Each size present maps to the last index at which it occurs. */
  lemma {:induction false} SizeToIndexIsLast(contigs: seq<(string, nat)>)
    ensures forall size :: size in SizeToIndex(contigs) <==> exists i :: 0 <= i < |contigs| && contigs[i].1 == size
    ensures forall size :: size in SizeToIndex(contigs) ==>
              var i := SizeToIndex(contigs)[size];
              i < |contigs| && contigs[i].1 == size &&
              forall j :: i < j < |contigs| ==> contigs[j].1 != size
  {
    if contigs != [] {
      var pre := contigs[..|contigs| - 1];
      SizeToIndexIsLast(pre);
      assert forall i :: 0 <= i < |pre| ==> pre[i] == contigs[i];
    }
  }

  /** The index of the first of `sizes` that occurs. */
  function Located(index: map<nat, nat>, sizes: seq<nat>): Option<nat> {
    if sizes == [] then None
    else if sizes[0] in index then Some(index[sizes[0]])
    else Located(index, sizes[1..])
  }

  /** `_is_invalid_hg_prefix` */
  predicate InvalidHg(contigs: seq<(string, nat)>) {
    var index := SizeToIndex(contigs);
    var chr1, chr2, chr10 := Located(index, Chr1Sizes), Located(index, Chr2Sizes), Located(index, Chr10Sizes);
    chr1.Some? && chr2.Some? && chr10.Some? && !(chr1.value < chr2.value < chr10.value)
  }

  /** The inner loop of `_is_invalid_hg_prefix`: the first candidate size that is indexed. */
  method Locate(index: map<nat, nat>, sizes: seq<nat>) returns (r: Option<nat>)
    ensures r == Located(index, sizes)
    ensures r.Some? ==> exists k :: 0 <= k < |sizes| && sizes[k] in index && r.value == index[sizes[k]]
    ensures r.None? <==> forall k :: 0 <= k < |sizes| ==> sizes[k] !in index
  {
    for k := 0 to |sizes|
      invariant Located(index, sizes) == Located(index, sizes[k..])
      invariant forall j :: 0 <= j < k ==> sizes[j] !in index
    {
      assert sizes[k..][1..] == sizes[k + 1..];
      if sizes[k] in index {
        return Some(index[sizes[k]]);
      }
    }
    return None;
  }

  /**
   * `_is_invalid_hg_prefix`: with sizes of chr1, chr2 and chr10 all found, the prefix is invalid
   * unless they come in that order.
   */
  method IsInvalidHgPrefix(contigs: seq<(string, nat)>) returns (invalid: bool)
    ensures invalid == InvalidHg(contigs)
  {
    var index: map<nat, nat> := map[];
    for i := 0 to |contigs|
      invariant index == SizeToIndex(contigs[..i])
    {
      assert contigs[..i + 1][..i] == contigs[..i];
      index := index[contigs[i].1 := i];
    }
    assert contigs[..|contigs|] == contigs;
    var chr1 := Locate(index, Chr1Sizes);
    if chr1.None? {
      return false;
    }
    var chr2 := Locate(index, Chr2Sizes);
    if chr2.None? {
      return false;
    }
    var chr10 := Locate(index, Chr10Sizes);
    if chr10.None? {
      return false;
    }
    return !(chr1.value < chr2.value < chr10.value);
  }

  /** Without a known size for each of chr1, chr2 and chr10 the prefix is not taken for a human genome. */
  lemma NotHumanIsValid(contigs: seq<(string, nat)>, sizes: seq<nat>)
    requires sizes in {Chr1Sizes, Chr2Sizes, Chr10Sizes}
    requires forall i :: 0 <= i < |contigs| ==> contigs[i].1 !in sizes
    ensures !InvalidHg(contigs)
  {
    SizeToIndexIsLast(contigs);
    var index := SizeToIndex(contigs);
    assert forall k :: 0 <= k < |sizes| ==> sizes[k] !in index;
    LocatedNone(index, sizes);
  }

  lemma {:induction false} LocatedNone(index: map<nat, nat>, sizes: seq<nat>)
    requires forall k :: 0 <= k < |sizes| ==> sizes[k] !in index
    ensures Located(index, sizes).None?
  {
    if sizes != [] {
      LocatedNone(index, sizes[1..]);
    }
  }

  /** hg19 ordered numerically passes; ordered lexically (chr1, chr10, chr2) it is rejected. */
  lemma Hg19Orders()
    ensures !InvalidHg([("chr1", 249250621), ("chr2", 243199373), ("chr10", 135534747)])
    ensures InvalidHg([("chr1", 249250621), ("chr10", 135534747), ("chr2", 243199373)])
  {
    var numeric: seq<(string, nat)> := [("chr1", 249250621), ("chr2", 243199373), ("chr10", 135534747)];
    assert SizeToIndex(numeric[..1]) == map[249250621 := 0];
    assert SizeToIndex(numeric[..2]) == map[249250621 := 0, 243199373 := 1];
    assert numeric[..3] == numeric;
    var index := map[249250621 := 0, 243199373 := 1, 135534747 := 2];
    assert SizeToIndex(numeric) == index;
    assert Located(index, Chr1Sizes) == Some(0);
    assert Located(index, Chr2Sizes) == Some(1);
    assert Located(index, Chr10Sizes) == Some(2);
    var lexical: seq<(string, nat)> := [("chr1", 249250621), ("chr10", 135534747), ("chr2", 243199373)];
    assert SizeToIndex(lexical[..1]) == map[249250621 := 0];
    assert SizeToIndex(lexical[..2]) == map[249250621 := 0, 135534747 := 1];
    assert lexical[..3] == lexical;
    var index' := map[249250621 := 0, 135534747 := 1, 243199373 := 2];
    assert SizeToIndex(lexical) == index';
    assert Located(index', Chr1Sizes) == Some(0);
    assert Located(index', Chr2Sizes) == Some(2);
    assert Located(index', Chr10Sizes) == Some(1);
  }

  // ---------------------------------------------------------------------------
  // The makefile object and the passes that rewrite it

  class Makefile {
    var options: Options
    var prefixes: seq<(string, Prefix)>
    var targets: seq<(string, Target)>

    constructor (d: Doc)
      ensures Value() == d
    {
      options, prefixes, targets := d.options, d.prefixes, d.targets;
    }

    function Value(): Doc
      reads this
    {
      Doc(options, prefixes, targets)
    }

    /** `_mangle_features`. */
    method MangleFeatures()
      requires HasMapDamage(options)
      modifies this
      ensures options == MangledFeatures(old(options))
      ensures prefixes == old(prefixes) && targets == old(targets)
    {
      var features := options["Features"].d;
      var v := features["mapDamage"];
      if v.Bool? {
        features := features["mapDamage" := Str(if v.b then "plot" else "no")];
      } else if v == Str("yes") {
        features := features["mapDamage" := Str("plot")];
      } else {
        assert features == features["mapDamage" := MapDamage(v)];
      }
      options := options["Features" := Dict(features)];
    }

    /**
     * `_mangle_options`: every library receives the options merged down to it, and "Features"
     * below the root is an error. `fill` stands for `fill_dict(destination, source)`.
     */
    method MangleOptions(fill: (Options, Options) -> Options) returns (err: Option<MakefileError>)
      modifies this
      ensures var r := TargetsPass(old(options), old(targets), fill);
              (r.Success? ==> err.None? && targets == r.value) &&
              (r.Failure? ==> err == Some(r.error) && targets == old(targets))
      ensures options == old(options) && prefixes == old(prefixes)
    {
      var r := UpdateTargets(options, targets, fill);
      if r.Failure? {
        return Some(r.error);
      }
      targets := r.value;
      return None;
    }

    /**
     * `_mangle_prefixes`: search strings are expanded by `expand`, which stands for the
     * file-system glob of a prefix's Path; then every record is checked and tagged.
     */
    method ManglePrefixes(expand: string -> seq<(string, string)>) returns (err: Option<MakefileError>)
      requires forall i :: 0 <= i < |prefixes| ==> HasPath(prefixes[i].1)
      modifies this
      ensures var r := PrefixesPass(old(prefixes), expand);
              (r.Success? ==> err.None? && prefixes == r.value) &&
              (r.Failure? ==> err == Some(r.error) && prefixes == old(prefixes))
      ensures options == old(options) && targets == old(targets)
    {
      var r := PrefixesOf(prefixes, expand);
      if r.Failure? {
        return Some(r.error);
      }
      prefixes := r.value;
      return None;
    }
  }

  /** The loop of `_mangle_options` over the targets. */
  method UpdateTargets(root: Options, ts: seq<(string, Target)>, fill: (Options, Options) -> Options)
    returns (r: Result<seq<(string, Target)>, MakefileError>)
    ensures r == TargetsPass(root, ts, fill)
  {
    var done: seq<(string, Target)> := [];
    assert ts[0..] == ts;
    assert Prepend(done, TargetsPass(root, ts, fill)) == TargetsPass(root, ts, fill) by {
      if TargetsPass(root, ts, fill).Success? {
        assert done + TargetsPass(root, ts, fill).value == TargetsPass(root, ts, fill).value;
      }
    }
    for i := 0 to |ts|
      invariant TargetsPass(root, ts, fill) == Prepend(done, TargetsPass(root, ts[i..], fill))
    {
      assert ts[i..][1..] == ts[i + 1..];
      var t := TargetPass(root, ts[i].0, ts[i].1, fill);
      if t.Failure? {
        return Failure(t.error);
      }
      PrependAppend(done, (ts[i].0, t.value), TargetsPass(root, ts[i + 1..], fill));
      done := done + [(ts[i].0, t.value)];
    }
    assert ts[|ts|..] == [];
    assert done + [] == done;
    return Success(done);
  }

  /** The first loop of `_mangle_prefixes`. */
  method CollectRecords(entries: seq<(string, Prefix)>, expand: string -> seq<(string, string)>)
    returns (r: Result<seq<(string, Prefix)>, MakefileError>)
    requires forall i :: 0 <= i < |entries| ==> HasPath(entries[i].1)
    ensures r == Collect(entries, expand)
  {
    var records: seq<(string, Prefix)> := [];
    assert entries[0..] == entries;
    assert Prepend(records, Collect(entries, expand)) == Collect(entries, expand) by {
      if Collect(entries, expand).Success? {
        assert records + Collect(entries, expand).value == Collect(entries, expand).value;
      }
    }
    for i := 0 to |entries|
      invariant Collect(entries, expand) == Prepend(records, Collect(entries[i..], expand))
    {
      assert entries[i..][1..] == entries[i + 1..];
      var e := Expand(entries[i].0, entries[i].1, expand);
      if e.Failure? {
        return e;
      }
      PrependConcat(records, e.value, Collect(entries[i + 1..], expand));
      records := records + e.value;
    }
    assert entries[|entries|..] == [];
    assert records + [] == records;
    return Success(records);
  }

  /** The second loop of `_mangle_prefixes`, with the dict of prefixes kept so far. */
  method KeepRecords(records: seq<(string, Prefix)>) returns (r: Result<seq<(string, Prefix)>, MakefileError>)
    requires forall i :: 0 <= i < |records| ==> HasPath(records[i].1)
    ensures r == Kept(records)
  {
    var kept: seq<(string, Prefix)> := [];
    var names: set<string> := {};
    for j := 0 to |records|
      invariant Kept(records[..j]) == Success(kept)
      invariant names == Names(kept)
    {
      assert records[..j + 1][..j] == records[..j];
      var (name, record) := records[j];
      if name in names {
        KeptFailed(records, j + 1);
        return Failure(DuplicatePrefix(name));
      }
      if !EndsWith(record["Path"].s, ".fasta") {
        KeptFailed(records, j + 1);
        return Failure(NotFasta(name));
      }
      NamesAppend(kept, (name, Tagged(name, record)));
      kept := kept + [(name, Tagged(name, record))];
      names := names + {name};
    }
    assert records[..|records|] == records;
    return Success(kept);
  }

  /** `_mangle_prefixes`. */
  method PrefixesOf(entries: seq<(string, Prefix)>, expand: string -> seq<(string, string)>)
    returns (r: Result<seq<(string, Prefix)>, MakefileError>)
    requires forall i :: 0 <= i < |entries| ==> HasPath(entries[i].1)
    ensures r == PrefixesPass(entries, expand)
  {
    var records := CollectRecords(entries, expand);
    if records.Failure? {
      return records;
    }
    r := KeepRecords(records.value);
    if r.Success? && r.value == [] {
      return Failure(NoPrefixes);
    }
  }

  /** `done` followed by the result, or the error. */
  function Prepend<T>(done: seq<T>, r: Result<seq<T>, MakefileError>): Result<seq<T>, MakefileError> {
    if r.Failure? then r else Success(done + r.value)
  }

  lemma PrependAppend<T>(done: seq<T>, x: T, r: Result<seq<T>, MakefileError>)
    ensures Prepend(done, if r.Failure? then r else Success([x] + r.value)) == Prepend(done + [x], r)
  {
    if r.Success? {
      assert done + ([x] + r.value) == (done + [x]) + r.value;
    }
  }

  lemma PrependConcat<T>(done: seq<T>, xs: seq<T>, r: Result<seq<T>, MakefileError>)
    ensures Prepend(done, if r.Failure? then r else Success(xs + r.value)) == Prepend(done + xs, r)
  {
    if r.Success? {
      assert done + (xs + r.value) == (done + xs) + r.value;
    }
  }

  /** Once the second loop fails on a prefix of the records, it fails on all of them with the same error. */
  lemma {:induction false} KeptFailed(records: seq<(string, Prefix)>, n: nat)
    requires forall i :: 0 <= i < |records| ==> HasPath(records[i].1)
    requires n <= |records| && Kept(records[..n]).Failure?
    ensures Kept(records) == Kept(records[..n])
    decreases |records|
  {
    if n < |records| {
      var pre := records[..|records| - 1];
      assert pre[..n] == records[..n];
      KeptFailed(pre, n);
    } else {
      assert records[..n] == records;
    }
  }
}
