/**
 * The static checks a node graph runs while it is built: every node's transitive dependencies
 * (`_collect_dependencies`), output files claimed by several nodes (`_check_output_files`), inputs
 * produced by a node the consumer does not depend on or not produced at all
 * (`_check_input_dependencies`), the report that combines them (`_check_file_dependencies`) and
 * the abbreviated node lists in the messages (`_summarize_nodes`).
 */
module GraphChecks {
  import opened Wrappers
  import opened Text
  import opened Staleness
  import opened NodeGraph

  // ---------------------------------------------------------------------------
  // Transitive dependencies

  /** Every entry of the memo holds the node's transitive dependencies and subnodes. */
  ghost predicate Memo(nodes: map<NodeId, Node>, deps: map<NodeId, set<NodeId>>) {
    && Closed(nodes)
    && forall k :: k in deps ==> k in nodes && deps[k] == Desc(nodes, k)
  }

  /** A set holding a node's dependencies and subnodes and everything they depend on holds `Desc`. */
  lemma DescCovered(nodes: map<NodeId, Node>, node: NodeId, collected: set<NodeId>)
    requires Closed(nodes) && node in nodes && Preds(nodes[node]) <= collected
    requires forall s :: s in Preds(nodes[node]) ==> Desc(nodes, s) <= collected
    ensures Desc(nodes, node) <= collected
  {
  }

  /** What a dependency or subnode depends on, the node depends on too. */
  lemma DescOfPred(nodes: map<NodeId, Node>, node: NodeId, s: NodeId)
    requires Closed(nodes) && node in nodes && s in Preds(nodes[node])
    ensures s in nodes && Desc(nodes, s) <= Desc(nodes, node)
  {
    DescTransitive(nodes, node, s);
  }

  /**
   * `_collect_dependencies`: fills the memo `deps` with the transitive dependencies and subnodes
   * of every node of `ids`, computing those of the dependencies and subnodes of a node first.
   * Entries already present are kept.
   */
  method CollectDependencies(nodes: map<NodeId, Node>, ids: set<NodeId>, deps0: map<NodeId, set<NodeId>>,
                             ghost bound: nat)
    returns (deps: map<NodeId, set<NodeId>>)
    requires Memo(nodes, deps0) && ids <= nodes.Keys
    requires forall d :: d in ids ==> d < bound
    ensures Memo(nodes, deps)
    ensures deps0.Keys + ids <= deps.Keys
    decreases bound
  {
    deps := deps0;
    var todo := ids;
    while todo != {}
      invariant todo <= ids
      invariant Memo(nodes, deps)
      invariant deps0.Keys + (ids - todo) <= deps.Keys
      decreases |todo|
    {
      var node :| node in todo;
      if node !in deps {
        var subnodes := nodes[node].subnodes + nodes[node].dependencies;
        assert subnodes == Preds(nodes[node]);
        if subnodes == {} {
          MemoAdd(nodes, deps, node, {});
          deps := deps[node := {}];
        } else {
          deps := CollectDependencies(nodes, subnodes, deps, node);
          var collected := Gather(deps, subnodes);
          GatherIsDesc(nodes, deps, node, subnodes, collected);
          deps := deps[node := collected];
        }
      }
      todo := todo - {node};
    }
  }

  /** Storing the transitive dependencies of one more node keeps the memo. */
  lemma MemoAdd(nodes: map<NodeId, Node>, deps: map<NodeId, set<NodeId>>, node: NodeId, v: set<NodeId>)
    requires Memo(nodes, deps) && node in nodes
    requires v == Desc(nodes, node) || (v == {} && nodes[node].subnodes + nodes[node].dependencies == {})
    ensures Memo(nodes, deps[node := v])
  {
  }

  /**
   * The `collected` loop of `_collect_dependencies`: the dependencies and subnodes `subnodes` of
   * a node, plus the memo entries of each of them.
   */
  method Gather(deps: map<NodeId, set<NodeId>>, subnodes: set<NodeId>) returns (collected: set<NodeId>)
    requires subnodes <= deps.Keys
    ensures forall e :: e in collected <==> e in subnodes || exists s :: s in subnodes && e in deps[s]
  {
    collected := subnodes;
    var rest := subnodes;
    while rest != {}
      invariant rest <= subnodes <= collected
      invariant forall e :: e in collected ==> e in subnodes || exists s :: s in subnodes && e in deps[s]
      invariant forall s :: s in subnodes && s !in rest ==> deps[s] <= collected
      decreases |rest|
    {
      var s :| s in rest;
      collected := collected + deps[s];
      rest := rest - {s};
    }
  }

  /** With a memo entry for each dependency and subnode, what `Gather` collects is `Desc`. */
  lemma GatherIsDesc(nodes: map<NodeId, Node>, deps: map<NodeId, set<NodeId>>, node: NodeId,
                     subnodes: set<NodeId>, collected: set<NodeId>)
    requires Memo(nodes, deps) && node in nodes && subnodes == Preds(nodes[node]) && subnodes <= deps.Keys
    requires forall e :: e in collected <==> e in subnodes || exists s :: s in subnodes && e in deps[s]
    ensures collected == Desc(nodes, node)
    ensures Memo(nodes, deps[node := collected])
  {
    forall e | e in collected ensures e in Desc(nodes, node) {
      if e !in subnodes {
        var s :| s in subnodes && e in deps[s];
        DescOfPred(nodes, node, s);
      }
    }
    forall s | s in subnodes ensures Desc(nodes, s) <= collected {
      assert deps[s] == Desc(nodes, s);
    }
    DescCovered(nodes, node, collected);
    MemoAdd(nodes, deps, node, collected);
  }

  // ---------------------------------------------------------------------------
  // Files by node

  /** The files a node reads: its input files and its auxiliary files. */
  function InputsOf(n: Node): set<Path> {
    n.inputFiles + n.auxiliaryFiles
  }

  /** The files a node writes. */
  function OutputsOf(n: Node): set<Path> {
    n.outputFiles
  }

  /**
   * `byFile` maps every file some node of `done` lists in `files(node)`, and no other file, to
   * exactly the nodes of `done` that list it.
   */
  ghost predicate Indexed(nodes: map<NodeId, Node>, done: set<NodeId>, byFile: map<Path, set<NodeId>>,
                          files: Node -> set<Path>) {
    && done <= nodes.Keys
    && (forall f, m :: f in byFile ==> (m in byFile[f] <==> m in done && f in files(nodes[m])))
    && (forall f, m :: m in done && f in files(nodes[m]) ==> f in byFile)
    && (forall f :: f in byFile ==> byFile[f] != {})
  }

  /** One node's files added to a file-to-nodes index (`nodes_by_file[filename].add(node)`). */
  method AddFiles(byFile: map<Path, set<NodeId>>, files: set<Path>, n: NodeId) returns (r: map<Path, set<NodeId>>)
    ensures forall f :: f in r <==> f in byFile || f in files
    ensures forall f, m :: f in r ==> (m in r[f] <==> (f in byFile && m in byFile[f]) || (f in files && m == n))
  {
    r := byFile;
    var todo := files;
    while todo != {}
      invariant todo <= files
      invariant forall f :: f in r <==> f in byFile || (f in files && f !in todo)
      invariant forall f, m :: f in r ==>
        (m in r[f] <==> (f in byFile && m in byFile[f]) || (f in files && f !in todo && m == n))
      decreases |todo|
    {
      var f :| f in todo;
      r := r[f := (if f in r then r[f] else {}) + {n}];
      todo := todo - {f};
    }
  }

  /**
   * The first loop of `_check_file_dependencies`: indexes the input files (auxiliary files
   * included, since they share the input index) and the output files of the nodes `ids`.
   */
  method IndexFiles(nodes: map<NodeId, Node>, ids: set<NodeId>)
    returns (inputs: map<Path, set<NodeId>>, outputs: map<Path, set<NodeId>>)
    requires ids <= nodes.Keys
    ensures Indexed(nodes, ids, inputs, InputsOf)
    ensures Indexed(nodes, ids, outputs, OutputsOf)
  {
    inputs, outputs := map[], map[];
    var todo := ids;
    ghost var done: set<NodeId> := {};
    while todo != {}
      invariant todo <= ids && done == ids - todo
      invariant Indexed(nodes, done, inputs, InputsOf)
      invariant Indexed(nodes, done, outputs, OutputsOf)
      decreases |todo|
    {
      var n :| n in todo;
      ghost var inputs0, outputs0 := inputs, outputs;
      inputs := AddFiles(inputs, InputsOf(nodes[n]), n);
      outputs := AddFiles(outputs, OutputsOf(nodes[n]), n);
      IndexedAdd(nodes, done, inputs0, inputs, InputsOf, n);
      IndexedAdd(nodes, done, outputs0, outputs, OutputsOf, n);
      done := done + {n};
      todo := todo - {n};
    }
    assert done == ids;
  }

  lemma IndexedAdd(nodes: map<NodeId, Node>, done: set<NodeId>, byFile: map<Path, set<NodeId>>,
                   r: map<Path, set<NodeId>>, files: Node -> set<Path>, n: NodeId)
    requires Indexed(nodes, done, byFile, files) && n in nodes
    requires forall f :: f in r <==> f in byFile || f in files(nodes[n])
    requires forall f, m :: f in r ==> (m in r[f] <==> (f in byFile && m in byFile[f]) || (f in files(nodes[n]) && m == n))
    ensures Indexed(nodes, done + {n}, r, files)
  {
  }

  // ---------------------------------------------------------------------------
  // Output files claimed twice

  /** The problems the file checks report, each with the nodes its message lists. */
  datatype FileError =
    | Clobber(file: Path, nodes: set<NodeId>)
    | UnlistedProducer(file: Path, producers: set<NodeId>, consumers: set<NodeId>)
    | MissingFile(file: Path, consumers: set<NodeId>)

  /** The files the errors are about. */
  function Reported(errors: seq<FileError>): (r: set<Path>)
    ensures forall i :: 0 <= i < |errors| ==> errors[i].file in r
  {
    if errors == [] then {} else Reported(errors[..|errors| - 1]) + {errors[|errors| - 1].file}
  }

  lemma ReportedAppend(errors: seq<FileError>, e: FileError)
    ensures Reported(errors + [e]) == Reported(errors) + {e.file}
  {
    assert (errors + [e])[..|errors|] == errors;
  }

  /**
   * The claims on the file `r` once paths are resolved by `resolve` (standing in for the resolved
   * directory joined with the file name): one (file name, node) pair per entry that
   * `real_output_files[r]` receives.
   */
  ghost function Claims(outputs: map<Path, set<NodeId>>, resolve: Path -> Path, r: Path): set<(Path, NodeId)> {
    set f, n | f in outputs && n in outputs[f] && resolve(f) == r :: (f, n)
  }

  /** The nodes behind a set of claims. */
  function Claimants(claims: set<(Path, NodeId)>): set<NodeId> {
    set p | p in claims :: p.1
  }

  /** The `real_output_files` loop of `_check_output_files`: the claims grouped by resolved path. */
  method ResolveOutputs(outputs: map<Path, set<NodeId>>, resolve: Path -> Path)
    returns (realOutputs: map<Path, set<(Path, NodeId)>>)
    ensures forall r :: r in realOutputs ==> realOutputs[r] == Claims(outputs, resolve, r)
    ensures forall r :: r !in realOutputs ==> Claims(outputs, resolve, r) == {}
  {
    realOutputs := map[];
    var todo := outputs.Keys;
    while todo != {}
      invariant todo <= outputs.Keys
      invariant forall r, p :: r in realOutputs ==>
        (p in realOutputs[r] <==> p.0 in outputs && p.0 !in todo && p.1 in outputs[p.0] && resolve(p.0) == r)
      invariant forall f :: f in outputs && f !in todo ==> resolve(f) in realOutputs
      decreases |todo|
    {
      var f :| f in todo;
      var r := resolve(f);
      realOutputs := realOutputs[r := (if r in realOutputs then realOutputs[r] else {}) + (set n | n in outputs[f] :: (f, n))];
      todo := todo - {f};
    }
    forall r | r in realOutputs ensures realOutputs[r] == Claims(outputs, resolve, r) {
      forall p | p in Claims(outputs, resolve, r) ensures p in realOutputs[r] {
        var f, n :| f in outputs && n in outputs[f] && resolve(f) == r && p == (f, n);
      }
      forall p | p in realOutputs[r] ensures p in Claims(outputs, resolve, r) {
        assert p == (p.0, p.1);
      }
    }
  }

  /**
   * `_check_output_files`: one `Clobber` error for every resolved output file with more than one
   * claim, listing the claiming nodes; every such file is reported once.
   */
  method CheckOutputFiles(outputs: map<Path, set<NodeId>>, resolve: Path -> Path) returns (errors: seq<FileError>)
    ensures forall f :: f in Reported(errors) <==> |Claims(outputs, resolve, f)| > 1
    ensures forall i :: 0 <= i < |errors| ==>
      errors[i].Clobber? && errors[i].nodes == Claimants(Claims(outputs, resolve, errors[i].file))
    ensures forall i, j :: 0 <= i < j < |errors| ==> errors[i].file != errors[j].file
  {
    var realOutputs := ResolveOutputs(outputs, resolve);
    errors := ReportClobbers(realOutputs);
  }

  /** The reporting loop of `_check_output_files`, over the claims grouped by resolved path. */
  method ReportClobbers(realOutputs: map<Path, set<(Path, NodeId)>>) returns (errors: seq<FileError>)
    ensures forall f :: f in Reported(errors) <==> f in realOutputs && |realOutputs[f]| > 1
    ensures forall i :: 0 <= i < |errors| ==>
      errors[i].Clobber? && errors[i].file in realOutputs && errors[i].nodes == Claimants(realOutputs[errors[i].file])
    ensures forall i, j :: 0 <= i < j < |errors| ==> errors[i].file != errors[j].file
  {
    errors := [];
    var todo := realOutputs.Keys;
    while todo != {}
      invariant todo <= realOutputs.Keys
      invariant forall f :: f in Reported(errors) <==> f in realOutputs && f !in todo && |realOutputs[f]| > 1
      invariant forall i :: 0 <= i < |errors| ==>
        errors[i].Clobber? && errors[i].file in realOutputs && errors[i].nodes == Claimants(realOutputs[errors[i].file])
      invariant forall i, j :: 0 <= i < j < |errors| ==> errors[i].file != errors[j].file
      decreases |todo|
    {
      var r :| r in todo;
      if |realOutputs[r]| > 1 {
        ReportedAppend(errors, Clobber(r, Claimants(realOutputs[r])));
        errors := errors + [Clobber(r, Claimants(realOutputs[r]))];
      }
      todo := todo - {r};
    }
  }

  /** The nodes of `ids` that list the file `f` in `files(node)`. */
  function Users(nodes: map<NodeId, Node>, ids: set<NodeId>, files: Node -> set<Path>, f: Path): set<NodeId>
    requires ids <= nodes.Keys
  {
    set m | m in ids && f in files(nodes[m])
  }

  /** An index built by `IndexFiles` holds, for each file, its users, and lists every used file. */
  lemma IndexedUsers(nodes: map<NodeId, Node>, ids: set<NodeId>, byFile: map<Path, set<NodeId>>,
                     files: Node -> set<Path>, f: Path)
    requires Indexed(nodes, ids, byFile, files)
    ensures f in byFile <==> Users(nodes, ids, files, f) != {}
    ensures f in byFile ==> byFile[f] == Users(nodes, ids, files, f)
  {
    if f in byFile {
      var m :| m in byFile[f];
      assert m in Users(nodes, ids, files, f);
    }
  }

  // ---------------------------------------------------------------------------
  // Input files nobody produces, or produced by a node the reader does not depend on

  /** The consumers none of whose dependencies (direct or not) is among the producers. */
  function Unlisted(nodes: map<NodeId, Node>, consumers: set<NodeId>, producers: set<NodeId>): set<NodeId>
    requires Closed(nodes) && consumers <= nodes.Keys
  {
    set c | c in consumers && producers * Desc(nodes, c) == {}
  }

  /**
   * The error `_check_input_dependencies` reports for the file `f`, read by some node of `ids`:
   * when a node of `ids` creates it, the readers that do not depend on any of its creators; when
   * none does, its absence from the file system.
   */
  function InputError(nodes: map<NodeId, Node>, ids: set<NodeId>, present: Path -> bool, f: Path): Option<FileError>
    requires Closed(nodes) && ids <= nodes.Keys
  {
    var producers := Users(nodes, ids, OutputsOf, f);
    var consumers := Users(nodes, ids, InputsOf, f);
    if producers != {} then
      var bad := Unlisted(nodes, consumers, producers);
      if bad != {} then Some(UnlistedProducer(f, producers, bad)) else None
    else if !present(f) then Some(MissingFile(f, consumers))
    else None
  }

  /** A node that reads a file only it creates is always reported: it cannot depend on itself. */
  lemma OwnOutputReported(nodes: map<NodeId, Node>, ids: set<NodeId>, present: Path -> bool, f: Path, c: NodeId)
    requires Closed(nodes) && ids <= nodes.Keys && c in ids
    requires Users(nodes, ids, OutputsOf, f) == {c} && f in InputsOf(nodes[c])
    ensures InputError(nodes, ids, present, f) == Some(UnlistedProducer(f, {c}, Unlisted(nodes, Users(nodes, ids, InputsOf, f), {c})))
    ensures c in InputError(nodes, ids, present, f).value.consumers
  {
    assert c in Users(nodes, ids, InputsOf, f);
    assert c !in Desc(nodes, c);
    assert c in Unlisted(nodes, Users(nodes, ids, InputsOf, f), {c});
  }

  /**
   * A read file raises no error exactly when every reader depends on one of its creators, or,
   * when no node creates it, when it is present.
   */
  lemma InputErrorNone(nodes: map<NodeId, Node>, ids: set<NodeId>, present: Path -> bool, f: Path)
    requires Closed(nodes) && ids <= nodes.Keys
    ensures InputError(nodes, ids, present, f) == None <==>
      if Users(nodes, ids, OutputsOf, f) != {} then
        forall c :: c in Users(nodes, ids, InputsOf, f) ==> Users(nodes, ids, OutputsOf, f) * Desc(nodes, c) != {}
      else present(f)
  {
    var producers := Users(nodes, ids, OutputsOf, f);
    var consumers := Users(nodes, ids, InputsOf, f);
    if producers != {} {
      var bad := Unlisted(nodes, consumers, producers);
      if bad != {} {
        var c :| c in bad;
        assert c in consumers && producers * Desc(nodes, c) == {};
      } else {
        forall c | c in consumers ensures producers * Desc(nodes, c) != {} {
          assert c !in bad;
        }
      }
    }
  }

  /** The loop over the readers of one file: those with no creator among their dependencies. */
  method BadConsumers(consumers: set<NodeId>, producers: set<NodeId>, deps: map<NodeId, set<NodeId>>)
    returns (bad: set<NodeId>)
    requires consumers <= deps.Keys
    ensures forall c :: c in bad <==> c in consumers && producers * deps[c] == {}
  {
    bad := {};
    var todo := consumers;
    while todo != {}
      invariant todo <= consumers
      invariant forall c :: c in bad <==> c in consumers && c !in todo && producers * deps[c] == {}
      decreases |todo|
    {
      var c :| c in todo;
      if producers * deps[c] == {} {
        bad := bad + {c};
      }
      todo := todo - {c};
    }
  }

  /** With the memoised closures, the loop above yields `Unlisted`. */
  lemma BadIsUnlisted(nodes: map<NodeId, Node>, deps: map<NodeId, set<NodeId>>, consumers: set<NodeId>,
                      producers: set<NodeId>, bad: set<NodeId>)
    requires Memo(nodes, deps) && consumers <= deps.Keys
    requires forall c :: c in bad <==> c in consumers && producers * deps[c] == {}
    ensures consumers <= nodes.Keys && bad == Unlisted(nodes, consumers, producers)
  {
  }

  /** The body of the loop of `_check_input_dependencies`, for one read file. */
  method CheckInputFile(nodes: map<NodeId, Node>, ids: set<NodeId>, inputs: map<Path, set<NodeId>>,
                        outputs: map<Path, set<NodeId>>, deps: map<NodeId, set<NodeId>>, present: Path -> bool, f: Path)
    returns (e: Option<FileError>)
    requires Closed(nodes) && Memo(nodes, deps) && ids <= deps.Keys
    requires Indexed(nodes, ids, inputs, InputsOf) && Indexed(nodes, ids, outputs, OutputsOf)
    requires f in inputs
    ensures e == InputError(nodes, ids, present, f)
  {
    IndexedUsers(nodes, ids, inputs, InputsOf, f);
    IndexedUsers(nodes, ids, outputs, OutputsOf, f);
    if f in outputs {
      var producers := outputs[f];
      var bad := BadConsumers(inputs[f], producers, deps);
      BadIsUnlisted(nodes, deps, inputs[f], producers, bad);
      if bad != {} {
        e := Some(UnlistedProducer(f, producers, bad));
      } else {
        e := None;
      }
    } else if !present(f) {
      e := Some(MissingFile(f, inputs[f]));
    } else {
      e := None;
    }
  }

  /** Some bound above every handle of a finite set of handles. */
  lemma {:induction false} HandleBound(s: set<NodeId>) returns (bound: nat)
    ensures forall d :: d in s ==> d < bound
    decreases |s|
  {
    if s == {} {
      bound := 0;
    } else {
      var d :| d in s;
      var b := HandleBound(s - {d});
      bound := if d < b then b else d + 1;
      forall e | e in s ensures e < bound {
        if e != d {
          assert e in s - {d};
        }
      }
    }
  }

  /** `InputError(f) == Some(e)`, kept behind `Sealed` so that the reporting loop does not unfold it. */
  ghost predicate Expected(nodes: map<NodeId, Node>, ids: set<NodeId>, present: Path -> bool, e: FileError) {
    forall k {:trigger Sealed(k)} :: Sealed(k) ==>
      Closed(nodes) && ids <= nodes.Keys && InputError(nodes, ids, present, e.file) == Some(e)
  }

  /** `InputError(f) == None`, sealed likewise. */
  ghost predicate Clean(nodes: map<NodeId, Node>, ids: set<NodeId>, present: Path -> bool, f: Path) {
    forall k {:trigger Sealed(k)} :: Sealed(k) ==>
      Closed(nodes) && ids <= nodes.Keys && InputError(nodes, ids, present, f) == None
  }

  lemma Seal(nodes: map<NodeId, Node>, ids: set<NodeId>, present: Path -> bool, f: Path, e: Option<FileError>)
    requires Closed(nodes) && ids <= nodes.Keys && e == InputError(nodes, ids, present, f)
    ensures e.Some? ==> e.value.file == f && Expected(nodes, ids, present, e.value)
    ensures e.None? ==> Clean(nodes, ids, present, f)
  {
  }

  /** The facts the reporting loop ends with, unsealed into the contract of the check. */
  lemma ReportedInputErrors(nodes: map<NodeId, Node>, ids: set<NodeId>, present: Path -> bool,
                            inputs: map<Path, set<NodeId>>, order: seq<Path>, errors: seq<FileError>)
    requires Closed(nodes) && ids <= nodes.Keys
    requires forall f :: f in order <==> f in inputs
    requires forall f :: f in Reported(errors) ==> f in inputs
    requires forall k :: 0 <= k < |order| ==> order[k] in Reported(errors) || Clean(nodes, ids, present, order[k])
    requires forall j :: 0 <= j < |errors| ==> Expected(nodes, ids, present, errors[j])
    ensures forall f :: f in Reported(errors) <==> f in inputs && InputError(nodes, ids, present, f).Some?
    ensures forall i :: 0 <= i < |errors| ==> InputError(nodes, ids, present, errors[i].file) == Some(errors[i])
  {
    assert Sealed(0);
    forall f | f in Reported(errors) ensures InputError(nodes, ids, present, f).Some? {
      var j := ReportedIndex(errors, f);
      assert Expected(nodes, ids, present, errors[j]);
    }
    forall f | f in inputs && InputError(nodes, ids, present, f).Some? ensures f in Reported(errors) {
      var k :| 0 <= k < |order| && order[k] == f;
    }
  }

  /** Every reported file is the file of some error. */
  lemma {:induction false} ReportedIndex(errors: seq<FileError>, f: Path) returns (j: nat)
    requires f in Reported(errors)
    ensures j < |errors| && errors[j].file == f
    decreases |errors|
  {
    var init := errors[..|errors| - 1];
    if f == errors[|errors| - 1].file {
      j := |errors| - 1;
    } else {
      j := ReportedIndex(init, f);
    }
  }

  /**
   * `_check_input_dependencies`: the closures of all nodes are collected, then the read files are
   * visited in sorted order and each one's error, if any, is reported.
   */
  method CheckInputDependencies(nodes: map<NodeId, Node>, ids: set<NodeId>, inputs: map<Path, set<NodeId>>,
                                outputs: map<Path, set<NodeId>>, present: Path -> bool)
    returns (errors: seq<FileError>)
    requires Closed(nodes)
    requires Indexed(nodes, ids, inputs, InputsOf) && Indexed(nodes, ids, outputs, OutputsOf)
    ensures forall f :: f in Reported(errors) <==> f in inputs && InputError(nodes, ids, present, f).Some?
    ensures forall i :: 0 <= i < |errors| ==> InputError(nodes, ids, present, errors[i].file) == Some(errors[i])
    ensures forall i, j :: 0 <= i < j < |errors| ==> Below(errors[i].file, errors[j].file)
  {
    ghost var bound := HandleBound(ids);
    var deps := CollectDependencies(nodes, ids, map[], bound);
    var order := SortStrings(inputs.Keys);
    errors := ReportInputErrors(nodes, ids, inputs, outputs, deps, present, order);
    ReportedInputErrors(nodes, ids, present, inputs, order, errors);
  }

  /** The reporting loop of `_check_input_dependencies`, over the read files in the given order. */
  method ReportInputErrors(nodes: map<NodeId, Node>, ids: set<NodeId>, inputs: map<Path, set<NodeId>>,
                           outputs: map<Path, set<NodeId>>, deps: map<NodeId, set<NodeId>>, present: Path -> bool,
                           order: seq<Path>)
    returns (errors: seq<FileError>)
    requires Closed(nodes) && Memo(nodes, deps) && ids <= deps.Keys
    requires Indexed(nodes, ids, inputs, InputsOf) && Indexed(nodes, ids, outputs, OutputsOf)
    requires Increasing(order) && forall f :: f in order ==> f in inputs
    ensures forall f :: f in Reported(errors) ==> f in inputs
    ensures forall k :: 0 <= k < |order| ==> order[k] in Reported(errors) || Clean(nodes, ids, present, order[k])
    ensures forall j :: 0 <= j < |errors| ==> Expected(nodes, ids, present, errors[j])
    ensures forall j1, j2 :: 0 <= j1 < j2 < |errors| ==> Below(errors[j1].file, errors[j2].file)
  {
    errors := [];
    var i := 0;
    while i < |order|
      invariant 0 <= i <= |order|
      invariant forall f :: f in Reported(errors) ==> f in inputs
      invariant forall k :: 0 <= k < i ==> order[k] in Reported(errors) || Clean(nodes, ids, present, order[k])
      invariant forall j :: 0 <= j < |errors| ==> Expected(nodes, ids, present, errors[j])
      invariant Before(errors, order, i)
    {
      var e := CheckInputFile(nodes, ids, inputs, outputs, deps, present, order[i]);
      Seal(nodes, ids, present, order[i], e);
      if e.Some? {
        BeforeAppend(errors, order, i, e.value);
        ReportedAppend(errors, e.value);
        errors := errors + [e.value];
      }
      i := i + 1;
    }
  }

  /** The errors are in increasing order of file, each about one of the first `i` files of `order`. */
  ghost predicate Before(errors: seq<FileError>, order: seq<Path>, i: nat) {
    && (forall j :: 0 <= j < |errors| ==> exists k :: 0 <= k < i <= |order| && errors[j].file == order[k])
    && (forall j1, j2 :: 0 <= j1 < j2 < |errors| ==> Below(errors[j1].file, errors[j2].file))
  }

  lemma BeforeAppend(errors: seq<FileError>, order: seq<Path>, i: nat, e: FileError)
    requires Increasing(order) && i < |order| && e.file == order[i] && Before(errors, order, i)
    ensures Before(errors + [e], order, i + 1)
  {
    forall j | 0 <= j < |errors| ensures Below(errors[j].file, e.file) {
      var k :| 0 <= k < i <= |order| && errors[j].file == order[k];
    }
  }

  // ---------------------------------------------------------------------------
  // Both checks together

  /** `_MAX_ERROR_MESSAGES`: at most this many errors of each kind are shown. */
  const MaxErrorMessages: nat := 10

  /** The claims on the resolved path `r`, read off the nodes themselves. */
  ghost function NodeClaims(nodes: map<NodeId, Node>, ids: set<NodeId>, resolve: Path -> Path, r: Path): set<(Path, NodeId)>
    requires ids <= nodes.Keys
  {
    set f, n | n in ids && f in OutputsOf(nodes[n]) && resolve(f) == r :: (f, n)
  }

  lemma ClaimsFromIndex(nodes: map<NodeId, Node>, ids: set<NodeId>, outputs: map<Path, set<NodeId>>,
                        resolve: Path -> Path, r: Path)
    requires Indexed(nodes, ids, outputs, OutputsOf)
    ensures Claims(outputs, resolve, r) == NodeClaims(nodes, ids, resolve, r)
  {
    forall p | p in NodeClaims(nodes, ids, resolve, r) ensures p in Claims(outputs, resolve, r) {
      var f, n :| n in ids && f in OutputsOf(nodes[n]) && resolve(f) == r && p == (f, n);
      assert f in outputs && n in outputs[f];
    }
  }

  /** An error either check may report about the nodes `ids`. */
  ghost predicate Genuine(nodes: map<NodeId, Node>, ids: set<NodeId>, resolve: Path -> Path, present: Path -> bool,
                          e: FileError)
    requires Closed(nodes) && ids <= nodes.Keys
  {
    if e.Clobber? then
      |NodeClaims(nodes, ids, resolve, e.file)| > 1 && e.nodes == Claimants(NodeClaims(nodes, ids, resolve, e.file))
    else
      Users(nodes, ids, InputsOf, e.file) != {} && InputError(nodes, ids, present, e.file) == Some(e)
  }

  /** The first `n` elements of `s`, or all of them (`zip(range(n), s)`). */
  function Take(s: seq<FileError>, n: nat): (r: seq<FileError>)
    ensures |r| <= n && r <= s
    ensures s != [] && n > 0 ==> r != []
  {
    if |s| <= n then s else s[..n]
  }

  /**
   * `_check_file_dependencies`: indexes the files of the nodes `ids`, runs both checks and fails,
   * showing at most `MaxErrorMessages` errors of each kind, exactly when some output is claimed
   * twice or some read file has an error.
   */
  method CheckFileDependencies(nodes: map<NodeId, Node>, ids: set<NodeId>, resolve: Path -> Path, present: Path -> bool)
    returns (r: Outcome<seq<FileError>>)
    requires Closed(nodes) && ids <= nodes.Keys
    ensures r.Pass? <==>
      && (forall p :: |NodeClaims(nodes, ids, resolve, p)| <= 1)
      && (forall f :: Users(nodes, ids, InputsOf, f) != {} ==> InputError(nodes, ids, present, f) == None)
    ensures r.Fail? ==> 0 < |r.error| <= 2 * MaxErrorMessages
    ensures r.Fail? ==> forall e :: e in r.error ==> Genuine(nodes, ids, resolve, present, e)
  {
    var inputs, outputs := IndexFiles(nodes, ids);
    var clobbers := CheckOutputFiles(outputs, resolve);
    var missing := CheckInputDependencies(nodes, ids, inputs, outputs, present);
    ClobbersFound(nodes, ids, outputs, resolve, present, clobbers);
    MissingFound(nodes, ids, inputs, resolve, present, missing);
    var shown := Take(clobbers, MaxErrorMessages) + Take(missing, MaxErrorMessages);
    if shown == [] {
      r := Pass;
    } else {
      r := Fail(shown);
    }
  }

  /** The output check's contract, read off the nodes. */
  lemma ClobbersFound(nodes: map<NodeId, Node>, ids: set<NodeId>, outputs: map<Path, set<NodeId>>,
                      resolve: Path -> Path, present: Path -> bool, errors: seq<FileError>)
    requires Closed(nodes) && Indexed(nodes, ids, outputs, OutputsOf)
    requires forall f :: f in Reported(errors) <==> |Claims(outputs, resolve, f)| > 1
    requires forall i :: 0 <= i < |errors| ==>
      errors[i].Clobber? && errors[i].nodes == Claimants(Claims(outputs, resolve, errors[i].file))
    ensures errors == [] <==> forall p :: |NodeClaims(nodes, ids, resolve, p)| <= 1
    ensures forall e :: e in errors ==> Genuine(nodes, ids, resolve, present, e)
  {
    forall p ensures Claims(outputs, resolve, p) == NodeClaims(nodes, ids, resolve, p) {
      ClaimsFromIndex(nodes, ids, outputs, resolve, p);
    }
    if errors != [] {
      assert errors[0].file in Reported(errors);
    }
  }

  /** The input check's contract, read off the nodes. */
  lemma MissingFound(nodes: map<NodeId, Node>, ids: set<NodeId>, inputs: map<Path, set<NodeId>>,
                     resolve: Path -> Path, present: Path -> bool, errors: seq<FileError>)
    requires Closed(nodes) && Indexed(nodes, ids, inputs, InputsOf)
    requires forall f :: f in Reported(errors) <==> f in inputs && InputError(nodes, ids, present, f).Some?
    requires forall i :: 0 <= i < |errors| ==> InputError(nodes, ids, present, errors[i].file) == Some(errors[i])
    ensures errors == [] <==> forall f :: Users(nodes, ids, InputsOf, f) != {} ==> InputError(nodes, ids, present, f) == None
    ensures forall e :: e in errors ==> Genuine(nodes, ids, resolve, present, e)
  {
    if errors != [] {
      assert errors[0].file in Reported(errors);
      IndexedUsers(nodes, ids, inputs, InputsOf, errors[0].file);
    } else {
      forall f | Users(nodes, ids, InputsOf, f) != {} ensures InputError(nodes, ids, present, f) == None {
        IndexedUsers(nodes, ids, inputs, InputsOf, f);
      }
    }
    forall e | e in errors ensures Genuine(nodes, ids, resolve, present, e) {
      var i :| 0 <= i < |errors| && errors[i] == e;
      assert e.file in Reported(errors);
      GenuineInput(nodes, ids, inputs, resolve, present, e);
    }
  }

  lemma GenuineInput(nodes: map<NodeId, Node>, ids: set<NodeId>, inputs: map<Path, set<NodeId>>,
                     resolve: Path -> Path, present: Path -> bool, e: FileError)
    requires Closed(nodes) && Indexed(nodes, ids, inputs, InputsOf)
    requires e.file in inputs && InputError(nodes, ids, present, e.file) == Some(e)
    ensures Genuine(nodes, ids, resolve, present, e)
  {
    IndexedUsers(nodes, ids, inputs, InputsOf, e.file);
  }

  // ---------------------------------------------------------------------------
  // Node lists in error messages

  /** The line that ends a shortened node list, for `n` omitted names. */
  function MoreLine(n: nat): string {
    "and " + NatToString(n) + " more nodes ..."
  }

  lemma MoreLineInjective(a: nat, b: nat)
    requires MoreLine(a) == MoreLine(b)
    ensures a == b
  {
    var ra, rb := MoreLine(a), MoreLine(b);
    assert ra[4..|ra| - 15] == NatToString(a) && rb[4..|rb| - 15] == NatToString(b);
    NatToStringInjective(a, b);
  }

  /**
   * `lines` stands for the sorted names `sorted`: either all of them, or a leading part of them
   * followed by a line giving the number of names left out.
   */
  predicate Faithful(sorted: seq<string>, lines: seq<string>) {
    || lines == sorted
    || (&& 1 <= |lines| <= |sorted|
        && lines[..|lines| - 1] == sorted[..|lines| - 1]
        && lines[|lines| - 1] == MoreLine(|sorted| - (|lines| - 1)))
  }

  /** `_summarize_nodes` as written: past four names, five are shown and the line counts all of them. */
  function SummaryAsWritten(sorted: seq<string>): (lines: seq<string>)
    ensures |sorted| <= 4 ==> lines == sorted
    ensures |sorted| > 4 ==> |lines| == 6 && lines[..5] == sorted[..5]
  {
    if |sorted| > 4 then sorted[..5] + [MoreLine(|sorted|)] else sorted
  }

  /**
   * Every shortened list is misstated: the line reports all names, not the ones left out (unless
   * a node is itself named like that line).
   */
  lemma SummaryAsWrittenMiscounts(sorted: seq<string>)
    requires |sorted| > 4 && MoreLine(|sorted|) !in sorted
    ensures !Faithful(sorted, SummaryAsWritten(sorted))
  {
    var lines := SummaryAsWritten(sorted);
    assert lines[5] == MoreLine(|sorted|);
    if |lines| <= |sorted| {
      if lines[5] == MoreLine(|sorted| - 5) {
        MoreLineInjective(|sorted|, |sorted| - 5);
      }
    }
  }

  /** Five names: all five are shown, and then "and 5 more nodes ..." although none is left out. */
  lemma SummaryAsWrittenFiveNames()
    ensures SummaryAsWritten(["a", "b", "c", "d", "e"]) == ["a", "b", "c", "d", "e", "and 5 more nodes ..."]
    ensures !Faithful(["a", "b", "c", "d", "e"], SummaryAsWritten(["a", "b", "c", "d", "e"]))
  {
    assert NatToString(5) == "5";
    assert MoreLine(5) == "and 5 more nodes ...";
    SummaryAsWrittenMiscounts(["a", "b", "c", "d", "e"]);
  }

  /** `_summarize_nodes` corrected: past four names, four are shown and the line counts the rest. */
  function Summary(sorted: seq<string>): (lines: seq<string>)
    ensures Faithful(sorted, lines)
    ensures |lines| <= 5 && (|sorted| <= 4 ==> lines == sorted)
  {
    if |sorted| > 4 then sorted[..4] + [MoreLine(|sorted| - 4)] else sorted
  }

  /** The names of the nodes `ids`. */
  ghost function Names(nodes: map<NodeId, Node>, ids: set<NodeId>): set<string>
    requires ids <= nodes.Keys
  {
    set m | m in ids :: nodes[m].name
  }

  /**
   * `_summarize_nodes` (corrected): the distinct names of the nodes in sorted order, shortened to
   * the four least names and a line giving the number of the others.
   */
  method SummarizeNodes(nodes: map<NodeId, Node>, ids: set<NodeId>) returns (lines: seq<string>)
    requires ids <= nodes.Keys
    ensures |Names(nodes, ids)| <= 4 ==>
      Increasing(lines) && |lines| == |Names(nodes, ids)| && forall x :: x in lines <==> x in Names(nodes, ids)
    ensures |Names(nodes, ids)| > 4 ==>
      && |lines| == 5 && Increasing(lines[..4])
      && (forall i :: 0 <= i < 4 ==> lines[i] in Names(nodes, ids))
      && (forall x :: x in Names(nodes, ids) && x !in lines[..4] ==> Below(lines[3], x))
      && lines[4] == MoreLine(|Names(nodes, ids)| - 4)
  {
    var names := set m | m in ids :: nodes[m].name;
    var sorted := SortStrings(names);
    lines := Summary(sorted);
    if |sorted| > 4 {
      assert lines[..4] == sorted[..4];
      forall x | x in names && x !in lines[..4] ensures Below(lines[3], x) {
        var k :| 0 <= k < |sorted| && sorted[k] == x;
        assert k >= 4;
      }
    }
  }

  // ---------------------------------------------------------------------------
  // Building a graph

  /**
   * `NodeGraph.__init__`: collects the nodes reachable from `roots` with their reverse
   * dependencies, refuses the graph when the file checks fail, and otherwise builds it with the
   * state of every node computed.
   */
  method Build(nodes: map<NodeId, Node>, roots: set<NodeId>, resolve: Path -> Path, present: Path -> bool,
               snap: Snapshot)
    returns (r: Result<Graph, seq<FileError>>)
    requires Closed(nodes) && roots <= nodes.Keys
    ensures r.Success? <==>
      && (forall p :: |NodeClaims(nodes, Reach(nodes, roots), resolve, p)| <= 1)
      && (forall f :: Users(nodes, Reach(nodes, roots), InputsOf, f) != {} ==>
            InputError(nodes, Reach(nodes, roots), present, f) == None)
    ensures r.Failure? ==> 0 < |r.error| <= 2 * MaxErrorMessages
    ensures r.Failure? ==> forall e :: e in r.error ==> Genuine(nodes, Reach(nodes, roots), resolve, present, e)
    ensures r.Success? ==>
      && fresh(r.value) && r.value.Wf() && r.value.nodes == nodes && r.value.rev.Keys == Reach(nodes, roots)
      && r.value.states.Keys == r.value.rev.Keys && Consistent(nodes, r.value.states, {}, snap)
  {
    var rev := CollectReverseDependencies(nodes, roots);
    var check := CheckFileDependencies(nodes, rev.Keys, resolve, present);
    if check.Fail? {
      return Failure(check.error);
    }
    forall m | m in rev ensures Preds(nodes[m]) <= rev.Keys {
      ReachClosed(nodes, roots, m);
    }
    var g := new Graph(nodes, rev, snap);
    r := Success(g);
  }
}
