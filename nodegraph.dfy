/**
 * The node graph of the pipeline: node states, the state computation, reverse dependencies and
 * their transitive closure, state changes pushed to dependents, and the static file checks.
 *
 * Nodes are named by handles (`NodeId`) into a fixed table of node records. The graph has no
 * cycle check of its own; the model takes acyclicity as given, in the form of a numbering in
 * which every dependency and subnode has a smaller handle than the node that uses it.
 */
module NodeGraph {
  import opened Wrappers
  import opened Text
  import opened Staleness

  // ---------------------------------------------------------------------------
  // States

  /** Node states, in increasing order of precedence. */
  datatype State = Done | Running | Runable | Queued | Outdated | Error
  {
    /** Position in the order `DONE < RUNNING < RUNABLE < QUEUED < OUTDATED < ERROR`. */
    function Ord(): (k: nat)
      ensures k < 6
    {
      match this
      case Done => 0
      case Running => 1
      case Runable => 2
      case Queued => 3
      case Outdated => 4
      case Error => 5
    }
  }

  /** `max(states)` over the state order. */
  function MaxState(states: set<State>): (r: State)
    requires states != {}
    ensures r in states
    ensures forall s :: s in states ==> s.Ord() <= r.Ord()
  {
    if Error in states then Error
    else if Outdated in states then Outdated
    else if Queued in states then Queued
    else if Runable in states then Runable
    else if Running in states then Running
    else
      var s :| s in states;
      assert s == Done;
      Done
  }

  /**
   * What the node's own staleness checks report: `is_done`, and `is_outdated` unless checking it
   * raised an `OSError` (`None`).
   */
  datatype Freshness = Freshness(done: bool, outdated: Option<bool>)

  /**
   * The state `_update_node_state` gives a node whose dependencies are in `depStates` and whose
   * subnodes are in `subStates`.
   */
  function Combine(isMeta: bool, depStates: set<State>, subStates: set<State>, own: Freshness): State {
    var state := MaxState({Done} + depStates + subStates);
    if isMeta then
      if state.Ord() < Error.Ord() then
        var running := Running in subStates;
        var queued := if state == Runable then Queued else state;
        if queued == Running && !running then Queued
        else if running then Running
        else queued
      else state
    else if state == Done then
      if !own.done then Runable
      else match own.outdated
        case None => Error
        case Some(outdated) => if outdated then Runable else Done
    else if state in {Running, Runable, Queued} then
      if own.done then Outdated else Queued
    else state
  }

  /** An ERROR dependency or subnode makes the node ERROR. */
  lemma ErrorPropagates(isMeta: bool, depStates: set<State>, subStates: set<State>, own: Freshness)
    requires Error in depStates + subStates
    ensures Combine(isMeta, depStates, subStates, own) == Error
  {
  }

  /**
   * A node is RUNABLE only if it is not a meta-node and every dependency and subnode is DONE;
   * with all of them DONE a plain node is RUNABLE exactly when it is not done or is outdated.
   */
  lemma RunableOnlyWhenInputsDone(isMeta: bool, depStates: set<State>, subStates: set<State>, own: Freshness)
    ensures Combine(isMeta, depStates, subStates, own) == Runable ==>
      !isMeta && depStates + subStates <= {Done}
    ensures !isMeta && depStates + subStates <= {Done} ==>
      (Combine(isMeta, depStates, subStates, own) == Runable <==> !own.done || own.outdated == Some(true))
  {
    var all := {Done} + depStates + subStates;
    if depStates + subStates <= {Done} {
      assert all == {Done};
    } else {
      var s :| s in depStates + subStates && s != Done;
      assert MaxState(all).Ord() >= s.Ord() > 0;
    }
  }

  /**
   * A plain node whose highest input state is RUNNING, RUNABLE or QUEUED becomes OUTDATED if it
   * is done and QUEUED otherwise; it never becomes RUNNING or RUNABLE this way.
   */
  lemma PendingInputs(depStates: set<State>, subStates: set<State>, own: Freshness)
    requires MaxState({Done} + depStates + subStates) in {Running, Runable, Queued}
    ensures Combine(false, depStates, subStates, own) == (if own.done then Outdated else Queued)
  {
  }

  /**
   * A meta-node is never RUNABLE. Without an ERROR input it is RUNNING exactly when a subnode is
   * RUNNING, and a RUNNING dependency alone makes it QUEUED.
   */
  lemma MetaNodeRules(depStates: set<State>, subStates: set<State>, own: Freshness)
    ensures Combine(true, depStates, subStates, own) != Runable
    ensures Error !in depStates + subStates ==>
      (Combine(true, depStates, subStates, own) == Running <==> Running in subStates)
    ensures (Error !in depStates + subStates && Running !in subStates &&
             MaxState({Done} + depStates + subStates) == Running) ==>
      Combine(true, depStates, subStates, own) == Queued
  {
    var state := MaxState({Done} + depStates + subStates);
    if Error !in depStates + subStates {
      assert state != Error;
    }
  }

  // ---------------------------------------------------------------------------
  // Nodes and the dependency relation

  type NodeId = nat

  /** The parts of a node the graph reads. */
  datatype Node = Node(
    name: string,
    dependencies: set<NodeId>,
    subnodes: set<NodeId>,
    isMeta: bool,
    inputFiles: set<Path>,
    outputFiles: set<Path>,
    auxiliaryFiles: set<Path>,
    threads: nat)

  /** `node.dependencies | node.subnodes`. */
  function Preds(n: Node): set<NodeId> {
    n.dependencies + n.subnodes
  }

  /**
   * The node table is closed under dependencies and subnodes, and every node's dependencies and
   * subnodes have smaller handles (so the graph is acyclic).
   */
  ghost predicate Closed(nodes: map<NodeId, Node>) {
    forall id, d :: id in nodes && d in Preds(nodes[id]) ==> d in nodes && d < id
  }

  /** Everything a node depends on, directly or through other nodes, over `dependencies | subnodes`. */
  function Desc(nodes: map<NodeId, Node>, id: NodeId): (r: set<NodeId>)
    requires Closed(nodes) && id in nodes
    ensures Preds(nodes[id]) <= r
    ensures forall e :: e in r ==> e in nodes && e < id
    decreases id
  {
    forall d | d in Preds(nodes[id]) ensures d in nodes && d < id {
      assert id in nodes && d in Preds(nodes[id]);
    }
    var deeper := set d, e | d in Preds(nodes[id]) && e in Desc(nodes, d) :: e;
    assert forall d, e :: d in Preds(nodes[id]) && e in Desc(nodes, d) ==> e in nodes && e < id;
    Preds(nodes[id]) + deeper
  }

  /** The closure is transitive. */
  lemma DescTransitive(nodes: map<NodeId, Node>, id: NodeId, d: NodeId)
    requires Closed(nodes) && id in nodes && d in Desc(nodes, id)
    ensures Desc(nodes, d) <= Desc(nodes, id)
    decreases id
  {
    if d !in Preds(nodes[id]) {
      var p :| p in Preds(nodes[id]) && d in Desc(nodes, p);
      DescTransitive(nodes, p, d);
    }
  }

  /** Nodes reachable from `roots` over `dependencies | subnodes`, the roots included. */
  function Reach(nodes: map<NodeId, Node>, roots: set<NodeId>): (r: set<NodeId>)
    requires Closed(nodes) && roots <= nodes.Keys
    ensures roots <= r <= nodes.Keys
  {
    roots + (set id, e | id in roots && e in Desc(nodes, id) :: e)
  }

  /** The reachable set is closed under dependencies and subnodes. */
  lemma ReachClosed(nodes: map<NodeId, Node>, roots: set<NodeId>, m: NodeId)
    requires Closed(nodes) && roots <= nodes.Keys && m in Reach(nodes, roots)
    ensures Desc(nodes, m) <= Reach(nodes, roots)
  {
    if m !in roots {
      var r :| r in roots && m in Desc(nodes, r);
      DescTransitive(nodes, r, m);
    }
  }

  /** Nodes of `universe` that depend, directly or not, on `x`: the keys of `_intersections[x]`. */
  function Dependents(nodes: map<NodeId, Node>, universe: set<NodeId>, x: NodeId): (r: set<NodeId>)
    requires Closed(nodes) && universe <= nodes.Keys
    ensures r <= universe
    ensures x !in r
  {
    set m | m in universe && x in Desc(nodes, m)
  }

  /**
   * `rev` holds the reverse-dependency sets of the nodes in `processed`: its keys are those nodes
   * and everything they list, and `rev[d]` holds the processed nodes that list `d`.
   */
  ghost predicate RevOf(nodes: map<NodeId, Node>, rev: map<NodeId, set<NodeId>>, processed: set<NodeId>) {
    && processed <= nodes.Keys
    && processed <= rev.Keys
    && (forall m, d :: m in processed && d in Preds(nodes[m]) ==> d in rev)
    && (forall d :: d in rev && d !in processed ==> rev[d] != {})
    && (forall d, m :: d in rev ==> (m in rev[d] <==> m in processed && d in Preds(nodes[m])))
  }

  /** A set containing `roots` and closed under dependencies and subnodes contains all of `Reach(roots)`. */
  lemma ReachLeast(nodes: map<NodeId, Node>, roots: set<NodeId>, s: set<NodeId>)
    requires Closed(nodes) && roots <= s <= nodes.Keys
    requires forall m :: m in s ==> Preds(nodes[m]) <= s
    ensures Reach(nodes, roots) <= s
  {
    forall r, e | r in roots && e in Desc(nodes, r) ensures e in s {
      DescInClosedSet(nodes, r, s);
    }
  }

  lemma DescInClosedSet(nodes: map<NodeId, Node>, id: NodeId, s: set<NodeId>)
    requires Closed(nodes) && id in s && s <= nodes.Keys
    requires forall m :: m in s ==> Preds(nodes[m]) <= s
    ensures Desc(nodes, id) <= s
    decreases id
  {
    forall d | d in Preds(nodes[id]) ensures Desc(nodes, d) <= s {
      DescInClosedSet(nodes, d, s);
    }
  }

  /**
   * `rev` while a newly visited `node` is being recorded: the nodes of `processed` are recorded in
   * full, and `node` has an entry and is listed under the members of `added` so far.
   */
  ghost predicate RevPartial(nodes: map<NodeId, Node>, rev: map<NodeId, set<NodeId>>, processed: set<NodeId>,
                             node: NodeId, added: set<NodeId>)
  {
    && processed <= nodes.Keys && node in nodes
    && processed + {node} <= rev.Keys
    && (forall m, d :: m in processed && d in Preds(nodes[m]) ==> d in rev)
    && added <= rev.Keys
    && (forall d :: d in rev && d !in processed + {node} ==> rev[d] != {})
    && (forall d, m :: d in rev ==>
         (m in rev[d] <==> (m in processed && d in Preds(nodes[m])) || (m == node && d in added)))
  }

  /** Giving a newly visited `node` an entry of its own starts its partial record. */
  lemma RevPartialStart(nodes: map<NodeId, Node>, rev0: map<NodeId, set<NodeId>>, processed: set<NodeId>, node: NodeId)
    requires node in nodes && node !in processed
    requires RevOf(nodes, rev0, processed)
    ensures RevPartial(nodes, if node in rev0 then rev0 else rev0[node := {}], processed, node, {})
  {
    var rev := if node in rev0 then rev0 else rev0[node := {}];
    forall d, m | d in rev ensures m in rev[d] <==> m in processed && d in Preds(nodes[m]) {
      if d != node || node in rev0 { assert rev[d] == rev0[d]; }
    }
  }

  /** Adding `node` to the reverse set of one more dependency keeps the partial record. */
  lemma RevPartialStep(nodes: map<NodeId, Node>, rev: map<NodeId, set<NodeId>>, processed: set<NodeId>,
                       node: NodeId, added: set<NodeId>, dependency: NodeId)
    requires RevPartial(nodes, rev, processed, node, added)
    ensures RevPartial(nodes, rev[dependency := (if dependency in rev then rev[dependency] else {}) + {node}],
                       processed, node, added + {dependency})
  {
    var rev' := rev[dependency := (if dependency in rev then rev[dependency] else {}) + {node}];
    forall d, m | d in rev'
      ensures m in rev'[d] <==> (m in processed && d in Preds(nodes[m])) || (m == node && d in added + {dependency})
    {
      if d != dependency {
        assert rev'[d] == rev[d];
      }
    }
  }

  /** Once `node` is listed under all of its dependencies and subnodes, it is recorded in full. */
  lemma RevPartialDone(nodes: map<NodeId, Node>, rev: map<NodeId, set<NodeId>>, processed: set<NodeId>, node: NodeId,
                       added: set<NodeId>)
    requires processed <= nodes.Keys && node in nodes && added == Preds(nodes[node])
    requires RevPartial(nodes, rev, processed, node, added)
    ensures RevOf(nodes, rev, processed + {node})
  {
    forall d, m | d in rev
      ensures m in rev[d] <==> m in processed + {node} && d in Preds(nodes[m])
    {
      assert m in rev[d] <==> (m in processed && d in Preds(nodes[m])) || (m == node && d in Preds(nodes[node]));
    }
  }

  /**
   * The body of `_collect_reverse_dependencies` for a node seen for the first time: gives it an
   * entry of its own and adds it to the reverse set of each of its dependencies and subnodes.
   */
  method RecordNode(nodes: map<NodeId, Node>, rev0: map<NodeId, set<NodeId>>, processed: set<NodeId>, node: NodeId)
    returns (rev: map<NodeId, set<NodeId>>)
    requires node in nodes && node !in processed
    requires RevOf(nodes, rev0, processed)
    ensures RevOf(nodes, rev, processed + {node})
  {
    rev := if node in rev0 then rev0 else rev0[node := {}];
    var subnodes := nodes[node].dependencies + nodes[node].subnodes;
    var pending := subnodes;
    RevPartialStart(nodes, rev0, processed, node);
    while pending != {}
      invariant pending <= subnodes
      invariant RevPartial(nodes, rev, processed, node, subnodes - pending)
      decreases |pending|
    {
      var dependency :| dependency in pending;
      RevPartialStep(nodes, rev, processed, node, subnodes - pending, dependency);
      rev := rev[dependency := (if dependency in rev then rev[dependency] else {}) + {node}];
      assert subnodes - (pending - {dependency}) == (subnodes - pending) + {dependency};
      pending := pending - {dependency};
    }
    assert subnodes - pending == Preds(nodes[node]);
    RevPartialDone(nodes, rev, processed, node, subnodes - pending);
  }

  /**
   * `_collect_reverse_dependencies`: visits the nodes of `lst` and, depth first, everything they
   * list, recording for each visited node which nodes list it.
   */
  method CollectReverse(nodes: map<NodeId, Node>, lst: set<NodeId>, rev0: map<NodeId, set<NodeId>>, processed0: set<NodeId>,
                        ghost bound: set<NodeId>)
    returns (rev: map<NodeId, set<NodeId>>, processed: set<NodeId>)
    requires lst <= bound <= nodes.Keys
    requires forall m :: m in bound ==> Preds(nodes[m]) <= bound
    requires RevOf(nodes, rev0, processed0)
    ensures RevOf(nodes, rev, processed)
    ensures processed0 + lst <= processed <= processed0 + bound
    ensures forall m :: m in processed - processed0 ==> Preds(nodes[m]) <= processed
    decreases |nodes.Keys - processed0|
  {
    rev, processed := rev0, processed0;
    var todo := lst;
    while todo != {}
      invariant todo <= lst
      invariant RevOf(nodes, rev, processed)
      invariant processed0 + (lst - todo) <= processed <= processed0 + bound
      invariant forall m :: m in processed - processed0 ==> Preds(nodes[m]) <= processed
      decreases |todo|
    {
      var node :| node in todo;
      if node !in processed {
        rev := RecordNode(nodes, rev, processed, node);
        ghost var before := processed + {node};
        processed := processed + {node};
        FewerUnvisited(nodes.Keys, processed0, processed, node);
        var subnodes := nodes[node].dependencies + nodes[node].subnodes;
        rev, processed := CollectReverse(nodes, subnodes, rev, processed, bound);
        VisitClosed(nodes, processed0, before, node, processed);
      }
      todo := todo - {node};
    }
  }

  /** After `node` and everything it lists have been visited, every newly visited node lists only visited nodes. */
  lemma VisitClosed(nodes: map<NodeId, Node>, processed0: set<NodeId>, before: set<NodeId>, node: NodeId,
                    processed: set<NodeId>)
    requires processed <= nodes.Keys && before <= processed && node in before
    requires forall m :: m in before - {node} - processed0 ==> Preds(nodes[m]) <= before - {node}
    requires Preds(nodes[node]) <= processed
    requires forall m :: m in processed - before ==> Preds(nodes[m]) <= processed
    ensures forall m :: m in processed - processed0 ==> Preds(nodes[m]) <= processed
  {
  }

  /** Visiting one more node leaves fewer nodes unvisited. */
  lemma FewerUnvisited(all: set<NodeId>, before: set<NodeId>, after: set<NodeId>, node: NodeId)
    requires before <= after <= all && node in after - before
    ensures |all - after| < |all - before|
  {
    assert all - before == (all - after) + (after - before);
    assert (all - after) * (after - before) == {};
    assert |after - before| >= 1 by { assert node in after - before; }
  }

  /**
   * Reverse dependencies of the graph over `roots`: exactly the nodes reachable from the roots
   * have an entry, and `n` is in `rev[d]` iff `d` is a dependency or subnode of `n`.
   */
  method CollectReverseDependencies(nodes: map<NodeId, Node>, roots: set<NodeId>) returns (rev: map<NodeId, set<NodeId>>)
    requires Closed(nodes) && roots <= nodes.Keys
    ensures rev.Keys == Reach(nodes, roots)
    ensures forall d, n :: d in rev && n in rev ==> (n in rev[d] <==> d in Preds(nodes[n]))
    ensures forall d :: d in rev ==> rev[d] <= rev.Keys
  {
    ghost var reach := Reach(nodes, roots);
    ReachIsClosed(nodes, roots);
    var processed;
    rev, processed := CollectReverse(nodes, roots, map[], {}, reach);
    ReachLeast(nodes, roots, processed);
    RevComplete(nodes, rev, processed);
  }

  /** The reachable set lists nothing outside itself. */
  lemma ReachIsClosed(nodes: map<NodeId, Node>, roots: set<NodeId>)
    requires Closed(nodes) && roots <= nodes.Keys
    ensures forall m :: m in Reach(nodes, roots) ==> Preds(nodes[m]) <= Reach(nodes, roots)
  {
    forall m | m in Reach(nodes, roots) ensures Preds(nodes[m]) <= Reach(nodes, roots) {
      ReachClosed(nodes, roots, m);
    }
  }

  /** Once the visited nodes list nothing unvisited, the reverse map has exactly them as keys. */
  lemma RevComplete(nodes: map<NodeId, Node>, rev: map<NodeId, set<NodeId>>, processed: set<NodeId>)
    requires RevOf(nodes, rev, processed)
    requires forall m :: m in processed ==> Preds(nodes[m]) <= processed
    ensures rev.Keys == processed
    ensures forall d :: d in rev ==> rev[d] <= rev.Keys
  {
    forall d | d in rev ensures d in processed {
      if rev[d] != {} {
        var m :| m in rev[d];
        assert Preds(nodes[m]) <= processed;
      }
    }
  }

  // ---------------------------------------------------------------------------
  // The state of a node within the graph

  /** The states stored for a set of nodes. */
  function StatesOf(ids: set<NodeId>, states: map<NodeId, State>): set<State>
    requires ids <= states.Keys
  {
    set d | d in ids :: states[d]
  }

  /**
   * What `is_done` and `is_outdated` report for a node over the snapshot. `is_outdated` is asked
   * only of a done node. A node without output files is never outdated, and is answered without
   * looking at its inputs; otherwise a missing input file raises an `OSError`, reported here as
   * `None`.
   */
  function OwnFreshness(n: Node, snap: Snapshot): (f: Freshness)
    ensures f.done == IsDone(n.outputFiles, snap)
    ensures f.outdated == None <==> n.outputFiles != {} && !(n.inputFiles <= snap.Keys)
    ensures f.outdated == Some(true) ==> IsOutdated(n.inputFiles, n.outputFiles, snap)
    ensures f.outdated == Some(false) ==> !IsOutdated(n.inputFiles, n.outputFiles, snap)
  {
    Freshness(IsDone(n.outputFiles, snap),
              if n.outputFiles == {} || n.inputFiles <= snap.Keys then Some(IsOutdated(n.inputFiles, n.outputFiles, snap))
              else None)
  }

  /** The state `_update_node_state` computes for `id` from the stored states of its dependencies and subnodes. */
  function Eval(nodes: map<NodeId, Node>, id: NodeId, states: map<NodeId, State>, snap: Snapshot): State
    requires id in nodes && Preds(nodes[id]) <= states.Keys
  {
    var n := nodes[id];
    Combine(n.isMeta, StatesOf(n.dependencies, states), StatesOf(n.subnodes, states), OwnFreshness(n, snap))
  }

  /** The computed state depends only on the states of the node's dependencies and subnodes. */
  lemma EvalLocal(nodes: map<NodeId, Node>, id: NodeId, s1: map<NodeId, State>, s2: map<NodeId, State>, snap: Snapshot)
    requires id in nodes && Preds(nodes[id]) <= s1.Keys && Preds(nodes[id]) <= s2.Keys
    requires forall p :: p in Preds(nodes[id]) ==> s1[p] == s2[p]
    ensures Eval(nodes, id, s1, snap) == Eval(nodes, id, s2, snap)
  {
    var n := nodes[id];
    assert StatesOf(n.dependencies, s1) == StatesOf(n.dependencies, s2);
    assert StatesOf(n.subnodes, s1) == StatesOf(n.subnodes, s2);
  }

  /**
   * Every stored state outside `pinned` is the state computed from the stored states of the
   * node's dependencies and subnodes; `pinned` holds the states set from outside.
   */
  ghost predicate Consistent(nodes: map<NodeId, Node>, states: map<NodeId, State>, pinned: set<NodeId>, snap: Snapshot) {
    forall m :: m in states && m !in pinned ==>
      m in nodes && Preds(nodes[m]) <= states.Keys && states[m] == Eval(nodes, m, states, snap)
  }

  /** In a consistent graph, a computed state is ERROR as soon as one dependency or subnode is ERROR. */
  lemma ConsistentErrorPropagates(nodes: map<NodeId, Node>, states: map<NodeId, State>, pinned: set<NodeId>,
                                  snap: Snapshot, m: NodeId, p: NodeId)
    requires Consistent(nodes, states, pinned, snap)
    requires m in states && m !in pinned && p in Preds(nodes[m]) && states[p] == Error
    ensures states[m] == Error
  {
    var n := nodes[m];
    assert Error in StatesOf(n.dependencies, states) + StatesOf(n.subnodes, states);
    ErrorPropagates(n.isMeta, StatesOf(n.dependencies, states), StatesOf(n.subnodes, states), OwnFreshness(n, snap));
  }

  /**
   * In a consistent graph, a computed RUNABLE node is a plain node whose dependencies and subnodes
   * are all DONE, and whose outputs are missing or older than an input.
   */
  lemma ConsistentRunable(nodes: map<NodeId, Node>, states: map<NodeId, State>, pinned: set<NodeId>,
                          snap: Snapshot, m: NodeId)
    requires Consistent(nodes, states, pinned, snap)
    requires m in states && m !in pinned && states[m] == Runable
    ensures !nodes[m].isMeta
    ensures forall p :: p in Preds(nodes[m]) ==> states[p] == Done
    ensures !IsDone(nodes[m].outputFiles, snap) || IsOutdated(nodes[m].inputFiles, nodes[m].outputFiles, snap)
  {
    var n := nodes[m];
    var deps, subs := StatesOf(n.dependencies, states), StatesOf(n.subnodes, states);
    RunableOnlyWhenInputsDone(n.isMeta, deps, subs, OwnFreshness(n, snap));
    forall p | p in Preds(n) ensures states[p] == Done {
      assert states[p] in deps + subs;
    }
  }

  /**
   * The states `refresh_states` arrives at: `kept` holds the ERROR and RUNNING entries it keeps,
   * and every other node gets the state computed from the states of its dependencies and subnodes.
   */
  ghost function Derived(nodes: map<NodeId, Node>, kept: map<NodeId, State>, snap: Snapshot, id: NodeId): State
    requires Closed(nodes) && id in nodes
    decreases id, 1
  {
    if id in kept then kept[id]
    else
      var n := nodes[id];
      Combine(n.isMeta, DerivedOf(nodes, kept, snap, n.dependencies, id),
              DerivedOf(nodes, kept, snap, n.subnodes, id), OwnFreshness(n, snap))
  }

  /** The `Derived` states of a set of nodes, all below `bound`. */
  ghost function DerivedOf(nodes: map<NodeId, Node>, kept: map<NodeId, State>, snap: Snapshot, ids: set<NodeId>,
                           bound: NodeId): set<State>
    requires Closed(nodes) && ids <= nodes.Keys
    requires forall d :: d in ids ==> d < bound
    decreases bound, 0
  {
    set d | d in ids :: Derived(nodes, kept, snap, d)
  }

  /**
   * The states are determined by the kept entries and the file system: any stored map that keeps
   * `kept` and is consistent elsewhere holds exactly the `Derived` states.
   */
  lemma {:induction false} ConsistentIsDerived(nodes: map<NodeId, Node>, states: map<NodeId, State>,
                                               kept: map<NodeId, State>, snap: Snapshot, m: NodeId)
    requires Closed(nodes) && states.Keys <= nodes.Keys
    requires forall k :: k in states ==> Preds(nodes[k]) <= states.Keys
    requires Consistent(nodes, states, kept.Keys, snap)
    requires forall k :: k in kept && k in states ==> states[k] == kept[k]
    requires m in states
    ensures states[m] == Derived(nodes, kept, snap, m)
    decreases m
  {
    if m !in kept {
      var n := nodes[m];
      forall d | d in Preds(n) ensures states[d] == Derived(nodes, kept, snap, d) {
        ConsistentIsDerived(nodes, states, kept, snap, d);
      }
      DerivedImage(nodes, states, kept, snap, n.dependencies, m);
      DerivedImage(nodes, states, kept, snap, n.subnodes, m);
    }
  }

  /** Stored states that agree with `Derived` on `ids` have the same image. */
  lemma DerivedImage(nodes: map<NodeId, Node>, states: map<NodeId, State>, kept: map<NodeId, State>, snap: Snapshot,
                     ids: set<NodeId>, bound: NodeId)
    requires Closed(nodes) && ids <= states.Keys && ids <= nodes.Keys
    requires forall d :: d in ids ==> d < bound
    requires forall d :: d in ids ==> states[d] == Derived(nodes, kept, snap, d)
    ensures StatesOf(ids, states) == DerivedOf(nodes, kept, snap, ids, bound)
  {
    forall t | t in DerivedOf(nodes, kept, snap, ids, bound) ensures t in StatesOf(ids, states) {
      var d :| d in ids && Derived(nodes, kept, snap, d) == t;
      assert states[d] == t;
    }
  }

  /** `b` keeps every entry of `a`, and each entry `b` adds holds the computed state. */
  ghost predicate Grows(nodes: map<NodeId, Node>, a: map<NodeId, State>, b: map<NodeId, State>, snap: Snapshot) {
    && a.Keys <= b.Keys
    && (forall k :: k in a ==> b[k] == a[k])
    && (forall k :: k in b && k !in a ==>
          k in nodes && Preds(nodes[k]) <= b.Keys && b[k] == Eval(nodes, k, b, snap))
  }

  lemma GrowsTrans(nodes: map<NodeId, Node>, a: map<NodeId, State>, b: map<NodeId, State>, c: map<NodeId, State>,
                   snap: Snapshot)
    requires Grows(nodes, a, b, snap) && Grows(nodes, b, c, snap)
    ensures Grows(nodes, a, c, snap)
  {
    forall k | k in c && k !in a
      ensures k in nodes && Preds(nodes[k]) <= c.Keys && c[k] == Eval(nodes, k, c, snap)
    {
      if k in b {
        EvalLocal(nodes, k, b, c, snap);
      }
    }
  }

  /** Starting from `kept`, a map grown by computed entries is consistent with `kept` pinned. */
  lemma GrowsFromKept(nodes: map<NodeId, Node>, kept: map<NodeId, State>, states: map<NodeId, State>, snap: Snapshot)
    requires Grows(nodes, kept, states, snap)
    ensures Consistent(nodes, states, kept.Keys, snap)
  {
  }

  /** Once every node has a state grown from the kept ones, every state is the derived one. */
  lemma RefreshedIsDerived(nodes: map<NodeId, Node>, universe: set<NodeId>, kept: map<NodeId, State>,
                           states: map<NodeId, State>, snap: Snapshot)
    requires Closed(nodes) && universe <= nodes.Keys && states.Keys == universe
    requires forall m :: m in universe ==> Preds(nodes[m]) <= universe
    requires Grows(nodes, kept, states, snap)
    ensures forall m :: m in universe ==> states[m] == Derived(nodes, kept, snap, m)
    ensures Consistent(nodes, states, kept.Keys, snap)
  {
    GrowsFromKept(nodes, kept, states, snap);
    forall m | m in universe ensures states[m] == Derived(nodes, kept, snap, m) {
      ConsistentIsDerived(nodes, states, kept, snap, m);
    }
  }

  /** The state `_update_node_state` assembles from the collected states is the computed state. */
  lemma CombineIsEval(nodes: map<NodeId, Node>, id: NodeId, states: map<NodeId, State>,
                      depStates: set<State>, subStates: set<State>, snap: Snapshot)
    requires id in nodes && Preds(nodes[id]) <= states.Keys
    requires depStates == {Done} + StatesOf(nodes[id].dependencies, states)
    requires subStates == StatesOf(nodes[id].subnodes, states)
    ensures Combine(nodes[id].isMeta, depStates, subStates, OwnFreshness(nodes[id], snap)) == Eval(nodes, id, states, snap)
  {
    var n := nodes[id];
    CombineWithDone(n.isMeta, StatesOf(n.dependencies, states), subStates, OwnFreshness(n, snap));
  }

  /** Storing the computed state of a node whose dependencies and subnodes are stored grows the map. */
  lemma InsertComputed(nodes: map<NodeId, Node>, a: map<NodeId, State>, before: map<NodeId, State>, id: NodeId,
                       snap: Snapshot)
    requires Grows(nodes, a, before, snap) && id !in before
    requires id in nodes && Preds(nodes[id]) <= before.Keys && id !in Preds(nodes[id])
    ensures Grows(nodes, a, before[id := Eval(nodes, id, before, snap)], snap)
  {
    var after := before[id := Eval(nodes, id, before, snap)];
    EvalLocal(nodes, id, before, after, snap);
    GrowsTrans(nodes, a, before, after, snap);
  }

  /** Moving `d` out of the pending part of `all` moves it into the finished part. */
  lemma DoneStep(all: set<NodeId>, pending: set<NodeId>, d: NodeId)
    ensures all - (pending - {d}) == (if d in all then (all - pending) + {d} else all - pending)
    ensures all - {} == all
  {
  }

  /** Adding one node to a set adds its stored state to the image. */
  lemma StatesOfAdd(ids: set<NodeId>, d: NodeId, states: map<NodeId, State>)
    requires ids <= states.Keys && d in states
    ensures StatesOf(ids + {d}, states) == StatesOf(ids, states) + {states[d]}
  {
  }

  /** The image of a set does not change when the map grows around it. */
  lemma StatesOfStable(ids: set<NodeId>, a: map<NodeId, State>, b: map<NodeId, State>)
    requires ids <= a.Keys && a.Keys <= b.Keys
    requires forall k :: k in a ==> b[k] == a[k]
    ensures StatesOf(ids, a) == StatesOf(ids, b)
  {
    forall t | t in StatesOf(ids, b) ensures t in StatesOf(ids, a) {
      var d :| d in ids && b[d] == t;
      assert a[d] == t;
    }
  }

  /** The extra DONE that `_update_node_state` seeds the dependency states with changes nothing. */
  lemma CombineWithDone(isMeta: bool, depStates: set<State>, subStates: set<State>, own: Freshness)
    ensures Combine(isMeta, {Done} + depStates, subStates, own) == Combine(isMeta, depStates, subStates, own)
  {
    assert {Done} + ({Done} + depStates) + subStates == {Done} + depStates + subStates;
  }

  /** The nodes no other node lists: the nodes `__iter__` yields. */
  function TopNodes(rev: map<NodeId, set<NodeId>>): set<NodeId> {
    set m | m in rev && rev[m] == {}
  }

  /** Every node of the graph is a top node or something a top node depends on. */
  lemma {:induction false} TopNodesCover(nodes: map<NodeId, Node>, rev: map<NodeId, set<NodeId>>, m: NodeId,
                                         bound: nat) returns (t: NodeId)
    requires Closed(nodes) && RevExact(nodes, rev) && m in rev
    requires forall k :: k in rev ==> k < bound
    ensures t in TopNodes(rev) && (t == m || m in Desc(nodes, t))
    decreases bound - m
  {
    if rev[m] == {} {
      t := m;
    } else {
      var n :| n in rev[m];
      assert m in Preds(nodes[n]);
      t := TopNodesCover(nodes, rev, n, bound);
      if t != n {
        DescTransitive(nodes, t, n);
      }
    }
  }

  /**
   * `_intersections`: for each node `x`, each node `m` depending on `x` (directly or not) is
   * mapped to the number of its own dependencies and subnodes that also depend on `x`.
   */
  function Intersections(nodes: map<NodeId, Node>, universe: set<NodeId>): map<NodeId, map<NodeId, nat>>
    requires Closed(nodes) && universe <= nodes.Keys
  {
    map x | x in universe :: Counts(nodes, universe, x)
  }

  /** For every dependent of `x`, how many of its dependencies and subnodes are dependents of `x` too. */
  function Counts(nodes: map<NodeId, Node>, universe: set<NodeId>, x: NodeId): (r: map<NodeId, nat>)
    requires Closed(nodes) && universe <= nodes.Keys
    ensures r.Keys == Dependents(nodes, universe, x)
    ensures forall m :: m in r ==> r[m] == |Preds(nodes[m]) * r.Keys|
  {
    var dependents := Dependents(nodes, universe, x);
    map m | m in dependents :: |Preds(nodes[m]) * dependents|
  }

  /** `rev[d]` holds exactly the nodes of the graph that list `d`. */
  ghost predicate RevExact(nodes: map<NodeId, Node>, rev: map<NodeId, set<NodeId>>) {
    && rev.Keys <= nodes.Keys
    && (forall d, n :: d in rev && n in rev ==> (n in rev[d] <==> d in Preds(nodes[n])))
    && (forall d :: d in rev ==> rev[d] <= rev.Keys)
  }

  /** The dependents of `x` include every node of the universe that lists one of them. */
  lemma DependentsUpward(nodes: map<NodeId, Node>, universe: set<NodeId>, x: NodeId, n: NodeId, m: NodeId)
    requires Closed(nodes) && universe <= nodes.Keys
    requires n in Dependents(nodes, universe, x) && m in universe && n in Preds(nodes[m])
    ensures m in Dependents(nodes, universe, x)
  {
    DescTransitive(nodes, m, n);
  }

  // ---------------------------------------------------------------------------
  // Pushing a state change to the dependents

  /** Some dependency or subnode of `m` holds a different state in `news` than in `olds`. */
  ghost predicate ChangedPred(nodes: map<NodeId, Node>, m: NodeId, olds: map<NodeId, State>, news: map<NodeId, State>)
    requires m in nodes
  {
    exists p :: p in Preds(nodes[m]) && p in olds && p in news && news[p] != olds[p]
  }

  /**
   * The states after `set_node_state(x, s)`: `x` holds `s`; every other node one of whose
   * dependencies or subnodes changed holds its recomputed state, and every other node keeps its
   * state.
   */
  ghost predicate Propagated(nodes: map<NodeId, Node>, olds: map<NodeId, State>, news: map<NodeId, State>,
                             x: NodeId, s: State, snap: Snapshot) {
    && news.Keys == olds.Keys && x in news && news[x] == s
    && (forall m :: m in news ==> m in nodes && Preds(nodes[m]) <= news.Keys)
    && (forall m {:trigger Settled(nodes, olds, news, snap, m)} :: m in news && m != x ==>
          Settled(nodes, olds, news, snap, m))
  }

  /**
   * `m` holds its recomputed state if one of its dependencies or subnodes changed between `olds`
   * and `news`, and its old state otherwise.
   */
  ghost predicate Settled(nodes: map<NodeId, Node>, olds: map<NodeId, State>, news: map<NodeId, State>,
                          snap: Snapshot, m: NodeId) {
    && m in nodes && m in olds && m in news && Preds(nodes[m]) <= news.Keys
    && news[m] == (if ChangedPred(nodes, m, olds, news) then Eval(nodes, m, news, snap) else olds[m])
  }

  lemma {:induction false} PropagatedAgree(nodes: map<NodeId, Node>, olds: map<NodeId, State>,
                                           n1: map<NodeId, State>, n2: map<NodeId, State>,
                                           x: NodeId, s: State, snap: Snapshot, m: NodeId)
    requires Closed(nodes)
    requires Propagated(nodes, olds, n1, x, s, snap) && Propagated(nodes, olds, n2, x, s, snap)
    requires m in olds
    ensures n1[m] == n2[m]
    decreases m
  {
    if m != x {
      forall p | p in Preds(nodes[m]) ensures n1[p] == n2[p] {
        PropagatedAgree(nodes, olds, n1, n2, x, s, snap, p);
      }
      assert Settled(nodes, olds, n1, snap, m) && Settled(nodes, olds, n2, snap, m);
      assert ChangedPred(nodes, m, olds, n1) == ChangedPred(nodes, m, olds, n2);
      EvalLocal(nodes, m, n1, n2, snap);
    }
  }

  /**
   * The states after a change are determined by the states before it: the order in which the
   * dependents are visited makes no difference.
   */
  lemma PropagatedUnique(nodes: map<NodeId, Node>, olds: map<NodeId, State>, n1: map<NodeId, State>,
                         n2: map<NodeId, State>, x: NodeId, s: State, snap: Snapshot)
    requires Closed(nodes)
    requires Propagated(nodes, olds, n1, x, s, snap) && Propagated(nodes, olds, n2, x, s, snap)
    ensures n1 == n2
  {
    forall m | m in olds ensures n1[m] == n2[m] {
      PropagatedAgree(nodes, olds, n1, n2, x, s, snap, m);
    }
  }

  /**
   * A change keeps the graph consistent: every node that was computed before, other than the
   * node whose state was set, still holds its computed state.
   */
  lemma ConsistentAfterSet(nodes: map<NodeId, Node>, olds: map<NodeId, State>, news: map<NodeId, State>,
                           pinned: set<NodeId>, x: NodeId, s: State, snap: Snapshot)
    requires Propagated(nodes, olds, news, x, s, snap)
    requires Consistent(nodes, olds, pinned, snap)
    ensures Consistent(nodes, news, pinned + {x}, snap)
  {
    forall m | m in news && m !in pinned + {x}
      ensures m in nodes && Preds(nodes[m]) <= news.Keys && news[m] == Eval(nodes, m, news, snap)
    {
      assert Settled(nodes, olds, news, snap, m);
      if !ChangedPred(nodes, m, olds, news) {
        EvalLocal(nodes, m, olds, news, snap);
      }
    }
  }

  /** Setting a state equal to the current one changes nothing. */
  lemma PropagatedSame(nodes: map<NodeId, Node>, olds: map<NodeId, State>, x: NodeId, snap: Snapshot)
    requires x in olds
    requires forall m :: m in olds ==> m in nodes && Preds(nodes[m]) <= olds.Keys
    ensures Propagated(nodes, olds, olds, x, olds[x], snap)
  {
  }

  /**
   * The worklist of `set_node_state` for a change to `x`: `counts` (its copy of the intersection
   * counts) and `requiresUpdate` share the pending nodes, all of them nodes of the graph other
   * than `x`; each count is the number of the node's dependencies and subnodes still pending, and
   * every node listing a pending node is pending.
   */
  ghost predicate Worklist(nodes: map<NodeId, Node>, universe: set<NodeId>, x: NodeId,
                           counts: map<NodeId, nat>, requiresUpdate: map<NodeId, bool>) {
    && requiresUpdate.Keys == counts.Keys
    && counts.Keys <= universe <= nodes.Keys && x !in counts
    && (forall m :: m in counts ==> counts[m] == |Preds(nodes[m]) * counts.Keys|)
    && (forall n, m :: n in counts && m in universe && n in Preds(nodes[m]) ==> m in counts)
  }

  /**
   * What the worklist knows about the states: pending nodes keep their old state and need an
   * update exactly when a dependency or subnode changed; every other node but `x` is settled.
   */
  ghost predicate Tracked(nodes: map<NodeId, Node>, olds: map<NodeId, State>, states: map<NodeId, State>,
                          requiresUpdate: map<NodeId, bool>, x: NodeId, s: State, snap: Snapshot) {
    && states.Keys == olds.Keys && x in states && states[x] == s
    && requiresUpdate.Keys <= states.Keys && requiresUpdate.Keys <= nodes.Keys
    && (forall m :: m in requiresUpdate ==> states[m] == olds[m])
    && (forall m :: m in requiresUpdate ==> requiresUpdate[m] == ChangedPred(nodes, m, olds, states))
    && (forall m {:trigger Settled(nodes, olds, states, snap, m)} :: m in states && m !in requiresUpdate && m != x ==>
          Settled(nodes, olds, states, snap, m))
  }

  /** Every stored node is in the table and lists only stored nodes. */
  ghost predicate ClosedMap(nodes: map<NodeId, Node>, states: map<NodeId, State>) {
    forall m :: m in states ==> m in nodes && Preds(nodes[m]) <= states.Keys
  }

  /** The worklist `set_node_state` starts from: every dependent of `x` is pending. */
  lemma WorklistInit(nodes: map<NodeId, Node>, universe: set<NodeId>, x: NodeId,
                     counts: map<NodeId, nat>, requiresUpdate: map<NodeId, bool>)
    requires Closed(nodes) && universe <= nodes.Keys && x in universe
    requires counts == Counts(nodes, universe, x)
    requires requiresUpdate.Keys == counts.Keys
    ensures forall m :: m in universe && x in Preds(nodes[m]) ==> m in counts
    ensures Worklist(nodes, universe, x, counts, requiresUpdate)
  {
    forall n, m | n in counts && m in universe && n in Preds(nodes[m]) ensures m in counts {
      DependentsUpward(nodes, universe, x, n, m);
    }
    WorklistIntro(nodes, universe, x, counts, requiresUpdate);
  }

  /** Right after `x` changed, a node has a changed dependency or subnode exactly when it lists `x`. */
  lemma ChangedPredInit(nodes: map<NodeId, Node>, olds: map<NodeId, State>, x: NodeId, s: State, m: NodeId)
    requires x in olds && s != olds[x] && m in nodes
    ensures ChangedPred(nodes, m, olds, olds[x := s]) <==> x in Preds(nodes[m])
  {
    if x in Preds(nodes[m]) {
      assert olds[x := s][x] != olds[x];
    }
  }

  /** What the worklist knows at the start: the direct dependents of `x` are flagged. */
  lemma TrackedInit(nodes: map<NodeId, Node>, rev: map<NodeId, set<NodeId>>, olds: map<NodeId, State>,
                    requiresUpdate: map<NodeId, bool>, x: NodeId, s: State, snap: Snapshot)
    requires Closed(nodes) && RevExact(nodes, rev) && olds.Keys == rev.Keys
    requires forall m :: m in rev ==> Preds(nodes[m]) <= rev.Keys
    requires x in rev && s != olds[x] && x !in requiresUpdate && requiresUpdate.Keys <= rev.Keys
    requires forall m :: m in rev && x in Preds(nodes[m]) ==> m in requiresUpdate
    requires forall m :: m in requiresUpdate ==> requiresUpdate[m] == (m in rev[x])
    ensures Tracked(nodes, olds, olds[x := s], requiresUpdate, x, s, snap)
  {
    var states := olds[x := s];
    assert states.Keys == olds.Keys;
    forall m | m in requiresUpdate ensures states[m] == olds[m] && requiresUpdate[m] == ChangedPred(nodes, m, olds, states) {
      InitOne(nodes, rev, olds, requiresUpdate, x, s, snap, m);
    }
    forall m | m in states && m !in requiresUpdate && m != x ensures Settled(nodes, olds, states, snap, m) {
      InitOne(nodes, rev, olds, requiresUpdate, x, s, snap, m);
    }
    TrackedIntro(nodes, olds, states, requiresUpdate, x, s, snap);
  }

  lemma InitOne(nodes: map<NodeId, Node>, rev: map<NodeId, set<NodeId>>, olds: map<NodeId, State>,
                requiresUpdate: map<NodeId, bool>, x: NodeId, s: State, snap: Snapshot, m: NodeId)
    requires Closed(nodes) && RevExact(nodes, rev) && olds.Keys == rev.Keys
    requires forall m :: m in rev ==> Preds(nodes[m]) <= rev.Keys
    requires x in rev && s != olds[x] && x !in requiresUpdate && requiresUpdate.Keys <= rev.Keys
    requires forall m :: m in rev && x in Preds(nodes[m]) ==> m in requiresUpdate
    requires forall m :: m in requiresUpdate ==> requiresUpdate[m] == (m in rev[x])
    requires m in olds && m != x
    ensures m in requiresUpdate ==>
      olds[x := s][m] == olds[m] && requiresUpdate[m] == ChangedPred(nodes, m, olds, olds[x := s])
    ensures m !in requiresUpdate ==> Settled(nodes, olds, olds[x := s], snap, m)
  {
    ChangedPredInit(nodes, olds, x, s, m);
  }

  /** The smallest handle of a non-empty set. */
  lemma {:induction false} LeastExists(p: set<NodeId>) returns (least: NodeId)
    requires p != {}
    ensures least in p && forall k :: k in p ==> least <= k
    decreases |p|
  {
    var y :| y in p;
    if p - {y} == {} {
      least := y;
      assert forall k :: k in p ==> k == y || k in p - {y};
    } else {
      var rest := LeastExists(p - {y});
      least := if y < rest then y else rest;
      forall k | k in p ensures least <= k {
        if k != y {
          assert k in p - {y};
        }
      }
    }
  }

  /** A non-empty worklist has a node none of whose dependencies and subnodes is pending. */
  lemma WorklistReady(nodes: map<NodeId, Node>, universe: set<NodeId>, x: NodeId,
                      counts: map<NodeId, nat>, requiresUpdate: map<NodeId, bool>) returns (n: NodeId)
    requires Closed(nodes) && Worklist(nodes, universe, x, counts, requiresUpdate)
    requires true in requiresUpdate.Values
    ensures n in counts && counts[n] == 0
  {
    var k :| k in requiresUpdate && requiresUpdate[k];
    n := LeastExists(counts.Keys);
    assert Preds(nodes[n]) * counts.Keys == {};
  }

  /** Removing a non-empty subset makes a set strictly smaller. */
  lemma CardSplit(a: set<NodeId>, b: set<NodeId>)
    requires b <= a
    ensures |a| == |a - b| + |b|
  {
    assert a == (a - b) + b;
  }

  /** Counts that drop by one for the members of `ds`, with `n` removed. */
  function Decrement(counts: map<NodeId, nat>, ds: set<NodeId>, n: NodeId): (r: map<NodeId, nat>)
    requires forall m :: m in counts && m in ds ==> counts[m] >= 1
    ensures r.Keys == counts.Keys - {n}
  {
    map m | m in counts && m != n :: if m in ds then counts[m] - 1 else counts[m]
  }

  /** Flags raised for the members of `ds` when `changed`, with `n` removed. */
  function Flag(requiresUpdate: map<NodeId, bool>, ds: set<NodeId>, n: NodeId, changed: bool): (r: map<NodeId, bool>)
    ensures r.Keys == requiresUpdate.Keys - {n}
  {
    map m | m in requiresUpdate && m != n :: requiresUpdate[m] || (m in ds && changed)
  }

  /** Dropping `n` from the pending set drops the count of the nodes that list it. */
  lemma CardRemove(a: set<NodeId>, p: set<NodeId>, n: NodeId)
    requires n in p
    ensures |a * (p - {n})| == if n in a then |a * p| - 1 else |a * p|
  {
    if n in a {
      assert a * p == (a * (p - {n})) + {n};
    } else {
      assert a * p == a * (p - {n});
    }
  }

  /** Releasing a node with no pending dependency or subnode keeps the worklist's shape. */
  lemma WorklistStep(nodes: map<NodeId, Node>, rev: map<NodeId, set<NodeId>>, x: NodeId,
                     counts: map<NodeId, nat>, requiresUpdate: map<NodeId, bool>, n: NodeId, changed: bool)
    requires Closed(nodes) && RevExact(nodes, rev)
    requires Worklist(nodes, rev.Keys, x, counts, requiresUpdate) && n in counts && counts[n] == 0
    ensures rev[n] <= counts.Keys
    ensures forall m :: m in counts && m in rev[n] ==> counts[m] >= 1
    ensures Worklist(nodes, rev.Keys, x, Decrement(counts, rev[n], n), Flag(requiresUpdate, rev[n], n, changed))
  {
    var p := counts.Keys;
    assert Preds(nodes[n]) * p == {};
    forall m | m in counts && m in rev[n] ensures counts[m] >= 1 {
      assert n in Preds(nodes[m]) * p;
    }
    var counts' := Decrement(counts, rev[n], n);
    assert counts'.Keys == p - {n};
    forall m | m in counts' ensures counts'[m] == |Preds(nodes[m]) * counts'.Keys| {
      CardRemove(Preds(nodes[m]), p, n);
    }
    forall k, m | k in counts' && m in rev.Keys && k in Preds(nodes[m]) ensures m in counts' {
      assert m != n;
    }
    WorklistIntro(nodes, rev.Keys, x, counts', Flag(requiresUpdate, rev[n], n, changed));
  }

  lemma WorklistIntro(nodes: map<NodeId, Node>, universe: set<NodeId>, x: NodeId,
                      counts: map<NodeId, nat>, requiresUpdate: map<NodeId, bool>)
    requires requiresUpdate.Keys == counts.Keys
    requires counts.Keys <= universe <= nodes.Keys && x !in counts
    requires forall m :: m in counts ==> counts[m] == |Preds(nodes[m]) * counts.Keys|
    requires forall n, m :: n in counts && m in universe && n in Preds(nodes[m]) ==> m in counts
    ensures Worklist(nodes, universe, x, counts, requiresUpdate)
  {
  }

  /** Changing the state of one node `n` that still held its old state changes `ChangedPred` only for the nodes listing `n`. */
  lemma ChangedPredUpdate(nodes: map<NodeId, Node>, olds: map<NodeId, State>, states: map<NodeId, State>,
                          n: NodeId, v: State, m: NodeId)
    requires n in states && n in olds && states[n] == olds[n] && m in nodes
    ensures ChangedPred(nodes, m, olds, states[n := v]) <==>
      ChangedPred(nodes, m, olds, states) || (n in Preds(nodes[m]) && v != olds[n])
  {
    var states' := states[n := v];
    if ChangedPred(nodes, m, olds, states') && !ChangedPred(nodes, m, olds, states) {
      var q :| q in Preds(nodes[m]) && q in olds && q in states' && states'[q] != olds[q];
      assert q == n;
    }
    if ChangedPred(nodes, m, olds, states) {
      var q :| q in Preds(nodes[m]) && q in olds && q in states && states[q] != olds[q];
      assert q != n && states'[q] != olds[q];
    }
    if n in Preds(nodes[m]) && v != olds[n] {
      assert states'[n] != olds[n];
    }
  }

  /** The released node is settled once it holds its recomputed state, or keeps its state when nothing it lists changed. */
  lemma SettledReleased(nodes: map<NodeId, Node>, olds: map<NodeId, State>, states: map<NodeId, State>,
                        n: NodeId, update: bool, snap: Snapshot)
    requires Closed(nodes) && n in nodes && n in olds && n in states && states[n] == olds[n]
    requires Preds(nodes[n]) <= states.Keys && states.Keys == olds.Keys
    requires update == ChangedPred(nodes, n, olds, states)
    ensures var states' := states[n := if update then Eval(nodes, n, states, snap) else states[n]];
            Settled(nodes, olds, states', snap, n)
  {
    var states' := states[n := if update then Eval(nodes, n, states, snap) else states[n]];
    ChangedPredUpdate(nodes, olds, states, n, states'[n], n);
    EvalLocal(nodes, n, states, states', snap);
  }

  /** A settled node that does not list `n` stays settled when the state of `n` changes. */
  lemma SettledKept(nodes: map<NodeId, Node>, olds: map<NodeId, State>, states: map<NodeId, State>,
                    n: NodeId, v: State, m: NodeId, snap: Snapshot)
    requires n in states && n in olds && states[n] == olds[n] && m != n
    requires Settled(nodes, olds, states, snap, m) && n !in Preds(nodes[m])
    ensures Settled(nodes, olds, states[n := v], snap, m)
  {
    ChangedPredUpdate(nodes, olds, states, n, v, m);
    EvalLocal(nodes, m, states, states[n := v], snap);
  }

  /** Re-evaluating (or keeping) the released node keeps what the worklist knows about the states. */
  /** After `n` is released, every node still pending keeps its old state and its flag. */
  lemma TrackedFlags(nodes: map<NodeId, Node>, rev: map<NodeId, set<NodeId>>, olds: map<NodeId, State>,
                     states: map<NodeId, State>, requiresUpdate: map<NodeId, bool>,
                     x: NodeId, s: State, snap: Snapshot, n: NodeId, v: State)
    requires RevExact(nodes, rev) && states.Keys == rev.Keys
    requires Tracked(nodes, olds, states, requiresUpdate, x, s, snap) && n in requiresUpdate
    ensures states[n := v].Keys == olds.Keys
    ensures var flags := Flag(requiresUpdate, rev[n], n, v != olds[n]);
            && flags.Keys <= states[n := v].Keys && flags.Keys <= nodes.Keys
            && (forall m :: m in flags ==> states[n := v][m] == olds[m])
            && (forall m :: m in flags ==> flags[m] == ChangedPred(nodes, m, olds, states[n := v]))
  {
    var flags := Flag(requiresUpdate, rev[n], n, v != olds[n]);
    forall m | m in flags
      ensures states[n := v][m] == olds[m] && flags[m] == ChangedPred(nodes, m, olds, states[n := v])
    {
      ChangedPredUpdate(nodes, olds, states, n, v, m);
    }
  }

  /** After `n` is released, every node that is no longer pending holds its settled state. */
  lemma TrackedSettle(nodes: map<NodeId, Node>, rev: map<NodeId, set<NodeId>>, olds: map<NodeId, State>,
                      states: map<NodeId, State>, counts: map<NodeId, nat>, requiresUpdate: map<NodeId, bool>,
                      x: NodeId, s: State, snap: Snapshot, n: NodeId, v: State)
    requires Closed(nodes) && RevExact(nodes, rev) && states.Keys == rev.Keys && ClosedMap(nodes, states)
    requires Worklist(nodes, rev.Keys, x, counts, requiresUpdate) && n in counts
    requires Tracked(nodes, olds, states, requiresUpdate, x, s, snap)
    requires v == if requiresUpdate[n] then Eval(nodes, n, states, snap) else states[n]
    ensures var flags := Flag(requiresUpdate, rev[n], n, v != olds[n]);
            forall m {:trigger Settled(nodes, olds, states[n := v], snap, m)} ::
              m in states[n := v] && m !in flags && m != x ==> Settled(nodes, olds, states[n := v], snap, m)
  {
    var flags := Flag(requiresUpdate, rev[n], n, v != olds[n]);
    forall m | m in states[n := v] && m !in flags && m != x ensures Settled(nodes, olds, states[n := v], snap, m) {
      SettleOne(nodes, rev, olds, states, counts, requiresUpdate, x, s, snap, n, v, m);
    }
  }

  lemma SettleOne(nodes: map<NodeId, Node>, rev: map<NodeId, set<NodeId>>, olds: map<NodeId, State>,
                  states: map<NodeId, State>, counts: map<NodeId, nat>, requiresUpdate: map<NodeId, bool>,
                  x: NodeId, s: State, snap: Snapshot, n: NodeId, v: State, m: NodeId)
    requires Closed(nodes) && RevExact(nodes, rev) && states.Keys == rev.Keys && ClosedMap(nodes, states)
    requires Worklist(nodes, rev.Keys, x, counts, requiresUpdate) && n in counts
    requires Tracked(nodes, olds, states, requiresUpdate, x, s, snap)
    requires v == if requiresUpdate[n] then Eval(nodes, n, states, snap) else states[n]
    requires m in states[n := v] && m !in Flag(requiresUpdate, rev[n], n, v != olds[n]) && m != x
    ensures Settled(nodes, olds, states[n := v], snap, m)
  {
    if m == n {
      SettledReleased(nodes, olds, states, n, requiresUpdate[n], snap);
    } else {
      assert n !in Preds(nodes[m]);
      assert Settled(nodes, olds, states, snap, m);
      SettledKept(nodes, olds, states, n, v, m, snap);
    }
  }

  lemma TrackedIntro(nodes: map<NodeId, Node>, olds: map<NodeId, State>, states: map<NodeId, State>,
                     requiresUpdate: map<NodeId, bool>, x: NodeId, s: State, snap: Snapshot)
    requires states.Keys == olds.Keys && x in states && states[x] == s
    requires requiresUpdate.Keys <= states.Keys && requiresUpdate.Keys <= nodes.Keys
    requires forall m :: m in requiresUpdate ==> states[m] == olds[m]
    requires forall m :: m in requiresUpdate ==> requiresUpdate[m] == ChangedPred(nodes, m, olds, states)
    requires forall m {:trigger Settled(nodes, olds, states, snap, m)} :: m in states && m !in requiresUpdate && m != x ==>
               Settled(nodes, olds, states, snap, m)
    ensures Tracked(nodes, olds, states, requiresUpdate, x, s, snap)
  {
  }

  lemma TrackedStep(nodes: map<NodeId, Node>, rev: map<NodeId, set<NodeId>>, olds: map<NodeId, State>,
                    states: map<NodeId, State>, counts: map<NodeId, nat>, requiresUpdate: map<NodeId, bool>,
                    x: NodeId, s: State, snap: Snapshot, n: NodeId, v: State)
    requires Closed(nodes) && RevExact(nodes, rev) && states.Keys == rev.Keys && ClosedMap(nodes, states)
    requires Worklist(nodes, rev.Keys, x, counts, requiresUpdate) && n in counts
    requires Tracked(nodes, olds, states, requiresUpdate, x, s, snap)
    requires v == if requiresUpdate[n] then Eval(nodes, n, states, snap) else states[n]
    ensures Tracked(nodes, olds, states[n := v], Flag(requiresUpdate, rev[n], n, v != olds[n]), x, s, snap)
  {
    var flags := Flag(requiresUpdate, rev[n], n, v != olds[n]);
    TrackedFlags(nodes, rev, olds, states, requiresUpdate, x, s, snap, n, v);
    TrackedSettle(nodes, rev, olds, states, counts, requiresUpdate, x, s, snap, n, v);
    TrackedIntro(nodes, olds, states[n := v], flags, x, s, snap);
  }

  /** Once no pending node needs an update, the states are those after the change. */
  lemma TrackedDone(nodes: map<NodeId, Node>, olds: map<NodeId, State>, states: map<NodeId, State>,
                    requiresUpdate: map<NodeId, bool>, x: NodeId, s: State, snap: Snapshot)
    requires Tracked(nodes, olds, states, requiresUpdate, x, s, snap) && ClosedMap(nodes, states)
    requires true !in requiresUpdate.Values
    ensures Propagated(nodes, olds, states, x, s, snap)
  {
    forall m | m in requiresUpdate ensures !requiresUpdate[m] {
      assert requiresUpdate[m] in requiresUpdate.Values;
    }
  }

  /** A node never lists itself, so it is not among its own reverse dependencies. */
  lemma NotOwnDependent(nodes: map<NodeId, Node>, rev: map<NodeId, set<NodeId>>, n: NodeId)
    requires Closed(nodes) && RevExact(nodes, rev) && n in rev
    ensures n !in rev[n]
  {
  }

  /**
   * One release of a ready node `n` (one pass of the body of the `for` loop of `set_node_state`):
   * the worklist keeps its shape, the states stay tracked, and the other ready nodes stay ready.
   */
  lemma ReleaseStep(nodes: map<NodeId, Node>, rev: map<NodeId, set<NodeId>>, olds: map<NodeId, State>,
                    states: map<NodeId, State>, counts: map<NodeId, nat>, requiresUpdate: map<NodeId, bool>,
                    x: NodeId, s: State, snap: Snapshot, n: NodeId, v: State, ready: set<NodeId>)
    requires Closed(nodes) && RevExact(nodes, rev) && states.Keys == rev.Keys && ClosedMap(nodes, states)
    requires Worklist(nodes, rev.Keys, x, counts, requiresUpdate)
    requires n in ready && ready <= counts.Keys && forall r :: r in ready ==> counts[r] == 0
    requires Tracked(nodes, olds, states, requiresUpdate, x, s, snap)
    requires v == if requiresUpdate[n] then Eval(nodes, n, states, snap) else states[n]
    ensures n !in rev[n] && rev[n] <= counts.Keys && forall m :: m in rev[n] ==> counts[m] >= 1
    ensures var counts' := Decrement(counts, rev[n], n);
            && Worklist(nodes, rev.Keys, x, counts', Flag(requiresUpdate, rev[n], n, v != olds[n]))
            && ready - {n} <= counts'.Keys && forall r :: r in ready - {n} ==> counts'[r] == 0
    ensures Tracked(nodes, olds, states[n := v], Flag(requiresUpdate, rev[n], n, v != olds[n]), x, s, snap)
  {
    NotOwnDependent(nodes, rev, n);
    WorklistStep(nodes, rev, x, counts, requiresUpdate, n, v != olds[n]);
    TrackedStep(nodes, rev, olds, states, counts, requiresUpdate, x, s, snap, n, v);
  }

  /** Storing a state for a node already present keeps the keys, and releasing it shrinks the worklist by one. */
  lemma ReleaseShape(nodes: map<NodeId, Node>, rev: map<NodeId, set<NodeId>>, states: map<NodeId, State>,
                     counts: map<NodeId, nat>, n: NodeId, v: State)
    requires states.Keys == rev.Keys && ClosedMap(nodes, states) && n in states && n in counts
    requires n in rev && forall m :: m in counts && m in rev[n] ==> counts[m] >= 1
    ensures states[n := v].Keys == rev.Keys && ClosedMap(nodes, states[n := v])
    ensures |Decrement(counts, rev[n], n).Keys| == |counts.Keys| - 1
  {
    assert states[n := v].Keys == states.Keys;
  }

  /**
   * `requires_update` as `set_node_state` builds it: every key of the intersection counts mapped
   * to false, then every node of `ds` (the nodes listing the changed node) mapped to true.
   */
  method InitialFlags(counts: map<NodeId, nat>, ds: set<NodeId>) returns (flags: map<NodeId, bool>)
    ensures flags.Keys == counts.Keys + ds
    ensures forall m :: m in flags ==> flags[m] == (m in ds)
  {
    flags := map[];
    var keys := counts.Keys;
    while keys != {}
      invariant keys <= counts.Keys
      invariant forall m :: m in flags <==> m in counts && m !in keys
      invariant forall m :: m in flags ==> !flags[m]
      decreases |keys|
    {
      var k :| k in keys;
      flags := flags[k := false];
      keys := keys - {k};
    }
    var todo := ds;
    while todo != {}
      invariant todo <= ds
      invariant forall m :: m in flags <==> m in counts || (m in ds && m !in todo)
      invariant forall m :: m in flags ==> flags[m] == (m in ds && m !in todo)
      decreases |todo|
    {
      var d :| d in todo;
      flags := flags[d := true];
      todo := todo - {d};
    }
  }

  /**
   * The `for dependency in self._reverse_dependencies[node]` loop of `set_node_state` and the two
   * `pop`s after it: every dependent of `n` has one pending dependency or subnode fewer and is
   * flagged when `n` changed, and `n` leaves the worklist.
   */
  method Release(counts: map<NodeId, nat>, requiresUpdate: map<NodeId, bool>, ds: set<NodeId>, n: NodeId,
                 changed: bool) returns (counts': map<NodeId, nat>, flags: map<NodeId, bool>)
    requires requiresUpdate.Keys == counts.Keys && ds <= counts.Keys && n in counts && n !in ds
    requires forall m :: m in ds ==> counts[m] >= 1
    ensures counts' == Decrement(counts, ds, n)
    ensures flags == Flag(requiresUpdate, ds, n, changed)
  {
    counts', flags := counts, requiresUpdate;
    var todo := ds;
    while todo != {}
      invariant todo <= ds
      invariant counts'.Keys == counts.Keys && flags.Keys == counts.Keys
      invariant forall m :: m in counts ==> counts'[m] == if m in ds - todo then counts[m] - 1 else counts[m]
      invariant forall m :: m in counts ==> flags[m] == (requiresUpdate[m] || (m in ds - todo && changed))
      decreases |todo|
    {
      var d :| d in todo;
      counts' := counts'[d := counts'[d] - 1];
      flags := flags[d := flags[d] || changed];
      todo := todo - {d};
    }
    counts' := counts' - {n};
    flags := flags - {n};
  }

  /** The state of the worklist between two visits of `set_node_state`, in the open. */
  ghost predicate Loop(nodes: map<NodeId, Node>, rev: map<NodeId, set<NodeId>>, olds: map<NodeId, State>,
                       states: map<NodeId, State>, counts: map<NodeId, nat>, requiresUpdate: map<NodeId, bool>,
                       x: NodeId, s: State, snap: Snapshot) {
    && states.Keys == rev.Keys && ClosedMap(nodes, states)
    && Worklist(nodes, rev.Keys, x, counts, requiresUpdate)
    && Tracked(nodes, olds, states, requiresUpdate, x, s, snap)
  }

  /** A term mentioned only by `Unseal`: it lets `Progress` keep `Loop` out of sight of the methods. */
  ghost predicate Sealed(k: nat) {
    true
  }

  /**
   * The loop invariant of `set_node_state`: `Loop`, kept behind `Sealed` so that the methods see
   * it as a whole and the lemmas below open it.
   */
  ghost predicate Progress(nodes: map<NodeId, Node>, rev: map<NodeId, set<NodeId>>, olds: map<NodeId, State>,
                           states: map<NodeId, State>, counts: map<NodeId, nat>, requiresUpdate: map<NodeId, bool>,
                           x: NodeId, s: State, snap: Snapshot) {
    forall k {:trigger Sealed(k)} :: Sealed(k) ==> Loop(nodes, rev, olds, states, counts, requiresUpdate, x, s, snap)
  }

  lemma Unseal(nodes: map<NodeId, Node>, rev: map<NodeId, set<NodeId>>, olds: map<NodeId, State>,
               states: map<NodeId, State>, counts: map<NodeId, nat>, requiresUpdate: map<NodeId, bool>,
               x: NodeId, s: State, snap: Snapshot)
    requires Progress(nodes, rev, olds, states, counts, requiresUpdate, x, s, snap)
    ensures Loop(nodes, rev, olds, states, counts, requiresUpdate, x, s, snap)
  {
    assert Sealed(0);
  }

  /** The worklist and the states right after `x` took its new state. */
  lemma StartWorklist(nodes: map<NodeId, Node>, rev: map<NodeId, set<NodeId>>, olds: map<NodeId, State>,
                      counts: map<NodeId, nat>, requiresUpdate: map<NodeId, bool>, x: NodeId, s: State,
                      snap: Snapshot)
    requires Closed(nodes) && RevExact(nodes, rev) && olds.Keys == rev.Keys
    requires forall m :: m in rev ==> Preds(nodes[m]) <= rev.Keys
    requires x in rev && s != olds[x]
    requires counts == Intersections(nodes, rev.Keys)[x]
    requires requiresUpdate.Keys == counts.Keys + rev[x]
    requires forall m :: m in requiresUpdate ==> requiresUpdate[m] == (m in rev[x])
    ensures Progress(nodes, rev, olds, olds[x := s], counts, requiresUpdate, x, s, snap)
  {
    var counts' := Counts(nodes, rev.Keys, x);
    assert counts == counts';
    DirectDependents(nodes, rev, x, counts);
    StartLoop(nodes, rev, olds, counts, requiresUpdate, x, s, snap);
  }

  /** The nodes listing `x` are dependents of `x`. */
  lemma DirectDependents(nodes: map<NodeId, Node>, rev: map<NodeId, set<NodeId>>, x: NodeId, counts: map<NodeId, nat>)
    requires Closed(nodes) && RevExact(nodes, rev) && x in rev
    requires counts == Counts(nodes, rev.Keys, x)
    ensures rev[x] <= counts.Keys
  {
    forall m | m in rev[x] ensures m in counts {
      assert m in rev && x in Desc(nodes, m);
    }
  }

  lemma StartLoop(nodes: map<NodeId, Node>, rev: map<NodeId, set<NodeId>>, olds: map<NodeId, State>,
                  counts: map<NodeId, nat>, requiresUpdate: map<NodeId, bool>, x: NodeId, s: State,
                  snap: Snapshot)
    requires Closed(nodes) && RevExact(nodes, rev) && olds.Keys == rev.Keys
    requires forall m :: m in rev ==> Preds(nodes[m]) <= rev.Keys
    requires x in rev && s != olds[x]
    requires counts == Counts(nodes, rev.Keys, x) && rev[x] <= counts.Keys
    requires requiresUpdate.Keys == counts.Keys + rev[x]
    requires forall m :: m in requiresUpdate ==> requiresUpdate[m] == (m in rev[x])
    ensures Progress(nodes, rev, olds, olds[x := s], counts, requiresUpdate, x, s, snap)
  {
    assert requiresUpdate.Keys == counts.Keys;
    WorklistInit(nodes, rev.Keys, x, counts, requiresUpdate);
    TrackedInit(nodes, rev, olds, requiresUpdate, x, s, snap);
    assert olds[x := s].Keys == olds.Keys;
    assert Loop(nodes, rev, olds, olds[x := s], counts, requiresUpdate, x, s, snap);
  }

  /** The node about to be visited is pending and still holds its old state. */
  lemma VisitOpen(nodes: map<NodeId, Node>, rev: map<NodeId, set<NodeId>>, olds: map<NodeId, State>,
                  states: map<NodeId, State>, counts: map<NodeId, nat>, requiresUpdate: map<NodeId, bool>,
                  x: NodeId, s: State, snap: Snapshot, n: NodeId)
    requires Closed(nodes) && Progress(nodes, rev, olds, states, counts, requiresUpdate, x, s, snap) && n in counts
    ensures n in requiresUpdate && n in rev && n in nodes && n in olds && states.Keys == rev.Keys
    ensures states[n] == olds[n] && Preds(nodes[n]) <= (states - {n}).Keys && Preds(nodes[n]) <= states.Keys
    ensures (states - {n})[n := Eval(nodes, n, states - {n}, snap)] == states[n := Eval(nodes, n, states, snap)]
  {
    Unseal(nodes, rev, olds, states, counts, requiresUpdate, x, s, snap);
    PopRecompute(nodes, states, n, snap);
  }

  /** Visiting a ready node keeps the invariant, keeps the other ready nodes ready and shrinks the worklist. */
  lemma VisitStep(nodes: map<NodeId, Node>, rev: map<NodeId, set<NodeId>>, olds: map<NodeId, State>,
                  states: map<NodeId, State>, counts: map<NodeId, nat>, requiresUpdate: map<NodeId, bool>,
                  x: NodeId, s: State, snap: Snapshot, n: NodeId, v: State, ready: set<NodeId>)
    requires Closed(nodes) && RevExact(nodes, rev)
    requires Progress(nodes, rev, olds, states, counts, requiresUpdate, x, s, snap)
    requires n in ready && ready <= counts.Keys && forall r :: r in ready ==> counts[r] == 0
    requires n in requiresUpdate && n in states && n in olds && n in nodes && Preds(nodes[n]) <= states.Keys
    requires v == if requiresUpdate[n] then Eval(nodes, n, states, snap) else states[n]
    ensures requiresUpdate.Keys == counts.Keys && n in rev && n !in rev[n] && rev[n] <= counts.Keys
    ensures forall m :: m in rev[n] ==> counts[m] >= 1
    ensures var counts' := Decrement(counts, rev[n], n);
            && Progress(nodes, rev, olds, states[n := v], counts', Flag(requiresUpdate, rev[n], n, v != olds[n]), x, s, snap)
            && ready - {n} <= counts'.Keys && (forall r :: r in ready - {n} ==> counts'[r] == 0)
            && |counts'.Keys| == |counts.Keys| - 1
  {
    Unseal(nodes, rev, olds, states, counts, requiresUpdate, x, s, snap);
    ReleaseStep(nodes, rev, olds, states, counts, requiresUpdate, x, s, snap, n, v, ready);
    ReleaseShape(nodes, rev, states, counts, n, v);
  }

  /** A worklist with a flagged node has a node whose count is zero. */
  lemma ReadyExists(nodes: map<NodeId, Node>, rev: map<NodeId, set<NodeId>>, olds: map<NodeId, State>,
                    states: map<NodeId, State>, counts: map<NodeId, nat>, requiresUpdate: map<NodeId, bool>,
                    x: NodeId, s: State, snap: Snapshot, ready: set<NodeId>)
    requires Closed(nodes) && Progress(nodes, rev, olds, states, counts, requiresUpdate, x, s, snap)
    requires true in requiresUpdate.Values
    requires ready == set n | n in counts && counts[n] == 0
    ensures ready != {} && ready <= counts.Keys
  {
    Unseal(nodes, rev, olds, states, counts, requiresUpdate, x, s, snap);
    var first := WorklistReady(nodes, rev.Keys, x, counts, requiresUpdate);
    assert first in ready;
  }

  /** Once no pending node is flagged, the states are those after the change. */
  lemma Finish(nodes: map<NodeId, Node>, rev: map<NodeId, set<NodeId>>, olds: map<NodeId, State>,
               states: map<NodeId, State>, counts: map<NodeId, nat>, requiresUpdate: map<NodeId, bool>,
               x: NodeId, s: State, snap: Snapshot)
    requires Progress(nodes, rev, olds, states, counts, requiresUpdate, x, s, snap)
    requires true !in requiresUpdate.Values
    ensures Propagated(nodes, olds, states, x, s, snap)
  {
    Unseal(nodes, rev, olds, states, counts, requiresUpdate, x, s, snap);
    TrackedDone(nodes, olds, states, requiresUpdate, x, s, snap);
  }

  // ---------------------------------------------------------------------------
  // The graph object

  /** `NodeGraph`: the node table, its reverse dependencies and the current state of every node. */
  class Graph {
    const nodes: map<NodeId, Node>
    /** `_reverse_dependencies`: every node of the graph, mapped to the nodes that list it. */
    const rev: map<NodeId, set<NodeId>>
    const intersections: map<NodeId, map<NodeId, nat>>
    const topNodes: set<NodeId>
    /** `_states` */
    var states: map<NodeId, State>

    /** The node table is acyclic and the graph's nodes list only nodes of the graph. */
    ghost predicate Shaped() {
      && Closed(nodes)
      && rev.Keys <= nodes.Keys
      && (forall m :: m in rev ==> Preds(nodes[m]) <= rev.Keys)
    }

    /** The structure built by the constructor. */
    ghost predicate Wf() {
      && Shaped()
      && RevExact(nodes, rev)
      && intersections == Intersections(nodes, rev.Keys)
      && topNodes == TopNodes(rev)
    }

    /**
     * `NodeGraph.__init__` once the file checks have passed: the reverse dependencies, the
     * intersections and the top nodes are fixed, and the state of every node is computed.
     */
    constructor (nodes: map<NodeId, Node>, rev: map<NodeId, set<NodeId>>, snap: Snapshot)
      requires Closed(nodes) && RevExact(nodes, rev)
      requires forall m :: m in rev ==> Preds(nodes[m]) <= rev.Keys
      ensures Wf() && this.nodes == nodes && this.rev == rev
      ensures states.Keys == rev.Keys
      ensures forall m :: m in rev ==> states[m] == Derived(nodes, map[], snap, m)
      ensures Consistent(nodes, states, {}, snap)
    {
      this.nodes := nodes;
      this.rev := rev;
      intersections := Intersections(nodes, rev.Keys);
      topNodes := TopNodes(rev);
      states := map[];
      new;
      assert Kept(states) == map[];
      RefreshStates(snap);
    }

    /**
     * `_update_node_state`: a stored state is returned as it is; otherwise the states of the
     * dependencies and subnodes are computed (and stored) first, and the node's own state is
     * computed from them and stored.
     */
    method UpdateNodeState(id: NodeId, snap: Snapshot) returns (state: State)
      requires Shaped() && id in rev && states.Keys <= rev.Keys
      modifies this
      ensures states.Keys <= rev.Keys
      ensures Grows(nodes, old(states), states, snap)
      ensures forall k :: k in states && k !in old(states) ==> k <= id
      ensures id in states && state == states[id]
      ensures id in old(states) ==> states == old(states)
      ensures Preds(nodes[id]) <= old(states).Keys && id !in old(states) ==>
        states == old(states)[id := Eval(nodes, id, old(states), snap)]
      decreases id, 1
    {
      if id in states {
        return states[id];
      }
      var n := nodes[id];
      var depStates := UpdateStates(n.dependencies, id, snap);
      depStates := {Done} + depStates;
      ghost var middle := states;
      var subStates := UpdateStates(n.subnodes, id, snap);
      StatesOfStable(n.dependencies, middle, states);
      GrowsTrans(nodes, old(states), middle, states, snap);
      state := Combine(n.isMeta, depStates, subStates, OwnFreshness(n, snap));
      CombineIsEval(nodes, id, states, depStates, subStates, snap);
      ghost var before := states;
      states := states[id := state];
      InsertComputed(nodes, old(states), before, id, snap);
      if Preds(n) <= old(states).Keys {
        assert before == old(states);
      }
    }

    /**
     * The loops of `_update_node_state` over the dependencies and over the subnodes: updates
     * each node of `ids` in turn and collects their states.
     */
    method UpdateStates(ids: set<NodeId>, ghost bound: NodeId, snap: Snapshot) returns (result: set<State>)
      requires Shaped() && ids <= rev.Keys && states.Keys <= rev.Keys
      requires forall d :: d in ids ==> d < bound
      modifies this
      ensures states.Keys <= rev.Keys
      ensures Grows(nodes, old(states), states, snap)
      ensures forall k :: k in states && k !in old(states) ==> k < bound
      ensures ids <= states.Keys && result == StatesOf(ids, states)
      ensures ids <= old(states).Keys ==> states == old(states)
      decreases bound, 0
    {
      result := {};
      var pending := ids;
      while pending != {}
        invariant pending <= ids
        invariant states.Keys <= rev.Keys
        invariant Grows(nodes, old(states), states, snap)
        invariant forall k :: k in states && k !in old(states) ==> k < bound
        invariant ids - pending <= states.Keys
        invariant result == StatesOf(ids - pending, states)
        invariant ids <= old(states).Keys ==> states == old(states)
        decreases |pending|
      {
        var d :| d in pending;
        ghost var before := states;
        var s := UpdateNodeState(d, snap);
        GrowsTrans(nodes, old(states), before, states, snap);
        StatesOfStable(ids - pending, before, states);
        StatesOfAdd(ids - pending, d, states);
        DoneStep(ids, pending, d);
        result := result + {s};
        pending := pending - {d};
      }
      DoneStep(ids, {}, bound);
    }

    /**
     * One pass of the body of the `for` loop of `set_node_state`, for a node `n` none of whose
     * dependencies and subnodes is still pending: `n` is computed again if flagged, and is
     * released.
     */
    method Visit(x: NodeId, s: State, snap: Snapshot, ghost olds: map<NodeId, State>, counts: map<NodeId, nat>,
                 requiresUpdate: map<NodeId, bool>, n: NodeId, ghost ready: set<NodeId>)
      returns (counts': map<NodeId, nat>, flags: map<NodeId, bool>)
      requires Shaped() && RevExact(nodes, rev)
      requires Progress(nodes, rev, olds, states, counts, requiresUpdate, x, s, snap)
      requires n in ready && ready <= counts.Keys && forall r :: r in ready ==> counts[r] == 0
      modifies this
      ensures Progress(nodes, rev, olds, states, counts', flags, x, s, snap)
      ensures ready - {n} <= counts'.Keys && forall r :: r in ready - {n} ==> counts'[r] == 0
      ensures |counts'.Keys| == |counts.Keys| - 1
    {
      VisitOpen(nodes, rev, olds, states, counts, requiresUpdate, x, s, snap, n);
      ghost var before := states;
      ghost var v := states[n];
      var hasChanged := false;
      if requiresUpdate[n] {
        var oldState := states[n];
        states := states - {n};
        var newState := UpdateNodeState(n, snap);
        if newState != oldState {
          hasChanged := true;
        }
        v := newState;
      } else {
        SameUpdate(before, n);
      }
      assert states == before[n := v];
      VisitStep(nodes, rev, olds, before, counts, requiresUpdate, x, s, snap, n, v, ready);
      counts', flags := Release(counts, requiresUpdate, rev[n], n, hasChanged);
    }

    /**
     * `set_node_state`: only RUNNING, ERROR and DONE may be set. The node takes the new state, and
     * the dependents of the node are visited in an order where every node comes after the
     * dependencies and subnodes it shares with them; a visited node is computed again when one of
     * those changed, and keeps its state otherwise.
     */
    method SetNodeState(x: NodeId, s: State, snap: Snapshot) returns (r: Outcome<string>)
      requires Wf() && x in rev && states.Keys == rev.Keys
      modifies this
      ensures r.Fail? <==> s !in {Running, Error, Done}
      ensures r.Fail? ==> states == old(states)
      ensures r.Pass? ==> Propagated(nodes, old(states), states, x, s, snap)
    {
      if s !in {Running, Error, Done} {
        return Fail("Cannot set states other than RUNNING and ERROR, or DONE.");
      }
      r := Pass;
      if s == states[x] {
        PropagatedSame(nodes, states, x, snap);
        return;
      }
      ghost var olds := states;
      states := states[x := s];
      var counts := intersections[x];
      var requiresUpdate := InitialFlags(counts, rev[x]);
      StartWorklist(nodes, rev, olds, counts, requiresUpdate, x, s, snap);
      while true in requiresUpdate.Values
        invariant Progress(nodes, rev, olds, states, counts, requiresUpdate, x, s, snap)
        decreases |counts.Keys|
      {
        counts, requiresUpdate := VisitReady(x, s, snap, olds, counts, requiresUpdate);
      }
      Finish(nodes, rev, olds, states, counts, requiresUpdate, x, s, snap);
    }

    /**
     * One pass of the `for` loop of `set_node_state`: every node whose count is zero when the
     * pass starts is visited in turn.
     */
    method VisitReady(x: NodeId, s: State, snap: Snapshot, ghost olds: map<NodeId, State>,
                      counts: map<NodeId, nat>, requiresUpdate: map<NodeId, bool>)
      returns (counts': map<NodeId, nat>, flags: map<NodeId, bool>)
      requires Shaped() && RevExact(nodes, rev)
      requires Progress(nodes, rev, olds, states, counts, requiresUpdate, x, s, snap)
      requires true in requiresUpdate.Values
      modifies this
      ensures Progress(nodes, rev, olds, states, counts', flags, x, s, snap)
      ensures |counts'.Keys| < |counts.Keys|
    {
      var ready := set n | n in counts && counts[n] == 0;
      ReadyExists(nodes, rev, olds, states, counts, requiresUpdate, x, s, snap, ready);
      CardSplit(counts.Keys, ready);
      ghost var goal := |counts.Keys - ready|;
      counts', flags := counts, requiresUpdate;
      while ready != {}
        invariant Progress(nodes, rev, olds, states, counts', flags, x, s, snap)
        invariant ready <= counts'.Keys && forall n :: n in ready ==> counts'[n] == 0
        invariant |counts'.Keys| == goal + |ready|
        decreases |ready|
      {
        var n :| n in ready;
        counts', flags := Visit(x, s, snap, olds, counts', flags, n, ready);
        ready := ready - {n};
      }
    }

    /**
     * `refresh_states`: keeps the ERROR and RUNNING states, forgets every other, and computes the
     * state of every node of the graph again from the file system.
     */
    method RefreshStates(snap: Snapshot)
      requires Shaped() && states.Keys <= rev.Keys
      modifies this
      ensures states.Keys == rev.Keys
      ensures forall m :: m in rev ==> states[m] == Derived(nodes, Kept(old(states)), snap, m)
      ensures Consistent(nodes, states, Kept(old(states)).Keys, snap)
    {
      var kept := Kept(states);
      states := kept;
      var todo := rev.Keys;
      while todo != {}
        invariant todo <= rev.Keys
        invariant states.Keys <= rev.Keys && rev.Keys - todo <= states.Keys
        invariant Grows(nodes, kept, states, snap)
        decreases |todo|
      {
        var m :| m in todo;
        ghost var before := states;
        var _ := UpdateNodeState(m, snap);
        GrowsTrans(nodes, kept, before, states, snap);
        todo := todo - {m};
      }
      RefreshedIsDerived(nodes, rev.Keys, kept, states, snap);
    }
  }

  /** Storing the value a map already holds leaves it unchanged. */
  lemma SameUpdate(m: map<NodeId, State>, k: NodeId)
    requires k in m
    ensures m[k := m[k]] == m
  {
  }

  /** Popping a node and computing it again gives the state computed from the map it was popped from. */
  lemma PopRecompute(nodes: map<NodeId, Node>, states: map<NodeId, State>, n: NodeId, snap: Snapshot)
    requires Closed(nodes) && ClosedMap(nodes, states) && n in states
    ensures Preds(nodes[n]) <= (states - {n}).Keys
    ensures (states - {n})[n := Eval(nodes, n, states - {n}, snap)] == states[n := Eval(nodes, n, states, snap)]
  {
    EvalLocal(nodes, n, states - {n}, states, snap);
  }

  /** The entries `refresh_states` keeps: the ERROR and RUNNING states. */
  function Kept(states: map<NodeId, State>): map<NodeId, State> {
    map m | m in states && states[m] in {Error, Running} :: states[m]
  }

  /** `refresh_states` leaves an ERROR or RUNNING node in the state it held. */
  lemma RefreshKeepsPinned(nodes: map<NodeId, Node>, states: map<NodeId, State>, snap: Snapshot, m: NodeId)
    requires Closed(nodes) && m in nodes && m in states && states[m] in {Error, Running}
    ensures Derived(nodes, Kept(states), snap, m) == states[m]
  {
  }

}
