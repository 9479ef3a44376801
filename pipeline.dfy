/**
 * The sequential part of the pipeline runner: the thread check made before anything runs, the
 * dispatch of runnable nodes within a thread budget, and the state updates for nodes that have
 * finished. The process pool, the result queue and signal handling are not modelled: the nodes the
 * queue reports, and whether each one raised, are given as a sequence.
 */
module Pipeline {
  import opened Staleness
  import opened NodeGraph
  import opened Wrappers

  // ---------------------------------------------------------------------------
  // The thread check of `run`

  /**
   * The loop of `run` over every node of the graph: no node other than a MetaNode may ask for
   * more threads than `maxRunning`.
   */
  method CheckThreads(nodes: map<NodeId, Node>, ids: set<NodeId>, maxRunning: int) returns (ok: bool)
    requires ids <= nodes.Keys
    ensures ok <==> forall n :: n in ids ==> nodes[n].isMeta || nodes[n].threads <= maxRunning
  {
    var todo := ids;
    while todo != {}
      invariant todo <= ids
      invariant forall n :: n in ids - todo ==> nodes[n].isMeta || nodes[n].threads <= maxRunning
      decreases |todo|
    {
      var n :| n in todo;
      if nodes[n].threads > maxRunning && !nodes[n].isMeta {
        return false;
      }
      todo := todo - {n};
    }
    return true;
  }

  // ---------------------------------------------------------------------------
  // Threads in use

  /** The threads the nodes `s` ask for, together. */
  ghost function Total(nodes: map<NodeId, Node>, s: set<NodeId>): nat
    requires s <= nodes.Keys
    decreases s
  {
    if s == {} then 0 else var x :| x in s; nodes[x].threads + Total(nodes, s - {x})
  }

  /** The total does not depend on which node is taken out first. */
  lemma {:induction false} TotalRemove(nodes: map<NodeId, Node>, s: set<NodeId>, y: NodeId)
    requires s <= nodes.Keys && y in s
    ensures Total(nodes, s) == nodes[y].threads + Total(nodes, s - {y})
    decreases s
  {
    var x :| x in s && Total(nodes, s) == nodes[x].threads + Total(nodes, s - {x});
    if x != y {
      TotalRemove(nodes, s - {x}, y);
      TotalRemove(nodes, s - {y}, x);
      assert s - {x} - {y} == s - {y} - {x};
    }
  }

  lemma TotalAdd(nodes: map<NodeId, Node>, s: set<NodeId>, y: NodeId)
    requires s <= nodes.Keys && y in nodes && y !in s
    ensures Total(nodes, s + {y}) == Total(nodes, s) + nodes[y].threads
  {
    TotalRemove(nodes, s + {y}, y);
    assert s + {y} - {y} == s;
  }

  /** `sum(node.threads for (node, _) in running.itervalues())`. */
  method RunningThreads(nodes: map<NodeId, Node>, running: set<NodeId>) returns (t: nat)
    requires running <= nodes.Keys
    ensures t == Total(nodes, running)
  {
    t := 0;
    var todo := running;
    while todo != {}
      invariant todo <= running
      invariant t + Total(nodes, todo) == Total(nodes, running)
      decreases |todo|
    {
      var n :| n in todo;
      TotalRemove(nodes, todo, n);
      t := t + nodes[n].threads;
      todo := todo - {n};
    }
  }

  // ---------------------------------------------------------------------------
  // A sequence of state changes

  /**
   * `trace` lists the states of the graph before and after each of the calls
   * `set_node_state(steps[i].0, steps[i].1)`, in order.
   */
  ghost predicate Applied(nodes: map<NodeId, Node>, snap: Snapshot, steps: seq<(NodeId, State)>,
                          trace: seq<map<NodeId, State>>) {
    && |trace| == |steps| + 1
    && forall i :: 0 <= i < |steps| ==> Step(nodes, trace[i], trace[i + 1], steps[i].0, steps[i].1, snap)
  }

  /** A key of its own for `Step`, so that opening the other sealed predicates leaves it closed. */
  predicate Logged(k: nat) { true }

  /** A key of its own for the loop invariants below. */
  predicate Tracked(k: nat) { true }

  /** `Propagated`, kept behind `Logged` so that the loops below do not unfold it. */
  ghost predicate Step(nodes: map<NodeId, Node>, olds: map<NodeId, State>, news: map<NodeId, State>,
                       x: NodeId, s: State, snap: Snapshot) {
    forall k {:trigger Logged(k)} :: Logged(k) ==> Propagated(nodes, olds, news, x, s, snap)
  }

  lemma AppliedAppend(nodes: map<NodeId, Node>, snap: Snapshot, steps: seq<(NodeId, State)>,
                      trace: seq<map<NodeId, State>>, x: NodeId, s: State, news: map<NodeId, State>)
    requires Applied(nodes, snap, steps, trace)
    requires Step(nodes, trace[|trace| - 1], news, x, s, snap)
    ensures Applied(nodes, snap, steps + [(x, s)], trace + [news])
  {
  }

  // ---------------------------------------------------------------------------
  // Starting nodes

  /** A graph built by `NodeGraph.__init__`, its structure kept behind `Sealed` for the loops below. */
  ghost predicate Ready(g: Graph) {
    && g.rev.Keys <= g.nodes.Keys
    && forall k {:trigger Sealed(k)} :: Sealed(k) ==> g.Wf()
  }

  /** `nodegraph.set_node_state(n, s)` for one of the three states callers may set. */
  method SetState(g: Graph, n: NodeId, s: State, snap: Snapshot)
    requires Ready(g) && g.states.Keys == g.rev.Keys && n in g.rev && s in {Running, Error, Done}
    modifies g
    ensures g.states.Keys == g.rev.Keys
    ensures Step(g.nodes, old(g.states), g.states, n, s, snap)
  {
    assert Sealed(0) && Logged(0);
    var _ := g.SetNodeState(n, s, snap);
  }

  /** What `_start_new_tasks` does with one remaining node. */
  datatype Verdict =
    | Start  // fits, RUNABLE and picklable: started and set to RUNNING
    | Reject // fits and RUNABLE, but cannot be pickled: set to ERROR
    | Drop   // fits and found DONE or ERROR
    | Keep   // left for a later call
    | Stop   // does not fit, and no thread is idle: the scan ends

  /** The body of the loop of `_start_new_tasks`, for the node `n` with `idle` threads to spare. */
  method Consider(g: Graph, n: NodeId, idle: int, snap: Snapshot, picklable: set<NodeId>) returns (v: Verdict)
    requires Ready(g) && g.states.Keys == g.rev.Keys && n in g.rev
    modifies g
    ensures g.states.Keys == g.rev.Keys
    ensures v == Stop <==> idle < g.nodes[n].threads && idle == 0
    ensures v in {Start, Reject} <==> idle >= g.nodes[n].threads && old(g.states)[n] == Runable
    ensures v == Drop <==> idle >= g.nodes[n].threads && old(g.states)[n] in {Done, Error}
    ensures v == Start ==> n in picklable && Step(g.nodes, old(g.states), g.states, n, Running, snap)
    ensures v == Reject ==> n !in picklable && Step(g.nodes, old(g.states), g.states, n, Error, snap)
    ensures v !in {Start, Reject} ==> g.states == old(g.states)
  {
    if idle >= g.nodes[n].threads {
      var state := g.states[n];
      if state == Runable {
        if n !in picklable {
          SetState(g, n, Error, snap);
          v := Reject;
        } else {
          SetState(g, n, Running, snap);
          v := Start;
        }
      } else if state in {Done, Error} {
        v := Drop;
      } else {
        v := Keep;
      }
    } else if idle == 0 {
      v := Stop;
    } else {
      v := Keep;
    }
  }

  /** What `_start_new_tasks` saw when it visited a node: its state and the idle threads then, and the trace entry holding that state. */
  datatype Visit = Visit(state: State, idle: int, at: nat)

  /** The fixed inputs of a scan: the graph, the nodes to visit, the running nodes, the budget and the states it began with. */
  datatype ScanInput = ScanInput(nodes: map<NodeId, Node>, keys: set<NodeId>, remaining: set<NodeId>,
                                 running: set<NodeId>, maxThreads: int, snap: Snapshot,
                                 picklable: set<NodeId>, s0: map<NodeId, State>)

  /**
   * The variables of a scan in progress: `todo` holds the nodes not yet visited; `started` the
   * visited nodes found RUNABLE (`runable`) or DONE or ERROR (`finished`); `run` the nodes running
   * and `idle` the threads they leave free; `steps`/`trace` the state changes made so far; and
   * `seen` what each visited node was found in.
   */
  datatype ScanVars = ScanVars(todo: set<NodeId>, started: set<NodeId>, runable: set<NodeId>,
                               finished: set<NodeId>, run: set<NodeId>, idle: int,
                               steps: seq<(NodeId, State)>, trace: seq<map<NodeId, State>>,
                               seen: map<NodeId, Visit>)

  /** The threads left free before the scan starts. */
  ghost function IdleAtStart(c: ScanInput): int
    requires c.running <= c.nodes.Keys
  {
    c.maxThreads - Total(c.nodes, c.running)
  }

  /** Whether the visit `w` records for `n` finds it RUNABLE and fitting, or DONE or ERROR and fitting. */
  predicate FoundRunable(c: ScanInput, w: ScanVars, n: NodeId)
    requires n in w.seen && n in c.nodes
  {
    w.seen[n].state == Runable && w.seen[n].idle >= c.nodes[n].threads
  }

  predicate FoundFinished(c: ScanInput, w: ScanVars, n: NodeId)
    requires n in w.seen && n in c.nodes
  {
    w.seen[n].state in {Done, Error} && w.seen[n].idle >= c.nodes[n].threads
  }

  /** How the node sets of a scan in progress relate to each other. */
  ghost predicate ScanSets(c: ScanInput, w: ScanVars) {
    forall k {:trigger Grouped(k)} :: Grouped(k) ==>
      forall n ::
        && (n in w.started <==> n in w.runable || n in w.finished)
        && (n in w.runable ==> n in c.remaining && n !in w.todo && n !in w.finished)
        && (n in w.finished ==> n in c.remaining && n !in w.todo)
        && (n in w.run <==> n in c.running || (n in w.runable && n in c.picklable))
  }

  /** Keys of their own for `ScanSets` and `ScanSeen`. */
  predicate Grouped(k: nat) { true }

  predicate Recorded(k: nat) { true }

  /** Visiting `n`, still to do, keeps `ScanSets`. */
  lemma SetsStep(c: ScanInput, w: ScanVars, olds: map<NodeId, State>, n: NodeId, v: Verdict, news: map<NodeId, State>)
    requires ScanSets(c, w) && n in c.nodes && n in olds && n in w.todo && n in c.remaining && n !in c.running
    requires v == Start ==> n in c.picklable
    requires v == Reject ==> n !in c.picklable
    ensures ScanSets(c, Visited(c, w, n, v, olds, news))
  {
    assert Grouped(0);
  }

  /**
   * What each visit recorded in `seen` holds to: the trace entry it names holds the state found,
   * the node went to `runable` or `finished` exactly when it was found RUNABLE, or DONE or ERROR,
   * and fitting, and the idle threads then lie between those now and those at the start.
   */
  ghost predicate ScanSeen(c: ScanInput, w: ScanVars) {
    forall k {:trigger Recorded(k)} :: Recorded(k) ==>
    && c.running <= c.nodes.Keys
    && forall n :: n in w.seen ==>
         && n in c.nodes
         && w.seen[n].at < |w.trace| && n in w.trace[w.seen[n].at]
         && w.trace[w.seen[n].at][n] == w.seen[n].state
         && (n in w.runable <==> FoundRunable(c, w, n))
         && (n in w.finished <==> FoundFinished(c, w, n))
         && w.idle <= w.seen[n].idle <= IdleAtStart(c)
  }

  /** What holds of a scan in progress, with `states` the current states. Kept behind `Tracked`. */
  ghost predicate Scan(c: ScanInput, w: ScanVars, states: map<NodeId, State>) {
    forall k {:trigger Tracked(k)} :: Tracked(k) ==>
      && c.keys <= c.nodes.Keys && c.remaining <= c.keys && c.running <= c.keys && c.remaining !! c.running
      && w.todo <= c.remaining && w.run <= c.keys
      && w.seen.Keys == c.remaining - w.todo
      && ScanSets(c, w)
      && ScanSeen(c, w)
      && w.idle == c.maxThreads - Total(c.nodes, w.run)
      && (w.idle >= 0 || w.run == c.running)
      && ScanLog(c, w.runable, w.steps, w.trace, states)
  }

  /**
   * The log of a scan: `steps` lead through `trace` from the states the scan began with to
   * `states`, and change exactly the nodes of `runable`, each to RUNNING or, when it cannot be
   * pickled, to ERROR. Kept behind `Replayed`.
   */
  ghost predicate ScanLog(c: ScanInput, runable: set<NodeId>, steps: seq<(NodeId, State)>,
                          trace: seq<map<NodeId, State>>, states: map<NodeId, State>) {
    forall key {:trigger Replayed(key)} :: Replayed(key) ==>
      && Applied(c.nodes, c.snap, steps, trace) && trace[0] == c.s0 && trace[|trace| - 1] == states
      && runable == StepNodes(steps)
      && (forall k :: 0 <= k < |steps| ==> steps[k].1 == if steps[k].0 in c.picklable then Running else Error)
  }

  /** A key of its own for `ScanLog`. */
  predicate Replayed(k: nat) { true }

  /** Logging the change of `n` to `s` extends the log by one step and one state. */
  lemma LogStep(c: ScanInput, runable: set<NodeId>, steps: seq<(NodeId, State)>, trace: seq<map<NodeId, State>>,
                olds: map<NodeId, State>, n: NodeId, s: State, news: map<NodeId, State>)
    requires ScanLog(c, runable, steps, trace, olds)
    requires Step(c.nodes, olds, news, n, s, c.snap) && s == if n in c.picklable then Running else Error
    ensures ScanLog(c, runable + {n}, steps + [(n, s)], trace + [news], news)
  {
    assert Replayed(0);
    AppliedAppend(c.nodes, c.snap, steps, trace, n, s, news);
    StepNodesAppend(steps, n, s);
    assert forall k :: 0 <= k < |steps| ==> (steps + [(n, s)])[k] == steps[k];
  }

  /** The nodes whose state `steps` changes. */
  ghost function StepNodes(steps: seq<(NodeId, State)>): set<NodeId> {
    set k | 0 <= k < |steps| :: steps[k].0
  }

  /** One more step adds its node. */
  lemma StepNodesAppend(steps: seq<(NodeId, State)>, x: NodeId, s: State)
    ensures StepNodes(steps + [(x, s)]) == StepNodes(steps) + {x}
  {
    var t := steps + [(x, s)];
    assert t[|steps|].0 == x;
    forall n | n in StepNodes(steps)
      ensures n in StepNodes(t)
    {
      var k :| 0 <= k < |steps| && steps[k].0 == n;
      assert t[k].0 == n;
    }
  }

  /** The scan variables after visiting `n` with the verdict `v`; `olds` and `news` are the states before and after. */
  function Visited(c: ScanInput, w: ScanVars, n: NodeId, v: Verdict, olds: map<NodeId, State>,
                   news: map<NodeId, State>): ScanVars
    requires n in c.nodes && n in olds
  {
    ScanVars(w.todo - {n},
             if v in {Start, Reject, Drop} then w.started + {n} else w.started,
             if v in {Start, Reject} then w.runable + {n} else w.runable,
             if v == Drop then w.finished + {n} else w.finished,
             if v == Start then w.run + {n} else w.run,
             if v == Start then w.idle - c.nodes[n].threads else w.idle,
             if v in {Start, Reject} then w.steps + [(n, if v == Start then Running else Error)] else w.steps,
             if v in {Start, Reject} then w.trace + [news] else w.trace,
             w.seen[n := Visit(olds[n], w.idle, if |w.trace| > 0 then |w.trace| - 1 else 0)])
  }

  /** The scan before any node is visited. */
  lemma ScanStart(c: ScanInput, w: ScanVars)
    requires c.keys <= c.nodes.Keys && c.remaining <= c.keys && c.running <= c.keys && c.remaining !! c.running
    requires w == ScanVars(c.remaining, {}, {}, {}, c.running, IdleAtStart(c), [], [c.s0], map[])
    ensures Scan(c, w, c.s0)
  {
    assert Tracked(0);
  }

  /** Visiting `n` with the verdict `Consider` gives keeps `Scan`. */
  lemma ScanStep(c: ScanInput, w: ScanVars, olds: map<NodeId, State>, n: NodeId, v: Verdict, news: map<NodeId, State>)
    requires Scan(c, w, olds)
    requires n in w.todo && n in olds && v != Stop
    requires n in c.nodes
    requires v in {Start, Reject} <==> w.idle >= c.nodes[n].threads && olds[n] == Runable
    requires v == Drop <==> w.idle >= c.nodes[n].threads && olds[n] in {Done, Error}
    requires v == Start ==> n in c.picklable && Step(c.nodes, olds, news, n, Running, c.snap)
    requires v == Reject ==> n !in c.picklable && Step(c.nodes, olds, news, n, Error, c.snap)
    requires v !in {Start, Reject} ==> news == olds
    ensures Scan(c, Visited(c, w, n, v, olds, news), news)
  {
    assert Tracked(0) && Grouped(0) && Recorded(0) && Replayed(0);
    assert w.idle <= IdleAtStart(c) by {
      if w.runable == {} {
        assert w.run == c.running;
      } else {
        var m :| m in w.runable;
        assert m in w.seen;
      }
    }
    SeenStep(c, w, olds, n, v, news);
    SetsStep(c, w, olds, n, v, news);
    if v == Start {
      StartStep(c, w, olds, n, news);
    } else if v == Reject {
      RejectStep(c, w, olds, n, news);
    } else {
      PassStep(c, w, olds, n, v);
    }
  }

  /** `ScanStep` for a node started: it joins the running nodes and the state change is logged. */
  lemma StartStep(c: ScanInput, w: ScanVars, olds: map<NodeId, State>, n: NodeId, news: map<NodeId, State>)
    requires Scan(c, w, olds) && n in c.nodes && n in olds && n in w.todo
    requires ScanSets(c, Visited(c, w, n, Start, olds, news)) && ScanSeen(c, Visited(c, w, n, Start, olds, news))
    requires n !in w.run && w.idle >= c.nodes[n].threads && n in c.picklable && Step(c.nodes, olds, news, n, Running, c.snap)
    ensures Scan(c, Visited(c, w, n, Start, olds, news), news)
  {
    assert Tracked(0);
    TotalAdd(c.nodes, w.run, n);
    LogStep(c, w.runable, w.steps, w.trace, olds, n, Running, news);
    assert Tracked(0) ==> Scan(c, Visited(c, w, n, Start, olds, news), news);
  }

  /** `ScanStep` for a node that cannot be pickled: its change to ERROR is logged. */
  lemma RejectStep(c: ScanInput, w: ScanVars, olds: map<NodeId, State>, n: NodeId, news: map<NodeId, State>)
    requires Scan(c, w, olds) && n in c.nodes && n in olds && n in w.todo
    requires ScanSets(c, Visited(c, w, n, Reject, olds, news)) && ScanSeen(c, Visited(c, w, n, Reject, olds, news))
    requires n !in c.picklable && Step(c.nodes, olds, news, n, Error, c.snap)
    ensures Scan(c, Visited(c, w, n, Reject, olds, news), news)
  {
    assert Tracked(0);
    LogStep(c, w.runable, w.steps, w.trace, olds, n, Error, news);
    assert Tracked(0) ==> Scan(c, Visited(c, w, n, Reject, olds, news), news);
  }

  /** `ScanStep` for a node dropped or kept: no state changes. */
  lemma PassStep(c: ScanInput, w: ScanVars, olds: map<NodeId, State>, n: NodeId, v: Verdict)
    requires Scan(c, w, olds) && n in c.nodes && n in olds && n in w.todo && v in {Drop, Keep}
    requires ScanSets(c, Visited(c, w, n, v, olds, olds)) && ScanSeen(c, Visited(c, w, n, v, olds, olds))
    ensures Scan(c, Visited(c, w, n, v, olds, olds), olds)
  {
    assert Tracked(0);
    assert Tracked(0) ==> Scan(c, Visited(c, w, n, v, olds, olds), olds);
  }

  /** Visiting `n`, not visited before, keeps `ScanSeen`. */
  lemma SeenStep(c: ScanInput, w: ScanVars, olds: map<NodeId, State>, n: NodeId, v: Verdict, news: map<NodeId, State>)
    requires c.running <= c.nodes.Keys && ScanSeen(c, w) && n in c.nodes && n in olds
    requires n !in w.seen && n !in w.runable && n !in w.finished
    requires |w.trace| > 0 && w.trace[|w.trace| - 1] == olds && w.idle <= IdleAtStart(c)
    requires v in {Start, Reject} <==> w.idle >= c.nodes[n].threads && olds[n] == Runable
    requires v == Drop <==> w.idle >= c.nodes[n].threads && olds[n] in {Done, Error}
    ensures ScanSeen(c, Visited(c, w, n, v, olds, news))
  {
    assert Recorded(0);
    var w' := Visited(c, w, n, v, olds, news);
    forall m | m in w'.seen
      ensures && m in c.nodes
              && w'.seen[m].at < |w'.trace| && m in w'.trace[w'.seen[m].at]
              && w'.trace[w'.seen[m].at][m] == w'.seen[m].state
              && (m in w'.runable <==> FoundRunable(c, w', m))
              && (m in w'.finished <==> FoundFinished(c, w', m))
              && w'.idle <= w'.seen[m].idle <= IdleAtStart(c)
    {
      if m != n {
        assert w'.seen[m] == w.seen[m] && w'.trace[w.seen[m].at] == w.trace[w.seen[m].at];
        assert FoundRunable(c, w', m) == FoundRunable(c, w, m);
        assert FoundFinished(c, w', m) == FoundFinished(c, w, m);
      }
    }
  }

  /**
   * What `Scan` says once the scan is over: either every remaining node was visited, or the scan
   * halted at the unvisited node `halted`, which did not fit while no thread was idle.
   */
  lemma ScanDone(c: ScanInput, w: ScanVars, states: map<NodeId, State>, halted: Option<NodeId>)
    requires Scan(c, w, states)
    requires halted.None? ==> w.todo == {}
    requires halted.Some? ==> && halted.value in w.todo && halted.value in c.nodes
                              && w.idle == 0 && w.idle < c.nodes[halted.value].threads
    ensures w.run <= c.keys && c.keys <= c.nodes.Keys && c.running <= c.nodes.Keys && c.remaining <= c.keys
    ensures Total(c.nodes, w.run) <= c.maxThreads || w.run == c.running
    ensures forall n :: n in c.remaining - w.started <==> n in c.remaining && n !in w.runable && n !in w.finished
    ensures forall n :: n in w.run <==> n in c.running || (n in w.runable && n in c.picklable)
    ensures forall n :: n in w.seen ==> n in c.remaining
    ensures halted.None? ==> w.seen.Keys == c.remaining
    ensures halted.Some? ==> && halted.value in c.remaining && halted.value !in w.seen
                             && Total(c.nodes, w.run) == c.maxThreads && c.nodes[halted.value].threads > 0
    ensures forall n :: n in w.runable <==>
              n in w.seen && w.seen[n].state == Runable && w.seen[n].idle >= c.nodes[n].threads
    ensures forall n :: n in w.finished <==>
              n in w.seen && w.seen[n].state in {Done, Error} && w.seen[n].idle >= c.nodes[n].threads
    ensures forall n :: n in w.seen ==>
              && w.seen[n].at < |w.trace| && n in w.trace[w.seen[n].at] && w.trace[w.seen[n].at][n] == w.seen[n].state
              && c.maxThreads - Total(c.nodes, w.run) <= w.seen[n].idle <= c.maxThreads - Total(c.nodes, c.running)
    ensures Applied(c.nodes, c.snap, w.steps, w.trace) && w.trace[0] == c.s0 && w.trace[|w.trace| - 1] == states
    ensures w.runable == StepNodes(w.steps)
    ensures forall k :: 0 <= k < |w.steps| ==> w.steps[k].1 == if w.steps[k].0 in c.picklable then Running else Error
  {
    assert Tracked(0) && Grouped(0) && Recorded(0) && Replayed(0);
    forall n | n in w.runable + w.finished
      ensures n in w.seen
    {
      assert n in c.remaining - w.todo;
    }
  }

  /**
   * `_start_new_tasks`: visits the remaining nodes (in any order) with `idle` threads to spare.
   * A node that fits and is RUNABLE is started and set to RUNNING, or set to ERROR when it cannot
   * be pickled; a node found DONE or ERROR is dropped; any other node is kept for later. The scan
   * stops at a node that does not fit once no thread is idle (`halted`). Started and dropped
   * nodes leave `remaining`, and the result says whether any node remains. `seen` records, for
   * each visited node, the state it was found in and the threads idle then; `runable` and
   * `finished` hold the visited nodes found RUNABLE, and DONE or ERROR, that fit; `steps`/`trace`
   * are the state changes made.
   */
  method StartNewTasks(g: Graph, remaining: set<NodeId>, running: set<NodeId>, maxThreads: int, snap: Snapshot,
                       picklable: set<NodeId>)
    returns (remaining': set<NodeId>, running': set<NodeId>, more: bool,
             ghost runable: set<NodeId>, ghost finished: set<NodeId>,
             ghost steps: seq<(NodeId, State)>, ghost trace: seq<map<NodeId, State>>,
             ghost seen: map<NodeId, Visit>, ghost halted: Option<NodeId>)
    requires Ready(g) && g.states.Keys == g.rev.Keys
    requires remaining <= g.rev.Keys && running <= g.rev.Keys && remaining !! running
    modifies g
    ensures g.states.Keys == g.rev.Keys
    ensures running' <= g.rev.Keys && running <= g.nodes.Keys
    ensures Total(g.nodes, running') <= maxThreads || running' == running
    ensures forall n :: n in remaining' <==> n in remaining && n !in runable && n !in finished
    ensures more == (remaining' != {})
    ensures forall n :: n in running' <==> n in running || (n in runable && n in picklable)
    ensures forall n :: n in seen ==> n in remaining
    ensures halted.None? ==> seen.Keys == remaining
    ensures halted.Some? ==> && halted.value in remaining && halted.value !in seen
                             && Total(g.nodes, running') == maxThreads && g.nodes[halted.value].threads > 0
    ensures forall n :: n in runable <==> n in seen && seen[n].state == Runable && seen[n].idle >= g.nodes[n].threads
    ensures forall n :: n in finished <==>
              n in seen && seen[n].state in {Done, Error} && seen[n].idle >= g.nodes[n].threads
    ensures forall n :: n in seen ==>
              && seen[n].at < |trace| && n in trace[seen[n].at] && trace[seen[n].at][n] == seen[n].state
              && maxThreads - Total(g.nodes, running') <= seen[n].idle <= maxThreads - Total(g.nodes, running)
    ensures Applied(g.nodes, snap, steps, trace) && trace[0] == old(g.states) && trace[|trace| - 1] == g.states
    ensures runable == StepNodes(steps)
    ensures forall k :: 0 <= k < |steps| ==> steps[k].1 == if steps[k].0 in picklable then Running else Error
  {
    var busy := RunningThreads(g.nodes, running);
    var c := ScanInput(g.nodes, g.rev.Keys, remaining, running, maxThreads, snap, picklable, g.states);
    assert g.rev.Keys <= g.nodes.Keys by {
      assert Sealed(0);
    }
    var started;
    ghost var w;
    started, running', w, halted := VisitNodes(g, c, maxThreads - busy);
    ScanDone(c, w, g.states, halted);
    runable, finished, steps, trace, seen := w.runable, w.finished, w.steps, w.trace, w.seen;
    remaining' := remaining - started;
    more := remaining' != {};
  }

  /** The loop of `_start_new_tasks`, over the scan `c` with `idle` threads free at the start. */
  method VisitNodes(g: Graph, c: ScanInput, idle: int)
    returns (started: set<NodeId>, running': set<NodeId>, ghost w: ScanVars, ghost halted: Option<NodeId>)
    requires Ready(g) && g.states.Keys == g.rev.Keys
    requires c.nodes == g.nodes && c.keys == g.rev.Keys && c.s0 == g.states
    requires c.keys <= c.nodes.Keys && c.remaining <= c.keys && c.running <= c.keys && c.remaining !! c.running
    requires idle == IdleAtStart(c)
    modifies g
    ensures g.states.Keys == g.rev.Keys
    ensures Scan(c, w, g.states) && w.started == started && w.run == running'
    ensures halted.None? ==> w.todo == {}
    ensures halted.Some? ==> && halted.value in w.todo && halted.value in c.nodes
                             && w.idle == 0 && w.idle < c.nodes[halted.value].threads
  {
    var idle := idle;
    running' := c.running;
    started := {};
    var todo := c.remaining;
    w := ScanVars(todo, started, {}, {}, running', idle, [], [g.states], map[]);
    ScanStart(c, w);
    halted := None;
    var stop := false;
    while todo != {} && !stop
      invariant g.states.Keys == g.rev.Keys
      invariant Scan(c, w, g.states)
      invariant w.todo == todo && w.started == started && w.run == running' && w.idle == idle
      invariant stop <==> halted.Some?
      invariant halted.Some? ==> && halted.value in todo && halted.value in g.nodes
                                 && idle == 0 && idle < g.nodes[halted.value].threads
      decreases |todo|, if stop then 0 else 1
    {
      var n :| n in todo;
      ghost var olds := g.states;
      assert n in g.rev by {
        assert Tracked(0);
      }
      var v := Consider(g, n, idle, c.snap, c.picklable);
      if v == Stop {
        stop := true;
        halted := Some(n);
      } else {
        ScanStep(c, w, olds, n, v, g.states);
        w := Visited(c, w, n, v, olds, g.states);
        started := if v in {Start, Reject, Drop} then started + {n} else started;
        running' := if v == Start then running' + {n} else running';
        idle := if v == Start then idle - g.nodes[n].threads else idle;
        todo := todo - {n};
      }
    }
  }

  // ---------------------------------------------------------------------------
  // Collecting finished nodes

  /** The nodes of `reports`. */
  function Polled(reports: seq<(NodeId, bool)>): (r: set<NodeId>)
    ensures forall n :: n in r <==> exists j :: 0 <= j < |reports| && reports[j].0 == n
  {
    if reports == [] then {} else Polled(reports[..|reports| - 1]) + {reports[|reports| - 1].0}
  }

  /** The state each reported node is given: ERROR when its process raised, DONE otherwise. */
  function Outcomes(reports: seq<(NodeId, bool)>): (r: seq<(NodeId, State)>)
    ensures |r| == |reports|
    ensures forall j :: 0 <= j < |r| ==> r[j] == (reports[j].0, if reports[j].1 then Error else Done)
  {
    if reports == [] then []
    else Outcomes(reports[..|reports| - 1]) + [(reports[|reports| - 1].0, if reports[|reports| - 1].1 then Error else Done)]
  }

  /** Whether no process in `reports` raised. */
  function Clean(reports: seq<(NodeId, bool)>): (r: bool)
    ensures r <==> forall j :: 0 <= j < |reports| ==> !reports[j].1
  {
    if reports == [] then true else Clean(reports[..|reports| - 1]) && !reports[|reports| - 1].1
  }

  /**
   * What holds after `_poll_running_nodes` has taken the first `i` reports, with `s0` the states
   * it began with: `run` is what is left of `running`, `ok` whether no process raised, and `trace`
   * the states after each change. Kept behind `Sealed`.
   */
  ghost predicate Polling(nodes: map<NodeId, Node>, snap: Snapshot, running: set<NodeId>, reports: seq<(NodeId, bool)>,
                          s0: map<NodeId, State>, i: nat, run: set<NodeId>, ok: bool, trace: seq<map<NodeId, State>>,
                          states: map<NodeId, State>) {
    forall k {:trigger Tracked(k)} :: Tracked(k) ==>
      && i <= |reports|
      && run == running - Polled(reports[..i])
      && (forall j :: i <= j < |reports| ==> reports[j].0 in run)
      && ok == Clean(reports[..i])
      && Applied(nodes, snap, Outcomes(reports[..i]), trace)
      && trace[0] == s0 && trace[|trace| - 1] == states
  }

  /** Taking one more report. */
  lemma PolledNext(reports: seq<(NodeId, bool)>, i: nat)
    requires i < |reports|
    ensures Polled(reports[..i + 1]) == Polled(reports[..i]) + {reports[i].0}
    ensures Outcomes(reports[..i + 1]) == Outcomes(reports[..i]) + [(reports[i].0, if reports[i].1 then Error else Done)]
    ensures Clean(reports[..i + 1]) == (Clean(reports[..i]) && !reports[i].1)
  {
    assert reports[..i + 1][..i] == reports[..i];
  }

  /** Taking report `i` keeps `Polling`. */
  lemma PollingNext(nodes: map<NodeId, Node>, snap: Snapshot, running: set<NodeId>, reports: seq<(NodeId, bool)>,
                    s0: map<NodeId, State>, i: nat, run: set<NodeId>, ok: bool, trace: seq<map<NodeId, State>>,
                    olds: map<NodeId, State>, news: map<NodeId, State>)
    requires Polling(nodes, snap, running, reports, s0, i, run, ok, trace, olds)
    requires i < |reports|
    requires forall j, k :: 0 <= j < k < |reports| ==> reports[j].0 != reports[k].0
    requires Step(nodes, olds, news, reports[i].0, if reports[i].1 then Error else Done, snap)
    ensures Polling(nodes, snap, running, reports, s0, i + 1, run - {reports[i].0}, ok && !reports[i].1,
                    trace + [news], news)
  {
    assert Tracked(0);
    PolledNext(reports, i);
    var x := reports[i].0;
    assert run - {x} == running - Polled(reports[..i + 1]);
    forall j | i + 1 <= j < |reports|
      ensures reports[j].0 in run - {x}
    {
      assert reports[j].0 != x;
    }
    AppliedAppend(nodes, snap, Outcomes(reports[..i]), trace, x, if reports[i].1 then Error else Done, news);
  }

  /** What `Polling` says once every report is taken. */
  lemma PollingDone(nodes: map<NodeId, Node>, snap: Snapshot, running: set<NodeId>, reports: seq<(NodeId, bool)>,
                    s0: map<NodeId, State>, i: nat, run: set<NodeId>, ok: bool, trace: seq<map<NodeId, State>>,
                    states: map<NodeId, State>)
    requires Polling(nodes, snap, running, reports, s0, i, run, ok, trace, states)
    requires i >= |reports|
    ensures run == running - Polled(reports)
    ensures ok <==> forall j :: 0 <= j < |reports| ==> !reports[j].1
    ensures Applied(nodes, snap, Outcomes(reports), trace)
    ensures trace[0] == s0 && trace[|trace| - 1] == states
  {
    assert Tracked(0);
    assert reports[..i] == reports;
  }

  /**
   * `_poll_running_nodes`: `reports` lists, in the order the result queue yields them, the running
   * nodes that finished and whether their process raised. Each is taken out of `running` and set
   * to ERROR if it raised and to DONE otherwise; the result is false exactly when one raised.
   */
  method PollRunningNodes(g: Graph, running: set<NodeId>, reports: seq<(NodeId, bool)>, snap: Snapshot)
    returns (running': set<NodeId>, ok: bool, ghost trace: seq<map<NodeId, State>>)
    requires Ready(g) && g.states.Keys == g.rev.Keys && running <= g.rev.Keys
    requires forall j :: 0 <= j < |reports| ==> reports[j].0 in running
    requires forall j, k :: 0 <= j < k < |reports| ==> reports[j].0 != reports[k].0
    modifies g
    ensures g.states.Keys == g.rev.Keys
    ensures running' == running - Polled(reports)
    ensures ok <==> forall j :: 0 <= j < |reports| ==> !reports[j].1
    ensures Applied(g.nodes, snap, Outcomes(reports), trace)
    ensures trace[0] == old(g.states) && trace[|trace| - 1] == g.states
  {
    // The loop of `_poll_running_nodes` also ends once `running` is empty; with every report naming
    // a distinct running node, that happens only after the last report.
    running', ok, trace := running, true, [g.states];
    var i := 0;
    ghost var s0 := g.states;
    assert Polling(g.nodes, snap, running, reports, s0, i, running', ok, trace, g.states) by {
      assert Tracked(0);
      assert reports[..0] == [];
    }
    while i < |reports|
      invariant g.states.Keys == g.rev.Keys
      invariant Polling(g.nodes, snap, running, reports, s0, i, running', ok, trace, g.states)
      decreases |reports| - i
    {
      ghost var olds := g.states;
      var n, raised := reports[i].0, reports[i].1;
      SetState(g, n, if raised then Error else Done, snap);
      PollingNext(g.nodes, snap, running, reports, s0, i, running', ok, trace, olds, g.states);
      running', ok, trace := running' - {n}, ok && !raised, trace + [g.states];
      i := i + 1;
    }
    PollingDone(g.nodes, snap, running, reports, s0, i, running', ok, trace, g.states);
  }
}
