/**
 * The two staleness predicates a node graph consults, `is_done` and `is_outdated`, over one
 * snapshot of file modification times. A path absent from the snapshot is a missing file; a fresh
 * file-status cache corresponds to a fresh snapshot.
 */
module Staleness {

  type Path = string

  /** Modification time of every existing file; missing files have no entry. */
  type Snapshot = map<Path, int>

  /** `is_done`: every one of the node's own output files exists (vacuously true without outputs). */
  predicate IsDone(outputs: set<Path>, snap: Snapshot) {
    forall o :: o in outputs ==> o in snap
  }

  /**
   * `is_outdated`: the node has inputs and outputs, all outputs exist, and some existing input is
   * strictly newer than some output. Equal times count as up to date.
   */
  predicate IsOutdated(inputs: set<Path>, outputs: set<Path>, snap: Snapshot) {
    && inputs != {}
    && outputs != {}
    && IsDone(outputs, snap)
    && exists i, o :: i in inputs && i in snap && o in outputs && snap[i] > snap[o]
  }

  /** The time of the oldest of a non-empty set of existing files. */
  ghost function OldestTime(files: set<Path>, snap: Snapshot): (t: int)
    requires files != {} && files <= snap.Keys
    ensures exists f :: f in files && snap[f] == t
    ensures forall f :: f in files ==> t <= snap[f]
    decreases |files|
  {
    var f :| f in files;
    if files == {f} then snap[f]
    else
      var rest := OldestTime(files - {f}, snap);
      if snap[f] < rest then snap[f] else rest
  }

  /**
   * `is_outdated` read as "some input is strictly newer than the oldest output" (the reading the
   * design gives) agrees with the pairwise definition.
   */
  lemma IsOutdatedOldest(inputs: set<Path>, outputs: set<Path>, snap: Snapshot)
    ensures IsOutdated(inputs, outputs, snap) <==>
      && inputs != {} && outputs != {} && outputs <= snap.Keys
      && exists i :: i in inputs && i in snap && snap[i] > OldestTime(outputs, snap)
  {
    if inputs != {} && outputs != {} && outputs <= snap.Keys {
      var t := OldestTime(outputs, snap);
      var o :| o in outputs && snap[o] == t;
    }
  }

  /** A node with an output missing is neither done nor outdated. */
  lemma MissingOutput(inputs: set<Path>, outputs: set<Path>, snap: Snapshot, o: Path)
    requires o in outputs && o !in snap
    ensures !IsDone(outputs, snap) && !IsOutdated(inputs, outputs, snap)
  {
  }

  /** An outdated node is also done: outdated is only decided once every output exists. */
  lemma OutdatedImpliesDone(inputs: set<Path>, outputs: set<Path>, snap: Snapshot)
    requires IsOutdated(inputs, outputs, snap)
    ensures IsDone(outputs, snap) && inputs != {} && outputs != {}
  {
  }

  /** When no existing input is newer than any output, the node is not outdated. */
  lemma OutputsNewerNotOutdated(inputs: set<Path>, outputs: set<Path>, snap: Snapshot)
    requires forall i, o :: i in inputs && i in snap && o in outputs && o in snap ==> snap[i] <= snap[o]
    ensures !IsOutdated(inputs, outputs, snap)
  {
  }

  /**
   * The pinned test cases: no outputs means done; no inputs or no outputs means never outdated,
   * even with missing outputs.
   */
  lemma EmptyFileSets(files: set<Path>, snap: Snapshot)
    ensures IsDone({}, snap)
    ensures !IsOutdated({}, files, snap) && !IsOutdated(files, {}, snap)
  {
  }

  /**
   * Whether a node is done depends only on its outputs: writing output files one by one keeps it
   * not done until the last one exists.
   */
  lemma IsDoneAfterWrites(outputs: set<Path>, snap: Snapshot, written: Path, time: int)
    requires written in outputs
    ensures IsDone(outputs, snap[written := time]) <==> outputs - {written} <= snap.Keys
  {
  }

  /**
   * With `older` strictly older than `younger`, a node reading `older` and writing `younger` is
   * not outdated, and swapping the two files makes it outdated.
   */
  lemma SwapFlipsOutdated(older: Path, younger: Path, snap: Snapshot)
    requires older in snap && younger in snap && snap[older] < snap[younger]
    ensures !IsOutdated({older}, {younger}, snap)
    ensures IsOutdated({younger}, {older}, snap)
  {
    assert younger in {younger} && older in {older};
  }
}
