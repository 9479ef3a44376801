/**
 * The FASTQ checks of both validation modules: `_collect_qualities` walks a file four lines at a
 * time, and `check_fastq_files` classifies the qualities of each file by their offset. A file is
 * given as the successive results of `readline()`, each one ending in its '\n' except perhaps the
 * last; `readline()` past the end gives "". Running `cat` over the file is not modelled.
 */
module Fastq {
  import opened Wrappers
  import opened Text

  /** Why a FASTQ record is rejected. */
  datatype FastqError =
    | FastaHeader                  // the header starts with '>'
    | NoHeader(found: string)      // the first character of a header that does not start with '@'
    | Partial(record: string)      // the record has no 4th line
    | NoSeparator(found: string)   // the first character of a separator that does not start with '+'
    | LengthMismatch(record: string)

  /** Python's `s.rstrip()`: trailing whitespace removed. */
  function StripRight(s: string): (r: string)
    ensures |r| <= |s| && r == s[..|r|]
    ensures r == [] || r[|r| - 1] !in " \t\n\r\U{000B}\U{000C}"
  {
    if s == [] || s[|s| - 1] !in " \t\n\r\U{000B}\U{000C}" then s else StripRight(s[..|s| - 1])
  }

  /** Python's `s[:1]`. */
  function Head(s: string): (r: string)
    ensures r <= s && |r| == if s == [] then 0 else 1
  {
    if s == [] then [] else s[..1]
  }

  /** The `i`-th call of `readline()`. */
  function Line(lines: seq<string>, i: nat): string {
    if i < |lines| then lines[i] else ""
  }

  /** `readline()` returns "" only at the end of the file. */
  predicate Readlines(lines: seq<string>) {
    forall i :: 0 <= i < |lines| ==> lines[i] != ""
  }

  /** The records the loop of `_collect_qualities` starts: one for each header line read. */
  function RecordCount(lines: seq<string>): nat {
    (|lines| + 3) / 4
  }

  /** What is wrong with record `k` (lines `4k` to `4k + 3`), checked in the order of the source. */
  function RecordError(lines: seq<string>, k: nat): Option<FastqError> {
    var header, sequence, separator, qualities := Line(lines, 4 * k), Line(lines, 4 * k + 1),
                                                  Line(lines, 4 * k + 2), Line(lines, 4 * k + 3);
    if !StartsWith(header, "@") then
      Some(if StartsWith(header, ">") then FastaHeader else NoHeader(Head(header)))
    else if qualities == "" then Some(Partial(StripRight(header)))
    else if !StartsWith(separator, "+") then Some(NoSeparator(Head(separator)))
    else if |sequence| != |qualities| then Some(LengthMismatch(StripRight(header)))
    else None
  }

  /** The error of the first bad record from record `k` on, if any. */
  function FirstError(lines: seq<string>, k: nat): Option<FastqError>
    decreases RecordCount(lines) - k
  {
    if k >= RecordCount(lines) then None
    else if RecordError(lines, k).Some? then RecordError(lines, k)
    else FirstError(lines, k + 1)
  }

  /** `FirstError` finds no error exactly when every record is good, and otherwise the first bad one. */
  lemma {:induction false} FirstErrorIsFirst(lines: seq<string>, k: nat)
    ensures FirstError(lines, k) == None <==> forall j :: k <= j < RecordCount(lines) ==> RecordError(lines, j) == None
    ensures FirstError(lines, k).Some? ==>
              exists j :: k <= j < RecordCount(lines) && RecordError(lines, j) == FirstError(lines, k) &&
                          forall i :: k <= i < j ==> RecordError(lines, i) == None
    decreases RecordCount(lines) - k
  {
    if k < RecordCount(lines) && RecordError(lines, k).None? {
      FirstErrorIsFirst(lines, k + 1);
      if FirstError(lines, k).Some? {
        var j :| k + 1 <= j < RecordCount(lines) && RecordError(lines, j) == FirstError(lines, k) &&
                 forall i :: k + 1 <= i < j ==> RecordError(lines, i) == None;
        assert forall i :: k <= i < j ==> RecordError(lines, i) == None;
      }
    }
  }

  /** The quality lines of the first `n` records. */
  function Qualities(lines: seq<string>, n: nat): (q: seq<string>)
    ensures |q| == n
    ensures forall k :: 0 <= k < n ==> q[k] == Line(lines, 4 * k + 3)
  {
    if n == 0 then [] else Qualities(lines, n - 1) + [Line(lines, 4 * (n - 1) + 3)]
  }

  /** The lengths of the sequence lines of the first `n` records, terminators included. */
  function SequenceLength(lines: seq<string>, n: nat): nat {
    if n == 0 then 0 else SequenceLength(lines, n - 1) + |Line(lines, 4 * (n - 1) + 1)|
  }

  /** Python's `sub in s` on strings. */
  predicate Contains(s: string, sub: string)
    decreases |s|
  {
    StartsWith(s, sub) || (s != [] && Contains(s[1..], sub))
  }

  /** The `stats` dictionary: "seq_retained_nts", "seq_retained_reads" and "seq_collapsed". */
  datatype Stats = Stats(retainedNts: nat, retainedReads: nat, collapsed: nat)

  /** What the first `n` records of a file of type `fileType` add to the statistics. */
  function Counted(stats: Stats, lines: seq<string>, fileType: string, n: nat): Stats {
    Stats(stats.retainedNts + SequenceLength(lines, n), stats.retainedReads + n,
          stats.collapsed + if Contains(fileType, "Collapsed") then n else 0)
  }

  /**
   * `_collect_qualities`: reads four lines per record until `readline()` gives "". It fails with
   * the error of the first bad record; otherwise it yields the quality line of every record, and
   * each record adds its sequence line's length and one read to `stats`, and one collapsed read
   * when the file type mentions "Collapsed".
   */
  method CollectQualities(lines: seq<string>, fileType: string, stats: Stats)
    returns (r: Result<seq<string>, FastqError>, stats': Stats)
    requires Readlines(lines)
    ensures r.Failure? <==> FirstError(lines, 0).Some?
    ensures r.Failure? ==> Some(r.error) == FirstError(lines, 0)
    ensures r.Success? ==> r.value == Qualities(lines, RecordCount(lines))
    ensures r.Success? ==> stats' == Counted(stats, lines, fileType, RecordCount(lines))
  {
    var k := 0;
    var qualities := [];
    stats' := stats;
    var header := Line(lines, 0);
    while header != ""
      invariant k <= RecordCount(lines)
      invariant header == Line(lines, 4 * k)
      invariant Collected(lines, fileType, stats, k, qualities, stats')
      decreases RecordCount(lines) - k
    {
      HeaderInRange(lines, k);
      var sequence, quality := Line(lines, 4 * k + 1), Line(lines, 4 * k + 3);
      var e := RecordError(lines, k);
      if e.Some? {
        assert Held(0);
        FirstErrorAt(lines, k);
        return Failure(e.value), stats';
      }
      CollectedNext(lines, fileType, stats, k, qualities, stats');
      stats' := Stats(stats'.retainedNts + |sequence|, stats'.retainedReads + 1,
                      stats'.collapsed + if Contains(fileType, "Collapsed") then 1 else 0);
      qualities := qualities + [quality];
      k := k + 1;
      header := Line(lines, 4 * k);
    }
    assert Held(0);
    FirstErrorIsFirst(lines, 0);
    r := Success(qualities);
  }

  /** Opens the facts the loops below carry sealed (so that the solver does not unfold them at every step). */
  ghost predicate Held(k: nat) { true }

  /** What the loop of `_collect_qualities` has done after `k` good records. */
  ghost predicate Collected(lines: seq<string>, fileType: string, stats: Stats, k: nat, qualities: seq<string>, stats': Stats) {
    forall h {:trigger Held(h)} :: Held(h) ==>
      && (forall j :: 0 <= j < k ==> RecordError(lines, j) == None)
      && qualities == Qualities(lines, k)
      && stats' == Counted(stats, lines, fileType, k)
  }

  /** One more good record keeps `Collected`. */
  lemma CollectedNext(lines: seq<string>, fileType: string, stats: Stats, k: nat, qualities: seq<string>, stats': Stats)
    requires Collected(lines, fileType, stats, k, qualities, stats') && RecordError(lines, k) == None
    ensures Collected(lines, fileType, stats, k + 1, qualities + [Line(lines, 4 * k + 3)],
                      Stats(stats'.retainedNts + |Line(lines, 4 * k + 1)|, stats'.retainedReads + 1,
                            stats'.collapsed + if Contains(fileType, "Collapsed") then 1 else 0))
  {
    assert Held(0);
  }

  /** A header line is read only while records remain. */
  lemma HeaderInRange(lines: seq<string>, k: nat)
    requires Line(lines, 4 * k) != ""
    ensures k < RecordCount(lines)
  {
  }

  /** When every record before `k` is good and record `k` is bad, the first error is record `k`'s. */
  lemma FirstErrorAt(lines: seq<string>, k: nat)
    requires k < RecordCount(lines)
    requires forall j :: 0 <= j < k ==> RecordError(lines, j) == None
    requires RecordError(lines, k).Some?
    ensures FirstError(lines, 0) == RecordError(lines, k)
  {
    FirstErrorIsFirst(lines, 0);
    var r := FirstError(lines, 0);
    var j :| 0 <= j < RecordCount(lines) && RecordError(lines, j) == r &&
             forall i :: 0 <= i < j ==> RecordError(lines, i) == None;
    assert !(j < k) && !(k < j);
  }

  /** A file is accepted record by record exactly when it has whole records of the right shape. */
  lemma RecordsWellFormed(lines: seq<string>)
    requires Readlines(lines)
    ensures FirstError(lines, 0) == None <==>
              && |lines| % 4 == 0
              && forall k :: 0 <= k < |lines| / 4 ==>
                   && StartsWith(lines[4 * k], "@")
                   && StartsWith(lines[4 * k + 2], "+")
                   && |lines[4 * k + 1]| == |lines[4 * k + 3]|
  {
    FirstErrorIsFirst(lines, 0);
    if |lines| % 4 != 0 {
      var k := |lines| / 4;
      assert k < RecordCount(lines) && Line(lines, 4 * k + 3) == "";
      assert RecordError(lines, k).Some?;
    } else {
      assert RecordCount(lines) == |lines| / 4;
      forall k | 0 <= k < |lines| / 4
        ensures RecordError(lines, k) == None <==>
                  && StartsWith(lines[4 * k], "@")
                  && StartsWith(lines[4 * k + 2], "+")
                  && |lines[4 * k + 1]| == |lines[4 * k + 3]|
      {
        assert Line(lines, 4 * k) == lines[4 * k] && Line(lines, 4 * k + 3) == lines[4 * k + 3];
        assert Line(lines, 4 * k + 1) == lines[4 * k + 1] && Line(lines, 4 * k + 2) == lines[4 * k + 2];
      }
    }
  }

  // ---------------------------------------------------------------------------
  // Quality offsets

  /** What `fastq.classify_quality_strings` reports about a set of quality strings. */
  datatype Offset = Offset33 | Offset64 | Ambiguous | Both | Missing

  datatype FastqFile = FastqFile(fileType: string, name: string, lines: seq<string>)

  /** Why `check_fastq_files` rejects a file. */
  datatype CheckError =
    | BadRecord(file: string, error: FastqError)
    | MixedOffsets(file: string)
    | NoQualities(file: string)
    | WrongOffset(file: string, found: Offset, required: Offset)

  /** The verdict on the offset `found` of a file whose qualities are `empty` or not. */
  function OffsetError(name: string, found: Offset, required: Offset, allowEmpty: bool, empty: bool): (e: Option<CheckError>)
    ensures e == None <==> (found == Missing && allowEmpty && empty) || found == Ambiguous || (found == required && found !in {Both, Missing})
  {
    if found == Both then Some(MixedOffsets(name))
    else if found == Missing then (if allowEmpty && empty then None else Some(NoQualities(name)))
    else if found != Ambiguous && found != required then Some(WrongOffset(name, found, required))
    else None
  }

  /** The qualities of a file whose records are all well formed. */
  function FileQualities(f: FastqFile): seq<string> {
    Qualities(f.lines, RecordCount(f.lines))
  }

  /** The error `check_fastq_files` reports for one file, if any. */
  function FileError(f: FastqFile, required: Offset, allowEmpty: bool, classify: seq<string> -> Offset): Option<CheckError> {
    match FirstError(f.lines, 0)
    case Some(e) => Some(BadRecord(f.name, e))
    case None => OffsetError(f.name, classify(FileQualities(f)), required, allowEmpty, FileQualities(f) == [])
  }

  /** A file `check_fastq_files` of pypeline leaves by returning at once: empty, and empty files allowed. */
  predicate Skipped(f: FastqFile, allowEmpty: bool, classify: seq<string> -> Offset) {
    FirstError(f.lines, 0) == None && allowEmpty && classify(FileQualities(f)) == Missing && FileQualities(f) == []
  }

  /** The statistics of files whose records are all well formed, each counted from 0. */
  function TotalStats(files: seq<FastqFile>): Stats {
    if files == [] then Stats(0, 0, 0)
    else
      var f := files[|files| - 1];
      Counted(TotalStats(files[..|files| - 1]), f.lines, f.fileType, RecordCount(f.lines))
  }

  /**
   * The body of the loop of `check_fastq_files` for one file: its qualities are collected, then
   * classified. `skip` says that the file is empty and allowed to be, the one case the two
   * versions of the loop treat differently.
   */
  method CheckFile(f: FastqFile, required: Offset, allowEmpty: bool, classify: seq<string> -> Offset, stats: Stats)
    returns (e: Option<CheckError>, skip: bool, stats': Stats)
    requires Readlines(f.lines)
    ensures e == FileError(f, required, allowEmpty, classify)
    ensures skip <==> Skipped(f, allowEmpty, classify)
    ensures e == None ==> stats' == Counted(stats, f.lines, f.fileType, RecordCount(f.lines))
  {
    var qualities;
    qualities, stats' := CollectQualities(f.lines, f.fileType, stats);
    if qualities.Failure? {
      return Some(BadRecord(f.name, qualities.error)), false, stats';
    }
    var found := classify(qualities.value);
    skip := false;
    if found == Both {
      e := Some(MixedOffsets(f.name));
    } else if found == Missing {
      if allowEmpty && qualities.value == [] {
        e, skip := None, true;
      } else {
        e := Some(NoQualities(f.name));
      }
    } else if found != Ambiguous && found != required {
      e := Some(WrongOffset(f.name, found, required));
    } else {
      e := None;
    }
  }

  /**
   * `check_fastq_files` (paleomix/nodes/validation.py): checks the files in order and fails with
   * the error of the first bad one; a file with mixed offsets, without qualities (unless it is
   * empty and `allowEmpty` holds) or with an offset other than the required one is bad. An empty
   * file that is allowed is skipped and the files after it are still checked. On success the
   * statistics of every file are returned.
   */
  method CheckFastqFiles(files: seq<FastqFile>, required: Offset, allowEmpty: bool, classify: seq<string> -> Offset)
    returns (r: Result<Stats, CheckError>)
    requires forall i :: 0 <= i < |files| ==> Readlines(files[i].lines)
    ensures r.Success? <==> forall i :: 0 <= i < |files| ==> FileError(files[i], required, allowEmpty, classify) == None
    ensures r.Failure? ==> exists i :: 0 <= i < |files| && FileError(files[i], required, allowEmpty, classify) == Some(r.error) &&
                                       forall j :: 0 <= j < i ==> FileError(files[j], required, allowEmpty, classify) == None
    ensures r.Success? ==> r.value == TotalStats(files)
  {
    var stats := Stats(0, 0, 0);
    var i := 0;
    while i < |files|
      invariant i <= |files|
      invariant Passed(files, i, required, allowEmpty, classify)
      invariant stats == TotalStats(files[..i])
    {
      assert files[..i + 1][..i] == files[..i];
      var e, _, stats' := CheckFile(files[i], required, allowEmpty, classify, stats);
      if e.Some? {
        assert Held(0);
        return Failure(e.value);
      }
      PassedNext(files, i, required, allowEmpty, classify);
      stats := stats';
      i := i + 1;
    }
    assert Held(0);
    assert files[..i] == files;
    return Success(stats);
  }

  /** Every file before the `i`-th is good. */
  ghost predicate Passed(files: seq<FastqFile>, i: nat, required: Offset, allowEmpty: bool, classify: seq<string> -> Offset) {
    && i <= |files|
    && forall h {:trigger Held(h)} :: Held(h) ==>
         forall j :: 0 <= j < i ==> FileError(files[j], required, allowEmpty, classify) == None
  }

  /** One more good file keeps `Passed`. */
  lemma PassedNext(files: seq<FastqFile>, i: nat, required: Offset, allowEmpty: bool, classify: seq<string> -> Offset)
    requires Passed(files, i, required, allowEmpty, classify) && i < |files|
    requires FileError(files[i], required, allowEmpty, classify) == None
    ensures Passed(files, i + 1, required, allowEmpty, classify)
  {
    assert Held(0);
  }

  /** The index of the first file pypeline's `check_fastq_files` returns at, or the number of files. */
  function FirstSkipped(files: seq<FastqFile>, allowEmpty: bool, classify: seq<string> -> Offset): (n: nat)
    ensures n <= |files|
    ensures forall j :: 0 <= j < n ==> !Skipped(files[j], allowEmpty, classify)
    ensures n < |files| ==> Skipped(files[n], allowEmpty, classify)
  {
    if files == [] then 0
    else if Skipped(files[0], allowEmpty, classify) then 0
    else
      var n := FirstSkipped(files[1..], allowEmpty, classify);
      assert forall j :: 1 <= j <= n && j < |files| ==> files[j] == files[1..][j - 1];
      1 + n
  }

  /**
   * `check_fastq_files` (pypeline/nodes/validation.py): as above, without statistics, but the
   * first empty file that is allowed ends the check: the files after it are not looked at.
   */
  method CheckFastqFilesLegacy(files: seq<FastqFile>, required: Offset, allowEmpty: bool, classify: seq<string> -> Offset)
    returns (r: Outcome<CheckError>)
    requires forall i :: 0 <= i < |files| ==> Readlines(files[i].lines)
    ensures r.Pass? <==> forall i :: 0 <= i < FirstSkipped(files, allowEmpty, classify) ==>
                                     FileError(files[i], required, allowEmpty, classify) == None
    ensures r.Fail? ==> exists i :: 0 <= i < FirstSkipped(files, allowEmpty, classify) &&
                                    FileError(files[i], required, allowEmpty, classify) == Some(r.error) &&
                                    forall j :: 0 <= j < i ==> FileError(files[j], required, allowEmpty, classify) == None
  {
    var i := 0;
    while i < |files|
      invariant i <= FirstSkipped(files, allowEmpty, classify)
      invariant forall j :: 0 <= j < i ==> FileError(files[j], required, allowEmpty, classify) == None
    {
      var e, skip, _ := CheckFile(files[i], required, allowEmpty, classify, Stats(0, 0, 0));
      if e.Some? {
        return Fail(e.value);
      } else if skip {
        return Pass;
      }
      i := i + 1;
    }
    return Pass;
  }

  /**
   * The two versions disagree: with empty files allowed, an empty file followed by a file whose
   * qualities mix both offsets passes pypeline's check but fails paleomix's.
   */
  lemma LegacySkipsLaterFiles()
    ensures var files := [FastqFile("Single", "empty.fq", []), FastqFile("Single", "mixed.fq", ["@r\n", "AC\n", "+\n", "!h\n"])];
            var classify := (q: seq<string>) => if q == [] then Missing else Both;
            && FirstSkipped(files, true, classify) == 0
            && FileError(files[1], Offset33, true, classify) == Some(MixedOffsets("mixed.fq"))
  {
    var files := [FastqFile("Single", "empty.fq", []), FastqFile("Single", "mixed.fq", ["@r\n", "AC\n", "+\n", "!h\n"])];
    var classify := (q: seq<string>) => if q == [] then Missing else Both;
    assert FileQualities(files[0]) == [];
    assert Skipped(files[0], true, classify);
    var lines := files[1].lines;
    assert RecordCount(lines) == 1;
    assert RecordError(lines, 0) == None;
    assert FileQualities(files[1]) == ["!h\n"];
  }
}
