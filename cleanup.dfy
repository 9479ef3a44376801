/**
 * `paleomix cleanup` (paleomix/tools/cleanup.py): the header updates made before the records are
 * written, the per-record clean-up that makes mate information and the fields of unmapped reads
 * follow section 1.4 of the SAM specification, and the filters applied to each cleaned record.
 * A pysam record is a `Segment` object whose fields the clean-up assigns; the header dict is a
 * `Header` object.
 */
module Cleanup {
  import opened Wrappers
  import opened Text

  // ---------------------------------------------------------------------------
  // Flags

  /**
   * A flag word is the set of its bits, given by position: bit `i` stands for the value `1 << i`.
   * The source's `a & b`, `a | b` and `a & ~b` on non-negative flag words are `a * b`, `a + b`
   * and `a - b` on these sets.
   */
  type Flags = set<nat>

  const Paired: nat := 0          // 0x1
  const ProperPair: nat := 1      // 0x2
  const Unmapped: nat := 2        // 0x4
  const MateUnmapped: nat := 3    // 0x8
  const MateReverse: nat := 5     // 0x20
  const FirstMate: nat := 6       // 0x40
  const LastMate: nat := 7        // 0x80
  const Secondary: nat := 8       // 0x100
  const Supplementary: nat := 11  // 0x800

  /** 0xEA: the flags that say nothing unless 0x1 is set; `_SE_FLAGS_MASK` is their complement. */
  const PairedOnlyFlags: Flags := {ProperPair, MateUnmapped, MateReverse, FirstMate, LastMate}

  /** 0x902: properly aligned, secondary and supplementary. */
  const UnmappedClears: Flags := {ProperPair, Secondary, Supplementary}

  /** `x & _SE_FLAGS_MASK`. */
  function SeMasked(x: Flags): Flags {
    x - PairedOnlyFlags
  }

  predicate IsPaired(flag: Flags) { Paired in flag }
  predicate IsUnmapped(flag: Flags) { Unmapped in flag }
  predicate MateIsUnmapped(flag: Flags) { MateUnmapped in flag }

  // ---------------------------------------------------------------------------
  // Records

  /** An optional field of a record: its tag, its value and its value type. */
  datatype Tag = Tag(name: string, value: string, valueType: char)

  /** One CIGAR operation and its length. */
  datatype CigarOp = CigarOp(op: nat, length: nat)

  /** The fields of a record the clean-up reads or assigns. */
  datatype Alignment = Alignment(flag: Flags, tid: int, pos: int, rnext: int, pnext: int, tlen: int,
                                 mapq: nat, cigar: Option<seq<CigarOp>>, tags: seq<Tag>)

  /** The tags other than those named `name`, in order. */
  function Without(tags: seq<Tag>, name: string): (r: seq<Tag>)
    ensures forall t :: t in r <==> t in tags && t.name != name
    ensures |r| <= |tags|
  {
    if tags == [] then []
    else (if tags[0].name != name then [tags[0]] else []) + Without(tags[1..], name)
  }

  /** The tags named `name`. */
  function Named(tags: seq<Tag>, name: string): seq<Tag> {
    if tags == [] then []
    else (if tags[0].name == name then [tags[0]] else []) + Named(tags[1..], name)
  }

  /** A pysam record. */
  class Segment {
    var flag: Flags
    var tid: int
    var pos: int
    var rnext: int
    var pnext: int
    var tlen: int
    var mapq: nat
    var cigar: Option<seq<CigarOp>>
    var tags: seq<Tag>

    constructor (a: Alignment)
      ensures Value() == a
    {
      flag, tid, pos, rnext, pnext, tlen := a.flag, a.tid, a.pos, a.rnext, a.pnext, a.tlen;
      mapq, cigar, tags := a.mapq, a.cigar, a.tags;
    }

    function Value(): Alignment
      reads this
    {
      Alignment(flag, tid, pos, rnext, pnext, tlen, mapq, cigar, tags)
    }
  }

  /** The record `_cleanup_record` leaves, as a function of the record it is given. */
  function Cleaned(a: Alignment): Alignment {
    var b :=
      if !IsPaired(a.flag) then a.(flag := a.flag - PairedOnlyFlags, rnext := -1, pnext := -1, tlen := 0)
      else if MateIsUnmapped(a.flag) && Named(a.tags, "MC") != [] then a.(tags := Without(a.tags, "MC"))
      else a;
    if IsUnmapped(b.flag) then
      var c := b.(mapq := 0, cigar := None, flag := b.flag - UnmappedClears);
      var d := if MateIsUnmapped(c.flag) then c.(rnext := -1, pnext := -1) else c;
      d.(tid := d.rnext, pos := d.pnext, tlen := 0)
    else if MateIsUnmapped(b.flag) then b.(rnext := b.tid, pnext := b.pos, tlen := 0)
    else b
  }

  /** `_cleanup_record`: makes the flags and mate fields of the record consistent, in place. */
  method CleanupRecord(r: Segment)
    modifies r
    ensures r.Value() == Cleaned(old(r.Value()))
  {
    if !IsPaired(r.flag) {
      r.flag := r.flag - PairedOnlyFlags;
      r.rnext := -1;
      r.pnext := -1;
      r.tlen := 0;
    } else if MateIsUnmapped(r.flag) && Named(r.tags, "MC") != [] {
      r.tags := Without(r.tags, "MC");
    }

    if IsUnmapped(r.flag) {
      r.mapq := 0;
      r.cigar := None;
      r.flag := r.flag - UnmappedClears;
      if MateIsUnmapped(r.flag) {
        r.rnext := -1;
        r.pnext := -1;
      }
      r.tid := r.rnext;
      r.pos := r.pnext;
      r.tlen := 0;
    } else if MateIsUnmapped(r.flag) {
      r.rnext := r.tid;
      r.pnext := r.pos;
      r.tlen := 0;
    }
  }

  /** A read that is not paired loses every paired-only flag and all mate information. */
  lemma CleanedUnpaired(a: Alignment)
    requires !IsPaired(a.flag)
    ensures var c := Cleaned(a);
            c.flag * PairedOnlyFlags == {} && c.rnext == -1 && c.pnext == -1 && c.tlen == 0
    ensures IsUnmapped(a.flag) ==> Cleaned(a).tid == -1 && Cleaned(a).pos == -1
  {
  }

  /**
   * An unmapped read gets mapping quality 0, no CIGAR, loses flags 0x2, 0x100 and 0x800, and is
   * placed with its mate (nowhere when the mate is unmapped too).
   */
  lemma CleanedUnmapped(a: Alignment)
    requires IsUnmapped(a.flag)
    ensures var c := Cleaned(a);
            && c.mapq == 0 && c.cigar == None && c.flag * UnmappedClears == {} && c.tlen == 0
            && c.tid == c.rnext && c.pos == c.pnext
            && (MateIsUnmapped(a.flag) ==> c.rnext == -1 && c.pnext == -1)
            && (IsPaired(a.flag) && !MateIsUnmapped(a.flag) ==> c.tid == a.rnext && c.pos == a.pnext)
  {
  }

  /** A mapped read whose mate is unmapped points its mate fields at itself, and a paired one loses its MC tags. */
  lemma CleanedMateUnmapped(a: Alignment)
    requires !IsUnmapped(a.flag) && IsPaired(a.flag) && MateIsUnmapped(a.flag)
    ensures var c := Cleaned(a);
            && c.rnext == a.tid && c.pnext == a.pos && c.tlen == 0
            && c.tid == a.tid && c.pos == a.pos && c.mapq == a.mapq && c.flag == a.flag
            && Named(c.tags, "MC") == []
  {
    NamedWithout(a.tags, "MC");
  }

  /** A mapped read whose mate is mapped (or that is not paired) keeps its position, quality and CIGAR. */
  lemma CleanedMappedKeeps(a: Alignment)
    requires !IsUnmapped(a.flag)
    ensures var c := Cleaned(a);
            c.tid == a.tid && c.pos == a.pos && c.mapq == a.mapq && c.cigar == a.cigar && !IsUnmapped(c.flag)
  {
  }

  /** Removing the tags named `name` leaves none of them. */
  lemma {:induction false} NamedWithout(tags: seq<Tag>, name: string)
    ensures Named(Without(tags, name), name) == []
  {
    if tags != [] {
      NamedWithout(tags[1..], name);
      assert Without(tags, name) == (if tags[0].name != name then [tags[0]] else []) + Without(tags[1..], name);
      NamedAppend(if tags[0].name != name then [tags[0]] else [], Without(tags[1..], name), name);
    }
  }

  lemma {:induction false} NamedAppend(s: seq<Tag>, t: seq<Tag>, name: string)
    ensures Named(s + t, name) == Named(s, name) + Named(t, name)
  {
    if s != [] {
      NamedAppend(s[1..], t, name);
      var head := if s[0].name == name then [s[0]] else [];
      assert (s + t)[0] == s[0] && (s + t)[1..] == s[1..] + t;
      calc {
        Named(s + t, name);
        head + Named(s[1..] + t, name);
        head + (Named(s[1..], name) + Named(t, name));
        (head + Named(s[1..], name)) + Named(t, name);
        Named(s, name) + Named(t, name);
      }
    } else {
      assert s + t == t;
    }
  }

  /** Cleaning a cleaned record changes nothing: `Cleaned` yields records already in normal form. */
  lemma CleanedIdempotent(a: Alignment)
    ensures Cleaned(Cleaned(a)) == Cleaned(a)
  {
    var c := Cleaned(a);
    assert IsPaired(c.flag) == IsPaired(a.flag);
    assert IsUnmapped(c.flag) == IsUnmapped(a.flag);
    if !IsPaired(a.flag) {
      assert c.flag - PairedOnlyFlags == c.flag;
    } else if MateIsUnmapped(a.flag) {
      assert MateIsUnmapped(c.flag);
      NamedWithout(a.tags, "MC");
      assert Named(c.tags, "MC") == [];
    } else {
      assert !MateIsUnmapped(c.flag);
    }
  }

  // ---------------------------------------------------------------------------
  // Filtering

  /** The command-line options the record loop reads. */
  datatype Args = Args(excludeFlags: Flags, requireFlags: Flags, minQuality: int, rgId: Option<string>,
                       rg: seq<string>, updatePgTag: seq<string>)

  /** `_filter_record`: for a read that is not paired, the paired-only flags are dropped from both masks. */
  predicate FilterRecord(excludeFlags: Flags, requireFlags: Flags, flag: Flags) {
    var exclude := if IsPaired(flag) then excludeFlags else SeMasked(excludeFlags);
    var require := if IsPaired(flag) then requireFlags else SeMasked(requireFlags);
    if flag * exclude != {} then true
    else if require - (flag * require) != {} then true
    else false
  }

  /** A record is filtered exactly when it has an excluded flag or lacks a required one. */
  lemma FilterRecordIff(excludeFlags: Flags, requireFlags: Flags, flag: Flags)
    ensures FilterRecord(excludeFlags, requireFlags, flag) <==>
              if IsPaired(flag) then (exists b :: b in flag && b in excludeFlags) || !(requireFlags <= flag)
              else (exists b :: b in flag && b in excludeFlags && b !in PairedOnlyFlags) ||
                   !(requireFlags - PairedOnlyFlags <= flag)
  {
    var exclude := if IsPaired(flag) then excludeFlags else SeMasked(excludeFlags);
    var require := if IsPaired(flag) then requireFlags else SeMasked(requireFlags);
    if flag * exclude != {} {
      var b :| b in flag * exclude;
    }
    if require - (flag * require) != {} {
      var b :| b in require - (flag * require);
    }
    if !(require <= flag) {
      var b :| b in require && b !in flag;
      assert b in require - (flag * require);
    }
    if exists b :: b in flag && b in excludeFlags && (IsPaired(flag) || b !in PairedOnlyFlags) {
      var b :| b in flag && b in excludeFlags && (IsPaired(flag) || b !in PairedOnlyFlags);
      assert b in flag * exclude;
    }
  }

  /** For a read that is not paired, paired-only flags in either option make no difference. */
  lemma FilterIgnoresPairedOnlyFlags(excludeFlags: Flags, requireFlags: Flags, flag: Flags, extra: Flags)
    requires !IsPaired(flag) && extra <= PairedOnlyFlags
    ensures FilterRecord(excludeFlags + extra, requireFlags + extra, flag) == FilterRecord(excludeFlags, requireFlags, flag)
  {
    assert SeMasked(excludeFlags + extra) == SeMasked(excludeFlags);
    assert SeMasked(requireFlags + extra) == SeMasked(requireFlags);
  }

  /** With neither option set nothing is filtered, so `filter_by_flag` only saves work. */
  lemma NoFlagsNoFilter(flag: Flags)
    ensures !FilterRecord({}, {}, flag)
  {
  }

  // ---------------------------------------------------------------------------
  // The header

  /** One header line (`@HD`, a `@PG` entry or an `@RG` entry) as a dict of its fields. */
  type Fields = map<string, string>

  /** The parts of the header dict the clean-up touches; `None` for a key the dict lacks. */
  datatype HeaderValue = HeaderValue(hd: Option<Fields>, pg: Option<seq<Fields>>, rg: Option<seq<Fields>>)

  /** A BAM header. */
  class Header {
    var hd: Option<Fields>
    var pg: Option<seq<Fields>>
    var rg: Option<seq<Fields>>

    constructor (h: HeaderValue)
      ensures Value() == h
    {
      hd, pg, rg := h.hd, h.pg, h.rg;
    }

    function Value(): HeaderValue
      reads this
    {
      HeaderValue(hd, pg, rg)
    }

    /** `_set_sort_order`. */
    method SetSortOrder()
      modifies this
      ensures hd == Some(SortedHd(old(hd)))
      ensures pg == old(pg) && rg == old(rg)
    {
      var d := if hd.Some? then hd.value else map["GO" := "none", "VN" := "1.0"];
      hd := Some(d["SO" := "coordinate"]);
    }

    /**
     * `_set_pg_tags`: for each "ID:TAG:VALUE", sets TAG of the first PG entry whose ID matches,
     * or appends a new entry. A tag that does not split into three parts raises; the tags before
     * it have been applied by then.
     */
    method SetPgTags(tags: seq<string>) returns (ok: bool)
      modifies this
      ensures (pg, ok) == PgTags(old(pg), tags)
      ensures hd == old(hd) && rg == old(rg)
    {
      for t := 0 to |tags|
        invariant PgTags(old(pg), tags) == PgTags(pg, tags[t..])
        invariant hd == old(hd) && rg == old(rg)
      {
        assert tags[t..][1..] == tags[t + 1..];
        var parts := Split(tags[t], ':');
        if |parts| != 3 {
          return false;
        }
        var id, field, value := parts[0], parts[1], parts[2];
        var entries := if pg.Some? then pg.value else [];
        var i := 0;
        while i < |entries|
          invariant i <= |entries|
          invariant forall j :: 0 <= j < i ==> !HasId(entries[j], id)
        {
          if HasId(entries[i], id) {
            break;
          }
          i := i + 1;
        }
        FirstIdUnique(entries, id, i);
        if i < |entries| {
          entries := entries[i := entries[i][field := value]];
        } else {
          entries := entries + [map["ID" := id][field := value]];
        }
        pg := Some(entries);
      }
      return true;
    }

    /** `_set_rg_tags`: replaces the read groups by one, built from `rgId` and each "TAG:VALUE". */
    method SetRgTags(rgId: string, tags: seq<string>) returns (ok: bool)
      modifies this
      ensures ok <==> RgFields(rgId, tags).Some?
      ensures ok ==> rg == Some([RgFields(rgId, tags).value])
      ensures !ok ==> rg == old(rg)
      ensures hd == old(hd) && pg == old(pg)
    {
      var readgroup := map["ID" := rgId];
      for t := 0 to |tags|
        invariant RgFields(rgId, tags) == RgFrom(readgroup, tags[t..])
      {
        assert tags[t..][1..] == tags[t + 1..];
        var parts := Split(tags[t], ':');
        if |parts| != 2 {
          return false;
        }
        readgroup := readgroup[parts[0] := parts[1]];
      }
      rg := Some([readgroup]);
      return true;
    }
  }

  /** The `HD` line after `_set_sort_order`. */
  function SortedHd(hd: Option<Fields>): Fields {
    (if hd.Some? then hd.value else map["GO" := "none", "VN" := "1.0"])["SO" := "coordinate"]
  }

  /** The header is marked as sorted by coordinate; the other fields of an existing `HD` line are kept. */
  lemma SortedHdKeeps(hd: Option<Fields>)
    ensures SortedHd(hd)["SO"] == "coordinate"
    ensures hd.Some? ==> forall k :: k in hd.value && k != "SO" ==> k in SortedHd(hd) && SortedHd(hd)[k] == hd.value[k]
    ensures hd.Some? ==> SortedHd(hd).Keys == hd.value.Keys + {"SO"}
    ensures hd.None? ==> SortedHd(hd) == map["GO" := "none", "VN" := "1.0", "SO" := "coordinate"]
  {
  }

  /** `pg_dict.get("ID") == pg_id`. */
  predicate HasId(entry: Fields, id: string) {
    "ID" in entry && entry["ID"] == id
  }

  /** The index of the first entry with ID `id`, or the number of entries. */
  function FirstId(entries: seq<Fields>, id: string): (i: nat)
    ensures i <= |entries|
    ensures forall j :: 0 <= j < i ==> !HasId(entries[j], id)
    ensures i < |entries| ==> HasId(entries[i], id)
  {
    if entries == [] then 0
    else if HasId(entries[0], id) then 0
    else
      var i := FirstId(entries[1..], id);
      assert forall j :: 1 <= j <= i ==> entries[j] == entries[1..][j - 1];
      1 + i
  }

  /** The index a scan stops at, skipping non-matching entries, is `FirstId`. */
  lemma FirstIdUnique(entries: seq<Fields>, id: string, i: nat)
    requires i <= |entries| && forall j :: 0 <= j < i ==> !HasId(entries[j], id)
    requires i < |entries| ==> HasId(entries[i], id)
    ensures i == FirstId(entries, id)
  {
  }

  /** The PG entries after one "ID:TAG:VALUE" update. */
  function PgUpdate(entries: seq<Fields>, id: string, field: string, value: string): seq<Fields> {
    var i := FirstId(entries, id);
    if i < |entries| then entries[i := entries[i][field := value]] else entries + [map["ID" := id][field := value]]
  }

  /** The PG list and whether every tag was well formed, after `_set_pg_tags`. */
  function PgTags(pg: Option<seq<Fields>>, tags: seq<string>): (Option<seq<Fields>>, bool)
    decreases |tags|
  {
    if tags == [] then (pg, true)
    else
      var parts := Split(tags[0], ':');
      if |parts| != 3 then (pg, false)
      else PgTags(Some(PgUpdate(if pg.Some? then pg.value else [], parts[0], parts[1], parts[2])), tags[1..])
  }

  /**
   * One update sets the field in the first entry with that ID, or appends `{ID, TAG: VALUE}`
   * when there is none; no other entry changes.
   */
  lemma PgUpdateOnlyFirstMatch(entries: seq<Fields>, id: string, field: string, value: string)
    ensures var r := PgUpdate(entries, id, field, value);
            var i := FirstId(entries, id);
            && |r| == (if i < |entries| then |entries| else |entries| + 1)
            && r[i] == (if i < |entries| then entries[i] else map["ID" := id])[field := value]
            && (forall j :: 0 <= j < |entries| && j != i ==> r[j] == entries[j])
            && (forall j :: 0 <= j < i ==> !HasId(entries[j], id))
  {
  }

  /** `_set_pg_tags` succeeds exactly when every tag has three parts; no tag leaves PG absent. */
  lemma {:induction false} PgTagsOk(pg: Option<seq<Fields>>, tags: seq<string>)
    decreases |tags|
    ensures PgTags(pg, tags).1 <==> forall t :: 0 <= t < |tags| ==> |Split(tags[t], ':')| == 3
    ensures PgTags(pg, tags).1 && tags != [] ==> PgTags(pg, tags).0.Some?
    ensures tags == [] ==> PgTags(pg, tags).0 == pg
  {
    if tags != [] && |Split(tags[0], ':')| == 3 {
      var parts := Split(tags[0], ':');
      PgTagsOk(Some(PgUpdate(if pg.Some? then pg.value else [], parts[0], parts[1], parts[2])), tags[1..]);
      assert forall t :: 1 <= t < |tags| ==> tags[t] == tags[1..][t - 1];
    }
  }

  /** The read group dict built from `readgroup` and the remaining "TAG:VALUE"s; `None` if one does not split in two. */
  function RgFrom(readgroup: Fields, tags: seq<string>): Option<Fields>
    decreases |tags|
  {
    if tags == [] then Some(readgroup)
    else
      var parts := Split(tags[0], ':');
      if |parts| != 2 then None else RgFrom(readgroup[parts[0] := parts[1]], tags[1..])
  }

  function RgFields(rgId: string, tags: seq<string>): Option<Fields> {
    RgFrom(map["ID" := rgId], tags)
  }

  /** The fields no tag sets keep their value; a tag setting "ID" overrides `rgId`. */
  lemma {:induction false} RgFromKeeps(readgroup: Fields, tags: seq<string>, k: string)
    decreases |tags|
    requires RgFrom(readgroup, tags).Some?
    requires k in readgroup && forall t :: 0 <= t < |tags| ==> Split(tags[t], ':')[0] != k
    ensures k in RgFrom(readgroup, tags).value && RgFrom(readgroup, tags).value[k] == readgroup[k]
  {
    if tags != [] {
      var parts := Split(tags[0], ':');
      assert parts[0] != k;
      assert forall t :: 0 <= t < |tags| - 1 ==> tags[1..][t] == tags[t + 1];
      RgFromKeeps(readgroup[parts[0] := parts[1]], tags[1..], k);
    }
  }

  /** The single read group's ID is `rgId` unless some tag sets the ID itself. */
  lemma RgIdKept(rgId: string, tags: seq<string>)
    requires RgFields(rgId, tags).Some?
    requires forall t :: 0 <= t < |tags| ==> Split(tags[t], ':')[0] != "ID"
    ensures HasId(RgFields(rgId, tags).value, rgId)
  {
    RgFromKeeps(map["ID" := rgId], tags, "ID");
  }

  /** `_set_rg_tags` succeeds exactly when every tag has two parts. */
  lemma {:induction false} RgFromOk(readgroup: Fields, tags: seq<string>)
    decreases |tags|
    ensures RgFrom(readgroup, tags).Some? <==> forall t :: 0 <= t < |tags| ==> |Split(tags[t], ':')| == 2
  {
    if tags != [] && |Split(tags[0], ':')| == 2 {
      var parts := Split(tags[0], ':');
      RgFromOk(readgroup[parts[0] := parts[1]], tags[1..]);
      assert forall t :: 1 <= t < |tags| ==> tags[t] == tags[1..][t - 1];
    }
  }

  // ---------------------------------------------------------------------------
  // _cleanup_unmapped

  /** Why the header could not be updated: a `--update-pg-tag` or `--rg` value of the wrong shape. */
  datatype TagError = BadPgTag | BadRgTag

  /** The header written, or the error raised while building it. */
  function HeaderAfter(args: Args, h: HeaderValue): Result<HeaderValue, TagError> {
    var pg := PgTags(h.pg, args.updatePgTag);
    if !pg.1 then Failure(BadPgTag)
    else if args.rgId.None? then Success(HeaderValue(Some(SortedHd(h.hd)), pg.0, h.rg))
    else if RgFields(args.rgId.value, args.rg).None? then Failure(BadRgTag)
    else Success(HeaderValue(Some(SortedHd(h.hd)), pg.0, Some([RgFields(args.rgId.value, args.rg).value])))
  }

  /** Whether the loop drops the cleaned record `c`. */
  predicate Dropped(args: Args, c: Alignment) {
    if !IsUnmapped(c.flag) && c.mapq < args.minQuality then true
    else (args.excludeFlags != {} || args.requireFlags != {}) && FilterRecord(args.excludeFlags, args.requireFlags, c.flag)
  }

  /** The cleaned record as written: with `--rg-id`, its RG tags replaced by one. */
  function Written(args: Args, c: Alignment): Alignment {
    if args.rgId.Some? then c.(tags := Without(c.tags, "RG") + [Tag("RG", args.rgId.value, 'Z')]) else c
  }

  /** The records written for the records read. */
  function Kept(args: Args, input: seq<Alignment>): seq<Alignment> {
    if input == [] then []
    else
      var c := Cleaned(input[0]);
      (if Dropped(args, c) then [] else [Written(args, c)]) + Kept(args, input[1..])
  }

  /**
   * `_cleanup_unmapped`: builds the output header (sorted, PG tags updated, read group replaced
   * when `--rg-id` is given), then cleans each record and writes those that pass the filters.
   */
  method CleanupUnmapped(args: Args, inputHeader: HeaderValue, input: seq<Alignment>)
    returns (r: Result<(HeaderValue, seq<Alignment>), TagError>)
    ensures HeaderAfter(args, inputHeader).Failure? ==> r == Failure(HeaderAfter(args, inputHeader).error)
    ensures HeaderAfter(args, inputHeader).Success? ==> r == Success((HeaderAfter(args, inputHeader).value, Kept(args, input)))
  {
    var header := OutputHeader(args, inputHeader);
    if header.Failure? {
      return Failure(header.error);
    }
    var output := CleanRecords(args, input);
    return Success((header.value, output));
  }

  /** The record loop of `_cleanup_unmapped`. */
  method CleanRecords(args: Args, input: seq<Alignment>) returns (output: seq<Alignment>)
    ensures output == Kept(args, input)
  {
    output := [];
    for i := 0 to |input|
      invariant output + Kept(args, input[i..]) == Kept(args, input)
    {
      output := CleanNext(args, input[i..], output);
      assert input[i..][1..] == input[i + 1..];
    }
    assert input[|input|..] == [];
  }

  /** One turn of the record loop: `output` gains what the first record of `rest` contributes. */
  method CleanNext(args: Args, rest: seq<Alignment>, output: seq<Alignment>) returns (next: seq<Alignment>)
    requires rest != []
    ensures next + Kept(args, rest[1..]) == output + Kept(args, rest)
  {
    var keep, record := CleanupAndFilter(args, rest[0]);
    var head := if keep then [record] else [];
    assert Kept(args, rest) == head + Kept(args, rest[1..]);
    next := output + head;
  }

  /** The header part of `_cleanup_unmapped`: a copy of the input header, updated. */
  method OutputHeader(args: Args, inputHeader: HeaderValue) returns (r: Result<HeaderValue, TagError>)
    ensures r == HeaderAfter(args, inputHeader)
  {
    var header := new Header(inputHeader);
    header.SetSortOrder();
    var ok := header.SetPgTags(args.updatePgTag);
    if !ok {
      return Failure(BadPgTag);
    }
    if args.rgId.Some? {
      ok := header.SetRgTags(args.rgId.value, args.rg);
      if !ok {
        return Failure(BadRgTag);
      }
    }
    return Success(header.Value());
  }

  /** The body of the record loop of `_cleanup_unmapped`: cleans one record, then decides whether to write it. */
  method CleanupAndFilter(args: Args, a: Alignment) returns (keep: bool, w: Alignment)
    ensures keep <==> !Dropped(args, Cleaned(a))
    ensures keep ==> w == Written(args, Cleaned(a))
  {
    var filterByFlag := args.excludeFlags != {} || args.requireFlags != {};
    var record := new Segment(a);
    CleanupRecord(record);
    if !IsUnmapped(record.flag) && record.mapq < args.minQuality {
      return false, record.Value();
    } else if filterByFlag && FilterRecord(args.excludeFlags, args.requireFlags, record.flag) {
      return false, record.Value();
    }
    if args.rgId.Some? {
      record.tags := Without(record.tags, "RG") + [Tag("RG", args.rgId.value, 'Z')];
    }
    return true, record.Value();
  }

  /** Every record written is a cleaned input record that passes the filters. */
  lemma {:induction false} KeptAreCleaned(args: Args, input: seq<Alignment>)
    ensures |Kept(args, input)| <= |input|
    ensures forall c :: c in Kept(args, input) ==>
              exists i :: 0 <= i < |input| && !Dropped(args, Cleaned(input[i])) && c == Written(args, Cleaned(input[i]))
  {
    if input != [] {
      KeptAreCleaned(args, input[1..]);
      forall c | c in Kept(args, input)
        ensures exists i :: 0 <= i < |input| && !Dropped(args, Cleaned(input[i])) && c == Written(args, Cleaned(input[i]))
      {
        if c !in Kept(args, input[1..]) {
          assert c == Written(args, Cleaned(input[0]));
        } else {
          var i :| 0 <= i < |input[1..]| && !Dropped(args, Cleaned(input[1..][i])) && c == Written(args, Cleaned(input[1..][i]));
          assert input[1..][i] == input[i + 1];
        }
      }
    }
  }

  /** No mapped record below the minimum mapping quality is written. */
  lemma KeptQuality(args: Args, input: seq<Alignment>)
    ensures forall c :: c in Kept(args, input) && !IsUnmapped(c.flag) ==> c.mapq >= args.minQuality
  {
    KeptAreCleaned(args, input);
  }

  /** With `--rg-id`, every record written carries exactly one RG tag, naming that read group. */
  lemma KeptReadGroup(args: Args, input: seq<Alignment>)
    requires args.rgId.Some?
    ensures forall c :: c in Kept(args, input) ==> Named(c.tags, "RG") == [Tag("RG", args.rgId.value, 'Z')]
  {
    KeptAreCleaned(args, input);
    forall c | c in Kept(args, input) ensures Named(c.tags, "RG") == [Tag("RG", args.rgId.value, 'Z')] {
      var i :| 0 <= i < |input| && !Dropped(args, Cleaned(input[i])) && c == Written(args, Cleaned(input[i]));
      var tags := Cleaned(input[i]).tags;
      NamedWithout(tags, "RG");
      NamedAppend(Without(tags, "RG"), [Tag("RG", args.rgId.value, 'Z')], "RG");
    }
  }
}
