/**
 * The duplicate-read checks of both validation modules. Reads of a sorted BAM file are collected
 * per position, and per read name at that position; `_process_bam_reads` (paleomix) and
 * `_process_reads` (pypeline) then look, within each name, for records that agree on strand,
 * name, sequence and qualities. `_summarize_reads` describes a list of records by mate.
 * Reading the BAM files and merging them by position is not modelled: the records of one
 * position arrive as the values of the per-name dict, in the order the dict yields them.
 */
module Duplicates {
  import opened Wrappers
  import opened Text
  import Sequences
  import opened Grouping

  // ---------------------------------------------------------------------------
  // Reads and the keys they are compared by

  /** The fields of a pysam record the checks read. */
  datatype Read = Read(qname: string, isReverse: bool, bases: string, qual: string,
                       isPaired: bool, isRead1: bool, isRead2: bool)

  /** `(record.is_reverse, record.qname, record.seq, record.qual)`. */
  datatype ReadKey = ReadKey(isReverse: bool, name: string, bases: string, qual: string)

  function KeyOf(r: Read): ReadKey {
    ReadKey(r.isReverse, r.qname, r.bases, r.qual)
  }

  /** The sequence and qualities as read on the forward strand: reversed (and complemented) for a reverse read. */
  function Oriented(k: ReadKey): (sq: (string, string))
    ensures |sq.0| == |k.bases| && |sq.1| == |k.qual|
    ensures !k.isReverse ==> sq == (k.bases, k.qual)
    ensures k.isReverse ==> sq.0 == Sequences.ReverseComplement(k.bases) && sq.1 == Sequences.Reverse(k.qual)
  {
    if k.isReverse then (Sequences.ReverseComplement(k.bases), Sequences.Reverse(k.qual)) else (k.bases, k.qual)
  }

  /** The keys listed under more than one value, in the order the dict yields them. */
  function Shared<V>(d: map<ReadKey, seq<V>>, o: seq<ReadKey>): (r: seq<ReadKey>)
    requires forall k :: k in o ==> k in d
    ensures forall k :: k in r <==> k in o && |d[k]| != 1
  {
    if o == [] then [] else (if |d[o[0]]| != 1 then [o[0]] else []) + Shared(d, o[1..])
  }

  /** The keys that more than one record of a group holds. */
  function SharedOf<V>(ps: seq<(ReadKey, V)>): seq<ReadKey> {
    GroupIsSelect(ps);
    Shared(Group(ps), Order(ps))
  }

  /** A key is shared exactly when two of the pairs have it. */
  lemma SharedOfIff<V>(ps: seq<(ReadKey, V)>, k: ReadKey)
    ensures k in SharedOf(ps) <==> exists i, j :: 0 <= i < j < |ps| && ps[i].0 == k && ps[j].0 == k
  {
    GroupIsSelect(ps);
    SelectTwice(ps, k);
    SelectNonEmpty(ps, k);
  }

  // ---------------------------------------------------------------------------
  // _process_bam_reads (paleomix)

  /** What `err_func` is called with for one duplicated read. */
  datatype Duplicate = Duplicate(chrom: string, pos: int, records: map<string, seq<Read>>,
                                 name: string, bases: string, qual: string)

  /** `(key, (filename, record))` for each `(record, filename)` of one name. */
  function Keyed(group: seq<(Read, string)>): (ps: seq<(ReadKey, (string, Read))>)
    ensures |ps| == |group|
    ensures forall i :: 0 <= i < |group| ==> ps[i] == (KeyOf(group[i].0), (group[i].1, group[i].0))
  {
    seq(|group|, i requires 0 <= i < |group| => (KeyOf(group[i].0), (group[i].1, group[i].0)))
  }

  /** The report for key `k`, whose `(filename, record)` pairs are `members`. */
  function Reported(chrom: string, pos: int, k: ReadKey, members: seq<(string, Read)>): Duplicate {
    Duplicate(chrom, pos, Group(members), k.name, Oriented(k).0, Oriented(k).1)
  }

  /** The reports for the keys `o` of the dict `d`, skipping keys with a single record. */
  function KeyReports(chrom: string, pos: int, d: map<ReadKey, seq<(string, Read)>>, o: seq<ReadKey>): seq<Duplicate>
    requires forall k :: k in o ==> k in d
  {
    if o == [] then []
    else (if |d[o[0]]| != 1 then [Reported(chrom, pos, o[0], d[o[0]])] else []) + KeyReports(chrom, pos, d, o[1..])
  }

  /** One report per shared key, in order, each made from that key's records. */
  lemma {:induction false} KeyReportsShared(chrom: string, pos: int, d: map<ReadKey, seq<(string, Read)>>, o: seq<ReadKey>)
    requires forall k :: k in o ==> k in d
    ensures |KeyReports(chrom, pos, d, o)| == |Shared(d, o)|
    ensures forall i :: 0 <= i < |Shared(d, o)| ==>
              KeyReports(chrom, pos, d, o)[i] == Reported(chrom, pos, Shared(d, o)[i], d[Shared(d, o)[i]])
  {
    if o != [] {
      KeyReportsShared(chrom, pos, d, o[1..]);
    }
  }

  /** The reports for one read name: none when the name was seen once. */
  function GroupReports(chrom: string, pos: int, group: seq<(Read, string)>): seq<Duplicate> {
    if |group| == 1 then []
    else
      var ps := Keyed(group);
      GroupIsSelect(ps);
      KeyReports(chrom, pos, Group(ps), Order(ps))
  }

  /** The reports for every read name at one position, in the order the names are yielded. */
  function BamReports(chrom: string, pos: int, observed: seq<seq<(Read, string)>>): seq<Duplicate> {
    if observed == [] then [] else GroupReports(chrom, pos, observed[0]) + BamReports(chrom, pos, observed[1..])
  }

  /**
   * `_process_bam_reads`: for each read name seen more than once at the position, groups its
   * records by key and calls `err_func` once for each key held by more than one record, with the
   * records of that key per file and the sequence and qualities on the forward strand. The calls
   * made are returned, in order. `observed` lists the dict's values (never empty lists), and
   * `tid` names a reference whenever a record was seen.
   */
  method ProcessBamReads(observed: seq<seq<(Read, string)>>, references: seq<string>, pos: int, tid: int)
    returns (reports: seq<Duplicate>)
    requires observed != [] ==> 0 <= tid < |references|
    ensures observed != [] ==> reports == BamReports(references[tid], pos, observed)
    ensures observed == [] ==> reports == []
  {
    reports := [];
    ghost var chrom := if observed == [] then "" else references[tid];
    for i := 0 to |observed|
      invariant reports + BamReports(chrom, pos, observed[i..]) == BamReports(chrom, pos, observed)
    {
      assert observed[i..][1..] == observed[i + 1..];
      var found := NameReports(references[tid], pos, observed[i]);
      assert BamReports(chrom, pos, observed[i..]) == found + BamReports(chrom, pos, observed[i + 1..]);
      assert reports + (found + BamReports(chrom, pos, observed[i + 1..])) ==
             (reports + found) + BamReports(chrom, pos, observed[i + 1..]);
      reports := reports + found;
    }
    assert observed[|observed|..] == [];
  }

  /** The body of the outer loop of `_process_bam_reads`: the reports for one read name. */
  method NameReports(chrom: string, pos: int, group: seq<(Read, string)>) returns (found: seq<Duplicate>)
    ensures found == GroupReports(chrom, pos, group)
  {
    if |group| == 1 {
      return [];
    }
    var result, order := GroupPairs(Keyed(group));
    found := ReportKeys(chrom, pos, result, order);
  }

  /** The inner loop of `_process_bam_reads`: one call of `err_func` per key of `result` held by more than one record. */
  method ReportKeys(chrom: string, pos: int, result: map<ReadKey, seq<(string, Read)>>, order: seq<ReadKey>)
    returns (reports: seq<Duplicate>)
    requires forall k :: k in order ==> k in result
    ensures reports == KeyReports(chrom, pos, result, order)
  {
    reports := [];
    for j := 0 to |order|
      invariant reports + KeyReports(chrom, pos, result, order[j..]) == KeyReports(chrom, pos, result, order)
    {
      assert order[j..][1..] == order[j + 1..];
      reports := ReportKey(chrom, pos, result, order[j..], reports);
    }
    assert order[|order|..] == [];
  }

  /** One turn of the inner loop of `_process_bam_reads`: the report for the first key of `rest`, if it is shared. */
  method ReportKey(chrom: string, pos: int, result: map<ReadKey, seq<(string, Read)>>, rest: seq<ReadKey>,
                   reports: seq<Duplicate>)
    returns (next: seq<Duplicate>)
    requires rest != [] && forall k :: k in rest ==> k in result
    ensures next + KeyReports(chrom, pos, result, rest[1..]) == reports + KeyReports(chrom, pos, result, rest)
  {
    var key := rest[0];
    var members := result[key];
    var found := [];
    if |members| != 1 {
      var records, _ := GroupPairs(members);
      var sq := Oriented(key);
      found := [Duplicate(chrom, pos, records, key.name, sq.0, sq.1)];
    }
    assert KeyReports(chrom, pos, result, rest) == found + KeyReports(chrom, pos, result, rest[1..]);
    next := reports + found;
  }

  /** Reports are made for a name exactly for the keys two of its records share. */
  lemma ReportedKeys(group: seq<(Read, string)>, k: ReadKey)
    requires |group| != 1
    ensures k in SharedOf(Keyed(group)) <==>
              exists i, j :: 0 <= i < j < |group| && KeyOf(group[i].0) == k && KeyOf(group[j].0) == k
  {
    var ps := Keyed(group);
    SharedOfIff(ps, k);
    if exists i, j :: 0 <= i < j < |ps| && ps[i].0 == k && ps[j].0 == k {
      var i, j :| 0 <= i < j < |ps| && ps[i].0 == k && ps[j].0 == k;
      assert KeyOf(group[i].0) == k && KeyOf(group[j].0) == k;
    }
  }

  /** The report for a shared key lists, per file, exactly the records of that key from that file. */
  lemma ReportedRecords(chrom: string, pos: int, group: seq<(Read, string)>, k: ReadKey, f: string, r: Read)
    requires k in SharedOf(Keyed(group))
    ensures k in Group(Keyed(group))
    ensures var d := Reported(chrom, pos, k, Group(Keyed(group))[k]).records;
            f in d && r in d[f] <==> (r, f) in group && KeyOf(r) == k
  {
    var ps := Keyed(group);
    GroupIsSelect(ps);
    var members := Group(ps)[k];
    SelectMembers(ps, k);
    GroupIsSelect(members);
    SelectMembers(members, f);
    SelectNonEmpty(members, f);
    if (r, f) in group && KeyOf(r) == k {
      var i :| 0 <= i < |group| && group[i] == (r, f);
      assert ps[i] == (k, (f, r));
    }
    if (f, r) in members {
      var i :| 0 <= i < |ps| && ps[i] == (k, (f, r));
      assert group[i] == (r, f);
    }
  }

  /** Skipping a name seen once loses nothing: a single record shares its key with no other. */
  lemma SingleNameShortcut(group: seq<(Read, string)>)
    requires |group| == 1
    ensures SharedOf(Keyed(group)) == []
  {
    if SharedOf(Keyed(group)) != [] {
      SharedOfIff(Keyed(group), SharedOf(Keyed(group))[0]);
    }
  }

  // ---------------------------------------------------------------------------
  // _process_reads (pypeline)

  /** The duplicated read `_process_reads` raises about: its name, strand-corrected sequence and qualities, and how many copies each file holds. */
  datatype Finding = Finding(name: string, bases: string, qual: string, counts: map<string, nat>)

  /** `(key, filename)` for each `(record, filename)` of one name. */
  function KeyedNames(group: seq<(Read, string)>): (ps: seq<(ReadKey, string)>)
    ensures |ps| == |group|
    ensures forall i :: 0 <= i < |group| ==> ps[i] == (KeyOf(group[i].0), group[i].1)
  {
    seq(|group|, i requires 0 <= i < |group| => (KeyOf(group[i].0), group[i].1))
  }

  /** The finding for key `k`, whose records come from `filenames`. */
  function FindingFor(k: ReadKey, filenames: seq<string>): Finding {
    Finding(k.name, Oriented(k).0, Oriented(k).1, Tally(filenames))
  }

  /** The findings for the keys `o` of `d`, skipping keys with a single record. */
  function KeyFindings(d: map<ReadKey, seq<string>>, o: seq<ReadKey>): seq<Finding>
    requires forall k :: k in o ==> k in d
  {
    if o == [] then []
    else (if |d[o[0]]| != 1 then [FindingFor(o[0], d[o[0]])] else []) + KeyFindings(d, o[1..])
  }

  /** One finding per shared key, in order; the first made from the first shared key's records. */
  lemma {:induction false} KeyFindingsShared(d: map<ReadKey, seq<string>>, o: seq<ReadKey>)
    requires forall k :: k in o ==> k in d
    ensures |KeyFindings(d, o)| == |Shared(d, o)|
    ensures Shared(d, o) != [] ==> KeyFindings(d, o)[0] == FindingFor(Shared(d, o)[0], d[Shared(d, o)[0]])
  {
    if o != [] {
      KeyFindingsShared(d, o[1..]);
    }
  }

  function GroupFindings(group: seq<(Read, string)>): seq<Finding> {
    if |group| == 1 then []
    else
      var ps := KeyedNames(group);
      GroupIsSelect(ps);
      KeyFindings(Group(ps), Order(ps))
  }

  function Findings(observed: seq<seq<(Read, string)>>): seq<Finding> {
    if observed == [] then [] else GroupFindings(observed[0]) + Findings(observed[1..])
  }

  /**
   * `_process_reads`: like `_process_bam_reads`, but it raises at the first key held by more than
   * one record, reporting how many of those records each file holds.
   */
  method ProcessReads(observed: seq<seq<(Read, string)>>) returns (r: Option<Finding>)
    ensures r == None <==> Findings(observed) == []
    ensures r.Some? ==> r.value == Findings(observed)[0]
  {
    r := None;
    for i := 0 to |observed|
      invariant r == None && Findings(observed[i..]) == Findings(observed)
    {
      var group := observed[i];
      assert observed[i..][1..] == observed[i + 1..];
      if |group| == 1 {
        continue;
      }
      var result, order := GroupPairs(KeyedNames(group));
      r := FirstFinding(result, order);
      if r.Some? {
        return;
      }
    }
    assert observed[|observed|..] == [];
  }

  /** The inner loop of `_process_reads`: the first key of `result` held by more than one record, if any. */
  method FirstFinding(result: map<ReadKey, seq<string>>, order: seq<ReadKey>) returns (r: Option<Finding>)
    requires forall k :: k in order ==> k in result
    ensures r == None <==> KeyFindings(result, order) == []
    ensures r.Some? ==> r.value == KeyFindings(result, order)[0]
  {
    for j := 0 to |order|
      invariant KeyFindings(result, order[j..]) == KeyFindings(result, order)
    {
      assert order[j..][1..] == order[j + 1..];
      var key := order[j];
      var filenames := result[key];
      if |filenames| == 1 {
        continue;
      }
      var counts := TallyItems(filenames);
      var sq := Oriented(key);
      return Some(Finding(key.name, sq.0, sq.1, counts));
    }
    assert order[|order|..] == [];
    return None;
  }

  /** Two records of the group agree on strand, name, sequence and qualities. */
  predicate SharesKey(group: seq<(Read, string)>) {
    exists i, j :: 0 <= i < j < |group| && KeyOf(group[i].0) == KeyOf(group[j].0)
  }

  /** A name yields a finding exactly when two of its records agree on strand, name, sequence and qualities. */
  lemma GroupFindingsIff(group: seq<(Read, string)>)
    ensures GroupFindings(group) != [] <==> SharesKey(group)
  {
    if |group| != 1 {
      var ps := KeyedNames(group);
      GroupIsSelect(ps);
      KeyFindingsShared(Group(ps), Order(ps));
      assert GroupFindings(group) != [] <==> SharedOf(ps) != [];
      if SharedOf(ps) != [] {
        var k := SharedOf(ps)[0];
        SharedOfIff(ps, k);
        var i, j :| 0 <= i < j < |ps| && ps[i].0 == k && ps[j].0 == k;
        assert KeyOf(group[i].0) == KeyOf(group[j].0);
      }
      if SharesKey(group) {
        var i, j :| 0 <= i < j < |group| && KeyOf(group[i].0) == KeyOf(group[j].0);
        SharedOfIff(ps, ps[i].0);
      }
    }
  }

  /** `_process_reads` raises exactly when some name has two records that agree on strand, name, sequence and qualities. */
  lemma {:induction false} FindingsIff(observed: seq<seq<(Read, string)>>)
    ensures Findings(observed) != [] <==> exists n :: 0 <= n < |observed| && SharesKey(observed[n])
  {
    if observed != [] {
      FindingsIff(observed[1..]);
      GroupFindingsIff(observed[0]);
      if exists n :: 0 <= n < |observed| && SharesKey(observed[n]) {
        var n :| 0 <= n < |observed| && SharesKey(observed[n]);
        if n > 0 {
          assert observed[1..][n - 1] == observed[n];
        }
      }
      if exists n :: 0 <= n < |observed| - 1 && SharesKey(observed[1..][n]) {
        var n :| 0 <= n < |observed| - 1 && SharesKey(observed[1..][n]);
        assert observed[1..][n] == observed[n + 1];
      }
    }
  }

  /** The counts of a finding give, per file, how many of its records that file holds, and add up to at least two. */
  lemma FindingCounts(k: ReadKey, filenames: seq<string>, f: string)
    ensures f in FindingFor(k, filenames).counts <==> f in filenames
    ensures f in filenames ==> FindingFor(k, filenames).counts[f] == Occurrences(filenames, f)
  {
    TallyCounts(filenames);
  }

  // ---------------------------------------------------------------------------
  // _summarize_reads (paleomix)

  /** The three keys of `counts`; `sorted` visits them in the order declared here. */
  datatype Mate = Mate1 | Mate2 | Unpaired

  function MateOf(r: Read): Mate {
    if r.isPaired then (if r.isRead1 then Mate1 else if r.isRead2 then Mate2 else Unpaired) else Unpaired
  }

  function Label(m: Mate): string {
    match m
    case Mate1 => "mate 1"
    case Mate2 => "mate 2"
    case Unpaired => "unpaired"
  }

  /** How many of the records are of kind `m`. */
  function CountOf(records: seq<Read>, m: Mate): nat {
    if records == [] then 0
    else CountOf(records[..|records| - 1], m) + if MateOf(records[|records| - 1]) == m then 1 else 0
  }

  /** Every record counts under exactly one key. */
  lemma {:induction false} CountsAddUp(records: seq<Read>)
    ensures CountOf(records, Mate1) + CountOf(records, Mate2) + CountOf(records, Unpaired) == |records|
  {
    if records != [] {
      CountsAddUp(records[..|records| - 1]);
    }
  }

  /** "%i %s reads", "%i %s read", or nothing for a zero count. */
  function Part(n: nat, m: Mate): seq<string> {
    if n > 1 then [NatToString(n) + " " + Label(m) + " reads"]
    else if n == 1 then [NatToString(n) + " " + Label(m) + " read"]
    else []
  }

  /** `", ".join(parts)`. */
  function JoinComma(parts: seq<string>): (r: string)
    requires |parts| >= 1
    ensures parts[0] <= r
  {
    if |parts| == 1 then parts[0] else parts[0] + ", " + JoinComma(parts[1..])
  }

  /** The summary of the given counts, or "No reads". */
  function Summary(mate1: nat, mate2: nat, unpaired: nat): string {
    var parts := Part(mate1, Mate1) + Part(mate2, Mate2) + Part(unpaired, Unpaired);
    if parts == [] then "No reads" else JoinComma(parts)
  }

  /** `_summarize_reads`: counts the records per mate and describes the non-zero counts. */
  method SummarizeReads(records: seq<Read>) returns (s: string)
    ensures s == Summary(CountOf(records, Mate1), CountOf(records, Mate2), CountOf(records, Unpaired))
  {
    var mate1, mate2, unpaired := 0, 0, 0;
    for i := 0 to |records|
      invariant mate1 == CountOf(records[..i], Mate1)
      invariant mate2 == CountOf(records[..i], Mate2)
      invariant unpaired == CountOf(records[..i], Unpaired)
    {
      assert records[..i + 1][..i] == records[..i];
      var record := records[i];
      if record.isPaired {
        if record.isRead1 {
          mate1 := mate1 + 1;
        } else if record.isRead2 {
          mate2 := mate2 + 1;
        } else {
          unpaired := unpaired + 1;
        }
      } else {
        unpaired := unpaired + 1;
      }
    }
    assert records[..|records|] == records;
    var result := Part(mate1, Mate1) + Part(mate2, Mate2) + Part(unpaired, Unpaired);
    s := if result == [] then "No reads" else JoinComma(result);
  }

  /** The summary says "No reads" exactly when there are no records; otherwise it starts with a count. */
  lemma NoReadsIffEmpty(records: seq<Read>)
    ensures var s := Summary(CountOf(records, Mate1), CountOf(records, Mate2), CountOf(records, Unpaired));
            (s == "No reads" <==> records == []) && (records != [] ==> '1' <= s[0] <= '9')
  {
    CountsAddUp(records);
    var c1, c2, cu := CountOf(records, Mate1), CountOf(records, Mate2), CountOf(records, Unpaired);
    var parts := Part(c1, Mate1) + Part(c2, Mate2) + Part(cu, Unpaired);
    if records != [] {
      var m := if c1 > 0 then Mate1 else if c2 > 0 then Mate2 else Unpaired;
      var n := CountOf(records, m);
      assert parts[0] == Part(n, m)[0];
      NatToStringLeading(n);
      assert parts[0] <= JoinComma(parts);
    }
  }

  /** A positive number is written without a leading zero. */
  lemma {:induction false} NatToStringLeading(n: nat)
    requires n > 0
    ensures '1' <= NatToString(n)[0] <= '9'
  {
    if n >= 10 {
      NatToStringLeading(n / 10);
    }
  }
}
