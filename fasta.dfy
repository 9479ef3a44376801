/**
 * The FASTA checks of both validation modules: `check_fasta_file` reads a file line by line through
 * a four-state machine, `_validate_fasta_header` checks the name of each record and
 * `_validate_fasta_line` the characters of each sequence line. A file is given as its lines with
 * the '\n' terminators removed; opening and reading it is not modelled.
 */
module Fasta {
  import opened Wrappers
  import opened Text

  /** Why a FASTA file is rejected; line numbers count from 1. */
  datatype FastaError =
    | BlankAfterHeader(line: nat)                  // "Expected FASTA sequence, found empty line"
    | EmptySequence(line: nat)                     // a header directly after a header
    | SequenceBeforeHeader(text: string, line: nat)
    | UnequalLines(line: nat)                      // "Lines in FASTQ files must be of same length"
    | BlankInSequence(line: nat)                   // "Empty lines not allowed in sequences"
    | NoSequences                                  // the file holds no header
    | EndsWithHeader                               // "File ends with an empty sequence"
    | EmptyName(line: nat)
    | InvalidName(name: string, line: nat)
    | DuplicateName(name: string, line: nat, first: nat)
    | CarriageReturn                               // the only bad character of a line is '\r'
    | InvalidChars(line: nat, chars: set<char>)

  /** Standard nucleotides and IUPAC codes, in upper and lower case. */
  const ValidChars: set<char> := {
    'A', 'C', 'G', 'T', 'N', 'R', 'Y', 'S', 'W', 'K', 'M', 'B', 'D', 'H', 'V',
    'a', 'c', 'g', 't', 'n', 'r', 'y', 's', 'w', 'k', 'm', 'b', 'd', 'h', 'v'
  }

  predicate IsHeader(line: string) {
    StartsWith(line, ">")
  }

  predicate IsSequence(line: string) {
    line != "" && !IsHeader(line)
  }

  /** `s.split(" ", 1)[0]`: the text before the first space. */
  function FirstField(s: string): (r: string)
    ensures ' ' !in r
    ensures r == s || StartsWith(s, r + " ")
  {
    if s == [] || s[0] == ' ' then [] else [s[0]] + FirstField(s[1..])
  }

  /** The name of a header line: the text between '>' and the first space. */
  function HeaderName(line: string): string
    requires IsHeader(line)
  {
    FirstField(line[1..])
  }

  /** The first character the RNAME pattern `[!-()+-<>-~]` accepts: printable, but not '*' or '='. */
  predicate NameStart(c: char) {
    '!' <= c <= '~' && c != '*' && c != '='
  }

  /**
   * `_RE_REF_NAME.match(name)`. `re.match` anchors only at the start and the tail `[!-~]*` may
   * match nothing, so only the first character is constrained.
   */
  predicate MatchesRefName(name: string) {
    |name| > 0 && NameStart(name[0])
  }

  /** `_validate_fasta_header`: checks the name of a header line and records it in `cache`. */
  function ValidateFastaHeader(line: string, linenum: nat, cache: map<string, nat>): (r: Result<map<string, nat>, FastaError>)
    requires IsHeader(line)
    ensures r.Success? <==> MatchesRefName(HeaderName(line)) && HeaderName(line) !in cache
    ensures r.Success? ==> r.value == cache[HeaderName(line) := linenum]
    ensures r == Failure(EmptyName(linenum)) <==> HeaderName(line) == ""
    ensures r.Failure? && r.error.InvalidName? <==> HeaderName(line) != "" && !MatchesRefName(HeaderName(line))
    ensures r.Failure? && r.error.DuplicateName? ==> r.error.first == cache[HeaderName(line)]
  {
    var name := HeaderName(line);
    if name == "" then Failure(EmptyName(linenum))
    else if !MatchesRefName(name) then Failure(InvalidName(name, linenum))
    else if name in cache then Failure(DuplicateName(name, linenum, cache[name]))
    else Success(cache[name := linenum])
  }

  /** `_validate_fasta_line`: only nucleotide and IUPAC characters may appear in a sequence line. */
  function ValidateFastaLine(line: string, linenum: nat): (r: Option<FastaError>)
    ensures r == None <==> forall c :: c in line ==> c in ValidChars
    ensures r == Some(CarriageReturn) <==> CharSet(line) - ValidChars == {'\r'}
    ensures r.Some? && r.value != CarriageReturn ==> r.value == InvalidChars(linenum, CharSet(line) - ValidChars)
  {
    var bad := CharSet(line) - ValidChars;
    if bad == {} then
      assert forall c :: c in line ==> c in ValidChars by {
        forall c | c in line
          ensures c in ValidChars
        {
          assert c in CharSet(line);
        }
      }
      None
    else if bad == {'\r'} then Some(CarriageReturn)
    else Some(InvalidChars(linenum, bad))
  }

  // ---------------------------------------------------------------------------
  // The state machine

  datatype ScanState = NA | InHeader | InSequence | InWhitespace

  /**
   * The variables of `check_fasta_file`: the state, the length of the first sequence line of the
   * record (`None` in the source before it is known, 0 here), whether a shorter line was seen,
   * and the names met so far with their line numbers.
   */
  datatype Scanner = Scanner(state: ScanState, lineLength: nat, changed: bool, names: map<string, nat>)

  /** The state after a line that is accepted. */
  function NextState(state: ScanState, line: string): ScanState {
    if line == "" then (if state == NA then NA else InWhitespace)
    else if IsHeader(line) then InHeader
    else InSequence
  }

  /** One pass of the loop of `check_fasta_file`, for `line` at line number `linenum`. */
  function Feed(m: Scanner, line: string, linenum: nat): (r: Result<Scanner, FastaError>)
    requires linenum >= 1
    ensures r.Success? ==> r.value.state == NextState(m.state, line)
    ensures r.Success? && !IsHeader(line) ==> r.value.names == m.names
  {
    if line == "" then
      match m.state
      case NA => Success(m)
      case InWhitespace => Success(m)
      case InHeader => Failure(BlankAfterHeader(linenum))
      case InSequence => Success(m.(state := InWhitespace))
    else if IsHeader(line) then
      if m.state == InHeader then Failure(EmptySequence(linenum - 1))
      else match ValidateFastaHeader(line, linenum, m.names)
        case Failure(e) => Failure(e)
        case Success(names) => Success(Scanner(InHeader, 0, false, names))
    else
      match m.state
      case NA => Failure(SequenceBeforeHeader(line, linenum))
      case InWhitespace => Failure(BlankInSequence(linenum))
      case InHeader =>
        (match ValidateFastaLine(line, linenum)
         case Some(e) => Failure(e)
         case None => Success(m.(state := InSequence, lineLength := |line|)))
      case InSequence =>
        (match ValidateFastaLine(line, linenum)
         case Some(e) => Failure(e)
         case None =>
           if m.changed || m.lineLength < |line| then Failure(UnequalLines(linenum))
           else if m.lineLength != |line| then Success(m.(changed := true))
           else Success(m))
  }

  /** The error `check_fasta_file` raises once every line is read, if any. */
  function AtEnd(m: Scanner): (r: Option<FastaError>)
    ensures r == None <==> m.state in {InSequence, InWhitespace}
  {
    match m.state
    case NA => Some(NoSequences)
    case InHeader => Some(EndsWithHeader)
    case _ => None
  }

  // ---------------------------------------------------------------------------
  // What a well-formed file is

  predicate HasHeader(lines: seq<string>) {
    exists j :: 0 <= j < |lines| && IsHeader(lines[j])
  }

  /** The names of the headers among `lines`. */
  function Names(lines: seq<string>): set<string> {
    set j | 0 <= j < |lines| && IsHeader(lines[j]) :: HeaderName(lines[j])
  }

  /**
   * Line `i` fits with the lines before it: a blank line does not follow a header; a header does
   * not follow a header and has a valid name not used before; a sequence line follows a header
   * or a sequence line, holds only valid characters, is no longer than the sequence line before
   * it, and that one is as long as the one before it, when that is a sequence line too.
   */
  predicate LineOk(lines: seq<string>, i: nat)
    requires i < |lines|
  {
    var line := lines[i];
    if line == "" then
      !(i > 0 && IsHeader(lines[i - 1]))
    else if IsHeader(line) then
      && !(i > 0 && IsHeader(lines[i - 1]))
      && MatchesRefName(HeaderName(line))
      && HeaderName(line) !in Names(lines[..i])
    else
      && i > 0 && lines[i - 1] != ""
      && (forall c :: c in line ==> c in ValidChars)
      && (IsSequence(lines[i - 1]) ==>
            && |line| <= |lines[i - 1]|
            && (i >= 2 && IsSequence(lines[i - 2]) ==> |lines[i - 1]| == |lines[i - 2]|))
  }

  predicate LinesOk(lines: seq<string>, n: nat)
    requires n <= |lines|
  {
    forall i :: 0 <= i < n ==> LineOk(lines, i)
  }

  /** A file `check_fasta_file` accepts: every line fits, there is a header, and the last line is not one. */
  predicate WellFormed(lines: seq<string>) {
    && LinesOk(lines, |lines|)
    && HasHeader(lines)
    && !(|lines| > 0 && IsHeader(lines[|lines| - 1]))
  }

  /** The index of the first header among `lines` named `nm`, or `|lines|` when there is none. */
  function FirstNamed(lines: seq<string>, nm: string): (j: nat)
    ensures j <= |lines|
    ensures j < |lines| ==> IsHeader(lines[j]) && HeaderName(lines[j]) == nm
    ensures forall i :: 0 <= i < j ==> !(IsHeader(lines[i]) && HeaderName(lines[i]) == nm)
  {
    if lines == [] then 0
    else if IsHeader(lines[0]) && HeaderName(lines[0]) == nm then 0
    else 1 + FirstNamed(lines[1..], nm)
  }

  /**
   * The error for line `i` (numbered `i + 1`) when it is the first line that does not fit: a blank
   * line right after a header; a header right after a header (reported at the line before), with
   * an empty, malformed or repeated name (a repeat names the line that first used it); a sequence
   * line before any header, after a blank line, with characters outside the alphabet, or longer
   * than the line before it or following a shorter one.
   */
  function LineError(lines: seq<string>, i: nat): FastaError
    requires i < |lines|
  {
    var line := lines[i];
    if line == "" then BlankAfterHeader(i + 1)
    else if IsHeader(line) then
      if i > 0 && IsHeader(lines[i - 1]) then EmptySequence(i)
      else if HeaderName(line) == "" then EmptyName(i + 1)
      else if !MatchesRefName(HeaderName(line)) then InvalidName(HeaderName(line), i + 1)
      else DuplicateName(HeaderName(line), i + 1, FirstNamed(lines[..i], HeaderName(line)) + 1)
    else if i == 0 || (lines[i - 1] == "" && !HasHeader(lines[..i])) then SequenceBeforeHeader(line, i + 1)
    else if lines[i - 1] == "" then BlankInSequence(i + 1)
    else if ValidateFastaLine(line, i + 1).Some? then ValidateFastaLine(line, i + 1).value
    else UnequalLines(i + 1)
  }

  /** The state the machine is in after `k` lines that all fit. */
  function StateAfter(lines: seq<string>, k: nat): ScanState
    requires k <= |lines|
  {
    if k == 0 then NA
    else if lines[k - 1] == "" then (if HasHeader(lines[..k]) then InWhitespace else NA)
    else if IsHeader(lines[k - 1]) then InHeader
    else InSequence
  }

  /** How the variables of the loop of `check_fasta_file` relate to the first `k` lines. */
  ghost predicate Tracks(lines: seq<string>, k: nat, m: Scanner) {
    && k <= |lines|
    && m.state == StateAfter(lines, k)
    && (m.state != NA <==> HasHeader(lines[..k]))
    && (m.state == InHeader ==> !m.changed)
    && (m.state == InSequence ==>
          && m.lineLength == (if k >= 2 && IsSequence(lines[k - 2]) then |lines[k - 2]| else |lines[k - 1]|)
          && m.changed == (|lines[k - 1]| != m.lineLength))
    && Recorded(lines, k, m.names)
  }

  /** `names` maps the names of the headers among the first `k` lines to the number of a line that has it. */
  ghost predicate Recorded(lines: seq<string>, k: nat, names: map<string, nat>)
    requires k <= |lines|
  {
    && (forall nm :: nm in names <==> nm in Names(lines[..k]))
    && (forall nm :: nm in names ==>
          && 1 <= names[nm] <= k
          && IsHeader(lines[names[nm] - 1])
          && HeaderName(lines[names[nm] - 1]) == nm)
  }

  lemma RecordedNext(lines: seq<string>, k: nat, names: map<string, nat>)
    requires k < |lines| && Recorded(lines, k, names)
    ensures IsHeader(lines[k]) ==> Recorded(lines, k + 1, names[HeaderName(lines[k]) := k + 1])
    ensures !IsHeader(lines[k]) ==> Recorded(lines, k + 1, names)
  {
    PrefixNext(lines, k);
    if IsHeader(lines[k]) {
      RecordedHeader(lines, k, names);
    }
  }

  lemma RecordedHeader(lines: seq<string>, k: nat, names: map<string, nat>)
    requires k < |lines| && Recorded(lines, k, names) && IsHeader(lines[k])
    requires Names(lines[..k + 1]) == Names(lines[..k]) + {HeaderName(lines[k])}
    ensures Recorded(lines, k + 1, names[HeaderName(lines[k]) := k + 1])
  {
    var n := names[HeaderName(lines[k]) := k + 1];
    forall nm | nm in n
      ensures 1 <= n[nm] <= k + 1 && IsHeader(lines[n[nm] - 1]) && HeaderName(lines[n[nm] - 1]) == nm
    {
      RecordedEntry(lines, k, names, nm);
    }
  }

  lemma RecordedEntry(lines: seq<string>, k: nat, names: map<string, nat>, nm: string)
    requires k < |lines| && Recorded(lines, k, names) && IsHeader(lines[k])
    requires nm in names[HeaderName(lines[k]) := k + 1]
    ensures var j := names[HeaderName(lines[k]) := k + 1][nm];
            1 <= j <= k + 1 && IsHeader(lines[j - 1]) && HeaderName(lines[j - 1]) == nm
  {
    if nm != HeaderName(lines[k]) {
      assert nm in names;
    }
  }

  lemma PrefixNext(lines: seq<string>, k: nat)
    requires k < |lines|
    ensures HasHeader(lines[..k + 1]) <==> HasHeader(lines[..k]) || IsHeader(lines[k])
    ensures IsHeader(lines[k]) ==> Names(lines[..k + 1]) == Names(lines[..k]) + {HeaderName(lines[k])}
    ensures !IsHeader(lines[k]) ==> Names(lines[..k + 1]) == Names(lines[..k])
  {
    var p, q := lines[..k], lines[..k + 1];
    assert forall j :: 0 <= j < k ==> q[j] == p[j];
    assert q[k] == lines[k];
    if HasHeader(q) && !IsHeader(lines[k]) {
      var j :| 0 <= j < |q| && IsHeader(q[j]);
      assert IsHeader(p[j]);
    }
  }

  /** One line read: the machine fails exactly on a line that does not fit, and keeps `Tracks` otherwise. */
  lemma FeedTracks(lines: seq<string>, k: nat, m: Scanner)
    requires k < |lines| && Tracks(lines, k, m)
    ensures Feed(m, lines[k], k + 1).Success? <==> LineOk(lines, k)
    ensures Feed(m, lines[k], k + 1).Success? ==> Tracks(lines, k + 1, Feed(m, lines[k], k + 1).value)
  {
    PrefixNext(lines, k);
    RecordedNext(lines, k, m.names);
    if lines[k] == "" {
      FeedBlank(lines, k, m);
    } else if IsHeader(lines[k]) {
      FeedHeader(lines, k, m);
    } else {
      FeedSequence(lines, k, m);
    }
  }

  lemma FeedBlank(lines: seq<string>, k: nat, m: Scanner)
    requires k < |lines| && Tracks(lines, k, m) && lines[k] == ""
    requires HasHeader(lines[..k + 1]) <==> HasHeader(lines[..k])
    requires Recorded(lines, k + 1, m.names)
    ensures Feed(m, lines[k], k + 1).Success? <==> LineOk(lines, k)
    ensures Feed(m, lines[k], k + 1).Success? ==> Tracks(lines, k + 1, Feed(m, lines[k], k + 1).value)
  {
  }

  lemma FeedHeader(lines: seq<string>, k: nat, m: Scanner)
    requires k < |lines| && Tracks(lines, k, m) && IsHeader(lines[k])
    requires HasHeader(lines[..k + 1])
    ensures Feed(m, lines[k], k + 1).Success? <==> LineOk(lines, k)
    ensures Feed(m, lines[k], k + 1).Success? ==> Tracks(lines, k + 1, Feed(m, lines[k], k + 1).value)
  {
    var name := HeaderName(lines[k]);
    assert m.state == InHeader <==> k > 0 && IsHeader(lines[k - 1]);
    assert name in m.names <==> name in Names(lines[..k]);
    var r := Feed(m, lines[k], k + 1);
    if r.Success? {
      assert r.value == Scanner(InHeader, 0, false, m.names[name := k + 1]);
      HeaderTracks(lines, k, m, r.value);
    }
  }

  lemma HeaderTracks(lines: seq<string>, k: nat, m: Scanner, n: Scanner)
    requires k < |lines| && Tracks(lines, k, m) && IsHeader(lines[k])
    requires HasHeader(lines[..k + 1])
    requires n == Scanner(InHeader, 0, false, m.names[HeaderName(lines[k]) := k + 1])
    ensures Tracks(lines, k + 1, n)
  {
    RecordedNext(lines, k, m.names);
    assert StateAfter(lines, k + 1) == InHeader;
  }

  lemma FeedSequence(lines: seq<string>, k: nat, m: Scanner)
    requires k < |lines| && Tracks(lines, k, m) && IsSequence(lines[k])
    requires HasHeader(lines[..k + 1]) <==> HasHeader(lines[..k])
    requires Recorded(lines, k + 1, m.names)
    ensures Feed(m, lines[k], k + 1).Success? <==> LineOk(lines, k)
    ensures Feed(m, lines[k], k + 1).Success? ==> Tracks(lines, k + 1, Feed(m, lines[k], k + 1).value)
  {
    var r := Feed(m, lines[k], k + 1);
    if r.Success? {
      var n := r.value;
      assert n.state == InSequence && n.names == m.names;
      assert StateAfter(lines, k + 1) == InSequence;
      if m.state == InHeader {
        assert n.lineLength == |lines[k]| && !n.changed;
        assert IsHeader(lines[k - 1]);
      } else {
        assert m.state == InSequence;
        assert n.lineLength == m.lineLength == |lines[k - 1]|;
      }
    }
  }

  /** At the first line that does not fit, the machine fails with `LineError`. */
  lemma FeedError(lines: seq<string>, k: nat, m: Scanner)
    requires k < |lines| && Tracks(lines, k, m) && LinesOk(lines, k) && !LineOk(lines, k)
    ensures Feed(m, lines[k], k + 1) == Failure(LineError(lines, k))
  {
    FeedTracks(lines, k, m);
    var line := lines[k];
    if IsHeader(line) && !(k > 0 && IsHeader(lines[k - 1])) && MatchesRefName(HeaderName(line)) {
      var nm := HeaderName(line);
      assert nm in m.names;
      FirstNamedRecorded(lines, k, m.names, nm);
    }
  }

  /** With the first `k` lines fitting, the line recorded for a name is the first header with it. */
  lemma FirstNamedRecorded(lines: seq<string>, k: nat, names: map<string, nat>, nm: string)
    requires k <= |lines| && LinesOk(lines, k) && Recorded(lines, k, names) && nm in names
    ensures names[nm] == FirstNamed(lines[..k], nm) + 1
  {
    var j0 := names[nm] - 1;
    var f := FirstNamed(lines[..k], nm);
    assert lines[..k][j0] == lines[j0];
    assert LineOk(lines, j0);
    EarlierNamesDiffer(lines, j0);
    assert forall i :: 0 <= i < j0 ==> lines[..k][i] == lines[i];
  }

  /** A header that fits has a name no earlier header has. */
  lemma EarlierNamesDiffer(lines: seq<string>, j: nat)
    requires j < |lines| && IsHeader(lines[j]) && LineOk(lines, j)
    ensures forall i :: 0 <= i < j ==> !(IsHeader(lines[i]) && HeaderName(lines[i]) == HeaderName(lines[j]))
  {
    forall i | 0 <= i < j && IsHeader(lines[i])
      ensures HeaderName(lines[i]) != HeaderName(lines[j])
    {
      assert lines[..j][i] == lines[i];
      assert HeaderName(lines[i]) in Names(lines[..j]);
    }
  }

  /**
   * `check_fasta_file` (paleomix/nodes/validation.py): reads the lines in order through the state
   * machine and then checks the state it ends in. It accepts exactly the well-formed files; a file
   * whose every line fits is rejected with `NoSequences` when it has no header and with
   * `EndsWithHeader` when it ends right after one.
   */
  method CheckFastaFile(lines: seq<string>) returns (r: Outcome<FastaError>)
    ensures r.Pass? <==> WellFormed(lines)
    ensures r == Fail(NoSequences) <==> LinesOk(lines, |lines|) && !HasHeader(lines)
    ensures r == Fail(EndsWithHeader) <==>
              LinesOk(lines, |lines|) && HasHeader(lines) && IsHeader(lines[|lines| - 1])
    ensures !LinesOk(lines, |lines|) ==>
              exists k :: 0 <= k < |lines| && LinesOk(lines, k) && !LineOk(lines, k) && r == Fail(LineError(lines, k))
  {
    var m := Scanner(NA, 0, false, map[]);
    var k := 0;
    while k < |lines|
      invariant Tracks(lines, k, m)
      invariant LinesOk(lines, k)
    {
      FeedTracks(lines, k, m);
      var next := Feed(m, lines[k], k + 1);
      if next.Failure? {
        r := Fail(next.error);
        assert !LinesOk(lines, |lines|) by {
          assert !LineOk(lines, k);
        }
        FeedError(lines, k, m);
        assert LinesOk(lines, k) && !LineOk(lines, k) && r == Fail(LineError(lines, k));
        assert next.error != NoSequences && next.error != EndsWithHeader;
        return;
      }
      m := next.value;
      k := k + 1;
    }
    assert lines[..k] == lines;
    var e := AtEnd(m);
    r := if e.Some? then Fail(e.value) else Pass;
  }

  /**
   * `check_fasta_file` (pypeline/nodes/validation.py): the same machine, but a file without a
   * header and a file ending right after one both get the single `NoSequences` error.
   */
  method CheckFastaFileLegacy(lines: seq<string>) returns (r: Outcome<FastaError>)
    ensures r.Pass? <==> WellFormed(lines)
    ensures r == Fail(NoSequences) <==>
              LinesOk(lines, |lines|) && (!HasHeader(lines) || IsHeader(lines[|lines| - 1]))
    ensures r != Fail(EndsWithHeader)
    ensures !LinesOk(lines, |lines|) ==>
              exists k :: 0 <= k < |lines| && LinesOk(lines, k) && !LineOk(lines, k) && r == Fail(LineError(lines, k))
  {
    r := CheckFastaFile(lines);
    if r == Fail(EndsWithHeader) {
      r := Fail(NoSequences);
    }
  }

  // ---------------------------------------------------------------------------
  // What a well-formed file promises

  /** In a well-formed file every header is followed at once by a sequence line. */
  lemma HeaderThenSequence(lines: seq<string>, i: nat)
    requires WellFormed(lines) && i < |lines| && IsHeader(lines[i])
    ensures i + 1 < |lines| && IsSequence(lines[i + 1])
  {
    assert LineOk(lines, i + 1);
  }

  /** In a well-formed file no two headers share a name. */
  lemma NamesDistinct(lines: seq<string>, i: nat, j: nat)
    requires WellFormed(lines) && i < j < |lines| && IsHeader(lines[i]) && IsHeader(lines[j])
    ensures HeaderName(lines[i]) != HeaderName(lines[j])
  {
    assert LineOk(lines, j);
    assert lines[..j][i] == lines[i];
    assert HeaderName(lines[i]) in Names(lines[..j]);
  }

  /** In a file whose lines fit, every sequence line comes after some header. */
  lemma {:induction false} SequenceAfterHeader(lines: seq<string>, i: nat)
    requires i < |lines| && LinesOk(lines, |lines|) && IsSequence(lines[i])
    ensures exists j :: 0 <= j < i && IsHeader(lines[j])
  {
    assert LineOk(lines, i);
    if IsHeader(lines[i - 1]) {
      assert IsHeader(lines[i - 1]);
    } else {
      SequenceAfterHeader(lines, i - 1);
    }
  }

  /** The lines of a record before line `i` are all as long as the first, `lines[h + 1]`. */
  lemma {:induction false} RecordEqual(lines: seq<string>, h: nat, i: nat)
    requires i < |lines| && LinesOk(lines, |lines|) && h + 1 < i && IsHeader(lines[h])
    requires forall j :: h < j <= i ==> IsSequence(lines[j])
    ensures |lines[i - 1]| == |lines[h + 1]|
    decreases i
  {
    if i - 1 > h + 1 {
      assert LineOk(lines, i);
      RecordEqual(lines, h, i - 1);
    }
  }

  /**
   * In a record of a file whose lines fit, every sequence line except the last is as long as
   * the first one, and the last is no longer: lines `h + 1 .. e` follow the header at `h`.
   */
  lemma RecordLengths(lines: seq<string>, h: nat, e: nat, i: nat)
    requires e < |lines| && LinesOk(lines, |lines|) && h < i <= e && IsHeader(lines[h])
    requires forall j :: h < j <= e ==> IsSequence(lines[j])
    ensures i < e ==> |lines[i]| == |lines[h + 1]|
    ensures |lines[i]| <= |lines[h + 1]|
  {
    if i < e && i > h + 1 {
      RecordEqual(lines, h, i + 1);
    } else if i == e && i > h + 1 {
      assert LineOk(lines, e);
      RecordEqual(lines, h, e);
    }
  }
}
