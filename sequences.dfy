/** DNA sequence utilities: complement tables, IUPAC genotype codes and positional split. */
module Sequences {
  import opened Wrappers
  import opened Text

  // ---------------------------------------------------------------------------
  // Complement table

  /** The complementary pairs, in the order the table is filled. */
  const ComplementPairs: seq<(char, char)> :=
    [('A', 'T'), ('C', 'G'), ('N', 'N'), ('R', 'Y'), ('K', 'M'),
     ('S', 'S'), ('W', 'W'), ('B', 'V'), ('D', 'H'), ('X', 'X')]

  function Upper(c: char): char { if 'a' <= c <= 'z' then (c as int - 32) as char else c }
  function Lower(c: char): char { if 'A' <= c <= 'Z' then (c as int + 32) as char else c }

  /** Characters that have a complement of their own in the table (both cases). */
  const PairedAlphabet: set<char> :=
    {'A', 'T', 'C', 'G', 'N', 'R', 'Y', 'K', 'M', 'S', 'W', 'B', 'V', 'D', 'H', 'X',
     'a', 't', 'c', 'g', 'n', 'r', 'y', 'k', 'm', 's', 'w', 'b', 'v', 'd', 'h', 'x'}

  /** The complement of one base: the partner in its pair, keeping the case; anything else is 'N'. */
  function ComplementBase(c: char): char {
    match c
    case 'A' => 'T' case 'T' => 'A' case 'C' => 'G' case 'G' => 'C'
    case 'N' => 'N' case 'R' => 'Y' case 'Y' => 'R' case 'K' => 'M'
    case 'M' => 'K' case 'S' => 'S' case 'W' => 'W' case 'B' => 'V'
    case 'V' => 'B' case 'D' => 'H' case 'H' => 'D' case 'X' => 'X'
    case 'a' => 't' case 't' => 'a' case 'c' => 'g' case 'g' => 'c'
    case 'n' => 'n' case 'r' => 'y' case 'y' => 'r' case 'k' => 'm'
    case 'm' => 'k' case 's' => 's' case 'w' => 'w' case 'b' => 'v'
    case 'v' => 'b' case 'd' => 'h' case 'h' => 'd' case 'x' => 'x'
    case _ => 'N'
  }

  /** The four characters one pair writes into the table. */
  function PairChars(p: (char, char)): set<char> {
    {Upper(p.0), Upper(p.1), Lower(p.0), Lower(p.1)}
  }

  /** Index of the pair that writes `c`. */
  function PairIndex(c: char): (j: nat)
    requires c in PairedAlphabet
    ensures j < |ComplementPairs| && c in PairChars(ComplementPairs[j])
  {
    if c in {'A', 'T', 'a', 't'} then 0
    else if c in {'C', 'G', 'c', 'g'} then 1
    else if c in {'N', 'n'} then 2
    else if c in {'R', 'Y', 'r', 'y'} then 3
    else if c in {'K', 'M', 'k', 'm'} then 4
    else if c in {'S', 's'} then 5
    else if c in {'W', 'w'} then 6
    else if c in {'B', 'V', 'b', 'v'} then 7
    else if c in {'D', 'H', 'd', 'h'} then 8
    else 9
  }

  /** Each pair writes `ComplementBase` of the characters it covers. */
  lemma PairAgrees(j: nat)
    requires j < |ComplementPairs|
    ensures var (a, b) := ComplementPairs[j];
      && ComplementBase(Upper(a)) == Upper(b) && ComplementBase(Upper(b)) == Upper(a)
      && ComplementBase(Lower(a)) == Lower(b) && ComplementBase(Lower(b)) == Lower(a)
  {
  }

  /** Builds the 256-entry translation table as the module does at import time. */
  method BuildComplementTable() returns (table: seq<char>)
    ensures |table| == 256
    ensures forall i :: 0 <= i < 256 ==> table[i] == ComplementBase(i as char)
  {
    table := seq(256, _ => 'N');
    var k := 0;
    while k < |ComplementPairs|
      invariant 0 <= k <= |ComplementPairs|
      invariant |table| == 256
      invariant forall i :: 0 <= i < 256 ==> table[i] == 'N' || table[i] == ComplementBase(i as char)
      invariant forall j, i :: 0 <= j < k && 0 <= i < 256 && (i as char) in PairChars(ComplementPairs[j]) ==>
        table[i] == ComplementBase(i as char)
    {
      var (a, b) := ComplementPairs[k];
      PairAgrees(k);
      table := table[Upper(a) as int := Upper(b)][Upper(b) as int := Upper(a)];
      table := table[Lower(a) as int := Lower(b)][Lower(b) as int := Lower(a)];
      k := k + 1;
    }
    forall i | 0 <= i < 256 ensures table[i] == ComplementBase(i as char) {
      if (i as char) in PairedAlphabet {
        var j := PairIndex(i as char);
      }
    }
  }

  /** Every character of the paired alphabet is its complement's complement; any other maps to 'N'. */
  lemma ComplementBaseInvolution(c: char)
    ensures c in PairedAlphabet ==> ComplementBase(c) in PairedAlphabet && ComplementBase(ComplementBase(c)) == c
    ensures c !in PairedAlphabet ==> ComplementBase(c) == 'N'
  {
  }

  /** `complement`: translates every character through the table. */
  function Complement(s: string): (r: string)
    ensures |r| == |s|
    ensures forall i :: 0 <= i < |s| ==> r[i] == ComplementBase(s[i])
  {
    seq(|s|, i requires 0 <= i < |s| => ComplementBase(s[i]))
  }

  function Reverse(s: string): (r: string)
    ensures |r| == |s|
    ensures forall i :: 0 <= i < |s| ==> r[i] == s[|s| - 1 - i]
  {
    seq(|s|, i requires 0 <= i < |s| => s[|s| - 1 - i])
  }

  /** `reverse_complement`: the complement read backwards. */
  function ReverseComplement(s: string): (r: string)
    ensures |r| == |s|
    ensures forall i :: 0 <= i < |s| ==> r[i] == ComplementBase(s[|s| - 1 - i])
  {
    Reverse(Complement(s))
  }

  /** On strings over the paired alphabet, complementing twice gives the input back. */
  lemma ComplementInvolution(s: string)
    requires CharSet(s) <= PairedAlphabet
    ensures Complement(Complement(s)) == s
  {
    forall i | 0 <= i < |s| ensures Complement(Complement(s))[i] == s[i] {
      assert s[i] in CharSet(s);
      ComplementBaseInvolution(s[i]);
    }
  }

  /** On strings over the paired alphabet, `reverse_complement` is its own inverse. */
  lemma ReverseComplementInvolution(s: string)
    requires CharSet(s) <= PairedAlphabet
    ensures ReverseComplement(ReverseComplement(s)) == s
  {
    var r := ReverseComplement(s);
    var t := ReverseComplement(r);
    forall i | 0 <= i < |s| ensures t[i] == s[i] {
      var j := |s| - 1 - i;
      assert r[j] == ComplementBase(s[i]);
      assert t[i] == ComplementBase(r[j]);
      assert s[i] in CharSet(s);
      ComplementBaseInvolution(s[i]);
    }
  }

  /** `reverse_complement` keeps strings over the paired alphabet inside it. */
  lemma ReverseComplementInAlphabet(s: string)
    requires CharSet(s) <= PairedAlphabet
    ensures CharSet(ReverseComplement(s)) <= PairedAlphabet
  {
    var r := ReverseComplement(s);
    forall c | c in CharSet(r) ensures c in PairedAlphabet {
      var i :| 0 <= i < |r| && r[i] == c;
      assert s[|s| - 1 - i] in CharSet(s);
      ComplementBaseInvolution(s[|s| - 1 - i]);
    }
  }

  /** Two strings over the paired alphabet with the same reverse complement are equal. */
  lemma ReverseComplementInjective(s: string, t: string)
    requires CharSet(s) <= PairedAlphabet && CharSet(t) <= PairedAlphabet
    requires ReverseComplement(s) == ReverseComplement(t)
    ensures s == t
  {
    ReverseComplementInvolution(s);
    ReverseComplementInvolution(t);
  }

  // ---------------------------------------------------------------------------
  // Codon table

  /** Base order of the codon table layout: blocks, columns and rows all run T, C, A, G. */
  const TableBases: string := "TCAG"

  /** Codon listed at position `i` of the "+" table: block = first base, column = second, row = third. */
  function CodonAt(i: nat): (c: string)
    requires i < 64
    ensures |c| == 3 && CharSet(c) <= {'A', 'C', 'G', 'T'}
  {
    var c := [TableBases[i / 16], TableBases[i % 4], TableBases[(i / 4) % 4]];
    assert forall x | x in c :: x in TableBases;
    c
  }

  /** Amino acid names of the "+" table, in the order the codons are listed. */
  const AminoAcids: seq<string> := [
    "Phe", "Ser", "Tyr", "Cys", "Phe", "Ser", "Tyr", "Cys",
    "Leu", "Ser", "Stop", "Stop", "Leu", "Ser", "Stop", "Trp",
    "Leu", "Pro", "His", "Arg", "Leu", "Pro", "His", "Arg",
    "Leu", "Pro", "Gln", "Arg", "Leu", "Pro", "Gln", "Arg",
    "Ile", "Thr", "Asn", "Ser", "Ile", "Thr", "Asn", "Ser",
    "Ile", "Thr", "Lys", "Arg", "Met", "Thr", "Lys", "Arg",
    "Val", "Ala", "Asp", "Gly", "Val", "Ala", "Asp", "Gly",
    "Val", "Ala", "Glu", "Gly", "Val", "Ala", "Glu", "Gly"]

  /** Distinct positions of the table list distinct codons. */
  lemma CodonAtInjective(i: nat, j: nat)
    requires i < 64 && j < 64 && CodonAt(i) == CodonAt(j)
    ensures i == j
  {
    var c := CodonAt(i);
    TableBasesDistinct(i / 16, j / 16);
    TableBasesDistinct(i % 4, j % 4);
    TableBasesDistinct((i / 4) % 4, (j / 4) % 4);
    Digits(i);
    Digits(j);
  }

  /** The four bases of the table are distinct. */
  lemma TableBasesDistinct(a: nat, b: nat)
    requires a < 4 && b < 4 && TableBases[a] == TableBases[b]
    ensures a == b
  {
  }

  /** A position of the table is given by its block, row and column. */
  lemma Digits(i: nat)
    requires i < 64
    ensures i == 16 * (i / 16) + 4 * ((i / 4) % 4) + i % 4
  {
    var q := i / 4;
    assert i == 4 * q + i % 4;
    assert q == 4 * (q / 4) + q % 4;
    assert q / 4 == i / 16;
  }

  /** The first `n` entries of a table listing amino acid `aa[i]` for `CodonAt(i)`, inserted in listing order. */
  function CodonsPlusPrefix(aa: seq<string>, n: nat): (m: map<string, string>)
    requires n <= 64 <= |aa|
    ensures m.Keys == set i | 0 <= i < n :: CodonAt(i)
  {
    if n == 0 then map[]
    else
      var prev := CodonsPlusPrefix(aa, n - 1);
      CodonAtFresh(n - 1);
      var key := CodonAt(n - 1);
      var m := prev[key := aa[n - 1]];
      ghost var before := set i | 0 <= i < n - 1 :: CodonAt(i);
      ghost var after := set i | 0 <= i < n :: CodonAt(i);
      assert after == before + {key} by {
        forall x | x in after ensures x in before + {key} {
          var i :| 0 <= i < n && CodonAt(i) == x;
          if i < n - 1 { assert x in before; }
        }
      }
      m
  }

  /** Each listed codon maps to the amino acid listed with it. */
  lemma {:induction false} CodonsPlusPrefixValues(aa: seq<string>, n: nat)
    requires n <= 64 <= |aa|
    ensures forall i :: 0 <= i < n ==> CodonAt(i) in CodonsPlusPrefix(aa, n) && CodonsPlusPrefix(aa, n)[CodonAt(i)] == aa[i]
  {
    if n > 0 {
      CodonsPlusPrefixValues(aa, n - 1);
      CodonAtFresh(n - 1);
      var prev := CodonsPlusPrefix(aa, n - 1);
      var m := CodonsPlusPrefix(aa, n);
      assert m == prev[CodonAt(n - 1) := aa[n - 1]];
      forall i | 0 <= i < n ensures CodonAt(i) in m && m[CodonAt(i)] == aa[i] {
        if i < n - 1 {
          assert CodonAt(i) != CodonAt(n - 1);
          assert CodonAt(i) in prev && prev[CodonAt(i)] == aa[i];
        }
      }
    }
  }

  /** A listed codon differs from every codon listed before it. */
  lemma CodonAtFresh(n: nat)
    requires n < 64
    ensures forall i :: 0 <= i < n ==> CodonAt(i) != CodonAt(n)
  {
    forall i | 0 <= i < n ensures CodonAt(i) != CodonAt(n) {
      if CodonAt(i) == CodonAt(n) { CodonAtInjective(i, n); }
    }
  }

  /** `CODONS["+"]`: the standard genetic code on the forward strand. */
  function CodonsPlus(): map<string, string> {
    CodonsPlusPrefix(AminoAcids, 64)
  }

  /** The first `n` listed codons are `n` different keys. */
  lemma {:induction false} CodonsPlusPrefixSize(aa: seq<string>, n: nat)
    requires n <= 64 <= |aa|
    ensures |CodonsPlusPrefix(aa, n).Keys| == n
  {
    if n > 0 {
      CodonsPlusPrefixSize(aa, n - 1);
      var before := CodonsPlusPrefix(aa, n - 1).Keys;
      assert CodonsPlusPrefix(aa, n).Keys == before + {CodonAt(n - 1)};
      if CodonAt(n - 1) in before {
        var i :| 0 <= i < n - 1 && CodonAt(i) == CodonAt(n - 1);
        CodonAtInjective(i, n - 1);
      }
    }
  }

  /** `CODONS["+"]` holds 64 codons, each over ACGT (the two module-level assertions on "+"). */
  lemma CodonsPlusFacts()
    ensures |CodonsPlus()| == 64
    ensures forall c :: c in CodonsPlus() ==> |c| == 3 && CharSet(c) <= {'A', 'C', 'G', 'T'}
  {
    CodonsPlusPrefixSize(AminoAcids, 64);
  }

  /** The reverse complement of codons over ACGT stays over ACGT. */
  lemma ReverseComplementACGT(c: string)
    requires CharSet(c) <= {'A', 'C', 'G', 'T'}
    ensures CharSet(ReverseComplement(c)) <= {'A', 'C', 'G', 'T'}
  {
    var r := ReverseComplement(c);
    forall x | x in CharSet(r) ensures x in {'A', 'C', 'G', 'T'} {
      var i :| 0 <= i < |r| && r[i] == x;
      assert c[|c| - 1 - i] in CharSet(c);
    }
  }

  /**
   * Builds `CODONS["-"]` from a forward table, visiting its codons in any order; fails (the
   * module's assertion) when some codon holds a character other than A, C, G or T.
   */
  method DeriveMinusStrand(plus: map<string, string>) returns (r: Option<map<string, string>>)
    ensures r.None? <==> exists c :: c in plus && !(CharSet(c) <= {'A', 'C', 'G', 'T'})
    ensures r.Some? ==> r.value.Keys == set c | c in plus :: ReverseComplement(c)
    ensures r.Some? ==> forall c :: c in plus ==> r.value[ReverseComplement(c)] == plus[c]
  {
    var minus: map<string, string> := map[];
    var todo := plus.Keys;
    while todo != {}
      invariant todo <= plus.Keys
      invariant forall c :: c in plus && c !in todo ==> CharSet(c) <= {'A', 'C', 'G', 'T'}
      invariant minus.Keys == set c | c in plus && c !in todo :: ReverseComplement(c)
      invariant forall c :: c in plus && c !in todo ==> minus[ReverseComplement(c)] == plus[c]
      decreases |todo|
    {
      var c :| c in todo;
      if !(CharSet(c) <= {'A', 'C', 'G', 'T'}) {
        return None;
      }
      forall d | d in plus && d !in todo && ReverseComplement(d) == ReverseComplement(c)
        ensures d == c
      {
        assert CharSet(d) <= PairedAlphabet;
        ReverseComplementInjective(d, c);
      }
      minus := minus[ReverseComplement(c) := plus[c]];
      todo := todo - {c};
    }
    return Some(minus);
  }

  /** Sets whose elements map injectively keep their size under the image. */
  lemma {:induction false} ReverseComplementImageSize(s: set<string>)
    requires forall c :: c in s ==> CharSet(c) <= PairedAlphabet
    ensures |set c | c in s :: ReverseComplement(c)| == |s|
    decreases |s|
  {
    if s != {} {
      var c :| c in s;
      var rest := s - {c};
      ReverseComplementImageSize(rest);
      var img := set d | d in s :: ReverseComplement(d);
      var imgRest := set d | d in rest :: ReverseComplement(d);
      assert img == imgRest + {ReverseComplement(c)};
      if ReverseComplement(c) in imgRest {
        var d :| d in rest && ReverseComplement(d) == ReverseComplement(c);
        ReverseComplementInjective(d, c);
      }
    }
  }

  /** `CODONS["-"]` holds 64 entries and maps each reverse-complemented codon to the same amino acid. */
  method CodonsMinus() returns (minus: map<string, string>)
    ensures |minus| == 64
    ensures forall c :: c in CodonsPlus() ==>
      ReverseComplement(c) in minus && minus[ReverseComplement(c)] == CodonsPlus()[c]
  {
    CodonsPlusFacts();
    var r := DeriveMinusStrand(CodonsPlus());
    minus := r.value;
    forall c | c in CodonsPlus() ensures CharSet(c) <= PairedAlphabet { }
    ReverseComplementImageSize(CodonsPlus().Keys);
  }

  // ---------------------------------------------------------------------------
  // IUPAC genotype codes

  /** `NT_CODES` as listed: an IUPAC code and the nucleotides it stands for. */
  const NtCodes: seq<(char, string)> := [
    ('A', "A"), ('C', "C"), ('G', "G"), ('T', "T"), ('N', "N"),
    ('R', "AG"), ('Y', "CT"), ('K', "GT"), ('M', "AC"), ('S', "CG"), ('W', "AT"),
    ('B', "CGT"), ('D', "AGT"), ('H', "ACT"), ('V', "ACG"), ('N', "ACGT")]

  /**
   * What the lookup table built from `codes` holds for `key`: each entry files its code under
   * the set of its nucleotides and under that set plus ','; a later entry overwrites an earlier one.
   */
  function CodeLookup(codes: seq<(char, string)>, key: set<char>): Option<char> {
    if codes == [] then None
    else
      var (abr, nts) := codes[|codes| - 1];
      if key == CharSet(nts) || key == CharSet(nts) + {','} then Some(abr)
      else CodeLookup(codes[..|codes| - 1], key)
  }

  /** Builds `_NT_CODES_TABLE` from a list of codes, entry by entry. */
  method BuildCodeTable(codes: seq<(char, string)>) returns (table: map<set<char>, char>)
    ensures forall key :: key in table <==> CodeLookup(codes, key).Some?
    ensures forall key :: key in table ==> table[key] == CodeLookup(codes, key).value
  {
    table := map[];
    var k := 0;
    while k < |codes|
      invariant 0 <= k <= |codes|
      invariant forall key :: key in table <==> CodeLookup(codes[..k], key).Some?
      invariant forall key :: key in table ==> table[key] == CodeLookup(codes[..k], key).value
    {
      var (abr, nts) := codes[k];
      assert codes[..k + 1][..k] == codes[..k];
      table := table[CharSet(nts) := abr];
      table := table[CharSet(nts + ",") := abr];
      assert CharSet(nts + ",") == CharSet(nts) + {','};
      k := k + 1;
    }
    assert codes[..k] == codes;
  }

  /** `encode_genotype`: the IUPAC code for the set of nucleotides in `s`, commas ignored. */
  function EncodeGenotype(s: string): (r: Result<char, string>)
    ensures r.Success? <==> CodeLookup(NtCodes, CharSet(s)).Some?
  {
    match CodeLookup(NtCodes, CharSet(s))
    case Some(abr) => Success(abr)
    case None => Failure("Invalid input for 'encode_genotype': " + s)
  }

  /** `dict(NT_CODES)`: the last entry listed for a code wins. */
  function CodeNucleotides(codes: seq<(char, string)>, abr: char): Option<string> {
    if codes == [] then None
    else if codes[|codes| - 1].0 == abr then Some(codes[|codes| - 1].1)
    else CodeNucleotides(codes[..|codes| - 1], abr)
  }

  /** A key found in the table is the nucleotide set of some entry, with or without ','. */
  lemma {:induction false} CodeLookupFound(codes: seq<(char, string)>, key: set<char>)
    requires CodeLookup(codes, key).Some?
    ensures exists j :: (0 <= j < |codes| && CodeLookup(codes, key).value == codes[j].0 &&
                         (key == CharSet(codes[j].1) || key == CharSet(codes[j].1) + {','}))
  {
    var (abr, nts) := codes[|codes| - 1];
    if !(key == CharSet(nts) || key == CharSet(nts) + {','}) {
      CodeLookupFound(codes[..|codes| - 1], key);
      var j :| 0 <= j < |codes| - 1 && CodeLookup(codes[..|codes| - 1], key).value == codes[..|codes| - 1][j].0
        && (key == CharSet(codes[..|codes| - 1][j].1) || key == CharSet(codes[..|codes| - 1][j].1) + {','});
      assert codes[..|codes| - 1][j] == codes[j];
    }
  }

  /** With comma-free entries, a key and the key plus ',' look up the same code. */
  lemma {:induction false} CodeLookupComma(codes: seq<(char, string)>, key: set<char>)
    requires forall j :: 0 <= j < |codes| ==> ',' !in codes[j].1
    requires ',' !in key
    ensures CodeLookup(codes, key) == CodeLookup(codes, key + {','})
  {
    if codes != [] {
      var (abr, nts) := codes[|codes| - 1];
      assert ',' !in CharSet(nts);
      if key != CharSet(nts) {
        assert key + {','} != CharSet(nts) + {','} by {
          var c :| c in key - CharSet(nts) || c in CharSet(nts) - key;
        }
        assert key + {','} != CharSet(nts) by { assert ',' in key + {','}; }
        assert key != CharSet(nts) + {','} by { assert ',' in CharSet(nts) + {','}; }
        CodeLookupComma(codes[..|codes| - 1], key);
      }
    }
  }

  /** `encode_genotype` ignores commas: removing them changes neither success nor the code. */
  lemma EncodeGenotypeIgnoresCommas(s: string)
    ensures EncodeGenotype(s).Success? == EncodeGenotype(Remove(s, ',')).Success?
    ensures EncodeGenotype(s).Success? ==> EncodeGenotype(s).value == EncodeGenotype(Remove(s, ',')).value
  {
    var k := CharSet(Remove(s, ','));
    RemoveChars(s, ',');
    forall j | 0 <= j < |NtCodes| ensures ',' !in NtCodes[j].1 { }
    CodeLookupComma(NtCodes, k);
    if ',' in s {
      assert CharSet(s) == k + {','};
    } else {
      assert CharSet(s) == k;
    }
  }

  /** Only upper-case A, C, G, T, N and commas can be encoded; in particular lower case is rejected. */
  lemma EncodeGenotypeAlphabet(s: string)
    requires EncodeGenotype(s).Success?
    ensures CharSet(s) <= {'A', 'C', 'G', 'T', 'N', ','}
  {
    CodeLookupFound(NtCodes, CharSet(s));
    var j :| 0 <= j < |NtCodes| && (CharSet(s) == CharSet(NtCodes[j].1) || CharSet(s) == CharSet(NtCodes[j].1) + {','});
    assert CharSet(NtCodes[j].1) <= {'A', 'C', 'G', 'T', 'N'};
  }

  /** The nucleotide sets of `NT_CODES`, entry by entry. */
  const NtKeys: seq<set<char>> := [
    {'A'}, {'C'}, {'G'}, {'T'}, {'N'},
    {'A', 'G'}, {'C', 'T'}, {'G', 'T'}, {'A', 'C'}, {'C', 'G'}, {'A', 'T'},
    {'C', 'G', 'T'}, {'A', 'G', 'T'}, {'A', 'C', 'T'}, {'A', 'C', 'G'}, {'A', 'C', 'G', 'T'}]

  /** Each entry of `NT_CODES` lists a set of its own: no two entries share a key. */
  lemma NtKeysDistinct()
    ensures forall i, j :: 0 <= i < j < |NtKeys| ==> NtKeys[i] != NtKeys[j]
  {
  }

  /** `NtKeys` lists the nucleotide sets of `NT_CODES` in order; none holds ','. */
  lemma NtKeysMatch()
    ensures |NtKeys| == |NtCodes|
    ensures forall j :: 0 <= j < |NtCodes| ==> CharSet(NtCodes[j].1) == NtKeys[j] && ',' !in NtKeys[j]
  {
    assert CharSet("A") == {'A'};
    assert CharSet("C") == {'C'};
    assert CharSet("G") == {'G'};
    assert CharSet("T") == {'T'};
    assert CharSet("N") == {'N'};
    assert CharSet("AG") == {'A', 'G'};
    assert CharSet("CT") == {'C', 'T'};
    assert CharSet("GT") == {'G', 'T'};
    assert CharSet("AC") == {'A', 'C'};
    assert CharSet("CG") == {'C', 'G'};
    assert CharSet("AT") == {'A', 'T'};
    assert CharSet("CGT") == {'C', 'G', 'T'};
    assert CharSet("AGT") == {'A', 'G', 'T'};
    assert CharSet("ACT") == {'A', 'C', 'T'};
    assert CharSet("ACG") == {'A', 'C', 'G'};
    assert CharSet("ACGT") == {'A', 'C', 'G', 'T'};
  }

  /** When the entries' keys are distinct and comma-free, entry `j` is found under its key, with or without ','. */
  lemma {:induction false} CodeLookupUnique(codes: seq<(char, string)>, keys: seq<set<char>>, j: nat)
    requires |keys| == |codes| && j < |codes|
    requires forall i :: 0 <= i < |codes| ==> CharSet(codes[i].1) == keys[i] && ',' !in keys[i]
    requires forall i, k :: 0 <= i < k < |keys| ==> keys[i] != keys[k]
    ensures CodeLookup(codes, keys[j]) == Some(codes[j].0)
    ensures CodeLookup(codes, keys[j] + {','}) == Some(codes[j].0)
  {
    var n := |codes| - 1;
    if j < n {
      assert keys[j] != keys[n];
      assert keys[j] + {','} != keys[n] by { assert ',' in keys[j] + {','}; }
      assert keys[j] != keys[n] + {','} by { assert ',' in keys[n] + {','}; }
      assert keys[j] + {','} != keys[n] + {','} by {
        var c :| c in keys[j] - keys[n] || c in keys[n] - keys[j];
        assert c != ',';
      }
      CodeLookupUnique(codes[..n], keys[..n], j);
    }
  }

  /** The code `dict(NT_CODES)` keeps for `abr` comes from one of its entries. */
  lemma {:induction false} CodeNucleotidesFound(codes: seq<(char, string)>, abr: char)
    requires CodeNucleotides(codes, abr).Some?
    ensures exists j :: 0 <= j < |codes| && codes[j] == (abr, CodeNucleotides(codes, abr).value)
  {
    var n := |codes| - 1;
    if codes[n].0 != abr {
      CodeNucleotidesFound(codes[..n], abr);
      var j :| 0 <= j < n && codes[..n][j] == (abr, CodeNucleotides(codes[..n], abr).value);
      assert codes[j] == codes[..n][j];
    }
  }

  /** Each single base encodes to itself, and both "N" and "ACGT" encode to 'N'. */
  lemma EncodeGenotypeBases()
    ensures EncodeGenotype("A") == Success('A') && EncodeGenotype("C") == Success('C')
    ensures EncodeGenotype("G") == Success('G') && EncodeGenotype("T") == Success('T')
    ensures EncodeGenotype("N") == Success('N') && EncodeGenotype("ACGT") == Success('N')
  {
    EncodeSingle('A');
    EncodeSingle('C');
    EncodeSingle('G');
    EncodeSingle('T');
    EncodeSingle('N');
    EncodeEntry(15);
  }

  /** A single base, or 'N', encodes to itself. */
  lemma EncodeSingle(c: char)
    requires c in {'A', 'C', 'G', 'T', 'N'}
    ensures EncodeGenotype([c]) == Success(c)
  {
    var j := if c == 'A' then 0 else if c == 'C' then 1 else if c == 'G' then 2 else if c == 'T' then 3 else 4;
    assert NtCodes[j] == (c, [c]);
    EncodeEntry(j);
  }

  /** Entry `j` of `NT_CODES` is found under its nucleotide set, with or without ','. */
  lemma EncodeEntry(j: nat)
    requires j < |NtCodes|
    ensures EncodeGenotype(NtCodes[j].1) == Success(NtCodes[j].0)
    ensures EncodeGenotype(NtCodes[j].1 + ",") == Success(NtCodes[j].0)
  {
    NtKeysMatch();
    NtKeysDistinct();
    CodeLookupUnique(NtCodes, NtKeys, j);
    assert CharSet(NtCodes[j].1 + ",") == CharSet(NtCodes[j].1) + {','};
  }

  /**
   * Every code of `dict(NT_CODES)` round-trips: encoding its nucleotides, with or without a
   * trailing comma, gives the code back.
   */
  lemma EncodeGenotypeRoundTrip(abr: char)
    requires CodeNucleotides(NtCodes, abr).Some?
    ensures EncodeGenotype(CodeNucleotides(NtCodes, abr).value) == Success(abr)
    ensures EncodeGenotype(CodeNucleotides(NtCodes, abr).value + ",") == Success(abr)
  {
    var nts := CodeNucleotides(NtCodes, abr).value;
    CodeNucleotidesFound(NtCodes, abr);
    var j :| 0 <= j < |NtCodes| && NtCodes[j] == (abr, nts);
    EncodeEntry(j);
  }

  // ---------------------------------------------------------------------------
  // Positional split

  /** The characters of `s` whose position `i` is assigned to `key`, i.e. `splitBy[i % |splitBy|] == key`. */
  function Part(s: string, splitBy: string, key: char): (p: string)
    requires |splitBy| > 0
    ensures |p| <= |s|
  {
    if s == [] then []
    else
      var i := |s| - 1;
      Part(s[..i], splitBy, key) + (if splitBy[i % |splitBy|] == key then [s[i]] else [])
  }

  /** `split`: one string per distinct key of `splitBy`, holding the characters dealt to that key in order. */
  method SplitByPosition(s: string, splitBy: string) returns (r: Result<map<char, string>, string>)
    ensures r.Failure? <==> splitBy == []
    ensures r.Success? ==> r.value.Keys == CharSet(splitBy)
    ensures r.Success? ==> forall key :: key in r.value ==> r.value[key] == Part(s, splitBy, key)
  {
    if splitBy == [] {
      return Failure("No partitions to split by specified");
    }
    var parts: map<char, string> := map key | key in CharSet(splitBy) :: [];
    var i := 0;
    while i < |s|
      invariant 0 <= i <= |s|
      invariant parts.Keys == CharSet(splitBy)
      invariant forall key :: key in parts ==> parts[key] == Part(s[..i], splitBy, key)
    {
      var key := splitBy[i % |splitBy|];
      assert s[..i + 1][..i] == s[..i];
      parts := parts[key := parts[key] + [s[i]]];
      i := i + 1;
    }
    assert s[..i] == s;
    return Success(parts);
  }

  /** Total length of the parts for the keys in `keys`. */
  function PartsLength(s: string, splitBy: string, keys: seq<char>): nat
    requires |splitBy| > 0
  {
    if keys == [] then 0 else |Part(s, splitBy, keys[0])| + PartsLength(s, splitBy, keys[1..])
  }

  /** Over distinct keys, exactly one key (if present) takes the character dealt to `key`. */
  lemma {:induction false} PartsLengthStep(s: string, c: char, splitBy: string, keys: seq<char>)
    requires |splitBy| > 0
    requires forall i, j :: 0 <= i < j < |keys| ==> keys[i] != keys[j]
    ensures var key := splitBy[|s| % |splitBy|];
      PartsLength(s + [c], splitBy, keys) == PartsLength(s, splitBy, keys) + (if key in keys then 1 else 0)
  {
    var key := splitBy[|s| % |splitBy|];
    if keys != [] {
      assert (s + [c])[..|s|] == s;
      PartsLengthStep(s, c, splitBy, keys[1..]);
      if keys[0] == key {
        assert key !in keys[1..] by {
          forall j | 1 <= j < |keys| ensures keys[j] != key { }
        }
      }
    }
  }

  /** The parts for all distinct keys of `splitBy` together hold every character of `s` exactly once. */
  lemma {:induction false} PartsLengthTotal(s: string, splitBy: string, keys: seq<char>)
    requires |splitBy| > 0
    requires forall i, j :: 0 <= i < j < |keys| ==> keys[i] != keys[j]
    requires CharSet(keys) == CharSet(splitBy)
    ensures PartsLength(s, splitBy, keys) == |s|
  {
    if s != [] {
      var i := |s| - 1;
      PartsLengthTotal(s[..i], splitBy, keys);
      PartsLengthStep(s[..i], s[i], splitBy, keys);
      assert s[..i] + [s[i]] == s;
      assert splitBy[i % |splitBy|] in CharSet(splitBy);
    } else {
      PartsLengthEmpty(splitBy, keys);
    }
  }

  lemma {:induction false} PartsLengthEmpty(splitBy: string, keys: seq<char>)
    requires |splitBy| > 0
    ensures PartsLength([], splitBy, keys) == 0
  {
    if keys != [] {
      PartsLengthEmpty(splitBy, keys[1..]);
    }
  }
}
