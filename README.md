# A verified model of the pypeline / paleomix core

pypeline (later renamed paleomix) runs bioinformatics pipelines as a graph of
nodes. Each node reads input files and writes output files. It depends on other
nodes and may group subnodes. This project models, in Dafny, the parts of the
system that decide what happens, and proves properties about them:

- **The node graph** (`NodeGraph`, `GraphChecks`, `Staleness`).
  - The state each node is given (DONE, RUNNING, RUNABLE, QUEUED, OUTDATED, ERROR).
  - How a state change spreads to the nodes that depend on the changed node.
  - How `refresh_states` recomputes the states.
  - The reverse-dependency and intersection tables.
  - The file checks made when a graph is built: clobbered outputs, and inputs that nothing creates or that are created by a node the reader does not depend on.
  - The node summary.
- **The scheduler** (`Pipeline`).
  - The thread check made before a run.
  - `_start_new_tasks`, which picks runable nodes that fit the idle threads.
  - `_poll_running_nodes`, which takes the finished nodes off the running set.
- **Sequences** (`Sequences`).
  - The complement table, `complement` and `reverse_complement`.
  - The codon tables of both strands.
  - `encode_genotype` over the IUPAC code table.
  - `split`, which deals a sequence out by position.
- **Input validation**, both the paleomix and the older pypeline copy of `validation.py`.
  - The FASTA checker's line-by-line state machine (`Fasta`).
  - The FASTQ record and quality-offset checks (`Fastq`).
  - Duplicate-read detection at one position (`Duplicates`, with the dictionary-building loops in `Grouping`).
  - The read summary.
- **`cleanup`** (`Cleanup`).
  - Normalising the flags and mate fields of a record.
  - The flag filters.
  - The SAM header updates for sort order, PG and RG.
  - The record loop.
- **The BAM pipeline makefile** (`NgsMakefile`).
  - Legacy `Features` and `ExcludeReads` values are converted to dicts.
  - The mapDamage feature is normalised.
  - Options are passed down from target to sample to library.
  - Prefixes are expanded and checked.
  - Lane types are detected.
  - Three makefile-wide validations are made.
  - The check that rejects a human genome whose contigs are ordered lexically.

Dictionaries that the source updates in place are modelled as follows:

- the node graph is class `NodeGraph.Graph`;
- the makefile is `NgsMakefile.Makefile`;
- the SAM header is `Cleanup.Header`;
- a record is `Cleanup.Segment`.

Loops that build values become methods with loop invariants. Each of those methods is tied to a function that states the result. Lemmas then prove the properties the source promises about that function.

Nodes are identified by natural-number handles. The node table is closed under
dependencies and subnodes. Every dependency and every subnode of a node has a
smaller handle than the node itself, which is how acyclicity is stated.

The file system enters as a snapshot: a map from path to modification time, where
an absent path is a missing file. Path resolution, globbing, `fill_dict` and the
quality-offset classifier enter as parameters.

## Model

| member | source | states |
|---|---|---|
| Staleness.OldestTime | tests/nodegraph_test.py:120-125 | the oldest time of a non-empty set of existing files is one of their times and no later than any of them |
| Staleness.IsOutdatedOldest | tests/nodegraph_test.py:112-125 | "some input newer than some output" is the same as "some input newer than the oldest output", with inputs and outputs present |
| Staleness.MissingOutput | tests/nodegraph_test.py:79-87 | a node with a missing output file is neither done nor outdated |
| Staleness.OutdatedImpliesDone | tests/nodegraph_test.py:97-125 | an outdated node is done and has both inputs and outputs |
| Staleness.OutputsNewerNotOutdated | tests/nodegraph_test.py:112-117 | when no input is newer than an output the node is not outdated |
| Staleness.EmptyFileSets | tests/nodegraph_test.py:73-76 | no outputs means done; no inputs or no outputs means never outdated |
| Staleness.IsDoneAfterWrites | tests/nodegraph_test.py:79-87 | writing one file makes a node done exactly when every other output already existed |
| Staleness.SwapFlipsOutdated | tests/nodegraph_test.py:112-125 | a node reading an older file and writing a younger one is current; swapping the files makes it outdated |
| NodeGraph.MaxState | pypeline/nodegraph.py:199 | the maximum is one of the states and no state is above it in the state order |
| NodeGraph.ErrorPropagates | pypeline/nodegraph.py:199-200 | an ERROR dependency or subnode makes the node ERROR |
| NodeGraph.RunableOnlyWhenInputsDone | pypeline/nodegraph.py:213-220 | RUNABLE only for a plain node whose inputs are all DONE; then RUNABLE exactly when not done or outdated |
| NodeGraph.PendingInputs | pypeline/nodegraph.py:216-220 | a plain node waiting on RUNNING, RUNABLE or QUEUED inputs is OUTDATED if done, else QUEUED |
| NodeGraph.MetaNodeRules | pypeline/nodegraph.py:200-212 | a meta-node is never RUNABLE, is RUNNING exactly when a subnode runs, and is QUEUED behind a running dependency |
| NodeGraph.CombineWithDone | pypeline/nodegraph.py:190-199 | the DONE seeded into the dependency states never changes the outcome |
| NodeGraph.OwnFreshness | pypeline/nodegraph.py:213-225 | done is `is_done`; outdated is asked of done nodes and is true exactly when `is_outdated` holds; it is missing (the OSError) exactly when the node has output files and one of its input files is missing, a node without outputs never being outdated whatever its inputs (the body of `is_outdated` is not part of this model; tests/nodegraph_test.py:102-104 fixes the no-outputs case) |
| NodeGraph.EvalLocal | pypeline/nodegraph.py:185-228 | a node's computed state depends only on the states of its dependencies and subnodes |
| NodeGraph.CollectReverse | pypeline/nodegraph.py:362-374 | the depth-first walk records, for every visited node, exactly the visited nodes that list it, and visits everything the listed nodes list |
| NodeGraph.RecordNode | pypeline/nodegraph.py:362-374 | one visit adds the node under each of its dependencies and subnodes and keeps the reverse map exact |
| NodeGraph.CollectReverseDependencies | pypeline/nodegraph.py:362-374 | the reverse map has an entry for exactly the nodes reachable from the roots, and `n` is in `rev[d]` iff `n` lists `d` |
| NodeGraph.TopNodesCover | pypeline/nodegraph.py:60 | every node is a top node or is depended on by one |
| NodeGraph.Counts | pypeline/nodegraph.py:165-182 | the intersections of `x` cover exactly the nodes depending on `x`, each counting its own inputs that depend on `x` too |
| NodeGraph.ConsistentErrorPropagates | pypeline/nodegraph.py:199-200 | in a consistent graph any ERROR input makes a computed node ERROR |
| NodeGraph.ConsistentRunable | pypeline/nodegraph.py:213-220 | in a consistent graph a RUNABLE node is a plain node with all inputs DONE whose outputs are missing or outdated |
| NodeGraph.ConsistentIsDerived | pypeline/nodegraph.py:124-131 | any consistent map keeping the same ERROR and RUNNING entries holds the same states, so the computed states are unique |
| NodeGraph.RefreshedIsDerived | pypeline/nodegraph.py:124-131 | a map grown from the kept states by computed entries is consistent and holds the derived states |
| NodeGraph.PropagatedUnique | pypeline/nodegraph.py:96-112 | the states after a change do not depend on the order in which dependents are visited |
| NodeGraph.ConsistentAfterSet | pypeline/nodegraph.py:77-112 | a change keeps every computed node at its computed state |
| NodeGraph.PropagatedSame | pypeline/nodegraph.py:80-82 | setting a node to the state it already holds changes nothing |
| NodeGraph.InitialFlags | pypeline/nodegraph.py:92-94 | `requires_update` covers the intersection keys and is true exactly for the nodes listing the changed node |
| NodeGraph.Release | pypeline/nodegraph.py:107-112 | releasing a node lowers by one the count of each node listing it, flags them when the state changed, and removes the node |
| NodeGraph.WorklistReady | pypeline/nodegraph.py:96-112 | a non-empty worklist always has a node with count zero, so the loop makes progress |
| NodeGraph.RefreshKeepsPinned | pypeline/nodegraph.py:125-128 | `refresh_states` leaves ERROR and RUNNING nodes as they were |
| NodeGraph.Graph.constructor | pypeline/nodegraph.py:50-69 | the built graph's states are the computed states for every reachable node, and consistent |
| NodeGraph.Graph.UpdateNodeState | pypeline/nodegraph.py:185-228 | a stored state is returned unchanged; otherwise the node gets its computed state and only computed entries are added |
| NodeGraph.Graph.UpdateStates | pypeline/nodegraph.py:190-196 | every node in the set gets a stored state, and the result is the set of their states |
| NodeGraph.Graph.Visit | pypeline/nodegraph.py:96-112 | one visit keeps the worklist invariant, keeps the other ready nodes ready and shrinks the worklist by one |
| NodeGraph.Graph.VisitReady | pypeline/nodegraph.py:96-112 | one pass over the nodes ready at its start keeps the invariant and strictly shrinks the worklist |
| NodeGraph.Graph.SetNodeState | pypeline/nodegraph.py:77-112 | only RUNNING, ERROR and DONE may be set (others fail, changing nothing); afterwards the states are the unique propagated ones |
| NodeGraph.Graph.RefreshStates | pypeline/nodegraph.py:124-131 | every node gets the state derived from the kept ERROR/RUNNING entries and the file system, and the graph is consistent |
| GraphChecks.CollectDependencies | pypeline/nodegraph.py:343-359 | the memo maps each node of `ids` (and each node already there) to exactly its transitive dependencies and subnodes |
| GraphChecks.Gather | pypeline/nodegraph.py:343-359 | the collected set is the dependencies and subnodes plus the memo entries of each |
| GraphChecks.GatherIsDesc | pypeline/nodegraph.py:343-359 | with memo entries for the inputs, the collected set is the transitive closure |
| GraphChecks.AddFiles | pypeline/nodegraph.py:263-287 | adding a node's files to the index adds that node under exactly those files |
| GraphChecks.IndexFiles | pypeline/nodegraph.py:263-287 | the input and output indexes map each listed file to exactly the nodes listing it |
| GraphChecks.IndexedUsers | pypeline/nodegraph.py:263-287 | a file is indexed iff some node uses it, and then it maps to those users |
| GraphChecks.ResolveOutputs | pypeline/nodegraph.py:290-315 | each resolved path maps to all its claims; a path with no entry has none |
| GraphChecks.CheckOutputFiles | pypeline/nodegraph.py:290-315 | a file is reported exactly when more than one node claims it, once, with its claimants |
| GraphChecks.ReportClobbers | pypeline/nodegraph.py:290-315 | the reporting loop reports exactly the paths with several claims, each once |
| GraphChecks.OwnOutputReported | pypeline/nodegraph.py:318-340 | a node that reads a file only it creates is always reported |
| GraphChecks.InputErrorNone | pypeline/nodegraph.py:318-340 | a read file is fine iff every reader depends on a creator, or, with no creator, the file exists |
| GraphChecks.BadConsumers | pypeline/nodegraph.py:318-340 | the readers reported are exactly those with no creator among their dependencies |
| GraphChecks.BadIsUnlisted | pypeline/nodegraph.py:318-340 | with memoised closures that loop yields the unlisted readers |
| GraphChecks.CheckInputFile | pypeline/nodegraph.py:318-340 | the error for one read file is the one its definition gives |
| GraphChecks.CheckInputDependencies | pypeline/nodegraph.py:318-340 | exactly the read files with an error are reported, each with that error, in sorted file order |
| GraphChecks.ReportInputErrors | pypeline/nodegraph.py:318-340 | every file visited is reported or clean, and the reports stay in file order |
| GraphChecks.Take | pypeline/nodegraph.py:274-278 | at most `n` leading errors are kept, and at least one when there are some |
| GraphChecks.CheckFileDependencies | pypeline/nodegraph.py:263-287 | the checks pass exactly when no path has two claims and every read file is fine; failures list at most twice the cap, all genuine |
| GraphChecks.ClobbersFound | pypeline/nodegraph.py:290-315 | the output check finds nothing exactly when no resolved path has two claims |
| GraphChecks.MissingFound | pypeline/nodegraph.py:318-340 | the input check finds nothing exactly when every read file is fine |
| GraphChecks.SummaryAsWritten | pypeline/nodegraph.py:378-382 | the summary as written: up to four names in full, otherwise five names and a count line |
| GraphChecks.SummaryAsWrittenMiscounts | pypeline/nodegraph.py:378-382 | every shortened list as written misstates how many names were left out |
| GraphChecks.SummaryAsWrittenFiveNames | pypeline/nodegraph.py:378-382 | five names are all shown, followed by "and 5 more" |
| GraphChecks.Summary | pypeline/nodegraph.py:378-382 | the corrected summary stands for the names faithfully: all of them, or four and the exact number left out |
| GraphChecks.MoreLineInjective | pypeline/nodegraph.py:378-382 | different counts give different "more" lines, so the count can be read back |
| GraphChecks.SummarizeNodes | pypeline/nodegraph.py:378-382 | the summary lists the distinct names in sorted order, or the four least and the count of the others |
| GraphChecks.Build | pypeline/nodegraph.py:50-69 | the graph is built exactly when the file checks pass over the reachable nodes, and then its states are consistent; otherwise the errors are genuine and capped |
| Pipeline.CheckThreads | pypeline/pipeline.py:65-73 | the check passes iff every non-meta node asks for at most the maximum number of threads |
| Pipeline.TotalRemove | pypeline/pipeline.py:137 | the thread total is independent of the order of summation |
| Pipeline.RunningThreads | pypeline/pipeline.py:137 | the loop computes the total threads of the running nodes |
| Pipeline.SetState | pypeline/nodegraph.py:77-112 | a caller-allowed state change leaves the propagated states |
| Pipeline.Consider | pypeline/pipeline.py:138-162 | stop when nothing fits and nothing is idle; a fitting RUNABLE node is started (RUNNING) or, if not picklable, set to ERROR; DONE and ERROR nodes are dropped; otherwise nothing changes |
| Pipeline.ScanDone | pypeline/pipeline.py:135-167 | after the scan every remaining node was visited, or the scan halted at an unvisited node that did not fit with no thread idle; a visited node was started or finished exactly when it was found RUNABLE, or DONE or ERROR, with enough idle threads; the nodes whose state was changed are exactly the started ones, each set RUNNING, or ERROR when it cannot be pickled; the running set is the old one plus the started picklable nodes, within the thread budget, with every state change logged |
| Pipeline.ScanStep | pypeline/pipeline.py:138-161 | visiting one more node keeps the scan invariant: its visit is recorded with the state found and the threads idle, and the sets, budget and log stay consistent |
| Pipeline.VisitNodes | pypeline/pipeline.py:137-161 | the loop ends with the scan invariant, every remaining node visited unless it stopped at a node that did not fit with no thread idle |
| Pipeline.StartNewTasks | pypeline/pipeline.py:135-167 | `seen` records each visited node's state and the threads idle at its visit (a state the trace holds at that point); a node is started exactly when it was found RUNABLE and fitting, and the nodes whose state changed are exactly the started ones, each set RUNNING, or ERROR when it cannot be pickled, with the states following those changes; and dropped exactly when found DONE or ERROR and fitting; every remaining node is visited unless the scan halted at a node that did not fit once the running nodes used every thread; the nodes left are those neither started nor dropped, and the new running set is within the budget |
| Pipeline.Polled | pypeline/pipeline.py:170-190 | the polled nodes are exactly the nodes reported |
| Pipeline.Outcomes | pypeline/pipeline.py:170-190 | each reported node is set to ERROR if its process raised and to DONE otherwise, in report order |
| Pipeline.Clean | pypeline/pipeline.py:170-190 | a run is clean iff no reported process raised |
| Pipeline.PollingDone | pypeline/pipeline.py:170-190 | after every report the running set lost exactly the reported nodes and the states follow the outcomes |
| Pipeline.PollRunningNodes | pypeline/pipeline.py:170-190 | finished nodes leave the running set, `ok` says whether none raised, and each gets its outcome state in order |
| Sequences.BuildComplementTable | paleomix/common/sequences.py:29-40 | the 256-entry table maps each character to its complement base, 'N' for anything outside the pairs |
| Sequences.ComplementBaseInvolution | paleomix/common/sequences.py:29-40 | within the paired alphabet complementing twice gives the base back; anything else becomes 'N' |
| Sequences.Complement | paleomix/common/sequences.py:98-100 | each character is replaced by its complement, length kept |
| Sequences.ReverseComplement | paleomix/common/sequences.py:103-105 | position `i` of the result is the complement of position `n-1-i` |
| Sequences.ComplementInvolution | paleomix/common/sequences.py:98-100 | complementing twice returns the string |
| Sequences.ReverseComplementInvolution | paleomix/common/sequences.py:103-105 | `reverse_complement` is its own inverse |
| Sequences.ReverseComplementInAlphabet | paleomix/common/sequences.py:103-105 | the result stays inside the paired alphabet |
| Sequences.ReverseComplementInjective | paleomix/common/sequences.py:103-105 | two strings with equal reverse complements are equal |
| Sequences.CodonsPlusFacts | paleomix/common/sequences.py:74-95 | the forward table has 64 codons of three ACGT bases |
| Sequences.DeriveMinusStrand | paleomix/common/sequences.py:108-113 | the reverse table fails iff a codon holds a non-ACGT character; otherwise it maps each reverse-complemented codon to the same amino acid |
| Sequences.CodonsMinus | paleomix/common/sequences.py:108-113 | the reverse table has 64 entries, each the reverse complement of a forward codon |
| Sequences.BuildCodeTable | paleomix/common/sequences.py:48-71 | the table holds exactly the keys of the code list, with or without ',', each with its code |
| Sequences.EncodeGenotype | paleomix/common/sequences.py:116-125 | encoding succeeds exactly when the set of nucleotides is a key of the table |
| Sequences.EncodeGenotypeIgnoresCommas | paleomix/common/sequences.py:116-125 | removing commas changes neither success nor the code |
| Sequences.EncodeGenotypeAlphabet | paleomix/common/sequences.py:116-125 | only upper-case A, C, G, T, N and commas can be encoded |
| Sequences.EncodeGenotypeBases | paleomix/common/sequences.py:116-125 | each base encodes to itself, and both "N" and "ACGT" encode to 'N' |
| Sequences.EncodeGenotypeRoundTrip | paleomix/common/sequences.py:48-71 | every IUPAC code round-trips through its nucleotides, with or without a trailing comma |
| Sequences.CodeLookupUnique | paleomix/common/sequences.py:48-71 | with distinct comma-free keys each entry is found under its own key |
| Sequences.Part | paleomix/common/sequences.py:128-148 | a part is no longer than the sequence |
| Sequences.SplitByPosition | paleomix/common/sequences.py:128-148 | splitting fails exactly on an empty key string; otherwise each distinct key gets the characters dealt to it |
| Sequences.PartsLengthTotal | paleomix/common/sequences.py:128-148 | the parts together hold every character exactly once |
| Fasta.FirstField | paleomix/nodes/validation.py:472-491 | the field has no space and is the whole line or the part before the first space |
| Fasta.ValidateFastaHeader | paleomix/nodes/validation.py:472-491 | a header passes iff its name matches the RNAME pattern and is new, and is then recorded; empty, invalid and duplicate names get their own errors |
| Fasta.ValidateFastaLine | paleomix/nodes/validation.py:497-511 | a line passes iff all its characters are valid; a lone invalid '\r' is its own error, otherwise the invalid characters are reported |
| Fasta.Feed | paleomix/nodes/validation.py:398-453 | an accepted line moves the state machine on; only headers add names |
| Fasta.AtEnd | paleomix/nodes/validation.py:455-463 | the file may end only inside a sequence or in trailing whitespace |
| Fasta.FeedTracks | paleomix/nodes/validation.py:398-453 | the machine fails on exactly the lines that do not fit with those before them |
| Fasta.CheckFastaFile | paleomix/nodes/validation.py:390-463 | a file passes exactly when it is well formed; no header and a trailing header get their own errors; a file with a line that does not fit fails with the error of the first such line, carrying its line number |
| Fasta.FirstNamed | paleomix/nodes/validation.py:484-491 | the first header with a given name, or none; a repeated name is reported with the line that first used it |
| Fasta.FeedError | paleomix/nodes/validation.py:398-453 | at the first line that does not fit, the machine fails with the error defined from the file's lines |
| Fasta.CheckFastaFileLegacy | pypeline/nodes/validation.py:298-359 | the older check accepts the same files but merges the two end-of-file errors into one; a line that does not fit fails with the error of the first such line |
| Fasta.HeaderThenSequence | paleomix/nodes/validation.py:398-453 | in an accepted file each header is followed by a sequence line |
| Fasta.NamesDistinct | paleomix/nodes/validation.py:472-491 | in an accepted file no two headers share a name |
| Fasta.SequenceAfterHeader | paleomix/nodes/validation.py:398-453 | every sequence line comes after some header |
| Fasta.RecordLengths | paleomix/nodes/validation.py:398-453 | within a record every line but the last is as long as the first, and the last is no longer |
| Fastq.StripRight | paleomix/nodes/validation.py:340-387 | the result is a prefix of the input with no trailing whitespace |
| Fastq.Head | paleomix/nodes/validation.py:340-387 | the head is the first character, or empty for an empty line |
| Fastq.FirstErrorIsFirst | paleomix/nodes/validation.py:340-387 | no error iff every record is good; otherwise the error of the first bad record |
| Fastq.Qualities | paleomix/nodes/validation.py:340-387 | the quality line of each record, in order |
| Fastq.CollectQualities | paleomix/nodes/validation.py:340-387 | fails with the first bad record's error, or yields every quality line and the updated statistics |
| Fastq.RecordsWellFormed | paleomix/nodes/validation.py:340-387 | a file passes iff it holds whole records with '@' and '+' lines and sequences as long as their qualities |
| Fastq.OffsetError | paleomix/nodes/validation.py:187-220 | no error iff the offset is ambiguous, matches the required one, or the file is empty and allowed to be |
| Fastq.CheckFile | paleomix/nodes/validation.py:187-220 | one file's error is its defined error, and it is skipped iff it is empty and allowed to be |
| Fastq.CheckFastqFiles | paleomix/nodes/validation.py:187-220 | passes iff every file is good, failing with the error of the first bad file; otherwise returns the summed statistics |
| Fastq.FirstSkipped | pypeline/nodes/validation.py:217-219 | the index of the first file the older check returns at |
| Fastq.CheckFastqFilesLegacy | pypeline/nodes/validation.py:207-231 | the older check passes iff every file before the first skipped one is good, and fails with the error of the first bad file |
| Fastq.LegacySkipsLaterFiles | pypeline/nodes/validation.py:217-219 | an allowed empty file followed by a mixed-offset file passes the older check but fails the newer one |
| Grouping.GroupPairs | paleomix/nodes/validation.py:288-300 | the `defaultdict(list)` loop groups every value under its key, keys in first-seen order |
| Grouping.GroupIsSelect | paleomix/nodes/validation.py:288-300 | the dict holds exactly the keys seen, each once, listing that key's values in order |
| Grouping.SelectTwice | paleomix/nodes/validation.py:293-296 | two values are listed under a key iff two pairs have that key |
| Grouping.TallyItems | pypeline/nodes/validation.py:130-132 | the `defaultdict(int)` loop gives the tally |
| Grouping.TallyCounts | pypeline/nodes/validation.py:130-132 | the tally holds exactly the items seen, each with its number of occurrences |
| Duplicates.Oriented | paleomix/nodes/validation.py:302-304 | a reverse read is reported reverse-complemented with reversed qualities; a forward read as is |
| Duplicates.SharedOfIff | paleomix/nodes/validation.py:293-296 | a key is shared iff two records of the name hold it |
| Duplicates.KeyReportsShared | paleomix/nodes/validation.py:293-309 | one report per shared key, in order, each made from that key's records |
| Duplicates.ProcessBamReads | paleomix/nodes/validation.py:282-309 | the reports for all names at the position, in the order the names are yielded |
| Duplicates.NameReports | paleomix/nodes/validation.py:284-309 | the reports for one name |
| Duplicates.ReportKeys | paleomix/nodes/validation.py:293-309 | one report per key held by more than one record |
| Duplicates.ReportedKeys | paleomix/nodes/validation.py:288-296 | a name is reported for exactly the keys two of its records share |
| Duplicates.ReportedRecords | paleomix/nodes/validation.py:298-300 | each report lists, per file, exactly that file's records with the key |
| Duplicates.SingleNameShortcut | paleomix/nodes/validation.py:284-286 | skipping a name seen once loses no report |
| Duplicates.ProcessReads | pypeline/nodes/validation.py:114-162 | raises iff some finding exists, and reports the first one |
| Duplicates.FirstFinding | pypeline/nodes/validation.py:125-162 | the first key held by more than one record, if any |
| Duplicates.GroupFindingsIff | pypeline/nodes/validation.py:120-128 | a name gives a finding iff two of its records agree on strand, name, sequence and qualities |
| Duplicates.FindingsIff | pypeline/nodes/validation.py:114-162 | the check raises iff some name has two such identical records |
| Duplicates.FindingCounts | pypeline/nodes/validation.py:130-132 | the counts give per file how many of the duplicate records it holds |
| Duplicates.CountsAddUp | paleomix/nodes/validation.py:312-324 | every record is counted as mate 1, mate 2 or unpaired, exactly once |
| Duplicates.SummarizeReads | paleomix/nodes/validation.py:312-333 | the summary is made from the three counts |
| Duplicates.NoReadsIffEmpty | paleomix/nodes/validation.py:312-333 | "No reads" exactly for no records; otherwise the summary starts with a non-zero count |
| Duplicates.NatToStringLeading | paleomix/nodes/validation.py:328-331 | a positive count is written without a leading zero |
| Cleanup.Segment.CleanupRecord | paleomix/tools/cleanup.py:97-135 | the record becomes its cleaned form |
| Cleanup.CleanedUnpaired | paleomix/tools/cleanup.py:97-135 | an unpaired read loses the paired-only flags and all mate information |
| Cleanup.CleanedUnmapped | paleomix/tools/cleanup.py:97-135 | an unmapped read gets quality 0, no CIGAR, loses flags 0x2/0x100/0x800 and is placed with its mate |
| Cleanup.CleanedMateUnmapped | paleomix/tools/cleanup.py:97-135 | a mapped read with an unmapped mate points its mate fields at itself and loses its MC tags |
| Cleanup.CleanedMappedKeeps | paleomix/tools/cleanup.py:97-135 | a mapped read with a mapped mate keeps position, quality and CIGAR |
| Cleanup.CleanedIdempotent | paleomix/tools/cleanup.py:97-135 | cleaning a cleaned record changes nothing |
| Cleanup.FilterRecordIff | paleomix/tools/cleanup.py:138-155 | a record is filtered iff it has an excluded flag or lacks a required one, paired-only flags ignored for unpaired reads |
| Cleanup.FilterIgnoresPairedOnlyFlags | paleomix/tools/cleanup.py:138-155 | for unpaired reads, paired-only flags in either mask make no difference |
| Cleanup.NoFlagsNoFilter | paleomix/tools/cleanup.py:167 | with neither mask set nothing is filtered |
| Cleanup.Header.SetSortOrder | paleomix/tools/cleanup.py:56-59 | the HD line becomes the sorted one; PG and RG are unchanged |
| Cleanup.SortedHdKeeps | paleomix/tools/cleanup.py:56-59 | the header is marked coordinate-sorted and keeps the other HD fields, or gets the default HD line |
| Cleanup.Header.SetPgTags | paleomix/tools/cleanup.py:62-72 | PG becomes the result of applying every tag update; HD and RG are unchanged |
| Cleanup.PgUpdateOnlyFirstMatch | paleomix/tools/cleanup.py:62-72 | an update sets the field of the first entry with the ID, or appends a new entry; nothing else changes |
| Cleanup.PgTagsOk | paleomix/tools/cleanup.py:62-72 | PG tags succeed iff every tag has three parts; no tags leaves PG as it was |
| Cleanup.Header.SetRgTags | paleomix/tools/cleanup.py:75-81 | succeeds iff every tag has two parts, and then RG is the single new read group |
| Cleanup.RgFromKeeps | paleomix/tools/cleanup.py:75-81 | fields no tag sets keep their value |
| Cleanup.RgIdKept | paleomix/tools/cleanup.py:75-81 | the read group's ID is `rgId` unless a tag sets ID |
| Cleanup.RgFromOk | paleomix/tools/cleanup.py:75-81 | the read group builds iff every tag has two parts |
| Cleanup.CleanupUnmapped | paleomix/tools/cleanup.py:158-195 | a header error is returned as is; otherwise the updated header and the records kept |
| Cleanup.CleanRecords | paleomix/tools/cleanup.py:177-193 | the loop writes exactly the kept records |
| Cleanup.OutputHeader | paleomix/tools/cleanup.py:158-175 | the header written is the updated input header |
| Cleanup.CleanupAndFilter | paleomix/tools/cleanup.py:177-193 | a record is written iff its cleaned form passes the filters, with its RG tag replaced when asked |
| Cleanup.KeptAreCleaned | paleomix/tools/cleanup.py:177-193 | every record written is a cleaned input record that passes the filters |
| Cleanup.KeptQuality | paleomix/tools/cleanup.py:181-184 | no mapped record below the minimum mapping quality is written |
| Cleanup.KeptReadGroup | paleomix/tools/cleanup.py:186-191 | with a read group given, every record written carries exactly that one RG tag |
| NgsMakefile.BamFeatures | paleomix/pipelines/ngs/makefile.py:161-172 | a legacy list becomes a dict over every feature, true exactly for the listed ones; unknown names fail; other values are kept |
| NgsMakefile.SpacesRemoved | paleomix/pipelines/ngs/makefile.py:161-172 | every accepted name, with spaces removed, is a key of the features dict |
| NgsMakefile.ExcludeReads | paleomix/pipelines/ngs/makefile.py:183-198 | a legacy list becomes a dict over the five read types, true exactly for the excluded ones ("Single" also excludes "Singleton") |
| NgsMakefile.MapDamageModes | paleomix/pipelines/ngs/makefile.py:376-386 | an allowed mapDamage value becomes one of the four modes |
| NgsMakefile.MapDamageIdempotent | paleomix/pipelines/ngs/makefile.py:376-386 | mangling twice is mangling once, and modes other than "yes" are kept |
| NgsMakefile.MangledFeatures | paleomix/pipelines/ngs/makefile.py:376-386 | after the pass the root options still have a mapDamage feature |
| NgsMakefile.MangledFeaturesOnlyMapDamage | paleomix/pipelines/ngs/makefile.py:376-386 | only mapDamage changes, and a second run changes nothing |
| NgsMakefile.LibrariesPassSpec | paleomix/pipelines/ngs/makefile.py:352-373 | fails iff a library sets Features; otherwise each library gets its options filled from above |
| NgsMakefile.SamplesPassSpec | paleomix/pipelines/ngs/makefile.py:352-373 | fails iff a sample or library sets Features; samples keep no options |
| NgsMakefile.TargetsPassSpec | paleomix/pipelines/ngs/makefile.py:352-373 | fails iff Features appears below the root; targets keep no options |
| NgsMakefile.LibraryReceivesOptions | paleomix/pipelines/ngs/makefile.py:352-373 | a library's options are its own filled from its sample's, its target's and the root's |
| NgsMakefile.Expand | paleomix/pipelines/ngs/makefile.py:391-404 | every record a prefix entry yields has a Path |
| NgsMakefile.Collect | paleomix/pipelines/ngs/makefile.py:391-404 | every collected record has a Path |
| NgsMakefile.KeptSpec | paleomix/pipelines/ngs/makefile.py:406-419 | the second loop succeeds iff names are distinct and every Path ends in ".fasta" |
| NgsMakefile.KeptTags | paleomix/pipelines/ngs/makefile.py:406-419 | on success every record is kept in order, tagged with its Name and Reference |
| NgsMakefile.CollectPlain | paleomix/pipelines/ngs/makefile.py:391-404 | entries without '*' pass the first loop unchanged |
| NgsMakefile.PrefixesPassOk | paleomix/pipelines/ngs/makefile.py:389-424 | after the pass: at least one prefix, distinct names, FASTA paths, each tagged with its name and path |
| NgsMakefile.LaneTypeSpec | paleomix/pipelines/ngs/makefile.py:504-533 | strings are raw; dicts over read types with {Pair} exactly under "Paired" are trimmed; everything else fails |
| NgsMakefile.MangledLane | paleomix/pipelines/ngs/makefile.py:458-469 | a lane keeps its data and options and gets its type; trimmed lanes with Solexa qualities fail |
| NgsMakefile.ValidateLibraries | paleomix/pipelines/ngs/makefile.py:646-657 | no error iff no library name of a target appears under two samples; an error names such a library |
| NgsMakefile.GroupedSamples | paleomix/pipelines/ngs/makefile.py:646-657 | a library has two samples in its group exactly when it spans samples |
| NgsMakefile.AllTargetNamesPrefix | paleomix/pipelines/ngs/makefile.py:701-710 | the target names of the first makefiles are among all of them |
| NgsMakefile.ValidateDuplicateTargets | paleomix/pipelines/ngs/makefile.py:701-710 | no error iff target names are distinct across makefiles; otherwise the first repeated one |
| NgsMakefile.ValidateFeatures | paleomix/pipelines/ngs/makefile.py:713-728 | no error iff every makefile with region depth histograms also has a raw or realigned BAM |
| NgsMakefile.SizeToIndexIsLast | paleomix/pipelines/ngs/makefile.py:820-840 | each contig size maps to the last index where it occurs |
| NgsMakefile.Locate | paleomix/pipelines/ngs/makefile.py:820-840 | the index of the first candidate size found, none iff no size is found |
| NgsMakefile.IsInvalidHgPrefix | paleomix/pipelines/ngs/makefile.py:820-840 | the loop decides the prefix is invalid exactly by the definition |
| NgsMakefile.NotHumanIsValid | paleomix/pipelines/ngs/makefile.py:820-840 | without all three chromosome sizes the prefix is valid |
| NgsMakefile.LocatedNone | paleomix/pipelines/ngs/makefile.py:820-840 | no candidate size found gives none |
| NgsMakefile.Hg19Orders | paleomix/pipelines/ngs/makefile.py:820-840 | hg19 in numeric order passes and in lexical order is rejected |
| NgsMakefile.Makefile.MangleFeatures | paleomix/pipelines/ngs/makefile.py:376-386 | the root options are mangled; prefixes and targets are unchanged |
| NgsMakefile.Makefile.MangleOptions | paleomix/pipelines/ngs/makefile.py:352-373 | targets become the options pass's result, or the error is returned |
| NgsMakefile.Makefile.ManglePrefixes | paleomix/pipelines/ngs/makefile.py:389-424 | prefixes become the pass's result, or the error is returned |
| NgsMakefile.UpdateTargets | paleomix/pipelines/ngs/makefile.py:352-373 | the loop over targets computes the options pass |
| NgsMakefile.CollectRecords | paleomix/pipelines/ngs/makefile.py:391-404 | the first loop computes the collected records |
| NgsMakefile.KeepRecords | paleomix/pipelines/ngs/makefile.py:406-419 | the second loop computes the kept records |
| NgsMakefile.PrefixesOf | paleomix/pipelines/ngs/makefile.py:389-424 | the whole prefix pass, including the empty-prefixes error |

## Left out

- Observers, logging, progress reports and error-message text. Errors are modelled as constructors carrying their data.
- The file system is a snapshot map from path to modification time. `os.path.realpath`, `exists` and `stat` are not called; their results are parameters.
- The multiprocessing pool, the result queue, signal handling and sleeping in `pipeline.py`. What the queue yields is a parameter, `reports`.
- Reservoir sampling of qualities, and the quality-offset classifier. The classifier, `classify_quality_strings`, is a parameter.
- BAM and FASTQ I/O through pysam and `cat` subprocesses. Merging of BAM files and grouping of reads by position in `check_bam_files` are also left out. Only the per-position processing is modelled.
- Python 2 dict iteration order is modelled as insertion order. Node sets are iterated in an unspecified order, and the proofs hold for every order.
- SAM flags are modelled as sets of bit values.
- NgsMakefile.Makefile.MangleOptions: on error the targets are left unchanged. The source has already updated some of them.
- NgsMakefile.Makefile.ManglePrefixes: on error the prefixes are left unchanged. The source has already rebuilt some of them.
- `fill_dict` and the `{Pair}` test of a path are parameters of the makefile model.
- Globbing is a parameter, `expand`. The check of a globbed name against `_VALID_PREFIX_NAME` is not modelled.
- NgsMakefile.MangledLane: path validation in `_mangle_lanes`, `_mangle_tags` and `_split_lanes_by_filenames` are not part of this model.
- NgsMakefile.ValidateLibraries: reports some spanning library. It does not claim to report the first one in dict order.
- NgsMakefile.ExcludeReads: the docstring says listed types become False. The code sets them True, and the model follows the code.
- The `None` that `check_fasta_file` gives its line length after a header is modelled as 0. It is never read before the first sequence line of the record sets it.
- Lines are given to the FASTA and FASTQ checks already split, without their "\n".
- The node summary and the duplicate-read messages are modelled as the data they show, not as formatted text.
- `DetectInputDuplicationNode.run` and the error raising of `_process_reads` are not modelled. The error is modelled by its value, `Findings`.
- The two `Pair` mismatch errors of `_determine_lane_type` are merged into one error.
- GraphChecks.Build: the executable and version-requirement checks of `NodeGraph.__init__` (`_check_required_executables`, `_check_version_requirements`) are not modelled; the graph is built when the file checks pass.
- Sequences.SplitByPosition: the default `split_by="123"` is not modelled; the key string is always passed.
- Python integers are unbounded, and so are the model's integers. No counter in the core overflows.

## Findings

| source | as written | input that shows it | evidently intended | confidence | as-written member | corrected member |
|---|---|---|---|---|---|---|
| pypeline/nodegraph.py:378-382 | past four names, shows five names and says "and N more nodes" with N the number of all names | five nodes named a..e: all five shown, then "and 5 more nodes ..." | show four names and count the others | not executed | GraphChecks.SummaryAsWrittenFiveNames | GraphChecks.Summary |
| pypeline/nodes/validation.py:217-219 | an empty file, when empty files are allowed, `return`s from the loop and the later files are never checked | an allowed empty file, then a file whose qualities mix offsets | skip the empty file and check the rest, as paleomix/nodes/validation.py does | not executed | Fastq.LegacySkipsLaterFiles | Fastq.CheckFastqFiles |
