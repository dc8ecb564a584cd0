# seq_tools in Dafny

A Dafny model of the sequence-processing core of seq_tools, a small Python
toolkit for biological sequences, with proofs about the model. It covers
three groups of logic.

- **Sequence values** (`seq_tools.py`, `modules/dna_rna_tools_modules.py`).
  The class hierarchy of DNA, RNA and amino-acid sequences becomes one value
  `BioSeq` tagged with a `Kind`. Its constructor is a function returning
  `Result`: the `ValueError` for a character outside the alphabet becomes
  `Err(InvalidCharacters)`. A method the class lacks becomes
  `Err(Unsupported)`, the model of the `AttributeError`.
  - The transforms are complement, reverse, reverse complement and
    transcription. Each is proved length preserving and valid for its
    variant, with the values each position takes.
  - Complement, reverse and reverse complement are proved to be
    involutions. The free functions on plain strings are modelled too,
    with their alphabet test, their type inference and their KeyErrors.
- **FASTQ filtering** (`modules/filter_fastq_modules.py` and the selection
  loop of `filter_fastq` in `seq_tools.py`).
  - A read table, the Python dict from read name to (sequence, quality), is
    a sequence of (name, read) pairs with distinct names. A dict insertion
    is `DictSet`.
  - Each filter is a method with a loop. It is proved equal to an
    order-preserving selection `Select`, and the selection is proved to be a
    sub-dict of its input that is idempotent.
  - Percentages and means are exact reals.
  - The GC and quality filters raise `ZeroDivisionError` on an empty
    sequence or an empty quality string. This is `Err(DivisionByZero)`, and
    the methods are proved to fail exactly then.
- **Line-driven text processing** (`modules/bioprocessor_modules.py`,
  `bio_files_processor.py`).
  - Files are sequences of lines, without their line breaks. The output
    file is the sequence of lines written.
  - The loops of `genes_from_gbk`, `find_genes_of_interest`,
    `save_to_fasta`, `convert_multiline_fasta_to_oneline` and
    `parse_blast_output` are methods. Each is proved equal to a reference
    function, and the properties are proved about that function.

Python's string operations are written out in module `Text`, restricted to
ASCII:
- `strip`, where whitespace includes `\x1c`-`\x1f` as in Python;
- `startswith` and the substring test `in`;
- `upper` and `lower`;
- `replace(x, "")`, as one left-to-right pass;
- `split(c)[0]` and `split(c)[1]`;
- `count`;
- string `<=`.

Two places where the code and its own documentation disagree; the model
follows the code:
- `na_type` decides on emptiness first: its loop returns during its first
  iteration. The empty string yields `None`, and a string without T/t is
  "RNA" even when it has no U.
- In `genes_from_gbk`, every line of a CDS entry that is not a qualifier
  line is appended to the translation. That includes lines of later
  features, up to the next CDS line. An unnamed entry is written by
  `save_to_fasta` with the header `>None`.

## Model

| member | source | states |
|---|---|---|
| SeqTools.New | seq_tools.py:29-33 | construction returns a value of the requested variant, holding the given text, that is valid for its alphabet |
| SeqTools.CheckAlphabet | seq_tools.py:101-120 | the nucleic-acid alphabet test (its properties are stated by SeqTools.NewSpec) |
| SeqTools.Len | seq_tools.py:35-40 | the length of the held text (used in the length clauses of every transform) |
| SeqTools.NewSpec | seq_tools.py:101-266 | DNA construction succeeds iff every character is one of A,T,G,C,a,t,g,c; RNA iff one of A,U,G,C,a,u,g,c; protein iff the text is non-empty and every upper-cased character is an amino-acid letter or `*`; every failure is the ValueError |
| SeqTools.Complement | seq_tools.py:135-137 | complement fails exactly on proteins; otherwise it yields a valid value of the same variant and the same length |
| SeqTools.ComplementAt | seq_tools.py:135-137 | position i of the complement is the variant's table applied to position i |
| SeqTools.ComplementInvolution | seq_tools.py:184-193 | complementing a DNA or RNA value twice gives the same value back |
| SeqTools.Reverse | seq_tools.py:152 | reverse fails exactly on proteins; otherwise it yields a valid value of the same variant and the same length |
| SeqTools.ReverseAt | seq_tools.py:152 | position i of the reverse is position n-1-i of the input |
| SeqTools.ReverseInvolution | seq_tools.py:152 | reversing twice gives the same value back |
| SeqTools.ReverseComplement | seq_tools.py:167 | reverse complement fails exactly on proteins; otherwise it yields a valid value of the same variant and length |
| SeqTools.ReverseComplementAt | seq_tools.py:167 | position i of the reverse complement is the complement of position n-1-i |
| SeqTools.ReverseComplementInvolution | seq_tools.py:167 | applying the reverse complement twice gives the value back |
| SeqTools.Transcribe | seq_tools.py:201-203 | transcription succeeds exactly on DNA and yields a valid RNA value of the same length |
| SeqTools.TranscribeSpec | seq_tools.py:201-203 | T becomes U and t becomes u at the same positions, every other character stays, so no T or t remains; RNA and protein values are Err(Unsupported) |
| SeqTools.TranslateTU | seq_tools.py:201-202 | the T-to-U translation table applied to every position (its properties are stated by SeqTools.TranscribeSpec) |
| SeqTools.TranscribeAgreesWithFreeFunction | modules/dna_rna_tools_modules.py:49-59 | the free transcribe function and DNASequence.transcribe give the same text on every DNA value |
| SeqTools.ComplementAgreesOnDna | modules/dna_rna_tools_modules.py:85-97 | the free complement function agrees with DNASequence.complement on every DNA value |
| SeqTools.ComplementDiffersOnRna | modules/dna_rna_tools_modules.py:85-97 | the free complement sends "A" to "T" where RNASequence.complement gives "U" |
| SeqTools.NaTypeAgreesWithConstruction | modules/dna_rna_tools_modules.py:29-36 | a nucleic-acid text that na_type calls DNA constructs as DNA, and one it calls RNA constructs as RNA |
| SeqTools.ValidateProtein | seq_tools.py:268-288 | the ordered checks of validate_protein (its properties are stated by SeqTools.ValidateProteinSpec) |
| SeqTools.ValidateProteinSpec | seq_tools.py:280-288 | validate_protein returns true iff the value is a valid protein starting with upper-case M and at least 20 long; otherwise it raises, checking empty, alphabet, start and length in that order |
| SeqTools.LowercaseStartRejected | seq_tools.py:264-266 | a protein starting with lower-case m constructs, but validate_protein rejects it for its start |
| SeqTools.FilterFastq | seq_tools.py:316-331 | the selection loop returns the order-preserving selection of the records that pass all three tests |
| SeqTools.FilterFastqSelection | seq_tools.py:318-331 | the kept records are a subsequence of the input and are exactly the non-empty records with GC, length and mean quality in bounds; no empty sequence is kept |
| SeqTools.DefaultsKeepEveryRecord | seq_tools.py:294-296 | with the default bounds, every non-empty record up to 2^32 long with non-negative scores is kept |
| SeqTools.LengthScenario | tests/test_fastq_filter.py:22-32 | of "ATGC" and "ATGCGTAT", only the longer passes length bounds (5, 10) |
| SeqTools.QualityScenario | tests/test_fastq_filter.py:34-44 | of reads scored 10 and 40, only the second passes threshold 30 |
| Common.SumNonNegative | seq_tools.py:322-324 | a sum of non-negative scores is non-negative |
| DnaRnaTools.IsNa | modules/dna_rna_tools_modules.py:1-14 | every character is in the is_na list (used by DnaRnaTools.ComplementSpec) |
| DnaRnaTools.NaTypeOf | modules/dna_rna_tools_modules.py:17-36 | na_type's verdict (its cases are stated by DnaRnaTools.NaTypeCases) |
| DnaRnaTools.Transcribe | modules/dna_rna_tools_modules.py:39-59 | transcribe through its table (stated by DnaRnaTools.TranscribeSpec) |
| DnaRnaTools.Reverse | modules/dna_rna_tools_modules.py:62-72 | na[::-1] (stated by DnaRnaTools.ReverseInvolution) |
| DnaRnaTools.Complement | modules/dna_rna_tools_modules.py:75-97 | complement through its table (stated by DnaRnaTools.ComplementSpec) |
| DnaRnaTools.ReverseComplement | modules/dna_rna_tools_modules.py:100-110 | reverse of complement (stated by DnaRnaTools.ReverseComplementSpec) |
| DnaRnaTools.UpperContains | modules/dna_rna_tools_modules.py:30-31 | `c in na.upper()` holds iff na has c in either case |
| DnaRnaTools.NaTypeCases | modules/dna_rna_tools_modules.py:29-36 | for non-empty input: undetermined iff both T and U (either case), DNA iff T and no U, RNA iff no T; the empty input has no type |
| DnaRnaTools.TranscribeSpec | modules/dna_rna_tools_modules.py:49-59 | transcribe succeeds iff every character is a DNA letter; it keeps the length, maps T to U and t to u, and keeps the rest |
| DnaRnaTools.TranscribeRejectsU | modules/dna_rna_tools_modules.py:59 | an input holding U or u raises KeyError |
| DnaRnaTools.ReverseInvolution | modules/dna_rna_tools_modules.py:72 | reversing twice is the identity |
| DnaRnaTools.ComplementSpec | modules/dna_rna_tools_modules.py:85-97 | complement succeeds iff is_na holds; it maps each position through the table and never yields U or u |
| DnaRnaTools.ComplementInvolution | modules/dna_rna_tools_modules.py:85-97 | on nucleic-acid text without U or u, complementing twice gives the input back |
| DnaRnaTools.ComplementInvolutionExactly | modules/dna_rna_tools_modules.py:85-97 | complementing twice succeeds and gives the input back iff the input passes is_na and holds no U or u |
| DnaRnaTools.ComplementOfUIsNotInvolution | modules/dna_rna_tools_modules.py:86-89 | "U" complements to "A", whose complement is "T" |
| DnaRnaTools.ReverseComplementSpec | modules/dna_rna_tools_modules.py:110 | the reverse complement succeeds iff is_na holds, keeps the length, and holds the complement letters in reverse order |
| DnaRnaTools.ReverseComplementInvolution | modules/dna_rna_tools_modules.py:110 | on nucleic-acid text without U or u, applying the reverse complement twice gives the input back |
| FastqFilters.GcCount | modules/filter_fastq_modules.py:7-8 | gc_count fails (division by zero) exactly on the empty string and otherwise lies in [0, 100] |
| FastqFilters.GcCountCaseInvariant | modules/filter_fastq_modules.py:7 | gc_count is the same after upper- or lower-casing the input |
| FastqFilters.GcCountExamples | modules/filter_fastq_modules.py:8 | "GCGC" is 100 percent, "ATAT" is 0 percent, "" raises |
| FastqFilters.MeanQuality | modules/filter_fastq_modules.py:89-92 | the mean score fails exactly on an empty quality string |
| FastqFilters.MeanOfRepeatedCharacter | modules/filter_fastq_modules.py:90-92 | n copies of c have mean score ord(c) - 33 |
| FastqFilters.Select | modules/filter_fastq_modules.py:34-37 | an entry is selected iff it is an input entry whose read passes the test |
| FastqFilters.DictSetAppends | modules/filter_fastq_modules.py:37 | inserting the next input entry into the filtered dict appends it, as input names are distinct |
| FastqFilters.FilterGc | modules/filter_fastq_modules.py:31-38 | filter_gc raises iff some sequence is empty, and otherwise returns exactly the entries with GC content inside the bounds |
| FastqFilters.FilterLength | modules/filter_fastq_modules.py:60-66 | filter_length returns exactly the entries whose sequence length lies inside the bounds |
| FastqFilters.FilterQuality | modules/filter_fastq_modules.py:86-95 | filter_quality raises iff some quality string is empty, and otherwise returns exactly the entries whose mean Phred+33 score reaches the threshold |
| FastqFilters.SelectSpec | modules/filter_fastq_modules.py:31-38 | a selection is an order-preserving sub-dict: same entries, input names only, again a dict, and selecting twice is selecting once |
| FastqFilters.SelectNames | modules/filter_fastq_modules.py:37 | every name in a selection is an input name |
| FastqFilters.SubsequenceOfDictIsDict | modules/filter_fastq_modules.py:31-38 | an order-preserving selection from a dict has distinct names |
| FastqFilters.SubsequenceNames | modules/filter_fastq_modules.py:31-38 | an order-preserving selection has only input names |
| FastqFilters.Normalize | modules/filter_fastq_modules.py:32-33 | a bare bound b becomes the pair (0, b); a pair is kept (used by FastqFilters.FilterGc and FastqFilters.FilterLength) |
| FastqFilters.PhredScores | modules/filter_fastq_modules.py:89-91 | ord(c) - 33 for every character (stated by FastqFilters.MeanOfRepeatedCharacter and FastqFilters.MeanQualityNonNegative) |
| FastqFilters.DefaultGcKeepsEveryRead | modules/filter_fastq_modules.py:13 | with the default bounds (0, 100), every read with a non-empty sequence passes the GC test |
| FastqFilters.DefaultLengthKeepsEveryRead | modules/filter_fastq_modules.py:43 | with the default bounds (0, 2**32), every read up to 2**32 long passes the length test |
| FastqFilters.MeanQualityNonNegative | modules/filter_fastq_modules.py:89-92 | a non-empty quality string of characters from '!' up has a defined, non-negative mean score |
| FastqFilters.DefaultQualityKeepsEveryRead | modules/filter_fastq_modules.py:70 | with the default threshold 0, every read with a non-empty quality string of characters from '!' up passes |
| FastqFilters.LengthFilterScenario | modules/filter_fastq_modules.py:63-65 | of lengths 4 and 8, only 8 lies in (5, 10) |
| Bioprocessor.GenesFromGbk | modules/bioprocessor_modules.py:16-43 | the line loop returns what the reference scan of the lines gives, including the IndexError |
| Bioprocessor.Apply | modules/bioprocessor_modules.py:25-40 | the elif chain on an open entry (stated by the line-effect lemmas below) |
| Bioprocessor.Feed | modules/bioprocessor_modules.py:21-40 | one loop iteration (stated by Bioprocessor.FeedBound, FeedKeepsNamed and FeedRaises) |
| Bioprocessor.ScanLines | modules/bioprocessor_modules.py:20-40 | the loop over the lines (stated by Bioprocessor.ScanLinesBound and ScanAppend) |
| Bioprocessor.GenesOf | modules/bioprocessor_modules.py:16-43 | the loop followed by the final append (stated by Bioprocessor.GenesBound and OnlyLastMayBeUnnamed) |
| Bioprocessor.FeedBound | modules/bioprocessor_modules.py:21-24 | one line adds at most one entry to the result, and only a CDS line adds one |
| Bioprocessor.ScanLinesBound | modules/bioprocessor_modules.py:20-40 | a run of lines adds at most as many entries as it has CDS lines |
| Bioprocessor.GenesBound | modules/bioprocessor_modules.py:21-24 | the result has at most as many entries as the file has CDS lines |
| Bioprocessor.ScanWithoutCds | modules/bioprocessor_modules.py:25-39 | before any entry is open, lines without CDS change nothing |
| Bioprocessor.NoCdsNoGenes | modules/bioprocessor_modules.py:41-42 | a file without a CDS line yields an empty list and never raises |
| Bioprocessor.ScanAppend | modules/bioprocessor_modules.py:20 | scanning a + b is scanning a, then b from the state reached |
| Bioprocessor.LeadingLinesIgnored | modules/bioprocessor_modules.py:22-39 | lines before the first CDS line have no effect on the result |
| Bioprocessor.FeedKeepsNamed | modules/bioprocessor_modules.py:22-23 | one line only ever emits a named entry |
| Bioprocessor.ScanKeepsNamed | modules/bioprocessor_modules.py:22-23 | during the loop only named entries are emitted |
| Bioprocessor.OnlyLastMayBeUnnamed | modules/bioprocessor_modules.py:22-42 | every entry but the last has a name; only the final pending entry may be unnamed |
| Bioprocessor.ScanEndingInCds | modules/bioprocessor_modules.py:24 | after a final CDS line the pending entry is the fresh one |
| Bioprocessor.TrailingCdsYieldsFresh | modules/bioprocessor_modules.py:24-42 | a file ending in a CDS line yields, last, the empty entry that line opened |
| Bioprocessor.FeedRaises | modules/bioprocessor_modules.py:26 | one line raises only if it contains "/gene" and no '=' |
| Bioprocessor.GeneLinesWithoutEqualsRaise | modules/bioprocessor_modules.py:26 | a run of lines raises only if one of them contains "/gene" and no '=' |
| Bioprocessor.OnlyGeneLinesRaise | modules/bioprocessor_modules.py:25-27 | the only error is the IndexError of a "/gene" line without '=' |
| Bioprocessor.GeneLineEffect | modules/bioprocessor_modules.py:25-27 | on an open entry, a "/gene" line raises iff it has no '='; otherwise the name becomes the text after the first '=' up to the next one, without quotes and stripped, and the translation and the result list stay |
| Bioprocessor.TranslationLineEffect | modules/bioprocessor_modules.py:28-34 | a "/translation=" line of a named entry replaces the translation by the text after the first '=' up to the next one, without quotes and stripped; the name and the result list stay |
| Bioprocessor.ContinuationLineEffect | modules/bioprocessor_modules.py:35-40 | any other non-qualifier line is appended to the translation, stripped and without quotes |
| Bioprocessor.OtherQualifierIgnored | modules/bioprocessor_modules.py:35-40 | any other line starting with '/' changes nothing |
| Bioprocessor.Range | modules/bioprocessor_modules.py:77 | range(a, b) has max(0, b - a) elements, a + k at position k |
| Bioprocessor.RangeExcept | modules/bioprocessor_modules.py:89-93 | the middle loop's visited indices lie in [a, b) and are never idx |
| Bioprocessor.Window | modules/bioprocessor_modules.py:74-94 | the neighbour indices visited for a match lie in the list and are never the match itself |
| Bioprocessor.WindowUniform | modules/bioprocessor_modules.py:74-94 | with non-negative counts, j is visited iff max(0, idx-n_before) <= j < min(n, idx+n_after+1) and j != idx |
| Bioprocessor.AddNeighbours | modules/bioprocessor_modules.py:74-94 | the inner loops append, in window order, each visited neighbour not yet found |
| Bioprocessor.FindGenesOfInterest | modules/bioprocessor_modules.py:67-96 | the nested loops return the reference accumulation over all matching entries |
| Bioprocessor.AddAllMembers | modules/bioprocessor_modules.py:78-79 | after the appends, g is found iff it was found before or is a visited entry |
| Bioprocessor.AddAllDistinct | modules/bioprocessor_modules.py:78-79 | the membership test keeps the found list free of duplicates |
| Bioprocessor.FoundUpToSound | modules/bioprocessor_modules.py:68-94 | everything found after k entries is a neighbour of a matching entry before k |
| Bioprocessor.FoundUpToComplete | modules/bioprocessor_modules.py:68-94 | every neighbour of a matching entry before k is found after k entries |
| Bioprocessor.FoundUpToDistinct | modules/bioprocessor_modules.py:68-94 | the found list is duplicate-free at every stage |
| Bioprocessor.FoundSpec | modules/bioprocessor_modules.py:67-96 | the result has no duplicates, holds g iff g is a neighbour of some matching entry, and holds only entries from genes_info |
| Bioprocessor.Found | modules/bioprocessor_modules.py:67-96 | the accumulation over all entries matching a query (stated by Bioprocessor.FoundSpec) |
| Bioprocessor.SingleEntryHasNoNeighbours | modules/bioprocessor_modules.py:74-85 | a one-entry list yields an empty result |
| Bioprocessor.SaveToFasta | modules/bioprocessor_modules.py:109-113 | the loop writes the reference lines for the entries |
| Bioprocessor.FastaLines | modules/bioprocessor_modules.py:109-113 | the lines written for the entries (stated by Bioprocessor.FastaLayout) |
| Bioprocessor.WrittenSpec | modules/bioprocessor_modules.py:111 | the entries written keep the input order and are exactly those with a non-empty translation |
| Bioprocessor.FastaLayout | modules/bioprocessor_modules.py:110-113 | the file has two lines per written entry, ">" with the name (or "None") then the translation, in input order |
| BioFilesProcessor.ConvertMultilineFastaToOneline | bio_files_processor.py:18-36 | the loop writes the reference output for the lines |
| BioFilesProcessor.AfterRun | bio_files_processor.py:25-32 | the lines from the next header on; never longer than its input |
| BioFilesProcessor.Records | bio_files_processor.py:23-36 | the records from a header on (stated by BioFilesProcessor.RecordsFrom) |
| BioFilesProcessor.OneLine | bio_files_processor.py:18-36 | the whole output (stated by BioFilesProcessor.OneLineLayout) |
| BioFilesProcessor.HeaderLine | bio_files_processor.py:23-30 | a header line flushes the pending record, if any, and opens its own |
| BioFilesProcessor.SequenceLine | bio_files_processor.py:31-32 | a sequence line joins the pending record's sequence |
| BioFilesProcessor.NextHeader | bio_files_processor.py:23 | the first header index at or after p, or the end when there is none: no line between p and it is a header |
| BioFilesProcessor.HeadersFrom | bio_files_processor.py:23 | the listed header indices lie in [p, n) |
| BioFilesProcessor.HeadersFromSpec | bio_files_processor.py:22-23 | i is listed iff it is at or after p and its stripped line starts with ">"; the list is increasing |
| BioFilesProcessor.RecordsFrom | bio_files_processor.py:23-36 | from a header on, the output has two lines per header, in order |
| BioFilesProcessor.OneLineLayout | bio_files_processor.py:23-36 | output length is twice the number of headers; line 2k is the k-th stripped header, line 2k+1 the stripped lines after it, up to the next header, joined |
| BioFilesProcessor.NoHeadersNoOutput | bio_files_processor.py:25-34 | without header lines nothing is written |
| BioFilesProcessor.LeadingLinesDiscarded | bio_files_processor.py:25-32 | lines before the first header do not change the output |
| BioFilesProcessor.HitIsNotDescription | bio_files_processor.py:57-61 | no line is both a Description line and a hit line |
| BioFilesProcessor.Describe | bio_files_processor.py:62-64 | a description never holds '[' |
| BioFilesProcessor.DescribeHit | bio_files_processor.py:62-64 | for a stripped hit line ">" + x + rest where x holds no '[' and rest is empty or starts with '[', the description is x stripped with every "MULTISPECIES: " removed, and x stripped when it holds none |
| BioFilesProcessor.DescribeMultispecies | bio_files_processor.py:62-64 | when that text is "MULTISPECIES: " + z with no further occurrence, the description is z |
| BioFilesProcessor.ParseBlastOutput | bio_files_processor.py:51-73 | the output holds exactly the collected descriptions, each once, sorted by lower-cased text |
| BioFilesProcessor.SortByLower | bio_files_processor.py:69 | the sort holds exactly the set's elements, each once, ordered by lower-cased text |
| BioFilesProcessor.InsertSorted | bio_files_processor.py:69 | inserting after every element whose key is not greater keeps the order |
| BioFilesProcessor.InsertDistinct | bio_files_processor.py:69 | inserting a new element keeps the elements distinct |
| BioFilesProcessor.Collect | bio_files_processor.py:54-67 | the set of descriptions the loop collects (stated by BlastSound, BlastQueryComplete and OnePerQuery) |
| BioFilesProcessor.Step | bio_files_processor.py:57-67 | one loop iteration on (flag, set) |
| BioFilesProcessor.StateAt | bio_files_processor.py:54-67 | the loop state after i lines |
| BioFilesProcessor.CollectAt | bio_files_processor.py:54-67 | running the rest of the loop from the state after i lines gives the loop's result |
| BioFilesProcessor.OutputIsFinalState | bio_files_processor.py:54-67 | the loop's result is the set in its final state |
| BioFilesProcessor.FlagAt | bio_files_processor.py:57-66 | after i lines the flag is raised iff some Description line k < i has been seen with no Description line after it and no newly described hit since |
| BioFilesProcessor.FoundGrows | bio_files_processor.py:65-66 | the collected set only grows along the loop |
| BioFilesProcessor.FirstEntry | bio_files_processor.py:65-66 | a collected description entered the set at one particular step |
| BioFilesProcessor.CollectSuffix | bio_files_processor.py:54-67 | the result of the loop from any point is the result from some state there |
| BioFilesProcessor.CollectGrows | bio_files_processor.py:65-66 | descriptions once collected stay collected |
| BioFilesProcessor.FirstHitCollected | bio_files_processor.py:57-67 | the first hit line after the flag is raised is always collected |
| BioFilesProcessor.BlastComplete | bio_files_processor.py:57-67 | the next hit line after a Description line is in the output |
| BioFilesProcessor.BlastSound | bio_files_processor.py:57-67 | every output line is the description of a hit line i whose last preceding Description line is k, where every hit between k and i had a description already collected, and the description was new at i; it holds no '[' |
| BioFilesProcessor.BlastQueryComplete | bio_files_processor.py:57-67 | if line k is the last Description line before hit line i and every hit between them was already described, the description of line i is in the output |
| BioFilesProcessor.CollectCount | bio_files_processor.py:57-67 | from any state, the loop adds at most one description per Description line, plus one when the flag is up |
| BioFilesProcessor.OnePerQuery | bio_files_processor.py:51-73 | the output has at most as many lines as the file has Description lines |
| Text.TrimStartSpec | bio_files_processor.py:22 | lstrip removes only a run of leading whitespace, and all of it |
| Text.TrimEndSpec | bio_files_processor.py:22 | rstrip removes only a run of trailing whitespace, and all of it |
| Text.Strip | bio_files_processor.py:22 | strip as lstrip after rstrip (stated by Text.TrimStartSpec, TrimEndSpec and StripMember) |
| Text.StripMember | bio_files_processor.py:62 | stripping only removes characters |
| Text.ContainsChar | modules/dna_rna_tools_modules.py:30-31 | for a one-character pattern, `in` is membership |
| Text.ContainsMember | modules/bioprocessor_modules.py:28-33 | a text that contains a pattern contains each of its characters |
| Text.Upper | modules/dna_rna_tools_modules.py:30-31 | ASCII upper-casing at every position (stated by DnaRnaTools.UpperContains and FastqFilters.GcCountCaseInvariant) |
| Text.Lower | bio_files_processor.py:69 | ASCII lower-casing at every position, the sort key |
| Text.MapChars | modules/dna_rna_tools_modules.py:59 | a dict lookup per character, failing with KeyError on a missing key (stated by DnaRnaTools.TranscribeSpec and ComplementSpec) |
| Text.RemoveChar | modules/bioprocessor_modules.py:26 | removing a character keeps exactly the other characters |
| Text.RemoveAll | bio_files_processor.py:63-64 | removing a pattern never lengthens the text |
| Text.RemoveAllMember | bio_files_processor.py:63-64 | every character of the result is a character of the input |
| Text.RemoveAllKeeps | bio_files_processor.py:63-64 | a prefix in which no occurrence starts is kept as it is |
| Text.RemoveAllFirst | bio_files_processor.py:63-64 | the first occurrence is removed and the rest is processed after it: removing p from a + p + b, with no occurrence starting in a, gives a followed by the removal from b |
| Text.RemoveAllAbsent | bio_files_processor.py:63-64 | removing an absent pattern leaves the text unchanged |
| Text.BeforeFirst | bio_files_processor.py:62 | split(c)[0] is the longest prefix without c: a prefix free of c that either is the whole text or is followed by c |
| Text.BeforeFirstOf | bio_files_processor.py:62 | split(c)[0] of x + rest, with no c in x and rest empty or starting with c, is x |
| Text.IndexOf | modules/bioprocessor_modules.py:26 | the position of the first c |
| Text.SecondField | modules/bioprocessor_modules.py:26 | split(c)[1] exists iff c occurs, and then it is the text after the first c up to the next c or the end |
| Text.Count | modules/filter_fastq_modules.py:8 | str.count of one character (stated by Text.CountPairBound, CountPairExact and CountAbsent) |
| Text.CountPairBound | modules/filter_fastq_modules.py:8 | counts of two distinct characters add up to at most the length |
| Text.CountPairExact | modules/filter_fastq_modules.py:8 | in a text of only c and d, their counts add up to the length |
| Text.CountAbsent | modules/filter_fastq_modules.py:8 | an absent character counts zero |
| Text.LexLeTotal | bio_files_processor.py:69 | any two keys are comparable |
| Text.LexLeTransitive | bio_files_processor.py:69 | the key order is transitive |
| Common.FilterMembers | modules/filter_fastq_modules.py:34-37 | a selection holds exactly the input elements that pass the test |
| Common.FilterIsSubsequence | modules/filter_fastq_modules.py:34-37 | a selection keeps the input order |
| Common.FilterIdempotent | modules/filter_fastq_modules.py:34-37 | selecting twice is selecting once |
| Common.FilterAll | seq_tools.py:326-331 | when everything passes, everything is kept |
| Common.SumConstant | modules/filter_fastq_modules.py:92 | the sum of n copies of v is n * v |

## Left out

- Bio.SeqIO parsing and writing are left out. Records come in as values (name, sequence, Phred scores), and the output is the list handed to `SeqIO.write`.
- `Bio.SeqUtils.gc_fraction` is a parameter of the model; its definition is outside the modelled code.
- File and directory I/O is left out: `open`, `os.makedirs` and the `filtered/` folder. Inputs and outputs are sequences of lines.
- The test that no output file appears when nothing passes is not a property of the code: `SeqIO.write` runs unconditionally. It is not stated.
- The test expecting an "Input file must be in FASTQ format" error is not a property of the code, which raises no such error. It is not stated.
- Floating-point rounding of Python `/` is left out; percentages and means are exact reals.
- Non-ASCII behaviour of `strip`, `upper` and `lower` is left out; only ASCII letters and ASCII whitespace are modelled.
- `__getitem__`, `__str__` and `__repr__` are left out; they are formatting and indexing.
- The `NotImplementedError` guards of `NucleicAcidSequence` are left out: with a closed set of variants the base class is never instantiated.
- `select_genes_from_gbk_to_fasta` is left out; it only composes the modelled functions with file I/O.
- Queries in `find_genes_of_interest` are strings; non-string queries and their `TypeError` are left out.
- BioFilesProcessor.SortByLower: elements of the set whose lower-cased texts are equal come out in an arbitrary order, because Python's set iteration order is not fixed. SortByLower is proved to give one valid order, not the order of a particular interpreter run.
- FastqFilters.GcCount: the value is stated through its bounds and its case invariance, not as a closed formula.
- Text.RemoveAll: its own contract states only that the text does not grow; its value is stated by Text.RemoveAllKeeps, Text.RemoveAllFirst and Text.RemoveAllAbsent.
- BioFilesProcessor.Describe: its own contract states only that no '[' remains; its value is stated by BioFilesProcessor.DescribeHit and BioFilesProcessor.DescribeMultispecies.
