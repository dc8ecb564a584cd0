/** seq_tools.py: the biological-sequence values and the record selection of
    filter_fastq.

    The class hierarchy BiologicalSequence -> NucleicAcidSequence -> DNA/RNA,
    and -> AminoAcidSequence, is a closed tag Kind; each tag owns its
    alphabet (ComplementMap's keys, or the amino-acid letters). A BioSeq value
    is what the constructor of the class stores; New is the constructor
    itself, which raises ValueError (Err(InvalidCharacters)) on a character
    outside the alphabet. Methods a class lacks (complement on a protein,
    transcribe on RNA) are AttributeErrors, Err(Unsupported). */
module SeqTools {
  import opened Common
  import opened Text
  import DnaRnaTools

  datatype Kind = DNA | RNA | AminoAcid

  datatype BioSeq = BioSeq(kind: Kind, sequence: string)

  const DnaComplementMap: map<char, char> :=
    map['A' := 'T', 'T' := 'A', 'G' := 'C', 'C' := 'G',
        'a' := 't', 't' := 'a', 'g' := 'c', 'c' := 'g']

  const RnaComplementMap: map<char, char> :=
    map['A' := 'U', 'G' := 'C', 'U' := 'A', 'C' := 'G',
        'a' := 'u', 'u' := 'a', 'g' := 'c', 'c' := 'g']

  const ValidAminoAcids: set<char> :=
    {'A', 'C', 'D', 'E', 'F', 'G', 'H', 'I', 'K', 'L', 'M',
     'N', 'P', 'Q', 'R', 'S', 'T', 'V', 'W', 'Y', '*'}

  const StartCodon: char := 'M'

  const MinProteinLength: nat := 20

  /** The class attribute _complement_map (a protein has none). */
  function ComplementMap(k: Kind): map<char, char>
  {
    match k
    case DNA => DnaComplementMap
    case RNA => RnaComplementMap
    case AminoAcid => map[]
  }

  /** _check_alphabet: for DNA and RNA, set(sequence) is a subset of the map's
      keys; for a protein, the sequence is non-empty and set(sequence.upper())
      is a subset of the amino-acid letters. */
  predicate CheckAlphabet(k: Kind, s: string)
  {
    match k
    case AminoAcid => s != [] && forall i :: 0 <= i < |s| ==> Upper(s)[i] in ValidAminoAcids
    case _ => forall i :: 0 <= i < |s| ==> s[i] in ComplementMap(k)
  }

  /** What every constructed instance satisfies. */
  predicate Valid(b: BioSeq)
  {
    CheckAlphabet(b.kind, b.sequence)
  }

  /** BiologicalSequence.__init__ */
  function New(k: Kind, s: string): (r: Result<BioSeq>)
    ensures r.Ok? ==> r.value.kind == k && r.value.sequence == s && Valid(r.value)
  {
    if CheckAlphabet(k, s) then Ok(BioSeq(k, s)) else Err(InvalidCharacters)
  }

  /** __len__ */
  function Len(b: BioSeq): nat
  {
    |b.sequence|
  }

  /** NucleicAcidSequence.complement */
  function Complement(b: BioSeq): (r: Result<BioSeq>)
    requires Valid(b)
    ensures r.Ok? <==> b.kind != AminoAcid
    ensures r.Ok? ==> r.value.kind == b.kind && Valid(r.value) && Len(r.value) == Len(b)
  {
    if b.kind == AminoAcid then Err(Unsupported)
    else
      var c := MapChars(ComplementMap(b.kind), b.sequence);
      New(b.kind, c.value)
  }

  /** NucleicAcidSequence.reverse */
  function Reverse(b: BioSeq): (r: Result<BioSeq>)
    requires Valid(b)
    ensures r.Ok? <==> b.kind != AminoAcid
    ensures r.Ok? ==> r.value.kind == b.kind && Valid(r.value) && Len(r.value) == Len(b)
  {
    if b.kind == AminoAcid then Err(Unsupported)
    else
      DnaRnaTools.ReverseAt(b.sequence);
      New(b.kind, DnaRnaTools.Reverse(b.sequence))
  }

  /** NucleicAcidSequence.reverse_complement: self.complement().reverse() */
  function ReverseComplement(b: BioSeq): (r: Result<BioSeq>)
    requires Valid(b)
    ensures r.Ok? <==> b.kind != AminoAcid
    ensures r.Ok? ==> r.value.kind == b.kind && Valid(r.value) && Len(r.value) == Len(b)
  {
    var c :- Complement(b);
    Reverse(c)
  }

  /** sequence.translate({"T": "U", "t": "u"}): other characters stay. */
  function TranslateTU(s: string): string
  {
    seq(|s|, i requires 0 <= i < |s| => if s[i] == 'T' then 'U' else if s[i] == 't' then 'u' else s[i])
  }

  /** DNASequence.transcribe */
  function Transcribe(b: BioSeq): (r: Result<BioSeq>)
    requires Valid(b)
    ensures r.Ok? <==> b.kind == DNA
    ensures r.Ok? ==> r.value.kind == RNA && Valid(r.value) && Len(r.value) == Len(b)
  {
    if b.kind != DNA then Err(Unsupported)
    else
      var t := TranslateTU(b.sequence);
      New(RNA, t)
  }

  /** AminoAcidSequence.validate_protein: the checks run in the order empty,
      alphabet, start codon, length. */
  function ValidateProtein(b: BioSeq): Result<bool>
  {
    if b.kind != AminoAcid then Err(Unsupported)
    else if b.sequence == [] then Err(EmptySequence)
    else if !CheckAlphabet(AminoAcid, b.sequence) then Err(InvalidAlphabet)
    else if b.sequence[0] != StartCodon then Err(MissingStartCodon)
    else if |b.sequence| < MinProteinLength then Err(TooShort)
    else Ok(true)
  }

  // ---------------------------------------------------------------------
  // Construction

  /** Construction succeeds exactly when every character is one of the
      variant's letters: case-sensitive A,T,G,C,a,t,g,c for DNA and
      A,U,G,C,a,u,g,c for RNA; for a protein, a non-empty string whose
      upper-cased letters are all amino acids. */
  lemma NewSpec(k: Kind, s: string)
    ensures k == DNA ==>
      (New(k, s).Ok? <==> forall i :: 0 <= i < |s| ==> s[i] in {'A', 'T', 'G', 'C', 'a', 't', 'g', 'c'})
    ensures k == RNA ==>
      (New(k, s).Ok? <==> forall i :: 0 <= i < |s| ==> s[i] in {'A', 'U', 'G', 'C', 'a', 'u', 'g', 'c'})
    ensures k == AminoAcid ==>
      (New(k, s).Ok? <==> s != [] && forall i :: 0 <= i < |s| ==> UpperChar(s[i]) in ValidAminoAcids)
    ensures New(k, s).Err? ==> New(k, s) == Err(InvalidCharacters)
  {
    assert forall i :: 0 <= i < |s| ==> Upper(s)[i] == UpperChar(s[i]);
  }

  // ---------------------------------------------------------------------
  // Nucleic-acid transforms

  /** Complement maps every position through the variant's own table. */
  lemma ComplementAt(b: BioSeq)
    requires Valid(b) && b.kind != AminoAcid
    ensures forall i :: 0 <= i < |b.sequence| ==>
      Complement(b).value.sequence[i] == ComplementMap(b.kind)[b.sequence[i]]
  {
  }

  /** Each variant's table is its own inverse. */
  lemma MapLetter(k: Kind, c: char)
    requires k != AminoAcid && c in ComplementMap(k)
    ensures ComplementMap(k)[c] in ComplementMap(k)
    ensures ComplementMap(k)[ComplementMap(k)[c]] == c
  {
  }

  /** Complementing twice gives the same DNA or RNA value back. */
  lemma ComplementInvolution(b: BioSeq)
    requires Valid(b) && b.kind != AminoAcid
    ensures Complement(Complement(b).value) == Ok(b)
  {
    var c := Complement(b).value;
    ComplementAt(b);
    ComplementAt(c);
    var cc := Complement(c).value;
    forall i | 0 <= i < |b.sequence| ensures cc.sequence[i] == b.sequence[i] {
      MapLetter(b.kind, b.sequence[i]);
    }
    assert cc.sequence == b.sequence;
  }

  /** Reverse holds the characters in reverse order. */
  lemma ReverseAt(b: BioSeq)
    requires Valid(b) && b.kind != AminoAcid
    ensures forall i :: 0 <= i < |b.sequence| ==>
      Reverse(b).value.sequence[i] == b.sequence[|b.sequence| - 1 - i]
  {
  }

  /** Reversing twice gives the same value back. */
  lemma ReverseInvolution(b: BioSeq)
    requires Valid(b) && b.kind != AminoAcid
    ensures Reverse(Reverse(b).value) == Ok(b)
  {
    DnaRnaTools.ReverseInvolution(b.sequence);
  }

  /** The reverse complement at position i is the complement of the
      character at the mirrored position. */
  lemma ReverseComplementAt(b: BioSeq)
    requires Valid(b) && b.kind != AminoAcid
    ensures forall i :: 0 <= i < |b.sequence| ==>
      ReverseComplement(b).value.sequence[i] == ComplementMap(b.kind)[b.sequence[|b.sequence| - 1 - i]]
  {
    var c := Complement(b).value;
    ComplementAt(b);
    ReverseAt(c);
    assert ReverseComplement(b).value == Reverse(c).value;
  }

  /** Applying the reverse complement twice gives the value back. */
  lemma ReverseComplementInvolution(b: BioSeq)
    requires Valid(b) && b.kind != AminoAcid
    ensures ReverseComplement(ReverseComplement(b).value) == Ok(b)
  {
    var n := |b.sequence|;
    var rc := ReverseComplement(b).value;
    ReverseComplementAt(b);
    ReverseComplementAt(rc);
    var rcrc := ReverseComplement(rc).value;
    forall i | 0 <= i < n ensures rcrc.sequence[i] == b.sequence[i] {
      MapLetter(b.kind, b.sequence[i]);
      assert rcrc.sequence[i] == ComplementMap(b.kind)[rc.sequence[n - 1 - i]];
    }
    assert rcrc.sequence == b.sequence;
  }

  /** Transcription turns T into U and t into u at the same positions and
      keeps every other character, so no T or t remains; RNA and protein
      values do not transcribe. */
  lemma TranscribeSpec(b: BioSeq)
    requires Valid(b)
    ensures b.kind != DNA ==> Transcribe(b) == Err(Unsupported)
    ensures b.kind == DNA ==>
      var r := Transcribe(b).value.sequence;
      && (forall i :: 0 <= i < |b.sequence| ==>
            r[i] == (if b.sequence[i] == 'T' then 'U' else if b.sequence[i] == 't' then 'u' else b.sequence[i]))
      && (forall i :: 0 <= i < |r| ==> r[i] != 'T' && r[i] != 't')
      && (forall i :: 0 <= i < |r| ==> (r[i] == 'U' <==> b.sequence[i] == 'T') && (r[i] == 'u' <==> b.sequence[i] == 't'))
  {
    if b.kind == DNA {
      assert forall i :: 0 <= i < |b.sequence| ==> b.sequence[i] in DnaComplementMap;
    }
  }

  /** The free transcribe function agrees with DNASequence.transcribe on
      every DNA value. */
  lemma TranscribeAgreesWithFreeFunction(b: BioSeq)
    requires Valid(b) && b.kind == DNA
    ensures DnaRnaTools.Transcribe(b.sequence) == Ok(Transcribe(b).value.sequence)
  {
    assert forall i :: 0 <= i < |b.sequence| ==> b.sequence[i] in DnaComplementMap;
    DnaRnaTools.TranscribeSpec(b.sequence);
    var free := DnaRnaTools.Transcribe(b.sequence).value;
    assert free == Transcribe(b).value.sequence;
  }

  /** The free complement function agrees with DNASequence.complement. */
  lemma ComplementAgreesOnDna(b: BioSeq)
    requires Valid(b) && b.kind == DNA
    ensures DnaRnaTools.Complement(b.sequence) == Ok(Complement(b).value.sequence)
  {
    assert forall i :: 0 <= i < |b.sequence| ==> b.sequence[i] in DnaComplementMap;
    DnaRnaTools.ComplementSpec(b.sequence);
    ComplementAt(b);
    var free := DnaRnaTools.Complement(b.sequence).value;
    assert free == Complement(b).value.sequence;
  }

  /** It does not agree with RNASequence.complement: its single table sends
      A to T, where the RNA table sends A to U. */
  lemma ComplementDiffersOnRna()
    ensures DnaRnaTools.Complement("A") == Ok("T")
    ensures Complement(BioSeq(RNA, "A")).value.sequence == "U"
  {
    DnaRnaTools.ComplementOfUIsNotInvolution();
    assert Complement(BioSeq(RNA, "A")).value.sequence[0] == 'U';
  }

  /** Type inference agrees with construction: a nucleic-acid string that
      na_type calls DNA builds a DNA value, one it calls RNA builds an RNA
      value. */
  lemma NaTypeAgreesWithConstruction(s: string)
    requires DnaRnaTools.IsNa(s)
    ensures DnaRnaTools.NaTypeOf(s) == DnaRnaTools.Dna ==> New(DNA, s).Ok?
    ensures DnaRnaTools.NaTypeOf(s) == DnaRnaTools.Rna ==> New(RNA, s).Ok?
  {
    DnaRnaTools.NaTypeCases(s);
    forall i | 0 <= i < |s| ensures UpperChar(s[i]) != 'U' ==> s[i] != 'U' && s[i] != 'u' {
    }
    forall i | 0 <= i < |s| ensures UpperChar(s[i]) != 'T' ==> s[i] != 'T' && s[i] != 't' {
    }
    NewSpec(DNA, s);
    NewSpec(RNA, s);
  }

  // ---------------------------------------------------------------------
  // Proteins

  /** validate_protein returns true exactly for a valid protein that starts
      with an upper-case M and has at least 20 residues; otherwise it names
      the first check that fails, in the order empty, alphabet, start,
      length. */
  lemma ValidateProteinSpec(b: BioSeq)
    requires b.kind == AminoAcid
    ensures ValidateProtein(b) == Ok(true) <==>
      Valid(b) && b.sequence[0] == 'M' && |b.sequence| >= 20
    ensures b.sequence == [] ==> ValidateProtein(b) == Err(EmptySequence)
    ensures b.sequence != [] && !Valid(b) ==> ValidateProtein(b) == Err(InvalidAlphabet)
    ensures Valid(b) && b.sequence[0] != 'M' ==> ValidateProtein(b) == Err(MissingStartCodon)
    ensures Valid(b) && b.sequence[0] == 'M' && |b.sequence| < 20 ==> ValidateProtein(b) == Err(TooShort)
  {
  }

  /** A lower-case m passes the case-insensitive alphabet check but is not
      the start codon. */
  lemma LowercaseStartRejected(s: string)
    requires New(AminoAcid, s).Ok? && s[0] == 'm'
    ensures ValidateProtein(New(AminoAcid, s).value) == Err(MissingStartCodon)
  {
  }

  // ---------------------------------------------------------------------
  // filter_fastq

  /** A record as Bio.SeqIO.parse yields it: id, sequence and the decoded
      per-base Phred scores (letter_annotations["phred_quality"]). */
  datatype FastqRecord = FastqRecord(id: string, sequence: string, phred: seq<int>)

  /** The test filter_fastq applies to one record; gcFraction stands for
      Bio.SeqUtils.gc_fraction, and the mean quality divides by len(record). */
  predicate Retained(rec: FastqRecord, gcFraction: string -> real,
                     gcBounds: (real, real), lengthBounds: (real, real), threshold: real)
  {
    && rec.sequence != []
    && var gcContent := gcFraction(rec.sequence) * 100.0;
       var avgQuality := Sum(rec.phred) as real / |rec.sequence| as real;
       && gcBounds.0 <= gcContent <= gcBounds.1
       && lengthBounds.0 <= |rec.sequence| as real <= lengthBounds.1
       && avgQuality >= threshold
  }

  function RetainedBy(gcFraction: string -> real, gcBounds: (real, real),
                      lengthBounds: (real, real), threshold: real): FastqRecord -> bool
  {
    rec => Retained(rec, gcFraction, gcBounds, lengthBounds, threshold)
  }

  const DefaultGcBounds: (real, real) := (0.0, 100.0)

  const DefaultLengthBounds: (real, real) := (0.0, 4294967296.0)

  const DefaultQualityThreshold: real := 0.0

  /** The selection loop of filter_fastq: the returned list is what is handed
      to SeqIO.write. */
  method FilterFastq(records: seq<FastqRecord>, gcFraction: string -> real,
                     gcBounds: (real, real), lengthBounds: (real, real), threshold: real)
    returns (filtered: seq<FastqRecord>)
    ensures filtered == Filter(records, RetainedBy(gcFraction, gcBounds, lengthBounds, threshold))
  {
    var keep := RetainedBy(gcFraction, gcBounds, lengthBounds, threshold);
    filtered := [];
    for i := 0 to |records|
      invariant filtered == Filter(records[..i], keep)
    {
      var record := records[i];
      assert records[..i + 1] == records[..i] + [record];
      FilterSnoc(records[..i], record, keep);
      if record.sequence == [] {
        continue;
      }
      var gcContent := gcFraction(record.sequence) * 100.0;
      var avgQuality := Sum(record.phred) as real / |record.sequence| as real;
      if gcBounds.0 <= gcContent <= gcBounds.1
         && lengthBounds.0 <= |record.sequence| as real <= lengthBounds.1
         && avgQuality >= threshold
      {
        filtered := filtered + [record];
      }
    }
    assert records[..|records|] == records;
  }

  /** The selection keeps the input order, keeps exactly the records that
      pass all three tests, and never keeps an empty sequence. */
  lemma FilterFastqSelection(records: seq<FastqRecord>, gcFraction: string -> real,
                             gcBounds: (real, real), lengthBounds: (real, real), threshold: real)
    ensures var kept := Filter(records, RetainedBy(gcFraction, gcBounds, lengthBounds, threshold));
      && IsSubsequence(kept, records)
      && (forall rec :: rec in kept <==>
            rec in records && rec.sequence != []
            && gcBounds.0 <= gcFraction(rec.sequence) * 100.0 <= gcBounds.1
            && lengthBounds.0 <= |rec.sequence| as real <= lengthBounds.1
            && Sum(rec.phred) as real / |rec.sequence| as real >= threshold)
      && (forall i :: 0 <= i < |kept| ==> kept[i].sequence != [])
  {
    FilterIsSubsequence(records, RetainedBy(gcFraction, gcBounds, lengthBounds, threshold));
  }

  /** With the default bounds, every non-empty record no longer than 2^32
      with non-negative scores is kept, given that gc_fraction lies in [0, 1]. */
  lemma DefaultsKeepEveryRecord(records: seq<FastqRecord>, gcFraction: string -> real)
    requires forall i :: 0 <= i < |records| ==>
      && records[i].sequence != []
      && |records[i].sequence| <= 4294967296
      && 0.0 <= gcFraction(records[i].sequence) <= 1.0
      && forall j :: 0 <= j < |records[i].phred| ==> records[i].phred[j] >= 0
    ensures Filter(records, RetainedBy(gcFraction, DefaultGcBounds, DefaultLengthBounds, DefaultQualityThreshold))
            == records
  {
    var keep := RetainedBy(gcFraction, DefaultGcBounds, DefaultLengthBounds, DefaultQualityThreshold);
    forall i | 0 <= i < |records| ensures keep(records[i]) {
      SumNonNegative(records[i].phred);
    }
    FilterAll(records, keep);
  }

  /** The length scenario: of "ATGC" and "ATGCGTAT", both scored 40, only the
      longer passes length bounds (5, 10) under the default GC and quality
      bounds. */
  lemma LengthScenario(gcFraction: string -> real)
    requires 0.0 <= gcFraction("ATGC") <= 1.0 && 0.0 <= gcFraction("ATGCGTAT") <= 1.0
    ensures var short := FastqRecord("short", "ATGC", [40, 40, 40, 40]);
            var long := FastqRecord("long", "ATGCGTAT", [40, 40, 40, 40, 40, 40, 40, 40]);
            Filter([short, long], RetainedBy(gcFraction, DefaultGcBounds, (5.0, 10.0), DefaultQualityThreshold))
            == [long]
  {
    var short := FastqRecord("short", "ATGC", [40, 40, 40, 40]);
    var long := FastqRecord("long", "ATGCGTAT", [40, 40, 40, 40, 40, 40, 40, 40]);
    SumConstant(long.phred, 40);
    var keep := RetainedBy(gcFraction, DefaultGcBounds, (5.0, 10.0), DefaultQualityThreshold);
    assert !keep(short);
    assert keep(long);
    assert [short, long][..1] == [short];
  }

  /** The quality scenario: scores 10 and 40 against threshold 30. */
  lemma QualityScenario(gcFraction: string -> real)
    requires 0.0 <= gcFraction("ATGCGA") <= 1.0 && 0.0 <= gcFraction("GGCCTA") <= 1.0
    ensures var low := FastqRecord("lowQ", "ATGCGA", [10, 10, 10, 10, 10, 10]);
            var high := FastqRecord("highQ", "GGCCTA", [40, 40, 40, 40, 40, 40]);
            Filter([low, high], RetainedBy(gcFraction, DefaultGcBounds, DefaultLengthBounds, 30.0))
            == [high]
  {
    var low := FastqRecord("lowQ", "ATGCGA", [10, 10, 10, 10, 10, 10]);
    var high := FastqRecord("highQ", "GGCCTA", [40, 40, 40, 40, 40, 40]);
    SumConstant(low.phred, 10);
    SumConstant(high.phred, 40);
    var keep := RetainedBy(gcFraction, DefaultGcBounds, DefaultLengthBounds, 30.0);
    assert !keep(low);
    assert keep(high);
    assert [low, high][..1] == [low];
  }
}
