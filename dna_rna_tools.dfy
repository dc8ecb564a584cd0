/** The free nucleic-acid functions of modules/dna_rna_tools_modules.py:
    alphabet test, type inference, transcription, reverse, complement and
    reverse complement over plain strings. Lookups that raise KeyError are
    Err(UnmappedCharacter). */
module DnaRnaTools {
  import opened Common
  import opened Text

  /** The list is_na tests against (it names "a" twice). */
  const NaLetters: seq<char> := ['A', 'T', 'G', 'C', 'U', 'a', 't', 'g', 'c', 'u', 'a']

  /** is_na */
  predicate IsNa(seqNa: string)
  {
    forall i :: 0 <= i < |seqNa| ==> seqNa[i] in NaLetters
  }

  /** What na_type returns: "DNA", "RNA", False, or None (empty input). */
  datatype NaType = Dna | Rna | Undetermined | NoType

  /** na_type: its loop returns during the first iteration, so only the
      emptiness of the input decides whether the tests run at all. */
  function NaTypeOf(na: string): NaType
  {
    if na == [] then NoType
    else
      var hasT := Contains(Upper(na), "T");
      var hasU := Contains(Upper(na), "U");
      if hasT && hasU then Undetermined
      else if hasT then Dna
      else Rna
  }

  const TranscriptionTable: map<char, char> :=
    map['A' := 'A', 'T' := 'U', 'G' := 'G', 'C' := 'C',
        'a' := 'a', 't' := 'u', 'g' := 'g', 'c' := 'c']

  /** transcribe */
  function Transcribe(na: string): Result<string>
  {
    MapChars(TranscriptionTable, na)
  }

  /** reverse: na[::-1] */
  function Reverse(na: string): string
  {
    seq(|na|, i requires 0 <= i < |na| => na[|na| - 1 - i])
  }

  const ComplementTable: map<char, char> :=
    map['A' := 'T', 'T' := 'A', 'G' := 'C', 'U' := 'A', 'C' := 'G',
        'a' := 't', 't' := 'a', 'g' := 'c', 'u' := 'a', 'c' := 'g']

  /** complement */
  function Complement(na: string): Result<string>
  {
    MapChars(ComplementTable, na)
  }

  /** reverse_complement: reverse(complement(na)) */
  function ReverseComplement(na: string): Result<string>
  {
    var c :- Complement(na);
    Ok(Reverse(c))
  }

  /** The input holds the letter c in either case. */
  predicate HasLetter(s: string, c: char)
  {
    exists i :: 0 <= i < |s| && UpperChar(s[i]) == c
  }

  lemma UpperContains(s: string, c: char)
    ensures Contains(Upper(s), [c]) <==> HasLetter(s, c)
  {
    ContainsChar(Upper(s), c);
    if c in Upper(s) {
      var i :| 0 <= i < |s| && Upper(s)[i] == c;
      assert UpperChar(s[i]) == c;
    }
    if HasLetter(s, c) {
      var i :| 0 <= i < |s| && UpperChar(s[i]) == c;
      assert Upper(s)[i] == c;
    }
  }

  lemma UpperCharTU(x: char)
    ensures UpperChar(x) == 'T' <==> x == 'T' || x == 't'
    ensures UpperChar(x) == 'U' <==> x == 'U' || x == 'u'
  {
  }

  /** A non-empty input is undetermined iff it holds both a T and a U (either
      case), DNA iff it holds a T and no U, and RNA iff it holds no T, so
      that an all-A/C/G input counts as RNA. The empty input has no type. */
  lemma NaTypeCases(na: string)
    ensures na == [] ==> NaTypeOf(na) == NoType
    ensures na != [] ==>
      (NaTypeOf(na) == Undetermined <==> HasLetter(na, 'T') && HasLetter(na, 'U'))
    ensures na != [] ==>
      (NaTypeOf(na) == Dna <==> HasLetter(na, 'T') && !HasLetter(na, 'U'))
    ensures na != [] ==> (NaTypeOf(na) == Rna <==> !HasLetter(na, 'T'))
  {
    UpperContains(na, 'T');
    UpperContains(na, 'U');
  }

  /** Transcription is defined exactly on the DNA letters; it keeps the
      length, turns T into U and t into u, and keeps A, C, G in both cases. */
  lemma TranscribeSpec(na: string)
    ensures Transcribe(na).Ok? <==>
      forall i :: 0 <= i < |na| ==> na[i] in {'A', 'T', 'G', 'C', 'a', 't', 'g', 'c'}
    ensures Transcribe(na).Ok? ==>
      var r := Transcribe(na).value;
      && |r| == |na|
      && (forall i :: 0 <= i < |na| ==>
            r[i] == (if na[i] == 'T' then 'U' else if na[i] == 't' then 'u' else na[i]))
      && (forall i :: 0 <= i < |r| ==> r[i] != 'T' && r[i] != 't')
      && (forall i :: 0 <= i < |r| ==> (r[i] == 'U' <==> na[i] == 'T') && (r[i] == 'u' <==> na[i] == 't'))
  {
  }

  /** A U in the input is a KeyError: transcribe accepts DNA letters only. */
  lemma TranscribeRejectsU(na: string)
    requires exists i :: 0 <= i < |na| && (na[i] == 'U' || na[i] == 'u')
    ensures Transcribe(na) == Err(UnmappedCharacter)
  {
  }

  lemma ReverseAt(na: string)
    ensures |Reverse(na)| == |na|
    ensures forall i :: 0 <= i < |na| ==> Reverse(na)[i] == na[|na| - 1 - i]
  {
  }

  /** Reversing twice gives the input back. */
  lemma ReverseInvolution(na: string)
    ensures Reverse(Reverse(na)) == na
  {
    assert forall i :: 0 <= i < |na| ==> Reverse(Reverse(na))[i] == na[i];
  }

  /** Complement succeeds exactly on the strings is_na accepts, maps every
      position through the table, and never produces a U. */
  lemma ComplementSpec(na: string)
    ensures Complement(na).Ok? <==> IsNa(na)
    ensures Complement(na).Ok? ==>
      var r := Complement(na).value;
      && |r| == |na|
      && (forall i :: 0 <= i < |na| ==> r[i] == ComplementTable[na[i]])
      && (forall i :: 0 <= i < |r| ==> r[i] != 'U' && r[i] != 'u')
  {
    assert forall c :: c in NaLetters <==> c in ComplementTable;
  }

  /** Complementing a letter other than U twice gives it back. */
  lemma ComplementLetter(c: char)
    requires c in NaLetters && c != 'U' && c != 'u'
    ensures ComplementTable[c] in NaLetters
    ensures ComplementTable[c] != 'U' && ComplementTable[c] != 'u'
    ensures ComplementTable[ComplementTable[c]] == c
  {
  }

  /** On strings without U, complementing twice gives the input back. */
  lemma ComplementInvolution(na: string)
    requires IsNa(na)
    requires forall i :: 0 <= i < |na| ==> na[i] != 'U' && na[i] != 'u'
    ensures Complement(na).Ok? && Complement(Complement(na).value) == Ok(na)
  {
    ComplementSpec(na);
    var c := Complement(na).value;
    forall i | 0 <= i < |c| ensures c[i] in NaLetters && ComplementTable[c[i]] == na[i] {
      ComplementLetter(na[i]);
    }
    ComplementSpec(c);
    var cc := Complement(c).value;
    assert cc == na;
  }

  /** Complementing twice gives the input back exactly when the input is a
      nucleic-acid string without U or u. */
  lemma ComplementInvolutionExactly(na: string)
    ensures (Complement(na).Ok? && Complement(Complement(na).value) == Ok(na)) <==>
      IsNa(na) && forall i :: 0 <= i < |na| ==> na[i] != 'U' && na[i] != 'u'
  {
    ComplementSpec(na);
    if IsNa(na) && forall i :: 0 <= i < |na| ==> na[i] != 'U' && na[i] != 'u' {
      ComplementInvolution(na);
    }
    if Complement(na).Ok? {
      ComplementSpec(Complement(na).value);
    }
  }

  /** With a U the complement is not an involution: U -> A -> T. */
  lemma ComplementOfUIsNotInvolution()
    ensures Complement("U") == Ok("A") && Complement("A") == Ok("T")
  {
    assert Complement("U").value == "A" by { assert Complement("U").value[0] == 'A'; }
    assert Complement("A").value == "T" by { assert Complement("A").value[0] == 'T'; }
  }

  /** The reverse complement is defined exactly on nucleic-acid strings, keeps
      their length and holds the complement letters in reverse order. */
  lemma ReverseComplementSpec(na: string)
    ensures ReverseComplement(na).Ok? <==> IsNa(na)
    ensures ReverseComplement(na).Ok? ==>
      var r := ReverseComplement(na).value;
      && |r| == |na|
      && forall i :: 0 <= i < |na| ==> r[i] == ComplementTable[na[|na| - 1 - i]]
  {
    ComplementSpec(na);
  }

  /** On strings without U, the reverse complement is an involution. */
  lemma ReverseComplementInvolution(na: string)
    requires IsNa(na)
    requires forall i :: 0 <= i < |na| ==> na[i] != 'U' && na[i] != 'u'
    ensures ReverseComplement(na).Ok?
    ensures ReverseComplement(ReverseComplement(na).value) == Ok(na)
  {
    ReverseComplementSpec(na);
    var r := ReverseComplement(na).value;
    forall i | 0 <= i < |r| ensures r[i] in NaLetters && ComplementTable[r[i]] == na[|na| - 1 - i] {
      ComplementLetter(na[|na| - 1 - i]);
    }
    ReverseComplementSpec(r);
    var rr := ReverseComplement(r).value;
    forall i | 0 <= i < |na| ensures rr[i] == na[i] {
      assert rr[i] == ComplementTable[r[|r| - 1 - i]];
    }
    assert rr == na;
  }
}
