/** modules/filter_fastq_modules.py: GC content and the three filters over
    an in-memory read table.

    The Python dict from read name to (sequence, quality) is a Store: a
    sequence of (name, read) pairs in insertion order whose names are
    distinct (IsDict). Assigning filtered_seqs[name] is DictSet. Percentages
    and means are exact reals, not floating point. */
module FastqFilters {
  import opened Common
  import opened Text

  datatype Read = Read(sequence: string, quality: string)

  type Store = seq<(string, Read)>

  function Names(s: Store): seq<string>
  {
    seq(|s|, i requires 0 <= i < |s| => s[i].0)
  }

  /** What a Python dict guarantees: every name occurs once. */
  predicate IsDict(s: Store)
  {
    Distinct(Names(s))
  }

  /** d[name] = r on an insertion-ordered dict: an existing name keeps its
      place and gets the new value, a new name goes at the end. */
  function DictSet(d: Store, name: string, r: Read): Store
  {
    if name in Names(d)
    then seq(|d|, i requires 0 <= i < |d| => if d[i].0 == name then (name, r) else d[i])
    else d + [(name, r)]
  }

  /** A bound as the caller may pass it: a bare number (an upper bound) or a
      (lower, upper) pair. */
  datatype Bounds = UpTo(upper: real) | Between(lower: real, upper: real)

  /** isinstance(bounds, (int, float)) turns a bare number b into (0, b). */
  function Normalize(b: Bounds): (real, real)
  {
    match b
    case UpTo(hi) => (0.0, hi)
    case Between(lo, hi) => (lo, hi)
  }

  predicate Within(x: real, b: (real, real))
  {
    b.0 <= x <= b.1
  }

  /** Keep the entries whose read satisfies keep, in input order. */
  function Select(s: Store, keep: Read -> bool): (r: Store)
    ensures forall e :: e in r <==> e in s && keep(e.1)
  {
    FilterMembers(s, (e: (string, Read)) => keep(e.1));
    Filter(s, (e: (string, Read)) => keep(e.1))
  }

  // ---------------------------------------------------------------------
  // gc_count

  /** gc_count: 100 * (count of G + count of C in na.upper()) / len(na); the
      empty string divides by zero. */
  function GcCount(na: string): (r: Result<real>)
    ensures r.Err? <==> na == []
    ensures r.Ok? ==> 0.0 <= r.value <= 100.0
  {
    var up := Upper(na);
    if |na| == 0 then Err(DivisionByZero)
    else
      var gc := Count(up, 'G') + Count(up, 'C');
      CountPairBound(up, 'G', 'C');
      PercentBound(gc, |na|);
      Ok((100 * gc) as real / |na| as real)
  }

  lemma PercentBound(part: int, whole: int)
    requires 0 <= part <= whole && 0 < whole
    ensures 0.0 <= (100 * part) as real / whole as real <= 100.0
  {
    var x := (100 * part) as real / whole as real;
    assert x * whole as real == (100 * part) as real;
    if x > 100.0 {
      assert x * whole as real > 100.0 * whole as real;
    }
  }

  lemma UpperLowerChar(c: char)
    ensures UpperChar(UpperChar(c)) == UpperChar(c)
    ensures UpperChar(LowerChar(c)) == UpperChar(c)
  {
  }

  /** GC content does not depend on letter case. */
  lemma GcCountCaseInvariant(na: string)
    ensures GcCount(Upper(na)) == GcCount(na)
    ensures GcCount(Lower(na)) == GcCount(na)
  {
    assert Upper(Upper(na)) == Upper(na) by {
      forall i | 0 <= i < |na| ensures Upper(Upper(na))[i] == Upper(na)[i] {
        UpperLowerChar(na[i]);
      }
    }
    assert Upper(Lower(na)) == Upper(na) by {
      forall i | 0 <= i < |na| ensures Upper(Lower(na))[i] == Upper(na)[i] {
        UpperLowerChar(na[i]);
      }
    }
  }

  /** The worked values: all-GC is 100 percent, no GC is 0 percent. */
  lemma GcCountExamples()
    ensures GcCount("GCGC") == Ok(100.0)
    ensures GcCount("ATAT") == Ok(0.0)
    ensures GcCount("") == Err(DivisionByZero)
  {
    var up := Upper("GCGC");
    assert forall i :: 0 <= i < |up| ==> up[i] == 'G' || up[i] == 'C';
    CountPairExact(up, 'G', 'C');
    var up2 := Upper("ATAT");
    assert forall i :: 0 <= i < |up2| ==> up2[i] == 'A' || up2[i] == 'T';
    CountAbsent(up2, 'G');
    CountAbsent(up2, 'C');
  }

  // ---------------------------------------------------------------------
  // The filter tests

  predicate GcWithin(r: Read, b: (real, real))
  {
    var gc := GcCount(r.sequence);
    gc.Ok? && Within(gc.value, b)
  }

  function GcTest(b: (real, real)): Read -> bool
  {
    r => GcWithin(r, b)
  }

  predicate LengthWithin(r: Read, b: (real, real))
  {
    Within(|r.sequence| as real, b)
  }

  function LengthTest(b: (real, real)): Read -> bool
  {
    r => LengthWithin(r, b)
  }

  /** [ord(c) - 33 for c in quality] */
  function PhredScores(quality: string): seq<int>
  {
    seq(|quality|, i requires 0 <= i < |quality| => quality[i] as int - 33)
  }

  /** sum(quality_scores) / len(quality_scores) */
  function MeanQuality(quality: string): (r: Result<real>)
    ensures r.Err? <==> quality == []
  {
    if |quality| == 0 then Err(DivisionByZero)
    else Ok(Sum(PhredScores(quality)) as real / |quality| as real)
  }

  predicate QualityAtLeast(r: Read, threshold: real)
  {
    var m := MeanQuality(r.quality);
    m.Ok? && m.value >= threshold
  }

  function QualityTest(threshold: real): Read -> bool
  {
    r => QualityAtLeast(r, threshold)
  }

  /** A quality string of n copies of c has mean score ord(c) - 33. */
  lemma MeanOfRepeatedCharacter(c: char, n: nat)
    requires n > 0
    ensures MeanQuality(seq(n, _ => c)) == Ok((c as int - 33) as real)
  {
    var q := seq(n, _ => c);
    var v := c as int - 33;
    SumConstant(PhredScores(q), v);
    assert Sum(PhredScores(q)) == n * v;
    assert (n * v) as real == n as real * v as real;
    assert (n as real * v as real) / n as real == v as real;
  }

  // ---------------------------------------------------------------------
  // The filters

  lemma SelectStep(s: Store, i: nat, keep: Read -> bool)
    requires i < |s|
    ensures Select(s[..i + 1], keep) ==
      if keep(s[i].1) then Select(s[..i], keep) + [s[i]] else Select(s[..i], keep)
  {
    assert s[..i + 1] == s[..i] + [s[i]];
    FilterSnoc(s[..i], s[i], (e: (string, Read)) => keep(e.1));
  }

  /** Inserting the next input entry into the filtered dict appends it,
      because the input names are distinct. */
  lemma DictSetAppends(s: Store, i: nat, keep: Read -> bool)
    requires IsDict(s) && i < |s|
    ensures DictSet(Select(s[..i], keep), s[i].0, s[i].1) == Select(s[..i], keep) + [s[i]]
  {
    SelectNames(s[..i], keep);
    assert Names(s[..i]) == Names(s)[..i];
    forall j | 0 <= j < i ensures Names(s)[..i][j] != s[i].0 {
      assert Names(s)[i] == s[i].0;
    }
    assert s[i].0 !in Names(s)[..i];
  }

  lemma SelectNames(s: Store, keep: Read -> bool)
    ensures forall n :: n in Names(Select(s, keep)) ==> n in Names(s)
  {
    var d := Select(s, keep);
    forall n | n in Names(d) ensures n in Names(s) {
      var k :| 0 <= k < |d| && Names(d)[k] == n;
      assert d[k] in d;
      var j :| 0 <= j < |s| && s[j] == d[k];
      assert Names(s)[j] == n;
    }
  }

  /** filter_gc: Err when some sequence is empty (gc_count divides by zero),
      otherwise exactly the entries whose GC content is within the bounds. */
  method FilterGc(seqs: Store, gcBounds: Bounds) returns (r: Result<Store>)
    requires IsDict(seqs)
    ensures r.Err? <==> exists k :: 0 <= k < |seqs| && seqs[k].1.sequence == []
    ensures r.Ok? ==> r.value == Select(seqs, GcTest(Normalize(gcBounds)))
  {
    var bounds := Normalize(gcBounds);
    var filtered: Store := [];
    for i := 0 to |seqs|
      invariant filtered == Select(seqs[..i], GcTest(bounds))
      invariant forall k :: 0 <= k < i ==> seqs[k].1.sequence != []
    {
      var (name, read) := seqs[i];
      var gc := GcCount(read.sequence);
      if gc.Err? {
        assert seqs[i].1.sequence == [];
        return Err(gc.error);
      }
      SelectStep(seqs, i, GcTest(bounds));
      if bounds.0 <= gc.value <= bounds.1 {
        DictSetAppends(seqs, i, GcTest(bounds));
        filtered := DictSet(filtered, name, read);
      }
    }
    assert seqs[..|seqs|] == seqs;
    return Ok(filtered);
  }

  /** filter_length: exactly the entries whose sequence length is within the
      bounds. */
  method FilterLength(seqs: Store, lengthBounds: Bounds) returns (filtered: Store)
    requires IsDict(seqs)
    ensures filtered == Select(seqs, LengthTest(Normalize(lengthBounds)))
  {
    var bounds := Normalize(lengthBounds);
    filtered := [];
    for i := 0 to |seqs|
      invariant filtered == Select(seqs[..i], LengthTest(bounds))
    {
      var (name, read) := seqs[i];
      SelectStep(seqs, i, LengthTest(bounds));
      if bounds.0 <= |read.sequence| as real <= bounds.1 {
        DictSetAppends(seqs, i, LengthTest(bounds));
        filtered := DictSet(filtered, name, read);
      }
    }
    assert seqs[..|seqs|] == seqs;
  }

  /** filter_quality: Err when some quality string is empty (the mean divides
      by zero), otherwise exactly the entries whose mean Phred+33 score
      reaches the threshold. */
  method FilterQuality(seqs: Store, qualityThreshold: real) returns (r: Result<Store>)
    requires IsDict(seqs)
    ensures r.Err? <==> exists k :: 0 <= k < |seqs| && seqs[k].1.quality == []
    ensures r.Ok? ==> r.value == Select(seqs, QualityTest(qualityThreshold))
  {
    var filtered: Store := [];
    for i := 0 to |seqs|
      invariant filtered == Select(seqs[..i], QualityTest(qualityThreshold))
      invariant forall k :: 0 <= k < i ==> seqs[k].1.quality != []
    {
      var (name, read) := seqs[i];
      var quality := read.quality;
      var qualityScores: seq<int> := [];
      for j := 0 to |quality|
        invariant qualityScores == PhredScores(quality[..j])
      {
        qualityScores := qualityScores + [quality[j] as int - 33];
      }
      assert quality[..|quality|] == quality;
      if |qualityScores| == 0 {
        return Err(DivisionByZero);
      }
      var averageScore := Sum(qualityScores) as real / |qualityScores| as real;
      SelectStep(seqs, i, QualityTest(qualityThreshold));
      if averageScore >= qualityThreshold {
        DictSetAppends(seqs, i, QualityTest(qualityThreshold));
        filtered := DictSet(filtered, name, read);
      }
    }
    assert seqs[..|seqs|] == seqs;
    return Ok(filtered);
  }

  // ---------------------------------------------------------------------
  // What every filter promises

  /** A selection is a sub-dict of its input: an order-preserving selection
      of the same (name, read) entries, so its names are input names, it is
      again a dict, and selecting twice is selecting once. */
  lemma SelectSpec(s: Store, keep: Read -> bool)
    requires IsDict(s)
    ensures IsSubsequence(Select(s, keep), s)
    ensures forall e :: e in Select(s, keep) <==> e in s && keep(e.1)
    ensures forall n :: n in Names(Select(s, keep)) ==> n in Names(s)
    ensures IsDict(Select(s, keep))
    ensures Select(Select(s, keep), keep) == Select(s, keep)
  {
    var p := (e: (string, Read)) => keep(e.1);
    FilterIsSubsequence(s, p);
    FilterIdempotent(s, p);
    SelectNames(s, keep);
    SubsequenceOfDictIsDict(Select(s, keep), s);
  }

  lemma {:induction false} SubsequenceOfDictIsDict(a: Store, b: Store)
    requires IsSubsequence(a, b) && IsDict(b)
    ensures IsDict(a)
    decreases |b|
  {
    if a != [] {
      var a', b' := a[..|a| - 1], b[..|b| - 1];
      assert Names(b') == Names(b)[..|b| - 1];
      if a[|a| - 1] == b[|b| - 1] && IsSubsequence(a', b') {
        SubsequenceOfDictIsDict(a', b');
        SubsequenceNames(a', b');
        assert Names(a') == Names(a)[..|a| - 1];
        forall k | 0 <= k < |a| - 1 ensures Names(a)[k] != Names(a)[|a| - 1] {
          assert Names(a)[k] == Names(a')[k];
          assert Names(a)[k] in Names(b');
          var j :| 0 <= j < |b'| && Names(b')[j] == Names(a)[k];
          assert Names(b)[j] == Names(a)[k];
          assert Names(b)[|b| - 1] == Names(a)[|a| - 1];
        }
      } else {
        SubsequenceOfDictIsDict(a, b');
      }
    }
  }

  lemma {:induction false} SubsequenceNames(a: Store, b: Store)
    requires IsSubsequence(a, b)
    ensures forall n :: n in Names(a) ==> n in Names(b)
    decreases |b|
  {
    if a != [] {
      var a', b' := a[..|a| - 1], b[..|b| - 1];
      if a[|a| - 1] == b[|b| - 1] && IsSubsequence(a', b') {
        SubsequenceNames(a', b');
        assert Names(a) == Names(a') + [a[|a| - 1].0];
        assert Names(b) == Names(b') + [b[|b| - 1].0];
      } else {
        SubsequenceNames(a, b');
        assert Names(b) == Names(b') + [b[|b| - 1].0];
      }
    }
  }

  /** The defaults of filter_gc, filter_length and filter_quality. */
  const DefaultGcBounds: Bounds := Between(0.0, 100.0)
  const DefaultLengthBounds: Bounds := Between(0.0, 4294967296.0)
  const DefaultQualityThreshold: real := 0.0

  /** The default GC bounds keep every read with a non-empty sequence. */
  lemma DefaultGcKeepsEveryRead(s: Store)
    requires forall k :: 0 <= k < |s| ==> s[k].1.sequence != []
    ensures Select(s, GcTest(Normalize(DefaultGcBounds))) == s
  {
    var gc := GcTest(Normalize(DefaultGcBounds));
    FilterAll(s, (e: (string, Read)) => gc(e.1));
  }

  /** The default length bounds keep every read up to 2^32 long. */
  lemma DefaultLengthKeepsEveryRead(s: Store)
    requires forall k :: 0 <= k < |s| ==> |s[k].1.sequence| <= 4294967296
    ensures Select(s, LengthTest(Normalize(DefaultLengthBounds))) == s
  {
    var len := LengthTest(Normalize(DefaultLengthBounds));
    FilterAll(s, (e: (string, Read)) => len(e.1));
  }

  /** A quality string without characters below '!' has a mean of at
      least 0. */
  lemma MeanQualityNonNegative(quality: string)
    requires quality != [] && forall j :: 0 <= j < |quality| ==> quality[j] >= '!'
    ensures MeanQuality(quality).Ok? && MeanQuality(quality).value >= 0.0
  {
    SumNonNegative(PhredScores(quality));
  }

  /** The default threshold keeps every read whose quality string is
      non-empty and has no character below '!'. */
  lemma DefaultQualityKeepsEveryRead(s: Store)
    requires forall k :: 0 <= k < |s| ==>
      s[k].1.quality != [] && forall j :: 0 <= j < |s[k].1.quality| ==> s[k].1.quality[j] >= '!'
    ensures Select(s, QualityTest(DefaultQualityThreshold)) == s
  {
    var qual := QualityTest(DefaultQualityThreshold);
    forall k | 0 <= k < |s| ensures qual(s[k].1) {
      MeanQualityNonNegative(s[k].1.quality);
    }
    FilterAll(s, (e: (string, Read)) => qual(e.1));
  }

  /** The length scenario in the filter module's terms: of "ATGC" and
      "ATGCGTAT" only the longer lies in (5, 10). */
  lemma LengthFilterScenario()
    ensures var store := [("short", Read("ATGC", "IIII")), ("long", Read("ATGCGTAT", "IIIIIIII"))];
            Select(store, LengthTest(Normalize(Between(5.0, 10.0)))) == [store[1]]
  {
    var store := [("short", Read("ATGC", "IIII")), ("long", Read("ATGCGTAT", "IIIIIIII"))];
    assert store[..1] == [store[0]];
  }
}
