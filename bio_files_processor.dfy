/** bio_files_processor.py: converting a multi-line FASTA file to one line
    per sequence, and collecting the best-hit descriptions of a BLAST text
    report. Files are sequences of lines; the output file is the sequence of
    lines written, without their line breaks. */
module BioFilesProcessor {
  import opened Common
  import opened Text

  // ---------------------------------------------------------------------
  // convert_multiline_fasta_to_oneline

  /** A header line: ">" once stripped. */
  predicate IsHeader(line: string)
  {
    StartsWith(Strip(line), ">")
  }

  /** "".join(parts) */
  function Concat(parts: seq<string>): string
  {
    if parts == [] then [] else Concat(parts[..|parts| - 1]) + parts[|parts| - 1]
  }

  /** The stripped lines before the first header, joined. */
  function RunText(lines: seq<string>): string
  {
    if lines == [] || IsHeader(lines[0]) then [] else Strip(lines[0]) + RunText(lines[1..])
  }

  /** The lines from the first header on. */
  function AfterRun(lines: seq<string>): (r: seq<string>)
    ensures |r| <= |lines|
  {
    if lines == [] || IsHeader(lines[0]) then lines else AfterRun(lines[1..])
  }

  /** The output for lines that start with a header (or are empty): the
      header, the joined sequence lines after it, and the same for the rest. */
  function Records(lines: seq<string>): seq<string>
    decreases |lines|
  {
    if lines == [] then []
    else [Strip(lines[0]), RunText(lines[1..])] + Records(AfterRun(lines[1..]))
  }

  /** The lines convert_multiline_fasta_to_oneline writes. */
  function OneLine(lines: seq<string>): seq<string>
  {
    Records(AfterRun(lines))
  }

  lemma ConcatSnoc(parts: seq<string>, s: string)
    ensures Concat(parts + [s]) == Concat(parts) + s
  {
    assert (parts + [s])[..|parts|] == parts;
  }

  /** What is still to be written once a loop has read up to `rest`, with
      `name` the header being collected (if any) and `body` its sequence so far. */
  function Pending(name: Option<string>, body: string, rest: seq<string>): seq<string>
  {
    if name.None? then Records(AfterRun(rest))
    else [name.value, body + RunText(rest)] + Records(AfterRun(rest))
  }

  /** The record a finished header flushes. */
  function Flushed(name: Option<string>, body: string): seq<string>
  {
    if name.None? then [] else [name.value, body]
  }

  /** A header line flushes the record being collected and opens its own. */
  lemma PendingHeader(name: Option<string>, body: string, here: seq<string>)
    requires here != [] && IsHeader(here[0])
    ensures Pending(name, body, here) == Flushed(name, body) + Pending(Some(Strip(here[0])), [], here[1..])
  {
    assert RunText(here) == [] && AfterRun(here) == here;
    assert body + [] == body;
    assert [] + RunText(here[1..]) == RunText(here[1..]);
  }

  /** A sequence line joins the body being collected. */
  lemma PendingLine(name: Option<string>, body: string, here: seq<string>)
    requires here != [] && !IsHeader(here[0])
    ensures Pending(name, body, here) == Pending(name, body + Strip(here[0]), here[1..])
  {
    assert RunText(here) == Strip(here[0]) + RunText(here[1..]);
    assert AfterRun(here) == AfterRun(here[1..]);
    assert body + (Strip(here[0]) + RunText(here[1..])) == (body + Strip(here[0])) + RunText(here[1..]);
  }

  lemma PendingEnd(name: Option<string>, body: string)
    ensures Pending(name, body, []) == Flushed(name, body)
  {
    assert body + [] == body;
  }

  /** The converter's loop step on a header line. */
  lemma HeaderLine(lines: seq<string>, i: nat, output: seq<string>, name: Option<string>, body: string)
    requires i < |lines| && IsHeader(lines[i])
    requires OneLine(lines) == output + Pending(name, body, lines[i..])
    ensures OneLine(lines) == (if name.Some? then output + [name.value, body] else output)
      + Pending(Some(Strip(lines[i])), Concat([]), lines[i + 1..])
  {
    var here, next := lines[i..], lines[i + 1..];
    assert here[0] == lines[i] && here[1..] == next;
    PendingHeader(name, body, here);
    var started := Pending(Some(Strip(lines[i])), [], next);
    assert Concat([]) == [];
    if name.Some? {
      assert output + (Flushed(name, body) + started) == (output + [name.value, body]) + started;
    } else {
      assert output + ([] + started) == output + started;
    }
  }

  /** The converter's loop step on a sequence line. */
  lemma SequenceLine(lines: seq<string>, i: nat, output: seq<string>, name: Option<string>, sequence: seq<string>)
    requires i < |lines| && !IsHeader(lines[i])
    requires OneLine(lines) == output + Pending(name, Concat(sequence), lines[i..])
    ensures OneLine(lines) == output + Pending(name, Concat(sequence + [Strip(lines[i])]), lines[i + 1..])
  {
    assert lines[i..][0] == lines[i] && lines[i..][1..] == lines[i + 1..];
    PendingLine(name, Concat(sequence), lines[i..]);
    ConcatSnoc(sequence, Strip(lines[i]));
  }

  method ConvertMultilineFastaToOneline(lines: seq<string>) returns (output: seq<string>)
    ensures output == OneLine(lines)
  {
    var name: Option<string> := None;
    var sequence: seq<string> := [];
    output := [];
    for i := 0 to |lines|
      invariant OneLine(lines) == output + Pending(name, Concat(sequence), lines[i..])
    {
      var line := Strip(lines[i]);
      if StartsWith(line, ">") {
        HeaderLine(lines, i, output, name, Concat(sequence));
        if name.Some? {
          output := output + [name.value, Concat(sequence)];
        }
        name := Some(line);
        sequence := [];
      } else {
        SequenceLine(lines, i, output, name, sequence);
        sequence := sequence + [line];
      }
    }
    assert lines[|lines|..] == [];
    PendingEnd(name, Concat(sequence));
    if name.Some? {
      output := output + [name.value, Concat(sequence)];
    }
  }

  /** The first header at or after p, or |lines|. */
  function NextHeader(lines: seq<string>, p: nat): (r: nat)
    requires p <= |lines|
    ensures p <= r <= |lines|
    ensures r == |lines| || IsHeader(lines[r])
    ensures forall q :: p <= q < r ==> !IsHeader(lines[q])
    decreases |lines| - p
  {
    if p == |lines| || IsHeader(lines[p]) then p else NextHeader(lines, p + 1)
  }

  /** The indices of the header lines at or after p, in increasing order. */
  function HeadersFrom(lines: seq<string>, p: nat): (r: seq<nat>)
    requires p <= |lines|
    ensures forall a :: 0 <= a < |r| ==> p <= r[a] < |lines|
    decreases |lines| - p
  {
    if p == |lines| then []
    else if IsHeader(lines[p]) then [p] + HeadersFrom(lines, p + 1)
    else HeadersFrom(lines, p + 1)
  }

  /** HeadersFrom lists exactly the header lines from p on, in increasing
      order. */
  lemma {:induction false} HeadersFromSpec(lines: seq<string>, p: nat)
    requires p <= |lines|
    ensures forall i :: i in HeadersFrom(lines, p) <==> p <= i < |lines| && IsHeader(lines[i])
    ensures forall a, b :: 0 <= a < b < |HeadersFrom(lines, p)| ==> HeadersFrom(lines, p)[a] < HeadersFrom(lines, p)[b]
    decreases |lines| - p
  {
    if p < |lines| {
      HeadersFromSpec(lines, p + 1);
    }
  }

  lemma {:induction false} AfterRunAt(lines: seq<string>, p: nat)
    requires p <= |lines|
    ensures AfterRun(lines[p..]) == lines[NextHeader(lines, p)..]
    ensures HeadersFrom(lines, p) == HeadersFrom(lines, NextHeader(lines, p))
    decreases |lines| - p
  {
    if p < |lines| && !IsHeader(lines[p]) {
      assert lines[p..][0] == lines[p] && lines[p..][1..] == lines[p + 1..];
      AfterRunAt(lines, p + 1);
    }
  }

  /** out holds, for each header index in h, the stripped header and the
      joined lines after it. */
  predicate Laid(out: seq<string>, lines: seq<string>, h: seq<nat>)
  {
    && |out| == 2 * |h|
    && (forall k :: 0 <= k < |h| ==> h[k] < |lines|)
    && forall k :: 0 <= k < |h| ==>
         out[2 * k] == Strip(lines[h[k]]) && out[2 * k + 1] == RunText(lines[h[k] + 1..])
  }

  lemma LaidCons(lines: seq<string>, p: nat, rest: seq<string>, hr: seq<nat>)
    requires p < |lines| && Laid(rest, lines, hr)
    ensures Laid([Strip(lines[p]), RunText(lines[p + 1..])] + rest, lines, [p] + hr)
  {
    var out := [Strip(lines[p]), RunText(lines[p + 1..])] + rest;
    var h := [p] + hr;
    forall k | 0 <= k < |h|
      ensures out[2 * k] == Strip(lines[h[k]]) && out[2 * k + 1] == RunText(lines[h[k] + 1..])
    {
      if k > 0 {
        assert out[2 * k] == rest[2 * (k - 1)];
        assert out[2 * k + 1] == rest[2 * (k - 1) + 1];
      }
    }
  }

  lemma {:induction false} RecordsFrom(lines: seq<string>, p: nat)
    requires p <= |lines| && (p == |lines| || IsHeader(lines[p]))
    ensures Laid(Records(lines[p..]), lines, HeadersFrom(lines, p))
    decreases |lines| - p
  {
    if p < |lines| {
      assert lines[p..][0] == lines[p] && lines[p..][1..] == lines[p + 1..];
      AfterRunAt(lines, p + 1);
      var q := NextHeader(lines, p + 1);
      RecordsFrom(lines, q);
      assert Records(lines[p..]) == [Strip(lines[p]), RunText(lines[p + 1..])] + Records(lines[q..]);
      assert HeadersFrom(lines, p) == [p] + HeadersFrom(lines, q);
      LaidCons(lines, p, Records(lines[q..]), HeadersFrom(lines, q));
    }
  }

  /** Two lines per header, in input order: the stripped header, then the
      stripped lines up to the next header (or the end) joined together. */
  lemma OneLineLayout(lines: seq<string>)
    ensures var out, h := OneLine(lines), HeadersFrom(lines, 0);
      && |out| == 2 * |h|
      && forall k :: 0 <= k < |h| ==>
           out[2 * k] == Strip(lines[h[k]]) && out[2 * k + 1] == RunText(lines[h[k] + 1..])
  {
    assert Laid(OneLine(lines), lines, HeadersFrom(lines, 0)) by {
      AfterRunAt(lines, 0);
      assert lines[0..] == lines;
      RecordsFrom(lines, NextHeader(lines, 0));
    }
  }

  /** A file without header lines gives an empty output. */
  lemma {:induction false} NoHeadersNoOutput(lines: seq<string>)
    requires forall i :: 0 <= i < |lines| ==> !IsHeader(lines[i])
    ensures OneLine(lines) == []
  {
    if lines != [] {
      NoHeadersNoOutput(lines[1..]);
    }
  }

  /** Lines before the first header are discarded. */
  lemma {:induction false} LeadingLinesDiscarded(before: seq<string>, rest: seq<string>)
    requires forall i :: 0 <= i < |before| ==> !IsHeader(before[i])
    ensures OneLine(before + rest) == OneLine(rest)
  {
    if before != [] {
      assert (before + rest)[0] == before[0] && (before + rest)[1..] == before[1..] + rest;
      LeadingLinesDiscarded(before[1..], rest);
    } else {
      assert before + rest == rest;
    }
  }

  // ---------------------------------------------------------------------
  // parse_blast_output

  predicate IsDescriptionLine(line: string)
  {
    StartsWith(Strip(line), "Description")
  }

  predicate IsHit(line: string)
  {
    StartsWith(Strip(line), ">")
  }

  const Multispecies: string := "MULTISPECIES: "

  /** No line is both a hit and a Description line. */
  lemma HitIsNotDescription(line: string)
    ensures IsHit(line) ==> !IsDescriptionLine(line)
  {
    if IsHit(line) {
      var t := Strip(line);
      assert t[..1] == ">";
      assert t[0] == '>';
      assert "Description"[0] == 'D';
      if |t| >= 11 {
        assert t[..11][0] == '>';
      }
    }
  }

  /** The description of a hit line: the text after '>' up to the first '[',
      stripped, with "MULTISPECIES: " removed. */
  function Describe(line: string): (r: string)
    ensures '[' !in r
  {
    var t := Strip(line);
    var body := if t == [] then [] else t[1..];
    var d := Strip(BeforeFirst(body, '['));
    StripMember(BeforeFirst(body, '['));
    RemoveAllMember(d, Multispecies);
    if Contains(d, Multispecies) then RemoveAll(d, Multispecies) else d
  }

  /** A hit line ">" + x, possibly followed by "[" and more, where x holds no
      '[': its description is x stripped, with every "MULTISPECIES: "
      removed; x is kept as it is when it does not contain that marker. */
  lemma DescribeHit(line: string, x: string, rest: string)
    requires Strip(line) == ">" + x + rest && '[' !in x
    requires rest == [] || rest[0] == '['
    ensures Describe(line) == RemoveAll(Strip(x), Multispecies)
    ensures !Contains(Strip(x), Multispecies) ==> Describe(line) == Strip(x)
  {
    var body := Strip(line)[1..];
    assert body == x + rest;
    BeforeFirstOf(x, rest, '[');
    if !Contains(Strip(x), Multispecies) {
      RemoveAllAbsent(Strip(x), Multispecies);
    }
  }

  /** A description written as "MULTISPECIES: " + z, z without the marker,
      comes out as z. */
  lemma DescribeMultispecies(line: string, x: string, rest: string, z: string)
    requires Strip(line) == ">" + x + rest && '[' !in x
    requires rest == [] || rest[0] == '['
    requires Strip(x) == Multispecies + z && !Contains(z, Multispecies)
    ensures Describe(line) == z
  {
    DescribeHit(line, x, rest);
    assert StartsWith(Strip(x), Multispecies);
    assert Strip(x)[|Multispecies|..] == z;
    RemoveAllAbsent(z, Multispecies);
  }

  /** unique_descriptions after the loop has read the given lines from the
      state (current, found). */
  function Collect(lines: seq<string>, current: bool, found: set<string>): set<string>
    decreases |lines|
  {
    if lines == [] then found
    else if IsDescriptionLine(lines[0]) then Collect(lines[1..], true, found)
    else if current && IsHit(lines[0]) && Describe(lines[0]) !in found then
      Collect(lines[1..], false, found + {Describe(lines[0])})
    else Collect(lines[1..], current, found)
  }

  predicate SortedByLower(r: seq<string>)
  {
    forall i, j :: 0 <= i < j < |r| ==> LexLe(Lower(r[i]), Lower(r[j]))
  }

  /** The lines parse_blast_output writes: the collected descriptions, each
      once, sorted by their lower-cased text. */
  method ParseBlastOutput(lines: seq<string>) returns (output: seq<string>)
    ensures forall d :: d in output <==> d in Collect(lines, false, {})
    ensures Distinct(output)
    ensures SortedByLower(output)
  {
    var uniqueDescriptions: set<string> := {};
    var current := false;
    for i := 0 to |lines|
      invariant Collect(lines[i..], current, uniqueDescriptions) == Collect(lines, false, {})
    {
      assert lines[i..][0] == lines[i] && lines[i..][1..] == lines[i + 1..];
      var line := Strip(lines[i]);
      if StartsWith(line, "Description") {
        current := true;
        continue;
      }
      if current && StartsWith(line, ">") {
        var description := Describe(lines[i]);
        if description !in uniqueDescriptions {
          uniqueDescriptions := uniqueDescriptions + {description};
          current := false;
        }
      }
    }
    output := SortByLower(uniqueDescriptions);
  }

  /** A place for x after which a sorted r stays sorted. */
  lemma InsertSorted(r: seq<string>, p: nat, x: string)
    requires SortedByLower(r) && p <= |r|
    requires forall k :: 0 <= k < p ==> LexLe(Lower(r[k]), Lower(x))
    requires p < |r| ==> LexLe(Lower(x), Lower(r[p]))
    ensures SortedByLower(r[..p] + [x] + r[p..])
  {
    var s := r[..p] + [x] + r[p..];
    forall i, j | 0 <= i < j < |s|
      ensures LexLe(Lower(s[i]), Lower(s[j]))
    {
      if i < p && j == p {
        assert s[i] == r[i];
      } else if i < p && j > p {
        assert s[i] == r[i] && s[j] == r[j - 1];
      } else if i == p {
        assert s[j] == r[j - 1];
        if j - 1 > p {
          LexLeTransitive(Lower(x), Lower(r[p]), Lower(r[j - 1]));
        }
      } else if i > p {
        assert s[i] == r[i - 1] && s[j] == r[j - 1];
      } else {
        assert s[i] == r[i] && s[j] == r[j];
      }
    }
  }

  /** Inserting a new element keeps the elements distinct. */
  lemma InsertDistinct(r: seq<string>, p: nat, x: string)
    requires Distinct(r) && x !in r && p <= |r|
    ensures forall y :: y in r[..p] + [x] + r[p..] <==> y in r || y == x
    ensures Distinct(r[..p] + [x] + r[p..])
  {
    var s := r[..p] + [x] + r[p..];
    assert forall y :: y in s <==> y in r[..p] || y == x || y in r[p..];
    assert r == r[..p] + r[p..];
    forall i, j | 0 <= i < j < |s|
      ensures s[i] != s[j]
    {
      if i < p && j > p {
        assert s[j] == r[j - 1];
      } else if i > p {
        assert s[i] == r[i - 1] && s[j] == r[j - 1];
      } else if j < p {
        assert s[i] == r[i] && s[j] == r[j];
      } else if i == p {
        assert s[j] == r[j - 1];
      } else {
        assert s[i] == r[i];
      }
    }
  }

  /** sorted(s, key=str.lower), for a set whose iteration order is not
      fixed: elements are taken in any order and inserted after every element
      whose key is not greater. */
  method SortByLower(s: set<string>) returns (r: seq<string>)
    ensures forall x :: x in r <==> x in s
    ensures Distinct(r)
    ensures SortedByLower(r)
  {
    r := [];
    var rest := s;
    while rest != {}
      invariant rest <= s
      invariant forall x :: x in r <==> x in s && x !in rest
      invariant Distinct(r)
      invariant SortedByLower(r)
      decreases |rest|
    {
      var x :| x in rest;
      var p := 0;
      while p < |r| && LexLe(Lower(r[p]), Lower(x))
        invariant 0 <= p <= |r|
        invariant forall k :: 0 <= k < p ==> LexLe(Lower(r[k]), Lower(x))
      {
        p := p + 1;
      }
      if p < |r| {
        LexLeTotal(Lower(x), Lower(r[p]));
      }
      InsertSorted(r, p, x);
      InsertDistinct(r, p, x);
      r := r[..p] + [x] + r[p..];
      rest := rest - {x};
    }
  }

  /** The state reached after any number of lines. */
  lemma {:induction false} CollectSuffix(lines: seq<string>, current: bool, found: set<string>, j: nat)
    requires j <= |lines|
    ensures exists c: bool, f: set<string> :: Collect(lines, current, found) == Collect(lines[j..], c, f)
    decreases j
  {
    if j == 0 {
      assert lines[0..] == lines;
      assert Collect(lines, current, found) == Collect(lines[j..], current, found);
    } else {
      var c, f;
      if IsDescriptionLine(lines[0]) {
        c, f := true, found;
      } else if current && IsHit(lines[0]) && Describe(lines[0]) !in found {
        c, f := false, found + {Describe(lines[0])};
      } else {
        c, f := current, found;
      }
      assert Collect(lines, current, found) == Collect(lines[1..], c, f);
      CollectSuffix(lines[1..], c, f, j - 1);
      assert lines[1..][j - 1..] == lines[j..];
    }
  }

  /** Descriptions once collected stay collected. */
  lemma {:induction false} CollectGrows(lines: seq<string>, current: bool, found: set<string>)
    ensures found <= Collect(lines, current, found)
    decreases |lines|
  {
    if lines != [] {
      CollectGrows(lines[1..], true, found);
      CollectGrows(lines[1..], false, found + {Describe(lines[0])});
      CollectGrows(lines[1..], current, found);
    }
  }

  /** The first hit after the current flag was raised is always collected. */
  lemma {:induction false} FirstHitCollected(lines: seq<string>, current: bool, found: set<string>, i: nat)
    requires i < |lines| && IsHit(lines[i])
    requires forall k :: 0 <= k < i ==> !IsHit(lines[k])
    requires current || exists k :: 0 <= k < i && IsDescriptionLine(lines[k])
    ensures Describe(lines[i]) in Collect(lines, current, found)
    decreases i
  {
    HitIsNotDescription(lines[i]);
    if i == 0 {
      var d := Describe(lines[0]);
      if d !in found {
        CollectGrows(lines[1..], false, found + {d});
      } else {
        CollectGrows(lines[1..], current, found);
      }
    } else {
      var c := if IsDescriptionLine(lines[0]) then true else current;
      assert Collect(lines, current, found) == Collect(lines[1..], c, found);
      if !c {
        var k :| 0 <= k < i && IsDescriptionLine(lines[k]);
        assert k > 0;
        assert IsDescriptionLine(lines[1..][k - 1]);
      }
      forall k | 0 <= k < i - 1
        ensures !IsHit(lines[1..][k])
      {
        assert lines[1..][k] == lines[k + 1];
      }
      FirstHitCollected(lines[1..], c, found, i - 1);
    }
  }

  /** After a Description line, the description of the next hit line is in
      the output. */
  lemma BlastComplete(lines: seq<string>, j: nat, i: nat)
    requires j < i < |lines|
    requires IsDescriptionLine(lines[j]) && IsHit(lines[i])
    requires forall k :: j < k < i ==> !IsHit(lines[k])
    ensures Describe(lines[i]) in Collect(lines, false, {})
  {
    CollectSuffix(lines, false, {}, j);
    var c: bool, f: set<string> :| Collect(lines, false, {}) == Collect(lines[j..], c, f);
    var tail := lines[j..];
    assert tail[i - j] == lines[i];
    assert IsDescriptionLine(tail[0]);
    forall k | 0 <= k < i - j
      ensures !IsHit(tail[k])
    {
      assert tail[k] == lines[j + k];
      HitIsNotDescription(tail[k]);
    }
    FirstHitCollected(tail, c, f, i - j);
  }

  // ---------------------------------------------------------------------
  // The loop state after a prefix of the lines

  /** current and unique_descriptions inside the loop. */
  datatype BlastState = BlastState(current: bool, found: set<string>)

  /** One iteration of the loop. */
  function Step(st: BlastState, line: string): BlastState
  {
    if IsDescriptionLine(line) then st.(current := true)
    else if st.current && IsHit(line) && Describe(line) !in st.found then
      BlastState(false, st.found + {Describe(line)})
    else st
  }

  /** The state after the first i lines. */
  function StateAt(lines: seq<string>, i: nat): BlastState
    requires i <= |lines|
  {
    if i == 0 then BlastState(false, {}) else Step(StateAt(lines, i - 1), lines[i - 1])
  }

  /** The rest of the loop from the state after i lines gives the result. */
  lemma {:induction false} CollectAt(lines: seq<string>, i: nat)
    requires i <= |lines|
    ensures Collect(lines[i..], StateAt(lines, i).current, StateAt(lines, i).found) == Collect(lines, false, {})
    decreases i
  {
    if i == 0 {
      assert lines[0..] == lines;
    } else {
      CollectAt(lines, i - 1);
      var tail := lines[i - 1..];
      assert tail[0] == lines[i - 1] && tail[1..] == lines[i..];
    }
  }

  lemma OutputIsFinalState(lines: seq<string>)
    ensures Collect(lines, false, {}) == StateAt(lines, |lines|).found
  {
    CollectAt(lines, |lines|);
  }

  /** Line k is the last Description line before line i, and every hit
      between them repeated a description already collected; this is the
      query whose first new hit line i may be. */
  ghost predicate LastQuery(lines: seq<string>, k: nat, i: nat)
    requires k < i <= |lines|
  {
    && IsDescriptionLine(lines[k])
    && forall h :: k < h < i ==>
         && !IsDescriptionLine(lines[h])
         && (IsHit(lines[h]) ==> Describe(lines[h]) in StateAt(lines, h).found)
  }

  /** A query that still waits after i lines waited after i - 1 lines. */
  lemma QueryRestricts(lines: seq<string>, k: nat, i: nat)
    requires k < i - 1 && i <= |lines| && LastQuery(lines, k, i)
    ensures LastQuery(lines, k, i - 1)
  {
  }

  /** A query keeps waiting past a line that neither is a Description line
      nor brings a new description. */
  lemma QueryExtends(lines: seq<string>, k: nat, i: nat)
    requires k < i - 1 && i <= |lines| && LastQuery(lines, k, i - 1)
    requires !IsDescriptionLine(lines[i - 1])
    requires IsHit(lines[i - 1]) ==> Describe(lines[i - 1]) in StateAt(lines, i - 1).found
    ensures LastQuery(lines, k, i)
  {
  }

  /** A hit with a new description ends every query before it. */
  lemma QueryEndsAtNewHit(lines: seq<string>, i: nat)
    requires 0 < i <= |lines| && IsHit(lines[i - 1])
    requires Describe(lines[i - 1]) !in StateAt(lines, i - 1).found
    ensures forall k :: 0 <= k < i ==> !LastQuery(lines, k, i)
  {
    HitIsNotDescription(lines[i - 1]);
  }

  /** The flag is raised after i lines exactly when some Description line
      before i still waits for a new hit. */
  lemma {:induction false} FlagAt(lines: seq<string>, i: nat)
    requires i <= |lines|
    ensures StateAt(lines, i).current <==> exists k :: 0 <= k < i && LastQuery(lines, k, i)
    decreases i
  {
    if i > 0 {
      FlagAt(lines, i - 1);
      var s, line := StateAt(lines, i - 1), lines[i - 1];
      if IsDescriptionLine(line) {
        assert LastQuery(lines, i - 1, i);
      } else if s.current && IsHit(line) && Describe(line) !in s.found {
        QueryEndsAtNewHit(lines, i);
      } else if s.current {
        var k :| 0 <= k < i - 1 && LastQuery(lines, k, i - 1);
        QueryExtends(lines, k, i);
      } else {
        forall k | 0 <= k < i ensures !LastQuery(lines, k, i) {
          if k < i - 1 && LastQuery(lines, k, i) {
            QueryRestricts(lines, k, i);
          }
        }
      }
    }
  }

  /** Collected descriptions stay collected. */
  lemma {:induction false} FoundGrows(lines: seq<string>, i: nat, j: nat)
    requires i <= j <= |lines|
    ensures StateAt(lines, i).found <= StateAt(lines, j).found
    decreases j
  {
    if i < j {
      FoundGrows(lines, i, j - 1);
    }
  }

  /** A collected description entered the set at some line. */
  lemma {:induction false} FirstEntry(lines: seq<string>, n: nat, d: string)
    requires n <= |lines| && d in StateAt(lines, n).found
    ensures exists i :: 0 <= i < n && d !in StateAt(lines, i).found && d in StateAt(lines, i + 1).found
    decreases n
  {
    if d in StateAt(lines, n - 1).found {
      FirstEntry(lines, n - 1, d);
    } else {
      assert d in StateAt(lines, n - 1 + 1).found;
    }
  }

  /** A description enters the set only from a hit read while the flag is
      raised. */
  lemma StepAdds(st: BlastState, line: string, d: string)
    requires d !in st.found && d in Step(st, line).found
    ensures st.current && IsHit(line) && d == Describe(line)
  {
  }

  /** A hit read while the flag is raised has its description collected. */
  lemma StepCollects(st: BlastState, line: string)
    requires st.current && IsHit(line)
    ensures Describe(line) in Step(st, line).found
  {
    HitIsNotDescription(line);
  }

  /** Every output line is the description of the first hit with a new
      description after a Description line: the hit at i follows the last
      Description line k before it, and every hit between them repeated a
      description already collected. In particular it holds no '['. */
  lemma BlastSound(lines: seq<string>, d: string)
    requires d in Collect(lines, false, {})
    ensures exists i, k ::
      (&& 0 <= k < i < |lines| && LastQuery(lines, k, i)
       && IsHit(lines[i]) && d == Describe(lines[i]) && d !in StateAt(lines, i).found)
    ensures '[' !in d
  {
    OutputIsFinalState(lines);
    FirstEntry(lines, |lines|, d);
    var i :| 0 <= i < |lines| && d !in StateAt(lines, i).found && d in StateAt(lines, i + 1).found;
    StepAdds(StateAt(lines, i), lines[i], d);
    FlagAt(lines, i);
    var k :| 0 <= k < i && LastQuery(lines, k, i);
  }

  /** Conversely, a hit whose query is still waiting is in the output. */
  lemma BlastQueryComplete(lines: seq<string>, k: nat, i: nat)
    requires k < i < |lines| && LastQuery(lines, k, i) && IsHit(lines[i])
    ensures Describe(lines[i]) in Collect(lines, false, {})
  {
    QueryRaisesFlag(lines, k, i);
    FlaggedHitCollected(lines, i);
  }

  lemma FlaggedHitCollected(lines: seq<string>, i: nat)
    requires i < |lines| && StateAt(lines, i).current && IsHit(lines[i])
    ensures Describe(lines[i]) in Collect(lines, false, {})
  {
    var s := StateAt(lines, i);
    StepCollects(s, lines[i]);
    assert StateAt(lines, i + 1) == Step(s, lines[i]);
    FoundGrows(lines, i + 1, |lines|);
    OutputIsFinalState(lines);
  }

  lemma QueryRaisesFlag(lines: seq<string>, k: nat, i: nat)
    requires k < i <= |lines| && LastQuery(lines, k, i)
    ensures StateAt(lines, i).current
  {
    FlagAt(lines, i);
  }

  /** The number of Description lines. */
  function QueryCount(lines: seq<string>): nat
  {
    if lines == [] then 0
    else (if IsDescriptionLine(lines[0]) then 1 else 0) + QueryCount(lines[1..])
  }

  lemma {:induction false} CollectCount(lines: seq<string>, current: bool, found: set<string>)
    ensures |Collect(lines, current, found)| <= |found| + (if current then 1 else 0) + QueryCount(lines)
    decreases |lines|
  {
    if lines != [] {
      if IsDescriptionLine(lines[0]) {
        CollectCount(lines[1..], true, found);
      } else if current && IsHit(lines[0]) && Describe(lines[0]) !in found {
        CollectCount(lines[1..], false, found + {Describe(lines[0])});
      } else {
        CollectCount(lines[1..], current, found);
      }
    }
  }

  /** At most one description is collected per Description line. */
  lemma OnePerQuery(lines: seq<string>)
    ensures |Collect(lines, false, {})| <= QueryCount(lines)
  {
    CollectCount(lines, false, {});
  }
}
