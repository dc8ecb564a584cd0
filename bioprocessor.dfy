/** modules/bioprocessor_modules.py: gene records read from the lines of a
    GenBank file, the neighbours of genes of interest, and the FASTA lines
    written for them. Files are sequences of lines. */
module Bioprocessor {
  import opened Common
  import opened Text

  /** One entry of genes_info: {"gene": name or None, "translation": text}. */
  datatype Gene = Gene(gene: Option<string>, translation: string)

  /** The entry a CDS line opens. */
  const Fresh: Gene := Gene(None, "")

  predicate IsCds(line: string)
  {
    StartsWith(Strip(line), "CDS")
  }

  // ---------------------------------------------------------------------
  // genes_from_gbk

  /** The effect of a line that is not a CDS line on the current entry: the
      elif chain of the line loop. A "/gene" line without '=' raises
      IndexError. */
  function Apply(g: Gene, line: string): Result<Gene>
  {
    if Contains(line, "/gene") then
      var field :- SecondField(line, '=');
      Ok(g.(gene := Some(Strip(RemoveChar(field, '"')))))
    else if Contains(line, "/translation=") && g.gene.Some? then
      assert "/translation="[12] == '=';
      ContainsMember(line, "/translation=", '=');
      Ok(g.(translation := Strip(RemoveChar(SecondField(line, '=').value, '"'))))
    else if !StartsWith(Strip(line), "/") then
      Ok(g.(translation := g.translation + RemoveChar(Strip(line), '"')))
    else
      Ok(g)
  }

  /** The loop state: the entries emitted so far and current_gene. */
  datatype GbkState = GbkState(genes: seq<Gene>, current: Option<Gene>)

  /** One iteration of the line loop. */
  function Feed(st: GbkState, line: string): Result<GbkState>
  {
    if IsCds(line) then
      var genes := if st.current.Some? && st.current.value.gene.Some? then st.genes + [st.current.value] else st.genes;
      Ok(GbkState(genes, Some(Fresh)))
    else if st.current.None? then
      Ok(st)
    else
      var g :- Apply(st.current.value, line);
      Ok(GbkState(st.genes, Some(g)))
  }

  /** The loop run over the remaining lines from state st. */
  function ScanLines(st: GbkState, lines: seq<string>): Result<GbkState>
    decreases |lines|
  {
    if lines == [] then Ok(st)
    else
      var next :- Feed(st, lines[0]);
      ScanLines(next, lines[1..])
  }

  /** After the loop the pending entry is appended, named or not. */
  function Finish(st: GbkState): seq<Gene>
  {
    if st.current.Some? then st.genes + [st.current.value] else st.genes
  }

  const Start: GbkState := GbkState([], None)

  /** What genes_from_gbk returns for a file with these lines. */
  function GenesOf(lines: seq<string>): Result<seq<Gene>>
  {
    var st :- ScanLines(Start, lines);
    Ok(Finish(st))
  }

  /** One step of ScanLines. */
  lemma ScanLinesStep(st: GbkState, lines: seq<string>)
    requires lines != []
    ensures ScanLines(st, lines) ==
      if Feed(st, lines[0]).Ok? then ScanLines(Feed(st, lines[0]).value, lines[1..])
      else Err(Feed(st, lines[0]).error)
  {
  }

  lemma FeedOnEntry(genes: seq<Gene>, g: Gene, line: string)
    requires !IsCds(line)
    ensures Feed(GbkState(genes, Some(g)), line) ==
      if Apply(g, line).Ok? then Ok(GbkState(genes, Some(Apply(g, line).value))) else Err(Apply(g, line).error)
  {
  }

  method GenesFromGbk(lines: seq<string>) returns (r: Result<seq<Gene>>)
    ensures r == GenesOf(lines)
  {
    var genesInfo: seq<Gene> := [];
    var currentGene: Option<Gene> := None;
    for i := 0 to |lines|
      invariant ScanLines(GbkState(genesInfo, currentGene), lines[i..]) == ScanLines(Start, lines)
    {
      var line := lines[i];
      ghost var before := GbkState(genesInfo, currentGene);
      ScanLinesStep(before, lines[i..]);
      assert lines[i..][1..] == lines[i + 1..];
      if !IsCds(line) && currentGene.Some? {
        FeedOnEntry(genesInfo, currentGene.value, line);
      }
      if IsCds(line) {
        if currentGene.Some? && currentGene.value.gene.Some? {
          genesInfo := genesInfo + [currentGene.value];
        }
        currentGene := Some(Fresh);
        assert Feed(before, line) == Ok(GbkState(genesInfo, currentGene));
      } else if Contains(line, "/gene") && currentGene.Some? {
        var field := SecondField(line, '=');
        if field.Err? {
          return Err(field.error);
        }
        var geneName := Strip(RemoveChar(field.value, '"'));
        currentGene := Some(currentGene.value.(gene := Some(geneName)));
        assert Feed(before, line) == Ok(GbkState(genesInfo, currentGene));
      } else if Contains(line, "/translation=") && currentGene.Some? && currentGene.value.gene.Some? {
        assert "/translation="[12] == '=';
        ContainsMember(line, "/translation=", '=');
        var translation := Strip(RemoveChar(SecondField(line, '=').value, '"'));
        currentGene := Some(currentGene.value.(translation := translation));
        assert Feed(before, line) == Ok(GbkState(genesInfo, currentGene));
      } else if !StartsWith(Strip(line), "/") && currentGene.Some? {
        var more := RemoveChar(Strip(line), '"');
        currentGene := Some(currentGene.value.(translation := currentGene.value.translation + more));
        assert Feed(before, line) == Ok(GbkState(genesInfo, currentGene));
      } else {
        assert Feed(before, line) == Ok(GbkState(genesInfo, currentGene));
      }
      assert Feed(before, line) == Ok(GbkState(genesInfo, currentGene));
    }
    if currentGene.Some? {
      genesInfo := genesInfo + [currentGene.value];
    }
    return Ok(genesInfo);
  }

  /** The number of CDS lines. */
  function CdsCount(lines: seq<string>): nat
  {
    if lines == [] then 0 else (if IsCds(lines[0]) then 1 else 0) + CdsCount(lines[1..])
  }

  lemma FeedBound(st: GbkState, line: string)
    ensures Feed(st, line).Ok? ==>
      |Finish(Feed(st, line).value)| <= |Finish(st)| + (if IsCds(line) then 1 else 0)
  {
    if !IsCds(line) && st.current.Some? {
      FeedOnEntry(st.genes, st.current.value, line);
    }
  }

  lemma {:induction false} ScanLinesBound(st: GbkState, lines: seq<string>)
    ensures ScanLines(st, lines).Ok? ==>
      |Finish(ScanLines(st, lines).value)| <= |Finish(st)| + CdsCount(lines)
    decreases |lines|
  {
    if lines != [] {
      ScanLinesStep(st, lines);
      FeedBound(st, lines[0]);
      var next := Feed(st, lines[0]);
      if next.Ok? {
        ScanLinesBound(next.value, lines[1..]);
      }
    }
  }

  /** Every CDS line opens at most one entry, so there are at most as many
      entries as CDS lines. */
  lemma GenesBound(lines: seq<string>)
    ensures GenesOf(lines).Ok? ==> |GenesOf(lines).value| <= CdsCount(lines)
  {
    ScanLinesBound(Start, lines);
  }

  lemma {:induction false} ScanWithoutCds(genes: seq<Gene>, lines: seq<string>)
    requires forall i :: 0 <= i < |lines| ==> !IsCds(lines[i])
    ensures ScanLines(GbkState(genes, None), lines) == Ok(GbkState(genes, None))
    decreases |lines|
  {
    if lines != [] {
      ScanLinesStep(GbkState(genes, None), lines);
      ScanWithoutCds(genes, lines[1..]);
    }
  }

  /** Without a CDS line nothing is collected and nothing raises, whatever
      the other lines hold. */
  lemma NoCdsNoGenes(lines: seq<string>)
    requires forall i :: 0 <= i < |lines| ==> !IsCds(lines[i])
    ensures GenesOf(lines) == Ok([])
  {
    ScanWithoutCds([], lines);
    assert Finish(Start) == [];
  }

  lemma {:induction false} ScanAppend(st: GbkState, a: seq<string>, b: seq<string>)
    ensures ScanLines(st, a + b) ==
      (if ScanLines(st, a).Ok? then ScanLines(ScanLines(st, a).value, b) else ScanLines(st, a))
    decreases |a|
  {
    if a != [] {
      assert (a + b)[0] == a[0];
      assert (a + b)[1..] == a[1..] + b;
      ScanLinesStep(st, a);
      ScanLinesStep(st, a + b);
      var next := Feed(st, a[0]);
      if next.Ok? {
        ScanAppend(next.value, a[1..], b);
      }
    } else {
      assert a + b == b;
    }
  }

  /** Lines before the first CDS line have no effect. */
  lemma LeadingLinesIgnored(before: seq<string>, rest: seq<string>)
    requires forall i :: 0 <= i < |before| ==> !IsCds(before[i])
    ensures GenesOf(before + rest) == GenesOf(rest)
  {
    ScanWithoutCds([], before);
    ScanAppend(Start, before, rest);
  }

  predicate AllNamed(genes: seq<Gene>)
  {
    forall i :: 0 <= i < |genes| ==> genes[i].gene.Some?
  }

  lemma FeedKeepsNamed(st: GbkState, line: string)
    requires AllNamed(st.genes)
    ensures Feed(st, line).Ok? ==> AllNamed(Feed(st, line).value.genes)
  {
  }

  lemma {:induction false} ScanKeepsNamed(st: GbkState, lines: seq<string>)
    requires AllNamed(st.genes)
    ensures ScanLines(st, lines).Ok? ==> AllNamed(ScanLines(st, lines).value.genes)
    decreases |lines|
  {
    if lines != [] {
      ScanLinesStep(st, lines);
      FeedKeepsNamed(st, lines[0]);
      var next := Feed(st, lines[0]);
      if next.Ok? {
        ScanKeepsNamed(next.value, lines[1..]);
      }
    }
  }

  /** An entry is emitted at a CDS line only when it has a name; only the
      last entry, emitted after the loop, may be unnamed. */
  lemma OnlyLastMayBeUnnamed(lines: seq<string>)
    ensures GenesOf(lines).Ok? ==>
      var r := GenesOf(lines).value;
      forall i :: 0 <= i < |r| - 1 ==> r[i].gene.Some?
  {
    ScanKeepsNamed(Start, lines);
  }

  lemma {:induction false} ScanEndingInCds(st: GbkState, lines: seq<string>)
    requires lines != [] && IsCds(lines[|lines| - 1])
    ensures ScanLines(st, lines).Ok? ==> ScanLines(st, lines).value.current == Some(Fresh)
    decreases |lines|
  {
    ScanLinesStep(st, lines);
    var next := Feed(st, lines[0]);
    if next.Ok? {
      if |lines| == 1 {
        assert lines[1..] == [];
      } else {
        ScanEndingInCds(next.value, lines[1..]);
      }
    }
  }

  /** A file that ends on a CDS line yields, last, the empty entry that line
      opened. */
  lemma TrailingCdsYieldsFresh(lines: seq<string>)
    requires lines != [] && IsCds(lines[|lines| - 1])
    ensures GenesOf(lines).Ok? ==>
      var r := GenesOf(lines).value; r != [] && r[|r| - 1] == Fresh
  {
    ScanEndingInCds(Start, lines);
  }

  lemma FeedRaises(st: GbkState, line: string)
    ensures Feed(st, line).Ok? || (Contains(line, "/gene") && '=' !in line)
  {
    if !IsCds(line) && st.current.Some? && !Contains(line, "/gene") && Contains(line, "/translation=") {
      assert "/translation="[12] == '=';
      ContainsMember(line, "/translation=", '=');
    }
  }

  lemma {:induction false} GeneLinesWithoutEqualsRaise(st: GbkState, lines: seq<string>)
    ensures ScanLines(st, lines).Ok? || exists i :: 0 <= i < |lines| && Contains(lines[i], "/gene") && '=' !in lines[i]
    decreases |lines|
  {
    if lines != [] {
      ScanLinesStep(st, lines);
      FeedRaises(st, lines[0]);
      var next := Feed(st, lines[0]);
      if next.Ok? {
        GeneLinesWithoutEqualsRaise(next.value, lines[1..]);
        if !ScanLines(st, lines).Ok? {
          var i :| 0 <= i < |lines[1..]| && Contains(lines[1..][i], "/gene") && '=' !in lines[1..][i];
          assert lines[i + 1] == lines[1..][i];
        }
      }
    }
  }

  /** The only error is the IndexError of a "/gene" line without '='. */
  lemma OnlyGeneLinesRaise(lines: seq<string>)
    ensures GenesOf(lines).Ok? || exists i :: 0 <= i < |lines| && Contains(lines[i], "/gene") && '=' !in lines[i]
  {
    GeneLinesWithoutEqualsRaise(Start, lines);
  }

  /** The value of a qualifier line: line.split("=")[1] with its quotes
      removed and then stripped, i.e. the text between the first and the
      second '='. */
  function QualifierValue(line: string): string
    requires '=' in line
  {
    Strip(RemoveChar(BeforeFirst(line[IndexOf(line, '=') + 1..], '='), '"'))
  }

  /** A "/gene" line renames the current entry: it raises exactly when the
      line has no '=', and otherwise sets the name to the qualifier's value,
      which holds no quote and no '=', and leaves the translation alone. */
  lemma GeneLineEffect(st: GbkState, line: string)
    requires st.current.Some? && !IsCds(line) && Contains(line, "/gene")
    ensures Feed(st, line).Ok? <==> '=' in line
    ensures Feed(st, line).Ok? ==>
      var next := Feed(st, line).value;
      && next == GbkState(st.genes, Some(st.current.value.(gene := Some(QualifierValue(line)))))
      && '"' !in QualifierValue(line)
      && '=' !in QualifierValue(line)
  {
    var field := SecondField(line, '=');
    if field.Ok? {
      StripMember(RemoveChar(field.value, '"'));
    }
  }

  /** A "/translation=" line of a named entry replaces its translation with
      the qualifier's value, which holds no quote and no '=', and keeps the
      name. */
  lemma TranslationLineEffect(st: GbkState, line: string)
    requires st.current.Some? && st.current.value.gene.Some?
    requires !IsCds(line) && !Contains(line, "/gene") && Contains(line, "/translation=")
    ensures '=' in line
    ensures Feed(st, line) ==
      Ok(GbkState(st.genes, Some(st.current.value.(translation := QualifierValue(line)))))
    ensures '"' !in QualifierValue(line) && '=' !in QualifierValue(line)
  {
    assert "/translation="[12] == '=';
    ContainsMember(line, "/translation=", '=');
    StripMember(RemoveChar(SecondField(line, '=').value, '"'));
  }

  /** Any other line of an entry that does not start with '/' once stripped
      is appended to the translation, stripped and without quotes; this
      includes the lines of later features up to the next CDS line. */
  lemma ContinuationLineEffect(st: GbkState, line: string)
    requires st.current.Some?
    requires !IsCds(line) && !Contains(line, "/gene")
    requires !(Contains(line, "/translation=") && st.current.value.gene.Some?)
    requires !StartsWith(Strip(line), "/")
    ensures Feed(st, line) ==
      Ok(GbkState(st.genes, Some(st.current.value.(translation :=
        st.current.value.translation + RemoveChar(Strip(line), '"')))))
    ensures '"' !in Feed(st, line).value.current.value.translation[|st.current.value.translation|..]
  {
    var t := st.current.value.translation;
    var more := RemoveChar(Strip(line), '"');
    assert (t + more)[|t|..] == more;
  }

  /** Any other line starting with '/' changes nothing. */
  lemma OtherQualifierIgnored(st: GbkState, line: string)
    requires !IsCds(line) && !Contains(line, "/gene")
    requires !(Contains(line, "/translation=") && st.current.Some? && st.current.value.gene.Some?)
    requires StartsWith(Strip(line), "/")
    ensures Feed(st, line) == Ok(st)
  {
  }

  // ---------------------------------------------------------------------
  // find_genes_of_interest

  /** The entry has a name and some query is a substring of it. */
  predicate Matches(g: Gene, queries: seq<string>)
  {
    g.gene.Some? && exists q :: q in queries && Contains(g.gene.value, q)
  }

  /** range(a, b) */
  function Range(a: int, b: int): (r: seq<int>)
    ensures |r| == if b <= a then 0 else b - a
    ensures forall k :: 0 <= k < |r| ==> r[k] == a + k
    ensures forall x :: x in r ==> a <= x < b
  {
    if b <= a then [] else seq(b - a, k requires 0 <= k < b - a => a + k)
  }

  lemma RangeHas(a: int, b: int, x: int)
    requires a <= x < b
    ensures x in Range(a, b)
  {
    assert Range(a, b)[x - a] == x;
  }

  lemma RangeSnoc(a: int, b: int)
    requires a <= b
    ensures Range(a, b + 1) == Range(a, b) + [b]
  {
  }

  function Other(idx: int): int -> bool
  {
    j => j != idx
  }

  /** The indices from a up to b, except idx. */
  function RangeExcept(a: int, b: int, idx: int): (r: seq<int>)
    ensures forall k :: 0 <= k < |r| ==> a <= r[k] < b && r[k] != idx
  {
    FilterMembers(Range(a, b), Other(idx));
    Filter(Range(a, b), Other(idx))
  }

  /** The neighbour indices the loop visits for a match at idx in a list of
      n entries: the first, the last and a middle entry are handled apart. */
  function Window(n: int, idx: int, nBefore: int, nAfter: int): (r: seq<int>)
    requires 0 <= idx < n
    ensures forall k :: 0 <= k < |r| ==> 0 <= r[k] < n && r[k] != idx
  {
    if idx == 0 then Range(idx + 1, Min(n, idx + nAfter + 1))
    else if idx == n - 1 then Range(Max(0, idx - nBefore), idx)
    else RangeExcept(Max(0, idx - nBefore), Min(n, idx + nAfter + 1), idx)
  }

  /** found_genes.append(g) unless g is already there. */
  function AddNew(found: seq<Gene>, g: Gene): seq<Gene>
  {
    if g in found then found else found + [g]
  }

  /** AddNew applied to genes[j] for each j of js in turn. */
  function AddAll(found: seq<Gene>, genes: seq<Gene>, js: seq<int>): seq<Gene>
    requires forall k :: 0 <= k < |js| ==> 0 <= js[k] < |genes|
  {
    if js == [] then found
    else AddNew(AddAll(found, genes, js[..|js| - 1]), genes[js[|js| - 1]])
  }

  /** found_genes after the outer loop has visited the first k entries. */
  function FoundUpTo(genes: seq<Gene>, queries: seq<string>, nBefore: int, nAfter: int, k: nat): seq<Gene>
    requires k <= |genes|
  {
    if k == 0 then []
    else
      var prev := FoundUpTo(genes, queries, nBefore, nAfter, k - 1);
      if Matches(genes[k - 1], queries)
      then AddAll(prev, genes, Window(|genes|, k - 1, nBefore, nAfter))
      else prev
  }

  /** What find_genes_of_interest returns. */
  function Found(genes: seq<Gene>, queries: seq<string>, nBefore: int, nAfter: int): seq<Gene>
  {
    FoundUpTo(genes, queries, nBefore, nAfter, |genes|)
  }

  lemma AddAllSnoc(found: seq<Gene>, genes: seq<Gene>, js: seq<int>, j: int)
    requires forall k :: 0 <= k < |js| ==> 0 <= js[k] < |genes|
    requires 0 <= j < |genes|
    ensures AddAll(found, genes, js + [j]) == AddNew(AddAll(found, genes, js), genes[j])
  {
    assert (js + [j])[..|js|] == js;
  }

  lemma FoundUpToStep(genes: seq<Gene>, queries: seq<string>, nBefore: int, nAfter: int, k: nat)
    requires k < |genes|
    ensures FoundUpTo(genes, queries, nBefore, nAfter, k + 1) ==
      if Matches(genes[k], queries)
      then AddAll(FoundUpTo(genes, queries, nBefore, nAfter, k), genes, Window(|genes|, k, nBefore, nAfter))
      else FoundUpTo(genes, queries, nBefore, nAfter, k)
  {
  }

  lemma RangeClip(a: int, b: int)
    ensures Range(a, Max(a, b)) == Range(a, b)
  {
  }

  /** One iteration of the loop over the first or the last entry's window. */
  lemma RangeStep(found: seq<Gene>, genes: seq<Gene>, start: int, j: int)
    requires 0 <= start <= j < |genes|
    ensures AddAll(found, genes, Range(start, j + 1)) == AddNew(AddAll(found, genes, Range(start, j)), genes[j])
  {
    RangeSnoc(start, j);
    AddAllSnoc(found, genes, Range(start, j), j);
  }

  /** One iteration of the loop over a middle entry's window. */
  lemma MiddleStep(found: seq<Gene>, genes: seq<Gene>, start: int, j: int, idx: int)
    requires 0 <= start <= j < |genes|
    ensures AddAll(found, genes, RangeExcept(start, j + 1, idx)) ==
      if j != idx then AddNew(AddAll(found, genes, RangeExcept(start, j, idx)), genes[j])
      else AddAll(found, genes, RangeExcept(start, j, idx))
  {
    RangeSnoc(start, j);
    FilterSnoc(Range(start, j), j, Other(idx));
    assert Other(idx)(j) == (j != idx);
    if j != idx {
      AddAllSnoc(found, genes, RangeExcept(start, j, idx), j);
    }
  }

  lemma WindowCases(n: int, idx: int, nBefore: int, nAfter: int)
    requires 0 <= idx < n
    ensures idx == 0 ==> Window(n, idx, nBefore, nAfter) == Range(idx + 1, Min(n, idx + nAfter + 1))
    ensures idx != 0 && idx == n - 1 ==> Window(n, idx, nBefore, nAfter) == Range(Max(0, idx - nBefore), idx)
    ensures idx != 0 && idx != n - 1 ==>
      Window(n, idx, nBefore, nAfter) == RangeExcept(Max(0, idx - nBefore), Min(n, idx + nAfter + 1), idx)
  {
  }

  /** The inner loops for a matching entry at idx: appends, in window
      order, the neighbours not yet in foundGenes. */
  method AddNeighbours(foundGenes: seq<Gene>, genesInfo: seq<Gene>, idx: int, nBefore: int, nAfter: int)
    returns (found: seq<Gene>)
    requires 0 <= idx < |genesInfo|
    ensures found == AddAll(foundGenes, genesInfo, Window(|genesInfo|, idx, nBefore, nAfter))
  {
    var n := |genesInfo|;
    ghost var prev := foundGenes;
    found := foundGenes;
    if idx == 0 {
      var endIdx := Min(n, idx + nAfter + 1);
      var j := idx + 1;
      while j < endIdx
        invariant idx + 1 <= j <= Max(idx + 1, endIdx)
        invariant found == AddAll(prev, genesInfo, Range(idx + 1, j))
      {
        RangeStep(prev, genesInfo, idx + 1, j);
        if genesInfo[j] !in found {
          found := found + [genesInfo[j]];
        }
        j := j + 1;
      }
      assert j == Max(idx + 1, endIdx);
      assert found == AddAll(prev, genesInfo, Window(n, idx, nBefore, nAfter)) by {
        WindowCases(n, idx, nBefore, nAfter);
        RangeClip(idx + 1, endIdx);
      }
    } else if idx == n - 1 {
      var startIdx := Max(0, idx - nBefore);
      var j := startIdx;
      while j < idx
        invariant startIdx <= j <= Max(startIdx, idx)
        invariant found == AddAll(prev, genesInfo, Range(startIdx, j))
      {
        RangeStep(prev, genesInfo, startIdx, j);
        if genesInfo[j] !in found {
          found := found + [genesInfo[j]];
        }
        j := j + 1;
      }
      assert j == Max(startIdx, idx);
      assert found == AddAll(prev, genesInfo, Window(n, idx, nBefore, nAfter)) by {
        WindowCases(n, idx, nBefore, nAfter);
        RangeClip(startIdx, idx);
      }
    } else {
      var startIdx := Max(0, idx - nBefore);
      var endIdx := Min(n, idx + nAfter + 1);
      var j := startIdx;
      while j < endIdx
        invariant startIdx <= j <= Max(startIdx, endIdx)
        invariant found == AddAll(prev, genesInfo, RangeExcept(startIdx, j, idx))
      {
        MiddleStep(prev, genesInfo, startIdx, j, idx);
        if j != idx && genesInfo[j] !in found {
          found := found + [genesInfo[j]];
        }
        j := j + 1;
      }
      assert j == Max(startIdx, endIdx);
      assert found == AddAll(prev, genesInfo, Window(n, idx, nBefore, nAfter)) by {
        WindowCases(n, idx, nBefore, nAfter);
        RangeClip(startIdx, endIdx);
      }
    }
  }

  method FindGenesOfInterest(genesInfo: seq<Gene>, genesOfInterest: seq<string>, nBefore: int, nAfter: int)
    returns (foundGenes: seq<Gene>)
    ensures foundGenes == Found(genesInfo, genesOfInterest, nBefore, nAfter)
  {
    foundGenes := [];
    for idx := 0 to |genesInfo|
      invariant foundGenes == FoundUpTo(genesInfo, genesOfInterest, nBefore, nAfter, idx)
    {
      FoundUpToStep(genesInfo, genesOfInterest, nBefore, nAfter, idx);
      if Matches(genesInfo[idx], genesOfInterest) {
        foundGenes := AddNeighbours(foundGenes, genesInfo, idx, nBefore, nAfter);
      }
    }
  }

  /** j is a neighbour the loop visits for a matching entry at idx. */
  predicate NeighbourOfMatch(genes: seq<Gene>, queries: seq<string>, nBefore: int, nAfter: int, idx: int, j: int)
  {
    0 <= idx < |genes| && Matches(genes[idx], queries) && j in Window(|genes|, idx, nBefore, nAfter)
  }

  lemma {:induction false} AddAllMembers(found: seq<Gene>, genes: seq<Gene>, js: seq<int>)
    requires forall k :: 0 <= k < |js| ==> 0 <= js[k] < |genes|
    ensures forall g :: g in AddAll(found, genes, js) <==> g in found || exists j :: j in js && genes[j] == g
  {
    if js != [] {
      var init := js[..|js| - 1];
      AddAllMembers(found, genes, init);
      assert forall j :: j in js <==> j in init || j == js[|js| - 1];
    }
  }

  lemma {:induction false} AddAllDistinct(found: seq<Gene>, genes: seq<Gene>, js: seq<int>)
    requires forall k :: 0 <= k < |js| ==> 0 <= js[k] < |genes|
    requires Distinct(found)
    ensures Distinct(AddAll(found, genes, js))
  {
    if js != [] {
      AddAllDistinct(found, genes, js[..|js| - 1]);
    }
  }

  /** g is genes[j] for a neighbour j of a matching entry before k. */
  ghost predicate ReportedBefore(genes: seq<Gene>, queries: seq<string>, nBefore: int, nAfter: int, k: int, g: Gene)
  {
    exists idx, j :: idx < k && NeighbourOfMatch(genes, queries, nBefore, nAfter, idx, j) && genes[j] == g
  }

  lemma {:induction false} FoundUpToSound(genes: seq<Gene>, queries: seq<string>, nBefore: int, nAfter: int, k: nat, g: Gene)
    requires k <= |genes|
    ensures g in FoundUpTo(genes, queries, nBefore, nAfter, k) ==> ReportedBefore(genes, queries, nBefore, nAfter, k, g)
  {
    if k > 0 && g in FoundUpTo(genes, queries, nBefore, nAfter, k) {
      FoundUpToSound(genes, queries, nBefore, nAfter, k - 1, g);
      FoundUpToStep(genes, queries, nBefore, nAfter, k - 1);
      var prev := FoundUpTo(genes, queries, nBefore, nAfter, k - 1);
      if g !in prev {
        var w := Window(|genes|, k - 1, nBefore, nAfter);
        var cur := FoundUpTo(genes, queries, nBefore, nAfter, k);
        assert cur == if Matches(genes[k - 1], queries) then AddAll(prev, genes, w) else prev;
        assert Matches(genes[k - 1], queries);
        AddAllMembers(prev, genes, w);
        var j :| j in w && genes[j] == g;
        assert NeighbourOfMatch(genes, queries, nBefore, nAfter, k - 1, j);
        assert k - 1 < k;
      }
    }
  }

  /** AddAll keeps what was found and adds every entry it visits. */
  lemma {:induction false} AddAllGrows(found: seq<Gene>, genes: seq<Gene>, js: seq<int>, g: Gene, j: int)
    requires forall k :: 0 <= k < |js| ==> 0 <= js[k] < |genes|
    ensures g in found ==> g in AddAll(found, genes, js)
    ensures j in js ==> genes[j] in AddAll(found, genes, js)
  {
    if js != [] {
      var init := js[..|js| - 1];
      AddAllGrows(found, genes, init, g, j);
      assert j in js ==> j in init || j == js[|js| - 1];
    }
  }

  lemma {:induction false} FoundUpToComplete(genes: seq<Gene>, queries: seq<string>, nBefore: int, nAfter: int, k: nat, g: Gene)
    requires k <= |genes|
    ensures ReportedBefore(genes, queries, nBefore, nAfter, k, g) ==> g in FoundUpTo(genes, queries, nBefore, nAfter, k)
  {
    if k > 0 && ReportedBefore(genes, queries, nBefore, nAfter, k, g) {
      FoundUpToStep(genes, queries, nBefore, nAfter, k - 1);
      var prev := FoundUpTo(genes, queries, nBefore, nAfter, k - 1);
      var w := Window(|genes|, k - 1, nBefore, nAfter);
      var cur := FoundUpTo(genes, queries, nBefore, nAfter, k);
      assert cur == if Matches(genes[k - 1], queries) then AddAll(prev, genes, w) else prev;
      var idx, j :| idx < k && NeighbourOfMatch(genes, queries, nBefore, nAfter, idx, j) && genes[j] == g;
      if idx < k - 1 {
        assert ReportedBefore(genes, queries, nBefore, nAfter, k - 1, g);
        FoundUpToComplete(genes, queries, nBefore, nAfter, k - 1, g);
        assert g in prev;
        if Matches(genes[k - 1], queries) {
          AddAllGrows(prev, genes, w, g, j);
        }
        assert g in cur;
      } else {
        assert idx == k - 1;
        assert NeighbourOfMatch(genes, queries, nBefore, nAfter, k - 1, j);
        assert Matches(genes[k - 1], queries) && j in w;
        AddAllGrows(prev, genes, w, g, j);
        assert g in cur;
      }
    }
  }

  lemma {:induction false} FoundUpToDistinct(genes: seq<Gene>, queries: seq<string>, nBefore: int, nAfter: int, k: nat)
    requires k <= |genes|
    ensures Distinct(FoundUpTo(genes, queries, nBefore, nAfter, k))
  {
    if k > 0 {
      FoundUpToDistinct(genes, queries, nBefore, nAfter, k - 1);
      if Matches(genes[k - 1], queries) {
        AddAllDistinct(FoundUpTo(genes, queries, nBefore, nAfter, k - 1), genes, Window(|genes|, k - 1, nBefore, nAfter));
      }
    }
  }

  /** The result holds each neighbour of each matching entry exactly once
      and nothing else; in particular every element is an input entry. */
  lemma FoundSpec(genes: seq<Gene>, queries: seq<string>, nBefore: int, nAfter: int)
    ensures Distinct(Found(genes, queries, nBefore, nAfter))
    ensures forall g :: g in Found(genes, queries, nBefore, nAfter) <==>
      exists idx, j :: NeighbourOfMatch(genes, queries, nBefore, nAfter, idx, j) && genes[j] == g
    ensures forall g :: g in Found(genes, queries, nBefore, nAfter) ==> g in genes
  {
    FoundUpToDistinct(genes, queries, nBefore, nAfter, |genes|);
    forall g
      ensures g in Found(genes, queries, nBefore, nAfter) <==>
        exists idx, j :: NeighbourOfMatch(genes, queries, nBefore, nAfter, idx, j) && genes[j] == g
    {
      FoundUpToSound(genes, queries, nBefore, nAfter, |genes|, g);
      FoundUpToComplete(genes, queries, nBefore, nAfter, |genes|, g);
    }
  }

  /** With non-negative counts the three branches agree: the neighbours of
      idx are the indices from idx - nBefore to idx + nAfter, clipped to the
      list, except idx itself. */
  lemma WindowUniform(n: int, idx: int, nBefore: nat, nAfter: nat, j: int)
    requires 0 <= idx < n
    ensures j in Window(n, idx, nBefore, nAfter) <==>
      Max(0, idx - nBefore) <= j < Min(n, idx + nAfter + 1) && j != idx
  {
    var r := Window(n, idx, nBefore, nAfter);
    if Max(0, idx - nBefore) <= j < Min(n, idx + nAfter + 1) && j != idx {
      if idx == 0 {
        assert r[j - 1] == j;
      } else if idx == n - 1 {
        assert r[j - Max(0, idx - nBefore)] == j;
      } else {
        FilterMembers(Range(Max(0, idx - nBefore), Min(n, idx + nAfter + 1)), Other(idx));
        assert Range(Max(0, idx - nBefore), Min(n, idx + nAfter + 1))[j - Max(0, idx - nBefore)] == j;
      }
    }
  }

  /** A list of one entry has no neighbours to report. */
  lemma SingleEntryHasNoNeighbours(g: Gene, queries: seq<string>, nBefore: int, nAfter: int)
    ensures Found([g], queries, nBefore, nAfter) == []
  {
    FoundUpToStep([g], queries, nBefore, nAfter, 0);
    assert Window(1, 0, nBefore, nAfter) == [];
  }

  // ---------------------------------------------------------------------
  // save_to_fasta

  /** f"{gene['gene']}": an unnamed entry prints as None. */
  function NameText(name: Option<string>): string
  {
    match name
    case None => "None"
    case Some(s) => s
  }

  predicate HasTranslation(g: Gene)
  {
    g.translation != []
  }

  /** The entries written: those with a non-empty translation, in order. */
  function Written(genes: seq<Gene>): seq<Gene>
  {
    Filter(genes, HasTranslation)
  }

  /** The written entries keep the input order and are exactly the entries
      with a non-empty translation. */
  lemma WrittenSpec(genes: seq<Gene>)
    ensures IsSubsequence(Written(genes), genes)
    ensures forall g :: g in Written(genes) <==> g in genes && g.translation != []
  {
    FilterMembers(genes, HasTranslation);
    FilterIsSubsequence(genes, HasTranslation);
  }

  /** The two lines written for one entry. */
  function Record(g: Gene): seq<string>
  {
    [">" + NameText(g.gene), g.translation]
  }

  /** The lines of the FASTA file for these entries. */
  function FastaLines(genes: seq<Gene>): seq<string>
  {
    if genes == [] then []
    else if HasTranslation(genes[|genes| - 1]) then FastaLines(genes[..|genes| - 1]) + Record(genes[|genes| - 1])
    else FastaLines(genes[..|genes| - 1])
  }

  method SaveToFasta(genes: seq<Gene>) returns (lines: seq<string>)
    ensures lines == FastaLines(genes)
  {
    lines := [];
    for i := 0 to |genes|
      invariant lines == FastaLines(genes[..i])
    {
      assert genes[..i + 1][..i] == genes[..i];
      var gene := genes[i];
      if gene.translation != [] {
        lines := lines + [">" + NameText(gene.gene), gene.translation];
      }
    }
    assert genes[..|genes|] == genes;
  }

  /** The file holds a header and a translation line for each entry with a
      non-empty translation, in input order, and nothing else. */
  lemma {:induction false} FastaLayout(genes: seq<Gene>)
    ensures |FastaLines(genes)| == 2 * |Written(genes)|
    ensures forall k :: 0 <= k < |Written(genes)| ==>
      FastaLines(genes)[2 * k] == ">" + NameText(Written(genes)[k].gene)
      && FastaLines(genes)[2 * k + 1] == Written(genes)[k].translation
  {
    if genes != [] {
      var init := genes[..|genes| - 1];
      var last := genes[|genes| - 1];
      FastaLayout(init);
      if HasTranslation(last) {
        assert Written(genes) == Written(init) + [last];
        var l := FastaLines(init);
        assert FastaLines(genes) == l + Record(last);
        forall k | 0 <= k < |Written(genes)|
          ensures FastaLines(genes)[2 * k] == ">" + NameText(Written(genes)[k].gene)
          ensures FastaLines(genes)[2 * k + 1] == Written(genes)[k].translation
        {
          if k < |Written(init)| {
            assert Written(genes)[k] == Written(init)[k];
          }
        }
      }
    }
  }
}
