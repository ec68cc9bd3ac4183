/**
  Policy segmentation (`XLSWorksheet.extract_accounting_policies` and its
  heading test `_isHeader`): the non-tabular rows of a sheet, after the
  first four, are read in column B and grouped into named policies.

  The loop is proved against `Run`, a left fold of the state machine's
  step.  `Group` is an independent description of the same output, written
  from the front: a heading followed by the run of body lines after it.
 */
module Segmenter {
  import opened Text
  import opened Worksheet

  datatype Option<T> = None | Some(value: T)

  /** The number of leading non-tabular rows that are skipped. */
  const SkipRows: nat := 4
  /** `split(' ', 9)` yielding more than this many fields marks body text. */
  const MaxHeadingFields: nat := 8
  /** The name given to body text that precedes the first heading. */
  const PreambleName: string := "Preamble"

  /** `_isHeader`: short text with no "year" and no "$" is a heading. */
  predicate IsHeader(s: string) {
    if |Split(s, ' ', 9)| > MaxHeadingFields then false
    else if Contains(s, "year") || Contains(s, "$") then false
    else true
  }

  /** Text is body text exactly when it has eight or more spaces, contains "year", or contains '$'. */
  lemma IsHeaderIff(s: string)
    ensures !IsHeader(s) <==> Count(' ', s) >= 8 || Contains(s, "year") || '$' in s
  {
    SplitLength(s, ' ', 9);
    ContainsChar(s, '$');
  }

  /**
    With words that hold no space joined by single spaces: up to eight words
    form a heading unless the text holds "year" or '$'; nine or more never do.
   */
  lemma WordCountBoundary(words: seq<string>)
    requires |words| >= 1
    requires forall k :: 0 <= k < |words| ==> ' ' !in words[k]
    ensures |words| >= 9 ==> !IsHeader(Join(words, " "))
    ensures |words| <= 8 ==>
              (IsHeader(Join(words, " ")) <==> !Contains(Join(words, " "), "year") && '$' !in Join(words, " "))
  {
    JoinCount(words, ' ');
    IsHeaderIff(Join(words, " "));
  }

  /** One extracted policy (`AccountingPolicy`). */
  datatype Policy = Policy(id: string, sheetName: string, name: string, values: seq<string>)

  /** A column-B text value together with the heading test's verdict on it. */
  datatype Line = Heading(text: string) | Body(text: string)

  /**
    A column-B text as the loop sees it: a heading exactly when it has fewer
    than eight spaces and holds neither "year" nor '$'.
   */
  function Classify(s: string): (l: Line)
    ensures l.text == s && (l.Heading? <==> IsHeader(s))
    ensures l.Heading? <==> Count(' ', s) < 8 && !Contains(s, "year") && '$' !in s
  {
    IsHeaderIff(s);
    if IsHeader(s) then Heading(s) else Body(s)
  }

  /** Every line carries the verdict `_isHeader` gives its text. */
  predicate Classified(lines: seq<Line>) {
    forall k :: 0 <= k < |lines| ==> lines[k] == Classify(lines[k].text)
  }

  /** Every row that the segmenter reads has a column B (`row[1]` does not raise). */
  predicate SegmentReady(nonTabular: seq<Row>) {
    forall k :: SkipRows <= k < |nonTabular| ==> |nonTabular[k]| >= 2
  }

  /** The rows the segmenter walks: `rows_without_tables[4:]`. */
  function Remaining(nonTabular: seq<Row>): (r: seq<Row>)
    ensures |nonTabular| <= SkipRows ==> r == []
    ensures |nonTabular| > SkipRows ==> r == nonTabular[SkipRows..]
    ensures |r| == |nonTabular| - Min(SkipRows, |nonTabular|)
    ensures nonTabular[..Min(SkipRows, |nonTabular|)] + r == nonTabular
  {
    if |nonTabular| <= SkipRows then [] else nonTabular[SkipRows..]
  }

  /** The text values of column B, in row order and classified; rows whose column B is not text are skipped. */
  function ColumnB(rows: seq<Row>): (lines: seq<Line>)
    requires forall k :: 0 <= k < |rows| ==> |rows[k]| >= 2
    ensures Classified(lines)
  {
    if |rows| == 0 then []
    else if rows[0][1].Str? then [Classify(rows[0][1].s)] + ColumnB(rows[1..])
    else ColumnB(rows[1..])
  }

  /** One row contributes its column-B text, classified, when that cell holds text, and nothing otherwise. */
  lemma ColumnBSingle(row: Row)
    requires |row| >= 2
    ensures ColumnB([row]) == if row[1].Str? then [Classify(row[1].s)] else []
  {
    assert [row][1..] == [];
  }

  lemma {:induction false} ColumnBAppend(a: seq<Row>, b: seq<Row>)
    requires forall k :: 0 <= k < |a| ==> |a[k]| >= 2
    requires forall k :: 0 <= k < |b| ==> |b[k]| >= 2
    ensures ColumnB(a + b) == ColumnB(a) + ColumnB(b)
  {
    if |a| == 0 {
      assert a + b == b;
    } else {
      assert (a + b)[1..] == a[1..] + b;
      ColumnBAppend(a[1..], b);
    }
  }

  /** The segmenter's state: the closed policies and the open one, if any. */
  datatype Scan = Scan(closed: seq<Policy>, open: Option<Policy>)

  /** The records a scan holds once the open policy, if any, is closed. */
  function Flush(st: Scan): seq<Policy> {
    match st.open
    case None => st.closed
    case Some(p) => st.closed + [p]
  }

  /** One step of the state machine on a column-B line. */
  function Step(id: string, title: string, st: Scan, line: Line): Scan {
    match line
    case Heading(h) => Scan(Flush(st), Some(Policy(id, title, h, [])))
    case Body(b) =>
      match st.open
      case None => Scan(st.closed, Some(Policy(id, title, PreambleName, [b])))
      case Some(p) => Scan(st.closed, Some(p.(values := p.values + [b])))
  }

  /** The state after stepping through `lines` from `st`. */
  function Run(id: string, title: string, st: Scan, lines: seq<Line>): Scan
    decreases |lines|
  {
    if |lines| == 0 then st else Run(id, title, Step(id, title, st, lines[0]), lines[1..])
  }

  /** What `extract_accounting_policies` returns for a sheet with these non-tabular rows. */
  function Extract(id: string, title: string, nonTabular: seq<Row>): seq<Policy>
    requires SegmentReady(nonTabular)
  {
    Flush(Run(id, title, Scan([], None), ColumnB(Remaining(nonTabular))))
  }

  /** The texts of the leading run of body lines. */
  function LeadingBody(lines: seq<Line>): seq<string> {
    if |lines| == 0 || lines[0].Heading? then [] else [lines[0].text] + LeadingBody(lines[1..])
  }

  /** What follows the leading run of body lines: nothing, or a heading and the rest. */
  function AfterBody(lines: seq<Line>): (r: seq<Line>)
    ensures |r| <= |lines|
    ensures |lines| > 0 && lines[0].Body? ==> |r| < |lines|
    ensures r == [] || r[0].Heading?
  {
    if |lines| == 0 || lines[0].Heading? then lines else AfterBody(lines[1..])
  }

  /**
    The reference segmentation: a heading and the body lines up to the next
    heading form one policy; body lines before any heading form "Preamble".
   */
  function Group(id: string, title: string, lines: seq<Line>): seq<Policy>
    decreases |lines|
  {
    if |lines| == 0 then []
    else if lines[0].Heading? then
      [Policy(id, title, lines[0].text, LeadingBody(lines[1..]))] + Group(id, title, AfterBody(lines[1..]))
    else
      [Policy(id, title, PreambleName, LeadingBody(lines))] + Group(id, title, AfterBody(lines))
  }

  /** From a scan with a policy open, the fold completes that policy with the leading body lines. */
  lemma {:induction false} RunFromOpen(id: string, title: string, closed: seq<Policy>, p: Policy, lines: seq<Line>)
    ensures Flush(Run(id, title, Scan(closed, Some(p)), lines))
              == closed + [p.(values := p.values + LeadingBody(lines))] + Group(id, title, AfterBody(lines))
    decreases |lines|
  {
    if |lines| == 0 {
      assert p.(values := p.values + []) == p;
    } else if lines[0].Heading? {
      var h := Policy(id, title, lines[0].text, []);
      assert Run(id, title, Scan(closed, Some(p)), lines) == Run(id, title, Scan(closed + [p], Some(h)), lines[1..]);
      RunFromOpen(id, title, closed + [p], h, lines[1..]);
      assert h.(values := h.values + LeadingBody(lines[1..])) == Policy(id, title, lines[0].text, LeadingBody(lines[1..]));
      assert Group(id, title, lines) == [Policy(id, title, lines[0].text, LeadingBody(lines[1..]))] + Group(id, title, AfterBody(lines[1..]));
      assert LeadingBody(lines) == [] && AfterBody(lines) == lines;
      assert p.(values := p.values + []) == p;
    } else {
      var p' := p.(values := p.values + [lines[0].text]);
      assert Run(id, title, Scan(closed, Some(p)), lines) == Run(id, title, Scan(closed, Some(p')), lines[1..]);
      RunFromOpen(id, title, closed, p', lines[1..]);
      assert LeadingBody(lines) == [lines[0].text] + LeadingBody(lines[1..]);
      assert AfterBody(lines) == AfterBody(lines[1..]);
      assert p.values + LeadingBody(lines) == p'.values + LeadingBody(lines[1..]);
    }
  }

  /** The reference grouping of lines that start with a heading. */
  lemma GroupHeading(id: string, title: string, lines: seq<Line>)
    requires |lines| > 0 && lines[0].Heading?
    ensures Group(id, title, lines)
         == [Policy(id, title, lines[0].text, LeadingBody(lines[1..]))] + Group(id, title, AfterBody(lines[1..]))
  {
  }

  /** From a scan with nothing open, a heading opens a policy that collects the body lines after it. */
  lemma RunFromClosedHeading(id: string, title: string, closed: seq<Policy>, lines: seq<Line>)
    requires |lines| > 0 && lines[0].Heading?
    ensures Flush(Run(id, title, Scan(closed, None), lines)) == closed + Group(id, title, lines)
  {
    var h := Policy(id, title, lines[0].text, []);
    assert Run(id, title, Scan(closed, None), lines) == Run(id, title, Scan(closed, Some(h)), lines[1..]);
    RunFromOpen(id, title, closed, h, lines[1..]);
    var first := Policy(id, title, lines[0].text, LeadingBody(lines[1..]));
    assert h.(values := h.values + LeadingBody(lines[1..])) == first;
    GroupHeading(id, title, lines);
  }

  /** From a scan with nothing open, body text opens a "Preamble" that collects it and the body lines after it. */
  lemma RunFromClosedBody(id: string, title: string, closed: seq<Policy>, lines: seq<Line>)
    requires |lines| > 0 && lines[0].Body?
    ensures Flush(Run(id, title, Scan(closed, None), lines)) == closed + Group(id, title, lines)
  {
    var b := Policy(id, title, PreambleName, [lines[0].text]);
    assert Run(id, title, Scan(closed, None), lines) == Run(id, title, Scan(closed, Some(b)), lines[1..]);
    RunFromOpen(id, title, closed, b, lines[1..]);
    assert LeadingBody(lines) == [lines[0].text] + LeadingBody(lines[1..]);
    assert AfterBody(lines) == AfterBody(lines[1..]);
  }

  /** From a scan with nothing open, the fold appends exactly the reference grouping. */
  lemma RunFromClosed(id: string, title: string, closed: seq<Policy>, lines: seq<Line>)
    ensures Flush(Run(id, title, Scan(closed, None), lines)) == closed + Group(id, title, lines)
  {
    if |lines| == 0 {
    } else if lines[0].Heading? {
      RunFromClosedHeading(id, title, closed, lines);
    } else {
      RunFromClosedBody(id, title, closed, lines);
    }
  }

  /** The state machine computes the reference grouping of the column-B lines after the skipped rows. */
  lemma ExtractIsGroup(id: string, title: string, nonTabular: seq<Row>)
    requires SegmentReady(nonTabular)
    ensures Extract(id, title, nonTabular) == Group(id, title, ColumnB(Remaining(nonTabular)))
  {
    RunFromClosed(id, title, [], ColumnB(Remaining(nonTabular)));
  }

  /** The names of some policies, in order. */
  function Names(ps: seq<Policy>): (r: seq<string>)
    ensures |r| == |ps|
  {
    if |ps| == 0 then [] else [ps[0].name] + Names(ps[1..])
  }

  /** The body lines of some policies, one policy after the other. */
  function AllValues(ps: seq<Policy>): seq<string> {
    if |ps| == 0 then [] else ps[0].values + AllValues(ps[1..])
  }

  /** The texts of the heading lines, in order. */
  function HeadingTexts(lines: seq<Line>): seq<string> {
    if |lines| == 0 then []
    else if lines[0].Heading? then [lines[0].text] + HeadingTexts(lines[1..])
    else HeadingTexts(lines[1..])
  }

  /** The texts of the body lines, in order. */
  function BodyTexts(lines: seq<Line>): seq<string> {
    if |lines| == 0 then []
    else if lines[0].Body? then [lines[0].text] + BodyTexts(lines[1..])
    else BodyTexts(lines[1..])
  }

  /** The lines start with a body line, so the grouping begins with a Preamble. */
  predicate StartsWithBody(lines: seq<Line>) {
    |lines| > 0 && lines[0].Body?
  }

  /** Cutting off the leading body run loses no heading and exactly the body run's texts. */
  lemma {:induction false} AfterBodySplit(lines: seq<Line>)
    ensures HeadingTexts(lines) == HeadingTexts(AfterBody(lines))
    ensures BodyTexts(lines) == LeadingBody(lines) + BodyTexts(AfterBody(lines))
  {
    if |lines| > 0 && lines[0].Body? {
      AfterBodySplit(lines[1..]);
    }
  }

  /**
    The policies are named, in order, "Preamble" when body text comes
    before the first heading, and then each heading line's text.
   */
  lemma {:induction false} GroupNames(id: string, title: string, lines: seq<Line>)
    ensures Names(Group(id, title, lines)) == (if StartsWithBody(lines) then [PreambleName] else []) + HeadingTexts(lines)
    decreases |lines|
  {
    if |lines| > 0 {
      if lines[0].Heading? {
        var rest := AfterBody(lines[1..]);
        GroupNames(id, title, rest);
        AfterBodySplit(lines[1..]);
        assert Group(id, title, lines)[1..] == Group(id, title, rest);
      } else {
        var rest := AfterBody(lines);
        GroupNames(id, title, rest);
        AfterBodySplit(lines);
        assert Group(id, title, lines)[1..] == Group(id, title, rest);
      }
    }
  }

  /** There is one policy per heading line, plus one when body text comes first. */
  lemma GroupCount(id: string, title: string, lines: seq<Line>)
    ensures |Group(id, title, lines)| == |HeadingTexts(lines)| + (if StartsWithBody(lines) then 1 else 0)
  {
    GroupNames(id, title, lines);
  }

  /** Every body line lands in exactly one policy, and the policies' bodies in order are all body lines in order. */
  lemma {:induction false} GroupValues(id: string, title: string, lines: seq<Line>)
    ensures AllValues(Group(id, title, lines)) == BodyTexts(lines)
    decreases |lines|
  {
    if |lines| > 0 {
      if lines[0].Heading? {
        var rest := AfterBody(lines[1..]);
        GroupValues(id, title, rest);
        AfterBodySplit(lines[1..]);
        assert Group(id, title, lines)[1..] == Group(id, title, rest);
      } else {
        var rest := AfterBody(lines);
        GroupValues(id, title, rest);
        AfterBodySplit(lines);
        assert Group(id, title, lines)[1..] == Group(id, title, rest);
      }
    }
  }

  /** A suffix of classified lines is classified. */
  lemma ClassifiedSuffix(lines: seq<Line>, i: nat)
    requires Classified(lines) && i <= |lines|
    ensures Classified(lines[i..])
  {
    forall k | 0 <= k < |lines| - i ensures lines[i..][k] == Classify(lines[i..][k].text) {
      assert lines[i..][k] == lines[i + k];
    }
  }

  /** What follows the body run is a suffix of the lines. */
  lemma {:induction false} AfterBodySuffix(lines: seq<Line>)
    ensures AfterBody(lines) == lines[|lines| - |AfterBody(lines)|..]
  {
    if |lines| > 0 && lines[0].Body? {
      AfterBodySuffix(lines[1..]);
      assert lines[1..][|lines[1..]| - |AfterBody(lines[1..])|..] == lines[|lines| - |AfterBody(lines)|..];
    }
  }

  /** The leading body run of classified lines holds only text that is not a heading. */
  lemma {:induction false} LeadingBodyNotHeadings(lines: seq<Line>)
    requires Classified(lines)
    ensures forall j :: 0 <= j < |LeadingBody(lines)| ==> !IsHeader(LeadingBody(lines)[j])
  {
    if |lines| > 0 && lines[0].Body? {
      ClassifiedSuffix(lines, 1);
      LeadingBodyNotHeadings(lines[1..]);
      assert lines[0] == Classify(lines[0].text);
      var b := LeadingBody(lines);
      forall j | 1 <= j < |b| ensures !IsHeader(b[j]) {
        assert b[j] == LeadingBody(lines[1..])[j - 1];
      }
    }
  }

  /**
    Every policy carries the document id and sheet title; no body line is
    heading-shaped; every name is heading-shaped, except possibly the first
    when `preamble` holds, which is then the "Preamble" record with a line.
   */
  predicate Shaped(id: string, title: string, g: seq<Policy>, preamble: bool) {
    && (forall k :: 0 <= k < |g| ==> g[k].id == id && g[k].sheetName == title)
    && (forall k, j :: 0 <= k < |g| && 0 <= j < |g[k].values| ==> !IsHeader(g[k].values[j]))
    && (forall k :: 0 <= k < |g| && (k > 0 || !preamble) ==> IsHeader(g[k].name))
    && (preamble ==> |g| > 0 && g[0].name == PreambleName && |g[0].values| > 0)
  }

  /** A shaped grouping with no preamble stays shaped when a well-formed policy is put in front. */
  lemma ShapedCons(id: string, title: string, p: Policy, tail: seq<Policy>, preamble: bool)
    requires Shaped(id, title, tail, false)
    requires p.id == id && p.sheetName == title
    requires forall j :: 0 <= j < |p.values| ==> !IsHeader(p.values[j])
    requires preamble ==> p.name == PreambleName && |p.values| > 0
    requires !preamble ==> IsHeader(p.name)
    ensures Shaped(id, title, [p] + tail, preamble)
  {
    var g := [p] + tail;
    forall k | 1 <= k < |g| ensures g[k] == tail[k - 1] {
    }
  }

  /** The grouping of classified lines is shaped, with a "Preamble" exactly when body text comes first. */
  lemma {:induction false} GroupShape(id: string, title: string, lines: seq<Line>)
    requires Classified(lines)
    ensures Shaped(id, title, Group(id, title, lines), StartsWithBody(lines))
    decreases |lines|
  {
    if |lines| > 0 {
      if lines[0].Heading? {
        var rest := AfterBody(lines[1..]);
        ClassifiedSuffix(lines, 1);
        AfterBodySuffix(lines[1..]);
        ClassifiedSuffix(lines[1..], |lines[1..]| - |rest|);
        LeadingBodyNotHeadings(lines[1..]);
        assert lines[0] == Classify(lines[0].text);
        GroupShape(id, title, rest);
        ShapedCons(id, title, Policy(id, title, lines[0].text, LeadingBody(lines[1..])), Group(id, title, rest), false);
      } else {
        var rest := AfterBody(lines);
        AfterBodySuffix(lines);
        ClassifiedSuffix(lines, |lines| - |rest|);
        LeadingBodyNotHeadings(lines);
        GroupShape(id, title, rest);
        ShapedCons(id, title, Policy(id, title, PreambleName, LeadingBody(lines)), Group(id, title, rest), true);
      }
    }
  }

  /** The state machine's output for body text followed by a heading: a "Preamble", then the heading with no lines. */
  lemma PreambleThenHeading(id: string, title: string, body: string, heading: string)
    ensures Group(id, title, [Body(body), Heading(heading)])
         == [Policy(id, title, PreambleName, [body]), Policy(id, title, heading, [])]
  {
    var lines := [Body(body), Heading(heading)];
    assert lines[1..] == [Heading(heading)];
    assert [Heading(heading)][1..] == [];
    assert AfterBody(lines) == [Heading(heading)];
    assert LeadingBody(lines) == [body];
    assert Group(id, title, [Heading(heading)]) == [Policy(id, title, heading, [])];
  }

  /** The first four non-tabular rows never matter. */
  lemma LeadingRowsIgnored(id: string, title: string, a: seq<Row>, b: seq<Row>, rest: seq<Row>)
    requires |a| == SkipRows && |b| == SkipRows
    requires SegmentReady(a + rest)
    ensures SegmentReady(b + rest)
    ensures Extract(id, title, a + rest) == Extract(id, title, b + rest)
  {
    assert (a + rest)[SkipRows..] == rest;
    assert (b + rest)[SkipRows..] == rest;
    assert forall k :: SkipRows <= k < |b + rest| ==> (b + rest)[k] == (a + rest)[k];
  }

  /** Removing a row keeps every walked row wide enough. */
  lemma RemoveRowReady(nonTabular: seq<Row>, k: nat)
    requires SegmentReady(nonTabular) && k < |nonTabular|
    ensures SegmentReady(nonTabular[..k] + nonTabular[k + 1..])
  {
    var shorter := nonTabular[..k] + nonTabular[k + 1..];
    forall i | SkipRows <= i < |shorter| ensures |shorter[i]| >= 2 {
      if i < k { assert shorter[i] == nonTabular[i]; } else { assert shorter[i] == nonTabular[i + 1]; }
    }
  }

  /** The rows walked with and without row `k`, cut around it. */
  lemma RemainingAround(nonTabular: seq<Row>, k: nat)
    requires SkipRows <= k < |nonTabular|
    ensures Remaining(nonTabular) == nonTabular[SkipRows..k] + [nonTabular[k]] + nonTabular[k + 1..]
    ensures Remaining(nonTabular[..k] + nonTabular[k + 1..]) == nonTabular[SkipRows..k] + nonTabular[k + 1..]
  {
    var shorter := nonTabular[..k] + nonTabular[k + 1..];
    assert shorter[SkipRows..] == nonTabular[SkipRows..k] + nonTabular[k + 1..];
  }

  /** A row whose column B is not text contributes no line. */
  lemma ColumnBDrop(before: seq<Row>, row: Row, after: seq<Row>)
    requires forall k :: 0 <= k < |before| ==> |before[k]| >= 2
    requires forall k :: 0 <= k < |after| ==> |after[k]| >= 2
    requires |row| >= 2 && !row[1].Str?
    ensures ColumnB(before + [row] + after) == ColumnB(before + after)
  {
    ColumnBAppend(before + [row], after);
    ColumnBAppend(before, [row]);
    ColumnBAppend(before, after);
    assert [row][1..] == [];
  }

  /** A later row whose column B is empty or not text can be removed without changing the output. */
  lemma SkippedRowIgnored(id: string, title: string, nonTabular: seq<Row>, k: nat)
    requires SegmentReady(nonTabular)
    requires SkipRows <= k < |nonTabular| && !nonTabular[k][1].Str?
    ensures SegmentReady(nonTabular[..k] + nonTabular[k + 1..])
    ensures Extract(id, title, nonTabular[..k] + nonTabular[k + 1..]) == Extract(id, title, nonTabular)
  {
    RemoveRowReady(nonTabular, k);
    RemainingAround(nonTabular, k);
    var before, after := nonTabular[SkipRows..k], nonTabular[k + 1..];
    assert forall i :: 0 <= i < |before| ==> before[i] == nonTabular[SkipRows + i];
    assert forall i :: 0 <= i < |after| ==> after[i] == nonTabular[k + 1 + i];
    ColumnBDrop(before, nonTabular[k], after);
  }

  /**
    `extract_accounting_policies`: walk `rows_without_tables[4:]`, skip rows
    whose column B is not text, open a policy at each heading (closing the
    open one), append body lines to the open policy or start a "Preamble",
    and close the open policy at the end.
   */
  method ExtractAccountingPolicies(w: Sheet) returns (policies: seq<Policy>)
    requires SegmentReady(w.RowsWithoutTables())
    ensures policies == Extract(w.id, w.title, w.RowsWithoutTables())
    ensures policies == Group(w.id, w.title, ColumnB(Remaining(w.RowsWithoutTables())))
  {
    var rows := Remaining(w.RowsWithoutTables());
    var accountingPolicies: seq<Policy> := [];
    var current: Option<Policy> := None;
    var i := 0;
    while i < |rows|
      invariant 0 <= i <= |rows|
      invariant Run(w.id, w.title, Scan(accountingPolicies, current), ColumnB(rows[i..]))
             == Run(w.id, w.title, Scan([], None), ColumnB(rows))
    {
      assert rows[i..][1..] == rows[i + 1..];
      var bColumnValue := rows[i][1];
      if bColumnValue.Str? {
        if IsHeader(bColumnValue.s) {
          if current.None? {
            current := Some(Policy(w.id, w.title, bColumnValue.s, []));
          } else {
            accountingPolicies := accountingPolicies + [current.value];
            current := Some(Policy(w.id, w.title, bColumnValue.s, []));
          }
        } else {
          if current.None? {
            current := Some(Policy(w.id, w.title, PreambleName, [bColumnValue.s]));
          } else {
            current := Some(current.value.(values := current.value.values + [bColumnValue.s]));
          }
        }
      }
      i := i + 1;
    }
    if current.Some? {
      accountingPolicies := accountingPolicies + [current.value];
    }
    policies := accountingPolicies;
    ExtractIsGroup(w.id, w.title, w.RowsWithoutTables());
  }
}
