/**
  The driver stage of `InputRow.get_accounting_policies`: wrap every sheet of
  the workbook with its position, sort the sheets with `sorted(...,
  reverse=True)` under `XLSWorksheet.__lt__`, keep the sheets the classifier
  accepts, and concatenate what the segmenter extracts from each of them.
 */
module Scanner {
  import opened Text
  import opened Worksheet
  import opened Segmenter

  /** A sheet as the workbook reader yields it: its title and its row matrix. */
  datatype SheetData = SheetData(title: string, rows: seq<Row>)

  /** `[XLSWorksheet(id, workbook, index, worksheet) for index, worksheet in enumerate(workbook.worksheets)]`. */
  function Enumerate(id: string, book: seq<SheetData>): (ws: seq<Sheet>)
    ensures |ws| == |book|
    ensures forall k :: 0 <= k < |ws| ==>
              ws[k].id == id && ws[k].title == book[k].title && ws[k].index == k && ws[k].rows == book[k].rows
    ensures DistinctIndices(ws)
  {
    seq(|book|, k requires 0 <= k < |book| => Sheet(id, book[k].title, k, book[k].rows))
  }

  /** No two sheets share a position. */
  predicate DistinctIndices(ws: seq<Sheet>) {
    forall i, j :: 0 <= i < j < |ws| ==> ws[i].index != ws[j].index
  }

  /** `XLSWorksheet.__lt__`: fewer rows, or as many rows and an earlier position in the workbook. */
  predicate Less(a: Sheet, b: Sheet) {
    a.NumRows() < b.NumRows() || (a.NumRows() == b.NumRows() && a.index < b.index)
  }

  /** `__lt__` is a strict order, total on sheets at different positions. */
  lemma LessIsStrictOrder(a: Sheet, b: Sheet, c: Sheet)
    ensures !Less(a, a)
    ensures Less(a, b) ==> !Less(b, a)
    ensures Less(a, b) && Less(b, c) ==> Less(a, c)
    ensures a.index != b.index ==> Less(a, b) || Less(b, a)
  {
  }

  /** The order `sorted(..., reverse=True)` establishes: no sheet is below one that follows it. */
  predicate Descending(s: seq<Sheet>) {
    forall i, j :: 0 <= i < j < |s| ==> !Less(s[i], s[j])
  }

  /** Every sheet is above every sheet that follows it. */
  predicate StrictlyDescending(s: seq<Sheet>) {
    forall i, j :: 0 <= i < j < |s| ==> Less(s[j], s[i])
  }

  /**
    Insert `x` into a descending sequence, before the first sheet it is not
    below.  Inserting before equal sheets keeps the sort stable when the
    sheets are inserted last to first.
   */
  function Insert(x: Sheet, s: seq<Sheet>): (r: seq<Sheet>)
    ensures multiset(r) == multiset(s) + multiset{x}
  {
    if |s| == 0 then [x]
    else if !Less(x, s[0]) then [x] + s
    else
      assert s == [s[0]] + s[1..];
      [s[0]] + Insert(x, s[1..])
  }

  /** `sorted(sheets, reverse=True)`: a stable sort into descending `__lt__` order. */
  function Rank(ws: seq<Sheet>): (r: seq<Sheet>)
    ensures multiset(r) == multiset(ws)
  {
    if |ws| == 0 then []
    else
      assert ws == [ws[0]] + ws[1..];
      Insert(ws[0], Rank(ws[1..]))
  }

  /** Ranking neither adds nor loses a sheet. */
  lemma RankMembers(ws: seq<Sheet>)
    ensures forall x :: x in Rank(ws) <==> x in ws
  {
    forall x ensures x in Rank(ws) <==> x in ws {
      assert x in multiset(Rank(ws)) <==> x in multiset(ws);
    }
  }

  /** Inserting into a descending sequence keeps it descending. */
  lemma {:induction false} InsertDescending(x: Sheet, s: seq<Sheet>)
    requires Descending(s)
    ensures Descending(Insert(x, s))
  {
    if |s| > 0 && Less(x, s[0]) {
      InsertDescending(x, s[1..]);
      var r := Insert(x, s);
      var tail := Insert(x, s[1..]);
      assert r == [s[0]] + tail;
      forall j | 0 <= j < |tail| ensures !Less(s[0], tail[j]) {
        assert tail[j] in multiset(s[1..]) + multiset{x};
      }
    }
  }

  /** The ranked sheets are in descending order. */
  lemma {:induction false} RankDescending(ws: seq<Sheet>)
    ensures Descending(Rank(ws))
  {
    if |ws| > 0 {
      RankDescending(ws[1..]);
      InsertDescending(ws[0], Rank(ws[1..]));
    }
  }

  /** Inserting a sheet whose position is new into a strictly descending sequence keeps it strict. */
  lemma {:induction false} InsertStrict(x: Sheet, s: seq<Sheet>)
    requires StrictlyDescending(s)
    requires forall k :: 0 <= k < |s| ==> s[k].index != x.index
    ensures StrictlyDescending(Insert(x, s))
  {
    if |s| > 0 && Less(x, s[0]) {
      InsertStrict(x, s[1..]);
      var r := Insert(x, s);
      var tail := Insert(x, s[1..]);
      assert r == [s[0]] + tail;
      forall j | 0 <= j < |tail| ensures Less(tail[j], s[0]) {
        assert tail[j] in multiset(s[1..]) + multiset{x};
      }
    }
  }

  /** Sheets at distinct positions are ranked strictly: the ranking has no ties. */
  lemma {:induction false} RankStrict(ws: seq<Sheet>)
    requires DistinctIndices(ws)
    ensures StrictlyDescending(Rank(ws))
  {
    if |ws| > 0 {
      var rest := Rank(ws[1..]);
      RankStrict(ws[1..]);
      forall k | 0 <= k < |rest| ensures rest[k].index != ws[0].index {
        assert rest[k] in multiset(ws[1..]);
      }
      InsertStrict(ws[0], rest);
    }
  }

  /** Two strictly descending sequences of the same sheets are the same sequence. */
  lemma {:induction false} StrictlyDescendingUnique(s: seq<Sheet>, t: seq<Sheet>)
    requires StrictlyDescending(s) && StrictlyDescending(t)
    requires forall x :: x in s <==> x in t
    ensures s == t
    decreases |s|
  {
    assert |t| > 0 ==> t[0] in t;
    if |s| > 0 {
      assert s[0] in t && t[0] in s;
      var k :| 0 <= k < |t| && t[k] == s[0];
      var m :| 0 <= m < |s| && s[m] == t[0];
      if k != 0 {
        assert false;
      }
      assert s == [s[0]] + s[1..] && t == [t[0]] + t[1..];
      forall x ensures x in s[1..] <==> x in t[1..] {
        if x in s[1..] {
          var i :| 0 <= i < |s[1..]| && s[1..][i] == x;
          assert Less(s[i + 1], s[0]);
          assert x in t && x != t[0];
        }
        if x in t[1..] {
          var i :| 0 <= i < |t[1..]| && t[1..][i] == x;
          assert Less(t[i + 1], t[0]);
          assert x in s && x != s[0];
        }
      }
      StrictlyDescendingUnique(s[1..], t[1..]);
    }
  }

  /** `[worksheet for worksheet in top_sheets if worksheet.is_summary_of_accounting_policies_sheet()]`. */
  function PolicySheets(ws: seq<Sheet>): (r: seq<Sheet>)
    ensures forall x :: x in r <==> x in ws && IsPolicySummary(x)
  {
    if |ws| == 0 then []
    else if IsPolicySummary(ws[0]) then [ws[0]] + PolicySheets(ws[1..])
    else PolicySheets(ws[1..])
  }

  /** Filtering keeps a strict ranking strict. */
  lemma {:induction false} PolicySheetsStrict(ws: seq<Sheet>)
    requires StrictlyDescending(ws)
    ensures StrictlyDescending(PolicySheets(ws))
  {
    if |ws| > 0 {
      PolicySheetsStrict(ws[1..]);
      var rest := PolicySheets(ws[1..]);
      if IsPolicySummary(ws[0]) {
        forall j | 0 <= j < |rest| ensures Less(rest[j], ws[0]) {
          assert rest[j] in ws[1..];
        }
        assert PolicySheets(ws) == [ws[0]] + rest;
      }
    }
  }

  /** Filtering a suffix: the first sheet is kept or dropped, the rest is filtered. */
  lemma PolicySheetsStep(ws: seq<Sheet>, i: nat)
    requires i < |ws|
    ensures PolicySheets(ws[i..]) == (if IsPolicySummary(ws[i]) then [ws[i]] else []) + PolicySheets(ws[i + 1..])
  {
    assert ws[i..][1..] == ws[i + 1..];
  }

  /** Every sheet can be segmented. */
  predicate AllReady(ws: seq<Sheet>) {
    forall k :: 0 <= k < |ws| ==> SegmentReady(ws[k].RowsWithoutTables())
  }

  /** Every sheet the classifier accepts can be segmented (its column B exists past the skipped rows). */
  predicate Segmentable(ws: seq<Sheet>) {
    forall k :: 0 <= k < |ws| && IsPolicySummary(ws[k]) ==> SegmentReady(ws[k].RowsWithoutTables())
  }

  /** `results.extend(worksheet.extract_accounting_policies())` for each sheet in turn. */
  function ExtractAll(ws: seq<Sheet>): seq<Policy>
    requires AllReady(ws)
  {
    if |ws| == 0 then []
    else
      assert AllReady(ws[1..]) by {
        forall k | 0 <= k < |ws[1..]| ensures SegmentReady(ws[1..][k].RowsWithoutTables()) {
          assert ws[1..][k] == ws[k + 1];
        }
      }
      Extract(ws[0].id, ws[0].title, ws[0].RowsWithoutTables()) + ExtractAll(ws[1..])
  }

  /** A suffix of sheets that can all be segmented can all be segmented. */
  lemma AllReadySuffix(ws: seq<Sheet>, j: nat)
    requires AllReady(ws) && j <= |ws|
    ensures AllReady(ws[j..])
  {
    forall k | 0 <= k < |ws| - j ensures SegmentReady(ws[j..][k].RowsWithoutTables()) {
      assert ws[j..][k] == ws[j + k];
    }
  }

  /** Extracting from a suffix: the first sheet's records, then the rest's. */
  lemma ExtractAllStep(ws: seq<Sheet>, j: nat)
    requires AllReady(ws) && j < |ws|
    ensures AllReady(ws[j..]) && AllReady(ws[j + 1..])
    ensures ExtractAll(ws[j..]) == Extract(ws[j].id, ws[j].title, ws[j].RowsWithoutTables()) + ExtractAll(ws[j + 1..])
  {
    assert ws[j..][1..] == ws[j + 1..];
    AllReadySuffix(ws, j);
    AllReadySuffix(ws, j + 1);
  }

  /** The accepted sheets, found through the ranking, can all be segmented. */
  lemma {:induction false} PolicySheetsReady(ws: seq<Sheet>, s: seq<Sheet>)
    requires Segmentable(ws)
    requires forall x :: x in s ==> x in ws && IsPolicySummary(x)
    ensures AllReady(s)
  {
    forall k | 0 <= k < |s| ensures SegmentReady(s[k].RowsWithoutTables()) {
      assert s[k] in ws;
      var i :| 0 <= i < |ws| && ws[i] == s[k];
    }
  }

  /** The ranked sheets the classifier accepts. */
  function AcceptedSheets(id: string, book: seq<SheetData>): (r: seq<Sheet>)
    ensures forall x :: x in r <==> x in Enumerate(id, book) && IsPolicySummary(x)
  {
    RankMembers(Enumerate(id, book));
    PolicySheets(Rank(Enumerate(id, book)))
  }

  /** What `get_accounting_policies` returns for a workbook. */
  function AccountingPolicies(id: string, book: seq<SheetData>): seq<Policy>
    requires Segmentable(Enumerate(id, book))
  {
    PolicySheetsReady(Enumerate(id, book), AcceptedSheets(id, book));
    ExtractAll(AcceptedSheets(id, book))
  }

  /** The accepted sheets come strictly ranked: most rows first, ties broken by the later position. */
  lemma AcceptedSheetsStrict(id: string, book: seq<SheetData>)
    ensures StrictlyDescending(AcceptedSheets(id, book))
  {
    RankStrict(Enumerate(id, book));
    PolicySheetsStrict(Rank(Enumerate(id, book)));
  }

  /**
    The output is fixed by which sheets are accepted: it is the extraction of
    each accepted sheet, taken in strictly descending `__lt__` order.
   */
  lemma AccountingPoliciesOrder(id: string, book: seq<SheetData>, q: seq<Sheet>)
    requires Segmentable(Enumerate(id, book))
    requires StrictlyDescending(q)
    requires forall x :: x in q <==> x in Enumerate(id, book) && IsPolicySummary(x)
    ensures AllReady(q)
    ensures AccountingPolicies(id, book) == ExtractAll(q)
  {
    PolicySheetsReady(Enumerate(id, book), q);
    AcceptedSheetsStrict(id, book);
    StrictlyDescendingUnique(AcceptedSheets(id, book), q);
  }

  /** A workbook with no accepted sheet yields no records. */
  lemma NoAcceptedSheet(id: string, book: seq<SheetData>)
    requires forall k :: 0 <= k < |book| ==> !IsPolicySummary(Enumerate(id, book)[k])
    ensures Segmentable(Enumerate(id, book))
    ensures AccountingPolicies(id, book) == []
  {
    var ws := Enumerate(id, book);
    forall k | 0 <= k < |ws| ensures !IsPolicySummary(ws[k]) {
    }
    AccountingPoliciesOrder(id, book, []);
  }

  /**
    With exactly two accepted sheets, the records of the higher-ranked one
    (more rows, or as many and a later position) come first.
   */
  lemma TwoAcceptedSheets(id: string, book: seq<SheetData>, i: nat, j: nat)
    requires i < |book| && j < |book|
    requires forall k :: 0 <= k < |book| ==> (IsPolicySummary(Enumerate(id, book)[k]) <==> k == i || k == j)
    requires Less(Enumerate(id, book)[j], Enumerate(id, book)[i])
    requires Segmentable(Enumerate(id, book))
    ensures AllReady([Enumerate(id, book)[i], Enumerate(id, book)[j]])
    ensures AccountingPolicies(id, book)
         == ExtractAll([Enumerate(id, book)[i], Enumerate(id, book)[j]])
  {
    var ws := Enumerate(id, book);
    var q := [ws[i], ws[j]];
    forall x ensures x in q <==> x in ws && IsPolicySummary(x) {
      if x in ws {
        var k :| 0 <= k < |ws| && ws[k] == x;
      }
    }
    AccountingPoliciesOrder(id, book, q);
  }

  /** Every record of a sheet carries the document id and the sheet's title. */
  lemma ExtractTagged(w: Sheet)
    requires SegmentReady(w.RowsWithoutTables())
    ensures forall p :: p in Extract(w.id, w.title, w.RowsWithoutTables()) ==> p.id == w.id && p.sheetName == w.title
  {
    var lines := ColumnB(Remaining(w.RowsWithoutTables()));
    ExtractIsGroup(w.id, w.title, w.RowsWithoutTables());
    GroupShape(w.id, w.title, lines);
  }

  /** Every record of the concatenation comes from one of the sheets and carries its id and title. */
  lemma {:induction false} ExtractAllTagged(ws: seq<Sheet>)
    requires AllReady(ws)
    ensures forall p :: p in ExtractAll(ws) ==> exists k :: 0 <= k < |ws| && p.id == ws[k].id && p.sheetName == ws[k].title
  {
    if |ws| > 0 {
      ExtractTagged(ws[0]);
      ExtractAllTagged(ws[1..]);
      forall p | p in ExtractAll(ws)
        ensures exists k :: 0 <= k < |ws| && p.id == ws[k].id && p.sheetName == ws[k].title
      {
        if p !in Extract(ws[0].id, ws[0].title, ws[0].RowsWithoutTables()) {
          var k :| 0 <= k < |ws[1..]| && p.id == ws[1..][k].id && p.sheetName == ws[1..][k].title;
          assert ws[1..][k] == ws[k + 1];
        }
      }
    }
  }

  /** Every record carries the document id and the title of an accepted sheet. */
  lemma RecordsFromAcceptedSheets(id: string, book: seq<SheetData>)
    requires Segmentable(Enumerate(id, book))
    ensures forall p :: p in AccountingPolicies(id, book) ==>
              p.id == id &&
              exists k :: 0 <= k < |book| && IsPolicySummary(Enumerate(id, book)[k]) && p.sheetName == book[k].title
  {
    var ws := Enumerate(id, book);
    var acc := AcceptedSheets(id, book);
    PolicySheetsReady(ws, acc);
    ExtractAllTagged(acc);
    forall p | p in AccountingPolicies(id, book)
      ensures p.id == id && exists k :: 0 <= k < |book| && IsPolicySummary(ws[k]) && p.sheetName == book[k].title
    {
      var a :| 0 <= a < |acc| && p.id == acc[a].id && p.sheetName == acc[a].title;
      assert acc[a] in ws;
      var k :| 0 <= k < |ws| && ws[k] == acc[a];
    }
  }

  /** The comprehension that keeps the ranked sheets the classifier accepts, run sheet by sheet. */
  method SelectPolicySheets(topSheets: seq<Sheet>) returns (accountingPolicySheets: seq<Sheet>)
    ensures accountingPolicySheets == PolicySheets(topSheets)
  {
    accountingPolicySheets := [];
    var i := 0;
    while i < |topSheets|
      invariant 0 <= i <= |topSheets|
      invariant accountingPolicySheets + PolicySheets(topSheets[i..]) == PolicySheets(topSheets)
    {
      PolicySheetsStep(topSheets, i);
      var accepted := IsSummaryOfAccountingPoliciesSheet(topSheets[i]);
      if accepted {
        accountingPolicySheets := accountingPolicySheets + [topSheets[i]];
      }
      i := i + 1;
    }
    assert topSheets[i..] == [];
  }

  /** The loop `for worksheet in ...: results.extend(worksheet.extract_accounting_policies())`. */
  method ExtendPolicies(sheets: seq<Sheet>) returns (results: seq<Policy>)
    requires AllReady(sheets)
    ensures results == ExtractAll(sheets)
  {
    results := [];
    var j := 0;
    assert sheets[j..] == sheets;
    while j < |sheets|
      invariant 0 <= j <= |sheets|
      invariant AllReady(sheets[j..])
      invariant results + ExtractAll(sheets[j..]) == ExtractAll(sheets)
    {
      var worksheet := sheets[j];
      ExtractAllStep(sheets, j);
      var policies := ExtractAccountingPolicies(worksheet);
      results := results + policies;
      j := j + 1;
    }
    assert sheets[j..] == [];
  }

  /**
    `get_accounting_policies`: rank the sheets, keep those the classifier
    accepts, and extend the result with each accepted sheet's records.
   */
  method GetAccountingPolicies(id: string, book: seq<SheetData>) returns (results: seq<Policy>)
    requires Segmentable(Enumerate(id, book))
    ensures results == AccountingPolicies(id, book)
  {
    var topSheets := Rank(Enumerate(id, book));
    var accountingPolicySheets := SelectPolicySheets(topSheets);
    assert accountingPolicySheets == AcceptedSheets(id, book);
    PolicySheetsReady(Enumerate(id, book), accountingPolicySheets);
    results := ExtendPolicies(accountingPolicySheets);
  }
}
