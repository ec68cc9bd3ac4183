/**
  One worksheet of a financial-report workbook (`XLSWorksheet` in edgar.py):
  its cells, the derived list of non-tabular rows, and the heuristic that
  decides whether the sheet is the "Summary of Significant Accounting
  Policies" sheet.
 */
module Worksheet {
  import opened Text

  /** A cell value as the spreadsheet reader yields it: empty, text, or any other scalar. */
  datatype Cell = Absent | Str(s: string) | Other

  type Row = seq<Cell>

  /** Sheets shorter than this (in rows, and in non-tabular rows) are rejected. */
  const MinRows: nat := 50
  const MinNonTableRows: nat := 50
  /** Only the first this-many rows are searched for the caption. */
  const CaptionWindow: nat := 10
  /** The two captions the classifier looks for, in lower case. */
  const Caption: string := "significant accounting policies"
  const FullCaption: string := "summary of " + Caption

  /**
    A worksheet as `XLSWorksheet.__init__` sets it up: the document id, the
    sheet's title, its position in the workbook and its rows.  The count of
    rows and the non-tabular rows are derived from `rows`.
   */
  datatype Sheet = Sheet(id: string, title: string, index: int, rows: seq<Row>) {
    function NumRows(): nat {
      |rows|
    }

    function RowsWithoutTables(): seq<Row> {
      NonTabularRows(rows)
    }

    function NumNonTableRows(): nat {
      |NonTabularRows(rows)|
    }
  }

  /** Every cell from column index 2 onward is empty. */
  predicate AfterBAbsent(row: Row) {
    forall j :: 2 <= j < |row| ==> row[j].Absent?
  }

  /** `_allColumnsAfterBAreNone`: scan `row[2:]`, return false at the first non-empty cell. */
  method AllColumnsAfterBAreNone(row: Row) returns (b: bool)
    ensures b <==> AfterBAbsent(row)
    ensures |row| <= 2 ==> b
  {
    var i := 2;
    while i < |row|
      invariant 2 <= i
      invariant forall j :: 2 <= j < i && j < |row| ==> row[j].Absent?
    {
      if !row[i].Absent? {
        return false;
      }
      i := i + 1;
    }
    return true;
  }

  /** The comprehension `[row for row in rows if _allColumnsAfterBAreNone(row)]`. */
  function NonTabularRows(rows: seq<Row>): (r: seq<Row>)
    ensures |r| <= |rows|
    ensures forall k :: 0 <= k < |r| ==> AfterBAbsent(r[k]) && r[k] in rows
  {
    if |rows| == 0 then []
    else if AfterBAbsent(rows[0]) then [rows[0]] + NonTabularRows(rows[1..])
    else NonTabularRows(rows[1..])
  }

  /** The filter keeps order: filtering a concatenation concatenates the filtered parts. */
  lemma {:induction false} NonTabularRowsAppend(a: seq<Row>, b: seq<Row>)
    ensures NonTabularRows(a + b) == NonTabularRows(a) + NonTabularRows(b)
  {
    if |a| == 0 {
      assert a + b == b;
    } else {
      assert (a + b)[1..] == a[1..] + b;
      NonTabularRowsAppend(a[1..], b);
    }
  }

  /** A one-row sheet keeps its row exactly when the row is non-tabular. */
  lemma NonTabularRowsSingle(row: Row)
    ensures NonTabularRows([row]) == if AfterBAbsent(row) then [row] else []
  {
    assert [row][1..] == [];
  }

  /** Each row is kept as often as it occurs, if non-tabular, and dropped otherwise. */
  lemma {:induction false} NonTabularRowsMultiplicity(rows: seq<Row>, row: Row)
    ensures multiset(NonTabularRows(rows))[row] == if AfterBAbsent(row) then multiset(rows)[row] else 0
  {
    if |rows| > 0 {
      assert rows == [rows[0]] + rows[1..];
      NonTabularRowsMultiplicity(rows[1..], row);
    }
  }

  /** A sheet whose rows are all non-tabular keeps every row. */
  lemma {:induction false} AllNonTabular(rows: seq<Row>)
    requires forall k :: 0 <= k < |rows| ==> AfterBAbsent(rows[k])
    ensures NonTabularRows(rows) == rows
  {
    if |rows| > 0 {
      AllNonTabular(rows[1..]);
    }
  }

  /** A text cell whose lower-cased text contains the caption. */
  predicate CaptionCell(c: Cell) {
    c.Str? && Contains(Lower(c.s), Caption)
  }

  /** Some cell in the first `min(10, |rows|)` rows is a caption cell. */
  predicate HasCaption(rows: seq<Row>) {
    exists i, j :: 0 <= i < Min(CaptionWindow, |rows|) && 0 <= j < |rows[i]| && CaptionCell(rows[i][j])
  }

  /** The classifier's decision rule. */
  predicate IsPolicySummary(w: Sheet) {
    w.NumRows() >= MinRows && w.NumNonTableRows() >= MinNonTableRows && HasCaption(w.rows)
  }

  /** The full caption contains the short one, so checking both is the same as checking the short one. */
  lemma FullCaptionHasCaption(s: string)
    requires Contains(s, FullCaption)
    ensures Contains(s, Caption)
  {
    var prefix := "summary of ";
    assert FullCaption[|prefix|..] == Caption;
    assert OccursAt(FullCaption, Caption, |prefix|);
    ContainsTransitive(s, FullCaption, Caption);
  }

  /**
    `is_summary_of_accounting_policies_sheet`: reject short sheets and sheets
    with few non-tabular rows, then scan every cell of the first ten rows for
    a text cell containing either caption.
   */
  method IsSummaryOfAccountingPoliciesSheet(w: Sheet) returns (b: bool)
    ensures b <==> w.NumRows() >= MinRows && w.NumNonTableRows() >= MinNonTableRows && HasCaption(w.rows)
    ensures w.NumRows() < MinRows || w.NumNonTableRows() < MinNonTableRows ==> !b
  {
    if w.NumRows() < MinRows {
      return false;
    }
    if w.NumNonTableRows() < MinNonTableRows {
      return false;
    }
    var rows := w.rows;
    var window := Min(CaptionWindow, |rows|);
    var i := 0;
    while i < window
      invariant 0 <= i <= window
      invariant forall i', j :: 0 <= i' < i && 0 <= j < |rows[i']| ==> !CaptionCell(rows[i'][j])
    {
      var row := rows[i];
      var j := 0;
      while j < |row|
        invariant 0 <= j <= |row|
        invariant forall j' :: 0 <= j' < j ==> !CaptionCell(row[j'])
      {
        var value := row[j];
        if value.Str? {
          var rowValue := Lower(value.s);
          if Contains(rowValue, FullCaption) {
            FullCaptionHasCaption(rowValue);
            assert CaptionCell(rows[i][j]);
            return true;
          }
          if Contains(rowValue, Caption) {
            assert CaptionCell(rows[i][j]);
            return true;
          }
        }
        j := j + 1;
      }
      i := i + 1;
    }
    return false;
  }

  /** The caption is already in lower case. */
  lemma CaptionIsLowerCase()
    ensures Lower(Caption) == Caption
    ensures CaptionCell(Str(Caption))
  {
    forall i | 0 <= i < |Caption| ensures LowerChar(Caption[i]) == Caption[i] {
    }
    assert OccursAt(Caption, Caption, 0);
  }

  /**
    "Significant Accounting Policies", written with its three capitals: the
    caption with the first letter of each word in upper case.
   */
  function TitleCaption(): (r: string)
    ensures |r| == |Caption|
  {
    ['S'] + Caption[1..12] + ['A'] + Caption[13..23] + ['P'] + Caption[24..]
  }

  /** Three words with capital initials S, A and P lower-case to the same words with small initials. */
  lemma LowerThreeWords(w1: string, w2: string, w3: string)
    requires forall i :: 0 <= i < |w1| ==> !('A' <= w1[i] <= 'Z')
    requires forall i :: 0 <= i < |w2| ==> !('A' <= w2[i] <= 'Z')
    requires forall i :: 0 <= i < |w3| ==> !('A' <= w3[i] <= 'Z')
    ensures Lower(['S'] + w1 + ['A'] + w2 + ['P'] + w3) == ['s'] + w1 + ['a'] + w2 + ['p'] + w3
  {
    LowerCapitalised('S', w1);
    LowerCapitalised('A', w2);
    LowerCapitalised('P', w3);
    LowerAppend(['S'] + w1 + ['A'] + w2, ['P'] + w3);
    LowerAppend(['S'] + w1, ['A'] + w2);
  }

  /** Lower-casing the title-case caption lower-cases exactly its three capitals. */
  lemma TitleCaptionLowered()
    ensures Lower(TitleCaption())
         == ['s'] + Caption[1..12] + ['a'] + Caption[13..23] + ['p'] + Caption[24..]
  {
    CaptionIsLowerCase();
    assert forall i :: 0 <= i < |Caption| ==> !('A' <= Caption[i] <= 'Z');
    LowerThreeWords(Caption[1..12], Caption[13..23], Caption[24..]);
  }

  /** The caption reassembled from its slices and its three word-initial letters. */
  lemma CaptionReassembled()
    ensures ['s'] + Caption[1..12] + ['a'] + Caption[13..23] + ['p'] + Caption[24..] == Caption
  {
    var w1, w2, w3 := Caption[1..12], Caption[13..23], Caption[24..];
    var low := ['s'] + w1 + ['a'] + w2 + ['p'] + w3;
    assert Caption[0] == 's' && Caption[12] == 'a' && Caption[23] == 'p';
    forall i | 0 <= i < |Caption| ensures low[i] == Caption[i] {
      if i == 0 || i == 12 || i == 23 {
      } else if i < 12 {
        assert low[i] == w1[i - 1];
      } else if i < 23 {
        assert low[i] == w2[i - 13];
      } else {
        assert low[i] == w3[i - 24];
      }
    }
  }

  /** The classifier ignores case: a cell holding the caption in title case is a caption cell. */
  lemma TitleCaseCaptionCell()
    ensures CaptionCell(Str(TitleCaption()))
  {
    TitleCaptionLowered();
    CaptionReassembled();
    assert OccursAt(Lower(TitleCaption()), Caption, 0);
  }

  /** The threshold is inclusive: a sheet with exactly 50 rows, all non-tabular, can qualify. */
  lemma ExactlyFiftyRowsQualify(id: string, title: string, index: int)
    ensures var w := Sheet(id, title, index, seq(50, _ => [Absent, Str(Caption)]));
            w.NumRows() == 50 && w.NumNonTableRows() == 50 && IsPolicySummary(w)
  {
    var rows := seq(50, _ => [Absent, Str(Caption)]);
    AllNonTabular(rows);
    CaptionIsLowerCase();
    assert CaptionCell(rows[0][1]);
  }

  /**
    Only text cells are looked at: two row matrices that agree on every text
    cell of the first rows (and on which cells hold text) have the caption
    equally, whatever their empty and non-text cells hold.
   */
  lemma NonTextCellsIgnored(rows: seq<Row>, rows': seq<Row>)
    requires |rows| == |rows'|
    requires forall i :: 0 <= i < Min(CaptionWindow, |rows|) ==> |rows[i]| == |rows'[i]|
    requires forall i, j :: 0 <= i < Min(CaptionWindow, |rows|) && 0 <= j < |rows[i]| ==>
               (rows[i][j].Str? || rows'[i][j].Str?) ==> rows[i][j] == rows'[i][j]
    ensures HasCaption(rows) <==> HasCaption(rows')
  {
    if HasCaption(rows) {
      var i, j :| 0 <= i < Min(CaptionWindow, |rows|) && 0 <= j < |rows[i]| && CaptionCell(rows[i][j]);
      assert CaptionCell(rows'[i][j]);
    }
    if HasCaption(rows') {
      var i, j :| 0 <= i < Min(CaptionWindow, |rows'|) && 0 <= j < |rows'[i]| && CaptionCell(rows'[i][j]);
      assert CaptionCell(rows[i][j]);
    }
  }
}
