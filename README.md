# edgar: the accounting-policy extraction engine in Dafny

`edgar.py` downloads the financial-report workbook of a company's SEC
filing. It finds the sheet holding the "Summary of Significant Accounting
Policies" and cuts that sheet into named policies with their text. This
project models the heuristic engine that does that work and proves what it
does:

- **Text** (`Text.dfy`): the Python string operations the engine relies on,
  written out. These are substring tests, ASCII lower-casing, the bounded
  `split(' ', 9)` and `' '.join`.
- **Worksheet** (`Worksheet.dfy`): a sheet as `XLSWorksheet` sees it. It
  covers the cell values, the non-tabular row filter (a row counts as
  non-tabular when every cell from column index 2 onward is empty) and the
  classifier `is_summary_of_accounting_policies_sheet`.
- **Segmenter** (`Segmenter.dfy`): the heading test `_isHeader` and the
  state machine `extract_accounting_policies`.
  - The loop is a method proved against `Run`, a fold of the machine's step.
  - `Group` describes the same output independently, from the front: a
    heading followed by the run of body lines after it, with "Preamble" for
    body text that comes before the first heading.
- **Output** (`Output.dfy`): `AccountingPolicy.get_output_row`, which joins
  the body lines with spaces and deletes every character outside
  `[A-Za-z0-9.$ ]`.
- **Scanner** (`Scanner.dfy`): the driver stage of
  `InputRow.get_accounting_policies`.
  - It wraps every sheet with its workbook position.
  - It sorts the sheets in descending `XLSWorksheet.__lt__` order, modelled
    as a stable insertion sort.
  - It keeps the sheets the classifier accepts and concatenates their
    extracted policies.

Where the code and its own comments disagree, the model follows the code:

- A sheet is rejected only below 50 rows, or below 50 non-tabular rows. So a
  sheet with exactly 50 can qualify (`ExactlyFiftyRowsQualify`). The
  docstring says "more than 50".
- `rows_without_tables[4:]` skips four rows and starts at the fifth. The
  comment says "Start from the 4th row".
- The test for the full caption is subsumed by the test for "significant
  accounting policies". The model's `HasCaption` uses the shorter caption
  only, and `FullCaptionHasCaption` shows they agree.
- `sorted(..., reverse=True)` over `__lt__` puts more rows first. On equal
  row counts it puts the **later** sheet first.
- The cleanup keeps the full stop.

`row[1]` raises `IndexError` on a row with fewer than two cells. The model
does not invent a skip for that case. Instead `SegmentReady` requires every
row the segmenter reads to have a column B, and the driver requires this of
every sheet the classifier accepts (`Segmentable`).

## Model

Each row names a member, the lines of `edgar.py` it models, and what its
contract states.

| member | source | states |
|---|---|---|
| Text.LowerChar | edgar.py:190 | a capital A-Z becomes the small letter at the same place in the alphabet, every other character stays, and the result is never a capital |
| Text.Lower | edgar.py:190 | ASCII lower-casing keeps the length, leaves no capital behind, keeps every non-capital character and turns each capital into its own small letter |
| Text.LowerIdempotent | edgar.py:190 | lower-casing a lower-cased text changes nothing |
| Text.LowerAppend | edgar.py:190 | lower-casing works character by character: it distributes over concatenation |
| Text.LowerCapitalised | edgar.py:190 | a capitalised word lower-cases to its small initial followed by the rest of the word |
| Text.LowerIgnoresCase | edgar.py:190 | two texts that differ only in the case of their letters lower-case to the same text |
| Text.Contains | edgar.py:191 | `pat in s`, defined as: `pat` occurs contiguously at some position of `s`; ContainsTransitive and FullCaptionHasCaption use it |
| Text.Join | edgar.py:139 | `sep.join(parts)`, defined on its own: parts separated by the separator; JoinCount and SplitJoin relate it to counting and to `split` |
| Text.Split | edgar.py:248 | `split(sep, maxsplit)` always has at least one field; its field count, joining and field shape are stated by the three rows below |
| Text.SplitLength | edgar.py:248 | `split(sep, maxsplit)` yields one field more than the smaller of the number of separators and `maxsplit` |
| Text.SplitJoin | edgar.py:248 | joining the fields of `split(sep, maxsplit)` with the separator gives back the original string |
| Text.SplitFields | edgar.py:248 | no field except the last contains the separator |
| Worksheet.AllColumnsAfterBAreNone | edgar.py:231-236 | the scan of `row[2:]` returns true exactly when every cell from index 2 on is empty, so a row of at most two cells always passes |
| Worksheet.NonTabularRows | edgar.py:158-159 | the filter returns no more rows than it is given, and every row it returns is non-tabular and comes from the input |
| Worksheet.NonTabularRowsAppend | edgar.py:158-159 | the filter keeps row order: filtering a concatenation concatenates the filtered parts |
| Worksheet.NonTabularRowsSingle | edgar.py:158-159 | a single row is kept exactly when it is non-tabular |
| Worksheet.NonTabularRowsMultiplicity | edgar.py:158-159 | each non-tabular row is kept as many times as it occurs, and every other row is dropped |
| Worksheet.AllNonTabular | edgar.py:158-159 | when every row is non-tabular, the filter returns all the rows |
| Worksheet.HasCaption | edgar.py:183-195 | the caption test, defined as: some cell in the first min(10, n) rows is a text cell whose lower-cased text contains "significant accounting policies"; the classifier method is proved against it |
| Worksheet.IsPolicySummary | edgar.py:177-195 | the classifier's decision rule, defined as: at least 50 rows, at least 50 non-tabular rows, and the caption test; IsSummaryOfAccountingPoliciesSheet is proved against it |
| Worksheet.CaptionIsLowerCase | edgar.py:190-193 | the caption is already lower case, so a cell holding it exactly passes the test |
| Worksheet.TitleCaseCaptionCell | edgar.py:188-193 | a text cell holding "Significant Accounting Policies" with its capitals passes the caption test, because the cell is lower-cased first |
| Worksheet.FullCaptionHasCaption | edgar.py:191-194 | text containing the full caption contains "significant accounting policies", so the first caption test adds nothing |
| Worksheet.IsSummaryOfAccountingPoliciesSheet | edgar.py:162-195 | the classifier returns true exactly when the sheet has at least 50 rows and at least 50 non-tabular rows, and a text cell in its first min(10, n) rows contains the caption once lower-cased; below either threshold it returns false |
| Worksheet.ExactlyFiftyRowsQualify | edgar.py:177-181 | the thresholds are inclusive: some sheet with exactly 50 rows, all of them non-tabular, is accepted |
| Worksheet.NonTextCellsIgnored | edgar.py:183-189 | two sheets that agree on which cells of the first ten rows hold text, and on that text, have the caption equally, whatever their other cells hold |
| Segmenter.IsHeader | edgar.py:238-254 | `_isHeader`, defined like the code: false on more than eight fields of `split(' ', 9)`, false on "year" or '$', true otherwise; IsHeaderIff characterises it |
| Segmenter.IsHeaderIff | edgar.py:248-254 | a text is not a heading exactly when it has at least eight spaces, contains "year" (case-sensitive) or contains '$' |
| Segmenter.WordCountBoundary | edgar.py:248-249 | words without spaces joined by single spaces: nine or more never form a heading, and up to eight form one unless the text holds "year" or '$' |
| Segmenter.Classify | edgar.py:205 | a column-B text keeps its text and is tagged a heading exactly when `_isHeader` accepts it, that is when it has fewer than eight spaces and holds neither "year" nor '$' |
| Segmenter.Remaining | edgar.py:201 | `rows_without_tables[4:]`: the first min(4, n) rows followed by the rows walked give back all the non-tabular rows, so the walk covers n - 4 rows, or none when n <= 4 |
| Segmenter.ColumnB | edgar.py:202-204 | every line read carries `_isHeader`'s verdict on its own text; which texts are read, in row order, is stated by ColumnBSingle and ColumnBAppend |
| Segmenter.ColumnBSingle | edgar.py:202-205 | a single row contributes its column-B text, tagged by `_isHeader`, when `row[1]` is text, and nothing otherwise; with ColumnBAppend this fixes the lines read from any rows |
| Segmenter.ColumnBAppend | edgar.py:201-204 | reading column B is row-by-row: it distributes over concatenating rows |
| Segmenter.Step | edgar.py:205-226 | one iteration of the loop, defined like the code: a heading closes the open policy and opens a new one without lines; a body line is appended to the open policy, or opens "Preamble" with it when none is open |
| Segmenter.Run | edgar.py:202-226 | the loop, defined as the fold of Step over the column-B lines; RunFromOpen and RunFromClosed state what it produces |
| Segmenter.Extract | edgar.py:197-229 | `extract_accounting_policies`, defined as running the loop over the lines after the four skipped rows and closing the last policy; ExtractIsGroup states its result |
| Segmenter.RunFromOpen | edgar.py:205-228 | with a policy open, the state machine adds the leading body lines to it, closes it at the next heading, and then produces the reference grouping of what follows |
| Segmenter.RunFromClosed | edgar.py:205-228 | with nothing open, the state machine appends exactly the reference grouping of the lines to the closed policies |
| Segmenter.ExtractIsGroup | edgar.py:197-229 | what the state machine returns equals the reference grouping of the column-B lines after the four skipped rows |
| Segmenter.AfterBodySplit | edgar.py:221-226 | cutting off the leading body run loses no heading, and the body lines lost are exactly that run |
| Segmenter.GroupNames | edgar.py:205-226 | the policies are named, in order, "Preamble" when body text comes before the first heading, then each heading's text |
| Segmenter.GroupCount | edgar.py:205-228 | there is one policy per heading line, plus one when body text comes first |
| Segmenter.GroupValues | edgar.py:217-226 | every body line lands in exactly one policy, and the policies' lines taken in order are all body lines in row order |
| Segmenter.GroupShape | edgar.py:205-226 | every policy carries the document id and sheet title; no body line passes `_isHeader`; every name passes `_isHeader`, except possibly the first when body text comes first; in that case the first record comes from the Preamble path, named "Preamble" and holding at least one line (a heading spelled "Preamble" passes `_isHeader` too) |
| Segmenter.PreambleThenHeading | edgar.py:215-222 | body text and then a heading give a "Preamble" holding that text, followed by the heading with no lines |
| Segmenter.LeadingRowsIgnored | edgar.py:201 | replacing the first four non-tabular rows with any other four rows leaves the output unchanged |
| Segmenter.SkippedRowIgnored | edgar.py:202-204 | removing a later row whose column B is empty or not text leaves the output unchanged |
| Segmenter.ExtractAccountingPolicies | edgar.py:197-229 | the loop returns the state machine's result, which is the reference grouping of the sheet's column-B lines after the skipped rows |
| Output.Strip | edgar.py:140 | the cleanup never lengthens the text, leaves only kept characters, and leaves text made only of kept characters as it is |
| Output.StripAppend | edgar.py:140 | the cleanup works character by character: cleaning a concatenation concatenates the cleaned parts |
| Output.StripMultiplicity | edgar.py:140 | each kept character survives as often as it occurs, and every other character disappears |
| Output.StripChar | edgar.py:140 | a single character survives exactly when it is a letter, a digit, '.', '$' or a space |
| Output.ParenthesesRemoved | edgar.py:140 | parentheses around kept text disappear while the text inside stays |
| Output.CleanText | edgar.py:139-140 | the joined and cleaned body holds only kept characters, so cleaning it again changes nothing |
| Output.GetOutputRow | edgar.py:138-142 | the output row copies id, sheet and policy name; its text is each body line cleaned and joined with spaces, holds only kept characters, and does not change when cleaned again |
| Output.CleanTextPerLine | edgar.py:139-140 | cleaning the joined body equals cleaning each line and joining the results with spaces |
| Scanner.Enumerate | edgar.py:348-349 | the wrapped sheets are the workbook's sheets in order, each with the document id and its position, and no two wrapped sheets share a position, so the sort's tie-break always decides |
| Scanner.Less | edgar.py:264-267 | `__lt__`, defined like the code: fewer rows, or as many rows and an earlier position; LessIsStrictOrder proves it a strict order |
| Scanner.LessIsStrictOrder | edgar.py:264-267 | `__lt__` is irreflexive, asymmetric and transitive, and orders any two sheets at different positions |
| Scanner.Insert | edgar.py:347-350 | insertion adds exactly the one sheet to the multiset of sheets |
| Scanner.Rank | edgar.py:347-350 | the sort returns a permutation of its input |
| Scanner.RankMembers | edgar.py:347-350 | the sort neither adds nor loses a sheet |
| Scanner.InsertDescending | edgar.py:347-350 | inserting into a descending sequence keeps it descending |
| Scanner.RankDescending | edgar.py:347-350 | the sorted sheets are in descending `__lt__` order: no sheet is below one that follows it |
| Scanner.InsertStrict | edgar.py:347-350 | inserting a sheet at a new position into a strictly descending sequence keeps it strict |
| Scanner.RankStrict | edgar.py:347-350 | sheets at distinct positions are sorted strictly: more rows first, and on equal rows the later sheet first |
| Scanner.StrictlyDescendingUnique | edgar.py:347-350 | two strictly descending sequences of the same sheets are equal, so the sorted order does not depend on the input order |
| Scanner.PolicySheets | edgar.py:352-354 | a sheet survives the filter exactly when it is in the input and the classifier accepts it |
| Scanner.PolicySheetsStrict | edgar.py:352-354 | the filter keeps a strictly descending order strict |
| Scanner.AcceptedSheets | edgar.py:347-354 | the sorted, filtered sheets are exactly the workbook's accepted sheets |
| Scanner.AcceptedSheetsStrict | edgar.py:347-354 | the accepted sheets come strictly ranked |
| Scanner.ExtractAll | edgar.py:356-358 | the extend loop as a definition: each sheet's extraction concatenated in sheet order; ExtendPolicies is proved against it |
| Scanner.AccountingPolicies | edgar.py:344-359 | `get_accounting_policies`, defined as extracting from the accepted sheets in ranked order; the rows below state what it returns |
| Scanner.AccountingPoliciesOrder | edgar.py:347-359 | the result is the concatenation of each accepted sheet's extraction, taken in strictly descending `__lt__` order |
| Scanner.NoAcceptedSheet | edgar.py:352-359 | a workbook with no accepted sheet yields no policies |
| Scanner.TwoAcceptedSheets | edgar.py:347-359 | with exactly two accepted sheets, the records of the higher-ranked one come first, then those of the other |
| Scanner.ExtractTagged | edgar.py:206-226 | every record extracted from a sheet carries that sheet's document id and title |
| Scanner.ExtractAllTagged | edgar.py:356-358 | every record of the concatenation comes from one of the sheets and carries its id and title |
| Scanner.RecordsFromAcceptedSheets | edgar.py:344-359 | every record carries the document id and the title of a sheet the classifier accepts |
| Scanner.SelectPolicySheets | edgar.py:352-354 | the loop over the ranked sheets, calling the classifier on each, keeps exactly the sheets the filter keeps, in the same order |
| Scanner.ExtendPolicies | edgar.py:356-358 | the extend loop returns the concatenation of each sheet's extraction, in sheet order |
| Scanner.GetAccountingPolicies | edgar.py:344-359 | ranking, the filtering loop and the extend loop together return the concatenation of the accepted sheets' extractions in ranked order |

## Left out

- Fetching, XLS-to-XLSX conversion, directory creation, option parsing and `main` (`fetch_file`, `_convert_xls_to_xlsx`, `create_dir`, `usage`, `main`) are left out. They are network, file-system and subprocess plumbing.
- `OutputCSV.write` and `OutputRow.get_dict` are left out. They are CSV serialisation.
- Loading the workbook (`openpyxl.load_workbook`, `worksheet.values`) is a foreign library. Its result is a parameter: a list of sheets, each a title and a matrix of cells that are empty, text or some other scalar.
- `__str__` and `__repr__` only feed logging. `__eq__` compares worksheet identity, and `sorted` does not call it.
- All logging calls are left out.
- Text.Lower: lower-cases ASCII letters only, because Unicode case mapping is out of scope. Non-ASCII capitals in a cell are left as they are.
- The regular expression of the cleanup is modelled as a character filter, not by a regular-expression engine. Deleting runs of unwanted characters is the same as deleting each one.
- `str.split` is modelled for a one-character separator only, which is the only form the engine uses.
- The in-place `policy_values.append` on the open policy is modelled as replacing the open record with an extended copy. The record is not shared with anything until it is closed, so no aliasing is lost.
- Python raises `IndexError` on `row[1]` for a row shorter than two cells. The model does not describe that exception: Segmenter.ExtractAccountingPolicies and Scanner.GetAccountingPolicies require every row the segmenter reads to have a column B.
