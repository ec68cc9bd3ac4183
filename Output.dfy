/**
  Turning an extracted policy into an output row
  (`AccountingPolicy.get_output_row`): the body lines are joined with single
  spaces and every character outside `[A-Za-z0-9.$ ]` is removed.
 */
module Output {
  import opened Text
  import opened Segmenter

  /** One output record: `ID`, `Sheet`, `Policy`, `Text`. */
  datatype OutputRow = OutputRow(id: string, sheetName: string, policy: string, text: string)

  /** The characters the cleanup keeps: ASCII letters, digits, '.', '$' and space. */
  predicate Kept(c: char) {
    ('a' <= c <= 'z') || ('A' <= c <= 'Z') || ('0' <= c <= '9') || c == '.' || c == '$' || c == ' '
  }

  /** `re.sub('[^a-zA-Z0-9.$ ]+', '', s)`: delete every character the cleanup does not keep. */
  function Strip(s: string): (r: string)
    ensures |r| <= |s|
    ensures forall i :: 0 <= i < |r| ==> Kept(r[i])
    ensures (forall i :: 0 <= i < |s| ==> Kept(s[i])) ==> r == s
  {
    if |s| == 0 then ""
    else if Kept(s[0]) then [s[0]] + Strip(s[1..])
    else Strip(s[1..])
  }

  /** Stripping works character by character: it distributes over concatenation. */
  lemma {:induction false} StripAppend(a: string, b: string)
    ensures Strip(a + b) == Strip(a) + Strip(b)
  {
    if |a| == 0 {
      assert a + b == b;
    } else {
      assert (a + b)[1..] == a[1..] + b;
      StripAppend(a[1..], b);
    }
  }

  /** Each kept character survives as often as it occurs; every other character is gone. */
  lemma {:induction false} StripMultiplicity(s: string, c: char)
    ensures multiset(Strip(s))[c] == if Kept(c) then multiset(s)[c] else 0
  {
    if |s| > 0 {
      assert s == [s[0]] + s[1..];
      StripMultiplicity(s[1..], c);
    }
  }

  /** The cleaned text of a list of lines: only kept characters, so cleaning it again changes nothing. */
  function CleanText(values: seq<string>): (r: string)
    ensures forall i :: 0 <= i < |r| ==> Kept(r[i])
    ensures Strip(r) == r
  {
    Strip(Join(values, " "))
  }

  /** `get_output_row`: copy id, sheet and name, and clean the joined body. */
  function GetOutputRow(p: Policy): (r: OutputRow)
    ensures r.id == p.id && r.sheetName == p.sheetName && r.policy == p.name
    ensures forall i :: 0 <= i < |r.text| ==> Kept(r.text[i])
    ensures Strip(r.text) == r.text
    ensures r.text == Join(StripAll(p.values), " ")
  {
    CleanTextPerLine(p.values);
    OutputRow(p.id, p.sheetName, p.name, CleanText(p.values))
  }

  /** Cleaning the joined body is the same as cleaning each line and joining those with spaces. */
  lemma {:induction false} CleanTextPerLine(values: seq<string>)
    ensures CleanText(values) == Join(StripAll(values), " ")
  {
    if |values| == 1 {
    } else if |values| > 1 {
      CleanTextPerLine(values[1..]);
      StripAppend(values[0] + " ", Join(values[1..], " "));
      StripAppend(values[0], " ");
      assert StripAll(values)[1..] == StripAll(values[1..]);
    }
  }

  /** Every line stripped on its own. */
  function StripAll(values: seq<string>): (r: seq<string>)
    ensures |r| == |values|
    ensures forall k :: 0 <= k < |r| ==> r[k] == Strip(values[k])
  {
    if |values| == 0 then [] else [Strip(values[0])] + StripAll(values[1..])
  }

  /** On one character, the cleanup keeps it exactly when it is in the kept set. */
  lemma StripChar(c: char)
    ensures Strip([c]) == if Kept(c) then [c] else []
  {
    assert [c][1..] == [];
  }

  /** A character outside the kept set disappears from between any two texts. */
  lemma {:induction false} StripDropsChar(a: string, c: char, b: string)
    requires !Kept(c)
    ensures Strip(a + [c] + b) == Strip(a) + Strip(b)
  {
    StripChar(c);
    StripAppend(a + [c], b);
    StripAppend(a, [c]);
  }

  /** Parentheses around kept text go and the text inside stays, as in "held (Q3)" becoming "held Q3". */
  lemma {:induction false} ParenthesesRemoved(a: string, b: string)
    requires forall i :: 0 <= i < |a| ==> Kept(a[i])
    requires forall i :: 0 <= i < |b| ==> Kept(b[i])
    ensures Strip(a + "(" + b + ")") == a + b
  {
    calc {
      Strip(a + "(" + b + ")");
    == { assert a + "(" + b + ")" == a + "(" + b + [')'] + []; StripDropsChar(a + "(" + b, ')', []); }
      Strip(a + "(" + b) + Strip([]);
    == { StripDropsChar(a, '(', b); }
      Strip(a) + Strip(b) + Strip([]);
    == // text made only of kept characters is left as it is
      a + b;
    }
  }
}
