/**
 * `ClipboardData` (Misc/ClipboardData.cs): the rows of text collected from a
 * selection, joined into one string on demand. `Environment.NewLine` is a
 * constant given when the object is made.
 */
module Clipboard {
  import opened Strings

  predicate IsLineFeed(c: char) { c == '\n' }
  predicate IsCarriageReturn(c: char) { c == '\r' }

  /** `x.TrimEnd('\n').TrimEnd('\r')`. */
  function TrimRow(x: string): (r: string)
    ensures r <= x
    ensures |r| == 0 || r[|r| - 1] != '\r'
    ensures forall i :: |r| <= i < |x| ==> x[i] == '\r' || x[i] == '\n'
    ensures forall i, j :: |r| <= i < j < |x| && x[i] == '\n' ==> x[j] == '\n'
  {
    var noLf := TrimEndWhere(x, IsLineFeed);
    var r := TrimEndWhere(noLf, IsCarriageReturn);
    TrimEndShape(x, IsLineFeed);
    TrimEndShape(noLf, IsCarriageReturn);
    assert forall i :: |noLf| <= i < |x| ==> x[i] == '\n';
    assert forall i :: |r| <= i < |noLf| ==> x[i] == noLf[i] == '\r';
    r
  }

  function TrimRows(rows: seq<string>): (r: seq<string>)
    ensures |r| == |rows|
    ensures forall i :: 0 <= i < |rows| ==> r[i] == TrimRow(rows[i])
  {
    if |rows| == 0 then [] else [TrimRow(rows[0])] + TrimRows(rows[1..])
  }

  /** The text of the rows: empty without rows, else the trimmed rows joined by `newLine`. */
  function JoinedText(rows: seq<string>, newLine: string): string
  {
    if |rows| == 0 then "" else Join(TrimRows(rows), newLine)
  }

  function TotalLength(parts: seq<string>): nat
  {
    if |parts| == 0 then 0 else |parts[0]| + TotalLength(parts[1..])
  }

  class ClipboardData {
    var rows: seq<string>
    const newLine: string

    constructor(newLine: string)
      ensures rows == [] && this.newLine == newLine
    {
      rows := [];
      this.newLine := newLine;
    }

    /** Adds exactly one row, at the end. */
    method AppendText(text: string)
      modifies this
      ensures rows == old(rows) + [text]
    {
      rows := rows + [text];
    }

    /** The `Text` property. */
    function Text(): (r: string)
      reads this
      ensures rows == [] ==> r == ""
      ensures |rows| == 1 ==> r == TrimRow(rows[0])
    {
      JoinedText(rows, newLine)
    }
  }

  /** One more row adds one separator and that row, trimmed, to the end of the text. */
  lemma {:induction false} TextOfAppend(rows: seq<string>, x: string, newLine: string)
    requires |rows| >= 1
    ensures JoinedText(rows + [x], newLine) == JoinedText(rows, newLine) + newLine + TrimRow(x)
  {
    var t := TrimRows(rows + [x]);
    assert t == TrimRows(rows) + [TrimRow(x)];
    JoinAppend(TrimRows(rows), TrimRow(x), newLine);
  }

  lemma {:induction false} JoinAppend(parts: seq<string>, x: string, sep: string)
    requires |parts| >= 1
    ensures Join(parts + [x], sep) == Join(parts, sep) + sep + x
  {
    if |parts| == 1 {
      assert (parts + [x])[1..] == [x];
    } else {
      assert (parts + [x])[1..] == parts[1..] + [x];
      JoinAppend(parts[1..], x, sep);
    }
  }

  /** k rows give k - 1 separators: the length is the rows' lengths plus (k - 1) copies of `newLine`. */
  lemma {:induction false} TextLength(rows: seq<string>, newLine: string)
    requires |rows| >= 1
    ensures |JoinedText(rows, newLine)| == TotalLength(TrimRows(rows)) + (|rows| - 1) * |newLine|
  {
    JoinLength(TrimRows(rows), newLine);
  }

  lemma {:induction false} JoinLength(parts: seq<string>, sep: string)
    requires |parts| >= 1
    ensures |Join(parts, sep)| == TotalLength(parts) + (|parts| - 1) * |sep|
  {
    if |parts| > 1 {
      JoinLength(parts[1..], sep);
    }
  }
}
