/**
 * `ClipboardData` of the older `Terminal` namespace (ClipboardData.cs): the
 * rows are joined by `Environment.NewLine` with a left fold and without any
 * trimming.
 */
module LegacyClipboard {
  import opened Strings

  /** `rows.Skip(1).Aggregate(rows[0], (x, y) => x + NewLine + y)`, with `acc` the running value. */
  function Aggregate(acc: string, rest: seq<string>, newLine: string): string
    decreases |rest|
  {
    if |rest| == 0 then acc else Aggregate(acc + newLine + rest[0], rest[1..], newLine)
  }

  function AggregatedText(rows: seq<string>, newLine: string): string
  {
    if |rows| == 0 then "" else Aggregate(rows[0], rows[1..], newLine)
  }

  function TotalLength(parts: seq<string>): nat
  {
    if |parts| == 0 then 0 else |parts[0]| + TotalLength(parts[1..])
  }

  class ClipboardData {
    var rows: seq<string>
    const newLine: string

    constructor(newLine: string)
      ensures rows == [] && this.newLine == newLine
    {
      rows := [];
      this.newLine := newLine;
    }

    method AppendText(text: string)
      modifies this
      ensures rows == old(rows) + [text]
    {
      rows := rows + [text];
    }

    function Text(): (r: string)
      reads this
      ensures rows == [] ==> r == ""
      ensures |rows| == 1 ==> r == rows[0]
    {
      AggregatedText(rows, newLine)
    }
  }

  lemma {:induction false} AggregateIsJoin(acc: string, rest: seq<string>, newLine: string)
    ensures Aggregate(acc, rest, newLine) == Join([acc] + rest, newLine)
    decreases |rest|
  {
    if |rest| > 0 {
      AggregateIsJoin(acc + newLine + rest[0], rest[1..], newLine);
      JoinHead(acc, rest, newLine);
    } else {
      assert [acc] + rest == [acc];
    }
  }

  lemma {:induction false} JoinHead(acc: string, rest: seq<string>, sep: string)
    requires |rest| > 0
    ensures Join([acc + sep + rest[0]] + rest[1..], sep) == Join([acc] + rest, sep)
  {
    assert ([acc] + rest)[1..] == rest;
    if |rest| > 1 {
      assert ([acc + sep + rest[0]] + rest[1..])[1..] == rest[1..];
      assert rest[1..] == rest[1..][..];
    } else {
      assert [acc + sep + rest[0]] + rest[1..] == [acc + sep + rest[0]];
    }
  }

  /** The text is the rows in append order joined by `newLine`, untrimmed. */
  lemma TextIsJoin(rows: seq<string>, newLine: string)
    requires |rows| >= 1
    ensures AggregatedText(rows, newLine) == Join(rows, newLine)
  {
    AggregateIsJoin(rows[0], rows[1..], newLine);
    assert [rows[0]] + rows[1..] == rows;
  }

  /** k rows give k - 1 separators. */
  lemma {:induction false} TextLength(rows: seq<string>, newLine: string)
    requires |rows| >= 1
    ensures |AggregatedText(rows, newLine)| == TotalLength(rows) + (|rows| - 1) * |newLine|
  {
    TextIsJoin(rows, newLine);
    JoinLength(rows, newLine);
  }

  lemma {:induction false} JoinLength(parts: seq<string>, sep: string)
    requires |parts| >= 1
    ensures |Join(parts, sep)| == TotalLength(parts) + (|parts| - 1) * |sep|
  {
    if |parts| > 1 {
      JoinLength(parts[1..], sep);
    }
  }
}
