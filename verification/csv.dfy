/** The CSV text every export of the dashboard builds: a header line, a
    newline, then the data lines joined by newlines. Fields are joined with
    commas and never quoted or escaped. */
module Csv {
  import Text

  /** A field that cannot be confused with the layout: no comma, no newline. */
  predicate Clean(field: string) {
    ',' !in field && '\n' !in field
  }

  /** One CSV line: the fields joined by commas, with no quoting. */
  function Line(fields: seq<string>): string {
    Text.Join(fields, ',')
  }

  /** One line per row, in row order. */
  function Lines(rows: seq<seq<string>>): (ls: seq<string>)
    ensures |ls| == |rows|
    ensures forall k :: 0 <= k < |rows| ==> ls[k] == Line(rows[k])
  {
    seq(|rows|, k requires 0 <= k < |rows| => Line(rows[k]))
  }

  /** The exported text: header line, newline, then the rows joined by newlines. */
  function Document(header: seq<string>, rows: seq<seq<string>>): string {
    Line(header) + "\n" + Text.Join(Lines(rows), '\n')
  }

  /** Whatever the rows hold, a document's first line is its header line,
      which splits back into the header's fields, and at least one more line
      follows. */
  lemma DocumentFirstLine(header: seq<string>, rows: seq<seq<string>>)
    requires |header| >= 1
    requires forall k :: 0 <= k < |header| ==> Clean(header[k])
    ensures var ls := Text.Split(Document(header, rows), '\n');
      |ls| >= 2 && ls[0] == Line(header) && Text.Split(ls[0], ',') == header
  {
    LineReadBack(header);
    Text.SplitAfterPiece(Line(header), Text.Join(Lines(rows), '\n'), '\n');
  }

  lemma {:induction false} JoinAvoids(xs: seq<string>, c: char, d: char)
    requires d != c
    requires forall k :: 0 <= k < |xs| ==> d !in xs[k]
    ensures d !in Text.Join(xs, c)
    decreases |xs|
  {
    if |xs| > 1 {
      JoinAvoids(xs[1..], c, d);
      assert Text.Join(xs, c) == xs[0] + [c] + Text.Join(xs[1..], c);
    }
  }

  /** A line of clean fields reads back as exactly those fields. */
  lemma LineReadBack(fields: seq<string>)
    requires |fields| >= 1
    requires forall k :: 0 <= k < |fields| ==> Clean(fields[k])
    ensures Text.Split(Line(fields), ',') == fields
    ensures '\n' !in Line(fields)
  {
    Text.SplitJoin(fields, ',');
    JoinAvoids(fields, ',', '\n');
  }

  /** When every field is clean and no row is empty, the document splits into
      the header line followed by one line per row (a lone empty line when
      there are no rows), and each of those lines splits back into its row. */
  lemma DocumentReadBack(header: seq<string>, rows: seq<seq<string>>)
    requires |header| >= 1
    requires forall k :: 0 <= k < |header| ==> Clean(header[k])
    requires forall k :: 0 <= k < |rows| ==> |rows[k]| >= 1
    requires forall k, j :: 0 <= k < |rows| && 0 <= j < |rows[k]| ==> Clean(rows[k][j])
    ensures var ls := Text.Split(Document(header, rows), '\n');
      && |ls| == 1 + (if |rows| == 0 then 1 else |rows|)
      && Text.Split(ls[0], ',') == header
      && (|rows| == 0 ==> ls[1] == "")
      && forall k :: 0 <= k < |rows| ==> Text.Split(ls[k + 1], ',') == rows[k]
  {
    LineReadBack(header);
    var body := Lines(rows);
    forall k | 0 <= k < |rows|
      ensures Text.Split(body[k], ',') == rows[k] && '\n' !in body[k]
    {
      LineReadBack(rows[k]);
    }
    Text.SplitAfterPiece(Line(header), Text.Join(body, '\n'), '\n');
    assert Document(header, rows) == Line(header) + ['\n'] + Text.Join(body, '\n');
    if |rows| > 0 {
      Text.SplitJoin(body, '\n');
    }
  }

  /** The unescaped layout is ambiguous: a single field holding a comma reads
      back as two fields. */
  lemma CommaFieldSplits()
    ensures Text.Split(Line(["a,b"]), ',') == ["a", "b"]
  {
    assert Line(["a,b"]) == "a,b";
    assert "b"[1..] == "";
    assert Text.Split("", ',') == [""];
    assert Text.Split("b", ',') == [['b'] + Text.Split("", ',')[0]] + Text.Split("", ',')[1..];
    assert ['b'] + "" == "b";
    assert Text.Split("b", ',') == ["b"];
    assert ",b"[1..] == "b";
    assert Text.Split(",b", ',') == [""] + Text.Split("b", ',');
    assert Text.Split(",b", ',') == ["", "b"];
    assert "a,b"[1..] == ",b";
    assert Text.Split("a,b", ',') == [['a'] + Text.Split(",b", ',')[0]] + Text.Split(",b", ',')[1..];
    assert ['a'] + "" == "a";
  }
}
