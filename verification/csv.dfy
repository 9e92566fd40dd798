/**
  The CSV export: a fixed header line, then one line per row with every field
  wrapped in double quotes and the fields comma-joined, the lines joined with
  a newline. Embedded quotes, commas and newlines are written as they are.
 */
module Csv {
  import opened Options
  import opened Rows
  import opened Text

  const Headers: seq<string> := ["Title", "Date", "Description", "Tags", "Value"]

  const HeaderLine: string := Join(Headers, ",")

  /** The template literal `"${field}"`. */
  function Quote(s: string): string {
    "\"" + s + "\""
  }

  /** The fields array of template literals. */
  function QuoteAll(fields: seq<string>): seq<string> {
    seq(|fields|, j requires 0 <= j < |fields| => Quote(fields[j]))
  }

  /** A row's fields in column order. */
  function Texts(r: Row): seq<string> {
    [r.title, r.date, r.description, r.tags, r.value]
  }

  /** The line written for one row. */
  function RowLine(r: Row): string {
    Join(QuoteAll(Texts(r)), ",")
  }

  /** data.map(...) over the rows. */
  function RowLines(data: seq<Row>): (lines: seq<string>)
    ensures |lines| == |data|
  {
    if |data| == 0 then [] else [RowLine(data[0])] + RowLines(data[1..])
  }

  /** The CSV text of a collection. */
  function ToCsv(data: seq<Row>): (csv: string)
    ensures HeaderLine <= csv
    ensures data == [] ==> csv == HeaderLine
  {
    Join([HeaderLine] + RowLines(data), "\n")
  }

  predicate NoneContains(data: seq<Row>, c: char) {
    forall j, f :: 0 <= j < |data| ==> c !in Get(data[j], f)
  }

  lemma HeaderLineText()
    ensures HeaderLine == "Title,Date,Description,Tags,Value"
  {
    JoinCons("Title", ["Date", "Description", "Tags", "Value"], ",");
    JoinCons("Date", ["Description", "Tags", "Value"], ",");
    JoinCons("Description", ["Tags", "Value"], ",");
    JoinCons("Tags", ["Value"], ",");
  }

  /** The line of a row is its five fields, each between double quotes, separated by commas, with nothing escaped. */
  lemma RowLineText(r: Row)
    ensures RowLine(r) == Quote(r.title) + "," + Quote(r.date) + "," + Quote(r.description) + ","
                          + Quote(r.tags) + "," + Quote(r.value)
  {
    var q := QuoteAll(Texts(r));
    assert q == [Quote(r.title), Quote(r.date), Quote(r.description), Quote(r.tags), Quote(r.value)];
    assert q[1..] == [q[1]] + q[2..];
    assert q[2..] == [q[2]] + q[3..];
    assert q[3..] == [q[3]] + q[4..];
    assert Join(q[4..], ",") == q[4];
    JoinCons(q[3], q[4..], ",");
    JoinCons(q[2], q[3..], ",");
    JoinCons(q[1], q[2..], ",");
    JoinCons(q[0], q[1..], ",");
  }

  lemma {:induction false} RowLinesAt(data: seq<Row>, j: nat)
    requires j < |data|
    ensures RowLines(data)[j] == RowLine(data[j])
    decreases j
  {
    if j > 0 {
      RowLinesAt(data[1..], j - 1);
    }
  }

  /** A character other than the quote and the comma appears in a row's line only if it appears in a field. */
  lemma RowLineAvoids(r: Row, c: char)
    requires c != '"' && c != ','
    requires forall f :: c !in Get(r, f)
    ensures c !in RowLine(r)
  {
    var t := Texts(r);
    var q := QuoteAll(t);
    forall j | 0 <= j < 5
      ensures c !in q[j]
    {
      assert t[j] == Get(r, [Title, Date, Description, Tags, Value][j]);
    }
    JoinAvoids(q, ",", c);
  }

  /**
    When no field holds a newline, the output splits into exactly one header
    line followed by one line per row, in collection order.
   */
  lemma CsvLines(data: seq<Row>)
    requires NoneContains(data, '\n')
    ensures |Split(ToCsv(data), '\n')| == |data| + 1
    ensures Split(ToCsv(data), '\n')[0] == "Title,Date,Description,Tags,Value"
    ensures forall j :: 0 <= j < |data| ==>
      Split(ToCsv(data), '\n')[j + 1]
        == Quote(data[j].title) + "," + Quote(data[j].date) + "," + Quote(data[j].description) + ","
           + Quote(data[j].tags) + "," + Quote(data[j].value)
  {
    var lines := [HeaderLine] + RowLines(data);
    LinesWithoutNewline(data);
    SplitJoin(lines, '\n');
    forall j | 0 <= j < |data|
      ensures Split(ToCsv(data), '\n')[j + 1]
        == Quote(data[j].title) + "," + Quote(data[j].date) + "," + Quote(data[j].description) + ","
           + Quote(data[j].tags) + "," + Quote(data[j].value)
    {
      assert lines[j + 1] == RowLines(data)[j];
      RowLinesAt(data, j);
      RowLineText(data[j]);
    }
    HeaderLineText();
  }

  /** The lines the export joins hold no newline of their own when no field does. */
  lemma LinesWithoutNewline(data: seq<Row>)
    requires NoneContains(data, '\n')
    ensures forall j :: 0 <= j < |[HeaderLine] + RowLines(data)| ==> '\n' !in ([HeaderLine] + RowLines(data))[j]
  {
    var lines := [HeaderLine] + RowLines(data);
    HeaderLineText();
    forall j | 0 <= j < |lines|
      ensures '\n' !in lines[j]
    {
      if j > 0 {
        RowLinesAt(data, j - 1);
        RowLineAvoids(data[j - 1], '\n');
      }
    }
  }

  /** Every row's line, each introduced by a newline, written out field by field. */
  function RowsText(data: seq<Row>): string
    decreases |data|
  {
    if |data| == 0 then ""
    else
      var r := data[0];
      "\n" + Quote(r.title) + "," + Quote(r.date) + "," + Quote(r.description) + ","
      + Quote(r.tags) + "," + Quote(r.value) + RowsText(data[1..])
  }

  lemma {:induction false} PrefixedRowLines(data: seq<Row>)
    ensures Prefixed(RowLines(data), "\n") == RowsText(data)
    decreases |data|
  {
    if |data| > 0 {
      assert RowLines(data)[1..] == RowLines(data[1..]);
      PrefixedRowLines(data[1..]);
      RowLineText(data[0]);
    }
  }

  /**
    The exact export text of any collection, newlines and quotes in fields
    included: the header, then for each row a newline and its quoted fields.
   */
  lemma CsvText(data: seq<Row>)
    ensures ToCsv(data) == "Title,Date,Description,Tags,Value" + RowsText(data)
  {
    JoinPrefixed(HeaderLine, RowLines(data), "\n");
    PrefixedRowLines(data);
    HeaderLineText();
  }

  // A reader for the output, as the inverse of ToCsv.

  /** The text before the first double quote, and the rest from that quote on. */
  function TakeUntilQuote(s: string): (p: (string, string))
    ensures p.0 + p.1 == s
    ensures '"' !in p.0
    ensures |p.1| == 0 || p.1[0] == '"'
    decreases |s|
  {
    if |s| == 0 || s[0] == '"' then ("", s)
    else
      var p := TakeUntilQuote(s[1..]);
      ([s[0]] + p.0, p.1)
  }

  /** One double-quoted field and the text after its closing quote. */
  function ParseQuoted(s: string): (res: Option<(string, string)>)
    ensures res.Some? ==> |res.value.1| < |s|
  {
    if |s| == 0 || s[0] != '"' then None
    else
      var p := TakeUntilQuote(s[1..]);
      if |p.1| == 0 then None else Some((p.0, p.1[1..]))
  }

  /** n comma-separated quoted fields and the text after the last. */
  function ParseFields(s: string, n: nat): (res: Option<(seq<string>, string)>)
    requires n >= 1
    ensures res.Some? ==> |res.value.0| == n && |res.value.1| < |s|
    decreases n
  {
    match ParseQuoted(s)
    case None => None
    case Some((field, after)) =>
      if n == 1 then Some(([field], after))
      else if |after| == 0 || after[0] != ',' then None
      else
        match ParseFields(after[1..], n - 1)
        case None => None
        case Some((fields, rest)) => Some(([field] + fields, rest))
  }

  /** One row line and the text after it. */
  function ParseRecord(s: string): (res: Option<(Row, string)>)
    ensures res.Some? ==> |res.value.1| < |s|
  {
    match ParseFields(s, 5)
    case None => None
    case Some((f, rest)) => Some((Row(f[0], f[1], f[2], f[3], f[4]), rest))
  }

  /** The rows after the header: each introduced by a newline. */
  function ParseBody(s: string): Option<seq<Row>>
    decreases |s|
  {
    if |s| == 0 then Some([])
    else if s[0] != '\n' then None
    else
      match ParseRecord(s[1..])
      case None => None
      case Some((r, rest)) =>
        match ParseBody(rest)
        case None => None
        case Some(rows) => Some([r] + rows)
  }

  /** Reads a whole CSV text back into a collection. */
  function ParseCsv(s: string): Option<seq<Row>> {
    if HeaderLine <= s then ParseBody(s[|HeaderLine|..]) else None
  }

  lemma {:induction false} TakeUntilQuoteStops(field: string, rest: string)
    requires '"' !in field
    ensures TakeUntilQuote(field + "\"" + rest) == (field, "\"" + rest)
    decreases |field|
  {
    var s := field + "\"" + rest;
    if |field| == 0 {
      assert s == "\"" + rest;
    } else {
      assert s[0] == field[0];
      assert s[1..] == field[1..] + "\"" + rest;
      TakeUntilQuoteStops(field[1..], rest);
      assert [field[0]] + field[1..] == field;
    }
  }

  lemma ParseQuotedField(field: string, rest: string)
    requires '"' !in field
    ensures ParseQuoted(Quote(field) + rest) == Some((field, rest))
  {
    var s := Quote(field) + rest;
    assert s[1..] == field + "\"" + rest;
    TakeUntilQuoteStops(field, rest);
    assert ("\"" + rest)[1..] == rest;
  }

  /** Quoted fields joined by commas read back as the fields, when no field holds a double quote. */
  lemma {:induction false} ParseFieldsJoin(fields: seq<string>, rest: string)
    requires |fields| >= 1
    requires forall j :: 0 <= j < |fields| ==> '"' !in fields[j]
    ensures ParseFields(Join(QuoteAll(fields), ",") + rest, |fields|) == Some((fields, rest))
    decreases |fields|
  {
    var q := QuoteAll(fields);
    if |fields| == 1 {
      assert Join(q, ",") == Quote(fields[0]);
      ParseQuotedField(fields[0], rest);
      assert fields == [fields[0]];
    } else {
      var tail := Join(QuoteAll(fields[1..]), ",");
      assert q == [Quote(fields[0])] + QuoteAll(fields[1..]);
      JoinCons(Quote(fields[0]), QuoteAll(fields[1..]), ",");
      assert Join(q, ",") + rest == Quote(fields[0]) + ([','] + (tail + rest));
      ParseFieldsJoin(fields[1..], rest);
      ParseFieldsStep(fields[0], tail + rest, |fields|, fields[1..], rest);
      assert [fields[0]] + fields[1..] == fields;
    }
  }

  /** A quoted field, a comma, and n - 1 more fields read as n fields. */
  lemma ParseFieldsStep(field: string, more: string, n: nat, fields: seq<string>, rest: string)
    requires n >= 2
    requires '"' !in field
    requires ParseFields(more, n - 1) == Some((fields, rest))
    ensures ParseFields(Quote(field) + ([','] + more), n) == Some(([field] + fields, rest))
  {
    ParseQuotedField(field, [','] + more);
    assert ([','] + more)[1..] == more;
  }

  lemma ParseRowLine(r: Row, rest: string)
    requires forall f :: '"' !in Get(r, f)
    ensures ParseRecord(RowLine(r) + rest) == Some((r, rest))
  {
    var t := Texts(r);
    forall j | 0 <= j < 5
      ensures '"' !in t[j]
    {
      assert Get(r, Title) == t[0] && Get(r, Date) == t[1] && Get(r, Description) == t[2];
      assert Get(r, Tags) == t[3] && Get(r, Value) == t[4];
    }
    ParseFieldsJoin(t, rest);
  }

  lemma ParseBodyStep(line: string, after: string, r: Row, rows: seq<Row>)
    requires ParseRecord(line + after) == Some((r, after))
    requires ParseBody(after) == Some(rows)
    ensures ParseBody(['\n'] + (line + after)) == Some([r] + rows)
  {
  }

  lemma NoneContainsTail(data: seq<Row>, c: char)
    requires |data| > 0
    requires NoneContains(data, c)
    ensures NoneContains(data[1..], c)
    ensures forall f :: c !in Get(data[0], f)
  {
  }

  /** The joined row lines: a newline, the first row's line, then the rest. */
  lemma FirstRowLine(data: seq<Row>)
    requires |data| > 0
    ensures Prefixed(RowLines(data), "\n") == ['\n'] + (RowLine(data[0]) + Prefixed(RowLines(data[1..]), "\n"))
  {
    assert RowLines(data)[1..] == RowLines(data[1..]);
  }

  lemma {:induction false} ParseBodyLines(data: seq<Row>)
    requires NoneContains(data, '"')
    ensures ParseBody(Prefixed(RowLines(data), "\n")) == Some(data)
    decreases |data|
  {
    if |data| > 0 {
      var after := Prefixed(RowLines(data[1..]), "\n");
      FirstRowLine(data);
      NoneContainsTail(data, '"');
      ParseRowLine(data[0], after);
      ParseBodyLines(data[1..]);
      ParseBodyStep(RowLine(data[0]), after, data[0], data[1..]);
      assert [data[0]] + data[1..] == data;
    }
  }

  /**
    When no field holds a double quote, the CSV text determines the collection:
    reading it back gives exactly the rows written.
   */
  lemma CsvRoundTrip(data: seq<Row>)
    requires NoneContains(data, '"')
    ensures ParseCsv(ToCsv(data)) == Some(data)
  {
    JoinPrefixed(HeaderLine, RowLines(data), "\n");
    var s := ToCsv(data);
    assert s[|HeaderLine|..] == Prefixed(RowLines(data), "\n");
    ParseBodyLines(data);
  }

  /** A one-row collection is written as the header, a newline and the row's line. */
  lemma SingleRowCsv(r: Row)
    ensures ToCsv([r]) == HeaderLine + "\n" + RowLine(r)
  {
    assert RowLines([r]) == [RowLine(r)];
    JoinCons(HeaderLine, [RowLine(r)], "\n");
  }

  /**
    Without escaping, a double quote inside a field lets two different
    collections produce the same CSV text.
   */
  lemma QuotesCollide()
    ensures var a := Row("a\",\"b", "c", "d", "e", "f");
            var b := Row("a", "b\",\"c", "d", "e", "f");
            [a] != [b] && ToCsv([a]) == ToCsv([b])
  {
    var a := Row("a\",\"b", "c", "d", "e", "f");
    var b := Row("a", "b\",\"c", "d", "e", "f");
    assert a.title != b.title;
    assert Quote(a.title) + "," + Quote(a.date) == "\"a\",\"b\",\"c\"";
    assert Quote(b.title) + "," + Quote(b.date) == "\"a\",\"b\",\"c\"";
    RowLineText(a);
    RowLineText(b);
    SingleRowCsv(a);
    SingleRowCsv(b);
  }

  lemma ExampleRowLine()
    ensures RowLine(Row("A", "d1", "x", "t", "1")) == "\"A\",\"d1\",\"x\",\"t\",\"1\""
  {
    RowLineText(Row("A", "d1", "x", "t", "1"));
    assert Quote("A") + "," + Quote("d1") == "\"A\",\"d1\"";
    assert Quote("A") + "," + Quote("d1") + "," + Quote("x") == "\"A\",\"d1\",\"x\"";
    assert Quote("A") + "," + Quote("d1") + "," + Quote("x") + "," + Quote("t") == "\"A\",\"d1\",\"x\",\"t\"";
  }

  /** The single-row collection of the export example. */
  lemma ExportExample()
    ensures ToCsv([Row("A", "d1", "x", "t", "1")])
      == "Title,Date,Description,Tags,Value" + "\n" + "\"A\",\"d1\",\"x\",\"t\",\"1\""
  {
    ExampleRowLine();
    SingleRowCsv(Row("A", "d1", "x", "t", "1"));
    HeaderLineText();
  }
}
