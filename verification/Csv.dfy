/** The CSV export of reports and its inverse. */
module Csv {
  import opened Common

  datatype Column = Column(key: string, heading: string)

  /** A report row: the text of each value that is present. */
  type Row = map<string, string>

  // ----- the printer

  predicate Special(c: char) {
    c == '"' || c == ',' || c == '\r' || c == '\n'
  }

  predicate NeedsQuotes(text: string) {
    exists i :: 0 <= i < |text| && Special(text[i])
  }

  function DoubleQuotes(text: string): string {
    if text == [] then [] else (if text[0] == '"' then ['"', '"'] else [text[0]]) + DoubleQuotes(text[1..])
  }

  function CsvValue(text: string): string {
    if NeedsQuotes(text) then ['"'] + DoubleQuotes(text) + ['"'] else text
  }

  function Join(parts: seq<string>, separator: string): string {
    if parts == [] then []
    else if |parts| == 1 then parts[0]
    else parts[0] + separator + Join(parts[1..], separator)
  }

  function Values(fields: seq<string>): (r: seq<string>)
    ensures |r| == |fields|
  {
    if fields == [] then [] else [CsvValue(fields[0])] + Values(fields[1..])
  }

  function Line(fields: seq<string>): string {
    Join(Values(fields), ",")
  }

  function Lines(records: seq<seq<string>>): (r: seq<string>)
    ensures |r| == |records|
  {
    if records == [] then [] else [Line(records[0])] + Lines(records[1..])
  }

  function Labels(columns: seq<Column>): (r: seq<string>)
    ensures |r| == |columns|
    ensures forall i :: 0 <= i < |columns| ==> r[i] == columns[i].heading
  {
    if columns == [] then [] else [columns[0].heading] + Labels(columns[1..])
  }

  function FieldText(row: Row, key: string): string {
    if key in row then row[key] else []
  }

  function Fields(row: Row, columns: seq<Column>): (r: seq<string>)
    ensures |r| == |columns|
    ensures forall i :: 0 <= i < |columns| ==> r[i] == FieldText(row, columns[i].key)
  {
    if columns == [] then [] else [FieldText(row, columns[0].key)] + Fields(row, columns[1..])
  }

  function Table(rows: seq<Row>, columns: seq<Column>): (r: seq<seq<string>>)
    ensures |r| == |rows|
    ensures forall i :: 0 <= i < |rows| ==> r[i] == Fields(rows[i], columns)
  {
    if rows == [] then [] else [Fields(rows[0], columns)] + Table(rows[1..], columns)
  }

  function RowsToCsv(rows: seq<Row>, columns: seq<Column>): string {
    Join([Line(Labels(columns))] + Lines(Table(rows, columns)), "\r\n")
  }

  // ----- reading

  /** Reads a quoted field after its opening quote: the text and what follows the closing quote. */
  function ReadQuoted(s: string, read: string): (r: Option<(string, string)>)
    ensures r.Some? ==> |r.value.1| <= |s|
  {
    if s == [] then None
    else if s[0] != '"' then ReadQuoted(s[1..], read + [s[0]])
    else if |s| > 1 && s[1] == '"' then ReadQuoted(s[2..], read + ['"'])
    else Some((read, s[1..]))
  }

  function ReadPlain(s: string, read: string): (r: (string, string))
    ensures |r.1| <= |s|
  {
    if s == [] || Special(s[0]) then (read, s) else ReadPlain(s[1..], read + [s[0]])
  }

  function ReadField(s: string): (r: Option<(string, string)>)
    ensures r.Some? ==> |r.value.1| <= |s|
  {
    if s != [] && s[0] == '"' then ReadQuoted(s[1..], []) else Some(ReadPlain(s, []))
  }

  /**
   Fields are separated by commas and records by line breaks. With `finalBreak` a line break at the
   very end belongs to the last record, as section 2 of RFC 4180 has it; without, it begins a record.
   */
  function Read(s: string, finalBreak: bool): (r: Option<seq<seq<string>>>)
    ensures r.Some? ==> r.value != [] && r.value[0] != []
    decreases |s|
  {
    var field := ReadField(s);
    if field.None? then None
    else
      var (text, rest) := field.value;
      if rest == [] || (finalBreak && rest == ['\r', '\n']) then Some([[text]])
      else if rest[0] == ',' then
        var more := Read(rest[1..], finalBreak);
        if more.None? then None else Some([[text] + more.value[0]] + more.value[1..])
      else if ['\r', '\n'] <= rest then
        var more := Read(rest[2..], finalBreak);
        if more.None? then None else Some([[text]] + more.value)
      else None
  }

  // ----- reading what was printed

  predicate EndsField(rest: string) {
    rest == [] || rest[0] == ',' || rest[0] == '\r'
  }

  lemma {:induction false} QuotedReadsBack(text: string, rest: string, read: string)
    requires EndsField(rest)
    ensures ReadQuoted(DoubleQuotes(text) + ['"'] + rest, read) == Some((read + text, rest))
  {
    var s := DoubleQuotes(text) + ['"'] + rest;
    if text == [] {
      assert s == ['"'] + rest;
      assert s[1..] == rest && read + text == read;
    } else {
      var tail := DoubleQuotes(text[1..]) + ['"'] + rest;
      QuotedReadsBack(text[1..], rest, read + [text[0]]);
      assert read + [text[0]] + text[1..] == read + text;
      if text[0] == '"' {
        assert s == ['"', '"'] + tail;
        QuotedPair(tail, read);
      } else {
        assert s == [text[0]] + tail;
        assert s[1..] == tail;
      }
    }
  }

  lemma QuotedPair(tail: string, read: string)
    ensures ReadQuoted(['"', '"'] + tail, read) == ReadQuoted(tail, read + ['"'])
  {
    assert (['"', '"'] + tail)[2..] == tail;
  }

  lemma {:induction false} PlainReadsBack(text: string, rest: string, read: string)
    requires !NeedsQuotes(text) && EndsField(rest)
    ensures ReadPlain(text + rest, read) == (read + text, rest)
  {
    if text == [] {
      assert text + rest == rest && read + text == read;
    } else {
      assert !Special(text[0]);
      assert (text + rest)[1..] == text[1..] + rest;
      forall i | 0 <= i < |text[1..]| ensures !Special(text[1..][i]) {
        assert text[1..][i] == text[i + 1];
      }
      PlainReadsBack(text[1..], rest, read + [text[0]]);
      assert read + [text[0]] + text[1..] == read + text;
    }
  }

  lemma QuotedFieldReadsBack(text: string, rest: string)
    requires EndsField(rest)
    ensures ReadField(['"'] + DoubleQuotes(text) + ['"'] + rest) == Some((text, rest))
  {
    var body := DoubleQuotes(text) + ['"'] + rest;
    var s := ['"'] + DoubleQuotes(text) + ['"'] + rest;
    assert s[1..] == body;
    QuotedReadsBack(text, rest, []);
    assert [] + text == text;
  }

  lemma PlainFieldReadsBack(text: string, rest: string)
    requires !NeedsQuotes(text) && EndsField(rest)
    ensures ReadField(text + rest) == Some((text, rest))
  {
    assert text != [] ==> !Special(text[0]);
    assert text + rest != [] ==> (text + rest)[0] != '"';
    PlainReadsBack(text, rest, []);
    assert [] + text == text;
  }

  lemma FieldReadsBack(text: string, rest: string)
    requires EndsField(rest)
    ensures ReadField(CsvValue(text) + rest) == Some((text, rest))
  {
    if NeedsQuotes(text) {
      QuotedFieldReadsBack(text, rest);
    } else {
      PlainFieldReadsBack(text, rest);
    }
  }

  /** The records as printed: no record is empty. */
  function Printed(records: seq<seq<string>>): string {
    Join(Lines(records), "\r\n")
  }

  ghost predicate NoneEmpty(records: seq<seq<string>>) {
    records != [] && forall i :: 0 <= i < |records| ==> records[i] != []
  }

  lemma LineFirstField(fields: seq<string>)
    requires fields != []
    ensures Line(fields) == CsvValue(fields[0]) + if |fields| > 1 then [','] + Line(fields[1..]) else []
  {
    assert Values(fields)[1..] == Values(fields[1..]);
    if |fields| == 1 {
      assert Line(fields) == CsvValue(fields[0]) + [];
    } else {
      assert CsvValue(fields[0]) + "," + Line(fields[1..]) == CsvValue(fields[0]) + ([','] + Line(fields[1..]));
    }
  }

  /** What follows the first line. */
  function LinesAfter(records: seq<seq<string>>): string {
    if records == [] then [] else ['\r', '\n'] + Printed(records)
  }

  lemma PrintedFirstLine(records: seq<seq<string>>)
    requires records != []
    ensures Printed(records) == Line(records[0]) + LinesAfter(records[1..])
  {
    assert Lines(records)[1..] == Lines(records[1..]);
    if |records| > 1 {
      assert Line(records[0]) + "\r\n" + Printed(records[1..])
          == Line(records[0]) + (['\r', '\n'] + Printed(records[1..]));
    } else {
      assert Printed(records) == Line(records[0]) + [];
    }
  }

  /** What follows the first field: the end, more of the record, or more records. */
  lemma PrintedFirstField(records: seq<seq<string>>)
    requires NoneEmpty(records)
    ensures |records[0]| > 1 ==>
      Printed(records) == CsvValue(records[0][0]) + ([','] + Printed([records[0][1..]] + records[1..]))
    ensures |records[0]| == 1 ==> Printed(records) == CsvValue(records[0][0]) + LinesAfter(records[1..])
  {
    var first := records[0];
    LineFirstField(first);
    PrintedFirstLine(records);
    if |first| > 1 {
      var shorter := [first[1..]] + records[1..];
      PrintedFirstLine(shorter);
      assert shorter[1..] == records[1..];
      assert CsvValue(first[0]) + ([','] + Line(first[1..])) + LinesAfter(records[1..])
          == CsvValue(first[0]) + ([','] + (Line(first[1..]) + LinesAfter(records[1..])));
    } else {
      assert CsvValue(first[0]) + [] == CsvValue(first[0]);
    }
  }

  function Size(records: seq<seq<string>>): nat {
    if records == [] then 0 else 1 + |records[0]| + Size(records[1..])
  }

  /** The last of several records is a single empty field, so the text ends with a line break. */
  predicate EndsBlank(records: seq<seq<string>>) {
    |records| > 1 && Blank(records[|records| - 1])
  }

  predicate Blank(record: seq<string>) {
    |record| == 1 && |record[0]| == 0
  }

  /** What a reader makes of the printed records. */
  function ReadBack(records: seq<seq<string>>, finalBreak: bool): seq<seq<string>> {
    if finalBreak && EndsBlank(records) then records[..|records| - 1] else records
  }

  lemma PrintedIsEmpty(records: seq<seq<string>>)
    requires NoneEmpty(records)
    ensures Printed(records) == [] <==> |records| == 1 && Blank(records[0])
  {
    PrintedFirstField(records);
  }

  lemma {:induction false} PrintedReadsBack(records: seq<seq<string>>, finalBreak: bool)
    requires NoneEmpty(records)
    ensures Read(Printed(records), finalBreak) == Some(ReadBack(records, finalBreak))
    decreases Size(records)
  {
    PrintedFirstField(records);
    if |records[0]| > 1 {
      FieldThenMore(records, finalBreak);
    } else if |records| > 1 {
      RecordThenMore(records, finalBreak);
    } else {
      FieldReadsBack(records[0][0], []);
      assert CsvValue(records[0][0]) + [] == CsvValue(records[0][0]);
      assert [records[0][0]] == records[0];
      assert records == [records[0]];
    }
  }

  lemma ReadComma(s: string, text: string, after: string, finalBreak: bool)
    requires ReadField(s) == Some((text, [','] + after))
    ensures Read(s, finalBreak) ==
      if Read(after, finalBreak).None? then None
      else
        var more := Read(after, finalBreak).value;
        Some([[text] + more[0]] + more[1..])
  {
    var rest := [','] + after;
    assert rest != [] && rest[0] == ',' && rest[1..] == after;
    assert rest != ['\r', '\n'];
  }

  lemma FieldsAfter(records: seq<seq<string>>, finalBreak: bool)
    requires records != [] && |records[0]| > 1
    ensures
      var more := ReadBack([records[0][1..]] + records[1..], finalBreak);
      more != [] && [[records[0][0]] + more[0]] + more[1..] == ReadBack(records, finalBreak)
  {
    var shorter := [records[0][1..]] + records[1..];
    var first := [records[0][0]] + records[0][1..];
    assert first == records[0];
    if finalBreak && EndsBlank(records) {
      var n := |records| - 1;
      assert shorter[n] == records[n];
      assert shorter[..n][1..] == records[..n][1..];
      assert [first] + records[..n][1..] == records[..n];
    } else {
      assert |records| > 1 ==> shorter[|records| - 1] == records[|records| - 1];
      assert shorter[1..] == records[1..];
      assert [first] + records[1..] == records;
    }
  }

  lemma {:induction false} FieldThenMore(records: seq<seq<string>>, finalBreak: bool)
    requires NoneEmpty(records) && |records[0]| > 1
    ensures Read(Printed(records), finalBreak) == Some(ReadBack(records, finalBreak))
    decreases Size(records), 0
  {
    var text := records[0][0];
    var shorter := [records[0][1..]] + records[1..];
    assert shorter[1..] == records[1..];
    PrintedFirstField(records);
    FieldReadsBack(text, [','] + Printed(shorter));
    ReadComma(Printed(records), text, Printed(shorter), finalBreak);
    PrintedReadsBack(shorter, finalBreak);
    FieldsAfter(records, finalBreak);
  }

  lemma ReadBreak(s: string, text: string, after: string, finalBreak: bool)
    requires ReadField(s) == Some((text, ['\r', '\n'] + after))
    ensures Read(s, finalBreak) ==
      if finalBreak && after == [] then Some([[text]])
      else if Read(after, finalBreak).None? then None
      else Some([[text]] + Read(after, finalBreak).value)
  {
    var rest := ['\r', '\n'] + after;
    assert rest[0] == '\r' && rest[1] == '\n' && rest[2..] == after;
    assert rest == ['\r', '\n'] <==> after == [];
    assert ['\r', '\n'] <= rest;
  }

  lemma {:induction false} RecordThenMore(records: seq<seq<string>>, finalBreak: bool)
    requires NoneEmpty(records) && |records| > 1 && |records[0]| == 1
    ensures Read(Printed(records), finalBreak) == Some(ReadBack(records, finalBreak))
    decreases Size(records), 0
  {
    var text := records[0][0];
    var after := records[1..];
    PrintedFirstField(records);
    FieldReadsBack(text, LinesAfter(after));
    ReadBreak(Printed(records), text, Printed(after), finalBreak);
    PrintedReadsBack(after, finalBreak);
    PrintedIsEmpty(after);
    RecordsAfter(records, finalBreak);
  }

  lemma RecordsAfter(records: seq<seq<string>>, finalBreak: bool)
    requires |records| > 1 && |records[0]| == 1
    ensures ReadBack(records, finalBreak) ==
      if finalBreak && |records| == 2 && Blank(records[1]) then [[records[0][0]]]
      else [[records[0][0]]] + ReadBack(records[1..], finalBreak)
  {
    assert records[0] == [records[0][0]];
  }

  function Records(rows: seq<Row>, columns: seq<Column>): seq<seq<string>> {
    [Labels(columns)] + Table(rows, columns)
  }

  lemma ExportIsPrinted(rows: seq<Row>, columns: seq<Column>)
    requires columns != []
    ensures RowsToCsv(rows, columns) == Printed(Records(rows, columns)) && NoneEmpty(Records(rows, columns))
  {
    var records := Records(rows, columns);
    assert records[1..] == Table(rows, columns);
    assert Lines(records) == [Line(Labels(columns))] + Lines(Table(rows, columns));
  }

  /** Two exports are alike only if their labels and all their field texts are. */
  lemma CsvDistinguishes(rows: seq<Row>, columns: seq<Column>, rows': seq<Row>, columns': seq<Column>)
    requires columns != [] && columns' != []
    requires RowsToCsv(rows, columns) == RowsToCsv(rows', columns')
    ensures Labels(columns) == Labels(columns') && Table(rows, columns) == Table(rows', columns')
  {
    ExportIsPrinted(rows, columns);
    ExportIsPrinted(rows', columns');
    var a, b := Records(rows, columns), Records(rows', columns');
    PrintedReadsBack(a, false);
    PrintedReadsBack(b, false);
    assert a[0] == b[0] && a[1..] == b[1..];
  }

  /** The last row of a one-column export is empty, so that the export ends with a line break. */
  predicate LastRowBlank(rows: seq<Row>, columns: seq<Column>) {
    |columns| == 1 && rows != [] && |FieldText(rows[|rows| - 1], columns[0].key)| == 0
  }

  lemma ExportEndsBlank(rows: seq<Row>, columns: seq<Column>)
    requires columns != []
    ensures EndsBlank(Records(rows, columns)) <==> LastRowBlank(rows, columns)
  {
    if rows != [] {
      assert Records(rows, columns)[|rows|] == Fields(rows[|rows| - 1], columns);
    }
  }

  lemma ExportWithoutLast(rows: seq<Row>, columns: seq<Column>)
    requires rows != []
    ensures Records(rows, columns)[..|rows|] == Records(rows[..|rows| - 1], columns)
  {
    var n := |rows| - 1;
    var table := Table(rows, columns);
    assert forall i :: 0 <= i < n ==> table[i] == Table(rows[..n], columns)[i];
    assert table[..n] == Table(rows[..n], columns);
    assert ([Labels(columns)] + table)[..|rows|] == [Labels(columns)] + table[..n];
  }

  /**
   A reader by section 2 of RFC 4180 gives back the labels and the text of every field, whatever the
   texts are, exactly when there is a column and the export is not of one column with an empty last row.
   */
  lemma CsvReadsBackExactly(rows: seq<Row>, columns: seq<Column>)
    ensures Read(RowsToCsv(rows, columns), true) == Some(Records(rows, columns))
      <==> columns != [] && !LastRowBlank(rows, columns)
    ensures LastRowBlank(rows, columns) ==>
      Read(RowsToCsv(rows, columns), true) == Some(Records(rows[..|rows| - 1], columns))
  {
    if columns == [] {
      assert Records(rows, columns)[0] == [];
    } else {
      ExportIsPrinted(rows, columns);
      PrintedReadsBack(Records(rows, columns), true);
      ExportEndsBlank(rows, columns);
      if rows != [] {
        ExportWithoutLast(rows, columns);
      }
    }
  }

  /** One column headed `a` with one empty row: a reader by section 2 of RFC 4180 sees no row. */
  lemma BlankLastRowIsLost()
    ensures
      var columns := [Column("k", "a")];
      var rows: seq<Row> := [map[]];
      RowsToCsv(rows, columns) == "a\r\n" && Read(RowsToCsv(rows, columns), true) == Some([["a"]])
  {
    var columns := [Column("k", "a")];
    var rows: seq<Row> := [map[]];
    ExportIsPrinted(rows, columns);
    PrintedFirstField(Records(rows, columns));
    PrintedFirstField(Records(rows, columns)[1..]);
    CsvReadsBackExactly(rows, columns);
    assert Records(rows[..0], columns) == [["a"]];
  }
}
