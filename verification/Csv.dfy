/** The minimal-quoting CSV writer of lib/csv.js, the character machine that reads it back,
    and `writeAndVerifyCsv` of docs/plots/main.js, which relies on both.
 */
module Csv {
  import opened JsText
  import opened Wrappers

  const QUOTE: Unit := 0x22
  const RETURN: Unit := 0x0d
  const NEWLINE: Unit := 0x0a
  const COMMA: Unit := 0x2c

  type Row = map<Text, Text>

  // The writer.

  function DoubleQuotes(value: Text): Text {
    if value == [] then []
    else (if value[0] == QUOTE then [QUOTE, QUOTE] else [value[0]]) + DoubleQuotes(value[1..])
  }

  predicate NeedsQuotes(value: Text, delimiter: Unit) {
    delimiter in value || QUOTE in value || RETURN in value || NEWLINE in value
  }

  function QuoteField(value: Text, delimiter: Unit): Text {
    if NeedsQuotes(value, delimiter) then [QUOTE] + DoubleQuotes(value) + [QUOTE] else value
  }

  function Line(cells: seq<Text>, delimiter: Unit): Text {
    if cells == [] then []
    else if |cells| == 1 then QuoteField(cells[0], delimiter)
    else QuoteField(cells[0], delimiter) + [delimiter] + Line(cells[1..], delimiter)
  }

  /** A missing key is an empty field. */
  function Cell(row: Row, name: Text): Text { if name in row then row[name] else [] }

  function Cells(row: Row, fieldnames: seq<Text>): seq<Text> {
    seq(|fieldnames|, i requires 0 <= i < |fieldnames| => Cell(row, fieldnames[i]))
  }

  /** The header and every row, as lists of cells. */
  function Table(fieldnames: seq<Text>, rows: seq<Row>): (r: seq<seq<Text>>)
    ensures |r| == |rows| + 1
  {
    if rows == [] then [fieldnames]
    else Table(fieldnames, rows[..|rows| - 1]) + [Cells(rows[|rows| - 1], fieldnames)]
  }

  /** Every record on a line of its own, the last one included. */
  function Document(records: seq<seq<Text>>, terminator: Text, delimiter: Unit): Text {
    if records == [] then []
    else Line(records[0], delimiter) + terminator + Document(records[1..], terminator, delimiter)
  }

  function JoinLines(lines: seq<Text>, terminator: Text): Text {
    if lines == [] then []
    else if |lines| == 1 then lines[0]
    else lines[0] + terminator + JoinLines(lines[1..], terminator)
  }

  function Lines(records: seq<seq<Text>>, delimiter: Unit): (r: seq<Text>)
    ensures |r| == |records|
  {
    if records == [] then [] else Lines(records[..|records| - 1], delimiter) + [Line(records[|records| - 1], delimiter)]
  }

  lemma {:induction false} LinesFromFront(records: seq<seq<Text>>, delimiter: Unit)
    requires records != []
    ensures Lines(records, delimiter) == [Line(records[0], delimiter)] + Lines(records[1..], delimiter)
  {
    if |records| > 1 {
      LinesFromFront(records[..|records| - 1], delimiter);
      assert records[..|records| - 1][1..] == records[1..][..|records| - 2];
    }
  }

  lemma {:induction false} JoinedLines(records: seq<seq<Text>>, terminator: Text, delimiter: Unit)
    requires records != []
    ensures JoinLines(Lines(records, delimiter), terminator) + terminator == Document(records, terminator, delimiter)
  {
    hide Line;
    LinesFromFront(records, delimiter);
    var lines := Lines(records, delimiter);
    hide Lines;
    if |records| == 1 {
      assert lines[0] + terminator == Line(records[0], delimiter) + terminator + [];
    } else {
      JoinedLines(records[1..], terminator, delimiter);
      assert lines[1..] == Lines(records[1..], delimiter);
      var j := JoinLines(lines[1..], terminator);
      assert lines[0] + terminator + j + terminator == lines[0] + terminator + (j + terminator);
    }
  }

  method BuildCsv(fieldnames: seq<Text>, rows: seq<Row>, terminator: Text, delimiter: Unit) returns (text: Text)
    ensures text == Document(Table(fieldnames, rows), terminator, delimiter)
  {
    hide Line, Cells;
    var lines := [Line(fieldnames, delimiter)];
    OneLine(fieldnames, delimiter);
    for i := 0 to |rows|
      invariant lines == Lines(Table(fieldnames, rows[..i]), delimiter)
    {
      TableStep(fieldnames, rows, i, delimiter);
      lines := lines + [Line(Cells(rows[i], fieldnames), delimiter)];
    }
    assert rows[..|rows|] == rows;
    JoinedLines(Table(fieldnames, rows), terminator, delimiter);
    text := JoinLines(lines, terminator) + terminator;
  }

  lemma OneLine(fieldnames: seq<Text>, delimiter: Unit)
    ensures Lines(Table(fieldnames, []), delimiter) == [Line(fieldnames, delimiter)]
  {
    hide Line;
    assert Lines([fieldnames], delimiter) == Lines([], delimiter) + [Line(fieldnames, delimiter)];
  }

  lemma TableStep(fieldnames: seq<Text>, rows: seq<Row>, i: nat, delimiter: Unit)
    requires i < |rows|
    ensures Table(fieldnames, rows[..i + 1]) == Table(fieldnames, rows[..i]) + [Cells(rows[i], fieldnames)]
    ensures Lines(Table(fieldnames, rows[..i + 1]), delimiter)
         == Lines(Table(fieldnames, rows[..i]), delimiter) + [Line(Cells(rows[i], fieldnames), delimiter)]
  {
    hide Line, Cells;
    assert rows[..i + 1][..i] == rows[..i];
    var table := Table(fieldnames, rows[..i]);
    assert (table + [Cells(rows[i], fieldnames)])[..|table|] == table;
  }

  // The reader.

  /** What the reader carries from character to character. */
  datatype Reader = Reader(records: seq<seq<Text>>, record: seq<Text>, field: Text, inQuotes: bool)
  {
    function Append(u: Unit): Reader { this.(field := field + [u]) }
    function EndField(): Reader { this.(record := record + [field], field := []) }
    function EndRecord(): Reader { Reader(records + [record + [field]], [], [], inQuotes) }
  }

  /** One pass of the loop in front of `t`, and how many characters it uses up. */
  function Step(r: Reader, t: Text, delimiter: Unit): (Reader, nat)
    requires t != []
  {
    var c := t[0];
    if r.inQuotes then
      if c != QUOTE then (r.Append(c), 1)
      else if |t| > 1 && t[1] == QUOTE then (r.Append(QUOTE), 2)
      else (r.(inQuotes := false), 1)
    else if c == QUOTE && r.field == [] then (r.(inQuotes := true), 1)
    else if c == delimiter then (r.EndField(), 1)
    else if c == RETURN && |t| > 1 && t[1] == NEWLINE then (r.EndRecord(), 2)
    else if c == NEWLINE then (r.EndRecord(), 1)
    else (r.Append(c), 1)
  }

  function Read(r: Reader, t: Text, delimiter: Unit): Reader
    decreases |t|
  {
    if t == [] then r else var (next, used) := Step(r, t, delimiter); Read(next, t[used..], delimiter)
  }

  /** A trailing terminator opens no record; a record that is one empty cell is dropped. */
  function Records(r: Reader): seq<seq<Text>> {
    Kept(if r.field != [] || |r.record| > 0 then r.EndRecord().records else r.records)
  }

  function Kept(records: seq<seq<Text>>): seq<seq<Text>> {
    if records == [] then []
    else Kept(records[..|records| - 1])
         + if records[|records| - 1] == [[]] then [] else [records[|records| - 1]]
  }

  function ReadRecords(text: Text, delimiter: Unit): seq<seq<Text>> {
    Records(Read(Reader([], [], [], false), text, delimiter))
  }

  method ParseCsvRecords(text: Text, delimiter: Unit) returns (kept: seq<seq<Text>>)
    ensures kept == ReadRecords(text, delimiter)
  {
    var records: seq<seq<Text>>, record: seq<Text>, field: Text, inQuotes := [], [], [], false;
    var index := 0;
    while index < |text|
      invariant index <= |text|
      invariant Read(Reader(records, record, field, inQuotes), text[index..], delimiter)
             == Read(Reader([], [], [], false), text, delimiter)
    {
      ReadStep(Reader(records, record, field, inQuotes), text, index, delimiter);
      var c := text[index];
      if inQuotes {
        if c == QUOTE {
          if index + 1 < |text| && text[index + 1] == QUOTE {
            field := field + [QUOTE];
            index := index + 2;
            continue;
          }
          inQuotes := false;
          index := index + 1;
          continue;
        }
        field := field + [c];
        index := index + 1;
        continue;
      }
      if c == QUOTE && field == [] {
        inQuotes := true;
        index := index + 1;
        continue;
      }
      if c == delimiter {
        record, field := record + [field], [];
        index := index + 1;
        continue;
      }
      if c == RETURN && index + 1 < |text| && text[index + 1] == NEWLINE {
        records, record, field := records + [record + [field]], [], [];
        index := index + 2;
        continue;
      }
      if c == NEWLINE {
        records, record, field := records + [record + [field]], [], [];
        index := index + 1;
        continue;
      }
      field := field + [c];
      index := index + 1;
    }
    if field != [] || |record| > 0 {
      records := records + [record + [field]];
    }
    kept := [];
    for i := 0 to |records|
      invariant kept == Kept(records[..i])
    {
      assert records[..i + 1][..i] == records[..i];
      if records[i] != [[]] {
        kept := kept + [records[i]];
      }
    }
    assert records[..|records|] == records;
  }

  lemma ReadStep(r: Reader, text: Text, index: nat, delimiter: Unit)
    requires index < |text|
    ensures var (next, used) := Step(r, text[index..], delimiter);
            && index + used <= |text|
            && Read(r, text[index..], delimiter) == Read(next, text[index + used..], delimiter)
    ensures text[index..][0] == text[index] && (index + 1 < |text| ==> text[index..][1] == text[index + 1])
  {
    var (next, used) := Step(r, text[index..], delimiter);
    assert text[index..][used..] == text[index + used..];
  }

  // Reading back what was written.

  ghost predicate Plain(value: Text, delimiter: Unit) { !NeedsQuotes(value, delimiter) }

  ghost predicate IsTerminator(t: Text) { t == [NEWLINE] || t == [RETURN, NEWLINE] }

  ghost predicate IsDelimiter(u: Unit) { u != QUOTE && u != RETURN && u != NEWLINE }

  /** A delimiter or a terminator stands here. */
  ghost predicate FieldEnds(t: Text, delimiter: Unit) {
    t != [] && (t[0] == delimiter || t[0] == NEWLINE || (t[0] == RETURN && |t| > 1 && t[1] == NEWLINE))
  }

  lemma {:induction false} PlainReads(r: Reader, value: Text, rest: Text, delimiter: Unit)
    requires Plain(value, delimiter) && !r.inQuotes
    ensures Read(r, value + rest, delimiter) == Read(r.(field := r.field + value), rest, delimiter)
    decreases |value|
  {
    if value == [] {
      assert value + rest == rest && r.field + value == r.field;
    } else {
      PlainStep(r, value, rest, delimiter);
      PlainReads(r.Append(value[0]), value[1..], rest, delimiter);
      hide Read;
      assert r.field + [value[0]] + value[1..] == r.field + value;
    }
  }

  lemma PlainStep(r: Reader, value: Text, rest: Text, delimiter: Unit)
    requires Plain(value, delimiter) && !r.inQuotes && value != []
    ensures Read(r, value + rest, delimiter) == Read(r.Append(value[0]), value[1..] + rest, delimiter)
    ensures Plain(value[1..], delimiter)
  {
    var t := value + rest;
    assert t[0] == value[0] && value[0] in value;
    assert t[1..] == value[1..] + rest;
    assert forall u :: u in value[1..] ==> u in value;
  }

  /** Inside quotes every character is taken as it is, a doubled quote as one. */
  lemma {:induction false} QuotedReads(r: Reader, value: Text, rest: Text, delimiter: Unit)
    requires r.inQuotes
    ensures Read(r, DoubleQuotes(value) + rest, delimiter) == Read(r.(field := r.field + value), rest, delimiter)
    decreases |value|
  {
    if value == [] {
      assert DoubleQuotes(value) + rest == rest && r.field + value == r.field;
    } else {
      QuotedStep(r, value, rest, delimiter);
      QuotedReads(r.Append(value[0]), value[1..], rest, delimiter);
      hide Read;
      assert r.field + [value[0]] + value[1..] == r.field + value;
    }
  }

  lemma QuotedStep(r: Reader, value: Text, rest: Text, delimiter: Unit)
    requires r.inQuotes && value != []
    ensures Read(r, DoubleQuotes(value) + rest, delimiter)
         == Read(r.Append(value[0]), DoubleQuotes(value[1..]) + rest, delimiter)
  {
    var t, more := DoubleQuotes(value) + rest, DoubleQuotes(value[1..]) + rest;
    if value[0] == QUOTE {
      assert t == [QUOTE, QUOTE] + more && t[2..] == more;
    } else {
      assert t == [value[0]] + more && t[1..] == more;
    }
    hide DoubleQuotes;
  }

  /** A field may also stand without quotes if it holds no delimiter and no line feed, does not begin with a quote, and
      does not end with a carriage return in front of a line feed; quotes and carriage returns in it are taken as they
      are. */
  ghost predicate StandsRaw(value: Text, rest: Text, delimiter: Unit) {
    && delimiter !in value && NEWLINE !in value
    && (value != [] && value[|value| - 1] == RETURN ==> rest == [] || rest[0] != NEWLINE)
  }

  lemma {:induction false} RawReads(r: Reader, value: Text, rest: Text, delimiter: Unit)
    requires !r.inQuotes && StandsRaw(value, rest, delimiter)
    requires r.field == [] && value != [] ==> value[0] != QUOTE
    ensures Read(r, value + rest, delimiter) == Read(r.(field := r.field + value), rest, delimiter)
    decreases |value|
  {
    if value == [] {
      assert value + rest == rest && r.field + value == r.field;
    } else {
      RawStep(r, value, rest, delimiter);
      RawReads(r.Append(value[0]), value[1..], rest, delimiter);
      hide Read;
      assert r.field + [value[0]] + value[1..] == r.field + value;
    }
  }

  lemma RawStep(r: Reader, value: Text, rest: Text, delimiter: Unit)
    requires !r.inQuotes && StandsRaw(value, rest, delimiter) && value != [] && (r.field == [] ==> value[0] != QUOTE)
    ensures Read(r, value + rest, delimiter) == Read(r.Append(value[0]), value[1..] + rest, delimiter)
    ensures StandsRaw(value[1..], rest, delimiter)
  {
    var t := value + rest;
    assert t[0] == value[0] && value[0] in value && t[1..] == value[1..] + rest;
    assert |value| > 1 ==> t[1] == value[1] && value[1] in value;
    assert |value| == 1 && rest != [] ==> t[1] == rest[0];
    assert forall u :: u in value[1..] ==> u in value;
    assert |value| > 1 ==> value[1..][|value| - 2] == value[|value| - 1];
  }

  /** A field is quoted exactly if it holds one of four characters, though some of these fields could stand raw. */
  lemma QuotedExactly(value: Text, delimiter: Unit)
    ensures QuoteField(value, delimiter) != value
       <==> exists i :: 0 <= i < |value| && value[i] in {delimiter, QUOTE, RETURN, NEWLINE}
    ensures QuoteField(value, delimiter) in {value, [QUOTE] + DoubleQuotes(value) + [QUOTE]}
  {
    if NeedsQuotes(value, delimiter) {
      DoublingGrows(value);
      assert |[QUOTE] + DoubleQuotes(value) + [QUOTE]| > |value|;
    }
    hide DoubleQuotes;
  }

  lemma {:induction false} DoublingGrows(value: Text)
    ensures |DoubleQuotes(value)| >= |value|
  {
    if value != [] {
      DoublingGrows(value[1..]);
    }
  }

  /** The last record needs no terminator. */
  lemma LastTerminatorIsOptional(text: Text, terminator: Text, delimiter: Unit)
    requires IsDelimiter(delimiter) && IsTerminator(terminator)
    requires var r := Read(Reader([], [], [], false), text, delimiter);
             !r.inQuotes && (r.field != [] || r.record != [])
    requires text != [] && text[|text| - 1] != RETURN
    ensures ReadRecords(text + terminator, delimiter) == ReadRecords(text, delimiter)
  {
    var start := Reader([], [], [], false);
    ReadInTurn(start, text, terminator, delimiter);
    var r := Read(start, text, delimiter);
    hide Read;
    TerminatorReads(r, terminator, [], delimiter);
    assert terminator + [] == terminator;
    NothingRead(r.EndRecord(), delimiter);
    hide Kept;
  }

  lemma NothingRead(r: Reader, delimiter: Unit)
    ensures Read(r, [], delimiter) == r
  {
  }

  /** Text is read in turn, unless a carriage return or a quote at the seam looks ahead. */
  lemma {:induction false} ReadInTurn(r: Reader, text: Text, more: Text, delimiter: Unit)
    requires more != [] ==> more[0] != QUOTE && (text == [] || text[|text| - 1] != RETURN || more[0] != NEWLINE)
    ensures Read(r, text + more, delimiter) == Read(Read(r, text, delimiter), more, delimiter)
    decreases |text|
  {
    if text == [] {
      assert text + more == more;
    } else {
      var (next, used) := Step(r, text, delimiter);
      SameStep(r, text, more, delimiter);
      assert (text + more)[used..] == text[used..] + more;
      assert text[used..] != [] ==> text[used..][|text[used..]| - 1] == text[|text| - 1];
      ReadInTurn(next, text[used..], more, delimiter);
      hide Step;
    }
  }

  lemma SameStep(r: Reader, text: Text, more: Text, delimiter: Unit)
    requires text != [] && (more != [] ==> more[0] != QUOTE && (text[|text| - 1] != RETURN || more[0] != NEWLINE))
    ensures Step(r, text + more, delimiter) == Step(r, text, delimiter)
    ensures 1 <= Step(r, text, delimiter).1 <= |text|
  {
    assert (text + more)[0] == text[0];
    assert |text| > 1 ==> (text + more)[1] == text[1];
    assert |text| == 1 && more != [] ==> (text + more)[1] == more[0];
  }

  /** A field, quoted or not, is read as its value. */
  lemma FieldReads(r: Reader, value: Text, rest: Text, delimiter: Unit)
    requires !r.inQuotes && r.field == [] && IsDelimiter(delimiter) && FieldEnds(rest, delimiter)
    ensures Read(r, QuoteField(value, delimiter) + rest, delimiter) == Read(r.(field := value), rest, delimiter)
  {
    hide Read, DoubleQuotes;
    if NeedsQuotes(value, delimiter) {
      var within, closing := r.(inQuotes := true), [QUOTE] + rest;
      OpenQuote(r, DoubleQuotes(value) + closing, delimiter);
      assert QuoteField(value, delimiter) + rest == [QUOTE] + (DoubleQuotes(value) + closing);
      QuotedReads(within, value, closing, delimiter);
      assert within.field + value == value;
      CloseQuote(within.(field := value), rest, delimiter);
    } else {
      PlainReads(r, value, rest, delimiter);
      assert r.field + value == value;
    }
  }

  lemma OpenQuote(r: Reader, t: Text, delimiter: Unit)
    requires !r.inQuotes && r.field == []
    ensures Read(r, [QUOTE] + t, delimiter) == Read(r.(inQuotes := true), t, delimiter)
  {
    assert ([QUOTE] + t)[1..] == t;
  }

  lemma CloseQuote(r: Reader, rest: Text, delimiter: Unit)
    requires r.inQuotes && IsDelimiter(delimiter) && FieldEnds(rest, delimiter)
    ensures Read(r, [QUOTE] + rest, delimiter) == Read(r.(inQuotes := false), rest, delimiter)
  {
    assert ([QUOTE] + rest)[1..] == rest;
  }

  lemma DelimiterReads(r: Reader, rest: Text, delimiter: Unit)
    requires !r.inQuotes && IsDelimiter(delimiter)
    ensures Read(r, [delimiter] + rest, delimiter) == Read(r.EndField(), rest, delimiter)
  {
    assert ([delimiter] + rest)[1..] == rest;
  }

  lemma TerminatorReads(r: Reader, terminator: Text, rest: Text, delimiter: Unit)
    requires !r.inQuotes && IsDelimiter(delimiter) && IsTerminator(terminator)
    ensures Read(r, terminator + rest, delimiter) == Read(r.EndRecord(), rest, delimiter)
    ensures FieldEnds(terminator + rest, delimiter)
  {
    assert (terminator + rest)[|terminator|..] == rest;
  }

  /** The record a line stands for: no cells make one empty field. */
  function RecordOf(cells: seq<Text>): seq<Text> { if cells == [] then [[]] else cells }

  lemma {:induction false} LineReads(r: Reader, cells: seq<Text>, terminator: Text, rest: Text, delimiter: Unit)
    requires !r.inQuotes && r.field == [] && IsDelimiter(delimiter) && IsTerminator(terminator)
    ensures Read(r, Line(cells, delimiter) + terminator + rest, delimiter)
         == Read(Reader(r.records + [r.record + RecordOf(cells)], [], [], false), rest, delimiter)
    decreases |cells|
  {
    hide Read, QuoteField, IsDelimiter, IsTerminator, FieldEnds;
    var end := terminator + rest;
    TerminatorReads(r, terminator, rest, delimiter);
    if cells == [] {
      assert Line(cells, delimiter) + terminator + rest == end;
    } else if |cells| == 1 {
      assert Line(cells, delimiter) + terminator + rest == QuoteField(cells[0], delimiter) + end;
      FieldReads(r, cells[0], end, delimiter);
      TerminatorReads(r.(field := cells[0]), terminator, rest, delimiter);
      assert cells == [cells[0]];
    } else {
      var more := Line(cells[1..], delimiter) + terminator + rest;
      assert Line(cells, delimiter) + terminator + rest == QuoteField(cells[0], delimiter) + ([delimiter] + more);
      DelimiterEnds(more, delimiter);
      FieldReads(r, cells[0], [delimiter] + more, delimiter);
      DelimiterReads(r.(field := cells[0]), more, delimiter);
      LineReads(r.(record := r.record + [cells[0]]), cells[1..], terminator, rest, delimiter);
      assert r.record + [cells[0]] + RecordOf(cells[1..]) == r.record + cells;
    }
  }

  lemma DelimiterEnds(t: Text, delimiter: Unit)
    ensures FieldEnds([delimiter] + t, delimiter)
  {
  }

  function RecordsOf(lines: seq<seq<Text>>): seq<seq<Text>> {
    if lines == [] then [] else [RecordOf(lines[0])] + RecordsOf(lines[1..])
  }

  lemma {:induction false} DocumentReads(done: seq<seq<Text>>, lines: seq<seq<Text>>, terminator: Text, delimiter: Unit)
    requires IsDelimiter(delimiter) && IsTerminator(terminator)
    ensures Read(Reader(done, [], [], false), Document(lines, terminator, delimiter), delimiter)
         == Reader(done + RecordsOf(lines), [], [], false)
    decreases |lines|
  {
    hide Line, RecordOf, IsDelimiter, IsTerminator;
    if lines == [] {
      assert done + [] == done;
    } else {
      var rest := Document(lines[1..], terminator, delimiter);
      hide Read;
      LineReads(Reader(done, [], [], false), lines[0], terminator, rest, delimiter);
      assert [] + RecordOf(lines[0]) == RecordOf(lines[0]);
      DocumentReads(done + [RecordOf(lines[0])], lines[1..], terminator, delimiter);
      assert done + [RecordOf(lines[0])] + RecordsOf(lines[1..]) == done + RecordsOf(lines);
    }
  }

  /** Every document reads back as its records, less those that are a single empty cell. */
  lemma RecordsReadBack(lines: seq<seq<Text>>, terminator: Text, delimiter: Unit)
    requires IsDelimiter(delimiter) && IsTerminator(terminator)
    ensures ReadRecords(Document(lines, terminator, delimiter), delimiter) == Kept(RecordsOf(lines))
  {
    DocumentReads([], lines, terminator, delimiter);
    hide Read, Document, RecordsOf;
    assert [] + RecordsOf(lines) == RecordsOf(lines);
  }

  // Rows as objects.

  /** `header.forEach`: a repeated name keeps its last cell, a missing cell is empty. */
  function RowFrom(header: seq<Text>, cells: seq<Text>): Row {
    if header == [] then map[]
    else
      var k := |header| - 1;
      RowFrom(header[..k], cells)[header[k] := if k < |cells| then cells[k] else []]
  }

  /** A row has the columns of the header; each holds the cell in the last place of its name, if there is one. */
  lemma {:induction false} RowFromExactly(header: seq<Text>, cells: seq<Text>, name: Text)
    ensures name in RowFrom(header, cells) <==> name in header
    ensures forall k :: 0 <= k < |header| && header[k] == name && name !in header[k + 1..] ==>
              RowFrom(header, cells)[name] == if k < |cells| then cells[k] else []
  {
    if header != [] {
      var n := |header| - 1;
      var front := header[..n];
      RowFromExactly(front, cells, name);
      assert header == front + [header[n]];
      forall k | 0 <= k < n && header[k] == name && name !in header[k + 1..]
        ensures front[k] == name && name !in front[k + 1..] && header[n] != name
      {
        LastPlace(header, k, name);
      }
    }
  }

  lemma LastPlace(header: seq<Text>, k: nat, name: Text)
    requires k < |header| - 1 && header[k] == name && name !in header[k + 1..]
    ensures var n := |header| - 1; header[..n][k] == name && name !in header[..n][k + 1..] && header[n] != name
  {
    var n := |header| - 1;
    assert header[k + 1..] == header[..n][k + 1..] + [header[n]];
    assert header[n] in header[k + 1..];
  }

  /** Every record after the header becomes a row. */
  lemma {:induction false} RowsFromExactly(header: seq<Text>, records: seq<seq<Text>>)
    ensures forall i :: 0 <= i < |records| ==> RowsFrom(header, records)[i] == RowFrom(header, records[i])
  {
    hide RowFrom;
    if records != [] {
      RowsFromExactly(header, records[..|records| - 1]);
    }
  }

  function RowsFrom(header: seq<Text>, records: seq<seq<Text>>): (r: seq<Row>)
    ensures |r| == |records|
  {
    if records == [] then []
    else RowsFrom(header, records[..|records| - 1]) + [RowFrom(header, records[|records| - 1])]
  }

  function Parsed(text: Text, delimiter: Unit): seq<Row> {
    var records := ReadRecords(text, delimiter);
    if records == [] then [] else RowsFrom(records[0], records[1..])
  }

  method ParseCsv(text: Text, delimiter: Unit) returns (rows: seq<Row>)
    ensures rows == Parsed(text, delimiter)
  {
    hide ReadRecords;
    var records := ParseCsvRecords(text, delimiter);
    if |records| == 0 {
      return [];
    }
    var header, cells := records[0], records[1..];
    rows := [];
    for i := 0 to |cells|
      invariant rows == RowsFrom(header, cells[..i])
    {
      assert cells[..i + 1][..i] == cells[..i];
      var row: Row := map[];
      for k := 0 to |header|
        invariant row == RowFrom(header[..k], cells[i])
      {
        assert header[..k + 1][..k] == header[..k];
        row := row[header[k] := if k < |cells[i]| then cells[i][k] else []];
      }
      assert header[..|header|] == header;
      rows := rows + [row];
    }
    assert cells[..|cells|] == cells;
  }

  /** The columns of a row that are written, missing ones as empty text. */
  function Written(row: Row, fieldnames: seq<Text>): Row {
    map name | name in fieldnames :: Cell(row, name)
  }

  /** What is written of a row: its cells in the columns of the table, empty where it has none. */
  lemma WrittenExactly(row: Row, fieldnames: seq<Text>, name: Text)
    ensures name in Written(row, fieldnames) <==> name in fieldnames
    ensures name in fieldnames ==> Written(row, fieldnames)[name] == if name in row then row[name] else []
  {
  }

  function AllWritten(rows: seq<Row>, fieldnames: seq<Text>): seq<Row> {
    seq(|rows|, i requires 0 <= i < |rows| => Written(rows[i], fieldnames))
  }

  lemma {:induction false} RowReadsBack(row: Row, fieldnames: seq<Text>, k: nat)
    requires k <= |fieldnames|
    ensures RowFrom(fieldnames[..k], Cells(row, fieldnames)) == Written(row, fieldnames[..k])
  {
    hide Cell;
    if k > 0 {
      RowReadsBack(row, fieldnames, k - 1);
      assert fieldnames[..k][..k - 1] == fieldnames[..k - 1];
      assert fieldnames[..k] == fieldnames[..k - 1] + [fieldnames[k - 1]];
    }
  }

  lemma {:induction false} TableAt(fieldnames: seq<Text>, rows: seq<Row>, i: nat)
    requires i <= |rows|
    ensures Table(fieldnames, rows)[i] == if i == 0 then fieldnames else Cells(rows[i - 1], fieldnames)
  {
    hide Cells;
    if rows != [] && i < |rows| {
      TableAt(fieldnames, rows[..|rows| - 1], i);
    }
  }

  lemma {:induction false} RecordsAt(lines: seq<seq<Text>>, i: nat)
    requires i < |lines|
    ensures |RecordsOf(lines)| == |lines| && RecordsOf(lines)[i] == RecordOf(lines[i])
  {
    hide RecordOf;
    if i > 0 {
      RecordsAt(lines[1..], i - 1);
    } else if |lines| > 1 {
      RecordsAt(lines[1..], 0);
    }
  }

  lemma {:induction false} KeepsAll(records: seq<seq<Text>>)
    requires forall i :: 0 <= i < |records| ==> records[i] != [[]]
    ensures Kept(records) == records
  {
    if records != [] {
      KeepsAll(records[..|records| - 1]);
    }
  }

  lemma {:induction false} KeepsFewer(records: seq<seq<Text>>, i: nat)
    requires i < |records| && records[i] == [[]]
    ensures |Kept(records)| < |records|
  {
    var k := |records| - 1;
    if i < k {
      KeepsFewer(records[..k], i);
    } else {
      KeepsNoMore(records[..k]);
    }
  }

  lemma {:induction false} KeepsNoMore(records: seq<seq<Text>>)
    ensures |Kept(records)| <= |records|
  {
    if records != [] {
      KeepsNoMore(records[..|records| - 1]);
    }
  }

  /** Nothing written is a record of one empty cell: checked on the column names and, with one column, its cells. */
  ghost predicate Faithful(fieldnames: seq<Text>, rows: seq<Row>) {
    || rows == []
    || |fieldnames| > 1
    || (|fieldnames| == 1 && fieldnames[0] != [] && forall i :: 0 <= i < |rows| ==> Cell(rows[i], fieldnames[0]) != [])
  }

  lemma RecordAt(fieldnames: seq<Text>, rows: seq<Row>, i: nat)
    requires i <= |rows|
    ensures var records := RecordsOf(Table(fieldnames, rows));
            && |records| == |rows| + 1
            && records[i] == RecordOf(if i == 0 then fieldnames else Cells(rows[i - 1], fieldnames))
  {
    hide Cells, RecordOf, Table;
    TableAt(fieldnames, rows, i);
    RecordsAt(Table(fieldnames, rows), i);
  }

  lemma FaithfulIsKept(fieldnames: seq<Text>, rows: seq<Row>)
    requires Faithful(fieldnames, rows) && rows != []
    ensures Kept(RecordsOf(Table(fieldnames, rows))) == Table(fieldnames, rows)
  {
    var table := Table(fieldnames, rows);
    var records := RecordsOf(table);
    RecordAt(fieldnames, rows, 0);
    forall i | 0 <= i < |records| ensures records[i] == table[i] && records[i] != [[]] {
      RecordAt(fieldnames, rows, i);
      TableAt(fieldnames, rows, i);
      hide Table, RecordsOf, Kept;
    }
    hide Table, RecordsOf, Cells, Kept;
    KeepsAll(records);
    assert records == table;
  }

  lemma UnfaithfulIsShort(fieldnames: seq<Text>, rows: seq<Row>)
    requires !Faithful(fieldnames, rows)
    ensures |Kept(RecordsOf(Table(fieldnames, rows)))| <= |rows|
  {
    hide Table, RecordsOf, Kept;
    var i: nat := 0;
    if |fieldnames| == 1 && fieldnames[0] != [] {
      var k :| 0 <= k < |rows| && Cell(rows[k], fieldnames[0]) == [];
      i := k + 1;
    }
    RecordAt(fieldnames, rows, i);
    KeepsFewer(RecordsOf(Table(fieldnames, rows)), i);
  }

  lemma {:induction false} TableRows(fieldnames: seq<Text>, rows: seq<Row>)
    ensures Table(fieldnames, rows)[0] == fieldnames
    ensures RowsFrom(fieldnames, Table(fieldnames, rows)[1..]) == AllWritten(rows, fieldnames)
  {
    if rows != [] {
      var k := |rows| - 1;
      TableRows(fieldnames, rows[..k]);
      var table := Table(fieldnames, rows[..k]);
      assert Table(fieldnames, rows)[1..] == table[1..] + [Cells(rows[k], fieldnames)];
      RowReadsBack(rows[k], fieldnames, |fieldnames|);
      assert fieldnames[..|fieldnames|] == fieldnames;
      hide Table, Cells, RowFrom, Written;
      assert (table[1..] + [Cells(rows[k], fieldnames)])[..k] == table[1..];
    }
  }

  /** Parsing what was built gives back the written columns, exactly when no record is one empty cell. */
  lemma RoundTripExactly(fieldnames: seq<Text>, rows: seq<Row>, terminator: Text, delimiter: Unit)
    requires IsDelimiter(delimiter) && IsTerminator(terminator)
    ensures Parsed(Document(Table(fieldnames, rows), terminator, delimiter), delimiter) == AllWritten(rows, fieldnames)
       <==> Faithful(fieldnames, rows)
  {
    RecordsReadBack(Table(fieldnames, rows), terminator, delimiter);
    hide ReadRecords, Document;
    if rows == [] {
      RecordAt(fieldnames, rows, 0);
      OneRecord(RecordsOf(Table(fieldnames, rows)));
    } else if Faithful(fieldnames, rows) {
      FaithfulIsKept(fieldnames, rows);
      TableRows(fieldnames, rows);
    } else {
      UnfaithfulIsShort(fieldnames, rows);
    }
  }

  lemma OneRecord(records: seq<seq<Text>>)
    requires |records| == 1
    ensures |Kept(records)| <= 1
  {
    KeepsNoMore(records);
  }

  // Writing a table and comparing it with the previous one.

  datatype Status =
    | Created
    | RowCountChanged(before: nat, after: nat)
    | Identical
    | RowsChanged(changed: nat)

  /** `before[key] !== after[key]` for some column. */
  predicate Differs(before: Row, after: Row, fieldnames: seq<Text>) {
    exists name <- fieldnames :: (name in before) != (name in after) || (name in before && before[name] != after[name])
  }

  function Changed(previous: seq<Row>, current: seq<Row>, fieldnames: seq<Text>, n: nat): nat
    requires n <= |previous| && |previous| == |current|
  {
    if n == 0 then 0
    else Changed(previous, current, fieldnames, n - 1)
         + if Differs(previous[n - 1], current[n - 1], fieldnames) then 1 else 0
  }

  function Report(previous: seq<Row>, current: seq<Row>, fieldnames: seq<Text>): Status {
    if |previous| != |current| then RowCountChanged(|previous|, |current|)
    else
      var changed := Changed(previous, current, fieldnames, |previous|);
      if changed == 0 then Identical else RowsChanged(changed)
  }

  class KpiFile {
    var content: Option<Text>

    /** `current` are the rendered rows; their columns are the keys of the first one. */
    method WriteAndVerifyCsv(fieldnames: seq<Text>, current: seq<Row>) returns (status: Status)
      requires current != []
      modifies this
      ensures content == Some(Document(Table(fieldnames, current), [NEWLINE], COMMA))
      ensures status == if old(content).None? then Created
                        else Report(Parsed(old(content).value, COMMA), current, fieldnames)
    {
      var previous: Option<seq<Row>> := None;
      if content.Some? {
        var rows := ParseCsv(content.value, COMMA);
        previous := Some(rows);
      }
      var text := BuildCsv(fieldnames, current, [NEWLINE], COMMA);
      content := Some(text);
      if previous.None? {
        return Created;
      }
      if |previous.value| != |current| {
        return RowCountChanged(|previous.value|, |current|);
      }
      var changed := 0;
      for i := 0 to |previous.value|
        invariant changed == Changed(previous.value, current, fieldnames, i)
      {
        if Differs(previous.value[i], current[i], fieldnames) {
          changed := changed + 1;
        }
      }
      return if changed == 0 then Identical else RowsChanged(changed);
    }
  }

  /** The rows have exactly the columns of the table. */
  ghost predicate Rendered(rows: seq<Row>, fieldnames: seq<Text>) {
    forall i :: 0 <= i < |rows| ==> forall name :: name in rows[i] <==> name in fieldnames
  }

  lemma {:induction false} NothingChanged(previous: seq<Row>, current: seq<Row>, fieldnames: seq<Text>, n: nat)
    requires n <= |previous| && |previous| == |current|
    requires Rendered(previous, fieldnames) && Rendered(current, fieldnames)
    ensures Changed(previous, current, fieldnames, n) == 0 <==> previous[..n] == current[..n]
  {
    hide Differs, Rendered;
    if n > 0 {
      NothingChanged(previous, current, fieldnames, n - 1);
      assert previous[..n] == previous[..n - 1] + [previous[n - 1]];
      assert current[..n] == current[..n - 1] + [current[n - 1]];
      SameRenderedRow(previous, current, fieldnames, n - 1);
    }
  }

  lemma SameRenderedRow(previous: seq<Row>, current: seq<Row>, fieldnames: seq<Text>, i: nat)
    requires i < |previous| && |previous| == |current|
    requires Rendered(previous, fieldnames) && Rendered(current, fieldnames)
    ensures Differs(previous[i], current[i], fieldnames) <==> previous[i] != current[i]
  {
    SameRow(previous[i], current[i], fieldnames);
  }

  lemma SameRow(before: Row, after: Row, fieldnames: seq<Text>)
    requires forall name :: name in before <==> name in fieldnames
    requires forall name :: name in after <==> name in fieldnames
    ensures Differs(before, after, fieldnames) <==> before != after
  {
    if !Differs(before, after, fieldnames) {
      forall name | name in before ensures name in after && before[name] == after[name] {
        assert name in fieldnames;
      }
      assert before.Keys == after.Keys;
    }
  }

  lemma WrittenIsRendered(rows: seq<Row>, fieldnames: seq<Text>)
    requires Rendered(rows, fieldnames)
    ensures AllWritten(rows, fieldnames) == rows
  {
    forall i | 0 <= i < |rows| ensures Written(rows[i], fieldnames) == rows[i] {
      assert Written(rows[i], fieldnames).Keys == rows[i].Keys;
    }
  }

  /** A row lacks a column or has a cell in it. */
  function CellIn(row: Row, name: Text): Option<Text> { if name in row then Some(row[name]) else None }

  lemma {:induction false} ChangedNone(previous: seq<Row>, current: seq<Row>, fieldnames: seq<Text>, n: nat)
    requires n <= |previous| && |previous| == |current|
    ensures Changed(previous, current, fieldnames, n) == 0
       <==> forall i, name :: 0 <= i < n && name in fieldnames ==> CellIn(previous[i], name) == CellIn(current[i], name)
  {
    if n > 0 {
      ChangedNone(previous, current, fieldnames, n - 1);
    }
  }

  /** Whatever the old text is, "identical" is reported exactly if it has as many rows, with the same cell in every
      column that is written; columns of its own do not matter. */
  lemma IdenticalExactly(text: Text, fieldnames: seq<Text>, current: seq<Row>)
    ensures var previous := Parsed(text, COMMA);
            Report(previous, current, fieldnames).Identical?
            <==> |previous| == |current|
                 && forall i, name :: 0 <= i < |previous| && name in fieldnames ==>
                                        CellIn(previous[i], name) == CellIn(current[i], name)
  {
    hide Parsed;
    var previous := Parsed(text, COMMA);
    if |previous| == |current| {
      ChangedNone(previous, current, fieldnames, |previous|);
    }
  }

  ghost function RowsThatDiffer(previous: seq<Row>, current: seq<Row>, fieldnames: seq<Text>, n: nat): set<nat>
    requires n <= |previous| && |previous| == |current|
  {
    set i: nat | i < n && DiffersAt(previous, current, fieldnames, i)
  }

  ghost predicate DiffersAt(previous: seq<Row>, current: seq<Row>, fieldnames: seq<Text>, i: nat) {
    i < |previous| && i < |current| && RowDiffers(previous[i], current[i], fieldnames)
  }

  lemma OneMoreRow(previous: seq<Row>, current: seq<Row>, fieldnames: seq<Text>, n: nat)
    requires n < |previous| && |previous| == |current|
    ensures |RowsThatDiffer(previous, current, fieldnames, n + 1)|
            == |RowsThatDiffer(previous, current, fieldnames, n)|
               + if RowDiffers(previous[n], current[n], fieldnames) then 1 else 0
  {
    assert DiffersAt(previous, current, fieldnames, n) == RowDiffers(previous[n], current[n], fieldnames);
    hide RowDiffers, DiffersAt;
    var before := RowsThatDiffer(previous, current, fieldnames, n);
    var all := RowsThatDiffer(previous, current, fieldnames, n + 1);
    assert n !in before;
    if DiffersAt(previous, current, fieldnames, n) {
      assert all == before + {n};
    } else {
      assert all == before;
    }
  }

  /** The number of changed rows is that of the rows with another cell in some written column. */
  lemma {:induction false} ChangedExactly(previous: seq<Row>, current: seq<Row>, fieldnames: seq<Text>, n: nat)
    requires n <= |previous| && |previous| == |current|
    ensures Changed(previous, current, fieldnames, n) == |RowsThatDiffer(previous, current, fieldnames, n)|
  {
    hide RowDiffers, Differs;
    if n > 0 {
      ChangedExactly(previous, current, fieldnames, n - 1);
      DiffersExactly(previous[n - 1], current[n - 1], fieldnames);
      OneMoreRow(previous, current, fieldnames, n - 1);
      hide RowsThatDiffer;
    }
  }

  ghost predicate RowDiffers(before: Row, after: Row, fieldnames: seq<Text>) {
    exists name :: name in fieldnames && CellIn(before, name) != CellIn(after, name)
  }

  lemma DiffersExactly(before: Row, after: Row, fieldnames: seq<Text>)
    ensures Differs(before, after, fieldnames) <==> RowDiffers(before, after, fieldnames)
  {
  }

  /** The report: another number of rows, before and after; otherwise whether and how many rows differ. */
  lemma ReportExactly(previous: seq<Row>, current: seq<Row>, fieldnames: seq<Text>)
    ensures Report(previous, current, fieldnames)
            == if |previous| != |current| then RowCountChanged(|previous|, |current|)
               else
                 var changed := |RowsThatDiffer(previous, current, fieldnames, |previous|)|;
                 if changed == 0 then Identical else RowsChanged(changed)
  {
    hide RowsThatDiffer, Changed;
    if |previous| == |current| {
      ChangedExactly(previous, current, fieldnames, |previous|);
    }
  }

  /** The report on a table written before says "identical" exactly if the table is the same. */
  lemma IdenticalExactlyWhenEqual(fieldnames: seq<Text>, earlier: seq<Row>, current: seq<Row>)
    requires Rendered(earlier, fieldnames) && Rendered(current, fieldnames) && Faithful(fieldnames, earlier)
    ensures var text := Document(Table(fieldnames, earlier), [NEWLINE], COMMA);
            Report(Parsed(text, COMMA), current, fieldnames).Identical? <==> earlier == current
  {
    RoundTripExactly(fieldnames, earlier, [NEWLINE], COMMA);
    WrittenIsRendered(earlier, fieldnames);
    hide Parsed, Document, Table, Rendered, Faithful;
    if |earlier| == |current| {
      NothingChanged(earlier, current, fieldnames, |earlier|);
      assert earlier[..|earlier|] == earlier && current[..|current|] == current;
    }
  }

  /** Writing one table twice is reported as identical, exactly if the table is a faithful one. */
  lemma SecondWriteIsIdentical(fieldnames: seq<Text>, rows: seq<Row>)
    requires Rendered(rows, fieldnames) && rows != []
    ensures Report(Parsed(Document(Table(fieldnames, rows), [NEWLINE], COMMA), COMMA), rows, fieldnames).Identical?
       <==> Faithful(fieldnames, rows)
  {
    if Faithful(fieldnames, rows) {
      IdenticalExactlyWhenEqual(fieldnames, rows, rows);
    } else {
      RecordsReadBack(Table(fieldnames, rows), [NEWLINE], COMMA);
      UnfaithfulIsShort(fieldnames, rows);
    }
  }
}
