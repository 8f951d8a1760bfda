/** The CSV automaton of the tag import, and the encoder it inverts. */
module Csv {
  import opened Text

  datatype CsvRow = CsvRow(line: nat, cells: seq<string>)

  /** Everything the character loop carries. */
  datatype State = State(
    out: seq<CsvRow>, cells: seq<string>, field: string, quoted: bool, line: nat, rowLine: nat, dirty: bool)

  const START := State([], [], "", false, 1, 1, false)

  function EndField(s: State): State {
    s.(cells := s.cells + [s.field], field := "")
  }

  predicate AllBlank(cells: seq<string>) {
    forall i :: 0 <= i < |cells| ==> Trim(cells[i]) == ""
  }

  function EndRow(s: State): State {
    var t := EndField(s);
    var out := if t.dirty || !AllBlank(t.cells) then t.out + [CsvRow(t.rowLine, t.cells)] else t.out;
    State(out, [], "", t.quoted, t.line, t.line, false)
  }

  /** The loop over the rest of the text. */
  function Scan(src: string, s: State): State
    decreases |src|
  {
    if src == "" then s
    else
      var ch := src[0];
      if s.quoted then
        if ch == '"' then
          if |src| > 1 && src[1] == '"' then Scan(src[2..], s.(field := s.field + "\""))
          else Scan(src[1..], s.(quoted := false))
        else if ch == '\n' then Scan(src[1..], s.(line := s.line + 1, field := s.field + [ch]))
        else Scan(src[1..], s.(field := s.field + [ch]))
      else if ch == '"' then Scan(src[1..], s.(quoted := true, dirty := true))
      else if ch == ',' then Scan(src[1..], EndField(s))
      else if ch == '\r' then Scan(src[1..], s)
      else if ch == '\n' then Scan(src[1..], EndRow(s.(line := s.line + 1)))
      else Scan(src[1..], s.(field := s.field + [ch]))
  }

  function Finish(s: State): seq<CsvRow> {
    if s.field != "" || s.cells != [] || s.quoted then EndRow(s).out else s.out
  }

  const BOM: char := '\U{feff}'

  /** Strip a byte-order mark. */
  function Source(text: string): string {
    if text != "" && text[0] == BOM then text[1..] else text
  }

  function Rows(text: string): seq<CsvRow> {
    Finish(Scan(Source(text), START))
  }

  method ParseCsvRows(text: string) returns (out: seq<CsvRow>)
    ensures out == Rows(text)
  {
    var cells: seq<string> := [];
    var field, quoted, dirty := "", false, false;
    var line: nat, rowLine: nat := 1, 1;
    out := [];
    var src := if text != "" && text[0] == BOM then text[1..] else text;
    var i := 0;
    assert src[0..] == src;
    while i < |src|
      invariant 0 <= i <= |src|
      invariant Scan(src[i..], State(out, cells, field, quoted, line, rowLine, dirty)) == Scan(src, START)
    {
      Tails(src, i);
      var ch := src[i];
      if quoted {
        if ch == '"' {
          if i + 1 < |src| && src[i + 1] == '"' {
            field := field + "\"";
            i := i + 1;
          } else {
            quoted := false;
          }
        } else {
          if ch == '\n' {
            line := line + 1;
          }
          field := field + [ch];
        }
        i := i + 1;
        continue;
      }
      if ch == '"' {
        quoted, dirty := true, true;
      } else if ch == ',' {
        cells, field := cells + [field], "";
      } else if ch == '\r' {
      } else if ch == '\n' {
        line := line + 1;
        out, cells, field, dirty, rowLine := EmitRow(out, cells, field, dirty, rowLine), [], "", false, line;
      } else {
        field := field + [ch];
      }
      i := i + 1;
    }
    assert src[|src|..] == "";
    if field != "" || cells != [] || quoted {
      out := EmitRow(out, cells, field, dirty, rowLine);
    }
  }

  function EmitRow(out: seq<CsvRow>, cells: seq<string>, field: string, dirty: bool, rowLine: nat): seq<CsvRow> {
    if dirty || !AllBlank(cells + [field]) then out + [CsvRow(rowLine, cells + [field])] else out
  }

  lemma {:induction false} Tails(src: string, i: nat)
    requires i < |src|
    ensures src[i..][0] == src[i] && src[i..][1..] == src[i + 1..]
    ensures i + 1 < |src| ==> src[i..][1] == src[i + 1] && src[i..][2..] == src[i + 2..]
  {
  }

  // ----- the encoder of section 2 of RFC 4180

  /** A record's line break; section 2 lets the last record go without one. */
  datatype Ending = LF | CRLF | EndOfFile

  /** A field as the file writes it: between quotes, or bare. */
  datatype Field = Field(text: string, quoted: bool) {
    predicate Valid() {
      quoted || ('"' !in text && ',' !in text && '\r' !in text && '\n' !in text)
    }
  }

  datatype Record = Record(fields: seq<Field>, ending: Ending) {
    predicate Valid() {
      fields != [] && forall i :: 0 <= i < |fields| ==> fields[i].Valid()
    }

    /** A record of bare, blank fields is an empty line; quotes make even a blank one count. */
    predicate Shown() {
      AnyQuoted(fields) || !AllBlank(Texts(fields))
    }
  }

  ghost predicate ValidFile(records: seq<Record>) {
    && (forall k :: 0 <= k < |records| ==> records[k].Valid())
    && (forall k :: 0 <= k < |records| - 1 ==> records[k].ending != EndOfFile)
  }

  function Texts(fields: seq<Field>): seq<string> {
    seq(|fields|, i requires 0 <= i < |fields| => fields[i].text)
  }

  predicate AnyQuoted(fields: seq<Field>) {
    fields != [] && (fields[0].quoted || AnyQuoted(fields[1..]))
  }

  function Doubled(field: string): string {
    if field == "" then ""
    else (if field[0] == '"' then "\"\"" else [field[0]]) + Doubled(field[1..])
  }

  function EncodeField(field: Field): string {
    if field.quoted then "\"" + Doubled(field.text) + "\"" else field.text
  }

  function EncodeFields(fields: seq<Field>): string {
    if fields == [] then ""
    else if |fields| == 1 then EncodeField(fields[0])
    else EncodeField(fields[0]) + "," + EncodeFields(fields[1..])
  }

  function LineEnd(ending: Ending): string {
    match ending
    case LF => "\n"
    case CRLF => "\r\n"
    case EndOfFile => ""
  }

  function Encode(records: seq<Record>): string {
    if records == [] then ""
    else EncodeFields(records[0].fields) + LineEnd(records[0].ending) + Encode(records[1..])
  }

  function Newlines(s: string): nat {
    if s == "" then 0 else (if s[0] == '\n' then 1 else 0) + Newlines(s[1..])
  }

  function FieldNewlines(fields: seq<Field>): nat {
    if fields == [] then 0 else Newlines(fields[0].text) + FieldNewlines(fields[1..])
  }

  function RowAt(r: Record, line: nat): seq<CsvRow> {
    if r.Shown() then [CsvRow(line, Texts(r.fields))] else []
  }

  /** The rows a file of records reads as, when its first line is number `line`. */
  function Numbered(records: seq<Record>, line: nat): seq<CsvRow> {
    if records == [] then []
    else RowAt(records[0], line) + Numbered(records[1..], line + FieldNewlines(records[0].fields) + 1)
  }

  /** One character of a quoted field, a quote written twice. */
  lemma {:induction false} ScanQuotedChar(c: char, more: string, s: State)
    requires s.quoted
    ensures Scan((if c == '"' then "\"\"" else [c]) + more, s)
            == Scan(more, s.(field := s.field + [c], line := s.line + if c == '\n' then 1 else 0))
  {
    if c == '"' {
      assert ("\"\"" + more)[2..] == more;
    } else {
      assert ([c] + more)[1..] == more;
    }
  }

  lemma {:induction false} ScanClosingQuote(rest: string, s: State)
    requires s.quoted && (rest == "" || rest[0] != '"')
    ensures Scan("\"" + rest, s) == Scan(rest, s.(quoted := false))
  {
    assert ("\"" + rest)[1..] == rest;
  }

  /** Inside the quotes: the field comes out as it went in, up to its closing quote. */
  lemma {:induction false} ScanQuoted(f: string, rest: string, s: State)
    requires s.quoted && (rest == "" || rest[0] != '"')
    ensures Scan(Doubled(f) + "\"" + rest, s)
            == Scan(rest, s.(field := s.field + f, quoted := false, line := s.line + Newlines(f)))
    decreases |f|
  {
    hide Scan, Doubled, Newlines;
    QuotedSplits(f, rest);
    if f == "" {
      assert s.field + f == s.field;
      ScanClosingQuote(rest, s);
    } else {
      var more := Doubled(f[1..]) + "\"" + rest;
      var next := s.(field := s.field + [f[0]], line := s.line + if f[0] == '\n' then 1 else 0);
      ScanQuotedChar(f[0], more, s);
      ScanQuoted(f[1..], rest, next);
      assert next.field + f[1..] == s.field + f;
    }
  }

  lemma {:induction false} QuotedSplits(f: string, rest: string)
    ensures f == "" ==> Doubled(f) + "\"" + rest == "\"" + rest && Newlines(f) == 0
    ensures f != "" ==>
              && Doubled(f) + "\"" + rest == (if f[0] == '"' then "\"\"" else [f[0]]) + (Doubled(f[1..]) + "\"" + rest)
              && Newlines(f) == (if f[0] == '\n' then 1 else 0) + Newlines(f[1..])
  {
  }

  /** A bare field comes out as it is. */
  lemma {:induction false} ScanBare(f: string, rest: string, s: State)
    requires !s.quoted && Field(f, false).Valid()
    ensures Scan(f + rest, s) == Scan(rest, s.(field := s.field + f)) && Newlines(f) == 0
    decreases |f|
  {
    if f == "" {
      assert f + rest == rest && s.field + f == s.field;
    } else {
      assert (f + rest)[1..] == f[1..] + rest;
      var next := s.(field := s.field + [f[0]]);
      ScanBare(f[1..], rest, next);
      assert next.field + f[1..] == s.field + f;
    }
  }

  lemma {:induction false} ScanField(f: Field, rest: string, s: State)
    requires !s.quoted && s.field == "" && f.Valid() && (rest == "" || rest[0] != '"')
    ensures Scan(EncodeField(f) + rest, s)
            == Scan(rest, s.(field := f.text, dirty := s.dirty || f.quoted, line := s.line + Newlines(f.text)))
  {
    assert "" + f.text == f.text;
    if f.quoted {
      var inner := Doubled(f.text) + "\"" + rest;
      assert EncodeField(f) + rest == "\"" + inner && ("\"" + inner)[1..] == inner;
      ScanQuoted(f.text, rest, s.(quoted := true, dirty := true));
    } else {
      ScanBare(f.text, rest, s);
    }
  }

  lemma {:induction false} ScanComma(rest: string, s: State)
    requires !s.quoted
    ensures Scan("," + rest, s) == Scan(rest, EndField(s))
  {
    assert ("," + rest)[1..] == rest;
  }

  /** A record's fields, up to its line end. */
  lemma {:induction false} ScanFields(fields: seq<Field>, rest: string, s: State)
    requires fields != [] && (forall i :: 0 <= i < |fields| ==> fields[i].Valid())
    requires !s.quoted && s.field == "" && (rest == "" || rest[0] != '"')
    ensures Scan(EncodeFields(fields) + rest, s)
            == Scan(rest, s.(cells := s.cells + Texts(fields)[..|fields| - 1], field := fields[|fields| - 1].text,
                             dirty := s.dirty || AnyQuoted(fields), line := s.line + FieldNewlines(fields)))
    decreases |fields|
  {
    hide Scan, EncodeField, Newlines;
    if |fields| == 1 {
      ScanField(fields[0], rest, s);
      assert s.cells + Texts(fields)[..0] == s.cells;
      assert FieldNewlines(fields[1..]) == 0 && !AnyQuoted(fields[1..]);
    } else {
      var more := EncodeFields(fields[1..]) + rest;
      assert EncodeFields(fields) + rest == EncodeField(fields[0]) + ("," + more);
      hide EncodeFields;
      ScanField(fields[0], "," + more, s);
      var first := fields[0];
      var mid := s.(field := first.text, dirty := s.dirty || first.quoted, line := s.line + Newlines(first.text));
      ScanComma(more, mid);
      ScanFields(fields[1..], rest, EndField(mid));
      assert Texts(fields) == [fields[0].text] + Texts(fields[1..]);
      assert s.cells + [fields[0].text] + Texts(fields[1..])[..|fields| - 2] == s.cells + Texts(fields)[..|fields| - 1];
    }
  }

  lemma {:induction false} ScanLineEnd(ending: Ending, rest: string, s: State)
    requires !s.quoted && ending != EndOfFile
    ensures Scan(LineEnd(ending) + rest, s) == Scan(rest, EndRow(s.(line := s.line + 1)))
  {
    assert ("\n" + rest)[1..] == rest;
    if ending == CRLF {
      assert (LineEnd(ending) + rest)[1..] == "\n" + rest;
    }
  }

  /** At the start of a row. */
  predicate Fresh(s: State) {
    s.cells == [] && s.field == "" && !s.quoted && !s.dirty && s.rowLine == s.line
  }

  function AfterRecord(s: State, r: Record): State {
    var line := s.line + FieldNewlines(r.fields) + 1;
    State(s.out + RowAt(r, s.line), [], "", false, line, line, false)
  }

  lemma {:induction false} ScanRecord(r: Record, more: string, s: State)
    requires r.Valid() && r.ending != EndOfFile && Fresh(s)
    ensures Scan(EncodeFields(r.fields) + LineEnd(r.ending) + more, s) == Scan(more, AfterRecord(s, r))
  {
    hide Scan, EncodeFields, Newlines, FieldNewlines, AnyQuoted, AllBlank;
    assert EncodeFields(r.fields) + LineEnd(r.ending) + more == EncodeFields(r.fields) + (LineEnd(r.ending) + more);
    ScanFields(r.fields, LineEnd(r.ending) + more, s);
    var mid := s.(cells := s.cells + Texts(r.fields)[..|r.fields| - 1], field := r.fields[|r.fields| - 1].text,
                  dirty := s.dirty || AnyQuoted(r.fields), line := s.line + FieldNewlines(r.fields));
    ScanLineEnd(r.ending, more, mid);
    assert mid.cells + [mid.field] == Texts(r.fields);
    assert s.out + [] == s.out;
  }

  /** The file stops right after a last record that is one empty pair of quotes. */
  predicate EndsInEmptyQuotes(records: seq<Record>) {
    records != [] && records[|records| - 1] == Record([Field("", true)], EndOfFile)
  }

  /** The rows the parser gives back: a last record of empty quotes without a line break is lost. */
  function ReadBack(records: seq<Record>, line: nat): seq<CsvRow> {
    Numbered(if EndsInEmptyQuotes(records) then records[..|records| - 1] else records, line)
  }

  lemma {:induction false} ReadBackStep(records: seq<Record>, line: nat)
    requires records != [] && records[0].ending != EndOfFile
    ensures ReadBack(records, line)
            == RowAt(records[0], line) + ReadBack(records[1..], line + FieldNewlines(records[0].fields) + 1)
  {
    hide RowAt, FieldNewlines;
    if EndsInEmptyQuotes(records) {
      assert records[1..][|records| - 2] == records[|records| - 1];
      assert records[..|records| - 1][1..] == records[1..][..|records| - 2];
    } else if |records| > 1 {
      assert records[1..][|records| - 2] == records[|records| - 1];
    }
  }

  /** The last record of a file that stops without a line break. */
  lemma {:induction false} ScanLast(r: Record, s: State)
    requires r.Valid() && r.ending == EndOfFile && Fresh(s)
    ensures Finish(Scan(Encode([r]), s)) == s.out + ReadBack([r], s.line)
  {
    var mid := s.(cells := s.cells + Texts(r.fields)[..|r.fields| - 1], field := r.fields[|r.fields| - 1].text,
                  dirty := s.dirty || AnyQuoted(r.fields), line := s.line + FieldNewlines(r.fields));
    ScanFields(r.fields, "", s);
    LastEncodes(r);
    assert Scan("", mid) == mid;
    hide Scan, EncodeFields, FieldNewlines, Encode, AnyQuoted;
    assert mid.cells + [mid.field] == Texts(r.fields);
    ReadBackLast(r, s.line);
    if |r.fields| == 1 && mid.field == "" {
      OneEmptyField(r);
    }
    assert s.out + [] == s.out;
  }

  lemma {:induction false} LastEncodes(r: Record)
    requires r.ending == EndOfFile
    ensures Encode([r]) == EncodeFields(r.fields) + ""
  {
    assert [r][1..] == [];
    assert Encode([r]) == EncodeFields(r.fields) + "" + "";
  }

  lemma {:induction false} ReadBackLast(r: Record, line: nat)
    requires r.ending == EndOfFile
    ensures ReadBack([r], line) == if r.fields == [Field("", true)] then [] else RowAt(r, line)
  {
    hide RowAt, FieldNewlines;
    assert [r][..0] == [] && [r][1..] == [];
    var rest := line + FieldNewlines(r.fields) + 1;
    assert Numbered([r], line) == RowAt(r, line) + Numbered([], rest);
    assert RowAt(r, line) + [] == RowAt(r, line);
    assert EndsInEmptyQuotes([r]) <==> r.fields == [Field("", true)];
  }

  lemma {:induction false} OneEmptyField(r: Record)
    requires |r.fields| == 1 && r.fields[0].text == ""
    ensures r.fields == [Field("", r.fields[0].quoted)] && Texts(r.fields) == [""]
    ensures r.Shown() <==> r.fields[0].quoted
  {
    assert r.fields[1..] == [];
    assert AnyQuoted(r.fields) <==> r.fields[0].quoted || AnyQuoted([]);
    assert Trim("") == "";
    assert AllBlank(Texts(r.fields));
  }

  lemma {:induction false} ScanRecords(records: seq<Record>, s: State)
    requires ValidFile(records) && Fresh(s)
    ensures Finish(Scan(Encode(records), s)) == s.out + ReadBack(records, s.line)
    decreases |records|
  {
    hide Scan, EncodeFields, Finish, FieldNewlines, RowAt, ReadBack;
    if records == [] {
      ScanNothing(s);
    } else if records[0].ending == EndOfFile {
      assert records == [records[0]];
      ScanLast(records[0], s);
    } else {
      var r, next := records[0], AfterRecord(s, records[0]);
      ScanRecord(r, Encode(records[1..]), s);
      ScanRecords(records[1..], next);
      ReadBackStep(records, s.line);
      assert next.out + ReadBack(records[1..], next.line) == s.out + ReadBack(records, s.line);
    }
  }

  lemma {:induction false} ScanNothing(s: State)
    requires Fresh(s)
    ensures Finish(Scan("", s)) == s.out + ReadBack([], s.line)
  {
    assert s.out + [] == s.out;
  }

  /** A byte-order mark in front changes nothing. */
  lemma {:induction false} RowsReadBack(records: seq<Record>)
    requires ValidFile(records)
    ensures Rows([BOM] + Encode(records)) == ReadBack(records, 1)
    ensures (Encode(records) != "" ==> Encode(records)[0] != BOM) ==> Rows(Encode(records)) == ReadBack(records, 1)
  {
    ScanRecords(records, START);
    assert [] + ReadBack(records, 1) == ReadBack(records, 1);
    assert ([BOM] + Encode(records))[1..] == Encode(records);
    hide Scan, EncodeFields, ReadBack;
  }

  lemma {:induction false} LostRowIsMissed(records: seq<Record>)
    requires ValidFile(records)
    ensures ReadBack(records, 1) == Numbered(records, 1) <==> !EndsInEmptyQuotes(records)
  {
    if EndsInEmptyQuotes(records) {
      var k := |records| - 1;
      assert records[k].fields[0].quoted;
      LineCountsNewlines(records, 1, k);
    }
  }

  /**
   * Parsing undoes encoding: the same cells, commas, quotes and newlines included, and the line each row starts on.
   * It does so exactly when the file does not stop right after a last record that is one empty pair of quotes.
   */
  lemma {:induction false} ParseInvertsEncode(records: seq<Record>)
    requires ValidFile(records)
    ensures Rows([BOM] + Encode(records)) == Numbered(records, 1) <==> !EndsInEmptyQuotes(records)
    ensures (Encode(records) != "" ==> Encode(records)[0] != BOM) ==>
              (Rows(Encode(records)) == Numbered(records, 1) <==> !EndsInEmptyQuotes(records))
  {
    hide Rows, Encode, Numbered, ReadBack;
    RowsReadBack(records);
    LostRowIsMissed(records);
  }

  lemma {:induction false} OneLetterThenQuotes(ending: Ending)
    ensures var records := [Record([Field("a", false)], LF), Record([Field("", true)], ending)];
            ValidFile(records) && Encode(records) == "a\n\"\"" + LineEnd(ending)
  {
    var a, quotes := Record([Field("a", false)], LF), Record([Field("", true)], ending);
    assert [a, quotes][1..] == [quotes] && [quotes][1..] == [];
    assert Doubled("") == "" && EncodeFields(quotes.fields) == "\"\"";
    assert Encode([quotes]) == "\"\"" + LineEnd(ending) + Encode([]);
    assert EncodeFields(a.fields) == "a" && Encode([a, quotes]) == "a" + "\n" + Encode([quotes]);
  }

  lemma {:induction false} RowsOfTwo(a: Record, b: Record, line: nat)
    ensures Numbered([a, b], line)
            == RowAt(a, line) + RowAt(b, line + FieldNewlines(a.fields) + 1)
    ensures Numbered([a], line) == RowAt(a, line)
  {
    hide RowAt, FieldNewlines;
    assert [a, b][1..] == [b] && [b][1..] == [] && [a][1..] == [];
    assert Numbered([b], line + FieldNewlines(a.fields) + 1) == RowAt(b, line + FieldNewlines(a.fields) + 1) + [];
    assert Numbered([a], line) == RowAt(a, line) + [];
  }

  lemma {:induction false} OneFieldRow(text: string, quoted: bool, ending: Ending, line: nat)
    requires quoted || text == "a"
    ensures RowAt(Record([Field(text, quoted)], ending), line) == [CsvRow(line, [text])]
  {
    var r := Record([Field(text, quoted)], ending);
    assert Texts(r.fields) == [text];
    if text == "a" {
      assert Trim("a") == "a" by {
        TrimIsExact("a");
      }
      assert Trim(Texts(r.fields)[0]) != "";
    }
  }

  /** For instance: a line with `a`, then empty quotes with nothing after them, reads as one row instead of two. */
  lemma {:induction false} EmptyQuotesAreLost()
    ensures Rows("a\n\"\"") == [CsvRow(1, ["a"])]
    ensures Rows("a\n\"\"\n") == [CsvRow(1, ["a"]), CsvRow(2, [""])]
  {
    hide Rows, Encode, RowAt, Numbered;
    var a, empty := Record([Field("a", false)], LF), [Field("", true)];
    var open, ended := Record(empty, EndOfFile), Record(empty, LF);
    OneLetterThenQuotes(EndOfFile);
    OneLetterThenQuotes(LF);
    assert "a\n\"\"" + "" == "a\n\"\"" && "a\n\"\"" + "\n" == "a\n\"\"\n";
    RowsReadBack([a, open]);
    RowsReadBack([a, ended]);
    assert [a, open][..1] == [a];
    RowsOfTwo(a, ended, 1);
    OneFieldRow("a", false, LF, 1);
    OneFieldRow("", true, LF, 2);
    assert Newlines("a") == 0;
  }

  // ----- the line numbers

  lemma {:induction false} NewlinesAppend(a: string, b: string)
    ensures Newlines(a + b) == Newlines(a) + Newlines(b)
    decreases |a|
  {
    if a == "" {
      assert a + b == b;
    } else {
      assert (a + b)[1..] == a[1..] + b;
      NewlinesAppend(a[1..], b);
    }
  }

  lemma {:induction false} NewlinesDoubled(f: string)
    ensures Newlines(Doubled(f)) == Newlines(f)
  {
    if f != "" {
      var head := if f[0] == '"' then "\"\"" else [f[0]];
      NewlinesDoubled(f[1..]);
      NewlinesAppend(head, Doubled(f[1..]));
      assert f[0] == '"' ==> head[1..][1..] == "";
    }
  }

  lemma {:induction false} NewlinesField(f: Field)
    requires f.Valid()
    ensures Newlines(EncodeField(f)) == Newlines(f.text)
  {
    if f.quoted {
      NewlinesDoubled(f.text);
      NewlinesAppend("\"" + Doubled(f.text), "\"");
      NewlinesAppend("\"", Doubled(f.text));
      assert Newlines("\"") == 0 by { assert "\""[1..] == ""; }
    }
  }

  lemma {:induction false} NewlinesEncoded(fields: seq<Field>)
    requires forall i :: 0 <= i < |fields| ==> fields[i].Valid()
    ensures Newlines(EncodeFields(fields)) == FieldNewlines(fields)
    decreases |fields|
  {
    if fields != [] {
      var f := fields[0];
      NewlinesField(f);
      if |fields| > 1 {
        NewlinesEncoded(fields[1..]);
        NewlinesAppend(EncodeField(f) + ",", EncodeFields(fields[1..]));
        NewlinesAppend(EncodeField(f), ",");
        assert Newlines(",") == 0 by { assert ","[1..] == ""; }
      } else {
        assert FieldNewlines(fields[1..]) == 0;
      }
    }
  }

  lemma {:induction false} NewlinesRecord(r: Record, tail: string)
    requires r.Valid() && r.ending != EndOfFile
    ensures Newlines(EncodeFields(r.fields) + LineEnd(r.ending) + tail) == FieldNewlines(r.fields) + 1 + Newlines(tail)
  {
    NewlinesAppend(EncodeFields(r.fields) + LineEnd(r.ending), tail);
    NewlinesAppend(EncodeFields(r.fields), LineEnd(r.ending));
    NewlinesEncoded(r.fields);
    assert Newlines(LineEnd(r.ending)) == 1 by {
      assert "\n"[1..] == "" && "\r\n"[1..] == "\n";
    }
  }

  /** Records that show come out in order, each numbered with the newlines in the file before it. */
  lemma {:induction false} LineCountsNewlines(records: seq<Record>, line: nat, k: nat)
    requires k < |records| && records[k].Shown() && ValidFile(records)
    ensures |Numbered(records[..k], line)| < |Numbered(records, line)|
    ensures Numbered(records, line)[|Numbered(records[..k], line)|]
            == CsvRow(line + Newlines(Encode(records[..k])), Texts(records[k].fields))
    decreases |records|
  {
    hide RowAt, EncodeFields, FieldNewlines, LineEnd;
    var r := records[0];
    if k == 0 {
      assert records[..0] == [];
      assert RowAt(r, line) == [CsvRow(line, Texts(r.fields))] by {
        ShownRow(r, line);
      }
    } else {
      assert records[..k][1..] == records[1..][..k - 1];
      LineCountsNewlines(records[1..], line + FieldNewlines(r.fields) + 1, k - 1);
      NewlinesRecord(r, Encode(records[..k][1..]));
    }
  }

  lemma {:induction false} ShownRow(r: Record, line: nat)
    requires r.Shown()
    ensures RowAt(r, line) == [CsvRow(line, Texts(r.fields))]
  {
  }

  // ----- files that no encoder writes

  predicate Bare(s: string) {
    '"' !in s && ',' !in s && '\r' !in s && '\n' !in s
  }

  lemma {:induction false} FinishField(field: string, dirty: bool, line: nat)
    ensures Finish(State([], [], field, false, line, 1, dirty)) ==
            if field != "" && (dirty || Trim(field) != "") then [CsvRow(1, [field])] else []
  {
    hide Trim;
    assert [] + [field] == [field] && [field][0] == field;
    assert AllBlank([field]) <==> Trim(field) == "";
    if field == "" {
      NothingToTrim();
    }
  }

  /** A pair of quotes in the middle of a field adds what is between them, commas and line breaks included. */
  lemma {:induction false} QuotesInside(before: string, inner: string, after: string)
    requires Bare(before) && Bare(after) && before != "" && before[0] != BOM
    ensures Rows(before + "\"" + Doubled(inner) + "\"" + after) == [CsvRow(1, [before + inner + after])]
  {
    hide Scan, Doubled, Finish;
    var rest := "\"" + Doubled(inner) + "\"" + after;
    assert before + "\"" + Doubled(inner) + "\"" + after == before + rest;
    assert Source(before + rest) == before + rest;
    ScanBare(before, rest, START);
    assert "" + before == before;
    var s := START.(field := before);
    ScanOpeningQuote(Doubled(inner) + "\"" + after, s);
    assert rest == "\"" + (Doubled(inner) + "\"" + after);
    ScanQuoted(inner, after, s.(quoted := true, dirty := true));
    var t := State([], [], before + inner, false, 1 + Newlines(inner), 1, true);
    ScanBare(after, "", t);
    assert after + "" == after;
    ScanEnd(t.(field := before + inner + after));
    FinishField(before + inner + after, true, t.line);
  }

  lemma {:induction false} ScanOpeningQuote(rest: string, s: State)
    requires !s.quoted
    ensures Scan("\"" + rest, s) == Scan(rest, s.(quoted := true, dirty := true))
  {
    assert ("\"" + rest)[1..] == rest;
  }

  /** A quote that nothing closes runs to the end of the file. */
  lemma {:induction false} QuoteNeverClosed(before: string, inner: string)
    requires Bare(before) && before != "" && before[0] != BOM
    ensures Rows(before + "\"" + Doubled(inner)) == [CsvRow(1, [before + inner])]
  {
    hide Scan, Doubled;
    var rest := "\"" + Doubled(inner);
    assert before + "\"" + Doubled(inner) == before + rest;
    assert Source(before + rest) == before + rest;
    ScanBare(before, rest, START);
    assert "" + before == before;
    ScanOpeningQuote(Doubled(inner), START.(field := before));
    ScanUnclosed(inner, START.(field := before, quoted := true, dirty := true));
    assert [] + [before + inner] == [before + inner];
  }

  lemma {:induction false} ScanUnclosed(f: string, s: State)
    requires s.quoted
    ensures Scan(Doubled(f), s) == s.(field := s.field + f, line := s.line + Newlines(f))
    decreases |f|
  {
    hide Scan;
    if f == "" {
      ScanEnd(s);
      assert s.field + f == s.field;
    } else {
      var next := s.(field := s.field + [f[0]], line := s.line + if f[0] == '\n' then 1 else 0);
      ScanQuotedChar(f[0], Doubled(f[1..]), s);
      ScanUnclosed(f[1..], next);
      assert next.field + f[1..] == s.field + f;
    }
  }

  /** A carriage return outside quotes is dropped, wherever it stands. */
  lemma {:induction false} ReturnInside(before: string, after: string)
    requires Bare(before) && Bare(after) && Trim(before + after) != "" && (before != "" ==> before[0] != BOM)
    ensures Rows(before + "\r" + after) == [CsvRow(1, [before + after])]
  {
    hide Scan, Finish, Trim;
    var rest := "\r" + after;
    assert before + "\r" + after == before + rest;
    assert Source(before + rest) == before + rest;
    ScanBare(before, rest, START);
    assert "" + before == before;
    var s := START.(field := before);
    ScanReturn(after, s);
    ScanBare(after, "", s);
    assert after + "" == after;
    ScanEnd(s.(field := before + after));
    NothingToTrim();
    FinishField(before + after, false, 1);
  }

  lemma {:induction false} NothingToTrim()
    ensures Trim("") == ""
  {
  }

  lemma {:induction false} ScanEnd(s: State)
    ensures Scan("", s) == s
  {
  }

  lemma {:induction false} ScanReturn(rest: string, s: State)
    requires !s.quoted
    ensures Scan("\r" + rest, s) == Scan(rest, s)
  {
    assert ("\r" + rest)[1..] == rest;
  }
}
