/**
 CSV cells and the documents built from them: src/common/csv/csv-cell.ts and its two callers. The reader is the
 grammar of section 2 of RFC 4180 with the writer's separator; like most readers it also takes a bare line feed
 as the end of a record.
 */
module Csv {
  import opened Options
  import opened Strings

  datatype Cell = Absent | Text(text: string) | Number(text: string)

  /** FORMULA_TRIGGER. */
  predicate StartsFormula(text: string) {
    text != "" && text[0] in {'=', '+', '-', '@', '\t', '\r'}
  }

  function Neutralize(text: string): string {
    if StartsFormula(text) then "'" + text else text
  }

  predicate IsSeparator(sep: char) {
    sep == ',' || sep == ';'
  }

  predicate IsSpecial(c: char, sep: char) {
    c == sep || c == '"' || c == '\n' || c == '\r'
  }

  predicate NeedsQuotes(text: string, sep: char) {
    exists i :: 0 <= i < |text| && IsSpecial(text[i], sep)
  }

  /** replaceAll('"', '""'). */
  function Escape(text: string): string {
    if text == "" then "" else (if text[0] == '"' then "\"\"" else [text[0]]) + Escape(text[1..])
  }

  /** What a reader should see for a cell. */
  function Shown(cell: Cell): string {
    match cell
    case Absent => ""
    case Text(text) => Neutralize(text)
    case Number(text) => text
  }

  function CsvCell(cell: Cell, sep: char): string {
    if cell.Absent? || cell == Text("") then ""
    else
      var text := if cell.Number? then cell.text else Neutralize(cell.text);
      if NeedsQuotes(text, sep) then "\"" + Escape(text) + "\"" else text
  }

  function Cells(row: seq<Cell>, sep: char): seq<string> {
    seq(|row|, i requires 0 <= i < |row| => CsvCell(row[i], sep))
  }

  function Values(row: seq<Cell>): seq<string> {
    seq(|row|, i requires 0 <= i < |row| => Shown(row[i]))
  }

  function Line(row: seq<Cell>, sep: char): string {
    Join(Cells(row, sep), [sep])
  }

  function Lines(rows: seq<seq<Cell>>, sep: char): seq<string> {
    seq(|rows|, i requires 0 <= i < |rows| => Line(rows[i], sep))
  }

  /** The callers' documents: joined lines, with a final line break or none. */
  function Document(rows: seq<seq<Cell>>, sep: char, eol: string, final: bool): string {
    Join(Lines(rows, sep), eol) + if final then eol else ""
  }

  predicate IsLineBreak(eol: string) {
    eol == "\n" || eol == "\r\n"
  }

  // ---- Reading ----

  type Read<+T> = Option<(T, string)>

  /** After the opening quote. */
  function ReadQuoted(t: string): (r: Read<string>)
    ensures r.Some? ==> |r.value.1| < |t|
  {
    if t == "" then None
    else if t[0] == '"' && !(|t| > 1 && t[1] == '"') then Some(("", t[1..]))
    else
      var more := ReadQuoted(if t[0] == '"' then t[2..] else t[1..]);
      if more.None? then None else Some(([t[0]] + more.value.0, more.value.1))
  }

  function ReadPlain(t: string, sep: char): (r: (string, string))
    ensures |r.1| <= |t|
  {
    if t == "" || IsSpecial(t[0], sep) then ("", t)
    else
      var more := ReadPlain(t[1..], sep);
      ([t[0]] + more.0, more.1)
  }

  function ReadField(t: string, sep: char): (r: Read<string>)
    ensures r.Some? ==> |r.value.1| <= |t|
  {
    if t != "" && t[0] == '"' then ReadQuoted(t[1..]) else Some(ReadPlain(t, sep))
  }

  function ReadRecord(t: string, sep: char): (r: Read<seq<string>>)
    ensures r.Some? ==> |r.value.1| <= |t|
    decreases |t|
  {
    var field := ReadField(t, sep);
    if field.None? then None
    else if field.value.1 != "" && field.value.1[0] == sep then
      var more := ReadRecord(field.value.1[1..], sep);
      if more.None? then None else Some(([field.value.0] + more.value.0, more.value.1))
    else Some(([field.value.0], field.value.1))
  }

  /** All records; None for text the grammar does not produce. */
  function ReadRecords(t: string, sep: char): Option<seq<seq<string>>>
    decreases |t|
  {
    var record := ReadRecord(t, sep);
    if record.None? then None
    else
      var rest := record.value.1;
      if rest == "" then Some([record.value.0])
      else if !("\n" <= rest || "\r\n" <= rest) then None
      else
        var after := if "\n" <= rest then rest[1..] else rest[2..];
        if after == "" then Some([record.value.0])
        else
          var more := ReadRecords(after, sep);
          if more.None? then None else Some([record.value.0] + more.value)
  }

  // ---- One field ----

  lemma {:induction false} ReadsQuoted(text: string, rest: string)
    requires rest == "" || rest[0] != '"'
    ensures ReadQuoted(Escape(text) + "\"" + rest) == Some((text, rest))
  {
    var t := Escape(text) + "\"" + rest;
    if text == "" {
      assert t == "\"" + rest && t[1..] == rest;
    } else {
      ReadsQuoted(text[1..], rest);
      var head := if text[0] == '"' then "\"\"" else [text[0]];
      assert t == head + (Escape(text[1..]) + "\"" + rest);
      assert t[|head|..] == Escape(text[1..]) + "\"" + rest;
      assert [text[0]] + text[1..] == text;
    }
  }

  lemma {:induction false} ReadsPlain(text: string, rest: string, sep: char)
    requires !NeedsQuotes(text, sep) && (rest == "" || IsSpecial(rest[0], sep))
    ensures ReadPlain(text + rest, sep) == (text, rest)
  {
    if text == "" {
      assert text + rest == rest;
    } else {
      assert !IsSpecial(text[0], sep);
      assert forall i :: 0 <= i < |text[1..]| ==> text[1..][i] == text[i + 1];
      ReadsPlain(text[1..], rest, sep);
      assert (text + rest)[1..] == text[1..] + rest;
      assert [text[0]] + text[1..] == text;
    }
  }

  /** A field ends at a separator, a line break or the end of the text. */
  predicate EndsField(rest: string, sep: char) {
    rest == "" || rest[0] in {sep, '\n', '\r'}
  }

  /** A cell is written as what it shows, in quotes when that holds a special character. */
  lemma CellIsWritten(cell: Cell, sep: char)
    ensures CsvCell(cell, sep) ==
            if NeedsQuotes(Shown(cell), sep) then "\"" + Escape(Shown(cell)) + "\"" else Shown(cell)
  {
  }

  lemma ReadsQuotedField(text: string, rest: string, sep: char)
    requires rest == "" || rest[0] != '"'
    ensures ReadField(("\"" + Escape(text) + "\"") + rest, sep) == Some((text, rest))
  {
    var body := Escape(text) + "\"" + rest;
    Regroup("\"", Escape(text), "\"", rest);
    OpensQuoted(body, sep);
    ReadsQuoted(text, rest);
  }

  lemma OpensQuoted(body: string, sep: char)
    ensures ReadField("\"" + body, sep) == ReadQuoted(body)
  {
    assert ("\"" + body)[1..] == body;
  }

  lemma Regroup<T>(a: seq<T>, b: seq<T>, c: seq<T>, d: seq<T>)
    ensures ((a + b) + c) + d == a + ((b + c) + d)
  {
  }

  lemma ReadsPlainField(text: string, rest: string, sep: char)
    requires !NeedsQuotes(text, sep) && EndsField(rest, sep) && sep != '"'
    ensures ReadField(text + rest, sep) == Some((text, rest))
  {
    ReadsPlain(text, rest, sep);
    if text != "" {
      assert !IsSpecial(text[0], sep);
    } else {
      assert text + rest == rest;
    }
  }

  lemma ReadsCell(cell: Cell, rest: string, sep: char)
    requires IsSeparator(sep) && EndsField(rest, sep)
    ensures ReadField(CsvCell(cell, sep) + rest, sep) == Some((Shown(cell), rest))
  {
    CellIsWritten(cell, sep);
    if NeedsQuotes(Shown(cell), sep) {
      ReadsQuotedField(Shown(cell), rest, sep);
    } else {
      ReadsPlainField(Shown(cell), rest, sep);
    }
  }

  // ---- One record ----

  lemma LineSplits(row: seq<Cell>, sep: char, rest: string)
    requires |row| > 1
    ensures Line(row, sep) + rest == CsvCell(row[0], sep) + ([sep] + (Line(row[1..], sep) + rest))
  {
    assert Cells(row, sep)[1..] == Cells(row[1..], sep);
    var first, more := CsvCell(row[0], sep), Line(row[1..], sep);
    ConcatAssociates(first, [sep], more);
    ConcatAssociates(first, [sep] + more, rest);
    ConcatAssociates([sep], more, rest);
  }

  /** A record is a field, and after a separator another record. */
  lemma RecordGoesOn(t: string, value: string, sep: char, tail: string, more: seq<string>, rest: string)
    requires ReadField(t, sep) == Some((value, [sep] + tail)) && ReadRecord(tail, sep) == Some((more, rest))
    ensures ReadRecord(t, sep) == Some(([value] + more, rest))
  {
    assert ([sep] + tail)[1..] == tail;
  }

  lemma ValuesSplit(row: seq<Cell>)
    requires row != []
    ensures Values(row) == [Shown(row[0])] + Values(row[1..])
  {
  }

  lemma ReadsLastCell(row: seq<Cell>, rest: string, sep: char)
    requires IsSeparator(sep) && |row| == 1 && (rest == "" || rest[0] in {'\n', '\r'})
    ensures ReadRecord(Line(row, sep) + rest, sep) == Some((Values(row), rest))
  {
    ReadsCell(row[0], rest, sep);
    assert Values(row) == [Shown(row[0])];
  }

  lemma {:induction false} ReadsLine(row: seq<Cell>, rest: string, sep: char)
    requires IsSeparator(sep) && row != [] && (rest == "" || rest[0] in {'\n', '\r'})
    ensures ReadRecord(Line(row, sep) + rest, sep) == Some((Values(row), rest))
  {
    if |row| == 1 {
      ReadsLastCell(row, rest, sep);
    } else {
      var tail := Line(row[1..], sep) + rest;
      ReadsLine(row[1..], rest, sep);
      LineSplits(row, sep, rest);
      ReadsCell(row[0], [sep] + tail, sep);
      RecordGoesOn(CsvCell(row[0], sep) + ([sep] + tail), Shown(row[0]), sep, tail, Values(row[1..]), rest);
      ValuesSplit(row);
    }
  }

  lemma LineIsNotEmpty(row: seq<Cell>, sep: char)
    requires |row| >= 2
    ensures Line(row, sep) != ""
  {
    assert Line(row, sep)[|Cells(row, sep)[0]|] == sep;
  }

  // ---- Whole documents ----

  /** A document is a record, and after a line break and more text another document. */
  lemma DocumentGoesOn(t: string, values: seq<string>, eol: string, more: string, records: seq<seq<string>>, sep: char)
    requires IsLineBreak(eol) && ReadRecord(t, sep) == Some((values, eol + more))
    requires if more == "" then records == [] else ReadRecords(more, sep) == Some(records)
    ensures ReadRecords(t, sep) == Some([values] + records)
  {
    var rest := eol + more;
    assert rest[|eol|..] == more;
    assert rest[0] == eol[0];
    assert [values] + [] == [values];
  }

  lemma DocumentSplits(rows: seq<seq<Cell>>, sep: char, eol: string, final: bool)
    requires |rows| > 1
    ensures Document(rows, sep, eol, final) == Line(rows[0], sep) + (eol + Document(rows[1..], sep, eol, final))
  {
    assert Lines(rows, sep)[1..] == Lines(rows[1..], sep);
    var first, more, end := Line(rows[0], sep), Join(Lines(rows[1..], sep), eol), if final then eol else "";
    ConcatAssociates(first, eol, more);
    ConcatAssociates(first, eol + more, end);
    ConcatAssociates(eol, more, end);
  }

  function AllValues(rows: seq<seq<Cell>>): seq<seq<string>> {
    seq(|rows|, i requires 0 <= i < |rows| => Values(rows[i]))
  }

  lemma LastLineReadsBack(row: seq<Cell>, sep: char, eol: string, final: bool)
    requires IsSeparator(sep) && IsLineBreak(eol) && row != []
    ensures ReadRecords(Line(row, sep) + if final then eol else "", sep) == Some([Values(row)])
  {
    if final {
      assert eol + "" == eol;
      ReadsLine(row, eol, sep);
      DocumentGoesOn(Line(row, sep) + eol, Values(row), eol, "", [], sep);
    } else {
      ReadsLine(row, "", sep);
    }
  }

  /** Every document of rows of two or more cells reads back as its values, whichever line break it uses. */
  lemma {:induction false} DocumentReadsBack(rows: seq<seq<Cell>>, sep: char, eol: string, final: bool)
    requires IsSeparator(sep) && IsLineBreak(eol) && rows != []
    requires forall i :: 0 <= i < |rows| ==> |rows[i]| >= 2
    ensures ReadRecords(Document(rows, sep, eol, final), sep) == Some(AllValues(rows))
  {
    AllValuesSplit(rows);
    if |rows| == 1 {
      LastLineReadsBack(rows[0], sep, eol, final);
    } else {
      var more := Document(rows[1..], sep, eol, final);
      DocumentReadsBack(rows[1..], sep, eol, final);
      DocumentSplits(rows, sep, eol, final);
      DocumentIsNotEmpty(rows[1..], sep, eol, final);
      ReadsLine(rows[0], eol + more, sep);
      DocumentGoesOn(Line(rows[0], sep) + (eol + more), Values(rows[0]), eol, more, AllValues(rows[1..]), sep);
    }
  }

  lemma AllValuesSplit(rows: seq<seq<Cell>>)
    requires rows != []
    ensures AllValues(rows) == [Values(rows[0])] + AllValues(rows[1..])
    ensures |rows| == 1 ==> AllValues(rows) == [Values(rows[0])]
  {
  }

  lemma DocumentIsNotEmpty(rows: seq<seq<Cell>>, sep: char, eol: string, final: bool)
    requires rows != [] && |rows[0]| >= 2
    ensures Document(rows, sep, eol, final) != ""
  {
    LineIsNotEmpty(rows[0], sep);
    assert Lines(rows, sep)[0] == Line(rows[0], sep);
  }

  /** No text a reader sees starts a formula; a system number such as -3 may. */
  lemma NoTextStartsAFormula(rows: seq<seq<Cell>>, sep: char, eol: string, final: bool, i: nat, j: nat)
    requires IsSeparator(sep) && IsLineBreak(eol) && rows != []
    requires forall k :: 0 <= k < |rows| ==> |rows[k]| >= 2
    requires i < |rows| && j < |rows[i]|
    ensures var read := ReadRecords(Document(rows, sep, eol, final), sep);
            && read.Some? && |read.value| == |rows| && |read.value[i]| == |rows[i]|
            && (StartsFormula(read.value[i][j]) <==> rows[i][j].Number? && StartsFormula(rows[i][j].text))
  {
    DocumentReadsBack(rows, sep, eol, final);
  }

  /** Two texts show the same exactly when they are equal or one is the other, a formula, already quoted. */
  lemma NeutralizedAlikeExactlyWhen(a: string, b: string)
    ensures Neutralize(a) == Neutralize(b) <==>
            a == b || (StartsFormula(a) && b == "'" + a) || (StartsFormula(b) && a == "'" + b)
  {
    if StartsFormula(a) && StartsFormula(b) && Neutralize(a) == Neutralize(b) {
      assert Neutralize(a)[1..] == a && Neutralize(b)[1..] == b;
    }
  }

  // ---- What is written, character by character ----

  /** A text that could start a formula is shown behind an apostrophe, any other text and every number as it is. */
  lemma ShownExactly(cell: Cell)
    ensures Shown(cell) ==
            match cell
            case Absent => ""
            case Number(text) => text
            case Text(text) =>
              if text != "" && (text[0] == '=' || text[0] == '+' || text[0] == '-' || text[0] == '@' || text[0] == '\t' || text[0] == '\r')
              then "'" + text else text
  {
  }

  /** A cell is quoted exactly when what it shows holds the separator, a quotation mark or part of a line break. */
  lemma QuotedExactlyWhen(cell: Cell, sep: char)
    requires IsSeparator(sep)
    ensures CsvCell(cell, sep) == Shown(cell) <==>
            sep !in Shown(cell) && '"' !in Shown(cell) && '\n' !in Shown(cell) && '\r' !in Shown(cell)
    ensures CsvCell(cell, sep) == Shown(cell) || (CsvCell(cell, sep) != "" && CsvCell(cell, sep)[0] == '"')
  {
    CellIsWritten(cell, sep);
    var text := Shown(cell);
    if sep in text || '"' in text || '\n' in text || '\r' in text {
      var i :| 0 <= i < |text| && (text[i] == sep || text[i] == '"' || text[i] == '\n' || text[i] == '\r');
      assert IsSpecial(text[i], sep);
      EscapeIsNoShorter(text);
      assert |CsvCell(cell, sep)| > |text|;
    }
  }

  lemma {:induction false} EscapeIsNoShorter(text: string)
    ensures |Escape(text)| >= |text|
  {
    if text != "" {
      EscapeIsNoShorter(text[1..]);
    }
  }

  /** The two documents the system writes: movements with commas and line feeds, issues with semicolons and CR LF. */
  lemma WrittenDocumentsReadBack(rows: seq<seq<Cell>>)
    requires rows != [] && forall i :: 0 <= i < |rows| ==> |rows[i]| == 7
    ensures ReadRecords(Document(rows, ',', "\n", false), ',') == Some(AllValues(rows))
    ensures ReadRecords(Document(rows, ';', "\r\n", true), ';') == Some(AllValues(rows))
  {
    DocumentReadsBack(rows, ',', "\n", false);
    DocumentReadsBack(rows, ';', "\r\n", true);
  }
}
