/** The CSV serialiser behind `exportCSV` in script.js.

Cells are escaped in the style of section 2 (rules 6 and 7) of RFC 4180: a
field holding a double quote, a comma or a line feed is wrapped in double
quotes and each inner double quote is doubled. Cells are joined with `,`
and rows with a bare line feed. Two deviations from RFC 4180 are kept on
purpose: records end in LF rather than CRLF, and a lone carriage return
does not force quoting.

The module also holds a small reference decoder (`ParseRecords`) that
reads such text back, so that the serialiser can be stated by its inverse.
 */
module Csv {

  /** A cell as `exportCSV` receives it. `Value(text)` is any other value,
      already turned into text by `String(cell)`. */
  datatype Cell = Null | Undefined | Value(text: string)

  /** The `rows` argument: an array of rows (each an array of cells) or
      something that is not an array at all. Leaving the argument out
      gives the default `[]`, which is `Table([])`. */
  datatype Rows = NotArray | Table(rows: seq<seq<Cell>>)

  /** What one call produces: the early return, or the CSV text handed on
      to the download helper. */
  datatype Export = NoRows | Exported(text: string)

  /** The text a cell stands for: null and undefined stand for nothing. */
  function TextOf(c: Cell): string
  {
    match c
    case Value(t) => t
    case _ => ""
  }

  /** The three characters that force quoting. A carriage return is not one. */
  predicate NeedsQuotes(s: string)
  {
    '"' in s || ',' in s || '\n' in s
  }

  /** `s.replace(/"/g, '""')`. */
  function DoubleQuotes(s: string): string
  {
    if s == [] then []
    else (if s[0] == '"' then "\"\"" else [s[0]]) + DoubleQuotes(s[1..])
  }

  /** The inverse of `DoubleQuotes`: every `""` becomes one `"`. */
  function CollapseQuotes(s: string): string
  {
    if |s| >= 2 && s[0] == '"' && s[1] == '"' then "\"" + CollapseQuotes(s[2..])
    else if s == [] then []
    else [s[0]] + CollapseQuotes(s[1..])
  }

  /** Collapsing undoes doubling, for every string. */
  lemma {:induction false} CollapseDoubled(s: string)
    ensures CollapseQuotes(DoubleQuotes(s)) == s
  {
    if s != [] {
      CollapseDoubled(s[1..]);
      if s[0] == '"' {
        assert DoubleQuotes(s) == "\"\"" + DoubleQuotes(s[1..]);
      } else {
        assert DoubleQuotes(s) == [s[0]] + DoubleQuotes(s[1..]);
      }
    }
  }

  /** The escaping of one cell. A cell with none of the three special
      characters is emitted unchanged; any other cell is wrapped in quotes
      (see `QuotedCellRoundTrip` for what is inside them). */
  function EscapeCell(c: Cell): (r: string)
    ensures c.Null? || c.Undefined? ==> r == ""
    ensures !NeedsQuotes(TextOf(c)) ==> r == TextOf(c)
    ensures NeedsQuotes(TextOf(c)) ==> |r| >= 2 && r[0] == '"' && r[|r| - 1] == '"'
  {
    match c
    case Null => ""
    case Undefined => ""
    case Value(s) => if NeedsQuotes(s) then "\"" + DoubleQuotes(s) + "\"" else s
  }

  /** A quoted cell gives its text back when the outer quotes are stripped
      and every `""` is collapsed to `"`. */
  lemma QuotedCellRoundTrip(c: Cell)
    requires NeedsQuotes(TextOf(c))
    ensures var r := EscapeCell(c);
      |r| >= 2 && CollapseQuotes(r[1..|r| - 1]) == TextOf(c)
  {
    var q := EscapeCell(c);
    assert q[1..|q| - 1] == DoubleQuotes(TextOf(c));
    CollapseDoubled(TextOf(c));
  }

  /** `parts.join(sep)`: no separator before the first part or after the last. */
  function Join(parts: seq<string>, sep: char): string
  {
    if |parts| == 0 then ""
    else if |parts| == 1 then parts[0]
    else parts[0] + [sep] + Join(parts[1..], sep)
  }

  /** `r.map(escape)`. */
  function EscapeRow(row: seq<Cell>): (r: seq<string>)
    ensures |r| == |row|
  {
    if row == [] then [] else [EscapeCell(row[0])] + EscapeRow(row[1..])
  }

  /** One row of output: escaped cells joined by commas. */
  function RowText(row: seq<Cell>): string
  {
    Join(EscapeRow(row), ',')
  }

  /** The whole CSV text: row texts joined by line feeds. */
  function TableText(rows: seq<seq<Cell>>): string
  {
    Join(Lines(rows), '\n')
  }

  /** `rows.map(r => ...)`: one text per row. */
  function Lines(rows: seq<seq<Cell>>): (r: seq<string>)
    ensures |r| == |rows|
  {
    if rows == [] then [] else [RowText(rows[0])] + Lines(rows[1..])
  }

  /** `exportCSV(rows)`, without the download and the toasts. A non-array
      or empty argument takes the early return. Otherwise the text decodes
      back to the cells' texts, row by row; an empty row prints like a row
      holding one empty cell and so reads back as one empty cell. The last
      clause is the one before it for a table without an empty row, where
      filling changes nothing (`FilledUnchanged`). */
  function ExportCsv(arg: Rows): (r: Export)
    ensures r.NoRows? <==> arg.NotArray? || |arg.rows| == 0
    ensures r.Exported? ==> ParseRecords(r.text) == Texts(Filled(arg.rows))
    ensures r.Exported? && (forall i :: 0 <= i < |arg.rows| ==> |arg.rows[i]| > 0) ==>
      ParseRecords(r.text) == Texts(arg.rows)
  {
    if arg.NotArray? || |arg.rows| == 0 then NoRows
    else
      RoundTripFilled(arg.rows);
      FilledUnchanged(arg.rows);
      Exported(TableText(arg.rows))
  }

  /** A row as it reads back: an empty row becomes one empty cell. */
  function FillRow(row: seq<Cell>): (r: seq<Cell>)
    ensures |r| > 0
    ensures row != [] ==> r == row
  {
    if row == [] then [Null] else row
  }

  /** Every row of a table as it reads back. */
  function Filled(rows: seq<seq<Cell>>): (r: seq<seq<Cell>>)
    ensures |r| == |rows|
  {
    if rows == [] then [] else [FillRow(rows[0])] + Filled(rows[1..])
  }

  // ---------------------------------------------------------------------
  // Reference decoder

  /** The texts of a table's cells. */
  function RowTexts(row: seq<Cell>): (r: seq<string>)
    ensures |r| == |row|
  {
    if row == [] then [] else [TextOf(row[0])] + RowTexts(row[1..])
  }

  function Texts(rows: seq<seq<Cell>>): (r: seq<seq<string>>)
    ensures |r| == |rows|
  {
    if rows == [] then [] else [RowTexts(rows[0])] + Texts(rows[1..])
  }

  /** Reads the inside of a quoted field, the opening quote already taken:
      `""` stands for one quote and a lone `"` closes the field. Returns the
      field and the text after the closing quote; an unclosed field runs to
      the end of the input. */
  function ParseQuoted(s: string): (r: (string, string))
    ensures |r.1| <= |s|
  {
    if s == [] then ([], [])
    else if s[0] == '"' then
      if |s| >= 2 && s[1] == '"' then
        var (f, rest) := ParseQuoted(s[2..]);
        ("\"" + f, rest)
      else ([], s[1..])
    else
      var (f, rest) := ParseQuoted(s[1..]);
      ([s[0]] + f, rest)
  }

  /** Reads an unquoted field up to the next comma or line feed. */
  function ParseBare(s: string): (r: (string, string))
    ensures |r.1| <= |s|
    ensures r.0 + r.1 == s
  {
    if s == [] || s[0] == ',' || s[0] == '\n' then ([], s)
    else
      var (f, rest) := ParseBare(s[1..]);
      assert [s[0]] + (f + rest) == s;
      ([s[0]] + f, rest)
  }

  function ParseField(s: string): (r: (string, string))
    ensures |r.1| <= |s|
  {
    if |s| > 0 && s[0] == '"' then ParseQuoted(s[1..]) else ParseBare(s)
  }

  /** Reads comma-separated fields up to a line feed or the end. */
  function ParseRow(s: string): (r: (seq<string>, string))
    ensures |r.1| <= |s|
    ensures |r.0| > 0
    decreases |s|
  {
    var (f, rest) := ParseField(s);
    if |rest| > 0 && rest[0] == ',' then
      var (fs, rest') := ParseRow(rest[1..]);
      ([f] + fs, rest')
    else ([f], rest)
  }

  /** Reads line-feed-separated records. The character after a record is a
      line feed in well-formed text; in malformed text it is dropped. */
  function ParseRecords(s: string): (r: seq<seq<string>>)
    ensures |r| > 0
    decreases |s|
  {
    var (row, rest) := ParseRow(s);
    if rest == [] then [row] else [row] + ParseRecords(rest[1..])
  }

  // ---------------------------------------------------------------------
  // Round trip

  /** A field ends where the text ends or a separator follows. */
  predicate FieldEnd(tail: string)
  {
    tail == [] || tail[0] == ',' || tail[0] == '\n'
  }

  /** A lone quote closes a quoted field. */
  lemma ParseQuotedClose(tail: string)
    requires FieldEnd(tail)
    ensures ParseQuoted("\"" + tail) == ([], tail)
  {
    assert ("\"" + tail)[1..] == tail;
  }

  /** `""` inside a quoted field stands for one quote. */
  lemma ParseQuotedPair(rest: string, f: string, tail: string)
    requires ParseQuoted(rest) == (f, tail)
    ensures ParseQuoted("\"\"" + rest) == ("\"" + f, tail)
  {
    assert ("\"\"" + rest)[2..] == rest;
  }

  /** Any other character inside a quoted field stands for itself. */
  lemma ParseQuotedPlain(c: char, rest: string, f: string, tail: string)
    requires c != '"'
    requires ParseQuoted(rest) == (f, tail)
    ensures ParseQuoted([c] + rest) == ([c] + f, tail)
  {
    assert ([c] + rest)[1..] == rest;
  }

  lemma {:induction false} ParseQuotedDoubled(s: string, tail: string)
    requires FieldEnd(tail)
    ensures ParseQuoted(DoubleQuotes(s) + "\"" + tail) == (s, tail)
  {
    if s == [] {
      assert DoubleQuotes(s) + "\"" + tail == "\"" + tail;
      ParseQuotedClose(tail);
    } else {
      var rest := DoubleQuotes(s[1..]) + "\"" + tail;
      assert ParseQuoted(rest) == (s[1..], tail) by {
        ParseQuotedDoubled(s[1..], tail);
      }
      if s[0] == '"' {
        assert DoubleQuotes(s) + "\"" + tail == "\"\"" + rest;
        ParseQuotedPair(rest, s[1..], tail);
        assert "\"" + s[1..] == s;
      } else {
        assert DoubleQuotes(s) + "\"" + tail == [s[0]] + rest;
        ParseQuotedPlain(s[0], rest, s[1..], tail);
        assert [s[0]] + s[1..] == s;
      }
    }
  }

  lemma {:induction false} ParseBarePlain(s: string, tail: string)
    requires !NeedsQuotes(s)
    requires FieldEnd(tail)
    ensures ParseBare(s + tail) == (s, tail)
  {
    if s == [] {
      assert s + tail == tail;
    } else {
      ParseBarePlain(s[1..], tail);
      assert (s + tail)[1..] == s[1..] + tail;
      assert [s[0]] + s[1..] == s;
    }
  }

  /** A quoted field is read back to its text. */
  lemma ParseQuotedField(s: string, tail: string)
    requires FieldEnd(tail)
    ensures ParseField("\"" + DoubleQuotes(s) + "\"" + tail) == (s, tail)
  {
    var inner := DoubleQuotes(s) + "\"" + tail;
    assert "\"" + DoubleQuotes(s) + "\"" + tail == "\"" + inner;
    assert ParseQuoted(inner) == (s, tail) by {
      ParseQuotedDoubled(s, tail);
    }
    assert ("\"" + inner)[1..] == inner;
  }

  /** A field with no special character is read back as it is. */
  lemma ParseBareField(s: string, tail: string)
    requires !NeedsQuotes(s)
    requires FieldEnd(tail)
    ensures ParseField(s + tail) == (s, tail)
  {
    assert ParseBare(s + tail) == (s, tail) by {
      ParseBarePlain(s, tail);
    }
    if |s| > 0 {
      assert s[0] in s;
      assert (s + tail)[0] == s[0];
    } else {
      assert s + tail == tail;
    }
  }

  /** Decoding an escaped cell followed by a separator (or nothing) gives the
      cell's text and leaves the separator. */
  lemma ParseFieldEscaped(c: Cell, tail: string)
    requires FieldEnd(tail)
    ensures ParseField(EscapeCell(c) + tail) == (TextOf(c), tail)
  {
    if NeedsQuotes(TextOf(c)) {
      ParseQuotedField(TextOf(c), tail);
    } else {
      ParseBareField(TextOf(c), tail);
    }
  }

  /** A record ends where the text ends or a line feed follows. */
  predicate RecordEnd(tail: string)
  {
    tail == [] || tail[0] == '\n'
  }

  lemma RowTextCons(row: seq<Cell>)
    requires |row| >= 2
    ensures RowText(row) == EscapeCell(row[0]) + "," + RowText(row[1..])
  {
    assert EscapeRow(row)[1..] == EscapeRow(row[1..]);
  }

  lemma TableTextCons(rows: seq<seq<Cell>>)
    requires |rows| >= 2
    ensures TableText(rows) == RowText(rows[0]) + "\n" + TableText(rows[1..])
  {
    assert Lines(rows)[1..] == Lines(rows[1..]);
  }

  /** Unfolds `ParseRow` once when the first field is followed by a comma. */
  lemma ParseRowComma(s: string, f: string, rest: string, fs: seq<string>, tail: string)
    requires ParseField(s) == (f, "," + rest)
    requires ParseRow(rest) == (fs, tail)
    ensures ParseRow(s) == ([f] + fs, tail)
  {
    assert ("," + rest)[1..] == rest;
  }

  /** Unfolds `ParseRecords` once when the first record is followed by a line feed. */
  lemma ParseRecordsLineFeed(s: string, row: seq<string>, rest: string, rows: seq<seq<string>>)
    requires ParseRow(s) == (row, "\n" + rest)
    requires ParseRecords(rest) == rows
    ensures ParseRecords(s) == [row] + rows
  {
    assert ("\n" + rest)[1..] == rest;
  }

  lemma ParseRowSingle(c: Cell, tail: string)
    requires RecordEnd(tail)
    ensures ParseRow(RowText([c]) + tail) == (RowTexts([c]), tail)
  {
    var s := RowText([c]) + tail;
    assert s == EscapeCell(c) + tail;
    assert ParseField(s) == (TextOf(c), tail) by {
      ParseFieldEscaped(c, tail);
    }
    assert RowTexts([c]) == [TextOf(c)];
  }

  lemma {:induction false} ParseRowEscaped(row: seq<Cell>, tail: string)
    requires |row| > 0
    requires RecordEnd(tail)
    ensures ParseRow(RowText(row) + tail) == (RowTexts(row), tail)
    decreases |row|
  {
    var head := TextOf(row[0]);
    if |row| == 1 {
      ParseRowSingle(row[0], tail);
      assert row == [row[0]];
    } else {
      var more := RowText(row[1..]) + tail;
      var s := RowText(row) + tail;
      assert s == EscapeCell(row[0]) + ("," + more) by {
        RowTextCons(row);
      }
      assert ParseField(s) == (head, "," + more) by {
        ParseFieldEscaped(row[0], "," + more);
      }
      assert ParseRow(more) == (RowTexts(row[1..]), tail) by {
        ParseRowEscaped(row[1..], tail);
      }
      ParseRowComma(s, head, more, RowTexts(row[1..]), tail);
      assert RowTexts(row) == [head] + RowTexts(row[1..]);
    }
  }

  /** The decoder reads the serialiser's text back to the cells' texts,
      provided no row is empty. */
  lemma {:induction false} TableRoundTrip(rows: seq<seq<Cell>>)
    requires |rows| > 0
    requires forall i :: 0 <= i < |rows| ==> |rows[i]| > 0
    ensures ParseRecords(TableText(rows)) == Texts(rows)
    decreases |rows|
  {
    if |rows| == 1 {
      assert TableText(rows) == RowText(rows[0]);
      ParseRowEscaped(rows[0], []);
      assert RowText(rows[0]) + [] == RowText(rows[0]);
      assert Texts(rows) == [RowTexts(rows[0])];
    } else {
      var more := TableText(rows[1..]);
      var s := TableText(rows);
      assert s == RowText(rows[0]) + ("\n" + more) by {
        TableTextCons(rows);
      }
      assert ParseRow(s) == (RowTexts(rows[0]), "\n" + more) by {
        ParseRowEscaped(rows[0], "\n" + more);
      }
      assert ParseRecords(more) == Texts(rows[1..]) by {
        TableRoundTrip(rows[1..]);
      }
      ParseRecordsLineFeed(s, RowTexts(rows[0]), more, Texts(rows[1..]));
      assert Texts(rows) == [RowTexts(rows[0])] + Texts(rows[1..]);
    }
  }

  /** A table without an empty row is its own filled table. */
  lemma {:induction false} FilledUnchanged(rows: seq<seq<Cell>>)
    ensures (forall i :: 0 <= i < |rows| ==> |rows[i]| > 0) ==> Filled(rows) == rows
    decreases |rows|
  {
    if rows != [] && forall i :: 0 <= i < |rows| ==> |rows[i]| > 0 {
      assert forall i :: 0 <= i < |rows[1..]| ==> |rows[1..][i]| > 0 by {
        forall i | 0 <= i < |rows[1..]|
          ensures |rows[1..][i]| > 0
        {
          assert rows[1..][i] == rows[i + 1];
        }
      }
      FilledUnchanged(rows[1..]);
      assert |rows[0]| > 0;
    }
  }

  /** Filling empty rows changes nothing in the printed text. */
  lemma {:induction false} LinesFilled(rows: seq<seq<Cell>>)
    ensures Lines(Filled(rows)) == Lines(rows)
    decreases |rows|
  {
    if rows != [] {
      LinesFilled(rows[1..]);
      assert RowText(FillRow(rows[0])) == RowText(rows[0]);
      assert Filled(rows)[1..] == Filled(rows[1..]);
    }
  }

  /** Row `i` of a filled table is row `i` of the table, or one empty cell
      where that row is empty. */
  lemma {:induction false} FilledAt(rows: seq<seq<Cell>>, i: nat)
    requires i < |rows|
    ensures Filled(rows)[i] == FillRow(rows[i])
    decreases |rows|
  {
    if i > 0 {
      FilledAt(rows[1..], i - 1);
    }
  }

  /** Every non-empty table decodes back to its filled cell texts. */
  lemma RoundTripFilled(rows: seq<seq<Cell>>)
    requires |rows| > 0
    ensures ParseRecords(TableText(rows)) == Texts(Filled(rows))
  {
    forall i | 0 <= i < |Filled(rows)|
      ensures |Filled(rows)[i]| > 0
    {
      FilledAt(rows, i);
    }
    TableRoundTrip(Filled(rows));
    LinesFilled(rows);
  }

  /** Row `i` of the decoded text: an empty row reads back as one empty
      cell, any other row as its cells' texts. */
  lemma {:induction false} ReadBackRow(rows: seq<seq<Cell>>, i: nat)
    requires i < |rows|
    ensures Texts(Filled(rows))[i] == (if rows[i] == [] then [""] else RowTexts(rows[i]))
    decreases |rows|
  {
    if i > 0 {
      ReadBackRow(rows[1..], i - 1);
      assert Texts(Filled(rows))[i] == Texts(Filled(rows[1..]))[i - 1];
    } else if rows[0] == [] {
      assert RowTexts([Null]) == [""];
    }
  }

  /** Two rows with no special characters print as `a` LF `b`: the record
      separator is a bare line feed, and there is none after the last row. */
  lemma LineFeedSeparator(a: string, b: string)
    requires !NeedsQuotes(a) && !NeedsQuotes(b)
    ensures TableText([[Value(a)], [Value(b)]]) == a + "\n" + b
  {
    var rows := [[Value(a)], [Value(b)]];
    TableTextCons(rows);
    assert RowText(rows[0]) == a;
    assert rows[1..] == [[Value(b)]];
    assert TableText(rows[1..]) == RowText(rows[1]) == b;
  }

  /** A carriage return on its own does not cause quoting. */
  lemma CarriageReturnUnquoted()
    ensures EscapeCell(Value("a\rb")) == "a\rb"
  {
    assert !NeedsQuotes("a\rb");
  }
}
