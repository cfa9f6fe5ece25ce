/**
 * The `[Entries]` block of format 2 (`FlyEntrySerializerVer2`): every
 * field on a line of its own, between double quotes and escaped with the
 * general codec for the set `{'"'}`, and a `----` line closing each row.
 *
 * Reading strips each line. A line ending in a quote closes a field: the
 * text gathered so far plus the line with its quotes stripped is
 * unescaped. Any other non-empty line is gathered, without a leading quote,
 * followed by a newline, so that a field may span lines. `----`, or a
 * blank line before anything was gathered, closes the row; the end of the
 * file inside a row gives no row at all.
 */
module RowsV2 {
  import opened Text
  import opened TextFile
  import opened Escaping
  import opened Records

  const Quote: set<char> := {'"'}

  /** The line that closes a row. */
  const RowEnd: string := "----"

  /** What one stripped line does to the row being read. */
  datatype Step =
    | EndRow              // `----`, or a blank line before any text was gathered
    | EndField(value: string)
    | More(raw: string)   // the text gathered so far, now including this line

  /** The branches of `_read_row` for one stripped line `s`, with `raw` gathered before it. */
  function LineStep(s: string, raw: string): Step
  {
    if s == RowEnd || (raw == [] && s == []) then EndRow
    else if s != [] && s[|s| - 1] == '"' then EndField(Unescaped(raw + StripIn(s, Quote), Quote))
    else if s != [] && s[0] == '"' then More(raw + s[1..] + "\n")
    else if s != [] then More(raw + s + "\n")
    else More(raw + "\n")
  }

  /**
   * `_read_row` from cursor `i`, with `raw` the text gathered for the field
   * being read and `values` the fields read: the row and the cursor after it.
   */
  function ReadRowFrom(lines: seq<string>, i: nat, raw: string, values: seq<string>): (seq<string>, nat)
    requires i <= |lines|
    decreases |lines| - i
  {
    var line := LineAt(lines, i);
    if line == [] then ([], Next(lines, i))
    else
      match LineStep(Strip(line), raw)
      case EndRow => (values, i + 1)
      case EndField(v) => ReadRowFrom(lines, i + 1, [], values + [v])
      case More(raw') => ReadRowFrom(lines, i + 1, raw', values)
  }

  /** `_read_row` at cursor `i`. */
  function ReadRow(lines: seq<string>, i: nat): (seq<string>, nat)
    requires i <= |lines|
  {
    ReadRowFrom(lines, i, [], [])
  }

  /** Reading a row never moves the cursor back or past the end, and moves it whenever it gives a row. */
  lemma {:induction false} ReadRowProgress(lines: seq<string>, i: nat, raw: string, values: seq<string>)
    requires i <= |lines|
    ensures var (row, j) := ReadRowFrom(lines, i, raw, values);
      i <= j <= |lines| && (row != [] ==> i < j)
    decreases |lines| - i
  {
    var line := LineAt(lines, i);
    if line != [] {
      match LineStep(Strip(line), raw)
      case EndRow =>
      case EndField(v) => ReadRowProgress(lines, i + 1, [], values + [v]);
      case More(raw') => ReadRowProgress(lines, i + 1, raw', values);
    }
  }

  /** A line that, stripped, is neither `----` nor blank. */
  predicate KeepsOpen(line: string)
  {
    line != [] && Strip(line) != RowEnd && Strip(line) != []
  }

  /** One line that keeps the row open either closes a field or gathers more text, and reading goes on. */
  lemma OpenStep(lines: seq<string>, i: nat, raw: string, values: seq<string>) returns (raw': string, values': seq<string>)
    requires i < |lines| && KeepsOpen(lines[i])
    ensures ReadRowFrom(lines, i, raw, values) == ReadRowFrom(lines, i + 1, raw', values')
  {
    assert LineAt(lines, i) == lines[i] != [];
    var st := LineStep(Strip(lines[i]), raw);
    assert !st.EndRow?;
    if st.EndField? {
      raw', values' := [], values + [st.value];
    } else {
      raw', values' := st.raw, values;
    }
  }

  /** The end of the file inside a row gives no row: when no line from `i` on closes one, the row is empty. */
  lemma {:induction false} ReadRowUnclosed(lines: seq<string>, i: nat, raw: string, values: seq<string>)
    requires i <= |lines|
    requires forall j :: i <= j < |lines| ==> KeepsOpen(lines[j])
    ensures ReadRowFrom(lines, i, raw, values).0 == []
    decreases |lines| - i
  {
    if i < |lines| {
      var raw', values' := OpenStep(lines, i, raw, values);
      ReadRowUnclosed(lines, i + 1, raw', values');
    }
  }

  /**
   * `_read_entries` from cursor `i`, with `acc` the rows read so far: each
   * row read gets the number of rows before it as its position slot, and
   * the first empty row ends the block.
   */
  function ReadEntries(lines: seq<string>, i: nat, acc: seq<Row>): (seq<Row>, nat)
    requires i <= |lines|
    decreases |lines| - i
  {
    var (row, j) := ReadRow(lines, i);
    ReadRowProgress(lines, i, [], []);
    if row == [] then (acc, j)
    else ReadEntries(lines, j, acc + [Row(row, |acc|)])
  }

  /** Reading the entries never moves the cursor back or past the end. */
  lemma {:induction false} ReadEntriesProgress(lines: seq<string>, i: nat, acc: seq<Row>)
    requires i <= |lines|
    ensures i <= ReadEntries(lines, i, acc).1 <= |lines|
    decreases |lines| - i
  {
    var (row, j) := ReadRow(lines, i);
    ReadRowProgress(lines, i, [], []);
    if row != [] {
      ReadEntriesProgress(lines, j, acc + [Row(row, |acc|)]);
    }
  }

  /** `_read_entries` extends rows numbered 0, 1, ... with more such rows, each with at least one field. */
  lemma {:induction false} ReadEntriesShape(lines: seq<string>, i: nat, acc: seq<Row>)
    requires i <= |lines| && Dense(acc) && HaveIds(acc)
    ensures Dense(ReadEntries(lines, i, acc).0) && HaveIds(ReadEntries(lines, i, acc).0)
    decreases |lines| - i
  {
    var (row, j) := ReadRow(lines, i);
    ReadRowProgress(lines, i, [], []);
    if row != [] {
      var acc' := acc + [Row(row, |acc|)];
      assert Dense(acc') && HaveIds(acc');
      ReadEntriesShape(lines, j, acc');
    }
  }

  /** The loop of `_read_row`. */
  method ReadRowLoop(lines: seq<string>, i: nat) returns (row: seq<string>, j: nat)
    requires i <= |lines|
    ensures (row, j) == ReadRow(lines, i)
  {
    var values: seq<string> := [];
    var rawvalues := "";
    j := i;
    while true
      invariant i <= j <= |lines|
      invariant ReadRowFrom(lines, j, rawvalues, values) == ReadRow(lines, i)
      decreases |lines| - j
    {
      ghost var pos, gathered, before := j, rawvalues, values;
      var line := LineAt(lines, j);
      j := Next(lines, j);
      if line == [] {
        return [], j;
      }
      line := Strip(line);
      ghost var st := LineStep(line, rawvalues);
      assert ReadRowFrom(lines, pos, gathered, before) ==
        match st
        case EndRow => (before, j)
        case EndField(v) => ReadRowFrom(lines, j, [], before + [v])
        case More(r) => ReadRowFrom(lines, j, r, before);
      if line == RowEnd || (rawvalues == [] && line == []) {
        return values, j;
      } else if line != [] {
        if line[|line| - 1] == '"' {
          rawvalues := rawvalues + StripIn(line, Quote);
          var v := Unescape(rawvalues, Quote);
          values := values + [v];
          rawvalues := "";
          assert st == EndField(v);
        } else if line[0] == '"' {
          rawvalues := rawvalues + line[1..];
          rawvalues := rawvalues + "\n";
          assert st == More(rawvalues);
        } else {
          rawvalues := rawvalues + line;
          rawvalues := rawvalues + "\n";
          assert st == More(rawvalues);
        }
      } else {
        rawvalues := rawvalues + "\n";
        assert st == More(rawvalues);
      }
    }
  }

  /** The loop of `_read_entries`. */
  method ReadEntriesBlock(lines: seq<string>, start: nat) returns (rows: seq<Row>, j: nat)
    requires start <= |lines|
    ensures (rows, j) == ReadEntries(lines, start, [])
  {
    rows := [];
    var i := start;
    while true
      invariant start <= i <= |lines|
      invariant ReadEntries(lines, i, rows) == ReadEntries(lines, start, [])
      decreases |lines| - i
    {
      var row, next := ReadRowLoop(lines, i);
      ReadRowProgress(lines, i, [], []);
      if row == [] {
        return rows, next;
      }
      rows := rows + [Row(row, |rows|)];
      i := next;
    }
  }

  /* ---------------- writing, and reading back ---------------- */

  /** Each field through `escape(f, '"')`. */
  function Encoded(fields: seq<string>): (r: seq<string>)
    ensures |r| == |fields|
  {
    seq(|fields|, k requires 0 <= k < |fields| => Escaped(fields[k], Quote))
  }

  /** What `write_all` prints for one row: the quoted fields joined by newlines, then `----`. */
  function RowText(fields: seq<string>): string
  {
    "\"" + Join(Encoded(fields), "\"\n\"") + "\"\n" + RowEnd
  }

  /** The same row as the lines it occupies: one quoted field per line, then `----`. */
  function RowLines(fields: seq<string>): (r: seq<string>)
    ensures |r| == |fields| + 1
    ensures forall k :: 0 <= k < |fields| ==> r[k] == "\"" + Escaped(fields[k], Quote) + "\""
    ensures r[|fields|] == RowEnd
  {
    seq(|fields|, k requires 0 <= k < |fields| => "\"" + Escaped(fields[k], Quote) + "\"") + [RowEnd]
  }

  /** The lines of all rows, one after another. */
  function EntryLines(rows: seq<Row>): seq<string>
  {
    if rows == [] then [] else RowLines(rows[0].fields) + EntryLines(rows[1..])
  }

  lemma {:induction false} QuotedJoin(escs: seq<string>)
    requires escs != []
    ensures "\"" + Join(escs, "\"\n\"") + "\"\n" == Printed(seq(|escs|, k requires 0 <= k < |escs| => "\"" + escs[k] + "\""))
  {
    var qs := seq(|escs|, k requires 0 <= k < |escs| => "\"" + escs[k] + "\"");
    if |escs| > 1 {
      QuotedJoin(escs[1..]);
      assert qs[1..] == seq(|escs| - 1, k requires 0 <= k < |escs| - 1 => "\"" + escs[1..][k] + "\"");
      calc {
        "\"" + Join(escs, "\"\n\"") + "\"\n";
        "\"" + (escs[0] + "\"\n\"" + Join(escs[1..], "\"\n\"")) + "\"\n";
        ("\"" + escs[0] + "\"") + "\n" + ("\"" + Join(escs[1..], "\"\n\"") + "\"\n");
      }
    } else {
      assert qs[1..] == [];
    }
  }

  /** A row's printed text is, line for line, its quoted fields and `----`. */
  lemma RowTextLines(fields: seq<string>)
    requires fields != []
    ensures RowText(fields) + "\n" == Printed(RowLines(fields))
  {
    var escs := Encoded(fields);
    var qs := seq(|escs|, k requires 0 <= k < |escs| => "\"" + escs[k] + "\"");
    QuotedJoin(escs);
    assert RowLines(fields) == qs + [RowEnd];
    PrintedAppend(qs, [RowEnd]);
    assert Printed([RowEnd]) == RowEnd + "\n" + Printed([]);
  }

  /** A field that survives writing and reading: no backslash, no line break, not ending in a quote. */
  predicate GoodField(f: string)
  {
    '\\' !in f && NoBreak(f) && (f == [] || f[|f| - 1] != '"')
  }

  /** Rows that survive writing and reading: at least one field each, every field good. */
  predicate GoodRows(rows: seq<Row>)
  {
    forall k :: 0 <= k < |rows| ==> rows[k].fields != [] && forall j :: 0 <= j < |rows[k].fields| ==> GoodField(rows[k].fields[j])
  }

  /** Stripping the quotes off a quoted escaped field gives the escaped field. */
  lemma StripQuotes(e: string)
    requires e == [] || (e[0] != '"' && e[|e| - 1] != '"')
    ensures StripIn("\"" + e + "\"", Quote) == e
  {
    if e == [] {
      var q := "\"" + e + "\"";
      assert q == ['"', '"'] && q[1..] == ['"'] && q[1..][1..] == [];
      assert TrimLeft(q[1..][1..], Quote) == [];
      assert TrimLeft(q[1..], Quote) == [];
      assert TrimLeft(q, Quote) == [];
    } else {
      StripEnclosed(e, '"', '"', Quote);
    }
  }

  /** The line written for a good field reads back, stripped, as the quoted escaped field, and closes a field. */
  lemma FieldLine(f: string)
    requires GoodField(f)
    ensures var x := "\"" + Escaped(f, Quote) + "\"";
      && NoBreak(x) && Strip(x + "\n") == x && x != RowEnd && x[|x| - 1] == '"'
      && Unescaped(StripIn(x, Quote), Quote) == f
  {
    var e := Escaped(f, Quote);
    var x := "\"" + e + "\"";
    assert x[0] == '"' && x[|x| - 1] == '"';
    StripLine(x);
    if f != [] {
      EscapedQuoteEdges(f);
    }
    StripQuotes(e);
    UnescapeEscapeNoBackslash(f, Quote);
  }

  lemma RowEndLine()
    ensures Strip(RowEnd + "\n") == RowEnd
  {
    StripLine(RowEnd);
  }

  /** Line `j` closes a field, with nothing gathered before it, giving `f`. */
  predicate ClosesField(lines: seq<string>, j: nat, f: string)
  {
    j < |lines| && lines[j] != [] && LineStep(Strip(lines[j]), []) == EndField(f)
  }

  /** Lines `i`, `i + 1`, ... each close one of `fields`, in order. */
  predicate FieldsAt(lines: seq<string>, i: nat, fields: seq<string>)
  {
    forall k :: 0 <= k < |fields| ==> ClosesField(lines, i + k, fields[k])
  }

  /** Line `j` closes the row. */
  predicate ClosesRow(lines: seq<string>, j: nat)
  {
    j < |lines| && lines[j] != [] && LineStep(Strip(lines[j]), []) == EndRow
  }

  lemma FieldsRest(lines: seq<string>, i: nat, fields: seq<string>)
    requires FieldsAt(lines, i, fields) && fields != []
    ensures ClosesField(lines, i, fields[0])
    ensures FieldsAt(lines, i + 1, fields[1..])
  {
    assert ClosesField(lines, i + 0, fields[0]);
    forall k | 0 <= k < |fields| - 1
      ensures ClosesField(lines, i + 1 + k, fields[1..][k])
    {
      assert ClosesField(lines, i + (k + 1), fields[k + 1]);
    }
  }

  /**
   * A line that closes the first of `fields`, with nothing gathered, adds
   * that field: reading on from the next line gives the rest.
   */
  lemma FieldStep(lines: seq<string>, i: nat, e: nat, fields: seq<string>, values: seq<string>)
    requires fields != [] && ClosesField(lines, i, fields[0])
    requires ReadRowFrom(lines, i + 1, [], values + [fields[0]]) == (values + [fields[0]] + fields[1..], e)
    ensures ReadRowFrom(lines, i, [], values) == (values + fields, e)
  {
    assert LineAt(lines, i) == lines[i];
    ConsTail(values, fields);
  }

  /** A line that closes the row, with nothing gathered, ends the read with the values so far. */
  lemma RowStep(lines: seq<string>, i: nat, values: seq<string>)
    requires ClosesRow(lines, i)
    ensures ReadRowFrom(lines, i, [], values) == (values, i + 1)
  {
    assert LineAt(lines, i) == lines[i];
  }

  /**
   * Reading, from a point where no text is gathered, lines that each close
   * a field and then a line that closes the row adds those fields to the
   * values and stops after the closing line.
   */
  lemma {:induction false} ReadFieldsAt(lines: seq<string>, i: nat, e: nat, fields: seq<string>, values: seq<string>)
    requires e == i + |fields|
    requires FieldsAt(lines, i, fields) && ClosesRow(lines, e)
    ensures ReadRowFrom(lines, i, [], values) == (values + fields, e + 1)
    decreases |fields|
  {
    if fields == [] {
      RowStep(lines, i, values);
      assert values + fields == values;
    } else {
      FieldsRest(lines, i, fields);
      ReadFieldsAt(lines, i + 1, e, fields[1..], values + [fields[0]]);
      FieldStep(lines, i, e + 1, fields, values);
    }
  }

  /** The line written for a good field closes that field. */
  lemma WrittenFieldCloses(lines: seq<string>, j: nat, f: string)
    requires GoodField(f)
    requires j < |lines| && lines[j] == "\"" + Escaped(f, Quote) + "\"" + "\n"
    ensures ClosesField(lines, j, f)
  {
    FieldLine(f);
    var x := "\"" + Escaped(f, Quote) + "\"";
    assert [] + StripIn(x, Quote) == StripIn(x, Quote);
  }

  /** The lines printed for a row of good fields close those fields and then the row. */
  lemma WrittenFieldsAt(lines: seq<string>, i: nat, fields: seq<string>)
    requires forall j :: 0 <= j < |fields| ==> GoodField(fields[j])
    requires i + |fields| + 1 <= |lines|
    requires lines[i..i + |fields| + 1] == Terminated(RowLines(fields))
    ensures FieldsAt(lines, i, fields) && ClosesRow(lines, i + |fields|)
  {
    forall k | 0 <= k < |fields|
      ensures ClosesField(lines, i + k, fields[k])
    {
      assert lines[i + k] == lines[i..i + |fields| + 1][k];
      WrittenFieldCloses(lines, i + k, fields[k]);
    }
    assert lines[i + |fields|] == lines[i..i + |fields| + 1][|fields|];
    RowEndLine();
  }

  /** `_read_row` on the lines printed for a row of good fields gives those fields and stops after `----`. */
  lemma ReadWrittenRow(lines: seq<string>, i: nat, fields: seq<string>)
    requires forall j :: 0 <= j < |fields| ==> GoodField(fields[j])
    requires i + |fields| + 1 <= |lines|
    requires lines[i..i + |fields| + 1] == Terminated(RowLines(fields))
    ensures ReadRow(lines, i) == (fields, i + |fields| + 1)
  {
    WrittenFieldsAt(lines, i, fields);
    var none: seq<string> := [];
    ReadFieldsAt(lines, i, i + |fields|, fields, none);
    assert none + fields == fields;
  }

  /** Line `i` starts rows that `_read_row` reads as the non-empty fields of `rows`, one after another. */
  predicate RowsAt(lines: seq<string>, i: nat, rows: seq<Row>)
    decreases |rows|
  {
    rows == [] ||
    (i <= |lines| && rows[0].fields != [] && ReadRow(lines, i) == (rows[0].fields, i + |rows[0].fields| + 1)
     && RowsAt(lines, i + |rows[0].fields| + 1, rows[1..]))
  }

  /** The number of lines the rows occupy. */
  function Height(rows: seq<Row>): nat
  {
    if rows == [] then 0 else |rows[0].fields| + 1 + Height(rows[1..])
  }

  lemma {:induction false} EntryLinesHeight(rows: seq<Row>)
    ensures |EntryLines(rows)| == Height(rows)
  {
    if rows != [] {
      EntryLinesHeight(rows[1..]);
    }
  }

  lemma RenumberedCons(acc: seq<Row>, rows: seq<Row>)
    requires rows != []
    ensures acc + [Row(rows[0].fields, |acc|)] + Renumbered(rows[1..], |acc| + 1) == acc + Renumbered(rows, |acc|)
  {
  }

  /**
   * Reading rows laid out one after another, up to a point where the next
   * read gives the empty row, gives those rows renumbered on from the rows
   * read before.
   */
  lemma {:induction false} ReadRowsAt(lines: seq<string>, i: nat, e: nat, rows: seq<Row>, acc: seq<Row>)
    requires RowsAt(lines, i, rows) && e == i + Height(rows) && e <= |lines|
    requires ReadRow(lines, e).0 == []
    ensures ReadEntries(lines, i, acc) == (acc + Renumbered(rows, |acc|), ReadRow(lines, e).1)
    decreases |rows|
  {
    if rows == [] {
      assert acc + Renumbered(rows, |acc|) == acc;
    } else {
      var j := i + |rows[0].fields| + 1;
      RowsAtUncons(lines, i, j, rows);
      assert e == j + Height(rows[1..]);
      ReadRowsAt(lines, j, e, rows[1..], acc + [Row(rows[0].fields, |acc|)]);
      RowStepEntries(lines, i, j, rows, acc, ReadRow(lines, e).1);
    }
  }

  /** A row read at `i` goes in front of the rows read after it, numbered on. */
  lemma RowStepEntries(lines: seq<string>, i: nat, j: nat, rows: seq<Row>, acc: seq<Row>, end: nat)
    requires rows != [] && rows[0].fields != [] && i <= |lines| && ReadRow(lines, i) == (rows[0].fields, j)
    requires j <= |lines|
    requires var next := acc + [Row(rows[0].fields, |acc|)];
      ReadEntries(lines, j, next) == (next + Renumbered(rows[1..], |next|), end)
    ensures ReadEntries(lines, i, acc) == (acc + Renumbered(rows, |acc|), end)
  {
    RenumberedCons(acc, rows);
  }

  lemma RowsAtUncons(lines: seq<string>, i: nat, j: nat, rows: seq<Row>)
    requires rows != [] && RowsAt(lines, i, rows) && j == i + |rows[0].fields| + 1
    ensures rows[0].fields != [] && i <= |lines|
    ensures ReadRow(lines, i) == (rows[0].fields, j) && RowsAt(lines, j, rows[1..])
  {
  }

  lemma RowsAtCons(lines: seq<string>, i: nat, j: nat, rows: seq<Row>)
    requires rows != [] && rows[0].fields != [] && i <= |lines| && j == i + |rows[0].fields| + 1
    requires ReadRow(lines, i) == (rows[0].fields, j) && RowsAt(lines, j, rows[1..])
    ensures RowsAt(lines, i, rows)
  {
  }

  /** The lines printed for good rows are laid out as those rows. */
  lemma {:induction false} WrittenRowsAt(lines: seq<string>, i: nat, e: nat, rows: seq<Row>)
    requires GoodRows(rows) && e == i + Height(rows) && e <= |lines|
    requires lines[i..e] == Terminated(EntryLines(rows))
    ensures RowsAt(lines, i, rows)
    decreases |rows|
  {
    if rows != [] {
      var fields := rows[0].fields;
      var rest := rows[1..];
      GoodRowsSplit(rows);
      EntryLinesHeight(rest);
      var j := i + |fields| + 1;
      assert e == j + Height(rest);
      assert EntryLines(rows) == RowLines(fields) + EntryLines(rest);
      TerminatedSplit(lines, i, j, e, RowLines(fields), EntryLines(rest));
      ReadWrittenRow(lines, i, fields);
      WrittenRowsAt(lines, j, e, rest);
      RowsAtCons(lines, i, j, rows);
    }
  }

  lemma GoodRowsSplit(rows: seq<Row>)
    requires rows != [] && GoodRows(rows)
    ensures rows[0].fields != [] && forall k :: 0 <= k < |rows[0].fields| ==> GoodField(rows[0].fields[k])
    ensures GoodRows(rows[1..])
  {
    assert forall k :: 0 <= k < |rows[1..]| ==> rows[1..][k] == rows[k + 1];
  }

  /**
   * The format-2 entries round trip: `_read_entries` on the lines
   * `write_all` printed for good rows, up to a point where the next read
   * gives the empty row (the end of the file), gives back every row's fields
   * with position slots 0, 1, ....
   */
  lemma ReadWrittenRows(lines: seq<string>, i: nat, e: nat, rows: seq<Row>)
    requires GoodRows(rows) && e == i + Height(rows) && e <= |lines|
    requires lines[i..e] == Terminated(EntryLines(rows))
    requires ReadRow(lines, e).0 == []
    ensures ReadEntries(lines, i, []) == (Renumbered(rows, 0), ReadRow(lines, e).1)
  {
    WrittenRowsAt(lines, i, e, rows);
    var none: seq<Row> := [];
    ReadRowsAt(lines, i, e, rows, none);
    assert none + Renumbered(rows, |none|) == Renumbered(rows, 0);
  }

  /** At the end of the file `_read_row` gives the empty row and leaves the cursor there. */
  lemma ReadRowAtEnd(lines: seq<string>)
    ensures ReadRow(lines, |lines|) == ([], |lines|)
  {
  }
}
