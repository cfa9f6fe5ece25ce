/**
 * The `[Entries]` block of format 1 (`FlyEntrySerializerVer1`): one row per
 * line, each field escaped with the format-1 codec and followed by `;`.
 * Reading a line splits it on `;`, strips and unescapes every piece and
 * drops the last one (what follows the final `;`), so a line without `;`,
 * in particular a blank line or the end of the file, gives the empty row
 * that ends the block.
 */
module RowsV1 {
  import opened Text
  import opened TextFile
  import opened Escaping
  import opened Records

  /** `[_unescape(f.strip()) for f in parts]`. */
  function Decoded(parts: seq<string>): (r: seq<string>)
    ensures |r| == |parts|
  {
    seq(|parts|, k requires 0 <= k < |parts| => Unescaped1(Strip(parts[k])))
  }

  /** The row `_read_row` makes of one line: every piece before the last `;`, stripped and unescaped. */
  function RowOfLine(line: string): seq<string>
  {
    var parts := Split(line, ';');
    SplitSpec(line, ';');
    Decoded(parts[..|parts| - 1])
  }

  /** A line gives the empty row, which ends the block, exactly when it has no `;`; it has one field per `;`. */
  lemma RowOfLineSpec(line: string)
    ensures RowOfLine(line) == [] <==> ';' !in line
    ensures |RowOfLine(line)| == |Split(line, ';')| - 1
  {
    SplitSpec(line, ';');
  }

  /** The end of the file reads as the empty row. */
  lemma RowAtEnd(lines: seq<string>, i: nat)
    requires i >= |lines|
    ensures RowOfLine(LineAt(lines, i)) == []
  {
    RowOfLineSpec(LineAt(lines, i));
  }

  /**
   * `_read_entries` from cursor `i`, with `acc` the rows read so far: each
   * row read gets the number of rows before it as its position slot; the
   * result is the rows and the cursor after the line that ended the block.
   */
  function ReadEntries(lines: seq<string>, i: nat, acc: seq<Row>): (seq<Row>, nat)
    requires i <= |lines|
    decreases |lines| - i
  {
    var row := RowOfLine(LineAt(lines, i));
    if row == [] then (acc, Next(lines, i))
    else
      assert i < |lines| by {
        if i >= |lines| {
          RowAtEnd(lines, i);
        }
      }
      ReadEntries(lines, i + 1, acc + [Row(row, |acc|)])
  }

  /** The loop of `_read_row`: one `readline`, split, and each piece stripped and unescaped. */
  method ReadRow(lines: seq<string>, i: nat) returns (row: seq<string>, j: nat)
    requires i <= |lines|
    ensures row == RowOfLine(LineAt(lines, i))
    ensures j == Next(lines, i)
  {
    var line := LineAt(lines, i);
    j := Next(lines, i);
    var rawvalues := Split(line, ';');
    SplitSpec(line, ';');
    var values: seq<string> := [];
    var k := 0;
    while k < |rawvalues|
      invariant 0 <= k <= |rawvalues|
      invariant values == Decoded(rawvalues[..k])
    {
      var v := Unescape1(Strip(rawvalues[k]));
      values := values + [v];
      k := k + 1;
    }
    assert rawvalues[..k] == rawvalues;
    row := values[..|values| - 1];
  }

  /** The loop of `_read_entries`. */
  method ReadEntriesBlock(lines: seq<string>, start: nat) returns (rows: seq<Row>, j: nat)
    requires start <= |lines|
    ensures (rows, j) == ReadEntries(lines, start, [])
  {
    rows := [];
    var i := start;
    while true
      invariant start <= i <= |lines|
      invariant ReadEntries(lines, i, rows) == ReadEntries(lines, start, [])
      decreases |lines| - i
    {
      var row, next := ReadRow(lines, i);
      if row == [] {
        return rows, next;
      }
      if i >= |lines| {
        RowAtEnd(lines, i);
      }
      rows := rows + [Row(row, |rows|)];
      i := next;
    }
  }

  /* ---------------- writing, and reading back ---------------- */

  /** Each field through `_escape`. */
  function Encoded(fields: seq<string>): (r: seq<string>)
    ensures |r| == |fields|
    ensures forall k :: 0 <= k < |r| ==> ';' !in r[k]
  {
    seq(|fields|, k requires 0 <= k < |fields| => Escaped1(fields[k]))
  }

  /** The line `write_all` prints for a row: the escaped fields, each followed by `;`. */
  function RowLine(fields: seq<string>): string
  {
    Join(Encoded(fields), ";") + ";"
  }

  function RowLines(rows: seq<Row>): (r: seq<string>)
    ensures |r| == |rows|
    ensures forall k :: 0 <= k < |rows| ==> r[k] == RowLine(rows[k].fields)
  {
    seq(|rows|, k requires 0 <= k < |rows| => RowLine(rows[k].fields))
  }

  /**
   * A field that survives writing and reading: no carriage return (a line
   * break on reading), and no blank at either end other than a newline,
   * which `_escape` turns into `\n` before the strip.
   */
  predicate GoodField(f: string)
  {
    && '\r' !in f
    && (f == [] || ((f[0] == '\n' || f[0] !in Whitespace) && (f[|f| - 1] == '\n' || f[|f| - 1] !in Whitespace)))
  }

  /** Rows that survive writing and reading: at least one field each, every field good. */
  predicate GoodRows(rows: seq<Row>)
  {
    forall k :: 0 <= k < |rows| ==> rows[k].fields != [] && forall j :: 0 <= j < |rows[k].fields| ==> GoodField(rows[k].fields[j])
  }

  /** The escape of a good field is one that `strip()` leaves alone. */
  lemma EscapedStripped(f: string)
    requires GoodField(f)
    ensures IsStripped(Escaped1(f))
  {
    if f != [] {
      Escaped1Edges(f);
    }
  }

  /** A written row is one line, and holds a `;`. */
  lemma RowLineShape(fields: seq<string>)
    requires forall j :: 0 <= j < |fields| ==> '\r' !in fields[j]
    ensures NoBreak(RowLine(fields)) && ';' in RowLine(fields)
  {
    var escs := Encoded(fields);
    forall j | 0 <= j < |escs|
      ensures '\r' !in escs[j] && '\n' !in escs[j]
    {
      Escaped1Avoids(fields[j], '\r');
    }
    JoinAvoids(escs, ";", '\r');
    JoinAvoids(escs, ";", '\n');
    assert RowLine(fields)[|RowLine(fields)| - 1] == ';';
  }

  /** A good field comes back from stripping and unescaping what `_escape` wrote for it. */
  lemma ReadField(f: string)
    requires GoodField(f)
    ensures Unescaped1(Strip(Escaped1(f))) == f
  {
    EscapedStripped(f);
    StripInSpec(Escaped1(f), Whitespace);
    Unescape1Escape1(f);
  }

  /** `_read_row` on a line `write_all` printed gives back the fields of the row. */
  lemma ReadRowLine(fields: seq<string>)
    requires fields != []
    requires forall j :: 0 <= j < |fields| ==> GoodField(fields[j])
    ensures RowOfLine(RowLine(fields) + "\n") == fields
  {
    var escs := Encoded(fields);
    var line := RowLine(fields) + "\n";
    assert line == Join(escs, [';']) + [';'] + "\n";
    SplitJoinThen(escs, ';', "\n");
    SplitWhole("\n", ';');
    var parts := Split(line, ';');
    assert parts == escs + ["\n"];
    assert parts[..|parts| - 1] == escs;
    var row := Decoded(escs);
    assert RowOfLine(line) == row;
    forall j | 0 <= j < |fields|
      ensures row[j] == fields[j]
    {
      assert row[j] == Unescaped1(Strip(Escaped1(fields[j])));
      ReadField(fields[j]);
    }
  }

  /** Line `j` is one that `_read_row` reads as the (non-empty) fields of `row`. */
  predicate RowAt(lines: seq<string>, j: nat, row: Row)
  {
    j < |lines| && row.fields != [] && RowOfLine(lines[j]) == row.fields
  }

  /** Lines `i`, `i + 1`, ... are lines that `_read_row` reads as the fields of `rows`, in order. */
  predicate RowsAt(lines: seq<string>, i: nat, rows: seq<Row>)
  {
    forall k :: 0 <= k < |rows| ==> RowAt(lines, i + k, rows[k])
  }

  lemma RowsRest(lines: seq<string>, i: nat, rows: seq<Row>)
    requires RowsAt(lines, i, rows) && rows != []
    ensures RowAt(lines, i, rows[0])
    ensures RowsAt(lines, i + 1, rows[1..])
  {
    assert RowAt(lines, i + 0, rows[0]);
    forall k | 0 <= k < |rows| - 1
      ensures RowAt(lines, i + 1 + k, rows[1..][k])
    {
      assert RowAt(lines, i + (k + 1), rows[k + 1]);
    }
  }

  lemma RowsCons(lines: seq<string>, i: nat, row: Row, rows: seq<Row>)
    requires RowAt(lines, i, row) && RowsAt(lines, i + 1, rows)
    ensures RowsAt(lines, i, [row] + rows)
  {
    forall k | 0 <= k < |rows| + 1
      ensures RowAt(lines, i + k, ([row] + rows)[k])
    {
      if k > 0 {
        assert ([row] + rows)[k] == rows[k - 1];
        assert RowAt(lines, i + 1 + (k - 1), rows[k - 1]);
      }
    }
  }

  lemma RenumberedCons(acc: seq<Row>, rows: seq<Row>)
    requires rows != []
    ensures acc + [Row(rows[0].fields, |acc|)] + Renumbered(rows[1..], |acc| + 1) == acc + Renumbered(rows, |acc|)
  {
  }

  /**
   * Reading lines that hold the rows, up to a line without `;`, gives those
   * rows, renumbered on from the rows read before, and consumes the stop line.
   */
  lemma {:induction false} ReadRowsAt(lines: seq<string>, i: nat, e: nat, rows: seq<Row>, acc: seq<Row>)
    requires RowsAt(lines, i, rows) && e == i + |rows| && e <= |lines|
    requires ';' !in LineAt(lines, e)
    ensures ReadEntries(lines, i, acc) == (acc + Renumbered(rows, |acc|), Next(lines, e))
    decreases |rows|
  {
    if rows == [] {
      RowOfLineSpec(LineAt(lines, i));
      assert acc + Renumbered(rows, |acc|) == acc;
    } else {
      RowsRest(lines, i, rows);
      assert e == i + 1 + |rows[1..]|;
      ReadRowsAt(lines, i + 1, e, rows[1..], acc + [Row(rows[0].fields, |acc|)]);
      RowStep(lines, i, rows, acc, Next(lines, e));
    }
  }

  /** A row read at line `i` goes in front of the rows read after it, numbered on. */
  lemma RowStep(lines: seq<string>, i: nat, rows: seq<Row>, acc: seq<Row>, end: nat)
    requires rows != [] && RowAt(lines, i, rows[0])
    requires var next := acc + [Row(rows[0].fields, |acc|)];
      ReadEntries(lines, i + 1, next) == (next + Renumbered(rows[1..], |next|), end)
    ensures ReadEntries(lines, i, acc) == (acc + Renumbered(rows, |acc|), end)
  {
    assert LineAt(lines, i) == lines[i];
    RenumberedCons(acc, rows);
  }

  /**
   * What `_read_entries` from line `i`, with `acc` read before, may return
   * as `res`: the rows read before, then the rows of the lines from `i` on,
   * numbered on from them, up to the first line without `;` (or the end of
   * the file), which is consumed.
   */
  predicate EntriesRead(lines: seq<string>, i: nat, acc: seq<Row>, res: (seq<Row>, nat))
  {
    var all := res.0;
    && |acc| <= |all|
    && var rows := all[|acc|..];
    && i + |rows| <= |lines|
    && all == acc + Renumbered(rows, |acc|)
    && RowsAt(lines, i, rows)
    && ';' !in LineAt(lines, i + |rows|)
    && res.1 == Next(lines, i + |rows|)
  }

  /** A row read at line `i` goes in front of what is read after it. */
  lemma EntriesReadCons(lines: seq<string>, i: nat, acc: seq<Row>, row: Row, res: (seq<Row>, nat))
    requires RowAt(lines, i, row) && row.pos == |acc|
    requires EntriesRead(lines, i + 1, acc + [row], res)
    ensures EntriesRead(lines, i, acc, res)
  {
    var all := res.0;
    var acc' := acc + [row];
    var rest := all[|acc'|..];
    var rows := [row] + rest;
    assert all[|acc|..] == rows;
    assert rows[1..] == rest && rows[0] == row;
    RowsCons(lines, i, row, rest);
    RenumberedCons(acc, rows);
    assert i + 1 + |rest| == i + |rows|;
  }

  /** What `_read_entries` returns, whatever the lines. */
  lemma {:induction false} ReadEntriesSpec(lines: seq<string>, i: nat, acc: seq<Row>)
    requires i <= |lines|
    ensures EntriesRead(lines, i, acc, ReadEntries(lines, i, acc))
    decreases |lines| - i
  {
    var line := LineAt(lines, i);
    RowOfLineSpec(line);
    if RowOfLine(line) == [] {
      var all := ReadEntries(lines, i, acc).0;
      assert all == acc;
      assert all[|acc|..] == [];
    } else {
      if i >= |lines| {
        RowAtEnd(lines, i);
      }
      var row := Row(RowOfLine(line), |acc|);
      var acc' := acc + [row];
      ReadEntriesSpec(lines, i + 1, acc');
      assert ReadEntries(lines, i, acc) == ReadEntries(lines, i + 1, acc');
      assert LineAt(lines, i) == lines[i];
      EntriesReadCons(lines, i, acc, row, ReadEntries(lines, i + 1, acc'));
    }
  }

  /** The lines `write_all` prints for good rows are read back as those rows' fields. */
  lemma WrittenRowsAt(lines: seq<string>, i: nat, e: nat, rows: seq<Row>)
    requires GoodRows(rows) && e == i + |rows| && e <= |lines|
    requires lines[i..e] == Terminated(RowLines(rows))
    ensures RowsAt(lines, i, rows)
  {
    forall k | 0 <= k < |rows|
      ensures RowAt(lines, i + k, rows[k])
    {
      assert lines[i + k] == lines[i..e][k] == RowLine(rows[k].fields) + "\n";
      ReadRowLine(rows[k].fields);
    }
  }

  /**
   * The format-1 entries round trip: `_read_entries` on the lines
   * `write_all` printed for good rows, followed by the end of the file or a
   * line without `;`, gives back every row's fields with position slots
   * 0, 1, ..., and consumes the stop line.
   */
  lemma ReadWrittenRows(lines: seq<string>, i: nat, e: nat, rows: seq<Row>)
    requires GoodRows(rows) && e == i + |rows| && e <= |lines|
    requires lines[i..e] == Terminated(RowLines(rows))
    requires ';' !in LineAt(lines, e)
    ensures ReadEntries(lines, i, []) == (Renumbered(rows, 0), Next(lines, e))
  {
    var none: seq<Row> := [];
    assert ReadEntries(lines, i, none) == (none + Renumbered(rows, 0), Next(lines, e)) by {
      WrittenRowsAt(lines, i, e, rows);
      ReadRowsAt(lines, i, e, rows, none);
    }
    assert none + Renumbered(rows, 0) == Renumbered(rows, 0);
  }

  /** `_read_entries` returns rows numbered 0, 1, ... in order, each with at least one field. */
  lemma ReadEntriesShape(lines: seq<string>, i: nat)
    requires i <= |lines|
    ensures Dense(ReadEntries(lines, i, []).0) && HaveIds(ReadEntries(lines, i, []).0)
  {
    var e: seq<Row> := [];
    ReadEntriesSpec(lines, i, e);
    var all := ReadEntries(lines, i, e).0;
    var rows := all[|e|..];
    assert all == Renumbered(rows, 0);
    forall k | 0 <= k < |rows|
      ensures all[k].fields != []
    {
      assert RowAt(lines, i + k, rows[k]);
    }
  }
}
