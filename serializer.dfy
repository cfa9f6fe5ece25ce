/**
 * The two entry serializers as a whole: `read_all`, which reads `[Config]`
 * and `[Entries]` sections in any order until a line that names neither,
 * and `write_all`, which prints the config block and then the rows. The two
 * formats share everything but the way rows are laid out, so one reader and
 * one writer take the format as a parameter.
 */
module Serializer {
  import opened Wrappers
  import opened Text
  import opened TextFile
  import opened Records
  import opened ConfigBlock
  import RowsV1
  import RowsV2
  import Escaping

  /** The serializer chosen by the `Version=` line: "1" or "2". */
  datatype Format = V1 | V2

  /** What `read_all` returns: the sections it read, each present or not. */
  datatype Sections = Sections(config: Option<Config>, entries: Option<seq<Row>>)

  const Brackets: set<char> := {'[', ']'}

  /** The lines that open the two sections. */
  const ConfigHeader: string := "[Config]"
  const EntriesHeader: string := "[Entries]"

  /** `readline().strip().strip('[]')`: the section name a line opens. */
  function Tag(line: string): string
  {
    StripIn(Strip(line), Brackets)
  }

  lemma TagOfEmpty()
    ensures Tag([]) == []
  {
  }

  /** `_read_entries` of the given format; the cursor never moves back or past the end. */
  function ReadEntriesOf(fmt: Format, lines: seq<string>, i: nat): (r: (seq<Row>, nat))
    requires i <= |lines|
    ensures i <= r.1 <= |lines|
  {
    match fmt
    case V1 =>
      RowsV1.ReadEntriesSpec(lines, i, []);
      RowsV1.ReadEntries(lines, i, [])
    case V2 =>
      RowsV2.ReadEntriesProgress(lines, i, []);
      RowsV2.ReadEntries(lines, i, [])
  }

  /**
   * `read_all` from cursor `i` with `acc` the sections read so far: a
   * section read again replaces the earlier one, and the first line naming
   * no section (the end of the file included) ends the reading. A config
   * block that cannot be read makes the whole read fail.
   */
  function ReadAllFrom(fmt: Format, lines: seq<string>, i: nat, acc: Sections): Result<Sections, ReadError>
    requires i <= |lines|
    decreases |lines| - i
  {
    var line := LineAt(lines, i);
    var tag := Tag(line);
    if tag != "Config" && tag != "Entries" then Ok(acc)
    else
      assert line != [] by {
        TagOfEmpty();
      }
      if tag == "Config" then
        match ReadConfig(lines, Next(lines, i), [])
        case Err(e) => Err(e)
        case Ok((cfg, j)) =>
          ReadConfigStops(lines, Next(lines, i), []);
          ReadAllFrom(fmt, lines, j, acc.(config := Some(cfg)))
      else
        var (rows, j) := ReadEntriesOf(fmt, lines, Next(lines, i));
        ReadAllFrom(fmt, lines, j, acc.(entries := Some(rows)))
  }

  /** `read_all` returns its rows numbered 0, 1, ... in order, each with at least one field. */
  lemma {:induction false} ReadAllShape(fmt: Format, lines: seq<string>, i: nat, acc: Sections)
    requires i <= |lines|
    requires acc.entries.Some? ==> Dense(acc.entries.value) && HaveIds(acc.entries.value)
    ensures var r := ReadAllFrom(fmt, lines, i, acc);
      r.Ok? && r.value.entries.Some? ==> Dense(r.value.entries.value) && HaveIds(r.value.entries.value)
    decreases |lines| - i
  {
    var line := LineAt(lines, i);
    var tag := Tag(line);
    if tag == "Config" || tag == "Entries" {
      TagOfEmpty();
      if tag == "Config" {
        ReadConfigStops(lines, Next(lines, i), []);
        match ReadConfig(lines, Next(lines, i), [])
        case Err(_) =>
        case Ok((cfg, j)) => ReadAllShape(fmt, lines, j, acc.(config := Some(cfg)));
      } else {
        var (rows, j) := ReadEntriesOf(fmt, lines, Next(lines, i));
        match fmt {
          case V1 => RowsV1.ReadEntriesShape(lines, Next(lines, i));
          case V2 =>
            var e: seq<Row> := [];
            RowsV2.ReadEntriesShape(lines, Next(lines, i), e);
        }
        ReadAllShape(fmt, lines, j, acc.(entries := Some(rows)));
      }
    }
  }

  /** The loop of `read_all`. */
  method ReadAll(fmt: Format, lines: seq<string>, start: nat) returns (r: Result<Sections, ReadError>)
    requires start <= |lines|
    ensures r == ReadAllFrom(fmt, lines, start, Sections(None, None))
  {
    var rv := Sections(None, None);
    var i := start;
    while true
      invariant i <= |lines|
      invariant ReadAllFrom(fmt, lines, i, rv) == ReadAllFrom(fmt, lines, start, Sections(None, None))
      decreases |lines| - i
    {
      var line := LineAt(lines, i);
      var tag := StripIn(Strip(line), Brackets);
      if tag == "Config" {
        TagOfEmpty();
        i := Next(lines, i);
        var c := ReadConfigBlock(lines, i);
        ReadConfigStops(lines, i, []);
        match c {
          case Err(e) =>
            return Err(e);
          case Ok((cfg, j)) =>
            rv := rv.(config := Some(cfg));
            i := j;
        }
      } else if tag == "Entries" {
        TagOfEmpty();
        i := Next(lines, i);
        var rows, j;
        match fmt {
          case V1 =>
            rows, j := RowsV1.ReadEntriesBlock(lines, i);
          case V2 =>
            rows, j := RowsV2.ReadEntriesBlock(lines, i);
        }
        assert (rows, j) == ReadEntriesOf(fmt, lines, i);
        rv := rv.(entries := Some(rows));
        i := j;
      } else {
        return Ok(rv);
      }
    }
  }

  /* ---------------- writing ---------------- */

  /** What `write_all` prints for one row in the given format. */
  function RowOut(fmt: Format, fields: seq<string>): string
  {
    match fmt
    case V1 => RowsV1.RowLine(fields)
    case V2 => RowsV2.RowText(fields)
  }

  /** The strings `write_all` prints, one `print` each: the two section tags, the config lines, the rows. */
  function WrittenArgs(fmt: Format, cfg: Config, rows: seq<Row>): (r: seq<string>)
    ensures |r| == |cfg| + |rows| + 2
  {
    [ConfigHeader] + ConfigLines(cfg) + [EntriesHeader]
    + seq(|rows|, k requires 0 <= k < |rows| => RowOut(fmt, rows[k].fields))
  }

  /** The loop that escapes and joins the fields of one row. */
  method WriteRow(fmt: Format, fields: seq<string>) returns (out: string)
    ensures out == RowOut(fmt, fields)
  {
    var escs: seq<string> := [];
    var k := 0;
    while k < |fields|
      invariant 0 <= k <= |fields|
      invariant fmt.V1? ==> escs == RowsV1.Encoded(fields[..k])
      invariant fmt.V2? ==> escs == RowsV2.Encoded(fields[..k])
    {
      var e;
      match fmt {
        case V1 =>
          e := Escaping.Escape1(fields[k]);
        case V2 =>
          e := Escaping.Escape(fields[k], RowsV2.Quote);
      }
      escs := escs + [e];
      k := k + 1;
    }
    assert fields[..k] == fields;
    match fmt {
      case V1 =>
        out := Join(escs, ";") + ";";
      case V2 =>
        out := "\"" + Join(escs, "\"\n\"") + "\"\n" + RowsV2.RowEnd;
    }
  }

  /** The loop of `write_all`: the strings it prints, in order. */
  method WriteAll(fmt: Format, cfg: Config, rows: seq<Row>) returns (outs: seq<string>)
    ensures outs == WrittenArgs(fmt, cfg, rows)
  {
    outs := [ConfigHeader];
    var k := 0;
    while k < |cfg|
      invariant 0 <= k <= |cfg|
      invariant outs == [ConfigHeader] + ConfigLines(cfg)[..k]
    {
      var (key, v) := cfg[k];
      outs := outs + [key + "=" + Join(v, ";") + ";"];
      k := k + 1;
    }
    assert ConfigLines(cfg)[..k] == ConfigLines(cfg);
    outs := outs + [EntriesHeader];
    var head := outs;
    var texts: seq<string> := [];
    k := 0;
    while k < |rows|
      invariant 0 <= k <= |rows|
      invariant |texts| == k
      invariant forall m :: 0 <= m < k ==> texts[m] == RowOut(fmt, rows[m].fields)
    {
      var out := WriteRow(fmt, rows[k].fields);
      texts := texts + [out];
      k := k + 1;
    }
    outs := head + texts;
  }

  /* ---------------- reading back what was written ---------------- */

  /** The file's lines as printed, one per line break: a format-2 row spans several. */
  function FileLines(fmt: Format, cfg: Config, rows: seq<Row>): seq<string>
  {
    [ConfigHeader] + ConfigLines(cfg) + [EntriesHeader] + EntryLinesOf(fmt, rows)
  }

  function EntryLinesOf(fmt: Format, rows: seq<Row>): seq<string>
  {
    match fmt
    case V1 => RowsV1.RowLines(rows)
    case V2 => RowsV2.EntryLines(rows)
  }

  /** Rows that survive writing and reading in the given format. */
  predicate GoodRowsOf(fmt: Format, rows: seq<Row>)
  {
    match fmt
    case V1 => RowsV1.GoodRows(rows)
    case V2 => RowsV2.GoodRows(rows)
  }

  lemma {:induction false} PrintedRowTexts(rows: seq<Row>)
    requires RowsV2.GoodRows(rows)
    ensures Printed(seq(|rows|, k requires 0 <= k < |rows| => RowOut(V2, rows[k].fields))) == Printed(RowsV2.EntryLines(rows))
  {
    var texts := seq(|rows|, k requires 0 <= k < |rows| => RowOut(V2, rows[k].fields));
    if rows != [] {
      assert RowsV2.GoodRows(rows[1..]) by {
        forall k | 0 <= k < |rows| - 1
          ensures rows[1..][k] == rows[k + 1]
        {
        }
      }
      PrintedRowTexts(rows[1..]);
      assert texts[1..] == seq(|rows| - 1, k requires 0 <= k < |rows| - 1 => RowOut(V2, rows[1..][k].fields));
      RowsV2.RowTextLines(rows[0].fields);
      PrintedAppend(RowsV2.RowLines(rows[0].fields), RowsV2.EntryLines(rows[1..]));
    }
  }

  /** Printing the strings `write_all` prints writes the file's lines. */
  lemma PrintedFile(fmt: Format, cfg: Config, rows: seq<Row>)
    requires GoodRowsOf(fmt, rows)
    ensures Printed(WrittenArgs(fmt, cfg, rows)) == Printed(FileLines(fmt, cfg, rows))
  {
    var head := [ConfigHeader] + ConfigLines(cfg) + [EntriesHeader];
    var texts := seq(|rows|, k requires 0 <= k < |rows| => RowOut(fmt, rows[k].fields));
    PrintedAppend(head, texts);
    PrintedAppend(head, EntryLinesOf(fmt, rows));
    match fmt {
      case V1 =>
        assert texts == RowsV1.RowLines(rows);
      case V2 =>
        PrintedRowTexts(rows);
    }
  }

  lemma {:induction false} EntryLinesNoBreak(rows: seq<Row>)
    requires RowsV2.GoodRows(rows)
    ensures forall k :: 0 <= k < |RowsV2.EntryLines(rows)| ==> NoBreak(RowsV2.EntryLines(rows)[k])
  {
    if rows != [] {
      assert RowsV2.GoodRows(rows[1..]) by {
        forall k | 0 <= k < |rows| - 1
          ensures rows[1..][k] == rows[k + 1]
        {
        }
      }
      EntryLinesNoBreak(rows[1..]);
      var ls := RowsV2.RowLines(rows[0].fields);
      forall k | 0 <= k < |ls|
        ensures NoBreak(ls[k])
      {
        if k < |rows[0].fields| {
          var f := rows[0].fields[k];
          assert RowsV2.GoodField(f);
          var e := Escaping.Escaped(f, RowsV2.Quote);
          assert '\n' !in e && '\r' !in e;
        }
      }
    }
  }

  lemma ConfigLinesNoBreak(cfg: Config)
    requires GoodConfig(cfg)
    ensures forall k :: 0 <= k < |cfg| ==> NoBreak(ConfigLines(cfg)[k])
  {
    forall k | 0 <= k < |cfg|
      ensures NoBreak(ConfigLines(cfg)[k])
    {
      ParseWrittenLine(cfg[k].0, cfg[k].1);
    }
  }

  lemma RowLinesNoBreak(rows: seq<Row>)
    requires RowsV1.GoodRows(rows)
    ensures forall k :: 0 <= k < |rows| ==> NoBreak(RowsV1.RowLines(rows)[k])
  {
    forall k | 0 <= k < |rows|
      ensures NoBreak(RowsV1.RowLines(rows)[k])
    {
      RowsV1.RowLineShape(rows[k].fields);
    }
  }

  lemma EntryLinesOfNoBreak(fmt: Format, rows: seq<Row>)
    requires GoodRowsOf(fmt, rows)
    ensures forall k :: 0 <= k < |EntryLinesOf(fmt, rows)| ==> NoBreak(EntryLinesOf(fmt, rows)[k])
  {
    match fmt {
      case V1 => RowLinesNoBreak(rows);
      case V2 => EntryLinesNoBreak(rows);
    }
  }

  /** Every line of the file is a single line. */
  lemma FileLinesNoBreak(fmt: Format, cfg: Config, rows: seq<Row>)
    requires GoodConfig(cfg) && GoodRowsOf(fmt, rows)
    ensures forall k :: 0 <= k < |FileLines(fmt, cfg, rows)| ==> NoBreak(FileLines(fmt, cfg, rows)[k])
  {
    var cl := ConfigLines(cfg);
    var el := EntryLinesOf(fmt, rows);
    ConfigLinesNoBreak(cfg);
    EntryLinesOfNoBreak(fmt, rows);
    var fl := FileLines(fmt, cfg, rows);
    assert fl == [ConfigHeader] + cl + [EntriesHeader] + el;
    forall k | 0 <= k < |fl|
      ensures NoBreak(fl[k])
    {
      if 1 <= k <= |cfg| {
        assert fl[k] == cl[k - 1];
      } else if k > |cfg| + 1 {
        assert fl[k] == el[k - |cfg| - 2];
      }
    }
  }

  /** The two section lines read back as their section names. */
  lemma HeaderTags()
    ensures Tag(ConfigHeader + "\n") == "Config"
    ensures Tag(EntriesHeader + "\n") == "Entries"
  {
    StripLine(ConfigHeader);
    assert ConfigHeader == ['['] + "Config" + [']'];
    StripEnclosed("Config", '[', ']', Brackets);
    StripLine(EntriesHeader);
    assert EntriesHeader == ['['] + "Entries" + [']'];
    StripEnclosed("Entries", '[', ']', Brackets);
  }

  /** Printed lines of a header, a block, a second header and a second block, split into those four parts. */
  lemma SectionsAt(lines: seq<string>, i: nat, k: nat, h: string, block: seq<string>, h2: string, rest: seq<string>)
    requires i <= |lines| && lines[i..] == Terminated([h] + block + [h2] + rest)
    requires k == i + 1 + |block|
    ensures k < |lines|
    ensures lines[i] == h + "\n" && lines[k] == h2 + "\n"
    ensures lines[i + 1..k] == Terminated(block)
    ensures lines[k + 1..] == Terminated(rest)
  {
    var e := |lines|;
    var tail := [h2] + rest;
    assert [h] + block + [h2] + rest == [h] + (block + tail);
    assert lines[i..e] == lines[i..];
    TerminatedSplit(lines, i, i + 1, e, [h], block + tail);
    TerminatedSplit(lines, i + 1, k, e, block, tail);
    TerminatedSplit(lines, k, k + 1, e, [h2], rest);
    assert lines[i] == lines[i..i + 1][0];
    assert lines[k] == lines[k..k + 1][0];
    assert lines[k + 1..e] == lines[k + 1..];
  }

  /** The layout of the file's lines: the `[Config]` line, the config lines, the `[Entries]` line at `k`, the rows after it. */
  lemma FileLayout(lines: seq<string>, i: nat, k: nat, fmt: Format, cfg: Config, rows: seq<Row>)
    requires i <= |lines| && lines[i..] == Terminated(FileLines(fmt, cfg, rows))
    requires k == i + 1 + |cfg|
    ensures k < |lines|
    ensures Tag(lines[i]) == "Config"
    ensures lines[i + 1..k] == Terminated(ConfigLines(cfg))
    ensures TagAt(lines, k) && Tag(lines[k]) == "Entries"
    ensures lines[k + 1..] == Terminated(EntryLinesOf(fmt, rows))
  {
    SectionsAt(lines, i, k, ConfigHeader, ConfigLines(cfg), EntriesHeader, EntryLinesOf(fmt, rows));
    HeaderTags();
    assert lines[k][0] == EntriesHeader[0] == '[';
  }

  lemma ReadWrittenEntries1(lines: seq<string>, s: nat, rows: seq<Row>)
    requires RowsV1.GoodRows(rows)
    requires s <= |lines|
    requires lines[s..] == Terminated(RowsV1.RowLines(rows))
    ensures ReadEntriesOf(V1, lines, s) == (Renumbered(rows, 0), |lines|)
  {
    var e := s + |rows|;
    assert e == |lines| && lines[s..e] == lines[s..];
    assert LineAt(lines, e) == [];
    RowsV1.ReadWrittenRows(lines, s, e, rows);
    assert Next(lines, e) == |lines|;
  }

  lemma ReadWrittenEntries2(lines: seq<string>, s: nat, rows: seq<Row>)
    requires RowsV2.GoodRows(rows)
    requires s <= |lines|
    requires lines[s..] == Terminated(RowsV2.EntryLines(rows))
    ensures ReadEntriesOf(V2, lines, s) == (Renumbered(rows, 0), |lines|)
  {
    var e := |lines|;
    RowsV2.EntryLinesHeight(rows);
    assert e == s + RowsV2.Height(rows) && lines[s..e] == lines[s..];
    RowsV2.ReadRowAtEnd(lines);
    RowsV2.ReadWrittenRows(lines, s, e, rows);
  }

  /** The entries printed last in the file are read back as the rows, renumbered, up to the end of the file. */
  lemma ReadWrittenEntries(lines: seq<string>, s: nat, fmt: Format, rows: seq<Row>)
    requires GoodRowsOf(fmt, rows)
    requires s <= |lines|
    requires lines[s..] == Terminated(EntryLinesOf(fmt, rows))
    ensures ReadEntriesOf(fmt, lines, s) == (Renumbered(rows, 0), |lines|)
  {
    match fmt {
      case V1 => ReadWrittenEntries1(lines, s, rows);
      case V2 => ReadWrittenEntries2(lines, s, rows);
    }
  }

  /** A `[Config]` line followed by a readable config block: `read_all` takes the config and goes on after it. */
  lemma ReadAllConfig(fmt: Format, lines: seq<string>, i: nat, acc: Sections, cfg: Config, j: nat)
    requires i < |lines| && Tag(lines[i]) == "Config"
    requires ReadConfig(lines, i + 1, []) == Ok((cfg, j))
    ensures j <= |lines|
    ensures ReadAllFrom(fmt, lines, i, acc) == ReadAllFrom(fmt, lines, j, acc.(config := Some(cfg)))
  {
    ReadConfigStops(lines, i + 1, []);
    assert LineAt(lines, i) == lines[i];
  }

  /** An `[Entries]` line: `read_all` takes the rows and goes on after them. */
  lemma ReadAllEntries(fmt: Format, lines: seq<string>, i: nat, acc: Sections)
    requires i < |lines| && Tag(lines[i]) == "Entries"
    ensures var (rows, j) := ReadEntriesOf(fmt, lines, i + 1);
      ReadAllFrom(fmt, lines, i, acc) == ReadAllFrom(fmt, lines, j, acc.(entries := Some(rows)))
  {
    assert LineAt(lines, i) == lines[i];
  }

  /** An `[Entries]` line followed by rows up to the end of the file: `read_all` takes the rows and stops. */
  lemma ReadAllLastEntries(fmt: Format, lines: seq<string>, k: nat, acc: Sections, rows: seq<Row>)
    requires k < |lines| && Tag(lines[k]) == "Entries"
    requires ReadEntriesOf(fmt, lines, k + 1) == (rows, |lines|)
    ensures ReadAllFrom(fmt, lines, k, acc) == Ok(acc.(entries := Some(rows)))
  {
    ReadAllEntries(fmt, lines, k, acc);
    ReadAllEnd(fmt, lines, acc.(entries := Some(rows)));
  }

  /** `read_all` stops at the end of the file. */
  lemma ReadAllEnd(fmt: Format, lines: seq<string>, acc: Sections)
    ensures ReadAllFrom(fmt, lines, |lines|, acc) == Ok(acc)
  {
    TagOfEmpty();
  }

  /**
   * The whole-file round trip: `read_all` on the lines of a file
   * `write_all` wrote, from the first of them, gives back the config and
   * the rows, provided the keys, values and fields survive the trip and the
   * position slots are 0, 1, ... as after every load and reorder.
   */
  lemma ReadWrittenAll(lines: seq<string>, i: nat, fmt: Format, cfg: Config, rows: seq<Row>)
    requires GoodConfig(cfg) && GoodRowsOf(fmt, rows) && Dense(rows)
    requires i <= |lines| && lines[i..] == Terminated(FileLines(fmt, cfg, rows))
    ensures ReadAllFrom(fmt, lines, i, Sections(None, None)) == Ok(Sections(Some(cfg), Some(rows)))
  {
    var k := i + 1 + |cfg|;
    FileLayout(lines, i, k, fmt, cfg, rows);
    ReadWrittenConfig(lines, i + 1, cfg, k);
    ReadWrittenDense(lines, k, fmt, rows);
    ReadSections(lines, i, k, fmt, cfg, rows);
  }

  /** Rows whose positions are already `0, 1, …`, written after the header line `k`, read back unchanged. */
  lemma ReadWrittenDense(lines: seq<string>, k: nat, fmt: Format, rows: seq<Row>)
    requires GoodRowsOf(fmt, rows) && Dense(rows)
    requires k < |lines| && lines[k + 1..] == Terminated(EntryLinesOf(fmt, rows))
    ensures ReadEntriesOf(fmt, lines, k + 1) == (rows, |lines|)
  {
    ReadWrittenEntries(lines, k + 1, fmt, rows);
    DenseRenumbered(rows);
  }

  /** A `[Config]` header with its block, then an `[Entries]` header at `k` with rows up to the end of the file: `read_all` returns both. */
  lemma ReadSections(lines: seq<string>, i: nat, k: nat, fmt: Format, cfg: Config, rows: seq<Row>)
    requires i < k < |lines|
    requires Tag(lines[i]) == "Config" && ReadConfig(lines, i + 1, []) == Ok((cfg, k))
    requires Tag(lines[k]) == "Entries" && ReadEntriesOf(fmt, lines, k + 1) == (rows, |lines|)
    ensures ReadAllFrom(fmt, lines, i, Sections(None, None)) == Ok(Sections(Some(cfg), Some(rows)))
  {
    var s0 := Sections(None, None);
    ReadAllConfig(fmt, lines, i, s0, cfg, k);
    ReadAllLastEntries(fmt, lines, k, s0.(config := Some(cfg)), rows);
  }

  /** Reading back, line by line, the text `write_all` printed gives the config and the rows. */
  lemma ReadWrittenText(fmt: Format, cfg: Config, rows: seq<Row>)
    requires GoodConfig(cfg) && GoodRowsOf(fmt, rows) && Dense(rows)
    ensures ReadAllFrom(fmt, LinesOf(Printed(WrittenArgs(fmt, cfg, rows))), 0, Sections(None, None))
         == Ok(Sections(Some(cfg), Some(rows)))
  {
    PrintedFile(fmt, cfg, rows);
    FileLinesNoBreak(fmt, cfg, rows);
    LinesOfPrinted(FileLines(fmt, cfg, rows));
    var lines := LinesOf(Printed(WrittenArgs(fmt, cfg, rows)));
    assert lines[0..] == lines;
    ReadWrittenAll(lines, 0, fmt, cfg, rows);
  }
}
