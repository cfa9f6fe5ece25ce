/**
 * The in-memory table `FlyDb` (fit.py:202-344): its rows, the Id index
 * `rowmap`, the configuration, and the file it reloads from and writes to.
 *
 * In the source `rowmap` maps an Id to the row list itself, so a row
 * reached through `rowmap` and the same row in `rows` are one object. Here a
 * row is a value and `rowmap` maps an Id to the row's index in `rows`; every
 * operation that moves rows moves the indices with them, which keeps each
 * Id naming the same row the source's alias would.
 *
 * The file is its text (`None` where it cannot be opened); writing returns
 * the text that would be written. The generated Id and the two timestamps
 * of a new row are parameters.
 */
module Store {
  import opened Wrappers
  import opened Text
  import opened TextFile
  import opened Records
  import opened ConfigBlock
  import opened Serializer
  import opened Table

  /** `_default_cfg`: the configuration a store starts from and falls back to. */
  const DefaultConfig: Config := [
    ("Status.Default", ["Backlog"]),
    ("Type.Default", ["Todo"]),
    ("Type", ["Todo", "Comment", "Bug", "Wiki"]),
    ("Status", ["Backlog", "WIP", "Done"]),
    ("Status.Color", ["#FF7777", "#77AAFF", "#77FF77"]),
    ("Type.Color", ["Green", "Green", "Red", "Grey"]),
    ("Fields", Fields)
  ]

  /* ---------------- the Version= line ---------------- */

  const VersionBlanks: set<char> := {' ', '\n'}

  /** `line.split('=')[1].strip(' \n')`, or None where the line has no `=` and the index raises. */
  function VersionOf(line: string): Option<string>
  {
    var parts := Split(line, '=');
    if |parts| < 2 then None else Some(StripIn(parts[1], VersionBlanks))
  }

  /** The serializer table `{"1": ..., "2": ...}`; None where the lookup raises KeyError. */
  function FormatOf(ver: string): Option<Format>
  {
    if ver == "1" then Some(V1) else if ver == "2" then Some(V2) else None
  }

  /** The line `write_db` prints before the sections. */
  function VersionLine(ver: string): string
  {
    "Version=" + ver
  }

  /** The version line of a known version reads back as that version. */
  lemma VersionRead(ver: string)
    requires FormatOf(ver).Some?
    ensures VersionOf(VersionLine(ver) + "\n") == Some(ver)
  {
    var tail := ver + "\n";
    assert VersionLine(ver) + "\n" == "Version" + ['='] + tail;
    SplitAtFirst("Version", '=', tail);
    SplitWhole(tail, '=');
    assert TrimLeft(tail, VersionBlanks) == tail;
    assert tail[..|tail| - 1] == ver;
    assert TrimRight(ver, VersionBlanks) == ver;
  }

  /* ---------------- reload_db ---------------- */

  /** The state `reload_db` leaves, and what it returns. */
  datatype Loaded = Loaded(ok: bool, inver: string, cfg: Config, rows: seq<Row>, rowmap: map<string, nat>)

  /**
   * `reload_db` on a file holding `file`, from a store whose input version
   * was `inver`. Rows, index and configuration are reset first; the version
   * is taken before the serializer is chosen, so an unknown version is kept;
   * a file without `[Entries]` still leaves its configuration in place.
   */
  function Load(file: Option<string>, inver: string): Loaded
  {
    var failed := Loaded(false, inver, DefaultConfig, [], map[]);
    if file.None? then failed
    else
      var lines := LinesOf(file.value);
      match VersionOf(LineAt(lines, 0))
      case None => failed
      case Some(v) =>
        match FormatOf(v)
        case None => failed.(inver := v)
        case Some(fmt) =>
          match ReadAllFrom(fmt, lines, Next(lines, 0), Sections(None, None))
          case Err(_) => failed.(inver := v)
          case Ok(data) =>
            if data.config.None? then failed.(inver := v)
            else if data.entries.None? then failed.(inver := v, cfg := data.config.value)
            else
              ReadAllShape(fmt, lines, Next(lines, 0), Sections(None, None));
              Loaded(true, v, data.config.value, data.entries.value, IndexOf(data.entries.value))
  }

  /**
   * A reload leaves rows numbered by their index, each with an Id, and the
   * index of their Ids; a failed one leaves no rows.
   */
  lemma LoadShape(file: Option<string>, inver: string)
    ensures var r := Load(file, inver);
      && Dense(r.rows) && HaveIds(r.rows) && r.rowmap == IndexOf(r.rows)
      && (!r.ok ==> r.rows == [] && r.rowmap == map[])
  {
    if file.Some? {
      var lines := LinesOf(file.value);
      match VersionOf(LineAt(lines, 0))
      case None =>
      case Some(v) =>
        match FormatOf(v)
        case None =>
        case Some(fmt) =>
          ReadAllShape(fmt, lines, Next(lines, 0), Sections(None, None));
    }
  }

  /* ---------------- write_db ---------------- */

  /** The text `write_db` leaves in the file for output version `ver`, or None where the serializer lookup raises. */
  function Saved(ver: string, cfg: Config, rows: seq<Row>): Option<string>
  {
    match FormatOf(ver)
    case None => None
    case Some(fmt) => Some(Printed([VersionLine(ver)] + WrittenArgs(fmt, cfg, rows)))
  }

  /** A file whose version line names a serializer that reads back both sections loads them. */
  lemma LoadRead(text: string, inver: string, ver: string, fmt: Format, cfg: Config, rows: seq<Row>)
    requires VersionOf(LineAt(LinesOf(text), 0)) == Some(ver) && FormatOf(ver) == Some(fmt)
    requires ReadAllFrom(fmt, LinesOf(text), Next(LinesOf(text), 0), Sections(None, None)) == Ok(Sections(Some(cfg), Some(rows)))
    ensures HaveIds(rows)
    ensures Load(Some(text), inver) == Loaded(true, ver, cfg, rows, IndexOf(rows))
  {
    ReadAllShape(fmt, LinesOf(text), Next(LinesOf(text), 0), Sections(None, None));
  }

  /** The lines of the text `write_db` writes: the version line, then the file's sections, each ended by a newline. */
  lemma SavedLines(ver: string, fmt: Format, cfg: Config, rows: seq<Row>)
    requires FormatOf(ver) == Some(fmt)
    requires GoodConfig(cfg) && GoodRowsOf(fmt, rows)
    ensures LinesOf(Saved(ver, cfg, rows).value) == Terminated([VersionLine(ver)] + FileLines(fmt, cfg, rows))
  {
    var head := VersionLine(ver);
    var body := FileLines(fmt, cfg, rows);
    var outs := [head] + body;
    assert Saved(ver, cfg, rows).value == Printed(outs) by {
      PrintedAppend([head], WrittenArgs(fmt, cfg, rows));
      PrintedFile(fmt, cfg, rows);
      PrintedAppend([head], body);
    }
    assert forall k :: 0 <= k < |outs| ==> NoBreak(outs[k]) by {
      FileLinesNoBreak(fmt, cfg, rows);
      NoBreakCons(head, body);
    }
    LinesOfPrinted(outs);
  }

  /** The text `write_db` writes starts with the version line, and its sections read back as written. */
  lemma SavedRead(ver: string, fmt: Format, cfg: Config, rows: seq<Row>)
    requires FormatOf(ver) == Some(fmt)
    requires GoodConfig(cfg) && GoodRowsOf(fmt, rows) && Dense(rows)
    ensures var lines := LinesOf(Saved(ver, cfg, rows).value);
      && VersionOf(LineAt(lines, 0)) == Some(ver)
      && ReadAllFrom(fmt, lines, Next(lines, 0), Sections(None, None)) == Ok(Sections(Some(cfg), Some(rows)))
  {
    var body := FileLines(fmt, cfg, rows);
    var lines := LinesOf(Saved(ver, cfg, rows).value);
    SavedLines(ver, fmt, cfg, rows);
    TerminatedCons(lines, VersionLine(ver), body);
    assert LineAt(lines, 0) == VersionLine(ver) + "\n";
    VersionRead(ver);
    ReadWrittenAll(lines, 1, fmt, cfg, rows);
  }

  /**
   * Reloading what `write_db` wrote gives back the version, configuration
   * and rows, with the index of their Ids, whatever the store held before.
   */
  lemma LoadSaved(ver: string, cfg: Config, rows: seq<Row>, inver: string)
    requires FormatOf(ver).Some?
    requires GoodConfig(cfg) && GoodRowsOf(FormatOf(ver).value, rows) && Dense(rows)
    ensures HaveIds(rows)
    ensures Load(Saved(ver, cfg, rows), inver) == Loaded(true, ver, cfg, rows, IndexOf(rows))
  {
    var fmt := FormatOf(ver).value;
    SavedRead(ver, fmt, cfg, rows);
    LoadRead(Saved(ver, cfg, rows).value, inver, ver, fmt, cfg, rows);
  }

  /* ---------------- defaults of a new row ---------------- */

  /** The first value of a configuration list, or None where the key is missing or the list empty and `[0]` raises. */
  function FirstOf(cfg: Config, key: string): Option<string>
  {
    match Lookup(cfg, key)
    case None => None
    case Some(vs) => if vs == [] then None else Some(vs[0])
  }

  /** What `_gen_id` and `_get_date` would return for a new row. */
  datatype Stamps = Stamps(id: string, created: string, modified: string)

  /** `self.defaults[name]()`: None where the name has no default or the default's config value is missing. */
  function DefaultOf(name: string, cfg: Config, st: Stamps): Option<string>
  {
    if name == "Id" then Some(st.id)
    else if name == "Created" then Some(st.created)
    else if name == "Modified" then Some(st.modified)
    else if name == "Parent" then Some("none")
    else if name == "Status" then FirstOf(cfg, "Status.Default")
    else if name == "Type" then FirstOf(cfg, "Type.Default")
    else if name == "Title" || name == "Description" then Some("")
    else None
  }

  /** The default of each column in turn, or None where one of them raises. */
  function DefaultsOf(cols: seq<string>, cfg: Config, st: Stamps): (r: Option<seq<string>>)
    ensures r.Some? ==> |r.value| == |cols|
    decreases |cols|
  {
    if cols == [] then Some([])
    else
      match DefaultsOf(cols[..|cols| - 1], cfg, st)
      case None => None
      case Some(front) =>
        match DefaultOf(cols[|cols| - 1], cfg, st)
        case None => None
        case Some(v) => Some(front + [v])
  }

  /** The defaults exist exactly when every column has one, and then they are those, in column order. */
  lemma {:induction false} DefaultsOfSpec(cols: seq<string>, cfg: Config, st: Stamps)
    ensures DefaultsOf(cols, cfg, st).Some? <==> forall k :: 0 <= k < |cols| ==> DefaultOf(cols[k], cfg, st).Some?
    ensures DefaultsOf(cols, cfg, st).Some? ==>
      forall k :: 0 <= k < |cols| ==> DefaultsOf(cols, cfg, st).value[k] == DefaultOf(cols[k], cfg, st).value
    decreases |cols|
  {
    if cols != [] {
      var n := |cols| - 1;
      var front := cols[..n];
      DefaultsOfSpec(front, cfg, st);
      var r := DefaultsOf(front, cfg, st);
      var d := DefaultOf(cols[n], cfg, st);
      if r.None? {
        var k :| 0 <= k < |front| && DefaultOf(front[k], cfg, st).None?;
        assert front[k] == cols[k];
      } else if d.None? {
        assert DefaultsOf(cols, cfg, st).None?;
      } else {
        var all := r.value + [d.value];
        assert DefaultsOf(cols, cfg, st) == Some(all);
        forall k | 0 <= k < |cols|
          ensures DefaultOf(cols[k], cfg, st).Some? && all[k] == DefaultOf(cols[k], cfg, st).value
        {
          if k < n {
            assert front[k] == cols[k];
          }
        }
      }
    }
  }

  lemma DefaultsOfStep(cols: seq<string>, k: nat, cfg: Config, st: Stamps, front: seq<string>)
    requires k < |cols| && DefaultsOf(cols[..k], cfg, st) == Some(front)
    requires DefaultOf(cols[k], cfg, st).Some?
    ensures DefaultsOf(cols[..k + 1], cfg, st) == Some(front + [DefaultOf(cols[k], cfg, st).value])
  {
    assert cols[..k + 1][..k] == cols[..k];
  }

  lemma DefaultsOfAll(cols: seq<string>, cfg: Config, st: Stamps, vals: seq<string>)
    requires |vals| == |cols|
    requires forall k :: 0 <= k < |cols| ==> DefaultOf(cols[k], cfg, st) == Some(vals[k])
    ensures DefaultsOf(cols, cfg, st) == Some(vals)
  {
    DefaultsOfSpec(cols, cfg, st);
    var r := DefaultsOf(cols, cfg, st);
    assert r.Some?;
    assert |r.value| == |vals|;
    assert forall k :: 0 <= k < |vals| ==> r.value[k] == vals[k];
    assert r.value == vals;
    assert r == Some(vals);
  }

  lemma DefaultsOfMissing(cols: seq<string>, k: nat, cfg: Config, st: Stamps)
    requires k < |cols| && DefaultOf(cols[k], cfg, st).None?
    ensures DefaultsOf(cols, cfg, st).None?
  {
    DefaultsOfSpec(cols, cfg, st);
  }

  /** The row `add_row_from_dict` builds for `d` under the eight-column schema, or None where a default raises. */
  function NewRow(cfg: Config, d: Dict, st: Stamps): Option<seq<string>>
  {
    match DefaultsOf(Fields, cfg, st)
    case None => None
    case Some(dv) => Some(Applied(dv, d, Fields))
  }

  /** The defaults of the eight columns, in `Fields` order. */
  function FieldDefaults(st: Stamps, typ: string, status: string): seq<string>
  {
    [st.id, typ, "", "", st.created, st.modified, "none", status]
  }

  /**
   * The eight columns have defaults exactly when `Type.Default` and
   * `Status.Default` have a first value: the generated Id, the type default,
   * empty title and description, the two timestamps, parent `none` and the
   * status default.
   */
  /** The default of each of the eight columns, one by one. */
  lemma DefaultOfColumns(cfg: Config, st: Stamps)
    ensures DefaultOf(Fields[0], cfg, st) == Some(st.id)
    ensures DefaultOf(Fields[1], cfg, st) == FirstOf(cfg, "Type.Default")
    ensures DefaultOf(Fields[2], cfg, st) == Some("")
    ensures DefaultOf(Fields[3], cfg, st) == Some("")
    ensures DefaultOf(Fields[4], cfg, st) == Some(st.created)
    ensures DefaultOf(Fields[5], cfg, st) == Some(st.modified)
    ensures DefaultOf(Fields[6], cfg, st) == Some("none")
    ensures DefaultOf(Fields[7], cfg, st) == FirstOf(cfg, "Status.Default")
  {
  }

  lemma DefaultsOfFields(cfg: Config, st: Stamps)
    ensures DefaultsOf(Fields, cfg, st).Some? <==> FirstOf(cfg, "Type.Default").Some? && FirstOf(cfg, "Status.Default").Some?
    ensures DefaultsOf(Fields, cfg, st).Some? ==>
      DefaultsOf(Fields, cfg, st).value == FieldDefaults(st, FirstOf(cfg, "Type.Default").value, FirstOf(cfg, "Status.Default").value)
  {
    var typ := FirstOf(cfg, "Type.Default");
    var status := FirstOf(cfg, "Status.Default");
    DefaultOfColumns(cfg, st);
    if typ.None? {
      DefaultsOfMissing(Fields, 1, cfg, st);
    } else if status.None? {
      DefaultsOfMissing(Fields, 7, cfg, st);
    } else {
      var fd := FieldDefaults(st, typ.value, status.value);
      forall k | 0 <= k < |Fields|
        ensures DefaultOf(Fields[k], cfg, st) == Some(fd[k])
      {
        if k < 4 {
          assert k == 0 || k == 1 || k == 2 || k == 3;
        } else {
          assert k == 4 || k == 5 || k == 6 || k == 7;
        }
      }
      DefaultsOfAll(Fields, cfg, st, fd);
    }
  }

  /** A column that no key of the request names holds its default in the new row. */
  lemma NewRowDefault(cfg: Config, d: Dict, st: Stamps, c: nat)
    requires NewRow(cfg, d, st).Some? && c < |Fields|
    requires forall k :: 0 <= k < |d| ==> ColumnOf(Fields, d[k].0) != c
    ensures FirstOf(cfg, "Type.Default").Some? && FirstOf(cfg, "Status.Default").Some?
    ensures NewRow(cfg, d, st).value[c] == FieldDefaults(st, FirstOf(cfg, "Type.Default").value, FirstOf(cfg, "Status.Default").value)[c]
  {
    DefaultsOfFields(cfg, st);
    AppliedUntouched(DefaultsOf(Fields, cfg, st).value, d, Fields, c);
  }

  /** A column that a key of the request names, case-insensitively, holds the value of the last such key. */
  lemma NewRowNamed(cfg: Config, d: Dict, st: Stamps, k: nat)
    requires NewRow(cfg, d, st).Some? && k < |d| && ColumnOf(Fields, d[k].0) >= 0
    requires forall j :: k < j < |d| ==> ColumnOf(Fields, d[j].0) != ColumnOf(Fields, d[k].0)
    ensures |NewRow(cfg, d, st).value| == |Fields|
    ensures NewRow(cfg, d, st).value[ColumnOf(Fields, d[k].0)] == d[k].1
  {
    AppliedLast(DefaultsOf(Fields, cfg, st).value, d, Fields, k);
  }

  /** The default configuration has the eight-column schema and a first type and status to default to. */
  lemma DefaultConfigSchema()
    ensures Lookup(DefaultConfig, "Fields") == Some(Fields)
    ensures FirstOf(DefaultConfig, "Type.Default") == Some("Todo")
    ensures FirstOf(DefaultConfig, "Status.Default") == Some("Backlog")
  {
    assert DefaultConfig[6].0 == "Fields";
    assert forall k :: 0 <= k < 6 ==> DefaultConfig[k].0 != "Fields";
  }

  /** A new row has the eight columns. */
  lemma NewRowWidth(cfg: Config, d: Dict, st: Stamps)
    ensures NewRow(cfg, d, st).Some? ==> |NewRow(cfg, d, st).value| == |Fields|
  {
  }

  /** Appending an eight-column row at the next position keeps the rows numbered by index and eight columns wide. */
  lemma AppendedShape(rows: seq<Row>, fields: seq<string>)
    requires Dense(rows)
    requires (forall k :: 0 <= k < |rows| ==> |rows[k].fields| == |Fields|) && |fields| == |Fields|
    ensures var r := rows + [Row(fields, |rows|)];
      && Dense(r)
      && forall k :: 0 <= k < |r| ==> |r[k].fields| == |Fields|
  {
  }

  /* ---------------- place_before ---------------- */

  /**
   * The index of the row to move and the index it is inserted at, or None
   * where a lookup raises: an Id missing from the index, or `"empty"` (the
   * last row) in an empty table.
   */
  function Placement(rows: seq<Row>, rowmap: map<string, nat>, idFirst: string, idAfter: string): Option<(nat, nat)>
  {
    if idFirst !in rowmap then None
    else if idAfter == "empty" then (if rows == [] then None else Some((rowmap[idFirst], |rows| - 1)))
    else if idAfter !in rowmap then None
    else Some((rowmap[idFirst], rowmap[idAfter]))
  }

  /** The index after the move: every Id follows its row. */
  function MovedMap(rowmap: map<string, nat>, p: nat, t: nat): map<string, nat>
  {
    map id | id in rowmap :: MovedIndex(rowmap[id], p, t)
  }

  /**
   * After the move the rows are numbered by their index, each Id still names
   * the row it named before, the moved row sits at the insert index, and each
   * row came from some row of the old table.
   */
  lemma PlacedFollows(rows: seq<Row>, rowmap: map<string, nat>, p: nat, t: nat)
    requires p < |rows| && t < |rows|
    requires forall id :: id in rowmap ==> rowmap[id] < |rows|
    ensures var r := Renumbered(Moved(rows, p, t), 0);
      && |r| == |rows| && Dense(r)
      && r[t].fields == rows[p].fields
      && (forall i :: 0 <= i < |r| ==> MovedFrom(i, p, t) < |rows| && r[i].fields == rows[MovedFrom(i, p, t)].fields)
      && forall id :: id in rowmap ==>
           id in MovedMap(rowmap, p, t) && MovedMap(rowmap, p, t)[id] < |r| && r[MovedMap(rowmap, p, t)[id]].fields == rows[rowmap[id]].fields
  {
    MovedSpec(rows, p, t);
  }

  /** The move keeps the eight-column width of every row and the index inside the table. */
  lemma PlacedShape(rows: seq<Row>, rowmap: map<string, nat>, p: nat, t: nat)
    requires p < |rows| && t < |rows|
    requires forall id :: id in rowmap ==> rowmap[id] < |rows|
    requires forall k :: 0 <= k < |rows| ==> |rows[k].fields| == |Fields|
    ensures var r := Renumbered(Moved(rows, p, t), 0);
      && Dense(r)
      && (forall k :: 0 <= k < |r| ==> |r[k].fields| == |Fields|)
      && forall id :: id in MovedMap(rowmap, p, t) ==> MovedMap(rowmap, p, t)[id] < |r|
  {
    PlacedFollows(rows, rowmap, p, t);
  }

  /** `"empty"` as the target moves the row to the end of the table. */
  lemma PlacedAtEnd(rows: seq<Row>, rowmap: map<string, nat>, idFirst: string)
    requires idFirst in rowmap && rowmap[idFirst] < |rows|
    ensures Placement(rows, rowmap, idFirst, "empty") == Some((rowmap[idFirst], |rows| - 1))
    ensures Moved(rows, rowmap[idFirst], |rows| - 1)[|rows| - 1] == rows[rowmap[idFirst]]
  {
    MovedSpec(rows, rowmap[idFirst], |rows| - 1);
  }

  /* ---------------- the table ---------------- */

  /** The loop of `reload_db` that indexes the rows by Id. */
  method IndexRows(rows: seq<Row>) returns (rowmap: map<string, nat>)
    requires HaveIds(rows)
    ensures rowmap == IndexOf(rows)
  {
    rowmap := map[];
    for k := 0 to |rows|
      invariant HaveIds(rows[..k])
      invariant rowmap == IndexOf(rows[..k])
    {
      IndexOfNext(rows, k);
      rowmap := rowmap[rows[k].fields[0] := k];
    }
    assert rows[..|rows|] == rows;
  }

  /** The steps of `reload_db` on a file holding `file`, from a store whose input version was `inver`. */
  method ReadFile(file: Option<string>, inver: string) returns (l: Loaded)
    ensures l == Load(file, inver)
  {
    l := Loaded(false, inver, DefaultConfig, [], map[]);
    if file.None? {
      return;
    }
    var lines := LinesOf(file.value);
    var ver := VersionOf(LineAt(lines, 0));
    if ver.None? {
      return;
    }
    l := l.(inver := ver.value);
    var fmt := FormatOf(ver.value);
    if fmt.None? {
      return;
    }
    var data := ReadAll(fmt.value, lines, Next(lines, 0));
    if data.Err? || data.value.config.None? {
      return;
    }
    l := l.(cfg := data.value.config.value);
    if data.value.entries.None? {
      return;
    }
    var rows := data.value.entries.value;
    ReadAllShape(fmt.value, lines, Next(lines, 0), Sections(None, None));
    var rowmap := IndexRows(rows);
    l := Loaded(true, ver.value, data.value.config.value, rows, rowmap);
  }

  class FlyDb {
    var inver: string
    const outver: Option<string>
    var rows: seq<Row>
    var rowmap: map<string, nat>
    var cfg: Config

    /** Each row's position slot is its index, and every Id in the index names a row. */
    ghost predicate Valid()
      reads this
    {
      Dense(rows) && forall id :: id in rowmap ==> rowmap[id] < |rows|
    }

    /** The eight-column schema that the fixed column numbers of the store assume. */
    ghost predicate Schema()
      reads this
    {
      && Valid()
      && Lookup(cfg, "Fields") == Some(Fields)
      && forall k :: 0 <= k < |rows| ==> |rows[k].fields| == |Fields|
    }

    /** `FlyDb(filename, outver)`: starts empty with the default configuration and reloads. */
    constructor(file: Option<string>, outver: Option<string>)
      ensures this.outver == outver
      ensures var l := Load(file, ""); inver == l.inver && cfg == l.cfg && rows == l.rows && rowmap == l.rowmap
      ensures Valid()
    {
      this.outver := outver;
      inver := "";
      rows := [];
      rowmap := map[];
      cfg := DefaultConfig;
      new;
      var _ := Reload(file);
    }

    /** `reload_db`: the state and the result are those of `Load`. */
    method Reload(file: Option<string>) returns (ok: bool)
      modifies this
      ensures Loaded(ok, inver, cfg, rows, rowmap) == Load(file, old(inver))
      ensures Valid()
    {
      LoadShape(file, inver);
      var l := ReadFile(file, inver);
      ok, inver, cfg, rows, rowmap := l.ok, l.inver, l.cfg, l.rows, l.rowmap;
    }

    /** `_update_index`: each row's position slot becomes its index. */
    method UpdateIndex()
      modifies this
      ensures rows == Renumbered(old(rows), 0)
      ensures rowmap == old(rowmap) && cfg == old(cfg) && inver == old(inver)
    {
      var idx := 0;
      for k := 0 to |rows|
        invariant idx == k && |rows| == |old(rows)|
        invariant forall m :: 0 <= m < k ==> rows[m] == Row(old(rows)[m].fields, m)
        invariant forall m :: k <= m < |rows| ==> rows[m] == old(rows)[m]
        invariant rowmap == old(rowmap) && cfg == old(cfg) && inver == old(inver)
      {
        rows := rows[k := Row(rows[k].fields, idx)];
        idx := idx + 1;
      }
    }

    /** The version `write_db` writes: `outver`, or the version read. */
    function OutVersion(): string
      reads this
    {
      if outver.Some? then outver.value else inver
    }

    /** `write_db`: the text it writes, or None where the version has no serializer. */
    method WriteDb() returns (text: Option<string>)
      ensures text == Saved(OutVersion(), cfg, rows)
    {
      var ver := if outver.Some? then outver.value else inver;
      var fmt := FormatOf(ver);
      if fmt.None? {
        return None;
      }
      var outs := WriteAll(fmt.value, cfg, rows);
      text := Some(Printed([VersionLine(ver)] + outs));
    }

    /** `get_columns`: the `Fields` list, or None where the key is missing. */
    function GetColumns(): (r: Option<seq<string>>)
      reads this
      ensures r.Some? <==> HasKey(cfg, "Fields")
    {
      Lookup(cfg, "Fields")
    }

    /** `get_config`: a configuration list, or None where the key is missing. */
    function GetConfig(name: string): (r: Option<seq<string>>)
      reads this
      ensures r.Some? <==> HasKey(cfg, name)
    {
      Lookup(cfg, name)
    }

    /** `_field_idx`: the first column named `name` ignoring case, or -1. */
    method FieldIdx(name: string) returns (idx: int)
      requires Lookup(cfg, "Fields").Some?
      ensures idx == ColumnOf(Lookup(cfg, "Fields").value, name)
    {
      var cols := Lookup(cfg, "Fields").value;
      ColumnOfSpec(cols, name);
      idx := 0;
      while idx < |cols|
        invariant 0 <= idx <= |cols|
        invariant forall j :: 0 <= j < idx ==> Lower(cols[j]) != Lower(name)
      {
        if Lower(cols[idx]) == Lower(name) {
          return;
        }
        idx := idx + 1;
      }
      idx := -1;
    }

    /** The loop `for k, v in row.items()` that writes each named column of a row. */
    method ApplyDict(fields: seq<string>, d: Dict) returns (r: seq<string>)
      requires Lookup(cfg, "Fields") == Some(Fields) && |fields| == |Fields|
      ensures r == Applied(fields, d, Fields)
    {
      r := fields;
      for k := 0 to |d|
        invariant |r| == |Fields|
        invariant r == Applied(fields, d[..k], Fields)
      {
        var idx := FieldIdx(d[k].0);
        assert d[..k + 1][..k] == d[..k];
        if idx >= 0 {
          r := r[idx := d[k].1];
        }
      }
      assert d[..|d|] == d;
    }

    /** The row `add_row_from_dict` builds: each column's default, then the request's values. */
    method BuildRow(d: Dict, st: Stamps) returns (r: Option<seq<string>>)
      requires Lookup(cfg, "Fields") == Some(Fields)
      ensures r == NewRow(cfg, d, st)
    {
      var cols := Lookup(cfg, "Fields").value;
      var newrow: seq<string> := [];
      for k := 0 to |cols|
        invariant DefaultsOf(cols[..k], cfg, st) == Some(newrow)
      {
        var v := DefaultOf(cols[k], cfg, st);
        if v.None? {
          DefaultsOfMissing(cols, k, cfg, st);
          return None;
        }
        DefaultsOfStep(cols, k, cfg, st, newrow);
        newrow := newrow + [v.value];
      }
      assert cols[..|cols|] == cols;
      var filled := ApplyDict(newrow, d);
      r := Some(filled);
    }

    /**
     * `add_row_from_dict`: appends the new row with the next position and
     * indexes it under its Id; where a default raises, nothing changes.
     */
    method AddRowFromDict(d: Dict, st: Stamps) returns (ok: bool)
      requires Schema()
      modifies this
      ensures ok <==> NewRow(cfg, d, st).Some?
      ensures ok ==> rows == old(rows) + [Row(NewRow(cfg, d, st).value, |old(rows)|)]
      ensures ok ==> rowmap == old(rowmap)[NewRow(cfg, d, st).value[IdCol] := |old(rows)|]
      ensures !ok ==> rows == old(rows) && rowmap == old(rowmap)
      ensures cfg == old(cfg) && inver == old(inver)
      ensures Schema()
    {
      var newrow := BuildRow(d, st);
      if newrow.None? {
        return false;
      }
      NewRowWidth(cfg, d, st);
      AppendedShape(rows, newrow.value);
      rows := rows + [Row(newrow.value, |rows|)];
      rowmap := rowmap[newrow.value[IdCol] := |rows| - 1];
      ok := true;
    }

    /**
     * `update_row_from_dict`: where the request has the key `Id` and the
     * index knows its value, the named columns of that one row take the
     * request's values; otherwise nothing changes.
     */
    method UpdateRowFromDict(d: Dict) returns (ok: bool)
      requires Schema()
      modifies this
      ensures rowmap == old(rowmap) && cfg == old(cfg) && inver == old(inver)
      ensures ok <==> HasKey(d, "Id") && Lookup(d, "Id").value in rowmap
      ensures ok ==> var p := rowmap[Lookup(d, "Id").value];
        p < |old(rows)| && rows == old(rows)[p := Row(Applied(old(rows)[p].fields, d, Fields), old(rows)[p].pos)]
      ensures !ok ==> rows == old(rows)
      ensures Schema()
    {
      var id := Lookup(d, "Id");
      if id.None? || id.value !in rowmap {
        return false;
      }
      var p := rowmap[id.value];
      var dbrow := ApplyDict(rows[p].fields, d);
      rows := rows[p := Row(dbrow, rows[p].pos)];
      ok := true;
    }

    /** `change_row`: the status column of the row with that Id; an unknown Id raises and nothing changes. */
    method ChangeRow(id: string, status: string) returns (ok: bool)
      requires Schema()
      modifies this
      ensures rowmap == old(rowmap) && cfg == old(cfg) && inver == old(inver)
      ensures ok <==> id in rowmap
      ensures ok ==> var p := rowmap[id];
        p < |old(rows)| && rows == old(rows)[p := Row(old(rows)[p].fields[StatusCol := status], old(rows)[p].pos)]
      ensures !ok ==> rows == old(rows)
      ensures Schema()
    {
      if id !in rowmap {
        return false;
      }
      var p := rowmap[id];
      rows := rows[p := Row(rows[p].fields[StatusCol := status], rows[p].pos)];
      ok := true;
    }

    /** `get_rows`: the rows passing every given filter, in table order. */
    function GetRows(q: Query): (r: seq<Row>)
      requires Schema()
      reads this
      ensures Wide(r)
      ensures forall x :: x in r <==> x in rows && RowMatch(x, q)
    {
      assert Wide(rows);
      FilterMembersAll(rows, q);
      FilterWide(rows, q);
      Filter(rows, q)
    }

    /** `get_rows_as_dict`: the same rows, each as the dictionary of its column names and values. */
    function GetRowsAsDict(q: Query): (r: seq<Dict>)
      requires Schema()
      reads this
      ensures |r| == |GetRows(q)|
      ensures forall i, c :: 0 <= i < |r| && 0 <= c < |Fields| ==> Lookup(r[i], Fields[c]) == Some(GetRows(q)[i].fields[c])
    {
      var matched := GetRows(q);
      RowDictAll(matched);
      seq(|matched|, i requires 0 <= i < |matched| => RowDict(matched[i]))
    }

    /**
     * `get_color_config`: each name of the list `name` mapped to the colour at
     * its position in `name.Color`; None where a key is missing or the
     * colours run out.
     */
    function GetColorConfig(name: string): (r: Option<Dict>)
      reads this
      ensures r.Some? <==>
        (HasKey(cfg, name + ".Color") && HasKey(cfg, name) && |Lookup(cfg, name).value| <= |Lookup(cfg, name + ".Color").value|)
      ensures r.Some? ==> UniqueKeys(r.value)
      ensures r.Some? ==> var names, colors := Lookup(cfg, name).value, Lookup(cfg, name + ".Color").value;
        && (forall j, n :: LastAt(names, j, n) ==> Lookup(r.value, n) == Some(colors[j]))
        && (forall n :: n !in names ==> Lookup(r.value, n) == None)
    {
      match Lookup(cfg, name + ".Color")
      case None => None
      case Some(colors) =>
        match Lookup(cfg, name)
        case None => None
        case Some(names) =>
          MakeDictDefined(colors, names);
          if |names| <= |colors| then
            MakeDictAll(colors, names);
            MakeDict(colors, names)
          else
            MakeDict(colors, names)
    }

    /**
     * `place_before`: moves the row of `idFirst` to the index of the row of
     * `idAfter` taken before the deletion (the end for `"empty"`), then
     * renumbers; where a lookup raises, nothing changes.
     */
    method PlaceBefore(idFirst: string, idAfter: string)
      requires Schema()
      modifies this
      ensures cfg == old(cfg) && inver == old(inver)
      ensures match Placement(old(rows), old(rowmap), idFirst, idAfter)
        case None => rows == old(rows) && rowmap == old(rowmap)
        case Some((p, t)) => (p < |old(rows)| && t < |old(rows)|
          && rows == Renumbered(Moved(old(rows), p, t), 0) && rowmap == MovedMap(old(rowmap), p, t))
      ensures Schema()
    {
      if idFirst !in rowmap {
        return;
      }
      var moving := rowmap[idFirst];
      var target: nat;
      if idAfter != "empty" {
        if idAfter !in rowmap {
          return;
        }
        target := rowmap[idAfter];
      } else {
        if rows == [] {
          return;
        }
        target := |rows| - 1;
      }
      var from := rows[moving].pos;
      var to := rows[target].pos;
      assert from == moving && to == target;
      assert Placement(rows, rowmap, idFirst, idAfter) == Some((from, to));
      PlacedShape(rows, rowmap, from, to);
      var moved := MovedMap(rowmap, from, to);
      ghost var placed := Renumbered(Moved(rows, from, to), 0);
      rows := Moved(rows, from, to);
      UpdateIndex();
      assert rows == placed;
      rowmap := moved;
    }
  }
}
