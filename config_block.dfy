/**
 * The `[Config]` block, written and read the same way by both formats: one
 * `key=v1;v2;...;` line per entry. Reading goes on until a line starting
 * with `[`, which is left unread for the section loop.
 */
module ConfigBlock {
  import opened Wrappers
  import opened Text
  import opened TextFile
  import opened Records

  /** Where reading a file raises in the source (an IndexError in both cases). */
  datatype ReadError =
    | ConfigAtEnd        // the file ends inside the config block: `line[0]` of ''
    | NoEqualsSign       // a config line without `=`: `keyval[1]`

  /** `[v.strip() for v in parts if len(v.strip()) > 0]`. */
  function NonEmptyStripped(parts: seq<string>): (r: seq<string>)
    ensures forall k :: 0 <= k < |r| ==> r[k] != []
    ensures |r| <= |parts|
  {
    if parts == [] then []
    else if Strip(parts[0]) != [] then [Strip(parts[0])] + NonEmptyStripped(parts[1..])
    else NonEmptyStripped(parts[1..])
  }

  /** The line `write_all` prints for one config entry. */
  function ConfigLine(key: string, vals: seq<string>): string
  {
    key + "=" + Join(vals, ";") + ";"
  }

  function ConfigLines(cfg: Config): (r: seq<string>)
    ensures |r| == |cfg|
    ensures forall k :: 0 <= k < |cfg| ==> r[k] == ConfigLine(cfg[k].0, cfg[k].1)
  {
    seq(|cfg|, k requires 0 <= k < |cfg| => ConfigLine(cfg[k].0, cfg[k].1))
  }

  /** The key and values `_read_config` takes from one line, or None where it raises. */
  function ParseConfigLine(line: string): Option<(string, seq<string>)>
  {
    var keyval := Split(line, '=');
    if |keyval| < 2 then None
    else Some((Strip(keyval[0]), NonEmptyStripped(Split(keyval[1], ';'))))
  }

  /**
   * `_read_config` from cursor `i`, `acc` holding the entries read so far:
   * the config and the cursor left on the first line that starts with `[`.
   */
  function ReadConfig(lines: seq<string>, i: nat, acc: Config): Result<(Config, nat), ReadError>
    requires i <= |lines|
    decreases |lines| - i
  {
    var line := LineAt(lines, i);
    if line == [] then Err(ConfigAtEnd)
    else if line[0] == '[' then Ok((acc, i))
    else
      match ParseConfigLine(line)
      case None => Err(NoEqualsSign)
      case Some(kv) => ReadConfig(lines, i + 1, Put(acc, kv.0, kv.1))
  }

  /** A config block that reads successfully ends on a line, at or after where it started, that opens a section. */
  lemma {:induction false} ReadConfigStops(lines: seq<string>, i: nat, acc: Config)
    requires i <= |lines|
    ensures var r := ReadConfig(lines, i, acc);
      r.Ok? ==> i <= r.value.1 < |lines| && lines[r.value.1] != [] && lines[r.value.1][0] == '['
    decreases |lines| - i
  {
    var line := LineAt(lines, i);
    if line != [] && line[0] != '[' {
      match ParseConfigLine(line)
      case None =>
      case Some(kv) =>
        ReadConfigStops(lines, i + 1, Put(acc, kv.0, kv.1));
    }
  }

  /** A config read on top of one with unique keys has unique keys. */
  lemma {:induction false} ReadConfigUnique(lines: seq<string>, i: nat, acc: Config)
    requires i <= |lines| && UniqueKeys(acc)
    ensures ReadConfig(lines, i, acc).Ok? ==> UniqueKeys(ReadConfig(lines, i, acc).value.0)
    decreases |lines| - i
  {
    var line := LineAt(lines, i);
    if line != [] && line[0] != '[' {
      match ParseConfigLine(line)
      case None =>
      case Some(kv) =>
        PutUnique(acc, kv.0, kv.1);
        ReadConfigUnique(lines, i + 1, Put(acc, kv.0, kv.1));
    }
  }

  /** The loop of `_read_config`. */
  method ReadConfigBlock(lines: seq<string>, start: nat) returns (r: Result<(Config, nat), ReadError>)
    requires start <= |lines|
    ensures r == ReadConfig(lines, start, [])
  {
    var cfg: Config := [];
    var i := start;
    while true
      invariant start <= i <= |lines|
      invariant ReadConfig(lines, i, cfg) == ReadConfig(lines, start, [])
      decreases |lines| - i
    {
      var pos := i;
      var line := LineAt(lines, i);
      i := Next(lines, i);
      if line == [] {
        return Err(ConfigAtEnd);
      }
      if line[0] == '[' {
        i := pos;
        return Ok((cfg, i));
      }
      var keyval := Split(line, '=');
      if |keyval| < 2 {
        return Err(NoEqualsSign);
      }
      cfg := Put(cfg, Strip(keyval[0]), NonEmptyStripped(Split(keyval[1], ';')));
    }
  }

  /** A key that survives writing and reading: one line, no `=`, nothing to strip, not mistaken for a section tag. */
  predicate GoodKey(k: string)
  {
    NoBreak(k) && '=' !in k && IsStripped(k) && (k == [] || k[0] != '[')
  }

  /** A value that survives writing and reading: non-empty, one line, no `=` or `;`, nothing to strip. */
  predicate GoodValue(v: string)
  {
    v != [] && NoBreak(v) && '=' !in v && ';' !in v && IsStripped(v)
  }

  predicate GoodConfig(cfg: Config)
  {
    && UniqueKeys(cfg)
    && (forall k :: 0 <= k < |cfg| ==> GoodKey(cfg[k].0))
    && (forall k, j :: 0 <= k < |cfg| && 0 <= j < |cfg[k].1| ==> GoodValue(cfg[k].1[j]))
  }

  lemma {:induction false} NonEmptyStrippedAppend(a: seq<string>, b: seq<string>)
    ensures NonEmptyStripped(a + b) == NonEmptyStripped(a) + NonEmptyStripped(b)
  {
    if a == [] {
      assert a + b == b;
    } else {
      assert (a + b)[1..] == a[1..] + b;
      NonEmptyStrippedAppend(a[1..], b);
    }
  }

  lemma {:induction false} NonEmptyStrippedKeeps(vals: seq<string>)
    requires forall j :: 0 <= j < |vals| ==> GoodValue(vals[j])
    ensures NonEmptyStripped(vals) == vals
  {
    if vals != [] {
      StripInSpec(vals[0], Whitespace);
      NonEmptyStrippedKeeps(vals[1..]);
    }
  }

  lemma StripNewlineEmpty()
    ensures NonEmptyStripped(["\n"]) == []
  {
    assert "\n"[0] in Whitespace;
    assert Strip("\n") == [];
    assert ["\n"][1..] == [];
  }

  /** Splitting the values part of a line with no values gives one piece, the newline. */
  lemma SplitNoValues()
    ensures Split(Join([], ";") + ";" + "\n", ';') == [[], "\n"]
  {
    SplitWhole("\n", ';');
    SplitAtFirst([], ';', "\n");
    assert Join([], ";") + ";" + "\n" == [] + [';'] + "\n";
  }

  /** Splitting the values part of a written line gives the values, then the newline. */
  lemma SplitValues(vals: seq<string>)
    requires vals != []
    requires forall j :: 0 <= j < |vals| ==> ';' !in vals[j]
    ensures Split(Join(vals, ";") + ";" + "\n", ';') == vals + ["\n"]
  {
    SplitWhole("\n", ';');
    SplitJoinThen(vals, ';', "\n");
  }

  /** The values part of a written line, split and cleaned, gives back the values. */
  lemma ValuesOfWritten(vals: seq<string>)
    requires forall j :: 0 <= j < |vals| ==> GoodValue(vals[j])
    ensures NonEmptyStripped(Split(Join(vals, ";") + ";" + "\n", ';')) == vals
  {
    StripNewlineEmpty();
    if vals == [] {
      SplitNoValues();
      NonEmptyStrippedAppend([[]], ["\n"]);
      assert [[]] + ["\n"] == [[], "\n"];
    } else {
      SplitValues(vals);
      NonEmptyStrippedAppend(vals, ["\n"]);
      NonEmptyStrippedKeeps(vals);
    }
  }

  lemma ConfigLineShape(key: string, vals: seq<string>)
    ensures ConfigLine(key, vals) + "\n" == key + ['='] + (Join(vals, ";") + ";" + "\n")
  {
  }

  /** A character in none of the values is not in the values part of their line. */
  lemma ValuesAvoid(vals: seq<string>, c: char)
    requires c != ';'
    requires forall j :: 0 <= j < |vals| ==> c !in vals[j]
    ensures c !in Join(vals, ";") + ";"
  {
    JoinAvoids(vals, ";", c);
  }

  /** A written config line is a single line. */
  lemma ConfigLineNoBreak(key: string, vals: seq<string>)
    requires NoBreak(key)
    requires forall j :: 0 <= j < |vals| ==> NoBreak(vals[j])
    ensures NoBreak(ConfigLine(key, vals))
  {
    ValuesAvoid(vals, '\n');
    ValuesAvoid(vals, '\r');
    assert ConfigLine(key, vals) == key + "=" + (Join(vals, ";") + ";");
  }

  lemma SplitKeyRest(key: string, rest: string)
    requires '=' !in key && '=' !in rest
    ensures Split(key + ['='] + rest, '=') == [key, rest]
  {
    SplitAtFirst(key, '=', rest);
    SplitWhole(rest, '=');
  }

  /** A written line splits on `=` into the key and the rest. */
  lemma SplitWrittenLine(key: string, vals: seq<string>)
    requires '=' !in key
    requires forall j :: 0 <= j < |vals| ==> '=' !in vals[j]
    ensures Split(ConfigLine(key, vals) + "\n", '=') == [key, Join(vals, ";") + ";" + "\n"]
  {
    ConfigLineShape(key, vals);
    ValuesAvoid(vals, '=');
    SplitKeyRest(key, Join(vals, ";") + ";" + "\n");
  }

  /** `_read_config` takes back from a written line exactly the key and values written. */
  lemma ParseWrittenLine(key: string, vals: seq<string>)
    requires GoodKey(key)
    requires forall j :: 0 <= j < |vals| ==> GoodValue(vals[j])
    ensures NoBreak(ConfigLine(key, vals))
    ensures ParseConfigLine(ConfigLine(key, vals) + "\n") == Some((key, vals))
  {
    ConfigLineNoBreak(key, vals);
    SplitWrittenLine(key, vals);
    ValuesOfWritten(vals);
    StripInSpec(key, Whitespace);
  }

  /** Line `i` is an entry line (not a section tag) that `_read_config` parses to `kv`. */
  predicate EntryLineAt(lines: seq<string>, i: nat, kv: (string, seq<string>))
  {
    i < |lines| && lines[i] != [] && lines[i][0] != '[' && ParseConfigLine(lines[i]) == Some(kv)
  }

  /** Lines `i`, `i + 1`, ... are entry lines giving the entries of `cfg` in order. */
  predicate ParsedAt(lines: seq<string>, i: nat, cfg: Config)
  {
    forall k :: 0 <= k < |cfg| ==> EntryLineAt(lines, i + k, cfg[k])
  }

  /** The keys of `cfg` are distinct and none is in `acc`. */
  predicate FreshAfter(cfg: Config, acc: Config)
  {
    UniqueKeys(cfg) && forall k :: 0 <= k < |cfg| ==> !HasKey(acc, cfg[k].0)
  }

  /** Line `j` opens a section. */
  predicate TagAt(lines: seq<string>, j: nat)
  {
    j < |lines| && lines[j] != [] && lines[j][0] == '['
  }

  lemma ReadEntryLine(lines: seq<string>, i: nat, acc: Config, kv: (string, seq<string>))
    requires EntryLineAt(lines, i, kv)
    ensures ReadConfig(lines, i, acc) == ReadConfig(lines, i + 1, Put(acc, kv.0, kv.1))
  {
    assert LineAt(lines, i) == lines[i];
  }

  lemma ParsedRest(lines: seq<string>, i: nat, cfg: Config)
    requires ParsedAt(lines, i, cfg) && cfg != []
    ensures EntryLineAt(lines, i, cfg[0])
    ensures ParsedAt(lines, i + 1, cfg[1..])
  {
    assert EntryLineAt(lines, i + 0, cfg[0]);
    forall k | 0 <= k < |cfg| - 1
      ensures EntryLineAt(lines, i + 1 + k, cfg[1..][k])
    {
      assert EntryLineAt(lines, i + (k + 1), cfg[k + 1]);
    }
  }

  lemma FreshRest(cfg: Config, acc: Config)
    requires FreshAfter(cfg, acc) && cfg != []
    ensures Put(acc, cfg[0].0, cfg[0].1) == acc + [cfg[0]]
    ensures FreshAfter(cfg[1..], acc + [cfg[0]])
  {
    var cfg' := cfg[1..];
    UniqueTail(cfg);
    assert !HasKey(acc, cfg[0].0);
    forall k | 0 <= k < |cfg'|
      ensures !HasKey(acc + [cfg[0]], cfg'[k].0)
    {
      assert cfg'[k] == cfg[k + 1];
      if HasKey(acc + [cfg[0]], cfg'[k].0) {
        var j :| 0 <= j < |acc| + 1 && (acc + [cfg[0]])[j].0 == cfg'[k].0;
        if j < |acc| {
          assert false;
        } else {
          Distinct(cfg, 0, k + 1);
        }
      }
    }
  }

  /** A section tag ends the config read there with what was read before. */
  lemma TagStep(lines: seq<string>, i: nat, acc: Config)
    requires TagAt(lines, i)
    ensures ReadConfig(lines, i, acc) == Ok((acc, i))
  {
    assert LineAt(lines, i) == lines[i];
  }

  /** An entry line with a fresh key adds that entry: reading on from the next line gives the rest. */
  lemma EntryStep(lines: seq<string>, i: nat, end: nat, cfg: Config, acc: Config)
    requires cfg != [] && EntryLineAt(lines, i, cfg[0]) && FreshAfter(cfg, acc)
    requires ReadConfig(lines, i + 1, acc + [cfg[0]]) == Ok((acc + [cfg[0]] + cfg[1..], end))
    ensures ReadConfig(lines, i, acc) == Ok((acc + cfg, end))
  {
    FreshRest(cfg, acc);
    ReadEntryLine(lines, i, acc, cfg[0]);
    ConsTail(acc, cfg);
  }

  /**
   * Reading entry lines that parse to the entries of `cfg`, with no key
   * repeated or already read, up to a section tag gives `cfg` after what was
   * read before, and stops on the tag.
   */
  lemma {:induction false} ReadParsedConfig(lines: seq<string>, i: nat, end: nat, cfg: Config, acc: Config)
    requires end == i + |cfg|
    requires ParsedAt(lines, i, cfg) && FreshAfter(cfg, acc) && TagAt(lines, end)
    ensures ReadConfig(lines, i, acc) == Ok((acc + cfg, end))
    decreases |cfg|
  {
    if cfg == [] {
      TagStep(lines, i, acc);
      assert acc + cfg == acc;
    } else {
      ParsedRest(lines, i, cfg);
      FreshRest(cfg, acc);
      ReadParsedConfig(lines, i + 1, end, cfg[1..], acc + [cfg[0]]);
      EntryStep(lines, i, end, cfg, acc);
    }
  }

  /** The lines `write_all` prints for a config whose keys and values survive the trip are entry lines giving it back. */
  lemma WrittenParsed(lines: seq<string>, i: nat, cfg: Config)
    requires GoodConfig(cfg) && i + |cfg| <= |lines|
    requires lines[i..i + |cfg|] == Terminated(ConfigLines(cfg))
    ensures ParsedAt(lines, i, cfg)
  {
    forall k | 0 <= k < |cfg|
      ensures EntryLineAt(lines, i + k, cfg[k])
    {
      var key, vals := cfg[k].0, cfg[k].1;
      assert lines[i + k] == lines[i..i + |cfg|][k] == ConfigLine(key, vals) + "\n";
      assert GoodKey(key);
      assert forall j :: 0 <= j < |vals| ==> GoodValue(vals[j]);
      ParseWrittenLine(key, vals);
      assert lines[i + k][0] == if key == [] then '=' else key[0];
    }
  }

  /**
   * `_read_config` run on the lines `write_all` printed for a config, followed
   * by the `[Entries]` tag, gives that config back and stops on the tag.
   */
  lemma ReadWrittenConfig(lines: seq<string>, i: nat, cfg: Config, end: nat)
    requires GoodConfig(cfg) && end == i + |cfg| && end < |lines|
    requires lines[i..end] == Terminated(ConfigLines(cfg))
    requires TagAt(lines, end)
    ensures ReadConfig(lines, i, []) == Ok((cfg, end))
  {
    WrittenParsed(lines, i, cfg);
    ReadParsedConfig(lines, i, end, cfg, []);
    var e: Config := [];
    assert e + cfg == cfg;
  }
}
