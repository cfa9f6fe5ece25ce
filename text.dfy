/**
 * The few `str` methods the store relies on: `strip`, `split`, `join` and
 * `lower`. Characters are taken to be ASCII: the whitespace set is the ASCII
 * part of what Python's `str.isspace` accepts, and lower-casing maps only
 * `A`..`Z`.
 */
module Text {

  /** The ASCII characters that `str.strip()` without arguments removes. */
  const Whitespace: set<char> :=
    {' ', '\t', '\n', '\r', '\U{0B}', '\U{0C}', '\U{1C}', '\U{1D}', '\U{1E}', '\U{1F}'}

  /** Drops every leading character that is in `cs`. */
  function TrimLeft(s: string, cs: set<char>): string
  {
    if s != [] && s[0] in cs then TrimLeft(s[1..], cs) else s
  }

  /** Drops every trailing character that is in `cs`. */
  function TrimRight(s: string, cs: set<char>): string
  {
    if s != [] && s[|s| - 1] in cs then TrimRight(s[..|s| - 1], cs) else s
  }

  /** `s.strip(cs)`: both ends trimmed of the characters in `cs`. */
  function StripIn(s: string, cs: set<char>): string
  {
    TrimRight(TrimLeft(s, cs), cs)
  }

  /** Appending the head of `b` and then its tail appends `b`. */
  lemma ConsTail<T>(a: seq<T>, b: seq<T>)
    requires b != []
    ensures a + [b[0]] + b[1..] == a + b
  {
    assert b == [b[0]] + b[1..];
  }

  /** Trimming the front leaves a suffix that starts outside `cs`, and drops only characters in `cs`. */
  lemma {:induction false} TrimLeftSpec(s: string, cs: set<char>)
    ensures var r := TrimLeft(s, cs);
      && |r| <= |s| && r == s[|s| - |r|..]
      && (r != [] ==> r[0] !in cs)
      && (forall i :: 0 <= i < |s| - |r| ==> s[i] in cs)
  {
    if s != [] && s[0] in cs {
      var t := s[1..];
      TrimLeftSpec(t, cs);
      var r := TrimLeft(t, cs);
      assert TrimLeft(s, cs) == r;
      assert t[|t| - |r|..] == s[|s| - |r|..];
      forall i | 0 <= i < |s| - |r|
        ensures s[i] in cs
      {
        if i > 0 {
          assert s[i] == t[i - 1];
        }
      }
    }
  }

  /** Trimming the back leaves a prefix that ends outside `cs`, and drops only characters in `cs`. */
  lemma {:induction false} TrimRightSpec(s: string, cs: set<char>)
    ensures var r := TrimRight(s, cs);
      && |r| <= |s| && r == s[..|r|]
      && (r != [] ==> r[|r| - 1] !in cs)
      && (forall i :: |r| <= i < |s| ==> s[i] in cs)
  {
    if s != [] && s[|s| - 1] in cs {
      var t := s[..|s| - 1];
      TrimRightSpec(t, cs);
      var r := TrimRight(t, cs);
      assert TrimRight(s, cs) == r;
      assert t[..|r|] == s[..|r|];
      forall i | |r| <= i < |s|
        ensures s[i] in cs
      {
        if i < |s| - 1 {
          assert s[i] == t[i];
        }
      }
    }
  }

  /**
   * `strip` leaves no character of `cs` at either end, changes nothing whose
   * ends are already outside `cs`, and empties a string made only of `cs`.
   */
  lemma StripInSpec(s: string, cs: set<char>)
    ensures var r := StripIn(s, cs);
      && (r != [] ==> r[0] !in cs && r[|r| - 1] !in cs)
      && ((s == [] || (s[0] !in cs && s[|s| - 1] !in cs)) ==> r == s)
      && ((forall i :: 0 <= i < |s| ==> s[i] in cs) ==> r == [])
  {
    var t := TrimLeft(s, cs);
    TrimLeftSpec(s, cs);
    TrimRightSpec(t, cs);
    var r := TrimRight(t, cs);
    if r != [] {
      assert r[0] == t[0];
    }
  }

  /** Stripping a string enclosed in two characters of `cs`, whose own ends are outside `cs`, leaves that string. */
  lemma StripEnclosed(x: string, open: char, close: char, cs: set<char>)
    requires open in cs && close in cs
    requires x != [] && x[0] !in cs && x[|x| - 1] !in cs
    ensures StripIn([open] + x + [close], cs) == x
  {
    var s := [open] + x + [close];
    assert s[1..] == x + [close];
    assert TrimLeft(x + [close], cs) == x + [close];
    assert (x + [close])[..|x|] == x;
    assert TrimRight(x + [close], cs) == TrimRight(x, cs);
  }

  /** `s.strip()`. */
  function Strip(s: string): string
  {
    StripIn(s, Whitespace)
  }

  /** A string that `strip()` leaves alone. */
  predicate IsStripped(s: string)
  {
    s == [] || (s[0] !in Whitespace && s[|s| - 1] !in Whitespace)
  }

  /** Stripping a line whose text has no whitespace at either end removes just its newline. */
  lemma StripLine(x: string)
    requires x != [] && x[0] !in Whitespace && x[|x| - 1] !in Whitespace
    ensures Strip(x + "\n") == x
  {
    var s := x + "\n";
    assert TrimLeft(s, Whitespace) == s;
    assert s[..|s| - 1] == x;
    assert TrimRight(s, Whitespace) == TrimRight(x, Whitespace);
    assert TrimRight(x, Whitespace) == x;
  }

  function LowerChar(c: char): char
  {
    if 'A' <= c <= 'Z' then (c as int - 'A' as int + 'a' as int) as char else c
  }

  /** `s.lower()`, ASCII letters only. */
  function Lower(s: string): (r: string)
    ensures |r| == |s|
    ensures forall i :: 0 <= i < |s| ==> r[i] == LowerChar(s[i])
  {
    seq(|s|, i requires 0 <= i < |s| => LowerChar(s[i]))
  }

  /** `sep.join(parts)`. */
  function Join(parts: seq<string>, sep: string): string
  {
    if |parts| == 0 then []
    else if |parts| == 1 then parts[0]
    else parts[0] + sep + Join(parts[1..], sep)
  }

  /** `s.split(sep)` for a one-character separator. */
  function Split(s: string, sep: char): seq<string>
  {
    if s == [] then [[]]
    else if s[0] == sep then [[]] + Split(s[1..], sep)
    else
      var rest := Split(s[1..], sep);
      [[s[0]] + rest[0]] + rest[1..]
  }

  /**
   * What `split` promises of its pieces `r`: there is at least one, there is
   * exactly one when the separator does not occur, none holds the separator,
   * and joining them back with it gives `s`.
   */
  predicate SplitPieces(s: string, sep: char, r: seq<string>)
  {
    && |r| >= 1
    && (|r| == 1 <==> sep !in s)
    && (forall k :: 0 <= k < |r| ==> sep !in r[k])
    && Join(r, [sep]) == s
  }

  /** An empty first part puts the separator first in the join. */
  lemma JoinEmptyFirst(parts: seq<string>, sep: string)
    requires |parts| >= 1
    ensures Join([[]] + parts, sep) == sep + Join(parts, sep)
  {
    var r := [[]] + parts;
    assert r[0] == [] && r[1..] == parts;
  }

  lemma SplitAtSep(s: string, sep: char)
    requires s != [] && s[0] == sep
    requires SplitPieces(s[1..], sep, Split(s[1..], sep))
    ensures SplitPieces(s, sep, Split(s, sep))
  {
    var t := s[1..];
    var rest := Split(t, sep);
    var r := Split(s, sep);
    assert r == [[]] + rest;
    JoinEmptyFirst(rest, [sep]);
    assert s == [sep] + t;
    assert s[0] == sep;
    forall k | 0 <= k < |r|
      ensures sep !in r[k]
    {
      if k > 0 {
        assert r[k] == rest[k - 1];
      }
    }
  }

  /** Prefixing a character to the first part prefixes it to the join. */
  lemma JoinPrefixFirst(c: char, parts: seq<string>, sep: string)
    requires |parts| >= 1
    ensures Join([[c] + parts[0]] + parts[1..], sep) == [c] + Join(parts, sep)
  {
    var r := [[c] + parts[0]] + parts[1..];
    assert r[0] == [c] + parts[0] && r[1..] == parts[1..];
    if |parts| > 1 {
      assert Join(r, sep) == ([c] + parts[0]) + sep + Join(parts[1..], sep);
    }
  }

  lemma SplitAtOther(s: string, sep: char)
    requires s != [] && s[0] != sep
    requires SplitPieces(s[1..], sep, Split(s[1..], sep))
    ensures SplitPieces(s, sep, Split(s, sep))
  {
    var t := s[1..];
    var rest := Split(t, sep);
    var r := Split(s, sep);
    assert r == [[s[0]] + rest[0]] + rest[1..];
    JoinPrefixFirst(s[0], rest, [sep]);
    assert s == [s[0]] + t;
    forall k | 0 <= k < |r|
      ensures sep !in r[k]
    {
      if k > 0 {
        assert r[k] == rest[k];
      }
    }
  }

  /** `split` keeps its promise on every string. */
  lemma {:induction false} SplitSpec(s: string, sep: char)
    ensures SplitPieces(s, sep, Split(s, sep))
  {
    if s != [] {
      SplitSpec(s[1..], sep);
      if s[0] == sep {
        SplitAtSep(s, sep);
      } else {
        SplitAtOther(s, sep);
      }
    }
  }

  lemma {:induction false} SplitAtFirst(x: string, sep: char, y: string)
    requires sep !in x
    ensures Split(x + [sep] + y, sep) == [x] + Split(y, sep)
  {
    if x == [] {
      assert (x + [sep] + y)[1..] == y;
    } else {
      assert (x + [sep] + y)[1..] == x[1..] + [sep] + y;
      SplitAtFirst(x[1..], sep, y);
      assert [x[0]] + x[1..] == x;
    }
  }

  lemma {:induction false} SplitWhole(x: string, sep: char)
    requires sep !in x
    ensures Split(x, sep) == [x]
  {
    if x != [] {
      SplitWhole(x[1..], sep);
      assert x == [x[0]] + x[1..];
    }
  }

  /** Splitting the join of separator-free parts, followed by a separator and a tail, gives the parts back. */
  lemma {:induction false} SplitJoinThen(parts: seq<string>, sep: char, tail: string)
    requires |parts| >= 1
    requires forall k :: 0 <= k < |parts| ==> sep !in parts[k]
    ensures Split(Join(parts, [sep]) + [sep] + tail, sep) == parts + Split(tail, sep)
  {
    if |parts| == 1 {
      SplitAtFirst(parts[0], sep, tail);
    } else {
      var rest := Join(parts[1..], [sep]) + [sep] + tail;
      calc {
        Split(Join(parts, [sep]) + [sep] + tail, sep);
        { assert Join(parts, [sep]) + [sep] + tail == parts[0] + [sep] + rest; }
        Split(parts[0] + [sep] + rest, sep);
        { SplitAtFirst(parts[0], sep, rest); }
        [parts[0]] + Split(rest, sep);
        { SplitJoinThen(parts[1..], sep, tail); }
        [parts[0]] + (parts[1..] + Split(tail, sep));
        { assert parts == [parts[0]] + parts[1..]; }
        parts + Split(tail, sep);
      }
    }
  }

  /** `split` undoes `join` when no part contains the separator. */
  lemma {:induction false} SplitJoin(parts: seq<string>, sep: char)
    requires |parts| >= 1
    requires forall k :: 0 <= k < |parts| ==> sep !in parts[k]
    ensures Split(Join(parts, [sep]), sep) == parts
  {
    if |parts| == 1 {
      SplitWhole(parts[0], sep);
    } else {
      var rest := Join(parts[1..], [sep]);
      SplitAtFirst(parts[0], sep, rest);
      SplitJoin(parts[1..], sep);
      assert parts == [parts[0]] + parts[1..];
    }
  }

  /** A character absent from every part and from the separator is absent from the join. */
  lemma {:induction false} JoinAvoids(parts: seq<string>, sep: string, c: char)
    requires c !in sep
    requires forall k :: 0 <= k < |parts| ==> c !in parts[k]
    ensures c !in Join(parts, sep)
  {
    if |parts| > 1 {
      JoinAvoids(parts[1..], sep, c);
    }
  }
}
