/**
 * The two escaping codecs of fit.py.
 *
 * Format 1 uses a fixed codec (`_escape`/`_unescape`): `;` becomes `\s`, a
 * newline becomes `\n` and a backslash is doubled. The general codec
 * (`escape`/`unescape`) takes a set of special characters; `unescape`
 * decodes `\c` only when the decoded character is special and otherwise
 * keeps the backslash, so it does not undo the doubling of backslashes
 * unless the backslash itself is special.
 *
 * Each codec is a specification function, defined by recursion on the
 * input, and a method with the source's character loop, proved equal to it.
 */
module Escaping {

  /* ---------------- the format-1 codec ---------------- */

  /** What `_escape` writes for one character. */
  function Escape1Char(c: char): string
  {
    if c == ';' then "\\s"
    else if c == '\n' then "\\n"
    else if c == '\\' then "\\\\"
    else [c]
  }

  /** What `_unescape` writes for the character that follows a backslash. */
  function Unescape1Char(c: char): char
  {
    if c == 's' then ';' else if c == 'n' then '\n' else c
  }

  /** `_escape(s)`: the output has no `;` and no newline, so it fits in one field of a line. */
  function Escaped1(s: string): (r: string)
    ensures ';' !in r && '\n' !in r
  {
    if s == [] then [] else Escape1Char(s[0]) + Escaped1(s[1..])
  }

  /** `_unescape(s)`: a backslash decodes the next character; a final lone backslash is dropped. */
  function Unescaped1(s: string): string
  {
    if s == [] then []
    else if s[0] != '\\' then [s[0]] + Unescaped1(s[1..])
    else if |s| == 1 then []
    else [Unescape1Char(s[1])] + Unescaped1(s[2..])
  }

  lemma Unescape1EscapeChar(c: char, t: string)
    ensures Unescaped1(Escape1Char(c) + t) == [c] + Unescaped1(t)
  {
    var u := Escape1Char(c) + t;
    if |Escape1Char(c)| == 2 {
      assert u[2..] == t;
    } else {
      assert u[1..] == t;
    }
  }

  /** `_unescape` undoes `_escape` on every string. */
  lemma {:induction false} Unescape1Escape1(s: string)
    ensures Unescaped1(Escaped1(s)) == s
  {
    if s != [] {
      Unescape1EscapeChar(s[0], Escaped1(s[1..]));
      Unescape1Escape1(s[1..]);
    }
  }

  /** A character other than those of the escapes appears in `_escape(s)` only if it appears in `s`. */
  lemma {:induction false} Escaped1Avoids(s: string, c: char)
    requires c !in s && c !in "\\sn"
    ensures c !in Escaped1(s)
  {
    if s != [] {
      Escaped1Avoids(s[1..], c);
    }
  }

  /** An escape `_unescape` does not know loses its backslash. */
  lemma Unescape1Unknown(c: char, t: string)
    requires c != 's' && c != 'n'
    ensures Unescaped1(['\\', c] + t) == [c] + Unescaped1(t)
  {
    assert (['\\', c] + t)[2..] == t;
  }

  /** The last character `_escape` writes for `c`: `c` itself, or the letter or backslash of its escape. */
  lemma Escape1CharLast(c: char)
    ensures var h := Escape1Char(c); h != [] && (h[|h| - 1] == c || h[|h| - 1] in {'\\', 's', 'n'})
  {
  }

  /** `_escape(s)` ends in the last character of `s` or in the last character of an escape. */
  lemma {:induction false} Escaped1Last(s: string)
    requires s != []
    ensures var r := Escaped1(s); r != [] && (r[|r| - 1] == s[|s| - 1] || r[|r| - 1] in {'\\', 's', 'n'})
    decreases |s|
  {
    var h := Escape1Char(s[0]);
    var t := Escaped1(s[1..]);
    assert Escaped1(s) == h + t;
    Escape1CharLast(s[0]);
    if |s| > 1 {
      Escaped1Last(s[1..]);
      assert s[1..][|s[1..]| - 1] == s[|s| - 1];
      assert (h + t)[|h + t| - 1] == t[|t| - 1];
    } else {
      assert t == [] && h + t == h;
    }
  }

  /** Escaping keeps a string that `strip()` leaves alone in that state. */
  lemma Escaped1Edges(s: string)
    requires s != []
    ensures Escaped1(s)[0] == s[0] || Escaped1(s)[0] == '\\'
    ensures var r := Escaped1(s); r[|r| - 1] == s[|s| - 1] || r[|r| - 1] in {'\\', 's', 'n'}
  {
    var h := Escape1Char(s[0]);
    assert Escaped1(s) == h + Escaped1(s[1..]);
    assert h[0] == s[0] || h[0] == '\\';
    Escaped1Last(s);
  }

  lemma Escaped1At(s: string, i: nat)
    requires i < |s|
    ensures Escaped1(s[i..]) == Escape1Char(s[i]) + Escaped1(s[i + 1..])
  {
    assert s[i..][1..] == s[i + 1..];
  }

  /** The loop of `_escape`. */
  method Escape1(s: string) returns (rv: string)
    ensures rv == Escaped1(s)
  {
    rv := "";
    var i := 0;
    while i < |s|
      invariant 0 <= i <= |s|
      invariant Escaped1(s) == rv + Escaped1(s[i..])
    {
      var c := s[i];
      Escaped1At(s, i);
      rv := rv + Escape1Char(c);
      i := i + 1;
    }
  }

  lemma Unescaped1Plain(s: string, i: nat, rv: string)
    requires i < |s| && s[i] != '\\'
    requires Unescaped1(s) == rv + Unescaped1(s[i..])
    ensures Unescaped1(s) == (rv + [s[i]]) + Unescaped1(s[i + 1..])
  {
    assert s[i..][1..] == s[i + 1..];
    assert Unescaped1(s[i..]) == [s[i]] + Unescaped1(s[i + 1..]);
  }

  lemma Unescaped1Backslash(u: string)
    requires u != []
    ensures Unescaped1("\\" + u) == [Unescape1Char(u[0])] + Unescaped1(u[1..])
  {
    assert ("\\" + u)[2..] == u[1..];
  }

  lemma Unescaped1Pending(s: string, i: nat, rv: string)
    requires i < |s|
    requires Unescaped1(s) == rv + Unescaped1("\\" + s[i..])
    ensures Unescaped1(s) == (rv + [Unescape1Char(s[i])]) + Unescaped1(s[i + 1..])
  {
    var u := s[i..];
    assert u[0] == s[i] && u[1..] == s[i + 1..];
    Unescaped1Backslash(u);
  }

  /** The loop of `_unescape`; `last` is the previous character, or empty right after an escape. */
  method Unescape1(s: string) returns (rv: string)
    ensures rv == Unescaped1(s)
  {
    rv := "";
    var last := "";
    var i := 0;
    assert s[0..] == s;
    while i < |s|
      invariant 0 <= i <= |s|
      invariant last == "\\" ==> Unescaped1(s) == rv + Unescaped1("\\" + s[i..])
      invariant last != "\\" ==> Unescaped1(s) == rv + Unescaped1(s[i..])
    {
      var c := s[i];
      if last != "\\" {
        if c != '\\' {
          Unescaped1Plain(s, i, rv);
          rv := rv + [c];
        } else {
          assert s[i..] == "\\" + s[i + 1..];
        }
        last := [c];
      } else {
        Unescaped1Pending(s, i, rv);
        rv := rv + [Unescape1Char(c)];
        last := "";
        assert |last| != |"\\"|;
      }
      i := i + 1;
    }
  }

  /* ---------------- the general codec ---------------- */

  /** The letter `escape` writes after the backslash for a special character. */
  function NameOf(c: char): char
  {
    if c == '\n' then 'n' else if c == '\r' then 'r' else if c == '\t' then 't' else c
  }

  /** The character `unescape` decodes from the letter after a backslash. */
  function CharOf(c: char): char
  {
    if c == 'n' then '\n' else if c == 'r' then '\r' else if c == 't' then '\t' else c
  }

  /** What `escape` writes for one character. */
  function EscapeChar(c: char, chars: set<char>): string
  {
    if c == '\\' then "\\\\"
    else if c in chars then ['\\', NameOf(c)]
    else [c]
  }

  /** `escape(s, chars)`: apart from backslashes and the letters `n`, `r`, `t`, every output character comes from `s`. */
  function Escaped(s: string, chars: set<char>): (r: string)
    ensures forall c :: c in r && c != '\\' ==> c in s || c in "nrt"
  {
    if s == [] then [] else EscapeChar(s[0], chars) + Escaped(s[1..], chars)
  }

  /**
   * `unescape(s, chars)`: `\c` decodes to CharOf(c) when that is special and
   * is kept as the two characters otherwise; a final lone backslash is dropped.
   */
  function Unescaped(s: string, chars: set<char>): string
  {
    if s == [] then []
    else if s[0] != '\\' then [s[0]] + Unescaped(s[1..], chars)
    else if |s| == 1 then []
    else if CharOf(s[1]) in chars then [CharOf(s[1])] + Unescaped(s[2..], chars)
    else ['\\', s[1]] + Unescaped(s[2..], chars)
  }

  /** `s` with each backslash written twice. */
  function DoubledBackslashes(s: string): (r: string)
    ensures '\\' !in s ==> r == s
  {
    if s == [] then []
    else (if s[0] == '\\' then "\\\\" else [s[0]]) + DoubledBackslashes(s[1..])
  }

  /** A special set is safe for the general codec when it holds none of the escape letters. */
  predicate NoEscapeLetters(chars: set<char>)
  {
    'n' !in chars && 'r' !in chars && 't' !in chars
  }

  lemma UnescapeEscapeChar(c: char, chars: set<char>, t: string)
    requires NoEscapeLetters(chars)
    ensures Unescaped(EscapeChar(c, chars) + t, chars)
         == (if c == '\\' && '\\' !in chars then "\\\\" else [c]) + Unescaped(t, chars)
  {
    var u := EscapeChar(c, chars) + t;
    if |EscapeChar(c, chars)| == 2 {
      assert u[2..] == t;
    } else {
      assert u[1..] == t;
    }
  }

  /**
   * What `unescape` makes of `escape`'s output: the input itself when the
   * backslash is special, and otherwise the input with every backslash doubled.
   */
  lemma {:induction false} UnescapeEscape(s: string, chars: set<char>)
    requires NoEscapeLetters(chars)
    ensures Unescaped(Escaped(s, chars), chars) == if '\\' in chars then s else DoubledBackslashes(s)
  {
    if s != [] {
      UnescapeEscapeChar(s[0], chars, Escaped(s[1..], chars));
      UnescapeEscape(s[1..], chars);
    }
  }

  /** For a string with no backslash, `unescape` undoes `escape`; in particular for the quote set of format 2. */
  lemma UnescapeEscapeNoBackslash(s: string, chars: set<char>)
    requires NoEscapeLetters(chars)
    requires '\\' !in s
    ensures Unescaped(Escaped(s, chars), chars) == s
  {
    UnescapeEscape(s, chars);
  }

  /** A backslash that is not special comes back doubled after one round trip. */
  lemma BackslashDoubles(chars: set<char>)
    requires NoEscapeLetters(chars)
    requires '\\' !in chars
    ensures Unescaped(Escaped("\\", chars), chars) == "\\\\"
  {
    UnescapeEscape("\\", chars);
  }

  /** `escape` changes nothing in a string with no backslash and no special character; a newline is escaped only when special. */
  lemma {:induction false} EscapeIdentity(s: string, chars: set<char>)
    requires '\\' !in s
    requires forall c :: c in chars ==> c !in s
    ensures Escaped(s, chars) == s
  {
    if s != [] {
      EscapeIdentity(s[1..], chars);
    }
  }

  /** An escape whose decoded character is not special is kept, backslash included. */
  lemma UnescapeKeeps(c: char, chars: set<char>, t: string)
    requires CharOf(c) !in chars
    ensures Unescaped(['\\', c] + t, chars) == ['\\', c] + Unescaped(t, chars)
  {
    assert (['\\', c] + t)[2..] == t;
  }

  /** The edges of `escape(s, {'"'})` for a string without backslashes: it never starts with a quote, and ends with one exactly when `s` does. */
  lemma {:induction false} EscapedQuoteEdges(s: string)
    requires s != [] && '\\' !in s
    ensures Escaped(s, {'"'})[0] != '"'
    ensures var r := Escaped(s, {'"'}); r[|r| - 1] == '"' <==> s[|s| - 1] == '"'
  {
    if |s| > 1 {
      EscapedQuoteEdges(s[1..]);
    }
  }

  lemma EscapedAt(s: string, chars: set<char>, i: nat)
    requires i < |s|
    ensures Escaped(s[i..], chars) == EscapeChar(s[i], chars) + Escaped(s[i + 1..], chars)
  {
    assert s[i..][1..] == s[i + 1..];
  }

  /** The loop of `escape`. */
  method Escape(s: string, chars: set<char>) returns (rv: string)
    ensures rv == Escaped(s, chars)
  {
    rv := "";
    var i := 0;
    while i < |s|
      invariant 0 <= i <= |s|
      invariant Escaped(s, chars) == rv + Escaped(s[i..], chars)
    {
      var c := s[i];
      EscapedAt(s, chars, i);
      rv := rv + EscapeChar(c, chars);
      i := i + 1;
    }
  }

  lemma UnescapedPlain(s: string, chars: set<char>, i: nat, rv: string)
    requires i < |s| && s[i] != '\\'
    requires Unescaped(s, chars) == rv + Unescaped(s[i..], chars)
    ensures Unescaped(s, chars) == (rv + [s[i]]) + Unescaped(s[i + 1..], chars)
  {
    assert s[i..][1..] == s[i + 1..];
    assert Unescaped(s[i..], chars) == [s[i]] + Unescaped(s[i + 1..], chars);
  }

  lemma UnescapedBackslash(u: string, chars: set<char>)
    requires u != []
    ensures Unescaped("\\" + u, chars)
         == (if CharOf(u[0]) in chars then [CharOf(u[0])] else ['\\', u[0]]) + Unescaped(u[1..], chars)
  {
    assert ("\\" + u)[2..] == u[1..];
  }

  lemma UnescapedPending(s: string, chars: set<char>, i: nat, rv: string, out: string)
    requires i < |s|
    requires out == if CharOf(s[i]) in chars then [CharOf(s[i])] else ['\\', s[i]]
    requires Unescaped(s, chars) == rv + Unescaped("\\" + s[i..], chars)
    ensures Unescaped(s, chars) == (rv + out) + Unescaped(s[i + 1..], chars)
  {
    var u := s[i..];
    assert u[0] == s[i] && u[1..] == s[i + 1..];
    UnescapedBackslash(u, chars);
  }

  /** The loop of `unescape`. */
  method Unescape(s: string, chars: set<char>) returns (rv: string)
    ensures rv == Unescaped(s, chars)
  {
    rv := "";
    var last := "";
    var i := 0;
    assert s[0..] == s;
    while i < |s|
      invariant 0 <= i <= |s|
      invariant last == "\\" ==> Unescaped(s, chars) == rv + Unescaped("\\" + s[i..], chars)
      invariant last != "\\" ==> Unescaped(s, chars) == rv + Unescaped(s[i..], chars)
    {
      var c := s[i];
      if last != "\\" {
        if c != '\\' {
          UnescapedPlain(s, chars, i, rv);
          rv := rv + [c];
          assert [c][0] != "\\"[0];
        } else {
          assert s[i..] == "\\" + s[i + 1..];
        }
        last := [c];
      } else {
        var tstc := CharOf(c);
        var out := if tstc in chars then [tstc] else ['\\', c];
        UnescapedPending(s, chars, i, rv, out);
        if tstc in chars {
          rv := rv + [tstc];
        } else {
          rv := rv + ['\\', c];
        }
        last := "";
        assert |last| != |"\\"|;
      }
      i := i + 1;
    }
  }
}
