/**
 * The database file as text and as the lines `readline` returns.
 *
 * The store opens its file in text mode with universal newlines, so each
 * line that `readline` returns ends in `\n` whatever break (`\n`, `\r` or
 * `\r\n`) the file holds, except a last line without a break; past the end
 * `readline` returns the empty string. `tell`/`seek` become a cursor into
 * the list of lines. Writing is `print`, which adds a newline to each string.
 */
module TextFile {

  predicate NoBreak(s: string)
  {
    '\n' !in s && '\r' !in s
  }

  /** The first line of a non-empty text as `readline` returns it, and the rest of the text. */
  function FirstLine(t: string): (r: (string, string))
    requires t != []
    ensures r.0 != [] && |r.1| < |t|
  {
    if t[0] == '\n' then ("\n", t[1..])
    else if t[0] == '\r' then ("\n", if |t| > 1 && t[1] == '\n' then t[2..] else t[1..])
    else if |t| == 1 then (t, [])
    else
      var r := FirstLine(t[1..]);
      ([t[0]] + r.0, r.1)
  }

  /** The successive results of `readline` on a file holding `t`, up to the end. */
  function LinesOf(t: string): (lines: seq<string>)
    ensures forall k :: 0 <= k < |lines| ==> lines[k] != []
    decreases |t|
  {
    if t == [] then []
    else
      var r := FirstLine(t);
      [r.0] + LinesOf(r.1)
  }

  /** What printing each of `outs` in turn writes. */
  function Printed(outs: seq<string>): string
  {
    if outs == [] then [] else outs[0] + "\n" + Printed(outs[1..])
  }

  /** Each of `outs` with the newline `print` adds. */
  function Terminated(outs: seq<string>): (r: seq<string>)
    ensures |r| == |outs|
    ensures forall k :: 0 <= k < |outs| ==> r[k] == outs[k] + "\n"
  {
    seq(|outs|, k requires 0 <= k < |outs| => outs[k] + "\n")
  }

  /** `readline` at cursor `i`: the empty string at the end of the file. */
  function LineAt(lines: seq<string>, i: nat): string
  {
    if i < |lines| then lines[i] else ""
  }

  /** The cursor after a `readline` at `i`; it does not move past the end. */
  function Next(lines: seq<string>, i: nat): (j: nat)
    requires i <= |lines|
    ensures j <= |lines|
    ensures LineAt(lines, i) != [] ==> j == i + 1
  {
    if i < |lines| then i + 1 else i
  }

  lemma {:induction false} FirstLineOfPrinted(x: string, y: string)
    requires NoBreak(x)
    ensures FirstLine(x + "\n" + y) == (x + "\n", y)
  {
    var t := x + "\n" + y;
    if x == [] {
      assert x + "\n" == "\n";
      assert t[0] == '\n' && t[1..] == y;
    } else {
      assert t[1..] == x[1..] + "\n" + y;
      FirstLineOfPrinted(x[1..], y);
      assert [x[0]] + (x[1..] + "\n") == x + "\n";
    }
  }

  lemma PrintedAppend(a: seq<string>, b: seq<string>)
    ensures Printed(a + b) == Printed(a) + Printed(b)
  {
    if a != [] {
      assert (a + b)[1..] == a[1..] + b;
      PrintedAppend(a[1..], b);
    } else {
      assert a + b == b;
    }
  }

  /** A line without breaks in front of lines without breaks. */
  lemma NoBreakCons(head: string, body: seq<string>)
    requires NoBreak(head)
    requires forall k :: 0 <= k < |body| ==> NoBreak(body[k])
    ensures forall k :: 0 <= k < |[head] + body| ==> NoBreak(([head] + body)[k])
  {
    forall k | 0 <= k < |[head] + body|
      ensures NoBreak(([head] + body)[k])
    {
      if k > 0 {
        assert ([head] + body)[k] == body[k - 1];
      }
    }
  }

  /** The first of the printed lines, and the rest. */
  lemma TerminatedCons(lines: seq<string>, head: string, body: seq<string>)
    requires lines == Terminated([head] + body)
    ensures |lines| >= 1 && lines[0] == head + "\n" && lines[1..] == Terminated(body)
  {
    assert ([head] + body)[0] == head;
    forall k | 0 <= k < |body|
      ensures lines[1..][k] == Terminated(body)[k]
    {
      assert ([head] + body)[k + 1] == body[k];
    }
  }

  /** Reading back what `print` wrote gives, line by line, the strings printed, each with its newline. */
  lemma {:induction false} LinesOfPrinted(outs: seq<string>)
    requires forall k :: 0 <= k < |outs| ==> NoBreak(outs[k])
    ensures LinesOf(Printed(outs)) == Terminated(outs)
  {
    if outs != [] {
      FirstLineOfPrinted(outs[0], Printed(outs[1..]));
      LinesOfPrinted(outs[1..]);
      assert Terminated(outs) == [outs[0] + "\n"] + Terminated(outs[1..]);
    }
  }

  /** Printed lines laid out after one another, from `i` to `e`, split at `m` where the two lists meet. */
  lemma TerminatedSplit(lines: seq<string>, i: nat, m: nat, e: nat, a: seq<string>, b: seq<string>)
    requires m == i + |a| && e == m + |b| && e <= |lines|
    requires lines[i..e] == Terminated(a + b)
    ensures lines[i..m] == Terminated(a)
    ensures lines[m..e] == Terminated(b)
  {
    forall k | 0 <= k < |a|
      ensures lines[i..m][k] == Terminated(a)[k]
    {
      assert lines[i + k] == lines[i..e][k];
      assert (a + b)[k] == a[k];
    }
    forall k | 0 <= k < |b|
      ensures lines[m..e][k] == Terminated(b)[k]
    {
      assert lines[m + k] == lines[i..e][|a| + k];
      assert (a + b)[|a| + k] == b[k];
    }
  }
}
