/**
 * `replace_all` (fit.py:361-388), the expander the server runs over its page
 * templates: `$(name)` becomes the value of `name` in the given dictionary, or
 * stays as written when the dictionary has no such key; a `$` not followed by
 * `(` is copied with the character after it; a `$` or an unclosed `$(name` at
 * the very end of the text produces nothing.
 */
module Template {
  import opened Wrappers
  import opened Records

  /** The first `)` in `t` at or after `from`, if any. */
  function CloseAt(t: string, from: nat): (r: Option<nat>)
    requires from <= |t|
    ensures r.Some? ==> from <= r.value < |t| && t[r.value] == ')'
    ensures r.Some? ==> forall k :: from <= k < r.value ==> t[k] != ')'
    ensures r.None? ==> forall k :: from <= k < |t| ==> t[k] != ')'
    decreases |t| - from
  {
    if from == |t| then None
    else if t[from] == ')' then Some(from)
    else CloseAt(t, from + 1)
  }

  /** What `$(name)` turns into: the value of `name`, or `$(name)` again where looking it up raises. */
  function Substituted(name: string, vals: Dict): string
  {
    match Lookup(vals, name)
    case Some(v) => v
    case None => "$(" + name + ")"
  }

  /** The expansion of `t`, read as text, `$c` escapes and `$(name)` references from left to right. */
  function Expanded(t: string, vals: Dict): string
    decreases |t|
  {
    if t == [] then []
    else if t[0] != '$' then [t[0]] + Expanded(t[1..], vals)
    else if |t| == 1 then []
    else if t[1] != '(' then ['$', t[1]] + Expanded(t[2..], vals)
    else
      match CloseAt(t, 2)
      case None => []
      case Some(j) => Substituted(t[2..j], vals) + Expanded(t[j + 1..], vals)
  }

  /**
   * What is still to come when the machine is in state `invar` (0 copying,
   * 1 after a `$`, 2 inside `$(`) with `varname` read so far and `rest` unread.
   */
  function Pending(invar: int, varname: string, rest: string, vals: Dict): string
  {
    if invar == 2 then Expanded("$(" + varname + rest, vals)
    else if invar == 1 then Expanded("$" + rest, vals)
    else Expanded(rest, vals)
  }

  /** The source's three-state loop over the characters of `txt`. */
  method ReplaceAll(txt: string, vals: Dict) returns (rv: string)
    ensures rv == Expanded(txt, vals)
  {
    rv := "";
    var invar := 0;
    var varname := "";
    ghost var goal := Expanded(txt, vals);
    assert txt[0..] == txt;
    for i := 0 to |txt|
      invariant 0 <= invar <= 2
      invariant invar != 2 ==> varname == ""
      invariant ')' !in varname
      invariant rv + Pending(invar, varname, txt[i..], vals) == goal
    {
      var ch := txt[i];
      var rest := txt[i + 1..];
      assert txt[i..] == [ch] + rest;
      if invar == 2 {
        if ch == ')' {
          StepClose(rv, varname, rest, vals, goal);
          rv := rv + Substituted(varname, vals);
          varname := "";
          invar := 0;
        } else {
          StepName(rv, varname, ch, rest, vals, goal);
          varname := varname + [ch];
        }
      } else if invar == 1 {
        if ch == '(' {
          StepOpen(rv, rest, vals, goal);
          invar := 2;
        } else {
          StepDollarOther(rv, ch, rest, vals, goal);
          rv := rv + "$";
          rv := rv + [ch];
          invar := 0;
        }
      } else {
        if ch == '$' {
          StepDollar(rv, rest, vals, goal);
          invar := 1;
        } else {
          StepPlain(rv, ch, rest, vals, goal);
          rv := rv + [ch];
        }
      }
    }
    StepEnd(rv, invar, varname, txt[|txt|..], vals, goal);
  }

  /* How `Pending` moves on by one character, first on its own, then with `rv` in front. */

  lemma PendingPlain(ch: char, rest: string, vals: Dict)
    requires ch != '$'
    ensures Pending(0, "", [ch] + rest, vals) == [ch] + Pending(0, "", rest, vals)
  {
    assert ([ch] + rest)[1..] == rest;
  }

  lemma PendingDollarOther(ch: char, rest: string, vals: Dict)
    requires ch != '('
    ensures Pending(1, "", [ch] + rest, vals) == "$" + [ch] + Pending(0, "", rest, vals)
  {
    ExpandDollarOther(ch, rest, vals);
    assert "$" + ([ch] + rest) == "$" + [ch] + rest;
  }

  lemma PendingClose(varname: string, rest: string, vals: Dict)
    requires ')' !in varname
    ensures Pending(2, varname, [')'] + rest, vals) == Substituted(varname, vals) + Pending(0, "", rest, vals)
  {
    ExpandVar(varname, rest, vals);
    assert "$(" + varname + ([')'] + rest) == "$(" + varname + ")" + rest;
  }

  lemma StepPlain(rv: string, ch: char, rest: string, vals: Dict, goal: string)
    requires ch != '$'
    requires rv + Pending(0, "", [ch] + rest, vals) == goal
    ensures (rv + [ch]) + Pending(0, "", rest, vals) == goal
  {
    PendingPlain(ch, rest, vals);
    var p := Pending(0, "", rest, vals);
    assert rv + ([ch] + p) == (rv + [ch]) + p;
  }

  lemma StepDollar(rv: string, rest: string, vals: Dict, goal: string)
    requires rv + Pending(0, "", ['$'] + rest, vals) == goal
    ensures rv + Pending(1, "", rest, vals) == goal
  {
    assert "$" + rest == ['$'] + rest;
  }

  lemma StepOpen(rv: string, rest: string, vals: Dict, goal: string)
    requires rv + Pending(1, "", ['('] + rest, vals) == goal
    ensures rv + Pending(2, "", rest, vals) == goal
  {
    assert "$" + (['('] + rest) == "$(" + "" + rest;
  }

  lemma StepDollarOther(rv: string, ch: char, rest: string, vals: Dict, goal: string)
    requires ch != '('
    requires rv + Pending(1, "", [ch] + rest, vals) == goal
    ensures ((rv + "$") + [ch]) + Pending(0, "", rest, vals) == goal
  {
    PendingDollarOther(ch, rest, vals);
    var p := Pending(0, "", rest, vals);
    assert rv + ("$" + [ch] + p) == ((rv + "$") + [ch]) + p;
  }

  lemma StepName(rv: string, varname: string, ch: char, rest: string, vals: Dict, goal: string)
    requires rv + Pending(2, varname, [ch] + rest, vals) == goal
    ensures rv + Pending(2, varname + [ch], rest, vals) == goal
  {
    assert "$(" + varname + ([ch] + rest) == "$(" + (varname + [ch]) + rest;
  }

  lemma StepClose(rv: string, varname: string, rest: string, vals: Dict, goal: string)
    requires ')' !in varname
    requires rv + Pending(2, varname, [')'] + rest, vals) == goal
    ensures (rv + Substituted(varname, vals)) + Pending(0, "", rest, vals) == goal
  {
    PendingClose(varname, rest, vals);
    var p := Pending(0, "", rest, vals);
    var v := Substituted(varname, vals);
    assert rv + (v + p) == (rv + v) + p;
  }

  lemma StepEnd(rv: string, invar: int, varname: string, rest: string, vals: Dict, goal: string)
    requires invar != 2 ==> varname == ""
    requires ')' !in varname
    requires rest == []
    requires rv + Pending(invar, varname, rest, vals) == goal
    ensures rv == goal
  {
    ExpandUnterminated(varname, vals);
    assert "$(" + varname + [] == "$(" + varname;
    assert "$" + [] == "$";
    assert Pending(invar, varname, rest, vals) == [];
  }

  /** `$(name)` with no `)` inside `name` expands to the substitution, and expansion goes on after it. */
  lemma ExpandVar(name: string, rest: string, vals: Dict)
    requires ')' !in name
    ensures HasKey(vals, name) ==> Expanded("$(" + name + ")" + rest, vals) == Lookup(vals, name).value + Expanded(rest, vals)
    ensures !HasKey(vals, name) ==> Expanded("$(" + name + ")" + rest, vals) == "$(" + name + ")" + Expanded(rest, vals)
  {
    var t := "$(" + name + ")" + rest;
    var j := 2 + |name|;
    assert t[j] == ')';
    assert forall k :: 2 <= k < j ==> t[k] == name[k - 2];
    assert CloseAt(t, 2) == Some(j);
    assert t[2..j] == name;
    assert t[j + 1..] == rest;
  }

  /** A `$` followed by anything but `(` is copied with that character. */
  lemma ExpandDollarOther(c: char, rest: string, vals: Dict)
    requires c != '('
    ensures Expanded("$" + [c] + rest, vals) == "$" + [c] + Expanded(rest, vals)
  {
    var t := "$" + [c] + rest;
    assert t[0] == '$' && t[1] == c && t[2..] == rest;
  }

  /** A `$` or an unclosed `$(name` at the end of the text expands to nothing. */
  lemma ExpandUnterminated(name: string, vals: Dict)
    requires ')' !in name
    ensures Expanded("$", vals) == []
    ensures Expanded("$(" + name, vals) == []
  {
    var t := "$(" + name;
    assert forall k :: 2 <= k < |t| ==> t[k] == name[k - 2];
    assert CloseAt(t, 2) == None;
  }

  /** Text without `$` comes back unchanged. */
  lemma {:induction false} NoDollarUnchanged(t: string, vals: Dict)
    requires '$' !in t
    ensures Expanded(t, vals) == t
    decreases |t|
  {
    if t != [] {
      var rest := t[1..];
      assert t[0] in t && t == [t[0]] + rest;
      assert '$' !in rest;
      NoDollarUnchanged(rest, vals);
    }
  }
}
