/**
 * What the store computes over rows and dictionaries without touching its
 * own state: column lookup by name (`_field_idx`), applying a request's
 * dictionary to a row, the row filter of `get_rows` (`_row_match`), the
 * dictionary `_make_dict` builds, the Id index `reload_db` builds, and the
 * delete-and-reinsert move of `place_before`.
 */
module Table {
  import opened Wrappers
  import opened Text
  import opened Records

  /** The default column names (fit.py:223), which the store's hard-coded column numbers assume. */
  const Fields: seq<string> := ["Id", "Type", "Title", "Description", "Created", "Modified", "Parent", "Status"]
  const IdCol: nat := 0
  const TypeCol: nat := 1
  const ParentCol: nat := 6
  const StatusCol: nat := 7

  /** Rows with every column the store indexes: the eight of `Fields`. */
  predicate Wide(rows: seq<Row>)
  {
    forall k :: 0 <= k < |rows| ==> |rows[k].fields| >= |Fields|
  }

  // ----- _field_idx -----

  /** The first column whose name equals `name` ignoring case, or -1. */
  function ColumnOf(cols: seq<string>, name: string): (r: int)
    ensures -1 <= r < |cols|
    decreases |cols|
  {
    if cols == [] then -1
    else if Lower(cols[0]) == Lower(name) then 0
    else
      var r := ColumnOf(cols[1..], name);
      if r < 0 then -1 else r + 1
  }

  /** `ColumnOf` finds the first column matching `name` case-insensitively, and -1 exactly when none does. */
  lemma {:induction false} ColumnOfSpec(cols: seq<string>, name: string)
    ensures ColumnOf(cols, name) >= 0 ==> Lower(cols[ColumnOf(cols, name)]) == Lower(name)
    ensures forall j :: 0 <= j < |cols| && (ColumnOf(cols, name) < 0 || j < ColumnOf(cols, name)) ==> Lower(cols[j]) != Lower(name)
    decreases |cols|
  {
    if cols != [] && Lower(cols[0]) != Lower(name) {
      ColumnOfSpec(cols[1..], name);
      forall j | 1 <= j < |cols|
        ensures cols[j] == cols[1..][j - 1]
      {
      }
    }
  }

  // ----- the item loops of add_row_from_dict and update_row_from_dict -----

  /**
   * The row after `for k, v in d.items(): idx = _field_idx(k); if idx >= 0:
   * row[idx] = v`, with the entries of `d` applied in order.
   */
  function Applied(fields: seq<string>, d: Dict, cols: seq<string>): (r: seq<string>)
    requires |cols| <= |fields|
    ensures |r| == |fields|
    decreases |d|
  {
    if d == [] then fields
    else
      var prev := Applied(fields, d[..|d| - 1], cols);
      var c := ColumnOf(cols, d[|d| - 1].0);
      if c >= 0 then prev[c := d[|d| - 1].1] else prev
  }

  /** A column that no key of `d` names keeps its value. */
  lemma {:induction false} AppliedUntouched(fields: seq<string>, d: Dict, cols: seq<string>, c: int)
    requires |cols| <= |fields| && 0 <= c < |fields|
    requires forall k :: 0 <= k < |d| ==> ColumnOf(cols, d[k].0) != c
    ensures Applied(fields, d, cols)[c] == fields[c]
    decreases |d|
  {
    if d != [] {
      var front := d[..|d| - 1];
      assert forall k :: 0 <= k < |front| ==> front[k] == d[k];
      AppliedUntouched(fields, front, cols, c);
    }
  }

  /** A column named by some key of `d` holds the value of the last entry naming it. */
  lemma {:induction false} AppliedLast(fields: seq<string>, d: Dict, cols: seq<string>, k: int)
    requires |cols| <= |fields| && 0 <= k < |d| && ColumnOf(cols, d[k].0) >= 0
    requires forall j :: k < j < |d| ==> ColumnOf(cols, d[j].0) != ColumnOf(cols, d[k].0)
    ensures Applied(fields, d, cols)[ColumnOf(cols, d[k].0)] == d[k].1
    decreases |d|
  {
    var front := d[..|d| - 1];
    if k < |d| - 1 {
      assert forall j :: 0 <= j < |front| ==> front[j] == d[j];
      AppliedLast(fields, front, cols, k);
    }
  }

  // ----- _row_match and get_rows -----

  /** The `type` argument of `get_rows`: absent, one name, or a list of names. */
  datatype TypeFilter = AnyType | TypeIs(name: string) | TypeIn(names: seq<string>)

  /** The filters of `get_rows`; `None` is a filter not given. */
  datatype Query = Query(typ: TypeFilter, parent: Option<string>, id: Option<string>, status: Option<string>)

  const NoFilter: Query := Query(AnyType, None, None, None)

  /** Whether the row passes every given filter, comparing lower-cased; a list of types is tested by membership as given. */
  predicate RowMatch(r: Row, q: Query)
    requires |r.fields| >= |Fields|
  {
    && (match q.typ
        case AnyType => true
        case TypeIs(t) => Lower(r.fields[TypeCol]) == Lower(t)
        case TypeIn(ts) => Lower(r.fields[TypeCol]) in ts)
    && (q.parent.None? || Lower(r.fields[ParentCol]) == Lower(q.parent.value))
    && (q.id.None? || Lower(r.fields[IdCol]) == Lower(q.id.value))
    && (q.status.None? || Lower(r.fields[StatusCol]) == Lower(q.status.value))
  }

  /** `[r for r in rows if _row_match(r, ...)]`. */
  function Filter(rows: seq<Row>, q: Query): (r: seq<Row>)
    requires Wide(rows)
    ensures |r| <= |rows|
    decreases |rows|
  {
    if rows == [] then []
    else
      var last := rows[|rows| - 1];
      Filter(rows[..|rows| - 1], q) + if RowMatch(last, q) then [last] else []
  }

  /** The filter keeps exactly the matching rows. */
  lemma {:induction false} FilterMembers(rows: seq<Row>, q: Query, x: Row)
    requires Wide(rows)
    ensures x in Filter(rows, q) <==> x in rows && RowMatch(x, q)
    decreases |rows|
  {
    if rows != [] {
      var front := rows[..|rows| - 1];
      FilterMembers(front, q, x);
      assert rows == front + [rows[|rows| - 1]];
    }
  }

  lemma WideAppend(a: seq<Row>, b: seq<Row>)
    requires Wide(a) && Wide(b)
    ensures Wide(a + b)
  {
    forall k | 0 <= k < |a + b|
      ensures |(a + b)[k].fields| >= |Fields|
    {
      if k >= |a| {
        assert (a + b)[k] == b[k - |a|];
      }
    }
  }

  /** The filter keeps table order: filtering a concatenation concatenates the filtered parts. */
  lemma {:induction false} FilterAppend(a: seq<Row>, b: seq<Row>, q: Query)
    requires Wide(a) && Wide(b)
    ensures Wide(a + b)
    ensures Filter(a + b, q) == Filter(a, q) + Filter(b, q)
    decreases |b|
  {
    WideAppend(a, b);
    if b == [] {
      assert a + b == a;
    } else {
      var front := b[..|b| - 1];
      var last := b[|b| - 1];
      assert Wide(front);
      FilterAppend(a, front, q);
      var ab := a + b;
      assert ab[..|ab| - 1] == a + front && ab[|ab| - 1] == last;
      var tail := if RowMatch(last, q) then [last] else [];
      assert Filter(ab, q) == Filter(a + front, q) + tail;
      assert Filter(b, q) == Filter(front, q) + tail;
    }
  }

  /** With no filter given every row is returned, in order. */
  lemma {:induction false} FilterNone(rows: seq<Row>)
    requires Wide(rows)
    ensures Filter(rows, NoFilter) == rows
    decreases |rows|
  {
    if rows != [] {
      var front := rows[..|rows| - 1];
      var last := rows[|rows| - 1];
      assert Wide(front);
      FilterNone(front);
      assert RowMatch(last, NoFilter);
      assert Filter(rows, NoFilter) == Filter(front, NoFilter) + [last];
      assert rows == front + [last];
    }
  }

  /** Every row the filter returns is one of the rows, so it is as wide. */
  lemma {:induction false} FilterWide(rows: seq<Row>, q: Query)
    requires Wide(rows)
    ensures Wide(Filter(rows, q))
    decreases |rows|
  {
    if rows != [] {
      var front := rows[..|rows| - 1];
      assert Wide(front) by {
        assert forall k :: 0 <= k < |front| ==> front[k] == rows[k];
      }
      FilterWide(front, q);
    }
  }

  /** The filter's membership, for every row at once. */
  lemma FilterMembersAll(rows: seq<Row>, q: Query)
    requires Wide(rows)
    ensures forall x :: x in Filter(rows, q) <==> x in rows && RowMatch(x, q)
  {
    forall x
      ensures x in Filter(rows, q) <==> x in rows && RowMatch(x, q)
    {
      FilterMembers(rows, q, x);
    }
  }

  // ----- _make_dict -----

  /** `{keys[i]: values[i] for i in range(len(keys))}` built in order, or None where `values` runs out. */
  function MakeDict(values: seq<string>, keys: seq<string>): (r: Option<Dict>)
    decreases |keys|
  {
    if keys == [] then Some([])
    else if |values| < |keys| then None
    else
      match MakeDict(values, keys[..|keys| - 1])
      case None => None
      case Some(d) => Some(Put(d, keys[|keys| - 1], values[|keys| - 1]))
  }

  /** `key` is at `j` in `keys` and at no later index. */
  predicate LastAt(keys: seq<string>, j: int, key: string)
  {
    0 <= j < |keys| && keys[j] == key && forall i :: j < i < |keys| ==> keys[i] != key
  }

  /** `_make_dict` succeeds exactly when there is a value for every key, and then no key occurs twice. */
  lemma {:induction false} MakeDictDefined(values: seq<string>, keys: seq<string>)
    ensures MakeDict(values, keys).Some? <==> |keys| <= |values|
    ensures MakeDict(values, keys).Some? ==> UniqueKeys(MakeDict(values, keys).value)
    decreases |keys|
  {
    if keys != [] {
      var n := |keys| - 1;
      MakeDictDefined(values, keys[..n]);
      if |keys| <= |values| {
        PutUnique(MakeDict(values, keys[..n]).value, keys[n], values[n]);
      }
    }
  }

  /** The last key is put into the dictionary built from the ones before it. */
  lemma MakeDictStep(values: seq<string>, keys: seq<string>, d: Dict)
    requires keys != [] && |keys| <= |values|
    requires MakeDict(values, keys[..|keys| - 1]) == Some(d)
    ensures MakeDict(values, keys) == Some(Put(d, keys[|keys| - 1], values[|keys| - 1]))
  {
  }

  /** In the dictionary `_make_dict` builds, a key maps to the value at its last position in `keys`. */
  lemma {:induction false} MakeDictLookup(values: seq<string>, keys: seq<string>, key: string, j: int)
    requires |keys| <= |values| && LastAt(keys, j, key)
    ensures MakeDict(values, keys).Some?
    ensures Lookup(MakeDict(values, keys).value, key) == Some(values[j])
    decreases |keys|
  {
    var n := |keys| - 1;
    var front := keys[..n];
    MakeDictDefined(values, front);
    var d := MakeDict(values, front).value;
    MakeDictStep(values, keys, d);
    PutLookup(d, keys[n], values[n]);
    if j < n {
      LastAtFront(keys, j, key);
      MakeDictLookup(values, front, key, j);
    }
  }

  lemma LastAtFront(keys: seq<string>, j: int, key: string)
    requires LastAt(keys, j, key) && j < |keys| - 1
    ensures LastAt(keys[..|keys| - 1], j, key) && keys[|keys| - 1] != key
  {
  }

  /** A name that is not among `keys` is not a key of the dictionary `_make_dict` builds. */
  lemma {:induction false} MakeDictMissing(values: seq<string>, keys: seq<string>, key: string)
    requires |keys| <= |values| && key !in keys
    ensures MakeDict(values, keys).Some?
    ensures Lookup(MakeDict(values, keys).value, key) == None
    decreases |keys|
  {
    MakeDictDefined(values, keys);
    if keys != [] {
      var n := |keys| - 1;
      var front := keys[..n];
      assert key !in front by {
        assert forall i :: 0 <= i < |front| ==> front[i] == keys[i];
      }
      MakeDictMissing(values, front, key);
      PutLookup(MakeDict(values, front).value, keys[n], values[n]);
    }
  }

  /** The dictionary `_make_dict` builds, whole: each key maps to the value at its last position, and no other name is a key. */
  lemma MakeDictAll(values: seq<string>, keys: seq<string>)
    requires |keys| <= |values|
    ensures MakeDict(values, keys).Some?
    ensures forall j, key :: LastAt(keys, j, key) ==> Lookup(MakeDict(values, keys).value, key) == Some(values[j])
    ensures forall key :: key !in keys ==> Lookup(MakeDict(values, keys).value, key) == None
  {
    MakeDictDefined(values, keys);
    forall j, key | LastAt(keys, j, key)
      ensures Lookup(MakeDict(values, keys).value, key) == Some(values[j])
    {
      MakeDictLookup(values, keys, key, j);
    }
    forall key | key !in keys
      ensures Lookup(MakeDict(values, keys).value, key) == None
    {
      MakeDictMissing(values, keys, key);
    }
  }

  /** `_make_dict(r, Fields)` for a row with all eight columns. */
  function RowDict(r: Row): Dict
    requires |r.fields| >= |Fields|
  {
    MakeDictDefined(r.fields, Fields);
    MakeDict(r.fields, Fields).value
  }

  /** The dictionary of a row maps each column name to that column's value. */
  lemma RowDictSpec(r: Row)
    requires |r.fields| >= |Fields|
    ensures forall c :: 0 <= c < |Fields| ==> Lookup(RowDict(r), Fields[c]) == Some(r.fields[c])
  {
    forall c | 0 <= c < |Fields|
      ensures Lookup(RowDict(r), Fields[c]) == Some(r.fields[c])
    {
      assert LastAt(Fields, c, Fields[c]);
      MakeDictLookup(r.fields, Fields, Fields[c], c);
    }
  }

  /** The dictionary of each of several rows. */
  lemma RowDictAll(rows: seq<Row>)
    requires Wide(rows)
    ensures forall i, c :: 0 <= i < |rows| && 0 <= c < |Fields| ==> Lookup(RowDict(rows[i]), Fields[c]) == Some(rows[i].fields[c])
  {
    forall i | 0 <= i < |rows|
      ensures forall c :: 0 <= c < |Fields| ==> Lookup(RowDict(rows[i]), Fields[c]) == Some(rows[i].fields[c])
    {
      RowDictSpec(rows[i]);
    }
  }

  // ----- the rowmap reload_db builds -----

  /** `for r in rows: rowmap[r[0]] = r`, with each row named by its index: a later row with the same Id wins. */
  function IndexOf(rows: seq<Row>): (m: map<string, nat>)
    requires HaveIds(rows)
    ensures forall id :: id in m ==> m[id] < |rows|
    decreases |rows|
  {
    if rows == [] then map[]
    else
      var front := rows[..|rows| - 1];
      assert HaveIds(front) by {
        assert forall k :: 0 <= k < |front| ==> front[k] == rows[k];
      }
      IndexOf(front)[rows[|rows| - 1].fields[0] := |rows| - 1]
  }

  /** The index holds exactly the Ids of the rows, each pointing at the last row with that Id. */
  lemma {:induction false} IndexOfSpec(rows: seq<Row>, id: string)
    requires HaveIds(rows)
    ensures id in IndexOf(rows) <==> exists k :: 0 <= k < |rows| && rows[k].fields[0] == id
    ensures id in IndexOf(rows) ==> rows[IndexOf(rows)[id]].fields[0] == id
    ensures id in IndexOf(rows) ==> forall k :: IndexOf(rows)[id] < k < |rows| ==> rows[k].fields[0] != id
    decreases |rows|
  {
    if rows != [] {
      var front := rows[..|rows| - 1];
      assert forall k :: 0 <= k < |front| ==> front[k] == rows[k];
      IndexOfSpec(front, id);
    }
  }

  /** One step of the loop that builds the index: the prefix grows by one row. */
  lemma IndexOfNext(rows: seq<Row>, k: nat)
    requires HaveIds(rows) && k < |rows|
    ensures HaveIds(rows[..k]) && HaveIds(rows[..k + 1])
    ensures IndexOf(rows[..k + 1]) == IndexOf(rows[..k])[rows[k].fields[0] := k]
  {
    assert rows[..k + 1][..k] == rows[..k];
  }

  // ----- place_before -----

  /** `del s[p]` followed by `s.insert(t, s[p])`. */
  function Moved<T>(s: seq<T>, p: nat, t: nat): (r: seq<T>)
    requires p < |s| && t < |s|
    ensures |r| == |s|
  {
    var rest := s[..p] + s[p + 1..];
    rest[..t] + [s[p]] + rest[t..]
  }

  /** Where the element at `q` ends up after the move. */
  function MovedIndex(q: nat, p: nat, t: nat): nat
  {
    if q == p then t
    else
      var d := if q < p then q else q - 1;
      if d < t then d else d + 1
  }

  /** Where the element at `i` after the move came from. */
  function MovedFrom(i: nat, p: nat, t: nat): nat
  {
    if i == t then p
    else
      var d := if i < t then i else i - 1;
      if d < p then d else d + 1
  }

  /**
   * The move puts the moved element at `t`, keeps every other element in its
   * order, sends each element from `q` to `MovedIndex(q, p, t)`, and fills
   * each index `i` from `MovedFrom(i, p, t)`.
   */
  lemma MovedSpec<T>(s: seq<T>, p: nat, t: nat)
    requires p < |s| && t < |s|
    ensures Moved(s, p, t)[t] == s[p]
    ensures Moved(s, p, t)[..t] + Moved(s, p, t)[t + 1..] == s[..p] + s[p + 1..]
    ensures forall q :: 0 <= q < |s| ==> MovedIndex(q, p, t) < |s| && Moved(s, p, t)[MovedIndex(q, p, t)] == s[q]
    ensures forall i :: 0 <= i < |s| ==> MovedFrom(i, p, t) < |s| && Moved(s, p, t)[i] == s[MovedFrom(i, p, t)]
  {
    var r := Moved(s, p, t);
    var rest := s[..p] + s[p + 1..];
    assert r[..t] == rest[..t];
    assert r[t + 1..] == rest[t..];
    assert rest[..t] + rest[t..] == rest;
    forall q | 0 <= q < |s|
      ensures MovedIndex(q, p, t) < |s| && r[MovedIndex(q, p, t)] == s[q]
    {
      if q != p {
        var d := if q < p then q else q - 1;
        assert rest[d] == s[q];
      }
    }
    forall i | 0 <= i < |s|
      ensures MovedFrom(i, p, t) < |s| && r[i] == s[MovedFrom(i, p, t)]
    {
      if i != t {
        var d := if i < t then i else i - 1;
        assert r[i] == rest[d];
      }
    }
  }

  /** The move only reorders: the same elements, as many times each. */
  lemma MovedPerm<T>(s: seq<T>, p: nat, t: nat)
    requires p < |s| && t < |s|
    ensures multiset(Moved(s, p, t)) == multiset(s)
  {
    var rest := s[..p] + s[p + 1..];
    assert s == s[..p] + [s[p]] + s[p + 1..];
    assert rest == rest[..t] + rest[t..];
    calc {
      multiset(Moved(s, p, t));
      multiset(rest[..t]) + multiset([s[p]]) + multiset(rest[t..]);
      multiset(rest) + multiset([s[p]]);
      multiset(s[..p]) + multiset(s[p + 1..]) + multiset([s[p]]);
      multiset(s);
    }
  }

  /**
   * The insert index is the target's index before the deletion, so a row
   * moved forward lands just after its target and a row moved back lands just
   * before it.
   */
  lemma MovedBeside<T>(s: seq<T>, p: nat, t: nat)
    requires p < |s| && t < |s| && p != t
    ensures p < t ==> Moved(s, p, t)[t - 1] == s[t]
    ensures t < p ==> Moved(s, p, t)[t + 1] == s[t]
  {
    MovedSpec(s, p, t);
  }
}
