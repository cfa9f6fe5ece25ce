/**
 * The values the store keeps: a row of text fields with its position slot,
 * and Python dictionaries as association lists in insertion order (the
 * config map from key to a list of values, and the string-to-string
 * dictionaries that requests pass to the store).
 */
module Records {
  import opened Wrappers

  /** A row: its fields in column order and the trailing position slot (`r[8]` in the source). */
  datatype Row = Row(fields: seq<string>, pos: int)

  /** A Python dictionary with string keys, in insertion order. */
  type Assoc<V> = seq<(string, V)>

  /** The configuration: key to its ordered list of values. */
  type Config = Assoc<seq<string>>

  /** A request's field dictionary. */
  type Dict = Assoc<string>

  /** The keys of `d` in order. */
  function Keys<V>(d: Assoc<V>): (r: seq<string>)
    ensures |r| == |d|
  {
    seq(|d|, i requires 0 <= i < |d| => d[i].0)
  }

  /**
   * No key occurs twice, as in every Python dictionary. Stated over `Keys`
   * so that the pairwise quantifier fires only where a proof asks for it.
   */
  predicate UniqueKeys<V>(d: Assoc<V>)
  {
    forall i, j :: 0 <= i < j < |d| ==> Keys(d)[i] != Keys(d)[j]
  }

  lemma Distinct<V>(d: Assoc<V>, i: int, j: int)
    requires UniqueKeys(d) && 0 <= i < |d| && 0 <= j < |d| && i != j
    ensures d[i].0 != d[j].0
  {
    assert Keys(d)[i] == d[i].0 && Keys(d)[j] == d[j].0;
  }

  predicate HasKey<V>(d: Assoc<V>, key: string)
  {
    exists i :: 0 <= i < |d| && d[i].0 == key
  }

  /** `d[key]`, or None where Python raises KeyError: the value at the first entry with that key. */
  function Lookup<V>(d: Assoc<V>, key: string): (r: Option<V>)
    ensures r.Some? <==> HasKey(d, key)
    ensures forall i :: 0 <= i < |d| && d[i].0 == key && (forall j :: 0 <= j < i ==> d[j].0 != key) ==> r == Some(d[i].1)
  {
    if d == [] then None
    else if d[0].0 == key then Some(d[0].1)
    else
      assert forall i :: 1 <= i < |d| ==> d[i] == d[1..][i - 1];
      Lookup(d[1..], key)
  }

  /** `d[key] = v`: an existing key keeps its place and takes the new value; a new key goes last. */
  function Put<V>(d: Assoc<V>, key: string, v: V): (r: Assoc<V>)
    ensures HasKey(d, key) ==> Replaced(d, key, v, r)
    ensures !HasKey(d, key) ==> r == d + [(key, v)]
  {
    if HasKey(d, key) then seq(|d|, i requires 0 <= i < |d| => if d[i].0 == key then (key, v) else d[i])
    else d + [(key, v)]
  }

  /** Dropping the first entry keeps the keys unique. */
  lemma UniqueTail<V>(d: Assoc<V>)
    requires UniqueKeys(d) && d != []
    ensures UniqueKeys(d[1..])
  {
    var t := d[1..];
    forall i, j | 0 <= i < j < |t|
      ensures Keys(t)[i] != Keys(t)[j]
    {
      assert Keys(t)[i] == d[i + 1].0 && Keys(t)[j] == d[j + 1].0;
      Distinct(d, i + 1, j + 1);
    }
  }

  /** Storing into a dictionary keeps its keys unique. */
  lemma PutUnique<V>(d: Assoc<V>, key: string, v: V)
    requires UniqueKeys(d)
    ensures UniqueKeys(Put(d, key, v))
  {
    var r := Put(d, key, v);
    forall i, j | 0 <= i < j < |r|
      ensures Keys(r)[i] != Keys(r)[j]
    {
      assert Keys(r)[i] == r[i].0 && Keys(r)[j] == r[j].0;
      if HasKey(d, key) {
        Distinct(d, i, j);
      } else if j == |d| {
        assert r[i] == d[i];
      } else {
        assert r[i] == d[i] && r[j] == d[j];
        Distinct(d, i, j);
      }
    }
  }

  /** After `d[key] = v`, `key` maps to `v` and every other key maps to what it did. */
  lemma PutLookup<V>(d: Assoc<V>, key: string, v: V)
    ensures Lookup(Put(d, key, v), key) == Some(v)
    ensures forall k :: k != key ==> Lookup(Put(d, key, v), k) == Lookup(d, k)
  {
    var r := Put(d, key, v);
    if HasKey(d, key) {
      ReplacedLookup(d, key, v, r);
      forall k | k != key
        ensures Lookup(r, k) == Lookup(d, k)
      {
        ReplacedLookupOther(d, key, v, r, k);
      }
    } else {
      AppendLookups(d, key, v);
    }
  }

  /** `r` is `d` with every entry for `key` replaced by `(key, v)`. */
  ghost predicate Replaced<V>(d: Assoc<V>, key: string, v: V, r: Assoc<V>)
  {
    |r| == |d| && forall i :: 0 <= i < |d| ==> r[i] == if d[i].0 == key then (key, v) else d[i]
  }

  lemma ReplacedTail<V>(d: Assoc<V>, key: string, v: V, r: Assoc<V>)
    requires Replaced(d, key, v, r) && d != []
    ensures Replaced(d[1..], key, v, r[1..])
  {
    forall i | 0 <= i < |d| - 1
      ensures r[1..][i] == if d[1..][i].0 == key then (key, v) else d[1..][i]
    {
      assert r[i + 1] == if d[i + 1].0 == key then (key, v) else d[i + 1];
    }
  }

  lemma {:induction false} ReplacedLookup<V>(d: Assoc<V>, key: string, v: V, r: Assoc<V>)
    requires Replaced(d, key, v, r) && HasKey(d, key)
    ensures Lookup(r, key) == Some(v)
  {
    assert r[0] == if d[0].0 == key then (key, v) else d[0];
    if d[0].0 != key {
      var j :| 0 <= j < |d| && d[j].0 == key;
      assert d[1..][j - 1] == d[j];
      ReplacedTail(d, key, v, r);
      ReplacedLookup(d[1..], key, v, r[1..]);
    }
  }

  lemma {:induction false} ReplacedLookupOther<V>(d: Assoc<V>, key: string, v: V, r: Assoc<V>, k: string)
    requires Replaced(d, key, v, r) && k != key
    ensures Lookup(r, k) == Lookup(d, k)
  {
    if d != [] {
      assert r[0] == if d[0].0 == key then (key, v) else d[0];
      ReplacedTail(d, key, v, r);
      ReplacedLookupOther(d[1..], key, v, r[1..], k);
    }
  }

  lemma {:induction false} AppendLookups<V>(d: Assoc<V>, key: string, v: V)
    requires !HasKey(d, key)
    ensures Lookup(d + [(key, v)], key) == Some(v)
    ensures forall k :: k != key ==> Lookup(d + [(key, v)], k) == Lookup(d, k)
  {
    if d == [] {
      assert [] + [(key, v)] == [(key, v)];
    } else {
      assert (d + [(key, v)])[1..] == d[1..] + [(key, v)];
      assert !HasKey(d[1..], key);
      AppendLookups(d[1..], key, v);
    }
  }

  /** Every row's position slot equals its index, as after a load or a reorder. */
  predicate Dense(rows: seq<Row>)
  {
    forall i :: 0 <= i < |rows| ==> rows[i].pos == i
  }

  /** Every row has at least one field, so its Id `r[0]` exists. */
  predicate HaveIds(rows: seq<Row>)
  {
    forall i :: 0 <= i < |rows| ==> rows[i].fields != []
  }

  /** The rows with position slots renumbered from `base` in order. */
  function Renumbered(rows: seq<Row>, base: int): (r: seq<Row>)
    ensures |r| == |rows|
    ensures forall i :: 0 <= i < |rows| ==> r[i] == Row(rows[i].fields, base + i)
  {
    seq(|rows|, i requires 0 <= i < |rows| => Row(rows[i].fields, base + i))
  }

  lemma DenseRenumbered(rows: seq<Row>)
    requires Dense(rows)
    ensures Renumbered(rows, 0) == rows
  {
  }
}
