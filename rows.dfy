/** A row as the engines see it: a PHP ordered array from field name to
    value, written as the sequence of its entries in array order. PHP
    arrays never hold a key twice; `DistinctKeys` states that, and every
    operation here keeps it. */
module Rows {
  import opened Wrappers
  import Seqs

  /** One entry of a row: the field name and its value. */
  type Entry = (string, string)

  type Row = seq<Entry>

  predicate HasKey(row: Row, k: string) {
    exists i :: 0 <= i < |row| && row[i].0 == k
  }

  predicate DistinctKeys(row: Row) {
    forall i, j :: 0 <= i < j < |row| ==> row[i].0 != row[j].0
  }

  /** The two rows hold the same keys at the same positions. */
  predicate SameLayout(a: Row, b: Row) {
    |a| == |b| && forall i :: 0 <= i < |a| ==> a[i].0 == b[i].0
  }

  /** `$row[$k]`: the value stored under `k`, `None` standing for PHP's
      `null` when the key is absent. */
  function Lookup(row: Row, k: string): (v: Option<string>)
    ensures v.None? <==> !HasKey(row, k)
    ensures v.Some? ==> (k, v.value) in row
    ensures DistinctKeys(row) ==> forall i :: 0 <= i < |row| && row[i].0 == k ==> v == Some(row[i].1)
  {
    if row == [] then None
    else if row[0].0 == k then Some(row[0].1)
    else
      var v := Lookup(row[1..], k);
      assert forall i :: 1 <= i < |row| ==> row[i] == row[1..][i - 1];
      v
  }

  /** Looking a key up in two arrays laid end to end finds it in the first
      one when it is there. */
  lemma {:induction false} LookupAppend(x: Row, y: Row, k: string)
    ensures Lookup(x + y, k) == if HasKey(x, k) then Lookup(x, k) else Lookup(y, k)
  {
    if x != [] {
      assert (x + y)[1..] == x[1..] + y;
      LookupAppend(x[1..], y, k);
      if x[0].0 != k {
        assert HasKey(x, k) == HasKey(x[1..], k) by {
          if HasKey(x, k) {
            var i :| 0 <= i < |x| && x[i].0 == k;
            assert x[1..][i - 1].0 == k;
          }
          if HasKey(x[1..], k) {
            var i :| 0 <= i < |x[1..]| && x[1..][i].0 == k;
            assert x[i + 1].0 == k;
          }
        }
      }
    } else {
      assert x + y == y;
    }
  }

  /** Looking up in a row that starts with `e`. */
  lemma LookupCons(e: Entry, row: Row, j: string)
    ensures Lookup([e] + row, j) == if e.0 == j then Some(e.1) else Lookup(row, j)
    ensures HasKey([e] + row, j) <==> e.0 == j || HasKey(row, j)
  {
    assert ([e] + row)[1..] == row;
  }

  /** `$row[$k] = $v`: an existing key keeps its place and takes the new
      value; a new key is appended at the end. */
  function Put(row: Row, k: string, v: string): (r: Row)
    ensures Lookup(r, k) == Some(v)
    ensures forall j :: j != k ==> Lookup(r, j) == Lookup(row, j)
    ensures !HasKey(row, k) ==> r == row + [(k, v)]
    ensures DistinctKeys(row) ==> DistinctKeys(r)
  {
    if row == [] then [(k, v)]
    else if row[0].0 == k then
      var r := [(k, v)] + row[1..];
      PutHeadFacts(row, k, v, r);
      r
    else
      var rest := Put(row[1..], k, v);
      var r := [row[0]] + rest;
      PutConsFacts(row, k, v, rest, r);
      r
  }

  /** Assigning to a key the row already holds keeps every key at its
      place: the row's key order is unchanged. */
  lemma {:induction false} PutKeepsPlace(row: Row, k: string, v: string)
    requires HasKey(row, k)
    ensures SameLayout(Put(row, k, v), row)
  {
    if row[0].0 != k {
      var i :| 0 <= i < |row| && row[i].0 == k;
      assert row[1..][i - 1].0 == k;
      PutKeepsPlace(row[1..], k, v);
      var r, rest := Put(row, k, v), Put(row[1..], k, v);
      assert r == [row[0]] + rest;
      forall m | 0 < m < |r| ensures r[m].0 == row[m].0 {
        assert r[m] == rest[m - 1];
        assert row[m] == row[1..][m - 1];
      }
    }
  }

  lemma PutHeadFacts(row: Row, k: string, v: string, r: Row)
    requires row != [] && row[0].0 == k && r == [(k, v)] + row[1..]
    ensures Lookup(r, k) == Some(v)
    ensures forall j :: j != k ==> Lookup(r, j) == Lookup(row, j)
    ensures DistinctKeys(row) ==> DistinctKeys(r)
  {
    assert row == [row[0]] + row[1..];
    forall j | j != k ensures Lookup(r, j) == Lookup(row, j) {
      LookupCons((k, v), row[1..], j);
      LookupCons(row[0], row[1..], j);
    }
  }

  lemma PutConsFacts(row: Row, k: string, v: string, rest: Row, r: Row)
    requires row != [] && row[0].0 != k && r == [row[0]] + rest
    requires Lookup(rest, k) == Some(v)
    requires forall j :: j != k ==> Lookup(rest, j) == Lookup(row[1..], j)
    requires !HasKey(row[1..], k) ==> rest == row[1..] + [(k, v)]
    requires DistinctKeys(row[1..]) ==> DistinctKeys(rest)
    ensures Lookup(r, k) == Some(v)
    ensures forall j :: j != k ==> Lookup(r, j) == Lookup(row, j)
    ensures !HasKey(row, k) ==> r == row + [(k, v)]
    ensures DistinctKeys(row) ==> DistinctKeys(r)
  {
    assert row == [row[0]] + row[1..];
    LookupCons(row[0], rest, k);
    LookupCons(row[0], row[1..], k);
    PutConsLookups(row, k, rest, r);
    if !HasKey(row, k) {
      ConsAppend(row, (k, v));
    }
    if DistinctKeys(row) {
      PutConsDistinct(row, k, v, rest, r);
    }
  }

  lemma PutConsLookups(row: Row, k: string, rest: Row, r: Row)
    requires row != [] && r == [row[0]] + rest
    requires forall j :: j != k ==> Lookup(rest, j) == Lookup(row[1..], j)
    ensures forall j :: j != k ==> Lookup(r, j) == Lookup(row, j)
  {
    assert row == [row[0]] + row[1..];
    forall j | j != k ensures Lookup(r, j) == Lookup(row, j) {
      LookupCons(row[0], rest, j);
      LookupCons(row[0], row[1..], j);
    }
  }

  lemma ConsAppend<T>(s: seq<T>, x: T)
    requires s != []
    ensures [s[0]] + (s[1..] + [x]) == s + [x]
  {
  }

  lemma PutConsDistinct(row: Row, k: string, v: string, rest: Row, r: Row)
    requires row != [] && row[0].0 != k && r == [row[0]] + rest
    requires forall j :: j != k ==> Lookup(rest, j) == Lookup(row[1..], j)
    requires DistinctKeys(row[1..]) ==> DistinctKeys(rest)
    requires DistinctKeys(row)
    ensures DistinctKeys(r)
  {
    assert DistinctKeys(row[1..]);
    forall i | 1 <= i < |r| ensures r[i].0 != row[0].0 {
      var e := r[i];
      assert rest[i - 1] == e;
      assert HasKey(rest, e.0);
      if e.0 != k {
        assert Lookup(row[1..], e.0).Some?;
        var m :| 0 <= m < |row[1..]| && row[1..][m].0 == e.0;
        assert row[m + 1].0 == e.0;
      }
    }
  }

  /** `unset($row[$k])`. */
  function Remove(row: Row, k: string): (r: Row)
    ensures !HasKey(r, k)
    ensures forall j :: j != k ==> Lookup(r, j) == Lookup(row, j)
    ensures forall e :: e in r ==> e in row
    ensures DistinctKeys(row) ==> DistinctKeys(r)
    ensures !HasKey(row, k) ==> r == row
  {
    if row == [] then []
    else
      var rest := Remove(row[1..], k);
      LookupFirst(row);
      if row[0].0 == k then rest
      else
        PrependKept(row, rest);
        LookupCons(row[0], rest, k);
        [row[0]] + rest
  }

  /** Removing from two arrays laid end to end removes from each. */
  lemma {:induction false} RemoveAppend(x: Row, y: Row, k: string)
    ensures Remove(x + y, k) == Remove(x, k) + Remove(y, k)
  {
    if x == [] {
      assert x + y == y;
    } else {
      assert (x + y)[1..] == x[1..] + y;
      RemoveAppend(x[1..], y, k);
    }
  }

  /** `array_intersect_key($row, array_flip($fields))`: the entries whose
      key is one of `fields`, in row order. */
  function Restrict(row: Row, fields: set<string>): (r: Row)
    ensures forall k :: Lookup(r, k) == if k in fields then Lookup(row, k) else None
    ensures forall e :: e in r ==> e in row && e.0 in fields
    ensures DistinctKeys(row) ==> DistinctKeys(r)
  {
    if row == [] then []
    else
      var rest := Restrict(row[1..], fields);
      LookupFirst(row);
      if row[0].0 in fields then
        PrependKept(row, rest);
        [row[0]] + rest
      else
        rest
  }

  /** `array_intersect_key` keeps the row's order: cutting a row down is
      cutting each of its parts down (and `RestrictOne` says what becomes
      of each entry). */
  lemma {:induction false} RestrictAppend(x: Row, y: Row, fields: set<string>)
    ensures Restrict(x + y, fields) == Restrict(x, fields) + Restrict(y, fields)
  {
    if x == [] {
      assert x + y == y;
    } else {
      var xy := x + y;
      var head := if x[0].0 in fields then [x[0]] else [];
      assert xy[0] == x[0] && xy[1..] == x[1..] + y;
      var a, b := Restrict(x[1..], fields), Restrict(y, fields);
      assert Restrict(xy, fields) == head + (a + b) by {
        RestrictAppend(x[1..], y, fields);
        RestrictCons(xy, fields);
      }
      assert Restrict(x, fields) == head + a by {
        RestrictCons(x, fields);
      }
      Seqs.Associative(head, a, b);
    }
  }

  /** A single entry stays exactly when its key is selected. */
  lemma RestrictOne(e: Entry, fields: set<string>)
    ensures Restrict([e], fields) == if e.0 in fields then [e] else []
  {
    RestrictCons([e], fields);
    assert [e][1..] == [];
  }

  lemma RestrictCons(row: Row, fields: set<string>)
    requires row != []
    ensures Restrict(row, fields) == (if row[0].0 in fields then [row[0]] else []) + Restrict(row[1..], fields)
  {
  }

  /** The entries of `b` whose key `a` does not hold, in `b`'s order. */
  function Missing(b: Row, a: Row): (r: Row)
    ensures |r| <= |b|
  {
    if b == [] then []
    else if HasKey(a, b[0].0) then Missing(b[1..], a)
    else [b[0]] + Missing(b[1..], a)
  }

  /** What `Missing` keeps: exactly the keys of `b` that `a` lacks, with
      `b`'s values, and no key twice when `b` has none twice. */
  lemma {:induction false} MissingFacts(b: Row, a: Row)
    ensures forall k :: Lookup(Missing(b, a), k) == if HasKey(a, k) then None else Lookup(b, k)
    ensures forall e :: e in Missing(b, a) ==> e in b && !HasKey(a, e.0)
    ensures DistinctKeys(b) ==> DistinctKeys(Missing(b, a))
  {
    if b != [] {
      var rest := Missing(b[1..], a);
      MissingFacts(b[1..], a);
      LookupFirst(b);
      if !HasKey(a, b[0].0) {
        PrependKept(b, rest);
      }
    }
  }

  /** A row seen as its first entry followed by the others. */
  lemma LookupFirst(row: Row)
    requires row != []
    ensures forall j :: Lookup(row, j) == if row[0].0 == j then Some(row[0].1) else Lookup(row[1..], j)
    ensures forall e :: e in row[1..] ==> e in row
    ensures DistinctKeys(row) ==> DistinctKeys(row[1..])
  {
  }

  /** Keeping the first entry of a row in front of entries drawn from the
      rest of it. */
  lemma PrependKept(row: Row, rest: Row)
    requires row != []
    requires forall e :: e in rest ==> e in row[1..]
    requires DistinctKeys(row[1..]) ==> DistinctKeys(rest)
    ensures forall j :: Lookup([row[0]] + rest, j) == if row[0].0 == j then Some(row[0].1) else Lookup(rest, j)
    ensures forall e :: e in [row[0]] + rest ==> e == row[0] || e in rest
    ensures DistinctKeys(row) ==> DistinctKeys([row[0]] + rest)
  {
    var r := [row[0]] + rest;
    assert r[1..] == rest;
    if DistinctKeys(row) {
      assert DistinctKeys(row[1..]);
      forall i | 1 <= i < |r| ensures r[i].0 != row[0].0 {
        assert r[i] in row[1..];
      }
    }
  }

  /** PHP's array union `$a + $b`: every entry of `a` in its order, then the
      entries of `b` under keys `a` does not have. */
  function Union(a: Row, b: Row): (r: Row)
    ensures |a| <= |r| <= |a| + |b|
    ensures r[..|a|] == a
    ensures b == [] ==> r == a
  {
    a + Missing(b, a)
  }

  /** The union holds every key of either row; on a key both rows hold, the
      LEFT row's value is kept; the left row's entries come first, in order. */
  lemma UnionLookup(a: Row, b: Row, k: string)
    ensures Lookup(Union(a, b), k) == if HasKey(a, k) then Lookup(a, k) else Lookup(b, k)
    ensures HasKey(Union(a, b), k) <==> HasKey(a, k) || HasKey(b, k)
    ensures Union(a, b)[..|a|] == a
  {
    MissingFacts(b, a);
    LookupAppend(a, Missing(b, a), k);
  }

  /** The union of two arrays is again an array: no key twice. */
  lemma UnionDistinct(a: Row, b: Row)
    requires DistinctKeys(a) && DistinctKeys(b)
    ensures DistinctKeys(Union(a, b))
  {
    var m := Missing(b, a);
    MissingFacts(b, a);
    var u := a + m;
    forall i, j | 0 <= i < j < |u| ensures u[i].0 != u[j].0 {
      if i < |a| && j >= |a| {
        assert u[j] in m;
        assert u[i].0 == a[i].0;
      } else if i >= |a| {
        assert u[i] == m[i - |a|] && u[j] == m[j - |a|];
      }
    }
  }
}
