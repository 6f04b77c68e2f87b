/** The Query engine of src/Segmentation/Query.php: a fluent configuration
    object (source, selected fields, `where` field, condition, value, limit)
    and the `execute` pass that streams the source's rows, keeps those whose
    trimmed `where` value satisfies the condition, cuts each kept row down to
    the selected fields, renames its keys, and hands it to the caller or to
    a sink until the limit is reached. */
module QueryEngine {
  import opened Wrappers
  import opened Text
  import opened Rows
  import opened DataSource
  import opened QueryConditions
  import opened Seqs

  /** Everything `execute` reads from the configuration. */
  datatype QueryConfig = QueryConfig(
    fields: set<string>,
    where: string,
    condition: Option<Condition>,
    value: QueryValue,
    dateFormat: Option<string>,
    limit: int)

  /** The per-row test of `execute`: the `where` value is trimmed (a row
      without that field makes `trim(null)` throw) and the configured
      condition is evaluated on it, by the evaluators as written or as
      intended. */
  function Matches(c: QueryConfig, parse: DateParser, asWritten: bool, row: Row): (r: Result<bool, QueryError>)
    ensures r == Err(MissingField(c.where)) <==> !HasKey(row, c.where)
    ensures c.condition.None? && HasKey(row, c.where) ==> r == Ok(false)
  {
    match Lookup(row, c.where)
    case None => Err(MissingField(c.where))
    case Some(v) => Evaluate(c.condition, Trim(v), c.value, c.dateFormat, parse, asWritten)
  }

  /** A per-row test: whether the row is kept, or the error it raises. */
  type RowTest = Row -> Result<bool, QueryError>

  /** The test `execute` applies under a configuration. */
  function MatcherOf(c: QueryConfig, parse: DateParser, asWritten: bool): RowTest {
    row => Matches(c, parse, asWritten, row)
  }

  /** How a pass over rows ends: the matching rows met before it stopped,
      and the error that stopped it, if one did. */
  datatype Pass = Pass(hits: seq<Row>, failure: Option<QueryError>)

  /** The rows the `execute` loop keeps, reading from row `k` on. Reading
      stops at the end of the source or at an empty row; an error stops
      it; a positive `cap` is the number of matches still allowed, and the
      pass stops on the last one; a cap of zero or less never stops it. */
  function TakeFrom(test: RowTest, rows: seq<Row>, k: nat, cap: int): (p: Pass)
    requires k <= |rows|
    decreases |rows| - k
    ensures |p.hits| <= |rows| - k
    ensures cap > 0 ==> |p.hits| <= cap
  {
    if k == |rows| || rows[k] == [] then Pass([], None)
    else
      match test(rows[k])
      case Err(e) => Pass([], Some(e))
      case Ok(false) =>
        var p := TakeFrom(test, rows, k + 1, cap);
        p
      case Ok(true) =>
        if cap == 1 then Pass([rows[k]], None)
        else
          var p := TakeFrom(test, rows, k + 1, if cap > 0 then cap - 1 else cap);
            Pass([rows[k]] + p.hits, p.failure)
  }

  /** Every row the pass keeps is a non-empty row of the source, read at
      or after row `k`, that the test accepts. */
  lemma {:induction false} TakeFromHits(test: RowTest, rows: seq<Row>, k: nat, cap: int)
    requires k <= |rows|
    decreases |rows| - k
    ensures forall h :: h in TakeFrom(test, rows, k, cap).hits ==> h in rows[k..] && h != [] && test(h) == Ok(true)
  {
    if k < |rows| && rows[k] != [] && test(rows[k]).Ok? {
      TakeFromHits(test, rows, k + 1, if test(rows[k]).value && cap > 0 then cap - 1 else cap);
      assert forall h :: h in rows[k + 1..] ==> h in rows[k..];
    }
  }

  /** The pass of `execute` over all the rows of the source. */
  function Take(test: RowTest, rows: seq<Row>, cap: int): Pass {
    TakeFrom(test, rows, 0, cap)
  }

  /** A pass continued after `done` matches already kept. */
  function Continued(done: seq<Row>, p: Pass): Pass {
    Pass(done + p.hits, p.failure)
  }

  lemma ContinuedTwice(a: seq<Row>, b: seq<Row>, p: Pass)
    ensures Continued(a, Continued(b, p)) == Continued(a + b, p)
  {
    Associative(a, b, p.hits);
  }

  /** A pass that keeps nothing more leaves the kept rows as they are. */
  lemma ContinuedNothing(a: seq<Row>, f: Option<QueryError>)
    ensures Continued(a, Pass([], f)) == Pass(a, f)
  {
    AppendNothing(a);
  }

  /** One step of a pass already under way, for each way row `k` can turn
      out: `whole` is the pass over all rows, `hits` what has been kept
      before row `k`. */
  lemma TakeStops(test: RowTest, rows: seq<Row>, k: nat, cap: int, whole: Pass, hits: seq<Row>)
    requires k <= |rows| && (k == |rows| || rows[k] == [])
    requires whole == Continued(hits, TakeFrom(test, rows, k, cap))
    ensures whole == Pass(hits, None)
  {
    ContinuedNothing(hits, None);
  }

  lemma TakeFails(test: RowTest, rows: seq<Row>, k: nat, cap: int, whole: Pass, hits: seq<Row>)
    requires k < |rows| && rows[k] != [] && test(rows[k]).Err?
    requires whole == Continued(hits, TakeFrom(test, rows, k, cap))
    ensures whole == Pass(hits, Some(test(rows[k]).error))
  {
    ContinuedNothing(hits, Some(test(rows[k]).error));
  }

  lemma TakeSkips(test: RowTest, rows: seq<Row>, k: nat, cap: int, whole: Pass, hits: seq<Row>)
    requires k < |rows| && rows[k] != [] && test(rows[k]) == Ok(false)
    requires whole == Continued(hits, TakeFrom(test, rows, k, cap))
    ensures whole == Continued(hits, TakeFrom(test, rows, k + 1, cap))
  {
  }

  lemma TakeKeeps(test: RowTest, rows: seq<Row>, k: nat, cap: int, next: int, whole: Pass, hits: seq<Row>)
    requires k < |rows| && rows[k] != [] && test(rows[k]) == Ok(true)
    requires whole == Continued(hits, TakeFrom(test, rows, k, cap))
    requires next == if cap > 0 then cap - 1 else cap
    ensures cap == 1 ==> whole == Pass(hits + [rows[k]], None)
    ensures cap != 1 ==> whole == Continued(hits + [rows[k]], TakeFrom(test, rows, k + 1, next))
  {
    if cap == 1 {
      ContinuedTwice(hits, [rows[k]], Pass([], None));
      ContinuedNothing(hits + [rows[k]], None);
    } else {
      ContinuedTwice(hits, [rows[k]], TakeFrom(test, rows, k + 1, next));
    }
  }

  /** The limit keeps the first `cap` matches of the uncapped pass and
      stops right after the last of them, before any later error; a cap of
      zero or less is no cap at all. */
  lemma {:induction false} TakeLimit(test: RowTest, rows: seq<Row>, k: nat, cap: int)
    requires k <= |rows|
    decreases |rows| - k
    ensures var all := TakeFrom(test, rows, k, -1);
            TakeFrom(test, rows, k, cap) ==
              if cap <= 0 || |all.hits| < cap then all else Pass(all.hits[..cap], None)
  {
    if k < |rows| && rows[k] != [] {
      var m := test(rows[k]);
      if m == Ok(false) {
        TakeLimit(test, rows, k + 1, cap);
      } else if m == Ok(true) {
        var rest := TakeFrom(test, rows, k + 1, -1);
        TakeLimit(test, rows, k + 1, if cap > 0 then cap - 1 else cap);
        if cap > 1 && |rest.hits| >= cap - 1 {
          assert ([rows[k]] + rest.hits)[..cap] == [rows[k]] + rest.hits[..cap - 1];
        }
        if cap == 1 {
          assert ([rows[k]] + rest.hits)[..1] == [rows[k]];
        }
      }
    }
  }

  /** With no condition set, no row matches. */
  lemma {:induction false} NoConditionNoHits(c: QueryConfig, parse: DateParser, asWritten: bool, rows: seq<Row>,
                                             k: nat, cap: int)
    requires c.condition.None? && k <= |rows|
    decreases |rows| - k
    ensures TakeFrom(MatcherOf(c, parse, asWritten), rows, k, cap).hits == []
  {
    if k < |rows| && rows[k] != [] && Matches(c, parse, asWritten, rows[k]) == Ok(false) {
      NoConditionNoHits(c, parse, asWritten, rows, k + 1, cap);
    }
  }

  /** The dead guard of `_equality` reaches the pass: under EQUALS against
      the number 0, a row whose `where` value is "abc" is kept as written
      and dropped as intended. */
  lemma PassKeepsNonNumericAsWritten(c: QueryConfig, parse: DateParser)
    requires c.where == "f" && c.condition == Some(Compare(Equals)) && c.value == Number(0)
    ensures Take(MatcherOf(c, parse, true), [[("f", "abc")]], -1).hits == [[("f", "abc")]]
    ensures Take(MatcherOf(c, parse, false), [[("f", "abc")]], -1).hits == []
  {
    var row: Row := [("f", "abc")];
    assert Lookup(row, "f") == Some("abc");
    assert Trim("abc") == "abc" by {
      assert !IsSpace("abc"[0]);
      assert TrimLeft("abc") == "abc";
      assert !IsSpace("abc"[2]);
    }
    EqualityGuardNeverFires();
    assert Matches(c, parse, true, row) == Ok(true);
    assert Matches(c, parse, false, row) == Ok(false);
    TakeOne(MatcherOf(c, parse, true), row);
    TakeOne(MatcherOf(c, parse, false), row);
  }

  /** An unparsable row date reaches the pass: under BEFORE, such a row is
      kept as written and dropped as intended. */
  lemma PassKeepsUnparsableDateAsWritten(c: QueryConfig, parse: DateParser, f: string, q: Instant)
    requires c.where == "f" && c.condition == Some(OnDate(Before)) && c.value == Moment(q)
    requires c.dateFormat == Some(f) && parse(f, "x").None?
    ensures Take(MatcherOf(c, parse, true), [[("f", "x")]], -1).hits == [[("f", "x")]]
    ensures Take(MatcherOf(c, parse, false), [[("f", "x")]], -1).hits == []
  {
    var row: Row := [("f", "x")];
    assert Lookup(row, "f") == Some("x");
    assert Trim("x") == "x" by {
      assert !IsSpace("x"[0]);
      assert TrimLeft("x") == "x";
    }
    UnparsableDateMatchesAsWritten("x", f, parse, q, q, q);
    assert Matches(c, parse, true, row) == Evaluate(Some(OnDate(Before)), "x", Moment(q), Some(f), parse, true);
    assert Evaluate(Some(OnDate(Before)), "x", Moment(q), Some(f), parse, true)
        == DateTestAsWritten(Before, "x", Moment(q), Some(f), parse);
    assert Matches(c, parse, false, row) == Evaluate(Some(OnDate(Before)), "x", Moment(q), Some(f), parse, false);
    assert Evaluate(Some(OnDate(Before)), "x", Moment(q), Some(f), parse, false)
        == DateTestOf(Before, "x", Moment(q), Some(f), parse);
    TakeOne(MatcherOf(c, parse, true), row);
    TakeOne(MatcherOf(c, parse, false), row);
  }

  /** A pass over a single non-empty row keeps it exactly when the test
      accepts it. */
  lemma TakeOne(test: RowTest, row: Row)
    requires row != [] && test(row).Ok?
    ensures Take(test, [row], -1).hits == if test(row).value then [row] else []
  {
    assert TakeFrom(test, [row], 1, -1) == Pass([], None);
  }

  /** The rows a test accepts, in their order. */
  function Accepted(test: RowTest, rows: seq<Row>): (r: seq<Row>)
    ensures forall x :: x in r <==> x in rows && test(x) == Ok(true)
  {
    if rows == [] then []
    else
      assert rows == [rows[0]] + rows[1..];
      (if test(rows[0]) == Ok(true) then [rows[0]] else []) + Accepted(test, rows[1..])
  }

  /** Where a pass without a limit stops, reading from row `k`: at the end
      of the rows, at an empty row, or at a row the test cannot evaluate. */
  function Stop(test: RowTest, rows: seq<Row>, k: nat): (s: nat)
    requires k <= |rows|
    decreases |rows| - k
    ensures k <= s <= |rows|
    ensures s == |rows| || rows[s] == [] || test(rows[s]).Err?
    ensures forall i :: k <= i < s ==> rows[i] != [] && test(rows[i]).Ok?
  {
    if k == |rows| || rows[k] == [] || test(rows[k]).Err? then k else Stop(test, rows, k + 1)
  }

  /** The error of the row a pass stops at, if it stopped at a failing row. */
  function StopError(test: RowTest, rows: seq<Row>, s: nat): Option<QueryError>
    requires s <= |rows|
  {
    if s < |rows| && rows[s] != [] && test(rows[s]).Err? then Some(test(rows[s]).error) else None
  }

  /** Without a limit, the pass keeps exactly the rows the test accepts
      before the row it stops at, in source order, and fails exactly when it
      stops at a row the test cannot evaluate. With `TakeLimit`, a limit
      keeps a prefix of these. */
  lemma {:induction false} TakeFromAccepted(test: RowTest, rows: seq<Row>, k: nat)
    requires k <= |rows|
    decreases |rows| - k
    ensures var s := Stop(test, rows, k);
            TakeFrom(test, rows, k, -1) == Pass(Accepted(test, rows[k..s]), StopError(test, rows, s))
  {
    var s := Stop(test, rows, k);
    if s == k {
      assert rows[k..s] == [];
    } else {
      TakeFromAccepted(test, rows, k + 1);
      assert rows[k..s][1..] == rows[k + 1..s];
    }
  }

  /** The key a header is renamed to: `$mappings[$header]`, which is `null`
      (the key "") for a header the mappings do not name. */
  function Target(m: map<string, string>, h: string): string {
    if h in m then m[h] else ""
  }

  /** PHP stores a string key that is a canonical decimal integer ("0",
      "7", "-12"; not "07", "-0" or "+1") within the 64-bit range as an
      integer key, and `foreach` hands it out as an integer. */
  predicate IntegerKey(h: string) {
    var neg := h != [] && h[0] == '-';
    var ds := if neg then h[1..] else h;
    ds != [] && AllDigits(ds) && (ds[0] != '0' || (|ds| == 1 && !neg))
    && DigitsValue(ds) <= if neg then 0x8000_0000_0000_0000 else 0x7FFF_FFFF_FFFF_FFFF
  }

  /** `$header !== $mappings[$header]`: an integer header is never
      identical to a string, a header the mappings do not name is compared
      with `null`, and any other header with its mapped name. */
  predicate Renamed(m: map<string, string>, h: string) {
    IntegerKey(h) || h !in m || m[h] != h
  }

  /** The key a header's value ends up under when nothing collides. */
  function NewKey(m: map<string, string>, h: string): string {
    if Renamed(m, h) then Target(m, h) else h
  }

  /** One step of the renaming loop: a renamed header's value is written
      under the target (`$row[$target] = $value`) and the header is then
      unset. */
  function RenameStep(row: Row, e: Entry, m: map<string, string>): (r: Row)
    ensures DistinctKeys(row) ==> DistinctKeys(r)
  {
    if Renamed(m, e.0) then Remove(Put(row, Target(m, e.0), e.1), e.0) else row
  }

  /** The renaming loop run over the entries `es` of the row's snapshot
      (`foreach` iterates a copy, so the loop sees the original entries
      whatever it does to the row). */
  function RenameAll(es: seq<Entry>, row: Row, m: map<string, string>): (r: Row)
    ensures DistinctKeys(row) ==> DistinctKeys(r)
  {
    if es == [] then row else RenameStep(RenameAll(es[..|es| - 1], row, m), es[|es| - 1], m)
  }

  /** The renamed row. */
  function Relabel(row: Row, m: map<string, string>): Row {
    RenameAll(row, row, m)
  }

  /** The entries that are not renamed, in order. */
  function Kept(es: seq<Entry>, m: map<string, string>): (r: seq<Entry>)
    ensures forall e :: e in r ==> e in es && !Renamed(m, e.0)
    ensures forall e :: e in es && !Renamed(m, e.0) ==> e in r
  {
    if es == [] then []
    else
      var last := es[|es| - 1];
      assert forall e :: e in es <==> e in es[..|es| - 1] || e == last by {
        assert es == es[..|es| - 1] + [last];
      }
      Kept(es[..|es| - 1], m) + if !Renamed(m, last.0) then [last] else []
  }

  /** The renamed entries, under their new keys with their values, in order. */
  function Moved(es: seq<Entry>, m: map<string, string>): (r: seq<Entry>)
    ensures forall e :: e in r <==> exists i :: 0 <= i < |es| && Renamed(m, es[i].0) && e == (Target(m, es[i].0), es[i].1)
  {
    if es == [] then []
    else
      var last := es[|es| - 1];
      var front := es[..|es| - 1];
      var r := Moved(front, m) + if Renamed(m, last.0) then [(Target(m, last.0), last.1)] else [];
      assert forall i :: 0 <= i < |front| ==> es[i] == front[i];
      r
  }

  /** The mappings rename without collisions on this row: a renamed
      header's target is no header of the row, its own included, and no two
      renamed headers share a target. */
  predicate Clean(row: Row, m: map<string, string>) {
    DistinctKeys(row)
    && (forall i, j :: 0 <= i < |row| && 0 <= j < |row| && Renamed(m, row[i].0) ==> Target(m, row[i].0) != row[j].0)
    && (forall i, j :: 0 <= i < j < |row| && Renamed(m, row[i].0) && Renamed(m, row[j].0) ==>
          Target(m, row[i].0) != Target(m, row[j].0))
  }

  lemma RemoveOne(a: Row, e: Entry, b: Row, k: string)
    requires e.0 == k && !HasKey(a, k) && !HasKey(b, k)
    ensures Remove(a + [e] + b, k) == a + b
  {
    RemoveAppend(a + [e], b, k);
    RemoveAppend(a, [e], k);
  }

  /** A renamed header's target is a key of no entry the loop's row holds
      when it reaches that header. */
  lemma FreshTarget(row: Row, m: map<string, string>, j: nat)
    requires Clean(row, m) && j < |row| && Renamed(m, row[j].0)
    ensures !HasKey(Kept(row[..j], m) + row[j..] + Moved(row[..j], m), Target(m, row[j].0))
  {
    var K := Kept(row[..j], m);
    var S := K + row[j..] + Moved(row[..j], m);
    forall n | 0 <= n < |S|
      ensures S[n].0 != Target(m, row[j].0)
    {
      if n < |K| {
        assert S[n] in K;
      } else if n >= |K| + |row[j..]| {
        assert S[n] in Moved(row[..j], m);
      }
    }
  }

  /** The header being renamed occurs nowhere else in the row. */
  lemma GoneHeader(row: Row, m: map<string, string>, j: nat)
    requires Clean(row, m) && j < |row| && Renamed(m, row[j].0)
    ensures !HasKey(Kept(row[..j], m), row[j].0)
    ensures !HasKey(row[j + 1..] + Moved(row[..j], m) + [(Target(m, row[j].0), row[j].1)], row[j].0)
  {
    var K := Kept(row[..j], m);
    forall n | 0 <= n < |K|
      ensures K[n].0 != row[j].0
    {
      assert K[n] in K;
    }
    var rest := row[j + 1..] + Moved(row[..j], m) + [(Target(m, row[j].0), row[j].1)];
    forall n | 0 <= n < |rest|
      ensures rest[n].0 != row[j].0
    {
      if n >= |row[j + 1..]| && n < |rest| - 1 {
        assert rest[n] in Moved(row[..j], m);
      }
    }
  }

  /** Regrouping the pieces of the row the renaming loop works on. */
  lemma Regroup<T>(a: seq<T>, x: T, b: seq<T>, c: seq<T>, y: T)
    ensures a + ([x] + b) + c + [y] == a + [x] + (b + c + [y])
    ensures a + (b + c + [y]) == a + b + (c + [y])
    ensures a + [x] + b + c == a + ([x] + b) + c
  {
  }

  lemma SplitAt<T>(s: seq<T>, j: nat)
    requires j < |s|
    ensures s[j..] == [s[j]] + s[j + 1..]
  {
  }

  lemma PrefixStep(row: Row, m: map<string, string>, j: nat)
    requires j < |row|
    ensures RenameAll(row[..j + 1], row, m) == RenameStep(RenameAll(row[..j], row, m), row[j], m)
    ensures !Renamed(m, row[j].0) ==>
              Kept(row[..j + 1], m) == Kept(row[..j], m) + [row[j]] && Moved(row[..j + 1], m) == Moved(row[..j], m)
    ensures Renamed(m, row[j].0) ==>
              Kept(row[..j + 1], m) == Kept(row[..j], m) &&
              Moved(row[..j + 1], m) == Moved(row[..j], m) + [(Target(m, row[j].0), row[j].1)]
  {
    assert row[..j + 1][..j] == row[..j];
    assert Kept(row[..j], m) + [] == Kept(row[..j], m);
    assert Moved(row[..j], m) + [] == Moved(row[..j], m);
  }

  /** One turn of the renaming loop on a header that maps to itself. */
  lemma KeepStep(row: Row, m: map<string, string>, j: nat)
    requires j < |row| && !Renamed(m, row[j].0)
    requires RenameAll(row[..j], row, m) == Kept(row[..j], m) + row[j..] + Moved(row[..j], m)
    ensures RenameAll(row[..j + 1], row, m) == Kept(row[..j + 1], m) + row[j + 1..] + Moved(row[..j + 1], m)
  {
    PrefixStep(row, m, j);
    var e := row[j];
    SplitAt(row, j);
    Regroup(Kept(row[..j], m), e, row[j + 1..], Moved(row[..j], m), e);
  }

  /** One turn of the renaming loop on a header that is renamed. */
  lemma MoveStep(row: Row, m: map<string, string>, j: nat)
    requires j < |row| && Renamed(m, row[j].0)
    requires RenameAll(row[..j], row, m) == Kept(row[..j], m) + row[j..] + Moved(row[..j], m)
    requires !HasKey(Kept(row[..j], m) + row[j..] + Moved(row[..j], m), Target(m, row[j].0))
    requires !HasKey(Kept(row[..j], m), row[j].0)
    requires !HasKey(row[j + 1..] + Moved(row[..j], m) + [(Target(m, row[j].0), row[j].1)], row[j].0)
    ensures RenameAll(row[..j + 1], row, m) == Kept(row[..j + 1], m) + row[j + 1..] + Moved(row[..j + 1], m)
  {
    PrefixStep(row, m, j);
    var e := row[j];
    var t := Target(m, e.0);
    var K := Kept(row[..j], m);
    var M := Moved(row[..j], m);
    var S := K + row[j..] + M;
    SplitAt(row, j);
    var P := Put(S, t, e.1);
    assert P == S + [(t, e.1)];
    Regroup(K, e, row[j + 1..], M, (t, e.1));
    var tail := row[j + 1..] + M + [(t, e.1)];
    assert P == K + [e] + tail;
    RemoveOne(K, e, tail, e.0);
    assert RenameStep(S, e, m) == K + tail;
  }

  /** After the loop has seen `i` entries, the kept entries of those stay in
      place, the unseen entries follow, and the renamed ones sit at the end. */
  lemma {:induction false} RenameProgress(row: Row, m: map<string, string>, i: nat)
    requires Clean(row, m) && i <= |row|
    ensures RenameAll(row[..i], row, m) == Kept(row[..i], m) + row[i..] + Moved(row[..i], m)
  {
    if i == 0 {
      assert row[..0] == [] && row[0..] == row;
    } else {
      var j := i - 1;
      RenameProgress(row, m, j);
      if !Renamed(m, row[j].0) {
        KeepStep(row, m, j);
      } else {
        FreshTarget(row, m, j);
        GoneHeader(row, m, j);
        MoveStep(row, m, j);
      }
    }
  }

  /** On a row the mappings rename cleanly, the renamed row is the kept
      entries in their order followed by the renamed entries in theirs. */
  lemma RelabelClean(row: Row, m: map<string, string>)
    requires Clean(row, m)
    ensures Relabel(row, m) == Kept(row, m) + Moved(row, m)
  {
    var n := |row|;
    RenameProgress(row, m, n);
    assert row[..n] == row;
    assert row[n..] == [];
    assert Kept(row, m) + [] == Kept(row, m);
  }

  /** On such a row every value survives, under its header's target, and
      nothing else is in the renamed row. */
  lemma RelabelContents(row: Row, m: map<string, string>)
    requires Clean(row, m)
    ensures DistinctKeys(Relabel(row, m))
    ensures forall i :: 0 <= i < |row| ==> Lookup(Relabel(row, m), NewKey(m, row[i].0)) == Some(row[i].1)
    ensures forall e :: e in Relabel(row, m) ==> exists i :: 0 <= i < |row| && e == (NewKey(m, row[i].0), row[i].1)
  {
    RelabelClean(row, m);
    var r := Relabel(row, m);
    forall i | 0 <= i < |row|
      ensures (NewKey(m, row[i].0), row[i].1) in r
    {
      if !Renamed(m, row[i].0) {
        assert row[i] in row;
        assert row[i] in Kept(row, m);
      } else {
        assert (Target(m, row[i].0), row[i].1) in Moved(row, m);
      }
    }
    forall e | e in r
      ensures exists i :: 0 <= i < |row| && e == (NewKey(m, row[i].0), row[i].1)
    {
      if e in Kept(row, m) {
        var i :| 0 <= i < |row| && row[i] == e;
      }
    }
  }

  /** Mappings that rename no header of the row leave it untouched. */
  lemma {:induction false} RenameIdentity(es: seq<Entry>, row: Row, m: map<string, string>)
    requires forall i :: 0 <= i < |es| ==> !Renamed(m, es[i].0)
    ensures RenameAll(es, row, m) == row
  {
    if es != [] {
      RenameIdentity(es[..|es| - 1], row, m);
    }
  }

  /** A header the mappings do not name is written under `null`, which is
      the key "", and unset: a column headed "" is lost. */
  lemma UnmappedBlankHeaderLost()
    ensures Relabel([("", "x"), ("a", "y")], map["a" := "a"]) == [("a", "y")]
  {
    var m := map["a" := "a"];
    var row: Row := [("", "x"), ("a", "y")];
    assert !IntegerKey("a");
    assert row[..1][..0] == [] && row[..2][..1] == row[..1] && row[..2] == row;
    assert RenameAll(row[..1], row, m) == Remove(Put(row, "", "x"), "");
    assert Put(row, "", "x") == row;
    assert Remove(row, "") == [("a", "y")];
  }

  /** A decimal-integer header is an integer key, never identical to its
      mapped name: mapped to itself, it is written onto itself and unset. */
  lemma IntegerHeaderLost()
    ensures Relabel([("2019", "x")], map["2019" := "2019"]) == []
  {
    var row: Row := [("2019", "x")];
    var ds := "2019";
    assert AllDigits(ds);
    assert ds[..3] == "201" && ds[..3][..2] == "20" && ds[..3][..2][..1] == "2" && ds[..3][..2][..1][..0] == "";
    assert DigitsValue("2") == 2;
    assert DigitsValue("20") == 20;
    assert DigitsValue("201") == 201;
    assert DigitsValue(ds) == 2019;
    assert IntegerKey("2019");
    assert row[..0] == [];
    assert Put(row, "2019", "x") == row;
  }

  /** A kept row as `execute` emits it: cut down to the selected fields,
      then renamed when mappings are given. */
  function Present(row: Row, fields: set<string>, mappings: Option<map<string, string>>): Row {
    var kept := Restrict(row, fields);
    if mappings.None? then kept else Relabel(kept, mappings.value)
  }

  function PresentAll(rows: seq<Row>, fields: set<string>, mappings: Option<map<string, string>>): (r: seq<Row>)
    ensures |r| == |rows| && forall i :: 0 <= i < |rows| ==> r[i] == Present(rows[i], fields, mappings)
  {
    seq(|rows|, i requires 0 <= i < |rows| => Present(rows[i], fields, mappings))
  }

  lemma PresentAllSnoc(rows: seq<Row>, row: Row, fields: set<string>, mappings: Option<map<string, string>>)
    ensures PresentAll(rows + [row], fields, mappings) == PresentAll(rows, fields, mappings) + [Present(row, fields, mappings)]
  {
  }

  /** Without mappings an emitted row holds exactly the selected fields of
      its source row, with their values; identity mappings change nothing. */
  lemma PresentSelects(row: Row, fields: set<string>, mappings: Option<map<string, string>>)
    requires mappings.Some? ==> forall k :: k in fields && HasKey(row, k) ==> !Renamed(mappings.value, k)
    ensures forall k :: Lookup(Present(row, fields, mappings), k) == if k in fields then Lookup(row, k) else None
  {
    var kept := Restrict(row, fields);
    if mappings.Some? {
      forall i | 0 <= i < |kept|
        ensures !Renamed(mappings.value, kept[i].0)
      {
        assert kept[i] in kept;
        assert HasKey(row, kept[i].0) by { assert kept[i] in row; }
      }
      RenameIdentity(kept, kept, mappings.value);
    }
  }

  /** What `execute` returns: the kept rows, or, with a sink, what the sink
      finished with (a stream hands back what was written to it, a file
      the number of rows written, any other sink an empty array). */
  datatype Output = Rows(rows: seq<Row>) | Streamed(written: seq<Row>) | RowCount(count: nat)

  /** The arguments `value()` takes: a string (or number in text form) or a list. */
  datatype Argument = Scalar(s: string) | Many(items: seq<string>)

  class Query {
    /** `DateTime::createFromFormat`, the date parser every date goes through. */
    const parseDate: DateParser
    var source: Source?
    var fields: set<string>
    var where: string
    var condition: Option<Condition>
    var value: QueryValue
    var dateFormat: Option<string>
    var limit: int

    /** The configuration `execute` works from. */
    function Settings(): QueryConfig
      reads this
    {
      QueryConfig(fields, where, condition, value, dateFormat, limit)
    }

    /** A new query: no source, no fields, the empty `where` field, no
        condition, the empty value, no date format and no limit. */
    constructor (parseDate: DateParser)
      ensures this.parseDate == parseDate && source == null
      ensures Settings() == QueryConfig({}, "", None, Literal(""), None, -1)
    {
      this.parseDate := parseDate;
      source := null;
      fields := {};
      where := "";
      condition := None;
      value := Literal("");
      dateFormat := None;
      limit := -1;
    }

    method FromSource(s: Source)
      modifies this
      ensures source == s && Settings() == old(Settings())
    {
      source := s;
    }

    /** `select()`: a non-empty list of field names becomes the set of
        selected fields; an empty list is refused and changes nothing. */
    method Select(names: seq<string>) returns (r: Result<(), QueryError>)
      modifies this
      ensures names == [] ==> r == Err(InvalidFields) && Settings() == old(Settings())
      ensures names != [] ==> r == Ok(()) && Settings() == old(Settings()).(fields := set f | f in names)
      ensures source == old(source)
    {
      if names == [] {
        return Err(InvalidFields);
      }
      fields := set f | f in names;
      r := Ok(());
    }

    /** `condition()`: the keyword is upper-cased and must name one of the
        thirteen conditions; otherwise it is refused and the stored
        condition is left as it was. */
    method SetCondition(keyword: string) returns (r: Result<(), QueryError>)
      modifies this
      ensures ParseKeyword(ToUpper(keyword)).None? ==> r == Err(InvalidCondition) && Settings() == old(Settings())
      ensures ParseKeyword(ToUpper(keyword)).Some? ==>
                r == Ok(()) && Settings() == old(Settings()).(condition := ParseKeyword(ToUpper(keyword)))
      ensures r.Ok? ==> Keyword(condition.value) == ToUpper(keyword)
      ensures source == old(source)
    {
      var upper := ToUpper(keyword);
      var c := ParseKeyword(upper);
      if c.None? {
        return Err(InvalidCondition);
      }
      condition := c;
      r := Ok(());
    }

    /** `where()`: sets the field to test; a date format, when given,
        replaces the stored one. */
    method Where(field: string, format: Option<string>)
      modifies this
      ensures Settings() == old(Settings()).(where := field, dateFormat := if format.Some? then format else old(dateFormat))
      ensures source == old(source)
    {
      where := field;
      if format.Some? {
        dateFormat := format;
      }
    }

    /** `value()`. With a date format: a list of exactly two dates becomes a
        period and a string one date; anything that does not parse is
        refused and changes nothing. Without one: a numeric string is cast
        to a number and anything else is stored as given. */
    method SetValue(arg: Argument, format: Option<string>) returns (r: Result<(), QueryError>)
      modifies this
      ensures format.Some? && arg.Many? && |arg.items| == 2 &&
              parseDate(format.value, arg.items[0]).Some? && parseDate(format.value, arg.items[1]).Some? ==>
                r == Ok(()) && Settings() == old(Settings()).(value := Period(parseDate(format.value, arg.items[0]).value,
                                                                              parseDate(format.value, arg.items[1]).value))
      ensures format.Some? && arg.Scalar? && parseDate(format.value, arg.s).Some? ==>
                r == Ok(()) && Settings() == old(Settings()).(value := Moment(parseDate(format.value, arg.s).value))
      ensures format.Some? && r.Err? ==> r == Err(InvalidDateValue) && Settings() == old(Settings())
      ensures format.Some? &&
              !(arg.Many? && |arg.items| == 2 &&
                parseDate(format.value, arg.items[0]).Some? && parseDate(format.value, arg.items[1]).Some?) &&
              !(arg.Scalar? && parseDate(format.value, arg.s).Some?) ==>
                r == Err(InvalidDateValue) && Settings() == old(Settings())
      ensures format.Some? && r.Ok? ==> (arg.Many? && |arg.items| == 2) || arg.Scalar?
      ensures format.None? && arg.Scalar? && IsNumeric(arg.s) ==>
                r == Ok(()) && Settings() == old(Settings()).(value := Number(ToNumber(arg.s)))
      ensures format.None? && arg.Scalar? && !IsNumeric(arg.s) ==>
                r == Ok(()) && Settings() == old(Settings()).(value := Literal(arg.s))
      ensures format.None? && arg.Many? ==> r == Ok(()) && Settings() == old(Settings()).(value := Items(arg.items))
      ensures source == old(source)
    {
      if format.Some? {
        var valid := false;
        if arg.Many? && |arg.items| == 2 {
          var start := parseDate(format.value, arg.items[0]);
          var end := parseDate(format.value, arg.items[1]);
          if start.Some? && end.Some? {
            value := Period(start.value, end.value);
            valid := true;
          }
        } else if arg.Scalar? {
          var at := parseDate(format.value, arg.s);
          if at.Some? {
            value := Moment(at.value);
            valid := true;
          }
        }
        if !valid {
          return Err(InvalidDateValue);
        }
      } else if arg.Scalar? && IsNumeric(arg.s) {
        value := Number(ToNumber(arg.s));
      } else if arg.Scalar? {
        value := Literal(arg.s);
      } else {
        value := Items(arg.items);
      }
      r := Ok(());
    }

    method Limit(size: int)
      modifies this
      ensures Settings() == old(Settings()).(limit := size) && source == old(source)
    {
      limit := size;
    }

    /** `execute()`, with the condition evaluated as written (`asWritten`)
        or as intended. The sink, when given, is opened first, then the
        source; either refuses when it already holds a file pointer. The
        rows are then read in order as `Take` describes; each kept row is
        cut down and renamed and goes either to the returned list or to the
        sink. An error while reading leaves both open. Otherwise the source
        is closed and the sink finished according to its kind. */
    method Run(sink: Source?, mappings: Option<map<string, string>>, asWritten: bool)
      returns (r: Result<Output, QueryError>)
      modifies source, sink
      ensures sink != null && old(sink.isOpen) ==> r == Err(AlreadyOpen(sink.name))
      ensures (sink == null || !old(sink.isOpen)) && source == null ==>
                r == Err(NoSource) && (sink != null ==> sink.isOpen)
      ensures (sink == null || !old(sink.isOpen)) && source != null && (old(source.isOpen) || source == sink) ==>
                r == Err(AlreadyOpen(source.name)) && (sink != null ==> sink.isOpen)
      ensures (sink == null || !old(sink.isOpen)) && source != null && !old(source.isOpen) && source != sink ==>
                var p := Take(MatcherOf(Settings(), parseDate, asWritten), source.rows, limit);
                Finished(r, source, sink, p, PresentAll(p.hits, fields, mappings))
    {
      if sink != null {
        var ok := sink.Open();
        if !ok {
          return Err(AlreadyOpen(sink.name));
        }
      }
      if source == null {
        return Err(NoSource);
      }
      var src := source;
      var ok := src.Open();
      if !ok {
        return Err(AlreadyOpen(src.name));
      }
      var result, count, failure := ReadRows(src, sink, MatcherOf(Settings(), parseDate, asWritten), limit, fields, mappings);
      if failure.Some? {
        return Err(failure.value);
      }
      src.Close();
      r := Ok(Rows(result));
      if sink != null {
        match sink.kind
        case StreamKind =>
          sink.Reset();
          r := Ok(Streamed(sink.written));
          sink.Close();
        case FileKind =>
          sink.Close();
          r := Ok(RowCount(count));
        case OtherKind =>
      }
    }

    /** `execute()` as written: a row value that does not cast to a number
        or does not parse as a date can still match (see
        `PassKeepsNonNumericAsWritten`). */
    method ExecuteAsWritten(sink: Source?, mappings: Option<map<string, string>>) returns (r: Result<Output, QueryError>)
      modifies source, sink
      ensures sink != null && old(sink.isOpen) ==> r == Err(AlreadyOpen(sink.name))
      ensures (sink == null || !old(sink.isOpen)) && source == null ==>
                r == Err(NoSource) && (sink != null ==> sink.isOpen)
      ensures (sink == null || !old(sink.isOpen)) && source != null && (old(source.isOpen) || source == sink) ==>
                r == Err(AlreadyOpen(source.name)) && (sink != null ==> sink.isOpen)
      ensures (sink == null || !old(sink.isOpen)) && source != null && !old(source.isOpen) && source != sink ==>
                var p := Take(MatcherOf(Settings(), parseDate, true), source.rows, limit);
                Finished(r, source, sink, p, PresentAll(p.hits, fields, mappings))
    {
      r := Run(sink, mappings, true);
    }

    /** `execute()` with the evaluators as intended: a numeric comparison
        needs a numeric row value and a date condition a parsable date. */
    method Execute(sink: Source?, mappings: Option<map<string, string>>) returns (r: Result<Output, QueryError>)
      modifies source, sink
      ensures sink != null && old(sink.isOpen) ==> r == Err(AlreadyOpen(sink.name))
      ensures (sink == null || !old(sink.isOpen)) && source == null ==>
                r == Err(NoSource) && (sink != null ==> sink.isOpen)
      ensures (sink == null || !old(sink.isOpen)) && source != null && (old(source.isOpen) || source == sink) ==>
                r == Err(AlreadyOpen(source.name)) && (sink != null ==> sink.isOpen)
      ensures (sink == null || !old(sink.isOpen)) && source != null && !old(source.isOpen) && source != sink ==>
                var p := Take(MatcherOf(Settings(), parseDate, false), source.rows, limit);
                Finished(r, source, sink, p, PresentAll(p.hits, fields, mappings))
    {
      r := Run(sink, mappings, false);
    }
  }

  /** How `execute` ends after the pass `p`, whose kept rows are emitted
      as `out`: a sink holds them; a failed pass returns its error and
      leaves the source and the sink open; otherwise the source is closed
      and the rows are returned, or the sink is finished by its kind (a
      stream is rewound, closed and its contents returned, a file closed
      and its row count returned, any other sink left open). */
  ghost predicate Finished(r: Result<Output, QueryError>, src: Source, sink: Source?, p: Pass, out: seq<Row>)
    reads src, sink
  {
    (sink != null ==> sink.written == out)
    && (p.failure.Some? ==> r == Err(p.failure.value) && src.isOpen && (sink != null ==> sink.isOpen))
    && (p.failure.None? ==> !src.isOpen)
    && (p.failure.None? && sink == null ==> r == Ok(Rows(out)))
    && (p.failure.None? && sink != null && sink.kind == StreamKind ==>
          r == Ok(Streamed(out)) && !sink.isOpen && sink.cursor == 0)
    && (p.failure.None? && sink != null && sink.kind == FileKind ==>
          r == Ok(RowCount(|p.hits|)) && !sink.isOpen)
    && (p.failure.None? && sink != null && sink.kind == OtherKind ==>
          r == Ok(Rows([])) && sink.isOpen)
  }

  /** The reading loop of `execute`: it reads rows until the source runs
      out or gives an empty row, a condition cannot be evaluated, or `cap`
      rows have matched (a cap of zero or less is no cap). Each match goes
      to the result list or, when there is a sink, to the sink. */
  method ReadRows(src: Source, sink: Source?, test: RowTest, cap: int, fields: set<string>,
                  mappings: Option<map<string, string>>)
    returns (result: seq<Row>, count: nat, failure: Option<QueryError>)
    requires src.isOpen && src.cursor == 0 && src != sink
    requires sink != null ==> sink.isOpen && sink.written == []
    modifies src, sink
    ensures var p := Take(test, src.rows, cap);
            failure == p.failure && count == |p.hits|
            && (sink == null ==> result == PresentAll(p.hits, fields, mappings))
            && (sink != null ==> result == [] && sink.written == PresentAll(p.hits, fields, mappings))
    ensures src.isOpen && src.Valid() && (sink != null ==> sink.isOpen)
  {
    result := [];
    count := 0;
    ghost var hits: seq<Row> := [];
    ghost var whole := Take(test, src.rows, cap);
    ghost var rem := cap;
    ghost var k := 0;
    while true
      invariant src.isOpen && src.Valid() && src.cursor == k
      invariant sink != null ==> sink.isOpen
      invariant count == |hits| && (cap > 0 ==> count < cap)
      invariant rem == if cap > 0 then cap - count else cap
      invariant k <= |src.rows|
      invariant whole == Continued(hits, TakeFrom(test, src.rows, k, rem))
      invariant sink == null ==> result == PresentAll(hits, fields, mappings)
      invariant sink != null ==> result == [] && sink.written == PresentAll(hits, fields, mappings)
      decreases |src.rows| - k
    {
      ghost var at := k;
      var next := src.NextRow();
      k := src.cursor;
      if next.None? || next.value == [] {
        TakeStops(test, src.rows, at, rem, whole, hits);
        break;
      }
      var row := next.value;
      var valid := test(row);
      if valid.Err? {
        TakeFails(test, src.rows, at, rem, whole, hits);
        return result, count, Some(valid.error);
      }
      if !valid.value {
        TakeSkips(test, src.rows, at, rem, whole, hits);
      } else {
        ghost var fewer := if rem > 0 then rem - 1 else rem;
        TakeKeeps(test, src.rows, at, rem, fewer, whole, hits);
        PresentAllSnoc(hits, row, fields, mappings);
        var shown := Show(row, fields, mappings);
        count := count + 1;
        hits := hits + [row];
        rem := fewer;
        if sink == null {
          result := result + [shown];
        } else {
          sink.WriteRow(shown);
        }
        if cap > 0 && count == cap {
          break;
        }
      }
    }
    failure := None;
  }

  /** What `execute` makes of a kept row: the selected fields, renamed
      when mappings are given. */
  method Show(row: Row, fields: set<string>, mappings: Option<map<string, string>>) returns (shown: Row)
    ensures shown == Present(row, fields, mappings)
  {
    shown := Restrict(row, fields);
    if mappings.Some? {
      shown := RenameKeys(shown, mappings.value);
    }
  }

  lemma RenameAllNext(row: Row, i: nat, m: map<string, string>)
    requires i < |row|
    ensures RenameAll(row[..i + 1], row, m) == RenameStep(RenameAll(row[..i], row, m), row[i], m)
  {
    assert row[..i + 1][..i] == row[..i];
  }

  /** The renaming loop of `execute`, over the entries of the row as they
      were before it started. */
  method RenameKeys(row: Row, m: map<string, string>) returns (r: Row)
    ensures r == Relabel(row, m)
  {
    r := row;
    var i := 0;
    while i < |row|
      invariant 0 <= i <= |row|
      invariant r == RenameAll(row[..i], row, m)
    {
      RenameAllNext(row, i, m);
      var header := row[i].0;
      if Renamed(m, header) {
        r := Put(r, Target(m, header), row[i].1);
        r := Remove(r, header);
      }
      i := i + 1;
    }
    assert row[..|row|] == row;
  }
}
