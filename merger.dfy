/** The Merger engine of src/Segmentation/Merger.php: an equality join of
    an ordered list of sources on one field. `execute` takes the sources
    off the front of the list one at a time; every row of the source taken
    is compared with every row of every source still in the list, and each
    pair whose join values are identical gives the array union of the two
    rows, left row first. */
module MergerEngine {
  import opened Wrappers
  import opened Rows
  import opened DataSource
  import opened Seqs

  /** The join test: `$row[$field] === $merge_row[$field]`. A missing
      field reads as `null`, and two `null`s are identical. */
  predicate SameKey(left: Row, right: Row, field: string) {
    Lookup(left, field) == Lookup(right, field)
  }

  /** What one left row gives against the rows of one right source, in
      the right source's order. */
  function Pairings(left: Row, rights: seq<Row>, field: string): (r: seq<Row>)
    ensures |r| <= |rights|
  {
    if rights == [] then []
    else
      var last := rights[|rights| - 1];
      Pairings(left, rights[..|rights| - 1], field)
        + if SameKey(left, last, field) then [Union(left, last)] else []
  }

  /** `_processRow`: what one left row gives against every source still
      pending, source by source. */
  function RowAgainst(left: Row, later: seq<seq<Row>>, field: string): seq<Row> {
    if later == [] then []
    else RowAgainst(left, later[..|later| - 1], field) + Pairings(left, later[|later| - 1], field)
  }

  /** What the rows of one left source give, left row by left row. */
  function LeftPass(lefts: seq<Row>, later: seq<seq<Row>>, field: string): seq<Row> {
    if lefts == [] then []
    else LeftPass(lefts[..|lefts| - 1], later, field) + RowAgainst(lefts[|lefts| - 1], later, field)
  }

  /** The output of the first `p` passes: pass `q` joins source `q` with
      the sources after it. */
  function Passes(tables: seq<seq<Row>>, p: nat, field: string): seq<Row>
    requires p <= |tables|
  {
    if p == 0 then []
    else Passes(tables, p - 1, field) + LeftPass(tables[p - 1], tables[p..], field)
  }

  /** The joined rows of all the sources. */
  function Join(tables: seq<seq<Row>>, field: string): seq<Row> {
    Passes(tables, |tables|, field)
  }

  /** The first source, from `from` on, whose first row lacks the join
      field: the one `execute` rejects. */
  function FirstBad(tables: seq<seq<Row>>, field: string, from: nat): (r: Option<nat>)
    requires from <= |tables|
    decreases |tables| - from
    ensures r.Some? ==> from <= r.value < |tables|
                        && tables[r.value] != [] && !HasKey(tables[r.value][0], field)
                        && forall q :: from <= q < r.value ==> tables[q] == [] || HasKey(tables[q][0], field)
    ensures r.None? ==> forall q :: from <= q < |tables| ==> tables[q] == [] || HasKey(tables[q][0], field)
  {
    if from == |tables| then None
    else if tables[from] != [] && !HasKey(tables[from][0], field) then Some(from)
    else FirstBad(tables, field, from + 1)
  }

  /** The outcome of the join loop: the joined rows, or the position of
      the source whose missing join field stops it. */
  function MergeOf(tables: seq<seq<Row>>, field: string): Result<seq<Row>, nat> {
    match FirstBad(tables, field, 0)
    case Some(q) => Err(q)
    case None => Ok(Join(tables, field))
  }

  /** The join loop read as a recursion: the sources from `p` on are
      taken in turn, `acc` holding what the earlier ones gave. */
  function MergeFrom(tables: seq<seq<Row>>, field: string, p: nat, acc: seq<Row>): Result<seq<Row>, nat>
    requires p <= |tables|
    decreases |tables| - p
  {
    if p == |tables| then Ok(acc)
    else if tables[p] != [] && !HasKey(tables[p][0], field) then Err(p)
    else MergeFrom(tables, field, p + 1, acc + LeftPass(tables[p], tables[p + 1..], field))
  }

  /** Taking the sources in turn gives the joined rows of all of them, or
      stops at the first source whose first row lacks the join field. */
  lemma {:induction false} MergeFromPasses(tables: seq<seq<Row>>, field: string, p: nat)
    requires p <= |tables|
    ensures MergeFrom(tables, field, p, Passes(tables, p, field))
              == match FirstBad(tables, field, p)
                 case Some(q) => Err(q)
                 case None => Ok(Join(tables, field))
    decreases |tables| - p
  {
    if p < |tables| && (tables[p] == [] || HasKey(tables[p][0], field)) {
      MergeFromPasses(tables, field, p + 1);
    }
  }

  /** The loop's recursion started at the first source is the merge. */
  lemma MergeFromStart(tables: seq<seq<Row>>, field: string)
    ensures MergeFrom(tables, field, 0, []) == MergeOf(tables, field)
  {
    MergeFromPasses(tables, field, 0);
  }

  /** The rows of each source, in list order. */
  function TablesOf(ss: seq<Source>): (tables: seq<seq<Row>>)
    ensures |tables| == |ss| && forall i :: 0 <= i < |ss| ==> tables[i] == ss[i].rows
  {
    if ss == [] then [] else TablesOf(ss[..|ss| - 1]) + [ss[|ss| - 1].rows]
  }

  /** A merged row comes from exactly one right row with the left row's
      join value, and is the union of the two. */
  lemma {:induction false} PairingsMembers(left: Row, rights: seq<Row>, field: string, m: Row)
    ensures m in Pairings(left, rights, field) <==>
              exists x :: x in rights && SameKey(left, x, field) && m == Union(left, x)
  {
    if rights != [] {
      var front := rights[..|rights| - 1];
      var last := rights[|rights| - 1];
      PairingsMembers(left, front, field, m);
      SplitLast(rights);
    }
  }

  /** A row `_processRow` gives is the union of the left row with a row
      of one of the pending sources that has the same join value, and
      every such pair is given. */
  lemma {:induction false} RowAgainstMembers(left: Row, later: seq<seq<Row>>, field: string, m: Row)
    ensures m in RowAgainst(left, later, field) <==>
              exists j, x :: 0 <= j < |later| && x in later[j] && SameKey(left, x, field) && m == Union(left, x)
  {
    if later != [] {
      var n := |later| - 1;
      var front := later[..n];
      var a := RowAgainst(left, front, field);
      var b := Pairings(left, later[n], field);
      assert RowAgainst(left, later, field) == a + b;
      RowAgainstMembers(left, front, field, m);
      PairingsMembers(left, later[n], field, m);
      if m in a {
        var j, x :| 0 <= j < n && x in front[j] && SameKey(left, x, field) && m == Union(left, x);
        MeetsIntro(left, later, field, m, j, x);
      } else if m in b {
        var x :| x in later[n] && SameKey(left, x, field) && m == Union(left, x);
        MeetsIntro(left, later, field, m, n, x);
      } else {
        assert later == front + [later[n]];
        NoMeet(left, front, later[n], field, m);
      }
    }
  }

  /** The step of the converse: with nothing in the front's output nor in
      the last source's, no pair meets. */
  lemma NoMeet(left: Row, front: seq<seq<Row>>, last: seq<Row>, field: string, m: Row)
    requires !exists j, x :: 0 <= j < |front| && x in front[j] && SameKey(left, x, field) && m == Union(left, x)
    requires !exists x :: x in last && SameKey(left, x, field) && m == Union(left, x)
    ensures !exists j, x :: 0 <= j < |front + [last]| && x in (front + [last])[j] && SameKey(left, x, field) && m == Union(left, x)
  {
    var later := front + [last];
    forall j, x | 0 <= j < |later| && x in later[j] && SameKey(left, x, field)
      ensures m != Union(left, x)
    {
      if j < |front| {
        assert later[j] == front[j];
      }
    }
  }

  lemma MeetsIntro(left: Row, later: seq<seq<Row>>, field: string, m: Row, j: nat, x: Row)
    requires j < |later| && x in later[j] && SameKey(left, x, field) && m == Union(left, x)
    ensures exists j, x :: 0 <= j < |later| && x in later[j] && SameKey(left, x, field) && m == Union(left, x)
  {
  }

  lemma {:induction false} LeftPassMembers(lefts: seq<Row>, later: seq<seq<Row>>, field: string, m: Row)
    ensures m in LeftPass(lefts, later, field) <==>
              exists l :: l in lefts && m in RowAgainst(l, later, field)
  {
    if lefts != [] {
      LeftPassMembers(lefts[..|lefts| - 1], later, field, m);
      SplitLast(lefts);
      var last := lefts[|lefts| - 1];
      if m in RowAgainst(last, later, field) {
        assert last in lefts;
      }
    }
  }

  /** A pair of sources is joined only with the later one on the right. */
  predicate FromPair(tables: seq<seq<Row>>, p: nat, field: string, m: Row) {
    exists i, j, l, x :: 0 <= i < p && i < j < |tables| && l in tables[i] && x in tables[j]
                         && SameKey(l, x, field) && m == Union(l, x)
  }

  lemma PassesMembers(tables: seq<seq<Row>>, p: nat, field: string, m: Row)
    requires p <= |tables|
    ensures m in Passes(tables, p, field) <==> FromPair(tables, p, field, m)
  {
    if m in Passes(tables, p, field) {
      PassesSound(tables, p, field, m);
    }
    if FromPair(tables, p, field, m) {
      var i, j, l, x :| 0 <= i < p && i < j < |tables| && l in tables[i] && x in tables[j]
                        && SameKey(l, x, field) && m == Union(l, x);
      PassesComplete(tables, p, field, m, i, j, l, x);
    }
  }

  lemma {:induction false} PassesSound(tables: seq<seq<Row>>, p: nat, field: string, m: Row)
    requires p <= |tables| && m in Passes(tables, p, field)
    ensures FromPair(tables, p, field, m)
  {
    var earlier := Passes(tables, p - 1, field);
    assert Passes(tables, p, field) == earlier + LeftPass(tables[p - 1], tables[p..], field);
    if m in earlier {
      PassesSound(tables, p - 1, field, m);
      FromPairWiden(tables, p, field, m);
    } else {
      LastPassSound(tables, p, field, m);
    }
  }

  lemma {:induction false} PassesComplete(tables: seq<seq<Row>>, p: nat, field: string, m: Row,
                                          i: nat, j: nat, l: Row, x: Row)
    requires i < p <= |tables| && i < j < |tables| && l in tables[i] && x in tables[j]
    requires SameKey(l, x, field) && m == Union(l, x)
    ensures m in Passes(tables, p, field)
  {
    var earlier := Passes(tables, p - 1, field);
    var last := LeftPass(tables[p - 1], tables[p..], field);
    assert Passes(tables, p, field) == earlier + last;
    if i == p - 1 {
      LastPassComplete(tables, p, field, m, j, l, x);
      InRight(m, earlier, last);
    } else {
      PassesComplete(tables, p - 1, field, m, i, j, l, x);
      InLeft(m, earlier, last);
    }
  }

  lemma FromPairIntro(tables: seq<seq<Row>>, p: nat, field: string, m: Row, i: nat, j: nat, l: Row, x: Row)
    requires i < p && i < j < |tables| && l in tables[i] && x in tables[j]
    requires SameKey(l, x, field) && m == Union(l, x)
    ensures FromPair(tables, p, field, m)
  {
  }

  lemma FromPairWiden(tables: seq<seq<Row>>, p: nat, field: string, m: Row)
    requires p > 0 && FromPair(tables, p - 1, field, m)
    ensures FromPair(tables, p, field, m)
  {
    var i, j, l, x :| 0 <= i < p - 1 && i < j < |tables| && l in tables[i] && x in tables[j]
                      && SameKey(l, x, field) && m == Union(l, x);
    FromPairIntro(tables, p, field, m, i, j, l, x);
  }

  /** A row of pass `p - 1` pairs a row of source `p - 1` with a later one. */
  lemma LastPassSound(tables: seq<seq<Row>>, p: nat, field: string, m: Row)
    requires 0 < p <= |tables|
    requires m in LeftPass(tables[p - 1], tables[p..], field)
    ensures FromPair(tables, p, field, m)
  {
    var later := tables[p..];
    LeftPassMembers(tables[p - 1], later, field, m);
    var l :| l in tables[p - 1] && m in RowAgainst(l, later, field);
    RowAgainstMembers(l, later, field, m);
    var j, x :| 0 <= j < |later| && x in later[j] && SameKey(l, x, field) && m == Union(l, x);
    assert x in tables[p + j];
  }

  /** Pass `p - 1` makes every pair of a row of source `p - 1` with a row
      of a later source. */
  lemma LastPassComplete(tables: seq<seq<Row>>, p: nat, field: string, m: Row, j: nat, l: Row, x: Row)
    requires 0 < p <= j < |tables| && l in tables[p - 1] && x in tables[j]
    requires SameKey(l, x, field) && m == Union(l, x)
    ensures m in LeftPass(tables[p - 1], tables[p..], field)
  {
    var later := tables[p..];
    assert x in later[j - p];
    RowAgainstMembers(l, later, field, m);
    LeftPassMembers(tables[p - 1], later, field, m);
  }

  /** Every joined row is the union of a row of some source with a row of
      a later source that has the same join value, and every such pair is
      joined. */
  lemma JoinMembers(tables: seq<seq<Row>>, field: string, m: Row)
    ensures m in Join(tables, field) <==>
              exists i, j, l, x :: 0 <= i < j < |tables| && l in tables[i] && x in tables[j]
                                   && SameKey(l, x, field) && m == Union(l, x)
  {
    PassesMembers(tables, |tables|, field, m);
  }

  /** A single source joins with nothing. */
  lemma SingleSource(t: seq<Row>, field: string)
    ensures Join([t], field) == []
  {
    assert [t][1..] == [];
    assert Join([t], field) == Passes([t], 0, field) + LeftPass(t, [], field);
    SingleLeftPass(t, field);
  }

  lemma {:induction false} SingleLeftPass(lefts: seq<Row>, field: string)
    ensures LeftPass(lefts, [], field) == []
  {
    if lefts != [] {
      SingleLeftPass(lefts[..|lefts| - 1], field);
    }
  }

  /** Against a single later source, a left row meets that source's rows. */
  lemma RowAgainstOne(left: Row, b: seq<Row>, field: string)
    ensures RowAgainst(left, [b], field) == Pairings(left, b, field)
  {
    assert [b][..0] == [];
  }

  /** Two sources: left row by left row, right row by right row, and at
      most one output row per pair. */
  lemma TwoSources(a: seq<Row>, b: seq<Row>, field: string)
    ensures Join([a, b], field) == LeftPass(a, [b], field)
    ensures |Join([a, b], field)| <= |a| * |b|
  {
    var t := [a, b];
    assert t[2..] == [] && t[1..] == [b];
    assert Join(t, field) == Passes(t, 1, field) + LeftPass(b, [], field);
    assert Passes(t, 1, field) == Passes(t, 0, field) + LeftPass(a, [b], field);
    SingleLeftPass(b, field);
    LeftPassSize(a, b, field);
  }

  lemma {:induction false} LeftPassSize(lefts: seq<Row>, b: seq<Row>, field: string)
    ensures |LeftPass(lefts, [b], field)| <= |lefts| * |b|
  {
    if lefts != [] {
      var n := |lefts| - 1;
      LeftPassSize(lefts[..n], b, field);
      RowAgainstOne(lefts[n], b, field);
      var k := |LeftPass(lefts[..n], [b], field)|;
      assert |LeftPass(lefts, [b], field)| == k + |Pairings(lefts[n], b, field)|;
      MulStep(n, |b|);
    }
  }

  lemma MulStep(n: nat, k: nat)
    ensures n * k + k == (n + 1) * k
  {
  }

  /** Two one-row sources with the same id give one row holding the
      fields of both. */
  lemma ScenarioMatch()
    ensures Join([[[("id", "1"), ("x", "a")]], [[("id", "1"), ("y", "b")]]], "id")
              == [[("id", "1"), ("x", "a"), ("y", "b")]]
  {
    var a: Row := [("id", "1"), ("x", "a")];
    var b: Row := [("id", "1"), ("y", "b")];
    TwoSources([a], [b], "id");
    assert LeftPass([a], [[b]], "id") == LeftPass([], [[b]], "id") + RowAgainst(a, [[b]], "id");
    RowAgainstOne(a, [b], "id");
    assert SameKey(a, b, "id");
    assert Pairings(a, [b], "id") == Pairings(a, [], "id") + [Union(a, b)];
    assert !HasKey(a, "y");
    assert Missing(b, a) == Missing([("y", "b")], a);
    assert Missing(b, a) == [("y", "b")];
    assert Union(a, b) == [("id", "1"), ("x", "a"), ("y", "b")];
    assert Pairings(a, [b], "id") == [Union(a, b)];
    assert RowAgainst(a, [[b]], "id") == RowAgainst(a, [], "id") + Pairings(a, [b], "id");
  }

  /** With different ids they give nothing. */
  lemma ScenarioMismatch()
    ensures Join([[[("id", "1"), ("x", "a")]], [[("id", "2"), ("y", "b")]]], "id") == []
  {
    var a: Row := [("id", "1"), ("x", "a")];
    var c: Row := [("id", "2"), ("y", "b")];
    TwoSources([a], [c], "id");
    assert LeftPass([a], [[c]], "id") == LeftPass([], [[c]], "id") + RowAgainst(a, [[c]], "id");
    RowAgainstOne(a, [c], "id");
    assert !SameKey(a, c, "id");
    assert Pairings(a, [c], "id") == Pairings(a, [], "id") + [];
  }

  // ---------------------------------------------------------------------
  // Step lemmas tying the loops below to the specification functions.

  /** Reading one more right row. */
  lemma PairingsNext(left: Row, rights: seq<Row>, k: nat, field: string)
    requires k < |rights|
    ensures Pairings(left, rights[..k + 1], field)
              == Pairings(left, rights[..k], field)
                 + if SameKey(left, rights[k], field) then [Union(left, rights[k])] else []
  {
    assert rights[..k + 1][..k] == rights[..k];
  }

  /** Scanning one more pending source. */
  lemma RowAgainstNext(left: Row, later: seq<seq<Row>>, j: nat, field: string)
    requires j < |later|
    ensures RowAgainst(left, later[..j + 1], field)
              == RowAgainst(left, later[..j], field) + Pairings(left, later[j], field)
  {
    assert later[..j + 1][..j] == later[..j];
  }

  /** Reading one more left row. */
  lemma LeftPassNext(lefts: seq<Row>, k: nat, later: seq<seq<Row>>, field: string)
    requires k < |lefts|
    ensures LeftPass(lefts[..k + 1], later, field)
              == LeftPass(lefts[..k], later, field) + RowAgainst(lefts[k], later, field)
  {
    assert lefts[..k + 1][..k] == lefts[..k];
  }

  /** Reading one more left row, after the output gathered so far. */
  lemma LeftPassStep(result: seq<Row>, lefts: seq<Row>, k: nat, later: seq<seq<Row>>, field: string)
    requires k < |lefts|
    ensures result + LeftPass(lefts[..k + 1], later, field)
              == result + LeftPass(lefts[..k], later, field) + RowAgainst(lefts[k], later, field)
  {
    LeftPassNext(lefts, k, later, field);
    Associative(result, LeftPass(lefts[..k], later, field), RowAgainst(lefts[k], later, field));
  }

  /** The rows of the sources left after `p` shifts. */
  lemma TablesOfFrom(ss: seq<Source>, p: nat)
    requires p <= |ss|
    ensures TablesOf(ss[p..]) == TablesOf(ss)[p..]
  {
  }

  // ---------------------------------------------------------------------
  // Source lists.

  /** Every source of the list is open and rewound. */
  ghost predicate Ready(ss: seq<Source>)
    reads ss
  {
    forall i :: 0 <= i < |ss| ==> ss[i].isOpen && ss[i].cursor == 0
  }

  ghost predicate AllOpen(ss: seq<Source>)
    reads ss
  {
    forall i :: 0 <= i < |ss| ==> ss[i].isOpen
  }

  /** The sources of `done` are open and rewound, and none of them is
      in the list `ss`. */
  ghost predicate Settled(done: set<Source>, ss: seq<Source>)
    reads done
  {
    forall s :: s in done ==> s.isOpen && s.cursor == 0 && s !in ss
  }

  /** The first `p` sources of a list, as a set. */
  ghost function Prefix(given: seq<Source>, p: nat): set<Source>
    requires p <= |given|
  {
    if p == 0 then {} else Prefix(given, p - 1) + {given[p - 1]}
  }

  /** When the first `p` sources of `given` are settled, they are open and
      rewound. */
  lemma {:induction false} SettledReady(ss: seq<Source>, given: seq<Source>, p: nat)
    requires p <= |given| && Settled(Prefix(given, p), ss)
    ensures Ready(given[..p])
    ensures p == |given| ==> Ready(given)
  {
    assert given[..|given|] == given;
    if p > 0 {
      SettledReady(ss, given, p - 1);
      assert given[..p] == given[..p - 1] + [given[p - 1]];
    }
  }

  /** No source is listed twice. */
  predicate Distinct(ss: seq<Source>) {
    ss == [] || (ss[0] !in ss[1..] && Distinct(ss[1..]))
  }

  /** A source not yet listed can be added at the end. */
  lemma {:induction false} DistinctSnoc(ss: seq<Source>, s: Source)
    requires Distinct(ss) && s !in ss
    ensures Distinct(ss + [s])
  {
    if ss != [] {
      assert (ss + [s])[1..] == ss[1..] + [s];
      DistinctSnoc(ss[1..], s);
    }
  }

  /** The position, from `from` on, at which opening the list in order
      fails: a source that is open already, or one listed earlier (the
      first opening of it left it open). */
  ghost function FirstClash(ss: seq<Source>, from: nat): (r: Option<nat>)
    reads ss
    requires from <= |ss|
    decreases |ss| - from
    ensures r.Some? ==> from <= r.value < |ss|
  {
    if from == |ss| then None
    else if ss[from].isOpen || ss[from] in ss[..from] then Some(from)
    else FirstClash(ss, from + 1)
  }

  /** A list that opens without a clash held no open source and no
      source twice, and conversely. */
  lemma {:induction false} NoClash(ss: seq<Source>, from: nat)
    requires from <= |ss|
    decreases |ss| - from
    ensures FirstClash(ss, from) == None <==>
              forall i :: from <= i < |ss| ==> !ss[i].isOpen && ss[i] !in ss[..i]
  {
    if from < |ss| {
      NoClash(ss, from + 1);
    }
  }

  /** `array_walk` with `Validation::openDataFile`: opens the sources in
      list order and stops at the first one that cannot be opened, the
      ones before it staying open. */
  method OpenAll(ss: seq<Source>) returns (clash: Option<nat>)
    modifies ss
    ensures clash == old(FirstClash(ss, 0))
    ensures clash.None? ==> Ready(ss) && Distinct(ss)
    ensures clash.Some? ==> Ready(ss[..clash.value])
    ensures clash.Some? ==>
              forall i :: clash.value <= i < |ss| && ss[i] !in ss[..clash.value] ==>
                ss[i].isOpen == old(ss[i].isOpen) && ss[i].cursor == old(ss[i].cursor)
  {
    var k := 0;
    while k < |ss|
      invariant k <= |ss|
      invariant old(FirstClash(ss, 0)) == old(FirstClash(ss, k))
      invariant Ready(ss[..k]) && Distinct(ss[..k])
      invariant forall i :: k <= i < |ss| && ss[i] !in ss[..k] ==>
                  ss[i].isOpen == old(ss[i].isOpen) && ss[i].cursor == old(ss[i].cursor)
    {
      var s := ss[k];
      assert s in ss[..k] ==> s.isOpen;
      var ok := s.Open();
      if !ok {
        return Some(k);
      }
      assert ss[..k + 1] == ss[..k] + [s];
      DistinctSnoc(ss[..k], s);
      k := k + 1;
    }
    assert ss[..k] == ss;
    clash := None;
  }

  /** Closes every source of a list. */
  method CloseAll(ss: seq<Source>)
    requires AllOpen(ss) && Distinct(ss)
    modifies ss
    ensures forall i :: 0 <= i < |ss| ==> !ss[i].isOpen
  {
    var k := 0;
    while k < |ss|
      invariant k <= |ss| && Distinct(ss[k..])
      invariant forall i :: 0 <= i < k ==> !ss[i].isOpen
      invariant forall i :: k <= i < |ss| ==> ss[i].isOpen
    {
      DistinctHead(ss[k..]);
      assert ss[k..][1..] == ss[k + 1..];
      ss[k].Close();
      k := k + 1;
    }
  }

  /** The inner loop of `_processRow`: one left row against every row of
      one pending source, which is then rewound. */
  method ScanRight(result: seq<Row>, row: Row, src: Source, field: string) returns (r: seq<Row>)
    requires src.isOpen && src.cursor == 0
    modifies src`cursor
    ensures src.cursor == 0
    ensures r == result + Pairings(row, src.rows, field)
  {
    r := result;
    while true
      invariant src.Valid()
      invariant r == result + Pairings(row, src.rows[..src.cursor], field)
      decreases |src.rows| - src.cursor
    {
      ghost var k := src.cursor;
      ghost var before := r;
      var next := src.NextRow();
      if next.None? {
        break;
      }
      ghost var step := if SameKey(row, src.rows[k], field) then [Union(row, src.rows[k])] else [];
      if Lookup(row, field) == Lookup(next.value, field) {
        r := r + [Union(row, next.value)];
      }
      assert r == before + step;
      PairingsNext(row, src.rows, k, field);
      Associative(result, Pairings(row, src.rows[..k], field), step);
    }
    assert src.rows[..src.cursor] == src.rows;
    src.Reset();
  }

  /** The error `execute` throws. */
  datatype MergeError =
    | NoSources
    | AlreadyOpen(name: string)
    | FieldNotFound(field: string, source: string)

  /** What `execute` returns or throws, given the sources, where opening
      them clashes, the name of an output file that cannot be opened, and
      the join field. */
  function Outcome(given: seq<Source>, clash: Option<nat>, sinkClash: Option<string>, field: string)
    : Result<seq<Row>, MergeError>
    requires clash.Some? ==> clash.value < |given|
  {
    if given == [] then Err(NoSources)
    else if clash.Some? then Err(AlreadyOpen(given[clash.value].name))
    else if sinkClash.Some? then Err(AlreadyOpen(sinkClash.value))
    else match MergeOf(TablesOf(given), field)
      case Ok(rows) => Ok(rows)
      case Err(q) => Err(FieldNotFound(field, given[q].name))
  }

  /** The name of an output file that cannot be opened: one open already,
      or one of the sources (they are all open by then). */
  ghost function SinkClash(sink: Source?, given: seq<Source>): Option<string>
    reads sink
  {
    if sink != null && (sink.isOpen || sink in given) then Some(sink.name) else None
  }

  /** The first source of a list is not listed again after it. */
  lemma DistinctHead(ss: seq<Source>)
    requires ss != [] && Distinct(ss)
    ensures ss[0] !in ss[1..] && Distinct(ss[1..])
  {
  }

  class Merger {
    /** `$_sources`: the sources still to be merged, in the order given. */
    var sources: seq<Source>
    /** `$_field`: the join field. Before `on` is called it reads as
        `null`, which indexes an array as the key "". */
    var field: string

    constructor ()
      ensures sources == [] && field == ""
    {
      sources := [];
      field := "";
    }

    /** `fromSource`: adds a source at the end of the list. */
    method FromSource(s: Source)
      modifies this`sources
      ensures sources == old(sources) + [s]
    {
      sources := sources + [s];
    }

    /** `on`: sets the join field. */
    method On(f: string)
      modifies this`field
      ensures field == f
    {
      field := f;
    }

    /** `_processRow`: one left row against every pending source in turn. */
    method ProcessRow(result: seq<Row>, row: Row) returns (r: seq<Row>)
      requires Ready(sources)
      modifies sources`cursor
      ensures Ready(sources)
      ensures r == result + RowAgainst(row, TablesOf(sources), field)
    {
      r := result;
      var ss := sources;
      ghost var t := TablesOf(ss);
      var j := 0;
      while j < |ss|
        invariant j <= |ss|
        invariant Ready(ss)
        invariant r == result + RowAgainst(row, t[..j], field)
      {
        RowAgainstNext(row, t, j, field);
        assert t[j] == ss[j].rows;
        Associative(result, RowAgainst(row, t[..j], field), Pairings(row, t[j], field));
        r := ScanRight(r, row, ss[j], field);
        j := j + 1;
      }
      assert t[..j] == t;
    }

    /** The `foreach` over the source just shifted off the list: its rows
        in order, each processed against the pending sources; the first
        row must hold the join field. */
    method ScanLeft(analyse: Source, result: seq<Row>) returns (r: seq<Row>, missing: bool)
      requires analyse.isOpen && analyse.cursor == 0 && analyse !in sources
      requires Ready(sources)
      modifies analyse`cursor, sources`cursor
      ensures Ready(sources)
      ensures missing <==> analyse.rows != [] && !HasKey(analyse.rows[0], field)
      ensures !missing ==> r == result + LeftPass(analyse.rows, TablesOf(sources), field)
    {
      r := result;
      ghost var t := TablesOf(sources);
      var rowNumber := 0;
      while true
        invariant analyse.cursor == rowNumber <= |analyse.rows|
        invariant Ready(sources)
        invariant rowNumber > 0 ==> HasKey(analyse.rows[0], field)
        invariant r == result + LeftPass(analyse.rows[..rowNumber], t, field)
        decreases |analyse.rows| - rowNumber
      {
        var next := analyse.NextRow();
        if next.None? {
          break;
        }
        var row := next.value;
        if rowNumber == 0 && !HasKey(row, field) {
          return r, true;
        }
        assert row == analyse.rows[rowNumber];
        LeftPassStep(result, analyse.rows, rowNumber, t, field);
        r := ProcessRow(r, row);
        rowNumber := rowNumber + 1;
      }
      assert analyse.rows[..rowNumber] == analyse.rows;
      missing := false;
    }
  
    /** The opening phase of `execute`: every source in list order, then
        the output file; the first that cannot be opened stops it. */
    method OpenEverything(sink: Source?) returns (e: Option<MergeError>)
      modifies sources, sink
      ensures e == (match old(FirstClash(sources, 0))
                    case Some(q) => Some(AlreadyOpen(sources[q].name))
                    case None => if old(SinkClash(sink, sources)).Some?
                                 then Some(AlreadyOpen(sink.name)) else None)
      ensures e.None? ==> Ready(sources) && Distinct(sources) && (sink != null ==> sink.isOpen && sink.written == [] && sink !in sources)
    {
      var clash := OpenAll(sources);
      if clash.Some? {
        return Some(AlreadyOpen(sources[clash.value].name));
      }
      if sink != null {
        var ok := sink.Open();
        if !ok {
          return Some(AlreadyOpen(sink.name));
        }
      }
      e := None;
    }

    /** One turn of the `do … while` loop of `execute`: the first source
        is shifted off the list, its rows are joined with those of the
        sources still listed, and it is rewound. */
    method Turn(result: seq<Row>, ghost given: seq<Source>, ghost tables: seq<seq<Row>>, ghost p: nat,
                ghost done: set<Source>)
      returns (r: seq<Row>, missing: bool)
      requires p < |given| && sources == given[p..] && tables == TablesOf(given)
      requires Ready(sources) && Distinct(sources)
      requires Settled(done, sources)
      modifies this`sources, sources`cursor
      ensures sources == given[p + 1..] && Distinct(sources)
      ensures missing <==> tables[p] != [] && !HasKey(tables[p][0], field)
      ensures !missing ==> Ready(sources) && r == result + LeftPass(tables[p], tables[p + 1..], field)
      ensures missing ==> Settled(done, [])
      ensures !missing ==> Settled(done + {given[p]}, sources)
    {
      var analyse := sources[0];
      DistinctHead(sources);
      DropOne(given, p);
      sources := sources[1..];
      TablesOfFrom(given, p + 1);
      r, missing := ScanLeft(analyse, result);
      if !missing {
        analyse.Reset();
      }
    }

    /** The join loop of `execute` over open, rewound sources: it shifts
        the sources off the list one at a time, checks that the first row
        of each holds the join field and joins its rows with those of the
        sources still listed. */
    method JoinAll(ghost given: seq<Source>) returns (r: Result<seq<Row>, nat>)
      requires sources == given && given != [] && Ready(given) && Distinct(given)
      modifies this`sources, given`cursor
      ensures r == MergeOf(TablesOf(given), field)
      ensures r.Ok? ==> sources == []
      ensures r.Err? ==> r.error < |given| && sources == given[r.error + 1..]
      ensures r.Ok? ==> Ready(given)
      ensures r.Err? ==> Ready(given[..r.error])
    {
      var result: seq<Row> := [];
      ghost var tables := TablesOf(given);
      MergeFromStart(tables, field);
      var p := 0;
      while true
        invariant p < |given| && sources == given[p..]
        invariant Ready(sources) && Distinct(sources)
        invariant MergeFrom(tables, field, p, result) == MergeOf(tables, field)
        invariant Settled(Prefix(given, p), sources)
        decreases |given| - p
      {
        var missing;
        result, missing := Turn(result, given, tables, p, Prefix(given, p));
        if missing {
          SettledReady([], given, p);
          return Err(p);
        }
        p := p + 1;
        if sources == [] {
          SettledReady(sources, given, p);
          break;
        }
      }
      r := Ok(result);
    }

    /** `execute` up to its closing loop. With no source it throws; it
        opens everything, then joins. The output file is opened but never
        written. */
    method Run(sink: Source?) returns (r: Result<seq<Row>, MergeError>)
      modifies this`sources, sources, sink
      ensures r == Outcome(old(sources), old(FirstClash(sources, 0)), old(SinkClash(sink, sources)), field)
      ensures r.Ok? ==> sources == [] && Ready(old(sources)) && Distinct(old(sources))
      ensures r.Err? && r.error.FieldNotFound? ==>
                AllOpen(old(sources))
                && Ready(old(sources)[..FirstBad(TablesOf(old(sources)), field, 0).value])
                && FirstBad(TablesOf(old(sources)), field, 0).Some?
                && sources == old(sources)[FirstBad(TablesOf(old(sources)), field, 0).value + 1..]
      ensures (r.Ok? || r.error.FieldNotFound?) && sink != null ==> sink.isOpen && sink.written == []
      ensures r == Err(NoSources) ==> old(sources) == [] && sources == [] && (sink != null ==> unchanged(sink))
    {
      if sources == [] {
        return Err(NoSources);
      }
      var e := OpenEverything(sink);
      if e.Some? {
        return Err(e.value);
      }
      var given := sources;
      var joined := JoinAll(given);
      match joined
      case Ok(rows) =>
        r := Ok(rows);
      case Err(q) =>
        r := Err(FieldNotFound(field, given[q].name));
    }

    /** `execute` as written: its closing loop walks the list of sources
        after the join has emptied it, so no source is closed. */
    method ExecuteAsWritten(sink: Source?) returns (r: Result<seq<Row>, MergeError>)
      modifies this`sources, sources, sink
      ensures r == Outcome(old(sources), old(FirstClash(sources, 0)), old(SinkClash(sink, sources)), field)
      ensures r.Ok? ==> sources == [] && forall i :: 0 <= i < |old(sources)| ==> old(sources)[i].isOpen
    {
      r := Run(sink);
      if r.Ok? {
        CloseAll(sources);
      }
    }

    /** `execute` with its closing loop walking the sources it was given:
        a successful merge closes every one of them. */
    method Execute(sink: Source?) returns (r: Result<seq<Row>, MergeError>)
      modifies this`sources, sources, sink
      ensures r == Outcome(old(sources), old(FirstClash(sources, 0)), old(SinkClash(sink, sources)), field)
      ensures r.Ok? ==> sources == [] && forall i :: 0 <= i < |old(sources)| ==> !old(sources)[i].isOpen
    {
      var given := sources;
      r := Run(sink);
      if r.Ok? {
        CloseAll(given);
      }
    }
  }
}
