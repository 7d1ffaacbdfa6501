/** Reciprocal-rank fusion of the modules' ranked rows, over exact reals. */
module Fusion {
  import opened Common

  /** A recalled row; `body` stands for the columns fusion does not read. */
  datatype Row = Row(
    statement: nat, rank: Option<int>, score: Option<real>, allowed: bool, recordIri: Option<string>, body: string)

  function RankOf(r: Row): int {
    if r.rank.Some? then r.rank.value else 1
  }

  function ScoreOf(r: Row): real {
    if r.score.Some? then r.score.value else 0.0
  }

  /** Division by zero would give an infinity, which the reals do not have. */
  predicate WellRanked(xs: seq<Row>, k: int) {
    forall i :: 0 <= i < |xs| ==> k + RankOf(xs[i]) != 0
  }

  function Weight(k: int, rank: int): real
    requires k + rank != 0
  {
    1.0 / (k + rank) as real
  }

  function Concat(modules: seq<seq<Row>>): seq<Row> {
    if modules == [] then [] else Concat(modules[..|modules| - 1]) + modules[|modules| - 1]
  }

  // ---- What fusion means ----

  function Ids(xs: seq<Row>): set<nat> { set x | x in xs :: x.statement }

  /** The sum of the weights of all rows that surface the statement. */
  function Score(xs: seq<Row>, id: nat, k: int): real
    requires WellRanked(xs, k)
  {
    if xs == [] then 0.0
    else
      var last := xs[|xs| - 1];
      Score(xs[..|xs| - 1], id, k) + if last.statement == id then Weight(k, RankOf(last)) else 0.0
  }

  /** Row i is the one kept for its statement: no row ranks better and no earlier row ranks as well. */
  predicate Kept(xs: seq<Row>, i: nat)
    requires i < |xs|
  {
    forall j :: 0 <= j < |xs| && xs[j].statement == xs[i].statement ==>
      RankOf(xs[i]) <= RankOf(xs[j]) && (j < i ==> RankOf(xs[i]) < RankOf(xs[j]))
  }

  /** r is the kept row of its statement, carrying the statement's score. */
  predicate IsEntry(r: Row, xs: seq<Row>, k: int)
    requires WellRanked(xs, k)
  {
    && r.score == Some(Score(xs, r.statement, k))
    && exists i :: 0 <= i < |xs| && xs[i].statement == r.statement && Kept(xs, i) && r == xs[i].(score := r.score)
  }

  /** Higher score first; on equal scores, the smaller statement id. */
  predicate Before(a: Row, b: Row) {
    ScoreOf(a) > ScoreOf(b) || (ScoreOf(a) == ScoreOf(b) && a.statement < b.statement)
  }

  predicate Ordered(out: seq<Row>) {
    forall i, j :: 0 <= i < j < |out| ==> Before(out[i], out[j])
  }

  /** One entry for every statement, in order, ranked from 1. */
  ghost predicate IsFused(out: seq<Row>, xs: seq<Row>, k: int)
    requires WellRanked(xs, k)
  {
    && Ids(out) == Ids(xs)
    && Ordered(out)
    && forall i :: 0 <= i < |out| ==>
         out[i].rank == Some(i + 1) && exists r :: IsEntry(r, xs, k) && out[i] == r.(rank := Some(i + 1))
  }

  // ---- The accumulator ----

  type Acc = map<nat, (real, Row)>

  predicate IsAcc(acc: Acc, xs: seq<Row>, k: int)
    requires WellRanked(xs, k)
  {
    && acc.Keys == Ids(xs)
    && forall id :: id in acc ==>
         acc[id].1.statement == id && IsEntry(acc[id].1, xs, k) && acc[id].0 == Score(xs, id, k)
  }

  lemma ScoreMore(xs: seq<Row>, x: Row, id: nat, k: int)
    requires WellRanked(xs, k) && k + RankOf(x) != 0
    ensures WellRanked(xs + [x], k)
    ensures Score(xs + [x], id, k) == Score(xs, id, k) + if x.statement == id then Weight(k, RankOf(x)) else 0.0
    ensures Ids(xs + [x]) == Ids(xs) + {x.statement}
  {
    assert (xs + [x])[..|xs|] == xs;
    assert forall y :: y in xs + [x] <==> y in xs || y == x;
  }

  lemma {:induction false} ScoreAbsent(xs: seq<Row>, id: nat, k: int)
    requires WellRanked(xs, k) && id !in Ids(xs)
    ensures Score(xs, id, k) == 0.0
  {
    if xs != [] {
      var n := |xs| - 1;
      assert xs[n] in xs;
      assert forall y :: y in xs[..n] ==> y in xs;
      ScoreAbsent(xs[..n], id, k);
    }
  }

  /** A row that surfaces another statement does not change which row is kept. */
  lemma KeptMore(xs: seq<Row>, x: Row, i: nat)
    requires i < |xs| && Kept(xs, i) && (xs[i].statement == x.statement ==> RankOf(xs[i]) <= RankOf(x))
    ensures Kept(xs + [x], i)
  {
    var ys := xs + [x];
    assert forall j :: 0 <= j < |xs| ==> ys[j] == xs[j];
  }

  lemma KeptNew(xs: seq<Row>, x: Row, i: nat)
    requires i < |xs| && Kept(xs, i) && xs[i].statement == x.statement && RankOf(x) < RankOf(xs[i])
    ensures Kept(xs + [x], |xs|)
  {
    var ys := xs + [x];
    assert forall j :: 0 <= j < |xs| ==> ys[j] == xs[j];
  }

  lemma KeptFirst(xs: seq<Row>, x: Row)
    requires x.statement !in Ids(xs)
    ensures Kept(xs + [x], |xs|)
  {
    var ys := xs + [x];
    assert forall j :: 0 <= j < |xs| ==> ys[j] == xs[j] && xs[j] in xs;
  }

  lemma EntryOther(r: Row, xs: seq<Row>, x: Row, k: int)
    requires WellRanked(xs, k) && k + RankOf(x) != 0 && IsEntry(r, xs, k) && r.statement != x.statement
    ensures WellRanked(xs + [x], k) && IsEntry(r, xs + [x], k)
  {
    ScoreMore(xs, x, r.statement, k);
    var i :| 0 <= i < |xs| && xs[i].statement == r.statement && Kept(xs, i) && r == xs[i].(score := r.score);
    KeptMore(xs, x, i);
    assert (xs + [x])[i] == xs[i];
  }

  lemma EntryFirst(xs: seq<Row>, x: Row, k: int)
    requires WellRanked(xs, k) && k + RankOf(x) != 0 && x.statement !in Ids(xs)
    ensures WellRanked(xs + [x], k) && IsEntry(x.(score := Some(Weight(k, RankOf(x)))), xs + [x], k)
  {
    ScoreMore(xs, x, x.statement, k);
    ScoreAbsent(xs, x.statement, k);
    KeptFirst(xs, x);
    assert (xs + [x])[|xs|] == x;
  }

  lemma EntryAgain(r: Row, xs: seq<Row>, x: Row, k: int)
    requires WellRanked(xs, k) && k + RankOf(x) != 0 && IsEntry(r, xs, k) && r.statement == x.statement
    ensures WellRanked(xs + [x], k)
    ensures var chosen := if RankOf(x) < RankOf(r) then x else r;
            IsEntry(chosen.(score := Some(Score(xs, x.statement, k) + Weight(k, RankOf(x)))), xs + [x], k)
  {
    hide Score; hide Kept; hide Weight;
    ScoreMore(xs, x, x.statement, k);
    var i :| 0 <= i < |xs| && xs[i].statement == r.statement && Kept(xs, i) && r == xs[i].(score := r.score);
    assert (xs + [x])[i] == xs[i] && (xs + [x])[|xs|] == x;
    if RankOf(x) < RankOf(r) { KeptNew(xs, x, i); } else { KeptMore(xs, x, i); }
  }

  lemma AccMore(acc: Acc, xs: seq<Row>, x: Row, k: int, entry: (real, Row))
    requires WellRanked(xs, k) && k + RankOf(x) != 0 && IsAcc(acc, xs, k)
    requires WellRanked(xs + [x], k)
    requires entry.1.statement == x.statement && IsEntry(entry.1, xs + [x], k)
    requires entry.0 == Score(xs + [x], x.statement, k)
    ensures IsAcc(acc[x.statement := entry], xs + [x], k)
  {
    hide IsEntry; hide Score; hide Weight; hide RankOf;
    ScoreMore(xs, x, x.statement, k);
    forall id | id in acc && id != x.statement
      ensures IsEntry(acc[id].1, xs + [x], k) && acc[id].0 == Score(xs + [x], id, k)
    {
      EntryOther(acc[id].1, xs, x, k);
      ScoreMore(xs, x, id, k);
    }
  }

  lemma EmptyAcc(k: int)
    ensures IsAcc(map[], [], k)
  {
  }

  lemma AccStatements(acc: Acc, xs: seq<Row>, k: int)
    requires WellRanked(xs, k) && IsAcc(acc, xs, k)
    ensures forall id :: id in acc ==> acc[id].1.statement == id
  {
  }

  method AddRow(acc: Acc, row: Row, k: int, ghost xs: seq<Row>) returns (acc': Acc)
    requires WellRanked(xs, k) && k + RankOf(row) != 0 && IsAcc(acc, xs, k)
    ensures WellRanked(xs + [row], k) && IsAcc(acc', xs + [row], k)
  {
    hide IsEntry; hide Score; hide Kept;
    var sid := row.statement;
    var rank := RankOf(row);
    var rrf := Weight(k, rank);
    ScoreMore(xs, row, sid, k);
    var prev := if sid in acc then Some(acc[sid]) else None;
    acc' := acc - {sid};
    match prev
    case None =>
      EntryFirst(xs, row, k);
      ScoreAbsent(xs, sid, k);
      acc' := acc'[sid := (rrf, row.(score := Some(rrf)))];
      AccMore(acc, xs, row, k, acc'[sid]);
      assert acc' == acc[sid := acc'[sid]];
    case Some(entry) =>
      var newScore := entry.0 + rrf;
      var chosen := if rank < RankOf(entry.1) then row else entry.1;
      EntryAgain(entry.1, xs, row, k);
      acc' := acc'[sid := (newScore, chosen.(score := Some(newScore)))];
      AccMore(acc, xs, row, k, acc'[sid]);
      assert acc' == acc[sid := acc'[sid]];
  }

  // ---- Sorting ----

  function InsertByScore(s: seq<Row>, r: Row): seq<Row> {
    if s == [] then [r]
    else if ScoreOf(s[0]) >= ScoreOf(r) then [s[0]] + InsertByScore(s[1..], r)
    else [r] + s
  }

  /** Stable: rows of equal score stay in the order they came in. */
  function SortByScore(rows: seq<Row>): seq<Row> {
    if rows == [] then [] else InsertByScore(SortByScore(rows[..|rows| - 1]), rows[|rows| - 1])
  }

  predicate Ascending(rows: seq<Row>) {
    forall i, j :: 0 <= i < j < |rows| ==> rows[i].statement < rows[j].statement
  }

  lemma {:induction false} InsertKeeps(s: seq<Row>, r: Row, x: Row)
    ensures x in InsertByScore(s, r) <==> x in s || x == r
  {
    if s != [] {
      assert x in s <==> x == s[0] || x in s[1..];
      InsertKeeps(s[1..], r, x);
    }
  }

  lemma {:induction false} InsertOrdered(s: seq<Row>, r: Row)
    requires Ordered(s) && forall x :: x in s ==> x.statement < r.statement
    ensures Ordered(InsertByScore(s, r))
  {
    if s != [] {
      var t := s[1..];
      InsertOrdered(t, r);
      var ins := InsertByScore(t, r);
      forall j | 0 <= j < |ins| ensures ScoreOf(s[0]) >= ScoreOf(r) ==> Before(s[0], ins[j]) {
        InsertKeeps(t, r, ins[j]);
        assert s[0] in s;
        if ins[j] in t { var m :| 0 <= m < |t| && t[m] == ins[j]; assert s[m + 1] == t[m]; }
      }
      forall j | 0 <= j < |s| ensures ScoreOf(s[0]) < ScoreOf(r) ==> Before(r, s[j]) {
        if j > 0 { assert Before(s[0], s[j]); }
      }
    }
  }

  lemma {:induction false} SortKeeps(rows: seq<Row>, x: Row)
    ensures x in SortByScore(rows) <==> x in rows
  {
    if rows != [] {
      var n := |rows| - 1;
      assert x in rows <==> x in rows[..n] || x == rows[n];
      SortKeeps(rows[..n], x);
      InsertKeeps(SortByScore(rows[..n]), rows[n], x);
    }
  }

  lemma {:induction false} SortOrdered(rows: seq<Row>)
    requires Ascending(rows)
    ensures Ordered(SortByScore(rows))
  {
    if rows != [] {
      var n := |rows| - 1;
      SortOrdered(rows[..n]);
      forall x | x in SortByScore(rows[..n]) ensures x.statement < rows[n].statement {
        SortKeeps(rows[..n], x);
      }
      InsertOrdered(SortByScore(rows[..n]), rows[n]);
    }
  }

  lemma AscendingMore(rows: seq<Row>, r: Row)
    requires Ascending(rows) && forall i :: 0 <= i < |rows| ==> rows[i].statement < r.statement
    ensures Ascending(rows + [r])
  {
  }

  /** The values of the accumulator in the order of its keys. */
  method IntoValues(acc: Acc) returns (rows: seq<Row>)
    requires forall id :: id in acc ==> acc[id].1.statement == id
    ensures Ascending(rows) && forall x :: x in rows <==> x.statement in acc && x == acc[x.statement].1
  {
    rows := [];
    var left := acc.Keys;
    while left != {}
      invariant left <= acc.Keys && Ascending(rows)
      invariant forall x :: x in rows <==> x.statement in acc && x.statement !in left && x == acc[x.statement].1
      invariant forall i, id :: 0 <= i < |rows| && id in left ==> rows[i].statement < id
      decreases |left|
    {
      var id := Least(left);
      assert acc[id].1.statement == id;
      AscendingMore(rows, acc[id].1);
      rows := rows + [acc[id].1];
      left := left - {id};
    }
  }

  method Least(s: set<nat>) returns (x: nat)
    requires s != {}
    ensures x in s && forall y :: y in s ==> x <= y
  {
    x :| x in s;
    var left := s - {x};
    while left != {}
      invariant left <= s && x in s && forall y :: y in s && y !in left ==> x <= y
      decreases |left|
    {
      var y :| y in left;
      if y < x { x := y; }
      left := left - {y};
    }
  }

  method RrfFuse(modules: seq<seq<Row>>, k: int) returns (out: seq<Row>)
    requires WellRanked(Concat(modules), k)
    ensures IsFused(out, Concat(modules), k)
  {
    hide IsEntry; hide Score; hide Ordered; hide IsAcc; hide SortByScore; hide Ascending;
    var acc: Acc := map[];
    EmptyAcc(k);
    ghost var xs: seq<Row> := [];
    for m := 0 to |modules|
      invariant xs == Concat(modules[..m])
      invariant WellRanked(xs, k) && IsAcc(acc, xs, k)
    {
      ghost var before := xs;
      assert modules[..m + 1][..m] == modules[..m];
      assert Concat(modules[..m + 1]) == before + modules[m];
      PrefixRanked(modules, m + 1, k);
      for i := 0 to |modules[m]|
        invariant xs == before + modules[m][..i]
        invariant WellRanked(xs, k) && IsAcc(acc, xs, k)
      {
        assert (before + modules[m])[|before| + i] == modules[m][i];
        acc := AddRow(acc, modules[m][i], k, xs);
        assert modules[m][..i + 1] == modules[m][..i] + [modules[m][i]];
        xs := xs + [modules[m][i]];
      }
      assert modules[m][..|modules[m]|] == modules[m];
    }
    assert modules[..|modules|] == modules;
    AccStatements(acc, xs, k);
    var values := IntoValues(acc);
    out := SortByScore(values);
    ghost var sorted := out;
    SortedEntries(acc, values, xs, k);
    for i := 0 to |out|
      invariant |out| == |sorted|
      invariant forall j :: 0 <= j < i ==> out[j] == sorted[j].(rank := Some(j + 1))
      invariant forall j :: i <= j < |out| ==> out[j] == sorted[j]
    {
      out := out[i := out[i].(rank := Some(i + 1))];
    }
    RankedIsFused(out, sorted, xs, k);
  }

  lemma {:induction false} PrefixRanked(modules: seq<seq<Row>>, n: nat, k: int)
    requires n <= |modules| && WellRanked(Concat(modules), k)
    ensures WellRanked(Concat(modules[..n]), k)
    decreases |modules| - n
  {
    if n == |modules| {
      assert modules[..n] == modules;
    } else {
      PrefixRanked(modules, n + 1, k);
      var c := Concat(modules[..n]);
      assert modules[..n + 1][..n] == modules[..n];
      assert Concat(modules[..n + 1]) == c + modules[n];
      assert forall i :: 0 <= i < |c| ==> (c + modules[n])[i] == c[i];
    }
  }

  lemma SortedEntries(acc: Acc, values: seq<Row>, xs: seq<Row>, k: int)
    requires WellRanked(xs, k) && IsAcc(acc, xs, k)
    requires Ascending(values) && forall x :: x in values <==> x.statement in acc && x == acc[x.statement].1
    ensures var s := SortByScore(values);
            Ordered(s) && Ids(s) == Ids(xs) && forall i :: 0 <= i < |s| ==> IsEntry(s[i], xs, k)
  {
    hide IsEntry; hide Score; hide SortByScore;
    var s := SortByScore(values);
    SortOrdered(values);
    forall x ensures x in s <==> x.statement in acc && x == acc[x.statement].1 { SortKeeps(values, x); }
    forall id ensures id in Ids(s) <==> id in Ids(xs) {
      if id in acc { assert acc[id].1 in s; }
    }
    forall i | 0 <= i < |s| ensures IsEntry(s[i], xs, k) { assert s[i] in s; }
  }

  /** The rows of s with their positions as ranks, counted from 1. */
  predicate AreRanked(out: seq<Row>, s: seq<Row>) {
    |out| == |s| && forall i :: 0 <= i < |s| ==> out[i] == s[i].(rank := Some(i + 1))
  }

  lemma RankedOrdered(out: seq<Row>, s: seq<Row>)
    requires AreRanked(out, s) && Ordered(s)
    ensures Ordered(out)
  {
    forall i, j | 0 <= i < j < |out| ensures Before(out[i], out[j]) { assert Before(s[i], s[j]); }
  }

  lemma RankedIds(out: seq<Row>, s: seq<Row>)
    requires AreRanked(out, s)
    ensures Ids(out) == Ids(s)
  {
    forall id ensures id in Ids(out) <==> id in Ids(s) {
      if id in Ids(s) {
        var i :| 0 <= i < |s| && s[i].statement == id;
        assert out[i] in out;
      }
      if id in Ids(out) {
        var i :| 0 <= i < |out| && out[i].statement == id;
        assert s[i] in s;
      }
    }
  }

  lemma RankedEntry(out: seq<Row>, s: seq<Row>, xs: seq<Row>, k: int, i: nat)
    requires WellRanked(xs, k) && AreRanked(out, s) && i < |s| && IsEntry(s[i], xs, k)
    ensures out[i].rank == Some(i + 1) && exists r :: IsEntry(r, xs, k) && out[i] == r.(rank := Some(i + 1))
  {
    hide IsEntry;
    assert IsEntry(s[i], xs, k) && out[i] == s[i].(rank := Some(i + 1));
  }

  lemma RankedIsFused(out: seq<Row>, s: seq<Row>, xs: seq<Row>, k: int)
    requires WellRanked(xs, k) && AreRanked(out, s)
    requires Ordered(s) && Ids(s) == Ids(xs) && forall i :: 0 <= i < |s| ==> IsEntry(s[i], xs, k)
    ensures IsFused(out, xs, k)
  {
    hide IsEntry; hide Ordered; hide Ids; hide AreRanked;
    RankedOrdered(out, s);
    RankedIds(out, s);
    assert |out| == |s| by { RankedLength(out, s); }
    forall i | 0 <= i < |out|
      ensures out[i].rank == Some(i + 1) && exists r :: IsEntry(r, xs, k) && out[i] == r.(rank := Some(i + 1))
    {
      RankedEntry(out, s, xs, k, i);
    }
  }

  lemma RankedLength(out: seq<Row>, s: seq<Row>)
    requires AreRanked(out, s)
    ensures |out| == |s|
  {
  }
}
