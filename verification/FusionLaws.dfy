/** Laws of the fused list: it is unique, independent of grouping, and rewards agreement and rank. */
module FusionLaws {
  import opened Common
  import opened Fusion

  function Statements(out: seq<Row>): (r: seq<nat>)
    ensures |r| == |out| && forall i :: 0 <= i < |out| ==> r[i] == out[i].statement
  {
    seq(|out|, i requires 0 <= i < |out| => out[i].statement)
  }

  // ---- Uniqueness ----

  /** a comes before b when xs are fused. */
  predicate Outranks(xs: seq<Row>, k: int, a: nat, b: nat)
    requires WellRanked(xs, k)
  {
    Score(xs, a, k) > Score(xs, b, k) || (Score(xs, a, k) == Score(xs, b, k) && a < b)
  }

  lemma EntriesAgree(xs: seq<Row>, k: int, r: Row, q: Row)
    requires WellRanked(xs, k) && IsEntry(r, xs, k) && IsEntry(q, xs, k) && r.statement == q.statement
    ensures r == q
  {
    hide Score; hide RankOf;
    var i :| 0 <= i < |xs| && xs[i].statement == r.statement && Kept(xs, i) && r == xs[i].(score := r.score);
    var j :| 0 <= j < |xs| && xs[j].statement == q.statement && Kept(xs, j) && q == xs[j].(score := q.score);
    assert i == j;
  }

  lemma FusedScores(out: seq<Row>, xs: seq<Row>, k: int)
    requires WellRanked(xs, k) && IsFused(out, xs, k)
    ensures forall i :: 0 <= i < |out| ==> out[i].score == Some(Score(xs, out[i].statement, k))
    ensures forall i, j :: 0 <= i < j < |out| ==> Outranks(xs, k, out[i].statement, out[j].statement)
  {
    hide Score;
    forall i, j | 0 <= i < j < |out| ensures Outranks(xs, k, out[i].statement, out[j].statement) {
      assert Before(out[i], out[j]);
    }
  }

  /** Two lists of the same statements in outranking order are the same list. */
  lemma {:induction false} SameRanking(xs: seq<Row>, k: int, a: seq<nat>, b: seq<nat>)
    requires WellRanked(xs, k)
    requires forall i, j :: 0 <= i < j < |a| ==> Outranks(xs, k, a[i], a[j])
    requires forall i, j :: 0 <= i < j < |b| ==> Outranks(xs, k, b[i], b[j])
    requires forall x :: x in a <==> x in b
    ensures a == b
  {
    hide Score;
    assert a != [] ==> a[0] in a && a[0] in b;
    assert b != [] ==> b[0] in b && b[0] in a;
    if a != [] {
      assert a[0] == b[0];
      forall x ensures x in a[1..] <==> x in b[1..] {
        assert x in a <==> x == a[0] || x in a[1..];
        assert x in b <==> x == b[0] || x in b[1..];
        assert a[0] !in a[1..] && b[0] !in b[1..];
      }
      SameRanking(xs, k, a[1..], b[1..]);
    }
  }

  lemma StatementsAreIds(out: seq<Row>, xs: seq<Row>, x: nat)
    requires Ids(out) == Ids(xs)
    ensures x in Statements(out) <==> x in Ids(xs)
  {
    if x in Ids(out) {
      var i :| 0 <= i < |out| && out[i].statement == x;
      assert Statements(out)[i] == x;
    }
    if x in Statements(out) {
      var i :| 0 <= i < |out| && Statements(out)[i] == x;
      assert out[i] in out;
    }
  }

  lemma FusedIds(out: seq<Row>, xs: seq<Row>, k: int)
    requires WellRanked(xs, k) && IsFused(out, xs, k)
    ensures Ids(out) == Ids(xs)
  {
  }

  lemma FusedEntry(out: seq<Row>, xs: seq<Row>, k: int, i: nat) returns (r: Row)
    requires WellRanked(xs, k) && IsFused(out, xs, k) && i < |out|
    ensures IsEntry(r, xs, k) && out[i] == r.(rank := Some(i + 1))
  {
    hide IsEntry; hide Ordered;
    assert out[i].rank == Some(i + 1);
    r :| IsEntry(r, xs, k) && out[i] == r.(rank := Some(i + 1));
  }

  /** The meaning of fusion leaves no choice: rows, scores, ranks and order are all determined. */
  lemma FusionIsUnique(a: seq<Row>, b: seq<Row>, xs: seq<Row>, k: int)
    requires WellRanked(xs, k) && IsFused(a, xs, k) && IsFused(b, xs, k)
    ensures a == b
  {
    hide Score; hide IsEntry; hide Outranks; hide IsFused;
    FusedScores(a, xs, k);
    FusedScores(b, xs, k);
    assert Ids(a) == Ids(xs) == Ids(b) by { FusedIds(a, xs, k); FusedIds(b, xs, k); }
    forall x ensures x in Statements(a) <==> x in Statements(b) {
      StatementsAreIds(a, xs, x);
      StatementsAreIds(b, xs, x);
    }
    SameRanking(xs, k, Statements(a), Statements(b));
    assert |a| == |Statements(a)| == |b|;
    forall i | 0 <= i < |a| ensures a[i] == b[i] {
      var r := FusedEntry(a, xs, k, i);
      var q := FusedEntry(b, xs, k, i);
      assert r.statement == Statements(a)[i] == Statements(b)[i] == q.statement;
      EntriesAgree(xs, k, r, q);
    }
  }

  // ---- Regrouping ----

  lemma {:induction false} ScoreConcat(a: seq<Row>, b: seq<Row>, id: nat, k: int)
    requires WellRanked(a, k) && WellRanked(b, k)
    ensures WellRanked(a + b, k) && Score(a + b, id, k) == Score(a, id, k) + Score(b, id, k)
    decreases |b|
  {
    if b == [] {
      assert a + b == a;
    } else {
      var n := |b| - 1;
      assert a + b == (a + b[..n]) + [b[n]];
      ScoreConcat(a, b[..n], id, k);
      ScoreMore(a + b[..n], b[n], id, k);
    }
  }

  lemma ScoreOne(x: Row, id: nat, k: int)
    requires k + RankOf(x) != 0
    ensures Score([x], id, k) == if x.statement == id then Weight(k, RankOf(x)) else 0.0
  {
    assert [] + [x] == [x];
    ScoreMore([], x, id, k);
  }

  lemma ScoreWithout(xs: seq<Row>, i: nat, id: nat, k: int)
    requires WellRanked(xs, k) && i < |xs|
    ensures WellRanked(RemoveAt(xs, i), k)
    ensures Score(xs, id, k)
         == Score(RemoveAt(xs, i), id, k) + if xs[i].statement == id then Weight(k, RankOf(xs[i])) else 0.0
  {
    hide Score; hide RankOf;
    var a, x, b := xs[..i], xs[i], xs[i + 1..];
    assert xs == (a + [x]) + b;
    ScoreConcat(a, [x], id, k);
    ScoreConcat(a + [x], b, id, k);
    ScoreConcat(a, b, id, k);
    ScoreOne(x, id, k);
  }

  lemma {:induction false} ScoreOfPermutation(xs: seq<Row>, ys: seq<Row>, id: nat, k: int)
    requires multiset(xs) == multiset(ys) && WellRanked(xs, k)
    ensures WellRanked(ys, k) && Score(xs, id, k) == Score(ys, id, k)
    decreases |xs|
  {
    hide RankOf;
    forall i | 0 <= i < |ys| ensures k + RankOf(ys[i]) != 0 { assert ys[i] in multiset(ys); assert ys[i] in xs; }
    if xs == [] {
      assert |ys| == |multiset(ys)|;
    } else {
      assert xs[0] in multiset(xs);
      assert xs[0] in ys;
      var j :| 0 <= j < |ys| && ys[j] == xs[0];
      WithoutMultiset(xs, 0);
      WithoutMultiset(ys, j);
      ScoreWithout(xs, 0, id, k);
      ScoreWithout(ys, j, id, k);
      ScoreOfPermutation(RemoveAt(xs, 0), RemoveAt(ys, j), id, k);
    }
  }

  lemma WithoutMultiset(xs: seq<Row>, i: nat)
    requires i < |xs|
    ensures multiset(RemoveAt(xs, i)) == multiset(xs) - multiset{xs[i]}
  {
    assert xs == xs[..i] + [xs[i]] + xs[i + 1..];
  }

  /** Splitting or reordering the rows among modules changes neither the order nor the scores. */
  lemma GroupingDoesNotMatter(a: seq<Row>, xs: seq<Row>, b: seq<Row>, ys: seq<Row>, k: int)
    requires multiset(xs) == multiset(ys) && WellRanked(xs, k) && WellRanked(ys, k)
    requires IsFused(a, xs, k) && IsFused(b, ys, k)
    ensures Statements(a) == Statements(b)
    ensures forall i :: 0 <= i < |a| ==> a[i].score == b[i].score && a[i].rank == b[i].rank
  {
    hide Score; hide IsEntry; hide RankOf;
    FusedScores(a, xs, k);
    FusedScores(b, ys, k);
    forall id ensures Score(xs, id, k) == Score(ys, id, k) { ScoreOfPermutation(xs, ys, id, k); }
    forall x ensures x in Statements(a) <==> x in Statements(b) {
      StatementsAreIds(a, xs, x);
      StatementsAreIds(b, ys, x);
      SameIds(xs, ys);
    }
    forall i, j | 0 <= i < j < |b| ensures Outranks(xs, k, b[i].statement, b[j].statement) {
      assert Outranks(ys, k, b[i].statement, b[j].statement);
    }
    SameRanking(xs, k, Statements(a), Statements(b));
  }

  lemma SameIds(xs: seq<Row>, ys: seq<Row>)
    requires multiset(xs) == multiset(ys)
    ensures Ids(xs) == Ids(ys)
  {
    assert forall x :: x in xs <==> x in multiset(xs);
    assert forall x :: x in ys <==> x in multiset(ys);
  }

  // ---- Ranks and scores ----

  /** The ranks at which a statement is surfaced, in order. */
  function Ranks(xs: seq<Row>, id: nat): seq<int> {
    if xs == [] then []
    else
      var last := xs[|xs| - 1];
      Ranks(xs[..|xs| - 1], id) + if last.statement == id then [RankOf(last)] else []
  }

  predicate Positive(rs: seq<int>, k: int) { forall i :: 0 <= i < |rs| ==> k + rs[i] > 0 }

  function Weights(rs: seq<int>, k: int): real
    requires Positive(rs, k)
  {
    if rs == [] then 0.0 else Weights(rs[..|rs| - 1], k) + Weight(k, rs[|rs| - 1])
  }

  lemma {:induction false} ScoreIsWeights(xs: seq<Row>, id: nat, k: int)
    requires WellRanked(xs, k) && Positive(Ranks(xs, id), k)
    ensures Score(xs, id, k) == Weights(Ranks(xs, id), k)
  {
    if xs != [] {
      var n := |xs| - 1;
      var rs := Ranks(xs[..n], id);
      assert Positive(rs, k) by { assert forall i :: 0 <= i < |rs| ==> Ranks(xs, id)[i] == rs[i]; }
      ScoreIsWeights(xs[..n], id, k);
      if xs[n].statement == id {
        assert Ranks(xs, id)[..|rs|] == rs;
        assert Ranks(xs, id)[|rs|] == RankOf(xs[n]);
      } else {
        assert Ranks(xs, id) == rs;
      }
    }
  }

  lemma Product(c: real, x: real, y: real)
    requires c > 0.0 && x < y
    ensures c * x < c * y
  {
  }

  lemma InverseIs(a: real, y: real)
    requires y > 0.0 && a * y == 1.0
    ensures a == 1.0 / y
  {
    var b := 1.0 / y;
    assert b * y == 1.0;
    if a < b { Product(y, a, b); }
    if b < a { Product(y, b, a); }
  }

  lemma PositiveFactor(p: real, x: real)
    requires x > 0.0 && p * x > 0.0
    ensures p > 0.0
  {
  }

  lemma InverseFalls(x: real, y: real)
    requires 0.0 < x < y
    ensures 1.0 / x > 1.0 / y > 0.0
  {
    var a, b := 1.0 / x, 1.0 / y;
    assert a * x == 1.0 && b * y == 1.0;
    assert b > 0.0;
    Product(b, x, y);
    assert (a - b) * x == a * x - b * x;
    PositiveFactor(a - b, x);
  }

  lemma WeightFalls(k: int, r: int, q: int)
    requires k + r > 0 && r <= q
    ensures Weight(k, r) >= Weight(k, q) > 0.0
    ensures r < q ==> Weight(k, r) > Weight(k, q)
  {
    var x, y := (k + r) as real, (k + q) as real;
    if r < q { InverseFalls(x, y); } else { InverseFalls(x, x + 1.0); }
  }

  lemma {:induction false} WeightsConcat(rs: seq<int>, qs: seq<int>, k: int)
    requires Positive(rs, k) && Positive(qs, k)
    ensures Positive(rs + qs, k) && Weights(rs + qs, k) == Weights(rs, k) + Weights(qs, k)
    decreases |qs|
  {
    if qs == [] {
      assert rs + qs == rs;
    } else {
      var n := |qs| - 1;
      WeightsConcat(rs, qs[..n], k);
      assert (rs + qs)[..|rs| + n] == rs + qs[..n];
    }
  }

  lemma OneWeight(r: int, k: int)
    requires k + r > 0
    ensures Weights([r], k) == Weight(k, r)
  {
    assert [r][..0] == [];
  }

  lemma WeightsDrop(rs: seq<int>, p: nat, k: int)
    requires Positive(rs, k) && p < |rs|
    ensures Positive(RemoveAt(rs, p), k) && Weights(rs, k) == Weights(RemoveAt(rs, p), k) + Weight(k, rs[p])
  {
    hide Weights; hide Weight;
    var a, b := rs[..p], rs[p + 1..];
    assert rs == (a + [rs[p]]) + b;
    WeightsConcat(a, [rs[p]], k);
    WeightsConcat(a + [rs[p]], b, k);
    WeightsConcat(a, b, k);
    OneWeight(rs[p], k);
  }

  /** Every rank of qs is met by a rank of rs that is at least as good, each by a different one. */
  predicate Matches(rs: seq<int>, qs: seq<int>, at: seq<nat>) {
    && |at| == |qs|
    && (forall i :: 0 <= i < |at| ==> at[i] < |rs| && rs[at[i]] <= qs[i])
    && forall i, j :: 0 <= i < j < |at| ==> at[i] != at[j]
  }

  /** Besides, rs has a rank more, or one that is better than the one it meets. */
  predicate Exceeds(rs: seq<int>, qs: seq<int>, at: seq<nat>)
    requires Matches(rs, qs, at)
  {
    |rs| > |qs| || exists i :: 0 <= i < |at| && rs[at[i]] < qs[i]
  }

  ghost predicate Dominates(rs: seq<int>, qs: seq<int>) { exists at :: Matches(rs, qs, at) }

  ghost predicate Beats(rs: seq<int>, qs: seq<int>) { exists at :: Matches(rs, qs, at) && Exceeds(rs, qs, at) }

  /** The matching of the remaining ranks once p is used up. */
  function Shift(at: seq<nat>, p: nat): (r: seq<nat>)
    requires p !in at
    ensures |r| == |at| && forall i :: 0 <= i < |at| ==> r[i] == if at[i] < p then at[i] else at[i] - 1
  {
    seq(|at|, i requires 0 <= i < |at| => assert at[i] in at; if at[i] < p then at[i] else at[i] - 1)
  }

  lemma MatchesRest(rs: seq<int>, qs: seq<int>, at: seq<nat>)
    requires qs != [] && Matches(rs, qs, at)
    ensures var n := |qs| - 1;
            && at[n] !in at[..n] && Matches(RemoveAt(rs, at[n]), qs[..n], Shift(at[..n], at[n]))
            && (Exceeds(rs, qs, at) ==>
                  rs[at[n]] < qs[n] || Exceeds(RemoveAt(rs, at[n]), qs[..n], Shift(at[..n], at[n])))
  {
    var n := |qs| - 1;
    var p := at[n];
    var rest, moved := RemoveAt(rs, p), Shift(at[..n], p);
    assert forall i :: 0 <= i < n ==> rest[moved[i]] == rs[at[i]];
    if i :| 0 <= i < |at| && rs[at[i]] < qs[i] {
      if i < n { assert rest[moved[i]] < qs[..n][i]; }
    }
  }

  lemma {:induction false} PositiveWeights(rs: seq<int>, k: int)
    requires Positive(rs, k)
    ensures Weights(rs, k) >= 0.0 && (rs != [] ==> Weights(rs, k) > 0.0)
  {
    if rs != [] {
      var n := |rs| - 1;
      PositiveWeights(rs[..n], k);
      WeightFalls(k, rs[n], rs[n]);
    }
  }

  lemma {:induction false} MatchedWeights(rs: seq<int>, qs: seq<int>, at: seq<nat>, k: int)
    requires Positive(rs, k) && Positive(qs, k) && Matches(rs, qs, at)
    ensures Weights(rs, k) >= Weights(qs, k)
    ensures Exceeds(rs, qs, at) ==> Weights(rs, k) > Weights(qs, k)
    decreases |qs|
  {
    hide Weight; hide Matches; hide Exceeds;
    if qs == [] {
      PositiveWeights(rs, k);
      NothingToMatch(rs, at);
    } else {
      var n := |qs| - 1;
      assert at[n] < |rs| && rs[at[n]] <= qs[n] by { LastMatch(rs, qs, at); }
      var p := at[n];
      MatchesRest(rs, qs, at);
      WeightsDrop(rs, p, k);
      MatchedWeights(RemoveAt(rs, p), qs[..n], Shift(at[..n], p), k);
      WeightFalls(k, rs[p], qs[n]);
    }
  }

  lemma NothingToMatch(rs: seq<int>, at: seq<nat>)
    requires Matches(rs, [], at)
    ensures Exceeds(rs, [], at) ==> rs != []
  {
  }

  lemma LastMatch(rs: seq<int>, qs: seq<int>, at: seq<nat>)
    requires qs != [] && Matches(rs, qs, at)
    ensures |at| == |qs| && at[|qs| - 1] < |rs| && rs[at[|qs| - 1]] <= qs[|qs| - 1]
  {
  }

  /**
    Ranks that meet others one for one with better or equal ones score at least as high,
    and higher if they exceed them.
   */
  lemma BetterRanksScoreHigher(rs: seq<int>, qs: seq<int>, k: int)
    requires Positive(rs, k) && Positive(qs, k)
    ensures Dominates(rs, qs) ==> Weights(rs, k) >= Weights(qs, k)
    ensures Beats(rs, qs) ==> Weights(rs, k) > Weights(qs, k)
  {
    hide Weights; hide Matches; hide Exceeds;
    if Dominates(rs, qs) {
      var at :| Matches(rs, qs, at);
      MatchedWeights(rs, qs, at, k);
    }
    if Beats(rs, qs) {
      var at :| Matches(rs, qs, at) && Exceeds(rs, qs, at);
      MatchedWeights(rs, qs, at, k);
    }
  }

  predicate PositiveIn(modules: seq<seq<Row>>, id: nat, k: int) {
    forall m :: 0 <= m < |modules| ==> Positive(Ranks(modules[m], id), k)
  }

  /** In every module, a is ranked at least as well as b. */
  ghost predicate AsGoodEverywhere(modules: seq<seq<Row>>, a: nat, b: nat) {
    forall m :: 0 <= m < |modules| ==> Dominates(Ranks(modules[m], a), Ranks(modules[m], b))
  }

  /** In some module, a is ranked better than b, or only a is. */
  ghost predicate BetterSomewhere(modules: seq<seq<Row>>, a: nat, b: nat) {
    exists m :: 0 <= m < |modules| && Beats(Ranks(modules[m], a), Ranks(modules[m], b))
  }

  lemma LastModule(modules: seq<seq<Row>>, k: int)
    requires modules != [] && WellRanked(Concat(modules), k)
    ensures var n := |modules| - 1;
            && Concat(modules) == Concat(modules[..n]) + modules[n]
            && WellRanked(Concat(modules[..n]), k) && WellRanked(modules[n], k)
  {
    hide WellRanked;
    RankedParts(Concat(modules[..|modules| - 1]), modules[|modules| - 1], k);
  }

  lemma RankedParts(c: seq<Row>, d: seq<Row>, k: int)
    requires WellRanked(c + d, k)
    ensures WellRanked(c, k) && WellRanked(d, k)
  {
    hide RankOf;
    assert forall i :: 0 <= i < |c| ==> (c + d)[i] == c[i];
    assert forall i :: 0 <= i < |d| ==> (c + d)[|c| + i] == d[i];
  }

  /** Module by module: at least as good everywhere scores at least as high, and higher if better somewhere. */
  lemma {:induction false} BetterInModulesScoresHigher(modules: seq<seq<Row>>, a: nat, b: nat, k: int)
    requires WellRanked(Concat(modules), k) && PositiveIn(modules, a, k) && PositiveIn(modules, b, k)
    requires AsGoodEverywhere(modules, a, b)
    ensures Score(Concat(modules), a, k) >= Score(Concat(modules), b, k)
    ensures BetterSomewhere(modules, a, b) ==> Score(Concat(modules), a, k) > Score(Concat(modules), b, k)
  {
    hide Ranks; hide Weights; hide Dominates; hide Beats; hide WellRanked; hide Positive;
    if modules == [] {
      NoScore(a, b, k);
    } else {
      hide Score; hide Concat;
      var n := |modules| - 1;
      LastModule(modules, k);
      BetterInModulesScoresHigher(modules[..n], a, b, k);
      ScoreConcat(Concat(modules[..n]), modules[n], a, k);
      ScoreConcat(Concat(modules[..n]), modules[n], b, k);
      ScoreIsWeights(modules[n], a, k);
      ScoreIsWeights(modules[n], b, k);
      BetterRanksScoreHigher(Ranks(modules[n], a), Ranks(modules[n], b), k);
      if BetterSomewhere(modules, a, b) {
        var m :| 0 <= m < |modules| && Beats(Ranks(modules[m], a), Ranks(modules[m], b));
        if m < n { assert modules[..n][m] == modules[m]; }
      }
    }
  }

  lemma NoScore(a: nat, b: nat, k: int)
    ensures Concat([]) == [] && WellRanked([], k) && Score([], a, k) == Score([], b, k)
  {
  }

  lemma HigherScoreFirst(out: seq<Row>, xs: seq<Row>, k: int, i: nat, j: nat)
    requires WellRanked(xs, k) && IsFused(out, xs, k) && i < |out| && j < |out|
    requires Score(xs, out[i].statement, k) > Score(xs, out[j].statement, k)
    ensures i < j
  {
    hide Score;
    FusedScores(out, xs, k);
  }

  /** A statement ranked at least as well in every module, and better in one, comes out first. */
  lemma BetterRanksComeFirst(out: seq<Row>, modules: seq<seq<Row>>, k: int, i: nat, j: nat)
    requires WellRanked(Concat(modules), k) && IsFused(out, Concat(modules), k) && i < |out| && j < |out|
    requires PositiveIn(modules, out[i].statement, k) && PositiveIn(modules, out[j].statement, k)
    requires AsGoodEverywhere(modules, out[i].statement, out[j].statement)
    requires BetterSomewhere(modules, out[i].statement, out[j].statement)
    ensures i < j
  {
    hide Score; hide IsFused; hide Concat; hide PositiveIn; hide AsGoodEverywhere; hide BetterSomewhere;
    hide WellRanked;
    BetterInModulesScoresHigher(modules, out[i].statement, out[j].statement, k);
    HigherScoreFirst(out, Concat(modules), k, i, j);
  }

  lemma TwoWeights(rs: seq<int>, k: int, p: nat, q: nat)
    requires Positive(rs, k) && p < q < |rs|
    ensures Weights(rs, k) >= Weight(k, rs[p]) + Weight(k, rs[q])
  {
    hide Weights; hide Weight;
    WeightsDrop(rs, q, k);
    var rest := RemoveAt(rs, q);
    assert rest[p] == rs[p];
    WeightsDrop(rest, p, k);
    PositiveWeights(RemoveAt(rest, p), k);
  }

  /** Two ranks up to k + 1 outweigh any single rank from 1 on; with k = 60, ranks up to 61. */
  lemma TwoRanksOutweighOne(k: nat, r: int, q: int, single: int)
    requires 1 <= r <= k + 1 && 1 <= q <= k + 1 && 1 <= single
    ensures Weight(k, r) + Weight(k, q) > Weight(k, single)
  {
    WeightFalls(k, r, k + 1);
    WeightFalls(k, q, k + 1);
    WeightFalls(k, k + 1, k + 2);
    NextRankTies(k);
    WeightFalls(k, 1, single);
  }

  /** The bound is tight: at rank k + 2 two modules only tie with one first place. */
  lemma NextRankTies(k: nat)
    ensures Weight(k, k + 2) + Weight(k, k + 2) == Weight(k, 1)
  {
    var x := (k + 1) as real;
    var z := Weight(k, k + 2);
    assert (k + (k + 2)) as real == 2.0 * x;
    assert z * (2.0 * x) == 1.0;
    InverseIs(2.0 * z, x);
  }

  /** A statement that two of its votes rank up to k + 1 comes before every statement surfaced once. */
  lemma AgreementWins(out: seq<Row>, xs: seq<Row>, k: nat, i: nat, j: nat, p: nat, q: nat)
    requires WellRanked(xs, k) && IsFused(out, xs, k) && i < |out| && j < |out|
    requires var rs := Ranks(xs, out[i].statement);
             (forall m :: 0 <= m < |rs| ==> rs[m] >= 1) && p < q < |rs| && rs[p] <= k + 1 && rs[q] <= k + 1
    requires var qs := Ranks(xs, out[j].statement); |qs| == 1 && qs[0] >= 1
    ensures i < j
  {
    hide Score; hide IsFused; hide Ranks;
    var rs, qs := Ranks(xs, out[i].statement), Ranks(xs, out[j].statement);
    ScoreIsWeights(xs, out[i].statement, k);
    ScoreIsWeights(xs, out[j].statement, k);
    TwoWeights(rs, k, p, q);
    TwoRanksOutweighOne(k, rs[p], rs[q], qs[0]);
    assert qs == [qs[0]];
    OneWeight(qs[0], k);
    HigherScoreFirst(out, xs, k, i, j);
  }

  // ---- In the fields of the rows ----

  /**
    A single row gives its statement the inverse of k plus its rank, 1 if it has
    none, and other statements nothing; the scores of longer lists add up.
   */
  lemma ScoreOfOneRow(x: Row, id: nat, k: int)
    requires k + RankOf(x) != 0
    ensures var rank := match x.rank case Some(r) => r case None => 1;
            && (x.statement == id ==> Score([x], id, k) * (k + rank) as real == 1.0)
            && (x.statement != id ==> Score([x], id, k) == 0.0)
  {
    ScoreOne(x, id, k);
  }

  /**
    Row i of the fused list: ranked i + 1, and otherwise one of the rows of its
    statement, of which none has a better rank and no earlier one as good a rank.
   */
  lemma FusedRow(out: seq<Row>, xs: seq<Row>, k: int, i: nat) returns (j: nat)
    requires WellRanked(xs, k) && IsFused(out, xs, k) && i < |out|
    ensures j < |xs| && out[i].rank == Some(i + 1) && out[i].statement == xs[j].statement
    ensures out[i].allowed == xs[j].allowed && out[i].recordIri == xs[j].recordIri && out[i].body == xs[j].body
    ensures forall m :: 0 <= m < |xs| && xs[m].statement == xs[j].statement ==>
              var best := if xs[j].rank.Some? then xs[j].rank.value else 1;
              var other := if xs[m].rank.Some? then xs[m].rank.value else 1;
              if m < j then best < other else best <= other
  {
    hide Score;
    var r := FusedEntry(out, xs, k, i);
    j :| 0 <= j < |xs| && xs[j].statement == r.statement && Kept(xs, j) && r == xs[j].(score := r.score);
  }

  /** Along the fused list scores fall, and rows of equal score are in the order of their statement ids. */
  lemma FusedOrder(out: seq<Row>, xs: seq<Row>, k: int, i: nat, j: nat)
    requires WellRanked(xs, k) && IsFused(out, xs, k) && i < j < |out|
    ensures out[i].score.Some? && out[j].score.Some?
    ensures out[i].score.value > out[j].score.value
         || (out[i].score.value == out[j].score.value && out[i].statement < out[j].statement)
  {
    hide Score; hide IsFused;
    FusedScores(out, xs, k);
  }
}
