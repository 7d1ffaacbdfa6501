/** Composing the evidence bundle of one recall. */
module Bundle {
  import opened Common
  import opened Fusion
  import FusionLaws
  import opened HotPath

  const RRF_K: int := 60

  /** Module IRIs are numbered in the order of their strings, the order maps keep them in. */
  type Iri = nat

  datatype Query = Query(
    moduleIris: Option<seq<Iri>>, permittedOnly: bool, limit: int, holder: string, queryHash: string)

  datatype Evidence = Evidence(rows: seq<Row>, rowCount: nat, modulesUsed: seq<Iri>)

  /** What the modules answer: the i-th retrieval of the fan-out, by its position and module. */
  type Retrieve = (nat, Iri) -> Result<seq<Row>>

  /** Modules rank their rows from 1. */
  ghost predicate RanksPositive(retrieve: Retrieve) {
    forall i, iri :: retrieve(i, iri).Ok? ==> forall x :: x in retrieve(i, iri).value ==> RankOf(x) >= 1
  }

  function RowsOf(r: Result<seq<Row>>): seq<Row> {
    match r case Ok(rows) => rows case Err => []
  }

  /** A module's rows: those of its last retrieval, none if that failed. */
  function PerModule(selected: seq<Iri>, retrieve: Retrieve): map<Iri, seq<Row>> {
    if selected == [] then map[]
    else
      var n := |selected| - 1;
      PerModule(selected[..n], retrieve)[selected[n] := RowsOf(retrieve(n, selected[n]))]
  }

  predicate Increasing(keys: seq<nat>) {
    forall i, j :: 0 <= i < j < |keys| ==> keys[i] < keys[j]
  }

  /** The lists of a map in the order of its keys. */
  ghost predicate InOrder(lists: seq<seq<Row>>, keys: seq<Iri>, m: map<Iri, seq<Row>>) {
    && Increasing(keys) && (forall x :: x in keys <==> x in m)
    && |lists| == |keys| && forall i :: 0 <= i < |keys| ==> keys[i] in m && lists[i] == m[keys[i]]
  }

  function Limit(q: Query): nat { if q.limit > 0 then q.limit else 0 }

  function Top(fused: seq<Row>, q: Query): seq<Row> {
    var kept := if q.permittedOnly then Filter(fused, (r: Row) => r.allowed) else fused;
    if Limit(q) <= |kept| then kept[..Limit(q)] else kept
  }

  /** The rows of some modules, laid out in the order of their IRIs. */
  ghost predicate Gathered(xs: seq<Row>, m: map<Iri, seq<Row>>) {
    exists lists, keys :: InOrder(lists, keys, m) && xs == Concat(lists)
  }

  /** The modules asked: those named that exist, in the order named, or else all of them. */
  ghost predicate IsSelection(selected: seq<Iri>, registry: set<Iri>, q: Query) {
    match q.moduleIris
    case Some(named) => selected == Filter(named, (i: Iri) => i in registry)
    case None => Increasing(selected) && forall i :: i in selected <==> i in registry
  }

  // ---- Fan-out ----

  method SortedKeys(s: set<nat>) returns (keys: seq<nat>)
    ensures Increasing(keys) && forall x :: x in keys <==> x in s
    ensures forall i, j :: 0 <= i < j < |keys| ==> keys[i] < keys[j]
  {
    keys := [];
    var left := s;
    while left != {}
      invariant left <= s && Increasing(keys)
      invariant forall x :: x in keys <==> x in s && x !in left
      invariant forall i, x :: 0 <= i < |keys| && x in left ==> keys[i] < x
      decreases |left|
    {
      var x := Least(left);
      keys := keys + [x];
      left := left - {x};
    }
  }

  /** The places of the named modules that exist, in order. */
  predicate PickedAt(named: seq<Iri>, registry: set<Iri>, selected: seq<Iri>, at: seq<nat>) {
    && |at| == |selected| && Increasing(at)
    && (forall k :: 0 <= k < |at| ==> at[k] < |named| && selected[k] == named[at[k]])
    && forall i :: 0 <= i < |named| ==> (i in at <==> named[i] in registry)
  }

  lemma {:induction false} FilterPlaces(named: seq<Iri>, registry: set<Iri>) returns (at: seq<nat>)
    ensures PickedAt(named, registry, Filter(named, (i: Iri) => i in registry), at)
  {
    if named == [] {
      at := [];
    } else {
      var rest := FilterPlaces(named[1..], registry);
      hide *;
      var kept := Filter(named[1..], (i: Iri) => i in registry);
      var next := PlacesMove(named, registry, kept, rest);
      FilterFirst(named, (i: Iri) => i in registry);
      if named[0] in registry {
        at := [0] + next;
        PlacesFirst(named, registry, kept, next);
      } else {
        at := next;
        PlacesSame(named, registry, kept, next);
        assert [] + kept == kept;
      }
    }
  }

  lemma FilterFirst<T>(s: seq<T>, p: T -> bool)
    requires s != []
    ensures Filter(s, p) == (if p(s[0]) then [s[0]] else []) + Filter(s[1..], p)
  {
  }

  /** The places, from the second on, of what is kept of the tail. */
  predicate PickedLater(named: seq<Iri>, registry: set<Iri>, kept: seq<Iri>, next: seq<nat>) {
    && |next| == |kept| && Increasing(next) && 0 !in next
    && (forall k :: 0 <= k < |next| ==> next[k] < |named| && kept[k] == named[next[k]])
    && forall i :: 1 <= i < |named| ==> (i in next <==> named[i] in registry)
  }

  lemma PlacesMove(named: seq<Iri>, registry: set<Iri>, kept: seq<Iri>, rest: seq<nat>) returns (next: seq<nat>)
    requires named != [] && PickedAt(named[1..], registry, kept, rest)
    ensures PickedLater(named, registry, kept, next)
  {
    next := seq(|rest|, k requires 0 <= k < |rest| => rest[k] + 1);
    forall i | 1 <= i < |named| ensures i in next <==> named[i] in registry {
      Shifted(rest, next, i - 1);
      assert named[1..][i - 1] == named[i];
    }
  }

  lemma PlacesFirst(named: seq<Iri>, registry: set<Iri>, kept: seq<Iri>, next: seq<nat>)
    requires named != [] && named[0] in registry && PickedLater(named, registry, kept, next)
    ensures PickedAt(named, registry, [named[0]] + kept, [0] + next)
  {
    hide Increasing;
    var at := [0] + next;
    IncreasingFirst(next);
    forall k | 0 <= k < |at| ensures at[k] < |named| && ([named[0]] + kept)[k] == named[at[k]] {
      if k > 0 { assert at[k] == next[k - 1]; }
    }
    forall i | 0 <= i < |named| ensures i in at <==> named[i] in registry {
      assert i in at <==> i == 0 || i in next;
    }
  }

  lemma IncreasingFirst(next: seq<nat>)
    requires Increasing(next) && 0 !in next
    ensures Increasing([0] + next)
  {
    var at := [0] + next;
    assert forall k :: 0 < k < |at| ==> at[k] == next[k - 1] && at[k] in next;
  }

  lemma PlacesSame(named: seq<Iri>, registry: set<Iri>, kept: seq<Iri>, next: seq<nat>)
    requires named != [] && named[0] !in registry && PickedLater(named, registry, kept, next)
    ensures PickedAt(named, registry, kept, next)
  {
  }

  lemma Shifted(at: seq<nat>, next: seq<nat>, i: nat)
    requires |next| == |at| && forall k :: 0 <= k < |at| ==> next[k] == at[k] + 1
    ensures i + 1 in next <==> i in at
  {
    if i in at {
      var k :| 0 <= k < |at| && at[k] == i;
      assert next[k] == i + 1;
    }
  }

  method Select(registry: set<Iri>, q: Query) returns (selected: seq<Iri>)
    ensures IsSelection(selected, registry, q)
    ensures q.moduleIris.Some? ==> exists at :: PickedAt(q.moduleIris.value, registry, selected, at)
    ensures q.moduleIris.None? ==>
              && (forall i :: i in selected <==> i in registry)
              && forall i, j :: 0 <= i < j < |selected| ==> selected[i] < selected[j]
  {
    if q.moduleIris.Some? {
      selected := Filter(q.moduleIris.value, (i: Iri) => i in registry);
      var at := FilterPlaces(q.moduleIris.value, registry);
    } else {
      selected := SortedKeys(registry);
    }
  }

  /** i is the last retrieval of its module. */
  predicate LastAsked(selected: seq<Iri>, i: nat) {
    i < |selected| && forall j :: i < j < |selected| ==> selected[j] != selected[i]
  }

  lemma {:induction false} AskedModules(selected: seq<Iri>, retrieve: Retrieve, iri: Iri)
    ensures iri in PerModule(selected, retrieve) <==> iri in selected
  {
    if selected != [] {
      var n := |selected| - 1;
      AskedModules(selected[..n], retrieve, iri);
      assert iri in selected <==> iri in selected[..n] || iri == selected[n];
    }
  }

  /** A module asked contributes what its last retrieval answered, and nothing if that failed. */
  lemma {:induction false} LastAnswer(selected: seq<Iri>, retrieve: Retrieve, i: nat)
    requires LastAsked(selected, i)
    ensures selected[i] in PerModule(selected, retrieve)
    ensures match retrieve(i, selected[i])
            case Ok(rows) => PerModule(selected, retrieve)[selected[i]] == rows
            case Err => PerModule(selected, retrieve)[selected[i]] == []
  {
    var n := |selected| - 1;
    if i < n {
      assert forall j :: i < j < n ==> selected[..n][j] == selected[j];
      LastAnswer(selected[..n], retrieve, i);
    }
  }

  lemma AskedOnce(selected: seq<Iri>, i: nat)
    requires LastAsked(selected, i)
    ensures i < |selected|
  {
  }

  lemma NothingAsked(retrieve: Retrieve)
    ensures PerModule([], retrieve) == map[]
  {
  }

  lemma AskedMore(selected: seq<Iri>, i: nat, retrieve: Retrieve)
    requires i < |selected|
    ensures PerModule(selected[..i + 1], retrieve)
         == PerModule(selected[..i], retrieve)[selected[i] := RowsOf(retrieve(i, selected[i]))]
  {
    assert selected[..i + 1][..i] == selected[..i];
  }

  method FanOut(selected: seq<Iri>, retrieve: Retrieve) returns (perModule: map<Iri, seq<Row>>)
    ensures perModule == PerModule(selected, retrieve)
    ensures forall iri :: iri in perModule <==> iri in selected
    ensures forall i: nat :: LastAsked(selected, i) ==>
              && selected[i] in perModule
              && match retrieve(i, selected[i]) case Ok(rows) => perModule[selected[i]] == rows
                                                case Err => perModule[selected[i]] == []
  {
    hide PerModule; hide LastAsked;
    forall iri
      ensures iri in PerModule(selected, retrieve) <==> iri in selected
    {
      AskedModules(selected, retrieve, iri);
    }
    forall i: nat | LastAsked(selected, i)
      ensures i < |selected| && selected[i] in PerModule(selected, retrieve)
      ensures match retrieve(i, selected[i])
              case Ok(rows) => PerModule(selected, retrieve)[selected[i]] == rows
              case Err => PerModule(selected, retrieve)[selected[i]] == []
    {
      AskedOnce(selected, i);
      LastAnswer(selected, retrieve, i);
    }
    NothingAsked(retrieve);
    perModule := map[];
    for i := 0 to |selected|
      invariant perModule == PerModule(selected[..i], retrieve)
    {
      AskedMore(selected, i, retrieve);
      perModule := perModule[selected[i] := RowsOf(retrieve(i, selected[i]))];
    }
    assert selected[..|selected|] == selected;
  }

  ghost predicate AllPositive(m: map<Iri, seq<Row>>) {
    forall iri, x :: iri in m && x in m[iri] ==> RankOf(x) >= 1
  }

  lemma {:induction false} PerModuleRanks(selected: seq<Iri>, retrieve: Retrieve)
    requires RanksPositive(retrieve)
    ensures AllPositive(PerModule(selected, retrieve))
  {
    if selected != [] { PerModuleRanks(selected[..|selected| - 1], retrieve); }
  }

  lemma {:induction false} ConcatRanked(lists: seq<seq<Row>>)
    requires forall i, x :: 0 <= i < |lists| && x in lists[i] ==> RankOf(x) >= 1
    ensures forall x :: x in Concat(lists) ==> RankOf(x) >= 1
    ensures WellRanked(Concat(lists), RRF_K)
  {
    if lists != [] {
      var n := |lists| - 1;
      ConcatRanked(lists[..n]);
      assert lists[n] == lists[n];
      assert forall x :: x in Concat(lists) ==> x in Concat(lists[..n]) || x in lists[n];
      assert forall i :: 0 <= i < |Concat(lists)| ==> Concat(lists)[i] in Concat(lists);
    }
  }

  method Fuse(perModule: map<Iri, seq<Row>>) returns (rows: seq<Row>, xs: seq<Row>)
    requires AllPositive(perModule)
    ensures Gathered(xs, perModule) && WellRanked(xs, RRF_K) && IsFused(rows, xs, RRF_K)
  {
    hide IsFused;
    var keys := SortedKeys(perModule.Keys);
    var lists := seq(|keys|, i requires 0 <= i < |keys| => assert keys[i] in keys; perModule[keys[i]]);
    assert InOrder(lists, keys, perModule);
    ConcatRanked(lists);
    xs := Concat(lists);
    rows := RrfFuse(lists, RRF_K);
  }

  // ---- The top of the fused list ----

  /** Ranks rise along the rows. */
  predicate Rising(rows: seq<Row>) {
    forall i, j :: 0 <= i < j < |rows| ==> RankOf(rows[i]) < RankOf(rows[j])
  }

  lemma FusedRising(fused: seq<Row>, xs: seq<Row>)
    requires WellRanked(xs, RRF_K) && IsFused(fused, xs, RRF_K)
    ensures Rising(fused)
  {
    hide IsEntry; hide Ordered;
    assert forall i :: 0 <= i < |fused| ==> fused[i].rank == Some(i + 1);
  }

  lemma FusedOnce(fused: seq<Row>, xs: seq<Row>, a: Row, b: Row)
    requires WellRanked(xs, RRF_K) && IsFused(fused, xs, RRF_K)
    requires a in fused && b in fused && a.statement == b.statement
    ensures a == b
  {
    hide IsFused;
    var i :| 0 <= i < |fused| && fused[i] == a;
    var j :| 0 <= j < |fused| && fused[j] == b;
    FusionLaws.FusedScores(fused, xs, RRF_K);
  }

  lemma {:induction false} FilterKeeps<T>(t: seq<T>, p: T -> bool, x: T)
    ensures x in Filter(t, p) <==> x in t && p(x)
  {
    if t != [] {
      assert x in t <==> x == t[0] || x in t[1..];
      FilterKeeps(t[1..], p, x);
    }
  }

  lemma {:induction false} FilterRising(t: seq<Row>, p: Row -> bool)
    requires Rising(t)
    ensures Rising(Filter(t, p))
  {
    if t != [] {
      var rest := Filter(t[1..], p);
      FilterRising(t[1..], p);
      forall j | 0 <= j < |rest| ensures RankOf(t[0]) < RankOf(rest[j]) {
        FilterKeeps(t[1..], p, rest[j]);
        var m :| 0 <= m < |t| - 1 && t[1..][m] == rest[j];
        assert t[m + 1] == rest[j];
      }
    }
  }

  predicate MayReturn(x: Row, q: Query) { q.permittedOnly ==> x.allowed }

  /** All rows the query may return, in fused order. */
  lemma Candidates(fused: seq<Row>, q: Query) returns (kept: seq<Row>)
    requires Rising(fused)
    ensures Rising(kept) && forall x :: x in kept <==> x in fused && MayReturn(x, q)
    ensures kept == if q.permittedOnly then Filter(fused, (r: Row) => r.allowed) else fused
  {
    kept := fused;
    if q.permittedOnly {
      kept := Filter(fused, (r: Row) => r.allowed);
      FilterRising(fused, (r: Row) => r.allowed);
      forall x ensures x in kept <==> x in fused && x.allowed { FilterKeeps(fused, (r: Row) => r.allowed, x); }
    }
  }

  /**
    Ranks rise along the bundle, it holds only rows the query may return, and
    a missing row that it may return ranks below a bundle that is full.
   */
  lemma TopIsBest(fused: seq<Row>, xs: seq<Row>, q: Query)
    requires WellRanked(xs, RRF_K) && IsFused(fused, xs, RRF_K)
    ensures forall i, j :: 0 <= i < j < |Top(fused, q)| ==>
              && Top(fused, q)[i].statement != Top(fused, q)[j].statement
              && RankOf(Top(fused, q)[i]) < RankOf(Top(fused, q)[j])
    ensures if q.limit <= 0 then Top(fused, q) == [] else |Top(fused, q)| <= q.limit
    ensures forall x :: x in Top(fused, q) ==> x in fused && (q.permittedOnly ==> x.allowed)
    ensures forall x, y ::
              && x in fused && (q.permittedOnly ==> x.allowed)
              && x !in Top(fused, q) && y in Top(fused, q) ==>
              RankOf(y) < RankOf(x)
    ensures (exists x :: x in fused && (q.permittedOnly ==> x.allowed) && x !in Top(fused, q)) ==>
              q.limit <= 0 || |Top(fused, q)| == q.limit
  {
    hide IsFused; hide Filter; hide RankOf;
    FusedRising(fused, xs);
    var kept := Candidates(fused, q);
    var top := Top(fused, q);
    assert top == kept[..|top|];
    assert forall i :: 0 <= i < |top| ==> top[i] == kept[i] && kept[i] in kept;
    RisingPrefix(kept, |top|);
    forall i, j | 0 <= i < j < |top| ensures top[i].statement != top[j].statement {
      assert RankOf(top[i]) < RankOf(top[j]);
      if top[i].statement == top[j].statement {
        FusedOnce(fused, xs, top[i], top[j]);
        assert false;
      }
    }
  }

  lemma TopIsDistinct(fused: seq<Row>, xs: seq<Row>, q: Query)
    requires WellRanked(xs, RRF_K) && IsFused(fused, xs, RRF_K)
    ensures DistinctStatements(Top(fused, q))
  {
    hide IsFused; hide Top;
    TopIsBest(fused, xs, q);
  }

  lemma RisingPrefix(kept: seq<Row>, n: nat)
    requires Rising(kept) && n <= |kept|
    ensures Rising(kept[..n])
    ensures forall x, y :: x in kept && x !in kept[..n] && y in kept[..n] ==> RankOf(y) < RankOf(x)
    ensures (exists x :: x in kept && x !in kept[..n]) ==> n < |kept|
  {
    hide RankOf;
    assert forall m :: 0 <= m < n ==> kept[m] == kept[..n][m] && kept[m] in kept[..n];
    forall x, y | x in kept && x !in kept[..n] && y in kept[..n] ensures RankOf(y) < RankOf(x) {
      var j :| 0 <= j < |kept| && kept[j] == x;
      var i :| 0 <= i < n && kept[..n][i] == y;
    }
  }

  // ---- The composer ----

  method ComposeBundle(o: Overlays, registry: set<Iri>, q: Query, retrieve: Retrieve, writes: nat -> Writes)
      returns (bundle: Evidence, ghost xs: seq<Row>, ghost fused: seq<Row>, ghost written: seq<Writes>)
    requires o.Valid() && o.Balanced() && RanksPositive(retrieve)
    modifies o, o.states
    ensures o.Valid() && o.Balanced()
    ensures IsSelection(bundle.modulesUsed, registry, q)
    ensures Gathered(xs, PerModule(bundle.modulesUsed, retrieve))
    ensures WellRanked(xs, RRF_K) && IsFused(fused, xs, RRF_K)
    ensures |written| == |Top(fused, q)| && forall i :: 0 <= i < |written| ==> written[i] == writes(i)
    ensures bundle.rows == Annotated(o.records, Top(fused, q), written) && bundle.rowCount == |bundle.rows|
    ensures forall r :: MemoryState.Count(old(o.states.bumps), r) <= MemoryState.Count(o.states.bumps, r)
                                                                   <= MemoryState.Count(old(o.states.bumps), r) + 1
    ensures old(o.tracked) <= o.tracked
    ensures AllReach(written) && AllLater(old(o.states.bumps), written) ==> Complete(o.tracked[|old(o.tracked)|..])
  {
    hide *;
    var selected := Select(registry, q);
    if selected == [] {
      bundle := Evidence([], 0, []);
      xs, fused, written := [], [], [];
      NothingFused(retrieve, q);
      AnnotatedNone(o.records);
      NothingTracked(o.tracked);
      return;
    }
    var perModule := FanOut(selected, retrieve);
    PerModuleRanks(selected, retrieve);
    var rows;
    rows, xs := Fuse(perModule);
    fused := rows;
    TopIsDistinct(fused, xs, q);
    if q.permittedOnly {
      rows := Filter(rows, (r: Row) => r.allowed);
    }
    ghost var kept := rows;
    var limit := Limit(q);
    if limit <= |rows| {
      rows := rows[..limit];
    }
    TopUnfolds(fused, kept, q);
    var ws := seq(|rows|, i requires 0 <= i => writes(i));
    written := ws;
    if rows != [] {
      rows := o.Bookkeep(rows, q.holder, q.queryHash, ws);
    } else {
      AnnotatedNone(o.records);
      NothingTracked(o.tracked);
    }
    bundle := Evidence(rows, |rows|, selected);
  }

  lemma NothingFused(retrieve: Retrieve, q: Query)
    ensures Top([], q) == []
    ensures WellRanked([], RRF_K) && IsFused([], [], RRF_K)
    ensures Gathered([], PerModule([], retrieve))
  {
    assert InOrder([], [], PerModule([], retrieve));
  }

  lemma TopUnfolds(fused: seq<Row>, kept: seq<Row>, q: Query)
    requires kept == if q.permittedOnly then Filter(fused, (r: Row) => r.allowed) else fused
    ensures Top(fused, q) == if Limit(q) <= |kept| then kept[..Limit(q)] else kept
  {
  }

  // ---- Laws of the bundle ----

  lemma {:induction false} InConcat(lists: seq<seq<Row>>, x: Row)
    ensures x in Concat(lists) <==> exists i :: 0 <= i < |lists| && x in lists[i]
  {
    if lists != [] {
      var n := |lists| - 1;
      InConcat(lists[..n], x);
      assert forall i :: 0 <= i < n ==> lists[..n][i] == lists[i];
      assert x in Concat(lists) <==> x in Concat(lists[..n]) || x in lists[n];
    }
  }

  lemma GatheredRows(xs: seq<Row>, m: map<Iri, seq<Row>>, x: Row)
    requires Gathered(xs, m)
    ensures x in xs <==> exists iri :: iri in m && x in m[iri]
  {
    var lists, keys :| InOrder(lists, keys, m) && xs == Concat(lists);
    InConcat(lists, x);
    if iri :| iri in m && x in m[iri] {
      var p := KeyOf(lists, keys, m, iri);
      assert x in lists[p];
    }
    if i :| 0 <= i < |lists| && x in lists[i] {
      assert keys[i] in m && x in m[keys[i]];
    }
  }

  lemma {:induction false} AskedLast(selected: seq<Iri>, iri: Iri) returns (i: nat)
    requires iri in selected
    ensures LastAsked(selected, i) && selected[i] == iri
  {
    var n := |selected| - 1;
    if selected[n] == iri {
      i := n;
    } else {
      assert iri in selected[..n];
      i := AskedLast(selected[..n], iri);
    }
  }

  /** Some asked module's last answer surfaced the statement. */
  ghost predicate Surfaced(selected: seq<Iri>, retrieve: Retrieve, statement: nat) {
    exists i: nat, x :: LastAsked(selected, i) && retrieve(i, selected[i]).Ok? && x in retrieve(i, selected[i]).value
                        && x.statement == statement
  }

  /** The fused list has a row for exactly the statements that some asked module's last answer surfaced. */
  lemma FusedStatements(selected: seq<Iri>, retrieve: Retrieve, xs: seq<Row>, fused: seq<Row>, statement: nat)
    requires Gathered(xs, PerModule(selected, retrieve))
    requires WellRanked(xs, RRF_K) && IsFused(fused, xs, RRF_K)
    ensures (exists row :: row in fused && row.statement == statement) <==> Surfaced(selected, retrieve, statement)
  {
    hide Gathered; hide PerModule; hide IsFused; hide WellRanked;
    FusionLaws.FusedIds(fused, xs, RRF_K);
    assert (exists row :: row in fused && row.statement == statement) <==> statement in Ids(fused);
    assert statement in Ids(xs) <==> exists x :: x in xs && x.statement == statement;
    if x :| x in xs && x.statement == statement {
      GatheredRows(xs, PerModule(selected, retrieve), x);
      var iri :| iri in PerModule(selected, retrieve) && x in PerModule(selected, retrieve)[iri];
      AskedModules(selected, retrieve, iri);
      var i := AskedLast(selected, iri);
      LastAnswer(selected, retrieve, i);
    }
    if Surfaced(selected, retrieve, statement) {
      var i: nat, x :| LastAsked(selected, i) && retrieve(i, selected[i]).Ok? && x in retrieve(i, selected[i]).value
                       && x.statement == statement;
      LastAnswer(selected, retrieve, i);
      GatheredRows(xs, PerModule(selected, retrieve), x);
    }
  }

  /** What is returned of a row: all of it, with the IRI of its record where one was found. */
  lemma ReturnedRow(records: seq<Record>, rows: seq<Row>, written: seq<Writes>, i: nat)
    requires |rows| == |written| && i < |rows|
    ensures var r := Annotated(records, rows, written)[i];
            && r.statement == rows[i].statement && r.rank == rows[i].rank && r.score == rows[i].score
            && r.allowed == rows[i].allowed && r.body == rows[i].body
            && (written[i].findOk && (exists x :: x in records && x.rootStatement == Some(rows[i].statement)) ==>
                  exists x :: x in records && x.rootStatement == Some(rows[i].statement) && r.recordIri == Some(x.iri))
            && (!written[i].findOk || (forall x :: x in records ==> x.rootStatement != Some(rows[i].statement)) ==>
                  r.recordIri == rows[i].recordIri)
  {
    var rec := FindRecord(records, rows[i].statement);
    assert rec.Some? ==> rec.value in records && rec.value.rootStatement == Some(rows[i].statement);
  }

  /** With the constant of the bundle, two votes up to rank 61 outrank a first place, and two at rank 62 tie with it. */
  lemma BundleConstant(r: int, q: int, single: int)
    requires 1 <= r <= 61 && 1 <= q <= 61 && 1 <= single
    ensures Weight(RRF_K, r) + Weight(RRF_K, q) > Weight(RRF_K, single)
    ensures Weight(RRF_K, 62) + Weight(RRF_K, 62) == Weight(RRF_K, 1)
  {
    FusionLaws.TwoRanksOutweighOne(RRF_K, r, q, single);
    FusionLaws.NextRankTies(RRF_K);
  }

  /** A larger limit only appends rows. */
  lemma LargerLimitAppends(fused: seq<Row>, q: Query, limit: int)
    requires q.limit <= limit
    ensures Top(fused, q) <= Top(fused, q.(limit := limit))
  {
  }

  /** The rows fused are determined by what the modules answered. */
  lemma GatheredIsUnique(xs: seq<Row>, ys: seq<Row>, m: map<Iri, seq<Row>>)
    requires Gathered(xs, m) && Gathered(ys, m)
    ensures xs == ys
  {
    var lists, keys :| InOrder(lists, keys, m) && xs == Concat(lists);
    var lists2, keys2 :| InOrder(lists2, keys2, m) && ys == Concat(lists2);
    SameAscending(keys, keys2);
    assert lists == lists2;
  }

  /** When modules answer alike each time, naming one twice gives it no second vote: the fused lists are equal. */
  lemma NamingTwice(selected: seq<Iri>, again: seq<Iri>, retrieve: Retrieve, xs: seq<Row>, ys: seq<Row>, a: seq<Row>,
                    b: seq<Row>)
    requires forall i, j, iri :: retrieve(i, iri) == retrieve(j, iri)
    requires forall iri :: iri in selected <==> iri in again
    requires Gathered(xs, PerModule(selected, retrieve)) && Gathered(ys, PerModule(again, retrieve))
    requires WellRanked(xs, RRF_K) && WellRanked(ys, RRF_K) && IsFused(a, xs, RRF_K) && IsFused(b, ys, RRF_K)
    ensures a == b
  {
    hide IsFused; hide Gathered; hide PerModule;
    SameAnswers(selected, again, retrieve);
    GatheredIsUnique(xs, ys, PerModule(selected, retrieve));
    FusionLaws.FusionIsUnique(a, b, xs, RRF_K);
  }

  lemma SameAnswers(selected: seq<Iri>, again: seq<Iri>, retrieve: Retrieve)
    requires forall i, j, iri :: retrieve(i, iri) == retrieve(j, iri)
    requires forall iri :: iri in selected <==> iri in again
    ensures PerModule(selected, retrieve) == PerModule(again, retrieve)
  {
    SteadyModule(selected, retrieve);
    SteadyModule(again, retrieve);
    var a, b := PerModule(selected, retrieve), PerModule(again, retrieve);
    assert a.Keys == b.Keys;
    forall iri | iri in a ensures a[iri] == b[iri] { assert retrieve(0, iri) == retrieve(0, iri); }
  }

  lemma {:induction false} SteadyModule(selected: seq<Iri>, retrieve: Retrieve)
    requires forall i, j, iri :: retrieve(i, iri) == retrieve(j, iri)
    ensures forall iri :: iri in PerModule(selected, retrieve) <==> iri in selected
    ensures forall iri :: iri in selected ==> PerModule(selected, retrieve)[iri] == RowsOf(retrieve(0, iri))
  {
    if selected != [] {
      var n := |selected| - 1;
      SteadyModule(selected[..n], retrieve);
      assert forall iri :: iri in selected <==> iri in selected[..n] || iri == selected[n];
      assert retrieve(n, selected[n]) == retrieve(0, selected[n]);
    }
  }

  /** A module that is asked and fails each time answers nothing. */
  lemma {:induction false} FailedIsEmpty(selected: seq<Iri>, retrieve: Retrieve, iri: Iri)
    requires iri in selected && forall i :: retrieve(i, iri).Err?
    ensures iri in PerModule(selected, retrieve) && PerModule(selected, retrieve)[iri] == []
  {
    var n := |selected| - 1;
    if selected[n] == iri {
      assert retrieve(n, iri).Err?;
    } else {
      assert iri in selected[..n];
      FailedIsEmpty(selected[..n], retrieve, iri);
    }
  }

  /** Fusing with a module that failed gives the list that fusing what the others answered gives. */
  lemma FailedModuleAddsNothing(selected: seq<Iri>, retrieve: Retrieve, iri: Iri, xs: seq<Row>, ys: seq<Row>,
                                a: seq<Row>, b: seq<Row>)
    requires iri in selected && forall i :: retrieve(i, iri).Err?
    requires Gathered(xs, PerModule(selected, retrieve)) && Gathered(ys, PerModule(selected, retrieve) - {iri})
    requires WellRanked(xs, RRF_K) && WellRanked(ys, RRF_K) && IsFused(a, xs, RRF_K) && IsFused(b, ys, RRF_K)
    ensures a == b
  {
    hide IsFused; hide PerModule; hide Gathered;
    FailedIsEmpty(selected, retrieve, iri);
    GatheredWithout(xs, PerModule(selected, retrieve), iri);
    GatheredIsUnique(xs, ys, PerModule(selected, retrieve) - {iri});
    FusionLaws.FusionIsUnique(a, b, xs, RRF_K);
  }

  lemma GatheredWithout(xs: seq<Row>, m: map<Iri, seq<Row>>, iri: Iri)
    requires Gathered(xs, m) && iri in m && m[iri] == []
    ensures Gathered(xs, m - {iri})
  {
    hide InOrder;
    var lists, keys :| InOrder(lists, keys, m) && xs == Concat(lists);
    var p := KeyOf(lists, keys, m, iri);
    assert lists == lists[..p] + [[]] + lists[p + 1..];
    ConcatSkipsEmpty(lists[..p], lists[p + 1..]);
    InOrderWithout(lists, keys, m, p);
  }

  lemma KeyOf(lists: seq<seq<Row>>, keys: seq<Iri>, m: map<Iri, seq<Row>>, iri: Iri) returns (p: nat)
    requires InOrder(lists, keys, m) && iri in m
    ensures p < |keys| == |lists| && keys[p] == iri && lists[p] == m[iri]
  {
    assert iri in keys;
    p :| 0 <= p < |keys| && keys[p] == iri;
  }

  lemma KeysWithout(keys: seq<Iri>, p: nat)
    requires Increasing(keys) && p < |keys|
    ensures Increasing(RemoveAt(keys, p)) && forall x :: x in RemoveAt(keys, p) <==> x in keys && x != keys[p]
  {
    hide RemoveAt;
    RemoveAtIs(keys, p);
    var rest := RemoveAt(keys, p);
    forall i, j | 0 <= i < j < |rest| ensures rest[i] < rest[j] {
      RemovedAt(keys, p, i);
      RemovedAt(keys, p, j);
    }
    forall x ensures x in rest <==> x in keys && x != keys[p] {
      if x in keys && x != keys[p] {
        var i :| 0 <= i < |keys| && keys[i] == x;
        var q := if i < p then i else i - 1;
        RemovedAt(keys, p, q);
        assert rest[q] == x;
      }
      if x in rest {
        var i :| 0 <= i < |rest| && rest[i] == x;
        RemovedAt(keys, p, i);
      }
    }
  }

  lemma InOrderWithout(lists: seq<seq<Row>>, keys: seq<Iri>, m: map<Iri, seq<Row>>, p: nat)
    requires InOrder(lists, keys, m) && p < |keys|
    ensures InOrder(RemoveAt(lists, p), RemoveAt(keys, p), m - {keys[p]})
  {
    hide RemoveAt; hide Increasing;
    KeysWithout(keys, p);
    RemoveAtIs(keys, p);
    RemoveAtIs(lists, p);
    var rest, others := RemoveAt(keys, p), RemoveAt(lists, p);
    forall i | 0 <= i < |rest| ensures rest[i] in m && rest[i] != keys[p] && others[i] == m[rest[i]] {
      RemovedAt(keys, p, i);
      RemovedAt(lists, p, i);
      assert rest[i] in rest;
    }
  }

  lemma {:induction false} ConcatSkipsEmpty(before: seq<seq<Row>>, after: seq<seq<Row>>)
    ensures Concat(before + [[]] + after) == Concat(before + after)
    decreases |after|
  {
    if after == [] {
      assert (before + [[]] + after)[..|before|] == before == before + after;
    } else {
      var n := |after| - 1;
      assert (before + [[]] + after)[..|before| + 1 + n] == before + [[]] + after[..n];
      assert (before + after)[..|before| + n] == before + after[..n];
      ConcatSkipsEmpty(before, after[..n]);
    }
  }
}
