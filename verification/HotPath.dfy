/** The overlay tables of a recall, and the writes each returned row causes in them. */
module HotPath {
  import opened Common
  import opened Fusion
  import opened MemoryState

  // ---- The overlay tables ----

  datatype Record = Record(id: nat, iri: string, rootStatement: Option<nat>, created: int)

  datatype AccessKind = Retrieved | Surfaced | Cited | Ignored | Corrected

  datatype Access = Access(
    record: nat, actor: string, kind: AccessKind, queryHash: string, rank: Option<int>, score: Option<real>, at: int)

  /** record_id is the primary key. */
  predicate Keyed(records: seq<Record>) {
    forall i, j :: 0 <= i < j < |records| ==> records[i].id != records[j].id
  }

  /** The latest record anchored to a statement. */
  function FindRecord(records: seq<Record>, statement: nat): (r: Option<Record>)
    ensures r.Some? ==> r.value in records && r.value.rootStatement == Some(statement)
    ensures forall x :: x in records && x.rootStatement == Some(statement) ==> r.Some? && x.created <= r.value.created
  {
    if records == [] then None
    else
      var n := |records| - 1;
      var earlier := FindRecord(records[..n], statement);
      var last := records[n];
      assert forall x :: x in records <==> x in records[..n] || x == last;
      if last.rootStatement == Some(statement) && (earlier.None? || earlier.value.created < last.created)
      then Some(last)
      else earlier
  }

  /** Distinct statements resolve to distinct records, so one bundle meets a record at most once. */
  lemma DistinctRecords(records: seq<Record>, s: nat, t: nat)
    requires Keyed(records) && s != t
    ensures var a, b := FindRecord(records, s), FindRecord(records, t); a.Some? && b.Some? ==> a.value.id != b.value.id
  {
    var a, b := FindRecord(records, s), FindRecord(records, t);
    if a.Some? && b.Some? {
      var i :| 0 <= i < |records| && records[i] == a.value;
      var j :| 0 <= j < |records| && records[j] == b.value;
      assert i != j;
    }
  }

  // ---- The access log ----

  function RetrievedOnly(accesses: seq<Access>): seq<Access> {
    if accesses == [] then []
    else
      var last := accesses[|accesses| - 1];
      RetrievedOnly(accesses[..|accesses| - 1]) + if last.kind == Retrieved then [last] else []
  }

  /** How many times a record was retrieved, by the access log. */
  function Retrievals(accesses: seq<Access>, r: nat): nat {
    if accesses == [] then 0
    else
      var last := accesses[|accesses| - 1];
      Retrievals(accesses[..|accesses| - 1], r) + if last.record == r && last.kind == Retrieved then 1 else 0
  }

  /** How many times, at or before t. */
  function RetrievalsAt(accesses: seq<Access>, r: nat, t: int): nat {
    if accesses == [] then 0
    else
      var last := accesses[|accesses| - 1];
      RetrievalsAt(accesses[..|accesses| - 1], r, t)
      + if last.record == r && last.kind == Retrieved && last.at <= t then 1 else 0
  }

  lemma RetrievedMore(accesses: seq<Access>, a: Access)
    ensures RetrievedOnly(accesses + [a]) == RetrievedOnly(accesses) + if a.kind == Retrieved then [a] else []
  {
    assert (accesses + [a])[..|accesses|] == accesses;
  }

  lemma RetrievalsMore(accesses: seq<Access>, a: Access, r: nat, t: int)
    ensures Retrievals(accesses + [a], r)
         == Retrievals(accesses, r) + if a.record == r && a.kind == Retrieved then 1 else 0
    ensures RetrievalsAt(accesses + [a], r, t)
         == RetrievalsAt(accesses, r, t) + if a.record == r && a.kind == Retrieved && a.at <= t then 1 else 0
  {
    assert (accesses + [a])[..|accesses|] == accesses;
  }

  lemma {:induction false} RetrievedCounts(accesses: seq<Access>, r: nat, t: int)
    ensures Retrievals(RetrievedOnly(accesses), r) == Retrievals(accesses, r)
    ensures RetrievalsAt(RetrievedOnly(accesses), r, t) == RetrievalsAt(accesses, r, t)
  {
    if accesses != [] {
      var n := |accesses| - 1;
      var before := RetrievedOnly(accesses[..n]);
      hide Retrievals; hide RetrievalsAt;
      RetrievedCounts(accesses[..n], r, t);
      assert accesses == accesses[..n] + [accesses[n]];
      RetrievalsMore(accesses[..n], accesses[n], r, t);
      RetrievalsMore(before, accesses[n], r, t);
      assert RetrievedOnly(accesses) == if accesses[n].kind == Retrieved then before + [accesses[n]] else before;
    }
  }

  // ---- The writes of one row ----

  /**
    What the database does to one row's writes: which of them succeed, when the
    access is logged, and how long after it the bump runs.
   */
  datatype Writes = Writes(findOk: bool, accessOk: bool, bumpOk: bool, accessAt: int, wait: nat)

  function BumpAt(w: Writes): int { w.accessAt + w.wait }

  const SALIENCE_PER_RECALL: real := 0.1

  /** The two writes for one retrieval: the row to be logged, the instant of its bump, and which were made. */
  datatype Tracking = Tracking(access: Access, bumpAt: int, logged: bool, bumped: bool)

  function BumpOf(k: Tracking): Bump { Bump(k.access.record, SALIENCE_PER_RECALL, k.bumpAt) }

  function Logged(tracked: seq<Tracking>): seq<Access> {
    if tracked == [] then []
    else
      var last := tracked[|tracked| - 1];
      Logged(tracked[..|tracked| - 1]) + if last.logged then [last.access] else []
  }

  function Bumped(tracked: seq<Tracking>): seq<Bump> {
    if tracked == [] then []
    else
      var last := tracked[|tracked| - 1];
      Bumped(tracked[..|tracked| - 1]) + if last.bumped then [BumpOf(last)] else []
  }

  lemma TrackedMore(tracked: seq<Tracking>, k: Tracking)
    ensures Logged(tracked + [k]) == Logged(tracked) + if k.logged then [k.access] else []
    ensures Bumped(tracked + [k]) == Bumped(tracked) + if k.bumped then [BumpOf(k)] else []
  {
    assert (tracked + [k])[..|tracked|] == tracked;
  }

  /** Each is a retrieval whose bump is not before its access. */
  predicate WellTracked(tracked: seq<Tracking>) {
    forall i :: 0 <= i < |tracked| ==>
      tracked[i].access.kind == Retrieved && tracked[i].access.at <= tracked[i].bumpAt
  }

  /** No write was lost. */
  predicate Complete(tracked: seq<Tracking>) {
    forall i :: 0 <= i < |tracked| ==> tracked[i].logged && tracked[i].bumped
  }

  lemma NothingTracked(tracked: seq<Tracking>)
    ensures Complete(tracked[|tracked|..])
  {
  }

  class Overlays {
    const records: seq<Record>
    const states: StateTable
    var accesses: seq<Access>
    /** Every retrieval of a record, with what became of its writes. */
    ghost var tracked: seq<Tracking>

    ghost predicate Valid()
      reads this, states
    {
      Keyed(records) && states.Valid()
    }

    /** The bumps and the logged retrievals are those of the tracked ones. */
    ghost predicate Balanced()
      reads this, states
    {
      WellTracked(tracked) && RetrievedOnly(accesses) == Logged(tracked) && states.bumps == Bumped(tracked)
    }

    constructor (records: seq<Record>)
      requires Keyed(records)
      ensures Valid() && Balanced() && this.records == records && fresh(states)
      ensures accesses == [] && states.bumps == [] && tracked == []
    {
      this.records := records;
      states := new StateTable();
      accesses := [];
      tracked := [];
    }

    /** A failed insert leaves the log as it was; events of other kinds do not touch the balance. */
    method RecordAccess(a: Access, ok: bool)
      modifies this`accesses
      ensures accesses == old(accesses) + if ok then [a] else []
      ensures RetrievedOnly(accesses) == RetrievedOnly(old(accesses)) + if ok && a.kind == Retrieved then [a] else []
    {
      if ok {
        RetrievedMore(accesses, a);
        accesses := accesses + [a];
      }
    }

    /** The side effects of one returned row: find its record, log the access, bump its state. */
    method Track(row: Row, actor: string, queryHash: string, w: Writes) returns (rec: Option<Record>, bumped: bool)
      requires Valid() && Balanced()
      modifies this, states
      ensures Valid() && Balanced()
      ensures rec == if w.findOk then FindRecord(records, row.statement) else None
      ensures bumped <==> rec.Some? && w.bumpOk && Later(old(states.bumps), rec.value.id, BumpAt(w))
      ensures states.bumps == old(states.bumps)
        + if bumped then [Bump(rec.value.id, SALIENCE_PER_RECALL, BumpAt(w))] else []
      ensures rec.None? ==> accesses == old(accesses) && tracked == old(tracked)
      ensures rec.Some? ==>
                var a := Access(rec.value.id, actor, Retrieved, queryHash, row.rank, row.score, w.accessAt);
                && accesses == old(accesses) + (if w.accessOk then [a] else [])
                && tracked == old(tracked) + [Tracking(a, BumpAt(w), w.accessOk, bumped)]
    {
      hide Count; hide RetrievedOnly; hide Table; hide WellTimed; hide FindRecord; hide Keyed; hide Logged; hide Bumped;
      rec := if w.findOk then FindRecord(records, row.statement) else None;
      bumped := false;
      if rec.None? {
        return;
      }
      var id := rec.value.id;
      var a := Access(id, actor, Retrieved, queryHash, row.rank, row.score, w.accessAt);
      RecordAccess(a, w.accessOk);
      if w.bumpOk {
        bumped := states.BumpState(id, SALIENCE_PER_RECALL, BumpAt(w));
      }
      ghost var k := Tracking(a, BumpAt(w), w.accessOk, bumped);
      TrackedMore(tracked, k);
      tracked := tracked + [k];
    }

    /** The side effects of all returned rows; each row learns its record's IRI. */
    method Bookkeep(rows: seq<Row>, actor: string, queryHash: string, writes: seq<Writes>) returns (tagged: seq<Row>)
      requires Valid() && Balanced() && |writes| == |rows| && DistinctStatements(rows)
      modifies this, states
      ensures Valid() && Balanced()
      ensures tagged == Annotated(records, rows, writes)
      ensures forall r :: Count(old(states.bumps), r) <= Count(states.bumps, r) <= Count(old(states.bumps), r) + 1
      ensures old(tracked) <= tracked
      ensures AllReach(writes) && AllLater(old(states.bumps), writes) ==> Complete(tracked[|old(tracked)|..])
    {
      hide Count; hide RetrievedOnly; hide Table; hide WellTimed; hide Annotated; hide FindRecord; hide Balanced;
      hide Valid;
      ghost var was := states.bumps;
      ghost var met: set<nat> := {};
      tagged := [];
      AnnotatedNone(records);
      for i := 0 to |rows|
        invariant Valid() && Balanced()
        invariant tagged == Annotated(records, rows[..i], writes[..i])
        invariant forall r :: r in met ==> exists j :: 0 <= j < i && Anchors(records, rows[j].statement, r)
        invariant forall r :: Count(was, r) <= Count(states.bumps, r) <= Count(was, r) + if r in met then 1 else 0
        invariant forall b :: b in states.bumps ==> b in was || b.record in met
        invariant old(tracked) <= tracked
        invariant AllReach(writes) && AllLater(was, writes) ==> Complete(tracked[|old(tracked)|..])
      {
        ghost var bumpsBefore := states.bumps;
        var rec, bumped := Track(rows[i], actor, queryHash, writes[i]);
        assert !bumped ==> states.bumps == bumpsBefore;
        if rec.Some? {
          NotYetTracked(records, rows, i, rec.value, met) by { assert Keyed(records) by { KeyedNow(); } }
          if AllReach(writes) && AllLater(was, writes) {
            StillLater(was, bumpsBefore, met, rec.value.id, writes, i);
          }
          BumpCounts(bumpsBefore, Bump(rec.value.id, SALIENCE_PER_RECALL, BumpAt(writes[i])));
          met := met + {rec.value.id};
          assert Anchors(records, rows[i].statement, rec.value.id);
        }
        AnnotatedMore(records, rows, writes, i);
        tagged := tagged + [Annotate(rows[i], rec)];
      }
      assert rows[..|rows|] == rows && writes[..|rows|] == writes;
    }

    lemma KeyedNow()
      requires Valid()
      ensures Keyed(records)
    {
    }
  }

  /** A record this bundle has not met yet was last bumped before the bundle. */
  lemma StillLater(was: seq<Bump>, bumps: seq<Bump>, met: set<nat>, id: nat, writes: seq<Writes>, i: nat)
    requires i < |writes| && id !in met && AllLater(was, writes)
    requires forall b :: b in bumps ==> b in was || b.record in met
    ensures Later(bumps, id, BumpAt(writes[i]))
  {
    forall j | 0 <= j < |bumps| && bumps[j].record == id
      ensures bumps[j].when < BumpAt(writes[i])
    {
      assert bumps[j] in bumps;
    }
  }

  predicate Later(bumps: seq<Bump>, r: nat, now: int) {
    forall i :: 0 <= i < |bumps| && bumps[i].record == r ==> bumps[i].when < now
  }

  predicate AllReach(writes: seq<Writes>) {
    forall i :: 0 <= i < |writes| ==> writes[i].accessOk && writes[i].bumpOk
  }

  predicate AllLater(bumps: seq<Bump>, writes: seq<Writes>) {
    forall i, b :: 0 <= i < |writes| && b in bumps ==> b.when < BumpAt(writes[i])
  }

  predicate DistinctStatements(rows: seq<Row>) {
    forall i, j :: 0 <= i < j < |rows| ==> rows[i].statement != rows[j].statement
  }

  /** The record a statement resolves to has this id. */
  predicate Anchors(records: seq<Record>, statement: nat, id: nat) {
    var rec := FindRecord(records, statement);
    rec.Some? && rec.value.id == id
  }

  function Annotate(row: Row, rec: Option<Record>): Row {
    if rec.Some? then row.(recordIri := Some(rec.value.iri)) else row
  }

  /** The rows, each with the IRI of its record where one was found. */
  function Annotated(records: seq<Record>, rows: seq<Row>, writes: seq<Writes>): (r: seq<Row>)
    requires |rows| == |writes|
    ensures |r| == |rows|
  {
    seq(|rows|, i requires 0 <= i < |rows| =>
      Annotate(rows[i], if writes[i].findOk then FindRecord(records, rows[i].statement) else None))
  }

  lemma AnnotatedNone(records: seq<Record>)
    ensures Annotated(records, [], []) == []
  {
  }

  lemma AnnotatedMore(records: seq<Record>, rows: seq<Row>, writes: seq<Writes>, i: nat)
    requires |rows| == |writes| && i < |rows|
    ensures Annotated(records, rows[..i + 1], writes[..i + 1])
         == Annotated(records, rows[..i], writes[..i])
            + [Annotate(rows[i], if writes[i].findOk then FindRecord(records, rows[i].statement) else None)]
  {
  }

  lemma NotYetTracked(records: seq<Record>, rows: seq<Row>, i: nat, rec: Record, tracked: set<nat>)
    requires Keyed(records) && DistinctStatements(rows) && i < |rows|
    requires FindRecord(records, rows[i].statement) == Some(rec)
    requires forall r :: r in tracked ==> exists j :: 0 <= j < i && Anchors(records, rows[j].statement, r)
    ensures rec.id !in tracked
  {
    if rec.id in tracked {
      var j :| 0 <= j < i && Anchors(records, rows[j].statement, rec.id);
      DistinctRecords(records, rows[j].statement, rows[i].statement);
      assert false;
    }
  }

  lemma BumpCounts(bumps: seq<Bump>, b: Bump)
    ensures forall r :: Count(bumps + [b], r) == Count(bumps, r) + if b.record == r then 1 else 0
  {
    forall r
      ensures Count(bumps + [b], r) == Count(bumps, r) + if b.record == r then 1 else 0
    {
      CountMore(bumps, b, r);
    }
  }

  // ---- The state table and the log ----

  /** Retrievals of r at or before t whose bump comes after t. */
  function InFlight(tracked: seq<Tracking>, r: nat, t: int): nat {
    if tracked == [] then 0
    else
      var last := tracked[|tracked| - 1];
      InFlight(tracked[..|tracked| - 1], r, t)
      + if last.access.record == r && last.access.at <= t < last.bumpAt then 1 else 0
  }

  /** Writes for r due at or before t that were lost: of the log, and of the state. */
  function LostAccesses(tracked: seq<Tracking>, r: nat, t: int): nat {
    if tracked == [] then 0
    else
      var last := tracked[|tracked| - 1];
      LostAccesses(tracked[..|tracked| - 1], r, t)
      + if last.access.record == r && last.access.at <= t && !last.logged then 1 else 0
  }

  function LostBumps(tracked: seq<Tracking>, r: nat, t: int): nat {
    if tracked == [] then 0
    else
      var last := tracked[|tracked| - 1];
      LostBumps(tracked[..|tracked| - 1], r, t)
      + if last.access.record == r && last.bumpAt <= t && !last.bumped then 1 else 0
  }

  lemma CountAtMore(h: seq<Bump>, b: Bump, r: nat, t: int)
    ensures CountAt(h + [b], r, t) == CountAt(h, r, t) + if b.record == r && b.when <= t then 1 else 0
  {
    assert (h + [b])[..|h|] == h;
  }

  /** Conservation at every instant: logged and lost accesses are bumps made, lost and still to come. */
  lemma {:induction false} TrackedBalance(tracked: seq<Tracking>, r: nat, t: int)
    requires WellTracked(tracked)
    ensures RetrievalsAt(Logged(tracked), r, t) + LostAccesses(tracked, r, t)
         == CountAt(Bumped(tracked), r, t) + LostBumps(tracked, r, t) + InFlight(tracked, r, t)
  {
    if tracked != [] {
      hide RetrievalsAt; hide CountAt;
      var n := |tracked| - 1;
      TrackedBalance(tracked[..n], r, t);
      var k, accesses, bumps := tracked[n], Logged(tracked[..n]), Bumped(tracked[..n]);
      RetrievalsMore(accesses, k.access, r, t);
      CountAtMore(bumps, BumpOf(k), r, t);
      assert Logged(tracked) == if k.logged then accesses + [k.access] else accesses;
      assert Bumped(tracked) == if k.bumped then bumps + [BumpOf(k)] else bumps;
    }
  }

  lemma {:induction false} NothingLost(tracked: seq<Tracking>, r: nat, t: int)
    requires Complete(tracked)
    ensures LostAccesses(tracked, r, t) == LostBumps(tracked, r, t) == 0
  {
    if tracked != [] { NothingLost(tracked[..|tracked| - 1], r, t); }
  }

  lemma {:induction false} AllCounted(tracked: seq<Tracking>, r: nat)
    requires WellTracked(tracked) && Complete(tracked)
    ensures Count(Bumped(tracked), r) == Retrievals(Logged(tracked), r)
  {
    if tracked != [] {
      hide Retrievals; hide Count;
      var n := |tracked| - 1;
      AllCounted(tracked[..n], r);
      RetrievalsMore(Logged(tracked[..n]), tracked[n].access, r, 0);
      CountMore(Bumped(tracked[..n]), BumpOf(tracked[n]), r);
    } else {
      assert Count([], r) == 0 && Retrievals([], r) == 0;
    }
  }

  /** At every instant: the log and the state table differ by what was lost and by the bumps still to come. */
  lemma LogAndStateBalance(o: Overlays, r: nat, t: int)
    requires o.Valid() && o.Balanced()
    ensures RetrievalsAt(o.accesses, r, t) + LostAccesses(o.tracked, r, t)
         == CountAt(o.states.bumps, r, t) + LostBumps(o.tracked, r, t) + InFlight(o.tracked, r, t)
  {
    hide Logged; hide Bumped; hide RetrievalsAt; hide CountAt; hide InFlight; hide LostAccesses; hide LostBumps;
    hide RetrievedOnly;
    TrackedBalance(o.tracked, r, t);
    RetrievedCounts(o.accesses, r, t);
  }

  /**
    When no write was lost, the version in force at any instant carries the number
    of retrievals the log has by then, less those whose bump is still to come: so
    the two agree at that instant if and only if none is.
   */
  lemma StateAgreesWithLogAt(o: Overlays, r: nat, t: int)
    requires o.Valid() && o.Balanced() && Complete(o.tracked)
    ensures forall p :: 0 <= p < |o.states.rows| && InForce(o.states.rows[p], r, t) ==>
              && o.states.rows[p].recallCount + InFlight(o.tracked, r, t) == RetrievalsAt(o.accesses, r, t)
              && (o.states.rows[p].recallCount == RetrievalsAt(o.accesses, r, t) <==> InFlight(o.tracked, r, t) == 0)
    ensures (forall p :: 0 <= p < |o.states.rows| ==> !InForce(o.states.rows[p], r, t)) ==>
              RetrievalsAt(o.accesses, r, t) == InFlight(o.tracked, r, t)
  {
    hide RetrievalsAt; hide CountAt; hide SumAt; hide InFlight; hide InForce; hide Version; hide Complete;
    hide WellTimed;
    LogAndStateBalance(o, r, t);
    NothingLost(o.tracked, r, t);
    TimeTravel(o.states.bumps, r, t);
  }

  /**
    And the open version of every record that was recalled carries exactly the
    number of its retrievals in the access log.
   */
  lemma StateAgreesWithLog(o: Overlays, r: nat)
    requires o.Valid() && o.Balanced() && Complete(o.tracked)
    ensures Retrievals(o.accesses, r) == Count(o.states.bumps, r)
    ensures Retrievals(o.accesses, r) > 0 ==>
              exists p :: 0 <= p < |o.states.rows| && IsOpen(o.states.rows[p], r)
                       && o.states.rows[p].recallCount == Retrievals(o.accesses, r)
  {
    hide Count; hide Retrievals; hide Sum; hide Version; hide Logged; hide Bumped; hide RetrievedOnly;
    AllCounted(o.tracked, r);
    RetrievedCounts(o.accesses, r, 0);
    if Count(o.states.bumps, r) > 0 { OneOpenVersion(o.states.bumps, r); }
  }

  lemma {:induction false} BumpedDeltas(tracked: seq<Tracking>)
    ensures forall i :: 0 <= i < |Bumped(tracked)| ==> Bumped(tracked)[i].delta == 0.1
  {
    if tracked != [] { BumpedDeltas(tracked[..|tracked| - 1]); }
  }

  lemma {:induction false} TenthOfCount(h: seq<Bump>, r: nat)
    requires forall i :: 0 <= i < |h| ==> h[i].delta == 0.1
    ensures Sum(h, r) == 0.1 * Count(h, r) as real
  {
    if h != [] { TenthOfCount(h[..|h| - 1], r); }
  }

  /** Every version of every record has a tenth of its recall count as salience. */
  lemma SalienceFollowsRecalls(o: Overlays, p: nat)
    requires o.Valid() && o.Balanced() && p < |o.states.rows|
    ensures o.states.rows[p].salience == 0.1 * o.states.rows[p].recallCount as real
  {
    hide Bumped; hide Logged; hide RetrievedOnly; hide WellTimed; hide Sum; hide Count;
    var h := o.states.bumps;
    BumpedDeltas(o.tracked);
    TenthOfCount(h[..p + 1], h[p].record);
  }
}
