/** The job log: audit rows of deferred requests, the startup sweep, retention, and the queue snapshot. */
module JobLog {
  datatype Endpoint = Queued | Async | AsyncFailed | Lost

  /** Which part of the system wrote a row. The table has no such column and no query reads it. */
  datatype Origin = Handler | Task | Sweeper | Workflow

  /** `id` is the queue_id in the response, `durable` the flag beside it in a queued row. */
  datatype LogRow = LogRow(endpoint: Endpoint, id: nat, durable: bool, createdAt: int, origin: Origin)

  /** The sweep leaves rows younger than 60 seconds alone; the clock counts microseconds. */
  const SWEEP_AGE: int := 60_000_000

  predicate IsCompletion(r: LogRow, id: nat) {
    (r.endpoint == Async || r.endpoint == AsyncFailed) && r.id == id
  }

  predicate IsTerminal(r: LogRow, id: nat) {
    IsCompletion(r, id) || (r.endpoint == Lost && r.id == id)
  }

  predicate Finished(rows: seq<LogRow>, id: nat) {
    exists r :: r in rows && IsTerminal(r, id)
  }

  /** Accepted, and neither completed nor lost. */
  predicate IsPending(rows: seq<LogRow>, r: LogRow) {
    r.endpoint == Queued && !Finished(rows, r.id)
  }

  predicate IsOrphan(rows: seq<LogRow>, r: LogRow, now: int) {
    IsPending(rows, r) && !r.durable && r.createdAt < now - SWEEP_AGE
  }

  function LostRow(id: nat, now: int): LogRow { LogRow(Lost, id, false, now, Sweeper) }

  /** The lost rows the sweep adds, looking for orphans among the first n rows of the log. */
  function LostRows(rows: seq<LogRow>, n: nat, now: int): seq<LogRow>
    requires n <= |rows|
  {
    if n == 0 then []
    else LostRows(rows, n - 1, now) + if IsOrphan(rows, rows[n - 1], now) then [LostRow(rows[n - 1].id, now)] else []
  }

  function Sweep(rows: seq<LogRow>, now: int): seq<LogRow> {
    rows + LostRows(rows, |rows|, now)
  }

  /** The rows not older than the cutoff. */
  function Since(rows: seq<LogRow>, cutoff: int): seq<LogRow> {
    if rows == [] then []
    else
      var n := |rows| - 1;
      Since(rows[..n], cutoff) + if rows[n].createdAt < cutoff then [] else [rows[n]]
  }

  function PendingCount(rows: seq<LogRow>, n: nat): nat
    requires n <= |rows|
  {
    if n == 0 then 0 else PendingCount(rows, n - 1) + if IsPending(rows, rows[n - 1]) then 1 else 0
  }

  /** What the snapshot reports as safe to restart. */
  predicate DrainSafe(rows: seq<LogRow>) {
    forall r :: r in rows ==> !IsPending(rows, r)
  }

  class Table {
    var rows: seq<LogRow>

    constructor ()
      ensures rows == []
    {
      rows := [];
    }

    /** One statement: every row is judged against the log as it was before the insert. */
    method MarkOrphanedQueuedRows(now: int) returns (n: nat)
      modifies this
      ensures rows == Sweep(old(rows), now) && n == |rows| - |old(rows)|
    {
      var before := rows;
      var added: seq<LogRow> := [];
      for i := 0 to |before|
        invariant rows == before && added == LostRows(before, i, now)
      {
        if IsOrphan(before, before[i], now) {
          added := added + [LostRow(before[i].id, now)];
        }
      }
      rows := rows + added;
      n := |added|;
    }

    method PruneJobLog(cutoff: int) returns (n: nat)
      modifies this
      ensures rows == Since(old(rows), cutoff) && n == |old(rows)| - |rows|
      ensures forall r :: r in rows <==> r in old(rows) && r.createdAt >= cutoff
    {
      forall r ensures r in Since(rows, cutoff) <==> r in rows && r.createdAt >= cutoff { SinceKeeps(rows, cutoff, r); }
      var before := rows;
      var kept: seq<LogRow> := [];
      for i := 0 to |before|
        invariant rows == before && kept == Since(before[..i], cutoff) && |kept| <= i
      {
        assert before[..i + 1][..i] == before[..i];
        if before[i].createdAt >= cutoff {
          kept := kept + [before[i]];
        }
      }
      assert before[..|before|] == before;
      rows := kept;
      n := |before| - |kept|;
    }

    method Snapshot() returns (pending: nat, drainSafe: bool)
      ensures pending == PendingCount(rows, |rows|)
      ensures pending == |PendingAt(rows, |rows|)|
      ensures drainSafe <==> DrainSafe(rows)
      ensures drainSafe <==>
                forall q :: q in rows && q.endpoint == Queued ==>
                  exists t :: t in rows && t.id == q.id && t.endpoint != Queued
    {
      pending := 0;
      for i := 0 to |rows|
        invariant pending == PendingCount(rows, i)
      {
        if IsPending(rows, rows[i]) {
          pending := pending + 1;
        }
      }
      NonePending(rows, |rows|);
      PendingAreCounted(rows, |rows|);
      SettledRows(rows);
      drainSafe := pending == 0;
    }
  }

  lemma SettledRows(rows: seq<LogRow>)
    ensures DrainSafe(rows) <==>
              forall q :: q in rows && q.endpoint == Queued ==>
                exists t :: t in rows && t.id == q.id && t.endpoint != Queued
  {
    forall id ensures Finished(rows, id) <==> exists t :: t in rows && t.id == id && t.endpoint != Queued {
      if t :| t in rows && t.id == id && t.endpoint != Queued { assert IsTerminal(t, id); }
    }
  }

  lemma {:induction false} NonePending(rows: seq<LogRow>, n: nat)
    requires n <= |rows|
    ensures PendingCount(rows, n) == 0 <==> forall i :: 0 <= i < n ==> !IsPending(rows, rows[i])
  {
    hide IsPending;
    if n > 0 { NonePending(rows, n - 1); }
  }

  /**
    A row written to the log settles exactly the requests it finishes, leaves all
    others as they were, and is pending itself exactly if it is a queued row that
    nothing has finished yet.
   */
  lemma RecordSettles(rows: seq<LogRow>, r: LogRow)
    ensures forall q :: q in rows ==> (IsPending(rows + [r], q) <==> IsPending(rows, q) && !IsTerminal(r, q.id))
    ensures IsPending(rows + [r], r) <==> IsPending(rows, r)
    ensures DrainSafe(rows + [r]) <==>
              !IsPending(rows, r) && forall q :: q in rows && IsPending(rows, q) ==> IsTerminal(r, q.id)
  {
    hide IsTerminal;
    forall id
      ensures Finished(rows + [r], id) <==> Finished(rows, id) || IsTerminal(r, id)
    {
      FinishedOne(rows, r, id);
    }
    assert r.endpoint == Queued ==> !IsTerminal(r, r.id) by { QueuedIsOpen(r); }
    assert forall q :: q in rows + [r] <==> q in rows || q == r;
  }

  lemma FinishedOne(rows: seq<LogRow>, r: LogRow, id: nat)
    ensures Finished(rows + [r], id) <==> Finished(rows, id) || IsTerminal(r, id)
  {
    hide IsTerminal;
    assert forall q :: q in rows + [r] <==> q in rows || q == r;
  }

  lemma QueuedIsOpen(r: LogRow)
    ensures r.endpoint == Queued ==> !IsTerminal(r, r.id)
  {
  }

  // ---- The sweep ----

  lemma {:induction false} LostRowsAre(rows: seq<LogRow>, n: nat, now: int, r: LogRow)
    requires n <= |rows|
    ensures r in LostRows(rows, n, now) <==>
              && r.endpoint == Lost && r == LostRow(r.id, now)
              && exists i :: 0 <= i < n && IsOrphan(rows, rows[i], now) && rows[i].id == r.id
  {
    hide IsOrphan;
    if n > 0 { LostRowsAre(rows, n - 1, now, r); }
  }

  /**
    After the sweep the log holds what it held, and a lost row for exactly the ids
    that were accepted more than a minute ago, not as durable, and that no
    completion or lost row of the log names.
   */
  lemma SweepAdds(rows: seq<LogRow>, now: int, r: LogRow)
    ensures rows <= Sweep(rows, now)
    ensures r in Sweep(rows, now)[|rows|..] <==>
              && r.endpoint == Lost && r.createdAt == now && !r.durable && r.origin == Sweeper
              && (exists q ::
                    && q in rows && q.endpoint == Queued && q.id == r.id && !q.durable
                    && now - q.createdAt > 60_000_000)
              && forall t :: t in rows && t.id == r.id ==> t.endpoint == Queued
  {
    hide LostRows;
    LostRowsAre(rows, |rows|, now, r);
    assert Sweep(rows, now)[|rows|..] == LostRows(rows, |rows|, now);
    if q :| q in rows && q.endpoint == Queued && q.id == r.id && !q.durable && now - q.createdAt > 60_000_000 {
      var i :| 0 <= i < |rows| && rows[i] == q;
      assert (forall t :: t in rows && t.id == r.id ==> t.endpoint == Queued) ==> IsOrphan(rows, rows[i], now);
    }
    if i :| 0 <= i < |rows| && IsOrphan(rows, rows[i], now) && rows[i].id == r.id {
      assert rows[i] in rows;
      assert forall t :: t in rows && t.id == r.id && t.endpoint != Queued ==> IsTerminal(t, r.id);
    }
  }

  /** The rows that were accepted and that no completion or lost row of the log names. */
  ghost function PendingAt(rows: seq<LogRow>, n: nat): set<nat>
    requires n <= |rows|
  {
    set i | 0 <= i < n && rows[i].endpoint == Queued
            && forall t :: t in rows && t.id == rows[i].id ==> t.endpoint == Queued
  }

  lemma {:induction false} PendingAreCounted(rows: seq<LogRow>, n: nat)
    requires n <= |rows|
    ensures PendingCount(rows, n) == |PendingAt(rows, n)|
  {
    assert PendingAt(rows, 0) == {};
    if n > 0 {
      hide PendingAt; hide IsPending;
      PendingAreCounted(rows, n - 1);
      var i := n - 1;
      PendingMeans(rows, i);
      PendingAtMore(rows, i);
    }
  }

  lemma PendingAtMore(rows: seq<LogRow>, i: nat)
    requires i < |rows|
    ensures PendingAt(rows, i + 1) == PendingAt(rows, i) + (if i in PendingAt(rows, i + 1) then {i} else {})
    ensures i !in PendingAt(rows, i)
  {
  }

  lemma PendingMeans(rows: seq<LogRow>, i: nat)
    requires i < |rows|
    ensures IsPending(rows, rows[i]) <==> i in PendingAt(rows, i + 1)
  {
    assert rows[i] in rows;
    forall t | t in rows ensures IsTerminal(t, rows[i].id) <==> t.id == rows[i].id && t.endpoint != Queued {
    }
  }

  lemma SweepFinishes(rows: seq<LogRow>, q: LogRow, now: int)
    requires q in rows && IsOrphan(rows, q, now)
    ensures Finished(Sweep(rows, now), q.id)
  {
    hide LostRows; hide IsOrphan;
    var i :| 0 <= i < |rows| && rows[i] == q;
    LostRowsAre(rows, |rows|, now, LostRow(q.id, now));
    assert LostRow(q.id, now) in Sweep(rows, now) && IsTerminal(LostRow(q.id, now), q.id);
  }

  /** After a sweep no orphan is left, so sweeping again at once adds nothing. */
  lemma SweepCoversAll(rows: seq<LogRow>, now: int)
    ensures forall r :: r in Sweep(rows, now) ==> !IsOrphan(Sweep(rows, now), r, now)
    ensures Sweep(Sweep(rows, now), now) == Sweep(rows, now)
  {
    hide LostRows;
    var after := Sweep(rows, now);
    forall r | r in after ensures !IsOrphan(after, r, now) {
      if IsOrphan(after, r, now) {
        assert IsOrphan(rows, r, now) by { FinishedMore(rows, LostRows(rows, |rows|, now), r.id); }
        if r !in rows { LostRowsAre(rows, |rows|, now, r); assert false; }
        SweepFinishes(rows, r, now);
        assert false;
      }
    }
    NoOrphans(after, |after|, now);
  }

  /**
    The age guard decides: of the pending requests a task could have carried, the sweep
    finishes exactly the old ones.
   */
  lemma SweepIsExact(rows: seq<LogRow>, q: LogRow, now: int)
    requires q in rows && IsPending(rows, q) && !q.durable
    requires forall p :: p in rows && p.endpoint == Queued && p.id == q.id ==> p == q
    ensures Finished(Sweep(rows, now), q.id) <==> q.createdAt < now - SWEEP_AGE
  {
    hide LostRows;
    var after := Sweep(rows, now);
    if q.createdAt < now - SWEEP_AGE {
      SweepFinishes(rows, q, now);
    } else if Finished(after, q.id) {
      var t :| t in after && IsTerminal(t, q.id);
      LostRowsAre(rows, |rows|, now, t);
      assert false;
    }
  }

  lemma FinishedMore(rows: seq<LogRow>, more: seq<LogRow>, id: nat)
    ensures Finished(rows, id) ==> Finished(rows + more, id)
  {
    if Finished(rows, id) {
      var r :| r in rows && IsTerminal(r, id);
      assert r in rows + more;
    }
  }

  lemma {:induction false} NoOrphans(rows: seq<LogRow>, n: nat, now: int)
    requires n <= |rows| && forall i :: 0 <= i < n ==> !IsOrphan(rows, rows[i], now)
    ensures LostRows(rows, n, now) == []
  {
    hide IsOrphan;
    if n > 0 { NoOrphans(rows, n - 1, now); }
  }

  /** Whatever happens to the log in between, as long as its rows stay, no id is swept twice. */
  lemma NeverSweptTwice(rows: seq<LogRow>, now: int, more: seq<LogRow>, later: int, r: LogRow)
    requires r in LostRows(rows, |rows|, now)
    ensures forall q :: q in LostRows(Sweep(rows, now) + more, |Sweep(rows, now) + more|, later) ==> q.id != r.id
  {
    hide LostRows;
    var all := Sweep(rows, now) + more;
    LostRowsAre(rows, |rows|, now, r);
    assert r in all && IsTerminal(r, r.id);
    forall q | q in LostRows(all, |all|, later) ensures q.id != r.id { LostRowsAre(all, |all|, later, q); }
  }

  // ---- Retention ----

  lemma {:induction false} SinceKeeps(rows: seq<LogRow>, cutoff: int, r: LogRow)
    ensures r in Since(rows, cutoff) <==> r in rows && r.createdAt >= cutoff
  {
    if rows != [] {
      var n := |rows| - 1;
      assert r in rows <==> r in rows[..n] || r == rows[n];
      SinceKeeps(rows[..n], cutoff, r);
    }
  }

  lemma SinceMore(rows: seq<LogRow>, more: LogRow, cutoff: int)
    ensures Since(rows + [more], cutoff) == Since(rows, cutoff) + if more.createdAt < cutoff then [] else [more]
  {
    assert (rows + [more])[..|rows|] == rows;
  }

  lemma {:induction false} SinceTwice(rows: seq<LogRow>, a: int, b: int)
    ensures Since(Since(rows, a), b) == Since(rows, if a <= b then b else a)
  {
    if rows != [] {
      var n := |rows| - 1;
      SinceTwice(rows[..n], a, b);
      if rows[n].createdAt < a {
        assert Since(rows, a) == Since(rows[..n], a);
      } else {
        SinceMore(Since(rows[..n], a), rows[n], b);
      }
    }
  }

  /**
    Retention can make a finished request look pending exactly when its queued
    row is younger than everything that finished it.
   */
  lemma PruneRevives(rows: seq<LogRow>, q: LogRow)
    requires q in rows && q.endpoint == Queued && Finished(rows, q.id)
    ensures (exists cutoff :: q in Since(rows, cutoff) && IsPending(Since(rows, cutoff), q))
       <==> forall r :: r in rows && IsTerminal(r, q.id) ==> r.createdAt < q.createdAt
  {
    hide IsTerminal;
    if forall r :: r in rows && IsTerminal(r, q.id) ==> r.createdAt < q.createdAt {
      var cutoff := q.createdAt;
      SinceKeeps(rows, cutoff, q);
      forall r | r in Since(rows, cutoff) ensures !IsTerminal(r, q.id) { SinceKeeps(rows, cutoff, r); }
      assert q in Since(rows, cutoff) && IsPending(Since(rows, cutoff), q);
    } else {
      var r :| r in rows && IsTerminal(r, q.id) && r.createdAt >= q.createdAt;
      forall cutoff | q in Since(rows, cutoff) ensures !IsPending(Since(rows, cutoff), q) {
        SinceKeeps(rows, cutoff, q);
        SinceKeeps(rows, cutoff, r);
      }
    }
  }

  /** So a request whose queued row was written no later than what finished it never comes back. */
  lemma PruneKeepsFinished(rows: seq<LogRow>, q: LogRow, t: LogRow, cutoff: int, now: int)
    requires q in rows && t in rows && IsTerminal(t, q.id) && q.createdAt <= t.createdAt
    ensures q in Since(rows, cutoff) ==> !IsPending(Since(rows, cutoff), q) && !IsOrphan(Since(rows, cutoff), q, now)
  {
    SinceKeeps(rows, cutoff, q);
    SinceKeeps(rows, cutoff, t);
  }
}
