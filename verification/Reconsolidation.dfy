/** The reconsolidation queue: coalescing enqueue, prioritised leases with a time to live, completion. */
module Reconsolidation {
  import opened Common

  /** Instants and durations are in the database's clock units; payloads are not modelled. */
  datatype QueueRow = QueueRow(
    record: nat, reason: string, priority: real, availableAt: int,
    claimedAt: Option<int>, claimedBy: Option<string>, completedAt: Option<int>)

  /** The table, keyed by queue_id. */
  type Rows = map<nat, QueueRow>

  datatype Item = Item(id: nat, record: nat, reason: string, priority: real)

  // ---- Enqueue ----

  /** Never claimed and not finished. */
  predicate IsOpen(row: QueueRow) {
    row.completedAt.None? && row.claimedAt.None?
  }

  predicate SameKey(a: QueueRow, b: QueueRow) {
    a.record == b.record && a.reason == b.reason
  }

  /** An open row that a new request of the same key can join. */
  predicate Absorbs(row: QueueRow, request: QueueRow, window: int) {
    IsOpen(row) && SameKey(row, request) && row.availableAt >= request.availableAt - window
  }

  function Request(record: nat, reason: string, priority: real, availableAt: int): QueueRow {
    QueueRow(record, reason, priority, availableAt, None, None, None)
  }

  /** The request joined the latest row that absorbs it, or became a new row because none does. */
  ghost predicate IsEnqueue(before: Rows, after: Rows, id: nat, request: QueueRow, window: int) {
    if exists i :: i in before && Absorbs(before[i], request, window) then
      && after == before && id in before && Absorbs(before[id], request, window)
      && forall i :: i in before && Absorbs(before[i], request, window) ==>
        before[i].availableAt <= before[id].availableAt
    else
      id !in before && after == before[id := request]
  }

  // ---- Claim ----

  /** Due, unfinished, and not under a live lease. */
  predicate Eligible(row: QueueRow, now: int, ttl: int) {
    && row.completedAt.None? && row.availableAt <= now
    && (row.claimedAt.None? || row.claimedAt.value < now - ttl)
  }

  function Available(rows: Rows, now: int, ttl: int): set<nat> {
    set id | id in rows && Eligible(rows[id], now, ttl)
  }

  /** a goes out before b. */
  predicate Precedes(a: QueueRow, b: QueueRow) {
    a.priority > b.priority || (a.priority == b.priority && a.availableAt < b.availableAt)
  }

  function Min(a: nat, b: nat): nat { if a <= b then a else b }

  /** As many of the available rows as the limit allows, none of the others preceding any of them. */
  ghost predicate IsBatch(batch: set<nat>, rows: Rows, available: set<nat>, limit: nat)
    requires available <= rows.Keys
  {
    && batch <= available && |batch| == Min(limit, |available|)
    && forall a, b :: a in available && a !in batch && b in batch ==> !Precedes(rows[a], rows[b])
  }

  function Claimed(rows: Rows, batch: set<nat>, worker: string, now: int): Rows {
    map id | id in rows ::
      if id in batch then rows[id].(claimedAt := Some(now), claimedBy := Some(worker)) else rows[id]
  }

  /** A claim takes a batch of the available rows that no other transaction has locked. */
  ghost predicate IsClaim(
    before: Rows, after: Rows, batch: set<nat>, worker: string, limit: nat, now: int, ttl: int, locked: set<nat>)
  {
    IsBatch(batch, before, Available(before, now, ttl) - locked, limit) && after == Claimed(before, batch, worker, now)
  }

  function IdsOf(items: seq<Item>): seq<nat>
    ensures |IdsOf(items)| == |items|
  {
    seq(|items|, i requires 0 <= i < |items| => items[i].id)
  }

  predicate Distinct(s: seq<nat>) { forall i, j :: 0 <= i < j < |s| ==> s[i] != s[j] }

  function Members(ids: seq<nat>): set<nat> { set id | id in ids }

  /** The item reports the row. */
  predicate HasFields(item: Item, id: nat, row: QueueRow) {
    item.id == id && item.record == row.record && item.reason == row.reason && item.priority == row.priority
  }

  function ItemOf(id: nat, row: QueueRow): Item { Item(id, row.record, row.reason, row.priority) }

  // ---- Complete ----

  /** Unconditional: an update that matches no row changes nothing, one that matches a finished row overwrites. */
  function Complete(rows: Rows, id: nat, now: int): Rows {
    if id in rows then rows[id := rows[id].(completedAt := Some(now))] else rows
  }

  lemma NoMembers()
    ensures Members([]) == {} && Distinct([])
  {
  }

  lemma MembersMore(ids: seq<nat>, id: nat)
    ensures Members(ids + [id]) == Members(ids) + {id}
    ensures Distinct(ids) && id !in Members(ids) ==> Distinct(ids + [id])
  {
  }

  // ---- The table ----

  class Queue {
    var rows: Rows

    constructor ()
      ensures rows == map[]
    {
      rows := map[];
    }

    method Enqueue(record: nat, reason: string, priority: real, availableAt: int, window: int, newId: nat)
        returns (id: nat)
      requires newId !in rows
      modifies this
      ensures IsEnqueue(old(rows), rows, id, Request(record, reason, priority, availableAt), window)
    {
      var request := Request(record, reason, priority, availableAt);
      var existing := set i | i in rows && Absorbs(rows[i], request, window);
      if existing != {} {
        id := Latest(existing);
        assert exists i :: i in rows && Absorbs(rows[i], request, window) by { assert id in existing; }
        return;
      }
      assert forall i :: i in rows && Absorbs(rows[i], request, window) ==> i in existing;
      rows := rows[newId := request];
      id := newId;
    }

    method Latest(ids: set<nat>) returns (id: nat)
      requires ids != {} && ids <= rows.Keys
      ensures id in ids && forall i :: i in ids ==> rows[i].availableAt <= rows[id].availableAt
    {
      id :| id in ids;
      var left := ids - {id};
      while left != {}
        invariant left <= ids && id in ids
        invariant forall i :: i in ids && i !in left ==> rows[i].availableAt <= rows[id].availableAt
        decreases |left|
      {
        var i :| i in left;
        if rows[i].availableAt > rows[id].availableAt { id := i; }
        left := left - {i};
      }
    }

    /** The claim query fails on a negative limit and then changes nothing; the order of the items is not promised. */
    method ClaimNextBatch(worker: string, limit: int, now: int, ttl: int, locked: set<nat>)
        returns (r: Result<seq<Item>>)
      modifies this
      ensures r.Err? <==> limit < 0
      ensures r.Err? ==> rows == old(rows)
      ensures r.Ok? ==>
                var ids := IdsOf(r.value);
                && IsClaim(old(rows), rows, Members(ids), worker, limit, now, ttl, locked)
                && Distinct(ids)
                && forall i :: 0 <= i < |ids| ==>
                     ids[i] in old(rows) && HasFields(r.value[i], ids[i], old(rows)[ids[i]])
    {
      if limit < 0 {
        return Err;
      }
      hide IsBatch; hide Eligible; hide Claimed;
      var table := rows;
      var ids := TakeFirst(Available(table, now, ttl) - locked, limit);
      var items := seq(|ids|, i requires 0 <= i < |ids| => ItemOf(ids[i], table[ids[i]]));
      assert IdsOf(items) == ids;
      rows := Claimed(table, Members(ids), worker, now);
      r := Ok(items);
    }

    method TakeFirst(available: set<nat>, limit: nat) returns (ids: seq<nat>)
      requires available <= rows.Keys
      ensures IsBatch(Members(ids), rows, available, limit)
      ensures forall i :: 0 <= i < |ids| ==> ids[i] in rows
      ensures Distinct(ids)
    {
      hide Precedes; hide Members; hide Distinct;
      ids := [];
      var left := available;
      ghost var batch: set<nat> := {};
      NoMembers();
      while left != {} && |ids| < limit
        invariant batch == Members(ids) && |batch| == |ids| <= limit
        invariant batch !! left && batch + left == available
        invariant Distinct(ids)
        invariant forall i :: 0 <= i < |ids| ==> ids[i] in rows
        invariant forall a, b :: a in left && b in batch ==> !Precedes(rows[a], rows[b])
        decreases |left|
      {
        var id := First(left);
        MembersMore(ids, id);
        ids := ids + [id];
        left := left - {id};
        batch := batch + {id};
      }
      assert |available| == |batch| + |left|;
      assert forall a :: a in available && a !in batch ==> a in left;
    }

    method First(ids: set<nat>) returns (id: nat)
      requires ids != {} && ids <= rows.Keys
      ensures id in ids && forall i :: i in ids ==> !Precedes(rows[i], rows[id])
    {
      id :| id in ids;
      var left := ids - {id};
      while left != {}
        invariant left <= ids && id in ids
        invariant forall i :: i in ids && i !in left ==> !Precedes(rows[i], rows[id])
        decreases |left|
      {
        var i :| i in left;
        if Precedes(rows[i], rows[id]) { id := i; }
        left := left - {i};
      }
    }

    method CompleteQueueItem(id: nat, now: int)
      modifies this
      ensures rows == Complete(old(rows), id, now)
      ensures rows.Keys == old(rows).Keys
      ensures forall i :: i in rows ==>
                rows[i] == if i == id then old(rows)[i].(completedAt := Some(now)) else old(rows)[i]
    {
      if id in rows {
        rows := rows[id := rows[id].(completedAt := Some(now))];
      }
    }
  }

  // ---- Coalescing ----

  /** Open rows of one key are more than the window apart. */
  ghost predicate Spaced(rows: Rows, window: int) {
    forall a, b :: a in rows && b in rows && a != b && IsOpen(rows[a]) && IsOpen(rows[b]) ==>
      SameKey(rows[a], rows[b]) ==> Distance(rows[a], rows[b]) > window
  }

  function Distance(a: QueueRow, b: QueueRow): int {
    if a.availableAt <= b.availableAt then b.availableAt - a.availableAt else a.availableAt - b.availableAt
  }

  /** With a fixed window, every operation on the queue keeps the open rows of a key spaced. */
  lemma EnqueueSpaced(before: Rows, after: Rows, id: nat, request: QueueRow, window: int)
    requires IsEnqueue(before, after, id, request, window) && Spaced(before, window)
    ensures Spaced(after, window)
  {
  }

  /** A claim opens no row: what is open afterwards was open before and is unchanged. */
  lemma ClaimSpaced(before: Rows, batch: set<nat>, worker: string, now: int, window: int)
    requires Spaced(before, window)
    ensures Spaced(Claimed(before, batch, worker, now), window)
  {
    assert forall id :: id in before && IsOpen(Claimed(before, batch, worker, now)[id]) ==>
        Claimed(before, batch, worker, now)[id] == before[id];
  }

  lemma CompleteSpaced(before: Rows, id: nat, now: int, window: int)
    requires Spaced(before, window)
    ensures Spaced(Complete(before, id, now), window)
  {
    assert forall i :: i in before && IsOpen(Complete(before, id, now)[i]) ==>
      Complete(before, id, now)[i] == before[i];
  }

  /** All of these rows are open and have one key. */
  ghost predicate OpenTogether(rows: Rows, ids: set<nat>) {
    && (forall a :: a in ids ==> a in rows && IsOpen(rows[a]))
    && forall a, b :: a in ids && b in ids ==> SameKey(rows[a], rows[b])
  }

  lemma {:induction false} LatestOf(rows: Rows, ids: set<nat>) returns (hi: nat)
    requires ids != {} && ids <= rows.Keys
    ensures hi in ids && forall a :: a in ids ==> rows[a].availableAt <= rows[hi].availableAt
    decreases |ids|
  {
    hi :| hi in ids;
    if ids != {hi} {
      assert ids - {hi} != {};
      var other := LatestOf(rows, ids - {hi});
      if rows[other].availableAt > rows[hi].availableAt { hi := other; }
    }
  }

  lemma OneWindowMore(n: nat, window: int)
    ensures n * window == (n - 1) * window + window
  {
  }

  /** m open rows of one key span more than m - 1 windows, so a span of time holds only so many. */
  lemma {:induction false} OpenRowsSpread(rows: Rows, ids: set<nat>, window: int) returns (lo: nat, hi: nat)
    requires Spaced(rows, window) && OpenTogether(rows, ids) && |ids| >= 2
    ensures lo in ids && hi in ids && forall a :: a in ids ==> rows[a].availableAt <= rows[hi].availableAt
    ensures rows[hi].availableAt - rows[lo].availableAt > (|ids| - 1) * window
    decreases |ids|
  {
    hi := LatestOf(rows, ids);
    var rest := ids - {hi};
    assert |rest| == |ids| - 1;
    if |rest| == 1 {
      lo :| lo in rest;
      assert Distance(rows[lo], rows[hi]) > window;
    } else {
      var top: nat;
      lo, top := OpenRowsSpread(rows, rest, window);
      assert Distance(rows[top], rows[hi]) > window;
      OneWindowMore(|rest|, window);
    }
  }

  /**
    The table grows by the request if and only if every unclaimed, unfinished row
    of its record and reason is due more than a window before it; otherwise the
    id returned is that of the latest such row that is not, and nothing changes.
   */
  lemma JoinsOrAdds(before: Rows, after: Rows, id: nat, record: nat, reason: string, priority: real, availableAt: int,
                    window: int)
    requires IsEnqueue(before, after, id, Request(record, reason, priority, availableAt), window)
    ensures id !in before <==>
              forall i :: (i in before && before[i].record == record && before[i].reason == reason
                           && before[i].claimedAt == None && before[i].completedAt == None) ==>
                            before[i].availableAt < availableAt - window
    ensures id !in before ==>
              after == before[id := QueueRow(record, reason, priority, availableAt, None, None, None)]
    ensures id in before ==>
              && after == before && before[id].record == record && before[id].reason == reason
              && before[id].claimedAt == None && before[id].completedAt == None
              && before[id].availableAt >= availableAt - window
              && forall i :: (i in before && before[i].record == record && before[i].reason == reason
                              && before[i].claimedAt == None && before[i].completedAt == None) ==>
                               before[i].availableAt <= before[id].availableAt
  {
    var request := Request(record, reason, priority, availableAt);
    forall i | i in before
      ensures Absorbs(before[i], request, window) <==>
                && before[i].record == record && before[i].reason == reason
                && before[i].claimedAt == None && before[i].completedAt == None
                && before[i].availableAt >= availableAt - window
    {
    }
  }

  /**
    A claim takes rows that are unfinished, due, not locked, and never claimed or
    claimed more than the time to live ago; as many as the limit allows. What it
    leaves behind is of lower priority than anything it takes, or of the same and
    due no earlier. It stamps exactly what it takes with the time and the worker.
   */
  lemma ClaimTakes(before: Rows, after: Rows, batch: set<nat>, worker: string, limit: nat, now: int, ttl: int,
                   locked: set<nat>)
    requires IsClaim(before, after, batch, worker, limit, now, ttl, locked)
    ensures |batch| <= limit
    ensures forall b :: b in batch ==>
              && b in before && b !in locked && before[b].completedAt == None && before[b].availableAt <= now
              && (before[b].claimedAt.Some? ==> now - before[b].claimedAt.value > ttl)
    ensures forall a :: (a in before && a !in batch && a !in locked
                         && before[a].completedAt == None && before[a].availableAt <= now
                         && (before[a].claimedAt.Some? ==> now - before[a].claimedAt.value > ttl)) ==>
                          && |batch| == limit
                          && forall b :: b in batch ==>
                               || before[b].priority > before[a].priority
                               || (before[b].priority == before[a].priority
                                   && before[b].availableAt <= before[a].availableAt)
    ensures after.Keys == before.Keys
    ensures forall i :: i in before ==>
              after[i] == if i in batch
                          then before[i].(claimedAt := Some(now), claimedBy := Some(worker))
                          else before[i]
  {
    var available := Available(before, now, ttl) - locked;
    Smaller(batch, available);
    forall a | a in available && a !in batch ensures |batch| == limit { Smaller(batch + {a}, available); }
    forall a, b | a in available && a !in batch && b in batch ensures !Precedes(before[a], before[b]) { }
  }
}
