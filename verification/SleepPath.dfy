/** The sleep worker: claim a batch, process each item, complete it only after its delta was applied. */
module SleepPath {
  import opened Common
  import opened Reconsolidation

  /**
    What the database and the substrate answer while one item is processed:
    whether the record was found, whether the recall and the completing update
    succeeded, and the clock. Applying the delta never fails as a whole.
   */
  datatype Reply = Reply(record: Result<bool>, recallOk: bool, completeOk: bool, now: int)

  /** The item's record was found and its delta was applied. */
  predicate Applies(r: Reply) { r.record == Ok(true) && r.recallOk }

  predicate Finishes(r: Reply) { (Applies(r) || r.record == Ok(false)) && r.completeOk }

  ghost predicate AllFinish(replies: nat -> Reply) { forall i :: Finishes(replies(i)) }

  /** No reading of the clock is earlier than the first. */
  ghost predicate NotBefore(clock: nat -> int) { forall p :: clock(0) <= clock(p) }

  /** A row after the pass that claimed it. */
  function Processed(row: QueueRow, worker: string, now: int, r: Reply): QueueRow {
    var leased := row.(claimedAt := Some(now), claimedBy := Some(worker));
    if Finishes(r) then leased.(completedAt := Some(r.now)) else leased
  }

  function AfterPass(rows: Rows, batch: set<nat>, worker: string, now: int, replies: nat -> Reply): Rows {
    map id | id in rows :: if id in batch then Processed(rows[id], worker, now, replies(id)) else rows[id]
  }

  /** The items among ids whose delta gets applied, in order. */
  function AppliedOf(ids: seq<nat>, replies: nat -> Reply): seq<nat> {
    if ids == [] then []
    else
      var last := ids[|ids| - 1];
      AppliedOf(ids[..|ids| - 1], replies) + if Applies(replies(last)) then [last] else []
  }

  class Worker {
    const queue: Queue
    const id: string
    /** The items whose delta was applied, in order. */
    var applied: seq<nat>

    constructor (queue: Queue, id: string)
      ensures this.queue == queue && this.id == id && applied == []
    {
      this.queue, this.id := queue, id;
      applied := [];
    }

    method ProcessOne(item: Item, r: Reply) returns (ok: bool)
      modifies this, queue
      ensures r.record == Err || (r.record == Ok(true) && !r.recallOk) || !r.completeOk ==>
                !ok && queue.rows == old(queue.rows)
      ensures r.record != Ok(true) || !r.recallOk ==> applied == old(applied)
      ensures r.record == Ok(true) && r.recallOk ==> applied == old(applied) + [item.id]
      ensures r.completeOk && (r.record == Ok(false) || (r.record == Ok(true) && r.recallOk)) ==>
                && ok && queue.rows.Keys == old(queue.rows).Keys
                && forall i :: i in queue.rows ==>
                     queue.rows[i]
                     == if i == item.id then old(queue.rows)[i].(completedAt := Some(r.now)) else old(queue.rows)[i]
      ensures ok <==> Finishes(r)
      ensures applied == old(applied) + if Applies(r) then [item.id] else []
      ensures queue.rows == if ok then Complete(old(queue.rows), item.id, r.now) else old(queue.rows)
    {
      match r.record
      case Err =>
        return false;
      case Ok(found) =>
        if !found {
          if !r.completeOk { return false; }
          queue.CompleteQueueItem(item.id, r.now);
          return true;
        }
        if !r.recallOk { return false; }
        applied := applied + [item.id];
        if !r.completeOk { return false; }
        queue.CompleteQueueItem(item.id, r.now);
        return true;
    }

    /** One turn of the worker loop: Err if the claim failed, Ok(false) if nothing was due. */
    method RunPass(limit: int, ttl: int, now: int, locked: set<nat>, replies: nat -> Reply)
        returns (r: Result<bool>, ghost ids: seq<nat>)
      modifies this, queue
      ensures r.Err? <==> limit < 0
      ensures r.Err? ==> queue.rows == old(queue.rows) && applied == old(applied) && ids == []
      ensures r.Ok? ==>
                && IsBatch(Members(ids), old(queue.rows), Available(old(queue.rows), now, ttl) - locked, limit)
                && Distinct(ids) && r.value == (ids != [])
                && queue.rows == AfterPass(old(queue.rows), Members(ids), id, now, replies)
                && applied == old(applied) + AppliedOf(ids, replies)
      ensures ids == [] ==> applied == old(applied)
    {
      hide IsBatch; hide Available; hide Finishes; hide Applies; hide Members; hide Claimed; hide AfterPass;
      hide AppliedOf;
      hide Midway; hide Complete;
      ids := [];
      ghost var before := queue.rows;
      var claimed := queue.ClaimNextBatch(id, limit, now, ttl, locked);
      if claimed.Err? {
        return Err, [];
      }
      var items := claimed.value;
      ids := IdsOf(items);
      AppliedNone(replies);
      NoMembers();
      if items == [] {
        assert ids == [];
        NothingClaimed(before, id, now, replies);
        return Ok(false), ids;
      }
      ghost var was := applied;
      MidwayStart(before, Members(ids), id, now, replies);
      assert ids[..0] == [];
      for k := 0 to |items|
        invariant queue.rows == Midway(before, Members(ids), Members(ids[..k]), id, now, replies)
        invariant applied == was + AppliedOf(ids[..k], replies)
      {
        var item := items[k];
        assert item.id == ids[k];
        assert ids[..k + 1] == ids[..k] + [ids[k]];
        MembersMore(ids[..k], ids[k]);
        InMembers(ids, k);
        MidwayMore(before, Members(ids), Members(ids[..k]), ids[k], id, now, replies);
        AppliedNext(was, ids, k, replies);
        var ok := ProcessOne(item, replies(item.id));
      }
      assert ids[..|items|] == ids;
      MidwayEnd(before, Members(ids), id, now, replies);
      r := Ok(true);
    }

    /**
      The loop of a single worker until nothing is due, when no one enqueues and
      every item succeeds. Rows may come due, and leases of others run out, while
      it drains; pass p reads the clock as clock(p).
     */
    method Drain(limit: int, ttl: int, clock: nat -> int, replies: nat -> Reply)
        returns (ghost batches: seq<set<nat>>, ghost order: seq<nat>)
      requires limit >= 1
      requires NotBefore(clock)
      requires AllFinish(replies)
      modifies this, queue
      ensures Distinct(order) && Members(order) == Union(batches)
      ensures Drained(old(queue.rows), queue.rows, Members(order)) && Available(queue.rows, clock(|batches|), ttl) == {}
      ensures applied == old(applied) + AppliedOf(order, replies)
      ensures WereEligible(batches, old(queue.rows), clock, ttl)
      ensures var due := Available(old(queue.rows), clock(0), ttl);
              && due <= Members(order) && InPriorityOrder(batches, old(queue.rows), due)
              && CeilDiv(|order|, limit) <= |batches| <= CeilDiv(|due|, limit) + |Members(order) - due|
              && (Members(order) == due ==> |batches| == CeilDiv(|due|, limit))
    {
      hide *;
      ghost var before := queue.rows;
      ghost var due := Available(before, clock(0), ttl);
      ghost var was := applied;
      batches, order := [], [];
      var p := 0;
      var more := true;
      DrainStart(before, clock, ttl, limit);
      AppliedNone(replies);
      while more
        invariant Draining(before, queue.rows, due, batches, order, limit, clock, ttl)
        invariant applied == was + AppliedOf(order, replies)
        invariant if more then p == |batches| else Available(queue.rows, clock(|batches|), ttl) == {}
        decreases |before.Keys - Members(order)|, more
      {
        ghost var so := order;
        more, batches, order := DrainPass(limit, ttl, clock, replies, p, before, due, batches, order);
        AppliedAppend(was, so, order[|so|..], replies);
        assert so + order[|so|..] == order;
        p := p + 1;
      }
      DrainEnd(before, queue.rows, due, batches, order, limit, clock, ttl);
    }

    /** Pass p of a drain. */
    method DrainPass(limit: int, ttl: int, clock: nat -> int, replies: nat -> Reply, p: nat, ghost before: Rows,
                     ghost due: set<nat>, ghost batches: seq<set<nat>>, ghost order: seq<nat>)
        returns (more: bool, ghost batches': seq<set<nat>>, ghost order': seq<nat>)
      requires limit >= 1 && NotBefore(clock) && AllFinish(replies) && p == |batches|
      requires Draining(before, queue.rows, due, batches, order, limit, clock, ttl)
      modifies this, queue
      ensures Draining(before, queue.rows, due, batches', order', limit, clock, ttl)
      ensures order <= order' && applied == old(applied) + AppliedOf(order'[|order|..], replies)
      ensures if more then |batches'| == p + 1 && |before.Keys - Members(order')| < |before.Keys - Members(order)|
              else order' == order && Available(queue.rows, clock(|batches'|), ttl) == {}
    {
      hide *;
      ghost var during := queue.rows;
      ghost var available := Available(during, clock(p), ttl);
      StillDraining(before, during, due, batches, order, limit, clock, ttl);
      var r, ids := RunPass(limit, ttl, clock(p), {}, replies);
      assert available - {} == available;
      DrainStep(before, during, due, batches, order, ids, limit, id, clock, ttl, replies);
      more := r.value;
      batches', order' := batches, order;
      if more { batches', order' := batches + [Members(ids)], order + ids; }
      assert order'[|order|..] == ids;
    }
  }

  // ---- One pass, item by item ----

  /** The table while a pass is under way: the items in done have been processed. */
  function Midway(rows: Rows, batch: set<nat>, done: set<nat>, worker: string, now: int, replies: nat -> Reply): Rows {
    map id | id in rows ::
      if id in done then Processed(rows[id], worker, now, replies(id))
      else if id in batch then rows[id].(claimedAt := Some(now), claimedBy := Some(worker)) else rows[id]
  }

  lemma MidwayStart(rows: Rows, batch: set<nat>, worker: string, now: int, replies: nat -> Reply)
    ensures Midway(rows, batch, {}, worker, now, replies) == Claimed(rows, batch, worker, now)
  {
  }

  lemma MidwayMore(rows: Rows, batch: set<nat>, done: set<nat>, i: nat, worker: string, now: int, replies: nat -> Reply)
    requires i in rows && i in batch && i !in done
    ensures Midway(rows, batch, done + {i}, worker, now, replies)
         == if Finishes(replies(i)) then Complete(Midway(rows, batch, done, worker, now, replies), i, replies(i).now)
            else Midway(rows, batch, done, worker, now, replies)
  {
  }

  lemma MidwayEnd(rows: Rows, batch: set<nat>, worker: string, now: int, replies: nat -> Reply)
    ensures Midway(rows, batch, batch, worker, now, replies) == AfterPass(rows, batch, worker, now, replies)
  {
  }

  lemma NothingClaimed(rows: Rows, worker: string, now: int, replies: nat -> Reply)
    ensures Claimed(rows, {}, worker, now) == rows == AfterPass(rows, {}, worker, now, replies)
  {
  }

  lemma AppliedMore(ids: seq<nat>, i: nat, replies: nat -> Reply)
    ensures AppliedOf(ids + [i], replies) == AppliedOf(ids, replies) + if Applies(replies(i)) then [i] else []
  {
    assert (ids + [i])[..|ids|] == ids;
  }

  lemma {:induction false} AppliedConcat(s: seq<nat>, t: seq<nat>, replies: nat -> Reply)
    ensures AppliedOf(s + t, replies) == AppliedOf(s, replies) + AppliedOf(t, replies)
    decreases |t|
  {
    if t == [] {
      assert s + t == s;
    } else {
      var n := |t| - 1;
      assert s + t == (s + t[..n]) + [t[n]];
      AppliedConcat(s, t[..n], replies);
      AppliedMore(s + t[..n], t[n], replies);
    }
  }

  lemma AppliedAppend(was: seq<nat>, s: seq<nat>, t: seq<nat>, replies: nat -> Reply)
    ensures was + AppliedOf(s, replies) + AppliedOf(t, replies) == was + AppliedOf(s + t, replies)
  {
    hide AppliedOf;
    AppliedConcat(s, t, replies);
  }

  lemma AppliedNext(was: seq<nat>, ids: seq<nat>, k: nat, replies: nat -> Reply)
    requires k < |ids|
    ensures was + AppliedOf(ids[..k], replies) + (if Applies(replies(ids[k])) then [ids[k]] else [])
         == was + AppliedOf(ids[..k + 1], replies)
  {
    hide AppliedOf; hide Applies;
    assert ids[..k + 1] == ids[..k] + [ids[k]];
    AppliedMore(ids[..k], ids[k], replies);
  }

  /**
    What a pass does to the table: rows it did not claim stay; a claimed row is
    leased to the worker, and finished exactly if the update of it succeeded and
    its record was missing, or was found and recalled.
   */
  lemma PassInFields(rows: Rows, batch: set<nat>, worker: string, now: int, replies: nat -> Reply)
    requires batch <= rows.Keys
    ensures var after := AfterPass(rows, batch, worker, now, replies);
            && after.Keys == rows.Keys
            && (forall i :: i in rows && i !in batch ==> after[i] == rows[i])
            && (forall i :: i in batch ==>
                  && after[i].record == rows[i].record && after[i].reason == rows[i].reason
                  && after[i].priority == rows[i].priority && after[i].availableAt == rows[i].availableAt
                  && after[i].claimedAt == Some(now) && after[i].claimedBy == Some(worker))
            && (forall i :: i in batch ==>
                  match replies(i)
                  case Reply(Ok(true), true, true, at) => after[i].completedAt == Some(at)
                  case Reply(Ok(false), _, true, at) => after[i].completedAt == Some(at)
                  case _ => after[i].completedAt == rows[i].completedAt)
  {
  }

  /** The items applied in a pass are those whose record was found and recalled, in the order of the pass. */
  lemma {:induction false} AppliedInFields(ids: seq<nat>, replies: nat -> Reply)
    ensures forall i ::
              i in AppliedOf(ids, replies) <==> i in ids && replies(i).record == Ok(true) && replies(i).recallOk
    ensures Distinct(ids) ==> Distinct(AppliedOf(ids, replies))
  {
    if ids != [] {
      var n := |ids| - 1;
      AppliedInFields(ids[..n], replies);
      assert forall i :: i in ids <==> i in ids[..n] || i == ids[n];
      assert Distinct(ids) ==> ids[n] !in ids[..n];
    }
  }

  // ---- Draining ----

  predicate SameRequest(a: QueueRow, b: QueueRow) {
    SameKey(a, b) && a.priority == b.priority && a.availableAt == b.availableAt
  }

  /** The rows in done are finished; the others are as they were. */
  predicate Drained(before: Rows, after: Rows, done: set<nat>) {
    && after.Keys == before.Keys
    && forall i :: i in before ==>
         if i in done then after[i].completedAt.Some? && SameRequest(after[i], before[i]) else after[i] == before[i]
  }

  function Union(batches: seq<set<nat>>): set<nat> {
    if batches == [] then {} else Union(batches[..|batches| - 1]) + batches[|batches| - 1]
  }

  /** No row of a later batch that was due from the start precedes a row of an earlier one. */
  ghost predicate InPriorityOrder(batches: seq<set<nat>>, rows: Rows, due: set<nat>) {
    forall i, j, a, b :: 0 <= i < j < |batches| && a in batches[j] && a in due && b in batches[i] ==>
      a in rows && b in rows ==> !Precedes(rows[a], rows[b])
  }

  /**
    Of a row of an earlier batch and a row of a later one that was due from the
    start, the earlier has the higher priority, or the same and is due no later.
   */
  lemma HighestFirst(batches: seq<set<nat>>, rows: Rows, due: set<nat>, i: nat, j: nat, a: nat, b: nat)
    requires InPriorityOrder(batches, rows, due)
    requires i < j < |batches| && a in batches[j] && a in due && b in batches[i] && a in rows && b in rows
    ensures rows[b].priority > rows[a].priority
         || (rows[b].priority == rows[a].priority && rows[b].availableAt <= rows[a].availableAt)
  {
    assert !Precedes(rows[a], rows[b]);
  }

  /** Each batch consists of rows that were eligible when it was claimed. */
  ghost predicate WereEligible(batches: seq<set<nat>>, rows: Rows, clock: nat -> int, ttl: int) {
    forall j, i :: 0 <= j < |batches| && i in batches[j] ==> i in rows && Eligible(rows[i], clock(j), ttl)
  }

  /** No row of the second set precedes a row of the first. */
  ghost predicate Ahead(first: set<nat>, second: set<nat>, rows: Rows) {
    forall a, b :: a in second && b in first && a in rows && b in rows ==> !Precedes(rows[a], rows[b])
  }

  lemma AheadMore(done: set<nat>, batch: set<nat>, left: set<nat>, rows: Rows)
    requires Ahead(done, left, rows) && Ahead(batch, left - batch, rows)
    ensures Ahead(done, left * batch, rows) && Ahead(done + batch, left - batch, rows)
  {
    hide Precedes;
  }

  function CeilDiv(n: nat, b: nat): nat
    requires b >= 1
  {
    (n + b - 1) / b
  }

  /** The least number of batches of b that hold n. */
  lemma CeilMeans(n: nat, b: nat)
    requires b >= 1
    ensures n <= CeilDiv(n, b) * b && (n > 0 ==> (CeilDiv(n, b) - 1) * b < n)
  {
    var q := (n + b - 1) / b;
    assert n + b - 1 == q * b + (n + b - 1) % b;
    assert (q - 1) * b == q * b - b;
  }

  lemma QuotientIs(x: nat, b: nat, q: nat)
    requires b >= 1 && q * b <= x < q * b + b
    ensures x / b == q
  {
    var r := x / b;
    assert r * b <= x < r * b + b;
    if r < q { ProductGrows(r, q, b); }
    if r > q { ProductGrows(q, r, b); }
  }

  lemma ProductGrows(a: nat, c: nat, b: nat)
    requires a < c
    ensures a * b + b <= c * b
  {
    var d := c - a - 1;
    assert c * b == a * b + b + d * b;
  }

  /** One more batch covers as many as the limit allows. */
  lemma CeilStep(n: nat, b: nat)
    requires b >= 1
    ensures CeilDiv(0, b) == 0
    ensures n > 0 ==> CeilDiv(n, b) == 1 + CeilDiv(n - Min(b, n), b)
  {
    QuotientIs(b - 1, b, 0);
    if 0 < n <= b {
      QuotientIs(n + b - 1, b, 1);
    } else if n > 0 {
      var q := (n - 1) / b;
      assert n - 1 == q * b + (n - 1) % b;
      assert (q + 1) * b == q * b + b;
      QuotientIs(n + b - 1, b, q + 1);
    }
  }

  lemma CeilGrows(n: nat, m: nat, b: nat)
    requires b >= 1 && n <= m
    ensures CeilDiv(n, b) <= CeilDiv(m, b)
  {
    CeilBound(n, b, CeilDiv(m, b));
  }

  /** q batches hold at most q times as many. */
  lemma CeilBound(n: nat, b: nat, q: nat)
    requires b >= 1 && (n <= q * b || n + b - 1 < q * b + b)
    ensures CeilDiv(n, b) <= q
  {
    var r := (n + b - 1) / b;
    assert r * b <= n + b - 1;
    if r > q { ProductGrows(q, r, b); }
  }

  lemma EligibleLater(row: QueueRow, now: int, later: int, ttl: int)
    requires Eligible(row, now, ttl) && now <= later
    ensures Eligible(row, later, ttl)
  {
  }

  /**
    While draining, what is available is what the rows not done would be; all that was due
    and is not done is among it.
   */
  lemma StillDue(before: Rows, during: Rows, done: set<nat>, start: int, now: int, ttl: int)
    requires start <= now && Drained(before, during, done)
    ensures Available(during, now, ttl) == Available(before, now, ttl) - done
    ensures Available(before, start, ttl) - done <= Available(during, now, ttl)
  {
    hide Eligible;
    forall i ensures i in Available(during, now, ttl) <==> i in Available(before, now, ttl) && i !in done {
      if i in before && i in done { FinishedIsNotEligible(during[i], now, ttl); }
    }
    forall i | i in Available(before, start, ttl) ensures i in Available(before, now, ttl) {
      EligibleLater(before[i], start, now, ttl);
    }
  }

  lemma FinishedIsNotEligible(row: QueueRow, now: int, ttl: int)
    ensures row.completedAt.Some? ==> !Eligible(row, now, ttl)
  {
  }

  lemma PassDrains(before: Rows, during: Rows, done: set<nat>, batch: set<nat>, worker: string, now: int,
                   replies: nat -> Reply)
    requires Drained(before, during, done) && batch !! done
    requires AllFinish(replies)
    ensures Drained(before, AfterPass(during, batch, worker, now, replies), done + batch)
  {
    hide Finishes;
    forall i | i in batch ensures Finishes(replies(i)) { }
  }

  lemma InMembers(s: seq<nat>, k: nat)
    requires Distinct(s) && k < |s|
    ensures s[k] in Members(s) && s[k] !in Members(s[..k])
  {
  }

  lemma MembersEmpty(s: seq<nat>)
    ensures Members(s) == {} <==> s == []
  {
    if s != [] { assert s[0] in Members(s); }
  }

  lemma AvailableKnown(rows: Rows, now: int, ttl: int)
    ensures Available(rows, now, ttl) <= rows.Keys
  {
  }

  lemma NothingDrained(rows: Rows)
    ensures Members([]) == {} == Union([]) && Drained(rows, rows, {}) && Distinct([])
  {
  }

  lemma AppliedNone(replies: nat -> Reply)
    ensures AppliedOf([], replies) == []
  {
  }

  lemma {:induction false} MembersCount(s: seq<nat>)
    requires Distinct(s)
    ensures |Members(s)| == |s|
  {
    if s == [] {
      NoMembers();
    } else {
      var n := |s| - 1;
      assert s == s[..n] + [s[n]];
      MembersMore(s[..n], s[n]);
      MembersCount(s[..n]);
    }
  }

  lemma MembersConcat(s: seq<nat>, t: seq<nat>)
    ensures Members(s + t) == Members(s) + Members(t)
    ensures Distinct(s) && Distinct(t) && Members(s) !! Members(t) ==> Distinct(s + t)
  {
    assert forall i :: i in s + t <==> i in s || i in t;
    if Distinct(s) && Distinct(t) && Members(s) !! Members(t) {
      forall i, j | 0 <= i < j < |s + t| ensures (s + t)[i] != (s + t)[j] {
        if i < |s| <= j { assert s[i] in Members(s) && t[j - |s|] in Members(t); }
      }
    }
  }

  /** A batch of the available rows ranks none behind a row it leaves that was due. */
  lemma BatchOfAvailable(batch: set<nat>, before: Rows, during: Rows, done: set<nat>, available: set<nat>,
                         left: set<nat>, limit: nat)
    requires limit >= 1 && Drained(before, during, done) && available <= before.Keys && available !! done
    requires left <= available
    requires IsBatch(batch, during, available, limit)
    ensures batch <= available && |batch| == Min(limit, |available|) && (batch == {} <==> available == {})
    ensures Ahead(batch, left - batch, before)
  {
    hide Precedes;
  }

  /** One more batch, whose rows due from the start precede no row of the earlier batches. */
  lemma OrderMore(batches: seq<set<nat>>, batch: set<nat>, rows: Rows, due: set<nat>)
    requires InPriorityOrder(batches, rows, due) && Ahead(Union(batches), batch * due, rows)
    ensures InPriorityOrder(batches + [batch], rows, due) && Union(batches + [batch]) == Union(batches) + batch
  {
    hide Precedes; hide Union;
    forall i, b | 0 <= i < |batches| && b in batches[i] ensures b in Union(batches) { InUnion(batches, i, b); }
    UnionMore(batches, batch);
  }

  lemma UnionMore(batches: seq<set<nat>>, batch: set<nat>)
    ensures Union(batches + [batch]) == Union(batches) + batch
  {
    assert (batches + [batch])[..|batches|] == batches;
  }

  lemma {:induction false} InUnion(batches: seq<set<nat>>, i: nat, b: nat)
    requires i < |batches| && b in batches[i]
    ensures b in Union(batches)
  {
    var n := |batches| - 1;
    if i < n { InUnion(batches[..n], i, b); }
  }

  /**
    How many batches there are: at least as many as the rows need, and at most as
    many as those due from the start need, and one for each that came due later.
   */
  predicate BatchCount(count: nat, due: set<nat>, done: set<nat>, limit: nat)
    requires limit >= 1
  {
    && count + CeilDiv(|due - done|, limit) <= CeilDiv(|due|, limit) + |done - due|
    && |done| <= count * limit
  }

  lemma BatchCountMore(count: nat, due: set<nat>, done: set<nat>, limit: nat, batch: set<nat>, available: set<nat>)
    requires limit >= 1 && BatchCount(count, due, done, limit)
    requires due - done <= available && available !! done && batch <= available && batch != {}
    requires |batch| == Min(limit, |available|)
    ensures BatchCount(count + 1, due, done + batch, limit)
  {
    var left, late := due - done, batch - due;
    assert |done + batch| == |done| + |batch|;
    assert (count + 1) * limit == count * limit + limit;
    assert (done + batch) - due == (done - due) + late && |(done + batch) - due| == |done - due| + |late|;
    assert due - (done + batch) == left - batch;
    if late != {} {
      Smaller(left - batch, left);
      CeilGrows(|left - batch|, |left|, limit);
    } else {
      assert batch <= left;
      Smaller(left, available);
      Smaller(batch, left);
      assert left == (left - batch) + batch;
      assert |left - batch| == |left| - Min(limit, |left|);
      CeilStep(|left|, limit);
    }
  }

  /** A drain under way: order lists the finished rows, batches groups them by claim. */
  ghost predicate Draining(before: Rows, during: Rows, due: set<nat>, batches: seq<set<nat>>, order: seq<nat>,
                           limit: nat, clock: nat -> int, ttl: int)
    requires limit >= 1
  {
    && due == Available(before, clock(0), ttl)
    && Drained(before, during, Members(order)) && Distinct(order) && Members(order) <= before.Keys
    && Members(order) == Union(batches) && WereEligible(batches, before, clock, ttl)
    && InPriorityOrder(batches, before, due) && Ahead(Members(order), due - Members(order), before)
    && BatchCount(|batches|, due, Members(order), limit)
  }

  lemma DrainStart(before: Rows, clock: nat -> int, ttl: int, limit: nat)
    requires limit >= 1
    ensures Draining(before, before, Available(before, clock(0), ttl), [], [], limit, clock, ttl)
  {
    hide Available; hide CeilDiv;
    NothingDrained(before);
    assert Available(before, clock(0), ttl) - {} == Available(before, clock(0), ttl);
    assert {} - Available(before, clock(0), ttl) == {};
  }

  lemma StillDraining(before: Rows, during: Rows, due: set<nat>, batches: seq<set<nat>>, order: seq<nat>, limit: nat,
                      clock: nat -> int, ttl: int)
    requires limit >= 1 && Draining(before, during, due, batches, order, limit, clock, ttl)
    requires NotBefore(clock)
    ensures var available := Available(during, clock(|batches|), ttl);
            && available <= during.Keys && due - Members(order) <= available
            && available == Available(before, clock(|batches|), ttl) - Members(order)
  {
    hide Eligible; hide Available; hide Union; hide InPriorityOrder; hide CeilDiv; hide Ahead; hide Drained;
    hide WereEligible;
    AvailableKnown(during, clock(|batches|), ttl);
    StillDue(before, during, Members(order), clock(0), clock(|batches|), ttl);
  }

  lemma EligibleMore(batches: seq<set<nat>>, batch: set<nat>, rows: Rows, clock: nat -> int, ttl: int)
    requires WereEligible(batches, rows, clock, ttl) && batch <= Available(rows, clock(|batches|), ttl)
    ensures WereEligible(batches + [batch], rows, clock, ttl)
  {
    hide Eligible;
  }

  lemma DrainStep(before: Rows, during: Rows, due: set<nat>, batches: seq<set<nat>>, order: seq<nat>, ids: seq<nat>,
                  limit: nat, worker: string, clock: nat -> int, ttl: int, replies: nat -> Reply)
    requires limit >= 1 && Draining(before, during, due, batches, order, limit, clock, ttl)
    requires Distinct(ids) && AllFinish(replies)
    requires Available(during, clock(|batches|), ttl) <= during.Keys
    requires due - Members(order) <= Available(during, clock(|batches|), ttl)
    requires Available(during, clock(|batches|), ttl) == Available(before, clock(|batches|), ttl) - Members(order)
    requires IsBatch(Members(ids), during, Available(during, clock(|batches|), ttl), limit)
    ensures ids == [] ==>
              && AfterPass(during, Members(ids), worker, clock(|batches|), replies) == during
              && Available(during, clock(|batches|), ttl) == {}
    ensures ids != [] ==>
              && Draining(before, AfterPass(during, Members(ids), worker, clock(|batches|), replies), due,
                          batches + [Members(ids)], order + ids, limit, clock, ttl)
              && |before.Keys - Members(order + ids)| < |before.Keys - Members(order)|
  {
    hide IsBatch; hide Finishes; hide Members; hide AfterPass; hide Union; hide InPriorityOrder; hide BatchCount;
    hide Drained;
    hide Distinct; hide Ahead; hide Available; hide WereEligible; hide Min; hide AllFinish;
    var done, batch, now := Members(order), Members(ids), clock(|batches|);
    var available, left := Available(during, now, ttl), due - done;
    DrainedKeys(before, during, done);
    BatchOfAvailable(batch, before, during, done, available, left, limit);
    MembersEmpty(ids);
    if ids == [] {
      NothingClaimedLater(during, ids, worker, now, replies);
    } else {
      MembersConcat(order, ids);
      PassDrains(before, during, done, batch, worker, now, replies);
      AheadMore(done, batch, left, before);
      LeftAfter(due, done, batch);
      OrderMore(batches, batch, before, due);
      EligibleMore(batches, batch, before, clock, ttl);
      BatchCountMore(|batches|, due, done, limit, batch, available);
      FewerLeft(before.Keys, done, batch);
    }
  }

  lemma LeftAfter(due: set<nat>, done: set<nat>, batch: set<nat>)
    requires batch !! done
    ensures due - (done + batch) == (due - done) - batch && (due - done) * batch == batch * due
  {
  }

  lemma DrainedKeys(before: Rows, during: Rows, done: set<nat>)
    requires Drained(before, during, done)
    ensures during.Keys == before.Keys
  {
  }

  lemma FewerLeft(all: set<nat>, done: set<nat>, batch: set<nat>)
    requires batch != {} && batch <= all && batch !! done
    ensures |all - (done + batch)| < |all - done|
  {
    assert all - done == (all - (done + batch)) + batch;
  }

  lemma NothingClaimedLater(rows: Rows, ids: seq<nat>, worker: string, now: int, replies: nat -> Reply)
    requires ids == []
    ensures AfterPass(rows, Members(ids), worker, now, replies) == rows
  {
    NoMembers();
    NothingClaimed(rows, worker, now, replies);
  }

  lemma AllDone(due: set<nat>, done: set<nat>)
    requires due - done == {}
    ensures due <= done && (due == done ==> done - due == {})
  {
    assert forall i :: i in due && i !in done ==> i in due - done;
  }

  lemma DrainEnd(before: Rows, after: Rows, due: set<nat>, batches: seq<set<nat>>, order: seq<nat>, limit: nat,
                 clock: nat -> int, ttl: int)
    requires limit >= 1 && Draining(before, after, due, batches, order, limit, clock, ttl)
    requires NotBefore(clock)
    requires Available(after, clock(|batches|), ttl) == {}
    ensures Distinct(order) && Drained(before, after, Members(order)) && Members(order) == Union(batches)
    ensures due == Available(before, clock(0), ttl) && due <= Members(order)
    ensures WereEligible(batches, before, clock, ttl) && InPriorityOrder(batches, before, due)
    ensures CeilDiv(|order|, limit) <= |batches| <= CeilDiv(|due|, limit) + |Members(order) - due|
    ensures Members(order) == due ==> |batches| == CeilDiv(|due|, limit)
  {
    hide Eligible; hide Available; hide Union; hide InPriorityOrder; hide CeilDiv; hide Ahead; hide Drained;
    hide WereEligible; hide Members; hide Distinct;
    StillDraining(before, after, due, batches, order, limit, clock, ttl);
    assert due - Members(order) == {};
    AllDone(due, Members(order));
    MembersCount(order);
    CeilStep(0, limit);
    CeilBound(|order|, limit, |batches|);
  }
}
