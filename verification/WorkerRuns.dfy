/** One turn of the sleep worker's loop is a run of the lease protocol. */
module WorkerRuns {
  import opened Common
  import opened Reconsolidation
  import opened SleepPath
  import LP = LeaseProtocol

  /** The protocol can go from s to s'. */
  ghost predicate Reaches(s: LP.State, s': LP.State, ttl: int, window: int) {
    exists states, steps :: IsPath(states, steps, ttl, window) && states[0] == s && states[|steps|] == s'
  }

  ghost predicate IsPath(states: seq<LP.State>, steps: seq<LP.Step>, ttl: int, window: int) {
    |states| == |steps| + 1 && forall i :: 0 <= i < |steps| ==>
      LP.Takes(states[i], steps[i], states[i + 1], ttl, window)
  }

  lemma ReachesSelf(s: LP.State, ttl: int, window: int)
    ensures Reaches(s, s, ttl, window)
  {
    assert IsPath([s], [], ttl, window);
  }

  lemma Then(s: LP.State, t: LP.State, step: LP.Step, u: LP.State, ttl: int, window: int)
    requires Reaches(s, t, ttl, window) && LP.Takes(t, step, u, ttl, window)
    ensures Reaches(s, u, ttl, window)
  {
    hide LP.Takes;
    var states, steps :| IsPath(states, steps, ttl, window) && states[0] == s && states[|steps|] == t;
    assert IsPath(states + [u], steps + [step], ttl, window);
  }

  /** What every step of the protocol keeps, any number of them keep. */
  lemma {:induction false} PathKeeps(states: seq<LP.State>, steps: seq<LP.Step>, n: nat, ttl: int, window: int)
    requires IsPath(states, steps, ttl, window) && n <= |steps| && LP.Inv(states[0], ttl, window)
    ensures LP.Inv(states[n], ttl, window) && LP.Extends(states[0], states[n])
  {
    hide LP.Takes; hide LP.Inv;
    if n > 0 {
      hide LP.Extends;
      PathKeeps(states, steps, n - 1, ttl, window);
      assert LP.Takes(states[n - 1], steps[n - 1], states[n - 1 + 1], ttl, window);
      LP.StepKeeps(states[n - 1], steps[n - 1], states[n], ttl, window);
      LP.ExtendsFurther(states[0], states[n - 1], states[n]);
    }
  }

  lemma ReachesKeeps(s: LP.State, t: LP.State, ttl: int, window: int)
    requires Reaches(s, t, ttl, window) && LP.Inv(s, ttl, window)
    ensures LP.Inv(t, ttl, window) && LP.Extends(s, t)
  {
    hide LP.Takes; hide LP.Inv; hide LP.Extends;
    var states, steps :| IsPath(states, steps, ttl, window) && states[0] == s && states[|steps|] == t;
    PathKeeps(states, steps, |steps|, ttl, window);
  }

  /** The state once the item under ticket t has been processed. */
  function ItemDone(s: LP.State, t: nat, r: Reply): LP.State
    requires t < |s.leases|
  {
    s.(now := r.now,
       rows := if Finishes(r) then Complete(s.rows, s.leases[t].id, r.now) else s.rows,
       held := s.held - {t},
       applied := s.applied + if Applies(r) then [t] else [],
       missing := s.missing + if r.record == Ok(false) then [t] else [])
  }

  lemma ProcessItem(from: LP.State, s: LP.State, t: nat, r: Reply, ttl: int, window: int)
    requires Reaches(from, s, ttl, window)
    requires t in s.held && s.held[t] == LP.Fetched && t < |s.leases| && s.now <= r.now
    ensures Reaches(from, ItemDone(s, t, r), ttl, window)
  {
    hide Reaches; hide Complete;
    var ticked := s.(now := r.now);
    Then(from, s, LP.Tick(r.now), ticked, ttl, window);
    var settled := ticked;
    if Applies(r) {
      settled := ticked.(held := s.held[t := LP.Applied], applied := s.applied + [t]);
      Then(from, ticked, LP.Apply(t), settled, ttl, window);
    } else if r.record == Ok(false) {
      settled := ticked.(held := s.held[t := LP.RecordMissing], missing := s.missing + [t]);
      Then(from, ticked, LP.FindMissing(t), settled, ttl, window);
    }
    assert settled.held - {t} == s.held - {t};
    assert settled.applied == ItemDone(s, t, r).applied && settled.missing == ItemDone(s, t, r).missing;
    if Finishes(r) {
      Then(from, settled, LP.Complete(t), ItemDone(s, t, r), ttl, window);
    } else {
      Then(from, settled, LP.Fail(t), ItemDone(s, t, r), ttl, window);
    }
  }

  predicate AreTickets(leases: seq<LP.Lease>, tickets: seq<nat>) {
    forall i :: 0 <= i < |tickets| ==> tickets[i] < |leases|
  }

  /** The rows whose deltas were applied under these tickets. */
  function RowsOf(leases: seq<LP.Lease>, tickets: seq<nat>): seq<nat>
    requires AreTickets(leases, tickets)
  {
    seq(|tickets|, i requires 0 <= i < |tickets| => leases[tickets[i]].id)
  }

  ghost predicate PassRows(s: LP.State, t: LP.State, ids: seq<nat>, k: nat, worker: string, replies: nat -> Reply)
    requires k <= |ids|
  {
    && t.rows == Midway(s.rows, Members(ids), Members(ids[..k]), worker, s.now, replies)
    && t.now == (if k == 0 then s.now else replies(ids[k - 1]).now)
  }

  predicate PassHolds(s: LP.State, t: LP.State, ids: seq<nat>, k: nat, process: nat) {
    && t.leases == s.leases + LP.Leases(ids, process, s.now)
    && t.held == s.held + LP.Fresh(|s.leases| + k, |s.leases| + |ids|)
  }

  predicate PassApplied(s: LP.State, t: LP.State, ids: seq<nat>, k: nat, replies: nat -> Reply)
    requires k <= |ids|
  {
    && s.applied <= t.applied && AreTickets(t.leases, t.applied[|s.applied|..])
    && RowsOf(t.leases, t.applied[|s.applied|..]) == AppliedOf(ids[..k], replies)
  }

  /** Where a pass stands after its first k items. */
  ghost predicate PassState(s: LP.State, t: LP.State, ids: seq<nat>, k: nat, process: nat, worker: string,
                            replies: nat -> Reply)
    requires k <= |ids|
  {
    PassRows(s, t, ids, k, worker, replies) && PassHolds(s, t, ids, k, process) && PassApplied(s, t, ids, k, replies)
  }

  /** The state right after the claim. */
  function ClaimDone(s: LP.State, ids: seq<nat>, process: nat, worker: string): LP.State {
    s.(rows := Claimed(s.rows, Members(ids), worker, s.now), leases := s.leases + LP.Leases(ids, process, s.now),
       held := s.held + LP.Fresh(|s.leases|, |s.leases| + |ids|))
  }

  lemma PassClaims(s: LP.State, ids: seq<nat>, process: nat, worker: string, limit: nat, locked: set<nat>, ttl: int,
                   window: int)
    requires forall i :: i in s.held && i < |s.leases| ==> s.leases[i].process != process
    requires Distinct(ids) && IsBatch(Members(ids), s.rows, Available(s.rows, s.now, ttl) - locked, limit)
    ensures Reaches(s, ClaimDone(s, ids, process, worker), ttl, window)
  {
    hide IsBatch; hide Available; hide Members; hide Claimed; hide Reaches; hide LP.Fresh;
    ReachesSelf(s, ttl, window);
    Then(s, s, LP.Claim(process, worker, ids, limit, locked), ClaimDone(s, ids, process, worker), ttl, window);
  }

  lemma PassStart(s: LP.State, ids: seq<nat>, process: nat, worker: string, replies: nat -> Reply)
    ensures PassState(s, ClaimDone(s, ids, process, worker), ids, 0, process, worker, replies)
  {
    hide Members; hide Midway; hide Claimed; hide LP.Fresh;
    MidwayStart(s.rows, Members(ids), worker, s.now, replies);
    NoMembers();
    assert ids[..0] == [];
    assert s.applied[|s.applied|..] == [];
  }

  lemma PassMore(s: LP.State, t: LP.State, ids: seq<nat>, k: nat, process: nat, worker: string, ttl: int, window: int,
                 replies: nat -> Reply)
    requires k < |ids| && Distinct(ids) && ids[k] in s.rows
    requires forall i :: i in s.held ==> i < |s.leases|
    requires PassState(s, t, ids, k, process, worker, replies) && t.now <= replies(ids[k]).now
    requires Reaches(s, t, ttl, window)
    ensures |s.leases| + k < |t.leases|
    ensures Reaches(s, ItemDone(t, |s.leases| + k, replies(ids[k])), ttl, window)
    ensures PassState(s, ItemDone(t, |s.leases| + k, replies(ids[k])), ids, k + 1, process, worker, replies)
  {
    hide Reaches; hide Distinct; hide PassRows; hide PassApplied; hide PassHolds; hide ItemDone;
    Ticket(s, t, ids, k, process);
    var n, r := |s.leases| + k, replies(ids[k]);
    ProcessItem(s, t, n, r, ttl, window);
    var u := ItemDone(t, n, r);
    ItemRows(s, t, u, ids, k, process, worker, replies);
    ItemHolds(s, t, u, ids, k, process, r);
    ItemApplied(s, t, u, ids, k, process, replies);
  }

  lemma Ticket(s: LP.State, t: LP.State, ids: seq<nat>, k: nat, process: nat)
    requires k < |ids| && PassHolds(s, t, ids, k, process)
    requires forall i :: i in s.held ==> i < |s.leases|
    ensures |s.leases| + k < |t.leases| && t.leases[|s.leases| + k] == LP.Lease(ids[k], process, s.now)
    ensures |s.leases| + k in t.held && t.held[|s.leases| + k] == LP.Fetched
  {
    hide LP.Fresh;
    HeldMore(s.held, |s.leases| + k, |s.leases| + |ids|);
  }

  lemma ItemHolds(s: LP.State, t: LP.State, u: LP.State, ids: seq<nat>, k: nat, process: nat, r: Reply)
    requires k < |ids| && PassHolds(s, t, ids, k, process) && |s.leases| + k < |t.leases|
    requires u == ItemDone(t, |s.leases| + k, r)
    requires forall i :: i in s.held ==> i < |s.leases|
    ensures PassHolds(s, u, ids, k + 1, process)
  {
    hide LP.Fresh; hide LP.Leases; hide Complete; hide Finishes; hide Applies;
    HeldMore(s.held, |s.leases| + k, |s.leases| + |ids|);
  }

  lemma ItemRows(s: LP.State, t: LP.State, u: LP.State, ids: seq<nat>, k: nat, process: nat, worker: string,
                 replies: nat -> Reply)
    requires k < |ids| && Distinct(ids) && ids[k] in s.rows && PassRows(s, t, ids, k, worker, replies)
    requires |s.leases| + k < |t.leases| && t.leases[|s.leases| + k] == LP.Lease(ids[k], process, s.now)
    requires u == ItemDone(t, |s.leases| + k, replies(ids[k]))
    ensures PassRows(s, u, ids, k + 1, worker, replies)
  {
    hide Members; hide Midway; hide Complete; hide Finishes;
    MidwayNext(s.rows, ids, k, worker, s.now, replies);
  }

  lemma ItemApplied(s: LP.State, t: LP.State, u: LP.State, ids: seq<nat>, k: nat, process: nat, replies: nat -> Reply)
    requires k < |ids| && PassApplied(s, t, ids, k, replies)
    requires |s.leases| + k < |t.leases| && t.leases[|s.leases| + k] == LP.Lease(ids[k], process, s.now)
    requires u == ItemDone(t, |s.leases| + k, replies(ids[k]))
    ensures PassApplied(s, u, ids, k + 1, replies)
  {
    hide Complete; hide Finishes; hide Applies; hide AppliedOf; hide RowsOf; hide AreTickets;
    AppliedTickets(s, t, u, |s.leases| + k, Applies(replies(ids[k])));
    AppliedMore(ids[..k], ids[k], replies);
    assert ids[..k + 1] == ids[..k] + [ids[k]];
  }

  lemma HeldMore(held: map<nat, LP.Stage>, n: nat, to: nat)
    requires n < to && n !in held
    ensures held + LP.Fresh(n, to) - {n} == held + LP.Fresh(n + 1, to)
    ensures n in held + LP.Fresh(n, to) && (held + LP.Fresh(n, to))[n] == LP.Fetched
  {
    hide LP.Fresh;
  }

  lemma MidwayNext(rows: Rows, ids: seq<nat>, k: nat, worker: string, now: int, replies: nat -> Reply)
    requires k < |ids| && Distinct(ids) && ids[k] in rows
    ensures Midway(rows, Members(ids), Members(ids[..k + 1]), worker, now, replies)
         == if Finishes(replies(ids[k]))
            then
              Complete(Midway(rows, Members(ids), Members(ids[..k]), worker, now, replies), ids[k],
                       replies(ids[k]).now)
            else Midway(rows, Members(ids), Members(ids[..k]), worker, now, replies)
  {
    hide *;
    assert ids[..k + 1] == ids[..k] + [ids[k]];
    MembersMore(ids[..k], ids[k]);
    InMembers(ids, k);
    MidwayMore(rows, Members(ids), Members(ids[..k]), ids[k], worker, now, replies);
  }

  lemma AppliedTickets(s: LP.State, t: LP.State, u: LP.State, n: nat, applies: bool)
    requires s.applied <= t.applied && n < |t.leases| && u.leases == t.leases
    requires AreTickets(t.leases, t.applied[|s.applied|..])
    requires u.applied == t.applied + if applies then [n] else []
    ensures s.applied <= u.applied && AreTickets(u.leases, u.applied[|s.applied|..])
    ensures RowsOf(u.leases, u.applied[|s.applied|..])
         == RowsOf(t.leases, t.applied[|s.applied|..]) + if applies then [t.leases[n].id] else []
  {
    var before := t.applied[|s.applied|..];
    assert u.applied[|s.applied|..] == before + if applies then [n] else [];
  }

  /**
    Whatever a turn of the loop does to the table, the protocol can do: so every
    law of its runs holds for any number of such workers. Afterwards the worker
    holds nothing, and the deltas applied are those of the items that applied.
   */
  lemma PassIsRun(s: LP.State, ids: seq<nat>, process: nat, worker: string, limit: nat, locked: set<nat>, ttl: int,
                  window: int, replies: nat -> Reply) returns (t: LP.State)
    requires forall i :: i in s.held ==> i < |s.leases| && s.leases[i].process != process
    requires Distinct(ids) && IsBatch(Members(ids), s.rows, Available(s.rows, s.now, ttl) - locked, limit)
    requires forall i :: 0 <= i < |ids| ==> s.now <= replies(ids[i]).now
    requires forall i, j :: 0 <= i < j < |ids| ==> replies(ids[i]).now <= replies(ids[j]).now
    ensures Reaches(s, t, ttl, window) && (LP.Inv(s, ttl, window) ==> LP.Inv(t, ttl, window) && LP.Extends(s, t))
    ensures t.rows == AfterPass(s.rows, Members(ids), worker, s.now, replies) && t.held == s.held
    ensures s.applied <= t.applied && AreTickets(t.leases, t.applied[|s.applied|..])
    ensures RowsOf(t.leases, t.applied[|s.applied|..]) == AppliedOf(ids, replies)
  {
    hide *;
    BatchKnown(ids, s.rows, s.now, ttl, locked, limit);
    t := ClaimDone(s, ids, process, worker);
    PassClaims(s, ids, process, worker, limit, locked, ttl, window);
    PassStart(s, ids, process, worker, replies);
    for k := 0 to |ids|
      invariant Reaches(s, t, ttl, window) && PassState(s, t, ids, k, process, worker, replies)
    {
      PassTime(s, t, ids, k, process, worker, replies);
      PassMore(s, t, ids, k, process, worker, ttl, window, replies);
      t := ItemDone(t, |s.leases| + k, replies(ids[k]));
    }
    PassEnd(s, t, ids, process, worker, replies);
    if LP.Inv(s, ttl, window) { ReachesKeeps(s, t, ttl, window); }
  }

  lemma BatchKnown(ids: seq<nat>, rows: Rows, now: int, ttl: int, locked: set<nat>, limit: nat)
    requires IsBatch(Members(ids), rows, Available(rows, now, ttl) - locked, limit)
    ensures forall i :: 0 <= i < |ids| ==> ids[i] in rows
  {
    hide Eligible;
    forall i | 0 <= i < |ids| ensures ids[i] in rows { assert ids[i] in Members(ids); }
  }

  lemma PassTime(s: LP.State, t: LP.State, ids: seq<nat>, k: nat, process: nat, worker: string, replies: nat -> Reply)
    requires k < |ids| && PassState(s, t, ids, k, process, worker, replies)
    requires forall i :: 0 <= i < |ids| ==> s.now <= replies(ids[i]).now
    requires forall i, j :: 0 <= i < j < |ids| ==> replies(ids[i]).now <= replies(ids[j]).now
    ensures t.now <= replies(ids[k]).now
  {
    hide Midway; hide Members; hide AppliedOf; hide RowsOf;
  }

  lemma PassEnd(s: LP.State, t: LP.State, ids: seq<nat>, process: nat, worker: string, replies: nat -> Reply)
    requires PassState(s, t, ids, |ids|, process, worker, replies)
    ensures t.rows == AfterPass(s.rows, Members(ids), worker, s.now, replies) && t.held == s.held
    ensures s.applied <= t.applied && AreTickets(t.leases, t.applied[|s.applied|..])
    ensures RowsOf(t.leases, t.applied[|s.applied|..]) == AppliedOf(ids, replies)
  {
    hide Midway; hide Members; hide AppliedOf; hide AfterPass;
    assert ids[..|ids|] == ids;
    MidwayEnd(s.rows, Members(ids), worker, s.now, replies);
  }
}
