/** Several sleep workers on one queue: every interleaving of enqueues, claims, processing, failures and crashes. */
module LeaseProtocol {
  import opened Common
  import opened Reconsolidation

  /** One row of one claim. Its position in the log is the ticket under which the row is processed. */
  datatype Lease = Lease(id: nat, process: nat, at: int)

  datatype Stage = Fetched | Applied | RecordMissing

  /**
    The queue table and the clock; every lease ever given out; the tickets being
    processed; and the tickets under which a delta was applied or the record was
    found missing.
   */
  datatype State = State(
    rows: Rows, now: int, leases: seq<Lease>, held: map<nat, Stage>, applied: seq<nat>, missing: seq<nat>)

  datatype Step =
    | Enqueue(id: nat, request: QueueRow)
    | Claim(process: nat, worker: string, ids: seq<nat>, limit: nat, locked: set<nat>)
    | Apply(ticket: nat)
    | FindMissing(ticket: nat)
    | Complete(ticket: nat)
    | Fail(ticket: nat)
    | Crash(process: nat)
    | Tick(now: int)

  function Leases(ids: seq<nat>, process: nat, at: int): (r: seq<Lease>)
    ensures |r| == |ids|
  {
    seq(|ids|, i requires 0 <= i < |ids| => Lease(ids[i], process, at))
  }

  /** The tickets from `from` up to `to`, all just fetched. */
  function Fresh(from: nat, to: nat): (r: map<nat, Stage>)
    ensures forall t :: t in r <==> from <= t < to
    ensures forall t :: t in r ==> r[t] == Fetched
  {
    if from >= to then map[] else Fresh(from, to - 1)[to - 1 := Fetched]
  }

  ghost predicate Takes(s: State, step: Step, s': State, ttl: int, window: int) {
    match step
    case Enqueue(id, request) =>
      IsOpen(request) && IsEnqueue(s.rows, s'.rows, id, request, window) && s' == s.(rows := s'.rows)
    case Claim(process, worker, ids, limit, locked) =>
      && (forall t :: t in s.held && t < |s.leases| ==> s.leases[t].process != process)
      && Distinct(ids) && IsClaim(s.rows, s'.rows, Members(ids), worker, limit, s.now, ttl, locked)
      && s' == s.(rows := s'.rows, leases := s.leases + Leases(ids, process, s.now),
                  held := s.held + Fresh(|s.leases|, |s.leases| + |ids|))
    case Apply(t) =>
      t in s.held && s.held[t] == Fetched && s' == s.(held := s.held[t := Applied], applied := s.applied + [t])
    case FindMissing(t) =>
      t in s.held && s.held[t] == Fetched && s' == s.(held := s.held[t := RecordMissing], missing := s.missing + [t])
    case Complete(t) =>
      t in s.held && t < |s.leases| && s.held[t] != Fetched &&
      s' == s.(rows := Reconsolidation.Complete(s.rows, s.leases[t].id, s.now), held := s.held - {t})
    case Fail(t) =>
      t in s.held && s' == s.(held := s.held - {t})
    case Crash(process) =>
      s' == s.(held := map t | t in s.held && !(t < |s.leases| && s.leases[t].process == process) :: s.held[t])
    case Tick(now) =>
      now >= s.now && s' == s.(now := now)
  }

  ghost predicate IsRun(states: seq<State>, steps: seq<Step>, ttl: int, window: int) {
    && |states| == |steps| + 1
    && (exists now :: states[0] == State(map[], now, [], map[], [], []))
    && forall i :: 0 <= i < |steps| ==> Takes(states[i], steps[i], states[i + 1], ttl, window)
  }

  // ---- What every step keeps ----

  /** Two leases of one row are more than the time to live apart. */
  predicate LeasesApart(leases: seq<Lease>, ttl: int) {
    forall i, j :: 0 <= i < j < |leases| && leases[i].id == leases[j].id ==> leases[j].at - leases[i].at > ttl
  }

  /** The row remembers its latest lease. */
  predicate IsLatest(leases: seq<Lease>, id: nat, at: Option<int>) {
    match at
    case None => forall i :: 0 <= i < |leases| ==> leases[i].id != id
    case Some(t) =>
      && (exists i :: 0 <= i < |leases| && leases[i].id == id && leases[i].at == t)
      && forall i :: 0 <= i < |leases| && leases[i].id == id ==> leases[i].at <= t
  }

  predicate LeasesKnown(s: State) {
    && (forall i :: 0 <= i < |s.leases| ==> s.leases[i].id in s.rows && s.leases[i].at <= s.now)
    && forall id :: id in s.rows ==> IsLatest(s.leases, id, s.rows[id].claimedAt)
  }

  predicate TicketsKnown(s: State) {
    && (forall t :: t in s.held ==> t < |s.leases|)
    && (forall t :: t in s.applied ==> t < |s.leases|)
    && (forall t :: t in s.missing ==> t < |s.leases|)
    && Distinct(s.applied)
    && forall t :: t in s.held ==>
         match s.held[t]
         case Fetched => t !in s.applied && t !in s.missing
         case Applied => t in s.applied
         case RecordMissing => t in s.missing
  }

  /** Some attempt at the row applied its delta or found its record missing. */
  predicate Settled(s: State, id: nat) {
    exists t :: 0 <= t < |s.leases| && s.leases[t].id == id && (t in s.applied || t in s.missing)
  }

  predicate CompletedAreSettled(s: State) {
    forall id :: id in s.rows && s.rows[id].completedAt.Some? ==> Settled(s, id)
  }

  ghost predicate Inv(s: State, ttl: int, window: int) {
    LeasesApart(s.leases, ttl) && LeasesKnown(s) && TicketsKnown(s) && CompletedAreSettled(s) && Spaced(s.rows, window)
  }

  /** A step from s to s' forgets no row, request, lease or completion, and leases no finished row. */
  predicate Extends(s: State, s': State) {
    && (forall id :: id in s.rows ==>
          && id in s'.rows && SameKey(s.rows[id], s'.rows[id])
          && s.rows[id].priority == s'.rows[id].priority && s.rows[id].availableAt == s'.rows[id].availableAt
          && (s.rows[id].completedAt.Some? ==> s'.rows[id].completedAt.Some?))
    && s.leases <= s'.leases && s.now <= s'.now
    && forall i :: |s.leases| <= i < |s'.leases| && s'.leases[i].id in s.rows ==>
         s.rows[s'.leases[i].id].completedAt.None?
  }

  // ---- Enqueue ----

  lemma EnqueueRows(s: State, step: Step, s': State, ttl: int, window: int)
    requires step.Enqueue? && Takes(s, step, s', ttl, window)
    ensures forall id :: id in s.rows ==> id in s'.rows && s'.rows[id] == s.rows[id]
    ensures forall id :: id in s'.rows && id !in s.rows ==> s'.rows[id] == step.request
  {
  }

  lemma EnqueueKeeps(s: State, step: Step, s': State, ttl: int, window: int)
    requires step.Enqueue? && Inv(s, ttl, window) && Takes(s, step, s', ttl, window)
    ensures Inv(s', ttl, window) && Extends(s, s')
  {
    hide IsLatest; hide LeasesApart; hide Distinct; hide Takes; hide Spaced; hide TicketsKnown;
    EnqueueRows(s, step, s', ttl, window);
    EnqueueFrame(s, step, s', ttl, window);
    EnqueueSpaced(s.rows, s'.rows, step.id, step.request, window);
    forall id | id in s'.rows && id !in s.rows ensures IsLatest(s.leases, id, None) { NeverLeased(s, id); }
    SettledKept(s, s');
    TicketsKept(s, s');
  }

  lemma EnqueueFrame(s: State, step: Step, s': State, ttl: int, window: int)
    requires step.Enqueue? && Takes(s, step, s', ttl, window)
    ensures IsOpen(step.request) && IsEnqueue(s.rows, s'.rows, step.id, step.request, window)
    ensures s' == s.(rows := s'.rows)
  {
  }

  lemma NeverLeased(s: State, id: nat)
    requires LeasesKnown(s) && id !in s.rows
    ensures IsLatest(s.leases, id, None)
  {
  }

  lemma SettledKept(s: State, s': State)
    requires s.leases <= s'.leases && s.applied <= s'.applied && s.missing <= s'.missing
    ensures forall id :: Settled(s, id) ==> Settled(s', id)
  {
    forall id | Settled(s, id) ensures Settled(s', id) {
      var t :| 0 <= t < |s.leases| && s.leases[t].id == id && (t in s.applied || t in s.missing);
      assert s'.leases[t] == s.leases[t];
    }
  }

  lemma TicketsKept(s: State, s': State)
    requires TicketsKnown(s) && s'.held == s.held && s'.leases == s.leases && s'.applied == s.applied
    requires s'.missing == s.missing
    ensures TicketsKnown(s')
  {
  }

  // ---- Claim ----

  lemma ClaimFrame(s: State, step: Step, s': State, ttl: int, window: int)
    requires step.Claim? && Takes(s, step, s', ttl, window)
    ensures Distinct(step.ids) && s'.rows == Claimed(s.rows, Members(step.ids), step.worker, s.now)
    ensures forall i :: 0 <= i < |step.ids| ==> step.ids[i] in s.rows && Eligible(s.rows[step.ids[i]], s.now, ttl)
    ensures s'.leases == s.leases + Leases(step.ids, step.process, s.now)
    ensures s'.held == s.held + Fresh(|s.leases|, |s.leases| + |step.ids|)
    ensures s'.applied == s.applied && s'.missing == s.missing && s'.now == s.now
  {
    hide Eligible; hide Claimed; hide Distinct;
    forall i | 0 <= i < |step.ids| ensures step.ids[i] in s.rows && Eligible(s.rows[step.ids[i]], s.now, ttl) {
      assert step.ids[i] in Members(step.ids);
    }
  }

  /** An eligible row's leases have all run out. */
  lemma EarlierLeases(s: State, id: nat, ttl: int)
    requires LeasesKnown(s) && id in s.rows && Eligible(s.rows[id], s.now, ttl)
    ensures forall i :: 0 <= i < |s.leases| && s.leases[i].id == id ==> s.now - s.leases[i].at > ttl
  {
    assert IsLatest(s.leases, id, s.rows[id].claimedAt);
  }

  lemma ClaimApart(s: State, ids: seq<nat>, process: nat, ttl: int)
    requires LeasesApart(s.leases, ttl) && LeasesKnown(s) && Distinct(ids)
    requires forall i :: 0 <= i < |ids| ==> ids[i] in s.rows && Eligible(s.rows[ids[i]], s.now, ttl)
    ensures LeasesApart(s.leases + Leases(ids, process, s.now), ttl)
  {
    hide LeasesKnown; hide Eligible;
    var n, all := |s.leases|, s.leases + Leases(ids, process, s.now);
    assert forall i :: n <= i < |all| ==> all[i] == Lease(ids[i - n], process, s.now);
    forall i, j | 0 <= i < j < |all| && all[i].id == all[j].id ensures all[j].at - all[i].at > ttl {
      if j >= n {
        if i < n { EarlierLeases(s, ids[j - n], ttl); }
      }
    }
  }

  lemma ClaimLatest(s: State, ids: seq<nat>, process: nat, worker: string, id: nat)
    requires LeasesKnown(s) && id in s.rows
    ensures IsLatest(s.leases + Leases(ids, process, s.now), id,
                     Claimed(s.rows, Members(ids), worker, s.now)[id].claimedAt)
  {
    var n, all := |s.leases|, s.leases + Leases(ids, process, s.now);
    assert IsLatest(s.leases, id, s.rows[id].claimedAt);
    assert forall i :: 0 <= i < n ==> all[i] == s.leases[i];
    assert forall i :: n <= i < |all| ==> all[i] == Lease(ids[i - n], process, s.now);
    if id in ids {
      var k :| 0 <= k < |ids| && ids[k] == id;
      assert all[n + k].id == id;
    } else {
      assert forall i :: n <= i < |all| ==> all[i].id != id;
      if s.rows[id].claimedAt.Some? {
        var i :| 0 <= i < n && s.leases[i].id == id && s.leases[i].at == s.rows[id].claimedAt.value;
        assert all[i].id == id;
      }
    }
  }

  lemma ClaimTickets(s: State, s': State, more: seq<Lease>)
    requires TicketsKnown(s) && s'.leases == s.leases + more && s'.applied == s.applied && s'.missing == s.missing
    requires s'.held == s.held + Fresh(|s.leases|, |s.leases| + |more|)
    ensures TicketsKnown(s')
  {
    hide Distinct;
  }

  lemma ClaimLeasesKnown(s: State, step: Step, s': State, ttl: int, window: int)
    requires step.Claim? && LeasesKnown(s) && Takes(s, step, s', ttl, window)
    ensures LeasesKnown(s')
  {
    hide IsLatest; hide Takes; hide Eligible; hide Fresh;
    ClaimFrame(s, step, s', ttl, window);
    forall id | id in s'.rows ensures IsLatest(s'.leases, id, s'.rows[id].claimedAt) {
      ClaimLatest(s, step.ids, step.process, step.worker, id);
    }
  }

  lemma ClaimExtends(s: State, step: Step, s': State, ttl: int, window: int)
    requires step.Claim? && Takes(s, step, s', ttl, window)
    ensures Extends(s, s')
  {
    hide Takes;
    ClaimFrame(s, step, s', ttl, window);
    var n := |s.leases|;
    forall i | n <= i < |s'.leases| ensures s'.leases[i].id in s.rows && s.rows[s'.leases[i].id].completedAt.None? {
      assert s'.leases[i].id == step.ids[i - n];
    }
  }

  lemma ClaimKeeps(s: State, step: Step, s': State, ttl: int, window: int)
    requires step.Claim? && Inv(s, ttl, window) && Takes(s, step, s', ttl, window)
    ensures Inv(s', ttl, window) && Extends(s, s')
  {
    hide LeasesKnown; hide LeasesApart; hide Takes; hide Spaced; hide TicketsKnown; hide Distinct; hide Eligible;
    hide Settled;
    hide Extends;
    ClaimFrame(s, step, s', ttl, window);
    ClaimApart(s, step.ids, step.process, ttl);
    ClaimLeasesKnown(s, step, s', ttl, window);
    ClaimTickets(s, s', Leases(step.ids, step.process, s.now));
    ClaimSpaced(s.rows, Members(step.ids), step.worker, s.now, window);
    SettledKept(s, s');
    ClaimExtends(s, step, s', ttl, window);
  }

  // ---- The other steps ----

  lemma TicketsMove(s: State, step: Step, s': State, ttl: int, window: int)
    requires step.Apply? || step.FindMissing? || step.Fail? || step.Crash?
    requires TicketsKnown(s) && Takes(s, step, s', ttl, window)
    ensures TicketsKnown(s') && s'.rows == s.rows && s'.leases == s.leases && s'.now == s.now
    ensures s.applied <= s'.applied && s.missing <= s'.missing
  {
  }

  /** Steps that only touch the tickets. */
  lemma ProcessKeeps(s: State, step: Step, s': State, ttl: int, window: int)
    requires step.Apply? || step.FindMissing? || step.Fail? || step.Crash?
    requires Inv(s, ttl, window) && Takes(s, step, s', ttl, window)
    ensures Inv(s', ttl, window) && Extends(s, s')
  {
    hide LeasesApart; hide Spaced; hide IsLatest; hide Settled; hide TicketsKnown; hide Takes;
    TicketsMove(s, step, s', ttl, window);
    SettledKept(s, s');
  }

  lemma CompleteFrame(s: State, step: Step, s': State, ttl: int, window: int)
    requires step.Complete? && TicketsKnown(s) && Takes(s, step, s', ttl, window)
    ensures step.ticket < |s.leases| && TicketsKnown(s')
    ensures s' == s.(rows := Reconsolidation.Complete(s.rows, s.leases[step.ticket].id, s.now), held := s'.held)
    ensures Settled(s, s.leases[step.ticket].id)
  {
    hide Distinct;
    assert s.leases[step.ticket].id == s.leases[step.ticket].id;
  }

  lemma CompleteKeeps(s: State, step: Step, s': State, ttl: int, window: int)
    requires step.Complete? && Inv(s, ttl, window) && Takes(s, step, s', ttl, window)
    ensures Inv(s', ttl, window) && Extends(s, s')
  {
    hide LeasesApart; hide Spaced; hide IsLatest; hide TicketsKnown; hide Takes; hide Settled;
    CompleteFrame(s, step, s', ttl, window);
    SettledKept(s, s');
    CompleteSpaced(s.rows, s.leases[step.ticket].id, s.now, window);
  }

  lemma TickKeeps(s: State, step: Step, s': State, ttl: int, window: int)
    requires step.Tick? && Inv(s, ttl, window) && Takes(s, step, s', ttl, window)
    ensures Inv(s', ttl, window) && Extends(s, s')
  {
    hide LeasesApart; hide Spaced; hide IsLatest; hide Settled; hide TicketsKnown;
    SettledKept(s, s');
    TicketsKept(s, s');
  }

  lemma StepKeeps(s: State, step: Step, s': State, ttl: int, window: int)
    requires Inv(s, ttl, window) && Takes(s, step, s', ttl, window)
    ensures Inv(s', ttl, window) && Extends(s, s')
  {
    hide *;
    match step
    case Enqueue(_, _) => EnqueueKeeps(s, step, s', ttl, window);
    case Claim(_, _, _, _, _) => ClaimKeeps(s, step, s', ttl, window);
    case Apply(_) => ProcessKeeps(s, step, s', ttl, window);
    case FindMissing(_) => ProcessKeeps(s, step, s', ttl, window);
    case Complete(_) => CompleteKeeps(s, step, s', ttl, window);
    case Fail(_) => ProcessKeeps(s, step, s', ttl, window);
    case Crash(_) => ProcessKeeps(s, step, s', ttl, window);
    case Tick(_) => TickKeeps(s, step, s', ttl, window);
  }

  // ---- Whole runs ----

  lemma StartInv(now: int, ttl: int, window: int)
    ensures Inv(State(map[], now, [], map[], [], []), ttl, window)
  {
  }

  lemma {:induction false} RunKeeps(states: seq<State>, steps: seq<Step>, ttl: int, window: int, i: nat)
    requires IsRun(states, steps, ttl, window) && i <= |steps|
    ensures Inv(states[i], ttl, window)
  {
    hide Takes; hide Inv;
    if i == 0 {
      var now :| states[0] == State(map[], now, [], map[], [], []);
      StartInv(now, ttl, window);
    } else {
      RunKeeps(states, steps, ttl, window, i - 1);
      assert Takes(states[i - 1], steps[i - 1], states[i - 1 + 1], ttl, window);
      StepKeeps(states[i - 1], steps[i - 1], states[i], ttl, window);
    }
  }

  lemma ExtendsFurther(a: State, b: State, c: State)
    requires Extends(a, b) && Extends(b, c)
    ensures Extends(a, c)
  {
    forall i | |a.leases| <= i < |c.leases| && c.leases[i].id in a.rows
      ensures a.rows[c.leases[i].id].completedAt.None?
    {
      if i < |b.leases| { assert b.leases[i] == c.leases[i]; }
    }
  }

  /**
    Nothing is lost along a run: rows stay, with their key, priority and due
    time, completion is final, and a finished row is never leased again.
   */
  lemma {:induction false} NothingLost(states: seq<State>, steps: seq<Step>, ttl: int, window: int, i: nat, j: nat)
    requires IsRun(states, steps, ttl, window) && i <= j <= |steps|
    ensures Extends(states[i], states[j])
    decreases j
  {
    hide Takes; hide Inv;
    if i == j {
    } else {
      hide Extends;
      NothingLost(states, steps, ttl, window, i, j - 1);
      RunKeeps(states, steps, ttl, window, j - 1);
      assert Takes(states[j - 1], steps[j - 1], states[j - 1 + 1], ttl, window);
      StepKeeps(states[j - 1], steps[j - 1], states[j], ttl, window);
      ExtendsFurther(states[i], states[j - 1], states[j]);
    }
  }

  /** In every reachable state two leases of one row are more than the time to live apart. */
  lemma LeaseSafety(states: seq<State>, steps: seq<Step>, ttl: int, window: int, n: nat)
    requires IsRun(states, steps, ttl, window) && n <= |steps|
    ensures LeasesApart(states[n].leases, ttl)
    ensures Spaced(states[n].rows, window)
  {
    hide Takes;
    RunKeeps(states, steps, ttl, window, n);
  }

  /** While no one works on a lease that has run out, a row is being processed under at most one ticket. */
  lemma OneHolder(states: seq<State>, steps: seq<Step>, ttl: int, window: int, n: nat, t: nat, u: nat)
    requires IsRun(states, steps, ttl, window) && n <= |steps|
    requires var s := states[n];
             && t in s.held && u in s.held && t < |s.leases| && u < |s.leases| && s.leases[t].id == s.leases[u].id
             && s.now - s.leases[t].at <= ttl && s.now - s.leases[u].at <= ttl
    ensures t == u
  {
    hide Takes; hide IsLatest;
    RunKeeps(states, steps, ttl, window, n);
  }

  /** A finished row was settled, and each lease led to at most one application of the delta. */
  lemma CompletedAfterApply(states: seq<State>, steps: seq<Step>, ttl: int, window: int, n: nat)
    requires IsRun(states, steps, ttl, window) && n <= |steps|
    ensures forall id :: id in states[n].rows && states[n].rows[id].completedAt.Some? ==> Settled(states[n], id)
    ensures Distinct(states[n].applied) && forall t :: t in states[n].applied ==> t < |states[n].leases|
  {
    hide Takes; hide LeasesKnown; hide LeasesApart; hide Spaced;
    RunKeeps(states, steps, ttl, window, n);
  }

  /**
    An unfinished row can be claimed exactly from when it is due and all its
    leases have run out, and a claim with room for everything then takes it.
   */
  lemma Reclaimable(states: seq<State>, steps: seq<Step>, ttl: int, window: int, n: nat, id: nat, now: int)
    requires IsRun(states, steps, ttl, window) && n <= |steps|
    requires id in states[n].rows && states[n].rows[id].completedAt.None?
    ensures Eligible(states[n].rows[id], now, ttl)
       <==> states[n].rows[id].availableAt <= now
            && forall i :: 0 <= i < |states[n].leases| && states[n].leases[i].id == id ==>
              now - states[n].leases[i].at > ttl
    ensures Eligible(states[n].rows[id], now, ttl) ==>
              forall batch, limit, locked ::
                IsRoomyBatch(batch, states[n].rows, now, ttl, limit, locked) && id !in locked ==> id in batch
  {
    hide Spaced; hide LeasesApart; hide Takes;
    RunKeeps(states, steps, ttl, window, n);
    var s := states[n];
    assert IsLatest(s.leases, id, s.rows[id].claimedAt);
    forall batch, limit, locked | IsRoomyBatch(batch, s.rows, now, ttl, limit, locked)
      ensures batch == Available(s.rows, now, ttl) - locked
    {
      WholeBatch(batch, s.rows, now, ttl, limit, locked);
    }
  }

  /** A worker that crashed forgets its items and no one else's, and may claim whatever is available at once. */
  lemma CrashThenClaim(s: State, process: nat, s': State, worker: string, ids: seq<nat>, limit: nat,
                       locked: set<nat>, ttl: int, window: int) returns (s'': State)
    requires Inv(s, ttl, window) && Takes(s, Crash(process), s', ttl, window) && Distinct(ids)
    requires IsBatch(Members(ids), s.rows, Available(s.rows, s.now, ttl) - locked, limit)
    ensures Takes(s', Claim(process, worker, ids, limit, locked), s'', ttl, window)
    ensures forall t :: t in s.held ==> (t in s'.held <==> s.leases[t].process != process)
  {
    hide *;
    assert forall t :: t in s.held ==> t < |s.leases| by { TicketsHeld(s, ttl, window); }
    s'' := s'.(rows := Claimed(s.rows, Members(ids), worker, s.now), leases := s.leases + Leases(ids, process, s.now),
               held := s'.held + Fresh(|s.leases|, |s.leases| + |ids|));
    CrashDrops(s, process, s', ttl, window);
    ClaimIs(s.rows, Members(ids), worker, limit, s.now, ttl, locked);
    ClaimStep(s', process, worker, ids, limit, locked, s'', ttl, window);
  }

  lemma TicketsHeld(s: State, ttl: int, window: int)
    requires Inv(s, ttl, window)
    ensures forall t :: t in s.held ==> t < |s.leases|
  {
  }

  lemma CrashDrops(s: State, process: nat, s': State, ttl: int, window: int)
    requires Takes(s, Crash(process), s', ttl, window) && forall t :: t in s.held ==> t < |s.leases|
    ensures s' == s.(held := s'.held)
    ensures forall t :: t in s'.held <==> t in s.held && s.leases[t].process != process
  {
  }

  lemma ClaimIs(rows: Rows, batch: set<nat>, worker: string, limit: nat, now: int, ttl: int, locked: set<nat>)
    requires IsBatch(batch, rows, Available(rows, now, ttl) - locked, limit)
    ensures IsClaim(rows, Claimed(rows, batch, worker, now), batch, worker, limit, now, ttl, locked)
  {
    hide IsBatch; hide Available; hide Claimed;
  }

  lemma ClaimStep(s: State, process: nat, worker: string, ids: seq<nat>, limit: nat, locked: set<nat>,
                  s': State, ttl: int, window: int)
    requires forall t :: t in s.held && t < |s.leases| ==> s.leases[t].process != process
    requires Distinct(ids) && IsClaim(s.rows, s'.rows, Members(ids), worker, limit, s.now, ttl, locked)
    requires s' == s.(rows := s'.rows, leases := s.leases + Leases(ids, process, s.now),
                      held := s.held + Fresh(|s.leases|, |s.leases| + |ids|))
    ensures Takes(s, Claim(process, worker, ids, limit, locked), s', ttl, window)
  {
    hide IsClaim; hide Distinct; hide Members; hide Leases; hide Fresh;
  }

  /** What a claim may take when its limit leaves room for every available row. */
  ghost predicate IsRoomyBatch(batch: set<nat>, rows: Rows, now: int, ttl: int, limit: nat, locked: set<nat>) {
    limit >= |Available(rows, now, ttl)| && IsBatch(batch, rows, Available(rows, now, ttl) - locked, limit)
  }

  lemma WholeBatch(batch: set<nat>, rows: Rows, now: int, ttl: int, limit: nat, locked: set<nat>)
    requires IsRoomyBatch(batch, rows, now, ttl, limit, locked)
    ensures batch == Available(rows, now, ttl) - locked
  {
    var available := Available(rows, now, ttl);
    Smaller(available - locked, available);
    assert |available - locked| == |batch| + |available - locked - batch| by {
      assert available - locked == batch + (available - locked - batch);
    }
  }
}
