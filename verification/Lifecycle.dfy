/** Deferred memorize requests: handlers, in-process tasks, workflows, crashes, the startup sweep and retention. */
module Lifecycle {
  import opened JobLog

  /** A request handler: asking the gateway, told whether it took the request, with its queued row written or tried. */
  datatype Phase = Asking | Decided(durable: bool) | Recorded(durable: bool)

  /** An in-process task: waiting for the lock, extracting, about to write its completion row. */
  datatype TaskStage = Waiting | Running | Writing(ok: bool)

  /**
    The log, the clock, and what lives in the API process. The rest is
    bookkeeping of the model: every row ever written, the latest retention
    cutoff, the ids given out, those the gateway took, and those whose queued
    row could not be written.
   */
  datatype State = State(
    log: seq<LogRow>, now: int, serving: bool, handlers: map<nat, Phase>, tasks: map<nat, TaskStage>,
    history: seq<LogRow>, floor: int, used: set<nat>, durable: set<nat>, unlogged: set<nat>)

  datatype Step =
    | Accept(id: nat)
    | Reply(id: nat, accepted: bool)
    | WriteQueued(id: nat, written: bool)
    | Return(id: nat)
    | Spawn(id: nat)
    | Abandon(id: nat)
    | Begin(id: nat)
    | Extract(id: nat, ok: bool)
    | WriteCompletion(id: nat, written: bool)
    | Die(id: nat)
    | Report(id: nat, ok: bool, written: bool)
    | Crash
    | SweepOrphans(ok: bool)
    | Serve
    | Prune(cutoff: int)
    | Tick(now: int)

  function Write(s: State, r: LogRow, written: bool): State {
    if written then s.(log := s.log + [r], history := s.history + [r]) else s
  }

  function Completion(id: nat, ok: bool, now: int, origin: Origin): LogRow {
    LogRow(if ok then Async else AsyncFailed, id, false, now, origin)
  }

  function QueuedRow(id: nat, durable: bool, now: int): LogRow {
    LogRow(Queued, id, durable, now, Handler)
  }

  /**
    The gateway may run a request it did not confirm, and may confirm one it does
    not run. The lock lets one task past Waiting at a time. A workflow reports
    through a serving API. Startup sweeps before it serves.
   */
  predicate Takes(s: State, step: Step, s': State) {
    match step
    case Accept(id) =>
      s.serving && id !in s.used && s' == s.(handlers := s.handlers[id := Asking], used := s.used + {id})
    case Reply(id, accepted) =>
      id in s.handlers && s.handlers[id] == Asking &&
      s' == s.(handlers := s.handlers[id := Decided(accepted)],
               durable := if accepted then s.durable + {id} else s.durable)
    case WriteQueued(id, written) =>
      id in s.handlers && s.handlers[id].Decided? &&
      s' == Write(s, QueuedRow(id, s.handlers[id].durable, s.now), written).(
              handlers := s.handlers[id := Recorded(s.handlers[id].durable)],
              unlogged := if written then s.unlogged else s.unlogged + {id})
    case Return(id) =>
      id in s.handlers && s.handlers[id] == Recorded(true) && s' == s.(handlers := s.handlers - {id})
    case Spawn(id) =>
      id in s.handlers && s.handlers[id] == Recorded(false) &&
      s' == s.(handlers := s.handlers - {id}, tasks := s.tasks[id := Waiting])
    case Abandon(id) =>
      id in s.handlers && s' == s.(handlers := s.handlers - {id})
    case Begin(id) =>
      id in s.tasks && (forall i :: i in s.tasks ==> s.tasks[i] == Waiting) && s' == s.(tasks := s.tasks[id := Running])
    case Extract(id, ok) =>
      id in s.tasks && s.tasks[id] == Running && s' == s.(tasks := s.tasks[id := Writing(ok)])
    case WriteCompletion(id, written) =>
      id in s.tasks && s.tasks[id].Writing? &&
      s' == Write(s, Completion(id, s.tasks[id].ok, s.now, Task), written).(tasks := s.tasks - {id})
    case Die(id) =>
      id in s.tasks && s' == s.(tasks := s.tasks - {id})
    case Report(id, ok, written) =>
      s.serving && id in s.used && s' == Write(s, Completion(id, ok, s.now, Workflow), written)
    case Crash =>
      s' == s.(serving := false, handlers := map[], tasks := map[])
    case SweepOrphans(ok) =>
      !s.serving &&
      s' == if ok then s.(log := Sweep(s.log, s.now), history := s.history + LostRows(s.log, |s.log|, s.now)) else s
    case Serve =>
      !s.serving && s' == s.(serving := true)
    case Prune(cutoff) =>
      cutoff <= s.now && s' == s.(log := Since(s.log, cutoff), floor := if s.floor <= cutoff then cutoff else s.floor)
    case Tick(now) =>
      now >= s.now && s' == s.(now := now)
  }

  function Start(now: int): State {
    State([], now, false, map[], map[], [], now, {}, {}, {})
  }

  ghost predicate IsRun(states: seq<State>, steps: seq<Step>) {
    && |states| == |steps| + 1
    && (exists now :: states[0] == Start(now))
    && forall i :: 0 <= i < |steps| ==> Takes(states[i], steps[i], states[i + 1])
  }

  // ---- What every step keeps ----

  predicate InProcess(r: LogRow) { r.origin == Task || r.origin == Sweeper }

  /** The log holds the rows of the history that retention has left. */
  predicate LogInv(log: seq<LogRow>, history: seq<LogRow>, floor: int, now: int) {
    log == Since(history, floor) && floor <= now && forall r :: r in history ==> r.createdAt <= now
  }

  predicate OneQueued(rows: seq<LogRow>) {
    forall i, j :: 0 <= i < j < |rows| && rows[i].endpoint == Queued && rows[j].endpoint == Queued ==>
      rows[i].id != rows[j].id
  }

  /** Tasks and sweeps together wrote at most one row for an id. */
  predicate OneInProcess(rows: seq<LogRow>) {
    forall i, j :: 0 <= i < j < |rows| && InProcess(rows[i]) && InProcess(rows[j]) ==> rows[i].id != rows[j].id
  }

  /** Who writes what, and that no task or sweep finished a request before its queued row. */
  predicate RowsInv(history: seq<LogRow>, used: set<nat>, durable: set<nat>) {
    && OneQueued(history) && OneInProcess(history)
    && (forall r :: r in history ==>
          && r.id in used
          && (InProcess(r) ==> IsTerminal(r, r.id) && r.id !in durable)
          && (r.endpoint == Queued ==> r.durable == (r.id in durable))
          && (r.endpoint == Lost ==> r.origin == Sweeper)
          && (r.origin == Handler ==> r.endpoint == Queued))
    && forall q, t :: q in history && t in history && q.endpoint == Queued && InProcess(t) && q.id == t.id ==>
         q.createdAt <= t.createdAt
  }

  predicate HasQueued(history: seq<LogRow>, id: nat) {
    exists q :: q in history && q.endpoint == Queued && q.id == id
  }

  predicate HasInProcess(history: seq<LogRow>, id: nat) {
    exists t :: t in history && InProcess(t) && t.id == id
  }

  /** A handler's row is not written before its phase says so, and then stands unless the write failed. */
  predicate HandlerInv(s: State, id: nat, p: Phase) {
    && id in s.used && id !in s.tasks && !HasInProcess(s.history, id)
    && match p
       case Asking => id !in s.durable && !HasQueued(s.history, id) && id !in s.unlogged
       case Decided(d) => d == (id in s.durable) && !HasQueued(s.history, id) && id !in s.unlogged
       case Recorded(d) => d == (id in s.durable) && (id in s.unlogged || HasQueued(s.history, id))
  }

  predicate TaskInv(s: State, id: nat) {
    id in s.used && id !in s.durable && !HasInProcess(s.history, id) && (id in s.unlogged || HasQueued(s.history, id))
  }

  predicate ApiInv(s: State) {
    && (!s.serving ==> s.handlers == map[] && s.tasks == map[])
    && (forall id :: id in s.handlers ==> HandlerInv(s, id, s.handlers[id]))
    && (forall id :: id in s.tasks ==> TaskInv(s, id))
    && (forall id :: id in s.durable ==> id in s.used)
    && (forall id :: id in s.unlogged ==> id in s.used && !HasQueued(s.history, id))
    && forall i, j :: i in s.tasks && j in s.tasks && s.tasks[i] != Waiting && s.tasks[j] != Waiting ==> i == j
  }

  predicate Inv(s: State) {
    LogInv(s.log, s.history, s.floor, s.now) && RowsInv(s.history, s.used, s.durable) && ApiInv(s)
  }

  // ---- Steps that write nothing ----

  predicate Silent(step: Step) {
    !step.WriteQueued? && !step.WriteCompletion? && !step.Report? && !step.SweepOrphans? && !step.Prune?
  }

  lemma SilentFrame(s: State, step: Step, s': State)
    requires Silent(step) && Takes(s, step, s')
    ensures s'.log == s.log && s'.history == s.history && s'.floor == s.floor && s'.now >= s.now
    ensures s'.used >= s.used && s'.unlogged == s.unlogged
  {
  }

  lemma AcceptKeeps(s: State, id: nat, s': State)
    requires ApiInv(s) && RowsInv(s.history, s.used, s.durable) && Takes(s, Accept(id), s')
    ensures ApiInv(s') && RowsInv(s'.history, s'.used, s'.durable)
  {
    hide OneQueued; hide OneInProcess; hide IsTerminal;
    assert !HasQueued(s.history, id) && !HasInProcess(s.history, id);
  }

  lemma ReplyKeeps(s: State, id: nat, accepted: bool, s': State)
    requires ApiInv(s) && RowsInv(s.history, s.used, s.durable) && Takes(s, Reply(id, accepted), s')
    ensures ApiInv(s') && RowsInv(s'.history, s'.used, s'.durable)
  {
    hide OneQueued; hide OneInProcess; hide IsTerminal;
    assert HandlerInv(s, id, Asking);
  }

  predicate Local(step: Step) {
    || step.Return? || step.Spawn? || step.Abandon? || step.Begin? || step.Extract? || step.Die?
    || step.Crash? || step.Serve? || step.Tick?
  }

  lemma LocalKeeps(s: State, step: Step, s': State)
    requires Local(step) && Takes(s, step, s') && ApiInv(s)
    ensures ApiInv(s') && s'.used == s.used && s'.durable == s.durable
  {
    hide HasQueued; hide HasInProcess;
    if step.Spawn? { assert HandlerInv(s, step.id, Recorded(false)); }
  }

  lemma SilentKeeps(s: State, step: Step, s': State)
    requires Silent(step) && Inv(s) && Takes(s, step, s')
    ensures Inv(s')
  {
    hide Takes; hide ApiInv; hide RowsInv; hide Since;
    SilentFrame(s, step, s');
    match step
    case Accept(id) => AcceptKeeps(s, id, s');
    case Reply(id, accepted) => ReplyKeeps(s, id, accepted, s');
    case _ => LocalKeeps(s, step, s');
  }

  lemma PruneKeeps(s: State, cutoff: int, s': State)
    requires Inv(s) && Takes(s, Prune(cutoff), s')
    ensures Inv(s')
  {
    hide ApiInv; hide RowsInv; hide Since;
    SinceTwice(s.history, s.floor, cutoff);
    PruneApi(s, s');
  }

  lemma PruneApi(s: State, s': State)
    requires ApiInv(s) && s' == s.(log := s'.log, floor := s'.floor)
    ensures ApiInv(s')
  {
    hide HasQueued; hide HasInProcess;
  }

  // ---- Steps that write a row ----

  lemma HasMore(history: seq<LogRow>, r: LogRow, id: nat)
    ensures HasQueued(history + [r], id) <==> HasQueued(history, id) || (r.endpoint == Queued && r.id == id)
    ensures HasInProcess(history + [r], id) <==> HasInProcess(history, id) || (InProcess(r) && r.id == id)
  {
    assert forall x :: x in history + [r] <==> x in history || x == r;
  }

  lemma OneMore(history: seq<LogRow>, r: LogRow)
    requires OneQueued(history) && OneInProcess(history)
    requires r.endpoint == Queued ==> !HasQueued(history, r.id)
    requires InProcess(r) ==> !HasInProcess(history, r.id)
    ensures OneQueued(history + [r]) && OneInProcess(history + [r])
  {
    assert forall i :: 0 <= i < |history| ==> history[i] in history;
  }

  /** A row written now joins the log and the history alike. */
  lemma LogMore(s: State, r: LogRow)
    requires LogInv(s.log, s.history, s.floor, s.now) && r.createdAt == s.now
    ensures LogInv(s.log + [r], s.history + [r], s.floor, s.now)
  {
    hide Since;
    SinceMore(s.history, r, s.floor);
  }

  /** What may be written without breaking the order of queued and finishing rows. */
  predicate MayWrite(s: State, r: LogRow) {
    && r.createdAt == s.now && r.id in s.used
    && (r.endpoint == Queued ==> !HasQueued(s.history, r.id) && !HasInProcess(s.history, r.id) && !InProcess(r)
                                 && r.durable == (r.id in s.durable))
    && (InProcess(r) ==> !HasInProcess(s.history, r.id) && IsTerminal(r, r.id) && r.id !in s.durable)
    && (r.endpoint == Lost ==> r.origin == Sweeper)
    && (r.origin == Handler ==> r.endpoint == Queued)
  }

  lemma RowsMore(s: State, r: LogRow)
    requires LogInv(s.log, s.history, s.floor, s.now) && RowsInv(s.history, s.used, s.durable) && MayWrite(s, r)
    ensures RowsInv(s.history + [r], s.used, s.durable)
  {
    hide OneQueued; hide OneInProcess; hide IsTerminal; hide Since;
    OneMore(s.history, r);
    var h := s.history + [r];
    assert forall x :: x in h <==> x in s.history || x == r;
    assert !HasInProcess(s.history, r.id) ==> forall x :: x in s.history && InProcess(x) ==> x.id != r.id;
    forall q, t | q in h && t in h && q.endpoint == Queued && InProcess(t) && q.id == t.id
      ensures q.createdAt <= t.createdAt
    {
    }
  }

  lemma WriteQueuedKeeps(s: State, id: nat, written: bool, s': State)
    requires Inv(s) && Takes(s, WriteQueued(id, written), s')
    ensures Inv(s')
  {
    hide RowsInv; hide LogInv; hide HasQueued; hide HasInProcess;
    var r := QueuedRow(id, s.handlers[id].durable, s.now);
    assert HandlerInv(s, id, s.handlers[id]);
    if written {
      LogMore(s, r);
      RowsMore(s, r);
    }
    forall i ensures HasQueued(s'.history, i) <==> HasQueued(s.history, i) || (written && i == id)
             ensures HasInProcess(s'.history, i) == HasInProcess(s.history, i)
    {
      HasMore(s.history, r, i);
    }
  }

  lemma WriteCompletionKeeps(s: State, id: nat, written: bool, s': State)
    requires Inv(s) && Takes(s, WriteCompletion(id, written), s')
    ensures Inv(s')
  {
    hide RowsInv; hide LogInv; hide HasQueued; hide HasInProcess;
    var r := Completion(id, s.tasks[id].ok, s.now, Task);
    assert TaskInv(s, id);
    if written {
      LogMore(s, r);
      RowsMore(s, r);
    }
    forall i ensures HasQueued(s'.history, i) == HasQueued(s.history, i)
             ensures HasInProcess(s'.history, i) <==> HasInProcess(s.history, i) || (written && i == id)
    {
      HasMore(s.history, r, i);
    }
  }

  lemma ReportKeeps(s: State, id: nat, ok: bool, written: bool, s': State)
    requires Inv(s) && Takes(s, Report(id, ok, written), s')
    ensures Inv(s')
  {
    hide RowsInv; hide LogInv; hide HasQueued; hide HasInProcess;
    var r := Completion(id, ok, s.now, Workflow);
    if written {
      LogMore(s, r);
      RowsMore(s, r);
    }
    forall i ensures HasQueued(s'.history, i) == HasQueued(s.history, i)
             ensures HasInProcess(s'.history, i) == HasInProcess(s.history, i)
    {
      HasMore(s.history, r, i);
    }
  }

  // ---- The sweep ----

  lemma {:induction false} SinceOneQueued(history: seq<LogRow>, floor: int)
    requires OneQueued(history)
    ensures OneQueued(Since(history, floor))
  {
    if history != [] {
      var n := |history| - 1;
      SinceOneQueued(history[..n], floor);
      var rest := Since(history[..n], floor);
      forall i | 0 <= i < |rest| && rest[i].endpoint == Queued && history[n].endpoint == Queued
        ensures rest[i].id != history[n].id
      {
        SinceKeeps(history[..n], floor, rest[i]);
        var j :| 0 <= j < n && history[..n][j] == rest[i];
        assert history[j] == rest[i];
      }
    }
  }

  /**
    The sweep passes over durable requests and over everything a task or an
    earlier sweep ever finished. The only completion it can overlook is a
    workflow's that retention removed while the older-looking queued row stayed.
   */
  lemma SweepIsSafe(s: State, q: LogRow)
    requires Inv(s) && q in s.log && IsOrphan(s.log, q, s.now)
    ensures q.id in s.used && q.id !in s.durable && !HasInProcess(s.history, q.id)
    ensures forall t :: t in s.history && IsCompletion(t, q.id) ==>
        t.origin == Workflow && t.createdAt < s.floor <= q.createdAt
  {
    hide ApiInv; hide Since; hide OneQueued; hide OneInProcess;
    SinceKeeps(s.history, s.floor, q);
    forall t | t in s.history && IsTerminal(t, q.id) ensures !InProcess(t) && t.createdAt < s.floor {
      SinceKeeps(s.history, s.floor, t);
    }
  }

  /** The log and the history after the sweep has dealt with the first n rows. */
  function Swept(s: State, n: nat): State
    requires n <= |s.log|
  {
    s.(log := s.log + LostRows(s.log, n, s.now), history := s.history + LostRows(s.log, n, s.now))
  }

  lemma SweptMore(s: State, n: nat)
    requires 0 < n <= |s.log|
    ensures Swept(s, n)
         == Write(Swept(s, n - 1), LostRow(s.log[n - 1].id, s.now), IsOrphan(s.log, s.log[n - 1], s.now))
  {
    hide IsOrphan;
    if IsOrphan(s.log, s.log[n - 1], s.now) {
      var before, r := LostRows(s.log, n - 1, s.now), LostRow(s.log[n - 1].id, s.now);
      assert s.log + (before + [r]) == (s.log + before) + [r];
      assert s.history + (before + [r]) == (s.history + before) + [r];
    }
  }

  lemma {:induction false} SweptSoFar(s: State, n: nat)
    requires Inv(s) && n <= |s.log|
    ensures LogInv(Swept(s, n).log, Swept(s, n).history, s.floor, s.now)
    ensures RowsInv(Swept(s, n).history, s.used, s.durable)
    ensures forall id :: HasQueued(Swept(s, n).history, id) == HasQueued(s.history, id)
    ensures forall id :: HasInProcess(Swept(s, n).history, id) ==>
              HasInProcess(s.history, id) || exists i :: 0 <= i < n && s.log[i].endpoint == Queued && s.log[i].id == id
  {
    hide RowsInv; hide LogInv; hide HasQueued; hide HasInProcess; hide IsOrphan; hide ApiInv; hide LostRows;
    if n == 0 {
      assert LostRows(s.log, 0, s.now) == [] by { NoOrphans(s.log, 0, s.now); }
      assert Swept(s, 0) == s;
    } else {
      SweptSoFar(s, n - 1);
      SweptMore(s, n);
      var q, before := s.log[n - 1], Swept(s, n - 1);
      if IsOrphan(s.log, q, s.now) {
        var r := LostRow(q.id, s.now);
        assert q.endpoint == Queued by { OrphanIsQueued(s.log, q, s.now); }
        SweepIsSafe(s, q);
        assert OneQueued(s.log) by { LogOneQueued(s); }
        LogMore(before, r);
        RowsMore(before, r);
        forall id ensures HasQueued(Swept(s, n).history, id) == HasQueued(before.history, id)
                  ensures HasInProcess(Swept(s, n).history, id) <==> HasInProcess(before.history, id) || id == q.id
        {
          HasMore(before.history, r, id);
        }
      }
    }
  }

  lemma OrphanIsQueued(rows: seq<LogRow>, q: LogRow, now: int)
    requires IsOrphan(rows, q, now)
    ensures q.endpoint == Queued
  {
  }

  lemma LogOneQueued(s: State)
    requires LogInv(s.log, s.history, s.floor, s.now) && RowsInv(s.history, s.used, s.durable)
    ensures OneQueued(s.log)
  {
    SinceOneQueued(s.history, s.floor);
  }

  lemma SweepKeeps(s: State, ok: bool, s': State)
    requires Inv(s) && Takes(s, SweepOrphans(ok), s')
    ensures Inv(s')
  {
    hide RowsInv; hide LogInv; hide HasQueued; hide HasInProcess; hide LostRows;
    if ok {
      SweptSoFar(s, |s.log|);
      assert s' == Swept(s, |s.log|);
    }
  }

  lemma StepKeeps(s: State, step: Step, s': State)
    requires Inv(s) && Takes(s, step, s')
    ensures Inv(s')
  {
    hide Inv; hide Takes;
    match step
    case WriteQueued(id, written) => WriteQueuedKeeps(s, id, written, s');
    case WriteCompletion(id, written) => WriteCompletionKeeps(s, id, written, s');
    case Report(id, ok, written) => ReportKeeps(s, id, ok, written, s');
    case SweepOrphans(ok) => SweepKeeps(s, ok, s');
    case Prune(cutoff) => PruneKeeps(s, cutoff, s');
    case _ => SilentKeeps(s, step, s');
  }

  // ---- Whole runs ----

  lemma {:induction false} RunKeeps(states: seq<State>, steps: seq<Step>, n: nat)
    requires IsRun(states, steps) && n <= |steps|
    ensures Inv(states[n])
  {
    hide Takes; hide Inv;
    if n == 0 {
      var now :| states[0] == Start(now);
      assert Inv(Start(now)) by { StartInv(now); }
    } else {
      RunKeeps(states, steps, n - 1);
      assert Takes(states[n - 1], steps[n - 1], states[n - 1 + 1]);
      StepKeeps(states[n - 1], steps[n - 1], states[n]);
    }
  }

  lemma StartInv(now: int)
    ensures Inv(Start(now))
  {
  }

  /** Some run ends in s. */
  ghost predicate Reachable(s: State) {
    exists states, steps :: IsRun(states, steps) && states[|steps|] == s
  }

  lemma ReachableInv(s: State)
    requires Reachable(s)
    ensures Inv(s)
  {
    hide Takes; hide Inv;
    var states, steps :| IsRun(states, steps) && states[|steps|] == s;
    RunKeeps(states, steps, |steps|);
  }

  lemma StartReachable(now: int)
    ensures Reachable(Start(now))
  {
    assert IsRun([Start(now)], []);
  }

  lemma Then(s: State, step: Step, s': State)
    requires Reachable(s) && Takes(s, step, s')
    ensures Reachable(s')
  {
    hide Takes;
    var states, steps :| IsRun(states, steps) && states[|steps|] == s;
    assert IsRun(states + [s'], steps + [step]);
  }

  /**
    Over every run, tasks and sweeps together write at most one finishing row for an id,
    and none for a durable one.
   */
  lemma OneFinishPerRequest(s: State)
    requires Reachable(s)
    ensures OneInProcess(s.history)
    ensures forall r :: r in s.history && (r.endpoint == Lost || InProcess(r)) ==> r.id !in s.durable
  {
    hide ApiInv; hide LogInv; hide Reachable;
    ReachableInv(s);
  }

  /** Background tasks run one at a time, and only while the API that spawned them serves. */
  lemma TasksAreSerial(s: State)
    requires Reachable(s)
    ensures forall i, j :: i in s.tasks && j in s.tasks && s.tasks[i] != Waiting && s.tasks[j] != Waiting ==> i == j
    ensures s.tasks != map[] ==> s.serving
  {
    hide RowsInv; hide LogInv; hide Reachable; hide HandlerInv; hide TaskInv;
    ReachableInv(s);
  }

  /**
    What a sweep may declare lost: nothing durable, nothing a task or sweep ever finished,
    nothing a task still works on.
   */
  lemma LostWasOrphaned(s: State, s': State, r: LogRow)
    requires Reachable(s) && Takes(s, SweepOrphans(true), s')
    requires r in s'.log && r !in s.log
    ensures r.endpoint == Lost && r.id !in s.durable && !HasInProcess(s.history, r.id)
    ensures s.tasks == map[] && s.handlers == map[]
    ensures forall t :: t in s.history && IsCompletion(t, r.id) ==> t.origin == Workflow && t.createdAt < s.floor
  {
    hide Inv; hide IsOrphan; hide LostRows; hide HasInProcess; hide Reachable;
    ReachableInv(s);
    assert r in LostRows(s.log, |s.log|, s.now);
    LostRowsAre(s.log, |s.log|, s.now, r);
    var i :| 0 <= i < |s.log| && IsOrphan(s.log, s.log[i], s.now) && s.log[i].id == r.id;
    SweepIsSafe(s, s.log[i]);
    Stopped(s);
  }

  /**
    Exactly which old non-durable requests a sweep declares lost: those whose finishing
    rows, if any, are all pruned.
   */
  lemma LostMeansForgotten(s: State, q: LogRow)
    requires Reachable(s) && q in s.log && q.endpoint == Queued && !q.durable && q.createdAt < s.now - SWEEP_AGE
    ensures LostRow(q.id, s.now) in LostRows(s.log, |s.log|, s.now)
       <==> forall t :: t in s.history && IsTerminal(t, q.id) ==> t.createdAt < s.floor
  {
    hide ApiInv; hide RowsInv; hide Reachable; hide LostRows; hide Since; hide IsTerminal;
    ReachableInv(s);
    LostRowsAre(s.log, |s.log|, s.now, LostRow(q.id, s.now));
    var i :| 0 <= i < |s.log| && s.log[i] == q;
    forall t ensures t in s.log <==> t in s.history && t.createdAt >= s.floor { SinceKeeps(s.history, s.floor, t); }
    assert IsOrphan(s.log, q, s.now) <==> !Finished(s.log, q.id);
    if j :| 0 <= j < |s.log| && IsOrphan(s.log, s.log[j], s.now) && s.log[j].id == q.id {
      assert !Finished(s.log, q.id);
    }
  }

  /** A durable request leaves the pending ones only by a workflow's report: one that never ran stays there for good. */
  lemma DurableWaitsForWorkflow(s: State, q: LogRow)
    requires Reachable(s) && q in s.log && q.endpoint == Queued && q.durable
    ensures IsPending(s.log, q) <==> forall t :: t in s.log && IsCompletion(t, q.id) ==> t.origin != Workflow
    ensures !IsOrphan(s.log, q, s.now)
  {
    hide ApiInv; hide Reachable; hide Since; hide OneQueued; hide OneInProcess;
    ReachableInv(s);
    forall t ensures t in s.log <==> t in s.history && t.createdAt >= s.floor { SinceKeeps(s.history, s.floor, t); }
    assert q.id in s.durable;
    forall t | t in s.log && IsTerminal(t, q.id) ensures t.origin == Workflow && IsCompletion(t, q.id) { }
  }

  lemma Stopped(s: State)
    requires Inv(s) && !s.serving
    ensures s.tasks == map[] && s.handlers == map[]
  {
  }

  /** Once a task or a sweep finished a request, no retention cutoff makes it look pending again, or lost. */
  lemma FinishedStaysFinished(s: State, t: LogRow)
    requires Reachable(s) && t in s.history && InProcess(t)
    ensures forall q :: q in s.log && q.id == t.id ==> !IsPending(s.log, q) && !IsOrphan(s.log, q, s.now)
  {
    hide ApiInv; hide Reachable;
    ReachableInv(s);
    forall q | q in s.log && q.id == t.id ensures !IsPending(s.log, q) {
      SinceKeeps(s.history, s.floor, q);
      SinceKeeps(s.history, s.floor, t);
    }
  }

  /** A task that extracted logs a completion, one that failed a failure, under its own id and at that instant. */
  lemma TaskReports(s: State, id: nat, ok: bool, s': State, s'': State)
    requires Takes(s, Extract(id, ok), s') && Takes(s', WriteCompletion(id, true), s'')
    ensures id !in s''.tasks && |s''.log| == |s.log| + 1 && s''.log[..|s.log|] == s.log
    ensures var r := s''.log[|s.log|];
            r.endpoint == (if ok then Async else AsyncFailed) && r.id == id && r.createdAt == s.now && r.origin == Task
  {
  }

  // ---- The snapshot ----

  /** Ways for the snapshot not to see a request: its row was not written, was pruned, or a workflow finished it too. */
  predicate Unseen(s: State, id: nat) {
    || id in s.unlogged
    || (exists q :: q in s.history && q.endpoint == Queued && q.id == id && q.createdAt < s.floor)
    || (exists t :: t in s.log && t.origin == Workflow && IsCompletion(t, id))
  }

  predicate ShowsPending(log: seq<LogRow>, id: nat) {
    exists q :: q in log && q.id == id && IsPending(log, q)
  }

  /** The snapshot counts the request of every task, exactly but for these three cases. */
  lemma TaskIsPending(s: State, id: nat)
    requires Reachable(s) && id in s.tasks
    ensures ShowsPending(s.log, id) <==> !Unseen(s, id)
  {
    hide *;
    ReachableInv(s);
    SeenOrNot(s, id);
  }

  /** A task that dies is gone, alone, and its request stays pending where it was. */
  lemma DeathLeavesPending(s: State, id: nat, s': State)
    requires Reachable(s) && id in s.tasks && Takes(s, Die(id), s')
    ensures s'.tasks.Keys == s.tasks.Keys - {id} && ShowsPending(s'.log, id) == !Unseen(s, id)
  {
    hide Reachable; hide ShowsPending; hide Unseen;
    TaskIsPending(s, id);
  }

  lemma SeenOrNot(s: State, id: nat)
    requires Inv(s) && id in s.tasks
    ensures ShowsPending(s.log, id) <==> !Unseen(s, id)
  {
    hide OneInProcess; hide Since; hide ApiInv;
    assert TaskInv(s, id) && (id in s.unlogged ==> !HasQueued(s.history, id)) by { TaskFacts(s, id); }
    forall r ensures r in s.log <==> r in s.history && r.createdAt >= s.floor { SinceKeeps(s.history, s.floor, r); }
    if Unseen(s, id) {
      if q :| q in s.log && q.id == id && IsPending(s.log, q) {
        if p :| p in s.history && p.endpoint == Queued && p.id == id && p.createdAt < s.floor {
          SameQueued(s.history, p, q);
        }
        assert false;
      }
    } else {
      assert HasQueued(s.history, id);
      var q :| q in s.history && q.endpoint == Queued && q.id == id;
      assert q in s.log;
      forall t | t in s.log ensures !IsTerminal(t, id) { }
      assert IsPending(s.log, q);
    }
  }

  lemma TaskFacts(s: State, id: nat)
    requires ApiInv(s) && id in s.tasks
    ensures TaskInv(s, id) && (id in s.unlogged ==> !HasQueued(s.history, id))
  {
  }

  lemma SameQueued(rows: seq<LogRow>, p: LogRow, q: LogRow)
    requires OneQueued(rows) && p in rows && q in rows && p.endpoint == Queued && q.endpoint == Queued && p.id == q.id
    ensures p == q
  {
  }

  /**
    Draining is safe: if every queued row was written and outlives its task, and
    no workflow reports on a request whose task is alive, then a snapshot that
    says so means no task is left.
   */
  lemma DrainSafeMeansIdle(s: State)
    requires Reachable(s) && DrainSafe(s.log)
    requires forall id :: id in s.tasks ==> !Unseen(s, id)
    ensures s.tasks == map[]
  {
    hide IsPending; hide Unseen; hide Reachable;
    if s.tasks != map[] {
      var id :| id in s.tasks;
      TaskIsPending(s, id);
      assert false;
    }
  }

  // ---- Where the guarantees end ----

  /** A task under way in an API that has served one request the gateway did not confirm. */
  lemma FallbackTask() returns (s: State)
    ensures Reachable(s) && s == Start(0).(serving := true, used := {0}, tasks := map[0 := Running],
                                           log := [QueuedRow(0, false, 0)], history := [QueuedRow(0, false, 0)])
  {
    hide Reachable;
    StartReachable(0);
    var up := Start(0).(serving := true);
    Then(Start(0), Serve, up);
    var asking := up.(handlers := map[0 := Asking], used := {0});
    Then(up, Accept(0), asking);
    var decided := asking.(handlers := map[0 := Decided(false)]);
    Then(asking, Reply(0, false), decided);
    var recorded := decided.(handlers := map[0 := Recorded(false)],
                             log := [QueuedRow(0, false, 0)], history := [QueuedRow(0, false, 0)]);
    Then(decided, WriteQueued(0, true), recorded);
    var spawned := recorded.(handlers := map[], tasks := map[0 := Waiting]);
    Then(recorded, Spawn(0), spawned);
    s := spawned.(tasks := map[0 := Running]);
    Then(spawned, Begin(0), s);
  }

  /**
    A gateway that times out may still have started the workflow. Its completion
    row then hides the fallback task: the snapshot says drain-safe while it runs.
   */
  lemma DrainSafeCanMissATask() returns (s: State)
    ensures Reachable(s) && DrainSafe(s.log) && s.tasks == map[0 := Running]
  {
    hide Reachable;
    var running := FallbackTask();
    var done := Completion(0, true, 0, Workflow);
    s := running.(log := running.log + [done], history := running.history + [done]);
    Then(running, Report(0, true, true), s);
    assert IsTerminal(done, 0) && done in s.log;
  }

  /** A crash within the sweep's 60 seconds leaves a request that nobody works on pending after the restart. */
  lemma QuickRestartLeavesOrphan() returns (s: State)
    ensures Reachable(s) && s.serving && s.tasks == map[] && s.handlers == map[]
    ensures ShowsPending(s.log, 0) && 0 !in s.durable
  {
    hide Reachable;
    var running := FallbackTask();
    var down := running.(serving := false, tasks := map[]);
    Then(running, Crash, down);
    assert LostRows(down.log, 1, 0) == LostRows(down.log, 0, 0) == [];
    Then(down, SweepOrphans(true), down);
    s := down.(serving := true);
    Then(down, Serve, s);
    assert IsPending(s.log, s.log[0]);
  }

  /**
    A gateway that confirms a request without running it: the request is durable by
    name, nothing in the process works on it, and it stays pending.
   */
  lemma ConfirmedButNeverRun() returns (s: State)
    ensures Reachable(s) && s.serving && s.tasks == map[] && s.handlers == map[]
    ensures s.history == [QueuedRow(0, true, 0)] && 0 in s.durable && ShowsPending(s.log, 0)
  {
    hide Reachable;
    StartReachable(0);
    var up := Start(0).(serving := true);
    Then(Start(0), Serve, up);
    var asking := up.(handlers := map[0 := Asking], used := {0});
    Then(up, Accept(0), asking);
    var decided := asking.(handlers := map[0 := Decided(true)], durable := {0});
    Then(asking, Reply(0, true), decided);
    var queued := QueuedRow(0, true, 0);
    var recorded := Write(decided, queued, true).(handlers := decided.handlers[0 := Recorded(true)]);
    Then(decided, WriteQueued(0, true), recorded);
    s := recorded.(handlers := map[]);
    Then(recorded, Return(0), s);
    assert IsPending(s.log, queued);
  }

  lemma EarlyReport() returns (s: State)
    ensures Reachable(s) && s == Start(0).(serving := true, now := 1, handlers := map[0 := Asking], used := {0},
                                           log := [Completion(0, true, 0, Workflow)],
                                           history := [Completion(0, true, 0, Workflow)])
  {
    hide Reachable;
    StartReachable(0);
    var up := Start(0).(serving := true);
    Then(Start(0), Serve, up);
    var asking := up.(handlers := map[0 := Asking], used := {0});
    Then(up, Accept(0), asking);
    var done := Completion(0, true, 0, Workflow);
    var reported := asking.(log := [done], history := [done]);
    Then(asking, Report(0, true, true), reported);
    s := reported.(now := 1);
    Then(reported, Tick(1), s);
  }

  /**
    A workflow may report before the handler writes the queued row. Retention can
    then remove the completion and keep the queued row.
   */
  lemma ForgottenCompletion(durable: bool) returns (s: State)
    ensures Reachable(s) && s.serving && s.now == s.floor == 1 && s.log == [QueuedRow(0, durable, 1)]
    ensures s.history == [Completion(0, true, 0, Workflow), QueuedRow(0, durable, 1)]
    ensures s.durable == if durable then {0} else {}
  {
    hide Reachable;
    var done, queued := Completion(0, true, 0, Workflow), QueuedRow(0, durable, 1);
    var later := EarlyReport();
    var decided := later.(handlers := map[0 := Decided(durable)], durable := if durable then {0} else {});
    Then(later, Reply(0, durable), decided);
    var recorded := Write(decided, queued, true).(handlers := decided.handlers[0 := Recorded(durable)]);
    Then(decided, WriteQueued(0, true), recorded);
    s := recorded.(log := Since(recorded.log, 1), floor := 1);
    Then(recorded, Prune(1), s);
    assert recorded.log == [done, queued];
    LastSince(done, queued, 1);
  }

  /** Such a durable request shows as pending although it finished, and no sweep ever settles a durable row. */
  lemma PrunedCompletionRevives() returns (s: State)
    ensures Reachable(s) && Finished(s.history, 0) && ShowsPending(s.log, 0) && 0 in s.durable
  {
    hide Reachable;
    s := ForgottenCompletion(true);
    assert IsTerminal(s.history[0], 0);
    assert IsPending(s.log, s.log[0]);
  }

  /** Such a request that the gateway did not confirm is declared lost by a later sweep although it completed. */
  lemma CompletedYetLost() returns (s: State, s': State)
    ensures Reachable(s) && Takes(s, SweepOrphans(true), s')
    ensures (exists t :: t in s.history && IsCompletion(t, 0)) && LostRow(0, s.now) in s'.log
  {
    hide Reachable;
    var forgotten := ForgottenCompletion(false);
    var down := forgotten.(serving := false, handlers := map[], tasks := map[]);
    Then(forgotten, Crash, down);
    s := down.(now := SWEEP_AGE + 2);
    Then(down, Tick(SWEEP_AGE + 2), s);
    s' := s.(log := Sweep(s.log, s.now), history := s.history + LostRows(s.log, |s.log|, s.now));
    assert IsCompletion(s.history[0], 0);
    assert IsOrphan(s.log, s.log[0], s.now);
    LostRowsAre(s.log, 1, s.now, LostRow(0, s.now));
  }

  lemma LastSince(a: LogRow, b: LogRow, cutoff: int)
    requires a.createdAt < cutoff <= b.createdAt
    ensures Since([a, b], cutoff) == [b]
  {
    SinceMore([], a, cutoff);
    SinceMore([a], b, cutoff);
    assert [] + [a] == [a] && [a] + [b] == [a, b];
  }
}
