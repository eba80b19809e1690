/** The ready list and the states of tasks (src/kernel/schedule.c, src/kernel/task.c and the
    wake-up in src/include/book/semaphore.h), as values. Task 0 is the main thread, which
    becomes the idle task. */
module Schedulers {
  import opened Basics
  import opened Lists

  const MAIN: nat := 0

  predicate Wakeable(st: Status) {
    st.Blocked? || st.Waiting? || st.Stopped?
  }

  /** The tasks on the global list with their states, the ready list, and who runs. */
  datatype Sched = Sched(status: map<nat, Status>, ready: seq<nat>, current: nat)

  /** The ready list holds, once each, exactly the tasks that are ready; the main thread is never
      a zombie. */
  ghost predicate ListOk(s: Sched) {
    && NoRepeats(s.ready)
    && (forall t :: t in s.ready <==> t in s.status && s.status[t].Ready?)
    && MAIN in s.status && !s.status[MAIN].Zombie?
  }

  /** Between the calls: exactly the current task is running. */
  ghost predicate Valid(s: Sched) {
    && ListOk(s) && s.current in s.status
    && forall t :: t in s.status ==> (s.status[t].Running? <==> t == s.current)
  }

  /** Inside a call, before Schedule: the current task may have given up its state. */
  ghost predicate Leaving(s: Sched) {
    && ListOk(s) && s.current in s.status
    && forall t :: t in s.status && s.status[t].Running? ==> t == s.current
  }

  /** TaskUnblock: ready, and first in the list. */
  function Unblocked(s: Sched, t: nat): Sched {
    s.(ready := [t] + s.ready, status := s.status[t := Ready])
  }

  /** Schedule up to the choice of the next task. */
  function Requeued(s: Sched): Sched
    requires s.current in s.status
  {
    var r := if s.status[s.current].Running?
      then s.(ready := s.ready + [s.current], status := s.status[s.current := Ready]) else s;
    if r.ready == [] then Unblocked(r, MAIN) else r
  }

  /** Schedule: the first ready task runs. */
  function Scheduled(s: Sched): Sched
    requires s.current in s.status
  {
    var r := Requeued(s);
    Sched(r.status[r.ready[0] := Running], r.ready[1..], r.ready[0])
  }

  /** The assertions on the way through Schedule: a main thread that is woken can be woken and
      is in no list, and then the list is not empty. */
  ghost predicate ScheduleAsserts(s: Sched)
    requires s.current in s.status
  {
    var r := if s.status[s.current].Running?
      then s.(ready := s.ready + [s.current], status := s.status[s.current := Ready]) else s;
    && (r.ready == [] ==> MAIN in r.status && Wakeable(r.status[MAIN]) && MAIN !in r.ready)
    && |Requeued(s).ready| > 0
  }

  lemma AppendRepeats(list: seq<nat>, t: nat)
    requires NoRepeats(list) && t !in list
    ensures NoRepeats(list + [t]) && NoRepeats([t] + list)
  {
  }

  lemma RequeuedOk(s: Sched)
    requires Leaving(s)
    ensures ListOk(Requeued(s)) && |Requeued(s).ready| > 0 && ScheduleAsserts(s)
    ensures forall t :: t in Requeued(s).status ==> !Requeued(s).status[t].Running?
  {
    if s.status[s.current].Running? {
      AppendRepeats(s.ready, s.current);
    }
  }

  /** From any state inside a call, Schedule leads to a state with exactly one running task,
      and none of its assertions fails. */
  lemma ScheduledValid(s: Sched)
    requires Leaving(s)
    ensures Valid(Scheduled(s)) && ScheduleAsserts(s)
  {
    RequeuedOk(s);
    var r := Requeued(s);
    assert r.ready == [r.ready[0]] + r.ready[1..];
    assert r.ready[0] in r.ready;
  }

  datatype Op =
    | Tick
    | Yield
    | Block(state: Status)
    | Wake(task: nat)
    | Start(task: nat)
    | Exit(task: nat)

  /** A task blocks into one of the four states, the main thread never as a zombie; only
      a blocked task is woken; a new task is new; neither the current task nor the main
      thread is freed. */
  predicate Enabled(s: Sched, op: Op) {
    match op
    case Tick => true
    case Yield => true
    case Block(state) => (Wakeable(state) || state.Zombie?) && (state.Zombie? ==> s.current != MAIN)
    case Wake(t) => t in s.status && Wakeable(s.status[t])
    case Start(t) => t !in s.status
    case Exit(t) => t in s.status && t != s.current && t != MAIN
  }

  /** What each call does before or instead of Schedule. */
  function Before(s: Sched, op: Op): Sched
    requires Enabled(s, op)
  {
    match op
    case Tick => s
    case Yield => s.(ready := s.ready + [s.current], status := s.status[s.current := Ready])
    case Block(state) => s.(status := s.status[s.current := state])
    case Wake(t) => Unblocked(s, t)
    case Start(t) => s.(ready := s.ready + [t], status := s.status[t := Ready])
    case Exit(t) => s.(ready := Without(s.ready, t), status := s.status - {t})
  }

  predicate Schedules(op: Op) {
    op.Tick? || op.Yield? || op.Block?
  }

  function Step(s: Sched, op: Op): Sched
    requires s.current in s.status && Enabled(s, op)
  {
    if Schedules(op) then Scheduled(Before(s, op)) else Before(s, op)
  }

  lemma BeforeOk(s: Sched, op: Op)
    requires Valid(s) && Enabled(s, op)
    ensures Leaving(Before(s, op)) && (!Schedules(op) ==> Valid(Before(s, op)))
  {
    match op
    case Tick =>
    case Yield => AppendRepeats(s.ready, s.current);
    case Block(_) =>
    case Wake(t) => AppendRepeats(s.ready, t);
    case Start(t) => AppendRepeats(s.ready, t);
    case Exit(t) => WithoutRepeats(s.ready, t);
  }

  lemma StepValid(s: Sched, op: Op)
    requires Valid(s) && Enabled(s, op)
    ensures Valid(Step(s, op)) && (Schedules(op) ==> ScheduleAsserts(Before(s, op)))
  {
    hide ScheduleAsserts, Scheduled, Before;
    BeforeOk(s, op);
    if Schedules(op) {
      ScheduledValid(Before(s, op));
    }
  }

  // ---------- what each call does to the tasks ----------

  /** A tick or a yield: the first ready task runs and the caller is ready, last in the list; with no
      other task ready the caller runs on. */
  lemma TickRotates(s: Sched, op: Op)
    requires Valid(s) && (op.Tick? || op.Yield?)
    ensures Step(s, op) ==
      if s.ready == [] then s
      else Sched(s.status[s.current := Ready][s.ready[0] := Running], s.ready[1..] + [s.current], s.ready[0])
  {
    if s.ready == [] {
      assert s.ready + [s.current] == [s.current];
      assert s.status[s.current := Ready][s.current := Running] == s.status;
    } else {
      assert (s.ready + [s.current])[1..] == s.ready[1..] + [s.current];
    }
  }

  /** Blocking: the caller is in the given state and on no list, and the first ready task runs; with
      none ready the main thread runs, which for that reason cannot block itself for long. */
  lemma BlockLeaves(s: Sched, state: Status)
    requires Valid(s) && Enabled(s, Block(state))
    ensures Step(s, Block(state)) ==
      if s.ready != [] then Sched(s.status[s.current := state][s.ready[0] := Running], s.ready[1..], s.ready[0])
      else Sched(s.status[s.current := state][MAIN := Running], [], MAIN)
  {
    if s.ready == [] {
      assert ([MAIN] + s.ready)[1..] == [];
      assert s.status[s.current := state][MAIN := Ready][MAIN := Running] == s.status[s.current := state][MAIN := Running];
    }
  }

  /** Waking and starting: ready, first or last in the list; freeing: on no list any more. Nothing else
      changes. */
  lemma OthersStay(s: Sched, t: nat)
    requires Valid(s)
    ensures Enabled(s, Wake(t)) ==> Step(s, Wake(t)) == Sched(s.status[t := Ready], [t] + s.ready, s.current)
    ensures Enabled(s, Start(t)) ==> Step(s, Start(t)) == Sched(s.status[t := Ready], s.ready + [t], s.current)
    ensures Enabled(s, Exit(t)) ==> var n := Step(s, Exit(t));
      n.status == s.status - {t} && n.current == s.current
      && (forall u :: u in n.ready <==> u in s.ready && u != t)
  {
    if Enabled(s, Exit(t)) {
      WithoutRepeats(s.ready, t);
    }
  }

  /** Ready to run or running. */
  predicate Runnable(s: Sched, t: nat) {
    t in s.status && (s.status[t].Ready? || s.status[t].Running?)
  }

  /** No call makes a task runnable or stops it but those for it; and when nothing else is runnable the
      main thread becomes so. */
  lemma StepRunnable(s: Sched, op: Op, t: nat)
    requires Valid(s) && Enabled(s, op)
    ensures Runnable(Step(s, op), t) <==>
      match op
      case Tick => Runnable(s, t)
      case Yield => Runnable(s, t)
      case Block(_) => (Runnable(s, t) && t != s.current) || (t == MAIN && s.ready == [])
      case Wake(u) => Runnable(s, t) || t == u
      case Start(u) => Runnable(s, t) || t == u
      case Exit(u) => Runnable(s, t) && t != u
  {
    hide Step;
    if s.ready != [] {
      assert s.ready[0] in s.ready;
    }
    match op
    case Tick => TickRotates(s, op);
    case Yield => TickRotates(s, op);
    case Block(state) => BlockLeaves(s, state);
    case Wake(u) => OthersStay(s, u);
    case Start(u) => OthersStay(s, u);
    case Exit(u) => OthersStay(s, u);
  }

  /** Task t neither blocks itself nor is freed. */
  predicate GoesOn(s: Sched, ops: seq<Op>, t: nat)
    requires AllEnabled(s, ops)
    decreases |ops|
  {
    |ops| > 0 ==>
      !(ops[0].Block? && s.current == t) && ops[0] != Exit(t) && GoesOn(Step(s, ops[0]), ops[1..], t)
  }

  /** Over any run a task that was started or woken stays ready or running until it blocks itself or is
      freed. */
  lemma {:induction false} StaysRunnable(s: Sched, ops: seq<Op>, t: nat)
    requires Valid(s) && AllEnabled(s, ops) && Runnable(s, t) && GoesOn(s, ops, t)
    ensures Runnable(Run(s, ops), t)
    decreases |ops|
  {
    hide Step, Valid, Enabled, Runnable;
    if |ops| > 0 {
      StepValid(s, ops[0]);
      StepRunnable(s, ops[0], t);
      StaysRunnable(Step(s, ops[0]), ops[1..], t);
    }
  }

  /** Only the main thread exists, and runs. */
  function Init(): Sched {
    Sched(map[MAIN := Running], [], MAIN)
  }

  predicate AllEnabled(s: Sched, ops: seq<Op>)
    decreases |ops|
  {
    s.current in s.status && (|ops| > 0 ==> Enabled(s, ops[0]) && AllEnabled(Step(s, ops[0]), ops[1..]))
  }

  function Run(s: Sched, ops: seq<Op>): Sched
    requires AllEnabled(s, ops)
    decreases |ops|
  {
    if |ops| == 0 then s else Run(Step(s, ops[0]), ops[1..])
  }

  /** In every reachable state exactly one task is running and the ready list holds exactly the
      ready tasks, once each. */
  lemma {:induction false} RunValid(s: Sched, ops: seq<Op>)
    requires Valid(s) && AllEnabled(s, ops)
    ensures Valid(Run(s, ops))
    decreases |ops|
  {
    hide Step, Valid, Enabled;
    if |ops| > 0 {
      StepValid(s, ops[0]);
      RunValid(Step(s, ops[0]), ops[1..]);
    }
  }

  lemma ReachableValid(ops: seq<Op>)
    requires AllEnabled(Init(), ops)
    ensures var s := Run(Init(), ops);
      && (exists t :: t in s.status && s.status[t].Running? && forall u :: u in s.status && s.status[u].Running? ==> u == t)
      && NoRepeats(s.ready) && (forall t :: t in s.ready <==> t in s.status && s.status[t].Ready?)
  {
    RunValid(Init(), ops);
  }

  /** What happens until a task is dispatched: the calls of Schedule, the wake-ups at the head,
      and the tasks ahead of it that were freed. */
  datatype Tally = Tally(dispatched: bool, schedules: nat, wakes: nat, freed: nat)

  predicate FreesAhead(s: Sched, op: Op, t: nat) {
    op.Exit? && exists i, j :: 0 <= i < j < |s.ready| && s.ready[i] == op.task && s.ready[j] == t
  }

  function Watch(s: Sched, ops: seq<Op>, t: nat): Tally
    requires AllEnabled(s, ops)
    decreases |ops|
  {
    if s.current == t || |ops| == 0 then Tally(s.current == t, 0, 0, 0)
    else
      var rest := Watch(Step(s, ops[0]), ops[1..], t);
      rest.(schedules := rest.schedules + if Schedules(ops[0]) then 1 else 0,
            wakes := rest.wakes + if ops[0].Wake? then 1 else 0,
            freed := rest.freed + if FreesAhead(s, ops[0], t) then 1 else 0)
  }

  lemma {:induction false} WithoutAt(list: seq<nat>, u: nat, k: nat)
    requires NoRepeats(list) && k < |list| && list[k] != u
    ensures var at := if exists i :: 0 <= i < k && list[i] == u then k - 1 else k;
      0 <= at < |Without(list, u)| && Without(list, u)[at] == list[k]
  {
    var rest := list[1..];
    assert forall i :: 0 <= i < |rest| ==> rest[i] == list[i + 1];
    if list[0] == u {
      WithoutAbsent(rest, u);
    } else if k > 0 {
      WithoutAt(rest, u, k - 1);
      if exists i :: 0 <= i < k && list[i] == u {
        var i :| 0 <= i < k && list[i] == u;
        assert rest[i - 1] == u;
      }
      assert (exists i :: 0 <= i < k - 1 && rest[i] == u) ==> exists i :: 0 <= i < k && list[i] == u by {
        if exists i :: 0 <= i < k - 1 && rest[i] == u {
          var i :| 0 <= i < k - 1 && rest[i] == u;
          assert list[i + 1] == u;
        }
      }
    }
  }

  /** One call moves a ready task one place ahead, one place back, or not at all. */
  lemma PlaceStep(s: Sched, op: Op, t: nat, k: nat)
    requires Valid(s) && Enabled(s, op) && k < |s.ready| && s.ready[k] == t && op != Exit(t)
    ensures var n := Step(s, op);
      var at := k + (if op.Wake? then 1 else 0) - (if Schedules(op) then 1 else 0) - (if FreesAhead(s, op, t) then 1 else 0);
      if at == -1 then n.current == t else n.current != t && 0 <= at < |n.ready| && n.ready[at] == t
  {
    assert t in s.ready;
    BeforeOk(s, op);
    if Schedules(op) {
      var b := Before(s, op);
      assert b.ready[k] == t && b.ready[0] == s.ready[0];
      var r := Requeued(b);
      assert r.ready[k] == t;
      RequeuedOk(b);
    } else if op.Exit? {
      WithoutAt(s.ready, op.task, k);
      assert FreesAhead(s, op, t) <==> exists i :: 0 <= i < k && s.ready[i] == op.task;
    }
  }

  /** The exact dispatch delay: a ready task at position k that is not freed runs after exactly
      k + 1 calls of Schedule, one more for each wake-up put in front meanwhile and one less
      for each task ahead that was freed; before that it stays ready at the place they leave it. */
  lemma {:induction false} DispatchDelay(s: Sched, ops: seq<Op>, t: nat, k: nat)
    requires Valid(s) && AllEnabled(s, ops) && k < |s.ready| && s.ready[k] == t && Exit(t) !in ops
    ensures var w := Watch(s, ops, t);
      if w.dispatched then w.schedules + w.freed == k + 1 + w.wakes
      else
        var at := k + w.wakes - w.schedules - w.freed;
        0 <= at < |Run(s, ops).ready| && Run(s, ops).ready[at] == t
    decreases |ops|
  {
    hide Step, FreesAhead, Enabled;
    assert t in s.ready && s.current != t;
    if |ops| > 0 {
      StepValid(s, ops[0]);
      PlaceStep(s, ops[0], t, k);
      var n := Step(s, ops[0]);
      if n.current != t {
        var at := k + (if ops[0].Wake? then 1 else 0) - (if Schedules(ops[0]) then 1 else 0)
          - (if FreesAhead(s, ops[0], t) then 1 else 0);
        DispatchDelay(n, ops[1..], t, at);
      }
    }
  }
}
