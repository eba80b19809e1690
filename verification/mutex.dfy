/** The mutex of src/kernel/mutex.c, for any number of tasks. What the code does with interrupts
    off is one step (decrement or increment with the test of the result), as is the atomic
    exchange; all other reads and writes are steps of their own, in any interleaving. */
module Mutexes {
  import opened Lists

  /** Where a task is: outside, holding, or in front of a step of its call. The comments give
      the lines of src/kernel/mutex.c. */
  datatype PC =
    | Outside
    | Decrement       // 58-59
    | LockQueue       // 76
    | Enqueue         // 79
    | Exchange        // 87
    | SetBlocked      // 97
    | UnlockQueue     // 101
    | Asleep          // 104
    | Dequeue         // 115
    | TestEmpty       // 119
    | ResetCount      // 120
    | UnlockAcquired  // 124
    | Holding
    | Increment       // 156-157
    | LockToWake      // 168
    | TestCount       // 171
    | RepairCount     // 172
    | TestWaiter      // 177
    | WakeFirst       // 182
    | UnlockWoken     // 186

  datatype Spin = Free | TakenBy(task: nat)

  /** A sleeping task may run again once it was woken. */
  datatype State = State(count: int, waitLock: Spin, waiters: seq<nat>, pc: seq<PC>, blocked: seq<bool>)

  datatype Step = Lock(task: nat) | Unlock(task: nat) | Advance(task: nat) | WakeUp(task: nat)

  function Init(tasks: nat): State {
    State(1, Free, [], seq(tasks, _ => Outside), seq(tasks, _ => false))
  }

  predicate Sized(s: State) {
    |s.blocked| == |s.pc| && forall i :: 0 <= i < |s.waiters| ==> s.waiters[i] < |s.pc|
  }

  /** The spinlock is waited for; a task that sleeps goes on when it is not blocked and then
      takes the spinlock again. Anyone may wake a task at any time. */
  predicate Enabled(s: State, step: Step) {
    && |s.blocked| == |s.pc| && step.task < |s.pc|
    && var pc := s.pc[step.task];
      match step
      case Lock(_) => pc.Outside?
      case Unlock(_) => pc.Holding?
      case WakeUp(_) => true
      case Advance(t) =>
        && !pc.Outside? && !pc.Holding?
        && (pc.LockQueue? || pc.LockToWake? || pc.Asleep? ==> s.waitLock.Free?)
        && (pc.Asleep? ==> !s.blocked[t])
  }

  function Go(s: State, t: nat, pc: PC): State
    requires t < |s.pc|
  {
    s.(pc := s.pc[t := pc])
  }

  function Next(s: State, step: Step): State
    requires Sized(s) && Enabled(s, step)
  {
    var t := step.task;
    match step
    case Lock(_) => Go(s, t, Decrement)
    case Unlock(_) => Go(s, t, Increment)
    case WakeUp(_) => s.(blocked := s.blocked[t := false])
    case Advance(_) =>
      match s.pc[t]
      case Decrement => Go(s.(count := s.count - 1), t, if s.count - 1 >= 0 then Holding else LockQueue)
      case LockQueue => Go(s.(waitLock := TakenBy(t)), t, Enqueue)
      case Enqueue => Go(s.(waiters := s.waiters + [t]), t, Exchange)
      case Exchange => Go(s.(count := -1), t, if s.count == 1 then Dequeue else SetBlocked)
      case SetBlocked => Go(s.(blocked := s.blocked[t := true]), t, UnlockQueue)
      case UnlockQueue => Go(s.(waitLock := Free), t, Asleep)
      case Asleep => Go(s.(waitLock := TakenBy(t)), t, Exchange)
      case Dequeue => Go(s.(waiters := Without(s.waiters, t)), t, TestEmpty)
      case TestEmpty => Go(s, t, if s.waiters == [] then ResetCount else UnlockAcquired)
      case ResetCount => Go(s.(count := 0), t, UnlockAcquired)
      case UnlockAcquired => Go(s.(waitLock := Free), t, Holding)
      case Increment => Go(s.(count := s.count + 1), t, if s.count + 1 == 1 then Outside else LockToWake)
      case LockToWake => Go(s.(waitLock := TakenBy(t)), t, TestCount)
      case TestCount => Go(s, t, if s.count > 1 then RepairCount else TestWaiter)
      case RepairCount => Go(s.(count := 1), t, TestWaiter)
      case TestWaiter => Go(s, t, if s.waiters == [] then UnlockWoken else WakeFirst)
      case WakeFirst =>
        Go(if s.waiters == [] then s else s.(blocked := s.blocked[s.waiters[0] := false]), t, UnlockWoken)
      case UnlockWoken => Go(s.(waitLock := Free), t, Outside)
      case _ => s
  }

  /** From the step that acquires the mutex to the increment that gives it up. */
  predicate Holds(s: State, t: nat)
    requires t < |s.pc|
  {
    var pc := s.pc[t];
    pc.Dequeue? || pc.TestEmpty? || pc.ResetCount? || pc.UnlockAcquired? || pc.Holding? || pc.Increment?
  }

  /** The places where a task has the queue's spinlock. */
  predicate HasQueue(s: State, t: nat)
    requires t < |s.pc|
  {
    var pc := s.pc[t];
    pc.Enqueue? || pc.Exchange? || pc.SetBlocked? || pc.UnlockQueue? || pc.Dequeue? || pc.TestEmpty? || pc.ResetCount?
    || pc.UnlockAcquired? || pc.TestCount? || pc.RepairCount? || pc.TestWaiter? || pc.WakeFirst? || pc.UnlockWoken?
  }

  predicate TaskOk(s: State, t: nat, o: int)
    requires t < |s.pc|
  {
    && (Holds(s, t) <==> t == o)
    && (HasQueue(s, t) <==> s.waitLock == TakenBy(t))
    && !s.pc[t].RepairCount?
    && (s.pc[t].WakeFirst? ==> s.waiters != [])
  }

  /** The invariant with the holder of the mutex, or -1. */
  predicate InvBy(s: State, o: int) {
    && Sized(s) && -1 <= o < |s.pc|
    && (forall t :: 0 <= t < |s.pc| ==> TaskOk(s, t, o))
    && s.count <= 1 && (o >= 0 ==> s.count <= 0)
  }

  ghost predicate Inv(s: State) {
    exists o :: InvBy(s, o)
  }

  function NewHolder(s: State, o: int, step: Step): int
    requires Sized(s) && Enabled(s, step)
  {
    if !step.Advance? then o
    else
      match s.pc[step.task]
      case Decrement => if s.count == 1 then step.task else o
      case Exchange => if s.count == 1 then step.task else o
      case Increment => -1
      case _ => o
  }

  lemma TaskKeeps(s: State, step: Step, o: int, u: nat)
    requires InvBy(s, o) && Enabled(s, step) && u < |s.pc|
    ensures |Next(s, step).pc| == |s.pc| && TaskOk(Next(s, step), u, NewHolder(s, o, step))
  {
    var t := step.task;
    assert TaskOk(s, t, o) && TaskOk(s, u, o);
    assert u != t ==> Next(s, step).pc[u] == s.pc[u];
  }

  lemma CountKeeps(s: State, step: Step, o: int)
    requires InvBy(s, o) && Enabled(s, step)
    ensures var n, p := Next(s, step), NewHolder(s, o, step);
      n.count <= 1 && (p >= 0 ==> n.count <= 0)
  {
    assert TaskOk(s, step.task, o);
  }

  lemma StepKeeps(s: State, step: Step, o: int)
    requires InvBy(s, o) && Enabled(s, step)
    ensures InvBy(Next(s, step), NewHolder(s, o, step))
  {
    hide TaskOk;
    var n, p := Next(s, step), NewHolder(s, o, step);
    CountKeeps(s, step, o);
    forall u | 0 <= u < |s.pc| ensures TaskOk(n, u, p) {
      TaskKeeps(s, step, o, u);
    }
    SizeKeeps(s, step);
  }

  lemma SizeKeeps(s: State, step: Step)
    requires Sized(s) && Enabled(s, step)
    ensures Sized(Next(s, step)) && |Next(s, step).pc| == |s.pc|
  {
    var n := Next(s, step);
    forall i | 0 <= i < |n.waiters| ensures n.waiters[i] < |s.pc| {
      assert n.waiters[i] in n.waiters;
      assert n.waiters[i] == step.task || n.waiters[i] in s.waiters;
    }
  }

  predicate IsRun(run: seq<State>, steps: seq<Step>) {
    && |run| == |steps| + 1
    && forall i :: 0 <= i < |steps| ==> Sized(run[i]) && Enabled(run[i], steps[i]) && run[i + 1] == Next(run[i], steps[i])
  }

  lemma {:induction false} RunKeeps(run: seq<State>, steps: seq<Step>, i: nat)
    requires IsRun(run, steps) && Inv(run[0]) && i < |run|
    ensures Inv(run[i])
  {
    if i > 0 {
      RunKeeps(run, steps, i - 1);
      var o :| InvBy(run[i - 1], o);
      StepKeeps(run[i - 1], steps[i - 1], o);
    }
  }

  /** In every reachable state at most one task holds the mutex, the count is not positive while
      one does and never above 1, and the repair of a larger count never runs. */
  lemma MutualExclusion(tasks: nat, run: seq<State>, steps: seq<Step>, i: nat)
    requires IsRun(run, steps) && run[0] == Init(tasks) && i < |run|
    ensures var s := run[i];
      && s.count <= 1
      && (forall t :: 0 <= t < |s.pc| && Holds(s, t) ==> s.count <= 0)
      && (forall t, u :: 0 <= t < |s.pc| && 0 <= u < |s.pc| && Holds(s, t) && Holds(s, u) ==> t == u)
      && (forall t :: 0 <= t < |s.pc| ==> !s.pc[t].RepairCount?)
  {
    assert InvBy(run[0], -1);
    RunKeeps(run, steps, i);
    var o :| InvBy(run[i], o);
    forall t | 0 <= t < |run[i].pc| ensures (Holds(run[i], t) ==> t == o) && !run[i].pc[t].RepairCount? {
      assert TaskOk(run[i], t, o);
    }
  }

  /** The queue is touched by one task at a time. */
  lemma QueueExclusion(tasks: nat, run: seq<State>, steps: seq<Step>, i: nat)
    requires IsRun(run, steps) && run[0] == Init(tasks) && i < |run|
    ensures var s := run[i];
      forall t, u :: 0 <= t < |s.pc| && 0 <= u < |s.pc| && HasQueue(s, t) && HasQueue(s, u) ==> t == u
  {
    assert InvBy(run[0], -1);
    RunKeeps(run, steps, i);
    var o :| InvBy(run[i], o);
    forall t | 0 <= t < |run[i].pc| ensures HasQueue(run[i], t) ==> run[i].waitLock == TakenBy(t) {
      assert TaskOk(run[i], t, o);
    }
  }

  // ---------- what an unlock leaves behind ----------

  /** A free mutex is taken at once, ... */
  lemma FreeIsTaken(s: State, t: nat)
    requires InvBy(s, -1) && s.count == 1 && t < |s.pc| && s.pc[t].Outside?
    ensures var n := Next(s, Lock(t));
      && Sized(n) && Enabled(n, Advance(t))
      && Next(n, Advance(t)) == s.(count := 0, pc := s.pc[t := Holding])
  {
    assert s.pc[t := Decrement][t := Holding] == s.pc[t := Holding];
  }

  /** ... and an unlock that nobody tried to lock before makes it free again. */
  lemma UnlockFrees(s: State, t: nat, o: int)
    requires InvBy(s, o) && s.count == 0 && t < |s.pc| && s.pc[t].Holding?
    ensures var n := Next(s, Unlock(t));
      && Sized(n) && Enabled(n, Advance(t))
      && Next(n, Advance(t)) == s.(count := 1, pc := s.pc[t := Outside])
  {
    assert s.pc[t := Increment][t := Outside] == s.pc[t := Outside];
  }

  /** A lock that comes too late: the task is last in the queue and sleeps, and the count is -1. */
  lemma LockSleeps(s: State, t: nat, o: int)
    requires InvBy(s, o) && s.count <= 0 && s.waitLock.Free? && t < |s.pc| && s.pc[t].Outside?
    ensures var n := s.(count := -1, waiters := s.waiters + [t], pc := s.pc[t := Asleep], blocked := s.blocked[t := true]);
      Advanced(Next(s, Lock(t)), t, 6) == n
  {
    hide Advanced;
    var s1 := Next(s, Lock(t));
    var s2 := Next(s1, Advance(t));
    var s3 := Next(s2, Advance(t));
    var s4 := Next(s3, Advance(t));
    var s5 := Next(s4, Advance(t));
    var s6 := Next(s5, Advance(t));
    var s7 := Next(s6, Advance(t));
    AdvanceOnce(s1, t, 6, s2);
    AdvanceOnce(s2, t, 5, s3);
    AdvanceOnce(s3, t, 4, s4);
    AdvanceOnce(s4, t, 3, s5);
    AdvanceOnce(s5, t, 2, s6);
    AdvanceOnce(s6, t, 1, s7);
    AdvanceNone(s7, t);
  }

  /** An unlock that finds others: the first in the queue is woken, and the count one higher. */
  lemma UnlockWakes(s: State, t: nat, o: int)
    requires InvBy(s, o) && s.count < 0 && s.waitLock.Free? && s.waiters != [] && t < |s.pc| && s.pc[t].Holding?
    ensures Advanced(Next(s, Unlock(t)), t, 6) ==
      s.(count := s.count + 1, pc := s.pc[t := Outside], blocked := s.blocked[s.waiters[0] := false])
  {
    hide Advanced;
    var s1 := Next(s, Unlock(t));
    var s2 := Next(s1, Advance(t));
    var s3 := Next(s2, Advance(t));
    var s4 := Next(s3, Advance(t));
    var s5 := Next(s4, Advance(t));
    var s6 := Next(s5, Advance(t));
    var s7 := Next(s6, Advance(t));
    AdvanceOnce(s1, t, 6, s2);
    AdvanceOnce(s2, t, 5, s3);
    AdvanceOnce(s3, t, 4, s4);
    AdvanceOnce(s4, t, 3, s5);
    AdvanceOnce(s5, t, 2, s6);
    AdvanceOnce(s6, t, 1, s7);
    AdvanceNone(s7, t);
  }

  /** A waiter that finds the count 1 gets the mutex and leaves the queue; the count says whether others
      wait. */
  lemma WaiterGets(s: State, t: nat, o: int)
    requires InvBy(s, o) && s.count == 1 && t < |s.pc| && s.pc[t].Exchange?
    ensures var rest := Without(s.waiters, t);
      Advanced(s, t, 5) ==
        State(if rest == [] then 0 else -1, Free, rest, s.pc[t := Holding], s.blocked)
  {
    hide Advanced;
    SizeKeeps(s, Advance(t));
    var s1 := Next(s, Advance(t));
    SizeKeeps(s1, Advance(t));
    var s2 := Next(s1, Advance(t));
    var s3 := Next(s2, Advance(t));
    var s4 := Next(s3, Advance(t));
    AdvanceOnce(s, t, 5, s1);
    AdvanceOnce(s1, t, 4, s2);
    AdvanceOnce(s2, t, 3, s3);
    AdvanceOnce(s3, t, 2, s4);
    if s2.waiters == [] {
      var s5 := Next(s4, Advance(t));
      AdvanceOnce(s4, t, 1, s5);
      AdvanceNone(s5, t);
    } else {
      AdvanceStops(s4, t, 1);
    }
  }

  /** The state after up to n steps of task t alone. */
  function Advanced(s: State, t: nat, n: nat): State
    requires Sized(s) && t < |s.pc|
    decreases n
  {
    if n == 0 || !Enabled(s, Advance(t)) then s
    else
      var m := Next(s, Advance(t));
      if Sized(m) && |m.pc| == |s.pc| then Advanced(m, t, n - 1) else m
  }

  lemma AdvanceOnce(s: State, t: nat, n: nat, m: State)
    requires Sized(s) && t < |s.pc| && n > 0 && Enabled(s, Advance(t)) && m == Next(s, Advance(t))
    requires Sized(m) && |m.pc| == |s.pc|
    ensures Advanced(s, t, n) == Advanced(m, t, n - 1)
  {
  }

  lemma AdvanceNone(s: State, t: nat)
    requires Sized(s) && t < |s.pc|
    ensures Advanced(s, t, 0) == s
  {
  }

  lemma AdvanceStops(s: State, t: nat, n: nat)
    requires Sized(s) && t < |s.pc| && !Enabled(s, Advance(t))
    ensures Advanced(s, t, n) == s
  {
  }

  /** Nobody holds the mutex, and its count is not 1. */
  predicate Dead(s: State) {
    InvBy(s, -1) && s.count <= 0
  }

  /** No step gets out of that: a lock finds a negative count, and a waiter, woken or not, a count other
      than 1. */
  lemma DeadStays(s: State, step: Step)
    requires Dead(s) && Enabled(s, step)
    ensures Dead(Next(s, step))
  {
    hide TaskOk;
    StepKeeps(s, step, -1);
    assert TaskOk(s, step.task, -1);
    NotIncrement(s, step.task);
  }

  lemma NotIncrement(s: State, t: nat)
    requires t < |s.pc| && TaskOk(s, t, -1)
    ensures !s.pc[t].Increment? && !s.pc[t].ResetCount? && !s.pc[t].RepairCount?
  {
  }

  /** The increment of an unlock after another task had tried to lock. */
  predicate Kills(s: State, step: Step)
    requires Enabled(s, step)
  {
    step.Advance? && s.pc[step.task].Increment? && s.count < 0
  }

  /** Exactly that kills a mutex that was alive. */
  lemma KillsIff(s: State, step: Step, o: int)
    requires InvBy(s, o) && Enabled(s, step) && !Dead(s)
    ensures Dead(Next(s, step)) <==> Kills(s, step)
  {
    hide TaskOk;
    StepKeeps(s, step, o);
    assert TaskOk(s, step.task, o);
    HolderAt(s, step.task, o);
    if o == -1 && s.count == 1 {
      LiveFree(s, step);
    }
    OneHolder(Next(s, step), NewHolder(s, o, step));
  }

  lemma HolderAt(s: State, t: nat, o: int)
    requires t < |s.pc| && TaskOk(s, t, o)
    ensures s.pc[t].Increment? ==> t == o
  {
  }

  /** There is no other holder than the one. */
  lemma OneHolder(s: State, o: int)
    requires InvBy(s, o)
    ensures InvBy(s, -1) ==> o == -1
  {
    if o >= 0 {
      assert TaskOk(s, o, o);
      assert InvBy(s, -1) ==> TaskOk(s, o, -1);
    }
  }

  lemma LiveFree(s: State, step: Step)
    requires InvBy(s, -1) && s.count == 1 && Enabled(s, step)
    ensures Next(s, step).count == 1 || NewHolder(s, -1, step) >= 0
  {
    assert TaskOk(s, step.task, -1);
  }

  /** Over any run the mutex stays alive - held, or free for the next task that locks it - if and only
      if no unlock ever finds that another task had tried to lock; after such an unlock no task gets it
      any more. */
  lemma {:induction false} AliveIff(tasks: nat, run: seq<State>, steps: seq<Step>, i: nat)
    requires IsRun(run, steps) && run[0] == Init(tasks) && i < |run|
    ensures Inv(run[i]) && (!Dead(run[i]) <==> forall j :: 0 <= j < i ==> !Kills(run[j], steps[j]))
    ensures Dead(run[i]) ==> forall t :: 0 <= t < |run[i].pc| ==> !Holds(run[i], t)
    ensures !Dead(run[i]) ==> run[i].count == 1 || exists t :: 0 <= t < |run[i].pc| && Holds(run[i], t)
  {
    hide TaskOk, Next, Kills;
    assert InvBy(run[0], -1) && !Dead(run[0]) by { InitAlive(tasks); }
    RunKeeps(run, steps, i);
    if i > 0 {
      AliveIff(tasks, run, steps, i - 1);
      var o :| InvBy(run[i - 1], o);
      if Dead(run[i - 1]) {
        DeadStays(run[i - 1], steps[i - 1]);
      } else {
        KillsIff(run[i - 1], steps[i - 1], o);
      }
    }
    var p :| InvBy(run[i], p);
    AliveMeans(run[i], p);
  }

  lemma InitAlive(tasks: nat)
    ensures InvBy(Init(tasks), -1) && !Dead(Init(tasks))
  {
  }

  lemma AliveMeans(s: State, o: int)
    requires InvBy(s, o)
    ensures Dead(s) ==> forall t :: 0 <= t < |s.pc| ==> !Holds(s, t)
    ensures !Dead(s) ==> s.count == 1 || exists t :: 0 <= t < |s.pc| && Holds(s, t)
  {
    if o >= 0 {
      assert TaskOk(s, o, o);
    }
    if Dead(s) {
      forall t | 0 <= t < |s.pc| ensures !Holds(s, t) {
        assert TaskOk(s, t, -1);
      }
    }
  }

  /** Two tasks are enough: the second tries while the first holds, and the first unlocks. */
  lemma TwoTasksDie() returns (run: seq<State>)
    ensures IsRun(run, [Lock(0), Advance(0), Lock(1), Advance(1), Unlock(0), Advance(0)]) && run[0] == Init(2)
    ensures Dead(run[6])
  {
    var steps := [Lock(0), Advance(0), Lock(1), Advance(1), Unlock(0), Advance(0)];
    var s0 := Init(2);
    var s1 := Next(s0, steps[0]);
    var s2 := Next(s1, steps[1]);
    var s3 := Next(s2, steps[2]);
    var s4 := Next(s3, steps[3]);
    var s5 := Next(s4, steps[4]);
    run := [s0, s1, s2, s3, s4, s5, Next(s5, steps[5])];
    assert s5.count == -1 && s5.pc[0].Increment?;
    assert run[5] == s5 && Kills(run[5], steps[5]);
    AliveIff(2, run, steps, 6);
  }
}
