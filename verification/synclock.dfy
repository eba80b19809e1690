/** The re-entrant lock of src/kernel/synclock.c over the semaphore of
    src/include/book/semaphore.h, for any number of tasks. Every read, write or assertion of
    SyncLock and SyncUnlock is a step of its own, and so is each SemaphoreDown and SemaphoreUp;
    the steps of different tasks interleave freely. */
module Synclocks {

  /** Where a task is: between its calls, or in front of a step of one. */
  datatype PC =
    | Outside
    | Inside
    | TestHolder
    | Down
    | Waiting
    | SetHolder
    | AssertZero
    | SetCount
    | Increment
    | AssertHolder
    | TestCount
    | Decrement
    | AssertOne
    | ClearHolder
    | ClearCount
    | Up

  datatype Holder = Nobody | Task(task: nat)

  /** The lock, the position of every task, and how often each has locked and not unlocked. */
  datatype State = State(holder: Holder, count: int, counter: int, waiters: seq<nat>, pc: seq<PC>, depth: seq<int>)

  datatype Step = Lock(task: nat) | Unlock(task: nat) | Advance(task: nat)

  function Init(tasks: nat): State {
    State(Nobody, 0, 1, [], seq(tasks, _ => Outside), seq(tasks, _ => 0))
  }

  function Go(s: State, t: nat, pc: PC): State
    requires t < |s.pc|
  {
    s.(pc := s.pc[t := pc])
  }

  predicate Sized(s: State) {
    |s.depth| == |s.pc| && forall i :: 0 <= i < |s.waiters| ==> s.waiters[i] < |s.pc|
  }

  /** A task calls SyncLock when it is in no call, SyncUnlock when it is inside, and goes on
      with a call unless it waits. */
  predicate Enabled(s: State, step: Step) {
    && step.task < |s.pc|
    && var pc := s.pc[step.task];
      match step
      case Lock(_) => pc.Outside? || pc.Inside?
      case Unlock(_) => pc.Inside?
      case Advance(_) => !pc.Outside? && !pc.Inside? && !pc.Waiting?
  }

  function SemaphoreDown(s: State, t: nat): State
    requires t < |s.pc|
  {
    if s.counter > 0 then Go(s.(counter := s.counter - 1), t, SetHolder)
    else Go(s.(waiters := s.waiters + [t]), t, Waiting)
  }

  /** With waiters the semaphore is handed to the first and its counter stays. */
  function SemaphoreUp(s: State, t: nat): State
    requires Sized(s) && t < |s.pc|
  {
    if s.waiters == [] then Go(s.(counter := s.counter + 1), t, Outside)
    else Go(Go(s.(waiters := s.waiters[1..]), s.waiters[0], SetHolder), t, Outside)
  }

  /** The next step of a task's call. */
  function Next(s: State, step: Step): State
    requires Sized(s) && Enabled(s, step)
  {
    var t := step.task;
    match step
    case Lock(_) => Go(s, t, TestHolder)
    case Unlock(_) => Go(s, t, AssertHolder)
    case Advance(_) =>
      match s.pc[t]
      case TestHolder => Go(s, t, if s.holder != Task(t) then Down else Increment)
      case Down => SemaphoreDown(s, t)
      case SetHolder => Go(s.(holder := Task(t)), t, AssertZero)
      case AssertZero => Go(s, t, SetCount)
      case SetCount => Go(s.(count := 1, depth := s.depth[t := s.depth[t] + 1]), t, Inside)
      case Increment => Go(s.(count := s.count + 1, depth := s.depth[t := s.depth[t] + 1]), t, Inside)
      case AssertHolder => Go(s, t, TestCount)
      case TestCount => Go(s, t, if s.count > 1 then Decrement else AssertOne)
      case Decrement => Go(s.(count := s.count - 1, depth := s.depth[t := s.depth[t] - 1]), t, Inside)
      case AssertOne => Go(s, t, ClearHolder)
      case ClearHolder => Go(s.(holder := Nobody), t, ClearCount)
      case ClearCount => Go(s.(count := 0, depth := s.depth[t := s.depth[t] - 1]), t, Up)
      case Up => SemaphoreUp(s, t)
      case _ => s
  }

  /** The assertions of synclock.c:50, 71 and 82, for a task in front of one. */
  predicate AssertionHolds(s: State, t: nat)
    requires t < |s.pc|
  {
    match s.pc[t]
    case AssertZero => s.count == 0
    case AssertHolder => s.holder == Task(t)
    case AssertOne => s.count == 1
    case _ => true
  }

  predicate AssertionsHold(s: State) {
    forall t :: 0 <= t < |s.pc| ==> AssertionHolds(s, t)
  }

  /** The task has the semaphore. */
  predicate Owns(s: State, t: nat)
    requires Sized(s) && t < |s.pc|
  {
    match s.pc[t]
    case Outside => false
    case Down => false
    case Waiting => false
    case TestHolder => s.depth[t] > 0
    case _ => true
  }

  /** What is true of the holder and the count while task t owns the semaphore. */
  predicate OwnerOk(s: State, t: nat)
    requires Sized(s) && t < |s.pc|
  {
    match s.pc[t]
    case SetHolder => s.holder == Nobody && s.count == 0 && s.depth[t] == 0
    case AssertZero => s.holder == Task(t) && s.count == 0 && s.depth[t] == 0
    case SetCount => s.holder == Task(t) && s.count == 0 && s.depth[t] == 0
    case Decrement => s.holder == Task(t) && s.count == s.depth[t] > 1
    case AssertOne => s.holder == Task(t) && s.count == s.depth[t] == 1
    case ClearHolder => s.holder == Task(t) && s.count == s.depth[t] == 1
    case ClearCount => s.holder == Nobody && s.count == s.depth[t] == 1
    case Up => s.holder == Nobody && s.count == s.depth[t] == 0
    case _ => s.holder == Task(t) && s.count == s.depth[t] > 0
  }

  predicate QueueOk(s: State)
    requires Sized(s)
  {
    && (forall i, j :: 0 <= i < j < |s.waiters| ==> s.waiters[i] != s.waiters[j])
    && (forall t :: 0 <= t < |s.pc| ==> (t in s.waiters <==> s.pc[t].Waiting?))
  }

  /** Only task o owns the semaphore; nobody but o holds the lock or is inside a nesting. */
  predicate TaskOk(s: State, t: nat, o: int)
    requires Sized(s) && t < |s.pc|
  {
    && (Owns(s, t) <==> t == o)
    && if t == o then OwnerOk(s, t) else s.depth[t] == 0 && s.holder != Task(t)
  }

  /** The invariant, with the owner of the semaphore, or -1 when its counter is 1: then nobody
      waits and nobody holds. */
  predicate InvBy(s: State, o: int) {
    && Sized(s) && QueueOk(s) && -1 <= o < |s.pc|
    && (forall t :: 0 <= t < |s.pc| ==> TaskOk(s, t, o))
    && s.counter == (if o == -1 then 1 else 0)
    && (o == -1 ==> s.waiters == [] && s.holder == Nobody && s.count == 0)
  }

  ghost predicate Inv(s: State) {
    exists o :: InvBy(s, o)
  }

  lemma InitInv(tasks: nat)
    ensures Inv(Init(tasks))
  {
    assert InvBy(Init(tasks), -1);
  }

  function NewOwner(s: State, o: int, step: Step): int
    requires Sized(s) && Enabled(s, step)
  {
    if step.Advance? && s.pc[step.task].Down? && s.counter > 0 then step.task
    else if step.Advance? && s.pc[step.task].Up? then (if s.waiters == [] then -1 else s.waiters[0])
    else o
  }

  /** A step that neither takes nor gives up the semaphore. */
  predicate Local(s: State, step: Step)
    requires Enabled(s, step)
  {
    step.Advance? ==> !s.pc[step.task].Down? && !s.pc[step.task].Up?
  }

  lemma LocalTask(s: State, step: Step, o: int, u: nat)
    requires InvBy(s, o) && Enabled(s, step) && Local(s, step) && u < |s.pc|
    ensures TaskOk(Next(s, step), u, o)
  {
    var t, n := step.task, Next(s, step);
    assert TaskOk(s, t, o) && TaskOk(s, u, o);
    assert u != t ==> n.pc[u] == s.pc[u] && n.depth[u] == s.depth[u];
  }

  lemma LocalSteps(s: State, step: Step, o: int)
    requires InvBy(s, o) && Enabled(s, step) && Local(s, step)
    ensures InvBy(Next(s, step), o)
  {
    hide TaskOk;
    forall u | 0 <= u < |s.pc| ensures TaskOk(Next(s, step), u, o) {
      LocalTask(s, step, o, u);
    }
    if o == -1 {
      assert TaskOk(s, step.task, o);
      NobodyMoves(s, step);
    }
  }

  lemma NobodyMoves(s: State, step: Step)
    requires InvBy(s, -1) && Enabled(s, step) && Local(s, step)
    ensures Next(s, step).holder == Nobody && Next(s, step).count == 0
  {
    assert TaskOk(s, step.task, -1);
  }

  lemma DownSteps(s: State, t: nat, o: int)
    requires InvBy(s, o) && t < |s.pc| && s.pc[t].Down?
    ensures InvBy(SemaphoreDown(s, t), if s.counter > 0 then t else o)
  {
    var n := SemaphoreDown(s, t);
    assert TaskOk(s, t, o);
    var p := if s.counter > 0 then t else o;
    forall u | 0 <= u < |s.pc| ensures TaskOk(n, u, p) {
      assert TaskOk(s, u, o);
    }
  }

  lemma UpSteps(s: State, t: nat, o: int)
    requires InvBy(s, o) && t < |s.pc| && s.pc[t].Up?
    ensures InvBy(SemaphoreUp(s, t), if s.waiters == [] then -1 else s.waiters[0])
  {
    hide QueueOk;
    var n := SemaphoreUp(s, t);
    assert TaskOk(s, t, o);
    UpQueue(s, t);
    var p := if s.waiters == [] then -1 else s.waiters[0];
    forall u | 0 <= u < |s.pc| ensures TaskOk(n, u, p) {
      assert TaskOk(s, u, o);
    }
  }

  lemma UpQueue(s: State, t: nat)
    requires Sized(s) && QueueOk(s) && t < |s.pc| && s.pc[t].Up?
    ensures Sized(SemaphoreUp(s, t)) && QueueOk(SemaphoreUp(s, t)) && t !in s.waiters
    ensures s.waiters != [] ==> s.pc[s.waiters[0]].Waiting?
  {
    if s.waiters != [] {
      var w := s.waiters[0];
      assert w in s.waiters && s.waiters == [w] + s.waiters[1..];
    }
  }

  lemma StepKeeps(s: State, step: Step, o: int)
    requires InvBy(s, o) && Enabled(s, step)
    ensures InvBy(Next(s, step), NewOwner(s, o, step))
  {
    hide InvBy, QueueOk;
    assert Sized(s) by { InvSized(s, o); }
    if Local(s, step) {
      LocalSteps(s, step, o);
    } else if s.pc[step.task].Down? {
      DownSteps(s, step.task, o);
    } else {
      UpSteps(s, step.task, o);
    }
  }

  lemma InvSized(s: State, o: int)
    requires InvBy(s, o)
    ensures Sized(s)
  {
  }

  /** The states that a run goes through. */
  predicate IsRun(run: seq<State>, steps: seq<Step>) {
    && |run| == |steps| + 1
    && forall i :: 0 <= i < |steps| ==> Sized(run[i]) && Enabled(run[i], steps[i]) && run[i + 1] == Next(run[i], steps[i])
  }

  lemma {:induction false} RunKeeps(run: seq<State>, steps: seq<Step>, i: nat)
    requires IsRun(run, steps) && Inv(run[0]) && i < |run|
    ensures Inv(run[i])
  {
    if i > 0 {
      RunKeeps(run, steps, i - 1);
      var o :| InvBy(run[i - 1], o);
      StepKeeps(run[i - 1], steps[i - 1], o);
    }
  }

  /** In every reachable state, for any number of tasks: at most one is inside, the count is its
      nesting depth, a positive counter means that nobody waits, and no assertion fails. */
  lemma LockIsSafe(tasks: nat, run: seq<State>, steps: seq<Step>, i: nat)
    requires IsRun(run, steps) && run[0] == Init(tasks) && i < |run|
    ensures var s := run[i];
      && Sized(s) && AssertionsHold(s)
      && (forall t, u :: 0 <= t < |s.pc| && 0 <= u < |s.pc| && s.pc[t].Inside? && s.pc[u].Inside? ==> t == u)
      && (forall t :: 0 <= t < |s.pc| && s.pc[t].Inside? ==> s.holder == Task(t) && s.count == s.depth[t])
      && (s.counter > 0 ==> s.waiters == [])
  {
    InitInv(tasks);
    RunKeeps(run, steps, i);
    var o :| InvBy(run[i], o);
    forall t | 0 <= t < |run[i].pc|
      ensures AssertionHolds(run[i], t)
      ensures run[i].pc[t].Inside? ==> t == o && run[i].holder == Task(t) && run[i].count == run[i].depth[t]
    {
      assert TaskOk(run[i], t, o);
    }
  }

  // ---------- the depth, told from the calls ----------

  /** How many calls of SyncLock a task made, less its calls of SyncUnlock. */
  function Balance(steps: seq<Step>, t: nat): int
    decreases |steps|
  {
    if |steps| == 0 then 0
    else
      var last := steps[|steps| - 1];
      Balance(steps[..|steps| - 1], t)
        + (if last == Lock(t) then 1 else 0) - (if last == Unlock(t) then 1 else 0)
  }

  /** What the call that a task is in still has to do to its depth. */
  function Due(pc: PC): int {
    match pc
    case Outside => 0
    case Inside => 0
    case Up => 0
    case TestHolder => 1
    case Down => 1
    case Waiting => 1
    case SetHolder => 1
    case AssertZero => 1
    case SetCount => 1
    case Increment => 1
    case AssertHolder => -1
    case TestCount => -1
    case Decrement => -1
    case AssertOne => -1
    case ClearHolder => -1
    case ClearCount => -1
  }

  lemma UpBalance(s: State, u: nat, t: nat)
    requires Sized(s) && u < |s.pc| && s.pc[u].Up? && t < |s.pc| && QueueOk(s)
    ensures var n := SemaphoreUp(s, u);
      Sized(n) && |n.pc| == |s.pc| && n.depth == s.depth && Due(n.pc[t]) == Due(s.pc[t])
  {
    if s.waiters != [] {
      assert s.waiters[0] in s.waiters;
    }
  }

  lemma StepBalance(s: State, step: Step, t: nat)
    requires Sized(s) && Enabled(s, step) && t < |s.pc| && QueueOk(s)
    ensures var n := Next(s, step);
      && Sized(n) && |n.pc| == |s.pc|
      && n.depth[t] + Due(n.pc[t]) - s.depth[t] - Due(s.pc[t]) ==
        (if step == Lock(t) then 1 else 0) - (if step == Unlock(t) then 1 else 0)
  {
    hide QueueOk, SemaphoreUp;
    if step.Advance? && s.pc[step.task].Up? {
      UpBalance(s, step.task, t);
    }
  }

  lemma {:induction false} DepthIsBalance(run: seq<State>, steps: seq<Step>, i: nat, t: nat)
    requires IsRun(run, steps) && Inv(run[0]) && i < |run| && t < |run[0].pc|
    requires run[0].depth[t] == 0 && run[0].pc[t].Outside?
    ensures Sized(run[i]) && |run[i].pc| == |run[0].pc|
    ensures run[i].depth[t] + Due(run[i].pc[t]) == Balance(steps[..i], t)
  {
    hide InvBy, QueueOk, Next, Due;
    RunKeeps(run, steps, i);
    InvQueue(run[i]);
    if i == 0 {
      assert Due(Outside) == 0 by { OutsideDue(); }
    } else {
      DepthIsBalance(run, steps, i - 1, t);
      RunKeeps(run, steps, i - 1);
      InvQueue(run[i - 1]);
      StepBalance(run[i - 1], steps[i - 1], t);
      assert run[i] == Next(run[i - 1], steps[i - 1]);
      assert steps[..i][..i - 1] == steps[..i - 1];
    }
  }

  lemma OutsideDue()
    ensures Due(Outside) == 0
  {
  }

  /** In every reachable state the count is the number of calls of SyncLock less those of SyncUnlock of
      the task inside; a task outside has unlocked as often as it locked; and while one task is inside
      any other that has a call of SyncLock open is waiting in it, with nothing else to unlock. */
  lemma CountIsBalance(tasks: nat, run: seq<State>, steps: seq<Step>, i: nat, t: nat)
    requires IsRun(run, steps) && run[0] == Init(tasks) && i < |run| && t < tasks
    ensures var s := run[i]; var b := Balance(steps[..i], t);
      && |s.pc| == tasks
      && (s.pc[t].Inside? ==> s.count == b && b > 0)
      && (s.pc[t].Outside? ==> b == 0)
      && (forall u :: 0 <= u < tasks && u != t && s.pc[u].Inside? ==>
        b == (if s.pc[t].Outside? then 0 else 1)
        && (s.pc[t].Outside? || s.pc[t].TestHolder? || s.pc[t].Down? || s.pc[t].Waiting?))
  {
    hide QueueOk, Next;
    InitInv(tasks);
    DepthIsBalance(run, steps, i, t);
    RunKeeps(run, steps, i);
    var o :| InvBy(run[i], o);
    assert TaskOk(run[i], t, o);
    forall u | 0 <= u < tasks && run[i].pc[u].Inside? ensures u == o {
      assert TaskOk(run[i], u, o);
    }
  }

  // ---------- a whole call, as long as no other task gets in between ----------

  /** The state after up to n steps of task t, which stops where it waits or is out of the call. */
  function Advanced(s: State, t: nat, n: nat): State
    requires Sized(s) && t < |s.pc|
    decreases n
  {
    if n == 0 || !Enabled(s, Advance(t)) then s
    else
      var m := Next(s, Advance(t));
      if Sized(m) && |m.pc| == |s.pc| then Advanced(m, t, n - 1) else m
  }

  /** One step of a call that is not at its semaphore. */
  lemma AdvanceOnce(s: State, t: nat, n: nat, m: State)
    requires Sized(s) && t < |s.pc| && n > 0 && Enabled(s, Advance(t)) && m == Next(s, Advance(t))
    requires Sized(m) && |m.pc| == |s.pc|
    ensures Advanced(s, t, n) == Advanced(m, t, n - 1)
  {
  }

  lemma AdvanceNone(s: State, t: nat, n: nat)
    requires Sized(s) && t < |s.pc| && (s.pc[t].Outside? || s.pc[t].Inside? || s.pc[t].Waiting?)
    ensures Advanced(s, t, n) == s
  {
  }

  /** A free lock is taken: the caller is inside and holds it once. */
  lemma LockTakes(s: State, t: nat)
    requires InvBy(s, -1) && t < |s.pc| && s.pc[t].Outside?
    ensures Advanced(Next(s, Lock(t)), t, 5) ==
      State(Task(t), 1, 0, [], s.pc[t := Inside], s.depth[t := s.depth[t] + 1])
  {
    hide Advanced, QueueOk;
    assert TaskOk(s, t, -1);
    var s1 := Next(s, Lock(t));
    var s2 := Next(s1, Advance(t));
    var s3 := Next(s2, Advance(t));
    var s4 := Next(s3, Advance(t));
    var s5 := Next(s4, Advance(t));
    var s6 := Next(s5, Advance(t));
    AdvanceOnce(s1, t, 5, s2);
    AdvanceOnce(s2, t, 4, s3);
    AdvanceOnce(s3, t, 3, s4);
    AdvanceOnce(s4, t, 2, s5);
    AdvanceOnce(s5, t, 1, s6);
    AdvanceNone(s6, t, 0);
    assert s6.pc == s.pc[t := Inside];
  }

  /** The task inside takes it once more, without waiting, and nothing else changes. */
  lemma LockNests(s: State, t: nat, o: int)
    requires InvBy(s, o) && t < |s.pc| && s.pc[t].Inside?
    ensures Advanced(Next(s, Lock(t)), t, 2) == s.(count := s.count + 1, depth := s.depth[t := s.depth[t] + 1])
  {
    hide Advanced, QueueOk;
    assert TaskOk(s, t, o);
    var s1 := Next(s, Lock(t));
    var s2 := Next(s1, Advance(t));
    var s3 := Next(s2, Advance(t));
    AdvanceOnce(s1, t, 2, s2);
    AdvanceOnce(s2, t, 1, s3);
    AdvanceNone(s3, t, 0);
    assert s3.pc == s.pc;
  }

  /** One unlock undoes one lock; the last one gives the lock up, to the first that waits. */
  lemma UnlockUndoes(s: State, t: nat, o: int)
    requires InvBy(s, o) && t < |s.pc| && s.pc[t].Inside? && s.count > 1
    ensures Advanced(Next(s, Unlock(t)), t, 3) == s.(count := s.count - 1, depth := s.depth[t := s.depth[t] - 1])
  {
    hide Advanced, QueueOk;
    assert TaskOk(s, t, o);
    var s1 := Next(s, Unlock(t));
    var s2 := Next(s1, Advance(t));
    var s3 := Next(s2, Advance(t));
    var s4 := Next(s3, Advance(t));
    AdvanceOnce(s1, t, 3, s2);
    AdvanceOnce(s2, t, 2, s3);
    AdvanceOnce(s3, t, 1, s4);
    AdvanceNone(s4, t, 0);
    assert s4.pc == s.pc;
  }

  lemma UnlockReleases(s: State, t: nat, o: int)
    requires InvBy(s, o) && t < |s.pc| && s.pc[t].Inside? && s.count == 1
    ensures Advanced(Next(s, Unlock(t)), t, 6) ==
      if s.waiters == [] then State(Nobody, 0, 1, [], s.pc[t := Outside], s.depth[t := 0])
      else State(Nobody, 0, 0, s.waiters[1..], s.pc[t := Outside][s.waiters[0] := SetHolder], s.depth[t := 0])
  {
    hide Advanced;
    assert TaskOk(s, t, o);
    var s1 := Next(s, Unlock(t));
    var s2 := Next(s1, Advance(t));
    var s3 := Next(s2, Advance(t));
    var s4 := Next(s3, Advance(t));
    var s5 := Next(s4, Advance(t));
    var s6 := Next(s5, Advance(t));
    var s7 := Next(s6, Advance(t));
    AdvanceOnce(s1, t, 6, s2);
    AdvanceOnce(s2, t, 5, s3);
    AdvanceOnce(s3, t, 4, s4);
    AdvanceOnce(s4, t, 3, s5);
    AdvanceOnce(s5, t, 2, s6);
    assert s.waiters != [] ==> s.waiters[0] in s.waiters;
    AdvanceOnce(s6, t, 1, s7);
    AdvanceNone(s7, t, 0);
  }

  /** A step that gives the semaphore up. */
  predicate Releases(s: State, step: Step)
    requires Enabled(s, step)
  {
    step.Advance? && s.pc[step.task].Up?
  }

  /** Waiters come in at the end and are granted from the front, one for each release. */
  lemma QueueStep(s: State, step: Step)
    requires Sized(s) && QueueOk(s) && Enabled(s, step)
    ensures |Next(s, step).pc| == |s.pc|
    ensures var n := Next(s, step);
      if Releases(s, step) && s.waiters != [] then n.waiters == s.waiters[1..] && n.pc[s.waiters[0]].SetHolder?
      else s.waiters <= n.waiters
  {
    var n := Next(s, step);
    if Releases(s, step) && s.waiters != [] {
      assert s.waiters[0] in s.waiters;
    }
  }

  lemma InvQueue(s: State)
    requires Inv(s)
    ensures Sized(s) && QueueOk(s)
  {
  }

  /** The number of releases among the first i steps. */
  function Released(run: seq<State>, steps: seq<Step>, i: nat): nat
    requires IsRun(run, steps) && i <= |steps|
  {
    if i == 0 then 0 else Released(run, steps, i - 1) + if Releases(run[i - 1], steps[i - 1]) then 1 else 0
  }

  /** First in, first out: the task that waits at position k still waits, k less the number of
      releases from the front, and is granted by exactly the (k + 1)st release. */
  lemma {:induction false} GrantedInOrder(run: seq<State>, steps: seq<Step>, i: nat, k: nat)
    requires IsRun(run, steps) && Inv(run[0]) && i <= |steps| && k < |run[0].waiters|
    requires i == 0 || Released(run, steps, i - 1) <= k
    ensures Released(run, steps, i) <= k + 1
    ensures Released(run, steps, i) <= k ==>
      k - Released(run, steps, i) < |run[i].waiters| && run[i].waiters[k - Released(run, steps, i)] == run[0].waiters[k]
    ensures i > 0 && Released(run, steps, i) == k + 1 ==>
      Sized(run[i]) && run[0].waiters[k] < |run[i].pc| && run[i].pc[run[0].waiters[k]].SetHolder?
  {
    hide InvBy, QueueOk, Next, Releases;
    if i > 0 {
      GrantedInOrder(run, steps, i - 1, k);
      RunKeeps(run, steps, i - 1);
      RunKeeps(run, steps, i);
      assert Sized(run[i - 1]) && QueueOk(run[i - 1]) by { InvQueue(run[i - 1]); }
      assert Sized(run[i]) by { InvQueue(run[i]); }
      QueueStep(run[i - 1], steps[i - 1]);
      assert run[i] == Next(run[i - 1], steps[i - 1]);
    }
  }
}
