/** The scheduler's calls on the kernel's lists, each equal to its description in module
    Schedulers. The kernel's own ASSERTs appear as assertions. */
module Tasks {
  import opened Basics
  import opened Lists
  import opened Schedulers

  class TaskLists {
    var status: map<nat, Status>
    var taskReadyList: seq<nat>
    var current: nat

    ghost function State(): (s: Sched)
      reads this
    {
      Sched(status, taskReadyList, current)
    }

    /** MakeMainThread: the boot thread runs and is not in the ready list. */
    constructor ()
      ensures Valid(State()) && State() == Init()
    {
      status, taskReadyList, current := map[MAIN := Running], [], MAIN;
    }

    /** Puts a blocked, waiting or stopped task first in the ready list. */
    method TaskUnblock(t: nat)
      requires ListOk(State()) && t in status && Wakeable(status[t])
      modifies this
      ensures State() == Unblocked(old(State()), t)
      ensures taskReadyList == [t] + old(taskReadyList) && status == old(status)[t := Ready] && current == old(current)
    {
      assert status[t] == Blocked || status[t] == Waiting || status[t] == Stopped;
      if status[t] != Ready {
        assert t !in taskReadyList;
        taskReadyList := [t] + taskReadyList;
        status := status[t := Ready];
      }
    }

    method TaskWakeUp(t: nat)
      requires Valid(State()) && t in status
      modifies this
      ensures Valid(State())
      ensures State() ==
        if old(status)[t] == Blocked || old(status)[t] == Stopped then Step(old(State()), Wake(t)) else old(State())
    {
      if status[t] == Blocked || status[t] == Stopped {
        StepValid(State(), Wake(t));
        TaskUnblock(t);
      }
    }

    /** The wake-up in SemaphoreUp of the first waiter. */
    method SemaphoreWake(t: nat)
      requires Valid(State()) && t in status && status[t].Blocked?
      modifies this
      ensures Valid(State()) && State() == Step(old(State()), Wake(t))
    {
      StepValid(State(), Wake(t));
      assert t in taskReadyList <==> status[t].Ready?;
      status := status[t := Ready];
      assert t !in taskReadyList;
      taskReadyList := [t] + taskReadyList;
    }

    method Schedule()
      requires Leaving(State())
      modifies this
      ensures Valid(State()) && State() == Scheduled(old(State()))
      ensures var r := old(if status[current] == Running then taskReadyList + [current] else taskReadyList);
        var now := old(if status[current] == Running then status[current := Ready] else status);
        if r == [] then current == MAIN && taskReadyList == [] && status == now[MAIN := Running]
        else current == r[0] && taskReadyList == r[1..] && status == now[r[0] := Running]
    {
      ScheduledValid(State());
      RequeuedOk(State());
      if status[current] == Running {
        taskReadyList := taskReadyList + [current];
        status := status[current := Ready];
      }
      if taskReadyList == [] {
        TaskUnblock(MAIN);
      }
      assert taskReadyList != [];
      var next := taskReadyList[0];
      taskReadyList := taskReadyList[1..];
      status := status[next := Running];
      current := next;
    }

    method TaskBlock(state: Status)
      requires Valid(State()) && Enabled(State(), Block(state))
      modifies this
      ensures Valid(State()) && State() == Step(old(State()), Block(state))
      ensures old(taskReadyList) != [] ==>
        status[old(current)] == state && current == old(taskReadyList)[0] && taskReadyList == old(taskReadyList)[1..]
    {
      BeforeOk(State(), Block(state));
      assert state == Blocked || state == Waiting || state == Stopped || state == Zombie;
      status := status[current := state];
      Schedule();
    }

    method TaskYield()
      requires Valid(State())
      modifies this
      ensures Valid(State()) && State() == Step(old(State()), Yield)
      ensures status[old(current)] == if old(taskReadyList) == [] then Running else Ready
      ensures [current] + taskReadyList == old(taskReadyList) + [old(current)]
    {
      BeforeOk(State(), Yield);
      assert current !in taskReadyList;
      taskReadyList := taskReadyList + [current];
      status := status[current := Ready];
      Schedule();
    }

    method ThreadStart(t: nat)
      requires Valid(State()) && t !in status
      modifies this
      ensures Valid(State()) && State() == Step(old(State()), Start(t))
      ensures taskReadyList == old(taskReadyList) + [t] && status == old(status)[t := Ready] && current == old(current)
    {
      StepValid(State(), Start(t));
      assert t !in taskReadyList;
      taskReadyList := taskReadyList + [t];
      status := status[t := Ready];
    }

    method ThreadExit(t: nat)
      requires Valid(State()) && Enabled(State(), Exit(t))
      modifies this
      ensures Valid(State()) && State() == Step(old(State()), Exit(t))
    {
      StepValid(State(), Exit(t));
      if t in taskReadyList {
        taskReadyList := Without(taskReadyList, t);
      } else {
        WithoutAbsent(taskReadyList, t);
      }
      assert t in status;
      status := status - {t};
    }
  }
}
