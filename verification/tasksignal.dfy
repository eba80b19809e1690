/** The operations of src/kernel/signal.c on the fields of one task, each equal to its
    description in module Signals. */
module TaskSignals {
  import opened Basics
  import opened SignalFrames
  import opened SigSets
  import opened Signals
  import opened SignalDelivery

  class Task {
    const pid: int
    var status: Status
    var signalPending: SigSet
    var signalBlocked: SigSet
    var actions: seq<Action>
    var senders: seq<int>
    var signalLeft: bool
    var exitStatus: int
    var sleepTimer: bool

    ghost function State(): (s: Sig)
      reads this
    {
      Sig(pid, status, Members(signalPending), Members(signalBlocked), actions, senders, signalLeft, exitStatus, sleepTimer)
    }

    /** Bit 0 of the pending mask is always set: DoSendSignal compares the mask with 1. */
    ghost predicate Valid()
      reads this
    {
      State().Sized() && signalPending[0]
    }

    /** InitSignalInTask. */
    constructor (pid: int, status: Status)
      ensures Valid() && State() == Fresh(pid, status)
    {
      this.pid, this.status := pid, status;
      signalPending, signalBlocked := SigEmptySet(), SigEmptySet();
      actions, senders := seq(MAX_SIGNAL_NR, _ => Action(SIG_DFL, 0)), seq(MAX_SIGNAL_NR, _ => -1);
      signalLeft, exitStatus, sleepTimer := false, 0, false;
    }

    method CalcSignalLeft()
      requires Valid()
      modifies this`signalLeft
      ensures Valid() && State() == CalcLeft(old(State()))
    {
      signalLeft := !SigIsEmpty(signalPending);
    }

    method TaskWakeUp()
      requires Valid()
      modifies this`status
      ensures Valid() && State() == Woken(old(State()))
    {
      if status == Blocked || status == Stopped {
        status := Ready;
      }
    }

    method HandleStopSignal(signo: int)
      requires Valid()
      modifies this
      ensures Valid() && State() == StopHandled(old(State()), signo)
    {
      if signo == SIGKILL || signo == SIGCONT {
        if status == Stopped {
          TaskWakeUp();
        }
        exitStatus := 0;
        signalBlocked := SigDelSet(signalBlocked, SIGSTOP);
        signalBlocked := SigDelSet(signalBlocked, SIGTSTP);
        signalBlocked := SigDelSet(signalBlocked, SIGTTOU);
        signalBlocked := SigDelSet(signalBlocked, SIGTTIN);
      } else if signo == SIGSTOP || signo == SIGTSTP || signo == SIGTTOU || signo == SIGTTIN {
        signalBlocked := SigDelSet(signalBlocked, SIGCONT);
      }
    }

    method IgnoreSignal(signo: int) returns (ignored: bool)
      requires Valid() && !IsBadSignal(signo)
      ensures ignored == Ignored(State(), signo)
    {
      if SigIsMember(signalBlocked, signo) {
        return false;
      }
      var handler := actions[signo - 1].handler;
      if handler > 1 {
        return false;
      }
      if handler == 1 {
        return signo != SIGCHLD;
      }
      return signo == SIGCONT || signo == SIGWINCH || signo == SIGCHLD || signo == SIGURG;
    }

    method DeliverSignal(signo: nat, sender: int) returns (ret: int)
      requires Valid() && !IsBadSignal(signo)
      modifies this
      ensures Valid() && State() == Delivered(old(State()), signo, sender)
      ensures ret == if sender < 0 then -1 else 0
    {
      if sender < 0 {
        return -1;
      }
      senders := senders[signo - 1 := sender];
      signalPending := SigAddSet(signalPending, signo);
      if !SigIsMember(signalBlocked, signo) {
        signalLeft := true;
        if status == Blocked {
          sleepTimer := false;
          TaskWakeUp();
        }
      }
      return 0;
    }

    method DoSendSignal(signo: int, sender: int) returns (ret: int)
      requires Valid()
      modifies this
      ensures Valid() && State() == Sent(old(State()), signo, sender)
      ensures ret == SentResult(old(State()), signo, sender)
    {
      hide StopHandled, Ignored, Delivered;
      if IsBadSignal(signo) {
        return -1;
      }
      ret := 0;
      HandleStopSignal(signo);
      var ignored := IgnoreSignal(signo);
      if !ignored && !SigIsMember(signalPending, signo) {
        ret := DeliverSignal(signo, sender);
      }
      if status == Blocked && signalPending != SigEmptySet() {
        if !SigIsMember(signalBlocked, signo) {
          TaskWakeUp();
        }
        assert !SigIsEmpty(signalPending) by { OnlyBitZero(signalPending); }
        CalcSignalLeft();
      } else {
        assert status == Blocked ==> SigIsEmpty(signalPending);
      }
    }

    static lemma OnlyBitZero(mask: SigSet)
      requires mask[0] && mask != SigEmptySet()
      ensures !SigIsEmpty(mask)
    {
      var i :| 0 <= i < MAX_SIGNAL_NR && mask[i] != SigEmptySet()[i];
      assert i >= 1 && mask[i];
    }

    method ForceSignal(signo: nat, sender: int) returns (ret: int)
      requires Valid() && !IsBadSignal(signo)
      modifies this
      ensures Valid() && State() == Forced(old(State()), signo, sender)
      ensures ret == SentResult(Exposed(old(State()), signo), signo, sender)
    {
      hide Sent, SentResult;
      if actions[signo - 1].handler == SIG_IGN {
        actions := actions[signo - 1 := actions[signo - 1].(handler := SIG_DFL)];
      } else {
        assert actions == actions[signo - 1 := actions[signo - 1]];
      }
      signalBlocked := SigDelSet(signalBlocked, signo);
      CalcSignalLeft();
      ret := DoSendSignal(signo, sender);
    }

    /** The common part of SysSignal and SysSignalAction. */
    method SetSignalAction(signo: nat, action: Action)
      requires Valid() && !IsBadSignal(signo)
      modifies this
      ensures Valid() && State() == ActionSet(old(State()), signo, action)
    {
      actions := actions[signo - 1 := action];
      if action.handler == SIG_IGN
        || (action.handler == SIG_DFL && (signo == SIGCONT || signo == SIGCHLD || signo == SIGWINCH)) {
        if SigIsMember(signalPending, signo) {
          signalPending := SigDelSet(signalPending, signo);
          CalcSignalLeft();
        }
      }
    }

    method SysSignal(signo: int, handler: word, junk: word) returns (ret: int)
      requires Valid()
      modifies this
      ensures Valid() && State() == SignalCalled(old(State()), signo, handler, junk)
      ensures ret == if Settable(signo, handler != SIG_DFL) then 0 else -1
    {
      if signo < 1 || signo >= MAX_SIGNAL_NR || (handler != 0 && (signo == SIGKILL || signo == SIGSTOP)) {
        return -1;
      }
      if handler != 0 {
        SetSignalAction(signo, Action(handler, junk / 2 * 2 + 1));
      }
      return 0;
    }

    method SysSignalAction(signo: int, act: Option<Action>) returns (ret: int, oldact: Option<Action>)
      requires Valid()
      modifies this
      ensures Valid() && State() == SignalActionCalled(old(State()), signo, act)
      ensures if Settable(signo, act.Some?) then ret == 0 && oldact == Some(old(actions)[signo - 1])
        else ret == -1 && oldact == None
    {
      if signo < 1 || signo >= MAX_SIGNAL_NR || (act.Some? && (signo == SIGKILL || signo == SIGSTOP)) {
        return -1, None;
      }
      oldact := Some(actions[signo - 1]);
      if act.Some? {
        SetSignalAction(signo, act.value);
      }
      ret := 0;
    }

    method SysSignalProcessMask(how: int, mask: Option<SigSet>) returns (ret: int, oldset: SigSet)
      requires Valid()
      modifies this`signalBlocked
      ensures Valid() && oldset == old(signalBlocked)
      ensures State() == Masked(old(State()), how, if mask.Some? then Some(Members(mask.value)) else None)
      ensures ret == if how == SIG_BLOCK || how == SIG_UNBLOCK || how == SIG_SETMASK then 0 else -1
    {
      oldset := signalBlocked;
      if how == SIG_BLOCK {
        if mask.Some? {
          signalBlocked := SigOr(signalBlocked, mask.value);
          signalBlocked := SigDelSet(signalBlocked, SIGKILL);
          signalBlocked := SigDelSet(signalBlocked, SIGSTOP);
        }
      } else if how == SIG_UNBLOCK {
        if mask.Some? {
          signalBlocked := SigAndNot(signalBlocked, mask.value);
        }
      } else if how == SIG_SETMASK {
        if mask.Some? {
          signalBlocked := mask.value;
          signalBlocked := SigDelSet(signalBlocked, SIGKILL);
          signalBlocked := SigDelSet(signalBlocked, SIGSTOP);
        }
      } else {
        return -1, oldset;
      }
      ret := 0;
    }

    /** While the task is stopped, other tasks send it signals. */
    method ReceiveWhileStopped(arrivals: seq<Arrival>)
      requires Valid()
      modifies this
      ensures Valid() && State() == Arrived(old(State()), arrivals)
    {
      hide Sent, Forced;
      var i := 0;
      while i < |arrivals|
        invariant 0 <= i <= |arrivals| && Valid()
        invariant Arrived(old(State()), arrivals) == Arrived(State(), arrivals[i..])
      {
        var a := arrivals[i];
        if a.forced && !IsBadSignal(a.signo) {
          var _ := ForceSignal(a.signo, a.sender);
        } else {
          var _ := DoSendSignal(a.signo, a.sender);
        }
        i := i + 1;
      }
    }

    /** The body of DoSignal's loop for a signal that is pending and not blocked: its action,
        and a frame for a caught one. Returns the signal to exit with, or 0. */
    method HandleOne(user: UserContext, signo: nat, arrivals: seq<Arrival>) returns (exited: nat, ghost calls: seq<Call>)
      requires Valid() && !IsBadSignal(signo) && user.Valid()
      requires Handled(State(), signo, arrivals).calls != [] ==> user.frame[ESP] >= SIGNAL_FRAME_SIZE
      modifies this, user.frame, user.mem
      ensures Valid() && user.Valid() && |calls| <= 1
      ensures Outcome(State(), exited, calls) == Handled(old(State()), signo, arrivals)
      ensures user.State() == if calls == [] then old(user.State()) else Pushed(old(user.State()), calls[0])
      ensures var a := old(actions)[signo - 1];
        if a.handler == SIG_DFL || a.handler == SIG_IGN then calls == []
        else
          && calls == [Call(signo, a.handler)] && HandlerSees(user.State(), calls[0])
          && actions == if a.OneShot() then old(actions)[signo - 1 := a.(handler := SIG_DFL)] else old(actions)
    {
      hide Arrived, Pushed;
      exited, calls := 0, [];
      signalPending := SigDelSet(signalPending, signo);
      senders := senders[signo - 1 := -1];
      CalcSignalLeft();
      var sa := actions[signo - 1];
      if sa.handler == SIG_IGN {
        return;
      }
      if sa.handler == SIG_DFL {
        if pid == 0 {
          return;
        }
        if signo == SIGCONT || signo == SIGCHLD || signo == SIGWINCH
          || signo == SIGURG || signo == SIGUSR1 || signo == SIGUSR2 {
          return;
        }
        if signo == SIGTSTP || signo == SIGTTIN || signo == SIGTTOU || signo == SIGSTOP {
          status := Stopped;
          exitStatus := signo;
          ReceiveWhileStopped(arrivals);
          status := Running;
          return;
        }
        signalPending := SigAddSet(signalPending, signo);
        CalcSignalLeft();
        return signo, [];
      }
      calls := [Call(signo, sa.handler)];
      PushedSees(user.State(), calls[0]);
      user.BuildSignalFrame(signo, sa.handler);
      if sa.OneShot() {
        actions := actions[signo - 1 := sa.(handler := SIG_DFL)];
      }
    }

    /** The body of DoSignal's loop, after the frames of calls were pushed. */
    method TakeSignal(user: UserContext, sig: nat, arrivals: seq<Arrival>, ghost u0: User, ghost calls: seq<Call>)
      returns (exited: nat, ghost all: seq<Call>)
      requires Valid() && !IsBadSignal(sig) && user.Valid() && u0.Valid()
      requires |calls| < sig && Room(u0.Sp(), |calls|) && user.State() == PushAll(u0, calls)
      requires sig in State().pending && sig !in State().blocked ==>
        Room(u0.Sp(), |calls| + |Handled(State(), sig, arrivals).calls|)
      modifies this, user.frame, user.mem
      ensures Valid() && user.Valid()
      ensures var s := old(State());
        if sig in s.pending && sig !in s.blocked then
          var o := Handled(s, sig, arrivals); o.sig == State() && o.exited == exited && all == calls + o.calls
        else State() == s && exited == 0 && all == calls
      ensures |all| <= sig && Room(u0.Sp(), |all|) && user.State() == PushAll(u0, all)
    {
      hide Handled, Pushed, PushAll, Room, Members;
      exited, all := 0, calls;
      InMembers(signalPending, sig);
      InMembers(signalBlocked, sig);
      if SigIsMember(signalPending, sig) && !SigIsMember(signalBlocked, sig) {
        ghost var more := Handled(State(), sig, arrivals).calls;
        RoomForFewer(u0.Sp(), |calls| + |more|, |calls|);
        exited, more := HandleOne(user, sig, arrivals);
        all := calls + more;
        if more != [] {
          PushOneMore(u0, calls, more[0]);
          assert all == calls + [more[0]];
        } else {
          assert all == calls;
        }
      }
    }

    /** The loop of DoSignal: handles the signals in order; the frames of the caught ones go on the
        user stack one below the other. Returns the signal that the task exits with, or 0. */
    method HandleSignals(user: UserContext, arrivals: Arrivals) returns (exited: nat, ghost calls: seq<Call>)
      requires Valid() && user.Valid()
      requires Room(user.frame[ESP], |HandledFrom(State(), 1, arrivals).calls|)
      modifies this, user.frame, user.mem
      ensures Valid() && user.Valid()
      ensures Outcome(State(), exited, calls) == HandledFrom(old(State()), 1, arrivals)
      ensures |calls| <= MAX_SIGNAL_NR && Room(old(user.State()).Sp(), |calls|)
      ensures user.State() == PushAll(old(user.State()), calls)
    {
      hide Handled, PushAll, Room, HandledFrom, Members;
      ghost var u0, s0 := user.State(), State();
      exited, calls := 0, [];
      assert Room(u0.Sp(), 0) && PushAll(u0, []) == u0 by { PushNone(u0); }
      var sig := 1;
      while signalLeft && sig < MAX_SIGNAL_NR
        invariant 1 <= sig <= MAX_SIGNAL_NR && Valid() && user.Valid() && exited == 0
        invariant |calls| < sig && Room(u0.Sp(), |calls|)
        invariant user.State() == PushAll(u0, calls)
        invariant var rest := HandledFrom(State(), sig, arrivals);
          HandledFrom(s0, 1, arrivals) == rest.(calls := calls + rest.calls)
        decreases MAX_SIGNAL_NR - sig
      {
        LoopStep(State(), sig, arrivals);
        RoomForNext(u0.Sp(), calls, State(), sig, arrivals);
        exited, calls := TakeSignal(user, sig, arrivals[sig], u0, calls);
        if exited > 0 {
          return;
        }
        sig := sig + 1;
      }
      LoopEnd(State(), sig, arrivals);
      assert calls + [] == calls;
    }

    /** Only with signals left and on the way to user mode. */
    method DoSignal(user: UserContext, arrivals: Arrivals) returns (ret: int, exited: nat, ghost calls: seq<Call>)
      requires Valid() && user.Valid()
      requires Room(user.frame[ESP], |SignalsDone(State(), user.frame[CS], arrivals).calls|)
      modifies this, user.frame, user.mem
      ensures Valid() && user.Valid()
      ensures Outcome(State(), exited, calls) == SignalsDone(old(State()), old(user.frame[CS]), arrivals)
      ensures |calls| <= MAX_SIGNAL_NR && Room(old(user.State()).Sp(), |calls|)
      ensures user.State() == PushAll(old(user.State()), calls)
      ensures ReturnsInto(old(State()), old(user.State()), Outcome(State(), exited, calls), user.State())
      ensures !old(signalLeft) || old(user.frame[CS]) != USER_CODE_SEL ==>
        ret == -1 && exited == 0 && State() == old(State()) && user.State() == old(user.State())
      ensures old(signalLeft) && old(user.frame[CS]) == USER_CODE_SEL ==> ret == 0
    {
      hide ReturnsInto, PushAll, Room, HandledFrom, Members;
      ghost var u0, s0 := user.State(), State();
      PushNone(u0);
      if !signalLeft {
        NothingEntered(s0, u0);
        return -1, 0, [];
      }
      if user.frame[CS] != USER_CODE_SEL {
        NothingEntered(s0, u0);
        return -1, 0, [];
      }
      exited, calls := HandleSignals(user, arrivals);
      ReturnEnters(s0, u0, calls, exited, arrivals, Outcome(State(), exited, calls));
      ret := 0;
    }
  }

  lemma PushedSees(u: User, call: Call)
    requires u.Valid() && u.frame[ESP] >= SIGNAL_FRAME_SIZE
    ensures HandlerSees(Pushed(u, call), call)
  {
    hide Pushed, HandlerSees;
    LastHandlerSees(Pushed(u, call), u, call);
  }

  /** The process is in the handler of the highest caught signal below hi, with the frame of its call
      on top of the stack; if none is caught its registers and memory are what they were. */
  ghost predicate EntersHighest(s: Sig, hi: nat, before: User, after: User)
    requires s.Sized() && before.Valid() && after.Valid()
  {
    && ((forall k: nat :: 1 <= k < hi ==> !Caught(s, k)) ==> after == before)
    && forall k: nat :: 1 <= k < hi && Caught(s, k) && (forall j: nat :: k < j < hi ==> !Caught(s, j)) ==>
      HandlerSees(after, Call(k, s.Handler(k)))
  }

  /** What a process returns into: the handler called last, or where it was. If no signal stops the
      task on the way, that is the handler of the highest caught signal, and the actions left are
      those before but for the ones entered for one shot. */
  ghost predicate ReturnsInto(s: Sig, before: User, o: Outcome, after: User)
    requires s.Sized() && o.sig.Sized() && before.Valid() && after.Valid()
  {
    && (if o.calls == [] then after == before else HandlerSees(after, o.calls[|o.calls| - 1]))
    && (Sane(s) && s.signalLeft && before.frame[CS] == USER_CODE_SEL && (forall k: nat :: !WouldStop(s, k)) ==>
      && EntersHighest(s, if o.exited > 0 then o.exited else MAX_SIGNAL_NR, before, after)
      && ActionsAfter(s, o.sig, o.calls))
  }

  lemma NothingEntered(s: Sig, u: User)
    requires s.Sized() && u.Valid() && (!s.signalLeft || u.frame[CS] != USER_CODE_SEL)
    ensures ReturnsInto(s, u, Outcome(s, 0, []), u)
  {
  }

  lemma ReturnEnters(s: Sig, u: User, calls: seq<Call>, exited: nat, arrivals: Arrivals, o: Outcome)
    requires s.Sized() && u.Valid() && Room(u.Sp(), |calls|) && s.signalLeft && o == HandledFrom(s, 1, arrivals)
    requires o.calls == calls && o.exited == exited
    ensures ReturnsInto(s, u, o, PushAll(u, calls))
  {
    hide Pushed, HandlerSees, HandledFrom, Caught, WouldStop;
    if calls != [] {
      RoomForFewer(u.Sp(), |calls|, |calls| - 1);
      PushedSees(PushAll(u, calls[..|calls| - 1]), calls[|calls| - 1]);
    }
    if Sane(s) && forall k: nat :: !WouldStop(s, k) {
      HandlersEntered(s, arrivals);
      var hi := if exited > 0 then exited else MAX_SIGNAL_NR;
      Highest(s, hi, calls, u, PushAll(u, calls));
    }
  }

  lemma Highest(s: Sig, hi: nat, calls: seq<Call>, before: User, after: User)
    requires s.Sized() && before.Valid() && after.Valid() && CallsAre(s, 1, hi, calls) && hi <= MAX_SIGNAL_NR
    requires if calls == [] then after == before else HandlerSees(after, calls[|calls| - 1])
    ensures EntersHighest(s, hi, before, after)
  {
    hide HandlerSees, Caught;
    if calls != [] {
      var last := calls[|calls| - 1];
      assert last in calls && DueCall(s, 1, hi, last);
      assert Caught(s, last.signo);
    }
    forall k: nat | 1 <= k < hi && Caught(s, k) && (forall j: nat :: k < j < hi ==> !Caught(s, j))
      ensures HandlerSees(after, Call(k, s.Handler(k)))
    {
      var c := Call(k, s.Handler(k));
      assert DueCall(s, 1, hi, c) && c in calls;
      var i :| 0 <= i < |calls| && calls[i] == c;
      var last := calls[|calls| - 1];
      assert last.signo >= k && Caught(s, last.signo);
      assert last.signo == k;
      assert last == c;
    }
  }

  lemma InMembers(mask: SigSet, k: nat)
    requires k < MAX_SIGNAL_NR
    ensures k in Members(mask) <==> SigIsMember(mask, k)
  {
  }

  lemma LoopStep(s: Sig, signo: nat, arrivals: Arrivals)
    requires s.Sized() && 1 <= signo < MAX_SIGNAL_NR && s.signalLeft
    ensures HandledFrom(s, signo, arrivals) ==
      if signo in s.pending && signo !in s.blocked then
        var o := Handled(s, signo, arrivals[signo]);
        if o.exited > 0 then o
        else
          var rest := HandledFrom(o.sig, signo + 1, arrivals);
          rest.(calls := o.calls + rest.calls)
      else HandledFrom(s, signo + 1, arrivals)
  {
  }

  /** Room for the rest of the loop is room for its first signal. */
  lemma RoomForNext(esp: int, calls: seq<Call>, s: Sig, signo: nat, arrivals: Arrivals)
    requires s.Sized() && 1 <= signo < MAX_SIGNAL_NR && s.signalLeft
    requires Room(esp, |calls| + |HandledFrom(s, signo, arrivals).calls|)
    ensures signo in s.pending && signo !in s.blocked ==>
      Room(esp, |calls| + |Handled(s, signo, arrivals[signo]).calls|)
  {
    hide Handled, Room;
    var all := |calls| + |HandledFrom(s, signo, arrivals).calls|;
    if signo in s.pending && signo !in s.blocked {
      RoomForFewer(esp, all, |calls| + |Handled(s, signo, arrivals[signo]).calls|);
    }
  }

  lemma LoopEnd(s: Sig, signo: nat, arrivals: Arrivals)
    requires s.Sized() && 1 <= signo <= MAX_SIGNAL_NR && (!s.signalLeft || signo == MAX_SIGNAL_NR)
    ensures HandledFrom(s, signo, arrivals) == Outcome(s, 0, [])
  {
  }

  lemma PushNone(u: User)
    requires u.Valid()
    ensures Room(u.Sp(), 0) && PushAll(u, []) == u
  {
  }

  lemma PushOneMore(u: User, calls: seq<Call>, call: Call)
    requires u.Valid() && Room(u.Sp(), |calls| + 1) && Room(u.Sp(), |calls|)
    ensures PushAll(u, calls).frame[ESP] >= SIGNAL_FRAME_SIZE
    ensures PushAll(u, calls + [call]) == Pushed(PushAll(u, calls), call)
  {
    assert (calls + [call])[..|calls|] == calls;
  }
}
