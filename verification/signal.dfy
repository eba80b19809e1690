/** The signal state of a task as values, and what each operation does to it
    (src/kernel/signal.c). Signal sets are sets of numbers here. */
module Signals {
  import opened Basics
  import opened SignalFrames
  import opened SigSets

  const SIGKILL: nat := 9
  const SIGUSR1: nat := 10
  const SIGUSR2: nat := 12
  const SIGCHLD: nat := 17
  const SIGCONT: nat := 18
  const SIGSTOP: nat := 19
  const SIGTSTP: nat := 20
  const SIGTTIN: nat := 21
  const SIGTTOU: nat := 22
  const SIGURG: nat := 23
  const SIGWINCH: nat := 28

  const SIG_DFL: word := 0
  const SIG_IGN: word := 1
  const SIG_BLOCK: int := 1
  const SIG_UNBLOCK: int := 2
  const SIG_SETMASK: int := 3

  /** A handler and its flags; SA_ONESHOT is the lowest bit of the flags. */
  datatype Action = Action(handler: word, flags: word) {
    predicate OneShot() {
      flags % 2 == 1
    }
  }

  datatype Sig = Sig(pid: int, status: Status, pending: set<nat>, blocked: set<nat>, actions: seq<Action>,
                     senders: seq<int>, signalLeft: bool, exitStatus: int, sleepTimer: bool)
  {
    predicate Sized() {
      |actions| == MAX_SIGNAL_NR && |senders| == MAX_SIGNAL_NR
    }

    function Handler(signo: nat): word
      requires Sized() && 1 <= signo < MAX_SIGNAL_NR
    {
      actions[signo - 1].handler
    }
  }

  function CalcLeft(s: Sig): Sig {
    s.(signalLeft := s.pending != {})
  }

  function Woken(s: Sig): Sig {
    if s.status == Blocked || s.status == Stopped then s.(status := Ready) else s
  }

  /** HandleStopSignal. */
  function StopHandled(s: Sig, signo: int): (r: Sig)
    ensures r.actions == s.actions && r.senders == s.senders && r.pid == s.pid && r.pending == s.pending
    ensures r.signalLeft == s.signalLeft && r.blocked <= s.blocked
  {
    if signo == SIGKILL || signo == SIGCONT then
      var t := if s.status == Stopped then Woken(s) else s;
      t.(exitStatus := 0, blocked := s.blocked - {SIGSTOP, SIGTSTP, SIGTTOU, SIGTTIN})
    else if signo == SIGSTOP || signo == SIGTSTP || signo == SIGTTOU || signo == SIGTTIN then
      s.(blocked := s.blocked - {SIGCONT})
    else s
  }

  /** IgnoreSignal. */
  predicate Ignored(s: Sig, signo: int)
    requires s.Sized() && !IsBadSignal(signo)
  {
    && signo !in s.blocked
    && ((s.Handler(signo) == SIG_IGN && signo != SIGCHLD)
      || (s.Handler(signo) == SIG_DFL && signo in {SIGCONT, SIGWINCH, SIGCHLD, SIGURG}))
  }

  /** DeliverSignal. */
  function Delivered(s: Sig, signo: nat, sender: int): (r: Sig)
    requires s.Sized() && !IsBadSignal(signo)
    ensures r.Sized() && r.pid == s.pid
  {
    if sender < 0 then s
    else
      var t := s.(senders := s.senders[signo - 1 := sender], pending := s.pending + {signo});
      if signo in t.blocked then t
      else
        var u := t.(signalLeft := true);
        if u.status == Blocked then Woken(u.(sleepTimer := false)) else u
  }

  /** DoSendSignal, once the task was found. */
  function Sent(s: Sig, signo: int, sender: int): (r: Sig)
    requires s.Sized()
    ensures r.Sized() && r.pid == s.pid
  {
    if IsBadSignal(signo) then s
    else
      var t := StopHandled(s, signo);
      var u := if Ignored(t, signo) || signo in t.pending then t else Delivered(t, signo, sender);
      if u.status == Blocked && u.pending != {} then CalcLeft(if signo in u.blocked then u else Woken(u)) else u
  }

  /** What DoSendSignal returns: only a bad number or sender is an error. */
  function SentResult(s: Sig, signo: int, sender: int): int
    requires s.Sized()
  {
    if IsBadSignal(signo) then -1
    else
      var t := StopHandled(s, signo);
      if Ignored(t, signo) || signo in t.pending then 0 else if sender < 0 then -1 else 0
  }

  /** A signal that is neither ignored nor blocked any more. */
  function Exposed(s: Sig, signo: nat): (r: Sig)
    requires s.Sized() && !IsBadSignal(signo)
    ensures r.Sized() && r.pid == s.pid
  {
    var a := if s.Handler(signo) == SIG_IGN then s.actions[signo - 1].(handler := SIG_DFL) else s.actions[signo - 1];
    CalcLeft(s.(actions := s.actions[signo - 1 := a], blocked := s.blocked - {signo}))
  }

  /** ForceSignal: an ignored signal gets its default action back and is unblocked first. */
  function Forced(s: Sig, signo: nat, sender: int): (r: Sig)
    requires s.Sized() && !IsBadSignal(signo)
    ensures r.Sized() && r.pid == s.pid
  {
    Sent(Exposed(s, signo), signo, sender)
  }

  /** Setting an action drops a pending signal that it ignores. */
  function ActionSet(s: Sig, signo: nat, action: Action): (r: Sig)
    requires s.Sized() && !IsBadSignal(signo)
    ensures r.Sized() && r.pid == s.pid
  {
    var t := s.(actions := s.actions[signo - 1 := action]);
    var ignores := action.handler == SIG_IGN || (action.handler == SIG_DFL && signo in {SIGCONT, SIGCHLD, SIGWINCH});
    if ignores && signo in s.pending then CalcLeft(t.(pending := s.pending - {signo})) else t
  }

  predicate Settable(signo: int, given: bool) {
    !IsBadSignal(signo) && !(given && (signo == SIGKILL || signo == SIGSTOP))
  }

  /** SysSignal: the flags are whatever the stack held, with SA_ONESHOT added. */
  function SignalCalled(s: Sig, signo: int, handler: word, junk: word): (r: Sig)
    requires s.Sized()
    ensures r.Sized() && r.pid == s.pid
  {
    if !Settable(signo, handler != SIG_DFL) || handler == SIG_DFL then s
    else ActionSet(s, signo, Action(handler, junk / 2 * 2 + 1))
  }

  function SignalActionCalled(s: Sig, signo: int, act: Option<Action>): (r: Sig)
    requires s.Sized()
    ensures r.Sized() && r.pid == s.pid
  {
    if !Settable(signo, act.Some?) || act.None? then s else ActionSet(s, signo, act.value)
  }

  function Masked(s: Sig, how: int, set_: Option<set<nat>>): Sig {
    if set_.None? then s
    else if how == SIG_BLOCK then s.(blocked := s.blocked + set_.value - {SIGKILL, SIGSTOP})
    else if how == SIG_UNBLOCK then s.(blocked := s.blocked - set_.value)
    else if how == SIG_SETMASK then s.(blocked := set_.value - {SIGKILL, SIGSTOP})
    else s
  }

  /** What another task does to a stopped one. */
  datatype Arrival = Arrival(signo: nat, sender: int, forced: bool)

  function Arrived(s: Sig, arrivals: seq<Arrival>): (r: Sig)
    requires s.Sized()
    ensures r.Sized() && r.pid == s.pid
    decreases |arrivals|
  {
    if |arrivals| == 0 then s
    else
      var a := arrivals[0];
      var t := if a.forced && !IsBadSignal(a.signo) then Forced(s, a.signo, a.sender) else Sent(s, a.signo, a.sender);
      Arrived(t, arrivals[1..])
  }

  /** The end of a DoSignal: the state, the signal it exited with (0 if it returned), and the
      signals whose handlers it pushed frames for. */
  datatype Outcome = Outcome(sig: Sig, exited: nat, calls: seq<Call>)

  /** DoSignal for one pending, unblocked signal. While a task is stopped, arrivals come in. */
  function Handled(s: Sig, signo: nat, arrivals: seq<Arrival>): (r: Outcome)
    requires s.Sized() && !IsBadSignal(signo)
    ensures r.sig.Sized() && |r.calls| <= 1
  {
    var t := CalcLeft(s.(pending := s.pending - {signo}, senders := s.senders[signo - 1 := -1]));
    var a := t.actions[signo - 1];
    if a.handler == SIG_IGN then Outcome(t, 0, [])
    else if a.handler == SIG_DFL then
      if t.pid == 0 || signo in {SIGCONT, SIGCHLD, SIGWINCH, SIGURG, SIGUSR1, SIGUSR2} then Outcome(t, 0, [])
      else if signo in {SIGTSTP, SIGTTIN, SIGTTOU, SIGSTOP} then
        Outcome(Arrived(t.(status := Stopped, exitStatus := signo), arrivals).(status := Running), 0, [])
      else Outcome(CalcLeft(t.(pending := t.pending + {signo})), signo, [])
    else
      var u := if a.OneShot() then t.(actions := t.actions[signo - 1 := a.(handler := SIG_DFL)]) else t;
      Outcome(u, 0, [Call(signo, a.handler)])
  }

  type Arrivals = a: seq<seq<Arrival>> | |a| == MAX_SIGNAL_NR witness seq(MAX_SIGNAL_NR, _ => [])

  /** The loop of DoSignal from signal number signo on. */
  function HandledFrom(s: Sig, signo: nat, arrivals: Arrivals): (r: Outcome)
    requires s.Sized() && 1 <= signo <= MAX_SIGNAL_NR
    ensures r.sig.Sized() && |r.calls| <= MAX_SIGNAL_NR - signo
    decreases MAX_SIGNAL_NR - signo
  {
    if !s.signalLeft || signo == MAX_SIGNAL_NR then Outcome(s, 0, [])
    else if signo in s.pending && signo !in s.blocked then
      var o := Handled(s, signo, arrivals[signo]);
      if o.exited > 0 then o
      else
        var rest := HandledFrom(o.sig, signo + 1, arrivals);
        rest.(calls := o.calls + rest.calls)
    else HandledFrom(s, signo + 1, arrivals)
  }

  /** DoSignal: only with signals left and on the way to user mode. */
  function SignalsDone(s: Sig, cs: word, arrivals: Arrivals): (r: Outcome)
    requires s.Sized()
    ensures r.sig.Sized()
  {
    if !s.signalLeft || cs != USER_CODE_SEL then Outcome(s, 0, []) else HandledFrom(s, 1, arrivals)
  }

  /** InitSignalInTask. */
  function Fresh(pid: int, status: Status): Sig {
    Sig(pid, status, {}, {}, seq(MAX_SIGNAL_NR, _ => Action(SIG_DFL, 0)), seq(MAX_SIGNAL_NR, _ => -1), false, 0, false)
  }

  datatype Op =
    | Send(signo: int, sender: int)
    | Force(forced: nat, sender: int)
    | SetSignal(signo: int, handler: word, junk: word)
    | SetAction(signo: int, act: Option<Action>)
    | SetMask(how: int, mask: Option<set<nat>>)
    | Become(status: Status, sleepTimer: bool)
    | Deliver(cs: word, arrivals: Arrivals)

  function Step(s: Sig, op: Op): (r: Outcome)
    requires s.Sized()
    ensures r.sig.Sized()
  {
    match op
    case Send(signo, sender) => Outcome(Sent(s, signo, sender), 0, [])
    case Force(signo, sender) => Outcome(if IsBadSignal(signo) then s else Forced(s, signo, sender), 0, [])
    case SetSignal(signo, handler, junk) => Outcome(SignalCalled(s, signo, handler, junk), 0, [])
    case SetAction(signo, act) => Outcome(SignalActionCalled(s, signo, act), 0, [])
    case SetMask(how, mask) => Outcome(Masked(s, how, mask), 0, [])
    case Become(status, sleepTimer) => Outcome(s.(status := status, sleepTimer := sleepTimer), 0, [])
    case Deliver(cs, arrivals) => SignalsDone(s, cs, arrivals)
  }

  /** A run ends where the task exits. */
  function Run(s: Sig, ops: seq<Op>): (r: Outcome)
    requires s.Sized()
    ensures r.sig.Sized()
    decreases |ops|
  {
    if |ops| == 0 then Outcome(s, 0, [])
    else
      var o := Step(s, ops[0]);
      if o.exited > 0 then o
      else
        var rest := Run(o.sig, ops[1..]);
        rest.(calls := o.calls + rest.calls)
  }

  /** SIGKILL and SIGSTOP can be neither blocked nor caught, and a pending SIGKILL is noticed. */
  predicate Inv(s: Sig) {
    && s.Sized()
    && SIGKILL !in s.blocked && SIGSTOP !in s.blocked
    && s.Handler(SIGKILL) == SIG_DFL && s.Handler(SIGSTOP) == SIG_DFL
    && (SIGKILL in s.pending ==> s.signalLeft)
  }

  /** t is a state after s in which a SIGKILL of s is still pending and the invariant still holds. */
  predicate KeepsKill(s: Sig, t: Sig) {
    Inv(t) && t.pid == s.pid && (SIGKILL in s.pending ==> SIGKILL in t.pending)
  }

  lemma DeliveredKeeps(s: Sig, signo: nat, sender: int)
    requires Inv(s) && !IsBadSignal(signo)
    ensures KeepsKill(s, Delivered(s, signo, sender))
  {
  }

  lemma SentKeeps(s: Sig, signo: int, sender: int)
    requires Inv(s)
    ensures KeepsKill(s, Sent(s, signo, sender))
  {
    hide Delivered, Ignored, StopHandled;
    if !IsBadSignal(signo) {
      DeliveredKeeps(StopHandled(s, signo), signo, sender);
    }
  }

  lemma ForcedKeeps(s: Sig, signo: nat, sender: int)
    requires Inv(s) && !IsBadSignal(signo)
    ensures KeepsKill(s, Forced(s, signo, sender))
  {
    SentKeeps(Exposed(s, signo), signo, sender);
  }

  lemma {:induction false} ArrivedKeeps(s: Sig, arrivals: seq<Arrival>)
    requires Inv(s)
    ensures KeepsKill(s, Arrived(s, arrivals))
    decreases |arrivals|
  {
    if |arrivals| > 0 {
      var a := arrivals[0];
      if a.forced && !IsBadSignal(a.signo) {
        ForcedKeeps(s, a.signo, a.sender);
        ArrivedKeeps(Forced(s, a.signo, a.sender), arrivals[1..]);
      } else {
        SentKeeps(s, a.signo, a.sender);
        ArrivedKeeps(Sent(s, a.signo, a.sender), arrivals[1..]);
      }
    }
  }

  /** Handling one signal keeps the invariant; only handling SIGKILL itself takes it off, and
      then a task other than init exits. */
  lemma HandledKeeps(s: Sig, signo: nat, arrivals: seq<Arrival>)
    requires Inv(s) && !IsBadSignal(signo)
    ensures var o := Handled(s, signo, arrivals); Inv(o.sig) && o.sig.pid == s.pid
    ensures var o := Handled(s, signo, arrivals); signo != SIGKILL ==> KeepsKill(s, o.sig)
    ensures signo == SIGKILL && s.pid != 0 ==> Handled(s, signo, arrivals).exited == SIGKILL
  {
    hide Arrived;
    var t := CalcLeft(s.(pending := s.pending - {signo}, senders := s.senders[signo - 1 := -1]));
    ArrivedKeeps(t.(status := Stopped, exitStatus := signo), arrivals);
  }

  lemma {:induction false} HandledFromKeeps(s: Sig, signo: nat, arrivals: Arrivals)
    requires Inv(s) && 1 <= signo <= MAX_SIGNAL_NR
    ensures Inv(HandledFrom(s, signo, arrivals).sig) && HandledFrom(s, signo, arrivals).sig.pid == s.pid
    ensures signo > SIGKILL ==> KeepsKill(s, HandledFrom(s, signo, arrivals).sig)
    ensures signo <= SIGKILL && SIGKILL in s.pending && s.pid != 0 ==> 1 <= HandledFrom(s, signo, arrivals).exited <= SIGKILL
    decreases MAX_SIGNAL_NR - signo
  {
    hide Handled;
    if s.signalLeft && signo < MAX_SIGNAL_NR {
      if signo in s.pending && signo !in s.blocked {
        HandledKeeps(s, signo, arrivals[signo]);
        ExitsWithIt(s, signo, arrivals[signo]);
        HandledFromKeeps(Handled(s, signo, arrivals[signo]).sig, signo + 1, arrivals);
      } else {
        HandledFromKeeps(s, signo + 1, arrivals);
      }
    }
  }

  lemma ExitsWithIt(s: Sig, signo: nat, arrivals: seq<Arrival>)
    requires s.Sized() && !IsBadSignal(signo)
    ensures Handled(s, signo, arrivals).exited in {0, signo}
  {
  }

  /** The next return to user mode of a killed task other than init ends in SysExit, whatever
      else is pending, blocked or caught. */
  lemma KillExits(s: Sig, arrivals: Arrivals)
    requires Inv(s) && SIGKILL in s.pending && s.pid != 0
    ensures 1 <= SignalsDone(s, USER_CODE_SEL, arrivals).exited <= SIGKILL
  {
    HandledFromKeeps(s, 1, arrivals);
  }

  /** Every operation keeps the invariant; none but a DoSignal that reaches user mode can take a
      pending SIGKILL away, and that one exits. */
  lemma StepKeeps(s: Sig, op: Op)
    requires Inv(s)
    ensures Inv(Step(s, op).sig) && Step(s, op).sig.pid == s.pid
    ensures s.pid != 0 && SIGKILL in s.pending && Step(s, op).exited == 0 ==> SIGKILL in Step(s, op).sig.pending
  {
    hide Sent, Forced, HandledFrom;
    match op
    case Send(signo, sender) => SentKeeps(s, signo, sender);
    case Force(signo, sender) => if !IsBadSignal(signo) { ForcedKeeps(s, signo, sender); }
    case Deliver(cs, arrivals) => HandledFromKeeps(s, 1, arrivals);
    case _ =>
  }

  lemma FreshInv(pid: int, status: Status)
    ensures Inv(Fresh(pid, status))
  {
  }

  /** Every run keeps the invariant, and a pending SIGKILL. */
  lemma {:induction false} RunKeeps(s: Sig, ops: seq<Op>)
    requires Inv(s)
    ensures Inv(Run(s, ops).sig) && Run(s, ops).sig.pid == s.pid
    ensures s.pid != 0 && SIGKILL in s.pending && Run(s, ops).exited == 0 ==> SIGKILL in Run(s, ops).sig.pending
    decreases |ops|
  {
    if |ops| > 0 {
      StepKeeps(s, ops[0]);
      RunKeeps(Step(s, ops[0]).sig, ops[1..]);
    }
  }

  /** In every state that a new task reaches, SIGKILL and SIGSTOP are neither blocked nor caught, and
      a pending SIGKILL is noticed. */
  lemma ReachableKeeps(pid: int, status: Status, ops: seq<Op>)
    ensures Inv(Run(Fresh(pid, status), ops).sig) && Run(Fresh(pid, status), ops).sig.pid == pid
  {
    hide Run, Inv;
    FreshInv(pid, status);
    RunKeeps(Fresh(pid, status), ops);
  }

  /** So it is for a task forked from such a state, and for its forks in turn. */
  lemma ForkReachableKeeps(pid: int, status: Status, ops: seq<Op>, child: int, later: seq<Op>)
    ensures Inv(Run(Forked(Run(Fresh(pid, status), ops).sig, child), later).sig)
  {
    hide Run, Inv;
    ReachableKeeps(pid, status, ops);
    ForkKeeps(Run(Fresh(pid, status), ops).sig, child);
    RunKeeps(Forked(Run(Fresh(pid, status), ops).sig, child), later);
  }

  lemma {:induction false} RunAppend(s: Sig, ops: seq<Op>, op: Op)
    requires s.Sized()
    ensures Run(s, ops).exited == 0 ==> Run(s, ops + [op]).exited == Step(Run(s, ops).sig, op).exited
    ensures Run(s, ops).exited > 0 ==> Run(s, ops + [op]).exited == Run(s, ops).exited
    decreases |ops|
  {
    hide Step;
    if |ops| == 0 {
      assert ops + [op] == [op] && [op][1..] == [];
    } else {
      assert (ops + [op])[0] == ops[0] && (ops + [op])[1..] == ops[1..] + [op];
      RunAppend(Step(s, ops[0]).sig, ops[1..], op);
    }
  }

  /** fork: the child starts with a copy of its parent's signal state. */
  function Forked(s: Sig, pid: int): Sig {
    s.(pid := pid, status := Ready)
  }

  /** So a child starts in a state that keeps the invariant, as a new task does. */
  lemma ForkKeeps(s: Sig, pid: int)
    requires Inv(s)
    ensures Inv(Forked(s, pid))
  {
  }

  /** SIGKILL cannot be lost: sent to any task other than init in any state that keeps the
      invariant, new, forked or reached by a run, it ends the task no later than its next return
      to user mode, whatever happens in between. */
  lemma KillIsNotLost(s: Sig, sender: int, ops: seq<Op>, arrivals: Arrivals)
    requires Inv(s) && s.pid != 0 && sender >= 0
    ensures Run(Sent(s, SIGKILL, sender), ops + [Deliver(USER_CODE_SEL, arrivals)]).exited > 0
  {
    SentKeeps(s, SIGKILL, sender);
    var t := Sent(s, SIGKILL, sender);
    assert SIGKILL in t.pending;
    RunKeeps(t, ops);
    RunAppend(t, ops, Deliver(USER_CODE_SEL, arrivals));
    if Run(t, ops).exited == 0 {
      KillExits(Run(t, ops).sig, arrivals);
    }
  }

  /** Init survives every signal whose action is the default, SIGKILL included. */
  lemma {:induction false} InitNeverExits(s: Sig, signo: nat, arrivals: Arrivals)
    requires s.Sized() && s.pid == 0 && 1 <= signo <= MAX_SIGNAL_NR
    ensures HandledFrom(s, signo, arrivals).exited == 0
    decreases MAX_SIGNAL_NR - signo
  {
    if s.signalLeft && signo < MAX_SIGNAL_NR {
      if signo in s.pending && signo !in s.blocked {
        InitNeverExits(Handled(s, signo, arrivals[signo]).sig, signo + 1, arrivals);
      } else {
        InitNeverExits(s, signo + 1, arrivals);
      }
    }
  }
}
