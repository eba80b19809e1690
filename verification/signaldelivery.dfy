/** When a return to user mode leaves no deliverable signal behind (src/kernel/signal.c:311-426). */
module SignalDelivery {
  import opened Basics
  import opened SignalFrames
  import opened SigSets
  import opened Signals

  const SIGALRM: nat := 14
  const SIGTERM: nat := 15

  // ---------- what is always true of the signal state ----------

  /** Only signals are pending, and signalLeft promises that there is one. */
  predicate Sane(s: Sig) {
    && s.Sized() && (s.signalLeft ==> s.pending != {})
    && forall k :: k in s.pending ==> !IsBadSignal(k)
  }

  lemma SentSane(s: Sig, signo: int, sender: int)
    requires Sane(s)
    ensures Sane(Sent(s, signo, sender))
  {
    hide Ignored;
  }

  lemma {:induction false} ArrivedSane(s: Sig, arrivals: seq<Arrival>)
    requires Sane(s)
    ensures Sane(Arrived(s, arrivals))
    decreases |arrivals|
  {
    hide Sent, Exposed;
    if |arrivals| > 0 {
      var a := arrivals[0];
      if a.forced && !IsBadSignal(a.signo) {
        ExposedSane(s, a.signo);
        SentSane(Exposed(s, a.signo), a.signo, a.sender);
        ArrivedSane(Forced(s, a.signo, a.sender), arrivals[1..]);
      } else {
        SentSane(s, a.signo, a.sender);
        ArrivedSane(Sent(s, a.signo, a.sender), arrivals[1..]);
      }
    }
  }

  lemma ExposedSane(s: Sig, signo: nat)
    requires Sane(s) && !IsBadSignal(signo)
    ensures Sane(Exposed(s, signo))
  {
  }

  lemma HandledSane(s: Sig, signo: nat, arrivals: seq<Arrival>)
    requires Sane(s) && !IsBadSignal(signo)
    ensures Sane(Handled(s, signo, arrivals).sig)
  {
    hide Arrived;
    var t := CalcLeft(s.(pending := s.pending - {signo}, senders := s.senders[signo - 1 := -1]));
    ArrivedSane(t.(status := Stopped, exitStatus := signo), arrivals);
  }

  lemma {:induction false} HandledFromSane(s: Sig, signo: nat, arrivals: Arrivals)
    requires Sane(s) && 1 <= signo <= MAX_SIGNAL_NR
    ensures Sane(HandledFrom(s, signo, arrivals).sig)
    decreases MAX_SIGNAL_NR - signo
  {
    hide Handled;
    if s.signalLeft && signo < MAX_SIGNAL_NR {
      if signo in s.pending && signo !in s.blocked {
        HandledSane(s, signo, arrivals[signo]);
        HandledFromSane(Handled(s, signo, arrivals[signo]).sig, signo + 1, arrivals);
      } else {
        HandledFromSane(s, signo + 1, arrivals);
      }
    }
  }

  lemma StepSane(s: Sig, op: Op)
    requires Sane(s)
    ensures Sane(Step(s, op).sig)
  {
    hide Sent, Exposed, HandledFrom;
    match op
    case Send(signo, sender) => SentSane(s, signo, sender);
    case Force(signo, sender) =>
      if !IsBadSignal(signo) {
        ExposedSane(s, signo);
        SentSane(Exposed(s, signo), signo, sender);
      }
    case Deliver(cs, arrivals) => HandledFromSane(s, 1, arrivals);
    case _ =>
  }

  lemma {:induction false} RunSane(s: Sig, ops: seq<Op>)
    requires Sane(s)
    ensures Sane(Run(s, ops).sig)
    decreases |ops|
  {
    hide Step;
    if |ops| > 0 {
      StepSane(s, ops[0]);
      RunSane(Step(s, ops[0]).sig, ops[1..]);
    }
  }

  lemma FreshSane(pid: int, status: Status)
    ensures Sane(Fresh(pid, status))
  {
  }

  /** In every state that a new task reaches only signals are pending, and signalLeft is set only if
      one is. */
  lemma ReachableSane(pid: int, status: Status, ops: seq<Op>)
    ensures Sane(Run(Fresh(pid, status), ops).sig)
  {
    hide Run, Sane;
    FreshSane(pid, status);
    RunSane(Fresh(pid, status), ops);
  }

  // ---------- the condition ----------

  predicate Deliverable(s: Sig, k: nat) {
    k in s.pending && k !in s.blocked
  }

  predicate IsStop(k: nat) {
    k == SIGTSTP || k == SIGTTIN || k == SIGTTOU || k == SIGSTOP
  }

  predicate IsHarmless(k: nat) {
    k == SIGCONT || k == SIGCHLD || k == SIGWINCH || k == SIGURG || k == SIGUSR1 || k == SIGUSR2
  }

  /** Handling signal k would stop the task. */
  predicate WouldStop(s: Sig, k: nat)
    requires s.Sized()
  {
    s.pid != 0 && Deliverable(s, k) && !IsBadSignal(k) && IsStop(k) && s.Handler(k) == SIG_DFL
  }

  /** Handling signal k would end the task. */
  predicate WouldExit(s: Sig, k: nat)
    requires s.Sized()
  {
    s.pid != 0 && Deliverable(s, k) && !IsBadSignal(k) && !IsStop(k) && !IsHarmless(k) && s.Handler(k) == SIG_DFL
  }

  /** A return to user mode ends the task or leaves no deliverable signal. */
  predicate Clears(s: Sig, arrivals: Arrivals)
    requires s.Sized()
  {
    var o := SignalsDone(s, USER_CODE_SEL, arrivals);
    o.exited == 0 ==> o.sig.pending <= o.sig.blocked
  }

  /** Signal signo is taken off, and nothing changes for the others. */
  ghost predicate TakenOff(s: Sig, signo: nat, t: Sig) {
    && s.Sized() && t.Sized() && t.pid == s.pid && t.blocked == s.blocked
    && t.pending == s.pending - {signo} && t.signalLeft == (t.pending != {})
    && forall k: nat :: !IsBadSignal(k) && k != signo ==> t.Handler(k) == s.Handler(k)
  }

  lemma OthersSame(s: Sig, signo: nat, t: Sig)
    requires TakenOff(s, signo, t)
    ensures forall k: nat :: WouldStop(t, k) <==> k != signo && WouldStop(s, k)
    ensures forall k: nat :: WouldExit(t, k) <==> k != signo && WouldExit(s, k)
  {
    forall k: nat ensures WouldStop(t, k) <==> k != signo && WouldStop(s, k)
    {
      if k != signo && !IsBadSignal(k) { assert t.Handler(k) == s.Handler(k); }
    }
    forall k: nat ensures WouldExit(t, k) <==> k != signo && WouldExit(s, k)
    {
      if k != signo && !IsBadSignal(k) { assert t.Handler(k) == s.Handler(k); }
    }
  }

  /** Handling a signal that does not stop the task takes it off and touches no other signal. */
  lemma HandledPlain(s: Sig, signo: nat, arrivals: seq<Arrival>)
    requires Sane(s) && !IsBadSignal(signo) && Deliverable(s, signo) && !WouldStop(s, signo)
    ensures var o := Handled(s, signo, arrivals);
      (o.exited > 0 <==> WouldExit(s, signo)) && (o.exited == 0 ==> TakenOff(s, signo, o.sig))
  {
    hide Arrived;
  }

  lemma {:induction false} PlainClears(s: Sig, signo: nat, arrivals: Arrivals)
    requires Sane(s) && 1 <= signo <= MAX_SIGNAL_NR && (s.signalLeft || s.pending == {})
    requires forall k: nat :: k < signo && k in s.pending ==> k in s.blocked
    requires forall k: nat :: !WouldStop(s, k)
    ensures var o := HandledFrom(s, signo, arrivals); o.exited == 0 ==> o.sig.pending <= o.sig.blocked
    decreases MAX_SIGNAL_NR - signo
  {
    hide Handled;
    if s.signalLeft && signo < MAX_SIGNAL_NR {
      if signo in s.pending && signo !in s.blocked {
        var o := Handled(s, signo, arrivals[signo]);
        HandledPlain(s, signo, arrivals[signo]);
        HandledSane(s, signo, arrivals[signo]);
        if o.exited == 0 {
          OthersSame(s, signo, o.sig);
          PlainClears(o.sig, signo + 1, arrivals);
        }
      } else {
        PlainClears(s, signo + 1, arrivals);
      }
    }
  }

  // ---------- which handlers are entered ----------

  /** Signal k is deliverable and has a handler. */
  predicate Caught(s: Sig, k: nat)
    requires s.Sized()
  {
    !IsBadSignal(k) && Deliverable(s, k) && s.Handler(k) != SIG_DFL && s.Handler(k) != SIG_IGN
  }

  /** A call of the handler of a caught signal from lo to below hi. */
  predicate DueCall(s: Sig, lo: nat, hi: nat, c: Call)
    requires s.Sized()
  {
    lo <= c.signo < hi && Caught(s, c.signo) && c.handler == s.Handler(c.signo)
  }

  /** The calls are exactly those, in ascending order. */
  ghost predicate CallsAre(s: Sig, lo: nat, hi: nat, calls: seq<Call>)
    requires s.Sized()
  {
    && (forall i, j :: 0 <= i < j < |calls| ==> calls[i].signo < calls[j].signo)
    && forall c: Call :: c in calls <==> DueCall(s, lo, hi, c)
  }

  /** The actions left: a handler that was entered for one shot is gone. */
  ghost predicate ActionsAfter(s: Sig, t: Sig, calls: seq<Call>)
    requires s.Sized() && t.Sized()
  {
    forall k: nat :: 0 <= k < MAX_SIGNAL_NR ==>
      t.actions[k] == ActionAfter(s.actions[k], Call(k + 1, s.actions[k].handler) in calls)
  }

  function ActionAfter(a: Action, entered: bool): Action {
    if entered && a.OneShot() then a.(handler := SIG_DFL) else a
  }

  lemma HandledCatches(s: Sig, signo: nat, arrivals: seq<Arrival>)
    requires Sane(s) && !IsBadSignal(signo) && Deliverable(s, signo) && !WouldStop(s, signo)
    ensures var o, a := Handled(s, signo, arrivals), s.actions[signo - 1];
      && o.exited == (if WouldExit(s, signo) then signo else 0)
      && o.calls == (if Caught(s, signo) then [Call(signo, a.handler)] else [])
      && o.sig.actions == s.actions[signo - 1 := ActionAfter(a, Caught(s, signo))]
  {
    hide Arrived;
  }

  lemma TakenOffDue(s: Sig, signo: nat, t: Sig, hi: nat, c: Call)
    requires TakenOff(s, signo, t)
    ensures DueCall(t, signo + 1, hi, c) <==> DueCall(s, signo + 1, hi, c)
  {
    if !IsBadSignal(c.signo) && c.signo != signo {
      assert t.Handler(c.signo) == s.Handler(c.signo);
    }
  }

  lemma CallsOneMore(s: Sig, signo: nat, t: Sig, hi: nat, first: seq<Call>, rest: seq<Call>)
    requires TakenOff(s, signo, t) && 1 <= signo < hi <= MAX_SIGNAL_NR && CallsAre(t, signo + 1, hi, rest)
    requires first == if Caught(s, signo) then [Call(signo, s.Handler(signo))] else []
    ensures CallsAre(s, signo, hi, first + rest)
  {
    hide Caught, TakenOff;
    TakenOffSized(s, signo, t);
    var calls := first + rest;
    forall c: Call
      ensures c in calls <==> DueCall(s, signo, hi, c)
    {
      TakenOffDue(s, signo, t, hi, c);
      assert c in calls <==> c in first || c in rest;
    }
    forall i, j | 0 <= i < j < |calls|
      ensures calls[i].signo < calls[j].signo
    {
      if i < |first| {
        assert calls[j] == rest[j - |first|] && rest[j - |first|] in rest;
      }
    }
  }

  lemma TakenOffLeft(s: Sig, signo: nat, t: Sig)
    requires TakenOff(s, signo, t)
    ensures t.signalLeft || t.pending == {}
  {
  }

  lemma TakenOffSized(s: Sig, signo: nat, t: Sig)
    requires TakenOff(s, signo, t)
    ensures s.Sized() && t.Sized()
  {
  }

  lemma ActionsOneMore(s: Sig, signo: nat, m: Sig, t: Sig, hi: nat, first: seq<Call>, rest: seq<Call>)
    requires s.Sized() && m.Sized() && t.Sized() && 1 <= signo < MAX_SIGNAL_NR
    requires m.actions == s.actions[signo - 1 := ActionAfter(s.actions[signo - 1], Caught(s, signo))]
    requires first == if Caught(s, signo) then [Call(signo, s.Handler(signo))] else []
    requires CallsAre(m, signo + 1, hi, rest) && ActionsAfter(m, t, rest)
    ensures ActionsAfter(s, t, first + rest)
  {
    hide Caught;
    forall k: nat | 0 <= k < MAX_SIGNAL_NR
      ensures t.actions[k] == ActionAfter(s.actions[k], Call(k + 1, s.actions[k].handler) in first + rest)
    {
      var c := Call(k + 1, s.actions[k].handler);
      assert c in first + rest <==> c in first || c in rest;
      assert DueCall(m, signo + 1, hi, Call(k + 1, m.actions[k].handler)) ==> k != signo - 1;
      assert DueCall(m, signo + 1, hi, c) ==> k != signo - 1;
    }
  }

  lemma {:induction false} CallsFrom(s: Sig, signo: nat, arrivals: Arrivals)
    requires Sane(s) && 1 <= signo <= MAX_SIGNAL_NR && (s.signalLeft || s.pending == {})
    requires forall k: nat :: !WouldStop(s, k)
    ensures var o := HandledFrom(s, signo, arrivals); var hi := if o.exited > 0 then o.exited else MAX_SIGNAL_NR;
      && (o.exited > 0 ==> signo <= o.exited < MAX_SIGNAL_NR && WouldExit(s, o.exited))
      && (forall k: nat :: signo <= k < hi ==> !WouldExit(s, k))
      && CallsAre(s, signo, hi, o.calls) && ActionsAfter(s, o.sig, o.calls)
    decreases MAX_SIGNAL_NR - signo
  {
    hide Handled, CallsAre, ActionsAfter, TakenOff;
    if s.signalLeft && signo < MAX_SIGNAL_NR {
      if signo in s.pending && signo !in s.blocked {
        var o := Handled(s, signo, arrivals[signo]);
        HandledCatches(s, signo, arrivals[signo]);
        if o.exited > 0 {
          NothingCaught(s, signo, signo);
          SameActions(s, o.sig);
        } else {
          HandledPlain(s, signo, arrivals[signo]);
          HandledSane(s, signo, arrivals[signo]);
          OthersSame(s, signo, o.sig);
          assert o.sig.signalLeft || o.sig.pending == {} by { TakenOffLeft(s, signo, o.sig); }
          CallsFrom(o.sig, signo + 1, arrivals);
          var rest := HandledFrom(o.sig, signo + 1, arrivals);
          var hi := if rest.exited > 0 then rest.exited else MAX_SIGNAL_NR;
          CallsOneMore(s, signo, o.sig, hi, o.calls, rest.calls);
          ActionsOneMore(s, signo, o.sig, rest.sig, hi, o.calls, rest.calls);
        }
      } else {
        CallsFrom(s, signo + 1, arrivals);
        var o := HandledFrom(s, signo + 1, arrivals);
        var hi := if o.exited > 0 then o.exited else MAX_SIGNAL_NR;
        CallsSkip(s, signo, hi, o.calls);
      }
    } else {
      NothingCaught(s, signo, MAX_SIGNAL_NR);
    }
  }

  lemma SameActions(s: Sig, t: Sig)
    requires s.Sized() && t.actions == s.actions && t.Sized()
    ensures ActionsAfter(s, t, [])
  {
  }

  lemma CallsSkip(s: Sig, signo: nat, hi: nat, calls: seq<Call>)
    requires s.Sized() && !Caught(s, signo) && CallsAre(s, signo + 1, hi, calls)
    ensures CallsAre(s, signo, hi, calls)
  {
    forall c: Call ensures DueCall(s, signo, hi, c) <==> DueCall(s, signo + 1, hi, c) {
    }
  }

  lemma NothingCaught(s: Sig, lo: nat, hi: nat)
    requires s.Sized() && (lo >= hi || s.pending == {})
    ensures CallsAre(s, lo, hi, []) && ActionsAfter(s, s, [])
  {
  }

  /** A return to user mode with signals left and none that stops the task: it exits exactly with the
      lowest signal that ends it, and enters, in ascending order, exactly the handlers of the
      deliverable signals below that have one. A handler set for one shot is gone afterwards, and
      no other action changes. */
  lemma HandlersEntered(s: Sig, arrivals: Arrivals)
    requires Sane(s) && s.signalLeft && forall k: nat :: !WouldStop(s, k)
    ensures var o := SignalsDone(s, USER_CODE_SEL, arrivals); var hi := if o.exited > 0 then o.exited else MAX_SIGNAL_NR;
      && (o.exited > 0 ==> o.exited < MAX_SIGNAL_NR && WouldExit(s, o.exited))
      && (forall k: nat :: 1 <= k < hi ==> !WouldExit(s, k))
      && CallsAre(s, 1, hi, o.calls) && ActionsAfter(s, o.sig, o.calls)
  {
    CallsFrom(s, 1, arrivals);
  }

  // ---------- from sending to the handler ----------

  /** The signals whose block a signal lifts when it is sent. */
  function Lifts(signo: int): set<nat> {
    if signo == SIGKILL || signo == SIGCONT then {SIGSTOP, SIGTSTP, SIGTTOU, SIGTTIN}
    else if signo == SIGSTOP || signo == SIGTSTP || signo == SIGTTOU || signo == SIGTTIN then {SIGCONT}
    else {}
  }

  /** A signal that the task neither blocks nor cares for. */
  predicate Uncared(s: Sig, signo: nat, blocked: set<nat>)
    requires s.Sized() && !IsBadSignal(signo)
  {
    && signo !in blocked
    && ((s.Handler(signo) == SIG_IGN && signo != SIGCHLD)
      || (s.Handler(signo) == SIG_DFL && (signo == SIGCONT || signo == SIGWINCH || signo == SIGCHLD || signo == SIGURG)))
  }

  /** What sending does, told from before and after: the signal becomes pending, from its sender,
      unless the task does not care for it; nothing else does. Blocks are lifted, actions stay. */
  lemma SentMarks(s: Sig, signo: int, sender: int)
    requires s.Sized() && !IsBadSignal(signo) && sender >= 0
    ensures var r := Sent(s, signo, sender); var new_ := signo !in s.pending && !Uncared(s, signo, r.blocked);
      && r.pid == s.pid && r.actions == s.actions && r.blocked == s.blocked - Lifts(signo)
      && r.pending == (if new_ then s.pending + {signo} else s.pending)
      && r.senders == (if new_ then s.senders[signo - 1 := sender] else s.senders)
  {
  }

  /** A new signal that is not blocked is noticed, and none is forgotten. */
  lemma SentNotices(s: Sig, signo: int, sender: int)
    requires s.Sized() && !IsBadSignal(signo) && sender >= 0 && (s.signalLeft ==> s.pending != {})
    ensures var r := Sent(s, signo, sender);
      && (s.signalLeft ==> r.signalLeft)
      && (signo in r.pending && signo !in s.pending && signo !in r.blocked ==> r.signalLeft)
  {
    hide Ignored;
  }

  /** Forcing leaves the signal unblocked and not ignored, and pending unless its default is to ignore
      it. */
  lemma ForcedDelivers(s: Sig, signo: nat, sender: int)
    requires s.Sized() && !IsBadSignal(signo) && sender >= 0
    ensures var r, h := Forced(s, signo, sender), s.Handler(signo);
      && signo !in r.blocked && r.Handler(signo) == (if h == SIG_IGN then SIG_DFL else h)
      && (signo !in r.pending <==>
        signo !in s.pending && h <= SIG_IGN && signo in {SIGCONT, SIGWINCH, SIGCHLD, SIGURG})
  {
    hide Sent;
    SentMarks(Exposed(s, signo), signo, sender);
  }

  /** Setting an action: SIGKILL, SIGSTOP and bad numbers are refused; otherwise the signal has exactly
      the given action, others have theirs, and a pending signal goes exactly if it is one to ignore
      now. signal sets a handler for one shot, and SIG_DFL not at all. */
  lemma ActionsSet(s: Sig, signo: int, act: Action, handler: word, junk: word)
    requires s.Sized()
    ensures var r, q := SignalActionCalled(s, signo, Some(act)), SignalCalled(s, signo, handler, junk);
      if IsBadSignal(signo) || signo == SIGKILL || signo == SIGSTOP then r == s && q == s
      else
        && r.actions == s.actions[signo - 1 := act] && r.blocked == s.blocked
        && r.pending == (if act.handler == SIG_IGN || (act.handler == SIG_DFL && signo in {SIGCONT, SIGCHLD, SIGWINCH})
          then s.pending - {signo} else s.pending)
        && (handler == SIG_DFL ==> q == s)
        && (handler != SIG_DFL ==>
          && q.Handler(signo) == handler && q.actions[signo - 1].OneShot() && q.blocked == s.blocked
          && q.actions == s.actions[signo - 1 := q.actions[signo - 1]]
          && q.pending == if handler == SIG_IGN then s.pending - {signo} else s.pending)
  {
  }

  /** Sending fails for a bad number, and for a bad sender of a signal that would become pending. */
  lemma SendFailsIff(s: Sig, signo: int, sender: int)
    requires s.Sized()
    ensures SentResult(s, signo, sender) == if IsBadSignal(signo) || (sender < 0 && signo !in s.pending
      && !Uncared(s, signo, s.blocked - Lifts(signo))) then -1 else 0
  {
  }

  /** What each way of setting the mask blocks; SIGKILL and SIGSTOP stay out. */
  lemma MaskedBlocks(s: Sig, mask: set<nat>, k: nat)
    ensures k in Masked(s, SIG_BLOCK, Some(mask)).blocked <==>
      k != SIGKILL && k != SIGSTOP && (k in s.blocked || k in mask)
    ensures k in Masked(s, SIG_UNBLOCK, Some(mask)).blocked <==> k in s.blocked && k !in mask
    ensures k in Masked(s, SIG_SETMASK, Some(mask)).blocked <==> k != SIGKILL && k != SIGSTOP && k in mask
  {
  }

  /** A stopped task wakes for SIGKILL and SIGCONT only, a blocked one if the signal is not blocked
      and something is pending; a new one cancels its sleep. */
  lemma SentWakes(s: Sig, signo: int, sender: int)
    requires s.Sized() && !IsBadSignal(signo) && sender >= 0
    ensures var r := Sent(s, signo, sender);
      r.status ==
        if s.status == Stopped && (signo == SIGKILL || signo == SIGCONT) then Ready
        else if s.status == Blocked && signo !in r.blocked && r.pending != {} then Ready
        else s.status
    ensures Sent(s, signo, sender).exitStatus == if signo == SIGKILL || signo == SIGCONT then 0 else s.exitStatus
    ensures Sent(s, signo, sender).sleepTimer ==
      (s.sleepTimer && !(s.status == Blocked && signo !in s.pending && signo in Sent(s, signo, sender).pending
        && signo !in Sent(s, signo, sender).blocked))
  {
    hide Ignored;
  }

  /** A task with nothing pending that sets a handler and gets the signal enters that handler, and no
      other, on its next return to user mode. */
  lemma CatchAndEnter(s: Sig, signo: nat, act: Action, sender: int, arrivals: Arrivals)
    requires Sane(s) && s.pending == {} && !IsBadSignal(signo) && signo != SIGKILL && signo != SIGSTOP
    requires signo !in s.blocked && act.handler != SIG_DFL && act.handler != SIG_IGN && sender >= 0
    ensures var r := Sent(SignalActionCalled(s, signo, Some(act)), signo, sender);
      var o := SignalsDone(r, USER_CODE_SEL, arrivals);
      && o.exited == 0 && o.calls == [Call(signo, act.handler)]
      && o.sig.actions[signo - 1] == if act.OneShot() then Action(SIG_DFL, act.flags) else act
  {
    hide Sent, Ignored, SignalsDone;
    var t := SignalActionCalled(s, signo, Some(act));
    assert t.Handler(signo) == act.handler && t.pending == {};
    var r := Sent(t, signo, sender);
    SentMarks(t, signo, sender);
    SentNotices(t, signo, sender);
    SentSane(t, signo, sender);
    assert r.pending == {signo} && r.signalLeft && r.Handler(signo) == act.handler;
    assert forall k: nat :: Deliverable(r, k) ==> k == signo;
    HandlersEntered(r, arrivals);
    var o := SignalsDone(r, USER_CODE_SEL, arrivals);
    OneCall(r, signo, o.calls);
    assert o.sig.actions[signo - 1] ==
      ActionAfter(r.actions[signo - 1], Call(signo, r.actions[signo - 1].handler) in o.calls);
  }

  lemma OneCall(s: Sig, signo: nat, calls: seq<Call>)
    requires s.Sized() && !IsBadSignal(signo) && CallsAre(s, 1, MAX_SIGNAL_NR, calls) && Caught(s, signo)
    requires forall k: nat :: Caught(s, k) ==> k == signo
    ensures calls == [Call(signo, s.Handler(signo))]
  {
    hide Caught;
    var c := Call(signo, s.Handler(signo));
    assert DueCall(s, 1, MAX_SIGNAL_NR, c) && c in calls;
    assert |calls| > 1 ==> calls[0].signo < calls[1].signo;
    forall i | 0 <= i < |calls| ensures calls[i] == c {
      assert calls[i] in calls && DueCall(s, 1, MAX_SIGNAL_NR, calls[i]);
    }
  }

  // ---------- a deliverable fatal signal ends the task ----------

  /** A signal that would end the task is still there and noticed. */
  predicate StillFatal(s: Sig, k: nat) {
    s.Sized() && s.signalLeft && WouldExit(s, k)
  }

  lemma SentFatal(s: Sig, signo: int, sender: int, k: nat)
    requires StillFatal(s, k)
    ensures StillFatal(Sent(s, signo, sender), k)
  {
    hide Ignored;
  }

  lemma ExposedFatal(s: Sig, signo: nat, k: nat)
    requires StillFatal(s, k) && !IsBadSignal(signo)
    ensures StillFatal(Exposed(s, signo), k)
  {
  }

  lemma {:induction false} ArrivedFatal(s: Sig, arrivals: seq<Arrival>, k: nat)
    requires StillFatal(s, k)
    ensures StillFatal(Arrived(s, arrivals), k)
    decreases |arrivals|
  {
    hide Sent, Exposed, WouldExit;
    if |arrivals| > 0 {
      var a := arrivals[0];
      if a.forced && !IsBadSignal(a.signo) {
        ExposedFatal(s, a.signo, k);
        SentFatal(Exposed(s, a.signo), a.signo, a.sender, k);
        ArrivedFatal(Forced(s, a.signo, a.sender), arrivals[1..], k);
      } else {
        SentFatal(s, a.signo, a.sender, k);
        ArrivedFatal(Sent(s, a.signo, a.sender), arrivals[1..], k);
      }
    }
  }

  lemma HandledFatal(s: Sig, signo: nat, arrivals: seq<Arrival>, k: nat)
    requires StillFatal(s, k) && !IsBadSignal(signo) && Deliverable(s, signo)
    ensures var o := Handled(s, signo, arrivals);
      if signo == k then o.exited > 0 else o.exited > 0 || StillFatal(o.sig, k)
  {
    hide Arrived;
    if signo != k {
      var t := CalcLeft(s.(pending := s.pending - {signo}, senders := s.senders[signo - 1 := -1]));
      assert k in t.pending;
      ArrivedFatal(t.(status := Stopped, exitStatus := signo), arrivals, k);
    }
  }

  lemma {:induction false} FatalExits(s: Sig, signo: nat, arrivals: Arrivals, k: nat)
    requires StillFatal(s, k) && 1 <= signo <= k
    ensures HandledFrom(s, signo, arrivals).exited > 0
    decreases MAX_SIGNAL_NR - signo
  {
    hide Handled;
    if signo in s.pending && signo !in s.blocked {
      HandledFatal(s, signo, arrivals[signo], k);
      var o := Handled(s, signo, arrivals[signo]);
      if o.exited == 0 {
        FatalExits(o.sig, signo + 1, arrivals, k);
      }
    } else {
      FatalExits(s, signo + 1, arrivals, k);
    }
  }

  // ---------- what may arrive while the task is stopped ----------

  const ALARM := Arrival(SIGALRM, 0, true)
  const CONTINUE := Arrival(SIGCONT, 0, false)

  /** SIGCONT continues the task whenever it is stopped; while signal k stops it, an alarm
      expires before that (UpdateAlarmSystem). */
  function AlarmAt(k: nat): Arrivals {
    seq(MAX_SIGNAL_NR, i => if i == k then [ALARM, CONTINUE] else [CONTINUE])
  }

  /** Every signal that is deliverable, or would stop the task, stays so; only SIGALRM may be
      new among those that would end it. */
  ghost predicate Kept(s: Sig, t: Sig, alarm: bool) {
    && Sane(s) && Sane(t) && (s.signalLeft ==> t.signalLeft)
    && (forall j: nat :: Deliverable(s, j) ==> Deliverable(t, j))
    && (forall j: nat :: WouldStop(s, j) ==> WouldStop(t, j))
    && (forall j: nat :: WouldExit(t, j) ==> WouldExit(s, j) || (alarm && j == SIGALRM))
  }

  lemma ContinueKept(s: Sig)
    requires Sane(s)
    ensures Kept(s, Sent(s, SIGCONT, 0), false)
  {
  }

  lemma AlarmKept(s: Sig)
    requires Sane(s)
    ensures var t := Forced(s, SIGALRM, 0); Kept(s, t, true) && Deliverable(t, SIGALRM) && t.signalLeft
  {
    var e := Exposed(s, SIGALRM);
    assert StopHandled(e, SIGALRM) == e && !Ignored(e, SIGALRM);
  }

  lemma ContinuedKept(s: Sig)
    requires Sane(s)
    ensures Kept(s, Arrived(s, [CONTINUE]).(status := Running), false)
  {
    hide Sent;
    ContinueKept(s);
    assert [CONTINUE][1..] == [];
  }

  lemma AlarmedKept(s: Sig)
    requires Sane(s)
    ensures var t := Arrived(s, [ALARM, CONTINUE]).(status := Running);
      Kept(s, t, true) && Deliverable(t, SIGALRM) && t.signalLeft
  {
    hide Sent, Exposed;
    AlarmKept(s);
    ContinuedKept(Forced(s, SIGALRM, 0));
    assert [ALARM, CONTINUE][1..] == [CONTINUE];
  }

  /** What is left of s without signal signo is kept in t. */
  ghost predicate Passed(s: Sig, signo: nat, t: Sig, alarm: bool) {
    exists u :: TakenOff(s, signo, u) && Kept(u, t, alarm)
  }

  lemma Past(s: Sig, signo: nat, t: Sig, alarm: bool)
    requires Sane(s) && Passed(s, signo, t, alarm)
    ensures Sane(t)
    ensures forall j: nat :: Deliverable(s, j) && j != signo ==> Deliverable(t, j) && t.signalLeft
    ensures forall j: nat :: WouldStop(s, j) && j != signo ==> WouldStop(t, j)
    ensures forall j: nat :: WouldExit(t, j) ==> WouldExit(s, j) || (alarm && j == SIGALRM)
  {
    var u :| TakenOff(s, signo, u) && Kept(u, t, alarm);
    OthersSame(s, signo, u);
    forall j: nat | Deliverable(s, j) && j != signo
      ensures Deliverable(t, j) && t.signalLeft
    {
      assert j in u.pending && Deliverable(u, j);
    }
  }

  lemma HandledPasses(s: Sig, signo: nat)
    requires Sane(s) && !IsBadSignal(signo) && Deliverable(s, signo) && !WouldExit(s, signo)
    ensures var o := Handled(s, signo, [CONTINUE]); o.exited == 0 && Passed(s, signo, o.sig, false)
  {
    hide Arrived;
    if WouldStop(s, signo) {
      var t := CalcLeft(s.(pending := s.pending - {signo}, senders := s.senders[signo - 1 := -1]));
      var u := t.(status := Stopped, exitStatus := signo);
      ContinuedKept(u);
      assert TakenOff(s, signo, u);
    } else {
      HandledPlain(s, signo, [CONTINUE]);
      HandledSane(s, signo, [CONTINUE]);
      var t := Handled(s, signo, [CONTINUE]).sig;
      assert TakenOff(s, signo, t) && Kept(t, t, false);
    }
  }

  lemma StoppedThenAlarm(s: Sig, k: nat)
    requires Sane(s) && WouldStop(s, k)
    ensures var o := Handled(s, k, [ALARM, CONTINUE]);
      o.exited == 0 && Passed(s, k, o.sig, true) && Deliverable(o.sig, SIGALRM) && o.sig.signalLeft
  {
    hide Arrived;
    var t := CalcLeft(s.(pending := s.pending - {k}, senders := s.senders[k - 1 := -1]));
    var u := t.(status := Stopped, exitStatus := k);
    AlarmedKept(u);
    assert TakenOff(s, k, u);
  }

  lemma {:induction false} AlarmStays(s: Sig, signo: nat, k: nat)
    requires Sane(s) && s.signalLeft && Deliverable(s, SIGALRM) && SIGALRM < k < signo <= MAX_SIGNAL_NR
    requires forall j: nat :: signo <= j ==> !WouldExit(s, j)
    ensures var o := HandledFrom(s, signo, AlarmAt(k)); o.exited == 0 && Deliverable(o.sig, SIGALRM)
    decreases MAX_SIGNAL_NR - signo
  {
    hide Handled;
    if signo < MAX_SIGNAL_NR {
      if signo in s.pending && signo !in s.blocked {
        HandledPasses(s, signo);
        var t := Handled(s, signo, [CONTINUE]).sig;
        Past(s, signo, t, false);
        AlarmStays(t, signo + 1, k);
      } else {
        AlarmStays(s, signo + 1, k);
      }
    }
  }

  lemma {:induction false} StopLeaves(s: Sig, signo: nat, k: nat)
    requires Sane(s) && s.signalLeft && WouldStop(s, k) && 1 <= signo <= k
    requires forall j: nat :: !WouldExit(s, j)
    ensures var o := HandledFrom(s, signo, AlarmAt(k)); o.exited == 0 && Deliverable(o.sig, SIGALRM)
    decreases k - signo
  {
    hide Handled;
    if signo == k {
      StoppedThenAlarm(s, k);
      var t := Handled(s, k, [ALARM, CONTINUE]).sig;
      Past(s, k, t, true);
      AlarmStays(t, k + 1, k);
    } else if signo in s.pending && signo !in s.blocked {
      HandledPasses(s, signo);
      var t := Handled(s, signo, [CONTINUE]).sig;
      Past(s, signo, t, false);
      StopLeaves(t, signo + 1, k);
    } else {
      StopLeaves(s, signo + 1, k);
    }
  }

  /** Whatever may arrive while the task is stopped on the way, a return to user mode ends it or
      leaves no deliverable signal behind if and only if there is none before, or signalLeft is
      set and a deliverable signal ends the task or none stops it. */
  lemma UserReturnClears(s: Sig)
    requires Sane(s)
    ensures (forall arrivals: Arrivals :: Clears(s, arrivals)) <==>
      || s.pending <= s.blocked
      || (s.signalLeft && ((exists k :: WouldExit(s, k)) || !exists k :: WouldStop(s, k)))
  {
    if s.pending <= s.blocked || (s.signalLeft && ((exists k :: WouldExit(s, k)) || !exists k :: WouldStop(s, k))) {
      forall arrivals: Arrivals ensures Clears(s, arrivals) {
        ClearsThen(s, arrivals);
      }
    } else if !s.signalLeft {
      assert !Clears(s, AlarmAt(0));
    } else {
      var k :| WouldStop(s, k);
      StopLeaves(s, 1, k);
      assert !Clears(s, AlarmAt(k));
    }
  }

  lemma ClearsThen(s: Sig, arrivals: Arrivals)
    requires Sane(s)
    requires s.pending <= s.blocked || (s.signalLeft && ((exists k :: WouldExit(s, k)) || !exists k :: WouldStop(s, k)))
    ensures Clears(s, arrivals)
  {
    hide HandledFrom;
    if s.signalLeft {
      if k :| WouldExit(s, k) {
        FatalExits(s, 1, arrivals, k);
      } else {
        assert forall k: nat :: !WouldStop(s, k);
        PlainClears(s, 1, arrivals);
      }
    }
  }

  // ---------- two inputs for which it does not hold ----------

  const NO_ARRIVALS: Arrivals := seq(MAX_SIGNAL_NR, _ => [])

  /** Unblocking a pending signal does not set signalLeft, so the signal stays undelivered. */
  lemma UnblockingForgets()
    ensures var ops := [SetMask(SIG_BLOCK, Some({SIGTERM})), Send(SIGTERM, 2), SetMask(SIG_UNBLOCK, Some({SIGTERM})),
              Deliver(USER_CODE_SEL, NO_ARRIVALS)];
      var o := Run(Fresh(1, Running), ops);
      o.exited == 0 && o.calls == [] && Deliverable(o.sig, SIGTERM) && !o.sig.signalLeft
  {
    var s0 := Fresh(1, Running);
    var s1 := Masked(s0, SIG_BLOCK, Some({SIGTERM}));
    var s2 := Sent(s1, SIGTERM, 2);
    var s3 := Masked(s2, SIG_UNBLOCK, Some({SIGTERM}));
    assert !s3.signalLeft;
    var d := Deliver(USER_CODE_SEL, NO_ARRIVALS);
    assert Run(s3, [d]) == Outcome(s3, 0, []) by { assert [d][1..] == []; }
    var o2 := SetMask(SIG_UNBLOCK, Some({SIGTERM}));
    assert Run(s2, [o2, d]) == Run(s3, [d]) by { assert [o2, d][1..] == [d]; }
    var o1 := Send(SIGTERM, 2);
    assert Run(s1, [o1, o2, d]) == Run(s2, [o2, d]) by { assert [o1, o2, d][1..] == [o2, d]; }
    var o0 := SetMask(SIG_BLOCK, Some({SIGTERM}));
    assert Run(s0, [o0, o1, o2, d]) == Run(s1, [o1, o2, d]) by { assert [o0, o1, o2, d][1..] == [o1, o2, d]; }
  }

  lemma {:induction false} SkipTo(s: Sig, signo: nat, k: nat, arrivals: Arrivals)
    requires s.Sized() && s.signalLeft && 1 <= signo <= k <= MAX_SIGNAL_NR
    requires forall i: nat :: signo <= i < k ==> !Deliverable(s, i)
    ensures HandledFrom(s, signo, arrivals) == HandledFrom(s, k, arrivals)
    decreases k - signo
  {
    if signo < k {
      assert !Deliverable(s, signo);
      SkipTo(s, signo + 1, k, arrivals);
    }
  }

  function WhileStopped(): Arrivals {
    seq(MAX_SIGNAL_NR, i => if i == SIGTSTP then [Arrival(SIGTERM, 2, false), CONTINUE] else [])
  }

  /** A task that SIGTSTP stops gets SIGTERM and is then continued: it is back in user mode with
      SIGTERM pending and unblocked, although signalLeft was set. */
  lemma StopForgets()
    ensures var s := Sent(Fresh(1, Running), SIGTSTP, 2);
      var o := SignalsDone(s, USER_CODE_SEL, WhileStopped());
      s.signalLeft && o.exited == 0 && o.calls == [] && Deliverable(o.sig, SIGTERM)
  {
    var s := Sent(Fresh(1, Running), SIGTSTP, 2);
    assert s.pending == {SIGTSTP} && s.blocked == {} && s.signalLeft;
    SkipTo(s, 1, SIGTSTP, WhileStopped());
    var t := CalcLeft(s.(pending := s.pending - {SIGTSTP}, senders := s.senders[SIGTSTP - 1 := -1]));
    var u := t.(status := Stopped, exitStatus := SIGTSTP);
    assert u.pending == {};
    var a := Arrival(SIGTERM, 2, false);
    assert [a, CONTINUE][1..] == [CONTINUE] && [CONTINUE][1..] == [];
    var v := Sent(u, SIGTERM, 2);
    assert v.pending == {SIGTERM} && v.signalLeft;
    var w := Sent(v, SIGCONT, 0);
    assert w.pending == {SIGTERM} && w.signalLeft && w.blocked == {};
    assert Arrived(u, [a, CONTINUE]) == Arrived(v, [CONTINUE]) == Arrived(w, []) == w;
    var o := Handled(s, SIGTSTP, [a, CONTINUE]);
    assert o == Outcome(w.(status := Running), 0, []);
    SkipTo(o.sig, SIGTSTP + 1, MAX_SIGNAL_NR, WhileStopped());
  }
}
