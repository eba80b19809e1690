/** Signal frames on the user stack (src/kernel/signal.c:205-304). The user's memory is an
    array of 32-bit words, so word w is the four bytes at address 4 * w. */
module SignalFrames {
  import opened Basics

  const TRAP_WORDS: nat := 19
  const GS: nat := 9
  const FS: nat := 10
  const ES: nat := 11
  const DS: nat := 12
  const EIP: nat := 14
  const CS: nat := 15
  const ESP: nat := 17
  const SS: nat := 18

  const USER_CODE_SEL: word := 0x23
  const USER_DATA_SEL: word := 0x2b
  const USER_STACK_SEL: word := USER_DATA_SEL

  const SYS_SIGRET: word := 36
  const SIGNAL_FRAME_WORDS: nat := 23
  const SIGNAL_FRAME_SIZE: nat := 92
  const MEMORY_WORDS: nat := 0x4000_0000

  /** The saved registers and the memory of a process. */
  datatype User = User(frame: seq<word>, mem: seq<word>) {
    ghost predicate Valid() {
      |frame| == TRAP_WORDS && |mem| == MEMORY_WORDS
    }

    function Sp(): int
      requires |frame| == TRAP_WORDS
    {
      frame[ESP]
    }
  }

  datatype Call = Call(signo: word, handler: word)

  /** Where the next signal frame goes: below esp, down to a multiple of 8. */
  function FrameAt(esp: word): (at: word)
    requires esp >= SIGNAL_FRAME_SIZE
    ensures at % 8 == 0 && at + SIGNAL_FRAME_SIZE <= esp < at + SIGNAL_FRAME_SIZE + 8
  {
    (esp - SIGNAL_FRAME_SIZE) / 8 * 8
  }

  /** mov eax, SYS_SIGRET; int 0x80: seven bytes, so the last byte of the second word stays. */
  function RetCode(last: word): (words: seq<word>)
  {
    [0xb8 + SYS_SIGRET * 0x100, 0x80cd00 + last / 0x100_0000 * 0x100_0000]
  }

  /** The words of a signal frame at the given address: return address, signal number, the
      saved registers, and the code that the return address points to. */
  function SignalFrame(at: word, signo: word, frame: seq<word>, last: word): (words: seq<word>)
    requires |frame| == TRAP_WORDS && at + 84 < 0x1_0000_0000
    ensures |words| == SIGNAL_FRAME_WORDS
  {
    var retAddr: word := at + 84;
    [retAddr, signo] + frame + RetCode(last)
  }

  /** Registers that enter the handler on the new stack in user mode. */
  function Entered(frame: seq<word>, at: word, handler: word): seq<word>
    requires |frame| == TRAP_WORDS
  {
    frame[EIP := handler][ESP := at][DS := USER_DATA_SEL][ES := USER_DATA_SEL][FS := USER_DATA_SEL][GS := USER_DATA_SEL]
      [SS := USER_STACK_SEL][CS := USER_CODE_SEL]
  }

  function Pushed(u: User, call: Call): (r: User)
    requires u.Valid() && u.frame[ESP] >= SIGNAL_FRAME_SIZE
    ensures r.Valid()
  {
    var at := FrameAt(u.frame[ESP]);
    var w := at / 4;
    User(Entered(u.frame, at, call.handler),
      u.mem[..w] + SignalFrame(at, call.signo, u.frame, u.mem[w + 22]) + u.mem[w + SIGNAL_FRAME_WORDS..])
  }

  /** The stack pointer after n frames. */
  function Down(esp: int, n: nat): (at: int)
    ensures at <= esp - SIGNAL_FRAME_SIZE * n && at >= esp - 99 * n
  {
    if n == 0 then esp else (Down(esp, n - 1) - SIGNAL_FRAME_SIZE) / 8 * 8
  }

  /** The stack has room below esp for n more signal frames. */
  predicate Room(esp: int, n: nat) {
    n > 0 ==> Down(esp, n - 1) >= SIGNAL_FRAME_SIZE
  }

  lemma {:induction false} RoomForFewer(esp: int, n: nat, m: nat)
    requires Room(esp, n) && m <= n
    ensures Room(esp, m) && (m < n ==> Down(esp, m) >= SIGNAL_FRAME_SIZE)
    decreases n
  {
    if m < n - 1 {
      assert Down(esp, n - 1) <= Down(esp, n - 2);
      RoomForFewer(esp, n - 1, m);
    }
  }

  /** The frames of several caught signals, pushed in order. */
  function PushAll(u: User, calls: seq<Call>): (r: User)
    requires u.Valid() && Room(u.frame[ESP], |calls|)
    ensures r.Valid() && r.frame[ESP] == Down(u.frame[ESP], |calls|)
    decreases |calls|
  {
    if |calls| == 0 then u
    else
      var n := |calls| - 1;
      RoomForFewer(u.frame[ESP], |calls|, n);
      var p := PushAll(u, calls[..n]);
      Pushed(p, calls[n])
  }

  /** u agrees with p in its registers and in all memory from the stack pointer up. */
  ghost predicate SameAbove(u: User, p: User)
    requires u.Valid() && p.Valid()
  {
    u.frame == p.frame && forall w :: 0 <= w < MEMORY_WORDS && p.frame[ESP] <= 4 * w ==> u.mem[w] == p.mem[w]
  }

  /** What a handler finds when it starts: itself, its argument and a return address whose
      code asks the kernel for SysSignalReturn. */
  ghost predicate HandlerSees(u: User, call: Call)
    requires u.Valid()
  {
    && u.frame[EIP] == call.handler && u.frame[CS] == USER_CODE_SEL && u.frame[SS] == USER_STACK_SEL
    && u.frame[DS] == u.frame[ES] == u.frame[FS] == u.frame[GS] == USER_DATA_SEL
    && var w := u.frame[ESP] / 4;
      && u.frame[ESP] % 8 == 0 && w + SIGNAL_FRAME_WORDS <= MEMORY_WORDS
      && u.mem[w + 1] == call.signo
      && u.mem[w] == 4 * (w + 21)
      && u.mem[w + 21] == 0x24b8 && u.mem[w + 22] % 0x100_0000 == 0x80cd00
  }

  /** The handler that started in u has returned: one word popped, and nothing changed from
      its argument's slot up; below that it may have used the stack as it liked. */
  ghost predicate HandlerReturned(u: User, v: User)
    requires u.Valid()
  {
    && v.Valid() && v.Sp() == u.Sp() + 4
    && forall w :: 0 <= w < MEMORY_WORDS && u.Sp() + 8 <= 4 * w ==> v.mem[w] == u.mem[w]
  }

  /** SysSignalReturn can read a signal frame at esp - 4. */
  predicate AtSignalFrame(esp: word) {
    4 <= esp && esp % 4 == 0 && esp / 4 - 1 + SIGNAL_FRAME_WORDS <= MEMORY_WORDS
  }

  function SignalReturned(u: User): (r: User)
    requires u.Valid() && AtSignalFrame(u.frame[ESP])
    ensures r.Valid()
  {
    var w := u.frame[ESP] / 4 - 1;
    u.(frame := u.mem[w + 2..w + 2 + TRAP_WORDS])
  }

  /** Frames of one DoSignal lie below each other without overlap. */
  lemma {:induction false} FramesDescend(u: User, calls: seq<Call>, i: nat, j: nat)
    requires u.Valid() && Room(u.frame[ESP], |calls|) && i < j <= |calls|
    ensures Room(u.frame[ESP], i) && Room(u.frame[ESP], j)
    ensures PushAll(u, calls[..j]).frame[ESP] + SIGNAL_FRAME_SIZE <= PushAll(u, calls[..i]).frame[ESP]
    decreases j
  {
    hide Pushed, PushAll;
    RoomForFewer(u.frame[ESP], |calls|, i);
    RoomForFewer(u.frame[ESP], |calls|, j);
    if i < j - 1 {
      FramesDescend(u, calls, i, j - 1);
    }
  }

  lemma PushedWords(p: User, call: Call, i: nat)
    requires p.Valid() && p.frame[ESP] >= SIGNAL_FRAME_SIZE && i < SIGNAL_FRAME_WORDS
    ensures var w := FrameAt(p.frame[ESP]) / 4;
      && w + i < |p.mem|
      && Pushed(p, call).mem[w + i] == SignalFrame(FrameAt(p.frame[ESP]), call.signo, p.frame, p.mem[w + 22])[i]
  {
  }

  lemma FrameWords(at: word, signo: word, frame: seq<word>, last: word)
    requires |frame| == TRAP_WORDS && at + 84 < 0x1_0000_0000
    ensures var words := SignalFrame(at, signo, frame, last);
      && words[0] == at + 84 && words[1] == signo
      && words[21] == 0xb8 + SYS_SIGRET * 0x100 && words[22] == 0x80cd00 + last / 0x100_0000 * 0x100_0000
      && forall i :: 0 <= i < TRAP_WORDS ==> words[i + 2] == frame[i]
  {
  }

  /** Memory that has the words of a signal frame in place, and is otherwise as before. */
  lemma StoredFrame(at: word, signo: word, frame: seq<word>, m0: seq<word>, m1: seq<word>)
    requires |frame| == TRAP_WORDS && |m0| == |m1| == MEMORY_WORDS && at / 4 + SIGNAL_FRAME_WORDS <= MEMORY_WORDS
    requires var w := at / 4;
      && at + 84 < 0x1_0000_0000 && m1[w] == at + 84 && m1[w + 1] == signo
      && m1[w + 21] == 0xb8 + SYS_SIGRET * 0x100 && m1[w + 22] == 0x80cd00 + m0[w + 22] / 0x100_0000 * 0x100_0000
      && (forall i :: 0 <= i < TRAP_WORDS ==> m1[w + 2 + i] == frame[i])
      && forall i :: 0 <= i < w || w + SIGNAL_FRAME_WORDS <= i < MEMORY_WORDS ==> m1[i] == m0[i]
    ensures var w := at / 4;
      m1 == m0[..w] + SignalFrame(at, signo, frame, m0[w + 22]) + m0[w + SIGNAL_FRAME_WORDS..]
  {
    hide SignalFrame;
    var w := at / 4;
    var words := SignalFrame(at, signo, frame, m0[w + 22]);
    FrameWords(at, signo, frame, m0[w + 22]);
    forall k | 0 <= k < SIGNAL_FRAME_WORDS
      ensures m1[w + k] == words[k]
    {
      if 2 <= k < 21 {
        assert words[(k - 2) + 2] == frame[k - 2] && m1[w + 2 + (k - 2)] == frame[k - 2];
      }
    }
    assert m1[w..w + SIGNAL_FRAME_WORDS] == words;
    assert m1[..w] == m0[..w] && m1[w + SIGNAL_FRAME_WORDS..] == m0[w + SIGNAL_FRAME_WORDS..];
  }

  lemma PushedTop(p: User, call: Call)
    requires p.Valid() && p.frame[ESP] >= SIGNAL_FRAME_SIZE
    ensures SameAbove(Pushed(p, call).(frame := p.frame), p)
    ensures Pushed(p, call).frame[ESP] == FrameAt(p.frame[ESP])
  {
  }

  /** The handler of the frame pushed last starts with what it needs. */
  lemma LastHandlerSees(u: User, p: User, call: Call)
    requires u.Valid() && p.Valid() && p.frame[ESP] >= SIGNAL_FRAME_SIZE && SameAbove(u, Pushed(p, call))
    ensures HandlerSees(u, call)
  {
    hide Pushed;
    var at := FrameAt(p.frame[ESP]);
    PushedTop(p, call);
    PushedWords(p, call, 0);
    PushedWords(p, call, 1);
    PushedWords(p, call, 21);
    PushedWords(p, call, 22);
    PushedEntered(p, call);
  }

  lemma PushedEntered(p: User, call: Call)
    requires p.Valid() && p.frame[ESP] >= SIGNAL_FRAME_SIZE
    ensures Pushed(p, call).frame == Entered(p.frame, FrameAt(p.frame[ESP]), call.handler)
  {
  }

  /** Its return and SysSignalReturn undo the push: the registers exactly, and the memory from
      the stack pointer up. */
  lemma ReturnUndoesPush(u: User, v: User, p: User, call: Call)
    requires u.Valid() && p.Valid() && p.frame[ESP] >= SIGNAL_FRAME_SIZE && SameAbove(u, Pushed(p, call))
    requires HandlerReturned(u, v)
    ensures AtSignalFrame(v.frame[ESP]) && SameAbove(SignalReturned(v), p)
  {
    hide Pushed, SignalFrame, FrameAt;
    var at := FrameAt(p.frame[ESP]);
    var w := at / 4;
    PushedTop(p, call);
    forall i | 0 <= i < TRAP_WORDS
      ensures v.mem[w + 2 + i] == p.frame[i]
    {
      PushedWords(p, call, i + 2);
      FrameWords(at, call.signo, p.frame, p.mem[w + 22]);
    }
    assert SignalReturned(v).frame == p.frame;
  }

  /** n times: the handler that u is about to enter returns, and SysSignalReturn follows. */
  ghost predicate Unwinds(u: User, n: nat, r: User)
    requires u.Valid()
    decreases n
  {
    if n == 0 then r == u
    else exists v :: HandlerReturned(u, v) && AtSignalFrame(v.frame[ESP]) && Unwinds(SignalReturned(v), n - 1, r)
  }

  /** However many signals one DoSignal caught, as many handler returns restore the registers
      of before exactly, last pushed first, and leave the stack above as it was. */
  lemma {:induction false} UnwindingRestores(u: User, calls: seq<Call>, start: User, r: User)
    requires u.Valid() && Room(u.frame[ESP], |calls|) && start.Valid()
    requires SameAbove(start, PushAll(u, calls)) && Unwinds(start, |calls|, r)
    ensures r.Valid() && SameAbove(r, u)
    ensures |calls| > 0 ==> HandlerSees(start, calls[|calls| - 1])
    decreases |calls|
  {
    hide Pushed, HandlerSees;
    if |calls| > 0 {
      var n := |calls| - 1;
      RoomForFewer(u.frame[ESP], |calls|, n);
      var p := PushAll(u, calls[..n]);
      LastHandlerSees(start, p, calls[n]);
      var v :| HandlerReturned(start, v) && AtSignalFrame(v.frame[ESP]) && Unwinds(SignalReturned(v), n, r);
      ReturnUndoesPush(start, v, p, calls[n]);
      UnwindingRestores(u, calls[..n], SignalReturned(v), r);
    }
  }

  /** The kernel's view of a process in user mode: its trap frame and its memory. */
  class UserContext {
    const frame: array<word>
    const mem: array<word>

    ghost predicate Valid()
      reads this
    {
      frame.Length == TRAP_WORDS && mem.Length == MEMORY_WORDS && frame != mem
    }

    ghost function State(): (u: User)
      reads this, frame, mem
    {
      User(frame[..], mem[..])
    }

    constructor (frame: array<word>, mem: array<word>)
      requires frame.Length == TRAP_WORDS && mem.Length == MEMORY_WORDS && frame != mem
      ensures Valid() && this.frame == frame && this.mem == mem
    {
      this.frame, this.mem := frame, mem;
    }

    /** Writes the signal frame with the current registers at address at. */
    method StoreSignalFrame(at: word, signo: word)
      requires Valid() && at % 4 == 0 && at / 4 + SIGNAL_FRAME_WORDS <= MEMORY_WORDS
      modifies mem
      ensures var w := at / 4;
        mem[..] == old(mem[..w]) + SignalFrame(at, signo, frame[..], old(mem[w + 22])) + old(mem[w + SIGNAL_FRAME_WORDS..])
    {
      hide SignalFrame;
      var w := at / 4;
      mem[w + 1] := signo;
      forall i | 0 <= i < TRAP_WORDS {
        mem[w + 2 + i] := frame[i];
      }
      mem[w] := at + 84;
      mem[w + 21] := 0xb8 + SYS_SIGRET * 0x100;
      mem[w + 22] := 0x80cd00 + mem[w + 22] / 0x100_0000 * 0x100_0000;
      StoredFrame(at, signo, frame[..], old(mem[..]), mem[..]);
    }

    method BuildSignalFrame(signo: word, handler: word)
      requires Valid() && frame[ESP] >= SIGNAL_FRAME_SIZE
      modifies frame, mem
      ensures Valid() && State() == Pushed(old(State()), Call(signo, handler))
    {
      hide SignalFrame;
      var at := FrameAt(frame[ESP]);
      StoreSignalFrame(at, signo);
      frame[EIP] := handler;
      frame[ESP] := at;
      frame[DS], frame[ES], frame[FS], frame[GS] := USER_DATA_SEL, USER_DATA_SEL, USER_DATA_SEL, USER_DATA_SEL;
      frame[SS] := USER_STACK_SEL;
      frame[CS] := USER_CODE_SEL;
      assert frame[..] == Entered(old(frame[..]), at, handler);
    }

    /** Copies back the registers from the signal frame at esp - 4. */
    method SysSignalReturn() returns (eax: word)
      requires Valid() && AtSignalFrame(frame[ESP])
      modifies frame
      ensures Valid() && State() == SignalReturned(old(State())) && eax == frame[8]
    {
      var w := frame[ESP] / 4 - 1;
      forall i | 0 <= i < TRAP_WORDS {
        frame[i] := mem[w + 2 + i];
      }
      assert frame[..] == mem[w + 2..w + 2 + TRAP_WORDS];
      eax := frame[8];
    }
  }
}
