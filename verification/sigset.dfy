/** Signal sets: the 32 bits of a mask, bit 0 meaning nothing (src/share/signal.c). */
module SigSets {

  const MAX_SIGNAL_NR: nat := 32

  type SigSet = mask: seq<bool> | |mask| == MAX_SIGNAL_NR witness seq(MAX_SIGNAL_NR, _ => false)

  predicate IsBadSignal(signo: int) {
    signo < 1 || signo >= MAX_SIGNAL_NR
  }

  predicate SigIsMember(mask: SigSet, signo: int) {
    !IsBadSignal(signo) && mask[signo]
  }

  /** The signals in a mask. */
  function Members(mask: SigSet): set<nat> {
    set k: nat | k < MAX_SIGNAL_NR && SigIsMember(mask, k)
  }

  function SigAddSet(mask: SigSet, signo: int): (r: SigSet)
    ensures Members(r) == Members(mask) + if IsBadSignal(signo) then {} else {signo}
  {
    if IsBadSignal(signo) then mask else mask[signo := true]
  }

  function SigDelSet(mask: SigSet, signo: int): (r: SigSet)
    ensures Members(r) == Members(mask) - {signo}
  {
    if IsBadSignal(signo) then mask else mask[signo := false]
  }

  /** Only bit 0 is set. */
  function SigEmptySet(): (r: SigSet)
    ensures Members(r) == {}
  {
    seq(MAX_SIGNAL_NR, i => i == 0)
  }

  function SigFillSet(): (r: SigSet)
    ensures forall k: nat :: k in Members(r) <==> !IsBadSignal(k)
  {
    seq(MAX_SIGNAL_NR, _ => true)
  }

  function SigOr(a: SigSet, b: SigSet): (r: SigSet)
    ensures Members(r) == Members(a) + Members(b)
  {
    seq(MAX_SIGNAL_NR, i requires 0 <= i < MAX_SIGNAL_NR => a[i] || b[i])
  }

  function SigAndNot(a: SigSet, b: SigSet): (r: SigSet)
    ensures Members(r) == Members(a) - Members(b)
  {
    seq(MAX_SIGNAL_NR, i requires 0 <= i < MAX_SIGNAL_NR => a[i] && !b[i])
  }

  /** The mask is 0 or 1 as a number. */
  predicate SigIsEmpty(mask: SigSet)
    ensures SigIsEmpty(mask) <==> Members(mask) == {}
  {
    var none := forall i :: 1 <= i < MAX_SIGNAL_NR ==> !mask[i];
    assert !none ==> exists i: nat :: i in Members(mask) by {
      if !none {
        var i :| 1 <= i < MAX_SIGNAL_NR && mask[i];
        assert i in Members(mask);
      }
    }
    none
  }
}
