/** The ring queue of src/kernel/ioqueue.c, between callers that do not block: a put finds room
    and a get finds data. A value is given as the bytes at its address; the queue keeps the
    first factor of them. */
module IoQueues {
  import opened Lists
  import opened Basics

  const IQ_FACTOR_8: nat := 1
  const IQ_FACTOR_16: nat := 2
  const IQ_FACTOR_32: nat := 4
  const IQ_FACTOR_64: nat := 8

  predicate Supported(factor: nat) {
    factor == IQ_FACTOR_8 || factor == IQ_FACTOR_16 || factor == IQ_FACTOR_32 || factor == IQ_FACTOR_64
  }

  /** Where unit k begins. */
  function At(factor: nat, k: nat): nat {
    k * factor
  }

  lemma AtOrder(factor: nat, j: nat, k: nat)
    requires j < k && Supported(factor)
    ensures At(factor, j) + factor <= At(factor, k) && At(factor, k) == At(factor, k - 1) + factor
  {
  }

  predicate UnitHolds(bytes: seq<byte>, factor: nat, k: nat, value: seq<byte>) {
    At(factor, k) + factor <= |bytes| && bytes[At(factor, k)..At(factor, k) + factor] == value
  }

  /** Writing unit n leaves what unit k holds. */
  lemma OtherUnits(before: seq<byte>, after: seq<byte>, factor: nat, n: nat, k: nat, value: seq<byte>)
    requires Supported(factor) && |after| == |before| && n != k && UnitHolds(before, factor, k, value)
    requires forall i :: 0 <= i < |before| && !(At(factor, n) <= i < At(factor, n) + factor) ==> after[i] == before[i]
    ensures UnitHolds(after, factor, k, value)
  {
    hide At;
    if k < n { AtOrder(factor, k, n); } else { AtOrder(factor, n, k); }
    var at := At(factor, k);
    assert after[at..at + factor] == before[at..at + factor];
  }

  /** The unit that follows k by i in a ring of n. */
  function Ring(k: nat, i: nat, n: nat): (r: nat)
    requires k < n && i <= n
    ensures r < n
  {
    if k + i < n then k + i else k + i - n
  }

  class IoQueue {
    const buf: array<byte>
    const factor: nat
    var head: nat
    var tail: nat
    var size: nat
    /** The values in the queue, oldest first, and the units at which tail and head stand. */
    ghost var values: seq<seq<byte>>
    ghost var first: nat
    ghost var next: nat
    ghost const units: nat

    ghost predicate Valid()
      reads this, buf
    {
      && Supported(factor) && units > 0 && buf.Length == At(factor, units)
      && first < units && next < units && size == |values| <= units
      && tail == At(factor, first) && head == At(factor, next) && next == Ring(first, size, units)
      && forall i :: 0 <= i < size ==> UnitHolds(buf[..], factor, Ring(first, i, units), values[i])
    }

    /** IoQueueInit on a buffer that the factor divides. */
    constructor (buf: array<byte>, factor: nat)
      requires Supported(factor) && buf.Length > 0 && buf.Length % factor == 0
      modifies buf
      ensures Valid() && this.buf == buf && this.factor == factor && values == []
    {
      this.buf, this.factor := buf, factor;
      units := buf.Length / factor;
      head, tail, size := 0, 0, 0;
      values, first, next := [], 0, 0;
      new;
      forall i | 0 <= i < buf.Length {
        buf[i] := 0;
      }
    }

    predicate IoQueueFull()
      reads this
      requires factor > 0
    {
      size == buf.Length / factor
    }

    predicate IoQueueEmpty()
      reads this
    {
      size == 0
    }

    lemma FullIff()
      requires Valid()
      ensures IoQueueFull() <==> |values| == units
      ensures size == |values| <= units && (IoQueueEmpty() <==> values == [])
    {
      assert buf.Length / factor == units;
    }

    /** Appends the value, cut to factor bytes. */
    method IoQueuePut(data: seq<byte>)
      requires Valid() && !IoQueueFull() && factor <= |data|
      modifies this`head, this`size, this`values, this`next, buf
      ensures Valid() && values == old(values) + [data[..factor]]
    {
      hide At;
      FullIff();
      AtOrder(factor, next, units);
      ghost var before := buf[..];
      var at := head;
      forall i | 0 <= i < factor {
        buf[at + i] := data[i];
      }
      head := head + factor;
      size := size + 1;
      if head >= buf.Length {
        head := 0;
      }
      Stepped(next);
      values := values + [data[..factor]];
      assert UnitHolds(buf[..], factor, next, data[..factor]);
      forall i | 0 <= i < size - 1
        ensures UnitHolds(buf[..], factor, Ring(first, i, units), values[i])
      {
        OtherUnits(before, buf[..], factor, next, Ring(first, i, units), values[i]);
      }
      next := if next + 1 == units then 0 else next + 1;
    }

    lemma Stepped(k: nat)
      requires Supported(factor) && k < units && buf.Length == At(factor, units)
      ensures At(factor, k) + factor == At(factor, k + 1) && At(factor, 0) == 0
      ensures At(factor, k) + factor >= buf.Length <==> k + 1 == units
    {
      AtOrder(factor, k, k + 1);
      if k + 1 < units {
        AtOrder(factor, k + 1, units);
      }
    }

    /** Takes the oldest value. */
    method IoQueueGet() returns (data: seq<byte>)
      requires Valid() && !IoQueueEmpty()
      modifies this`tail, this`size, this`values, this`first
      ensures Valid() && data == old(values)[0] && values == old(values)[1..]
    {
      hide At;
      assert Ring(first, 0, units) == first && UnitHolds(buf[..], factor, first, values[0]);
      data := buf[tail..tail + factor];
      tail := tail + factor;
      size := size - 1;
      if tail >= buf.Length {
        tail := 0;
      }
      Stepped(first);
      ghost var f := first;
      first := if f + 1 == units then 0 else f + 1;
      values := values[1..];
      assert next == Ring(f, size + 1, units);
      forall i | 0 <= i < size
        ensures Ring(first, i, units) == Ring(f, i + 1, units)
      {
      }
    }
  }

  datatype Op = Put(data: seq<byte>) | Get

  /** A run of puts and gets on the values, as IoQueuePut and IoQueueGet change them. */
  predicate Allowed(values: seq<seq<byte>>, ops: seq<Op>, factor: nat, units: nat)
    decreases |ops|
  {
    |ops| > 0 ==>
      match ops[0]
      case Put(data) => |values| < units && factor <= |data| && Allowed(values + [data[..factor]], ops[1..], factor, units)
      case Get => |values| > 0 && Allowed(values[1..], ops[1..], factor, units)
  }

  function Final(values: seq<seq<byte>>, ops: seq<Op>, factor: nat, units: nat): seq<seq<byte>>
    requires Allowed(values, ops, factor, units)
    decreases |ops|
  {
    if |ops| == 0 then values
    else
      match ops[0]
      case Put(data) => Final(values + [data[..factor]], ops[1..], factor, units)
      case Get => Final(values[1..], ops[1..], factor, units)
  }

  function Got(values: seq<seq<byte>>, ops: seq<Op>, factor: nat, units: nat): seq<seq<byte>>
    requires Allowed(values, ops, factor, units)
    decreases |ops|
  {
    if |ops| == 0 then []
    else
      match ops[0]
      case Put(data) => Got(values + [data[..factor]], ops[1..], factor, units)
      case Get => [values[0]] + Got(values[1..], ops[1..], factor, units)
  }

  function Cut(data: seq<byte>, factor: nat): seq<byte> {
    if factor <= |data| then data[..factor] else data
  }

  function Puts(ops: seq<Op>, factor: nat): seq<seq<byte>>
  {
    if |ops| == 0 then []
    else (if ops[0].Put? then [Cut(ops[0].data, factor)] else []) + Puts(ops[1..], factor)
  }

  /** What was there and what was put comes out in order; what did not come out is still there. */
  lemma {:induction false} InOrder(values: seq<seq<byte>>, ops: seq<Op>, factor: nat, units: nat)
    requires Allowed(values, ops, factor, units) && |values| <= units
    ensures values + Puts(ops, factor) == Got(values, ops, factor, units) + Final(values, ops, factor, units)
    ensures |Final(values, ops, factor, units)| <= units
    decreases |ops|
  {
    if |ops| > 0 {
      var later := Puts(ops[1..], factor);
      match ops[0]
      case Put(data) =>
        InOrder(values + [data[..factor]], ops[1..], factor, units);
        Associates(values, [data[..factor]], later);
      case Get =>
        InOrder(values[1..], ops[1..], factor, units);
        Associates([values[0]], values[1..], later);
        Associates([values[0]], Got(values[1..], ops[1..], factor, units), Final(values[1..], ops[1..], factor, units));
        assert values == [values[0]] + values[1..] && [] + later == later;
    }
  }

  /** Over any run from an empty queue the values got are a prefix of the values put, and the
      number of values in the queue is puts minus gets, at most the capacity. */
  lemma QueueIsFifo(ops: seq<Op>, factor: nat, units: nat)
    requires Allowed([], ops, factor, units)
    ensures Got([], ops, factor, units) <= Puts(ops, factor)
    ensures |Final([], ops, factor, units)| == |Puts(ops, factor)| - |Got([], ops, factor, units)| <= units
  {
    InOrder([], ops, factor, units);
    assert [] + Puts(ops, factor) == Puts(ops, factor);
  }

  /** The same for the ring: any run of puts and gets on a queue returns what was in it and what
      was put, in order, and the rest is still in it. */
  method Exchange(q: IoQueue, ops: seq<Op>) returns (got: seq<seq<byte>>)
    requires q.Valid() && Allowed(q.values, ops, q.factor, q.units)
    modifies q, q.buf
    ensures q.Valid() && got + q.values == old(q.values) + Puts(ops, q.factor)
    ensures got == Got(old(q.values), ops, q.factor, q.units)
    ensures old(q.values) == [] ==> got <= Puts(ops, q.factor) && q.size == |Puts(ops, q.factor)| - |got|
  {
    hide IoQueue.Valid, IoQueue.IoQueueFull, IoQueue.IoQueueEmpty, Puts, Cut;
    got := [];
    var i := 0;
    ghost var v0 := q.values;
    q.FullIff();
    InOrder(v0, ops, q.factor, q.units);
    assert ops[0..] == ops;
    while i < |ops|
      invariant 0 <= i <= |ops| && q.Valid() && Allowed(q.values, ops[i..], q.factor, q.units)
      invariant Got(v0, ops, q.factor, q.units) == got + Got(q.values, ops[i..], q.factor, q.units)
      invariant Final(v0, ops, q.factor, q.units) == Final(q.values, ops[i..], q.factor, q.units)
      decreases |ops| - i
    {
      assert ops[i..][0] == ops[i] && ops[i..][1..] == ops[i + 1..];
      q.FullIff();
      if ops[i].Put? {
        q.IoQueuePut(ops[i].data);
      } else {
        ghost var rest := Got(q.values[1..], ops[i + 1..], q.factor, q.units);
        var data := q.IoQueueGet();
        Associates(got, [data], rest);
        got := got + [data];
      }
      i := i + 1;
    }
    q.FullIff();
    if v0 == [] {
      assert v0 + Puts(ops, q.factor) == Puts(ops, q.factor);
    }
  }
}
