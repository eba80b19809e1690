/** Runs of kmalloc, kfree and kmshrink (src/mm/memcache.c:402-637): what is live is what the
    callers hold. */
module SlabRuns {
  import opened Basics
  import opened Slabs

  /** A call. What the page allocator would give for a new group comes with kmalloc. */
  datatype Op = Malloc(size: nat, page: nat, objectPages: nat) | Free(obj: nat) | Shrink

  /** What a call needs. */
  ghost predicate Ready(s: Slab, op: Op) {
    && Valid(s)
    && (op.Malloc? && op.size <= MAX_MEM_CACHE_SIZE ==> Offered(s, SizeClass(op.size, 0), op.page, op.objectPages))
    && (op.Free? && op.obj > 0 ==> exists n :: Live(s, op.obj, n))
  }

  /** No group of the class has a free object, and there is a page for a new group but none for its
      objects. */
  ghost predicate Refused(s: Slab, op: Op) {
    && op.Malloc? && op.size <= MAX_MEM_CACHE_SIZE
    && var c := SizeClass(op.size, 0);
      !HasRoom(s, c) && op.page > 0 && op.objectPages == 0 && CacheSize(c) >= 1024
  }

  /** kmalloc is asked for too much, or no group of the class has a free object and there is no page
      at all. */
  ghost predicate Denied(s: Slab, op: Op) {
    op.Malloc? && (op.size > MAX_MEM_CACHE_SIZE || (!HasRoom(s, SizeClass(op.size, 0)) && op.page == 0))
  }

  /** What it does, returning ret. */
  ghost predicate Served(s: Slab, op: Op, t: Slab, ret: nat) {
    match op
    case Malloc(size, page, objectPages) =>
      if Refused(s, op) then
        ret == 0 && |s.caches| == CACHES && t == Dangling(s, SizeClass(size, 0), page) && !Valid(t)
      else if Denied(s, op) then ret == 0 && t == s
      else
        var c := SizeClass(size, 0);
        && Valid(t) && Gained(s, t, ret, CacheSize(c))
        && t.groups.Keys == (if HasRoom(s, c) then s.groups.Keys else s.groups.Keys + {page})
        && (HasPartlyUsed(s, c) ==> FromUsed(s, t, ret, CacheSize(c)))
    case Free(obj) => Valid(t) && if obj == 0 then t == s else Lost(s, t, obj) && Returned(s, t, obj)
    case Shrink =>
      && Valid(t) && SameLive(s, t) && ret == AllIdle(s.caches)
      && (forall a :: a in t.groups <==> a in s.groups && s.groups[a].usingCount > 0)
      && forall a :: a in t.groups ==> t.groups[a] == s.groups[a]
  }

  method Serve(m: MemCaches, op: Op) returns (ret: nat)
    requires Ready(m.State(), op)
    modifies m
    ensures Served(old(m.State()), op, m.State(), ret)
  {
    hide Valid, Offered, Gained, Lost, Returned, SameLive, HasRoom, HasPartlyUsed, FromUsed, Dangling;
    ValidSize(m.State());
    match op
    case Malloc(size, page, objectPages) => ret := m.Kmalloc(size, page, objectPages);
    case Free(obj) =>
      m.Kfree(obj);
      ret := 0;
    case Shrink => ret := m.Kmshrink();
  }

  /** What the callers hold: each object with the size that was asked for. */
  function Held(ops: seq<Op>, rets: seq<nat>): map<nat, nat>
    requires |rets| == |ops|
  {
    if |ops| == 0 then map[]
    else
      var n := |ops| - 1;
      var before := Held(ops[..n], rets[..n]);
      match ops[n]
      case Malloc(size, _, _) => if rets[n] > 0 then before[rets[n] := size] else before
      case Free(obj) => before - {obj}
      case Shrink => before
  }

  /** The callers free what they hold, or nothing. */
  predicate FreesHeld(ops: seq<Op>, rets: seq<nat>)
    requires |rets| == |ops|
  {
    forall i :: 0 <= i < |ops| && ops[i].Free? && ops[i].obj > 0 ==> ops[i].obj in Held(ops[..i], rets[..i])
  }

  /** A run of calls: where a call is ready it is served. */
  ghost predicate Run(states: seq<Slab>, ops: seq<Op>, rets: seq<nat>) {
    && |states| == |ops| + 1 && |rets| == |ops| && states[0] == Start() && FreesHeld(ops, rets)
    && (forall i :: 0 <= i < |ops| && ops[i].Malloc? && ops[i].size <= MAX_MEM_CACHE_SIZE ==>
      Offered(states[i], SizeClass(ops[i].size, 0), ops[i].page, ops[i].objectPages))
    && forall i :: 0 <= i < |ops| && Ready(states[i], ops[i]) ==> Served(states[i], ops[i], states[i + 1], rets[i])
  }

  /** The live objects are exactly those held, each of the class of the size asked for. */
  ghost predicate Tracks(s: Slab, held: map<nat, nat>) {
    && (forall p :: p in held ==> p > 0 && held[p] <= MAX_MEM_CACHE_SIZE)
    && forall p, n :: Live(s, p, n) <==> p in held && n == CacheSize(SizeClass(held[p], 0))
  }

  /** One call keeps them in step. */
  lemma ServedTracks(s: Slab, op: Op, t: Slab, ret: nat, before: map<nat, nat>, after: map<nat, nat>)
    requires Tracks(s, before) && Valid(s) && Served(s, op, t, ret) && !Refused(s, op)
    requires after == match op
      case Malloc(size, _, _) => if ret > 0 then before[ret := size] else before
      case Free(obj) => before - {obj}
      case Shrink => before
    ensures Valid(t) && Tracks(t, after)
  {
    hide Valid, Live, CacheSize;
    if op.Malloc? && ret > 0 {
      forall p, n ensures Live(t, p, n) <==> p in after && n == CacheSize(SizeClass(after[p], 0))
      {
        if p == ret {
          assert !Live(s, p, n);
        }
      }
    }
  }

  lemma StartTracks()
    ensures Valid(Start()) && Tracks(Start(), map[])
  {
    forall p, n ensures !Live(Start(), p, n) {
    }
  }

  /** Over any run the structure stays valid, and the live objects are exactly those held, as
      long as no kmalloc is refused object pages after it got a page for the group. */
  lemma {:induction false} RunTracks(states: seq<Slab>, ops: seq<Op>, rets: seq<nat>)
    requires Run(states, ops, rets)
    requires forall i :: 0 <= i < |ops| ==> !Refused(states[i], ops[i])
    ensures Valid(states[|ops|]) && Tracks(states[|ops|], Held(ops, rets))
    decreases |ops|
  {
    hide Valid, Start, Tracks, Served, Run, Offered;
    Lengths(states, ops, rets);
    if |ops| == 0 {
      StartTracks();
    } else {
      var n := |ops| - 1;
      Prefix(states, ops, rets, n);
      StepOf(states, ops, rets, n);
      RunTracks(states[..n + 1], ops[..n], rets[..n]);
      var s, held := states[n], Held(ops[..n], rets[..n]);
      if ops[n].Free? && ops[n].obj > 0 {
        HeldIsLive(s, held, ops[n].obj);
      }
      assert Ready(s, ops[n]);
      ServedTracks(s, ops[n], states[n + 1], rets[n], held, Held(ops, rets));
    }
  }

  lemma HeldIsLive(s: Slab, held: map<nat, nat>, p: nat)
    requires Tracks(s, held) && p in held
    ensures exists n :: Live(s, p, n)
  {
    assert Live(s, p, CacheSize(SizeClass(held[p], 0)));
  }

  lemma Lengths(states: seq<Slab>, ops: seq<Op>, rets: seq<nat>)
    requires Run(states, ops, rets)
    ensures |states| == |ops| + 1 && |rets| == |ops| && states[0] == Start()
  {
  }

  lemma StepOf(states: seq<Slab>, ops: seq<Op>, rets: seq<nat>, i: nat)
    requires Run(states, ops, rets) && i < |ops|
    ensures i + 1 < |states| && |rets| == |ops|
    ensures ops[i].Free? && ops[i].obj > 0 ==> ops[i].obj in Held(ops[..i], rets[..i])
    ensures ops[i].Malloc? && ops[i].size <= MAX_MEM_CACHE_SIZE ==>
      Offered(states[i], SizeClass(ops[i].size, 0), ops[i].page, ops[i].objectPages)
    ensures Ready(states[i], ops[i]) ==> Served(states[i], ops[i], states[i + 1], rets[i])
  {
    hide Held, Offered, Ready, Served, Start;
  }

  lemma Prefix(states: seq<Slab>, ops: seq<Op>, rets: seq<nat>, n: nat)
    requires Run(states, ops, rets) && n <= |ops|
    ensures Run(states[..n + 1], ops[..n], rets[..n])
  {
    hide Start, Offered, Ready, Served, Held;
    forall i | 0 <= i < n ensures ops[..n][..i] == ops[..i] && rets[..n][..i] == rets[..i] {
    }
    assert FreesHeld(ops[..n], rets[..n]);
  }

  /** No two objects that callers hold overlap, each taken with the size asked for. */
  lemma HeldApart(states: seq<Slab>, ops: seq<Op>, rets: seq<nat>, p: nat, q: nat)
    requires Run(states, ops, rets) && forall i :: 0 <= i < |ops| ==> !Refused(states[i], ops[i])
    requires var held := Held(ops, rets); p in held && q in held && p != q
    ensures var held := Held(ops, rets); p + held[p] <= q || q + held[q] <= p
  {
    hide Valid, Held, Live, CacheSize;
    RunTracks(states, ops, rets);
    var s, held := states[|ops|], Held(ops, rets);
    var n, m := CacheSize(SizeClass(held[p], 0)), CacheSize(SizeClass(held[q], 0));
    assert Live(s, p, n) && Live(s, q, m);
    LiveDisjoint(s, p, n, q, m);
  }

  /** Exactly such a refusal breaks the structure. */
  lemma RunValidIff(states: seq<Slab>, ops: seq<Op>, rets: seq<nat>)
    requires Run(states, ops, rets)
    ensures (forall i :: 0 <= i < |states| ==> Valid(states[i])) <==>
      forall i :: 0 <= i < |ops| ==> !Refused(states[i], ops[i])
  {
    hide Valid, Start, Offered, Held;
    if i :| 0 <= i < |ops| && Refused(states[i], ops[i]) {
      if Valid(states[i]) {
        assert Ready(states[i], ops[i]);
        assert !Valid(states[i + 1]);
      }
    } else {
      forall i | 0 <= i < |states| ensures Valid(states[i]) {
        Prefix(states, ops, rets, i);
        RunTracks(states[..i + 1], ops[..i], rets[..i]);
      }
    }
  }

  /** A kmalloc that follows the kfree of an object of its class does not fail, whatever the page
      allocator has, and needs no new group. */
  lemma FreedIsReused(states: seq<Slab>, ops: seq<Op>, rets: seq<nat>, i: nat)
    requires Run(states, ops, rets) && i + 1 < |ops| && forall j :: 0 <= j < i ==> !Refused(states[j], ops[j])
    requires ops[i].Free? && ops[i].obj > 0 && ops[i + 1].Malloc? && ops[i + 1].size <= MAX_MEM_CACHE_SIZE
    requires var held := Held(ops[..i], rets[..i]);
      && ops[i].obj in held && held[ops[i].obj] <= MAX_MEM_CACHE_SIZE
      && SizeClass(ops[i + 1].size, 0) == SizeClass(held[ops[i].obj], 0)
    ensures rets[i + 1] > 0 && Valid(states[i + 2]) && states[i + 2].groups.Keys == states[i].groups.Keys
  {
    hide Valid, Start, Offered, Held, Lost, Live, HasRoom, Returned, Slot, CacheSize;
    var s, t, p := states[i], states[i + 1], ops[i].obj;
    var held := Held(ops[..i], rets[..i]);
    Prefix(states, ops, rets, i);
    RunTracks(states[..i + 1], ops[..i], rets[..i]);
    HeldIsLive(s, held, p);
    assert Ready(s, ops[i]);
    StepOf(states, ops, rets, i);
    ReturnedHasRoom(s, t, p, SizeClass(held[p], 0));
    StepOf(states, ops, rets, i + 1);
    assert Ready(t, ops[i + 1]);
    assert Served(t, ops[i + 1], states[i + 2], rets[i + 1]);
  }

  lemma ReturnedHasRoom(s: Slab, t: Slab, p: nat, c: nat)
    requires Valid(s) && Returned(s, t, p) && c < CACHES && Live(s, p, CacheSize(c))
    requires forall n :: Live(s, p, n) ==> n == CacheSize(c)
    ensures HasRoom(t, c) && t.groups.Keys == s.groups.Keys
  {
    hide Valid;
    var a, i, n :| Slot(s, a, i, p, n) && ReturnedTo(s, t, a, i);
    assert Live(s, p, n);
    SizesDiffer(s.groups[a].cache, c);
    assert a in t.groups && t.groups[a].cache == c && t.groups[a].freeCount > 0;
  }

  lemma SizesDiffer(c: nat, e: nat)
    requires c < CACHES && e < CACHES && CacheSize(c) == CacheSize(e)
    ensures c == e
  {
  }

  /** The first kmalloc(1024), given the page at 4096 and no object pages, leaves a free list
      with a group that does not exist. */
  method RefusedObjectPages() returns (m: MemCaches, obj: nat)
    ensures obj == 0 && m.State() == Dangling(Start(), 5, PAGE_SIZE) && !Valid(m.State())
    ensures |m.caches| == CACHES && m.caches[5].free == [PAGE_SIZE] && m.groups == map[]
  {
    m := new MemCaches();
    assert SizeClass(1024, 0) == 5;
    obj := m.Kmalloc(1024, PAGE_SIZE, 0);
  }
}
