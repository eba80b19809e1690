/** Runs of mmap, munmap and brk (src/mm/vmspace.c:227-616). */
module VMRuns {
  import opened Basics
  import opened VMSpaces

  datatype Op =
    | OpMmap(addr: word, length: word, prot: nat, flags: nat, alloc: bool)
    | OpMunmap(addr: word, length: word, alloc: bool)
    | OpBrk(brk: word, allocs: Alloc)

  /** One call. With saved, munmap knows the previous mapping, as documented; without, it does
      not, as in the code. */
  function Step(mm: MM, op: Op, saved: bool): MM {
    match op
    case OpMmap(addr, length, prot, flags, alloc) => mm.(spaces := Mmap(mm.spaces, addr, length, prot, flags, alloc).spaces)
    case OpMunmap(addr, length, alloc) => mm.(spaces := Munmap(mm.spaces, addr, length, alloc, saved).spaces)
    case OpBrk(brk, allocs) => Brk(mm, brk, allocs, saved)
  }

  function Run(mm: MM, ops: seq<Op>, saved: bool): MM
    decreases |ops|
  {
    if |ops| == 0 then mm else Run(Step(mm, ops[0], saved), ops[1..], saved)
  }

  // ---------- the list ----------

  /** The arguments that mmap accepts. */
  predicate Acceptable(op: Op)
    requires op.OpMmap?
  {
    var len := PageAlign(op.length); 0 < len <= USER_VM_SIZE && op.addr <= USER_VM_SIZE - len
  }

  /** mmap is refused for its arguments, is fixed, finds no memory, or does not overrun the end
      of user space. */
  ghost predicate Inside(mm: MM, op: Op) {
    op.OpMmap? ==>
      !Acceptable(op) || MapFixed(op.flags) || !op.alloc || !Overruns(mm.spaces, PageAlign(op.length))
  }

  lemma MmapKeepsListIff(mm: MM, op: Op, saved: bool)
    requires ListOk(mm) && op.OpMmap?
    ensures ListOk(Step(mm, op, saved)) <==> Inside(mm, op)
  {
    hide Inserted, Unmapped, Overruns, Valid, PageAlign;
    var len := PageAlign(op.length);
    MmapMaps(mm.spaces, op.addr, op.length, op.prot, op.flags, op.alloc);
    if 0 < len <= USER_VM_SIZE {
      UnmappedOverrunsIff(mm.spaces, len);
    }
  }

  /** Of all calls, only an mmap that overruns user space breaks the list, in the code as it
      stands as in the code as documented. */
  lemma StepKeepsListIff(mm: MM, op: Op, saved: bool)
    requires ListOk(mm)
    ensures ListOk(Step(mm, op, saved)) <==> Inside(mm, op)
    ensures Step(mm, op, saved).brkStart == mm.brkStart
  {
    hide Valid, Mmap, Munmap, Brk, PageAlign, Overruns;
    match op
    case OpMmap(_, _, _, _, _) => MmapKeepsListIff(mm, op, saved);
    case OpMunmap(addr, length, alloc) => MunmapKeepsList(mm.spaces, addr, length, alloc, saved);
    case OpBrk(brk, allocs) => BrkKeepsList(mm, brk, allocs, saved);
  }

  ghost predicate AllInside(mm: MM, ops: seq<Op>, saved: bool)
    decreases |ops|
  {
    |ops| > 0 ==> Inside(mm, ops[0]) && AllInside(Step(mm, ops[0], saved), ops[1..], saved)
  }

  /** Every state of the run has its list in order. */
  ghost predicate AllListOk(mm: MM, ops: seq<Op>, saved: bool)
    decreases |ops|
  {
    ListOk(mm) && (|ops| > 0 ==> AllListOk(Step(mm, ops[0], saved), ops[1..], saved))
  }

  /** Over any run of mmap, munmap and brk the list stays sorted, page-aligned and disjoint if
      and only if no mmap overruns user space. */
  lemma {:induction false} RunKeepsListIff(mm: MM, ops: seq<Op>, saved: bool)
    requires ListOk(mm)
    ensures AllListOk(mm, ops, saved) <==> AllInside(mm, ops, saved)
    ensures AllListOk(mm, ops, saved) ==> ListOk(Run(mm, ops, saved))
    decreases |ops|
  {
    hide ListOk, Step, Inside;
    if |ops| > 0 {
      StepKeepsListIff(mm, ops[0], saved);
      if Inside(mm, ops[0]) {
        RunKeepsListIff(Step(mm, ops[0], saved), ops[1..], saved);
      }
    }
  }

  // ---------- the heap ----------

  /** No mapping asks for the flags of the heap. */
  predicate NoHeapFlags(ops: seq<Op>) {
    forall i :: 0 <= i < |ops| && ops[i].OpMmap? ==> ops[i].flags != VMS_HEAP
  }

  lemma MmapKeepsInside(mm: MM, op: Op, saved: bool)
    requires ListOk(mm) && HeapInside(mm) && op.OpMmap? && Inside(mm, op) && op.flags != VMS_HEAP
    ensures HeapInside(Step(mm, op, saved))
  {
    hide Mapped, Inserted, Unmapped, PageAlign, Overruns, Mmap, Misses;
    MmapKeepsListIff(mm, op, saved);
    MmapMaps(mm.spaces, op.addr, op.length, op.prot, op.flags, op.alloc);
    OverrunBreaks(mm, op, saved);
  }

  lemma OverrunBreaks(mm: MM, op: Op, saved: bool)
    requires ListOk(mm) && op.OpMmap? && ListOk(Step(mm, op, saved))
    ensures var r := Mmap(mm.spaces, op.addr, op.length, op.prot, op.flags, op.alloc);
      r.ret == -1 || r.ret <= USER_VM_SIZE - PageAlign(op.length)
  {
    hide Mmap, Misses;
    MmapMaps(mm.spaces, op.addr, op.length, op.prot, op.flags, op.alloc);
  }

  lemma StepKeepsInside(mm: MM, op: Op, saved: bool)
    requires ListOk(mm) && HeapInside(mm) && Inside(mm, op) && (op.OpMmap? ==> op.flags != VMS_HEAP)
    ensures HeapInside(Step(mm, op, saved))
  {
    hide Mapped, Mmap, Munmap, Brk, PageAlign, Inside, Valid, BrkStep;
    match op
    case OpMmap(_, _, _, _, _) => MmapKeepsInside(mm, op, saved);
    case OpMunmap(addr, length, alloc) => MunmapKeepsList(mm.spaces, addr, length, alloc, saved);
    case OpBrk(brk, allocs) =>
      BrkKeepsList(mm, brk, allocs, saved);
      BrkKeepsInside(mm, Brk(mm, brk, allocs, saved));
  }

  /** Over any run without a mapping that asks for the heap's flags, whatever is unmapped,
      nothing outside [brkStart, PageAlign(brk)) is mapped for the heap. */
  lemma {:induction false} RunKeepsInside(mm: MM, ops: seq<Op>, saved: bool)
    requires ListOk(mm) && HeapInside(mm) && AllInside(mm, ops, saved) && NoHeapFlags(ops)
    ensures HeapInside(Run(mm, ops, saved))
    decreases |ops|
  {
    hide ListOk, Step, Inside, HeapInside;
    if |ops| > 0 {
      StepKeepsListIff(mm, ops[0], saved);
      StepKeepsInside(mm, ops[0], saved);
      RunKeepsInside(Step(mm, ops[0], saved), ops[1..], saved);
    }
  }

  /** An mmap that is not fixed maps a range inside user space exactly if its arguments are
      acceptable, there is memory for the mapping, and a range fits. */
  ghost predicate Maps(mm: MM, op: Op)
    requires op.OpMmap?
  {
    Acceptable(op) && op.alloc && Fits(mm.spaces, PageAlign(op.length))
  }

  lemma MapsIff(mm: MM, op: Op)
    requires ListOk(mm) && op.OpMmap? && !MapFixed(op.flags) && Inside(mm, op)
    ensures Mmap(mm.spaces, op.addr, op.length, op.prot, op.flags, op.alloc).ret != -1 <==> Maps(mm, op)
  {
    hide Fits, Overruns, Unmapped, Inserted, Valid, PageAlign;
    if Acceptable(op) {
      UnmappedStaysInside(mm.spaces, PageAlign(op.length));
      UnmappedOverrunsIff(mm.spaces, PageAlign(op.length));
    }
  }

  /** A fixed mmap maps its range exactly if the address is on a page, the range is acceptable and free,
      and there is memory. */
  lemma MapsFixedIff(mm: MM, op: Op)
    requires ListOk(mm) && op.OpMmap? && MapFixed(op.flags)
    ensures var r := Mmap(mm.spaces, op.addr, op.length, op.prot, op.flags, op.alloc);
      && (r.ret != -1 <==>
        op.addr % PAGE_SIZE == 0 && Acceptable(op) && op.alloc && Misses(mm.spaces, op.addr, PageAlign(op.length)))
      && (r.ret != -1 ==> r.ret == op.addr)
  {
    hide Inserted, Unmapped, PageAlign;
    FixedMisses(mm.spaces, op.addr, PageAlign(op.length));
  }

  /** An munmap succeeds exactly if its arguments are acceptable, one mapping holds the whole
      range, and there is memory for a second half. */
  ghost predicate Unmaps(mm: MM, op: Op)
    requires op.OpMunmap?
  {
    var end: int := op.addr + PageAlign(op.length);
    && op.addr % PAGE_SIZE == 0 && op.addr <= USER_VM_SIZE && op.length <= USER_VM_SIZE - op.addr
    && op.addr < end && op.alloc && exists s :: s in mm.spaces && s.start <= op.addr && end <= s.end
  }

  lemma UnmapsIff(mm: MM, op: Op, saved: bool)
    requires ListOk(mm) && op.OpMunmap?
    ensures Munmap(mm.spaces, op.addr, op.length, op.alloc, saved).ret == 0 <==> Unmaps(mm, op)
  {
    hide Cut, Valid, PageAlign;
    var end: int := op.addr + PageAlign(op.length);
    if op.addr < end {
      if s :| s in mm.spaces && s.start <= op.addr && end <= s.end {
        var k := FindSpace(mm.spaces, s, op.addr);
      }
    }
  }

  /** The range of an munmap has no address of the heap. */
  predicate OffHeap(mm: MM, op: Op)
    requires op.OpMunmap?
  {
    mm.brkStart < PageAlign(mm.brk) ==>
      op.addr + PageAlign(op.length) <= mm.brkStart || PageAlign(mm.brk) <= op.addr
  }

  /** There is a heap, and the range is the beginning of a mapping above it. */
  ghost predicate BeginsAbove(mm: MM, op: Op)
    requires op.OpMunmap?
  {
    mm.brkStart < PageAlign(mm.brk) <= op.addr && exists s :: s in mm.spaces && s.start == op.addr
  }

  /** The call leaves the heap what it is: no mmap maps with its flags, no munmap takes some of it,
      nor, in the code as it stands, loses it with all mappings below its range. */
  ghost predicate HeapSafe(mm: MM, op: Op, saved: bool) {
    match op
    case OpMmap(_, _, _, flags, _) => Inside(mm, op) && !(flags == VMS_HEAP && Maps(mm, op))
    case OpMunmap(_, _, _) => Unmaps(mm, op) ==> OffHeap(mm, op) && (saved || !BeginsAbove(mm, op))
    case OpBrk(_, _) => true
  }

  lemma InsertedKeeps(spaces: seq<VMSpace>, s: VMSpace)
    ensures forall h :: h in spaces ==> h in Inserted(spaces, s)
  {
    var k := InsertIndex(spaces, s, 0);
    assert spaces == spaces[..k] + spaces[k..];
  }

  lemma MmapKeepsHeap(mm: MM, op: Op, saved: bool)
    requires HeapOk(mm) && op.OpMmap? && Inside(mm, op)
    ensures HeapOk(Step(mm, op, saved))
  {
    hide Inserted, Unmapped, Overruns, Valid, PageAlign;
    MmapKeepsListIff(mm, op, saved);
    var r := Mmap(mm.spaces, op.addr, op.length, op.prot, op.flags, op.alloc);
    if r.ret != -1 {
      InsertedKeeps(mm.spaces, VMSpace(r.ret, r.ret + PageAlign(op.length), op.prot, op.flags));
    }
  }

  lemma MissesNotMapped(spaces: seq<VMSpace>, addr: int, len: int, x: int, p: nat, f: nat)
    requires Misses(spaces, addr, len) && addr <= x < addr + len
    ensures !Mapped(spaces, x, p, f)
  {
  }

  /** A mapping with the heap's flags is one too many. */
  lemma HeapFlagsSpoil(mm: MM, op: Op, saved: bool)
    requires HeapExact(mm) && op.OpMmap? && Inside(mm, op) && op.flags == VMS_HEAP && Maps(mm, op)
    ensures !HeapExact(Step(mm, op, saved))
  {
    hide Mapped, Inserted, Unmapped, PageAlign, Overruns, Mmap, HeapOk, Valid, Maps, Inside;
    var r := Mmap(mm.spaces, op.addr, op.length, op.prot, op.flags, op.alloc);
    assert ListOk(mm) by { HeapIsList(mm); }
    MapsIff(mm, op);
    MmapKeepsListIff(mm, op, saved);
    MmapMaps(mm.spaces, op.addr, op.length, op.prot, op.flags, op.alloc);
    OverrunBreaks(mm, op, saved);
    assert Covers(VMSpace(r.ret, r.ret + PageAlign(op.length), op.prot, op.flags), r.ret, op.prot, VMS_HEAP);
    assert Mapped(Step(mm, op, saved).spaces, r.ret, op.prot, VMS_HEAP);
    if mm.brkStart <= r.ret < PageAlign(mm.brk) {
      HeapExactMeans(mm, r.ret);
      var p: nat :| Mapped(mm.spaces, r.ret, p, VMS_HEAP);
      MissesNotMapped(mm.spaces, r.ret, PageAlign(op.length), r.ret, p, VMS_HEAP);
      assert false;
    }
  }

  lemma HeapIsList(mm: MM)
    requires HeapOk(mm)
    ensures ListOk(mm)
  {
  }

  lemma MmapHeapIff(mm: MM, op: Op, saved: bool)
    requires HeapExact(mm) && op.OpMmap?
    ensures HeapExact(Step(mm, op, saved)) <==> HeapSafe(mm, op, saved)
  {
    hide HeapInside, HeapIn, Valid, Mmap, Maps, PageAlign, Inside;
    MmapKeepsListIff(mm, op, saved);
    if Inside(mm, op) {
      if op.flags != VMS_HEAP {
        MmapKeepsHeap(mm, op, saved);
        MmapKeepsInside(mm, op, saved);
      } else if Maps(mm, op) {
        HeapFlagsSpoil(mm, op, saved);
      } else {
        MapsIff(mm, op);
        assert Step(mm, op, saved) == mm by { RefusedChangesNothing(mm, op); }
      }
    }
  }

  lemma RefusedChangesNothing(mm: MM, op: Op)
    requires op.OpMmap? && Mmap(mm.spaces, op.addr, op.length, op.prot, op.flags, op.alloc).ret == -1
    ensures Mmap(mm.spaces, op.addr, op.length, op.prot, op.flags, op.alloc).spaces == mm.spaces
  {
    hide Unmapped, Inserted, Find;
  }

  /** A mapping whose end is above the range, or which is another one, keeps its end. */
  lemma CutKeeps(spaces: seq<VMSpace>, k: nat, i: nat, addr: int, end: int)
    requires Valid(spaces) && k < |spaces| && i < |spaces| && spaces[k].start <= addr < end <= spaces[k].end
    ensures var rest := Cut(spaces[k], addr, end) + spaces[k + 1..];
      var r := spaces[..k] + Cut(spaces[k], addr, end) + spaces[k + 1..];
      && r == spaces[..k] + rest
      && (i > k ==> spaces[i] in rest && spaces[i] in r)
      && (i < k ==> spaces[i] in r)
      && (i == k && end < spaces[k].end ==> spaces[k].(start := end) in rest && spaces[k].(start := end) in r)
  {
    var c := Cut(spaces[k], addr, end);
    var rest := c + spaces[k + 1..];
    var r := spaces[..k] + c + spaces[k + 1..];
    if i < k {
      assert r[i] == spaces[i];
    } else if i == k && end < spaces[k].end {
      assert rest[|c| - 1] == r[k + |c| - 1] == c[|c| - 1] == spaces[k].(start := end);
    } else if i > k {
      assert r[i - 1 + |c|] == rest[i - 1 - k + |c|] == spaces[i];
    }
  }

  lemma MunmapKeepsHeap(mm: MM, op: Op, saved: bool)
    requires HeapExact(mm) && op.OpMunmap? && Unmaps(mm, op) && OffHeap(mm, op) && (saved || !BeginsAbove(mm, op))
    ensures HeapOk(Step(mm, op, saved))
  {
    hide PageAlign, Cut, HeapInside, Valid;
    var r := Munmap(mm.spaces, op.addr, op.length, op.alloc, saved);
    UnmapsIff(mm, op, saved);
    MunmapKeepsList(mm.spaces, op.addr, op.length, op.alloc, saved);
    var end := PageAlign(mm.brk);
    if end > mm.brkStart {
      var h :| h in mm.spaces && h.start <= mm.brkStart && h.end == end && h.flags == VMS_HEAP;
      HeapBegins(mm, h);
      var i :| 0 <= i < |mm.spaces| && mm.spaces[i] == h;
      var k := Find(mm.spaces, op.addr, 0);
      CutKeeps(mm.spaces, k, i, op.addr, op.addr + PageAlign(op.length));
      if !saved && mm.spaces[k].start == op.addr {
        assert mm.spaces[k] in mm.spaces;
        AboveRange(mm.spaces, k, i);
      }
    }
  }

  /** The mapping of an exact heap begins at brkStart. */
  lemma HeapBegins(mm: MM, h: VMSpace)
    requires HeapInside(mm) && h in mm.spaces && h.start <= mm.brkStart < h.end && h.flags == VMS_HEAP
    ensures h.start == mm.brkStart
  {
    var i :| 0 <= i < |mm.spaces| && mm.spaces[i] == h;
    assert Covers(mm.spaces[i], h.start, h.pageProt, VMS_HEAP);
    assert Mapped(mm.spaces, h.start, h.pageProt, VMS_HEAP);
  }

  lemma AboveRange(spaces: seq<VMSpace>, k: nat, i: nat)
    requires Valid(spaces) && k < |spaces| && i < |spaces| && spaces[k].start < spaces[i].start
    ensures i > k
  {
    assert Proper(spaces[k]) && Proper(spaces[i]);
  }

  /** After a successful munmap nothing of its range is mapped, nor, in the code as it stands,
      anything below a mapping that it begins. */
  lemma UnmapsAll(mm: MM, op: Op, saved: bool, x: int, p: nat, f: nat)
    requires ListOk(mm) && op.OpMunmap? && Unmaps(mm, op)
    requires op.addr <= x < op.addr + PageAlign(op.length)
      || (!saved && x < op.addr && exists s :: s in mm.spaces && s.start == op.addr)
    ensures !Mapped(Step(mm, op, saved).spaces, x, p, f)
  {
    hide PageAlign, Cut;
    var end: int := op.addr + PageAlign(op.length);
    UnmapsIff(mm, op, saved);
    MunmapKeepsList(mm.spaces, op.addr, op.length, op.alloc, saved);
    if x < op.addr {
      var s :| s in mm.spaces && s.start == op.addr;
      var i :| 0 <= i < |mm.spaces| && mm.spaces[i] == s;
      assert Proper(mm.spaces[i]);
      var k := FindSpace(mm.spaces, s, op.addr);
      NothingBelow(mm.spaces, k, op.addr, end, x, p, f);
    }
  }

  lemma MunmapSpoils(mm: MM, op: Op, saved: bool)
    requires HeapExact(mm) && op.OpMunmap? && !HeapSafe(mm, op, saved)
    ensures !HeapExact(Step(mm, op, saved))
  {
    hide Mapped, Munmap, PageAlign, HeapOk, HeapInside, Valid;
    var t := Step(mm, op, saved);
    assert ListOk(mm) by { HeapIsList(mm); }
    var x := if op.addr < mm.brkStart || OffHeap(mm, op) then mm.brkStart else op.addr;
    assert mm.brkStart <= x < PageAlign(t.brk);
    forall p: nat ensures !Mapped(t.spaces, x, p, VMS_HEAP) {
      UnmapsAll(mm, op, saved, x, p, VMS_HEAP);
    }
    if HeapExact(t) {
      HeapExactMeans(t, x);
      assert false;
    }
  }

  lemma MunmapHeapIff(mm: MM, op: Op, saved: bool)
    requires HeapExact(mm) && op.OpMunmap?
    ensures HeapExact(Step(mm, op, saved)) <==> HeapSafe(mm, op, saved)
  {
    hide Munmap, HeapInside, HeapIn, Valid, PageAlign, OffHeap, BeginsAbove, Unmaps;
    UnmapsIff(mm, op, saved);
    MunmapKeepsList(mm.spaces, op.addr, op.length, op.alloc, saved);
    if !Unmaps(mm, op) {
      assert Step(mm, op, saved) == mm;
    } else if HeapSafe(mm, op, saved) {
      MunmapKeepsHeap(mm, op, saved);
      StepKeepsInside(mm, op, saved);
    } else {
      MunmapSpoils(mm, op, saved);
    }
  }

  /** Of all calls exactly the unsafe ones end that the heap is [brkStart, PageAlign(brk)). */
  lemma StepKeepsHeapIff(mm: MM, op: Op, saved: bool)
    requires HeapExact(mm)
    ensures HeapExact(Step(mm, op, saved)) <==> HeapSafe(mm, op, saved)
    ensures Step(mm, op, saved).brkStart == mm.brkStart
  {
    hide HeapExact, Mmap, Munmap, Brk;
    match op
    case OpMmap(_, _, _, _, _) => MmapHeapIff(mm, op, saved);
    case OpMunmap(_, _, _) => MunmapHeapIff(mm, op, saved);
    case OpBrk(brk, allocs) => BrkKeepsExact(mm, brk, allocs, saved);
  }

  ghost predicate AllHeapSafe(mm: MM, ops: seq<Op>, saved: bool)
    decreases |ops|
  {
    |ops| > 0 ==> HeapSafe(mm, ops[0], saved) && AllHeapSafe(Step(mm, ops[0], saved), ops[1..], saved)
  }

  /** In every state of the run the heap is exactly [brkStart, PageAlign(brk)). */
  ghost predicate AllHeapExact(mm: MM, ops: seq<Op>, saved: bool)
    decreases |ops|
  {
    HeapExact(mm) && (|ops| > 0 ==> AllHeapExact(Step(mm, ops[0], saved), ops[1..], saved))
  }

  /** Over any run the heap is exactly [brkStart, PageAlign(brk)) all the time if and only if
      every call is safe. */
  lemma {:induction false} RunKeepsHeapIff(mm: MM, ops: seq<Op>, saved: bool)
    requires HeapExact(mm)
    ensures AllHeapExact(mm, ops, saved) <==> AllHeapSafe(mm, ops, saved)
    ensures AllHeapExact(mm, ops, saved) ==> HeapExact(Run(mm, ops, saved))
    decreases |ops|
  {
    hide HeapExact, Step, HeapSafe;
    if |ops| > 0 {
      StepKeepsHeapIff(mm, ops[0], saved);
      if HeapSafe(mm, ops[0], saved) {
        RunKeepsHeapIff(Step(mm, ops[0], saved), ops[1..], saved);
      }
    }
  }

  /** In the code as it stands an munmap far above loses a heap that the documented one keeps. */
  lemma MunmapLosesHeap()
    ensures var mm := MM([VMSpace(8192, 12288, 3, VMS_HEAP), VMSpace(16384, 20480, 3, 0)], 8192, 12288);
      var op := OpMunmap(16384, 4096, true);
      && HeapExact(mm) && HeapSafe(mm, op, true) && HeapExact(Step(mm, op, true))
      && !HeapSafe(mm, op, false) && !HeapExact(Step(mm, op, false))
  {
    var h, s := VMSpace(8192, 12288, 3, VMS_HEAP), VMSpace(16384, 20480, 3, 0);
    var mm, op := MM([h, s], 8192, 12288), OpMunmap(16384, 4096, true);
    assert Valid(mm.spaces) && mm.spaces[0] == h && mm.spaces[1] == s;
    assert h in mm.spaces && s in mm.spaces;
    assert HeapExact(mm);
    StepKeepsHeapIff(mm, op, true);
    StepKeepsHeapIff(mm, op, false);
  }
}
