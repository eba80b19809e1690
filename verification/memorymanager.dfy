/** The operations of src/mm/vmspace.c on a process's list of mappings, each equal to its
    description in module VMSpaces. A pointer to a mapping is its index, NULL is -1. */
module MemoryManagers {
  import opened Basics
  import opened VMSpaces

  class MemoryManager {
    var spaceMap: seq<VMSpace>
    var brkStart: word
    var brk: word

    ghost function State(): (mm: MM)
      reads this
    {
      MM(spaceMap, brkStart, brk)
    }

    constructor (brkStart: word)
      ensures State() == MM([], brkStart, brkStart)
    {
      spaceMap := [];
      this.brkStart, brk := brkStart, brkStart;
    }

    /** The first mapping that ends above addr. */
    method FindVMSpace(addr: int) returns (space: int)
      ensures space == var k := Find(spaceMap, addr, 0); if k < |spaceMap| then k else -1
    {
      var i := 0;
      while i < |spaceMap|
        invariant 0 <= i <= |spaceMap| && Find(spaceMap, addr, 0) == Find(spaceMap, addr, i)
      {
        if addr < spaceMap[i].end {
          return i;
        }
        i := i + 1;
      }
      return -1;
    }

    /** FindVMSpace that also hands back the mapping before, if saved; else its caller's prev
        stays null. */
    method FindVMSpacePrev(addr: int, saved: bool) returns (space: int, prev: int)
      ensures space == var k := Find(spaceMap, addr, 0); if k < |spaceMap| then k else -1
      ensures space >= 0 ==> prev == if saved then space - 1 else -1
    {
      var i, before := 0, -1;
      while i < |spaceMap|
        invariant 0 <= i <= |spaceMap| && before == i - 1
        invariant Find(spaceMap, addr, 0) == Find(spaceMap, addr, i)
      {
        if addr < spaceMap[i].end {
          return i, if saved then before else -1;
        }
        before := i;
        i := i + 1;
      }
      return -1, if saved then before else -1;
    }

    method FindVMSpaceIntersection(startAddr: int, endAddr: int) returns (space: int)
      ensures space >= -1 && (space >= 0 <==> Intersects(spaceMap, startAddr, endAddr))
    {
      space := FindVMSpace(startAddr);
      if space != -1 && spaceMap[space].start >= endAddr {
        space := -1;
      }
    }

    method GetUnmappedVMSpace(len: int) returns (addr: int)
      ensures addr == Unmapped(spaceMap, len)
    {
      addr := UNMAPPED_BASE;
      var space := FindVMSpace(addr);
      if space == -1 {
        return;
      }
      while space < |spaceMap|
        invariant 0 <= space <= |spaceMap| && Unmapped(spaceMap, len) == FitFrom(spaceMap, space, addr, len)
      {
        if USER_VM_SIZE - len < addr {
          return -1;
        }
        if addr + len <= spaceMap[space].start {
          return addr;
        }
        addr := spaceMap[space].end;
        space := space + 1;
      }
    }

    method InsertVMSpace(space: VMSpace)
      modifies this`spaceMap
      ensures spaceMap == Inserted(old(spaceMap), space)
    {
      var p := 0;
      while p < |spaceMap| && spaceMap[p].start < space.end
        invariant 0 <= p <= |spaceMap| && InsertIndex(spaceMap, space, 0) == InsertIndex(spaceMap, space, p)
      {
        p := p + 1;
      }
      spaceMap := spaceMap[..p] + [space] + spaceMap[p..];
    }

    /** Links what comes after space to prev, or to the head when prev is null. */
    method RemoveVMSpace(space: nat, prev: int)
      requires space < |spaceMap| && -1 <= prev < space
      modifies this`spaceMap
      ensures spaceMap == old(spaceMap)[..prev + 1] + old(spaceMap)[space + 1..]
    {
      if prev != -1 {
        spaceMap := spaceMap[..prev + 1] + spaceMap[space + 1..];
      } else {
        spaceMap := spaceMap[space + 1..];
      }
    }

    method DoMmap(addr0: word, length: word, prot: nat, flags: nat, alloc: bool) returns (ret: int)
      modifies this`spaceMap
      ensures Result(spaceMap, ret) == Mmap(old(spaceMap), addr0, length, prot, flags, alloc)
    {
      hide Unmapped, Inserted, Find;
      var len, addr: int := PageAlign(length), addr0;
      if len == 0 {
        return -1;
      }
      if len > USER_VM_SIZE || addr > USER_VM_SIZE || addr > USER_VM_SIZE - len {
        return -1;
      }
      if MapFixed(flags) {
        if addr % PAGE_SIZE != 0 {
          return -1;
        }
        var p := FindVMSpace(addr);
        if p != -1 && addr + len > spaceMap[p].start {
          return -1;
        }
      } else {
        addr := GetUnmappedVMSpace(len);
        if addr == -1 {
          return -1;
        }
      }
      if !alloc {
        return -1;
      }
      InsertVMSpace(VMSpace(addr, addr + len, prot, flags));
      return addr;
    }

    /** The relinking at the end of DoMunmap: mapping k is split around the range and empty
        halves are removed. */
    method CutSpace(k: nat, prev: int, addr: int, end: int)
      requires k < |spaceMap| && (prev == -1 || prev == k - 1)
      requires spaceMap[k].start <= addr < end <= spaceMap[k].end
      modifies this`spaceMap
      ensures var s := old(spaceMap);
        spaceMap == (if prev == k - 1 || s[k].start < addr then s[..k] else []) + Cut(s[k], addr, end) + s[k + 1..]
    {
      ghost var s := spaceMap;
      ghost var left, right := [s[k].(end := addr)], [s[k].(start := end)];
      var space, spaceNew := k, k + 1;
      spaceMap := spaceMap[..k] + [spaceMap[k].(end := addr), spaceMap[k].(start := end)] + spaceMap[k + 1..];
      assert spaceMap[k + 1..] == right + s[k + 1..] && spaceMap[..k] == s[..k] && spaceMap[k + 2..] == s[k + 1..];
      assert spaceMap[..k + 1] == s[..k] + left;
      if spaceMap[space].start == spaceMap[space].end {
        RemoveVMSpace(space, prev);
        space := prev;
        spaceNew := prev + 1;
        ghost var before := if prev == k - 1 then s[..k] else [];
        assert spaceMap == before + (right + s[k + 1..]);
        assert spaceMap[spaceNew] == right[0] && spaceMap[..spaceNew] == before && spaceMap[spaceNew + 1..] == s[k + 1..];
      }
      if spaceMap[spaceNew].start == spaceMap[spaceNew].end {
        RemoveVMSpace(spaceNew, space);
      }
    }

    method DoMunmap(addr: word, length: word, alloc: bool, saved: bool) returns (ret: int)
      modifies this`spaceMap
      ensures Result(spaceMap, ret) == Munmap(old(spaceMap), addr, length, alloc, saved)
    {
      hide Find;
      if addr % PAGE_SIZE != 0 || addr > USER_VM_SIZE || length > USER_VM_SIZE - addr {
        return -1;
      }
      var len: int := PageAlign(length);
      if len == 0 {
        return -1;
      }
      var space, prev := FindVMSpacePrev(addr, saved);
      if space == -1 {
        return -1;
      }
      if addr < spaceMap[space].start || addr + len > spaceMap[space].end {
        return -2;
      }
      if !alloc {
        return -1;
      }
      CutSpace(space, prev, addr, addr + len);
      return 0;
    }

    method DoBrk(addr: word, length: word, alloc: Alloc, saved: bool) returns (ret: int)
      modifies this`spaceMap
      ensures Result(spaceMap, ret) == Grown(old(spaceMap), addr, length, alloc, saved)
    {
      hide Find, Munmap, Inserted;
      var len: word := PageAlign(length);
      if len == 0 {
        return addr;
      }
      ret := DoMunmap(addr, len, alloc.half, saved);
      if ret == -1 {
        return;
      }
      if addr != 0 {
        var space := FindVMSpace(addr - 1);
        if space != -1 && spaceMap[space].end == addr && spaceMap[space].flags == VMS_HEAP {
          spaceMap := spaceMap[space := spaceMap[space].(end := addr + len)];
          return addr;
        }
      }
      if !alloc.space {
        return -1;
      }
      InsertVMSpace(VMSpace(addr, addr + len, PROT_RWX, VMS_HEAP));
      return addr;
    }

    method SysBrk(newBreak: word, alloc: Alloc, saved: bool) returns (ret: word)
      requires BreakOk(State())
      modifies this`spaceMap, this`brk
      ensures State() == Brk(old(State()), newBreak, alloc, saved) && ret == brk
    {
      hide Munmap, Grown, Intersects, PageAlign;
      if newBreak < brkStart {
        return brk;
      }
      var newBrk, oldBrk := PageAlign(newBreak), PageAlign(brk);
      if newBrk == oldBrk {
        brk := newBreak;
        return brk;
      }
      if newBreak <= brk {
        AlignMonotone(newBreak, brk);
        var r := DoMunmap(newBrk, oldBrk - newBrk, alloc.half, saved);
        if r == 0 {
          brk := newBreak;
        }
        return brk;
      }
      if newBreak > brkStart + MAX_VMS_HEAP_SIZE {
        return brk;
      }
      AlignMonotone(brk, newBreak);
      var p := FindVMSpaceIntersection(oldBrk, newBrk + PAGE_SIZE);
      if p != -1 {
        return brk;
      }
      var r := DoBrk(oldBrk, newBrk - oldBrk, alloc, saved);
      if r == oldBrk {
        brk := newBreak;
      }
      return brk;
    }
  }
}
