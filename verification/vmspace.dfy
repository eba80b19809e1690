/** User address spaces as sorted lists of mappings, and what mmap, munmap and brk do to them
    (src/mm/vmspace.c). Addresses and lengths are 32-bit. */
module VMSpaces {
  import opened Basics

  const USER_VM_SIZE: int := 0x8000_0000
  const UNMAPPED_BASE: int := USER_VM_SIZE / 2
  const MAX_VMS_HEAP_SIZE: int := 0x2000_0000
  const VMS_HEAP: nat := 2
  const PROT_RWX: nat := 7

  datatype VMSpace = VMSpace(start: int, end: int, pageProt: nat, flags: nat)

  /** Rounds up to a page in 32 bits: the last page wraps round to 0. */
  function PageAlign(value: word): (r: word)
    ensures r % PAGE_SIZE == 0 && (value <= WORD_LIMIT - PAGE_SIZE ==> value <= r < value + PAGE_SIZE)
    ensures value > WORD_LIMIT - PAGE_SIZE ==> r == 0
  {
    if value % PAGE_SIZE != 0 then (value + PAGE_SIZE) % WORD_LIMIT / PAGE_SIZE * PAGE_SIZE else value
  }

  predicate MapFixed(flags: nat) {
    flags / 16 % 2 == 1
  }

  ghost predicate Proper(s: VMSpace) {
    0 <= s.start < s.end <= USER_VM_SIZE && s.start % PAGE_SIZE == 0 && s.end % PAGE_SIZE == 0
  }

  /** The list is sorted, page-aligned, within user space and without overlaps. */
  ghost predicate Valid(spaces: seq<VMSpace>) {
    && (forall i :: 0 <= i < |spaces| ==> Proper(spaces[i]))
    && (forall i, j :: 0 <= i < j < |spaces| ==> spaces[i].end <= spaces[j].start)
  }

  predicate Covers(s: VMSpace, x: int, prot: nat, flags: nat) {
    s.start <= x < s.end && s.pageProt == prot && s.flags == flags
  }

  /** Address x is mapped, with this protection and these flags. */
  ghost predicate Mapped(spaces: seq<VMSpace>, x: int, prot: nat, flags: nat) {
    exists i :: 0 <= i < |spaces| && Covers(spaces[i], x, prot, flags)
  }

  /** From a to b, exactly the addresses of [lo, hi) went. */
  ghost predicate Removes(a: seq<VMSpace>, b: seq<VMSpace>, lo: int, hi: int) {
    forall x: int, p: nat, f: nat :: Mapped(b, x, p, f) <==> Mapped(a, x, p, f) && !(lo <= x < hi)
  }

  /** From a to b, exactly the addresses of s came. */
  ghost predicate Adds(a: seq<VMSpace>, b: seq<VMSpace>, s: VMSpace) {
    forall x: int, p: nat, f: nat :: Mapped(b, x, p, f) <==> Mapped(a, x, p, f) || Covers(s, x, p, f)
  }

  /** No address of [addr, addr + len) is mapped. */
  ghost predicate Misses(spaces: seq<VMSpace>, addr: int, len: int) {
    forall i :: 0 <= i < |spaces| ==> spaces[i].end <= addr || addr + len <= spaces[i].start
  }

  /** The first mapping from index i on that ends above addr; |spaces| if there is none. */
  function Find(spaces: seq<VMSpace>, addr: int, i: nat): (k: nat)
    requires i <= |spaces|
    ensures i <= k <= |spaces|
    ensures k < |spaces| ==> addr < spaces[k].end
    ensures forall j :: i <= j < k ==> spaces[j].end <= addr
    decreases |spaces| - i
  {
    if i == |spaces| || addr < spaces[i].end then i else Find(spaces, addr, i + 1)
  }

  /** The search of GetUnmappedVMSpace from mapping i and address addr on. */
  function FitFrom(spaces: seq<VMSpace>, i: nat, addr: int, len: int): int
    requires i <= |spaces|
    decreases |spaces| - i
  {
    if i == |spaces| then addr
    else if USER_VM_SIZE - len < addr then -1
    else if addr + len <= spaces[i].start then addr
    else FitFrom(spaces, i + 1, spaces[i].end, len)
  }

  function Unmapped(spaces: seq<VMSpace>, len: int): int {
    FitFrom(spaces, Find(spaces, UNMAPPED_BASE, 0), UNMAPPED_BASE, len)
  }

  lemma {:induction false} FitFromIsFirst(spaces: seq<VMSpace>, i: nat, addr: int, len: int)
    requires Valid(spaces) && 0 < len && UNMAPPED_BASE <= addr <= USER_VM_SIZE && len <= USER_VM_SIZE && i <= |spaces|
    requires forall j :: 0 <= j < i ==> spaces[j].end <= addr
    requires i < |spaces| ==> addr < spaces[i].end
    ensures var r := FitFrom(spaces, i, addr, len);
      && (r != -1 ==> addr <= r <= USER_VM_SIZE && Misses(spaces, r, len))
      && (r != -1 ==> forall a :: addr <= a < r ==> !Misses(spaces, a, len))
      && (r == -1 ==> forall a :: addr <= a <= USER_VM_SIZE - len ==> !Misses(spaces, a, len))
    decreases |spaces| - i
  {
    if i < |spaces| && addr <= USER_VM_SIZE - len && addr + len > spaces[i].start {
      assert Proper(spaces[i]);
      forall a | addr <= a < spaces[i].end ensures !Misses(spaces, a, len) {
        assert spaces[i].start < a + len;
      }
      FitFromIsFirst(spaces, i + 1, spaces[i].end, len);
    }
  }

  /** GetUnmappedVMSpace is first fit: an address is the lowest from the base whose range misses
      every mapping, and -1 means that no range fits in user space. */
  lemma UnmappedIsFirstFit(spaces: seq<VMSpace>, len: int)
    requires Valid(spaces) && 0 < len <= USER_VM_SIZE
    ensures var r := Unmapped(spaces, len);
      && (r != -1 ==> UNMAPPED_BASE <= r <= USER_VM_SIZE && Misses(spaces, r, len))
      && (r != -1 ==> forall a :: UNMAPPED_BASE <= a < r ==> !Misses(spaces, a, len))
      && (r == -1 ==> forall a :: UNMAPPED_BASE <= a <= USER_VM_SIZE - len ==> !Misses(spaces, a, len))
  {
    FitFromIsFirst(spaces, Find(spaces, UNMAPPED_BASE, 0), UNMAPPED_BASE, len);
  }

  /** Some range of this length is free in the part of user space that is searched. */
  ghost predicate Fits(spaces: seq<VMSpace>, len: int) {
    exists a :: UNMAPPED_BASE <= a <= USER_VM_SIZE - len && Misses(spaces, a, len)
  }

  /** Behind the last mapping the search does not look at the end of user space: the result
      stays inside exactly if some range fits. */
  lemma UnmappedStaysInside(spaces: seq<VMSpace>, len: int)
    requires Valid(spaces) && 0 < len <= USER_VM_SIZE
    ensures var r := Unmapped(spaces, len);
      r != -1 && r <= USER_VM_SIZE - len <==> Fits(spaces, len)
  {
    UnmappedIsFirstFit(spaces, len);
  }

  /** No range fits, and the search comes to the end of the list without having stood at an
      address too high: the end of no mapping but the last is. */
  ghost predicate Overruns(spaces: seq<VMSpace>, len: int) {
    var k := Find(spaces, UNMAPPED_BASE, 0);
    && !Fits(spaces, len)
    && (k == |spaces| || (len <= USER_VM_SIZE - UNMAPPED_BASE
      && forall j :: k <= j < |spaces| - 1 ==> spaces[j].end <= USER_VM_SIZE - len))
  }

  lemma {:induction false} FitFromOverruns(spaces: seq<VMSpace>, i: nat, addr: int, len: int)
    requires Valid(spaces) && 0 < len <= USER_VM_SIZE && UNMAPPED_BASE <= addr <= USER_VM_SIZE && i <= |spaces|
    requires forall j :: 0 <= j < i ==> spaces[j].end <= addr
    requires i < |spaces| ==> addr < spaces[i].end
    ensures FitFrom(spaces, i, addr, len) > USER_VM_SIZE - len && FitFrom(spaces, i, addr, len) != -1 <==>
      && (forall a :: addr <= a <= USER_VM_SIZE - len ==> !Misses(spaces, a, len))
      && (i == |spaces| || (addr <= USER_VM_SIZE - len
        && forall j :: i <= j < |spaces| - 1 ==> spaces[j].end <= USER_VM_SIZE - len))
    decreases |spaces| - i
  {
    if addr <= USER_VM_SIZE - len {
      if i == |spaces| {
        assert Misses(spaces, addr, len);
      } else if addr + len <= spaces[i].start {
        assert forall j :: i < j < |spaces| ==> spaces[i].end <= spaces[j].start && Proper(spaces[i]);
        assert Misses(spaces, addr, len);
      } else {
        assert Proper(spaces[i]);
        forall a | addr <= a < spaces[i].end ensures !Misses(spaces, a, len) {
          assert spaces[i].start < a + len;
        }
        FitFromOverruns(spaces, i + 1, spaces[i].end, len);
      }
    }
  }

  /** When the search returns an address whose range is not in user space, told from the list. */
  lemma UnmappedOverrunsIff(spaces: seq<VMSpace>, len: int)
    requires Valid(spaces) && 0 < len <= USER_VM_SIZE
    ensures Unmapped(spaces, len) > USER_VM_SIZE - len && Unmapped(spaces, len) != -1 <==> Overruns(spaces, len)
  {
    hide FitFrom;
    FitFromOverruns(spaces, Find(spaces, UNMAPPED_BASE, 0), UNMAPPED_BASE, len);
    if Fits(spaces, len) {
      var a :| UNMAPPED_BASE <= a <= USER_VM_SIZE - len && Misses(spaces, a, len);
    }
  }

  /** With the upper half of user space mapped but for no page, the search returns its end. */
  lemma UnmappedOverruns()
    ensures Unmapped([VMSpace(UNMAPPED_BASE, USER_VM_SIZE, 0, 0)], PAGE_SIZE) == USER_VM_SIZE
  {
    var spaces := [VMSpace(UNMAPPED_BASE, USER_VM_SIZE, 0, 0)];
    assert Find(spaces, UNMAPPED_BASE, 0) == 0;
    assert FitFrom(spaces, 1, USER_VM_SIZE, PAGE_SIZE) == USER_VM_SIZE;
  }

  /** InsertVMSpace: before the first mapping that starts at or above its end. */
  function InsertIndex(spaces: seq<VMSpace>, s: VMSpace, i: nat): (k: nat)
    requires i <= |spaces|
    ensures i <= k <= |spaces|
    ensures k < |spaces| ==> spaces[k].start >= s.end
    ensures forall j :: i <= j < k ==> spaces[j].start < s.end
    decreases |spaces| - i
  {
    if i == |spaces| || spaces[i].start >= s.end then i else InsertIndex(spaces, s, i + 1)
  }

  function Inserted(spaces: seq<VMSpace>, s: VMSpace): seq<VMSpace> {
    var k := InsertIndex(spaces, s, 0);
    spaces[..k] + [s] + spaces[k..]
  }

  lemma MappedConcat(a: seq<VMSpace>, b: seq<VMSpace>, x: int, p: nat, f: nat)
    ensures Mapped(a + b, x, p, f) <==> Mapped(a, x, p, f) || Mapped(b, x, p, f)
  {
    if Mapped(a, x, p, f) {
      var i :| 0 <= i < |a| && Covers(a[i], x, p, f);
      assert Covers((a + b)[i], x, p, f);
    }
    if Mapped(b, x, p, f) {
      var i :| 0 <= i < |b| && Covers(b[i], x, p, f);
      assert Covers((a + b)[|a| + i], x, p, f);
    }
  }

  lemma MappedOne(s: VMSpace, x: int, p: nat, f: nat)
    ensures Mapped([s], x, p, f) <==> Covers(s, x, p, f)
  {
    assert [s][0] == s;
  }

  lemma InsertedValid(spaces: seq<VMSpace>, s: VMSpace)
    requires Valid(spaces) && Proper(s) && Misses(spaces, s.start, s.end - s.start)
    ensures Valid(Inserted(spaces, s))
  {
    var k, r := InsertIndex(spaces, s, 0), Inserted(spaces, s);
    assert forall i :: 0 <= i < |r| ==> r[i] == if i < k then spaces[i] else if i == k then s else spaces[i - 1];
    forall i | 0 <= i < k ensures spaces[i].end <= s.start {
      assert Proper(spaces[i]);
    }
    forall i | k <= i < |spaces| ensures spaces[i].start >= s.end {
      assert Proper(spaces[k]);
    }
  }

  /** Inserting a mapping where nothing is mapped keeps the list in order and maps exactly its range. */
  lemma InsertedMaps(spaces: seq<VMSpace>, s: VMSpace)
    requires Valid(spaces) && Proper(s) && Misses(spaces, s.start, s.end - s.start)
    ensures Valid(Inserted(spaces, s))
    ensures Adds(spaces, Inserted(spaces, s), s)
  {
    hide Mapped;
    InsertedValid(spaces, s);
    var k := InsertIndex(spaces, s, 0);
    forall x: int, p: nat, f: nat
      ensures Mapped(Inserted(spaces, s), x, p, f) <==> Mapped(spaces, x, p, f) || Covers(s, x, p, f)
    {
      MappedConcat(spaces[..k], [s], x, p, f);
      MappedConcat(spaces[..k] + [s], spaces[k..], x, p, f);
      MappedConcat(spaces[..k], spaces[k..], x, p, f);
      assert spaces == spaces[..k] + spaces[k..];
      MappedOne(s, x, p, f);
    }
  }

  datatype Result = Result(spaces: seq<VMSpace>, ret: int)

  /** DoMmap. The parameter alloc says whether kmalloc finds room for the new mapping. */
  function Mmap(spaces: seq<VMSpace>, addr: word, length: word, prot: nat, flags: nat, alloc: bool): Result {
    var len := PageAlign(length);
    if len == 0 || len > USER_VM_SIZE || addr > USER_VM_SIZE || addr > USER_VM_SIZE - len then Result(spaces, -1)
    else if MapFixed(flags) && addr % PAGE_SIZE != 0 then Result(spaces, -1)
    else
      var p := Find(spaces, addr, 0);
      var at: int := if MapFixed(flags) then addr else Unmapped(spaces, len);
      if at == -1 || (MapFixed(flags) && p < |spaces| && addr + len > spaces[p].start) || !alloc then Result(spaces, -1)
      else Result(Inserted(spaces, VMSpace(at, at + len, prot, flags)), at)
  }

  /** Everything about a successful DoMmap whose range is in user space: the list stays in
      order, the range was free, and exactly that range is mapped now. */
  lemma MmapMaps(spaces: seq<VMSpace>, addr: word, length: word, prot: nat, flags: nat, alloc: bool)
    requires Valid(spaces)
    ensures var r := Mmap(spaces, addr, length, prot, flags, alloc); var len := PageAlign(length);
      && (r.ret == -1 ==> r.spaces == spaces)
      && (r.ret != -1 ==> len > 0 && Misses(spaces, r.ret, len) && (MapFixed(flags) ==> r.ret == addr))
      && (r.ret != -1 && !MapFixed(flags) ==> forall a :: UNMAPPED_BASE <= a < r.ret ==> !Misses(spaces, a, len))
      && (r.ret != -1 && r.ret <= USER_VM_SIZE - len ==> Valid(r.spaces))
      && (r.ret != -1 && r.ret <= USER_VM_SIZE - len ==> Adds(spaces, r.spaces, VMSpace(r.ret, r.ret + len, prot, flags)))
      && (r.ret != -1 && r.ret > USER_VM_SIZE - len ==> !Valid(r.spaces))
  {
    hide Unmapped, Inserted;
    var r, len := Mmap(spaces, addr, length, prot, flags, alloc), PageAlign(length);
    if r.ret != -1 {
      var s := VMSpace(r.ret, r.ret + len, prot, flags);
      UnmappedIsFirstFit(spaces, len);
      UnmappedAligned(spaces, len);
      if MapFixed(flags) {
        FixedMisses(spaces, addr, len);
      }
      if r.ret <= USER_VM_SIZE - len {
        InsertedMaps(spaces, s);
      } else {
        InsertedHas(spaces, s);
      }
    }
  }

  lemma InsertedHas(spaces: seq<VMSpace>, s: VMSpace)
    requires !Proper(s)
    ensures !Valid(Inserted(spaces, s))
  {
    assert !Proper(Inserted(spaces, s)[InsertIndex(spaces, s, 0)]);
  }

  lemma FixedMisses(spaces: seq<VMSpace>, addr: int, len: int)
    requires Valid(spaces)
    ensures var p := Find(spaces, addr, 0); p == |spaces| || addr + len <= spaces[p].start <==> Misses(spaces, addr, len)
  {
    var p := Find(spaces, addr, 0);
    if p < |spaces| {
      assert Proper(spaces[p]);
      assert forall i :: p < i < |spaces| ==> spaces[p].end <= spaces[i].start;
    }
  }

  lemma {:induction false} FitFromAligned(spaces: seq<VMSpace>, i: nat, addr: int, len: int)
    requires Valid(spaces) && i <= |spaces| && addr % PAGE_SIZE == 0
    ensures FitFrom(spaces, i, addr, len) == -1 || FitFrom(spaces, i, addr, len) % PAGE_SIZE == 0
    decreases |spaces| - i
  {
    if i < |spaces| {
      assert Proper(spaces[i]);
      FitFromAligned(spaces, i + 1, spaces[i].end, len);
    }
  }

  lemma UnmappedAligned(spaces: seq<VMSpace>, len: int)
    requires Valid(spaces)
    ensures Unmapped(spaces, len) == -1 || Unmapped(spaces, len) % PAGE_SIZE == 0
  {
    FitFromAligned(spaces, Find(spaces, UNMAPPED_BASE, 0), UNMAPPED_BASE, len);
  }

  /** The mapping that DoMunmap works on is cut into what lies before and after the range. */
  function Cut(s: VMSpace, addr: int, end: int): seq<VMSpace> {
    (if s.start < addr then [s.(end := addr)] else []) + (if end < s.end then [s.(start := end)] else [])
  }

  /** DoMunmap. With saved, FindVMSpacePrev hands back the previous mapping, as its comment
      says; in the code as it stands the pointer is passed by value and stays null. */
  function Munmap(spaces: seq<VMSpace>, addr: word, length: word, alloc: bool, saved: bool): Result {
    if addr % PAGE_SIZE != 0 || addr > USER_VM_SIZE || length > USER_VM_SIZE - addr then Result(spaces, -1)
    else
      var len := PageAlign(length);
      var k := Find(spaces, addr, 0);
      if len == 0 || k == |spaces| then Result(spaces, -1)
      else if addr < spaces[k].start || addr + len > spaces[k].end then Result(spaces, -2)
      else if !alloc then Result(spaces, -1)
      else
        var before := if saved || spaces[k].start < addr then spaces[..k] else [];
        Result(before + Cut(spaces[k], addr, addr + len) + spaces[k + 1..], 0)
  }

  lemma CutMaps(s: VMSpace, addr: int, end: int, x: int, p: nat, f: nat)
    requires s.start <= addr < end <= s.end
    ensures Mapped(Cut(s, addr, end), x, p, f) <==> Covers(s, x, p, f) && !(addr <= x < end)
  {
    var c := Cut(s, addr, end);
    if Covers(s, x, p, f) && x < addr {
      assert Covers(c[0], x, p, f);
    } else if Covers(s, x, p, f) && x >= end {
      assert Covers(c[|c| - 1], x, p, f);
    }
  }

  /** Nothing but its own mapping covers a part of the range that DoMunmap takes. */
  lemma OnlyOneCovers(spaces: seq<VMSpace>, k: nat, x: int, p: nat, f: nat)
    requires Valid(spaces) && k < |spaces| && spaces[k].start <= x < spaces[k].end
    ensures !Mapped(spaces[..k], x, p, f) && !Mapped(spaces[k + 1..], x, p, f)
  {
    assert forall i :: k < i < |spaces| ==> spaces[k + 1..][i - k - 1] == spaces[i];
  }

  lemma ReplacedMaps(spaces: seq<VMSpace>, k: nat, addr: int, end: int)
    requires Valid(spaces) && k < |spaces| && spaces[k].start <= addr < end <= spaces[k].end
    ensures Removes(spaces, spaces[..k] + Cut(spaces[k], addr, end) + spaces[k + 1..], addr, end)
  {
    hide Cut, Mapped;
    forall x: int, p: nat, f: nat
      ensures Mapped(spaces[..k] + Cut(spaces[k], addr, end) + spaces[k + 1..], x, p, f) <==>
        Mapped(spaces, x, p, f) && !(addr <= x < end)
    {
      var cut := Cut(spaces[k], addr, end);
      CutMaps(spaces[k], addr, end, x, p, f);
      MappedConcat(spaces[..k], cut, x, p, f);
      MappedConcat(spaces[..k] + cut, spaces[k + 1..], x, p, f);
      MappedConcat(spaces[..k], [spaces[k]], x, p, f);
      MappedConcat(spaces[..k] + [spaces[k]], spaces[k + 1..], x, p, f);
      assert spaces == spaces[..k] + [spaces[k]] + spaces[k + 1..];
      MappedOne(spaces[k], x, p, f);
      if addr <= x < end {
        OnlyOneCovers(spaces, k, x, p, f);
      }
    }
  }

  lemma ReplacedValid(spaces: seq<VMSpace>, from: nat, k: nat, addr: int, end: int)
    requires Valid(spaces) && from <= k < |spaces| && spaces[k].start <= addr < end <= spaces[k].end
    requires addr % PAGE_SIZE == 0 && end % PAGE_SIZE == 0
    ensures Valid(spaces[from..k] + Cut(spaces[k], addr, end) + spaces[k + 1..])
  {
    var cut := Cut(spaces[k], addr, end);
    var r := spaces[from..k] + cut + spaces[k + 1..];
    assert Proper(spaces[k]);
    assert forall i :: 0 <= i < |cut| ==> Proper(cut[i]) && spaces[k].start <= cut[i].start && cut[i].end <= spaces[k].end;
    assert |cut| == 2 ==> cut[0].end <= cut[1].start;
    forall i | 0 <= i < |r|
      ensures r[i] == if i < k - from then spaces[from + i] else if i < k - from + |cut| then cut[i - (k - from)]
        else spaces[i + from + 1 - |cut|]
    {
    }
  }

  /** DoMunmap with the previous mapping at hand: the list stays in order and exactly the range
      is unmapped; other results change nothing. */
  lemma MunmapUnmaps(spaces: seq<VMSpace>, addr: word, length: word, alloc: bool)
    requires Valid(spaces)
    ensures var r := Munmap(spaces, addr, length, alloc, true); var end: int := addr + PageAlign(length);
      && Valid(r.spaces)
      && (r.ret != 0 ==> r.spaces == spaces)
      && (r.ret == 0 ==> Removes(spaces, r.spaces, addr, end))
  {
    hide Cut, Mapped;
    var r, k := Munmap(spaces, addr, length, alloc, true), Find(spaces, addr, 0);
    if r.ret == 0 {
      var end: int := addr + PageAlign(length);
      ReplacedMaps(spaces, k, addr, end);
      ReplacedValid(spaces, 0, k, addr, end);
      assert spaces[0..k] == spaces[..k];
      assert r.spaces == spaces[..k] + Cut(spaces[k], addr, end) + spaces[k + 1..];
    }
  }

  /** The code as it stands keeps the list in order too, and unmaps exactly the range if and
      only if the range does not begin its mapping or that mapping is the first: otherwise
      every mapping below goes as well. */
  lemma MunmapAsCodedIff(spaces: seq<VMSpace>, addr: word, length: word)
    requires Valid(spaces) && Munmap(spaces, addr, length, true, false).ret == 0
    ensures var r := Munmap(spaces, addr, length, true, false); var end: int := addr + PageAlign(length);
      && Valid(r.spaces)
      && (Removes(spaces, r.spaces, addr, end) <==>
        var k := Find(spaces, addr, 0); spaces[k].start < addr || k == 0)
  {
    hide Cut, Mapped, PageAlign, Valid;
    var r, k := Munmap(spaces, addr, length, true, false), Find(spaces, addr, 0);
    var end: int := addr + PageAlign(length);
    ReplacedMaps(spaces, k, addr, end);
    ReplacedValid(spaces, 0, k, addr, end);
    ReplacedValid(spaces, k, k, addr, end);
    assert spaces[0..k] == spaces[..k] && spaces[k..k] == [];
    if spaces[k].start < addr || k == 0 {
      assert r.spaces == spaces[..k] + Cut(spaces[k], addr, end) + spaces[k + 1..];
    } else {
      var x, p, f := spaces[0].start, spaces[0].pageProt, spaces[0].flags;
      LowestLost(spaces, k, addr, end);
      assert Mapped(spaces, x, p, f) && x < addr && !Mapped(r.spaces, x, p, f);
    }
  }

  lemma NothingBelow(spaces: seq<VMSpace>, k: nat, addr: int, end: int, x: int, p: nat, f: nat)
    requires Valid(spaces) && k < |spaces| && spaces[k].start == addr < end <= spaces[k].end && x < addr
    ensures !Mapped([] + Cut(spaces[k], addr, end) + spaces[k + 1..], x, p, f)
  {
    var r := [] + Cut(spaces[k], addr, end) + spaces[k + 1..];
    forall i | 0 <= i < |r| ensures r[i].start >= addr {
      if i >= |Cut(spaces[k], addr, end)| {
        assert r[i] == spaces[i - |Cut(spaces[k], addr, end)| + k + 1];
      }
    }
  }

  lemma LowestLost(spaces: seq<VMSpace>, k: nat, addr: int, end: int)
    requires Valid(spaces) && 0 < k < |spaces| && spaces[k].start == addr < end <= spaces[k].end
    ensures var s := spaces[0];
      && Mapped(spaces, s.start, s.pageProt, s.flags) && s.start < addr
      && !Mapped([] + Cut(spaces[k], addr, end) + spaces[k + 1..], s.start, s.pageProt, s.flags)
  {
    assert Proper(spaces[0]) && Proper(spaces[k]);
    assert Covers(spaces[0], spaces[0].start, spaces[0].pageProt, spaces[0].flags);
    NothingBelow(spaces, k, addr, end, spaces[0].start, spaces[0].pageProt, spaces[0].flags);
  }

  /** From a to b, nothing came and the addresses of [lo, hi) went. */
  ghost predicate Loses(a: seq<VMSpace>, b: seq<VMSpace>, lo: int, hi: int) {
    forall x: int, p: nat, f: nat :: Mapped(b, x, p, f) ==> Mapped(a, x, p, f) && !(lo <= x < hi)
  }

  /** With the previous mapping handed back or not, any munmap keeps the list in order, maps
      nothing new, and after a success nothing of the range is mapped. */
  lemma MunmapKeepsList(spaces: seq<VMSpace>, addr: word, length: word, alloc: bool, saved: bool)
    requires Valid(spaces)
    ensures var r := Munmap(spaces, addr, length, alloc, saved); var end: int := addr + PageAlign(length);
      && Valid(r.spaces)
      && (r.ret != 0 ==> r.spaces == spaces)
      && (r.ret == 0 ==> Loses(spaces, r.spaces, addr, end))
  {
    hide Cut, Mapped, Valid, PageAlign;
    MunmapUnmaps(spaces, addr, length, alloc);
    var r, all := Munmap(spaces, addr, length, alloc, saved), Munmap(spaces, addr, length, alloc, true);
    if r.ret == 0 && !saved {
      MunmapAsCodedIff(spaces, addr, length);
      var k, end: int := Find(spaces, addr, 0), addr + PageAlign(length);
      var rest := Cut(spaces[k], addr, end) + spaces[k + 1..];
      assert [] + Cut(spaces[k], addr, end) + spaces[k + 1..] == rest;
      assert spaces[..k] + Cut(spaces[k], addr, end) + spaces[k + 1..] == spaces[..k] + rest;
      forall x: int, p: nat, f: nat | Mapped(r.spaces, x, p, f) ensures Mapped(all.spaces, x, p, f) {
        MappedConcat(spaces[..k], rest, x, p, f);
      }
    }
  }

  /** Unmapping the second of two mappings loses the first. */
  lemma MunmapLosesPredecessors()
    ensures Munmap([VMSpace(0, 4096, 1, 0), VMSpace(8192, 12288, 3, 0)], 8192, 4096, true, false).spaces == []
  {
    var spaces := [VMSpace(0, 4096, 1, 0), VMSpace(8192, 12288, 3, 0)];
    assert Find(spaces, 8192, 0) == 1;
  }

  /** The address space of a process with its heap bounds. */
  datatype MM = MM(spaces: seq<VMSpace>, brkStart: word, brk: word)

  /** Whether kmalloc finds room: for DoMunmap's second half, and for DoBrk's new mapping. */
  datatype Alloc = Alloc(half: bool, space: bool)

  predicate CanMerge(spaces: seq<VMSpace>, addr: int) {
    addr != 0 && var k := Find(spaces, addr - 1, 0); k < |spaces| && spaces[k].end == addr && spaces[k].flags == VMS_HEAP
  }

  /** DoBrk. */
  function Grown(spaces: seq<VMSpace>, addr: word, length: word, alloc: Alloc, saved: bool): Result {
    var len := PageAlign(length);
    if len == 0 then Result(spaces, addr)
    else
      var u := Munmap(spaces, addr, len, alloc.half, saved);
      if u.ret == -1 then Result(u.spaces, -1)
      else if CanMerge(u.spaces, addr) then
        var k := Find(u.spaces, addr - 1, 0);
        Result(u.spaces[k := u.spaces[k].(end := addr + len)], addr)
      else if !alloc.space then Result(u.spaces, -1)
      else Result(Inserted(u.spaces, VMSpace(addr, addr + len, PROT_RWX, VMS_HEAP)), addr)
  }

  predicate Intersects(spaces: seq<VMSpace>, lo: int, hi: int) {
    var k := Find(spaces, lo, 0); k < |spaces| && spaces[k].start < hi
  }

  /** SysBrk. */
  function Brk(mm: MM, brk: word, alloc: Alloc, saved: bool): MM {
    var newBrk, oldBrk := PageAlign(brk), PageAlign(mm.brk);
    if brk < mm.brkStart then mm
    else if newBrk == oldBrk then mm.(brk := brk)
    else if brk <= mm.brk then
      if newBrk > oldBrk then mm
      else
        var r := Munmap(mm.spaces, newBrk, oldBrk - newBrk, alloc.half, saved);
        if r.ret == 0 then mm.(spaces := r.spaces, brk := brk) else mm.(spaces := r.spaces)
    else if brk > mm.brkStart + MAX_VMS_HEAP_SIZE || newBrk < oldBrk then mm
    else if Intersects(mm.spaces, oldBrk, newBrk + PAGE_SIZE) then mm
    else
      var r := Grown(mm.spaces, oldBrk, newBrk - oldBrk, alloc, saved);
      if r.ret == oldBrk then mm.(spaces := r.spaces, brk := brk) else mm.(spaces := r.spaces)
  }

  /** One mapping holds everything from lo up to exactly end for the heap. */
  ghost predicate HeapIn(spaces: seq<VMSpace>, lo: int, end: int) {
    exists s :: s in spaces && s.start <= lo && s.end == end && s.flags == VMS_HEAP
  }

  /** The break is above its page-aligned start and within user space. */
  predicate BreakOk(mm: MM) {
    mm.brkStart % PAGE_SIZE == 0 && 0 < mm.brkStart <= mm.brk <= PageAlign(mm.brk) <= USER_VM_SIZE
  }

  ghost predicate ListOk(mm: MM) {
    Valid(mm.spaces) && BreakOk(mm)
  }

  /** All of [brkStart, PageAlign(brk)) is mapped for the heap, in one mapping that ends there. */
  ghost predicate HeapOk(mm: MM) {
    ListOk(mm) && (PageAlign(mm.brk) > mm.brkStart ==> HeapIn(mm.spaces, mm.brkStart, PageAlign(mm.brk)))
  }

  /** Nothing outside [brkStart, PageAlign(brk)) is mapped with the heap's flags. */
  ghost predicate HeapInside(mm: MM) {
    forall x: int, p: nat :: Mapped(mm.spaces, x, p, VMS_HEAP) ==> mm.brkStart <= x < PageAlign(mm.brk)
  }

  ghost predicate HeapExact(mm: MM) {
    HeapOk(mm) && HeapInside(mm)
  }

  /** What HeapExact means: the addresses mapped with the heap's flags are exactly
      [brkStart, PageAlign(brk)). */
  lemma HeapExactMeans(mm: MM, x: int)
    requires HeapExact(mm)
    ensures (exists p: nat :: Mapped(mm.spaces, x, p, VMS_HEAP)) <==> mm.brkStart <= x < PageAlign(mm.brk)
  {
    if mm.brkStart <= x < PageAlign(mm.brk) {
      var s :| s in mm.spaces && s.start <= mm.brkStart && s.end == PageAlign(mm.brk) && s.flags == VMS_HEAP;
      var i :| 0 <= i < |mm.spaces| && mm.spaces[i] == s;
      assert Covers(mm.spaces[i], x, s.pageProt, VMS_HEAP);
      assert Mapped(mm.spaces, x, s.pageProt, VMS_HEAP);
    }
  }

  predicate MappingAbove(spaces: seq<VMSpace>, addr: int) {
    Find(spaces, addr, 0) < |spaces|
  }

  /** When SysBrk moves the break. */
  predicate BrkMoves(mm: MM, brk: word, alloc: Alloc) {
    var newBrk, oldBrk := PageAlign(brk), PageAlign(mm.brk);
    && brk >= mm.brkStart
    && (newBrk == oldBrk
      || (brk <= mm.brk && alloc.half)
      || (brk > mm.brk && brk <= mm.brkStart + MAX_VMS_HEAP_SIZE && !Intersects(mm.spaces, oldBrk, newBrk + PAGE_SIZE)
        && MappingAbove(mm.spaces, oldBrk) && (CanMerge(mm.spaces, oldBrk) || alloc.space)))
  }

  lemma FindSpace(spaces: seq<VMSpace>, s: VMSpace, addr: int) returns (k: nat)
    requires Valid(spaces) && s in spaces && s.start <= addr < s.end
    ensures k < |spaces| && spaces[k] == s && k == Find(spaces, addr, 0)
  {
    k :| k < |spaces| && spaces[k] == s;
    assert forall j :: 0 <= j < k ==> spaces[j].end <= spaces[k].start;
  }

  /** new maps exactly [addr, end) more, for the heap, and joins it to a heap that ended at addr. */
  ghost predicate GrowsTo(spaces: seq<VMSpace>, new_: seq<VMSpace>, addr: int, end: int) {
    && Valid(new_) && end <= USER_VM_SIZE && HeapIn(new_, addr, end)
    && (exists prot :: Adds(spaces, new_, VMSpace(addr, end, prot, VMS_HEAP)))
    && forall lo :: lo < addr && HeapIn(spaces, lo, addr) ==> HeapIn(new_, lo, end)
  }

  lemma MergedMaps(spaces: seq<VMSpace>, addr: int, end: int)
    requires Valid(spaces) && CanMerge(spaces, addr) && addr < end <= USER_VM_SIZE && end % PAGE_SIZE == 0
    requires Misses(spaces, addr, end - addr)
    ensures var k := Find(spaces, addr - 1, 0); GrowsTo(spaces, spaces[k := spaces[k].(end := end)], addr, end)
  {
    var k := Find(spaces, addr - 1, 0);
    var r := spaces[k := spaces[k].(end := end)];
    assert Proper(spaces[k]) && spaces[k].end == addr;
    MergedValid(spaces, k, addr, end);
    hide Valid, Proper, Find, Misses;
    assert r[k].start <= addr && r[k].end == end && r[k].flags == VMS_HEAP && r[k] in r;
    var s := VMSpace(addr, end, spaces[k].pageProt, VMS_HEAP);
    forall x: int, p: nat, f: nat ensures Mapped(r, x, p, f) <==> Mapped(spaces, x, p, f) || Covers(s, x, p, f) {
      assert forall i :: 0 <= i < |r| && i != k ==> r[i] == spaces[i];
      assert Covers(r[k], x, p, f) <==> Covers(spaces[k], x, p, f) || Covers(s, x, p, f);
    }
    assert Adds(spaces, r, s);
    forall lo | lo < addr && HeapIn(spaces, lo, addr) ensures HeapIn(r, lo, end) {
      var h :| h in spaces && h.start <= lo && h.end == addr && h.flags == VMS_HEAP;
      var j := FindSpace(spaces, h, addr - 1);
      assert r[k].start <= lo;
    }
  }

  lemma MergedValid(spaces: seq<VMSpace>, k: nat, addr: int, end: int)
    requires Valid(spaces) && k < |spaces| && spaces[k].end == addr < end <= USER_VM_SIZE && end % PAGE_SIZE == 0
    requires Misses(spaces, addr, end - addr)
    ensures Valid(spaces[k := spaces[k].(end := end)])
  {
    assert forall i :: k < i < |spaces| ==> addr <= spaces[i].start && Proper(spaces[i]);
  }

  lemma AboveHeap(spaces: seq<VMSpace>, addr: word, length: word, alloc: bool, saved: bool)
    requires Valid(spaces) && addr % PAGE_SIZE == 0 && length % PAGE_SIZE == 0 && 0 < length <= MAX_VMS_HEAP_SIZE
    requires !Intersects(spaces, addr, addr + length + PAGE_SIZE) && addr <= USER_VM_SIZE
    ensures Munmap(spaces, addr, length, alloc, saved) == Result(spaces, if MappingAbove(spaces, addr) then -2 else -1)
    ensures MappingAbove(spaces, addr) ==>
      Proper(VMSpace(addr, addr + length, PROT_RWX, VMS_HEAP)) && Misses(spaces, addr, length)
  {
    var k := Find(spaces, addr, 0);
    if k < |spaces| {
      assert Proper(spaces[k]);
      FixedMisses(spaces, addr, length);
    }
  }

  /** DoBrk above the heap, where FindVMSpaceIntersection found nothing: it fails without a
      mapping above, and otherwise maps exactly the range. */
  lemma GrownMaps(spaces: seq<VMSpace>, addr: word, length: word, alloc: Alloc, saved: bool)
    requires Valid(spaces) && addr % PAGE_SIZE == 0 && length % PAGE_SIZE == 0 && 0 < length <= MAX_VMS_HEAP_SIZE
    requires !Intersects(spaces, addr, addr + length + PAGE_SIZE) && addr <= USER_VM_SIZE
    ensures var r := Grown(spaces, addr, length, alloc, saved);
      && (r.ret == addr <==> MappingAbove(spaces, addr) && (CanMerge(spaces, addr) || alloc.space))
      && (r.ret != addr ==> r.spaces == spaces)
      && (r.ret == addr ==> GrowsTo(spaces, r.spaces, addr, addr + length))
  {
    hide GrowsTo, Inserted, Munmap, CanMerge, Valid;
    AboveHeap(spaces, addr, length, alloc.half, saved);
    if MappingAbove(spaces, addr) {
      if CanMerge(spaces, addr) {
        MergedMaps(spaces, addr, addr + length);
      } else if alloc.space {
        NewHeapMaps(spaces, addr, addr + length);
      }
    }
  }

  lemma NewHeapMaps(spaces: seq<VMSpace>, addr: int, end: int)
    requires Valid(spaces) && !CanMerge(spaces, addr) && Misses(spaces, addr, end - addr)
    requires Proper(VMSpace(addr, end, PROT_RWX, VMS_HEAP))
    ensures GrowsTo(spaces, Inserted(spaces, VMSpace(addr, end, PROT_RWX, VMS_HEAP)), addr, end)
  {
    var s := VMSpace(addr, end, PROT_RWX, VMS_HEAP);
    NotMerged(spaces, addr);
    InsertedMaps(spaces, s);
    assert Inserted(spaces, s)[InsertIndex(spaces, s, 0)] == s;
  }

  lemma NotMerged(spaces: seq<VMSpace>, addr: int)
    requires Valid(spaces) && !CanMerge(spaces, addr)
    ensures forall lo :: lo < addr ==> !HeapIn(spaces, lo, addr)
  {
    forall s | s in spaces && s.end == addr && s.flags == VMS_HEAP ensures false {
      var i :| 0 <= i < |spaces| && spaces[i] == s;
      assert Proper(spaces[i]);
      var k := FindSpace(spaces, s, addr - 1);
    }
  }

  lemma LowerPart(spaces: seq<VMSpace>, k: nat, addr: int, end: int)
    requires k < |spaces| && spaces[k].start < addr
    ensures spaces[k].(end := addr) in spaces[..k] + Cut(spaces[k], addr, end) + spaces[k + 1..]
  {
    assert (spaces[..k] + Cut(spaces[k], addr, end) + spaces[k + 1..])[k] == spaces[k].(end := addr);
  }

  /** DoMunmap of the top of the heap finds the heap's mapping and leaves the rest of it. */
  lemma ShrunkHeap(spaces: seq<VMSpace>, lo: int, addr: word, end: word, alloc: bool)
    requires Valid(spaces) && HeapIn(spaces, lo, end) && 0 <= lo <= addr < end <= USER_VM_SIZE
    requires addr % PAGE_SIZE == 0 && end % PAGE_SIZE == 0
    ensures var r := Munmap(spaces, addr, end - addr, alloc, true);
      && (r.ret == 0 <==> alloc)
      && (r.ret == 0 && addr > lo ==> HeapIn(r.spaces, lo, addr))
  {
    hide Cut, Valid, PageAlign, Find;
    AlignedStays(end - addr);
    var s :| s in spaces && s.start <= lo && s.end == end && s.flags == VMS_HEAP;
    var k := FindSpace(spaces, s, addr);
    if alloc && addr > lo {
      assert spaces[k].start < addr;
      LowerPart(spaces, k, addr, end);
    }
  }

  /** What SysBrk promises: it moves the break exactly when it can, the heap stays mapped, exactly
      the difference is mapped or unmapped, and a failed call changes nothing. */
  ghost predicate BrkDone(mm: MM, brk: word, moves: bool, t: MM) {
    var oldBrk, newBrk := PageAlign(mm.brk), PageAlign(brk);
    && HeapOk(t) && t.brkStart == mm.brkStart
    && t.brk == (if moves then brk else mm.brk)
    && (!moves || newBrk == oldBrk ==> t.spaces == mm.spaces)
    && (moves && newBrk < oldBrk ==> Removes(mm.spaces, t.spaces, newBrk, oldBrk))
    && (moves && newBrk > oldBrk ==> exists prot :: Adds(mm.spaces, t.spaces, VMSpace(oldBrk, newBrk, prot, VMS_HEAP)))
  }

  lemma AlignMonotone(a: word, b: word)
    requires a <= b <= WORD_LIMIT - PAGE_SIZE
    ensures PageAlign(a) <= PageAlign(b)
  {
  }

  lemma AlignedStays(a: word)
    requires a % PAGE_SIZE == 0
    ensures PageAlign(a) == a
  {
  }

  lemma GrowsHeap(mm: MM, brk: word, new_: seq<VMSpace>)
    requires HeapOk(mm) && mm.brk < brk && PageAlign(mm.brk) < PageAlign(brk)
    requires GrowsTo(mm.spaces, new_, PageAlign(mm.brk), PageAlign(brk)) && brk <= WORD_LIMIT - PAGE_SIZE
    ensures BrkDone(mm, brk, true, mm.(spaces := new_, brk := brk))
  {
    hide Valid, HeapIn, Adds, Removes, PageAlign;
  }

  /** What one SysBrk may do to the list: nothing, losing what lies above the new break, or
      mapping exactly up to it for the heap. */
  ghost predicate BrkStep(mm: MM, t: MM) {
    var oldBrk, newBrk := PageAlign(mm.brk), PageAlign(t.brk);
    || (newBrk == oldBrk && t.spaces == mm.spaces)
    || (newBrk < oldBrk && Loses(mm.spaces, t.spaces, newBrk, oldBrk))
    || (newBrk > oldBrk && exists prot :: Adds(mm.spaces, t.spaces, VMSpace(oldBrk, newBrk, prot, VMS_HEAP)))
  }

  /** SysBrk keeps the list in order whatever of the heap is mapped. */
  lemma BrkKeepsList(mm: MM, brk: word, alloc: Alloc, saved: bool)
    requires ListOk(mm)
    ensures ListOk(Brk(mm, brk, alloc, saved)) && Brk(mm, brk, alloc, saved).brkStart == mm.brkStart
    ensures BrkStep(mm, Brk(mm, brk, alloc, saved))
  {
    hide Munmap, Grown, Loses, Adds, HeapIn, Valid, PageAlign, Intersects, MappingAbove, CanMerge;
    var oldBrk, newBrk := PageAlign(mm.brk), PageAlign(brk);
    if mm.brkStart <= brk <= mm.brk {
      AlignMonotone(brk, mm.brk);
      if newBrk < oldBrk {
        AlignedStays(oldBrk - newBrk);
        MunmapKeepsList(mm.spaces, newBrk, oldBrk - newBrk, alloc.half, saved);
      }
    } else if mm.brk < brk <= mm.brkStart + MAX_VMS_HEAP_SIZE {
      AlignMonotone(mm.brk, brk);
      if newBrk > oldBrk && !Intersects(mm.spaces, oldBrk, newBrk + PAGE_SIZE) {
        GrownMaps(mm.spaces, oldBrk, newBrk - oldBrk, alloc, saved);
      }
    }
  }

  /** SysBrk keeps what is mapped for the heap within its bounds. */
  lemma BrkKeepsInside(mm: MM, t: MM)
    requires HeapInside(mm) && BreakOk(mm) && BreakOk(t) && BrkStep(mm, t) && t.brkStart == mm.brkStart
    ensures HeapInside(t)
  {
    hide Mapped, PageAlign;
  }

  lemma BrkShrinks(mm: MM, brk: word, alloc: Alloc)
    requires HeapOk(mm) && mm.brkStart <= brk <= mm.brk && PageAlign(brk) < PageAlign(mm.brk)
    ensures BrkDone(mm, brk, BrkMoves(mm, brk, alloc), Brk(mm, brk, alloc, true))
  {
    hide Munmap, Grown, Removes, Adds, HeapIn, Valid, PageAlign;
    var oldBrk, newBrk := PageAlign(mm.brk), PageAlign(brk);
    ShrunkHeap(mm.spaces, mm.brkStart, newBrk, oldBrk, alloc.half);
    MunmapUnmaps(mm.spaces, newBrk, oldBrk - newBrk, alloc.half);
  }

  lemma BrkGrows(mm: MM, brk: word, alloc: Alloc, saved: bool)
    requires HeapOk(mm) && mm.brk < brk <= mm.brkStart + MAX_VMS_HEAP_SIZE && PageAlign(brk) > PageAlign(mm.brk)
    ensures BrkDone(mm, brk, BrkMoves(mm, brk, alloc), Brk(mm, brk, alloc, saved))
  {
    hide Munmap, Grown, Removes, Adds, HeapIn, Valid, CanMerge, MappingAbove, PageAlign, GrowsTo, Intersects;
    var oldBrk, newBrk := PageAlign(mm.brk), PageAlign(brk);
    if !Intersects(mm.spaces, oldBrk, newBrk + PAGE_SIZE) {
      GrownMaps(mm.spaces, oldBrk, newBrk - oldBrk, alloc, saved);
      if BrkMoves(mm, brk, alloc) {
        GrowsHeap(mm, brk, Grown(mm.spaces, oldBrk, newBrk - oldBrk, alloc, saved).spaces);
      }
    }
  }

  /** SysBrk does what it promises, and a heap of exactly [brkStart, PageAlign(brk)) stays one. */
  lemma BrkKeepsHeap(mm: MM, brk: word, alloc: Alloc)
    requires HeapOk(mm)
    ensures BrkDone(mm, brk, BrkMoves(mm, brk, alloc), Brk(mm, brk, alloc, true))
    ensures HeapInside(mm) ==> HeapExact(Brk(mm, brk, alloc, true))
  {
    hide HeapIn, Valid, Munmap, Grown, CanMerge, MappingAbove, Adds, Removes, PageAlign, Intersects,
      HeapInside, BrkStep;
    var oldBrk, newBrk := PageAlign(mm.brk), PageAlign(brk);
    if brk <= mm.brk {
      AlignMonotone(brk, mm.brk);
    } else if brk <= mm.brkStart + MAX_VMS_HEAP_SIZE {
      AlignMonotone(mm.brk, brk);
    }
    if mm.brkStart <= brk <= mm.brk && newBrk < oldBrk {
      BrkShrinks(mm, brk, alloc);
    } else if mm.brk < brk <= mm.brkStart + MAX_VMS_HEAP_SIZE && newBrk > oldBrk {
      BrkGrows(mm, brk, alloc, true);
    }
    if HeapInside(mm) {
      BrkKeepsList(mm, brk, alloc, true);
      BrkKeepsInside(mm, Brk(mm, brk, alloc, true));
    }
  }

  lemma IntersectsIff(spaces: seq<VMSpace>, lo: int, hi: int)
    requires Valid(spaces)
    ensures Intersects(spaces, lo, hi) <==> !Misses(spaces, lo, hi - lo)
  {
    FixedMisses(spaces, lo, hi - lo);
  }

  lemma CanMergeIff(spaces: seq<VMSpace>, addr: int)
    requires Valid(spaces) && addr > 0
    ensures CanMerge(spaces, addr) <==> exists h :: h in spaces && h.end == addr && h.flags == VMS_HEAP
  {
    if CanMerge(spaces, addr) {
      assert spaces[Find(spaces, addr - 1, 0)] in spaces;
    } else {
      NotMerged(spaces, addr);
      forall h | h in spaces && h.end == addr && h.flags == VMS_HEAP ensures false {
        var i :| 0 <= i < |spaces| && spaces[i] == h;
        assert Proper(spaces[i]);
        assert HeapIn(spaces, h.start, addr);
      }
    }
  }

  lemma MappingAboveIff(spaces: seq<VMSpace>, addr: int)
    ensures MappingAbove(spaces, addr) <==> exists s :: s in spaces && s.end > addr
  {
    var k := Find(spaces, addr, 0);
    if k < |spaces| {
      assert spaces[k] in spaces;
    }
  }

  /** When SysBrk moves the break, told from the list: not below brkStart; within the same page; down, with
      memory for the half that munmap may leave; or up, within 512 MB, if the range and the page behind it
      are free, some mapping lies above the old break, and either a heap mapping ends there or there is
      memory for a new one. */
  lemma BrkMovesIff(mm: MM, brk: word, alloc: Alloc)
    requires HeapOk(mm)
    ensures var newBrk: int, oldBrk: int := PageAlign(brk), PageAlign(mm.brk);
      Brk(mm, brk, alloc, true).brk == if brk >= mm.brkStart
        && (newBrk == oldBrk
          || (brk <= mm.brk && alloc.half)
          || (mm.brk < brk <= mm.brkStart + 0x2000_0000
            && Misses(mm.spaces, oldBrk, newBrk + PAGE_SIZE - oldBrk) && (exists s :: s in mm.spaces && s.end > oldBrk)
            && ((exists h :: h in mm.spaces && h.end == oldBrk && h.flags == VMS_HEAP) || alloc.space)))
      then brk else mm.brk
  {
    hide Brk, Valid, HeapIn, PageAlign, CanMerge, MappingAbove, Intersects, Misses;
    var newBrk: int, oldBrk: int := PageAlign(brk), PageAlign(mm.brk);
    BrkKeepsHeap(mm, brk, alloc);
    IntersectsIff(mm.spaces, oldBrk, newBrk + PAGE_SIZE);
    CanMergeIff(mm.spaces, oldBrk);
    MappingAboveIff(mm.spaces, oldBrk);
  }

  /** Shrinking with the code as it stands: exactly the difference goes if and only if the new
      break is above the start of the heap's mapping or that mapping is the first. */
  lemma BrkShrinkAsCodedIff(mm: MM, brk: word, space: bool)
    requires HeapOk(mm) && mm.brkStart <= brk <= mm.brk && PageAlign(brk) < PageAlign(mm.brk)
    ensures var t := Brk(mm, brk, Alloc(true, space), false); var newBrk := PageAlign(brk);
      && t.brk == brk && Valid(t.spaces)
      && (Removes(mm.spaces, t.spaces, newBrk, PageAlign(mm.brk)) <==>
        var k := Find(mm.spaces, newBrk, 0); k < |mm.spaces| && (mm.spaces[k].start < newBrk || k == 0))
  {
    hide Removes, Valid, HeapIn, PageAlign, Find, Cut;
    var newBrk, oldBrk := PageAlign(brk), PageAlign(mm.brk);
    AlignedStays(oldBrk - newBrk);
    ShrunkHeap(mm.spaces, mm.brkStart, newBrk, oldBrk, true);
    MunmapAsCodedIff(mm.spaces, newBrk, oldBrk - newBrk);
  }

  /** The mapping of an exact heap begins at brkStart, so shrinking it finds the previous mapping
      lost only when nothing of the heap is left. */
  lemma ShrunkExact(mm: MM, brk: word, alloc: Alloc)
    requires HeapExact(mm) && mm.brkStart <= brk <= mm.brk && mm.brkStart < PageAlign(brk) < PageAlign(mm.brk)
    ensures Brk(mm, brk, alloc, false) == Brk(mm, brk, alloc, true)
  {
    hide Valid, PageAlign, Find, Cut;
    var newBrk, oldBrk := PageAlign(brk), PageAlign(mm.brk);
    var s :| s in mm.spaces && s.start <= mm.brkStart && s.end == oldBrk && s.flags == VMS_HEAP;
    var k := FindSpace(mm.spaces, s, newBrk);
  }

  lemma EmptiedExact(mm: MM, brk: word, alloc: Alloc)
    requires HeapOk(mm) && mm.brkStart <= brk <= mm.brk && PageAlign(brk) == mm.brkStart < PageAlign(mm.brk)
    ensures HeapOk(Brk(mm, brk, alloc, false))
  {
    hide Valid, HeapIn, Munmap, PageAlign;
    AlignedStays(PageAlign(mm.brk) - mm.brkStart);
    MunmapKeepsList(mm.spaces, mm.brkStart, PageAlign(mm.brk) - mm.brkStart, alloc.half, false);
  }

  lemma BrkKeepsOk(mm: MM, brk: word, alloc: Alloc)
    requires HeapExact(mm)
    ensures HeapOk(Brk(mm, brk, alloc, false))
  {
    hide Valid, HeapIn, HeapInside, Munmap, Grown, PageAlign, Intersects;
    var newBrk, oldBrk := PageAlign(brk), PageAlign(mm.brk);
    if mm.brkStart <= brk <= mm.brk {
      AlignMonotone(brk, mm.brk);
      AlignMonotone(mm.brkStart, brk);
      AlignedStays(mm.brkStart);
      if mm.brkStart < newBrk < oldBrk {
        ShrunkExact(mm, brk, alloc);
        BrkKeepsHeap(mm, brk, alloc);
      } else if newBrk < oldBrk {
        EmptiedExact(mm, brk, alloc);
      }
    } else if mm.brk < brk <= mm.brkStart + MAX_VMS_HEAP_SIZE {
      AlignMonotone(mm.brk, brk);
      if newBrk > oldBrk {
        BrkGrows(mm, brk, alloc, false);
      }
    }
  }

  /** With the previous mapping handed back or not, SysBrk keeps the heap exact. */
  lemma BrkKeepsExact(mm: MM, brk: word, alloc: Alloc, saved: bool)
    requires HeapExact(mm)
    ensures HeapExact(Brk(mm, brk, alloc, saved)) && Brk(mm, brk, alloc, saved).brkStart == mm.brkStart
  {
    hide Valid, HeapIn, HeapInside, Brk, PageAlign, BrkStep;
    BrkKeepsList(mm, brk, alloc, saved);
    BrkKeepsInside(mm, Brk(mm, brk, alloc, saved));
    if saved {
      BrkKeepsHeap(mm, brk, alloc);
    } else {
      BrkKeepsOk(mm, brk, alloc);
    }
  }
}
