/** The slab allocator behind kmalloc and kfree (src/mm/memcache.c), as values: the caches with
    their three lists, the groups by address and the cache marks of pages. */
module Slabs {
  import opened Basics
  import Bitmaps
  import opened Lists

  const MB: nat := 0x100000
  const MAX_MEM_CACHE_SIZE: nat := 0x20000
  const SIZEOF_MEM_GROUP: nat := 32
  const SMALL_MAP_BYTES: nat := 16
  const CACHES: nat := 13
  const CACHE_SIZES: seq<nat> := [32, 64, 128, 256, 512, 1024, 2048, 4096, 0x2000, 0x4000, 0x8000, 0x10000, 0x20000]

  function CacheSize(c: nat): (size: nat)
    requires c < CACHES
    ensures 32 <= size <= MAX_MEM_CACHE_SIZE
  {
    CACHE_SIZES[c]
  }

  datatype Where = Full | Partial | Free

  datatype MemCache = MemCache(full: seq<nat>, partial: seq<nat>, free: seq<nat>, objectSize: nat, objectNumber: nat) {
    function At(w: Where): seq<nat> {
      match w case Full => full case Partial => partial case Free => free
    }

    function With(w: Where, list: seq<nat>): MemCache {
      match w
      case Full => this.(full := list)
      case Partial => this.(partial := list)
      case Free => this.(free := list)
    }
  }

  datatype MemGroup = MemGroup(cache: nat, map_: seq<bool>, objects: nat, usingCount: nat, freeCount: nat)

  /** The address of object i, when objects have n bytes. */
  function ObjectAt(grp: MemGroup, i: nat, n: nat): nat {
    grp.objects + i * n
  }

  datatype MemNode = MemNode(cache: nat, group: nat)

  datatype Slab = Slab(caches: seq<MemCache>, groups: map<nat, MemGroup>, nodes: map<nat, MemNode>)

  function DivRoundUp(x: nat, step: nat): nat
    requires step > 0
  {
    (x + step - 1) / step
  }

  /** How many objects one group of the given object size holds. */
  function ObjectNumber(size: nat): nat
    requires size > 0
  {
    if size < 1024 then (PAGE_SIZE - (SIZEOF_MEM_GROUP + 8) - SMALL_MAP_BYTES) / size else MB / size
  }

  /** The index of the first cache that holds objects of at least this size. */
  function SizeClass(size: nat, from: nat): (c: nat)
    requires size <= MAX_MEM_CACHE_SIZE && from < CACHES
    ensures from <= c < CACHES && CacheSize(c) >= size
    ensures forall k :: from <= k < c ==> CacheSize(k) < size
    decreases CACHES - from
  {
    if CacheSize(from) >= size || from == CACHES - 1 then from else SizeClass(size, from + 1)
  }

  function ObjectPages(c: nat): nat
    requires c < CACHES
  {
    DivRoundUp(ObjectNumber(CacheSize(c)) * CacheSize(c), PAGE_SIZE)
  }

  function MapBytes(c: nat): nat
    requires c < CACHES
  {
    DivRoundUp(ObjectNumber(CacheSize(c)), 8)
  }

  /** What the table of sizes makes of a group: the header, the bitmap and, when they share its
      page, the objects fit in one page one after the other; large objects fill whole pages. */
  lemma GroupFits(c: nat)
    requires c < CACHES
    ensures var n, size := ObjectNumber(CacheSize(c)), CacheSize(c);
      && 7 <= n <= 8 * MapBytes(c) && SIZEOF_MEM_GROUP + MapBytes(c) <= PAGE_SIZE && size > 0
      && (size < 1024 ==> MapBytes(c) <= SMALL_MAP_BYTES && SIZEOF_MEM_GROUP + SMALL_MAP_BYTES + n * size <= PAGE_SIZE)
      && (size >= 1024 ==> n * size == ObjectPages(c) * PAGE_SIZE)
  {
  }

  /** The number of set bits. */
  function Count(bits: seq<bool>): (n: nat)
    ensures n <= |bits|
  {
    if |bits| == 0 then 0 else Count(bits[..|bits| - 1]) + if bits[|bits| - 1] then 1 else 0
  }

  lemma {:induction false} CountUpdate(bits: seq<bool>, i: nat, value: bool)
    requires i < |bits| && bits[i] != value
    ensures Count(bits[i := value]) == Count(bits) + if value then 1 else -1
  {
    var n := |bits| - 1;
    if i < n {
      CountUpdate(bits[..n], i, value);
      assert bits[i := value][..n] == bits[..n][i := value];
    } else {
      assert bits[i := value][..n] == bits[..n];
    }
  }

  lemma {:induction false} CountNone(bits: seq<bool>)
    ensures Count(bits) == 0 <==> forall i :: 0 <= i < |bits| ==> !bits[i]
  {
    if |bits| > 0 {
      var rest := bits[..|bits| - 1];
      CountNone(rest);
      assert forall i :: 0 <= i < |rest| ==> rest[i] == bits[i];
    }
  }

  lemma {:induction false} CountAll(bits: seq<bool>, n: nat)
    requires n <= |bits| && forall i :: 0 <= i < n ==> bits[i]
    ensures Count(bits) >= n
  {
    if |bits| > 0 {
      var rest := bits[..|bits| - 1];
      CountAll(rest, if n == |bits| then n - 1 else n);
    }
  }

  /** With fewer than n bits set the scan ends below n, however many slack bits follow. */
  lemma ScanStaysBelow(bits: seq<bool>, n: nat)
    requires Count(bits) < n <= |bits|
    ensures 0 <= Bitmaps.FirstClear(bits) < n
  {
    var r := Bitmaps.FirstClear(bits);
    if r == -1 || r >= n {
      CountAll(bits, n);
    }
  }

  /** The pages that group a keeps: its own and those of its large objects. */
  predicate HoldsObjects(grp: MemGroup, a: nat, page: nat) {
    grp.cache < CACHES &&
    if CacheSize(grp.cache) < 1024 then page == a / PAGE_SIZE
    else grp.objects / PAGE_SIZE <= page < grp.objects / PAGE_SIZE + ObjectPages(grp.cache)
  }

  predicate Holds(grp: MemGroup, a: nat, page: nat) {
    page == a / PAGE_SIZE || HoldsObjects(grp, a, page)
  }

  predicate PlacedRight(grp: MemGroup, a: nat) {
    && grp.cache < CACHES && a > 0 && a % PAGE_SIZE == 0
    && if CacheSize(grp.cache) < 1024 then grp.objects == a + SIZEOF_MEM_GROUP + SMALL_MAP_BYTES
       else grp.objects > 0 && grp.objects % PAGE_SIZE == 0 && !HoldsObjects(grp, a, a / PAGE_SIZE)
  }

  predicate Counted(grp: MemGroup) {
    && grp.cache < CACHES && |grp.map_| == 8 * MapBytes(grp.cache)
    && grp.usingCount == Count(grp.map_)
    && grp.usingCount + grp.freeCount == ObjectNumber(CacheSize(grp.cache)) <= |grp.map_|
    && forall i :: ObjectNumber(CacheSize(grp.cache)) <= i < |grp.map_| ==> !grp.map_[i]
  }

  predicate Tabled(s: Slab) {
    && |s.caches| == CACHES
    && forall c :: 0 <= c < CACHES ==>
      s.caches[c].objectSize == CacheSize(c) && s.caches[c].objectNumber == ObjectNumber(CacheSize(c))
  }

  ghost predicate GroupsOk(s: Slab) {
    forall a :: a in s.groups ==> PlacedRight(s.groups[a], a) && Counted(s.groups[a])
  }

  /** No page belongs to two groups. */
  ghost predicate Apart(s: Slab) {
    forall a, b, page :: a in s.groups && b in s.groups && a != b && Holds(s.groups[a], a, page) ==>
      !Holds(s.groups[b], b, page)
  }

  /** Every page with objects is marked with its cache and group. */
  ghost predicate Marked(s: Slab) {
    forall a, page :: a in s.groups && HoldsObjects(s.groups[a], a, page) ==>
      page in s.nodes && s.nodes[page] == MemNode(s.groups[a].cache, a)
  }

  function Kind(grp: MemGroup): Where {
    if grp.freeCount == 0 then Full else if grp.usingCount == 0 then Free else Partial
  }

  /** List w of cache c holds, once each, exactly the groups whose counters call for it; the
      groups in moved are instead on the list given there. */
  ghost predicate ListRight(s: Slab, moved: map<nat, Where>, c: nat, w: Where)
    requires c < |s.caches|
  {
    && NoRepeats(s.caches[c].At(w))
    && forall a :: a in s.caches[c].At(w) <==>
      a in s.groups && s.groups[a].cache == c && w == if a in moved then moved[a] else Kind(s.groups[a])
  }

  ghost predicate Listed(s: Slab, moved: map<nat, Where>) {
    |s.caches| == CACHES && forall c, w :: 0 <= c < CACHES ==> ListRight(s, moved, c, w)
  }

  ghost predicate Sound(s: Slab) {
    Tabled(s) && GroupsOk(s) && Apart(s) && Marked(s)
  }

  ghost predicate Valid(s: Slab) {
    Sound(s) && Listed(s, map[])
  }

  /** Object i of group a is allocated, and is the n bytes at p. */
  ghost predicate Slot(s: Slab, a: nat, i: nat, p: nat, n: nat) {
    && a in s.groups && s.groups[a].cache < CACHES && i < |s.groups[a].map_| && s.groups[a].map_[i]
    && n == CacheSize(s.groups[a].cache) && p == ObjectAt(s.groups[a], i, n)
  }

  /** The n bytes at p are an object that kmalloc gave out and kfree did not take back. */
  ghost predicate Live(s: Slab, p: nat, n: nat) {
    exists a, i :: Slot(s, a, i, p, n)
  }

  lemma {:induction false} SlotBounds(i: nat, n: nat, size: nat)
    requires i < n
    ensures i * size + size <= n * size
  {
    assert n * size == (n - 1) * size + size;
    if i < n - 1 {
      SlotBounds(i, n - 1, size);
    }
  }

  lemma SpanOf(grp: MemGroup, i: nat, n: nat, size: nat, x: nat)
    requires i < n && ObjectAt(grp, i, size) <= x < ObjectAt(grp, i, size) + size
    ensures grp.objects <= ObjectAt(grp, i, size) <= x < grp.objects + n * size
  {
    SlotBounds(i, n, size);
  }

  lemma PageRange(base: nat, pages: nat, x: nat)
    requires base % PAGE_SIZE == 0 && base <= x < base + pages * PAGE_SIZE
    ensures base / PAGE_SIZE <= x / PAGE_SIZE < base / PAGE_SIZE + pages
  {
  }

  /** An allocated object lies inside pages with its group's objects, past the bitmap. */
  lemma SlotInside(s: Slab, a: nat, i: nat, p: nat, n: nat, x: nat)
    requires Sound(s) && Slot(s, a, i, p, n) && p <= x < p + n
    ensures HoldsObjects(s.groups[a], a, x / PAGE_SIZE) && p > 0
    ensures CacheSize(s.groups[a].cache) < 1024 ==> p >= a + SIZEOF_MEM_GROUP + MapBytes(s.groups[a].cache)
  {
    hide CacheSize, ObjectNumber, ObjectPages, MapBytes, DivRoundUp, Count, Apart, Marked, ObjectAt;
    var grp := s.groups[a];
    assert PlacedRight(grp, a) && Counted(grp);
    GroupFits(grp.cache);
    SpanOf(grp, i, ObjectNumber(n), n, x);
    if n < 1024 {
      InHeaderPage(a, x);
    } else {
      PageRange(grp.objects, ObjectPages(grp.cache), x);
    }
  }

  lemma NoCommonPage(s: Slab, a: nat, b: nat, page: nat)
    requires Apart(s) && a in s.groups && b in s.groups && a != b && HoldsObjects(s.groups[a], a, page)
    ensures !Holds(s.groups[b], b, page) && !HoldsObjects(s.groups[b], b, page) && page != b / PAGE_SIZE
  {
    assert Holds(s.groups[a], a, page);
  }

  /** Two allocated objects never overlap. */
  lemma SlotsApart(s: Slab, a: nat, i: nat, p: nat, n: nat, b: nat, j: nat, q: nat, m: nat)
    requires Sound(s) && Slot(s, a, i, p, n) && Slot(s, b, j, q, m) && (a != b || i != j)
    ensures p + n <= q || q + m <= p
  {
    hide CacheSize, ObjectNumber, ObjectPages, MapBytes, DivRoundUp, Count, HoldsObjects, GroupsOk, Marked, Apart;
    if a == b {
      if i < j { SlotBounds(i, j, n); } else { SlotBounds(j, i, n); }
    } else if p + n > q && q + m > p {
      var x := if p < q then q else p;
      SlotInside(s, a, i, p, n, x);
      SlotInside(s, b, j, q, m, x);
      NoCommonPage(s, a, b, x / PAGE_SIZE);
    }
  }

  /** Live objects are pairwise disjoint. */
  lemma LiveDisjoint(s: Slab, p: nat, n: nat, q: nat, m: nat)
    requires Valid(s) && Live(s, p, n) && Live(s, q, m) && (p, n) != (q, m)
    ensures p + n <= q || q + m <= p
  {
    hide CacheSize, ObjectNumber, ObjectPages, MapBytes, DivRoundUp, Count, Sound, Listed;
    var a, i :| Slot(s, a, i, p, n);
    var b, j :| Slot(s, b, j, q, m);
    SlotsApart(s, a, i, p, n, b, j, q, m);
  }

  lemma InHeaderPage(b: nat, x: nat)
    requires b % PAGE_SIZE == 0 && b <= x < b + PAGE_SIZE
    ensures x / PAGE_SIZE == b / PAGE_SIZE
  {
  }

  /** No live object overlaps the header or the bitmap of any group, its own or another's. */
  lemma LiveMissesHeaders(s: Slab, p: nat, n: nat, b: nat)
    requires Valid(s) && Live(s, p, n) && b in s.groups
    ensures p + n <= b || b + SIZEOF_MEM_GROUP + MapBytes(s.groups[b].cache) <= p
  {
    hide CacheSize, ObjectNumber, ObjectPages, MapBytes, DivRoundUp, Count, Listed, Marked, Apart;
    var a, i :| Slot(s, a, i, p, n);
    var end := b + SIZEOF_MEM_GROUP + MapBytes(s.groups[b].cache);
    assert PlacedRight(s.groups[a], a) && PlacedRight(s.groups[b], b);
    GroupFits(s.groups[b].cache);
    if p + n > b && end > p {
      var x := if p < b then b else p;
      SlotInside(s, a, i, p, n, x);
      SlotInside(s, a, i, p, n, p);
      InHeaderPage(b, x);
      if a != b {
        NoCommonPage(s, a, b, x / PAGE_SIZE);
      }
    }
  }

  /** The list a group is on tells its counters, and its counter tells its bitmap. */
  lemma ListsMatchCounters(s: Slab, c: nat, a: nat)
    requires Valid(s) && c < CACHES && a in s.groups && s.groups[a].cache == c
    ensures a in s.caches[c].full <==> s.groups[a].freeCount == 0
    ensures a in s.caches[c].free <==> s.groups[a].usingCount == 0
    ensures a in s.caches[c].partial <==> s.groups[a].freeCount > 0 && s.groups[a].usingCount > 0
    ensures s.groups[a].usingCount == Count(s.groups[a].map_)
  {
    hide CacheSize, ObjectNumber, ObjectPages, MapBytes, DivRoundUp, Count;
    GroupFits(c);
    assert ListRight(s, map[], c, Full) && ListRight(s, map[], c, Partial) && ListRight(s, map[], c, Free);
    assert s.caches[c].At(Full) == s.caches[c].full && s.caches[c].At(Free) == s.caches[c].free;
    assert s.caches[c].At(Partial) == s.caches[c].partial && Counted(s.groups[a]);
  }

  function Unlinked(m: MemCache, a: nat): MemCache {
    m.(full := Without(m.full, a), partial := Without(m.partial, a), free := Without(m.free, a))
  }

  /** ListDel of a group of cache c and ListAddTail to list w. */
  function Moved(m: MemCache, a: nat, w: Where): MemCache {
    Unlinked(m, a).With(w, Unlinked(m, a).At(w) + [a])
  }

  lemma MoveAt(m: MemCache, a: nat, w: Where, v: Where)
    requires NoRepeats(m.At(v))
    ensures NoRepeats(Moved(m, a, w).At(v))
    ensures forall x :: x in Moved(m, a, w).At(v) <==> if x == a then v == w else x in m.At(v)
  {
    WithoutRepeats(m.At(v), a);
  }

  lemma MoveListed(s: Slab, moved: map<nat, Where>, a: nat, w: Where)
    requires Listed(s, moved) && a in s.groups && s.groups[a].cache < CACHES
    ensures var c := s.groups[a].cache;
      Listed(s.(caches := s.caches[c := Moved(s.caches[c], a, w)]), moved[a := w])
  {
    hide CacheSize, Moved;
    var c := s.groups[a].cache;
    var t := s.(caches := s.caches[c := Moved(s.caches[c], a, w)]);
    var over := moved[a := w];
    forall d, v | 0 <= d < CACHES ensures ListRight(t, over, d, v) {
      assert ListRight(s, moved, d, v);
      MoveAt(s.caches[d], a, w, v);
    }
  }

  function Toggled(grp: MemGroup, i: nat): MemGroup
    requires i < |grp.map_| && (grp.map_[i] ==> grp.usingCount > 0) && (!grp.map_[i] ==> grp.freeCount > 0)
  {
    if grp.map_[i] then grp.(map_ := grp.map_[i := false], usingCount := grp.usingCount - 1, freeCount := grp.freeCount + 1)
    else grp.(map_ := grp.map_[i := true], usingCount := grp.usingCount + 1, freeCount := grp.freeCount - 1)
  }

  /** Allocating or freeing one object changes that object only and keeps bitmap and counters in step. */
  lemma ToggleSound(s: Slab, a: nat, i: nat)
    requires Sound(s) && a in s.groups && i < ObjectNumber(CacheSize(s.groups[a].cache))
    requires i < |s.groups[a].map_|
    requires (s.groups[a].map_[i] ==> s.groups[a].usingCount > 0) && (!s.groups[a].map_[i] ==> s.groups[a].freeCount > 0)
    ensures var grp := Toggled(s.groups[a], i); Sound(s.(groups := s.groups[a := grp]))
  {
    hide CacheSize, ObjectNumber, ObjectPages, MapBytes, DivRoundUp, Count;
    var grp := Toggled(s.groups[a], i);
    var t := s.(groups := s.groups[a := grp]);
    assert PlacedRight(s.groups[a], a) && Counted(s.groups[a]);
    CountUpdate(s.groups[a].map_, i, !s.groups[a].map_[i]);
    assert forall page :: HoldsObjects(grp, a, page) == HoldsObjects(s.groups[a], a, page);
    assert forall b, page :: b in s.groups ==> Holds(t.groups[b], b, page) == Holds(s.groups[b], b, page);
  }

  lemma ToggleSlots(s: Slab, a: nat, i: nat, b: nat, j: nat, p: nat, n: nat)
    requires a in s.groups && s.groups[a].cache < CACHES && i < |s.groups[a].map_|
    requires (s.groups[a].map_[i] ==> s.groups[a].usingCount > 0) && (!s.groups[a].map_[i] ==> s.groups[a].freeCount > 0)
    ensures var grp := s.groups[a]; var size := CacheSize(grp.cache);
      Slot(s.(groups := s.groups[a := Toggled(grp, i)]), b, j, p, n) <==>
        if b == a && j == i then !grp.map_[i] && n == size && p == ObjectAt(grp, i, n) else Slot(s, b, j, p, n)
  {
    hide CacheSize, ObjectNumber, ObjectPages, MapBytes, DivRoundUp, Count;
  }

  ghost predicate NewPages(s: Slab, a: nat, grp: MemGroup) {
    forall b, page :: b in s.groups && Holds(s.groups[b], b, page) ==> !Holds(grp, a, page)
  }

  ghost predicate MarkedAlso(s: Slab, a: nat, grp: MemGroup, nodes: map<nat, MemNode>) {
    && (forall page :: page in s.nodes && !HoldsObjects(grp, a, page) ==> page in nodes && nodes[page] == s.nodes[page])
    && (forall page :: HoldsObjects(grp, a, page) ==> page in nodes && nodes[page] == MemNode(grp.cache, a))
  }

  lemma NewGroupMarked(s: Slab, a: nat, grp: MemGroup, nodes: map<nat, MemNode>)
    requires Marked(s) && a !in s.groups && NewPages(s, a, grp) && MarkedAlso(s, a, grp, nodes)
    ensures Marked(s.(groups := s.groups[a := grp], nodes := nodes))
  {
    hide HoldsObjects;
    forall b, page | b in s.groups && HoldsObjects(s.groups[b], b, page)
      ensures page in nodes && nodes[page] == s.nodes[page]
    {
      assert Holds(s.groups[b], b, page) && (!Holds(grp, a, page) ==> !HoldsObjects(grp, a, page));
    }
  }

  /** A new group keeps every page and mark in order and brings nothing live. */
  lemma NewGroupSound(s: Slab, a: nat, grp: MemGroup, nodes: map<nat, MemNode>)
    requires Sound(s) && a !in s.groups && PlacedRight(grp, a) && NewPages(s, a, grp) && MarkedAlso(s, a, grp, nodes)
    requires grp.usingCount == 0 && grp.freeCount == ObjectNumber(CacheSize(grp.cache))
    requires grp.map_ == seq(8 * MapBytes(grp.cache), _ => false)
    ensures var t := s.(groups := s.groups[a := grp], nodes := nodes);
      Sound(t) && forall b, i, p, n :: Slot(t, b, i, p, n) <==> Slot(s, b, i, p, n)
  {
    hide CacheSize, ObjectNumber, ObjectPages, MapBytes, DivRoundUp, Count, Holds, Marked, MarkedAlso;
    NewGroupMarked(s, a, grp, nodes);
    CountNone(grp.map_);
    GroupFits(grp.cache);
  }

  lemma AddListed(s: Slab, a: nat, grp: MemGroup, nodes: map<nat, MemNode>)
    requires Listed(s, map[]) && a !in s.groups && grp.cache < CACHES && Kind(grp) == Free
    ensures var m := s.caches[grp.cache];
      Listed(Slab(s.caches[grp.cache := m.(free := [a] + m.free)], s.groups[a := grp], nodes), map[])
  {
    hide CacheSize;
    var m, c := s.caches[grp.cache], grp.cache;
    var t := Slab(s.caches[c := m.(free := [a] + m.free)], s.groups[a := grp], nodes);
    forall d, w | 0 <= d < CACHES ensures ListRight(t, map[], d, w) {
      assert ListRight(s, map[], d, w);
      assert t.caches[d].At(w) == if d == c && w == Free then [a] + s.caches[d].At(w) else s.caches[d].At(w);
    }
  }

  lemma SettleListed(s: Slab, a: nat, w: Where)
    requires Listed(s, map[a := w]) && a in s.groups && Kind(s.groups[a]) == w
    ensures Listed(s, map[])
  {
    forall c, v | 0 <= c < CACHES ensures ListRight(s, map[], c, v) {
      assert ListRight(s, map[a := w], c, v);
    }
  }

  lemma UnsettleListed(s: Slab, a: nat, w: Where)
    requires Listed(s, map[]) && a in s.groups && Kind(s.groups[a]) == w
    ensures Listed(s, map[a := w])
  {
    forall c, v | 0 <= c < CACHES ensures ListRight(s, map[a := w], c, v) {
      assert ListRight(s, map[], c, v);
    }
  }

  lemma ToggleListed(s: Slab, a: nat, w: Where, grp: MemGroup)
    requires Listed(s, map[a := w]) && a in s.groups && grp.cache == s.groups[a].cache
    ensures Listed(s.(groups := s.groups[a := grp]), map[a := w])
  {
    var t := s.(groups := s.groups[a := grp]);
    forall c, v | 0 <= c < CACHES ensures ListRight(t, map[a := w], c, v) {
      assert ListRight(s, map[a := w], c, v);
    }
  }

  /** Everything about the first group of a free list is in that list entry. */
  lemma UnlinkFree(s: Slab, c: nat)
    requires Listed(s, map[]) && c < CACHES && |s.caches[c].free| > 0
    ensures var m := s.caches[c]; Unlinked(m, m.free[0]) == m.(free := m.free[1..])
    ensures var a := s.caches[c].free[0]; a in s.groups && s.groups[a].cache == c && s.groups[a].usingCount == 0
    ensures var m := s.caches[c]; NoRepeats(m.free) && m.free[0] !in m.free[1..]
  {
    var m := s.caches[c];
    var a := m.free[0];
    assert ListRight(s, map[], c, Free) && ListRight(s, map[], c, Partial) && ListRight(s, map[], c, Full);
    assert a in m.At(Free) && NoRepeats(m.At(Free));
    assert a !in m.At(Full) && a !in m.At(Partial);
    assert forall x :: x in m.free[1..] ==> exists i :: 1 <= i < |m.free| && m.free[i] == x;
    WithoutAbsent(m.full, a);
    WithoutAbsent(m.partial, a);
    WithoutAbsent(m.free[1..], a);
  }

  function Destroyed(s: Slab, c: nat, a: nat): Slab
    requires c < |s.caches|
  {
    s.(caches := s.caches[c := Unlinked(s.caches[c], a)], groups := s.groups - {a})
  }

  lemma DestroyValid(s: Slab, c: nat)
    requires Valid(s) && c < CACHES && |s.caches[c].free| > 0
    ensures Valid(Destroyed(s, c, s.caches[c].free[0]))
    ensures SameLive(s, Destroyed(s, c, s.caches[c].free[0]))
  {
    hide CacheSize, ObjectNumber, ObjectPages, MapBytes, DivRoundUp, Count, Holds, HoldsObjects, Unlinked, PlacedRight;
    var a := s.caches[c].free[0];
    var t := Destroyed(s, c, a);
    UnlinkFree(s, c);
    CountNone(s.groups[a].map_);
    assert forall b, i, p, n :: Slot(t, b, i, p, n) <==> Slot(s, b, i, p, n);
    DestroyListed(s, c);
  }

  lemma DestroyListed(s: Slab, c: nat)
    requires Listed(s, map[]) && c < CACHES && |s.caches[c].free| > 0
    ensures Listed(Destroyed(s, c, s.caches[c].free[0]), map[])
  {
    hide Unlinked;
    var m, a := s.caches[c], s.caches[c].free[0];
    UnlinkFree(s, c);
    var t := Destroyed(s, c, a);
    assert m.free == [a] + m.free[1..];
    assert ListRight(s, map[], c, Free) && a in m.At(Free);
    forall d, w | 0 <= d < CACHES ensures ListRight(t, map[], d, w) {
      assert ListRight(s, map[], d, w);
      assert t.caches[d].At(w) == if d == c && w == Free then m.free[1..] else s.caches[d].At(w);
      assert forall x :: x in m.free <==> x == a || x in m.free[1..];
      assert forall i :: 0 < i < |m.free| ==> m.free[1..][i - 1] == m.free[i];
    }
  }

  /** The same objects are live. */
  ghost predicate SameLive(s: Slab, t: Slab) {
    forall p, n :: Live(t, p, n) <==> Live(s, p, n)
  }

  /** Exactly the n bytes at p became live. */
  ghost predicate Gained(s: Slab, t: Slab, p: nat, n: nat) {
    && p > 0 && !(exists m :: Live(s, p, m))
    && forall q, m :: Live(t, q, m) <==> Live(s, q, m) || (q == p && m == n)
  }

  /** Exactly the object at p is no longer live. */
  ghost predicate Lost(s: Slab, t: Slab, p: nat) {
    forall q, m :: Live(t, q, m) <==> Live(s, q, m) && q != p
  }

  lemma TakeGains(s: Slab, a: nat, i: nat)
    requires Sound(s) && a in s.groups && s.groups[a].cache < |s.caches|
    requires i < s.caches[s.groups[a].cache].objectNumber <= |s.groups[a].map_|
    requires !s.groups[a].map_[i] && s.groups[a].freeCount > 0
    ensures var grp := s.groups[a]; var n := s.caches[grp.cache].objectSize;
      Gained(s, s.(groups := s.groups[a := Toggled(grp, i)]), ObjectAt(grp, i, n), n)
  {
    hide CacheSize, ObjectNumber, ObjectPages, MapBytes, DivRoundUp, Count, Toggled, Slot, Apart, Marked, HoldsObjects;
    var grp, n := s.groups[a], CacheSize(s.groups[a].cache);
    var p, t := ObjectAt(grp, i, n), s.(groups := s.groups[a := Toggled(grp, i)]);
    ToggleSound(s, a, i);
    ToggleSlots(s, a, i, a, i, p, n);
    SlotInside(t, a, i, p, n, p);
    forall b, j, q, m | b != a || j != i ensures Slot(t, b, j, q, m) <==> Slot(s, b, j, q, m) {
      ToggleSlots(s, a, i, b, j, q, m);
    }
    forall q, m ensures !Slot(s, a, i, q, m) && (Slot(t, a, i, q, m) <==> q == p && m == n) {
      ToggleSlots(s, a, i, a, i, q, m);
      NotASlot(s, a, i, q, m);
    }
    forall m | Live(s, p, m) ensures false {
      var b, j :| Slot(s, b, j, p, m);
      SlotSize(s, b, j, p, m);
      SlotsApart(t, a, i, p, n, b, j, p, m);
    }
  }

  lemma NotASlot(s: Slab, a: nat, i: nat, q: nat, m: nat)
    requires a in s.groups && i < |s.groups[a].map_| && !s.groups[a].map_[i]
    ensures !Slot(s, a, i, q, m)
  {
  }

  lemma SlotSize(s: Slab, a: nat, i: nat, q: nat, m: nat)
    requires Slot(s, a, i, q, m)
    ensures m > 0
  {
  }

  lemma GiveLoses(s: Slab, a: nat, i: nat, p: nat, n: nat)
    requires Sound(s) && Slot(s, a, i, p, n) && s.groups[a].usingCount > 0
    ensures Lost(s, s.(groups := s.groups[a := Toggled(s.groups[a], i)]), p)
  {
    hide CacheSize, ObjectNumber, ObjectPages, MapBytes, DivRoundUp, Count, Toggled, Sound;
    var t := s.(groups := s.groups[a := Toggled(s.groups[a], i)]);
    forall b, j, q, m ensures Slot(t, b, j, q, m) <==> Slot(s, b, j, q, m) && (b != a || j != i) {
      ToggleSlots(s, a, i, b, j, q, m);
    }
    forall b, j, m | Slot(s, b, j, p, m) && (b != a || j != i) ensures false {
      SlotsApart(s, a, i, p, n, b, j, p, m);
    }
    forall q, m | Live(s, q, m) && q != p ensures Live(t, q, m) {
      var b, j :| Slot(s, b, j, q, m);
      assert Slot(t, b, j, q, m);
    }
  }

  /** The group that MemGroupInit makes at address a. */
  function NewGroup(c: nat, a: nat, objectPages: nat): MemGroup
    requires c < CACHES
  {
    MemGroup(c, seq(8 * MapBytes(c), _ => false),
      if CacheSize(c) < 1024 then a + SIZEOF_MEM_GROUP + SMALL_MAP_BYTES else objectPages, 0, ObjectNumber(CacheSize(c)))
  }

  /** The page allocator gave enough to make a group. */
  predicate Enough(c: nat, page: nat, objectPages: nat)
    requires c < CACHES
  {
    page > 0 && (CacheSize(c) < 1024 || objectPages > 0)
  }

  /** What the page allocator may hand out: nothing, or pages that no group keeps. */
  ghost predicate Offered(s: Slab, c: nat, page: nat, objectPages: nat)
    requires c < CACHES
  {
    && (page > 0 ==> page !in s.groups)
    && (Enough(c, page, objectPages) ==>
      PlacedRight(NewGroup(c, page, objectPages), page) && NewPages(s, page, NewGroup(c, page, objectPages)))
  }

  lemma ValidSize(s: Slab)
    requires Valid(s)
    ensures |s.caches| == CACHES
  {
  }

  lemma NewGroupValid(s: Slab, c: nat, page: nat, objectPages: nat, nodes: map<nat, MemNode>)
    requires Valid(s) && c < CACHES && Offered(s, c, page, objectPages) && Enough(c, page, objectPages)
    requires MarkedAlso(s, page, NewGroup(c, page, objectPages), nodes)
    ensures var m := s.caches[c];
      var t := Slab(s.caches[c := m.(free := [page] + m.free)], s.groups[page := NewGroup(c, page, objectPages)], nodes);
      Valid(t) && SameLive(s, t) && |t.caches[c].free| > 0
  {
    hide CacheSize, ObjectNumber, ObjectPages, MapBytes, DivRoundUp, Count, HoldsObjects, Holds, PlacedRight,
      Listed, MarkedAlso, NewPages, Apart, Marked;
    var grp, m := NewGroup(c, page, objectPages), s.caches[c];
    var u := s.(groups := s.groups[page := grp], nodes := nodes);
    var t := u.(caches := s.caches[c := m.(free := [page] + m.free)]);
    NewGroupSound(s, page, grp, nodes);
    GroupFits(c);
    AddListed(s, page, grp, nodes);
    RelinkedSound(u, t);
    assert forall b, i, p, n :: Slot(t, b, i, p, n) <==> Slot(s, b, i, p, n) by {
      forall b, i, p, n ensures Slot(t, b, i, p, n) <==> Slot(s, b, i, p, n) {
        assert Slot(u, b, i, p, n) <==> Slot(s, b, i, p, n);
      }
    }
  }

  /** A group was linked whose page went back. */
  function Dangling(s: Slab, c: nat, page: nat): Slab
    requires c < |s.caches|
  {
    s.(caches := s.caches[c := s.caches[c].(free := [page] + s.caches[c].free)])
  }

  /** That breaks this free list and nothing else. */
  lemma StaleLink(s: Slab, c: nat, page: nat)
    requires Valid(s) && c < CACHES && page !in s.groups
    ensures var t := Dangling(s, c, page);
      && !Valid(t) && Sound(t) && SameLive(s, t)
      && forall d, w :: 0 <= d < CACHES ==> (ListRight(t, map[], d, w) <==> !(d == c && w == Free))
  {
    hide CacheSize, ObjectNumber, Kind, GroupsOk, Apart, Marked;
    var t := Dangling(s, c, page);
    assert page in t.caches[c].At(Free);
    assert !ListRight(t, map[], c, Free);
    RelinkedSound(s, t);
    RelinkedLive(s, t);
    forall d, w | 0 <= d < CACHES && !(d == c && w == Free) ensures ListRight(t, map[], d, w) {
      assert ListRight(s, map[], d, w);
      assert t.caches[d].At(w) == s.caches[d].At(w);
    }
  }

  /** Moving groups between lists leaves groups, pages and marks as they are. */
  lemma RelinkedSound(s: Slab, t: Slab)
    requires Sound(s) && Tabled(t) && t.groups == s.groups && t.nodes == s.nodes
    ensures Sound(t)
  {
    hide CacheSize, ObjectNumber, HoldsObjects, PlacedRight, Counted;
  }

  /** Some group of the class has a free object. */
  ghost predicate HasRoom(s: Slab, c: nat) {
    exists a :: a in s.groups && s.groups[a].cache == c && s.groups[a].freeCount > 0
  }

  ghost predicate HasPartlyUsed(s: Slab, c: nat) {
    exists a :: a in s.groups && s.groups[a].cache == c && s.groups[a].freeCount > 0 && s.groups[a].usingCount > 0
  }

  /** The object at p was taken from a group that was in use before. */
  ghost predicate FromUsed(s: Slab, t: Slab, p: nat, n: nat) {
    exists a, i :: Slot(t, a, i, p, n) && a in s.groups && s.groups[a].usingCount > 0
  }

  lemma PartlyUsedListed(s: Slab, c: nat)
    requires Valid(s) && c < CACHES
    ensures c < |s.caches| && (HasPartlyUsed(s, c) <==> s.caches[c].partial != [])
    ensures s.caches[c].partial != [] ==>
      s.caches[c].partial[0] in s.groups && s.groups[s.caches[c].partial[0]].usingCount > 0
  {
    hide CacheSize, ObjectNumber, Sound;
    assert ListRight(s, map[], c, Partial) && s.caches[c].At(Partial) == s.caches[c].partial;
    if a :| a in s.groups && s.groups[a].cache == c && s.groups[a].freeCount > 0 && s.groups[a].usingCount > 0 {
      assert a in s.caches[c].At(Partial);
    }
    if s.caches[c].partial != [] {
      FirstOf(s, c, Partial);
    }
  }

  /** The object at p went back: its group counts one used object less and one free object more,
      and nothing else changed in any group. */
  ghost predicate Returned(s: Slab, t: Slab, p: nat) {
    exists a, i, n :: Slot(s, a, i, p, n) && ReturnedTo(s, t, a, i)
  }

  ghost predicate ReturnedTo(s: Slab, t: Slab, a: nat, i: nat) {
    && a in s.groups && i < |s.groups[a].map_| && s.groups[a].usingCount > 0
    && t.groups == s.groups[a := s.groups[a].(map_ := s.groups[a].map_[i := false],
      usingCount := s.groups[a].usingCount - 1, freeCount := s.groups[a].freeCount + 1)]
  }

  /** A new group is needed exactly if no group of the class has a free object. */
  lemma NeedsGroupIff(s: Slab, c: nat)
    requires Valid(s) && c < CACHES
    ensures c < |s.caches| && (NeedsGroup(s, c) <==> !HasRoom(s, c))
  {
    hide CacheSize, ObjectNumber, Sound;
    assert ListRight(s, map[], c, Partial) && ListRight(s, map[], c, Free);
    assert s.caches[c].At(Partial) == s.caches[c].partial && s.caches[c].At(Free) == s.caches[c].free;
    if a :| a in s.groups && s.groups[a].cache == c && s.groups[a].freeCount > 0 {
      assert a in s.caches[c].At(Kind(s.groups[a]));
    }
    if !NeedsGroup(s, c) {
      var w := if s.caches[c].partial == [] then Free else Partial;
      FirstOf(s, c, w);
    }
  }

  predicate NeedsGroup(s: Slab, c: nat)
    requires c < |s.caches|
  {
    s.caches[c].partial == [] && s.caches[c].free == []
  }

  /** The first group of the partial or the free list has room. */
  lemma FirstOf(s: Slab, c: nat, w: Where)
    requires Valid(s) && c < CACHES && w != Full && |s.caches[c].At(w)| > 0
    ensures var a := s.caches[c].At(w)[0];
      a in s.groups && s.groups[a].cache == c && s.groups[a].freeCount > 0 && Kind(s.groups[a]) == w
  {
    assert ListRight(s, map[], c, w) && s.caches[c].At(w)[0] in s.caches[c].At(w);
  }

  lemma RelinkedLive(s: Slab, t: Slab)
    requires t.groups == s.groups
    ensures SameLive(s, t)
  {
    assert forall b, i, p, n :: Slot(t, b, i, p, n) <==> Slot(s, b, i, p, n);
  }

  lemma GainedFrom(s: Slab, t: Slab, u: Slab, v: Slab, p: nat, n: nat)
    requires SameLive(s, t) && t.groups == u.groups && Gained(u, v, p, n)
    ensures Gained(s, v, p, n)
  {
    hide Live;
    RelinkedLive(t, u);
    assert forall m :: Live(s, p, m) <==> Live(u, p, m);
  }

  function Relinked(s: Slab, a: nat, w: Where): Slab
    requires a in s.groups && s.groups[a].cache < |s.caches|
  {
    var c := s.groups[a].cache;
    s.(caches := s.caches[c := Moved(s.caches[c], a, w)])
  }

  lemma RelinkedRight(s: Slab, moved: map<nat, Where>, a: nat, w: Where)
    requires Sound(s) && Listed(s, moved) && a in s.groups && s.groups[a].cache < CACHES
    ensures Sound(Relinked(s, a, w)) && Listed(Relinked(s, a, w), moved[a := w])
    ensures SameLive(s, Relinked(s, a, w))
  {
    hide ListRight, Live, GroupsOk, Apart, Marked;
    MoveListed(s, moved, a, w);
    RelinkedSound(s, Relinked(s, a, w));
    RelinkedLive(s, Relinked(s, a, w));
  }

  function Switched(s: Slab, a: nat, i: nat): Slab
    requires a in s.groups && i < |s.groups[a].map_|
    requires (s.groups[a].map_[i] ==> s.groups[a].usingCount > 0) && (!s.groups[a].map_[i] ==> s.groups[a].freeCount > 0)
  {
    s.(groups := s.groups[a := Toggled(s.groups[a], i)])
  }

  /** The state after object i of group a, which the partial list holds, was taken. */
  function Taken(s: Slab, a: nat, i: nat): Slab
    requires a in s.groups && s.groups[a].cache < |s.caches| && i < |s.groups[a].map_|
    requires !s.groups[a].map_[i] && s.groups[a].freeCount > 0
  {
    var t := Switched(s, a, i);
    if t.groups[a].freeCount == 0 then Relinked(t, a, Full) else t
  }

  lemma TakenValid(s: Slab, a: nat, i: nat)
    requires Sound(s) && a in s.groups && s.groups[a].cache < |s.caches| && Listed(s, map[a := Partial])
    requires i < s.caches[s.groups[a].cache].objectNumber <= |s.groups[a].map_|
    requires !s.groups[a].map_[i] && s.groups[a].freeCount > 0
    ensures Valid(Taken(s, a, i))
    ensures var n := s.caches[s.groups[a].cache].objectSize; Gained(s, Taken(s, a, i), ObjectAt(s.groups[a], i, n), n)
  {
    hide CacheSize, ObjectNumber, MapBytes, Count, GroupsOk, Apart, Marked, Relinked, ListRight, Live;
    var n, t := CacheSize(s.groups[a].cache), Switched(s, a, i);
    TakeGains(s, a, i);
    ToggleSound(s, a, i);
    ToggleListed(s, a, Partial, t.groups[a]);
    if t.groups[a].freeCount == 0 {
      RelinkedRight(t, map[a := Partial], a, Full);
      assert map[a := Partial][a := Full] == map[a := Full];
      Resettled(t, a, Full);
      GainedThen(s, t, Relinked(t, a, Full), ObjectAt(s.groups[a], i, n), n);
    } else {
      SettleListed(t, a, Partial);
    }
  }

  lemma Resettled(t: Slab, a: nat, w: Where)
    requires a in t.groups && t.groups[a].cache < |t.caches| && Kind(t.groups[a]) == w
    requires Listed(Relinked(t, a, w), map[a := w])
    ensures Listed(Relinked(t, a, w), map[])
  {
    hide ListRight, Moved;
    SettleListed(Relinked(t, a, w), a, w);
  }

  lemma GainedThen(s: Slab, t: Slab, u: Slab, p: nat, n: nat)
    requires Gained(s, t, p, n) && SameLive(t, u)
    ensures Gained(s, u, p, n)
  {
    hide Live;
  }

  /** The state after object i of group a was freed. */
  function Given(s: Slab, a: nat, i: nat): Slab
    requires a in s.groups && s.groups[a].cache < |s.caches| && i < |s.groups[a].map_|
    requires s.groups[a].map_[i] && s.groups[a].usingCount > 0
  {
    var t := Switched(s, a, i);
    if t.groups[a].usingCount == 0 then Relinked(t, a, Free)
    else if s.groups[a].usingCount == s.caches[s.groups[a].cache].objectNumber then Relinked(t, a, Partial)
    else t
  }

  lemma GivenValid(s: Slab, a: nat, i: nat, p: nat, n: nat)
    requires Valid(s) && Slot(s, a, i, p, n) && s.groups[a].usingCount > 0 && s.groups[a].cache < |s.caches|
    ensures Valid(Given(s, a, i)) && Lost(s, Given(s, a, i), p)
  {
    hide CacheSize, ObjectNumber, ObjectPages, MapBytes, DivRoundUp, Count, GroupsOk, Apart, Marked, Relinked,
      ListRight, Live;
    var t, grp := Switched(s, a, i), s.groups[a];
    var was, now := Kind(grp), Kind(t.groups[a]);
    assert Counted(grp) by { GroupOk(s, a); }
    GroupFits(grp.cache);
    assert i < ObjectNumber(CacheSize(grp.cache));
    GiveLoses(s, a, i, p, n);
    ToggleSound(s, a, i);
    UnsettleListed(s, a, was);
    ToggleListed(s, a, was, t.groups[a]);
    if was == now {
      SettleListed(t, a, now);
    } else {
      RelinkedRight(t, map[a := was], a, now);
      assert map[a := was][a := now] == map[a := now];
      Resettled(t, a, now);
      LostThen(s, t, Relinked(t, a, now), p);
    }
  }

  lemma GroupOk(s: Slab, a: nat)
    requires GroupsOk(s) && a in s.groups
    ensures Counted(s.groups[a]) && PlacedRight(s.groups[a], a)
  {
  }

  lemma LostThen(s: Slab, t: Slab, u: Slab, p: nat)
    requires Lost(s, t, p) && SameLive(t, u)
    ensures Lost(s, u, p)
  {
    hide Live;
  }

  lemma IndexOf(grp: MemGroup, i: nat, n: nat)
    requires n > 0
    ensures (ObjectAt(grp, i, n) - grp.objects) / n == i
  {
    var product := i * n;
    var q, r := product / n, product % n;
    assert product == q * n + r;
    if q < i {
      SlotBounds(q, i, n);
    } else if i < q {
      SlotBounds(i, q, n);
    }
  }

  /** The mark on its page and a division lead from a live object back to its bit. */
  lemma FreeFinds(s: Slab, a: nat, i: nat, p: nat, n: nat)
    requires Valid(s) && Slot(s, a, i, p, n)
    ensures p / PAGE_SIZE in s.nodes && s.nodes[p / PAGE_SIZE] == MemNode(s.groups[a].cache, a)
    ensures p >= s.groups[a].objects && s.groups[a].cache < |s.caches| && p > 0
    ensures var size := s.caches[s.groups[a].cache].objectSize; size > 0 && (p - s.groups[a].objects) / size == i
    ensures s.groups[a].usingCount > 0
  {
    hide CacheSize, ObjectNumber, ObjectPages, MapBytes, DivRoundUp, Count, HoldsObjects, Listed;
    SlotInside(s, a, i, p, n, p);
    IndexOf(s.groups[a], i, n);
    CountNone(s.groups[a].map_);
  }

  lemma SlotBit(s: Slab, a: nat, i: nat, p: nat, n: nat)
    requires Slot(s, a, i, p, n)
    ensures a in s.groups && i < |s.groups[a].map_| && s.groups[a].map_[i]
  {
  }

  /** The object bytes in the groups on the free list. */
  function Idle(m: MemCache): nat {
    |m.free| * m.objectNumber * m.objectSize
  }

  function AllIdle(caches: seq<MemCache>): nat {
    if |caches| == 0 then 0 else AllIdle(caches[..|caches| - 1]) + Idle(caches[|caches| - 1])
  }

  lemma InTable(s: Slab, c: nat)
    requires Valid(s) && c < CACHES
    ensures c < |s.caches|
    ensures s.caches[c].objectNumber == ObjectNumber(CacheSize(c)) && s.caches[c].objectSize == CacheSize(c)
  {
  }

  lemma NoneIdle(s: Slab, c: nat)
    requires Valid(s) && c < CACHES && s.caches[c].free == []
    ensures forall a :: a in s.groups && s.groups[a].cache == c ==> s.groups[a].usingCount > 0
  {
    hide CacheSize, ObjectNumber, ObjectPages, MapBytes, DivRoundUp, Count;
    GroupFits(c);
    assert ListRight(s, map[], c, Free);
    forall a | a in s.groups && s.groups[a].cache == c ensures s.groups[a].usingCount > 0 {
      GroupOk(s, a);
      assert a !in s.caches[c].At(Free);
    }
  }

  lemma SameLiveNow(s: Slab)
    ensures SameLive(s, s)
  {
  }

  lemma SameLiveThen(s: Slab, t: Slab, u: Slab)
    requires SameLive(s, t) && SameLive(t, u)
    ensures SameLive(s, u)
  {
    hide Live;
  }

  lemma CacheOf(s: Slab, a: nat)
    requires Valid(s) && a in s.groups
    ensures s.groups[a].cache < CACHES
  {
    GroupOk(s, a);
  }

  /** The caches of the size table, all without groups. */
  function Start(): Slab {
    Slab(seq(CACHES, c requires 0 <= c < CACHES => MemCache([], [], [], CacheSize(c), ObjectNumber(CacheSize(c)))),
      map[], map[])
  }

  class MemCaches {
    var caches: seq<MemCache>
    var groups: map<nat, MemGroup>
    var nodes: map<nat, MemNode>

    ghost function State(): Slab
      reads this
    {
      Slab(caches, groups, nodes)
    }

    constructor ()
      ensures Valid(State()) && State() == Start()
    {
      caches, groups, nodes := [], map[], map[];
      new;
      var c := 0;
      while c < CACHES
        invariant c <= CACHES && |caches| == c && groups == map[] && nodes == map[]
        invariant forall k :: 0 <= k < c ==> caches[k] == MemCache([], [], [], CacheSize(k), ObjectNumber(CacheSize(k)))
      {
        caches := caches + [MemCache([], [], [], CacheSize(c), ObjectNumber(CacheSize(c)))];
        c := c + 1;
      }
      assert caches == Start().caches;
    }

    /** ListDel of a group, then ListAddTail to another list of its cache. */
    method Relink(c: nat, a: nat, w: Where)
      requires c < |caches|
      modifies this`caches
      ensures caches == old(caches)[c := Moved(old(caches)[c], a, w)]
    {
      var m := Unlinked(caches[c], a);
      caches := caches[c := m.With(w, m.At(w) + [a])];
    }

    /** MemGroupInit. The group is linked before its object pages are asked for, and stays
        linked when there are none. */
    method MemGroupInit(c: nat, group: nat, objectPages: nat) returns (ok: bool)
      requires |caches| == CACHES && c < CACHES && group > 0
      modifies this
      ensures ok <==> CacheSize(c) < 1024 || objectPages > 0
      ensures caches == old(caches)[c := old(caches)[c].(free := [group] + old(caches)[c].free)]
      ensures ok ==> groups == old(groups)[group := NewGroup(c, group, objectPages)]
      ensures ok ==> MarkedAlso(old(State()), group, NewGroup(c, group, objectPages), nodes)
      ensures !ok ==> groups == old(groups) && nodes == old(nodes)
    {
      hide ObjectNumber, DivRoundUp;
      caches := caches[c := caches[c].(free := [group] + caches[c].free)];
      var grp := NewGroup(c, group, objectPages);
      if CacheSize(c) < 1024 {
        nodes := nodes[group / PAGE_SIZE := MemNode(c, group)];
      } else {
        if objectPages == 0 {
          return false;
        }
        var i, first := 0, objectPages / PAGE_SIZE;
        while i < ObjectPages(c)
          invariant i <= ObjectPages(c)
          invariant forall page :: page in old(nodes) ==> page in nodes
          invariant forall page :: first <= page < first + i ==> page in nodes && nodes[page] == MemNode(c, group)
          invariant forall page :: page in old(nodes) && !(first <= page < first + i) ==> nodes[page] == old(nodes)[page]
          invariant groups == old(groups)
          invariant caches == old(caches)[c := old(caches)[c].(free := [group] + old(caches)[c].free)]
        {
          nodes := nodes[first + i := MemNode(c, group)];
          i := i + 1;
        }
      }
      groups := groups[group := grp];
      return true;
    }

    /** CreateMemGroup: a page for the group, then MemGroupInit; the page goes back when that fails. */
    method CreateMemGroup(c: nat, page: nat, objectPages: nat) returns (ok: bool)
      requires Valid(State()) && c < CACHES && Offered(State(), c, page, objectPages)
      modifies this
      ensures ok <==> Enough(c, page, objectPages)
      ensures page == 0 ==> State() == old(State())
      ensures ok ==> Valid(State()) && SameLive(old(State()), State()) && |caches[c].free| > 0
      ensures ok ==> groups.Keys == old(groups).Keys + {page}
      ensures !ok && page > 0 ==> State() == Dangling(old(State()), c, page) && !Valid(State())
    {
      hide CacheSize, NewPages, PlacedRight, NewGroup, MarkedAlso, SameLive, Sound, Listed;
      if page == 0 {
        return false;
      }
      ghost var s := State();
      assert |caches| == CACHES by { ValidSize(s); }
      ok := MemGroupInit(c, page, objectPages);
      if ok {
        NewGroupValid(s, c, page, objectPages, nodes);
      } else {
        StaleLink(s, c, page);
      }
    }
  
    /** Takes the first free object of a group that the partial list holds. The scan finds one
        among the objects, never in the slack bits: ScanStaysBelow. */
    method MemGroupAllocObject(c: nat, a: nat) returns (obj: nat)
      requires Sound(State()) && c < CACHES && a in groups && groups[a].cache == c && groups[a].freeCount > 0
      requires Listed(State(), map[a := Partial])
      modifies this
      ensures Valid(State()) && Gained(old(State()), State(), obj, CacheSize(c))
      ensures groups.Keys == old(groups).Keys && exists i :: Slot(State(), a, i, obj, CacheSize(c))
    {
      hide CacheSize, ObjectNumber, MapBytes, Count, Apart, Marked, PlacedRight, Listed, Gained, Moved, Unlinked;
      ghost var s := State();
      var grp := groups[a];
      assert Counted(grp);
      ScanStaysBelow(grp.map_, ObjectNumber(CacheSize(c)));
      var idx := Bitmaps.FirstClear(grp.map_);
      TakenValid(s, a, idx);
      obj := grp.objects + idx * caches[c].objectSize;
      ghost var n := CacheSize(c);
      groups := groups[a := grp.(map_ := grp.map_[idx := true],
        usingCount := grp.usingCount + 1, freeCount := grp.freeCount - 1)];
      if groups[a].freeCount == 0 {
        Relink(c, a, Full);
      }
      assert Slot(State(), a, idx, obj, n);
    }

    /** Allocates an object from the first partial group, or the first free one, or a new one. */
    method GroupAllocObject(c: nat, page: nat, objectPages: nat) returns (obj: nat)
      requires Valid(State()) && c < CACHES && Offered(State(), c, page, objectPages)
      modifies this
      ensures HasRoom(old(State()), c) ==> obj > 0 && groups.Keys == old(groups).Keys
      ensures !HasRoom(old(State()), c) ==> (obj == 0 <==> page == 0 || (CacheSize(c) >= 1024 && objectPages == 0))
      ensures !HasRoom(old(State()), c) && obj > 0 ==> groups.Keys == old(groups).Keys + {page}
      ensures HasPartlyUsed(old(State()), c) ==> FromUsed(old(State()), State(), obj, CacheSize(c))
      ensures obj == 0 && page == 0 ==> State() == old(State())
      ensures obj == 0 && page > 0 ==> State() == Dangling(old(State()), c, page) && !Valid(State())
      ensures obj > 0 ==> Valid(State()) && Gained(old(State()), State(), obj, CacheSize(c))
    {
      hide CacheSize, PlacedRight, NewPages, NewGroup, Sound, ListRight, Moved, Live, Slot, HasRoom, HasPartlyUsed;
      ghost var s := State();
      NeedsGroupIff(s, c);
      PartlyUsedListed(s, c);
      assert |caches| == CACHES by { ValidSize(s); }
      if |caches[c].partial| == 0 && |caches[c].free| == 0 {
        var ok := CreateMemGroup(c, page, objectPages);
        if !ok {
          return 0;
        }
      }
      ghost var t := State();
      assert |caches| == CACHES by { ValidSize(t); }
      var a: nat;
      if |caches[c].partial| == 0 {
        a := caches[c].free[0];
        FirstOf(t, c, Free);
        RelinkedRight(t, map[], a, Partial);
        assert map[][a := Partial] == map[a := Partial];
        Relink(c, a, Partial);
      } else {
        a := caches[c].partial[0];
        FirstOf(t, c, Partial);
        UnsettleListed(t, a, Partial);
      }
      ghost var u := State();
      obj := MemGroupAllocObject(c, a);
      GainedFrom(s, t, u, State(), obj, CacheSize(c));
    }
  
    /** An object of the smallest class that is large enough; nothing above 128 KB. */
    method Kmalloc(size: nat, page: nat, objectPages: nat) returns (obj: nat)
      requires Valid(State())
      requires size <= MAX_MEM_CACHE_SIZE ==> Offered(State(), SizeClass(size, 0), page, objectPages)
      modifies this
      ensures size > MAX_MEM_CACHE_SIZE ==> obj == 0 && State() == old(State())
      ensures size <= MAX_MEM_CACHE_SIZE ==> var c := SizeClass(size, 0);
        && (HasRoom(old(State()), c) ==> obj > 0 && groups.Keys == old(groups).Keys)
        && (!HasRoom(old(State()), c) ==> (obj == 0 <==> page == 0 || (CacheSize(c) >= 1024 && objectPages == 0)))
        && (!HasRoom(old(State()), c) && obj > 0 ==> groups.Keys == old(groups).Keys + {page})
        && (HasPartlyUsed(old(State()), c) ==> FromUsed(old(State()), State(), obj, CacheSize(c)))
        && (obj == 0 && page == 0 ==> State() == old(State()))
        && (obj == 0 && page > 0 ==> State() == Dangling(old(State()), c, page) && !Valid(State()))
        && (obj > 0 ==> Valid(State()) && Gained(old(State()), State(), obj, CacheSize(c)))
    {
      hide Valid, Gained, Offered, HasRoom, HasPartlyUsed, FromUsed;
      if size > MAX_MEM_CACHE_SIZE {
        return 0;
      }
      var c := 0;
      while CacheSize(c) < size
        invariant 0 <= c < CACHES && SizeClass(size, 0) == SizeClass(size, c)
        decreases CACHES - c
      {
        c := c + 1;
      }
      assert |caches| == CACHES by { ValidSize(State()); }
      obj := GroupAllocObject(c, page, objectPages);
    }

    method GroupFreeObject(c: nat, obj: nat, ghost a: nat, ghost i: nat, ghost n: nat)
      requires Valid(State()) && Slot(State(), a, i, obj, n) && c == groups[a].cache
      modifies this
      ensures Valid(State()) && Lost(old(State()), State(), obj) && ReturnedTo(old(State()), State(), a, i)
    {
      hide CacheSize, ObjectNumber, MapBytes, Count, Sound, Listed, Lost, Moved, Unlinked, Slot;
      ghost var s := State();
      FreeFinds(s, a, i, obj, n);
      SlotBit(s, a, i, obj, n);
      var g := nodes[obj / PAGE_SIZE].group;
      var grp := groups[g];
      var index := (obj - grp.objects) / caches[c].objectSize;
      GivenValid(s, a, i, obj, n);
      var was := grp.usingCount;
      groups := groups[g := grp.(map_ := grp.map_[index := false],
        usingCount := grp.usingCount - 1, freeCount := grp.freeCount + 1)];
      if groups[g].usingCount == 0 {
        Relink(c, g, Free);
      } else if was == caches[c].objectNumber {
        Relink(c, g, Partial);
      }
    }

    /** Takes back exactly the object at obj; the null pointer is ignored. */
    method Kfree(obj: nat)
      requires Valid(State()) && (obj > 0 ==> exists n :: Live(State(), obj, n))
      modifies this
      ensures Valid(State())
      ensures if obj == 0 then State() == old(State())
        else Lost(old(State()), State(), obj) && Returned(old(State()), State(), obj)
    {
      hide Valid, Lost, Slot;
      if obj == 0 {
        return;
      }
      ghost var n :| Live(State(), obj, n);
      ghost var a, i :| Slot(State(), a, i, obj, n);
      assert a in groups by { SlotBit(State(), a, i, obj, n); }
      FreeFinds(State(), a, i, obj, n);
      GroupFreeObject(nodes[obj / PAGE_SIZE].cache, obj, a, i, n);
    }

    /** Unlinks a group and gives its pages back. */
    method GroupDestroy(c: nat, a: nat)
      requires c < |caches|
      modifies this
      ensures State() == Destroyed(old(State()), c, a)
    {
      caches := caches[c := Unlinked(caches[c], a)];
      groups := groups - {a};
    }

    /** Destroys the groups of one free list; returns the bytes of their objects. */
    method MemCacheShrink(c: nat) returns (size: nat)
      requires Valid(State()) && c < CACHES
      modifies this
      ensures Valid(State()) && SameLive(old(State()), State())
      ensures caches == old(caches)[c := old(caches)[c].(free := [])]
      ensures size == Idle(old(caches)[c]) == |old(caches)[c].free| * ObjectNumber(CacheSize(c)) * CacheSize(c)
      ensures forall a :: a in groups <==> a in old(groups) && !(old(groups)[a].cache == c && old(groups)[a].usingCount == 0)
      ensures forall a :: a in groups ==> groups[a] == old(groups)[a]
    {
      hide CacheSize, ObjectNumber, Sound, ListRight, Live, Unlinked, Kind;
      ghost var s := State();
      var ret := 0;
      while |caches[c].free| > 0
        invariant Valid(State()) && SameLive(s, State())
        invariant |s.caches| == |caches| == CACHES
        invariant caches == s.caches[c := s.caches[c].(free := caches[c].free)]
        invariant ret + |caches[c].free| == |s.caches[c].free|
        invariant forall a :: a in groups ==> a in s.groups && groups[a] == s.groups[a]
        invariant forall a :: a in s.groups && a !in groups ==> s.groups[a].cache == c && s.groups[a].usingCount == 0
        decreases |caches[c].free|
      {
        UnlinkFree(State(), c);
        DestroyValid(State(), c);
        GroupDestroy(c, caches[c].free[0]);
        ret := ret + 1;
      }
      NoneIdle(State(), c);
      InTable(s, c);
      return ret * caches[c].objectNumber * caches[c].objectSize;
    }

    /** Destroys every group without objects in use and no other; nothing live changes. */
    method Kmshrink() returns (size: nat)
      requires Valid(State())
      modifies this
      ensures Valid(State()) && SameLive(old(State()), State())
      ensures size == AllIdle(old(caches))
      ensures forall a :: a in groups <==> a in old(groups) && old(groups)[a].usingCount > 0
      ensures forall a :: a in groups ==> groups[a] == old(groups)[a]
    {
      hide Sound, Listed, SameLive;
      ghost var s := State();
      SameLiveNow(s);
      ValidSize(s);
      var c := 0;
      size := 0;
      while c < CACHES
        invariant c <= CACHES == |caches| == |s.caches|
        invariant Valid(State()) && SameLive(s, State())
        invariant size == AllIdle(s.caches[..c]) && caches[c..] == s.caches[c..]
        invariant forall a :: a in groups <==> a in s.groups && !(s.groups[a].cache < c && s.groups[a].usingCount == 0)
        invariant forall a :: a in groups ==> groups[a] == s.groups[a]
      {
        ghost var t := State();
        assert caches[c] == caches[c..][0] == s.caches[c];
        assert s.caches[..c + 1][..c] == s.caches[..c];
        var freed := MemCacheShrink(c);
        SameLiveThen(s, t, State());
        size := size + freed;
        c := c + 1;
      }
      assert s.caches[..c] == s.caches;
      forall a | a in s.groups ensures s.groups[a].cache < CACHES {
        CacheOf(s, a);
      }
    }
  }
}
