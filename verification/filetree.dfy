/** The state of a mounted BOFS file system as a value, and what keeps its block trees in
    order. The operations of src/fs/bofs/inode.c appear here as functions on that value;
    the methods of module Bofs carry them out on the disk. */
module FileTree {
  import opened Basics
  import opened BlockDevices
  import opened BlockTree
  import opened InodeTable
  import B = Bitmaps

  /** Where the regions of the file system lie, in blocks. The first `reserved` bits of the
      sector bitmap are set when the file system is made and never freed. */
  datatype Geometry = Geometry(inodeTableLba: nat, dataStart: nat, reserved: nat)

  /** Disk contents, sector bitmap, in-core inodes, and the owner of each allocated block. */
  datatype FS = FS(mem: seq<Block>, used: seq<bool>, inodes: seq<Inode>, owner: map<nat, Pos>)

  predicate InTree(fs: FS, p: Pos) {
    p.ino < |fs.inodes| && |p.idxs| <= Depth(p.slot)
  }

  /** The LBA stored at a position, 0 when nothing is there. */
  function Node(fs: FS, p: Pos): word
    requires InTree(fs, p)
    decreases |p.idxs|
  {
    if p.idxs == [] then fs.inodes[p.ino].blocks[p.slot]
    else
      var n := Node(fs, Parent(p));
      if n == 0 || n >= |fs.mem| then 0 else Word(fs.mem[n], Last(p))
  }

  function TableLba(g: Geometry, i: Inode): nat {
    g.inodeTableLba + i.id / INODE_NR_IN_SECTOR
  }

  /** The regions fit the disk, and inodes are distinct and lie inside the inode table. */
  ghost predicate Shape(fs: FS, g: Geometry) {
    && 0 < g.dataStart && g.dataStart + |fs.used| <= |fs.mem| <= WORD_LIMIT
    && g.reserved <= |fs.used|
    && (forall k :: 0 <= k < |fs.inodes| ==> TableLba(g, fs.inodes[k]) < g.dataStart)
    && (forall j, k :: 0 <= j < k < |fs.inodes| ==> fs.inodes[j].id != fs.inodes[k].id)
  }

  /** Every block in use belongs to exactly one place of one tree, and the bitmap marks the
      reserved prefix and the blocks in use and nothing else. */
  ghost predicate Wf(fs: FS, g: Geometry) {
    TreeOk(fs, g) && BitmapExact(fs, g)
  }

  ghost predicate TreeOk(fs: FS, g: Geometry) {
    Shape(fs, g) && NodesKnown(fs) && OwnersReal(fs, g)
  }

  ghost predicate NodesKnown(fs: FS) {
    forall p :: InTree(fs, p) && Node(fs, p) != 0 ==> Node(fs, p) in fs.owner && fs.owner[Node(fs, p)] == p
  }

  ghost predicate OwnersReal(fs: FS, g: Geometry) {
    forall l :: l in fs.owner ==> Owned(fs, g, l)
  }

  ghost predicate BitmapExact(fs: FS, g: Geometry) {
    forall i :: 0 <= i < |fs.used| ==> (fs.used[i] <==> i < g.reserved || g.dataStart + i in fs.owner)
  }

  ghost predicate Owned(fs: FS, g: Geometry, l: nat)
    requires l in fs.owner
  {
    && g.dataStart + g.reserved <= l < g.dataStart + |fs.used|
    && InTree(fs, fs.owner[l]) && Node(fs, fs.owner[l]) == l
  }

  lemma OwnerUnique(fs: FS, g: Geometry, p: Pos)
    requires TreeOk(fs, g) && InTree(fs, p) && Node(fs, p) != 0
    ensures Node(fs, p) in fs.owner && fs.owner[Node(fs, p)] == p
    ensures g.dataStart + g.reserved <= Node(fs, p) < g.dataStart + |fs.used| <= |fs.mem|
  {
    assert Owned(fs, g, Node(fs, p));
  }

  /** What Wf says without the auxiliary owner table: two places never share a block, ... */
  lemma NoSharing(fs: FS, g: Geometry, p: Pos, q: Pos)
    requires Wf(fs, g) && InTree(fs, p) && InTree(fs, q)
    requires Node(fs, p) == Node(fs, q) != 0
    ensures p == q
  {
    OwnerUnique(fs, g, p);
    OwnerUnique(fs, g, q);
  }

  /** ... and beyond the reserved prefix a bit is set exactly when some place of some tree
      holds its block. */
  lemma MarkedIffReachable(fs: FS, g: Geometry, i: nat)
    requires Wf(fs, g) && g.reserved <= i < |fs.used|
    ensures fs.used[i] <==> exists p :: InTree(fs, p) && Node(fs, p) == g.dataStart + i
  {
    var l := g.dataStart + i;
    if fs.used[i] {
      assert Owned(fs, g, l);
      assert InTree(fs, fs.owner[l]) && Node(fs, fs.owner[l]) == l;
    }
    if p :| InTree(fs, p) && Node(fs, p) == l {
      OwnerUnique(fs, g, p);
    }
  }

  // ---------- frames ----------

  /** Two states whose inodes have the same block pointers and whose index blocks agree have
      the same tree. Data blocks and metadata may differ. */
  ghost predicate SameIndex(fs: FS, fs': FS) {
    && |fs'.mem| == |fs.mem| && |fs'.inodes| == |fs.inodes|
    && (forall k :: 0 <= k < |fs.inodes| ==> fs'.inodes[k].blocks == fs.inodes[k].blocks)
    && (forall l :: l in fs.owner && l < |fs.mem| && !IsData(fs.owner[l]) ==> fs'.mem[l] == fs.mem[l])
  }

  lemma {:induction false} NodeFrame(fs: FS, g: Geometry, fs': FS, p: Pos)
    requires TreeOk(fs, g) && SameIndex(fs, fs') && InTree(fs, p)
    ensures Node(fs', p) == Node(fs, p)
    decreases |p.idxs|
  {
    if p.idxs != [] {
      NodeFrame(fs, g, fs', Parent(p));
      assert InTree(fs, Parent(p));
    }
  }

  lemma TreeFrame(fs: FS, g: Geometry, fs': FS)
    requires TreeOk(fs, g) && SameIndex(fs, fs') && Shape(fs', g)
    requires fs'.used == fs.used && fs'.owner == fs.owner
    ensures TreeOk(fs', g)
    ensures forall p :: InTree(fs, p) ==> Node(fs', p) == Node(fs, p)
  {
    forall p | InTree(fs, p)
      ensures Node(fs', p) == Node(fs, p)
    {
      NodeFrame(fs, g, fs', p);
    }
    forall l | l in fs'.owner
      ensures Owned(fs', g, l)
    {
      assert Owned(fs, g, l);
    }
  }

  lemma WfFrame(fs: FS, g: Geometry, fs': FS)
    requires Wf(fs, g) && SameIndex(fs, fs') && Shape(fs', g)
    requires fs'.used == fs.used && fs'.owner == fs.owner
    ensures Wf(fs', g)
    ensures forall p :: InTree(fs, p) ==> Node(fs', p) == Node(fs, p)
  {
    TreeFrame(fs, g, fs');
  }

  // ---------- growing ----------

  /** fs' is fs after block l, free until now, was cleared and hung at the empty place p. */
  ghost predicate Attached(fs: FS, g: Geometry, fs': FS, p: Pos, l: nat) {
    && Wf(fs, g) && InTree(fs, p) && Node(fs, p) == 0
    && (p.idxs != [] ==> Node(fs, Parent(p)) != 0)
    && g.dataStart <= l < g.dataStart + |fs.used| && !fs.used[l - g.dataStart]
    && fs'.used == fs.used[l - g.dataStart := true] && fs'.owner == fs.owner[l := p]
    && |fs'.mem| == |fs.mem| && fs'.mem[l] == ZeroBlock()
    && if p.idxs == [] then
         && fs'.inodes == fs.inodes[p.ino := fs.inodes[p.ino].(blocks := fs.inodes[p.ino].blocks[p.slot := l])]
         && forall k :: g.dataStart <= k < |fs.mem| && k != l ==> fs'.mem[k] == fs.mem[k]
       else
         var cur := Node(fs, Parent(p));
         && fs'.inodes == fs.inodes && cur < |fs.mem|
         && (forall j: ptr :: Word(fs'.mem[cur], j) == if j == Last(p) then l else Word(fs.mem[cur], j))
         && forall k :: g.dataStart <= k < |fs.mem| && k != l && k != cur ==> fs'.mem[k] == fs.mem[k]
  }

  /** What attaching does to the pointers in the index blocks already there. */
  ghost predicate Repointed(fs: FS, fs': FS, p: Pos, l: word) {
    forall r: Pos, i: ptr :: InTree(fs, Child(r, i)) && r != p && Node(fs, r) != 0 ==>
      Node(fs, r) < |fs.mem| == |fs'.mem| &&
      Word(fs'.mem[Node(fs, r)], i) == if Child(r, i) == p then l else Word(fs.mem[Node(fs, r)], i)
  }

  lemma AttachRepoints(fs: FS, g: Geometry, fs': FS, p: Pos, l: nat)
    requires Attached(fs, g, fs', p, l)
    ensures Repointed(fs, fs', p, l)
  {
    forall r: Pos, i: ptr | InTree(fs, Child(r, i)) && r != p && Node(fs, r) != 0
      ensures Node(fs, r) < |fs.mem| == |fs'.mem|
      ensures Word(fs'.mem[Node(fs, r)], i) == if Child(r, i) == p then l else Word(fs.mem[Node(fs, r)], i)
    {
      assert InTree(fs, r);
      OwnerUnique(fs, g, r);
      assert Child(r, i) == p <==> p.idxs != [] && r == Parent(p) && i == Last(p);
      if p.idxs != [] {
        OwnerUnique(fs, g, Parent(p));
      }
    }
  }

  lemma {:induction false} NodeAfterRepoint(fs: FS, fs': FS, p: Pos, l: word, q: Pos)
    requires Repointed(fs, fs', p, l) && |fs'.inodes| == |fs.inodes|
    requires forall ino: nat, s: slot :: ino < |fs.inodes| ==>
      fs'.inodes[ino].blocks[s] == if Pos(ino, s, []) == p then l else fs.inodes[ino].blocks[s]
    requires l < |fs'.mem| && fs'.mem[l] == ZeroBlock() && InTree(fs, p) && Node(fs, p) == 0 && InTree(fs, q)
    requires p.idxs != [] ==> Node(fs, Parent(p)) != 0
    ensures Node(fs', q) == if q == p then l else Node(fs, q)
    decreases |q.idxs|
  {
    hide Word;
    if q.idxs != [] {
      var r := Parent(q);
      NodeAfterRepoint(fs, fs', p, l, r);
      assert q == Child(r, Last(q));
      if r == p {
        WordOfZeroBlock(Last(q));
        return;
      }
      if Node(fs, r) != 0 {
        assert InTree(fs, Child(r, Last(q)));
      }
      return;
    } else {
      assert q == Pos(q.ino, q.slot, []);
    }
  }

  lemma NodeAfterAttach(fs: FS, g: Geometry, fs': FS, p: Pos, l: nat)
    requires Attached(fs, g, fs', p, l)
    ensures forall q :: InTree(fs, q) ==> Node(fs', q) == if q == p then l else Node(fs, q)
  {
    AttachRepoints(fs, g, fs', p, l);
    forall q | InTree(fs, q)
      ensures Node(fs', q) == if q == p then l else Node(fs, q)
    {
      NodeAfterRepoint(fs, fs', p, l, q);
    }
  }

  lemma ShapeAfterAttach(fs: FS, g: Geometry, fs': FS, p: Pos, l: nat)
    requires Attached(fs, g, fs', p, l)
    ensures Shape(fs', g)
  {
    forall k | 0 <= k < |fs.inodes|
      ensures fs'.inodes[k].id == fs.inodes[k].id
    {
    }
  }

  lemma OwnersAfterAttach(fs: FS, g: Geometry, fs': FS, p: Pos, l: nat)
    requires Attached(fs, g, fs', p, l) && l - g.dataStart >= g.reserved
    ensures OwnersReal(fs', g) && NodesKnown(fs')
  {
    NodeAfterAttach(fs, g, fs', p, l);
    assert l !in fs.owner;
    forall k | k in fs'.owner
      ensures Owned(fs', g, k)
    {
      if k != l {
        assert Owned(fs, g, k);
      }
    }
    forall q | InTree(fs', q) && Node(fs', q) != 0
      ensures Node(fs', q) in fs'.owner && fs'.owner[Node(fs', q)] == q
    {
      assert InTree(fs, q);
    }
  }

  lemma BitmapAfterAttach(fs: FS, g: Geometry, fs': FS, p: Pos, l: nat)
    requires Attached(fs, g, fs', p, l)
    ensures BitmapExact(fs', g)
  {
    forall i | 0 <= i < |fs'.used|
      ensures fs'.used[i] <==> i < g.reserved || g.dataStart + i in fs'.owner
    {
      assert fs.used[i] <==> i < g.reserved || g.dataStart + i in fs.owner;
    }
  }

  lemma WfAfterAttach(fs: FS, g: Geometry, fs': FS, p: Pos, l: nat)
    requires Attached(fs, g, fs', p, l)
    ensures Wf(fs', g)
  {
    assert l - g.dataStart >= g.reserved by {
      assert BitmapExact(fs, g);
      assert !fs.used[l - g.dataStart];
    }
    ShapeAfterAttach(fs, g, fs', p, l);
    OwnersAfterAttach(fs, g, fs', p, l);
    BitmapAfterAttach(fs, g, fs', p, l);
  }

  // ---------- the operations that look blocks up and add missing ones ----------

  /** Takes the lowest free bit, clears its block and records it for place p; (fs, 0) when
      the bitmap is full. */
  ghost function AllocOneSector(fs: FS, g: Geometry, p: Pos): (r: (FS, word))
    requires Shape(fs, g)
    ensures Shape(r.0, g)
  {
    var idx := B.FirstClear(fs.used);
    if idx == -1 then (fs, 0)
    else
      var l := g.dataStart + idx;
      (fs.(used := fs.used[idx := true], mem := fs.mem[l := ZeroBlock()], owner := fs.owner[l := p]), l)
  }

  ghost function PutBlock(fs: FS, l: nat, b: Block): FS
    requires l < |fs.mem|
  {
    fs.(mem := fs.mem[l := b])
  }

  ghost function SetRoot(fs: FS, ino: nat, s: slot, w: word): FS
    requires ino < |fs.inodes|
  {
    fs.(inodes := fs.inodes[ino := fs.inodes[ino].(blocks := fs.inodes[ino].blocks[s := w])])
  }

  ghost function SyncInode(fs: FS, g: Geometry, ino: nat): (r: FS)
    requires Shape(fs, g) && ino < |fs.inodes|
    ensures Shape(r, g)
  {
    var i := fs.inodes[ino];
    var lba := TableLba(g, i);
    fs.(mem := fs.mem[lba := PutInode(fs.mem[lba], i.id % INODE_NR_IN_SECTOR, i)])
  }

  /** The block pointer i of the index block `cur` at place p leads to, added if missing;
      (fs, 0) when no free block is left. */
  ghost function ChildOrNew(fs: FS, g: Geometry, p: Pos, cur: nat, i: ptr): (r: (FS, word))
    requires Shape(fs, g) && cur < |fs.mem|
    ensures Shape(r.0, g)
  {
    var child := Word(fs.mem[cur], i);
    if child != 0 then (fs, child)
    else
      var (fs1, l) := AllocOneSector(fs, g, Child(p, i));
      if l == 0 then (fs, 0) else (PutBlock(fs1, cur, PutWord(fs.mem[cur], i, l)), l)
  }

  /** From the index block `cur` at place p down the given indices. */
  ghost function Descend(fs: FS, g: Geometry, p: Pos, cur: nat, idxs: seq<ptr>): (r: (FS, word))
    requires Shape(fs, g) && cur < |fs.mem| && idxs != []
    ensures Shape(r.0, g)
    decreases |idxs|
  {
    var (fs1, l) := ChildOrNew(fs, g, p, cur, idxs[0]);
    if l == 0 || |idxs| == 1 then (fs1, l)
    else if l >= |fs1.mem| then (fs1, 0)
    else Descend(fs1, g, Child(p, idxs[0]), l, idxs[1..])
  }

  lemma DescendStep(fs: FS, g: Geometry, p: Pos, cur: nat, i: ptr, idxs: seq<ptr>)
    requires Shape(fs, g) && cur < |fs.mem|
    ensures var (fs1, l) := ChildOrNew(fs, g, p, cur, i);
      Descend(fs, g, p, cur, [i] + idxs) ==
        if l == 0 || idxs == [] then (fs1, l)
        else if l >= |fs1.mem| then (fs1, 0)
        else Descend(fs1, g, Child(p, i), l, idxs)
  {
    assert ([i] + idxs)[1..] == idxs;
  }

  ghost function GetRoot(fs: FS, g: Geometry, ino: nat, s: slot): (r: (FS, word))
    requires Shape(fs, g) && ino < |fs.inodes|
    ensures Shape(r.0, g)
  {
    if fs.inodes[ino].blocks[s] != 0 then (fs, fs.inodes[ino].blocks[s])
    else
      var (fs1, l) := AllocOneSector(fs, g, Pos(ino, s, []));
      if l == 0 then (fs, 0) else (SyncInode(SetRoot(fs1, ino, s, l), g, ino), l)
  }

  /** The block at a data position: its root pointer, then down its index blocks. */
  ghost function GetAt(fs: FS, g: Geometry, p: Pos): (r: (FS, word))
    requires Shape(fs, g) && p.ino < |fs.inodes|
  {
    var (fs1, l) := GetRoot(fs, g, p.ino, p.slot);
    if l == 0 || p.idxs == [] then (fs1, l)
    else if l >= |fs1.mem| then (fs1, 0)
    else Descend(fs1, g, Pos(p.ino, p.slot, []), l, p.idxs)
  }

  ghost function GetInodeData(fs: FS, g: Geometry, ino: nat, index: nat): (r: (FS, word))
    requires Shape(fs, g) && ino < |fs.inodes|
  {
    if index >= BLOCK_LV3 then (fs, 0) else GetAt(fs, g, IndexPos(ino, index))
  }

  // ---------- what they keep ----------

  /** The data block at a place; a hole reads as zeroes. */
  function DataBlock(fs: FS, p: Pos): Block
    requires InTree(fs, p)
  {
    if Node(fs, p) == 0 || Node(fs, p) >= |fs.mem| then ZeroBlock() else fs.mem[Node(fs, p)]
  }

  /** fs' is fs with some blocks added on the way to t: no pointer moved, no byte of any file
      changed. */
  ghost predicate Extends(fs: FS, fs': FS, t: Pos) {
    && |fs'.inodes| == |fs.inodes| && |fs'.mem| == |fs.mem| && |fs'.used| == |fs.used|
    && (forall k :: 0 <= k < |fs.inodes| ==> fs'.inodes[k] == fs.inodes[k].(blocks := fs'.inodes[k].blocks))
    && (forall p :: InTree(fs, p) && Node(fs, p) != 0 ==> Node(fs', p) == Node(fs, p))
    && (forall p :: InTree(fs, p) && !OnPath(p, t) ==> Node(fs', p) == Node(fs, p))
    && (forall p :: InTree(fs, p) && IsData(p) ==> DataBlock(fs', p) == DataBlock(fs, p))
  }

  lemma ExtendsTransitive(a: FS, b: FS, c: FS, t: Pos)
    requires Extends(a, b, t) && Extends(b, c, t)
    ensures Extends(a, c, t)
  {
    assert forall p :: InTree(a, p) ==> InTree(b, p);
  }

  lemma DataAfterAttach(fs: FS, g: Geometry, fs': FS, p: Pos, l: nat, q: Pos)
    requires Attached(fs, g, fs', p, l) && InTree(fs, q) && IsData(q)
    requires Node(fs', q) == if q == p then l else Node(fs, q)
    ensures DataBlock(fs', q) == DataBlock(fs, q)
  {
    if q != p && Node(fs, q) != 0 {
      OwnerUnique(fs, g, q);
      if p.idxs != [] {
        OwnerUnique(fs, g, Parent(p));
        assert q != Parent(p);
      }
    }
  }

  lemma AttachExtends(fs: FS, g: Geometry, fs': FS, p: Pos, l: nat, t: Pos)
    requires Attached(fs, g, fs', p, l) && OnPath(p, t)
    ensures Extends(fs, fs', t)
  {
    NodeAfterAttach(fs, g, fs', p, l);
    forall q | InTree(fs, q) && IsData(q)
      ensures DataBlock(fs', q) == DataBlock(fs, q)
    {
      DataAfterAttach(fs, g, fs', p, l, q);
    }
  }

  /** Is the table entry of inode k what the kernel holds in memory? */
  ghost predicate OnDisk(fs: FS, g: Geometry, k: nat)
    requires Shape(fs, g) && k < |fs.inodes|
  {
    var i := fs.inodes[k];
    GetInode(fs.mem[TableLba(g, i)], i.id % INODE_NR_IN_SECTOR) == i
  }

  /** No inode that was on disk as it is in memory has ceased to be. */
  ghost predicate TableKept(fs: FS, fs': FS, g: Geometry) {
    && Shape(fs, g) && Shape(fs', g) && |fs'.inodes| == |fs.inodes|
    && forall k :: 0 <= k < |fs.inodes| && OnDisk(fs, g, k) ==> OnDisk(fs', g, k)
  }

  ghost predicate SameTable(fs: FS, fs': FS, g: Geometry) {
    && |fs'.mem| == |fs.mem| && g.dataStart <= |fs.mem|
    && fs'.mem[..g.dataStart] == fs.mem[..g.dataStart] && fs'.inodes == fs.inodes
  }

  lemma SameTableKept(fs: FS, fs': FS, g: Geometry)
    requires Shape(fs, g) && Shape(fs', g) && SameTable(fs, fs', g)
    ensures TableKept(fs, fs', g)
  {
    forall k | 0 <= k < |fs.inodes| && OnDisk(fs, g, k)
      ensures OnDisk(fs', g, k)
    {
      var lba := TableLba(g, fs.inodes[k]);
      assert fs'.mem[..g.dataStart][lba] == fs.mem[..g.dataStart][lba];
    }
  }

  /** Writing an inode to its table entry puts it on disk, leaves the entries of the other
      inodes and every tree alone. */
  lemma SyncInodeKeeps(fs: FS, g: Geometry, ino: nat)
    requires Shape(fs, g) && ino < |fs.inodes|
    ensures var r := SyncInode(fs, g, ino);
      && OnDisk(r, g, ino) && forall k :: 0 <= k < |fs.inodes| && k != ino && OnDisk(fs, g, k) ==> OnDisk(r, g, k)
  {
    hide PutInode, GetInode;
    var i := fs.inodes[ino];
    var r := SyncInode(fs, g, ino);
    GetPutInode(fs.mem[TableLba(g, i)], i.id % INODE_NR_IN_SECTOR, i, i.id % INODE_NR_IN_SECTOR);
    forall k | 0 <= k < |fs.inodes| && k != ino && OnDisk(fs, g, k)
      ensures OnDisk(r, g, k)
    {
      var j := fs.inodes[k];
      assert i.id != j.id;
      if TableLba(g, j) == TableLba(g, i) {
        GetPutInode(fs.mem[TableLba(g, i)], i.id % INODE_NR_IN_SECTOR, i, j.id % INODE_NR_IN_SECTOR);
      }
    }
  }

  /** Where an inode is looked for by its number, the inode written back is found; every other record
      of the table, and every other block, is what it was. */
  lemma SyncInodeStores(fs: FS, g: Geometry, ino: nat)
    requires Shape(fs, g) && ino < |fs.inodes|
    ensures var i, r := fs.inodes[ino], SyncInode(fs, g, ino); var l := g.inodeTableLba + i.id / INODE_NR_IN_SECTOR;
      && |r.mem| == |fs.mem| && l < g.dataStart
      && GetInode(r.mem[l], i.id % INODE_NR_IN_SECTOR) == i
      && (forall k :: 0 <= k < |fs.mem| && k != l ==> r.mem[k] == fs.mem[k])
      && (forall j :: 0 <= j < INODE_NR_IN_SECTOR && j != i.id % INODE_NR_IN_SECTOR ==>
        GetInode(r.mem[l], j) == GetInode(fs.mem[l], j))
      && r.inodes == fs.inodes && r.used == fs.used && r.owner == fs.owner
  {
    hide PutInode, GetInode;
    var i := fs.inodes[ino];
    var k := i.id % INODE_NR_IN_SECTOR;
    forall j | 0 <= j < INODE_NR_IN_SECTOR
      ensures GetInode(PutInode(fs.mem[TableLba(g, i)], k, i), j) ==
        if j == k then i else GetInode(fs.mem[TableLba(g, i)], j)
    {
      GetPutInode(fs.mem[TableLba(g, i)], k, i, j);
    }
  }

  lemma SyncInodeTree(fs: FS, g: Geometry, ino: nat)
    requires TreeOk(fs, g) && ino < |fs.inodes|
    ensures var r := SyncInode(fs, g, ino);
      && TreeOk(r, g) && (forall p :: InTree(fs, p) ==> Node(r, p) == Node(fs, p))
      && (forall p :: InTree(fs, p) && IsData(p) ==> DataBlock(r, p) == DataBlock(fs, p))
  {
    var r := SyncInode(fs, g, ino);
    assert SameIndex(fs, r) by {
      forall l | l in fs.owner && l < |fs.mem|
        ensures r.mem[l] == fs.mem[l]
      {
        assert Owned(fs, g, l);
      }
    }
    TreeFrame(fs, g, r);
    forall p | InTree(fs, p) && IsData(p)
      ensures DataBlock(r, p) == DataBlock(fs, p)
    {
      if Node(fs, p) != 0 {
        OwnerUnique(fs, g, p);
      }
    }
  }

  lemma SyncInodeWf(fs: FS, g: Geometry, ino: nat)
    requires Wf(fs, g) && ino < |fs.inodes|
    ensures var r := SyncInode(fs, g, ino);
      && Wf(r, g) && (forall p :: InTree(fs, p) ==> Node(r, p) == Node(fs, p))
      && (forall p :: InTree(fs, p) && IsData(p) ==> DataBlock(r, p) == DataBlock(fs, p))
  {
    SyncInodeTree(fs, g, ino);
  }

  // ---------- correctness of the lookup ----------

  /** What a lookup towards place t may do: blocks are added on the way, if there are any
      left; it fails only when there are none. */
  ghost predicate LookedUp(fs: FS, g: Geometry, r: (FS, word), t: Pos) {
    && Wf(r.0, g) && Extends(fs, r.0, t) && TableKept(fs, r.0, g)
    && InTree(r.0, t)
    && Node(r.0, t) == r.1
    && (r.1 == 0 ==> B.FirstClear(r.0.used) == -1)
  }

  lemma AllocUnderIndex(fs: FS, g: Geometry, p: Pos, cur: nat, i: ptr)
    requires Wf(fs, g) && InTree(fs, p) && InTree(fs, Child(p, i)) && Node(fs, p) == cur != 0 && cur < |fs.mem|
    requires Word(fs.mem[cur], i) == 0 && B.FirstClear(fs.used) >= 0
    ensures var (fs1, l) := AllocOneSector(fs, g, Child(p, i));
      l < |fs.mem| && l != 0 && Attached(fs, g, PutBlock(fs1, cur, PutWord(fs.mem[cur], i, l)), Child(p, i), l)
      && SameTable(fs, PutBlock(fs1, cur, PutWord(fs.mem[cur], i, l)), g)
  {
    var c := Child(p, i);
    assert Parent(c) == p;
    OwnerUnique(fs, g, p);
    var (fs1, l) := AllocOneSector(fs, g, c);
    assert l != cur;
    forall j: ptr
      ensures Word(PutWord(fs.mem[cur], i, l), j) == if j == i then l else Word(fs.mem[cur], j)
    {
      WordOfPutWord(fs.mem[cur], i, l, j);
    }
  }

  lemma AllocAtRoot(fs: FS, g: Geometry, ino: nat, s: slot)
    requires Wf(fs, g) && ino < |fs.inodes| && fs.inodes[ino].blocks[s] == 0 && B.FirstClear(fs.used) >= 0
    ensures var (fs1, l) := AllocOneSector(fs, g, Pos(ino, s, []));
      l != 0 && Attached(fs, g, SetRoot(fs1, ino, s, l), Pos(ino, s, []), l)
  {
  }

  lemma ChildOrNewLooksUp(fs: FS, g: Geometry, p: Pos, cur: nat, i: ptr, t: Pos)
    requires Wf(fs, g) && InTree(fs, p) && InTree(fs, Child(p, i)) && Node(fs, p) == cur != 0 && cur < |fs.mem|
    requires OnPath(Child(p, i), t)
    ensures var r := ChildOrNew(fs, g, p, cur, i);
      && Wf(r.0, g) && Extends(fs, r.0, t) && TableKept(fs, r.0, g)
      && |r.0.mem| == |fs.mem| && |r.0.inodes| == |fs.inodes|
      && Node(r.0, Child(p, i)) == r.1 < |fs.mem|
      && (r.1 == 0 ==> B.FirstClear(r.0.used) == -1)
  {
    var c := Child(p, i);
    assert Parent(c) == p;
    assert Node(fs, c) == Word(fs.mem[cur], i);
    if Word(fs.mem[cur], i) != 0 {
      OwnerUnique(fs, g, c);
    } else if B.FirstClear(fs.used) >= 0 {
      AllocUnderIndex(fs, g, p, cur, i);
      var (fs1, l) := AllocOneSector(fs, g, c);
      var fs2 := PutBlock(fs1, cur, PutWord(fs.mem[cur], i, l));
      WfAfterAttach(fs, g, fs2, c, l);
      NodeAfterAttach(fs, g, fs2, c, l);
      AttachExtends(fs, g, fs2, c, l, t);
      SameTableKept(fs, fs2, g);
    }
  }

  lemma ThenLookedUp(fs: FS, g: Geometry, fs1: FS, r: (FS, word), t: Pos)
    requires InTree(fs, t) && Extends(fs, fs1, t) && TableKept(fs, fs1, g) && LookedUp(fs1, g, r, t)
    ensures LookedUp(fs, g, r, t)
  {
    ExtendsTransitive(fs, fs1, r.0, t);
  }

  lemma LastStepLooksUp(fs: FS, g: Geometry, p: Pos, cur: nat, i: ptr)
    requires Wf(fs, g) && InTree(fs, p) && InTree(fs, Child(p, i)) && Node(fs, p) == cur != 0 && cur < |fs.mem|
    ensures LookedUp(fs, g, ChildOrNew(fs, g, p, cur, i), Child(p, i))
  {
    ChildOrNewLooksUp(fs, g, p, cur, i, Child(p, i));
  }

  lemma {:induction false} DescendLooksUp(fs: FS, g: Geometry, p: Pos, cur: nat, idxs: seq<ptr>, t: Pos)
    requires Wf(fs, g) && InTree(fs, p) && Node(fs, p) == cur != 0 && cur < |fs.mem|
    requires idxs != [] && t == p.(idxs := p.idxs + idxs) && InTree(fs, t)
    ensures LookedUp(fs, g, Descend(fs, g, p, cur, idxs), t)
    decreases |idxs|
  {
    hide Wf, Extends, TableKept, Node, Word;
    var i, c := idxs[0], Child(p, idxs[0]);
    assert c.idxs + idxs[1..] == t.idxs;
    if |idxs| == 1 {
      assert c == t;
      LastStepLooksUp(fs, g, p, cur, i);
    } else {
      assert OnPath(c, t);
      ChildOrNewLooksUp(fs, g, p, cur, i, t);
      var (fs1, l) := ChildOrNew(fs, g, p, cur, i);
      if l != 0 {
        DescendLooksUp(fs1, g, c, l, idxs[1..], t);
        ThenLookedUp(fs, g, fs1, Descend(fs1, g, c, l, idxs[1..]), t);
      } else {
        NothingBelowHole(fs1, c, t);
      }
    }
  }

  lemma NewRootLooksUp(fs: FS, g: Geometry, ino: nat, s: slot, t: Pos)
    requires Wf(fs, g) && ino < |fs.inodes| && InTree(fs, t) && OnPath(Pos(ino, s, []), t)
    requires fs.inodes[ino].blocks[s] == 0 && B.FirstClear(fs.used) >= 0
    ensures var (fs1, l) := AllocOneSector(fs, g, Pos(ino, s, []));
      var fs2 := SetRoot(fs1, ino, s, l);
      && Wf(fs2, g) && Extends(fs, fs2, t)
      && Node(fs2, Pos(ino, s, [])) == l < |fs.mem| && l != 0
      && fs2.inodes[..ino] == fs.inodes[..ino] && fs2.inodes[ino + 1..] == fs.inodes[ino + 1..]
      && fs2.mem[..g.dataStart] == fs.mem[..g.dataStart]
  {
    var p := Pos(ino, s, []);
    AllocAtRoot(fs, g, ino, s);
    var (fs1, l) := AllocOneSector(fs, g, p);
    var fs2 := SetRoot(fs1, ino, s, l);
    WfAfterAttach(fs, g, fs2, p, l);
    NodeAfterAttach(fs, g, fs2, p, l);
    AttachExtends(fs, g, fs2, p, l, t);
  }

  lemma GetRootLooksUp(fs: FS, g: Geometry, ino: nat, s: slot, t: Pos)
    requires Wf(fs, g) && ino < |fs.inodes| && InTree(fs, t) && OnPath(Pos(ino, s, []), t)
    ensures var r := GetRoot(fs, g, ino, s);
      && Wf(r.0, g) && Extends(fs, r.0, t) && TableKept(fs, r.0, g)
      && |r.0.mem| == |fs.mem| && |r.0.inodes| == |fs.inodes|
      && Node(r.0, Pos(ino, s, [])) == r.1 < |fs.mem|
      && (r.1 == 0 ==> B.FirstClear(r.0.used) == -1)
  {
    hide Word, PutInode, GetInode;
    var p := Pos(ino, s, []);
    if fs.inodes[ino].blocks[s] != 0 {
      OwnerUnique(fs, g, p);
      return;
    }
    if B.FirstClear(fs.used) >= 0 {
      NewRootLooksUp(fs, g, ino, s, t);
      var (fs1, l) := AllocOneSector(fs, g, p);
      var fs2 := SetRoot(fs1, ino, s, l);
      SyncInodeKeeps(fs2, g, ino);
      SyncInodeWf(fs2, g, ino);
      assert Extends(fs2, SyncInode(fs2, g, ino), t);
      ExtendsTransitive(fs, fs2, SyncInode(fs2, g, ino), t);
      forall k | 0 <= k < |fs.inodes| && OnDisk(fs, g, k) && k != ino
        ensures OnDisk(fs2, g, k)
      {
        var lba := TableLba(g, fs.inodes[k]);
        assert fs2.mem[..g.dataStart][lba] == fs.mem[..g.dataStart][lba];
        assert k < ino ==> fs2.inodes[..ino][k] == fs.inodes[..ino][k];
        assert k > ino ==> fs2.inodes[ino + 1..][k - ino - 1] == fs.inodes[ino + 1..][k - ino - 1];
      }
    }
  }

  lemma GetAtLooksUp(fs: FS, g: Geometry, t: Pos)
    requires Wf(fs, g) && InTree(fs, t)
    ensures LookedUp(fs, g, GetAt(fs, g, t), t)
  {
    hide Wf, Extends, TableKept, Node, Word;
    var p := Pos(t.ino, t.slot, []);
    GetRootLooksUp(fs, g, t.ino, t.slot, t);
    var (fs1, l) := GetRoot(fs, g, t.ino, t.slot);
    if l != 0 && t.idxs != [] {
      assert p.idxs + t.idxs == t.idxs;
      DescendLooksUp(fs1, g, p, l, t.idxs, t);
      ThenLookedUp(fs, g, fs1, Descend(fs1, g, p, l, t.idxs), t);
    } else if l == 0 {
      NothingBelowHole(fs1, p, t);
    }
  }

  /** The lookup of a file block, over all states, files and block numbers. */
  lemma GetInodeDataLooksUp(fs: FS, g: Geometry, ino: nat, index: nat)
    requires Wf(fs, g) && ino < |fs.inodes| && index < BLOCK_LV3
    ensures LookedUp(fs, g, GetInodeData(fs, g, ino, index), IndexPos(ino, index))
  {
    GetAtLooksUp(fs, g, IndexPos(ino, index));
  }

  /** Looking a block up again finds the same block and changes nothing. */
  lemma LookupAgain(fs: FS, g: Geometry, t: Pos)
    requires Wf(fs, g) && InTree(fs, t) && Node(fs, t) != 0
    ensures GetAt(fs, g, t) == (fs, Node(fs, t))
  {
    var p := Pos(t.ino, t.slot, []);
    NonzeroAbove(fs, t, 0);
    assert t.(idxs := t.idxs[..0]) == p;
    OwnerUnique(fs, g, p);
    if t.idxs != [] {
      DescendAgain(fs, g, t, 0);
    }
  }

  /** Above a block in use every pointer is set. */
  lemma {:induction false} NonzeroAbove(fs: FS, t: Pos, k: nat)
    requires InTree(fs, t) && Node(fs, t) != 0 && k <= |t.idxs|
    ensures Node(fs, t.(idxs := t.idxs[..k])) != 0
    decreases |t.idxs|
  {
    if k < |t.idxs| {
      NonzeroAbove(fs, Parent(t), k);
      assert Parent(t).idxs[..k] == t.idxs[..k];
    } else {
      assert t.idxs[..k] == t.idxs;
    }
  }

  /** Below an empty place everything is empty. */
  lemma NothingBelowHole(fs: FS, p: Pos, t: Pos)
    requires InTree(fs, t) && OnPath(p, t) && InTree(fs, p) && Node(fs, p) == 0
    ensures Node(fs, t) == 0
  {
    hide Node;
    assert t.(idxs := t.idxs[..|p.idxs|]) == p;
    if Node(fs, t) != 0 {
      NonzeroAbove(fs, t, |p.idxs|);
    }
  }

  lemma {:induction false} DescendAgain(fs: FS, g: Geometry, t: Pos, k: nat)
    requires Wf(fs, g) && InTree(fs, t) && Node(fs, t) != 0 && k < |t.idxs|
    ensures var p := t.(idxs := t.idxs[..k]);
      Node(fs, p) < |fs.mem| && Descend(fs, g, p, Node(fs, p), t.idxs[k..]) == (fs, Node(fs, t))
    decreases |t.idxs| - k
  {
    hide Word;
    var p, c := t.(idxs := t.idxs[..k]), t.(idxs := t.idxs[..k + 1]);
    NonzeroAbove(fs, t, k);
    NonzeroAbove(fs, t, k + 1);
    OwnerUnique(fs, g, p);
    OwnerUnique(fs, g, c);
    assert c == Child(p, t.idxs[k]) && Parent(c) == p;
    if k + 1 == |t.idxs| {
      assert c == t;
    } else {
      DescendAgain(fs, g, t, k + 1);
      assert t.idxs[k..][1..] == t.idxs[k + 1..];
    }
  }

  /** Storing a data block changes that place of that file and nothing else. */
  lemma WriteDataBlock(fs: FS, g: Geometry, t: Pos, b: Block)
    requires Wf(fs, g) && InTree(fs, t) && IsData(t) && Node(fs, t) != 0
    ensures Node(fs, t) < |fs.mem|
    ensures var r := fs.(mem := fs.mem[Node(fs, t) := b]);
      && Wf(r, g) && TableKept(fs, r, g)
      && (forall p :: InTree(fs, p) ==> Node(r, p) == Node(fs, p))
      && (forall p :: InTree(fs, p) && IsData(p) ==> DataBlock(r, p) == if p == t then b else DataBlock(fs, p))
  {
    hide Word;
    OwnerUnique(fs, g, t);
    var r := fs.(mem := fs.mem[Node(fs, t) := b]);
    WfFrame(fs, g, r);
    SameTableKept(fs, r, g);
    forall p | InTree(fs, p) && IsData(p)
      ensures DataBlock(r, p) == if p == t then b else DataBlock(fs, p)
    {
      if Node(fs, p) != 0 {
        OwnerUnique(fs, g, p);
      }
    }
  }
}
