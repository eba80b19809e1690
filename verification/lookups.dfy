/** Runs of BOFS_GetInodeData over any files in any order (src/fs/bofs/inode.c:751-816). */
module Lookups {
  import opened Basics
  import opened BlockDevices
  import opened BlockTree
  import opened FileTree
  import opened FileContents
  import opened InodeTable
  import B = Bitmaps

  datatype Lookup = Lookup(ino: nat, index: nat)

  ghost predicate Askable(fs: FS, g: Geometry, l: Lookup) {
    Shape(fs, g) && l.ino < |fs.inodes| && l.index < BLOCK_LV3
  }

  /** A run of lookups and the states it goes through. */
  ghost predicate IsRun(states: seq<FS>, run: seq<Lookup>, g: Geometry) {
    && |states| == |run| + 1
    && forall i :: 0 <= i < |run| ==>
      Askable(states[i], g, run[i]) && states[i + 1] == GetInodeData(states[i], g, run[i].ino, run[i].index).0
  }

  /** What a lookup returns: a block, or 0 when there was none left. */
  ghost function Found(fs: FS, g: Geometry, l: Lookup): word
    requires Askable(fs, g, l)
  {
    GetInodeData(fs, g, l.ino, l.index).1
  }

  function Place(l: Lookup): Pos
    requires l.index < BLOCK_LV3
  {
    IndexPos(l.ino, l.index)
  }

  /** Every block that was in place stays there, and no byte of any file changes. */
  ghost predicate Grows(fs: FS, fs': FS, g: Geometry) {
    && Wf(fs', g) && TableKept(fs, fs', g)
    && (forall p :: InTree(fs, p) && Node(fs, p) != 0 ==> Node(fs', p) == Node(fs, p))
    && forall ino :: 0 <= ino < |fs.inodes| ==> SameBytes(fs, fs', ino)
  }

  lemma GrowsOn(fs: FS, fs1: FS, fs2: FS, g: Geometry)
    requires Grows(fs, fs1, g) && Grows(fs1, fs2, g)
    ensures Grows(fs, fs2, g)
  {
    hide Node, ByteAt, Wf, OnDisk;
    assert forall p :: InTree(fs, p) ==> InTree(fs1, p);
    forall ino | 0 <= ino < |fs.inodes| ensures SameBytes(fs, fs2, ino) {
      assert SameBytes(fs, fs1, ino) && SameBytes(fs1, fs2, ino);
    }
  }

  lemma LookupGrows(fs: FS, g: Geometry, l: Lookup)
    requires Wf(fs, g) && Askable(fs, g, l)
    ensures Grows(fs, GetInodeData(fs, g, l.ino, l.index).0, g)
  {
    hide Node, Wf, OnDisk, GetInodeData, IndexPos, SameBytes;
    var r := GetInodeData(fs, g, l.ino, l.index);
    GetInodeDataLooksUp(fs, g, l.ino, l.index);
    forall ino | 0 <= ino < |fs.inodes| ensures SameBytes(fs, r.0, ino) {
      LookupKeepsBytes(fs, r.0, IndexPos(l.ino, l.index), ino);
    }
  }

  lemma NoGrowth(fs: FS, g: Geometry)
    requires Wf(fs, g)
    ensures Grows(fs, fs, g)
  {
  }

  /** Over any run of lookups on any files the trees stay in order, no block moves, no file
      changes, and no inode table entry falls behind. */
  lemma {:induction false} RunGrows(states: seq<FS>, run: seq<Lookup>, g: Geometry, i: nat, j: nat)
    requires IsRun(states, run, g) && Wf(states[0], g) && i <= j < |states|
    ensures Wf(states[i], g) && Wf(states[j], g) && Grows(states[i], states[j], g)
    decreases j
  {
    hide Grows, GetInodeData, Askable;
    if j > 0 {
      RunGrows(states, run, g, 0, j - 1);
      assert Askable(states[j - 1], g, run[j - 1]);
      LookupGrows(states[j - 1], g, run[j - 1]);
      GrowsWf(states[j - 1], states[j], g);
      if i < j {
        RunGrows(states, run, g, i, j - 1);
        GrowsOn(states[i], states[j - 1], states[j], g);
        return;
      }
    }
    NoGrowth(states[j], g);
  }

  lemma GrowsWf(fs: FS, fs': FS, g: Geometry)
    requires Grows(fs, fs', g)
    ensures Wf(fs', g)
  {
  }

  lemma FoundInPlace(fs: FS, g: Geometry, l: Lookup)
    requires Wf(fs, g) && Askable(fs, g, l) && Found(fs, g, l) != 0
    ensures var r := GetInodeData(fs, g, l.ino, l.index).0; InTree(r, Place(l)) && Node(r, Place(l)) == Found(fs, g, l)
  {
    hide Node, Wf, GetInodeData, IndexPos;
    GetInodeDataLooksUp(fs, g, l.ino, l.index);
  }

  /** What lookup i found is at its place in every later state of the run. */
  lemma FoundStays(states: seq<FS>, run: seq<Lookup>, g: Geometry, i: nat, j: nat)
    requires IsRun(states, run, g) && Wf(states[0], g) && i < j < |states|
    requires Askable(states[i], g, run[i]) && Found(states[i], g, run[i]) != 0
    ensures InTree(states[j], Place(run[i])) && Node(states[j], Place(run[i])) == Found(states[i], g, run[i])
  {
    hide Node, Wf, GetInodeData, IndexPos, SameBytes, TableKept, Found;
    RunGrows(states, run, g, 0, i);
    FoundInPlace(states[i], g, run[i]);
    RunGrows(states, run, g, i + 1, j);
    SameFiles(states[i + 1], states[j], g);
  }

  lemma SameFiles(fs: FS, fs': FS, g: Geometry)
    requires Grows(fs, fs', g)
    ensures |fs'.inodes| == |fs.inodes|
  {
  }

  /** Over any run, two lookups find the same block exactly when they ask for the same block
      number of the same file: repeated lookups agree, and distinct places never share. */
  lemma LookupsAgreeIff(states: seq<FS>, run: seq<Lookup>, g: Geometry, i: nat, j: nat)
    requires IsRun(states, run, g) && Wf(states[0], g) && i < j < |run|
    requires Askable(states[i], g, run[i]) && Askable(states[j], g, run[j])
    requires Found(states[i], g, run[i]) != 0 && Found(states[j], g, run[j]) != 0
    ensures Found(states[i], g, run[i]) == Found(states[j], g, run[j]) <==> run[i] == run[j]
  {
    hide Node, Found, IndexPos, PosIndex, GetInodeData, NodesKnown, OwnersReal, BitmapExact;
    FoundStays(states, run, g, i, j + 1);
    FoundStays(states, run, g, j, j + 1);
    var s, a, b := states[j + 1], Place(run[i]), Place(run[j]);
    if Node(s, a) == Node(s, b) {
      RunGrows(states, run, g, 0, j + 1);
      NoSharing(s, g, a, b);
      PosOfIndex(run[i].ino, run[i].index);
      PosOfIndex(run[j].ino, run[j].index);
    }
  }

  /** Over any run the bitmap marks the reserved prefix and otherwise exactly the blocks that
      some file has in some place. */
  lemma RunKeepsBitmap(states: seq<FS>, run: seq<Lookup>, g: Geometry, j: nat, i: nat)
    requires IsRun(states, run, g) && Wf(states[0], g) && j < |states| && g.reserved <= i < |states[j].used|
    ensures states[j].used[i] <==> exists p :: InTree(states[j], p) && Node(states[j], p) == g.dataStart + i
  {
    hide Grows, GetInodeData, Askable;
    RunGrows(states, run, g, 0, j);
    MarkedIffReachable(states[j], g, i);
  }

  /** A file opened twice: each descriptor has its own copy of the inode as loaded
      (src/fs/bofs/file.c:346-373), and the disk and the bitmap in common. First the one, then the
      other looks up a root pointer. */
  ghost function FirstCopy(mem: seq<Block>, used: seq<bool>, owner: map<nat, Pos>, g: Geometry, i: Inode, s: slot)
    : (FS, word)
    requires Shape(FS(mem, used, [i], owner), g)
  {
    GetRoot(FS(mem, used, [i], owner), g, 0, s)
  }

  ghost function SecondCopy(mem: seq<Block>, used: seq<bool>, owner: map<nat, Pos>, g: Geometry, i: Inode, s: slot)
    : (FS, word)
    requires Shape(FS(mem, used, [i], owner), g)
  {
    var a := FirstCopy(mem, used, owner, g, i, s).0;
    GetRoot(FS(a.mem, a.used, [i], a.owner), g, 0, s)
  }

  /** They find the same block if and only if it was there when the file was opened. */
  lemma CopiesAgreeIff(mem: seq<Block>, used: seq<bool>, owner: map<nat, Pos>, g: Geometry, i: Inode, s: slot)
    requires Shape(FS(mem, used, [i], owner), g) && B.FirstClear(used) >= 0
    ensures FirstCopy(mem, used, owner, g, i, s).1 == SecondCopy(mem, used, owner, g, i, s).1 <==> i.blocks[s] != 0
  {
  }

  /** Otherwise the first block stays marked, and the inode on the disk has the second. */
  lemma FirstCopyIsLost(mem: seq<Block>, used: seq<bool>, owner: map<nat, Pos>, g: Geometry, i: Inode, s: slot)
    requires Shape(FS(mem, used, [i], owner), g) && i.blocks[s] == 0
    requires SecondCopy(mem, used, owner, g, i, s).1 != 0
    ensures var l, (b, m) := FirstCopy(mem, used, owner, g, i, s).1, SecondCopy(mem, used, owner, g, i, s);
      && l != 0 && l != m && g.dataStart <= l < g.dataStart + |b.used| && b.used[l - g.dataStart]
      && GetInode(b.mem[TableLba(g, i)], i.id % INODE_NR_IN_SECTOR) == i.(blocks := i.blocks[s := m])
  {
    hide PutInode, GetInode;
    var a := FirstCopy(mem, used, owner, g, i, s).0;
    var fs := FS(a.mem, a.used, [i], a.owner);
    var (fs1, m) := AllocOneSector(fs, g, Pos(0, s, []));
    SyncInodeKeeps(SetRoot(fs1, 0, s, m), g, 0);
  }
}
