/** How reading and writing let a file grow (src/fs/bofs/inode.c:751-816): it stays compact, so
    that releasing it gives every block back. */
module Growth {
  import opened Basics
  import opened BlockDevices
  import opened BlockTree
  import opened FileTree
  import opened ReleaseData
  import B = Bitmaps

  /** From fs to fs': no index block that leads nowhere came up, no other file's tree changed, and
      new data blocks of this file are among its first n. */
  ghost predicate Grown(fs: FS, fs': FS, ino: nat, n: nat) {
    && |fs'.inodes| == |fs.inodes| && |fs'.used| == |fs.used|
    && (forall j: nat :: NoBarren(fs, j) ==> NoBarren(fs', j))
    && (forall q :: InTree(fs, q) && q.ino != ino ==> Node(fs', q) == Node(fs, q))
    && (forall q :: InTree(fs, q) && q.ino == ino && IsData(q) && Node(fs', q) != 0 ==>
      Node(fs, q) != 0 || PosIndex(q) < n)
  }

  lemma GrownNow(fs: FS, ino: nat, n: nat)
    ensures Grown(fs, fs, ino, n)
  {
  }

  lemma GrownThen(a: FS, b: FS, c: FS, ino: nat, m: nat, n: nat)
    requires Grown(a, b, ino, m) && Grown(b, c, ino, n) && m <= n
    ensures Grown(a, c, ino, n)
  {
    hide Node, PosIndex, NoBarren;
    assert forall q :: InTree(a, q) ==> InTree(b, q);
  }

  lemma SameTreeGrown(fs: FS, fs': FS, ino: nat, n: nat)
    requires |fs'.inodes| == |fs.inodes| && |fs'.used| == |fs.used|
    requires forall q :: InTree(fs, q) ==> Node(fs', q) == Node(fs, q)
    ensures Grown(fs, fs', ino, n)
  {
    hide Node, PosIndex;
    forall j: nat, q: Pos | NoBarren(fs, j) && q.ino == j
      ensures !Barren(fs', q)
    {
      assert !Barren(fs, q);
      if IndexNode(fs, q) {
        var i: ptr :| Node(fs, Child(q, i)) != 0;
        assert InTree(fs, Child(q, i));
      }
    }
  }

  // ---------- lookups ----------

  /** A lookup that finds its block leaves no index block without a child. */
  lemma FoundNotBarren(fs: FS, g: Geometry, r: (FS, word), t: Pos, q: Pos)
    requires LookedUp(fs, g, r, t) && IsData(t) && r.1 != 0 && !Barren(fs, q)
    ensures !Barren(r.0, q)
  {
    hide Node, Wf, TableKept, DataBlock;
    if IndexNode(r.0, q) {
      if OnPath(q, t) {
        var k := |q.idxs|;
        var c := Child(q, t.idxs[k]);
        assert c == t.(idxs := t.idxs[..k + 1]);
        NonzeroAbove(r.0, t, k + 1);
      } else {
        assert IndexNode(fs, q);
        var i: ptr :| Node(fs, Child(q, i)) != 0;
        assert InTree(fs, Child(q, i));
      }
    }
  }

  lemma LookupGrown(fs: FS, g: Geometry, r: (FS, word), t: Pos)
    requires LookedUp(fs, g, r, t) && IsData(t) && r.1 != 0
    ensures Grown(fs, r.0, t.ino, PosIndex(t) + 1)
  {
    hide Node, Wf, TableKept, DataBlock, PosIndex, Barren;
    forall j: nat, q: Pos | NoBarren(fs, j) && q.ino == j
      ensures !Barren(r.0, q)
    {
      FoundNotBarren(fs, g, r, t, q);
    }
    forall q | InTree(fs, q) && q.ino == t.ino && IsData(q) && Node(r.0, q) != 0
      ensures Node(fs, q) != 0 || PosIndex(q) < PosIndex(t) + 1
    {
      if OnPath(q, t) {
        assert q == t;
      }
    }
  }

  /** With no free block there is nothing to add. */
  lemma FullAddsNothing(fs: FS, g: Geometry, r: (FS, word), t: Pos, q: Pos)
    requires Wf(fs, g) && LookedUp(fs, g, r, t) && B.FirstClear(fs.used) == -1 && InTree(fs, q)
    ensures Node(r.0, q) == Node(fs, q)
  {
    hide Node, TableKept, DataBlock;
    if Node(r.0, q) != 0 {
      OwnerUnique(r.0, g, q);
      var l: nat := Node(r.0, q);
      assert fs.used[l - g.dataStart];
      assert Owned(fs, g, l);
    }
  }

  /** The deepest block on the way to t. */
  lemma {:induction false} DeepestOnPath(fs: FS, t: Pos, k: nat) returns (m: nat)
    requires InTree(fs, t) && k <= |t.idxs| && Node(fs, t) == 0 && Node(fs, t.(idxs := t.idxs[..k])) != 0
    ensures k <= m < |t.idxs| && Node(fs, t.(idxs := t.idxs[..m])) != 0 && Node(fs, t.(idxs := t.idxs[..m + 1])) == 0
    decreases |t.idxs| - k
  {
    hide Node;
    assert t.(idxs := t.idxs[..|t.idxs|]) == t;
    if Node(fs, t.(idxs := t.idxs[..k + 1])) == 0 {
      m := k;
    } else {
      m := DeepestOnPath(fs, t, k + 1);
    }
  }

  /** A lookup that fails on a disk that had a free block leaves an index block without a child. */
  lemma FailedIsBarren(fs: FS, g: Geometry, r: (FS, word), t: Pos) returns (q: Pos)
    requires Wf(fs, g) && LookedUp(fs, g, r, t) && IsData(t) && r.1 == 0 && B.FirstClear(fs.used) != -1
    ensures q.ino == t.ino && Barren(r.0, q)
  {
    hide Node, TableKept, DataBlock;
    var l := g.dataStart + B.FirstClear(fs.used);
    assert r.0.used[l - g.dataStart] && !fs.used[l - g.dataStart];
    assert BitmapExact(fs, g) && BitmapExact(r.0, g);
    assert l !in fs.owner && l in r.0.owner && Owned(r.0, g, l);
    var p := r.0.owner[l];
    assert Node(fs, p) == 0 && OnPath(p, t);
    assert t.(idxs := t.idxs[..|p.idxs|]) == p;
    var m := DeepestOnPath(r.0, t, |p.idxs|);
    q := t.(idxs := t.idxs[..m]);
    assert OnPath(p, q);
    NothingBelowHole(fs, p, q);
    forall i: ptr ensures Node(r.0, Child(q, i)) == 0 {
      if i == t.idxs[m] {
        assert Child(q, i) == t.(idxs := t.idxs[..m + 1]);
      } else {
        NothingBelowHole(fs, q, Child(q, i));
        assert !OnPath(Child(q, i), t);
      }
    }
  }

  /** A lookup leaves no index block without a child behind if and only if it finds its block or
      the disk was full before. */
  lemma LookupKeepsNoBarrenIff(fs: FS, g: Geometry, r: (FS, word), t: Pos)
    requires Wf(fs, g) && LookedUp(fs, g, r, t) && IsData(t) && NoBarren(fs, t.ino)
    ensures NoBarren(r.0, t.ino) <==> r.1 != 0 || B.FirstClear(fs.used) == -1
  {
    hide Node, Wf, LookedUp, Barren;
    if r.1 != 0 {
      LookupGrown(fs, g, r, t);
    } else if B.FirstClear(fs.used) == -1 {
      assert |r.0.inodes| == |fs.inodes| && |r.0.used| == |fs.used| by { LookupLengths(fs, g, r, t); }
      forall q | InTree(fs, q) ensures Node(r.0, q) == Node(fs, q) {
        FullAddsNothing(fs, g, r, t, q);
      }
      SameTreeGrown(fs, r.0, t.ino, 0);
    } else {
      var q := FailedIsBarren(fs, g, r, t);
    }
  }

  lemma LookupLengths(fs: FS, g: Geometry, r: (FS, word), t: Pos)
    requires LookedUp(fs, g, r, t)
    ensures |r.0.inodes| == |fs.inodes| && |r.0.used| == |fs.used|
  {
  }

  // ---------- writes ----------

  /** Storing in block index of the file, once it was looked up. */
  lemma StoreGrown(fs: FS, g: Geometry, r: (FS, word), ino: nat, index: nat, b: Block)
    requires index < BLOCK_LV3 && LookedUp(fs, g, r, IndexPos(ino, index)) && r.1 != 0
    ensures r.1 < |r.0.mem| && Grown(fs, PutBlock(r.0, r.1, b), ino, index + 1)
  {
    hide Node, Wf, TableKept, DataBlock, PosIndex, NoBarren, IndexPos;
    var t := IndexPos(ino, index);
    IndexPosInverse(ino, index, t);
    LookupGrown(fs, g, r, t);
    WriteDataBlock(r.0, g, t, b);
    var fs' := PutBlock(r.0, r.1, b);
    SameTreeGrown(r.0, fs', t.ino, PosIndex(t) + 1);
    GrownThen(fs, r.0, fs', t.ino, PosIndex(t) + 1, PosIndex(t) + 1);
  }

  lemma ReadGrown(fs: FS, g: Geometry, r: (FS, word), ino: nat, index: nat)
    requires index < BLOCK_LV3 && LookedUp(fs, g, r, IndexPos(ino, index)) && r.1 != 0
    ensures Grown(fs, r.0, ino, index + 1)
  {
    hide Node, Wf, TableKept, DataBlock, PosIndex, NoBarren, IndexPos;
    IndexPosInverse(ino, index, IndexPos(ino, index));
    LookupGrown(fs, g, r, IndexPos(ino, index));
  }

  lemma GrownWithin(a: FS, b: FS, c: FS, ino: nat, m: nat, n: nat)
    requires Grown(a, b, ino, n) && Grown(b, c, ino, m) && m <= n
    ensures Grown(a, c, ino, n)
  {
    hide Node, PosIndex, NoBarren;
    assert forall q :: InTree(a, q) ==> InTree(b, q);
  }

  /** Setting the size. */
  lemma ResizeGrown(fs: FS, g: Geometry, fs1: FS, ino: nat, size: word, n: nat)
    requires Wf(fs1, g) && ino < |fs1.inodes| && Grown(fs, fs1, ino, n)
    ensures Grown(fs, fs1.(inodes := fs1.inodes[ino := fs1.inodes[ino].(size := size)]), ino, n)
  {
    hide Node, PosIndex, NoBarren;
    var fs2 := fs1.(inodes := fs1.inodes[ino := fs1.inodes[ino].(size := size)]);
    WfFrame(fs1, g, fs2);
    SameTreeGrown(fs1, fs2, ino, n);
    GrownThen(fs, fs1, fs2, ino, n, n);
  }

  /** Writing the inode back. */
  lemma SyncGrown(fs: FS, g: Geometry, fs1: FS, ino: nat, n: nat)
    requires Wf(fs1, g) && ino < |fs1.inodes| && Grown(fs, fs1, ino, n)
    ensures Grown(fs, SyncInode(fs1, g, ino), ino, n)
  {
    hide Node, PosIndex, NoBarren;
    SyncInodeWf(fs1, g, ino);
    SameTreeGrown(fs1, SyncInode(fs1, g, ino), ino, n);
    GrownThen(fs, fs1, SyncInode(fs1, g, ino), ino, n, n);
  }

  // ---------- using a file, and releasing it ----------

  function BlocksFor(size: nat): nat {
    (size + BLOCK_SIZE - 1) / BLOCK_SIZE
  }

  /** From fs to fs' file ino was used: the file system is in order, compact files are, and no
      other file changed. */
  ghost predicate Uses(fs: FS, fs': FS, g: Geometry, ino: nat) {
    && Wf(fs, g) && Wf(fs', g) && ino < |fs.inodes| == |fs'.inodes| && |fs'.used| == |fs.used|
    && (forall j :: 0 <= j < |fs.inodes| && j != ino ==> fs'.inodes[j] == fs.inodes[j])
    && (forall q :: InTree(fs, q) && q.ino != ino ==> Node(fs', q) == Node(fs, q))
    && forall j :: 0 <= j < |fs.inodes| && Compact(fs, j) ==> Compact(fs', j)
  }

  lemma GrownUses(fs: FS, fs': FS, g: Geometry, ino: nat, n: nat)
    requires Wf(fs, g) && Wf(fs', g) && ino < |fs.inodes| == |fs'.inodes|
    requires Grown(fs, fs', ino, n) && n <= BlocksFor(fs'.inodes[ino].size)
    requires fs.inodes[ino].size <= fs'.inodes[ino].size
    requires forall j :: 0 <= j < |fs.inodes| && j != ino ==> fs'.inodes[j] == fs.inodes[j]
    ensures Uses(fs, fs', g, ino)
  {
    hide Node, PosIndex, Wf, NoBarren;
    forall j | 0 <= j < |fs.inodes| && Compact(fs, j)
      ensures Compact(fs', j)
    {
      assert NoBarren(fs, j) && Blocks(fs, j) <= Blocks(fs', j);
      forall q | InTree(fs', q) && q.ino == j && IsData(q) && Node(fs', q) != 0
        ensures PosIndex(q) < Blocks(fs', j)
      {
        assert InTree(fs, q);
      }
    }
  }

  /** Any run of reads and writes. */
  lemma {:induction false} RunUses(states: seq<FS>, g: Geometry, ino: nat)
    requires |states| > 0 && Wf(states[0], g) && ino < |states[0].inodes|
    requires forall i :: 0 <= i < |states| - 1 ==> Uses(states[i], states[i + 1], g, ino)
    ensures Uses(states[0], states[|states| - 1], g, ino)
    decreases |states|
  {
    hide Node, Wf, Compact;
    if |states| > 1 {
      var n := |states| - 1;
      RunUses(states[..n], g, ino);
      UsesThen(states[0], states[n - 1], states[n], g, ino);
    }
  }

  lemma UsesThen(a: FS, b: FS, c: FS, g: Geometry, ino: nat)
    requires Uses(a, b, g, ino) && Uses(b, c, g, ino)
    ensures Uses(a, c, g, ino)
  {
    hide Node, Wf, Compact;
    assert forall q :: InTree(a, q) ==> InTree(b, q);
  }

  lemma EmptyIsCompact(fs: FS, ino: nat)
    requires ino < |fs.inodes| && Empty(fs, ino)
    ensures Compact(fs, ino)
  {
    hide Node, PosIndex;
    forall q: Pos | q.ino == ino ensures !Barren(fs, q) {
    }
  }

  /** Of the bits before, those of blocks that other files own, and the reserved ones, are left. */
  lemma OthersAndReserved(fs: FS, fs1: FS, g: Geometry, ino: nat, i: nat)
    requires Uses(fs, fs1, g, ino) && Empty(fs, ino) && i < |fs.used|
    ensures fs.used[i] <==>
      fs1.used[i] && !(g.dataStart + i in fs1.owner && fs1.owner[g.dataStart + i].ino == ino)
  {
    hide Node, Compact;
    var l := g.dataStart + i;
    assert fs.used[i] <==> i < g.reserved || l in fs.owner;
    assert fs1.used[i] <==> i < g.reserved || l in fs1.owner;
    if l in fs.owner {
      assert Owned(fs, g, l);
      OwnerUnique(fs1, g, fs.owner[l]);
    }
    if l in fs1.owner {
      assert Owned(fs1, g, l);
      if fs1.owner[l].ino != ino {
        OwnerUnique(fs, g, fs1.owner[l]);
      }
    }
  }

  /** A file that had no blocks is used in any way and released: the bitmap is what it was before
      if and only if the early return is not taken or no level-2 tree grew. */
  lemma UsedThenReleased(fs: FS, fs1: FS, g: Geometry, ino: nat, early: bool)
    requires Uses(fs, fs1, g, ino) && Empty(fs, ino)
    ensures ReleaseAs(fs1, g, ino, Blocks(fs1, ino), early).used == fs.used <==>
      (early ==> fs1.inodes[ino].blocks[13] == 0)
  {
    hide Node, Wf, Compact, Empty, ReleaseTo, ReleaseAs, NoBarren;
    EmptyIsCompact(fs, ino);
    WfTree(fs1, g);
    assert Compact(fs1, ino);
    var r := ReleaseAs(fs1, g, ino, Blocks(fs1, ino), early);
    if early {
      EarlyConservesIff(fs1, g, ino);
    } else {
      ReleaseAsIntended(fs1, g, ino, Blocks(fs1, ino));
      ReleaseConservesIff(fs1, g, ino);
    }
    forall i | 0 <= i < |fs.used|
      ensures fs.used[i] <==> fs1.used[i] && !(g.dataStart + i in fs1.owner && fs1.owner[g.dataStart + i].ino == ino)
    {
      OthersAndReserved(fs, fs1, g, ino, i);
    }
    assert Conserved(fs1, r, g, ino) <==>
      |r.used| == |fs.used| && forall i :: 0 <= i < |fs.used| ==> (r.used[i] <==> fs.used[i]);
  }

  /** The blocks of one turn of a loop over a file's bytes. */
  lemma TurnBlocks(pos: nat, chunk: nat)
    requires 0 < chunk <= BLOCK_SIZE - pos % BLOCK_SIZE
    ensures BlocksFor(pos) <= pos / BLOCK_SIZE + 1 == BlocksFor(pos + chunk)
  {
  }

  lemma BlocksMonotone(a: nat, b: nat)
    requires a <= b
    ensures BlocksFor(a) <= BlocksFor(b)
  {
  }
}
