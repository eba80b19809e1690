/** Releasing all the data of an inode (src/fs/bofs/inode.c:1325-1424), with and without the
    early return of line 1039. */
module ReleaseData {
  import opened BlockDevices
  import opened BlockTree
  import opened FileTree
  import opened Release
  import InodeTable

  /** The state after block numbers 0 to n - 1 of a file were put back. */
  ghost function ReleaseTo(fs: FS, g: Geometry, ino: nat, n: nat): (r: FS)
    requires Shape(fs, g) && ino < |fs.inodes| && n <= BLOCK_LV3
    ensures Shape(r, g) && |r.inodes| == |fs.inodes|
  {
    if n == 0 then fs else PutAt(ReleaseTo(fs, g, ino, n - 1), g, IndexPos(ino, n - 1))
  }

  ghost predicate IndexNode(fs: FS, q: Pos) {
    InTree(fs, q) && !IsData(q) && Node(fs, q) != 0
  }

  /** An index block that leads nowhere. */
  ghost predicate Barren(fs: FS, q: Pos) {
    IndexNode(fs, q) && forall i: ptr :: Node(fs, Child(q, i)) == 0
  }

  ghost predicate NoBarren(fs: FS, ino: nat) {
    forall q: Pos :: q.ino == ino ==> !Barren(fs, q)
  }

  /** What a release of the first n blocks may have done. */
  ghost predicate Releasing(fs: FS, g: Geometry, fs': FS, ino: nat, n: nat) {
    && TreeOk(fs', g) && TableKept(fs, fs', g) && |fs'.mem| == |fs.mem|
    && (forall k :: 0 <= k < |fs.inodes| ==> fs'.inodes[k] == fs.inodes[k].(blocks := fs'.inodes[k].blocks))
    && (forall q :: InTree(fs, q) && Node(fs', q) != 0 ==> Node(fs', q) == Node(fs, q))
    && (forall q :: InTree(fs, q) && q.ino != ino ==> Node(fs', q) == Node(fs, q))
    && (forall q :: InTree(fs, q) && q.ino != ino && IsData(q) ==> DataBlock(fs', q) == DataBlock(fs, q))
    && (forall q :: InTree(fs, q) && q.ino == ino && IsData(q) ==>
      Node(fs', q) == if PosIndex(q) < n then 0 else Node(fs, q))
    && |fs'.used| == |fs.used| && fs'.owner.Keys <= fs.owner.Keys
    && (forall l :: l in fs'.owner ==> fs'.owner[l] == fs.owner[l])
    && (BitmapExact(fs, g) ==> BitmapExact(fs', g))
    && (NoBarren(fs, ino) ==> NoBarren(fs', ino))
    && (forall q :: Barren(fs, q) ==> Barren(fs', q))
  }

  lemma ReleasingNone(fs: FS, g: Geometry, ino: nat)
    requires TreeOk(fs, g)
    ensures Releasing(fs, g, fs, ino, 0)
  {
  }

  /** A block on the chain to t is the block of some level. */
  lemma {:induction false} ChainLevel(fs: FS, t: Pos, k: nat, l: nat) returns (j: nat)
    requires InTree(fs, t) && k <= |t.idxs| && l in Chain(fs, t, k)
    ensures k <= j <= |t.idxs| && l == Node(fs, Up(t, j))
    decreases |t.idxs| - k
  {
    if l == Node(fs, Up(t, k)) {
      j := k;
    } else {
      j := ChainLevel(fs, t, k + 1, l);
    }
  }

  lemma {:induction false} CutStops(fs: FS, g: Geometry, t: Pos, k: nat)
    requires Leaf(fs, g, t) && k <= |t.idxs|
    ensures var j := Cut(fs, g, t, k);
      j > k ==> InTree(fs, Up(t, j - 1)) && Node(fs, Up(t, j - 1)) < |fs.mem| && !OnlyChild(fs, t, j - 1)
    decreases |t.idxs| - k
  {
    hide Word, PutWord, TreeOk, Node, OnlyChild;
    if k < |t.idxs| {
      LeafAbove(fs, g, t, k);
      CutStops(fs, g, t, k + 1);
    }
  }

  lemma OtherChild(fs: FS, g: Geometry, t: Pos, k: nat) returns (i: ptr)
    requires Leaf(fs, g, t) && k < |t.idxs|
    requires InTree(fs, Up(t, k)) && Node(fs, Up(t, k)) < |fs.mem| && !OnlyChild(fs, t, k)
    ensures i != t.idxs[k] && InTree(fs, Child(Up(t, k), i)) && Node(fs, Child(Up(t, k), i)) != 0
  {
    hide Word, PutWord, TreeOk;
    LeafAbove(fs, g, t, k);
    var cur := fs.mem[Node(fs, Up(t, k))];
    i :| Word(PutWord(cur, t.idxs[k], 0), i) != 0;
    WordOfPutWord(cur, t.idxs[k], 0, i);
    NodeOfChild(fs, Up(t, k), i);
  }

  /** Pruning at the cut leaves no index block barren that was not, ... */
  lemma PruneLeavesNoBarren(fs: FS, g: Geometry, fs': FS, t: Pos, q: Pos)
    requires Leaf(fs, g, t)
    requires var j := Cut(fs, g, t, 0); Pruned(fs, g, fs', Up(t, j), Chain(fs, t, j))
    requires Barren(fs', q)
    ensures Barren(fs, q)
  {
    hide Word, PutWord, TreeOk, Node, Branch;
    var j := Cut(fs, g, t, 0);
    var r := Up(t, j);
    assert Node(fs', q) == Node(fs, q) != 0 && !OnPath(r, q);
    if i: ptr :| Node(fs, Child(q, i)) != 0 {
      assert Node(fs', Child(q, i)) == 0;
      assert r.idxs == Child(q, i).idxs;
      assert q.idxs == t.idxs[..j - 1];
      CutStops(fs, g, t, 0);
      var i' := OtherChild(fs, g, t, j - 1);
    }
  }

  /** ... and frees none that was. */
  lemma PruneKeepsBarren(fs: FS, g: Geometry, fs': FS, t: Pos, q: Pos)
    requires Leaf(fs, g, t)
    requires var j := Cut(fs, g, t, 0); Pruned(fs, g, fs', Up(t, j), Chain(fs, t, j))
    requires Barren(fs, q)
    ensures Barren(fs', q)
  {
    hide Word, PutWord, TreeOk, Node;
    var j := Cut(fs, g, t, 0);
    var r := Up(t, j);
    if OnPath(r, q) {
      var i := ChainLevel(fs, t, j, Node(fs, q));
      LeafAbove(fs, g, t, i);
      OwnerUnique(fs, g, q);
      assert q == Up(t, i);
      LeafAbove(fs, g, t, i + 1);
    }
  }

  lemma BarrenStep(fs: FS, g: Geometry, fs1: FS, fs2: FS, ino: nat, t: Pos)
    requires Leaf(fs1, g, t)
    requires var j := Cut(fs1, g, t, 0); Pruned(fs1, g, fs2, Up(t, j), Chain(fs1, t, j))
    requires NoBarren(fs, ino) ==> NoBarren(fs1, ino)
    requires forall q :: Barren(fs, q) ==> Barren(fs1, q)
    ensures NoBarren(fs, ino) ==> NoBarren(fs2, ino)
    ensures forall q :: Barren(fs, q) ==> Barren(fs2, q)
  {
    hide Pruned, Leaf, Cut, Chain, Barren;
    if NoBarren(fs, ino) {
      forall q: Pos | q.ino == ino
        ensures !Barren(fs2, q)
      {
        if Barren(fs2, q) {
          PruneLeavesNoBarren(fs1, g, fs2, t, q);
        }
      }
    }
    forall q | Barren(fs, q)
      ensures Barren(fs2, q)
    {
      PruneKeepsBarren(fs1, g, fs2, t, q);
    }
  }

  lemma NodesStep(fs: FS, g: Geometry, fs1: FS, fs2: FS, ino: nat, n: nat, t: Pos)
    requires n < BLOCK_LV3 && t == IndexPos(ino, n) && Leaf(fs1, g, t)
    requires var j := Cut(fs1, g, t, 0); Pruned(fs1, g, fs2, Up(t, j), Chain(fs1, t, j))
    requires Releasing(fs, g, fs1, ino, n)
    ensures forall q :: InTree(fs, q) && Node(fs2, q) != 0 ==> Node(fs2, q) == Node(fs, q)
    ensures forall q :: InTree(fs, q) && q.ino != ino ==> Node(fs2, q) == Node(fs, q)
    ensures forall q :: InTree(fs, q) && q.ino == ino && IsData(q) ==>
      Node(fs2, q) == if PosIndex(q) < n + 1 then 0 else Node(fs, q)
  {
    hide Word, TreeOk, Node, IndexPos, PosIndex, Branch, Cut;
    var j := Cut(fs1, g, t, 0);
    var r := Up(t, j);
    IndexPosInverse(ino, n, t);
    forall q | InTree(fs, q) && q.ino == ino && IsData(q)
      ensures Node(fs2, q) == if PosIndex(q) < n + 1 then 0 else Node(fs, q)
    {
      assert InTree(fs1, q);
      IndexPosInverse(ino, n, q);
      if OnPath(r, q) && Node(fs1, q) != 0 {
        DataOnChain(fs1, g, t, j, q);
      }
      if q == t {
        assert OnPath(r, q);
      }
    }
  }

  /** The only data block on the way to t is the one at t. */
  lemma DataOnChain(fs: FS, g: Geometry, t: Pos, j: nat, q: Pos)
    requires Leaf(fs, g, t) && j <= |t.idxs| && Branch(fs, Up(t, j), Chain(fs, t, j))
    requires InTree(fs, q) && IsData(q) && Node(fs, q) != 0 && OnPath(Up(t, j), q)
    ensures q == t
  {
    var k := ChainLevel(fs, t, j, Node(fs, q));
    LeafAbove(fs, g, t, k);
    OwnerUnique(fs, g, q);
    assert q == Up(t, k);
    LeafAbove(fs, g, t, |t.idxs|);
  }

  lemma NothingStep(fs: FS, g: Geometry, fs1: FS, ino: nat, n: nat)
    requires ino < |fs.inodes| && n < BLOCK_LV3 && Releasing(fs, g, fs1, ino, n)
    requires Node(fs1, IndexPos(ino, n)) == 0
    ensures Releasing(fs, g, fs1, ino, n + 1)
  {
    hide Word, Node, DataBlock, TreeOk, IndexPos, PosIndex;
    forall q | InTree(fs1, q) && q.ino == ino && IsData(q) && PosIndex(q) == n
      ensures Node(fs1, q) == 0
    {
      IndexPosInverse(ino, n, q);
    }
  }

  lemma BitmapStep(fs: FS, g: Geometry, fs': FS, r: Pos, D: set<nat>)
    requires Pruned(fs, g, fs', r, D) && Shape(fs, g) && OwnersReal(fs, g) && BitmapExact(fs, g)
    ensures BitmapExact(fs', g)
  {
    hide Word, Node, Branch;
    forall i | 0 <= i < |fs'.used|
      ensures fs'.used[i] <==> i < g.reserved || g.dataStart + i in fs'.owner
    {
      assert fs.used[i] <==> i < g.reserved || g.dataStart + i in fs.owner;
      if g.dataStart + i in D {
        assert Owned(fs, g, g.dataStart + i);
      }
    }
  }

  lemma PruneStep(fs: FS, g: Geometry, fs1: FS, fs2: FS, ino: nat, n: nat, t: Pos)
    requires n < BLOCK_LV3 && t == IndexPos(ino, n) && Leaf(fs1, g, t)
    requires var j := Cut(fs1, g, t, 0); Pruned(fs1, g, fs2, Up(t, j), Chain(fs1, t, j))
    requires Releasing(fs, g, fs1, ino, n)
    ensures Releasing(fs, g, fs2, ino, n + 1)
  {
    hide Word, Node, DataBlock, PosIndex, IndexPos, NodesKnown, OwnersReal, BitmapExact, Cut, Chain, Barren, NoBarren;
    if BitmapExact(fs1, g) {
      BitmapStep(fs1, g, fs2, Up(t, Cut(fs1, g, t, 0)), Chain(fs1, t, Cut(fs1, g, t, 0)));
    }
    BarrenStep(fs, g, fs1, fs2, ino, t);
    NodesStep(fs, g, fs1, fs2, ino, n, t);
    forall q | InTree(fs, q) && q.ino != ino && IsData(q)
      ensures DataBlock(fs2, q) == DataBlock(fs, q)
    {
      assert InTree(fs1, q) && !OnPath(Up(t, Cut(fs1, g, t, 0)), q);
    }
  }

  lemma ReleasingStep(fs: FS, g: Geometry, fs1: FS, ino: nat, n: nat)
    requires TreeOk(fs, g) && ino < |fs.inodes| && n < BLOCK_LV3 && Releasing(fs, g, fs1, ino, n)
    ensures Shape(fs1, g) && Releasing(fs, g, PutAt(fs1, g, IndexPos(ino, n)), ino, n + 1)
  {
    hide Word, Node, DataBlock, PosIndex, IndexPos, PutAt, NodesKnown, OwnersReal, BitmapExact, Pruned;
    var t := IndexPos(ino, n);
    if Node(fs1, t) == 0 {
      PutAtNothing(fs1, g, t);
      NothingStep(fs, g, fs1, ino, n);
    } else {
      PutAtPrunes(fs1, g, t);
      PruneStep(fs, g, fs1, PutAt(fs1, g, t), ino, n, t);
    }
  }

  /** Every state of the release loop. */
  lemma {:induction false} ReleaseToReleases(fs: FS, g: Geometry, ino: nat, n: nat)
    requires TreeOk(fs, g) && ino < |fs.inodes| && n <= BLOCK_LV3
    ensures Releasing(fs, g, ReleaseTo(fs, g, ino, n), ino, n)
  {
    hide Releasing, NodesKnown, OwnersReal, IndexPos, PutAt, Node;
    if n == 0 {
      ReleasingNone(fs, g, ino);
    } else {
      ReleaseToReleases(fs, g, ino, n - 1);
      ReleasingStep(fs, g, ReleaseTo(fs, g, ino, n - 1), ino, n - 1);
    }
  }

  // ---------- the whole release ----------

  function Blocks(fs: FS, ino: nat): (n: nat)
    requires ino < |fs.inodes|
    ensures n <= BLOCK_LV3
  {
    (fs.inodes[ino].size + BLOCK_SIZE - 1) / BLOCK_SIZE
  }

  /** Every data block lies below the size, and every index block leads to some block. */
  ghost predicate Compact(fs: FS, ino: nat)
    requires ino < |fs.inodes|
  {
    && NoBarren(fs, ino)
    && forall q :: InTree(fs, q) && q.ino == ino && IsData(q) && Node(fs, q) != 0 ==> PosIndex(q) < Blocks(fs, ino)
  }

  ghost predicate Empty(fs: FS, ino: nat) {
    forall q :: InTree(fs, q) && q.ino == ino ==> Node(fs, q) == 0
  }

  /** With no barren index block around, a block in use has a data block in use below it. */
  lemma {:induction false} DataBelow(fs: FS, ino: nat, q: Pos) returns (d: Pos)
    requires NoBarren(fs, ino) && InTree(fs, q) && q.ino == ino && Node(fs, q) != 0
    ensures InTree(fs, d) && d.ino == ino && IsData(d) && Node(fs, d) != 0
    decreases Depth(q.slot) - |q.idxs|
  {
    if IsData(q) {
      d := q;
    } else {
      assert !Barren(fs, q);
      var i: ptr :| Node(fs, Child(q, i)) != 0;
      d := DataBelow(fs, ino, Child(q, i));
    }
  }

  lemma CompactEmpties(fs: FS, g: Geometry, ino: nat)
    requires TreeOk(fs, g) && ino < |fs.inodes| && Compact(fs, ino)
    ensures Empty(ReleaseTo(fs, g, ino, Blocks(fs, ino)), ino)
  {
    hide Word, Node, PosIndex, NodesKnown, OwnersReal, BitmapExact, ReleaseTo;
    var r := ReleaseTo(fs, g, ino, Blocks(fs, ino));
    ReleaseToReleases(fs, g, ino, Blocks(fs, ino));
    forall q | InTree(r, q) && q.ino == ino
      ensures Node(r, q) == 0
    {
      if Node(r, q) != 0 {
        var d := DataBelow(r, ino, q);
      }
    }
  }

  lemma EmptyWasCompact(fs: FS, g: Geometry, ino: nat)
    requires TreeOk(fs, g) && ino < |fs.inodes| && Empty(ReleaseTo(fs, g, ino, Blocks(fs, ino)), ino)
    ensures Compact(fs, ino)
  {
    hide Word, Node, PosIndex, NodesKnown, OwnersReal, BitmapExact, ReleaseTo;
    var r := ReleaseTo(fs, g, ino, Blocks(fs, ino));
    ReleaseToReleases(fs, g, ino, Blocks(fs, ino));
    forall q: Pos | q.ino == ino
      ensures !Barren(fs, q)
    {
      assert InTree(r, q) && Node(r, q) != 0 ==> !Empty(r, ino);
    }
    forall q | InTree(fs, q) && q.ino == ino && IsData(q) && Node(fs, q) != 0
      ensures PosIndex(q) < Blocks(fs, ino)
    {
      assert InTree(r, q);
    }
  }

  /** A release leaves nothing of the inode behind exactly when the inode was compact. */
  lemma ReleaseEmptiesIff(fs: FS, g: Geometry, ino: nat)
    requires TreeOk(fs, g) && ino < |fs.inodes|
    ensures Compact(fs, ino) <==> Empty(ReleaseTo(fs, g, ino, Blocks(fs, ino)), ino)
  {
    hide Compact, Empty, NodesKnown, OwnersReal;
    if Compact(fs, ino) {
      CompactEmpties(fs, g, ino);
    }
    if Empty(ReleaseTo(fs, g, ino, Blocks(fs, ino)), ino) {
      EmptyWasCompact(fs, g, ino);
    }
  }

  lemma ReleaseConservesBlock(fs: FS, g: Geometry, r: FS, ino: nat, l: nat)
    requires Wf(fs, g) && ino < |fs.inodes| && Wf(r, g) && Empty(r, ino) && |r.inodes| == |fs.inodes|
    requires r.owner.Keys <= fs.owner.Keys && forall k :: k in r.owner ==> r.owner[k] == fs.owner[k]
    requires forall q :: InTree(fs, q) && q.ino != ino ==> Node(r, q) == Node(fs, q)
    ensures l in r.owner <==> l in fs.owner && fs.owner[l].ino != ino
  {
    hide Word, Node, BitmapExact;
    if l in fs.owner {
      assert Owned(fs, g, l);
      assert l in r.owner ==> Owned(r, g, l);
      var q := fs.owner[l];
      assert InTree(r, q) && q.ino == ino ==> Node(r, q) == 0;
      if q.ino != ino {
        OwnerUnique(r, g, q);
      }
    }
  }

  /** The bitmap afterwards is the old one minus exactly the blocks of that inode, data and
      index blocks alike; the file system stays in order and no other file is touched. */
  lemma ReleaseConserves(fs: FS, g: Geometry, ino: nat, i: nat)
    requires Wf(fs, g) && ino < |fs.inodes| && Compact(fs, ino) && i < |fs.used|
    ensures var r := ReleaseTo(fs, g, ino, Blocks(fs, ino));
      && Wf(r, g) && Releasing(fs, g, r, ino, Blocks(fs, ino))
      && (r.used[i] <==> fs.used[i] && !(g.dataStart + i in fs.owner && fs.owner[g.dataStart + i].ino == ino))
  {
    hide Word, Node, PosIndex, ReleaseTo, Compact, Empty, NodesKnown, OwnersReal, DataBlock;
    var r, l := ReleaseTo(fs, g, ino, Blocks(fs, ino)), g.dataStart + i;
    ReleaseToReleases(fs, g, ino, Blocks(fs, ino));
    CompactEmpties(fs, g, ino);
    ReleaseConservesBlock(fs, g, r, ino, l);
    assert fs.used[i] <==> i < g.reserved || l in fs.owner;
    assert r.used[i] <==> i < g.reserved || l in r.owner;
    if l in fs.owner {
      OwnedBeyondReserved(fs, g, l);
    }
  }

  /** The bitmap of r is that of fs minus exactly the data and index blocks of the inode. */
  ghost predicate Conserved(fs: FS, r: FS, g: Geometry, ino: nat) {
    |r.used| == |fs.used| && forall i :: 0 <= i < |fs.used| ==>
      (r.used[i] <==> fs.used[i] && !(g.dataStart + i in fs.owner && fs.owner[g.dataStart + i].ino == ino))
  }

  lemma ConservedEmpties(fs: FS, g: Geometry, r: FS, ino: nat)
    requires Wf(fs, g) && Wf(r, g) && |r.inodes| == |fs.inodes| && Conserved(fs, r, g, ino)
    requires forall q :: InTree(fs, q) && Node(r, q) != 0 ==> Node(r, q) == Node(fs, q)
    ensures Empty(r, ino)
  {
    hide Word, Node, NodesKnown, OwnersReal, BitmapExact;
    forall q | InTree(r, q) && q.ino == ino
      ensures Node(r, q) == 0
    {
      if Node(r, q) != 0 {
        NodeMarked(r, g, q);
        OwnerUnique(fs, g, q);
        assert false;
      }
    }
  }

  lemma NodeMarked(fs: FS, g: Geometry, q: Pos)
    requires Wf(fs, g) && InTree(fs, q) && Node(fs, q) != 0
    ensures g.dataStart <= Node(fs, q) < g.dataStart + |fs.used| && fs.used[Node(fs, q) - g.dataStart]
  {
    hide Word, Node;
    OwnerUnique(fs, g, q);
  }

  /** A release frees exactly what the inode owned if and only if the inode was compact. */
  lemma ReleaseConservesIff(fs: FS, g: Geometry, ino: nat)
    requires Wf(fs, g) && ino < |fs.inodes|
    ensures Compact(fs, ino) <==> Conserved(fs, ReleaseTo(fs, g, ino, Blocks(fs, ino)), g, ino)
  {
    hide Word, Node, PosIndex, ReleaseTo, Compact, Empty, NodesKnown, OwnersReal, DataBlock;
    var r := ReleaseTo(fs, g, ino, Blocks(fs, ino));
    ReleaseToReleases(fs, g, ino, Blocks(fs, ino));
    if Compact(fs, ino) {
      forall i | 0 <= i < |fs.used|
        ensures r.used[i] <==> fs.used[i] && !(g.dataStart + i in fs.owner && fs.owner[g.dataStart + i].ino == ino)
      {
        ReleaseConserves(fs, g, ino, i);
      }
    } else if Conserved(fs, r, g, ino) {
      ConservedEmpties(fs, g, r, ino);
      EmptyWasCompact(fs, g, ino);
    }
  }

  lemma OwnedBeyondReserved(fs: FS, g: Geometry, l: nat)
    requires OwnersReal(fs, g) && l in fs.owner
    ensures g.dataStart + g.reserved <= l
  {
    assert Owned(fs, g, l);
  }

  // ---------- the code as written ----------

  /** PutBlockInInderect2 with its early return: on level 2 only the bit of the data block is
      cleared; with early == false, the code below the return as well. */
  ghost function PutAtAs(fs: FS, g: Geometry, t: Pos, early: bool): (r: FS)
    requires Shape(fs, g) && InTree(fs, t)
    ensures Shape(r, g) && |r.inodes| == |fs.inodes|
  {
    if early && t.slot == 13 then
      var l := Node(fs, t);
      if g.dataStart <= l < g.dataStart + |fs.used| then fs.(used := fs.used[l - g.dataStart := false]) else fs
    else PutAt(fs, g, t)
  }

  ghost function ReleaseAs(fs: FS, g: Geometry, ino: nat, n: nat, early: bool): (r: FS)
    requires Shape(fs, g) && ino < |fs.inodes| && n <= BLOCK_LV3
    ensures Shape(r, g) && |r.inodes| == |fs.inodes|
  {
    if n == 0 then fs else PutAtAs(ReleaseAs(fs, g, ino, n - 1, early), g, IndexPos(ino, n - 1), early)
  }

  lemma {:induction false} ReleaseAsIntended(fs: FS, g: Geometry, ino: nat, n: nat)
    requires Shape(fs, g) && ino < |fs.inodes| && n <= BLOCK_LV3
    ensures ReleaseAs(fs, g, ino, n, false) == ReleaseTo(fs, g, ino, n)
  {
    hide IndexPos, PutAt;
    if n > 0 {
      ReleaseAsIntended(fs, g, ino, n - 1);
    }
  }

  lemma PutAtKeepsLevel2(fs: FS, g: Geometry, t: Pos, ino: nat)
    requires Shape(fs, g) && InTree(fs, t) && ino < |fs.inodes|
    ensures PutAtAs(fs, g, t, true).inodes[ino].blocks[13] == fs.inodes[ino].blocks[13]
  {
    hide Word, FreeDown, Node, InodeTable.PutInode;
  }

  /** The early return never lets go of the level-2 tree ... */
  lemma {:induction false} EarlyKeepsLevel2(fs: FS, g: Geometry, ino: nat, n: nat)
    requires Shape(fs, g) && ino < |fs.inodes| && n <= BLOCK_LV3
    ensures ReleaseAs(fs, g, ino, n, true).inodes[ino].blocks[13] == fs.inodes[ino].blocks[13]
  {
    hide IndexPos, PutAtAs;
    if n > 0 {
      EarlyKeepsLevel2(fs, g, ino, n - 1);
      PutAtKeepsLevel2(ReleaseAs(fs, g, ino, n - 1, true), g, IndexPos(ino, n - 1), ino);
    }
  }

  lemma NoLevel2NoDifference(fs: FS, g: Geometry, t: Pos)
    requires Shape(fs, g) && InTree(fs, t) && fs.inodes[t.ino].blocks[13] == 0
    ensures PutAtAs(fs, g, t, true) == PutAt(fs, g, t)
  {
    hide Word, FreeDown, InodeTable.PutInode;
    assert Up(t, 0) == Pos(t.ino, t.slot, []);
    if t.slot == 13 && Node(fs, t) != 0 {
      NonzeroAbove(fs, t, 0);
    }
  }

  /** ... and makes no difference to a file without one. */
  lemma {:induction false} EarlyWithoutLevel2(fs: FS, g: Geometry, ino: nat, n: nat)
    requires Shape(fs, g) && ino < |fs.inodes| && n <= BLOCK_LV3 && fs.inodes[ino].blocks[13] == 0
    ensures ReleaseAs(fs, g, ino, n, true) == ReleaseTo(fs, g, ino, n)
  {
    hide IndexPos, PutAt, PutAtAs;
    if n > 0 {
      EarlyWithoutLevel2(fs, g, ino, n - 1);
      EarlyKeepsLevel2(fs, g, ino, n - 1);
      NoLevel2NoDifference(ReleaseTo(fs, g, ino, n - 1), g, IndexPos(ino, n - 1));
    }
  }

  /** As written, a release leaves nothing behind exactly for compact files without level-2
      blocks, that is of at most 268 blocks or with a hole over the whole level. */
  lemma EarlyEmptiesIff(fs: FS, g: Geometry, ino: nat)
    requires TreeOk(fs, g) && ino < |fs.inodes|
    ensures Empty(ReleaseAs(fs, g, ino, Blocks(fs, ino), true), ino)
      <==> Compact(fs, ino) && fs.inodes[ino].blocks[13] == 0
  {
    hide Compact, NodesKnown, OwnersReal, Word;
    var r := ReleaseAs(fs, g, ino, Blocks(fs, ino), true);
    EarlyKeepsLevel2(fs, g, ino, Blocks(fs, ino));
    assert Node(r, Pos(ino, 13, [])) == fs.inodes[ino].blocks[13];
    if fs.inodes[ino].blocks[13] == 0 {
      EarlyWithoutLevel2(fs, g, ino, Blocks(fs, ino));
      ReleaseEmptiesIff(fs, g, ino);
    } else {
      assert InTree(r, Pos(ino, 13, []));
    }
  }

  /** What one turn of the release as written keeps: the whole level-2 tree, and the bits of
      its index blocks; no bit is set. */
  /** The block at q is one that the bitmap speaks of. */
  ghost predicate Marked(fs: FS, g: Geometry, q: Pos)
    requires InTree(fs, q)
  {
    g.dataStart <= Node(fs, q) < g.dataStart + |fs.used|
  }

  /** What one step of the release as written does, as far as level-2 trees go. */
  ghost predicate EarlyDid(fs: FS, g: Geometry, r: FS, t: Pos)
    requires InTree(fs, t)
  {
    && TreeOk(r, g) && |r.mem| == |fs.mem| && |r.used| == |fs.used| && |r.inodes| == |fs.inodes|
    && (forall q :: InTree(fs, q) && q.slot == 13 ==> Node(r, q) == Node(fs, q))
    && (forall i :: 0 <= i < |fs.used| && r.used[i] ==> fs.used[i])
    && (t.slot == 13 && Node(fs, t) != 0 ==> Marked(fs, g, t) && !r.used[Node(fs, t) - g.dataStart])
    && (forall q :: InTree(fs, q) && q.slot == 13 && !IsData(q) && Node(fs, q) != 0 ==>
      Marked(fs, g, q) && r.used[Node(fs, q) - g.dataStart] == fs.used[Node(fs, q) - g.dataStart])
  }

  lemma EarlyClearsBit(fs: FS, g: Geometry, t: Pos)
    requires TreeOk(fs, g) && InTree(fs, t) && IsData(t) && t.slot == 13
    ensures EarlyDid(fs, g, PutAtAs(fs, g, t, true), t)
  {
    hide Word, PutAt, Node, NodesKnown, OwnersReal, IsData;
    var r := PutAtAs(fs, g, t, true);
    PutAtAsTree(fs, g, t, true);
    forall q | InTree(fs, q)
      ensures Node(r, q) == Node(fs, q)
    {
      NodeFrame(fs, g, r, q);
    }
    if Node(fs, t) != 0 {
      OwnerUnique(fs, g, t);
    }
    forall q | InTree(fs, q) && !IsData(q) && Node(fs, q) != 0
      ensures Node(fs, q) != Node(fs, t) && Marked(fs, g, q)
    {
      OwnerUnique(fs, g, q);
    }
  }

  lemma EarlyPrunes(fs: FS, g: Geometry, t: Pos)
    requires TreeOk(fs, g) && InTree(fs, t) && IsData(t) && t.slot != 13
    ensures EarlyDid(fs, g, PutAtAs(fs, g, t, true), t)
  {
    hide Word, PutAt, Node, NodesKnown, OwnersReal, IsData;
    PutAtAsTree(fs, g, t, true);
    if Node(fs, t) == 0 {
      PutAtNothing(fs, g, t);
    } else {
      PutAtPrunes(fs, g, t);
    }
    forall q | InTree(fs, q) && Node(fs, q) != 0
      ensures g.dataStart <= Node(fs, q) < g.dataStart + |fs.used|
    {
      OwnerUnique(fs, g, q);
    }
  }

  lemma EarlyStep(fs: FS, g: Geometry, t: Pos)
    requires TreeOk(fs, g) && InTree(fs, t) && IsData(t)
    ensures EarlyDid(fs, g, PutAtAs(fs, g, t, true), t)
  {
    hide EarlyDid, PutAtAs, TreeOk;
    if t.slot == 13 {
      EarlyClearsBit(fs, g, t);
    } else {
      EarlyPrunes(fs, g, t);
    }
  }

  /** The same over the whole release, and what it clears: the bits of the level-2 data blocks. */
  lemma {:induction false} EarlyRun(fs: FS, g: Geometry, ino: nat, n: nat)
    requires TreeOk(fs, g) && ino < |fs.inodes| && n <= BLOCK_LV3
    ensures var r := ReleaseAs(fs, g, ino, n, true);
      && TreeOk(r, g) && |r.mem| == |fs.mem| && |r.used| == |fs.used|
      && (forall q :: InTree(fs, q) && q.slot == 13 ==> Node(r, q) == Node(fs, q))
      && (forall i :: 0 <= i < n && IndexPos(ino, i).slot == 13 && Node(fs, IndexPos(ino, i)) != 0 ==>
        Marked(fs, g, IndexPos(ino, i)) && !r.used[Node(fs, IndexPos(ino, i)) - g.dataStart])
      && (forall q :: InTree(fs, q) && q.slot == 13 && !IsData(q) && Node(fs, q) != 0 ==>
        Marked(fs, g, q) && r.used[Node(fs, q) - g.dataStart] == fs.used[Node(fs, q) - g.dataStart])
  {
    hide Word, Node, NodesKnown, OwnersReal, IndexPos, PutAtAs;
    forall q | InTree(fs, q) && Node(fs, q) != 0
      ensures Marked(fs, g, q)
    {
      OwnerUnique(fs, g, q);
    }
    if n > 0 {
      EarlyRun(fs, g, ino, n - 1);
      EarlyStep(ReleaseAs(fs, g, ino, n - 1, true), g, IndexPos(ino, n - 1));
    }
  }

  /** None of the first n blocks of the file is a level-2 block in use. */
  ghost predicate NoLevel2Data(fs: FS, ino: nat, n: nat)
    requires ino < |fs.inodes| && n <= BLOCK_LV3
  {
    forall i :: 0 <= i < n && IndexPos(ino, i).slot == 13 ==> Node(fs, IndexPos(ino, i)) == 0
  }

  lemma {:induction false} NoDataNoDifference(fs: FS, g: Geometry, ino: nat, n: nat)
    requires TreeOk(fs, g) && ino < |fs.inodes| && n <= BLOCK_LV3 && NoLevel2Data(fs, ino, n)
    ensures ReleaseAs(fs, g, ino, n, true) == ReleaseTo(fs, g, ino, n)
  {
    hide IndexPos, PutAt, Node, NodesKnown, OwnersReal, BitmapExact, Word;
    if n > 0 {
      var r, t := ReleaseTo(fs, g, ino, n - 1), IndexPos(ino, n - 1);
      NoDataNoDifference(fs, g, ino, n - 1);
      ReleaseToReleases(fs, g, ino, n - 1);
      if t.slot == 13 {
        assert InTree(fs, t) && Node(fs, t) == 0 && Node(r, t) == 0;
        PutAtNothing(r, g, t);
      }
    }
  }

  /** As written, a release keeps bitmap and trees in agreement if and only if no block below
      the size is a level-2 block in use. */
  lemma EarlyKeepsWfIff(fs: FS, g: Geometry, ino: nat)
    requires Wf(fs, g) && ino < |fs.inodes|
    ensures Wf(ReleaseAs(fs, g, ino, Blocks(fs, ino), true), g) <==> NoLevel2Data(fs, ino, Blocks(fs, ino))
  {
    hide IndexPos, ReleaseAs, ReleaseTo, Node, NodesKnown, OwnersReal, Word, BitmapExact, Barren, NoBarren, DataBlock;
    var n := Blocks(fs, ino);
    var r := ReleaseAs(fs, g, ino, n, true);
    if NoLevel2Data(fs, ino, n) {
      NoDataNoDifference(fs, g, ino, n);
      ReleaseToReleases(fs, g, ino, n);
    } else {
      var i :| 0 <= i < n && IndexPos(ino, i).slot == 13 && Node(fs, IndexPos(ino, i)) != 0;
      EarlyRun(fs, g, ino, n);
      ClearedBreaks(r, g, IndexPos(ino, i));
    }
  }

  lemma ClearedBreaks(r: FS, g: Geometry, t: Pos)
    requires InTree(r, t) && g.dataStart <= Node(r, t) < g.dataStart + |r.used| && Node(r, t) != 0
    requires !r.used[Node(r, t) - g.dataStart]
    ensures !Wf(r, g)
  {
    hide Node;
    var i := Node(r, t) - g.dataStart;
    assert !r.used[i] && g.dataStart + i == Node(r, t);
    if Wf(r, g) {
      OwnerUnique(r, g, t);
      assert false;
    }
  }

  lemma {:induction false} NodeIgnoresOwner(fs: FS, o: map<nat, Pos>, p: Pos)
    requires InTree(fs, p)
    ensures Node(fs.(owner := o), p) == Node(fs, p)
    decreases |p.idxs|
  {
    if p.idxs != [] {
      NodeIgnoresOwner(fs, o, Parent(p));
    }
  }

  /** When it does not, no table of owners explains the bitmap that is left. */
  lemma EarlyBreaksForAnyOwner(fs: FS, g: Geometry, ino: nat, o: map<nat, Pos>)
    requires Wf(fs, g) && ino < |fs.inodes| && !NoLevel2Data(fs, ino, Blocks(fs, ino))
    ensures !Wf(ReleaseAs(fs, g, ino, Blocks(fs, ino), true).(owner := o), g)
  {
    hide IndexPos, ReleaseAs, Node, NodesKnown, OwnersReal, BitmapExact, Wf, Word;
    var n := Blocks(fs, ino);
    assert TreeOk(fs, g) by { WfTree(fs, g); }
    var r := ReleaseAs(fs, g, ino, n, true);
    var i :| 0 <= i < n && IndexPos(ino, i).slot == 13 && Node(fs, IndexPos(ino, i)) != 0;
    EarlyRun(fs, g, ino, n);
    NodeIgnoresOwner(r, o, IndexPos(ino, i));
    ClearedBreaks(r.(owner := o), g, IndexPos(ino, i));
  }

  lemma WfTree(fs: FS, g: Geometry)
    requires Wf(fs, g)
    ensures TreeOk(fs, g)
  {
  }

  /** As written, a release frees exactly what the inode owned if and only if the inode was
      compact and had no level-2 tree. */
  lemma EarlyConservesIff(fs: FS, g: Geometry, ino: nat)
    requires Wf(fs, g) && ino < |fs.inodes|
    ensures Compact(fs, ino) && fs.inodes[ino].blocks[13] == 0 <==>
      Conserved(fs, ReleaseAs(fs, g, ino, Blocks(fs, ino), true), g, ino)
  {
    hide Word, ReleaseAs, ReleaseTo, Compact, NodesKnown, OwnersReal, IndexPos;
    var n, q := Blocks(fs, ino), Pos(ino, 13, []);
    if fs.inodes[ino].blocks[13] == 0 {
      EarlyWithoutLevel2(fs, g, ino, n);
      ReleaseConservesIff(fs, g, ino);
    } else {
      EarlyRun(fs, g, ino, n);
      OwnerUnique(fs, g, q);
      var i := Node(fs, q) - g.dataStart;
      assert fs.used[i] <==> i < g.reserved || g.dataStart + i in fs.owner;
    }
  }

  /** What goes wrong: the block is free in the bitmap and still in the file. */
  lemma EarlyReturnDangles(fs: FS, g: Geometry, t: Pos)
    requires Wf(fs, g) && InTree(fs, t) && IsData(t) && t.slot == 13 && Node(fs, t) != 0
    ensures var r := PutAtAs(fs, g, t, true);
      Node(r, t) == Node(fs, t) && !r.used[Node(r, t) - g.dataStart] && !Wf(r, g)
  {
    hide Word;
    var r := PutAtAs(fs, g, t, true);
    OwnerUnique(fs, g, t);
    NodeFrame(fs, g, r, t);
    assert !r.used[Node(r, t) - g.dataStart];
    assert r.used[Node(r, t) - g.dataStart] <==> fs.used[Node(r, t) - g.dataStart] && false;
  }

  /** The way to a level-2 block, pointer by pointer. */
  lemma Level2Path(fs: FS, g: Geometry, ino: nat, i: ptr, j: ptr)
    requires TreeOk(fs, g) && ino < |fs.inodes|
    ensures var root, d := fs.inodes[ino].blocks[13], Node(fs, Pos(ino, 13, [i, j]));
      && (root == 0 ==> d == 0)
      && (root != 0 ==> root < |fs.mem| && var mid := Word(fs.mem[root], i);
        if mid == 0 then d == 0 else mid < |fs.mem| && d == Word(fs.mem[mid], j))
      && (d != 0 ==> g.dataStart <= d < g.dataStart + |fs.used|)
  {
    hide Word;
    var r, m, t := Pos(ino, 13, []), Pos(ino, 13, [i]), Pos(ino, 13, [i, j]);
    assert Parent(m) == r && Parent(t) == m;
    if Node(fs, r) != 0 {
      OwnerUnique(fs, g, r);
      if Node(fs, m) != 0 {
        OwnerUnique(fs, g, m);
        if Node(fs, t) != 0 {
          OwnerUnique(fs, g, t);
        }
      }
    }
  }

  /** Either way the trees stay trees. */
  lemma PutAtAsTree(fs: FS, g: Geometry, t: Pos, early: bool)
    requires TreeOk(fs, g) && InTree(fs, t) && IsData(t)
    ensures TreeOk(PutAtAs(fs, g, t, early), g) && |PutAtAs(fs, g, t, early).mem| == |fs.mem|
  {
    hide Word, PutAt;
    var r := PutAtAs(fs, g, t, early);
    if early && t.slot == 13 {
      forall p | InTree(fs, p)
        ensures Node(r, p) == Node(fs, p)
      {
        NodeFrame(fs, g, r, p);
      }
      forall l | l in r.owner
        ensures Owned(r, g, l)
      {
        assert Owned(fs, g, l);
      }
      return;
    }
    if Node(fs, t) == 0 {
      PutAtNothing(fs, g, t);
    } else {
      PutAtPrunes(fs, g, t);
    }
  }
}
