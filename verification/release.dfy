/** Giving the blocks of a file back (src/fs/bofs/inode.c:827-1424): what one freed block
    takes with it, and when a whole release returns exactly what the inode owned. */
module Release {
  import opened BlockDevices
  import opened BlockTree
  import opened InodeTable
  import opened FileTree

  // ---------- the operations ----------

  ghost function FreeOneSector(fs: FS, g: Geometry, l: nat): (r: FS)
    requires Shape(fs, g)
    ensures Shape(r, g)
  {
    if g.dataStart <= l < g.dataStart + |fs.used| then
      fs.(used := fs.used[l - g.dataStart := false], owner := fs.owner - {l})
    else fs
  }

  predicate IsEmptyBlock(b: Block) {
    forall j: ptr :: Word(b, j) == 0
  }

  /** From the index block `cur` at place p down the given indices: frees the data block at
      the end, then every index block on the way back up whose last pointer that cleared. The
      flag tells whether `cur` itself went. */
  ghost function FreeDown(fs: FS, g: Geometry, p: Pos, cur: nat, idxs: seq<ptr>): (r: (FS, bool))
    requires Shape(fs, g) && cur < |fs.mem| && idxs != []
    ensures Shape(r.0, g) && |r.0.mem| == |fs.mem| && |r.0.used| == |fs.used| && r.0.inodes == fs.inodes
    decreases |idxs|
  {
    var child := Word(fs.mem[cur], idxs[0]);
    if child == 0 || child >= |fs.mem| then (fs, false)
    else
      var (fs1, gone) := if |idxs| == 1 then (FreeOneSector(fs, g, child), true)
                         else FreeDown(fs, g, Child(p, idxs[0]), child, idxs[1..]);
      var b := PutWord(fs.mem[cur], idxs[0], 0);
      if !gone then (fs1, false)
      else if IsEmptyBlock(b) then (FreeOneSector(fs1, g, cur), true)
      else (PutBlock(fs1, cur, b), false)
  }

  /** Frees the block at data position t, if there is one. */
  ghost function PutAt(fs: FS, g: Geometry, t: Pos): (r: FS)
    requires Shape(fs, g) && t.ino < |fs.inodes|
    ensures Shape(r, g)
  {
    var root := fs.inodes[t.ino].blocks[t.slot];
    if root == 0 || root >= |fs.mem| then fs
    else if t.idxs == [] then
      SyncInode(SetRoot(FreeOneSector(fs, g, root), t.ino, t.slot, 0), g, t.ino)
    else
      var (fs1, gone) := FreeDown(fs, g, Pos(t.ino, t.slot, []), root, t.idxs);
      if gone then SyncInode(SetRoot(fs1, t.ino, t.slot, 0), g, t.ino) else fs1
  }

  // ---------- cutting a branch off ----------

  /** Is D exactly the set of blocks at and below place r? */
  ghost predicate Branch(fs: FS, r: Pos, D: set<nat>) {
    forall q :: InTree(fs, q) && Node(fs, q) != 0 ==> (OnPath(r, q) <==> Node(fs, q) in D)
  }

  /** fs with the blocks of D no longer allocated to anybody. */
  ghost function Freed(fs: FS, g: Geometry, D: set<nat>): FS {
    fs.(used := seq(|fs.used|, i requires 0 <= i < |fs.used| => fs.used[i] && g.dataStart + i !in D),
        owner := fs.owner - D)
  }

  /** fs' is fs after the pointer at r was cleared and the branch below it freed. */
  ghost predicate Detached(fs: FS, g: Geometry, fs': FS, r: Pos, D: set<nat>) {
    && TreeOk(fs, g) && InTree(fs, r) && Node(fs, r) != 0 && Branch(fs, r, D) && D <= fs.owner.Keys
    && fs'.used == Freed(fs, g, D).used && fs'.owner == fs.owner - D && |fs'.mem| == |fs.mem|
    && if r.idxs == [] then
         && fs'.inodes == SetRoot(fs, r.ino, r.slot, 0).inodes
         && forall k :: g.dataStart <= k < |fs.mem| ==> fs'.mem[k] == fs.mem[k]
       else
         var cur := Node(fs, Parent(r));
         && fs'.inodes == fs.inodes && cur < |fs.mem|
         && (forall j: ptr :: Word(fs'.mem[cur], j) == if j == Last(r) then 0 else Word(fs.mem[cur], j))
         && forall k :: g.dataStart <= k < |fs.mem| && k != cur ==> fs'.mem[k] == fs.mem[k]
  }

  /** Pointer i of an index block outside the branch, before and after. */
  lemma WordAfterDetach(fs: FS, g: Geometry, fs': FS, r: Pos, D: set<nat>, s: Pos, i: ptr)
    requires Detached(fs, g, fs', r, D) && InTree(fs, Child(s, i)) && Node(fs, s) != 0
    ensures Node(fs, s) < |fs.mem| == |fs'.mem|
    ensures Word(fs'.mem[Node(fs, s)], i) == if Child(s, i) == r then 0 else Word(fs.mem[Node(fs, s)], i)
  {
    hide Word;
    OwnerUnique(fs, g, s);
    assert Child(s, i) == r <==> r.idxs != [] && s == Parent(r) && i == Last(r);
    if r.idxs != [] {
      NonzeroAbove(fs, r, |r.idxs| - 1);
      OwnerUnique(fs, g, Parent(r));
    }
  }

  lemma {:induction false} NodeAfterDetach(fs: FS, g: Geometry, fs': FS, r: Pos, D: set<nat>, q: Pos)
    requires Detached(fs, g, fs', r, D) && InTree(fs, q)
    ensures Node(fs', q) == if OnPath(r, q) then 0 else Node(fs, q)
    decreases |q.idxs|
  {
    hide Word, Branch, TreeOk;
    if q.idxs == [] {
      assert q == Pos(q.ino, q.slot, []);
      return;
    }
    var s := Parent(q);
    NodeAfterDetach(fs, g, fs', r, D, s);
    assert q == Child(s, Last(q));
    if !OnPath(r, s) {
      assert OnPath(r, q) <==> r == q;
      if Node(fs, s) != 0 {
        WordAfterDetach(fs, g, fs', r, D, s, Last(q));
      }
    }
  }

  lemma TreeAfterDetach(fs: FS, g: Geometry, fs': FS, r: Pos, D: set<nat>)
    requires Detached(fs, g, fs', r, D)
    ensures TreeOk(fs', g)
    ensures forall q :: InTree(fs, q) ==> Node(fs', q) == if OnPath(r, q) then 0 else Node(fs, q)
  {
    forall q | InTree(fs, q)
      ensures Node(fs', q) == if OnPath(r, q) then 0 else Node(fs, q)
    {
      NodeAfterDetach(fs, g, fs', r, D, q);
    }
    forall l | l in fs'.owner
      ensures Owned(fs', g, l)
    {
      assert Owned(fs, g, l);
    }
    ShapeAfterDetach(fs, g, fs', r, D);
  }

  lemma ShapeAfterDetach(fs: FS, g: Geometry, fs': FS, r: Pos, D: set<nat>)
    requires Detached(fs, g, fs', r, D)
    ensures Shape(fs', g)
  {
    forall k | 0 <= k < |fs.inodes|
      ensures fs'.inodes[k].id == fs.inodes[k].id
    {
    }
  }

  lemma DataAfterDetach(fs: FS, g: Geometry, fs': FS, r: Pos, D: set<nat>, q: Pos)
    requires Detached(fs, g, fs', r, D) && InTree(fs, q) && IsData(q) && !OnPath(r, q)
    ensures DataBlock(fs', q) == DataBlock(fs, q)
  {
    NodeAfterDetach(fs, g, fs', r, D, q);
    if Node(fs, q) != 0 {
      OwnerUnique(fs, g, q);
      if r.idxs != [] {
        NonzeroAbove(fs, r, |r.idxs| - 1);
        OwnerUnique(fs, g, Parent(r));
        assert q != Parent(r);
      }
    }
  }

  // ---------- what freeing one data block takes with it ----------

  function Up(t: Pos, k: nat): Pos
    requires k <= |t.idxs|
  {
    t.(idxs := t.idxs[..k])
  }

  /** A data block in use and its place. */
  ghost predicate Leaf(fs: FS, g: Geometry, t: Pos) {
    TreeOk(fs, g) && InTree(fs, t) && IsData(t) && Node(fs, t) != 0
  }

  lemma NodeOfChild(fs: FS, p: Pos, i: ptr)
    requires InTree(fs, p) && InTree(fs, Child(p, i)) && 0 < Node(fs, p) < |fs.mem|
    ensures Node(fs, Child(p, i)) == Word(fs.mem[Node(fs, p)], i)
  {
    assert Parent(Child(p, i)) == p;
  }

  lemma LeafAbove(fs: FS, g: Geometry, t: Pos, k: nat)
    requires Leaf(fs, g, t) && k <= |t.idxs|
    ensures InTree(fs, Up(t, k)) && Node(fs, Up(t, k)) != 0
    ensures Node(fs, Up(t, k)) in fs.owner && fs.owner[Node(fs, Up(t, k))] == Up(t, k)
    ensures g.dataStart + g.reserved <= Node(fs, Up(t, k)) < g.dataStart + |fs.used| <= |fs.mem|
    ensures k < |t.idxs| ==> Up(t, k + 1) == Child(Up(t, k), t.idxs[k])
    ensures k < |t.idxs| ==> Node(fs, Up(t, k + 1)) == Word(fs.mem[Node(fs, Up(t, k))], t.idxs[k])
    ensures Up(t, |t.idxs|) == t
  {
    hide Word, NodesKnown, OwnersReal, Node;
    assert t.idxs[..|t.idxs|] == t.idxs;
    NonzeroAbove(fs, t, k);
    OwnerUnique(fs, g, Up(t, k));
    if k < |t.idxs| {
      assert Up(t, k + 1) == Child(Up(t, k), t.idxs[k]);
      NodeOfChild(fs, Up(t, k), t.idxs[k]);
    }
  }

  /** The index block of level k on the way to t holds no pointer besides the one towards t. */
  ghost predicate OnlyChild(fs: FS, t: Pos, k: nat)
    requires InTree(fs, t) && k < |t.idxs| && Node(fs, Up(t, k)) < |fs.mem|
  {
    IsEmptyBlock(PutWord(fs.mem[Node(fs, Up(t, k))], t.idxs[k], 0))
  }

  /** The level at which freeing t stops, looking from level k: everything on the way to t
      from there on goes. */
  ghost function Cut(fs: FS, g: Geometry, t: Pos, k: nat): (j: nat)
    requires Leaf(fs, g, t) && k <= |t.idxs|
    ensures k <= j <= |t.idxs|
    decreases |t.idxs| - k
  {
    if k == |t.idxs| then k
    else
      LeafAbove(fs, g, t, k);
      var j := Cut(fs, g, t, k + 1);
      if j == k + 1 && OnlyChild(fs, t, k) then k else j
  }

  /** The blocks on the way to t from level k on. */
  ghost function Chain(fs: FS, t: Pos, k: nat): set<nat>
    requires InTree(fs, t) && k <= |t.idxs|
    decreases |t.idxs| - k
  {
    {Node(fs, Up(t, k)) as nat} + if k == |t.idxs| then {} else Chain(fs, t, k + 1)
  }

  lemma {:induction false} ChainOwned(fs: FS, g: Geometry, t: Pos, k: nat)
    requires Leaf(fs, g, t) && k <= |t.idxs|
    ensures Chain(fs, t, k) <= fs.owner.Keys
    decreases |t.idxs| - k
  {
    LeafAbove(fs, g, t, k);
    if k < |t.idxs| {
      ChainOwned(fs, g, t, k + 1);
    }
  }

  lemma InChainIff(fs: FS, g: Geometry, t: Pos, k: nat, q: Pos)
    requires Leaf(fs, g, t) && k <= |t.idxs| && Cut(fs, g, t, k) == k
    requires InTree(fs, q) && Node(fs, q) != 0
    requires k < |t.idxs| ==> (OnPath(Up(t, k + 1), q) <==> Node(fs, q) in Chain(fs, t, k + 1))
    ensures OnPath(Up(t, k), q) <==> Node(fs, q) in Chain(fs, t, k)
  {
    hide Word, PutWord, TreeOk, Node, Cut;
    var p := Up(t, k);
    LeafAbove(fs, g, t, k);
    OwnerUnique(fs, g, q);
    if q == p {
      return;
    }
    if OnPath(p, q) {
      OnlyChildBelow(fs, g, t, k, q);
      return;
    }
    if k < |t.idxs| {
      assert p.idxs <= Up(t, k + 1).idxs;
    }
  }

  /** What goes is exactly the branch at the cut: no index block is freed while some other
      pointer in it is still set. */
  lemma {:induction false} ChainIsBranch(fs: FS, g: Geometry, t: Pos, k: nat)
    requires Leaf(fs, g, t) && k <= |t.idxs| && Cut(fs, g, t, k) == k
    ensures Branch(fs, Up(t, k), Chain(fs, t, k))
    decreases |t.idxs| - k
  {
    hide Word, PutWord, TreeOk, Node, Chain;
    if k < |t.idxs| {
      LeafAbove(fs, g, t, k);
      ChainIsBranch(fs, g, t, k + 1);
    }
    forall q | InTree(fs, q) && Node(fs, q) != 0
      ensures OnPath(Up(t, k), q) <==> Node(fs, q) in Chain(fs, t, k)
    {
      InChainIff(fs, g, t, k, q);
    }
  }

  lemma OnlyChildBelow(fs: FS, g: Geometry, t: Pos, k: nat, q: Pos)
    requires Leaf(fs, g, t) && k <= |t.idxs| && Cut(fs, g, t, k) == k
    requires InTree(fs, q) && Node(fs, q) != 0 && OnPath(Up(t, k), q) && q != Up(t, k)
    ensures k < |t.idxs| && OnPath(Up(t, k + 1), q)
  {
    hide Word, PutWord, TreeOk, Node;
    LeafAbove(fs, g, t, k);
    var p := Up(t, k);
    assert |q.idxs| > k;
    var i, c := q.idxs[k], Up(q, k + 1);
    NonzeroAbove(fs, q, k + 1);
    assert c == Child(p, i);
    NodeOfChild(fs, p, i);
    WordOfPutWord(fs.mem[Node(fs, p)], t.idxs[k], 0, i);
    assert i == t.idxs[k];
  }

  /** FreeDown does what the cut says: either everything from its level down goes and no
      pointer is written, or the branch at the cut is detached. */
  lemma {:induction false} FreeDownCuts(fs: FS, g: Geometry, t: Pos, k: nat)
    requires Leaf(fs, g, t) && k < |t.idxs|
    requires InTree(fs, Up(t, k)) && Node(fs, Up(t, k)) < |fs.mem|
    ensures var r, j := FreeDown(fs, g, Up(t, k), Node(fs, Up(t, k)), t.idxs[k..]), Cut(fs, g, t, k);
      && InTree(fs, Up(t, j)) && (r.1 <==> j == k)
      && (r.1 ==> r.0 == Freed(fs, g, Chain(fs, t, k)))
      && (!r.1 ==> Detached(fs, g, r.0, Up(t, j), Chain(fs, t, j)))
    decreases |t.idxs| - k
  {
    hide Word, PutWord, Node, Freed, Detached, NodesKnown, OwnersReal;
    LeafAbove(fs, g, t, k);
    LeafAbove(fs, g, t, k + 1);
    var cur, child, c, j := Node(fs, Up(t, k)), Node(fs, Up(t, k + 1)), Up(t, k + 1), Cut(fs, g, t, k + 1);
    var fs1, gone;
    assert t.idxs[k..][1..] == t.idxs[k + 1..];
    if k + 1 == |t.idxs| {
      FreedLeaf(fs, g, t);
      fs1, gone := FreeOneSector(fs, g, child), true;
    } else {
      FreeDownCuts(fs, g, t, k + 1);
      var r := FreeDown(fs, g, c, child, t.idxs[k + 1..]);
      fs1, gone := r.0, r.1;
    }
    if !gone {
      return;
    }
    var b := PutWord(fs.mem[cur], t.idxs[k], 0);
    if IsEmptyBlock(b) {
      FreedOneMore(fs, g, Chain(fs, t, k + 1), cur);
    } else {
      CutHere(fs, g, t, k, fs1, PutBlock(fs1, cur, b));
    }
  }

  lemma FreedOne(fs: FS, g: Geometry, l: nat)
    requires Shape(fs, g) && g.dataStart <= l < g.dataStart + |fs.used|
    ensures FreeOneSector(fs, g, l) == Freed(fs, g, {l})
  {
    assert FreeOneSector(fs, g, l).used == Freed(fs, g, {l}).used;
  }

  lemma FreedLeaf(fs: FS, g: Geometry, t: Pos)
    requires Leaf(fs, g, t)
    ensures FreeOneSector(fs, g, Node(fs, t)) == Freed(fs, g, Chain(fs, t, |t.idxs|))
  {
    hide Word, PutWord, NodesKnown, OwnersReal, Freed, FreeOneSector;
    LeafAbove(fs, g, t, |t.idxs|);
    assert Chain(fs, t, |t.idxs|) == {Node(fs, t)};
    FreedOne(fs, g, Node(fs, t));
  }

  lemma FreedOneMore(fs: FS, g: Geometry, D: set<nat>, l: nat)
    requires Shape(fs, g) && g.dataStart <= l < g.dataStart + |fs.used|
    ensures Shape(Freed(fs, g, D), g)
    ensures FreeOneSector(Freed(fs, g, D), g, l) == Freed(fs, g, {l} + D)
  {
    assert FreeOneSector(Freed(fs, g, D), g, l).used == Freed(fs, g, {l} + D).used;
    assert fs.owner - D - {l} == fs.owner - ({l} + D);
  }

  lemma CutHere(fs: FS, g: Geometry, t: Pos, k: nat, fs1: FS, fs2: FS)
    requires Leaf(fs, g, t) && k < |t.idxs| && Cut(fs, g, t, k + 1) == k + 1
    requires InTree(fs, Up(t, k)) && Node(fs, Up(t, k)) < |fs.mem|
    requires fs1 == Freed(fs, g, Chain(fs, t, k + 1))
    requires fs2 == PutBlock(fs1, Node(fs, Up(t, k)), PutWord(fs.mem[Node(fs, Up(t, k))], t.idxs[k], 0))
    ensures Detached(fs, g, fs2, Up(t, k + 1), Chain(fs, t, k + 1))
  {
    hide Word, PutWord;
    var p, c := Up(t, k), Up(t, k + 1);
    LeafAbove(fs, g, t, k);
    LeafAbove(fs, g, t, k + 1);
    assert Parent(c) == p && Last(c) == t.idxs[k];
    ChainIsBranch(fs, g, t, k + 1);
    ChainOwned(fs, g, t, k + 1);
    forall j: ptr
      ensures Word(fs2.mem[Node(fs, p)], j) == if j == Last(c) then 0 else Word(fs.mem[Node(fs, p)], j)
    {
      WordOfPutWord(fs.mem[Node(fs, p)], t.idxs[k], 0, j);
    }
  }

  /** fs' is fs without the branch at r, whose blocks are D, and otherwise the same to any
      reader; the inode table keeps up. */
  ghost predicate Pruned(fs: FS, g: Geometry, fs': FS, r: Pos, D: set<nat>) {
    && TreeOk(fs', g) && TableKept(fs, fs', g) && Branch(fs, r, D) && D <= fs.owner.Keys
    && fs'.used == Freed(fs, g, D).used && fs'.owner == fs.owner - D && |fs'.mem| == |fs.mem|
    && (forall k :: 0 <= k < |fs.inodes| ==> fs'.inodes[k] == fs.inodes[k].(blocks := fs'.inodes[k].blocks))
    && (forall q :: InTree(fs, q) ==> Node(fs', q) == if OnPath(r, q) then 0 else Node(fs, q))
    && (forall q :: InTree(fs, q) && IsData(q) && !OnPath(r, q) ==> DataBlock(fs', q) == DataBlock(fs, q))
  }

  lemma DetachedIsPruned(fs: FS, g: Geometry, fs': FS, r: Pos, D: set<nat>)
    requires Detached(fs, g, fs', r, D) && SameTable(fs, fs', g)
    ensures Pruned(fs, g, fs', r, D)
  {
    TreeAfterDetach(fs, g, fs', r, D);
    SameTableKept(fs, fs', g);
    forall q | InTree(fs, q) && IsData(q) && !OnPath(r, q)
      ensures DataBlock(fs', q) == DataBlock(fs, q)
    {
      DataAfterDetach(fs, g, fs', r, D, q);
    }
  }

  lemma DetachedRootIsPruned(fs: FS, g: Geometry, fs1: FS, r: Pos, D: set<nat>)
    requires Detached(fs, g, fs1, r, D) && r.idxs == [] && fs1.mem == fs.mem
    ensures Shape(fs1, g) && Pruned(fs, g, SyncInode(fs1, g, r.ino), r, D)
  {
    hide Node, Word, GetInode, PutInode;
    TreeAfterDetach(fs, g, fs1, r, D);
    var fs' := SyncInode(fs1, g, r.ino);
    SyncInodeKeeps(fs1, g, r.ino);
    SyncInodeTree(fs1, g, r.ino);
    forall q | InTree(fs, q) && IsData(q) && !OnPath(r, q)
      ensures DataBlock(fs', q) == DataBlock(fs, q)
    {
      DataAfterDetach(fs, g, fs1, r, D, q);
    }
    forall k | 0 <= k < |fs.inodes| && OnDisk(fs, g, k)
      ensures OnDisk(fs', g, k)
    {
      assert k != r.ino ==> fs1.inodes[k] == fs.inodes[k];
    }
  }

  /** The way to t is blocked somewhere: nothing is freed. */
  lemma {:induction false} FreeDownNothing(fs: FS, g: Geometry, t: Pos, k: nat)
    requires TreeOk(fs, g) && InTree(fs, t) && IsData(t) && Node(fs, t) == 0 && k < |t.idxs|
    requires Node(fs, Up(t, k)) != 0
    ensures Node(fs, Up(t, k)) < |fs.mem| && FreeDown(fs, g, Up(t, k), Node(fs, Up(t, k)), t.idxs[k..]) == (fs, false)
    decreases |t.idxs| - k
  {
    hide Word, PutWord;
    OwnerUnique(fs, g, Up(t, k));
    var c := Up(t, k + 1);
    assert c == Child(Up(t, k), t.idxs[k]);
    NodeOfChild(fs, Up(t, k), t.idxs[k]);
    assert t.idxs[k..][1..] == t.idxs[k + 1..];
    assert k + 1 == |t.idxs| ==> c == t;
    if Node(fs, c) != 0 {
      OwnerUnique(fs, g, c);
      FreeDownNothing(fs, g, t, k + 1);
    }
  }

  lemma PutAtNothing(fs: FS, g: Geometry, t: Pos)
    requires TreeOk(fs, g) && InTree(fs, t) && IsData(t) && Node(fs, t) == 0
    ensures PutAt(fs, g, t) == fs
  {
    var p := Pos(t.ino, t.slot, []);
    assert Up(t, 0) == p && t.idxs[0..] == t.idxs;
    if t.idxs != [] && Node(fs, p) != 0 {
      FreeDownNothing(fs, g, t, 0);
    }
  }

  lemma {:induction false} FreeDownKeepsTable(fs: FS, g: Geometry, t: Pos, k: nat)
    requires Leaf(fs, g, t) && k < |t.idxs|
    requires InTree(fs, Up(t, k)) && Node(fs, Up(t, k)) < |fs.mem|
    ensures SameTable(fs, FreeDown(fs, g, Up(t, k), Node(fs, Up(t, k)), t.idxs[k..]).0, g)
    decreases |t.idxs| - k
  {
    hide Word, PutWord, Node, NodesKnown, OwnersReal, Leaf, IsEmptyBlock;
    LeafAbove(fs, g, t, k);
    LeafAbove(fs, g, t, k + 1);
    assert t.idxs[k..][1..] == t.idxs[k + 1..];
    if k + 1 < |t.idxs| {
      FreeDownKeepsTable(fs, g, t, k + 1);
    }
  }

  lemma RootCut(fs: FS, g: Geometry, t: Pos, fs1: FS)
    requires Leaf(fs, g, t) && Cut(fs, g, t, 0) == 0 && fs1 == Freed(fs, g, Chain(fs, t, 0)) && Shape(fs1, g)
    ensures Shape(SetRoot(fs1, t.ino, t.slot, 0), g)
    ensures Pruned(fs, g, SyncInode(SetRoot(fs1, t.ino, t.slot, 0), g, t.ino), Up(t, 0), Chain(fs, t, 0))
  {
    hide Word, PutWord, Pruned;
    var p := Pos(t.ino, t.slot, []);
    assert Up(t, 0) == p;
    LeafAbove(fs, g, t, 0);
    ChainIsBranch(fs, g, t, 0);
    ChainOwned(fs, g, t, 0);
    DetachedRootIsPruned(fs, g, SetRoot(fs1, t.ino, t.slot, 0), p, Chain(fs, t, 0));
  }

  /** Freeing the block at t prunes the branch at the cut. */
  lemma PutAtPrunes(fs: FS, g: Geometry, t: Pos)
    requires Leaf(fs, g, t)
    ensures var j := Cut(fs, g, t, 0); Pruned(fs, g, PutAt(fs, g, t), Up(t, j), Chain(fs, t, j))
  {
    var p, j := Pos(t.ino, t.slot, []), Cut(fs, g, t, 0);
    assert Node(fs, p) == fs.inodes[t.ino].blocks[t.slot];
    hide Node, Word, PutWord, Pruned, Detached;
    assert Up(t, 0) == p && t.idxs[0..] == t.idxs;
    LeafAbove(fs, g, t, 0);
    if t.idxs == [] {
      FreedLeaf(fs, g, t);
      RootCut(fs, g, t, FreeOneSector(fs, g, Node(fs, t)));
      return;
    }
    FreeDownCuts(fs, g, t, 0);
    var (fs1, gone) := FreeDown(fs, g, p, Node(fs, p), t.idxs);
    if gone {
      RootCut(fs, g, t, fs1);
    } else {
      FreeDownKeepsTable(fs, g, t, 0);
      DetachedIsPruned(fs, g, fs1, Up(t, j), Chain(fs, t, j));
    }
  }
}
