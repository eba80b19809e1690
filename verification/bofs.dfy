/** A mounted BOFS file system: the methods of src/fs/bofs/inode.c on the disk, the sector
    bitmap and the in-core inodes, each proved to be the function of the same name in
    FileTree. */
module Bofs {
  import opened Basics
  import opened BlockDevices
  import opened BlockTree
  import opened InodeTable
  import opened FileTree
  import Release
  import ReleaseData
  import Bitmaps

  class FileSystem {
    const disk: Disk
    const sectorBitmap: Bitmaps.Bitmap
    const geometry: Geometry
    var inodes: seq<Inode>

    ghost var owner: map<nat, Pos>

    ghost function State(): FS
      reads this, disk, sectorBitmap, sectorBitmap.bits
    {
      FS(disk.view, sectorBitmap.Bits(), inodes, owner)
    }

    /** The parts are in order and do not overlap in memory. */
    ghost predicate Mounted()
      reads this, disk, disk.Repr, sectorBitmap, sectorBitmap.bits
    {
      && disk.Valid()
      && this !in disk.Repr && sectorBitmap !in disk.Repr && sectorBitmap.bits !in disk.Repr
      && Shape(State(), geometry)
    }

    ghost predicate Valid()
      reads this, disk, disk.Repr, sectorBitmap, sectorBitmap.bits
    {
      Mounted() && Wf(State(), geometry)
    }

    constructor (disk: Disk, sectorBitmap: Bitmaps.Bitmap, geometry: Geometry, inodes: seq<Inode>,
                 ghost owner: map<nat, Pos>)
      requires disk.Valid() && sectorBitmap !in disk.Repr && sectorBitmap.bits !in disk.Repr
      requires Wf(FS(disk.view, sectorBitmap.Bits(), inodes, owner), geometry)
      ensures Valid() && this.disk == disk && this.sectorBitmap == sectorBitmap && this.geometry == geometry
      ensures State() == FS(disk.view, sectorBitmap.Bits(), inodes, owner)
    {
      this.disk, this.sectorBitmap, this.geometry := disk, sectorBitmap, geometry;
      this.inodes, this.owner := inodes, owner;
    }

    /** Takes a free block for place p and clears it; -1 when there is none. */
    method AllocOneSector(ghost p: Pos) returns (ret: int, data: word)
      requires Mounted()
      modifies this`owner, disk, disk.Repr, sectorBitmap.bits
      ensures Mounted() && fresh(disk.Repr - old(disk.Repr))
      ensures (State(), data) == FileTree.AllocOneSector(old(State()), geometry, p)
      ensures ret == if data == 0 then -1 else 0
    {
      hide Disk.Valid, Disk.Coherent, Disk.Quiet, Bitmaps.BitsOf;
      var idx := sectorBitmap.Scan(1, false);
      if idx == -1 {
        return -1, 0;
      }
      sectorBitmap.Set(idx, true);
      data := geometry.dataStart + idx;
      var buffer := new byte[BLOCK_SIZE](_ => 0);
      assert buffer[..] == ZeroBlock();
      var _ := disk.BlockWrite(data, buffer, false);
      owner := owner[data as nat := p];
      ret := 0;
    }

    /** Writes an in-core inode to its entry of the inode table. */
    method SyncInode(ino: nat)
      requires Mounted() && ino < |inodes|
      modifies disk, disk.Repr
      ensures Mounted() && fresh(disk.Repr - old(disk.Repr))
      ensures State() == FileTree.SyncInode(old(State()), geometry, ino)
    {
      hide Disk.Valid, Disk.Coherent, Disk.Quiet, Bitmaps.BitsOf, PutInode;
      var inode := inodes[ino];
      var sectorOffset := inode.id / INODE_NR_IN_SECTOR;
      var lba := geometry.inodeTableLba + sectorOffset;
      var bufOffset := inode.id % INODE_NR_IN_SECTOR;
      var iobuf := new byte[BLOCK_SIZE](_ => 0);
      disk.BlockRead(lba, iobuf);
      var now := PutInode(iobuf[..], bufOffset, inode);
      forall i | 0 <= i < BLOCK_SIZE {
        iobuf[i] := now[i];
      }
      assert iobuf[..] == now;
      var _ := disk.BlockWrite(lba, iobuf, false);
    }

    /** The inode stored in the table under an id. */
    method LoadInodeByID(id: word) returns (inode: Inode)
      requires Mounted() && geometry.inodeTableLba + id / INODE_NR_IN_SECTOR < geometry.dataStart
      modifies disk, disk.Repr
      ensures Mounted() && fresh(disk.Repr - old(disk.Repr)) && State() == old(State())
      ensures inode == GetInode(State().mem[geometry.inodeTableLba + id / INODE_NR_IN_SECTOR], id % INODE_NR_IN_SECTOR)
    {
      hide Disk.Valid, Disk.Coherent, Disk.Quiet, Bitmaps.BitsOf, GetInode;
      var iobuf := new byte[BLOCK_SIZE](_ => 0);
      disk.BlockRead(geometry.inodeTableLba + id / INODE_NR_IN_SECTOR, iobuf);
      inode := GetInode(iobuf[..], id % INODE_NR_IN_SECTOR);
    }

    /** An inode written back and loaded again by its number is the inode in memory, and any other
        number loads what it did before. */
    method SyncAndLoad(ino: nat, id: word) returns (loaded: Inode)
      requires Mounted() && ino < |inodes| && geometry.inodeTableLba + id / INODE_NR_IN_SECTOR < geometry.dataStart
      modifies disk, disk.Repr
      ensures Mounted() && fresh(disk.Repr - old(disk.Repr))
      ensures loaded == if id == inodes[ino].id then inodes[ino]
        else GetInode(old(State()).mem[geometry.inodeTableLba + id / INODE_NR_IN_SECTOR], id % INODE_NR_IN_SECTOR)
    {
      hide Disk.Valid, Disk.Coherent, Disk.Quiet, Bitmaps.BitsOf, GetInode, FileTree.SyncInode;
      SyncInodeStores(State(), geometry, ino);
      SameRecord(id, inodes[ino].id);
      SyncInode(ino);
      loaded := LoadInodeByID(id);
    }

    static lemma SameRecord(a: nat, b: nat)
      ensures a == b <==>
        a / INODE_NR_IN_SECTOR == b / INODE_NR_IN_SECTOR && a % INODE_NR_IN_SECTOR == b % INODE_NR_IN_SECTOR
    {
    }

    /** The part the three levels share: the block pointer i of the index block `cur` leads
        to; a missing one is allocated and the index block written back. */
    method ChildOrNew(ghost p: Pos, cur: nat, i: ptr) returns (ret: int, block: word)
      requires Mounted() && cur < |State().mem|
      modifies this`owner, disk, disk.Repr, sectorBitmap.bits
      ensures Mounted() && fresh(disk.Repr - old(disk.Repr))
      ensures (State(), block) == FileTree.ChildOrNew(old(State()), geometry, p, cur, i)
      ensures ret == if block == 0 then -1 else 0
    {
      hide Disk.Valid, Disk.Coherent, Disk.Quiet, Bitmaps.BitsOf, Word, PutWord;
      var buffer := new byte[BLOCK_SIZE](_ => 0);
      disk.BlockRead(cur, buffer);
      block := Word(buffer[..], i);
      if block != 0 {
        return 0, block;
      }
      ret, block := AllocOneSector(Child(p, i));
      if ret != 0 {
        return -1, 0;
      }
      var now := PutWord(buffer[..], i, block);
      forall k | 0 <= k < BLOCK_SIZE {
        buffer[k] := now[k];
      }
      assert buffer[..] == now;
      var _ := disk.BlockWrite(cur, buffer, false);
    }

    /** The first step of every lookup: the pointer in the inode, allocated and the inode
        written to disk when it is missing. */
    method RootOrNew(ino: nat, s: slot) returns (ret: int, block: word)
      requires Mounted() && ino < |inodes|
      modifies this, disk, disk.Repr, sectorBitmap.bits
      ensures Mounted() && fresh(disk.Repr - old(disk.Repr))
      ensures (State(), block) == GetRoot(old(State()), geometry, ino, s)
      ensures ret == if block == 0 then -1 else 0
    {
      hide Disk.Valid, Disk.Coherent, Disk.Quiet, Bitmaps.BitsOf, PutInode;
      block := inodes[ino].blocks[s];
      if block != 0 {
        return 0, block;
      }
      ret, block := AllocOneSector(Pos(ino, s, []));
      if ret != 0 {
        return -1, 0;
      }
      inodes := inodes[ino := inodes[ino].(blocks := inodes[ino].blocks[s := block])];
      SyncInode(ino);
    }

    method GetBlockInInderect1(ino: nat, base: nat) returns (ret: int, block: word)
      requires Valid() && ino < |inodes| && base < 256
      modifies this, disk, disk.Repr, sectorBitmap.bits
      ensures Mounted() && fresh(disk.Repr - old(disk.Repr))
      ensures (State(), block) == GetAt(old(State()), geometry, Pos(ino, 12, [base]))
      ensures ret == if block == 0 then -1 else 0
    {
      hide Disk.Valid, Disk.Coherent, Disk.Quiet, Bitmaps.BitsOf, Node, Word, FileTree.ChildOrNew, GetRoot;
      var inderect1;
      GetRootLooksUp(State(), geometry, ino, 12, Pos(ino, 12, [base]));
      ret, inderect1 := RootOrNew(ino, 12);
      if ret != 0 {
        return -1, 0;
      }
      ret, block := ChildOrNew(Pos(ino, 12, []), inderect1, base);
    }

    /** Two index blocks down, the tail of the level-2 and level-3 lookups. */
    method ChildOfChild(ghost p: Pos, cur: nat, i: ptr, j: ptr) returns (ret: int, block: word)
      requires Valid() && InTree(State(), Child(Child(p, i), j)) && Node(State(), p) == cur != 0 && cur < |State().mem|
      modifies this`owner, disk, disk.Repr, sectorBitmap.bits
      ensures Mounted() && fresh(disk.Repr - old(disk.Repr))
      ensures (State(), block) == Descend(old(State()), geometry, p, cur, [i, j])
      ensures ret == if block == 0 then -1 else 0
    {
      hide Disk.Valid, Disk.Coherent, Disk.Quiet, Bitmaps.BitsOf, Node, Word, FileTree.ChildOrNew, GetRoot,
        Descend, Wf, Extends, TableKept;
      ghost var c := Child(p, i);
      var inderect;
      ChildOrNewLooksUp(State(), geometry, p, cur, i, Child(c, j));
      assert [i] + [j] == [i, j] && [j] + [] == [j];
      DescendStep(State(), geometry, p, cur, i, [j]);
      ret, inderect := ChildOrNew(p, cur, i);
      if ret != 0 {
        return -1, 0;
      }
      DescendStep(State(), geometry, c, inderect, j, []);
      ret, block := ChildOrNew(c, inderect, j);
    }

    method GetBlockInInderect2(ino: nat, base: nat) returns (ret: int, block: word)
      requires Valid() && ino < |inodes| && base < 256 * 256
      modifies this, disk, disk.Repr, sectorBitmap.bits
      ensures Mounted() && fresh(disk.Repr - old(disk.Repr))
      ensures (State(), block) == GetAt(old(State()), geometry, Pos(ino, 13, [base / 256, base % 256]))
      ensures ret == if block == 0 then -1 else 0
    {
      hide Disk.Valid, Disk.Coherent, Disk.Quiet, Bitmaps.BitsOf, Node, Word, FileTree.ChildOrNew, GetRoot,
        Descend, Wf, Extends, TableKept;
      var idxInInderect1 := base / 256;
      var idxInInderect2 := base % 256;
      var inderect1;
      GetRootLooksUp(State(), geometry, ino, 13, Pos(ino, 13, [idxInInderect1, idxInInderect2]));
      ret, inderect1 := RootOrNew(ino, 13);
      if ret != 0 {
        return -1, 0;
      }
      ret, block := ChildOfChild(Pos(ino, 13, []), inderect1, idxInInderect1, idxInInderect2);
    }

    method GetBlockInInderect3(ino: nat, base: nat) returns (ret: int, block: word)
      requires Valid() && ino < |inodes| && base < 256 * 256 * 256
      modifies this, disk, disk.Repr, sectorBitmap.bits
      ensures Mounted() && fresh(disk.Repr - old(disk.Repr))
      ensures (State(), block) ==
        GetAt(old(State()), geometry, Pos(ino, 14, [base / 65536, base % 65536 / 256, base % 256]))
      ensures ret == if block == 0 then -1 else 0
    {
      hide Disk.Valid, Disk.Coherent, Disk.Quiet, Bitmaps.BitsOf, Node, Word, FileTree.ChildOrNew, GetRoot,
        Descend, Wf, Extends, TableKept;
      var idx1: ptr, idx2: ptr, idx3: ptr := IndicesInInderect3(base);
      ghost var root, t := Pos(ino, 14, []), Pos(ino, 14, [idx1, idx2, idx3]);
      var inderect1, inderect2;
      GetRootLooksUp(State(), geometry, ino, 14, t);
      ret, inderect1 := RootOrNew(ino, 14);
      if ret != 0 {
        return -1, 0;
      }
      ChildOrNewLooksUp(State(), geometry, root, inderect1, idx1, t);
      assert [idx1] + [idx2, idx3] == t.idxs;
      DescendStep(State(), geometry, root, inderect1, idx1, [idx2, idx3]);
      ret, inderect2 := ChildOrNew(root, inderect1, idx1);
      if ret != 0 {
        return -1, 0;
      }
      ret, block := ChildOfChild(Child(root, idx1), inderect2, idx2, idx3);
    }

    /** The three indices of a level-3 block number. */
    static method IndicesInInderect3(base: nat) returns (idx1: ptr, idx2: ptr, idx3: ptr)
      requires base < 256 * 256 * 256
      ensures idx1 == base / 65536 && idx2 == base % 65536 / 256 && idx3 == base % 256
    {
      idx1, idx2, idx3 := 0, 0, 0;
      if base < 256 {
        idx3 := base;
      } else if base < 256 * 256 {
        idx3 := base % 256;
        idx2 := base / 256;
      } else {
        idx1 := base / (256 * 256);
        var rest := base - base / (256 * 256) * (256 * 256);
        idx3 := rest % 256;
        idx2 := rest / 256;
      }
    }

    /** The block that holds block number `index` of a file, added if missing; -1 when the
        index is out of bounds or no free block is left. No byte of any file changes. */
    method GetInodeData(ino: nat, index: nat) returns (ret: int, block: word)
      requires Valid() && ino < |inodes|
      modifies this, disk, disk.Repr, sectorBitmap.bits
      ensures Valid() && fresh(disk.Repr - old(disk.Repr))
      ensures (State(), block) == FileTree.GetInodeData(old(State()), geometry, ino, index)
      ensures ret == if block == 0 then -1 else 0
      ensures index < BLOCK_LV3 ==> LookedUp(old(State()), geometry, (State(), block), IndexPos(ino, index))
    {
      hide Disk.Valid, Disk.Coherent, Disk.Quiet, Bitmaps.BitsOf, Node, Word, Descend, GetRoot, Extends, TableKept;
      if index >= BLOCK_LV3 {
        return -1, 0;
      }
      GetInodeDataLooksUp(State(), geometry, ino, index);
      if index < BLOCK_LV0 {
        ret, block := RootOrNew(ino, index);
      } else if index < BLOCK_LV1 {
        ret, block := GetBlockInInderect1(ino, index - BLOCK_LV0);
      } else if index < BLOCK_LV2 {
        ret, block := GetBlockInInderect2(ino, index - BLOCK_LV1);
      } else {
        ret, block := GetBlockInInderect3(ino, index - BLOCK_LV2);
      }
    }

    // ---------- giving blocks back ----------

    /** Clears the bit of a block. */
    method FreeOneSector(lba: nat)
      requires Mounted() && geometry.dataStart <= lba < geometry.dataStart + |State().used|
      modifies this`owner, sectorBitmap.bits
      ensures Mounted() && State() == Release.FreeOneSector(old(State()), geometry, lba)
    {
      hide Disk.Valid, Disk.Coherent, Disk.Quiet, Bitmaps.BitsOf;
      sectorBitmap.Set(lba - geometry.dataStart, false);
      owner := owner - {lba};
    }

    static method IsEmptyBlock(block: array<byte>) returns (empty: bool)
      requires block.Length == BLOCK_SIZE
      ensures empty == Release.IsEmptyBlock(block[..])
    {
      for i := 0 to PTRS_PER_BLOCK
        invariant forall j: ptr :: j < i ==> Word(block[..], j) == 0
      {
        if Word(block[..], i) != 0 {
          return false;
        }
      }
      return true;
    }

    /** PutBlockInInderect1, 2 and 3 below the inode: reads the index block, frees what
        pointer idxs[0] leads to, and if that went, clears the pointer and frees the index
        block too when it was the last, or else writes it back. The three are this recursion
        unrolled once, twice and three times. */
    method FreeDown(ghost p: Pos, cur: nat, idxs: seq<ptr>) returns (gone: bool)
      requires Mounted() && TreeOk(State(), geometry) && idxs != []
      requires InTree(State(), p) && Node(State(), p) == cur != 0 && |p.idxs| + |idxs| <= Depth(p.slot)
      modifies this`owner, disk, disk.Repr, sectorBitmap.bits
      ensures Mounted() && fresh(disk.Repr - old(disk.Repr)) && cur < |old(State()).mem|
      ensures (State(), gone) == Release.FreeDown(old(State()), geometry, p, cur, idxs)
      decreases |idxs|
    {
      hide Disk.Valid, Disk.Coherent, Disk.Quiet, Bitmaps.BitsOf, Word, PutWord, Release.IsEmptyBlock, NodesKnown,
        OwnersReal, Node;
      OwnerUnique(State(), geometry, p);
      var buffer := new byte[BLOCK_SIZE];
      disk.BlockRead(cur, buffer);
      var child := Word(buffer[..], idxs[0]);
      if child == 0 {
        return false;
      }
      ghost var c := Child(p, idxs[0]);
      Release.NodeOfChild(State(), p, idxs[0]);
      OwnerUnique(State(), geometry, c);
      if |idxs| == 1 {
        FreeOneSector(child);
      } else {
        gone := FreeDown(c, child, idxs[1..]);
        if !gone {
          return false;
        }
      }
      gone := DropPointer(cur, idxs[0], buffer);
    }

    /** Clears pointer i in a copy of the index block `cur`; the block is freed if that was
        the last pointer, else written back. */
    method DropPointer(cur: nat, i: ptr, buffer: array<byte>) returns (gone: bool)
      requires Mounted() && geometry.dataStart <= cur < geometry.dataStart + |State().used|
      requires buffer.Length == BLOCK_SIZE && buffer !in disk.Repr && buffer as object != sectorBitmap.bits
      modifies this`owner, disk, disk.Repr, sectorBitmap.bits, buffer
      ensures Mounted() && fresh(disk.Repr - old(disk.Repr))
      ensures var b := PutWord(old(buffer[..]), i, 0);
        && gone == Release.IsEmptyBlock(b)
        && State() == if gone then Release.FreeOneSector(old(State()), geometry, cur) else PutBlock(old(State()), cur, b)
    {
      hide Disk.Valid, Disk.Coherent, Disk.Quiet, Bitmaps.BitsOf, Word, PutWord, Release.IsEmptyBlock;
      var now := PutWord(buffer[..], i, 0);
      forall k | 0 <= k < BLOCK_SIZE {
        buffer[k] := now[k];
      }
      assert buffer[..] == now;
      gone := IsEmptyBlock(buffer);
      if gone {
        FreeOneSector(cur);
      } else {
        var _ := disk.BlockWrite(cur, buffer, false);
      }
    }

    /** The tail of the three levels: when the top index block went, so does the pointer in
        the inode. */
    method PutBelowRoot(ino: nat, s: slot, idxs: seq<ptr>)
      requires Mounted() && TreeOk(State(), geometry) && ino < |inodes| && idxs != [] && |idxs| == Depth(s)
      modifies this, disk, disk.Repr, sectorBitmap.bits
      ensures Mounted() && fresh(disk.Repr - old(disk.Repr))
      ensures State() == Release.PutAt(old(State()), geometry, Pos(ino, s, idxs))
    {
      hide Disk.Valid, Disk.Coherent, Disk.Quiet, Bitmaps.BitsOf, Word, PutWord, NodesKnown, OwnersReal,
        Release.FreeDown, InodeTable.PutInode;
      var inderect1 := inodes[ino].blocks[s];
      if inderect1 == 0 {
        return;
      }
      ghost var root := Pos(ino, s, []);
      OwnerUnique(State(), geometry, root);
      var gone := FreeDown(root, inderect1, idxs);
      if gone {
        inodes := inodes[ino := inodes[ino].(blocks := inodes[ino].blocks[s := 0])];
        SyncInode(ino);
      }
    }

    method PutBlockInInderect1(ino: nat, base: nat)
      requires Mounted() && TreeOk(State(), geometry) && ino < |inodes| && base < 256
      modifies this, disk, disk.Repr, sectorBitmap.bits
      ensures Mounted() && fresh(disk.Repr - old(disk.Repr))
      ensures State() == Release.PutAt(old(State()), geometry, Pos(ino, 12, [base]))
    {
      PutBelowRoot(ino, 12, [base]);
    }

    /** As written the code returns once the bit of the data block is cleared
        (earlyReturn == true); what follows that return is what level 2 is meant to do. */
    method PutBlockInInderect2(ino: nat, base: nat, earlyReturn: bool)
      requires Mounted() && TreeOk(State(), geometry) && ino < |inodes| && base < 256 * 256
      modifies this, disk, disk.Repr, sectorBitmap.bits
      ensures Mounted() && fresh(disk.Repr - old(disk.Repr))
      ensures State() == ReleaseData.PutAtAs(old(State()), geometry, Pos(ino, 13, [base / 256, base % 256]), earlyReturn)
    {
      hide Disk.Valid, Disk.Coherent, Disk.Quiet, Bitmaps.BitsOf, Word, PutWord, NodesKnown, OwnersReal, Node, Release.PutAt;
      if !earlyReturn {
        PutBelowRoot(ino, 13, [base / 256, base % 256]);
        return;
      }
      var idxInInderect1 := base / 256;
      var idxInInderect2 := base % 256;
      ReleaseData.Level2Path(State(), geometry, ino, idxInInderect1, idxInInderect2);
      var inderect1 := inodes[ino].blocks[13];
      if inderect1 == 0 {
        return;
      }
      var inderect2 := ReadPointer(inderect1, idxInInderect1);
      if inderect2 == 0 {
        return;
      }
      var derect := ReadPointer(inderect2, idxInInderect2);
      if derect != 0 {
        sectorBitmap.Set(derect - geometry.dataStart, false);
      }
    }

    /** Reads one pointer of an index block. */
    method ReadPointer(cur: nat, i: ptr) returns (block: word)
      requires Mounted() && cur < |State().mem|
      modifies disk, disk.Repr
      ensures Mounted() && fresh(disk.Repr - old(disk.Repr))
      ensures State() == old(State()) && block == Word(State().mem[cur], i)
    {
      hide Disk.Valid, Disk.Coherent, Disk.Quiet, Bitmaps.BitsOf, Word;
      var buffer := new byte[BLOCK_SIZE];
      disk.BlockRead(cur, buffer);
      block := Word(buffer[..], i);
    }

    method PutBlockInInderect3(ino: nat, base: nat)
      requires Mounted() && TreeOk(State(), geometry) && ino < |inodes| && base < 256 * 256 * 256
      modifies this, disk, disk.Repr, sectorBitmap.bits
      ensures Mounted() && fresh(disk.Repr - old(disk.Repr))
      ensures State() == Release.PutAt(old(State()), geometry, Pos(ino, 14, [base / 65536, base % 65536 / 256, base % 256]))
    {
      var idx1, idx2, idx3 := IndicesInInderect3(base);
      PutBelowRoot(ino, 14, [idx1, idx2, idx3]);
    }

    /** Frees block number `index` of a file; -1 when the index is out of bounds. */
    method PutBlockByBlockIndex(ino: nat, index: nat, earlyReturn: bool) returns (ret: int)
      requires Mounted() && TreeOk(State(), geometry) && ino < |inodes|
      modifies this, disk, disk.Repr, sectorBitmap.bits
      ensures Mounted() && TreeOk(State(), geometry) && fresh(disk.Repr - old(disk.Repr))
      ensures if index < BLOCK_LV3
        then ret == 0 && State() == ReleaseData.PutAtAs(old(State()), geometry, IndexPos(ino, index), earlyReturn)
        else ret == -1 && State() == old(State())
    {
      hide Disk.Valid, Disk.Coherent, Disk.Quiet, Bitmaps.BitsOf, Word, PutWord, NodesKnown, OwnersReal, Node,
        Release.FreeDown, InodeTable.PutInode;
      if index >= BLOCK_LV3 {
        return -1;
      }
      ReleaseData.PutAtAsTree(State(), geometry, IndexPos(ino, index), earlyReturn);
      if index < BLOCK_LV0 {
        PutDirect(ino, index);
      } else if index < BLOCK_LV1 {
        PutBlockInInderect1(ino, index - BLOCK_LV0);
      } else if index < BLOCK_LV2 {
        PutBlockInInderect2(ino, index - BLOCK_LV1, earlyReturn);
      } else {
        PutBlockInInderect3(ino, index - BLOCK_LV2);
      }
      return 0;
    }

    /** Level 0: the pointer is in the inode itself. */
    method PutDirect(ino: nat, base: nat)
      requires Mounted() && TreeOk(State(), geometry) && ino < |inodes| && base < BLOCK_LV0
      modifies this, disk, disk.Repr, sectorBitmap.bits
      ensures Mounted() && fresh(disk.Repr - old(disk.Repr))
      ensures State() == Release.PutAt(old(State()), geometry, Pos(ino, base, []))
    {
      hide Disk.Valid, Disk.Coherent, Disk.Quiet, Bitmaps.BitsOf, NodesKnown, OwnersReal, InodeTable.PutInode;
      var derect := inodes[ino].blocks[base];
      if derect != 0 {
        OwnerUnique(State(), geometry, Pos(ino, base, []));
        FreeOneSector(derect);
        inodes := inodes[ino := inodes[ino].(blocks := inodes[ino].blocks[base := 0])];
        SyncInode(ino);
      }
    }

    /** Frees all blocks below the size. Bitmap and trees agree afterwards exactly if there was no
        early return or no level-2 block in use below the size. The inode ends up empty, and
        exactly what it owned is free, exactly if it was compact and there was no early return
        or no level-2 tree. */
    method ReleaseInodeData(ino: nat, earlyReturn: bool) returns (ret: int)
      requires Valid() && ino < |inodes|
      modifies this, disk, disk.Repr, sectorBitmap.bits
      ensures Mounted() && TreeOk(State(), geometry) && fresh(disk.Repr - old(disk.Repr)) && ret == 0
      ensures var n := ReleaseData.Blocks(old(State()), ino);
        State() == ReleaseData.ReleaseAs(old(State()), geometry, ino, n, earlyReturn)
      ensures Valid() <==> (earlyReturn ==> old(ReleaseData.NoLevel2Data(State(), ino, ReleaseData.Blocks(State(), ino))))
      ensures ReleaseData.Conserved(old(State()), State(), geometry, ino) <==>
        old(ReleaseData.Compact(State(), ino)) && (earlyReturn ==> old(inodes)[ino].blocks[13] == 0)
      ensures ReleaseData.Empty(State(), ino) <==>
        old(ReleaseData.Compact(State(), ino)) && (earlyReturn ==> old(inodes)[ino].blocks[13] == 0)
    {
      hide Disk.Valid, Disk.Coherent, Disk.Quiet, Bitmaps.BitsOf, Word, PutWord, NodesKnown, OwnersReal, Node, IndexPos,
        ReleaseData.PutAtAs, ReleaseData.ReleaseTo, ReleaseData.Compact, ReleaseData.Empty, ReleaseData.NoLevel2Data,
        ReleaseData.Conserved, ReleaseData.Barren, BitmapExact;
      ghost var s0, g, n := State(), geometry, ReleaseData.Blocks(State(), ino);
      if earlyReturn {
        ReleaseData.EarlyEmptiesIff(s0, g, ino);
        ReleaseData.EarlyKeepsWfIff(s0, g, ino);
        ReleaseData.EarlyConservesIff(s0, g, ino);
      } else {
        ReleaseData.ReleaseAsIntended(s0, g, ino, n);
        ReleaseData.ReleaseEmptiesIff(s0, g, ino);
        ReleaseData.ReleaseToReleases(s0, g, ino, n);
        ReleaseData.ReleaseConservesIff(s0, g, ino);
      }
      if inodes[ino].size == 0 {
        return 0;
      }
      var blocks := (inodes[ino].size + BLOCK_SIZE - 1) / BLOCK_SIZE;
      var index := 0;
      while index < blocks
        invariant 0 <= index <= blocks == n
        invariant Mounted() && TreeOk(State(), g) && fresh(disk.Repr - old(disk.Repr))
        invariant |inodes| == |s0.inodes| && State() == ReleaseData.ReleaseAs(s0, g, ino, index, earlyReturn)
      {
        var r := PutBlockByBlockIndex(ino, index, earlyReturn);
        if r != 0 {
          return -1;
        }
        index := index + 1;
      }
      return 0;
    }
  }
}
