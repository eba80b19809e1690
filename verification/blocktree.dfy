/** The block tree of BOFS inodes as a value (src/fs/bofs/inode.c): 12 direct blocks and
    three index trees of one, two and three levels, with 256 pointers in an index block.

    The field owner is an auxiliary record of who each allocated block belongs to; the code has no
    such table, and FileTree.Wf says what it amounts to in terms of what the code does have. */
module BlockTree {
  import opened Basics
  import opened BlockDevices

  // ---------- words inside a block ----------

  const PTRS_PER_BLOCK := 256

  type ptr = x: int | 0 <= x < PTRS_PER_BLOCK

  /** Pointer i of an index block, stored little-endian. */
  function Word(b: Block, i: ptr): word {
    var b0: int, b1: int, b2: int, b3: int := b[4 * i], b[4 * i + 1], b[4 * i + 2], b[4 * i + 3];
    b0 + 0x100 * b1 + 0x1_0000 * b2 + 0x100_0000 * b3
  }

  function PutWord(b: Block, i: ptr, w: word): Block {
    b[4 * i := w % 0x100]
     [4 * i + 1 := w / 0x100 % 0x100]
     [4 * i + 2 := w / 0x1_0000 % 0x100]
     [4 * i + 3 := w / 0x100_0000]
  }

  lemma WordOfPutWord(b: Block, i: ptr, w: word, j: ptr)
    ensures Word(PutWord(b, i, w), j) == if j == i then w else Word(b, j)
  {
    if j == i {
      FourBytes(w);
    } else {
      assert 4 * j + 3 < 4 * i || 4 * i + 3 < 4 * j;
    }
  }

  lemma FourBytes(w: word)
    ensures w % 0x100 + 0x100 * (w / 0x100 % 0x100) + 0x1_0000 * (w / 0x1_0000 % 0x100) + 0x100_0000 * (w / 0x100_0000) == w
  {
  }

  /** The least significant byte comes first. */
  lemma LittleEndian(b: Block, i: ptr)
    ensures var w: int := Word(b, i);
      && b[4 * i] == w % 0x100 && b[4 * i + 1] == w / 0x100 % 0x100
      && b[4 * i + 2] == w / 0x100 / 0x100 % 0x100 && b[4 * i + 3] == w / 0x100 / 0x100 / 0x100
  {
    var b1: int, b2: int, b3: int := b[4 * i + 1], b[4 * i + 2], b[4 * i + 3];
    LowByte(b[4 * i], b1 + 0x100 * (b2 + 0x100 * b3));
    LowByte(b[4 * i + 1], b2 + 0x100 * b3);
    LowByte(b[4 * i + 2], b3);
  }

  lemma LowByte(low: byte, rest: nat)
    ensures (low + 0x100 * rest) % 0x100 == low && (low + 0x100 * rest) / 0x100 == rest
  {
  }

  lemma WordOfZeroBlock(j: ptr)
    ensures Word(ZeroBlock(), j) == 0
  {
  }

  // ---------- inodes ----------

  const BLOCK_LV0 := 12
  const BLOCK_LV1 := BLOCK_LV0 + 256
  const BLOCK_LV2 := BLOCK_LV1 + 256 * 256
  const BLOCK_LV3 := BLOCK_LV2 + 256 * 256 * 256
  const BOFS_BLOCK_NR := 15

  type slot = x: int | 0 <= x < BOFS_BLOCK_NR
  type Roots = s: seq<word> | |s| == BOFS_BLOCK_NR witness seq(BOFS_BLOCK_NR, _ => 0)

  type half = x: int | 0 <= x < 0x1_0000
  type Reserved = s: seq<word> | |s| == 9 witness seq(9, _ => 0)

  datatype Attributes = Attributes(devno: word, mode: half, links: half, crttime: word, mdftime: word,
                                   acstime: word, flags: word, reserved: Reserved)

  datatype Inode = Inode(id: word, size: word, blocks: Roots, attrs: Attributes)

  // ---------- positions ----------

  /** A place in the block tree of an inode: the pointer reached from blocks[slot] by
      following the given indices. */
  datatype Pos = Pos(ino: nat, slot: slot, idxs: seq<ptr>)

  function Depth(s: slot): nat {
    if s < BLOCK_LV0 then 0 else s - BLOCK_LV0 + 1
  }

  function Parent(p: Pos): Pos
    requires p.idxs != []
  {
    p.(idxs := p.idxs[..|p.idxs| - 1])
  }

  function Child(p: Pos, i: ptr): Pos {
    p.(idxs := p.idxs + [i])
  }

  function Last(p: Pos): ptr
    requires p.idxs != []
  {
    p.idxs[|p.idxs| - 1]
  }

  predicate IsData(p: Pos) {
    |p.idxs| == Depth(p.slot)
  }

  /** Is q on the way from blocks[slot] to p (or p itself)? */
  predicate OnPath(q: Pos, p: Pos) {
    q.ino == p.ino && q.slot == p.slot && q.idxs <= p.idxs
  }

  /** Where block number `index` of a file hangs in the tree. */
  function IndexPos(ino: nat, index: nat): (p: Pos)
    requires index < BLOCK_LV3
    ensures p.ino == ino && IsData(p)
  {
    if index < BLOCK_LV0 then Pos(ino, index, [])
    else if index < BLOCK_LV1 then Pos(ino, 12, [index - BLOCK_LV0])
    else if index < BLOCK_LV2 then
      var base := index - BLOCK_LV1;
      Pos(ino, 13, [base / 256, base % 256])
    else
      var base := index - BLOCK_LV2;
      Pos(ino, 14, [base / 65536, base % 65536 / 256, base % 256])
  }

  /** The layout on the disk: 12 direct blocks, then those behind one, two and three index blocks, in the
      order of their pointers. */
  lemma IndexLayout(ino: nat, index: nat)
    requires index < BLOCK_LV3
    ensures var p := IndexPos(ino, index);
      && p.ino == ino
      && (p.slot < 12 <==> index < 12) && (p.slot == 12 <==> 12 <= index < 268) && (p.slot == 13 <==> 268 <= index < 65804)
      && (p.slot < 12 ==> p.idxs == [] && p.slot == index)
      && (p.slot == 12 ==> |p.idxs| == 1 && 12 + p.idxs[0] as int == index)
      && (p.slot == 13 ==> |p.idxs| == 2 && 268 + 256 * p.idxs[0] as int + p.idxs[1] as int == index)
      && (p.slot == 14 ==>
        |p.idxs| == 3 && 65804 + 65536 * p.idxs[0] as int + 256 * p.idxs[1] as int + p.idxs[2] as int == index)
  {
  }

  /** The block number that hangs at a data position. */
  function PosIndex(p: Pos): (index: nat)
    requires IsData(p)
    ensures index < BLOCK_LV3
  {
    if p.slot < 12 then p.slot
    else if p.slot == 12 then BLOCK_LV0 + p.idxs[0]
    else
      var i0: int, i1: int := p.idxs[0], p.idxs[1];
      if p.slot == 13 then BLOCK_LV1 + i0 * 256 + i1
      else
        var i2: int := p.idxs[2];
        BLOCK_LV2 + i0 * 65536 + i1 * 256 + i2
  }

  lemma Digits(i0: ptr, i1: ptr, i2: ptr)
    ensures var low: int, base: int := i1 * 256 + i2, i0 * 65536 + i1 * 256 + i2;
      low / 256 == i1 && low % 256 == i2 && base / 65536 == i0 && base % 65536 == low && base % 256 == i2
  {
  }

  lemma PosOfIndex(ino: nat, index: nat)
    requires index < BLOCK_LV3
    ensures PosIndex(IndexPos(ino, index)) == index
  {
  }

  lemma IndexOfPos(p: Pos)
    requires IsData(p)
    ensures IndexPos(p.ino, PosIndex(p)) == p
  {
    if p.slot == 13 {
      Digits(0, p.idxs[0], p.idxs[1]);
      assert p.idxs == [p.idxs[0], p.idxs[1]];
    } else if p.slot == 14 {
      Digits(p.idxs[0], p.idxs[1], p.idxs[2]);
      assert p.idxs == [p.idxs[0], p.idxs[1], p.idxs[2]];
    }
  }

  /** Block numbers and data positions are in one-to-one correspondence, so no two block
      numbers share a place and the three index trees leave no gap between them. */
  lemma IndexPosInverse(ino: nat, index: nat, p: Pos)
    requires index < BLOCK_LV3 && p.ino == ino && IsData(p)
    ensures PosIndex(IndexPos(ino, index)) == index
    ensures IndexPos(ino, PosIndex(p)) == p
  {
    hide IndexPos, PosIndex;
    PosOfIndex(ino, index);
    IndexOfPos(p);
  }
}
