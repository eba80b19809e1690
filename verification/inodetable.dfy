/** Inodes on disk: 128 bytes each, eight to a block (src/include/fs/bofs/inode.h:46-70). */
module InodeTable {
  import opened Basics
  import opened BlockDevices
  import opened BlockTree

  const INODE_WORDS := 32
  const INODE_NR_IN_SECTOR := PTRS_PER_BLOCK / INODE_WORDS

  type Record = s: seq<word> | |s| == INODE_WORDS witness seq(INODE_WORDS, _ => 0)

  /** The packed structure, word by word; mode and links share the third word. */
  function Pack(i: Inode): Record {
    var mode: int, links: int := i.attrs.mode, i.attrs.links;
    [i.attrs.devno, i.id, mode + 0x1_0000 * links, i.size,
     i.attrs.crttime, i.attrs.mdftime, i.attrs.acstime, i.attrs.flags] + i.blocks + i.attrs.reserved
  }

  function Unpack(w: Record): Inode {
    Inode(w[1], w[3], w[8..23],
          Attributes(w[0], w[2] % 0x1_0000, w[2] / 0x1_0000, w[4], w[5], w[6], w[7], w[23..32]))
  }

  lemma UnpackPack(i: Inode)
    ensures Unpack(Pack(i)) == i
  {
    var w := Pack(i);
    assert w[8..23] == i.blocks && w[23..32] == i.attrs.reserved;
  }

  /** Stores n words of a record at place k of a table block. */
  function PutRecord(b: Block, k: nat, w: Record, n: nat): Block
    requires k < INODE_NR_IN_SECTOR && n <= INODE_WORDS
  {
    if n == 0 then b else PutWord(PutRecord(b, k, w, n - 1), INODE_WORDS * k + n - 1, w[n - 1])
  }

  function RecordWord(b: Block, k: nat, j: nat): word
    requires k < INODE_NR_IN_SECTOR && j < INODE_WORDS
  {
    Word(b, INODE_WORDS * k + j)
  }

  function GetRecord(b: Block, k: nat): Record
    requires k < INODE_NR_IN_SECTOR
  {
    seq<word>(INODE_WORDS, j requires 0 <= j < INODE_WORDS => RecordWord(b, k, j))
  }

  function PutInode(b: Block, k: nat, i: Inode): Block
    requires k < INODE_NR_IN_SECTOR
  {
    PutRecord(b, k, Pack(i), INODE_WORDS)
  }

  function GetInode(b: Block, k: nat): Inode
    requires k < INODE_NR_IN_SECTOR
  {
    Unpack(GetRecord(b, k))
  }

  lemma {:induction false} WordOfPutRecord(b: Block, k: nat, w: Record, n: nat, j: ptr)
    requires k < INODE_NR_IN_SECTOR && n <= INODE_WORDS
    ensures Word(PutRecord(b, k, w, n), j) ==
      if INODE_WORDS * k <= j < INODE_WORDS * k + n then w[j - INODE_WORDS * k] else Word(b, j)
  {
    if n > 0 {
      WordOfPutRecord(b, k, w, n - 1, j);
      WordOfPutWord(PutRecord(b, k, w, n - 1), INODE_WORDS * k + n - 1, w[n - 1], j);
    }
  }

  /** Where the fields lie on the disk: record k has words 32 * k to 32 * k + 31 of its block, in the
      order of the structure. */
  lemma FieldsOnDisk(b: Block, k: nat, i: Inode)
    requires k < INODE_NR_IN_SECTOR
    ensures var now, at := PutInode(b, k, i), 32 * k;
      && Word(now, at) == i.attrs.devno && Word(now, at + 1) == i.id
      && Word(now, at + 2) % 0x1_0000 == i.attrs.mode && Word(now, at + 2) / 0x1_0000 == i.attrs.links
      && Word(now, at + 3) == i.size && Word(now, at + 4) == i.attrs.crttime && Word(now, at + 5) == i.attrs.mdftime
      && Word(now, at + 6) == i.attrs.acstime && Word(now, at + 7) == i.attrs.flags
      && forall s: slot :: Word(now, at + 8 + s) == i.blocks[s]
  {
    hide Word, PutInode;
    FieldOnDisk(b, k, i, 0);
    FieldOnDisk(b, k, i, 1);
    FieldOnDisk(b, k, i, 2);
    FieldOnDisk(b, k, i, 3);
    FieldOnDisk(b, k, i, 4);
    FieldOnDisk(b, k, i, 5);
    FieldOnDisk(b, k, i, 6);
    FieldOnDisk(b, k, i, 7);
    forall s: slot
      ensures Word(PutInode(b, k, i), 32 * k + 8 + s) == i.blocks[s]
    {
      FieldOnDisk(b, k, i, 8 + s);
    }
  }

  lemma FieldOnDisk(b: Block, k: nat, i: Inode, n: nat)
    requires k < INODE_NR_IN_SECTOR && n < INODE_WORDS
    ensures Word(PutInode(b, k, i), 32 * k + n) == Pack(i)[n]
  {
    hide Word, PutRecord;
    WordOfPutRecord(b, k, Pack(i), INODE_WORDS, 32 * k + n);
  }

  /** An inode stored in a table block reads back as it was, and its neighbours are intact. */
  lemma GetPutInode(b: Block, k: nat, i: Inode, j: nat)
    requires k < INODE_NR_IN_SECTOR && j < INODE_NR_IN_SECTOR
    ensures GetInode(PutInode(b, k, i), j) == if j == k then i else GetInode(b, j)
  {
    var now := PutInode(b, k, i);
    forall n | 0 <= n < INODE_WORDS
      ensures GetRecord(now, j)[n] == if j == k then Pack(i)[n] else GetRecord(b, j)[n]
    {
      WordOfPutRecord(b, k, Pack(i), INODE_WORDS, INODE_WORDS * j + n);
    }
    if j == k {
      assert GetRecord(now, j) == Pack(i);
      UnpackPack(i);
    } else {
      assert GetRecord(now, j) == GetRecord(b, j);
    }
  }
}
