/** What the files of a BOFS file system contain, and what one call of BOFS_FileWrite does to
    a file (src/fs/bofs/file.c:739-880). */
module FileContents {
  import opened Basics
  import opened BlockDevices
  import opened BlockTree
  import opened FileTree

  /** Byte k of a file, whatever its size; blocks never written read as zeroes. */
  function ByteAt(fs: FS, ino: nat, k: word): byte
    requires ino < |fs.inodes|
  {
    DataBlock(fs, IndexPos(ino, k / BLOCK_SIZE))[k % BLOCK_SIZE]
  }

  /** A file is a byte sequence. */
  function Contents(fs: FS, ino: nat): seq<byte>
    requires ino < |fs.inodes|
  {
    seq<byte>(fs.inodes[ino].size, k requires 0 <= k < fs.inodes[ino].size => ByteAt(fs, ino, k))
  }

  /** Bytes that agree with a file one by one are a slice of its contents. */
  lemma SliceOfContents(fs: FS, ino: nat, p0: nat, data: seq<byte>)
    requires ino < |fs.inodes| && p0 + |data| <= fs.inodes[ino].size
    requires forall i :: 0 <= i < |data| ==> data[i] == ByteAt(fs, ino, p0 + i)
    ensures |Contents(fs, ino)| == fs.inodes[ino].size && data == Contents(fs, ino)[p0..p0 + |data|]
  {
    hide ByteAt;
  }

  ghost predicate SameBytes(fs: FS, fs': FS, ino: nat)
    requires ino < |fs.inodes| == |fs'.inodes|
  {
    forall k: word :: ByteAt(fs', ino, k) == ByteAt(fs, ino, k)
  }

  /** Looking up a block of one file changes no byte of any file. */
  lemma LookupKeepsBytes(fs: FS, fs': FS, t: Pos, ino: nat)
    requires Extends(fs, fs', t) && ino < |fs.inodes|
    ensures SameBytes(fs, fs', ino)
  {
    hide Node;
    forall k: word
      ensures ByteAt(fs', ino, k) == ByteAt(fs, ino, k)
    {
      assert InTree(fs, IndexPos(ino, k / BLOCK_SIZE));
    }
  }

  /** A block with `data` copied in at `off`. */
  function Overlay(b: Block, off: nat, data: seq<byte>): Block
    requires off + |data| <= BLOCK_SIZE
  {
    b[..off] + data + b[off + |data|..]
  }

  /** The block BOFS_FileWrite stores: the first block of a call starts from the old data,
      the later ones from zeroes. */
  function NewBlock(was: Block, first: bool, off: nat, data: seq<byte>): Block
    requires off + |data| <= BLOCK_SIZE
  {
    Overlay(if first then was else ZeroBlock(), off, data)
  }

  /** Only inode `ino` may differ, and only in its block pointers. */
  ghost predicate OnlyPointers(fs: FS, fs': FS, g: Geometry, ino: nat) {
    && |fs'.inodes| == |fs.inodes| && TableKept(fs, fs', g)
    && forall j :: 0 <= j < |fs.inodes| ==>
      fs'.inodes[j] == if j == ino then fs.inodes[j].(blocks := fs'.inodes[j].blocks) else fs.inodes[j]
  }

  lemma LookupOnlyPointers(fs: FS, g: Geometry, r: (FS, word), t: Pos)
    requires LookedUp(fs, g, r, t)
    ensures OnlyPointers(fs, r.0, g, t.ino)
  {
    forall j | 0 <= j < |fs.inodes| && j != t.ino
      ensures r.0.inodes[j].blocks == fs.inodes[j].blocks
    {
      forall s: slot
        ensures r.0.inodes[j].blocks[s] == fs.inodes[j].blocks[s]
      {
        var p := Pos(j, s, []);
        assert InTree(fs, p) && !OnPath(p, t);
        assert Node(r.0, p) == Node(fs, p);
      }
    }
  }

  /** Nothing a reader of any file could notice has changed. */
  ghost predicate Unnoticed(fs: FS, fs': FS, g: Geometry, ino: nat) {
    OnlyPointers(fs, fs', g, ino) && forall j :: 0 <= j < |fs.inodes| ==> SameBytes(fs, fs', j)
  }

  lemma LookupUnnoticed(fs: FS, g: Geometry, r: (FS, word), t: Pos)
    requires LookedUp(fs, g, r, t)
    ensures Unnoticed(fs, r.0, g, t.ino)
  {
    LookupOnlyPointers(fs, g, r, t);
    forall j | 0 <= j < |fs.inodes|
      ensures SameBytes(fs, r.0, j)
    {
      LookupKeepsBytes(fs, r.0, t, j);
    }
  }

  lemma UnnoticedTransitive(a: FS, b: FS, c: FS, g: Geometry, ino: nat)
    requires Unnoticed(a, b, g, ino) && Unnoticed(b, c, g, ino)
    ensures Unnoticed(a, c, g, ino)
  {
    hide DataBlock;
    TableKeptTransitive(a, b, c, g);
    forall j | 0 <= j < |a.inodes|
      ensures SameBytes(a, c, j)
    {
      assert SameBytes(a, b, j) && SameBytes(b, c, j);
      forall k: word
        ensures ByteAt(c, j, k) == ByteAt(a, j, k)
      {
        assert ByteAt(c, j, k) == ByteAt(b, j, k);
      }
    }
  }

  lemma UnnoticedNow(fs: FS, g: Geometry, ino: nat)
    requires Shape(fs, g)
    ensures Unnoticed(fs, fs, g, ino)
  {
  }

  lemma UnnoticedByte(a: FS, b: FS, g: Geometry, ino: nat)
    requires Unnoticed(a, b, g, ino) && ino < |a.inodes|
    ensures |b.inodes| == |a.inodes| && forall k: word :: ByteAt(b, ino, k) == ByteAt(a, ino, k)
  {
    assert SameBytes(a, b, ino);
  }

  lemma UnnoticedContents(a: FS, b: FS, g: Geometry, ino: nat, j: nat)
    requires Unnoticed(a, b, g, ino) && j < |a.inodes|
    ensures Contents(b, j) == Contents(a, j)
  {
    hide DataBlock;
    assert SameBytes(a, b, j);
    forall k | 0 <= k < a.inodes[j].size
      ensures ByteAt(b, j, k) == ByteAt(a, j, k)
    {
    }
  }

  /** fs' is fs with block `index` of file `ino` replaced by b. */
  ghost predicate BlockStored(fs: FS, fs': FS, g: Geometry, ino: nat, index: nat, b: Block) {
    && OnlyPointers(fs, fs', g, ino)
    && forall j: nat, k: word :: j < |fs.inodes| ==>
      (ByteAt(fs', j, k) == if j == ino && k / BLOCK_SIZE == index then b[k % BLOCK_SIZE] else ByteAt(fs, j, k))
  }

  /** Looking up block `index` of a file and storing b there. */
  lemma StoreInFile(fs: FS, g: Geometry, r: (FS, word), ino: nat, index: nat, b: Block)
    requires Wf(fs, g) && ino < |fs.inodes| && index <= WORD_LIMIT / BLOCK_SIZE
    requires LookedUp(fs, g, r, IndexPos(ino, index)) && r.1 != 0
    ensures r.1 < |r.0.mem| && r.0.mem[r.1] == DataBlock(fs, IndexPos(ino, index))
    ensures Wf(PutBlock(r.0, r.1, b), g) && BlockStored(fs, PutBlock(r.0, r.1, b), g, ino, index, b)
  {
    hide Node, Wf, TableKept;
    var t := IndexPos(ino, index);
    WriteDataBlock(r.0, g, t, b);
    assert DataBlock(r.0, t) == DataBlock(fs, t);
    var fs' := PutBlock(r.0, r.1, b);
    forall j: nat, k: word | j < |fs.inodes|
      ensures ByteAt(fs', j, k) == if j == ino && k / BLOCK_SIZE == index then b[k % BLOCK_SIZE] else ByteAt(fs, j, k)
    {
      var p := IndexPos(j, k / BLOCK_SIZE);
      assert InTree(fs, p) && InTree(r.0, p);
      IndexPosInverse(j, k / BLOCK_SIZE, p);
      IndexPosInverse(ino, index, t);
    }
    TableKeptTransitive(fs, r.0, fs', g);
    LookupOnlyPointers(fs, g, r, t);
  }

  lemma TableKeptTransitive(a: FS, b: FS, c: FS, g: Geometry)
    requires TableKept(a, b, g) && TableKept(b, c, g)
    ensures TableKept(a, c, g)
  {
  }

  /** Byte k of a file after `data` was written at p0 by one call: the bytes written, then
      zeroes up to the end of the last block unless that is also the first, then the old. */
  function WrittenByte(fs: FS, ino: nat, p0: nat, data: seq<byte>, k: word): byte
    requires ino < |fs.inodes|
  {
    var end := p0 + |data|;
    if p0 <= k < end then data[k - p0]
    else if end <= k && p0 / BLOCK_SIZE < (end - 1) / BLOCK_SIZE == k / BLOCK_SIZE then 0
    else ByteAt(fs, ino, k)
  }

  /** Part of a write done: the bytes so far are in the file, other files are untouched, and
      of the inodes only this one's block pointers and size may have changed. */
  ghost predicate Progress(fs: FS, fs': FS, g: Geometry, ino: nat, p0: nat, data: seq<byte>) {
    && ino < |fs.inodes| == |fs'.inodes| && Shape(fs, g) && Shape(fs', g)
    && (forall k: word :: ByteAt(fs', ino, k) == WrittenByte(fs, ino, p0, data, k))
    && (forall j :: 0 <= j < |fs.inodes| && j != ino ==>
      fs'.inodes[j] == fs.inodes[j] && SameBytes(fs, fs', j) && (OnDisk(fs, g, j) ==> OnDisk(fs', g, j)))
    && fs'.inodes[ino] == fs.inodes[ino].(blocks := fs'.inodes[ino].blocks, size := fs'.inodes[ino].size)
  }

  lemma ProgressStart(fs: FS, g: Geometry, ino: nat, p0: nat)
    requires Shape(fs, g) && ino < |fs.inodes|
    ensures Progress(fs, fs, g, ino, p0, [])
  {
  }

  /** What a turn of the loop finds at byte k of the block it stores. */
  lemma NewBlockByte(fs: FS, fs1: FS, ino: nat, p0: nat, data: seq<byte>, chunk: seq<byte>, k: word)
    requires ino < |fs.inodes| == |fs1.inodes| && p0 + |data| + |chunk| < WORD_LIMIT
    requires |data| > 0 ==> (p0 + |data|) % BLOCK_SIZE == 0
    requires 0 < |chunk| <= BLOCK_SIZE - (p0 + |data|) % BLOCK_SIZE
    requires k / BLOCK_SIZE == (p0 + |data|) / BLOCK_SIZE
    requires forall i: word :: ByteAt(fs1, ino, i) == WrittenByte(fs, ino, p0, data, i)
    ensures var e := p0 + |data|;
      NewBlock(DataBlock(fs1, IndexPos(ino, e / BLOCK_SIZE)), data == [], e % BLOCK_SIZE, chunk)[k % BLOCK_SIZE]
        == WrittenByte(fs, ino, p0, data + chunk, k)
  {
    hide IndexPos, DataBlock;
    var e := p0 + |data|;
    if e <= k < e + |chunk| {
      assert (data + chunk)[k - p0] == chunk[k - e];
    } else if data == [] {
      assert DataBlock(fs1, IndexPos(ino, e / BLOCK_SIZE))[k % BLOCK_SIZE] == ByteAt(fs1, ino, k);
    } else {
      assert (e - 1) / BLOCK_SIZE == e / BLOCK_SIZE - 1;
    }
  }

  lemma WriteStep(fs: FS, fs1: FS, fs2: FS, g: Geometry, ino: nat, p0: nat, data: seq<byte>, chunk: seq<byte>)
    requires Progress(fs, fs1, g, ino, p0, data) && p0 + |data| + |chunk| < WORD_LIMIT
    requires |data| > 0 ==> (p0 + |data|) % BLOCK_SIZE == 0
    requires 0 < |chunk| <= BLOCK_SIZE - (p0 + |data|) % BLOCK_SIZE
    requires var e := p0 + |data|; BlockStored(fs1, fs2, g, ino, e / BLOCK_SIZE,
      NewBlock(DataBlock(fs1, IndexPos(ino, e / BLOCK_SIZE)), data == [], e % BLOCK_SIZE, chunk))
    ensures Progress(fs, fs2, g, ino, p0, data + chunk)
  {
    hide IndexPos, DataBlock;
    var e := p0 + |data|;
    forall k: word
      ensures ByteAt(fs2, ino, k) == WrittenByte(fs, ino, p0, data + chunk, k)
    {
      if k / BLOCK_SIZE == e / BLOCK_SIZE {
        NewBlockByte(fs, fs1, ino, p0, data, chunk, k);
      } else {
        assert ByteAt(fs2, ino, k) == WrittenByte(fs, ino, p0, data, k);
        assert p0 <= k < e ==> (data + chunk)[k - p0] == data[k - p0];
      }
    }
  }

  /** Changing the recorded size moves no block and no byte. */
  lemma ResizeKeeps(fs: FS, g: Geometry, fs': FS, ino: nat, size: word)
    requires Wf(fs, g) && ino < |fs.inodes|
    requires fs' == fs.(inodes := fs.inodes[ino := fs.inodes[ino].(size := size)])
    ensures Wf(fs', g) && (forall j :: 0 <= j < |fs.inodes| ==> SameBytes(fs, fs', j))
    ensures forall j :: 0 <= j < |fs.inodes| && j != ino && OnDisk(fs, g, j) ==> OnDisk(fs', g, j)
  {
    WfFrame(fs, g, fs');
    forall j: nat, k: word | j < |fs.inodes|
      ensures ByteAt(fs', j, k) == ByteAt(fs, j, k)
    {
      assert InTree(fs, IndexPos(j, k / BLOCK_SIZE));
    }
  }

  /** A step that changes no byte keeps the progress made. */
  lemma ProgressThen(fs: FS, g: Geometry, fs1: FS, fs2: FS, ino: nat, p0: nat, data: seq<byte>)
    requires Progress(fs, fs1, g, ino, p0, data) && |fs2.inodes| == |fs1.inodes| && Shape(fs2, g)
    requires forall j :: 0 <= j < |fs2.inodes| ==> SameBytes(fs1, fs2, j)
    requires forall j :: 0 <= j < |fs2.inodes| && j != ino ==>
      fs2.inodes[j] == fs1.inodes[j] && (OnDisk(fs1, g, j) ==> OnDisk(fs2, g, j))
    requires fs2.inodes[ino] == fs1.inodes[ino].(blocks := fs2.inodes[ino].blocks, size := fs2.inodes[ino].size)
    ensures Progress(fs, fs2, g, ino, p0, data)
  {
    hide Node, DataBlock;
    assert SameBytes(fs1, fs2, ino);
    forall k: word
      ensures ByteAt(fs2, ino, k) == WrittenByte(fs, ino, p0, data, k)
    {
      assert ByteAt(fs2, ino, k) == ByteAt(fs1, ino, k);
    }
    forall j | 0 <= j < |fs2.inodes| && j != ino
      ensures SameBytes(fs, fs2, j)
    {
      assert SameBytes(fs1, fs2, j) && SameBytes(fs, fs1, j);
      forall k: word
        ensures ByteAt(fs2, j, k) == ByteAt(fs, j, k)
      {
        assert ByteAt(fs2, j, k) == ByteAt(fs1, j, k);
      }
    }
  }

  lemma ResizeProgress(fs: FS, g: Geometry, fs1: FS, fs2: FS, ino: nat, size: word, p0: nat, data: seq<byte>)
    requires Wf(fs1, g) && Progress(fs, fs1, g, ino, p0, data)
    requires fs2 == fs1.(inodes := fs1.inodes[ino := fs1.inodes[ino].(size := size)])
    ensures Wf(fs2, g) && Progress(fs, fs2, g, ino, p0, data)
  {
    ResizeKeeps(fs1, g, fs2, ino, size);
    ProgressThen(fs, g, fs1, fs2, ino, p0, data);
  }

  /** A lookup that finds no room leaves the part written so far as it is. */
  lemma FailedProgress(fs: FS, g: Geometry, fs1: FS, fs2: FS, ino: nat, p0: nat, data: seq<byte>)
    requires Progress(fs, fs1, g, ino, p0, data) && Unnoticed(fs1, fs2, g, ino)
    ensures Progress(fs, fs2, g, ino, p0, data)
  {
    ProgressThen(fs, g, fs1, fs2, ino, p0, data);
  }

  lemma SyncProgress(fs: FS, g: Geometry, fs1: FS, ino: nat, p0: nat, data: seq<byte>)
    requires Wf(fs1, g) && Progress(fs, fs1, g, ino, p0, data)
    ensures var fs2 := SyncInode(fs1, g, ino);
      Wf(fs2, g) && OnDisk(fs2, g, ino) && Progress(fs, fs2, g, ino, p0, data)
  {
    hide Node;
    var fs2 := SyncInode(fs1, g, ino);
    SyncInodeKeeps(fs1, g, ino);
    SyncInodeWf(fs1, g, ino);
    forall j: nat, k: word | j < |fs.inodes|
      ensures ByteAt(fs2, j, k) == ByteAt(fs1, j, k)
    {
      assert InTree(fs1, IndexPos(j, k / BLOCK_SIZE));
    }
    ProgressThen(fs, g, fs1, fs2, ino, p0, data);
  }

  function Min(a: int, b: int): int {
    if a < b then a else b
  }

  function Max(a: int, b: int): int {
    if a < b then b else a
  }

  /** fs' is fs after one complete write. */
  ghost predicate Written(fs: FS, fs': FS, ino: nat, p0: nat, data: seq<byte>)
    requires ino < |fs.inodes| == |fs'.inodes|
  {
    && fs'.inodes[ino].size == Max(fs.inodes[ino].size, p0 + |data|)
    && forall k: word :: ByteAt(fs', ino, k) == WrittenByte(fs, ino, p0, data, k)
  }

  lemma ProgressDone(fs: FS, fs': FS, g: Geometry, ino: nat, p0: nat, data: seq<byte>)
    requires Progress(fs, fs', g, ino, p0, data)
    requires fs'.inodes[ino].size == Max(fs.inodes[ino].size, p0 + |data|)
    ensures Written(fs, fs', ino, p0, data)
  {
  }

  /** Whatever happens to the rest of the last block, the bytes written read back. */
  lemma WriteReadsBack(fs: FS, fs': FS, ino: nat, p0: nat, data: seq<byte>)
    requires ino < |fs.inodes| == |fs'.inodes| && Written(fs, fs', ino, p0, data) && p0 + |data| < WORD_LIMIT
    ensures p0 + |data| <= |Contents(fs', ino)| && Contents(fs', ino)[p0..p0 + |data|] == data
  {
    hide DataBlock, IndexPos;
    forall k | p0 <= k < p0 + |data| ensures ByteAt(fs', ino, k) == data[k - p0] {
      assert ByteAt(fs', ino, k) == WrittenByte(fs, ino, p0, data, k);
    }
  }

  /** At every stage of a write the other files have the contents they had. */
  lemma OthersKeepContents(fs: FS, fs': FS, g: Geometry, ino: nat, p0: nat, data: seq<byte>, j: nat)
    requires Progress(fs, fs', g, ino, p0, data) && j < |fs.inodes| && j != ino
    ensures Contents(fs', j) == Contents(fs, j)
  {
    hide DataBlock, WrittenByte;
    assert SameBytes(fs, fs', j);
    forall k | 0 <= k < fs.inodes[j].size ensures ByteAt(fs', j, k) == ByteAt(fs, j, k) {
    }
  }

  /** The contents after a write, byte by byte: the ideal ones but for the rest of the last
      block when that was not also the first. */
  lemma WrittenBytes(fs: FS, fs': FS, ino: nat, p0: nat, data: seq<byte>)
    requires ino < |fs.inodes| == |fs'.inodes| && Written(fs, fs', ino, p0, data)
    requires p0 <= fs.inodes[ino].size && 0 < |data| && p0 + |data| < WORD_LIMIT
    ensures var was, now, end, size := Contents(fs, ino), Contents(fs', ino), p0 + |data|, fs.inodes[ino].size;
      var ideal := was[..p0] + data + (if end < size then was[end..] else []);
      && |now| == |ideal|
      && forall k :: 0 <= k < |now| ==>
        now[k] == if end <= k && p0 / BLOCK_SIZE < (end - 1) / BLOCK_SIZE == k / BLOCK_SIZE then 0 else ideal[k]
  {
    hide DataBlock, IndexPos;
    var now := Contents(fs', ino);
    forall k | 0 <= k < |now| ensures now[k] == WrittenByte(fs, ino, p0, data, k) {
    }
  }

  /** One call of BOFS_FileWrite is the ideal write -- replace count bytes at p0, keep the
      rest -- exactly when it reaches the end of the file, ends on a block boundary, stays in
      one block, or the rest of its last block held zeroes anyway. */
  lemma WriteIsSplice(fs: FS, fs': FS, ino: nat, p0: nat, data: seq<byte>)
    requires ino < |fs.inodes| == |fs'.inodes| && Written(fs, fs', ino, p0, data)
    requires p0 <= fs.inodes[ino].size && 0 < |data| && p0 + |data| < WORD_LIMIT
    ensures var was, end, size := Contents(fs, ino), p0 + |data|, fs.inodes[ino].size;
      Contents(fs', ino) == was[..p0] + data + (if end < size then was[end..] else [])
      <==>
      || end >= size || end % BLOCK_SIZE == 0 || p0 / BLOCK_SIZE == (end - 1) / BLOCK_SIZE
      || forall k :: end <= k < size && k / BLOCK_SIZE == (end - 1) / BLOCK_SIZE ==> was[k] == 0
  {
    hide DataBlock, IndexPos, ByteAt, Written, WrittenByte;
    var was, now, end, size := Contents(fs, ino), Contents(fs', ino), p0 + |data|, fs.inodes[ino].size;
    var ideal := was[..p0] + data + (if end < size then was[end..] else []);
    WrittenBytes(fs, fs', ino, p0, data);
    if now == ideal {
      forall k | end <= k < size && k / BLOCK_SIZE == (end - 1) / BLOCK_SIZE && p0 / BLOCK_SIZE < (end - 1) / BLOCK_SIZE
        ensures was[k] == 0
      {
        assert now[k] == ideal[k] == was[k];
      }
    } else {
      var k :| 0 <= k < |now| && now[k] != ideal[k];
      assert end <= k < size && was[k] == ideal[k] != 0;
    }
  }

  /** A case in which it is not: a file of 2000 ones, of which the first 1100 are rewritten,
      loses the 900 bytes that follow. */
  lemma WriteLosesTheTail(fs: FS, fs': FS, ino: nat)
    requires ino < |fs.inodes| == |fs'.inodes| && fs.inodes[ino].size == 2000
    requires Contents(fs, ino) == seq<byte>(2000, _ => 1)
    requires Written(fs, fs', ino, 0, seq<byte>(1100, _ => 2))
    ensures Contents(fs', ino)[1100..] == seq<byte>(900, _ => 0)
  {
    var now, data := Contents(fs', ino), seq<byte>(1100, _ => 2);
    forall k | 1100 <= k < 2000
      ensures now[k] == 0
    {
      assert now[k] == WrittenByte(fs, ino, 0, data, k);
    }
  }
}
