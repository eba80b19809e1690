/** Reading, writing and seeking in normal files (src/fs/bofs/file.c). */
module Files {
  import opened Basics
  import opened BlockDevices
  import opened BlockTree
  import opened FileTree
  import opened FileContents
  import opened Growth
  import opened InodeTable
  import Bofs
  import Bitmaps

  datatype Whence = SEEK_SET | SEEK_CUR | SEEK_END | UNKNOWN

  /** Conversion to int: 32 bits, two's complement. */
  function Int32(x: int): (r: int)
    ensures -0x8000_0000 <= r < 0x8000_0000 && (r - x) % WORD_LIMIT == 0
  {
    var y := x % WORD_LIMIT;
    if y < 0x8000_0000 then y else y - WORD_LIMIT
  }

  /** In a file below 2 GB the conversions do not show, from whatever base in the file the offset is
      taken: what is in range stays what it is, and what is not is refused. */
  lemma SeekIsPlain(offset: int, base: nat, size: nat)
    requires -0x8000_0000 <= offset < 0x8000_0000 && base <= size < 0x8000_0000
    ensures Int32(base) == base && Int32(size) == size
    ensures var n := Int32(base + offset);
      (0 <= base + offset <= size <==> 0 <= n <= size) && (0 <= n <= size ==> n == base + offset)
  {
  }

  lemma ByteOfBlock(fs: FS, ino: nat, pos: nat, i: nat)
    requires ino < |fs.inodes| && pos + i < WORD_LIMIT && pos % BLOCK_SIZE + i < BLOCK_SIZE
    ensures ByteAt(fs, ino, pos + i) == DataBlock(fs, IndexPos(ino, pos / BLOCK_SIZE))[pos % BLOCK_SIZE + i]
  {
    assert (pos + i) / BLOCK_SIZE == pos / BLOCK_SIZE && (pos + i) % BLOCK_SIZE == pos % BLOCK_SIZE + i;
  }

  /** A finished write used the file, ... */
  lemma WriteUses(fs: FS, fs': FS, g: Geometry, ino: nat, p0: nat, data: seq<byte>)
    requires Wf(fs, g) && Wf(fs', g) && Progress(fs, fs', g, ino, p0, data) && Written(fs, fs', ino, p0, data)
    requires Grown(fs, fs', ino, BlocksFor(p0 + |data|))
    ensures Uses(fs, fs', g, ino)
  {
    hide Grown, Uses, BlocksFor, Wf, ByteAt, WrittenByte;
    BlocksMonotone(p0 + |data|, fs'.inodes[ino].size);
    GrownUses(fs, fs', g, ino, BlocksFor(p0 + |data|));
  }

  /** ... and so did a finished read, which may have filled holes. */
  lemma ReadUses(fs: FS, fs': FS, g: Geometry, ino: nat, n: nat)
    requires Wf(fs, g) && Wf(fs', g) && ino < |fs.inodes| && Unnoticed(fs, fs', g, ino)
    requires Grown(fs, fs', ino, n) && n <= BlocksFor(fs.inodes[ino].size)
    ensures Uses(fs, fs', g, ino)
  {
    hide Grown, Uses, BlocksFor, Wf, SameBytes;
    GrownUses(fs, fs', g, ino, n);
  }

  lemma WellFormed(fs: Bofs.FileSystem)
    requires fs.Valid()
    ensures Wf(fs.State(), fs.geometry) && Shape(fs.State(), fs.geometry)
  {
  }

  class FileDescriptor {
    const fs: Bofs.FileSystem
    const ino: nat
    var pos: nat

    constructor (fs: Bofs.FileSystem, ino: nat)
      ensures this.fs == fs && this.ino == ino && pos == 0
    {
      this.fs, this.ino, pos := fs, ino, 0;
    }

    ghost predicate Valid()
      reads this, fs, fs.disk, fs.disk.Repr, fs.sectorBitmap, fs.sectorBitmap.bits
    {
      && fs.Valid() && ino < |fs.inodes| && this !in fs.disk.Repr
    }

    /** The position is the target if that is within the file, and is returned; else it stays. */
    predicate MovedTo(target: int, before: nat, r: int)
      requires ino < |fs.inodes|
      reads this, fs
    {
      if 0 <= target <= fs.inodes[ino].size then r == pos == target else r == -1 && pos == before
    }

    /** Moves the position within [0, size]; otherwise -1 and the position stays. Position and
        size are converted to int and the sum wraps, which shows only for files of 2 GB or more. */
    method Lseek(offset: int, whence: Whence) returns (r: int)
      requires Valid() && -0x8000_0000 <= offset < 0x8000_0000
      modifies this`pos
      ensures Valid()
      ensures var size := Int32(fs.inodes[ino].size);
        var target := match whence
          case SEEK_SET => offset
          case SEEK_CUR => Int32(Int32(old(pos)) + offset)
          case SEEK_END => Int32(size + offset)
          case UNKNOWN => 0;
        if 0 <= target <= size then r == pos == target else r == -1 && pos == old(pos)
      ensures old(pos) <= fs.inodes[ino].size < 0x8000_0000 ==> match whence
        case SEEK_SET => MovedTo(offset, old(pos), r)
        case SEEK_CUR => MovedTo(old(pos) + offset, old(pos), r)
        case SEEK_END => MovedTo(fs.inodes[ino].size + offset, old(pos), r)
        case UNKNOWN => MovedTo(0, old(pos), r)
    {
      hide Int32, Bofs.FileSystem.Valid;
      if pos <= fs.inodes[ino].size < 0x8000_0000 {
        SeekIsPlain(offset, 0, fs.inodes[ino].size);
        SeekIsPlain(offset, pos, fs.inodes[ino].size);
        SeekIsPlain(offset, fs.inodes[ino].size, fs.inodes[ino].size);
      }
      var newPos := 0;
      var fileSize := Int32(fs.inodes[ino].size);
      match whence {
        case SEEK_SET => newPos := offset;
        case SEEK_CUR => newPos := Int32(Int32(pos) + offset);
        case SEEK_END => newPos := Int32(fileSize + offset);
        case UNKNOWN =>
      }
      if newPos < 0 || newPos > fileSize {
        return -1;
      }
      pos := newPos;
      return pos;
    }

    /** Puts bytes [from, from + chunk) of buf at offset off of a block: into what the block
        holds if this is the first block of the call, else into zeroes. */
    method StoreChunk(iobuf: array<byte>, sectorLba: nat, off: nat, buf: array<byte>, from: nat, chunk: nat, first: bool)
      requires fs.disk.Valid() && sectorLba < |fs.disk.view|
      requires off + chunk <= BLOCK_SIZE && from + chunk <= buf.Length && iobuf.Length == BLOCK_SIZE
      requires iobuf !in fs.disk.Repr && buf !in fs.disk.Repr && iobuf != buf
      modifies fs.disk, fs.disk.Repr, iobuf
      ensures fs.disk.Valid() && fresh(fs.disk.Repr - old(fs.disk.Repr)) && old(fs.disk.Repr) <= fs.disk.Repr
      ensures fs.disk.view == old(fs.disk.view)[sectorLba :=
        NewBlock(old(fs.disk.view)[sectorLba], first, off, buf[from..from + chunk])]
    {
      hide Disk.Valid, Disk.Coherent, Disk.Quiet;
      forall i | 0 <= i < BLOCK_SIZE {
        iobuf[i] := 0;
      }
      assert iobuf[..] == ZeroBlock();
      if first {
        fs.disk.BlockRead(sectorLba, iobuf);
      }
      ghost var b := iobuf[..];
      forall i | 0 <= i < chunk {
        iobuf[off + i] := buf[from + i];
      }
      assert iobuf[..] == Overlay(b, off, buf[from..from + chunk]);
      var _ := fs.disk.BlockWrite(sectorLba, iobuf, false);
    }

    /** One turn of the write loop: finds block blockID of the file and stores the chunk.
        False when no block could be found for it. */
    method WriteChunk(iobuf: array<byte>, blockID: nat, off: nat, buf: array<byte>, from: nat, chunk: nat,
                      first: bool, ghost b: Block)
      returns (ok: bool)
      requires Valid() && blockID <= WORD_LIMIT / BLOCK_SIZE
      requires off + chunk <= BLOCK_SIZE && from + chunk <= buf.Length && iobuf.Length == BLOCK_SIZE
      requires iobuf !in fs.disk.Repr && buf !in fs.disk.Repr && iobuf != buf
      requires iobuf as object != fs.sectorBitmap.bits && buf as object != fs.sectorBitmap.bits
      requires b == NewBlock(DataBlock(fs.State(), IndexPos(ino, blockID)), first, off, buf[from..from + chunk])
      modifies fs, fs.disk, fs.disk.Repr, fs.sectorBitmap.bits, iobuf
      ensures Valid() && fresh(fs.disk.Repr - old(fs.disk.Repr))
      ensures iobuf !in fs.disk.Repr && buf !in fs.disk.Repr
      ensures fs.inodes[ino].size == old(fs.inodes[ino].size)
      ensures !ok ==> Bitmaps.FirstClear(fs.sectorBitmap.Bits()) == -1
      ensures !ok ==> Unnoticed(old(fs.State()), fs.State(), fs.geometry, ino)
      ensures ok ==> BlockStored(old(fs.State()), fs.State(), fs.geometry, ino, blockID, b)
      ensures ok ==> Grown(old(fs.State()), fs.State(), ino, blockID + 1)
    {
      hide Disk.Valid, Disk.Coherent, Disk.Quiet, Bitmaps.BitsOf, Node, Wf, Grown, IndexPos;
      ghost var s0, g, t := fs.State(), fs.geometry, IndexPos(ino, blockID);
      var ret, sectorLba := fs.GetInodeData(ino, blockID);
      ghost var s1 := fs.State();
      if ret != 0 {
        LookupUnnoticed(s0, g, (s1, 0), t);
        return false;
      }
      StoreInFile(s0, g, (s1, sectorLba), ino, blockID, b);
      StoreGrown(s0, g, (s1, sectorLba), ino, blockID, b);
      StoreChunk(iobuf, sectorLba, off, buf, from, chunk, first);
      return true;
    }

    /** The body of the write loop: stores the next chunk and moves position and size on. */
    method WriteTurn(iobuf: array<byte>, buf: array<byte>, blockID: nat, bytesWritten: nat, chunkSize: nat,
                     firstWriteSector: bool, changeFileSize: bool, ghost s0: FS, ghost p0: nat)
      returns (ok: bool)
      requires Valid() && iobuf.Length == BLOCK_SIZE && iobuf != buf
      requires iobuf !in fs.disk.Repr && buf !in fs.disk.Repr
      requires iobuf as object != fs.sectorBitmap.bits && buf as object != fs.sectorBitmap.bits
      requires pos == p0 + bytesWritten && p0 + buf.Length < WORD_LIMIT && bytesWritten + chunkSize <= buf.Length
      requires blockID == pos / BLOCK_SIZE && 0 < chunkSize <= BLOCK_SIZE - pos % BLOCK_SIZE
      requires (firstWriteSector <==> bytesWritten == 0) && (bytesWritten > 0 ==> pos % BLOCK_SIZE == 0)
      requires Progress(s0, fs.State(), fs.geometry, ino, p0, buf[..bytesWritten])
      requires Grown(s0, fs.State(), ino, BlocksFor(pos))
      modifies this`pos, fs, fs.disk, fs.disk.Repr, fs.sectorBitmap.bits, iobuf
      ensures Valid() && fresh(fs.disk.Repr - old(fs.disk.Repr)) && iobuf !in fs.disk.Repr && buf !in fs.disk.Repr
      ensures var n := if ok then bytesWritten + chunkSize else bytesWritten;
        pos == p0 + n && Progress(s0, fs.State(), fs.geometry, ino, p0, buf[..n])
      ensures fs.inodes[ino].size == if ok && changeFileSize then pos else old(fs.inodes[ino].size)
      ensures ok ==> Grown(s0, fs.State(), ino, BlocksFor(pos))
      ensures !ok ==> Bitmaps.FirstClear(fs.sectorBitmap.Bits()) == -1
    {
      hide Disk.Valid, Disk.Coherent, Disk.Quiet, Bitmaps.BitsOf, Node, Wf, Progress, BlockStored, Unnoticed,
        DataBlock, IndexPos, Grown, BlocksFor;
      ghost var s1, g, chunk := fs.State(), fs.geometry, buf[bytesWritten..bytesWritten + chunkSize];
      ghost var b := NewBlock(DataBlock(s1, IndexPos(ino, blockID)), firstWriteSector, pos % BLOCK_SIZE, chunk);
      ok := WriteChunk(iobuf, blockID, pos % BLOCK_SIZE, buf, bytesWritten, chunkSize, firstWriteSector, b);
      ghost var s2 := fs.State();
      if !ok {
        FailedProgress(s0, g, s1, s2, ino, p0, buf[..bytesWritten]);
        return;
      }
      WriteStep(s0, s1, s2, g, ino, p0, buf[..bytesWritten], chunk);
      assert buf[..bytesWritten] + chunk == buf[..bytesWritten + chunkSize];
      TurnBlocks(pos, chunkSize);
      GrownThen(s0, s1, s2, ino, BlocksFor(pos), blockID + 1);
      pos := pos + chunkSize;
      if changeFileSize {
        ResizeGrown(s0, g, s2, ino, pos, blockID + 1);
        fs.inodes := fs.inodes[ino := fs.inodes[ino].(size := pos)];
        ResizeProgress(s0, g, s2, fs.State(), ino, pos, p0, buf[..bytesWritten + chunkSize]);
      }
    }

    /** The write loop: all of buf, or up to a turn that finds no free block. */
    method WriteBytes(buf: array<byte>) returns (ok: bool)
      requires Valid() && buf !in fs.disk.Repr && buf as object != fs.sectorBitmap.bits
      requires pos <= fs.inodes[ino].size && pos + buf.Length < WORD_LIMIT
      modifies this`pos, fs, fs.disk, fs.disk.Repr, fs.sectorBitmap.bits
      ensures Valid() && fresh(fs.disk.Repr - old(fs.disk.Repr))
      ensures old(pos) <= pos <= old(pos) + buf.Length
      ensures Progress(old(fs.State()), fs.State(), fs.geometry, ino, old(pos), buf[..pos - old(pos)])
      ensures ok ==> pos == old(pos) + buf.Length && Grown(old(fs.State()), fs.State(), ino, BlocksFor(pos))
      ensures ok ==> fs.inodes[ino].size == Max(old(fs.inodes[ino].size), pos)
      ensures !ok ==> Bitmaps.FirstClear(fs.sectorBitmap.Bits()) == -1
    {
      hide Bofs.FileSystem.Valid, Bitmaps.BitsOf, Node, Wf, Progress, DataBlock, IndexPos, Grown, BlocksFor;
      var count := buf.Length;
      var changeFileSize := pos + count > fs.inodes[ino].size;
      var bytesWritten, sizeLeft := 0, count;
      var firstWriteSector := true;
      var iobuf := new byte[BLOCK_SIZE](_ => 0);
      var blockID := pos / BLOCK_SIZE;
      ghost var s0, p0, g := fs.State(), pos, fs.geometry;
      WellFormed(fs);
      ProgressStart(s0, g, ino, p0);
      GrownNow(s0, ino, BlocksFor(p0));
      assert buf[..0] == [];
      while bytesWritten < count
        invariant 0 <= bytesWritten <= count && pos == p0 + bytesWritten && sizeLeft == count - bytesWritten
        invariant firstWriteSector <==> bytesWritten == 0
        invariant bytesWritten < count ==> blockID == pos / BLOCK_SIZE
        invariant 0 < bytesWritten < count ==> pos % BLOCK_SIZE == 0
        invariant Valid() && fresh(fs.disk.Repr - old(fs.disk.Repr)) && iobuf !in fs.disk.Repr && buf !in fs.disk.Repr
        invariant Progress(s0, fs.State(), g, ino, p0, buf[..bytesWritten]) && Grown(s0, fs.State(), ino, BlocksFor(pos))
        invariant fs.inodes[ino].size == if changeFileSize && bytesWritten > 0 then pos else s0.inodes[ino].size
      {
        var sectorLeftBytes := BLOCK_SIZE - pos % BLOCK_SIZE;
        var chunkSize := if sizeLeft < sectorLeftBytes then sizeLeft else sectorLeftBytes;
        ok := WriteTurn(iobuf, buf, blockID, bytesWritten, chunkSize, firstWriteSector, changeFileSize, s0, p0);
        if !ok {
          return;
        }
        firstWriteSector := false;
        bytesWritten := bytesWritten + chunkSize;
        sizeLeft := sizeLeft - chunkSize;
        blockID := blockID + 1;
      }
      ok := true;
    }

    /** Writes the inode back after the last turn. */
    method FinishWrite(ghost s0: FS, ghost p0: nat, ghost data: seq<byte>)
      requires Valid() && Wf(s0, fs.geometry) && Progress(s0, fs.State(), fs.geometry, ino, p0, data)
      requires Grown(s0, fs.State(), ino, BlocksFor(p0 + |data|))
      requires fs.inodes[ino].size == Max(s0.inodes[ino].size, p0 + |data|)
      modifies fs.disk, fs.disk.Repr
      ensures Valid() && fresh(fs.disk.Repr - old(fs.disk.Repr))
      ensures Progress(s0, fs.State(), fs.geometry, ino, p0, data)
      ensures Written(s0, fs.State(), ino, p0, data) && OnDisk(fs.State(), fs.geometry, ino)
      ensures Uses(s0, fs.State(), fs.geometry, ino)
    {
      hide Disk.Valid, Disk.Coherent, Disk.Quiet, Bitmaps.BitsOf, Node, Wf, Progress, DataBlock, IndexPos, Written, OnDisk,
        Grown, Uses, BlocksFor;
      ghost var g := fs.geometry;
      SyncProgress(s0, g, fs.State(), ino, p0, data);
      SyncGrown(s0, g, fs.State(), ino, BlocksFor(p0 + |data|));
      fs.SyncInode(ino);
      ProgressDone(s0, fs.State(), g, ino, p0, data);
      WriteUses(s0, fs.State(), g, ino, p0, data);
    }

    /** Writes buf at the position, clipped to the size. When the disk fills up on the way the
        code goes on with a stale block number; the model stops there and says so. */
    method FileWrite(buf: array<byte>) returns (ret: int, ghost faulted: bool)
      requires Valid() && buf !in fs.disk.Repr && buf as object != fs.sectorBitmap.bits
      requires Min(pos, fs.inodes[ino].size) + buf.Length < WORD_LIMIT
      modifies this`pos, fs, fs.disk, fs.disk.Repr, fs.sectorBitmap.bits
      ensures Valid() && fresh(fs.disk.Repr - old(fs.disk.Repr))
      ensures var p0 := old(Min(pos, fs.inodes[ino].size));
        && p0 <= pos <= p0 + buf.Length
        && Progress(old(fs.State()), fs.State(), fs.geometry, ino, p0, buf[..pos - p0])
        && (!faulted ==>
          && ret == buf.Length && pos == p0 + ret
          && Written(old(fs.State()), fs.State(), ino, p0, buf[..])
          && OnDisk(fs.State(), fs.geometry, ino)
          && Uses(old(fs.State()), fs.State(), fs.geometry, ino))
        && (faulted ==> ret == -1 && Bitmaps.FirstClear(fs.sectorBitmap.Bits()) == -1)
    {
      hide Bofs.FileSystem.Valid, Bitmaps.BitsOf, Node, Wf, Progress, DataBlock, IndexPos, Written, OnDisk,
        Grown, Uses, BlocksFor;
      WellFormed(fs);
      ghost var s0 := fs.State();
      if pos > fs.inodes[ino].size {
        pos := fs.inodes[ino].size;
      }
      ghost var p0 := pos;
      var ok := WriteBytes(buf);
      if !ok {
        return -1, true;
      }
      assert buf[..pos - p0] == buf[..];
      FinishWrite(s0, p0, buf[..]);
      return buf.Length, false;
    }

    /** A finished write is what the next open of the file loads. */
    method WriteAndReopen(buf: array<byte>) returns (ret: int, loaded: Inode, ghost faulted: bool)
      requires Valid() && buf !in fs.disk.Repr && buf as object != fs.sectorBitmap.bits
      requires Min(pos, fs.inodes[ino].size) + buf.Length < WORD_LIMIT
      modifies this`pos, fs, fs.disk, fs.disk.Repr, fs.sectorBitmap.bits
      ensures Valid() && fresh(fs.disk.Repr - old(fs.disk.Repr))
      ensures !faulted ==> loaded == fs.inodes[ino]
      ensures !faulted ==> loaded.size == Max(old(fs.inodes[ino].size), old(Min(pos, fs.inodes[ino].size)) + buf.Length)
    {
      hide Disk.Valid, Disk.Coherent, Disk.Quiet, Bitmaps.BitsOf, Node, Wf, Progress, IndexPos, Uses, GetInode, WrittenByte;
      ret, faulted := FileWrite(buf);
      loaded := fs.LoadInodeByID(fs.inodes[ino].id);
    }

    /** Looks a block up, adding it if it is missing, and reads it. */
    method FetchBlock(iobuf: array<byte>, blockID: nat) returns (ok: bool)
      requires Valid() && iobuf.Length == BLOCK_SIZE && blockID <= WORD_LIMIT / BLOCK_SIZE
      requires iobuf !in fs.disk.Repr && iobuf as object != fs.sectorBitmap.bits
      modifies fs, fs.disk, fs.disk.Repr, fs.sectorBitmap.bits, iobuf
      ensures Valid() && fresh(fs.disk.Repr - old(fs.disk.Repr)) && iobuf !in fs.disk.Repr
      ensures Unnoticed(old(fs.State()), fs.State(), fs.geometry, ino)
      ensures ok ==> iobuf[..] == old(DataBlock(fs.State(), IndexPos(ino, blockID)))
      ensures ok ==> Grown(old(fs.State()), fs.State(), ino, blockID + 1)
      ensures !ok ==> Bitmaps.FirstClear(fs.sectorBitmap.Bits()) == -1
    {
      hide Disk.Valid, Disk.Coherent, Disk.Quiet, Bitmaps.BitsOf, Node, Wf, Unnoticed, IndexPos, Grown;
      ghost var s0, g, t := fs.State(), fs.geometry, IndexPos(ino, blockID);
      var ret, sectorLba := fs.GetInodeData(ino, blockID);
      LookupUnnoticed(s0, g, (fs.State(), sectorLba), t);
      if ret != 0 {
        return false;
      }
      StoreInFile(s0, g, (fs.State(), sectorLba), ino, blockID, ZeroBlock());
      ReadGrown(s0, g, (fs.State(), sectorLba), ino, blockID);
      fs.disk.BlockRead(sectorLba, iobuf);
      return true;
    }

    /** The body of the read loop: fetches the block and copies its part to dst. */
    method ReadTurn(iobuf: array<byte>, dst: array<byte>, blockID: nat, bytesRead: nat, chunkSize: nat)
      returns (ok: bool)
      requires Valid() && iobuf.Length == BLOCK_SIZE && iobuf != dst
      requires iobuf !in fs.disk.Repr && dst !in fs.disk.Repr
      requires iobuf as object != fs.sectorBitmap.bits && dst as object != fs.sectorBitmap.bits
      requires bytesRead + chunkSize <= dst.Length && pos + chunkSize < WORD_LIMIT
      requires blockID == pos / BLOCK_SIZE && 0 < chunkSize <= BLOCK_SIZE - pos % BLOCK_SIZE
      modifies this`pos, fs, fs.disk, fs.disk.Repr, fs.sectorBitmap.bits, iobuf, dst
      ensures Valid() && fresh(fs.disk.Repr - old(fs.disk.Repr)) && iobuf !in fs.disk.Repr && dst !in fs.disk.Repr
      ensures Unnoticed(old(fs.State()), fs.State(), fs.geometry, ino)
      ensures ok ==> pos == old(pos) + chunkSize && Grown(old(fs.State()), fs.State(), ino, blockID + 1)
      ensures ok ==> forall i :: 0 <= i < dst.Length ==>
        dst[i] == if bytesRead <= i < bytesRead + chunkSize
          then old(ByteAt(fs.State(), ino, pos + i - bytesRead)) else old(dst[i])
      ensures !ok ==> pos == old(pos) && dst[..] == old(dst[..]) && Bitmaps.FirstClear(fs.sectorBitmap.Bits()) == -1
    {
      hide Bofs.FileSystem.Valid, Bitmaps.BitsOf, Node, Unnoticed, IndexPos, DataBlock, ByteAt, Grown;
      ghost var s0 := fs.State();
      ok := FetchBlock(iobuf, blockID);
      if !ok {
        return;
      }
      var sectorOffsetBytes := pos % BLOCK_SIZE;
      forall i | 0 <= i < chunkSize {
        dst[bytesRead + i] := iobuf[sectorOffsetBytes + i];
      }
      forall i | bytesRead <= i < bytesRead + chunkSize
        ensures dst[i] == ByteAt(s0, ino, pos + i - bytesRead)
      {
        ByteOfBlock(s0, ino, pos, i - bytesRead);
      }
      pos := pos + chunkSize;
    }

    /** The read loop: the next size bytes of the file. */
    method ReadBytes(dst: array<byte>, size: nat) returns (ok: bool)
      requires Valid() && dst !in fs.disk.Repr && dst as object != fs.sectorBitmap.bits && size <= dst.Length
      requires pos + size <= fs.inodes[ino].size
      modifies this`pos, fs, fs.disk, fs.disk.Repr, fs.sectorBitmap.bits, dst
      ensures Valid() && fresh(fs.disk.Repr - old(fs.disk.Repr))
      ensures Unnoticed(old(fs.State()), fs.State(), fs.geometry, ino)
      ensures ok ==> pos == old(pos) + size && Grown(old(fs.State()), fs.State(), ino, BlocksFor(pos))
      ensures ok ==> forall i :: 0 <= i < dst.Length ==>
        dst[i] == if i < size then old(ByteAt(fs.State(), ino, pos + i)) else old(dst[i])
      ensures !ok ==> Bitmaps.FirstClear(fs.sectorBitmap.Bits()) == -1
    {
      hide Bofs.FileSystem.Valid, Bitmaps.BitsOf, Node, Wf, Unnoticed, DataBlock, IndexPos, ByteAt, Grown, BlocksFor;
      WellFormed(fs);
      var sizeLeft := size;
      var blockID := pos / BLOCK_SIZE;
      var bytesRead := 0;
      var iobuf := new byte[BLOCK_SIZE];
      ghost var s0, p0, g := fs.State(), pos, fs.geometry;
      ghost var n := BlocksFor(p0 + size);
      UnnoticedNow(s0, g, ino);
      GrownNow(s0, ino, n);
      while bytesRead < size
        invariant 0 <= bytesRead <= size && pos == p0 + bytesRead && sizeLeft == size - bytesRead
        invariant bytesRead < size ==> blockID == pos / BLOCK_SIZE
        invariant 0 < bytesRead < size ==> pos % BLOCK_SIZE == 0
        invariant Valid() && fresh(fs.disk.Repr - old(fs.disk.Repr)) && iobuf !in fs.disk.Repr && dst !in fs.disk.Repr
        invariant Unnoticed(s0, fs.State(), g, ino) && Grown(s0, fs.State(), ino, n)
        invariant forall i :: 0 <= i < dst.Length ==>
          dst[i] == if i < bytesRead then ByteAt(s0, ino, p0 + i) else old(dst[i])
      {
        var sectorLeftBytes := BLOCK_SIZE - pos % BLOCK_SIZE;
        var chunkSize := if sizeLeft < sectorLeftBytes then sizeLeft else sectorLeftBytes;
        ghost var s1 := fs.State();
        ok := ReadTurn(iobuf, dst, blockID, bytesRead, chunkSize);
        UnnoticedTransitive(s0, s1, fs.State(), g, ino);
        if !ok {
          return;
        }
        UnnoticedByte(s0, s1, g, ino);
        TurnBlocks(pos - chunkSize, chunkSize);
        BlocksMonotone(pos, p0 + size);
        GrownWithin(s0, s1, fs.State(), ino, blockID + 1, n);
        bytesRead := bytesRead + chunkSize;
        sizeLeft := sizeLeft - chunkSize;
        blockID := blockID + 1;
      }
      ok := true;
    }

    /** Reads up to dst.Length bytes at the position: exactly the slice up to the end of the
        file, or -1 there. No reader of any file can tell that it happened. */
    method FileRead(dst: array<byte>) returns (ret: int, ghost faulted: bool)
      requires Valid() && dst !in fs.disk.Repr && dst as object != fs.sectorBitmap.bits
      requires pos <= fs.inodes[ino].size && pos + dst.Length < WORD_LIMIT
      modifies this`pos, fs, fs.disk, fs.disk.Repr, fs.sectorBitmap.bits, dst
      ensures Valid() && fresh(fs.disk.Repr - old(fs.disk.Repr))
      ensures Unnoticed(old(fs.State()), fs.State(), fs.geometry, ino)
      ensures !faulted ==> Uses(old(fs.State()), fs.State(), fs.geometry, ino)
      ensures var n := Min(dst.Length, old(fs.inodes[ino].size - pos));
        if faulted then ret == -1 && Bitmaps.FirstClear(fs.sectorBitmap.Bits()) == -1
        else if n == 0 && dst.Length > 0 then ret == -1 && pos == old(pos) && dst[..] == old(dst[..])
        else
          && ret == n && pos == old(pos) + n
          && dst[..n] == old(Contents(fs.State(), ino)[pos..pos + n]) && dst[n..] == old(dst[n..])
    {
      hide Bofs.FileSystem.Valid, Bitmaps.BitsOf, Node, Wf, Unnoticed, DataBlock, IndexPos, ByteAt, Contents,
        Grown, Uses, BlocksFor;
      WellFormed(fs);
      var size := dst.Length;
      ghost var s0, p0, g := fs.State(), pos, fs.geometry;
      if pos + dst.Length > fs.inodes[ino].size {
        size := fs.inodes[ino].size - pos;
        if size == 0 {
          UnnoticedNow(s0, g, ino);
          GrownNow(s0, ino, 0);
          ReadUses(s0, s0, g, ino, 0);
          return -1, false;
        }
      }
      BlocksMonotone(pos + size, fs.inodes[ino].size);
      var ok := ReadBytes(dst, size);
      if !ok {
        return -1, true;
      }
      SliceOfContents(s0, ino, p0, dst[..size]);
      WellFormed(fs);
      ReadUses(s0, fs.State(), g, ino, BlocksFor(pos));
      return size, false;
    }
  }
}
