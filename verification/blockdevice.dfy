/** The block layer under the file system: a ramdisk (src/drivers/ramdisk.c), its request
    queue (src/kernel/block/request.c) and the write-back buffer cache
    (src/kernel/block/buffer.c, src/include/book/blk-buffer.h).

    The promise to the layers above is the ghost field `view`: what a reader of the disk
    sees, block by block, whatever is cached, dirty or already on the device. */
module BlockDevices {
  import opened Basics

  const SECTOR_SIZE := 512
  const BLOCK_SIZE := 1024
  const SECTORS_PER_BLOCK := BLOCK_SIZE / SECTOR_SIZE

  type Block = b: seq<byte> | |b| == BLOCK_SIZE witness seq(BLOCK_SIZE, _ => 0)

  function ZeroBlock(): Block {
    seq(BLOCK_SIZE, _ => 0)
  }

  /** Block l of a byte string. */
  function BlockAt(bytes: seq<byte>, l: nat): Block
    requires (l + 1) * BLOCK_SIZE <= |bytes|
  {
    bytes[l * BLOCK_SIZE..(l + 1) * BLOCK_SIZE]
  }

  /** Overwriting block l changes that block and no other. */
  lemma SpliceBlock(old_: seq<byte>, l: nat, b: Block, k: nat)
    requires |old_| % BLOCK_SIZE == 0
    requires (l + 1) * BLOCK_SIZE <= |old_| && (k + 1) * BLOCK_SIZE <= |old_|
    ensures var now := old_[..l * BLOCK_SIZE] + b + old_[(l + 1) * BLOCK_SIZE..];
      |now| == |old_| && BlockAt(now, k) == if k == l then b else BlockAt(old_, k)
  {
    if k < l {
      assert (k + 1) * BLOCK_SIZE <= l * BLOCK_SIZE;
    } else if k > l {
      assert (l + 1) * BLOCK_SIZE <= k * BLOCK_SIZE;
    }
  }

  datatype Command = BLOCK_READ | BLOCK_WRITE

  class BufferHead {
    const lba: nat
    const data: array<byte>
    var uptodate: bool
    var dirty: bool
    var locked: bool

    constructor (lba: nat)
      ensures fresh(data) && data.Length == BLOCK_SIZE && this.lba == lba
      ensures !uptodate && !dirty && !locked
    {
      this.lba := lba;
      data := new byte[BLOCK_SIZE];
      uptodate, dirty, locked := false, false, false;
    }
  }

  datatype Request = Request(cmd: Command, lba: nat, count: nat, bh: BufferHead)

  class Disk {
    // the ramdisk's bytes
    const data: array<byte>
    // the request queue
    var upRequestList: seq<Request>
    var downRequestList: seq<Request>
    var listIsUp: bool
    var currentRequest: Option<Request>
    // the cached blocks
    var buffers: seq<BufferHead>

    ghost var view: seq<Block>
    ghost var Repr: set<object>  // what it owns besides itself

    // ---------- what the fields mean together ----------

    ghost function Device(l: nat): Block
      requires data.Length == |view| * BLOCK_SIZE && l < |view|
      reads this`view, data
    {
      BlockAt(data[..], l)
    }

    ghost predicate BufferOk(b: BufferHead)
      reads this`view, this`Repr, b, b.data
    {
      && b in Repr && b.data in Repr && b.data != data && b.data.Length == BLOCK_SIZE
      && b.lba < |view|
      && (b.dirty ==> b.uptodate)
      && (b.uptodate ==> b.data[..] == view[b.lba])
    }

    ghost predicate HasDirty(l: nat)
      reads this`buffers, buffers
    {
      exists b :: b in buffers && b.lba == l && b.dirty
    }

    /** The cache is coherent with the device; says nothing about the queue. */
    ghost predicate Coherent()
      reads this`buffers, this`view, this`Repr, Repr
    {
      && this !in Repr && data in Repr
      && data.Length == |view| * BLOCK_SIZE
      && (forall b :: b in buffers ==> b in Repr && b.data in Repr)
      && (forall b :: b in buffers ==> BufferOk(b))
      && (forall i, j :: 0 <= i < j < |buffers| ==> buffers[i] != buffers[j])
      && (forall b, c :: b in buffers && c in buffers && b != c ==> b.lba != c.lba && b.data != c.data)
      && (forall l :: 0 <= l < |view| && !HasDirty(l) ==> Device(l) == view[l])
    }

    /** The device alone holds what readers see. */
    ghost predicate Synced()
      reads this`view, data
    {
      data.Length == |view| * BLOCK_SIZE && forall l :: 0 <= l < |view| ==> BlockAt(data[..], l) == view[l]
    }

    /** Between calls the queue is empty and no buffer is locked. */
    ghost predicate Quiet()
      reads this, buffers
    {
      && upRequestList == [] && downRequestList == [] && currentRequest.None?
      && forall b :: b in buffers ==> !b.locked
    }

    ghost predicate Valid()
      reads this, Repr
    {
      Coherent() && Quiet()
    }

    constructor (blocks: nat)
      ensures Valid() && fresh(Repr) && |view| == blocks
    {
      data := new byte[blocks * BLOCK_SIZE];
      upRequestList, downRequestList, listIsUp, currentRequest := [], [], true, None;
      buffers := [];
      new;
      Repr := {data};
      ghost var bytes := data[..];
      view := seq(blocks, l requires 0 <= l < blocks => BlockAt(bytes, l));
    }

    // ---------- ramdisk.c ----------

    method RamdiskReadSector(lba: nat, buf: array<byte>, count: nat) returns (err: int)
      requires buf != data && buf.Length >= count * SECTOR_SIZE
      modifies buf
      ensures err == 0 <==> (lba + count) * SECTOR_SIZE <= data.Length
      ensures err == 0 ==> buf[..count * SECTOR_SIZE] == data[lba * SECTOR_SIZE..(lba + count) * SECTOR_SIZE]
      ensures err == 0 ==> buf[count * SECTOR_SIZE..] == old(buf[count * SECTOR_SIZE..])
      ensures err != 0 ==> err == -1 && buf[..] == old(buf[..])
    {
      if (lba + count) * SECTOR_SIZE > data.Length {
        return -1;
      }
      forall i | 0 <= i < count * SECTOR_SIZE {
        buf[i] := data[lba * SECTOR_SIZE + i];
      }
      return 0;
    }

    method RamdiskWriteSector(lba: nat, buf: array<byte>, count: nat) returns (err: int)
      requires buf != data && buf.Length >= count * SECTOR_SIZE
      modifies data
      ensures err == 0 <==> (lba + count) * SECTOR_SIZE <= data.Length
      ensures err == 0 ==>
        data[..] == old(data[..])[..lba * SECTOR_SIZE]
          + buf[..count * SECTOR_SIZE] + old(data[..])[(lba + count) * SECTOR_SIZE..]
      ensures err != 0 ==> err == -1 && data[..] == old(data[..])
    {
      if (lba + count) * SECTOR_SIZE > data.Length {
        return -1;
      }
      forall i | 0 <= i < count * SECTOR_SIZE {
        data[lba * SECTOR_SIZE + i] := buf[i];
      }
      return 0;
    }

    // ---------- request.c ----------

    method SwitchRequestList()
      modifies this`listIsUp
      ensures listIsUp == !old(listIsUp)
    {
      listIsUp := !listIsUp;
    }

    /** Takes the next request, looking at the other list when the current one is empty. */
    method BlockFetchRequest() returns (r: Option<Request>)
      modifies this`upRequestList, this`downRequestList, this`listIsUp, this`currentRequest
      ensures r.None? <==> old(upRequestList) == [] && old(downRequestList) == []
      ensures r.None? ==> listIsUp != old(listIsUp) && currentRequest == old(currentRequest)
      ensures r.None? ==> upRequestList == [] && downRequestList == []
      ensures r.Some? ==> currentRequest == r
      ensures r.Some? ==> listIsUp == (old(listIsUp) == (old(if listIsUp then upRequestList else downRequestList) != []))
      ensures r.Some? ==> if listIsUp
        then old(upRequestList) == [r.value] + upRequestList && downRequestList == old(downRequestList)
        else old(downRequestList) == [r.value] + downRequestList && upRequestList == old(upRequestList)
    {
      if (if listIsUp then upRequestList else downRequestList) == [] {
        SwitchRequestList();
        if (if listIsUp then upRequestList else downRequestList) == [] {
          return None;
        }
      }
      if listIsUp {
        r := Some(upRequestList[0]);
        upRequestList := upRequestList[1..];
      } else {
        r := Some(downRequestList[0]);
        downRequestList := downRequestList[1..];
      }
      currentRequest := r;
    }

    /** Completes a request: the buffer now agrees with the device. */
    method BlockEndRequest(rq: Request)
      modifies this`currentRequest, rq.bh
      ensures currentRequest.None?
      ensures rq.bh.uptodate && !rq.bh.locked
      ensures rq.bh.dirty == (old(rq.bh.dirty) && rq.cmd != BLOCK_WRITE)
    {
      rq.bh.uptodate := true;
      if rq.cmd == BLOCK_WRITE {
        rq.bh.dirty := false;
      }
      rq.bh.locked := false;
      currentRequest := None;
    }

    /** What the driver may be handed: a request for the whole of one cached block, a read of
        a buffer without data or a write of a dirty one. */
    ghost predicate GoodRequest(rq: Request)
      reads this, rq.bh
    {
      && rq.bh in buffers
      && rq.count == SECTORS_PER_BLOCK && rq.lba == rq.bh.lba * rq.count
      && (rq.cmd == BLOCK_READ ==> !rq.bh.uptodate)
      && (rq.cmd == BLOCK_WRITE ==> rq.bh.dirty)
    }

    method ReadIntoBuffer(rq: Request)
      requires Coherent() && GoodRequest(rq) && rq.cmd == BLOCK_READ
      modifies rq.bh.data
      ensures rq.bh.data[..] == view[rq.bh.lba]
    {
      assert !HasDirty(rq.bh.lba);
      assert Device(rq.bh.lba) == view[rq.bh.lba];
      var _ := RamdiskReadSector(rq.lba, rq.bh.data, rq.count);
      assert rq.bh.data[..] == old(Device(rq.bh.lba));
    }

    method WriteFromBuffer(rq: Request)
      requires Coherent() && GoodRequest(rq) && rq.cmd == BLOCK_WRITE
      modifies data
      ensures forall k :: 0 <= k < |view| ==>
        Device(k) == if k == rq.bh.lba then view[k] else old(Device(k))
    {
      ghost var l, was := rq.bh.lba, data[..];
      var _ := RamdiskWriteSector(rq.lba, rq.bh.data, rq.count);
      assert rq.bh.data[..rq.count * SECTOR_SIZE] == view[l];
      assert data[..] == was[..l * BLOCK_SIZE] + view[l] + was[(l + 1) * BLOCK_SIZE..];
      forall k | 0 <= k < |view|
        ensures BlockAt(data[..], k) == if k == l then view[k] else BlockAt(was, k)
      {
        SpliceBlock(was, l, view[l], k);
      }
    }

    /** Carries out one request. The buffer and the device then agree, and no reader of the
        disk can tell. */
    method ServeRequest(rq: Request)
      requires Coherent() && GoodRequest(rq)
      modifies data, rq.bh, rq.bh.data, this`currentRequest
      ensures Coherent() && currentRequest.None?
      ensures rq.bh.uptodate && !rq.bh.locked && !rq.bh.dirty
    {
      hide BlockAt;
      if rq.cmd == BLOCK_READ {
        ReadIntoBuffer(rq);
      } else {
        WriteFromBuffer(rq);
      }
      BlockEndRequest(rq);
    }

    /** The request function of the ramdisk: drains the queue. With one good request queued,
        the buffer and the device agree afterwards and no reader of the disk can tell. */
    method DoBlockRequest(ghost rq: Request)
      requires Coherent() && GoodRequest(rq)
      requires upRequestList + downRequestList == [rq]
      modifies this`upRequestList, this`downRequestList, this`listIsUp, this`currentRequest
      modifies data, rq.bh, rq.bh.data
      ensures Coherent()
      ensures upRequestList == [] && downRequestList == [] && currentRequest.None?
      ensures rq.bh.uptodate && !rq.bh.locked && !rq.bh.dirty
    {
      assert (upRequestList + downRequestList)[0] == rq;
      var r := BlockFetchRequest();
      while r.Some?
        invariant Coherent()
        invariant upRequestList == [] && downRequestList == []
        invariant r.Some? ==> r.value == rq && GoodRequest(rq)
        invariant r.None? ==> currentRequest.None? && rq.bh.uptodate && !rq.bh.locked && !rq.bh.dirty
        decreases r.Some?
      {
        ServeRequest(r.value);
        r := BlockFetchRequest();
      }
    }

    method LockBuffer(bh: BufferHead)
      modifies bh`locked
      ensures bh.locked
    {
      bh.locked := true;
    }

    method UnlockBuffer(bh: BufferHead)
      modifies bh`locked
      ensures !bh.locked
    {
      bh.locked := false;
    }

    /** Queues a request and, as nothing is in service, has the driver serve it at once.
        With both lists empty the elevator puts it on the current list. */
    method AddRequest(rq: Request)
      requires Coherent() && GoodRequest(rq)
      requires upRequestList == [] && downRequestList == [] && currentRequest.None?
      modifies this, Repr
      ensures Coherent() && view == old(view) && Repr == old(Repr) && buffers == old(buffers)
      ensures upRequestList == [] && downRequestList == [] && currentRequest.None?
      ensures rq.bh.uptodate && !rq.bh.locked && !rq.bh.dirty
      ensures forall b :: b in buffers && b != rq.bh ==>
        b.uptodate == old(b.uptodate) && b.dirty == old(b.dirty) && b.locked == old(b.locked)
    {
      if listIsUp {
        upRequestList := [rq] + upRequestList;
      } else {
        downRequestList := [rq] + downRequestList;
      }
      currentRequest := Some(rq);
      DoBlockRequest(rq);
    }

    /** One synchronous transfer. A clean buffer is not written and a valid one not read;
        either way the buffer ends up valid (read) or clean (write) and the queue empty. */
    method MakeRequest(rw: Command, bh: BufferHead)
      requires Valid() && bh in buffers
      modifies this, Repr
      ensures Valid() && view == old(view) && Repr == old(Repr) && buffers == old(buffers)
      ensures bh.uptodate == (old(bh.uptodate) || rw == BLOCK_READ)
      ensures bh.dirty == (old(bh.dirty) && rw != BLOCK_WRITE)
      ensures forall b :: b in buffers && b != bh ==> b.uptodate == old(b.uptodate) && b.dirty == old(b.dirty)
    {
      LockBuffer(bh);
      if (rw == BLOCK_WRITE && !bh.dirty) || (rw == BLOCK_READ && bh.uptodate) {
        UnlockBuffer(bh);
        return;
      }
      AddRequest(Request(rw, bh.lba * SECTORS_PER_BLOCK, SECTORS_PER_BLOCK, bh));
    }

    // ---------- buffer.c ----------

    /** The cached buffer of a block, if there is one. */
    method GetBufferFromDisk(lba: nat) returns (r: Option<BufferHead>)
      ensures r.Some? ==> r.value in buffers && r.value.lba == lba
      ensures r.None? ==> forall b :: b in buffers ==> b.lba != lba
    {
      var i := 0;
      while i < |buffers|
        invariant 0 <= i <= |buffers|
        invariant forall j :: 0 <= j < i ==> buffers[j].lba != lba
      {
        if buffers[i].lba == lba {
          return Some(buffers[i]);
        }
        i := i + 1;
      }
      return None;
    }

    method CreateBuffers(lba: nat)
      requires Valid() && lba < |view|
      requires forall b :: b in buffers ==> b.lba != lba
      modifies this`buffers, this`Repr
      ensures Valid() && view == old(view) && fresh(Repr - old(Repr)) && old(Repr) <= Repr
      ensures |buffers| == |old(buffers)| + 1 && buffers[..|old(buffers)|] == old(buffers)
      ensures var b := buffers[|old(buffers)|]; b.lba == lba && !b.uptodate && !b.dirty
    {
      var bh := new BufferHead(lba);
      buffers := buffers + [bh];
      Repr := Repr + {bh, bh.data};
      assert forall i :: 0 <= i < |old(buffers)| ==> buffers[i] == old(buffers)[i];
    }

    /** The one buffer of a block, created without data when the block is not cached. */
    method GetBlock(lba: nat) returns (bh: BufferHead)
      requires Valid() && lba < |view|
      modifies this`buffers, this`Repr
      ensures Valid() && view == old(view) && fresh(Repr - old(Repr)) && old(Repr) <= Repr
      ensures bh in buffers && bh.lba == lba
      ensures old(buffers) <= buffers
    {
      var r := GetBufferFromDisk(lba);
      while r.None?
        invariant Valid() && view == old(view) && fresh(Repr - old(Repr)) && old(Repr) <= Repr
        invariant old(buffers) <= buffers
        invariant r.None? ==> forall b :: b in buffers ==> b.lba != lba
        invariant r.Some? ==> r.value in buffers && r.value.lba == lba
        decreases r.None?
      {
        CreateBuffers(lba);
        var b := buffers[|buffers| - 1];
        r := GetBufferFromDisk(lba);
        assert b in buffers && b.lba == lba;
      }
      return r.value;
    }

    method Bread(block: nat) returns (bh: BufferHead)
      requires Valid() && block < |view|
      modifies this, Repr
      ensures Valid() && view == old(view) && fresh(Repr - old(Repr)) && old(Repr) <= Repr
      ensures bh in buffers && bh.lba == block && bh.uptodate
    {
      bh := GetBlock(block);
      if bh.uptodate {
        return;
      }
      MakeRequest(BLOCK_READ, bh);
    }

    /** The store of Bwrite: the buffer takes the bytes and becomes dirty and valid. */
    method FillBuffer(bh: BufferHead, buffer: array<byte>)
      requires Coherent() && bh in buffers && buffer !in Repr && buffer.Length == BLOCK_SIZE
      modifies bh`dirty, bh`uptodate, bh.data, this`view
      ensures Coherent() && bh.dirty
      ensures view == old(view)[bh.lba := buffer[..]]
    {
      forall i | 0 <= i < BLOCK_SIZE {
        bh.data[i] := buffer[i];
      }
      assert bh.data[..] == buffer[..];
      bh.dirty := true;
      bh.uptodate := true;
      view := view[bh.lba := buffer[..]];
      assert HasDirty(bh.lba);
    }

    method Bwrite(block: nat, buffer: array<byte>) returns (bh: BufferHead)
      requires Valid() && block < |view| && buffer !in Repr && buffer.Length == BLOCK_SIZE
      modifies this, Repr
      ensures Valid() && fresh(Repr - old(Repr)) && old(Repr) <= Repr
      ensures view == old(view)[block := buffer[..]]
      ensures bh in buffers && bh.lba == block && bh.dirty
    {
      bh := GetBlock(block);
      FillBuffer(bh, buffer);
    }

    /** Writes a dirty buffer back: 0, or -1 when it is not dirty. */
    method BsyncOne(bh: BufferHead) returns (r: int)
      requires Valid() && bh in buffers
      modifies this, Repr
      ensures Valid() && view == old(view) && Repr == old(Repr) && buffers == old(buffers)
      ensures !bh.dirty && r == if old(bh.dirty) then 0 else -1
      ensures forall b :: b in buffers && b != bh ==> b.uptodate == old(b.uptodate) && b.dirty == old(b.dirty)
    {
      if !bh.dirty {
        return -1;
      }
      MakeRequest(BLOCK_WRITE, bh);
      if !bh.dirty {
        return 0;
      }
      return -1;
    }

    ghost function DirtyCount(bs: seq<BufferHead>): nat
      reads bs
    {
      if bs == [] then 0
      else DirtyCount(bs[..|bs| - 1]) + if bs[|bs| - 1].dirty then 1 else 0
    }

    /** Writes everything back. No reader can tell, and the device alone now holds the view. */
    method Bsync() returns (count: nat)
      requires Valid()
      modifies this, Repr
      ensures Valid() && view == old(view) && Repr == old(Repr) && buffers == old(buffers)
      ensures count == old(DirtyCount(buffers))
      ensures forall b :: b in buffers ==> !b.dirty
      ensures Synced()
    {
      count := 0;
      var i := 0;
      while i < |buffers|
        invariant 0 <= i <= |buffers|
        invariant Valid() && view == old(view) && Repr == old(Repr) && buffers == old(buffers)
        invariant forall j :: 0 <= j < i ==> !buffers[j].dirty
        invariant forall j :: i <= j < |buffers| ==> buffers[j].dirty == old(buffers[j].dirty)
        invariant count == old(DirtyCount(buffers[..i]))
      {
        assert buffers[..i + 1][..i] == buffers[..i];
        var r := BsyncOne(buffers[i]);
        if r == 0 {
          count := count + 1;
        }
        i := i + 1;
      }
      assert buffers[..i] == buffers;
    }

    // ---------- blk-buffer.h ----------

    method BlockRead(block: nat, buffer: array<byte>)
      requires Valid() && block < |view| && buffer !in Repr && buffer.Length == BLOCK_SIZE
      modifies this, Repr, buffer
      ensures Valid() && fresh(Repr - old(Repr)) && old(Repr) <= Repr
      ensures view == old(view) && buffer[..] == view[block]
    {
      var bh := Bread(block);
      forall i | 0 <= i < BLOCK_SIZE {
        buffer[i] := bh.data[i];
      }
      assert buffer[..] == bh.data[..];
    }

    method BlockWrite(block: nat, buffer: array<byte>, sync: bool) returns (r: int)
      requires Valid() && block < |view| && buffer !in Repr && buffer.Length == BLOCK_SIZE
      modifies this, Repr
      ensures Valid() && fresh(Repr - old(Repr)) && old(Repr) <= Repr
      ensures view == old(view)[block := buffer[..]] && r == 0
      ensures sync ==> BlockAt(data[..], block) == buffer[..]
    {
      var bh := Bwrite(block, buffer);
      if sync {
        r := BsyncOne(bh);
        assert !HasDirty(block) by {
        }
        return;
      }
      return 0;
    }
  }

  /** What a caller does with the disk. */
  datatype Access = ReadBlock(lba: nat) | WriteBlock(lba: nat, contents: Block, sync: bool) | SyncAll

  predicate Within(view: seq<Block>, op: Access) {
    !op.SyncAll? ==> op.lba < |view|
  }

  predicate InRange(view: seq<Block>, ops: seq<Access>) {
    forall i :: 0 <= i < |ops| ==> Within(view, ops[i])
  }

  /** What readers should see after the accesses, whatever is cached. */
  function ViewAfter(view: seq<Block>, ops: seq<Access>): (r: seq<Block>)
    requires InRange(view, ops)
    ensures |r| == |view|
  {
    if |ops| == 0 then view
    else
      var before := ViewAfter(view, ops[..|ops| - 1]);
      match ops[|ops| - 1]
      case WriteBlock(lba, contents, _) => before[lba := contents]
      case _ => before
  }

  /** The last write of block k is access i, or there is none and i is -1. */
  predicate LastWrite(ops: seq<Access>, k: nat, i: int) {
    && -1 <= i < |ops| && (i >= 0 ==> ops[i].WriteBlock? && ops[i].lba == k)
    && forall j :: i < j < |ops| ==> !(ops[j].WriteBlock? && ops[j].lba == k)
  }

  function ContentsBy(view: seq<Block>, ops: seq<Access>, k: nat, i: int): Block
    requires k < |view| && LastWrite(ops, k, i)
  {
    if i >= 0 then ops[i].contents else view[k]
  }

  /** A block reads as what was last written to it, however many reads, syncs and writes of
      other blocks came after; a block never written reads as at the start. */
  lemma {:induction false} LastWriteWins(view: seq<Block>, ops: seq<Access>, k: nat, i: int)
    requires InRange(view, ops) && k < |view| && LastWrite(ops, k, i)
    ensures ViewAfter(view, ops)[k] == ContentsBy(view, ops, k, i)
  {
    if i < |ops| - 1 {
      LastWriteWins(view, ops[..|ops| - 1], k, i);
    }
  }

  /** Carries out one access: what a read returns, and how the view changes. */
  method DoAccess(disk: Disk, op: Access) returns (got: Option<Block>)
    requires disk.Valid() && Within(disk.view, op)
    modifies disk, disk.Repr
    ensures disk.Valid() && fresh(disk.Repr - old(disk.Repr)) && old(disk.Repr) <= disk.Repr
    ensures got == if op.ReadBlock? then Some(old(disk.view)[op.lba]) else None
    ensures disk.view == if op.WriteBlock? then old(disk.view)[op.lba := op.contents] else old(disk.view)
    ensures op.SyncAll? ==> disk.Synced()
  {
    got := None;
    match op
    case ReadBlock(lba) =>
      var buffer := new byte[BLOCK_SIZE];
      disk.BlockRead(lba, buffer);
      got := Some(buffer[..]);
    case WriteBlock(lba, contents, sync) =>
      var buffer := new byte[BLOCK_SIZE](i requires 0 <= i < BLOCK_SIZE => contents[i]);
      assert buffer[..] == contents;
      var _ := disk.BlockWrite(lba, buffer, sync);
    case SyncAll =>
      var _ := disk.Bsync();
  }

  /** Every read returned what was last written to its block before. */
  ghost predicate ReadsLastWrites(view: seq<Block>, ops: seq<Access>, got: seq<Option<Block>>)
    requires InRange(view, ops) && |got| == |ops|
  {
    forall i, j :: 0 <= i < |ops| && ops[i].ReadBlock? && LastWrite(ops[..i], ops[i].lba, j) ==>
      got[i] == Some(ContentsBy(view, ops[..i], ops[i].lba, j))
  }

  lemma ViewsAreLastWrites(view: seq<Block>, ops: seq<Access>, got: seq<Option<Block>>)
    requires InRange(view, ops) && |got| == |ops|
    requires forall i :: 0 <= i < |ops| && ops[i].ReadBlock? ==> got[i] == Some(ViewAfter(view, ops[..i])[ops[i].lba])
    ensures ReadsLastWrites(view, ops, got)
  {
    forall i, j | 0 <= i < |ops| && ops[i].ReadBlock? && LastWrite(ops[..i], ops[i].lba, j)
      ensures got[i] == Some(ContentsBy(view, ops[..i], ops[i].lba, j))
    {
      assert Within(view, ops[i]);
      LastWriteWins(view, ops[..i], ops[i].lba, j);
    }
  }

  /** Any history of reads, writes and syncs through cache, queue and driver: every read returns
      what was last written to its block, and a sync leaves that on the device. */
  method History(disk: Disk, ops: seq<Access>) returns (got: seq<Option<Block>>)
    requires disk.Valid() && InRange(disk.view, ops)
    modifies disk, disk.Repr
    ensures disk.Valid() && disk.view == ViewAfter(old(disk.view), ops)
    ensures |got| == |ops| && ReadsLastWrites(old(disk.view), ops, got)
    ensures ops != [] && ops[|ops| - 1].SyncAll? ==> disk.Synced()
  {
    hide Disk.Valid, Disk.Synced, ReadsLastWrites;
    got := [];
    ghost var v0 := disk.view;
    while |got| < |ops|
      invariant |got| <= |ops| && disk.Valid() && fresh(disk.Repr - old(disk.Repr))
      invariant disk.view == ViewAfter(v0, ops[..|got|])
      invariant forall i :: 0 <= i < |got| && ops[i].ReadBlock? ==>
        got[i] == Some(ViewAfter(v0, ops[..i])[ops[i].lba])
      invariant got != [] && ops[|got| - 1].SyncAll? ==> disk.Synced()
      decreases |ops| - |got|
    {
      var n := |got|;
      assert ops[..n + 1][..n] == ops[..n];
      var r := DoAccess(disk, ops[n]);
      got := got + [r];
    }
    assert ops[..|ops|] == ops;
    ViewsAreLastWrites(v0, ops, got);
  }
}
