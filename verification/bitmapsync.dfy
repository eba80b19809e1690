/** Writing the sector bitmap back after one bit changed (src/fs/bofs/bitmap.c:181-210). The code
    steps through the map by sectors of 512 bytes and writes blocks of 1024; loading reads the
    region block by block (bitmap.c:47-52). */
module BitmapSyncs {
  import opened Basics
  import opened BlockDevices

  const BITS_PER_SECTOR: nat := 8 * SECTOR_SIZE

  /** How many blocks the map takes on the disk. */
  function RegionBlocks(bytes: nat): nat {
    (bytes + BLOCK_SIZE - 1) / BLOCK_SIZE
  }

  /** Loading the region at lba gives these bytes. */
  ghost predicate Holds(view: seq<Block>, lba: nat, bytes: seq<byte>) {
    && lba + RegionBlocks(|bytes|) <= |view|
    && forall i :: 0 <= i < |bytes| ==>
      i / BLOCK_SIZE < RegionBlocks(|bytes|) && view[lba + i / BLOCK_SIZE][i % BLOCK_SIZE] == bytes[i]
  }

  /** What the sync of bit idx writes: a block from the sector of that bit on, which may reach into
      the memory behind the map. */
  function Stored(bytes: seq<byte>, behind: seq<byte>, idx: nat): Block
    requires idx < 8 * |bytes| && |behind| >= BLOCK_SIZE
  {
    var at := idx / BITS_PER_SECTOR * SECTOR_SIZE;
    (bytes + behind)[at..at + BLOCK_SIZE]
  }

  /** And where. */
  function Target(lba: nat, idx: nat): nat {
    lba + idx / BITS_PER_SECTOR
  }

  method SyncBitmap(disk: Disk, lba: nat, bytes: seq<byte>, behind: seq<byte>, idx: nat)
    requires disk.Valid() && idx < 8 * |bytes| && |behind| >= BLOCK_SIZE && Target(lba, idx) < |disk.view|
    modifies disk, disk.Repr
    ensures disk.Valid() && fresh(disk.Repr - old(disk.Repr))
    ensures disk.view == old(disk.view)[Target(lba, idx) := Stored(bytes, behind, idx)]
  {
    var offsetSector := idx / BITS_PER_SECTOR;
    var offsetSize := offsetSector * SECTOR_SIZE;
    var memory := bytes + behind;
    var buffer := new byte[BLOCK_SIZE](i requires 0 <= i < BLOCK_SIZE && offsetSize + BLOCK_SIZE <= |memory| =>
      memory[offsetSize + i]);
    assert buffer[..] == Stored(bytes, behind, idx);
    var _ := disk.BlockWrite(lba + offsetSector, buffer, false);
  }

  /** now is before with the byte of bit idx changed. */
  predicate Changed(before: seq<byte>, now: seq<byte>, idx: nat) {
    && |now| == |before| && idx / 8 < |now| && now[idx / 8] != before[idx / 8]
    && forall i :: 0 <= i < |now| && i != idx / 8 ==> now[i] == before[i]
  }

  lemma FirstSector(bytes: seq<byte>, behind: seq<byte>, idx: nat)
    requires idx < 8 * |bytes| && |behind| >= BLOCK_SIZE && idx < BITS_PER_SECTOR
    ensures Target(0, idx) == 0 && idx / 8 < BLOCK_SIZE && Stored(bytes, behind, idx) == (bytes + behind)[..BLOCK_SIZE]
  {
  }

  lemma SyncHolds(view: seq<Block>, lba: nat, before: seq<byte>, now: seq<byte>, behind: seq<byte>, idx: nat)
    requires Holds(view, lba, before) && Changed(before, now, idx) && |behind| >= BLOCK_SIZE && lba < |view|
    requires idx / 8 < BLOCK_SIZE
    ensures Holds(view[lba := (now + behind)[..BLOCK_SIZE]], lba, now)
  {
    var after := view[lba := (now + behind)[..BLOCK_SIZE]];
    forall i | 0 <= i < |now|
      ensures i / BLOCK_SIZE < RegionBlocks(|now|) && after[lba + i / BLOCK_SIZE][i % BLOCK_SIZE] == now[i]
    {
      assert view[lba + i / BLOCK_SIZE][i % BLOCK_SIZE] == before[i];
    }
  }

  /** The byte of a bit beyond the first 4096 lies in a lower block than the one written. */
  lemma WrittenAbove(idx: nat)
    requires idx >= BITS_PER_SECTOR
    ensures idx / 8 / BLOCK_SIZE < idx / BITS_PER_SECTOR
  {
  }

  /** After bit idx changed, the sync brings the region up to date if and only if the bit is one of
      the first 4096. */
  lemma SyncHoldsIff(view: seq<Block>, lba: nat, before: seq<byte>, now: seq<byte>, behind: seq<byte>, idx: nat)
    requires Holds(view, lba, before) && Changed(before, now, idx) && |behind| >= BLOCK_SIZE
    requires Target(lba, idx) < |view|
    ensures Holds(view[Target(lba, idx) := Stored(now, behind, idx)], lba, now) <==> idx < BITS_PER_SECTOR
  {
    hide RegionBlocks, Stored;
    var after := view[Target(lba, idx) := Stored(now, behind, idx)];
    if idx < BITS_PER_SECTOR {
      FirstSector(now, behind, idx);
      SyncHolds(view, lba, before, now, behind, idx);
    } else {
      var b := idx / 8;
      WrittenAbove(idx);
      assert view[lba + b / BLOCK_SIZE][b % BLOCK_SIZE] == before[b];
      assert after[lba + b / BLOCK_SIZE] == view[lba + b / BLOCK_SIZE];
    }
  }

  /** The block written is one of the region if and only if, in a map of whole blocks, the bit is in
      the first half of the map. Otherwise it is one of the inode bitmap or the inode table behind. */
  lemma SyncLandsInsideIff(lba: nat, bytes: nat, idx: nat)
    requires idx < 8 * bytes && bytes % BLOCK_SIZE == 0
    ensures lba <= Target(lba, idx) < lba + RegionBlocks(bytes) <==> idx < 4 * bytes
  {
    assert RegionBlocks(bytes) * BLOCK_SIZE == bytes;
  }

  /** A map of 8192 clear bits in block 1, and block 2 behind it: setting bit 4096 leaves the region
      as it was and puts the bit into block 2. */
  lemma SyncMissesTheMap()
    ensures var bytes := ZeroBlock()[512 := 1];
      var after := [ZeroBlock(), ZeroBlock(), ZeroBlock()][Target(1, 4096) := Stored(bytes, ZeroBlock(), 4096)];
      !Holds(after, 1, bytes) && after[1] == ZeroBlock() && after[2][0] == 1
  {
    var bytes: seq<byte> := ZeroBlock()[512 := 1];
    SyncHoldsIff([ZeroBlock(), ZeroBlock(), ZeroBlock()], 1, ZeroBlock(), bytes, ZeroBlock(), 4096);
  }
}
