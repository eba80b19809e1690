/** Bitmaps over bytes (src/kernel/bitmap.c). The state is the byte array; its meaning is
    the sequence of its bits, lowest bit of each byte first. */
module Bitmaps {

  const BITMAP_MASK: bv8 := 1

  predicate BitAt(b: bv8, k: nat)
    requires k < 8
  {
    b & (BITMAP_MASK << k) != 0
  }

  /** The bits of a byte string, in the order BitmapScan visits them. */
  function BitsOf(bytes: seq<bv8>): (bits: seq<bool>)
    ensures |bits| == 8 * |bytes|
  {
    seq(8 * |bytes|, i requires 0 <= i < 8 * |bytes| => BitAt(bytes[i / 8], i % 8))
  }

  /** The lowest clear bit, or -1 when every bit is set. */
  function FirstClear(bits: seq<bool>): (r: int)
    ensures -1 <= r < |bits|
    ensures r == -1 <==> forall i :: 0 <= i < |bits| ==> bits[i]
    ensures r >= 0 ==> !bits[r] && forall i :: 0 <= i < r ==> bits[i]
  {
    if |bits| == 0 then -1
    else if !bits[0] then 0
    else
      var r := FirstClear(bits[1..]);
      assert forall i :: 1 <= i < |bits| ==> bits[i] == bits[1..][i - 1];
      if r == -1 then -1 else r + 1
  }

  /** n clear bits in a row from i on. */
  predicate RunAt(bits: seq<bool>, i: int, n: nat) {
    0 <= i && i + n <= |bits| && forall k :: i <= k < i + n ==> !bits[k]
  }

  /** r is where the first such run begins, or -1 and there is none. */
  ghost predicate FirstRun(bits: seq<bool>, n: nat, r: int) {
    if r < 0 then r == -1 && forall i :: !RunAt(bits, i, n)
    else RunAt(bits, r, n) && forall i :: 0 <= i < r ==> !RunAt(bits, i, n)
  }

  /** A scan for two bits or more also looks at the bit behind the map. What it finds is right if
      and only if that bit is set, the map has such a run, or the map does not end in a run that
      is just one bit too short. */
  lemma ScanInsideIff(bits: seq<bool>, past: bool, n: nat, r: int)
    requires n >= 2 && FirstRun(bits + [past], n, r)
    ensures FirstRun(bits, n, r) <==>
      past || (exists i :: RunAt(bits, i, n)) || !RunAt(bits, |bits| - n + 1, n - 1)
  {
    hide RunAt;
    var all := bits + [past];
    forall i ensures RunAt(bits, i, n) <==> i + n <= |bits| && RunAt(all, i, n) {
      RunInside(bits, past, i, n);
    }
    RunAtEnd(bits, past, n);
    forall i | RunAt(all, i, n) ensures 0 <= i <= |bits| - n + 1 {
      RunBounds(all, i, n);
    }
  }

  lemma RunInside(bits: seq<bool>, past: bool, i: int, n: nat)
    ensures RunAt(bits, i, n) <==> i + n <= |bits| && RunAt(bits + [past], i, n)
  {
    var all := bits + [past];
    assert forall k :: 0 <= k < |bits| ==> all[k] == bits[k];
  }

  lemma RunAtEnd(bits: seq<bool>, past: bool, n: nat)
    requires n >= 2
    ensures RunAt(bits + [past], |bits| - n + 1, n) <==> !past && RunAt(bits, |bits| - n + 1, n - 1)
  {
    var all := bits + [past];
    assert all[|bits|] == past && forall k :: 0 <= k < |bits| ==> all[k] == bits[k];
  }

  /** No run begins at a set bit. */
  lemma SetBefore(bits: seq<bool>, start: nat, n: nat)
    requires start <= |bits| && n > 0 && forall i :: 0 <= i < start ==> bits[i]
    ensures forall i :: i < start ==> !RunAt(bits, i, n)
  {
    forall i | 0 <= i < start ensures !RunAt(bits, i, n) {
      assert bits[i];
    }
  }

  lemma RunBounds(bits: seq<bool>, i: int, n: nat)
    requires RunAt(bits, i, n)
    ensures 0 <= i <= |bits| - n
  {
  }

  /** One byte with only its last bit clear, and a clear bit behind it: a scan for two bits finds
      them at 7. */
  lemma ScanRunsOver()
    ensures var bits := [true, true, true, true, true, true, true, false];
      FirstRun(bits + [false], 2, 7) && !FirstRun(bits, 2, 7)
  {
    var all := [true, true, true, true, true, true, true, false, false];
    forall i | 0 <= i < 7 ensures !RunAt(all, i, 2) {
      assert all[i];
    }
    assert [true, true, true, true, true, true, true, false] + [false] == all;
  }

  /** A byte with bit k set or cleared. */
  function WithBit(b: bv8, k: nat, value: bool): bv8
    requires k < 8
  {
    if value then b | (BITMAP_MASK << k) else b & !(BITMAP_MASK << k)
  }

  lemma WithBitAt(b: bv8, k: nat, value: bool, j: nat)
    requires k < 8 && j < 8
    ensures BitAt(WithBit(b, k, value), j) == if j == k then value else BitAt(b, j)
  {
    var m, n := BITMAP_MASK << k, BITMAP_MASK << j;
    Masks(k, j);
    Masked(b, m, n);
  }

  lemma Masks(k: nat, j: nat)
    requires k < 8 && j < 8
    ensures (BITMAP_MASK << k) & (BITMAP_MASK << j) == if j == k then BITMAP_MASK << k else 0
    ensures BITMAP_MASK << k != 0
  {
  }

  lemma Masked(b: bv8, m: bv8, n: bv8)
    ensures m & n == 0 ==> (b | m) & n == b & n && (b & !m) & n == b & n
    ensures (b | m) & m == m && (b & !m) & m == 0
  {
  }

  lemma FullByte(b: bv8)
    ensures b == 0xff <==> forall k :: 0 <= k < 8 ==> BitAt(b, k)
  {
    if forall k :: 0 <= k < 8 ==> BitAt(b, k) {
      assert BitAt(b, 0) && BitAt(b, 1) && BitAt(b, 2) && BitAt(b, 3);
      assert BitAt(b, 4) && BitAt(b, 5) && BitAt(b, 6) && BitAt(b, 7);
    }
  }

  /** Replacing one byte by another that differs only in one bit replaces just that bit. */
  lemma ReplaceByte(bytes: seq<bv8>, bitIdx: nat, b: bv8, value: bool)
    requires bitIdx < 8 * |bytes|
    requires forall j :: 0 <= j < 8 ==> BitAt(b, j) == if j == bitIdx % 8 then value else BitAt(bytes[bitIdx / 8], j)
    ensures BitsOf(bytes[bitIdx / 8 := b]) == BitsOf(bytes)[bitIdx := value]
  {
    var now, want := BitsOf(bytes[bitIdx / 8 := b]), BitsOf(bytes)[bitIdx := value];
    forall i | 0 <= i < |now|
      ensures now[i] == want[i]
    {
      if i / 8 == bitIdx / 8 && i % 8 == bitIdx % 8 {
        assert i == bitIdx;
      }
    }
  }

  class Bitmap {
    const bits: array<bv8>

    ghost function Bits(): (s: seq<bool>)
      reads this, bits
    {
      BitsOf(bits[..])
    }

    constructor (bytesLen: nat)
      ensures fresh(bits) && bits.Length == bytesLen
      ensures Bits() == seq(8 * bytesLen, _ => false)
    {
      bits := new bv8[bytesLen];
      new;
      Init();
    }

    method Init()
      modifies bits
      ensures Bits() == seq(8 * bits.Length, _ => false)
    {
      for i := 0 to bits.Length
        invariant forall j :: 0 <= j < i ==> bits[j] == 0
      {
        bits[i] := 0;
      }
    }

    method ScanTest(bitIdx: nat) returns (set_: bool)
      requires bitIdx < 8 * bits.Length
      ensures set_ == Bits()[bitIdx]
    {
      set_ := bits[bitIdx / 8] & (BITMAP_MASK << (bitIdx % 8)) != 0;
    }

    /** The lowest clear bit: skips full bytes, then looks at the bits of one. */
    method ScanClear() returns (idx: int)
      ensures idx == FirstClear(Bits())
    {
      var idxByte := 0;
      while idxByte < bits.Length && bits[idxByte] == 0xff
        invariant 0 <= idxByte <= bits.Length
        invariant forall i :: 0 <= i < 8 * idxByte ==> Bits()[i]
      {
        FullByte(bits[idxByte]);
        idxByte := idxByte + 1;
      }
      if idxByte == bits.Length {
        return -1;
      }
      FullByte(bits[idxByte]);
      var idxBit := 0;
      while (BITMAP_MASK << idxBit) & bits[idxByte] != 0
        invariant 0 <= idxBit < 8
        invariant forall k :: 0 <= k < idxBit ==> BitAt(bits[idxByte], k)
        decreases 8 - idxBit
      {
        idxBit := idxBit + 1;
      }
      idx := idxByte * 8 + idxBit;
      assert !Bits()[idx];
      assert forall i :: 0 <= i < idx ==> Bits()[i];
    }

    /** Where cnt clear bits in a row begin. For more than one bit the scan also tests the bit
        behind the map, which reads as past. */
    method Scan(cnt: nat, past: bool) returns (idx: int)
      requires cnt > 0
      ensures cnt == 1 ==> idx == FirstClear(Bits())
      ensures cnt >= 2 ==> FirstRun(Bits() + [past], cnt, idx)
    {
      hide BitsOf, BitAt;
      var start := ScanClear();
      if cnt == 1 {
        return start;
      }
      ghost var all := Bits() + [past];
      if start == -1 {
        SetBefore(all, 8 * bits.Length, cnt);
        return -1;
      }
      SetBefore(all, start, cnt);
      var bitLeft, nextBit, count := 8 * bits.Length - start, start + 1, 1;
      while bitLeft > 0
        invariant bitLeft == 8 * bits.Length + 1 - nextBit >= 0 && 0 <= count < cnt
        invariant start <= nextBit - count && RunAt(all, nextBit - count, count)
        invariant nextBit - count > 0 ==> all[nextBit - count - 1]
        invariant forall i :: i <= nextBit - cnt ==> !RunAt(all, i, cnt)
      {
        bitLeft := bitLeft - 1;
        var set_ := past;
        if nextBit < 8 * bits.Length {
          set_ := ScanTest(nextBit);
        }
        assert set_ == all[nextBit];
        if !set_ {
          count := count + 1;
        } else {
          count := 0;
        }
        if count == cnt {
          return nextBit - cnt + 1;
        }
        nextBit := nextBit + 1;
      }
      return -1;
    }

    method Set(bitIdx: nat, value: bool)
      requires bitIdx < 8 * bits.Length
      modifies bits
      ensures Bits() == old(Bits())[bitIdx := value]
    {
      var byteIdx, bitOdd := bitIdx / 8, bitIdx % 8;
      forall j | 0 <= j < 8
        ensures BitAt(WithBit(bits[byteIdx], bitOdd, value), j) == if j == bitOdd then value else BitAt(bits[byteIdx], j)
      {
        WithBitAt(bits[byteIdx], bitOdd, value, j);
      }
      ReplaceByte(bits[..], bitIdx, WithBit(bits[byteIdx], bitOdd, value), value);
      bits[byteIdx] := WithBit(bits[byteIdx], bitOdd, value);
      assert bits[..] == old(bits[..])[byteIdx := bits[byteIdx]];
    }
  }
}
