/** The Ethernet checksum (src/net/ethernet.c:160-177): a table for each four bits against the
    definition one bit at a time (IEEE 802.3, section 3.2.9, in its reflected form). */
module Crcs {

  const POLYNOMIAL: bv32 := 0xEDB88320

  const CRC_TABLE: seq<bv32> := [
    0x4DBDF21C, 0x500AE278, 0x76D3D2D4, 0x6B64C2B0,
    0x3B61B38C, 0x26D6A3E8, 0x000F9344, 0x1DB88320,
    0xA005713C, 0xBDB26158, 0x9B6B51F4, 0x86DC4190,
    0xD6D930AC, 0xCB6E20C8, 0xEDB71064, 0xF0000000]

  function Xor(a: bv32, b: bv32): bv32 {
    a ^ b
  }

  function Not(a: bv32): bv32 {
    !a
  }

  function Half(a: bv32): bv32 {
    a >> 1
  }

  predicate Odd(a: bv32) {
    a & 1 == 1
  }

  /** One bit of the division: shift out the lowest bit, subtract the polynomial if it was 1. */
  function Shift(reg: bv32): bv32 {
    Xor(Half(reg), if Odd(reg) then POLYNOMIAL else 0)
  }

  function Shifts(reg: bv32, n: nat): bv32
    decreases n
  {
    if n == 0 then reg else Shifts(Shift(reg), n - 1)
  }

  function Wide(b: bv8): bv32 {
    b as bv32
  }

  /** The register after a byte string, lowest bit of each byte first. */
  function Register(data: seq<bv8>): bv32 {
    if |data| == 0 then 0xFFFFFFFF else Shifts(Xor(Register(data[..|data| - 1]), Wide(data[|data| - 1])), 8)
  }

  /** The checksum: all ones to start with, complemented at the end. */
  function Crc(data: seq<bv8>): bv32 {
    Not(Register(data))
  }

  function Shifts4(reg: bv32): bv32 {
    Shift(Shift(Shift(Shift(reg))))
  }

  function Entry(i: bv32): bv32
    requires i < 16
  {
    CRC_TABLE[i as nat]
  }

  function High(a: bv32): bv32 {
    a >> 4
  }

  function Low(a: bv32): (r: bv32)
    ensures r < 16
  {
    a & 15
  }

  function Mirror(i: bv32): (r: bv32)
    requires i < 16
    ensures r < 16
  {
    15 - i
  }

  lemma XorComm(a: bv32, b: bv32)
    ensures Xor(a, b) == Xor(b, a)
  {
  }

  lemma XorAssoc(a: bv32, b: bv32, c: bv32)
    ensures Xor(Xor(a, b), c) == Xor(a, Xor(b, c))
  {
  }

  function Top(a: bv32): bv32 {
    a & 0xFFFFFFF0
  }

  lemma HalfOfXor(a: bv32, b: bv32)
    ensures Half(Xor(a, b)) == Xor(Half(a), Half(b))
  {
  }

  lemma OddOfXor(a: bv32, b: bv32)
    requires !Odd(a)
    ensures Odd(Xor(a, b)) == Odd(b)
  {
  }

  /** A shift moves even bits down and leaves the polynomial to the rest. */
  lemma ShiftEven(a: bv32, b: bv32)
    requires !Odd(a)
    ensures Shift(Xor(a, b)) == Xor(Half(a), Shift(b))
  {
    hide Xor, Half, Odd;
    HalfOfXor(a, b);
    OddOfXor(a, b);
    XorAssoc(Half(a), Half(b), if Odd(b) then POLYNOMIAL else 0);
  }

  lemma TopAndLow(v: bv32)
    ensures Xor(Top(v), Low(v)) == v
  {
  }

  lemma TopIsEven(v: bv32)
    ensures !Odd(Top(v)) && !Odd(Half(Top(v))) && !Odd(Half(Half(Top(v)))) && !Odd(Half(Half(Half(Top(v)))))
  {
  }

  lemma TopIsHigh(v: bv32)
    ensures Half(Half(Half(Half(Top(v))))) == High(v)
  {
  }

  /** Four shifts move the upper bits down and depend on the lower four only through a table. */
  lemma FourShifts(v: bv32)
    ensures Shifts4(v) == Xor(High(v), Shifts4(Low(v)))
  {
    hide Xor, Half, Odd, Shift, Top, Low, High;
    var t, l := Top(v), Low(v);
    TopAndLow(v);
    TopIsEven(v);
    TopIsHigh(v);
    ShiftEven(t, l);
    ShiftEven(Half(t), Shift(l));
    ShiftEven(Half(Half(t)), Shift(Shift(l)));
    ShiftEven(Half(Half(Half(t))), Shift(Shift(Shift(l))));
  }

  /** What the table holds: the complement's view of four shifts of each four bits. */
  lemma EntryIsFourShifts(i: bv32)
    requires i < 16
    ensures Shifts4(Mirror(i)) == Xor(Entry(i), 0xF0000000)
  {
  }

  lemma LowOfComplement(crc: bv32, d: bv32)
    ensures Low(Xor(Not(crc), d)) == Mirror(Low(Xor(crc, d)))
  {
  }

  lemma HighOfComplement(crc: bv32, d: bv32)
    ensures High(Xor(Not(crc), d)) == Xor(Xor(High(crc), High(d)), 0x0FFFFFFF)
  {
  }

  lemma NotIsXor(a: bv32)
    ensures Not(a) == Xor(a, Xor(0x0FFFFFFF, 0xF0000000))
  {
  }

  lemma MoveComplement(a: bv32, b: bv32, t: bv32)
    ensures Xor(Xor(Xor(a, b), 0x0FFFFFFF), Xor(t, 0xF0000000)) == Xor(Not(Xor(a, t)), b)
  {
    hide Xor, Not;
    var low, high: bv32 := 0x0FFFFFFF, 0xF0000000;
    calc {
      Xor(Xor(Xor(a, b), low), Xor(t, high));
      { XorAssoc(Xor(a, b), low, Xor(t, high)); XorAssoc(low, t, high); XorComm(low, t); XorAssoc(t, low, high); }
      Xor(Xor(a, b), Xor(t, Xor(low, high)));
      { XorComm(a, b); XorAssoc(b, a, Xor(t, Xor(low, high))); XorAssoc(a, t, Xor(low, high)); }
      Xor(b, Xor(Xor(a, t), Xor(low, high)));
      { NotIsXor(Xor(a, t)); XorComm(b, Not(Xor(a, t))); }
      Xor(Not(Xor(a, t)), b);
    }
  }

  /** One table step of the code, on the complemented register, is four shifts. */
  lemma TableStep(crc: bv32, d: bv32)
    ensures Shifts4(Xor(Not(crc), d)) == Xor(Not(Xor(High(crc), Entry(Low(Xor(crc, d))))), High(d))
  {
    hide Shifts4, Entry, Xor, Not, High, Low, Mirror;
    var i := Low(Xor(crc, d));
    FourShifts(Xor(Not(crc), d));
    LowOfComplement(crc, d);
    EntryIsFourShifts(i);
    HighOfComplement(crc, d);
    MoveComplement(High(crc), High(d), Entry(i));
  }

  /** The loop body of EthernetCrc. */
  function ByteStep(crc: bv32, b: bv8): bv32 {
    var low := Xor(High(crc), Entry(Low(Xor(crc, Wide(b)))));
    Xor(High(low), Entry(Low(Xor(low, High(Wide(b))))))
  }

  lemma NotZero()
    ensures Not(0) == 0xFFFFFFFF
  {
  }

  lemma HighOfByte(b: bv8)
    ensures High(High(Wide(b))) == 0
  {
  }

  lemma XorZero(a: bv32)
    ensures Xor(a, 0) == a && Not(Not(a)) == a
  {
  }

  lemma EightShifts(reg: bv32)
    ensures Shifts(reg, 8) == Shifts4(Shifts4(reg))
  {
    hide Shift;
    var a := Shift(reg);
    var b := Shift(a);
    var c := Shift(b);
    var d := Shift(c);
    assert Shifts(reg, 8) == Shifts(a, 7) == Shifts(b, 6) == Shifts(c, 5) == Shifts(d, 4);
    var e := Shift(d);
    var f := Shift(e);
    var g := Shift(f);
    assert Shifts(d, 4) == Shifts(e, 3) == Shifts(f, 2) == Shifts(g, 1) == Shifts(Shift(g), 0);
  }

  /** Two table steps are the eight shifts of one byte. */
  lemma ByteStepIsEightShifts(crc: bv32, b: bv8)
    ensures Not(ByteStep(crc, b)) == Shifts(Xor(Not(crc), Wide(b)), 8)
  {
    hide Shifts, Shifts4, Entry, Xor, Not, High, Low, Wide;
    var low := Xor(High(crc), Entry(Low(Xor(crc, Wide(b)))));
    EightShifts(Xor(Not(crc), Wide(b)));
    TableStep(crc, Wide(b));
    TableStep(low, High(Wide(b)));
    HighOfByte(b);
    XorZero(Not(ByteStep(crc, b)));
  }

  /** The checksum of each byte string: starting from 0, the table gives exactly the
      complemented register of the division that starts from all ones. */
  method EthernetCrc(data: array<bv8>) returns (crc: bv32)
    ensures crc == Crc(data[..])
  {
    hide Shifts, Wide, Not, Xor, Entry, High, Low;
    crc := 0;
    assert Not(crc) == Register(data[..0]) by { NotZero(); }
    for n := 0 to data.Length
      invariant Not(crc) == Register(data[..n])
    {
      ghost var before := crc;
      crc := Xor(High(crc), Entry(Low(Xor(crc, Wide(data[n])))));
      crc := Xor(High(crc), Entry(Low(Xor(crc, High(Wide(data[n]))))));
      ByteStepIsEightShifts(before, data[n]);
      assert data[..n + 1][..n] == data[..n];
    }
    assert data[..data.Length] == data[..];
    XorZero(crc);
  }
}
