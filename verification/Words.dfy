/** The machine words of the repository's C code on a little-endian, 32-bit
    unsigned platform: bytes and `md5_uint32` are integers with their range,
    sums wrap explicitly, and bit operations go through bit-vectors. */
module Words {

  type byte = b: int | 0 <= b < 0x100

  type uint32 = w: int | 0 <= w < 0x1_0000_0000

  const MAX_UINT32: uint32 := 0xffff_ffff

  function Add(x: uint32, y: uint32): uint32 {
    (x + y) % 0x1_0000_0000
  }

  function Sub(x: uint32, y: uint32): uint32 {
    (x - y) % 0x1_0000_0000
  }

  lemma AddCommutes(x: uint32)
    ensures forall y: uint32 :: Add(x, y) == Add(y, x)
  {
  }

  lemma AddAssociates(x: uint32, y: uint32, z: uint32)
    ensures Add(Add(x, y), z) == Add(x, Add(y, z))
  {
    assert Add(x, y) == x + y || Add(x, y) == x + y - 0x1_0000_0000;
    assert Add(y, z) == y + z || Add(y, z) == y + z - 0x1_0000_0000;
  }

  lemma AddReorders(a: uint32, f: uint32, k: uint32, t: uint32)
    ensures Add(a, Add(Add(f, k), t)) == Add(Add(Add(a, f), k), t)
  {
    hide Add;
    AddAssociates(a, Add(f, k), t);
    AddAssociates(a, f, k);
  }

  /** What `memset` with 0 leaves. */
  function Zeros(n: nat): (z: seq<byte>)
    ensures |z| == n
  {
    seq(n, _ => 0)
  }

  /** What `memcpy` of a word's storage yields: low-order byte first. */
  function ToBytes(w: uint32): (s: seq<byte>)
    ensures |s| == 4
  {
    [w % 0x100, w / 0x100 % 0x100, w / 0x1_0000 % 0x100, w / 0x100_0000]
  }

  /** What `memcpy` of four bytes into a word yields. */
  function FromBytes(s: seq<byte>): uint32
    requires |s| == 4
  {
    (s[0] as int) + 0x100 * (s[1] as int) + 0x1_0000 * (s[2] as int) + 0x100_0000 * (s[3] as int)
  }

  lemma BytesRoundTrip(w: uint32)
    ensures FromBytes(ToBytes(w)) == w
  {
    assert w / 0x100_0000 == w / 0x1_0000 / 0x100;
    assert w / 0x1_0000 == w / 0x100 / 0x100;
  }

  lemma WordRoundTrip(s: seq<byte>)
    requires |s| == 4
    ensures ToBytes(FromBytes(s)) == s
  {
    var w := FromBytes(s);
    assert w / 0x100 == s[1] as int + 0x100 * (s[2] as int) + 0x1_0000 * (s[3] as int);
    assert w / 0x1_0000 == w / 0x100 / 0x100 == s[2] as int + 0x100 * (s[3] as int);
    assert w / 0x100_0000 == w / 0x1_0000 / 0x100 == s[3];
  }

  // ---- What bytes in memory say, spelled out ----

  /** The four bytes from the i-th on as a number, the low-order one first. */
  function FourBytes(s: seq<byte>, i: nat): int
    requires i + 4 <= |s|
  {
    s[i] as int + 0x100 * (s[i + 1] as int) + 0x1_0000 * (s[i + 2] as int) + 0x100_0000 * (s[i + 3] as int)
  }

  /** The same for eight bytes. */
  function EightBytes(s: seq<byte>, i: nat): int
    requires i + 8 <= |s|
  {
    FourBytes(s, i) + 0x1_0000_0000 * FourBytes(s, i + 4)
  }

  lemma FourInSlice(s: seq<byte>, i: nat)
    requires i + 4 <= |s|
    ensures FourBytes(s, i) == FourBytes(s[i..i + 4], 0) == FromBytes(s[i..i + 4])
  {
  }

  lemma EightInTail(s: seq<byte>)
    requires |s| >= 8
    ensures EightBytes(s, |s| - 8) == EightBytes(s[|s| - 8..], 0)
  {
  }

  // ---- Bit-vector identities behind the rewritten MD5 functions ----

  lemma Choose(b: bv32, c: bv32, d: bv32)
    ensures d ^ (b & (c ^ d)) == (b & c) | (!b & d)
  {
  }

  lemma ChooseSwapped(b: bv32, c: bv32, d: bv32)
    ensures c ^ (d & (b ^ c)) == (b & d) | (c & !d)
  {
  }

  // ---- Words as bit-vectors and back ----

  lemma VectorRoundTrip(x: bv32)
    ensures (x as int) as bv32 == x
  {
  }

  lemma EvenVector(y: bv32)
    ensures (y << 1) as int == 2 * (y & 0x7fff_ffff) as int
  {
  }

  lemma OddVector(y: bv32)
    ensures ((y << 1) | 1) as int == 2 * (y & 0x7fff_ffff) as int + 1
  {
  }

  lemma ClearTopBit(y: bv32)
    requires y as int < 0x8000_0000
    ensures y & 0x7fff_ffff == y
  {
  }

  /** Every word is the value of some bit-vector, built bit by bit. */
  lemma {:induction false} VectorOf(w: uint32) returns (x: bv32)
    ensures x as int == w
  {
    if w == 0 {
      x := 0;
    } else {
      var y := VectorOf(w / 2);
      ClearTopBit(y);
      EvenVector(y);
      OddVector(y);
      x := if w % 2 == 0 then y << 1 else (y << 1) | 1;
    }
  }

  lemma AsVector(w: uint32) returns (x: bv32)
    ensures w as bv32 == x
    ensures x as int == w
  {
    x := VectorOf(w);
    VectorRoundTrip(x);
  }

  // ---- A 64-bit count, held as two words, shifted left by three bits ----

  /** The word that the C code appends as the low half of the bit count. */
  function BitCountLow(low: bv32): bv32 {
    (low & 0x1fff_ffff) << 3
  }

  /** The word that it appends as the high half. */
  function BitCountHigh(low: bv32, high: bv32): bv32 {
    (high << 3) | ((low & 0xe000_0000) >> 29)
  }

  lemma SplitAtTopBits(x: bv32)
    ensures x as int == (x & 0x1fff_ffff) as int + 0x2000_0000 * (x >> 29) as int
  {
  }

  lemma LowWordShift(x: bv32)
    ensures ((x & 0x1fff_ffff) << 3) as int == 8 * (x & 0x1fff_ffff) as int
  {
  }

  lemma HighWordShift(x: bv32, y: bv32)
    ensures ((y << 3) | ((x & 0xe000_0000) >> 29)) as int == 8 * (y & 0x1fff_ffff) as int + (x >> 29) as int
  {
    assert (x & 0xe000_0000) >> 29 == x >> 29;
  }

  lemma LowFieldBound(x: bv32)
    requires x < 0x2000_0000
    ensures x as int < 0x2000_0000
  {
    assert (x << 3) as int == 8 * x as int;
  }

  lemma HighFieldBound(x: bv32)
    requires x < 8
    ensures x as int < 8
  {
  }

  /** The fields of two words, cut at bit 29, and the words the C code builds from them. */
  lemma Fields(low: bv32, high: bv32) returns (l: nat, carry: nat, h: nat, lost: nat)
    ensures l < 0x2000_0000 && carry < 8 && h < 0x2000_0000
    ensures low as int == l + 0x2000_0000 * carry
    ensures high as int == h + 0x2000_0000 * lost
    ensures BitCountLow(low) as int == 8 * l
    ensures BitCountHigh(low, high) as int == 8 * h + carry
  {
    l, carry := (low & 0x1fff_ffff) as int, (low >> 29) as int;
    h, lost := (high & 0x1fff_ffff) as int, (high >> 29) as int;
    SplitAtTopBits(low);
    SplitAtTopBits(high);
    LowWordShift(low);
    HighWordShift(low, high);
    LowFieldBound(low & 0x1fff_ffff);
    LowFieldBound(high & 0x1fff_ffff);
    HighFieldBound(low >> 29);
  }

  lemma TimesEightFields(l: nat, carry: nat, h: nat, lost: nat, low: int, high: int, bitsLow: int, bitsHigh: int)
    requires l < 0x2000_0000 && carry < 8 && h < 0x2000_0000
    requires low == l + 0x2000_0000 * carry && high == h + 0x2000_0000 * lost
    requires bitsLow == 8 * l && bitsHigh == 8 * h + carry
    ensures bitsLow + 0x1_0000_0000 * bitsHigh == 8 * (low + 0x1_0000_0000 * high) % 0x1_0000_0000_0000_0000
  {
  }

  function LengthLow(low: uint32): uint32 {
    BitCountLow(low as bv32) as int
  }

  function LengthHigh(low: uint32, high: uint32): uint32 {
    BitCountHigh(low as bv32, high as bv32) as int
  }

  /** The appended words are eight times the two-word byte count, kept to 64 bits. */
  lemma BitCountIsTimesEight(low: uint32, high: uint32)
    ensures LengthLow(low) + 0x1_0000_0000 * LengthHigh(low, high)
         == 8 * (low + 0x1_0000_0000 * high) % 0x1_0000_0000_0000_0000
  {
    hide BitCountLow, BitCountHigh;
    var x := AsVector(low);
    var y := AsVector(high);
    var l, carry, h, lost := Fields(x, y);
    TimesEightFields(l, carry, h, lost, low, high, BitCountLow(x) as int, BitCountHigh(x, y) as int);
  }
}
