/** The MD5 message-digest algorithm as sections 2 and 3 of RFC 1321 define it:
    a function of the whole message, with the additive constants, the message
    words and the rotations taken from tables. */
module Rfc1321 {
  import opened Words

  datatype State = State(a: uint32, b: uint32, c: uint32, d: uint32)

  // ---- Section 3.4: the auxiliary functions ----

  function F(x: uint32, y: uint32, z: uint32): uint32 {
    var X, Y, Z := x as bv32, y as bv32, z as bv32;
    ((X & Y) | (!X & Z)) as int
  }

  function G(x: uint32, y: uint32, z: uint32): uint32 {
    var X, Y, Z := x as bv32, y as bv32, z as bv32;
    ((X & Z) | (Y & !Z)) as int
  }

  function H(x: uint32, y: uint32, z: uint32): uint32 {
    var X, Y, Z := x as bv32, y as bv32, z as bv32;
    (X ^ Y ^ Z) as int
  }

  function I(x: uint32, y: uint32, z: uint32): uint32 {
    var X, Y, Z := x as bv32, y as bv32, z as bv32;
    (Y ^ (X | !Z)) as int
  }

  function Auxiliary(round: nat, x: uint32, y: uint32, z: uint32): uint32 {
    match round
    case 0 => F(x, y, z)
    case 1 => G(x, y, z)
    case 2 => H(x, y, z)
    case _ => I(x, y, z)
  }

  /** X <<< s, for the sixteen amounts of the tables (any other amount leaves the word alone). */
  function RotateBits(x: bv32, s: nat): bv32 {
    match s
    case 4 => x.RotateLeft(4) case 5 => x.RotateLeft(5) case 6 => x.RotateLeft(6) case 7 => x.RotateLeft(7)
    case 9 => x.RotateLeft(9) case 10 => x.RotateLeft(10) case 11 => x.RotateLeft(11) case 12 => x.RotateLeft(12)
    case 14 => x.RotateLeft(14) case 15 => x.RotateLeft(15) case 16 => x.RotateLeft(16) case 17 => x.RotateLeft(17)
    case 20 => x.RotateLeft(20) case 21 => x.RotateLeft(21) case 22 => x.RotateLeft(22) case 23 => x.RotateLeft(23)
    case _ => x
  }

  function RotateLeft(w: uint32, s: nat): uint32 {
    RotateBits(w as bv32, s) as int
  }

  // ---- Section 3.4: the tables, by round and by position in the round ----

  /** T[i], the integer part of 4294967296 times abs(sin(i)). */
  function T(round: nat, j: nat): uint32
  {
    match round
    case 0 => (
      match j
      case 0 => 0xd76aa478 case 1 => 0xe8c7b756 case 2 => 0x242070db case 3 => 0xc1bdceee
      case 4 => 0xf57c0faf case 5 => 0x4787c62a case 6 => 0xa8304613 case 7 => 0xfd469501
      case 8 => 0x698098d8 case 9 => 0x8b44f7af case 10 => 0xffff5bb1 case 11 => 0x895cd7be
      case 12 => 0x6b901122 case 13 => 0xfd987193 case 14 => 0xa679438e case _ => 0x49b40821
    )
    case 1 => (
      match j
      case 0 => 0xf61e2562 case 1 => 0xc040b340 case 2 => 0x265e5a51 case 3 => 0xe9b6c7aa
      case 4 => 0xd62f105d case 5 => 0x02441453 case 6 => 0xd8a1e681 case 7 => 0xe7d3fbc8
      case 8 => 0x21e1cde6 case 9 => 0xc33707d6 case 10 => 0xf4d50d87 case 11 => 0x455a14ed
      case 12 => 0xa9e3e905 case 13 => 0xfcefa3f8 case 14 => 0x676f02d9 case _ => 0x8d2a4c8a
    )
    case 2 => (
      match j
      case 0 => 0xfffa3942 case 1 => 0x8771f681 case 2 => 0x6d9d6122 case 3 => 0xfde5380c
      case 4 => 0xa4beea44 case 5 => 0x4bdecfa9 case 6 => 0xf6bb4b60 case 7 => 0xbebfbc70
      case 8 => 0x289b7ec6 case 9 => 0xeaa127fa case 10 => 0xd4ef3085 case 11 => 0x04881d05
      case 12 => 0xd9d4d039 case 13 => 0xe6db99e5 case 14 => 0x1fa27cf8 case _ => 0xc4ac5665
    )
    case _ => (
      match j
      case 0 => 0xf4292244 case 1 => 0x432aff97 case 2 => 0xab9423a7 case 3 => 0xfc93a039
      case 4 => 0x655b59c3 case 5 => 0x8f0ccc92 case 6 => 0xffeff47d case 7 => 0x85845dd1
      case 8 => 0x6fa87e4f case 9 => 0xfe2ce6e0 case 10 => 0xa3014314 case 11 => 0x4e0811a1
      case 12 => 0xf7537e82 case 13 => 0xbd3af235 case 14 => 0x2ad7d2bb case _ => 0xeb86d391
    )
  }

  /** Which of the sixteen words of the block a step adds. */
  function K(round: nat, j: nat): (k: nat)
    ensures k < 16
  {
    match round
    case 0 => (
      match j
      case 0 => 0 case 1 => 1 case 2 => 2 case 3 => 3 case 4 => 4 case 5 => 5 case 6 => 6 case 7 => 7
      case 8 => 8 case 9 => 9 case 10 => 10 case 11 => 11 case 12 => 12 case 13 => 13 case 14 => 14 case _ => 15
    )
    case 1 => (
      match j
      case 0 => 1 case 1 => 6 case 2 => 11 case 3 => 0 case 4 => 5 case 5 => 10 case 6 => 15 case 7 => 4
      case 8 => 9 case 9 => 14 case 10 => 3 case 11 => 8 case 12 => 13 case 13 => 2 case 14 => 7 case _ => 12
    )
    case 2 => (
      match j
      case 0 => 5 case 1 => 8 case 2 => 11 case 3 => 14 case 4 => 1 case 5 => 4 case 6 => 7 case 7 => 10
      case 8 => 13 case 9 => 0 case 10 => 3 case 11 => 6 case 12 => 9 case 13 => 12 case 14 => 15 case _ => 2
    )
    case _ => (
      match j
      case 0 => 0 case 1 => 7 case 2 => 14 case 3 => 5 case 4 => 12 case 5 => 3 case 6 => 10 case 7 => 1
      case 8 => 8 case 9 => 15 case 10 => 6 case 11 => 13 case 12 => 4 case 13 => 11 case 14 => 2 case _ => 9
    )
  }

  function S(round: nat, j: nat): (s: nat)
    ensures 0 < s < 32
  {
    match round
    case 0 => (match j % 4 case 0 => 7 case 1 => 12 case 2 => 17 case _ => 22)
    case 1 => (match j % 4 case 0 => 5 case 1 => 9 case 2 => 14 case _ => 20)
    case 2 => (match j % 4 case 0 => 4 case 1 => 11 case 2 => 16 case _ => 23)
    case _ => (match j % 4 case 0 => 6 case 1 => 10 case 2 => 15 case _ => 21)
  }

  // ---- Section 3.4: processing a 16-word block ----

  /** a = b + ((a + f + X[k] + T[i]) <<< s) */
  function Operation(f: uint32, a: uint32, b: uint32, x: uint32, s: nat, t: uint32): uint32
  {
    Add(b, RotateLeft(Add(Add(Add(a, f), x), t), s))
  }

  /** One step, after which the registers change roles: [abcd] becomes [dabc]. */
  function Step(round: nat, j: nat, s: State, x: seq<uint32>): State
    requires |x| == 16
  {
    var f := Auxiliary(round, s.b, s.c, s.d);
    State(s.d, Operation(f, s.a, s.b, x[K(round, j)], S(round, j), T(round, j)), s.b, s.c)
  }

  /** The first n steps of a round. */
  function Round(round: nat, n: nat, s: State, x: seq<uint32>): State
    requires |x| == 16
  {
    if n == 0 then s else Step(round, n - 1, Round(round, n - 1, s, x), x)
  }

  /** The first n rounds. */
  function Rounds(n: nat, s: State, x: seq<uint32>): State
    requires |x| == 16
  {
    if n == 0 then s else Round(n - 1, 16, Rounds(n - 1, s, x), x)
  }

  /** Section 2: bytes are words with the low-order byte first. */
  function WordsOf(block: seq<byte>): (x: seq<uint32>)
    requires |block| == 64
    ensures |x| == 16
  {
    seq(16, k requires 0 <= k < 16 => FromBytes(block[4 * k..4 * k + 4]))
  }

  function Compress(s: State, block: seq<byte>): State
    requires |block| == 64
  {
    var r := Rounds(4, s, WordsOf(block));
    State(Add(r.a, s.a), Add(r.b, s.b), Add(r.c, s.c), Add(r.d, s.d))
  }

  /** A length that is a whole number of 64-byte blocks. */
  predicate Aligned(n: int) {
    n % 64 == 0
  }

  lemma AlignedSum(m: int, n: int)
    requires Aligned(m) && Aligned(n)
    ensures Aligned(m + n)
  {
  }

  lemma AlignedDifference(m: int, n: int)
    requires Aligned(m) && Aligned(n)
    ensures Aligned(m - n)
  {
  }

  lemma AlignedPrevious(n: int)
    requires Aligned(n) && n > 0
    ensures n >= 64 && Aligned(n - 64)
  {
  }

  lemma AlignedNext(p: int, n: int)
    requires Aligned(p) && Aligned(n) && p < n
    ensures p + 64 <= n && Aligned(p + 64)
  {
  }

  /** All the blocks of a padded message, in order. */
  function CompressAll(s: State, message: seq<byte>): State
    requires Aligned(|message|)
  {
    if message == [] then s
    else
      AlignedPrevious(|message|);
      Compress(CompressAll(s, message[..|message| - 64]), message[|message| - 64..])
  }

  // ---- Sections 3.1, 3.2, 3.3 and 3.5 ----

  /** How many zero bytes follow the 0x80 byte. */
  function ZeroCount(n: nat): (z: nat)
    ensures z < 64 && (n + 1 + z) % 64 == 56
  {
    (119 - n % 64) % 64
  }

  /** The length in bits, kept to 64 bits, low-order word first. */
  function LengthField(n: nat): (s: seq<byte>)
    ensures |s| == 8
  {
    var bits := 8 * n % 0x1_0000_0000_0000_0000;
    ToBytes(bits % 0x1_0000_0000) + ToBytes(bits / 0x1_0000_0000)
  }

  function Padded(message: seq<byte>): seq<byte> {
    message + [0x80] + Zeros(ZeroCount(|message|)) + LengthField(|message|)
  }

  lemma PaddedAligned(message: seq<byte>)
    ensures Aligned(|Padded(message)|)
  {
    hide Zeros, LengthField;
    var n := |message|;
    assert |Padded(message)| == n + 1 + ZeroCount(n) + 8;
    hide ZeroCount;
    assert (n + 1 + ZeroCount(n) + 8) % 64 == 0;
  }

  lemma PaddedEnds(message: seq<byte>)
    ensures var p, n := Padded(message), |message|;
      && |p| == n + 1 + ZeroCount(n) + 8
      && p[..n] == message && p[n] == 0x80 && (forall i | n < i < |p| - 8 :: p[i] == 0)
      && p[|p| - 8..] == LengthField(n)
  {
    hide LengthField, ZeroCount;
  }

  lemma LengthFieldIs(n: nat)
    ensures EightBytes(LengthField(n), 0) == 8 * n % 0x1_0000_0000_0000_0000
  {
    var bits := 8 * n % 0x1_0000_0000_0000_0000;
    BytesRoundTrip(bits % 0x1_0000_0000);
    BytesRoundTrip(bits / 0x1_0000_0000);
    hide ToBytes;
  }

  /** Sections 3.1 and 3.2: a one, then the fewest zeros that will do, then the
      length in bits. */
  lemma PaddedIs(message: seq<byte>)
    ensures var p, n := Padded(message), |message|;
      && |p| % 64 == 0 && n + 9 <= |p| < n + 9 + 64
      && p[..n] == message && p[n] == 0x80 && (forall i | n < i < |p| - 8 :: p[i] == 0)
      && EightBytes(p, |p| - 8) == 8 * n % 0x1_0000_0000_0000_0000
  {
    PaddedAligned(message);
    PaddedEnds(message);
    LengthFieldIs(|message|);
    EightInTail(Padded(message));
    hide Padded, LengthField, EightBytes;
  }

  const INITIAL: State := State(0x67452301, 0xefcdab89, 0x98badcfe, 0x10325476)

  function Output(s: State): (d: seq<byte>)
    ensures |d| == 16
  {
    ToBytes(s.a) + ToBytes(s.b) + ToBytes(s.c) + ToBytes(s.d)
  }

  function Digest(message: seq<byte>): (d: seq<byte>)
    ensures |d| == 16
  {
    PaddedAligned(message);
    Output(CompressAll(INITIAL, Padded(message)))
  }

  // ---- Laws ----

  lemma CompressAllNext(s: State, m: seq<byte>, block: seq<byte>)
    requires Aligned(|m|) && |block| == 64
    ensures Aligned(|m + block|)
    ensures CompressAll(s, m + block) == Compress(CompressAll(s, m), block)
  {
    hide Compress;
    assert (m + block)[..|m + block| - 64] == m;
    assert (m + block)[|m + block| - 64..] == block;
  }

  /** Blocks may be compressed in two batches. */
  lemma {:induction false} CompressAllAppend(s: State, m1: seq<byte>, m2: seq<byte>)
    requires Aligned(|m1|) && Aligned(|m2|)
    ensures Aligned(|m1 + m2|)
    ensures CompressAll(s, m1 + m2) == CompressAll(CompressAll(s, m1), m2)
    decreases |m2|
  {
    hide Compress, Aligned;
    AlignedSum(|m1|, |m2|);
    if m2 == [] {
      assert m1 + m2 == m1;
    } else {
      AlignedPrevious(|m2|);
      var n := |m2| - 64;
      CompressAllAppend(s, m1, m2[..n]);
      CompressAllNext(s, m1 + m2[..n], m2[n..]);
      assert m1 + m2[..n] + m2[n..] == m1 + m2;
    }
  }
}
