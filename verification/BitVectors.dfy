/** Sums of words as sums of bit-vectors, and the auxiliary functions and
    rotations of RFC 1321 on bit-vectors: what a step computes with literals. */
module BitVectors {
  import opened Words
  import opened Rfc1321

  function Value(x: bv32): (w: uint32) {
    x as int
  }

  function Plus(x: bv32, y: bv32): bv32 {
    x + y
  }

  function Half(x: bv32): bv32 {
    x >> 1
  }

  // ---- A vector and its successor ----

  lemma ValueRoundTrip(x: bv32)
    ensures Value(x) as bv32 == x
  {
  }

  lemma EvenOrOdd(x: bv32)
    ensures Half(x) < 0x8000_0000
    ensures x == if x & 1 == 0 then Half(x) << 1 else (Half(x) << 1) | 1
  {
  }

  lemma Doubled(y: bv32)
    requires y < 0x8000_0000
    ensures Value(y << 1) == 2 * Value(y) && Value((y << 1) | 1) == 2 * Value(y) + 1
  {
    assert y & 0x7fff_ffff == y;
    EvenVector(y);
    OddVector(y);
  }

  lemma ValueByHalf(x: bv32)
    ensures Value(x) == 2 * Value(Half(x)) + if x & 1 == 0 then 0 else 1
  {
    hide Value, Half;
    EvenOrOdd(x);
    Doubled(Half(x));
  }

  lemma EvenNext(x: bv32)
    requires x & 1 == 0
    ensures Plus(x, 1) & 1 != 0 && Half(Plus(x, 1)) == Half(x)
  {
  }

  lemma OddNext(x: bv32)
    requires x & 1 != 0 && x != 0xffff_ffff
    ensures Plus(x, 1) & 1 == 0 && Half(Plus(x, 1)) == Plus(Half(x), 1) && Half(x) != 0xffff_ffff
  {
  }

  lemma {:induction false} Successor(x: bv32)
    requires x != 0xffff_ffff
    ensures Value(Plus(x, 1)) == Value(x) + 1
    decreases Value(x)
  {
    hide *;
    ValueByHalf(x);
    ValueByHalf(Plus(x, 1));
    if x & 1 == 0 {
      EvenNext(x);
    } else {
      OddNext(x);
      Successor(Half(x));
    }
  }

  lemma Limits(x: bv32)
    ensures Value(Plus(0xffff_ffff, 1)) == 0 && Value(0xffff_ffff) == 0xffff_ffff
    ensures Value(0) == 0 && Plus(x, 0) == x
  {
  }

  lemma NotMax(x: bv32)
    requires x != 0xffff_ffff
    ensures Value(x) != 0xffff_ffff
  {
  }

  lemma Wraps(w: uint32)
    ensures Add(w, 1) == if w == 0xffff_ffff then 0 else w + 1
    ensures Add(w, 0) == w
  {
  }

  lemma AddOne(x: bv32)
    ensures Value(Plus(x, 1)) == Add(Value(x), 1)
  {
    hide *;
    Limits(x);
    Wraps(Value(x));
    if x != 0xffff_ffff {
      NotMax(x);
      Successor(x);
    }
  }

  lemma AddZero(x: bv32)
    ensures Value(Plus(x, 0)) == Add(Value(x), Value(0))
  {
    hide *;
    Limits(x);
    Wraps(Value(x));
  }

  // ---- Sums ----

  lemma Previous(y: bv32) returns (z: bv32)
    requires y != 0
    ensures y == z + 1 && z != 0xffff_ffff
  {
    z := y - 1;
  }

  lemma PlusIs(x: bv32, y: bv32)
    ensures Plus(x, y) == x + y
  {
  }

  lemma PlusOfSum(x: bv32, z: bv32)
    ensures Plus(x + z, 1) == Plus(x, z + 1)
  {
    assert Plus(x + z, 1) == (x + z) + 1 == x + (z + 1);
  }

  lemma PlusNext(x: bv32, z: bv32, q: bv32, y: bv32)
    requires q == x + z && y == z + 1
    ensures Plus(q, 1) == Plus(x, y)
  {
    PlusOfSum(x, z);
  }

  lemma PreviousSum(x: bv32, y: bv32) returns (z: bv32, q: bv32)
    requires y != 0
    ensures y == Plus(z, 1) && q == Plus(x, z) && Plus(x, y) == Plus(q, 1) && z != 0xffff_ffff
  {
    hide *;
    z := Previous(y);
    q := x + z;
    PlusIs(z, 1);
    PlusIs(x, z);
    PlusNext(x, z, q, y);
  }

  /** Words wrap as the sums of 32-bit vectors do. */
  lemma {:induction false} PlusIsAdd(x: bv32, y: bv32)
    ensures Value(Plus(x, y)) == Add(Value(x), Value(y))
    decreases Value(y)
  {
    hide Value, Plus;
    if y == 0 {
      AddZero(x);
    } else {
      var z, q := PreviousSum(x, y);
      Successor(z);
      PlusIsAdd(x, z);
      AddOne(q);
    }
  }

  // ---- Steps ----

  function AuxiliaryBits(round: nat, x: bv32, y: bv32, z: bv32): bv32 {
    match round
    case 0 => (x & y) | (!x & z)
    case 1 => (x & z) | (y & !z)
    case 2 => x ^ y ^ z
    case _ => y ^ (x | !z)
  }

  function Sum(a: bv32, f: bv32, k: bv32, t: bv32): bv32 {
    Plus(Plus(Plus(a, f), k), t)
  }

  /** b + ((a + f(b, c, d) + k + t) <<< n) */
  function Turned(round: nat, a: bv32, b: bv32, c: bv32, d: bv32, k: bv32, t: bv32, n: nat): bv32 {
    Plus(b, RotateBits(Sum(a, AuxiliaryBits(round, b, c, d), k, t), n))
  }

  lemma FOfWords(x: uint32, y: uint32, z: uint32)
    ensures Auxiliary(0, x, y, z) == Value(AuxiliaryBits(0, x as bv32, y as bv32, z as bv32))
  {
  }

  lemma GOfWords(x: uint32, y: uint32, z: uint32)
    ensures Auxiliary(1, x, y, z) == Value(AuxiliaryBits(1, x as bv32, y as bv32, z as bv32))
  {
  }

  lemma HOfWords(x: uint32, y: uint32, z: uint32)
    ensures Auxiliary(2, x, y, z) == Value(AuxiliaryBits(2, x as bv32, y as bv32, z as bv32))
  {
  }

  lemma IOfWords(round: nat, x: uint32, y: uint32, z: uint32)
    requires round > 2
    ensures Auxiliary(round, x, y, z) == Value(AuxiliaryBits(round, x as bv32, y as bv32, z as bv32))
  {
  }

  lemma AuxiliaryOfWords(round: nat, x: uint32, y: uint32, z: uint32)
    ensures Auxiliary(round, x, y, z) == Value(AuxiliaryBits(round, x as bv32, y as bv32, z as bv32))
  {
    hide *;
    if round == 0 {
      FOfWords(x, y, z);
    } else if round == 1 {
      GOfWords(x, y, z);
    } else if round == 2 {
      HOfWords(x, y, z);
    } else {
      IOfWords(round, x, y, z);
    }
  }

  lemma AuxiliaryIs(round: nat, x: bv32, y: bv32, z: bv32)
    ensures Auxiliary(round, Value(x), Value(y), Value(z)) == Value(AuxiliaryBits(round, x, y, z))
  {
    AuxiliaryOfWords(round, Value(x), Value(y), Value(z));
    ValueRoundTrip(x);
    ValueRoundTrip(y);
    ValueRoundTrip(z);
    hide Value, Auxiliary, AuxiliaryBits;
  }

  lemma RotationIs(x: bv32, n: nat)
    ensures RotateLeft(Value(x), n) == Value(RotateBits(x, n))
  {
    hide RotateBits;
    ValueRoundTrip(x);
  }

  lemma SumIs(a: bv32, f: bv32, k: bv32, t: bv32)
    ensures Value(Sum(a, f, k, t)) == Add(Add(Add(Value(a), Value(f)), Value(k)), Value(t))
  {
    hide Value, Plus, Add;
    PlusIsAdd(a, f);
    PlusIsAdd(Plus(a, f), k);
    PlusIsAdd(Plus(Plus(a, f), k), t);
  }

  function StateOf(a: bv32, b: bv32, c: bv32, d: bv32): State {
    State(Value(a), Value(b), Value(c), Value(d))
  }

  lemma StepIs(round: nat, j: nat, x: seq<uint32>, a: bv32, b: bv32, c: bv32, d: bv32, k: bv32, t: bv32)
    requires |x| == 16 && x[K(round, j)] == Value(k) && T(round, j) == Value(t)
    ensures Step(round, j, StateOf(a, b, c, d), x) == StateOf(d, Turned(round, a, b, c, d, k, t, S(round, j)), b, c)
  {
    hide K, T, S, Auxiliary, AuxiliaryBits, RotateLeft, RotateBits, Add, Value, Plus, Sum;
    var f := AuxiliaryBits(round, b, c, d);
    var m := Sum(a, f, k, t);
    AuxiliaryIs(round, b, c, d);
    SumIs(a, f, k, t);
    RotationIs(m, S(round, j));
    PlusIsAdd(b, RotateBits(m, S(round, j)));
  }

  /** One more step of a round, with everything that it reads. */
  lemma Turn(round: nat, j: nat, s: State, x: seq<uint32>, a: bv32, b: bv32, c: bv32, d: bv32,
             k: bv32, t: bv32, n: nat, next: bv32)
    requires |x| == 16 && Round(round, j, s, x) == StateOf(a, b, c, d)
    requires x[K(round, j)] == Value(k) && T(round, j) == Value(t) && S(round, j) == n
    requires next == Turned(round, a, b, c, d, k, t, n)
    ensures Round(round, j + 1, s, x) == StateOf(d, next, b, c)
  {
    hide Step, Turned, Value, StateOf, K, T, S;
    StepIs(round, j, x, a, b, c, d, k, t);
  }

  lemma Start(round: nat, s: State, x: seq<uint32>)
    requires |x| == 16
    ensures Round(round, 0, s, x) == s
  {
  }
}
