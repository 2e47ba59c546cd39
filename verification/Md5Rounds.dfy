/** The unrolled compression of md5.c and the step macros of md5_loc.h. */
module Md5Rounds {
  import opened Words
  import opened Rfc1321

  // ---- The rewritten auxiliary functions and the rotation macro ----

  function FF(b: uint32, c: uint32, d: uint32): uint32 {
    var B, C, D := b as bv32, c as bv32, d as bv32;
    (D ^ (B & (C ^ D))) as int
  }

  function FG(b: uint32, c: uint32, d: uint32): uint32 {
    FF(d, b, c)
  }

  function FH(b: uint32, c: uint32, d: uint32): uint32 {
    var B, C, D := b as bv32, c as bv32, d as bv32;
    (B ^ C ^ D) as int
  }

  function FI(b: uint32, c: uint32, d: uint32): uint32 {
    var B, C, D := b as bv32, c as bv32, d as bv32;
    (C ^ (B | !D)) as int
  }

  /** (w << s) | (w >> (32 - s)): the macro's second argument is a literal wherever it is used. */
  function CyclicBits(x: bv32, s: nat): bv32 {
    match s
    case 4 => (x << 4) | (x >> 28) case 5 => (x << 5) | (x >> 27)
    case 6 => (x << 6) | (x >> 26) case 7 => (x << 7) | (x >> 25)
    case 9 => (x << 9) | (x >> 23) case 10 => (x << 10) | (x >> 22)
    case 11 => (x << 11) | (x >> 21) case 12 => (x << 12) | (x >> 20)
    case 14 => (x << 14) | (x >> 18) case 15 => (x << 15) | (x >> 17)
    case 16 => (x << 16) | (x >> 16) case 17 => (x << 17) | (x >> 15)
    case 20 => (x << 20) | (x >> 12) case 21 => (x << 21) | (x >> 11)
    case 22 => (x << 22) | (x >> 10) case 23 => (x << 23) | (x >> 9)
    case _ => x
  }

  function Cyclic(w: uint32, s: nat): uint32 {
    CyclicBits(w as bv32, s) as int
  }

  lemma FFIsF(b: uint32, c: uint32, d: uint32)
    ensures FF(b, c, d) == F(b, c, d)
  {
    Choose(b as bv32, c as bv32, d as bv32);
  }

  lemma FHIsH(b: uint32, c: uint32, d: uint32)
    ensures FH(b, c, d) == H(b, c, d)
  {
  }

  lemma FIIsI(b: uint32, c: uint32, d: uint32)
    ensures FI(b, c, d) == I(b, c, d)
  {
  }

  lemma FGIsG(b: uint32, c: uint32, d: uint32)
    ensures FG(b, c, d) == G(b, c, d)
  {
    ChooseSwapped(b as bv32, c as bv32, d as bv32);
  }

  lemma CyclicBitsRotate(x: bv32, s: nat)
    ensures CyclicBits(x, s) == RotateBits(x, s)
  {
  }

  lemma CyclicIsRotation(w: uint32, s: nat)
    ensures Cyclic(w, s) == RotateLeft(w, s)
  {
    hide CyclicBits, RotateBits;
    CyclicBitsRotate(w as bv32, s);
  }

  // ---- The step macros ----

  /** Sum, rotate, add: the register update that all macros share. */
  method Accumulate(a: uint32, b: uint32, f: uint32, k: uint32, s: nat, t: uint32) returns (r: uint32)
    ensures r == Operation(f, a, b, k, s, t)
  {
    hide Cyclic, RotateLeft, Add;
    AddReorders(a, f, k, t);
    AddCommutes(b);
    r := Add(a, Add(Add(f, k), t));
    CyclicIsRotation(r, s);
    r := Cyclic(r, s);
    r := Add(r, b);
  }

  /** The first n words of the block are in `correct`. */
  ghost predicate Fetched(correct: array<uint32>, n: nat, x: seq<uint32>)
    reads correct
  {
    correct.Length == 16 && n <= 16 <= |x| && correct[..n] == x[..n]
  }

  /** OP1: fetch the j-th word of the block into `correct`, then a step of round 1. */
  method Op1(a: uint32, b: uint32, c: uint32, d: uint32, block: seq<byte>,
             correct: array<uint32>, j: nat, s: nat, t: uint32, ghost s0: State, ghost x: seq<uint32>)
    returns (r: uint32)
    requires |block| == 64 && j < 16 && x == WordsOf(block)
    requires Fetched(correct, j, x)
    requires State(a, b, c, d) == Round(0, j, s0, x)
    requires j == K(0, j) && s == S(0, j) && t == T(0, j)
    modifies correct
    ensures Fetched(correct, j + 1, x)
    ensures State(d, r, b, c) == Round(0, j + 1, s0, x)
  {
    hide FF, F, G, H, I, Operation, T, K, S;
    correct[j] := FromBytes(block[4 * j..4 * j + 4]);
    FFIsF(b, c, d);
    r := Accumulate(a, b, FF(b, c, d), correct[j], s, t);
  }

  /** OP234, with the function to use given by the number of the round. */
  method Op234(round: nat, a: uint32, b: uint32, c: uint32, d: uint32, k: uint32, s: nat, t: uint32,
               ghost j: nat, ghost s0: State, ghost x: seq<uint32>)
    returns (r: uint32)
    requires 1 <= round < 4 && |x| == 16
    requires State(a, b, c, d) == Round(round, j, s0, x)
    requires k == x[K(round, j)] && s == S(round, j) && t == T(round, j)
    ensures State(d, r, b, c) == Round(round, j + 1, s0, x)
  {
    hide FG, FH, FI, F, G, H, I, Operation, T, K, S;
    FGIsG(b, c, d);
    FHIsH(b, c, d);
    FIIsI(b, c, d);
    var f := match round case 1 => FG(b, c, d) case 2 => FH(b, c, d) case _ => FI(b, c, d);
    r := Accumulate(a, b, f, k, s, t);
  }

  lemma AllFetched(correct: array<uint32>, x: seq<uint32>)
    requires |x| == 16 && Fetched(correct, 16, x)
    ensures correct[..] == x
  {
  }

  // ---- The four unrolled rounds ----

  /** Steps 1 to 8 of round 1, which also fetch the words of the block. */
  method Round1a(a: uint32, b: uint32, c: uint32, d: uint32, block: seq<byte>, correct: array<uint32>,
                 ghost s: State, ghost x: seq<uint32>)
    returns (A: uint32, B: uint32, C: uint32, D: uint32)
    requires |block| == 64 && x == WordsOf(block) && Fetched(correct, 0, x)
    requires State(a, b, c, d) == Round(0, 0, s, x)
    modifies correct
    ensures Fetched(correct, 8, x)
    ensures State(A, B, C, D) == Round(0, 8, s, x)
  {
    hide Round, Step, WordsOf, Fetched;
    A, B, C, D := a, b, c, d;
    A := Op1(A, B, C, D, block, correct, 0, 7, 0xd76aa478, s, x);
    D := Op1(D, A, B, C, block, correct, 1, 12, 0xe8c7b756, s, x);
    C := Op1(C, D, A, B, block, correct, 2, 17, 0x242070db, s, x);
    B := Op1(B, C, D, A, block, correct, 3, 22, 0xc1bdceee, s, x);
    A := Op1(A, B, C, D, block, correct, 4, 7, 0xf57c0faf, s, x);
    D := Op1(D, A, B, C, block, correct, 5, 12, 0x4787c62a, s, x);
    C := Op1(C, D, A, B, block, correct, 6, 17, 0xa8304613, s, x);
    B := Op1(B, C, D, A, block, correct, 7, 22, 0xfd469501, s, x);
  }

  /** Steps 9 to 16 of round 1, which also fetch the words of the block. */
  method Round1b(a: uint32, b: uint32, c: uint32, d: uint32, block: seq<byte>, correct: array<uint32>,
                 ghost s: State, ghost x: seq<uint32>)
    returns (A: uint32, B: uint32, C: uint32, D: uint32)
    requires |block| == 64 && x == WordsOf(block) && Fetched(correct, 8, x)
    requires State(a, b, c, d) == Round(0, 8, s, x)
    modifies correct
    ensures Fetched(correct, 16, x)
    ensures State(A, B, C, D) == Round(0, 16, s, x)
  {
    hide Round, Step, WordsOf, Fetched;
    A, B, C, D := a, b, c, d;
    A := Op1(A, B, C, D, block, correct, 8, 7, 0x698098d8, s, x);
    D := Op1(D, A, B, C, block, correct, 9, 12, 0x8b44f7af, s, x);
    C := Op1(C, D, A, B, block, correct, 10, 17, 0xffff5bb1, s, x);
    B := Op1(B, C, D, A, block, correct, 11, 22, 0x895cd7be, s, x);
    A := Op1(A, B, C, D, block, correct, 12, 7, 0x6b901122, s, x);
    D := Op1(D, A, B, C, block, correct, 13, 12, 0xfd987193, s, x);
    C := Op1(C, D, A, B, block, correct, 14, 17, 0xa679438e, s, x);
    B := Op1(B, C, D, A, block, correct, 15, 22, 0x49b40821, s, x);
  }

  method Round1(a: uint32, b: uint32, c: uint32, d: uint32, block: seq<byte>, correct: array<uint32>)
    returns (A: uint32, B: uint32, C: uint32, D: uint32)
    requires |block| == 64 && correct.Length == 16
    modifies correct
    ensures correct[..] == WordsOf(block)
    ensures State(A, B, C, D) == Round(0, 16, State(a, b, c, d), WordsOf(block))
  {
    ghost var s, x := State(a, b, c, d), WordsOf(block);
    assert s == Round(0, 0, s, x);
    assert Fetched(correct, 0, x);
    hide Round, Step, WordsOf, Fetched;
    A, B, C, D := Round1a(a, b, c, d, block, correct, s, x);
    A, B, C, D := Round1b(A, B, C, D, block, correct, s, x);
    AllFetched(correct, x);
  }

  method Round2(a: uint32, b: uint32, c: uint32, d: uint32, correct: array<uint32>)
    returns (A: uint32, B: uint32, C: uint32, D: uint32)
    requires correct.Length == 16
    ensures State(A, B, C, D) == Round(1, 16, State(a, b, c, d), correct[..])
  {
    ghost var s, x := State(a, b, c, d), correct[..];
    A, B, C, D := a, b, c, d;
    assert State(A, B, C, D) == Round(1, 0, s, x);
    hide Round, Step;
    A := Op234(1, A, B, C, D, correct[1], 5, 0xf61e2562, 0, s, x);
    D := Op234(1, D, A, B, C, correct[6], 9, 0xc040b340, 1, s, x);
    C := Op234(1, C, D, A, B, correct[11], 14, 0x265e5a51, 2, s, x);
    B := Op234(1, B, C, D, A, correct[0], 20, 0xe9b6c7aa, 3, s, x);
    A := Op234(1, A, B, C, D, correct[5], 5, 0xd62f105d, 4, s, x);
    D := Op234(1, D, A, B, C, correct[10], 9, 0x02441453, 5, s, x);
    C := Op234(1, C, D, A, B, correct[15], 14, 0xd8a1e681, 6, s, x);
    B := Op234(1, B, C, D, A, correct[4], 20, 0xe7d3fbc8, 7, s, x);
    A := Op234(1, A, B, C, D, correct[9], 5, 0x21e1cde6, 8, s, x);
    D := Op234(1, D, A, B, C, correct[14], 9, 0xc33707d6, 9, s, x);
    C := Op234(1, C, D, A, B, correct[3], 14, 0xf4d50d87, 10, s, x);
    B := Op234(1, B, C, D, A, correct[8], 20, 0x455a14ed, 11, s, x);
    A := Op234(1, A, B, C, D, correct[13], 5, 0xa9e3e905, 12, s, x);
    D := Op234(1, D, A, B, C, correct[2], 9, 0xfcefa3f8, 13, s, x);
    C := Op234(1, C, D, A, B, correct[7], 14, 0x676f02d9, 14, s, x);
    B := Op234(1, B, C, D, A, correct[12], 20, 0x8d2a4c8a, 15, s, x);
  }

  method Round3(a: uint32, b: uint32, c: uint32, d: uint32, correct: array<uint32>)
    returns (A: uint32, B: uint32, C: uint32, D: uint32)
    requires correct.Length == 16
    ensures State(A, B, C, D) == Round(2, 16, State(a, b, c, d), correct[..])
  {
    ghost var s, x := State(a, b, c, d), correct[..];
    A, B, C, D := a, b, c, d;
    assert State(A, B, C, D) == Round(2, 0, s, x);
    hide Round, Step;
    A := Op234(2, A, B, C, D, correct[5], 4, 0xfffa3942, 0, s, x);
    D := Op234(2, D, A, B, C, correct[8], 11, 0x8771f681, 1, s, x);
    C := Op234(2, C, D, A, B, correct[11], 16, 0x6d9d6122, 2, s, x);
    B := Op234(2, B, C, D, A, correct[14], 23, 0xfde5380c, 3, s, x);
    A := Op234(2, A, B, C, D, correct[1], 4, 0xa4beea44, 4, s, x);
    D := Op234(2, D, A, B, C, correct[4], 11, 0x4bdecfa9, 5, s, x);
    C := Op234(2, C, D, A, B, correct[7], 16, 0xf6bb4b60, 6, s, x);
    B := Op234(2, B, C, D, A, correct[10], 23, 0xbebfbc70, 7, s, x);
    A := Op234(2, A, B, C, D, correct[13], 4, 0x289b7ec6, 8, s, x);
    D := Op234(2, D, A, B, C, correct[0], 11, 0xeaa127fa, 9, s, x);
    C := Op234(2, C, D, A, B, correct[3], 16, 0xd4ef3085, 10, s, x);
    B := Op234(2, B, C, D, A, correct[6], 23, 0x04881d05, 11, s, x);
    A := Op234(2, A, B, C, D, correct[9], 4, 0xd9d4d039, 12, s, x);
    D := Op234(2, D, A, B, C, correct[12], 11, 0xe6db99e5, 13, s, x);
    C := Op234(2, C, D, A, B, correct[15], 16, 0x1fa27cf8, 14, s, x);
    B := Op234(2, B, C, D, A, correct[2], 23, 0xc4ac5665, 15, s, x);
  }

  method Round4(a: uint32, b: uint32, c: uint32, d: uint32, correct: array<uint32>)
    returns (A: uint32, B: uint32, C: uint32, D: uint32)
    requires correct.Length == 16
    ensures State(A, B, C, D) == Round(3, 16, State(a, b, c, d), correct[..])
  {
    ghost var s, x := State(a, b, c, d), correct[..];
    A, B, C, D := a, b, c, d;
    assert State(A, B, C, D) == Round(3, 0, s, x);
    hide Round, Step;
    A := Op234(3, A, B, C, D, correct[0], 6, 0xf4292244, 0, s, x);
    D := Op234(3, D, A, B, C, correct[7], 10, 0x432aff97, 1, s, x);
    C := Op234(3, C, D, A, B, correct[14], 15, 0xab9423a7, 2, s, x);
    B := Op234(3, B, C, D, A, correct[5], 21, 0xfc93a039, 3, s, x);
    A := Op234(3, A, B, C, D, correct[12], 6, 0x655b59c3, 4, s, x);
    D := Op234(3, D, A, B, C, correct[3], 10, 0x8f0ccc92, 5, s, x);
    C := Op234(3, C, D, A, B, correct[10], 15, 0xffeff47d, 6, s, x);
    B := Op234(3, B, C, D, A, correct[1], 21, 0x85845dd1, 7, s, x);
    A := Op234(3, A, B, C, D, correct[8], 6, 0x6fa87e4f, 8, s, x);
    D := Op234(3, D, A, B, C, correct[15], 10, 0xfe2ce6e0, 9, s, x);
    C := Op234(3, C, D, A, B, correct[6], 15, 0xa3014314, 10, s, x);
    B := Op234(3, B, C, D, A, correct[13], 21, 0x4e0811a1, 11, s, x);
    A := Op234(3, A, B, C, D, correct[4], 6, 0xf7537e82, 12, s, x);
    D := Op234(3, D, A, B, C, correct[11], 10, 0xbd3af235, 13, s, x);
    C := Op234(3, C, D, A, B, correct[2], 15, 0x2ad7d2bb, 14, s, x);
    B := Op234(3, B, C, D, A, correct[9], 21, 0xeb86d391, 15, s, x);
  }

  /** The body of the block loop: the four rounds, then the saved registers are added. */
  method CompressBlock(a: uint32, b: uint32, c: uint32, d: uint32, block: seq<byte>, correct: array<uint32>)
    returns (A: uint32, B: uint32, C: uint32, D: uint32)
    requires |block| == 64 && correct.Length == 16
    modifies correct
    ensures State(A, B, C, D) == Compress(State(a, b, c, d), block)
  {
    hide Round, WordsOf, Add;
    A, B, C, D := Round1(a, b, c, d, block, correct);
    A, B, C, D := Round2(A, B, C, D, correct);
    A, B, C, D := Round3(A, B, C, D, correct);
    A, B, C, D := Round4(A, B, C, D, correct);
    ghost var s, x := State(a, b, c, d), WordsOf(block);
    assert Rounds(2, s, x) == Round(1, 16, Rounds(1, s, x), x);
    assert State(A, B, C, D) == Rounds(4, s, x);
    A, B, C, D := Add(A, a), Add(B, b), Add(C, c), Add(D, d);
  }
}
