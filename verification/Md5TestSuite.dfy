/** The test suite of RFC 1321 (its appendix A.5), worked out step by step: the
    digests of the empty message, and of the letters and digits, whose first
    block has sixteen different words. The steps are those of the reference
    implementation (appendix A.3), with its constants. */
module Md5TestSuite {
  import opened Words
  import opened Rfc1321
  import opened BitVectors

  /** The i-th word of a block, as a bit-vector. */
  function Word(x: seq<uint32>, i: nat): bv32
    requires i < |x|
  {
    x[i] as bv32
  }

  lemma WordIs(x: seq<uint32>, i: nat)
    requires i < |x|
    ensures x[i] == Value(Word(x, i))
  {
    var v := AsVector(x[i]);
  }

  lemma AllWordsAre(x: seq<uint32>)
    ensures forall i | 0 <= i < |x| :: x[i] == Value(Word(x, i))
  {
    forall i | 0 <= i < |x|
      ensures x[i] == Value(Word(x, i))
    {
      WordIs(x, i);
    }
  }

  lemma WordOf(x: seq<uint32>, i: nat, k: bv32)
    requires i < |x| && x[i] == Value(k)
    ensures Word(x, i) == k
  {
    ValueRoundTrip(k);
    hide Value;
  }

  // ---- The four rounds, step by step ----

  lemma Table0()
    ensures T(0, 0) == Value(0xd76aa478) && S(0, 0) == 7
    ensures T(0, 1) == Value(0xe8c7b756) && S(0, 1) == 12
    ensures T(0, 2) == Value(0x242070db) && S(0, 2) == 17
    ensures T(0, 3) == Value(0xc1bdceee) && S(0, 3) == 22
    ensures T(0, 4) == Value(0xf57c0faf) && S(0, 4) == 7
    ensures T(0, 5) == Value(0x4787c62a) && S(0, 5) == 12
    ensures T(0, 6) == Value(0xa8304613) && S(0, 6) == 17
    ensures T(0, 7) == Value(0xfd469501) && S(0, 7) == 22
    ensures T(0, 8) == Value(0x698098d8) && S(0, 8) == 7
    ensures T(0, 9) == Value(0x8b44f7af) && S(0, 9) == 12
    ensures T(0, 10) == Value(0xffff5bb1) && S(0, 10) == 17
    ensures T(0, 11) == Value(0x895cd7be) && S(0, 11) == 22
    ensures T(0, 12) == Value(0x6b901122) && S(0, 12) == 7
    ensures T(0, 13) == Value(0xfd987193) && S(0, 13) == 12
    ensures T(0, 14) == Value(0xa679438e) && S(0, 14) == 17
    ensures T(0, 15) == Value(0x49b40821) && S(0, 15) == 22
  {
  }

  lemma Order0()
    ensures K(0, 0) == 0 && K(0, 1) == 1 && K(0, 2) == 2 && K(0, 3) == 3
    ensures K(0, 4) == 4 && K(0, 5) == 5 && K(0, 6) == 6 && K(0, 7) == 7
    ensures K(0, 8) == 8 && K(0, 9) == 9 && K(0, 10) == 10 && K(0, 11) == 11
    ensures K(0, 12) == 12 && K(0, 13) == 13 && K(0, 14) == 14 && K(0, 15) == 15
  {
  }

  lemma Round0(x: seq<uint32>, v0: bv32, v1: bv32, v2: bv32, v3: bv32, v4: bv32, v5: bv32, v6: bv32, v7: bv32,
                v8: bv32, v9: bv32, v10: bv32, v11: bv32, v12: bv32, v13: bv32, v14: bv32, v15: bv32, v16: bv32,
                v17: bv32, v18: bv32, v19: bv32)
    requires |x| == 16
    requires v4 == Turned(0, v0, v3, v2, v1, Word(x, 0), 0xd76aa478, 7)
    requires v5 == Turned(0, v1, v4, v3, v2, Word(x, 1), 0xe8c7b756, 12)
    requires v6 == Turned(0, v2, v5, v4, v3, Word(x, 2), 0x242070db, 17)
    requires v7 == Turned(0, v3, v6, v5, v4, Word(x, 3), 0xc1bdceee, 22)
    requires v8 == Turned(0, v4, v7, v6, v5, Word(x, 4), 0xf57c0faf, 7)
    requires v9 == Turned(0, v5, v8, v7, v6, Word(x, 5), 0x4787c62a, 12)
    requires v10 == Turned(0, v6, v9, v8, v7, Word(x, 6), 0xa8304613, 17)
    requires v11 == Turned(0, v7, v10, v9, v8, Word(x, 7), 0xfd469501, 22)
    requires v12 == Turned(0, v8, v11, v10, v9, Word(x, 8), 0x698098d8, 7)
    requires v13 == Turned(0, v9, v12, v11, v10, Word(x, 9), 0x8b44f7af, 12)
    requires v14 == Turned(0, v10, v13, v12, v11, Word(x, 10), 0xffff5bb1, 17)
    requires v15 == Turned(0, v11, v14, v13, v12, Word(x, 11), 0x895cd7be, 22)
    requires v16 == Turned(0, v12, v15, v14, v13, Word(x, 12), 0x6b901122, 7)
    requires v17 == Turned(0, v13, v16, v15, v14, Word(x, 13), 0xfd987193, 12)
    requires v18 == Turned(0, v14, v17, v16, v15, Word(x, 14), 0xa679438e, 17)
    requires v19 == Turned(0, v15, v18, v17, v16, Word(x, 15), 0x49b40821, 22)
    ensures Round(0, 16, StateOf(v0, v3, v2, v1), x) == StateOf(v16, v19, v18, v17)
  {
    hide *;
    var s := StateOf(v0, v3, v2, v1);
    AllWordsAre(x);
    Start(0, s, x);
    Table0();
    Order0();
    Turn(0, 0, s, x, v0, v3, v2, v1, Word(x, 0), 0xd76aa478, 7, v4);
    Turn(0, 1, s, x, v1, v4, v3, v2, Word(x, 1), 0xe8c7b756, 12, v5);
    Turn(0, 2, s, x, v2, v5, v4, v3, Word(x, 2), 0x242070db, 17, v6);
    Turn(0, 3, s, x, v3, v6, v5, v4, Word(x, 3), 0xc1bdceee, 22, v7);
    Turn(0, 4, s, x, v4, v7, v6, v5, Word(x, 4), 0xf57c0faf, 7, v8);
    Turn(0, 5, s, x, v5, v8, v7, v6, Word(x, 5), 0x4787c62a, 12, v9);
    Turn(0, 6, s, x, v6, v9, v8, v7, Word(x, 6), 0xa8304613, 17, v10);
    Turn(0, 7, s, x, v7, v10, v9, v8, Word(x, 7), 0xfd469501, 22, v11);
    Turn(0, 8, s, x, v8, v11, v10, v9, Word(x, 8), 0x698098d8, 7, v12);
    Turn(0, 9, s, x, v9, v12, v11, v10, Word(x, 9), 0x8b44f7af, 12, v13);
    Turn(0, 10, s, x, v10, v13, v12, v11, Word(x, 10), 0xffff5bb1, 17, v14);
    Turn(0, 11, s, x, v11, v14, v13, v12, Word(x, 11), 0x895cd7be, 22, v15);
    Turn(0, 12, s, x, v12, v15, v14, v13, Word(x, 12), 0x6b901122, 7, v16);
    Turn(0, 13, s, x, v13, v16, v15, v14, Word(x, 13), 0xfd987193, 12, v17);
    Turn(0, 14, s, x, v14, v17, v16, v15, Word(x, 14), 0xa679438e, 17, v18);
    Turn(0, 15, s, x, v15, v18, v17, v16, Word(x, 15), 0x49b40821, 22, v19);
  }

  lemma Table1()
    ensures T(1, 0) == Value(0xf61e2562) && S(1, 0) == 5
    ensures T(1, 1) == Value(0xc040b340) && S(1, 1) == 9
    ensures T(1, 2) == Value(0x265e5a51) && S(1, 2) == 14
    ensures T(1, 3) == Value(0xe9b6c7aa) && S(1, 3) == 20
    ensures T(1, 4) == Value(0xd62f105d) && S(1, 4) == 5
    ensures T(1, 5) == Value(0x02441453) && S(1, 5) == 9
    ensures T(1, 6) == Value(0xd8a1e681) && S(1, 6) == 14
    ensures T(1, 7) == Value(0xe7d3fbc8) && S(1, 7) == 20
    ensures T(1, 8) == Value(0x21e1cde6) && S(1, 8) == 5
    ensures T(1, 9) == Value(0xc33707d6) && S(1, 9) == 9
    ensures T(1, 10) == Value(0xf4d50d87) && S(1, 10) == 14
    ensures T(1, 11) == Value(0x455a14ed) && S(1, 11) == 20
    ensures T(1, 12) == Value(0xa9e3e905) && S(1, 12) == 5
    ensures T(1, 13) == Value(0xfcefa3f8) && S(1, 13) == 9
    ensures T(1, 14) == Value(0x676f02d9) && S(1, 14) == 14
    ensures T(1, 15) == Value(0x8d2a4c8a) && S(1, 15) == 20
  {
  }

  lemma Order1()
    ensures K(1, 0) == 1 && K(1, 1) == 6 && K(1, 2) == 11 && K(1, 3) == 0
    ensures K(1, 4) == 5 && K(1, 5) == 10 && K(1, 6) == 15 && K(1, 7) == 4
    ensures K(1, 8) == 9 && K(1, 9) == 14 && K(1, 10) == 3 && K(1, 11) == 8
    ensures K(1, 12) == 13 && K(1, 13) == 2 && K(1, 14) == 7 && K(1, 15) == 12
  {
  }

  lemma Round1(x: seq<uint32>, v0: bv32, v1: bv32, v2: bv32, v3: bv32, v4: bv32, v5: bv32, v6: bv32, v7: bv32,
                v8: bv32, v9: bv32, v10: bv32, v11: bv32, v12: bv32, v13: bv32, v14: bv32, v15: bv32, v16: bv32,
                v17: bv32, v18: bv32, v19: bv32)
    requires |x| == 16
    requires v4 == Turned(1, v0, v3, v2, v1, Word(x, 1), 0xf61e2562, 5)
    requires v5 == Turned(1, v1, v4, v3, v2, Word(x, 6), 0xc040b340, 9)
    requires v6 == Turned(1, v2, v5, v4, v3, Word(x, 11), 0x265e5a51, 14)
    requires v7 == Turned(1, v3, v6, v5, v4, Word(x, 0), 0xe9b6c7aa, 20)
    requires v8 == Turned(1, v4, v7, v6, v5, Word(x, 5), 0xd62f105d, 5)
    requires v9 == Turned(1, v5, v8, v7, v6, Word(x, 10), 0x02441453, 9)
    requires v10 == Turned(1, v6, v9, v8, v7, Word(x, 15), 0xd8a1e681, 14)
    requires v11 == Turned(1, v7, v10, v9, v8, Word(x, 4), 0xe7d3fbc8, 20)
    requires v12 == Turned(1, v8, v11, v10, v9, Word(x, 9), 0x21e1cde6, 5)
    requires v13 == Turned(1, v9, v12, v11, v10, Word(x, 14), 0xc33707d6, 9)
    requires v14 == Turned(1, v10, v13, v12, v11, Word(x, 3), 0xf4d50d87, 14)
    requires v15 == Turned(1, v11, v14, v13, v12, Word(x, 8), 0x455a14ed, 20)
    requires v16 == Turned(1, v12, v15, v14, v13, Word(x, 13), 0xa9e3e905, 5)
    requires v17 == Turned(1, v13, v16, v15, v14, Word(x, 2), 0xfcefa3f8, 9)
    requires v18 == Turned(1, v14, v17, v16, v15, Word(x, 7), 0x676f02d9, 14)
    requires v19 == Turned(1, v15, v18, v17, v16, Word(x, 12), 0x8d2a4c8a, 20)
    ensures Round(1, 16, StateOf(v0, v3, v2, v1), x) == StateOf(v16, v19, v18, v17)
  {
    hide *;
    var s := StateOf(v0, v3, v2, v1);
    AllWordsAre(x);
    Start(1, s, x);
    Table1();
    Order1();
    Turn(1, 0, s, x, v0, v3, v2, v1, Word(x, 1), 0xf61e2562, 5, v4);
    Turn(1, 1, s, x, v1, v4, v3, v2, Word(x, 6), 0xc040b340, 9, v5);
    Turn(1, 2, s, x, v2, v5, v4, v3, Word(x, 11), 0x265e5a51, 14, v6);
    Turn(1, 3, s, x, v3, v6, v5, v4, Word(x, 0), 0xe9b6c7aa, 20, v7);
    Turn(1, 4, s, x, v4, v7, v6, v5, Word(x, 5), 0xd62f105d, 5, v8);
    Turn(1, 5, s, x, v5, v8, v7, v6, Word(x, 10), 0x02441453, 9, v9);
    Turn(1, 6, s, x, v6, v9, v8, v7, Word(x, 15), 0xd8a1e681, 14, v10);
    Turn(1, 7, s, x, v7, v10, v9, v8, Word(x, 4), 0xe7d3fbc8, 20, v11);
    Turn(1, 8, s, x, v8, v11, v10, v9, Word(x, 9), 0x21e1cde6, 5, v12);
    Turn(1, 9, s, x, v9, v12, v11, v10, Word(x, 14), 0xc33707d6, 9, v13);
    Turn(1, 10, s, x, v10, v13, v12, v11, Word(x, 3), 0xf4d50d87, 14, v14);
    Turn(1, 11, s, x, v11, v14, v13, v12, Word(x, 8), 0x455a14ed, 20, v15);
    Turn(1, 12, s, x, v12, v15, v14, v13, Word(x, 13), 0xa9e3e905, 5, v16);
    Turn(1, 13, s, x, v13, v16, v15, v14, Word(x, 2), 0xfcefa3f8, 9, v17);
    Turn(1, 14, s, x, v14, v17, v16, v15, Word(x, 7), 0x676f02d9, 14, v18);
    Turn(1, 15, s, x, v15, v18, v17, v16, Word(x, 12), 0x8d2a4c8a, 20, v19);
  }

  lemma Table2()
    ensures T(2, 0) == Value(0xfffa3942) && S(2, 0) == 4
    ensures T(2, 1) == Value(0x8771f681) && S(2, 1) == 11
    ensures T(2, 2) == Value(0x6d9d6122) && S(2, 2) == 16
    ensures T(2, 3) == Value(0xfde5380c) && S(2, 3) == 23
    ensures T(2, 4) == Value(0xa4beea44) && S(2, 4) == 4
    ensures T(2, 5) == Value(0x4bdecfa9) && S(2, 5) == 11
    ensures T(2, 6) == Value(0xf6bb4b60) && S(2, 6) == 16
    ensures T(2, 7) == Value(0xbebfbc70) && S(2, 7) == 23
    ensures T(2, 8) == Value(0x289b7ec6) && S(2, 8) == 4
    ensures T(2, 9) == Value(0xeaa127fa) && S(2, 9) == 11
    ensures T(2, 10) == Value(0xd4ef3085) && S(2, 10) == 16
    ensures T(2, 11) == Value(0x04881d05) && S(2, 11) == 23
    ensures T(2, 12) == Value(0xd9d4d039) && S(2, 12) == 4
    ensures T(2, 13) == Value(0xe6db99e5) && S(2, 13) == 11
    ensures T(2, 14) == Value(0x1fa27cf8) && S(2, 14) == 16
    ensures T(2, 15) == Value(0xc4ac5665) && S(2, 15) == 23
  {
  }

  lemma Order2()
    ensures K(2, 0) == 5 && K(2, 1) == 8 && K(2, 2) == 11 && K(2, 3) == 14
    ensures K(2, 4) == 1 && K(2, 5) == 4 && K(2, 6) == 7 && K(2, 7) == 10
    ensures K(2, 8) == 13 && K(2, 9) == 0 && K(2, 10) == 3 && K(2, 11) == 6
    ensures K(2, 12) == 9 && K(2, 13) == 12 && K(2, 14) == 15 && K(2, 15) == 2
  {
  }

  lemma Round2(x: seq<uint32>, v0: bv32, v1: bv32, v2: bv32, v3: bv32, v4: bv32, v5: bv32, v6: bv32, v7: bv32,
                v8: bv32, v9: bv32, v10: bv32, v11: bv32, v12: bv32, v13: bv32, v14: bv32, v15: bv32, v16: bv32,
                v17: bv32, v18: bv32, v19: bv32)
    requires |x| == 16
    requires v4 == Turned(2, v0, v3, v2, v1, Word(x, 5), 0xfffa3942, 4)
    requires v5 == Turned(2, v1, v4, v3, v2, Word(x, 8), 0x8771f681, 11)
    requires v6 == Turned(2, v2, v5, v4, v3, Word(x, 11), 0x6d9d6122, 16)
    requires v7 == Turned(2, v3, v6, v5, v4, Word(x, 14), 0xfde5380c, 23)
    requires v8 == Turned(2, v4, v7, v6, v5, Word(x, 1), 0xa4beea44, 4)
    requires v9 == Turned(2, v5, v8, v7, v6, Word(x, 4), 0x4bdecfa9, 11)
    requires v10 == Turned(2, v6, v9, v8, v7, Word(x, 7), 0xf6bb4b60, 16)
    requires v11 == Turned(2, v7, v10, v9, v8, Word(x, 10), 0xbebfbc70, 23)
    requires v12 == Turned(2, v8, v11, v10, v9, Word(x, 13), 0x289b7ec6, 4)
    requires v13 == Turned(2, v9, v12, v11, v10, Word(x, 0), 0xeaa127fa, 11)
    requires v14 == Turned(2, v10, v13, v12, v11, Word(x, 3), 0xd4ef3085, 16)
    requires v15 == Turned(2, v11, v14, v13, v12, Word(x, 6), 0x04881d05, 23)
    requires v16 == Turned(2, v12, v15, v14, v13, Word(x, 9), 0xd9d4d039, 4)
    requires v17 == Turned(2, v13, v16, v15, v14, Word(x, 12), 0xe6db99e5, 11)
    requires v18 == Turned(2, v14, v17, v16, v15, Word(x, 15), 0x1fa27cf8, 16)
    requires v19 == Turned(2, v15, v18, v17, v16, Word(x, 2), 0xc4ac5665, 23)
    ensures Round(2, 16, StateOf(v0, v3, v2, v1), x) == StateOf(v16, v19, v18, v17)
  {
    hide *;
    var s := StateOf(v0, v3, v2, v1);
    AllWordsAre(x);
    Start(2, s, x);
    Table2();
    Order2();
    Turn(2, 0, s, x, v0, v3, v2, v1, Word(x, 5), 0xfffa3942, 4, v4);
    Turn(2, 1, s, x, v1, v4, v3, v2, Word(x, 8), 0x8771f681, 11, v5);
    Turn(2, 2, s, x, v2, v5, v4, v3, Word(x, 11), 0x6d9d6122, 16, v6);
    Turn(2, 3, s, x, v3, v6, v5, v4, Word(x, 14), 0xfde5380c, 23, v7);
    Turn(2, 4, s, x, v4, v7, v6, v5, Word(x, 1), 0xa4beea44, 4, v8);
    Turn(2, 5, s, x, v5, v8, v7, v6, Word(x, 4), 0x4bdecfa9, 11, v9);
    Turn(2, 6, s, x, v6, v9, v8, v7, Word(x, 7), 0xf6bb4b60, 16, v10);
    Turn(2, 7, s, x, v7, v10, v9, v8, Word(x, 10), 0xbebfbc70, 23, v11);
    Turn(2, 8, s, x, v8, v11, v10, v9, Word(x, 13), 0x289b7ec6, 4, v12);
    Turn(2, 9, s, x, v9, v12, v11, v10, Word(x, 0), 0xeaa127fa, 11, v13);
    Turn(2, 10, s, x, v10, v13, v12, v11, Word(x, 3), 0xd4ef3085, 16, v14);
    Turn(2, 11, s, x, v11, v14, v13, v12, Word(x, 6), 0x04881d05, 23, v15);
    Turn(2, 12, s, x, v12, v15, v14, v13, Word(x, 9), 0xd9d4d039, 4, v16);
    Turn(2, 13, s, x, v13, v16, v15, v14, Word(x, 12), 0xe6db99e5, 11, v17);
    Turn(2, 14, s, x, v14, v17, v16, v15, Word(x, 15), 0x1fa27cf8, 16, v18);
    Turn(2, 15, s, x, v15, v18, v17, v16, Word(x, 2), 0xc4ac5665, 23, v19);
  }

  lemma Table3()
    ensures T(3, 0) == Value(0xf4292244) && S(3, 0) == 6
    ensures T(3, 1) == Value(0x432aff97) && S(3, 1) == 10
    ensures T(3, 2) == Value(0xab9423a7) && S(3, 2) == 15
    ensures T(3, 3) == Value(0xfc93a039) && S(3, 3) == 21
    ensures T(3, 4) == Value(0x655b59c3) && S(3, 4) == 6
    ensures T(3, 5) == Value(0x8f0ccc92) && S(3, 5) == 10
    ensures T(3, 6) == Value(0xffeff47d) && S(3, 6) == 15
    ensures T(3, 7) == Value(0x85845dd1) && S(3, 7) == 21
    ensures T(3, 8) == Value(0x6fa87e4f) && S(3, 8) == 6
    ensures T(3, 9) == Value(0xfe2ce6e0) && S(3, 9) == 10
    ensures T(3, 10) == Value(0xa3014314) && S(3, 10) == 15
    ensures T(3, 11) == Value(0x4e0811a1) && S(3, 11) == 21
    ensures T(3, 12) == Value(0xf7537e82) && S(3, 12) == 6
    ensures T(3, 13) == Value(0xbd3af235) && S(3, 13) == 10
    ensures T(3, 14) == Value(0x2ad7d2bb) && S(3, 14) == 15
    ensures T(3, 15) == Value(0xeb86d391) && S(3, 15) == 21
  {
  }

  lemma Order3()
    ensures K(3, 0) == 0 && K(3, 1) == 7 && K(3, 2) == 14 && K(3, 3) == 5
    ensures K(3, 4) == 12 && K(3, 5) == 3 && K(3, 6) == 10 && K(3, 7) == 1
    ensures K(3, 8) == 8 && K(3, 9) == 15 && K(3, 10) == 6 && K(3, 11) == 13
    ensures K(3, 12) == 4 && K(3, 13) == 11 && K(3, 14) == 2 && K(3, 15) == 9
  {
  }

  lemma Round3(x: seq<uint32>, v0: bv32, v1: bv32, v2: bv32, v3: bv32, v4: bv32, v5: bv32, v6: bv32, v7: bv32,
                v8: bv32, v9: bv32, v10: bv32, v11: bv32, v12: bv32, v13: bv32, v14: bv32, v15: bv32, v16: bv32,
                v17: bv32, v18: bv32, v19: bv32)
    requires |x| == 16
    requires v4 == Turned(3, v0, v3, v2, v1, Word(x, 0), 0xf4292244, 6)
    requires v5 == Turned(3, v1, v4, v3, v2, Word(x, 7), 0x432aff97, 10)
    requires v6 == Turned(3, v2, v5, v4, v3, Word(x, 14), 0xab9423a7, 15)
    requires v7 == Turned(3, v3, v6, v5, v4, Word(x, 5), 0xfc93a039, 21)
    requires v8 == Turned(3, v4, v7, v6, v5, Word(x, 12), 0x655b59c3, 6)
    requires v9 == Turned(3, v5, v8, v7, v6, Word(x, 3), 0x8f0ccc92, 10)
    requires v10 == Turned(3, v6, v9, v8, v7, Word(x, 10), 0xffeff47d, 15)
    requires v11 == Turned(3, v7, v10, v9, v8, Word(x, 1), 0x85845dd1, 21)
    requires v12 == Turned(3, v8, v11, v10, v9, Word(x, 8), 0x6fa87e4f, 6)
    requires v13 == Turned(3, v9, v12, v11, v10, Word(x, 15), 0xfe2ce6e0, 10)
    requires v14 == Turned(3, v10, v13, v12, v11, Word(x, 6), 0xa3014314, 15)
    requires v15 == Turned(3, v11, v14, v13, v12, Word(x, 13), 0x4e0811a1, 21)
    requires v16 == Turned(3, v12, v15, v14, v13, Word(x, 4), 0xf7537e82, 6)
    requires v17 == Turned(3, v13, v16, v15, v14, Word(x, 11), 0xbd3af235, 10)
    requires v18 == Turned(3, v14, v17, v16, v15, Word(x, 2), 0x2ad7d2bb, 15)
    requires v19 == Turned(3, v15, v18, v17, v16, Word(x, 9), 0xeb86d391, 21)
    ensures Round(3, 16, StateOf(v0, v3, v2, v1), x) == StateOf(v16, v19, v18, v17)
  {
    hide *;
    var s := StateOf(v0, v3, v2, v1);
    AllWordsAre(x);
    Start(3, s, x);
    Table3();
    Order3();
    Turn(3, 0, s, x, v0, v3, v2, v1, Word(x, 0), 0xf4292244, 6, v4);
    Turn(3, 1, s, x, v1, v4, v3, v2, Word(x, 7), 0x432aff97, 10, v5);
    Turn(3, 2, s, x, v2, v5, v4, v3, Word(x, 14), 0xab9423a7, 15, v6);
    Turn(3, 3, s, x, v3, v6, v5, v4, Word(x, 5), 0xfc93a039, 21, v7);
    Turn(3, 4, s, x, v4, v7, v6, v5, Word(x, 12), 0x655b59c3, 6, v8);
    Turn(3, 5, s, x, v5, v8, v7, v6, Word(x, 3), 0x8f0ccc92, 10, v9);
    Turn(3, 6, s, x, v6, v9, v8, v7, Word(x, 10), 0xffeff47d, 15, v10);
    Turn(3, 7, s, x, v7, v10, v9, v8, Word(x, 1), 0x85845dd1, 21, v11);
    Turn(3, 8, s, x, v8, v11, v10, v9, Word(x, 8), 0x6fa87e4f, 6, v12);
    Turn(3, 9, s, x, v9, v12, v11, v10, Word(x, 15), 0xfe2ce6e0, 10, v13);
    Turn(3, 10, s, x, v10, v13, v12, v11, Word(x, 6), 0xa3014314, 15, v14);
    Turn(3, 11, s, x, v11, v14, v13, v12, Word(x, 13), 0x4e0811a1, 21, v15);
    Turn(3, 12, s, x, v12, v15, v14, v13, Word(x, 4), 0xf7537e82, 6, v16);
    Turn(3, 13, s, x, v13, v16, v15, v14, Word(x, 11), 0xbd3af235, 10, v17);
    Turn(3, 14, s, x, v14, v17, v16, v15, Word(x, 2), 0x2ad7d2bb, 15, v18);
    Turn(3, 15, s, x, v15, v18, v17, v16, Word(x, 9), 0xeb86d391, 21, v19);
  }

  lemma FourRounds(s: State, x: seq<uint32>, s1: State, s2: State, s3: State)
    requires |x| == 16
    requires Round(0, 16, s, x) == s1 && Round(1, 16, s1, x) == s2 && Round(2, 16, s2, x) == s3
    ensures Rounds(4, s, x) == Round(3, 16, s3, x)
  {
    hide Round;
    assert Rounds(1, s, x) == s1;
    assert Rounds(2, s, x) == s2;
    assert Rounds(3, s, x) == s3;
  }

  /** The i-th word of a block and those behind it. */
  predicate FourWords(x: seq<uint32>, i: nat, k0: bv32, k1: bv32, k2: bv32, k3: bv32)
    requires i + 4 <= |x|
  {
    Word(x, i) == k0 && Word(x, i + 1) == k1 && Word(x, i + 2) == k2 && Word(x, i + 3) == k3
  }

  lemma WordAt(block: seq<byte>, i: nat, k: bv32)
    requires |block| == 64 && i < 16
    requires FourBytes(block, 4 * i) == Value(k)
    ensures Word(WordsOf(block), i) == k
  {
    hide Value, Word;
    WordOf(WordsOf(block), i, k);
  }

  /** What a block makes of the registers. */
  lemma CompressIs(block: seq<byte>, s: State, r: State)
    requires |block| == 64 && Rounds(4, s, WordsOf(block)) == r
    ensures Compress(s, block) == State(Add(r.a, s.a), Add(r.b, s.b), Add(r.c, s.c), Add(r.d, s.d))
  {
    hide Rounds, WordsOf, Add;
  }

  lemma OneBlock(s: State, block: seq<byte>)
    requires |block| == 64
    ensures CompressAll(s, block) == Compress(s, block)
  {
    hide Compress;
    CompressAllNext(s, [], block);
    assert [] + block == block;
  }

  // ---- The empty message ----

  predicate EmptyWords(x: seq<uint32>)
    requires |x| == 16
  {
    Word(x, 0) == 0x80 && forall i | 0 < i < 16 :: Word(x, i) == 0
  }

  lemma EmptyRounds0(x: seq<uint32>)
    requires |x| == 16 && EmptyWords(x)
    ensures Round(0, 16, StateOf(0x67452301, 0xefcdab89, 0x98badcfe, 0x10325476), x) ==
            StateOf(0xf56c7cf1, 0xd6819c6a, 0x5aa53f75, 0x374943a7)
  {
    hide Round, StateOf, Word;
    Round0(x, 0x67452301, 0x10325476, 0x98badcfe, 0xefcdab89, 0xa5202774, 0xf59592dd, 0xe7f06b23, 0x1b163203,
           0x32033344, 0x2f35d494, 0xf5b158db, 0x9bc13ce9, 0x3893b991, 0xfce4a312, 0xe1ef0576, 0x70768a29,
           0xf56c7cf1, 0x374943a7, 0x5aa53f75, 0xd6819c6a);
  }

  lemma EmptyRounds1(x: seq<uint32>)
    requires |x| == 16 && EmptyWords(x)
    ensures Round(1, 16, StateOf(0xf56c7cf1, 0xd6819c6a, 0x5aa53f75, 0x374943a7), x) ==
            StateOf(0x13707036, 0xa2205f1f, 0x1c31c384, 0xae7813db)
  {
    hide Round, StateOf, Word;
    Round1(x, 0xf56c7cf1, 0x374943a7, 0x5aa53f75, 0xd6819c6a, 0x1c7d7513, 0x7bd57a3a, 0xc095f13a, 0xbd782e17,
           0x3d1e3e6c, 0x68b7b3e3, 0xeb41643e, 0xe422531a, 0x306ec122, 0xd28c77c2, 0xa3c663da, 0xa0572807,
           0x13707036, 0xae7813db, 0x1c31c384, 0xa2205f1f);
  }

  lemma EmptyRounds2(x: seq<uint32>)
    requires |x| == 16 && EmptyWords(x)
    ensures Round(2, 16, StateOf(0x13707036, 0xa2205f1f, 0x1c31c384, 0xae7813db), x) ==
            StateOf(0x3f55edfd, 0xca7d2dbd, 0x68d84ea2, 0x22a31f54)
  {
    hide Round, StateOf, Word;
    Round2(x, 0x13707036, 0xae7813db, 0x1c31c384, 0xa2205f1f, 0xdf63eaa1, 0xc3689f5b, 0x12f3e755, 0x004b6669,
           0x5f7a9b2e, 0xabc34e16, 0x91ca4cb7, 0xc5dc8c15, 0x4497169d, 0x76fd93d4, 0xfd95f243, 0x0fe32453,
           0x3f55edfd, 0x22a31f54, 0x68d84ea2, 0xca7d2dbd);
  }

  lemma EmptyRounds3(x: seq<uint32>)
    requires |x| == 16 && EmptyWords(x)
    ensures Round(3, 16, StateOf(0x3f55edfd, 0xca7d2dbd, 0x68d84ea2, 0x22a31f54), x) ==
            StateOf(0x7246fad3, 0x14e45506, 0xff4ea3eb, 0x6e10a476)
  {
    hide Round, StateOf, Word;
    Round3(x, 0x3f55edfd, 0x22a31f54, 0x68d84ea2, 0xca7d2dbd, 0x93aa2577, 0x1688dc85, 0xcd85b8cb, 0x561e0689,
           0x5625a114, 0x3450f42b, 0x392ad0d0, 0x1e77fa61, 0x474a9c8c, 0xdfce00bc, 0x36594b14, 0x30130182,
           0x7246fad3, 0x6e10a476, 0xff4ea3eb, 0x14e45506);
  }

  lemma EmptyRounds(x: seq<uint32>)
    requires |x| == 16 && EmptyWords(x)
    ensures Rounds(4, StateOf(0x67452301, 0xefcdab89, 0x98badcfe, 0x10325476), x) ==
            StateOf(0x7246fad3, 0x14e45506, 0xff4ea3eb, 0x6e10a476)
  {
    hide *;
    EmptyRounds0(x);
    EmptyRounds1(x);
    EmptyRounds2(x);
    EmptyRounds3(x);
    FourRounds(StateOf(0x67452301, 0xefcdab89, 0x98badcfe, 0x10325476), x,
               StateOf(0xf56c7cf1, 0xd6819c6a, 0x5aa53f75, 0x374943a7),
               StateOf(0x13707036, 0xa2205f1f, 0x1c31c384, 0xae7813db),
               StateOf(0x3f55edfd, 0xca7d2dbd, 0x68d84ea2, 0x22a31f54));
  }

  // ---- The letters and digits ----

  predicate FirstWords(x: seq<uint32>)
    requires |x| == 16
  {
    && FourWords(x, 0, 0x44434241, 0x48474645, 0x4c4b4a49, 0x504f4e4d)
    && FourWords(x, 4, 0x54535251, 0x58575655, 0x62615a59, 0x66656463)
    && FourWords(x, 8, 0x6a696867, 0x6e6d6c6b, 0x7271706f, 0x76757473)
    && FourWords(x, 12, 0x7a797877, 0x33323130, 0x37363534, 0x00803938)
  }

  predicate SecondWords(x: seq<uint32>)
    requires |x| == 16
  {
    Word(x, 14) == 0x1f0 && forall i | 0 <= i < 16 && i != 14 :: Word(x, i) == 0
  }

  lemma FirstRounds0(x: seq<uint32>)
    requires |x| == 16 && FirstWords(x)
    ensures Round(0, 16, StateOf(0x67452301, 0xefcdab89, 0x98badcfe, 0x10325476), x) ==
            StateOf(0x3cbdcd45, 0x5d38e690, 0xfa148c8a, 0xb8dec763)
  {
    hide Round, StateOf, Word;
    Round0(x, 0x67452301, 0x10325476, 0x98badcfe, 0xefcdab89, 0xc6c10796, 0x99a09999, 0x11067980, 0x27bce07a,
           0xf22e6c4e, 0xb4ac9218, 0xa95a2fc0, 0xa4799506, 0x1eb3e7c1, 0xa6e70cfe, 0xca27520b, 0x8a7612ec,
           0x3cbdcd45, 0xb8dec763, 0xfa148c8a, 0x5d38e690);
  }

  lemma FirstRounds1(x: seq<uint32>)
    requires |x| == 16 && FirstWords(x)
    ensures Round(1, 16, StateOf(0x3cbdcd45, 0x5d38e690, 0xfa148c8a, 0xb8dec763), x) ==
            StateOf(0x9b085fa9, 0xdd789ecc, 0x5993248f, 0x4400a9bd)
  {
    hide Round, StateOf, Word;
    Round1(x, 0x3cbdcd45, 0xb8dec763, 0xfa148c8a, 0x5d38e690, 0x04b9d52a, 0x783002eb, 0xd3ee3ed1, 0x47ae7c81,
           0x2d7d8a3f, 0xd1210823, 0x4b534dc3, 0x75292030, 0x9d2a6e33, 0x0e8d2e44, 0xd473b564, 0xf2ff6ea0,
           0x9b085fa9, 0x4400a9bd, 0x5993248f, 0xdd789ecc);
  }

  lemma FirstRounds2(x: seq<uint32>)
    requires |x| == 16 && FirstWords(x)
    ensures Round(2, 16, StateOf(0x9b085fa9, 0xdd789ecc, 0x5993248f, 0x4400a9bd), x) ==
            StateOf(0x2dbee21d, 0xf166f514, 0xee46e961, 0xe95c3a43)
  {
    hide Round, StateOf, Word;
    Round2(x, 0x9b085fa9, 0x4400a9bd, 0x5993248f, 0xdd789ecc, 0x21c8d2b7, 0x1d55a18e, 0x056ec119, 0x1b9504f8,
           0x436b7fe9, 0x075800c1, 0xf404c2f6, 0xcf0341ed, 0x888e7d8a, 0xbbdaecd8, 0xce620273, 0x047b9419,
           0x2dbee21d, 0xe95c3a43, 0xee46e961, 0xf166f514);
  }

  lemma FirstRounds3(x: seq<uint32>)
    requires |x| == 16 && FirstWords(x)
    ensures Round(3, 16, StateOf(0x2dbee21d, 0xf166f514, 0xee46e961, 0xe95c3a43), x) ==
            StateOf(0x1cb80f0a, 0xef2e3a46, 0x10f68731, 0xea3d3eb4)
  {
    hide Round, StateOf, Word;
    Round3(x, 0x2dbee21d, 0xe95c3a43, 0xee46e961, 0xf166f514, 0xe47fd4f3, 0xfb887751, 0xf22aedcc, 0x7a13bc5c,
           0xa691d430, 0x528452f2, 0x3fc23df6, 0xefb0e72f, 0x27145703, 0x21a11069, 0x374fbe79, 0x49d9a5b4,
           0x1cb80f0a, 0xea3d3eb4, 0x10f68731, 0xef2e3a46);
  }

  lemma FirstRounds(x: seq<uint32>)
    requires |x| == 16 && FirstWords(x)
    ensures Rounds(4, StateOf(0x67452301, 0xefcdab89, 0x98badcfe, 0x10325476), x) ==
            StateOf(0x1cb80f0a, 0xef2e3a46, 0x10f68731, 0xea3d3eb4)
  {
    hide *;
    FirstRounds0(x);
    FirstRounds1(x);
    FirstRounds2(x);
    FirstRounds3(x);
    FourRounds(StateOf(0x67452301, 0xefcdab89, 0x98badcfe, 0x10325476), x,
               StateOf(0x3cbdcd45, 0x5d38e690, 0xfa148c8a, 0xb8dec763),
               StateOf(0x9b085fa9, 0xdd789ecc, 0x5993248f, 0x4400a9bd),
               StateOf(0x2dbee21d, 0xf166f514, 0xee46e961, 0xe95c3a43));
  }

  lemma SecondRounds0(x: seq<uint32>)
    requires |x| == 16 && SecondWords(x)
    ensures Round(0, 16, StateOf(0x83fd320b, 0xdefbe5cf, 0xa9b1642f, 0xfa6f932a), x) ==
            StateOf(0xa70737da, 0xa36f556f, 0x96f6586e, 0x5473f8a7)
  {
    hide Round, StateOf, Word;
    Round0(x, 0x83fd320b, 0xfa6f932a, 0xa9b1642f, 0xdefbe5cf, 0xeda23ed1, 0x989939cf, 0x3c307338, 0xddcf0634,
           0x75144433, 0xc8875807, 0xc783cb60, 0x99b6b699, 0xa60a3f69, 0xaa6630be, 0x64db26e9, 0x64cc7c5a,
           0xa70737da, 0x5473f8a7, 0x96f6586e, 0xa36f556f);
  }

  lemma SecondRounds1(x: seq<uint32>)
    requires |x| == 16 && SecondWords(x)
    ensures Round(1, 16, StateOf(0xa70737da, 0xa36f556f, 0x96f6586e, 0x5473f8a7), x) ==
            StateOf(0x24eba695, 0x9c03e2e8, 0x10c42a2f, 0x4bd0378b)
  {
    hide Round, StateOf, Word;
    Round1(x, 0xa70737da, 0x5473f8a7, 0x96f6586e, 0xa36f556f, 0xa5050ad3, 0x28776046, 0x27dcd8b4, 0x82b8827c,
           0xe04f070c, 0x2f3cd2a2, 0xc0d22b61, 0xdf35cb56, 0x242dd210, 0x576ace33, 0x5c295967, 0x2291191a,
           0x24eba695, 0x4bd0378b, 0x10c42a2f, 0x9c03e2e8);
  }

  lemma SecondRounds2(x: seq<uint32>)
    requires |x| == 16 && SecondWords(x)
    ensures Round(2, 16, StateOf(0x24eba695, 0x9c03e2e8, 0x10c42a2f, 0x4bd0378b), x) ==
            StateOf(0x54c9eb3a, 0x79c0710a, 0x2ec86f72, 0xd4d9c6ac)
  {
    hide Round, StateOf, Word;
    Round2(x, 0x24eba695, 0x4bd0378b, 0x10c42a2f, 0x9c03e2e8, 0x5be1d526, 0x9e414279, 0x9f4a1a7e, 0xa2448453,
           0xe14e403d, 0xe8cfd670, 0x60cc183a, 0xfe314121, 0xfff62809, 0xe37209ac, 0x8cb5221c, 0x7c7e974c,
           0x54c9eb3a, 0xd4d9c6ac, 0x2ec86f72, 0x79c0710a);
  }

  lemma SecondRounds3(x: seq<uint32>)
    requires |x| == 16 && SecondWords(x)
    ensures Round(3, 16, StateOf(0x54c9eb3a, 0x79c0710a, 0x2ec86f72, 0xd4d9c6ac), x) ==
            StateOf(0x14ae42c6, 0x16dd9203, 0x826afd76, 0xa52dae75)
  {
    hide Round, StateOf, Word;
    Round3(x, 0x54c9eb3a, 0xd4d9c6ac, 0x2ec86f72, 0x79c0710a, 0x02095af1, 0x13d245fd, 0xa8dcfe26, 0x2ba98e3f,
           0xe126c1aa, 0x96b00fa7, 0x6f287ff5, 0xfb7bcee0, 0x452c1099, 0xca801ba6, 0xc197ea8e, 0x5ac74608,
           0x14ae42c6, 0xa52dae75, 0x826afd76, 0x16dd9203);
  }

  lemma SecondRounds(x: seq<uint32>)
    requires |x| == 16 && SecondWords(x)
    ensures Rounds(4, StateOf(0x83fd320b, 0xdefbe5cf, 0xa9b1642f, 0xfa6f932a), x) ==
            StateOf(0x14ae42c6, 0x16dd9203, 0x826afd76, 0xa52dae75)
  {
    hide *;
    SecondRounds0(x);
    SecondRounds1(x);
    SecondRounds2(x);
    SecondRounds3(x);
    FourRounds(StateOf(0x83fd320b, 0xdefbe5cf, 0xa9b1642f, 0xfa6f932a), x,
               StateOf(0xa70737da, 0xa36f556f, 0x96f6586e, 0x5473f8a7),
               StateOf(0x24eba695, 0x9c03e2e8, 0x10c42a2f, 0x4bd0378b),
               StateOf(0x54c9eb3a, 0x79c0710a, 0x2ec86f72, 0xd4d9c6ac));
  }

  // ---- The two digests ----

  lemma EmptyPadded()
    ensures var p := Padded([]); |p| == 64 && p[0] == 0x80 && forall i | 0 < i < 64 :: p[i] == 0
  {
    PaddedEnds([]);
    hide Padded;
    var p := Padded([]);
    assert |p| == 64 && p[56..] == [0, 0, 0, 0, 0, 0, 0, 0];
    forall i | 56 <= i < 64
      ensures p[i] == 0
    {
      assert p[i] == p[56..][i - 56];
    }
  }

  lemma EmptyBlock(p: seq<byte>)
    requires |p| == 64 && p[0] == 0x80 && forall i | 0 < i < 64 :: p[i] == 0
    ensures EmptyWords(WordsOf(p))
  {
    hide Word, WordsOf;
    WordAt(p, 0, 0x80);
    forall i | 0 < i < 16
      ensures Word(WordsOf(p), i) == 0
    {
      WordAt(p, i, 0);
    }
  }

  lemma EmptyCompressed(b: seq<byte>)
    requires |b| == 64 && EmptyWords(WordsOf(b))
    ensures Compress(INITIAL, b) == State(0xd98c1dd4, 0x04b2008f, 0x980980e9, 0x7e42f8ec)
  {
    hide Compress, Rounds, WordsOf, EmptyWords;
    EmptyRounds(WordsOf(b));
    CompressIs(b, INITIAL, StateOf(0x7246fad3, 0x14e45506, 0xff4ea3eb, 0x6e10a476));
  }

  /** MD5 (""), as the test suite gives it. */
  lemma EmptyDigest()
    ensures Digest([]) == [0xd4, 0x1d, 0x8c, 0xd9, 0x8f, 0x00, 0xb2, 0x04,
                           0xe9, 0x80, 0x09, 0x98, 0xec, 0xf8, 0x42, 0x7e]
  {
    hide Compress, CompressAll, Padded, WordsOf;
    var p := Padded([]);
    EmptyPadded();
    EmptyBlock(p);
    EmptyCompressed(p);
    OneBlock(INITIAL, p);
  }

  /** The capital letters, the small letters and the digits, as ASCII codes. */
  predicate LettersAndDigits(m: seq<byte>) {
    && |m| == 62
    && (forall i | 0 <= i < 26 :: m[i] == 'A' as int + i)
    && (forall i | 26 <= i < 52 :: m[i] == 'a' as int + i - 26)
    && (forall i | 52 <= i < 62 :: m[i] == '0' as int + i - 52)
  }

  lemma LettersPadded(m: seq<byte>)
    requires LettersAndDigits(m)
    ensures var p := Padded(m);
      && |p| == 128 && p[..62] == m && p[62] == 0x80 && p[63] == 0
      && p[120] == 0xf0 && p[121] == 1 && forall i | 64 <= i < 128 && i != 120 && i != 121 :: p[i] == 0
  {
    PaddedEnds(m);
    hide Padded;
    var p := Padded(m);
    assert |p| == 128 && p[120..] == [0xf0, 1, 0, 0, 0, 0, 0, 0];
    forall i | 120 <= i < 128
      ensures p[i] == if i == 120 then 0xf0 else if i == 121 then 1 else 0
    {
      assert p[i] == p[120..][i - 120];
    }
  }

  lemma FirstBlock(m: seq<byte>, b: seq<byte>)
    requires LettersAndDigits(m) && |b| == 64 && (forall i | 0 <= i < 62 :: b[i] == m[i]) && b[62] == 0x80 && b[63] == 0
    ensures FirstWords(WordsOf(b))
  {
    hide Word, WordsOf;
    WordAt(b, 0, 0x44434241);
    WordAt(b, 1, 0x48474645);
    WordAt(b, 2, 0x4c4b4a49);
    WordAt(b, 3, 0x504f4e4d);
    WordAt(b, 4, 0x54535251);
    WordAt(b, 5, 0x58575655);
    WordAt(b, 6, 0x62615a59);
    WordAt(b, 7, 0x66656463);
    WordAt(b, 8, 0x6a696867);
    WordAt(b, 9, 0x6e6d6c6b);
    WordAt(b, 10, 0x7271706f);
    WordAt(b, 11, 0x76757473);
    WordAt(b, 12, 0x7a797877);
    WordAt(b, 13, 0x33323130);
    WordAt(b, 14, 0x37363534);
    WordAt(b, 15, 0x00803938);
  }

  lemma SecondBlock(b: seq<byte>)
    requires |b| == 64 && b[56] == 0xf0 && b[57] == 1 && forall i | 0 <= i < 64 && i != 56 && i != 57 :: b[i] == 0
    ensures SecondWords(WordsOf(b))
  {
    hide Word, WordsOf;
    WordAt(b, 14, 0x1f0);
    forall i | 0 <= i < 16 && i != 14
      ensures Word(WordsOf(b), i) == 0
    {
      WordAt(b, i, 0);
    }
  }

  /** The registers behind the first block. */
  const MIDDLE: State := State(0x83fd320b, 0xdefbe5cf, 0xa9b1642f, 0xfa6f932a)

  lemma FirstCompressed(b: seq<byte>)
    requires |b| == 64 && FirstWords(WordsOf(b))
    ensures Compress(INITIAL, b) == MIDDLE
  {
    hide Compress, Rounds, WordsOf, FirstWords;
    FirstRounds(WordsOf(b));
    CompressIs(b, INITIAL, StateOf(0x1cb80f0a, 0xef2e3a46, 0x10f68731, 0xea3d3eb4));
  }

  lemma SecondCompressed(b: seq<byte>)
    requires |b| == 64 && SecondWords(WordsOf(b))
    ensures Compress(MIDDLE, b) == State(0x98ab74d1, 0xf5d977d2, 0x2c1c61a5, 0x9f9d419f)
  {
    hide Compress, Rounds, WordsOf, SecondWords;
    SecondRounds(WordsOf(b));
    CompressIs(b, MIDDLE, StateOf(0x14ae42c6, 0x16dd9203, 0x826afd76, 0xa52dae75));
  }

  lemma BlocksOf(m: seq<byte>, p: seq<byte>)
    requires LettersAndDigits(m) && p == Padded(m)
    ensures |p| == 128 && FirstWords(WordsOf(p[..64])) && SecondWords(WordsOf(p[64..]))
  {
    hide Padded, WordsOf, FirstWords, SecondWords;
    LettersPadded(m);
    assert forall i | 0 <= i < 62 :: p[i] == p[..62][i];
    FirstBlock(m, p[..64]);
    SecondBlock(p[64..]);
  }

  lemma LettersCompressed(m: seq<byte>)
    requires LettersAndDigits(m)
    ensures Aligned(|Padded(m)|)
    ensures CompressAll(INITIAL, Padded(m)) == State(0x98ab74d1, 0xf5d977d2, 0x2c1c61a5, 0x9f9d419f)
  {
    var p := Padded(m);
    BlocksOf(m, p);
    hide *;
    TwoBlocks(p);
    FirstCompressed(p[..64]);
    SecondCompressed(p[64..]);
  }

  lemma TwoBlocks(p: seq<byte>)
    requires |p| == 128
    ensures Aligned(|p|) && |p[..64]| == |p[64..]| == 64
    ensures CompressAll(INITIAL, p) == Compress(Compress(INITIAL, p[..64]), p[64..])
  {
    hide Compress, CompressAll;
    OneBlock(INITIAL, p[..64]);
    CompressAllNext(INITIAL, p[..64], p[64..]);
    assert p == p[..64] + p[64..];
  }

  /** MD5 ("ABCDEFGHIJKLMNOPQRSTUVWXYZabcdefghijklmnopqrstuvwxyz0123456789") */
  lemma LettersAndDigitsDigest(m: seq<byte>)
    requires LettersAndDigits(m)
    ensures Digest(m) == [0xd1, 0x74, 0xab, 0x98, 0xd2, 0x77, 0xd9, 0xf5,
                          0xa5, 0x61, 0x1c, 0x2c, 0x9f, 0x41, 0x9d, 0x9f]
  {
    hide Padded, CompressAll, LettersAndDigits;
    LettersCompressed(m);
  }
}
