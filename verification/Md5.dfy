/** The streaming MD5 of md5.c: a digest is computed from any number of calls,
    through a buffer of two blocks that is flushed as late as possible. */
module Md5 {
  import opened Words
  import opened Rfc1321
  import opened Md5Rounds

  const BLOCK_SIZE := 64
  const BUFFER_SIZE := 128

  /** memcpy, which demands that the two regions do not overlap. */
  method CopyBytes(dst: array<byte>, to: nat, src: array<byte>, from: nat, n: nat)
    requires to + n <= dst.Length && from + n <= src.Length
    requires dst != src || to + n <= from || from + n <= to
    modifies dst
    ensures dst[to..to + n] == old(src[from..from + n])
    ensures dst[..to] == old(dst[..to]) && dst[to + n..] == old(dst[to + n..])
  {
    forall i | 0 <= i < n {
      dst[to + i] := src[from + i];
    }
  }

  /** x & ~BLOCK_SIZE_MASK */
  function WholeBlocks(x: nat): (r: nat)
    ensures Aligned(r) && r <= x < r + BLOCK_SIZE
    ensures x >= BLOCK_SIZE ==> r >= BLOCK_SIZE
  {
    x - x % BLOCK_SIZE
  }

  /** What stays in the buffer of n bytes that have been put there: nothing is compressed
      before there is more than a block. */
  function Unflushed(n: nat): (r: nat)
    ensures r <= BLOCK_SIZE
  {
    if n > BLOCK_SIZE then n - WholeBlocks(n) else n
  }

  /** How many bytes are buffered after a call with len more. */
  function Kept(held: nat, len: nat): nat
    requires held <= BLOCK_SIZE
  {
    if held == 0 then Unflushed(len)
    else if held + len <= BUFFER_SIZE then Unflushed(held + len)
    else Unflushed(held + len - BUFFER_SIZE)
  }

  /** The same, from the bytes that are put behind the buffered ones first. */
  lemma KeptIs(held: nat, len: nat, add: nat)
    requires held <= BLOCK_SIZE
    requires add == if held == 0 then 0 else if held + len > BUFFER_SIZE then BUFFER_SIZE - held else len
    ensures add <= len && (held > 0 && add < len ==> Unflushed(held + add) == 0)
    ensures held > 0 && add == len ==> Kept(held, len) == Unflushed(held + add)
    ensures held == 0 && len == 0 ==> Kept(held, len) == 0
    ensures add < len ==> Kept(held, len) == Unflushed(len - add)
  {
  }

  /** Two words that hold n, kept to 64 bits. */
  predicate CountIs(low: uint32, high: uint32, n: nat) {
    low + 0x1_0000_0000 * high == n % 0x1_0000_0000_0000_0000
  }

  lemma CountMore(n: nat, k: nat, count: nat)
    requires count == n % 0x1_0000_0000_0000_0000
    ensures (count + k) % 0x1_0000_0000_0000_0000 == (n + k) % 0x1_0000_0000_0000_0000
  {
  }

  lemma Wraps(x: nat, y: nat)
    requires x < 0x1_0000_0000_0000_0000 && (y == x || y == x + 0x1_0000_0000_0000_0000)
    ensures y % 0x1_0000_0000_0000_0000 == x
  {
  }

  lemma CountWithoutCarry(low: uint32, high: uint32, k: uint32, n: nat)
    requires CountIs(low, high, n) && low <= MAX_UINT32 - k
    ensures CountIs(Add(low, k), high, n + k)
  {
    var count := low + 0x1_0000_0000 * high;
    CountMore(n, k, count);
    Wraps(count + k, count + k);
  }

  /** The sums of the branch that carries. */
  lemma CarrySums(low: uint32, high: uint32, k: uint32)
    requires low > MAX_UINT32 - k
    ensures Sub(low, Sub(Add(MAX_UINT32, 1), k)) == low + k - 0x1_0000_0000
    ensures Add(high, 1) == if high < MAX_UINT32 then high + 1 else 0
  {
    assert Sub(Add(MAX_UINT32, 1), k) == 0x1_0000_0000 - k;
  }

  lemma CountWithCarry(low: uint32, high: uint32, k: uint32, n: nat)
    requires CountIs(low, high, n) && low > MAX_UINT32 - k
    ensures CountIs(Sub(low, Sub(Add(MAX_UINT32, 1), k)), Add(high, 1), n + k)
  {
    var count := low + 0x1_0000_0000 * high;
    CountMore(n, k, count);
    CarrySums(low, high, k);
    hide Add, Sub;
    Wraps(if high < MAX_UINT32 then count + k else count + k - 0x1_0000_0000_0000_0000, count + k);
  }

  /** How many zeros follow 0x80, from the bytes that are left over. */
  lemma PadCount(n: nat, held: nat)
    requires Aligned(n) && held <= BLOCK_SIZE
    ensures ZeroCount(n + held) == if held < 56 then 55 - held else 119 - held
  {
    assert (n + held) % 64 == held % 64;
  }

  lemma EightTimes(count: nat, n: nat)
    requires count == n % 0x1_0000_0000_0000_0000
    ensures 8 * count % 0x1_0000_0000_0000_0000 == 8 * n % 0x1_0000_0000_0000_0000
  {
    var q := n / 0x1_0000_0000_0000_0000;
    assert 8 * n == 8 * count + 8 * q * 0x1_0000_0000_0000_0000;
  }

  lemma Halves(low: uint32, high: uint32, bits: nat)
    requires low + 0x1_0000_0000 * high == bits
    ensures low == bits % 0x1_0000_0000 && high == bits / 0x1_0000_0000
  {
  }

  lemma BitHalves(low: uint32, high: uint32, count: nat, n: nat)
    requires count == n % 0x1_0000_0000_0000_0000
    requires low + 0x1_0000_0000 * high == 8 * count % 0x1_0000_0000_0000_0000
    ensures low == 8 * n % 0x1_0000_0000_0000_0000 % 0x1_0000_0000
    ensures high == 8 * n % 0x1_0000_0000_0000_0000 / 0x1_0000_0000
  {
    EightTimes(count, n);
    Halves(low, high, 8 * n % 0x1_0000_0000_0000_0000);
  }

  /** The two words are the length field of section 3.2 of RFC 1321. */
  lemma BitCount(low: uint32, high: uint32, n: nat)
    requires CountIs(low, high, n)
    ensures ToBytes(LengthLow(low)) + ToBytes(LengthHigh(low, high)) == LengthField(n)
  {
    hide LengthLow, LengthHigh, ToBytes;
    BitCountIsTimesEight(low, high);
    BitHalves(LengthLow(low), LengthHigh(low, high), low + 0x1_0000_0000 * high, n);
  }

  /** What is appended to the bytes that are left over, up to the length. */
  function PadBytes(held: nat): (s: seq<byte>)
    requires held <= BLOCK_SIZE
  {
    [0x80] + Zeros(if held < 56 then 55 - held else 119 - held)
  }

  /** What md5_finish makes of the buffered bytes completes the padded message. */
  lemma PaddedParts(done: seq<byte>, held: seq<byte>, low: uint32, high: uint32, buffer: seq<byte>)
    requires Aligned(|done|) && |held| <= BLOCK_SIZE && CountIs(low, high, |done + held|)
    requires buffer == held + PadBytes(|held|) + ToBytes(LengthLow(low)) + ToBytes(LengthHigh(low, high))
    ensures done + buffer == Padded(done + held)
  {
    PadCount(|done|, |held|);
    BitCount(low, high, |done + held|);
    hide Zeros, ZeroCount, LengthField, LengthLow, LengthHigh, ToBytes;
  }

  /** One more block. */
  lemma BlockNext(s: State, bytes: seq<byte>, p: nat)
    requires Aligned(p) && p + BLOCK_SIZE <= |bytes|
    ensures CompressAll(s, bytes[..p + BLOCK_SIZE]) == Compress(CompressAll(s, bytes[..p]), bytes[p..p + BLOCK_SIZE])
  {
    hide CompressAll, Compress, Aligned;
    CompressAllNext(s, bytes[..p], bytes[p..p + BLOCK_SIZE]);
    assert bytes[..p] + bytes[p..p + BLOCK_SIZE] == bytes[..p + BLOCK_SIZE];
  }

  lemma NoBlock(s: State, bytes: seq<byte>)
    ensures Aligned(0) && CompressAll(s, bytes[..0]) == s && bytes[..|bytes|] == bytes
  {
  }

  /** The loop of process_block over whole blocks. */
  method CompressBlocks(a: uint32, b: uint32, c: uint32, d: uint32, src: array<byte>, from: nat, n: uint32)
    returns (A: uint32, B: uint32, C: uint32, D: uint32)
    requires Aligned(n) && from + n <= src.Length
    ensures State(A, B, C, D) == CompressAll(State(a, b, c, d), src[from..from + n])
  {
    hide CompressAll, Compress, Aligned;
    var s, bytes := State(a, b, c, d), src[from..from + n];
    var correct := new uint32[16];
    A, B, C, D := a, b, c, d;
    var p := 0;
    NoBlock(s, bytes);
    while p < n
      invariant 0 <= p <= n && Aligned(p)
      invariant State(A, B, C, D) == CompressAll(s, bytes[..p])
    {
      AlignedNext(p, n);
      BlockNext(s, bytes, p);
      A, B, C, D := CompressBlock(A, B, C, D, bytes[p..p + BLOCK_SIZE], correct);
      p := p + BLOCK_SIZE;
    }
  }

  class Context {
    var a: uint32
    var b: uint32
    var c: uint32
    var d: uint32
    var total0: uint32
    var total1: uint32
    var bufLen: uint32
    const buffer: array<byte>

    /** The bytes that have been compressed so far. */
    ghost var compressed: seq<byte>

    /** The registers are those of the compressed bytes. */
    ghost predicate Compressed()
      reads `a, `b, `c, `d, `compressed
    {
      Aligned(|compressed|) && State(a, b, c, d) == CompressAll(INITIAL, compressed)
    }

    /** The byte count, kept to 64 bits. */
    ghost predicate Counted(n: nat)
      reads `total0, `total1
    {
      CountIs(total0, total1, n)
    }

    ghost predicate Valid()
      reads this
    {
      buffer.Length == BUFFER_SIZE && bufLen <= BLOCK_SIZE && Compressed() && Counted(|compressed|)
    }

    /** Everything that has been passed to `Process` since `Init`. */
    ghost function Input(): seq<byte>
      requires Valid()
      reads this, buffer
    {
      compressed + buffer[..bufLen]
    }

    constructor ()
      ensures Valid() && Input() == [] && bufLen == 0 && fresh(buffer)
    {
      buffer := new byte[BUFFER_SIZE];
      new;
      Init();
    }

    /** md5_init */
    method Init()
      requires buffer.Length == BUFFER_SIZE
      modifies this
      ensures Valid() && Input() == [] && bufLen == 0
    {
      a, b, c, d := 0x67452301, 0xefcdab89, 0x98badcfe, 0x10325476;
      total0, total1 := 0, 0;
      bufLen := 0;
      compressed := [];
    }

    /** The two-word byte count, with the carry made by hand. */
    method CountBytes(n: uint32, ghost before: nat)
      requires Counted(before)
      modifies `total0, `total1
      ensures Counted(before + n)
    {
      hide CountIs, Add, Sub;
      if total0 > MAX_UINT32 - n {
        CountWithCarry(total0, total1, n, before);
        total1 := Add(total1, 1);
        total0 := Sub(total0, Sub(Add(MAX_UINT32, 1), n));
      } else {
        CountWithoutCarry(total0, total1, n, before);
        total0 := Add(total0, n);
      }
    }

    /** process_block: compress src[from..from + n]. */
    method ProcessBlock(src: array<byte>, from: nat, n: uint32, ghost count: nat)
      requires Compressed() && Counted(count) && Aligned(n) && from + n <= src.Length
      modifies `a, `b, `c, `d, `total0, `total1, `compressed
      ensures Compressed() && Counted(count + n)
      ensures compressed == old(compressed) + src[from..from + n]
    {
      hide CompressAll, Aligned, CountIs;
      CountBytes(n, count);
      a, b, c, d := CompressBlocks(a, b, c, d, src, from, n);
      AlignedSum(|compressed|, n);
      CompressAllAppend(INITIAL, compressed, src[from..from + n]);
      compressed := compressed + src[from..from + n];
    }

    /** md5_process, lines 340 to 347: compress the whole blocks of the buffer, keep the rest. */
    method FlushBuffer(inBlock: uint32)
      requires Compressed() && Counted(|compressed|)
      requires buffer.Length == BUFFER_SIZE && BLOCK_SIZE < inBlock <= BUFFER_SIZE
      modifies this, buffer
      ensures Valid() && bufLen == Unflushed(inBlock)
      ensures Input() == old(compressed + buffer[..inBlock])
    {
      hide Compressed, Counted, Aligned;
      var k := WholeBlocks(inBlock);
      ProcessBlock(buffer, 0, k, |compressed|);
      CopyBytes(buffer, 0, buffer, k, inBlock - k);
      bufLen := inBlock - k;
      assert buffer[..bufLen] == old(buffer[k..inBlock]);
      assert old(buffer[..k]) + old(buffer[k..inBlock]) == old(buffer[..inBlock]);
    }

    lemma ValidIs()
      requires Valid()
      ensures Compressed() && Counted(|compressed|) && buffer.Length == BUFFER_SIZE && bufLen <= BLOCK_SIZE
      ensures Input() == compressed + buffer[..bufLen]
    {
    }

    lemma ValidBy()
      requires Compressed() && Counted(|compressed|) && buffer.Length == BUFFER_SIZE && bufLen <= BLOCK_SIZE
      ensures Valid() && Input() == compressed + buffer[..bufLen]
    {
    }

    method TopUp(data: array<byte>, add: nat, ghost bytes: seq<byte>)
      requires buffer.Length == BUFFER_SIZE && data != buffer && data[..] == bytes
      requires add <= data.Length && bufLen + add <= BUFFER_SIZE
      modifies `bufLen, buffer
      ensures bufLen == old(bufLen) + add && buffer[..bufLen] == old(buffer[..bufLen]) + bytes[..add]
      ensures data[..] == bytes
    {
      CopyBytes(buffer, bufLen, data, 0, add);
      bufLen := bufLen + add;
      assert buffer[..bufLen] == buffer[..old(bufLen)] + buffer[old(bufLen)..bufLen];
    }

    /** md5_process, lines 328 to 350: top up a buffer that is in use. */
    method FillBuffer(data: array<byte>, ghost bytes: seq<byte>) returns (add: nat)
      requires Valid() && data != buffer && data[..] == bytes
      requires bufLen + data.Length < 0x1_0000_0000
      modifies this, buffer
      ensures add == if old(bufLen) + data.Length > BUFFER_SIZE then BUFFER_SIZE - old(bufLen) else data.Length
      ensures Valid() && bufLen == Unflushed(old(bufLen) + add) && data[..] == bytes
      ensures Input() == old(Input()) + bytes[..add]
    {
      ValidIs();
      hide Compressed, Counted, Valid, Input, CompressAll, Aligned, CountIs, WholeBlocks;
      var len := data.Length;
      add := if bufLen + len > BUFFER_SIZE then BUFFER_SIZE - bufLen else len;
      Associates(compressed, buffer[..bufLen], bytes[..add]);
      TopUp(data, add, bytes);
      if bufLen > BLOCK_SIZE {
        FlushBuffer(bufLen);
      } else {
        ValidBy();
      }
    }

    lemma Associates(a: seq<byte>, b: seq<byte>, c: seq<byte>)
      ensures (a + b) + c == a + (b + c)
    {
    }

    /** The buffer is empty, or nothing is added to what was compressed. */
    lemma InputGrows(before: seq<byte>, bytes: seq<byte>)
      requires Valid() && compressed == before + bytes && (bufLen == 0 || bytes == [])
      ensures Input() == before + buffer[..bufLen] + bytes
    {
      hide Compressed, Counted;
      if bytes == [] {
        assert before + bytes == before;
      }
    }

    /** md5_process, lines 354 to 358: whole blocks straight from the caller's data. */
    method AbsorbBlocks(data: array<byte>, from: nat, ghost bytes: seq<byte>) returns (p: nat)
      requires Valid() && data != buffer && data[..] == bytes && from <= data.Length < 0x1_0000_0000
      requires from == data.Length || bufLen == 0
      modifies `a, `b, `c, `d, `total0, `total1, `compressed
      ensures Valid() && from <= p <= data.Length && data.Length - p == Unflushed(data.Length - from)
      ensures Input() == old(Input()) + bytes[from..p]
    {
      hide Compressed, Counted, Aligned, Input;
      ghost var before := compressed;
      p := from;
      var len := data.Length - p;
      ValidIs();
      if len > BLOCK_SIZE {
        ProcessBlock(data, p, WholeBlocks(len), |compressed|);
        p := p + WholeBlocks(len);
        assert data[from..p] == bytes[from..p];
      } else {
        assert before + bytes[from..p] == before;
      }
      InputGrows(before, bytes[from..p]);
    }

    /** md5_process, lines 360 to 364: the rest is kept for later. */
    method KeepRest(data: array<byte>, from: nat, ghost bytes: seq<byte>)
      requires Valid() && data != buffer && data[..] == bytes && from <= data.Length <= from + BLOCK_SIZE
      requires from == data.Length || bufLen == 0
      modifies `bufLen, buffer
      ensures Valid() && data[..] == bytes && Input() == old(Input()) + bytes[from..]
      ensures bufLen == if from == data.Length then old(bufLen) else data.Length - from
    {
      hide Compressed, Counted;
      var len := data.Length - from;
      if len > 0 {
        CopyBytes(buffer, 0, data, from, len);
        bufLen := len;
        assert buffer[..len] == bytes[from..];
      } else {
        assert bytes[from..] == [];
      }
    }

    /** md5_process, lines 354 to 364: with an empty buffer, take data[from..]. */
    method AbsorbRest(data: array<byte>, from: nat, ghost bytes: seq<byte>)
      requires Valid() && data != buffer && data[..] == bytes && from <= data.Length < 0x1_0000_0000
      requires from == data.Length || bufLen == 0
      modifies this, buffer
      ensures Valid() && data[..] == bytes && Input() == old(Input()) + bytes[from..]
      ensures bufLen == if from == data.Length then old(bufLen) else Unflushed(data.Length - from)
    {
      hide *;
      ghost var input := Input();
      var p := AbsorbBlocks(data, from, bytes);
      Spliced(input, bytes, from, p);
      NothingUnflushed();
      KeepRest(data, p, bytes);
    }

    static lemma NothingUnflushed()
      ensures Unflushed(0) == 0
    {
    }

    static lemma Spliced(before: seq<byte>, bytes: seq<byte>, from: nat, p: nat)
      requires from <= p <= |bytes|
      ensures before + bytes[from..p] + bytes[p..] == before + bytes[from..]
    {
    }

    /** md5_process, lines 322 to 350: the part of the data that goes behind what is buffered. */
    method Begin(data: array<byte>, ghost bytes: seq<byte>) returns (p: nat)
      requires Valid() && data != buffer && data[..] == bytes
      requires bufLen + data.Length < 0x1_0000_0000
      modifies this, buffer
      ensures p <= data.Length && (p == data.Length || bufLen == 0)
      ensures Valid() && data[..] == bytes && Input() == old(Input()) + bytes[..p]
      ensures old(bufLen) <= BLOCK_SIZE
      ensures Kept(old(bufLen), |bytes|) == if p == |bytes| then bufLen else Unflushed(|bytes| - p)
    {
      ghost var held := bufLen;
      ValidIs();
      NothingTaken(Input(), bytes);
      hide *;
      p := 0;
      if bufLen > 0 {
        p := FillBuffer(data, bytes);
      }
      KeptIs(held, |bytes|, p);
    }

    /** md5_process */
    method Process(data: array<byte>)
      requires Valid() && data != buffer
      requires bufLen + data.Length < 0x1_0000_0000
      modifies this, buffer
      ensures Valid() && Input() == old(Input()) + data[..]
      ensures old(bufLen) <= BLOCK_SIZE && bufLen == Kept(old(bufLen), data.Length)
    {
      hide *;
      ghost var input, bytes := Input(), data[..];
      var p := Begin(data, bytes);
      Joined(input, bytes, p);
      AbsorbRest(data, p, bytes);
    }

    static lemma Joined(before: seq<byte>, data: seq<byte>, p: nat)
      requires p <= |data|
      ensures before + data[..p] + data[p..] == before + data
    {
    }

    static lemma NothingTaken(before: seq<byte>, data: seq<byte>)
      ensures before + data[..0] == before
    {
    }

    /** memcpy of a word to the buffer. */
    method StoreWord(at: nat, w: uint32)
      requires at + 4 <= buffer.Length
      modifies buffer
      ensures buffer[..at + 4] == old(buffer[..at]) + ToBytes(w)
    {
      var s := ToBytes(w);
      hide ToBytes;
      forall i | 0 <= i < 4 {
        buffer[at + i] := s[i];
      }
      assert buffer[..at + 4] == old(buffer[..at]) + s;
    }

    /** md5_finish, lines 412 to 428: 0x80 and the zeros. */
    method StorePad(held: uint32) returns (bytes: uint32)
      requires buffer.Length == BUFFER_SIZE && held <= BLOCK_SIZE
      modifies buffer
      ensures bytes + 8 <= BUFFER_SIZE == buffer.Length
      ensures buffer[..bytes] == old(buffer[..held]) + PadBytes(held)
    {
      bytes := held;
      var pad: int := BLOCK_SIZE - 2 * 4 - bytes;
      if pad <= 0 {
        pad := pad + BLOCK_SIZE;
      }
      if pad > 0 {
        buffer[bytes] := 0x80;
        if pad > 1 {
          forall i | bytes + 1 <= i < bytes + pad {
            buffer[i] := 0;
          }
        }
        bytes := bytes + pad;
      }
      assert buffer[..bytes] == old(buffer[..held]) + ([0x80] + Zeros(bytes - held - 1));
    }

    /** md5_finish, lines 434 to 442: the bit count as two words. */
    method StoreLength(at: nat)
      requires at + 8 <= buffer.Length
      modifies buffer
      ensures buffer[..at + 8] == old(buffer[..at]) + ToBytes(LengthLow(total0)) + ToBytes(LengthHigh(total0, total1))
    {
      hide *;
      StoreWord(at, LengthLow(total0));
      StoreWord(at + 4, LengthHigh(total0, total1));
    }

    /** md5_finish, lines 407 to 442 */
    method StorePadding(held: uint32) returns (bytes: uint32)
      requires buffer.Length == BUFFER_SIZE && held <= BLOCK_SIZE
      modifies buffer
      ensures bytes <= BUFFER_SIZE
      ensures buffer[..bytes] ==
        old(buffer[..held]) + PadBytes(held) + ToBytes(LengthLow(total0)) + ToBytes(LengthHigh(total0, total1))
    {
      hide PadBytes, ToBytes, LengthLow, LengthHigh;
      bytes := StorePad(held);
      StoreLength(bytes);
      bytes := bytes + 8;
    }

    /** md5_finish, lines 392 to 442: append the padding and the bit count to the buffered bytes. */
    method AppendPadding() returns (bytes: uint32)
      requires Valid()
      modifies `total0, `total1, buffer
      ensures Compressed() && Counted(|old(Input())|) && bytes <= BUFFER_SIZE
      ensures compressed + buffer[..bytes] == Padded(old(Input()))
    {
      ghost var held, input := buffer[..bufLen], Input();
      ValidIs();
      HeldIs(held);
      hide *;
      CountBytes(bufLen, |compressed|);
      assert buffer[..bufLen] == held;
      bytes := StorePadding(bufLen);
      PaddingIs(held, buffer[..bytes], input);
    }

    lemma HeldIs(held: seq<byte>)
      requires Valid() && held == buffer[..bufLen]
      ensures |held| == bufLen && |held| <= BLOCK_SIZE && |Input()| == |compressed| + bufLen
    {
    }

    lemma PaddingIs(held: seq<byte>, padded: seq<byte>, input: seq<byte>)
      requires Compressed() && |held| <= BLOCK_SIZE && Counted(|compressed| + |held|)
      requires input == compressed + held
      requires padded ==
        held + PadBytes(|held|) + ToBytes(LengthLow(total0)) + ToBytes(LengthHigh(total0, total1))
      ensures compressed + padded == Padded(input)
    {
      hide CompressAll, Padded, PadBytes, LengthLow, LengthHigh, ToBytes;
      PaddedParts(compressed, held, total0, total1, padded);
    }

    /** md5_finish; the context must be initialised again before it is used again. */
    method Finish(signature: array<byte>)
      requires Valid() && signature.Length >= 16 && signature != buffer
      modifies this, buffer, signature
      ensures signature[..16] == Digest(old(Input())) && signature[16..] == old(signature[16..])
    {
      ghost var input := Input();
      hide CompressAll, Compress, Padded, Aligned, CountIs, Output;
      var bytes := AppendPadding();
      PaddedAligned(input);
      AlignedDifference(|Padded(input)|, |compressed|);
      ProcessBlock(buffer, 0, bytes, |input|);
      GetResult(signature);
    }

    /** md5_get_result */
    method GetResult(result: array<byte>)
      requires result.Length >= 16
      modifies result
      ensures result[..16] == Output(State(a, b, c, d)) && result[16..] == old(result[16..])
    {
      var out := ToBytes(a) + ToBytes(b) + ToBytes(c) + ToBytes(d);
      forall i | 0 <= i < 16 {
        result[i] := out[i];
      }
    }
  }

  /** md5_buffer */
  method DigestBuffer(data: array<byte>, signature: array<byte>)
    requires data.Length < 0x1_0000_0000 && signature.Length >= 16
    modifies signature
    ensures signature[..16] == Digest(old(data[..])) && signature[16..] == old(signature[16..])
  {
    hide *;
    var md5 := new Context();
    md5.Process(data);
    assert [] + old(data[..]) == old(data[..]);
    md5.Finish(signature);
  }

  function Concatenation(chunks: seq<seq<byte>>): seq<byte> {
    if chunks == [] then [] else Concatenation(chunks[..|chunks| - 1]) + chunks[|chunks| - 1]
  }

  /** How many bytes are buffered after these chunks. */
  function KeptOf(chunks: seq<seq<byte>>): (n: nat)
    ensures n <= BLOCK_SIZE
  {
    if chunks == [] then 0 else Kept(KeptOf(chunks[..|chunks| - 1]), |chunks[|chunks| - 1]|)
  }

  /** No call is given so much that the sum with the buffered bytes wraps. */
  predicate NoneWraps(chunks: seq<seq<byte>>) {
    forall k | 0 <= k < |chunks| :: KeptOf(chunks[..k]) + |chunks[k]| < 0x1_0000_0000
  }

  /** The way a file is read in pieces and digested: the pieces do not matter. */
  method DigestChunks(chunks: seq<seq<byte>>) returns (digest: seq<byte>)
    requires NoneWraps(chunks)
    ensures digest == Digest(Concatenation(chunks))
  {
    var md5 := new Context();
    assert Concatenation(chunks[..0]) == [];
    hide Digest, Context.Valid, Context.Input, Kept;
    for k := 0 to |chunks|
      invariant md5.Valid() && fresh(md5) && fresh(md5.buffer)
      invariant md5.bufLen == KeptOf(chunks[..k]) && md5.Input() == Concatenation(chunks[..k])
    {
      var data := new byte[|chunks[k]|](i requires 0 <= i < |chunks[k]| => chunks[k][i]);
      assert data[..] == chunks[k];
      assert chunks[..k + 1][..k] == chunks[..k];
      md5.Process(data);
    }
    assert chunks[..|chunks|] == chunks;
    var signature := new byte[16];
    md5.Finish(signature);
    digest := signature[..16];
  }
}
