/** The proxies' commands: the header that the kernel fills (`cmd_t`), its
    storage, and which commands there are. Sizes are those of an LP64,
    little-endian machine. */
module Commands {
  import opened Words

  type int32 = i: int | -0x8000_0000 <= i < 0x8000_0000

  type uint64 = n: int | 0 <= n < 0x1_0000_0000_0000_0000

  const CMD_NONE: int32 := 0
  const CMD_SEND_MSG: int32 := 1
  const CMD_SNDREC_MSG: int32 := 3
  const CMD_REPLY_MSG: int32 := 4
  const CMD_COPYIN_DATA: int32 := 5
  const CMD_COPYOUT_DATA: int32 := 6 + 0x2000

  /** c_flags with nothing but FLAG_BATCH_BIT set. */
  const BATCH_FLAG: uint64 := 1

  const HEADER_SIZE: nat := 168
  const BODY_SIZE: nat := 96

  /** c_timestamp, c_msg and c_vcopy up to v_bytes, with the padding between them; the proxies do not look inside. */
  type Body = s: seq<byte> | |s| == BODY_SIZE witness seq(BODY_SIZE, _ => 0)

  type Padding = s: seq<byte> | |s| == 4 witness seq(4, _ => 0)

  datatype Header = Header(
    cmd: int32, dcid: int32, src: int32, dst: int32, snode: int32, dnode: int32,
    rcode: int32, len: int32, pid: int32, batchNr: int32,
    flags: uint64, sndSeq: uint64, ackSeq: uint64,
    body: Body, vBytes: int32, padding: Padding)

  /** A cleared header. */
  const BLANK := Header(0, 0, 0, 0, 0, 0, 0, 0, 0, 0, 0, 0, 0, seq(BODY_SIZE, _ => 0), 0, seq(4, _ => 0))

  /** A header with the payload that belongs to it: what the kernel hands out or
      is given, and what travels. */
  datatype Command = Command(header: Header, payload: seq<byte>)

  /** A command that is never batched: its data follows its header. */
  predicate CarriesData(h: Header) {
    h.cmd == CMD_COPYIN_DATA || h.cmd == CMD_COPYOUT_DATA
  }

  predicate CarriesMessage(h: Header) {
    h.cmd == CMD_SEND_MSG || h.cmd == CMD_SNDREC_MSG || h.cmd == CMD_REPLY_MSG
  }

  /** TEST_BIT(c_flags, FLAG_BATCH_BIT) */
  predicate IsBatch(h: Header) {
    h.flags % 2 == 1
  }

  /** SET_BIT(flags, FLAG_BATCH_BIT) */
  function SetBatchBit(flags: uint64): uint64 {
    if flags % 2 == 1 then flags else flags + 1
  }

  // ---- Storage ----

  function OfInt(i: int32): (w: uint32) {
    if i < 0 then i + 0x1_0000_0000 else i
  }

  function AsInt(w: uint32): (i: int32) {
    if w < 0x8000_0000 then w else w - 0x1_0000_0000
  }

  function Low(n: uint64): uint32 {
    n % 0x1_0000_0000
  }

  function High(n: uint64): uint32 {
    n / 0x1_0000_0000
  }

  function Long(low: uint32, high: uint32): uint64 {
    (low as int) + 0x1_0000_0000 * (high as int)
  }

  function BytesOf(words: seq<uint32>): (s: seq<byte>)
    ensures |s| == 4 * |words|
  {
    if words == [] then [] else ToBytes(words[0]) + BytesOf(words[1..])
  }

  function WordsIn(s: seq<byte>): (words: seq<uint32>)
    ensures |words| == |s| / 4
  {
    if |s| < 4 then [] else [FromBytes(s[..4])] + WordsIn(s[4..])
  }

  /** The integers in front of the body. */
  function Integers(h: Header): (words: seq<uint32>)
    ensures |words| == 16
  {
    [OfInt(h.cmd), OfInt(h.dcid), OfInt(h.src), OfInt(h.dst), OfInt(h.snode), OfInt(h.dnode),
     OfInt(h.rcode), OfInt(h.len), OfInt(h.pid), OfInt(h.batchNr),
     Low(h.flags), High(h.flags), Low(h.sndSeq), High(h.sndSeq), Low(h.ackSeq), High(h.ackSeq)]
  }

  function WithIntegers(w: seq<uint32>, body: Body, vBytes: uint32, padding: Padding): Header
    requires |w| == 16
  {
    Header(AsInt(w[0]), AsInt(w[1]), AsInt(w[2]), AsInt(w[3]), AsInt(w[4]), AsInt(w[5]),
           AsInt(w[6]), AsInt(w[7]), AsInt(w[8]), AsInt(w[9]),
           Long(w[10], w[11]), Long(w[12], w[13]), Long(w[14], w[15]),
           body, AsInt(vBytes), padding)
  }

  /** The bytes of a header in memory. */
  function Encode(h: Header): (s: seq<byte>)
    ensures |s| == HEADER_SIZE
  {
    BytesOf(Integers(h)) + h.body + ToBytes(OfInt(h.vBytes)) + h.padding
  }

  /** The header that a buffer holds. */
  function Decode(s: seq<byte>): Header
    requires |s| == HEADER_SIZE
  {
    WithIntegers(WordsIn(s[..64]), s[64..160], FromBytes(s[160..164]), s[164..168])
  }

  lemma {:induction false} WordsRoundTrip(words: seq<uint32>)
    ensures WordsIn(BytesOf(words)) == words
  {
    if words != [] {
      var s := BytesOf(words);
      assert s[..4] == ToBytes(words[0]) && s[4..] == BytesOf(words[1..]);
      BytesRoundTrip(words[0]);
      WordsRoundTrip(words[1..]);
    }
  }

  lemma {:induction false} BytesOfRoundTrip(s: seq<byte>)
    requires |s| % 4 == 0
    ensures BytesOf(WordsIn(s)) == s
  {
    if s != [] {
      WordRoundTrip(s[..4]);
      BytesOfRoundTrip(s[4..]);
      hide FromBytes, ToBytes;
      assert WordsIn(s)[1..] == WordsIn(s[4..]);
      assert s == s[..4] + s[4..];
    }
  }

  lemma IntRoundTrip()
    ensures forall i: int32 :: AsInt(OfInt(i)) == i
    ensures forall w: uint32 :: OfInt(AsInt(w)) == w
  {
  }

  lemma LongRoundTrip()
    ensures forall n: uint64 :: Long(Low(n), High(n)) == n
    ensures forall low: uint32, high: uint32 :: Low(Long(low, high)) == low && High(Long(low, high)) == high
  {
  }

  lemma IntegersRoundTrip(h: Header)
    ensures WithIntegers(Integers(h), h.body, OfInt(h.vBytes), h.padding) == h
  {
    hide OfInt, AsInt, Low, High, Long;
    IntRoundTrip();
    LongRoundTrip();
  }

  lemma WithIntegersRoundTrip(w: seq<uint32>, body: Body, vBytes: uint32, padding: Padding)
    requires |w| == 16
    ensures var h := WithIntegers(w, body, vBytes, padding); Integers(h) == w && OfInt(h.vBytes) == vBytes
  {
    hide OfInt, AsInt, Low, High, Long;
    IntRoundTrip();
    LongRoundTrip();
  }

  lemma DecodeEncode(h: Header)
    ensures Decode(Encode(h)) == h
  {
    WordsRoundTrip(Integers(h));
    BytesRoundTrip(OfInt(h.vBytes));
    IntegersRoundTrip(h);
    hide Integers, WithIntegers, BytesOf, WordsIn, FromBytes, ToBytes, OfInt, AsInt;
    var s := Encode(h);
    assert s[..64] == BytesOf(Integers(h));
    assert s[64..160] == h.body;
    assert s[160..164] == ToBytes(OfInt(h.vBytes));
    assert s[164..168] == h.padding;
  }

  lemma EncodeDecode(s: seq<byte>)
    requires |s| == HEADER_SIZE
    ensures Encode(Decode(s)) == s
  {
    var w, v := WordsIn(s[..64]), FromBytes(s[160..164]);
    BytesOfRoundTrip(s[..64]);
    WordRoundTrip(s[160..164]);
    WithIntegersRoundTrip(w, s[64..160], v, s[164..168]);
    assert Decode(s).body == s[64..160] && Decode(s).padding == s[164..168];
    hide Integers, WithIntegers, BytesOf, WordsIn, FromBytes, ToBytes, OfInt, AsInt, Decode;
    assert s == s[..64] + s[64..160] + s[160..164] + s[164..168];
  }

  /** Different buffers hold different headers. */
  lemma DecodeIsInjective(s: seq<byte>, t: seq<byte>)
    requires |s| == |t| == HEADER_SIZE && Decode(s) == Decode(t)
    ensures s == t
  {
    hide Decode, Encode;
    EncodeDecode(s);
    EncodeDecode(t);
  }

  lemma {:induction false} WordsInAt(s: seq<byte>, i: nat)
    requires 4 * i + 4 <= |s|
    ensures WordsIn(s)[i] == FromBytes(s[4 * i..4 * i + 4])
  {
    hide FromBytes;
    if i > 0 {
      WordsInAt(s[4..], i - 1);
      assert s[4..][4 * (i - 1)..4 * (i - 1) + 4] == s[4 * i..4 * i + 4];
    }
  }

  /** Where the integers of a header are in memory. */
  lemma IntegersAt(s: seq<byte>, i: nat)
    requires |s| == HEADER_SIZE && i < 16
    ensures Integers(Decode(s))[i] == FromBytes(s[4 * i..4 * i + 4])
  {
    var w := WordsIn(s[..64]);
    WithIntegersRoundTrip(w, s[64..160], FromBytes(s[160..164]), s[164..168]);
    WordsInAt(s[..64], i);
    assert s[..64][4 * i..4 * i + 4] == s[4 * i..4 * i + 4];
    hide WithIntegers, Integers, WordsIn, FromBytes;
  }

  lemma IntegerAt(h: Header, i: nat)
    requires i < 16
    ensures FourBytes(Encode(h), 4 * i) == Integers(h)[i]
  {
    hide Integers, Encode, Decode, FourBytes, FromBytes;
    DecodeEncode(h);
    IntegersAt(Encode(h), i);
    FourInSlice(Encode(h), 4 * i);
  }

  lemma OpaqueAt(h: Header)
    ensures var s := Encode(h);
      s[64..160] == h.body && FourBytes(s, 160) == OfInt(h.vBytes) && s[164..168] == h.padding
  {
    BytesRoundTrip(OfInt(h.vBytes));
    FourInSlice(Encode(h), 160);
    hide Integers, BytesOf, ToBytes, OfInt, FourBytes, FromBytes;
    var s := Encode(h);
    assert s[160..164] == ToBytes(OfInt(h.vBytes));
  }

  lemma Unsigned(i: int32)
    ensures OfInt(i) == i % 0x1_0000_0000
  {
  }

  lemma IntAt(h: Header, i: nat, n: int32)
    requires i < 16 && Integers(h)[i] == OfInt(n)
    ensures FourBytes(Encode(h), 4 * i) == n % 0x1_0000_0000
  {
    hide *;
    IntegerAt(h, i);
    Unsigned(n);
  }

  lemma LongAt(h: Header, i: nat, n: uint64)
    requires i < 15 && Integers(h)[i] == Low(n) && Integers(h)[i + 1] == High(n)
    ensures EightBytes(Encode(h), 4 * i) == n
  {
    hide Integers, Encode, FourBytes;
    IntegerAt(h, i);
    IntegerAt(h, i + 1);
  }

  /** cmd_t in memory: every field at its offset, low-order byte first, and
      negative numbers in two's complement. */
  lemma FieldsAt(h: Header)
    ensures var s := Encode(h);
      && FourBytes(s, 0) == h.cmd % 0x1_0000_0000
      && FourBytes(s, 4) == h.dcid % 0x1_0000_0000
      && FourBytes(s, 8) == h.src % 0x1_0000_0000
      && FourBytes(s, 12) == h.dst % 0x1_0000_0000
      && FourBytes(s, 16) == h.snode % 0x1_0000_0000
      && FourBytes(s, 20) == h.dnode % 0x1_0000_0000
      && FourBytes(s, 24) == h.rcode % 0x1_0000_0000
      && FourBytes(s, 28) == h.len % 0x1_0000_0000
      && FourBytes(s, 32) == h.pid % 0x1_0000_0000
      && FourBytes(s, 36) == h.batchNr % 0x1_0000_0000
      && EightBytes(s, 40) == h.flags && EightBytes(s, 48) == h.sndSeq && EightBytes(s, 56) == h.ackSeq
      && s[64..160] == h.body && FourBytes(s, 160) == h.vBytes % 0x1_0000_0000 && s[164..168] == h.padding
  {
    hide Encode, OfInt, Low, High, FourBytes, EightBytes;
    IntAt(h, 0, h.cmd);
    IntAt(h, 1, h.dcid);
    IntAt(h, 2, h.src);
    IntAt(h, 3, h.dst);
    IntAt(h, 4, h.snode);
    IntAt(h, 5, h.dnode);
    IntAt(h, 6, h.rcode);
    IntAt(h, 7, h.len);
    IntAt(h, 8, h.pid);
    IntAt(h, 9, h.batchNr);
    LongAt(h, 10, h.flags);
    LongAt(h, 12, h.sndSeq);
    LongAt(h, 14, h.ackSeq);
    OpaqueAt(h);
    Unsigned(h.vBytes);
  }

  /** Where FLAG_BATCH_BIT is in memory. */
  const FLAGS_OFFSET: nat := 40

  lemma BatchBitAt(s: seq<byte>)
    requires |s| == HEADER_SIZE
    ensures IsBatch(Decode(s)) <==> s[FLAGS_OFFSET] % 2 == 1
  {
    WordsInAt(s[..64], 10);
    assert s[..64][40..44] == s[40..44];
    var w := WordsIn(s[..64]);
    assert Decode(s).flags == Long(w[10], w[11]);
    assert w[10] == FromBytes(s[40..44]);
  }

  // ---- An array of headers in a payload buffer ----

  function EncodeAll(hs: seq<Header>): (s: seq<byte>)
    ensures |s| == HEADER_SIZE * |hs|
  {
    if hs == [] then [] else Encode(hs[0]) + EncodeAll(hs[1..])
  }

  function DecodeAll(s: seq<byte>, n: nat): (hs: seq<Header>)
    requires |s| == HEADER_SIZE * n
    ensures |hs| == n
  {
    if n == 0 then [] else [Decode(s[..HEADER_SIZE])] + DecodeAll(s[HEADER_SIZE..], n - 1)
  }

  lemma {:induction false} DecodeEncodeAll(hs: seq<Header>)
    ensures DecodeAll(EncodeAll(hs), |hs|) == hs
  {
    hide Encode, Decode;
    if hs != [] {
      var s := EncodeAll(hs);
      assert s[..HEADER_SIZE] == Encode(hs[0]) && s[HEADER_SIZE..] == EncodeAll(hs[1..]);
      DecodeEncode(hs[0]);
      DecodeEncodeAll(hs[1..]);
    }
  }

  lemma {:induction false} DecodeAllIsInjective(s: seq<byte>, t: seq<byte>, n: nat)
    requires |s| == |t| == HEADER_SIZE * n && DecodeAll(s, n) == DecodeAll(t, n)
    ensures s == t
  {
    hide Encode, Decode;
    if n > 0 {
      var h := DecodeAll(s, n);
      assert h[0] == Decode(s[..HEADER_SIZE]) == Decode(t[..HEADER_SIZE]);
      assert h[1..] == DecodeAll(s[HEADER_SIZE..], n - 1) == DecodeAll(t[HEADER_SIZE..], n - 1);
      DecodeIsInjective(s[..HEADER_SIZE], t[..HEADER_SIZE]);
      DecodeAllIsInjective(s[HEADER_SIZE..], t[HEADER_SIZE..], n - 1);
      assert s == s[..HEADER_SIZE] + s[HEADER_SIZE..];
      assert t == t[..HEADER_SIZE] + t[HEADER_SIZE..];
    }
  }

  lemma SliceOfTail(s: seq<byte>, from: nat, low: nat, high: nat)
    requires from <= |s| && low <= high <= |s| - from
    ensures s[from..][low..high] == s[from + low..from + high]
  {
  }

  lemma TailOfAll(s: seq<byte>, n: nat, i: nat)
    requires |s| == HEADER_SIZE * n && 0 < i < n
    ensures DecodeAll(s, n)[i] == DecodeAll(s[HEADER_SIZE..], n - 1)[i - 1]
  {
    hide Decode;
  }

  /** bat_cmd[i] is where the C code looks for it. */
  lemma {:induction false} DecodeAllAt(s: seq<byte>, n: nat, i: nat)
    requires |s| == HEADER_SIZE * n && i < n
    ensures DecodeAll(s, n)[i] == Decode(s[HEADER_SIZE * i..HEADER_SIZE * i + HEADER_SIZE])
  {
    if i > 0 {
      hide Decode, DecodeAll;
      TailOfAll(s, n, i);
      DecodeAllAt(s[HEADER_SIZE..], n - 1, i - 1);
      SliceOfTail(s, HEADER_SIZE, HEADER_SIZE * (i - 1), HEADER_SIZE * i);
    }
  }
}
