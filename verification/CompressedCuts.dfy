/** The connection to the receiver of lz4tcp_th_proxy.c ends inside a frame. Its
    payload buffer still holds what was received before, and that is delivered in
    place of what is missing. */
module CompressedCuts {
  import opened Words
  import opened Commands
  import opened Frames
  import opened Batching
  import opened Cuts
  import opened Compression
  import opened CompressedStreams

  // ---- What the receiver makes of a part of a frame ----

  /** The payload buffer behind a whole frame, and behind several. */
  function After(f: Command, buffer: seq<byte>): (b: seq<byte>)
    ensures |b| == |buffer|
  {
    if |f.payload| <= |buffer| then f.payload + buffer[|f.payload|..] else buffer
  }

  function BufferAfter(fs: seq<Command>, buffer: seq<byte>): (b: seq<byte>)
    ensures |b| == |buffer|
  {
    if fs == [] then buffer else BufferAfter(fs[1..], After(fs[0], buffer))
  }

  /** The header of which k bytes have arrived: it was cleared before. */
  function HeaderFrom(f: Command, k: nat): Header
    requires k <= |Bytes(f)|
  {
    Decode(Filled(Bytes(f)[..k], HEADER_SIZE))
  }

  /** How much of the payload is among k bytes. */
  function PayloadPart(k: nat): nat {
    if k < HEADER_SIZE then 0 else k - HEADER_SIZE
  }

  /** The payload of which so much has arrived, with the buffer's own bytes behind it. */
  function PayloadFrom(f: Command, m: nat, buffer: seq<byte>): (p: seq<byte>)
    requires m <= |f.payload| <= |buffer|
    ensures |p| == |f.payload|
  {
    f.payload[..m] + buffer[m..|f.payload|]
  }

  /** What the receiver takes for f when k bytes of it have arrived. */
  function TakenFor(f: Command, k: nat, buffer: seq<byte>): Command
    requires k < |Bytes(f)| && |f.payload| <= |buffer|
  {
    if k >= HEADER_SIZE then Command(f.header, PayloadFrom(f, PayloadPart(k), buffer))
    else
      var h := HeaderFrom(f, k);
      Command(h, if Size(h) <= |buffer| then buffer[..Size(h)] else [])
  }

  /** The receiver finds a command: the header is there, or the end of the
      connection is not noticed and something has arrived of the command code. */
  predicate Finds(f: Command, k: nat, errno: int)
    requires k <= |Bytes(f)|
  {
    k >= HEADER_SIZE || (errno == 0 && !NoCommandIn(f, k))
  }

  /** It is delivered, unless the program exits because the data does not decompress
      to the length that the header says. */
  predicate Delivers(codec: Codec, f: Command, k: nat, errno: int, buffer: seq<byte>)
    requires k < |Bytes(f)| && |f.payload| <= |buffer|
  {
    Finds(f, k, errno) && !WrongLength(codec, TakenFor(f, k, buffer))
  }

  /** It passes for f: nothing but zeros is missing of the header, and the buffer
      has the bytes that are missing of the payload or, if that is compressed, such
      as decompress to the same data. */
  predicate Passes(codec: Codec, f: Command, k: nat, buffer: seq<byte>)
    requires k < |Bytes(f)| && |f.payload| <= |buffer|
  {
    && (k < HEADER_SIZE ==> Bytes(f)[k..HEADER_SIZE] == Zeros(HEADER_SIZE - k))
    && var m := PayloadPart(k);
       if f.header.flags == CMD_LZ4_FLAG
       then codec.decompress(PayloadFrom(f, m, buffer)) == codec.decompress(f.payload)
       else buffer[m..|f.payload|] == f.payload[m..]
  }

  /** What is made of the frame that is cut off. */
  function LastOf(codec: Codec, f: Command, k: nat, errno: int, buffer: seq<byte>): Outcome
    requires k < |Bytes(f)| && |f.payload| <= |buffer|
  {
    if Finds(f, k, errno) then Made(codec, TakenFor(f, k, buffer)) else Outcome([], false)
  }

  /** A connection that ends after k bytes does no harm: there is nothing of a next
      frame, or what there is of it is not delivered, or it passes for that frame. */
  predicate Harmless(codec: Codec, fs: seq<Command>, k: nat, errno: int, buffer: seq<byte>)
    requires AllReceivable(codec, fs, |buffer|)
  {
    var n, j := WholeIn(fs, k), CutAt(fs, k);
    n < |fs| ==>
      var b := BufferAfter(fs[..n], buffer);
      Delivers(codec, fs[n], j, errno, b) ==> Passes(codec, fs[n], j, b)
  }

  // ---- One frame that is cut off ----

  /** A header that was cut off asks for no more than the one that was sent. */
  lemma CutHeaderFits(codec: Codec, f: Command, k: nat, capacity: nat)
    requires Receivable(codec, f) && |f.payload| <= capacity && k < HEADER_SIZE && k <= |Bytes(f)|
    ensures Fits(HeaderFrom(f, k), capacity) && Size(HeaderFrom(f, k)) <= |f.payload|
  {
    HeaderInFront(f, k);
    IntegerIsLess(f.header, k, 0);
    IntegerIsLess(f.header, k, 7);
    hide Encode, Decode, Bytes, Filled;
  }

  lemma CodeIs(f: Command, k: nat)
    requires k < HEADER_SIZE && k <= |Bytes(f)|
    ensures HeaderFrom(f, k).cmd == CMD_NONE <==> NoCommandIn(f, k)
  {
    PassedCommand(f, k);
    var t := Filled(Bytes(f)[..k], HEADER_SIZE);
    assert t[..HEADER_SIZE] == t;
    hide Decode, Bytes, NoCommandIn;
  }

  lemma CutInHeader(codec: Codec, f: Command, k: nat, errno: int, buffer: seq<byte>)
    requires Receivable(codec, f) && |f.payload| <= |buffer| && k < HEADER_SIZE && k < |Bytes(f)|
    ensures var s := Bytes(f)[..k];
      Legible(s, errno, |buffer|) && Process(codec, s, errno, buffer) == LastOf(codec, f, k, errno, buffer)
  {
    var h := HeaderFrom(f, k);
    CutHeaderFits(codec, f, k, |buffer|);
    CodeIs(f, k);
    assert Overwritten(buffer, [], Size(h)) == buffer;
    hide Bytes, Decode, Filled, Fits, NoCommandIn, Made, Size, Receivable;
  }

  lemma CutInPayload(codec: Codec, f: Command, k: nat, errno: int, buffer: seq<byte>)
    requires Receivable(codec, f) && |f.payload| <= |buffer| && HEADER_SIZE <= k < |Bytes(f)|
    ensures var s := Bytes(f)[..k];
      Legible(s, errno, |buffer|) && Process(codec, s, errno, buffer) == LastOf(codec, f, k, errno, buffer)
  {
    var s, m := Bytes(f)[..k], PayloadPart(k);
    var rest := s[HEADER_SIZE..];
    HeaderAndPart(f, k);
    ReceivableFits(codec, f, |buffer|);
    PartInBuffer(codec, f, m, buffer);
    hide Bytes, Decode, Fits, Made, Remaining, Size, Receivable, Overwritten;
    NothingArrives(codec, errno, NextBuffer(f.header, rest, buffer));
    ThenNothing(One(codec, f.header, rest, buffer));
  }

  lemma HeaderAndPart(f: Command, k: nat)
    requires HEADER_SIZE <= k <= |Bytes(f)|
    ensures var s := Bytes(f)[..k];
      Decode(s[..HEADER_SIZE]) == f.header && s[HEADER_SIZE..] == f.payload[..k - HEADER_SIZE]
  {
    BytesAre(f);
    DecodeEncode(f.header);
    hide Encode, Decode, Bytes;
    assert Bytes(f)[..k][..HEADER_SIZE] == Encode(f.header);
  }

  lemma PartInBuffer(codec: Codec, f: Command, m: nat, buffer: seq<byte>)
    requires Receivable(codec, f) && m < |f.payload| <= |buffer|
    ensures var part := f.payload[..m];
      && f.header.cmd != CMD_NONE && Size(f.header) == |f.payload| && Remaining(f.header, part) == []
      && FrameIn(f.header, Overwritten(buffer, part, |f.payload|)) == Command(f.header, PayloadFrom(f, m, buffer))
  {
  }

  /** The connection ends in f. */
  lemma CutInOne(codec: Codec, f: Command, k: nat, errno: int, buffer: seq<byte>)
    requires Receivable(codec, f) && |f.payload| <= |buffer| && k < |Bytes(f)|
    ensures var s := Bytes(f)[..k];
      Legible(s, errno, |buffer|) && Process(codec, s, errno, buffer) == LastOf(codec, f, k, errno, buffer)
  {
    hide *;
    if k < HEADER_SIZE {
      CutInHeader(codec, f, k, errno, buffer);
    } else {
      CutInPayload(codec, f, k, errno, buffer);
    }
  }

  // ---- When that is what was sent ----

  /** The same header, and some payload. */
  lemma SamePayload(codec: Codec, f: Command, p: seq<byte>)
    requires Receivable(codec, f) && f.header.cmd != CMD_NONE && |p| == |f.payload|
    requires !WrongLength(codec, Command(f.header, p))
    ensures |Unpack(codec, f)| == 1
    ensures Unpack(codec, Command(f.header, p)) == Unpack(codec, f) <==>
      if f.header.flags == CMD_LZ4_FLAG then codec.decompress(p) == codec.decompress(f.payload) else p == f.payload
  {
    if p == [] {
      assert f.payload == [];
    }
  }

  /** A header that was cut off in its flags, or behind them, has its length. */
  lemma LengthHasArrived(f: Command, k: nat)
    requires k < HEADER_SIZE && k <= |Bytes(f)| && HeaderFrom(f, k).flags == CMD_LZ4_FLAG
    ensures HeaderFrom(f, k).len == f.header.len
  {
    HeaderInFront(f, k);
    IntegerIsLess(f.header, k, 10);
    IntegerIsLess(f.header, k, 7);
    hide Encode, Decode, Bytes, Filled;
  }

  /** Only the right header will do. */
  lemma OtherHeader(codec: Codec, f: Command, g: Command)
    requires Receivable(codec, f) && f.header.cmd != CMD_NONE && g.header.cmd != CMD_NONE
    requires Size(g.header) == |g.payload| && !WrongLength(codec, g)
    requires g.header.flags == CMD_LZ4_FLAG ==> g.header.len == f.header.len
    requires Unpack(codec, g) == Unpack(codec, f)
    ensures g.header == f.header
  {
    if g.header.flags == CMD_LZ4_FLAG && CarriesData(g.header) && g.payload != [] {
      assert Unpack(codec, g)[0].header == g.header.(len := g.header.vBytes);
    } else {
      assert Unpack(codec, g)[0] == g;
    }
  }

  /** The header is that of f exactly if nothing but zeros is missing of it. */
  lemma HeaderIsWhole(f: Command, k: nat)
    requires k < HEADER_SIZE && k <= |Bytes(f)|
    ensures HeaderFrom(f, k) == f.header <==> Bytes(f)[k..HEADER_SIZE] == Zeros(HEADER_SIZE - k)
  {
    var t, u := Filled(Bytes(f)[..k], HEADER_SIZE), Encode(f.header);
    HeaderInFront(f, k);
    BytesAre(f);
    EncodeDecode(t);
    DecodeEncode(f.header);
    hide Decode, Encode, Bytes;
    assert Bytes(f)[k..HEADER_SIZE] == u[k..];
    assert u == u[..k] + u[k..] && t == u[..k] + Zeros(HEADER_SIZE - k);
    assert t[k..] == Zeros(HEADER_SIZE - k);
  }

  /** A frame without a command is not found before it is there as a whole. */
  lemma NoneIsNotFound(codec: Codec, f: Command, k: nat, errno: int)
    requires Receivable(codec, f) && k < |Bytes(f)| && Finds(f, k, errno)
    ensures f.header.cmd != CMD_NONE
  {
    BytesLength(f);
    if k < HEADER_SIZE {
      HeaderInFront(f, k);
      IntegerIsLess(f.header, k, 0);
      CodeIs(f, k);
      hide Decode, Encode, Bytes, Filled, NoCommandIn;
    }
  }

  lemma PayloadIs(f: Command, m: nat, buffer: seq<byte>)
    requires m <= |f.payload| <= |buffer|
    ensures PayloadFrom(f, m, buffer) == f.payload <==> buffer[m..|f.payload|] == f.payload[m..]
    ensures PayloadFrom(f, 0, buffer) == buffer[..|f.payload|]
  {
    assert f.payload == f.payload[..m] + f.payload[m..];
    if PayloadFrom(f, m, buffer) == f.payload {
      assert PayloadFrom(f, m, buffer)[m..] == buffer[m..|f.payload|];
    }
  }

  /** What is delivered of a frame that is cut off is what it stands for exactly if it passes for it. */
  lemma LastIs(codec: Codec, f: Command, k: nat, errno: int, buffer: seq<byte>)
    requires Receivable(codec, f) && |f.payload| <= |buffer| && k < |Bytes(f)|
    ensures var last := LastOf(codec, f, k, errno, buffer).log;
      if Delivers(codec, f, k, errno, buffer)
      then |last| == |Unpack(codec, f)| == 1 && (last == Unpack(codec, f) <==> Passes(codec, f, k, buffer))
      else last == []
  {
    var g := TakenFor(f, k, buffer);
    LastParts(codec, f, k, errno, buffer);
    if Delivers(codec, f, k, errno, buffer) {
      NoneIsNotFound(codec, f, k, errno);
      BytesLength(f);
      if k < HEADER_SIZE {
        HeaderLast(codec, f, k, buffer);
      } else {
        PayloadIs(f, PayloadPart(k), buffer);
        SamePayload(codec, f, g.payload);
        hide Bytes, Receivable, Unpack, WrongLength, PayloadFrom;
      }
    }
  }

  lemma LastParts(codec: Codec, f: Command, k: nat, errno: int, buffer: seq<byte>)
    requires k < |Bytes(f)| && |f.payload| <= |buffer|
    requires Receivable(codec, f)
    ensures var g, last := TakenFor(f, k, buffer), LastOf(codec, f, k, errno, buffer).log;
      if Delivers(codec, f, k, errno, buffer) then last == Unpack(codec, g) && |last| == 1 else last == []
  {
    if k < HEADER_SIZE {
      CodeIs(f, k);
    } else {
      BytesLength(f);
    }
    hide Decode, Bytes, NoCommandIn, Filled;
  }

  lemma HeaderLast(codec: Codec, f: Command, k: nat, buffer: seq<byte>)
    requires Receivable(codec, f) && |f.payload| <= |buffer| && k < HEADER_SIZE && k < |Bytes(f)|
    requires f.header.cmd != CMD_NONE && !NoCommandIn(f, k) && !WrongLength(codec, TakenFor(f, k, buffer))
    ensures |Unpack(codec, f)| == 1
    ensures Unpack(codec, TakenFor(f, k, buffer)) == Unpack(codec, f) <==> Passes(codec, f, k, buffer)
  {
    var g := TakenFor(f, k, buffer);
    CodeIs(f, k);
    CutHeaderFits(codec, f, k, |buffer|);
    HeaderIsWhole(f, k);
    ReceivableFits(codec, f, |buffer|);
    PayloadIs(f, 0, buffer);
    if g.header.flags == CMD_LZ4_FLAG {
      LengthHasArrived(f, k);
    }
    hide Bytes, HeaderFrom, NoCommandIn, Receivable, Unpack, WrongLength, PayloadFrom, Fits;
    if g.header == f.header {
      SamePayload(codec, f, g.payload);
    } else if Unpack(codec, g) == Unpack(codec, f) {
      OtherHeader(codec, f, g);
    }
  }

  // ---- A run of frames, the last of which is cut off ----

  lemma NextBufferIs(codec: Codec, f: Command, rest: seq<byte>, buffer: seq<byte>)
    requires Receivable(codec, f) && |f.payload| <= |buffer|
    ensures Fits(f.header, |buffer|) && NextBuffer(f.header, f.payload + rest, buffer) == After(f, buffer)
  {
  }

  /** What is there of the frame that is cut off, if one is, and what the buffer then holds. */
  function LastOfAll(codec: Codec, fs: seq<Command>, k: nat, errno: int, buffer: seq<byte>): Outcome
    requires AllReceivable(codec, fs, |buffer|)
  {
    var n := WholeIn(fs, k);
    if n < |fs| then LastOf(codec, fs[n], CutAt(fs, k), errno, BufferAfter(fs[..n], buffer)) else Outcome([], false)
  }

  lemma LastBehind(codec: Codec, fs: seq<Command>, k: nat, errno: int, buffer: seq<byte>)
    requires AllReceivable(codec, fs, |buffer|) && fs != [] && |Bytes(fs[0])| <= k
    ensures AllReceivable(codec, fs[1..], |buffer|)
    ensures LastOfAll(codec, fs, k, errno, buffer) ==
      LastOfAll(codec, fs[1..], k - |Bytes(fs[0])|, errno, After(fs[0], buffer))
  {
    TailIsReceivable(codec, fs, |buffer|);
    WholeInIs(fs, k);
    var n := WholeIn(fs, k);
    assert fs[..n][1..] == fs[1..][..n - 1];
    hide Bytes, LastOf, Receivable, After, CutAt, WholeIn;
  }

  lemma NothingIsCut(codec: Codec, k: nat, errno: int, buffer: seq<byte>)
    requires k <= |Wire([])|
    ensures Legible(Wire([])[..k], errno, |buffer|) && AllReceivable(codec, [], |buffer|)
    ensures Process(codec, Wire([])[..k], errno, buffer) ==
      Outcome(UnpackAll(codec, [][..WholeIn([], k)]) + LastOfAll(codec, [], k, errno, buffer).log,
              LastOfAll(codec, [], k, errno, buffer).exits)
  {
    NothingArrives(codec, errno, buffer);
    assert Wire([])[..k] == [];
  }

  lemma FirstIsCut(codec: Codec, fs: seq<Command>, k: nat, errno: int, buffer: seq<byte>)
    requires AllReceivable(codec, fs, |buffer|) && fs != [] && k < |Bytes(fs[0])| && k <= |Wire(fs)|
    ensures Legible(Wire(fs)[..k], errno, |buffer|)
    ensures var last := LastOfAll(codec, fs, k, errno, buffer);
      Process(codec, Wire(fs)[..k], errno, buffer) ==
        Outcome(UnpackAll(codec, fs[..WholeIn(fs, k)]) + last.log, last.exits)
  {
    WireCut(fs, k);
    TailIsReceivable(codec, fs, |buffer|);
    assert WholeIn(fs, k) == 0 && CutAt(fs, k) == k && fs[..0] == [];
    hide Bytes, Wire, AllReceivable, Receivable, Process, Legible, WholeIn, CutAt, LastOf;
    CutInOne(codec, fs[0], k, errno, buffer);
    var last := LastOf(codec, fs[0], k, errno, buffer);
    assert UnpackAll(codec, []) + last.log == last.log;
  }

  /** Every whole frame is delivered as what it stands for, then what is made of the one that is cut off. */
  lemma {:induction false} ProcessCut(codec: Codec, fs: seq<Command>, k: nat, errno: int, buffer: seq<byte>)
    requires AllReceivable(codec, fs, |buffer|) && k <= |Wire(fs)|
    ensures Legible(Wire(fs)[..k], errno, |buffer|)
    ensures var last := LastOfAll(codec, fs, k, errno, buffer);
      Process(codec, Wire(fs)[..k], errno, buffer) ==
        Outcome(UnpackAll(codec, fs[..WholeIn(fs, k)]) + last.log, last.exits)
    decreases |fs|
  {
    hide *;
    if fs == [] {
      NothingIsCut(codec, k, errno, buffer);
    } else if k < |Bytes(fs[0])| {
      FirstIsCut(codec, fs, k, errno, buffer);
    } else {
      var f, j := fs[0], k - |Bytes(fs[0])|;
      WireCut(fs, k);
      TailIsReceivable(codec, fs, |buffer|);
      WholeInIs(fs, k);
      var rest, b := Wire(fs[1..])[..j], After(f, buffer);
      var whole, last := fs[1..][..WholeIn(fs[1..], j)], LastOfAll(codec, fs[1..], j, errno, b);
      NextBufferIs(codec, f, rest, buffer);
      ProcessCut(codec, fs[1..], j, errno, b);
      WholeFrame(codec, f, rest, errno, buffer);
      LastBehind(codec, fs, k, errno, buffer);
      UnpackFirst(codec, f, whole);
      ThenParts(Unpack(codec, f), Process(codec, rest, errno, b));
      Associates(Unpack(codec, f), UnpackAll(codec, whole), last.log);
    }
  }

  // ---- When the log is still a prefix ----

  lemma {:induction false} UnpackAppend(codec: Codec, fs: seq<Command>, gs: seq<Command>)
    ensures UnpackAll(codec, fs + gs) == UnpackAll(codec, fs) + UnpackAll(codec, gs)
  {
    hide Unpack;
    if gs == [] {
      NothingAdded(fs);
      NothingAdded(UnpackAll(codec, fs));
    } else {
      var before, g := gs[..|gs| - 1], gs[|gs| - 1];
      assert fs + gs == (fs + before) + [g] && gs == before + [g];
      UnpackAppend(codec, fs, before);
      UnpackNext(codec, fs + before, g);
      UnpackNext(codec, before, g);
      Associates(UnpackAll(codec, fs), UnpackAll(codec, before), Unpack(codec, g));
    }
  }

  lemma UnpackSplit(codec: Codec, fs: seq<Command>, n: nat)
    requires n < |fs|
    ensures UnpackAll(codec, fs) == UnpackAll(codec, fs[..n]) + (Unpack(codec, fs[n]) + UnpackAll(codec, fs[n + 1..]))
  {
    assert fs == fs[..n] + ([fs[n]] + fs[n + 1..]);
    hide Unpack, UnpackAll;
    UnpackAppend(codec, fs[..n], [fs[n]] + fs[n + 1..]);
    UnpackFirst(codec, fs[n], fs[n + 1..]);
  }

  lemma PrefixBy(a: seq<Command>, last: seq<Command>, b: seq<Command>, c: seq<Command>)
    requires |last| == |b|
    ensures a + last <= a + (b + c) <==> last == b
    ensures a + [] <= a + (b + c)
  {
    assert (a + (b + c))[|a|..] == b + c && (a + last)[|a|..] == last && (b + c)[..|b|] == b;
    if a + last <= a + (b + c) {
      assert last == (a + last)[|a|..|a| + |b|] == (a + (b + c))[|a|..|a| + |b|] == b;
    }
  }

  lemma ReceivableAt(codec: Codec, fs: seq<Command>, n: nat, capacity: nat)
    requires AllReceivable(codec, fs, capacity) && n < |fs|
    ensures Receivable(codec, fs[n]) && |fs[n].payload| <= capacity
  {
  }

  lemma NoneIsCut(codec: Codec, fs: seq<Command>, k: nat, errno: int, buffer: seq<byte>)
    requires AllReceivable(codec, fs, |buffer|) && WholeIn(fs, k) == |fs|
    ensures fs[..WholeIn(fs, k)] == fs && LastOfAll(codec, fs, k, errno, buffer) == Outcome([], false)
    ensures Harmless(codec, fs, k, errno, buffer)
  {
    hide Receivable;
  }

  lemma OneIsCut(codec: Codec, fs: seq<Command>, k: nat, errno: int, buffer: seq<byte>)
    requires AllReceivable(codec, fs, |buffer|) && WholeIn(fs, k) < |fs|
    ensures var n, j := WholeIn(fs, k), CutAt(fs, k); var b := BufferAfter(fs[..n], buffer);
      && |fs[n].payload| <= |b| && j < |Bytes(fs[n])|
      && LastOfAll(codec, fs, k, errno, buffer) == LastOf(codec, fs[n], j, errno, b)
      && (Harmless(codec, fs, k, errno, buffer) <==>
            (Delivers(codec, fs[n], j, errno, b) ==> Passes(codec, fs[n], j, b)))
  {
    hide Receivable, LastOf, Delivers, Passes, Bytes;
  }

  /** A prefix, and no more than one delivery behind it. */
  predicate AtMostOneMore(whole: seq<Command>, log: seq<Command>) {
    whole <= log && |log| <= |whole| + 1
  }

  lemma OneMore(whole: seq<Command>, last: seq<Command>)
    requires |last| <= 1
    ensures AtMostOneMore(whole, whole + last)
  {
  }

  /** After a cut at any byte, what is delivered is a prefix of what the frames stand
      for exactly if the cut is harmless. */
  lemma CutIsPrefix(codec: Codec, fs: seq<Command>, k: nat, errno: int, buffer: seq<byte>)
    requires AllReceivable(codec, fs, |buffer|) && k <= |Wire(fs)|
    ensures Legible(Wire(fs)[..k], errno, |buffer|)
    ensures var log := Process(codec, Wire(fs)[..k], errno, buffer).log;
      && AtMostOneMore(UnpackAll(codec, fs[..WholeIn(fs, k)]), log)
      && (log <= UnpackAll(codec, fs) <==> Harmless(codec, fs, k, errno, buffer))
  {
    hide *;
    ProcessCut(codec, fs, k, errno, buffer);
    var n, j := WholeIn(fs, k), CutAt(fs, k);
    if n < |fs| {
      var b := BufferAfter(fs[..n], buffer);
      ReceivableAt(codec, fs, n, |buffer|);
      OneIsCut(codec, fs, k, errno, buffer);
      LastIs(codec, fs[n], j, errno, b);
      UnpackSplit(codec, fs, n);
      var last := LastOf(codec, fs[n], j, errno, b).log;
      OneMore(UnpackAll(codec, fs[..n]), last);
      PrefixBy(UnpackAll(codec, fs[..n]), if last == [] then Unpack(codec, fs[n]) else last,
               Unpack(codec, fs[n]), UnpackAll(codec, fs[n + 1..]));
    } else {
      NoneIsCut(codec, fs, k, errno, buffer);
      NothingAdded(UnpackAll(codec, fs));
      OneMore(UnpackAll(codec, fs), []);
    }
  }

  // ---- A cut that does harm ----

  /** A header of uncompressed data at the very end of the connection. */
  lemma HeaderAtTheEnd(codec: Codec, g: Command, errno: int, buffer: seq<byte>)
    requires CarriesData(g.header) && g.header.flags != CMD_LZ4_FLAG && 0 < g.header.len <= |buffer|
    ensures var s := Encode(g.header);
      && Legible(s, errno, |buffer|)
      && Process(codec, s, errno, buffer) == Outcome([Command(g.header, buffer[..g.header.len])], false)
  {
    var s, h := Encode(g.header), g.header;
    DecodeEncode(h);
    assert s[..HEADER_SIZE] == s && s[HEADER_SIZE..] == [];
    assert Remaining(h, []) == [] && Overwritten(buffer, [], Size(h)) == buffer;
    NothingArrives(codec, errno, buffer);
    hide Decode, Encode;
    var delivered := [Command(h, buffer[..h.len])];
    assert One(codec, h, [], buffer) == Outcome(delivered, false);
    assert delivered + [] == delivered;
  }

  lemma BeginsWith(f: Command, g: Command)
    ensures Bytes(f) + Encode(g.header) <= Wire([f, g])
  {
    BytesAre(g);
    hide Bytes, Encode;
    assert [f, g][1..] == [g] && Wire([g]) == Bytes(g) + [];
    assert Wire([f, g]) == Bytes(f) + Wire([g]);
  }

  lemma KeepsPayload(codec: Codec, f: Command, rest: seq<byte>, buffer: seq<byte>, n: nat)
    requires Receivable(codec, f) && 0 < n <= |f.payload| <= |buffer|
    ensures Fits(f.header, |buffer|)
    ensures NextBuffer(f.header, f.payload + rest, buffer)[..n] == f.payload[..n]
  {
  }

  /** A data command that is cut off right behind its header is delivered with what
      the buffer still holds of the one before. */
  lemma StaleData(codec: Codec, f: Command, g: Command, errno: int, buffer: seq<byte>)
    requires Receivable(codec, f) && Receivable(codec, g) && |f.payload| <= |buffer|
    requires CarriesData(g.header) && g.header.flags != CMD_LZ4_FLAG && 0 < |g.payload| <= |f.payload|
    ensures var s := Bytes(f) + Encode(g.header);
      && s <= Wire([f, g]) && Legible(s, errno, |buffer|)
      && Process(codec, s, errno, buffer) ==
           Outcome(Unpack(codec, f) + [Command(g.header, f.payload[..|g.payload|])], false)
  {
    var rest := Encode(g.header);
    BeginsWith(f, g);
    ReceivableFits(codec, g, |buffer|);
    hide *;
    KeepsPayload(codec, f, rest, buffer, |g.payload|);
    var b := NextBuffer(f.header, f.payload + rest, buffer);
    HeaderAtTheEnd(codec, g, errno, b);
    WholeFrame(codec, f, rest, errno, buffer);
    ThenParts(Unpack(codec, f), Process(codec, rest, errno, b));
  }

  /** A codec that gains nothing, and two data commands that differ. */
  const ADDING := Codec(Add, Drop)

  function Add(s: seq<byte>): seq<byte> {
    [0] + s
  }

  function Drop(s: seq<byte>): seq<byte> {
    if s == [] then [] else s[1..]
  }

  const FIRST := Command(BLANK.(cmd := CMD_COPYIN_DATA, len := 1, vBytes := 1), [1])
  const SECOND := Command(BLANK.(cmd := CMD_COPYIN_DATA, len := 1, vBytes := 1), [2])

  lemma AddingIsLossless()
    ensures Lossless(ADDING) && NeverEmpty(ADDING)
  {
    forall s: seq<byte>
      ensures Drop(Add(s)) == s
    {
      assert Add(s)[1..] == s;
    }
  }

  lemma TwoPacked(codec: Codec, a: Answer, b: Answer)
    requires OfferedAnswer(a, MAX_LEN) && OfferedAnswer(b, MAX_LEN)
    ensures AllOffered([a, b]) && FramesOf(codec, [a, b]) == FrameOf(codec, a) + FrameOf(codec, b)
  {
    hide OfferedAnswer, FrameOf;
    assert [a, b][..1] == [a] && [a][..0] == [];
    assert FramesOf(codec, [a]) == [] + FrameOf(codec, a) == FrameOf(codec, a);
  }

  lemma TwoUnpacked(codec: Codec, f: Command, g: Command)
    ensures UnpackAll(codec, [f, g]) == Unpack(codec, f) + Unpack(codec, g)
  {
    hide Unpack;
    assert [f, g][..1] == [f] && [f][..0] == [];
    assert UnpackAll(codec, [f]) == [] + Unpack(codec, f) == Unpack(codec, f);
  }

  /** A byte of data that this codec gains nothing for. */
  lemma OneByte(f: Command)
    requires f == FIRST || f == SECOND
    ensures OfferedAnswer(Got(f), MAX_LEN) && FrameOf(ADDING, Got(f)) == [f]
    ensures Receivable(ADDING, f) && Unpack(ADDING, f) == [f] && |f.payload| == 1
  {
  }

  lemma TwoFrames()
    ensures var answers, frames := [Got(FIRST), Got(SECOND)], [FIRST, SECOND];
      AllOffered(answers) && FramesOf(ADDING, answers) == frames && UnpackAll(ADDING, frames) == frames
  {
    OneByte(FIRST);
    OneByte(SECOND);
    hide *;
    TwoPacked(ADDING, Got(FIRST), Got(SECOND));
    TwoUnpacked(ADDING, FIRST, SECOND);
    assert [FIRST] + [SECOND] == [FIRST, SECOND];
  }

  lemma OtherSecond()
    ensures !([FIRST] + [Command(SECOND.header, FIRST.payload[..1])] <= [FIRST, SECOND])
  {
    var log := [FIRST] + [Command(SECOND.header, FIRST.payload[..1])];
    assert log[1].payload == [1] && [FIRST, SECOND][1].payload == [2];
  }

  lemma SecondIsCut()
    ensures CarriesData(SECOND.header) && SECOND.header.flags != CMD_LZ4_FLAG
    ensures |FIRST.payload| == |SECOND.payload| == 1
    ensures var k := HEADER_SIZE + 1 + HEADER_SIZE; var w := Wire([FIRST, SECOND]);
      k < |w| && w[..k] == Bytes(FIRST) + Encode(SECOND.header)
  {
    BytesLength(FIRST);
    BytesLength(SECOND);
    hide Bytes, Encode, Wire;
    TwoOnWire(FIRST, SECOND);
  }

  /** The second one, cut off behind its header, is delivered with the data of the
      first, whatever errno is. */
  lemma StaleDataMayHarm(errno: int, buffer: seq<byte>)
    requires |buffer| > 0
    ensures Lossless(ADDING) && NeverEmpty(ADDING) && AllOffered([Got(FIRST), Got(SECOND)])
    ensures var frames, k := FramesOf(ADDING, [Got(FIRST), Got(SECOND)]), HEADER_SIZE + 1 + HEADER_SIZE;
      && k < |Wire(frames)| && Legible(Wire(frames)[..k], errno, |buffer|)
      && !(Process(ADDING, Wire(frames)[..k], errno, buffer).log <= UnpackAll(ADDING, frames))
  {
    hide *;
    AddingIsLossless();
    TwoFrames();
    SecondIsCut();
    OneByte(FIRST);
    OneByte(SECOND);
    StaleData(ADDING, FIRST, SECOND, errno, buffer);
    OtherSecond();
  }

  lemma TwoOnWire(f: Command, g: Command)
    ensures Wire([f, g]) == Bytes(f) + Bytes(g)
    ensures Wire([f, g])[..|Bytes(f)| + HEADER_SIZE] == Bytes(f) + Encode(g.header)
  {
    BytesAre(g);
    hide Bytes, Encode;
    assert [f, g][1..] == [g] && Wire([g]) == Bytes(g) + [];
    assert Wire([f, g]) == Bytes(f) + Wire([g]);
  }
}
