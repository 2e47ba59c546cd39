/** What the receiver of lz4tcp_th_proxy.c makes of a stream, on values. Its
    payload buffer is not cleared, so what it makes of a payload that is cut off
    depends on the payloads before. */
module CompressedStreams {
  import opened Words
  import opened Commands
  import opened Frames
  import opened Batching
  import opened Compression

  // ---- One message ----

  /** recv() into a buffer that keeps what it does not reach. */
  function Overwritten(buffer: seq<byte>, s: seq<byte>, n: nat): (b: seq<byte>)
    requires n <= |buffer|
    ensures |b| == |buffer|
  {
    var m := if |s| < n then |s| else n;
    s[..m] + buffer[m..]
  }

  /** The bytes that are asked for behind a header. */
  function Size(h: Header): nat {
    if CarriesData(h) && h.len > 0 then h.len else 0
  }

  /** A payload has room in the buffer, and only data commands have one. */
  predicate Fits(h: Header, capacity: nat) {
    h.cmd != CMD_NONE ==> Size(h) <= capacity && (!CarriesData(h) ==> h.len <= 0)
  }

  function Remaining(h: Header, s: seq<byte>): (r: seq<byte>)
    ensures |r| <= |s|
  {
    if |s| >= Size(h) then s[Size(h)..] else []
  }

  /** What the kernel is given, and whether the program exits instead. */
  datatype Outcome = Outcome(log: seq<Command>, exits: bool)

  function FrameIn(h: Header, buffer: seq<byte>): Command
    requires Size(h) <= |buffer|
  {
    Command(h, buffer[..Size(h)])
  }

  /** The data does not decompress to the length that the header says. */
  predicate WrongLength(codec: Codec, f: Command) {
    && CarriesData(f.header) && f.payload != [] && f.header.flags == CMD_LZ4_FLAG
    && |codec.decompress(f.payload)| != f.header.vBytes
  }

  function Made(codec: Codec, f: Command): Outcome {
    Outcome(Unpack(codec, f), WrongLength(codec, f))
  }

  // ---- The stream ----

  /** Every message that is found fits; recv() returns 0 in a header with this errno. */
  predicate Legible(s: seq<byte>, errno: int, capacity: nat)
    decreases |s|
  {
    if |s| < HEADER_SIZE then errno == 0 ==> Fits(Decode(Filled(s, HEADER_SIZE)), capacity)
    else
      var h := Decode(s[..HEADER_SIZE]);
      Fits(h, capacity) && Legible(Remaining(h, s[HEADER_SIZE..]), errno, capacity)
  }

  /** A message whose header is h, in front of s. */
  function One(codec: Codec, h: Header, s: seq<byte>, buffer: seq<byte>): Outcome
    requires Fits(h, |buffer|)
  {
    if h.cmd == CMD_NONE then Outcome([], false)
    else Made(codec, FrameIn(h, Overwritten(buffer, s, Size(h))))
  }

  function NextBuffer(h: Header, s: seq<byte>, buffer: seq<byte>): (b: seq<byte>)
    requires Fits(h, |buffer|)
    ensures |b| == |buffer|
  {
    if h.cmd == CMD_NONE then buffer else Overwritten(buffer, s, Size(h))
  }

  function Then(o: Outcome, p: Outcome): Outcome {
    if o.exits then o else Outcome(o.log + p.log, p.exits)
  }

  /** Everything that the receiver makes of what arrives. */
  function Process(codec: Codec, s: seq<byte>, errno: int, buffer: seq<byte>): Outcome
    requires Legible(s, errno, |buffer|)
    decreases |s|
  {
    if |s| < HEADER_SIZE then
      if errno != 0 then Outcome([], false) else One(codec, Decode(Filled(s, HEADER_SIZE)), [], buffer)
    else
      var h, rest := Decode(s[..HEADER_SIZE]), s[HEADER_SIZE..];
      Then(One(codec, h, rest, buffer), Process(codec, Remaining(h, rest), errno, NextBuffer(h, rest, buffer)))
  }

  /** A stream that has ended brings nothing more. */
  lemma NothingArrives(codec: Codec, errno: int, buffer: seq<byte>)
    ensures Legible([], errno, |buffer|) && Process(codec, [], errno, buffer) == Outcome([], false)
  {
    ClearedHeader();
    assert Filled([], HEADER_SIZE) == Zeros(HEADER_SIZE);
    hide Decode;
  }

  // ---- Whole frames ----

  lemma ReceivableFits(codec: Codec, f: Command, capacity: nat)
    requires Receivable(codec, f) && |f.payload| <= capacity
    ensures Fits(f.header, capacity) && Size(f.header) == |f.payload| && !WrongLength(codec, f)
    ensures f.header.len == |f.payload| && (f.header.cmd == CMD_NONE ==> Unpack(codec, f) == [])
  {
  }

  lemma WholeFrame(codec: Codec, f: Command, rest: seq<byte>, errno: int, buffer: seq<byte>)
    requires Receivable(codec, f) && |f.payload| <= |buffer| && Legible(rest, errno, |buffer|)
    ensures var s := Bytes(f) + rest;
      && |NextBuffer(f.header, f.payload + rest, buffer)| == |buffer| && Legible(s, errno, |buffer|)
      && Process(codec, s, errno, buffer) ==
           Then(Outcome(Unpack(codec, f), false),
                Process(codec, rest, errno, NextBuffer(f.header, f.payload + rest, buffer)))
  {
    var s := Bytes(f) + rest;
    HeaderOf(f, rest);
    ReceivableFits(codec, f, |buffer|);
    BehindPayload(f.header, f.payload, rest, buffer);
    hide Bytes, Decode, Receivable, Unpack, Size, Fits, Remaining, Overwritten;
  }

  lemma HeaderOf(f: Command, rest: seq<byte>)
    ensures var s := Bytes(f) + rest;
      |s| >= HEADER_SIZE && Decode(s[..HEADER_SIZE]) == f.header && s[HEADER_SIZE..] == f.payload + rest
  {
    BytesAre(f);
    DecodeEncode(f.header);
    hide Bytes, Encode, Decode;
    assert (Bytes(f) + rest)[..HEADER_SIZE] == Encode(f.header);
  }

  lemma BehindPayload(h: Header, p: seq<byte>, rest: seq<byte>, buffer: seq<byte>)
    requires Size(h) == |p| <= |buffer|
    ensures Remaining(h, p + rest) == rest && FrameIn(h, Overwritten(buffer, p + rest, |p|)) == Command(h, p)
  {
  }

  lemma {:induction false} UnpackFirst(codec: Codec, f: Command, fs: seq<Command>)
    ensures UnpackAll(codec, [f] + fs) == Unpack(codec, f) + UnpackAll(codec, fs)
  {
    hide Unpack;
    if fs == [] {
      assert [f] + fs == [] + [f];
      UnpackNext(codec, [], f);
    } else {
      var before, last := fs[..|fs| - 1], fs[|fs| - 1];
      assert [f] + fs == ([f] + before) + [last] && fs == before + [last];
      UnpackFirst(codec, f, before);
      UnpackNext(codec, [f] + before, last);
      Associates(Unpack(codec, f), UnpackAll(codec, before), Unpack(codec, last));
    }
  }

  lemma TailIsReceivable(codec: Codec, fs: seq<Command>, capacity: nat)
    requires AllReceivable(codec, fs, capacity) && fs != []
    ensures Receivable(codec, fs[0]) && |fs[0].payload| <= capacity && AllReceivable(codec, fs[1..], capacity)
    ensures [fs[0]] + fs[1..] == fs
  {
    hide Receivable;
  }

  /** Whole frames are delivered as what they stand for, whatever the buffer has
      held before and whether or not the end of the connection is noticed. */
  lemma {:induction false} ProcessWire(codec: Codec, fs: seq<Command>, errno: int, buffer: seq<byte>)
    requires AllReceivable(codec, fs, |buffer|)
    ensures Legible(Wire(fs), errno, |buffer|)
    ensures Process(codec, Wire(fs), errno, buffer) == Outcome(UnpackAll(codec, fs), false)
    decreases |fs|
  {
    if fs == [] {
      NothingArrives(codec, errno, buffer);
    } else {
      var f, rest := fs[0], Wire(fs[1..]);
      assert Wire(fs) == Bytes(f) + rest;
      TailIsReceivable(codec, fs, |buffer|);
      ReceivableFits(codec, f, |buffer|);
      hide Bytes, Wire, AllReceivable, Receivable, Unpack, UnpackAll, Process, Legible, Fits;
      var b := NextBuffer(f.header, f.payload + rest, buffer);
      ProcessWire(codec, fs[1..], errno, b);
      WholeFrame(codec, f, rest, errno, buffer);
      UnpackFirst(codec, f, fs[1..]);
    }
  }

  lemma ThenNothing(o: Outcome)
    ensures Then(o, Outcome([], false)) == o
  {
    NothingAdded(o.log);
  }

  lemma ThenParts(whole: seq<Command>, p: Outcome)
    ensures Then(Outcome(whole, false), p) == Outcome(whole + p.log, p.exits)
  {
  }
}
