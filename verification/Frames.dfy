/** What travels between two batching proxies, and what the receiving one makes of it. */
module Frames {
  import opened Words
  import opened Commands

  /** Receivers read no payload behind a header without a command. */
  predicate Complete(f: Command) {
    f.header.cmd != CMD_NONE ==> f.header.len == |f.payload|
  }

  // ---- Frames and the stream of their bytes ----

  /** A frame that the receiver finds the end of; one without a command has no payload. */
  predicate WellFramed(f: Command) {
    && f.header.len == |f.payload|
    && (f.header.cmd == CMD_NONE ==> f.payload == [])
  }

  function Bytes(f: Command): seq<byte> {
    Encode(f.header) + f.payload
  }

  function Wire(fs: seq<Command>): seq<byte> {
    if fs == [] then [] else Bytes(fs[0]) + Wire(fs[1..])
  }

  // ---- What is handed to the local kernel ----

  /** dvk_put2lcl(h, buffer): the kernel is given the header and looks at c_len bytes of the buffer. */
  function Put(h: Header, buffer: seq<byte>): Command {
    Command(h, if 0 <= h.len <= |buffer| then buffer[..h.len] else [])
  }

  function PutAll(hs: seq<Header>, buffer: seq<byte>): (ds: seq<Command>)
    ensures |ds| == |hs|
  {
    seq(|hs|, i requires 0 <= i < |hs| => Put(hs[i], buffer))
  }

  /** The length test of the receiver; when it fails the batch is dropped. */
  predicate BatchFits(h: Header) {
    h.batchNr * HEADER_SIZE == h.len
  }

  /** The commands that a frame stands for: its own, then the ones batched in its payload. */
  function Deliver(f: Command): seq<Command>
    requires Complete(f)
  {
    if f.header.cmd == CMD_NONE then []
    else if IsBatch(f.header) && BatchFits(f.header) then
      [f] + PutAll(DecodeAll(f.payload, f.header.batchNr), f.payload)
    else [f]
  }

  predicate AllComplete(fs: seq<Command>) {
    forall i | 0 <= i < |fs| :: Complete(fs[i])
  }

  function DeliverAll(fs: seq<Command>): seq<Command>
    requires AllComplete(fs)
  {
    if fs == [] then [] else Deliver(fs[0]) + DeliverAll(fs[1..])
  }

  // ---- The same from the bytes alone ----

  const MAX_LEN: nat := 0x7fff_ffff

  /** A buffer that was cleared and then received into: it keeps its zeros where
      the connection has ended too early. */
  function Filled(s: seq<byte>, n: nat): (p: seq<byte>)
    ensures |p| == n
  {
    if |s| >= n then s[..n] else s + Zeros(n - |s|)
  }

  /** c_len, which no sender makes negative. */
  function PayloadSize(h: Header): nat {
    if h.len > 0 then h.len else 0
  }

  /** The first frame of a stream; its payload is filled up if the stream ends in it. */
  function FirstFrame(s: seq<byte>): (f: Command)
    requires |s| >= HEADER_SIZE
  {
    var h := Decode(s[..HEADER_SIZE]);
    Command(h, if h.cmd == CMD_NONE then [] else Filled(s[HEADER_SIZE..], PayloadSize(h)))
  }

  /** What is left of the stream behind it. */
  function Behind(s: seq<byte>): (r: seq<byte>)
    requires |s| >= HEADER_SIZE
    ensures |r| < |s|
  {
    var n := HEADER_SIZE + |FirstFrame(s).payload|;
    if |s| >= n then s[n..] else []
  }

  /** The frames whose headers are all there. */
  function FramesIn(s: seq<byte>): seq<Command>
    decreases |s|
  {
    if |s| < HEADER_SIZE then [] else [FirstFrame(s)] + FramesIn(Behind(s))
  }

  /** The bytes behind them, too few for a header. */
  function Remainder(s: seq<byte>): (r: seq<byte>)
    ensures |r| < HEADER_SIZE
    decreases |s|
  {
    if |s| < HEADER_SIZE then s else Remainder(Behind(s))
  }

  /** What a receiver takes for a frame that does not notice the end of the
      connection in a header: the header is filled up, and so is its payload. */
  function LastFrame(s: seq<byte>): Command {
    FirstFrame(Filled(Remainder(s), HEADER_SIZE))
  }

  /** The frames that the receiver finds in everything that arrives. Where recv()
      returns 0 in a header, it returns errno as its result, and 0 means success. */
  function AllFrames(s: seq<byte>, errno: int): seq<Command> {
    FramesIn(s) + if errno == 0 then [LastFrame(s)] else []
  }

  /** Everything the receiver delivers when these are all the bytes that arrive. */
  function Delivered(s: seq<byte>, errno: int): seq<Command>
    requires AllComplete(AllFrames(s, errno))
  {
    DeliverAll(AllFrames(s, errno))
  }

  /** Every frame in the stream has a length that the receiver's buffer can take. */
  predicate Readable(s: seq<byte>, capacity: nat, errno: int) {
    AllTaken(AllFrames(s, errno), capacity)
  }

  predicate Taken(f: Command, capacity: nat) {
    f.header.cmd != CMD_NONE ==> f.header.len == |f.payload| <= capacity
  }

  predicate AllTaken(fs: seq<Command>, capacity: nat) {
    forall i | 0 <= i < |fs| :: Taken(fs[i], capacity)
  }

  lemma TakenAreComplete(fs: seq<Command>, capacity: nat)
    requires AllTaken(fs, capacity)
    ensures AllComplete(fs)
  {
  }

  // ---- Framing: every way through the stream finds the frames that were written ----

  lemma FirstFrameIs(f: Command, rest: seq<byte>)
    requires WellFramed(f)
    ensures var s := Bytes(f) + rest; FirstFrame(s) == f && Behind(s) == rest
  {
    var s := Bytes(f) + rest;
    assert s[..HEADER_SIZE] == Encode(f.header);
    assert s[HEADER_SIZE..] == f.payload + rest;
    DecodeEncode(f.header);
    hide Encode, Decode;
    assert f.header.len >= 0;
    assert FirstFrame(s) == f;
    assert s[HEADER_SIZE + |f.payload|..] == rest;
  }

  /** Frames that a receiver with a buffer of this capacity can take. */
  predicate AllFramed(fs: seq<Command>, capacity: nat) {
    forall i | 0 <= i < |fs| :: WellFramed(fs[i]) && fs[i].header.len <= capacity
  }

  lemma FramedAreComplete(fs: seq<Command>, capacity: nat)
    requires AllFramed(fs, capacity)
    ensures AllComplete(fs)
  {
  }

  lemma TailIsFramed(fs: seq<Command>, capacity: nat)
    requires AllFramed(fs, capacity) && fs != []
    ensures WellFramed(fs[0]) && fs[0].header.len <= capacity
    ensures AllFramed(fs[1..], capacity) && AllComplete(fs) && AllComplete(fs[1..])
  {
  }

  lemma {:induction false} WireAppend(fs: seq<Command>, gs: seq<Command>)
    ensures Wire(fs + gs) == Wire(fs) + Wire(gs)
  {
    hide Bytes;
    if fs == [] {
      assert fs + gs == gs;
    } else {
      assert (fs + gs)[1..] == fs[1..] + gs;
      assert Wire(fs + gs) == Bytes(fs[0]) + Wire(fs[1..] + gs);
      assert Wire(fs) == Bytes(fs[0]) + Wire(fs[1..]);
      hide Wire;
      WireAppend(fs[1..], gs);
      Associates(Bytes(fs[0]), Wire(fs[1..]), Wire(gs));
    }
  }

  lemma {:induction false} DeliverAllAppend(fs: seq<Command>, gs: seq<Command>)
    requires AllComplete(fs) && AllComplete(gs)
    ensures AllComplete(fs + gs)
    ensures DeliverAll(fs + gs) == DeliverAll(fs) + DeliverAll(gs)
  {
    hide Deliver, Complete;
    if fs == [] {
      assert fs + gs == gs;
    } else {
      assert (fs + gs)[1..] == fs[1..] + gs;
      DeliverAllAppend(fs[1..], gs);
    }
  }

  lemma DeliverAllAppendOne(frames: seq<Command>, f: Command)
    requires AllComplete(frames) && Complete(f)
    ensures AllComplete(frames + [f]) && DeliverAll(frames + [f]) == DeliverAll(frames) + Deliver(f)
  {
    DeliverAllAppend(frames, [f]);
    hide Deliver;
    assert DeliverAll([f]) == Deliver(f) + [];
  }

  lemma BytesLength(f: Command)
    ensures |Bytes(f)| == HEADER_SIZE + |f.payload|
  {
  }

  lemma BytesAre(f: Command)
    ensures Bytes(f) == Encode(f.header) + f.payload && Encode(f.header) <= Bytes(f)
    ensures Bytes(f)[|Encode(f.header)|..] == f.payload
  {
  }

  /** The stream is self-delimiting: whatever follows, the receiver finds exactly
      the frames that were written. */
  lemma {:induction false} WireIsRead(fs: seq<Command>, rest: seq<byte>, capacity: nat)
    requires AllFramed(fs, capacity)
    ensures FramesIn(Wire(fs) + rest) == fs + FramesIn(rest)
    ensures Remainder(Wire(fs) + rest) == Remainder(rest)
  {
    if fs == [] {
      assert Wire(fs) + rest == rest;
      assert fs + FramesIn(rest) == FramesIn(rest);
    } else {
      TailIsFramed(fs, capacity);
      WireStarts(fs, rest);
      var s := Wire(fs[1..]) + rest;
      FirstFrameIs(fs[0], s);
      BytesLength(fs[0]);
      hide Bytes, FirstFrame, Behind, Wire, AllFramed, WellFramed;
      WireIsRead(fs[1..], rest, capacity);
      assert [fs[0]] + fs[1..] == fs;
      Associates([fs[0]], fs[1..], FramesIn(rest));
    }
  }

  /** A cleared header is one without a command. */
  lemma ClearedHeader()
    ensures Decode(Zeros(HEADER_SIZE)).cmd == CMD_NONE
  {
    var s := Zeros(HEADER_SIZE);
    WordsInAt(s[..64], 0);
    assert s[..64][0..4] == Zeros(4);
    hide WordsIn;
  }

  lemma NothingLast(s: seq<byte>)
    requires Remainder(s) == []
    ensures LastFrame(s).header.cmd == CMD_NONE && LastFrame(s).payload == []
  {
    ClearedHeader();
    assert Filled([], HEADER_SIZE) == Zeros(HEADER_SIZE);
  }

  lemma WireFrames(fs: seq<Command>, capacity: nat)
    requires AllFramed(fs, capacity)
    ensures FramesIn(Wire(fs)) == fs && Remainder(Wire(fs)) == []
  {
    hide *;
    WireIsRead(fs, [], capacity);
    NothingAdded(Wire(fs));
    NothingAdded(fs);
    NoFrames();
  }

  lemma NoFrames()
    ensures FramesIn([]) == [] && Remainder([]) == []
  {
  }

  /** Whole frames, and nothing more: whether or not the end of the connection is
      noticed, it adds nothing. */
  lemma WireIsDelivered(fs: seq<Command>, capacity: nat, errno: int)
    requires AllFramed(fs, capacity)
    ensures Readable(Wire(fs), capacity, errno) && AllComplete(AllFrames(Wire(fs), errno)) && AllComplete(fs)
    ensures Delivered(Wire(fs), errno) == DeliverAll(fs)
  {
    FramedAreComplete(fs, capacity);
    WireFrames(fs, capacity);
    NothingLast(Wire(fs));
    var last := LastFrame(Wire(fs));
    hide Wire, LastFrame, FramesIn;
    if errno == 0 {
      DeliverAllAppend(fs, [last]);
      assert DeliverAll([last]) == [] + [];
    } else {
      NothingAdded(fs);
    }
  }

  lemma WireStarts(fs: seq<Command>, rest: seq<byte>)
    requires fs != []
    ensures Wire(fs) + rest == Bytes(fs[0]) + (Wire(fs[1..]) + rest)
  {
    hide Bytes;
  }

  lemma NothingAdded<T>(s: seq<T>)
    ensures s + [] == s
  {
  }

  lemma Associates<T>(a: seq<T>, b: seq<T>, c: seq<T>)
    ensures (a + b) + c == a + (b + c)
  {
  }
}
