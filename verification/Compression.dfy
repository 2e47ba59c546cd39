/** What the compressing proxies of lz4tcp_th_proxy.c send and deliver, as
    functions of the commands, for any codec. */
module Compression {
  import opened Words
  import opened Commands
  import opened Frames
  import opened Batching

  /** LZ4F_compressFrame() and LZ4F_decompress() on whole payloads. */
  datatype Codec = Codec(compress: seq<byte> -> seq<byte>, decompress: seq<byte> -> seq<byte>)

  ghost predicate Lossless(codec: Codec) {
    forall s :: codec.decompress(codec.compress(s)) == s
  }

  const CMD_LZ4_FLAG: uint64 := 0x1234

  /** What the kernel promises of a command: c_len is the length of its payload, and v_bytes too if it carries data. */
  predicate Offered(c: Command) {
    && c.header.cmd != CMD_NONE
    && c.header.len == |c.payload|
    && (CarriesData(c.header) ==> c.header.vBytes == |c.payload|)
  }

  predicate OfferedAnswer(a: Answer, capacity: nat) {
    match a
    case Got(c) => Offered(c) && |c.payload| <= capacity
    case Failed(code, _) => code != OK
  }

  /** A command that ps_send_remote() accepts; it refuses others with EDVSPACKSIZE. */
  predicate Accepted(c: Command) {
    CarriesData(c.header) <==> c.header.len != 0
  }

  // ---- The sending side ----

  /** Compression is used only if it gains something. */
  predicate Gains(codec: Codec, c: Command) {
    CarriesData(c.header) && |codec.compress(c.payload)| < |c.payload|
  }

  /** The frame of an accepted command. */
  function Pack(codec: Codec, c: Command): Command
    requires c.header.len == |c.payload|
  {
    var h := c.header.(sndSeq := 0, ackSeq := 0);
    if Gains(codec, c) then
      var z := codec.compress(c.payload);
      Command(h.(len := |z|, flags := CMD_LZ4_FLAG), z)
    else
      Command(h.(flags := 0), c.payload)
  }

  /** A HELLO is what the buffer holds, without a command. */
  function PackHello(codec: Codec, left: Header): Command {
    Pack(codec, Alone(left.(cmd := CMD_NONE, len := 0, rcode := 0)))
  }

  function FrameOf(codec: Codec, a: Answer): seq<Command>
    requires OfferedAnswer(a, MAX_LEN)
  {
    match a
    case Got(c) => if Accepted(c) then [Pack(codec, c)] else []
    case Failed(code, left) => if code.TimedOut? then [PackHello(codec, left)] else []
  }

  predicate AllOffered(answers: seq<Answer>) {
    forall i | 0 <= i < |answers| :: OfferedAnswer(answers[i], MAX_LEN)
  }

  /** Every frame sent for these answers of the kernel, none of which is EDVSNOTCONN. */
  function FramesOf(codec: Codec, answers: seq<Answer>): seq<Command>
    requires AllOffered(answers)
  {
    if answers == [] then []
    else FramesOf(codec, answers[..|answers| - 1]) + FrameOf(codec, answers[|answers| - 1])
  }

  /** The index behind the first EDVSNOTCONN from the i-th answer on; an exhausted
      kernel is not connected. */
  function RefusedAt(answers: seq<Answer>, i: nat): (n: nat)
    requires i <= |answers|
    ensures i <= n <= |answers|
    ensures forall j | i <= j < n - 1 :: answers[j].Got? || answers[j].code != NotConn
    ensures n < |answers| ==> i < n && answers[n - 1].Failed? && answers[n - 1].code == NotConn
    decreases |answers| - i
  {
    if i == |answers| then i
    else if answers[i].Failed? && answers[i].code == NotConn then i + 1
    else RefusedAt(answers, i + 1)
  }

  // ---- The receiving side ----

  /** What pr_process_message() gives to the local kernel for a frame. */
  function Unpack(codec: Codec, f: Command): seq<Command> {
    if f.header.cmd == CMD_NONE then []
    else if CarriesData(f.header) && f.payload != [] && f.header.flags == CMD_LZ4_FLAG then
      var raw := codec.decompress(f.payload);
      if |raw| == f.header.vBytes then [Command(f.header.(len := f.header.vBytes), raw)] else []
    else [f]
  }

  function UnpackAll(codec: Codec, fs: seq<Command>): seq<Command> {
    if fs == [] then [] else UnpackAll(codec, fs[..|fs| - 1]) + Unpack(codec, fs[|fs| - 1])
  }

  // ---- Round trip ----

  /** The command as it was fetched, but for the fields that the proxies use themselves. */
  function Restored(codec: Codec, c: Command): Command {
    c.(header := c.header.(flags := if Gains(codec, c) then CMD_LZ4_FLAG else 0, sndSeq := 0, ackSeq := 0))
  }

  /** The accepted commands among the answers, in order. */
  function AcceptedOf(answers: seq<Answer>): seq<Command> {
    if answers == [] then []
    else
      var a := answers[|answers| - 1];
      AcceptedOf(answers[..|answers| - 1]) + if a.Got? && Accepted(a.command) then [a.command] else []
  }

  function RestoredAll(codec: Codec, cs: seq<Command>): (rs: seq<Command>)
    ensures |rs| == |cs|
  {
    seq(|cs|, i requires 0 <= i < |cs| => Restored(codec, cs[i]))
  }

  /** The codec may make nothing of something; the frame then looks as if there had been no data. */
  predicate Vanishes(codec: Codec, c: Command) {
    CarriesData(c.header) && codec.compress(c.payload) == []
  }

  /** An accepted command is delivered as it was exactly if its data did not vanish. */
  lemma PackUnpack(codec: Codec, c: Command)
    requires Lossless(codec) && Offered(c) && Accepted(c)
    ensures |Unpack(codec, Pack(codec, c))| == 1
    ensures Unpack(codec, Pack(codec, c)) == [Restored(codec, c)] <==> !Vanishes(codec, c)
  {
    if Gains(codec, c) {
      assert codec.decompress(codec.compress(c.payload)) == c.payload;
    }
  }

  /** No frame is longer than the command is by itself, and every frame is self-delimiting. */
  lemma PackIsNoLonger(codec: Codec, c: Command)
    requires Offered(c)
    ensures WellFramed(Pack(codec, c)) && |Bytes(Pack(codec, c))| <= |Bytes(c)|
  {
  }

  predicate NoneVanishes(codec: Codec, cs: seq<Command>) {
    forall i | 0 <= i < |cs| :: !Vanishes(codec, cs[i])
  }

  lemma NoneVanishesNext(codec: Codec, cs: seq<Command>, c: Command)
    ensures NoneVanishes(codec, cs + [c]) <==> NoneVanishes(codec, cs) && !Vanishes(codec, c)
  {
    if NoneVanishes(codec, cs + [c]) {
      forall i | 0 <= i < |cs|
        ensures !Vanishes(codec, cs[i])
      {
        assert (cs + [c])[i] == cs[i];
      }
      assert (cs + [c])[|cs|] == c;
    }
  }

  lemma SameSums<T>(x: seq<T>, p: seq<T>, y: seq<T>, q: seq<T>)
    requires |x| == |y|
    ensures x + p == y + q <==> x == y && p == q
  {
    if x + p == y + q {
      assert x == (x + p)[..|x|] && y == (y + q)[..|y|];
      assert p == (x + p)[|x|..] && q == (y + q)[|y|..];
    }
  }

  lemma UnpackNext(codec: Codec, fs: seq<Command>, f: Command)
    ensures UnpackAll(codec, fs + [f]) == UnpackAll(codec, fs) + Unpack(codec, f)
  {
    assert (fs + [f])[..|fs|] == fs;
  }

  lemma RestoredNext(codec: Codec, cs: seq<Command>, c: Command)
    ensures RestoredAll(codec, cs + [c]) == RestoredAll(codec, cs) + [Restored(codec, c)]
  {
  }

  lemma OfferedPrefix(answers: seq<Answer>, n: nat)
    requires AllOffered(answers) && n < |answers|
    ensures AllOffered(answers[..n]) && OfferedAnswer(answers[n], MAX_LEN)
  {
  }

  /** Exactly the accepted commands are delivered, in order and restored, whether
      or not each was compressed, exactly if the codec makes nothing of none of them. */
  lemma {:induction false} RoundTrip(codec: Codec, answers: seq<Answer>)
    requires Lossless(codec) && AllOffered(answers)
    ensures |UnpackAll(codec, FramesOf(codec, answers))| == |AcceptedOf(answers)|
    ensures UnpackAll(codec, FramesOf(codec, answers)) == RestoredAll(codec, AcceptedOf(answers)) <==>
            NoneVanishes(codec, AcceptedOf(answers))
  {
    if answers != [] {
      var before, a := answers[..|answers| - 1], answers[|answers| - 1];
      OfferedPrefix(answers, |answers| - 1);
      RoundTrip(codec, before);
      var fs, cs := FramesOf(codec, before), AcceptedOf(before);
      if a.Got? && Accepted(a.command) {
        var c := a.command;
        assert FramesOf(codec, answers) == fs + [Pack(codec, c)] && AcceptedOf(answers) == cs + [c];
        hide *;
        PackUnpack(codec, c) by { OfferedIs(a); }
        UnpackNext(codec, fs, Pack(codec, c)) by { OfferedIs(a); }
        RestoredNext(codec, cs, c);
        NoneVanishesNext(codec, cs, c);
        SameSums(UnpackAll(codec, fs), Unpack(codec, Pack(codec, c)), RestoredAll(codec, cs), [Restored(codec, c)])
          by { OfferedIs(a); }
      } else if a.Failed? && a.code.TimedOut? {
        UnpackNext(codec, fs, PackHello(codec, a.left));
        assert FramesOf(codec, answers) == fs + [PackHello(codec, a.left)] && AcceptedOf(answers) == cs;
      } else {
        assert FramesOf(codec, answers) == fs && AcceptedOf(answers) == cs;
      }
    }
  }

  /** A frame of LZ4 has a header, whatever is in it. */
  ghost predicate NeverEmpty(codec: Codec) {
    forall s :: codec.compress(s) != []
  }

  /** With such a codec, exactly the accepted commands arrive, restored. */
  lemma AllRestored(codec: Codec, answers: seq<Answer>)
    requires Lossless(codec) && NeverEmpty(codec) && AllOffered(answers)
    ensures UnpackAll(codec, FramesOf(codec, answers)) == RestoredAll(codec, AcceptedOf(answers))
  {
    var cs := AcceptedOf(answers);
    RoundTrip(codec, answers);
    hide UnpackAll, FramesOf, RestoredAll, AcceptedOf;
    forall i | 0 <= i < |cs|
      ensures !Vanishes(codec, cs[i])
    {
      assert codec.compress(cs[i].payload) != [];
    }
  }

  // ---- What the receiver can take ----

  /** A frame that the receiver finds the end of, and whose payload decompresses to what the header says. */
  predicate Receivable(codec: Codec, f: Command) {
    && WellFramed(f)
    && (!CarriesData(f.header) ==> f.payload == [])
    && (CarriesData(f.header) && f.payload != [] && f.header.flags == CMD_LZ4_FLAG ==>
          |codec.decompress(f.payload)| == f.header.vBytes)
  }

  predicate AllReceivable(codec: Codec, fs: seq<Command>, capacity: nat) {
    forall i | 0 <= i < |fs| :: Receivable(codec, fs[i]) && |fs[i].payload| <= capacity
  }

  lemma PackIsReceivable(codec: Codec, c: Command)
    requires Lossless(codec) && Accepted(c)
    requires Offered(c) || (c.header.cmd == CMD_NONE && c.payload == [] && c.header.len == 0)
    ensures Receivable(codec, Pack(codec, c)) && |Pack(codec, c).payload| <= |c.payload|
  {
    if Gains(codec, c) {
      assert codec.decompress(codec.compress(c.payload)) == c.payload;
    }
  }

  /** Everything that the sender sends can be received. */
  lemma {:induction false} FramesAreReceivable(codec: Codec, answers: seq<Answer>, capacity: nat)
    requires Lossless(codec) && AllOffered(answers) && capacity <= MAX_LEN
    requires forall i | 0 <= i < |answers| :: OfferedAnswer(answers[i], capacity)
    ensures AllReceivable(codec, FramesOf(codec, answers), capacity)
  {
    if answers != [] {
      var a := answers[|answers| - 1];
      OfferedPrefix(answers, |answers| - 1);
      FramesAreReceivable(codec, answers[..|answers| - 1], capacity);
      match a {
        case Got(c) => if Accepted(c) { PackIsReceivable(codec, c); }
        case Failed(_, left) => PackIsReceivable(codec, Alone(left.(cmd := CMD_NONE, len := 0, rcode := 0)));
      }
    }
  }

  // ---- A codec for which the round trip fails ----

  /** It exchanges the empty payload and one other, which is lossless. */
  const EXCHANGING := Codec(Exchange, Exchange)

  function Exchange(s: seq<byte>): seq<byte> {
    if s == [] then [7] else if s == [7] then [] else s
  }

  const VANISHING := Command(BLANK.(cmd := CMD_COPYIN_DATA, len := 1, vBytes := 1), [7])

  /** The data of this command never arrives. */
  lemma DataMayVanish()
    ensures Lossless(EXCHANGING) && Offered(VANISHING) && Accepted(VANISHING)
    ensures Unpack(EXCHANGING, Pack(EXCHANGING, VANISHING)) != [Restored(EXCHANGING, VANISHING)]
  {
    PackUnpack(EXCHANGING, VANISHING);
  }

  lemma OfferedIs(a: Answer)
    requires OfferedAnswer(a, MAX_LEN) && a.Got?
    ensures Offered(a.command)
  {
  }
}
