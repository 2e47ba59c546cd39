/** The compressing proxies once more, case by case and in numerals: which
    commands are accepted, how each goes out, and as what it arrives. */
module CompressionCases {
  import opened Words
  import opened Commands
  import opened Frames
  import opened Batching
  import opened Compression
  import opened CompressedStreams

  /** CMD_COPYIN_DATA or CMD_COPYOUT_DATA */
  predicate IsData(c: Command) {
    c.header.cmd == 5 || c.header.cmd == 8198
  }

  /** A data command needs data, and no other command may have any. */
  predicate Goes(c: Command) {
    if IsData(c) then c.payload != [] else c.payload == []
  }

  predicate Shrinks(codec: Codec, c: Command) {
    IsData(c) && |codec.compress(c.payload)| < |c.payload|
  }

  /** The commands that arrive, in order. */
  function Arriving(answers: seq<Answer>): seq<Command> {
    if answers == [] then []
    else if answers[0].Got? && Goes(answers[0].command) then [answers[0].command] + Arriving(answers[1..])
    else Arriving(answers[1..])
  }

  /** The frame of a command: the shorter of its two forms. */
  predicate GoesAs(codec: Codec, c: Command, f: Command) {
    if Shrinks(codec, c) then
      && f.payload == codec.compress(c.payload)
      && f.header == c.header.(sndSeq := 0, ackSeq := 0, flags := 0x1234, len := f.header.len)
      && f.header.len == |f.payload|
    else
      f == Command(c.header.(sndSeq := 0, ackSeq := 0, flags := 0), c.payload)
  }

  /** What the other side makes of it. */
  predicate ArrivesAs(codec: Codec, c: Command, d: Command) {
    && d.payload == c.payload
    && d.header == c.header.(sndSeq := 0, ackSeq := 0, flags := if Shrinks(codec, c) then 0x1234 else 0)
  }

  lemma AcceptedGoes(c: Command)
    requires Offered(c)
    ensures Accepted(c) <==> Goes(c)
  {
  }

  /** What goes out for an answer of the kernel. */
  lemma FrameIs(codec: Codec, a: Answer)
    requires OfferedAnswer(a, MAX_LEN)
    ensures var fs := FrameOf(codec, a);
      match a
      case Got(c) => if Goes(c) then |fs| == 1 && GoesAs(codec, c, fs[0]) else fs == []
      case Failed(code, left) =>
        fs == if code != TimedOut then []
              else [Command(left.(cmd := 0, len := 0, rcode := 0, flags := 0, sndSeq := 0, ackSeq := 0), [])]
  {
  }

  /** No payload is longer than its command's, and a data command's is as long as the
      shorter of its two forms. */
  lemma PayloadIsShorter(codec: Codec, c: Command)
    requires Offered(c) && Goes(c)
    ensures var n, z := |c.payload|, |codec.compress(c.payload)|;
      |Pack(codec, c).payload| == if IsData(c) && z < n then z else n
  {
  }

  /** What the receiver makes of a frame: what is delivered, and whether the program exits. */
  lemma MadeIs(codec: Codec, f: Command)
    ensures var raw, n, o := codec.decompress(f.payload), f.header.vBytes, Made(codec, f);
      if f.header.cmd == 0 then o == Outcome([], false)
      else if IsData(f) && f.payload != [] && f.header.flags == 0x1234 then
        o == if |raw| == n then Outcome([Command(f.header.(len := n), raw)], false) else Outcome([], true)
      else o == Outcome([f], false)
  {
  }

  /** How many bytes are asked for behind a header. */
  function Asked(h: Header): nat {
    if (h.cmd == 5 || h.cmd == 8198) && h.len > 0 then h.len else 0
  }

  /** The end of a stream: errno may tell it; if not, the header is filled up with
      zeros, and the payload is what the buffer holds. */
  lemma EndIs(codec: Codec, s: seq<byte>, errno: int, buffer: seq<byte>)
    requires |s| < 168 && Legible(s, errno, |buffer|)
    ensures var o := Process(codec, s, errno, buffer);
      if errno != 0 then o == Outcome([], false)
      else
        exists h: Header | forall i | 0 <= i < 168 :: Encode(h)[i] == if i < |s| then s[i] else 0 ::
          if h.cmd == 0 then o == Outcome([], false)
          else Asked(h) <= |buffer| && o == Made(codec, Command(h, buffer[..Asked(h)]))
  {
    var t := Filled(s, 168);
    EncodeDecode(t);
    hide Encode, Decode, Made;
    assert Encode(Decode(t)) == t;
    assert Overwritten(buffer, [], 0) == buffer;
    if errno == 0 && Decode(t).cmd != 0 {
      assert Overwritten(buffer, [], Asked(Decode(t))) == buffer;
    }
  }

  /** One message of a stream: the buffer keeps the bytes that do not arrive. */
  lemma MessageIs(codec: Codec, s: seq<byte>, errno: int, buffer: seq<byte>)
    requires |s| >= 168 && Legible(s, errno, |buffer|)
    ensures
      exists h: Header | Encode(h) == s[..168] ::
        var n := Asked(h);
        var m := if |s| - 168 < n then |s| - 168 else n;
        && n <= |buffer| && Legible(s[168 + m..], errno, |buffer|)
        && var now := s[168..168 + m] + buffer[m..];
           var made := if h.cmd == 0 then Outcome([], false) else Made(codec, Command(h, now[..n]));
           Process(codec, s, errno, buffer) == Then(made, Process(codec, s[168 + m..], errno, now))
  {
    var h, rest := Decode(s[..168]), s[168..];
    var n := Asked(h);
    var m := if |rest| < n then |rest| else n;
    EncodeDecode(s[..168]);
    OneIs(codec, h, rest, buffer);
    hide Encode, Decode, Made, Then, One, NextBuffer, Remaining;
    assert rest[..m] == s[168..168 + m] && rest[m..] == s[168 + m..];
  }

  lemma OneIs(codec: Codec, h: Header, rest: seq<byte>, buffer: seq<byte>)
    requires Fits(h, |buffer|)
    ensures var n := Asked(h);
      var m := if |rest| < n then |rest| else n;
      && n <= |buffer| && Remaining(h, rest) == rest[m..]
      && var now := rest[..m] + buffer[m..];
         && NextBuffer(h, rest, buffer) == now
         && One(codec, h, rest, buffer) == if h.cmd == 0 then Outcome([], false) else Made(codec, Command(h, now[..n]))
  {
    hide Made;
  }

  lemma {:induction false} ArrivingNext(answers: seq<Answer>, a: Answer)
    ensures Arriving(answers + [a]) == Arriving(answers) + if a.Got? && Goes(a.command) then [a.command] else []
  {
    hide Goes;
    if answers == [] {
      assert answers + [a] == [a];
    } else {
      assert (answers + [a])[1..] == answers[1..] + [a];
      ArrivingNext(answers[1..], a);
    }
  }

  lemma {:induction false} AcceptedArrive(answers: seq<Answer>)
    requires AllOffered(answers)
    ensures AcceptedOf(answers) == Arriving(answers)
  {
    if answers != [] {
      var before, a := answers[..|answers| - 1], answers[|answers| - 1];
      OfferedPrefix(answers, |answers| - 1);
      assert answers == before + [a];
      hide Accepted, Goes, Arriving;
      AcceptedArrive(before);
      ArrivingNext(before, a);
      if a.Got? {
        AcceptedGoes(a.command);
      }
    }
  }

  lemma RestoredIs(codec: Codec, cs: seq<Command>, log: seq<Command>)
    requires |log| == |cs|
    ensures log == RestoredAll(codec, cs) <==> forall i | 0 <= i < |log| :: ArrivesAs(codec, cs[i], log[i])
  {
    var rs := RestoredAll(codec, cs);
    forall i | 0 <= i < |cs|
      ensures ArrivesAs(codec, cs[i], log[i]) <==> log[i] == rs[i]
    {
    }
    hide ArrivesAs, RestoredAll;
  }

  /** The data of each command comes to something. */
  predicate NoneIsLost(codec: Codec, cs: seq<Command>) {
    forall i | 0 <= i < |cs| && IsData(cs[i]) :: codec.compress(cs[i].payload) != []
  }

  /** The round trip in these terms. */
  lemma LogIs(codec: Codec, answers: seq<Answer>, log: seq<Command>)
    requires AllOffered(answers) && |log| == |AcceptedOf(answers)|
    requires log == RestoredAll(codec, AcceptedOf(answers)) <==> NoneVanishes(codec, AcceptedOf(answers))
    ensures var arriving := Arriving(answers);
      && |log| == |arriving|
      && ((forall i | 0 <= i < |log| :: ArrivesAs(codec, arriving[i], log[i])) <==> NoneIsLost(codec, arriving))
  {
    AcceptedArrive(answers);
    RestoredIs(codec, Arriving(answers), log);
    assert NoneVanishes(codec, Arriving(answers)) <==> NoneIsLost(codec, Arriving(answers));
    hide RestoredAll, ArrivesAs, Arriving, AcceptedOf;
  }
}
