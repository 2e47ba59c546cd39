/** Both proxies together: what the receiver has delivered, at any moment and
    after any disconnection, against what the sender has fetched. */
module EndToEnd {
  import opened Words
  import opened Commands
  import opened Frames
  import opened Batching
  import opened Conservation
  import opened Rounds
  import opened RoundCases
  import opened Sockets
  import opened Statistics
  import opened Reception
  import opened BatchSender
  import opened BatchReceiver
  import opened Cuts

  // ---- At every step ----

  /** The receiver gets to a boundary through the frame that was written first. */
  lemma FirstBoundary(f: Command, rest: seq<byte>, w: nat)
    requires WellFramed(f) && w > 0 && Boundary(Bytes(f) + rest, w)
    ensures |Bytes(f)| <= w && Boundary(rest, w - |Bytes(f)|)
    ensures FramesTo(Bytes(f) + rest, w) == [f] + FramesTo(rest, w - |Bytes(f)|)
  {
    FirstFrameIs(f, rest);
    BytesLength(f);
    hide Bytes, FirstFrame, Behind;
  }

  /** The receiver's boundaries in a stream are those that the sender has made. */
  lemma {:induction false} BoundaryInWire(fs: seq<Command>, rest: seq<byte>, w: nat, capacity: nat) returns (j: nat)
    requires AllFramed(fs, capacity) && Boundary(Wire(fs) + rest, w) && w <= |Wire(fs)|
    ensures j <= |fs| && Wire(fs)[w..] == Wire(fs[j..]) && FramesTo(Wire(fs) + rest, w) == fs[..j]
    decreases |fs|
  {
    hide *;
    if w == 0 {
      j := 0;
      BoundaryAtStart(fs, rest);
    } else {
      NotEmpty(fs, w);
      TailIsFramed(fs, capacity);
      WireStarts(fs, rest);
      FirstBoundary(fs[0], Wire(fs[1..]) + rest, w);
      var n := |Bytes(fs[0])|;
      WireBehind(fs, w);
      var i := BoundaryInWire(fs[1..], rest, w - n, capacity);
      j := i + 1;
      JoinFirst(fs, i);
    }
  }

  lemma BoundaryAtStart(fs: seq<Command>, rest: seq<byte>)
    ensures fs[0..] == fs && Wire(fs)[0..] == Wire(fs) && Boundary(Wire(fs) + rest, 0)
    ensures FramesTo(Wire(fs) + rest, 0) == fs[..0]
  {
    hide Wire;
  }

  lemma NotEmpty(fs: seq<Command>, w: nat)
    requires 0 < w <= |Wire(fs)|
    ensures fs != []
  {
  }

  lemma JoinFirst(fs: seq<Command>, i: nat)
    requires fs != [] && i <= |fs| - 1
    ensures fs[..i + 1] == [fs[0]] + fs[1..][..i] && fs[i + 1..] == fs[1..][i..]
  {
  }

  lemma WireBehind(fs: seq<Command>, w: nat)
    requires fs != [] && |Bytes(fs[0])| <= w <= |Wire(fs)|
    ensures var n := |Bytes(fs[0])|; |Wire(fs)| == n + |Wire(fs[1..])| && Wire(fs)[w..] == Wire(fs[1..])[w - n..]
  {
    hide Bytes;
  }

  lemma SplitFramed(fs: seq<Command>, j: nat, capacity: nat)
    requires AllFramed(fs, capacity) && j <= |fs|
    ensures fs == fs[..j] + fs[j..] && AllFramed(fs[j..], capacity) && AllComplete(fs[..j]) && AllComplete(fs[j..])
  {
    hide Complete, WellFramed;
    FramedAreComplete(fs, capacity);
  }

  /** What the unread bytes stand for. */
  ghost function InTransit(unread: seq<byte>): seq<Command>
    requires AllComplete(FramesIn(unread))
  {
    DeliverAll(FramesIn(unread))
  }

  /** A receiver anywhere in the bytes of these frames, whatever the connection may bring later. */
  lemma ReceivedInWire(frames: seq<Command>, capacity: nat, stream: seq<byte>, buffer: nat, errno: int, whole: nat,
                       passed: bool, got: seq<Command>, log: seq<Command>, due: seq<Command>)
    requires AllFramed(frames, capacity) && Wire(frames) <= stream && whole <= |Wire(frames)|
    requires Received(stream, buffer, errno, whole, passed, got, log, due)
    ensures AllComplete(frames)
    ensures var unread := Wire(frames)[whole..];
      && Remainder(unread) == [] && AllComplete(FramesIn(unread))
      && DeliverAll(frames) == log + due + InTransit(unread)
  {
    var unread, future := Wire(frames)[whole..], stream[|Wire(frames)|..];
    hide Wire, DeliverAll, FramesIn, Remainder, AllFrames, Readable, FramesTo, Boundary, AllFramed, AllComplete;
    if passed {
      WireIsDelivered(frames, capacity, errno);
      assert stream == Wire(frames) && unread == [];
      NoFrames();
      NothingDelivered();
      NothingAdded(DeliverAll(frames));
    } else {
      assert Wire(frames) + future == stream;
      var j := BoundaryInWire(frames, future, whole, capacity);
      SplitFramed(frames, j, capacity);
      WireFrames(frames[j..], capacity);
      DeliverAllAppend(frames[..j], frames[j..]);
    }
  }

  lemma NothingDelivered()
    ensures AllComplete([]) && DeliverAll([]) == []
  {
  }

  /** At every step: what has been delivered, what is due, what the unread and
      unsent bytes stand for, and what the sender's buffers hold, is what was fetched. */
  lemma NothingIsLost(sender: Sender, receiver: Receiver)
    requires sender.Valid() && receiver.Valid()
    requires sender.socket.sent + sender.socket.queued <= receiver.conn.stream
    requires receiver.conn.taken <= |sender.socket.sent|
    ensures var unread := (sender.socket.sent + sender.socket.queued)[receiver.whole..];
      && Remainder(unread) == [] && AllComplete(FramesIn(unread))
      && SameAll(Fetched(sender.answers[..sender.next]),
                 receiver.log + receiver.due + InTransit(unread) + sender.Held())
  {
    var bytes := sender.socket.sent + sender.socket.queued;
    SenderParts(sender);
    ReceiverParts(receiver);
    hide *;
    ReceivedInWire(sender.frames, sender.capacity, receiver.conn.stream, receiver.capacity, receiver.conn.errno,
                   receiver.whole, receiver.passed, receiver.got, receiver.log, receiver.due);
  }

  lemma SenderParts(sender: Sender)
    requires sender.Valid()
    ensures AllFramed(sender.frames, sender.capacity) && AllSendable(sender.frames) && AllComplete(sender.frames)
    ensures sender.socket.sent + sender.socket.queued == Wire(sender.frames)
    ensures sender.next <= |sender.answers| && sender.batchNr <= sender.batch.Length
    ensures AnswersFit(sender.answers, sender.capacity) && Sizes(sender.capacity, sender.max)
    ensures SameAll(Fetched(sender.answers[..sender.next]), DeliverAll(sender.frames) + sender.Held())
    ensures sender.socket.queued == [] ==> sender.socket.sent == Wire(sender.frames)
    ensures Conserved(sender.capacity, Fetched(sender.answers[..sender.next]), sender.frames, sender.Held(),
                      sender.socket.sent + sender.socket.queued)
  {
    hide Fetched, HeldIn, Wire, SameAll, DeliverAll, AnswersFit, Sizes;
    NothingAdded(sender.socket.sent);
  }

  lemma ReceiverParts(receiver: Receiver)
    requires receiver.Valid()
    ensures receiver.whole <= receiver.conn.taken <= |receiver.conn.stream|
    ensures Received(receiver.conn.stream, receiver.capacity, receiver.conn.errno, receiver.whole, receiver.passed,
                     receiver.got, receiver.log, receiver.due)
  {
    hide Received;
  }

  // ---- After a disconnection ----

  /** After a disconnection that cuts no frame, in the middle of collecting a
      batch or not: what was delivered is what was fetched but for what the
      sender's buffers still hold. */
  lemma Disconnected(sender: Sender, errno: int)
    requires sender.Valid() && sender.socket.queued == []
    ensures var sent := sender.socket.sent;
      && Readable(sent, sender.capacity, errno) && AllComplete(AllFrames(sent, errno))
      && Delivered(sent, errno) == DeliverAll(sender.frames)
      && SameAll(Fetched(sender.answers[..sender.next]), Delivered(sent, errno) + sender.Held())
  {
    SenderParts(sender);
    hide *;
    WireIsDelivered(sender.frames, sender.capacity, errno);
  }

  /** After one at any byte, in the middle of a frame or not: the whole frames arrive
      and then what is made of the one that is cut off; and what arrives is a prefix
      of what was fetched exactly if the cut is harmless. */
  lemma CutOff(sender: Sender, k: nat, errno: int)
    requires sender.Valid() && k <= |sender.socket.sent|
    ensures AllComplete(sender.frames)
    ensures var s, whole := sender.socket.sent[..k], sender.frames[..WholeIn(sender.frames, k)];
      var rest, fetched := CutBytes(sender.frames, k), Fetched(sender.answers[..sender.next]);
      && Readable(s, sender.capacity, errno) && AllComplete(AllFrames(s, errno))
      && AllComplete(whole) && AllComplete(AllFrames(rest, errno))
      && Delivered(s, errno) == DeliverAll(whole) + Delivered(rest, errno)
      && (IsPrefix(fetched, Delivered(s, errno)) <==> HarmlessCut(sender.frames, fetched, k, errno))
  {
    var fs, fetched := sender.frames, Fetched(sender.answers[..sender.next]);
    SenderParts(sender);
    SentIsBeginning(sender, k);
    hide *;
    FetchedFirst(sender.answers, sender.next);
    FetchedInFetchable(sender.answers, 0, sender.next, sender.capacity);
    WholeIsPrefix(fetched, DeliverAll(fs) + sender.Held());
    PrefixOfSum(fetched, DeliverAll(fs), sender.Held());
    CutIsHarmless(fs, fetched, k, sender.capacity, errno);
    WholeAreDelivered(fs, k, sender.capacity, errno);
  }

  lemma SentIsBeginning(sender: Sender, k: nat)
    requires k <= |sender.socket.sent|
    ensures (sender.socket.sent + sender.socket.queued)[..k] == sender.socket.sent[..k]
    ensures k <= |sender.socket.sent + sender.socket.queued|
  {
  }

  lemma WholeIsPrefix(fetched: seq<Command>, log: seq<Command>)
    requires SameAll(fetched, log)
    ensures IsPrefix(fetched, log)
  {
    assert fetched[..|log|] == fetched;
  }

  // ---- Whole runs ----

  /** The sender, from the connection to the kernel's refusal. */
  method Send(answers: seq<Answer>, capacity: nat, max: nat, counting: bool, table: Table) returns (sender: Sender)
    requires Sizes(capacity, max) && AnswersFit(answers, capacity)
    requires counting ==> table.Valid() && table.counted == [] && CountableAnswers(answers, table.nodes, table.dcs)
    modifies table`counted, table.cells
    ensures fresh(sender) && fresh(sender.socket) && fresh(sender.batch) && sender.Served(0, [], false)
    ensures sender.answers == answers && sender.capacity == capacity && sender.max == max
    ensures sender.counting == counting && sender.table == table
  {
    hide *;
    sender := new Sender(answers, capacity, max, counting, table);
    var code := sender.StartServing();
  }

  /** The receiver, to the end of the connection. */
  method Receive(stream: seq<byte>, capacity: nat, errno: int, counting: bool, table: Table)
    returns (log: seq<Command>)
    requires Readable(stream, capacity, errno)
    requires counting ==>
      table.Valid() && table.counted == [] && CellsExist(AllFrames(stream, errno), table.nodes, table.dcs)
    modifies table`counted, table.cells
    ensures AllComplete(AllFrames(stream, errno)) && log == Delivered(stream, errno)
    ensures counting ==> table.Valid() && table.counted == CountedOf(AllFrames(stream, errno))
  {
    hide *;
    var conn := new InSocket(stream, errno);
    var receiver := new Receiver(conn, capacity, counting, table);
    var code := receiver.StartServing();
    HasCountedAll(receiver);
    log := receiver.log;
  }

  lemma HasCountedAll(receiver: Receiver)
    requires receiver.Tallied()
    ensures receiver.counting ==> receiver.table.Valid() && receiver.table.counted == CountedOf(receiver.got)
  {
    hide CellsExist, CountedOf;
  }

  /** A connection that breaks at any byte of what a sender has sent, and a
      receiver that gets what is in front of it. */
  method ReceiveUpTo(sender: Sender, k: nat, errno: int) returns (log: seq<Command>)
    requires sender.Valid() && k <= |sender.socket.sent|
    ensures AllComplete(AllFrames(sender.socket.sent[..k], errno)) && AllComplete(sender.frames)
    ensures log == Delivered(sender.socket.sent[..k], errno)
    ensures var whole, rest := sender.frames[..WholeIn(sender.frames, k)], CutBytes(sender.frames, k);
      && AllComplete(whole) && AllComplete(AllFrames(rest, errno))
      && log == DeliverAll(whole) + Delivered(rest, errno)
    ensures var fetched := Fetched(sender.answers[..sender.next]);
      IsPrefix(fetched, log) <==> HarmlessCut(sender.frames, fetched, k, errno)
  {
    CutOff(sender, k, errno);
    hide *;
    var none := new Table(0, 0, 0);
    log := Receive(sender.socket.sent[..k], sender.capacity, errno, false, none);
  }

  /** A run of both proxies, from the connection to the kernel's refusal: the log
      is what was fetched, up to the round that the sender returns from. What was
      fetched in that round is still in its buffers, and is lost. */
  method Transfer(answers: seq<Answer>, capacity: nat, max: nat, errno: int)
    returns (log: seq<Command>, next: nat, ghost lost: seq<Command>)
    requires Sizes(capacity, max) && AnswersFit(answers, capacity)
    ensures max * HEADER_SIZE <= MAX_LEN && next == End(answers, max, 0)
    ensures SameAll(Fetched(answers[..LastRound(answers, max, 0)]), log)
    ensures AllComplete(Sent(answers, max, 0)) && log == DeliverAll(Sent(answers, max, 0))
    ensures lost == FetchedIn(answers, LastRound(answers, max, 0), next)
    ensures LeftBehind(answers, max, LastRound(answers, max, 0), lost)
    ensures SameAll(Fetched(answers[..next]), log + lost)
    ensures SameAll(Fetched(answers[..next]), log) <==> ReturnsIdle(answers, LastRound(answers, max, 0))
    ensures LeadsAreFollowed(log) && AllPlainFlags(Sent(answers, max, 0))
    ensures var fetched := Fetched(answers[..LastRound(answers, max, 0)]);
      |log| == |fetched| && forall i | 0 <= i < |log| :: ArrivesAs(fetched[i], log[i])
    ensures EndsAt(answers, max, LastRound(answers, max, 0), next)
    ensures Connected(answers, 0, LastRound(answers, max, 0))
  {
    hide *;
    var none := new Table(0, 0, 0);
    var sender := Send(answers, capacity, max, false, none);
    RunIs(sender, errno);
    RunInNumerals(answers, max, capacity);
    lost := sender.Held();
    log := Receive(sender.socket.sent, capacity, errno, false, none);
    next := sender.next;
  }

  lemma RunInNumerals(answers: seq<Answer>, max: nat, capacity: nat)
    requires Sizes(capacity, max) && AnswersFit(answers, capacity) && max * HEADER_SIZE <= MAX_LEN
    requires AllSendable(Sent(answers, max, 0)) && AllComplete(Sent(answers, max, 0))
    requires SameAll(Fetched(answers[..LastRound(answers, max, 0)]), DeliverAll(Sent(answers, max, 0)))
    ensures var log := DeliverAll(Sent(answers, max, 0));
      && LeadsAreFollowed(log) && AllPlainFlags(Sent(answers, max, 0))
      && var fetched := Fetched(answers[..LastRound(answers, max, 0)]);
         |log| == |fetched| && forall i | 0 <= i < |log| :: ArrivesAs(fetched[i], log[i])
    ensures EndsAt(answers, max, LastRound(answers, max, 0), End(answers, max, 0))
    ensures Connected(answers, 0, LastRound(answers, max, 0))
  {
    var fs := Sent(answers, max, 0);
    hide Sizes, AnswersFit, Fetched, LastRound, Sent, End, SameAll, DeliverAll, AllSendable, AllComplete;
    SentIsPlain(answers, max, 0, capacity);
    LogIsFollowed(fs);
    RunEndsAt(answers, max, 0);
    hide LeadsAreFollowed, AllPlainFlags, ArrivesAs, EndsAt, Connected;
    SameArrives(Fetched(answers[..LastRound(answers, max, 0)]), DeliverAll(fs));
  }

  /** What a sender has sent and still holds that has served from the first call on. */
  lemma RunIs(sender: Sender, errno: int)
    requires sender.Served(0, [], false)
    ensures var answers, max, sent := sender.answers, sender.max, sender.socket.sent;
      && max * HEADER_SIZE <= MAX_LEN && Sizes(sender.capacity, max)
      && sender.batchNr <= sender.batch.Length && sender.next <= |answers|
      && sender.frames == Sent(answers, max, 0) && sender.next == End(answers, max, 0)
      && AllComplete(sender.frames) && AllSendable(sender.frames)
      && Readable(sent, sender.capacity, errno) && AllComplete(AllFrames(sent, errno))
      && Delivered(sent, errno) == DeliverAll(sender.frames)
      && sender.Held() == FetchedIn(answers, LastRound(answers, max, 0), sender.next)
      && SameAll(Fetched(answers[..LastRound(answers, max, 0)]), DeliverAll(sender.frames))
      && SameAll(Fetched(answers[..sender.next]), DeliverAll(sender.frames) + sender.Held())
      && LeftBehind(answers, max, LastRound(answers, max, 0), sender.Held())
      && (SameAll(Fetched(answers[..sender.next]), DeliverAll(sender.frames)) <==>
            ReturnsIdle(answers, LastRound(answers, max, 0)))
  {
    ServedIs(sender);
    SenderParts(sender);
    hide *;
    Disconnected(sender, errno);
    HeldAtTheEnd(sender.answers, sender.max, sender.capacity, sender.Held(), sender.socket.sent + sender.socket.queued);
    LastRoundIsLost(sender.answers, sender.max, 0, sender.capacity);
    StandsForParts(Fetched(sender.answers[..LastRound(sender.answers, sender.max, 0)]), sender.frames);
  }

  lemma ServedIs(sender: Sender)
    requires sender.Served(0, [], false)
    ensures sender.max * HEADER_SIZE <= MAX_LEN && sender.Valid() && sender.Tallied() && sender.socket.queued == []
    ensures sender.frames == Sent(sender.answers, sender.max, 0) && sender.next == End(sender.answers, sender.max, 0)
  {
    assert [] + Sent(sender.answers, sender.max, 0) == Sent(sender.answers, sender.max, 0);
  }

  // ---- A batch that is lost ----

  lemma MessageIsHeld(max: nat)
    requires 0 < max && max * HEADER_SIZE <= MAX_LEN
    ensures var answers := [Got(MESSAGE), Failed(NotConn, BLANK)];
      && OneRound(answers, max, 0) == Round([], 2, false) && FetchedIn(answers, 0, 2) == [MESSAGE]
  {
    var answers := [Got(MESSAGE), Failed(NotConn, BLANK)];
    assert answers[1..] == [Failed(NotConn, BLANK)] && BatchCount(answers[1..], max) == 0;
    hide LeadOf, FetchedIn, BatchCount;
    FetchedSplit(answers, 0, 1, 2);
    FetchedOne(answers, 0);
    FetchedOne(answers, 1);
    assert [MESSAGE] + [] == [MESSAGE];
  }

  /** The connection is lost right behind a message, which was fetched and is never sent. */
  lemma BatchMayBeLost(max: nat)
    requires 0 < max && max * HEADER_SIZE <= MAX_LEN
    ensures var answers := [Got(MESSAGE), Failed(NotConn, BLANK)];
      && AnswersFit(answers, max * HEADER_SIZE) && Sent(answers, max, 0) == []
      && LastRound(answers, max, 0) == 0 && End(answers, max, 0) == 2
      && FetchedIn(answers, 0, 2) == [MESSAGE] && LeftBehind(answers, max, 0, [MESSAGE])
  {
    var answers := [Got(MESSAGE), Failed(NotConn, BLANK)];
    MessageIsHeld(max);
    hide OneRound, FetchedIn, LeftBehind;
    LastRoundIsLost(answers, max, 0, max * HEADER_SIZE);
    assert Sent(answers, max, 0) == [] + [];
  }
}
