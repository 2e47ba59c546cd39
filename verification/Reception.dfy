/** How far the receiver of tcp_proxy_bat.c has come in the stream, and which
    frames it has found by then, on values. */
module Reception {
  import opened Words
  import opened Commands
  import opened Frames

  /** The receiver gets to position w between two frames. */
  predicate Boundary(s: seq<byte>, w: nat)
    decreases |s|
  {
    w == 0 || (|s| >= HEADER_SIZE && FrameSize(s) <= w && Boundary(Behind(s), w - FrameSize(s)))
  }

  /** The bytes of the first frame, or all there are when the stream ends in it. */
  function FrameSize(s: seq<byte>): (n: nat)
    requires |s| >= HEADER_SIZE
    ensures 0 < n <= |s|
  {
    |s| - |Behind(s)|
  }

  /** The frames it has found by then. */
  function FramesTo(s: seq<byte>, w: nat): seq<Command>
    requires Boundary(s, w)
    decreases |s|
  {
    if w == 0 then [] else [FirstFrame(s)] + FramesTo(Behind(s), w - FrameSize(s))
  }

  lemma FrameSizeIs(s: seq<byte>)
    requires |s| >= HEADER_SIZE
    ensures var n := HEADER_SIZE + |FirstFrame(s).payload|; FrameSize(s) == if |s| < n then |s| else n
  {
  }

  lemma BehindIsRest(s: seq<byte>)
    requires |s| >= HEADER_SIZE
    ensures Behind(s) == s[FrameSize(s)..]
  {
    hide Decode;
    var n := HEADER_SIZE + |FirstFrame(s).payload|;
    if |s| < n {
      assert s[|s|..] == [];
    }
  }

  /** The frames up to a boundary and the ones behind it are all frames. */
  lemma {:induction false} SplitAtBoundary(s: seq<byte>, w: nat)
    requires Boundary(s, w)
    ensures w <= |s| && FramesIn(s) == FramesTo(s, w) + FramesIn(s[w..]) && Remainder(s) == Remainder(s[w..])
    decreases |s|
  {
    if w == 0 {
      assert s[0..] == s;
    } else {
      var n := FrameSize(s);
      BehindIsRest(s);
      hide FirstFrame, Behind, FrameSize;
      SplitAtBoundary(Behind(s), w - n);
      assert s[n..][w - n..] == s[w..];
      assert FramesIn(s) == [FirstFrame(s)] + FramesIn(Behind(s)) && Remainder(s) == Remainder(Behind(s));
      hide FramesIn, Remainder;
      Associates([FirstFrame(s)], FramesTo(Behind(s), w - n), FramesIn(s[w..]));
    }
  }

  /** One more frame. */
  lemma {:induction false} NextBoundary(s: seq<byte>, w: nat, rest: seq<byte>)
    requires Boundary(s, w) && w <= |s| && rest == s[w..] && |rest| >= HEADER_SIZE
    ensures Boundary(s, w + FrameSize(rest))
    ensures FramesTo(s, w + FrameSize(rest)) == FramesTo(s, w) + [FirstFrame(rest)]
    decreases |s|
  {
    hide FirstFrame, Behind, FrameSize;
    if w == 0 {
      assert s[0..] == s;
      assert FramesTo(Behind(s), 0) == [];
    } else {
      var n := FrameSize(s);
      BehindIsRest(s);
      assert s[n..][w - n..] == s[w..];
      NextBoundary(Behind(s), w - n, rest);
      Associates([FirstFrame(s)], FramesTo(Behind(s), w - n), [FirstFrame(rest)]);
    }
  }

  /** What is left is not even a header: all frames with headers of their own have been found. */
  lemma LastBoundary(s: seq<byte>, w: nat)
    requires Boundary(s, w) && w <= |s| && |s| - w < HEADER_SIZE
    ensures FramesTo(s, w) == FramesIn(s) && Remainder(s) == s[w..]
  {
    SplitAtBoundary(s, w);
    NothingAdded(FramesTo(s, w));
  }

  // ---- What the receiver has found and delivered, on values ----

  /** A stream as the header buffer sees it: filled up to a header if it is shorter. */
  function Heard(s: seq<byte>): (t: seq<byte>)
    ensures |t| >= HEADER_SIZE
  {
    if |s| >= HEADER_SIZE then s else Filled(s, HEADER_SIZE)
  }

  /** The frames found, and the deliveries made and due. A receiver that has not
      noticed the end of the connection in a header has `passed` it. */
  ghost predicate Received(s: seq<byte>, capacity: nat, errno: int, whole: nat, passed: bool,
                           got: seq<Command>, log: seq<Command>, due: seq<Command>)
  {
    && Readable(s, capacity, errno) && whole <= |s|
    && AllComplete(got) && log + due == DeliverAll(got)
    && if passed then errno == 0 && whole == |s| && got == AllFrames(s, errno)
       else Boundary(s, whole) && got == FramesTo(s, whole)
  }

  lemma StartsWith(a: seq<Command>, f: Command, b: seq<Command>, c: seq<Command>)
    ensures a + [f] <= (a + ([f] + b)) + c && a + [f] <= a + [f]
  {
  }

  /** What has been found is the beginning of what will be. */
  lemma GotIsPrefix(s: seq<byte>, errno: int, whole: nat)
    requires Boundary(s, whole) && whole <= |s| && (errno == 0 || |s| - whole >= HEADER_SIZE)
    ensures FramesTo(s, whole) + [FirstFrame(Heard(s[whole..]))] <= AllFrames(s, errno)
  {
    var rest := s[whole..];
    if |rest| >= HEADER_SIZE {
      SplitAtBoundary(s, whole);
      assert FramesIn(rest) == [FirstFrame(rest)] + FramesIn(Behind(rest)) && Heard(rest) == rest;
      hide FirstFrame, Behind, FramesIn, FramesTo, LastFrame, Boundary, Heard;
      StartsWith(FramesTo(s, whole), FirstFrame(rest), FramesIn(Behind(rest)),
                 if errno == 0 then [LastFrame(s)] else []);
    } else {
      LastBoundary(s, whole);
      assert FirstFrame(Heard(rest)) == LastFrame(s);
      hide FirstFrame, FramesIn, FramesTo, LastFrame, Boundary, Heard;
      StartsWith(FramesTo(s, whole), LastFrame(s), [], []);
    }
  }

  lemma TakenAt(fs: seq<Command>, gs: seq<Command>, f: Command, capacity: nat)
    requires AllTaken(fs, capacity) && gs + [f] <= fs
    ensures Taken(f, capacity) && Complete(f)
  {
    assert fs[|gs|] == (gs + [f])[|gs|] == f;
  }

  lemma NextIsTaken(s: seq<byte>, capacity: nat, errno: int, whole: nat)
    requires Readable(s, capacity, errno) && Boundary(s, whole) && whole <= |s|
    requires errno == 0 || |s| - whole >= HEADER_SIZE
    ensures var f := FirstFrame(Heard(s[whole..])); Taken(f, capacity) && Complete(f)
  {
    hide FirstFrame, Heard, AllTaken, Taken, Complete;
    GotIsPrefix(s, errno, whole);
    TakenAt(AllFrames(s, errno), FramesTo(s, whole), FirstFrame(Heard(s[whole..])), capacity);
  }

  lemma FrameFits(s: seq<byte>, w: nat, rest: seq<byte>)
    requires w <= |s| && rest == s[w..] && |rest| >= HEADER_SIZE
    ensures w + FrameSize(rest) <= |s|
  {
  }

  /** One more frame has been found. */
  lemma ReceivedNext(s: seq<byte>, capacity: nat, errno: int, whole: nat, got: seq<Command>, log: seq<Command>)
    requires Received(s, capacity, errno, whole, false, got, log, []) && |s| - whole >= HEADER_SIZE
    ensures var f := FirstFrame(s[whole..]);
      && Taken(f, capacity) && Complete(f)
      && Received(s, capacity, errno, whole + FrameSize(s[whole..]), false, got + [f], log, Deliver(f))
  {
    hide Boundary, FramesTo, AllFrames, Readable, FirstFrame, Filled, Deliver, DeliverAll, AllComplete, Taken, Complete;
    var rest := s[whole..];
    FrameFits(s, whole, rest);
    NextIsTaken(s, capacity, errno, whole);
    NextBoundary(s, whole, rest);
    hide FrameSize;
    DeliverAllAppendOne(got, FirstFrame(rest));
    NothingAdded(log);
  }

  /** So has the one that is left when the end of the connection is not noticed. */
  lemma ReceivedLast(s: seq<byte>, capacity: nat, errno: int, whole: nat, got: seq<Command>, log: seq<Command>)
    requires Received(s, capacity, errno, whole, false, got, log, []) && |s| - whole < HEADER_SIZE && errno == 0
    ensures var f := FirstFrame(Heard(s[whole..]));
      && Taken(f, capacity) && Complete(f)
      && Received(s, capacity, errno, |s|, true, got + [f], log, Deliver(f))
  {
    LastBoundary(s, whole);
    hide Boundary, FramesTo, FramesIn, Readable, FirstFrame, Deliver, DeliverAll, AllComplete, Taken, Complete;
    NextIsTaken(s, capacity, errno, whole);
    DeliverAllAppendOne(got, FirstFrame(Heard(s[whole..])));
    NothingAdded(log);
  }

  /** At the end everything has been found. */
  lemma ReceivedAll(s: seq<byte>, capacity: nat, errno: int, whole: nat, passed: bool,
                    got: seq<Command>, log: seq<Command>)
    requires Received(s, capacity, errno, whole, passed, got, log, [])
    requires passed || (errno != 0 && |s| - whole < HEADER_SIZE)
    ensures got == AllFrames(s, errno) && AllComplete(AllFrames(s, errno)) && log == Delivered(s, errno)
  {
    if !passed {
      LastBoundary(s, whole);
      NothingAdded(FramesIn(s));
    }
    NothingAdded(log);
    hide DeliverAll, FramesIn;
  }

  /** One of the deliveries that are due is made. */
  lemma ReceivedPut(s: seq<byte>, capacity: nat, errno: int, whole: nat, passed: bool,
                    got: seq<Command>, log: seq<Command>, due: seq<Command>)
    requires Received(s, capacity, errno, whole, passed, got, log, due) && due != []
    ensures Received(s, capacity, errno, whole, passed, got, log + [due[0]], due[1..])
  {
    hide Boundary, FramesTo, AllFrames, Readable, DeliverAll, AllComplete;
    assert [due[0]] + due[1..] == due;
    Associates(log, [due[0]], due[1..]);
  }
}
