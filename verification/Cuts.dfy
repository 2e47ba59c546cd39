/** The connection ends inside a frame. pr_receive_payload() does not report
    that, nor does pr_receive_header() if errno is 0, so a frame may be delivered
    with zeros for the bytes that are missing. */
module Cuts {
  import opened Words
  import opened Commands
  import opened Frames
  import opened Batching
  import opened Conservation

  /** What was delivered is what was fetched, up to some point. */
  predicate IsPrefix(fetched: seq<Command>, log: seq<Command>) {
    |log| <= |fetched| && SameAll(fetched[..|log|], log)
  }

  /** Nothing but zeros has arrived of the command code. */
  predicate NoCommandIn(f: Command, k: nat)
    requires k <= |Bytes(f)|
  {
    forall i | 0 <= i < k && i < 4 :: Bytes(f)[i] == 0
  }

  /** What has arrived passes, with zeros behind it, for this command by itself. */
  predicate PassesFor(f: Command, k: nat, c: Command)
    requires k <= |Bytes(f)|
  {
    Filled(Bytes(f)[..k], |Bytes(c)|) == Bytes(c)
  }

  /** The connection ends after k bytes. If that is in a payload, nothing but zeros
      is missing of it. If it is in a header, either that is noticed, because
      errno is not 0, or no command is found in what has arrived, or the one that
      is found is the one that was fetched. */
  predicate HarmlessCut(fs: seq<Command>, fetched: seq<Command>, k: nat, errno: int)
    requires AllComplete(fs)
    decreases |fs|
  {
    if fs == [] then true
    else
      var f, n := fs[0], |Bytes(fs[0])|;
      if k >= n then
        assert AllComplete(fs[1..]);
        |Deliver(f)| <= |fetched| && HarmlessCut(fs[1..], fetched[|Deliver(f)|..], k - n, errno)
      else if k >= HEADER_SIZE then Bytes(f)[k..] == Zeros(n - k)
      else errno != 0 || NoCommandIn(f, k) || (fetched != [] && PassesFor(f, k, fetched[0]))
  }

  // ---- One payload in place of another ----

  lemma FilledIsSame(p: seq<byte>, m: nat)
    requires m <= |p|
    ensures Filled(p[..m], |p|) == p <==> p[m..] == Zeros(|p| - m)
  {
    assert p == p[..m] + p[m..];
  }

  /** Zeros do not set a batch bit. */
  lemma FilledBatchBit(s: seq<byte>, m: nat)
    requires |s| == HEADER_SIZE && m <= |s| && !IsBatch(Decode(s))
    ensures !IsBatch(Decode(Filled(s[..m], |s|)))
  {
    BatchBitAt(s);
    BatchBitAt(Filled(s[..m], |s|));
    hide Decode, IsBatch;
  }

  predicate NoneIsBatch(hs: seq<Header>) {
    forall i | 0 <= i < |hs| :: !IsBatch(hs[i])
  }

  lemma NoneIsBatchSplit(h: Header, hs: seq<Header>)
    ensures NoneIsBatch([h] + hs) <==> !IsBatch(h) && NoneIsBatch(hs)
  {
    assert ([h] + hs)[0] == h;
    forall i | 0 <= i < |hs|
      ensures ([h] + hs)[i + 1] == hs[i]
    {
    }
    if NoneIsBatch([h] + hs) {
      forall i | 0 <= i < |hs|
        ensures !IsBatch(hs[i])
      {
        assert ([h] + hs)[i + 1] == hs[i];
      }
    }
  }

  lemma FirstOfAll(s: seq<byte>, n: nat)
    requires |s| == HEADER_SIZE * n && n > 0
    ensures DecodeAll(s, n) == [Decode(s[..HEADER_SIZE])] + DecodeAll(s[HEADER_SIZE..], n - 1)
  {
  }

  /** The filled-up buffer, cut behind its first header. */
  lemma FilledSplit(s: seq<byte>, m: nat)
    requires m <= |s| && HEADER_SIZE <= |s|
    ensures var t := Filled(s[..m], |s|);
      var m0, m1 := if m < HEADER_SIZE then m else HEADER_SIZE, if m < HEADER_SIZE then 0 else m - HEADER_SIZE;
      && t[..HEADER_SIZE] == Filled(s[..HEADER_SIZE][..m0], HEADER_SIZE)
      && t[HEADER_SIZE..] == Filled(s[HEADER_SIZE..][..m1], |s| - HEADER_SIZE)
  {
  }

  lemma {:induction false} FilledBatchBits(s: seq<byte>, m: nat, n: nat)
    requires |s| == HEADER_SIZE * n && m <= |s| && NoneIsBatch(DecodeAll(s, n))
    ensures NoneIsBatch(DecodeAll(Filled(s[..m], |s|), n))
  {
    if n > 0 {
      var t := Filled(s[..m], |s|);
      var m0, m1 := if m < HEADER_SIZE then m else HEADER_SIZE, if m < HEADER_SIZE then 0 else m - HEADER_SIZE;
      hide *;
      FirstOfAll(s, n);
      FirstOfAll(t, n);
      NoneIsBatchSplit(Decode(s[..HEADER_SIZE]), DecodeAll(s[HEADER_SIZE..], n - 1));
      NoneIsBatchSplit(Decode(t[..HEADER_SIZE]), DecodeAll(t[HEADER_SIZE..], n - 1));
      FilledSplit(s, m);
      FilledBatchBit(s[..HEADER_SIZE], m0);
      FilledBatchBits(s[HEADER_SIZE..], m1, n - 1);
    }
  }

  /** Only the right payload of a data command will do. */
  lemma OtherData(f: Command, q: seq<byte>, xs: seq<Command>)
    requires Fetchable(f) && |q| == |f.payload| && SameAll(xs, Deliver(f))
    ensures SameAll(xs, Deliver(Command(f.header, q))) <==> q == f.payload
  {
    assert Same(xs[0], f);
  }

  lemma SameAlone(x: Command, h: Header, y: Header, q: seq<byte>)
    requires Fetchable(Alone(h)) && !IsBatch(y) && Same(x, Alone(h)) && Same(x, Put(y, q))
    ensures h == y
  {
  }

  /** Only the right headers of a batch will do. */
  lemma OtherBatch(f: Command, q: seq<byte>, xs: seq<Command>)
    requires IsBatchFrame(f) && |q| == |f.payload| && SameAll(xs, Deliver(f))
    requires NoneIsBatch(DecodeAll(q, f.header.batchNr))
    ensures SameAll(xs, Deliver(Command(f.header, q))) <==> q == f.payload
  {
    var n, g := f.header.batchNr, Command(f.header, q);
    var hs, ys := DecodeAll(f.payload, n), DecodeAll(q, n);
    PutAllAlone(hs, f.payload);
    assert Deliver(f) == [f] + AllAlone(hs) && Deliver(g) == [g] + PutAll(ys, q);
    if SameAll(xs, Deliver(g)) {
      forall i | 0 <= i < n
        ensures hs[i] == ys[i]
      {
        assert Same(xs[1 + i], Deliver(f)[1 + i]) && Deliver(f)[1 + i] == Alone(hs[i]);
        assert Same(xs[1 + i], Deliver(g)[1 + i]) && Deliver(g)[1 + i] == Put(ys[i], q);
        assert Fetchable(AllAlone(hs)[i]);
        hide Same, Put, IsBatch, Fetchable, Alone, Deliver, DecodeAll;
        SameAlone(xs[1 + i], hs[i], ys[i], q);
      }
      hide *;
      assert hs == ys;
      DecodeAllIsInjective(f.payload, q, n);
    }
  }

  // ---- The end of the connection at byte k ----

  lemma BatchedAreNotBatches(f: Command)
    requires IsBatchFrame(f)
    ensures NoneIsBatch(DecodeAll(f.payload, f.header.batchNr))
  {
    var hs := DecodeAll(f.payload, f.header.batchNr);
    forall i | 0 <= i < |hs|
      ensures !IsBatch(hs[i])
    {
      assert Fetchable(AllAlone(hs)[i]);
    }
  }

  /** The connection ends in the payload of f, after m bytes of it. */
  lemma CutPayload(f: Command, m: nat, xs: seq<Command>)
    requires Sendable(f) && m < |f.payload| && SameAll(xs, Deliver(f))
    ensures var g := Command(f.header, Filled(f.payload[..m], |f.payload|));
      && Complete(g) && |Deliver(g)| == |Deliver(f)|
      && (SameAll(xs, Deliver(g)) <==> f.payload[m..] == Zeros(|f.payload| - m))
  {
    var q := Filled(f.payload[..m], |f.payload|);
    FilledIsSame(f.payload, m);
    if Fetchable(f) {
      OtherData(f, q, xs);
    } else {
      var n := f.header.batchNr;
      BatchedAreNotBatches(f);
      FilledBatchBits(f.payload, m, n);
      hide AllFetchable, NoneIsBatch, Filled, SameAll;
      OtherBatch(f, q, xs);
    }
  }

  lemma PrefixSplit(xs: seq<Command>, d: seq<Command>, e: seq<Command>)
    requires IsPrefix(xs, d)
    ensures IsPrefix(xs, d + e) <==> IsPrefix(xs[|d|..], e)
  {
    hide Same;
    if IsPrefix(xs, d + e) {
      forall i | 0 <= i < |e|
        ensures Same(xs[|d|..][..|e|][i], e[i])
      {
        assert Same(xs[..|d + e|][|d| + i], (d + e)[|d| + i]);
      }
    }
    if IsPrefix(xs[|d|..], e) {
      forall i | 0 <= i < |d + e|
        ensures Same(xs[..|d + e|][i], (d + e)[i])
      {
        if i < |d| {
          assert Same(xs[..|d|][i], d[i]);
        } else {
          assert Same(xs[|d|..][..|e|][i - |d|], e[i - |d|]);
        }
      }
    }
  }

  lemma PrefixOfSum(xs: seq<Command>, d: seq<Command>, e: seq<Command>)
    requires IsPrefix(xs, d + e)
    ensures IsPrefix(xs, d)
  {
    hide Same;
    forall i | 0 <= i < |d|
      ensures Same(xs[..|d|][i], d[i])
    {
      assert Same(xs[..|d + e|][i], (d + e)[i]);
    }
  }

  lemma CutFrame(f: Command, k: nat)
    requires WellFramed(f) && HEADER_SIZE <= k < |Bytes(f)|
    ensures var s, m := Bytes(f)[..k], k - HEADER_SIZE;
      && m < |f.payload| && Bytes(f)[k..] == f.payload[m..]
      && FirstFrame(s) == Command(f.header, Filled(f.payload[..m], |f.payload|)) && Behind(s) == []
  {
    var s := Bytes(f)[..k];
    assert s[..HEADER_SIZE] == Encode(f.header);
    assert s[HEADER_SIZE..] == f.payload[..k - HEADER_SIZE];
    DecodeEncode(f.header);
    hide Encode, Decode;
  }

  // ---- The end of the connection in a header ----

  /** What a receiver that does not notice it takes for a frame. */
  function Passed(f: Command, k: nat): Command
    requires k < HEADER_SIZE && k <= |Bytes(f)|
  {
    FirstFrame(Filled(Bytes(f)[..k], HEADER_SIZE))
  }

  /** The bytes of a word that are missing make it less. */
  lemma WordIsLess(b: seq<byte>, j: nat)
    requires |b| == 4 && j <= 4
    ensures FromBytes(Filled(b[..j], 4)) <= FromBytes(b)
  {
  }

  lemma FilledPart(s: seq<byte>, k: nat, i: nat)
    requires |s| == HEADER_SIZE && k <= HEADER_SIZE && i < 16
    ensures var at, j := 4 * i, if k < 4 * i then 0 else if k - 4 * i < 4 then k - 4 * i else 4;
      Filled(s[..k], HEADER_SIZE)[at..at + 4] == Filled(s[at..at + 4][..j], 4)
  {
    var at, j := 4 * i, if k < 4 * i then 0 else if k - 4 * i < 4 then k - 4 * i else 4;
    var a, b := Filled(s[..k], HEADER_SIZE)[at..at + 4], Filled(s[at..at + 4][..j], 4);
    forall n | 0 <= n < 4
      ensures a[n] == b[n]
    {
      assert a[n] == Filled(s[..k], HEADER_SIZE)[at + n];
      assert n < j ==> s[at..at + 4][..j][n] == s[at + n];
      assert b[n] == if n < j then s[at + n] else 0;
    }
  }

  /** An integer of the filled-up header, against the one that was sent. */
  lemma IntegerIsLess(h: Header, k: nat, i: nat)
    requires k <= HEADER_SIZE && i < 16
    ensures var t := Filled(Encode(h)[..k], HEADER_SIZE);
      && Integers(Decode(t))[i] <= Integers(h)[i]
      && (k >= 4 * i + 4 ==> Integers(Decode(t))[i] == Integers(h)[i])
      && (k <= 4 * i ==> Integers(Decode(t))[i] == 0)
  {
    var s := Encode(h);
    var t := Filled(s[..k], HEADER_SIZE);
    DecodeEncode(h);
    IntegersAt(s, i);
    IntegersAt(t, i);
    FilledPart(s, k, i);
    hide Integers, Encode, Decode, Filled, FromBytes;
    WordIsLess(s[4 * i..4 * i + 4], if k < 4 * i then 0 else if k - 4 * i < 4 then k - 4 * i else 4);
    WholeWord(s[4 * i..4 * i + 4]);
    ZeroWord(Filled(s[4 * i..4 * i + 4][..0], 4));
  }

  lemma WholeWord(b: seq<byte>)
    requires |b| == 4
    ensures Filled(b[..4], 4) == b && Filled(b[..0], 4) == Zeros(4)
  {
  }

  lemma HeaderInFront(f: Command, k: nat)
    requires k < HEADER_SIZE && k <= |Bytes(f)|
    ensures Filled(Bytes(f)[..k], HEADER_SIZE) == Filled(Encode(f.header)[..k], HEADER_SIZE)
    ensures forall i | 0 <= i < k :: Bytes(f)[i] == Encode(f.header)[i]
  {
    hide Encode;
    assert Bytes(f)[..k] == Encode(f.header)[..k];
  }

  /** The filled-up header is the one that was sent, but that integers may be less. */
  lemma PassedHeader(f: Command, k: nat)
    requires WellFramed(f) && k < HEADER_SIZE && k <= |Bytes(f)|
    ensures var g := Passed(f, k);
      && g.header == Decode(Filled(Bytes(f)[..k], HEADER_SIZE))
      && 0 <= g.header.len <= f.header.len
      && g.payload == (if g.header.cmd == CMD_NONE then [] else Zeros(g.header.len))
      && (k >= 40 ==> g.header.len == f.header.len && g.header.batchNr == f.header.batchNr)
  {
    HeaderInFront(f, k);
    IntegerIsLess(f.header, k, 7);
    IntegerIsLess(f.header, k, 9);
    hide Encode, Decode, Bytes;
    var t := Filled(Bytes(f)[..k], HEADER_SIZE);
    assert t[..HEADER_SIZE] == t && t[HEADER_SIZE..] == [];
  }

  lemma ZeroWord(b: seq<byte>)
    requires |b| == 4
    ensures FromBytes(b) == 0 <==> b == Zeros(4)
  {
  }

  /** No command is found exactly if nothing but zeros has arrived of its code. */
  lemma PassedCommand(f: Command, k: nat)
    requires k < HEADER_SIZE && k <= |Bytes(f)|
    ensures Passed(f, k).header.cmd == CMD_NONE <==> NoCommandIn(f, k)
  {
    var t := Filled(Bytes(f)[..k], HEADER_SIZE);
    assert t[..HEADER_SIZE] == t;
    IntegersAt(t, 0);
    ZeroWord(t[0..4]);
    hide Decode, FromBytes, Bytes;
    assert OfInt(Decode(t).cmd) == 0 <==> t[0..4] == Zeros(4);
    assert t[0..4] == Zeros(4) <==> forall i | 0 <= i < 4 :: t[i] == 0;
    assert forall i | 0 <= i < k :: t[i] == Bytes(f)[i];
  }

  /** What passes for the fetched command is delivered as that. */
  lemma PassesAsFetched(f: Command, k: nat, c: Command)
    requires k < HEADER_SIZE && k <= |Bytes(f)| && Fetchable(c) && PassesFor(f, k, c)
    ensures Passed(f, k) == c
  {
    var t, u := Filled(Bytes(f)[..k], HEADER_SIZE), Bytes(c);
    BytesLength(c);
    assert u[..HEADER_SIZE] == Encode(c.header) && u[HEADER_SIZE..] == c.payload;
    assert t == u[..HEADER_SIZE] && t[..HEADER_SIZE] == t && t[HEADER_SIZE..] == [];
    DecodeEncode(c.header);
    hide Encode, Decode, Bytes;
    assert c.payload == Zeros(|c.payload|);
  }

  lemma FilledFurther(s: seq<byte>, n: nat, z: seq<byte>, b: seq<byte>)
    requires |s| <= n && z == Zeros(|z|) && b == Filled(s, n) + z
    ensures Filled(s, |b|) == b
  {
  }

  lemma PassedParts(f: Command, k: nat)
    requires WellFramed(f) && k < HEADER_SIZE && k <= |Bytes(f)| && Passed(f, k).header.cmd != CMD_NONE
    ensures var g := Passed(f, k);
      && Encode(g.header) == Filled(Bytes(f)[..k], HEADER_SIZE) && g.payload == Zeros(|g.payload|)
  {
    PassedHeader(f, k);
    EncodeDecode(Filled(Bytes(f)[..k], HEADER_SIZE));
    hide Encode, Decode, Bytes, Filled, Passed, WellFramed;
  }

  /** Only what passes for a command is delivered as that. */
  lemma OnlyPasses(f: Command, k: nat, c: Command)
    requires WellFramed(f) && k < HEADER_SIZE && k <= |Bytes(f)| && Passed(f, k) == c && c.header.cmd != CMD_NONE
    ensures PassesFor(f, k, c)
  {
    PassedParts(f, k);
    BytesAre(c);
    hide Encode, Bytes, Passed, Filled, WellFramed, Zeros;
    FilledFurther(Bytes(f)[..k], HEADER_SIZE, c.payload, Bytes(c));
  }

  /** Its flags have arrived, and what is in front of them. */
  lemma PassedIsBatch(f: Command, k: nat)
    requires Sendable(f) && k < HEADER_SIZE && k <= |Bytes(f)|
    requires Passed(f, k).header.cmd != CMD_NONE && IsBatch(Passed(f, k).header)
    ensures k > FLAGS_OFFSET && IsBatchFrame(f)
  {
    var t := Filled(Bytes(f)[..k], HEADER_SIZE);
    assert t[..HEADER_SIZE] == t;
    HeaderInFront(f, k);
    BatchBitAt(t);
    BatchBitAt(Encode(f.header));
    DecodeEncode(f.header);
    IntegerIsLess(f.header, k, 0);
    hide Encode, Decode, Bytes, IsBatchFrame, Filled, IsBatch;
    assert t[FLAGS_OFFSET] % 2 == 1;
    assert OfInt(Decode(t).cmd) > 0;
  }

  /** A batch without its payload delivers commands without a code, which nobody has fetched. */
  lemma EmptyBatch(g: Command, fetched: seq<Command>, capacity: nat)
    requires g.header.cmd != CMD_NONE && IsBatch(g.header) && BatchFits(g.header) && g.header.batchNr > 0
    requires g.payload == Zeros(g.header.len) && AllFetchable(fetched, capacity)
    ensures Complete(g) && !IsPrefix(fetched, Deliver(g))
  {
    var n, q := g.header.batchNr, g.payload;
    var ys := DecodeAll(q, n);
    FirstOfAll(q, n);
    ClearedHeader();
    BatchBitAt(Zeros(HEADER_SIZE));
    hide Decode, DecodeAll;
    assert q[..HEADER_SIZE] == Zeros(HEADER_SIZE);
    var d := Put(ys[0], q);
    assert Deliver(g)[1] == d && d.header.cmd == CMD_NONE && !IsBatch(d.header);
    hide *;
    if |fetched| > 1 {
      NobodyFetches(fetched, 1, capacity, d);
    }
    if IsPrefix(fetched, Deliver(g)) {
      SameAt(fetched, Deliver(g), 1);
    }
  }

  lemma NobodyFetches(fetched: seq<Command>, i: nat, capacity: nat, d: Command)
    requires AllFetchable(fetched, capacity) && i < |fetched| && d.header.cmd == CMD_NONE && !IsBatch(d.header)
    ensures !Same(fetched[i], d)
  {
    assert Fetchable(fetched[i]);
  }

  lemma SameAt(fetched: seq<Command>, log: seq<Command>, i: nat)
    requires IsPrefix(fetched, log) && i < |log|
    ensures i < |fetched| && Same(fetched[i], log[i])
  {
    assert Same(fetched[..|log|][i], log[i]);
  }

  /** The connection ends in the header of f, and that is not noticed. */
  lemma CutInHeader(f: Command, fetched: seq<Command>, k: nat, capacity: nat)
    requires Sendable(f) && WellFramed(f) && f.header.len <= capacity && AllFetchable(fetched, capacity)
    requires k < HEADER_SIZE && k <= |Bytes(f)|
    ensures Taken(Passed(f, k), capacity) && Complete(Passed(f, k))
    ensures IsPrefix(fetched, Deliver(Passed(f, k))) <==>
            NoCommandIn(f, k) || (fetched != [] && PassesFor(f, k, fetched[0]))
  {
    var g := Passed(f, k);
    PassedHeader(f, k);
    PassedCommand(f, k);
    hide Passed, Bytes, Decode, Encode, NoCommandIn, PassesFor, Filled, Zeros;
    if g.header.cmd == CMD_NONE {
      assert Deliver(g) == [];
    } else if IsBatch(g.header) {
      PassedIsBatch(f, k);
      EmptyBatch(g, fetched, capacity);
      if fetched != [] && PassesFor(f, k, fetched[0]) {
        PassesAsFetched(f, k, fetched[0]);
      }
    } else {
      CutInCommand(f, fetched, k, capacity);
    }
  }

  lemma CutInCommand(f: Command, fetched: seq<Command>, k: nat, capacity: nat)
    requires WellFramed(f) && AllFetchable(fetched, capacity) && k < HEADER_SIZE && k <= |Bytes(f)|
    requires var g := Passed(f, k); g.header.cmd != CMD_NONE && !IsBatch(g.header) && Complete(g)
    ensures IsPrefix(fetched, Deliver(Passed(f, k))) <==> fetched != [] && PassesFor(f, k, fetched[0])
  {
    var g := Passed(f, k);
    assert Deliver(g) == [g];
    hide Passed, Bytes, PassesFor, Deliver;
    if IsPrefix(fetched, [g]) {
      assert Same(fetched[..1][0], g);
      OnlyPasses(f, k, fetched[0]);
    }
    if fetched != [] && PassesFor(f, k, fetched[0]) {
      PassesAsFetched(f, k, fetched[0]);
      assert fetched[..1] == [g];
    }
  }

  // ---- The end of the connection at byte k ----

  /** A frame that arrives as a whole does not matter. */
  lemma CutBehindFirst(f: Command, fetched: seq<Command>, rest: seq<byte>, capacity: nat, errno: int)
    requires WellFramed(f) && f.header.len <= capacity
    requires IsPrefix(fetched, Deliver(f)) && |Deliver(f)| <= |fetched|
    requires Readable(rest, capacity, errno) && AllComplete(AllFrames(rest, errno))
    ensures Readable(Bytes(f) + rest, capacity, errno) && AllComplete(AllFrames(Bytes(f) + rest, errno))
    ensures IsPrefix(fetched, Delivered(Bytes(f) + rest, errno)) <==>
            IsPrefix(fetched[|Deliver(f)|..], Delivered(rest, errno))
  {
    AllFramesBehind(f, rest, errno);
    FramesBehindTaken(f, AllFrames(rest, errno), capacity);
    hide Bytes, Deliver, AllFrames, WellFramed, IsPrefix;
    assert DeliverAll([f] + AllFrames(rest, errno)) == Deliver(f) + DeliverAll(AllFrames(rest, errno)) by {
      assert ([f] + AllFrames(rest, errno))[1..] == AllFrames(rest, errno);
    }
    PrefixSplit(fetched, Deliver(f), Delivered(rest, errno));
  }

  lemma AllFramesBehind(f: Command, rest: seq<byte>, errno: int)
    requires WellFramed(f)
    ensures AllFrames(Bytes(f) + rest, errno) == [f] + AllFrames(rest, errno)
  {
    FirstFrameIs(f, rest);
    BytesLength(f);
    hide Bytes, FirstFrame, Behind;
    var last := if errno == 0 then [LastFrame(rest)] else [];
    Associates([f], FramesIn(rest), last);
  }

  lemma FramesBehindTaken(f: Command, fs: seq<Command>, capacity: nat)
    requires WellFramed(f) && f.header.len <= capacity && AllTaken(fs, capacity)
    ensures AllTaken([f] + fs, capacity) && AllComplete([f] + fs) && AllComplete(fs)
  {
    TakenAre(f, capacity);
    hide WellFramed, Taken;
    forall i | 0 <= i < |fs| + 1
      ensures Taken(([f] + fs)[i], capacity)
    {
      assert i == 0 || ([f] + fs)[i] == fs[i - 1];
    }
    TakenAreComplete([f] + fs, capacity);
    TakenAreComplete(fs, capacity);
  }

  lemma TakenAre(f: Command, capacity: nat)
    requires WellFramed(f) && f.header.len <= capacity
    ensures Taken(f, capacity)
  {
  }

  /** The connection ends in f, the first frame of the stream. */
  lemma CutInFirst(f: Command, fetched: seq<Command>, k: nat, capacity: nat, errno: int)
    requires Sendable(f) && WellFramed(f) && f.header.len <= capacity && AllFetchable(fetched, capacity)
    requires IsPrefix(fetched, Deliver(f)) && k < |Bytes(f)|
    ensures var s := Bytes(f)[..k];
      && Readable(s, capacity, errno) && AllComplete(AllFrames(s, errno))
      && (IsPrefix(fetched, Delivered(s, errno)) <==>
            if k >= HEADER_SIZE then Bytes(f)[k..] == Zeros(|Bytes(f)| - k)
            else errno != 0 || NoCommandIn(f, k) || (fetched != [] && PassesFor(f, k, fetched[0])))
  {
    if k >= HEADER_SIZE {
      CutInPayload(f, fetched, k, capacity, errno);
    } else {
      var s := Bytes(f)[..k];
      CutInHeader(f, fetched, k, capacity);
      assert FramesIn(s) == [] && Remainder(s) == s && LastFrame(s) == Passed(f, k);
      hide Bytes, Deliver, FramesIn, LastFrame, Passed, NoCommandIn, PassesFor;
      assert AllFrames(s, errno) == if errno == 0 then [Passed(f, k)] else [];
      if errno == 0 {
        OneFrame(Passed(f, k));
      }
    }
  }

  lemma OneFrame(g: Command)
    requires Complete(g)
    ensures AllComplete([g]) && DeliverAll([g]) == Deliver(g)
  {
    hide Deliver;
    assert DeliverAll([g]) == Deliver(g) + [];
  }

  /** The connection ends in the payload of f; errno does not matter. */
  lemma CutInPayload(f: Command, fetched: seq<Command>, k: nat, capacity: nat, errno: int)
    requires Sendable(f) && WellFramed(f) && f.header.len <= capacity
    requires IsPrefix(fetched, Deliver(f)) && HEADER_SIZE <= k < |Bytes(f)|
    ensures var s := Bytes(f)[..k];
      && Readable(s, capacity, errno) && AllComplete(AllFrames(s, errno))
      && (IsPrefix(fetched, Delivered(s, errno)) <==> Bytes(f)[k..] == Zeros(|Bytes(f)| - k))
  {
    var s, m := Bytes(f)[..k], k - HEADER_SIZE;
    var g := Command(f.header, Filled(f.payload[..m], |f.payload|));
    assert Taken(g, capacity);
    CutFrame(f, k);
    BytesLength(f);
    hide Bytes, FirstFrame, Behind, Deliver, SameAll, Sendable, Filled, Zeros, Taken;
    CutPayload(f, m, fetched[..|Deliver(f)|]);
    FrameAndNoMore(s, g, capacity, errno);
  }

  lemma FrameAndNoMore(s: seq<byte>, g: Command, capacity: nat, errno: int)
    requires |s| >= HEADER_SIZE && FirstFrame(s) == g && Behind(s) == [] && Taken(g, capacity) && Complete(g)
    ensures Readable(s, capacity, errno) && AllComplete(AllFrames(s, errno)) && Delivered(s, errno) == Deliver(g)
  {
    hide FirstFrame, Behind, Deliver;
    assert FramesIn(s) == [g] + [] == [g];
    NothingLast(s) by {
      assert Remainder(s) == Remainder([]) == [];
    }
    OneFrame(g);
    hide LastFrame, FramesIn;
    if errno == 0 {
      DeliversNothing(LastFrame(s));
      DeliverAllAppendOne([g], LastFrame(s));
    }
  }

  lemma DeliversNothing(f: Command)
    requires f.header.cmd == CMD_NONE
    ensures Complete(f) && Deliver(f) == []
  {
  }

  lemma WireCut(fs: seq<Command>, k: nat)
    requires fs != [] && k <= |Wire(fs)|
    ensures var n := |Bytes(fs[0])|;
      if k < n then Wire(fs)[..k] == Bytes(fs[0])[..k]
      else k - n <= |Wire(fs[1..])| && Wire(fs)[..k] == Bytes(fs[0]) + Wire(fs[1..])[..k - n]
  {
    hide Bytes;
  }

  lemma PrefixLength(fetched: seq<Command>, log: seq<Command>)
    requires IsPrefix(fetched, log)
    ensures |log| <= |fetched|
  {
  }

  lemma FirstOfPrefix(fs: seq<Command>, fetched: seq<Command>, capacity: nat)
    requires fs != [] && AllComplete(fs) && AllComplete(fs[1..]) && WellFramed(fs[0]) && AllSendable(fs)
    requires IsPrefix(fetched, DeliverAll(fs)) && AllFetchable(fetched, capacity)
    ensures Sendable(fs[0]) && AllSendable(fs[1..])
    ensures IsPrefix(fetched, Deliver(fs[0])) && |Deliver(fs[0])| <= |fetched|
    ensures IsPrefix(fetched[|Deliver(fs[0])|..], DeliverAll(fs[1..]))
    ensures AllFetchable(fetched[|Deliver(fs[0])|..], capacity)
  {
    assert DeliverAll(fs) == Deliver(fs[0]) + DeliverAll(fs[1..]);
    hide Deliver, Sendable, WellFramed, Complete, IsPrefix;
    PrefixOfSum(fetched, Deliver(fs[0]), DeliverAll(fs[1..]));
    PrefixLength(fetched, Deliver(fs[0]));
    PrefixSplit(fetched, Deliver(fs[0]), DeliverAll(fs[1..]));
    HeldTail(fetched, |Deliver(fs[0])|, capacity);
  }

  /** The condition, seen from the first frame. */
  lemma HarmlessCutIs(fs: seq<Command>, fetched: seq<Command>, k: nat, errno: int)
    requires fs != [] && AllComplete(fs) && AllComplete(fs[1..])
    ensures var f, n := fs[0], |Bytes(fs[0])|;
      HarmlessCut(fs, fetched, k, errno) <==>
        if k >= n then |Deliver(f)| <= |fetched| && HarmlessCut(fs[1..], fetched[|Deliver(f)|..], k - n, errno)
        else if k >= HEADER_SIZE then Bytes(f)[k..] == Zeros(n - k)
        else errno != 0 || NoCommandIn(f, k) || (fetched != [] && PassesFor(f, k, fetched[0]))
  {
    hide Bytes, Deliver, NoCommandIn, PassesFor;
  }

  lemma NoFramesNoHarm(fetched: seq<Command>, k: nat, capacity: nat, errno: int)
    requires k <= |Wire([])|
    ensures AllFramed([], capacity) && HarmlessCut([], fetched, k, errno) && Wire([])[..k] == Wire([])
    ensures AllComplete([]) && IsPrefix(fetched, DeliverAll([]))
  {
  }

  /** The log is still a prefix of what was fetched exactly if the cut is harmless. */
  lemma {:induction false} CutIsHarmless(fs: seq<Command>, fetched: seq<Command>, k: nat, capacity: nat, errno: int)
    requires AllFramed(fs, capacity) && AllSendable(fs) && AllComplete(fs) && AllFetchable(fetched, capacity)
    requires IsPrefix(fetched, DeliverAll(fs)) && k <= |Wire(fs)|
    ensures var s := Wire(fs)[..k];
      && Readable(s, capacity, errno) && AllComplete(AllFrames(s, errno))
      && (IsPrefix(fetched, Delivered(s, errno)) <==> HarmlessCut(fs, fetched, k, errno))
    decreases |fs|
  {
    hide *;
    if fs == [] {
      NoFramesNoHarm(fetched, k, capacity, errno);
      WireIsDelivered([], capacity, errno);
    } else {
      TailIsFramed(fs, capacity);
      FirstOfPrefix(fs, fetched, capacity);
      WireCut(fs, k);
      HarmlessCutIs(fs, fetched, k, errno);
      var n, d := |Bytes(fs[0])|, |Deliver(fs[0])|;
      if k < n {
        CutInFirst(fs[0], fetched, k, capacity, errno);
      } else {
        CutIsHarmless(fs[1..], fetched[d..], k - n, capacity, errno);
        CutBehindFirst(fs[0], fetched, Wire(fs[1..])[..k - n], capacity, errno);
      }
    }
  }

  // ---- What arrives as a whole ----

  /** How many frames are there as a whole, and how many bytes of the next one. */
  function WholeIn(fs: seq<Command>, k: nat): (n: nat)
    ensures n <= |fs|
  {
    if fs == [] || k < |Bytes(fs[0])| then 0 else 1 + WholeIn(fs[1..], k - |Bytes(fs[0])|)
  }

  function CutAt(fs: seq<Command>, k: nat): (j: nat)
    ensures var n := WholeIn(fs, k); n < |fs| ==> j < |Bytes(fs[n])|
  {
    if fs == [] || k < |Bytes(fs[0])| then k else CutAt(fs[1..], k - |Bytes(fs[0])|)
  }

  /** What there is of the frame that is cut off. */
  function CutBytes(fs: seq<Command>, k: nat): seq<byte> {
    var n := WholeIn(fs, k);
    if n < |fs| then Bytes(fs[n])[..CutAt(fs, k)] else []
  }

  lemma WholeInIs(fs: seq<Command>, k: nat)
    requires fs != [] && |Bytes(fs[0])| <= k
    ensures var j := k - |Bytes(fs[0])|; var n := WholeIn(fs[1..], j);
      && WholeIn(fs, k) == n + 1 && fs[..n + 1] == [fs[0]] + fs[1..][..n]
      && CutAt(fs, k) == CutAt(fs[1..], j) && CutBytes(fs, k) == CutBytes(fs[1..], j)
      && (n < |fs[1..]| ==> fs[1..][n] == fs[n + 1])
  {
    hide Bytes;
  }

  lemma {:induction false} WireCutAt(fs: seq<Command>, k: nat)
    requires k <= |Wire(fs)|
    ensures Wire(fs)[..k] == Wire(fs[..WholeIn(fs, k)]) + CutBytes(fs, k)
    decreases |fs|
  {
    hide Bytes;
    if fs == [] {
      assert Wire(fs)[..k] == [];
    } else {
      WireCut(fs, k);
      if k < |Bytes(fs[0])| {
        assert Wire(fs[..0]) == [] && CutBytes(fs, k) == Bytes(fs[0])[..k];
      } else {
        var f, j := fs[0], k - |Bytes(fs[0])|;
        var whole := fs[1..][..WholeIn(fs[1..], j)];
        WholeInIs(fs, k);
        WireCutAt(fs[1..], j);
        assert ([f] + whole)[1..] == whole && Wire([f] + whole) == Bytes(f) + Wire(whole);
        hide Wire, CutBytes, WholeIn;
        Associates(Bytes(f), Wire(whole), CutBytes(fs[1..], j));
      }
    }
  }

  lemma AllFramesAfter(fs: seq<Command>, rest: seq<byte>, capacity: nat, errno: int)
    requires AllFramed(fs, capacity)
    ensures AllFrames(Wire(fs) + rest, errno) == fs + AllFrames(rest, errno)
  {
    WireIsRead(fs, rest, capacity);
    hide Wire, FramesIn, Remainder, FirstFrame;
    Associates(fs, FramesIn(rest), if errno == 0 then [LastFrame(rest)] else []);
  }

  lemma CompleteParts(fs: seq<Command>, gs: seq<Command>)
    requires AllComplete(fs + gs)
    ensures AllComplete(fs) && AllComplete(gs)
  {
    hide Complete;
    forall i | 0 <= i < |fs|
      ensures Complete(fs[i])
    {
      assert (fs + gs)[i] == fs[i];
    }
    forall i | 0 <= i < |gs|
      ensures Complete(gs[i])
    {
      assert (fs + gs)[|fs| + i] == gs[i];
    }
  }

  lemma FramedBefore(fs: seq<Command>, n: nat, capacity: nat)
    requires AllFramed(fs, capacity) && n <= |fs|
    ensures AllFramed(fs[..n], capacity)
  {
    hide WellFramed;
  }

  /** Every whole frame is delivered as what it stands for, then comes what is made
      of the one that is cut off. */
  lemma WholeAreDelivered(fs: seq<Command>, k: nat, capacity: nat, errno: int)
    requires AllFramed(fs, capacity) && k <= |Wire(fs)|
    requires AllComplete(AllFrames(Wire(fs)[..k], errno))
    ensures var whole, rest := fs[..WholeIn(fs, k)], CutBytes(fs, k);
      && AllComplete(whole) && AllComplete(AllFrames(rest, errno))
      && Delivered(Wire(fs)[..k], errno) == DeliverAll(whole) + Delivered(rest, errno)
  {
    var whole, rest := fs[..WholeIn(fs, k)], CutBytes(fs, k);
    hide *;
    WireCutAt(fs, k);
    FramedBefore(fs, WholeIn(fs, k), capacity);
    AllFramesAfter(whole, rest, capacity, errno);
    CompleteParts(whole, AllFrames(rest, errno));
    DeliverAllAppend(whole, AllFrames(rest, errno));
    DeliveredIs(Wire(fs)[..k], errno);
    DeliveredIs(rest, errno);
  }

  lemma DeliveredIs(s: seq<byte>, errno: int)
    requires AllComplete(AllFrames(s, errno))
    ensures Delivered(s, errno) == DeliverAll(AllFrames(s, errno))
  {
  }

  // ---- The frame that is cut off, byte by byte ----

  /** The frame g is what has arrived, with a zero for every byte that has not. */
  predicate ZeroFilled(s: seq<byte>, g: Command) {
    && (forall i | 0 <= i < 168 :: Encode(g.header)[i] == if i < |s| then s[i] else 0)
    && (forall i | 0 <= i < |g.payload| :: g.payload[i] == if 168 + i < |s| then s[168 + i] else 0)
    && (g.header.cmd != 0 ==> |g.payload| == g.header.len)
  }

  /** What the receiver finds in a frame of which k bytes arrive: nothing, if errno
      tells it so in the header; else the frame with zeros in it, and no command
      behind that. */
  lemma CutFrameIs(f: Command, k: nat, errno: int)
    requires WellFramed(f) && k < |Bytes(f)|
    ensures var s := Bytes(f)[..k]; var gs := AllFrames(s, errno);
      if k < 168 && errno != 0 then gs == []
      else |gs| > 0 && ZeroFilled(s, gs[0]) && forall i | 0 < i < |gs| :: gs[i].header.cmd == 0
  {
    var s := Bytes(f)[..k];
    BytesLength(f);
    if k < HEADER_SIZE {
      HeaderIsCut(f, k);
      assert FramesIn(s) == [] && Remainder(s) == s && LastFrame(s) == Passed(f, k);
    } else {
      PayloadIsCut(f, k);
      hide Bytes, FirstFrame, Behind, ZeroFilled;
      assert FramesIn(s) == [FirstFrame(s)] + [];
      NothingLast(s) by {
        assert Remainder(s) == Remainder([]) == [];
      }
    }
  }

  lemma HeaderIsCut(f: Command, k: nat)
    requires WellFramed(f) && k < HEADER_SIZE && k <= |Bytes(f)|
    ensures ZeroFilled(Bytes(f)[..k], Passed(f, k))
  {
    PassedHeader(f, k);
    EncodeDecode(Filled(Bytes(f)[..k], HEADER_SIZE));
    hide Encode, Decode, Bytes, Passed, WellFramed;
  }

  lemma PayloadIsCut(f: Command, k: nat)
    requires WellFramed(f) && HEADER_SIZE <= k < |Bytes(f)|
    ensures var s := Bytes(f)[..k]; ZeroFilled(s, FirstFrame(s)) && Behind(s) == []
  {
    CutFrame(f, k);
    BytesAre(f);
    hide Encode, Bytes, FirstFrame, Behind;
  }

  // ---- Two cuts that do harm ----

  lemma OneSent(f: Command)
    requires Fetchable(f) && |f.payload| <= MAX_LEN
    ensures AllFramed([f], MAX_LEN) && AllSendable([f]) && AllComplete([f]) && AllFetchable([f], MAX_LEN)
    ensures IsPrefix([f], DeliverAll([f])) && Wire([f]) == Bytes(f)
  {
    SingleDelivers(f);
    OneFrame(f);
    assert Wire([f]) == Bytes(f) + [] && [f][..1] == [f];
    hide Encode, Deliver;
  }

  /** A data command of one byte, cut off right behind its header. */
  const ONE_BYTE := Command(BLANK.(cmd := CMD_COPYIN_DATA, len := 1), [7])

  /** It is delivered with a byte that nobody has sent, whatever errno is. */
  lemma CutMayHarm(errno: int)
    ensures Fetchable(ONE_BYTE) && HEADER_SIZE < |Wire([ONE_BYTE])|
    ensures var s := Wire([ONE_BYTE])[..HEADER_SIZE];
      && AllComplete(AllFrames(s, errno)) && !IsPrefix([ONE_BYTE], Delivered(s, errno))
  {
    var f := ONE_BYTE;
    OneSent(f);
    BytesLength(f);
    HarmlessCutIs([f], [f], HEADER_SIZE, errno);
    CutIsHarmless([f], [f], HEADER_SIZE, MAX_LEN, errno);
    assert Bytes(f)[HEADER_SIZE..] == [7];
    assert Zeros(1)[0] == 0;
  }

  /** A message to the data center with number 3, cut off behind its command code. */
  const MESSAGE := Command(BLANK.(cmd := CMD_SEND_MSG, dcid := 3), [])

  /** It is delivered as a message to another one, if errno is 0. */
  lemma HeaderCutMayHarm()
    ensures Fetchable(MESSAGE) && 4 < |Wire([MESSAGE])|
    ensures var s := Wire([MESSAGE])[..4];
      && AllComplete(AllFrames(s, 0)) && !IsPrefix([MESSAGE], Delivered(s, 0))
  {
    var f := MESSAGE;
    OneSent(f);
    BytesLength(f);
    HarmlessCutIs([f], [f], 4, 0);
    CutIsHarmless([f], [f], 4, MAX_LEN, 0);
    MessageCode(f);
  }

  lemma MessageCode(f: Command)
    requires f.header.cmd != 0 && f.header.dcid != 0
    ensures |Bytes(f)| > 4 && !NoCommandIn(f, 4) && !PassesFor(f, 4, f)
  {
    var s, t := Encode(f.header), Bytes(f);
    BytesLength(f);
    DecodeEncode(f.header);
    IntegersAt(s, 0);
    IntegersAt(s, 1);
    ZeroWord(s[0..4]);
    ZeroWord(s[4..8]);
    hide Encode, Decode, FromBytes;
    assert t[0..4] == s[0..4] && t[4..8] == s[4..8];
    assert t[0..4] == Zeros(4) <==> forall i | 0 <= i < 4 :: t[i] == 0;
    assert Filled(t[..4], |t|)[4..8] == Zeros(4);
  }
}
