/** The invariant that the sender of tcp_proxy_bat.c keeps at every step, on values. */
module Conservation {
  import opened Words
  import opened Commands
  import opened Frames
  import opened Batching

  // ---- Conservation: nothing is lost, doubled or reordered ----

  predicate AllSendable(fs: seq<Command>) {
    forall i | 0 <= i < |fs| :: Sendable(fs[i])
  }

  /** What was fetched is in the frames whose bytes were sent or queued, or is held in the sender's buffers. */
  ghost predicate Conserved(capacity: nat, fetched: seq<Command>, frames: seq<Command>, held: seq<Command>,
                            bytes: seq<byte>)
  {
    && AllFramed(frames, capacity) && AllComplete(frames) && AllSendable(frames) && AllFetchable(held, capacity)
    && bytes == Wire(frames)
    && SameAll(fetched, DeliverAll(frames) + held)
  }

  /** What the sender's buffers hold: the command that a round has begun with and
      the batch behind it, and the one that was fetched last. */
  function HeldIn(loaded: bool, lead: Command, hs: seq<Header>, second: bool, last: Command): seq<Command> {
    (if loaded then [lead] + AllAlone(hs) else []) + if second then [last] else []
  }

  lemma HeldInParts(lead: Command, hs: seq<Header>, last: Command)
    ensures HeldIn(false, lead, hs, false, last) == []
    ensures HeldIn(true, lead, [], false, last) == [lead]
    ensures HeldIn(false, lead, hs, true, last) == [last]
    ensures HeldIn(true, lead, hs, false, last) == [lead] + AllAlone(hs)
    ensures HeldIn(true, lead, hs, true, last) == [lead] + AllAlone(hs) + [last]
  {
  }

  /** The command that was fetched last goes into the batch. */
  lemma HeldInBatch(lead: Command, hs: seq<Header>, h: Header, last: Command)
    ensures HeldIn(true, lead, hs + [h], false, last) == HeldIn(true, lead, hs, true, Alone(h))
  {
    AllAloneNext(hs, h);
    Associates([lead], AllAlone(hs), [Alone(h)]);
    NothingAdded([lead] + AllAlone(hs + [h]));
    hide AllAlone;
  }

  lemma ConservedByFetch(capacity: nat, fetched: seq<Command>, frames: seq<Command>, held: seq<Command>,
                         bytes: seq<byte>, c: Command)
    requires Conserved(capacity, fetched, frames, held, bytes) && Fetchable(c) && |c.payload| <= capacity
    ensures Conserved(capacity, fetched + [c], frames, held + [c], bytes)
  {
    HeldAreSame([c], capacity);
    hide Same, Fetchable, AllFramed;
    SameAllAppend(fetched, DeliverAll(frames) + held, [c], [c]);
    Associates(DeliverAll(frames), held, [c]);
  }

  /** One more call of the kernel is answered. */
  lemma ConservedByGet(capacity: nat, answers: seq<Answer>, next: nat, frames: seq<Command>, held: seq<Command>,
                       bytes: seq<byte>)
    requires next < |answers| && FetchableAnswer(answers[next], capacity)
    requires Conserved(capacity, Fetched(answers[..next]), frames, held, bytes)
    ensures Conserved(capacity, Fetched(answers[..next + 1]), frames, held + CommandsOf(answers[next]), bytes)
  {
    hide Conserved, Fetched;
    FetchedNext(answers, next);
    if answers[next].Got? {
      ConservedByFetch(capacity, Fetched(answers[..next]), frames, held, bytes, answers[next].command);
    } else {
      NothingAdded(Fetched(answers[..next]));
      NothingAdded(held);
    }
  }

  lemma WireAppendOne(frames: seq<Command>, f: Command)
    ensures Wire(frames + [f]) == Wire(frames) + Bytes(f)
  {
    WireAppend(frames, [f]);
    hide Bytes;
    assert Wire([f]) == Bytes(f) + [];
  }

  lemma SameAllPrefix(xs: seq<Command>, a: seq<Command>, held: seq<Command>, capacity: nat, k: nat, ds: seq<Command>)
    requires SameAll(xs, a + held) && k <= |held| && AllFetchable(held, capacity) && SameAll(held[..k], ds)
    ensures SameAll(xs, a + ds + held[k..])
  {
    forall i | 0 <= i < |xs|
      ensures Same(xs[i], (a + ds + held[k..])[i])
    {
      assert Same(xs[i], (a + held)[i]);
      if |a| <= i < |a| + k {
        assert Fetchable(held[i - |a|]);
        assert Same(held[..k][i - |a|], ds[i - |a|]);
      }
    }
  }

  /** The first k held commands go into a frame. */
  lemma ConservedByQueue(capacity: nat, fetched: seq<Command>, frames: seq<Command>, held: seq<Command>,
                         bytes: seq<byte>, f: Command, k: nat)
    requires Conserved(capacity, fetched, frames, held, bytes)
    requires Sendable(f) && f.header.len <= capacity && k <= |held| && SameAll(held[..k], Deliver(f))
    ensures Conserved(capacity, fetched, frames + [f], held[k..], bytes + Bytes(f))
  {
    hide *;
    ConservedParts(capacity, fetched, frames, held, bytes);
    SendableIsFramed(f);
    FramesNext(frames, f, capacity);
    HeldTail(held, k, capacity);
    WireAppendOne(frames, f);
    DeliverAllAppendOne(frames, f);
    SameAllPrefix(fetched, DeliverAll(frames), held, capacity, k, Deliver(f));
    ConservedBy(capacity, fetched, frames + [f], held[k..], bytes + Bytes(f));
  }

  lemma ConservedParts(capacity: nat, fetched: seq<Command>, frames: seq<Command>, held: seq<Command>, bytes: seq<byte>)
    requires Conserved(capacity, fetched, frames, held, bytes)
    ensures AllFramed(frames, capacity) && AllComplete(frames) && AllSendable(frames) && AllFetchable(held, capacity)
    ensures bytes == Wire(frames) && SameAll(fetched, DeliverAll(frames) + held)
  {
  }

  lemma ConservedBy(capacity: nat, fetched: seq<Command>, frames: seq<Command>, held: seq<Command>, bytes: seq<byte>)
    requires AllFramed(frames, capacity) && AllComplete(frames) && AllSendable(frames) && AllFetchable(held, capacity)
    requires bytes == Wire(frames) && SameAll(fetched, DeliverAll(frames) + held)
    ensures Conserved(capacity, fetched, frames, held, bytes)
  {
  }

  lemma FramesNext(frames: seq<Command>, f: Command, capacity: nat)
    requires AllFramed(frames, capacity) && AllSendable(frames)
    requires WellFramed(f) && Sendable(f) && f.header.len <= capacity
    ensures AllFramed(frames + [f], capacity) && AllSendable(frames + [f])
  {
    hide WellFramed, Sendable;
  }

  lemma HeldTail(held: seq<Command>, k: nat, capacity: nat)
    requires AllFetchable(held, capacity) && k <= |held|
    ensures AllFetchable(held[k..], capacity)
  {
    hide Fetchable;
  }

  // ---- The batch that the inner loop collects ----

  /** The inner loop has taken n batchable answers and stops: at a full buffer,
      at the end, or at an answer that it cannot take. */
  lemma {:induction false} BatchCountIs(answers: seq<Answer>, max: nat, n: nat)
    requires n <= max && n <= |answers|
    requires forall i | 0 <= i < n :: IsBatchable(answers[i])
    requires n == max || n == |answers| || !IsBatchable(answers[n])
    ensures BatchCount(answers, max) == n
  {
    if n > 0 {
      BatchCountIs(answers[1..], max - 1, n - 1);
    }
  }

  /** A round that sends a batch, and the data command that ended it. */
  lemma RoundOfBatch(answers: seq<Answer>, max: nat, start: nat, end: nat, more: seq<Command>, next: nat)
    requires max * HEADER_SIZE <= MAX_LEN && start < |answers| && IsBatchable(answers[start])
    requires end == EndOfBatch(answers, max, start)
    requires
      if end == start + 1 + max then more == [] && next == end
      else end < |answers| && next == end + 1 &&
           match answers[end]
           case Failed(e, _) => !e.NotConn? && more == []
           case Got(c) => more == [c]
    ensures OneRound(answers, max, start) == Round([LeadOf(answers, start, end)] + more, next, true)
  {
    hide EndOfBatch, LeadOf;
  }

  /** The frame that is due stands for the commands at the head of the buffers. */
  lemma LeadIsHeld(lead: Command, hs: seq<Header>, more: seq<Command>, capacity: nat)
    requires |hs| * HEADER_SIZE <= capacity <= MAX_LEN && (hs != [] ==> lead.payload == [] && !CarriesData(lead.header))
    requires AllFetchable([lead] + AllAlone(hs) + more, capacity)
    ensures var held, f, k := [lead] + AllAlone(hs) + more, LeadFrame(lead, hs), 1 + |hs|;
      Sendable(f) && f.header.len <= capacity && SameAll(held[..k], Deliver(f)) && held[k..] == more
  {
    var held := [lead] + AllAlone(hs) + more;
    assert held[..1 + |hs|] == [lead] + AllAlone(hs);
    assert Fetchable(held[0]) && |held[0].payload| <= capacity;
    if hs == [] {
      SingleDelivers(lead);
    } else {
      forall i | 0 <= i < |hs|
        ensures Fetchable(AllAlone(hs)[i])
      {
        assert held[1 + i] == AllAlone(hs)[i];
      }
      hide Fetchable, AllAlone, Deliver;
      BatchDelivers(lead.header, hs);
    }
  }
}
