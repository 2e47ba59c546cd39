/** What whole rounds of the sender of tcp_proxy_bat.c stand for, on values: a
    FIFO of what was fetched, up to the round that the function returns from. */
module Rounds {
  import opened Words
  import opened Commands
  import opened Frames
  import opened Batching
  import opened Conservation

  // ---- What was fetched between two calls ----

  lemma {:induction false} FetchedAreFetchable(answers: seq<Answer>, capacity: nat)
    requires AnswersFit(answers, capacity)
    ensures AllFetchable(Fetched(answers), capacity)
  {
    if answers != [] {
      assert FetchableAnswer(answers[0], capacity);
      FetchedAreFetchable(answers[1..], capacity);
    }
  }

  predicate AllBatchable(answers: seq<Answer>, i: nat, j: nat)
    requires i <= j <= |answers|
  {
    forall k | i <= k < j :: IsBatchable(answers[k])
  }

  /** The inner loop takes nothing else. */
  lemma BatchIsBatchable(answers: seq<Answer>, max: nat, start: nat)
    requires start < |answers|
    ensures AllBatchable(answers, start + 1, EndOfBatch(answers, max, start))
  {
    var from := start + 1;
    var n := BatchCount(answers[from..], max);
    hide IsBatchable, BatchCount;
    forall k | from <= k < from + n
      ensures IsBatchable(answers[k])
    {
      assert answers[k] == answers[from..][k - from];
    }
  }

  function HeadersIn(answers: seq<Answer>, i: nat, j: nat): seq<Header>
    requires i <= j <= |answers|
  {
    Headers(answers[i..j])
  }

  lemma HeadersInNext(answers: seq<Answer>, i: nat, j: nat)
    requires i <= j < |answers|
    ensures HeadersIn(answers, i, j + 1) == HeadersIn(answers, i, j) + [HeaderOf(answers[j])]
  {
    HeadersNext(answers, i, j);
    hide Headers;
  }

  lemma BatchableIs(answers: seq<Answer>, i: nat, capacity: nat)
    requires AnswersFit(answers, capacity) && i < |answers| && IsBatchable(answers[i])
    ensures CommandsOf(answers[i]) == [Alone(HeaderOf(answers[i]))]
    ensures answers[i].command == Alone(HeaderOf(answers[i]))
  {
    assert FetchableAnswer(answers[i], capacity);
  }

  /** Batchable answers are nothing but headers. */
  lemma {:induction false} FetchedRun(answers: seq<Answer>, i: nat, j: nat, capacity: nat)
    requires AnswersFit(answers, capacity) && i <= j <= |answers| && AllBatchable(answers, i, j)
    ensures FetchedIn(answers, i, j) == AllAlone(HeadersIn(answers, i, j))
    decreases j - i
  {
    if i < j {
      var k := j - 1;
      assert IsBatchable(answers[k]);
      hide FetchedIn, AllAlone, HeadersIn, AnswersFit, IsBatchable, CommandsOf;
      FetchedRun(answers, i, k, capacity);
      FetchedSplit(answers, i, k, j);
      FetchedOne(answers, k);
      HeadersInNext(answers, i, k);
      AllAloneNext(HeadersIn(answers, i, k), HeaderOf(answers[k]));
      BatchableIs(answers, k, capacity);
    }
  }

  // ---- One round ----

  /** A command that can be batched, and the ones that are there right behind it. */
  lemma FetchedLead(answers: seq<Answer>, start: nat, end: nat, capacity: nat)
    requires AnswersFit(answers, capacity) && start < end <= |answers| && IsBatchable(answers[start])
    requires AllBatchable(answers, start + 1, end)
    ensures FetchedIn(answers, start, end) == [answers[start].command] + AllAlone(HeadersIn(answers, start + 1, end))
    ensures answers[start].command.payload == []
  {
    BatchableIs(answers, start, capacity);
    hide FetchedIn, AllAlone, HeadersIn, AllBatchable, IsBatchable, AnswersFit, CommandsOf;
    FetchedRun(answers, start + 1, end, capacity);
    FetchedSplit(answers, start, start + 1, end);
    FetchedOne(answers, start);
  }

  /** What the frames of a round must stand for. */
  ghost predicate StandsFor(fetched: seq<Command>, frames: seq<Command>) {
    AllComplete(frames) && SameAll(fetched, DeliverAll(frames))
  }

  lemma StandsForParts(fetched: seq<Command>, frames: seq<Command>)
    requires StandsFor(fetched, frames)
    ensures AllComplete(frames) && SameAll(fetched, DeliverAll(frames))
  {
  }

  lemma NothingStandsFor()
    ensures StandsFor([], [])
  {
  }

  lemma StandsForAppend(cs: seq<Command>, fs: seq<Command>, ds: seq<Command>, gs: seq<Command>)
    requires StandsFor(cs, fs) && StandsFor(ds, gs)
    ensures StandsFor(cs + ds, fs + gs)
  {
    hide Complete, Deliver, DeliverAll, SameAll;
    DeliverAllAppend(fs, gs);
    SameAllAppend(cs, DeliverAll(fs), ds, DeliverAll(gs));
  }

  lemma FrameStandsFor(cs: seq<Command>, f: Command)
    requires Sendable(f) && Complete(f) && SameAll(cs, Deliver(f))
    ensures StandsFor(cs, [f])
  {
    hide Deliver, SameAll, Sendable;
    assert DeliverAll([f]) == Deliver(f) + [];
    NothingAdded(Deliver(f));
  }

  lemma CommandStandsFor(a: Answer, capacity: nat)
    requires FetchableAnswer(a, capacity) && a.Got?
    ensures StandsFor([a.command], [a.command])
  {
    SingleDelivers(a.command);
    SendableIsFramed(a.command);
    hide Sendable, Deliver, SameAll;
    FrameStandsFor([a.command], a.command);
  }

  lemma HelloStandsFor(left: Header)
    ensures StandsFor([], [Hello(left)])
  {
    HelloDelivers(left);
    SendableIsFramed(Hello(left));
    hide Sendable, Deliver, Hello;
    FrameStandsFor([], Hello(left));
  }

  lemma LeadStandsFor(lead: Command, hs: seq<Header>, capacity: nat)
    requires |hs| * HEADER_SIZE <= capacity <= MAX_LEN && (hs != [] ==> lead.payload == [] && !CarriesData(lead.header))
    requires AllFetchable([lead] + AllAlone(hs), capacity)
    ensures StandsFor([lead] + AllAlone(hs), [LeadFrame(lead, hs)])
  {
    var held := [lead] + AllAlone(hs);
    hide AllFetchable, AllAlone, LeadFrame, Sendable, Deliver, SameAll;
    NothingAdded(held);
    LeadIsHeld(lead, hs, [], capacity);
    assert held[..1 + |hs|] == held;
    SendableIsFramed(LeadFrame(lead, hs));
    FrameStandsFor(held, LeadFrame(lead, hs));
  }

  /** A round that goes on stands for exactly what was fetched in it. */
  lemma RoundStandsFor(answers: seq<Answer>, max: nat, start: nat, capacity: nat)
    requires AnswersFit(answers, capacity) && Sizes(capacity, max) && start < |answers|
    requires OneRound(answers, max, start).goesOn
    ensures var r := OneRound(answers, max, start); StandsFor(FetchedIn(answers, start, r.next), r.frames)
  {
    hide FetchedIn, StandsFor, LeadOf, EndOfBatch, Hello;
    FetchedOne(answers, start);
    assert FetchableAnswer(answers[start], capacity);
    match answers[start]
    case Failed(code, left) =>
      HelloStandsFor(left);
    case Got(c) =>
      if CarriesData(c.header) {
        CommandStandsFor(answers[start], capacity);
      } else {
        BatchRoundStandsFor(answers, max, start, capacity);
      }
  }

  /** A round that begins with a command that can be batched. */
  lemma BatchGoesOn(answers: seq<Answer>, max: nat, start: nat, capacity: nat)
    requires Sizes(capacity, max) && start < |answers| && IsBatchable(answers[start])
    requires OneRound(answers, max, start).goesOn
    ensures var r, end := OneRound(answers, max, start), EndOfBatch(answers, max, start);
      && (end - start - 1) * HEADER_SIZE <= capacity <= MAX_LEN
      && if r.next == end then r.frames == [LeadOf(answers, start, end)]
         else
           && end < |answers| && r.next == end + 1
           && r.frames == [LeadOf(answers, start, end)] + CommandsOf(answers[end])
  {
    hide EndOfBatch, LeadOf;
  }

  lemma BatchRoundStandsFor(answers: seq<Answer>, max: nat, start: nat, capacity: nat)
    requires AnswersFit(answers, capacity) && Sizes(capacity, max) && start < |answers|
    requires IsBatchable(answers[start]) && OneRound(answers, max, start).goesOn
    ensures var r := OneRound(answers, max, start); StandsFor(FetchedIn(answers, start, r.next), r.frames)
  {
    hide FetchedIn, StandsFor, OneRound, EndOfBatch, LeadOf, AllBatchable, AnswersFit, CommandsOf;
    BatchGoesOn(answers, max, start, capacity);
    BatchIsBatchable(answers, max, start);
    var end := EndOfBatch(answers, max, start);
    BatchStandsFor(answers, start, end, capacity);
    if OneRound(answers, max, start).next > end {
      OneMoreStandsFor(answers, start, end, LeadOf(answers, start, end), capacity);
    }
  }

  lemma OneMoreStandsFor(answers: seq<Answer>, start: nat, end: nat, lead: Command, capacity: nat)
    requires AnswersFit(answers, capacity) && start <= end < |answers|
    requires StandsFor(FetchedIn(answers, start, end), [lead])
    ensures StandsFor(FetchedIn(answers, start, end + 1), [lead] + CommandsOf(answers[end]))
  {
    assert FetchableAnswer(answers[end], capacity);
    hide FetchedIn, StandsFor, FetchableAnswer, AnswersFit;
    FetchedSplit(answers, start, end, end + 1);
    FetchedOne(answers, end);
    if answers[end].Got? {
      CommandStandsFor(answers[end], capacity);
    } else {
      NothingStandsFor();
    }
    StandsForAppend(FetchedIn(answers, start, end), [lead], CommandsOf(answers[end]), CommandsOf(answers[end]));
  }

  lemma BatchStandsFor(answers: seq<Answer>, start: nat, end: nat, capacity: nat)
    requires AnswersFit(answers, capacity) && start < end <= |answers| && IsBatchable(answers[start])
    requires AllBatchable(answers, start + 1, end) && (end - start - 1) * HEADER_SIZE <= capacity <= MAX_LEN
    ensures StandsFor(FetchedIn(answers, start, end), [LeadOf(answers, start, end)])
  {
    hide FetchedIn, StandsFor, LeadFrame, AllAlone, AllFetchable, AllBatchable;
    FetchedLead(answers, start, end, capacity);
    FetchedInFetchable(answers, start, end, capacity);
    hide AnswersFit;
    LeadStandsFor(answers[start].command, HeadersIn(answers, start + 1, end), capacity);
  }

  lemma FetchedInFetchable(answers: seq<Answer>, i: nat, j: nat, capacity: nat)
    requires AnswersFit(answers, capacity) && i <= j <= |answers|
    ensures AllFetchable(FetchedIn(answers, i, j), capacity)
  {
    PartFits(answers, i, j, capacity);
    FetchedAreFetchable(answers[i..j], capacity);
  }

  lemma PartFits(answers: seq<Answer>, i: nat, j: nat, capacity: nat)
    requires AnswersFit(answers, capacity) && i <= j <= |answers|
    ensures AnswersFit(answers[i..j], capacity)
  {
    hide FetchableAnswer;
  }

  // ---- The whole run ----

  /** The frames stand for everything that was fetched, up to the round that the
      function returns from. */
  lemma {:induction false} SentIsFifo(answers: seq<Answer>, max: nat, start: nat, capacity: nat)
    requires AnswersFit(answers, capacity) && Sizes(capacity, max) && start <= |answers|
    ensures StandsFor(FetchedIn(answers, start, LastRound(answers, max, start)), Sent(answers, max, start))
    decreases |answers| - start
  {
    hide OneRound, StandsFor, FetchedIn, AnswersFit;
    var last := LastRound(answers, max, start);
    if start == |answers| || !OneRound(answers, max, start).goesOn {
      FetchedNone(answers, start);
      NothingStandsFor();
      if start < |answers| {
        StopSendsNothing(answers, max, start);
        assert Sent(answers, max, start) == [] + [];
      }
    } else {
      var r := OneRound(answers, max, start);
      SentIsFifo(answers, max, r.next, capacity);
      RoundStandsFor(answers, max, start, capacity);
      FetchedSplit(answers, start, r.next, last);
      StandsForAppend(FetchedIn(answers, start, r.next), r.frames,
                      FetchedIn(answers, r.next, last), Sent(answers, max, r.next));
    }
  }

  lemma StopSendsNothing(answers: seq<Answer>, max: nat, start: nat)
    requires max * HEADER_SIZE <= MAX_LEN && start < |answers| && !OneRound(answers, max, start).goesOn
    ensures OneRound(answers, max, start).frames == []
    ensures answers[start].Got? ==> IsBatchable(answers[start])
    ensures answers[start].Failed? ==> OneRound(answers, max, start).next == start + 1
  {
    hide EndOfBatch, LeadOf;
  }

  /** The calls that are answered in the last round. */
  lemma {:induction false} EndIs(answers: seq<Answer>, max: nat, start: nat)
    requires max * HEADER_SIZE <= MAX_LEN && start <= |answers|
    ensures var last := LastRound(answers, max, start);
      if last == |answers| then End(answers, max, start) == last
      else End(answers, max, start) == OneRound(answers, max, last).next && !OneRound(answers, max, last).goesOn
    decreases |answers| - start
  {
    hide OneRound;
    if start < |answers| && OneRound(answers, max, start).goesOn {
      EndIs(answers, max, OneRound(answers, max, start).next);
    }
  }

  /** A round that ends in the inner loop loses the command that it has begun with
      and all that could be batched behind it, until EDVSNOTCONN. */
  predicate Loses(answers: seq<Answer>, max: nat, last: nat, lost: seq<Command>) {
    && last < |answers| && IsBatchable(answers[last])
    && var end := EndOfBatch(answers, max, last);
       && lost == [answers[last].command] + AllAlone(HeadersIn(answers, last + 1, end))
       && (end < |answers| ==> answers[end].Failed? && answers[end].code == NotConn)
  }

  /** What the sender still holds when it returns from the round that begins at the
      given call: nothing, if that call was refused. */
  predicate LeftBehind(answers: seq<Answer>, max: nat, last: nat, held: seq<Command>)
    requires last <= |answers|
  {
    if ReturnsIdle(answers, last) then held == [] else Loses(answers, max, last, held)
  }

  /** The function returns from the call that begins the round. */
  predicate ReturnsIdle(answers: seq<Answer>, last: nat)
    requires last <= |answers|
  {
    last == |answers| || answers[last].Failed?
  }

  lemma LosesBy(answers: seq<Answer>, max: nat, last: nat)
    requires max * HEADER_SIZE <= MAX_LEN
    requires last < |answers| && IsBatchable(answers[last]) && !OneRound(answers, max, last).goesOn
    ensures var end := EndOfBatch(answers, max, last);
      && Loses(answers, max, last, [answers[last].command] + AllAlone(HeadersIn(answers, last + 1, end)))
      && OneRound(answers, max, last).next == (if end < |answers| then end + 1 else end)
      && (end < |answers| ==> CommandsOf(answers[end]) == [])
  {
    hide EndOfBatch, LeadOf, HeadersIn, AllAlone;
  }

  lemma LostBatch(answers: seq<Answer>, max: nat, last: nat, capacity: nat)
    requires AnswersFit(answers, capacity) && max * HEADER_SIZE <= MAX_LEN
    requires last < |answers| && IsBatchable(answers[last]) && !OneRound(answers, max, last).goesOn
    ensures Loses(answers, max, last, FetchedIn(answers, last, OneRound(answers, max, last).next))
  {
    var end := EndOfBatch(answers, max, last);
    hide FetchedIn, OneRound, EndOfBatch, HeadersIn, AllAlone, AllBatchable, AnswersFit, IsBatchable, CommandsOf, Loses;
    LosesBy(answers, max, last);
    BatchIsBatchable(answers, max, last);
    FetchedLead(answers, last, end, capacity);
    if end < |answers| {
      NothingFetched(answers, last, end);
    }
  }

  lemma NothingFetched(answers: seq<Answer>, i: nat, j: nat)
    requires i <= j < |answers| && CommandsOf(answers[j]) == []
    ensures FetchedIn(answers, i, j + 1) == FetchedIn(answers, i, j)
  {
    hide FetchedIn, CommandsOf;
    FetchedSplit(answers, i, j, j + 1);
    FetchedOne(answers, j);
    NothingAdded(FetchedIn(answers, i, j));
  }

  /** What is fetched in the last round is left behind; and that is nothing exactly
      if the function returns from the call that begins the round. */
  lemma LastRoundIsLost(answers: seq<Answer>, max: nat, start: nat, capacity: nat)
    requires AnswersFit(answers, capacity) && Sizes(capacity, max) && start <= |answers|
    ensures var last := LastRound(answers, max, start); var lost := FetchedIn(answers, last, End(answers, max, start));
      LeftBehind(answers, max, last, lost) && (ReturnsIdle(answers, last) <==> lost == [])
  {
    var last := LastRound(answers, max, start);
    EndIs(answers, max, start);
    hide LastRound, End, FetchedIn, OneRound, AnswersFit, IsBatchable, EndOfBatch, HeadersIn, AllAlone;
    if last == |answers| {
      FetchedNone(answers, last);
    } else {
      StopSendsNothing(answers, max, last);
      if answers[last].Failed? {
        FetchedOne(answers, last);
      } else {
        LostBatch(answers, max, last, capacity);
      }
    }
  }

  // ---- What the buffers then hold ----

  lemma SameHeld(a: seq<Command>, b: seq<Command>, d: seq<Command>, held: seq<Command>, capacity: nat)
    requires SameAll(a + b, d + held) && SameAll(a, d) && AllFetchable(held, capacity)
    ensures b == held
  {
    forall i | 0 <= i < |b|
      ensures b[i] == held[i]
    {
      assert Same((a + b)[|a| + i], (d + held)[|a| + i]);
      assert Fetchable(held[i]);
    }
  }

  lemma NothingMore(a: seq<Command>, b: seq<Command>, d: seq<Command>)
    requires SameAll(a, d)
    ensures SameAll(a + b, d) <==> b == []
  {
    NothingAdded(a);
    hide Same;
  }

  /** A sender that has sent the frames of all its rounds still holds what was
      fetched in the last one; and all that was fetched has been sent exactly if
      that is nothing. */
  lemma HeldAtTheEnd(answers: seq<Answer>, max: nat, capacity: nat, held: seq<Command>, bytes: seq<byte>)
    requires AnswersFit(answers, capacity) && Sizes(capacity, max)
    requires Conserved(capacity, Fetched(answers[..End(answers, max, 0)]), Sent(answers, max, 0), held, bytes)
    ensures var last, end := LastRound(answers, max, 0), End(answers, max, 0);
      && held == FetchedIn(answers, last, end)
      && StandsFor(Fetched(answers[..last]), Sent(answers, max, 0))
      && (SameAll(Fetched(answers[..end]), DeliverAll(Sent(answers, max, 0))) <==> ReturnsIdle(answers, last))
  {
    var last, end, frames := LastRound(answers, max, 0), End(answers, max, 0), Sent(answers, max, 0);
    SentIsFifo(answers, max, 0, capacity);
    LastRoundIsLost(answers, max, 0, capacity);
    ConservedParts(capacity, Fetched(answers[..end]), frames, held, bytes);
    hide LastRound, End, Sent, ReturnsIdle, Conserved, FetchedIn, AnswersFit, Sizes, DeliverAll, SameAll;
    hide AllFetchable, Loses, Fetched;
    FetchedSplit(answers, 0, last, end);
    FetchedFirst(answers, last);
    FetchedFirst(answers, end);
    var lost := FetchedIn(answers, last, end);
    SameHeld(Fetched(answers[..last]), lost, DeliverAll(frames), held, capacity);
    NothingMore(Fetched(answers[..last]), lost, DeliverAll(frames));
  }
}
