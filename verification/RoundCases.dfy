/** A round of the sender of tcp_proxy_bat.c once more, case by case and in
    numerals: which frame goes out for which answers, with which header. */
module RoundCases {
  import opened Words
  import opened Commands
  import opened Frames
  import opened Batching
  import opened Conservation
  import opened Rounds

  /** CMD_COPYIN_DATA or CMD_COPYOUT_DATA */
  predicate GetsData(a: Answer) {
    a.Got? && (a.command.header.cmd == 5 || a.command.header.cmd == 8198)
  }

  predicate GetsOther(a: Answer) {
    a.Got? && a.command.header.cmd != 5 && a.command.header.cmd != 8198
  }

  /** n answers behind the first are batched: as many as there are, but at most max. */
  predicate Batches(answers: seq<Answer>, max: nat, start: nat, n: nat) {
    && n <= max && start + n < |answers|
    && (forall i | start < i <= start + n :: GetsOther(answers[i]))
    && (n < max && start + n + 1 < |answers| ==> !GetsOther(answers[start + n + 1]))
  }

  /** The first command, alone or with FLAG_BATCH_BIT and the headers of the others
      as its payload. */
  predicate Leads(f: Command, answers: seq<Answer>, start: nat, n: nat)
    requires start + n < |answers| && answers[start].Got?
  {
    var c := answers[start].command;
    if n == 0 then f == c else
      && f.header == c.header.(flags := 1, batchNr := f.header.batchNr, len := f.header.len)
      && f.header.batchNr == n && f.header.len == 168 * n == |f.payload|
      && forall i | start < i <= start + n ::
           && GetsOther(answers[i])
           && f.payload[168 * (i - start - 1)..168 * (i - start)] == Encode(answers[i].command.header)
  }

  /** The connection to the kernel is lost right there. */
  predicate Refused(answers: seq<Answer>, i: nat) {
    i < |answers| ==> answers[i].Failed? && answers[i].code == NotConn
  }

  lemma EncodedAt(hs: seq<Header>, i: nat)
    requires i < |hs|
    ensures |EncodeAll(hs)| == 168 * |hs|
    ensures EncodeAll(hs)[168 * i..168 * i + 168] == Encode(hs[i])
  {
    DecodeEncodeAll(hs);
    DecodeAllAt(EncodeAll(hs), |hs|, i);
    EncodeDecode(EncodeAll(hs)[168 * i..168 * i + 168]);
    hide Encode, Decode, EncodeAll, DecodeAll;
  }

  lemma LeadOfLeads(answers: seq<Answer>, start: nat, n: nat)
    requires start + n < |answers| && answers[start].Got? && n * HEADER_SIZE <= MAX_LEN
    requires forall i | start < i <= start + n :: GetsOther(answers[i])
    ensures Leads(LeadOf(answers, start, start + n + 1), answers, start, n)
  {
    var hs := Headers(answers[start + 1..start + n + 1]);
    hide Encode, EncodeAll;
    forall i | start < i <= start + n
      ensures |EncodeAll(hs)| == 168 * n
      ensures EncodeAll(hs)[168 * (i - start - 1)..168 * (i - start)] == Encode(answers[i].command.header)
    {
      EncodedAt(hs, i - start - 1);
    }
  }

  lemma BatchedBy(answers: seq<Answer>, max: nat, start: nat)
    requires start < |answers|
    ensures Batches(answers, max, start, EndOfBatch(answers, max, start) - start - 1)
  {
    var rest := answers[start + 1..];
    var n := BatchCount(rest, max);
    forall i | start < i <= start + n
      ensures GetsOther(answers[i])
    {
      assert IsBatchable(rest[i - start - 1]);
    }
  }

  /** What a round does that begins with a command that can be batched; the inner
      loop stops when the batch is full, the kernel fails, or a data command comes. */
  predicate BatchRound(r: Round, answers: seq<Answer>, max: nat, start: nat, n: nat)
    requires start < |answers| && answers[start].Got? && Batches(answers, max, start, n)
  {
    var end := start + n + 1;
    if n < max && Refused(answers, end) then
      r.frames == [] && !r.goesOn && r.next == (if end < |answers| then end + 1 else end)
    else
      && r.goesOn && |r.frames| > 0 && Leads(r.frames[0], answers, start, n)
      && if n == max then |r.frames| == 1 && r.next == end
         else
           && r.next == end + 1
           && r.frames[1..] == if GetsData(answers[end]) then [answers[end].command] else []
  }

  lemma BatchedEnds(answers: seq<Answer>, max: nat, start: nat, n: nat)
    requires Batches(answers, max, start, n)
    ensures n <= max && start + n < |answers|
    ensures n < max && start + n + 1 < |answers| ==> !GetsOther(answers[start + n + 1])
  {
  }

  lemma BatchRoundIs(answers: seq<Answer>, max: nat, start: nat)
    requires max * 168 <= 0x7fff_ffff && start < |answers| && GetsOther(answers[start])
    ensures var n := EndOfBatch(answers, max, start) - start - 1;
      Batches(answers, max, start, n) && BatchRound(OneRound(answers, max, start), answers, max, start, n)
  {
    var n := EndOfBatch(answers, max, start) - start - 1;
    BatchedBy(answers, max, start);
    BatchedAreOthers(answers, max, start, n);
    BatchedEnds(answers, max, start, n);
    hide EndOfBatch, LeadOf, Leads, Batches;
    LeadOfLeads(answers, start, n);
  }

  lemma BatchedAreOthers(answers: seq<Answer>, max: nat, start: nat, n: nat)
    requires Batches(answers, max, start, n)
    ensures forall i | start < i <= start + n :: GetsOther(answers[i])
  {
  }

  /** What one round does, for every case of its first answer. */
  lemma RoundIs(answers: seq<Answer>, max: nat, start: nat)
    requires max * 168 <= 0x7fff_ffff && start < |answers|
    ensures var r, a := OneRound(answers, max, start), answers[start];
      if a.Failed? then
        && r.next == start + 1 && (r.goesOn <==> a.code == TimedOut)
        && r.frames == if a.code == TimedOut then [Command(a.left.(cmd := 0, len := 0, rcode := 0), [])] else []
      else if GetsData(a) then
        r == Round([a.command], start + 1, true)
      else
        exists n: nat | Batches(answers, max, start, n) :: BatchRound(r, answers, max, start, n)
  {
    hide EndOfBatch, LeadOf, BatchRound, Batches;
    if GetsOther(answers[start]) {
      BatchRoundIs(answers, max, start);
    }
  }

  // ---- Whole runs ----

  /** The run ends where the kernel has no more answers; or with a failure other than
      a timeout as a round begins; or inside a batch, with EDVSNOTCONN. */
  predicate EndsAt(answers: seq<Answer>, max: nat, last: nat, end: nat) {
    if last >= |answers| then end == last
    else if answers[last].Failed? then answers[last].code != TimedOut && end == last + 1
    else
      && GetsOther(answers[last])
      && exists n: nat | n < max && Batches(answers, max, last, n) ::
           Refused(answers, last + n + 1) && end == if last + n + 1 < |answers| then last + n + 2 else last + n + 1
  }

  lemma LastRoundEnds(answers: seq<Answer>, max: nat, last: nat)
    requires max * 168 <= 0x7fff_ffff && last < |answers| && !OneRound(answers, max, last).goesOn
    ensures EndsAt(answers, max, last, OneRound(answers, max, last).next)
  {
    RoundIs(answers, max, last);
    hide OneRound, Batches, Refused, Leads;
  }

  predicate Connected(answers: seq<Answer>, start: nat, end: nat) {
    forall i | start <= i < end && i < |answers| :: answers[i].Failed? ==> answers[i].code != NotConn
  }

  lemma RoundIsConnected(answers: seq<Answer>, max: nat, start: nat)
    requires max * 168 <= 0x7fff_ffff && start < |answers| && OneRound(answers, max, start).goesOn
    ensures Connected(answers, start, OneRound(answers, max, start).next)
  {
    RoundIs(answers, max, start);
    hide OneRound, Leads;
  }

  /** The run ends there, and only there is the connection to the kernel lost. */
  lemma {:induction false} RunEndsAt(answers: seq<Answer>, max: nat, start: nat)
    requires max * 168 <= 0x7fff_ffff && start <= |answers|
    ensures EndsAt(answers, max, LastRound(answers, max, start), End(answers, max, start))
    ensures Connected(answers, start, LastRound(answers, max, start))
    decreases |answers| - start
  {
    hide OneRound, EndsAt;
    if start == |answers| {
      assert EndsAt(answers, max, start, start) by { NoMoreAnswers(answers, max); }
    } else if OneRound(answers, max, start).goesOn {
      RoundIsConnected(answers, max, start);
      RunEndsAt(answers, max, OneRound(answers, max, start).next);
    } else {
      LastRoundEnds(answers, max, start);
    }
  }

  lemma NoMoreAnswers(answers: seq<Answer>, max: nat)
    ensures EndsAt(answers, max, |answers|, |answers|)
  {
  }

  // ---- The batches in the log ----

  /** A command with FLAG_BATCH_BIT has no other flag, and as many headers as it says. */
  predicate PlainFlags(f: Command) {
    f.header.cmd != 0 && f.header.flags % 2 == 1 ==>
      f.header.flags == 1 && f.header.batchNr > 0 && f.header.len == 168 * f.header.batchNr == |f.payload|
  }

  predicate AllPlainFlags(fs: seq<Command>) {
    forall i | 0 <= i < |fs| :: PlainFlags(fs[i])
  }

  lemma NothingIsPlain()
    ensures AllPlainFlags([])
  {
  }

  lemma PlainAppend(fs: seq<Command>, gs: seq<Command>)
    requires AllPlainFlags(fs) && AllPlainFlags(gs)
    ensures AllPlainFlags(fs + gs)
  {
    hide PlainFlags;
  }

  lemma FetchableIsPlain(a: Answer, capacity: nat)
    requires FetchableAnswer(a, capacity) && a.Got?
    ensures PlainFlags(a.command)
  {
  }

  lemma BatchRoundIsPlain(r: Round, answers: seq<Answer>, max: nat, start: nat, n: nat, capacity: nat)
    requires AnswersFit(answers, capacity) && start < |answers| && answers[start].Got?
    requires Batches(answers, max, start, n) && BatchRound(r, answers, max, start, n)
    ensures AllPlainFlags(r.frames)
  {
    var end := start + n + 1;
    if r.frames != [] {
      assert FetchableAnswer(answers[start], capacity);
      FetchableIsPlain(answers[start], capacity);
      assert PlainFlags(r.frames[0]);
      if r.next > end && answers[end].Got? {
        assert FetchableAnswer(answers[end], capacity);
        FetchableIsPlain(answers[end], capacity);
      }
      hide PlainFlags;
    }
  }

  lemma RoundIsPlain(answers: seq<Answer>, max: nat, start: nat, capacity: nat)
    requires AnswersFit(answers, capacity) && max * 168 <= 0x7fff_ffff && start < |answers|
    ensures AllPlainFlags(OneRound(answers, max, start).frames)
  {
    var r := OneRound(answers, max, start);
    RoundIs(answers, max, start);
    hide OneRound;
    assert FetchableAnswer(answers[start], capacity);
    if GetsOther(answers[start]) {
      hide Batches, BatchRound;
      var n: nat :| Batches(answers, max, start, n) && BatchRound(r, answers, max, start, n);
      BatchRoundIsPlain(r, answers, max, start, n, capacity);
    }
  }

  lemma {:induction false} SentIsPlain(answers: seq<Answer>, max: nat, start: nat, capacity: nat)
    requires AnswersFit(answers, capacity) && max * 168 <= 0x7fff_ffff && start <= |answers|
    ensures AllPlainFlags(Sent(answers, max, start))
    decreases |answers| - start
  {
    hide OneRound, AllPlainFlags, AnswersFit;
    NothingIsPlain();
    if start < |answers| {
      var r := OneRound(answers, max, start);
      RoundIsPlain(answers, max, start, capacity);
      if r.goesOn {
        SentIsPlain(answers, max, r.next, capacity);
        PlainAppend(r.frames, Sent(answers, max, r.next));
      } else {
        NothingAdded(r.frames);
      }
    }
  }

  /** Every lead in a log has its batch right behind it. */
  predicate LeadsAreFollowed(log: seq<Command>) {
    forall i | 0 <= i < |log| && log[i].header.flags % 2 == 1 ::
      && log[i].header.flags == 1 && 0 < log[i].header.batchNr && i + log[i].header.batchNr < |log|
      && log[i].header.len == 168 * log[i].header.batchNr && log[i].header.cmd != 5 && log[i].header.cmd != 8198
      && forall j | i < j <= i + log[i].header.batchNr :: log[j].header.flags % 2 == 0 && log[j].payload == []
  }

  lemma FollowedAppend(a: seq<Command>, b: seq<Command>)
    requires LeadsAreFollowed(a) && LeadsAreFollowed(b)
    ensures LeadsAreFollowed(a + b)
  {
    var log := a + b;
    forall i | 0 <= i < |log| && log[i].header.flags % 2 == 1
      ensures
        && log[i].header.flags == 1 && 0 < log[i].header.batchNr && i + log[i].header.batchNr < |log|
        && log[i].header.len == 168 * log[i].header.batchNr && log[i].header.cmd != 5 && log[i].header.cmd != 8198
        && forall j | i < j <= i + log[i].header.batchNr :: log[j].header.flags % 2 == 0 && log[j].payload == []
    {
      if i < |a| {
        assert log[i] == a[i];
      } else {
        assert log[i] == b[i - |a|];
      }
    }
  }

  lemma DeliveredIsFollowed(f: Command)
    requires Sendable(f) && PlainFlags(f) && Complete(f)
    ensures LeadsAreFollowed(Deliver(f))
  {
    hide DecodeAll, EncodeAll;
    if IsBatchFrame(f) {
      var hs := DecodeAll(f.payload, f.header.batchNr);
      PutAllAlone(hs, f.payload);
      assert Deliver(f) == [f] + AllAlone(hs);
      forall j | 0 < j <= |hs|
        ensures Deliver(f)[j].header.flags % 2 == 0 && Deliver(f)[j].payload == []
      {
        assert Fetchable(AllAlone(hs)[j - 1]);
      }
    }
  }

  lemma {:induction false} LogIsFollowed(fs: seq<Command>)
    requires AllSendable(fs) && AllPlainFlags(fs) && AllComplete(fs)
    ensures LeadsAreFollowed(DeliverAll(fs))
  {
    if fs != [] {
      assert Sendable(fs[0]) && PlainFlags(fs[0]) && Complete(fs[0]);
      hide Sendable, PlainFlags, Complete, Deliver, LeadsAreFollowed;
      DeliveredIsFollowed(fs[0]);
      LogIsFollowed(fs[1..]);
      FollowedAppend(Deliver(fs[0]), DeliverAll(fs[1..]));
    } else {
      assert LeadsAreFollowed([]);
    }
  }

  /** A fetched command arrives as it is; or, as the lead of a batch, with the three
      fields that describe the batch. */
  predicate ArrivesAs(fetched: Command, delivered: Command) {
    var d := delivered.header;
    if d.flags % 2 == 0 then delivered == fetched
    else fetched.payload == [] && d == fetched.header.(flags := 1, batchNr := d.batchNr, len := d.len)
  }

  lemma SameArrives(fetched: seq<Command>, log: seq<Command>)
    requires SameAll(fetched, log) && LeadsAreFollowed(log)
    ensures |fetched| == |log| && forall i | 0 <= i < |log| :: ArrivesAs(fetched[i], log[i])
  {
    forall i | 0 <= i < |log|
      ensures ArrivesAs(fetched[i], log[i])
    {
      assert Same(fetched[i], log[i]);
    }
  }

  /** What a frame stands for: nothing without a command; the headers in its payload
      behind its own, if it has FLAG_BATCH_BIT and the length is right; else itself. */
  lemma DeliverIs(f: Command)
    requires Complete(f)
    ensures var h, ds := f.header, Deliver(f);
      if h.cmd == 0 then ds == []
      else if h.flags % 2 == 1 && h.len == 168 * h.batchNr then
        && |ds| == 1 + h.batchNr && ds[0] == f
        && forall i | 0 < i < |ds| ::
             var d := Decode(f.payload[168 * (i - 1)..168 * i]);
             && ds[i].header == d
             && ds[i].payload == if 0 <= d.len <= |f.payload| then f.payload[..d.len] else []
      else ds == [f]
  {
    var h, ds := f.header, Deliver(f);
    hide Decode, DecodeAll;
    if h.cmd != 0 && IsBatch(h) && BatchFits(h) {
      forall i | 0 < i < |ds|
        ensures
          var d := Decode(f.payload[168 * (i - 1)..168 * i]);
          && ds[i].header == d
          && ds[i].payload == if 0 <= d.len <= |f.payload| then f.payload[..d.len] else []
      {
        DecodeAllAt(f.payload, h.batchNr, i - 1);
        assert ds[i] == PutAll(DecodeAll(f.payload, h.batchNr), f.payload)[i - 1];
      }
    }
  }
}
