/** Whole runs of the proxies of lz4tcp_proxy_bat.c, with batching on and
    compression off: what the tables of both sides then say. */
module CountedRuns {
  import opened Words
  import opened Commands
  import opened Frames
  import opened Batching
  import opened Conservation
  import opened Rounds
  import opened RoundCases
  import opened Statistics
  import opened BatchSender
  import opened EndToEnd

  // ---- The frames of a run can be counted ----

  lemma LeadIsCountable(c: Command, hs: seq<Header>, nodes: nat, dcs: nat)
    requires |hs| * HEADER_SIZE <= MAX_LEN && Fetchable(c) && HasCell(c.header, nodes, dcs)
    requires hs != [] ==> !CarriesData(c.header)
    ensures var f := LeadFrame(c, hs); Countable(f, nodes, dcs) && CleanHello(f)
  {
    hide EncodeAll;
  }

  lemma AnswerIsCountable(answers: seq<Answer>, i: nat, capacity: nat, nodes: nat, dcs: nat)
    requires AnswersFit(answers, capacity) && CountableAnswers(answers, nodes, dcs) && i < |answers|
    ensures FetchableAnswer(answers[i], capacity) && CountableAnswer(answers[i], nodes, dcs)
    ensures answers[i].Got? ==> AllCountable([answers[i].command], nodes, dcs)
  {
    assert FetchableAnswer(answers[i], capacity) && CountableAnswer(answers[i], nodes, dcs);
  }

  lemma AllCountableAppend(fs: seq<Command>, gs: seq<Command>, nodes: nat, dcs: nat)
    requires AllCountable(fs, nodes, dcs) && AllCountable(gs, nodes, dcs)
    ensures AllCountable(fs + gs, nodes, dcs)
  {
    hide Countable, CleanHello;
  }

  lemma RoundIsCountable(answers: seq<Answer>, max: nat, start: nat, capacity: nat, nodes: nat, dcs: nat)
    requires AnswersFit(answers, capacity) && CountableAnswers(answers, nodes, dcs)
    requires max * HEADER_SIZE <= MAX_LEN && start < |answers|
    ensures AllCountable(OneRound(answers, max, start).frames, nodes, dcs)
  {
    AnswerIsCountable(answers, start, capacity, nodes, dcs);
    hide EndOfBatch, LeadFrame, Headers, AnswersFit, CountableAnswers;
    if answers[start].Got? && !CarriesData(answers[start].command.header) {
      var end := EndOfBatch(answers, max, start);
      var lead := LeadOf(answers, start, end);
      LeadIsCountable(answers[start].command, Headers(answers[start + 1..end]), nodes, dcs);
      hide LeadOf, Countable, CleanHello, AllCountable, FetchableAnswer, CountableAnswer;
      OneIsCountable(lead, nodes, dcs);
      if end < |answers| && answers[end].Got? {
        AnswerIsCountable(answers, end, capacity, nodes, dcs);
        AllCountableAppend([lead], [answers[end].command], nodes, dcs);
        assert [lead] + [answers[end].command] == [lead, answers[end].command];
      }
      NoneIsCountable(nodes, dcs);
    }
  }

  lemma OneIsCountable(f: Command, nodes: nat, dcs: nat)
    requires Countable(f, nodes, dcs) && CleanHello(f)
    ensures AllCountable([f], nodes, dcs)
  {
  }

  lemma NoneIsCountable(nodes: nat, dcs: nat)
    ensures AllCountable([], nodes, dcs)
  {
  }

  lemma {:induction false} SentIsCountable(answers: seq<Answer>, max: nat, start: nat, capacity: nat,
                                           nodes: nat, dcs: nat)
    requires AnswersFit(answers, capacity) && CountableAnswers(answers, nodes, dcs)
    requires max * HEADER_SIZE <= MAX_LEN && start <= |answers|
    ensures AllCountable(Sent(answers, max, start), nodes, dcs)
    decreases |answers| - start
  {
    hide OneRound, AllCountable, AnswersFit, CountableAnswers;
    NoneIsCountable(nodes, dcs);
    if start < |answers| {
      var r := OneRound(answers, max, start);
      RoundIsCountable(answers, max, start, capacity, nodes, dcs);
      if r.goesOn {
        SentIsCountable(answers, max, r.next, capacity, nodes, dcs);
        AllCountableAppend(r.frames, Sent(answers, max, r.next), nodes, dcs);
      } else {
        NothingAdded(r.frames);
      }
    }
  }

  /** The receiver has a cell for everything it finds. */
  lemma ArrivedIsCountable(frames: seq<Command>, capacity: nat, errno: int, nodes: nat, dcs: nat)
    requires AllFramed(frames, capacity) && AllCountable(frames, nodes, dcs)
    ensures CellsExist(AllFrames(Wire(frames), errno), nodes, dcs)
    ensures CountedOf(AllFrames(Wire(frames), errno)) == CountedOf(frames)
  {
    var last := LastFrame(Wire(frames));
    WireFrames(frames, capacity);
    NothingLast(Wire(frames));
    hide Wire, FramesIn, LastFrame, CountedOf, Countable, AllFramed;
    NothingAdded(frames);
    if errno == 0 {
      CountedOfNext(frames, last);
      forall i | 0 <= i < |frames| + 1 && Counts((frames + [last])[i])
        ensures Countable((frames + [last])[i], nodes, dcs)
      {
        assert i < |frames| && (frames + [last])[i] == frames[i];
      }
    }
  }

  // ---- Both tables ----

  /** One cell of both tables. */
  ghost predicate Agree(sending: Table, receiving: Table, frames: seq<Command>, node: nat, dcid: nat)
    requires node < sending.cells.Length0 && dcid < sending.cells.Length1
    requires node < receiving.cells.Length0 && dcid < receiving.cells.Length1
    reads sending.cells, receiving.cells
  {
    var s, r := sending.cells[node, dcid], receiving.cells[node, dcid];
    s.nrMsg == r.nrMsg && s.nrData == r.nrData && s.nrCmd == r.nrCmd + HellosIn(frames, node, dcid)
  }

  lemma CellsAgree(sending: Table, receiving: Table, frames: seq<Command>, node: nat, dcid: nat)
    requires sending.Valid() && receiving.Valid() && node < sending.nodes && dcid < sending.dcs
    requires receiving.nodes == sending.nodes && receiving.dcs == sending.dcs
    requires sending.counted == frames && receiving.counted == CountedOf(frames)
    requires AllSendable(frames) && AllCountable(frames, sending.nodes, sending.dcs)
    ensures Agree(sending, receiving, frames, node, dcid)
  {
    hide CountedOf, MessagesIn, DataIn, CommandsIn, HellosIn, AllSendable, CleanHello, Countable;
    CountedTheSame(frames, node, dcid);
  }

  /** The sum over a table is what the commands count for that the frames stand for,
      and on the sending side the HELLOs. */
  lemma SumsAgree(k: Counter, sending: Table, receiving: Table, frames: seq<Command>)
    requires sending.Valid() && receiving.Valid()
    requires receiving.nodes == sending.nodes && receiving.dcs == sending.dcs
    requires sending.counted == frames && receiving.counted == CountedOf(frames)
    requires AllSendable(frames) && AllCountable(frames, sending.nodes, sending.dcs)
    ensures AllComplete(frames)
    ensures TableSum(k, sending, sending.nodes) == LogCount(k, DeliverAll(frames)) + HellosFor(k, frames)
    ensures TableSum(k, receiving, receiving.nodes) == LogCount(k, DeliverAll(frames))
  {
    TableSumIs(k, sending, sending.nodes);
    TableSumIs(k, receiving, receiving.nodes);
    hide CountedOf, MessagesIn, DataIn, CommandsIn, AllSendable, CleanHello, Countable, Total, TableSum;
    TotalIsDelivered(k, frames, sending.nodes, sending.dcs);
  }

  lemma TablesAre(sending: Table, receiving: Table, frames: seq<Command>)
    requires sending.Valid() && receiving.Valid()
    requires receiving.nodes == sending.nodes && receiving.dcs == sending.dcs
    requires sending.counted == frames && receiving.counted == CountedOf(frames)
    requires AllSendable(frames) && AllCountable(frames, sending.nodes, sending.dcs)
    ensures sending.cells.Length0 == receiving.cells.Length0 == sending.nodes
    ensures sending.cells.Length1 == receiving.cells.Length1 == sending.dcs
    ensures forall n, d | 0 <= n < sending.nodes && 0 <= d < sending.dcs :: Agree(sending, receiving, frames, n, d)
    ensures AllComplete(frames)
    ensures forall k ::
              && TableSum(k, receiving, receiving.nodes) == LogCount(k, DeliverAll(frames))
              && TableSum(k, sending, sending.nodes) == LogCount(k, DeliverAll(frames)) + HellosFor(k, frames)
  {
    hide CountedOf, MessagesIn, DataIn, CommandsIn, AllSendable, AllCountable, AllComplete, Agree, TableSum, DeliverAll;
    SumsAgree(NrCmd, sending, receiving, frames);
    forall k
      ensures TableSum(k, receiving, receiving.nodes) == LogCount(k, DeliverAll(frames))
      ensures TableSum(k, sending, sending.nodes) == LogCount(k, DeliverAll(frames)) + HellosFor(k, frames)
    {
      SumsAgree(k, sending, receiving, frames);
    }
    forall n, d | 0 <= n < sending.nodes && 0 <= d < sending.dcs
      ensures Agree(sending, receiving, frames, n, d)
    {
      CellsAgree(sending, receiving, frames, n, d);
    }
  }

  // ---- What was fetched ----

  /** A lead is no data command. */
  predicate NoDataLeads(ds: seq<Command>) {
    forall i | 0 <= i < |ds| && IsBatch(ds[i].header) :: ds[i].header.cmd != 5 && ds[i].header.cmd != 8198
  }

  /** Commands count for the same as delivered and as fetched. */
  lemma {:induction false} SameLogCount(k: Counter, cs: seq<Command>, ds: seq<Command>)
    requires SameAll(cs, ds) && NoDataLeads(ds)
    ensures LogCount(k, cs) == LogCount(k, ds)
  {
    if cs != [] {
      assert Same(cs[0], ds[0]);
      SameLogCount(k, cs[1..], ds[1..]);
    }
  }

  lemma LeadsHaveNoData(log: seq<Command>, lost: seq<Command>, capacity: nat)
    requires LeadsAreFollowed(log) && AllFetchable(lost, capacity)
    ensures NoDataLeads(log + lost)
  {
    var all := log + lost;
    forall i | 0 <= i < |all|
      ensures IsBatch(all[i].header) ==> all[i].header.cmd != 5 && all[i].header.cmd != 8198
    {
      if i < |log| {
        assert all[i] == log[i];
      } else {
        assert Fetchable(lost[i - |log|]);
      }
    }
  }

  lemma CountsSplit(fetched: seq<Command>, log: seq<Command>, lost: seq<Command>, capacity: nat)
    requires SameAll(fetched, log + lost) && LeadsAreFollowed(log) && AllFetchable(lost, capacity)
    ensures forall k :: LogCount(k, fetched) == LogCount(k, log) + LogCount(k, lost)
  {
    LeadsHaveNoData(log, lost, capacity);
    hide SameAll, LogCount, NoDataLeads, LeadsAreFollowed, AllFetchable;
    forall k
      ensures LogCount(k, fetched) == LogCount(k, log) + LogCount(k, lost)
    {
      SameLogCount(k, fetched, log + lost);
      LogCountAppend(k, log, lost);
    }
  }

  /** A run of both proxies that count what they send and what they process:
      every cell agrees on messages and data on both sides and differs in commands
      by the HELLOs only; each sum over either table is what the log counts for, and
      on the sending side the HELLOs; and the log counts for what was fetched, but for
      the commands that are lost in the last round. */
  method CountedTransfer(answers: seq<Answer>, capacity: nat, max: nat, errno: int, sending: Table, receiving: Table)
    returns (log: seq<Command>, next: nat, ghost lost: seq<Command>)
    requires Sizes(capacity, max) && AnswersFit(answers, capacity)
    requires CountableAnswers(answers, sending.nodes, sending.dcs)
    requires sending.Valid() && receiving.Valid() && sending.counted == receiving.counted == []
    requires sending.nodes == receiving.nodes && sending.dcs == receiving.dcs
    requires sending != receiving && sending.cells != receiving.cells
    modifies sending`counted, sending.cells, receiving`counted, receiving.cells
    ensures max * HEADER_SIZE <= MAX_LEN && next == End(answers, max, 0)
    ensures sending.cells.Length0 == receiving.cells.Length0 == sending.nodes
    ensures sending.cells.Length1 == receiving.cells.Length1 == sending.dcs
    ensures forall n, d | 0 <= n < sending.nodes && 0 <= d < sending.dcs ::
              Agree(sending, receiving, Sent(answers, max, 0), n, d)
    ensures SameAll(Fetched(answers[..LastRound(answers, max, 0)]), log)
    ensures forall k ::
              && TableSum(k, receiving, receiving.nodes) == LogCount(k, log)
              && TableSum(k, sending, sending.nodes) == LogCount(k, log) + HellosFor(k, Sent(answers, max, 0))
    ensures TableSum(NrCmd, receiving, receiving.nodes) == |log|
    ensures forall k :: LogCount(k, Fetched(answers[..next])) == LogCount(k, log) + LogCount(k, lost)
    ensures LeftBehind(answers, max, LastRound(answers, max, 0), lost)
  {
    hide *;
    var sender := Send(answers, capacity, max, true, sending);
    RunIs(sender, errno);
    HasSent(sender);
    lost := sender.Held();
    ghost var frames := sender.frames;
    SentIsCountable(answers, max, 0, capacity, sending.nodes, sending.dcs);
    ArrivedIsCountable(frames, capacity, errno, sending.nodes, sending.dcs);
    log := Receive(sender.socket.sent, capacity, errno, true, receiving);
    TablesAre(sending, receiving, frames);
    AllAreCommands(log);
    RunInNumerals(answers, max, capacity);
    HeldAreFetchable(sender);
    CountsSplit(Fetched(answers[..sender.next]), log, lost, capacity);
    next := sender.next;
  }

  lemma HeldAreFetchable(sender: Sender)
    requires sender.Valid()
    ensures sender.batchNr <= sender.batch.Length && AllFetchable(sender.Held(), sender.capacity)
  {
    SenderParts(sender);
    ConservedParts(sender.capacity, Fetched(sender.answers[..sender.next]), sender.frames, sender.Held(),
                   sender.socket.sent + sender.socket.queued);
    hide *;
  }

  lemma HasSent(sender: Sender)
    requires sender.Served(0, [], false)
    ensures sender.Valid()
    ensures AllFramed(sender.frames, sender.capacity) && sender.socket.sent == Wire(sender.frames)
    ensures sender.counting ==> sender.table.Valid() && sender.table.counted == sender.frames
  {
    ServedIs(sender);
    hide AllFramed, Sent, End, Wire;
    SenderParts(sender);
  }
}
