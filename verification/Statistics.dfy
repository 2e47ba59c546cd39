/** The table of update_stats() in lz4tcp_proxy_bat.c, one for each proxy, with
    batching on and compression off. */
module Statistics {
  import opened Words
  import opened Commands
  import opened Frames
  import opened Batching
  import opened Conservation

  // ---- What a frame counts for ----

  /** How many of the headers are of SEND, SNDREC or REPLY commands. */
  function MessageHeaders(hs: seq<Header>): nat {
    if hs == [] then 0
    else MessageHeaders(hs[..|hs| - 1]) + if CarriesMessage(hs[|hs| - 1]) then 1 else 0
  }

  /** The headers behind the frame's own. */
  function Batched(f: Command): seq<Header> {
    var n := f.header.batchNr;
    if !CarriesData(f.header) && n > 0 && n * HEADER_SIZE <= |f.payload|
    then DecodeAll(f.payload[..n * HEADER_SIZE], n) else []
  }

  function Messages(f: Command): nat {
    (if CarriesMessage(f.header) then 1 else 0) + MessageHeaders(Batched(f))
  }

  function DataBytes(f: Command): int {
    if CarriesData(f.header) then f.header.len else 0
  }

  function Counted(f: Command): int {
    1 + if CarriesData(f.header) then 0 else f.header.batchNr
  }

  predicate InCell(f: Command, node: int, dcid: int) {
    f.header.dnode == node && f.header.dcid == dcid
  }

  /** What the frames count for in one cell. */
  function MessagesIn(fs: seq<Command>, node: int, dcid: int): nat {
    if fs == [] then 0
    else
      var f := fs[|fs| - 1];
      MessagesIn(fs[..|fs| - 1], node, dcid) + if InCell(f, node, dcid) then Messages(f) else 0
  }

  function DataIn(fs: seq<Command>, node: int, dcid: int): int {
    if fs == [] then 0
    else
      var f := fs[|fs| - 1];
      DataIn(fs[..|fs| - 1], node, dcid) + if InCell(f, node, dcid) then DataBytes(f) else 0
  }

  function CommandsIn(fs: seq<Command>, node: int, dcid: int): int {
    if fs == [] then 0
    else
      var f := fs[|fs| - 1];
      CommandsIn(fs[..|fs| - 1], node, dcid) + if InCell(f, node, dcid) then Counted(f) else 0
  }

  // ---- What a command counts for ----

  /** pst_nr_msg, pst_nr_data, pst_nr_cmd */
  datatype Counter = NrMsg | NrData | NrCmd

  /** A command by itself: one message if it is a SEND, SNDREC or REPLY, and its
      data if it copies in or out. */
  function Weight(k: Counter, c: Command): int {
    match k
    case NrMsg => if c.header.cmd == 1 || c.header.cmd == 3 || c.header.cmd == 4 then 1 else 0
    case NrData => if c.header.cmd == 5 || c.header.cmd == 8198 then |c.payload| else 0
    case NrCmd => 1
  }

  function LogCount(k: Counter, cs: seq<Command>): int {
    if cs == [] then 0 else Weight(k, cs[0]) + LogCount(k, cs[1..])
  }

  lemma {:induction false} LogCountAppend(k: Counter, cs: seq<Command>, ds: seq<Command>)
    ensures LogCount(k, cs + ds) == LogCount(k, cs) + LogCount(k, ds)
  {
    hide Weight;
    if cs == [] {
      assert cs + ds == ds;
    } else {
      assert (cs + ds)[1..] == cs[1..] + ds;
      LogCountAppend(k, cs[1..], ds);
    }
  }

  lemma {:induction false} AllAreCommands(cs: seq<Command>)
    ensures LogCount(NrCmd, cs) == |cs|
  {
    if cs != [] {
      AllAreCommands(cs[1..]);
    }
  }

  lemma {:induction false} MessageHeadersAre(hs: seq<Header>, buffer: seq<byte>)
    ensures MessageHeaders(hs) == LogCount(NrMsg, PutAll(hs, buffer))
  {
    if hs != [] {
      var before, h := hs[..|hs| - 1], hs[|hs| - 1];
      MessageHeadersAre(before, buffer);
      assert PutAll(hs, buffer) == PutAll(before, buffer) + [Put(h, buffer)];
      LogCountAppend(NrMsg, PutAll(before, buffer), [Put(h, buffer)]);
    }
  }

  /** What a frame adds to its cell, in numerals. */
  lemma FrameAdds(f: Command)
    ensures Messages(f) == LogCount(NrMsg, [f] + PutAll(Batched(f), f.payload))
    ensures DataBytes(f) == if f.header.cmd == 5 || f.header.cmd == 8198 then f.header.len else 0
    ensures Counted(f) == if f.header.cmd == 5 || f.header.cmd == 8198 then 1 else 1 + f.header.batchNr
  {
    hide Batched;
    MessageHeadersAre(Batched(f), f.payload);
    LogCountAppend(NrMsg, [f], PutAll(Batched(f), f.payload));
    assert LogCount(NrMsg, [f]) == Weight(NrMsg, f);
  }

  // ---- The table ----

  datatype Cell = Cell(snode: int, dnode: int, dcid: int, nrMsg: nat, nrData: int, nrCmd: int)

  /** A frame whose cell exists, and whose batch, if it has one, is in the buffer. */
  predicate Countable(f: Command, nodes: nat, dcs: nat) {
    && HasCell(f.header, nodes, dcs)
    && (!CarriesData(f.header) ==> 0 <= f.header.batchNr && f.header.batchNr * HEADER_SIZE <= |f.payload|)
  }

  /** The kernel's nodes and data centers are those of the table. */
  predicate HasCell(h: Header, nodes: nat, dcs: nat) {
    0 <= h.dnode < nodes && 0 <= h.dcid < dcs
  }

  /** What the kernel promises of the headers that are counted: a HELLO is made of
      one that has no batch. */
  predicate CountableAnswer(a: Answer, nodes: nat, dcs: nat) {
    match a
    case Got(c) => HasCell(c.header, nodes, dcs)
    case Failed(code, left) => code.TimedOut? ==> HasCell(left, nodes, dcs) && left.batchNr == 0
  }

  predicate CountableAnswers(answers: seq<Answer>, nodes: nat, dcs: nat) {
    forall i | 0 <= i < |answers| :: CountableAnswer(answers[i], nodes, dcs)
  }

  class Table {
    const nodes: nat
    const dcs: nat
    const localNode: int
    const cells: array2<Cell>

    /** The frames that have been counted. */
    ghost var counted: seq<Command>

    ghost predicate Valid()
      reads this, cells
    {
      && cells.Length0 == nodes && cells.Length1 == dcs
      && forall n, d | 0 <= n < nodes && 0 <= d < dcs ::
           && cells[n, d].nrMsg == MessagesIn(counted, n, d)
           && cells[n, d].nrData == DataIn(counted, n, d)
           && cells[n, d].nrCmd == CommandsIn(counted, n, d)
    }

    constructor (nodes: nat, dcs: nat, localNode: int)
      ensures Valid() && counted == [] && this.nodes == nodes && this.dcs == dcs && fresh(cells)
    {
      this.nodes, this.dcs, this.localNode := nodes, dcs, localNode;
      cells := new Cell[nodes, dcs]((_, _) => Cell(0, 0, 0, 0, 0, 0));
      counted := [];
    }

    /** The loop over the batch. */
    method CountBatch(n: nat, d: nat, batch: nat, payload: seq<byte>)
      requires n < cells.Length0 && d < cells.Length1 && |payload| == batch * HEADER_SIZE
      modifies cells
      ensures var c := old(cells[n, d]);
        cells[n, d] == c.(nrMsg := c.nrMsg + MessageHeaders(DecodeAll(payload, batch)))
      ensures forall i, j | 0 <= i < cells.Length0 && 0 <= j < cells.Length1 && (i, j) != (n, d) ::
                cells[i, j] == old(cells[i, j])
    {
      ghost var hs := DecodeAll(payload, batch);
      hide Decode, DecodeAll;
      for k := 0 to batch
        invariant cells[n, d] == old(cells[n, d]).(nrMsg := old(cells[n, d]).nrMsg + MessageHeaders(hs[..k]))
        invariant forall i, j | 0 <= i < cells.Length0 && 0 <= j < cells.Length1 && (i, j) != (n, d) ::
                    cells[i, j] == old(cells[i, j])
      {
        DecodeAllAt(payload, batch, k);
        assert hs[..k + 1][..k] == hs[..k];
        var h := Decode(payload[HEADER_SIZE * k..HEADER_SIZE * k + HEADER_SIZE]);
        if CarriesMessage(h) {
          cells[n, d] := cells[n, d].(nrMsg := cells[n, d].nrMsg + 1);
        }
      }
      assert hs[..batch] == hs;
    }

    /** The header's own part. */
    method CountHeader(n: nat, d: nat, h: Header, receiving: bool)
      requires n < cells.Length0 && d < cells.Length1 && n == h.dnode && d == h.dcid
      modifies cells
      ensures var c := old(cells[n, d]);
        cells[n, d] == Cell(if receiving then h.snode else localNode, h.dnode, h.dcid,
                            c.nrMsg + (if CarriesMessage(h) then 1 else 0),
                            c.nrData + (if CarriesData(h) then h.len else 0),
                            c.nrCmd + 1 + if CarriesData(h) then 0 else h.batchNr)
      ensures forall i, j | 0 <= i < cells.Length0 && 0 <= j < cells.Length1 && (i, j) != (n, d) ::
                cells[i, j] == old(cells[i, j])
    {
      cells[n, d] := cells[n, d].(nrCmd := cells[n, d].nrCmd + 1);
      cells[n, d] := cells[n, d].(dcid := h.dcid);
      cells[n, d] := cells[n, d].(snode := if receiving then h.snode else localNode, dnode := h.dnode);
      if CarriesData(h) {
        cells[n, d] := cells[n, d].(nrData := cells[n, d].nrData + h.len);
      } else {
        if CarriesMessage(h) {
          cells[n, d] := cells[n, d].(nrMsg := cells[n, d].nrMsg + 1);
        }
        cells[n, d] := cells[n, d].(nrCmd := cells[n, d].nrCmd + h.batchNr);
      }
    }

    /** The cell of a frame and all others, before and after it is counted. */
    method CountFrame(n: nat, d: nat, h: Header, payload: seq<byte>, receiving: bool)
      requires n < cells.Length0 && d < cells.Length1 && n == h.dnode && d == h.dcid
      requires !CarriesData(h) ==> 0 <= h.batchNr && h.batchNr * HEADER_SIZE <= |payload|
      modifies cells
      ensures var c, f := old(cells[n, d]), Command(h, payload);
        cells[n, d] == Cell(if receiving then h.snode else localNode, h.dnode, h.dcid,
                            c.nrMsg + Messages(f), c.nrData + DataBytes(f), c.nrCmd + Counted(f))
      ensures forall i, j | 0 <= i < cells.Length0 && 0 <= j < cells.Length1 && (i, j) != (n, d) ::
                cells[i, j] == old(cells[i, j])
    {
      hide Decode, DecodeAll;
      CountHeader(n, d, h, receiving);
      if !CarriesData(h) && h.batchNr != 0 {
        CountBatch(n, d, h.batchNr, payload[..h.batchNr * HEADER_SIZE]);
      }
    }

    /** update_stats() */
    method UpdateStats(h: Header, payload: seq<byte>, receiving: bool)
      requires Valid() && Countable(Command(h, payload), nodes, dcs)
      modifies this`counted, cells
      ensures Valid() && counted == old(counted) + [Command(h, payload)]
      ensures cells[h.dnode, h.dcid].snode == (if receiving then h.snode else localNode)
      ensures cells[h.dnode, h.dcid].dnode == h.dnode && cells[h.dnode, h.dcid].dcid == h.dcid
      ensures var was, now, f := old(cells[h.dnode, h.dcid]), cells[h.dnode, h.dcid], Command(h, payload);
        && now.nrMsg == was.nrMsg + LogCount(NrMsg, [f] + PutAll(Batched(f), payload))
        && now.nrData == was.nrData + (if h.cmd == 5 || h.cmd == 8198 then h.len else 0)
        && now.nrCmd == was.nrCmd + if h.cmd == 5 || h.cmd == 8198 then 1 else 1 + h.batchNr
    {
      ghost var f := Command(h, payload);
      FrameAdds(f);
      hide Messages, DataBytes, Counted, MessagesIn, DataIn, CommandsIn, CarriesData;
      CountFrame(h.dnode, h.dcid, h, payload, receiving);
      counted := counted + [f];
      forall n, d | 0 <= n < nodes && 0 <= d < dcs
        ensures
          && cells[n, d].nrMsg == MessagesIn(counted, n, d)
          && cells[n, d].nrData == DataIn(counted, n, d)
          && cells[n, d].nrCmd == CommandsIn(counted, n, d)
      {
        CountedNext(old(counted), f, n, d);
      }
    }
  }

  lemma CountedNext(fs: seq<Command>, f: Command, n: int, d: int)
    ensures MessagesIn(fs + [f], n, d) == MessagesIn(fs, n, d) + if InCell(f, n, d) then Messages(f) else 0
    ensures DataIn(fs + [f], n, d) == DataIn(fs, n, d) + if InCell(f, n, d) then DataBytes(f) else 0
    ensures CommandsIn(fs + [f], n, d) == CommandsIn(fs, n, d) + if InCell(f, n, d) then Counted(f) else 0
  {
    assert (fs + [f])[..|fs|] == fs;
  }

  // ---- Which frames are counted ----

  /** The sender counts every frame that it has sent; the receiver skips those
      without a command, and leaves pr_process_message() before it counts a batch
      whose length is wrong. */
  predicate Counts(f: Command) {
    f.header.cmd != CMD_NONE && (IsBatch(f.header) ==> BatchFits(f.header))
  }

  function CountedOf(fs: seq<Command>): seq<Command> {
    if fs == [] then []
    else CountedOf(fs[..|fs| - 1]) + if Counts(fs[|fs| - 1]) then [fs[|fs| - 1]] else []
  }

  lemma CountedOfNext(fs: seq<Command>, f: Command)
    ensures CountedOf(fs + [f]) == if Counts(f) then CountedOf(fs) + [f] else CountedOf(fs)
  {
    assert (fs + [f])[..|fs|] == fs;
    NothingAdded(CountedOf(fs));
  }

  /** Every frame that the receiver counts has a cell. */
  predicate CellsExist(fs: seq<Command>, nodes: nat, dcs: nat) {
    forall i | 0 <= i < |fs| && Counts(fs[i]) :: Countable(fs[i], nodes, dcs)
  }

  /** A HELLO as the sender counts it: no batch is left in its header. */
  predicate CleanHello(f: Command) {
    f.header.cmd == CMD_NONE ==> f.header.batchNr == 0
  }

  function HellosIn(fs: seq<Command>, node: int, dcid: int): nat {
    if fs == [] then 0
    else
      var f := fs[|fs| - 1];
      HellosIn(fs[..|fs| - 1], node, dcid) + if InCell(f, node, dcid) && f.header.cmd == CMD_NONE then 1 else 0
  }

  /** What one cell has counted of the sender's frames, there and on the other side. */
  predicate AgreeOn(fs: seq<Command>, node: int, dcid: int) {
    && MessagesIn(CountedOf(fs), node, dcid) == MessagesIn(fs, node, dcid)
    && DataIn(CountedOf(fs), node, dcid) == DataIn(fs, node, dcid)
    && CommandsIn(CountedOf(fs), node, dcid) + HellosIn(fs, node, dcid) == CommandsIn(fs, node, dcid)
  }

  lemma HellosNext(fs: seq<Command>, f: Command, n: int, d: int)
    ensures HellosIn(fs + [f], n, d) ==
      HellosIn(fs, n, d) + if InCell(f, n, d) && f.header.cmd == CMD_NONE then 1 else 0
  {
    assert (fs + [f])[..|fs|] == fs;
  }

  lemma AgreeOnNext(fs: seq<Command>, f: Command, node: int, dcid: int)
    requires AgreeOn(fs, node, dcid) && Sendable(f) && CleanHello(f)
    ensures AgreeOn(fs + [f], node, dcid)
  {
    var counted := CountedOf(fs);
    hide Sendable, CleanHello, Counts, CountedOf, MessagesIn, DataIn, CommandsIn, HellosIn;
    hide Messages, DataBytes, Counted;
    SendableCounts(f);
    CountedOfNext(fs, f);
    CountedNext(fs, f, node, dcid);
    HellosNext(fs, f, node, dcid);
    CountedNext(counted, f, node, dcid);
    if Counts(f) {
      assert CountedOf(fs + [f]) == counted + [f];
    } else {
      assert CountedOf(fs + [f]) == counted;
    }
  }

  /** The frames of a sender count the same in both tables, but for the HELLOs among them. */
  lemma {:induction false} CountedTheSame(fs: seq<Command>, node: int, dcid: int)
    requires AllSendable(fs) && forall i | 0 <= i < |fs| :: CleanHello(fs[i])
    ensures AgreeOn(fs, node, dcid)
  {
    if fs != [] {
      var before, f := fs[..|fs| - 1], fs[|fs| - 1];
      assert fs == before + [f] && Sendable(f) && CleanHello(f);
      hide AgreeOn, Sendable, CleanHello;
      CountedTheSame(before, node, dcid);
      AgreeOnNext(before, f, node, dcid);
    }
  }

  lemma SendableCounts(f: Command)
    requires Sendable(f) && CleanHello(f)
    ensures Counts(f) <==> f.header.cmd != CMD_NONE
    ensures !Counts(f) ==> Messages(f) == 0 && DataBytes(f) == 0 && Counted(f) == 1
  {
  }

  // ---- All cells together ----

  /** What a frame counts for, and what the frames count for in one cell. */
  function FrameWeight(k: Counter, f: Command): int {
    match k
    case NrMsg => Messages(f)
    case NrData => DataBytes(f)
    case NrCmd => Counted(f)
  }

  function CountIn(k: Counter, fs: seq<Command>, node: int, dcid: int): int {
    match k
    case NrMsg => MessagesIn(fs, node, dcid)
    case NrData => DataIn(fs, node, dcid)
    case NrCmd => CommandsIn(fs, node, dcid)
  }

  lemma CountInNext(k: Counter, fs: seq<Command>, f: Command, n: int, d: int)
    ensures CountIn(k, fs + [f], n, d) == CountIn(k, fs, n, d) + if InCell(f, n, d) then FrameWeight(k, f) else 0
    ensures CountIn(k, [], n, d) == 0
  {
    CountedNext(fs, f, n, d);
    hide Messages, DataBytes, Counted;
  }

  /** One counter in the first dcs cells of a row, and in the first rows. */
  function RowTotal(k: Counter, fs: seq<Command>, node: nat, dcs: nat): int {
    if dcs == 0 then 0 else RowTotal(k, fs, node, dcs - 1) + CountIn(k, fs, node, dcs - 1)
  }

  function Total(k: Counter, fs: seq<Command>, nodes: nat, dcs: nat): int {
    if nodes == 0 then 0 else Total(k, fs, nodes - 1, dcs) + RowTotal(k, fs, nodes - 1, dcs)
  }

  lemma {:induction false} RowTotalNext(k: Counter, fs: seq<Command>, f: Command, node: nat, dcs: nat)
    requires 0 <= f.header.dcid
    ensures RowTotal(k, fs + [f], node, dcs) ==
      RowTotal(k, fs, node, dcs) + if f.header.dnode == node && f.header.dcid < dcs then FrameWeight(k, f) else 0
  {
    hide FrameWeight, CountIn;
    if dcs > 0 {
      RowTotalNext(k, fs, f, node, dcs - 1);
      CountInNext(k, fs, f, node, dcs - 1);
    }
  }

  lemma {:induction false} TotalNext(k: Counter, fs: seq<Command>, f: Command, nodes: nat, dcs: nat)
    requires 0 <= f.header.dnode && 0 <= f.header.dcid < dcs
    ensures Total(k, fs + [f], nodes, dcs) ==
      Total(k, fs, nodes, dcs) + if f.header.dnode < nodes then FrameWeight(k, f) else 0
  {
    hide FrameWeight, RowTotal;
    if nodes > 0 {
      TotalNext(k, fs, f, nodes - 1, dcs);
      RowTotalNext(k, fs, f, nodes - 1, dcs);
    }
  }

  lemma {:induction false} EmptyTotal(k: Counter, nodes: nat, dcs: nat)
    ensures Total(k, [], nodes, dcs) == 0
  {
    if nodes > 0 {
      EmptyTotal(k, nodes - 1, dcs);
      EmptyRow(k, nodes - 1, dcs);
    }
  }

  lemma {:induction false} EmptyRow(k: Counter, node: nat, dcs: nat)
    ensures RowTotal(k, [], node, dcs) == 0
  {
    if dcs > 0 {
      EmptyRow(k, node, dcs - 1);
    }
  }

  lemma SingleCounts(k: Counter, f: Command)
    requires f.header.cmd == 0 || Fetchable(f)
    requires Sendable(f) && CleanHello(f) && !IsBatchFrame(f)
    ensures Complete(f)
    ensures FrameWeight(k, f) == LogCount(k, Deliver(f)) + if k == NrCmd && f.header.cmd == 0 then 1 else 0
  {
    assert Batched(f) == [];
    assert LogCount(k, [f]) == Weight(k, f);
  }

  lemma BatchedAre(f: Command)
    requires IsBatchFrame(f)
    ensures Complete(f) && Deliver(f) == [f] + PutAll(Batched(f), f.payload)
    ensures |Batched(f)| == f.header.batchNr
  {
    hide DecodeAll, AllFetchable;
    assert f.payload[..f.header.batchNr * HEADER_SIZE] == f.payload;
  }

  lemma {:induction false} NoDataIn(cs: seq<Command>)
    requires AllFetchable(cs, 0)
    ensures LogCount(NrData, cs) == 0
  {
    if cs != [] {
      assert Fetchable(cs[0]) && |cs[0].payload| <= 0;
      NoDataIn(cs[1..]);
    }
  }

  lemma BatchCounts(k: Counter, f: Command)
    requires IsBatchFrame(f)
    ensures Complete(f) && FrameWeight(k, f) == LogCount(k, Deliver(f))
  {
    BatchedAre(f);
    FrameAdds(f);
    AllAreCommands(Deliver(f));
    LogCountAppend(NrData, [f], AllAlone(Batched(f)));
    assert LogCount(NrData, [f]) == Weight(NrData, f);
    hide Messages, DataBytes, Counted, Deliver, LogCount, DecodeAll;
    if k == NrData {
      assert Batched(f) == DecodeAll(f.payload, f.header.batchNr) by {
        assert f.payload[..f.header.batchNr * HEADER_SIZE] == f.payload;
      }
      PutAllAlone(Batched(f), f.payload);
      NoDataIn(AllAlone(Batched(f)));
    }
  }

  /** A frame counts for the commands that it stands for, and a HELLO for a command. */
  lemma FrameCounts(k: Counter, f: Command)
    requires Sendable(f) && CleanHello(f)
    ensures WellFramed(f) && Complete(f)
    ensures FrameWeight(k, f) == LogCount(k, Deliver(f)) + if k == NrCmd && f.header.cmd == 0 then 1 else 0
  {
    SendableIsFramed(f);
    if IsBatchFrame(f) {
      BatchCounts(k, f);
    } else {
      SingleCounts(k, f);
    }
  }

  predicate AllCountable(fs: seq<Command>, nodes: nat, dcs: nat) {
    forall i | 0 <= i < |fs| :: Countable(fs[i], nodes, dcs) && CleanHello(fs[i])
  }

  /** How many of the frames are HELLOs. */
  function Hellos(fs: seq<Command>): nat {
    if fs == [] then 0 else Hellos(fs[..|fs| - 1]) + if fs[|fs| - 1].header.cmd == 0 then 1 else 0
  }

  function HellosFor(k: Counter, fs: seq<Command>): nat {
    if k == NrCmd then Hellos(fs) else 0
  }

  lemma LastHello(k: Counter, fs: seq<Command>, f: Command)
    ensures HellosFor(k, fs + [f]) == HellosFor(k, fs) + if k == NrCmd && f.header.cmd == 0 then 1 else 0
  {
    assert (fs + [f])[..|fs|] == fs;
  }

  /** All cells together have counted the commands that the frames stand for, on
      both sides, and the sender the HELLOs too. */
  lemma {:induction false} TotalIsDelivered(k: Counter, fs: seq<Command>, nodes: nat, dcs: nat)
    requires AllSendable(fs) && AllCountable(fs, nodes, dcs)
    ensures AllComplete(fs)
    ensures Total(k, fs, nodes, dcs) == LogCount(k, DeliverAll(fs)) + HellosFor(k, fs)
    ensures Total(k, CountedOf(fs), nodes, dcs) == LogCount(k, DeliverAll(fs))
  {
    if fs == [] {
      EmptyTotal(k, nodes, dcs);
    } else {
      var before, f := fs[..|fs| - 1], fs[|fs| - 1];
      assert fs == before + [f];
      assert Sendable(f) && Countable(f, nodes, dcs) && CleanHello(f);
      hide Sendable, CleanHello, Messages, DataBytes, Counted, Deliver, Complete, FrameWeight, Hellos, HellosFor;
      hide Total, CountedOf, Counts, LogCount;
      TotalIsDelivered(k, before, nodes, dcs);
      FrameCounts(k, f);
      TotalNext(k, before, f, nodes, dcs);
      TotalNext(k, CountedOf(before), f, nodes, dcs);
      CountedOfNext(before, f);
      SendableCounts(f);
      LastHello(k, before, f);
      DeliverAllAppendOne(before, f);
      LogCountAppend(k, DeliverAll(before), Deliver(f));
      NothingDelivered(k, f);
    }
  }

  lemma NothingDelivered(k: Counter, f: Command)
    ensures f.header.cmd == 0 ==> Complete(f) && LogCount(k, Deliver(f)) == 0
  {
  }

  /** One counter of a cell, summed over the cells of a row, and over the table. */
  function CellCount(k: Counter, c: Cell): int {
    match k
    case NrMsg => c.nrMsg
    case NrData => c.nrData
    case NrCmd => c.nrCmd
  }

  function RowSum(k: Counter, t: Table, node: nat, dcs: nat): int
    requires node < t.cells.Length0 && dcs <= t.cells.Length1
    reads t.cells
  {
    if dcs == 0 then 0 else RowSum(k, t, node, dcs - 1) + CellCount(k, t.cells[node, dcs - 1])
  }

  function TableSum(k: Counter, t: Table, nodes: nat): int
    requires nodes <= t.cells.Length0
    reads t.cells
  {
    if nodes == 0 then 0 else TableSum(k, t, nodes - 1) + RowSum(k, t, nodes - 1, t.cells.Length1)
  }

  lemma {:induction false} RowSumIs(k: Counter, t: Table, node: nat, dcs: nat)
    requires t.Valid() && node < t.nodes && dcs <= t.dcs
    ensures RowSum(k, t, node, dcs) == RowTotal(k, t.counted, node, dcs)
  {
    hide MessagesIn, DataIn, CommandsIn;
    if dcs > 0 {
      RowSumIs(k, t, node, dcs - 1);
    }
  }

  lemma {:induction false} TableSumIs(k: Counter, t: Table, nodes: nat)
    requires t.Valid() && nodes <= t.nodes
    ensures TableSum(k, t, nodes) == Total(k, t.counted, nodes, t.dcs)
  {
    hide MessagesIn, DataIn, CommandsIn, RowTotal;
    if nodes > 0 {
      TableSumIs(k, t, nodes - 1);
      RowSumIs(k, t, nodes - 1, t.dcs);
    }
  }
}
