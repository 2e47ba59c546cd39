/** The sender of tcp_proxy_bat.c and lz4tcp_proxy_bat.c, which fetches commands,
    groups them and sends them. */
module BatchSender {
  import opened Words
  import opened Commands
  import opened Frames
  import opened Batching
  import opened Conservation
  import opened Rounds
  import opened Sockets
  import opened Statistics

  /** The lemmas right behind a predicate or a function that are named after it only
      unfold it, or fold it again. */
  class Sender {
    /** What the kernel will answer, call by call. */
    const answers: seq<Answer>
    const capacity: nat
    const max: nat
    const socket: OutSocket

    /** PWS_ENABLED and px_stats */
    const counting: bool
    const table: Table

    /** The number of calls that the kernel has answered. */
    var next: nat

    /** p_header and p_payload, p_header2 and p_payload2, p_header3, p_batch */
    var header: Header
    var payload: seq<byte>
    var header2: Header
    var payload2: seq<byte>
    var header3: Header
    const batch: array<Header>

    var batchNr: nat
    var pending: bool

    /** The frames whose sending has begun. */
    ghost var frames: seq<Command>

    /** No frame has been begun for what p_header and p_batch hold, or p_header2. */
    ghost var loaded: bool
    ghost var second: bool

    /** The commands that are in the buffers only. */
    ghost function Held(): seq<Command>
      requires batchNr <= batch.Length
      reads this`loaded, this`second, this`header, this`payload, this`header2, this`payload2, this`batchNr, batch
    {
      HeldIn(loaded, Command(header, payload), batch[..batchNr], second, Command(header2, payload2))
    }

    ghost predicate CellFor(h: Header) {
      counting ==> HasCell(h, table.nodes, table.dcs)
    }

    ghost predicate Fits() {
      && Sizes(capacity, max) && batch.Length == max && AnswersFit(answers, capacity)
      && (counting ==> CountableAnswers(answers, table.nodes, table.dcs))
    }

    /** Every fetched command is in a frame whose sending has begun, or in a buffer. */
    ghost predicate Valid()
      reads this, socket, batch
    {
      && Fits() && batchNr <= max && next <= |answers|
      && (loaded ==> CellFor(header)) && (second ==> CellFor(header2))
      && Conserved(capacity, Fetched(answers[..next]), frames, Held(), socket.sent + socket.queued)
    }

    lemma HeldIsFetchable()
      requires Valid()
      ensures AllFetchable(Held(), capacity) && capacity <= MAX_LEN && batchNr * HEADER_SIZE <= capacity
    {
    }

    lemma ValidBy(held: seq<Command>)
      requires Fits() && batchNr <= max && batchNr <= batch.Length && next <= |answers|
      requires (loaded ==> CellFor(header)) && (second ==> CellFor(header2))
      requires held == HeldIn(loaded, Command(header, payload), batch[..batchNr], second, Command(header2, payload2))
      requires Conserved(capacity, Fetched(answers[..next]), frames, held, socket.sent + socket.queued)
      ensures Valid()
    {
      hide Conserved, Fetched, HeldIn, CellFor, AnswersFit, CountableAnswers, Sizes;
    }

    /** The table has counted all frames. */
    ghost predicate Tallied()
      reads this`frames, table, table.cells
    {
      counting ==> table.Valid() && table.counted == frames
    }

    lemma TalliedParts()
      requires Tallied()
      ensures counting ==> table.Valid() && table.counted == frames
    {
    }

    constructor (answers: seq<Answer>, capacity: nat, max: nat, counting: bool, table: Table)
      requires Sizes(capacity, max) && AnswersFit(answers, capacity)
      requires counting ==> table.Valid() && table.counted == [] && CountableAnswers(answers, table.nodes, table.dcs)
      ensures Idle() && Tallied() && this.answers == answers && this.capacity == capacity && this.max == max
      ensures this.counting == counting && this.table == table
      ensures next == 0 && frames == [] && socket.sent == []
      ensures fresh(socket) && fresh(batch)
    {
      this.answers, this.capacity, this.max, this.counting, this.table := answers, capacity, max, counting, table;
      socket := new OutSocket();
      batch := new Header[max](_ => BLANK);
      next, batchNr, pending := 0, 0, false;
      header, header2, header3, payload, payload2 := BLANK, BLANK, BLANK, [], [];
      frames, loaded, second := [], false, false;
    }

    lemma FitsAt(i: nat)
      requires Fits() && i < |answers|
      ensures FetchableAnswer(answers[i], capacity)
      ensures answers[i].Got? ==> CellFor(answers[i].command.header)
      ensures answers[i].Failed? && answers[i].code == TimedOut && counting ==>
        CellFor(answers[i].left) && answers[i].left.batchNr == 0
    {
      assert counting ==> CountableAnswer(answers[i], table.nodes, table.dcs);
    }

    /** dvk_get2rmt(p_header, p_payload) */
    method Get() returns (code: Code)
      requires Valid() && !loaded && !second && batchNr == 0
      modifies this`next, this`header, this`payload, this`loaded
      ensures Valid() && (loaded <==> code == OK)
      ensures next == if old(next) < |answers| then old(next) + 1 else old(next)
      ensures code == OK ==> old(next) < |answers| && answers[old(next)] == Got(Command(header, payload))
      ensures code != OK ==>
        if old(next) < |answers| then answers[old(next)] == Failed(code, header) else code == NotConn
    {
      hide Conserved, Fetched, FetchableAnswer, HeldIn, AnswersFit, CountableAnswers, HasCell, Sizes;
      code := NotConn;
      if next < |answers| {
        FitsAt(next);
        HeldInParts(Command(header, payload), batch[..batchNr], Command(header2, payload2));
        ConservedByGet(capacity, answers, next, frames, Held(), socket.sent + socket.queued);
        match answers[next] {
          case Got(c) =>
            assert [] + [c] == [c];
            code, header, payload, loaded := OK, c.header, c.payload, true;
          case Failed(e, left) =>
            Refused(next);
            NothingAdded(Held());
            code, header := e, left;
        }
        next := next + 1;
        HeldInParts(Command(header, payload), batch[..batchNr], Command(header2, payload2));
        assert batch[..batchNr] == [];
      }
    }

    lemma Refused(i: nat)
      requires Fits() && i < |answers| && answers[i].Failed?
      ensures answers[i].code != OK && CommandsOf(answers[i]) == []
    {
      assert FetchableAnswer(answers[i], capacity);
    }

    /** dvk_get2rmt_T(p_header2, p_payload2, TIMEOUT_NOWAIT) */
    method GetMore() returns (code: Code)
      requires Valid() && loaded && !second
      modifies this`next, this`header2, this`payload2, this`second
      ensures Valid() && (second <==> code == OK)
      ensures next == if old(next) < |answers| then old(next) + 1 else old(next)
      ensures code == OK ==> old(next) < |answers| && answers[old(next)] == Got(Command(header2, payload2))
      ensures code != OK ==>
        if old(next) < |answers| then answers[old(next)] == Failed(code, header2) else code == NotConn
    {
      hide Conserved, Fetched, FetchableAnswer, HeldIn, AnswersFit, CountableAnswers, HasCell, Sizes, AllAlone;
      code := NotConn;
      if next < |answers| {
        FitsAt(next);
        HeldInParts(Command(header, payload), batch[..batchNr], Command(header2, payload2));
        ConservedByGet(capacity, answers, next, frames, Held(), socket.sent + socket.queued);
        match answers[next] {
          case Got(c) =>
            code, header2, payload2, second := OK, c.header, c.payload, true;
          case Failed(e, left) =>
            Refused(next);
            NothingAdded(Held());
            code, header2 := e, left;
        }
        next := next + 1;
        HeldInParts(Command(header, payload), batch[..batchNr], Command(header2, payload2));
      }
    }

    /** The first k held commands leave the buffers in the frame f, whose bytes are
        queued; which buffers still hold one is given. */
    ghost method Queue(f: Command, k: nat, stillLoaded: bool, stillSecond: bool)
      requires Valid() && socket.queued == [] && (stillLoaded ==> loaded) && (stillSecond ==> second)
      requires Sendable(f) && f.header.len <= capacity && k <= |Held()| && SameAll(Held()[..k], Deliver(f))
      requires Held()[k..] ==
        HeldIn(stillLoaded, Command(header, payload), batch[..batchNr], stillSecond, Command(header2, payload2))
      modifies this`frames, this`loaded, this`second, socket`queued
      ensures Valid() && socket.queued == Bytes(f)
      ensures frames == old(frames) + [f] && loaded == stillLoaded && second == stillSecond
    {
      hide *;
      QueuedIsConserved(f, k);
      ghost var held := Held()[k..];
      frames, loaded, second := frames + [f], stillLoaded, stillSecond;
      socket.queued := Bytes(f);
      ValidBy(held);
    }

    lemma QueuedIsConserved(f: Command, k: nat)
      requires Valid() && socket.queued == []
      requires Sendable(f) && f.header.len <= capacity && k <= |Held()| && SameAll(Held()[..k], Deliver(f))
      ensures Fits() && batchNr <= max && batchNr <= batch.Length && next <= |answers|
      ensures (loaded ==> CellFor(header)) && (second ==> CellFor(header2))
      ensures Conserved(capacity, Fetched(answers[..next]), frames + [f], Held()[k..], socket.sent + Bytes(f))
    {
      hide Conserved, Fetched, HeldIn, CellFor, AnswersFit, CountableAnswers, SameAll, Deliver, Bytes, Sendable;
      NothingAdded(socket.sent);
      ConservedByQueue(capacity, Fetched(answers[..next]), frames, Held(), socket.sent, f, k);
    }

    /** ps_send_header() and ps_send_payload() */
    method SendBytes(bytes: seq<byte>)
      requires Valid() && bytes <= socket.queued
      modifies socket
      ensures Valid() && socket.queued == old(socket.queued)[|bytes|..]
    {
      hide Conserved, Fetched, HeldIn, AnswersFit, CountableAnswers, HasCell, Sizes;
      socket.SendAll(bytes);
    }

    /** The end of ps_send_remote() */
    method Count(h: Header, p: seq<byte>, ghost before: seq<Command>)
      requires frames == before + [Command(h, p)]
      requires counting ==>
        && table.Valid() && table.counted == before
        && Countable(Command(h, p), table.nodes, table.dcs)
      modifies table`counted, table.cells
      ensures Tallied()
    {
      hide Countable;
      if counting {
        table.UpdateStats(h, p, false);
      }
    }

    /** ps_send_remote(); f is the frame that the buffers hold. */
    method SendRemote(h: Header, p: seq<byte>, ghost f: Command, ghost k: nat,
                      ghost stillLoaded: bool, ghost stillSecond: bool)
      requires Valid() && Tallied() && socket.queued == [] && (stillLoaded ==> loaded) && (stillSecond ==> second)
      requires 0 <= h.len <= |p| && f == Command(h, p[..h.len])
      requires Sendable(f) && h.len <= capacity && (counting ==> Countable(f, table.nodes, table.dcs))
      requires k <= |Held()| && SameAll(Held()[..k], Deliver(f))
      requires Held()[k..] ==
        HeldIn(stillLoaded, Command(header, payload), batch[..batchNr], stillSecond, Command(header2, payload2))
      modifies this`frames, this`loaded, this`second, socket, table`counted, table.cells
      ensures Valid() && Tallied() && socket.queued == []
      ensures frames == old(frames) + [f] && loaded == stillLoaded && second == stillSecond
    {
      hide *;
      TalliedParts();
      ghost var before := frames;
      Queue(f, k, stillLoaded, stillSecond);
      BytesAre(f);
      SendBytes(Encode(h));
      if h.len > 0 {
        SendBytes(p[..h.len]);
      }
      Count(h, p[..h.len], before);
    }

    /** The batch holds what the kernel has answered since the given call, behind the lead. */
    ghost predicate Collected(start: nat)
      reads this`batchNr, batch
    {
      && batchNr <= batch.Length && start + batchNr <= |answers|
      && (forall i | start <= i < start + batchNr :: IsBatchable(answers[i]))
      && batch[..batchNr] == Headers(answers[start..start + batchNr])
    }

    /** bat_vect[batch_nr] = *p_header2; batch_nr++ */
    method Take(ghost start: nat)
      requires Valid() && loaded && second && batchNr < max && Collected(start)
      requires start + batchNr < |answers| && IsBatchable(answers[start + batchNr])
      requires answers[start + batchNr].command == Command(header2, payload2) == Alone(header2)
      modifies this`batchNr, this`second, batch
      ensures Valid() && batchNr == old(batchNr) + 1 && !second && Collected(start) && Held() == old(Held())
    {
      hide Conserved, Fetched, HeldIn, AnswersFit, CountableAnswers, HasCell, Sizes, AllAlone, Headers;
      HeldInBatch(Command(header, payload), batch[..batchNr], header2, Command(header2, payload2));
      HeadersNext(answers, start, start + batchNr);
      ghost var taken := batch[..batchNr];
      batch[batchNr] := header2;
      batchNr := batchNr + 1;
      second := false;
      assert batch[..batchNr] == taken + [header2];
    }

    lemma FetchedAlone(i: nat)
      requires Fits() && i < |answers| && IsBatchable(answers[i])
      ensures answers[i].command == Alone(answers[i].command.header)
    {
      assert FetchableAnswer(answers[i], capacity);
    }

    /** The data command that has ended the inner loop. */
    ghost function More(): seq<Command>
      reads this`second, this`header2, this`payload2
    {
      if second then [Command(header2, payload2)] else []
    }

    lemma MoreIs()
      ensures More() == if second then [Command(header2, payload2)] else []
    {
    }

    /** The inner loop is at its head. */
    ghost predicate AtHead(start: nat)
      reads this, socket, batch
    {
      && Valid() && Collected(start) && loaded && !second && !pending
      && batchNr < max && next == start + batchNr && payload == [] && header3 == header
    }

    /** The inner loop is left: the batch is full, or something that it cannot take has been answered. */
    ghost predicate Left(start: nat, code: Code)
      reads this, socket, batch
    {
      && Valid() && Collected(start) && loaded && second == pending && payload == [] && header3 == header
      && if batchNr == max then next == start + batchNr && !pending && code == OK
         else if start + batchNr == |answers| then next == |answers| && !pending && code == NotConn
         else
           && next == start + batchNr + 1
           && match answers[start + batchNr]
              case Failed(e, _) => !pending && code == if e.NotConn? then NotConn else OK
              case Got(c) => CarriesData(c.header) && pending && code == OK && c == Command(header2, payload2)
    }

    lemma LeftCode(start: nat, code: Code)
      requires Left(start, code)
      ensures code == OK || code == NotConn
    {
    }

    lemma LeftParts(start: nat)
      requires Left(start, OK)
      ensures Collected(start) && batchNr <= max == batch.Length && max * HEADER_SIZE <= MAX_LEN
      ensures batchNr * HEADER_SIZE <= MAX_LEN && start + batchNr <= next <= |answers|
      ensures
        if batchNr == max then More() == [] && next == start + batchNr
        else start + batchNr < |answers| && next == start + batchNr + 1 &&
             match answers[start + batchNr]
             case Failed(e, _) => !e.NotConn? && More() == []
             case Got(c) => More() == [c]
    {
      hide Conserved, Fetched, HeldIn, AnswersFit, CountableAnswers, HasCell, Headers;
    }

    /** Once through the inner loop. */
    method TakeMore(ghost start: nat) returns (code: Code, more: bool)
      requires AtHead(start)
      modifies this`next, this`header2, this`payload2, this`second, this`batchNr, this`pending, batch
      ensures if more then AtHead(start) && next > old(next) else Left(start, code)
      ensures more ==> code == OK
    {
      hide Conserved, Fetched, HeldIn, AnswersFit, CountableAnswers, HasCell, AllAlone, Headers;
      code := GetMore();
      if code != OK {
        if code != NotConn {
          code := OK;
        }
        return code, false;
      }
      if CarriesData(header2) {
        pending := true;
        return code, false;
      }
      FetchedAlone(start + batchNr);
      Take(start);
      more := batchNr < max;
    }

    /** The inner loop, to the point where it is left or the function returns. */
    method Collect() returns (code: Code)
      requires Valid() && loaded && !second && payload == [] && batchNr == 0 && !pending
      modifies this`next, this`header2, this`payload2, this`header3, this`second, this`batchNr, this`pending, batch
      ensures Left(old(next), code)
    {
      ghost var start := next;
      code := OK;
      header3 := header;
      assert batch[..0] == [];
      assert AtHead(start);
      var more := true;
      hide *;
      while more
        invariant if more then AtHead(start) else Left(start, code)
        decreases if more then |answers| - next + 1 else 0
      {
        code, more := TakeMore(start);
      }
    }

    /** What is in the buffers when the frame behind a fetched command is due. */
    ghost predicate ReadyToSend(n: nat)
      reads this, socket, batch
    {
      && Valid() && socket.queued == [] && batchNr == n && loaded && second == pending
      && (n > 0 ==> payload == [] && !CarriesData(header) && header3 == header)
    }

    method ResetBatch()
      requires Valid() && !loaded
      modifies this`batchNr
      ensures Valid() && batchNr == 0
    {
      hide Conserved, Fetched, HeldIn, AnswersFit, CountableAnswers, HasCell, Sizes;
      HeldInNothing(false, batchNr);
      batchNr := 0;
    }

    /** What is left in p_batch does not matter when nothing is loaded. */
    lemma HeldInNothing(stillLoaded: bool, n: nat)
      requires !stillLoaded && n <= batch.Length
      ensures HeldIn(stillLoaded, Command(header, payload), batch[..n], second, Command(header2, payload2)) ==
              HeldIn(stillLoaded, Command(header, payload), batch[..0], second, Command(header2, payload2)) == More()
    {
    }

    /** The lead's header says how much is behind it. */
    method SealBatch()
      requires Valid() && batchNr > 0
      modifies this`header3
      ensures Valid() && header3 == LeadHeader(old(header3), batchNr)
    {
      hide Conserved, Fetched, HeldIn, AnswersFit, CountableAnswers, HasCell;
      header3 := header3.(flags := 0);
      header3 := header3.(flags := SetBatchBit(header3.flags));
      header3 := header3.(batchNr := batchNr);
      header3 := header3.(len := batchNr * HEADER_SIZE);
    }

    /** The frame that the buffers hold: the k commands in front stand for it, the others stay. */
    ghost predicate Due(f: Command, k: nat, stillLoaded: bool, stillSecond: bool)
      reads this, socket, batch
    {
      && Valid() && socket.queued == [] && (stillLoaded ==> loaded) && (stillSecond ==> second)
      && Sendable(f) && 0 <= f.header.len <= capacity && f.header.len == |f.payload|
      && (counting ==> Countable(f, table.nodes, table.dcs))
      && k <= |Held()| && SameAll(Held()[..k], Deliver(f))
      && Held()[k..] ==
           HeldIn(stillLoaded, Command(header, payload), batch[..batchNr], stillSecond, Command(header2, payload2))
    }

    lemma DueParts(f: Command, k: nat, stillLoaded: bool, stillSecond: bool)
      requires Due(f, k, stillLoaded, stillSecond)
      ensures Valid() && socket.queued == [] && (stillLoaded ==> loaded) && (stillSecond ==> second)
      ensures Sendable(f) && 0 <= f.header.len <= capacity && f.header.len == |f.payload|
      ensures f == Command(f.header, f.payload[..f.header.len])
      ensures counting ==> Countable(f, table.nodes, table.dcs)
      ensures k <= |Held()| && SameAll(Held()[..k], Deliver(f))
      ensures Held()[k..] ==
        HeldIn(stillLoaded, Command(header, payload), batch[..batchNr], stillSecond, Command(header2, payload2))
    {
    }

    lemma LeadIsCountable(hs: seq<Header>)
      requires Valid() && loaded && |hs| * HEADER_SIZE <= MAX_LEN && Fetchable(Command(header, payload))
      requires hs != [] ==> !CarriesData(header)
      ensures counting ==> Countable(LeadFrame(Command(header, payload), hs), table.nodes, table.dcs)
    {
      hide Conserved, Fetched, HeldIn, AnswersFit, CountableAnswers, EncodeAll;
    }

    lemma FrameIsDue(hs: seq<Header>)
      requires ReadyToSend(|hs|) && hs == batch[..|hs|]
      ensures |hs| * HEADER_SIZE <= MAX_LEN
      ensures Due(LeadFrame(Command(header, payload), hs), 1 + |hs|, false, second)
    {
      HeldIsFetchable();
      HeldInParts(Command(header, payload), hs, Command(header2, payload2));
      ghost var lead := Command(header, payload);
      assert Held() == [lead] + AllAlone(hs) + More() by {
        NothingAdded([lead] + AllAlone(hs));
      }
      assert Held()[0] == lead && Fetchable(Held()[0]);
      LeadIsCountable(hs);
      hide Conserved, Fetched, AnswersFit, CountableAnswers, HasCell, AllAlone, SameAll, Deliver, EncodeAll, Sendable;
      hide HeldIn, AllFetchable, Countable, LeadFrame;
      LeadIsHeld(lead, hs, More(), capacity);
      LeadFits(lead, hs);
    }

    lemma LeadFits(lead: Command, hs: seq<Header>)
      requires |hs| * HEADER_SIZE <= MAX_LEN && Fetchable(lead)
      ensures var f := LeadFrame(lead, hs); 0 <= f.header.len == |f.payload|
    {
    }

    lemma BatchIsDue(hs: seq<Header>)
      requires ReadyToSend(|hs|) && hs == batch[..|hs|] && hs != []
      ensures Valid() && batchNr == |hs| > 0 && header3 == header && |hs| * HEADER_SIZE <= MAX_LEN
      ensures var h, p := LeadHeader(header, |hs|), EncodeAll(hs);
        && BatchFrame(header, hs) == Command(h, p) && 0 <= h.len == |p| && p[..h.len] == p
      ensures Due(BatchFrame(header, hs), 1 + |hs|, false, second)
    {
      hide Conserved, Fetched, HeldIn, AnswersFit, CountableAnswers, HasCell, Due, EncodeAll;
      FrameIsDue(hs);
    }

    /** p_header3 and p_batch */
    method SendBatch(hs: seq<Header>)
      requires ReadyToSend(|hs|) && hs == batch[..|hs|] && hs != [] && Tallied()
      modifies this`frames, this`loaded, this`second, this`header3, socket, table`counted, table.cells
      ensures Valid() && Tallied() && socket.queued == [] && !loaded && second == old(second)
      ensures |hs| * HEADER_SIZE <= MAX_LEN && frames == old(frames) + [BatchFrame(header, hs)]
    {
      hide *;
      BatchIsDue(hs);
      DueParts(BatchFrame(header, hs), 1 + |hs|, false, second);
      SealBatch();
      SendRemote(header3, EncodeAll(hs), BatchFrame(header, hs), 1 + |hs|, false, second);
    }

    /** p_header and p_payload */
    method SendSingle()
      requires ReadyToSend(0) && Tallied()
      modifies this`frames, this`loaded, this`second, socket, table`counted, table.cells
      ensures Valid() && Tallied() && socket.queued == [] && !loaded && second == old(second)
      ensures frames == old(frames) + [Command(header, payload)]
    {
      hide *;
      ghost var f := Command(header, payload);
      SingleIsDue();
      DueParts(f, 1, false, second);
      SendRemote(header, payload, f, 1, false, second);
    }

    lemma SingleIsDue()
      requires ReadyToSend(0)
      ensures Due(Command(header, payload), 1, false, second)
    {
      assert batch[..0] == [];
      hide Due, Conserved, Fetched, HeldIn, AnswersFit, CountableAnswers, HasCell;
      FrameIsDue([]);
    }

    lemma LeadIsDue(hs: seq<Header>)
      requires ReadyToSend(|hs|) && hs == batch[..|hs|]
      ensures Valid() && |hs| * HEADER_SIZE <= MAX_LEN && batchNr == |hs| && second == pending
      ensures hs == [] || LeadFrame(Command(header, payload), hs) == BatchFrame(header, hs)
      ensures LeadFrame(Command(header, payload), []) == Command(header, payload)
    {
      HeldIsFetchable();
    }

    /** The frame of the batch, or of the one command that there is. */
    method SendLead(hs: seq<Header>)
      requires ReadyToSend(|hs|) && hs == batch[..|hs|] && Tallied()
      modifies this`frames, this`loaded, this`second, this`header3, this`batchNr, socket, table`counted, table.cells
      ensures Valid() && Tallied() && socket.queued == [] && batchNr == 0 && !loaded && second == pending
      ensures second == old(second) && More() == old(More())
      ensures |hs| * HEADER_SIZE <= MAX_LEN && frames == old(frames) + [LeadFrame(Command(header, payload), hs)]
    {
      hide *;
      LeadIsDue(hs);
      MoreIs();
      if batchNr > 0 {
        SendBatch(hs);
        ResetBatch();
      } else {
        SendSingle();
      }
      MoreIs();
    }

    /** Between two rounds of the outer loop, nothing is held and nothing is queued. */
    ghost predicate Idle()
      reads this, socket, batch
    {
      Valid() && socket.queued == [] && !loaded && !second
    }

    lemma IdleIs()
      requires Idle()
      ensures Valid() && socket.queued == [] && !loaded && !second && next <= |answers|
    {
    }

    lemma IdleBy()
      requires Valid() && socket.queued == [] && !loaded && !second
      ensures Idle()
    {
    }

    lemma PendingIsDue()
      requires Valid() && socket.queued == [] && !loaded && second
      ensures Due(Command(header2, payload2), 1, false, false)
    {
      var c := Command(header2, payload2);
      HeldIsFetchable();
      HeldInParts(Command(header, payload), batch[..batchNr], c);
      assert Held() == [c] && Held()[..1] == [c] && Fetchable(Held()[0]) && |c.payload| <= capacity;
      SingleDelivers(c);
      hide Conserved, Fetched, HeldIn, AnswersFit, CountableAnswers, SameAll, Deliver, Sendable;
    }

    /** The data command that ended the batch goes out behind it. */
    method SendPending()
      requires Valid() && Tallied() && socket.queued == [] && !loaded && second == pending
      modifies this`frames, this`loaded, this`second, this`pending, socket, table`counted, table.cells
      ensures Idle() && Tallied() && !pending
      ensures frames == old(frames + More())
    {
      hide *;
      MoreIs();
      if pending {
        ghost var c := Command(header2, payload2);
        PendingIsDue();
        DueParts(c, 1, false, false);
        SendRemote(header2, payload2, c, 1, false, false);
        NotPending();
      } else {
        NothingAdded(frames);
      }
      IdleBy();
    }

    method NotPending()
      requires Valid()
      modifies this`pending
      ensures Valid() && !pending
    {
      hide Conserved, Fetched, HeldIn, AnswersFit, CountableAnswers, HasCell, Sizes;
      pending := false;
    }

    lemma HelloIs(h: Header)
      ensures Hello(h).header.len == 0 && Hello(h).payload == payload[..0]
    {
    }

    /** p_header->c_cmd = CMD_NONE, p_header->c_len = 0, p_header->c_rcode = 0 */
    method MakeHello()
      requires Idle() && CellFor(header) && (counting ==> header.batchNr == 0)
      modifies this`header
      ensures Idle() && header == Hello(old(header)).header && Due(Hello(old(header)), 0, false, false)
    {
      HeldInParts(Command(header, payload), batch[..batchNr], Command(header2, payload2));
      hide Conserved, Fetched, HeldIn, AnswersFit, CountableAnswers;
      header := header.(cmd := CMD_NONE);
      header := header.(len := 0);
      header := header.(rcode := 0);
      HeldInParts(Command(header, payload), batch[..batchNr], Command(header2, payload2));
      HelloDelivers(old(header));
      assert Held() == [] && Held()[..0] == [] && Held()[0..] == [];
    }

    /** EDVSTIMEDOUT */
    method SendHello()
      requires Idle() && Tallied() && CellFor(header) && (counting ==> header.batchNr == 0)
      modifies this`header, this`frames, this`loaded, this`second, socket, table`counted, table.cells
      ensures Idle() && Tallied() && frames == old(frames) + [Hello(old(header))]
    {
      hide *;
      ghost var f := Hello(header);
      MakeHello();
      DueParts(f, 0, false, false);
      HelloIs(old(header));
      SendRemote(header, payload, f, 0, false, false);
      IdleBy();
    }

    /** The inner loop is left for good: the frames for what it has collected are due. */
    lemma CollectedIsReady(start: nat)
      requires Left(start, OK) && socket.queued == []
      requires 0 < start && IsBatchable(answers[start - 1]) && Command(header, payload) == answers[start - 1].command
      ensures batchNr <= batch.Length && ReadyToSend(batchNr)
    {
      hide Conserved, Fetched, HeldIn, AnswersFit, CountableAnswers, HasCell;
    }

    /** How far the inner loop has come. */
    lemma EndOfBatchIs(start: nat, code: Code)
      requires 0 < start && Left(start, code)
      ensures EndOfBatch(answers, max, start - 1) == start + batchNr
    {
      hide Conserved, Fetched, HeldIn, AnswersFit, CountableAnswers, HasCell, Headers;
      BatchCountIs(answers[start..], max, batchNr);
    }

    lemma RoundIs(start: nat)
      requires 0 < start && Left(start, OK)
      requires IsBatchable(answers[start - 1]) && Command(header, payload) == answers[start - 1].command
      ensures batchNr <= batch.Length && max * HEADER_SIZE <= MAX_LEN && batchNr * HEADER_SIZE <= MAX_LEN
      ensures start <= next <= |answers|
      ensures OneRound(answers, max, start - 1) ==
        Round([LeadFrame(Command(header, payload), batch[..batchNr])] + More(), next, true)
    {
      hide *;
      LeftParts(start);
      EndOfBatchIs(start, OK);
      LeadIs(start);
      RoundOfBatch(answers, max, start - 1, start + batchNr, More(), next);
    }

    lemma LeadIs(start: nat)
      requires 0 < start && Collected(start) && batchNr <= max && max * HEADER_SIZE <= MAX_LEN
      requires IsBatchable(answers[start - 1]) && Command(header, payload) == answers[start - 1].command
      ensures LeadFrame(Command(header, payload), batch[..batchNr]) == LeadOf(answers, start - 1, start + batchNr)
    {
      hide LeadFrame, Headers;
    }

    /** The function returns from the inner loop, and what it has collected is never sent. */
    lemma RoundStops(start: nat)
      requires 0 < start && Left(start, NotConn) && IsBatchable(answers[start - 1])
      ensures Valid() && start <= next <= |answers|
      ensures max * HEADER_SIZE <= MAX_LEN && OneRound(answers, max, start - 1) == Round([], next, false)
    {
      EndOfBatchIs(start, NotConn);
      hide Conserved, Fetched, HeldIn, AnswersFit, CountableAnswers, HasCell, Headers, EndOfBatch, LeadOf;
    }

    /** They are the command that the round has begun with and the batch behind it. */
    lemma LeavesBatch(start: nat)
      requires 0 < start && Left(start, NotConn) && IsBatchable(answers[start - 1])
      requires Command(header, payload) == answers[start - 1].command
      ensures LeftBehind(answers, max, start - 1, Held())
    {
      EndOfBatchIs(start, NotConn);
      HeldInParts(Command(header, payload), batch[..batchNr], Command(header2, payload2));
      hide Conserved, Fetched, HeldIn, AnswersFit, CountableAnswers, HasCell, Headers, EndOfBatch, AllAlone;
    }

    lemma LeavesNothing(start: nat)
      requires batchNr <= batch.Length && !loaded && !second && start <= |answers| && ReturnsIdle(answers, start)
      ensures LeftBehind(answers, max, start, Held())
    {
    }

    /** What a round sends, where it ends and what it leaves behind, seen from the
        answer that it has begun with. */
    ghost predicate Served(start: nat, before: seq<Command>, more: bool)
      reads this, socket, batch, table, table.cells
    {
      && Valid() && Tallied() && socket.queued == [] && max * HEADER_SIZE <= MAX_LEN && start <= next <= |answers|
      && before + Sent(answers, max, start) == (if more then frames + Sent(answers, max, next) else frames)
      && End(answers, max, start) == (if more then End(answers, max, next) else next)
      && if more then !loaded && !second && LastRound(answers, max, start) == LastRound(answers, max, next)
         else LeftBehind(answers, max, LastRound(answers, max, start), Held())
    }

    lemma ServedParts(start: nat, before: seq<Command>)
      requires Served(start, before, true)
      ensures Idle() && Tallied() && max * HEADER_SIZE <= MAX_LEN && start <= next <= |answers|
      ensures before + Sent(answers, max, start) == frames + Sent(answers, max, next)
      ensures End(answers, max, start) == End(answers, max, next)
      ensures LastRound(answers, max, start) == LastRound(answers, max, next)
    {
      hide Valid, Tallied, Sent, End, LastRound, LeftBehind, Held;
    }

    lemma ServedMore(start: nat, before: seq<Command>, sent: seq<Command>)
      requires Idle() && Tallied() && start < next <= |answers| && max * HEADER_SIZE <= MAX_LEN
      requires frames == before + sent && OneRound(answers, max, start) == Round(sent, next, true)
      ensures Served(start, before, true)
    {
      hide Conserved, Fetched, HeldIn, AnswersFit, CountableAnswers, HasCell, Sizes, OneRound;
      Associates(before, sent, Sent(answers, max, next));
    }

    lemma ServedStop(start: nat, before: seq<Command>)
      requires Valid() && Tallied() && socket.queued == [] && start <= next <= |answers| && max * HEADER_SIZE <= MAX_LEN
      requires frames == before
      requires if start < |answers| then OneRound(answers, max, start) == Round([], next, false) else next == start
      requires LeftBehind(answers, max, start, Held())
      ensures Served(start, before, false)
    {
      hide Conserved, Fetched, HeldIn, AnswersFit, CountableAnswers, HasCell, Sizes, OneRound, LeftBehind;
      NothingAdded(before);
    }

    /** The rest of a round that has begun with a batchable command. If the function
        returns, that command and the batch behind it stay in the buffers. */
    method ServeBatch() returns (code: Code)
      requires Valid() && Tallied() && socket.queued == []
      requires loaded && !second && payload == [] && batchNr == 0 && !pending
      requires 0 < next <= |answers| && IsBatchable(answers[next - 1])
      requires Command(header, payload) == answers[next - 1].command
      modifies this, socket, batch, table`counted, table.cells
      ensures Served(old(next) - 1, old(frames), code == OK)
      ensures next >= old(next) && (code != OK ==> code == NotConn)
    {
      ghost var start, before := next, frames;
      hide *;
      code := Collect();
      LeftCode(start, code);
      if code == OK {
        CollectedIsReady(start);
        RoundIs(start);
        ghost var lead, more := LeadFrame(Command(header, payload), batch[..batchNr]), More();
        SendLead(batch[..batchNr]);
        SendPending();
        assert frames == before + [lead] + more;
        Associates(before, [lead], more);
        ServedMore(start - 1, before, [lead] + more);
      } else {
        RoundStops(start);
        LeavesBatch(start);
        ServedStop(start - 1, before);
      }
    }

    /** A data command at the head of a round. */
    method ServeData(ghost start: nat)
      requires Valid() && Tallied() && socket.queued == []
      requires loaded && !second && batchNr == 0 && !pending && next == start + 1
      requires start < |answers| && CarriesData(header) && answers[start] == Got(Command(header, payload))
      modifies this`frames, this`loaded, this`second, this`header3, this`batchNr, this`pending, socket
      modifies table`counted, table.cells
      ensures Served(start, old(frames), true) && next == old(next)
    {
      ghost var before, c := frames, Command(header, payload);
      DataRound(start);
      hide *;
      SendLead([]);
      MoreIs();
      SendPending();
      NothingAdded(before + [c]);
      ServedMore(start, before, [c]);
    }

    /** A fetched data command is due by itself. */
    lemma DataRound(start: nat)
      requires Valid() && socket.queued == [] && loaded && !second && batchNr == 0 && !pending
      requires start < |answers| && CarriesData(header) && answers[start] == Got(Command(header, payload))
      ensures ReadyToSend(0) && batch[..0] == [] && max * HEADER_SIZE <= MAX_LEN
      ensures OneRound(answers, max, start) == Round([Command(header, payload)], start + 1, true)
      ensures LeadFrame(Command(header, payload), []) == Command(header, payload) && start + 1 <= |answers|
    {
      hide Conserved, Fetched, HeldIn, AnswersFit, CountableAnswers, HasCell;
    }

    lemma RoundBegins(start: nat, code: Code)
      requires Valid() && next == (if start < |answers| then start + 1 else start) && start <= |answers|
      requires code == OK ==> start < |answers| && answers[start] == Got(Command(header, payload))
      requires code != OK ==> if start < |answers| then answers[start] == Failed(code, header) else code == NotConn
      ensures max * HEADER_SIZE <= MAX_LEN && next <= |answers|
      ensures code == OK && !CarriesData(header) ==> IsBatchable(answers[start]) && payload == []
      ensures code == TimedOut ==>
        && start < next && OneRound(answers, max, start) == Round([Hello(header)], next, true)
        && CellFor(header) && (counting ==> header.batchNr == 0)
      ensures code != OK && code != TimedOut ==>
        && ReturnsIdle(answers, start) && batchNr <= batch.Length
        && if start < |answers| then OneRound(answers, max, start) == Round([], next, false) else next == start
    {
      if start < |answers| {
        FitsAt(start);
      }
      hide Conserved, Fetched, HeldIn, AnswersFit, CountableAnswers, HasCell, Hello, EndOfBatch, LeadOf;
    }

    /** batch_nr = 0, cmd_flag = 0 */
    method Reset()
      requires Valid() && !loaded
      modifies this`batchNr, this`pending
      ensures Valid() && batchNr == 0 && !pending
    {
      hide *;
      ResetBatch();
      NotPending();
    }

    /** Once through the outer loop. */
    method Serve() returns (code: Code)
      requires Idle() && Tallied()
      modifies this, socket, batch, table`counted, table.cells
      ensures Served(old(next), old(frames), code == OK)
      ensures code == OK ==> next > old(next)
    {
      ghost var start, before := next, frames;
      hide *;
      IdleIs();
      Reset();
      code := Get();
      RoundBegins(start, code);
      if code == OK {
        if CarriesData(header) {
          ServeData(start);
        } else {
          code := ServeBatch();
        }
      } else if code == TimedOut {
        ghost var hello := Hello(header);
        IdleBy();
        SendHello();
        ServedMore(start, before, [hello]);
        code := OK;
      } else {
        LeavesNothing(start);
        ServedStop(start, before);
      }
    }

    /** The run so far, and the round that comes next. */
    lemma ServedOn(start: nat, before: seq<Command>, from: nat, sent: seq<Command>, more: bool)
      requires Served(from, sent, more) && start <= from
      requires before + Sent(answers, max, start) == sent + Sent(answers, max, from)
      requires End(answers, max, start) == End(answers, max, from)
      requires LastRound(answers, max, start) == LastRound(answers, max, from)
      ensures Served(start, before, more) && from <= next
    {
      hide Valid, Tallied, Sent, End, LastRound, LeftBehind, Held;
    }

    lemma ServedNothing()
      requires Idle() && Tallied()
      ensures Served(next, frames, true)
    {
      hide Tallied, Sent, End, LastRound, Conserved, Fetched, HeldIn, AnswersFit, CountableAnswers, HasCell;
    }

    /** ps_start_serving(): rounds until the kernel refuses to go on. */
    method StartServing() returns (code: Code)
      requires Idle() && Tallied()
      modifies this, socket, batch, table`counted, table.cells
      ensures code != OK && Served(old(next), old(frames), false)
    {
      ghost var start, before := next, frames;
      code := OK;
      hide *;
      ServedNothing();
      while code == OK
        invariant Served(start, before, code == OK)
        decreases |answers| - next, if code == OK then 1 else 0
      {
        ServedParts(start, before);
        ghost var from, sent := next, frames;
        code := Serve();
        ServedOn(start, before, from, sent, code == OK);
      }
    }
  }
}
