/** The receiver of tcp_proxy_bat.c and lz4tcp_proxy_bat.c, which takes frames
    apart and delivers their commands. */
module BatchReceiver {
  import opened Words
  import opened Commands
  import opened Frames
  import opened Batching
  import opened Reception
  import opened Sockets
  import opened Statistics

  class Receiver {
    const conn: InSocket
    const capacity: nat

    /** PWS_ENABLED and px_stats */
    const counting: bool
    const table: Table

    /** The storage of *p_header and of *p_payload. */
    const buffer: array<byte>
    const payload: array<byte>

    var header: Header

    /** What dvk_put2lcl() has been given. */
    var log: seq<Command>

    /** The bytes that have been received as frames, and these frames. */
    ghost var whole: nat
    ghost var got: seq<Command>

    /** The connection has ended in a header, and that was not noticed. */
    ghost var passed: bool

    /** The commands of the last frame that are still to be delivered. */
    ghost var due: seq<Command>

    ghost predicate Valid()
      reads this, conn
    {
      && conn.Valid() && buffer.Length == HEADER_SIZE && payload.Length == capacity && buffer != payload
      && whole <= conn.taken
      && Received(conn.stream, capacity, conn.errno, whole, passed, got, log, due)
    }

    /** Everything that was taken from the connection has been received as frames. */
    ghost predicate Settled()
      reads this, conn
    {
      Valid() && conn.taken == whole
    }

    /** Between two messages, everything that was received has been delivered too. */
    ghost predicate Idle()
      reads this, conn
    {
      Settled() && due == []
    }

    /** The table has counted these frames, and has a cell for everything that will be found. */
    ghost predicate HasCounted(frames: seq<Command>)
      reads table, table.cells
    {
      counting ==>
        && table.Valid() && table.counted == CountedOf(frames)
        && CellsExist(AllFrames(conn.stream, conn.errno), table.nodes, table.dcs)
    }

    /** It has counted what has been found. */
    ghost predicate Tallied()
      reads this`got, table, table.cells
    {
      HasCounted(got)
    }

    constructor (conn: InSocket, capacity: nat, counting: bool, table: Table)
      requires conn.Valid() && conn.taken == 0 && Readable(conn.stream, capacity, conn.errno)
      requires counting ==>
        && table.Valid() && table.counted == []
        && CellsExist(AllFrames(conn.stream, conn.errno), table.nodes, table.dcs)
      ensures Idle() && Tallied() && this.conn == conn && this.capacity == capacity
      ensures this.counting == counting && this.table == table
      ensures log == [] && whole == 0 && got == [] && !passed && fresh(buffer) && fresh(payload)
    {
      this.conn, this.capacity, this.counting, this.table := conn, capacity, counting, table;
      buffer, payload := new byte[HEADER_SIZE], new byte[capacity];
      header := BLANK;
      log, whole, got, passed, due := [], 0, [], false, [];
    }

    /** The bytes that are left, from the end of the last frame on. */
    ghost function Rest(): seq<byte>
      requires whole <= |conn.stream|
      reads this`whole
    {
      conn.stream[whole..]
    }

    /** pr_receive_header(): where recv() returns 0, the result is errno. */
    method ReceiveHeader() returns (code: Code, short: bool)
      requires Idle()
      modifies this`header, conn, buffer
      ensures Valid() && due == []
      ensures short <==> |Rest()| < HEADER_SIZE
      ensures code == (if short && conn.errno != 0 then Errno(conn.errno) else OK)
      ensures header == FirstFrame(Heard(Rest())).header
      ensures conn.stream[conn.taken..] == Heard(Rest())[HEADER_SIZE..]
      ensures conn.taken == if short then |conn.stream| else whole + HEADER_SIZE
    {
      hide Received, Decode;
      forall i | 0 <= i < HEADER_SIZE {
        buffer[i] := 0;
      }
      ghost var rest := Rest();
      label Cleared:
      var n := conn.ReceiveAll(buffer, HEADER_SIZE);
      short := n < HEADER_SIZE;
      forall i | n <= i < HEADER_SIZE
        ensures buffer[i] == 0
      {
        assert buffer[i] == buffer[n..][i - n] == old@Cleared(buffer[n..])[i - n];
      }
      assert buffer[..] == buffer[..n] + Zeros(HEADER_SIZE - n);
      assert buffer[..n] == rest[..n];
      assert n < HEADER_SIZE ==> rest[..n] == rest;
      assert buffer[..] == Heard(rest)[..HEADER_SIZE];
      header := Decode(buffer[..]);
      code := if n < HEADER_SIZE && conn.errno != 0 then Errno(conn.errno) else OK;
    }

    /** pr_receive_payload(), into a buffer that was cleared: it keeps its zeros
        where the connection has ended too early, and that is not an error. */
    method ReceivePayload(size: nat)
      requires Valid() && 0 < size <= capacity
      modifies conn, payload
      ensures Valid()
      ensures payload[..size] == Filled(conn.stream[old(conn.taken)..], size)
      ensures conn.taken == if |conn.stream| - old(conn.taken) >= size then old(conn.taken) + size else |conn.stream|
    {
      hide Received;
      forall i | 0 <= i < size {
        payload[i] := 0;
      }
      label Cleared:
      var n := conn.ReceiveAll(payload, size);
      forall i | n <= i < size
        ensures payload[i] == 0
      {
        assert payload[i] == payload[n..][i - n] == old@Cleared(payload[n..])[i - n];
      }
      assert payload[n..size] == Zeros(size - n);
      assert payload[..size] == payload[..n] + payload[n..size];
    }

    /** The next frame has been received, or what is left passes for one. */
    ghost method Advance(short: bool)
      requires Valid() && due == [] && !passed && (short <==> |Rest()| < HEADER_SIZE)
      requires if short then conn.errno == 0 && conn.taken == |conn.stream|
               else conn.taken >= whole + FrameSize(Rest())
      modifies this`whole, this`due, this`got, this`passed
      ensures Valid() && passed == short
      ensures whole == if short then |conn.stream| else old(whole + FrameSize(Rest()))
      ensures var f := FirstFrame(Heard(old(Rest())));
        Taken(f, capacity) && Complete(f) && got == old(got) + [f] && due == Deliver(f)
    {
      hide Received, FirstFrame, Deliver, FrameSize, Taken;
      ghost var f := FirstFrame(Heard(Rest()));
      if short {
        ReceivedLast(conn.stream, capacity, conn.errno, whole, got, log);
        whole, passed := |conn.stream|, true;
      } else {
        ReceivedNext(conn.stream, capacity, conn.errno, whole, got, log);
        whole := whole + FrameSize(Rest());
      }
      got, due := got + [f], Deliver(f);
    }

    /** dvk_put2lcl() */
    method PutToLocal(h: Header, size: nat)
      requires Valid() && size <= capacity && due != [] && due[0] == Put(h, payload[..size])
      modifies this`log, this`due
      ensures Valid() && due == old(due)[1..] && log == old(log) + [old(due)[0]]
    {
      ReceivedPut(conn.stream, capacity, conn.errno, whole, passed, got, log, due);
      hide Received, Put;
      log := log + [Put(h, payload[..size])];
      due := due[1..];
    }

    /** A frame without a command takes no more bytes than its header, and stands for nothing. */
    lemma NoCommand()
      requires Valid()
      requires FirstFrame(Heard(Rest())).header.cmd == CMD_NONE
      ensures var f := FirstFrame(Heard(Rest())); Complete(f) && Deliver(f) == [] && !Counts(f)
      ensures |Rest()| >= HEADER_SIZE ==> FrameSize(Rest()) == HEADER_SIZE
    {
      if |Rest()| >= HEADER_SIZE {
        FrameSizeIs(Rest());
      }
    }

    /** After the end of the connection was passed over, every header is a cleared one. */
    lemma OnlyClearedHeaders()
      requires Valid() && passed
      ensures FirstFrame(Heard(Rest())).header.cmd == CMD_NONE && |Rest()| == 0 && conn.errno == 0
    {
      ClearedHeader();
      assert Rest() == [] && Filled([], HEADER_SIZE) == Zeros(HEADER_SIZE);
      hide Decode, FramesIn, DeliverAll, AllFrames, Readable;
    }

    /** A header without a command. */
    ghost method Skip(short: bool)
      requires Valid() && due == [] && (short <==> |Rest()| < HEADER_SIZE)
      requires FirstFrame(Heard(Rest())).header.cmd == CMD_NONE
      requires if short then conn.errno == 0 && conn.taken == |conn.stream| else conn.taken == whole + HEADER_SIZE
      requires Tallied()
      modifies this`whole, this`due, this`got, this`passed
      ensures Idle() && Tallied() && (short ==> passed) && (old(passed) ==> passed)
      ensures whole == conn.taken
    {
      hide Received, FirstFrame, Deliver, FrameSize, Counts, CountedOf;
      NoCommand();
      if passed {
        OnlyClearedHeaders();
      } else {
        CountedOfNext(got, FirstFrame(Heard(Rest())));
        Advance(short);
      }
    }

    /** The loop over headers without a command. Once the end of the connection is
        passed over, it goes round for ever: every recv() returns 0, every header
        is a cleared one. */
    method NextHeader() returns (code: Code, short: bool)
      requires Idle() && Tallied()
      modifies this`header, this`whole, this`due, this`got, this`passed, conn, buffer
      ensures Valid() && due == [] && Tallied() && whole >= old(whole) && (old(passed) ==> passed)
      ensures code == OK || code == Errno(conn.errno) || code == Spins
      ensures code == OK ==>
        && !passed && header == FirstFrame(Heard(Rest())).header && header.cmd != CMD_NONE
        && (short <==> |Rest()| < HEADER_SIZE) && (short ==> conn.errno == 0)
        && conn.stream[conn.taken..] == Heard(Rest())[HEADER_SIZE..]
        && conn.taken == if short then |conn.stream| else whole + HEADER_SIZE
      ensures code == Spins ==> Idle() && passed
      ensures code.Errno? ==> conn.errno != 0 && |Rest()| < HEADER_SIZE && !passed
    {
      hide Received, FirstFrame, Deliver, FrameSize, CountedOf;
      code, short := OK, false;
      while true
        invariant Idle() && Tallied() && whole >= old(whole) && (old(passed) ==> passed)
        decreases |conn.stream| - whole
      {
        code, short := ReceiveHeader();
        if passed {
          OnlyClearedHeaders();
        }
        if code != OK || header.cmd != CMD_NONE {
          break;
        }
        Skip(short);
        if short {
          code := Spins;
          break;
        }
      }
    }

    /** The payload, if any; then the frame is in the buffers as a whole. */
    method FinishFrame(short: bool) returns (ghost f: Command)
      requires Valid() && due == [] && !passed && (short <==> |Rest()| < HEADER_SIZE) && (short ==> conn.errno == 0)
      requires header == FirstFrame(Heard(Rest())).header && header.cmd != CMD_NONE
      requires conn.stream[conn.taken..] == Heard(Rest())[HEADER_SIZE..]
      requires conn.taken == if short then |conn.stream| else whole + HEADER_SIZE
      modifies this`whole, this`due, this`got, this`passed, conn, payload
      ensures Settled() && whole >= old(whole) && (whole > old(whole) || passed)
      ensures f == FirstFrame(Heard(old(Rest()))) && Complete(f) && got == old(got) + [f] && due == Deliver(f)
      ensures f.header == header && 0 <= header.len <= capacity && payload[..header.len] == f.payload
    {
      f := FirstFrame(Heard(Rest()));
      FrameInBuffers(short);
      hide Received, FirstFrame, FrameSize, Filled, Deliver, Heard;
      if header.len != 0 {
        ReceivePayload(header.len);
      }
      Advance(short);
    }

    lemma FrameInBuffers(short: bool)
      requires Valid() && !passed && (short <==> |Rest()| < HEADER_SIZE) && (short ==> conn.errno == 0)
      requires FirstFrame(Heard(Rest())).header.cmd != CMD_NONE
      ensures var f := FirstFrame(Heard(Rest()));
        && 0 <= f.header.len <= capacity && |f.payload| == f.header.len
        && f.payload == Filled(Heard(Rest())[HEADER_SIZE..], f.header.len)
        && (short || FrameSize(Rest()) ==
              if |Rest()| < HEADER_SIZE + f.header.len then |Rest()| else HEADER_SIZE + f.header.len)
    {
      NextIsTaken(conn.stream, capacity, conn.errno, whole);
      if !short {
        FrameSizeIs(Rest());
      }
      hide Decode;
    }

    lemma BatchedAt(hs: seq<Header>, n: nat, i: nat)
      requires i < n && n * HEADER_SIZE <= payload.Length
      requires hs == DecodeAll(payload[..n * HEADER_SIZE], n)
      ensures HEADER_SIZE * i + HEADER_SIZE <= payload.Length
      ensures hs[i] == Decode(payload[HEADER_SIZE * i..HEADER_SIZE * i + HEADER_SIZE])
    {
      hide Decode, DecodeAll;
      ghost var bytes := payload[..n * HEADER_SIZE];
      DecodeAllAt(bytes, n, i);
      ghost var at := HEADER_SIZE * i;
      assert payload[at..at + HEADER_SIZE] == bytes[at..at + HEADER_SIZE];
    }

    /** The commands of a batch, as the payload buffer holds them. */
    method DeliverBatch(n: nat)
      requires Settled() && n * HEADER_SIZE <= payload.Length == capacity
      requires due == PutAll(DecodeAll(payload[..n * HEADER_SIZE], n), payload[..n * HEADER_SIZE])
      modifies this`log, this`due
      ensures Idle() && log == old(log + due)
    {
      ghost var hs := DecodeAll(payload[..n * HEADER_SIZE], n);
      hide Received, Decode, Put, DecodeAll;
      var i := 0;
      while i < n
        invariant 0 <= i <= n && Settled() && log + due == old(log + due)
        invariant due == old(due)[i..]
      {
        BatchedAt(hs, n, i);
        PutToLocal(Decode(payload[HEADER_SIZE * i..HEADER_SIZE * i + HEADER_SIZE]), n * HEADER_SIZE);
        i := i + 1;
      }
    }

    lemma LeadIsDue(f: Command)
      requires Complete(f) && f.header == header && header.cmd != CMD_NONE
      requires 0 <= header.len <= payload.Length && payload[..header.len] == f.payload
      ensures Deliver(f) != [] && Deliver(f)[0] == Put(header, payload[..header.len])
      ensures Deliver(f)[1..] ==
        if IsBatch(header) && BatchFits(header)
        then PutAll(DecodeAll(payload[..header.len], header.batchNr), payload[..header.len])
        else []
    {
      hide Decode, DecodeAll;
    }

    /** dvk_put2lcl() for the frame, and for its batch if the length is right. */
    method DeliverFrame(ghost f: Command) returns (code: Code)
      requires Settled() && Complete(f) && due == Deliver(f)
      requires f.header == header && header.cmd != CMD_NONE
      requires 0 <= header.len <= capacity && payload[..header.len] == f.payload
      modifies this`log, this`due
      ensures Idle() && code == if Counts(f) then OK else BadValue
    {
      hide Received, Decode;
      LeadIsDue(f);
      hide Deliver;
      PutToLocal(header, header.len);
      if IsBatch(header) {
        if header.batchNr * HEADER_SIZE != header.len {
          return BadValue;
        }
        DeliverBatch(header.batchNr);
      }
      code := OK;
    }

    /** The frame that is there can be counted. */
    lemma CellExists(short: bool)
      requires Valid() && Tallied() && !passed && (short <==> |Rest()| < HEADER_SIZE) && (short ==> conn.errno == 0)
      ensures HasCounted(got)
      ensures var f := FirstFrame(Heard(Rest())); counting && Counts(f) ==> Countable(f, table.nodes, table.dcs)
    {
      var f := FirstFrame(Heard(Rest()));
      GotIsPrefix(conn.stream, conn.errno, whole);
      assert AllFrames(conn.stream, conn.errno)[|got|] == (got + [f])[|got|] == f;
    }

    /** update_stats(), behind a message that was processed as a whole. */
    method Count(ghost f: Command, ghost before: seq<Command>, code: Code)
      requires Idle() && got == before + [f]
      requires code == if Counts(f) then OK else BadValue
      requires f.header == header && 0 <= header.len <= capacity && payload[..header.len] == f.payload
      requires HasCounted(before) && (counting && Counts(f) ==> Countable(f, table.nodes, table.dcs))
      modifies table`counted, table.cells
      ensures Idle() && Tallied()
    {
      hide Received, CountedOf, Counts, Countable, CellsExist;
      CountedOfNext(before, f);
      if counting && code == OK {
        table.UpdateStats(header, payload[..header.len], true);
      }
    }

    /** pr_process_message() */
    method ProcessMessage() returns (code: Code)
      requires Idle() && Tallied()
      modifies this, conn, buffer, payload, table`counted, table.cells
      ensures Valid() && due == [] && Tallied() && whole >= old(whole) && (old(passed) ==> passed)
      ensures code == OK || code == BadValue || code == Errno(conn.errno) || code == Spins
      ensures code == OK || code == BadValue ==> Idle() && (whole > old(whole) || (passed && !old(passed)))
      ensures code == Spins ==> Idle() && passed
      ensures code.Errno? ==> conn.errno != 0 && |Rest()| < HEADER_SIZE
    {
      hide *;
      var short;
      code, short := NextHeader();
      if code != OK {
        return;
      }
      CellExists(short);
      ghost var before := got;
      ghost var f := FinishFrame(short);
      code := DeliverFrame(f);
      Count(f, before, code);
      IdleIs();
    }

    lemma IdleIs()
      requires Idle()
      ensures Valid() && due == []
    {
    }

    lemma AllIsDelivered()
      requires Valid() && due == [] && (passed || (conn.errno != 0 && |Rest()| < HEADER_SIZE))
      ensures AllComplete(AllFrames(conn.stream, conn.errno))
      ensures got == AllFrames(conn.stream, conn.errno) && log == Delivered(conn.stream, conn.errno)
      ensures passed <==> conn.errno == 0
    {
      ReceivedAll(conn.stream, capacity, conn.errno, whole, passed, got, log);
    }

    /** The serving loop, to the end of the connection: what has been delivered
        is a function of the bytes that have arrived and of errno, however recv()
        has cut them. With an errno of 0 the loop never gets there. */
    method StartServing() returns (code: Code)
      requires Idle() && Tallied()
      modifies this, conn, buffer, payload, table`counted, table.cells
      ensures Valid() && Tallied()
      ensures code == if conn.errno == 0 then Spins else Errno(conn.errno)
      ensures AllComplete(AllFrames(conn.stream, conn.errno))
      ensures got == AllFrames(conn.stream, conn.errno) && log == Delivered(conn.stream, conn.errno)
    {
      hide Received, AllFrames, Delivered;
      code := OK;
      while code == OK || code == BadValue
        invariant Valid() && due == [] && Tallied()
        invariant code == OK || code == BadValue || code == Errno(conn.errno) || code == Spins
        invariant code == OK || code == BadValue ==> Idle()
        invariant code == Spins ==> Idle() && passed
        invariant code.Errno? ==> conn.errno != 0 && |Rest()| < HEADER_SIZE
        decreases |conn.stream| - whole, if passed then 0 else 1, if code == OK || code == BadValue then 1 else 0
      {
        code := ProcessMessage();
      }
      AllIsDelivered();
    }
  }
}
