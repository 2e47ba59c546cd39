/** The compressing proxies of lz4tcp_th_proxy.c. */
module CompressingProxy {
  import opened Words
  import opened Commands
  import opened Frames
  import opened Batching
  import opened Compression
  import opened CompressionCases
  import opened CompressedStreams
  import opened CompressedCuts
  import opened Cuts
  import opened Sockets
  import opened Conservation

  class Sender {
    /** What the kernel will answer, call by call. */
    const answers: seq<Answer>
    const codec: Codec
    const socket: OutSocket

    var next: nat

    /** td_header, td_payload, td_comp_pl */
    var header: Header
    var payload: seq<byte>
    var compressed: seq<byte>

    /** Between two calls of the kernel, the connection has taken the frames of all answers so far. */
    ghost predicate Valid()
      reads this, socket
    {
      && next <= |answers| && AllOffered(answers) && AllOffered(answers[..next])
      && socket.queued == [] && socket.sent == Wire(FramesOf(codec, answers[..next]))
    }

    constructor (answers: seq<Answer>, codec: Codec)
      requires AllOffered(answers)
      ensures Valid() && this.answers == answers && this.codec == codec && next == 0 && fresh(socket)
    {
      this.answers, this.codec := answers, codec;
      socket := new OutSocket();
      next := 0;
      header, payload, compressed := BLANK, [], [];
    }

    /** ps_send_header(), which clears the two sequence numbers */
    method SendHeader()
      requires Encode(header.(sndSeq := 0, ackSeq := 0)) <= socket.queued
      modifies this`header, socket
      ensures header == old(header).(sndSeq := 0, ackSeq := 0)
      ensures socket.sent == old(socket.sent) + Encode(header)
      ensures socket.queued == old(socket.queued)[HEADER_SIZE..]
    {
      hide Encode;
      header := header.(sndSeq := 0);
      header := header.(ackSeq := 0);
      socket.SendAll(Encode(header));
    }

    /** ps_send_payload() */
    method SendPayload(bytes: seq<byte>)
      requires 0 < header.len <= |bytes| && bytes[..header.len] == socket.queued
      modifies socket
      ensures socket.sent == old(socket.sent) + bytes[..header.len] && socket.queued == []
    {
      socket.SendAll(bytes[..header.len]);
    }

    /** The bytes that go out behind the header. */
    function Outgoing(): seq<byte>
      reads this
    {
      var bytes := if header.flags == CMD_LZ4_FLAG then compressed else payload;
      if 0 <= header.len <= |bytes| then bytes[..header.len] else []
    }

    /** The header says whether and how the payload is compressed. */
    method Compress() returns (code: Code)
      requires 0 <= header.len <= |payload|
      modifies this`header, this`compressed
      ensures var c := Command(old(header), payload[..old(header).len]);
        && code == (if Accepted(c) then OK else PackSize)
        && (code == OK ==>
              && header.(sndSeq := 0, ackSeq := 0) == Pack(codec, c).header
              && 0 <= header.len <= |if header.flags == CMD_LZ4_FLAG then compressed else payload|
              && Outgoing() == Pack(codec, c).payload)
    {
      if CarriesData(header) {
        if header.len == 0 {
          return PackSize;
        }
        compressed := codec.compress(payload[..header.len]);
        if |compressed| < header.len {
          header := header.(len := |compressed|);
          header := header.(flags := CMD_LZ4_FLAG);
        } else {
          header := header.(flags := 0);
        }
      } else if header.len != 0 {
        return PackSize;
      } else {
        header := header.(flags := 0);
      }
      code := OK;
    }

    /** Header and payload of the frame f, which the buffers hold. */
    method SendFrame(ghost f: Command)
      requires socket.queued == Bytes(f) && f.header == header.(sndSeq := 0, ackSeq := 0) && f.payload == Outgoing()
      requires 0 <= header.len <= |if header.flags == CMD_LZ4_FLAG then compressed else payload|
      modifies this`header, socket
      ensures socket.sent == old(socket.sent) + Bytes(f) && socket.queued == []
    {
      BytesAre(f);
      hide Encode, Bytes;
      SendHeader();
      if header.len > 0 {
        if header.flags == CMD_LZ4_FLAG {
          SendPayload(compressed);
        } else {
          SendPayload(payload);
        }
      }
    }

    /** ps_send_remote() */
    method SendRemote() returns (code: Code)
      requires 0 <= header.len <= |payload| && socket.queued == []
      modifies this`header, this`compressed, socket
      ensures socket.queued == []
      ensures var c := Command(old(header), payload[..old(header).len]);
        && code == (if Accepted(c) then OK else PackSize)
        && socket.sent == old(socket.sent) + if Accepted(c) then Bytes(Pack(codec, c)) else []
    {
      ghost var f := Pack(codec, Command(header, payload[..header.len]));
      hide Pack, Accepted, Bytes, Outgoing;
      code := Compress();
      if code == OK {
        socket.queued := Bytes(f);
        SendFrame(f);
      }
    }

    /** dvk_get2rmt(td_header, td_payload); the kernel leaves the payload buffer alone when it fails. */
    method Get() returns (code: Code)
      requires next <= |answers|
      modifies this`next, this`header, this`payload
      ensures next == if old(next) < |answers| then old(next) + 1 else old(next)
      ensures code == NotConn || old(next) < |answers|
      ensures old(next) < |answers| ==>
        match answers[old(next)]
        case Got(c) => code == OK && header == c.header && payload == c.payload
        case Failed(e, left) => code == e && header == left
    {
      code := NotConn;
      if next < |answers| {
        match answers[next] {
          case Got(c) => code, header, payload := OK, c.header, c.payload;
          case Failed(e, left) => code, header := e, left;
        }
        next := next + 1;
      }
    }

    /** The frames of the next answer are behind those of the others. */
    lemma FramesNext(n: nat)
      requires AllOffered(answers) && n < |answers|
      ensures AllOffered(answers[..n]) && AllOffered(answers[..n + 1]) && OfferedAnswer(answers[n], MAX_LEN)
      ensures Wire(FramesOf(codec, answers[..n + 1])) ==
        Wire(FramesOf(codec, answers[..n])) + Wire(FrameOf(codec, answers[n]))
    {
      assert answers[..n + 1][..n] == answers[..n];
      hide FrameOf, Wire;
      WireAppend(FramesOf(codec, answers[..n]), FrameOf(codec, answers[n]));
    }

    lemma OneFrame(f: Command)
      ensures Wire([f]) == Bytes(f) && Wire([]) == []
    {
      hide Bytes;
      assert Wire([f]) == Bytes(f) + [];
    }

    /** The kernel has answered, and its answer is not served yet. */
    ghost predicate Answered(code: Code)
      reads this, socket
    {
      && 0 < next <= |answers| && AllOffered(answers) && AllOffered(answers[..next - 1])
      && socket.queued == [] && socket.sent == Wire(FramesOf(codec, answers[..next - 1]))
      && match answers[next - 1]
         case Got(c) => code == OK && header == c.header && payload == c.payload
         case Failed(e, left) => code == e && header == left
    }

    /** The same call, with what it leaves to be done. */
    method Fetch() returns (code: Code)
      requires Valid()
      modifies this`next, this`header, this`payload
      ensures code == NotConn ==> Valid()
      ensures code != NotConn ==> Answered(code) && next == old(next) + 1
      ensures old(next) <= |answers|
      ensures RefusedAt(answers, old(next)) == if code == NotConn then next else RefusedAt(answers, next)
    {
      ghost var n := next;
      code := Get();
      if n < |answers| {
        FramesNext(n);
        if code == NotConn {
          ServeNothing(code);
        }
      }
    }

    /** EDVSTIMEDOUT */
    method ServeHello()
      requires Answered(TimedOut)
      modifies this`header, this`compressed, socket
      ensures Valid()
    {
      ghost var n := next - 1;
      FramesNext(n);
      HelloFrame(answers[n]);
      hide Wire, FramesOf, FrameOf, Pack, Accepted, AllOffered;
      header := header.(cmd := CMD_NONE);
      header := header.(len := 0);
      header := header.(rcode := 0);
      assert payload[..header.len] == [];
      hide *;
      var sent := SendRemote();
      ServedBy(n);
    }

    method ServeCommand()
      requires Answered(OK)
      modifies this`header, this`compressed, socket
      ensures Valid()
    {
      ghost var n := next - 1;
      FramesNext(n);
      CommandFrame(answers[n]);
      assert payload[..header.len] == payload;
      hide *;
      var sent := SendRemote();
      ServedBy(n);
    }

    lemma ServeNothing(code: Code)
      requires Answered(code) && code != OK && code != TimedOut
      ensures Valid()
    {
      ghost var n := next - 1;
      FramesNext(n);
      assert FrameOf(codec, answers[n]) == [] && Wire([]) == [];
      NothingAdded(Wire(FramesOf(codec, answers[..n])));
      hide Wire, FramesOf, FrameOf, AllOffered, OfferedAnswer;
    }

    lemma HelloFrame(a: Answer)
      requires OfferedAnswer(a, MAX_LEN) && a.Failed? && a.code.TimedOut?
      ensures var c := Alone(a.left.(cmd := CMD_NONE, len := 0, rcode := 0));
        Wire(FrameOf(codec, a)) == if Accepted(c) then Bytes(Pack(codec, c)) else []
    {
      OneFrame(PackHello(codec, a.left));
      hide Bytes, Wire, Pack;
    }

    lemma CommandFrame(a: Answer)
      requires OfferedAnswer(a, MAX_LEN) && a.Got?
      ensures a.command.header.len == |a.command.payload|
      ensures Wire(FrameOf(codec, a)) == if Accepted(a.command) then Bytes(Pack(codec, a.command)) else []
    {
      OneFrame(Pack(codec, a.command));
      hide Bytes, Wire, Pack;
    }

    lemma ServedBy(n: nat)
      requires n < |answers| && next == n + 1 && AllOffered(answers)
      requires AllOffered(answers[..next])
      requires socket.queued == [] && socket.sent == Wire(FramesOf(codec, answers[..next]))
      ensures Valid()
    {
    }

    /** ps_start_serving(): what goes out is a frame for each accepted command and
        each timeout, until the kernel is not connected. */
    method StartServing() returns (code: Code)
      requires Valid()
      modifies this, socket
      ensures code == NotConn && Valid() && old(next) <= |answers|
      ensures next == RefusedAt(answers, old(next))
    {
      while true
        invariant Valid() && old(next) <= |answers|
        invariant RefusedAt(answers, next) == RefusedAt(answers, old(next))
        decreases |answers| - next
      {
        ghost var n := next;
        code := Fetch();
        if code == NotConn {
          return;
        }
        if code == OK {
          ServeCommand();
        } else if code == TimedOut {
          ServeHello();
        } else {
          ServeNothing(code);
        }
      }
    }
  }

  class Receiver {
    const conn: InSocket
    const codec: Codec
    const capacity: nat

    /** The storage of *td_header and of td_comp_pl, which is never cleared. */
    const buffer: array<byte>
    const compressed: array<byte>

    var header: Header

    /** What dvk_put2lcl() has been given. */
    var log: seq<Command>

    /** What is to become of everything that the connection brings. */
    ghost const goal: Outcome

    ghost predicate Sound()
      reads conn
    {
      conn.Valid() && buffer.Length == HEADER_SIZE && compressed.Length == capacity && buffer != compressed
    }

    /** The bytes that are left. */
    ghost function Rest(): seq<byte>
      reads conn
    {
      if conn.taken <= |conn.stream| then conn.stream[conn.taken..] else []
    }

    /** Between two messages, the rest of the stream is still to be processed. */
    ghost predicate Valid()
      reads this, conn, compressed
    {
      && Sound() && Legible(Rest(), conn.errno, capacity)
      && goal == Then(Outcome(log, false), Process(codec, Rest(), conn.errno, compressed[..]))
    }

    /** A header has been received, and what belongs to it is still to be processed. */
    ghost predicate Begun()
      reads this, conn, compressed
    {
      && Sound() && Fits(header, capacity) && Legible(Remaining(header, Rest()), conn.errno, capacity)
      && goal == Then(Outcome(log, false),
                      Then(One(codec, header, Rest(), compressed[..]),
                           Process(codec, Remaining(header, Rest()), conn.errno,
                                   NextBuffer(header, Rest(), compressed[..]))))
    }

    /** The payload buffer has whatever content it was allocated with. */
    constructor (conn: InSocket, codec: Codec, content: seq<byte>)
      requires conn.Valid() && conn.taken == 0 && Legible(conn.stream, conn.errno, |content|)
      ensures Valid() && this.conn == conn && this.codec == codec && capacity == |content| && log == []
      ensures goal == Process(codec, conn.stream, conn.errno, content) && compressed[..] == content
      ensures fresh(buffer) && fresh(compressed)
    {
      this.conn, this.codec, this.capacity := conn, codec, |content|;
      buffer, compressed := new byte[HEADER_SIZE], new byte[|content|](i requires 0 <= i < |content| => content[i]);
      header, log := BLANK, [];
      goal := Process(codec, conn.stream, conn.errno, content);
      new;
      assert compressed[..] == content;
      assert conn.stream[0..] == conn.stream && [] + goal.log == goal.log;
      hide Process, Legible;
    }

    /** The bytes of a header, filled up with zeros if there are not as many. */
    method ReadHeader() returns (short: bool)
      requires Sound()
      modifies this`header, conn, buffer
      ensures Sound()
      ensures short <==> old(|Rest()|) < HEADER_SIZE
      ensures header == Decode(if short then Filled(old(Rest()), HEADER_SIZE) else old(Rest())[..HEADER_SIZE])
      ensures Rest() == if short then [] else old(Rest())[HEADER_SIZE..]
    {
      hide Decode;
      forall i | 0 <= i < HEADER_SIZE {
        buffer[i] := 0;
      }
      ghost var rest := Rest();
      label Cleared:
      var n := conn.ReceiveAll(buffer, HEADER_SIZE);
      short := n < HEADER_SIZE;
      forall i | n <= i < HEADER_SIZE
        ensures buffer[i] == 0
      {
        assert old@Cleared(buffer[i]) == 0;
        assert buffer[i] == buffer[n..][i - n] == old@Cleared(buffer[n..])[i - n];
      }
      assert buffer[..n] == rest[..n];
      assert buffer[..] == buffer[..n] + Zeros(HEADER_SIZE - n);
      assert if short then rest[..n] == rest else buffer[..] == buffer[..n];
      assert buffer[..] == if short then Filled(rest, HEADER_SIZE) else rest[..HEADER_SIZE];
      header := Decode(buffer[..]);
    }

    /** What the header that is found makes of the rest of the stream. */
    lemma HeaderIsFound(rest: seq<byte>, content: seq<byte>)
      requires Legible(rest, conn.errno, |content|) && (|rest| < HEADER_SIZE ==> conn.errno == 0)
      ensures
        var h := Decode(if |rest| < HEADER_SIZE then Filled(rest, HEADER_SIZE) else rest[..HEADER_SIZE]);
        var behind := if |rest| < HEADER_SIZE then [] else rest[HEADER_SIZE..];
        && Fits(h, |content|) && Legible(Remaining(h, behind), conn.errno, |content|)
        && Process(codec, rest, conn.errno, content) ==
             Then(One(codec, h, behind, content),
                  Process(codec, Remaining(h, behind), conn.errno, NextBuffer(h, behind, content)))
    {
      if |rest| < HEADER_SIZE {
        var h := Decode(Filled(rest, HEADER_SIZE));
        NothingArrives(codec, conn.errno, NextBuffer(h, [], content));
        ThenNothing(One(codec, h, [], content));
        assert Remaining(h, []) == [];
      }
      hide Decode, Filled, One, Fits;
    }

    lemma NothingIsFound(rest: seq<byte>, content: seq<byte>)
      requires |rest| < HEADER_SIZE && conn.errno != 0
      ensures Legible(rest, conn.errno, |content|) && Legible([], conn.errno, |content|)
      ensures Process(codec, rest, conn.errno, content) == Outcome([], false)
      ensures Then(Outcome(log, false), Outcome([], false)) == Outcome(log, false)
    {
      NothingAdded(log);
    }

    lemma NoHeader()
      ensures Decode(Filled([], HEADER_SIZE)).cmd == CMD_NONE
    {
      ClearedHeader();
      assert Filled([], HEADER_SIZE) == Zeros(HEADER_SIZE);
      hide Decode;
    }

    /** pr_receive_header() */
    method ReceiveHeader() returns (code: Code, short: bool)
      requires Valid()
      modifies this`header, conn, buffer
      ensures short <==> old(|Rest()|) < HEADER_SIZE
      ensures code == if short && conn.errno != 0 then Errno(conn.errno) else OK
      ensures if code == OK then Begun() else goal == Outcome(log, false)
      ensures Sound() && (short ==> Rest() == []) && (!short ==> |Rest()| < old(|Rest()|))
      ensures old(|Rest()|) == 0 ==> header.cmd == CMD_NONE
    {
      ghost var rest, content := Rest(), compressed[..];
      NoHeader();
      hide Decode, Filled, Process, Legible, One, NextBuffer, Remaining, Fits, Then;
      if |rest| < HEADER_SIZE && conn.errno != 0 {
        NothingIsFound(rest, content);
      } else {
        HeaderIsFound(rest, content);
      }
      short := ReadHeader();
      assert compressed[..] == content;
      assert |rest| == 0 ==> rest == [];
      code := if short && conn.errno != 0 then Errno(conn.errno) else OK;
    }

    /** A header without a command stands for nothing. */
    lemma SkipHeader()
      requires Begun() && header.cmd == CMD_NONE
      ensures Valid()
    {
      ghost var p := Process(codec, Rest(), conn.errno, compressed[..]);
      assert Remaining(header, Rest()) == Rest() && NextBuffer(header, Rest(), compressed[..]) == compressed[..];
      hide Process, Legible;
      assert [] + p.log == p.log;
    }

    /** At the end of the connection there is nothing more to come. */
    lemma NoMore()
      requires Valid() && Rest() == []
      ensures goal == Outcome(log, false)
    {
      NothingArrives(codec, conn.errno, compressed[..]);
      ThenNothing(Outcome(log, false));
      hide Process, Legible;
    }

    /** The loop over headers without a command, which goes round for ever once the
        end of the connection is passed over. */
    method NextHeader() returns (code: Code)
      requires Valid()
      modifies this`header, conn, buffer
      ensures code == OK || (code == if conn.errno == 0 then Spins else Errno(conn.errno))
      ensures if code == OK then Begun() && header.cmd != CMD_NONE else goal == Outcome(log, false)
      ensures Sound() && |Rest()| <= old(|Rest()|) && (code == OK ==> |Rest()| < old(|Rest()|))
    {
      hide Process, Legible, One, NextBuffer, Remaining, Fits, Then, Begun;
      code := OK;
      while true
        invariant Valid() && |Rest()| <= old(|Rest()|)
        decreases |Rest()|
      {
        var short;
        code, short := ReceiveHeader();
        if code != OK || header.cmd != CMD_NONE {
          break;
        }
        SkipHeader();
        if short {
          NoMore();
          code := Spins;
          break;
        }
      }
    }

    /** pr_receive_payload() */
    method ReceivePayload(size: nat)
      requires Sound() && 0 < size <= capacity
      modifies conn, compressed
      ensures Sound() && compressed[..] == Overwritten(old(compressed[..]), old(Rest()), size)
      ensures Rest() == if old(|Rest()|) >= size then old(Rest())[size..] else []
    {
      ghost var rest, before := Rest(), compressed[..];
      var n := conn.ReceiveAll(compressed, size);
      assert compressed[..n] == rest[..n] && compressed[n..] == before[n..];
      assert compressed[..] == compressed[..n] + compressed[n..];
    }

    /** dvk_put2lcl() */
    method PutToLocal(h: Header, bytes: seq<byte>)
      modifies this`log
      ensures log == old(log) + [Command(h, bytes)]
    {
      log := log + [Command(h, bytes)];
    }

    /** The message f is in the buffers, and still to be delivered. */
    ghost predicate Makes(f: Command)
      reads this, conn, compressed
    {
      && Sound() && Legible(Rest(), conn.errno, capacity)
      && goal == Then(Outcome(log, false), Then(Made(codec, f), Process(codec, Rest(), conn.errno, compressed[..])))
    }

    /** It has been delivered. */
    lemma MessageIsDone(before: seq<Command>, o: Outcome)
      requires Sound() && Legible(Rest(), conn.errno, capacity) && !o.exits && log == before + o.log
      requires goal == Then(Outcome(before, false), Then(o, Process(codec, Rest(), conn.errno, compressed[..])))
      ensures Valid()
    {
      Associates(before, o.log, Process(codec, Rest(), conn.errno, compressed[..]).log);
      hide Process, Legible;
    }

    lemma MessageExits(f: Command)
      requires Makes(f) && Made(codec, f) == Outcome([], true)
      ensures goal == Outcome(log, true)
    {
      NothingAdded(log);
      hide Process, Legible, Made;
    }

    lemma DataParts()
      requires Begun() && CarriesData(header) && header.len > 0 && header.cmd != CMD_NONE
      ensures Sound() && header.len <= capacity
      ensures var b := Overwritten(compressed[..], Rest(), header.len);
        && One(codec, header, Rest(), compressed[..]) == Made(codec, Command(header, b[..header.len]))
        && NextBuffer(header, Rest(), compressed[..]) == b
      ensures Remaining(header, Rest()) == if |Rest()| >= header.len then Rest()[header.len..] else []
    {
      hide Process, Legible, Then, Made, Overwritten;
    }

    method ReceiveData()
      requires Begun() && CarriesData(header) && header.len > 0
      modifies conn, compressed
      ensures Sound() && 0 < header.len <= capacity == compressed.Length && |Rest()| <= old(|Rest()|)
      ensures Makes(Command(header, compressed[..header.len]))
    {
      DataParts();
      hide Process, Legible, Then, Made, Overwritten, One, NextBuffer, Remaining, Fits;
      ReceivePayload(header.len);
    }

    lemma DataMakes(f: Command)
      requires CarriesData(f.header) && f.payload != []
      ensures var raw := codec.decompress(f.payload);
        Made(codec, f) ==
          if f.header.flags != CMD_LZ4_FLAG then Outcome([f], false)
          else if |raw| != f.header.vBytes then Outcome([], true)
          else Outcome([Command(f.header.(len := f.header.vBytes), raw)], false)
    {
    }

    lemma MakesParts(f: Command)
      requires Makes(f)
      ensures Sound() && Legible(Rest(), conn.errno, capacity)
      ensures goal ==
        Then(Outcome(log, false), Then(Made(codec, f), Process(codec, Rest(), conn.errno, compressed[..])))
    {
    }

    /** The payload of a data command; the program exits if it does not decompress
        to the length that the header says. */
    method DeliverData() returns (code: Code)
      requires CarriesData(header) && 0 < header.len <= compressed.Length
      requires Makes(Command(header, compressed[..header.len]))
      modifies this`header, this`log
      ensures code == OK || code == Exits
      ensures if code == OK then Valid() else goal == Outcome(log, true)
    {
      ghost var f, before := Command(header, compressed[..header.len]), log;
      hide *;
      DataMakes(f);
      MakesParts(f);
      if header.flags == CMD_LZ4_FLAG {
        var raw := codec.decompress(compressed[..header.len]);
        if |raw| != header.vBytes {
          MessageExits(f);
          return Exits;
        }
        header := header.(len := |raw|);
        PutToLocal(header, raw);
      } else {
        PutToLocal(header, compressed[..header.len]);
      }
      MessageIsDone(before, Made(codec, f));
      code := OK;
    }

    lemma NoDataParts()
      requires Begun() && header.cmd != CMD_NONE && (CarriesData(header) ==> header.len <= 0)
      ensures Sound() && Legible(Rest(), conn.errno, capacity)
      ensures goal == Then(Outcome(log, false),
        Then(Outcome([Command(header, [])], false), Process(codec, Rest(), conn.errno, compressed[..])))
    {
      assert Remaining(header, Rest()) == Rest() && NextBuffer(header, Rest(), compressed[..]) == compressed[..];
      assert One(codec, header, Rest(), compressed[..]) == Outcome([Command(header, [])], false);
      hide Process, Legible, Then;
    }

    /** pr_process_message() */
    method ProcessMessage() returns (code: Code)
      requires Valid()
      modifies this`header, this`log, conn, buffer, compressed
      ensures if code == OK then Valid() && |Rest()| < old(|Rest()|) else goal == Outcome(log, code == Exits)
      ensures code == OK || code == Exits || (code == if conn.errno == 0 then Spins else Errno(conn.errno))
      ensures Sound() && |Rest()| <= old(|Rest()|)
    {
      hide *;
      code := NextHeader();
      if code == OK {
        if CarriesData(header) && header.len > 0 {
          ReceiveData();
          code := DeliverData();
        } else {
          ghost var before := log;
          NoDataParts();
          PutToLocal(header, []);
          MessageIsDone(before, Outcome([Command(header, [])], false));
        }
      }
    }

    lemma ValidParts()
      requires Valid()
      ensures Sound()
    {
    }

    /** The serving loop, to the end of the connection or of the program: the log is
        a function of the bytes that have arrived, of errno and of what the buffer
        held at first. */
    method StartServing() returns (code: Code)
      requires Valid()
      modifies this`header, this`log, conn, buffer, compressed
      ensures log == goal.log
      ensures code == if goal.exits then Exits else if conn.errno == 0 then Spins else Errno(conn.errno)
    {
      code := OK;
      hide *;
      ValidParts();
      while code == OK
        invariant Sound()
        invariant if code == OK then Valid() else goal == Outcome(log, code == Exits)
        invariant code == OK || code == Exits || (code == if conn.errno == 0 then Spins else Errno(conn.errno))
        decreases |Rest()|, if code == OK then 1 else 0
      {
        code := ProcessMessage();
      }
    }
  }

  /** The sender, from the connection to the kernel's refusal. */
  method Send(answers: seq<Answer>, codec: Codec) returns (sender: Sender)
    requires AllOffered(answers)
    ensures fresh(sender) && sender.Valid() && sender.answers == answers && sender.codec == codec
    ensures sender.next == RefusedAt(answers, 0)
  {
    hide *;
    sender := new Sender(answers, codec);
    var code := sender.StartServing();
  }

  /** The receiver, to the end of the connection or of the program. */
  method Receive(stream: seq<byte>, codec: Codec, errno: int, content: seq<byte>) returns (log: seq<Command>)
    requires Legible(stream, errno, |content|)
    ensures log == Process(codec, stream, errno, content).log
  {
    hide *;
    var conn := new InSocket(stream, errno);
    var receiver := new Receiver(conn, codec, content);
    var code := receiver.StartServing();
    log := receiver.log;
  }

  predicate AllFit(answers: seq<Answer>, capacity: nat) {
    forall i | 0 <= i < |answers| :: OfferedAnswer(answers[i], capacity)
  }

  /** What has been sent can be received. */
  lemma SentIsReceivable(sender: Sender, capacity: nat)
    requires sender.Valid() && Lossless(sender.codec) && capacity <= MAX_LEN && AllFit(sender.answers, capacity)
    ensures sender.next <= |sender.answers| && AllOffered(sender.answers[..sender.next])
    ensures var frames := FramesOf(sender.codec, sender.answers[..sender.next]);
      AllReceivable(sender.codec, frames, capacity) && sender.socket.sent == Wire(frames)
  {
    hide OfferedAnswer, AllReceivable, Wire, FramesOf;
    FramesAreReceivable(sender.codec, sender.answers[..sender.next], capacity);
  }

  /** A run of both proxies, from the connection to the kernel's first refusal: if
      the codec is lossless, and makes nothing of no payload, the accepted commands are
      delivered, in order and restored; and if it does make nothing of one, they are not. */
  method Transfer(answers: seq<Answer>, codec: Codec, content: seq<byte>, errno: int)
    returns (log: seq<Command>, next: nat)
    requires Lossless(codec) && |content| <= MAX_LEN && AllOffered(answers) && AllFit(answers, |content|)
    ensures next == RefusedAt(answers, 0) && AllOffered(answers[..next])
    ensures log == UnpackAll(codec, FramesOf(codec, answers[..next])) && |log| == |AcceptedOf(answers[..next])|
    ensures log == RestoredAll(codec, AcceptedOf(answers[..next])) <==> NoneVanishes(codec, AcceptedOf(answers[..next]))
    ensures var arriving := Arriving(answers[..next]);
      && |log| == |arriving|
      && ((forall i | 0 <= i < |log| :: ArrivesAs(codec, arriving[i], log[i])) <==> NoneIsLost(codec, arriving))
  {
    hide *;
    var sender := Send(answers, codec);
    next := sender.next;
    SentIsReceivable(sender, |content|);
    ProcessWire(codec, FramesOf(codec, answers[..next]), errno, content);
    RoundTrip(codec, answers[..next]);
    log := Receive(sender.socket.sent, codec, errno, content);
    LogIs(codec, answers[..next], log);
  }

  /** The connection breaks at any byte: every frame that has arrived as a whole is
      delivered, then what is made of the next one, if anything; and the log is a
      prefix of what should have arrived exactly if the cut is harmless. */
  method ReceiveUpTo(sender: Sender, k: nat, content: seq<byte>, errno: int) returns (log: seq<Command>)
    requires sender.Valid() && Lossless(sender.codec) && k <= |sender.socket.sent|
    requires |content| <= MAX_LEN && AllFit(sender.answers, |content|)
    ensures sender.next <= |sender.answers| && AllOffered(sender.answers[..sender.next])
    ensures var codec, frames := sender.codec, FramesOf(sender.codec, sender.answers[..sender.next]);
      && AllReceivable(codec, frames, |content|)
      && log == UnpackAll(codec, frames[..WholeIn(frames, k)]) + LastOfAll(codec, frames, k, errno, content).log
      && AtMostOneMore(UnpackAll(codec, frames[..WholeIn(frames, k)]), log)
      && (log <= UnpackAll(codec, frames) <==> Harmless(codec, frames, k, errno, content))
    ensures var codec, accepted := sender.codec, AcceptedOf(sender.answers[..sender.next]);
      NoneVanishes(codec, accepted) ==>
        (log <= RestoredAll(codec, accepted) <==>
           Harmless(codec, FramesOf(codec, sender.answers[..sender.next]), k, errno, content))
  {
    hide *;
    SentIsReceivable(sender, |content|);
    ghost var frames := FramesOf(sender.codec, sender.answers[..sender.next]);
    ProcessCut(sender.codec, frames, k, errno, content);
    CutIsPrefix(sender.codec, frames, k, errno, content);
    RoundTrip(sender.codec, sender.answers[..sender.next]);
    log := Receive(sender.socket.sent[..k], sender.codec, errno, content);
  }
}
