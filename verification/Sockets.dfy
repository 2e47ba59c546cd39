/** The loops around send() and recv(), which may take or bring any positive
    number of the bytes that are left. */
module Sockets {
  import opened Words

  class OutSocket {
    /** Everything the connection has taken. */
    var sent: seq<byte>

    /** What it has yet to take of the frames whose sending has begun. */
    ghost var queued: seq<byte>

    constructor ()
      ensures sent == [] && queued == []
    {
      sent, queued := [], [];
    }

    /** send() */
    method Send(bytes: seq<byte>) returns (n: nat)
      requires bytes != [] && bytes <= queued
      modifies this
      ensures 1 <= n <= |bytes|
      ensures sent == old(sent) + bytes[..n] && queued == old(queued)[n..]
    {
      n :| 1 <= n <= |bytes|;
      sent := sent + bytes[..n];
      queued := queued[n..];
    }

    /** The loop of ps_send_header() and ps_send_payload(): after any cutting into
        pieces, the connection has taken exactly these bytes. After each piece,
        what was taken and what is queued make up the same stream. */
    method SendAll(bytes: seq<byte>)
      requires bytes <= queued
      modifies this
      ensures sent == old(sent) + bytes && queued == old(queued)[|bytes|..]
      ensures sent + queued == old(sent + queued)
    {
      var done, left := 0, |bytes|;
      while done < |bytes|
        invariant 0 <= done <= |bytes| && done + left == |bytes|
        invariant sent == old(sent) + bytes[..done] && queued == old(queued)[done..]
        invariant sent + queued == old(sent + queued)
        decreases left
      {
        assert old(queued)[done..][..left] == bytes[done..];
        var n := Send(bytes[done..]);
        done := done + n;
        left := left - n;
      }
      assert bytes[..done] == bytes;
    }
  }

  /** n more bytes behind the first ones. */
  lemma KeepsWhatWasReceived(before: seq<byte>, after: seq<byte>, received: nat, n: nat)
    requires |after| == |before| && received + n <= |before|
    requires after[..received] == before[..received] && after[received + n..] == before[received + n..]
    ensures after[..received + n] == before[..received] + after[received..received + n]
    ensures after[received + n..] == before[received..][n..]
  {
  }

  class InSocket {
    /** Everything that arrives before the connection ends. */
    const stream: seq<byte>

    /** What errno is when recv() returns 0; a recv() that returns 0 does not set it. */
    const errno: int

    /** How much of it recv() has returned. */
    var taken: nat

    ghost predicate Valid()
      reads this
    {
      taken <= |stream|
    }

    constructor (stream: seq<byte>, errno: int)
      ensures Valid() && this.stream == stream && this.errno == errno && taken == 0
    {
      this.stream, this.errno := stream, errno;
      taken := 0;
    }

    /** recv(); it returns 0 at the end of the connection only. */
    method Recv(buffer: array<byte>, at: nat, size: nat) returns (n: nat)
      requires Valid() && 0 < size && at + size <= buffer.Length
      modifies this, buffer
      ensures Valid() && n <= size && taken == old(taken) + n
      ensures n == 0 <==> old(taken) == |stream|
      ensures buffer[..at] == old(buffer[..at]) && buffer[at..at + n] == stream[old(taken)..taken]
      ensures buffer[at + n..] == old(buffer[at + n..])
    {
      var left := |stream| - taken;
      if left == 0 {
        n := 0;
      } else {
        n :| 1 <= n <= left && n <= size;
        forall i | 0 <= i < n {
          buffer[at + i] := stream[taken + i];
        }
        taken := taken + n;
      }
    }

    /** The loop of pr_receive_header() and pr_receive_payload(): it stops when
        the buffer has the bytes that were asked for or the connection ends. */
    method ReceiveAll(buffer: array<byte>, size: nat) returns (received: nat)
      requires Valid() && 0 < size <= buffer.Length
      modifies this, buffer
      ensures Valid() && taken == old(taken) + received
      ensures received == if |stream| - old(taken) < size then |stream| - old(taken) else size
      ensures buffer[..received] == stream[old(taken)..taken]
      ensures buffer[received..] == old(buffer[received..])
    {
      received := 0;
      while true
        invariant Valid() && taken == old(taken) + received && received < size
        invariant buffer[..received] == stream[old(taken)..taken]
        invariant buffer[received..] == old(buffer[received..])
        decreases size - received
      {
        ghost var before := buffer[..];
        var n := Recv(buffer, received, size - received);
        KeepsWhatWasReceived(before, buffer[..], received, n);
        assert stream[old(taken)..taken] == stream[old(taken)..taken - n] + stream[taken - n..taken];
        if n == 0 {
          break;
        }
        received := received + n;
        if received >= size {
          break;
        }
      }
    }
  }
}
