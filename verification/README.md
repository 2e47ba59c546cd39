# Verified models of the coroutines, the MD5 library and the proxies

Three components of the repository carry real state: the `picoro` coroutines,
the incremental MD5 library, and the proxies that carry commands between
nodes. This project models each of them and proves what it is for.

**MD5** (`Words`, `Rfc1321`, `BitVectors`, `Md5TestSuite`, `Md5Rounds`, `Md5`,
`Md5Hex`). `Rfc1321` is a short, table-driven reading of sections 3.1 to 3.5 of
RFC 1321. `BitVectors` shows that its steps are those of 32-bit vectors, and
`Md5TestSuite` works out two digests of the RFC's test suite, literally and step
by step, with the constants of its reference implementation. `Md5Rounds`
has the 64 unrolled steps with their rewritten functions and rotated
registers, and `Md5.Context` the structure that is updated in place: a 128-byte
buffer, lazy flushing, a two-word counter with a manual carry. The main result
is that the digest of any list of chunks is the RFC's digest of their
concatenation.

**picoro** (`PicoroMachine`, `PicoroStack`, `PicoroRuns`, `PicoroRefinement`,
`Picoro`). `PicoroMachine` is a machine on values with one transition for each
stretch of code between two jumps; a suspended context is a program point with
its live variables, and becomes stale when control passes through it.
`PicoroStack` is what callers should see: a stack of active coroutines and the
waiting ones. `Picoro.Scheduler` is the C code on heap nodes that share one
`next` pointer. Every call of user code on the heap is one step of the stack
machine, for every sequence of calls.

**Proxies.** `Commands` is the command header and its 168 bytes; `Frames` what
travels and what a receiver makes of a byte stream; `Sockets` the partial-send
and partial-receive loops. `Batching`, `Conservation`, `Rounds` and
`BatchSender` are the sender of `tcp_proxy_bat.c`, `Reception` and
`BatchReceiver` its receiver, and `EndToEnd` and `Cuts` what holds of both
together: at every step nothing is lost, doubled or reordered, and after a
whole run it is said exactly what has arrived and what has not. `Compression`,
`CompressedStreams`, `CompressedCuts` and `CompressingProxy` are the proxies of
`lz4tcp_th_proxy.c` for any codec. `RoundCases` and `CompressionCases` say in
numerals, without the terms of those modules, what goes out and what arrives in
each case. `Statistics` is the table of `lz4tcp_proxy_bat.c`, which both proxies
update where that program does, and `CountedRuns` what the two tables say after
a whole run. The kernel is the sequence of its answers and a log of what it was
given; the network is a byte stream; LZ4 is a pair of functions; `errno` is an
input.

Properties that one would expect and that are false of the code are proved
with their exact conditions:

- What was fetched arrives, in order and once each, if and only if it is the
  call that begins a round which is refused in the end. If the inner loop of
  `ps_start_serving` is told EDVSNOTCONN, the command that the round has begun with and
  the batch behind it stay in the buffers and are never sent
  (`EndToEnd.Transfer`, `Rounds.LastRoundIsLost`, with the example
  `EndToEnd.BatchMayBeLost`).
- The connection may break at any byte. `pr_receive_payload` takes the end of
  the connection for success, so a frame that is cut off in its payload is
  delivered with zeros in place of what is missing. Where `recv` returns 0 in a
  header, `pr_receive_header` returns `errno`; `recv` does not set it then, and
  the library calls leave it at 0, so a header that is cut off may be taken for
  a whole one. The delivered log is a prefix of what was fetched if and only if
  nothing but zeros is missing of a payload or, in a header, `errno` is not 0,
  nothing but zeros has arrived of the command code, or what has arrived is, with
  zeros behind it, the very command that was fetched (`Cuts.CutIsHarmless`,
  with the examples `Cuts.CutMayHarm` and `Cuts.HeaderCutMayHarm`). The
  receiver of `lz4tcp_proxy_bat.c` returns OK there, which is the same as an
  `errno` of 0.
- The receiver of `lz4tcp_th_proxy.c` does not clear its payload buffer: a
  payload that is cut off is delivered with what the buffer held before. The
  log is a prefix of what should arrive if and only if there is nothing of a
  next frame; or it is not delivered, because the end is noticed in its header,
  because nothing but zeros has arrived of its command code, or because the
  program exits when its data decompresses to a wrong length; or nothing but
  zeros is missing of its header, and the buffer has the bytes that are missing
  of its payload or, if that is compressed, such as decompress to the same data
  (`CompressedCuts.CutIsPrefix`, with the example
  `CompressedCuts.StaleDataMayHarm`).
- That compression does not matter is false of an arbitrary lossless codec: it
  may turn a payload into nothing, and the frame then looks like one without
  data. A command is restored if and only if that does not happen
  (`Compression.PackUnpack`, with the example `Compression.DataMayVanish`). A
  frame of LZ4 is never empty, and for such codecs every accepted command is
  restored (`Compression.AllRestored`).

What callers and the kernel must guarantee appears as `requires` clauses: the
sum of the buffered and the new bytes of one MD5 call does not wrap 32 bits;
hexadecimal digits are lower-case; `yield` is not called by the initial
coroutine, and only coroutines that `coroutine()` has returned are resumed; a fetched command is
not `CMD_NONE`, has no batch bit and no batch count, a length equal to that of
its payload, and no payload if it can be batched; nodes and data centers are
those of the table where frames are counted, and a header that a HELLO is made
of has no batch count there.

## Model

| member | source | states |
|---|---|---|
| `Words.BytesRoundTrip` | md5-1.3.0/md5.c:243-256 | a word stored with `memcpy` and read back is the same word |
| `Words.Choose` | md5-1.3.0/md5_loc.h:62 | the rewritten `FF` selects by bit as the RFC's F does, on all words |
| `Words.ChooseSwapped` | md5-1.3.0/md5_loc.h:63 | the rewritten `FG` selects by bit as the RFC's G does, on all words |
| `Words.BitCountIsTimesEight` | md5-1.3.0/md5.c:434-442 | the two appended words are the low 64 bits of eight times the two-word byte count |
| `Rfc1321.PaddedAligned` | md5-1.3.0/rfc1321.txt:105-131 | padding and length field make every message a whole number of blocks |
| `Rfc1321.PaddedIs` | md5-1.3.0/rfc1321.txt:105-131 | the message, a one, the fewest zeros that will do, and eight bytes that are the length in bits modulo 2^64, low-order byte first |
| `Rfc1321.CompressAllAppend` | md5-1.3.0/rfc1321.txt:145-230 | the blocks of a message are a left fold: compressing in two goes is compressing in one |
| `BitVectors.PlusIsAdd` | md5-1.3.0/rfc1321.txt:85-86 | sums of words are sums of 32-bit vectors, for all words |
| `BitVectors.StepIs` | md5-1.3.0/rfc1321.txt:165-230 | a step on words is the step on bit-vectors, in which the four functions are written out |
| `Md5TestSuite.Round0` | md5-1.3.0/rfc1321.txt:587-603 | round 1 of the reference implementation, written out with its word indices, constants and shifts, is round 1 of section 3.4 |
| `Md5TestSuite.Round1` | md5-1.3.0/rfc1321.txt:605-621 | the same for round 2 |
| `Md5TestSuite.Round2` | md5-1.3.0/rfc1321.txt:623-639 | the same for round 3 |
| `Md5TestSuite.Round3` | md5-1.3.0/rfc1321.txt:641-657 | the same for round 4 |
| `Md5TestSuite.EmptyDigest` | md5-1.3.0/rfc1321.txt:966 | the digest of the empty message is d41d8cd98f00b204e9800998ecf8427e, as sixteen literal bytes |
| `Md5TestSuite.LettersAndDigitsDigest` | md5-1.3.0/rfc1321.txt:971-972 | the digest of the 62 letters and digits, two blocks, is d174ab98d277d9f5a5611c2c9f419d9f |
| `Md5Rounds.FFIsF` | md5-1.3.0/md5_loc.h:62 | `FF` is the function F of RFC 1321 |
| `Md5Rounds.FGIsG` | md5-1.3.0/md5_loc.h:63 | `FG` is the function G |
| `Md5Rounds.CyclicIsRotation` | md5-1.3.0/md5_loc.h:73 | `CYCLIC` with each shift that is used is a left rotation |
| `Md5Rounds.Accumulate` | md5-1.3.0/md5_loc.h:84-105 | the order in which the macros add up makes no difference to the RFC's operation |
| `Md5Rounds.Op1` | md5-1.3.0/md5_loc.h:84-93 | one step of round 1, which also fetches and keeps a word of the block |
| `Md5Rounds.Op234` | md5-1.3.0/md5_loc.h:100-105 | one step of rounds 2 to 4, with the word that was kept |
| `Md5Rounds.Round1` | md5-1.3.0/md5.c:134-150 | sixteen unrolled steps with rotated registers are round 1, and all words are kept |
| `Md5Rounds.Round2` | md5-1.3.0/md5.c:152-168 | the same for round 2 |
| `Md5Rounds.Round3` | md5-1.3.0/md5.c:170-186 | the same for round 3 |
| `Md5Rounds.Round4` | md5-1.3.0/md5.c:188-204 | the same for round 4 |
| `Md5Rounds.CompressBlock` | md5-1.3.0/md5.c:118-211 | the 64 unrolled steps and the final additions are the compression function of section 3.4 |
| `Md5.CompressBlocks` | md5-1.3.0/md5.c:114-217 | n blocks in one call are the left fold of that function |
| `Md5.CountWithCarry` | md5-1.3.0/md5.c:106-109 | the manual carry adds to the two-word count modulo 2^64 |
| `Md5.CountWithoutCarry` | md5-1.3.0/md5.c:110-112 | so does the branch without it |
| `Md5.PaddedParts` | md5-1.3.0/md5.c:392-445 | compressed bytes, buffered bytes, 0x80, zeros and length words are the padded message |
| `Md5.Context.constructor` | md5-1.3.0/md5.c:281-291 | a new context stands for the empty input |
| `Md5.Context.Init` | md5-1.3.0/md5.c:281-291 | so does a used one after `md5_init` |
| `Md5.Context.CountBytes` | md5-1.3.0/md5.c:100-112 | the counter is the byte count modulo 2^64 before and after |
| `Md5.Context.ProcessBlock` | md5-1.3.0/md5.c:84-218 | the registers are the fold over everything compressed so far |
| `Md5.Context.FlushBuffer` | md5-1.3.0/md5.c:340-347 | whole blocks leave the buffer, the rest moves to its front without overlap, the input stays |
| `Md5.Context.FillBuffer` | md5-1.3.0/md5.c:324-350 | the buffer is topped up within its 128 bytes and flushed only when it holds more than a block |
| `Md5.Context.Process` | md5-1.3.0/md5.c:316-365 | the context stands for the input so far followed by the new data; the buffer then keeps an exact number of bytes, 64 at most |
| `Md5.Context.StorePad` | md5-1.3.0/md5.c:407-428 | 0x80 and zeros for every buffered length from 0 to 64, 56 and 64 included |
| `Md5.Context.StoreLength` | md5-1.3.0/md5.c:430-442 | the two words of the bit count follow what is in the buffer |
| `Md5.Context.AppendPadding` | md5-1.3.0/md5.c:386-445 | what was compressed and what the buffer then holds is the padded input |
| `Md5.Context.Finish` | md5-1.3.0/md5.c:386-447 | the signature is the RFC's digest of the input |
| `Md5.Context.GetResult` | md5-1.3.0/md5.c:238-257 | the registers are written low-order byte first, and nothing else |
| `Md5.DigestBuffer` | md5-1.3.0/md5.c:470-483 | the one-call digest of every buffer of an `unsigned int` length is the RFC's digest, of which `Md5TestSuite` has two literal values |
| `Md5.DigestChunks` | md5-1.3.0/md5_t.c:71-85 | for every list of chunks whose lengths do not wrap together with what is buffered, the digest is that of the concatenation, so any two cuttings agree |
| `Md5Hex.HexRoundTrip` | md5-1.3.0/md5.c:506-568 | reading back what was printed gives the same bytes |
| `Md5Hex.StringRoundTrip` | md5-1.3.0/md5.c:506-568 | printing what was read gives the same lower-case digits |
| `Md5Hex.ToHexAt` | md5-1.3.0/md5.c:515-526 | each byte gives two characters, the codes of 0 to 9 and of a to f, the high half first |
| `Md5Hex.SigToString` | md5-1.3.0/md5.c:506-531 | prints as many bytes as fit, in lower-case digits by their codes, then a terminator if that fits, and touches nothing behind, for every length |
| `Md5Hex.SigFromString` | md5-1.3.0/md5.c:552-568 | reads 32 digits into 16 bytes |
| `PicoroMachine.ResumableMeansParked` | doc/MUK coroutines/picoro.c:33-39 | for every coroutine that callers know, the NULL test on `next` holds exactly when it is on neither list |
| `PicoroMachine.BeginKeepsInv` | doc/MUK coroutines/picoro.c:72-97 | every call of user code keeps the invariant of lists and program points up to its first jump |
| `PicoroMachine.LandKeepsInv` | doc/MUK coroutines/picoro.c:64-70 | every jump goes to a context saved since it was last used, and keeps the invariant |
| `PicoroMachine.InitialInv` | doc/MUK coroutines/picoro.c:28-31 | the program starts in it |
| `PicoroStack.RunIsWellFormed` | doc/MUK coroutines/picoro.c:13-27 | in the stack machine a coroutine is in one place only and `first` is at the bottom |
| `PicoroStack.ResumeMatches` | doc/MUK coroutines/picoro.c:72-80 | what the resumed coroutine yields or returns is what the innermost matching `resume` returns, and control is back with the resumer |
| `PicoroStack.YieldMatches` | doc/MUK coroutines/picoro.c:72-80 | a value given to `resume` is what the pending `yield` of that coroutine returns, however long it was pending |
| `PicoroStack.CreateMatches` | doc/MUK coroutines/picoro.c:93-97 | the first `resume` of a new coroutine enters the function it was created with |
| `PicoroStack.ParkedIsKept` | doc/MUK coroutines/picoro.c:33-39 | a waiting coroutine waits until it is resumed |
| `PicoroStack.ReturnedIsGone` | doc/MUK coroutines/picoro.c:122-127 | a coroutine whose function has returned is nowhere, and cannot be resumed, until `coroutine` gives it out again |
| `PicoroRuns.RunToUser` | doc/MUK coroutines/picoro.c:133-145 | jumping always gets back to user code or stops at the assertion |
| `PicoroRuns.ServeFromTail` | doc/MUK coroutines/picoro.c:133-143 | the tail of `idle` forks the next tail before it serves its creator |
| `PicoroRuns.CreateOutcome` | doc/MUK coroutines/picoro.c:93-97 | what `coroutine` leaves behind in its three cases: none forked yet, only the tail unused, others to recycle |
| `PicoroRefinement.Refines` | doc/MUK coroutines/picoro.c:64-97 | every call is the stack machine's step, and the assertion in `resume` stops exactly what that machine refuses |
| `PicoroRefinement.RunRefines` | doc/MUK coroutines/picoro.c:64-145 | every run is a run of the stack machine |
| `PicoroRefinement.ListsAndPoints` | doc/MUK coroutines/picoro.c:16-31 | whenever user code runs after a call of `coroutine`, the lists are disjoint, `running` ends in `first`, `idle` is not empty, and each of the five places goes with its program point, both ways |
| `PicoroRefinement.ExposedAreReturned` | doc/MUK coroutines/picoro.c:19-23 | the exposed coroutines are exactly those that `coroutine` has returned: neither `first` nor the idle tail |
| `PicoroRefinement.StacksArePartitioned` | doc/MUK coroutines/picoro.c:28-31 | every stack is running, idle or waiting |
| `PicoroRefinement.ForkedIsMaxLive` | doc/MUK coroutines/picoro.c:93-97 | the number of stacks ever forked is one plus the largest number of coroutines live at once, and zero as long as there is none |
| `Picoro.PushedNext` | doc/MUK coroutines/picoro.c:44-47 | putting a coroutine on a list changes its own `next` only |
| `Picoro.PoppedNext` | doc/MUK coroutines/picoro.c:52-57 | taking the head off clears its `next` only |
| `Picoro.Scheduler.Push` | doc/MUK coroutines/picoro.c:44-47 | the heap's lists are the machine's lists afterwards |
| `Picoro.Scheduler.Pop` | doc/MUK coroutines/picoro.c:52-57 | the same for `pop` |
| `Picoro.Scheduler.Pass` | doc/MUK coroutines/picoro.c:64-70 | saves the context and the value |
| `Picoro.Scheduler.Resumable` | doc/MUK coroutines/picoro.c:37-39 | the test on the heap is the machine's |
| `Picoro.Scheduler.LongJump` | doc/MUK coroutines/picoro.c:64-145 | one jump and the code behind it is one transition |
| `Picoro.Scheduler.UserResume` | doc/MUK coroutines/picoro.c:72-76 | `resume` on the heap is one step of the stack machine |
| `Picoro.Scheduler.UserYield` | doc/MUK coroutines/picoro.c:78-80 | so is `yield` |
| `Picoro.Scheduler.UserCreate` | doc/MUK coroutines/picoro.c:93-97 | so is `coroutine` |
| `Picoro.Scheduler.UserReturn` | doc/MUK coroutines/picoro.c:139-144 | so is the return of a coroutine's function |
| `Commands.DecodeEncode` | include/com/cmd.h:55-73 | a header read from its bytes is the header |
| `Commands.EncodeDecode` | include/com/cmd.h:55-73 | every 168 bytes are those of a header |
| `Commands.FieldsAt` | include/com/cmd.h:55-73 | for every header, the bytes at the offset of each field are its value, low-order byte first and in two's complement |
| `Commands.DecodeEncodeAll` | include/com/proxy_usr.h:46-51 | an array of headers in a payload buffer is read back in order |
| `Commands.DecodeAllIsInjective` | include/com/proxy_usr.h:46-51 | different buffers hold different headers |
| `Frames.WireIsRead` | dvk-proxies/tcp_proxy_bat.c:85-169 | the stream is self-delimiting: whatever follows, the receiver finds exactly the frames written, and then what follows |
| `Frames.WireIsDelivered` | dvk-proxies/tcp_proxy_bat.c:130-193 | whole frames are delivered as what they stand for, whether or not the end of the connection is noticed |
| `Sockets.OutSocket.SendAll` | dvk-proxies/tcp_proxy_bat.c:308-322 | however `send` cuts it, exactly these bytes are taken; taken and queued bytes make up the same stream throughout |
| `Sockets.InSocket.ReceiveAll` | dvk-proxies/tcp_proxy_bat.c:109-124 | however `recv` cuts it, the buffer has the next bytes of the stream, as many as there are |
| `Batching.SingleDelivers` | dvk-proxies/tcp_proxy_bat.c:484-488 | a command sent by itself arrives as it is |
| `Batching.BatchDelivers` | dvk-proxies/tcp_proxy_bat.c:474-483 | a batch arrives as its lead, up to the three fields that `RoundCases.PlainFlags` and `RoundCases.LogIsFollowed` give in numerals, and then the batched commands in order |
| `Batching.HelloDelivers` | dvk-proxies/tcp_proxy_bat.c:410-419 | a HELLO arrives as nothing |
| `Batching.BatchCount` | dvk-proxies/tcp_proxy_bat.c:441-471 | the longest run of batchable commands that is there without waiting, up to the limit |
| `Conservation.ConservedByQueue` | dvk-proxies/tcp_proxy_bat.c:368-385 | moving the first held commands into a frame keeps fetched = sent or queued + held |
| `Rounds.RoundStandsFor` | dvk-proxies/tcp_proxy_bat.c:400-497 | the frames of a round that goes on stand for exactly the commands fetched in it, in order |
| `Rounds.SentIsFifo` | dvk-proxies/tcp_proxy_bat.c:391-497 | all frames together stand for everything fetched up to the round that the function returns from, for every interleaving of answers |
| `Rounds.LastRoundIsLost` | dvk-proxies/tcp_proxy_bat.c:419-458 | what is fetched in that round and never sent: nothing exactly if the call that begins it is refused, otherwise its command and all that was batched behind it until EDVSNOTCONN |
| `Rounds.HeldAtTheEnd` | dvk-proxies/tcp_proxy_bat.c:391-497 | a sender that conserves commands and has sent these frames holds exactly what was fetched in the last round |
| `RoundCases.RoundIs` | dvk-proxies/tcp_proxy_bat.c:391-497 | for every first answer of a round: which frames go out, with flags 1, batch count n and length 168 n in a batch and the n headers at multiples of 168 in its payload, how far the round gets and whether it is the last |
| `RoundCases.RunEndsAt` | dvk-proxies/tcp_proxy_bat.c:406-458 | a run ends where the kernel has no more answers, with a failure other than a timeout as a round begins, or with EDVSNOTCONN inside a batch, and nothing before that is EDVSNOTCONN |
| `RoundCases.SentIsPlain` | dvk-proxies/tcp_proxy_bat.c:474-483 | every command sent with the batch bit has no other flag, a batch count above 0, and a payload of 168 times that |
| `RoundCases.LogIsFollowed` | dvk-proxies/tcp_proxy_bat.c:171-189 | in what frames stand for, every lead has flags 1 and as many commands without the batch bit and without payload behind it as its batch count says |
| `RoundCases.DeliverIs` | dvk-proxies/tcp_proxy_bat.c:130-193 | what is delivered of a frame by its command code, its flags and the headers at multiples of 168 in its payload |
| `BatchSender.Sender.Get` | dvk-proxies/tcp_proxy_bat.c:405-424 | the next answer is in the first buffers, and they then hold a fetched command that no frame has been begun for |
| `BatchSender.Sender.Take` | dvk-proxies/tcp_proxy_bat.c:466-469 | the command that was fetched last is copied into the batch: the batch is what was answered, in order, and the buffers together hold what they held before |
| `BatchSender.Sender.SendRemote` | dvk-proxies/tcp_proxy_bat.c:368-385 | the frame in the buffers is taken by the connection and counted, and the buffers no longer hold the commands it stands for, and only those |
| `BatchSender.Sender.Count` | dvk-proxies/lz4tcp_proxy_bat.c:843-845 | every frame is counted behind its last byte, as it was sent |
| `BatchSender.Sender.Collect` | dvk-proxies/tcp_proxy_bat.c:439-471 | the batch holds what was answered, in order, and the loop is left at the first answer it cannot take |
| `BatchSender.Sender.SendLead` | dvk-proxies/tcp_proxy_bat.c:474-488 | the frame of the lead goes out, alone or with the batch, whose header `RoundCases.RoundIs` gives in numerals |
| `BatchSender.Sender.SendPending` | dvk-proxies/tcp_proxy_bat.c:491-496 | the data command that ended the batch goes out behind it |
| `BatchSender.Sender.SendHello` | dvk-proxies/tcp_proxy_bat.c:409-418 | a timeout sends one HELLO |
| `BatchSender.Sender.ServeBatch` | dvk-proxies/tcp_proxy_bat.c:429-496 | a round that begins with a batchable command sends exactly the frames of `Sent`, or leaves its command and the batch in the buffers and returns |
| `BatchSender.Sender.Serve` | dvk-proxies/tcp_proxy_bat.c:400-497 | every round sends those frames, holds and queues nothing when it goes on, and leaves behind what `LeftBehind` says when it does not |
| `BatchSender.Sender.StartServing` | dvk-proxies/tcp_proxy_bat.c:391-497 | so does the whole loop, conserving every command for every interleaving of answers; what the buffers hold when it returns is what its last round leaves behind |
| `Reception.NextBoundary` | dvk-proxies/tcp_proxy_bat.c:130-193 | between frames the receiver has found the frames so far; one more is the first of what is left |
| `Reception.ReceivedAll` | dvk-proxies/tcp_proxy_bat.c:104-126 | at the end everything has been found and delivered, and with an `errno` of 0 also what is left of a header, filled up |
| `BatchReceiver.Receiver.ReceiveHeader` | dvk-proxies/tcp_proxy_bat.c:104-126 | the header of the next frame, filled up with zeros where the stream ends before it is complete, which is an error exactly if `errno` is not 0 |
| `BatchReceiver.Receiver.ReceivePayload` | dvk-proxies/tcp_proxy_bat.c:85-101 | the payload, filled up with zeros where the stream has ended |
| `BatchReceiver.Receiver.NextHeader` | dvk-proxies/tcp_proxy_bat.c:134-141 | headers without a command are skipped; after an end that was not noticed this goes on for ever, and nothing more is delivered |
| `BatchReceiver.Receiver.DeliverBatch` | dvk-proxies/tcp_proxy_bat.c:173-189 | the batched commands are delivered in order, once each |
| `BatchReceiver.Receiver.Count` | dvk-proxies/lz4tcp_proxy_bat.c:493-501 | a message that was processed as a whole is counted as it was received |
| `BatchReceiver.Receiver.ProcessMessage` | dvk-proxies/tcp_proxy_bat.c:130-193 | one frame with a command is delivered and counted, and the log is still what the frames found so far stand for; a wrong length drops the batch |
| `BatchReceiver.Receiver.StartServing` | dvk-proxies/tcp_proxy_bat.c:218-230 | the log is a function of the bytes that arrived and of `errno`, however the bytes were cut, and the table has counted the same frames |
| `EndToEnd.ReceivedInWire` | dvk-proxies/tcp_proxy_bat.c:130-193 | a receiver anywhere in the bytes of some frames, whatever comes later: delivered, due and unread are together what the frames stand for |
| `EndToEnd.NothingIsLost` | dvk-proxies/tcp_proxy_bat.c:400-497 | for any states that the two proxies can be in at once: delivered, due, in unread or unsent bytes, and in the sender's buffers are together the fetched commands, in order and once each |
| `EndToEnd.Disconnected` | dvk-proxies/tcp_proxy_bat.c:419-424 | after a disconnection between frames, also in the middle of a batch, what arrives is what was fetched but for what the buffers hold |
| `EndToEnd.CutOff` | dvk-proxies/tcp_proxy_bat.c:85-126 | after one at any byte, also in the middle of a frame, the whole frames arrive and then what is made of the rest, and that is a prefix of what was fetched if and only if the cut is harmless |
| `EndToEnd.ReceiveUpTo` | dvk-proxies/tcp_proxy_bat.c:85-126 | a receiver run on the bytes in front of the cut: its log is what the whole frames stand for and then what is made of the rest, and it is that prefix if and only if the cut is harmless |
| `EndToEnd.Transfer` | dvk-proxies/tcp_proxy_bat.c:391-497 | both proxies from start to end: the log is what was fetched up to the last round, each command as it was or as the lead of a batch with flags 1, its batch right behind it; what was fetched in the last round is what the buffers still hold, and everything arrives if and only if that round is refused at once |
| `EndToEnd.BatchMayBeLost` | dvk-proxies/tcp_proxy_bat.c:450-451 | a message that is fetched and never sent, for every size of the batch |
| `Cuts.CutIsHarmless` | dvk-proxies/tcp_proxy_bat.c:85-126 | the same for every list of frames, every cut and every `errno` |
| `Cuts.WholeAreDelivered` | dvk-proxies/tcp_proxy_bat.c:85-230 | every frame in front of a cut is delivered as what it stands for, then comes what is made of the one that is cut off |
| `Cuts.CutFrameIs` | dvk-proxies/tcp_proxy_bat.c:85-158 | byte by byte what is found in a frame that is cut off: nothing if `errno` tells it in the header, else what has arrived and a zero for every byte that has not, and no command behind it |
| `Cuts.OtherBatch` | dvk-proxies/tcp_proxy_bat.c:180-189 | no other payload of a batch delivers the same commands |
| `Cuts.CutMayHarm` | dvk-proxies/tcp_proxy_bat.c:99-100 | a command of one byte that is delivered with a byte nobody sent |
| `Cuts.HeaderCutMayHarm` | dvk-proxies/tcp_proxy_bat.c:125-141 | four bytes of a header that are delivered as a command nobody fetched, if `errno` is 0 |
| `Compression.PackUnpack` | dvk-proxies/lz4tcp_th_proxy.c:522-565 | a command arrives restored if and only if the codec does not make nothing of its data |
| `Compression.PackIsNoLonger` | dvk-proxies/lz4tcp_th_proxy.c:535-544 | no frame is longer than its uncompressed form |
| `Compression.RoundTrip` | dvk-proxies/lz4tcp_th_proxy.c:571-632 | exactly the accepted commands arrive, in order and restored, if and only if no data vanishes |
| `Compression.AllRestored` | dvk-proxies/lz4tcp_th_proxy.c:571-632 | with a codec that makes nothing of no payload, as LZ4, all accepted commands arrive restored |
| `Compression.FramesAreReceivable` | dvk-proxies/lz4tcp_th_proxy.c:292-299 | what the sender sends passes the receiver's length check |
| `CompressionCases.FrameIs` | dvk-proxies/lz4tcp_th_proxy.c:522-632 | what goes out for each answer by command code and payload: a data command needs data and no other may have any, and flags are 0x1234 or 0 |
| `CompressionCases.PayloadIsShorter` | dvk-proxies/lz4tcp_th_proxy.c:535-544 | the payload of a data command is as long as the shorter of its two forms |
| `CompressionCases.AcceptedArrive` | dvk-proxies/lz4tcp_th_proxy.c:530-550 | the accepted commands are those with code 5 or 8198 and a payload and those with another code and none, in order |
| `CompressionCases.LogIs` | dvk-proxies/lz4tcp_th_proxy.c:571-632 | the round trip in these terms: every such command arrives with its payload, flags 0x1234 or 0 and cleared sequence numbers if and only if no data comes to nothing |
| `CompressionCases.MadeIs` | dvk-proxies/lz4tcp_th_proxy.c:281-326 | what is delivered of a frame and when the program exits, by command code, flags and decompressed length |
| `CompressionCases.EndIs` | dvk-proxies/lz4tcp_th_proxy.c:243-276 | the end of a stream inside a header: noticed through `errno`, or a header filled up with zeros and a payload that the buffer holds |
| `CompressionCases.MessageIs` | dvk-proxies/lz4tcp_th_proxy.c:267-310 | one message of a stream, for which the buffer keeps the bytes that do not arrive |
| `Compression.RefusedAt` | dvk-proxies/lz4tcp_th_proxy.c:581-600 | where the sender stops: behind the first EDVSNOTCONN, which no earlier answer is |
| `Compression.DataMayVanish` | dvk-proxies/lz4tcp_th_proxy.c:281-310 | an arbitrary lossless codec, not LZ4, and a command for which the data never arrives |
| `CompressedStreams.ProcessWire` | dvk-proxies/lz4tcp_th_proxy.c:267-326 | whole frames are delivered as what they stand for, whatever the buffer held and whatever `errno` is |
| `CompressedCuts.ProcessCut` | dvk-proxies/lz4tcp_th_proxy.c:217-326 | after a cut at any byte every whole frame is delivered as what it stands for, then exactly what is made of the rest and of the buffer; whether the program exits is exact too |
| `CompressedCuts.LastIs` | dvk-proxies/lz4tcp_th_proxy.c:267-326 | when that is one delivery and when none, and when it is what the frame stands for |
| `CompressedCuts.CutIsPrefix` | dvk-proxies/lz4tcp_th_proxy.c:217-326 | the log is a prefix of what the frames stand for, for every list of frames, every cut, `errno` and content of the buffer, if and only if the cut is harmless |
| `CompressedCuts.StaleData` | dvk-proxies/lz4tcp_th_proxy.c:282-306 | a data command that is cut off behind its header is delivered with the beginning of the payload before it |
| `CompressedCuts.StaleDataMayHarm` | dvk-proxies/lz4tcp_th_proxy.c:282-306 | two data commands, the second of which is delivered with the data of the first |
| `CompressingProxy.Sender.Compress` | dvk-proxies/lz4tcp_th_proxy.c:530-550 | the header and the buffer chosen are those of the packed frame, or the command is refused |
| `CompressingProxy.Sender.SendRemote` | dvk-proxies/lz4tcp_th_proxy.c:522-565 | an accepted command goes out as its frame, another not at all |
| `CompressingProxy.Sender.StartServing` | dvk-proxies/lz4tcp_th_proxy.c:571-632 | what was sent is one frame for each accepted command and each timeout up to the first EDVSNOTCONN, and no answer behind it is asked for |
| `CompressingProxy.Receiver.DeliverData` | dvk-proxies/lz4tcp_th_proxy.c:282-306 | decompresses when the flag says so and restores the length, or exits if that is wrong |
| `CompressingProxy.Receiver.ProcessMessage` | dvk-proxies/lz4tcp_th_proxy.c:267-326 | one frame with a command is delivered as `Process` says, and the rest of the stream is still to be processed |
| `CompressingProxy.Receiver.StartServing` | dvk-proxies/lz4tcp_th_proxy.c:354-365 | for every stream, also one that ends inside a frame, the log is what `Process` makes of it |
| `CompressingProxy.Transfer` | dvk-proxies/lz4tcp_th_proxy.c:571-632 | both proxies from start to end, up to the first EDVSNOTCONN: the log is what all frames stand for, one command for each that is accepted by its code and payload, and these are restored if and only if no data vanishes |
| `CompressingProxy.ReceiveUpTo` | dvk-proxies/lz4tcp_th_proxy.c:217-326 | a receiver run on the bytes in front of a cut: its log is exact, and it is a prefix of the accepted commands restored if and only if the cut is harmless |
| `Statistics.Table.UpdateStats` | dvk-proxies/lz4tcp_proxy_bat.c:743-790 | every cell holds the messages, data bytes and commands of the frames counted in it; one call adds to the cell of the lead the number of codes 1, 3 and 4 in the frame and its batch, the length if the code is 5 or 8198, and one or one plus the batch count |
| `Statistics.Table.CountBatch` | dvk-proxies/lz4tcp_proxy_bat.c:775-784 | the loop adds the number of messages in the batch to one cell and leaves the others |
| `Statistics.FrameAdds` | dvk-proxies/lz4tcp_proxy_bat.c:763-787 | what a frame adds to its cell by the codes in it: messages are 1, 3 and 4, data 5 and 8198 |
| `Statistics.FrameCounts` | dvk-proxies/lz4tcp_proxy_bat.c:763-787 | a frame counts, in all three counters, for the commands that it stands for, and a HELLO for one command |
| `Statistics.TotalIsDelivered` | dvk-proxies/lz4tcp_proxy_bat.c:743-790 | the sum of each counter over all cells is what the delivered commands count for by their codes, on both sides, and on the sending side the HELLOs |
| `Statistics.CountedTheSame` | dvk-proxies/lz4tcp_proxy_bat.c:743-790 | the frames of a sender count the same on both sides in every cell, but for the HELLOs |
| `CountedRuns.SumsAgree` | dvk-proxies/lz4tcp_proxy_bat.c:743-790 | so it is with the tables: messages are codes 1, 3 and 4, data the payloads of codes 5 and 8198, commands all of them |
| `CountedRuns.CountedTransfer` | dvk-proxies/lz4tcp_proxy_bat.c:797-1000 | both proxies from start to end, counting where the program does: every cell agrees on messages and data and differs in commands by the HELLOs; over the receiving table messages sum up to the codes 1, 3 and 4 in the log, data to the payloads of codes 5 and 8198, commands to its length; over the sending one there are the HELLOs too; and the log counts for what was fetched, but for what is left behind in the last round |

## Left out

- Picoro.Scheduler.LongJump: a context is a program point and its live variables; `setjmp`, `longjmp`, the C stacks and the 16K allowance of `coroutine_start` are not modelled.
- Rfc1321.PaddedAligned: messages are whole bytes, and the constants of section 3.4 are taken from the table, not from the sine function.
- Md5.Context.Finish: after it the context stands for nothing until `md5_init` is called again.
- Md5.Context.GetResult: the big-endian build with `SWAP` is not modelled.
- Md5Hex.SigFromString: characters that are not lower-case hexadecimal digits, for which the C code computes with a null pointer, are excluded.
- Md5Rounds.CompressBlock: a block is passed as a value and `memcpy` of blocks is a simultaneous assignment; pointer steps are indices.
- Sockets.OutSocket.Send: errors of `send`, and its retry on EALREADY, are not modelled.
- Sockets.InSocket.Recv: errors of `recv` are not modelled.
- BatchReceiver.Receiver.constructor: every length in the stream fits the payload buffer, which the C code does not check.
- BatchReceiver.Receiver.StartServing: ends with the connection; with an `errno` other than 0 the C loop goes on calling until a call returns EDVSNOTCONN, and with 0 it never leaves `pr_process_message`; `errno` is one constant, the value it has whenever `recv` returns 0.
- BatchReceiver.Receiver.ProcessMessage: delivery to the local kernel always succeeds; a batched command with a length of its own is given the received part of the buffer.
- BatchSender.Sender.StartServing: the size of the batch (MAXBATCMD) is a parameter, because MAXCOPYBUF is not defined in the repository; the counters of successes and failures are left out; a sender serves one connection, and the next one begins with the answers behind.
- Commands.DecodeEncode: time stamp, message and virtual copy descriptor are opaque bytes up to `v_bytes`; the layout is that of an LP64, little-endian machine.
- Compression.PackUnpack: compression and decompression are total functions on whole payloads; LZ4's frame format and its buffer bounds are left out, and a failure to decompress, on which the program exits, is a result of a wrong length, on which it exits too.
- CompressingProxy.Receiver.constructor: the content that the payload buffer is allocated with is an input; every length in the stream fits the payload buffer, which the C code does not check, and commands without data have none, as everything that the sender sends and every beginning of it.
- Statistics.Table.UpdateStats: the counters are unbounded, and the mutex is left out.
- CountedRuns.CountedTransfer: process identifiers and time stamps written into headers are options that are off.
- Compression and batching together in `lz4tcp_proxy_bat.c` and `multi_proxy.c`: there the uncompressed branch sends a fixed buffer whatever buffer was passed.
- The connect handshake with condition variables in `multi_proxy.c`, socket setup, TIPC topology, process and thread startup, the web statistics server and autobinding: input and output around the modelled loops.
- The kernel module behind the `dvk_` calls and its library stubs: an input sequence and a delivery log stand for them.
- The character-device, relative-jump, loop and test programs are not modelled.
