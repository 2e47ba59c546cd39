/** What the sender of tcp_proxy_bat.c makes of the commands it fetches, as a
    function of the kernel's answers; and that the frames stand for a FIFO of
    the commands. */
module Batching {
  import opened Words
  import opened Commands
  import opened Frames

  /** The return codes; `Exits` and `Spins` stand for a call that does not return. */
  datatype Code = OK | NotConn | TimedOut | Again | BadValue | PackSize | Exits | Spins | Errno(n: int)

  /** What dvk_get2rmt() or dvk_get2rmt_T() gives: a command, or an error and
      whatever the header buffer then holds. */
  datatype Answer = Got(command: Command) | Failed(code: Code, left: Header)

  /** What the kernel promises of a command it hands out. */
  predicate Fetchable(c: Command) {
    && c.header.cmd != CMD_NONE
    && !IsBatch(c.header) && c.header.batchNr == 0
    && c.header.len == |c.payload|
    && (!CarriesData(c.header) ==> c.payload == [])
  }

  predicate FetchableAnswer(a: Answer, capacity: nat) {
    match a
    case Got(c) => Fetchable(c) && |c.payload| <= capacity
    case Failed(code, _) => code != OK
  }

  predicate AnswersFit(answers: seq<Answer>, capacity: nat) {
    forall i | 0 <= i < |answers| :: FetchableAnswer(answers[i], capacity)
  }

  /** The size of the payload buffers, and how many headers fit (MAXBATCMD). */
  predicate Sizes(capacity: nat, max: nat) {
    0 < max && max * HEADER_SIZE <= capacity <= MAX_LEN
  }

  // ---- Delivered as fetched ----

  /** A delivered command is the fetched one; if it leads a batch, up to the three
      fields that describe the batch. */
  predicate Same(fetched: Command, delivered: Command) {
    if IsBatch(delivered.header) then
      && fetched.payload == []
      && var d := delivered.header;
         fetched.header.(flags := d.flags, len := d.len, batchNr := d.batchNr) == d
    else
      fetched == delivered
  }

  predicate SameAll(fetched: seq<Command>, delivered: seq<Command>) {
    |fetched| == |delivered| && forall i | 0 <= i < |fetched| :: Same(fetched[i], delivered[i])
  }

  predicate AllFetchable(cs: seq<Command>, capacity: nat) {
    forall i | 0 <= i < |cs| :: Fetchable(cs[i]) && |cs[i].payload| <= capacity
  }

  lemma SameAllAppend(fs: seq<Command>, ds: seq<Command>, fs': seq<Command>, ds': seq<Command>)
    requires SameAll(fs, ds) && SameAll(fs', ds')
    ensures SameAll(fs + fs', ds + ds')
  {
  }

  lemma HeldAreSame(cs: seq<Command>, capacity: nat)
    requires AllFetchable(cs, capacity)
    ensures SameAll(cs, cs)
  {
  }

  // ---- Frames ----

  /** Batched commands have no payload. */
  function Alone(h: Header): Command {
    Command(h, [])
  }

  function AllAlone(hs: seq<Header>): (cs: seq<Command>)
    ensures |cs| == |hs|
  {
    seq(|hs|, i requires 0 <= i < |hs| => Alone(hs[i]))
  }

  lemma AllAloneNext(hs: seq<Header>, h: Header)
    ensures AllAlone(hs + [h]) == AllAlone(hs) + [Alone(h)]
  {
  }

  /** The lead's header says how many headers follow as its payload. */
  function LeadHeader(lead: Header, n: nat): Header
    requires n * HEADER_SIZE <= MAX_LEN
  {
    lead.(flags := BATCH_FLAG, batchNr := n, len := n * HEADER_SIZE)
  }

  function BatchFrame(lead: Header, hs: seq<Header>): Command
    requires |hs| * HEADER_SIZE <= MAX_LEN
  {
    Command(LeadHeader(lead, |hs|), EncodeAll(hs))
  }

  /** A HELLO is what the buffer holds, without a command. */
  function Hello(h: Header): Command {
    Alone(h.(cmd := CMD_NONE, len := 0, rcode := 0))
  }

  /** The frames that the sender makes: HELLOs, single commands and batches. */
  predicate Sendable(f: Command) {
    || (f.header.cmd == CMD_NONE && f.payload == [] && f.header.len == 0)
    || Fetchable(f)
    || IsBatchFrame(f)
  }

  predicate IsBatchFrame(f: Command) {
    && f.header.cmd != CMD_NONE && !CarriesData(f.header) && f.header.batchNr > 0
    && IsBatch(f.header) && BatchFits(f.header) && f.header.len == |f.payload|
    && AllFetchable(AllAlone(DecodeAll(f.payload, f.header.batchNr)), 0)
  }

  lemma SendableIsFramed(f: Command)
    requires Sendable(f)
    ensures WellFramed(f) && Complete(f)
  {
    hide DecodeAll;
  }

  lemma HelloDelivers(h: Header)
    ensures Sendable(Hello(h)) && Deliver(Hello(h)) == []
  {
  }

  /** A command that is sent by itself arrives as it is. */
  lemma SingleDelivers(c: Command)
    requires Fetchable(c)
    ensures Sendable(c) && Deliver(c) == [c] && SameAll([c], Deliver(c))
  {
  }

  lemma PutAllAlone(hs: seq<Header>, buffer: seq<byte>)
    requires AllFetchable(AllAlone(hs), 0)
    ensures PutAll(hs, buffer) == AllAlone(hs)
  {
    forall i | 0 <= i < |hs|
      ensures Put(hs[i], buffer) == Alone(hs[i])
    {
      assert Fetchable(AllAlone(hs)[i]);
    }
  }

  lemma BatchFrameDelivers(lead: Header, hs: seq<Header>)
    requires hs != [] && |hs| * HEADER_SIZE <= MAX_LEN && AllFetchable(AllAlone(hs), 0)
    requires lead.cmd != CMD_NONE && !CarriesData(lead)
    ensures var f := BatchFrame(lead, hs); IsBatchFrame(f) && Complete(f) && Deliver(f) == [f] + AllAlone(hs)
  {
    hide AllFetchable, AllAlone, EncodeAll, DecodeAll, Put, PutAll;
    DecodeEncodeAll(hs);
    PutAllAlone(hs, EncodeAll(hs));
  }

  /** A batch arrives as its lead and then the batched commands, in order. */
  lemma BatchDelivers(lead: Header, hs: seq<Header>)
    requires hs != [] && |hs| * HEADER_SIZE <= MAX_LEN && AllFetchable(AllAlone(hs), 0)
    requires Fetchable(Alone(lead)) && !CarriesData(lead)
    ensures var f := BatchFrame(lead, hs);
      && Sendable(f) && Deliver(f) == [f] + AllAlone(hs)
      && SameAll([Alone(lead)] + AllAlone(hs), Deliver(f))
  {
    BatchFrameDelivers(lead, hs);
    HeldAreSame(AllAlone(hs), 0);
    SameOne(Alone(lead), BatchFrame(lead, hs));
    hide IsBatchFrame, Deliver, AllFetchable, AllAlone, Same;
    SameAllAppend([Alone(lead)], [BatchFrame(lead, hs)], AllAlone(hs), AllAlone(hs));
  }

  lemma SameOne(fetched: Command, delivered: Command)
    requires Same(fetched, delivered)
    ensures SameAll([fetched], [delivered])
  {
  }

  // ---- The sender as a function of the kernel's answers ----

  predicate IsBatchable(a: Answer) {
    a.Got? && !CarriesData(a.command.header)
  }

  /** How many of the answers the inner loop takes into the batch. */
  function BatchCount(answers: seq<Answer>, max: nat): (n: nat)
    ensures n <= max && n <= |answers|
    ensures forall i | 0 <= i < n :: IsBatchable(answers[i])
    ensures n < max && n < |answers| ==> !IsBatchable(answers[n])
  {
    if max == 0 || answers == [] || !IsBatchable(answers[0]) then 0 else 1 + BatchCount(answers[1..], max - 1)
  }

  function HeaderOf(a: Answer): Header {
    match a
    case Got(c) => c.header
    case Failed(_, left) => left
  }

  function Headers(answers: seq<Answer>): (hs: seq<Header>)
    ensures |hs| == |answers|
  {
    seq(|answers|, i requires 0 <= i < |answers| => HeaderOf(answers[i]))
  }

  lemma HeadersNext(answers: seq<Answer>, start: nat, end: nat)
    requires start <= end < |answers|
    ensures Headers(answers[start..end + 1]) == Headers(answers[start..end]) + [HeaderOf(answers[end])]
  {
  }

  /** One command by itself, or as the lead of those that were there right behind it. */
  function LeadFrame(c: Command, hs: seq<Header>): Command
    requires |hs| * HEADER_SIZE <= MAX_LEN
  {
    if hs == [] then c else BatchFrame(c.header, hs)
  }

  /** The first answer behind the given one that the inner loop does not take. */
  function EndOfBatch(answers: seq<Answer>, max: nat, start: nat): (end: nat)
    requires start < |answers|
    ensures start < end <= |answers| && end <= start + 1 + max
  {
    start + 1 + BatchCount(answers[start + 1..], max)
  }

  /** The frame for the batch that ends there. */
  function LeadOf(answers: seq<Answer>, start: nat, end: nat): Command
    requires start < end <= |answers| && answers[start].Got? && (end - start - 1) * HEADER_SIZE <= MAX_LEN
  {
    LeadFrame(answers[start].command, Headers(answers[start + 1..end]))
  }

  /** What one round of the outer loop sends, how many calls of the kernel are
      answered then, and whether there is another round. */
  datatype Round = Round(frames: seq<Command>, next: nat, goesOn: bool)

  /** The round that begins with the given call. */
  function OneRound(answers: seq<Answer>, max: nat, start: nat): (r: Round)
    requires max * HEADER_SIZE <= MAX_LEN && start < |answers|
    ensures start < r.next <= |answers|
  {
    match answers[start]
    case Failed(code, left) =>
      if code.TimedOut? then Round([Hello(left)], start + 1, true) else Round([], start + 1, false)
    case Got(c) =>
      if CarriesData(c.header) then Round([c], start + 1, true) else
        var end := EndOfBatch(answers, max, start);
        var lead := LeadOf(answers, start, end);
        if end == start + 1 + max then Round([lead], end, true)
        else if end == |answers| then Round([], end, false)
        else match answers[end]
             case Failed(code, _) => if code.NotConn? then Round([], end + 1, false) else Round([lead], end + 1, true)
             case Got(more) => Round([lead, more], end + 1, true)
  }

  /** Every frame sent from the given call on, until the kernel refuses to go
      on; an exhausted kernel is not connected. */
  function Sent(answers: seq<Answer>, max: nat, start: nat): seq<Command>
    requires max * HEADER_SIZE <= MAX_LEN && start <= |answers|
    decreases |answers| - start
  {
    if start == |answers| then [] else
      var r := OneRound(answers, max, start);
      r.frames + if r.goesOn then Sent(answers, max, r.next) else []
  }

  /** Where the round begins that the function returns from. */
  function LastRound(answers: seq<Answer>, max: nat, start: nat): (n: nat)
    requires max * HEADER_SIZE <= MAX_LEN && start <= |answers|
    ensures start <= n <= |answers|
    decreases |answers| - start
  {
    if start == |answers| then start else
      var r := OneRound(answers, max, start);
      if r.goesOn then LastRound(answers, max, r.next) else start
  }

  /** How many calls are answered by then. */
  function End(answers: seq<Answer>, max: nat, start: nat): (n: nat)
    requires max * HEADER_SIZE <= MAX_LEN && start <= |answers|
    ensures LastRound(answers, max, start) <= n <= |answers|
    decreases |answers| - start
  {
    if start == |answers| then start else
      var r := OneRound(answers, max, start);
      if r.goesOn then End(answers, max, r.next) else r.next
  }

  function CommandsOf(a: Answer): seq<Command> {
    if a.Got? then [a.command] else []
  }

  /** The commands among the answers. */
  function Fetched(answers: seq<Answer>): seq<Command> {
    if answers == [] then [] else CommandsOf(answers[0]) + Fetched(answers[1..])
  }

  lemma {:induction false} FetchedAppend(a: seq<Answer>, b: seq<Answer>)
    ensures Fetched(a + b) == Fetched(a) + Fetched(b)
  {
    hide CommandsOf;
    if a == [] {
      assert a + b == b;
    } else {
      assert (a + b)[1..] == a[1..] + b;
      FetchedAppend(a[1..], b);
      Associates(CommandsOf(a[0]), Fetched(a[1..]), Fetched(b));
    }
  }

  /** The commands among the answers from the i-th on, up to the j-th. */
  function FetchedIn(answers: seq<Answer>, i: nat, j: nat): seq<Command>
    requires i <= j <= |answers|
  {
    Fetched(answers[i..j])
  }

  lemma FetchedOne(answers: seq<Answer>, i: nat)
    requires i < |answers|
    ensures FetchedIn(answers, i, i + 1) == CommandsOf(answers[i])
  {
    assert answers[i..i + 1] == [answers[i]];
    hide CommandsOf;
    assert Fetched([answers[i]]) == CommandsOf(answers[i]) + [];
  }

  lemma FetchedNone(answers: seq<Answer>, i: nat)
    requires i <= |answers|
    ensures FetchedIn(answers, i, i) == []
  {
  }

  lemma FetchedSplit(answers: seq<Answer>, i: nat, j: nat, k: nat)
    requires i <= j <= k <= |answers|
    ensures FetchedIn(answers, i, k) == FetchedIn(answers, i, j) + FetchedIn(answers, j, k)
  {
    assert answers[i..k] == answers[i..j] + answers[j..k];
    FetchedAppend(answers[i..j], answers[j..k]);
  }

  lemma FetchedFirst(answers: seq<Answer>, n: nat)
    requires n <= |answers|
    ensures FetchedIn(answers, 0, n) == Fetched(answers[..n])
  {
    assert answers[0..n] == answers[..n];
  }

  lemma FetchedNext(answers: seq<Answer>, n: nat)
    requires n < |answers|
    ensures Fetched(answers[..n + 1]) == Fetched(answers[..n]) + CommandsOf(answers[n])
  {
    hide Fetched, FetchedIn, CommandsOf;
    FetchedSplit(answers, 0, n, n + 1);
    FetchedOne(answers, n);
    FetchedFirst(answers, n);
    FetchedFirst(answers, n + 1);
  }
}
