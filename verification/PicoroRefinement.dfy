/** The machine refines the stack machine, call by call and run by run; and what
    follows for the number of stacks that are forked. */
module PicoroRefinement {
  import opened PicoroMachine
  import opened PicoroRuns
  import S = PicoroStack

  predicate OffLists(m: Machine, c: nat) {
    c < |m.ctx| && c !in m.running && c !in m.idle
  }

  function PendingOf(k: Point): S.Pending {
    if k.AtStart? then S.ToStart(k.fun) else S.ToReturn
  }

  /** What callers can tell of a state: the lists and the contexts are reduced to the stack machine's terms. */
  function Abstract(m: Machine): S.Stack {
    S.Stack(m.running, map c | 0 <= c < |m.ctx| && OffLists(m, c) :: PendingOf(m.ctx[c]))
  }

  lemma AbstractIs(m: Machine, active: seq<nat>, parked: map<nat, S.Pending>)
    requires m.running == active
    requires forall c: nat :: c in parked <==> OffLists(m, c)
    requires forall c: nat | OffLists(m, c) :: parked[c] == PendingOf(m.ctx[c])
    ensures Abstract(m) == S.Stack(active, parked)
  {
    assert Abstract(m).parked.Keys == parked.Keys;
  }

  lemma ResumeExec(m: Machine, c: nat, v: Value)
    requires Ready(m) && Exposed(m, c) && Resumable(m, To(c))
    ensures OffLists(m, c)
    ensures Exec(m, Resume(To(c), v)) == m.(
        running := [c] + m.running, ctx := m.ctx[m.running[0] := InResume][c := Stale], saved := v,
        cpu := User(if m.ctx[c].AtStart? then Entered(m.ctx[c].fun, v) else Returned(v)))
  {
    ResumableMeansParked(m, c);
    BeginKeepsInv(m, Resume(To(c), v));
    var m1 := Begin(m, Resume(To(c), v));
    assert m1.ctx[c] == m.ctx[c];
    hide Lists, Parked, Pool, Resumers, Next, After;
    LastJump(m1);
  }

  lemma ResumeRefines(m: Machine, p: Pointer, v: Value)
    requires Ready(m) && Allowed(m, Resume(p, v)) && Resumable(m, p)
    ensures var m' := Exec(m, Resume(p, v));
      m'.cpu.User? && S.Step(Abstract(m), Resume(p, v), Abstract(m'), m'.cpu.outcome)
  {
    ResumeExec(m, p.id, v);
    var m' := Exec(m, Resume(p, v));
    assert Loaded(m);
    hide Ready, Allowed, Resumable, Exec, Inv;
    AbstractIs(m', [p.id] + m.running, Abstract(m).parked - {p.id});
  }

  lemma YieldExec(m: Machine, v: Value)
    requires Ready(m) && Allowed(m, Yield(v))
    ensures |m.running| >= 2
    ensures Exec(m, Yield(v)) == m.(
        running := m.running[1..], ctx := m.ctx[m.running[0] := InYield][m.running[1] := Stale],
        saved := v, cpu := User(Returned(v)))
  {
    BeginKeepsInv(m, Yield(v));
    hide Parked, Pool;
    LastJump(Begin(m, Yield(v)));
  }

  lemma ReturnExec(m: Machine, v: Value)
    requires Ready(m) && Allowed(m, Return(v))
    ensures |m.running| >= 2
    ensures Exec(m, Return(v)) == m.(
        running := m.running[1..], idle := [m.running[0]] + m.idle,
        ctx := m.ctx[m.running[0] := AtLine143][m.running[1] := Stale], saved := v, cpu := User(Returned(v)))
  {
    BeginKeepsInv(m, Return(v));
    hide Parked, Pool;
    LastJump(Begin(m, Return(v)));
  }

  /** The head of `running`, and only the head, leaves it. */
  lemma HeadLeaves(m: Machine, c: nat)
    requires Lists(m)
    ensures c in m.running[1..] <==> c in m.running && c != m.running[0]
    ensures m.running[0] !in m.idle
  {
  }

  lemma YieldRefines(m: Machine, v: Value)
    requires Ready(m) && Allowed(m, Yield(v))
    ensures var m' := Exec(m, Yield(v));
      m'.cpu.User? && S.Step(Abstract(m), Yield(v), Abstract(m'), m'.cpu.outcome)
  {
    YieldExec(m, v);
    var m' := Exec(m, Yield(v));
    assert Loaded(m) && m.running[0] != m.running[1];
    forall c: nat
      ensures c in m'.running <==> c in m.running && c != m.running[0]
      ensures m.running[0] !in m.idle
    {
      HeadLeaves(m, c);
    }
    hide Ready, Allowed, Exec, Inv, Lists;
    AbstractIs(m', m.running[1..], Abstract(m).parked[m.running[0] := S.ToReturn]);
  }

  lemma ReturnRefines(m: Machine, v: Value)
    requires Ready(m) && Allowed(m, Return(v))
    ensures var m' := Exec(m, Return(v));
      m'.cpu.User? && S.Step(Abstract(m), Return(v), Abstract(m'), m'.cpu.outcome)
  {
    ReturnExec(m, v);
    var m' := Exec(m, Return(v));
    assert Loaded(m) && m.running[0] != m.running[1];
    forall c: nat
      ensures c in m'.running <==> c in m.running && c != m.running[0]
    {
      HeadLeaves(m, c);
    }
    hide Ready, Allowed, Exec, Inv, Lists;
    AbstractIs(m', m.running[1..], Abstract(m).parked);
  }

  /** coroutine() makes one coroutine wait that did not, and leaves the others as they were. */
  lemma CreateTakesOne(m: Machine, fun: Value, c: nat)
    requires Ready(m)
    ensures var m', d := AfterCreate(m, fun), Candidate(m);
      && (OffLists(m', c) <==> OffLists(m, c) || c == d)
      && (OffLists(m, c) ==> c != d && m'.ctx[c] == m.ctx[c])
      && m'.ctx[d] == AtStart(fun)
  {
    hide Parked, Resumers, Pool, Next, After;
    if |m.idle| > 1 {
      assert m.idle == [m.idle[0]] + m.idle[1..];
    }
  }

  lemma CreateRefines(m: Machine, fun: Value)
    requires Ready(m)
    ensures var m' := Exec(m, Create(fun));
      m'.cpu.User? && S.Step(Abstract(m), Create(fun), Abstract(m'), m'.cpu.outcome)
  {
    CreateOutcome(m, fun);
    var m', d := AfterCreate(m, fun), Candidate(m);
    assert d !in m.running && !OffLists(m, d);
    assert m'.running == m.running && m'.cpu == User(Returned(Coroutine(d)));
    forall c: nat
      ensures OffLists(m', c) <==> OffLists(m, c) || c == d
      ensures OffLists(m, c) ==> c != d && m'.ctx[c] == m.ctx[c]
      ensures m'.ctx[d] == AtStart(fun)
    {
      CreateTakesOne(m, fun, c);
    }
    hide Exec, Ready, Inv, AfterCreate, Candidate, OffLists;
    AbstractIs(m', m.running, Abstract(m).parked[d := S.ToStart(fun)]);
  }

  /** Every call does what the stack machine says, and the assertion in resume()
      stops exactly the calls that the stack machine refuses. */
  lemma Refines(m: Machine, call: Call)
    requires Ready(m) && Allowed(m, call)
    ensures var m' := Exec(m, call);
      if S.Refused(Abstract(m), call) then m'.cpu.AssertionFailed?
      else m'.cpu.User? && S.Step(Abstract(m), call, Abstract(m'), m'.cpu.outcome)
  {
    match call
    case Resume(p, v) =>
      if Resumable(m, p) {
        ResumeRefines(m, p, v);
      }
      if p.To? {
        ResumableMeansParked(m, p.id);
      }
    case Yield(v) => YieldRefines(m, v);
    case Create(fun) => CreateRefines(m, fun);
    case Return(v) => ReturnRefines(m, v);
  }

  // ---- Whole runs ----

  predicate Steps(m: Machine, call: Call, m': Machine) {
    Ready(m) && Allowed(m, call) && m' == Exec(m, call) && m'.cpu.User?
  }

  /** A run from the start of the program, in which no assertion has failed. */
  predicate IsRun(ms: seq<Machine>, calls: seq<Call>) {
    && |ms| == |calls| + 1 && ms[0] == INITIAL
    && forall k | 0 <= k < |calls| :: Steps(ms[k], calls[k], ms[k + 1])
  }

  lemma RunIsReady(ms: seq<Machine>, calls: seq<Call>, k: nat)
    requires IsRun(ms, calls) && k < |ms|
    ensures Ready(ms[k])
  {
    InitialInv();
    if k > 0 {
      assert Steps(ms[k - 1], calls[k - 1], ms[k]);
    }
  }

  function Outcomes(ms: seq<Machine>): seq<Outcome>
    requires forall k | 0 <= k < |ms| :: ms[k].cpu.User?
  {
    seq(|ms|, k requires 0 <= k < |ms| => ms[k].cpu.outcome)
  }

  function Abstracts(ms: seq<Machine>): seq<S.Stack> {
    seq(|ms|, k requires 0 <= k < |ms| => Abstract(ms[k]))
  }

  /** Every run of the machine is a run of the stack machine. */
  lemma RunRefines(ms: seq<Machine>, calls: seq<Call>)
    requires IsRun(ms, calls)
    ensures forall k | 0 <= k < |ms| :: ms[k].cpu.User?
    ensures S.IsRun(Abstracts(ms), calls, Outcomes(ms[1..]))
  {
    forall k | 0 <= k < |ms|
      ensures ms[k].cpu.User?
    {
      RunIsReady(ms, calls, k);
    }
    AbstractIs(INITIAL, [0], map[]);
    var stacks, outcomes := Abstracts(ms), Outcomes(ms[1..]);
    forall k | 0 <= k < |calls|
      ensures S.Step(stacks[k], calls[k], stacks[k + 1], outcomes[k])
    {
      assert Steps(ms[k], calls[k], ms[k + 1]);
      Refines(ms[k], calls[k]);
    }
  }

  // ---- Which coroutines callers know ----

  /** What becomes of the unused coroutines. */
  lemma ExecPool(m: Machine, call: Call)
    requires Ready(m) && Allowed(m, call) && !call.Create? && Exec(m, call).cpu.User?
    ensures var m' := Exec(m, call);
      && |m'.ctx| == |m.ctx|
      && m'.idle == if call.Return? then [m.running[0]] + m.idle else m.idle
  {
    BeginKeepsInv(m, call);
    if call.Resume? {
      assert Resumable(m, call.c);
      ResumableMeansParked(m, call.c.id);
    }
    LastJump(Begin(m, call));
  }

  predicate IsReturned(ms: seq<Machine>, calls: seq<Call>, c: nat)
    requires |ms| == |calls| + 1
  {
    exists k :: 0 <= k < |calls| && calls[k].Create? && ms[k + 1].cpu == User(Returned(Coroutine(c)))
  }

  lemma RunPrefix(ms: seq<Machine>, calls: seq<Call>)
    requires IsRun(ms, calls) && calls != []
    ensures IsRun(ms[..|calls|], calls[..|calls| - 1])
    ensures Steps(ms[|calls| - 1], calls[|calls| - 1], ms[|calls|])
  {
    var n := |calls| - 1;
    forall k | 0 <= k < n
      ensures Steps(ms[..n + 1][k], calls[..n][k], ms[..n + 1][k + 1])
    {
      assert Steps(ms[k], calls[k], ms[k + 1]);
    }
  }

  lemma ReturnedNext(ms: seq<Machine>, calls: seq<Call>, c: nat)
    requires |ms| == |calls| + 1 && calls != []
    ensures var n := |calls| - 1;
      IsReturned(ms, calls, c) <==>
        || IsReturned(ms[..n + 1], calls[..n], c)
        || (calls[n].Create? && ms[n + 1].cpu == User(Returned(Coroutine(c))))
  {
    var n := |calls| - 1;
    if k :| 0 <= k < |calls| && calls[k].Create? && ms[k + 1].cpu == User(Returned(Coroutine(c))) {
      if k < n {
        assert calls[..n][k].Create? && ms[..n + 1][k + 1].cpu == User(Returned(Coroutine(c)));
      }
    }
    if k :| 0 <= k < n && calls[..n][k].Create? && ms[..n + 1][k + 1].cpu == User(Returned(Coroutine(c))) {
      assert calls[k].Create? && ms[k + 1].cpu == User(Returned(Coroutine(c)));
    }
  }

  lemma ExposedByCreate(m: Machine, fun: Value, c: nat)
    requires Ready(m)
    ensures var m' := AfterCreate(m, fun);
      Exposed(m', c) <==> Exposed(m, c) || m'.cpu == User(Returned(Coroutine(c)))
  {
  }

  /** Neither the number of stacks changes nor the tail of `idle`. */
  lemma ExposedByOther(m: Machine, call: Call, m': Machine, c: nat)
    requires Ready(m) && Allowed(m, call) && |m'.ctx| == |m.ctx|
    requires m'.idle == if call.Return? then [m.running[0]] + m.idle else m.idle
    ensures Exposed(m', c) <==> Exposed(m, c)
  {
  }

  lemma ExposedNext(m: Machine, call: Call, c: nat)
    requires Ready(m) && Allowed(m, call) && Exec(m, call).cpu.User?
    ensures Exposed(Exec(m, call), c) <==>
      Exposed(m, c) || (call.Create? && Exec(m, call).cpu == User(Returned(Coroutine(c))))
  {
    hide *;
    if call.Create? {
      CreateOutcome(m, call.fun);
      ExposedByCreate(m, call.fun, c);
    } else {
      ExecPool(m, call);
      ExposedByOther(m, call, Exec(m, call), c);
    }
  }

  /** `Exposed` is the history: exactly the coroutines that some call of coroutine() has returned. */
  lemma {:induction false} ExposedAreReturned(ms: seq<Machine>, calls: seq<Call>, c: nat)
    requires IsRun(ms, calls)
    ensures Exposed(ms[|calls|], c) <==> IsReturned(ms, calls, c)
    decreases |calls|
  {
    if calls != [] {
      var n := |calls| - 1;
      RunPrefix(ms, calls);
      ExposedAreReturned(ms[..n + 1], calls[..n], c);
      ReturnedNext(ms, calls, c);
      ExposedNext(ms[n], calls[n], c);
    }
  }

  // ---- The lists and the program points ----

  lemma StepForks(m: Machine, call: Call, m': Machine)
    requires Steps(m, call, m')
    ensures |m'.ctx| >= |m.ctx| && (call.Create? ==> |m'.ctx| > 1)
  {
    if call.Create? {
      CreateOutcome(m, call.fun);
    } else {
      ExecPool(m, call);
    }
  }

  lemma {:induction false} ForkedBefore(ms: seq<Machine>, calls: seq<Call>, i: nat, k: nat)
    requires IsRun(ms, calls) && i < k < |ms| && calls[i].Create?
    ensures |ms[k].ctx| > 1
  {
    assert Steps(ms[k - 1], calls[k - 1], ms[k]);
    StepForks(ms[k - 1], calls[k - 1], ms[k]);
    if i < k - 1 {
      ForkedBefore(ms, calls, i, k - 1);
    }
  }

  /** Whenever user code runs after a call of coroutine(): the lists are lists and
      are disjoint, `running` ends in `first`, the tail of `idle` is the one
      coroutine at line 137, and program points and lists agree. */
  lemma ListsAndPoints(ms: seq<Machine>, calls: seq<Call>, i: nat, k: nat)
    requires IsRun(ms, calls) && i < k < |ms| && calls[i].Create?
    ensures var m := ms[k];
      && m.cpu.User? && Unique(m.running) && Unique(m.idle) && (forall c | c in m.running :: c !in m.idle)
      && m.running != [] && m.running[|m.running| - 1] == 0 && m.idle != []
      && forall c: nat | c < |m.ctx| ::
           && (m.ctx[c] == Stale <==> c == m.running[0])
           && (m.ctx[c] == InResume <==> c in m.running[1..])
           && (m.ctx[c] == AtLine137 <==> c == m.idle[|m.idle| - 1])
           && (m.ctx[c] == AtLine143 <==> c in m.idle[..|m.idle| - 1])
           && (m.ctx[c].InYield? || m.ctx[c].AtStart? <==> OffLists(m, c))
  {
    var m := ms[k];
    RunIsReady(ms, calls, k);
    ForkedBefore(ms, calls, i, k);
    forall c: nat | c < |m.ctx|
      ensures c == m.running[0] ==> m.ctx[c] == Stale
      ensures c in m.running[1..] ==> m.ctx[c] == InResume
      ensures c == m.idle[|m.idle| - 1] ==> m.ctx[c] == AtLine137
      ensures c in m.idle[..|m.idle| - 1] ==> m.ctx[c] == AtLine143
      ensures OffLists(m, c) ==> m.ctx[c].InYield? || m.ctx[c].AtStart?
      ensures c == m.running[0] || c in m.running[1..] || OffLists(m, c) ||
              c == m.idle[|m.idle| - 1] || c in m.idle[..|m.idle| - 1]
    {
      PlaceOf(m, c);
    }
  }

  /** Every coroutine has one of five places, and its program point goes with it. */
  lemma PlaceOf(m: Machine, c: nat)
    requires Ready(m) && |m.ctx| > 1 && c < |m.ctx|
    ensures m.idle != []
    ensures c == m.running[0] ==> m.ctx[c] == Stale
    ensures c in m.running[1..] ==> m.ctx[c] == InResume
    ensures c == m.idle[|m.idle| - 1] ==> m.ctx[c] == AtLine137
    ensures c in m.idle[..|m.idle| - 1] ==> m.ctx[c] == AtLine143
    ensures OffLists(m, c) ==> m.ctx[c].InYield? || m.ctx[c].AtStart?
    ensures c == m.running[0] || c in m.running[1..] || OffLists(m, c) ||
              c == m.idle[|m.idle| - 1] || c in m.idle[..|m.idle| - 1]
  {
    var n := |m.idle| - 1;
    assert Pool(m) && Resumers(m, 1) && Parked(m);
    hide Inv, Next, After, Unique;
    assert m.running == [m.running[0]] + m.running[1..];
    assert m.idle == m.idle[..n] + [m.idle[n]];
  }

  // ---- How many stacks there are ----

  function Elements(s: seq<nat>): (e: set<nat>)
    ensures forall c :: c in e <==> c in s
  {
    set c | c in s
  }

  lemma {:induction false} UniqueSize(s: seq<nat>)
    requires Unique(s)
    ensures |Elements(s)| == |s|
  {
    if s != [] {
      UniqueSize(s[1..]);
      assert Elements(s) == {s[0]} + Elements(s[1..]);
    }
  }

  function Below(n: nat): (e: set<nat>)
    ensures forall c: nat :: c in e <==> c < n
    ensures |e| == n
  {
    if n == 0 then {} else Below(n - 1) + {n - 1}
  }

  /** Where a stack is. */
  lemma PlaceInSets(m: Machine, c: nat)
    requires Ready(m)
    ensures c in Abstract(m).parked.Keys <==> OffLists(m, c)
    ensures c in Elements(m.running) ==> c < |m.ctx| && c !in Elements(m.idle)
    ensures c in Elements(m.idle) ==> c < |m.ctx|
  {
  }

  lemma PartitionSizes(all: set<nat>, a: set<nat>, b: set<nat>, c: set<nat>)
    requires all == a + b + c && a !! b && (a + b) !! c
    ensures |all| == |a| + |b| + |c|
  {
  }

  /** Every stack is in exactly one of the sets. */
  predicate InOneOf(x: nat, all: set<nat>, a: set<nat>, b: set<nat>, c: set<nat>) {
    (x in all <==> x in a || x in b || x in c) && !(x in a && x in b) && !(x in a && x in c) && !(x in b && x in c)
  }

  lemma InOnePlace(m: Machine, x: nat)
    requires Ready(m)
    ensures InOneOf(x, Below(|m.ctx|), Elements(m.running), Elements(m.idle), Abstract(m).parked.Keys)
  {
    PlaceInSets(m, x);
    ElementsAre(m.running, x);
    ElementsAre(m.idle, x);
    hide Abstract, Ready, Elements, Below;
  }

  lemma ElementsAre(s: seq<nat>, x: nat)
    ensures x in Elements(s) <==> x in s
  {
  }

  lemma PartitionBy(all: set<nat>, a: set<nat>, b: set<nat>, c: set<nat>)
    requires forall x: nat :: InOneOf(x, all, a, b, c)
    ensures all == a + b + c && a !! b && (a + b) !! c
  {
    forall x: nat
      ensures x in all <==> x in a + b + c
      ensures !(x in a && x in b) && !(x in a + b && x in c)
    {
      assert InOneOf(x, all, a, b, c);
    }
  }

  lemma SetsPartition(m: Machine)
    requires Ready(m)
    ensures var a, b, c := Elements(m.running), Elements(m.idle), Abstract(m).parked.Keys;
      Below(|m.ctx|) == a + b + c && a !! b && (a + b) !! c
  {
    var a, b, c := Elements(m.running), Elements(m.idle), Abstract(m).parked.Keys;
    hide *;
    forall x: nat
      ensures InOneOf(x, Below(|m.ctx|), a, b, c)
    {
      InOnePlace(m, x);
    }
    PartitionBy(Below(|m.ctx|), a, b, c);
  }

  /** Every stack is on one of the lists or waits. */
  lemma StacksArePartitioned(m: Machine)
    requires Ready(m)
    ensures |m.ctx| == |m.running| + |m.idle| + |Abstract(m).parked|
  {
    UniqueSize(m.running);
    UniqueSize(m.idle);
    hide *;
    SetsPartition(m);
    PartitionSizes(Below(|m.ctx|), Elements(m.running), Elements(m.idle), Abstract(m).parked.Keys);
  }

  /** Stacks that were forked: all but the initial one. */
  function Forked(m: Machine): int {
    |m.ctx| - 1
  }

  function MaxLive(ms: seq<Machine>): int
    requires ms != []
  {
    var n := |ms| - 1;
    var live := S.Live(Abstract(ms[n]));
    if n == 0 then live else if MaxLive(ms[..n]) > live then MaxLive(ms[..n]) else live
  }

  lemma LiveIsNotIdle(m: Machine)
    requires Ready(m)
    ensures S.Live(Abstract(m)) == Forked(m) - |m.idle|
  {
    StacksArePartitioned(m);
  }

  /** A coroutine is recycled whenever there is one: a new stack is forked only
      when more coroutines are live than ever before, and one is always kept in reserve. */
  lemma {:induction false} ForkedIsMaxLive(ms: seq<Machine>, calls: seq<Call>)
    requires IsRun(ms, calls)
    ensures Forked(ms[|calls|]) == if MaxLive(ms) == 0 then 0 else 1 + MaxLive(ms)
    decreases |calls|
  {
    var n := |calls|;
    RunLength(ms, calls);
    hide *;
    if n == 0 {
      NoneForked(ms, calls);
    } else {
      RunPrefix(ms, calls);
      ForksWhenEmpty(ms[n - 1], calls[n - 1], ms[n]);
      LiveIsNotIdle(ms[n]);
      ForkedIsMaxLive(ms[..n], calls[..n - 1]);
      MaxLiveNext(ms, n);
      ForkStep(Forked(ms[n - 1]), |ms[n - 1].idle|, MaxLive(ms[..n]), calls[n - 1].Create?,
               Forked(ms[n]), |ms[n].idle|);
    }
  }

  /** One call, in numbers. */
  lemma ForkStep(forked: int, idle: nat, max: int, create: bool, forked': int, idle': nat)
    requires forked == (if max == 0 then 0 else 1 + max) && (forked == 0 <==> idle == 0)
    requires
      if create then
        if idle == 0 then forked' == 2 && idle' == 1
        else if idle == 1 then forked' == forked + 1 && idle' == 1
        else forked' == forked && idle' == idle - 1
      else
        forked' == forked && idle' >= idle
    ensures var live := forked' - idle'; var max' := if max > live then max else live;
      forked' == if max' == 0 then 0 else 1 + max'
  {
  }

  lemma RunLength(ms: seq<Machine>, calls: seq<Call>)
    requires IsRun(ms, calls)
    ensures |ms| == |calls| + 1
  {
  }

  lemma {:induction false} NoneForked(ms: seq<Machine>, calls: seq<Call>)
    requires IsRun(ms, calls) && calls == []
    ensures |ms| == 1 && Forked(ms[0]) == MaxLive(ms) == 0
  {
    RunIsReady(ms, calls, 0);
    LiveIsNotIdle(ms[0]);
  }

  lemma MaxLiveNext(ms: seq<Machine>, n: nat)
    requires |ms| == n + 1 && n > 0
    ensures ms[..n][n - 1] == ms[n - 1]
    ensures MaxLive(ms) == var live := S.Live(Abstract(ms[n]));
      if MaxLive(ms[..n]) > live then MaxLive(ms[..n]) else live
  {
  }

  /** A stack is forked only when at most one unused one is left, and `idle` is never empty again. */
  lemma ForksWhenEmpty(m: Machine, call: Call, m': Machine)
    requires Steps(m, call, m')
    ensures Ready(m') && (Forked(m) == 0 <==> |m.idle| == 0)
    ensures
      if call.Create? then
        if |m.idle| == 0 then Forked(m') == 2 && |m'.idle| == 1
        else if |m.idle| == 1 then Forked(m') == Forked(m) + 1 && |m'.idle| == 1
        else Forked(m') == Forked(m) && |m'.idle| == |m.idle| - 1
      else
        Forked(m') == Forked(m) && |m'.idle| >= |m.idle|
  {
    if call.Create? {
      CreateOutcome(m, call.fun);
    } else {
      ExecPool(m, call);
    }
  }
}
