/** What picoro means to its callers: a stack of active coroutines, and the
    coroutines that wait to be resumed. No lists, no contexts, no value slot. */
module PicoroStack {
  import opened PicoroMachine

  /** What a waiting coroutine does when it is resumed. */
  datatype Pending = ToStart(fun: Value) | ToReturn

  /** The active coroutines, the one that runs first, and the waiting ones. */
  datatype Stack = Stack(active: seq<nat>, parked: map<nat, Pending>)

  const EMPTY := Stack([0], map[])

  /** A resume() that its assertion stops: of nothing, or of a coroutine that does not wait. */
  predicate Refused(a: Stack, call: Call) {
    call.Resume? && (call.c.Null? || call.c.id !in a.parked)
  }

  /** One call of user code, and how user code runs next. Which unused coroutine
      coroutine() returns is left open. */
  predicate Step(a: Stack, call: Call, a': Stack, outcome: Outcome) {
    match call
    case Resume(p, v) =>
      && p.To? && p.id in a.parked
      && a' == Stack([p.id] + a.active, a.parked - {p.id})
      && outcome == (match a.parked[p.id] case ToStart(fun) => Entered(fun, v) case ToReturn => Returned(v))
    case Yield(v) =>
      && |a.active| >= 2
      && a' == Stack(a.active[1..], a.parked[a.active[0] := ToReturn])
      && outcome == Returned(v)
    case Return(v) =>
      && |a.active| >= 2
      && a' == Stack(a.active[1..], a.parked)
      && outcome == Returned(v)
    case Create(fun) =>
      && outcome.Returned? && outcome.v.Coroutine?
      && var c := outcome.v.id;
      && c !in a.active && c !in a.parked
      && a' == Stack(a.active, a.parked[c := ToStart(fun)])
  }

  /** The coroutines that exist for callers: active ones but for `first`, and waiting ones. */
  function Live(a: Stack): int {
    |a.active| - 1 + |a.parked|
  }

  // ---- Runs of the stack machine ----

  predicate IsRun(stacks: seq<Stack>, calls: seq<Call>, outcomes: seq<Outcome>) {
    && |stacks| == |calls| + 1 && |outcomes| == |calls|
    && stacks[0] == EMPTY
    && forall k | 0 <= k < |calls| :: Step(stacks[k], calls[k], stacks[k + 1], outcomes[k])
  }

  /** A coroutine is in one place only, and `first` is at the bottom of the stack. */
  predicate WellFormed(a: Stack) {
    && a.active != [] && a.active[|a.active| - 1] == 0
    && Unique(a.active)
    && (forall c | c in a.active :: c !in a.parked)
  }

  lemma StepKeepsWellFormed(a: Stack, call: Call, a': Stack, outcome: Outcome)
    requires WellFormed(a) && Step(a, call, a', outcome)
    ensures WellFormed(a')
  {
  }

  lemma {:induction false} RunIsWellFormed(stacks: seq<Stack>, calls: seq<Call>, outcomes: seq<Outcome>, k: nat)
    requires IsRun(stacks, calls, outcomes) && k < |stacks|
    ensures WellFormed(stacks[k])
  {
    if k > 0 {
      RunIsWellFormed(stacks, calls, outcomes, k - 1);
      StepKeepsWellFormed(stacks[k - 1], calls[k - 1], stacks[k], outcomes[k - 1]);
    }
  }

  /** The stack ends in `base`, and `top` is right above it. */
  predicate RestsOn(active: seq<nat>, base: seq<nat>, top: nat) {
    if |active| <= |base| + 1 then active == [top] + base else RestsOn(active[1..], base, top)
  }

  lemma StepKeepsBelow(a: Stack, call: Call, a': Stack, outcome: Outcome, base: seq<nat>, top: nat)
    requires Step(a, call, a', outcome)
    requires RestsOn(a.active, base, top) && |a'.active| > |base|
    ensures RestsOn(a'.active, base, top)
  {
    if call.Resume? {
      assert a'.active[1..] == a.active;
    }
  }

  /** While the stack is higher than it was, everything that was on it is still there, untouched. */
  lemma {:induction false} StackBelowIsKept(stacks: seq<Stack>, calls: seq<Call>, outcomes: seq<Outcome>,
                                            i: nat, j: nat)
    requires IsRun(stacks, calls, outcomes)
    requires i < j < |stacks|
    requires forall k | i < k <= j :: |stacks[k].active| > |stacks[i].active|
    ensures RestsOn(stacks[j].active, stacks[i].active, stacks[i + 1].active[0])
    decreases j
  {
    if j == i + 1 {
      assert Step(stacks[i], calls[i], stacks[j], outcomes[i]);
    } else {
      StackBelowIsKept(stacks, calls, outcomes, i, j - 1);
      assert Step(stacks[j - 1], calls[j - 1], stacks[j], outcomes[j - 1]);
      StepKeepsBelow(stacks[j - 1], calls[j - 1], stacks[j], outcomes[j - 1],
                     stacks[i].active, stacks[i + 1].active[0]);
    }
  }

  /** The innermost matching resume(): the first time that the stack is back at
      its height, control is back with the resumer, the coroutine that gave it
      back is the one that was resumed, and the value that it yields or returns
      is what resume() returns. */
  lemma ResumeMatches(stacks: seq<Stack>, calls: seq<Call>, outcomes: seq<Outcome>, i: nat, j: nat)
    requires IsRun(stacks, calls, outcomes)
    requires i < j < |calls| && calls[i].Resume?
    requires forall k | i < k <= j :: |stacks[k].active| > |stacks[i].active|
    requires |stacks[j + 1].active| <= |stacks[i].active|
    ensures stacks[j + 1].active == stacks[i].active
    ensures calls[i].c.To? && stacks[j].active[0] == calls[i].c.id
    ensures calls[j].Yield? || calls[j].Return?
    ensures outcomes[j] == Returned(if calls[j].Yield? then calls[j].arg else calls[j].result)
  {
    assert Step(stacks[i], calls[i], stacks[i + 1], outcomes[i]);
    StackBelowIsKept(stacks, calls, outcomes, i, j);
    assert Step(stacks[j], calls[j], stacks[j + 1], outcomes[j]);
    assert stacks[j].active == [calls[i].c.id] + stacks[i].active;
  }

  /** A waiting coroutine waits, and is nowhere on the stack, until it is resumed. */
  lemma {:induction false} ParkedIsKept(stacks: seq<Stack>, calls: seq<Call>, outcomes: seq<Outcome>,
                                        c: nat, i: nat, j: nat)
    requires IsRun(stacks, calls, outcomes)
    requires i <= j < |stacks| && c in stacks[i].parked && c !in stacks[i].active
    requires forall k | i <= k < j :: !(calls[k].Resume? && calls[k].c == To(c))
    ensures c in stacks[j].parked && stacks[j].parked[c] == stacks[i].parked[c]
    ensures c !in stacks[j].active
    decreases j
  {
    if i < j {
      ParkedIsKept(stacks, calls, outcomes, c, i, j - 1);
      assert Step(stacks[j - 1], calls[j - 1], stacks[j], outcomes[j - 1]);
    }
  }

  /** A value given to resume() is what the pending yield() returns, however long it was pending. */
  lemma YieldMatches(stacks: seq<Stack>, calls: seq<Call>, outcomes: seq<Outcome>, i: nat, j: nat)
    requires IsRun(stacks, calls, outcomes)
    requires i < j < |calls| && calls[i].Yield? && stacks[i].active != []
    requires calls[j].Resume? && calls[j].c == To(stacks[i].active[0])
    requires forall k | i < k < j :: !(calls[k].Resume? && calls[k].c == calls[j].c)
    ensures outcomes[j] == Returned(calls[j].arg)
    ensures stacks[j + 1].active[0] == stacks[i].active[0]
  {
    assert Step(stacks[i], calls[i], stacks[i + 1], outcomes[i]);
    RunIsWellFormed(stacks, calls, outcomes, i + 1);
    ParkedIsKept(stacks, calls, outcomes, stacks[i].active[0], i + 1, j);
    assert Step(stacks[j], calls[j], stacks[j + 1], outcomes[j]);
  }

  /** The first resume() of a new coroutine enters the function it was created with. */
  lemma CreateMatches(stacks: seq<Stack>, calls: seq<Call>, outcomes: seq<Outcome>, i: nat, j: nat)
    requires IsRun(stacks, calls, outcomes)
    requires i < j < |calls| && calls[i].Create? && calls[j].Resume?
    requires outcomes[i].Returned? && outcomes[i].v.Coroutine? && calls[j].c == To(outcomes[i].v.id)
    requires forall k | i < k < j :: !(calls[k].Resume? && calls[k].c == calls[j].c)
    ensures outcomes[j] == Entered(calls[i].fun, calls[j].arg)
  {
    assert Step(stacks[i], calls[i], stacks[i + 1], outcomes[i]);
    ParkedIsKept(stacks, calls, outcomes, outcomes[i].v.id, i + 1, j);
    assert Step(stacks[j], calls[j], stacks[j + 1], outcomes[j]);
  }

  /** A coroutine whose function has returned is in no place, until coroutine() gives it out again. */
  lemma {:induction false} ReturnedIsGone(stacks: seq<Stack>, calls: seq<Call>, outcomes: seq<Outcome>,
                                         i: nat, j: nat)
    requires IsRun(stacks, calls, outcomes)
    requires i < j < |stacks| && calls[i].Return? && stacks[i].active != []
    requires forall k | i < k < j && calls[k].Create? :: outcomes[k] != Returned(Coroutine(stacks[i].active[0]))
    ensures stacks[i].active[0] !in stacks[j].parked && stacks[i].active[0] !in stacks[j].active
    ensures j < |calls| && calls[j].Resume? ==> calls[j].c != To(stacks[i].active[0])
    decreases j
  {
    var c := stacks[i].active[0];
    RunIsWellFormed(stacks, calls, outcomes, i);
    if j == i + 1 {
      assert Step(stacks[i], calls[i], stacks[j], outcomes[i]);
      assert forall k | 0 <= k < |stacks[j].active| :: stacks[j].active[k] == stacks[i].active[k + 1];
    } else {
      ReturnedIsGone(stacks, calls, outcomes, i, j - 1);
      assert Step(stacks[j - 1], calls[j - 1], stacks[j], outcomes[j - 1]);
    }
    if j < |calls| {
      assert Step(stacks[j], calls[j], stacks[j + 1], outcomes[j]);
    }
  }
}
