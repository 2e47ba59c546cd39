/** From user code to user code: picoro's machine does what the stack machine says. */
module PicoroRuns {
  import opened PicoroMachine
  import S = PicoroStack

  // ---- Whole calls ----

  /** How many jumps it takes at most until user code runs. */
  function Rank(m: Machine): nat
    requires Inv(m)
  {
    if m.cpu != Jump then 0 else
      match m.ctx[m.running[0]]
      case Fork94(_) => 4
      case AtLine137 => 3
      case Fork138(_) => 2
      case AtLine143 => 2
      case _ => 1
  }

  lemma LandDescends(m: Machine)
    requires Inv(m) && m.cpu.Jump?
    ensures Inv(Land(m)) && Rank(Land(m)) < Rank(m)
  {
    LandKeepsInv(m);
  }

  /** Jump after jump, to user code. */
  function RunToUser(m: Machine): (m': Machine)
    requires Inv(m)
    ensures Inv(m') && !m'.cpu.Jump?
    decreases Rank(m)
  {
    if m.cpu.Jump? then
      LandDescends(m);
      RunToUser(Land(m))
    else m
  }

  predicate Ready(m: Machine) {
    Inv(m) && m.cpu.User?
  }

  /** A whole call. */
  function Exec(m: Machine, call: Call): (m': Machine)
    requires Ready(m) && Allowed(m, call)
    ensures Inv(m') && !m'.cpu.Jump?
  {
    BeginKeepsInv(m, call);
    RunToUser(Begin(m, call))
  }

  // ---- What each call does ----

  lemma NextJump(m: Machine)
    requires Inv(m) && m.cpu.Jump?
    ensures Inv(Land(m)) && RunToUser(m) == RunToUser(Land(m))
  {
    LandDescends(m);
  }

  /** A jump into user code is the last one. */
  lemma LastJump(m: Machine)
    requires Inv(m) && m.cpu.Jump? && Rank(m) == 1
    ensures RunToUser(m) == Land(m) && Land(m).cpu.User?
  {
    LandDescends(m);
  }

  function UseUp(m: Machine): Machine
    requires Loaded(m)
  {
    m.(ctx := m.ctx[m.running[0] := Stale])
  }

  /** The state in which coroutine() returns, from the one in which the head of `running` serves it. */
  function Created(m: Machine, fun: Value): Machine
    requires Loaded(m) && |m.running| >= 2
  {
    var me, creator := m.running[0], m.running[1];
    m.(running := m.running[1..], ctx := m.ctx[me := AtStart(fun)][creator := Stale],
       saved := Coroutine(me), cpu := User(Returned(Coroutine(me))))
  }

  /** A coroutine that has its function tells its creator who it is. */
  lemma AnnounceOutcome(m: Machine, fun: Value)
    requires Lists(m) && Parked(m) && Pool(m) && Serving(m)
    ensures Inv(Announce(m, fun)) && RunToUser(Announce(m, fun)) == Created(m, fun)
  {
    AnnounceKeepsInv(m, fun);
    LastJump(Announce(m, fun));
  }

  lemma CreatedAgain(m: Machine, fun: Value)
    requires Loaded(m) && |m.running| >= 2
    ensures Created(UseUp(m), fun) == Created(m, fun)
  {
    var me := m.running[0];
    assert m.ctx[me := Stale][me := AtStart(fun)] == m.ctx[me := AtStart(fun)];
  }

  /** Taken from the pool or just forked a new tail: in both cases it is ready to announce itself. */
  lemma ServeOutcome(m: Machine, fun: Value)
    requires Inv(m) && m.cpu.Jump?
    requires m.ctx[m.running[0]] == Fork138(fun) || (m.ctx[m.running[0]] == AtLine143 && m.saved == fun)
    ensures |m.running| >= 2 && RunToUser(m) == Created(m, fun)
  {
    UseUpContext(m);
    NextJump(m);
    assert Land(m) == Announce(UseUp(m), fun);
    assert Serving(m);
    hide Inv, Lists, Parked, Pool, Serving, Resumers, RunToUser;
    AnnounceOutcome(UseUp(m), fun);
    CreatedAgain(m, fun);
  }

  /** Contexts of stacks that exist change as if the new stack were not there yet. */
  lemma UpdateBelow(s: seq<Point>, t: Point, i: nat, x: Point, j: nat, y: Point, z: Point)
    requires i < |s| && j < |s|
    ensures (s[i := x] + [t])[i := y][j := z] == s[i := y][j := z] + [t]
  {
  }

  lemma UpdateAround(s: seq<Point>, i: nat, x: Point, j: nat, y: Point, z: Point)
    requires i < |s| && j < |s| && i != j
    ensures s[i := x][j := y][i := z] == s[i := z][j := y]
  {
  }

  /** Line 138: the tail forks the next one, and then waits in its setjmp(). */
  function WithNewTail(m: Machine): Machine
    requires Loaded(m)
  {
    m.(idle := [|m.ctx|], ctx := m.ctx[m.running[0] := Fork138(m.saved)] + [AtLine137], saved := StackPointer)
  }

  lemma TailForks(m: Machine)
    requires Inv(m) && m.cpu.Jump? && m.ctx[m.running[0]] == AtLine137
    ensures |m.running| >= 2 && m.idle == []
    ensures Land(m) == WithNewTail(m) && Inv(Land(m)) && RunToUser(m) == RunToUser(Land(m))
  {
    NextJump(m);
    var me := m.running[0];
    assert m.ctx[me := Stale][me := Fork138(m.saved)] == m.ctx[me := Fork138(m.saved)];
  }

  /** The unused tail of `idle` is taken: a new tail is forked first. */
  lemma ServeFromTail(m: Machine)
    requires Inv(m) && m.cpu.Jump? && m.ctx[m.running[0]] == AtLine137
    ensures |m.running| >= 2 && m.idle == []
    ensures RunToUser(m) == Created(m, m.saved).(idle := [|m.ctx|], ctx := Created(m, m.saved).ctx + [AtLine137])
  {
    TailForks(m);
    var me, creator := m.running[0], m.running[1];
    var m' := WithNewTail(m);
    assert me < |m.ctx| && creator < |m.ctx|;
    hide Inv, Lists, Parked, Pool, Serving, Resumers, RunToUser, Land;
    ServeOutcome(m', m.saved);
    UpdateBelow(m.ctx, AtLine137, me, Fork138(m.saved), creator, AtStart(m.saved), Stale);
  }

  /** The coroutine that coroutine() takes: the head of `idle`, or the first one ever forked. */
  function Candidate(m: Machine): nat {
    if m.idle == [] then |m.ctx| else m.idle[0]
  }

  /** The state after coroutine(fun), by how many unused coroutines there are. */
  function AfterCreate(m: Machine, fun: Value): Machine
    requires Loaded(m)
  {
    var c, n := Candidate(m), |m.ctx|;
    var m' := m.(saved := Coroutine(c), cpu := User(Returned(Coroutine(c))));
    if m.idle == [] then
      m'.(idle := [n + 1], ctx := m.ctx + [AtStart(fun), AtLine137])
    else if |m.idle| == 1 then
      m'.(idle := [n], ctx := m.ctx[c := AtStart(fun)] + [AtLine137])
    else
      m'.(idle := m.idle[1..], ctx := m.ctx[c := AtStart(fun)])
  }

  lemma ActivateOutcome(m: Machine, fun: Value)
    requires Lists(m) && Parked(m) && Pool(m) && Resumers(m, 1)
    ensures Inv(Activate(m, fun))
    ensures RunToUser(Activate(m, fun)) == AfterCreate(UseUp(m), fun)
  {
    ActivateKeepsInv(m, fun);
    var m' := Activate(m, fun);
    var c, creator := m.idle[0], m.running[0];
    assert c != creator;
    assert m'.ctx[c] == m.ctx[c] == if |m.idle| == 1 then AtLine137 else AtLine143;
    UpdateAround(m.ctx, creator, InCreate, c, AtStart(fun), Stale);
    hide Inv, Lists, Parked, Pool, Serving, Resumers, RunToUser;
    if |m.idle| == 1 {
      ServeFromTail(m');
    } else {
      ServeOutcome(m', fun);
    }
  }

  /** Lines 94 and 95: the first coroutine is forked, and waits at line 137. */
  function WithFirstTail(m: Machine): Machine {
    m.(idle := [|m.ctx|], ctx := m.ctx + [AtLine137], saved := StackPointer, cpu := Jump)
  }

  lemma FirstForks(m: Machine, fun: Value)
    requires Ready(m) && m.idle == []
    ensures var m2 := WithFirstTail(m);
      && Lists(m2) && Parked(m2) && Pool(m2) && Resumers(m2, 1) && UseUp(m2).ctx == m2.ctx
      && Exec(m, Create(fun)) == RunToUser(Activate(m2, fun))
  {
    var m1 := Begin(m, Create(fun));
    FirstCreateKeepsInv(m, fun);
    assert m1.ctx[m1.running[0]] == Fork94(fun) && m1.cpu.Jump?;
    assert Land(m1) == Activate(UseUp(m1), fun);
    assert UseUp(m1) == WithFirstTail(m) by {
      assert UseUp(m1).ctx == m.ctx + [AtLine137];
    }
    UseUpContext(m1);
    assert Pool(m1) && Resumers(m1, 1);
    hide Inv, Lists, Parked, Pool, Serving, Resumers, RunToUser, Activate, Land;
    NextJump(m1);
  }

  lemma FirstCreateOutcome(m: Machine, fun: Value)
    requires Ready(m) && m.idle == []
    ensures Exec(m, Create(fun)) == AfterCreate(m, fun)
  {
    FirstForks(m, fun);
    var m2 := WithFirstTail(m);
    hide Ready, Inv, Lists, Parked, Pool, Serving, Resumers, RunToUser, Exec, Activate;
    ActivateOutcome(m2, fun);
    assert m2.ctx[|m.ctx| := AtStart(fun)] + [AtLine137] == m.ctx + [AtStart(fun), AtLine137];
  }

  /** What coroutine() does, whether or not there are coroutines to recycle. */
  lemma CreateOutcome(m: Machine, fun: Value)
    requires Ready(m)
    ensures Exec(m, Create(fun)) == AfterCreate(m, fun)
  {
    if m.idle == [] {
      FirstCreateOutcome(m, fun);
    } else {
      assert UseUp(m).ctx == m.ctx;
      ActivateOutcome(m, fun);
    }
  }
}
