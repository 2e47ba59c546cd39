/** picoro's coroutines as a machine on values, one transition for each stretch
    of code that ends in a `longjmp`. A coroutine is the number of the stack it
    runs on, in the order in which stacks are forked; 0 is `first`, the initial
    stack of the program. */
module PicoroMachine {

  /** What a `void *` may hold: the argument of a user's call (which may be
      anything), a coroutine, or the stack pointer that `coroutine_start` passes. */
  datatype Value = Data(n: int) | Coroutine(id: nat) | StackPointer

  datatype Pointer = Null | To(id: nat)

  /** The program point that a saved context resumes at, with the local variables
      that are live there. A context is `Stale` once control has passed through it. */
  datatype Point =
    | Stale
    | InResume                  // the user's call of resume()
    | InCreate                  // the resume() that coroutine() calls, line 96
    | InYield                   // the user's call of yield()
    | AtStart(fun: Value)       // the yield() of coroutine_main(), line 141
    | AtLine137
    | AtLine143
    | Fork94(fun: Value)        // the setjmp() of coroutine()
    | Fork138(fun: Value)       // the setjmp() of coroutine_main()

  /** How user code comes to run: the program starts, a call returns, or a
      coroutine's function is entered. */
  datatype Outcome = ProgramStart | Returned(v: Value) | Entered(fun: Value, arg: Value)

  /** What the processor is about to do. `Jump` is longjmp(running->state, 1). */
  datatype Cpu = User(outcome: Outcome) | Jump | AssertionFailed

  datatype Machine = Machine(running: seq<nat>, idle: seq<nat>, ctx: seq<Point>, saved: Value, cpu: Cpu)

  /** What user code does next: one of the three calls, or return from the coroutine's function. */
  datatype Call = Resume(c: Pointer, arg: Value) | Yield(arg: Value) | Create(fun: Value) | Return(result: Value)

  const INITIAL := Machine([0], [], [Stale], Data(0), User(ProgramStart))

  // ---- The lists as their `next` pointers show them ----

  /** The `next` pointer of c, if c is on the list s. */
  function After(s: seq<nat>, c: nat): Pointer {
    if s == [] then Null
    else if s[0] == c then (if |s| > 1 then To(s[1]) else Null)
    else After(s[1..], c)
  }

  function Next(m: Machine, c: nat): Pointer {
    if c in m.running then After(m.running, c) else After(m.idle, c)
  }

  /** resumable(): a NULL test on `next`. */
  predicate Resumable(m: Machine, p: Pointer) {
    p.To? && Next(m, p.id) == Null
  }

  // ---- The code between two jumps ----

  predicate Loaded(m: Machine) {
    && m.running != []
    && (forall k | 0 <= k < |m.running| :: m.running[k] < |m.ctx|)
    && (forall k | 0 <= k < |m.idle| :: m.idle[k] < |m.ctx|)
  }

  /** pass(): the context of `me` is saved and the value stored, then comes the jump. */
  function Pass(m: Machine, me: nat, arg: Value, point: Point): Machine
    requires me < |m.ctx|
  {
    m.(ctx := m.ctx[me := point], saved := arg, cpu := Jump)
  }

  /** coroutine_start() and coroutine_main() up to line 137, on a new stack. */
  function StartMain(m: Machine): Machine {
    m.(idle := [|m.ctx|] + m.idle, ctx := m.ctx + [AtLine137], saved := StackPointer, cpu := Jump)
  }

  /** resume(pop(&idle), fun), line 96. */
  function Activate(m: Machine, fun: Value): Machine
    requires Loaded(m) && m.idle != []
  {
    Pass(m.(running := [m.idle[0]] + m.running, idle := m.idle[1..]), m.running[0], fun, InCreate)
  }

  /** yield(&me), line 141: a coroutine with a function to run tells its creator who it is. */
  function Announce(m: Machine, fun: Value): Machine
    requires Loaded(m)
  {
    Pass(m.(running := m.running[1..]), m.running[0], Coroutine(m.running[0]), AtStart(fun))
  }

  /** A user's call, up to its first jump. */
  function Begin(m: Machine, call: Call): Machine
    requires Loaded(m)
  {
    var me := m.running[0];
    match call
    case Resume(p, v) =>
      if !Resumable(m, p) then m.(cpu := AssertionFailed)
      else Pass(m.(running := [p.id] + m.running), me, v, InResume)
    case Yield(v) =>
      Pass(m.(running := m.running[1..]), me, v, InYield)
    case Create(fun) =>
      if m.idle == [] then StartMain(m.(ctx := m.ctx[me := Fork94(fun)]))
      else Activate(m, fun)
    case Return(v) =>
      Pass(m.(running := m.running[1..], idle := [me] + m.idle), me, v, AtLine143)
  }

  /** From a jump to the next one, or to user code: the context at the head of
      `running` is used up, and the code after its setjmp() runs. */
  function Land(m: Machine): Machine
    requires Loaded(m) && (m.ctx[m.running[0]].Fork94? ==> m.idle != [])
  {
    var me := m.running[0];
    var m' := m.(ctx := m.ctx[me := Stale]);
    match m.ctx[me]
    case InResume => m'.(cpu := User(Returned(m.saved)))
    case InCreate => m'.(cpu := User(Returned(m.saved)))
    case InYield => m'.(cpu := User(Returned(m.saved)))
    case AtStart(fun) => m'.(cpu := User(Entered(fun, m.saved)))
    case AtLine137 => StartMain(m'.(ctx := m'.ctx[me := Fork138(m.saved)]))
    case AtLine143 => Announce(m', m.saved)
    case Fork138(fun) => Announce(m', fun)
    case Fork94(fun) => Activate(m', fun)
    case Stale => m'.(cpu := AssertionFailed)
  }

  // ---- What callers may do ----

  /** A coroutine that coroutine() has returned: neither `first` nor the unused tail of `idle`. */
  predicate Exposed(m: Machine, c: nat) {
    0 < c < |m.ctx| && (m.idle != [] ==> c != m.idle[|m.idle| - 1])
  }

  /** User code may pass on any coroutine it has been given, and `first` neither yields nor returns. */
  predicate Allowed(m: Machine, call: Call) {
    match call
    case Resume(p, _) => p.To? ==> Exposed(m, p.id)
    case Create(_) => true
    case Yield(_) => m.running != [] && m.running[0] != 0
    case Return(_) => m.running != [] && m.running[0] != 0
  }

  // ---- The invariant of every state, user code running or not ----

  predicate Unique(s: seq<nat>) {
    forall i, j | 0 <= i < j < |s| :: s[i] != s[j]
  }

  /** The two lists are lists, are disjoint, and `running` ends in `first`. */
  predicate Lists(m: Machine) {
    && Loaded(m)
    && Unique(m.running) && Unique(m.idle)
    && (forall c | c in m.running :: c !in m.idle)
    && m.running[|m.running| - 1] == 0
  }

  /** `idle` ends in the one coroutine that is still at line 137; the others are at line 143. */
  predicate Pool(m: Machine)
    requires Loaded(m)
  {
    && m.idle != []
    && m.ctx[m.idle[|m.idle| - 1]] == AtLine137
    && (forall k | 0 <= k < |m.idle| - 1 :: m.ctx[m.idle[k]] == AtLine143)
  }

  /** The running coroutines from position n on are inside resume(). */
  predicate Resumers(m: Machine, n: nat)
    requires Loaded(m)
  {
    forall k | n <= k < |m.running| :: m.ctx[m.running[k]] == InResume
  }

  /** Coroutines on neither list are inside yield(), called by the user or by coroutine_main(). */
  predicate Parked(m: Machine) {
    forall c | 0 <= c < |m.ctx| && c !in m.running && c !in m.idle :: m.ctx[c].InYield? || m.ctx[c].AtStart?
  }

  /** A coroutine is being created: the head of `running` works for its creator, the next one. */
  predicate Serving(m: Machine)
    requires Loaded(m)
  {
    |m.running| >= 2 && m.ctx[m.running[1]] == InCreate && Resumers(m, 2)
  }

  predicate Inv(m: Machine) {
    && Lists(m)
    && Parked(m)
    && match m.cpu
       case User(_) =>
         && m.ctx[m.running[0]] == Stale && Resumers(m, 1)
         && if |m.ctx| == 1 then m.idle == [] else Pool(m)
       case AssertionFailed => true
       case Jump =>
         match m.ctx[m.running[0]]
         case InResume => Pool(m) && Resumers(m, 1)
         case InCreate =>
           && Pool(m) && Resumers(m, 1)
           && m.saved.Coroutine? && m.saved.id < |m.ctx|
           && m.saved.id !in m.running && m.saved.id !in m.idle && m.ctx[m.saved.id].AtStart?
         case InYield => |m.running| >= 2 && Pool(m) && Resumers(m, 1)
         case AtStart(_) => |m.running| >= 2 && Pool(m) && Resumers(m, 1)
         case AtLine137 => m.idle == [] && Serving(m)
         case AtLine143 => Pool(m) && Serving(m)
         case Fork138(_) => Pool(m) && |m.idle| == 1 && Serving(m)
         case Fork94(_) => Pool(m) && |m.idle| == 1 && |m.ctx| == 2 && Resumers(m, 1)
         case Stale => false
  }

  lemma InitialInv()
    ensures Inv(INITIAL)
  {
  }

  // ---- Every transition keeps it ----

  lemma AfterIsNull(s: seq<nat>, c: nat)
    requires Unique(s)
    ensures After(s, c) == Null <==> (c !in s || c == s[|s| - 1])
  {
    if s != [] && s[0] != c {
      AfterIsNull(s[1..], c);
    }
  }

  /** For a coroutine that callers know of, the NULL test means "on neither list". */
  lemma ResumableMeansParked(m: Machine, c: nat)
    requires Inv(m) && m.cpu.User? && Exposed(m, c)
    ensures Resumable(m, To(c)) <==> (c !in m.running && c !in m.idle)
  {
    AfterIsNull(m.running, c);
    AfterIsNull(m.idle, c);
  }

  lemma ResumeKeepsInv(m: Machine, c: nat, v: Value)
    requires Inv(m) && m.cpu.User? && c < |m.ctx| && c !in m.running && c !in m.idle
    requires |m.ctx| > 1
    ensures Inv(Pass(m.(running := [c] + m.running), m.running[0], v, InResume))
  {
    var m' := Pass(m.(running := [c] + m.running), m.running[0], v, InResume);
    assert Lists(m');
    assert Parked(m');
    assert Pool(m');
    assert Resumers(m', 1);
  }

  lemma YieldKeepsInv(m: Machine, v: Value)
    requires Inv(m) && m.cpu.User? && m.running[0] != 0
    ensures Inv(Begin(m, Yield(v)))
  {
    var m' := Begin(m, Yield(v));
    assert Lists(m');
    assert Parked(m');
    assert Pool(m');
    assert m'.ctx[m'.running[0]] == InResume;
    assert Resumers(m', 1);
  }

  lemma ReturnKeepsInv(m: Machine, v: Value)
    requires Inv(m) && m.cpu.User? && m.running[0] != 0
    ensures Inv(Begin(m, Return(v)))
  {
    var m' := Begin(m, Return(v));
    assert Lists(m');
    assert Parked(m');
    assert Pool(m');
    assert m'.ctx[m'.running[0]] == InResume;
    assert Resumers(m', 1);
  }

  lemma FirstCreateKeepsInv(m: Machine, fun: Value)
    requires Inv(m) && m.cpu.User? && m.idle == []
    ensures Inv(Begin(m, Create(fun)))
  {
    var m' := Begin(m, Create(fun));
    assert Lists(m');
    assert Parked(m');
    assert Pool(m');
  }

  lemma ActivateKeepsLists(m: Machine, fun: Value)
    requires Lists(m) && m.idle != []
    ensures Lists(Activate(m, fun))
  {
    assert m.idle[0] in m.idle;
    UniqueParts(m.idle);
    assert forall c | c in m.idle[1..] :: c in m.idle;
  }

  lemma UniqueParts(s: seq<nat>)
    requires Unique(s) && s != []
    ensures Unique(s[1..]) && s[0] !in s[1..]
  {
  }

  lemma ActivateKeepsParked(m: Machine, fun: Value)
    requires Lists(m) && Parked(m) && m.idle != []
    ensures Parked(Activate(m, fun))
  {
  }

  lemma ActivateServes(m: Machine, fun: Value)
    requires Lists(m) && Pool(m) && Resumers(m, 1)
    ensures var m' := Activate(m, fun);
      Serving(m') && m'.ctx[m'.running[0]] == if |m.idle| > 1 then AtLine143 else AtLine137
    ensures |m.idle| > 1 ==> Pool(Activate(m, fun))
  {
    assert m.running[0] in m.running;
    assert forall k | 0 <= k < |m.idle| :: m.idle[k] in m.idle;
    assert m.idle[1..] != [] ==> m.idle[1..][|m.idle| - 2] == m.idle[|m.idle| - 1];
  }

  lemma ActivateKeepsInv(m: Machine, fun: Value)
    requires Lists(m) && Parked(m) && Pool(m) && Resumers(m, 1)
    ensures var m' := Activate(m, fun); Inv(m') && m'.cpu.Jump?
  {
    ActivateKeepsLists(m, fun);
    ActivateKeepsParked(m, fun);
    ActivateServes(m, fun);
    hide Lists, Parked, Serving, Resumers;
  }

  lemma BeginKeepsInv(m: Machine, call: Call)
    requires Inv(m) && m.cpu.User? && Allowed(m, call)
    ensures Inv(Begin(m, call))
  {
    match call
    case Resume(p, v) =>
      if Resumable(m, p) {
        ResumableMeansParked(m, p.id);
        ResumeKeepsInv(m, p.id, v);
      }
    case Yield(v) => YieldKeepsInv(m, v);
    case Create(fun) => if m.idle == [] { FirstCreateKeepsInv(m, fun); } else { ActivateKeepsInv(m, fun); }
    case Return(v) => ReturnKeepsInv(m, v);
  }

  lemma ReachUserKeepsInv(m: Machine)
    requires Inv(m) && m.cpu.Jump?
    requires var k := m.ctx[m.running[0]]; k.InResume? || k.InCreate? || k.InYield? || k.AtStart?
    ensures Inv(Land(m)) && Land(m).cpu.User?
  {
    var m' := Land(m);
    assert Lists(m');
    assert Parked(m');
    assert Pool(m');
    assert Resumers(m', 1);
  }

  lemma ForkKeepsInv(m: Machine)
    requires Inv(m) && m.cpu.Jump? && m.ctx[m.running[0]].AtLine137?
    ensures Inv(Land(m)) && Land(m).cpu.Jump?
  {
    var m' := Land(m);
    assert Lists(m');
    assert Parked(m');
    assert Pool(m');
    assert Serving(m');
  }

  lemma AnnounceKeepsInv(m: Machine, fun: Value)
    requires Lists(m) && Parked(m) && Pool(m) && Serving(m)
    ensures var m' := Announce(m, fun); Inv(m') && m'.cpu.Jump? && m'.ctx[m'.running[0]].InCreate?
  {
    var m' := Announce(m, fun);
    assert Lists(m');
    assert Parked(m');
    assert Pool(m');
    assert Resumers(m', 1);
  }

  /** What the head of `running` needs of the rest is not changed when its context is used up. */
  lemma UseUpContext(m: Machine)
    requires Inv(m) && m.cpu.Jump?
    ensures var m' := m.(ctx := m.ctx[m.running[0] := Stale]);
      && Lists(m') && Parked(m')
      && (Pool(m) ==> Pool(m')) && (Serving(m) ==> Serving(m')) && (Resumers(m, 1) ==> Resumers(m', 1))
  {
  }

  /** No jump goes to a context that has been used before. */
  lemma LandKeepsInv(m: Machine)
    requires Inv(m) && m.cpu.Jump?
    ensures Inv(Land(m)) && Land(m).cpu != AssertionFailed
  {
    UseUpContext(m);
    var m' := m.(ctx := m.ctx[m.running[0] := Stale]);
    match m.ctx[m.running[0]]
    case AtLine137 => ForkKeepsInv(m);
    case AtLine143 => AnnounceKeepsInv(m', m.saved);
    case Fork138(fun) => AnnounceKeepsInv(m', fun);
    case Fork94(fun) => ActivateKeepsInv(m', fun);
    case _ => ReachUserKeepsInv(m);
  }
}
