/** picoro.c on the heap: two intrusive lists that share one `next` pointer for
    each coroutine, one context for each coroutine, and one slot for values. */
module Picoro {
  import opened PicoroMachine
  import opened PicoroRuns
  import opened PicoroRefinement
  import S = PicoroStack

  class Coro {
    var next: Coro?
    var state: Point
    const id: nat

    constructor (id: nat)
      ensures this.id == id && next == null && state == Stale
    {
      this.id := id;
      next := null;
      state := Stale;
    }
  }

  datatype List = Running | Idle

  /** Which `next` pointers change when c is put on a list, and when it is taken off. */
  lemma PushedNext(m: Machine, list: List, c: nat)
    requires Lists(m) && OffLists(m, c)
    ensures var m' := Pushed(m, list, c);
      && Lists(m')
      && Next(m', c) == (var s := if list.Running? then m.running else m.idle; if s == [] then Null else To(s[0]))
      && forall k: nat | k != c :: Next(m', k) == Next(m, k)
  {
  }

  lemma PoppedNext(m: Machine, list: List)
    requires Lists(m) && if list.Running? then |m.running| >= 2 else m.idle != []
    ensures var m', c := Popped(m, list), if list.Running? then m.running[0] else m.idle[0];
      && Lists(m') && OffLists(m', c)
      && Next(m', c) == Null
      && Next(m, c) == (var s := if list.Running? then m'.running else m'.idle; if s == [] then Null else To(s[0]))
      && forall k: nat | k != c :: Next(m', k) == Next(m, k)
  {
    AfterIsNull(if list.Running? then m.idle else m.idle[1..], if list.Running? then m.running[0] else m.idle[0]);
  }

  function Pushed(m: Machine, list: List, c: nat): Machine {
    if list.Running? then m.(running := [c] + m.running) else m.(idle := [c] + m.idle)
  }

  function Popped(m: Machine, list: List): Machine
    requires if list.Running? then m.running != [] else m.idle != []
  {
    if list.Running? then m.(running := m.running[1..]) else m.(idle := m.idle[1..])
  }

  /** The `next` pointers of all stacks, and the heads of the lists. */
  function Links(m: Machine): (links: seq<Pointer>)
    ensures |links| == |m.ctx|
  {
    seq(|m.ctx|, k requires 0 <= k < |m.ctx| => Next(m, k))
  }

  function Head(m: Machine, list: List): Pointer {
    var s := if list.Running? then m.running else m.idle;
    if s == [] then Null else To(s[0])
  }

  function Other(list: List): List {
    if list.Running? then Idle else Running
  }

  lemma PushedParts(m: Machine, list: List, c: nat)
    requires Lists(m) && OffLists(m, c) && c < |m.ctx|
    ensures var m' := Pushed(m, list, c);
      && Lists(m') && Links(m') == Links(m)[c := Head(m, list)]
      && Head(m', list) == To(c) && Head(m', Other(list)) == Head(m, Other(list))
      && m'.ctx == m.ctx && m'.saved == m.saved && m'.cpu == m.cpu
  {
    PushedNext(m, list, c);
    hide Next, Lists, OffLists;
  }

  lemma PoppedParts(m: Machine, list: List)
    requires Lists(m) && if list.Running? then |m.running| >= 2 else m.idle != []
    ensures var m', c := Popped(m, list), if list.Running? then m.running[0] else m.idle[0];
      && Head(m, list) == To(c) && c < |m.ctx|
      && Lists(m') && OffLists(m', c) && Links(m') == Links(m)[c := Null]
      && Head(m', list) == Links(m)[c] && Head(m', Other(list)) == Head(m, Other(list))
      && m'.ctx == m.ctx && m'.saved == m.saved && m'.cpu == m.cpu
      && (list.Running? ==> Head(m', list).To?)
  {
    PoppedNext(m, list);
    HeadIsForked(m, list);
    hide Next, Lists, OffLists;
  }

  lemma HeadIsForked(m: Machine, list: List)
    requires Lists(m) && Head(m, list).To?
    ensures Head(m, list).id < |m.ctx|
  {
  }

  /** The lists do not depend on the contexts. */
  lemma SameLists(m: Machine, m': Machine)
    requires Lists(m) && m'.running == m.running && m'.idle == m.idle && |m'.ctx| == |m.ctx|
    ensures Lists(m') && Links(m') == Links(m)
    ensures Head(m', Running) == Head(m, Running) && Head(m', Idle) == Head(m, Idle)
  {
  }

  lemma ForkedParts(m: Machine)
    requires Lists(m)
    ensures var m' := m.(ctx := m.ctx + [Stale]);
      && Lists(m') && OffLists(m', |m.ctx|) && Links(m') == Links(m) + [Null]
      && Head(m', Running) == Head(m, Running) && Head(m', Idle) == Head(m, Idle)
  {
    AfterIsNull(m.idle, |m.ctx|);
    hide After;
  }

  class Scheduler {
    var running: Coro
    var idle: Coro?
    var saved: Value
    var cpu: Cpu

    /** The stacks that have been forked, `first` among them. */
    var stacks: seq<Coro>

    /** The state as a value. */
    ghost var m: Machine

    ghost predicate Points(c: Coro?, p: Pointer)
      reads this`stacks
    {
      if p.Null? then c == null else p.id < |stacks| && c == stacks[p.id]
    }

    ghost predicate Ids()
      reads this`stacks
    {
      forall k | 0 <= k < |stacks| :: stacks[k].id == k
    }

    ghost predicate Linked(links: seq<Pointer>)
      reads this`stacks, stacks`next
    {
      |links| == |stacks| && forall k | 0 <= k < |stacks| :: Points(stacks[k].next, links[k])
    }

    ghost predicate States(ctx: seq<Point>)
      reads this`stacks, stacks`state
    {
      |ctx| == |stacks| && forall k | 0 <= k < |stacks| :: stacks[k].state == ctx[k]
    }

    ghost predicate Valid()
      reads this, stacks
    {
      && Lists(m) && Ids() && States(m.ctx) && Linked(Links(m))
      && Points(running, Head(m, Running)) && Points(idle, Head(m, Idle))
      && saved == m.saved && cpu == m.cpu
    }

    constructor ()
      ensures Valid() && m == INITIAL && fresh(stacks)
    {
      var first := new Coro(0);
      stacks := [first];
      running, idle := first, null;
      saved, cpu := Data(0), User(ProgramStart);
      m := INITIAL;
      new;
      assert Next(INITIAL, 0) == Null;
      assert Links(INITIAL) == [Null];
    }

    lemma ValidIs()
      requires Valid()
      ensures Lists(m) && Ids() && States(m.ctx) && Linked(Links(m)) && |stacks| == |m.ctx|
      ensures Points(running, Head(m, Running)) && Points(idle, Head(m, Idle))
      ensures saved == m.saved && cpu == m.cpu
    {
      hide Links, Head, Lists, Ids, Points;
    }

    lemma ValidBy()
      requires Lists(m) && Ids() && States(m.ctx) && Linked(Links(m))
      requires Points(running, Head(m, Running)) && Points(idle, Head(m, Idle))
      requires saved == m.saved && cpu == m.cpu
      ensures Valid()
    {
      hide Links, Head, Lists, Ids, States, Linked, Points;
    }

    /** A stack is found under its number. */
    lemma Found(c: Coro)
      requires Ids() && c in stacks
      ensures c.id < |stacks| && stacks[c.id] == c && Points(c, To(c.id))
    {
    }

    lemma FoundAt(c: Coro?, p: Pointer)
      requires Ids() && Points(c, p) && p.To?
      ensures c != null && c in stacks && c.id == p.id
    {
    }

    lemma NextOf(c: Coro, links: seq<Pointer>)
      requires Ids() && Linked(links) && c in stacks
      ensures c.id < |links| && Points(c.next, links[c.id])
    {
      Found(c);
      hide Points;
    }

    /** resumable() */
    method Resumable(c: Coro?) returns (b: bool)
      requires Valid() && (c != null ==> c in stacks)
      ensures b <==> PicoroMachine.Resumable(m, Ref(c))
    {
      ValidIs();
      if c != null {
        NextOf(c, Links(m));
        NullIs(c.next, Links(m)[c.id]);
      }
      hide Valid, Lists, Ids, Linked, States, Points;
      b := c != null && c.next == null;
    }

    lemma NullIs(c: Coro?, p: Pointer)
      requires Points(c, p)
      ensures c == null <==> p == Null
    {
    }

    function Ref(c: Coro?): Pointer {
      if c == null then Null else To(c.id)
    }

    /** One pointer is changed. */
    method SetNext(c: Coro, next: Coro?, ghost links: seq<Pointer>, ghost p: Pointer)
      requires Ids() && Linked(links) && c in stacks && Points(next, p)
      modifies c`next
      ensures c.next == next && c.id < |links| && Linked(links[c.id := p])
    {
      Found(c);
      hide Points;
      c.next := next;
      forall k | 0 <= k < |stacks|
        ensures Points(stacks[k].next, links[c.id := p][k])
      {
        if k != c.id {
          assert stacks[k] != c;
        }
      }
    }

    method SetState(c: Coro, point: Point, ghost ctx: seq<Point>)
      requires Ids() && States(ctx) && c in stacks
      modifies c`state
      ensures c.id < |ctx| && States(ctx[c.id := point])
    {
      Found(c);
      c.state := point;
      forall k | 0 <= k < |stacks|
        ensures stacks[k].state == ctx[c.id := point][k]
      {
        if k != c.id {
          assert stacks[k] != c;
        }
      }
    }

    method PushRunning(c: Coro)
      requires Valid() && c in stacks && OffLists(m, c.id)
      modifies this`running, this`m, c
      ensures Valid() && m == Pushed(old(m), Running, c.id)
    {
      hide *;
      ValidIs();
      Found(c);
      PushedParts(m, Running, c.id);
      SetNext(c, running, Links(m), Head(m, Running));
      running := c;
      m := Pushed(m, Running, c.id);
      OtherIs();
      ValidBy();
    }

    method PushIdle(c: Coro)
      requires Valid() && c in stacks && OffLists(m, c.id)
      modifies this`idle, this`m, c
      ensures Valid() && m == Pushed(old(m), Idle, c.id)
    {
      hide *;
      ValidIs();
      Found(c);
      PushedParts(m, Idle, c.id);
      SetNext(c, idle, Links(m), Head(m, Idle));
      idle := c;
      m := Pushed(m, Idle, c.id);
      OtherIs();
      ValidBy();
    }

    static lemma OtherIs()
      ensures Other(Running) == Idle && Other(Idle) == Running
    {
    }

    /** push(); the list is named instead of passed by address. */
    method Push(list: List, c: Coro)
      requires Valid() && c in stacks && OffLists(m, c.id)
      modifies this`running, this`idle, this`m, c
      ensures Valid() && m == Pushed(old(m), list, c.id)
    {
      hide *;
      if list.Running? {
        PushRunning(c);
      } else {
        PushIdle(c);
      }
    }

    method PopRunning() returns (c: Coro)
      requires Valid() && |m.running| >= 2
      modifies this`running, this`m, running
      ensures Valid() && c in stacks && OffLists(m, c.id)
      ensures c == old(running) && c.id == old(m).running[0] && m == Popped(old(m), Running)
    {
      hide *;
      ghost var popped := Popped(m, Running);
      ValidIs();
      PoppedParts(m, Running);
      OtherIs();
      FoundAt(running, Head(m, Running));
      c := running;
      NextOf(c, Links(m));
      FoundAt(c.next, Head(popped, Running));
      running := c.next;
      SetNext(c, null, Links(m), Null) by { NullPoints(); }
      m := popped;
      ValidBy();
    }

    method PopIdle() returns (c: Coro)
      requires Valid() && m.idle != []
      modifies this`idle, this`m, idle
      ensures Valid() && c in stacks && OffLists(m, c.id)
      ensures c == old(idle) && c.id == old(m).idle[0] && m == Popped(old(m), Idle)
    {
      hide *;
      ghost var popped := Popped(m, Idle);
      ValidIs();
      PoppedParts(m, Idle);
      OtherIs();
      FoundAt(idle, Head(m, Idle));
      c := idle;
      NextOf(c, Links(m));
      idle := c.next;
      SetNext(c, null, Links(m), Null) by { NullPoints(); }
      m := popped;
      ValidBy();
    }

    lemma NullPoints()
      ensures Points(null, Null)
    {
    }

    /** pop() */
    method Pop(list: List) returns (c: Coro)
      requires Valid() && if list.Running? then |m.running| >= 2 else m.idle != []
      modifies this`running, this`idle, this`m, stacks
      ensures Valid() && c in stacks && OffLists(m, c.id)
      ensures c.id == (if list.Running? then old(m).running[0] else old(m).idle[0])
      ensures m == Popped(old(m), list)
    {
      HeadsAreStacks();
      hide *;
      if list.Running? {
        c := PopRunning();
      } else {
        c := PopIdle();
      }
    }

    lemma HeadsAreStacks()
      requires Valid()
      ensures running in stacks && (idle != null ==> idle in stacks) && (idle == null <==> m.idle == [])
      ensures running.id == m.running[0]
    {
      hide States, Linked, Links;
    }

    /** pass(), up to the jump. */
    method Pass(me: Coro, arg: Value, point: Point)
      requires Valid() && me in stacks
      modifies this`saved, this`cpu, this`m, me
      ensures Valid()
      ensures me.id < |old(m).ctx| && m == PicoroMachine.Pass(old(m), me.id, arg, point)
    {
      hide *;
      ValidIs();
      Found(me);
      PassParts(m, me.id, arg, point);
      saved := arg;
      SetState(me, point, m.ctx);
      cpu := Jump;
      m := PicoroMachine.Pass(m, me.id, arg, point);
      ValidBy();
    }

    static lemma PassParts(m: Machine, me: nat, arg: Value, point: Point)
      requires Lists(m) && me < |m.ctx|
      ensures var m' := PicoroMachine.Pass(m, me, arg, point);
        && Lists(m') && Links(m') == Links(m)
        && Head(m', Running) == Head(m, Running) && Head(m', Idle) == Head(m, Idle)
        && m'.ctx == m.ctx[me := point] && m'.saved == arg && m'.cpu == Jump
    {
      SameLists(m, PicoroMachine.Pass(m, me, arg, point));
      hide Lists, Links, Head;
    }

    /** One more stack. */
    method AddStack(ghost links: seq<Pointer>, ghost ctx: seq<Point>, ghost r: Pointer, ghost i: Pointer)
      returns (me: Coro)
      requires Ids() && Linked(links) && States(ctx) && Points(running, r) && Points(idle, i)
      modifies this`stacks
      ensures fresh(me) && stacks == old(stacks) + [me] && me.id == |old(stacks)|
      ensures Ids() && Linked(links + [Null]) && States(ctx + [Stale]) && Points(running, r) && Points(idle, i)
    {
      me := new Coro(|stacks|);
      stacks := stacks + [me];
    }

    /** The storage of a new coroutine_main(). */
    method NewStack() returns (me: Coro)
      requires Valid()
      modifies this`stacks, this`m
      ensures Valid() && fresh(me) && stacks == old(stacks) + [me] && me in stacks && OffLists(m, me.id)
      ensures me.id == |old(m).ctx| && m == old(m).(ctx := old(m).ctx + [Stale])
    {
      hide *;
      ValidIs();
      ForkedParts(m);
      me := AddStack(Links(m), m.ctx, Head(m, Running), Head(m, Idle));
      m := m.(ctx := m.ctx + [Stale]);
      ValidBy();
    }

    /** coroutine_start() and coroutine_main(), lines 133 to 137. */
    method StartMain()
      requires Valid()
      modifies this, stacks
      ensures Valid() && old(stacks) <= stacks && forall k | |old(stacks)| <= k < |stacks| :: fresh(stacks[k])
      ensures m == PicoroMachine.StartMain(old(m))
    {
      StartMainIs(m);
      hide *;
      var me := NewStack();
      Push(Idle, me);
      Pass(me, StackPointer, AtLine137);
    }

    static lemma StartMainIs(m: Machine)
      ensures PicoroMachine.StartMain(m) ==
        PicoroMachine.Pass(Pushed(m.(ctx := m.ctx + [Stale]), Idle, |m.ctx|), |m.ctx|, StackPointer, AtLine137)
    {
      assert (m.ctx + [Stale])[|m.ctx| := AtLine137] == m.ctx + [AtLine137];
    }

    /** resume(pop(&idle), fun), line 96; the assertion in resume() holds, because pop() clears `next`. */
    method Activate(fun: Value)
      requires Valid() && m.idle != []
      modifies this, stacks
      ensures Valid() && stacks == old(stacks) && Loaded(old(m))
      ensures m == PicoroMachine.Activate(old(m), fun)
    {
      ghost var before := m;
      ActivateIs(m, fun);
      HeadsAreStacks();
      hide *;
      var me := running;
      var c := Pop(Idle);
      RefIs(c);
      var ok := Resumable(c);
      assert ok;
      Push(Running, c);
      Pass(me, fun, InCreate);
    }

    lemma RefIs(c: Coro?)
      ensures Ref(c) == if c == null then Null else To(c.id)
    {
    }

    static lemma ActivateIs(m: Machine, fun: Value)
      requires Lists(m) && m.idle != []
      ensures var popped, c := Popped(m, Idle), m.idle[0];
        && Loaded(m) && m.running[0] < |m.ctx| && PicoroMachine.Resumable(popped, To(c))
        && PicoroMachine.Activate(m, fun) == PicoroMachine.Pass(Pushed(popped, Running, c), m.running[0], fun, InCreate)
    {
      PoppedNext(m, Idle);
    }

    /** yield(&me), line 141. */
    method Announce(fun: Value)
      requires Valid() && |m.running| >= 2
      modifies this, stacks
      ensures Valid() && stacks == old(stacks) && Loaded(old(m))
      ensures m == PicoroMachine.Announce(old(m), fun)
    {
      PopsFirst(m);
      assert PicoroMachine.Announce(m, fun) ==
        PicoroMachine.Pass(Popped(m, Running), m.running[0], Coroutine(m.running[0]), AtStart(fun));
      hide *;
      var me := Pop(Running);
      Pass(me, Coroutine(me.id), AtStart(fun));
    }

    static lemma PopsFirst(m: Machine)
      requires Lists(m)
      ensures Loaded(m) && m.running[0] < |m.ctx|
    {
    }

    /** resume(), up to the jump. */
    method BeginResume(c: Coro?, arg: Value)
      requires Valid() && (c != null ==> c in stacks)
      requires PicoroMachine.Resumable(m, Ref(c)) ==> OffLists(m, c.id)
      modifies this, stacks
      ensures Valid() && stacks == old(stacks) && Loaded(old(m))
      ensures m == Begin(old(m), Resume(Ref(c), arg)) && cpu == m.cpu
    {
      PopsFirst(m);
      ResumeIs(m, Ref(c), arg);
      HeadsAreStacks();
      RefIs(c);
      hide *;
      var ok := Resumable(c);
      if !ok {
        SetCpu(AssertionFailed);
        return;
      }
      var me := running;
      Push(Running, c);
      Pass(me, arg, InResume);
      ValidIs();
    }

    static lemma ResumeIs(m: Machine, p: Pointer, arg: Value)
      requires Loaded(m)
      ensures PicoroMachine.Resumable(m, p) ==> p.To? && m.running[0] < |m.ctx|
      ensures Begin(m, Resume(p, arg)) ==
        if PicoroMachine.Resumable(m, p) then PicoroMachine.Pass(Pushed(m, Running, p.id), m.running[0], arg, InResume)
        else m.(cpu := AssertionFailed)
    {
    }

    /** yield(), up to the jump. */
    method BeginYield(arg: Value)
      requires Valid() && |m.running| >= 2
      modifies this, stacks
      ensures Valid() && stacks == old(stacks) && Loaded(old(m))
      ensures m == Begin(old(m), Yield(arg)) && cpu == m.cpu
    {
      PopsFirst(m);
      assert Begin(m, Yield(arg)) == PicoroMachine.Pass(Popped(m, Running), m.running[0], arg, InYield);
      hide *;
      var me := Pop(Running);
      Pass(me, arg, InYield);
      ValidIs();
    }

    /** coroutine(), up to the first jump. */
    method BeginCreate(fun: Value)
      requires Valid()
      modifies this, stacks
      ensures Valid() && old(stacks) <= stacks && forall k | |old(stacks)| <= k < |stacks| :: fresh(stacks[k])
      ensures Loaded(old(m)) && m == Begin(old(m), Create(fun)) && cpu == m.cpu
    {
      CreateIs(m, fun);
      HeadsAreStacks();
      hide *;
      if idle == null {
        SaveContext(running, Fork94(fun));
        StartMain();
      } else {
        Activate(fun);
      }
      ValidIs();
    }

    static lemma CreateIs(m: Machine, fun: Value)
      requires Lists(m)
      ensures Loaded(m) && m.running[0] < |m.ctx|
      ensures Begin(m, Create(fun)) ==
        if m.idle == [] then PicoroMachine.StartMain(m.(ctx := m.ctx[m.running[0] := Fork94(fun)]))
        else PicoroMachine.Activate(m, fun)
    {
    }

    /** coroutine_main(), lines 142 and 143, up to the jump. */
    method BeginReturn(result: Value)
      requires Valid() && |m.running| >= 2
      modifies this, stacks
      ensures Valid() && stacks == old(stacks) && Loaded(old(m))
      ensures m == Begin(old(m), Return(result)) && cpu == m.cpu
    {
      PopsFirst(m);
      assert Begin(m, Return(result)) ==
        PicoroMachine.Pass(Pushed(Popped(m, Running), Idle, m.running[0]), m.running[0], result, AtLine143);
      hide *;
      var me := Pop(Running);
      Push(Idle, me);
      Pass(me, result, AtLine143);
      ValidIs();
    }

    /** setjmp() without the jump: the context of c becomes the given point. */
    method SaveContext(c: Coro, point: Point)
      requires Valid() && c in stacks
      modifies this`m, c
      ensures Valid() && c.id < |old(m).ctx|
      ensures m == old(m).(ctx := old(m).ctx[c.id := point])
    {
      hide *;
      ValidIs();
      Found(c);
      SameLists(m, m.(ctx := m.ctx[c.id := point]));
      SetState(c, point, m.ctx);
      m := m.(ctx := m.ctx[c.id := point]);
      ValidBy();
    }

    /** What longjmp() goes to. */
    lemma JumpsTo()
      requires Valid() && Inv(m) && m.cpu.Jump?
      ensures running in stacks && running.id == m.running[0] < |m.ctx| && Loaded(m)
      ensures m.ctx[running.id].Fork94? ==> m.idle != []
      ensures running.state == m.ctx[running.id] && saved == m.saved && !running.state.Stale?
    {
      HeadsAreStacks();
      ValidIs();
      Found(running);
      HasLanding(m);
      hide Valid, Lists, Ids, Linked, Links, Points, Inv, Head;
    }

    static lemma HasLanding(m: Machine)
      requires Inv(m) && m.cpu.Jump?
      ensures Loaded(m) && !m.ctx[m.running[0]].Stale? && (m.ctx[m.running[0]].Fork94? ==> m.idle != [])
      ensures m.ctx[m.running[0]].AtLine143? || m.ctx[m.running[0]].Fork138? ==> |m.running| >= 2
    {
    }

    /** The code behind each setjmp(), from the machine in which its context is used up. */
    static function Continued(m: Machine, k: Point): Machine
      requires Loaded(m) && (k.Fork94? ==> m.idle != [])
    {
      match k
      case AtStart(fun) => m.(cpu := User(Entered(fun, m.saved)))
      case AtLine137 => PicoroMachine.StartMain(m.(ctx := m.ctx[m.running[0] := Fork138(m.saved)]))
      case AtLine143 => PicoroMachine.Announce(m, m.saved)
      case Fork138(fun) => PicoroMachine.Announce(m, fun)
      case Fork94(fun) => PicoroMachine.Activate(m, fun)
      case _ => m.(cpu := User(Returned(m.saved)))
    }

    static lemma LandIs(m: Machine, k: Point)
      requires Loaded(m) && k == m.ctx[m.running[0]] && !k.Stale? && (k.Fork94? ==> m.idle != [])
      ensures var m' := m.(ctx := m.ctx[m.running[0] := Stale]); Loaded(m') && Land(m) == Continued(m', k)
    {
    }

    static lemma ContinuedIs(m: Machine, k: Point)
      requires Loaded(m) && (k.Fork94? ==> m.idle != [])
      ensures Continued(m, k) ==
        match k
        case AtStart(fun) => m.(cpu := User(Entered(fun, m.saved)))
        case AtLine137 => PicoroMachine.StartMain(m.(ctx := m.ctx[m.running[0] := Fork138(m.saved)]))
        case AtLine143 => PicoroMachine.Announce(m, m.saved)
        case Fork138(fun) => PicoroMachine.Announce(m, fun)
        case Fork94(fun) => PicoroMachine.Activate(m, fun)
        case _ => m.(cpu := User(Returned(m.saved)))
    {
    }

    /** What longjmp() returns to. */
    method Continue(k: Point)
      requires Valid() && Loaded(m) && !k.Stale? && (k.Fork94? ==> m.idle != [])
      requires k.AtLine143? || k.Fork138? ==> |m.running| >= 2
      modifies this, stacks
      ensures Valid() && old(stacks) <= stacks && forall k | |old(stacks)| <= k < |stacks| :: fresh(stacks[k])
      ensures m == Continued(old(m), k) && cpu == m.cpu
    {
      HeadsAreStacks();
      ContinuedIs(m, k);
      hide *;
      ValidIs();
      match k {
        case AtStart(fun) => SetCpu(User(Entered(fun, saved)));
        case AtLine137 =>
          SaveContext(running, Fork138(saved));
          StartMain();
        case AtLine143 => Announce(saved);
        case Fork138(fun) => Announce(fun);
        case Fork94(fun) => Activate(fun);
        case Stale => assert false;
        case _ => SetCpu(User(Returned(saved)));
      }
      ValidIs();
    }

    /** longjmp(running->state, 1) and the code after the setjmp() that it returns to, up to the next jump. */
    method LongJump()
      requires Valid() && Inv(m) && m.cpu.Jump?
      modifies this, stacks
      ensures Valid() && old(stacks) <= stacks && forall k | |old(stacks)| <= k < |stacks| :: fresh(stacks[k])
      ensures Loaded(old(m)) && (old(m).ctx[old(m).running[0]].Fork94? ==> old(m).idle != [])
      ensures m == Land(old(m)) && cpu == m.cpu
    {
      JumpsTo();
      HasLanding(m);
      LandIs(m, running.state);
      hide *;
      var k := running.state;
      SaveContext(running, Stale);
      Continue(k);
    }

    method SetCpu(next: Cpu)
      requires Valid()
      modifies this`cpu, this`m
      ensures Valid() && m == old(m).(cpu := next) && cpu == next
    {
      hide *;
      ValidIs();
      SameLists(m, m.(cpu := next));
      cpu := next;
      m := m.(cpu := next);
      ValidBy();
    }

    /** Jump after jump, to user code. */
    method Run()
      requires Valid() && Inv(m) && cpu == m.cpu
      modifies this, stacks
      ensures Valid() && old(stacks) <= stacks && forall k | |old(stacks)| <= k < |stacks| :: fresh(stacks[k])
      ensures m == RunToUser(old(m)) && cpu == m.cpu
      decreases Rank(m)
    {
      hide Valid, Inv, Rank, Land, RunToUser;
      if cpu.Jump? {
        LandDescends(m);
        NextJump(m);
        LongJump();
        Run();
      } else {
        NoJump(m);
      }
    }

    // ---- What user code calls: each call is one step of the stack machine ----

    /** resume() */
    method UserResume(c: Coro?, arg: Value)
      requires Valid() && Ready(m) && (c != null ==> c in stacks) && Allowed(m, Resume(Ref(c), arg))
      modifies this, stacks
      ensures Valid() && old(stacks) <= stacks && forall k | |old(stacks)| <= k < |stacks| :: fresh(stacks[k])
      ensures Done(old(m), Resume(Ref(c), arg), m) && cpu == m.cpu
    {
      ghost var call := Resume(Ref(c), arg);
      DoneByRunning(m, call);
      ResumeIsOff(m, Ref(c));
      hide *;
      BeginResume(c, arg);
      Run();
    }

    /** yield() */
    method UserYield(arg: Value)
      requires Valid() && Ready(m) && Allowed(m, Yield(arg))
      modifies this, stacks
      ensures Valid() && old(stacks) <= stacks && forall k | |old(stacks)| <= k < |stacks| :: fresh(stacks[k])
      ensures Done(old(m), Yield(arg), m) && cpu == m.cpu
    {
      DoneByRunning(m, Yield(arg));
      NotFirst(m);
      hide *;
      BeginYield(arg);
      Run();
    }

    /** coroutine() */
    method UserCreate(fun: Value)
      requires Valid() && Ready(m)
      modifies this, stacks
      ensures Valid() && old(stacks) <= stacks && forall k | |old(stacks)| <= k < |stacks| :: fresh(stacks[k])
      ensures Done(old(m), Create(fun), m) && cpu == m.cpu
    {
      DoneByRunning(m, Create(fun));
      hide *;
      RunCreate(fun);
    }

    /** coroutine(), with all its jumps. */
    method RunCreate(fun: Value)
      requires Valid() && Inv(Begin(m, Create(fun)))
      modifies this, stacks
      ensures Valid() && old(stacks) <= stacks && forall k | |old(stacks)| <= k < |stacks| :: fresh(stacks[k])
      ensures m == RunToUser(Begin(old(m), Create(fun))) && cpu == m.cpu
    {
      hide *;
      BeginCreate(fun);
      Run();
    }

    /** The function of a coroutine returns. */
    method UserReturn(result: Value)
      requires Valid() && Ready(m) && Allowed(m, Return(result))
      modifies this, stacks
      ensures Valid() && old(stacks) <= stacks && forall k | |old(stacks)| <= k < |stacks| :: fresh(stacks[k])
      ensures Done(old(m), Return(result), m) && cpu == m.cpu
    {
      DoneByRunning(m, Return(result));
      NotFirst(m);
      hide *;
      BeginReturn(result);
      Run();
    }
  }

  // ---- Calls as steps of the stack machine ----

  /** What a call gives its callers: a step of the stack machine, or a stop at the
      assertion in resume() for a call that the stack machine refuses. */
  ghost predicate Done(m: Machine, call: Call, m': Machine)
  {
    && Ready(m) && Allowed(m, call) && m' == Exec(m, call)
    && if S.Refused(Abstract(m), call) then m'.cpu.AssertionFailed?
       else Ready(m') && S.Step(Abstract(m), call, Abstract(m'), m'.cpu.outcome)
  }

  lemma DoneByRunning(m: Machine, call: Call)
    requires Ready(m) && Allowed(m, call)
    ensures Inv(Begin(m, call)) && Done(m, call, RunToUser(Begin(m, call)))
  {
    BeginKeepsInv(m, call);
    Refines(m, call);
  }

  lemma NoJump(m: Machine)
    requires Inv(m) && !m.cpu.Jump?
    ensures RunToUser(m) == m
  {
  }

  lemma ResumeIsOff(m: Machine, p: Pointer)
    requires Ready(m) && (p.To? ==> Exposed(m, p.id))
    ensures PicoroMachine.Resumable(m, p) ==> OffLists(m, p.id)
  {
    if p.To? {
      ResumableMeansParked(m, p.id);
    }
  }

  lemma NotFirst(m: Machine)
    requires Ready(m) && m.running[0] != 0
    ensures |m.running| >= 2
  {
  }
}
