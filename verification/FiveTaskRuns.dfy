/** What the kernel guarantees to the five tasks outright - delivery and context isolation, with no
    hypothesis left - and that booting brings the system into a state where all of it holds. */
module FiveTaskRuns {
  import opened Machine
  import opened Tasks
  import opened Syscalls
  import opened KernelRuns
  import opened Deliveries
  import opened Contexts
  import opened Results
  import opened FiveTasks

  // ----- the kernel's own guarantees, without their hypothesis -----

  /** The kernel events of one step of the system. */
  function Events(k: KState, a: Act): seq<Event> {
    match a
    case Interrupt(u) => [Tick(u)]
    case Report(u, aux) => [Syscall(u, aux)]
    case Local => []
    case Call(u, msg) =>
      (if u.rax == SYS_SEND then [UserCode(k.umem[u.rsi := msg])] else []) + [Syscall(u, 0)]
  }

  /** The kernel events of the first `n` steps of a run. */
  function AllEvents(ss: seq<Sys>, acts: seq<Act>, n: nat): seq<Event>
    requires n <= |acts| && n <= |ss|
  {
    if n == 0 then [] else AllEvents(ss, acts, n - 1) + Events(ss[n - 1].k, acts[n - 1])
  }

  lemma {:induction false} AllEventsGrow(ss: seq<Sys>, acts: seq<Act>, x: nat, n: nat)
    requires x <= n <= |acts| && n <= |ss|
    ensures AllEvents(ss, acts, x) <= AllEvents(ss, acts, n)
    decreases n
  {
    if x < n {
      AllEventsGrow(ss, acts, x, n - 1);
    }
  }

  lemma OneMore(ks: seq<KState>, es: seq<Event>, e: Event) returns (ks': seq<KState>)
    requires CoveredTrace(ks, es) && |ks| == |es| + 1
    requires Inv(ks[|es|]) && Enabled(e) && Covered(ks[|es|], e)
    ensures CoveredTrace(ks', es + [e]) && |ks'| == |es| + 2 && ks'[|es| + 1] == Step(ks[|es|], e)
    ensures ks <= ks'
  {
    hide Step, BaseInv, Covered;
    var k' := Step(ks[|es|], e);
    StepKeepsInv(ks[|es|], e);
    ks' := ks + [k'];
    var es' := es + [e];
    forall n | 0 <= n < |es'| ensures Enabled(es'[n]) && ks'[n + 1] == Step(ks'[n], es'[n]) && Covered(ks'[n], es'[n]) {
      if n < |es| {
        assert es'[n] == es[n] && ks'[n] == ks[n] && ks'[n + 1] == ks[n + 1];
      }
    }
  }

  lemma StepEvents(s: Sys, a: Act, s': Sys, ks: seq<KState>, es: seq<Event>) returns (ks': seq<KState>)
    requires SysInv(s) && SysStep(s, a, s') && CoveredTrace(ks, es) && ks[|es|] == s.k
    ensures CoveredTrace(ks', es + Events(s.k, a)) && ks'[|es + Events(s.k, a)|] == s'.k && ks <= ks'
  {
    hide Step, Covered, Protocol, Look, Rule, Trace, CoveredTrace, TableInv, NoMissedRendezvous, DeliveryInv;
    TraceLength(ks, es);
    match a
    case Local =>
      ks' := ks;
      assert es + Events(s.k, a) == es;
    case Interrupt(u) =>
      QuietInv(s, Tick(u), s');
      ks' := OneMore(ks, es, Tick(u));
    case Report(u, aux) =>
      QuietInv(s, Syscall(u, aux), s');
      ks' := OneMore(ks, es, Syscall(u, aux));
    case Call(u, msg) =>
      CallRule(s, a, s');
      var s1 := s.(k := Stored(s.k, a));
      if u.rax == SYS_SEND {
        StoreInv(s, u.rsi, msg);
        var e := UserCode(s.k.umem[u.rsi := msg]);
        assert Covered(s.k, e) by { QuietInv(s, e, s.(k := Step(s.k, e))); }
        var ks1 := OneMore(ks, es, e);
        StoredIsUserCode(s.k, a);
        CallInv(s1, a, s');
        ks' := OneMore(ks1, es + [e], Syscall(u, 0));
        assert es + Events(s.k, a) == es + [e] + [Syscall(u, 0)];
      } else {
        CallInv(s1, a, s');
        ks' := OneMore(ks, es, Syscall(u, 0));
        assert Events(s.k, a) == [Syscall(u, 0)];
      }
  }

  lemma StoredIsUserCode(k: KState, a: Act)
    requires k.Shaped() && k.tasks[k.cur].Some? && a.Call? && a.u.rax == SYS_SEND
    ensures Stored(k, a) == Step(k, UserCode(k.umem[a.u.rsi := a.msg]))
  {
  }

  lemma TraceLength(ks: seq<KState>, es: seq<Event>)
    requires CoveredTrace(ks, es)
    ensures |ks| == |es| + 1
  {
  }

  /** The kernel run `ks` passes through the states of `ss`, each after the events of the steps
      before it. */
  ghost predicate Follows(ks: seq<KState>, ss: seq<Sys>, acts: seq<Act>, n: nat)
    requires n <= |acts| && n < |ss|
  {
    && CoveredTrace(ks, AllEvents(ss, acts, n))
    && forall x :: 0 <= x <= n ==>
         |AllEvents(ss, acts, x)| < |ks| && ks[|AllEvents(ss, acts, x)|] == ss[x].k
  }

  lemma StartFollows(ss: seq<Sys>, acts: seq<Act>)
    requires |ss| > 0 && Inv(ss[0].k)
    ensures Follows([ss[0].k], ss, acts, 0)
  {
    hide Step, TableInv, NoMissedRendezvous, DeliveryInv;
  }

  lemma FollowsTo(ks: seq<KState>, ss: seq<Sys>, acts: seq<Act>, n: nat)
    requires n <= |acts| && n < |ss| && Follows(ks, ss, acts, n)
    ensures CoveredTrace(ks, AllEvents(ss, acts, n)) && |ks| == |AllEvents(ss, acts, n)| + 1
    ensures ks[|AllEvents(ss, acts, n)|] == ss[n].k && ks[0] == ss[0].k
  {
    hide Step, Covered, Events;
    assert AllEvents(ss, acts, 0) == [];
    TraceLength(ks, AllEvents(ss, acts, n));
  }

  lemma FollowsOn(ks0: seq<KState>, ks: seq<KState>, ss: seq<Sys>, acts: seq<Act>, n: nat)
    requires 0 < n <= |acts| && n < |ss| && Follows(ks0, ss, acts, n - 1) && ks0 <= ks
    requires var es := AllEvents(ss, acts, n - 1) + Events(ss[n - 1].k, acts[n - 1]);
             CoveredTrace(ks, es) && |es| < |ks| && ks[|es|] == ss[n].k
    ensures Follows(ks, ss, acts, n) && ks[0] == ss[0].k
  {
    hide CoveredTrace, Events;
    assert AllEvents(ss, acts, 0) == [];
    forall x | 0 <= x <= n
      ensures |AllEvents(ss, acts, x)| < |ks| && ks[|AllEvents(ss, acts, x)|] == ss[x].k
    {
      if x < n {
        assert |AllEvents(ss, acts, x)| < |ks0|;
      }
    }
  }

  /** Every run of the five tasks is a run of the kernel: the events are those of the acts, in
      order, the states are passed through where they belong, and a blocked task always finds
      another to take over. */
  lemma {:induction false} CoveredByItself(ss: seq<Sys>, acts: seq<Act>, n: nat) returns (ks: seq<KState>)
    requires SysTrace(ss, acts) && SysInv(ss[0]) && n < |ss|
    ensures Follows(ks, ss, acts, n) && Inv(ks[0])
    decreases n
  {
    hide Step, Covered, Protocol, Look, SysStep, BaseInv, CoveredTrace, Events, Follows, AllEvents;
    if n == 0 {
      ks := [ss[0].k];
      StartFollows(ss, acts);
    } else {
      var ks0 := CoveredByItself(ss, acts, n - 1);
      DeadlockFree(ss, acts, n - 1);
      FollowsTo(ks0, ss, acts, n - 1);
      ks := StepEvents(ss[n - 1], acts[n - 1], ss[n], ks0, AllEvents(ss, acts, n - 1));
      TraceLength(ks, AllEvents(ss, acts, n - 1) + Events(ss[n - 1].k, acts[n - 1]));
      FollowsOn(ks0, ks, ss, acts, n);
    }
  }

  /** The trap of a step that is not local. */
  function Trap(a: Act): Event {
    match a
    case Interrupt(u) => Tick(u)
    case Report(u, aux) => Syscall(u, aux)
    case Local => UserCode(map[])
    case Call(u, _) => Syscall(u, 0)
  }

  /** Where the events of step `x` are among all events. */
  lemma OwnEvents(ss: seq<Sys>, acts: seq<Act>, x: nat, n: nat)
    requires x < n <= |acts| && n <= |ss|
    ensures var before, own := AllEvents(ss, acts, x), Events(ss[x].k, acts[x]);
            |AllEvents(ss, acts, x + 1)| == |before| + |own| <= |AllEvents(ss, acts, n)|
            && forall y :: 0 <= y < |own| ==> AllEvents(ss, acts, n)[|before| + y] == own[y]
  {
    hide Events;
    AllEventsGrow(ss, acts, x + 1, n);
    assert AllEvents(ss, acts, x + 1) == AllEvents(ss, acts, x) + Events(ss[x].k, acts[x]);
  }

  /** Before the trap of step `x` the kernel is in the state of the system, but for the message that
      a send has stored. */
  lemma TrapOf(ks: seq<KState>, ss: seq<Sys>, acts: seq<Act>, n: nat, x: nat)
    requires n <= |acts| && n < |ss| && Follows(ks, ss, acts, n) && x < n && !acts[x].Local?
    ensures var first := |AllEvents(ss, acts, x + 1)| - 1;
            && |AllEvents(ss, acts, x)| <= first < |AllEvents(ss, acts, n)| < |ks|
            && AllEvents(ss, acts, n)[first] == Trap(acts[x]) && ks[first] == Stored(ss[x].k, acts[x])
            && (first == |AllEvents(ss, acts, x)| || first == |AllEvents(ss, acts, x)| + 1)
  {
    hide Step, Covered, AllEvents;
    OwnEvents(ss, acts, x, n);
    var es, at := AllEvents(ss, acts, n), |AllEvents(ss, acts, x)|;
    assert ks[at] == ss[x].k && ks[|es|] == ss[n].k;
    var own := Events(ss[x].k, acts[x]);
    assert es[at] == own[0];
    if |own| == 2 {
      assert es[at + 1] == own[1] && ks[at + 1] == Step(ks[at], es[at]);
      StoredIsUserCode(ss[x].k, acts[x]);
    }
  }

  /** Between two states of the system the kernel does not change the task in control. */
  lemma CurInside(ks: seq<KState>, ss: seq<Sys>, acts: seq<Act>, n: nat, x: nat, j: nat)
    requires n <= |acts| && n < |ss| && Follows(ks, ss, acts, n) && x < n
    requires |AllEvents(ss, acts, x)| <= j < |AllEvents(ss, acts, x + 1)|
    ensures j < |ks| && ks[j].cur == ss[x].k.cur
  {
    hide AllEvents, CoveredTrace, Trap;
    assert acts[x].Local? ==> Events(ss[x].k, acts[x]) == [];
    OwnEvents(ss, acts, x, n);
    TrapOf(ks, ss, acts, n, x);
    assert ks[|AllEvents(ss, acts, x)|] == ss[x].k;
  }

  /** The step of the system in which the kernel's `j`-th event happens. */
  lemma {:induction false} StepOf(ss: seq<Sys>, acts: seq<Act>, m: nat, n: nat, j: nat) returns (x: nat)
    requires m <= n <= |acts| && n <= |ss|
    requires |AllEvents(ss, acts, m)| <= j < |AllEvents(ss, acts, n)|
    ensures m <= x < n && |AllEvents(ss, acts, x)| <= j < |AllEvents(ss, acts, x + 1)|
    decreases n
  {
    hide AllEvents;
    if |AllEvents(ss, acts, n - 1)| <= j {
      x := n - 1;
    } else {
      x := StepOf(ss, acts, m, n - 1, j);
    }
  }

  /** If the task in slot `i` is not in control at the steps from `m` on, it is not in control in
      between either. */
  lemma AwayInside(ks: seq<KState>, ss: seq<Sys>, acts: seq<Act>, i: nat, m: nat, n: nat)
    requires n <= |acts| && n < |ss| && Follows(ks, ss, acts, n) && m <= n
    requires forall x :: m <= x < n ==> ss[x].k.cur != i
    ensures |AllEvents(ss, acts, n)| < |ks|
    ensures forall j :: |AllEvents(ss, acts, m)| <= j < |AllEvents(ss, acts, n)| ==> ks[j].cur != i
  {
    hide CoveredTrace;
    assert ks[|AllEvents(ss, acts, n)|] == ss[n].k;
    forall j | |AllEvents(ss, acts, m)| <= j < |AllEvents(ss, acts, n)| ensures ks[j].cur != i {
      var x := StepOf(ss, acts, m, n, j);
      CurInside(ks, ss, acts, n, x, j);
    }
  }

  /** Context isolation in the booted system, outright: a task that was interrupted or made a call at
      step `m` resumes with exactly the registers it had; only rax may differ, by its own call. */
  lemma FiveTasksResume(ss: seq<Sys>, acts: seq<Act>, i: nat, m: nat, n: nat)
    requires SysTrace(ss, acts) && SysInv(ss[0]) && m < n < |ss| && i <= GUI
    requires ss[m].k.cur == i && !acts[m].Local? && ss[n].k.cur == i
    requires forall x :: m < x < n ==> ss[x].k.cur != i
    ensures Stored(ss[m].k, acts[m]).Shaped()
    ensures var k, e := Stored(ss[m].k, acts[m]), Trap(acts[m]);
            var resumed := PopRegs(ss[n].k.kmem, ss[n].k.CurrentRsp());
            if e.Tick? then resumed == e.u
            else && resumed.(rax := 0) == SyscallSaved(e.u).(rax := 0)
                 && resumed.rax == if BlocksOn(k, e) then 0 else SavedFrame(k, e).rax
  {
    hide SysStep, SysInv, PopRegs, SavedFrame, BlocksOn, CoveredTrace, SyscallSaved, AllEvents;
    var ks := CoveredByItself(ss, acts, n);
    var es := AllEvents(ss, acts, n);
    TraceLength(ks, es);
    AllEventsGrow(ss, acts, m + 1, n);
    var first := |AllEvents(ss, acts, m + 1)| - 1;
    TrapOf(ks, ss, acts, n, m);
    TrapIsNoUserCode(acts[m]);
    AwayInside(ks, ss, acts, i, m + 1, n);
    ResumesExactly(ks, es, i, first, |es|);
  }

  lemma TrapIsNoUserCode(a: Act)
    ensures !a.Local? ==> !Trap(a).UserCode?
  {
  }

  /** In the booted system a send returns zero exactly if its destination exists, and then its message
      is the last that was delivered for the sender; otherwise it returns minus one and sent nothing. */
  lemma FiveTasksSendReturns(ss: seq<Sys>, acts: seq<Act>, i: nat, m: nat, n: nat)
    requires SysTrace(ss, acts) && SysInv(ss[0]) && m < n < |ss| && i <= GUI
    requires ss[m].k.cur == i && acts[m].Call? && acts[m].u.rax == 3 && ss[n].k.cur == i
    requires forall x :: m < x < n ==> ss[x].k.cur != i
    ensures var result := PopRegs(ss[n].k.kmem, ss[n].k.CurrentRsp()).rax;
            var sent := Accepted(acts[m].u.rdi, acts[m].msg.(sender := i + 1));
            && (result == 0 || result == 0xFFFF_FFFF_FFFF_FFFF)
            && (result == 0 <==> ValidDest(ss[m].k, acts[m].u.rdi))
            && DeliveredBy(ss[n].k.log, i) == DeliveredBy(ss[m].k.log, i) + if result == 0 then [sent] else []
  {
    hide SysStep, SysInv, PopRegs, CoveredTrace, AllEvents, DeliveredBy;
    var ks := CoveredByItself(ss, acts, n);
    var es := AllEvents(ss, acts, n);
    TraceLength(ks, es);
    AllEventsGrow(ss, acts, m + 1, n);
    var first := |AllEvents(ss, acts, m + 1)| - 1;
    TrapOf(ks, ss, acts, n, m);
    AwayInside(ks, ss, acts, i, m + 1, n);
    SendReturns(ks, es, i, first, |es|);
  }

  /** The first time a task gets control, it pops the frame it was built with. */
  lemma FiveTasksEnter(ss: seq<Sys>, acts: seq<Act>, i: nat, n: nat)
    requires SysTrace(ss, acts) && SysInv(ss[0]) && n < |ss| && i <= GUI && RunnableAt(ss[0].k.tasks, i)
    requires (forall x :: 0 <= x < n ==> ss[x].k.cur != i) && ss[n].k.cur == i
    ensures PopRegs(ss[n].k.kmem, ss[n].k.CurrentRsp()) == FrameBelow(ss[0].k.kmem, Top(ss[0].k, i))
  {
    hide SysStep, SysInv, PopRegs, CoveredTrace;
    var ks := CoveredByItself(ss, acts, n);
    var es := AllEvents(ss, acts, n);
    TraceLength(ks, es);
    AwayInside(ks, ss, acts, i, 0, n);
    assert |AllEvents(ss, acts, 0)| == 0 && ks[0] == ss[0].k;
    FirstSwitchPops(ks, es, i, |es|);
  }

  /** The valid sends that the program in slot `i` makes in the first `n` steps. */
  function ProgramSends(ss: seq<Sys>, acts: seq<Act>, i: nat, n: nat): seq<Accepted>
    requires n <= |acts| && n <= |ss| && forall x :: 0 <= x < n ==> ss[x].k.Shaped()
  {
    if n == 0 then []
    else
      var k, a := ss[n - 1].k, acts[n - 1];
      ProgramSends(ss, acts, i, n - 1) +
      if k.cur == i && a.Call? && a.u.rax == SYS_SEND && ValidDest(k, a.u.rdi)
      then [Accepted(a.u.rdi, a.msg.(sender := i + 1))] else []
  }

  lemma ExecAccepts(s: Sys, a: Act, s': Sys)
    requires SysInv(s) && SysStep(s, a, s')
    ensures s'.k.Shaped()
    ensures s'.k.accepted ==
              if a.Call? && a.u.rax == SYS_SEND && ValidDest(s.k, a.u.rdi)
              then s.k.accepted[s.k.cur := s.k.accepted[s.k.cur] + [Accepted(a.u.rdi, a.msg.(sender := s.k.cur + 1))]]
              else s.k.accepted
  {
    hide Step, Protocol, Look, Rule, TableInv, NoMissedRendezvous, DeliveryInv, DeliversAtMostOnce;
    match a
    case Interrupt(u) => StepDelivers(s.k, Tick(u));
    case Report(u, aux) => StepDelivers(s.k, Syscall(u, aux));
    case Local =>
    case Call(u, msg) =>
      CallRule(s, a, s');
      if u.rax == SYS_SEND {
        StoreInv(s, u.rsi, msg);
      }
      StepDelivers(Stored(s.k, a), Syscall(u, 0));
  }

  lemma {:induction false} ProgramSendsAccepted(ss: seq<Sys>, acts: seq<Act>, i: nat, n: nat)
    requires SysTrace(ss, acts) && SysInv(ss[0]) && n < |ss| && i <= GUI
    ensures ss[n].k.accepted[i] == ss[0].k.accepted[i] + ProgramSends(ss, acts, i, n)
    decreases n
  {
    hide SysStep, SysInv;
    if n > 0 {
      ProgramSendsAccepted(ss, acts, i, n - 1);
      DeadlockFree(ss, acts, n - 1);
      ExecAccepts(ss[n - 1], acts[n - 1], ss[n]);
    }
  }

  /** Nothing has been sent yet, and the invariant holds. */
  ghost predicate Booted(s: Sys) {
    SysInv(s) && s.k.log == [] && forall i :: 0 <= i < SLOTS ==> s.k.accepted[i] == []
  }

  /** Delivery in the booted system, outright: what each program has sent is what was delivered for
      it, in order, then at most one message its task still holds; the sender field is true; and a
      task in control holds none, so each send that has returned was delivered. */
  lemma FiveTasksDeliver(ss: seq<Sys>, acts: seq<Act>, i: nat, n: nat)
    requires SysTrace(ss, acts) && Booted(ss[0]) && n < |ss| && i <= GUI
    ensures ProgramSends(ss, acts, i, n) == DeliveredBy(ss[n].k.log, i) + Pending(ss[n].k.tasks[i])
    ensures Authentic(ProgramSends(ss, acts, i, n), i)
    ensures ss[n].k.cur == i ==> ProgramSends(ss, acts, i, n) == DeliveredBy(ss[n].k.log, i)
    ensures NoMissedRendezvous(ss[n].k.tasks)
  {
    hide SysStep, Protocol, Look, TableInv, NoMissedRendezvous, Authentic, DeliveredBy;
    DeadlockFree(ss, acts, n);
    ProgramSendsAccepted(ss, acts, i, n);
    assert Accounted(ss[n].k, i);
  }

  // ----- boot -----

  const STACK_BYTES := 16384

  /** What `kernel_main` gives `new_user`: entry point, both stacks, the I/O permission. */
  datatype Program = Program(entry: int, userBase: int, kernelBase: int, allowIo: bool)

  /** The first `n` tasks, with ids from 1, and the memory that holds their first frames. */
  function Created(ps: seq<Program>, m: Mem, n: nat): (r: (seq<Task>, Mem))
    requires n <= |ps|
    ensures |r.0| == n
  {
    if n == 0 then ([], m)
    else
      var (ts, m1) := Created(ps, m, n - 1);
      var p := ps[n - 1];
      var (t, m2) := NewUser(m1, n, p.entry, p.userBase, STACK_BYTES, p.kernelBase, STACK_BYTES, p.allowIo);
      (ts + [t], m2)
  }

  /** `spawn` on a value. */
  function Spawned(tasks: Table, t: Task): (r: Table)
    requires |tasks| == SLOTS && FreeSlot(tasks, 0) < SLOTS
    ensures |r| == SLOTS
  {
    tasks[FreeSlot(tasks, 0) := Some(t)]
  }

  /** One spawn after the other fills the slots in order. */
  function SpawnAll(ts: seq<Task>): (r: Table)
    requires |ts| <= SLOTS
    ensures |r| == SLOTS
    ensures forall j :: 0 <= j < SLOTS ==> r[j] == if j < |ts| then Some(ts[j]) else None
    decreases |ts|
  {
    if ts == [] then seq(SLOTS, _ => None)
    else
      var t := SpawnAll(ts[..|ts| - 1]);
      assert t[|ts| - 1].None? && FreeSlot(t, 0) == |ts| - 1;
      Spawned(t, ts[|ts| - 1])
  }

  /** `start_first_task`: slot 0 takes control and both stack registers name its stack. */
  function StartFirst(tasks: Table, m: Mem, um: UserMem): KState
    requires |tasks| == SLOTS && tasks[0].Some?
  {
    var top := tasks[0].value.kernelStackTop;
    KState(tasks, 0, 0, m, um, top, top, seq(SLOTS, _ => []), [])
  }

  ghost predicate FreshTask(t: Task, id: int, base: int) {
    && t.id == id && t.state == Ready && t.rsp == t.kernelStackTop - FRAME_BYTES
    && base + 16384 - 16 < t.kernelStackTop <= base + 16384
  }

  /** The privilege level in both selectors, their two low bits, is 3. */
  predicate RingThree(u: Regs) {
    u.cs % 4 == 3 && u.ss % 4 == 3
  }

  /** Registers that enter program `p` in Ring 3 on its user stack, interrupts on. */
  predicate Enters(u: Regs, p: Program) {
    && u.rip == p.entry && u.cs == 0x23 && u.ss == 0x1B && RingThree(u)
    && p.userBase + 16384 - 16 < u.rsp <= p.userBase + 16384 && u.rsp % 16 == 0
    && (u.rflags / 0x200) % 2 == 1 && (u.rflags / 0x1000) % 4 == if p.allowIo then 3 else 0
  }

  predicate DisjointPair(p: Program, q: Program) {
    p.kernelBase + 16384 <= q.kernelBase || q.kernelBase + 16384 <= p.kernelBase
  }

  ghost predicate DisjointStacks(ps: seq<Program>) {
    forall i, j :: 0 <= i < j < |ps| ==> DisjointPair(ps[i], ps[j])
  }

  /** Every task created keeps the frame it was given while the others are created. */
  lemma {:induction false} CreatedFresh(ps: seq<Program>, m: Mem, n: nat, i: nat)
    requires i < n <= |ps| && DisjointStacks(ps)
    ensures var (ts, m') := Created(ps, m, n);
            FreshTask(ts[i], i + 1, ps[i].kernelBase) && Enters(FrameBelow(m', ts[i].kernelStackTop), ps[i])
    decreases n
  {
    hide NewUser, FrameBelow, Enters;
    var p := ps[n - 1];
    var (ts, m1) := Created(ps, m, n - 1);
    CreatedNext(m1, n, p);
    if i < n - 1 {
      CreatedFresh(ps, m, n - 1, i);
      assert DisjointPair(ps[i], p);
    }
  }

  lemma CreatedNext(m: Mem, id: int, p: Program)
    ensures var (t, m') := NewUser(m, id, p.entry, p.userBase, STACK_BYTES, p.kernelBase, STACK_BYTES, p.allowIo);
            && FreshTask(t, id, p.kernelBase) && Enters(FrameBelow(m', t.kernelStackTop), p)
            && forall top :: Apart(top, t.kernelStackTop) ==> FrameBelow(m', top) == FrameBelow(m, top)
  {
    hide FrameBelow;
    NewUserStarts(m, id, p.entry, p.userBase, STACK_BYTES, p.kernelBase, STACK_BYTES, p.allowIo);
  }

  /** Five fresh tasks with ids 1 to 5 on disjoint kernel stacks, every program at its start. */
  lemma BootInv(tasks: Table, bases: seq<int>, m: Mem, um: UserMem)
    requires |tasks| == SLOTS && |bases| == 5
    requires forall i :: 0 <= i <= GUI ==> tasks[i].Some? && FreshTask(tasks[i].value, i + 1, bases[i])
    requires forall i :: GUI < i < SLOTS ==> tasks[i].None?
    requires forall i, j :: 0 <= i < j < 5 ==> bases[i] + STACK_BYTES <= bases[j] || bases[j] + STACK_BYTES <= bases[i]
    requires ReadMsg(um, GUI_MSG) == BLANK
    ensures Booted(Sys(StartFirst(tasks, m, um), ShIdle, FsIdle, AtaIdle, GuiPoll))
  {
    var s := Sys(StartFirst(tasks, m, um), ShIdle, FsIdle, AtaIdle, GuiPoll);
    forall i, j | Present(tasks, i) && Present(tasks, j) && i != j
      ensures Apart(tasks[i].value.kernelStackTop, tasks[j].value.kernelStackTop)
    {
      assert FreshTask(tasks[i].value, i + 1, bases[i]) && FreshTask(tasks[j].value, j + 1, bases[j]);
    }
    forall i | 0 <= i <= GUI ensures tasks[i].value.state == Ready {
      assert FreshTask(tasks[i].value, i + 1, bases[i]);
    }
    assert forall i :: 0 <= i < SLOTS ==> Accounted(s.k, i);
    assert NoMissedRendezvous(tasks);
    assert TableInv(tasks);
  }

  /** The system as it is booted: five tasks created, spawned, and the first started. */
  function BootState(ps: seq<Program>, m: Mem, um: UserMem): Sys
    requires |ps| == 5
  {
    var (ts, m') := Created(ps, m, 5);
    Sys(StartFirst(SpawnAll(ts), m', um), ShIdle, FsIdle, AtaIdle, GuiPoll)
  }

  /** Boot establishes the invariant, and leaves every task a frame that enters its program. */
  lemma BootStarts(ps: seq<Program>, m: Mem, um: UserMem)
    requires |ps| == 5 && DisjointStacks(ps) && ReadMsg(um, GUI_MSG) == BLANK
    ensures Booted(BootState(ps, m, um))
    ensures forall i :: 0 <= i <= GUI ==>
              var k := BootState(ps, m, um).k;
              k.tasks[i].Some? && RunnableAt(k.tasks, i) && Enters(FrameBelow(k.kmem, Top(k, i)), ps[i])
  {
    hide SysInv, FrameBelow, Enters, Created;
    var (ts, m') := Created(ps, m, 5);
    forall i | 0 <= i <= GUI
      ensures FreshTask(ts[i], i + 1, ps[i].kernelBase) && Enters(FrameBelow(m', ts[i].kernelStackTop), ps[i])
    {
      CreatedFresh(ps, m, 5, i);
    }
    BootInv(SpawnAll(ts), seq(5, i requires 0 <= i < 5 => ps[i].kernelBase), m', um);
  }

  /** From power-on: in every run of the booted system, the first time a task gets control it enters
      its own program, in Ring 3 and on its own stack. */
  lemma EveryTaskEnters(ps: seq<Program>, m: Mem, um: UserMem, ss: seq<Sys>, acts: seq<Act>, i: nat, n: nat)
    requires |ps| == 5 && DisjointStacks(ps) && ReadMsg(um, GUI_MSG) == BLANK
    requires SysTrace(ss, acts) && ss[0] == BootState(ps, m, um) && n < |ss| && i <= GUI
    requires (forall x :: 0 <= x < n ==> ss[x].k.cur != i) && ss[n].k.cur == i
    ensures Enters(PopRegs(ss[n].k.kmem, ss[n].k.CurrentRsp()), ps[i])
  {
    hide SysStep, SysInv, PopRegs, Enters, BootState;
    BootStarts(ps, m, um);
    FiveTasksEnter(ss, acts, i, n);
  }
}
