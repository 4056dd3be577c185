/** Context isolation: what happens to the register frames that suspended tasks leave on their
    kernel stacks. */
module Contexts {
  import opened Machine
  import opened Tasks
  import opened Syscalls
  import opened KernelRuns

  // ----- what one step does to the saved frames -----

  /** What the call puts in the caller's rax slot before it returns or blocks. */
  function CallerRax(k: KState, rax: int, rdi: int, aux: int): Option<int>
    requires k.Shaped()
  {
    if Blocks(k, rax, rdi) then None
    else if rax == SYS_SEND then Some(if ValidDest(k, rdi) then 0 else ERROR)
    else if rax == SYS_TRY_RECV then Some(if FindSender(k, Filter(rdi), 0).Some? then 0 else ERROR)
    else if rax in {1, SYS_YIELD, SYS_RECV, 11, 12} then Some(0)
    else if rax in {5, 6, 7, 8} then Some(aux)
    else if rax == 9 then None
    else Some(ERROR)
  }

  function PatchRax(u: Regs, v: Option<int>): Regs {
    if v.Some? then u.(rax := v.value) else u
  }

  ghost predicate Woken(k: KState, k': KState, i: int)
    requires k.Shaped() && k'.Shaped()
  {
    !RunnableAt(k.tasks, i) && RunnableAt(k'.tasks, i)
  }

  function Top(k: KState, i: nat): int
    requires k.Shaped() && i < SLOTS && k.tasks[i].Some?
  {
    k.tasks[i].value.kernelStackTop
  }

  /** The frame of slot `i` after a call, given the frames at the time of the call. */
  function FrameAfter(k: KState, k': KState, callerRax: Option<int>, i: nat): Regs
    requires k.Shaped() && i < SLOTS && k.tasks[i].Some? && k'.Shaped()
  {
    var f := FrameBelow(k.kmem, Top(k, i));
    if i == k.cur then PatchRax(f, callerRax)
    else if !RunnableAt(k.tasks, i) && RunnableAt(k'.tasks, i) then f.(rax := 0)
    else f
  }

  /** Two frames get a zero in rax; a third keeps its contents. */
  lemma PokeTwice(m: Mem, t1: int, t2: int, other: int)
    requires Apart(t1, t2)
    ensures var m' := m[t1 - FRAME_BYTES + RAX_OFFSET := 0][t2 - FRAME_BYTES + RAX_OFFSET := 0];
            && FrameBelow(m', t1) == FrameBelow(m, t1).(rax := 0)
            && FrameBelow(m', t2) == FrameBelow(m, t2).(rax := 0)
            && (Apart(t1, other) && Apart(t2, other) ==> FrameBelow(m', other) == FrameBelow(m, other))
  {
    var m1 := m[t1 - FRAME_BYTES + RAX_OFFSET := 0];
    PokeRax(m, t1, 0);
    PokeOther(m1, t2, 0, t1);
    PokeOther(m, t1, 0, t2);
    PokeRax(m1, t2, 0);
    if Apart(t1, other) && Apart(t2, other) {
      PokeOther(m, t1, 0, other);
      PokeOther(m1, t2, 0, other);
    }
  }

  /** Completing a rendezvous pokes zero into two frames, that of the woken task `w` and that of
      the caller. */
  lemma RendezvousFrames(k: KState, k': KState, w: nat, i: nat)
    requires Inv(k) && Present(k.tasks, w) && !RunnableAt(k.tasks, w) && Present(k.tasks, i)
    requires k'.Shaped() && k'.tasks == WithState(k.tasks, w, Ready)
    requires k'.kmem == k.kmem[k.tasks[w].value.rsp + RAX_OFFSET := 0][k.kernelStack - FRAME_BYTES + RAX_OFFSET := 0]
    ensures FrameBelow(k'.kmem, Top(k, i)) == FrameAfter(k, k', Some(0), i)
  {
    hide FrameBelow, NoMissedRendezvous, DeliveryInv;
    PokeTwice(k.kmem, Top(k, w), Top(k, k.cur), Top(k, i));
    assert RunnableAt(k'.tasks, w);
    assert i != w ==> RunnableAt(k'.tasks, i) == RunnableAt(k.tasks, i);
  }

  /** A call that sets only the caller's rax. */
  lemma CallerFrames(k: KState, k': KState, v: int, i: nat)
    requires Inv(k) && Present(k.tasks, i)
    requires k'.Shaped() && k'.tasks == k.tasks
    requires k'.kmem == k.kmem[k.kernelStack - FRAME_BYTES + RAX_OFFSET := v]
    ensures FrameBelow(k'.kmem, Top(k, i)) == FrameAfter(k, k', Some(v), i)
  {
    if i == k.cur {
      PokeRax(k.kmem, Top(k, i), v);
    } else {
      PokeOther(k.kmem, Top(k, k.cur), v, Top(k, i));
    }
  }

  /** A call that blocks touches no frame and wakes nobody. */
  lemma BlockedFrames(k: KState, k0: KState, st: TaskState, rsp: int, i: nat)
    requires k.Shaped() && k.tasks[k.cur].Some? && !st.Ready? && !st.Running? && Present(k.tasks, i)
    requires k0 == k.(accepted := k0.accepted) && k0.Shaped()
    ensures var k' := BlockCurrent(k0, st, rsp);
            k'.kmem == k.kmem && FrameBelow(k'.kmem, Top(k, i)) == FrameAfter(k, k', None, i)
  {
    var k' := BlockCurrent(k0, st, rsp);
    assert k'.kmem == k.kmem;
    assert RunnableAt(k'.tasks, i) ==> RunnableAt(k.tasks, i);
  }

  lemma SendFrames(k: KState, destId: int, ptr: int, rsp: int, i: nat)
    requires Inv(k) && destId >= 1 && rsp == k.kernelStack - FRAME_BYTES && Present(k.tasks, i)
    ensures var k' := Send(k, destId, ptr, rsp);
            FrameBelow(k'.kmem, Top(k, i)) == FrameAfter(k, k', CallerRax(k, SYS_SEND, destId, 0), i)
  {
    var k' := Send(k, destId, ptr, rsp);
    if !ValidDest(k, destId) {
      CallerFrames(k, k', ERROR, i);
    } else if Blocks(k, SYS_SEND, destId) {
      var msg := SentMessage(k, ptr);
      BlockedFrames(k, k.Accept(destId, msg), Sending(destId, msg), rsp, i);
    } else {
      RendezvousFrames(k, k', destId - 1, i);
    }
  }

  lemma RecvFrames(k: KState, filter: int, ptr: int, rsp: int, i: nat)
    requires Inv(k) && rsp == k.kernelStack - FRAME_BYTES && Present(k.tasks, i)
    ensures var k' := Recv(k, filter, ptr, rsp);
            FrameBelow(k'.kmem, Top(k, i)) == FrameAfter(k, k', CallerRax(k, SYS_RECV, filter, 0), i)
  {
    var found := FindSender(k, Filter(filter), 0);
    if found.Some? {
      RendezvousFrames(k, Recv(k, filter, ptr, rsp), found.value, i);
    } else {
      BlockedFrames(k, k, Receiving(Filter(filter), ptr), rsp, i);
    }
  }

  lemma TryRecvFrames(k: KState, filter: int, ptr: int, rsp: int, i: nat)
    requires Inv(k) && rsp == k.kernelStack - FRAME_BYTES && Present(k.tasks, i)
    ensures var k' := TryRecv(k, filter, ptr, rsp);
            FrameBelow(k'.kmem, Top(k, i)) == FrameAfter(k, k', CallerRax(k, SYS_TRY_RECV, filter, 0), i)
  {
    var found := FindSender(k, Filter(filter), 0);
    if found.Some? {
      RendezvousFrames(k, TryRecv(k, filter, ptr, rsp), found.value, i);
    } else {
      CallerFrames(k, TryRecv(k, filter, ptr, rsp), ERROR, i);
    }
  }

  lemma PlainFrames(k: KState, rax: int, rdi: int, rsi: int, rsp: int, aux: int, i: nat)
    requires Inv(k) && rax != SYS_SHUTDOWN && rax !in {SYS_YIELD, SYS_SEND, SYS_RECV, SYS_TRY_RECV}
    requires rsp == k.kernelStack - FRAME_BYTES && Present(k.tasks, i)
    ensures var k' := Dispatch(k, rax, rdi, rsi, rsp, aux);
            FrameBelow(k'.kmem, Top(k, i)) == FrameAfter(k, k', CallerRax(k, rax, rdi, aux), i)
  {
    var k' := Dispatch(k, rax, rdi, rsi, rsp, aux);
    var r := CallerRax(k, rax, rdi, aux);
    if r.Some? {
      CallerFrames(k, k', r.value, i);
    }
  }

  lemma YieldFrames(k: KState, rsp: int, i: nat)
    requires Inv(k) && rsp == k.kernelStack - FRAME_BYTES && Present(k.tasks, i)
    ensures var k' := Yield(k, rsp); FrameBelow(k'.kmem, Top(k, i)) == FrameAfter(k, k', Some(0), i)
  {
    hide FrameBelow, FrameAfter, NoMissedRendezvous, DeliveryInv, NextTask;
    SaveIsNoop(k);
    CallerFrames(k, Yield(k, rsp), 0, i);
  }

  lemma DispatchFrames(k: KState, rax: int, rdi: int, rsi: int, rsp: int, aux: int, i: nat)
    requires Inv(k) && rax != SYS_SHUTDOWN && (rax == SYS_SEND ==> rdi >= 1)
    requires rsp == k.kernelStack - FRAME_BYTES && Present(k.tasks, i)
    ensures var k' := Dispatch(k, rax, rdi, rsi, rsp, aux);
            FrameBelow(k'.kmem, Top(k, i)) == FrameAfter(k, k', CallerRax(k, rax, rdi, aux), i)
  {
    hide Send, Recv, TryRecv, FrameBelow, FrameAfter, NoMissedRendezvous, DeliveryInv, TableInv;
    if rax == SYS_YIELD {
      YieldFrames(k, rsp, i);
    } else if rax == SYS_SEND {
      SendFrames(k, rdi, rsi, rsp, i);
    } else if rax == SYS_RECV {
      RecvFrames(k, rdi, rsi, rsp, i);
    } else if rax == SYS_TRY_RECV {
      TryRecvFrames(k, rdi, rsi, rsp, i);
    } else {
      PlainFrames(k, rax, rdi, rsi, rsp, aux, i);
    }
  }

  /** What an event leaves in the caller's own frame, and what it does to the frames of others. */
  function SavedFrame(k: KState, e: Event): Regs
    requires k.Shaped() && !e.UserCode?
  {
    if e.Tick? then e.u else PatchRax(SyscallSaved(e.u), CallerRax(k, e.u.rax, e.u.rdi, e.aux))
  }

  /** One step changes the frame of another task only by the zero that completes its own call;
      the running task's frame becomes its registers at the trap, with the result of its call. */
  ghost predicate FramesKept(k: KState, k': KState, e: Event, i: nat)
    requires k.Shaped() && k'.Shaped() && Present(k.tasks, i)
  {
    FrameBelow(k'.kmem, Top(k, i)) ==
      if i == k.cur && !e.UserCode? then SavedFrame(k, e)
      else if i != k.cur && Woken(k, k', i) then FrameBelow(k.kmem, Top(k, i)).(rax := 0)
      else FrameBelow(k.kmem, Top(k, i))
  }

  lemma PushedDispatchFrames(k: KState, m: Mem, u: Regs, aux: int, i: nat)
    requires Inv(k) && Enabled(Syscall(u, aux)) && Present(k.tasks, i)
    requires FrameBelow(m, k.kernelStack) == SyscallSaved(u)
    requires i != k.cur ==> FrameBelow(m, Top(k, i)) == FrameBelow(k.kmem, Top(k, i))
    ensures FramesKept(k, Dispatch(k.(kmem := m), u.rax, u.rdi, u.rsi, k.kernelStack - FRAME_BYTES, aux),
                       Syscall(u, aux), i)
  {
    hide Dispatch, PopRegs, DeliveryInv, NoMissedRendezvous;
    PushedInv(k, m, u.rax, u.rdi);
    FindSenderKmem(k, m, Filter(u.rdi), 0);
    DispatchFrames(k.(kmem := m), u.rax, u.rdi, u.rsi, k.kernelStack - FRAME_BYTES, aux, i);
  }

  lemma SyscallFrames(k: KState, u: Regs, aux: int, i: nat)
    requires Inv(k) && Enabled(Syscall(u, aux)) && Present(k.tasks, i)
    ensures FramesKept(k, Step(k, Syscall(u, aux)), Syscall(u, aux), i)
  {
    hide Dispatch, SyscallPush, PopRegs, FramesKept;
    SyscallSaveRestore(k.kmem, k.kernelStack, u, Top(k, i));
    PushedDispatchFrames(k, SyscallPush(k.kmem, k.kernelStack, u), u, aux, i);
  }

  lemma TickFrames(k: KState, u: Regs, i: nat)
    requires Inv(k) && Present(k.tasks, i)
    ensures FramesKept(k, Step(k, Tick(u)), Tick(u), i)
  {
    hide TimerPush, PopRegs;
    var m := TimerPush(k.kmem, k.rsp0, u);
    PushedInv(k, m, 0, 0);
    SaveIsNoop(k.(kmem := m));
    TimerSaveRestore(k.kmem, k.rsp0, u, Top(k, i));
  }

  lemma StepFrames(k: KState, e: Event, i: nat)
    requires Inv(k) && Enabled(e) && Present(k.tasks, i)
    ensures FramesKept(k, Step(k, e), e, i)
  {
    hide Dispatch;
    match e
    case UserCode(_) =>
    case Tick(u) => TickFrames(k, u, i);
    case Syscall(u, aux) => SyscallFrames(k, u, aux, i);
  }

  lemma CurrentFrame(k: KState)
    requires Inv(k)
    ensures k.CurrentRsp() == k.kernelStack - FRAME_BYTES == k.rsp0 - FRAME_BYTES
    ensures k.tasks[k.cur].Some? && k.kernelStack == Top(k, k.cur)
  {
  }

  /** The running task stops being runnable by its own blocking call and in no other way. */
  lemma StepSleeps(k: KState, e: Event)
    requires Inv(k) && Enabled(e)
    ensures RunnableAt(Step(k, e).tasks, k.cur) <==> !BlocksOn(k, e)
  {
    hide Step;
    StepTasks(k, e);
  }

  // ----- context isolation over runs -----

  /** What no event changes: who is there, their ids and stacks; and nobody but a task itself can
      stop it from being runnable. */
  ghost predicate TasksKept(k: KState, k': KState, i: nat)
    requires k.Shaped() && k'.Shaped() && Present(k.tasks, i)
  {
    && Present(k'.tasks, i) && Top(k', i) == Top(k, i)
    && (i != k.cur && RunnableAt(k.tasks, i) ==> RunnableAt(k'.tasks, i))
  }

  lemma StepKeepsTasks(k: KState, e: Event, i: nat)
    requires Inv(k) && Enabled(e) && Present(k.tasks, i)
    ensures TasksKept(k, Step(k, e), i)
  {
    hide Step;
    StepTasks(k, e);
  }

  /** The frame of a task that lost control at step `m`, while it is not in control. */
  lemma {:induction false} SuspendedFrame(ks: seq<KState>, es: seq<Event>, i: nat, m: nat, n: nat)
    requires CoveredTrace(ks, es) && Inv(ks[0]) && m < n < |ks| && i < SLOTS
    requires ks[m].cur == i && !es[m].UserCode?
    requires forall j :: m < j < n ==> ks[j].cur != i
    ensures Present(ks[m].tasks, i) && Present(ks[n].tasks, i) && Top(ks[n], i) == Top(ks[m], i)
    ensures RunnableAt(ks[m + 1].tasks, i) ==> RunnableAt(ks[n].tasks, i)
    ensures FrameBelow(ks[n].kmem, Top(ks[m], i)) ==
              if !RunnableAt(ks[m + 1].tasks, i) && RunnableAt(ks[n].tasks, i)
              then SavedFrame(ks[m], es[m]).(rax := 0) else SavedFrame(ks[m], es[m])
    decreases n
  {
    hide Step, BaseInv, Covered, SavedFrame, PopRegs;
    TraceInv(ks, es, n - 1);
    var k, k', e := ks[n - 1], ks[n], es[n - 1];
    assert Enabled(e) && k' == Step(k, e);
    if n > m + 1 {
      SuspendedFrame(ks, es, i, m, n - 1);
    }
    StepKeepsTasks(k, e, i);
    StepFrames(k, e, i);
  }

  /** Context isolation: when a task that was interrupted or made a call at step `m` next gets
      control, it resumes with exactly the registers it had, whatever the other tasks did. Only rax
      may differ, and only by its own call: the result the call gave at once, or zero if the call
      blocked and was completed by a partner. */
  lemma ResumesExactly(ks: seq<KState>, es: seq<Event>, i: nat, m: nat, n: nat)
    requires CoveredTrace(ks, es) && Inv(ks[0]) && m < n < |ks| && i < SLOTS
    requires ks[m].cur == i && !es[m].UserCode? && ks[n].cur == i
    requires forall j :: m < j < n ==> ks[j].cur != i
    ensures ks[n].CurrentRsp() == ks[n].kernelStack - FRAME_BYTES == ks[n].rsp0 - FRAME_BYTES
    ensures var resumed := PopRegs(ks[n].kmem, ks[n].CurrentRsp());
            if es[m].Tick? then resumed == es[m].u
            else && resumed.(rax := 0) == SyscallSaved(es[m].u).(rax := 0)
                 && resumed.rax == if BlocksOn(ks[m], es[m]) then 0 else SavedFrame(ks[m], es[m]).rax
  {
    hide Step, BaseInv, Covered, PopRegs, TableInv;
    TraceInv(ks, es, n);
    TraceInv(ks, es, m);
    SuspendedFrame(ks, es, i, m, n);
    CurrentFrame(ks[n]);
    assert Enabled(es[m]) && ks[m + 1] == Step(ks[m], es[m]);
    StepSleeps(ks[m], es[m]);
  }

  /** A runnable task that has not had control yet keeps the frame it was built with. */
  lemma {:induction false} FrameBeforeFirstRun(ks: seq<KState>, es: seq<Event>, i: nat, n: nat)
    requires CoveredTrace(ks, es) && Inv(ks[0]) && n < |ks| && i < SLOTS
    requires RunnableAt(ks[0].tasks, i) && forall j :: 0 <= j < n ==> ks[j].cur != i
    ensures Present(ks[n].tasks, i) && Top(ks[n], i) == Top(ks[0], i) && RunnableAt(ks[n].tasks, i)
    ensures FrameBelow(ks[n].kmem, Top(ks[0], i)) == FrameBelow(ks[0].kmem, Top(ks[0], i))
    decreases n
  {
    hide Step, BaseInv, CurrentInv, Covered, PopRegs;
    if n > 0 {
      FrameBeforeFirstRun(ks, es, i, n - 1);
      TraceInv(ks, es, n - 1);
      var k, e := ks[n - 1], es[n - 1];
      assert Enabled(e) && ks[n] == Step(k, e) && k.cur != i;
      StepKeepsTasks(k, e, i);
      StepFrames(k, e, i);
    }
  }

  /** The first switch to a task pops exactly the registers it was built with. */
  lemma FirstSwitchPops(ks: seq<KState>, es: seq<Event>, i: nat, n: nat)
    requires CoveredTrace(ks, es) && Inv(ks[0]) && n < |ks| && i < SLOTS
    requires RunnableAt(ks[0].tasks, i) && (forall j :: 0 <= j < n ==> ks[j].cur != i) && ks[n].cur == i
    ensures PopRegs(ks[n].kmem, ks[n].CurrentRsp()) == FrameBelow(ks[0].kmem, Top(ks[0], i))
  {
    hide Step, BaseInv, Covered, PopRegs;
    TraceInv(ks, es, n);
    FrameBeforeFirstRun(ks, es, i, n);
    CurrentFrame(ks[n]);
  }
}
