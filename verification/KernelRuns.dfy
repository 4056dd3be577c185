/** What every trap keeps, and runs of traps. */
module KernelRuns {
  import opened Machine
  import opened Tasks
  import opened Syscalls

  /** What can happen next: the running task changes user memory, makes a system call, or is
      interrupted by the timer. `u` is the register file at the trap. */
  datatype Event =
    | UserCode(umem: UserMem)
    | Syscall(u: Regs, aux: int)
    | Tick(u: Regs)

  predicate Enabled(e: Event) {
    e.Syscall? ==> e.u.rax != SYS_SHUTDOWN && (e.u.rax == SYS_SEND ==> e.u.rdi >= 1)
  }

  /** One event, from trap to return. */
  function Step(k: KState, e: Event): (k': KState)
    requires k.Shaped() && k.tasks[k.cur].Some? && Enabled(e)
    ensures k'.Shaped()
  {
    match e
    case UserCode(um) => k.(umem := um)
    case Syscall(u, aux) =>
      Dispatch(k.(kmem := SyscallPush(k.kmem, k.kernelStack, u)),
               u.rax, u.rdi, u.rsi, k.kernelStack - FRAME_BYTES, aux)
    case Tick(u) =>
      HandleTimer(k.(kmem := TimerPush(k.kmem, k.rsp0, u)), k.rsp0 - FRAME_BYTES)
  }

  // ----- the invariant -----

  ghost predicate Present(tasks: Table, i: int)
    requires |tasks| == SLOTS
  {
    0 <= i < SLOTS && tasks[i].Some?
  }

  ghost predicate Apart(top: int, other: int) {
    top >= other + FRAME_BYTES || top + FRAME_BYTES <= other
  }

  /** Task ids follow the slots, saved frames sit at the top of their own kernel stacks, and the
      frames of different tasks do not overlap. */
  ghost predicate TableInv(tasks: Table)
    requires |tasks| == SLOTS
  {
    && (forall i :: Present(tasks, i) ==>
          tasks[i].value.id == i + 1 && tasks[i].value.rsp == tasks[i].value.kernelStackTop - FRAME_BYTES)
    && (forall i, j :: Present(tasks, i) && Present(tasks, j) && i != j ==>
          Apart(tasks[i].value.kernelStackTop, tasks[j].value.kernelStackTop))
  }

  /** Slot `i` is blocked sending to slot `j` while `j` is blocked in a receive that admits it. */
  ghost predicate Missed(tasks: Table, i: int, j: int)
    requires |tasks| == SLOTS
  {
    && Present(tasks, i) && Present(tasks, j)
    && tasks[i].value.state.Sending? && tasks[i].value.state.destId == j + 1
    && tasks[j].value.state.Receiving? && Admits(tasks[j].value.state.srcId, i + 1)
  }

  ghost predicate NoMissedRendezvous(tasks: Table)
    requires |tasks| == SLOTS
  {
    forall i, j :: 0 <= i < SLOTS && 0 <= j < SLOTS ==> !Missed(tasks, i, j)
  }

  /** The deliveries of slot `i`, oldest first, as the sends they complete. */
  function DeliveredBy(log: seq<Delivery>, i: int): seq<Accepted>
    decreases |log|
  {
    if log == [] then []
    else
      var d := log[|log| - 1];
      DeliveredBy(log[..|log| - 1], i) + if d.from == i then [Accepted(d.dest, d.msg)] else []
  }

  function Pending(t: Option<Task>): seq<Accepted> {
    if t.Some? && t.value.state.Sending? then [Accepted(t.value.state.destId, t.value.state.msg)] else []
  }

  /** The kernel itself stamped the sender, and the destination is a slot. */
  ghost predicate Authentic(sends: seq<Accepted>, i: int) {
    forall n :: 0 <= n < |sends| ==> sends[n].msg.sender == i + 1 && 1 <= sends[n].dest <= SLOTS
  }

  /** What slot `i` has sent is what was delivered for it, in order, then what it still holds. */
  ghost predicate Accounted(k: KState, i: int)
    requires k.Shaped() && 0 <= i < SLOTS
  {
    k.accepted[i] == DeliveredBy(k.log, i) + Pending(k.tasks[i]) && Authentic(k.accepted[i], i)
  }

  ghost predicate DeliveryInv(k: KState)
    requires k.Shaped()
  {
    forall i :: 0 <= i < SLOTS ==> Accounted(k, i)
  }

  /** The task in control is runnable, and both stack registers name its kernel stack. */
  ghost predicate CurrentInv(k: KState)
    requires k.Shaped()
  {
    && RunnableAt(k.tasks, k.cur)
    && k.kernelStack == k.rsp0 == k.tasks[k.cur].value.kernelStackTop
  }

  /** Everything but that the current task may run. */
  ghost predicate BaseInv(k: KState) {
    k.Shaped() && TableInv(k.tasks) && NoMissedRendezvous(k.tasks) && DeliveryInv(k)
  }

  ghost predicate Inv(k: KState) {
    BaseInv(k) && CurrentInv(k)
  }

  ghost predicate OtherRunnable(k: KState)
    requires k.Shaped()
  {
    exists j :: 0 <= j < SLOTS && j != k.cur && RunnableAt(k.tasks, j)
  }

  /** Whether event `e` blocks the running task. */
  ghost predicate BlocksOn(k: KState, e: Event)
    requires k.Shaped()
  {
    e.Syscall? && Blocks(k, e.u.rax, e.u.rdi)
  }

  /** When the event blocks the running task, some other task is there to take over. */
  ghost predicate Covered(k: KState, e: Event)
    requires k.Shaped()
  {
    BlocksOn(k, e) ==> OtherRunnable(k)
  }

  // ----- one slot changes state -----

  function WithState(tasks: Table, i: nat, st: TaskState): Table
    requires |tasks| == SLOTS && i < SLOTS && tasks[i].Some?
  {
    tasks[i := Some(tasks[i].value.(state := st))]
  }

  lemma WithStateTable(tasks: Table, i: nat, st: TaskState)
    requires |tasks| == SLOTS && Present(tasks, i) && TableInv(tasks)
    ensures TableInv(WithState(tasks, i, st))
  {
    var t' := WithState(tasks, i, st);
    forall j | Present(t', j) ensures Present(tasks, j) && t'[j].value == tasks[j].value.(state := t'[j].value.state) {
    }
  }

  /** Waking a task cannot create a missed rendezvous. */
  lemma WakeNoMissed(tasks: Table, i: nat)
    requires |tasks| == SLOTS && Present(tasks, i) && NoMissedRendezvous(tasks)
    ensures NoMissedRendezvous(WithState(tasks, i, Ready))
  {
    var t' := WithState(tasks, i, Ready);
    forall a, b | 0 <= a < SLOTS && 0 <= b < SLOTS ensures !Missed(t', a, b) {
      assert !Missed(tasks, a, b);
    }
  }

  /** Blocking in a send is safe once the destination was found not to be waiting for it. */
  lemma SendingNoMissed(tasks: Table, i: nat, destId: int, msg: Message)
    requires |tasks| == SLOTS && Present(tasks, i) && NoMissedRendezvous(tasks)
    requires 1 <= destId <= SLOTS && tasks[destId - 1].Some?
    requires !(tasks[destId - 1].value.state.Receiving? && Admits(tasks[destId - 1].value.state.srcId, i + 1))
    ensures NoMissedRendezvous(WithState(tasks, i, Sending(destId, msg)))
  {
    var t' := WithState(tasks, i, Sending(destId, msg));
    forall a, b | 0 <= a < SLOTS && 0 <= b < SLOTS ensures !Missed(t', a, b) {
      assert !Missed(tasks, a, b);
    }
  }

  /** Blocking in a receive is safe once the scan found no sender waiting for it. */
  lemma ReceivingNoMissed(k: KState, filter: Option<int>, ptr: int)
    requires k.Shaped() && Present(k.tasks, k.cur) && TableInv(k.tasks) && NoMissedRendezvous(k.tasks)
    requires FindSender(k, filter, 0).None?
    requires !k.tasks[k.cur].value.state.Sending?
    ensures NoMissedRendezvous(WithState(k.tasks, k.cur, Receiving(filter, ptr)))
  {
    var t' := WithState(k.tasks, k.cur, Receiving(filter, ptr));
    forall a, b | 0 <= a < SLOTS && 0 <= b < SLOTS ensures !Missed(t', a, b) {
      assert !Missed(k.tasks, a, b);
      assert !IsWaitingSender(k, a, filter);
      if Missed(t', a, b) {
        assert Present(k.tasks, a);
      }
    }
  }

  // ----- the delivery account -----

  lemma DeliveredByAppend(log: seq<Delivery>, d: Delivery, i: int)
    ensures DeliveredBy(log + [d], i)
         == DeliveredBy(log, i) + if d.from == i then [Accepted(d.dest, d.msg)] else []
  {
    assert (log + [d])[..|log|] == log;
  }

  /** A message that goes straight to a waiting receiver is accepted and delivered at once. */
  lemma DirectAccounted(k: KState, k': KState, d: Delivery, i: int)
    requires k.Shaped() && k'.Shaped() && 0 <= i < SLOTS && Accounted(k, i)
    requires !(k.tasks[k.cur].Some? && k.tasks[k.cur].value.state.Sending?)
    requires d.from == k.cur && d.msg.sender == k.cur + 1 && 1 <= d.dest <= SLOTS
    requires k'.accepted == k.accepted[k.cur := k.accepted[k.cur] + [Accepted(d.dest, d.msg)]]
    requires k'.log == k.log + [d] && Pending(k'.tasks[i]) == Pending(k.tasks[i])
    ensures Accounted(k', i)
  {
    DeliveredByAppend(k.log, d, i);
    if i == k.cur {
      assert k.accepted[i] == DeliveredBy(k.log, i);
    }
  }

  /** Taking a blocked sender's message moves it from held to delivered. */
  lemma TakenAccounted(k: KState, k': KState, d: Delivery, i: int)
    requires k.Shaped() && k'.Shaped() && 0 <= i < SLOTS && Accounted(k, i)
    requires 0 <= d.from < SLOTS && Pending(k.tasks[d.from]) == [Accepted(d.dest, d.msg)]
    requires Pending(k'.tasks[d.from]) == [] && (i != d.from ==> k'.tasks[i] == k.tasks[i])
    requires k'.accepted == k.accepted && k'.log == k.log + [d]
    ensures Accounted(k', i)
  {
    DeliveredByAppend(k.log, d, i);
  }

  /** A blocked send is accepted and held. */
  lemma HeldAccounted(k: KState, k': KState, a: Accepted, i: int)
    requires k.Shaped() && k'.Shaped() && 0 <= i < SLOTS && Accounted(k, i)
    requires Pending(k.tasks[k.cur]) == [] && Pending(k'.tasks[k.cur]) == [a]
    requires a.msg.sender == k.cur + 1 && 1 <= a.dest <= SLOTS
    requires i != k.cur ==> k'.tasks[i] == k.tasks[i]
    requires k'.accepted == k.accepted[k.cur := k.accepted[k.cur] + [a]] && k'.log == k.log
    ensures Accounted(k', i)
  {
  }

  // ----- the paths of the handlers -----

  /** Saving the current frame pointer changes nothing: it is where the frame always is. */
  lemma SaveIsNoop(k: KState)
    requires k.Shaped() && TableInv(k.tasks) && Present(k.tasks, k.cur)
    ensures k.SaveCurrentRsp(k.tasks[k.cur].value.kernelStackTop - FRAME_BYTES) == k
  {
    var t := k.tasks[k.cur].value;
    assert t.(rsp := t.kernelStackTop - FRAME_BYTES) == t;
    assert k.tasks[k.cur := Some(t)] == k.tasks;
  }

  /** The account depends on neither memory nor on who runs. */
  lemma AccountKept(k: KState, k': KState)
    requires k.Shaped() && k'.Shaped() && DeliveryInv(k)
    requires k'.log == k.log && k'.accepted == k.accepted
    requires forall i :: 0 <= i < SLOTS ==> Pending(k'.tasks[i]) == Pending(k.tasks[i])
    ensures DeliveryInv(k')
  {
    forall i | 0 <= i < SLOTS ensures Accounted(k', i) {
      assert Accounted(k, i);
    }
  }

  /** Giving the processor away keeps the table, and hands control to a runnable task exactly
      when there is one. */
  lemma RescheduleInv(k: KState)
    requires BaseInv(k) && Present(k.tasks, k.cur)
    ensures var k' := k.Reschedule();
            && BaseInv(k')
            && (CurrentInv(k') <==> RunnableAt(k.tasks, k.cur) || OtherRunnable(k))
            && k' == k.(cur := k'.cur, kernelStack := k'.kernelStack, rsp0 := k'.rsp0)
            && Present(k'.tasks, k'.cur)
            && (OtherRunnable(k) ==> k'.cur != k.cur && RunnableAt(k'.tasks, k'.cur))
  {
    NextTaskIsFirst(k.tasks, k.cur);
    AccountKept(k, k.Reschedule());
  }

  lemma DirectSendInv(k: KState, k': KState, destId: int, msg: Message)
    requires Inv(k) && ValidDest(k, destId) && msg.sender == k.cur + 1
    requires k.tasks[destId - 1].value.state.Receiving?
    requires var d := Delivery(k.cur, destId, msg, k.tasks[destId - 1].value.state.bufferPtr);
             k' == k.(tasks := WithState(k.tasks, destId - 1, Ready), kmem := k'.kmem, umem := k'.umem,
                      accepted := k.accepted[k.cur := k.accepted[k.cur] + [Accepted(destId, msg)]],
                      log := k.log + [d])
    ensures Inv(k')
  {
    WithStateTable(k.tasks, destId - 1, Ready);
    WakeNoMissed(k.tasks, destId - 1);
    var d := Delivery(k.cur, destId, msg, k.tasks[destId - 1].value.state.bufferPtr);
    forall i | 0 <= i < SLOTS ensures Accounted(k', i) {
      DirectAccounted(k, k', d, i);
    }
  }

  lemma TakeInv(k: KState, k': KState, i: nat, msgPtr: int)
    requires Inv(k) && Present(k.tasks, i) && k.tasks[i].value.state.Sending?
    requires var st := k.tasks[i].value.state;
             k' == k.(tasks := WithState(k.tasks, i, Ready), kmem := k'.kmem, umem := k'.umem,
                      log := k.log + [Delivery(i, st.destId, st.msg, msgPtr)])
    ensures Inv(k')
  {
    WithStateTable(k.tasks, i, Ready);
    WakeNoMissed(k.tasks, i);
    var st := k.tasks[i].value.state;
    forall j | 0 <= j < SLOTS ensures Accounted(k', j) {
      TakenAccounted(k, k', Delivery(i, st.destId, st.msg, msgPtr), j);
    }
  }

  lemma OthersUnchanged(k: KState, k1: KState)
    requires k.Shaped() && k1.Shaped() && k1.cur == k.cur
    requires forall j :: 0 <= j < SLOTS && j != k.cur ==> k1.tasks[j] == k.tasks[j]
    ensures OtherRunnable(k1) == OtherRunnable(k)
  {
    assert forall j :: 0 <= j < SLOTS && j != k.cur ==> RunnableAt(k1.tasks, j) == RunnableAt(k.tasks, j);
  }

  /** The state between marking the current task blocked and rescheduling. */
  lemma BlockCurrentInv(k: KState, st: TaskState, rsp: int)
    requires k.Shaped() && TableInv(k.tasks) && CurrentInv(k) && rsp == k.kernelStack - FRAME_BYTES
    requires !(st.Ready? || st.Running?)
    requires BaseInv(k.SetState(k.cur, st))
    ensures var k' := BlockCurrent(k, st, rsp);
            && k' == k.SetState(k.cur, st).Reschedule()
            && BaseInv(k') && (CurrentInv(k') <==> OtherRunnable(k))
  {
    var k1 := k.SetState(k.cur, st);
    SaveIsNoop(k1);
    RescheduleInv(k1);
    OthersUnchanged(k, k1);
  }

  lemma HeldSendInv(k: KState, destId: int, msg: Message, rsp: int)
    requires Inv(k) && Blocks(k, SYS_SEND, destId) && msg.sender == k.cur + 1
    requires rsp == k.kernelStack - FRAME_BYTES
    ensures var k' := BlockCurrent(k.Accept(destId, msg), Sending(destId, msg), rsp);
            BaseInv(k') && (CurrentInv(k') <==> OtherRunnable(k))
  {
    var ka := k.Accept(destId, msg);
    var k1 := ka.SetState(k.cur, Sending(destId, msg));
    WithStateTable(k.tasks, k.cur, Sending(destId, msg));
    SendingNoMissed(k.tasks, k.cur, destId, msg);
    forall i | 0 <= i < SLOTS ensures Accounted(k1, i) {
      HeldAccounted(k, k1, Accepted(destId, msg), i);
    }
    BlockCurrentInv(ka, Sending(destId, msg), rsp);
    OthersUnchanged(k, ka);
  }

  lemma SendInv(k: KState, destId: int, ptr: int, rsp: int)
    requires Inv(k) && destId >= 1 && rsp == k.kernelStack - FRAME_BYTES
    ensures BaseInv(Send(k, destId, ptr, rsp))
    ensures CurrentInv(Send(k, destId, ptr, rsp)) <==> (Blocks(k, SYS_SEND, destId) ==> OtherRunnable(k))
  {
    hide NoMissedRendezvous, DeliveryInv, TableInv, FindSender;
    var k' := Send(k, destId, ptr, rsp);
    var msg := ReadMsg(k.umem, ptr).(sender := k.cur + 1);
    if !ValidDest(k, destId) {
      AccountKept(k, k');
    } else if Blocks(k, SYS_SEND, destId) {
      HeldSendInv(k, destId, msg, rsp);
    } else {
      DirectSendInv(k, k', destId, msg);
    }
  }

  lemma RecvInv(k: KState, srcFilter: int, ptr: int, rsp: int)
    requires Inv(k) && rsp == k.kernelStack - FRAME_BYTES
    ensures BaseInv(Recv(k, srcFilter, ptr, rsp))
    ensures CurrentInv(Recv(k, srcFilter, ptr, rsp)) <==> (Blocks(k, SYS_RECV, srcFilter) ==> OtherRunnable(k))
  {
    var found := FindSender(k, Filter(srcFilter), 0);
    if found.Some? {
      TakeInv(k, Recv(k, srcFilter, ptr, rsp), found.value, ptr);
    } else {
      var st := Receiving(Filter(srcFilter), ptr);
      WithStateTable(k.tasks, k.cur, st);
      ReceivingNoMissed(k, Filter(srcFilter), ptr);
      AccountKept(k, k.SetState(k.cur, st));
      BlockCurrentInv(k, st, rsp);
    }
  }

  lemma TryRecvInv(k: KState, srcFilter: int, ptr: int, rsp: int)
    requires Inv(k)
    ensures Inv(TryRecv(k, srcFilter, ptr, rsp))
  {
    var found := FindSender(k, Filter(srcFilter), 0);
    if found.Some? {
      TakeInv(k, TryRecv(k, srcFilter, ptr, rsp), found.value, ptr);
    } else {
      AccountKept(k, TryRecv(k, srcFilter, ptr, rsp));
    }
  }

  // ----- one step -----

  lemma {:induction false} FindSenderKmem(k: KState, m: Mem, filter: Option<int>, i: nat)
    requires k.Shaped() && i <= SLOTS
    ensures FindSender(k.(kmem := m), filter, i) == FindSender(k, filter, i)
    decreases SLOTS - i
  {
    if i < SLOTS {
      assert IsWaitingSender(k.(kmem := m), i, filter) == IsWaitingSender(k, i, filter);
      FindSenderKmem(k, m, filter, i + 1);
    }
  }

  /** Pushing a frame has no part in the decisions of the handlers. */
  lemma PushedInv(k: KState, m: Mem, rax: int, rdi: int)
    requires Inv(k)
    ensures Inv(k.(kmem := m))
    ensures Blocks(k.(kmem := m), rax, rdi) == Blocks(k, rax, rdi)
    ensures OtherRunnable(k.(kmem := m)) == OtherRunnable(k)
  {
    AccountKept(k, k.(kmem := m));
    FindSenderKmem(k, m, Filter(rdi), 0);
    OthersUnchanged(k, k.(kmem := m));
  }

  lemma YieldInv(k: KState, rsp: int)
    requires Inv(k) && rsp == k.kernelStack - FRAME_BYTES
    ensures Inv(Yield(k, rsp))
  {
    hide NoMissedRendezvous, DeliveryInv, TableInv;
    SaveIsNoop(k);
    RescheduleInv(k);
    AccountKept(k.Reschedule(), Yield(k, rsp));
  }

  /** The calls outside IPC and scheduling only set rax. */
  lemma PlainCallInv(k: KState, rax: int, rdi: int, rsi: int, rsp: int, aux: int)
    requires Inv(k) && rax != SYS_SHUTDOWN
    requires rax !in {SYS_YIELD, SYS_SEND, SYS_RECV, SYS_TRY_RECV}
    ensures Inv(Dispatch(k, rax, rdi, rsi, rsp, aux))
  {
    AccountKept(k, Dispatch(k, rax, rdi, rsi, rsp, aux));
  }

  lemma DispatchInv(k: KState, rax: int, rdi: int, rsi: int, rsp: int, aux: int)
    requires Inv(k) && rax != SYS_SHUTDOWN && (rax == SYS_SEND ==> rdi >= 1)
    requires rsp == k.kernelStack - FRAME_BYTES
    ensures BaseInv(Dispatch(k, rax, rdi, rsi, rsp, aux))
    ensures CurrentInv(Dispatch(k, rax, rdi, rsi, rsp, aux)) <==> (Blocks(k, rax, rdi) ==> OtherRunnable(k))
  {
    if rax == SYS_YIELD {
      YieldInv(k, rsp);
    } else if rax == SYS_SEND {
      SendInv(k, rdi, rsi, rsp);
    } else if rax == SYS_RECV {
      RecvInv(k, rdi, rsi, rsp);
    } else if rax == SYS_TRY_RECV {
      TryRecvInv(k, rdi, rsi, rsp);
    } else {
      PlainCallInv(k, rax, rdi, rsi, rsp, aux);
    }
  }

  lemma TimerInv(k: KState)
    requires Inv(k)
    ensures Inv(HandleTimer(k, k.rsp0 - FRAME_BYTES))
  {
    SaveIsNoop(k);
    RescheduleInv(k);
  }

  lemma TickInv(k: KState, u: Regs)
    requires Inv(k)
    ensures Inv(Step(k, Tick(u)))
  {
    hide TimerPush;
    var m := TimerPush(k.kmem, k.rsp0, u);
    PushedInv(k, m, 0, 0);
    TimerInv(k.(kmem := m));
  }

  lemma PushedDispatchInv(k: KState, m: Mem, u: Regs, aux: int)
    requires Inv(k) && Enabled(Syscall(u, aux))
    ensures var k' := Dispatch(k.(kmem := m), u.rax, u.rdi, u.rsi, k.kernelStack - FRAME_BYTES, aux);
            BaseInv(k') && (CurrentInv(k') <==> Covered(k, Syscall(u, aux)))
  {
    PushedInv(k, m, u.rax, u.rdi);
    DispatchInv(k.(kmem := m), u.rax, u.rdi, u.rsi, k.kernelStack - FRAME_BYTES, aux);
  }

  lemma SyscallInv(k: KState, u: Regs, aux: int)
    requires Inv(k) && Enabled(Syscall(u, aux))
    ensures BaseInv(Step(k, Syscall(u, aux)))
    ensures CurrentInv(Step(k, Syscall(u, aux))) <==> Covered(k, Syscall(u, aux))
  {
    hide Dispatch, SyscallPush;
    PushedDispatchInv(k, SyscallPush(k.kmem, k.kernelStack, u), u, aux);
  }

  /** Every event keeps the table, the rendezvous and the delivery account; and control stays with
      a runnable task if and only if another task is runnable whenever the event blocks the
      current one. */
  lemma StepInv(k: KState, e: Event)
    requires Inv(k) && Enabled(e)
    ensures BaseInv(Step(k, e))
    ensures CurrentInv(Step(k, e)) <==> Covered(k, e)
  {
    match e
    case UserCode(um) => AccountKept(k, Step(k, e));
    case Tick(u) => TickInv(k, u);
    case Syscall(u, aux) => SyscallInv(k, u, aux);
  }

  // ----- what one step does to the task table -----

  /** The message a send call passes on, as stamped by the kernel. */
  function SentMessage(k: KState, msgPtr: int): Message {
    ReadMsg(k.umem, msgPtr).(sender := k.cur + 1)
  }

  /** The task table after a call. */
  function TasksAfter(k: KState, rax: int, rdi: int, rsi: int): (t: Table)
    requires k.Shaped() && k.tasks[k.cur].Some?
    ensures |t| == SLOTS
  {
    var found := FindSender(k, Filter(rdi), 0);
    if Blocks(k, rax, rdi) then
      WithState(k.tasks, k.cur, if rax == SYS_SEND then Sending(rdi, SentMessage(k,
          rsi)) else Receiving(Filter(rdi), rsi))
    else if rax == SYS_SEND && ValidDest(k, rdi) then WithState(k.tasks, rdi - 1, Ready)
    else if (rax == SYS_RECV || rax == SYS_TRY_RECV) && found.Some? then WithState(k.tasks, found.value, Ready)
    else k.tasks
  }

  lemma BlockCurrentTasks(k: KState, st: TaskState)
    requires k.Shaped() && TableInv(k.tasks) && CurrentInv(k)
    ensures BlockCurrent(k, st, k.kernelStack - FRAME_BYTES).tasks == WithState(k.tasks, k.cur, st)
  {
    WithStateTable(k.tasks, k.cur, st);
    SaveIsNoop(k.SetState(k.cur, st));
  }

  lemma SendTasks(k: KState, destId: int, ptr: int, rsp: int)
    requires Inv(k) && destId >= 1 && rsp == k.kernelStack - FRAME_BYTES
    ensures Send(k, destId, ptr, rsp).tasks == TasksAfter(k, SYS_SEND, destId, ptr)
  {
    hide BlockCurrent;
    if Blocks(k, SYS_SEND, destId) {
      BlockCurrentTasks(k.Accept(destId, SentMessage(k, ptr)), Sending(destId, SentMessage(k, ptr)));
    }
  }

  lemma RecvTasks(k: KState, filter: int, ptr: int, rsp: int)
    requires Inv(k) && rsp == k.kernelStack - FRAME_BYTES
    ensures Recv(k, filter, ptr, rsp).tasks == TasksAfter(k, SYS_RECV, filter, ptr)
    ensures TryRecv(k, filter, ptr, rsp).tasks == TasksAfter(k, SYS_TRY_RECV, filter, ptr)
  {
    hide BlockCurrent;
    if Blocks(k, SYS_RECV, filter) {
      BlockCurrentTasks(k, Receiving(Filter(filter), ptr));
    }
  }

  lemma DispatchTasks(k: KState, rax: int, rdi: int, rsi: int, rsp: int, aux: int)
    requires Inv(k) && rax != SYS_SHUTDOWN && (rax == SYS_SEND ==> rdi >= 1)
    requires rsp == k.kernelStack - FRAME_BYTES
    ensures Dispatch(k, rax, rdi, rsi, rsp, aux).tasks == TasksAfter(k, rax, rdi, rsi)
  {
    hide Send, Recv, TryRecv;
    if rax == SYS_SEND {
      SendTasks(k, rdi, rsi, rsp);
    } else if rax == SYS_RECV || rax == SYS_TRY_RECV {
      RecvTasks(k, rdi, rsi, rsp);
    } else if rax == SYS_YIELD {
      SaveIsNoop(k);
    }
  }

  lemma TickTasks(k: KState, m: Mem)
    requires Inv(k)
    ensures HandleTimer(k.(kmem := m), k.rsp0 - FRAME_BYTES).tasks == k.tasks
  {
    SaveIsNoop(k.(kmem := m));
  }

  lemma SyscallTasks(k: KState, m: Mem, u: Regs, aux: int)
    requires Inv(k) && Enabled(Syscall(u, aux))
    ensures Dispatch(k.(kmem := m), u.rax, u.rdi, u.rsi, k.kernelStack - FRAME_BYTES, aux).tasks
         == TasksAfter(k, u.rax, u.rdi, u.rsi)
  {
    hide Dispatch;
    PushedInv(k, m, u.rax, u.rdi);
    FindSenderKmem(k, m, Filter(u.rdi), 0);
    DispatchTasks(k.(kmem := m), u.rax, u.rdi, u.rsi, k.kernelStack - FRAME_BYTES, aux);
  }

  /** The whole effect of an event on the task table. */
  lemma StepTasks(k: KState, e: Event)
    requires Inv(k) && Enabled(e)
    ensures Step(k, e).tasks == if e.Syscall? then TasksAfter(k, e.u.rax, e.u.rdi, e.u.rsi) else k.tasks
  {
    hide Dispatch, HandleTimer, SyscallPush, TimerPush, TasksAfter;
    match e
    case UserCode(_) =>
    case Tick(u) => TickTasks(k, TimerPush(k.kmem, k.rsp0, u));
    case Syscall(u, aux) => SyscallTasks(k, SyscallPush(k.kmem, k.kernelStack, u), u, aux);
  }

  /** User memory after a call: a rendezvous writes one message, nothing else writes any. */
  function UmemAfter(k: KState, rax: int, rdi: int, rsi: int): UserMem
    requires k.Shaped() && k.tasks[k.cur].Some?
  {
    var found := FindSender(k, Filter(rdi), 0);
    if rax == SYS_SEND && ValidDest(k, rdi) && !Blocks(k, rax, rdi) then
      k.umem[k.tasks[rdi - 1].value.state.bufferPtr := SentMessage(k, rsi)]
    else if (rax == SYS_RECV || rax == SYS_TRY_RECV) && found.Some? then
      k.umem[rsi := k.tasks[found.value].value.state.msg]
    else k.umem
  }

  lemma YieldUmem(k: KState, rdi: int, rsi: int, rsp: int)
    requires k.Shaped() && k.tasks[k.cur].Some?
    ensures Yield(k, rsp).umem == k.umem == UmemAfter(k, SYS_YIELD, rdi, rsi)
  {
  }

  lemma SendUmem(k: KState, rdi: int, rsi: int, rsp: int)
    requires k.Shaped() && k.tasks[k.cur].Some? && rdi >= 1
    ensures Send(k, rdi, rsi, rsp).umem == UmemAfter(k, SYS_SEND, rdi, rsi)
  {
  }

  lemma RecvUmem(k: KState, rax: int, rdi: int, rsi: int, rsp: int)
    requires k.Shaped() && k.tasks[k.cur].Some? && (rax == SYS_RECV || rax == SYS_TRY_RECV)
    ensures rax == SYS_RECV ==> Recv(k, rdi, rsi, rsp).umem == UmemAfter(k, rax, rdi, rsi)
    ensures rax == SYS_TRY_RECV ==> TryRecv(k, rdi, rsi, rsp).umem == UmemAfter(k, rax, rdi, rsi)
  {
  }

  lemma PlainUmem(k: KState, rax: int, rdi: int, rsi: int)
    requires k.Shaped() && k.tasks[k.cur].Some?
    requires rax != SYS_SEND && rax != SYS_RECV && rax != SYS_TRY_RECV
    ensures UmemAfter(k, rax, rdi, rsi) == k.umem
  {
  }

  lemma DispatchUmem(k: KState, rax: int, rdi: int, rsi: int, rsp: int, aux: int)
    requires k.Shaped() && k.tasks[k.cur].Some? && rax != SYS_SHUTDOWN && (rax == SYS_SEND ==> rdi >= 1)
    ensures Dispatch(k, rax, rdi, rsi, rsp, aux).umem == UmemAfter(k, rax, rdi, rsi)
  {
    hide Send, Recv, TryRecv, Yield, UmemAfter;
    if rax == SYS_YIELD {
      YieldUmem(k, rdi, rsi, rsp);
    } else if rax == SYS_SEND {
      SendUmem(k, rdi, rsi, rsp);
    } else if rax == SYS_RECV || rax == SYS_TRY_RECV {
      RecvUmem(k, rax, rdi, rsi, rsp);
    } else {
      PlainUmem(k, rax, rdi, rsi);
    }
  }

  lemma SyscallUmem(k: KState, u: Regs, aux: int)
    requires k.Shaped() && k.tasks[k.cur].Some? && Enabled(Syscall(u, aux))
    ensures Step(k, Syscall(u, aux)).umem == UmemAfter(k, u.rax, u.rdi, u.rsi)
  {
    hide Dispatch, SyscallPush;
    var m := SyscallPush(k.kmem, k.kernelStack, u);
    FindSenderKmem(k, m, Filter(u.rdi), 0);
    DispatchUmem(k.(kmem := m), u.rax, u.rdi, u.rsi, k.kernelStack - FRAME_BYTES, aux);
  }

  /** A message waiting in a sender's slot carries that sender's id. */
  lemma PendingSender(k: KState, i: nat)
    requires Inv(k) && Present(k.tasks, i) && k.tasks[i].value.state.Sending?
    ensures k.tasks[i].value.state.msg.sender == i + 1
  {
    assert Accounted(k, i);
    var a := k.accepted[i];
    assert a[|a| - 1] == Pending(k.tasks[i])[0];
  }

  // ----- whole runs -----

  /** A run of the kernel: state `n + 1` follows from state `n` by event `n`. */
  ghost predicate Trace(ks: seq<KState>, es: seq<Event>) {
    && |ks| == |es| + 1
    && (forall n :: 0 <= n < |ks| ==> ks[n].Shaped() && ks[n].tasks[ks[n].cur].Some?)
    && (forall n :: 0 <= n < |es| ==> Enabled(es[n]) && ks[n + 1] == Step(ks[n], es[n]))
  }

  /** Whenever a task blocks, some other task can run. */
  ghost predicate CoveredTrace(ks: seq<KState>, es: seq<Event>) {
    Trace(ks, es) && forall n :: 0 <= n < |es| ==> Covered(ks[n], es[n])
  }

  lemma {:induction false} TraceInv(ks: seq<KState>, es: seq<Event>, n: nat)
    requires CoveredTrace(ks, es) && Inv(ks[0]) && n < |ks|
    ensures Inv(ks[n])
    decreases n
  {
    hide Step, Inv, BaseInv, CurrentInv, Covered;
    if n > 0 {
      TraceInv(ks, es, n - 1);
      assert Enabled(es[n - 1]) && ks[n] == Step(ks[n - 1], es[n - 1]) && Covered(ks[n - 1], es[n - 1]);
      StepKeepsInv(ks[n - 1], es[n - 1]);
    }
  }

  lemma StepKeepsInv(k: KState, e: Event)
    requires Inv(k) && Enabled(e) && Covered(k, e)
    ensures Inv(Step(k, e))
  {
    hide Step, BaseInv, CurrentInv, Covered;
    StepInv(k, e);
  }

  // ----- bounded waiting over runs -----

  /** Whether an event calls `select_next_task`: a tick, a yield, or a call that blocks. */
  ghost predicate Reschedules(k: KState, e: Event)
    requires k.Shaped()
  {
    e.Tick? || (e.Syscall? && e.u.rax == SYS_YIELD) || BlocksOn(k, e)
  }

  lemma BlockCurrentCur(k: KState, st: TaskState, rsp: int)
    requires k.Shaped() && k.tasks[k.cur].Some?
    ensures var k' := BlockCurrent(k, st, rsp); k'.cur == NextTask(k'.tasks, k.cur)
  {
    hide NextTask;
  }

  lemma DispatchCur(k: KState, u: Regs, rsp: int, aux: int)
    requires k.Shaped() && k.tasks[k.cur].Some? && Enabled(Syscall(u, aux))
    ensures var k' := Dispatch(k, u.rax, u.rdi, u.rsi, rsp, aux);
            k'.cur == if u.rax == SYS_YIELD || Blocks(k, u.rax, u.rdi) then NextTask(k'.tasks, k.cur) else k.cur
  {
    hide NextTask, BlockCurrent;
    if Blocks(k, u.rax, u.rdi) {
      if u.rax == SYS_SEND {
        var msg := SentMessage(k, u.rsi);
        BlockCurrentCur(k.Accept(u.rdi, msg), Sending(u.rdi, msg), rsp);
      } else {
        BlockCurrentCur(k, Receiving(Filter(u.rdi), u.rsi), rsp);
      }
    }
  }

  /** Who is in control after an event: the scheduler's choice, if it is asked. */
  lemma StepCur(k: KState, e: Event)
    requires k.Shaped() && k.tasks[k.cur].Some? && Enabled(e)
    ensures Step(k, e).cur == if Reschedules(k, e) then NextTask(Step(k, e).tasks, k.cur) else k.cur
  {
    hide NextTask, Dispatch, SyscallPush, TimerPush;
    if e.Syscall? {
      var m := SyscallPush(k.kmem, k.kernelStack, e.u);
      FindSenderKmem(k, m, Filter(e.u.rdi), 0);
      DispatchCur(k.(kmem := m), e.u, k.kernelStack - FRAME_BYTES, e.aux);
    }
  }

  /** How often the scheduler is asked between two points of a run. */
  ghost function Switches(ks: seq<KState>, es: seq<Event>, m: nat, n: nat): nat
    requires Trace(ks, es) && m <= n < |ks|
    decreases n
  {
    if n == m then 0
    else Switches(ks, es, m, n - 1) + if Reschedules(ks[n - 1], es[n - 1]) then 1 else 0
  }

  /** Each time the scheduler is asked and does not choose a runnable task, that task is nearer. */
  lemma NearerOrChosen(tasks: Table, cur: nat, i: nat)
    requires |tasks| == SLOTS && cur < SLOTS && i < SLOTS && i != cur && RunnableAt(tasks, i)
    ensures var c := NextTask(tasks, cur); c < SLOTS && (c != i ==> Dist(c, i) < Dist(cur, i))
  {
    NextTaskIsFirst(tasks, cur);
    hide NextTask;
  }

  /** No starvation, over runs: a runnable task that has not been in control since step `m` has seen
      fewer than seven ticks, yields and blocking calls since then; in particular it is still
      runnable, and the seventh at the latest gives it control. */
  lemma {:induction false} WaitsLessThanSeven(ks: seq<KState>, es: seq<Event>, i: nat, m: nat, n: nat)
    requires CoveredTrace(ks, es) && Inv(ks[0]) && m <= n < |ks| && i < SLOTS
    requires RunnableAt(ks[m].tasks, i) && forall j :: m <= j <= n ==> ks[j].cur != i
    ensures RunnableAt(ks[n].tasks, i)
    ensures Switches(ks, es, m, n) + Dist(ks[n].cur, i) <= Dist(ks[m].cur, i)
    ensures Switches(ks, es, m, n) < 7
    decreases n
  {
    hide Step, Inv, BaseInv, CurrentInv, Covered, NextTask, Reschedules;
    if n > m {
      WaitsLessThanSeven(ks, es, i, m, n - 1);
      TraceInv(ks, es, n - 1);
      var k, e := ks[n - 1], es[n - 1];
      assert Enabled(e) && ks[n] == Step(k, e) && ks[n - 1].cur != i;
      StaysRunnable(k, e, i);
      StepCur(k, e);
      NearerOrChosen(ks[n].tasks, k.cur, i);
    }
    assert ks[n].cur != i;
  }

  /** Nobody but the running task can stop a task from being runnable. */
  lemma StaysRunnable(k: KState, e: Event, i: nat)
    requires Inv(k) && Enabled(e) && i < SLOTS && i != k.cur && RunnableAt(k.tasks, i)
    ensures RunnableAt(Step(k, e).tasks, i)
  {
    hide Step;
    StepTasks(k, e);
  }
}
