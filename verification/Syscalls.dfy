/** The IPC system calls, yield and the timer tick. */
module Syscalls {
  import opened Machine
  import opened Tasks

  const SYS_YIELD := 2
  const SYS_SEND := 3
  const SYS_RECV := 4
  const SYS_SHUTDOWN := 10
  const SYS_TRY_RECV := 14

  /** User memory, by the address of each message buffer. */
  type UserMem = map<int, Message>

  const BLANK: Message := Message(0, 0, 0, 0, 0, 0)

  function ReadMsg(um: UserMem, p: int): Message {
    if p in um then um[p] else BLANK
  }

  /** One message copied by the kernel from a sender's slot into a receiver's buffer. */
  datatype Delivery = Delivery(from: nat, dest: int, msg: Message, bufferPtr: int)

  /** A send the kernel took on, whether delivered at once or held in the sender's slot. */
  datatype Accepted = Accepted(dest: int, msg: Message)

  /** The kernel's state, with the history of accepted sends (per slot) and of deliveries. */
  datatype KState = KState(
    tasks: Table,
    cur: nat,
    mainRsp: int,
    kmem: Mem,
    umem: UserMem,
    kernelStack: int,
    rsp0: int,
    accepted: seq<seq<Accepted>>,
    log: seq<Delivery>)
  {
    predicate Shaped() {
      |tasks| == SLOTS && cur < SLOTS && |accepted| == SLOTS
    }

    function SetRax(rsp: int, v: int): KState {
      this.(kmem := kmem[rsp + RAX_OFFSET := v])
    }

    function SetState(i: nat, st: TaskState): KState
      requires i < |tasks| && tasks[i].Some?
    {
      this.(tasks := tasks[i := Some(tasks[i].value.(state := st))])
    }

    function SaveCurrentRsp(rsp: int): KState
      requires Shaped()
    {
      if cur == 0 && tasks[0].None? then this.(mainRsp := rsp)
      else if tasks[cur].Some? then this.(tasks := tasks[cur := Some(tasks[cur].value.(rsp := rsp))])
      else this
    }

    function CurrentRsp(): int
      requires Shaped()
    {
      if tasks[cur].None? then mainRsp else tasks[cur].value.rsp
    }

    /** `select_next_task`, then TSS.rsp0 and CURRENT_KERNEL_STACK of the task chosen. */
    function Reschedule(): (k: KState)
      requires Shaped()
      ensures k.Shaped()
    {
      NextTaskIsFirst(tasks, cur);
      var next := NextTask(tasks, cur);
      if tasks[next].Some? then
        this.(cur := next, kernelStack := tasks[next].value.kernelStackTop, rsp0 := tasks[next].value.kernelStackTop)
      else this.(cur := next)
    }

    function Accept(dest: int, msg: Message): KState
      requires Shaped()
    {
      this.(accepted := accepted[cur := accepted[cur] + [Accepted(dest, msg)]])
    }

    /** Copy `msg`, which slot `from` addressed to `dest`, to a receiver's buffer. */
    function Deliver(from: nat, dest: int, msg: Message, bufferPtr: int): KState {
      this.(umem := umem[bufferPtr := msg], log := log + [Delivery(from, dest, msg, bufferPtr)])
    }
  }

  predicate Admits(filter: Option<int>, id: int) {
    filter.None? || filter == Some(id)
  }

  function Filter(srcFilter: int): Option<int> {
    if srcFilter == 0 then None else Some(srcFilter)
  }

  predicate ValidDest(k: KState, destId: int)
    requires k.Shaped()
  {
    1 <= destId <= SLOTS && k.tasks[destId - 1].Some?
  }

  /** Save the current frame and give the processor away. */
  function BlockCurrent(k: KState, st: TaskState, rsp: int): (k': KState)
    requires k.Shaped() && k.tasks[k.cur].Some?
    ensures k'.Shaped()
  {
    k.SetState(k.cur, st).SaveCurrentRsp(rsp).Reschedule()
  }

  /** The kernel state after `sys_send`; it resumes at the new state's current frame. */
  function Send(k: KState, destId: int, msgPtr: int, rsp: int): (k': KState)
    requires k.Shaped() && k.tasks[k.cur].Some? && destId >= 1
    ensures k'.Shaped()
  {
    var msg := ReadMsg(k.umem, msgPtr).(sender := k.cur + 1);
    if !ValidDest(k, destId) then
      k.SetRax(rsp, ERROR)
    else
      var dest := k.tasks[destId - 1].value;
      if dest.state.Receiving? && Admits(dest.state.srcId, k.cur + 1) then
        k.Accept(destId, msg).Deliver(k.cur, destId, msg, dest.state.bufferPtr)
          .SetRax(dest.rsp, 0).SetState(destId - 1, Ready).SetRax(rsp, 0)
      else
        BlockCurrent(k.Accept(destId, msg), Sending(destId, msg), rsp)
  }

  predicate IsWaitingSender(k: KState, i: int, filter: Option<int>)
    requires k.Shaped()
  {
    && 0 <= i < SLOTS && k.tasks[i].Some? && k.tasks[i].value.state.Sending?
    && k.tasks[i].value.state.destId == k.cur + 1
    && Admits(filter, k.tasks[i].value.id)
  }

  /** The first slot from `i` on that is blocked sending to the current task and passes the filter. */
  function FindSender(k: KState, filter: Option<int>, i: nat): (r: Option<nat>)
    requires k.Shaped() && i <= SLOTS
    ensures r.Some? ==> i <= r.value && IsWaitingSender(k, r.value, filter)
    ensures forall j :: i <= j < (if r.Some? then r.value else SLOTS) ==> !IsWaitingSender(k, j, filter)
    decreases SLOTS - i
  {
    if i == SLOTS then None
    else if IsWaitingSender(k, i, filter) then Some(i)
    else FindSender(k, filter, i + 1)
  }

  /** The rendezvous both receive calls make with a waiting sender. */
  function TakeFrom(k: KState, i: nat, msgPtr: int, rsp: int): (k': KState)
    requires k.Shaped() && i < SLOTS && k.tasks[i].Some? && k.tasks[i].value.state.Sending?
    ensures k'.Shaped()
  {
    var sender := k.tasks[i].value;
    k.Deliver(i, sender.state.destId, sender.state.msg, msgPtr)
      .SetRax(sender.rsp, 0).SetState(i, Ready).SetRax(rsp, 0)
  }

  function Recv(k: KState, srcFilter: int, msgPtr: int, rsp: int): (k': KState)
    requires k.Shaped() && k.tasks[k.cur].Some?
    ensures k'.Shaped()
  {
    var found := FindSender(k, Filter(srcFilter), 0);
    if found.Some? then TakeFrom(k, found.value, msgPtr, rsp)
    else BlockCurrent(k, Receiving(Filter(srcFilter), msgPtr), rsp)
  }

  function TryRecv(k: KState, srcFilter: int, msgPtr: int, rsp: int): (k': KState)
    requires k.Shaped()
    ensures k'.Shaped()
  {
    var found := FindSender(k, Filter(srcFilter), 0);
    if found.Some? then TakeFrom(k, found.value, msgPtr, rsp)
    else k.SetRax(rsp, ERROR)
  }

  function Yield(k: KState, rsp: int): (k': KState)
    requires k.Shaped()
    ensures k'.Shaped()
  {
    k.SaveCurrentRsp(rsp).Reschedule().SetRax(rsp, 0)
  }

  /** The dispatcher. `aux` stands for the result of the calls that only report a number (used
      memory, task information, ticks, screen geometry). */
  function Dispatch(k: KState, rax: int, rdi: int, rsi: int, rsp: int, aux: int): (k': KState)
    requires k.Shaped() && k.tasks[k.cur].Some?
    requires rax != SYS_SHUTDOWN && (rax == SYS_SEND ==> rdi >= 1)
    ensures k'.Shaped()
  {
    if rax == SYS_YIELD then Yield(k, rsp)
    else if rax == SYS_SEND then Send(k, rdi, rsi, rsp)
    else if rax == SYS_RECV then Recv(k, rdi, rsi, rsp)
    else if rax == SYS_TRY_RECV then TryRecv(k, rdi, rsi, rsp)
    else if rax == 1 || rax == 11 || rax == 12 then k.SetRax(rsp, 0)
    else if rax == 5 || rax == 6 || rax == 7 || rax == 8 then k.SetRax(rsp, aux)
    else if rax == 9 then k
    else k.SetRax(rsp, ERROR)
  }

  function HandleTimer(k: KState, rsp: int): (k': KState)
    requires k.Shaped()
    ensures k'.Shaped()
  {
    k.SaveCurrentRsp(rsp).Reschedule()
  }

  /** Whether a call of the current task takes the blocking path of `sys_send` or `sys_recv`. */
  predicate Blocks(k: KState, rax: int, rdi: int)
    requires k.Shaped()
  {
    if rax == SYS_SEND then
      && ValidDest(k, rdi)
      && !(k.tasks[rdi - 1].value.state.Receiving? && Admits(k.tasks[rdi - 1].value.state.srcId, k.cur + 1))
    else
      rax == SYS_RECV && FindSender(k, Filter(rdi), 0).None?
  }

  /** The kernel as the handlers see it: the scheduler behind its lock, and the memory and the two
      stack registers the handlers write. The history is ghost. */
  class Kernel {
    const sched: Scheduler
    var kmem: Mem
    var umem: UserMem
    var currentKernelStack: int
    var tssRsp0: int
    ghost var accepted: seq<seq<Accepted>>
    ghost var log: seq<Delivery>

    ghost predicate Valid()
      reads this, sched
    {
      sched.Valid() && |accepted| == SLOTS
    }

    ghost function View(): (k: KState)
      reads this, sched
      requires Valid()
      ensures k.Shaped()
    {
      KState(sched.tasks, sched.currentTaskIdx, sched.mainTaskRsp, kmem, umem,
             currentKernelStack, tssRsp0, accepted, log)
    }

    constructor (kernelStack: int)
      ensures Valid() && fresh(sched)
      ensures View() == KState(seq(SLOTS, _ => None), 0, 0, map[], map[], kernelStack, 0, seq(SLOTS, _ => []), [])
    {
      sched := new Scheduler();
      kmem, umem := map[], map[];
      currentKernelStack, tssRsp0 := kernelStack, 0;
      accepted, log := seq(SLOTS, _ => []), [];
    }

    /** `ptr::write` to word 14 of the frame at `rsp`. */
    method WriteRax(rsp: int, v: int)
      requires Valid()
      modifies this`kmem
      ensures Valid() && View() == old(View()).SetRax(rsp, v)
    {
      kmem := kmem[rsp + RAX_OFFSET := v];
    }

    method SetTaskState(i: nat, st: TaskState)
      requires Valid() && i < SLOTS && sched.tasks[i].Some?
      modifies sched`tasks
      ensures Valid() && View() == old(View()).SetState(i, st)
    {
      sched.tasks := sched.tasks[i := Some(sched.tasks[i].value.(state := st))];
    }

    /** Select the next ready task and point TSS.rsp0 and CURRENT_KERNEL_STACK at its stack. */
    method SwitchTask() returns (newRsp: int)
      requires Valid() && sched.tasks[sched.currentTaskIdx].Some?
      modifies this`currentKernelStack, this`tssRsp0, sched`currentTaskIdx
      ensures Valid() && View() == old(View()).Reschedule()
      ensures newRsp == View().CurrentRsp()
    {
      NextTaskIsFirst(sched.tasks, sched.currentTaskIdx);
      sched.SelectNextTask();
      newRsp := sched.GetCurrentRsp();
      if sched.tasks[sched.currentTaskIdx].Some? {
        var top := sched.tasks[sched.currentTaskIdx].value.kernelStackTop;
        tssRsp0 := top;
        currentKernelStack := top;
      }
    }

    /** Put the current task to sleep in state `st` and give the processor away. */
    method BlockTask(st: TaskState, currentRsp: int) returns (newRsp: int)
      requires Valid() && sched.tasks[sched.currentTaskIdx].Some?
      modifies this`currentKernelStack, this`tssRsp0, sched
      ensures Valid() && View() == BlockCurrent(old(View()), st, currentRsp)
      ensures newRsp == View().CurrentRsp()
    {
      SetTaskState(sched.currentTaskIdx, st);
      sched.SaveCurrentRsp(currentRsp);
      newRsp := SwitchTask();
    }

    method SysSend(destId: int, msgPtr: int, currentRsp: int) returns (newRsp: int)
      requires Valid() && sched.tasks[sched.currentTaskIdx].Some? && destId >= 1
      modifies this, sched
      ensures Valid() && View() == Send(old(View()), destId, msgPtr, currentRsp)
      ensures newRsp == if Blocks(old(View()), SYS_SEND, destId) then View().CurrentRsp() else currentRsp
    {
      var senderId := sched.currentTaskIdx + 1;
      var msg := ReadMsg(umem, msgPtr).(sender := senderId);
      var destIdx := destId - 1;
      if destIdx >= SLOTS || sched.tasks[destIdx].None? {
        WriteRax(currentRsp, ERROR);
        return currentRsp;
      }
      accepted := accepted[sched.currentTaskIdx := accepted[sched.currentTaskIdx] + [Accepted(destId, msg)]];
      var dest := sched.tasks[destIdx].value;
      if dest.state.Receiving? {
        if dest.state.srcId.None? || dest.state.srcId == Some(senderId) {
          umem := umem[dest.state.bufferPtr := msg];
          log := log + [Delivery(sched.currentTaskIdx, destId, msg, dest.state.bufferPtr)];
          WriteRax(dest.rsp, 0);
          SetTaskState(destIdx, Ready);
          WriteRax(currentRsp, 0);
          return currentRsp;
        }
      }
      newRsp := BlockTask(Sending(destId, msg), currentRsp);
    }

    method FindWaitingSender(filter: Option<int>) returns (found: Option<nat>)
      requires Valid()
      ensures found == FindSender(View(), filter, 0)
    {
      found := None;
      var idx := 0;
      while idx < SLOTS
        invariant 0 <= idx <= SLOTS && found.None?
        invariant FindSender(View(), filter, 0) == FindSender(View(), filter, idx)
      {
        if sched.tasks[idx].Some? {
          var task := sched.tasks[idx].value;
          if task.state.Sending? {
            if task.state.destId == sched.currentTaskIdx + 1 {
              if filter.None? || filter == Some(task.id) {
                found := Some(idx);
                break;
              }
            }
          }
        }
        idx := idx + 1;
      }
    }

    /** Copy the message of the sender in slot `i` out and make that sender ready. */
    method TakeMessage(i: nat, msgPtr: int, currentRsp: int)
      requires Valid() && i < SLOTS && sched.tasks[i].Some? && sched.tasks[i].value.state.Sending?
      modifies this, sched
      ensures Valid() && View() == TakeFrom(old(View()), i, msgPtr, currentRsp)
    {
      var sender := sched.tasks[i].value;
      umem := umem[msgPtr := sender.state.msg];
      log := log + [Delivery(i, sender.state.destId, sender.state.msg, msgPtr)];
      WriteRax(sender.rsp, 0);
      SetTaskState(i, Ready);
      WriteRax(currentRsp, 0);
    }

    method SysRecv(srcFilter: int, msgPtr: int, currentRsp: int) returns (newRsp: int)
      requires Valid() && sched.tasks[sched.currentTaskIdx].Some?
      modifies this, sched
      ensures Valid() && View() == Recv(old(View()), srcFilter, msgPtr, currentRsp)
      ensures newRsp == if Blocks(old(View()), SYS_RECV, srcFilter) then View().CurrentRsp() else currentRsp
    {
      var srcIdOption := if srcFilter == 0 then None else Some(srcFilter);
      var found := FindWaitingSender(srcIdOption);
      if found.Some? {
        TakeMessage(found.value, msgPtr, currentRsp);
        return currentRsp;
      }
      newRsp := BlockTask(Receiving(srcIdOption, msgPtr), currentRsp);
    }

    method SysTryRecv(srcFilter: int, msgPtr: int, currentRsp: int) returns (newRsp: int)
      requires Valid()
      modifies this, sched
      ensures Valid() && View() == TryRecv(old(View()), srcFilter, msgPtr, currentRsp)
      ensures newRsp == currentRsp
    {
      var srcIdOption := if srcFilter == 0 then None else Some(srcFilter);
      var found := FindWaitingSender(srcIdOption);
      if found.Some? {
        TakeMessage(found.value, msgPtr, currentRsp);
        return currentRsp;
      }
      WriteRax(currentRsp, ERROR);
      newRsp := currentRsp;
    }

    method SysYield(currentRsp: int) returns (newRsp: int)
      requires Valid() && sched.tasks[sched.currentTaskIdx].Some?
      modifies this, sched
      ensures Valid() && View() == Yield(old(View()), currentRsp)
      ensures newRsp == View().CurrentRsp()
    {
      sched.SaveCurrentRsp(currentRsp);
      newRsp := SwitchTask();
      WriteRax(currentRsp, 0);
    }

    method HandleSyscall(rax: int, rdi: int, rsi: int, currentRsp: int, aux: int) returns (newRsp: int)
      requires Valid() && sched.tasks[sched.currentTaskIdx].Some?
      requires rax != SYS_SHUTDOWN && (rax == SYS_SEND ==> rdi >= 1)
      modifies this, sched
      ensures Valid() && View() == Dispatch(old(View()), rax, rdi, rsi, currentRsp, aux)
      ensures newRsp == if rax == SYS_YIELD || Blocks(old(View()), rax, rdi) then View().CurrentRsp() else currentRsp
    {
      newRsp := currentRsp;
      match rax {
        case 2 => newRsp := SysYield(currentRsp);
        case 3 => newRsp := SysSend(rdi, rsi, currentRsp);
        case 4 => newRsp := SysRecv(rdi, rsi, currentRsp);
        case 14 => newRsp := SysTryRecv(rdi, rsi, currentRsp);
        case 1 => WriteRax(currentRsp, 0);
        case 11 => WriteRax(currentRsp, 0);
        case 12 => WriteRax(currentRsp, 0);
        case 5 => WriteRax(currentRsp, aux);
        case 6 => WriteRax(currentRsp, aux);
        case 7 => WriteRax(currentRsp, aux);
        case 8 => WriteRax(currentRsp, aux);
        case 9 =>
        case _ => WriteRax(currentRsp, ERROR);
      }
    }

    method HandleTimerInterrupt(oldRsp: int) returns (newRsp: int)
      requires Valid() && sched.tasks[sched.currentTaskIdx].Some?
      modifies this, sched
      ensures Valid() && View() == HandleTimer(old(View()), oldRsp)
      ensures newRsp == View().CurrentRsp()
    {
      sched.SaveCurrentRsp(oldRsp);
      newRsp := SwitchTask();
    }
  }
}
