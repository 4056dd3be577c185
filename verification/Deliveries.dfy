/** Message delivery: what one event delivers, and what a whole run has delivered. */
module Deliveries {
  import opened Machine
  import opened Tasks
  import opened Syscalls
  import opened KernelRuns

  // ----- what one step delivers -----

  /** The running task hands a message to a receiver that is blocked waiting for it. */
  ghost predicate DirectDelivery(k: KState, k': KState, u: Regs, d: Delivery)
    requires k.Shaped() && k'.Shaped()
  {
    && u.rax == SYS_SEND && d.from == k.cur && d.dest == u.rdi && d.msg == SentMessage(k, u.rsi)
    && Present(k.tasks, d.dest - 1)
    && (var st := k.tasks[d.dest - 1].value.state;
        st.Receiving? && (st.srcId.None? || st.srcId.value == k.cur + 1) && st.bufferPtr == d.bufferPtr)
    && k'.tasks == WithState(k.tasks, d.dest - 1, Ready)
  }

  /** The running task takes the message of a sender that is blocked sending to it. */
  ghost predicate TakenDelivery(k: KState, k': KState, u: Regs, d: Delivery)
    requires k.Shaped() && k'.Shaped()
  {
    && (u.rax == SYS_RECV || u.rax == SYS_TRY_RECV) && d.dest == k.cur + 1 && d.bufferPtr == u.rsi
    && Present(k.tasks, d.from) && k.tasks[d.from].value.state == Sending(d.dest, d.msg)
    && (u.rdi == 0 || d.from + 1 == u.rdi)
    && k'.tasks == WithState(k.tasks, d.from, Ready)
  }

  /** The log grows only by a rendezvous of the addressed receiver with the sender, and then the
      message, and nothing else, is written, into the buffer the receiver gave. */
  ghost predicate DeliversAtMostOnce(k: KState, k': KState, e: Event)
    requires k.Shaped() && k'.Shaped()
  {
    || (k'.log == k.log && (k'.umem == k.umem || e.UserCode?))
    || (&& e.Syscall? && |k'.log| == |k.log| + 1
        && var d := k'.log[|k.log|];
           && k'.log == k.log + [d] && k'.umem == k.umem[d.bufferPtr := d.msg]
           && (DirectDelivery(k, k', e.u, d) || TakenDelivery(k, k', e.u, d)))
  }

  /** A step accepts exactly the valid sends of the task that makes them. */
  ghost predicate AcceptsSend(k: KState, k': KState, e: Event)
    requires k.Shaped() && k'.Shaped()
  {
    k'.accepted ==
      if e.Syscall? && e.u.rax == SYS_SEND && ValidDest(k, e.u.rdi)
      then k.accepted[k.cur := k.accepted[k.cur] + [Accepted(e.u.rdi, SentMessage(k, e.u.rsi))]]
      else k.accepted
  }

  lemma SendDelivers(k: KState, u: Regs, rsp: int)
    requires Inv(k) && u.rax == SYS_SEND && u.rdi >= 1 && rsp == k.kernelStack - FRAME_BYTES
    ensures var k' := Send(k, u.rdi, u.rsi, rsp);
            DeliversAtMostOnce(k, k', Syscall(u, 0)) && AcceptsSend(k, k', Syscall(u, 0))
  {
    if ValidDest(k, u.rdi) && !Blocks(k, SYS_SEND, u.rdi) {
      var d := Delivery(k.cur, u.rdi, SentMessage(k, u.rsi), k.tasks[u.rdi - 1].value.state.bufferPtr);
      assert DirectDelivery(k, Send(k, u.rdi, u.rsi, rsp), u, d);
    }
  }

  lemma TakeDelivers(k: KState, u: Regs, i: nat, rsp: int)
    requires Inv(k) && (u.rax == SYS_RECV || u.rax == SYS_TRY_RECV) && IsWaitingSender(k, i, Filter(u.rdi))
    ensures var k' := TakeFrom(k, i, u.rsi, rsp);
            DeliversAtMostOnce(k, k', Syscall(u, 0)) && AcceptsSend(k, k', Syscall(u, 0))
  {
    var st := k.tasks[i].value.state;
    assert TakenDelivery(k, TakeFrom(k, i, u.rsi, rsp), u, Delivery(i, st.destId, st.msg, u.rsi));
  }

  lemma DispatchDelivers(k: KState, u: Regs, rsp: int, aux: int)
    requires Inv(k) && Enabled(Syscall(u, aux)) && rsp == k.kernelStack - FRAME_BYTES
    ensures var k' := Dispatch(k, u.rax, u.rdi, u.rsi, rsp, aux);
            DeliversAtMostOnce(k, k', Syscall(u, 0)) && AcceptsSend(k, k', Syscall(u, 0))
  {
    if u.rax == SYS_SEND {
      SendDelivers(k, u, rsp);
    } else if u.rax == SYS_RECV || u.rax == SYS_TRY_RECV {
      var found := FindSender(k, Filter(u.rdi), 0);
      if found.Some? {
        TakeDelivers(k, u, found.value, rsp);
      }
    }
  }

  lemma DeliversDespitePush(k: KState, m: Mem, k': KState, u: Regs, aux: int)
    requires k.Shaped() && k'.Shaped()
    requires DeliversAtMostOnce(k.(kmem := m), k', Syscall(u, 0)) && AcceptsSend(k.(kmem := m), k', Syscall(u, 0))
    ensures DeliversAtMostOnce(k, k', Syscall(u, aux)) && AcceptsSend(k, k', Syscall(u, aux))
  {
    var k1 := k.(kmem := m);
    if k'.log != k.log {
      var d := k'.log[|k.log|];
      assert DirectDelivery(k1, k', u, d) ==> DirectDelivery(k, k', u, d);
      assert TakenDelivery(k1, k', u, d) ==> TakenDelivery(k, k', u, d);
    }
  }

  lemma SyscallDelivers(k: KState, m: Mem, u: Regs, aux: int)
    requires Inv(k) && Enabled(Syscall(u, aux))
    ensures var k' := Dispatch(k.(kmem := m), u.rax, u.rdi, u.rsi, k.kernelStack - FRAME_BYTES, aux);
            DeliversAtMostOnce(k, k', Syscall(u, aux)) && AcceptsSend(k, k', Syscall(u, aux))
  {
    var k1 := k.(kmem := m);
    PushedInv(k, m, u.rax, u.rdi);
    DispatchDelivers(k1, u, k.kernelStack - FRAME_BYTES, aux);
    DeliversDespitePush(k, m, Dispatch(k1, u.rax, u.rdi, u.rsi, k.kernelStack - FRAME_BYTES, aux), u, aux);
  }

  lemma TickDelivers(k: KState, u: Regs)
    requires Inv(k)
    ensures var k' := Step(k, Tick(u));
            k'.log == k.log && k'.umem == k.umem && k'.accepted == k.accepted
  {
    var m := TimerPush(k.kmem, k.rsp0, u);
    assert Step(k, Tick(u)) == HandleTimer(k.(kmem := m), k.rsp0 - FRAME_BYTES);
  }

  /** Exactly once, authentic and to the addressed task: see the two predicates. */
  lemma StepDelivers(k: KState, e: Event)
    requires Inv(k) && Enabled(e)
    ensures DeliversAtMostOnce(k, Step(k, e), e) && AcceptsSend(k, Step(k, e), e)
  {
    hide Dispatch;
    match e
    case UserCode(_) =>
    case Tick(u) => TickDelivers(k, u);
    case Syscall(u, aux) => SyscallDelivers(k, SyscallPush(k.kmem, k.kernelStack, u), u, aux);
  }

  // ----- delivery over runs -----

  /** The valid sends slot `i` makes in the first `n` events. */
  function SendsOf(ks: seq<KState>, es: seq<Event>, i: nat, n: nat): seq<Accepted>
    requires n <= |es| && n <= |ks| && forall j :: 0 <= j < n ==> ks[j].Shaped()
  {
    if n == 0 then []
    else
      var k, e := ks[n - 1], es[n - 1];
      SendsOf(ks, es, i, n - 1) +
      if k.cur == i && e.Syscall? && e.u.rax == SYS_SEND && ValidDest(k, e.u.rdi)
      then [Accepted(e.u.rdi, SentMessage(k, e.u.rsi))] else []
  }

  lemma {:induction false} AcceptedAreSends(ks: seq<KState>, es: seq<Event>, i: nat, n: nat)
    requires CoveredTrace(ks, es) && Inv(ks[0]) && n < |ks| && i < SLOTS
    ensures ks[n].accepted[i] == ks[0].accepted[i] + SendsOf(ks, es, i, n)
    decreases n
  {
    hide Step, Inv, BaseInv, CurrentInv, Covered, DeliversAtMostOnce;
    if n > 0 {
      AcceptedAreSends(ks, es, i, n - 1);
      TraceInv(ks, es, n - 1);
      assert Enabled(es[n - 1]) && ks[n] == Step(ks[n - 1], es[n - 1]);
      StepDelivers(ks[n - 1], es[n - 1]);
      assert AcceptsSend(ks[n - 1], ks[n], es[n - 1]);
    }
  }

  /** Exactly once and in order: at any point of a run, the sends of each task are its deliveries,
      oldest first, followed by the one message it may still hold; every message carries the
      sender's true id; and a task that is running again holds nothing, so a send that has
      returned was delivered. */
  lemma ExactlyOnceInOrder(ks: seq<KState>, es: seq<Event>, i: nat, n: nat)
    requires CoveredTrace(ks, es) && Inv(ks[0]) && n < |ks| && i < SLOTS
    requires ks[0].accepted[i] == [] && ks[0].log == []
    ensures SendsOf(ks, es, i, n) == DeliveredBy(ks[n].log, i) + Pending(ks[n].tasks[i])
    ensures Authentic(SendsOf(ks, es, i, n), i)
    ensures ks[n].cur == i ==> SendsOf(ks, es, i, n) == DeliveredBy(ks[n].log, i)
    ensures NoMissedRendezvous(ks[n].tasks)
  {
    hide Step, Covered, DeliversAtMostOnce;
    TraceInv(ks, es, n);
    AcceptedAreSends(ks, es, i, n);
    assert Accounted(ks[n], i);
  }

  // ----- why the hypothesis is needed -----

  /** A send that blocks its caller while nobody else can run: the scheduler stays with the caller. */
  lemma BlockedSend(k: KState, e: Event)
    requires k.Shaped() && k.tasks[k.cur].Some? && e.Syscall? && e.u.rax == SYS_SEND && Enabled(e)
    requires Blocks(k, SYS_SEND, e.u.rdi) && !OtherRunnable(k)
    ensures var k' := Step(k, e);
            var a := Accepted(e.u.rdi, SentMessage(k, e.u.rsi));
            && k'.cur == k.cur && k'.umem == k.umem && k'.log == k.log
            && k'.accepted == k.accepted[k.cur := k.accepted[k.cur] + [a]]
            && k'.tasks[k.cur].Some? && k'.tasks[k.cur].value.state == Sending(a.dest, a.msg)
            && forall j :: 0 <= j < SLOTS && j != k.cur ==> k'.tasks[j] == k.tasks[j]
  {
    hide SyscallPush, NextTask;
    var k0 := k.(kmem := SyscallPush(k.kmem, k.kernelStack, e.u));
    var a := Accepted(e.u.rdi, SentMessage(k, e.u.rsi));
    var rsp := k.kernelStack - FRAME_BYTES;
    var k1 := k0.Accept(a.dest, a.msg).SetState(k.cur, Sending(a.dest, a.msg)).SaveCurrentRsp(rsp);
    assert Step(k, e) == k1.Reschedule();
    forall j | 0 <= j < SLOTS && j != k.cur ensures !RunnableAt(k1.tasks, j) {
      assert k1.tasks[j] == k.tasks[j] && !RunnableAt(k.tasks, j);
    }
    NextTaskIsFirst(k1.tasks, k.cur);
  }

  /** Why the hypothesis is needed, from every state: when a task blocks in a send and nobody else
      can run, the scheduler lets it run on. A second send to the same task, even one that comes
      right away, overwrites the message it still holds: both are accepted, neither is delivered,
      only the second is held. */
  lemma LostWithoutCover(k: KState, e1: Event, e2: Event)
    requires Inv(k) && Enabled(e1) && BlocksOn(k, e1) && e1.u.rax == SYS_SEND && !OtherRunnable(k)
    requires Enabled(e2) && e2.Syscall? && e2.u.rax == SYS_SEND && e2.u.rdi == e1.u.rdi
    ensures var k1 := Step(k, e1);
            && k1.Shaped() && k1.tasks[k1.cur].Some?
            && var k2 := Step(k1, e2);
               var first, second := SentMessage(k, e1.u.rsi), SentMessage(k, e2.u.rsi);
               && Trace([k, k1, k2], [e1, e2])
               && k1.cur == k.cur && k2.cur == k.cur && !RunnableAt(k1.tasks, k1.cur)
               && k2.log == k.log
               && k2.accepted[k.cur] == k.accepted[k.cur] + [Accepted(e1.u.rdi, first), Accepted(e1.u.rdi, second)]
               && Pending(k2.tasks[k.cur]) == [Accepted(e1.u.rdi, second)]
               && !Accounted(k2, k.cur)
  {
    hide Step, Authentic;
    BlockedSend(k, e1);
    var k1 := Step(k, e1);
    assert !OtherRunnable(k1) by {
      assert forall j :: 0 <= j < SLOTS && j != k.cur ==> RunnableAt(k1.tasks, j) == RunnableAt(k.tasks, j);
    }
    BlockedSend(k1, e2);
    assert Accounted(k, k.cur);
  }

  const LONE_TOP := 1000

  /** Such a state: a kernel with a single, running task, which sends to itself. */
  function Lone(): KState {
    KState([Some(Task(1, LONE_TOP - FRAME_BYTES, LONE_TOP, Ready)), None, None, None, None, None, None, None],
           0, 0, map[], map[], LONE_TOP, LONE_TOP, [[], [], [], [], [], [], [], []], [])
  }

  lemma LoneInv()
    ensures Inv(Lone()) && Blocks(Lone(), SYS_SEND, 1) && !OtherRunnable(Lone())
  {
    assert forall i :: 0 <= i < SLOTS ==> Accounted(Lone(), i);
  }
}
