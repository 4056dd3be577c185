/** What the result of an IPC call tells its caller: zero after a delivery, and only then. */
module Results {
  import opened Machine
  import opened Tasks
  import opened Syscalls
  import opened KernelRuns
  import opened Deliveries
  import opened Contexts

  const MINUS_ONE := 0xFFFF_FFFF_FFFF_FFFF

  /** The deliveries that a call which does not block makes. */
  lemma ImmediateDelivery(k: KState, u: Regs, aux: int)
    requires Inv(k) && Enabled(Syscall(u, aux)) && !Blocks(k, u.rax, u.rdi)
    ensures |Step(k, Syscall(u, aux)).log|
         == |k.log| + if (u.rax == 3 && ValidDest(k, u.rdi))
                        || ((u.rax == 4 || u.rax == 14) && FindSender(k, Filter(u.rdi), 0).Some?) then 1 else 0
  {
    hide SyscallPush, NextTask, NoMissedRendezvous, DeliveryInv, TableInv;
    var m := SyscallPush(k.kmem, k.kernelStack, u);
    FindSenderKmem(k, m, Filter(u.rdi), 0);
  }

  /** The result of a send, a receive or a poll that returns at once is zero exactly if the call
      delivered a message; otherwise it is minus one and nothing was sent or written. */
  lemma ZeroMeansDelivered(k: KState, u: Regs, aux: int)
    requires Inv(k) && Enabled(Syscall(u, aux)) && !Blocks(k, u.rax, u.rdi)
    requires u.rax == 3 || u.rax == 4 || u.rax == 14
    ensures var k', r := Step(k, Syscall(u, aux)), SavedFrame(k, Syscall(u, aux)).rax;
            && (r == 0 <==> |k'.log| == |k.log| + 1)
            && (r != 0 ==> r == MINUS_ONE && k'.log == k.log && k'.umem == k.umem && k'.accepted == k.accepted)
  {
    hide Step, Inv, AcceptsSend;
    ImmediateDelivery(k, u, aux);
    StepDelivers(k, Syscall(u, aux));
    FailedSend(k, u, aux);
  }

  lemma FailedSend(k: KState, u: Regs, aux: int)
    requires Inv(k) && Enabled(Syscall(u, aux))
    ensures u.rax != 3 || !ValidDest(k, u.rdi) ==> Step(k, Syscall(u, aux)).accepted == k.accepted
  {
    hide Step, DeliversAtMostOnce;
    StepDelivers(k, Syscall(u, aux));
  }

  /** The result of every call that returns at once, by its number. */
  lemma ResultOf(k: KState, u: Regs, aux: int)
    requires Inv(k) && Enabled(Syscall(u, aux)) && !Blocks(k, u.rax, u.rdi)
    ensures var r := SavedFrame(k, Syscall(u, aux)).rax;
            && (u.rax == 3 ==> r == if 1 <= u.rdi <= 8 && k.tasks[u.rdi - 1].Some? then 0 else MINUS_ONE)
            && (u.rax == 14 ==> r == 0 || r == MINUS_ONE)
            && (u.rax == 1 || u.rax == 2 || u.rax == 4 || u.rax == 11 || u.rax == 12 ==> r == 0)
            && (5 <= u.rax <= 8 ==> r == aux) && (u.rax == 9 ==> r == 9)
            && (u.rax == 0 || u.rax == 13 || u.rax > 14 ==> r == MINUS_ONE)
  {
  }

  // ----- over runs -----

  /** While a task is not in control, nothing is accepted from it. */
  lemma {:induction false} AcceptedAway(ks: seq<KState>, es: seq<Event>, i: nat, m: nat, n: nat)
    requires CoveredTrace(ks, es) && Inv(ks[0]) && m <= n < |ks| && i < SLOTS
    requires forall j :: m <= j < n ==> ks[j].cur != i
    ensures ks[n].accepted[i] == ks[m].accepted[i]
    decreases n
  {
    hide Step, Inv, BaseInv, CurrentInv, Covered, DeliversAtMostOnce;
    if n > m {
      AcceptedAway(ks, es, i, m, n - 1);
      TraceInv(ks, es, n - 1);
      StepDelivers(ks[n - 1], es[n - 1]);
      assert ks[n] == Step(ks[n - 1], es[n - 1]) && ks[n - 1].cur != i;
    }
  }

  lemma HoldsNothing(k: KState)
    requires Inv(k)
    ensures k.accepted[k.cur] == DeliveredBy(k.log, k.cur)
  {
    assert Accounted(k, k.cur);
    assert DeliveredBy(k.log, k.cur) + [] == DeliveredBy(k.log, k.cur);
  }

  /** A send returns zero only after its message has been delivered: when the sender next has control,
      the result is zero exactly if the destination exists, and then the message is the last that
      was delivered for this sender; otherwise nothing was sent. */
  lemma SendReturns(ks: seq<KState>, es: seq<Event>, i: nat, m: nat, n: nat)
    requires CoveredTrace(ks, es) && Inv(ks[0]) && m < n < |ks| && i < SLOTS
    requires ks[m].cur == i && es[m].Syscall? && es[m].u.rax == 3 && ks[n].cur == i
    requires forall j :: m < j < n ==> ks[j].cur != i
    ensures var result := PopRegs(ks[n].kmem, ks[n].CurrentRsp()).rax;
            var sent := Accepted(es[m].u.rdi, SentMessage(ks[m], es[m].u.rsi));
            && (result == 0 || result == MINUS_ONE)
            && (result == 0 <==> ValidDest(ks[m], es[m].u.rdi))
            && DeliveredBy(ks[n].log, i) == DeliveredBy(ks[m].log, i) + if result == 0 then [sent] else []
  {
    hide Step, Covered, PopRegs, DeliversAtMostOnce, TableInv, NoMissedRendezvous, DeliveredBy, Authentic;
    TraceInv(ks, es, m);
    TraceInv(ks, es, n);
    ResumesExactly(ks, es, i, m, n);
    assert Enabled(es[m]) && ks[m + 1] == Step(ks[m], es[m]);
    StepDelivers(ks[m], es[m]);
    AcceptedAway(ks, es, i, m + 1, n);
    HoldsNothing(ks[m]);
    HoldsNothing(ks[n]);
    assert es[m] == Syscall(es[m].u, es[m].aux);
    if !BlocksOn(ks[m], es[m]) {
      ResultOf(ks[m], es[m].u, es[m].aux);
    }
  }

  /** Delivery number `x` is to slot `i`, into buffer `p`, from a sender that the filter admits. */
  predicate Received(log: seq<Delivery>, x: nat, i: nat, filter: int, p: int) {
    x < |log| && log[x].dest == i + 1 && log[x].bufferPtr == p && (filter == 0 || log[x].from + 1 == filter)
  }

  /** While a receiver waits, either it still waits as it did, or its message has come. */
  lemma {:induction false} WaitsOrReceived(ks: seq<KState>, es: seq<Event>, i: nat, filter: int, p: int, m: nat, n: nat)
    returns (x: nat)
    requires CoveredTrace(ks, es) && Inv(ks[0]) && m <= n < |ks| && i < SLOTS
    requires ks[m].tasks[i].Some? && ks[m].tasks[i].value.state == Receiving(Filter(filter), p)
    requires forall j :: m <= j < n ==> ks[j].cur != i
    ensures ks[m].log <= ks[n].log && ks[n].tasks[i].Some?
    ensures |ks[m].log| <= x
    ensures ks[n].tasks[i].value.state == Receiving(Filter(filter), p) || Received(ks[n].log, x, i, filter, p)
    decreases n
  {
    hide Step, Inv, BaseInv, CurrentInv, Covered, AcceptsSend;
    x := |ks[m].log|;
    if n > m {
      x := WaitsOrReceived(ks, es, i, filter, p, m, n - 1);
      TraceInv(ks, es, n - 1);
      var k, e := ks[n - 1], es[n - 1];
      assert Enabled(e) && ks[n] == Step(k, e) && k.cur != i;
      StepDelivers(k, e);
      OneWait(k, e, i, filter, p);
      if k.tasks[i].value.state == Receiving(Filter(filter), p) && !Received(ks[n].log, x, i, filter, p) {
        x := |k.log|;
      }
    }
  }

  lemma OneWait(k: KState, e: Event, i: nat, filter: int, p: int)
    requires Inv(k) && Enabled(e) && i < SLOTS && i != k.cur && k.tasks[i].Some?
    ensures var k' := Step(k, e);
            && k'.tasks[i].Some?
            && (k.tasks[i].value.state == Receiving(Filter(filter), p) ==>
                  k'.tasks[i].value.state == k.tasks[i].value.state || Received(k'.log, |k.log|, i, filter, p))
  {
    hide Step, AcceptsSend, NoMissedRendezvous, DeliveryInv;
    StepTasks(k, e);
    if e.Syscall? && k.tasks[i].value.state == Receiving(Filter(filter), p) {
      if e.u.rax == SYS_SEND && e.u.rdi == i + 1 && !Blocks(k, e.u.rax, e.u.rdi) {
        ImmediateDelivery(k, e.u, e.aux);
        StepDelivers(k, e);
      }
    }
  }

  /** A receive that has blocked returns only after a delivery to its caller, into the buffer it gave,
      from a sender it asked for. */
  lemma ReceiveReturns(ks: seq<KState>, es: seq<Event>, i: nat, m: nat, n: nat) returns (x: nat)
    requires CoveredTrace(ks, es) && Inv(ks[0]) && m < n < |ks| && i < SLOTS
    requires ks[m].cur == i && es[m].Syscall? && (es[m].u.rax == 4 || es[m].u.rax == 14) && ks[n].cur == i
    requires forall j :: m < j < n ==> ks[j].cur != i
    requires PopRegs(ks[n].kmem, ks[n].CurrentRsp()).rax == 0
    ensures |ks[m].log| <= x && Received(ks[n].log, x, i, es[m].u.rdi, es[m].u.rsi)
  {
    hide Step, Covered, PopRegs, AcceptsSend, TableInv, NoMissedRendezvous, DeliveryInv, SavedFrame;
    TraceInv(ks, es, m);
    TraceInv(ks, es, n);
    var k, e := ks[m], es[m];
    assert Enabled(e) && ks[m + 1] == Step(k, e);
    StepDelivers(k, e);
    ResumesExactly(ks, es, i, m, n);
    if BlocksOn(k, e) {
      StepTasks(k, e);
      x := WaitsOrReceived(ks, es, i, e.u.rdi, e.u.rsi, m + 1, n);
    } else {
      ZeroMeansDelivered(k, e.u, e.aux);
      x := |k.log|;
      LogGrows(ks, es, m + 1, n);
    }
  }

  lemma {:induction false} LogGrows(ks: seq<KState>, es: seq<Event>, m: nat, n: nat)
    requires CoveredTrace(ks, es) && Inv(ks[0]) && m <= n < |ks|
    ensures ks[m].log <= ks[n].log
    decreases n
  {
    hide Step, Inv, BaseInv, CurrentInv, Covered, AcceptsSend;
    if n > m {
      LogGrows(ks, es, m, n - 1);
      TraceInv(ks, es, n - 1);
      StepDelivers(ks[n - 1], es[n - 1]);
      assert ks[n] == Step(ks[n - 1], es[n - 1]);
    }
  }
}
