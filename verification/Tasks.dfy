/** Tasks, their initial stacks, and the round-robin scheduler. */
module Tasks {
  import opened Machine

  const SLOTS: nat := 8

  datatype Message = Message(sender: int, msgType: int, arg1: int, arg2: int, arg3: int, arg4: int)

  datatype TaskState =
    | Ready
    | Running
    | Sending(destId: int, msg: Message)
    | Receiving(srcId: Option<int>, bufferPtr: int)

  datatype Task = Task(id: int, rsp: int, kernelStackTop: int, state: TaskState) {
    predicate IsRunnable() {
      state == Ready || state == Running
    }
  }

  type Table = seq<Option<Task>>

  predicate RunnableAt(tasks: Table, i: int)
    requires |tasks| == SLOTS
  {
    0 <= i < SLOTS && tasks[i].Some? && tasks[i].value.IsRunnable()
  }

  /** How many round-robin steps lead from slot `a` to slot `b`. */
  function Dist(a: nat, b: nat): (d: nat)
    requires a < SLOTS && b < SLOTS
    ensures d < SLOTS
  {
    if a <= b then b - a else b + SLOTS - a
  }

  function Succ(i: nat): (j: nat)
    requires i < SLOTS
    ensures j < SLOTS && Dist(i, j) == 1
  {
    (i + 1) % SLOTS
  }

  // ----- Task::new_user -----

  function AlignDown16(a: int): (r: int)
    ensures r % 16 == 0 && a - 16 < r <= a
  {
    a - a % 16
  }

  /** The memory after storing `ws` in consecutive words from `a` upwards. */
  function WriteWords(m: Mem, a: int, ws: seq<int>): Mem
    decreases |ws|
  {
    if ws == [] then m else WriteWords(m[a := ws[0]], a + WORD, ws[1..])
  }

  lemma {:induction false} WriteWordsRead(m: Mem, a: int, ws: seq<int>)
    ensures forall k: nat :: k < |ws| ==> Read(WriteWords(m, a, ws), a + WORD * k) == ws[k]
    ensures forall b :: b < a || b >= a + WORD * |ws| ==> Read(WriteWords(m, a, ws), b) == Read(m, b)
    decreases |ws|
  {
    if ws != [] {
      var m1 := m[a := ws[0]];
      WriteWordsRead(m1, a + WORD, ws[1..]);
      forall k: nat | k < |ws| ensures Read(WriteWords(m, a, ws), a + WORD * k) == ws[k] {
        if k > 0 {
          assert Read(WriteWords(m1, a + WORD, ws[1..]), a + WORD + WORD * (k - 1)) == ws[1..][k - 1];
        }
      }
    }
  }

  function InitialFrame(entry: int, rflags: int, userTop: int): (ws: seq<int>)
    ensures |ws| == 20
  {
    [0, 0, 0, 0, 0, 0, 0, 0, 0, 0, 0, 0, 0, 0, 0, entry, USER_CODE, rflags, userTop, USER_DATA]
  }

  /** A fresh Ring 3 task and the memory holding its initial frame. The stack extents are
      given by base address and length. */
  function NewUser(m: Mem, id: int, entry: int, userBase: int, userLen: nat,
                   kernelBase: int, kernelLen: nat, allowIo: bool): (Task, Mem)
  {
    var userTop := AlignDown16(userBase + userLen);
    var kernelTop := AlignDown16(kernelBase + kernelLen);
    var rflags := if allowIo then 0x3202 else 0x202;
    var framePtr := kernelTop - FRAME_BYTES;
    (Task(id, framePtr, kernelTop, Ready), WriteWords(m, framePtr, InitialFrame(entry, rflags, userTop)))
  }

  lemma WrittenFrame(m: Mem, top: int, ws: seq<int>)
    requires |ws| == 20
    ensures var m' := WriteWords(m, top - FRAME_BYTES, ws);
            && FrameBelow(m', top)
               == Regs(ws[0], ws[1], ws[2], ws[3], ws[4], ws[5], ws[6], ws[7], ws[8], ws[9],
                       ws[10], ws[11], ws[12], ws[13], ws[14], ws[15], ws[16], ws[17], ws[18], ws[19])
            && forall other :: other >= top + FRAME_BYTES || other + FRAME_BYTES <= top
                 ==> FrameBelow(m', other) == FrameBelow(m, other)
  {
    WriteWordsRead(m, top - FRAME_BYTES, ws);
    var m' := WriteWords(m, top - FRAME_BYTES, ws);
    var b := top - FRAME_BYTES;
    assert Read(m', b + WORD * 0) == ws[0] && Read(m', b + WORD * 1) == ws[1];
    assert Read(m', b + WORD * 2) == ws[2] && Read(m', b + WORD * 3) == ws[3];
    assert Read(m', b + WORD * 4) == ws[4] && Read(m', b + WORD * 5) == ws[5];
    assert Read(m', b + WORD * 6) == ws[6] && Read(m', b + WORD * 7) == ws[7];
    assert Read(m', b + WORD * 8) == ws[8] && Read(m', b + WORD * 9) == ws[9];
    assert Read(m', b + WORD * 10) == ws[10] && Read(m', b + WORD * 11) == ws[11];
    assert Read(m', b + WORD * 12) == ws[12] && Read(m', b + WORD * 13) == ws[13];
    assert Read(m', b + WORD * 14) == ws[14] && Read(m', b + WORD * 15) == ws[15];
    assert Read(m', b + WORD * 16) == ws[16] && Read(m', b + WORD * 17) == ws[17];
    assert Read(m', b + WORD * 18) == ws[18] && Read(m', b + WORD * 19) == ws[19];
  }

  /** The first switch to a new task enters its entry point in Ring 3 on its own user stack with
      interrupts enabled, and building the task touched no other frame. */
  lemma NewUserStarts(m: Mem, id: int, entry: int, userBase: int, userLen: nat,
                      kernelBase: int, kernelLen: nat, allowIo: bool)
    ensures var (t, m') := NewUser(m, id, entry, userBase, userLen, kernelBase, kernelLen, allowIo);
            && t.id == id && t.IsRunnable() && t.rsp == t.kernelStackTop - FRAME_BYTES
            && kernelBase + kernelLen - 16 < t.kernelStackTop <= kernelBase + kernelLen
            && (var u := FrameBelow(m', t.kernelStackTop);
                && u.rip == entry && u.cs == 0x23 && u.ss == 0x1B && u.rax == 0
                && userBase + userLen - 16 < u.rsp <= userBase + userLen && u.rsp % 16 == 0
                && (u.rflags / 0x200) % 2 == 1
                && ((u.rflags / 0x1000) % 4 == if allowIo then 3 else 0))
            && forall top :: top >= t.kernelStackTop + FRAME_BYTES || top + FRAME_BYTES <= t.kernelStackTop
                 ==> FrameBelow(m', top) == FrameBelow(m, top)
  {
    hide FrameBelow, WriteWords, AlignDown16;
    WrittenFrame(m, AlignDown16(kernelBase + kernelLen),
                 InitialFrame(entry, if allowIo then 0x3202 else 0x202, AlignDown16(userBase + userLen)));
  }

  // ----- the scheduler's choice -----

  /** The loop of `select_next_task` from slot `next` on. */
  function NextFrom(tasks: Table, cur: nat, next: nat): nat
    requires |tasks| == SLOTS && cur < SLOTS && next < SLOTS
    decreases Dist(next, cur)
  {
    if next == cur then cur
    else if RunnableAt(tasks, next) then next
    else NextFrom(tasks, cur, Succ(next))
  }

  function NextTask(tasks: Table, cur: nat): nat
    requires |tasks| == SLOTS && cur < SLOTS
  {
    NextFrom(tasks, cur, Succ(cur))
  }

  lemma {:induction false} NextFromSkips(tasks: Table, cur: nat, next: nat)
    requires |tasks| == SLOTS && cur < SLOTS && next < SLOTS
    ensures var r := NextFrom(tasks, cur, next);
            && r < SLOTS && (r == cur || RunnableAt(tasks, r))
            && (next != cur ==> Dist(next, r) <= Dist(next, cur))
            && forall j :: 0 <= j < SLOTS && Dist(next, j) < Dist(next, r) ==> !RunnableAt(tasks, j)
    decreases Dist(next, cur)
  {
    if next != cur && !RunnableAt(tasks, next) {
      NextFromSkips(tasks, cur, Succ(next));
    }
  }

  /** Round robin: the slot chosen is the first runnable one after the current slot; only when
      every other slot is not runnable does the current task stay. */
  lemma NextTaskIsFirst(tasks: Table, cur: nat)
    requires |tasks| == SLOTS && cur < SLOTS
    ensures var r := NextTask(tasks, cur);
            && r < SLOTS
            && (r == cur <==> forall j :: 0 <= j < SLOTS && j != cur ==> !RunnableAt(tasks, j))
            && (r != cur ==> RunnableAt(tasks, r))
            && (forall j :: 0 <= j < SLOTS && 0 < Dist(cur, j) < Dist(cur, r) ==> !RunnableAt(tasks, j))
  {
    NextFromSkips(tasks, cur, Succ(cur));
  }

  /** The current slot after the first `n` calls of `select_next_task`, when the k-th call finds
      the task table `tables[k]`. */
  function CurrentAfter(tables: seq<Table>, cur: nat, n: nat): (r: nat)
    requires n <= |tables| && cur < SLOTS
    requires forall k :: 0 <= k < |tables| ==> |tables[k]| == SLOTS
    ensures r < SLOTS
  {
    if n == 0 then cur
    else
      var c := CurrentAfter(tables, cur, n - 1);
      NextTaskIsFirst(tables[n - 1], c);
      NextTask(tables[n - 1], c)
  }

  /** Bounded waiting: whatever else happens to the task table between calls, a task that stays
      runnable is selected within as many calls as its cyclic distance, hence within seven. */
  lemma {:induction false} BoundedWaiting(tables: seq<Table>, cur: nat, i: nat) returns (n: nat)
    requires cur < SLOTS && i < SLOTS && i != cur && Dist(cur, i) <= |tables|
    requires forall k :: 0 <= k < |tables| ==> |tables[k]| == SLOTS && RunnableAt(tables[k], i)
    ensures 1 <= n <= Dist(cur, i) <= 7 && n <= |tables| && CurrentAfter(tables, cur, n) == i
    decreases Dist(cur, i)
  {
    var c := NextTask(tables[0], cur);
    NextTaskIsFirst(tables[0], cur);
    assert CurrentAfter(tables, cur, 1) == c by { assert CurrentAfter(tables, cur, 0) == cur; }
    if c == i {
      n := 1;
    } else {
      assert Dist(cur, c) < Dist(cur, i);
      var m := BoundedWaiting(tables[1..], c, i);
      ShiftCurrent(tables, cur, m);
      n := m + 1;
    }
  }

  lemma {:induction false} ShiftCurrent(tables: seq<Table>, cur: nat, n: nat)
    requires n + 1 <= |tables| && cur < SLOTS
    requires forall k :: 0 <= k < |tables| ==> |tables[k]| == SLOTS
    ensures NextTask(tables[0], cur) < SLOTS
    ensures CurrentAfter(tables, cur, n + 1) == CurrentAfter(tables[1..], NextTask(tables[0], cur), n)
  {
    NextTaskIsFirst(tables[0], cur);
    if n == 0 {
      assert CurrentAfter(tables, cur, 0) == cur;
    } else {
      ShiftCurrent(tables, cur, n - 1);
    }
  }

  // ----- Scheduler -----

  /** Index of the first free slot, or 8. */
  function FreeSlot(tasks: Table, i: nat): (r: nat)
    requires i <= |tasks|
    ensures i <= r <= |tasks|
    ensures r < |tasks| ==> tasks[r].None?
    ensures forall j :: i <= j < r ==> tasks[j].Some?
    decreases |tasks| - i
  {
    if i == |tasks| || tasks[i].None? then i else FreeSlot(tasks, i + 1)
  }

  class Scheduler {
    var tasks: Table
    var currentTaskIdx: nat
    var mainTaskRsp: int

    predicate Valid()
      reads this
    {
      |tasks| == SLOTS && currentTaskIdx < SLOTS
    }

    constructor ()
      ensures Valid() && tasks == seq(SLOTS, _ => None) && currentTaskIdx == 0 && mainTaskRsp == 0
    {
      tasks := [None, None, None, None, None, None, None, None];
      currentTaskIdx := 0;
      mainTaskRsp := 0;
      new;
      assert tasks == seq(SLOTS, _ => None);
    }

    /** Put a task in the first free slot. */
    method Spawn(task: Task) returns (ok: bool)
      requires Valid()
      modifies this`tasks
      ensures Valid()
      ensures ok <==> exists j :: 0 <= j < SLOTS && old(tasks)[j].None?
      ensures ok ==> tasks == old(tasks)[FreeSlot(old(tasks), 0) := Some(task)]
      ensures !ok ==> tasks == old(tasks)
    {
      var i := 0;
      while i < SLOTS
        invariant 0 <= i <= SLOTS && tasks == old(tasks)
        invariant forall j :: 0 <= j < i ==> tasks[j].Some?
        invariant FreeSlot(tasks, i) == FreeSlot(tasks, 0)
      {
        if tasks[i].None? {
          tasks := tasks[i := Some(task)];
          return true;
        }
        i := i + 1;
      }
      return false;
    }

    method SaveCurrentRsp(rsp: int)
      requires Valid()
      modifies this`tasks, this`mainTaskRsp
      ensures Valid()
      ensures tasks == (if old(tasks)[currentTaskIdx].Some?
                        then old(tasks)[currentTaskIdx := Some(old(tasks)[currentTaskIdx].value.(rsp := rsp))]
                        else old(tasks))
      ensures mainTaskRsp == if currentTaskIdx == 0 && old(tasks)[0].None? then rsp else old(mainTaskRsp)
    {
      if currentTaskIdx == 0 && tasks[0].None? {
        mainTaskRsp := rsp;
      } else if tasks[currentTaskIdx].Some? {
        tasks := tasks[currentTaskIdx := Some(tasks[currentTaskIdx].value.(rsp := rsp))];
      }
    }

    method SelectNextTask()
      requires Valid()
      modifies this`currentTaskIdx
      ensures Valid()
      ensures currentTaskIdx == NextTask(tasks, old(currentTaskIdx))
    {
      var currentIdx := currentTaskIdx;
      var nextIdx := Succ(currentIdx);
      while true
        invariant 0 <= nextIdx < SLOTS && currentTaskIdx == currentIdx < SLOTS && |tasks| == SLOTS
        invariant NextFrom(tasks, currentIdx, nextIdx) == NextTask(tasks, currentIdx)
        decreases Dist(nextIdx, currentIdx)
      {
        if nextIdx == currentIdx {
          return;
        }
        if tasks[nextIdx].Some? {
          if tasks[nextIdx].value.IsRunnable() {
            break;
          }
        }
        nextIdx := Succ(nextIdx);
      }
      currentTaskIdx := nextIdx;
    }

    method GetCurrentRsp() returns (rsp: int)
      requires Valid() && (currentTaskIdx == 0 || tasks[currentTaskIdx].Some?)
      ensures rsp == if tasks[currentTaskIdx].None? then mainTaskRsp else tasks[currentTaskIdx].value.rsp
    {
      if currentTaskIdx == 0 && tasks[0].None? {
        rsp := mainTaskRsp;
      } else {
        rsp := tasks[currentTaskIdx].value.rsp;
      }
    }
  }
}
