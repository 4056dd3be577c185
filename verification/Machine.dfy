/** Word-addressed memory, the user register file, and the save and restore
    sequences of the two naked trap handlers. */
module Machine {
  datatype Option<+T> = None | Some(value: T)

  type Byte = x: int | 0 <= x < 256
  type U32 = x: int | 0 <= x < 0x1_0000_0000
  type U64 = x: int | 0 <= x < 0x1_0000_0000_0000_0000

  /** Memory by byte address of each 8-byte word; words never written read as zero. */
  type Mem = map<int, int>

  /** `-1isize as usize` */
  const ERROR: int := 0xFFFF_FFFF_FFFF_FFFF

  const WORD: int := 8
  const FRAME_BYTES: int := 160
  /** Byte offset of word 14 of a frame, the slot rax is restored from. */
  const RAX_OFFSET: int := 14 * WORD

  const USER_DATA: int := 0x1B
  const USER_CODE: int := 0x23

  function Min(a: nat, b: nat): nat { if a <= b then a else b }

  function Read(m: Mem, a: int): int {
    if a in m then m[a] else 0
  }

  /** The registers of a user task, in the order of the frame words. */
  datatype Regs = Regs(
    r15: int, r14: int, r13: int, r12: int, rbp: int, rbx: int, r11: int, r10: int, r9: int, r8: int,
    rdi: int, rsi: int, rdx: int, rcx: int, rax: int,
    rip: int, cs: int, rflags: int, rsp: int, ss: int)

  /** What `syscall_handler` pushes, first push first. The `syscall` instruction has
      already put rip in rcx and rflags in r11. */
  function SyscallPushes(u: Regs): (ws: seq<int>)
    ensures |ws| == 20
  {
    [USER_DATA, u.rsp, u.rflags, USER_CODE, u.rip,
     u.rax, u.rip, u.rdx, u.rsi, u.rdi, u.r8, u.r9, u.r10, u.rflags, u.rbx, u.rbp, u.r12, u.r13, u.r14, u.r15]
  }

  /** What the CPU and then `timer_interrupt_handler` push. */
  function TimerPushes(u: Regs): (ws: seq<int>)
    ensures |ws| == 20
  {
    [u.ss, u.rsp, u.rflags, u.cs, u.rip,
     u.rax, u.rcx, u.rdx, u.rsi, u.rdi, u.r8, u.r9, u.r10, u.r11, u.rbx, u.rbp, u.r12, u.r13, u.r14, u.r15]
  }

  /** The memory after pushing `ws` one word at a time, starting from stack pointer `sp`. */
  function PushAll(m: Mem, sp: int, ws: seq<int>): Mem
    decreases |ws|
  {
    if ws == [] then m else PushAll(m[sp - WORD := ws[0]], sp - WORD, ws[1..])
  }

  /** Fifteen pops, then `iretq`, from stack pointer `sp`. */
  function PopRegs(m: Mem, sp: int): Regs {
    Regs(Read(m, sp), Read(m, sp + 8), Read(m, sp + 16), Read(m, sp + 24), Read(m, sp + 32),
         Read(m, sp + 40), Read(m, sp + 48), Read(m, sp + 56), Read(m, sp + 64), Read(m, sp + 72),
         Read(m, sp + 80), Read(m, sp + 88), Read(m, sp + 96), Read(m, sp + 104), Read(m, sp + 112),
         Read(m, sp + 120), Read(m, sp + 128), Read(m, sp + 136), Read(m, sp + 144), Read(m, sp + 152))
  }

  /** The frame that occupies the 160 bytes below `top`. */
  function FrameBelow(m: Mem, top: int): Regs {
    PopRegs(m, top - FRAME_BYTES)
  }

  lemma {:induction false} PushAllReads(m: Mem, sp: int, ws: seq<int>, k: nat)
    requires k < |ws|
    ensures Read(PushAll(m, sp, ws), sp - WORD * (k + 1)) == ws[k]
    decreases |ws|
  {
    var m' := m[sp - WORD := ws[0]];
    if k == 0 {
      PushAllElsewhere(m', sp - WORD, ws[1..], sp - WORD);
    } else {
      PushAllReads(m', sp - WORD, ws[1..], k - 1);
      assert sp - WORD - WORD * (k - 1 + 1) == sp - WORD * (k + 1);
    }
  }

  lemma {:induction false} PushAllElsewhere(m: Mem, sp: int, ws: seq<int>, a: int)
    requires a >= sp || a < sp - WORD * |ws|
    ensures Read(PushAll(m, sp, ws), a) == Read(m, a)
    decreases |ws|
  {
    if ws != [] {
      assert WORD * |ws| == WORD + WORD * |ws[1..]|;
      PushAllElsewhere(m[sp - WORD := ws[0]], sp - WORD, ws[1..], a);
    }
  }

  /** Popping twenty pushed words yields them in reverse, and other frames keep their contents. */
  lemma PoppedReversed(m: Mem, top: int, ws: seq<int>, other: int)
    requires |ws| == 20
    ensures FrameBelow(PushAll(m, top, ws), top)
         == Regs(ws[19], ws[18], ws[17], ws[16], ws[15], ws[14], ws[13], ws[12], ws[11], ws[10],
                 ws[9], ws[8], ws[7], ws[6], ws[5], ws[4], ws[3], ws[2], ws[1], ws[0])
    ensures other >= top + FRAME_BYTES || other + FRAME_BYTES <= top ==>
              FrameBelow(PushAll(m, top, ws), other) == FrameBelow(m, other)
  {
    var m' := PushAll(m, top, ws);
    var b := top - FRAME_BYTES;
    forall k | 0 <= k < 20 ensures Read(m', b + WORD * (19 - k)) == ws[k] {
      PushAllReads(m, top, ws, k);
    }
    assert Read(m', b + WORD * (19 - 19)) == ws[19] && Read(m', b + WORD * (19 - 18)) == ws[18];
    assert Read(m', b + WORD * (19 - 17)) == ws[17] && Read(m', b + WORD * (19 - 16)) == ws[16];
    assert Read(m', b + WORD * (19 - 15)) == ws[15] && Read(m', b + WORD * (19 - 14)) == ws[14];
    assert Read(m', b + WORD * (19 - 13)) == ws[13] && Read(m', b + WORD * (19 - 12)) == ws[12];
    assert Read(m', b + WORD * (19 - 11)) == ws[11] && Read(m', b + WORD * (19 - 10)) == ws[10];
    assert Read(m', b + WORD * (19 - 9)) == ws[9] && Read(m', b + WORD * (19 - 8)) == ws[8];
    assert Read(m', b + WORD * (19 - 7)) == ws[7] && Read(m', b + WORD * (19 - 6)) == ws[6];
    assert Read(m', b + WORD * (19 - 5)) == ws[5] && Read(m', b + WORD * (19 - 4)) == ws[4];
    assert Read(m', b + WORD * (19 - 3)) == ws[3] && Read(m', b + WORD * (19 - 2)) == ws[2];
    assert Read(m', b + WORD * (19 - 1)) == ws[1] && Read(m', b + WORD * (19 - 0)) == ws[0];
    if other >= top + FRAME_BYTES || other + FRAME_BYTES <= top {
      forall a | other - FRAME_BYTES <= a < other ensures Read(m', a) == Read(m, a) {
        PushAllElsewhere(m, top, ws, a);
      }
    }
  }

  /** The registers a task has when it returns from a system call whose rax slot was left alone:
      all as they were, but for the two the instruction itself clobbers. */
  function SyscallSaved(u: Regs): Regs {
    u.(rcx := u.rip, r11 := u.rflags, cs := USER_CODE, ss := USER_DATA)
  }

  function SyscallPush(m: Mem, top: int, u: Regs): Mem {
    PushAll(m, top, SyscallPushes(u))
  }

  function TimerPush(m: Mem, top: int, u: Regs): Mem {
    PushAll(m, top, TimerPushes(u))
  }

  /** The pops of `syscall_handler` undo its pushes, and no other frame is touched. */
  lemma SyscallSaveRestore(m: Mem, top: int, u: Regs, other: int)
    ensures FrameBelow(SyscallPush(m, top, u), top) == SyscallSaved(u)
    ensures other >= top + FRAME_BYTES || other + FRAME_BYTES <= top ==>
              FrameBelow(SyscallPush(m, top, u), other) == FrameBelow(m, other)
  {
    PoppedReversed(m, top, SyscallPushes(u), other);
  }

  /** The timer handler saves and restores every register, and touches no other frame. */
  lemma TimerSaveRestore(m: Mem, top: int, u: Regs, other: int)
    ensures FrameBelow(TimerPush(m, top, u), top) == u
    ensures other >= top + FRAME_BYTES || other + FRAME_BYTES <= top ==>
              FrameBelow(TimerPush(m, top, u), other) == FrameBelow(m, other)
  {
    PoppedReversed(m, top, TimerPushes(u), other);
  }

  /** Writing word 14 of a frame changes rax and nothing else. */
  lemma PokeRax(m: Mem, top: int, v: int)
    ensures FrameBelow(m[top - FRAME_BYTES + RAX_OFFSET := v], top) == FrameBelow(m, top).(rax := v)
  {
  }

  lemma PokeOther(m: Mem, top: int, v: int, other: int)
    requires other >= top + FRAME_BYTES || other + FRAME_BYTES <= top
    ensures FrameBelow(m[top - FRAME_BYTES + RAX_OFFSET := v], other) == FrameBelow(m, other)
  {
  }
}
