/** The lock-free byte queue between an interrupt handler and the input server: 256 slots, one
    producer, one consumer, one step per atomic or buffer access, under every interleaving. */
module ByteQueue {
  import opened Machine

  const SLOTS := 256

  /** Where a `push` stands: which accesses it has made, and what it holds in locals. */
  datatype Producer = NoPush | HasWrite(byte: Byte, w: nat) | HasRoom(byte: Byte, w: nat) | HasWritten(byte: Byte,
      w: nat)

  /** Where a `pop` stands. */
  datatype Consumer = NoPop | HasRead(r: nat) | HasByte(r: nat) | HasCopy(r: nat, byte: Byte)

  datatype Queue = Queue(buffer: seq<Byte>, writePos: nat, readPos: nat, push: Producer, pop: Consumer)

  /** One access each: the four of `push`, then the four of `pop`. */
  datatype Access =
    | PushLoadWrite(byte: Byte) | PushLoadRead | PushWriteSlot | PushStoreWrite
    | PopLoadRead | PopLoadWrite | PopReadSlot | PopStoreRead

  /** What an access decides for the caller, if it decides anything. */
  datatype Outcome = Nothing | Accepted(byte: Byte) | Dropped(byte: Byte) | Gave(byte: Byte) | WasEmpty

  predicate WellFormed(q: Queue) {
    |q.buffer| == SLOTS && q.writePos < SLOTS && q.readPos < SLOTS
    && (q.push.NoPush? || q.push.w < SLOTS) && (q.pop.NoPop? || q.pop.r < SLOTS)
  }

  /** Each side makes its accesses in program order; the two sides interleave freely. */
  predicate Enabled(q: Queue, a: Access) {
    match a
    case PushLoadWrite(_) => q.push.NoPush?
    case PushLoadRead => q.push.HasWrite?
    case PushWriteSlot => q.push.HasRoom?
    case PushStoreWrite => q.push.HasWritten?
    case PopLoadRead => q.pop.NoPop?
    case PopLoadWrite => q.pop.HasRead?
    case PopReadSlot => q.pop.HasByte?
    case PopStoreRead => q.pop.HasCopy?
  }

  /** `(i + 1) & 0xFF`. */
  function After(i: nat): nat {
    (i + 1) % SLOTS
  }

  function Next(q: Queue, a: Access): (Queue, Outcome)
    requires WellFormed(q) && Enabled(q, a)
  {
    match a
    case PushLoadWrite(b) => (q.(push := HasWrite(b, q.writePos)), Nothing)
    case PushLoadRead =>
      if After(q.push.w) != q.readPos then (q.(push := HasRoom(q.push.byte, q.push.w)), Nothing)
      else (q.(push := NoPush), Dropped(q.push.byte))
    case PushWriteSlot =>
      (q.(buffer := q.buffer[q.push.w := q.push.byte], push := HasWritten(q.push.byte, q.push.w)), Nothing)
    case PushStoreWrite => (q.(writePos := After(q.push.w), push := NoPush), Accepted(q.push.byte))
    case PopLoadRead => (q.(pop := HasRead(q.readPos)), Nothing)
    case PopLoadWrite =>
      if q.pop.r == q.writePos then (q.(pop := NoPop), WasEmpty) else (q.(pop := HasByte(q.pop.r)), Nothing)
    case PopReadSlot => (q.(pop := HasCopy(q.pop.r, q.buffer[q.pop.r])), Nothing)
    case PopStoreRead => (q.(readPos := After(q.pop.r), pop := NoPop), Gave(q.pop.byte))
  }

  // ----- the bounded queue that the ring stands for -----

  /** How many bytes wait in the ring. */
  function Count(q: Queue): (n: nat)
    requires WellFormed(q)
    ensures n < SLOTS
  {
    if q.readPos <= q.writePos then q.writePos - q.readPos else SLOTS - (q.readPos - q.writePos)
  }

  /** The slot of the `i`-th waiting byte. */
  function Slot(q: Queue, i: nat): (s: nat)
    ensures s < SLOTS
  {
    (q.readPos + i) % SLOTS
  }

  /** The waiting bytes, oldest first. */
  function Pending(q: Queue): (s: seq<Byte>)
    requires WellFormed(q)
    ensures |s| == Count(q) && forall i :: 0 <= i < |s| ==> s[i] == q.buffer[Slot(q, i)]
  {
    seq(Count(q), i requires 0 <= i < Count(q) => q.buffer[Slot(q, i)])
  }

  /** What both sides may rely on, whatever the other side does in between. */
  predicate Inv(q: Queue) {
    WellFormed(q)
    && (!q.push.NoPush? ==> q.push.w == q.writePos)
    && (q.push.HasRoom? || q.push.HasWritten? ==> Count(q) < SLOTS - 1)
    && (q.push.HasWritten? ==> q.buffer[q.push.w] == q.push.byte)
    && (!q.pop.NoPop? ==> q.pop.r == q.readPos)
    && (q.pop.HasByte? || q.pop.HasCopy? ==> Count(q) > 0)
    && (q.pop.HasCopy? ==> q.pop.byte == q.buffer[q.pop.r])
  }

  /** One step of a FIFO queue that holds at most 255 bytes. */
  predicate FifoStep(before: seq<Byte>, o: Outcome, after: seq<Byte>) {
    match o
    case Nothing => after == before
    case Accepted(b) => |before| < 255 && after == before + [b]
    case Dropped(_) => |before| == 255 && after == before
    case Gave(b) => before == [b] + after
    case WasEmpty => before == [] && after == before
  }

  lemma CountMoves(q: Queue, q': Queue)
    requires WellFormed(q) && WellFormed(q')
    ensures q'.writePos == q.writePos && q'.readPos == q.readPos ==> Count(q') == Count(q)
    ensures q'.writePos == After(q.writePos) && q'.readPos == q.readPos && Count(q) < SLOTS - 1 ==>
              Count(q') == Count(q) + 1
    ensures q'.writePos == q.writePos && q'.readPos == After(q.readPos) && Count(q) > 0 ==> Count(q') == Count(q) - 1
    ensures After(q.writePos) == q.readPos <==> Count(q) == SLOTS - 1
    ensures q.readPos == q.writePos <==> Count(q) == 0
  {
  }

  /** The ring after one slot has been filled and published: one more byte waits, at the end. */
  lemma CountUp(q: Queue, q': Queue)
    requires Inv(q) && Count(q) < SLOTS - 1 && WellFormed(q')
    requires q'.writePos == After(q.writePos) && q'.readPos == q.readPos && q'.buffer == q.buffer
    ensures Pending(q') == Pending(q) + [q.buffer[q.writePos]]
  {
    CountMoves(q, q');
    assert Slot(q, Count(q)) == q.writePos;
    forall i: nat ensures Slot(q', i) == Slot(q, i) {
    }
    hide Slot, Count;
  }

  /** The ring after one slot has been given back: the oldest byte no longer waits. */
  lemma CountDown(q: Queue, q': Queue)
    requires Inv(q) && Count(q) > 0 && WellFormed(q')
    requires q'.readPos == After(q.readPos) && q'.writePos == q.writePos && q'.buffer == q.buffer
    ensures Pending(q) == [q.buffer[q.readPos]] + Pending(q')
  {
    CountMoves(q, q');
    assert Slot(q, 0) == q.readPos;
    forall i: nat ensures Slot(q', i) == Slot(q, i + 1) {
    }
    hide Slot, Count;
  }

  /** Filling the free slot at `write_pos` changes no byte that waits. */
  lemma FillFree(q: Queue, q': Queue, b: Byte)
    requires Inv(q) && Count(q) < SLOTS - 1 && WellFormed(q')
    requires q'.writePos == q.writePos && q'.readPos == q.readPos
    requires q'.buffer == q.buffer[q.writePos := b]
    ensures Pending(q') == Pending(q)
    ensures forall i :: 0 <= i < |Pending(q)| ==> Slot(q, i) != q.writePos
  {
    forall i | 0 <= i < Count(q) ensures Slot(q, i) != q.writePos && Slot(q', i) == Slot(q, i) {
    }
    hide Slot, Count;
  }

  /** What `Inv` asks of the waiting bytes survives every access. */
  lemma StepKeepsInv(q: Queue, a: Access)
    requires Inv(q) && Enabled(q, a)
    ensures Inv(Next(q, a).0)
  {
    CountMoves(q, Next(q, a).0);
    hide Count, Slot, After;
  }

  /** Every access, in any interleaving, is a step of the FIFO queue: bytes enter in the order of
      the `write_pos` stores and leave in the order of the `read_pos` stores, none is lost once
      accepted, and `push` and `pop` give up for the right reason. */
  lemma StepRefines(q: Queue, a: Access)
    requires Inv(q) && Enabled(q, a)
    ensures Inv(Next(q, a).0)
    ensures FifoStep(Pending(q), Next(q, a).1, Pending(Next(q, a).0))
  {
    StepKeepsInv(q, a);
    var q' := Next(q, a).0;
    match a {
      case PushWriteSlot => FillFree(q, q', q.push.byte);
      case PushStoreWrite => CountUp(q, q');
      case PopStoreRead => CountDown(q, q');
      case _ =>
        hide Slot;
        assert forall i :: 0 <= i < |Pending(q)| ==> Slot(q', i) == Slot(q, i) by { SameSlots(q, q'); }
        assert Pending(q') == Pending(q);
        CountMoves(q, q);
    }
  }

  lemma SameSlots(q: Queue, q': Queue)
    requires q'.readPos == q.readPos
    ensures forall i: nat :: Slot(q', i) == Slot(q, i)
  {
  }

  /** The two give-up decisions, both directions: full means 255 bytes at the load of `read_pos`,
      empty means none at the load of `write_pos`. */
  lemma GivesUpExactly(q: Queue)
    requires Inv(q)
    ensures q.push.HasWrite? ==> (Next(q, PushLoadRead).1.Dropped? <==> |Pending(q)| == 255)
    ensures q.pop.HasRead? ==> (Next(q, PopLoadWrite).1.WasEmpty? <==> Pending(q) == [])
  {
    CountMoves(q, q);
  }

  /** The slot being written is never one still to be read, nor the one the consumer is reading. */
  lemma WritesAFreeSlot(q: Queue)
    requires Inv(q) && q.push.HasRoom?
    ensures forall i :: 0 <= i < |Pending(q)| ==> Slot(q, i) != q.push.w
    ensures q.pop.HasByte? ==> q.pop.r != q.push.w
  {
    FillFree(q, Next(q, PushWriteSlot).0, q.push.byte);
    if q.pop.HasByte? {
      assert Slot(q, 0) == q.pop.r;
    }
  }

  // ----- whole runs -----

  predicate Runs(q: Queue, run: seq<Access>)
    requires WellFormed(q)
    decreases |run|
  {
    run == [] || (Enabled(q, run[0]) && WellFormed(Next(q, run[0]).0) && Runs(Next(q, run[0]).0, run[1..]))
  }

  /** Where a run ends, and the bytes it accepted and gave out on the way. */
  function Final(q: Queue, run: seq<Access>): (q': Queue)
    requires WellFormed(q) && Runs(q, run)
    decreases |run|
    ensures WellFormed(q')
  {
    if run == [] then q else Final(Next(q, run[0]).0, run[1..])
  }

  function BytesIn(q: Queue, run: seq<Access>): seq<Byte>
    requires WellFormed(q) && Runs(q, run)
    decreases |run|
  {
    if run == [] then [] else
      var (q', o) := Next(q, run[0]);
      (if o.Accepted? then [o.byte] else []) + BytesIn(q', run[1..])
  }

  function BytesOut(q: Queue, run: seq<Access>): seq<Byte>
    requires WellFormed(q) && Runs(q, run)
    decreases |run|
  {
    if run == [] then [] else
      var (q', o) := Next(q, run[0]);
      (if o.Gave? then [o.byte] else []) + BytesOut(q', run[1..])
  }

  /** Conservation over any run: what was waiting, then what was accepted, is what was given out,
      then what still waits. From an empty queue, the bytes given out are therefore always a prefix
      of the bytes accepted, at most 255 behind. */
  lemma {:induction false} Conservation(q: Queue, run: seq<Access>)
    requires Inv(q) && Runs(q, run)
    decreases |run|
    ensures Inv(Final(q, run)) && |Pending(Final(q, run))| <= 255
    ensures Pending(q) + BytesIn(q, run) == BytesOut(q, run) + Pending(Final(q, run))
  {
    if run == [] {
      assert Pending(q) + [] == [] + Pending(q);
    } else {
      var (q', o) := Next(q, run[0]);
      StepRefines(q, run[0]);
      Conservation(q', run[1..]);
      hide Inv, Next, Pending, Count;
      var ins, outs := BytesIn(q', run[1..]), BytesOut(q', run[1..]);
      var rest := Pending(Final(q', run[1..]));
      OneStep(Pending(q), o, Pending(q'), ins, outs, rest);
    }
  }

  lemma OneStep(before: seq<Byte>, o: Outcome, after: seq<Byte>, ins: seq<Byte>, outs: seq<Byte>, rest: seq<Byte>)
    requires FifoStep(before, o, after) && after + ins == outs + rest
    ensures before + ((if o.Accepted? then [o.byte] else []) + ins)
         == ((if o.Gave? then [o.byte] else []) + outs) + rest
  {
    match o {
      case Accepted(b) => assert before + ([b] + ins) == after + ins;
      case Gave(b) => assert before + ([] + ins) == [b] + (after + ins);
        assert ([b] + outs) + rest == [b] + (outs + rest);
      case _ => assert before + ([] + ins) == before + ins; assert ([] + outs) + rest == outs + rest;
    }
  }

  /** The queue as it is made: nothing waits, nobody is pushing or popping. */
  function Fresh(): (q: Queue)
    ensures Inv(q) && Pending(q) == []
  {
    Queue(seq(SLOTS, _ => 0), 0, 0, NoPush, NoPop)
  }

  lemma PoppedIsPrefix(run: seq<Access>)
    requires Runs(Fresh(), run)
    ensures BytesOut(Fresh(), run) <= BytesIn(Fresh(), run)
    ensures |BytesIn(Fresh(), run)| - |BytesOut(Fresh(), run)| <= 255
  {
    Conservation(Fresh(), run);
    assert Pending(Fresh()) + BytesIn(Fresh(), run) == BytesIn(Fresh(), run);
  }

  // ----- the code -----

  /** A `push`, respectively a `pop`, that no access of the other side interrupts. */
  function PushAlone(q: Queue, b: Byte): Queue
    requires WellFormed(q) && q.push.NoPush?
  {
    var q1 := Next(Next(q, PushLoadWrite(b)).0, PushLoadRead).0;
    if q1.push.NoPush? then q1 else Next(Next(q1, PushWriteSlot).0, PushStoreWrite).0
  }

  function PopAlone(q: Queue): (Queue, Option<Byte>)
    requires WellFormed(q) && q.pop.NoPop?
  {
    var q1 := Next(Next(q, PopLoadRead).0, PopLoadWrite).0;
    if q1.pop.NoPop? then (q1, None)
    else
      var q2 := Next(q1, PopReadSlot).0;
      (Next(q2, PopStoreRead).0, Some(q2.pop.byte))
  }

  lemma PushAloneIsFifo(q: Queue, b: Byte)
    requires Inv(q) && q.push.NoPush?
    ensures Inv(PushAlone(q, b)) && PushAlone(q, b).pop == q.pop
    ensures Pending(PushAlone(q, b)) == if |Pending(q)| < 255 then Pending(q) + [b] else Pending(q)
  {
    var q0 := Next(q, PushLoadWrite(b)).0;
    StepRefines(q, PushLoadWrite(b));
    StepRefines(q0, PushLoadRead);
    GivesUpExactly(q0);
    var q1 := Next(q0, PushLoadRead).0;
    if !q1.push.NoPush? {
      StepRefines(q1, PushWriteSlot);
      StepRefines(Next(q1, PushWriteSlot).0, PushStoreWrite);
    }
  }

  lemma PopAloneIsFifo(q: Queue)
    requires Inv(q) && q.pop.NoPop?
    ensures var (q', r) := PopAlone(q);
            Inv(q') && q'.push == q.push
            && Pending(q) == (if r.Some? then [r.value] else []) + Pending(q') && (r.None? <==> Pending(q) == [])
  {
    var q0 := Next(q, PopLoadRead).0;
    StepRefines(q, PopLoadRead);
    StepRefines(q0, PopLoadWrite);
    GivesUpExactly(q0);
    var q1 := Next(q0, PopLoadWrite).0;
    if !q1.pop.NoPop? {
      StepRefines(q1, PopReadSlot);
      StepRefines(Next(q1, PopReadSlot).0, PopStoreRead);
    }
  }

  class ByteQueue {
    const buffer: array<Byte>
    var writePos: nat
    var readPos: nat

    /** The queue with no call in progress. */
    function View(): Queue
      reads this, buffer
    {
      Queue(buffer[..], writePos, readPos, NoPush, NoPop)
    }

    ghost predicate Valid()
      reads this, buffer
    {
      WellFormed(View())
    }

    ghost function Contents(): seq<Byte>
      reads this, buffer
      requires Valid()
    {
      Pending(View())
    }

    constructor ()
      ensures Valid() && Contents() == [] && fresh(buffer)
    {
      buffer := new Byte[SLOTS](_ => 0);
      writePos, readPos := 0, 0;
    }

    method Push(byte: Byte)
      requires Valid()
      modifies this, buffer
      ensures Valid() && View() == PushAlone(old(View()), byte)
      ensures Contents() == if |old(Contents())| < 255 then old(Contents()) + [byte] else old(Contents())
    {
      PushAloneIsFifo(View(), byte);
      var w := writePos;
      var nextW := After(w);
      if nextW != readPos {
        buffer[w] := byte;
        writePos := nextW;
      }
    }

    method Pop() returns (byte: Option<Byte>)
      requires Valid()
      modifies this
      ensures Valid() && (View(), byte) == PopAlone(old(View()))
      ensures old(Contents()) == (if byte.Some? then [byte.value] else []) + Contents()
      ensures byte.None? <==> old(Contents()) == []
    {
      PopAloneIsFifo(View());
      var r := readPos;
      if r == writePos {
        return None;
      }
      byte := Some(buffer[r]);
      readPos := After(r);
    }
  }
}
