/** The PS/2 mouse stream: the decoder in the input server, the message words that carry its
    results, and the cursor in the GUI server. */
module Mouse {
  import opened Machine
  import opened Bits
  import opened ByteQueue

  const WORD32 := 0x1_0000_0000
  const WORD := 0x1_0000_0000_0000_0000

  /** Bit `k` of a byte, `k` given by its mask. */
  predicate Bit(b: Byte, mask: nat)
    requires mask > 0
  {
    (b / mask) % 2 == 1
  }

  /** `mouse_cycle` and `mouse_packet`. */
  datatype Decoder = Decoder(cycle: nat, packet: seq<Byte>)

  predicate Ready(d: Decoder) {
    d.cycle < 3 && |d.packet| == 3
  }

  /** The four arguments of a MSG_MOUSE_EVENT, as 64-bit words. */
  datatype MouseEvent = MouseEvent(arg1: nat, arg2: nat, arg3: nat, arg4: nat)

  /** `!0xFF` in 32 bits. */
  const HIGH_BITS: nat := WORD32 - 1 - 0xFF

  /** The number a 32-bit word stands for as an i32. */
  function ToInt32(w: nat): int {
    if w < WORD32 / 2 then w else w - WORD32
  }

  /** `x as i32`, then `|= !0xFF` when the sign flag is set. */
  function SignExtend(b: Byte, negative: bool): int {
    ToInt32(if negative then Or(b, HIGH_BITS) else b)
  }

  /** Setting every bit above a byte makes it the negative number 256 below. */
  lemma SignExtendIs(b: Byte, negative: bool)
    ensures SignExtend(b, negative) == if negative then b - 256 else b
  {
    hide Pow2, And, Or;
    Pow2Zero();
    Pow2Eight(0);
    Pow2Eight(8);
    Pow2Eight(16);
    Pow2Eight(24);
    var q := AndHigh(b, 8, 32);
    assert q == 0 by {
      if q > 0 { MulBound(q, 256); }
    }
    OrAnd(b, HIGH_BITS);
  }

  /** `as u64` of a signed 32-bit number, and `as i64` of a 64-bit word. */
  function ToWord(x: int): (w: nat)
    ensures w < WORD
  {
    x % WORD
  }

  function ToSigned(w: nat): int {
    if w < WORD / 2 then w else w - WORD
  }

  function EventOf(packet: seq<Byte>): MouseEvent
    requires |packet| == 3
  {
    var flags := packet[0];
    MouseEvent(
      ToWord(SignExtend(packet[1], Bit(flags, 0x10))),
      ToWord(SignExtend(packet[2], Bit(flags, 0x20))),
      if Bit(flags, 0x01) then 1 else 0,
      if Bit(flags, 0x02) then 1 else 0)
  }

  /** One byte from the queue. */
  function Feed(d: Decoder, b: Byte): (r: (Decoder, seq<MouseEvent>))
    requires Ready(d)
    ensures Ready(r.0)
  {
    if d.cycle == 0 && !Bit(b, 0x08) then (d, [])
    else
      var packet := d.packet[d.cycle := b];
      if d.cycle + 1 == 3 then (Decoder(0, packet), [EventOf(packet)]) else (Decoder(d.cycle + 1, packet), [])
  }

  /** One drain of the queue. */
  function Drain(d: Decoder, bytes: seq<Byte>): (r: (Decoder, seq<MouseEvent>))
    requires Ready(d)
    ensures Ready(r.0)
    decreases |bytes|
  {
    if bytes == [] then (d, [])
    else
      var (d1, first) := Feed(d, bytes[0]);
      var (d2, rest) := Drain(d1, bytes[1..]);
      (d2, first + rest)
  }

  /** The drains of successive rounds of the server loop. */
  function Drains(d: Decoder, chunks: seq<seq<Byte>>): (r: (Decoder, seq<MouseEvent>))
    requires Ready(d)
    ensures Ready(r.0)
    decreases |chunks|
  {
    if chunks == [] then (d, [])
    else
      var (d1, first) := Drain(d, chunks[0]);
      var (d2, rest) := Drains(d1, chunks[1..]);
      (d2, first + rest)
  }

  function Flatten(chunks: seq<seq<Byte>>): seq<Byte> {
    if chunks == [] then [] else chunks[0] + Flatten(chunks[1..])
  }

  lemma DrainNothing(d: Decoder)
    requires Ready(d)
    ensures Drain(d, []) == (d, [])
  {
  }

  lemma DrainOne(d: Decoder, b: Byte)
    requires Ready(d)
    ensures Drain(d, [b]) == Feed(d, b)
  {
    var es := Feed(d, b).1;
    assert Drain(Feed(d, b).0, [b][1..]) == (Feed(d, b).0, []);
    assert es + [] == es;
  }

  /** Where a drain is cut does not matter. */
  lemma {:induction false} DrainSplits(d: Decoder, a: seq<Byte>, b: seq<Byte>)
    requires Ready(d)
    ensures var (d1, ea) := Drain(d, a);
            var (d2, eb) := Drain(d1, b);
            Drain(d, a + b) == (d2, ea + eb)
    decreases |a|
  {
    hide Feed;
    var eb := Drain(Drain(d, a).0, b).1;
    if a == [] {
      assert a + b == b && [] + eb == eb;
    } else {
      var (d1, first) := Feed(d, a[0]);
      DrainSplits(d1, a[1..], b);
      assert (a + b)[0] == a[0] && (a + b)[1..] == a[1..] + b;
      var ea := Drain(d1, a[1..]).1;
      assert first + (ea + eb) == (first + ea) + eb;
    }
  }

  lemma {:induction false} DrainsAreOneDrain(d: Decoder, chunks: seq<seq<Byte>>)
    requires Ready(d)
    ensures Drains(d, chunks) == Drain(d, Flatten(chunks))
    decreases |chunks|
  {
    if chunks != [] {
      DrainsAreOneDrain(Drain(d, chunks[0]).0, chunks[1..]);
      DrainSplits(d, chunks[0], Flatten(chunks[1..]));
    }
  }

  // ----- what the mouse sends -----

  /** A movement in 9-bit two's complement with two buttons, and the flags the decoder ignores. */
  datatype Motion = Motion(dx: int, dy: int, left: bool, right: bool, middle: bool, overflowX: bool, overflowY: bool)

  predicate NineBit(m: Motion) {
    -256 <= m.dx < 256 && -256 <= m.dy < 256
  }

  function One(b: bool): nat {
    if b then 1 else 0
  }

  /** The three bytes of a PS/2 mouse packet. */
  function Encode(m: Motion): (p: seq<Byte>)
    requires NineBit(m)
    ensures |p| == 3
  {
    [One(m.left) + 0x02 * One(m.right) + 0x04 * One(m.middle) + 0x08
     + 0x10 * One(m.dx < 0) + 0x20 * One(m.dy < 0) + 0x40 * One(m.overflowX) + 0x80 * One(m.overflowY),
     m.dx % 256,
     m.dy % 256]
  }

  function EncodeAll(ms: seq<Motion>): seq<Byte>
    requires forall i :: 0 <= i < |ms| ==> NineBit(ms[i])
  {
    if ms == [] then [] else Encode(ms[0]) + EncodeAll(ms[1..])
  }

  /** The words of a message for a movement, and what the GUI server reads out of them. */
  predicate Carries(e: MouseEvent, m: Motion) {
    && ToSigned(e.arg1) == m.dx && ToSigned(e.arg2) == m.dy
    && e.arg1 == (if m.dx < 0 then 0x1_0000_0000_0000_0000 + m.dx else m.dx)
    && e.arg2 == (if m.dy < 0 then 0x1_0000_0000_0000_0000 + m.dy else m.dy)
    && e.arg3 == (if m.left then 1 else 0) && e.arg4 == if m.right then 1 else 0
  }

  lemma EncodedFlags(m: Motion)
    requires NineBit(m)
    ensures var f := Encode(m)[0];
            Bit(f, 0x08) && (Bit(f, 0x01) <==> m.left) && (Bit(f, 0x02) <==> m.right)
            && (Bit(f, 0x10) <==> m.dx < 0) && (Bit(f, 0x20) <==> m.dy < 0)
  {
    var f := Encode(m)[0];
    var high := One(m.dy < 0) + 2 * One(m.overflowX) + 4 * One(m.overflowY);
    assert f / 0x20 == high;
    assert f / 0x10 == 2 * high + One(m.dx < 0);
    assert f / 0x08 == 4 * high + 2 * One(m.dx < 0) + 1;
    assert f / 0x02 == 2 * (2 * (f / 0x08) + One(m.middle)) + One(m.right);
  }

  /** The widening casts and the sign flags together give back the 9-bit number. */
  lemma DecodesOne(m: Motion)
    requires NineBit(m)
    ensures Carries(EventOf(Encode(m)), m)
  {
    hide SignExtend;
    EncodedFlags(m);
    SignExtendIs(m.dx % 256, m.dx < 0);
    SignExtendIs(m.dy % 256, m.dy < 0);
  }

  /** A whole packet met at a packet boundary gives one event and ends at a boundary. */
  lemma PacketGivesOneEvent(d: Decoder, p: seq<Byte>)
    requires Ready(d) && d.cycle == 0 && |p| == 3 && Bit(p[0], 0x08)
    ensures Drain(d, p) == (Decoder(0, p), [EventOf(p)])
  {
    var d1 := Feed(d, p[0]).0;
    var d2 := Feed(d1, p[1]).0;
    var q, r := p[1..], p[1..][1..];
    assert q[0] == p[1] && r[0] == p[2] && r[1..] == [];
    assert d2.packet[2 := p[2]] == p;
    var es := [EventOf(p)];
    assert Feed(d2, p[2]) == (Decoder(0, p), es);
    assert d2 == Decoder(2, d2.packet) && d1 == Decoder(1, d1.packet);
    hide Feed, EventOf, Bit;
    assert es + [] == es && [] + es == es;
    assert Drain(d2, r) == (Decoder(0, p), es);
    assert Drain(d1, q) == (Decoder(0, p), es);
  }

  /** Bytes that cannot start a packet are skipped at a boundary. */
  lemma {:induction false} JunkIsSkipped(d: Decoder, junk: seq<Byte>)
    requires Ready(d) && d.cycle == 0 && forall i :: 0 <= i < |junk| ==> !Bit(junk[i], 0x08)
    ensures Drain(d, junk) == (d, [])
    decreases |junk|
  {
    if junk != [] {
      JunkIsSkipped(d, junk[1..]);
      var none: seq<MouseEvent> := [];
      assert none + none == none;
    }
  }

  lemma {:induction false} DecodesAll(d: Decoder, ms: seq<Motion>)
    requires Ready(d) && d.cycle == 0 && forall i :: 0 <= i < |ms| ==> NineBit(ms[i])
    ensures var (d', es) := Drain(d, EncodeAll(ms));
            d'.cycle == 0 && |es| == |ms| && forall i :: 0 <= i < |ms| ==> Carries(es[i], ms[i])
    decreases |ms|
  {
    if ms != [] {
      var p := Encode(ms[0]);
      EncodedFlags(ms[0]);
      PacketGivesOneEvent(d, p);
      DecodesOne(ms[0]);
      DrainSplits(d, p, EncodeAll(ms[1..]));
      DecodesAll(Decoder(0, p), ms[1..]);
    }
  }

  /** Decoding undoes encoding, whatever bytes with bit 3 clear come first and wherever the stream
      is cut into drains: one event for each packet, in order, carrying its movement and buttons. */
  lemma DecodeUndoesEncode(d: Decoder, junk: seq<Byte>, ms: seq<Motion>, chunks: seq<seq<Byte>>)
    requires Ready(d) && d.cycle == 0
    requires forall i :: 0 <= i < |junk| ==> !Bit(junk[i], 0x08)
    requires forall i :: 0 <= i < |ms| ==> NineBit(ms[i])
    requires Flatten(chunks) == junk + EncodeAll(ms)
    ensures var (d', es) := Drains(d, chunks);
            d'.cycle == 0 && |es| == |ms| && forall i :: 0 <= i < |ms| ==> Carries(es[i], ms[i])
  {
    hide Drain, Drains, Carries, Bit, EncodeAll;
    DrainsAreOneDrain(d, chunks);
    DrainSplits(d, junk, EncodeAll(ms));
    JunkIsSkipped(d, junk);
    DecodesAll(d, ms);
    var none: seq<MouseEvent> := [];
    assert none + Drain(d, EncodeAll(ms)).1 == Drain(d, EncodeAll(ms)).1;
  }

  lemma {:induction false} FewBytes(d: Decoder, q: seq<Byte>)
    requires Ready(d) && d.cycle + |q| < 3
    ensures Drain(d, q).1 == []
    decreases |q|
  {
    if q != [] {
      FewBytes(Feed(d, q[0]).0, q[1..]);
    }
  }

  lemma {:induction false} EncodedLength(ms: seq<Motion>)
    requires forall i :: 0 <= i < |ms| ==> NineBit(ms[i])
    ensures |EncodeAll(ms)| == 3 * |ms|
    decreases |ms|
  {
    if ms != [] {
      EncodedLength(ms[1..]);
    }
  }

  /** Cut off anywhere, also inside a packet, the stream gives the events of its whole packets. */
  lemma {:induction false} DecodesPrefix(d: Decoder, ms: seq<Motion>, q: seq<Byte>)
    requires Ready(d) && d.cycle == 0 && forall i :: 0 <= i < |ms| ==> NineBit(ms[i])
    requires q <= EncodeAll(ms)
    ensures var es := Drain(d, q).1;
            |es| == |q| / 3 <= |ms| && forall i :: 0 <= i < |es| ==> Carries(es[i], ms[i])
    decreases |ms|
  {
    hide Feed, EventOf, Carries, Encode, Bit;
    EncodedLength(ms);
    if |q| < 3 {
      FewBytes(d, q);
    } else {
      var p, rest := Encode(ms[0]), q[3..];
      assert q == p + rest && rest <= EncodeAll(ms[1..]);
      EncodedFlags(ms[0]);
      PacketGivesOneEvent(d, p);
      DecodesOne(ms[0]);
      DrainSplits(d, p, rest);
      DecodesPrefix(Decoder(0, p), ms[1..], rest);
      ConsCarries([EventOf(p)], Drain(Decoder(0, p), rest).1, ms);
    }
  }

  lemma ConsCarries(first: seq<MouseEvent>, es: seq<MouseEvent>, ms: seq<Motion>)
    requires |first| == 1 && ms != [] && |es| <= |ms| - 1 && Carries(first[0], ms[0])
    requires forall i :: 0 <= i < |es| ==> Carries(es[i], ms[1..][i])
    ensures forall i :: 0 <= i < |first + es| ==> Carries((first + es)[i], ms[i])
  {
    hide Carries;
    forall i | 0 <= i < |first + es| ensures Carries((first + es)[i], ms[i]) {
      if i > 0 {
        assert Carries(es[i - 1], ms[1..][i - 1]);
      }
    }
  }

  /** How many packets are complete in the first `n` bytes after `junk` bytes that start none. */
  function WholePackets(n: nat, junk: nat): nat {
    if n <= junk then 0 else (n - junk) / 3
  }

  lemma DecodesJunkPrefix(d: Decoder, junk: seq<Byte>, ms: seq<Motion>, p: seq<Byte>)
    requires Ready(d) && d.cycle == 0 && forall i :: 0 <= i < |ms| ==> NineBit(ms[i])
    requires forall i :: 0 <= i < |junk| ==> !Bit(junk[i], 0x08)
    requires p <= junk + EncodeAll(ms)
    ensures var es := Drain(d, p).1;
            |es| == WholePackets(|p|, |junk|) <= |ms| && forall i :: 0 <= i < |es| ==> Carries(es[i], ms[i])
  {
    hide Feed, Carries, Drain, Bit;
    if |p| <= |junk| {
      assert p == junk[..|p|];
      JunkIsSkipped(d, p);
    } else {
      var q := p[|junk|..];
      assert p == junk + q && q <= EncodeAll(ms);
      JunkIsSkipped(d, junk);
      DrainSplits(d, junk, q);
      DecodesPrefix(d, ms, q);
      var none: seq<MouseEvent> := [];
      assert none + Drain(d, q).1 == Drain(d, q).1;
    }
  }

  /** Through the byte queue: at any instant of any interleaving of the interrupt handler and the
      input server, while the bytes accepted are the start of a mouse stream, also one cut inside a
      packet, the events decoded from the bytes popped so far are those of exactly the packets popped
      whole, in order; when the whole stream is in and the queue is empty, those of all packets. */
  lemma EventsThroughQueue(run: seq<Access>, d: Decoder, junk: seq<Byte>, ms: seq<Motion>)
    requires Runs(Fresh(), run) && Ready(d) && d.cycle == 0
    requires forall i :: 0 <= i < |junk| ==> !Bit(junk[i], 0x08)
    requires forall i :: 0 <= i < |ms| ==> NineBit(ms[i])
    requires BytesIn(Fresh(), run) <= junk + EncodeAll(ms)
    ensures var outs := BytesOut(Fresh(), run);
            var es := Drain(d, outs).1;
            |es| == WholePackets(|outs|, |junk|) <= |ms| && forall i :: 0 <= i < |es| ==> Carries(es[i], ms[i])
    ensures BytesIn(Fresh(), run) == junk + EncodeAll(ms) && Pending(Final(Fresh(), run)) == [] ==>
              |Drain(d, BytesOut(Fresh(), run)).1| == |ms|
  {
    hide Drain, Carries, BytesIn, BytesOut, Final, Pending, Bit;
    PoppedIsPrefix(run);
    Conservation(Fresh(), run);
    var ins, outs := BytesIn(Fresh(), run), BytesOut(Fresh(), run);
    assert Pending(Fresh()) + ins == ins;
    DecodesJunkPrefix(d, junk, ms, outs);
    EncodedLength(ms);
  }

  // ----- the code -----

  class MouseDecoder {
    var mouseCycle: nat
    const mousePacket: array<Byte>

    function View(): Decoder
      reads this, mousePacket
    {
      Decoder(mouseCycle, mousePacket[..])
    }

    constructor ()
      ensures View() == Decoder(0, [0, 0, 0]) && fresh(mousePacket)
    {
      mouseCycle := 0;
      mousePacket := new Byte[3](_ => 0);
    }

    /** The loop body: one byte into the packet, and the message to send when it is the third. */
    method FeedByte(byte: Byte) returns (sent: seq<MouseEvent>)
      requires Ready(View())
      modifies this, mousePacket
      ensures Ready(View()) && (View(), sent) == Feed(old(View()), byte)
    {
      if mouseCycle == 0 && !Bit(byte, 0x08) {
        return [];
      }
      mousePacket[mouseCycle] := byte;
      mouseCycle := mouseCycle + 1;
      if mouseCycle == 3 {
        mouseCycle := 0;
        var flags := mousePacket[0];
        var dx: nat, dy: nat := mousePacket[1], mousePacket[2];
        if Bit(flags, 0x10) { dx := Or(dx, HIGH_BITS); }
        if Bit(flags, 0x20) { dy := Or(dy, HIGH_BITS); }
        var left, right := if Bit(flags, 0x01) then 1 else 0, if Bit(flags, 0x02) then 1 else 0;
        sent := [MouseEvent(ToWord(ToInt32(dx)), ToWord(ToInt32(dy)), left, right)];
      } else {
        sent := [];
      }
    }

    /** Pops until the queue is empty; the events are the messages sent to the GUI server. */
    method DrainQueue(queue: ByteQueue) returns (sent: seq<MouseEvent>)
      requires Ready(View()) && queue.Valid() && mousePacket != queue.buffer
      modifies this, mousePacket, queue
      ensures queue.Valid() && queue.Contents() == []
      ensures (View(), sent) == Drain(old(View()), old(queue.Contents()))
    {
      hide Feed, PopAlone, Pending, Next, Drain;
      DrainNothing(View());
      sent := [];
      ghost var all := queue.Contents();
      ghost var done: seq<Byte> := [];
      while true
        invariant Ready(View()) && queue.Valid() && all == done + queue.Contents()
        invariant (View(), sent) == Drain(old(View()), done)
        decreases |queue.Contents()|
      {
        ghost var waiting := queue.Contents();
        var byte := queue.Pop();
        if byte.None? {
          assert waiting == [] && done + waiting == done;
          break;
        }
        assert done + waiting == (done + [byte.value]) + queue.Contents();
        ghost var left := queue.Contents();
        var more := FeedByte(byte.value);
        DrainSplits(old(View()), done, [byte.value]);
        DrainOne(Drain(old(View()), done).0, byte.value);
        assert queue.Contents() == left;
        done := done + [byte.value];
        sent := sent + more;
      }
    }
  }

  // ----- the cursor -----

  datatype Cursor = Cursor(x: nat, y: nat)

  predicate OnScreen(c: Cursor, width: nat, height: nat) {
    c.x < width && c.y < height
  }

  function Clamp(v: int, max: nat): (r: nat)
    ensures r <= max
  {
    if v < 0 then 0 else if v > max then max else v
  }

  function Move(c: Cursor, e: MouseEvent, width: nat, height: nat): Cursor
    requires width > 0 && height > 0
  {
    Cursor(Clamp(c.x + ToSigned(e.arg1), width - 1), Clamp(c.y - ToSigned(e.arg2), height - 1))
  }

  function Moves(c: Cursor, es: seq<MouseEvent>, width: nat, height: nat): Cursor
    requires width > 0 && height > 0
    decreases |es|
  {
    if es == [] then c else Moves(Move(c, es[0], width, height), es[1..], width, height)
  }

  /** The cursor as the mouse moved it, with the screen's edges as walls: to the right by dx and up
      by dy, each movement stopping at the edge it meets. */
  predicate Follows(c: Cursor, m: Motion, c': Cursor, width: nat, height: nat) {
    OnScreen(c', width, height)
    && (if c.x + m.dx < 0 then c'.x == 0 else if c.x + m.dx >= width then c'.x + 1 == width else c'.x == c.x + m.dx)
    && (if c.y - m.dy < 0 then c'.y == 0 else if c.y - m.dy >= height then c'.y + 1 == height else c'.y == c.y - m.dy)
  }

  ghost predicate FollowsAll(c: Cursor, ms: seq<Motion>, c': Cursor, width: nat, height: nat)
    decreases |ms|
  {
    if ms == [] then c' == c
    else exists c1 :: Follows(c, ms[0], c1, width, height) && FollowsAll(c1, ms[1..], c', width, height)
  }

  /** From the bytes on the wire to the pixel: after any packets, cut into drains anywhere, the
      cursor is on the screen and where the movements put it. */
  lemma CursorFollowsMouse(d: Decoder, ms: seq<Motion>, chunks: seq<seq<Byte>>, c: Cursor, width: nat, height: nat)
    requires Ready(d) && d.cycle == 0 && OnScreen(c, width, height)
    requires forall i :: 0 <= i < |ms| ==> NineBit(ms[i])
    requires Flatten(chunks) == EncodeAll(ms)
    ensures var c' := Moves(c, Drains(d, chunks).1, width, height);
            OnScreen(c', width, height) && FollowsAll(c, ms, c', width, height)
  {
    assert EncodeAll(ms) == [] + EncodeAll(ms);
    DecodeUndoesEncode(d, [], ms, chunks);
    MovesFollow(c, Drains(d, chunks).1, ms, width, height);
  }

  lemma {:induction false} MovesFollow(c: Cursor, es: seq<MouseEvent>, ms: seq<Motion>, width: nat, height: nat)
    requires OnScreen(c, width, height) && |es| == |ms| && forall i :: 0 <= i < |ms| ==> Carries(es[i], ms[i])
    ensures var c' := Moves(c, es, width, height);
            OnScreen(c', width, height) && FollowsAll(c, ms, c', width, height)
    decreases |ms|
  {
    if ms != [] {
      var c1 := Move(c, es[0], width, height);
      assert Follows(c, ms[0], c1, width, height);
      MovesFollow(c1, es[1..], ms[1..], width, height);
    }
  }
}
