/** The compositor's back buffer, its dirty rectangle, and the screen it is copied to. */
module Compositor {
  import opened Arithmetic
  import opened Machine
  import opened FrameBuffer

  /** Columns x0 up to x1, rows y0 up to y1. */
  datatype Box = Box(x0: nat, y0: nat, x1: nat, y1: nat)

  predicate In(b: Box, col: nat, row: nat) {
    b.x0 <= col < b.x1 && b.y0 <= row < b.y1
  }

  predicate Rect(x: nat, y: nat, w: nat, h: nat, col: nat, row: nat) {
    x <= col < x + w && y <= row < y + h
  }

  function Max(a: nat, b: nat): nat { if a >= b then a else b }

  function Grow(b: Box, x: nat, y: nat, w: nat, h: nat, width: nat, height: nat): Box {
    Box(Min(b.x0, x), Min(b.y0, y), Max(b.x1, Min(x + w, width)), Max(b.y1, Min(y + h, height)))
  }

  /** The box after a blit: contains nothing, and stays out of the way of `min` and `max`. */
  function Clean(width: nat, height: nat): Box {
    Box(width, height, 0, 0)
  }

  predicate OnScreen(b: Box, width: nat, height: nat) {
    b.x1 <= width && b.y1 <= height
  }

  /** The box takes in the new rectangle, loses nothing, and stays on the screen. */
  lemma GrowCovers(b: Box, x: nat, y: nat, w: nat, h: nat, width: nat, height: nat, col: nat, row: nat)
    requires OnScreen(b, width, height) && col < width && row < height
    ensures OnScreen(Grow(b, x, y, w, h, width, height), width, height)
    ensures In(b, col, row) || Rect(x, y, w, h, col, row) ==> In(Grow(b, x, y, w, h, width, height), col, row)
  {
  }

  /** And it is the least such box: from a clean one, marking a rectangle that meets the screen
      makes exactly that rectangle dirty, cut to the screen. */
  lemma FirstMarkIsExact(x: nat, y: nat, w: nat, h: nat, width: nat, height: nat, col: nat, row: nat)
    requires x < width && y < height && col < width && row < height
    ensures In(Grow(Clean(width, height), x, y, w, h, width, height), col, row) <==> Rect(x, y, w, h, col, row)
  {
  }

  /** A pixel's place in the back buffer. */
  lemma IndexInside(col: nat, row: nat, width: nat, rows: nat)
    requires col < width && row < rows
    ensures row * width + col < width * rows
  {
    Scale(row + 1, rows, width);
    assert (row + 1) * width == row * width + width;
  }

  function PixelAt(back: seq<U32>, width: nat, height: nat, col: nat, row: nat): U32
    requires |back| == width * height && col < width && row < height
  {
    IndexInside(col, row, width, height);
    back[row * width + col]
  }

  /** Where the box is clean, the screen shows the back buffer. */
  ghost predicate Coherent(fb: seq<Byte>, info: Info, back: seq<U32>, width: nat, height: nat, box: Box)
    requires |back| == width * height
  {
    forall col: nat, row: nat ::
      col < width && row < height && col < info.width && row < info.height && !In(box, col, row) ==>
      Shows(fb, info, col, row, PixelAt(back, width, height, col, row))
  }

  /** Whatever differs between two back buffers lies in a box. */
  ghost predicate ChangedWithin(back: seq<U32>, back': seq<U32>, width: nat, height: nat, box: Box)
    requires |back| == |back'| == width * height
  {
    forall col: nat, row: nat :: col < width && row < height && !In(box, col, row) ==>
      PixelAt(back', width, height, col, row) == PixelAt(back, width, height, col, row)
  }

  lemma GrowKeepsCoherent(fb: seq<Byte>, info: Info, back: seq<U32>, width: nat, height: nat, b: Box, x: nat,
      y: nat, w: nat, h: nat)
    requires |back| == width * height && OnScreen(b, width, height) && Coherent(fb, info, back, width, height, b)
    ensures Coherent(fb, info, back, width, height, Grow(b, x, y, w, h, width, height))
  {
    hide Shows, PixelAt, Grow, In;
    var g := Grow(b, x, y, w, h, width, height);
    forall col: nat, row: nat | col < width && row < height && col < info.width && row < info.height && !In(g, col, row)
      ensures Shows(fb, info, col, row, PixelAt(back, width, height, col, row))
    {
      GrowCovers(b, x, y, w, h, width, height, col, row);
    }
  }

  /** The request that `blit_dirty` sends, and the slice the kernel makes of it. */
  ghost function Request(back: seq<U32>, width: nat, box: Box): FrameBuffer.Blit
    requires box.x0 < box.x1 && box.y0 < box.y1 && width * box.y1 <= |back|
  {
    FrameBuffer.Blit(back[..width * box.y1], width, box.x0, box.y0, box.x1 - box.x0, box.y1 - box.y0)
  }

  /** Every source index of the blit lies inside that slice, and the slice inside the buffer. */
  lemma RequestFits(info: Info, back: seq<U32>, width: nat, height: nat, box: Box)
    requires |back| == width * height && OnScreen(box, width, height) && box.x0 < box.x1 && box.y0 < box.y1
    ensures width * box.y1 <= |back| && SourceFits(info, Request(back, width, box))
  {
    Scale(box.y1, height, width);
    forall col: nat, row: nat | Inside(info, Request(back, width, box), col, row)
      ensures SourceIndex(Request(back, width, box), col, row) < |Request(back, width, box).source|
    {
      IndexInside(col, row, width, box.y1);
    }
  }

  /** After the blit of a coherent screen's dirty box, nothing is stale. */
  lemma BlitCleans(fb: seq<Byte>, info: Info, back: seq<U32>, width: nat, height: nat, box: Box)
    requires |back| == width * height && OnScreen(box, width, height) && box.x0 < box.x1 && box.y0 < box.y1
        && GoodInfo(info)
    requires Coherent(fb, info, back, width, height, box)
    ensures width * box.y1 <= |back| && SourceFits(info, Request(back, width, box))
    ensures Coherent(Blitted(fb, info, Request(back, width, box)), info, back, width, height, Clean(width, height))
  {
    hide Shows, Blitted, SourceFits;
    RequestFits(info, back, width, height, box);
    var b := Request(back, width, box);
    forall col: nat, row: nat | col < width && row < height && col < info.width && row < info.height
      ensures Shows(Blitted(fb, info, b), info, col, row, PixelAt(back, width, height, col, row))
    {
      var p := PixelAt(back, width, height, col, row);
      BlitShows(fb, info, b, col, row, p);
      if In(box, col, row) {
        assert b.source[SourceIndex(b, col, row)] == p;
      }
    }
  }

  // ----- runs -----

  /** Screen bytes, back buffer and dirty box. */
  datatype Display = Display(fb: seq<Byte>, back: seq<U32>, box: Box)

  predicate Sound(d: Display, width: nat, height: nat) {
    |d.back| == width * height && OnScreen(d.box, width, height)
  }

  ghost function Flush(d: Display, info: Info, width: nat, height: nat): (d': Display)
    requires Sound(d, width, height) && GoodInfo(info)
    ensures Sound(d', width, height) && d'.back == d.back
  {
    if d.box.x1 <= d.box.x0 || d.box.y1 <= d.box.y0 then d
    else
      RequestFits(info, d.back, width, height, d.box);
      Display(Blitted(d.fb, info, Request(d.back, width, d.box)), d.back, Clean(width, height))
  }

  /** What the GUI server does with its compositor - mark a rectangle, redraw the back buffer, blit -
      and what the text console and the demo may do to the screen behind its back. */
  datatype Action = Mark(x: nat, y: nat, w: nat, h: nat) | Paint(back: seq<U32>) | Blit | Foreign(fb: seq<Byte>)

  /** Drawing changes only what has been marked dirty. */
  ghost predicate Allowed(d: Display, a: Action, width: nat, height: nat)
    requires Sound(d, width, height)
  {
    && (a.Paint? ==> |a.back| == width * height && ChangedWithin(d.back, a.back, width, height, d.box))
    && (a.Foreign? ==> |a.fb| == |d.fb|)
  }

  ghost function Act(d: Display, a: Action, info: Info, width: nat, height: nat): (d': Display)
    requires Sound(d, width, height) && GoodInfo(info) && Allowed(d, a, width, height)
    ensures Sound(d', width, height)
  {
    match a
    case Mark(x, y, w, h) => d.(box := Grow(d.box, x, y, w, h, width, height))
    case Paint(back) => d.(back := back)
    case Blit => Flush(d, info, width, height)
    case Foreign(fb) => d.(fb := fb)
  }

  ghost predicate AllAllowed(d: Display, run: seq<Action>, info: Info, width: nat, height: nat)
    requires Sound(d, width, height) && GoodInfo(info)
    decreases |run|
  {
    run == [] || (Allowed(d, run[0], width, height)
        && AllAllowed(Act(d, run[0], info, width, height), run[1..], info, width, height))
  }

  ghost function Final(d: Display, run: seq<Action>, info: Info, width: nat, height: nat): (d': Display)
    requires Sound(d, width, height) && GoodInfo(info) && AllAllowed(d, run, info, width, height)
    ensures Sound(d', width, height)
    decreases |run|
  {
    if run == [] then d else Final(Act(d, run[0], info, width, height), run[1..], info, width, height)
  }

  lemma FlushCleans(d: Display, info: Info, width: nat, height: nat)
    requires Sound(d, width, height) && GoodInfo(info) && Coherent(d.fb, info, d.back, width, height, d.box)
    ensures var d' := Flush(d, info, width, height);
            Coherent(d'.fb, info, d'.back, width, height, Clean(width, height))
            && Coherent(d'.fb, info, d'.back, width, height, d'.box)
  {
    hide Shows, Blitted, SourceFits, PixelAt;
    if d.box.x0 < d.box.x1 && d.box.y0 < d.box.y1 {
      BlitCleans(d.fb, info, d.back, width, height, d.box);
    }
  }

  /** A flush changes no pixel outside the dirty box. */
  lemma FlushOutside(d: Display, info: Info, width: nat, height: nat, col: nat, row: nat, p: U32)
    requires Sound(d, width, height) && GoodInfo(info) && col < info.width && row < info.height
    requires Shows(d.fb, info, col, row, p)
    requires !(d.box.x0 <= col < d.box.x1 && d.box.y0 <= row < d.box.y1)
    ensures Shows(Flush(d, info, width, height).fb, info, col, row, p)
  {
    hide Shows, Blitted, SourceFits;
    if d.box.x0 < d.box.x1 && d.box.y0 < d.box.y1 {
      RequestFits(info, d.back, width, height, d.box);
      BlitShows(d.fb, info, Request(d.back, width, d.box), col, row, p);
    }
  }

  lemma ActKeepsCoherent(d: Display, a: Action, info: Info, width: nat, height: nat)
    requires Sound(d, width, height) && GoodInfo(info) && Allowed(d, a, width, height)
    requires Coherent(d.fb, info, d.back, width, height, d.box) && !a.Foreign?
    ensures var d' := Act(d, a, info, width, height); Coherent(d'.fb, info, d'.back, width, height, d'.box)
  {
    hide Shows, PixelAt, Flush, Grow, In;
    match a {
      case Mark(x, y, w, h) => GrowKeepsCoherent(d.fb, info, d.back, width, height, d.box, x, y, w, h);
      case Paint(_) =>
      case Blit => FlushCleans(d, info, width, height);
    }
  }

  predicate Undisturbed(run: seq<Action>) {
    forall i :: 0 <= i < |run| ==> !run[i].Foreign?
  }

  /** Screen coherence over any run that marks before it draws: at every point the screen shows the
      back buffer wherever the box is clean, and right after a blit it shows it everywhere. */
  lemma {:induction false} RunCoherent(d: Display, run: seq<Action>, info: Info, width: nat, height: nat)
    requires Sound(d, width, height) && GoodInfo(info) && AllAllowed(d, run, info, width, height)
    requires Coherent(d.fb, info, d.back, width, height, d.box) && Undisturbed(run)
    ensures var e := Final(d, run, info, width, height);
            Coherent(e.fb, info, e.back, width, height, e.box)
            && (run != [] && run[|run| - 1].Blit? ==> Coherent(e.fb, info, e.back, width, height, Clean(width, height)))
    decreases |run|
  {
    hide Coherent, Flush, Allowed;
    if run != [] {
      var d1 := Act(d, run[0], info, width, height);
      ActKeepsCoherent(d, run[0], info, width, height);
      RunCoherent(d1, run[1..], info, width, height);
      if |run| == 1 && run[0].Blit? {
        FlushCleans(d, info, width, height);
      }
    }
  }

  /** A box over the whole screen makes no promise about any pixel. */
  lemma FullBoxCoherent(fb: seq<Byte>, info: Info, back: seq<U32>, width: nat, height: nat, box: Box)
    requires |back| == width * height && box.x0 == 0 && box.y0 == 0 && box.x1 == width && box.y1 == height
    ensures Coherent(fb, info, back, width, height, box)
  {
  }

  /** A new compositor in front of a screen that shows anything. */
  function Started(fb: seq<Byte>, width: nat, height: nat): (d: Display)
    ensures Sound(d, width, height)
  {
    Display(fb, seq(width * height, _ => 0), Box(0, 0, width, height))
  }

  /** Coherence from the start: no assumption about what the screen showed before. */
  lemma CoherentFromStart(fb: seq<Byte>, run: seq<Action>, info: Info, width: nat, height: nat)
    requires GoodInfo(info) && AllAllowed(Started(fb, width, height), run, info, width, height) && Undisturbed(run)
    ensures var e := Final(Started(fb, width, height), run, info, width, height);
            Coherent(e.fb, info, e.back, width, height, e.box)
            && (run != [] && run[|run| - 1].Blit? ==> Coherent(e.fb, info, e.back, width, height, Clean(width, height)))
  {
    var d := Started(fb, width, height);
    FullBoxCoherent(d.fb, info, d.back, width, height, d.box);
    RunCoherent(d, run, info, width, height);
  }

  lemma {:induction false} FinalSplits(d: Display, a: seq<Action>, b: seq<Action>, info: Info, width: nat, height: nat)
    requires Sound(d, width, height) && GoodInfo(info) && AllAllowed(d, a + b, info, width, height)
    ensures AllAllowed(d, a, info, width, height)
    ensures var e := Final(d, a, info, width, height);
            AllAllowed(e, b, info, width, height)
            && Final(e, b, info, width, height) == Final(d, a + b, info, width, height)
    decreases |a|
  {
    hide Allowed, Act;
    if a == [] {
      assert a + b == b;
    } else {
      assert (a + b)[0] == a[0] && (a + b)[1..] == a[1..] + b;
      FinalSplits(Act(d, a[0], info, width, height), a[1..], b, info, width, height);
    }
  }

  /** Coherence restored: whatever the compositor did before and whatever others have put on the
      screen, from the moment the whole screen is marked, as the server does in every round, the
      screen is coherent again outside the box, and right after the next blit everywhere. */
  lemma CoherentAgain(d: Display, before: seq<Action>, since: seq<Action>, info: Info, width: nat, height: nat)
    requires Sound(d, width, height) && GoodInfo(info)
    requires var run := before + [Mark(0, 0, width, height)] + since; AllAllowed(d, run, info, width, height)
    requires Undisturbed(since)
    ensures var run := before + [Mark(0, 0, width, height)] + since;
            var e := Final(d, run, info, width, height);
            Coherent(e.fb, info, e.back, width, height, e.box)
            && (since != [] && since[|since| - 1].Blit? ==>
                  Coherent(e.fb, info, e.back, width, height, Clean(width, height)))
  {
    hide Coherent, Flush, Allowed;
    var mark := Mark(0, 0, width, height);
    FinalSplits(d, before + [mark], since, info, width, height);
    FinalSplits(d, before, [mark], info, width, height);
    var e := Final(d, before, info, width, height);
    var m := Final(d, before + [mark], info, width, height);
    assert m == Act(e, mark, info, width, height) by {
      assert [mark][1..] == [];
    }
    FullBoxCoherent(m.fb, info, m.back, width, height, m.box);
    RunCoherent(m, since, info, width, height);
  }

  // ----- the code -----

  class Compositor {
    const width: nat
    const height: nat
    const buffer: array<U32>
    var dirtyX0: nat
    var dirtyY0: nat
    var dirtyX1: nat
    var dirtyY1: nat

    function Dirty(): Box
      reads this
    {
      Box(dirtyX0, dirtyY0, dirtyX1, dirtyY1)
    }

    ghost predicate Valid()
      reads this
    {
      buffer.Length == width * height && OnScreen(Dirty(), width, height)
    }

    /** This compositor with the screen it draws to. */
    function View(screen: FrameBufferWriter): Display
      reads this, buffer, screen.buffer
    {
      Display(screen.buffer[..], buffer[..], Dirty())
    }

    constructor (width: nat, height: nat)
      ensures Valid() && fresh(buffer) && this.width == width && this.height == height
      ensures Dirty() == Started([], width, height).box && buffer[..] == Started([], width, height).back
    {
      this.width, this.height := width, height;
      buffer := new U32[width * height](_ => 0);
      dirtyX0, dirtyY0, dirtyX1, dirtyY1 := 0, 0, width, height;
    }

    method MarkDirty(x: nat, y: nat, w: nat, h: nat)
      requires Valid()
      modifies this
      ensures Valid() && Dirty() == Grow(old(Dirty()), x, y, w, h, width, height)
    {
      var x1 := Min(x + w, width);
      var y1 := Min(y + h, height);
      dirtyX0 := Min(dirtyX0, x);
      dirtyY0 := Min(dirtyY0, y);
      dirtyX1 := Max(dirtyX1, x1);
      dirtyY1 := Max(dirtyY1, y1);
    }

    /** Copies the dirty box to the screen by way of the kernel, and cleans it. */
    method BlitDirty(screen: FrameBufferWriter)
      requires Valid() && GoodInfo(screen.info) && (screen.buffer as object) != buffer
      modifies this, screen.buffer
      ensures Valid() && View(screen) == Flush(old(View(screen)), screen.info, width, height)
    {
      hide Shows, Blitted, SourceFits;
      if dirtyX1 <= dirtyX0 || dirtyY1 <= dirtyY0 {
        return;
      }
      RequestFits(screen.info, buffer[..], width, height, Dirty());
      assert buffer[..][..width * dirtyY1] == buffer[..width * dirtyY1];
      // Syscall 12: the kernel rebuilds the slice from pointer, stride, y and h.
      screen.BlitRect(FrameBuffer.Blit(buffer[..width * (dirtyY0 + (dirtyY1 - dirtyY0))], width,
                                       dirtyX0, dirtyY0, dirtyX1 - dirtyX0, dirtyY1 - dirtyY0));
      dirtyX0 := width;
      dirtyY0 := height;
      dirtyX1 := 0;
      dirtyY1 := 0;
    }
  }
}
