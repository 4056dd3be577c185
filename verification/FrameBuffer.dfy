/** The physical framebuffer: pixels as bytes in a strided array, and the blit that copies a
    rectangle of 32-bit pixels into it. */
module FrameBuffer {
  import opened Arithmetic
  import opened Machine

  datatype PixelFormat = Rgb | Bgr | U8 | Other

  datatype Info = Info(width: nat, height: nat, stride: nat, bytesPerPixel: nat, format: PixelFormat)

  /** Bytes of a pixel that a blit writes. */
  function Channels(f: PixelFormat): nat {
    match f
    case Rgb => 3
    case Bgr => 3
    case U8 => 1
    case Other => 0
  }

  /** What the boot loader promises of the mode it set. */
  predicate GoodInfo(info: Info) {
    info.width <= info.stride && Channels(info.format) <= info.bytesPerPixel && info.stride > 0
        && info.bytesPerPixel > 0
  }

  function Red(p: U32): Byte { p / 0x1_0000 % 256 }

  function Green(p: U32): Byte { p / 0x100 % 256 }

  function Blue(p: U32): Byte { p % 256 }

  /** Byte `c` of a pixel in the given format. */
  function Channel(f: PixelFormat, p: U32, c: nat): Byte
    requires c < Channels(f)
  {
    match f
    case Rgb => if c == 0 then Red(p) else if c == 1 then Green(p) else Blue(p)
    case Bgr => if c == 0 then Blue(p) else if c == 1 then Green(p) else Red(p)
    case U8 => (Red(p) + Green(p) + Blue(p)) / 3
  }

  /** A 32-bit pixel in its bytes, from the highest: unused, red, green, blue. */
  function Pixel(x: Byte, r: Byte, g: Byte, b: Byte): U32 {
    ((x * 0x100 + r) * 0x100 + g) * 0x100 + b
  }

  /** Which byte of a pixel goes where, by the format of the screen. */
  lemma ChannelsOf(x: Byte, r: Byte, g: Byte, b: Byte)
    ensures var p := Pixel(x, r, g, b);
            && Channel(Rgb, p, 0) == r && Channel(Rgb, p, 1) == g && Channel(Rgb, p, 2) == b
            && Channel(Bgr, p, 0) == b && Channel(Bgr, p, 1) == g && Channel(Bgr, p, 2) == r
            && Channel(U8, p, 0) == (r + g + b) / 3
  {
    var p := Pixel(x, r, g, b);
    assert p / 0x100 == (x * 0x100 + r) * 0x100 + g;
    assert p / 0x1_0000 == x * 0x100 + r;
  }

  function Offset(info: Info, col: nat, row: nat): nat {
    (row * info.stride + col) * info.bytesPerPixel
  }

  // Column, row and channel of byte `i`.

  function ColOf(info: Info, i: nat): (c: nat)
    requires GoodInfo(info)
  {
    i / info.bytesPerPixel % info.stride
  }

  function RowOf(info: Info, i: nat): (r: nat)
    requires GoodInfo(info)
  {
    i / info.bytesPerPixel / info.stride
  }

  function ChannelOf(info: Info, i: nat): (c: nat)
    requires GoodInfo(info)
    ensures c <= i
  {
    i % info.bytesPerPixel
  }

  lemma PixelOf(info: Info, col: nat, row: nat, i: nat)
    requires GoodInfo(info) && col < info.stride
    ensures Offset(info, col, row) <= i < Offset(info, col, row) + info.bytesPerPixel
       <==> ColOf(info, i) == col && RowOf(info, i) == row
    ensures ColOf(info, i) == col && RowOf(info, i) == row ==> i == Offset(info, col, row) + ChannelOf(info, i)
  {
    var n, p := info.bytesPerPixel, i / info.bytesPerPixel;
    var at := row * info.stride + col;
    Quotient(i, n);
    Quotient(p, info.stride);
    Split(row, col, info.stride);
    PixelSpan(at, p, i % n, n);
  }

  /** Byte `r` of pixel number `p` lies in the span of pixel number `at` exactly if they are the same. */
  lemma PixelSpan(at: nat, p: nat, r: nat, n: nat)
    requires r < n
    ensures at * n <= p * n + r < at * n + n <==> p == at
  {
    if p < at {
      Scale(p + 1, at, n);
    } else if p > at {
      Scale(at + 1, p, n);
    }
  }

  lemma Distribute(info: Info, col: nat, dx: nat, row: nat)
    ensures Offset(info, col, row) + dx * info.bytesPerPixel == Offset(info, col + dx, row)
  {
    assert (row * info.stride + col) * info.bytesPerPixel + dx * info.bytesPerPixel
        == (row * info.stride + col + dx) * info.bytesPerPixel;
  }

  lemma OffsetOf(info: Info, col: nat, row: nat)
    ensures (row * info.stride + col) * info.bytesPerPixel == Offset(info, col, row)
  {
  }

  // ----- the blit -----

  /** A rectangle to copy: the source slice, its stride, and the same place on the screen. */
  datatype Blit = Blit(source: seq<U32>, srcStride: nat, x: nat, y: nat, w: nat, h: nat)

  /** A pixel of the rectangle that is on the screen. */
  predicate Inside(info: Info, b: Blit, col: nat, row: nat) {
    b.x <= col < b.x + b.w && col < info.width && b.y <= row < b.y + b.h && row < info.height
  }

  function SourceIndex(b: Blit, col: nat, row: nat): nat {
    row * b.srcStride + col
  }

  /** Every pixel the blit reads is in the source slice. */
  ghost predicate SourceFits(info: Info, b: Blit) {
    forall col: nat, row: nat :: Inside(info, b, col, row) ==> SourceIndex(b, col, row) < |b.source|
  }

  /** Byte `i` of the framebuffer after the blit: the source pixel's byte if `i` is a channel of a
      pixel in the rectangle and the whole pixel is in the buffer, otherwise what it was. */
  ghost function ByteAfter(fb: seq<Byte>, info: Info, b: Blit, i: nat): Byte
    requires GoodInfo(info) && SourceFits(info, b) && i < |fb|
  {
    var col, row, c := ColOf(info, i), RowOf(info, i), ChannelOf(info, i);
    if Inside(info, b, col, row) && c < Channels(info.format) && i - c + Channels(info.format) <= |fb|
    then Channel(info.format, b.source[SourceIndex(b, col, row)], c)
    else fb[i]
  }

  ghost function Blitted(fb: seq<Byte>, info: Info, b: Blit): (s: seq<Byte>)
    requires GoodInfo(info) && SourceFits(info, b)
    ensures |s| == |fb| && forall i :: 0 <= i < |fb| ==> s[i] == ByteAfter(fb, info, b, i)
  {
    seq(|fb|, i requires 0 <= i < |fb| => ByteAfter(fb, info, b, i))
  }

  /** The screen shows pixel value `p` at a place, as far as the framebuffer reaches. */
  predicate Shows(fb: seq<Byte>, info: Info, col: nat, row: nat, p: U32) {
    var at := Offset(info, col, row);
    at + Channels(info.format) <= |fb| ==> forall c :: 0 <= c < Channels(info.format) ==>
        fb[at + c] == Channel(info.format, p, c)
  }

  lemma Fits(info: Info, b: Blit, col: nat, row: nat)
    requires SourceFits(info, b)
    ensures Inside(info, b, col, row) ==> SourceIndex(b, col, row) < |b.source|
  {
  }

  lemma ChannelAfter(fb: seq<Byte>, info: Info, b: Blit, col: nat, row: nat, c: nat)
    requires GoodInfo(info) && SourceFits(info, b) && col < info.width && row < info.height && c < Channels(info.format)
    requires Offset(info, col, row) + Channels(info.format) <= |fb|
    ensures var at := Offset(info, col, row);
            if Inside(info, b, col, row)
            then SourceIndex(b, col, row) < |b.source|
                 && Blitted(fb, info, b)[at + c] == Channel(info.format, b.source[SourceIndex(b, col, row)], c)
            else Blitted(fb, info, b)[at + c] == fb[at + c]
  {
    hide Offset, ColOf, RowOf, ChannelOf, Inside, Channel, SourceFits, SourceIndex;
    Fits(info, b, col, row);
    PixelOf(info, col, row, Offset(info, col, row) + c);
  }

  /** After a blit the pixels of the rectangle show the source, and all others what they did. */
  lemma BlitShows(fb: seq<Byte>, info: Info, b: Blit, col: nat, row: nat, p: U32)
    requires GoodInfo(info) && SourceFits(info, b) && col < info.width && row < info.height
    ensures Inside(info, b, col, row) ==>
              SourceIndex(b, col, row) < |b.source|
                  && Shows(Blitted(fb, info, b), info, col, row, b.source[SourceIndex(b, col, row)])
    ensures !Inside(info, b, col, row) && Shows(fb, info, col, row, p) ==>
              Shows(Blitted(fb, info, b), info, col, row, p)
  {
    hide Offset, ColOf, RowOf, Inside, Channel, SourceFits, SourceIndex;
    Fits(info, b, col, row);
    var after := Blitted(fb, info, b);
    var at, n := Offset(info, col, row), Channels(info.format);
    if at + n <= |fb| {
      if Inside(info, b, col, row) {
        forall c | 0 <= c < n ensures after[at + c] == Channel(info.format, b.source[SourceIndex(b, col, row)], c) {
          ChannelAfter(fb, info, b, col, row, c);
        }
      } else if Shows(fb, info, col, row, p) {
        forall c | 0 <= c < n ensures after[at + c] == Channel(info.format, p, c) {
          ChannelAfter(fb, info, b, col, row, c);
        }
      }
    }
  }

  /** At byte `at` of the framebuffer are red, green and blue as the format has them. */
  predicate BytesShow(fb: seq<Byte>, f: PixelFormat, at: nat, red: Byte, green: Byte, blue: Byte) {
    match f
    case Rgb => at + 3 <= |fb| ==> fb[at] == red && fb[at + 1] == green && fb[at + 2] == blue
    case Bgr => at + 3 <= |fb| ==> fb[at] == blue && fb[at + 1] == green && fb[at + 2] == red
    case U8 => at + 1 <= |fb| ==> fb[at] == (red + green + blue) / 3
    case Other => true
  }

  lemma ShowsBytes(fb: seq<Byte>, info: Info, col: nat, row: nat, x: Byte, red: Byte, green: Byte, blue: Byte)
    requires Shows(fb, info, col, row, Pixel(x, red, green, blue))
    ensures BytesShow(fb, info.format, (row * info.stride + col) * info.bytesPerPixel, red, green, blue)
  {
    hide Channel, Pixel;
    ChannelsOf(x, red, green, blue);
    var p, at := Pixel(x, red, green, blue), Offset(info, col, row);
    if at + Channels(info.format) <= |fb| {
      assert info.format.U8? ==> fb[at + 0] == Channel(info.format, p, 0);
      assert Channels(info.format) == 3 ==>
          fb[at + 0] == Channel(info.format, p, 0)
          && fb[at + 1] == Channel(info.format, p, 1) && fb[at + 2] == Channel(info.format, p, 2);
    }
  }

  /** In bytes: a pixel of the rectangle whose number is made of x, red, green and blue ends up, at
      its place in its row of the screen, as those bytes in the order of the screen's format. */
  lemma BlitBytes(fb: seq<Byte>, info: Info, b: Blit, col: nat, row: nat, x: Byte, red: Byte, green: Byte, blue: Byte)
    requires GoodInfo(info) && SourceFits(info, b) && col < info.width && row < info.height
    requires b.x <= col < b.x + b.w && b.y <= row < b.y + b.h
    requires var i := row * b.srcStride + col; i < |b.source| ==> b.source[i] == Pixel(x, red, green, blue)
    ensures var at := (row * info.stride + col) * info.bytesPerPixel;
            BytesShow(Blitted(fb, info, b), info.format, at, red, green, blue)
  {
    hide Channel, SourceFits, Blitted, Pixel, Shows, BytesShow;
    BlitShows(fb, info, b, col, row, 0);
    ShowsBytes(Blitted(fb, info, b), info, col, row, x, red, green, blue);
  }

  /** A blit changes only bytes of pixels that are in the rectangle and on the screen. */
  lemma BlitOnly(fb: seq<Byte>, info: Info, b: Blit, i: nat) returns (col: nat, row: nat, c: nat)
    requires GoodInfo(info) && SourceFits(info, b) && i < |fb| && Blitted(fb, info, b)[i] != fb[i]
    ensures b.x <= col < b.x + b.w && col < info.width && b.y <= row < b.y + b.h && row < info.height
    ensures i == (row * info.stride + col) * info.bytesPerPixel + c
    ensures c < match info.format case Rgb => 3 case Bgr => 3 case U8 => 1 case Other => 0
  {
    hide ColOf, RowOf, Channel, SourceFits, SourceIndex, Blitted;
    col, row, c := ColOf(info, i), RowOf(info, i), ChannelOf(info, i);
    assert Blitted(fb, info, b)[i] == ByteAfter(fb, info, b, i);
    assert Inside(info, b, col, row);
    PixelOf(info, col, row, i);
  }

  /** The bytes done when rows before `row`, and columns before `col` of it, have been copied. */
  predicate Done(info: Info, row: nat, col: nat, i: nat)
    requires GoodInfo(info)
  {
    RowOf(info, i) < row || (RowOf(info, i) == row && ColOf(info, i) < col)
  }

  ghost function Partial(was: seq<Byte>, info: Info, b: Blit, row: nat, col: nat, i: nat): Byte
    requires GoodInfo(info) && SourceFits(info, b) && i < |was|
  {
    if Done(info, row, col, i) then ByteAfter(was, info, b, i) else was[i]
  }

  /** Rows above, left of, right of and below the rectangle need no copying. */
  lemma Margins(was: seq<Byte>, info: Info, b: Blit, row: nat, i: nat)
    requires GoodInfo(info) && SourceFits(info, b) && i < |was|
    ensures Partial(was, info, b, b.y, 0, i) == was[i]
    ensures Partial(was, info, b, row, 0, i) == Partial(was, info, b, row, b.x, i)
    ensures forall c: nat :: c >= b.x + b.w || c >= info.width ==>
              Partial(was, info, b, row, c, i) == Partial(was, info, b, row + 1, 0, i)
    ensures row >= b.y + b.h || row >= info.height ==> Partial(was, info, b, row, 0, i) == ByteAfter(was, info, b, i)
    ensures b.x >= info.width || b.y >= info.height ==> ByteAfter(was, info, b, i) == was[i]
  {
    hide ColOf, RowOf, ChannelOf, Channel, SourceFits;
  }

  /** One pixel more: what writing it does to each byte, in terms of the finished picture. */
  lemma OnePixel(was: seq<Byte>, before: Byte, after: Byte, info: Info, b: Blit, col: nat, row: nat, i: nat)
    requires GoodInfo(info) && SourceFits(info, b) && Inside(info, b, col, row) && i < |was|
    requires SourceIndex(b, col, row) < |b.source|
    requires before == Partial(was, info, b, row, col, i)
    requires after == var o, n := Offset(info, col, row), Channels(info.format);
                      if o <= i < o + n && o + n <= |was| then Channel(info.format, b.source[SourceIndex(b, col,
                          row)], i - o) else before
    ensures after == Partial(was, info, b, row, col + 1, i)
  {
    hide Offset, ColOf, RowOf, Channel, SourceFits, SourceIndex;
    PixelOf(info, col, row, i);
  }

  class FrameBufferWriter {
    const buffer: array<Byte>
    const info: Info

    constructor (buffer: array<Byte>, info: Info)
      ensures this.buffer == buffer && this.info == info
    {
      this.buffer, this.info := buffer, info;
    }

    /** The `match` on the pixel format: writes the channels of one pixel, if they all fit. */
    method PutPixel(offset: nat, pixel: U32)
      modifies buffer
      ensures forall i :: 0 <= i < buffer.Length ==>
                buffer[i] == if offset <= i < offset + Channels(info.format)
                    && offset + Channels(info.format) <= buffer.Length
                             then Channel(info.format, pixel, i - offset) else old(buffer[i])
    {
      hide Red, Green, Blue;
      var r: int, g: int, b: int := Red(pixel), Green(pixel), Blue(pixel);
      match info.format {
        case Rgb =>
          if offset + 2 < buffer.Length {
            buffer[offset] := r;
            buffer[offset + 1] := g;
            buffer[offset + 2] := b;
          }
        case Bgr =>
          if offset + 2 < buffer.Length {
            buffer[offset] := b;
            buffer[offset + 1] := g;
            buffer[offset + 2] := r;
          }
        case U8 =>
          if offset < buffer.Length {
            buffer[offset] := (r + g + b) / 3;
          }
        case Other =>
      }
    }

    /** One step of the inner loop. */
    method CopyPixel(destRow: nat, dx: nat, b: Blit, row: nat, ghost was: seq<Byte>)
      requires GoodInfo(info) && SourceFits(info, b) && Inside(info, b, b.x + dx, row) && |was| == buffer.Length
      requires destRow == Offset(info, b.x, row)
      requires forall i :: 0 <= i < buffer.Length ==> buffer[i] == Partial(was, info, b, row, b.x + dx, i)
      modifies buffer
      ensures forall i :: 0 <= i < buffer.Length ==> buffer[i] == Partial(was, info, b, row, b.x + dx + 1, i)
    {
      hide Partial, Channel, SourceFits, Offset, Inside;
      Fits(info, b, b.x + dx, row);
      var pixel := b.source[row * b.srcStride + b.x + dx];
      Distribute(info, b.x, dx, row);
      ghost var before := buffer[..];
      PutPixel(destRow + dx * info.bytesPerPixel, pixel);
      forall i | 0 <= i < buffer.Length ensures buffer[i] == Partial(was, info, b, row, b.x + dx + 1, i) {
        OnePixel(was, before[i], buffer[i], info, b, b.x + dx, row, i);
      }
    }

    method BlitRect(b: Blit)
      requires GoodInfo(info) && SourceFits(info, b)
      modifies buffer
      ensures buffer[..] == Blitted(old(buffer[..]), info, b)
    {
      hide Partial, SourceFits, Offset, ByteAfter;
      ghost var was := buffer[..];
      forall i | 0 <= i < |was| ensures Partial(was, info, b, b.y, 0, i) == was[i] {
        Margins(was, info, b, 0, i);
      }
      if b.x >= info.width || b.y >= info.height {
        forall i | 0 <= i < |was| ensures ByteAfter(was, info, b, i) == was[i] {
          Margins(was, info, b, 0, i);
        }
        return;
      }
      var w := if b.w <= info.width - b.x then b.w else info.width - b.x;
      var h := if b.h <= info.height - b.y then b.h else info.height - b.y;
      var dy := 0;
      while dy < h
        invariant dy <= h
        invariant forall i :: 0 <= i < buffer.Length ==> buffer[i] == Partial(was, info, b, b.y + dy, 0, i)
      {
        var destRow := ((b.y + dy) * info.stride + b.x) * info.bytesPerPixel;
        OffsetOf(info, b.x, b.y + dy);
        var dx := 0;
        ghost var row, below := b.y + dy, b.y + dy + 1;
        forall i | 0 <= i < |was| ensures Partial(was, info, b, row, 0, i) == Partial(was, info, b, row, b.x, i) {
          Margins(was, info, b, row, i);
        }
        while dx < w
          invariant dx <= w
          invariant forall i :: 0 <= i < buffer.Length ==> buffer[i] == Partial(was, info, b, b.y + dy, b.x + dx, i)
        {
          CopyPixel(destRow, dx, b, b.y + dy, was);
          dx := dx + 1;
        }
        ghost var right := b.x + w;
        forall i | 0 <= i < |was| ensures Partial(was, info, b, row, right, i) == Partial(was, info, b, below, 0, i) {
          Margins(was, info, b, row, i);
        }
        dy := dy + 1;
      }
      ghost var bottom := b.y + h;
      forall i | 0 <= i < |was| ensures Partial(was, info, b, bottom, 0, i) == ByteAfter(was, info, b, i) {
        Margins(was, info, b, bottom, i);
      }
    }
  }
}
