/** What the validity test of file names accepts: exactly the UTF-8 encodings of Unicode text. */
module Text {
  import opened Machine
  import opened FsLayout

  /** A Unicode scalar value. */
  predicate Scalar(c: nat) {
    c < 0xD800 || 0xE000 <= c <= 0x10_FFFF
  }

  function EncodeScalar(c: nat): (s: seq<Byte>)
    requires Scalar(c)
  {
    if c < 0x80 then [c]
    else if c < 0x800 then [0xC0 + c / 0x40, 0x80 + c % 0x40]
    else if c < 0x1_0000 then [0xE0 + c / 0x1000, 0x80 + c / 0x40 % 0x40, 0x80 + c % 0x40]
    else [0xF0 + c / 0x4_0000, 0x80 + c / 0x1000 % 0x40, 0x80 + c / 0x40 % 0x40, 0x80 + c % 0x40]
  }

  function EncodeText(cs: seq<nat>): seq<Byte>
    requires forall i :: 0 <= i < |cs| ==> Scalar(cs[i])
  {
    if cs == [] then [] else EncodeScalar(cs[0]) + EncodeText(cs[1..])
  }

  lemma ScalarThenRest(c: nat, rest: seq<Byte>)
    requires Scalar(c)
    ensures Utf8(EncodeScalar(c) + rest) == Utf8(rest)
  {
    var e := EncodeScalar(c);
    var s := e + rest;
    assert s[|e|..] == rest;
    if 0x800 <= c < 0x1_0000 {
      ThreeBytes(c);
    } else if c >= 0x1_0000 {
      FourBytes(c);
    }
  }

  lemma ThreeBytes(c: nat)
    requires Scalar(c) && 0x800 <= c < 0x1_0000
    ensures var e := EncodeScalar(c);
            && (e[0] == 0xE0 ==> e[1] >= 0xA0) && (e[0] == 0xED ==> e[1] <= 0x9F)
            && 0xE0 <= e[0] <= 0xEF && 0x80 <= e[1] <= 0xBF && 0x80 <= e[2] <= 0xBF
  {
    var a, b := c / 0x1000, c / 0x40;
    assert b == 0x40 * a + b % 0x40 && c == 0x40 * b + c % 0x40;
  }

  lemma FourBytes(c: nat)
    requires Scalar(c) && c >= 0x1_0000
    ensures var e := EncodeScalar(c);
            && (e[0] == 0xF0 ==> e[1] >= 0x90) && (e[0] == 0xF4 ==> e[1] <= 0x8F)
            && 0xF0 <= e[0] <= 0xF4 && 0x80 <= e[1] <= 0xBF && 0x80 <= e[2] <= 0xBF && 0x80 <= e[3] <= 0xBF
  {
    var a, b := c / 0x4_0000, c / 0x1000;
    assert b == 0x40 * a + b % 0x40 && c == 0x1000 * b + c % 0x1000;
  }

  /** Every text is accepted in its encoding. */
  lemma {:induction false} TextIsUtf8(cs: seq<nat>)
    requires forall i :: 0 <= i < |cs| ==> Scalar(cs[i])
    ensures Utf8(EncodeText(cs))
    decreases |cs|
  {
    if cs != [] {
      hide EncodeScalar;
      TextIsUtf8(cs[1..]);
      ScalarThenRest(cs[0], EncodeText(cs[1..]));
    }
  }

  /** The first character of an accepted byte string. */
  lemma FirstScalar(s: seq<Byte>) returns (c: nat, n: nat)
    requires s != [] && Utf8(s)
    ensures 0 < n <= |s| && Scalar(c) && s[..n] == EncodeScalar(c) && Utf8(s[n..])
  {
    var w: int := s[0];
    if w < 0x80 {
      c, n := w, 1;
    } else if w < 0xE0 {
      var x: int := s[1];
      c, n := (w - 0xC0) * 0x40 + (x - 0x80), 2;
    } else if w < 0xF0 {
      var x: int, y: int := s[1], s[2];
      c, n := ((w - 0xE0) * 0x40 + (x - 0x80)) * 0x40 + (y - 0x80), 3;
      ThreeBack(w - 0xE0, x - 0x80, y - 0x80);
    } else {
      var x: int, y: int, z: int := s[1], s[2], s[3];
      c, n := (((w - 0xF0) * 0x40 + (x - 0x80)) * 0x40 + (y - 0x80)) * 0x40 + (z - 0x80), 4;
      FourBack(w - 0xF0, x - 0x80, y - 0x80, z - 0x80);
    }
  }

  lemma ThreeBack(x: nat, y: nat, z: nat)
    requires y < 0x40 && z < 0x40
    ensures var c := (x * 0x40 + y) * 0x40 + z; c / 0x1000 == x && c / 0x40 % 0x40 == y && c % 0x40 == z
  {
    var c := (x * 0x40 + y) * 0x40 + z;
    assert c / 0x40 == x * 0x40 + y;
  }

  lemma FourBack(w: nat, x: nat, y: nat, z: nat)
    requires x < 0x40 && y < 0x40 && z < 0x40
    ensures var c := ((w * 0x40 + x) * 0x40 + y) * 0x40 + z;
            c / 0x4_0000 == w && c / 0x1000 % 0x40 == x && c / 0x40 % 0x40 == y && c % 0x40 == z
  {
    var b := (w * 0x40 + x) * 0x40 + y;
    var c := b * 0x40 + z;
    ThreeBack(w, x, y);
    assert c / 0x40 == b && c / 0x1000 == b / 0x40 && c / 0x4_0000 == b / 0x1000;
  }

  /** Whatever is accepted is the encoding of a text. */
  lemma {:induction false} Utf8IsText(s: seq<Byte>) returns (cs: seq<nat>)
    requires Utf8(s)
    ensures (forall i :: 0 <= i < |cs| ==> Scalar(cs[i])) && s == EncodeText(cs)
    decreases |s|
  {
    if s == [] {
      cs := [];
    } else {
      hide EncodeScalar, Utf8;
      var c, n := FirstScalar(s);
      var rest := Utf8IsText(s[n..]);
      cs := [c] + rest;
      assert cs[1..] == rest && s == s[..n] + s[n..];
    }
  }
}
