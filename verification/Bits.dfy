/** Bit masks on 64-bit words, as arithmetic. */
module Bits {
  const MAX_WORD: nat := 0xFFFF_FFFF_FFFF_FFFF

  function Pow2(k: nat): (p: nat)
    ensures p >= 1
  {
    if k == 0 then 1 else 2 * Pow2(k - 1)
  }

  /** Bitwise and. */
  function And(x: nat, y: nat): nat {
    if x == 0 || y == 0 then 0 else 2 * And(x / 2, y / 2) + (x % 2) * (y % 2)
  }

  /** Bitwise or. */
  function Or(x: nat, y: nat): (z: nat)
    ensures x <= z && y <= z <= x + y
    decreases x + y
  {
    if x == 0 then y
    else if y == 0 then x
    else 2 * Or(x / 2, y / 2) + if x % 2 == 1 || y % 2 == 1 then 1 else 0
  }

  /** Or and and share out the sum of two words. */
  lemma {:induction false} OrAnd(x: nat, y: nat)
    ensures Or(x, y) + And(x, y) == x + y
    decreases x + y
  {
    if x > 0 && y > 0 {
      OrAnd(x / 2, y / 2);
    }
  }

  /** Bitwise complement of a 64-bit word. */
  function Not(x: nat): nat
    requires x <= MAX_WORD
  {
    MAX_WORD - x
  }

  ghost predicate IsPow2(a: nat) {
    exists k: nat :: a == Pow2(k)
  }

  lemma {:induction false} AndOnes(x: nat, w: nat)
    requires x < Pow2(w)
    ensures And(x, Pow2(w) - 1) == x
  {
    if x > 0 {
      assert w > 0;
      AndOnes(x / 2, w - 1);
      assert (Pow2(w) - 1) / 2 == Pow2(w - 1) - 1;
    }
  }

  /** Masking with w-bit ones above bit k rounds down to a multiple of 2^k. */
  lemma {:induction false} AndHigh(x: nat, k: nat, w: nat) returns (q: nat)
    requires k <= w && x < Pow2(w)
    ensures Pow2(k) <= Pow2(w)
    ensures And(x, Pow2(w) - Pow2(k)) == q * Pow2(k)
    ensures q * Pow2(k) <= x < q * Pow2(k) + Pow2(k)
    decreases k
  {
    if k == 0 {
      AndOnes(x, w);
      q := x;
    } else {
      q := AndHigh(x / 2, k - 1, w - 1);
      var p, m := Pow2(k - 1), Pow2(w) - Pow2(k);
      assert m == 2 * (Pow2(w - 1) - p);
      assert And(x, m) == 2 * And(x / 2, m / 2) by {
        if x == 0 || m == 0 {
          if m == 0 { AndZero(x / 2); }
        }
      }
      assert q * Pow2(k) == 2 * (q * p) by { MulTwo(q, p); }
    }
  }

  lemma MulTwo(q: nat, p: nat)
    ensures q * (2 * p) == 2 * (q * p)
  {
  }

  lemma AndZero(x: nat)
    ensures And(x, 0) == 0 && And(0, x) == 0
  {
  }

  lemma Pow2Eight(k: nat)
    ensures Pow2(k + 8) == 256 * Pow2(k)
  {
    assert Pow2(k + 4) == 16 * Pow2(k) by {
      assert Pow2(k + 2) == 4 * Pow2(k);
    }
    assert Pow2(k + 6) == 4 * Pow2(k + 4);
  }

  lemma Pow2Zero()
    ensures Pow2(0) == 1
  {
  }

  lemma Pow2Word()
    ensures Pow2(64) == MAX_WORD + 1
  {
    hide Pow2;
    Pow2Zero();
    Pow2Eight(0);
    Pow2Eight(8);
    Pow2Eight(16);
    Pow2Eight(24);
    Pow2Eight(32);
    Pow2Eight(40);
    Pow2Eight(48);
    Pow2Eight(56);
  }

  lemma {:induction false} Pow2Monotone(a: nat, b: nat)
    requires a <= b
    ensures Pow2(a) <= Pow2(b)
  {
    if a < b {
      Pow2Monotone(a, b - 1);
    }
  }

  /** Multiples of a power of two are multiples of every smaller one. */
  lemma {:induction false} Pow2Divides(a: nat, b: nat, x: int)
    requires a <= b && x % Pow2(b) == 0
    ensures x % Pow2(a) == 0
    decreases b
  {
    if a < b {
      var p, q := Pow2(b - 1), x / Pow2(b);
      assert x == q * (2 * p);
      assert x == (2 * q) * p by { assert q * (2 * p) == (2 * q) * p; }
      MulMod(2 * q, p);
      Pow2Divides(a, b - 1, x);
    }
  }

  lemma MulBound(t: int, p: nat)
    ensures t >= 1 ==> t * p >= p
    ensures t <= -1 ==> t * p + p <= 0
  {
  }

  lemma MulMod(q: int, p: nat)
    requires p > 0
    ensures (q * p) % p == 0
  {
    var d, m := (q * p) / p, (q * p) % p;
    assert q * p == d * p + m;
    assert (q - d) * p == m;
    MulBound(q - d, p);
  }

  lemma HighExponent(k: nat)
    ensures k > 64 ==> Pow2(k) >= 2 * Pow2(64)
  {
    if k > 64 {
      Pow2Monotone(65, k);
    }
  }

  /** 64-bit arithmetic wraps around. */
  function Wrap(x: nat): (r: nat)
    ensures r <= MAX_WORD
    ensures x <= MAX_WORD ==> r == x
  {
    x % (MAX_WORD + 1)
  }

  /** `(addr + align - 1) & !(align - 1)`, where subtracting one is adding the largest word. */
  function AlignUp(addr: nat, align: nat): nat {
    And(Wrap(addr + align + MAX_WORD), Not(Wrap(align + MAX_WORD)))
  }

  lemma WrapBack(x: nat)
    requires 1 <= x <= MAX_WORD + 1
    ensures Wrap(x + MAX_WORD) == x - 1
  {
  }

  /** For a power of two, and unless it wraps, `align_up` is the least multiple not below the
      address. */
  lemma AlignUpLeast(addr: nat, align: nat)
    requires IsPow2(align) && addr + align - 1 <= MAX_WORD
    ensures 1 <= align
    ensures var r := AlignUp(addr, align); r % align == 0 && addr <= r < addr + align
  {
    var k: nat :| align == Pow2(k);
    Pow2Word();
    HighExponent(k);
    WrapBack(addr + align);
    WrapBack(align);
    Pow2Above(addr, align, k);
  }

  lemma Pow2Above(addr: nat, align: nat, k: nat)
    requires align == Pow2(k) && k <= 64 && Pow2(64) == MAX_WORD + 1 && 1 <= align && addr + align - 1 <= MAX_WORD
    ensures var r := And(addr + align - 1, Not(align - 1)); r % align == 0 && addr <= r < addr + align
  {
    hide Pow2, And;
    var q := AndHigh(addr + align - 1, k, 64);
    MulMod(q, align);
  }
}
