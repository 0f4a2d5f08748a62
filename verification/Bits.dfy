/** Numbers and their binary digits, lowest first. */
module Bits {
  import opened Widths

  function Pow2(n: nat): (p: nat)
    ensures p > 0
  {
    if n == 0 then 1 else 2 * Pow2(n - 1)
  }

  /** A quotient and remainder that fit are the quotient and the remainder. */
  lemma DivIs(x: int, d: int, q: int, r: int)
    requires 0 <= r < d && x == d * q + r
    ensures x / d == q && x % d == r
  {
    var k := q - x / d;
    assert d * k == x % d - r by { assert d * k == d * q - d * (x / d); }
    if k >= 1 { MulMono(1, k, d); } else if k <= -1 { MulMono(k, -1, d); }
  }

  lemma MulMono(x: int, y: int, d: int)
    requires x <= y && d >= 0
    ensures d * x <= d * y && x * d <= y * d
  {
  }

  /** Whole turns around do not change where one is. */
  lemma ModShift(x: int, k: int, w: int)
    requires w > 0
    ensures (x + k * w) % w == x % w
  {
    assert x == w * (x / w) + x % w;
    assert w * (x / w + k) == w * (x / w) + k * w;
    DivIs(x + k * w, w, x / w + k, x % w);
  }

  lemma ModAdd(x: int, b: int, w: int)
    requires w > 0
    ensures (x % w + b) % w == (x + b) % w
  {
    assert x == w * (x / w) + x % w;
    assert (-(x / w)) * w == -(w * (x / w));
    ModShift(x + b, -(x / w), w);
  }

  lemma DivTwice(x: int, d: int, c: int)
    requires d > 0 && c > 0
    ensures d * c > 0 && x / (d * c) == x / d / c
  {
    var y := x / d;
    var q, r := y / c, y % c;
    MulMono(1, c, d);
    assert x == d * y + x % d && y == c * q + r;
    assert d * (c * q + r) == d * c * q + d * r;
    MulMono(r, c - 1, d);
    assert d * (c - 1) == d * c - d;
    MulMono(0, r, d);
    DivIs(x, d * c, q, d * r + x % d);
  }

  lemma {:induction false} Pow2Sum(i: nat, j: nat)
    ensures Pow2(i + j) == Pow2(i) * Pow2(j)
    decreases i
  {
    if i > 0 {
      Pow2Sum(i - 1, j);
      assert Pow2(i + j) == 2 * Pow2(i - 1 + j);
      assert 2 * (Pow2(i - 1) * Pow2(j)) == 2 * Pow2(i - 1) * Pow2(j);
    }
  }

  // ---- single bits -------------------------------------------------------------------

  predicate Bit(x: int, k: nat) { x / Pow2(k) % 2 == 1 }

  /** Bit `k` of `x` or-ed in, or masked out. */
  function WithBit(x: int, k: nat, on: bool): int {
    if Bit(x, k) == on then x else if on then x + Pow2(k) else x - Pow2(k)
  }

  /** Changing one bit changes that bit and no other. */
  lemma BitWithBit(x: int, k: nat, on: bool, j: nat)
    ensures Bit(WithBit(x, k, on), j) == if j == k then on else Bit(x, j)
  {
    if Bit(x, k) != on {
      if j == k { BitFlip(x, k, on); } else if j < k { BitBelow(x, k, on, j); } else { BitAbove(x, k, on, j); }
    }
  }

  /** The last change to a bit is the one that stays, and changes to two bits commute. */
  lemma WithBitTwice(x: int, k: nat, a: bool, b: bool)
    ensures WithBit(WithBit(x, k, a), k, b) == WithBit(x, k, b)
  {
    BitWithBit(x, k, a, k);
    hide Bit, Pow2;
  }

  lemma WithBitSwaps(x: int, j: nat, a: bool, k: nat, b: bool)
    requires j != k
    ensures WithBit(WithBit(x, j, a), k, b) == WithBit(WithBit(x, k, b), j, a)
  {
    BitWithBit(x, j, a, k);
    BitWithBit(x, k, b, j);
    hide Bit, Pow2;
  }

  lemma BitFlip(x: int, k: nat, on: bool)
    requires Bit(x, k) != on
    ensures WithBit(x, k, on) / Pow2(k) == x / Pow2(k) + (if on then 1 else -1)
  {
    var p := Pow2(k);
    hide Pow2;
    assert x == p * (x / p) + x % p;
    if on {
      assert p * (x / p + 1) == p * (x / p) + p;
      DivIs(x + p, p, x / p + 1, x % p);
    } else {
      assert p * (x / p - 1) == p * (x / p) - p;
      DivIs(x - p, p, x / p - 1, x % p);
    }
  }

  lemma BitAbove(x: int, k: nat, on: bool, j: nat)
    requires Bit(x, k) != on && j > k
    ensures Bit(WithBit(x, k, on), j) == Bit(x, j)
  {
    var p, y := Pow2(k), WithBit(x, k, on);
    BitFlip(x, k, on);
    DivTwice(x, p, 2);
    DivTwice(y, p, 2);
    var c := Pow2(j - k - 1);
    Pow2Sum(k + 1, j - k - 1);
    DivTwice(x, p * 2, c);
    DivTwice(y, p * 2, c);
  }

  lemma BitBelow(x: int, k: nat, on: bool, j: nat)
    requires Bit(x, k) != on && j < k
    ensures Bit(WithBit(x, k, on), j) == Bit(x, j)
  {
    Pow2Sum(j + 1, k - j - 1);
    var q, c := Pow2(j), Pow2(k - j - 1);
    assert Pow2(k) == 2 * q * c;
    hide Pow2;
    Parities(x, q, c);
  }

  lemma Parities(x: int, q: int, c: int)
    requires q > 0
    ensures (x + 2 * q * c) / q % 2 == x / q % 2 == (x - 2 * q * c) / q % 2
  {
    EvenSteps(x, q, c);
    EvenSteps(x, q, -c);
    assert 2 * q * -c == -(2 * q * c);
    SameParity(x / q, c);
  }

  lemma SameParity(y: int, c: int)
    ensures (y + 2 * c) % 2 == y % 2 == (y + 2 * -c) % 2
  {
  }

  lemma EvenSteps(x: int, q: int, d: int)
    requires q > 0
    ensures (x + 2 * q * d) / q == x / q + 2 * d
  {
    assert x == q * (x / q) + x % q;
    assert q * (x / q + 2 * d) == q * (x / q) + 2 * q * d;
    DivIs(x + 2 * q * d, q, x / q + 2 * d, x % q);
  }

  lemma WithBitBound(x: int, k: nat, on: bool, n: nat)
    requires 0 <= x < Pow2(n) && k < n
    ensures 0 <= WithBit(x, k, on) < Pow2(n)
  {
    var p := Pow2(k);
    assert x == p * (x / p) + x % p;
    if Bit(x, k) && !on {
      if x / p <= 0 { MulMono(x / p, 0, p); DivIs(x, p, 0, x); }
      MulMono(1, x / p, p);
    } else if !Bit(x, k) && on {
      var c := Pow2(n - k - 1);
      Pow2Sum(k, n - k);
      RoomAbove(x, p, c);
    }
  }

  lemma RoomAbove(x: int, p: int, c: int)
    requires p > 0 && x < p * (2 * c) && x / p % 2 == 0
    ensures x + p < p * (2 * c)
  {
    assert x == p * (x / p) + x % p;
    if x / p >= 2 * c { MulMono(2 * c, x / p, p); }
    MulMono(x / p, 2 * c - 2, p);
    assert p * (2 * c - 2) == p * (2 * c) - 2 * p;
  }

  /** Reducing modulo 2^w keeps the bits below `w`. */
  lemma LowBitsOnly(y: int, w: nat, k: nat)
    requires k < w
    ensures Bit(y % Pow2(w), k) == Bit(y, k)
  {
    Pow2Sum(k + 1, w - k - 1);
    LowPart(y, Pow2(w), Pow2(k), Pow2(w - k - 1));
    hide Pow2;
  }

  lemma LowPart(y: int, p: int, d: int, c: int)
    requires d > 0 && p > 0 && p == 2 * d * c
    ensures y % p / d % 2 == y / d % 2
  {
    var q, r := y / p, y % p;
    assert y == p * q + r;
    assert p * q == 2 * d * (c * q) by { assert 2 * d * c * q == 2 * d * (c * q); }
    EvenSteps(r, d, c * q);
    SameParity(r / d, c * q);
  }
}
