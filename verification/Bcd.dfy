/** Packed decimal arithmetic: ADC with DAA, SBB with DAS, a byte at a time (opcodes 27 and 2F). */
module Bcd {
  import opened Bits
  import opened Widths
  import opened Machine
  import opened Alu
  import opened Limbs

  /** The digits DAA, or with `sub` DAS, makes of AL, and the CF and AF it leaves. */
  function Adjusted(sub: bool, oldAl: Byte, fl: Word): (Byte, bool, bool) {
    var oldCf := HasFlag(fl, CF);
    var low := oldAl % 0x10 > 9 || HasFlag(fl, AF);
    var t := if low then U16(if sub then oldAl - 6 else oldAl + 6) else oldAl;
    var al1 := t % M8;
    var cf1 := low && (oldCf || t / M8 % 2 == 1);
    var high := oldAl > 0x99 || oldCf;
    (if high then (if sub then al1 - 0x60 else al1 + 0x60) % M8 else al1, cf1 || high, low)
  }

  /** DAA and DAS: the adjusted AL and the flags. */
  function Adjust(sub: bool, oldAl: Byte, fl: Word): (Byte, Word) {
    var (al, cf, af) := Adjusted(sub, oldAl, fl);
    var f1 := SetFlag(SetFlag(fl, CF, cf), AF, af);
    (al, SetFlag(SetFlag(SetFlag(f1, ZF, al == 0), SF, al >= 0x80), PF, EvenParity(al)))
  }

  predicate Packed(x: int) { 0 <= x < 0xA0 && x % 0x10 <= 9 }

  /** The number a packed byte stands for. */
  function Decimal(x: int): int { 10 * (x / 0x10) + x % 0x10 }

  /** The adjustment of AL, and the carry it leaves, in plain arithmetic. */
  lemma AdjustIs(sub: bool, oldAl: Byte, fl: Word)
    ensures var low, high := oldAl % 0x10 > 9 || HasFlag(fl, AF), oldAl > 0x99 || HasFlag(fl, CF);
            var x := oldAl + (if !low then 0 else if sub then -6 else 6)
                           + (if !high then 0 else if sub then -0x60 else 0x60);
            && Adjust(sub, oldAl, fl).0 == x % M8
            && HasFlag(Adjust(sub, oldAl, fl).1, CF) == (high || (low && if sub then oldAl < 6 else oldAl >= 250))
  {
    hide HasFlag, SetFlag, EvenParity;
    SixOff(oldAl);
    SixtyOff(oldAl);
    AdjustCarry(sub, oldAl, fl);
  }

  /** The other flags DAA and DAS leave: AF the low digit's adjustment, ZF, SF and PF as AL asks for. */
  lemma AdjustFlags(sub: bool, oldAl: Byte, fl: Word)
    ensures var (al, g) := Adjust(sub, oldAl, fl);
            && (HasFlag(g, AF) <==> oldAl % 0x10 > 9 || HasFlag(fl, AF))
            && (HasFlag(g, ZF) <==> al == 0) && (HasFlag(g, SF) <==> Signed(al, 8) < 0)
            && (HasFlag(g, PF) <==> Ones(al, 8) % 2 == 0)
            && forall k: nat :: k !in {CF, AF, ZF, SF, PF} ==> HasFlag(g, k) == HasFlag(fl, k)
  {
    var (al, cf, af) := Adjusted(sub, oldAl, fl);
    ParityCounts(al);
    assert Signed(al, 8) < 0 <==> al >= 0x80 by { Powers(); }
    hide Bit, WithBit, EvenParity, Ones, Adjusted, Signed;
    var f1 := SetFlag(fl, CF, cf);
    var f2 := SetFlag(f1, AF, af);
    var f3 := SetFlag(f2, ZF, al == 0);
    var f4 := SetFlag(f3, SF, al >= 0x80);
    forall k: nat
      ensures Bit(SetFlag(f4, PF, EvenParity(al)), k)
              == if k == PF then EvenParity(al) else if k == SF then al >= 0x80 else if k == ZF then al == 0
                 else if k == AF then af else if k == CF then cf else Bit(fl, k)
    {
      BitWithBit(fl, CF, cf, k);
      BitWithBit(f1, AF, af, k);
      BitWithBit(f2, ZF, al == 0, k);
      BitWithBit(f3, SF, al >= 0x80, k);
      BitWithBit(f4, PF, EvenParity(al), k);
    }
  }

  lemma AdjustCarry(sub: bool, oldAl: Byte, fl: Word)
    ensures var low, high := oldAl % 0x10 > 9 || HasFlag(fl, AF), oldAl > 0x99 || HasFlag(fl, CF);
            var t := U16(if sub then oldAl - 6 else oldAl + 6);
            HasFlag(Adjust(sub, oldAl, fl).1, CF) == (high || (low && t / M8 % 2 == 1))
  {
    hide Bit, WithBit, EvenParity, U16;
    var oldCf := HasFlag(fl, CF);
    var low := oldAl % 0x10 > 9 || HasFlag(fl, AF);
    var t := if low then U16(if sub then oldAl - 6 else oldAl + 6) else oldAl;
    var cf := (low && (oldCf || t / M8 % 2 == 1)) || oldAl > 0x99 || oldCf;
    var al := Adjust(sub, oldAl, fl).0;
    var f0 := SetFlag(fl, CF, cf);
    var f1 := SetFlag(f0, AF, low);
    var f2 := SetFlag(f1, ZF, al == 0);
    var f3 := SetFlag(f2, SF, al >= 0x80);
    BitWithBit(fl, CF, cf, CF);
    BitWithBit(f0, AF, low, CF);
    BitWithBit(f1, ZF, al == 0, CF);
    BitWithBit(f2, SF, al >= 0x80, CF);
    BitWithBit(f3, PF, EvenParity(al), CF);
  }

  lemma SixOff(x: Byte)
    ensures U16(x - 6) / M8 % 2 == (if x < 6 then 1 else 0) && U16(x - 6) % M8 == (x - 6) % M8
    ensures U16(x + 6) / M8 % 2 == (if x >= 250 then 1 else 0) && U16(x + 6) % M8 == (x + 6) % M8
  {
  }

  lemma SixtyOff(x: Byte)
    ensures ((x - 6) % M8 - 0x60) % M8 == (x + -6 + -0x60) % M8 && ((x + 6) % M8 + 0x60) % M8 == (x + 6 + 0x60) % M8
  {
    ModAdd(x - 6, -0x60, M8);
    ModAdd(x + 6, 0x60, M8);
  }

  /** One decimal step: the operation on AL, then its adjustment. */
  function Digits(op: Op, a: Byte, b: Byte, fl: Word): (Byte, Word)
    requires op.Adc? || op.Sbb?
  {
    Powers();
    Adjust(op.Sbb?, Result(op, 8, a, b, fl), Flags(op, 8, a, b, fl))
  }

  /** ADC and DAA add two packed bytes and the carry, in decimal. */
  lemma DigitsAdd(a: Byte, b: Byte, fl: Word)
    requires Packed(a) && Packed(b)
    ensures var (r, g) := Digits(Adc, a, b, fl);
            Packed(r) && Decimal(r) + 100 * Carry(g) == Decimal(a) + Decimal(b) + Carry(fl)
  {
    hide Flags, Result, HasFlag, Adjust, Packed, Decimal;
    Powers();
    var r, f := Result(Adc, 8, a, b, fl), Flags(Adc, 8, a, b, fl);
    Adds(Adc, 8, a, b, fl);
    HalfCarry(Adc, 8, a, b, fl);
    AdjustIs(false, r, f);
    AddCases(a, b, Carry(fl), r, Carry(f));
  }

  /** The arithmetic of DAA on the sum of two packed bytes. */
  lemma AddCases(a: Byte, b: Byte, c: int, r: Byte, c1: int)
    requires Packed(a) && Packed(b) && 0 <= c <= 1 && 0 <= c1 <= 1 && r + M8 * c1 == a + b + c
    ensures var low, high := r % 0x10 > 9 || a % 0x10 + b % 0x10 + c >= 0x10, r > 0x99 || c1 == 1;
            var al := (r + (if !low then 0 else 6) + (if !high then 0 else 0x60)) % M8;
            && Packed(al)
            && (low && r >= 250 ==> high)
            && Decimal(al) + (if high then 100 else 0) == Decimal(a) + Decimal(b) + c
  {
    var h: int, l: int := a / 0x10 + b / 0x10, a % 0x10 + b % 0x10 + c;
    assert r + M8 * c1 == 16 * h + l && Decimal(a) + Decimal(b) + c == 10 * h + l;
    hide Packed, Decimal;
    if l <= 9 { SumNoLow(h, l, r, c1); } else { SumLow(h, l, r, c1); }
  }

  lemma SumNoLow(h: int, l: int, r: Byte, c1: int)
    requires 0 <= h <= 18 && 0 <= l <= 9 && 0 <= c1 <= 1 && r + M8 * c1 == 16 * h + l
    ensures var high := r > 0x99 || c1 == 1;
            var al := (r + (if high then 0x60 else 0)) % M8;
            r % 0x10 <= 9 && Packed(al) && Decimal(al) + (if high then 100 else 0) == 10 * h + l
  {
    Nibbles(r, h - 16 * c1, l);
    if h <= 9 {
      assert c1 == 0 && r <= 0x99;
    } else {
      Nibbles(16 * (h - 10) + l, h - 10, l);
      DivIs(r + 0x60, M8, 1 - c1, 16 * (h - 10) + l);
    }
  }

  lemma SumLow(h: int, l: int, r: Byte, c1: int)
    requires 0 <= h <= 18 && 10 <= l <= 19 && 0 <= c1 <= 1 && r + M8 * c1 == 16 * h + l
    ensures var high := r > 0x99 || c1 == 1;
            var al := (r + 6 + (if high then 0x60 else 0)) % M8;
            (l < 16 ==> r % 0x10 > 9) && Packed(al) && Decimal(al) + (if high then 100 else 0) == 10 * h + l
            && (r >= 250 ==> high)
  {
    if l < 16 { Nibbles(r, h - 16 * c1, l); }
    if h <= 8 {
      assert c1 == 0;
      Nibbles(16 * (h + 1) + (l - 10), h + 1, l - 10);
      assert r == 16 * h + l && r + 6 < 0x9A;
    } else {
      Nibbles(16 * (h - 9) + (l - 10), h - 9, l - 10);
      DivIs(r + 6 + 0x60, M8, 1 - c1, 16 * (h - 9) + (l - 10));
      assert r > 0x99 || c1 == 1;
    }
  }

  lemma Nibbles(x: int, h: int, l: int)
    requires x == 16 * h + l && 0 <= l < 16
    ensures x / 0x10 == h && x % 0x10 == l
  {
  }

  /** SBB and DAS subtract a packed byte and the borrow, in decimal. */
  lemma DigitsSubtract(a: Byte, b: Byte, fl: Word)
    requires Packed(a) && Packed(b)
    ensures var (r, g) := Digits(Sbb, a, b, fl);
            Packed(r) && Decimal(r) == Decimal(a) - Decimal(b) - Carry(fl) + 100 * Carry(g)
  {
    hide Flags, Result, HasFlag, Adjust, Packed, Decimal;
    Powers();
    var r, f := Result(Sbb, 8, a, b, fl), Flags(Sbb, 8, a, b, fl);
    Takes(Sbb, 8, a, b, fl);
    HalfCarry(Sbb, 8, a, b, fl);
    AdjustIs(true, r, f);
    SubtractCases(a, b, Carry(fl), r, Carry(f));
  }

  /** The arithmetic of DAS on the difference of two packed bytes. */
  lemma SubtractCases(a: Byte, b: Byte, c: int, r: Byte, c1: int)
    requires Packed(a) && Packed(b) && 0 <= c <= 1 && 0 <= c1 <= 1 && r == a - b - c + M8 * c1
    ensures var low, high := r % 0x10 > 9 || a % 0x10 - b % 0x10 - c < 0, r > 0x99 || c1 == 1;
            var al := (r + (if !low then 0 else -6) + (if !high then 0 else -0x60)) % M8;
            && Packed(al)
            && (low && r < 6 ==> high)
            && Decimal(al) == Decimal(a) - Decimal(b) - c + (if high then 100 else 0)
  {
    var h: int, l: int := a / 0x10 - b / 0x10, a % 0x10 - b % 0x10 - c;
    assert r - M8 * c1 == 16 * h + l && Decimal(a) - Decimal(b) - c == 10 * h + l;
    hide Packed, Decimal;
    if l >= 0 { DifferenceNoLow(h, l, r, c1); } else { DifferenceLow(h, l, r, c1); }
  }

  lemma DifferenceNoLow(h: int, l: int, r: Byte, c1: int)
    requires -9 <= h <= 9 && 0 <= l <= 9 && 0 <= c1 <= 1 && r == 16 * h + l + M8 * c1
    ensures var high := r > 0x99 || c1 == 1;
            var al := (r - (if high then 0x60 else 0)) % M8;
            r % 0x10 <= 9 && Packed(al) && Decimal(al) == 10 * h + l + (if high then 100 else 0)
  {
    hide Packed, Decimal;
    Nibbles(r, h + 16 * c1, l);
    if h < 0 {
      assert c1 == 1;
      AtDigits(16 * (h + 10) + l, h + 10, l);
      DivIs(r - 0x60, M8, 0, 16 * (h + 10) + l);
    } else {
      assert c1 == 0 && r <= 0x99;
      AtDigits(r, h, l);
      DivIs(r, M8, 0, r);
    }
  }

  /** A byte made of two decimal digits. */
  lemma AtDigits(x: int, h: int, l: int)
    requires x == 16 * h + l && 0 <= l <= 9 && 0 <= h <= 9
    ensures Packed(x) && Decimal(x) == 10 * h + l
  {
    Nibbles(x, h, l);
  }

  lemma DifferenceLow(h: int, l: int, r: Byte, c1: int)
    requires -9 <= h <= 9 && -10 <= l < 0 && 0 <= c1 <= 1 && r == 16 * h + l + M8 * c1
    ensures var high := r > 0x99 || c1 == 1;
            var al := (r - 6 - (if high then 0x60 else 0)) % M8;
            Packed(al) && Decimal(al) == 10 * h + l + (if high then 100 else 0) && (r < 6 ==> high)
  {
    hide Packed, Decimal;
    if h >= 1 {
      assert c1 == 0 && 6 <= r <= 0x99;
      AtDigits(16 * (h - 1) + (l + 10), h - 1, l + 10);
      DivIs(r - 6, M8, 0, 16 * (h - 1) + (l + 10));
    } else {
      assert c1 == 1;
      AtDigits(16 * (h + 9) + (l + 10), h + 9, l + 10);
      DivIs(r - 6 - 0x60, M8, 0, 16 * (h + 9) + (l + 10));
    }
  }

  // ---- numbers of any length ---------------------------------------------------------

  /** The decimal number whose packed bytes, lowest first, are `xs`. */
  function DecimalValue(xs: seq<Byte>): int {
    if xs == [] then 0 else Decimal(xs[0]) + 100 * DecimalValue(xs[1..])
  }

  function Hundreds(n: nat): nat { if n == 0 then 1 else 100 * Hundreds(n - 1) }

  ghost predicate AllPacked(xs: seq<Byte>) { forall i :: 0 <= i < |xs| ==> Packed(xs[i]) }

  /** The step on each pair of bytes, lowest first, with `mid[i]` run after byte `i`. */
  function DecimalChain(op: Op, a: seq<Byte>, b: seq<Byte>, fl: Word, mid: seq<seq<Between>>): (seq<Byte>, Word)
    requires (op.Adc? || op.Sbb?) && |a| == |b| == |mid|
    decreases |a|
  {
    if a == [] then ([], fl)
    else
      var (r, f) := Digits(op, a[0], b[0], fl);
      var (rest, g) := DecimalChain(op, a[1..], b[1..], PassAll(f, mid[0]), mid[1..]);
      ([r] + rest, g)
  }

  /** Decimal addition of any length: valid digits of A + B + c0, CF the decimal carry. */
  lemma {:induction false} DecimalChainAdds(a: seq<Byte>, b: seq<Byte>, fl: Word, mid: seq<seq<Between>>)
    requires |a| == |b| == |mid| && AllPacked(a) && AllPacked(b)
    ensures var (r, g) := DecimalChain(Adc, a, b, fl, mid);
            && |r| == |a| && AllPacked(r)
            && DecimalValue(r) + Hundreds(|a|) * Carry(g) == DecimalValue(a) + DecimalValue(b) + Carry(fl)
    decreases |a|
  {
    hide Digits, Packed, Decimal, HasFlag;
    if a != [] {
      var (r0, f0) := Digits(Adc, a[0], b[0], fl);
      DigitsAdd(a[0], b[0], fl);
      CarrySurvives(f0, mid[0]);
      DecimalChainAdds(a[1..], b[1..], PassAll(f0, mid[0]), mid[1..]);
      var (rest, g) := DecimalChain(Adc, a[1..], b[1..], PassAll(f0, mid[0]), mid[1..]);
      assert ([r0] + rest)[1..] == rest;
    }
  }

  /** Decimal subtraction of any length: A - B - c0 modulo 100^n, CF the decimal borrow. */
  lemma {:induction false} DecimalChainSubtracts(a: seq<Byte>, b: seq<Byte>, fl: Word, mid: seq<seq<Between>>)
    requires |a| == |b| == |mid| && AllPacked(a) && AllPacked(b)
    ensures var (r, g) := DecimalChain(Sbb, a, b, fl, mid);
            && |r| == |a| && AllPacked(r)
            && DecimalValue(r) == DecimalValue(a) - DecimalValue(b) - Carry(fl) + Hundreds(|a|) * Carry(g)
    decreases |a|
  {
    hide Digits, Packed, Decimal, HasFlag;
    if a != [] {
      var (r0, f0) := Digits(Sbb, a[0], b[0], fl);
      DigitsSubtract(a[0], b[0], fl);
      CarrySurvives(f0, mid[0]);
      DecimalChainSubtracts(a[1..], b[1..], PassAll(f0, mid[0]), mid[1..]);
      var (rest, g) := DecimalChain(Sbb, a[1..], b[1..], PassAll(f0, mid[0]), mid[1..]);
      assert ([r0] + rest)[1..] == rest;
    }
  }
}
