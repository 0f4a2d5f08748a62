/**
 The arithmetic unit (`alu8`, `aluv`, `cc`, INC, DEC, LOOP in `src/cpu.cpp`) and what it
 computes over the integers. One definition serves the 8-, 16- and 32-bit forms; `w` is the
 operand width in bits.
 */
module Alu {
  import opened Bits
  import opened Widths
  import opened Machine

  datatype Op = Add | Or | Adc | Sbb | And | Sub | Xor | Cmp

  /** `parity`: the low byte's bits folded together with exclusive or. */
  predicate EvenParity(v: int) {
    !(((Bit(v, 0) != Bit(v, 4)) != (Bit(v, 2) != Bit(v, 6))) != ((Bit(v, 1) != Bit(v, 5)) != (Bit(v, 3) != Bit(v, 7))))
  }

  /** AND, OR and XOR, bit by bit. */
  function Bitwise(op: Op, a: int, b: int, w: nat): int
    decreases w
  {
    if w == 0 then 0
    else
      var x, y := a % 2 == 1, b % 2 == 1;
      (if Combined(op, x, y) then 1 else 0) + 2 * Bitwise(op, a / 2, b / 2, w - 1)
  }

  function Carry(fl: Word): int { if HasFlag(fl, CF) then 1 else 0 }

  /** The result before truncation; a borrow makes it negative. */
  function Wide(op: Op, w: nat, a: nat, b: nat, fl: Word): int {
    match op
    case Add => a + b
    case Adc => a + b + Carry(fl)
    case Sub => a - b
    case Cmp => a - b
    case Sbb => a - b - Carry(fl)
    case _ => Bitwise(op, a, b, w)
  }

  predicate Logical(op: Op) { op.And? || op.Or? || op.Xor? }

  predicate Subtracts(op: Op) { op.Sub? || op.Cmp? || op.Sbb? }

  datatype Status = Status(cf: bool, pf: bool, af: bool, zf: bool, sf: bool, of: bool)

  function SetStatus(fl: Word, t: Status): Word {
    SetFlag(SetFlag(SetFlag(SetFlag(SetFlag(SetFlag(fl, CF, t.cf), AF, t.af), OF, t.of), ZF, t.zf), SF, t.sf), PF, t.pf)
  }

  /** The status an operation leaves: carry and overflow read off the bits of the wide result. */
  function StatusOf(op: Op, w: nat, a: nat, b: nat, wide: int): Status
    requires w > 0
  {
    var r := wide % Pow2(w);
    var sa, sb, sr := Bit(a, w - 1), Bit(b, w - 1), Bit(r, w - 1);
    Status(
      !Logical(op) && Bit(wide, w),
      EvenParity(r),
      !Logical(op) && ((Bit(a, 4) != Bit(b, 4)) != Bit(r, 4)),
      r == 0,
      sr,
      !Logical(op) && if Subtracts(op) then sa != sb && sa != sr else sa == sb && sa != sr)
  }

  function Result(op: Op, w: nat, a: nat, b: nat, fl: Word): nat { Wide(op, w, a, b, fl) % Pow2(w) }

  function Flags(op: Op, w: nat, a: nat, b: nat, fl: Word): Word
    requires w > 0
  {
    SetStatus(fl, StatusOf(op, w, a, b, Wide(op, w, a, b, fl)))
  }

  /** `cc`, by condition code. */
  predicate Cond(c: nat, fl: Word)
    requires c < 16
  {
    var cf, zf, sf, of, pf := HasFlag(fl, CF), HasFlag(fl, ZF), HasFlag(fl, SF), HasFlag(fl, OF), HasFlag(fl, PF);
    if c == 0x0 then of else if c == 0x1 then !of
    else if c == 0x2 then cf else if c == 0x3 then !cf
    else if c == 0x4 then zf else if c == 0x5 then !zf
    else if c == 0x6 then cf || zf else if c == 0x7 then !(cf || zf)
    else if c == 0x8 then sf else if c == 0x9 then !sf
    else if c == 0xA then pf else if c == 0xB then !pf
    else if c == 0xC then sf != of else if c == 0xD then sf == of
    else if c == 0xE then zf || sf != of else !zf && sf == of
  }

  // ---- what the flags mean -----------------------------------------------------------

  /** Every status flag is what was set, and the other flags are left alone. */
  lemma StatusSet(fl: Word, t: Status)
    ensures var g := SetStatus(fl, t);
            && HasFlag(g, CF) == t.cf && HasFlag(g, PF) == t.pf && HasFlag(g, AF) == t.af
            && HasFlag(g, ZF) == t.zf && HasFlag(g, SF) == t.sf && HasFlag(g, OF) == t.of
    ensures forall k: nat :: k !in {CF, PF, AF, ZF, SF, OF} ==> Bit(SetStatus(fl, t), k) == Bit(fl, k)
  {
    hide Bit, WithBit;
    var f1 := SetFlag(fl, CF, t.cf);
    var f2 := SetFlag(f1, AF, t.af);
    var f3 := SetFlag(f2, OF, t.of);
    var f4 := SetFlag(f3, ZF, t.zf);
    var f5 := SetFlag(f4, SF, t.sf);
    var f6 := SetFlag(f5, PF, t.pf);
    forall k: nat
      ensures Bit(f6, k) == if k == PF then t.pf else if k == SF then t.sf else if k == ZF then t.zf
                            else if k == OF then t.of else if k == AF then t.af else if k == CF then t.cf
                            else Bit(fl, k)
    {
      BitWithBit(fl, CF, t.cf, k);
      BitWithBit(f1, AF, t.af, k);
      BitWithBit(f2, OF, t.of, k);
      BitWithBit(f3, ZF, t.zf, k);
      BitWithBit(f4, SF, t.sf, k);
      BitWithBit(f5, PF, t.pf, k);
    }
  }

  /** How many of the lowest `n` bits are ones. */
  function Ones(v: int, n: nat): nat { if n == 0 then 0 else Ones(v, n - 1) + if Bit(v, n - 1) then 1 else 0 }

  lemma ParityCounts(v: int)
    ensures EvenParity(v) <==> Ones(v, 8) % 2 == 0
  {
    hide Bit;
    assert Ones(v, 2) == Ones(v, 1) + (if Bit(v, 1) then 1 else 0) && Ones(v, 1) == if Bit(v, 0) then 1 else 0;
    assert Ones(v, 3) == Ones(v, 2) + if Bit(v, 2) then 1 else 0;
    assert Ones(v, 4) == Ones(v, 3) + if Bit(v, 3) then 1 else 0;
    assert Ones(v, 5) == Ones(v, 4) + if Bit(v, 4) then 1 else 0;
    assert Ones(v, 6) == Ones(v, 5) + if Bit(v, 5) then 1 else 0;
    assert Ones(v, 7) == Ones(v, 6) + if Bit(v, 6) then 1 else 0;
    assert Ones(v, 8) == Ones(v, 7) + if Bit(v, 7) then 1 else 0;
  }

  /** PF says the result's low byte has an even number of ones, whatever the operation. */
  lemma ParityFlag(op: Op, w: nat, a: nat, b: nat, fl: Word)
    requires w > 0
    ensures HasFlag(Flags(op, w, a, b, fl), PF) <==> Ones(Result(op, w, a, b, fl), 8) % 2 == 0
  {
    hide Bit, SetStatus, EvenParity, Ones;
    StatusSet(fl, StatusOf(op, w, a, b, Wide(op, w, a, b, fl)));
    ParityCounts(Result(op, w, a, b, fl));
  }

  predicate Combined(op: Op, x: bool, y: bool) { match op case And => x && y case Or => x || y case _ => x != y }

  lemma BitwiseStep(op: Op, a: nat, b: nat, w: nat)
    requires w > 0
    ensures var r := Bitwise(op, a, b, w);
            (r % 2 == 1 <==> Combined(op, a % 2 == 1, b % 2 == 1)) && r / 2 == Bitwise(op, a / 2, b / 2, w - 1)
  {
  }

  lemma {:induction false} BitwiseFits(op: Op, a: nat, b: nat, w: nat)
    ensures 0 <= Bitwise(op, a, b, w) < Pow2(w)
    decreases w
  {
    if w > 0 {
      BitwiseStep(op, a, b, w);
      BitwiseFits(op, a / 2, b / 2, w - 1);
      assert Pow2(w) == 2 * Pow2(w - 1);
      hide Bitwise, Pow2, Combined;
    }
  }

  /** Each bit of a logical result is that operation on the operands' bits. */
  lemma {:induction false} BitwiseIs(op: Op, a: nat, b: nat, w: nat, k: nat)
    requires k < w
    ensures Bit(Bitwise(op, a, b, w), k) <==> Combined(op, Bit(a, k), Bit(b, k))
    decreases w
  {
    hide Bitwise, Bit, Combined, Pow2;
    BitwiseStep(op, a, b, w);
    if k == 0 {
      LowestBit(a); LowestBit(b); LowestBit(Bitwise(op, a, b, w));
    } else {
      BitwiseIs(op, a / 2, b / 2, w - 1, k - 1);
      NextBit(a, k); NextBit(b, k); NextBit(Bitwise(op, a, b, w), k);
    }
  }

  lemma LowestBit(x: int)
    ensures Bit(x, 0) <==> x % 2 == 1
  {
    assert Pow2(0) == 1;
  }

  lemma NextBit(x: int, k: nat)
    requires k > 0
    ensures Bit(x, k) == Bit(x / 2, k - 1)
  {
    DivTwice(x, 2, Pow2(k - 1));
  }

  /** AND, OR and XOR: the bits combined, CF, OF and AF cleared. */
  lemma Logics(op: Op, w: nat, a: nat, b: nat, fl: Word, k: nat)
    requires Logical(op) && k < w
    ensures var r, g := Result(op, w, a, b, fl), Flags(op, w, a, b, fl);
            && r < Pow2(w)
            && (Bit(r, k) <==> Combined(op, Bit(a, k), Bit(b, k)))
            && !HasFlag(g, CF) && !HasFlag(g, OF) && !HasFlag(g, AF)
            && (HasFlag(g, ZF) <==> r == 0)
            && (HasFlag(g, SF) <==> Signed(r, w) < 0)
  {
    BitwiseFits(op, a, b, w);
    BitwiseIs(op, a, b, w, k);
    var wide := Bitwise(op, a, b, w);
    DivIs(wide, Pow2(w), 0, wide);
    TopBit(wide, w);
    hide Bit, SetStatus, Bitwise, EvenParity;
    StatusSet(fl, StatusOf(op, w, a, b, wide));
  }

  /** A `w`-bit number read as two's complement. */
  function Signed(x: int, w: nat): int
    requires w > 0
  {
    if x >= Pow2(w - 1) then x - Pow2(w) else x
  }

  predicate FitsSigned(x: int, w: nat)
    requires w > 0
  {
    0 <= x + Pow2(w - 1) && x < Pow2(w - 1)
  }

  lemma TopBit(x: nat, w: nat)
    requires w > 0 && x < Pow2(w)
    ensures Pow2(w) == 2 * Pow2(w - 1) && (Bit(x, w - 1) <==> x >= Pow2(w - 1))
  {
    var p := Pow2(w - 1);
    if x >= p { DivIs(x, p, 1, x - p); } else { DivIs(x, p, 0, x); }
  }

  /** The carry bit of a sum, and of a difference. */
  lemma WideBit(x: int, w: nat)
    requires 0 <= x + Pow2(w) && x < 2 * Pow2(w)
    ensures Bit(x, w) <==> !(0 <= x < Pow2(w))
    ensures x % Pow2(w) == if x < 0 then x + Pow2(w) else if x < Pow2(w) then x else x - Pow2(w)
  {
    var p := Pow2(w);
    if x < 0 { DivIs(x, p, -1, x + p); } else if x < p { DivIs(x, p, 0, x); } else { DivIs(x, p, 1, x - p); }
  }

  /** ADD and ADC: result and CF together are the sum; OF says the signed sum does not fit. */
  lemma Adds(op: Op, w: nat, a: nat, b: nat, fl: Word)
    requires w > 0 && a < Pow2(w) && b < Pow2(w) && (op.Add? || op.Adc?)
    ensures var c := if op.Adc? then Carry(fl) else 0;
            var r, g := Result(op, w, a, b, fl), Flags(op, w, a, b, fl);
            && r < Pow2(w)
            && r + Pow2(w) * Carry(g) == a + b + c
            && (HasFlag(g, OF) <==> !FitsSigned(Signed(a, w) + Signed(b, w) + c, w))
            && (HasFlag(g, ZF) <==> r == 0)
            && (HasFlag(g, SF) <==> Signed(r, w) < 0)
  {
    hide Bit, SetStatus;
    var wide := Wide(op, w, a, b, fl);
    StatusSet(fl, StatusOf(op, w, a, b, wide));
    WideBit(wide, w);
    TopBit(a, w);
    TopBit(b, w);
    TopBit(wide % Pow2(w), w);
  }

  /** SUB, CMP and SBB: the difference, with CF the borrow; SF and OF decide its signed sign. */
  lemma Takes(op: Op, w: nat, a: nat, b: nat, fl: Word)
    requires w > 0 && a < Pow2(w) && b < Pow2(w) && Subtracts(op)
    ensures var c := if op.Sbb? then Carry(fl) else 0;
            var r, g := Result(op, w, a, b, fl), Flags(op, w, a, b, fl);
            && r < Pow2(w)
            && r == a - b - c + Pow2(w) * Carry(g)
            && (HasFlag(g, OF) <==> !FitsSigned(Signed(a, w) - Signed(b, w) - c, w))
            && (HasFlag(g, ZF) <==> r == 0)
            && (HasFlag(g, SF) <==> Signed(r, w) < 0)
            && (HasFlag(g, SF) != HasFlag(g, OF) <==> Signed(a, w) - Signed(b, w) - c < 0)
  {
    hide Bit, SetStatus;
    var wide := Wide(op, w, a, b, fl);
    StatusSet(fl, StatusOf(op, w, a, b, wide));
    WideBit(wide, w);
    TopBit(a, w);
    TopBit(b, w);
    TopBit(wide % Pow2(w), w);
  }

  // ---- the remaining flags, and the conditions ---------------------------------------

  /** The carry or borrow that goes in. */
  function CarryIn(op: Op, fl: Word): int { if op.Adc? || op.Sbb? then Carry(fl) else 0 }

  /** AF is the carry, or the borrow, out of the low four bits. */
  lemma HalfCarry(op: Op, w: nat, a: nat, b: nat, fl: Word)
    requires !Logical(op) && w >= 5
    ensures HasFlag(Flags(op, w, a, b, fl), AF) <==>
              if Subtracts(op) then a % 0x10 - b % 0x10 - CarryIn(op, fl) < 0
              else a % 0x10 + b % 0x10 + CarryIn(op, fl) >= 0x10
  {
    var wide, c := Wide(op, w, a, b, fl), CarryIn(op, fl);
    assert wide == if Subtracts(op) then a - b - c else a + b + c;
    StatusSet(fl, StatusOf(op, w, a, b, wide));
    LowBitsOnly(wide, w, 4);
    BitFour(a); BitFour(b); BitFour(wide);
    hide Bit, SetStatus, EvenParity, Wide, CarryIn;
    CarriedFour(a, b, c, wide, Subtracts(op));
  }

  lemma BitFour(x: int)
    ensures Bit(x, 4) <==> x / 0x10 % 2 == 1
  {
    Powers();
  }

  lemma CarriedFour(a: nat, b: nat, c: int, wide: int, sub: bool)
    requires 0 <= c <= 1 && wide == if sub then a - b - c else a + b + c
    ensures (((a / 0x10 % 2 == 1) != (b / 0x10 % 2 == 1)) != (wide / 0x10 % 2 == 1)) <==>
              if sub then a % 0x10 - b % 0x10 - c < 0 else a % 0x10 + b % 0x10 + c >= 0x10
  {
    var x: int, y: int := a / 0x10, b / 0x10;
    var low := if sub then a % 0x10 - b % 0x10 - c else a % 0x10 + b % 0x10 + c;
    var k := if sub then (if low < 0 then 1 else 0) else if low >= 0x10 then 1 else 0;
    DivIs(wide, 0x10, if sub then x - y - k else x + y + k, if sub then low + 0x10 * k else low - 0x10 * k);
    Parities3(x, y, k);
  }

  lemma Parities3(x: int, y: int, k: int)
    requires 0 <= k <= 1
    ensures (((x % 2 == 1) != (y % 2 == 1)) != ((x + y + k) % 2 == 1)) <==> k == 1
    ensures (x - y - k) % 2 == (x + y + k) % 2
  {
    SameParity(x - y - k, y + k);
  }

  /** An operation changes the six status flags and no other. */
  lemma OtherFlags(op: Op, w: nat, a: nat, b: nat, fl: Word, k: nat)
    requires w > 0 && k !in {CF, PF, AF, ZF, SF, OF}
    ensures HasFlag(Flags(op, w, a, b, fl), k) == HasFlag(fl, k)
  {
    StatusSet(fl, StatusOf(op, w, a, b, Wide(op, w, a, b, fl)));
    hide SetStatus, StatusOf, Bit;
  }

  /** After CMP or SUB every condition says of the operands what its name says. */
  lemma Conditions(op: Op, w: nat, a: nat, b: nat, fl: Word)
    requires w > 0 && a < Pow2(w) && b < Pow2(w) && (op.Cmp? || op.Sub?)
    ensures var g, r, x, y := Flags(op, w, a, b, fl), Result(op, w, a, b, fl), Signed(a, w), Signed(b, w);
            && (Cond(0x0, g) <==> !FitsSigned(x - y, w)) && (Cond(0x1, g) <==> FitsSigned(x - y, w))
            && (Cond(0x2, g) <==> a < b) && (Cond(0x3, g) <==> a >= b)
            && (Cond(0x4, g) <==> a == b) && (Cond(0x5, g) <==> a != b)
            && (Cond(0x6, g) <==> a <= b) && (Cond(0x7, g) <==> a > b)
            && (Cond(0x8, g) <==> Signed(r, w) < 0) && (Cond(0x9, g) <==> Signed(r, w) >= 0)
            && (Cond(0xA, g) <==> Ones(r, 8) % 2 == 0) && (Cond(0xB, g) <==> Ones(r, 8) % 2 == 1)
            && (Cond(0xC, g) <==> x < y) && (Cond(0xD, g) <==> x >= y)
            && (Cond(0xE, g) <==> x <= y) && (Cond(0xF, g) <==> x > y)
  {
    hide HasFlag, Flags, Result, Ones, Pow2, Signed, FitsSigned, Bit;
    Takes(op, w, a, b, fl);
    ParityFlag(op, w, a, b, fl);
    Compared(a, b, Result(op, w, a, b, fl), Pow2(w), Carry(Flags(op, w, a, b, fl)));
    SignedOnce(a, b, w);
  }

  lemma Compared(a: int, b: int, r: int, p: int, c: int)
    requires 0 <= a < p && 0 <= b < p && 0 <= r < p && 0 <= c <= 1 && r == a - b + p * c
    ensures (c == 1 <==> a < b) && (r == 0 <==> a == b)
  {
    assert p * c == if c == 1 then p else 0;
  }

  lemma SignedOnce(a: nat, b: nat, w: nat)
    requires w > 0 && a < Pow2(w) && b < Pow2(w)
    ensures Signed(a, w) == Signed(b, w) <==> a == b
  {
  }
}
