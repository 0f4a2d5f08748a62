/** Arithmetic on numbers of any length, limb by limb through the carry flag. */
module Limbs {
  import opened Bits
  import opened Widths
  import opened Machine
  import opened Alu

  /** What a loop may do between two limbs without losing the carry. */
  datatype Between = Inc(w: nat, x: nat) | Dec(w: nat, x: nat) | Loop

  /** INC and DEC put CF back as it was (opcodes 40-4F, FE, FF); LOOP touches no flag. */
  function Pass(fl: Word, b: Between): Word {
    match b
    case Inc(w, x) => if w == 0 then fl else SetFlag(Flags(Add, w, x, 1, fl), CF, HasFlag(fl, CF))
    case Dec(w, x) => if w == 0 then fl else SetFlag(Flags(Sub, w, x, 1, fl), CF, HasFlag(fl, CF))
    case Loop => fl
  }

  function PassAll(fl: Word, bs: seq<Between>): Word {
    if bs == [] then fl else Pass(PassAll(fl, bs[..|bs| - 1]), bs[|bs| - 1])
  }

  lemma {:induction false} CarrySurvives(fl: Word, bs: seq<Between>)
    ensures Carry(PassAll(fl, bs)) == Carry(fl)
    decreases |bs|
  {
    hide Flags, Bit;
    if bs != [] {
      var g, b := PassAll(fl, bs[..|bs| - 1]), bs[|bs| - 1];
      CarrySurvives(fl, bs[..|bs| - 1]);
      match b
      case Inc(w, x) => if w > 0 { BitWithBit(Flags(Add, w, x, 1, g), CF, HasFlag(g, CF), CF); }
      case Dec(w, x) => if w > 0 { BitWithBit(Flags(Sub, w, x, 1, g), CF, HasFlag(g, CF), CF); }
      case Loop =>
    }
  }

  /** INC and DEC set the other five status flags as the new value asks for, and nothing else. */
  lemma IncDecFlags(fl: Word, b: Between)
    requires !b.Loop? && b.w >= 5 && b.x < Pow2(b.w)
    ensures var g, top := Pass(fl, b), Pow2(b.w - 1);
            var r := (if b.Inc? then b.x + 1 else b.x - 1) % Pow2(b.w);
            && (HasFlag(g, CF) <==> HasFlag(fl, CF))
            && (HasFlag(g, ZF) <==> r == 0) && (HasFlag(g, SF) <==> Signed(r, b.w) < 0)
            && (HasFlag(g, OF) <==> if b.Inc? then r == top else b.x == top)
            && (HasFlag(g, AF) <==> if b.Inc? then b.x % 0x10 == 0xF else b.x % 0x10 == 0)
            && (HasFlag(g, PF) <==> Ones(r, 8) % 2 == 0)
            && forall k: nat :: k !in {CF, PF, AF, ZF, SF, OF} ==> HasFlag(g, k) == HasFlag(fl, k)
  {
    hide HasFlag, Pass, Flags, Result, Signed, Ones, Pow2, Subtracts, Logical, CarryIn;
    var op := if b.Inc? then Add else Sub;
    PassIs(fl, b);
    StepFlags(op, b.w, b.x, fl);
    ResultIs(b, fl);
    ParityFlag(op, b.w, b.x, 1, fl);
    OneIn(op, b.x, fl);
    HalfCarry(op, b.w, b.x, 1, fl);
    forall k: nat | k !in {CF, PF, AF, ZF, SF, OF}
      ensures HasFlag(Flags(op, b.w, b.x, 1, fl), k) == HasFlag(fl, k)
    {
      OtherFlags(op, b.w, b.x, 1, fl, k);
    }
  }

  lemma OneIn(op: Op, x: nat, fl: Word)
    requires op.Add? || op.Sub?
    ensures !Logical(op) && (Subtracts(op) <==> op.Sub?) && CarryIn(op, fl) == 0
    ensures x % 0x10 + 1 >= 0x10 <==> x % 0x10 == 0xF
  {
  }

  lemma StepFlags(op: Op, w: nat, x: nat, fl: Word)
    requires (op.Add? || op.Sub?) && w >= 5 && x < Pow2(w)
    ensures var g, r, top := Flags(op, w, x, 1, fl), Result(op, w, x, 1, fl), Pow2(w - 1);
            && (HasFlag(g, ZF) <==> r == 0) && (HasFlag(g, SF) <==> Signed(r, w) < 0)
            && (HasFlag(g, OF) <==> if op.Add? then (x + 1) % Pow2(w) == top else x == top)
  {
    hide HasFlag, Flags, Result, Signed, FitsSigned, Pow2;
    WideEnough(w);
    if op.Add? { Adds(op, w, x, 1, fl); } else { Takes(op, w, x, 1, fl); }
    OverflowsAt(w, x, op.Add?);
  }

  lemma PassIs(fl: Word, b: Between)
    requires !b.Loop? && b.w > 0
    ensures var f := Flags(if b.Inc? then Add else Sub, b.w, b.x, 1, fl);
            forall k: nat :: HasFlag(Pass(fl, b), k) == if k == CF then HasFlag(fl, CF) else HasFlag(f, k)
  {
    var f := Flags(if b.Inc? then Add else Sub, b.w, b.x, 1, fl);
    forall k: nat ensures HasFlag(Pass(fl, b), k) == if k == CF then HasFlag(fl, CF) else HasFlag(f, k) {
      BitWithBit(f, CF, HasFlag(fl, CF), k);
    }
  }

  lemma ResultIs(b: Between, fl: Word)
    requires !b.Loop?
    ensures Result(if b.Inc? then Add else Sub, b.w, b.x, 1, fl)
            == (if b.Inc? then b.x + 1 else b.x - 1) % Pow2(b.w)
  {
  }

  lemma WideEnough(w: nat)
    requires w >= 5
    ensures Pow2(w) > 1
  {
  }

  /** Adding one overflows onto the most negative number, and taking one away overflows from it. */
  lemma OverflowsAt(w: nat, x: nat, up: bool)
    requires w >= 5 && x < Pow2(w)
    ensures !FitsSigned(if up then Signed(x, w) + Signed(1, w) + 0 else Signed(x, w) - Signed(1, w) - 0, w)
            <==> if up then (x + 1) % Pow2(w) == Pow2(w - 1) else x == Pow2(w - 1)
  {
    var p, h := Pow2(w), Pow2(w - 1);
    assert p == 2 * h && h == 2 * Pow2(w - 2);
    if x + 1 == p { DivIs(x + 1, p, 1, 0); } else { DivIs(x + 1, p, 0, x + 1); }
  }

  /** The number whose little-endian limbs are `xs`. */
  function Value(xs: seq<nat>, w: nat): nat {
    if xs == [] then 0 else xs[0] + Pow2(w) * Value(xs[1..], w)
  }

  ghost predicate AreLimbs(xs: seq<nat>, w: nat) { forall i :: 0 <= i < |xs| ==> xs[i] < Pow2(w) }

  /** W^n for limbs of `w` bits. */
  function Base(w: nat, n: nat): (p: nat)
    ensures p > 0
  {
    if n == 0 then 1 else Pow2(w) * Base(w, n - 1)
  }

  /** `op` on each pair of limbs, lowest first, with `mid[i]` run after limb `i`. */
  function Chain(op: Op, w: nat, a: seq<nat>, b: seq<nat>, fl: Word, mid: seq<seq<Between>>): (seq<nat>, Word)
    requires w > 0 && |a| == |b| == |mid|
    decreases |a|
  {
    if a == [] then ([], fl)
    else
      var r := Result(op, w, a[0], b[0], fl);
      var (rest, g) := Chain(op, w, a[1..], b[1..], PassAll(Flags(op, w, a[0], b[0], fl), mid[0]), mid[1..]);
      ([r] + rest, g)
  }

  /** Adding with carry adds the numbers: the limbs and the final carry are A + B + c0. */
  lemma {:induction false} ChainAdds(w: nat, a: seq<nat>, b: seq<nat>, fl: Word, mid: seq<seq<Between>>)
    requires w > 0 && |a| == |b| == |mid| && AreLimbs(a, w) && AreLimbs(b, w)
    ensures var (r, g) := Chain(Adc, w, a, b, fl, mid);
            && |r| == |a| && AreLimbs(r, w)
            && Value(r, w) + Base(w, |a|) * Carry(g) == Value(a, w) + Value(b, w) + Carry(fl)
    decreases |a|
  {
    hide Result, Flags, Carry;
    if a != [] {
      var p, r0, f0 := Pow2(w), Result(Adc, w, a[0], b[0], fl), Flags(Adc, w, a[0], b[0], fl);
      Adds(Adc, w, a[0], b[0], fl);
      CarrySurvives(f0, mid[0]);
      var (rest, g) := Chain(Adc, w, a[1..], b[1..], PassAll(f0, mid[0]), mid[1..]);
      ChainAdds(w, a[1..], b[1..], PassAll(f0, mid[0]), mid[1..]);
      assert ([r0] + rest)[1..] == rest;
      Carried(p, r0, Carry(f0), a[0], b[0], Carry(fl), Value(rest, w), Base(w, |a| - 1), Carry(g),
              Value(a[1..], w), Value(b[1..], w));
      hide Pow2;
    }
  }

  lemma SplitSum(p: int, x: int, y: int)
    ensures p * (x + y) == p * x + p * y
  {
  }

  lemma Carried(p: int, r0: int, c1: int, a0: int, b0: int, c0: int, rest: int, base: int, c2: int, a: int, b: int)
    requires r0 + p * c1 == a0 + b0 + c0 && rest + base * c2 == a + b + c1
    ensures r0 + p * rest + p * base * c2 == a0 + p * a + (b0 + p * b) + c0
  {
    SplitSum(p, rest, base * c2);
    SplitSum(p, a + b, c1);
    SplitSum(p, a, b);
    assert p * (base * c2) == p * base * c2;
  }

  /** Subtracting with borrow subtracts the numbers. */
  lemma {:induction false} ChainSubtracts(w: nat, a: seq<nat>, b: seq<nat>, fl: Word, mid: seq<seq<Between>>)
    requires w > 0 && |a| == |b| == |mid| && AreLimbs(a, w) && AreLimbs(b, w)
    ensures var (r, g) := Chain(Sbb, w, a, b, fl, mid);
            && |r| == |a| && AreLimbs(r, w)
            && Value(r, w) == Value(a, w) - Value(b, w) - Carry(fl) + Base(w, |a|) * Carry(g)
    decreases |a|
  {
    hide Result, Flags, Carry;
    if a != [] {
      var p, r0, f0 := Pow2(w), Result(Sbb, w, a[0], b[0], fl), Flags(Sbb, w, a[0], b[0], fl);
      Takes(Sbb, w, a[0], b[0], fl);
      CarrySurvives(f0, mid[0]);
      var (rest, g) := Chain(Sbb, w, a[1..], b[1..], PassAll(f0, mid[0]), mid[1..]);
      ChainSubtracts(w, a[1..], b[1..], PassAll(f0, mid[0]), mid[1..]);
      assert ([r0] + rest)[1..] == rest;
      Borrowed(p, r0, Carry(f0), a[0], b[0], Carry(fl), Value(rest, w), Base(w, |a| - 1), Carry(g),
               Value(a[1..], w), Value(b[1..], w));
      hide Pow2;
    }
  }

  lemma Borrowed(p: int, r0: int, c1: int, a0: int, b0: int, c0: int, rest: int, base: int, c2: int, a: int, b: int)
    requires r0 == a0 - b0 - c0 + p * c1 && rest == a - b - c1 + base * c2
    ensures r0 + p * rest == a0 + p * a - (b0 + p * b) - c0 + p * base * c2
  {
    SplitSum(p, a - b - c1, base * c2);
    SplitSum(p, a - b, -c1);
    SplitSum(p, a, -b);
    assert p * (base * c2) == p * base * c2 && p * -b == -(p * b) && p * -c1 == -(p * c1);
  }

  lemma {:induction false} ValueBound(xs: seq<nat>, w: nat)
    requires AreLimbs(xs, w)
    ensures Value(xs, w) < Base(w, |xs|)
    decreases |xs|
  {
    if xs != [] {
      ValueBound(xs[1..], w);
      MulMono(Value(xs[1..], w), Base(w, |xs| - 1) - 1, Pow2(w));
      assert Pow2(w) * (Base(w, |xs| - 1) - 1) == Pow2(w) * Base(w, |xs| - 1) - Pow2(w);
    }
  }

  /** The top limb of a number carries its sign. */
  function SignedValue(xs: seq<nat>, w: nat): int
    requires w > 0 && xs != []
  {
    var top := |xs| - 1;
    Value(xs[..top], w) + Base(w, top) * Signed(xs[top], w)
  }

  lemma {:induction false} ValueSplits(xs: seq<nat>, w: nat)
    requires xs != []
    ensures Value(xs, w) == Value(xs[..|xs| - 1], w) + Base(w, |xs| - 1) * xs[|xs| - 1]
    decreases |xs|
  {
    var top := |xs| - 1;
    if top > 0 {
      var rest := xs[1..];
      ValueSplits(rest, w);
      assert rest[..top - 1] == xs[..top][1..] && xs[..top][0] == xs[0] && rest[top - 1] == xs[top];
      Regroup(Pow2(w), Value(rest[..top - 1], w), Base(w, top - 1), xs[top], xs[0]);
      hide Pow2;
    } else {
      assert xs[1..] == [] && xs[..0] == [];
    }
  }

  lemma Regroup(p: int, lo: int, b: int, x: int, x0: int)
    ensures x0 + p * (lo + b * x) == x0 + p * lo + p * b * x
  {
    SplitSum(p, lo, b * x);
    assert p * (b * x) == p * b * x;
  }

  /** The last step of a chain, apart from the ones before it. */
  lemma {:induction false} ChainSplits(op: Op, w: nat, a: seq<nat>, b: seq<nat>, fl: Word, mid: seq<seq<Between>>)
    requires w > 0 && a != [] && |a| == |b| == |mid|
    ensures var top := |a| - 1;
            var (r, f) := Chain(op, w, a[..top], b[..top], fl, mid[..top]);
            Chain(op, w, a, b, fl, mid)
            == (r + [Result(op, w, a[top], b[top], f)], PassAll(Flags(op, w, a[top], b[top], f), mid[top]))
    decreases |a|
  {
    hide Result, Flags, PassAll;
    var top := |a| - 1;
    if top > 0 {
      var f0 := PassAll(Flags(op, w, a[0], b[0], fl), mid[0]);
      ChainSplits(op, w, a[1..], b[1..], f0, mid[1..]);
      assert a[1..][..top - 1] == a[..top][1..] && b[1..][..top - 1] == b[..top][1..];
      assert mid[1..][..top - 1] == mid[..top][1..];
      assert a[..top][0] == a[0] && b[..top][0] == b[0] && mid[..top][0] == mid[0];
      var (r, f) := Chain(op, w, a[..top][1..], b[..top][1..], f0, mid[..top][1..]);
      assert [Result(op, w, a[0], b[0], fl)] + (r + [Result(op, w, a[top], b[top], f)])
             == [Result(op, w, a[0], b[0], fl)] + r + [Result(op, w, a[top], b[top], f)];
    } else {
      assert a[1..] == [] && a[..0] == [];
      assert [Result(op, w, a[0], b[0], fl)] + [] == [] + [Result(op, w, a[0], b[0], fl)];
    }
  }

  /**
   After a subtraction chain that starts without a borrow and does nothing after its last
   limb, the condition codes order the two numbers: B and AE unsigned, L and GE signed.
   */
  lemma ChainCompares(w: nat, a: seq<nat>, b: seq<nat>, fl: Word, mid: seq<seq<Between>>)
    requires w > 0 && a != [] && |a| == |b| == |mid| && AreLimbs(a, w) && AreLimbs(b, w)
    requires !HasFlag(fl, CF) && mid[|a| - 1] == []
    ensures var g := Chain(Sbb, w, a, b, fl, mid).1;
            && (Cond(0x2, g) <==> Value(a, w) < Value(b, w))
            && (Cond(0x3, g) <==> Value(a, w) >= Value(b, w))
            && (Cond(0xC, g) <==> SignedValue(a, w) < SignedValue(b, w))
            && (Cond(0xD, g) <==> SignedValue(a, w) >= SignedValue(b, w))
  {
    hide Flags, Result, Bit, Value, SignedValue, Base;
    UnsignedOrder(w, a, b, fl, mid);
    SignedOrder(w, a, b, fl, mid);
  }

  lemma UnsignedOrder(w: nat, a: seq<nat>, b: seq<nat>, fl: Word, mid: seq<seq<Between>>)
    requires w > 0 && |a| == |b| == |mid| && AreLimbs(a, w) && AreLimbs(b, w)
    requires !HasFlag(fl, CF)
    ensures HasFlag(Chain(Sbb, w, a, b, fl, mid).1, CF) <==> Value(a, w) < Value(b, w)
  {
    hide Bit, Chain, Value, Base;
    var (r, g) := Chain(Sbb, w, a, b, fl, mid);
    ChainSubtracts(w, a, b, fl, mid);
    ValueBound(r, w);
  }

  lemma SignedOrder(w: nat, a: seq<nat>, b: seq<nat>, fl: Word, mid: seq<seq<Between>>)
    requires w > 0 && a != [] && |a| == |b| == |mid| && AreLimbs(a, w) && AreLimbs(b, w)
    requires !HasFlag(fl, CF) && mid[|a| - 1] == []
    ensures var g := Chain(Sbb, w, a, b, fl, mid).1;
            HasFlag(g, SF) != HasFlag(g, OF) <==> SignedValue(a, w) < SignedValue(b, w)
  {
    hide Flags, Result, Bit, Chain, Value, Base, Signed;
    var top := |a| - 1;
    var (r, f) := Chain(Sbb, w, a[..top], b[..top], fl, mid[..top]);
    ChainSplits(Sbb, w, a, b, fl, mid);
    ChainSubtracts(w, a[..top], b[..top], fl, mid[..top]);
    ValueBound(r, w);
    Takes(Sbb, w, a[top], b[top], f);
    Orders(Value(a[..top], w), Value(b[..top], w), Value(r, w), Base(w, top),
           Signed(a[top], w), Signed(b[top], w), Carry(f));
  }

  lemma Orders(a: int, b: int, r: int, base: int, x: int, y: int, c: int)
    requires 0 <= r < base && r == a - b + base * c
    ensures a + base * x < b + base * y <==> x - y - c < 0
  {
    SignOf(r, base, x - y - c);
    assert base * (x - y - c) == base * x - base * y - base * c;
  }

  lemma SignOf(low: int, base: int, d: int)
    requires 0 <= low < base
    ensures low + base * d < 0 <==> d < 0
  {
    if d < 0 { MulMono(d, -1, base); } else { MulMono(0, d, base); }
  }
}
