/**
 The string instructions with REP, REPE and REPNE (opcodes A4-AF in `src/cpu.cpp`), for
 either operand width, address width and direction.
 */
module Strings {
  import opened Widths
  import opened Bits
  import opened FlatMemory
  import opened Machine
  import opened Alu

  datatype StringOp = Movs | Stos | Lods | Cmps | Scas

  datatype Prefix = Repe | Repne

  /** Operand width in bytes. */
  type Size = n: int | n == 1 || n == 2 || n == 4 witness 1

  /** One decoded instruction: operand width, 32-bit addressing, and the source segment. */
  datatype Form = Form(op: StringOp, w: Size, wide: bool, seg: Segment)

  predicate Compares(op: StringOp) { op.Cmps? || op.Scas? }

  predicate ReadsSource(op: StringOp) { op.Movs? || op.Lods? || op.Cmps? }

  /** An index or count register seen through the address width, and moved by `d`. */
  function Index(r: Reg, wide: bool): Dword { if wide then Gd(r) else r.lo }

  function Bump(r: Reg, wide: bool, d: int): Reg {
    if wide then Sd(U32(Gd(r) + d)) else r.(lo := U16(r.lo + d))
  }

  function Delta(fl: Word, w: Size): int { if HasFlag(fl, DF) then 0 - w else w }

  /** Where elements are read from and written to. */
  function Source(e: Env, s: State, f: Form): Dword { Lin(e, s, f.seg, Index(s.si, f.wide)) }

  function Target(e: Env, s: State, f: Form): Dword { Lin(e, s, s.es, Index(s.di, f.wide)) }

  /** AL, AX or EAX. */
  function Accumulator(r: Reg, w: Size): Dword { if w == 1 then LowByte(r) else if w == 2 then r.lo else Gd(r) }

  function LoadAccumulator(r: Reg, w: Size, v: nat): Reg {
    if w == 1 then SetLowByte(r, v % M8) else if w == 2 then r.(lo := U16(v)) else Sd(U32(v))
  }

  /** The left operand of a comparison. */
  function Compared(e: Env, c: Core, f: Form): nat {
    if f.op.Cmps? then Load(c.m, Source(e, c.s, f), f.w) else Accumulator(c.s.ax, f.w)
  }

  /** The instruction without a prefix. */
  function Single(e: Env, c: Core, f: Form): Core {
    var s, d := c.s, Delta(c.s.flags, f.w);
    var from, to := Source(e, s, f), Target(e, s, f);
    var si, di := Bump(s.si, f.wide, d), Bump(s.di, f.wide, d);
    match f.op
    case Movs => Core(s.(si := si, di := di), Store(c.m, to, f.w, Load(c.m, from, f.w)))
    case Stos => Core(s.(di := di), Store(c.m, to, f.w, Accumulator(s.ax, f.w)))
    case Lods => Core(s.(ax := LoadAccumulator(s.ax, f.w, Load(c.m, from, f.w)), si := si), c.m)
    case Cmps =>
      Core(s.(flags := Flags(Cmp, 8 * f.w, Compared(e, c, f), Load(c.m, to, f.w), s.flags), si := si, di := di), c.m)
    case Scas => Core(s.(flags := Flags(Cmp, 8 * f.w, Compared(e, c, f), Load(c.m, to, f.w), s.flags), di := di), c.m)
  }

  /** One turn of the REP loop: count down, then the instruction. */
  function Iteration(e: Env, c: Core, f: Form): Core {
    Single(e, c.(s := c.s.(cx := Bump(c.s.cx, f.wide, -1))), f)
  }

  /** A comparison ends the loop when ZF is not what the prefix repeats on. */
  predicate Stops(f: Form, p: Prefix, s: State) { Compares(f.op) && HasFlag(s.flags, ZF) == p.Repne? }

  /** The whole prefixed instruction. */
  function Repeat(e: Env, c: Core, f: Form, p: Prefix): Core
    decreases Index(c.s.cx, f.wide)
  {
    CountsDown(e, c, f);
    if Index(c.s.cx, f.wide) == 0 then c
    else
      var c1 := Iteration(e, c, f);
      if Stops(f, p, c1.s) then c1 else Repeat(e, c1, f, p)
  }

  lemma CountsDown(e: Env, c: Core, f: Form)
    ensures Iteration(e, c, f).s.cx == Bump(c.s.cx, f.wide, -1)
    ensures Index(c.s.cx, f.wide) > 0 ==> Index(Bump(c.s.cx, f.wide, -1), f.wide) == Index(c.s.cx, f.wide) - 1
  {
    hide Load, Store, Lin, Flags, Delta;
  }

  /** `n` turns of the loop, whatever the count and the flags say. */
  function After(e: Env, c: Core, f: Form, n: nat): Core
    decreases n
  {
    if n == 0 then c else Iteration(e, After(e, c, f, n - 1), f)
  }

  lemma {:induction false} AfterPeels(e: Env, c: Core, f: Form, n: nat)
    ensures After(e, c, f, n + 1) == After(e, Iteration(e, c, f), f, n)
    decreases n
  {
    hide Iteration;
    if n > 0 { AfterPeels(e, c, f, n - 1); }
  }

  // ---- registers ---------------------------------------------------------------------

  lemma BumpTwice(r: Reg, wide: bool, a: int, b: int)
    ensures Bump(Bump(r, wide, a), wide, b) == Bump(r, wide, a + b)
    ensures Bump(r, wide, 0) == r
  {
    if wide { BumpWide(r, a, b); } else { BumpNarrow(r, a, b); }
  }

  lemma BumpWide(r: Reg, a: int, b: int)
    ensures Bump(Bump(r, true, a), true, b) == Bump(r, true, a + b) && Bump(r, true, 0) == r
  {
    hide Gd, Sd, U32;
    var g: int := Gd(r);
    GdSd(U32(g + a), r);
    AddAgain(g + a, b);
    AddAgain(g, 0);
  }

  lemma BumpNarrow(r: Reg, a: int, b: int)
    ensures Bump(Bump(r, false, a), false, b) == Bump(r, false, a + b) && Bump(r, false, 0) == r
  {
    ModAdd(r.lo + a, b, M16);
  }

  lemma AddAgain(x: int, b: int)
    ensures U32(U32(x) + b) == U32(x + b) && (0 <= x < M32 ==> U32(x) == x)
  {
    ModAdd(x, b, M32);
  }

  /** A comparison leaves the direction flag alone. */
  lemma SameDirection(fl: Word, w: nat, a: nat, b: nat, f: Form)
    requires w > 0
    ensures Delta(Flags(Cmp, w, a, b, fl), f.w) == Delta(fl, f.w)
  {
    StatusSet(fl, StatusOf(Cmp, w, a, b, Wide(Cmp, w, a, b, fl)));
    hide SetStatus, StatusOf, Bit;
  }

  /** What one turn does to the registers. */
  lemma SingleRegisters(e: Env, c: Core, f: Form)
    ensures var (s, t, d) := (c.s, Single(e, c, f).s, Delta(c.s.flags, f.w));
            && t == s.(si := if ReadsSource(f.op) then Bump(s.si, f.wide, d) else s.si,
                       di := if f.op.Lods? then s.di else Bump(s.di, f.wide, d),
                       ax := t.ax, flags := t.flags)
            && (!f.op.Lods? ==> t.ax == s.ax) && (!Compares(f.op) ==> t.flags == s.flags)
            && Delta(t.flags, f.w) == d
  {
    hide Bump, Source, Target, Flags, HasFlag, Load, Store, Compared, LoadAccumulator;
    SameDirection(c.s.flags, 8 * f.w, Compared(e, c, f), Load(c.m, Target(e, c.s, f), f.w), f);
  }

  /** After `n` turns the indices have advanced by `n` elements and the count dropped by `n`. */
  lemma {:induction false} Registers(e: Env, c: Core, f: Form, n: nat)
    ensures var (s, t, d) := (c.s, After(e, c, f, n).s, Delta(c.s.flags, f.w));
            && t == s.(cx := Bump(s.cx, f.wide, 0 - n),
                       si := if ReadsSource(f.op) then Bump(s.si, f.wide, n * d) else s.si,
                       di := if f.op.Lods? then s.di else Bump(s.di, f.wide, n * d),
                       ax := t.ax, flags := t.flags)
            && (!f.op.Lods? ==> t.ax == s.ax) && (!Compares(f.op) ==> t.flags == s.flags)
            && Delta(t.flags, f.w) == d
    decreases n
  {
    hide Bump, Single, Delta;
    var d := Delta(c.s.flags, f.w);
    if n == 0 {
      BumpTwice(c.s.cx, f.wide, 0, 0);
      BumpTwice(c.s.si, f.wide, 0, 0);
      BumpTwice(c.s.di, f.wide, 0, 0);
      assert 0 * d == 0;
    } else {
      Registers(e, c, f, n - 1);
      var c1 := After(e, c, f, n - 1);
      var c2 := c1.(s := c1.s.(cx := Bump(c1.s.cx, f.wide, -1)));
      SingleRegisters(e, c2, f);
      BumpTwice(c.s.cx, f.wide, 0 - (n - 1), -1);
      BumpTwice(c.s.si, f.wide, (n - 1) * d, d);
      BumpTwice(c.s.di, f.wide, (n - 1) * d, d);
      assert (n - 1) * d + d == n * d;
    }
  }

  /** The addresses of element `k`. */
  function SourceAt(e: Env, c: Core, f: Form, k: nat): Dword {
    Lin(e, c.s, f.seg, Index(Bump(c.s.si, f.wide, k * Delta(c.s.flags, f.w)), f.wide))
  }

  function TargetAt(e: Env, c: Core, f: Form, k: nat): Dword {
    Lin(e, c.s, c.s.es, Index(Bump(c.s.di, f.wide, k * Delta(c.s.flags, f.w)), f.wide))
  }

  lemma Elements(e: Env, c: Core, f: Form, n: nat)
    ensures var c1 := After(e, c, f, n);
            var s2 := c1.s.(cx := Bump(c1.s.cx, f.wide, -1));
            && (ReadsSource(f.op) ==> Source(e, s2, f) == SourceAt(e, c, f, n))
            && (!f.op.Lods? ==> Target(e, s2, f) == TargetAt(e, c, f, n))
  {
    Registers(e, c, f, n);
    hide Bump, After, Delta, Index;
  }

  // ---- moving and filling ------------------------------------------------------------

  /** Without a comparison the loop runs the count down to zero. */
  lemma {:induction false} RunsOut(e: Env, c: Core, f: Form, p: Prefix)
    requires !Compares(f.op)
    ensures Repeat(e, c, f, p) == After(e, c, f, Index(c.s.cx, f.wide))
    decreases Index(c.s.cx, f.wide)
  {
    hide Iteration, Index, Bump;
    var n := Index(c.s.cx, f.wide);
    if n > 0 {
      CountsDown(e, c, f);
      RunsOut(e, Iteration(e, c, f), f, p);
      AfterPeels(e, c, f, n - 1);
    }
  }

  /** No element is written over another's target, nor over a source still to be read. */
  ghost predicate Undisturbed(e: Env, c: Core, f: Form, n: nat) {
    forall j: nat, k: nat {:trigger TargetAt(e, c, f, j), TargetAt(e, c, f, k)} :: j < k < n ==>
      && Apart(TargetAt(e, c, f, j), f.w, TargetAt(e, c, f, k), f.w)
      && Apart(TargetAt(e, c, f, j), f.w, SourceAt(e, c, f, k), f.w)
  }

  /** Address `b` lies in none of the first `n` elements written. */
  ghost predicate Beyond(e: Env, c: Core, f: Form, n: nat, b: int) {
    forall k: nat {:trigger TargetAt(e, c, f, k)} :: k < n ==> U32(b - TargetAt(e, c, f, k)) >= f.w
  }

  /** One turn of MOVS or STOS writes element `n`, and nothing else. */
  lemma MemoryStep(e: Env, c: Core, f: Form, n: nat)
    requires f.op.Movs? || f.op.Stos?
    ensures var m := After(e, c, f, n).m;
            After(e, c, f, n + 1).m
            == Store(m, TargetAt(e, c, f, n), f.w,
                     if f.op.Movs? then Load(m, SourceAt(e, c, f, n), f.w) else Accumulator(c.s.ax, f.w))
  {
    hide Bump, Load, Store, Source, Target, SourceAt, TargetAt, Accumulator;
    Elements(e, c, f, n);
    Registers(e, c, f, n);
    assert After(e, c, f, n + 1) == Iteration(e, After(e, c, f, n), f);
    hide After;
  }

  /** Bytes outside every target keep their value. */
  lemma {:induction false} BeyondKept(e: Env, c: Core, f: Form, n: nat, b: int)
    requires (f.op.Movs? || f.op.Stos?) && Beyond(e, c, f, n, b)
    ensures Get8(After(e, c, f, n).m, b) == Get8(c.m, b)
    decreases n
  {
    hide Load, Store, Get8, SourceAt, TargetAt, Accumulator, Iteration, U32;
    if n > 0 {
      BeyondKept(e, c, f, n - 1, b);
      MemoryStep(e, c, f, n - 1);
      var m := After(e, c, f, n - 1).m;
      assert U32(b - TargetAt(e, c, f, n - 1)) >= f.w;
      StoreElsewhere(m, TargetAt(e, c, f, n - 1), f.w,
                     if f.op.Movs? then Load(m, SourceAt(e, c, f, n - 1), f.w) else Accumulator(c.s.ax, f.w), b);
    }
  }

  /** A source no earlier element was written over still holds what it held. */
  lemma SourceKept(e: Env, c: Core, f: Form, n: nat, a: int)
    requires f.op.Movs?
    requires forall j: nat {:trigger TargetAt(e, c, f, j)} :: j < n ==> Apart(TargetAt(e, c, f, j), f.w, a, f.w)
    ensures Load(After(e, c, f, n).m, a, f.w) == Load(c.m, a, f.w)
  {
    hide Load, SourceAt, TargetAt, After, Get8;
    forall b: int | U32(b - a) < f.w ensures Get8(After(e, c, f, n).m, b) == Get8(c.m, b) {
      forall j: nat | j < n ensures U32(b - TargetAt(e, c, f, j)) >= f.w {
        OutsideStays(TargetAt(e, c, f, j), f.w, a, f.w, b);
      }
      BeyondKept(e, c, f, n, b);
    }
    LoadSame(c.m, After(e, c, f, n).m, a, f.w);
  }

  /** REP MOVS on undisturbed elements copies each one as it was. */
  lemma {:induction false} Copies(e: Env, c: Core, f: Form, n: nat, k: nat)
    requires f.op.Movs? && Undisturbed(e, c, f, n) && k < n
    ensures Load(After(e, c, f, n).m, TargetAt(e, c, f, k), f.w) == Load(c.m, SourceAt(e, c, f, k), f.w)
    decreases n
  {
    hide Load, Store, SourceAt, TargetAt, After, Apart, Pow256;
    var m, to, from := After(e, c, f, n - 1).m, TargetAt(e, c, f, n - 1), SourceAt(e, c, f, n - 1);
    var v := Load(m, from, f.w);
    MemoryStep(e, c, f, n - 1);
    if k == n - 1 {
      SourceKept(e, c, f, n - 1, from);
      LoadAfterStore(m, to, f.w, v);
      LoadBound(m, from, f.w);
    } else {
      Copies(e, c, f, n - 1, k);
      ApartFlips(TargetAt(e, c, f, k), f.w, to, f.w);
      LoadAfterStoreApart(m, to, f.w, v, TargetAt(e, c, f, k), f.w);
    }
  }

  /** Of the first `n` elements none after `k` is written across part of it: each is the same place or apart. */
  ghost predicate Uncut(e: Env, c: Core, f: Form, n: nat, k: nat) {
    forall i: nat {:trigger TargetAt(e, c, f, i)} :: k < i < n ==>
      || TargetAt(e, c, f, i) == TargetAt(e, c, f, k)
      || Apart(TargetAt(e, c, f, i), f.w, TargetAt(e, c, f, k), f.w)
  }

  /** REP STOS leaves the accumulator in each element no later one cuts into. */
  lemma {:induction false} Fills(e: Env, c: Core, f: Form, n: nat, k: nat)
    requires f.op.Stos? && k < n && Uncut(e, c, f, n, k)
    ensures Load(After(e, c, f, n).m, TargetAt(e, c, f, k), f.w) == Accumulator(c.s.ax, f.w)
    decreases n
  {
    hide Load, Store, SourceAt, TargetAt, After, Apart;
    var m, to, at := After(e, c, f, n - 1).m, TargetAt(e, c, f, n - 1), TargetAt(e, c, f, k);
    var v := Accumulator(c.s.ax, f.w);
    MemoryStep(e, c, f, n - 1);
    if to == at {
      AccumulatorFits(c.s.ax, f.w);
      LoadAfterStore(m, to, f.w, v);
    } else {
      Fills(e, c, f, n - 1, k);
      LoadAfterStoreApart(m, to, f.w, v, at, f.w);
    }
  }

  lemma AccumulatorFits(r: Reg, w: Size)
    ensures Accumulator(r, w) < Pow256(w)
  {
    Sizes();
  }

  /** What REP leaves in the registers of a MOVS, STOS or LODS. */
  predicate Ran(f: Form, s: State, t: State) {
    var n, d := Index(s.cx, f.wide), Delta(s.flags, f.w);
    && t == s.(cx := t.cx, ax := t.ax,
               si := if ReadsSource(f.op) then Bump(s.si, f.wide, n * d) else s.si,
               di := if f.op.Lods? then s.di else Bump(s.di, f.wide, n * d))
    && Index(t.cx, f.wide) == 0 && (!f.wide ==> t.cx.hi == s.cx.hi)
  }

  lemma RepRegisters(e: Env, c: Core, f: Form, p: Prefix)
    requires !Compares(f.op)
    ensures Ran(f, c.s, Repeat(e, c, f, p).s)
  {
    var n := Index(c.s.cx, f.wide);
    CountGone(c.s.cx, f.wide);
    hide Bump, After, Repeat, Delta, Index;
    RunsOut(e, c, f, p);
    Registers(e, c, f, n);
  }

  lemma CountGone(r: Reg, wide: bool)
    ensures var t := Bump(r, wide, 0 - Index(r, wide)); Index(t, wide) == 0 && (!wide ==> t.hi == r.hi)
  {
  }

  /** REP MOVS, whole: every element copied as it was, nothing else written, count run out. */
  lemma RepMovs(e: Env, c: Core, f: Form, p: Prefix)
    requires f.op.Movs? && Undisturbed(e, c, f, Index(c.s.cx, f.wide))
    ensures var n, c' := Index(c.s.cx, f.wide), Repeat(e, c, f, p);
            && Ran(f, c.s, c'.s) && c'.s.ax == c.s.ax
            && (forall k: nat {:trigger TargetAt(e, c, f, k)} :: k < n ==>
                  Load(c'.m, TargetAt(e, c, f, k), f.w) == Load(c.m, SourceAt(e, c, f, k), f.w))
            && (forall b: int {:trigger Get8(c'.m, b)} :: Beyond(e, c, f, n, b) ==> Get8(c'.m, b) == Get8(c.m, b))
  {
    hide After, Repeat, Load, TargetAt, SourceAt, Beyond, Undisturbed, Get8, Index, Bump, Ran;
    var n, c' := Index(c.s.cx, f.wide), Repeat(e, c, f, p);
    RepRegisters(e, c, f, p);
    RunsOut(e, c, f, p);
    Registers(e, c, f, n);
    forall k: nat | k < n ensures Load(c'.m, TargetAt(e, c, f, k), f.w) == Load(c.m, SourceAt(e, c, f, k), f.w) {
      Copies(e, c, f, n, k);
    }
    forall b: int | Beyond(e, c, f, n, b) ensures Get8(c'.m, b) == Get8(c.m, b) { BeyondKept(e, c, f, n, b); }
  }

  /** REP STOS, whole, even when the index wraps around onto places already filled. */
  lemma RepStos(e: Env, c: Core, f: Form, p: Prefix)
    requires f.op.Stos?
    ensures var n, c' := Index(c.s.cx, f.wide), Repeat(e, c, f, p);
            && Ran(f, c.s, c'.s) && c'.s.ax == c.s.ax
            && (forall k: nat {:trigger TargetAt(e, c, f, k)} :: k < n && Uncut(e, c, f, n, k) ==>
                  Load(c'.m, TargetAt(e, c, f, k), f.w) == Accumulator(c.s.ax, f.w))
            && (forall b: int {:trigger Get8(c'.m, b)} :: Beyond(e, c, f, n, b) ==> Get8(c'.m, b) == Get8(c.m, b))
  {
    hide After, Repeat, Load, TargetAt, SourceAt, Beyond, Get8, Index, Bump, Ran, Uncut, Accumulator;
    var n, c' := Index(c.s.cx, f.wide), Repeat(e, c, f, p);
    RepRegisters(e, c, f, p);
    RunsOut(e, c, f, p);
    Registers(e, c, f, n);
    forall k: nat | k < n && Uncut(e, c, f, n, k)
      ensures Load(c'.m, TargetAt(e, c, f, k), f.w) == Accumulator(c.s.ax, f.w)
    {
      Fills(e, c, f, n, k);
    }
    forall b: int | Beyond(e, c, f, n, b) ensures Get8(c'.m, b) == Get8(c.m, b) { BeyondKept(e, c, f, n, b); }
  }

  /** The part of the accumulator a load of width `w` leaves alone. */
  function Above(r: Reg, w: Size): (int, int) {
    if w == 1 then (r.lo / M8, r.hi) else if w == 2 then (0, r.hi) else (0, 0)
  }

  lemma LoadsPart(r: Reg, w: Size, v: nat)
    requires v < Pow256(w)
    ensures Accumulator(LoadAccumulator(r, w, v), w) == v && Above(LoadAccumulator(r, w, v), w) == Above(r, w)
  {
    AccumulatorFits(r, w);
    Sizes();
    hide Pow256;
    if w == 1 { LowPart(r.lo, v); } else if w == 4 { GdSd(v, r); }
  }

  lemma LowPart(lo: Word, v: Byte)
    ensures var x := lo - lo % M8 + v; 0 <= x < M16 && x % M8 == v && x / M8 == lo / M8
  {
  }

  lemma {:induction false} LodsLast(e: Env, c: Core, f: Form, n: nat)
    requires f.op.Lods? && n > 0
    ensures var c' := After(e, c, f, n);
            && c'.m == c.m && Above(c'.s.ax, f.w) == Above(c.s.ax, f.w)
            && Accumulator(c'.s.ax, f.w) == Load(c.m, SourceAt(e, c, f, n - 1), f.w)
    decreases n
  {
    hide Bump, Load, Source, Target, SourceAt, Accumulator, LoadAccumulator, Above;
    var c1 := After(e, c, f, n - 1);
    if n > 1 { LodsLast(e, c, f, n - 1); } else { AfterNone(e, c, f); }
    Elements(e, c, f, n - 1);
    LoadBound(c.m, SourceAt(e, c, f, n - 1), f.w);
    LoadsPart(c1.s.ax, f.w, Load(c.m, SourceAt(e, c, f, n - 1), f.w));
    assert After(e, c, f, n) == Iteration(e, c1, f);
    hide After;
  }

  /** REP LODS leaves the last element in the accumulator, and AH alone when it loads bytes. */
  lemma RepLods(e: Env, c: Core, f: Form, p: Prefix)
    requires f.op.Lods? && Index(c.s.cx, f.wide) > 0
    ensures var n, c' := Index(c.s.cx, f.wide), Repeat(e, c, f, p);
            && c'.m == c.m && Ran(f, c.s, c'.s) && Above(c'.s.ax, f.w) == Above(c.s.ax, f.w)
            && Accumulator(c'.s.ax, f.w) == Load(c.m, SourceAt(e, c, f, n - 1), f.w)
  {
    hide After, Repeat, Load, SourceAt, Index, Bump, Ran, Accumulator, Above;
    RepRegisters(e, c, f, p);
    RunsOut(e, c, f, p);
    LodsLast(e, c, f, Index(c.s.cx, f.wide));
  }

  // ---- overlapping copies ------------------------------------------------------------

  /** The `n` elements from index `i` on follow each other in memory: nothing wraps or folds. */
  predicate Straight(e: Env, s: State, g: Segment, i: Dword, f: Form, n: nat) {
    var d := Delta(s.flags, f.w);
    var last := i + (n - 1) * d;
    var lo, hi := if d > 0 then i else last, if d > 0 then last else i;
    n > 0 ==> && 0 <= lo && hi < (if f.wide then M32 else M16) && g.base + hi + f.w <= M32
              && (!Pe(s) && !e.a20 ==> g.base + hi < 0x10_0000)
  }

  lemma StraightAt(e: Env, s: State, g: Segment, r: Reg, f: Form, n: nat, k: nat)
    requires Straight(e, s, g, Index(r, f.wide), f, n) && k < n
    ensures var d := Delta(s.flags, f.w);
            Lin(e, s, g, Index(Bump(r, f.wide, k * d), f.wide)) == g.base + Index(r, f.wide) + k * d
            && 0 <= g.base + Index(r, f.wide) + k * d <= M32 - f.w
  {
    var d, i := Delta(s.flags, f.w), Index(r, f.wide);
    Inside(n, k, d);
    hide Delta, Bump, Index, Lin;
    BumpInside(r, f.wide, k * d);
    LinStraight(e, s, g, i + k * d, f.w);
  }

  lemma Inside(n: nat, k: nat, d: int)
    requires k < n
    ensures if d > 0 then 0 <= k * d <= (n - 1) * d else (n - 1) * d <= k * d <= 0
  {
    if d > 0 {
      MulMono(0, k, d);
      MulMono(k, n - 1, d);
    } else {
      MulMono(0, k, 0 - d);
      MulMono(k, n - 1, 0 - d);
      assert k * d == -(k * (0 - d)) && (n - 1) * d == -((n - 1) * (0 - d));
    }
  }

  lemma LinStraight(e: Env, s: State, g: Segment, off: int, w: Size)
    requires 0 <= off && g.base + off + w <= M32 && (!Pe(s) && !e.a20 ==> g.base + off < 0x10_0000)
    ensures Lin(e, s, g, off) == g.base + off
  {
  }

  lemma BumpInside(r: Reg, wide: bool, x: int)
    requires 0 <= Index(r, wide) + x < if wide then M32 else M16
    ensures Index(Bump(r, wide, x), wide) == Index(r, wide) + x
  {
  }

  predicate BothStraight(e: Env, c: Core, f: Form, n: nat) {
    && Straight(e, c.s, f.seg, Index(c.s.si, f.wide), f, n)
    && Straight(e, c.s, c.s.es, Index(c.s.di, f.wide), f, n)
  }

  /** Where the two runs of elements start. */
  function SourceStart(c: Core, f: Form): int { f.seg.base + Index(c.s.si, f.wide) }

  function TargetStart(c: Core, f: Form): int { c.s.es.base + Index(c.s.di, f.wide) }

  /** Copying upwards to a lower place, downwards to a higher one, or between places that do
      not meet disturbs nothing, so REP MOVS then copies whole overlapping blocks. */
  lemma RightDirection(e: Env, c: Core, f: Form, n: nat)
    requires BothStraight(e, c, f, n)
    requires var from, to := SourceStart(c, f), TargetStart(c, f);
             || (if HasFlag(c.s.flags, DF) then to >= from else to <= from)
             || to >= from + n * f.w || from >= to + n * f.w
    ensures Undisturbed(e, c, f, n)
  {
    hide Straight, Index, Lin, Bump, Delta, HasFlag, Apart, SourceStart, TargetStart, SourceAt, TargetAt;
    forall j: nat, k: nat | j < k < n
      ensures Apart(TargetAt(e, c, f, j), f.w, TargetAt(e, c, f, k), f.w)
      ensures Apart(TargetAt(e, c, f, j), f.w, SourceAt(e, c, f, k), f.w)
    {
      PairApart(e, c, f, n, j, k);
    }
  }

  lemma PairApart(e: Env, c: Core, f: Form, n: nat, j: nat, k: nat)
    requires BothStraight(e, c, f, n)
    requires var from, to := SourceStart(c, f), TargetStart(c, f);
             || (if HasFlag(c.s.flags, DF) then to >= from else to <= from)
             || to >= from + n * f.w || from >= to + n * f.w
    requires j < k < n
    ensures Apart(TargetAt(e, c, f, j), f.w, TargetAt(e, c, f, k), f.w)
    ensures Apart(TargetAt(e, c, f, j), f.w, SourceAt(e, c, f, k), f.w)
  {
    hide BothStraight, SourceAt, TargetAt, SourceStart, TargetStart, HasFlag, Apart;
    var from, to, d := SourceStart(c, f), TargetStart(c, f), Delta(c.s.flags, f.w);
    assert d == if HasFlag(c.s.flags, DF) then 0 - f.w else f.w;
    hide Delta;
    ElementPlaces(e, c, f, n, j);
    ElementPlaces(e, c, f, n, k);
    ApartRuns(to, to, f.w, d, n, j, k);
    ApartRuns(to, from, f.w, d, n, j, k);
  }

  lemma ElementPlaces(e: Env, c: Core, f: Form, n: nat, k: nat)
    requires BothStraight(e, c, f, n) && k < n
    ensures var d := Delta(c.s.flags, f.w);
            && SourceAt(e, c, f, k) == SourceStart(c, f) + k * d <= M32 - f.w
            && TargetAt(e, c, f, k) == TargetStart(c, f) + k * d <= M32 - f.w
  {
    hide Straight, Index, Lin, Bump, Delta;
    StraightAt(e, c.s, f.seg, c.s.si, f, n, k);
    StraightAt(e, c.s, c.s.es, c.s.di, f, n, k);
  }

  /** Element `j` of one run and the later element `k` of another do not meet. */
  lemma ApartRuns(to: int, from: int, w: Size, d: int, n: nat, j: nat, k: nat)
    requires j < k < n && (d == w || d == 0 - w)
    requires (if d < 0 then to >= from else to <= from) || to >= from + n * w || from >= to + n * w
    requires 0 <= to + j * d <= M32 - w && 0 <= from + k * d <= M32 - w
    ensures Apart(to + j * d, w, from + k * d, w)
  {
    var jw, kw, nw := j * w, k * w, n * w;
    assert jw + w <= kw && kw + w <= nw && jw >= 0 by {
      MulMono(j + 1, k, w); MulMono(k + 1, n, w); MulMono(0, j, w);
      assert (j + 1) * w == jw + w && (k + 1) * w == kw + w;
    }
    assert j * d == (if d < 0 then -jw else jw) && k * d == if d < 0 then -kw else kw;
    var x, y := to + j * d, from + k * d;
    assert x + w <= y || y + w <= x;
    ApartInside(x, y, w);
  }

  lemma ApartInside(x: int, y: int, w: Size)
    requires 0 <= x <= M32 - w && 0 <= y <= M32 - w && (x + w <= y || y + w <= x)
    ensures Apart(x, w, y, w)
  {
    if x + w <= y { DivIs(x - y, M32, -1, x - y + M32); } else { DivIs(y - x, M32, -1, y - x + M32); }
  }

  /** Loads that agree read the same bytes. */
  lemma {:induction false} SameBytesOf(m: Ram, a: int, m': Ram, b: int, n: nat, j: nat)
    requires Load(m, a, n) == Load(m', b, n) && j < n
    ensures Get8(m, a + j) == Get8(m', b + j)
    decreases n
  {
    var lo: int, hi: int, lo': int, hi': int := Get8(m, a), Load(m, a + 1, n - 1), Get8(m', b), Load(m', b + 1, n - 1);
    assert lo + M8 * hi == lo' + M8 * hi';
    if j > 0 {
      SameBytesOf(m, a + 1, m', b + 1, n - 1, j - 1);
      assert a + 1 + (j - 1) == a + j && b + 1 + (j - 1) == b + j;
    }
  }

  // Runs of elements of `w` bytes, `d` apart, where `d` is `w` or its opposite. Bytes of a run
  // are counted in the direction it goes: element `k` holds those from `Before(k, w)` on.

  function Before(k: nat, w: Size): nat { k * w }

  function Place(start: int, d: int, k: nat): int { start + k * d }

  function ByteAt(start: int, d: int, x: nat): int { if d > 0 then start + x else start - d - 1 - x }

  predicate Strides(d: int, w: Size) { d == w || d == 0 - w }

  lemma BeforeNext(k: nat, w: Size)
    ensures Before(k + 1, w) == Before(k, w) + w
  {
  }

  /** Where in element `k` byte `x` of the run is. */
  function Within(d: int, w: Size, k: nat, x: nat): (j: nat)
    requires Before(k, w) <= x < Before(k, w) + w
    ensures j < w
  {
    if d > 0 then x - Before(k, w) else w - 1 - (x - Before(k, w))
  }

  lemma ByteIs(start: int, d: int, w: Size, k: nat, x: nat)
    requires Strides(d, w) && Before(k, w) <= x < Before(k, w) + w
    ensures ByteAt(start, d, x) == Place(start, d, k) + Within(d, w, k, x)
  {
    if d < 0 { assert k * d == -(k * w); }
  }

  /** A byte of an earlier element, or one ahead of the whole run, is not in element `k`. */
  lemma NotInElement(start: int, d: int, w: Size, k: nat, x: nat)
    requires Strides(d, w)
    ensures var b := ByteAt(start, d, x);
            x < Before(k, w) ==> b < Place(start, d, k) || b >= Place(start, d, k) + w
  {
    if d < 0 { assert k * d == -(k * w); }
  }

  lemma AheadOfRun(start: int, d: int, w: Size, k: nat, gap: nat, x: nat)
    requires Strides(d, w) && x < gap
    ensures var b := ByteAt(if d > 0 then start - gap else start + gap, d, x);
            b < Place(start, d, k) || b >= Place(start, d, k) + w
  {
    if d < 0 { assert k * d == -(k * w); }
    MulMono(0, k, w);
  }

  lemma NextRun(start: int, d: int, gap: nat, x: nat)
    requires x >= gap
    ensures ByteAt(start, d, x) == ByteAt(if d > 0 then start + gap else start - gap, d, x - gap)
  {
  }

  /** The elements lie as a run of sources and a run of targets, none of them wrapping. */
  ghost predicate Spaced(e: Env, c: Core, f: Form, n: nat, from: int, to: int, d: int) {
    && Strides(d, f.w)
    && forall k: nat {:trigger SourceAt(e, c, f, k)} {:trigger TargetAt(e, c, f, k)} :: k < n ==>
         && SourceAt(e, c, f, k) == Place(from, d, k) <= M32 - f.w
         && TargetAt(e, c, f, k) == Place(to, d, k) <= M32 - f.w
  }

  lemma SpacedWhenStraight(e: Env, c: Core, f: Form, n: nat)
    requires BothStraight(e, c, f, n)
    ensures Spaced(e, c, f, n, SourceStart(c, f), TargetStart(c, f), Delta(c.s.flags, f.w))
  {
    assert Strides(Delta(c.s.flags, f.w), f.w);
    hide BothStraight, SourceAt, TargetAt, SourceStart, TargetStart, Delta;
    forall k: nat | k < n
      ensures SourceAt(e, c, f, k) == Place(SourceStart(c, f), Delta(c.s.flags, f.w), k) <= M32 - f.w
      ensures TargetAt(e, c, f, k) == Place(TargetStart(c, f), Delta(c.s.flags, f.w), k) <= M32 - f.w
    {
      ElementPlaces(e, c, f, n, k);
    }
  }

  /** One more element: its bytes are copied, whatever else they overlap. */
  lemma ElementBytes(e: Env, c: Core, f: Form, n: nat, j: nat)
    requires f.op.Movs? && j < f.w
    ensures Get8(After(e, c, f, n + 1).m, TargetAt(e, c, f, n) + j)
            == Get8(After(e, c, f, n).m, SourceAt(e, c, f, n) + j)
  {
    hide Load, Store, SourceAt, TargetAt, After, Get8, Pow256;
    var m, from, to := After(e, c, f, n).m, SourceAt(e, c, f, n), TargetAt(e, c, f, n);
    MemoryStep(e, c, f, n);
    LoadBound(m, from, f.w);
    LoadAfterStore(m, to, f.w, Load(m, from, f.w));
    SmallMod(Load(m, from, f.w), Pow256(f.w));
    SameBytesOf(After(e, c, f, n + 1).m, to, m, from, f.w, j);
  }

  lemma SmallMod(x: nat, p: nat)
    requires x < p
    ensures x % p == x
  {
  }

  lemma ElementElsewhere(e: Env, c: Core, f: Form, n: nat, b: int)
    requires f.op.Movs? && 0 <= b < M32 && TargetAt(e, c, f, n) <= M32 - f.w
    requires b < TargetAt(e, c, f, n) || b >= TargetAt(e, c, f, n) + f.w
    ensures Get8(After(e, c, f, n + 1).m, b) == Get8(After(e, c, f, n).m, b)
  {
    hide Load, Store, SourceAt, After, Get8;
    var m, to := After(e, c, f, n).m, TargetAt(e, c, f, n);
    hide TargetAt;
    MemoryStep(e, c, f, n);
    NotInside(to, b, f.w);
    StoreElsewhere(m, to, f.w, Load(m, SourceAt(e, c, f, n), f.w), b);
  }

  lemma NotInside(a: int, b: int, w: Size)
    requires 0 <= a <= M32 - w && 0 <= b < M32 && (b < a || b >= a + w)
    ensures U32(b - a) >= w
  {
    if b < a { DivIs(b - a, M32, -1, b - a + M32); }
  }

  /** The last element's bytes come from its source as it was by then; all others stay. */
  lemma LastElement(e: Env, c: Core, f: Form, n: nat, from: int, to: int, d: int, x: nat)
    requires f.op.Movs? && n > 0 && x < Before(n, f.w) && Spaced(e, c, f, n, from, to, d)
    ensures Get8(After(e, c, f, n).m, ByteAt(to, d, x))
            == Get8(After(e, c, f, n - 1).m, if x < Before(n - 1, f.w) then ByteAt(to, d, x) else ByteAt(from, d, x))
  {
    hide SourceAt, TargetAt, After, Get8, Place, ByteAt, Before, Within;
    var last := n - 1;
    assert SourceAt(e, c, f, last) == Place(from, d, last) && TargetAt(e, c, f, last) == Place(to, d, last);
    BeforeNext(last, f.w);
    InMemory(e, c, f, n, from, to, d, x);
    if x < Before(last, f.w) {
      NotInElement(to, d, f.w, last, x);
      ElementElsewhere(e, c, f, last, ByteAt(to, d, x));
    } else {
      ByteIs(to, d, f.w, last, x);
      ByteIs(from, d, f.w, last, x);
      ElementBytes(e, c, f, last, Within(d, f.w, last, x));
    }
  }

  /** Byte by byte, a copy to a place `gap` ahead repeats the first `gap` bytes. */
  lemma {:induction false} RunRepeats(e: Env, c: Core, f: Form, n: nat, from: int, to: int, d: int, gap: nat, x: nat)
    requires f.op.Movs? && gap >= f.w && x < Before(n, f.w)
    requires Spaced(e, c, f, n, from, to, d) && to == if d > 0 then from + gap else from - gap
    ensures Get8(After(e, c, f, n).m, ByteAt(to, d, x)) == Get8(c.m, ByteAt(from, d, x % gap))
    decreases n
  {
    if n == 0 { BeforeNone(f.w); }
    hide Spaced, After, Get8, ByteAt, Before;
    BeforeNext(n - 1, f.w);
    LastElement(e, c, f, n, from, to, d, x);
    SpacedFewer(e, c, f, n, from, to, d);
    if x < Before(n - 1, f.w) {
      RunRepeats(e, c, f, n - 1, from, to, d, gap, x);
    } else if x < gap {
      SmallMod(x, gap);
      OwnByte(e, c, f, n - 1, from, to, d, gap, x);
    } else {
      RunRepeats(e, c, f, n - 1, from, to, d, gap, x - gap);
      GapBack(x, gap);
      NextRun(from, d, gap, x);
    }
  }

  lemma BeforeNone(w: Size)
    ensures Before(0, w) == 0
  {
  }

  lemma GapBack(x: nat, gap: nat)
    requires 0 < gap <= x
    ensures (x - gap) % gap == x % gap
  {
    ModShift(x - gap, 1, gap);
    assert x - gap + 1 * gap == x;
  }

  lemma SpacedFewer(e: Env, c: Core, f: Form, n: nat, from: int, to: int, d: int)
    requires n > 0 && Spaced(e, c, f, n, from, to, d)
    ensures Spaced(e, c, f, n - 1, from, to, d)
  {
    hide SourceAt, TargetAt, Place;
  }

  lemma {:induction false} InMemory(e: Env, c: Core, f: Form, n: nat, from: int, to: int, d: int, x: nat)
    requires Spaced(e, c, f, n, from, to, d) && x < Before(n, f.w)
    ensures 0 <= ByteAt(to, d, x) < M32 && 0 <= ByteAt(from, d, x) < M32
    decreases n
  {
    if n == 0 { BeforeNone(f.w); }
    hide SourceAt, TargetAt, Place, ByteAt, Before, Within;
    BeforeNext(n - 1, f.w);
    SpacedFewer(e, c, f, n, from, to, d);
    if x < Before(n - 1, f.w) {
      InMemory(e, c, f, n - 1, from, to, d, x);
    } else {
      assert SourceAt(e, c, f, n - 1) == Place(from, d, n - 1) && TargetAt(e, c, f, n - 1) == Place(to, d, n - 1);
      ByteIs(to, d, f.w, n - 1, x);
      ByteIs(from, d, f.w, n - 1, x);
    }
  }

  /** A source byte ahead of every target is still the original. */
  lemma OwnByte(e: Env, c: Core, f: Form, n: nat, from: int, to: int, d: int, gap: nat, x: nat)
    requires f.op.Movs? && x < gap && Spaced(e, c, f, n + 1, from, to, d) && x < Before(n + 1, f.w)
    requires to == if d > 0 then from + gap else from - gap
    ensures Get8(After(e, c, f, n).m, ByteAt(from, d, x)) == Get8(c.m, ByteAt(from, d, x))
  {
    hide After, Get8, SourceAt, TargetAt, Place, ByteAt, Before, U32;
    var b := ByteAt(from, d, x);
    InMemory(e, c, f, n + 1, from, to, d, x);
    forall i: nat | i < n ensures U32(b - TargetAt(e, c, f, i)) >= f.w {
      assert TargetAt(e, c, f, i) == Place(to, d, i) <= M32 - f.w;
      AheadOfRun(to, d, f.w, i, gap, x);
      NotInside(TargetAt(e, c, f, i), b, f.w);
    }
    BeyondKept(e, c, f, n, b);
  }

  /**
   REP MOVS in the wrong direction, to a place `gap` bytes further on the way it goes and no less
   than an element: upwards or downwards, at every width, it repeats the first `gap` bytes.
   */
  lemma CopyRepeats(e: Env, c: Core, f: Form, p: Prefix, gap: nat, x: nat)
    requires f.op.Movs? && gap >= f.w && x < Before(Index(c.s.cx, f.wide), f.w)
    requires BothStraight(e, c, f, Index(c.s.cx, f.wide))
    requires TargetStart(c, f) == SourceStart(c, f) + if HasFlag(c.s.flags, DF) then 0 - gap else gap
    ensures var d := Delta(c.s.flags, f.w);
            Get8(Repeat(e, c, f, p).m, ByteAt(TargetStart(c, f), d, x))
            == Get8(c.m, ByteAt(SourceStart(c, f), d, x % gap))
  {
    var n, d := Index(c.s.cx, f.wide), Delta(c.s.flags, f.w);
    assert d > 0 <==> !HasFlag(c.s.flags, DF);
    hide After, HasFlag, Get8, SourceAt, TargetAt, Index, Straight, Repeat, Spaced, Delta, Before, ByteAt;
    hide SourceStart, TargetStart;
    RunsOut(e, c, f, p);
    SpacedWhenStraight(e, c, f, n);
    RunRepeats(e, c, f, n, SourceStart(c, f), TargetStart(c, f), d, gap, x);
  }

  lemma AfterNone(e: Env, c: Core, f: Form)
    ensures After(e, c, f, 0) == c
  {
  }

  // ---- comparing and scanning --------------------------------------------------------

  /** The two operands of comparison `k`, as memory and accumulator stood at the start. */
  function LeftAt(e: Env, c: Core, f: Form, k: nat): nat {
    if f.op.Cmps? then Load(c.m, SourceAt(e, c, f, k), f.w) else Accumulator(c.s.ax, f.w)
  }

  function RightAt(e: Env, c: Core, f: Form, k: nat): nat { Load(c.m, TargetAt(e, c, f, k), f.w) }

  /** Comparison `k` is one the prefix stops on. */
  predicate Hit(e: Env, c: Core, f: Form, p: Prefix, k: nat) {
    (LeftAt(e, c, f, k) == RightAt(e, c, f, k)) == p.Repne?
  }

  lemma {:induction false} MemoryKept(e: Env, c: Core, f: Form, n: nat)
    requires Compares(f.op)
    ensures After(e, c, f, n).m == c.m
    decreases n
  {
    hide Bump, Delta, Source, Target, Flags, Load, Compared;
    if n > 0 { MemoryKept(e, c, f, n - 1); }
  }

  /** The flags after comparison `k` order its operands. */
  predicate Ordered(fl: Word, a: nat, b: nat, w: Size) {
    && (HasFlag(fl, ZF) <==> a == b)
    && (Cond(0x2, fl) <==> a < b)
    && (Cond(0xC, fl) <==> Signed(a, 8 * w) < Signed(b, 8 * w))
  }

  lemma Compare(w: Size, a: nat, b: nat, fl: Word)
    requires a < Pow256(w) && b < Pow256(w)
    ensures Ordered(Flags(Cmp, 8 * w, a, b, fl), a, b, w)
  {
    hide Bit, Flags, Result, Signed;
    Powers();
    AccumulatorFits(Reg(0, 0), w);
    Sizes();
    Takes(Cmp, 8 * w, a, b, fl);
  }

  lemma CompareStep(e: Env, c: Core, f: Form, k: nat)
    requires Compares(f.op)
    ensures Ordered(After(e, c, f, k + 1).s.flags, LeftAt(e, c, f, k), RightAt(e, c, f, k), f.w)
  {
    hide Bump, Load, SourceAt, TargetAt, Source, Target, Accumulator, Flags, Ordered, Delta;
    var c1 := After(e, c, f, k);
    var c2 := c1.(s := c1.s.(cx := Bump(c1.s.cx, f.wide, -1)));
    assert After(e, c, f, k + 1) == Single(e, c2, f);
    hide After;
    MemoryKept(e, c, f, k);
    Registers(e, c, f, k);
    Elements(e, c, f, k);
    LoadBound(c.m, SourceAt(e, c, f, k), f.w);
    LoadBound(c.m, TargetAt(e, c, f, k), f.w);
    AccumulatorFits(c.s.ax, f.w);
    Compare(f.w, LeftAt(e, c, f, k), RightAt(e, c, f, k), c2.s.flags);
  }

  /** The loop stops after the first turn that says so, or when the count has run out. */
  lemma {:induction false} StopsAfter(e: Env, c: Core, f: Form, p: Prefix) returns (done: nat)
    ensures done <= Index(c.s.cx, f.wide) && Repeat(e, c, f, p) == After(e, c, f, done)
    ensures forall k: nat {:trigger After(e, c, f, k)} :: 0 < k < done ==> !Stops(f, p, After(e, c, f, k).s)
    ensures done < Index(c.s.cx, f.wide) ==> done > 0 && Stops(f, p, After(e, c, f, done).s)
    decreases Index(c.s.cx, f.wide)
  {
    hide Iteration, Index, Bump, Stops;
    if Index(c.s.cx, f.wide) == 0 { return 0; }
    CountsDown(e, c, f);
    var c1 := Iteration(e, c, f);
    AfterPeels(e, c, f, 0);
    assert After(e, c1, f, 0) == c1;
    if Stops(f, p, c1.s) { return 1; }
    var rest := StopsAfter(e, c1, f, p);
    done := rest + 1;
    AfterPeels(e, c, f, rest);
    forall k: nat | 0 < k < done ensures !Stops(f, p, After(e, c, f, k).s) {
      AfterPeels(e, c, f, k - 1);
      assert k > 1 ==> After(e, c, f, k) == After(e, c1, f, k - 1);
    }
  }

  /**
   REPE and REPNE CMPS and SCAS: the loop makes `done` comparisons, stops just past the first
   hit or at the end of the count, leaves memory alone, and its flags order the last pair.
   */
  lemma RepCompare(e: Env, c: Core, f: Form, p: Prefix) returns (done: nat)
    requires Compares(f.op)
    ensures done <= Index(c.s.cx, f.wide)
    ensures forall k: nat {:trigger Hit(e, c, f, p, k)} :: k + 1 < done ==> !Hit(e, c, f, p, k)
    ensures done < Index(c.s.cx, f.wide) ==> done > 0 && Hit(e, c, f, p, done - 1)
    ensures var c', d := Repeat(e, c, f, p), Delta(c.s.flags, f.w);
            && c'.m == c.m
            && c'.s == c.s.(cx := Bump(c.s.cx, f.wide, 0 - done), flags := c'.s.flags,
                            si := if f.op.Cmps? then Bump(c.s.si, f.wide, done * d) else c.s.si,
                            di := Bump(c.s.di, f.wide, done * d))
            && if done == 0 then c'.s.flags == c.s.flags
               else Ordered(c'.s.flags, LeftAt(e, c, f, done - 1), RightAt(e, c, f, done - 1), f.w)
  {
    hide Index, Bump, LeftAt, RightAt, Delta, Cond, HasFlag, Signed, Iteration;
    done := StopsAfter(e, c, f, p);
    MemoryKept(e, c, f, done);
    Registers(e, c, f, done);
    if done > 0 { CompareStep(e, c, f, done - 1); }
    forall k: nat | k + 1 < done ensures !Hit(e, c, f, p, k) {
      CompareStep(e, c, f, k);
      assert !Stops(f, p, After(e, c, f, k + 1).s);
    }
  }

  /** The accumulator is element `k` of what SCAS looks at. */
  predicate Found(e: Env, c: Core, f: Form, k: nat) { RightAt(e, c, f, k) == Accumulator(c.s.ax, f.w) }

  /** REPNE SCAS on a non-zero count: ZF says whether the accumulator occurs at all, and
      the count left over locates its first occurrence, which DI has just passed. */
  lemma ScasFinds(e: Env, c: Core, f: Form)
    requires f.op.Scas? && Index(c.s.cx, f.wide) > 0
    ensures var n, c' := Index(c.s.cx, f.wide), Repeat(e, c, f, Repne);
            && (HasFlag(c'.s.flags, ZF) <==> exists k: nat :: k < n && Found(e, c, f, k))
            && (HasFlag(c'.s.flags, ZF) ==>
                  var k := n - Index(c'.s.cx, f.wide) - 1;
                  && 0 <= k < n && Found(e, c, f, k) && (forall j: nat :: j < k ==> !Found(e, c, f, j))
                  && c'.s.di == Bump(c.s.di, f.wide, (k + 1) * Delta(c.s.flags, f.w)))
  {
    hide Index, Bump, RightAt, Accumulator, Delta, Cond, Signed, Repeat, HasFlag;
    var n, c' := Index(c.s.cx, f.wide), Repeat(e, c, f, Repne);
    var done := RepCompare(e, c, f, Repne);
    CountLeft(c.s.cx, f.wide, done);
    forall j: nat | j < n ensures Hit(e, c, f, Repne, j) <==> Found(e, c, f, j) { }
    assert HasFlag(c'.s.flags, ZF) <==> Found(e, c, f, done - 1);
    hide Found, Hit, Ordered;
    assert forall j: nat :: j < done - 1 ==> !Found(e, c, f, j);
    assert n - Index(c'.s.cx, f.wide) - 1 == done - 1;
  }

  lemma CountLeft(r: Reg, wide: bool, done: nat)
    requires done <= Index(r, wide)
    ensures Index(Bump(r, wide, 0 - done), wide) == Index(r, wide) - done
  {
  }
}
