/**
 The processor of `src/cpu.h` and `src/cpu.cpp`: a class whose methods change its registers
 and guest memory in place. `View` is the state its `save` snapshots together with memory,
 and every method is specified by the function in Machine or Gates that it performs on it.
 */
module Processor {
  import opened Widths
  import opened FlatMemory
  import opened PagedMemory
  import opened Bits
  import opened Machine
  import opened Stack
  import opened Gates
  import opened Alu
  import Bcd
  import Limbs
  import Shifts
  import Strings

  /** Pops one after the other are the words of the stack in order. */
  lemma PopsAre(e: Env, c: Core, n: nat)
    requires n == 2 || n == 4
    ensures Top(e, c, n) == Peek(e, c, n, 0)
    ensures Top(e, c.(s := Drop(c.s, n)), n) == Peek(e, c, n, 1)
    ensures Top(e, c.(s := Drop(c.s, 2 * n)), n) == Peek(e, c, n, 2)
    ensures Drop(Drop(c.s, n), n) == Drop(c.s, 2 * n) && Drop(Drop(c.s, 2 * n), n) == Drop(c.s, 3 * n)
  {
    hide Load, Lin, SpSet, SpGet;
    DropDrop(c.s, 0, 0);
    DropDrop(c.s, n, n);
    DropDrop(c.s, 2 * n, n);
    assert n * 0 == 0 && n * 1 == n && n * 2 == 2 * n && n + n == 2 * n && 2 * n + n == 3 * n;
  }

  lemma Truncated(e: Env, c: Core, v: Dword)
    ensures Push(e, c, 2, v) == Push(e, c, 2, U16(v))
  {
    StoreTruncates(c.m, StackAddr(e, SpSet(c.s, SpGet(c.s) - 2)), v);
  }

  lemma PushKeeps(e: Env, c: Core, n: nat, v: int)
    ensures Push(e, c, n, v).s.ip == c.s.ip && Push(e, c, n, v).s.cs == c.s.cs
  {
    hide Store, Lin;
  }

  lemma FoldAgain(m: Ram, a: int)
    ensures Get8(m, U32(a)) == Get8(m, a)
  {
  }

  lemma SameAddr(m: Ram, a: int, k: nat)
    ensures Load(m, a + k, 2) == Load(m, U32(U32(a) + k), 2) && Load(m, a + k, 4) == Load(m, U32(U32(a) + k), 4)
    ensures Get8(m, a + k) == Get8(m, U32(U32(a) + k))
  {
    LoadWraps(m, a + k, 2);
    LoadWraps(m, a + k, 4);
    ModAdd(a, k, M32);
    ModAdd(a + k, 0, M32);
  }

  lemma FlagOrder(fl: Word, j: nat, a: bool, k: nat, b: bool)
    requires j != k && j < 16 && k < 16
    ensures SetFlag(SetFlag(fl, j, a), k, b) == SetFlag(SetFlag(fl, k, b), j, a)
  {
    WithBitSwaps(fl, j, a, k, b);
  }

  lemma FlagTwice(fl: Word, k: nat, a: bool, b: bool)
    requires k < 16
    ensures SetFlag(SetFlag(fl, k, a), k, b) == SetFlag(fl, k, b)
    ensures HasFlag(SetFlag(fl, k, a), k) == a
  {
    WithBitTwice(fl, k, a, b);
    BitWithBit(fl, k, a, k);
  }

  class Cpu {
    const mem: Memory
    /** The registers, in the shape `save` and `restore` copy them. */
    var s: State
    var iretFlags: Word
    var tables: Env

    ghost predicate Valid()
      reads this, mem, mem.repr
    {
      mem.Valid() && this !in mem.repr
    }

    constructor (memory: Memory)
      requires memory.Valid()
      ensures mem == memory && Valid() && !Pe(s) && s.flags == iretFlags == 2
    {
      mem := memory;
      var zero, none := Reg(0, 0), Segment(0, 0, 0xFFFF);
      s := State(zero, zero, zero, zero, zero, zero, zero, zero, none, none, none, none, none, none,
                 0, 0, 0xFFFF, 2, false, false);
      iretFlags := 2;
      tables := Env(0, 0, 0, 0, 0, 0, false, 0, false);
    }

    ghost function View(): Core
      reads this, mem, mem.repr
    {
      Core(s, mem.flat)
    }

    // ---- segments ----------------------------------------------------------------

    /** `read_desc`. */
    method ReadDescriptor(sel: Word) returns (d: Desc)
      requires Valid()
      ensures d == ReadDesc(tables, mem.flat, sel)
    {
      hide Memory.Valid, Decode;
      var table := if sel / 4 % 2 == 1 || !tables.gdtLoaded then tables.ldtBase else tables.gdtBase;
      d := DescriptorAt(U32(table + (sel - sel % 8)));
    }

    method DescriptorAt(da: Dword) returns (d: Desc)
      requires Valid()
      ensures d == Decode(mem.flat, da)
    {
      hide Memory.Valid, Load, MakeDesc;
      var a: int := da;
      LoadWraps(mem.flat, a + 2, 2);
      FoldAgain(mem.flat, a + 4); FoldAgain(mem.flat, a + 5); FoldAgain(mem.flat, a + 6); FoldAgain(mem.flat, a + 7);
      hide Get8, U32;
      d := MakeDesc(mem.Read16(da), mem.Read16(U32(a + 2)), mem.Read8(U32(a + 4)),
                    mem.Read8(U32(a + 5)), mem.Read8(U32(a + 6)), mem.Read8(U32(a + 7)));
    }

    /** The descriptor cache `set_seg` fills, and the size bit that goes with it. */
    method LoadSegment(sel: Word) returns (g: Segment, big: bool)
      requires Valid()
      ensures g == Loaded(tables, mem.flat, s, sel) && big == Big(tables, mem.flat, s, sel)
    {
      hide Memory.Valid, Decode;
      if !Pe(s) { return Segment(sel, Paragraph(sel), 0xFFFF), false; }
      var d := ReadDescriptor(sel);
      return Segment(sel, d.base, d.limit), d.big;
    }

    /** `set_seg` of a data segment register is the cache alone; CS and SS carry a size bit. */
    method LoadCs(sel: Word)
      requires Valid()
      modifies this`s
      ensures s == SetCs(tables, mem.flat, old(s), sel)
    {
      hide Memory.Valid, ReadDesc;
      var g, big := LoadSegment(sel);
      s := s.(cs := g, csD := big, ipMask := if big then 0xFFFF_FFFF else 0xFFFF);
    }

    method LoadSs(sel: Word)
      requires Valid()
      modifies this`s
      ensures s == SetSs(tables, mem.flat, old(s), sel)
    {
      hide Memory.Valid, ReadDesc;
      var g, big := LoadSegment(sel);
      s := s.(ss := g, ssD := big);
    }

    method JumpTo(v: Dword)
      modifies this`s
      ensures s == Jump(old(s), v)
    {
      s := s.(ip := if s.ipMask == 0xFFFF then v % M16 else v);
    }

    method SetFlagBit(k: nat, on: bool)
      requires k < 16
      modifies this`s
      ensures s == old(s).(flags := SetFlag(old(s).flags, k, on))
    {
      s := s.(flags := SetFlag(s.flags, k, on));
    }

    // ---- the stack ---------------------------------------------------------------

    method SetSp(v: int)
      modifies this`s
      ensures s == SpSet(old(s), v)
    {
      if Pe(s) && s.ssD { s := s.(sp := Sd(U32(v))); } else { s := s.(sp := s.sp.(lo := U16(v))); }
    }

    method Push16(v: Word)
      requires Valid()
      modifies this`s, mem.repr
      ensures Valid() && fresh(mem.repr - old(mem.repr))
      ensures View() == Push(tables, old(View()), 2, v)
    {
      hide Memory.Valid, Store;
      SetSp(SpGet(s) - 2);
      mem.Write16(Lin(tables, s, s.ss, SpGet(s)), v);
    }

    method Push32(v: Dword)
      requires Valid()
      modifies this`s, mem.repr
      ensures Valid() && fresh(mem.repr - old(mem.repr))
      ensures View() == Push(tables, old(View()), 4, v)
    {
      hide Memory.Valid, Store;
      SetSp(SpGet(s) - 4);
      mem.Write32(Lin(tables, s, s.ss, SpGet(s)), v);
    }

    method Pop16() returns (v: Word)
      requires Valid()
      modifies this`s
      ensures v == Top(tables, old(View()), 2) && s == Drop(old(s), 2)
    {
      hide Memory.Valid, Load;
      v := mem.Read16(Lin(tables, s, s.ss, SpGet(s)));
      SetSp(SpGet(s) + 2);
    }

    method Pop32() returns (v: Dword)
      requires Valid()
      modifies this`s
      ensures v == Top(tables, old(View()), 4) && s == Drop(old(s), 4)
    {
      hide Memory.Valid, Load;
      v := mem.Read32(Lin(tables, s, s.ss, SpGet(s)));
      SetSp(SpGet(s) + 4);
    }

    /** A push and a pop of either width; a 16-bit push truncates. */
    method PushWide(wide: bool, v: Dword)
      requires Valid()
      modifies this`s, mem.repr
      ensures Valid() && fresh(mem.repr - old(mem.repr))
      ensures View() == Push(tables, old(View()), Width(wide), v)
    {
      hide Memory.Valid, Push;
      if wide { Push32(v); } else { Truncated(tables, View(), v); Push16(U16(v)); }
    }

    method PopWide(wide: bool) returns (v: Dword)
      requires Valid()
      modifies this`s
      ensures v == Top(tables, old(View()), Width(wide)) && s == Drop(old(s), Width(wide))
    {
      hide Memory.Valid, Load, SpSet;
      if wide { v := Pop32(); } else { v := Pop16(); }
    }

    // ---- far transfers -----------------------------------------------------------

    /** `far_ret`. */
    method FarReturn(sel: Word, off: Dword, wide: bool, drop: Word)
      requires Valid()
      modifies this`s
      ensures s == FarRetDrop(tables, old(View()), sel, off, Width(wide), drop)
    {
      hide Memory.Valid, Load, Decode, Lin, SpSet, SpGet;
      var cpl := s.cs.sel % 4;
      SetSp(SpGet(s) + drop);
      OnlySp(old(s), SpGet(old(s)) + drop);
      if Pe(s) && sel % 4 > cpl {
        PopsAre(tables, View(), Width(wide));
        var nsp := PopWide(wide);
        var nss := PopWide(wide);
        LoadCs(sel);
        LoadSs(U16(nss));
        SetSp(nsp + drop);
      } else {
        LoadCs(sel);
      }
      JumpTo(off);
    }

    /** RETF imm16, opcode CA. */
    method ReturnFarDropping(wide: bool, drop: Word)
      requires Valid()
      modifies this`s
      ensures s == RetfDrop(tables, old(View()), Width(wide), drop)
    {
      hide Memory.Valid, Load, Decode, Lin, SpSet, SpGet, FarRetDrop;
      PopsAre(tables, View(), Width(wide));
      var off := PopWide(wide);
      var sel := PopWide(wide);
      FarReturn(U16(sel), off, wide, drop);
    }

    /** CALL far, opcode 9A. */
    method CallFar(wide: bool, sel: Word, off: Dword)
      requires Valid()
      modifies this`s, mem.repr
      ensures Valid() && fresh(mem.repr - old(mem.repr))
      ensures View() == FarCall(tables, old(View()), Width(wide), sel, off)
    {
      hide Memory.Valid, Push, Decode, Load;
      PushKeeps(tables, View(), Width(wide), s.cs.sel);
      PushWide(wide, s.cs.sel);
      PushWide(wide, s.ip);
      LoadCs(sel);
      JumpTo(off);
    }

    /** RETF, opcode CB. */
    method ReturnFar(wide: bool)
      requires Valid()
      modifies this`s
      ensures s == Retf(tables, old(View()), Width(wide))
    {
      hide Memory.Valid, Load, Decode, Lin, SpSet, SpGet, FarRet, FarRetDrop;
      PopsAre(tables, View(), Width(wide));
      var off := PopWide(wide);
      var sel := PopWide(wide);
      NoDrop(tables, View(), U16(sel), off, Width(wide));
      FarReturn(U16(sel), off, wide, 0);
    }

    /** IRET, opcode CF: the flags it replaces survive in `iretFlags`. */
    method InterruptReturn(wide: bool)
      requires Valid()
      modifies this`s, this`iretFlags
      ensures s == Iret(tables, old(View()), Width(wide)) && iretFlags == old(s.flags)
    {
      hide Memory.Valid, Load, Decode, Lin, SpSet, SpGet, FarRet, FarRetDrop, SetFlag;
      iretFlags := s.flags;
      PopsAre(tables, View(), Width(wide));
      var off := PopWide(wide);
      var sel := PopWide(wide);
      var fl := PopWide(wide);
      s := s.(flags := LoadFlags(U16(fl)));
      NoDrop(tables, View(), U16(sel), off, Width(wide));
      FarReturn(U16(sel), off, wide, 0);
    }

    // ---- interrupts --------------------------------------------------------------

    /** The gate of vector `n` in the guest's own IDT. */
    method GateAt(n: Byte) returns (g: Gate)
      requires Valid()
      ensures g == ReadGate(tables, mem.flat, n)
    {
      hide Memory.Valid, Load, MakeGate;
      var at := tables.idtBase + n * 8;
      var a: int := U32(at);
      SameAddr(mem.flat, at, 0); SameAddr(mem.flat, at, 2); SameAddr(mem.flat, at, 5); SameAddr(mem.flat, at, 6);
      if tables.idtLimit < n * 8 + 7 { return NoGate; }
      g := MakeGate(mem.Read8(U32(a + 5)), mem.Read16(U32(a + 2)), mem.Read16(U32(a + 0)), mem.Read16(U32(a + 6)));
    }

    /** `interrupt`, when a protected-mode guest owns the vector; otherwise the host's layers get it. */
    method InterruptThroughGate(n: Byte) returns (taken: bool)
      requires Valid()
      modifies this`s, mem.repr
      ensures Valid() && fresh(mem.repr - old(mem.repr))
      ensures taken <==> old(Pe(s)) && ReadGate(tables, old(mem.flat), n).Gate?
      ensures View() == if taken then Enter(tables, old(View()), ReadGate(tables, old(mem.flat), n)) else old(View())
    {
      hide Memory.Valid, ReadGate, Enter;
      if !Pe(s) { return false; }
      var g := GateAt(n);
      if g.NoGate? { return false; }
      EnterGate(g);
      taken := true;
    }

    /** All of `interrupt`; `served` says whether the host's layers take a vector the guest has no gate for. */
    method Interrupt(n: Byte, served: bool)
      requires Valid()
      modifies this`s, mem.repr
      ensures Valid() && fresh(mem.repr - old(mem.repr))
      ensures var c := old(View());
              View() == if Pe(c.s) && ReadGate(tables, c.m, n).Gate? then Enter(tables, c, ReadGate(tables, c.m, n))
                        else if served then c else EnterIvt(tables, c, n)
    {
      hide Memory.Valid, ReadGate, Enter, EnterIvt;
      var taken := InterruptThroughGate(n);
      if !taken && !served { InterruptThroughTable(n); }
    }

    method InterruptThroughTable(n: Byte)
      requires Valid()
      modifies this`s, mem.repr
      ensures Valid() && fresh(mem.repr - old(mem.repr))
      ensures View() == EnterIvt(tables, old(View()), n)
    {
      hide Memory.Valid, Push, Load, Decode, SetFlag;
      var was := s;
      PushesAre(tables, View(), 2, [was.flags, was.cs.sel, was.ip]);
      Push16(s.flags);
      Push16(was.cs.sel);
      Truncated(tables, View(), was.ip);
      Push16(U16(was.ip));
      SetFlagBit(IF, false);
      SetFlagBit(TF, false);
      var off := mem.Read16(n * 4);
      var sel := mem.Read16(n * 4 + 2);
      LoadCs(sel);
      JumpTo(off);
    }

    method EnterGate(g: Gate)
      requires Valid() && g.Gate?
      modifies this`s, mem.repr
      ensures Valid() && fresh(mem.repr - old(mem.repr))
      ensures View() == Enter(tables, old(View()), g)
    {
      hide Memory.Valid, ReadDesc, SetFlag, Pushed, GateFrame;
      PushGateFrame(g);
      if !g.trap { SetFlagBit(IF, false); }
      SetFlagBit(TF, false);
      LoadCs(g.sel);
      JumpTo(g.off);
    }

    method PushGateFrame(g: Gate)
      requires Valid() && g.Gate?
      modifies this`s, mem.repr
      ensures Valid() && fresh(mem.repr - old(mem.repr))
      ensures View() == Pushed(tables, old(View()), g)
    {
      hide Memory.Valid, Decode, Push, Load, Lin, SpSet, SpGet;
      ghost var c, n := View(), Width(g.wide);
      var was := s;
      ghost var vs := GateFrame(was, g);
      ghost var from := c;
      if g.sel % 4 < s.cs.sel % 4 {
        SwitchStack(g);
        from := View();
        PushWide(g.wide, was.ss.sel);
        PushWide(g.wide, SpGet(was));
      }
      PushWide(g.wide, was.flags);
      PushWide(g.wide, was.cs.sel);
      PushWide(g.wide, was.ip);
      PushesAre(tables, from, n, vs);
    }

    /** The stack of the gate's ring, out of the TSS. */
    method SwitchStack(g: Gate)
      requires Valid() && g.Gate?
      modifies this`s
      ensures s == InnerStack(tables, old(View()), g).s
    {
      hide Memory.Valid, Load, Decode, SpSet, SetSs;
      var tss := ReadDescriptor(tables.tr);
      var slot := tss.base + 4 + g.sel % 4 * 8;
      SameAddr(mem.flat, slot, 0); SameAddr(mem.flat, slot, 4);
      var nsp := mem.Read32(U32(U32(slot) + 0));
      var nss := mem.Read16(U32(U32(slot) + 4));
      LoadSs(nss);
      SetSp(nsp);
    }

    // ---- arithmetic --------------------------------------------------------------

    /** `alu8` and `aluv`: `w` is 8, 16 or 32. */
    method Operate(op: Op, w: nat, a: nat, b: nat) returns (r: nat)
      requires w > 0
      modifies this`s
      ensures r == Result(op, w, a, b, old(s.flags))
      ensures s == old(s).(flags := Flags(op, w, a, b, old(s.flags)))
    {
      hide Bit, SetStatus, StatusOf, Bitwise;
      var carry := if HasFlag(s.flags, CF) then 1 else 0;
      var res: int;
      match op {
        case Add => res := a + b;
        case Adc => res := a + b + carry;
        case Sub => res := a - b;
        case Cmp => res := a - b;
        case Sbb => res := a - b - carry;
        case Or => res := Bitwise(Or, a, b, w);
        case And => res := Bitwise(And, a, b, w);
        case Xor => res := Bitwise(Xor, a, b, w);
      }
      r := res % Pow2(w);
      SetArithmeticFlags(op, w, a, b, res);
    }

    method SetArithmeticFlags(op: Op, w: nat, a: nat, b: nat, res: int)
      requires w > 0
      modifies this`s
      ensures s == old(s).(flags := SetStatus(old(s.flags), StatusOf(op, w, a, b, res)))
    {
      hide Bit, WithBit, SetFlag, EvenParity, Pow2;
      var r := res % Pow2(w);
      if op.Or? || op.And? || op.Xor? {
        SetFlagBit(CF, false);
        FlagOrder(s.flags, OF, false, AF, false);
        SetFlagBit(OF, false);
        SetFlagBit(AF, false);
      } else {
        SetFlagBit(CF, Bit(res, w));
        SetFlagBit(AF, (Bit(a, 4) != Bit(b, 4)) != Bit(r, 4));
        var sa, sb, sr := Bit(a, w - 1), Bit(b, w - 1), Bit(r, w - 1);
        SetFlagBit(OF, if op.Sub? || op.Cmp? || op.Sbb? then sa != sb && sa != sr else sa == sb && sa != sr);
      }
      SetFlagBit(ZF, r == 0);
      SetFlagBit(SF, Bit(r, w - 1));
      SetFlagBit(PF, EvenParity(r));
    }

    /** INC and DEC: CF is put back as it was. */
    method IncDec(dec: bool, w: nat, x: nat) returns (r: nat)
      requires w > 0
      modifies this`s
      ensures r == (if dec then x - 1 else x + 1) % Pow2(w)
      ensures s == old(s).(flags := Limbs.Pass(old(s.flags), if dec then Limbs.Dec(w, x) else Limbs.Inc(w, x)))
    {
      hide Bit, SetFlag, Flags;
      var c := HasFlag(s.flags, CF);
      r := Operate(if dec then Sub else Add, w, x, 1);
      SetFlagBit(CF, c);
    }

    /** DAA and DAS. */
    method AdjustDecimal(sub: bool)
      modifies this`s
      ensures var (al, fl) := Bcd.Adjust(sub, LowByte(old(s.ax)), old(s.flags));
              s == old(s).(ax := SetLowByte(old(s.ax), al), flags := fl)
    {
      hide SetFlag, EvenParity, SetLowByte, LowByte, Bcd.Adjusted;
      var al := AdjustDigits(sub, LowByte(s.ax));
      s := s.(ax := SetLowByte(s.ax, al));
      SetFlagBit(ZF, al == 0);
      SetFlagBit(SF, al >= 0x80);
      SetFlagBit(PF, EvenParity(al));
    }

    method AdjustDigits(sub: bool, oldAl: Byte) returns (al: Byte)
      modifies this`s
      ensures var (al', cf, af) := Bcd.Adjusted(sub, oldAl, old(s.flags));
              al == al' && s == old(s).(flags := SetFlag(SetFlag(old(s.flags), CF, cf), AF, af))
    {
      hide Bit, SetFlag;
      ghost var fl := s.flags;
      var oldCf := HasFlag(s.flags, CF);
      AfterCf(fl, false);
      SetFlagBit(CF, false);
      al := oldAl;
      ghost var cf, low := false, HasFlag(fl, AF);
      if al % 0x10 > 9 || HasFlag(s.flags, AF) {
        var t := U16(if sub then al - 6 else al + 6);
        al := t % M8;
        cf, low := oldCf || t / M8 % 2 == 1, true;
        FlagTwice(fl, CF, false, cf);
        SetFlagBit(CF, oldCf || t / M8 % 2 == 1);
        SetFlagBit(AF, true);
      } else {
        SetFlagBit(AF, false);
      }
      if oldAl > 0x99 || oldCf {
        al := (if sub then al - 0x60 else al + 0x60) % M8;
        Latest(fl, cf, low);
        SetFlagBit(CF, true);
      }
    }

    /** The loop of group 2: one place at a time, the carry flag set on each; `w` is 8, 16 or 32. */
    method ShiftRotate(k: Shifts.Kind, w: nat, count: Byte, v: nat) returns (r: nat)
      requires w > 0
      modifies this`s
      ensures var n, fl := count % 32, old(s.flags);
              && r == Shifts.Turns(k, w, n, v, HasFlag(fl, CF)).0
              && s == old(s).(flags := Shifts.ShiftFlags(k, w, n, v, fl))
              && (n == 0 ==> r == v && s == old(s))
    {
      hide Bit, SetFlag, EvenParity, Shifts.Turn;
      var n, i := count % 32, 0;
      ghost var fl := s.flags;
      r := v;
      while i < n
        invariant 0 <= i <= n
        invariant (r, HasFlag(s.flags, CF)) == Shifts.Turns(k, w, i, v, HasFlag(fl, CF))
        invariant s == old(s).(flags := if i == 0 then fl else SetFlag(fl, CF, HasFlag(s.flags, CF)))
      {
        var (x, c) := Shifts.Turn(k, w, r, HasFlag(s.flags, CF));
        FlagTwice(fl, CF, HasFlag(s.flags, CF), c);
        FlagTwice(fl, CF, c, c);
        r := x;
        SetFlagBit(CF, c);
        i := i + 1;
      }
      if n != 0 {
        SetFlagBit(ZF, r == 0);
        SetFlagBit(SF, Bit(r, w - 1));
        SetFlagBit(PF, EvenParity(r % M8));
      }
    }

    // ---- string instructions -----------------------------------------------------

    method ReadElement(a: Dword, w: Strings.Size) returns (v: Dword)
      requires Valid()
      ensures v == Load(mem.flat, a, w)
    {
      hide Memory.Valid;
      OneByteLoad(mem.flat, a);
      hide Load;
      if w == 1 { v := mem.Read8(a); } else if w == 2 { v := mem.Read16(a); } else { v := mem.Read32(a); }
    }

    method WriteElement(a: Dword, w: Strings.Size, v: Dword)
      requires Valid()
      modifies mem.repr
      ensures Valid() && fresh(mem.repr - old(mem.repr))
      ensures mem.flat == Store(old(mem.flat), a, w, v)
    {
      hide Memory.Valid;
      OneByteStore(mem.flat, a, v);
      StoreTruncates(mem.flat, a, v);
      hide Store;
      if w == 1 { mem.Write8(a, v % M8); } else if w == 2 { mem.Write16(a, U16(v)); } else { mem.Write32(a, v); }
    }

    method AdvanceSource(f: Strings.Form)
      modifies this`s
      ensures s == old(s).(si := Strings.Bump(old(s.si), f.wide, Strings.Delta(old(s.flags), f.w)))
    {
      var d := if HasFlag(s.flags, DF) then 0 - f.w else f.w;
      if f.wide { s := s.(si := Sd(U32(Gd(s.si) + d))); } else { s := s.(si := s.si.(lo := U16(s.si.lo + d))); }
    }

    method AdvanceTarget(f: Strings.Form)
      modifies this`s
      ensures s == old(s).(di := Strings.Bump(old(s.di), f.wide, Strings.Delta(old(s.flags), f.w)))
    {
      var d := if HasFlag(s.flags, DF) then 0 - f.w else f.w;
      if f.wide { s := s.(di := Sd(U32(Gd(s.di) + d))); } else { s := s.(di := s.di.(lo := U16(s.di.lo + d))); }
    }

    /** MOVS, STOS, LODS, CMPS or SCAS, once. */
    method StringOnce(f: Strings.Form)
      requires Valid()
      modifies this`s, mem.repr
      ensures Valid() && fresh(mem.repr - old(mem.repr))
      ensures View() == Strings.Single(tables, old(View()), f)
    {
      hide Memory.Valid, Load, Store, Lin, Flags, HasFlag, Strings.Bump, Strings.Index, Strings.Delta;
      hide Strings.Accumulator, Strings.LoadAccumulator;
      match f.op {
        case Movs =>
          var v := ReadElement(Strings.Source(tables, s, f), f.w);
          WriteElement(Strings.Target(tables, s, f), f.w, v);
          AdvanceSource(f);
          AdvanceTarget(f);
        case Stos =>
          WriteElement(Strings.Target(tables, s, f), f.w, Strings.Accumulator(s.ax, f.w));
          AdvanceTarget(f);
        case Lods =>
          var v := ReadElement(Strings.Source(tables, s, f), f.w);
          s := s.(ax := Strings.LoadAccumulator(s.ax, f.w, v));
          AdvanceSource(f);
        case Cmps =>
          var a := ReadElement(Strings.Source(tables, s, f), f.w);
          CompareElement(f, a);
          AdvanceSource(f);
          AdvanceTarget(f);
        case Scas =>
          CompareElement(f, Strings.Accumulator(s.ax, f.w));
          AdvanceTarget(f);
      }
    }

    /** The comparison of CMPS and SCAS, which moves neither index. */
    method CompareElement(f: Strings.Form, a: Dword)
      requires Valid()
      modifies this`s
      ensures var b := Load(mem.flat, Strings.Target(tables, old(s), f), f.w);
              s == old(s).(flags := Flags(Cmp, 8 * f.w, a, b, old(s.flags)))
      ensures Strings.Delta(s.flags, f.w) == Strings.Delta(old(s.flags), f.w)
    {
      hide Memory.Valid, Load, Flags, Result;
      var b := ReadElement(Strings.Target(tables, s, f), f.w);
      Strings.SameDirection(s.flags, 8 * f.w, a, b, f);
      var r := Operate(Cmp, 8 * f.w, a, b);
    }

    /** The REP loop. */
    method RepeatString(f: Strings.Form, p: Strings.Prefix)
      requires Valid()
      modifies this`s, mem.repr
      ensures Valid() && fresh(mem.repr - old(mem.repr))
      ensures View() == Strings.Repeat(tables, old(View()), f, p)
    {
      hide Memory.Valid, HasFlag, Strings.Bump, Strings.Index, Strings.Single;
      while Strings.Index(s.cx, f.wide) != 0
        invariant Valid() && fresh(mem.repr - old(mem.repr)) && tables == old(tables)
        invariant Strings.Repeat(tables, View(), f, p) == Strings.Repeat(tables, old(View()), f, p)
        decreases Strings.Index(s.cx, f.wide)
      {
        ghost var c := View();
        Strings.CountsDown(tables, c, f);
        s := s.(cx := Strings.Bump(s.cx, f.wide, -1));
        StringOnce(f);
        assert View() == Strings.Iteration(tables, c, f);
        if Strings.Compares(f.op) {
          var z := HasFlag(s.flags, ZF);
          if p.Repe? && !z { return; }
          if p.Repne? && z { return; }
        }
      }
    }
  }

  lemma OneByteLoad(m: Ram, a: int)
    ensures Load(m, a, 1) == Get8(m, a)
  {
    assert Load(m, a, 1) == Get8(m, a) + M8 * Load(m, a + 1, 0);
  }

  lemma OneByteStore(m: Ram, a: int, v: int)
    ensures Store(m, a, 1, v) == Put8(m, a, v % M8)
  {
    assert Store(m, a, 1, v) == Store(Put8(m, a, v % M8), a + 1, 0, v / M8);
  }

  /** Clearing CF leaves AF to be read. */
  lemma AfterCf(fl: Word, c: bool)
    ensures HasFlag(SetFlag(fl, CF, c), AF) == HasFlag(fl, AF)
  {
    BitWithBit(fl, CF, c, AF);
  }

  /** CF set again after AF. */
  lemma Latest(fl: Word, c: bool, af: bool)
    ensures SetFlag(SetFlag(SetFlag(fl, CF, c), AF, af), CF, true) == SetFlag(SetFlag(fl, CF, true), AF, af)
  {
    FlagOrder(SetFlag(fl, CF, c), AF, af, CF, true);
    FlagTwice(fl, CF, c, true);
  }

  /** Three pushes, or five. */
  lemma PushesAre(e: Env, c: Core, n: nat, vs: seq<int>)
    requires |vs| == 3 || |vs| == 5
    ensures |vs| == 3 ==> PushAll(e, c, n, vs) == Push(e, Push(e, Push(e, c, n, vs[0]), n, vs[1]), n, vs[2])
    ensures |vs| == 5 ==> PushAll(e, c, n, vs)
                          == Push(e, Push(e, Push(e, Push(e, Push(e, c, n, vs[0]),
                                                          n, vs[1]), n, vs[2]), n, vs[3]), n, vs[4])
  {
    hide Push;
    assert vs[..1] == [vs[0]] && vs[..2][..1] == vs[..1] && vs[..3][..2] == vs[..2];
    assert PushAll(e, c, n, vs[..1]) == Push(e, c, n, vs[0]) by { assert vs[..1][..0] == []; }
    assert PushAll(e, c, n, vs[..2]) == Push(e, PushAll(e, c, n, vs[..1]), n, vs[1]);
    if |vs| == 5 {
      assert vs[..4][..3] == vs[..3];
      assert PushAll(e, c, n, vs[..3]) == Push(e, PushAll(e, c, n, vs[..2]), n, vs[2]);
      assert PushAll(e, c, n, vs[..4]) == Push(e, PushAll(e, c, n, vs[..3]), n, vs[3]);
    }
  }
}
