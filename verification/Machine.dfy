/**
 The processor state that `Cpu::save` snapshots (`src/cpu.h`), and what each stack, segment
 and transfer operation does to it and to guest memory, as functions. The class in Cpu.dfy
 performs the same operations in place.
 */
module Machine {
  import opened Widths
  import opened FlatMemory
  import opened Bits

  /** A general register: the 16 bits in `r[]` and the upper half in `rhi[]`. */
  datatype Reg = Reg(lo: Word, hi: Word)

  /** A segment register with its descriptor cache. */
  datatype Segment = Segment(sel: Word, base: Dword, limit: Dword)

  /** The two values `ip_mask` ever takes. */
  type IpMask = x: int | x == 0xFFFF || x == 0xFFFF_FFFF witness 0xFFFF

  datatype State = State(
    ax: Reg, cx: Reg, dx: Reg, bx: Reg, sp: Reg, bp: Reg, si: Reg, di: Reg,
    es: Segment, cs: Segment, ss: Segment, ds: Segment, fs: Segment, gs: Segment,
    ip: Dword, cr0: Dword, ipMask: IpMask, flags: Word, csD: bool, ssD: bool)

  /** What addressing depends on besides the snapshot: descriptor tables, task register, A20. */
  datatype Env = Env(
    gdtBase: Dword, ldtBase: Dword, idtBase: Dword, gdtLimit: Word, ldtLimit: Word, idtLimit: Word,
    gdtLoaded: bool, tr: Word, a20: bool)

  /** A processor and the memory it runs on. */
  datatype Core = Core(s: State, m: Ram)

  // ---- flags -------------------------------------------------------------------------

  /** Bit numbers in FLAGS. */
  const CF := 0
  const PF := 2
  const AF := 4
  const ZF := 6
  const SF := 7
  const TF := 8
  const IF := 9
  const DF := 10
  const OF := 11

  predicate HasFlag(fl: Word, k: nat) { Bit(fl, k) }

  /** `set_flag`. */
  function SetFlag(fl: Word, k: nat, on: bool): Word
    requires k < 16
  {
    Powers();
    WithBitBound(fl, k, on, 16);
    WithBit(fl, k, on)
  }

  /** A flags image as POPF, IRET and the host's unwind load it: `| 0x0002`. */
  function LoadFlags(w: int): Word { SetFlag(U16(w), 1, true) }

  lemma Powers()
    ensures Pow2(4) == 16 && Pow2(8) == M8 && Pow2(16) == M16 && Pow2(32) == M32
  {
    assert Pow2(8) == 256 by { assert Pow2(4) == 16; }
    assert Pow2(12) == 4096;
    assert Pow2(16) == M16;
    assert Pow2(20) == 0x10_0000;
    assert Pow2(24) == M24;
    assert Pow2(28) == 0x1000_0000;
  }

  // ---- registers ---------------------------------------------------------------------

  predicate Pe(s: State) { s.cr0 % 2 == 1 }

  /** A 32-bit register read and written. */
  function Gd(r: Reg): Dword { r.hi * M16 + r.lo }

  function Sd(v: Dword): Reg { Reg(v % M16, v / M16) }

  lemma GdSd(v: Dword, r: Reg)
    ensures Gd(Sd(v)) == v && Sd(Gd(r)) == r && Gd(r) % M16 == r.lo
  {
  }

  /** An 8-bit register is the low byte of a general one. */
  function LowByte(r: Reg): Byte { r.lo % M8 }

  function SetLowByte(r: Reg, v: Byte): Reg { r.(lo := r.lo - r.lo % M8 + v) }

  /** The stack pointer is 32 bits wide only in a protected-mode stack segment with the B bit. */
  predicate WideStack(s: State) { Pe(s) && s.ssD }

  function SpGet(s: State): Dword { if WideStack(s) then Gd(s.sp) else s.sp.lo }

  function SpSet(s: State, v: int): State {
    s.(sp := if WideStack(s) then Sd(U32(v)) else s.sp.(lo := U16(v)))
  }

  function Paragraph(sel: Word): Dword { sel * 16 }

  /** Linear address of an offset in a segment; A20 off folds a paragraph segment at one megabyte. */
  function Lin(e: Env, s: State, g: Segment, off: int): Dword {
    var a := U32(g.base + off);
    if !Pe(s) && !e.a20 && g.base == Paragraph(g.sel) then a % 0x10_0000 else a
  }

  // ---- segments ----------------------------------------------------------------------

  datatype Desc = Desc(base: Dword, limit: Dword, ar: Byte, hi: Byte, big: bool, present: bool)

  /** Where the descriptor a selector names is: bit 2 picks the table, if there are two. */
  function DescAddr(e: Env, sel: Word): Dword {
    U32((if sel / 4 % 2 == 1 || !e.gdtLoaded then e.ldtBase else e.gdtBase) + (sel - sel % 8))
  }

  /** A descriptor put together from its scattered fields (Intel SDM Vol. 3A, section 3.4.5). */
  function MakeDesc(limitLow: Word, baseLow: Word, baseMid: Byte, ar: Byte, hi: Byte, baseHigh: Byte): Desc {
    var limit := limitLow + hi % 16 * M16;
    Desc(baseLow + baseMid * M16 + baseHigh * M24, if hi >= 0x80 then limit * 0x1000 + 0xFFF else limit,
         ar, hi, hi / 0x40 % 2 == 1, ar >= 0x80)
  }

  /** The eight bytes at `a` read as a descriptor. */
  function Decode(m: Ram, a: int): Desc {
    LoadBytes(m, a); LoadBytes(m, a + 2);
    MakeDesc(Load(m, a, 2), Load(m, a + 2, 2), Get8(m, a + 4), Get8(m, a + 5), Get8(m, a + 6), Get8(m, a + 7))
  }

  function ReadDesc(e: Env, m: Ram, sel: Word): Desc { Decode(m, DescAddr(e, sel)) }

  /** What `set_seg` caches: a paragraph in real mode, the descriptor in protected mode. */
  function Loaded(e: Env, m: Ram, s: State, sel: Word): Segment {
    if Pe(s) then Segment(sel, ReadDesc(e, m, sel).base, ReadDesc(e, m, sel).limit)
    else Segment(sel, Paragraph(sel), 0xFFFF)
  }

  predicate Big(e: Env, m: Ram, s: State, sel: Word) { Pe(s) && ReadDesc(e, m, sel).big }

  function SetCs(e: Env, m: Ram, s: State, sel: Word): State {
    var big := Big(e, m, s, sel);
    s.(cs := Loaded(e, m, s, sel), csD := big, ipMask := if big then 0xFFFF_FFFF else 0xFFFF)
  }

  function SetSs(e: Env, m: Ram, s: State, sel: Word): State {
    s.(ss := Loaded(e, m, s, sel), ssD := Big(e, m, s, sel))
  }

  /** Every near transfer: EIP wraps at 64 KiB in a 16-bit code segment. */
  function Masked(v: Dword, mask: IpMask): Dword { if mask == 0xFFFF then v % M16 else v }

  function Jump(s: State, v: Dword): State { s.(ip := Masked(v, s.ipMask)) }

  // ---- the stack ---------------------------------------------------------------------

  function StackAddr(e: Env, s: State): Dword { Lin(e, s, s.ss, SpGet(s)) }

  /** `push16` and `push32`: `n` is 2 or 4. */
  function Push(e: Env, c: Core, n: nat, v: int): Core {
    var s := SpSet(c.s, SpGet(c.s) - n);
    Core(s, Store(c.m, StackAddr(e, s), n, v))
  }

  function Top(e: Env, c: Core, n: nat): nat { Load(c.m, StackAddr(e, c.s), n) }

  function Drop(s: State, n: int): State { SpSet(s, SpGet(s) + n) }

  // ---- far transfers -----------------------------------------------------------------

  /** The word `k` places above the top of the stack, as `k + 1` pops would yield it. */
  function Peek(e: Env, c: Core, n: nat, k: nat): nat { Load(c.m, StackAddr(e, Drop(c.s, n * k)), n) }

  /** `far_ret`: to an outer ring it takes the stack pointer and stack segment with it. */
  function FarRet(e: Env, c: Core, sel: Word, off: Dword, n: nat): State
    requires n == 2 || n == 4
  {
    LoadFits(c.m, StackAddr(e, c.s), n);
    if Pe(c.s) && sel % 4 > c.s.cs.sel % 4 then
      var nsp, nss := Top(e, c, n), Peek(e, c, n, 1) % M16;
      Jump(SpSet(SetSs(e, c.m, SetCs(e, c.m, Drop(c.s, 2 * n), sel), nss), nsp), off)
    else
      Jump(SetCs(e, c.m, c.s, sel), off)
  }

  /** `far_ret` with RETF's immediate: released from this stack and, to an outer ring, from that one too. */
  function FarRetDrop(e: Env, c: Core, sel: Word, off: Dword, n: nat, drop: Word): State
    requires n == 2 || n == 4
  {
    var d := c.(s := Drop(c.s, drop));
    LoadFits(d.m, StackAddr(e, d.s), n);
    if Pe(c.s) && sel % 4 > c.s.cs.sel % 4 then
      var nsp, nss := Top(e, d, n), Peek(e, d, n, 1) % M16;
      Jump(SpSet(SetSs(e, d.m, SetCs(e, d.m, Drop(d.s, 2 * n), sel), nss), nsp + drop), off)
    else
      Jump(SetCs(e, d.m, d.s, sel), off)
  }

  lemma LoadFits(m: Ram, a: int, n: nat)
    requires n == 2 || n == 4
    ensures Load(m, a, n) < M32 && (n == 2 ==> Load(m, a, n) < M16)
  {
    LoadBytes(m, a);
  }

  /** RETF without an immediate. */
  function Retf(e: Env, c: Core, n: nat): State
    requires n == 2 || n == 4
  {
    LoadFits(c.m, StackAddr(e, c.s), n);
    var ip, cs := Top(e, c, n), Peek(e, c, n, 1) % M16;
    FarRet(e, c.(s := Drop(c.s, 2 * n)), cs, ip, n)
  }

  /** RETF imm16. */
  function RetfDrop(e: Env, c: Core, n: nat, drop: Word): State
    requires n == 2 || n == 4
  {
    LoadFits(c.m, StackAddr(e, c.s), n);
    var ip, cs := Top(e, c, n), Peek(e, c, n, 1) % M16;
    FarRetDrop(e, c.(s := Drop(c.s, 2 * n)), cs, ip, n, drop)
  }

  /** CALL far: return address, then the new segment and offset. */
  function FarCall(e: Env, c: Core, n: nat, sel: Word, off: Dword): Core {
    var d := Push(e, Push(e, c, n, c.s.cs.sel), n, c.s.ip);
    d.(s := Jump(SetCs(e, d.m, d.s, sel), off))
  }

  function Iret(e: Env, c: Core, n: nat): State
    requires n == 2 || n == 4
  {
    LoadFits(c.m, StackAddr(e, c.s), n);
    var ip, cs, fl := Top(e, c, n), Peek(e, c, n, 1) % M16, Peek(e, c, n, 2) % M16;
    FarRet(e, c.(s := Drop(c.s, 3 * n).(flags := LoadFlags(fl))), cs, ip, n)
  }
}
