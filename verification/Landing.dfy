/**
 Where a real-mode procedure called by 0301h or 0302h comes back to. The host pushes its
 return address through paragraph arithmetic that always folds at one megabyte; the guest
 pops it through a segment base, which folds only while A20 is off. The two agree exactly
 when the slots lie below one megabyte or A20 is off.
 */
module Landing {
  import opened Widths
  import opened FlatMemory
  import opened Bits
  import opened Machine
  import opened Stack
  import opened Gates
  import opened Protocol

  const MEGABYTE := 0x10_0000

  // ---- the host's entry points -------------------------------------------------------

  const OFF_RAW_TO_PM := 0x10
  const OFF_RAW_TO_RM := 0x20
  const OFF_CB_RET := 0x50
  const OFF_CB_BASE := 0x60
  const CALLBACKS := 32
  const ENTRY_BYTES := OFF_PM_INT + 256

  datatype Entry =
    | NotOurs | SwitchToPm | RawToPm | RawToRm | CallbackReturn | ProcReturn
    | CallBack(i: nat) | ServeByDefault(n: nat)

  /** What `step` does on reaching linear address `a`, as `on_hook` dispatches it. */
  function EntryAt(a: Dword): Entry {
    var lo, hi := Phys(ENTRY_SEG, 0), Phys(ENTRY_SEG, ENTRY_BYTES);
    var off := a - lo;
    if !(lo <= a < hi) then NotOurs
    else if off == 0 then SwitchToPm
    else if off == OFF_RAW_TO_PM then RawToPm
    else if off == OFF_RAW_TO_RM then RawToRm
    else if off == OFF_CB_RET then CallbackReturn
    else if off == OFF_RM_RET then ProcReturn
    else if OFF_CB_BASE <= off < OFF_CB_BASE + CALLBACKS then CallBack(off - OFF_CB_BASE)
    else if OFF_PM_INT <= off < OFF_PM_INT + 256 then ServeByDefault(off - OFF_PM_INT)
    else NotOurs
  }

  /** The next instruction is the host's return entry. */
  predicate Lands(e: Env, s: State) { EntryAt(Lin(e, s, s.cs, s.ip)).ProcReturn? }

  // ---- the host's pushes and the guest's pops ----------------------------------------

  /** The guest addresses `off` in stack segment `ss` where the host does. */
  predicate Reaches(e: Env, ss: Word, off: Word) { !e.a20 || Paragraph(ss) + off < MEGABYTE }

  ghost predicate RealStack(s: State) { !Pe(s) && s.ss.base == Paragraph(s.ss.sel) }

  lemma GuestAddr(e: Env, s: State, k: nat)
    requires RealStack(s)
    ensures var off := U16(s.sp.lo + k);
            && StackAddr(e, Drop(s, k)) == (if e.a20 then Paragraph(s.ss.sel) + off else Phys(s.ss.sel, off))
            && (StackAddr(e, Drop(s, k)) == Phys(s.ss.sel, off) <==> Reaches(e, s.ss.sel, off))
  {
  }

  lemma HostSlotsApart(ss: Word, x: Word, k: nat)
    requires 2 <= k <= 8
    ensures Apart(Phys(ss, x), 2, Phys(ss, U16(x + k)), 2)
  {
    var a: int, b: int := ss * 16 + x, ss * 16 + U16(x + k);
    assert b - a == k || a - b == M16 - k by { assert U16(x + k) == x + k || U16(x + k) == x + k - M16; }
    Folded(a, b, MEGABYTE, 2);
  }

  /** The last two words pushed, at the top of the stack. */
  lemma TwoPushed(c: Core, v: Word, w: Word)
    ensures var d := PushReal(PushReal(c, v), w);
            && d.s == c.s.(sp := c.s.sp.(lo := U16(c.s.sp.lo - 4)))
            && Word16(d.m, Phys(d.s.ss.sel, d.s.sp.lo)) == w
            && Word16(d.m, Phys(d.s.ss.sel, U16(d.s.sp.lo + 2))) == v
  {
    hide Load, Store, Phys;
    var c1 := PushReal(c, v);
    var d := PushReal(c1, w);
    assert Pow256(2) == M16;
    HostSlotsApart(d.s.ss.sel, d.s.sp.lo, 2);
    LoadAfterStore(c.m, Phys(c1.s.ss.sel, c1.s.sp.lo), 2, v);
    LoadAfterStore(c1.m, Phys(d.s.ss.sel, d.s.sp.lo), 2, w);
    LoadAfterStoreApart(c1.m, Phys(d.s.ss.sel, d.s.sp.lo), 2, w, Phys(c1.s.ss.sel, c1.s.sp.lo), 2);
  }

  lemma {:induction false} CopyKeeps(c: Core, src: int, n: nat)
    ensures CopyWords(c, src, n).s == c.s.(sp := c.s.sp.(lo := U16(c.s.sp.lo - 2 * n)))
    decreases n
  {
    hide Load, Store, Phys;
    if n > 0 { CopyKeeps(PushReal(c, Load(c.m, src + 2 * (n - 1), 2)), src, n - 1); }
  }

  /** Everything pushed on entry, and the two words on top. */
  lemma EntryPushes(y: Sys, iret: bool, grant: Grant)
    ensures var on, d := OnProcStack(y, grant), ProcEntry(y, iret, grant);
            && d.s == on.s.(sp := on.s.sp.(lo :=
                      U16(on.s.sp.lo - 2 * (y.core.s.cx.lo % 0x100) - (if iret then 6 else 4))))
            && Word16(d.m, Phys(d.s.ss.sel, d.s.sp.lo)) == OFF_RM_RET
            && Word16(d.m, Phys(d.s.ss.sel, U16(d.s.sp.lo + 2))) == ENTRY_SEG
  {
    hide Load, Store, Phys, Word16, OnProcStack, ClientStack;
    var on, n := OnProcStack(y, grant), y.core.s.cx.lo % 0x100;
    var c := CopyWords(on, ClientStack(y.core.s), n);
    CopyKeeps(on, ClientStack(y.core.s), n);
    var d := if iret then PushReal(c, c.s.flags) else c;
    TwoPushed(d, ENTRY_SEG, OFF_RM_RET);
    var sp: int := on.s.sp.lo - 2 * n;
    ModAdd(sp, -4, M16);
    ModAdd(sp, -2, M16);
    ModAdd(sp - 2, -4, M16);
    hide CopyWords, U16;
  }

  /** The procedure starts in real mode at the address, and on the stack, the client named. */
  lemma ProcStarts(y: Sys, iret: bool, grant: Grant)
    requires |y.host.rm| < MAX_DEPTH
    ensures var z, f := CallReal(y, iret, grant), FrameAddr(y);
            && RealStack(z.core.s) && z.core.s.cr0 / 2 == y.core.s.cr0 / 2
            && z.core.s.cs.sel == Word16(y.core.m, f + 0x2C) && z.core.s.ip == Word16(y.core.m, f + 0x2A)
            && z.core.s.ss.sel == ProcStack(y, grant).0
            && z.core.s.sp.lo == U16(ProcStack(y, grant).1 - 2 * (y.core.s.cx.lo % 0x100) - (if iret then 6 else 4))
            && z.core.s.ax == Sd(Word32(y.core.m, f + 0x1C)) && z.core.s.flags == Word16(y.core.m, f + 0x20)
            && Word16(z.core.m, Phys(z.core.s.ss.sel, z.core.s.sp.lo)) == OFF_RM_RET
            && Word16(z.core.m, Phys(z.core.s.ss.sel, U16(z.core.s.sp.lo + 2))) == ENTRY_SEG
  {
    hide Load, Phys, ReadDesc, Word16, Word32, FrameAddr, ProcEntry, ProcStack, Sd, U16;
    EntryPushes(y, iret, grant);
  }

  /** The registers of `s` are those a call structure at `f` names, with paragraphs for segments. */
  ghost predicate FromStructure(s: State, m: Ram, f: Dword) {
    && Gd(s.di) == Word32(m, f) && Gd(s.si) == Word32(m, f + 0x04) && Gd(s.bp) == Word32(m, f + 0x08)
    && Gd(s.bx) == Word32(m, f + 0x10) && Gd(s.dx) == Word32(m, f + 0x14)
    && Gd(s.cx) == Word32(m, f + 0x18) && Gd(s.ax) == Word32(m, f + 0x1C) && s.flags == Word16(m, f + 0x20)
    && s.es == Segment(Word16(m, f + 0x22), Paragraph(Word16(m, f + 0x22)), 0xFFFF)
    && s.ds == Segment(Word16(m, f + 0x24), Paragraph(Word16(m, f + 0x24)), 0xFFFF)
    && s.fs == Segment(Word16(m, f + 0x26), Paragraph(Word16(m, f + 0x26)), 0xFFFF)
    && s.gs == Segment(Word16(m, f + 0x28), Paragraph(Word16(m, f + 0x28)), 0xFFFF)
  }

  lemma FrameLoaded(e: Env, m: Ram, s: State, f: Dword)
    requires !Pe(s)
    ensures FromStructure(LoadFrame(e, m, s, f), m, f)
  {
    forall v: Dword ensures Gd(Sd(v)) == v { GdSd(v, Reg(0, 0)); }
    hide Load, ReadDesc, Word16, Word32, Sd, Gd;
  }

  /** And it starts with the structure's registers, on the structure's stack unless that names none:
      then on the host's own, 256 bytes in. */
  lemma ProcRegisters(y: Sys, iret: bool, grant: Grant)
    requires |y.host.rm| < MAX_DEPTH
    ensures FromStructure(CallReal(y, iret, grant).core.s, y.core.m, FrameAddr(y))
    ensures var ss, sp := Word16(y.core.m, FrameAddr(y) + 0x30), Word16(y.core.m, FrameAddr(y) + 0x2E);
            ProcStack(y, grant) == if ss != 0 || sp != 0 then (ss, sp)
                                   else (if y.host.scratch != 0 then y.host.scratch else grant.seg, 0x0100)
  {
    hide Load, Phys, ReadDesc, Word16, Word32, FrameAddr, ProcEntry, LoadFrame, Gd, U16, Poked;
    FrameLoaded(y.e, y.core.m, ToReal(y.core.s), FrameAddr(y));
    EntryPushes(y, iret, grant);
  }

  /** A fifth call inside four is refused: AX and CF say so, and nothing else has happened. */
  lemma FifthCallRefused(y: Sys, iret: bool, grant: Grant)
    requires |y.host.rm| >= 4
    ensures var z := CallReal(y, iret, grant);
            && z.core.s.ax.lo == 0x8001 && HasFlag(z.core.s.flags, CF)
            && (forall k: nat :: k != CF ==> HasFlag(z.core.s.flags, k) == HasFlag(y.core.s.flags, k))
            && z == y.(core := y.core.(s := y.core.s.(flags := z.core.s.flags, ax := y.core.s.ax.(lo := 0x8001))))
  {
    BitWithBit(y.core.s.flags, CF, true, CF);
    forall k: nat | k != CF ensures HasFlag(SetFlag(y.core.s.flags, CF, true), k) == HasFlag(y.core.s.flags, k) {
      BitWithBit(y.core.s.flags, CF, true, k);
    }
    hide SetFlag, HasFlag, ProcEntry, Word16;
  }

  function ProcReturns(e: Env, c: Core, iret: bool): State { if iret then Iret(e, c, 2) else Retf(e, c, 2) }

  /** In real mode a RETF or IRET goes where its first two words say. */
  lemma RealReturn(e: Env, c: Core, iret: bool)
    requires RealStack(c.s)
    ensures var t := ProcReturns(e, c, iret);
            && !Pe(t)
            && t.cs == Segment(U16(Peek(e, c, 2, 1)), Paragraph(U16(Peek(e, c, 2, 1))), 0xFFFF)
            && t.ip == U16(Peek(e, c, 2, 0))
  {
    hide Load, Lin, ReadDesc;
    DropDrop(c.s, 0, 0);
    OnlySp(c.s, SpGet(c.s) + 2 * 2);
    OnlySp(c.s, SpGet(c.s) + 3 * 2);
    LoadFits(c.m, StackAddr(e, c.s), 2);
  }

  /** The stack a procedure was entered on, found again, and the return address still on it. */
  ghost predicate ReadyToReturn(entered: State, e: Env, now: Core) {
    && SameStack(entered, now.s)
    && Reaches(e, entered.ss.sel, entered.sp.lo) && Reaches(e, entered.ss.sel, U16(entered.sp.lo + 2))
    && Word16(now.m, Phys(entered.ss.sel, entered.sp.lo)) == OFF_RM_RET
    && Word16(now.m, Phys(entered.ss.sel, U16(entered.sp.lo + 2))) == ENTRY_SEG
  }

  /** A procedure that leaves its stack balanced and its return address alone lands on the host's trap. */
  lemma ProcedureLands(y: Sys, iret: bool, grant: Grant, e: Env, now: Core)
    requires |y.host.rm| < MAX_DEPTH && ReadyToReturn(CallReal(y, iret, grant).core.s, e, now)
    ensures Lands(e, ProcReturns(e, now, iret)) && RealStack(now.s)
  {
    hide Load, CallReal, FrameAddr, ReadDesc, Phys, StackAddr, ProcReturns, U16, Lands;
    ProcStarts(y, iret, grant);
    RealStackSame(CallReal(y, iret, grant).core.s, now.s);
    GuestAddr(e, now.s, 0);
    GuestAddr(e, now.s, 2);
    SmallWord(now.s.sp.lo);
    SmallWord(OFF_RM_RET);
    SmallWord(ENTRY_SEG);
    RealReturn(e, now, iret);
    AtTrap(e, ProcReturns(e, now, iret));
  }

  lemma SmallWord(x: Word)
    ensures U16(x) == x && U16(x + 0) == x
  {
  }

  lemma RealStackSame(s: State, t: State)
    requires RealStack(s) && SameStack(s, t)
    ensures RealStack(t) && t.ss.sel == s.ss.sel && t.sp.lo == s.sp.lo
  {
  }

  lemma AtTrap(e: Env, s: State)
    requires !Pe(s) && s.cs.base == Paragraph(s.cs.sel)
    ensures s.cs.sel == ENTRY_SEG && s.ip == OFF_RM_RET ==> Lands(e, s)
    ensures s.ip == 0 ==> !Lands(e, s)
    ensures s.cs.sel == 0 && s.ip == OFF_RM_RET ==> !Lands(e, s)
  {
  }

  // ---- exactly when the return is certain --------------------------------------------

  /** A call whose pushes leave the stack at `ss:top`, returning at once, lands on the trap. */
  ghost predicate ComesBack(y: Sys, iret: bool, grant: Grant) {
    Lands(y.e, ProcReturns(y.e, CallReal(y, iret, grant).core, iret))
  }

  ghost predicate Leaves(y: Sys, iret: bool, grant: Grant, e: Env, ss: Word, top: Word) {
    var s := CallReal(y, iret, grant).core.s;
    |y.host.rm| < MAX_DEPTH && y.e == e && s.ss.sel == ss && s.sp.lo == top
  }

  ghost predicate AlwaysComesBack(e: Env, iret: bool, ss: Word, top: Word) {
    forall y, grant :: Leaves(y, iret, grant, e, ss, top) ==> ComesBack(y, iret, grant)
  }

  /** A client whose structure, far from any stack, names `ss:sp`; all other memory is zero. */
  const FAR_FRAME := 0x4000_0000

  function WitnessClient(e: Env, ss: Word, sp: Word): Sys {
    var zero, none := Reg(0, 0), Segment(0, 0, 0);
    var s := State(zero, zero, zero, zero, zero, zero, zero, zero,
                   Segment(0, FAR_FRAME, 0), none, none, none, none, none, 0, 1, 0xFFFF, 2, false, false);
    var m := Store(Store(ZEROED, FAR_FRAME + 0x30, 2, ss), FAR_FRAME + 0x2E, 2, sp);
    Sys(e, Core(s, m), 2, Host([], false, false, true, seq(256, _ => Handler(0, 0)), 0))
  }

  lemma WitnessStack(e: Env, ss: Word, sp: Word)
    requires ss != 0
    ensures var y := WitnessClient(e, ss, sp);
            FrameAddr(y) == FAR_FRAME && ProcStack(y, Grant(0, [])) == (ss, sp) && !Allocates(y)
  {
    hide Load, Store;
    var y := WitnessClient(e, ss, sp);
    assert Gd(y.core.s.di) == 0 && FrameAddr(y) == FAR_FRAME;
    assert Pow256(2) == M16;
    var m1 := Store(ZEROED, FAR_FRAME + 0x30, 2, ss);
    LoadAfterStore(ZEROED, FAR_FRAME + 0x30, 2, ss);
    LoadAfterStore(m1, FAR_FRAME + 0x2E, 2, sp);
    LoadAfterStoreApart(m1, FAR_FRAME + 0x2E, 2, sp, FAR_FRAME + 0x30, 2);
  }

  lemma WitnessZero(e: Env, ss: Word, sp: Word, a: Dword)
    requires a < 0x20_0000
    ensures Load(WitnessClient(e, ss, sp).core.m, a, 2) == 0
  {
    var m1 := Store(ZEROED, FAR_FRAME + 0x30, 2, ss);
    LoadBytes(ZEROED, a);
    hide Load, Store;
    LoadAfterStoreApart(ZEROED, FAR_FRAME + 0x30, 2, ss, a, 2);
    LoadAfterStoreApart(m1, FAR_FRAME + 0x2E, 2, sp, a, 2);
  }

  /** A push on the same stack never reaches a slot the guest sees above one megabyte. */
  lemma HighSlotKept(c: Core, v: int, off: Word)
    requires U16(off - c.s.sp.lo) % 2 == 0
    requires Paragraph(c.s.ss.sel) + off >= MEGABYTE
    ensures var d := PushReal(c, v);
            && Load(d.m, Paragraph(c.s.ss.sel) + off, 2) == Load(c.m, Paragraph(c.s.ss.sel) + off, 2)
            && U16(off - d.s.sp.lo) % 2 == 0 && d.s.ss == c.s.ss
  {
    hide Load, Store;
    var d := PushReal(c, v);
    var a: int, p: int := Paragraph(c.s.ss.sel) + off, Phys(c.s.ss.sel, d.s.sp.lo);
    EvenGap(c.s.ss.sel, c.s.sp.lo, off);
    assert a - p >= 2 && a - p <= 0x20_0000;
    LoadAfterStoreApart(c.m, p, 2, v, a, 2);
  }

  lemma EvenGap(ss: Word, sp: Word, off: Word)
    requires U16(off - sp) % 2 == 0
    ensures (Paragraph(ss) + off - Phys(ss, U16(sp - 2))) % 2 == 0
    ensures U16(off - U16(sp - 2)) % 2 == 0
  {
    var y := U16(sp - 2);
    var k0 := Wraps(off - sp, M16);
    var k1 := Wraps(sp - 2, M16);
    var k2 := Wraps(ss * 16 + y, MEGABYTE);
    var k3 := Wraps(off - y, M16);
    var q := U16(off - sp) / 2;
    assert Paragraph(ss) + off - Phys(ss, y) == ss * 16 + off - (ss * 16 + y + 2 * k2);
    hide U16, Phys, Paragraph;
    Doubled(Paragraph(ss) + off - Phys(ss, y), q - k0 + 1 - k1 - k2);
    Doubled(U16(off - y), q - k0 + 1 - k1 + k3);
  }

  /** Reducing by an even modulus changes a number by an even amount. */
  lemma Wraps(x: int, w: int) returns (k: int)
    requires w == M16 || w == MEGABYTE
    ensures x % w == x + 2 * k && (w == M16 ==> U16(x) == x + 2 * k)
  {
    k := -(x / w) * (w / 2);
  }

  lemma Doubled(x: int, q: int)
    requires x == 2 * q
    ensures x % 2 == 0
  {
  }

  /** With A20 on, a slot at or above one megabyte makes the witness miss the trap. */
  lemma WitnessMisses(e: Env, iret: bool, ss: Word, top: Word)
    requires !Reaches(e, ss, top) || !Reaches(e, ss, U16(top + 2))
    ensures !AlwaysComesBack(e, iret, ss, top)
  {
    hide Load, Store, Phys, WitnessClient, CallReal, ProcReturns, Lands, StackAddr, FrameAddr, Reaches, U16;
    var y, grant := WitnessClient(e, ss, U16(top + if iret then 6 else 4)), Grant(0, []);
    var off := if !Reaches(e, ss, top) then top else U16(top + 2);
    NotReached(e, ss, off);
    WitnessEntry(e, ss, top, iret);
    ProcStarts(y, iret, grant);
    WitnessHigh(e, ss, top, iret, off);
    ZeroMissesTrap(e, CallReal(y, iret, grant).core, iret, off);
    assert Leaves(y, iret, grant, e, ss, top) && !ComesBack(y, iret, grant);
  }

  lemma NotReached(e: Env, ss: Word, off: Word)
    requires !Reaches(e, ss, off)
    ensures ss != 0 && Paragraph(ss) + off >= MEGABYTE
  {
  }

  /** A return through a zero word that the host did not write misses the trap. */
  lemma ZeroMissesTrap(e: Env, c: Core, iret: bool, off: Word)
    requires RealStack(c.s) && !Reaches(e, c.s.ss.sel, off)
    requires off == c.s.sp.lo || (off == U16(c.s.sp.lo + 2) && Reaches(e, c.s.ss.sel, c.s.sp.lo)
                                  && Word16(c.m, Phys(c.s.ss.sel, c.s.sp.lo)) == OFF_RM_RET)
    requires Load(c.m, Paragraph(c.s.ss.sel) + off, 2) == 0
    ensures !Lands(e, ProcReturns(e, c, iret))
  {
    hide Load, Phys, ProcReturns, Lands, StackAddr;
    RealReturn(e, c, iret);
    GuestAddr(e, c.s, 0);
    GuestAddr(e, c.s, 2);
    SmallWord(c.s.sp.lo);
    AtTrap(e, ProcReturns(e, c, iret));
  }

  lemma WitnessEntry(e: Env, ss: Word, top: Word, iret: bool)
    requires ss != 0
    ensures var y := WitnessClient(e, ss, U16(top + (if iret then 6 else 4)));
            && y.host.rm == [] && y.e == e && y.core.s.cx.lo == 0
            && CallReal(y, iret, Grant(0, [])).core.s.ss.sel == ss
            && CallReal(y, iret, Grant(0, [])).core.s.sp.lo == top
  {
    hide Load, Store, Phys, CallReal, FrameAddr;
    var back: int := if iret then 6 else 4;
    WitnessStack(e, ss, U16(top + back));
    ProcStarts(WitnessClient(e, ss, U16(top + back)), iret, Grant(0, []));
    ModAdd(top + back, -back, M16);
    SmallWord(top);
  }

  /** What the witness's guest reads in a slot above one megabyte is still zero. */
  lemma WitnessHigh(e: Env, ss: Word, top: Word, iret: bool, off: Word)
    requires ss != 0 && Paragraph(ss) + off >= MEGABYTE && (off == top || off == U16(top + 2))
    ensures var y := WitnessClient(e, ss, U16(top + (if iret then 6 else 4)));
            Load(CallReal(y, iret, Grant(0, [])).core.m, Paragraph(ss) + off, 2) == 0
  {
    hide Load, Store, Phys;
    var y, grant := WitnessClient(e, ss, U16(top + (if iret then 6 else 4))), Grant(0, []);
    WitnessStack(e, ss, U16(top + (if iret then 6 else 4)));
    WitnessZero(e, ss, U16(top + (if iret then 6 else 4)), Paragraph(ss) + off);
    var on := OnProcStack(y, grant);
    assert on.m == y.core.m && on.s.ss.sel == ss && on.s.sp.lo == U16(top + (if iret then 6 else 4));
    hide WitnessClient, OnProcStack;
    EvenApart(off, top, iret);
    assert CopyWords(on, ClientStack(y.core.s), 0) == on;
    var d := if iret then PushReal(on, on.s.flags) else on;
    if iret { HighSlotKept(on, on.s.flags, off); }
    HighSlotKept(d, ENTRY_SEG, off);
    HighSlotKept(PushReal(d, ENTRY_SEG), OFF_RM_RET, off);
    assert CallReal(y, iret, grant).core.m == PushReal(PushReal(d, ENTRY_SEG), OFF_RM_RET).m;
  }

  lemma EvenApart(off: Word, top: Word, iret: bool)
    requires off == top || off == U16(top + 2)
    ensures U16(off - U16(top + (if iret then 6 else 4))) % 2 == 0
  {
    var x := U16(top + (if iret then 6 else 4));
    var k0 := Wraps(top + 2, M16);
    var k1 := Wraps(top + (if iret then 6 else 4), M16);
    var k2 := Wraps(off - x, M16);
    hide U16;
    Doubled(U16(off - x), (if off == top then 0 else 1 + k0) - (if iret then 3 else 2) - k1 + k2);
  }

  lemma OneComesBack(y: Sys, iret: bool, grant: Grant, e: Env, ss: Word, top: Word)
    requires Leaves(y, iret, grant, e, ss, top) && Reaches(e, ss, top) && Reaches(e, ss, U16(top + 2))
    ensures ComesBack(y, iret, grant)
  {
    hide CallReal, ProcReturns, Lands, Phys, FrameAddr, Load;
    ProcStarts(y, iret, grant);
    ProcedureLands(y, iret, grant, e, CallReal(y, iret, grant).core);
  }

  /** The return address is sure to be found, whatever memory holds, exactly when both its words are reached. */
  lemma ReturnIsCertainExactly(e: Env, iret: bool, ss: Word, top: Word)
    ensures AlwaysComesBack(e, iret, ss, top) <==> Reaches(e, ss, top) && Reaches(e, ss, U16(top + 2))
  {
    hide ComesBack, Leaves;
    if Reaches(e, ss, top) && Reaches(e, ss, U16(top + 2)) {
      forall y, grant | Leaves(y, iret, grant, e, ss, top) ensures ComesBack(y, iret, grant) {
        OneComesBack(y, iret, grant, e, ss, top);
      }
    } else {
      WitnessMisses(e, iret, ss, top);
    }
  }
}
