/**
 The DPMI host's mode-switch protocol (`src/dpmi.cpp`, INT 31h functions 0301h and 0302h of
 DPMI 0.90): delivering an interrupt to a protected-mode handler, servicing it by default,
 and calling a real-mode procedure, which has to run guest code and come back. Each is a
 function on the whole system; the class in Dpmi.dfy performs them in place.
 */
module Protocol {
  import opened Widths
  import opened FlatMemory
  import opened Machine
  import opened Stack
  import opened Gates

  const ENTRY_SEG := 0x00E0
  const OFF_RM_RET := 0x51
  const OFF_PM_INT := 0x80
  const MAX_DEPTH := 4

  // ---- the 50-byte real-mode call structure ------------------------------------------

  datatype Field = Field(off: nat, n: nat, v: int)

  /** Fields written one after the other. */
  function StoreAll(m: Ram, f: int, fs: seq<Field>): Ram {
    if fs == [] then m
    else var x := fs[|fs| - 1]; Store(StoreAll(m, f, fs[..|fs| - 1]), f + x.off, x.n, x.v)
  }

  /** What `store_frame` writes, in its order. */
  function FrameFields(s: State, flags: Word): seq<Field> {
    [Field(0x00, 4, Gd(s.di)), Field(0x04, 4, Gd(s.si)), Field(0x08, 4, Gd(s.bp)), Field(0x10, 4, Gd(s.bx)),
     Field(0x14, 4, Gd(s.dx)), Field(0x18, 4, Gd(s.cx)), Field(0x1C, 4, Gd(s.ax)), Field(0x20, 2, flags),
     Field(0x22, 2, s.es.sel), Field(0x24, 2, s.ds.sel), Field(0x26, 2, s.fs.sel), Field(0x28, 2, s.gs.sel)]
  }

  const FRAME_BYTES := 0x2A

  function StoreFrame(m: Ram, f: Dword, s: State, flags: Word): Ram { StoreAll(m, f, FrameFields(s, flags)) }

  /** `load_frame`. */
  function LoadFrame(e: Env, m: Ram, s: State, f: Dword): State {
    s.(di := Sd(Word32(m, f)), si := Sd(Word32(m, f + 0x04)),
       bp := Sd(Word32(m, f + 0x08)), bx := Sd(Word32(m, f + 0x10)),
       dx := Sd(Word32(m, f + 0x14)), cx := Sd(Word32(m, f + 0x18)), ax := Sd(Word32(m, f + 0x1C)),
       flags := Word16(m, f + 0x20),
       es := Loaded(e, m, s, Word16(m, f + 0x22)), ds := Loaded(e, m, s, Word16(m, f + 0x24)),
       fs := Loaded(e, m, s, Word16(m, f + 0x26)), gs := Loaded(e, m, s, Word16(m, f + 0x28)))
  }

  // ---- the host ----------------------------------------------------------------------

  datatype RmCall = RmCall(saved: State, frame: Dword, unwind: bool, wide: bool, iret: bool)

  datatype Handler = Handler(sel: Word, off: Dword)

  type Handlers = h: seq<Handler> | |h| == 256 witness seq(256, _ => Handler(0, 0))

  datatype Host = Host(
    rm: seq<RmCall>, transferred: bool, inDefault: bool, client32: bool, pmint: Handlers, scratch: Word)

  /** A system: descriptor tables, processor and memory, `Cpu::iret_flags`, and the host. */
  datatype Sys = Sys(e: Env, core: Core, iretFlags: Word, host: Host)

  /** What DOS answers when the host asks for its scratch stack, and the bytes that changes. */
  datatype Grant = Grant(seg: Word, pokes: seq<(Dword, Byte)>)

  function Poked(m: Ram, pokes: seq<(Dword, Byte)>): Ram {
    if pokes == [] then m
    else Put8(Poked(m, pokes[..|pokes| - 1]), pokes[|pokes| - 1].0, pokes[|pokes| - 1].1)
  }

  // ---- interrupts --------------------------------------------------------------------

  /** `pm_int`: None of the vectors a client hooked is delivered while the host serves one by default. */
  predicate Delivers(h: Host, n: Byte) { h.pmint[n].sel != 0 && !h.inDefault }

  function IntFrame(s: State): seq<int> { [s.flags, s.cs.sel, s.ip] }

  function PmInt(y: Sys, n: Byte): Sys {
    if !Delivers(y.host, n) then y
    else
      var h := y.host.pmint[n];
      var d := PushAll(y.e, y.core, Width(y.host.client32), IntFrame(y.core.s));
      y.(core := d.(s := Jump(SetCs(y.e, d.m, d.s.(flags := SetFlag(d.s.flags, IF, false)), h.sel), h.off)))
  }

  /** `unwind_int_frame`: the IRET a protected-mode handler owes. */
  function Unwind(e: Env, c: Core, wide: bool): Core {
    var n := Width(wide);
    LoadFits(c.m, StackAddr(e, Drop(c.s, 0)), n);
    var t := Drop(c.s, 3 * n).(flags := LoadFlags(Peek(e, c, n, 2)));
    c.(s := Jump(SetCs(e, c.m, t, U16(Peek(e, c, n, 1))), Peek(e, c, n, 0)))
  }

  // ---- calls into real mode ----------------------------------------------------------

  function ToReal(s: State): State {
    s.(cr0 := s.cr0 - s.cr0 % 2, ipMask := 0xFFFF, csD := false, ssD := false)
  }

  /** A push the host makes on the real-mode stack, through `ww`. */
  function PushReal(c: Core, v: int): Core {
    var s := c.s.(sp := c.s.sp.(lo := U16(c.s.sp.lo - 2)));
    Core(s, Store(c.m, Phys(s.ss.sel, s.sp.lo), 2, v))
  }

  /** The `n` words the client asked to have copied from its stack at `src`, last first. */
  function CopyWords(c: Core, src: int, n: nat): Core
    decreases n
  {
    if n == 0 then c else CopyWords(PushReal(c, Load(c.m, src + 2 * (n - 1), 2)), src, n - 1)
  }

  /** The real-mode call structure's address. */
  function FrameAddr(y: Sys): Dword { Lin(y.e, y.core.s, y.core.s.es, Gd(y.core.s.di)) }

  predicate NeedsStack(y: Sys) {
    Word16(y.core.m, FrameAddr(y) + 0x30) == 0 && Word16(y.core.m, FrameAddr(y) + 0x2E) == 0
  }

  predicate Allocates(y: Sys) { NeedsStack(y) && y.host.scratch == 0 }

  /** The real-mode stack the procedure starts on: the client's, or 256 bytes into the host's own. */
  function ProcStack(y: Sys, grant: Grant): (Word, Word) {
    if Allocates(y) then (grant.seg, 0x0100)
    else if NeedsStack(y) then (y.host.scratch, 0x0100)
    else (Word16(y.core.m, FrameAddr(y) + 0x30), Word16(y.core.m, FrameAddr(y) + 0x2E))
  }

  /** Real mode with the structure's registers and stack, before anything is pushed. */
  function OnProcStack(y: Sys, grant: Grant): Core {
    var m := if Allocates(y) then Poked(y.core.m, grant.pokes) else y.core.m;
    var s := LoadFrame(y.e, y.core.m, ToReal(y.core.s), FrameAddr(y));
    var (ss, sp) := ProcStack(y, grant);
    var t := SetSs(y.e, m, s, ss);
    Core(t.(sp := t.sp.(lo := sp)), m)
  }

  /** Where the words to copy are: the client's own stack, at its own width. */
  function ClientStack(s: State): int { s.ss.base + if s.ssD then Gd(s.sp) else s.sp.lo }

  /** The stack as the procedure is entered with it: copied words, flags for IRET, return address. */
  function ProcEntry(y: Sys, iret: bool, grant: Grant): Core {
    var c := CopyWords(OnProcStack(y, grant), ClientStack(y.core.s), y.core.s.cx.lo % 0x100);
    var d := if iret then PushReal(c, c.s.flags) else c;
    PushReal(PushReal(d, ENTRY_SEG), OFF_RM_RET)
  }

  /** `rm_call`: four calls deep is refused. */
  function CallReal(y: Sys, iret: bool, grant: Grant): Sys {
    if |y.host.rm| >= MAX_DEPTH then
      y.(core := y.core.(s := y.core.s.(flags := SetFlag(y.core.s.flags, CF, true), ax := y.core.s.ax.(lo := 0x8001))))
    else
      var d := ProcEntry(y, iret, grant);
      var cs, ip := Word16(y.core.m, FrameAddr(y) + 0x2C), Word16(y.core.m, FrameAddr(y) + 0x2A);
      y.(core := d.(s := Jump(SetCs(y.e, d.m, d.s, cs), ip)),
         host := y.host.(rm := y.host.rm + [RmCall(y.core.s, FrameAddr(y), false, false, iret)],
                         scratch := if Allocates(y) then grant.seg else y.host.scratch,
                         transferred := true))
  }

  /** `rm_return`: registers and flags into the structure, the client back as it was but for CF. */
  function Return(y: Sys): Sys {
    if y.host.rm == [] then y.(core := y.core.(s := Jump(y.core.s, y.core.s.ip)))
    else
      var rc := y.host.rm[|y.host.rm| - 1];
      var m := StoreFrame(y.core.m, rc.frame, y.core.s, if rc.iret then y.iretFlags else y.core.s.flags);
      var c := Core(rc.saved.(flags := SetFlag(rc.saved.flags, CF, false)), m);
      y.(core := if rc.unwind then Unwind(y.e, c, rc.wide) else c,
         host := y.host.(rm := y.host.rm[..|y.host.rm| - 1]))
  }

  /** What servicing an interrupt in real mode did: it completed, or it made one call. */
  datatype Outcome = Completes(core: Core) | Calls(iret: bool, grant: Grant)

  function RealInt(y: Sys, o: Outcome): Sys {
    match o
    case Completes(core) => y.(core := core)
    case Calls(iret, grant) => CallReal(y, iret, grant)
  }

  /** `pm_int_default`: service the vector, then unwind its frame now, or leave that to `Return`. */
  function Default(y: Sys, o: Outcome): Sys {
    var z := RealInt(y.(host := y.host.(transferred := false, inDefault := true)), o);
    var h := z.host.(inDefault := false, transferred := false);
    if z.host.transferred then
      var last := |h.rm| - 1;
      z.(host := h.(rm := h.rm[last := h.rm[last].(unwind := true, wide := h.client32)]))
    else
      z.(core := Unwind(z.e, z.core, y.host.client32), host := h)
  }
}
