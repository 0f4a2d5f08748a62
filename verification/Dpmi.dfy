/**
 The DPMI host of `src/dpmi.cpp` in place: its four-deep call stack, its flags and the
 client's handlers, over the processor and guest memory it drives. `System` is all of it at
 once, and each method does to the objects what the function of Protocol does to `System`.
 */
module DpmiHost {
  import opened Widths
  import opened FlatMemory
  import opened PagedMemory
  import opened Machine
  import opened Stack
  import opened Gates
  import opened Processor
  import opened Protocol
  import opened DescriptorTable

  /** Entering the procedure depends on nothing of the host's but its scratch stack. */
  lemma EntryIgnoresStack(y: Sys, z: Sys, iret: bool, grant: Grant)
    requires z == y.(host := y.host.(rm := z.host.rm))
    ensures FrameAddr(z) == FrameAddr(y) && Allocates(z) == Allocates(y)
    ensures ProcEntry(z, iret, grant) == ProcEntry(y, iret, grant)
  {
    hide Load, LoadFrame, CopyWords, PushReal, Poked, SetSs, Word16;
    assert FrameAddr(z) == FrameAddr(y);
    hide FrameAddr;
    assert ProcStack(z, grant) == ProcStack(y, grant);
    assert OnProcStack(z, grant) == OnProcStack(y, grant);
  }

  class Dpmi {
    const cpu: Cpu
    const rm: array<RmCall>
    var depth: nat
    var transferred: bool
    var inDefault: bool
    var client32: bool
    var pmint: Handlers
    var scratch: Word

    ghost predicate Valid()
      reads this, cpu, cpu.mem, cpu.mem.repr
    {
      cpu.Valid() && rm.Length == MAX_DEPTH && depth <= MAX_DEPTH && {this, rm} !! cpu.mem.repr
    }

    constructor (processor: Cpu)
      requires processor.Valid()
      ensures cpu == processor && Valid() && fresh(rm)
      ensures TheHost() == Host([], false, false, false, seq(256, _ => Handler(0, 0)), 0)
    {
      cpu := processor;
      var s := processor.s;
      rm := new RmCall[MAX_DEPTH](_ => RmCall(s, 0, false, false, false));
      depth, transferred, inDefault, client32, scratch := 0, false, false, false, 0;
      pmint := seq(256, _ => Handler(0, 0));
    }

    ghost function TheHost(): Host
      requires depth <= rm.Length
      reads this, rm
    {
      Host(rm[..depth], transferred, inDefault, client32, pmint, scratch)
    }

    ghost function System(): Sys
      requires depth <= rm.Length
      reads this, rm, cpu, cpu.mem, cpu.mem.repr
    {
      Sys(cpu.tables, cpu.View(), cpu.iretFlags, TheHost())
    }

    // ---- interrupts --------------------------------------------------------------

    /** `pm_int`: enter the client's handler, with a frame of the client's own width. */
    method PmInt(n: Byte) returns (taken: bool)
      requires Valid()
      modifies cpu`s, cpu.mem.repr
      ensures Valid() && fresh(cpu.mem.repr - old(cpu.mem.repr))
      ensures taken == Delivers(TheHost(), n) && System() == Protocol.PmInt(old(System()), n)
    {
      hide Memory.Valid, Push, Load, Lin, SpSet, SpGet, Decode, SetFlag;
      var h := pmint[n];
      if h.sel == 0 || inDefault { return false; }
      var s := cpu.s;
      PushesAre(cpu.tables, cpu.View(), Width(client32), IntFrame(s));
      cpu.PushWide(client32, s.flags);
      cpu.PushWide(client32, s.cs.sel);
      cpu.PushWide(client32, s.ip);
      cpu.SetFlagBit(IF, false);
      cpu.LoadCs(h.sel);
      cpu.JumpTo(h.off);
      taken := true;
    }

    /** `unwind_int_frame`. */
    method UnwindIntFrame(wide: bool)
      requires Valid()
      modifies cpu`s
      ensures System() == old(System()).(core := Unwind(cpu.tables, old(cpu.View()), wide))
    {
      hide Memory.Valid, Load, Lin, SpSet, SpGet, Decode, SetFlag;
      PopsAre(cpu.tables, cpu.View(), Width(wide));
      var ip := cpu.PopWide(wide);
      var cs := cpu.PopWide(wide);
      var fl := cpu.PopWide(wide);
      cpu.s := cpu.s.(flags := LoadFlags(fl));
      cpu.LoadCs(U16(cs));
      cpu.JumpTo(ip);
    }

    // ---- the call structure ------------------------------------------------------

    /** `load_frame`; the processor is in real mode, so segments come in as paragraphs. */
    method LoadCallFrame(f: Dword)
      requires Valid()
      modifies cpu`s
      ensures cpu.s == LoadFrame(cpu.tables, cpu.mem.flat, old(cpu.s), f)
    {
      hide Memory.Valid, Load, ReadDesc, Word16, Word32;
      LoadGeneral(f);
      var w := ReadShort(f + 0x20); cpu.s := cpu.s.(flags := w);
      LoadDataSegments(f);
    }

    method LoadGeneral(f: Dword)
      requires Valid()
      modifies cpu`s
      ensures var m := cpu.mem.flat;
              cpu.s == old(cpu.s).(
                di := Sd(Word32(m, f)), si := Sd(Word32(m, f + 0x04)),
                bp := Sd(Word32(m, f + 0x08)), bx := Sd(Word32(m, f + 0x10)),
                dx := Sd(Word32(m, f + 0x14)), cx := Sd(Word32(m, f + 0x18)), ax := Sd(Word32(m, f + 0x1C)))
    {
      hide Memory.Valid, Load, Word32, Sd;
      var v := ReadLong(f); cpu.s := cpu.s.(di := Sd(v));
      v := ReadLong(f + 0x04); cpu.s := cpu.s.(si := Sd(v));
      v := ReadLong(f + 0x08); cpu.s := cpu.s.(bp := Sd(v));
      v := ReadLong(f + 0x10); cpu.s := cpu.s.(bx := Sd(v));
      v := ReadLong(f + 0x14); cpu.s := cpu.s.(dx := Sd(v));
      v := ReadLong(f + 0x18); cpu.s := cpu.s.(cx := Sd(v));
      v := ReadLong(f + 0x1C); cpu.s := cpu.s.(ax := Sd(v));
    }

    method LoadDataSegments(f: Dword)
      requires Valid()
      modifies cpu`s
      ensures var s, m := old(cpu.s), cpu.mem.flat;
              cpu.s == s.(es := Loaded(cpu.tables, m, s, Word16(m, f + 0x22)),
                          ds := Loaded(cpu.tables, m, s, Word16(m, f + 0x24)),
                          fs := Loaded(cpu.tables, m, s, Word16(m, f + 0x26)),
                          gs := Loaded(cpu.tables, m, s, Word16(m, f + 0x28)))
    {
      hide Memory.Valid, Load, ReadDesc, Word16;
      var w := ReadShort(f + 0x22);
      var es, _ := cpu.LoadSegment(w); cpu.s := cpu.s.(es := es);
      w := ReadShort(f + 0x24);
      var ds, _ := cpu.LoadSegment(w); cpu.s := cpu.s.(ds := ds);
      w := ReadShort(f + 0x26);
      var fs, _ := cpu.LoadSegment(w); cpu.s := cpu.s.(fs := fs);
      w := ReadShort(f + 0x28);
      var gs, _ := cpu.LoadSegment(w); cpu.s := cpu.s.(gs := gs);
    }

    /** `store_frame`: twelve writes in order. */
    method StoreCallFrame(f: Dword, flags: Word)
      requires Valid()
      modifies cpu.mem.repr
      ensures Valid() && fresh(cpu.mem.repr - old(cpu.mem.repr))
      ensures cpu.mem.flat == StoreFrame(old(cpu.mem.flat), f, cpu.s, flags)
    {
      hide Memory.Valid, Store;
      ghost var fs, m := FrameFields(cpu.s, flags), cpu.mem.flat;
      WriteField(f, 0x00, Gd(cpu.s.di), fs, 0, m);
      WriteField(f, 0x04, Gd(cpu.s.si), fs, 1, m);
      WriteField(f, 0x08, Gd(cpu.s.bp), fs, 2, m);
      WriteField(f, 0x10, Gd(cpu.s.bx), fs, 3, m);
      WriteField(f, 0x14, Gd(cpu.s.dx), fs, 4, m);
      WriteField(f, 0x18, Gd(cpu.s.cx), fs, 5, m);
      WriteField(f, 0x1C, Gd(cpu.s.ax), fs, 6, m);
      WriteShort(f, 0x20, flags, fs, 7, m);
      WriteShort(f, 0x22, cpu.s.es.sel, fs, 8, m);
      WriteShort(f, 0x24, cpu.s.ds.sel, fs, 9, m);
      WriteShort(f, 0x26, cpu.s.fs.sel, fs, 10, m);
      WriteShort(f, 0x28, cpu.s.gs.sel, fs, 11, m);
      assert fs[..12] == fs;
    }

    method WriteField(f: Dword, off: nat, v: Dword, ghost fs: seq<Field>, ghost i: nat, ghost m: Ram)
      requires Valid() && i < |fs| && fs[i] == Field(off, 4, v) && cpu.mem.flat == StoreAll(m, f, fs[..i])
      modifies cpu.mem.repr
      ensures Valid() && fresh(cpu.mem.repr - old(cpu.mem.repr))
      ensures cpu.mem.flat == StoreAll(m, f, fs[..i + 1])
    {
      hide Memory.Valid;
      StoreWraps(cpu.mem.flat, f + off, 4, v);
      cpu.mem.Write32(U32(f + off), v);
      assert fs[..i + 1][..i] == fs[..i];
    }

    method WriteShort(f: Dword, off: nat, v: Word, ghost fs: seq<Field>, ghost i: nat, ghost m: Ram)
      requires Valid() && i < |fs| && fs[i] == Field(off, 2, v) && cpu.mem.flat == StoreAll(m, f, fs[..i])
      modifies cpu.mem.repr
      ensures Valid() && fresh(cpu.mem.repr - old(cpu.mem.repr))
      ensures cpu.mem.flat == StoreAll(m, f, fs[..i + 1])
    {
      hide Memory.Valid;
      StoreWraps(cpu.mem.flat, f + off, 2, v);
      cpu.mem.Write16(U32(f + off), v);
      assert fs[..i + 1][..i] == fs[..i];
    }

    method ReadShort(a: int) returns (v: Word)
      requires Valid()
      ensures v == Word16(cpu.mem.flat, a)
    {
      hide Memory.Valid, Load;
      SameAddr(cpu.mem.flat, a, 0);
      v := cpu.mem.Read16(U32(a));
    }

    method ReadLong(a: int) returns (v: Dword)
      requires Valid()
      ensures v == Word32(cpu.mem.flat, a)
    {
      hide Memory.Valid, Load;
      SameAddr(cpu.mem.flat, a, 0);
      v := cpu.mem.Read32(U32(a));
    }

    // ---- calls into real mode ----------------------------------------------------

    /** One word onto the real-mode stack. */
    method PushWord(v: Word)
      requires Valid()
      modifies cpu`s, cpu.mem.repr
      ensures Valid() && fresh(cpu.mem.repr - old(cpu.mem.repr))
      ensures cpu.View() == PushReal(old(cpu.View()), v)
    {
      hide Memory.Valid, Store, Phys;
      cpu.s := cpu.s.(sp := cpu.s.sp.(lo := U16(cpu.s.sp.lo - 2)));
      cpu.mem.Write16(Phys(cpu.s.ss.sel, cpu.s.sp.lo), v);
    }

    /** The loop that copies the client's words, from the last down to the first. */
    method CopyStack(src: int, words: nat)
      requires Valid()
      modifies cpu`s, cpu.mem.repr
      ensures Valid() && fresh(cpu.mem.repr - old(cpu.mem.repr))
      ensures cpu.View() == CopyWords(old(cpu.View()), src, words)
    {
      hide Memory.Valid, Load, PushReal;
      var i := words;
      while i > 0
        invariant Valid() && fresh(cpu.mem.repr - old(cpu.mem.repr))
        invariant CopyWords(cpu.View(), src, i) == CopyWords(old(cpu.View()), src, words)
      {
        i := i - 1;
        var v := ReadShort(src + 2 * i);
        PushWord(v);
      }
    }

    /** Whatever DOS writes while it finds a stack for the host. */
    method ApplyPokes(pokes: seq<(Dword, Byte)>)
      requires Valid()
      modifies cpu.mem.repr
      ensures Valid() && fresh(cpu.mem.repr - old(cpu.mem.repr))
      ensures cpu.mem.flat == Poked(old(cpu.mem.flat), pokes)
    {
      hide Memory.Valid;
      for i := 0 to |pokes|
        invariant Valid() && fresh(cpu.mem.repr - old(cpu.mem.repr))
        invariant cpu.mem.flat == Poked(old(cpu.mem.flat), pokes[..i])
      {
        cpu.mem.Write8(pokes[i].0, pokes[i].1);
        assert pokes[..i + 1][..i] == pokes[..i];
      }
      assert pokes[..|pokes|] == pokes;
    }

    /** The stack the procedure starts on; the host's own is allocated when it is first needed. */
    method SwitchToProcStack(f: Dword, grant: Grant)
      requires Valid()
      modifies this`scratch, cpu`s, cpu.mem.repr
      ensures Valid() && fresh(cpu.mem.repr - old(cpu.mem.repr))
      ensures var m := old(cpu.mem.flat);
              var needs := Word16(m, f + 0x30) == 0 && Word16(m, f + 0x2E) == 0;
              var allocates := needs && old(scratch) == 0;
              var ss := if allocates then grant.seg else if needs then old(scratch) else Word16(m, f + 0x30);
              var t := SetSs(cpu.tables, cpu.mem.flat, LoadFrame(cpu.tables, m, ToReal(old(cpu.s)), f), ss);
              && cpu.mem.flat == (if allocates then Poked(m, grant.pokes) else m)
              && scratch == (if allocates then grant.seg else old(scratch))
              && cpu.s == t.(sp := t.sp.(lo := if needs then 0x0100 else Word16(m, f + 0x2E)))
    {
      hide Memory.Valid, Load, ReadDesc, Word16, Word32;
      var ss := ReadShort(f + 0x30);
      var sp := ReadShort(f + 0x2E);
      cpu.s := ToReal(cpu.s);
      LoadCallFrame(f);
      hide LoadFrame;
      if ss == 0 && sp == 0 {
        if scratch == 0 {
          ApplyPokes(grant.pokes);
          scratch := grant.seg;
        }
        ss, sp := scratch, 0x0100;
      }
      cpu.LoadSs(ss);
      cpu.s := cpu.s.(sp := cpu.s.sp.(lo := sp));
    }

    /** The frame under the procedure: flags if it ends with IRET, then the host's return entry. */
    method PushReturn(iret: bool)
      requires Valid()
      modifies cpu`s, cpu.mem.repr
      ensures Valid() && fresh(cpu.mem.repr - old(cpu.mem.repr))
      ensures var c := old(cpu.View());
              cpu.View() == PushReal(PushReal(if iret then PushReal(c, c.s.flags) else c, ENTRY_SEG), OFF_RM_RET)
    {
      hide Memory.Valid, PushReal;
      if iret { PushWord(cpu.s.flags); }
      PushWord(ENTRY_SEG);
      PushWord(OFF_RM_RET);
    }

    /** Real mode, the structure's registers and stack, and the frame under the procedure. */
    method EnterProcStack(f: Dword, iret: bool, grant: Grant)
      requires Valid() && f == FrameAddr(System())
      modifies this`scratch, cpu`s, cpu.mem.repr
      ensures Valid() && fresh(cpu.mem.repr - old(cpu.mem.repr))
      ensures cpu.View() == ProcEntry(old(System()), iret, grant)
      ensures scratch == if Allocates(old(System())) then grant.seg else old(scratch)
    {
      hide Memory.Valid, Load, ReadDesc, Word16, Word32, LoadFrame, CopyWords, PushReal, Poked, FrameAddr, Gd;
      var saved := cpu.s;
      SwitchToProcStack(f, grant);
      CopyStack(saved.ss.base + if saved.ssD then Gd(saved.sp) else saved.sp.lo, saved.cx.lo % 0x100);
      PushReturn(iret);
    }

    method OpenCall(f: Dword, iret: bool)
      requires Valid() && depth < MAX_DEPTH
      modifies this`depth, rm
      ensures depth <= MAX_DEPTH
      ensures TheHost() == old(TheHost()).(rm := old(TheHost()).rm + [RmCall(cpu.s, f, false, false, iret)])
    {
      hide Memory.Valid;
      rm[depth] := RmCall(cpu.s, f, false, false, iret);
      depth := depth + 1;
      assert rm[..depth] == old(rm[..depth]) + [RmCall(cpu.s, f, false, false, iret)];
    }

    /** `rm_call`. */
    method RealModeCall(iret: bool, grant: Grant)
      requires Valid()
      modifies this`scratch, this`depth, this`transferred, rm, cpu`s, cpu.mem.repr
      ensures Valid() && fresh(cpu.mem.repr - old(cpu.mem.repr))
      ensures System() == CallReal(old(System()), iret, grant)
    {
      hide Memory.Valid, Load, ReadDesc, Word16, SetFlag, ProcEntry, NeedsStack;
      ghost var y := System();
      var f: int := Lin(cpu.tables, cpu.s, cpu.s.es, Gd(cpu.s.di));
      assert f == FrameAddr(y);
      hide FrameAddr, Lin, Gd;
      if depth >= MAX_DEPTH {
        cpu.SetFlagBit(CF, true);
        cpu.s := cpu.s.(ax := cpu.s.ax.(lo := 0x8001));
        return;
      }
      OpenCall(f, iret);
      EntryIgnoresStack(y, System(), iret, grant);
      hide Allocates, Jump;
      var targetCs := ReadShort(f + 0x2C);
      var targetIp := ReadShort(f + 0x2A);
      EnterProcStack(f, iret, grant);
      cpu.LoadCs(targetCs);
      cpu.JumpTo(targetIp);
      transferred := true;
    }

    /** `rm_return`. */
    method RealModeReturn()
      requires Valid()
      modifies this`depth, cpu`s, cpu.mem.repr
      ensures Valid() && fresh(cpu.mem.repr - old(cpu.mem.repr))
      ensures System() == Return(old(System()))
    {
      hide Memory.Valid, Load, ReadDesc, SetFlag, StoreFrame, Unwind;
      if depth == 0 {
        cpu.JumpTo(cpu.s.ip);
        return;
      }
      depth := depth - 1;
      var rc := rm[depth];
      assert rm[..depth] == old(rm[..depth])[..depth] && rc == old(rm[..depth])[depth];
      StoreCallFrame(rc.frame, if rc.iret then cpu.iretFlags else cpu.s.flags);
      cpu.s := rc.saved;
      cpu.SetFlagBit(CF, false);
      if rc.unwind { UnwindIntFrame(rc.wide); }
    }

    /** What the real-mode layer did with the interrupt: finished it, or called into real mode. */
    method RealInterrupt(o: Outcome, pokes: seq<(Dword, Byte)>)
      requires Valid() && (o.Completes? ==> o.core.m == Poked(cpu.mem.flat, pokes))
      modifies this`scratch, this`depth, this`transferred, rm, cpu`s, cpu.mem.repr
      ensures Valid() && fresh(cpu.mem.repr - old(cpu.mem.repr))
      ensures System() == RealInt(old(System()), o)
    {
      hide Memory.Valid, CallReal, Poked;
      match o
      case Completes(core) =>
        ApplyPokes(pokes);
        cpu.s := core.s;
      case Calls(iret, grant) =>
        RealModeCall(iret, grant);
    }

    /** `pm_int_default`: when a call was made there is one, and it is the one marked. */
    method PmIntDefault(o: Outcome, pokes: seq<(Dword, Byte)>)
      requires Valid() && (o.Completes? ==> o.core.m == Poked(cpu.mem.flat, pokes))
      modifies this, rm, cpu`s, cpu.mem.repr
      ensures Valid() && fresh(cpu.mem.repr - old(cpu.mem.repr))
      ensures System() == Default(old(System()), o)
    {
      hide Memory.Valid, Poked, Unwind, ProcEntry, FrameAddr;
      var wide := client32;
      transferred := false;
      inDefault := true;
      RealInterrupt(o, pokes);
      inDefault := false;
      if transferred {
        transferred := false;
        rm[depth - 1] := rm[depth - 1].(unwind := true, wide := wide);
        return;
      }
      UnwindIntFrame(wide);
    }

    // ---- handlers ----------------------------------------------------------------

    /** INT 31h AX=0204h: what the client hooked, or the host's own handler for that vector. */
    method GetHandler(n: Byte, ldt: Ldt) returns (h: Handler)
      requires Valid() && ldt.Valid() && ldt.mem == cpu.mem
      modifies ldt`nextSel, ldt`entrySel, cpu.mem.repr
      ensures Valid() && ldt.Valid() && fresh(cpu.mem.repr - old(cpu.mem.repr)) && TheHost() == old(TheHost())
      ensures pmint[n].sel != 0 ==> h == pmint[n] && cpu.mem.flat == old(cpu.mem.flat)
      ensures pmint[n].sel == 0 ==> h == Handler(ldt.entrySel, OFF_PM_INT + n)
      ensures pmint[n].sel == 0 && old(ldt.entrySel) == 0 ==>
                && h == DefaultHandler(old(ldt.nextSel), n)
                && cpu.mem.flat == EntryMade(old(cpu.mem.flat), old(ldt.nextSel))
      ensures pmint[n].sel == 0 && old(ldt.entrySel) != 0 ==>
                h.sel == old(ldt.entrySel) && cpu.mem.flat == old(cpu.mem.flat)
      ensures pmint[n].sel == 0 && RawAt(cpu.mem.flat, DescAddr(cpu.tables, h.sel)) == EntryRaw() ==>
                ReachesDefault(cpu.tables, cpu.mem.flat, h, n)
      ensures pmint[n].sel == 0 && old(ldt.entrySel) == 0 && cpu.tables.ldtBase == LDT_BASE ==>
                old(ldt.nextSel) < LDT_COUNT || !cpu.tables.gdtLoaded ==> ReachesDefault(cpu.tables, cpu.mem.flat, h, n)
    {
      hide Memory.Valid, PutRaw, RawAt, DescAddr, ReachesDefault;
      if pmint[n].sel != 0 { return pmint[n]; }
      ghost var m, next, made := cpu.mem.flat, ldt.nextSel, ldt.entrySel == 0;
      var sel := ldt.EntrySelector();
      h := Handler(sel, OFF_PM_INT + n);
      if RawAt(cpu.mem.flat, DescAddr(cpu.tables, sel)) == EntryRaw() {
        DefaultLands(cpu.tables, cpu.mem.flat, sel, n);
      }
      if made && cpu.tables.ldtBase == LDT_BASE && (next < LDT_COUNT || !cpu.tables.gdtLoaded) {
        EntryReaches(cpu.tables, m, next, n);
      }
    }

    /** AX=0205h: from now on the vector is delivered to `h`, unless the host is serving one. */
    method SetHandler(n: Byte, h: Handler)
      requires Valid()
      modifies this`pmint
      ensures Valid() && TheHost() == old(TheHost()).(pmint := old(pmint)[n := h])
      ensures Delivers(TheHost(), n) <==> h.sel != 0 && !inDefault
      ensures forall k: Byte :: k != n ==> (Delivers(TheHost(), k) <==> Delivers(old(TheHost()), k))
    {
      hide Memory.Valid;
      pmint := pmint[n := h];
    }
  }
}
