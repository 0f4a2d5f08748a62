/** A call into real mode from end to end, as the client sees it. */
module RealCalls {
  import opened Widths
  import opened FlatMemory
  import opened Machine
  import opened Stack
  import opened Protocol
  import opened ProtocolProofs
  import opened ProtocolRuns
  import opened Landing

  /** The procedure's closing RETF or IRET: an IRET keeps the flags it replaces in `iret_flags`. */
  function AfterReturn(y: Sys, iret: bool): Sys {
    y.(core := y.core.(s := ProcReturns(y.e, y.core, iret)),
       iretFlags := if iret then y.core.s.flags else y.iretFlags)
  }

  /** Returning changes where the procedure is and its stack pointer, and with IRET the flags. */
  lemma ReturnKeepsRegisters(e: Env, c: Core, iret: bool)
    requires RealStack(c.s)
    ensures var t := ProcReturns(e, c, iret);
            && t.ax == c.s.ax && t.bx == c.s.bx && t.cx == c.s.cx && t.dx == c.s.dx
            && t.si == c.s.si && t.di == c.s.di && t.bp == c.s.bp
            && t.es == c.s.es && t.ds == c.s.ds && t.fs == c.s.fs && t.gs == c.s.gs
            && (!iret ==> t.flags == c.s.flags)
  {
    hide Load, Lin, ReadDesc;
  }

  /**
   Functions 0301h and 0302h, end to end. Whatever the procedure runs meanwhile, once it is
   back at the depth it was entered with and leaves its stack balanced, its RETF or IRET
   lands on the host; the client then is exactly what it was but for CF, and its structure
   holds the registers the procedure left and the flags it computed, not the flags image an
   IRET restored.
   */
  lemma RealModeCall(y: Sys, iret: bool, grant: Grant, body: seq<Event>)
    requires |y.host.rm| < MAX_DEPTH
    requires var z := CallReal(y, iret, grant);
             var now := Run(z, body);
             && StaysAbove(z, body, |y.host.rm| + 1) && |now.host.rm| == |y.host.rm| + 1
             && ReadyToReturn(z.core.s, now.e, now.core)
    ensures var now := Run(CallReal(y, iret, grant), body);
            var landed := AfterReturn(now, iret);
            var back := Return(landed);
            && Lands(landed.e, landed.core.s)
            && back.host.rm == y.host.rm
            && back.core.s == y.core.s.(flags := SetFlag(y.core.s.flags, CF, false))
            && FrameHolds(back.core.m, FrameAddr(y), now.core.s, now.core.s.flags)
  {
    hide CallReal, StoreFrame, SetFlag, FrameAddr, ProcReturns, Return, Lands, Word16, Word32, Phys;
    var z := CallReal(y, iret, grant);
    var now := Run(z, body);
    var landed := AfterReturn(now, iret);
    ProcedureLands(y, iret, grant, now.e, now.core);
    ReturnKeepsRegisters(now.e, now.core, iret);
    var all := body + [Guest(landed.e, landed.core, landed.iretFlags)];
    assert all[..|all| - 1] == body;
    assert Run(z, all) == landed;
    CallReturns(y, iret, grant, all);
  }

  /** A procedure that returns at once comes back for certain when its return address can be
      reached, and the client sees its own structure's registers again. */
  lemma ReturnAtOnce(y: Sys, iret: bool, grant: Grant)
    requires |y.host.rm| < MAX_DEPTH
    requires var s := CallReal(y, iret, grant).core.s;
             Reaches(y.e, s.ss.sel, s.sp.lo) && Reaches(y.e, s.ss.sel, U16(s.sp.lo + 2))
    ensures var z := CallReal(y, iret, grant);
            var landed := AfterReturn(z, iret);
            var back := Return(landed);
            && Lands(landed.e, landed.core.s)
            && back.host.rm == y.host.rm
            && back.core.s == y.core.s.(flags := SetFlag(y.core.s.flags, CF, false))
            && FrameHolds(back.core.m, FrameAddr(y), z.core.s, z.core.s.flags)
  {
    hide CallReal, StoreFrame, SetFlag, FrameAddr, ProcReturns, Return, Lands, Word16, Word32, Phys;
    hide FrameHolds, Reaches, U16;
    var z := CallReal(y, iret, grant);
    CallOpens(y, iret, grant);
    ProcStarts(y, iret, grant);
    assert Run(z, []) == z && StaysAbove(z, [], |y.host.rm| + 1);
    RealModeCall(y, iret, grant, []);
  }

  lemma CallOpens(y: Sys, iret: bool, grant: Grant)
    requires |y.host.rm| < MAX_DEPTH
    ensures |CallReal(y, iret, grant).host.rm| == |y.host.rm| + 1 && CallReal(y, iret, grant).e == y.e
  {
    hide ProcEntry, FrameAddr, Word16, SetCs, Allocates;
  }
}
