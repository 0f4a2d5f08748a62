/** Whole runs of guest and host: calls into real mode nest, return, and lose nothing. */
module ProtocolRuns {
  import opened Widths
  import opened FlatMemory
  import opened Bits
  import opened Machine
  import opened Stack
  import opened Gates
  import opened Protocol
  import opened ProtocolProofs

  /**
   A step. The guest may do anything to the processor, memory, tables and flags it owns;
   the host's own state changes only through its services.
   */
  datatype Event =
    | Guest(e: Env, core: Core, iretFlags: Word)
    | Hook(n: Byte, handler: Handler)
    | Interrupt(n: Byte)
    | Call(iret: bool, grant: Grant)
    | Trap
    | Chain(outcome: Outcome)

  function Step(y: Sys, ev: Event): Sys {
    match ev
    case Guest(e, core, iretFlags) => y.(e := e, core := core, iretFlags := iretFlags)
    case Hook(n, h) => y.(host := y.host.(pmint := y.host.pmint[n := h]))
    case Interrupt(n) => PmInt(y, n)
    case Call(iret, grant) => CallReal(y, iret, grant)
    case Trap => Return(y)
    case Chain(o) => Default(y, o)
  }

  function Run(y: Sys, evs: seq<Event>): Sys {
    if evs == [] then y else Step(Run(y, evs[..|evs| - 1]), evs[|evs| - 1])
  }

  /** Between steps: at most four calls deep, and no default service under way. */
  ghost predicate HostOk(h: Host) { |h.rm| <= MAX_DEPTH && !h.inDefault }

  lemma StepKeepsHost(y: Sys, ev: Event)
    requires HostOk(y.host)
    ensures HostOk(Step(y, ev).host)
  {
    hide Unwind, ProcEntry, StoreFrame, PushAll;
  }

  /** In every run calls are at most four deep. */
  lemma {:induction false} RunKeepsHost(y: Sys, evs: seq<Event>)
    requires HostOk(y.host)
    ensures HostOk(Run(y, evs).host)
    decreases |evs|
  {
    if evs != [] {
      RunKeepsHost(y, evs[..|evs| - 1]);
      StepKeepsHost(Run(y, evs[..|evs| - 1]), evs[|evs| - 1]);
    }
  }

  /** Throughout the run at least `d` calls are open. */
  ghost predicate StaysAbove(y: Sys, evs: seq<Event>, d: nat)
    decreases |evs|
  {
    |Run(y, evs).host.rm| >= d && (evs != [] ==> StaysAbove(y, evs[..|evs| - 1], d))
  }

  /** A call that is not the innermost afterwards, and was not before, is untouched by a step. */
  lemma StepKeepsOuter(y: Sys, ev: Event, d: nat)
    requires |y.host.rm| >= d && |Step(y, ev).host.rm| >= d
    ensures Step(y, ev).host.rm[..d] == y.host.rm[..d]
  {
    hide Unwind, ProcEntry, StoreFrame, PushAll;
  }

  lemma {:induction false} RunKeepsOuter(y: Sys, evs: seq<Event>, d: nat)
    requires StaysAbove(y, evs, d)
    ensures |y.host.rm| >= d && Run(y, evs).host.rm[..d] == y.host.rm[..d]
    decreases |evs|
  {
    if evs != [] {
      RunKeepsOuter(y, evs[..|evs| - 1], d);
      StepKeepsOuter(Run(y, evs[..|evs| - 1]), evs[|evs| - 1], d);
    }
  }

  /** What `Return` makes of the registers the procedure left and of the call it closes. */
  lemma ReturnIs(y: Sys, rc: RmCall, outer: seq<RmCall>)
    requires y.host.rm == outer + [rc]
    ensures var z, flags := Return(y), if rc.iret then y.iretFlags else y.core.s.flags;
            var client := rc.saved.(flags := SetFlag(rc.saved.flags, CF, false));
            var c := Core(client, StoreFrame(y.core.m, rc.frame, y.core.s, flags));
            && z.host == y.host.(rm := outer)
            && z.core == (if rc.unwind then Unwind(y.e, c, rc.wide) else c)
            && z.e == y.e && z.iretFlags == y.iretFlags
  {
    hide Unwind, StoreFrame, SetFlag;
    assert (outer + [rc])[..|outer|] == outer;
  }

  /** A return with no call open changes nothing. */
  lemma StrayReturn(y: Sys)
    requires y.host.rm == [] && y.core.s.ip == Masked(y.core.s.ip, y.core.s.ipMask)
    ensures Return(y) == y
  {
  }

  /**
   Calls return in the order they nest. However the procedure runs, and whatever it calls
   meanwhile, when its own call closes the client is exactly what it was but for CF, and
   its structure holds the procedure's registers and result flags.
   */
  lemma CallReturns(y: Sys, iret: bool, grant: Grant, inner: seq<Event>)
    requires |y.host.rm| < MAX_DEPTH
    requires var z := CallReal(y, iret, grant);
             StaysAbove(z, inner, |y.host.rm| + 1) && |Run(z, inner).host.rm| == |y.host.rm| + 1
    ensures var now := Run(CallReal(y, iret, grant), inner);
            var back, flags := Return(now), if iret then now.iretFlags else now.core.s.flags;
            && back.host.rm == y.host.rm
            && back.core.s == y.core.s.(flags := SetFlag(y.core.s.flags, CF, false))
            && back.core.m == StoreFrame(now.core.m, FrameAddr(y), now.core.s, flags)
            && FrameHolds(back.core.m, FrameAddr(y), now.core.s, flags)
  {
    hide Unwind, StoreFrame, SetFlag, FrameHolds, ProcEntry, FrameAddr;
    var z, d := CallReal(y, iret, grant), |y.host.rm| + 1;
    var now := Run(z, inner);
    var flags := if iret then now.iretFlags else now.core.s.flags;
    RunKeepsOuter(z, inner, d);
    assert now.host.rm == now.host.rm[..d] && z.host.rm == z.host.rm[..d];
    ReturnIs(now, RmCall(y.core.s, FrameAddr(y), false, false, iret), y.host.rm);
    FrameStored(now.core.m, FrameAddr(y), now.core.s, flags);
  }

  /** A default service that calls into real mode leaves its unwind to that call. */
  lemma DefaultDefers(y: Sys, iret: bool, grant: Grant)
    requires |y.host.rm| < MAX_DEPTH
    ensures var z := Default(y, Calls(iret, grant));
            z.host.rm == y.host.rm + [RmCall(y.core.s, FrameAddr(y), true, y.host.client32, iret)]
  {
    hide ProcEntry, FrameAddr, SetCs;
    var z := y.(host := y.host.(transferred := false, inDefault := true));
    assert FrameAddr(z) == FrameAddr(y) by { FrameAddrIgnoresHost(y, z); }
    var rm, call := y.host.rm, RmCall(y.core.s, FrameAddr(y), false, false, iret);
    assert CallReal(z, iret, grant).host.rm == rm + [call];
    assert (rm + [call])[|rm| := call.(unwind := true, wide := y.host.client32)]
           == rm + [call.(unwind := true, wide := y.host.client32)];
  }

  lemma FrameAddrIgnoresHost(y: Sys, z: Sys)
    requires z == y.(host := z.host)
    ensures FrameAddr(z) == FrameAddr(y)
  {
  }

  // ---- 0205h, and the interrupts that come after it ----------------------------------

  /** No 0205h for vector `n` in the run. */
  ghost predicate NotHooked(evs: seq<Event>, n: Byte) { forall k :: 0 <= k < |evs| && evs[k].Hook? ==> evs[k].n != n }

  lemma {:induction false} RunKeepsHandler(y: Sys, evs: seq<Event>, n: Byte)
    requires NotHooked(evs, n)
    ensures Run(y, evs).host.pmint[n] == y.host.pmint[n]
    decreases |evs|
  {
    hide Unwind, ProcEntry, StoreFrame, PushAll, FrameAddr, SetCs;
    if evs != [] { RunKeepsHandler(y, evs[..|evs| - 1], n); }
  }

  /**
   From 0205h on, through any run in which the vector is not hooked again, an interrupt goes on at the
   handler given; and with a null selector it is not delivered.
   */
  lemma HookedVectorRuns(y: Sys, n: Byte, h: Handler, evs: seq<Event>)
    requires HostOk(y.host) && NotHooked(evs, n)
    ensures var z := Run(Step(y, Hook(n, h)), evs);
            var t := PmInt(z, n);
            var d := ReadDesc(z.e, t.core.m, h.sel);
            && (h.sel == 0 ==> t == z)
            && (h.sel != 0 ==>
                  && t.core.s.cs.sel == h.sel && (Pe(z.core.s) ==> t.core.s.cs.base == d.base)
                  && t.core.s.ip == (if Pe(z.core.s) && d.big then h.off else U16(h.off))
                  && OnlyIfCleared(z.core.s.flags, t.core.s.flags)
                  && FrameIs(z.e, t.core, if z.host.client32 then 4 else 2,
                             [z.core.s.flags, z.core.s.cs.sel, z.core.s.ip]))
  {
    var hooked := Step(y, Hook(n, h));
    var z := Run(hooked, evs);
    RunKeepsHandler(hooked, evs, n);
    RunKeepsHost(hooked, evs);
    hide Run, PmInt, ReadDesc, FrameIs, OnlyIfCleared, Pe;
    if h.sel != 0 {
      PmIntEnters(z, n);
      PmIntFrame(z, n);
    } else {
      NotDelivered(z, n);
    }
  }

  /** Nothing is delivered for a vector nobody hooked, nor while the host serves one by default. */
  lemma NotDelivered(y: Sys, n: Byte)
    requires y.host.pmint[n].sel == 0 || y.host.inDefault
    ensures PmInt(y, n) == y
  {
  }

  // ---- the host's own stack ----------------------------------------------------------

  /** The step has the host ask DOS for its scratch stack. */
  predicate Asks(y: Sys, ev: Event) {
    |y.host.rm| < MAX_DEPTH && Allocates(y) && (ev.Call? || (ev.Chain? && ev.outcome.Calls?))
  }

  /** DOS grants what it is asked for. */
  predicate Generous(ev: Event) {
    match ev
    case Call(_, grant) => grant.seg != 0
    case Chain(Calls(_, grant)) => grant.seg != 0
    case _ => true
  }

  function AskCount(y: Sys, evs: seq<Event>): nat
    decreases |evs|
  {
    if evs == [] then 0
    else AskCount(y, evs[..|evs| - 1]) + if Asks(Run(y, evs[..|evs| - 1]), evs[|evs| - 1]) then 1 else 0
  }

  lemma StepKeepsScratch(y: Sys, ev: Event)
    ensures !Asks(y, ev) ==> Step(y, ev).host.scratch == y.host.scratch
    ensures Asks(y, ev) && Generous(ev) ==> y.host.scratch == 0 && Step(y, ev).host.scratch != 0
  {
    hide Unwind, ProcEntry, StoreFrame, PushAll, FrameAddr, SetCs, Word16;
    var z := y.(host := y.host.(transferred := false, inDefault := true));
    FrameAddrIgnoresHost(y, z);
    assert Allocates(z) == Allocates(y);
  }

  /** However many calls leave the real-mode stack to the host, it asks DOS for one at most once. */
  lemma {:induction false} AsksOnce(y: Sys, evs: seq<Event>)
    requires forall k :: 0 <= k < |evs| ==> Generous(evs[k])
    ensures AskCount(y, evs) <= 1
    ensures AskCount(y, evs) == 0 ==> Run(y, evs).host.scratch == y.host.scratch
    ensures AskCount(y, evs) == 1 ==> y.host.scratch == 0 && Run(y, evs).host.scratch != 0
    decreases |evs|
  {
    if evs != [] {
      var front, last := evs[..|evs| - 1], evs[|evs| - 1];
      AsksOnce(y, front);
      StepKeepsScratch(Run(y, front), last);
      hide Step;
    }
  }

  // ---- interrupts that chain to the host's default -----------------------------------

  /** What width a client's frames have is settled when it enters protected mode. */
  lemma {:induction false} RunKeepsWidth(y: Sys, evs: seq<Event>)
    ensures Run(y, evs).host.client32 == y.host.client32
    decreases |evs|
  {
    hide Unwind, ProcEntry, StoreFrame, PushAll, FrameAddr, SetCs;
    if evs != [] { RunKeepsWidth(y, evs[..|evs| - 1]); }
  }

  /** A handler's run up to where it chains: whatever it calls has returned by then. */
  ghost predicate Chains(y: Sys, n: Byte, before: seq<Event>) {
    && StaysAbove(PmInt(y, n), before, |y.host.rm|)
    && |Run(PmInt(y, n), before).host.rm| == |y.host.rm|
  }

  lemma AtTheChain(y: Sys, n: Byte, before: seq<Event>)
    requires Chains(y, n, before)
    ensures var chained := Run(PmInt(y, n), before);
            chained.host.rm == y.host.rm && chained.host.client32 == y.host.client32
  {
    var z, d := PmInt(y, n), |y.host.rm|;
    assert z.host == y.host by { hide PushAll, SetCs; }
    hide PmInt, Run;
    RunKeepsOuter(z, before, d);
    RunKeepsWidth(z, before);
    assert Run(z, before).host.rm[..d] == Run(z, before).host.rm && y.host.rm[..d] == y.host.rm;
  }

  /**
   A hooked interrupt whose handler, after doing anything at all, chains to the host's default,
   which services it and unwinds at once: the client goes on exactly where it was interrupted.
   */
  lemma ChainedInterruptResumes(y: Sys, n: Byte, before: seq<Event>, serviced: Core)
    requires Pe(y.core.s) && Delivers(y.host, n) && (y.host.client32 || y.core.s.ip < M16)
    requires Chains(y, n, before)
    requires FrameKept(y.e, PmInt(y, n).core, serviced, y.host.client32)
    requires CodeAgrees(Run(PmInt(y, n), before).e, serviced.m, y.core.s)
    ensures var chained := Run(PmInt(y, n), before);
            var z := Default(chained, Completes(serviced));
            && Resumed(y.core.s, z.core.s) && z.core.m == serviced.m
            && z.host == chained.host.(transferred := false, inDefault := false) && z.host.rm == y.host.rm
  {
    hide PmInt, Unwind, ReadDesc, Lin, Load, Run, Chains, FrameKept, CodeAgrees;
    AtTheChain(y, n, before);
    FrameUnwinds(y, n, Run(PmInt(y, n), before).e, serviced);
  }

  /**
   The same when the default service calls into real mode: the IRET left owing is performed when
   the procedure returns, and the interrupted client resumes where it was.
   */
  lemma DeferredInterruptResumes(
      y: Sys, n: Byte, before: seq<Event>, iret: bool, grant: Grant, inner: seq<Event>)
    requires Pe(y.core.s) && Delivers(y.host, n) && (y.host.client32 || y.core.s.ip < M16)
    requires Chains(y, n, before) && |y.host.rm| < MAX_DEPTH
    requires var chained := Run(PmInt(y, n), before);
             var z := Default(chained, Calls(iret, grant));
             var now := Run(z, inner);
             && StaysAbove(z, inner, |y.host.rm| + 1) && |now.host.rm| == |y.host.rm| + 1
             && var flags := if iret then now.iretFlags else now.core.s.flags;
                var m := StoreFrame(now.core.m, FrameAddr(chained), now.core.s, flags);
                && FrameKept(y.e, PmInt(y, n).core, Core(chained.core.s, m), y.host.client32)
                && CodeAgrees(now.e, m, y.core.s)
    ensures var chained := Run(PmInt(y, n), before);
            var now := Run(Default(chained, Calls(iret, grant)), inner);
            var back, flags := Return(now), if iret then now.iretFlags else now.core.s.flags;
            && Resumed(y.core.s, back.core.s)
            && back.host.rm == y.host.rm
            && back.core.m == StoreFrame(now.core.m, FrameAddr(chained), now.core.s, flags)
  {
    hide PmInt, Unwind, StoreFrame, SetFlag, ProcEntry, FrameAddr, ReadDesc, Lin, Load, Chains, CodeAgrees, FrameKept;
    AtTheChain(y, n, before);
    var chained := Run(PmInt(y, n), before);
    var z, d := Default(chained, Calls(iret, grant)), |y.host.rm| + 1;
    var now := Run(z, inner);
    var flags := if iret then now.iretFlags else now.core.s.flags;
    var m := StoreFrame(now.core.m, FrameAddr(chained), now.core.s, flags);
    var rc := RmCall(chained.core.s, FrameAddr(chained), true, y.host.client32, iret);
    DefaultDefers(chained, iret, grant);
    hide Default, Run;
    RunKeepsOuter(z, inner, d);
    assert now.host.rm == now.host.rm[..d] && z.host.rm == z.host.rm[..d];
    ReturnIs(now, rc, y.host.rm);
    var client := Core(chained.core.s.(flags := SetFlag(chained.core.s.flags, CF, false)), m);
    FrameKeptFlags(y.e, PmInt(y, n).core, Core(chained.core.s, m), client, y.host.client32);
    FrameUnwinds(y, n, now.e, client);
  }

  lemma FrameKeptFlags(e: Env, from: Core, to: Core, to': Core, wide: bool)
    requires FrameKept(e, from, to, wide) && to' == to.(s := to.s.(flags := to'.s.flags))
    ensures FrameKept(e, from, to', wide)
  {
    hide Load, Lin;
    forall k | 0 <= k < 3 ensures Peek(e, to', Width(wide), k) == Peek(e, to, Width(wide), k) {
      SamePlaces(e, to.s, to'.s, Width(wide) * k);
    }
  }

  // ---- every interrupt frame is popped once ------------------------------------------

  /** How many unwinds open calls still owe. */
  function Owed(rm: seq<RmCall>): nat {
    if rm == [] then 0 else Owed(rm[..|rm| - 1]) + if rm[|rm| - 1].unwind then 1 else 0
  }

  /** Whether the step pops an interrupt frame. */
  predicate Unwinds(y: Sys, ev: Event) {
    match ev
    case Chain(o) => !RealInt(y.(host := y.host.(transferred := false, inDefault := true)), o).host.transferred
    case Trap => y.host.rm != [] && y.host.rm[|y.host.rm| - 1].unwind
    case _ => false
  }

  function UnwindCount(y: Sys, evs: seq<Event>): nat
    decreases |evs|
  {
    if evs == [] then 0
    else UnwindCount(y, evs[..|evs| - 1]) + if Unwinds(Run(y, evs[..|evs| - 1]), evs[|evs| - 1]) then 1 else 0
  }

  function ChainCount(evs: seq<Event>): nat {
    if evs == [] then 0 else ChainCount(evs[..|evs| - 1]) + if evs[|evs| - 1].Chain? then 1 else 0
  }

  lemma StepBalances(y: Sys, ev: Event)
    ensures Owed(y.host.rm) + (if ev.Chain? then 1 else 0)
            == Owed(Step(y, ev).host.rm) + (if Unwinds(y, ev) then 1 else 0)
  {
    hide Unwind, ProcEntry, StoreFrame, PushAll, FrameAddr;
    match ev
    case Call(iret, grant) =>
      if |y.host.rm| < MAX_DEPTH { OwedGrows(y.host.rm, RmCall(y.core.s, FrameAddr(y), false, false, iret)); }
    case Chain(o) =>
      if !Unwinds(y, ev) {
        DefaultDefers(y, o.iret, o.grant);
        OwedGrows(y.host.rm, RmCall(y.core.s, FrameAddr(y), true, y.host.client32, o.iret));
      }
    case _ =>
  }

  lemma OwedGrows(rm: seq<RmCall>, rc: RmCall)
    ensures Owed(rm + [rc]) == Owed(rm) + if rc.unwind then 1 else 0
  {
    assert (rm + [rc])[..|rm|] == rm;
  }

  /**
   Every interrupt that reaches the default handler is unwound exactly once: at once, or by
   the return of the call it made. What has not been unwound yet is owed by an open call.
   */
  lemma {:induction false} FramesBalance(y: Sys, evs: seq<Event>)
    ensures Owed(y.host.rm) + ChainCount(evs) == Owed(Run(y, evs).host.rm) + UnwindCount(y, evs)
    decreases |evs|
  {
    if evs != [] {
      FramesBalance(y, evs[..|evs| - 1]);
      StepBalances(Run(y, evs[..|evs| - 1]), evs[|evs| - 1]);
    }
  }
}
