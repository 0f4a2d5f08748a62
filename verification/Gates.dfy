/**
 INT n through a gate of the guest's own IDT, with the TSS stack switch into an inner ring,
 and the IRET that undoes it (`src/cpu.cpp` interrupt, opcode CF; Intel SDM Vol. 3A,
 section 6.12.1).
 */
module Gates {
  import opened Widths
  import opened FlatMemory
  import opened Bits
  import opened Machine
  import opened Stack

  datatype Gate = NoGate | Gate(wide: bool, trap: bool, sel: Word, off: Dword)

  function Width(wide: bool): nat { if wide then 4 else 2 }

  /** A present 286 or 386 gate, put together from its fields. */
  function MakeGate(attr: Byte, sel: Word, offLow: Word, offHigh: Word): Gate {
    var kind := attr % 0x20;
    if attr < 0x80 then NoGate
    else if kind == 0x0E || kind == 0x0F then Gate(true, kind == 0x0F, sel, offLow + offHigh * M16)
    else if kind == 0x06 || kind == 0x07 then Gate(false, kind == 0x07, sel, offLow)
    else NoGate
  }

  /** The gate vector `n` has, if the guest's table reaches that far. */
  function ReadGate(e: Env, m: Ram, n: Byte): Gate {
    var g := e.idtBase + n * 8;
    LoadBytes(m, g); LoadBytes(m, g + 2); LoadBytes(m, g + 6);
    if e.idtLimit < n * 8 + 7 then NoGate
    else MakeGate(Get8(m, g + 5), Load(m, g + 2, 2), Load(m, g, 2), Load(m, g + 6, 2))
  }

  /** A gate into a more privileged ring takes that ring's stack out of the TSS. */
  predicate SwitchesStack(s: State, g: Gate)
    requires g.Gate?
  {
    g.sel % 4 < s.cs.sel % 4
  }

  function InnerStack(e: Env, c: Core, g: Gate): Core
    requires g.Gate?
  {
    var slot := ReadDesc(e, c.m, e.tr).base + 4 + g.sel % 4 * 8;
    LoadFits(c.m, slot, 4); LoadFits(c.m, slot + 4, 2);
    c.(s := SpSet(SetSs(e, c.m, c.s, Load(c.m, slot + 4, 2)), Load(c.m, slot, 4)))
  }

  /** The frame a gate leaves: the outer stack only if the ring changes, then flags, CS and IP. */
  function GateFrame(s: State, g: Gate): seq<int>
    requires g.Gate?
  {
    (if SwitchesStack(s, g) then [s.ss.sel, SpGet(s)] else []) + [s.flags, s.cs.sel, s.ip]
  }

  function Pushed(e: Env, c: Core, g: Gate): Core
    requires g.Gate?
  {
    PushAll(e, if SwitchesStack(c.s, g) then InnerStack(e, c, g) else c, Width(g.wide), GateFrame(c.s, g))
  }

  /** `interrupt` when the guest owns the vector. */
  function Enter(e: Env, c: Core, g: Gate): Core
    requires g.Gate?
  {
    var d := Pushed(e, c, g);
    var flags := SetFlag(if g.trap then d.s.flags else SetFlag(d.s.flags, IF, false), TF, false);
    d.(s := Jump(SetCs(e, d.m, d.s.(flags := flags), g.sel), g.off))
  }

  /** Descriptor caches that hold what the tables say, for the segments an IRET reloads. */
  ghost predicate CachesAgree(e: Env, m: Ram, s: State) {
    var cs, ss := ReadDesc(e, m, s.cs.sel), ReadDesc(e, m, s.ss.sel);
    && s.cs.base == cs.base && s.csD == cs.big && s.ipMask == (if cs.big then 0xFFFF_FFFF else 0xFFFF)
    && s.ss.base == ss.base && s.ssD == ss.big
    && s.ip == Masked(s.ip, s.ipMask)
  }

  /** A handler ready to IRET: in its own ring, its stack as it found it, the frame intact. */
  ghost predicate Balanced(e: Env, entered: Core, now: Core, n: nat, words: nat) {
    && SameStack(entered.s, now.s) && now.s.cs.sel % 4 == entered.s.cs.sel % 4
    && forall k :: 0 <= k < words ==> Peek(e, now, n, k) == Peek(e, entered, n, k)
  }

  /** What a frame of the gate's width can hold. */
  ghost predicate Representable(s: State, g: Gate)
    requires g.Gate?
  {
    g.wide || (s.ip < M16 && (SwitchesStack(s, g) ==> SpGet(s) < M16))
  }

  /** The interrupted program, resumed: same place, same stack, same flags. */
  ghost predicate Resumed(s: State, t: State) {
    && t.cs.sel == s.cs.sel && t.cs.base == s.cs.base && t.csD == s.csD && t.ipMask == s.ipMask
    && t.ip == s.ip
    && SameStack(s, t)
    && t.flags == LoadFlags(s.flags)
  }

  /** A resumed program has the flags it had, and bit 1, which is always set. */
  lemma ResumedFlags(s: State, t: State, k: nat)
    requires Resumed(s, t)
    ensures Bit(t.flags, k) <==> k == 1 || Bit(s.flags, k)
  {
    BitWithBit(s.flags, 1, true, k);
    hide Bit;
  }

  /** Everything but the code segment, IP and flags is as it was when the frame had been pushed. */
  lemma EnterStack(e: Env, c: Core, g: Gate)
    requires g.Gate?
    ensures var s, d := Enter(e, c, g).s, Pushed(e, c, g);
            Enter(e, c, g).m == d.m && SameStack(d.s, s) && s.cs.sel == g.sel
  {
  }

  lemma {:induction false} PushedKeeps(e: Env, c: Core, n: nat, vs: seq<int>)
    ensures var s := PushAll(e, c, n, vs).s;
            && Pe(s) == Pe(c.s) && s.cs == c.s.cs && s.ss == c.s.ss && s.flags == c.s.flags
            && s.csD == c.s.csD && s.ssD == c.s.ssD && s.ipMask == c.s.ipMask && s.ip == c.s.ip && s.cr0 == c.s.cr0
    decreases |vs|
  {
    if vs != [] { PushedKeeps(e, c, n, vs[..|vs| - 1]); }
  }

  /** The frame, as the handler finds it. */
  lemma EnteredFrame(e: Env, c: Core, g: Gate)
    requires g.Gate?
    ensures FrameIs(e, Enter(e, c, g), Width(g.wide), GateFrame(c.s, g))
  {
    var outer, n, vs := if SwitchesStack(c.s, g) then InnerStack(e, c, g) else c, Width(g.wide), GateFrame(c.s, g);
    PushedFrame(e, outer, n, vs);
    EnterStack(e, c, g);
    FrameMoves(e, Pushed(e, c, g), Enter(e, c, g), n, vs);
  }

  lemma FrameMoves(e: Env, c: Core, d: Core, n: nat, vs: seq<int>)
    requires SameStack(c.s, d.s) && d.m == c.m && FrameIs(e, c, n, vs)
    ensures FrameIs(e, d, n, vs)
  {
    forall k | 0 <= k < |vs| ensures Peek(e, d, n, k) == vs[|vs| - 1 - k] % Pow256(n) {
      SamePlaces(e, c.s, d.s, n * k);
      assert Peek(e, c, n, k) == vs[|vs| - 1 - k] % Pow256(n);
    }
  }

  lemma FrameWord(v: int, wide: bool)
    requires 0 <= v < M32 && (!wide ==> v < M16)
    ensures v % Pow256(Width(wide)) == v
  {
    assert Pow256(2) == M16;
    assert Pow256(4) == M32 by { assert Pow256(3) == M24; }
  }

  /** An IRET reads its words at fixed places above the stack pointer. */
  lemma IretWords(e: Env, c: Core, n: nat)
    requires n == 2 || n == 4
    ensures var d := c.(s := Drop(c.s, 3 * n).(flags := LoadFlags(Peek(e, c, n, 2) % M16)));
            && Peek(e, d, n, 0) == Peek(e, c, n, 3) && Top(e, d, n) == Peek(e, c, n, 3)
            && Peek(e, d, n, 1) == Peek(e, c, n, 4)
            && Top(e, c, n) == Peek(e, c, n, 0)
  {
    var t := Drop(c.s, 3 * n);
    var d := t.(flags := LoadFlags(Peek(e, c, n, 2) % M16));
    DropDrop(c.s, 0, 0);
    DropDrop(t, 0, 0);
    DropDrop(d, 0, 0);
    DropDrop(c.s, 3 * n, n);
    SamePlaces(e, t, d, 0);
    SamePlaces(e, t, d, n);
    assert n * 4 == 3 * n + n && n * 1 == n && n * 0 == 0;
  }

  /**
   INT followed, after a balanced handler, by an IRET of the gate's width resumes the
   interrupted program exactly, whether or not the gate changed ring and stack.
   */
  lemma InterruptReturns(e: Env, c: Core, g: Gate, now: Core)
    requires Pe(c.s) && g.Gate? && Representable(c.s, g)
    requires Balanced(e, Enter(e, c, g), now, Width(g.wide), |GateFrame(c.s, g)|)
    requires CachesAgree(e, now.m, c.s)
    ensures Resumed(c.s, Iret(e, now, Width(g.wide)))
  {
    hide Decode, Load;
    var n, vs := Width(g.wide), GateFrame(c.s, g);
    EnteredFrame(e, c, g);
    EnterStack(e, c, g);
    var outer := if SwitchesStack(c.s, g) then InnerStack(e, c, g) else c;
    PushedKeeps(e, outer, n, vs);
    IretWords(e, now, n);
    IretLoads(e, c.s, g, now);
    if SwitchesStack(c.s, g) {
      ReturnsOutward(e, c.s, g, now);
    } else {
      PushedFrame(e, c, n, vs);
      SamePlaces(e, Pushed(e, c, g).s, now.s, 3 * n);
      ReturnsLevel(e, c.s, g, now);
    }
  }

  /** The words an IRET finds are the ones the gate pushed. */
  lemma IretLoads(e: Env, s: State, g: Gate, now: Core)
    requires g.Gate? && Representable(s, g)
    requires FrameIs(e, now, Width(g.wide), GateFrame(s, g))
    ensures var n := Width(g.wide);
            && Peek(e, now, n, 0) == s.ip && Peek(e, now, n, 1) == s.cs.sel
            && Peek(e, now, n, 2) == s.flags
            && (SwitchesStack(s, g) ==> Peek(e, now, n, 3) == SpGet(s) && Peek(e, now, n, 4) == s.ss.sel)
  {
    var vs := GateFrame(s, g);
    FrameWord(s.ip, g.wide);
    FrameWord(s.cs.sel, g.wide);
    FrameWord(s.flags, g.wide);
    assert vs[|vs| - 1] == s.ip && vs[|vs| - 2] == s.cs.sel && vs[|vs| - 3] == s.flags;
    if SwitchesStack(s, g) {
      FrameWord(SpGet(s), g.wide);
      FrameWord(s.ss.sel, g.wide);
      assert vs[1] == SpGet(s) && vs[0] == s.ss.sel;
    }
  }

  /** Reloading CS from its own selector, and jumping, puts the code segment back. */
  lemma CodeReloaded(e: Env, m: Ram, s: State, t: State)
    requires CachesAgree(e, m, s) && Pe(t)
    ensures var u := Jump(SetCs(e, m, t, s.cs.sel), s.ip);
            && u.cs.sel == s.cs.sel && u.cs.base == s.cs.base && u.csD == s.csD && u.ipMask == s.ipMask && u.ip == s.ip
            && SameStack(t, u) && u.flags == t.flags
  {
    hide Decode, Load;
  }

  /** Reloading SS and the stack pointer as well puts the stack back. */
  lemma StackReloaded(e: Env, m: Ram, s: State, t: State)
    requires CachesAgree(e, m, s) && Pe(s) && Pe(t)
    ensures var u := SpSet(SetSs(e, m, t, s.ss.sel), SpGet(s));
            && SameStack(s, u) && u.flags == t.flags
            && u.cs.sel == t.cs.sel && u.cs.base == t.cs.base && u.csD == t.csD && u.ipMask == t.ipMask
  {
    hide Decode, Load;
    SpSetGet(SetSs(e, m, t, s.ss.sel), SpGet(s));
  }

  lemma ReturnsOutward(e: Env, s: State, g: Gate, now: Core)
    requires g.Gate? && SwitchesStack(s, g) && Pe(s) && Pe(now.s)
    requires CachesAgree(e, now.m, s) && now.s.cs.sel % 4 == g.sel % 4
    requires var n := Width(g.wide);
             && Peek(e, now, n, 0) == s.ip && Peek(e, now, n, 1) == s.cs.sel && Peek(e, now, n, 2) == s.flags
             && Peek(e, now, n, 3) == SpGet(s) && Peek(e, now, n, 4) == s.ss.sel
    ensures Resumed(s, Iret(e, now, Width(g.wide)))
  {
    hide Decode, Load, Lin, SpSet, Gd, SetFlag, ReadDesc;
    var n := Width(g.wide);
    IretWords(e, now, n);
    OnlySp(now.s, SpGet(now.s) + 3 * n);
    var d := now.(s := Drop(now.s, 3 * n).(flags := LoadFlags(s.flags)));
    assert Iret(e, now, n) == FarRet(e, d, s.cs.sel, s.ip, n);
    OnlySp(d.s, SpGet(d.s) + 2 * n);
    var t := SetCs(e, now.m, Drop(d.s, 2 * n), s.cs.sel);
    var u := SpSet(SetSs(e, now.m, t, s.ss.sel), SpGet(s));
    assert FarRet(e, d, s.cs.sel, s.ip, n) == Jump(u, s.ip);
    hide FarRet, Iret;
    CodeReloaded(e, now.m, s, Drop(d.s, 2 * n));
    StackReloaded(e, now.m, s, t);
  }

  lemma ReturnsLevel(e: Env, s: State, g: Gate, now: Core)
    requires g.Gate? && !SwitchesStack(s, g) && Pe(s)
    requires CachesAgree(e, now.m, s) && now.s.cs.sel % 4 == g.sel % 4
    requires SameStack(s, Drop(now.s, 3 * Width(g.wide)))
    requires var n := Width(g.wide);
             Peek(e, now, n, 0) == s.ip && Peek(e, now, n, 1) == s.cs.sel && Peek(e, now, n, 2) == s.flags
    ensures Resumed(s, Iret(e, now, Width(g.wide)))
  {
    hide Decode, Load, Lin, SpSet, Gd, SetFlag, ReadDesc;
    var n := Width(g.wide);
    IretWords(e, now, n);
    OnlySp(now.s, SpGet(now.s) + 3 * n);
    var d := now.(s := Drop(now.s, 3 * n).(flags := LoadFlags(s.flags)));
    assert Iret(e, now, n) == FarRet(e, d, s.cs.sel, s.ip, n);
    assert FarRet(e, d, s.cs.sel, s.ip, n) == Jump(SetCs(e, now.m, d.s, s.cs.sel), s.ip);
    hide FarRet, Iret;
    CodeReloaded(e, now.m, s, d.s);
  }

  // ---- a handler that returns at once ------------------------------------------------

  /** The processor as the gate's first push finds it. */
  function FrameBase(e: Env, c: Core, g: Gate): Core
    requires g.Gate?
  {
    if SwitchesStack(c.s, g) then InnerStack(e, c, g) else c
  }

  /** None of the words the gate pushes lands on the descriptor at `a`. */
  ghost predicate FrameAvoids(e: Env, c: Core, g: Gate, a: int)
    requires g.Gate?
  {
    forall i {:trigger Slot(e, FrameBase(e, c, g).s, Width(g.wide), i)} :: 1 <= i <= |GateFrame(c.s, g)| ==>
      Apart(Slot(e, FrameBase(e, c, g).s, Width(g.wide), i), Width(g.wide), a, 8)
  }

  /** Where the `i`-th push goes. */
  function Slot(e: Env, s: State, n: nat, i: int): Dword { StackAddr(e, Drop(s, 0 - n * i)) }

  lemma {:induction false} PushesElsewhere(e: Env, c: Core, n: nat, vs: seq<int>, b: int)
    requires (n == 2 || n == 4) && |vs| <= 8
    requires forall i :: 1 <= i <= |vs| ==> U32(b - Slot(e, c.s, n, i)) >= n
    ensures Get8(PushAll(e, c, n, vs).m, b) == Get8(c.m, b)
    decreases |vs|
  {
    hide Get8, Store, Lin, SpSet, SpGet, U32;
    if vs != [] {
      var front, v := vs[..|vs| - 1], vs[|vs| - 1];
      PushesElsewhere(e, c, n, front, b);
      PushedFrame(e, c, n, front);
      var d := PushAll(e, c, n, front);
      DropDrop(c.s, 0 - n * |front|, 0 - n);
      assert n * |vs| == n * |front| + n;
      assert Slot(e, c.s, n, |vs|) == StackAddr(e, Drop(d.s, 0 - n));
      StoreElsewhere(d.m, Slot(e, c.s, n, |vs|), n, v, b);
    }
  }

  lemma DecodeSame(m: Ram, m': Ram, a: int)
    requires SameBytes(m, m', a, 8)
    ensures Decode(m', a) == Decode(m, a)
  {
    Narrower(m, m', a, 0, 2);
    Narrower(m, m', a, 2, 2);
    LoadSame(m, m', a, 2);
    LoadSame(m, m', a + 2, 2);
    SameAt(m, m', a, 4);
    SameAt(m, m', a, 5);
    SameAt(m, m', a, 6);
    SameAt(m, m', a, 7);
    hide Load, Get8;
  }

  lemma SameAt(m: Ram, m': Ram, a: int, k: nat)
    requires SameBytes(m, m', a, 8) && k < 8
    ensures Get8(m', a + k) == Get8(m, a + k)
  {
    var b: int := a + k;
    assert b - a == k && U32(b - a) < 8;
    assert Get8(m', b) == Get8(m, b);
  }

  lemma Narrower(m: Ram, m': Ram, a: int, i: nat, n: nat)
    requires SameBytes(m, m', a, 8) && i + n <= 8
    ensures SameBytes(m, m', a + i, n)
  {
    forall b: int | U32(b - (a + i)) < n ensures Get8(m', b) == Get8(m, b) {
      ModAdd(b - (a + i), i, M32);
      assert U32(b - a) < 8;
    }
  }

  lemma DescriptorKept(e: Env, c: Core, g: Gate, a: int)
    requires g.Gate? && FrameAvoids(e, c, g, a)
    ensures Decode(Enter(e, c, g).m, a) == Decode(c.m, a)
  {
    hide Decode, Get8, InnerStack, Slot, PushAll, U32;
    var base, n, vs := FrameBase(e, c, g), Width(g.wide), GateFrame(c.s, g);
    EnterStack(e, c, g);
    assert base.m == c.m by { InnerMemory(e, c, g); }
    forall b: int | U32(b - a) < 8 ensures Get8(PushAll(e, base, n, vs).m, b) == Get8(c.m, b) {
      forall i | 1 <= i <= |vs| ensures U32(b - Slot(e, base.s, n, i)) >= n {
        OutsideStays(Slot(e, base.s, n, i), n, a, 8, b);
      }
      PushesElsewhere(e, base, n, vs, b);
    }
    DecodeSame(c.m, Enter(e, c, g).m, a);
  }

  lemma InnerMemory(e: Env, c: Core, g: Gate)
    requires g.Gate?
    ensures InnerStack(e, c, g).m == c.m
  {
  }

  /** With stacks clear of the two descriptors it reloads, an IRET right after the INT resumes
      the program: nothing is asked of memory beyond that. */
  lemma ImmediateReturn(e: Env, c: Core, g: Gate)
    requires Pe(c.s) && g.Gate? && Representable(c.s, g) && CachesAgree(e, c.m, c.s)
    requires FrameAvoids(e, c, g, DescAddr(e, c.s.cs.sel)) && FrameAvoids(e, c, g, DescAddr(e, c.s.ss.sel))
    ensures Resumed(c.s, Iret(e, Enter(e, c, g), Width(g.wide)))
  {
    hide Decode, Enter, Iret, FrameAvoids, DescAddr, Peek;
    DescriptorKept(e, c, g, DescAddr(e, c.s.cs.sel));
    DescriptorKept(e, c, g, DescAddr(e, c.s.ss.sel));
    InterruptReturns(e, c, g, Enter(e, c, g));
  }

  // ---- far calls, and the real-mode vector table -------------------------------------

  lemma StackUnmoved(s: State, t: State)
    requires t.sp == s.sp && t.ss == s.ss && t.ssD == s.ssD && t.cr0 == s.cr0
    ensures SameStack(s, t)
  {
  }

  lemma NoDrop(e: Env, c: Core, sel: Word, off: Dword, n: nat)
    requires n == 2 || n == 4
    ensures FarRetDrop(e, c, sel, off, n, 0) == FarRet(e, c, sel, off, n)
  {
    DropDrop(c.s, 0, 0);
    hide Load, Lin, ReadDesc, SpSet, SpGet;
  }

  /** The place a far call left, with `drop` bytes fewer on its stack. */
  ghost predicate Continued(s: State, t: State, drop: Word) {
    && t.cs.sel == s.cs.sel && t.cs.base == s.cs.base && t.csD == s.csD && t.ipMask == s.ipMask && t.ip == s.ip
    && SameStack(Drop(s, drop), t)
  }

  /**
   A far call, and a far return of the same width from a callee that left its stack balanced: the
   caller goes on after the call, and its arguments, as many bytes as the return says, are gone.
   */
  lemma FarCallReturns(e: Env, c: Core, n: nat, sel: Word, off: Dword, now: Core, drop: Word)
    requires (n == 4 || (n == 2 && c.s.ip < M16)) && Pe(c.s) && CachesAgree(e, now.m, c.s)
    requires var d := FarCall(e, c, n, sel, off);
             && SameStack(d.s, now.s)
             && Peek(e, now, n, 0) == Peek(e, d, n, 0) && Peek(e, now, n, 1) == Peek(e, d, n, 1)
    requires c.s.cs.sel % 4 <= now.s.cs.sel % 4
    ensures Continued(c.s, RetfDrop(e, now, n, drop), drop)
  {
    hide Decode, Load, Store, Lin, SpSet, SpGet, Gd, ReadDesc;
    var vs := [c.s.cs.sel, c.s.ip];
    CallFrame(e, c, n, sel, off);
    FrameWord(c.s.ip, n == 4);
    FrameWord(c.s.cs.sel, n == 4);
    assert Peek(e, now, n, 0) == c.s.ip && Peek(e, now, n, 1) == c.s.cs.sel;
    var d := FarCall(e, c, n, sel, off);
    SamePlaces(e, d.s, now.s, 2 * n);
    var t := Drop(now.s, 2 * n);
    SamePlaces(e, c.s, t, drop);
    DropDrop(now.s, 0, 0);
    OnlySp(now.s, SpGet(now.s) + 2 * n);
    OnlySp(t, SpGet(t) + drop);
    assert n * 0 == 0 && RetfDrop(e, now, n, drop) == Jump(SetCs(e, now.m, Drop(t, drop), c.s.cs.sel), c.s.ip);
    hide RetfDrop;
    CodeReloaded(e, now.m, c.s, Drop(t, drop));
  }

  lemma CallFrame(e: Env, c: Core, n: nat, sel: Word, off: Dword)
    requires n == 2 || n == 4
    ensures var d := FarCall(e, c, n, sel, off);
            && Peek(e, d, n, 0) == c.s.ip % Pow256(n) && Peek(e, d, n, 1) == c.s.cs.sel % Pow256(n)
            && SameStack(c.s, Drop(d.s, 2 * n))
  {
    hide Load, Store, Lin, SpSet, SpGet, ReadDesc, Pow256;
    var vs := [c.s.cs.sel, c.s.ip];
    var p := PushAll(e, c, n, vs);
    assert vs[..1] == [vs[0]] && vs[..1][..0] == [];
    assert PushAll(e, c, n, vs[..1]) == Push(e, c, n, vs[0]);
    assert p == Push(e, Push(e, c, n, c.s.cs.sel), n, c.s.ip);
    PushedFrame(e, c, n, vs);
    var d := FarCall(e, c, n, sel, off);
    StackUnmoved(p.s, d.s);
    FrameMoves(e, p, d, n, vs);
    SamePlaces(e, p.s, d.s, 2 * n);
    assert n * 2 == 2 * n;
    assert Peek(e, d, n, 0) == vs[1] % Pow256(n) && Peek(e, d, n, 1) == vs[0] % Pow256(n);
  }

  /** `interrupt` when neither the guest nor the host takes the vector: through the table at address 0. */
  function EnterIvt(e: Env, c: Core, n: Byte): Core {
    var d := PushAll(e, c, 2, [c.s.flags, c.s.cs.sel, c.s.ip]);
    LoadFits(d.m, n * 4, 2); LoadFits(d.m, n * 4 + 2, 2);
    var flags := SetFlag(SetFlag(d.s.flags, IF, false), TF, false);
    d.(s := Jump(SetCs(e, d.m, d.s.(flags := flags), Load(d.m, n * 4 + 2, 2)), Load(d.m, n * 4, 2)))
  }

  /** In real mode an IRET from a balanced handler of that table resumes the interrupted program. */
  lemma RealInterruptReturns(e: Env, c: Core, n: Byte, now: Core)
    requires !Pe(c.s) && c.s.cs.base == Paragraph(c.s.cs.sel) && c.s.ip < M16 && c.s.ipMask == 0xFFFF && !c.s.csD
    requires var d := EnterIvt(e, c, n);
             && SameStack(d.s, now.s) && forall k :: 0 <= k < 3 ==> Peek(e, now, 2, k) == Peek(e, d, 2, k)
    ensures Resumed(c.s, Iret(e, now, 2))
  {
    hide Load, Store, Lin, SpSet, SpGet, ReadDesc, SetFlag;
    var vs, d := [c.s.flags, c.s.cs.sel, c.s.ip], EnterIvt(e, c, n);
    var p := PushAll(e, c, 2, vs);
    PushedFrame(e, c, 2, vs);
    PushedKeeps(e, c, 2, vs);
    StackUnmoved(p.s, d.s);
    FrameMoves(e, p, d, 2, vs);
    FrameWord(c.s.ip, false); FrameWord(c.s.cs.sel, false); FrameWord(c.s.flags, false);
    assert vs[2] == c.s.ip && vs[1] == c.s.cs.sel && vs[0] == c.s.flags;
    assert Peek(e, d, 2, 0) == c.s.ip && Peek(e, d, 2, 1) == c.s.cs.sel && Peek(e, d, 2, 2) == c.s.flags;
    SamePlaces(e, p.s, now.s, 6);
    DropDrop(now.s, 0, 0);
    var t := Drop(now.s, 6);
    OnlySp(now.s, SpGet(now.s) + 6);
    assert Iret(e, now, 2) == FarRet(e, now.(s := t.(flags := LoadFlags(c.s.flags))), c.s.cs.sel, c.s.ip, 2);
    StackUnmoved(t, Iret(e, now, 2));
  }

  // ---- where an interrupt goes -------------------------------------------------------

  /** No register but the stack pointer, the code segment, the flags and what the stack switch needs differs. */
  ghost predicate RegistersKept(s: State, t: State) {
    && t.ax == s.ax && t.bx == s.bx && t.cx == s.cx && t.dx == s.dx && t.si == s.si && t.di == s.di && t.bp == s.bp
    && t.ds == s.ds && t.es == s.es && t.fs == s.fs && t.gs == s.gs && t.cr0 == s.cr0
  }

  /** TF is clear, IF only if the handler leaves it as it was set, and every other flag is kept. */
  ghost predicate FlagsOnEntry(fl: Word, g: Word, keepsIf: bool) {
    && !HasFlag(g, TF) && (HasFlag(g, IF) <==> HasFlag(fl, IF) && keepsIf)
    && forall k: nat :: k != TF && k != IF ==> HasFlag(g, k) == HasFlag(fl, k)
  }

  lemma EntryFlags(fl: Word, keepsIf: bool)
    ensures FlagsOnEntry(fl, SetFlag(if keepsIf then fl else SetFlag(fl, IF, false), TF, false), keepsIf)
  {
    var f1 := if keepsIf then fl else SetFlag(fl, IF, false);
    forall k: nat ensures HasFlag(SetFlag(f1, TF, false), k) == (if k == TF then false else HasFlag(f1, k)) {
      BitWithBit(f1, TF, false, k);
    }
    forall k: nat ensures HasFlag(SetFlag(fl, IF, false), k) == (if k == IF then false else HasFlag(fl, k)) {
      BitWithBit(fl, IF, false, k);
    }
    hide Bit, SetFlag;
  }

  /** In code segment `sel`, as its descriptor is in memory, at `off` as far as its width goes. */
  ghost predicate GoesOnAt(e: Env, c: Core, sel: Word, off: Dword) {
    var d := ReadDesc(e, c.m, sel);
    && c.s.cs == Segment(sel, d.base, d.limit) && c.s.csD == d.big
    && c.s.ip == if d.big then off else U16(off)
  }

  /** Byte `k` of vector `n`'s entry in the guest's own table. */
  function TableByte(e: Env, m: Ram, n: Byte, k: nat): Byte { Get8(m, e.idtBase + 8 * n + k) }

  /**
   INT n by the eight bytes of its table entry. A gate is taken exactly when the entry lies inside the
   table, is present and is one of the four interrupt and trap gates. It goes on at the selector in bytes
   2 and 3; the offset is in bytes 0 and 1, for a 386 gate with bytes 6 and 7 above them. An interrupt
   gate clears IF and a trap gate does not. The old place is on the stack in words of the gate's width.
   */
  lemma InterruptEnters(e: Env, c: Core, n: Byte)
    requires Pe(c.s)
    ensures var kind := TableByte(e, c.m, n, 5) % 0x20;
            ReadGate(e, c.m, n).Gate? <==>
              && e.idtLimit >= 8 * n + 7 && TableByte(e, c.m, n, 5) >= 0x80
              && (kind == 0x06 || kind == 0x07 || kind == 0x0E || kind == 0x0F)
    ensures ReadGate(e, c.m, n).Gate? ==>
              var kind := TableByte(e, c.m, n, 5) % 0x20;
              var sel := TableByte(e, c.m, n, 2) + M8 * TableByte(e, c.m, n, 3);
              var low := TableByte(e, c.m, n, 0) + M8 * TableByte(e, c.m, n, 1);
              var high := TableByte(e, c.m, n, 6) + M8 * TableByte(e, c.m, n, 7);
              var d := Enter(e, c, ReadGate(e, c.m, n));
              && GoesOnAt(e, d, sel, if kind >= 0x0E then low + M16 * high else low)
              && FlagsOnEntry(c.s.flags, d.s.flags, kind == 0x07 || kind == 0x0F)
              && RegistersKept(c.s, d.s)
              && FrameIs(e, d, if kind >= 0x0E then 4 else 2,
                         (if sel % 4 < c.s.cs.sel % 4 then [c.s.ss.sel, SpGet(c.s)] else [])
                         + [c.s.flags, c.s.cs.sel, c.s.ip])
  {
    hide *;
    GateBytes(e, c.m, n);
    var g := ReadGate(e, c.m, n);
    if g.Gate? {
      EnteredFrame(e, c, g);
      GateEnters(e, c, g);
      FrameOf(c.s, g);
    }
  }

  lemma FrameOf(s: State, g: Gate)
    requires g.Gate?
    ensures Width(g.wide) == if g.wide then 4 else 2
    ensures GateFrame(s, g) == (if g.sel % 4 < s.cs.sel % 4 then [s.ss.sel, SpGet(s)] else [])
                               + [s.flags, s.cs.sel, s.ip]
  {
  }

  /** The gate, by its bytes. */
  lemma GateBytes(e: Env, m: Ram, n: Byte)
    ensures var kind := TableByte(e, m, n, 5) % 0x20;
            var low := TableByte(e, m, n, 0) + M8 * TableByte(e, m, n, 1);
            var high := TableByte(e, m, n, 6) + M8 * TableByte(e, m, n, 7);
            ReadGate(e, m, n)
            == if e.idtLimit < 8 * n + 7 || TableByte(e, m, n, 5) < 0x80 then NoGate
               else if kind == 0x06 || kind == 0x07 || kind == 0x0E || kind == 0x0F then
                 Gate(kind >= 0x0E, kind % 2 == 1, TableByte(e, m, n, 2) + M8 * TableByte(e, m, n, 3),
                      if kind >= 0x0E then low + M16 * high else low)
               else NoGate
  {
    hide *;
    MadeGate(TableByte(e, m, n, 5), EntryWord(e, m, n, 2), EntryWord(e, m, n, 0), EntryWord(e, m, n, 6));
    GateRead(e, m, n);
    EntryWords(e, m, n);
  }

  /** The word of the entry from byte `k` on. */
  function EntryWord(e: Env, m: Ram, n: Byte, k: nat): Word { Word16(m, e.idtBase + 8 * n + k) }

  lemma EntryWords(e: Env, m: Ram, n: Byte)
    ensures forall k: nat :: EntryWord(e, m, n, k) == TableByte(e, m, n, k) + M8 * TableByte(e, m, n, k + 1)
  {
    hide Load, Get8;
    forall k: nat ensures EntryWord(e, m, n, k) == TableByte(e, m, n, k) + M8 * TableByte(e, m, n, k + 1) {
      LoadBytes(m, e.idtBase + 8 * n + k);
    }
  }

  lemma GateRead(e: Env, m: Ram, n: Byte)
    ensures ReadGate(e, m, n)
            == if e.idtLimit < 8 * n + 7 then NoGate
               else MakeGate(TableByte(e, m, n, 5), EntryWord(e, m, n, 2), EntryWord(e, m, n, 0), EntryWord(e, m, n, 6))
  {
    hide Load, Get8, MakeGate;
    assert e.idtBase + 8 * n + 0 == e.idtBase + n * 8;
  }

  lemma MadeGate(attr: Byte, sel: Word, low: Word, high: Word)
    ensures var kind := attr % 0x20;
            MakeGate(attr, sel, low, high)
            == if attr >= 0x80 && (kind == 0x06 || kind == 0x07 || kind == 0x0E || kind == 0x0F) then
                 Gate(kind >= 0x0E, kind % 2 == 1, sel, if kind >= 0x0E then low + M16 * high else low)
               else NoGate
  {
  }

  lemma GateEnters(e: Env, c: Core, g: Gate)
    requires Pe(c.s) && g.Gate?
    ensures var d := Enter(e, c, g);
            GoesOnAt(e, d, g.sel, g.off) && FlagsOnEntry(c.s.flags, d.s.flags, g.trap) && RegistersKept(c.s, d.s)
  {
    hide Load, Decode, SpSet, SpGet, SetFlag, FlagsOnEntry, PushAll;
    PushesMoveSp(e, FrameBase(e, c, g), Width(g.wide), GateFrame(c.s, g));
    BaseKeeps(e, c, g);
    EntryFlags(c.s.flags, g.trap);
  }

  lemma BaseKeeps(e: Env, c: Core, g: Gate)
    requires g.Gate?
    ensures var s := FrameBase(e, c, g).s;
            RegistersKept(c.s, s) && s.flags == c.s.flags && s.cs == c.s.cs && s.ip == c.s.ip
  {
    hide Load, Decode, Gd, Sd;
  }

  /** An inner ring's stack is the one the TSS names for that ring: ESP at 4, SS at 8, eight bytes a ring. */
  lemma InnerStackIs(e: Env, c: Core, g: Gate)
    requires Pe(c.s) && g.Gate?
    ensures var tss, t := ReadDesc(e, c.m, e.tr).base, InnerStack(e, c, g).s;
            var ss, esp := Load(c.m, tss + 8 + 8 * (g.sel % 4), 2), Load(c.m, tss + 4 + 8 * (g.sel % 4), 4);
            && ss < M16 && esp < M32
            && t.ss.sel == ss && t.ss.base == ReadDesc(e, c.m, ss).base && t.ssD == ReadDesc(e, c.m, ss).big
            && SpGet(t) == if t.ssD then esp else U16(esp)
  {
    var tss := ReadDesc(e, c.m, e.tr).base;
    var slot: int := tss + 4 + g.sel % 4 * 8;
    LoadFits(c.m, slot, 4); LoadFits(c.m, slot + 4, 2);
    assert slot == tss + 4 + 8 * (g.sel % 4) && slot + 4 == tss + 8 + 8 * (g.sel % 4);
    var ss: Word, esp: Dword := Load(c.m, slot + 4, 2), Load(c.m, slot, 4);
    assert InnerStack(e, c, g).s == SpSet(SetSs(e, c.m, c.s, ss), esp) by { hide Load, ReadDesc, SpSet, SetSs; }
    hide *;
    StackTaken(e, c.m, c.s, ss, esp);
  }

  lemma StackTaken(e: Env, m: Ram, s: State, ss: Word, esp: Dword)
    requires Pe(s)
    ensures var t, d := SpSet(SetSs(e, m, s, ss), esp), ReadDesc(e, m, ss);
            && t.ss.sel == ss && t.ss.base == d.base && t.ssD == d.big && SpGet(t) == if t.ssD then esp else U16(esp)
  {
    hide Decode;
    SpSetGet(SetSs(e, m, s, ss), esp);
    OnlySp(SetSs(e, m, s, ss), esp);
    hide SpSet, SpGet;
  }

  /** Below its frame a gate has the stack it took: the inner ring's, or the one there was. */
  lemma GateStack(e: Env, c: Core, g: Gate)
    requires g.Gate?
    ensures SameStack(FrameBase(e, c, g).s, Drop(Enter(e, c, g).s, Width(g.wide) * |GateFrame(c.s, g)|))
  {
    var base, n, vs := FrameBase(e, c, g), Width(g.wide), GateFrame(c.s, g);
    EnterStack(e, c, g);
    hide Load, Store, Lin, SpSet, SpGet, Enter, InnerStack;
    PushedFrame(e, base, n, vs);
    SamePlaces(e, PushAll(e, base, n, vs).s, Enter(e, c, g).s, n * |vs|);
  }

  /** And so by the bytes of the entry: three words on the stack there was, or five on the one the TSS
      names for the ring of the new selector. */
  lemma InterruptStack(e: Env, c: Core, n: Byte)
    requires Pe(c.s) && ReadGate(e, c.m, n).Gate?
    ensures var word := if TableByte(e, c.m, n, 5) % 0x20 >= 0x0E then 4 else 2;
            var ring, t := TableByte(e, c.m, n, 2) % 4, Enter(e, c, ReadGate(e, c.m, n)).s;
            var tss := ReadDesc(e, c.m, e.tr).base;
            if ring >= c.s.cs.sel % 4 then SameStack(c.s, Drop(t, word * 3))
            else
              var ss, esp := Load(c.m, tss + 8 + 8 * ring, 2), Load(c.m, tss + 4 + 8 * ring, 4);
              && ss < M16 && esp < M32 && t.ss.sel == ss && t.ss.base == ReadDesc(e, c.m, ss).base
              && SpGet(Drop(t, word * 5)) == if ReadDesc(e, c.m, ss).big then esp else U16(esp)
  {
    hide *;
    GateBytes(e, c.m, n);
    var g := ReadGate(e, c.m, n);
    FrameOf(c.s, g);
    RingOf(TableByte(e, c.m, n, 2), TableByte(e, c.m, n, 3));
    GateStack(e, c, g);
    BaseOf(e, c, g);
    InnerStackIs(e, c, g);
    StackOf(FrameBase(e, c, g).s, Enter(e, c, g).s, Width(g.wide) * |GateFrame(c.s, g)|);
  }

  lemma RingOf(low: Byte, high: Byte)
    ensures (low + M8 * high) % 4 == low % 4
  {
  }

  lemma BaseOf(e: Env, c: Core, g: Gate)
    requires g.Gate?
    ensures FrameBase(e, c, g) == if g.sel % 4 < c.s.cs.sel % 4 then InnerStack(e, c, g) else c
  {
  }

  lemma StackOf(s: State, t: State, x: int)
    requires SameStack(s, Drop(t, x))
    ensures t.ss.sel == s.ss.sel && t.ss.base == s.ss.base && SpGet(Drop(t, x)) == SpGet(s)
  {
  }

  /** INT n through the table at address 0: offset in bytes 4n and 4n + 1, segment in the next two. */
  lemma TableEnters(e: Env, c: Core, n: Byte)
    requires !Pe(c.s)
    ensures var d := EnterIvt(e, c, n);
            var off := Get8(d.m, 4 * n) + M8 * Get8(d.m, 4 * n + 1);
            var seg := Get8(d.m, 4 * n + 2) + M8 * Get8(d.m, 4 * n + 3);
            && d.s.cs == Segment(seg, Paragraph(seg), 0xFFFF) && d.s.ip == off
            && FlagsOnEntry(c.s.flags, d.s.flags, false) && RegistersKept(c.s, d.s)
            && FrameIs(e, d, 2, [c.s.flags, c.s.cs.sel, c.s.ip])
  {
    hide Store, Load, Lin, SpSet, SpGet, ReadDesc, SetFlag, FrameIs, FlagsOnEntry;
    var vs, d := [c.s.flags, c.s.cs.sel, c.s.ip], EnterIvt(e, c, n);
    var p := PushAll(e, c, 2, vs);
    PushedFrame(e, c, 2, vs);
    PushesMoveSp(e, c, 2, vs);
    StackUnmoved(p.s, d.s);
    FrameMoves(e, p, d, 2, vs);
    EntryFlags(c.s.flags, false);
    LoadBytes(d.m, 4 * n);
    LoadBytes(d.m, 4 * n + 2);
    assert 4 * n + 2 + 1 == 4 * n + 3 && n * 4 == 4 * n;
    hide PushAll, Get8;
  }

  /** A far call goes on at its destination, the flags and registers as they were. */
  lemma FarCallEnters(e: Env, c: Core, n: nat, sel: Word, off: Dword)
    requires Pe(c.s) && (n == 2 || n == 4)
    ensures var d := FarCall(e, c, n, sel, off);
            && GoesOnAt(e, d, sel, off) && RegistersKept(c.s, d.s)
            && d.s.flags == c.s.flags && d.s.ss == c.s.ss
            && FrameIs(e, d, n, [c.s.cs.sel, c.s.ip])
  {
    hide Load, Store, Lin, SpSet, SpGet, Decode, Pow256;
    CallFrame(e, c, n, sel, off);
    var p := Push(e, c, n, c.s.cs.sel);
    OnlySp(c.s, SpGet(c.s) - n);
    OnlySp(p.s, SpGet(p.s) - n);
    hide Peek;
    assert n * 1 == n;
  }

  /** A far return to an outer ring, `drop` bytes lying between its two pairs of words: it goes on there,
      on the outer stack, with as many bytes gone from that one too. */
  lemma RetfOutward(e: Env, c: Core, n: nat, drop: Word)
    requires Pe(c.s) && (n == 2 || n == 4) && Peek(e, c, n, 1) % M16 % 4 > c.s.cs.sel % 4
    ensures var t := RetfDrop(e, c, n, drop);
            var sel, off := Peek(e, c, n, 1) % M16, Peek(e, c, n, 0);
            var sp := Load(c.m, StackAddr(e, Drop(c.s, 2 * n + drop)), n);
            var ss := Load(c.m, StackAddr(e, Drop(c.s, 3 * n + drop)), n) % M16;
            && off < M32 && GoesOnAt(e, Core(t, c.m), sel, off)
            && t.ss.sel == ss && t.ss.base == ReadDesc(e, c.m, ss).base && t.ssD == ReadDesc(e, c.m, ss).big
            && SpGet(t) == (if t.ssD then U32(sp + drop) else U16(sp + drop)) && t.flags == c.s.flags
  {
    hide *;
    LoadFits(c.m, StackAddr(e, c.s), n);
    PopsInward(e, c, n, drop);
    var sel: Word, off: Dword := Peek(e, c, n, 1) % M16, Peek(e, c, n, 0);
    var sp, ss := RetfUnfolds(e, c, n, sel, off, drop);
    DropKeeps(c.s, 2 * n + drop, 2 * n);
    OuterStack(e, c.m, Drop(Drop(c.s, 2 * n + drop), 2 * n), sel, ss, sp + drop, off);
  }

  lemma DropKeeps(s: State, a: int, b: int)
    ensures var t := Drop(Drop(s, a), b); Pe(t) == Pe(s) && t.flags == s.flags
    ensures Pe(Drop(s, a)) == Pe(s) && Drop(s, a).cs == s.cs
  {
    OnlySp(s, SpGet(s) + a);
    OnlySp(Drop(s, a), SpGet(Drop(s, a)) + b);
  }

  lemma RetfUnfolds(e: Env, c: Core, n: nat, sel: Word, off: Dword, drop: Word) returns (sp: Dword, ss: Word)
    requires (n == 2 || n == 4) && sel == Peek(e, c, n, 1) % M16 && off == Peek(e, c, n, 0)
    requires Pe(c.s) && sel % 4 > c.s.cs.sel % 4
    ensures var u := Drop(c.s, 2 * n + drop);
            && sp == Load(c.m, StackAddr(e, u), n) && ss == Peek(e, c.(s := u), n, 1) % M16
            && RetfDrop(e, c, n, drop)
               == Jump(SpSet(SetSs(e, c.m, SetCs(e, c.m, Drop(u, 2 * n), sel), ss), sp + drop), off)
  {
    hide *;
    var u := Drop(c.s, 2 * n + drop);
    LoadFits(c.m, StackAddr(e, u), n);
    sp, ss := Load(c.m, StackAddr(e, u), n), Peek(e, c.(s := u), n, 1) % M16;
    PopsInward(e, c, n, drop);
    RetfIs(e, c, n, sel, off, drop);
    DropKeeps(c.s, 2 * n, drop);
    OuterReturn(e, c.(s := Drop(c.s, 2 * n)), sel, off, n, drop);
  }

  lemma RetfIs(e: Env, c: Core, n: nat, sel: Word, off: Dword, drop: Word)
    requires (n == 2 || n == 4) && sel == Peek(e, c, n, 1) % M16 && off == Top(e, c, n)
    ensures RetfDrop(e, c, n, drop) == FarRetDrop(e, c.(s := Drop(c.s, 2 * n)), sel, off, n, drop)
  {
    LoadFits(c.m, StackAddr(e, c.s), n);
    hide Load, Drop, StackAddr, FarRetDrop, Peek;
  }

  lemma OuterReturn(e: Env, c: Core, sel: Word, off: Dword, n: nat, drop: Word)
    requires Pe(c.s) && (n == 2 || n == 4) && sel % 4 > c.s.cs.sel % 4
    ensures var u := Drop(c.s, drop);
            FarRetDrop(e, c, sel, off, n, drop)
            == Jump(SpSet(SetSs(e, c.m, SetCs(e, c.m, Drop(u, 2 * n), sel), Peek(e, c.(s := u), n, 1) % M16),
                          Load(c.m, StackAddr(e, u), n) + drop), off)
  {
    hide Load, Drop, StackAddr, SpSet, SetCs, SetSs, Jump;
  }

  /** The words a far return pops, and those it then finds behind the bytes it drops. */
  lemma PopsInward(e: Env, c: Core, n: nat, drop: Word)
    requires n == 2 || n == 4
    ensures var u := Drop(c.s, 2 * n + drop);
            && Top(e, c, n) == Peek(e, c, n, 0) == Load(c.m, StackAddr(e, c.s), n) && Drop(Drop(c.s, 2 * n), drop) == u
            && Peek(e, c.(s := u), n, 1) == Load(c.m, StackAddr(e, Drop(c.s, 3 * n + drop)), n)
  {
    hide Load, Lin, SpSet, SpGet;
    DropDrop(c.s, 0, 0);
    DropDrop(c.s, 2 * n, drop);
    DropDrop(c.s, 2 * n + drop, n);
    assert n * 0 == 0 && n * 1 == n && 2 * n + drop + n == 3 * n + drop;
  }

  lemma OuterStack(e: Env, m: Ram, s: State, sel: Word, ss: Word, sp: int, off: Dword)
    requires Pe(s)
    ensures var t := Jump(SpSet(SetSs(e, m, SetCs(e, m, s, sel), ss), sp), off);
            && GoesOnAt(e, Core(t, m), sel, off) && t.flags == s.flags
            && t.ss.sel == ss && t.ss.base == ReadDesc(e, m, ss).base && t.ssD == ReadDesc(e, m, ss).big
            && SpGet(t) == if t.ssD then U32(sp) else U16(sp)
  {
    hide Decode;
    var v := SetSs(e, m, SetCs(e, m, s, sel), ss);
    SpSetGet(v, sp);
    OnlySp(v, sp);
    StackUnmoved(SpSet(v, sp), Jump(SpSet(v, sp), off));
    hide SpSet, Gd;
  }
}
