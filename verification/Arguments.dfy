/**
 The words a client asks functions 0301h and 0302h to copy from its own stack, and the flags a
 procedure ending in IRET finds: what is on the real-mode stack when the procedure starts.
 */
module Arguments {
  import opened Widths
  import opened FlatMemory
  import opened Bits
  import opened Machine
  import opened Stack
  import opened Protocol
  import opened Landing

  /** The word `k` places above `ss:sp` on a real-mode stack, or below it. */
  function Slot(ss: Word, sp: int, k: int): Dword { Phys(ss, U16(sp + 2 * k)) }

  lemma SlotsDiffer(ss: Word, sp: int, j: int, k: int)
    requires 0 < j - k < 0x8000
    ensures Apart(Slot(ss, sp, j), 2, Slot(ss, sp, k), 2) && Apart(Slot(ss, sp, k), 2, Slot(ss, sp, j), 2)
  {
    var x, y := sp + 2 * j, sp + 2 * k;
    ModShift(y - x, 1, M16);
    NarrowGap(x, y, 2);
    Folded(ss * 16 + U16(x), ss * 16 + U16(y), MEGABYTE, 2);
  }

  lemma SlotMoves(ss: Word, sp: int, x: int, k: int)
    ensures Slot(ss, U16(sp + 2 * x), k) == Slot(ss, sp, x + k)
  {
    ModAdd(sp + 2 * x, 2 * k, M16);
  }

  /** What one push writes. */
  lemma OnePush(c: Core, v: int)
    ensures var d, a := PushReal(c, v), Slot(c.s.ss.sel, c.s.sp.lo, -1);
            && d.s == c.s.(sp := c.s.sp.(lo := U16(c.s.sp.lo - 2)))
            && d.m == Store(c.m, a, 2, v) && Load(d.m, a, 2) == U16(v)
    ensures forall k: int :: Slot(c.s.ss.sel, PushReal(c, v).s.sp.lo, k) == Slot(c.s.ss.sel, c.s.sp.lo, k - 1)
  {
    hide Load, Store, Phys, Pow256;
    LoadAfterStore(c.m, Slot(c.s.ss.sel, c.s.sp.lo, -1), 2, v);
    Sizes();
    hide U16, Slot;
    forall k: int ensures Slot(c.s.ss.sel, PushReal(c, v).s.sp.lo, k) == Slot(c.s.ss.sel, c.s.sp.lo, k - 1) {
      SlotMoves(c.s.ss.sel, c.s.sp.lo, -1, k);
    }
  }

  /** None of the `n` slots below `ss:sp` has a byte in common with the word at `a`. */
  ghost predicate ClearOfSlots(ss: Word, sp: int, n: nat, a: int) {
    forall k: int {:trigger Slot(ss, sp, k)} :: 0 - n <= k < 0 ==> Apart(Slot(ss, sp, k), 2, a, 2)
  }

  lemma PushLeaves(c: Core, v: int, n: nat, a: int)
    requires n > 0 && ClearOfSlots(c.s.ss.sel, c.s.sp.lo, n, a)
    ensures var d := PushReal(c, v);
            && Load(d.m, a, 2) == Load(c.m, a, 2)
            && d.s.ss == c.s.ss && ClearOfSlots(c.s.ss.sel, d.s.sp.lo, n - 1, a)
  {
    hide Load, Store, Phys, Apart, PushReal, U16, Slot;
    OnePush(c, v);
    LoadAfterStoreApart(c.m, Slot(c.s.ss.sel, c.s.sp.lo, -1), 2, v, a, 2);
  }

  lemma {:induction false} CopyLeaves(c: Core, src: int, n: nat, a: int)
    requires ClearOfSlots(c.s.ss.sel, c.s.sp.lo, n, a)
    ensures Load(CopyWords(c, src, n).m, a, 2) == Load(c.m, a, 2)
    decreases n
  {
    hide Load, PushReal, ClearOfSlots;
    if n > 0 {
      var v := Load(c.m, src + 2 * (n - 1), 2);
      PushLeaves(c, v, n, a);
      CopyLeaves(PushReal(c, v), src, n - 1, a);
    }
  }

  /** Each word copied is what the client had there, if no word copied before it was put over it. */
  lemma {:induction false} WordCopied(c: Core, src: int, n: nat, i: nat)
    requires i < n < 0x100 && ClearOfSlots(c.s.ss.sel, c.s.sp.lo, n - 1 - i, src + 2 * i)
    ensures Load(CopyWords(c, src, n).m, Slot(c.s.ss.sel, c.s.sp.lo, i - n), 2) == Load(c.m, src + 2 * i, 2)
    decreases n
  {
    hide Load, Store, PushReal, U16, Slot;
    var v, ss, sp := Load(c.m, src + 2 * (n - 1), 2), c.s.ss.sel, c.s.sp.lo;
    OnePush(c, v);
    if i == n - 1 {
      LoadFits(c.m, src + 2 * i, 2);
      SmallWord(v);
      LastStays(ss, sp, PushReal(c, v).s.sp.lo, n);
      CopyLeaves(PushReal(c, v), src, n - 1, Slot(ss, sp, -1));
    } else {
      PushLeaves(c, v, n - 1 - i, src + 2 * i);
      WordCopied(PushReal(c, v), src, n - 1, i);
    }
  }

  lemma LastStays(ss: Word, sp: int, lower: int, n: nat)
    requires 0 < n < 0x1000 && forall k: int :: Slot(ss, lower, k) == Slot(ss, sp, k - 1)
    ensures ClearOfSlots(ss, lower, n - 1, Slot(ss, sp, -1))
  {
    forall k: int | 0 - (n - 1) <= k < 0 ensures Apart(Slot(ss, lower, k), 2, Slot(ss, sp, -1), 2) {
      SlotsDiffer(ss, sp, -1, k - 1);
    }
  }

  // ---- the whole entry ---------------------------------------------------------------

  /** Flags for an IRET, then the return address: what goes on top of the copied words. */
  function OnTop(c: Core, iret: bool): Core {
    PushReal(PushReal(if iret then PushReal(c, c.s.flags) else c, ENTRY_SEG), OFF_RM_RET)
  }

  /** How many words that is. */
  function Above(iret: bool): nat { if iret then 3 else 2 }

  lemma TopLeaves(c: Core, iret: bool, a: int)
    requires ClearOfSlots(c.s.ss.sel, c.s.sp.lo, 3, a)
    ensures Load(OnTop(c, iret).m, a, 2) == Load(c.m, a, 2)
  {
    hide Load, PushReal, ClearOfSlots;
    PushLeaves(c, c.s.flags, 3, a);
    PushLeaves(c, ENTRY_SEG, 3, a);
    PushLeaves(PushReal(c, ENTRY_SEG), OFF_RM_RET, 2, a);
    var d := PushReal(c, c.s.flags);
    PushLeaves(d, ENTRY_SEG, 2, a);
    PushLeaves(PushReal(d, ENTRY_SEG), OFF_RM_RET, 1, a);
  }

  /** The flags an IRET will restore lie above the return address. */
  lemma TopFlags(c: Core)
    ensures Load(OnTop(c, true).m, Slot(c.s.ss.sel, c.s.sp.lo, -1), 2) == c.s.flags
  {
    hide Load, Store, PushReal, U16, Slot;
    var ss, sp, d := c.s.ss.sel, c.s.sp.lo, PushReal(c, c.s.flags);
    OnePush(c, c.s.flags);
    SmallWord(c.s.flags);
    LastStays(ss, sp, d.s.sp.lo, 3);
    PushLeaves(d, ENTRY_SEG, 2, Slot(ss, sp, -1));
    PushLeaves(PushReal(d, ENTRY_SEG), OFF_RM_RET, 1, Slot(ss, sp, -1));
  }

  /** A word no poke of DOS's touches. */
  ghost predicate Unpoked(pokes: seq<(Dword, Byte)>, a: int) {
    forall k :: 0 <= k < |pokes| ==> U32(pokes[k].0 - a) >= 2
  }

  lemma {:induction false} PokedLeaves(m: Ram, pokes: seq<(Dword, Byte)>, a: int)
    requires Unpoked(pokes, a)
    ensures SameBytes(m, Poked(m, pokes), a, 2)
    decreases |pokes|
  {
    if pokes != [] {
      PokedLeaves(m, pokes[..|pokes| - 1], a);
      assert U32(pokes[|pokes| - 1].0 - a) >= 2;
    }
  }

  /** Where the procedure looks for word `i`: above its return address. */
  function Passed(s: State, iret: bool, i: nat): Dword { Slot(s.ss.sel, s.sp.lo, Above(iret) + i) }

  /** The `i`-th word of the client's stack, at that stack's own width. */
  function Client(s: State, i: nat): int { s.ss.base + SpGet(s) + 2 * i }

  /** Word `i` of the client's `n` is still as it was when it is copied: DOS did not write there, and
      neither did the copies of the words after it. */
  ghost predicate StillThere(y: Sys, iret: bool, grant: Grant, i: nat, n: nat) {
    var z := CallReal(y, iret, grant);
    && (Allocates(y) ==> Unpoked(grant.pokes, Client(y.core.s, i)))
    && forall j: nat {:trigger Passed(z.core.s, iret, j)} :: i < j < n ==>
         Apart(Passed(z.core.s, iret, j), 2, Client(y.core.s, i), 2)
  }

  /** The state on entry, and its slots seen from the stack the procedure was given. */
  lemma EntrySlots(y: Sys, iret: bool, grant: Grant)
    requires |y.host.rm| < MAX_DEPTH
    ensures var z, on, n := CallReal(y, iret, grant), OnProcStack(y, grant), y.core.s.cx.lo % 0x100;
            var c := CopyWords(on, ClientStack(y.core.s), n);
            && z.core.m == OnTop(c, iret).m
            && c.s.ss == on.s.ss == z.core.s.ss && c.s.flags == on.s.flags
            && (forall k: int :: Slot(c.s.ss.sel, c.s.sp.lo, k) == Slot(on.s.ss.sel, on.s.sp.lo, k - n))
            && (forall k: int :: Slot(z.core.s.ss.sel, z.core.s.sp.lo, k)
                                 == Slot(on.s.ss.sel, on.s.sp.lo, k - Above(iret) - n))
  {
    hide Load, Phys, Word16, OnProcStack, ClientStack, FrameAddr, Allocates, U16, ReadDesc, Slot, CopyWords, PushReal;
    var z, on, n := CallReal(y, iret, grant), OnProcStack(y, grant), y.core.s.cx.lo % 0x100;
    var c := CopyWords(on, ClientStack(y.core.s), n);
    CopyKeeps(on, ClientStack(y.core.s), n);
    EntryPushes(y, iret, grant);
    forall k: int ensures Slot(c.s.ss.sel, c.s.sp.lo, k) == Slot(on.s.ss.sel, on.s.sp.lo, k - n) {
      SlotMoves(on.s.ss.sel, on.s.sp.lo, 0 - n, k);
    }
    forall k: int
      ensures Slot(z.core.s.ss.sel, z.core.s.sp.lo, k) == Slot(on.s.ss.sel, on.s.sp.lo, k - Above(iret) - n)
    {
      SlotMoves(on.s.ss.sel, on.s.sp.lo, 0 - n - Above(iret), k);
    }
  }

  /**
   Every word the client asked for is where the procedure looks for it, in the client's order, as the
   client's stack held it before the call. CX at the INT says how many.
   */
  lemma WordsArrive(y: Sys, iret: bool, grant: Grant, i: nat)
    requires |y.host.rm| < MAX_DEPTH && Pe(y.core.s) && i < y.core.s.cx.lo % 0x100
    requires StillThere(y, iret, grant, i, y.core.s.cx.lo % 0x100)
    ensures var z := CallReal(y, iret, grant);
            Word16(z.core.m, Passed(z.core.s, iret, i)) == Word16(y.core.m, Client(y.core.s, i))
  {
    hide Load, CallReal, OnProcStack, CopyWords, OnTop, Slot, Apart, Gd, Above, Allocates;
    var z, on, n := CallReal(y, iret, grant), OnProcStack(y, grant), y.core.s.cx.lo % 0x100;
    var src, b := ClientStack(y.core.s), Above(iret);
    assert Client(y.core.s, i) == src + 2 * i;
    var c := CopyWords(on, src, n);
    EntrySlots(y, iret, grant);
    var ss, sp := on.s.ss.sel, on.s.sp.lo;
    forall k: int | 0 - (n - 1 - i) <= k < 0 ensures Apart(Slot(ss, sp, k), 2, src + 2 * i, 2) {
      assert Slot(ss, sp, k) == Passed(z.core.s, iret, k + n);
    }
    WordCopied(on, src, n, i);
    forall k: int | -3 <= k < 0 ensures Apart(Slot(ss, c.s.sp.lo, k), 2, Slot(ss, sp, i - n), 2) {
      SlotsDiffer(ss, sp, i - n, k - n);
    }
    TopLeaves(c, iret, Slot(ss, sp, i - n));
    OnMemory(y, grant, i);
  }

  lemma OnMemory(y: Sys, grant: Grant, i: nat)
    requires Allocates(y) ==> Unpoked(grant.pokes, Client(y.core.s, i))
    ensures Load(OnProcStack(y, grant).m, Client(y.core.s, i), 2) == Load(y.core.m, Client(y.core.s, i), 2)
  {
    hide Load, Allocates, Client, LoadFrame, ReadDesc, Poked, Word16, FrameAddr, Get8;
    if Allocates(y) {
      PokedLeaves(y.core.m, grant.pokes, Client(y.core.s, i));
      LoadSame(y.core.m, Poked(y.core.m, grant.pokes), Client(y.core.s, i), 2);
    }
  }

  /** A procedure ending in IRET finds the structure's flags under its return address. */
  lemma FlagsArrive(y: Sys, grant: Grant)
    requires |y.host.rm| < MAX_DEPTH
    ensures var z := CallReal(y, true, grant);
            Word16(z.core.m, Slot(z.core.s.ss.sel, z.core.s.sp.lo, 2)) == Word16(y.core.m, FrameAddr(y) + 0x20)
  {
    hide Load, CallReal, OnProcStack, CopyWords, OnTop, Slot, Allocates, FrameAddr;
    var on, n := OnProcStack(y, grant), y.core.s.cx.lo % 0x100;
    OnFlags(y, grant);
    EntrySlots(y, true, grant);
    TopFlags(CopyWords(on, ClientStack(y.core.s), n));
  }

  lemma OnFlags(y: Sys, grant: Grant)
    ensures OnProcStack(y, grant).s.flags == Word16(y.core.m, FrameAddr(y) + 0x20)
  {
    hide Load, ReadDesc, Word16, Word32, FrameAddr, Allocates, Poked;
  }

  /** The call writes the procedure's stack, from the first word copied down, and nothing else. */
  lemma OnlyTheStack(y: Sys, iret: bool, grant: Grant, b: int)
    requires |y.host.rm| < MAX_DEPTH && (Allocates(y) ==> forall p :: p in grant.pokes ==> U32(p.0) != U32(b))
    requires var z, n := CallReal(y, iret, grant), y.core.s.cx.lo % 0x100;
             forall k: int {:trigger Slot(z.core.s.ss.sel, z.core.s.sp.lo, k)} :: 0 <= k < Above(iret) + n ==>
               U32(b - Slot(z.core.s.ss.sel, z.core.s.sp.lo, k)) >= 2
    ensures Get8(CallReal(y, iret, grant).core.m, b) == Get8(y.core.m, b)
  {
    hide Load, CallReal, OnProcStack, CopyWords, OnTop, Slot, Above, Allocates, U32, Get8;
    var z, on, n := CallReal(y, iret, grant), OnProcStack(y, grant), y.core.s.cx.lo % 0x100;
    var c := CopyWords(on, ClientStack(y.core.s), n);
    EntrySlots(y, iret, grant);
    var ss, sp := on.s.ss.sel, on.s.sp.lo;
    forall k: int | 0 - n <= k < 0 ensures U32(b - Slot(ss, sp, k)) >= 2 {
      assert Slot(ss, sp, k) == Slot(ss, z.core.s.sp.lo, k + Above(iret) + n);
    }
    CopySpares(on, ClientStack(y.core.s), n, b);
    forall k: int | 0 - Above(iret) <= k < 0 ensures U32(b - Slot(ss, c.s.sp.lo, k)) >= 2 {
      assert Slot(ss, c.s.sp.lo, k) == Slot(ss, sp, k - n) == Slot(ss, z.core.s.sp.lo, k + Above(iret));
    }
    TopSpares(c, iret, b);
    OnSpares(y, grant, b);
  }

  ghost predicate Spared(ss: Word, sp: int, n: nat, b: int) {
    forall k: int {:trigger Slot(ss, sp, k)} :: 0 - n <= k < 0 ==> U32(b - Slot(ss, sp, k)) >= 2
  }

  lemma PushSpares(c: Core, v: int, n: nat, b: int)
    requires n > 0 && Spared(c.s.ss.sel, c.s.sp.lo, n, b)
    ensures var d := PushReal(c, v);
            Get8(d.m, b) == Get8(c.m, b) && d.s.ss == c.s.ss && Spared(c.s.ss.sel, d.s.sp.lo, n - 1, b)
  {
    hide Get8, Load, Store, PushReal, U16, U32, Slot;
    OnePush(c, v);
    StoreElsewhere(c.m, Slot(c.s.ss.sel, c.s.sp.lo, -1), 2, v, b);
  }

  lemma {:induction false} CopySpares(c: Core, src: int, n: nat, b: int)
    requires Spared(c.s.ss.sel, c.s.sp.lo, n, b)
    ensures Get8(CopyWords(c, src, n).m, b) == Get8(c.m, b)
    decreases n
  {
    hide Get8, Load, PushReal, Spared;
    if n > 0 {
      var v := Load(c.m, src + 2 * (n - 1), 2);
      PushSpares(c, v, n, b);
      CopySpares(PushReal(c, v), src, n - 1, b);
    }
  }

  lemma TopSpares(c: Core, iret: bool, b: int)
    requires Spared(c.s.ss.sel, c.s.sp.lo, Above(iret), b)
    ensures Get8(OnTop(c, iret).m, b) == Get8(c.m, b)
  {
    hide Get8, PushReal, Spared;
    if iret { PushSpares(c, c.s.flags, 3, b); }
    var d := if iret then PushReal(c, c.s.flags) else c;
    PushSpares(d, ENTRY_SEG, 2, b);
    PushSpares(PushReal(d, ENTRY_SEG), OFF_RM_RET, 1, b);
  }

  lemma OnSpares(y: Sys, grant: Grant, b: int)
    requires Allocates(y) ==> forall p :: p in grant.pokes ==> U32(p.0) != U32(b)
    ensures Get8(OnProcStack(y, grant).m, b) == Get8(y.core.m, b)
  {
    hide Load, Allocates, LoadFrame, ReadDesc, Poked, Word16, FrameAddr, Get8, U32;
    if Allocates(y) { PokedSpares(y.core.m, grant.pokes, b); }
  }

  lemma {:induction false} PokedSpares(m: Ram, pokes: seq<(Dword, Byte)>, b: int)
    requires forall p :: p in pokes ==> U32(p.0) != U32(b)
    ensures Get8(Poked(m, pokes), b) == Get8(m, b)
    decreases |pokes|
  {
    if pokes != [] {
      PokedSpares(m, pokes[..|pokes| - 1], b);
      assert pokes[|pokes| - 1] in pokes;
    }
  }

  /**
   The words copied are the ones the client itself would pop, unless its stack is a 16-bit one that
   wraps within them: the host goes straight on past the end of the segment's 64 KiB.
   */
  lemma CopiesOwnStackExactly(e: Env, s: State, i: nat)
    requires Pe(s) && i < 0x100
    ensures U32(Client(s, i)) == StackAddr(e, Drop(s, 2 * i)) <==> WideStack(s) || s.sp.lo + 2 * i < M16
  {
    SpSetGet(s, SpGet(s) + 2 * i);
    var base: int, x: int := s.ss.base, SpGet(s) + 2 * i;
    if WideStack(s) {
      ModAdd(x, base, M32);
    } else if x >= M16 {
      assert U16(x) == x - M16;
      FarFrom(base + x);
    }
  }

  lemma FarFrom(x: int)
    ensures U32(x) != U32(x - M16)
  {
  }
}
