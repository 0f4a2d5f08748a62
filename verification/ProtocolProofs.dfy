/** What the host promises its client, over single calls and over whole runs. */
module ProtocolProofs {
  import opened Widths
  import opened FlatMemory
  import opened Bits
  import opened Machine
  import opened Stack
  import opened Gates
  import opened Protocol

  // ---- the call structure ------------------------------------------------------------

  ghost predicate Ordered(fs: seq<Field>) {
    && (forall i :: 0 <= i < |fs| ==> fs[i].n > 0 && fs[i].off + fs[i].n <= 64)
    && (forall i, j :: 0 <= i < j < |fs| ==> fs[i].off + fs[i].n <= fs[j].off)
  }

  lemma {:induction false} FieldStored(m: Ram, f: int, fs: seq<Field>, i: int)
    requires Ordered(fs) && 0 <= i < |fs| && fs[i].n <= 8
    ensures Load(StoreAll(m, f, fs), f + fs[i].off, fs[i].n) == fs[i].v % Pow256(fs[i].n)
    decreases |fs|
  {
    hide Load, Store;
    var front, x := fs[..|fs| - 1], fs[|fs| - 1];
    var m1 := StoreAll(m, f, front);
    if i == |fs| - 1 {
      LoadAfterStore(m1, f + x.off, x.n, x.v);
    } else {
      FieldStored(m, f, front, i);
      FieldsApart(f, fs[i].off, fs[i].n, x.off, x.n);
      LoadAfterStoreApart(m1, f + x.off, x.n, x.v, f + fs[i].off, fs[i].n);
    }
  }

  lemma {:induction false} StoredElsewhere(m: Ram, f: int, fs: seq<Field>, b: int)
    requires Ordered(fs) && (fs == [] || U32(b - f) >= fs[|fs| - 1].off + fs[|fs| - 1].n)
    ensures Get8(StoreAll(m, f, fs), b) == Get8(m, b)
    decreases |fs|
  {
    hide Get8, Store;
    if fs != [] {
      var front, x := fs[..|fs| - 1], fs[|fs| - 1];
      StoredElsewhere(m, f, front, b);
      FurtherOn(b, f, x.off);
      StoreElsewhere(StoreAll(m, f, front), f + x.off, x.n, x.v, b);
    }
  }

  lemma FurtherOn(b: int, f: int, k: nat)
    requires U32(b - f) >= k
    ensures U32(b - (f + k)) == U32(b - f) - k
  {
    ModAdd(b - f, -(k as int), M32);
  }

  lemma FieldsApart(f: int, i: nat, n: nat, j: nat, k: nat)
    requires n > 0 && i + n <= j && j + k <= 64
    ensures Apart(f + j, k, f + i, n)
  {
    var d: int := j - i;
    assert (f + i) - (f + j) == -d && (f + j) - (f + i) == d;
  }

  lemma FrameOrdered(s: State, flags: Word)
    ensures Ordered(FrameFields(s, flags))
  {
  }

  lemma FrameField(m: Ram, f: Dword, s: State, flags: Word, i: int, x: Field)
    requires 0 <= i < 12 && FrameFields(s, flags)[i] == x && x.n <= 8
    ensures Load(StoreFrame(m, f, s, flags), f + x.off, x.n) == x.v % Pow256(x.n)
  {
    hide Load, StoreAll;
    FrameOrdered(s, flags);
    FieldStored(m, f, FrameFields(s, flags), i);
  }

  /** What the client finds in its structure: the registers and flags the procedure left. */
  ghost predicate FrameHolds(m: Ram, f: Dword, s: State, flags: Word) {
    && Word32(m, f) == Gd(s.di) && Word32(m, f + 0x04) == Gd(s.si) && Word32(m, f + 0x08) == Gd(s.bp)
    && Word32(m, f + 0x10) == Gd(s.bx) && Word32(m, f + 0x14) == Gd(s.dx) && Word32(m, f + 0x18) == Gd(s.cx)
    && Word32(m, f + 0x1C) == Gd(s.ax) && Word16(m, f + 0x20) == flags
    && Word16(m, f + 0x22) == s.es.sel && Word16(m, f + 0x24) == s.ds.sel
    && Word16(m, f + 0x26) == s.fs.sel && Word16(m, f + 0x28) == s.gs.sel
  }

  lemma FrameStored(m: Ram, f: Dword, s: State, flags: Word)
    ensures FrameHolds(StoreFrame(m, f, s, flags), f, s, flags)
  {
    hide Load, StoreAll, StoreFrame, Gd;
    Sizes();
    FrameField(m, f, s, flags, 0, Field(0x00, 4, Gd(s.di)));
    FrameField(m, f, s, flags, 1, Field(0x04, 4, Gd(s.si)));
    FrameField(m, f, s, flags, 2, Field(0x08, 4, Gd(s.bp)));
    FrameField(m, f, s, flags, 3, Field(0x10, 4, Gd(s.bx)));
    FrameField(m, f, s, flags, 4, Field(0x14, 4, Gd(s.dx)));
    FrameField(m, f, s, flags, 5, Field(0x18, 4, Gd(s.cx)));
    FrameField(m, f, s, flags, 6, Field(0x1C, 4, Gd(s.ax)));
    FrameField(m, f, s, flags, 7, Field(0x20, 2, flags));
    FrameField(m, f, s, flags, 8, Field(0x22, 2, s.es.sel));
    FrameField(m, f, s, flags, 9, Field(0x24, 2, s.ds.sel));
    FrameField(m, f, s, flags, 10, Field(0x26, 2, s.fs.sel));
    FrameField(m, f, s, flags, 11, Field(0x28, 2, s.gs.sel));
  }

  /** Storing a structure and loading it again gives the registers, the flags and the paragraphs. */
  lemma FrameRoundTrip(e: Env, m: Ram, f: Dword, s: State, flags: Word, t: State)
    ensures var u := LoadFrame(e, StoreFrame(m, f, s, flags), t, f);
            && u.di == s.di && u.si == s.si && u.bp == s.bp
            && u.bx == s.bx && u.dx == s.dx && u.cx == s.cx && u.ax == s.ax
            && u.flags == flags
            && u.es.sel == s.es.sel && u.ds.sel == s.ds.sel && u.fs.sel == s.fs.sel && u.gs.sel == s.gs.sel
  {
    hide Word16, Word32, StoreFrame, ReadDesc;
    FrameStored(m, f, s, flags);
    GdSd(0, s.di); GdSd(0, s.si); GdSd(0, s.bp); GdSd(0, s.bx); GdSd(0, s.dx); GdSd(0, s.cx); GdSd(0, s.ax);
  }

  /** The structure is 42 bytes of output; nothing else changes. */
  lemma FrameElsewhere(m: Ram, f: Dword, s: State, flags: Word, a: int, n: nat)
    requires Apart(f, FRAME_BYTES, a, n) && n <= M32
    ensures Load(StoreFrame(m, f, s, flags), a, n) == Load(m, a, n)
  {
    hide Load, StoreAll;
    FrameOrdered(s, flags);
    forall x: int | U32(x - a) < n ensures Get8(StoreFrame(m, f, s, flags), x) == Get8(m, x) {
      OutsideStays(f, FRAME_BYTES, a, n, x);
      StoredElsewhere(m, f, FrameFields(s, flags), x);
    }
    LoadSame(m, StoreFrame(m, f, s, flags), a, n);
  }

  // ---- an interrupt, to the client and back ------------------------------------------

  /** The code segment's cache holds what the tables say, and IP is within its width. */
  ghost predicate CodeAgrees(e: Env, m: Ram, s: State) {
    var d := ReadDesc(e, m, s.cs.sel);
    && s.cs.base == d.base && s.csD == d.big && s.ipMask == (if d.big then 0xFFFF_FFFF else 0xFFFF)
    && s.ip == Masked(s.ip, s.ipMask)
  }

  lemma UnwindIs(e: Env, c: Core, wide: bool, ip: Dword, cs: Word, flags: Word)
    requires var n := Width(wide); Peek(e, c, n, 0) == ip && Peek(e, c, n, 1) == cs && Peek(e, c, n, 2) == flags
    ensures Unwind(e, c, wide)
            == c.(s := Jump(SetCs(e, c.m, Drop(c.s, 3 * Width(wide)).(flags := LoadFlags(flags)), cs), ip))
  {
    hide Load, Lin, SpSet, SetCs, ReadDesc, SetFlag;
  }

  /** Delivering an interrupt leaves the client's place on the stack it was using. */
  lemma PmIntFrame(y: Sys, n: Byte)
    requires Delivers(y.host, n)
    ensures var z, w := PmInt(y, n), Width(y.host.client32);
            && FrameIs(y.e, z.core, w, IntFrame(y.core.s))
            && Pe(z.core.s) == Pe(y.core.s) && z.core.s.ss == y.core.s.ss && z.core.s.ssD == y.core.s.ssD
            && SameStack(y.core.s, Drop(z.core.s, 3 * w))
            && z.host == y.host && z.e == y.e
  {
    hide Load, Store, Lin, SpSet, ReadDesc, SetFlag;
    var w, vs := Width(y.host.client32), IntFrame(y.core.s);
    var d := PushAll(y.e, y.core, w, vs);
    PushedFrame(y.e, y.core, w, vs);
    PushedKeeps(y.e, y.core, w, vs);
    var z := PmInt(y, n);
    FrameMoves(y.e, d, z.core, w, vs);
    SamePlaces(y.e, d.s, z.core.s, 3 * w);
  }

  /** Two flag images that differ in IF alone, which the second has clear. */
  ghost predicate OnlyIfCleared(fl: Word, g: Word) {
    !HasFlag(g, IF) && forall k: nat :: k != IF ==> HasFlag(g, k) == HasFlag(fl, k)
  }

  /**
   An interrupt that is delivered goes on at the handler hooked for that vector: its selector, its
   descriptor, its offset as far as the segment's width goes. Interrupts are off, and no other flag and
   no register but the stack pointer is touched.
   */
  lemma PmIntEnters(y: Sys, n: Byte)
    requires Delivers(y.host, n)
    ensures var s, t, h := y.core.s, PmInt(y, n).core.s, y.host.pmint[n];
            var d := ReadDesc(y.e, PmInt(y, n).core.m, h.sel);
            && t.cs.sel == h.sel
            && (Pe(s) ==> t.cs == Segment(h.sel, d.base, d.limit) && t.csD == d.big)
            && t.ip == (if Pe(s) && d.big then h.off else U16(h.off))
            && OnlyIfCleared(s.flags, t.flags)
            && t.ss == s.ss && t.ds == s.ds && t.es == s.es && t.fs == s.fs && t.gs == s.gs
            && t.ax == s.ax && t.bx == s.bx && t.cx == s.cx && t.dx == s.dx
            && t.si == s.si && t.di == s.di && t.bp == s.bp && t.cr0 == s.cr0
  {
    var w, vs := Width(y.host.client32), IntFrame(y.core.s);
    forall k: nat | k != IF ensures HasFlag(SetFlag(y.core.s.flags, IF, false), k) == HasFlag(y.core.s.flags, k) {
      BitWithBit(y.core.s.flags, IF, false, k);
    }
    BitWithBit(y.core.s.flags, IF, false, IF);
    hide Load, Store, Lin, SpSet, Decode, SetFlag, PushAll, HasFlag;
    PushesMoveSp(y.e, y.core, w, vs);
  }

  /**
   Unwinding at the depth and with the frame an interrupt left resumes the interrupted
   client: same place, same stack, the flags it was interrupted with.
   */
  lemma UnwindResumes(e: Env, s: State, c: Core, wide: bool)
    requires SameStack(s, Drop(c.s, 3 * Width(wide))) && Pe(s) && (wide || s.ip < M16)
    requires FrameIs(e, c, Width(wide), IntFrame(s))
    requires CodeAgrees(e, c.m, s)
    ensures Resumed(s, Unwind(e, c, wide).s) && Unwind(e, c, wide).m == c.m
  {
    hide Load, Lin, SpSet, ReadDesc, SetFlag;
    var n, vs := Width(wide), IntFrame(s);
    FrameWord(s.ip, wide);
    FrameWord(s.cs.sel, wide);
    FrameWord(s.flags, wide);
    assert vs[2] == s.ip && vs[1] == s.cs.sel && vs[0] == s.flags;
    UnwindIs(e, c, wide, s.ip, s.cs.sel, s.flags);
  }

  /** The three words of an interrupt frame are still where `s` has its stack. */
  ghost predicate FrameKept(e: Env, from: Core, to: Core, wide: bool) {
    SameStack(from.s, to.s) && forall k :: 0 <= k < 3 ==> Peek(e, to, Width(wide), k) == Peek(e, from, Width(wide), k)
  }

  lemma KeptFrame(y: Sys, n: Byte, c: Core)
    requires Delivers(y.host, n) && FrameKept(y.e, PmInt(y, n).core, c, y.host.client32)
    ensures FrameIs(y.e, c, Width(y.host.client32), IntFrame(y.core.s))
    ensures SameStack(y.core.s, Drop(c.s, 3 * Width(y.host.client32)))
  {
    hide Load, Lin, SpSet, PmInt;
    var w, vs := Width(y.host.client32), IntFrame(y.core.s);
    PmIntFrame(y, n);
    SamePlaces(y.e, PmInt(y, n).core.s, c.s, 3 * w);
    forall k | 0 <= k < |vs| ensures Peek(y.e, c, w, k) == vs[|vs| - 1 - k] % Pow256(w) {
      assert Peek(y.e, c, w, k) == Peek(y.e, PmInt(y, n).core, w, k);
    }
  }

  /** In protected mode neither A20 nor the tables decide where the stack is. */
  lemma {:induction false} AnyTables(e: Env, e': Env, c: Core, n: nat, vs: seq<int>)
    requires Pe(c.s) && FrameIs(e, c, n, vs)
    ensures FrameIs(e', c, n, vs)
  {
    forall k | 0 <= k < |vs| ensures Peek(e', c, n, k) == vs[|vs| - 1 - k] % Pow256(n) {
      assert Peek(e, c, n, k) == vs[|vs| - 1 - k] % Pow256(n);
      SamePlace(e, e', Drop(c.s, n * k));
    }
  }

  lemma SamePlace(e: Env, e': Env, s: State)
    requires Pe(s)
    ensures StackAddr(e, s) == StackAddr(e', s)
  {
  }

  /** Unwinding with the frame still in place resumes the client, whatever tables are loaded by then. */
  lemma FrameUnwinds(y: Sys, n: Byte, e: Env, c: Core)
    requires Pe(y.core.s) && Delivers(y.host, n) && (y.host.client32 || y.core.s.ip < M16)
    requires FrameKept(y.e, PmInt(y, n).core, c, y.host.client32) && CodeAgrees(e, c.m, y.core.s)
    ensures Resumed(y.core.s, Unwind(e, c, y.host.client32).s) && Unwind(e, c, y.host.client32).m == c.m
  {
    hide PmInt, Unwind, ReadDesc, Lin, Load, FrameIs;
    var w := Width(y.host.client32);
    KeptFrame(y, n, c);
    PmIntFrame(y, n);
    AnyTables(y.e, e, c, w, IntFrame(y.core.s));
    UnwindResumes(e, y.core.s, c, y.host.client32);
  }
}
