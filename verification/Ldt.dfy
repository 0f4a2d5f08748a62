/**
 The host's local descriptor table (`src/dpmi.cpp`): the scattered-field descriptor format,
 the selectors the host hands out, and the INT 31h functions of DPMI 0.90 that edit slots.
 */
module DescriptorTable {
  import opened Widths
  import opened Bits
  import opened FlatMemory
  import opened PagedMemory
  import opened Machine
  import opened Protocol
  import opened Landing

  const LDT_BASE := 0x0011_0000
  const LDT_COUNT := 1024

  /** `desc_addr`. */
  function SlotAddr(sel: Word): Dword { LDT_BASE + (sel - sel % 8) }

  /** The processor's `read_desc` looks the selector up where the host keeps its slot. */
  predicate SelectsLocal(e: Env, sel: Word) { e.ldtBase == LDT_BASE && (sel / 4 % 2 == 1 || !e.gdtLoaded) }

  /** `read_desc` of the selector is what its slot holds, whatever else the processor's tables are. */
  ghost predicate ReadAsSlot(m: Ram, sel: Word) {
    forall e: Env :: SelectsLocal(e, sel) ==> ReadDesc(e, m, sel) == Decode(m, SlotAddr(sel))
  }

  lemma SameTable(m: Ram, sel: Word)
    ensures forall e: Env :: SelectsLocal(e, sel) ==> DescAddr(e, sel) == SlotAddr(sel)
    ensures ReadAsSlot(m, sel)
  {
    hide Decode;
  }

  // ---- the eight bytes of a slot -----------------------------------------------------

  /** The fields of a descriptor where they lie (Intel SDM Vol. 3A, section 3.4.5). */
  datatype Raw = Raw(limitLow: Word, baseLow: Word, baseMid: Byte, ar: Byte, hi: Byte, baseHigh: Byte)

  function At(m: Ram, a: int, j: nat): Byte { Get8(m, a + j) }

  function RawAt(m: Ram, a: int): Raw {
    Raw(At(m, a, 0) + M8 * At(m, a, 1), At(m, a, 2) + M8 * At(m, a, 3),
        At(m, a, 4), At(m, a, 5), At(m, a, 6), At(m, a, 7))
  }

  function Meaning(r: Raw): Desc { MakeDesc(r.limitLow, r.baseLow, r.baseMid, r.ar, r.hi, r.baseHigh) }

  lemma DecodeIs(m: Ram, a: int)
    ensures Decode(m, a) == Meaning(RawAt(m, a))
  {
    hide Load, Get8;
    LoadBytes(m, a);
    LoadBytes(m, a + 2);
    assert a + 2 + 1 == a + 3;
  }

  lemma RightsAt(m: Ram, a: int)
    ensures RawAt(m, a).ar == Get8(m, a + 5) && RawAt(m, a).hi == Get8(m, a + 6)
  {
  }

  /** A write of one byte at offset `i` of a slot changes that byte and no other. */
  lemma OneField(m: Ram, a: int, i: nat, v: Byte, j: nat)
    requires i < 8 && j < 8
    ensures At(Put8(m, a + i, v), a, j) == if i == j then v else At(m, a, j)
  {
    if i != j { Distinct(a, i, j); }
  }

  lemma Distinct(a: int, i: nat, j: nat)
    requires i < 8 && j < 8 && i != j
    ensures U32(a + i) != U32(a + j)
  {
    if U32(a + i) == U32(a + j) { SameMod(a + i, a + j); }
  }

  lemma SameMod(x: int, y: int)
    requires U32(x) == U32(y)
    ensures (y - x) % M32 == 0
  {
  }

  lemma PutField(m: Ram, a: int, i: nat, v: Byte)
    requires 4 <= i < 8
    ensures var r, r' := RawAt(m, a), RawAt(Put8(m, a + i, v), a);
            r' == if i == 4 then r.(baseMid := v) else if i == 5 then r.(ar := v)
                  else if i == 6 then r.(hi := v) else r.(baseHigh := v)
  {
    var m' := Put8(m, a + i, v);
    forall j: nat | j < 8 ensures At(m', a, j) == if i == j then v else At(m, a, j) { OneField(m, a, i, v, j); }
    hide At, Put8;
  }

  /** And of a word, at offset 0 or 2. */
  lemma PutWord(m: Ram, a: int, i: nat, v: Word)
    requires i == 0 || i == 2
    ensures RawAt(Store(m, a + i, 2, v), a)
            == if i == 0 then RawAt(m, a).(limitLow := v) else RawAt(m, a).(baseLow := v)
  {
    StoreBytes(m, a + i, v);
    var m1 := Put8(m, a + i, v % M8);
    var m' := Put8(m1, a + (i + 1), v / M8 % M8);
    assert a + i + 1 == a + (i + 1);
    forall j: nat | j < 8
      ensures At(m', a, j) == if j == i then v % M8 else if j == i + 1 then v / M8 else At(m, a, j)
    {
      hide At, Put8;
      OneField(m, a, i, v % M8, j);
      OneField(m1, a, i + 1, v / M8 % M8, j);
    }
    hide At, Put8, Store;
  }

  /** Every byte outside the slot at `a` is the same. */
  ghost predicate OnlySlot(m: Ram, m': Ram, a: int) {
    forall b: int {:trigger Get8(m', b)} :: U32(b - a) >= 8 ==> Get8(m', b) == Get8(m, b)
  }

  /** What a whole slot is written as, in the order the host writes it. */
  function PutRaw(m: Ram, a: int, r: Raw): Ram {
    var m2 := Store(Store(m, a, 2, r.limitLow), a + 2, 2, r.baseLow);
    Put8(Put8(Put8(Put8(m2, a + 4, r.baseMid), a + 5, r.ar), a + 6, r.hi), a + 7, r.baseHigh)
  }

  lemma PutRawReads(m: Ram, a: int, r: Raw)
    ensures RawAt(PutRaw(m, a, r), a) == r
  {
    hide RawAt, Store, Put8;
    PutWord(m, a, 0, r.limitLow);
    var m1 := Store(m, a, 2, r.limitLow);
    PutWord(m1, a, 2, r.baseLow);
    var m2 := Store(m1, a + 2, 2, r.baseLow);
    PutField(m2, a, 4, r.baseMid);
    var m3 := Put8(m2, a + 4, r.baseMid);
    PutField(m3, a, 5, r.ar);
    var m4 := Put8(m3, a + 5, r.ar);
    PutField(m4, a, 6, r.hi);
    PutField(Put8(m4, a + 6, r.hi), a, 7, r.baseHigh);
  }

  lemma PutRawOnly(m: Ram, a: int, r: Raw)
    ensures OnlySlot(m, PutRaw(m, a, r), a)
  {
    hide OnlySlot, Store, Put8;
    var m1 := Store(m, a, 2, r.limitLow);
    var m2 := Store(m1, a + 2, 2, r.baseLow);
    var m3 := Put8(m2, a + 4, r.baseMid);
    var m4 := Put8(m3, a + 5, r.ar);
    var m5 := Put8(m4, a + 6, r.hi);
    WordInSlot(m, a, 0, r.limitLow);
    WordInSlot(m1, a, 2, r.baseLow);
    ByteInSlot(m2, a, 4, r.baseMid);
    ByteInSlot(m3, a, 5, r.ar);
    ByteInSlot(m4, a, 6, r.hi);
    ByteInSlot(m5, a, 7, r.baseHigh);
    Together(m, m1, m2, a);
    Together(m, m2, m3, a);
    Together(m, m3, m4, a);
    Together(m, m4, m5, a);
    Together(m, m5, PutRaw(m, a, r), a);
  }

  lemma Together(m: Ram, m1: Ram, m2: Ram, a: int)
    requires OnlySlot(m, m1, a) && OnlySlot(m1, m2, a)
    ensures OnlySlot(m, m2, a)
  {
  }

  lemma ByteInSlot(m: Ram, a: int, i: nat, v: Byte)
    requires i < 8
    ensures OnlySlot(m, Put8(m, a + i, v), a)
  {
    forall b: int | U32(b - a) >= 8 ensures Get8(Put8(m, a + i, v), b) == Get8(m, b) {
      StepOff(a, b, i);
      PutAway(m, a + i, v, b);
    }
  }

  lemma WordInSlot(m: Ram, a: int, i: nat, v: Word)
    requires i <= 6
    ensures OnlySlot(m, Store(m, a + i, 2, v), a)
  {
    forall b: int | U32(b - a) >= 8 ensures Get8(Store(m, a + i, 2, v), b) == Get8(m, b) {
      StepOff(a, b, i);
      StoreElsewhere(m, a + i, 2, v, b);
    }
  }

  lemma PutAway(m: Ram, a: int, v: Byte, b: int)
    requires U32(b - a) > 0
    ensures Get8(Put8(m, a, v), b) == Get8(m, b)
  {
  }

  lemma StepOff(a: int, b: int, k: nat)
    requires U32(b - a) >= 8 && k < 8
    ensures U32(b - (a + k)) == U32(b - a) - k
  {
    ModAdd(b - a, 0 - k, M32);
  }

  /** Slots are either the same or apart, so an edit of one leaves every other descriptor as it was. */
  lemma OtherSlots(m: Ram, m': Ram, sel: Word, other: Word)
    requires OnlySlot(m, m', SlotAddr(sel)) && other / 8 != sel / 8
    ensures RawAt(m', SlotAddr(other)) == RawAt(m, SlotAddr(other))
  {
    var a, b := SlotAddr(sel), SlotAddr(other);
    forall j: nat | j < 8 ensures At(m', b, j) == At(m, b, j) { SlotsApart(sel, other, j); }
    hide At;
  }

  lemma SlotsApart(sel: Word, other: Word, j: nat)
    requires other / 8 != sel / 8 && j < 8
    ensures U32(SlotAddr(other) + j - SlotAddr(sel)) >= 8
  {
    var d := other / 8 - sel / 8;
    assert SlotAddr(other) + j - SlotAddr(sel) == 8 * d + j;
    if d < 0 { DivIs(8 * d + j, M32, -1, 8 * d + j + M32); }
  }

  lemma SameSlot(sel: Word, other: Word)
    requires other / 8 == sel / 8
    ensures SlotAddr(other) == SlotAddr(sel)
  {
  }

  // ---- set_desc ----------------------------------------------------------------------

  function LimitField(limit: Dword): (f: Dword)
    ensures f <= 0xF_FFFF
  {
    if limit > 0xF_FFFF then limit / 0x1000 else limit
  }

  function NewRaw(base: Dword, limit: Dword, code: bool, big: bool): Raw {
    var f := LimitField(limit);
    Raw(f % M16, base % M16, base / M16 % M8, if code then 0xFB else 0xF3,
        (if limit > 0xF_FFFF then 0x80 else 0) + (if big then 0x40 else 0) + f / M16, base / M24)
  }

  function SetDesc(m: Ram, sel: Word, base: Dword, limit: Dword, code: bool, big: bool): Ram {
    PutRaw(m, SlotAddr(sel), NewRaw(base, limit, code, big))
  }

  /** The limit a descriptor can express: to the byte up to one megabyte, to the page above. */
  function Expressed(limit: Dword): Dword { if limit > 0xF_FFFF then limit - limit % 0x1000 + 0xFFF else limit }

  predicate IsCode(d: Desc) { d.ar / 8 % 2 == 1 }

  /** `read_desc` of what `set_desc` wrote: same base, kind and size, and the limit rounded up. */
  lemma SetDescReads(m: Ram, sel: Word, base: Dword, limit: Dword, code: bool, big: bool)
    ensures var d := Decode(SetDesc(m, sel, base, limit, code, big), SlotAddr(sel));
            && d.base == base && d.limit == Expressed(limit) && limit <= d.limit
            && d.big == big && d.present && IsCode(d) == code && d.ar / 0x20 % 4 == 3
    ensures OnlySlot(m, SetDesc(m, sel, base, limit, code, big), SlotAddr(sel))
    ensures ReadAsSlot(SetDesc(m, sel, base, limit, code, big), sel)
  {
    SameTable(SetDesc(m, sel, base, limit, code, big), sel);
    var r := NewRaw(base, limit, code, big);
    PutRawReads(m, SlotAddr(sel), r);
    PutRawOnly(m, SlotAddr(sel), r);
    DecodeIs(SetDesc(m, sel, base, limit, code, big), SlotAddr(sel));
    hide Decode, PutRaw, RawAt, OnlySlot;
    HighByte(limit, big);
    assert base == base % M16 + base / M16 % M8 * M16 + base / M24 * M24;
  }

  lemma HighByte(limit: Dword, big: bool)
    ensures var f := LimitField(limit);
            var hi := (if limit > 0xF_FFFF then 0x80 else 0) + (if big then 0x40 else 0) + f / M16;
            && hi < M8 && hi % 16 == f / M16 && (hi >= 0x80 <==> limit > 0xF_FFFF) && (hi / 0x40 % 2 == 1 <==> big)
            && f % M16 + f / M16 * M16 == f
  {
  }

  // ---- editing a slot ----------------------------------------------------------------

  /** 0007h. */
  function WithBase(m: Ram, sel: Word, base: Dword): Ram {
    var a := SlotAddr(sel);
    Put8(Put8(Store(m, a + 2, 2, base % M16), a + 4, base / M16 % M8), a + 7, base / M24)
  }

  /** 0008h: the size bit and the old granularity bit stay. */
  function WithLimit(m: Ram, sel: Word, limit: Dword): Ram {
    var a := SlotAddr(sel);
    Put8(Store(m, a, 2, LimitField(limit) % M16), a + 6, LimitByte(Get8(m, a + 6), limit))
  }

  function LimitByte(hi: Byte, limit: Dword): Byte {
    var g := hi / 0x40 * 0x40;
    (if limit > 0xF_FFFF && g < 0x80 then g + 0x80 else g) + LimitField(limit) / M16
  }

  /** 0009h: type in CL, G, B and the available bit in the top of CH; the limit's top bits stay. */
  function WithRights(m: Ram, sel: Word, rights: Word): Ram {
    var a := SlotAddr(sel);
    var m1 := Put8(m, a + 5, rights % M8);
    Put8(m1, a + 6, Get8(m1, a + 6) % 0x10 + rights / M8 / 0x10 * 0x10)
  }

  /** Setting the base changes the base and nothing else, in this slot or any other. */
  lemma BaseEdited(m: Ram, sel: Word, base: Dword)
    ensures Decode(WithBase(m, sel, base), SlotAddr(sel)) == Decode(m, SlotAddr(sel)).(base := base)
    ensures OnlySlot(m, WithBase(m, sel, base), SlotAddr(sel))
    ensures ReadAsSlot(WithBase(m, sel, base), sel)
  {
    SameTable(WithBase(m, sel, base), sel);
    hide RawAt, Store, Put8, Decode, SlotAddr, OnlySlot;
    var a: int := SlotAddr(sel);
    var m1 := Store(m, a + 2, 2, base % M16);
    var m2 := Put8(m1, a + 4, base / M16 % M8);
    DecodeIs(m, a);
    DecodeIs(WithBase(m, sel, base), a);
    PutWord(m, a, 2, base % M16);
    PutField(m1, a, 4, base / M16 % M8);
    PutField(m2, a, 7, base / M24);
    WordInSlot(m, a, 2, base % M16);
    ByteInSlot(m1, a, 4, base / M16 % M8);
    ByteInSlot(m2, a, 7, base / M24);
    Together(m, m1, m2, a);
    Together(m, m2, WithBase(m, sel, base), a);
    BaseParts(base);
  }

  lemma BaseParts(base: Dword)
    ensures base == base % M16 + base / M16 % M8 * M16 + base / M24 * M24
  {
  }

  lemma LimitOnly(m: Ram, sel: Word, limit: Dword)
    ensures OnlySlot(m, WithLimit(m, sel, limit), SlotAddr(sel))
    ensures var r, f := RawAt(m, SlotAddr(sel)), LimitField(limit);
            RawAt(WithLimit(m, sel, limit), SlotAddr(sel)) == r.(limitLow := f % M16, hi := LimitByte(r.hi, limit))
  {
    hide RawAt, Store, Put8, Get8, SlotAddr, OnlySlot, LimitByte;
    var a: int, f := SlotAddr(sel), LimitField(limit);
    RightsAt(m, a);
    var m1, hi := Store(m, a, 2, f % M16), LimitByte(RawAt(m, a).hi, limit);
    PutWord(m, a, 0, f % M16);
    PutField(m1, a, 6, hi);
    WordInSlot(m, a, 0, f % M16);
    ByteInSlot(m1, a, 6, hi);
    Together(m, m1, WithLimit(m, sel, limit), a);
  }

  /** Setting the limit keeps base, kind and size; and the limit reads back as it would from
      a fresh descriptor exactly when the old one was byte-granular or the new one is not. */
  lemma LimitEdited(m: Ram, sel: Word, limit: Dword)
    ensures var d, d' := Decode(m, SlotAddr(sel)), Decode(WithLimit(m, sel, limit), SlotAddr(sel));
            && d'.base == d.base && d'.ar == d.ar && d'.big == d.big && d'.present == d.present
            && (d'.limit == Expressed(limit) <==> d.hi < 0x80 || limit > 0xF_FFFF)
    ensures OnlySlot(m, WithLimit(m, sel, limit), SlotAddr(sel))
    ensures ReadAsSlot(WithLimit(m, sel, limit), sel)
  {
    SameTable(WithLimit(m, sel, limit), sel);
    var a := SlotAddr(sel);
    LimitOnly(m, sel, limit);
    DecodeIs(m, a);
    DecodeIs(WithLimit(m, sel, limit), a);
    hide RawAt, Decode, WithLimit, OnlySlot, LimitByte;
    KeptBits(RawAt(m, a).hi, limit);
  }

  lemma KeptBits(hi: Byte, limit: Dword)
    ensures var f, hi' := LimitField(limit), LimitByte(hi, limit);
            && hi' % 16 == f / M16 && hi' / 0x40 % 2 == hi / 0x40 % 2
            && (hi' >= 0x80 <==> hi >= 0x80 || limit > 0xF_FFFF)
            && f % M16 + hi' % 16 * M16 == f
  {
    var f, g := LimitField(limit), hi / 0x40;
    var g' := if limit > 0xF_FFFF && g < 2 then g + 2 else g;
    assert LimitByte(hi, limit) == 0x40 * g' + f / M16;
    hide LimitByte, LimitField;
    DivIs(0x40 * g' + f / M16, 0x40, g', f / M16);
    assert (0x40 * g' + f / M16) % 16 == f / M16;
  }

  /** Setting the rights changes type, size and granularity; the base and the limit's digits stay. */
  lemma RightsEdited(m: Ram, sel: Word, rights: Word)
    ensures var r, d := RawAt(m, SlotAddr(sel)), Decode(m, SlotAddr(sel));
            var d' := Decode(WithRights(m, sel, rights), SlotAddr(sel));
            var digits := r.limitLow + r.hi % 16 * M16;
            && d'.base == d.base && d'.ar == rights % M8
            && (d'.big <==> Bit(rights, 14)) && (d'.present <==> Bit(rights, 7))
            && d'.limit == if Bit(rights, 15) then digits * 0x1000 + 0xFFF else digits
    ensures OnlySlot(m, WithRights(m, sel, rights), SlotAddr(sel))
    ensures ReadAsSlot(WithRights(m, sel, rights), sel)
  {
    SameTable(WithRights(m, sel, rights), sel);
    hide RawAt, WithRights, Decode, Bit, SlotAddr, OnlySlot;
    RightsBits(rights);
    RightsOnly(m, sel, rights);
    DecodeIs(m, SlotAddr(sel));
    DecodeIs(WithRights(m, sel, rights), SlotAddr(sel));
    HighRights(RawAt(m, SlotAddr(sel)).hi, rights / M8);
  }

  lemma RightsOnly(m: Ram, sel: Word, rights: Word)
    ensures var r := RawAt(m, SlotAddr(sel));
            RawAt(WithRights(m, sel, rights), SlotAddr(sel))
            == r.(ar := rights % M8, hi := r.hi % 0x10 + rights / M8 / 0x10 * 0x10)
    ensures OnlySlot(m, WithRights(m, sel, rights), SlotAddr(sel))
  {
    hide RawAt, Put8, Get8, SlotAddr, OnlySlot;
    var a: int := SlotAddr(sel);
    var m1 := Put8(m, a + 5, rights % M8);
    RightsAt(m1, a);
    var hi := RawAt(m1, a).hi % 0x10 + rights / M8 / 0x10 * 0x10;
    PutField(m, a, 5, rights % M8);
    PutField(m1, a, 6, hi);
    ByteInSlot(m, a, 5, rights % M8);
    ByteInSlot(m1, a, 6, hi);
    Together(m, m1, WithRights(m, sel, rights), a);
  }

  lemma HighRights(hi: Byte, ch: Byte)
    ensures var h := hi % 0x10 + ch / 0x10 * 0x10;
            0 <= h < M8 && h % 0x10 == hi % 0x10 && (h >= 0x80 <==> ch >= 0x80) && h / 0x40 % 2 == ch / 0x40 % 2
  {
  }

  lemma RightsBits(rights: Word)
    ensures Bit(rights, 14) <==> rights / M8 / 0x40 % 2 == 1
    ensures Bit(rights, 15) <==> rights / M8 >= 0x80
    ensures Bit(rights, 7) <==> rights % M8 >= 0x80
  {
    Powers();
    assert Pow2(7) == 128 && Pow2(14) == 0x4000 && Pow2(15) == 0x8000 by {
      assert Pow2(5) == 32 && Pow2(6) == 64 && Pow2(9) == 512 && Pow2(10) == 1024 && Pow2(11) == 2048;
      assert Pow2(12) == 4096 && Pow2(13) == 8192;
    }
  }

  /** What 000Ah makes of a descriptor's type. */
  function NotCode(ar: Byte): Byte { ar - ar / 8 % 2 * 8 }

  function Alias(m: Ram, from: Word, to: Word): Ram {
    var a, b := SlotAddr(from), SlotAddr(to);
    var m1 := CopyUp(m, a, b, 8);
    Put8(m1, b + 5, NotCode(Get8(m1, b + 5)))
  }

  lemma {:induction false} CopySlot(m: Ram, from: Word, to: Word, n: nat, j: nat)
    requires n <= 8 && j < 8
    ensures At(CopyUp(m, SlotAddr(from), SlotAddr(to), n), SlotAddr(to), j)
            == At(m, if j < n then SlotAddr(from) else SlotAddr(to), j)
    ensures At(CopyUp(m, SlotAddr(from), SlotAddr(to), n), SlotAddr(from), j) == At(m, SlotAddr(from), j)
    ensures OnlySlot(m, CopyUp(m, SlotAddr(from), SlotAddr(to), n), SlotAddr(to))
    decreases n
  {
    if n > 0 {
      var a, b := SlotAddr(from), SlotAddr(to);
      var m1 := CopyUp(m, a, b, n - 1);
      hide OnlySlot, SlotAddr, Put8, CopyUp;
      assert CopyUp(m, a, b, n) == Put8(m1, b + (n - 1), At(m1, a, n - 1)) by { CopyUpLast(m, a, b, n); }
      CopySlot(m, from, to, n - 1, j);
      CopySlot(m, from, to, n - 1, n - 1);
      OneField(m1, b, n - 1, At(m1, a, n - 1), j);
      ByteInSlot(m1, b, n - 1, At(m1, a, n - 1));
      Together(m, m1, CopyUp(m, a, b, n), b);
      if from / 8 == to / 8 { SameSlot(from, to); } else { FromKept(m1, from, to, n - 1, At(m1, a, n - 1), j); }
      hide At;
    }
  }

  lemma CopyUpLast(m: Ram, a: int, b: int, n: nat)
    requires n > 0
    ensures CopyUp(m, a, b, n) == Put8(CopyUp(m, a, b, n - 1), b + (n - 1), At(CopyUp(m, a, b, n - 1), a, n - 1))
  {
  }

  lemma FromKept(m: Ram, from: Word, to: Word, i: nat, v: Byte, j: nat)
    requires from / 8 != to / 8 && i < 8 && j < 8
    ensures At(Put8(m, SlotAddr(to) + i, v), SlotAddr(from), j) == At(m, SlotAddr(from), j)
  {
    ByteInSlot(m, SlotAddr(to), i, v);
    SlotsApart(to, from, j);
  }

  lemma CopiedSlot(m: Ram, from: Word, to: Word)
    ensures RawAt(CopyUp(m, SlotAddr(from), SlotAddr(to), 8), SlotAddr(to)) == RawAt(m, SlotAddr(from))
  {
    hide At, CopyUp, SlotAddr, OnlySlot;
    forall j: nat | j < 8
      ensures At(CopyUp(m, SlotAddr(from), SlotAddr(to), 8), SlotAddr(to), j) == At(m, SlotAddr(from), j)
    {
      CopySlot(m, from, to, 8, j);
    }
  }

  /** 000Ah: the new slot describes the same memory as data, whatever slot it was asked to alias. */
  lemma AliasReads(m: Ram, from: Word, to: Word)
    ensures var d, d' := Decode(m, SlotAddr(from)), Decode(Alias(m, from, to), SlotAddr(to));
            && d' == d.(ar := d'.ar) && !IsCode(d')
            && forall k: nat :: k != 3 ==> (Bit(d'.ar, k) <==> Bit(d.ar, k))
    ensures OnlySlot(m, Alias(m, from, to), SlotAddr(to))
    ensures ReadAsSlot(Alias(m, from, to), to)
  {
    SameTable(Alias(m, from, to), to);
    hide CopyUp, RawAt, SlotAddr, Put8, Get8, OnlySlot, Decode, NotCode, At;
    var a, b := SlotAddr(from), SlotAddr(to);
    var m1 := CopyUp(m, a, b, 8);
    var ar := RawAt(m1, b).ar;
    RightsAt(m1, b);
    CopiedSlot(m, from, to);
    CopySlot(m, from, to, 8, 0);
    PutField(m1, b, 5, NotCode(ar));
    ByteInSlot(m1, b, 5, NotCode(ar));
    Together(m, m1, Alias(m, from, to), b);
    DecodeIs(m, a);
    DecodeIs(Alias(m, from, to), b);
    OneBitLess(ar);
  }

  /** Only the code bit goes. */
  lemma OneBitLess(ar: Byte)
    ensures NotCode(ar) >= 0x80 <==> ar >= 0x80
    ensures NotCode(ar) / 8 % 2 == 0 && forall k: nat :: k != 3 ==> (Bit(NotCode(ar), k) <==> Bit(ar, k))
  {
    assert Pow2(3) == 8 && NotCode(ar) == WithBit(ar, 3, false);
    forall k: nat | k != 3 ensures Bit(NotCode(ar), k) <==> Bit(ar, k) { BitWithBit(ar, 3, false, k); }
  }

  // ---- handing out selectors ---------------------------------------------------------

  /** `alloc_sel`: `count` slots from `next` on, or 0; and the slot after them. */
  function Take(next: nat, count: nat): (Word, nat) {
    if next + count > LDT_COUNT then (0, next) else (U16(next * 8 + 7), next + count)
  }

  /** The selectors returned by a run of allocations. */
  function Takes(next: nat, counts: seq<nat>): seq<Word>
    decreases |counts|
  {
    if counts == [] then [] else [Take(next, counts[0]).0] + Takes(Take(next, counts[0]).1, counts[1..])
  }

  /** `desc_ok`. */
  predicate DescOk(e: Env, sel: Word) {
    var lim := if sel / 4 % 2 == 1 || !e.gdtLoaded then e.ldtLimit else e.gdtLimit;
    sel >= 8 && (lim == 0 || sel - sel % 8 + 7 <= lim)
  }

  /** In the host's table every slot but the null one is usable, and no selector beyond it. */
  lemma UsableSlots(e: Env, sel: Word)
    requires e.ldtLimit == LDT_COUNT * 8 - 1 && SelectsLocal(e, sel)
    ensures DescOk(e, sel) <==> 1 <= sel / 8 < 1024
  {
  }

  /** A client's selector: local table, ring 3, and one of the `count` slots from `first` on is usable. */
  ghost predicate Granted(e: Env, sel: Word, count: nat) {
    && sel % 8 == 7 && 1 <= sel / 8 && sel / 8 + count <= LDT_COUNT
    && forall k: nat {:trigger DescOk(e, U16(sel + 8 * k))} :: k < count ==> DescOk(e, U16(sel + 8 * k))
  }

  lemma TakeIs(next: nat, count: nat, e: Env)
    requires 1 <= next <= LDT_COUNT && count > 0 && e.ldtLimit == LDT_COUNT * 8 - 1
    ensures var (sel, next') := Take(next, count);
            && next <= next' <= LDT_COUNT
            && (sel != 0 <==> next + count <= LDT_COUNT)
            && (sel != 0 ==> Granted(e, sel, count) && sel / 8 == next && next' == next + count)
  {
    if next + count <= LDT_COUNT {
      var sel := U16(next * 8 + 7);
      forall k: nat | k < count ensures DescOk(e, U16(sel + 8 * k)) { assert sel + 8 * k < M16; }
    }
  }

  /** However many slots a run asks for, each grant is a usable range and no two grants share a slot. */
  lemma {:induction false} GrantsDistinct(next: nat, counts: seq<nat>, e: Env)
    requires 1 <= next <= LDT_COUNT && e.ldtLimit == LDT_COUNT * 8 - 1
    requires forall i :: 0 <= i < |counts| ==> counts[i] > 0
    ensures var sels := Takes(next, counts);
            && |sels| == |counts|
            && (forall i :: 0 <= i < |sels| && sels[i] != 0 ==> Granted(e, sels[i], counts[i]) && next <= sels[i] / 8)
            && (forall i, j :: 0 <= i < j < |sels| && sels[i] != 0 && sels[j] != 0 ==>
                  sels[i] / 8 + counts[i] <= sels[j] / 8)
    decreases |counts|
  {
    hide Take, Granted;
    if counts != [] {
      TakeIs(next, counts[0], e);
      GrantsDistinct(Take(next, counts[0]).1, counts[1..], e);
      var sels, rest := Takes(next, counts), Takes(Take(next, counts[0]).1, counts[1..]);
      assert forall i :: 0 < i < |sels| ==> sels[i] == rest[i - 1] && counts[i] == counts[1..][i - 1];
    }
  }

  /** The `n` slots from `first` on as 0000h leaves them: present, writable, empty. */
  function Cleared(m: Ram, first: Word, n: nat): Ram
    decreases n
  {
    if n == 0 then m else SetDesc(Cleared(m, first, n - 1), U16(first + 8 * (n - 1)), 0, 0, false, false)
  }

  lemma {:induction false} ClearedIs(m: Ram, first: Word, n: nat, other: Word)
    requires first + 8 * n <= M16
    ensures var d := Decode(Cleared(m, first, n), SlotAddr(other));
            if first / 8 <= other / 8 < first / 8 + n then d == Desc(0, 0, 0xF3, 0, false, true)
            else d == Decode(m, SlotAddr(other))
    decreases n
  {
    hide SlotAddr, SetDesc, Decode, OnlySlot, Cleared;
    if n == 0 {
      ClearedNone(m, first);
    } else {
      var m1, sel := Cleared(m, first, n - 1), U16(first + 8 * (n - 1));
      assert sel / 8 == first / 8 + (n - 1);
      ClearedIs(m, first, n - 1, other);
      ClearedLast(m, first, n);
      if other / 8 != sel / 8 { ClearedOther(m1, sel, other); } else { ClearedOne(m1, sel); SameSlot(sel, other); }
    }
  }

  lemma ClearedNone(m: Ram, first: Word)
    ensures Cleared(m, first, 0) == m
  {
  }

  lemma ClearedLast(m: Ram, first: Word, n: nat)
    requires n > 0
    ensures Cleared(m, first, n) == SetDesc(Cleared(m, first, n - 1), U16(first + 8 * (n - 1)), 0, 0, false, false)
  {
    hide SetDesc;
  }

  lemma ClearedOne(m: Ram, sel: Word)
    ensures Decode(SetDesc(m, sel, 0, 0, false, false), SlotAddr(sel)) == Desc(0, 0, 0xF3, 0, false, true)
  {
    hide SlotAddr, PutRaw, Decode, RawAt;
    PutRawReads(m, SlotAddr(sel), NewRaw(0, 0, false, false));
    DecodeIs(SetDesc(m, sel, 0, 0, false, false), SlotAddr(sel));
  }

  lemma ClearedOther(m: Ram, sel: Word, other: Word)
    requires other / 8 != sel / 8
    ensures Decode(SetDesc(m, sel, 0, 0, false, false), SlotAddr(other)) == Decode(m, SlotAddr(other))
  {
    SetDescReads(m, sel, 0, 0, false, false);
    hide SlotAddr, SetDesc, Decode, RawAt, OnlySlot;
    OtherDescriptors(m, SetDesc(m, sel, 0, 0, false, false), sel, other);
  }

  lemma OtherDescriptors(m: Ram, m': Ram, sel: Word, other: Word)
    requires OnlySlot(m, m', SlotAddr(sel)) && other / 8 != sel / 8
    ensures Decode(m', SlotAddr(other)) == Decode(m, SlotAddr(other))
  {
    hide SlotAddr, Decode, RawAt, OnlySlot;
    OtherSlots(m, m', sel, other);
    DecodeIs(m, SlotAddr(other));
    DecodeIs(m', SlotAddr(other));
  }

  // ---- the host's own entry points ---------------------------------------------------

  /** The descriptor `entry_sel` makes over the host's paragraph. */
  function EntryRaw(): Raw { NewRaw(Phys(ENTRY_SEG, 0), 0xFFFF, true, true) }

  /** A far jump to `h` reaches the host's own service of vector `n`, from any protected-mode state. */
  ghost predicate ReachesDefault(e: Env, m: Ram, h: Handler, n: Byte) {
    forall s: State {:trigger SetCs(e, m, s, h.sel)} :: Pe(s) ==>
      var t := Jump(SetCs(e, m, s, h.sel), h.off);
      EntryAt(Lin(e, t, t.cs, t.ip)) == ServeByDefault(n)
  }

  /** A far jump through the entry descriptor reaches the host's own service of exactly that vector. */
  lemma DefaultLands(e: Env, m: Ram, sel: Word, n: Byte)
    requires RawAt(m, DescAddr(e, sel)) == EntryRaw()
    ensures ReachesDefault(e, m, Handler(sel, OFF_PM_INT + n), n)
  {
    DecodeIs(m, DescAddr(e, sel));
    hide Decode, RawAt, DescAddr;
    assert Meaning(EntryRaw()).base == 0xE00 && Meaning(EntryRaw()).big;
  }

  /** Through a descriptor of base zero it reaches nothing of the host's. */
  lemma ZeroMisses(e: Env, m: Ram, sel: Word, n: Byte)
    requires Decode(m, DescAddr(e, sel)).base == 0
    ensures !ReachesDefault(e, m, Handler(sel, OFF_PM_INT + n), n)
  {
    hide Decode, DescAddr;
    var zero, none := Reg(0, 0), Segment(0, 0, 0);
    var s := State(zero, zero, zero, zero, zero, zero, zero, zero, none, none, none, none, none, none,
                   0, 1, 0xFFFF, 2, false, false);
    assert SetCs(e, m, s, sel).cs.base == 0;
  }

  /** Memory after 0204h has made the host's descriptor, with slots from `next` on free. */
  function EntryMade(m: Ram, next: nat): Ram { PutRaw(m, SlotAddr(Take(next, 1).0), EntryRaw()) }

  function DefaultHandler(next: nat, n: Byte): Handler { Handler(Take(next, 1).0, OFF_PM_INT + n) }

  /** Whatever the tables hold, and wherever the guest keeps a GDT. */
  ghost predicate AlwaysReaches(next: nat, gdtLoaded: bool, n: Byte) {
    forall e: Env, m: Ram {:trigger ReachesDefault(e, EntryMade(m, next), DefaultHandler(next, n), n)} ::
      e.ldtBase == LDT_BASE && e.gdtLoaded == gdtLoaded ==>
        ReachesDefault(e, EntryMade(m, next), DefaultHandler(next, n), n)
  }

  lemma EntryReaches(e: Env, m: Ram, next: nat, n: Byte)
    requires e.ldtBase == LDT_BASE && next > 0 && (next < LDT_COUNT || !e.gdtLoaded)
    ensures ReachesDefault(e, EntryMade(m, next), DefaultHandler(next, n), n)
  {
    hide PutRaw, RawAt, ReachesDefault;
    var sel := Take(next, 1).0;
    assert SelectsLocal(e, sel);
    PutRawReads(m, SlotAddr(sel), EntryRaw());
    SameTable(EntryMade(m, next), sel);
    DefaultLands(e, EntryMade(m, next), sel, n);
  }

  /** With the table full and a GDT loaded the null selector is looked up in the GDT. */
  lemma FullTableMisses(next: nat, n: Byte)
    requires next >= LDT_COUNT
    ensures !AlwaysReaches(next, true, n)
  {
    var e := Env(0, LDT_BASE, 0, 0, 0, 0, true, 0, false);
    var m := EntryMade(ZEROED, next);
    assert Take(next, 1).0 == 0 && DescAddr(e, 0) == 0;
    PutRawOnly(ZEROED, SlotAddr(0), EntryRaw());
    DecodeIs(m, 0);
    ZeroSlot(m);
    hide PutRaw, RawAt, Decode, ReachesDefault, OnlySlot;
    ZeroMisses(e, m, 0, n);
    assert !ReachesDefault(e, EntryMade(ZEROED, next), DefaultHandler(next, n), n);
  }

  lemma ZeroSlot(m: Ram)
    requires OnlySlot(ZEROED, m, SlotAddr(0))
    ensures Meaning(RawAt(m, 0)).base == 0
  {
    forall j: nat | j < 8 ensures At(m, 0, j) == 0 {
      assert U32(j - LDT_BASE) >= 8;
      assert Get8(m, j) == Get8(ZEROED, j);
    }
    hide At;
  }

  /**
   The address 0204h reports for a vector nobody has hooked, when it has to make its descriptor,
   is sure to reach the host's service of that vector exactly when a slot is left or no GDT is loaded.
   */
  lemma DefaultReachedExactly(next: nat, gdtLoaded: bool, n: Byte)
    requires next > 0
    ensures AlwaysReaches(next, gdtLoaded, n) <==> next < LDT_COUNT || !gdtLoaded
  {
    hide ReachesDefault, EntryMade, DefaultHandler;
    if next < LDT_COUNT || !gdtLoaded {
      forall e: Env, m: Ram | e.ldtBase == LDT_BASE && e.gdtLoaded == gdtLoaded
        ensures ReachesDefault(e, EntryMade(m, next), DefaultHandler(next, n), n)
      {
        EntryReaches(e, m, next, n);
      }
    } else {
      FullTableMisses(next, n);
    }
  }

  /** Making it leaves the null descriptor alone exactly when a slot is left, or there is nothing to change. */
  lemma NullSlotKeptExactly(m: Ram, next: nat)
    requires next > 0
    ensures RawAt(EntryMade(m, next), SlotAddr(0)) == RawAt(m, SlotAddr(0))
            <==> next < LDT_COUNT || RawAt(m, SlotAddr(0)) == EntryRaw()
  {
    hide PutRaw, RawAt, SlotAddr, OnlySlot;
    var sel := Take(next, 1).0;
    PutRawReads(m, SlotAddr(sel), EntryRaw());
    PutRawOnly(m, SlotAddr(sel), EntryRaw());
    if next < LDT_COUNT { OtherSlots(m, EntryMade(m, next), sel, 0); }
  }

  // ---- the host's side, in place -----------------------------------------------------

  class Ldt {
    const mem: Memory
    var nextSel: nat
    var entrySel: Word

    ghost predicate Valid()
      reads this, mem, mem.repr
    {
      mem.Valid() && this !in mem.repr && 1 <= nextSel <= LDT_COUNT
    }

    /** No selector is out, and slot 0 is the null descriptor. */
    constructor (memory: Memory)
      requires memory.Valid()
      modifies memory.repr
      ensures Valid() && mem == memory && fresh(mem.repr - old(memory.repr))
      ensures nextSel == 1 && entrySel == 0
      ensures mem.flat == Fill(old(memory.flat), LDT_BASE, seq(8, _ => 0))
    {
      mem := memory;
      nextSel := 1;
      entrySel := 0;
      new;
      hide Memory.Valid;
      mem.WriteBlock(LDT_BASE, seq(8, _ => 0));
    }

    /** `alloc_sel`. */
    method AllocSel(count: nat) returns (sel: Word)
      requires Valid()
      modifies this`nextSel
      ensures Valid() && (sel, nextSel) == Take(old(nextSel), count)
    {
      hide Memory.Valid;
      if nextSel + count > LDT_COUNT { return 0; }
      sel := U16(nextSel * 8 + 7);
      nextSel := nextSel + count;
    }

    method WriteRaw(a: Dword, r: Raw)
      requires Valid() && a <= M32 - 8
      modifies mem.repr
      ensures Valid() && fresh(mem.repr - old(mem.repr)) && mem.flat == PutRaw(old(mem.flat), a, r)
    {
      hide Memory.Valid, Store, Put8;
      mem.Write16(a, r.limitLow);
      mem.Write16(a + 2, r.baseLow);
      mem.Write8(a + 4, r.baseMid);
      mem.Write8(a + 5, r.ar);
      mem.Write8(a + 6, r.hi);
      mem.Write8(a + 7, r.baseHigh);
    }

    /** `set_desc`. */
    method SetDescriptor(sel: Word, base: Dword, limit: Dword, code: bool, big: bool)
      requires Valid()
      modifies mem.repr
      ensures Valid() && fresh(mem.repr - old(mem.repr))
      ensures mem.flat == SetDesc(old(mem.flat), sel, base, limit, code, big)
    {
      hide Memory.Valid, PutRaw;
      var lim, g := limit, 0;
      if lim > 0xF_FFFF { lim, g := lim / 0x1000, 0x80; }
      HighByte(limit, big);
      WriteRaw(SlotAddr(sel), Raw(lim % M16, base % M16, base / M16 % M8, if code then 0xFB else 0xF3,
                                  g + (if big then 0x40 else 0) + lim / M16, base / M24));
    }

    /** INT 31h AX=0000h: `cx` descriptors, or one. A zero selector is failure 8011h. */
    method AllocateDescriptors(cx: Word) returns (sel: Word)
      requires Valid()
      modifies this`nextSel, mem.repr
      ensures Valid() && fresh(mem.repr - old(mem.repr))
      ensures var n := if cx == 0 then 1 else cx;
              && (sel, nextSel) == Take(old(nextSel), n)
              && mem.flat == if sel == 0 then old(mem.flat) else Cleared(old(mem.flat), sel, n)
    {
      hide Memory.Valid, SetDesc;
      var n: nat := if cx == 0 then 1 else cx;
      sel := AllocSel(n);
      if sel == 0 { return; }
      ghost var next := nextSel;
      for i := 0 to n
        invariant nextSel == next
        invariant Valid() && fresh(mem.repr - old(mem.repr))
        invariant mem.flat == Cleared(old(mem.flat), sel, i)
      {
        SetDescriptor(U16(sel + 8 * i), 0, 0, false, false);
      }
    }

    /** AX=0006h. */
    method GetBase(sel: Word) returns (base: Dword)
      requires Valid()
      ensures base == Decode(mem.flat, SlotAddr(sel)).base
    {
      hide Memory.Valid, Load;
      var a: int := SlotAddr(sel);
      base := mem.Read16(a + 2) + mem.Read8(a + 4) * M16 + mem.Read8(a + 7) * M24;
    }

    /** AX=0007h. */
    method SetBase(sel: Word, base: Dword)
      requires Valid()
      modifies mem.repr
      ensures Valid() && fresh(mem.repr - old(mem.repr)) && mem.flat == WithBase(old(mem.flat), sel, base)
    {
      hide Memory.Valid, Store, Put8;
      var a: int := SlotAddr(sel);
      mem.Write16(a + 2, base % M16);
      mem.Write8(a + 4, base / M16 % M8);
      mem.Write8(a + 7, base / M24);
    }

    /** AX=0008h. */
    method SetLimit(sel: Word, limit: Dword)
      requires Valid()
      modifies mem.repr
      ensures Valid() && fresh(mem.repr - old(mem.repr)) && mem.flat == WithLimit(old(mem.flat), sel, limit)
    {
      hide Memory.Valid, Store, Put8, Get8;
      var a: int := SlotAddr(sel);
      var g := mem.Read8(a + 6) / 0x40 * 0x40;
      var lim: int := limit;
      if lim > 0xF_FFFF {
        lim := lim / 0x1000;
        if g < 0x80 { g := g + 0x80; }
      }
      mem.Write16(a, lim % M16);
      mem.Write8(a + 6, g + lim / M16);
    }

    /** AX=0009h. */
    method SetRights(sel: Word, rights: Word)
      requires Valid()
      modifies mem.repr
      ensures Valid() && fresh(mem.repr - old(mem.repr)) && mem.flat == WithRights(old(mem.flat), sel, rights)
    {
      hide Memory.Valid, Put8, Get8;
      var a: int := SlotAddr(sel);
      mem.Write8(a + 5, rights % M8);
      mem.Write8(a + 6, mem.Read8(a + 6) % 0x10 + rights / M8 / 0x10 * 0x10);
    }

    /** AX=000Ah. A zero selector is failure 8011h. */
    method CreateAlias(from: Word) returns (sel: Word)
      requires Valid()
      modifies this`nextSel, mem.repr
      ensures Valid() && fresh(mem.repr - old(mem.repr))
      ensures (sel, nextSel) == Take(old(nextSel), 1)
      ensures mem.flat == if sel == 0 then old(mem.flat) else Alias(old(mem.flat), from, sel)
    {
      hide Memory.Valid, Put8, Get8;
      sel := AllocSel(1);
      if sel == 0 { return; }
      var a: int, b: int := SlotAddr(from), SlotAddr(sel);
      ghost var next := nextSel;
      for i := 0 to 8
        invariant Valid() && fresh(mem.repr - old(mem.repr)) && nextSel == next
        invariant mem.flat == CopyUp(old(mem.flat), a, b, i)
      {
        mem.Write8(b + i, mem.Read8(a + i));
      }
      mem.Write8(b + 5, NotCode(mem.Read8(b + 5)));
    }

    /** `entry_sel`: made on first use. */
    method EntrySelector() returns (sel: Word)
      requires Valid()
      modifies this`nextSel, this`entrySel, mem.repr
      ensures Valid() && fresh(mem.repr - old(mem.repr)) && sel == entrySel
      ensures old(entrySel) != 0 ==> sel == old(entrySel) && nextSel == old(nextSel) && mem.flat == old(mem.flat)
      ensures old(entrySel) == 0 ==>
                && (sel, nextSel) == Take(old(nextSel), 1)
                && mem.flat == PutRaw(old(mem.flat), SlotAddr(sel), EntryRaw())
    {
      hide Memory.Valid, PutRaw;
      if entrySel == 0 {
        entrySel := AllocSel(1);
        SetDescriptor(entrySel, Phys(ENTRY_SEG, 0), 0xFFFF, true, true);
      }
      sel := entrySel;
    }
  }
}
