/** What pushing and popping do, whatever the width of the stack: frames come back as they went. */
module Stack {
  import opened Widths
  import opened FlatMemory
  import opened Bits
  import opened Machine

  lemma SpSetGet(s: State, v: int)
    ensures SpGet(SpSet(s, v)) == if WideStack(s) then U32(v) else U16(v)
    ensures WideStack(SpSet(s, v)) == WideStack(s)
    ensures SpSet(s, SpGet(s)) == s
  {
    GdSd(U32(v), s.sp);
  }

  /** Moving the stack pointer moves nothing else. */
  lemma OnlySp(s: State, v: int)
    ensures SpSet(s, v) == s.(sp := SpSet(s, v).sp)
  {
  }

  lemma SpSetTwice(s: State, v: int, w: int)
    ensures SpSet(SpSet(s, v), w) == SpSet(s, w)
  {
  }

  /** Stack pointers that are equal modulo the stack's own width are the same place. */
  lemma SpWraps(s: State, v: int, w: int)
    requires v % (if WideStack(s) then M32 else M16) == w % (if WideStack(s) then M32 else M16)
    ensures SpSet(s, v) == SpSet(s, w)
  {
  }

  lemma DropDrop(s: State, a: int, b: int)
    ensures Drop(Drop(s, a), b) == Drop(s, a + b)
    ensures Drop(s, 0) == s
  {
    var x := SpGet(s);
    SpSetGet(s, x + a);
    SpSetTwice(s, x + a, SpGet(Drop(s, a)) + b);
    SpSetGet(s, 0);
    var w := if WideStack(s) then M32 else M16;
    ModAdd(x + a, b, w);
    SpWraps(s, SpGet(Drop(s, a)) + b, x + (a + b));
  }

  /**
   Where an offset in a segment is. In protected mode, with A20 on, or through a base that is not the
   selector's paragraph, it is that far from the base; otherwise it is the real-mode address, which folds.
   */
  lemma AddressIs(e: Env, s: State, g: Segment, off: Dword)
    ensures Pe(s) || e.a20 || g.base != 16 * g.sel ==> Lin(e, s, g, off) == (g.base + off) % 0x1_0000_0000
    ensures !Pe(s) && !e.a20 && g.base == 16 * g.sel && off < 0x1_0000 ==> Lin(e, s, g, off) == Phys(g.sel, off)
  {
  }

  /** A selector names entry `sel / 8` of the local table if its bit 2 is set or there is no other. */
  lemma TableIs(e: Env, sel: Word)
    ensures var local := !e.gdtLoaded || sel % 8 >= 4;
            DescAddr(e, sel) == ((if local then e.ldtBase else e.gdtBase) + 8 * (sel / 8)) % 0x1_0000_0000
  {
    assert sel / 4 % 2 == 1 <==> sel % 8 >= 4;
  }

  /** Two stack slots whose pointers are at least a slot apart share no byte, on any kind of stack. */
  lemma SlotsApart(e: Env, s: State, x: int, y: int, n: nat)
    requires n == 2 || n == 4
    requires var w := if WideStack(s) then M32 else M16; (x - y) % w >= n && (y - x) % w >= n
    ensures Apart(StackAddr(e, SpSet(s, x)), n, StackAddr(e, SpSet(s, y)), n)
  {
    SpSetGet(s, x);
    SpSetGet(s, y);
    if WideStack(s) {
      CircleApart(s.ss.base, x, y, n);
    } else {
      NarrowGap(x, y, n);
      NarrowApart(s.ss.base, U16(x), U16(y), n);
    }
  }

  lemma NarrowGap(x: int, y: int, n: nat)
    requires (x - y) % M16 >= n && (y - x) % M16 >= n
    ensures n <= U16(x) - U16(y) <= M16 - n || n <= U16(y) - U16(x) <= M16 - n
  {
    var p: int, q: int := x / M16, y / M16;
    assert x == M16 * p + U16(x) && y == M16 * q + U16(y);
    var d: int := x % M16 - y % M16;
    ModShift(d, p - q, M16);
    ModShift(-d, q - p, M16);
  }

  lemma CircleApart(base: int, x: int, y: int, n: nat)
    requires (x - y) % M32 >= n && (y - x) % M32 >= n
    ensures Apart(U32(base + U32(x)), n, U32(base + U32(y)), n)
  {
    Around(base, x, y);
    Around(base, y, x);
  }

  lemma Around(base: int, x: int, y: int)
    ensures U32(U32(base + U32(y)) - U32(base + U32(x))) == (y - x) % M32
  {
    ModAdd(y, base, M32);
    ModAdd(x, base, M32);
    var p: int, q: int := (base + y) / M32, (base + x) / M32;
    assert base + y == M32 * p + U32(base + y) && base + x == M32 * q + U32(base + x);
    ModShift(y - x, q - p, M32);
  }

  lemma NarrowApart(base: Dword, px: Word, py: Word, n: nat)
    requires n <= px - py <= M16 - n || n <= py - px <= M16 - n
    ensures Apart(U32(base + px), n, U32(base + py), n)
    ensures Apart(U32(base + px) % 0x10_0000, n, U32(base + py) % 0x10_0000, n)
  {
    var a: int, b: int := base + px, base + py;
    Folded(a, b, M32, n);
    Folded(a, b, 0x10_0000, n);
    FoldFold(a);
    FoldFold(b);
  }

  lemma FoldFold(a: int)
    ensures U32(a) % 0x10_0000 == a % 0x10_0000
  {
    var q := a / M32;
    assert a == M32 * q + U32(a);
    ModShift(a, -q * 0x1000, 0x10_0000);
  }

  /** Folding at `w` keeps two places apart that are so far apart, both ways around. */
  lemma Folded(a: int, b: int, w: int, n: nat)
    requires w == M32 || w == 0x10_0000
    requires n <= a - b <= M16 - n || n <= b - a <= M16 - n
    ensures Apart(a % w, n, b % w, n)
  {
    var p, q := a / w, b / w;
    assert a == w * p + a % w && b == w * q + b % w;
    var k := p - q;
    assert w * k == a - b - (a % w - b % w) by { assert w * k == w * p - w * q; }
    assert -1 <= k <= 1 by {
      if k >= 2 { MulMono(2, k, w); } else if k <= -2 { MulMono(k, -2, w); }
    }
    var d: int := a % w - b % w;
    assert d == a - b || d == a - b - w || d == a - b + w;
    assert n <= d <= M32 - n || n <= -d <= M32 - n;
  }

  function PushAll(e: Env, c: Core, n: nat, vs: seq<int>): Core {
    if vs == [] then c else Push(e, PushAll(e, c, n, vs[..|vs| - 1]), n, vs[|vs| - 1])
  }

  /** The frame `vs`, last pushed first, is what the next pops yield. */
  ghost predicate FrameIs(e: Env, c: Core, n: nat, vs: seq<int>) {
    forall k :: 0 <= k < |vs| ==> Peek(e, c, n, k) == vs[|vs| - 1 - k] % Pow256(n)
  }

  /** What is pushed is what is popped, and popping it all gives the old registers back. */
  lemma {:induction false} PushedFrame(e: Env, c: Core, n: nat, vs: seq<int>)
    requires n == 2 || n == 4
    requires |vs| <= 8
    ensures var d := PushAll(e, c, n, vs);
            d.s == Drop(c.s, 0 - n * |vs|) && Drop(d.s, n * |vs|) == c.s && FrameIs(e, d, n, vs)
    decreases |vs|
  {
    hide Load, Store, Lin, SpSet, SpGet;
    DropDrop(c.s, 0 - n * |vs|, n * |vs|);
    if vs != [] {
      var front, v := vs[..|vs| - 1], vs[|vs| - 1];
      PushedFrame(e, c, n, front);
      assert n * |vs| == n * |front| + n;
      DropDrop(c.s, 0 - n * |front|, 0 - n);
      FrameGrows(e, PushAll(e, c, n, front), n, front, v);
      assert front + [v] == vs;
    }
  }

  lemma FrameGrows(e: Env, c: Core, n: nat, vs: seq<int>, v: int)
    requires n == 2 || n == 4
    requires |vs| < 8 && FrameIs(e, c, n, vs)
    ensures FrameIs(e, Push(e, c, n, v), n, vs + [v])
  {
    var d := Push(e, c, n, v);
    forall k | 0 <= k < |vs| + 1 ensures Peek(e, d, n, k) == (vs + [v])[|vs| - k] % Pow256(n) {
      if k == 0 {
        DropDrop(d.s, 0, 0);
        LoadAfterStore(c.m, StackAddr(e, d.s), n, v);
      } else {
        SlotKept(e, c, n, v, k);
        assert Peek(e, c, n, k - 1) == vs[|vs| - 1 - (k - 1)] % Pow256(n);
      }
    }
  }

  lemma SlotKept(e: Env, c: Core, n: nat, v: int, k: nat)
    requires n == 2 || n == 4
    requires 1 <= k <= 8
    ensures Peek(e, Push(e, c, n, v), n, k) == Peek(e, c, n, k - 1)
  {
    hide Load, Store, Lin, SpSet, Gd;
    var d := Push(e, c, n, v);
    DropDrop(c.s, 0 - n, n * k);
    var up: int := if n == 2 then 2 * k else 4 * k;
    assert n * k == up && n * (k - 1) == up - n;
    var x: int, y: int := SpGet(c.s) - n, SpGet(c.s) + (up - n);
    FarEnough(up, n, if WideStack(c.s) then M32 else M16);
    assert y - x == up && x - y == -up;
    SlotsApart(e, c.s, x, y, n);
    LoadAfterStoreApart(c.m, StackAddr(e, d.s), n, v, StackAddr(e, SpSet(c.s, y)), n);
  }

  lemma FarEnough(up: int, n: nat, w: int)
    requires w == M32 || w == M16
    requires n <= 4 && n <= up <= 32
    ensures up % w >= n && (-up) % w >= n
  {
    ModShift(-up, 1, w);
  }

  /** Pushing moves the stack pointer and no other register, and only its low half on a narrow stack. */
  lemma {:induction false} PushesMoveSp(e: Env, c: Core, n: nat, vs: seq<int>)
    ensures var s := PushAll(e, c, n, vs).s;
            s == c.s.(sp := s.sp) && (!WideStack(c.s) ==> s.sp.hi == c.s.sp.hi)
    decreases |vs|
  {
    hide Load, Store, Lin, Gd;
    if vs != [] { PushesMoveSp(e, c, n, vs[..|vs| - 1]); }
  }

  /** `t` runs on the same stack, at the same depth, as `s`. */
  ghost predicate SameStack(s: State, t: State) {
    && Pe(t) == Pe(s) && t.ssD == s.ssD
    && t.ss.sel == s.ss.sel && t.ss.base == s.ss.base && SpGet(t) == SpGet(s)
  }

  lemma SamePlaces(e: Env, s: State, t: State, x: int)
    requires SameStack(s, t)
    ensures SameStack(Drop(s, x), Drop(t, x)) && StackAddr(e, Drop(t, x)) == StackAddr(e, Drop(s, x))
  {
    SpSetGet(s, SpGet(s) + x);
    SpSetGet(t, SpGet(t) + x);
  }
}
