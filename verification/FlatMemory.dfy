/**
 The specification of guest memory: one flat, total map from 32-bit addresses to bytes.
 Addresses wrap modulo 2^32, as every `uint32_t` address expression of the source does.
 */
module FlatMemory {
  import opened Widths
  import opened Bits

  type Ram = m: seq<Byte> | |m| == M32 witness seq(M32, _ => 0)

  /** What guest memory holds before anything is written. */
  const ZEROED: Ram := seq(M32, _ => 0)

  function Get8(m: Ram, a: int): Byte { m[U32(a)] }

  function Put8(m: Ram, a: int, v: Byte): Ram { m[U32(a) := v] }

  /** `n` bytes read and written little-endian, one at a time. */
  function Load(m: Ram, a: int, n: nat): nat
    decreases n
  {
    if n == 0 then 0 else Get8(m, a) + M8 * Load(m, a + 1, n - 1)
  }

  function Store(m: Ram, a: int, n: nat, v: int): Ram
    decreases n
  {
    if n == 0 then m else Store(Put8(m, a, v % M8), a + 1, n - 1, v / M8)
  }

  function Pow256(n: nat): (p: nat)
    ensures p > 0
  {
    if n == 0 then 1 else M8 * Pow256(n - 1)
  }

  /** The circular intervals of `n` bytes at `a` and `k` bytes at `b` have no byte in common. */
  predicate Apart(a: int, n: nat, b: int, k: nat) {
    U32(b - a) >= n && U32(a - b) >= k
  }

  /** `m` and `m'` hold the same `n` bytes at `a`. */
  ghost predicate SameBytes(m: Ram, m': Ram, a: int, n: nat) {
    forall b: int {:trigger Get8(m, b)} {:trigger Get8(m', b)} :: U32(b - a) < n ==> Get8(m', b) == Get8(m, b)
  }

  /** The real-mode address of `seg:off`, which wraps at one megabyte. */
  function Phys(seg: Word, off: Word): Dword { (seg * 16 + off) % 0x10_0000 }

  lemma {:induction false} LoadBound(m: Ram, a: int, n: nat)
    ensures Load(m, a, n) < Pow256(n)
    decreases n
  {
    if n > 0 { LoadBound(m, a + 1, n - 1); }
  }

  /** A store leaves every byte outside its own interval alone. */
  lemma {:induction false} StoreElsewhere(m: Ram, a: int, n: nat, v: int, b: int)
    requires U32(b - a) >= n
    ensures Get8(Store(m, a, n, v), b) == Get8(m, b)
    decreases n
  {
    if n > 0 {
      StepAway(a, b);
      StoreElsewhere(Put8(m, a, v % M8), a + 1, n - 1, v / M8, b);
    }
  }

  /** What was stored is what is loaded, as far as it fits in `n` bytes. */
  lemma {:induction false} LoadAfterStore(m: Ram, a: int, n: nat, v: int)
    requires n <= 8
    ensures Load(Store(m, a, n, v), a, n) == v % Pow256(n)
    decreases n
  {
    if n > 0 {
      var m1 := Put8(m, a, v % M8);
      StoreElsewhere(m1, a + 1, n - 1, v / M8, a);
      LoadAfterStore(m1, a + 1, n - 1, v / M8);
      ModSplit(v, Pow256(n - 1));
    }
  }

  lemma ModSplit(v: int, p: nat)
    requires p > 0
    ensures v % (M8 * p) == v % M8 + M8 * (v / M8 % p)
  {
    var q, r := v / M8 / p, v / M8 % p;
    assert v == M8 * (p * q + r) + v % M8;
    assert M8 * (p * q + r) == (M8 * p) * q + M8 * r;
    var t := M8 * r + v % M8;
    assert 0 <= t < M8 * p by { assert M8 * r <= M8 * (p - 1); }
    assert v == (M8 * p) * q + t;
    DivIs(v, M8 * p, q, t);
  }

  lemma {:induction false} LoadSame(m: Ram, m': Ram, a: int, n: nat)
    requires SameBytes(m, m', a, n)
    requires n <= M32
    ensures Load(m', a, n) == Load(m, a, n)
    decreases n
  {
    if n > 0 {
      LoadSame(m, m', a + 1, n - 1);
    }
  }

  /** What is in the second of two intervals apart is outside the first. */
  lemma OutsideStays(a: int, n: nat, b: int, k: nat, x: int)
    requires Apart(a, n, b, k) && U32(x - b) < k
    ensures U32(x - a) >= n
  {
    var d: int, g: int := U32(x - b), U32(b - a);
    ModAdd(b - a, d, M32);
    ModAdd(x - b, b - a, M32);
    assert (g + d) % M32 == U32(x - a);
    assert U32(a - b) == if g == 0 then 0 else M32 - g by {
      ModShift(-g, 1, M32);
      ModAdd(b - a, 0, M32);
      Opposite(b - a);
    }
  }

  lemma Opposite(x: int)
    ensures U32(-x) == if U32(x) == 0 then 0 else M32 - U32(x)
  {
    assert x == M32 * (x / M32) + U32(x);
    ModShift(-(U32(x) as int), -(x / M32), M32);
  }

  lemma ApartFlips(a: int, n: nat, b: int, k: nat)
    requires Apart(a, n, b, k)
    ensures Apart(b, k, a, n)
  {
  }

  lemma Sizes()
    ensures Pow256(1) == M8 && Pow256(2) == M16 && Pow256(3) == M24 && Pow256(4) == M32
  {
    assert Pow256(1) == M8;
    assert Pow256(3) == M24;
  }

  lemma LoadAfterStoreApart(m: Ram, a: int, n: nat, v: int, b: int, k: nat)
    requires Apart(a, n, b, k) && k <= M32
    ensures Load(Store(m, a, n, v), b, k) == Load(m, b, k)
  {
    forall x: int | U32(x - b) < k ensures Get8(Store(m, a, n, v), x) == Get8(m, x) {
      StoreElsewhere(m, a, n, v, x);
    }
    LoadSame(m, Store(m, a, n, v), b, k);
  }

  /** One more low byte in front of a number split at `p`. */
  lemma Shifted(b: int, lo: int, p: int, hi: int)
    ensures b + M8 * (lo + p * hi) == b + M8 * lo + M8 * p * hi
  {
    assert M8 * (p * hi) == M8 * p * hi;
  }

  lemma LoadStep(m: Ram, a: int, n: nat)
    requires n > 0
    ensures Load(m, a, n) == Get8(m, a) + M8 * Load(m, a + 1, n - 1) && Pow256(n) == M8 * Pow256(n - 1)
  {
  }

  /** A wide load is the two half-width loads, wherever it starts. */
  lemma {:induction false} LoadSplit(m: Ram, a: int, n: nat, k: nat)
    ensures Load(m, a, n + k) == Load(m, a, n) + Pow256(n) * Load(m, a + n, k)
    decreases n
  {
    if n > 0 {
      LoadSplit(m, a + 1, n - 1, k);
      LoadStep(m, a, n);
      LoadStep(m, a, n + k);
      hide Load, Pow256, Get8;
      assert a + 1 + (n - 1) == a + n && n + k - 1 == n - 1 + k;
      Shifted(Get8(m, a), Load(m, a + 1, n - 1), Pow256(n - 1), Load(m, a + n, k));
    }
  }

  /** A wide store is the two half-width stores. */
  lemma {:induction false} StoreSplit(m: Ram, a: int, n: nat, k: nat, v: int)
    ensures Store(m, a, n + k, v) == Store(Store(m, a, n, v), a + n, k, v / Pow256(n))
    decreases n
  {
    if n > 0 {
      StoreSplit(Put8(m, a, v % M8), a + 1, n - 1, k, v / M8);
      DivTwice(v, M8, Pow256(n - 1));
    }
  }

  lemma StoreNext(m: Ram, a: int, n: nat, v: int)
    ensures Store(m, a, n + 1, v) == Put8(Store(m, a, n, v), a + n, v / Pow256(n) % M8)
    ensures Pow256(1) == M8 && Pow256(2) == M16 && Pow256(3) == M24 && Pow256(4) == M32
  {
    StoreSplit(m, a, n, 1, v);
    var m1, v1 := Store(m, a, n, v), v / Pow256(n);
    assert Store(m1, a + n, 1, v1) == Store(Put8(m1, a + n, v1 % M8), a + n + 1, 0, v1 / M8);
    assert Pow256(0) == 1;
  }

  /** Words and double words, with the types they have. */
  function Word16(m: Ram, a: int): Word { LoadBytes(m, a); Load(m, a, 2) }

  function Word32(m: Ram, a: int): Dword { LoadBytes(m, a); Load(m, a, 4) }

  /** Bytes copied upwards one at a time. */
  function CopyUp(m: Ram, from: int, to: int, n: nat): Ram
    decreases n
  {
    if n == 0 then m else var m1 := CopyUp(m, from, to, n - 1); Put8(m1, to + (n - 1), Get8(m1, from + (n - 1)))
  }

  /** The bytes `src` copied to `a` upwards, one by one. */
  function Fill(m: Ram, a: int, src: seq<Byte>): Ram
    decreases |src|
  {
    if src == [] then m else Fill(Put8(m, a, src[0]), a + 1, src[1..])
  }

  /** A block copy no longer than the address space puts byte `i` of the source at `a + i`. */
  lemma {:induction false} FillIs(m: Ram, a: int, src: seq<Byte>, b: int)
    requires |src| <= M32
    ensures Get8(Fill(m, a, src), b) == if U32(b - a) < |src| then src[U32(b - a)] else Get8(m, b)
    decreases |src|
  {
    if src != [] {
      FillIs(Put8(m, a, src[0]), a + 1, src[1..], b);
      StepAway(a, b);
    }
  }

  /** The distance from `a + 1` to `b` around the address space, from the one from `a`. */
  lemma StepAway(a: int, b: int)
    ensures U32(b - (a + 1)) == if U32(b - a) == 0 then M32 - 1 else U32(b - a) - 1
    ensures U32(b - a) == 0 <==> U32(b) == U32(a)
  {
  }

  /** Copying two pieces one after the other is copying them together. */
  lemma {:induction false} FillAppend(m: Ram, a: int, s: seq<Byte>, t: seq<Byte>)
    ensures Fill(m, a, s + t) == Fill(Fill(m, a, s), a + |s|, t)
    decreases |s|
  {
    if s == [] {
      assert s + t == t;
    } else {
      assert (s + t)[1..] == s[1..] + t;
      FillAppend(Put8(m, a, s[0]), a + 1, s[1..], t);
    }
  }

  /** Addresses that are equal modulo 2^32 are the same place. */
  lemma {:induction false} FillWraps(m: Ram, a: int, s: seq<Byte>)
    ensures Fill(m, a, s) == Fill(m, U32(a), s)
    decreases |s|
  {
    if s != [] {
      FillWraps(Put8(m, a, s[0]), a + 1, s[1..]);
      FillWraps(Put8(m, a, s[0]), U32(a) + 1, s[1..]);
      assert U32(U32(a) + 1) == U32(a + 1);
    }
  }

  lemma FillInTwo(m: Ram, a: int, s: seq<Byte>, n: nat)
    requires n <= |s|
    ensures Fill(m, a, s) == Fill(Fill(m, a, s[..n]), U32(a + n), s[n..])
  {
    assert s == s[..n] + s[n..];
    FillAppend(m, a, s[..n], s[n..]);
    FillWraps(Fill(m, a, s[..n]), a + n, s[n..]);
  }

  /** The bytes of a two- and of a four-byte access, spelled out. */
  lemma LoadBytes(m: Ram, a: int)
    ensures Load(m, a, 2) == Get8(m, a) + M8 * Get8(m, a + 1)
    ensures Load(m, a, 4) == Get8(m, a) + M8 * Get8(m, a + 1) + M16 * Get8(m, a + 2) + M24 * Get8(m, a + 3)
  {
    assert Load(m, a + 1, 1) == Get8(m, a + 1) + M8 * Load(m, a + 2, 0);
    assert Load(m, a + 3, 1) == Get8(m, a + 3) + M8 * Load(m, a + 4, 0);
    assert Load(m, a + 2, 2) == Get8(m, a + 2) + M8 * Load(m, a + 3, 1);
    assert Load(m, a + 1, 3) == Get8(m, a + 1) + M8 * Load(m, a + 2, 2);
    assert Load(m, a, 4) == Get8(m, a) + M8 * Load(m, a + 1, 3);
  }

  lemma StoreBytes(m: Ram, a: int, v: int)
    ensures Store(m, a, 2, v) == Put8(Put8(m, a, v % M8), a + 1, v / M8 % M8)
    ensures Store(m, a, 4, v) ==
            Put8(Put8(Put8(Put8(m, a, v % M8), a + 1, v / M8 % M8), a + 2, v / M16 % M8), a + 3, v / M24 % M8)
  {
    var v1, v2, v3 := v / M8, v / M8 / M8, v / M8 / M8 / M8;
    var m1 := Put8(m, a, v % M8);
    var m2 := Put8(m1, a + 1, v1 % M8);
    var m3 := Put8(m2, a + 2, v2 % M8);
    assert v2 == v / M16 && v3 == v / M24;
    assert Store(m1, a + 1, 1, v1) == Store(m2, a + 2, 0, v2);
    assert Store(m3, a + 3, 1, v3) == Store(Put8(m3, a + 3, v3 % M8), a + 4, 0, v3 / M8);
    assert Store(m2, a + 2, 2, v2) == Store(m3, a + 3, 1, v3);
    assert Store(m1, a + 1, 3, v1) == Store(m2, a + 2, 2, v2);
  }

  /** A little-endian store is the copy of its bytes. */
  lemma FillBytes(m: Ram, a: int, v: int)
    ensures Fill(m, a, [v % M8]) == Put8(m, a, v % M8)
    ensures Fill(m, a, [v % M8, v / M8 % M8]) == Store(m, a, 2, v)
    ensures Fill(m, a, [v % M8, v / M8 % M8, v / M16 % M8, v / M24 % M8]) == Store(m, a, 4, v)
  {
    var b0, b1, b2, b3 := v % M8, v / M8 % M8, v / M16 % M8, v / M24 % M8;
    StoreBytes(m, a, v);
    FillOne(m, a, [], b0);
    FillOne(m, a, [b0], b1);
    FillOne(m, a, [b0, b1], b2);
    FillOne(m, a, [b0, b1, b2], b3);
    assert [] + [b0] == [b0] && [b0] + [b1] == [b0, b1];
    assert [b0, b1] + [b2] == [b0, b1, b2] && [b0, b1, b2] + [b3] == [b0, b1, b2, b3];
  }

  lemma FillOne(m: Ram, a: int, done: seq<Byte>, v: Byte)
    ensures Fill(m, a, done + [v]) == Put8(Fill(m, a, done), a + |done|, v)
  {
    FillAppend(m, a, done, [v]);
    assert Fill(Put8(Fill(m, a, done), a + |done|, v), a + |done| + 1, []) == Put8(Fill(m, a, done), a + |done|, v);
    assert [v][1..] == [];
  }

  lemma {:induction false} LoadWraps(m: Ram, a: int, n: nat)
    ensures Load(m, a, n) == Load(m, U32(a), n)
    decreases n
  {
    if n > 0 {
      LoadWraps(m, a + 1, n - 1);
      LoadWraps(m, U32(a) + 1, n - 1);
      ModAdd(a, 1, M32);
      ModAdd(a, 0, M32);
    }
  }

  lemma {:induction false} StoreWraps(m: Ram, a: int, n: nat, v: int)
    ensures Store(m, a, n, v) == Store(m, U32(a), n, v)
    decreases n
  {
    if n > 0 {
      StoreWraps(Put8(m, a, v % M8), a + 1, n - 1, v / M8);
      StoreWraps(Put8(m, a, v % M8), U32(a) + 1, n - 1, v / M8);
      ModAdd(a, 1, M32);
      ModAdd(a, 0, M32);
    }
  }

  lemma StoreTruncates(m: Ram, a: int, v: int)
    ensures Store(m, a, 2, v) == Store(m, a, 2, U16(v))
  {
    StoreBytes(m, a, v);
    StoreBytes(m, a, U16(v));
    assert v % M8 == U16(v) % M8 && v / M8 % M8 == U16(v) / M8 % M8 by {
      var q: int := v / M16;
      assert v == M16 * q + U16(v);
      ModShift(U16(v), M8 * q, M8);
      ModShift(U16(v) / M8, q, M8);
      assert v / M8 == U16(v) / M8 + q * M8;
    }
    hide Store;
  }
}
