/**
 The conventional-memory arena as a list of blocks in address order, and the chain of
 memory control blocks (MCBs) that publishes it. A block of N paragraphs costs N + 1: its
 MCB is the paragraph below the segment the guest is given.
 */
module Blocks {
  import opened Widths
  import opened FlatMemory

  const ARENA_MCB := 0x0090
  const HEAP_END := 0x9F00

  datatype Block = Block(seg: Word, paras: Word, owner: Word, used: bool)

  function End(b: Block): int { b.seg + 1 + b.paras }

  /** The blocks cover [lo, hi) in order, each starting where the one before ends. */
  ghost predicate Tiles(bs: seq<Block>, lo: int, hi: int) {
    && bs != [] && bs[0].seg == lo && End(bs[|bs| - 1]) == hi
    && forall i :: 0 < i < |bs| ==> bs[i].seg == End(bs[i - 1])
  }

  ghost predicate NoFreeNeighbours(bs: seq<Block>) {
    forall i :: 0 < i < |bs| ==> bs[i - 1].used || bs[i].used
  }

  /** The state every `mem_*` call leaves the arena in. */
  ghost predicate Normal(bs: seq<Block>) {
    Tiles(bs, ARENA_MCB, HEAP_END) && NoFreeNeighbours(bs)
  }

  ghost function Used(bs: seq<Block>): set<Block> { set b | b in bs && b.used }

  lemma {:induction false} InOrder(bs: seq<Block>, lo: int, hi: int, i: int, j: int)
    requires Tiles(bs, lo, hi) && 0 <= i < j < |bs|
    ensures End(bs[i]) <= bs[j].seg
    decreases j
  {
    if i < j - 1 { InOrder(bs, lo, hi, i, j - 1); }
  }

  lemma InRange(bs: seq<Block>, lo: int, hi: int, i: int)
    requires Tiles(bs, lo, hi) && 0 <= i < |bs|
    ensures lo <= bs[i].seg && End(bs[i]) <= hi
  {
    if i > 0 { InOrder(bs, lo, hi, 0, i); }
    if i < |bs| - 1 { InOrder(bs, lo, hi, i, |bs| - 1); }
  }

  /** Blocks are told apart by where they begin. */
  lemma SameSeg(bs: seq<Block>, lo: int, hi: int, i: int, j: int)
    requires Tiles(bs, lo, hi) && 0 <= i < |bs| && 0 <= j < |bs| && bs[i].seg == bs[j].seg
    ensures i == j
  {
    if i < j { InOrder(bs, lo, hi, i, j); }
    if j < i { InOrder(bs, lo, hi, j, i); }
  }

  /** Two allocations never share a paragraph. */
  lemma UsedDisjoint(bs: seq<Block>, b: Block, c: Block)
    requires Normal(bs) && b in Used(bs) && c in Used(bs) && b != c
    ensures End(b) <= c.seg || End(c) <= b.seg
  {
    var i :| 0 <= i < |bs| && bs[i] == b;
    var j :| 0 <= j < |bs| && bs[j] == c;
    if i < j { InOrder(bs, ARENA_MCB, HEAP_END, i, j); } else { InOrder(bs, ARENA_MCB, HEAP_END, j, i); }
  }

  function Paragraphs(bs: seq<Block>): int {
    if bs == [] then 0 else Paragraphs(bs[..|bs| - 1]) + 1 + bs[|bs| - 1].paras
  }

  /** However the arena is cut up, data and MCBs together come to its whole size. */
  lemma {:induction false} Conserved(bs: seq<Block>, lo: int, hi: int)
    requires Tiles(bs, lo, hi)
    ensures Paragraphs(bs) == hi - lo
    decreases |bs|
  {
    var front := bs[..|bs| - 1];
    if front != [] {
      Conserved(front, lo, bs[|bs| - 1].seg);
    }
  }

  // ---- the arena is a function of its used blocks ------------------------------------

  /** What the chain shows of a block: a free one has no owner. */
  datatype Entry = Entry(seg: int, size: int, owner: int)

  function Shown(b: Block): Entry { Entry(b.seg, b.paras, if b.used then b.owner else 0) }

  function View(bs: seq<Block>): seq<Entry> { seq(|bs|, i requires 0 <= i < |bs| => Shown(bs[i])) }

  /**
   Two lists that tile the same range without free neighbours and own the same blocks show
   the same chain. So a call's effect on the used blocks says everything about its effect.
   */
  lemma {:induction false} UsedDecides(bs: seq<Block>, cs: seq<Block>, lo: int, hi: int)
    requires Tiles(bs, lo, hi) && NoFreeNeighbours(bs)
    requires Tiles(cs, lo, hi) && NoFreeNeighbours(cs)
    requires Used(bs) == Used(cs)
    ensures View(bs) == View(cs)
    decreases |bs|
  {
    SameHead(bs, cs, lo, hi);
    if |bs| > 1 && |cs| > 1 {
      UsedOfTail(bs, lo, hi);
      UsedOfTail(cs, lo, hi);
      assert Used(bs[1..]) == Used(cs[1..]);
      UsedDecides(bs[1..], cs[1..], End(bs[0]), hi);
      assert View(bs) == [Shown(bs[0])] + View(bs[1..]);
      assert View(cs) == [Shown(cs[0])] + View(cs[1..]);
    } else if |bs| > 1 {
      InOrder(bs, lo, hi, 0, |bs| - 1);
    } else if |cs| > 1 {
      InOrder(cs, lo, hi, 0, |cs| - 1);
    }
  }

  lemma UsedOfTail(bs: seq<Block>, lo: int, hi: int)
    requires Tiles(bs, lo, hi) && |bs| > 1
    ensures Used(bs[1..]) == Used(bs) - {bs[0]}
  {
    forall b | b in bs[1..] ensures b != bs[0] {
      var i :| 1 <= i < |bs| && bs[i] == b;
      InOrder(bs, lo, hi, 0, i);
    }
    assert bs == [bs[0]] + bs[1..];
  }

  lemma SameHead(bs: seq<Block>, cs: seq<Block>, lo: int, hi: int)
    requires Tiles(bs, lo, hi) && NoFreeNeighbours(bs)
    requires Tiles(cs, lo, hi) && NoFreeNeighbours(cs)
    requires Used(bs) == Used(cs)
    ensures Shown(bs[0]) == Shown(cs[0]) && bs[0].used == cs[0].used
    ensures bs[0].used ==> bs[0] == cs[0]
  {
    if bs[0].used {
      HeadFound(bs, cs, lo, hi);
    } else if cs[0].used {
      HeadFound(cs, bs, lo, hi);
    } else {
      FreeHeadEnds(bs, cs, lo, hi);
      FreeHeadEnds(cs, bs, lo, hi);
    }
  }

  lemma HeadFound(bs: seq<Block>, cs: seq<Block>, lo: int, hi: int)
    requires Tiles(bs, lo, hi) && Tiles(cs, lo, hi) && Used(bs) == Used(cs) && bs[0].used
    ensures bs[0] == cs[0]
  {
    assert bs[0] in Used(cs);
    var j :| 0 <= j < |cs| && cs[j] == bs[0];
    SameSeg(cs, lo, hi, 0, j);
  }

  /** A free first block reaches no further than the first used one. */
  lemma FreeHeadEnds(bs: seq<Block>, cs: seq<Block>, lo: int, hi: int)
    requires Tiles(bs, lo, hi) && Tiles(cs, lo, hi) && NoFreeNeighbours(cs)
    requires Used(bs) == Used(cs) && !bs[0].used && !cs[0].used
    ensures End(bs[0]) <= End(cs[0])
  {
    if |cs| > 1 {
      assert cs[0].used || cs[1].used;
      assert cs[1] in Used(bs);
      var j :| 0 <= j < |bs| && bs[j] == cs[1];
      InOrder(bs, lo, hi, 0, j);
    } else {
      InRange(bs, lo, hi, 0);
    }
  }

  // ---- the published chain -----------------------------------------------------------

  const SIG_LINK := 0x4D // 'M'
  const SIG_LAST := 0x5A // 'Z'

  function McbBytes(b: Block, last: bool): (r: seq<Byte>)
    ensures |r| == 16
  {
    var owner := if b.used then b.owner else 0;
    [if last then SIG_LAST else SIG_LINK, owner % M8, owner / M8, b.paras % M8, b.paras / M8]
    + [0, 0, 0] + [0, 0, 0, 0, 0, 0, 0, 0]
  }

  lemma McbFields(b: Block, last: bool)
    ensures var r, owner := McbBytes(b, last), Shown(b).owner;
            && r[0] == (if last then SIG_LAST else SIG_LINK)
            && r[1] == owner % M8 && r[2] == owner / M8
            && r[3] == b.paras % M8 && r[4] == b.paras / M8
            && forall k :: 5 <= k < 16 ==> r[k] == 0
  {
  }

  /** `bs[k]`'s MCB is in memory, in the paragraph below the block. */
  ghost predicate McbAt(m: Ram, bs: seq<Block>, k: int)
    requires 0 <= k < |bs|
  {
    m[16 * bs[k].seg..16 * bs[k].seg + 16] == McbBytes(bs[k], k == |bs| - 1)
  }

  ghost predicate Published(m: Ram, bs: seq<Block>) {
    forall k :: 0 <= k < |bs| ==> McbAt(m, bs, k)
  }

  /** No byte outside the MCBs of `bs` differs. */
  ghost predicate OnlyMcbs(m: Ram, m': Ram, bs: seq<Block>) {
    forall x :: 0 <= x < M32 && (forall k :: 0 <= k < |bs| ==> x / 16 != bs[k].seg) ==> m'[x] == m[x]
  }

  /** A guest's walk: follow 'M' entries (4Dh) by their size until 'Z' (5Ah). None is a broken chain. */
  datatype Chain = Broken | Entries(list: seq<Entry>)

  function Walk(m: Ram, seg: int): Chain
    decreases M16 - seg
  {
    if !(0 <= seg < M16) then Broken
    else
      var sig := Get8(m, 16 * seg);
      var e := Entry(seg, Load(m, 16 * seg + 3, 2), Load(m, 16 * seg + 1, 2));
      if sig == 0x5A then Entries([e])
      else if sig == 0x4D then
        match Walk(m, seg + 1 + e.size)
        case Broken => Broken
        case Entries(rest) => Entries([e] + rest)
      else Broken
  }

  /** Walking the published chain reads back exactly the blocks. */
  lemma {:induction false} WalkReadsBack(m: Ram, bs: seq<Block>, lo: int, hi: int)
    requires Tiles(bs, lo, hi) && hi <= HEAP_END && Published(m, bs)
    ensures Walk(m, lo) == Entries(View(bs))
    decreases |bs|
  {
    hide Walk, Load, Get8, View, McbAt;
    InRange(bs, lo, hi, 0);
    ReadMcb(m, bs);
    if |bs| > 1 {
      var tail := bs[1..];
      PublishedTail(m, bs);
      WalkReadsBack(m, tail, End(bs[0]), hi);
      WalkStep(m, lo, Shown(bs[0]), View(tail));
      ViewSplits(bs);
    } else {
      WalkStops(m, lo, Shown(bs[0]));
      ViewOne(bs);
    }
  }

  lemma PublishedTail(m: Ram, bs: seq<Block>)
    requires bs != [] && Published(m, bs)
    ensures Published(m, bs[1..])
  {
    forall k | 0 <= k < |bs| - 1 ensures McbAt(m, bs[1..], k) { assert McbAt(m, bs, k + 1); }
  }

  lemma ViewSplits(bs: seq<Block>)
    requires bs != []
    ensures View(bs) == [Shown(bs[0])] + View(bs[1..])
  {
  }

  lemma ViewOne(bs: seq<Block>)
    requires |bs| == 1
    ensures View(bs) == [Shown(bs[0])]
  {
  }

  lemma WalkStops(m: Ram, seg: int, e: Entry)
    requires 0 <= seg < M16 && Get8(m, 16 * seg) == SIG_LAST
    requires e == Entry(seg, Load(m, 16 * seg + 3, 2), Load(m, 16 * seg + 1, 2))
    ensures Walk(m, seg) == Entries([e])
  {
  }

  lemma WalkStep(m: Ram, seg: int, e: Entry, rest: seq<Entry>)
    requires 0 <= seg < M16 && Get8(m, 16 * seg) == SIG_LINK
    requires e == Entry(seg, Load(m, 16 * seg + 3, 2), Load(m, 16 * seg + 1, 2))
    requires Walk(m, seg + 1 + e.size) == Entries(rest)
    ensures Walk(m, seg) == Entries([e] + rest)
  {
  }

  /** The MCB of the first block, by its bytes. */
  lemma ReadMcb(m: Ram, bs: seq<Block>)
    requires bs != [] && McbAt(m, bs, 0) && bs[0].seg < HEAP_END
    ensures Get8(m, 16 * bs[0].seg) == if |bs| == 1 then 0x5A else 0x4D
    ensures Load(m, 16 * bs[0].seg + 1, 2) == Shown(bs[0]).owner
    ensures Load(m, 16 * bs[0].seg + 3, 2) == bs[0].paras
    ensures m[16 * bs[0].seg + 5..16 * bs[0].seg + 16] == seq(11, _ => 0)
  {
    var b, a := bs[0], 16 * bs[0].seg;
    McbFields(b, |bs| == 1);
    hide McbBytes, Load, Get8;
    assert Get8(m, a) == m[a] by { Here(m, a); }
    Padding(m, a, McbBytes(b, |bs| == 1));
    Cells(m, a, McbBytes(b, |bs| == 1));
    LoadWord(m, a + 1, Shown(b).owner);
    LoadWord(m, a + 3, b.paras);
  }

  lemma Here(m: Ram, a: nat)
    requires a < M32
    ensures Get8(m, a) == m[a]
  {
  }

  lemma Padding(m: Ram, a: nat, bytes: seq<Byte>)
    requires |bytes| == 16 && a + 16 <= M32 && m[a..a + 16] == bytes && forall k :: 5 <= k < 16 ==> bytes[k] == 0
    ensures m[a + 5..a + 16] == seq(11, _ => 0)
  {
    Cells(m, a, bytes);
    forall x | a + 5 <= x < a + 16 ensures m[x] == 0 { assert m[a + (x - a)] == bytes[x - a]; }
  }

  lemma LoadWord(m: Ram, a: nat, v: Word)
    requires a + 1 < M32 && m[a] == v % M8 && m[a + 1] == v / M8
    ensures Load(m, a, 2) == v
  {
    LoadBytes(m, a);
  }

  lemma Cells(m: Ram, a: nat, bytes: seq<Byte>)
    requires |bytes| == 16 && a + 16 <= M32 && m[a..a + 16] == bytes
    ensures forall k :: 0 <= k < 16 ==> m[a + k] == bytes[k]
    ensures m[a] == bytes[0] && m[a + 1] == bytes[1] && m[a + 2] == bytes[2]
    ensures m[a + 3] == bytes[3] && m[a + 4] == bytes[4]
  {
    forall k | 0 <= k < 16 ensures m[a + k] == bytes[k] {
      assert m[a..a + 16][k] == m[a + k];
    }
  }

  /** A call that rewrites only MCBs leaves alone the data of every block in use after it. */
  lemma DataKept(m: Ram, m': Ram, bs: seq<Block>, b: Block, x: int)
    requires Normal(bs) && OnlyMcbs(m, m', bs)
    requires b in Used(bs) && 16 * (b.seg + 1) <= x < 16 * End(b)
    ensures 0 <= x < M32 && m'[x] == m[x]
  {
    var i :| 0 <= i < |bs| && bs[i] == b;
    InRange(bs, ARENA_MCB, HEAP_END, i);
    forall k | 0 <= k < |bs| ensures x / 16 != bs[k].seg {
      if k < i { InOrder(bs, ARENA_MCB, HEAP_END, k, i); }
      if i < k { InOrder(bs, ARENA_MCB, HEAP_END, i, k); }
    }
  }
}
