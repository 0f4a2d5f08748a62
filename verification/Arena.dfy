/**
 The conventional-memory half of the DOS layer (`src/dos.cpp`): AH=48h, 49h and 4Ah over
 the block list, each call publishing the MCB chain into guest memory.
 */
module Arena {
  import opened Widths
  import opened FlatMemory
  import opened PagedMemory
  import opened Blocks

  const DPMI_ENTRY_SEG := 0x00E0
  /** The list of lists lives in the last two paragraphs of the same block. */
  const LOL_SEG := 0x00F8

  /** The free block left when only `paras` of `b` are kept. */
  function Rest(b: Block, paras: int): Block
    requires 0 <= paras < b.paras && End(b) <= HEAP_END
  {
    Block(b.seg + 1 + paras, b.paras - paras - 1, 0, false)
  }

  /** `mem_split` on block `i`: `paras` stay in front, the rest is a free block of its own. */
  function SplitAt(bs: seq<Block>, i: nat, paras: Word): seq<Block>
    requires i < |bs| && End(bs[i]) <= HEAP_END
  {
    var b := bs[i];
    if b.paras < paras + 1 then bs
    else Splice(bs, i, i + 1, [b.(paras := paras), Rest(b, paras)])
  }

  /** The size of the largest free block, 0 when there is none. */
  function LargestFree(bs: seq<Block>): (best: Word)
    ensures forall b :: b in bs && !b.used ==> b.paras <= best
    ensures best == 0 || exists b :: b in bs && !b.used && b.paras == best
  {
    if bs == [] then 0
    else
      var b, rest := bs[|bs| - 1], LargestFree(bs[..|bs| - 1]);
      assert bs == bs[..|bs| - 1] + [b];
      if !b.used && b.paras > rest then b.paras else rest
  }

  predicate Fits(b: Block, paras: Word) { !b.used && b.paras >= paras }

  predicate FirstFit(bs: seq<Block>, paras: Word, k: int) {
    && 0 <= k < |bs| && Fits(bs[k], paras)
    && forall j :: 0 <= j < k ==> !Fits(bs[j], paras)
  }

  /** The largest block that fits, the lowest of them if several are as large. */
  predicate LargestFit(bs: seq<Block>, paras: Word, k: int) {
    && 0 <= k < |bs| && Fits(bs[k], paras)
    && (forall j :: 0 <= j < |bs| && Fits(bs[j], paras) ==> bs[j].paras <= bs[k].paras)
    && (forall j :: 0 <= j < k && Fits(bs[j], paras) ==> bs[j].paras < bs[k].paras)
  }

  /** `seg` begins the block the search settles on. */
  ghost predicate Chosen(bs: seq<Block>, paras: Word, biggest: bool, seg: int) {
    exists k :: 0 <= k < |bs| && bs[k].seg + 1 == seg
                && if biggest then LargestFit(bs, paras, k) else FirstFit(bs, paras, k)
  }

  /** `seg` is in the data of block `b`. */
  predicate Within(b: Block, seg: int) { b.seg + 1 <= seg < End(b) }

  /** No free block has `seg` in its data. */
  ghost predicate NothingFree(bs: seq<Block>, seg: int) { forall b :: b in bs && Within(b, seg) ==> b.used }

  /** What a block could grow to: its own size and that of the free block above, MCB included. */
  function Room(bs: seq<Block>, k: int): int
    requires 0 <= k < |bs|
  {
    bs[k].paras + if k + 1 < |bs| && !bs[k + 1].used then 1 + bs[k + 1].paras else 0
  }

  /** Where the block the guest calls `seg` is in the list, or the length of the list. */
  function Position(bs: seq<Block>, seg: int): (i: nat)
    ensures i <= |bs| && (i < |bs| ==> bs[i].seg + 1 == seg)
    ensures forall k :: 0 <= k < i ==> bs[k].seg + 1 != seg
  {
    if bs == [] then 0
    else
      var i, last := Position(bs[..|bs| - 1], seg), |bs| - 1;
      if i < last then i else if bs[last].seg + 1 == seg then last else |bs|
  }

  /** Likewise for the block whose data `seg` is in. */
  function Container(bs: seq<Block>, seg: int): (i: nat)
    ensures i <= |bs| && (i < |bs| ==> Within(bs[i], seg))
    ensures forall k :: 0 <= k < i ==> !Within(bs[k], seg)
  {
    if bs == [] then 0
    else
      var i, last := Container(bs[..|bs| - 1], seg), |bs| - 1;
      if i < last then i else if Within(bs[last], seg) then last else |bs|
  }

  /** The most AH=4Ah can make of the block the guest calls `seg`; Unknown when it is nobody's. */
  datatype Limit = Unknown | AtMost(paras: int)

  function LimitOf(bs: seq<Block>, seg: int): Limit {
    var i, k := Position(bs, seg), Container(bs, seg);
    if i < |bs| then AtMost(if bs[i].used then Room(bs, i) else bs[i].paras)
    else if k < |bs| && !bs[k].used then AtMost(End(bs[k]) - seg)
    else Unknown
  }

  ghost function UsedResized(bs: seq<Block>, i: nat, paras: Word): set<Block>
    requires i < |bs|
  {
    if bs[i].used then Used(bs) - {bs[i]} + {bs[i].(paras := paras)} else Used(bs)
  }

  /** AH=4Ah on a segment that begins no block but lies in free memory. */
  predicate Adopts(bs: seq<Block>, seg: int) {
    var k := Container(bs, seg);
    Position(bs, seg) == |bs| && k < |bs| && !bs[k].used
  }

  /** AH=4Ah answering `ok` there leaves an MCB it wrote on the way in a paragraph that ends up without one. */
  predicate Scars(bs: seq<Block>, seg: int, paras: int, ok: bool) {
    Adopts(bs, seg) && ok && paras != 1 && LimitOf(bs, seg) != AtMost(1)
  }

  /** No byte outside the MCBs of `bs` and paragraph `p` differs. */
  ghost predicate OnlyMcbsOr(m: Ram, m': Ram, bs: seq<Block>, p: int) {
    forall x :: 0 <= x < M32 && (forall k :: 0 <= k < |bs| ==> x / 16 != bs[k].seg) && x / 16 != p ==> m'[x] == m[x]
  }

  /** The used blocks after AH=4Ah answered `ok`. A block claimed on the guest's word stays claimed. */
  ghost function UsedAfterResize(bs: seq<Block>, seg: Word, paras: Word, owner: Word, ok: bool): set<Block> {
    var i, k := Position(bs, seg), Container(bs, seg);
    if i < |bs| then
      if ok then UsedResized(bs, i, paras) else Used(bs)
    else if k < |bs| && !bs[k].used && seg > 0 then
      Used(bs) + {Block(seg - 1, if ok then paras else 1, owner, true)}
    else Used(bs)
  }

  /** The block the guest calls `seg`, among the used ones. */
  ghost predicate Holds(bs: seq<Block>, seg: int, b: Block) { b in Used(bs) && b.seg + 1 == seg }

  /** The block of the DPMI entries. */
  predicate IsHost(b: Block) { b.seg + 1 == DPMI_ENTRY_SEG }

  /** A DOS call's answer, carry clear or set, with the AX and BX it leaves. */
  datatype Reply = Done(ax: Word, bx: Word) | Failed(ax: Word, bx: Word)

  class Dos {
    const mem: Memory
    var blocks: seq<Block>
    var psp: Word

    /** The arena at start-up: one free block, and the DPMI entries claimed as DOS's own. */
    constructor (memory: Memory)
      requires memory.Valid()
      modifies memory.repr
      ensures mem == memory && psp == 0
      ensures Valid() && fresh(mem.repr - old(memory.repr))
      ensures ChainAgrees() && OnlyMcbs(old(memory.flat), mem.flat, blocks)
      ensures Used(blocks) == {Block(0xE0 - 1, 26, 8, true)}
      ensures blocks != [] && blocks[0].seg == 0x0090 && End(blocks[|blocks| - 1]) == 0x9F00
    {
      mem := memory;
      psp := 0;
      blocks := [Block(ARENA_MCB, HEAP_END - ARENA_MCB - 1, 0, false)];
      new;
      assert Within(blocks[0], DPMI_ENTRY_SEG) && Used(blocks) == {};
      Own(DPMI_ENTRY_SEG, 26);
      ghost var was := blocks;
      MarkHost();
      HostMarked(was, blocks);
      Publish();
    }

    /** The DPMI entries belong to DOS itself, owner 8. */
    method MarkHost()
      modifies this`blocks
      ensures |blocks| == |old(blocks)|
      ensures forall k :: 0 <= k < |blocks| ==>
                blocks[k] == if IsHost(old(blocks)[k]) then old(blocks)[k].(owner := 8) else old(blocks)[k]
    {
      var i := 0;
      while i < |blocks|
        invariant 0 <= i <= |blocks| == |old(blocks)|
        invariant forall k :: 0 <= k < |blocks| ==>
                    blocks[k] == if k < i && IsHost(old(blocks)[k]) then old(blocks)[k].(owner := 8) else old(blocks)[k]
      {
        if IsHost(blocks[i]) { blocks := blocks[i := blocks[i].(owner := 8)]; }
        i := i + 1;
      }
    }

    ghost predicate Valid()
      reads this, mem, mem.repr
    {
      && mem.Valid() && this !in mem.repr
      && Normal(blocks)
    }

    /** Valid but for free neighbours, as it is between a split and the merge after it. */
    ghost predicate Tiled()
      reads this, mem, mem.repr
    {
      && mem.Valid() && this !in mem.repr
      && Tiles(blocks, ARENA_MCB, HEAP_END)
    }

    /** The chain in guest memory is the block list. */
    ghost predicate ChainAgrees()
      requires mem.Valid()
      reads this, mem, mem.repr
    {
      Published(mem.flat, blocks)
    }

    /** `mem_find`: the index of the block the guest calls `seg`, or the number of blocks. */
    method Find(seg: Word) returns (i: nat)
      ensures i == Position(blocks, seg)
    {
      i := 0;
      while i < |blocks|
        invariant i <= |blocks|
        invariant forall k :: 0 <= k < i ==> blocks[k].seg + 1 != seg
      {
        if blocks[i].seg + 1 == seg { return; }
        i := i + 1;
      }
    }

    /** `mem_split`. */
    method Split(mcb: Word, paras: Word)
      requires Tiles(blocks, ARENA_MCB, HEAP_END)
      modifies this`blocks
      ensures forall k :: 0 <= k < |old(blocks)| && old(blocks)[k].seg == mcb ==>
                            End(old(blocks)[k]) <= HEAP_END && blocks == SplitAt(old(blocks), k, paras)
      ensures (forall k :: 0 <= k < |old(blocks)| ==> old(blocks)[k].seg != mcb) ==> blocks == old(blocks)
    {
      var i := 0;
      while i < |blocks|
        invariant i <= |blocks| && blocks == old(blocks)
        invariant forall k :: 0 <= k < i ==> blocks[k].seg != mcb
      {
        if blocks[i].seg == mcb {
          InRange(blocks, ARENA_MCB, HEAP_END, i);
          forall k | 0 <= k < |blocks| && blocks[k].seg == mcb ensures k == i {
            SameSeg(blocks, ARENA_MCB, HEAP_END, i, k);
          }
          if blocks[i].paras < paras + 1 { return; }
          var tail := Block(U16(mcb + 1 + paras), U16(blocks[i].paras - paras - 1), 0, false);
          var was := blocks;
          blocks := blocks[i := blocks[i].(paras := paras)];
          blocks := blocks[..i + 1] + [tail] + blocks[i + 1..];
          assert blocks == SplitAt(was, i, paras);
          return;
        }
        i := i + 1;
      }
    }

    /** `mem_coalesce`: only free neighbours merge. */
    method Coalesce()
      requires Tiles(blocks, ARENA_MCB, HEAP_END)
      modifies this`blocks
      ensures Normal(blocks) && Used(blocks) == Used(old(blocks))
    {
      var i := 1;
      while i < |blocks|
        invariant 1 <= i <= |blocks| && Tiles(blocks, ARENA_MCB, HEAP_END)
        invariant NoFreeUpTo(blocks, i)
        invariant Used(blocks) == Used(old(blocks))
        decreases |blocks| - i
      {
        var p := blocks[i - 1];
        if !blocks[i].used && !p.used && p.seg + 1 + p.paras == blocks[i].seg {
          InRange(blocks, ARENA_MCB, HEAP_END, i);
          MergeTiles(blocks, i);
          ghost var merged := Merged(blocks, i);
          blocks := blocks[i - 1 := p.(paras := U16(p.paras + 1 + blocks[i].paras))];
          blocks := blocks[..i] + blocks[i + 1..];
          assert blocks == merged;
        } else {
          i := i + 1;
        }
      }
    }

    /** `mem_largest`. */
    method Largest() returns (best: Word)
      ensures best == LargestFree(blocks)
    {
      best := 0;
      for i := 0 to |blocks|
        invariant best == LargestFree(blocks[..i])
      {
        assert blocks[..i + 1][..i] == blocks[..i];
        if !blocks[i].used && blocks[i].paras > best { best := blocks[i].paras; }
      }
      assert blocks[..|blocks|] == blocks;
    }

    /** The zero-filling loops of `mem_publish`. */
    method WriteZeros(seg: Word, off: nat, n: nat)
      requires mem.Valid() && this !in mem.repr && seg < HEAP_END && off + n <= 16
      modifies mem.repr
      ensures mem.Valid() && this !in mem.repr && fresh(mem.repr - old(mem.repr))
      ensures mem.flat == Fill(old(mem.flat), 16 * seg + off, seq(n, _ => 0))
    {
      for j := 0 to n
        invariant mem.Valid() && this !in mem.repr && fresh(mem.repr - old(mem.repr))
        invariant mem.flat == Fill(old(mem.flat), 16 * seg + off, seq(j, _ => 0))
      {
        FillOne(old(mem.flat), 16 * seg + off, seq(j, _ => 0), 0);
        assert seq(j + 1, _ => 0) == seq(j, _ => 0) + [0];
        mem.Write8(Phys(seg, off + j), 0);
      }
    }

    /** The signature, owner and size of an MCB. */
    method WriteHeader(seg: Word, sig: Byte, owner: Word, paras: Word)
      requires mem.Valid() && this !in mem.repr && seg < HEAP_END
      modifies mem.repr
      ensures mem.Valid() && this !in mem.repr && fresh(mem.repr - old(mem.repr))
      ensures mem.flat == Fill(old(mem.flat), 16 * seg, [sig, owner % M8, owner / M8, paras % M8, paras / M8])
    {
      PhysIs(seg, 0);
      PhysIs(seg, 1);
      PhysIs(seg, 3);
      HeaderBytes(mem.flat, 16 * seg, sig, owner, paras);
      mem.Write8(Phys(seg, 0), sig);
      mem.Write16(Phys(seg, 1), owner);
      mem.Write16(Phys(seg, 3), paras);
    }

    /** One MCB of `mem_publish`: the paragraph below block `b`. */
    method WriteMcb(b: Block, last: bool)
      requires mem.Valid() && this !in mem.repr && b.seg < HEAP_END
      modifies mem.repr
      ensures mem.Valid() && this !in mem.repr && fresh(mem.repr - old(mem.repr))
      ensures mem.flat == Fill(old(mem.flat), 16 * b.seg, McbBytes(b, last))
    {
      WriteHeader(b.seg, if last then SIG_LAST else SIG_LINK, if b.used then b.owner else 0, b.paras);
      WriteZeros(b.seg, 5, 3);
      WriteZeros(b.seg, 8, 8);
      McbInPieces(old(mem.flat), b, last);
    }

    /** `mem_publish`: every block gets its MCB, and nothing else is written. */
    method Publish()
      requires Tiled()
      modifies mem.repr
      ensures Tiled() && fresh(mem.repr - old(mem.repr))
      ensures ChainAgrees() && OnlyMcbs(old(mem.flat), mem.flat, blocks)
    {
      var i := 0;
      while i < |blocks|
        invariant 0 <= i <= |blocks| && Tiled() && fresh(mem.repr - old(mem.repr))
        invariant forall k :: 0 <= k < i ==> McbAt(mem.flat, blocks, k)
        invariant OnlyMcbs(old(mem.flat), mem.flat, blocks)
      {
        hide Memory.Valid, Tiles, OnlyMcbs, McbAt, Fill, McbBytes;
        ghost var before := mem.flat;
        InRange(blocks, ARENA_MCB, HEAP_END, i);
        WriteMcb(blocks[i], i + 1 == |blocks|);
        McbStep(old(mem.flat), before, mem.flat, blocks, i);
        i := i + 1;
      }
    }

    /** The claiming half of `mem_own`, once the free block `at` is known to contain `seg`. */
    method ClaimIn(at: nat, seg: Word, paras: Word)
      requires Tiles(blocks, ARENA_MCB, HEAP_END) && at < |blocks| && !blocks[at].used && Within(blocks[at], seg)
      modifies this`blocks
      ensures Tiles(blocks, ARENA_MCB, HEAP_END)
      ensures var room := End(old(blocks)[at]) - seg;
              var got := if paras <= room then paras else room;
              0 <= got < M16 && Used(blocks) == Used(old(blocks)) + {Block(seg - 1, got, psp, true)}
    {
      InRange(blocks, ARENA_MCB, HEAP_END, at);
      var i := at;
      if seg > blocks[i].seg + 1 {
        SplitOff(i, U16(seg - 1 - blocks[i].seg - 1));
        i := i + 1;
      }
      TakeFree(i, paras);
    }

    method SplitOff(i: nat, paras: Word)
      requires Tiles(blocks, ARENA_MCB, HEAP_END) && i < |blocks| && !blocks[i].used && paras < blocks[i].paras
      modifies this`blocks
      ensures Tiles(blocks, ARENA_MCB, HEAP_END) && Used(blocks) == Used(old(blocks)) && |blocks| == |old(blocks)| + 1
      ensures blocks[i + 1].seg == old(blocks)[i].seg + 1 + paras
      ensures End(blocks[i + 1]) == End(old(blocks)[i]) && !blocks[i + 1].used
    {
      InRange(blocks, ARENA_MCB, HEAP_END, i);
      SplitFree(blocks, i, paras);
      SplitBlock(i, paras);
    }

    method TakeFree(i: nat, paras: Word)
      requires Tiles(blocks, ARENA_MCB, HEAP_END) && i < |blocks| && !blocks[i].used
      modifies this`blocks
      ensures Tiles(blocks, ARENA_MCB, HEAP_END)
      ensures var b := old(blocks)[i];
              Used(blocks) == Used(old(blocks)) + {Block(b.seg, if paras <= b.paras then paras else b.paras, psp, true)}
    {
      InRange(blocks, ARENA_MCB, HEAP_END, i);
      TakenIs(blocks, i, paras, psp);
      Take(i, paras);
    }

    /** Mark the front `paras` of free block `i` as the program's, or all of a smaller one. */
    method Take(i: nat, paras: Word)
      requires Tiles(blocks, ARENA_MCB, HEAP_END) && i < |blocks|
      modifies this`blocks
      ensures End(old(blocks)[i]) <= HEAP_END && blocks == Taken(old(blocks), i, paras, psp)
    {
      InRange(blocks, ARENA_MCB, HEAP_END, i);
      if blocks[i].paras > paras { SplitBlock(i, paras); }
      blocks := blocks[i := blocks[i].(used := true, owner := psp)];
    }

    method SplitBlock(i: nat, paras: Word)
      requires Tiles(blocks, ARENA_MCB, HEAP_END) && i < |blocks|
      modifies this`blocks
      ensures End(old(blocks)[i]) <= HEAP_END && blocks == SplitAt(old(blocks), i, paras)
    {
      Split(blocks[i].seg, paras);
    }

    /** `mem_own`: claim [seg, seg + paras) out of the free block that contains it. */
    method Own(seg: Word, paras: Word)
      requires Valid()
      modifies this`blocks, mem.repr
      ensures Valid() && fresh(mem.repr - old(mem.repr))
      ensures OnlyMcbs(old(mem.flat), mem.flat, blocks) && (old(ChainAgrees()) ==> ChainAgrees())
      ensures forall k :: 0 <= k < |old(blocks)| && Within(old(blocks)[k], seg) && !old(blocks)[k].used && paras > 0 ==>
                            var got := if paras <= End(old(blocks)[k]) - seg then paras else End(old(blocks)[k]) - seg;
                            && 0 < got < M16 && ChainAgrees()
                            && Used(blocks) == Used(old(blocks)) + {Block(seg - 1, got, psp, true)}
      ensures paras == 0 || NothingFree(old(blocks), seg) ==>
                blocks == old(blocks) && mem.flat == old(mem.flat)
    {
      if paras == 0 { return; }
      var i := 0;
      while i < |blocks|
        invariant i <= |blocks| && blocks == old(blocks)
        invariant forall k :: 0 <= k < i ==> !Within(blocks[k], seg)
      {
        var lo := blocks[i].seg + 1;
        var hi := lo + blocks[i].paras;
        if lo <= seg < hi {
          forall k | 0 <= k < |blocks| && Within(blocks[k], seg) ensures k == i { WithinOne(blocks, i, k, seg); }
          if blocks[i].used { return; }
          ClaimIn(i, seg, paras);
          assert Tiled();
          Coalesce();
          Publish();
          return;
        }
        i := i + 1;
      }
    }

    /** The search of `mem_alloc_at`: the number of blocks when nothing fits. */
    method Pick(paras: Word, biggest: bool) returns (pick: nat)
      ensures pick <= |blocks|
      ensures pick == |blocks| ==> forall b :: b in blocks ==> !Fits(b, paras)
      ensures pick < |blocks| ==> if biggest then LargestFit(blocks, paras, pick) else FirstFit(blocks, paras, pick)
    {
      pick := |blocks|;
      var i := 0;
      while i < |blocks|
        invariant 0 <= i <= |blocks|
        invariant pick == |blocks| ==> forall j :: 0 <= j < i ==> !Fits(blocks[j], paras)
        invariant pick != |blocks| ==>
                    && 0 <= pick < i && biggest && Fits(blocks[pick], paras)
                    && (forall j :: 0 <= j < i && Fits(blocks[j], paras) ==> blocks[j].paras <= blocks[pick].paras)
                    && (forall j :: 0 <= j < pick && Fits(blocks[j], paras) ==> blocks[j].paras < blocks[pick].paras)
      {
        if !(blocks[i].used || blocks[i].paras < paras) {
          if !biggest { pick := i; break; }
          if pick == |blocks| || blocks[i].paras > blocks[pick].paras { pick := i; }
        }
        i := i + 1;
      }
    }

    /** `mem_alloc_at`: the guest segment, or 0 when nothing free is large enough. */
    method AllocAt(wanted: Word, biggest: bool) returns (seg: Word)
      requires Valid()
      modifies this`blocks, mem.repr
      ensures Valid() && fresh(mem.repr - old(mem.repr))
      ensures OnlyMcbs(old(mem.flat), mem.flat, blocks) && (old(ChainAgrees()) ==> ChainAgrees())
      ensures var paras := if wanted == 0 then 1 else wanted;
              && (seg == 0 <==> paras > LargestFree(old(blocks)))
              && (seg == 0 ==> blocks == old(blocks) && mem.flat == old(mem.flat))
              && (seg != 0 ==>
                    && ChainAgrees()
                    && Used(blocks) == Used(old(blocks)) + {Block(seg - 1, paras, psp, true)}
                    && (forall b :: b in Used(old(blocks)) ==> b.seg != seg - 1)
                    && Chosen(old(blocks), paras, biggest, seg))
    {
      var paras := if wanted == 0 then 1 else wanted;
      var pick := Pick(paras, biggest);
      if pick == |blocks| { return 0; }
      assert blocks[pick] in blocks;
      InRange(blocks, ARENA_MCB, HEAP_END, pick);
      seg := U16(blocks[pick].seg + 1);
      assert Chosen(blocks, paras, biggest, seg);
      ClaimFront(pick, paras);
      Publish();
    }

    method ClaimFront(pick: nat, paras: Word)
      requires Normal(blocks) && pick < |blocks| && Fits(blocks[pick], paras) && paras > 0
      modifies this`blocks
      ensures Normal(blocks)
      ensures Used(blocks) == Used(old(blocks)) + {Block(old(blocks)[pick].seg, paras, psp, true)}
      ensures forall b :: b in Used(old(blocks)) ==> b.seg != old(blocks)[pick].seg
    {
      InRange(blocks, ARENA_MCB, HEAP_END, pick);
      ClaimIsNormal(blocks, pick, paras, psp);
      Take(pick, paras);
    }

    /** `mem_free`. */
    method Free(seg: Word) returns (ok: bool)
      requires Valid()
      modifies this`blocks, mem.repr
      ensures Valid() && fresh(mem.repr - old(mem.repr))
      ensures OnlyMcbs(old(mem.flat), mem.flat, blocks) && (old(ChainAgrees()) ==> ChainAgrees())
      ensures ok <==> exists b :: Holds(old(blocks), seg, b)
      ensures forall b :: Holds(old(blocks), seg, b) ==> Used(blocks) == Used(old(blocks)) - {b} && ChainAgrees()
      ensures !ok ==> blocks == old(blocks) && mem.flat == old(mem.flat)
    {
      var i := Find(seg);
      ghost var bs := blocks;
      forall b | Holds(bs, seg, b) ensures i < |bs| && b == bs[i] {
        var k :| 0 <= k < |bs| && bs[k] == b;
        if i < |bs| { SameSeg(bs, ARENA_MCB, HEAP_END, i, k); }
      }
      if i == |blocks| || !blocks[i].used { return false; }
      assert Holds(bs, seg, bs[i]);
      SpliceIs(bs, i, i + 1, [bs[i].(used := false)]);
      assert bs[i := bs[i].(used := false)] == Splice(bs, i, i + 1, [bs[i].(used := false)]);
      blocks := blocks[i := blocks[i].(used := false)];
      Coalesce();
      Publish();
      return true;
    }

    /** `mem_resize`. A block adopted on the guest's word stays adopted, even if the growth fails. */
    method Resize(seg: Word, paras: Word) returns (ok: bool)
      requires Valid()
      modifies this`blocks, mem.repr
      ensures Valid() && fresh(mem.repr - old(mem.repr)) && (old(ChainAgrees()) ==> ChainAgrees())
      ensures OnlyMcbsOr(old(mem.flat), mem.flat, blocks, seg + 1)
      ensures !Scars(old(blocks), seg, paras, ok) ==> OnlyMcbs(old(mem.flat), mem.flat, blocks)
      ensures Scars(old(blocks), seg, paras, ok) ==>
                !Starts(blocks, seg + 1) && Get8(mem.flat, 16 * (seg + 1)) in {SIG_LINK, SIG_LAST}
      ensures var limit := LimitOf(old(blocks), seg);
              && (ok <==> limit.AtMost? && paras <= limit.paras)
              && Used(blocks) == UsedAfterResize(old(blocks), seg, paras, psp, ok)
              && (!ok ==> LimitOf(blocks, seg) == limit && (limit.AtMost? ==> Position(blocks, seg) < |blocks|))
    {
      var i := Locate(seg);
      if i == |blocks| { return false; }
      ghost var mid, cut := mem.flat, blocks;
      ok := ResizeFound(i, paras);
      if Adopts(old(blocks), seg) {
        AfterAdopting(old(mem.flat), mid, mem.flat, cut, blocks, i, paras, ok);
      }
    }

    /** The first half of `mem_resize`: find the block, or take the guest's word that it owns one. */
    method Locate(seg: Word) returns (i: nat)
      requires Valid()
      modifies this`blocks, mem.repr
      ensures Valid() && fresh(mem.repr - old(mem.repr)) && (old(ChainAgrees()) ==> ChainAgrees())
      ensures i == Position(blocks, seg)
      ensures !Adopts(old(blocks), seg) ==> blocks == old(blocks) && mem.flat == old(mem.flat)
      ensures Adopts(old(blocks), seg) ==>
                && seg > 0 && i < |blocks| && blocks[i] == Block(seg - 1, 1, psp, true)
                && Used(blocks) == Used(old(blocks)) + {blocks[i]}
                && Room(blocks, i) == End(old(blocks)[Container(old(blocks), seg)]) - seg
                && ChainAgrees() && OnlyMcbs(old(mem.flat), mem.flat, blocks)
    {
      i := Find(seg);
      if i == |blocks| {
        ghost var was, k := blocks, Container(blocks, seg);
        OnlyContainer(blocks, seg);
        Own(seg, 1);
        i := Find(seg);
        if Adopts(was, seg) {
          assert Block(seg - 1, 1, psp, true) in blocks;
          NotFoundBefore(was, blocks, seg, psp);
          RoomAfterClaim(was, blocks, k, i, seg, psp);
        }
      }
    }

    /** The rest of `mem_resize`, on block `i`. */
    method ResizeFound(i: nat, paras: Word) returns (ok: bool)
      requires Valid() && i < |blocks|
      modifies this`blocks, mem.repr
      ensures Valid() && fresh(mem.repr - old(mem.repr))
      ensures OnlyMcbs(old(mem.flat), mem.flat, blocks) && (old(ChainAgrees()) ==> ChainAgrees())
      ensures ok <==> paras <= if old(blocks)[i].used then Room(old(blocks), i) else old(blocks)[i].paras
      ensures Used(blocks) == if ok then UsedResized(old(blocks), i, paras) else Used(old(blocks))
      ensures !ok ==> blocks == old(blocks) && mem.flat == old(mem.flat)
    {
      var k, avail := Reach(i);
      InRange(blocks, ARENA_MCB, HEAP_END, i);
      if paras <= blocks[i].paras {
        if paras < blocks[i].paras {
          Shrink(i, paras);
          Publish();
        } else {
          assert blocks[i].(paras := paras) == blocks[i];
        }
        return true;
      }
      if avail < paras { return false; }
      Grow(i, k, avail, paras);
      Publish();
      return true;
    }

    /** How far block `i` could spread: over the free blocks just above it, up to `k`. */
    method Reach(i: nat) returns (k: nat, avail: int)
      requires Normal(blocks) && i < |blocks|
      ensures avail == if blocks[i].used then Room(blocks, i) else blocks[i].paras
      ensures (k == i + 1 && avail == blocks[i].paras) ||
              (k == i + 2 <= |blocks| && !blocks[i + 1].used && avail == Room(blocks, i))
    {
      avail := blocks[i].paras;
      k := i + 1;
      while k < |blocks| && !blocks[k].used
        invariant (k == i + 1 && avail == blocks[i].paras) ||
                  (k == i + 2 <= |blocks| && !blocks[i + 1].used && avail == Room(blocks, i))
      {
        assert k == i + 1;
        avail := avail + 1 + blocks[k].paras;
        k := k + 1;
      }
    }

    method Shrink(i: nat, paras: Word)
      requires Normal(blocks) && i < |blocks| && paras < blocks[i].paras
      modifies this`blocks
      ensures Normal(blocks) && Used(blocks) == UsedResized(old(blocks), i, paras)
    {
      ResizedIs(blocks, i, i + 1, blocks[i].paras, paras);
      assert blocks[i].(paras := blocks[i].paras) == blocks[i];
      SplitBlock(i, paras);
      Coalesce();
    }

    method Grow(i: nat, k: nat, avail: int, paras: Word)
      requires Normal(blocks) && i < |blocks| && paras <= avail
      requires (k == i + 1 && avail == blocks[i].paras) ||
               (k == i + 2 <= |blocks| && !blocks[i + 1].used && avail == Room(blocks, i))
      modifies this`blocks
      ensures Normal(blocks) && Used(blocks) == UsedResized(old(blocks), i, paras)
    {
      ResizedIs(blocks, i, k, avail, paras);
      ResizedIs(blocks, i, k, avail, avail);
      Spread(i, k, avail);
      if blocks[i].paras > paras {
        SplitBlock(i, paras);
        ResizedInTwo(old(blocks), i, k, avail, paras);
      }
      Coalesce();
    }

    /** The block takes all of `avail`, and what it swallowed is erased. */
    method Spread(i: nat, k: nat, avail: Word)
      requires i < k <= |blocks| && blocks[i].seg + 1 + avail <= HEAP_END
      modifies this`blocks
      ensures blocks == Resized(old(blocks), i, k, avail, avail)
    {
      blocks := blocks[i := blocks[i].(paras := U16(avail))];
      blocks := blocks[..i + 1] + blocks[k..];
    }

    // ---- the DOS calls -----------------------------------------------------------

    /** AH=48h, BX paragraphs. */
    method AllocateMemory(bx: Word) returns (reply: Reply)
      requires Valid()
      modifies this`blocks, mem.repr
      ensures Valid() && fresh(mem.repr - old(mem.repr))
      ensures OnlyMcbs(old(mem.flat), mem.flat, blocks) && (old(ChainAgrees()) ==> ChainAgrees())
      ensures var paras := if bx == 0 then 1 else bx;
              && (reply.Done? <==> paras <= LargestFree(old(blocks)))
              && (reply.Done? ==>
                    && reply.ax > 0 && reply.bx == bx
                    && Used(blocks) == Used(old(blocks)) + {Block(reply.ax - 1, paras, psp, true)}
                    && Chosen(old(blocks), paras, false, reply.ax))
              && (!reply.Done? ==> reply == Failed(8, LargestFree(blocks)) && blocks == old(blocks))
    {
      var seg := AllocAt(bx, false);
      if seg == 0 {
        var largest := Largest();
        return Failed(8, largest);
      }
      return Done(seg, bx);
    }

    /** AH=49h: AX is touched only on failure. */
    method FreeMemory(es: Word, ax: Word, bx: Word) returns (reply: Reply)
      requires Valid()
      modifies this`blocks, mem.repr
      ensures Valid() && fresh(mem.repr - old(mem.repr))
      ensures OnlyMcbs(old(mem.flat), mem.flat, blocks) && (old(ChainAgrees()) ==> ChainAgrees())
      ensures reply.Done? <==> exists b :: Holds(old(blocks), es, b)
      ensures forall b :: Holds(old(blocks), es, b) ==> Used(blocks) == Used(old(blocks)) - {b}
      ensures reply.Done? ==> reply == Done(ax, bx)
      ensures !reply.Done? ==> reply == Failed(9, bx) && blocks == old(blocks)
    {
      var ok := Free(es);
      return if ok then Done(ax, bx) else Failed(9, bx);
    }

    /** AH=4Ah: on failure BX is exactly what the block could have been. */
    method ResizeMemory(es: Word, ax: Word, bx: Word) returns (reply: Reply)
      requires Valid()
      modifies this`blocks, mem.repr
      ensures Valid() && fresh(mem.repr - old(mem.repr))
      ensures old(ChainAgrees()) ==> ChainAgrees()
      ensures OnlyMcbsOr(old(mem.flat), mem.flat, blocks, es + 1)
      ensures !Scars(old(blocks), es, bx, reply.Done?) ==> OnlyMcbs(old(mem.flat), mem.flat, blocks)
      ensures var limit := LimitOf(old(blocks), es);
              && (reply.Done? <==> limit.AtMost? && bx <= limit.paras)
              && (reply.Done? ==> reply == Done(ax, bx))
              && (!reply.Done? ==> reply == Failed(8, if limit.AtMost? then limit.paras else 0))
              && Used(blocks) == UsedAfterResize(old(blocks), es, bx, psp, reply.Done?)
    {
      var ok := Resize(es, bx);
      if ok { return Done(ax, bx); }
      var got := CouldHave(es);
      return Failed(8, got);
    }

    /** AH=52h: ES:BX, with the first MCB at ES:BX-2 and an empty file table at ES:BX+4. The chain
        a guest finds there is the arena exactly when no MCB lies where the answer is written. */
    method ListOfLists() returns (es: Word, bx: Word)
      requires Valid()
      modifies mem.repr
      ensures Valid() && fresh(mem.repr - old(mem.repr))
      ensures es == LOL_SEG && bx == 0x10
      ensures Load(mem.flat, Phys(es, bx - 2), 2) == ARENA_MCB && Load(mem.flat, Phys(es, bx + 4), 4) == 0xFFFF_FFFF
      ensures old(ChainAgrees()) ==> (Walk(mem.flat, ARENA_MCB) == Entries(View(blocks)) <==> ClearOfLol(blocks))
      ensures old(ChainAgrees()) && ClearOfLol(blocks) ==> ChainAgrees()
      ensures forall x: Dword :: !(0xF80 <= x < 0xFA0) ==> Get8(mem.flat, x) == Get8(old(mem.flat), x)
    {
      hide Memory.Valid, Store, Load, Fill, Walk, Published, ClearOfLol;
      es, bx := LOL_SEG, 0x10;
      ghost var was := mem.flat;
      assert Phys(LOL_SEG, 0x0E) == 0xF8E && Phys(LOL_SEG, 0x14) == 0xF94;
      ClearLol();
      mem.Write16(Phys(LOL_SEG, 0x0E), if blocks == [] then 0xFFFF else blocks[0].seg);
      mem.Write32(Phys(LOL_SEG, 0x14), 0xFFFF_FFFF);
      LolWritten(was, ARENA_MCB);
      if Published(was, blocks) {
        ListOfListsReadsBack(was, blocks);
        if ClearOfLol(blocks) { LolKeepsMcbs(was, mem.flat, blocks); }
      }
    }

    method ClearLol()
      requires mem.Valid() && this !in mem.repr
      modifies mem.repr
      ensures mem.Valid() && this !in mem.repr && fresh(mem.repr - old(mem.repr))
      ensures mem.flat == Fill(old(mem.flat), 0xF80, seq(32, _ => 0))
    {
      hide Memory.Valid;
      for i := 0 to 32
        invariant mem.Valid() && this !in mem.repr && fresh(mem.repr - old(mem.repr))
        invariant mem.flat == Fill(old(mem.flat), 0xF80, seq(i, _ => 0))
      {
        FillOne(old(mem.flat), 0xF80, seq(i, _ => 0), 0);
        assert seq(i + 1, _ => 0) == seq(i, _ => 0) + [0];
        assert Phys(LOL_SEG, i) == 0xF80 + i;
        mem.Write8(Phys(LOL_SEG, i), 0);
      }
    }

    /** The size AH=4Ah reports when it fails: what the block could have had. */
    method CouldHave(blk: Word) returns (got: Word)
      requires Normal(blocks)
      ensures var i := Position(blocks, blk);
              got == if i == |blocks| then 0 else if blocks[i].used then Room(blocks, i) else blocks[i].paras
    {
      got := 0;
      var i := Find(blk);
      if i != |blocks| {
        got := blocks[i].paras;
        var j := i + 1;
        while j < |blocks| && !blocks[j].used
          invariant (j == i + 1 && got == blocks[i].paras) ||
                    (j == i + 2 <= |blocks| && !blocks[i + 1].used && blocks[i].used && got == Room(blocks, i))
        {
          assert j == i + 1;
          InRange(blocks, ARENA_MCB, HEAP_END, i);
          InRange(blocks, ARENA_MCB, HEAP_END, j);
          got := U16(got + 1 + blocks[j].paras);
          j := j + 1;
        }
      }
    }
  }

  /** The list of lists as AH=52h writes it. */
  function LolBytes(m: Ram, first: Word): Ram {
    Store(Store(Fill(m, 0xF80, seq(32, _ => 0)), 0xF8E, 2, first), 0xF94, 4, 0xFFFF_FFFF)
  }

  lemma LolWritten(m: Ram, first: Word)
    ensures Load(LolBytes(m, first), 0xF8E, 2) == first && Load(LolBytes(m, first), 0xF94, 4) == 0xFFFF_FFFF
    ensures forall x: Dword :: !(0xF80 <= x < 0xFA0) ==> Get8(LolBytes(m, first), x) == Get8(m, x)
  {
    var m1 := Fill(m, 0xF80, seq(32, _ => 0));
    var m2 := Store(m1, 0xF8E, 2, first);
    Sizes();
    hide Store, Load, Fill, Get8;
    LoadAfterStore(m1, 0xF8E, 2, first);
    LoadAfterStoreApart(m2, 0xF94, 4, 0xFFFF_FFFF, 0xF8E, 2);
    LoadAfterStore(m2, 0xF94, 4, 0xFFFF_FFFF);
    forall x: Dword | !(0xF80 <= x < 0xFA0) ensures Get8(LolBytes(m, first), x) == Get8(m, x) {
      OutOfLol(x);
      FillIs(m, 0xF80, seq(32, _ => 0), x);
      StoreElsewhere(m1, 0xF8E, 2, first, x);
      StoreElsewhere(m2, 0xF94, 4, 0xFFFF_FFFF, x);
    }
  }

  lemma OutOfLol(x: Dword)
    requires !(0xF80 <= x < 0xFA0)
    ensures U32(x - 0xF80) >= 32 && U32(x - 0xF8E) >= 2 && U32(x - 0xF94) >= 4
  {
  }

  /** No MCB lies in the two paragraphs AH=52h writes. */
  ghost predicate ClearOfLol(bs: seq<Block>) { !Starts(bs, LOL_SEG) && !Starts(bs, LOL_SEG + 1) }

  lemma LolKeepsMcbs(m: Ram, m': Ram, bs: seq<Block>)
    requires Normal(bs) && Published(m, bs) && ClearOfLol(bs)
    requires forall x: Dword :: !(0xF80 <= x < 0xFA0) ==> Get8(m', x) == Get8(m, x)
    ensures Published(m', bs)
  {
    forall k | 0 <= k < |bs| ensures McbAt(m', bs, k) {
      InRange(bs, ARENA_MCB, HEAP_END, k);
      assert McbAt(m, bs, k);
      ParagraphSame(m, m', bs[k].seg);
    }
  }

  /** A walk that meets one of the two paragraphs stops there, on a zero signature. */
  lemma {:induction false} WalkBreaks(m: Ram, m': Ram, bs: seq<Block>, lo: int, hi: int)
    requires Tiles(bs, lo, hi) && 0 <= lo && hi <= HEAP_END && Published(m, bs) && !ClearOfLol(bs)
    requires forall x: Dword :: !(0xF80 <= x < 0xFA0) ==> Get8(m', x) == Get8(m, x)
    requires Get8(m', 0xF80) == 0 && Get8(m', 0xF90) == 0
    ensures Walk(m', lo) == Broken
    decreases |bs|
  {
    hide Walk, Load, Get8, McbAt, McbBytes;
    InRange(bs, lo, hi, 0);
    if lo == LOL_SEG || lo == LOL_SEG + 1 {
      NoSignature(m', lo);
    } else {
      var tail := bs[1..];
      assert |bs| > 1 && !ClearOfLol(tail) by { StartsLater(bs); }
      HeadSame(m, m', bs);
      ReadMcb(m', bs);
      PublishedTail(m, bs);
      WalkBreaks(m, m', tail, End(bs[0]), hi);
      WalkStepBroken(m', lo, Shown(bs[0]));
    }
  }

  lemma StartsLater(bs: seq<Block>)
    requires bs != [] && !ClearOfLol(bs) && bs[0].seg != LOL_SEG && bs[0].seg != LOL_SEG + 1
    ensures |bs| > 1 && !ClearOfLol(bs[1..])
  {
    var k :| 0 <= k < |bs| && (bs[k].seg == LOL_SEG || bs[k].seg == LOL_SEG + 1);
    assert bs[1..][k - 1] == bs[k];
  }

  lemma NoSignature(m: Ram, seg: int)
    requires 0 <= seg < M16 && Get8(m, 16 * seg) == 0
    ensures Walk(m, seg) == Broken
  {
  }

  lemma WalkStepBroken(m: Ram, seg: int, e: Entry)
    requires 0 <= seg < M16 && Get8(m, 16 * seg) == SIG_LINK && e.size == Load(m, 16 * seg + 3, 2)
    requires Walk(m, seg + 1 + e.size) == Broken
    ensures Walk(m, seg) == Broken
  {
  }

  lemma HeadSame(m: Ram, m': Ram, bs: seq<Block>)
    requires bs != [] && bs[0].seg < HEAP_END && bs[0].seg != LOL_SEG && bs[0].seg != LOL_SEG + 1
    requires McbAt(m, bs, 0)
    requires forall x: Dword :: !(0xF80 <= x < 0xFA0) ==> Get8(m', x) == Get8(m, x)
    ensures McbAt(m', bs, 0)
  {
    ParagraphSame(m, m', bs[0].seg);
  }

  /** What AH=52h writes over an MCB is no signature. */
  lemma LolZeros(m: Ram, first: Word)
    ensures Get8(LolBytes(m, first), 0xF80) == 0 && Get8(LolBytes(m, first), 0xF90) == 0
  {
    var m1 := Fill(m, 0xF80, seq(32, _ => 0));
    var m2 := Store(m1, 0xF8E, 2, first);
    hide Store, Fill, Get8;
    FillIs(m, 0xF80, seq(32, _ => 0), 0xF80);
    FillIs(m, 0xF80, seq(32, _ => 0), 0xF90);
    StoreElsewhere(m1, 0xF8E, 2, first, 0xF80);
    StoreElsewhere(m1, 0xF8E, 2, first, 0xF90);
    StoreElsewhere(m2, 0xF94, 4, 0xFFFF_FFFF, 0xF80);
    StoreElsewhere(m2, 0xF94, 4, 0xFFFF_FFFF, 0xF90);
  }

  /** After AH=52h the walk reads the arena back exactly when no MCB lay where it wrote. */
  lemma ListOfListsReadsBack(m: Ram, bs: seq<Block>)
    requires Normal(bs) && Published(m, bs)
    ensures Walk(LolBytes(m, ARENA_MCB), ARENA_MCB) == Entries(View(bs)) <==> ClearOfLol(bs)
    ensures !ClearOfLol(bs) ==> Walk(LolBytes(m, ARENA_MCB), ARENA_MCB) == Broken
  {
    hide Walk, LolBytes, Get8, Published, ClearOfLol;
    var m' := LolBytes(m, ARENA_MCB);
    LolWritten(m, ARENA_MCB);
    LolZeros(m, ARENA_MCB);
    if ClearOfLol(bs) {
      LolKeepsMcbs(m, m', bs);
      WalkReadsBack(m', bs, ARENA_MCB, HEAP_END);
    } else {
      WalkBreaks(m, m', bs, ARENA_MCB, HEAP_END);
    }
  }

  /** While DOS's own block covers the two paragraphs no MCB can. */
  lemma HostBlockClears(bs: seq<Block>, b: Block)
    requires Normal(bs) && Holds(bs, DPMI_ENTRY_SEG, b) && b.paras == 26
    ensures ClearOfLol(bs)
  {
    var i :| 0 <= i < |bs| && bs[i] == b;
    forall k | 0 <= k < |bs| ensures bs[k].seg != LOL_SEG && bs[k].seg != LOL_SEG + 1 {
      if k < i { InOrder(bs, ARENA_MCB, HEAP_END, k, i); } else if i < k { InOrder(bs, ARENA_MCB, HEAP_END, i, k); }
    }
  }

  /**
   An arena it fails on. A program has everything from MCB 00FFh up; it frees DOS's own block with
   AH=49h, which asks for no owner, and AH=48h then gives it 0067h paragraphs at the bottom. The
   free rest has its MCB at 00F8h, and AH=52h wipes that out.
   */
  lemma ListOfListsCanBreak(m: Ram, bs: seq<Block>, program: Word)
    requires Normal(bs) && Published(m, bs)
    requires Used(bs) == {Block(ARENA_MCB, 0x67, program, true), Block(0xFF, HEAP_END - 0x100, program, true)}
    ensures Walk(LolBytes(m, ARENA_MCB), ARENA_MCB) == Broken
  {
    var top := Block(0xFF, HEAP_END - 0x100, program, true);
    var cs := [Block(ARENA_MCB, 0x67, program, true), Block(LOL_SEG, 6, 0, false), top];
    assert Normal(cs);
    forall b ensures b in Used(cs) <==> b in Used(bs) { assert cs[0] in cs && cs[2] in cs; }
    UsedDecides(bs, cs, ARENA_MCB, HEAP_END);
    assert View(bs)[1] == Shown(cs[1]) && bs[1].seg == LOL_SEG;
    ListOfListsReadsBack(m, bs);
  }

  lemma ParagraphSame(m: Ram, m': Ram, seg: int)
    requires 0 <= seg < HEAP_END && seg != 0xF8 && seg != 0xF9
    requires forall x: Dword :: !(0xF80 <= x < 0xFA0) ==> Get8(m', x) == Get8(m, x)
    ensures m'[16 * seg..16 * seg + 16] == m[16 * seg..16 * seg + 16]
  {
    forall x | 16 * seg <= x < 16 * seg + 16 ensures m'[x] == m[x] {
      var y: Dword := x;
      assert Get8(m', y) == Get8(m, y) && U32(y) == y;
    }
    ParagraphKept(m, m', seg);
  }

  /** Freeing what an allocation got gives back the chain there was before. */
  lemma FreeUndoesAlloc(bs: seq<Block>, cs: seq<Block>, ds: seq<Block>, b: Block)
    requires Normal(bs) && Normal(ds)
    requires Used(cs) == Used(bs) + {b} && (forall c :: c in Used(bs) ==> c.seg != b.seg) && Used(ds) == Used(cs) - {b}
    ensures View(ds) == View(bs)
  {
    assert b !in Used(bs);
    assert Used(ds) == Used(bs);
    UsedDecides(ds, bs, ARENA_MCB, HEAP_END);
  }

  lemma FillTwo(m: Ram, a: int, done: seq<Byte>, v: Word)
    ensures Fill(m, a, done + [v % M8, v / M8]) == Store(Fill(m, a, done), a + |done|, 2, v)
  {
    FillOne(m, a, done, v % M8);
    FillOne(m, a, done + [v % M8], v / M8);
    assert done + [v % M8, v / M8] == done + [v % M8] + [v / M8];
    StoreBytes(Fill(m, a, done), a + |done|, v);
  }

  lemma HostMarked(was: seq<Block>, bs: seq<Block>)
    requires |bs| == |was| && Used(was) == {Block(DPMI_ENTRY_SEG - 1, 26, 0, true)}
    requires forall k :: 0 <= k < |bs| ==>
               bs[k] == if IsHost(was[k]) then was[k].(owner := 8) else was[k]
    ensures Used(bs) == {Block(DPMI_ENTRY_SEG - 1, 26, 8, true)}
  {
    assert Block(DPMI_ENTRY_SEG - 1, 26, 0, true) in Used(was);
    var j :| 0 <= j < |was| && was[j] == Block(DPMI_ENTRY_SEG - 1, 26, 0, true);
    assert bs[j] == Block(DPMI_ENTRY_SEG - 1, 26, 8, true);
    forall b | b in Used(bs) ensures b == bs[j] {
      var k :| 0 <= k < |bs| && bs[k] == b;
      assert was[k] in Used(was);
    }
  }

  lemma PhysIs(seg: Word, off: Word)
    requires seg < HEAP_END && off < 16
    ensures Phys(seg, off) == 16 * seg + off
  {
  }

  lemma HeaderBytes(m: Ram, a: int, sig: Byte, owner: Word, paras: Word)
    ensures Store(Store(Put8(m, a, sig), a + 1, 2, owner), a + 3, 2, paras)
            == Fill(m, a, [sig, owner % M8, owner / M8, paras % M8, paras / M8])
  {
    var one, three := [sig], [sig, owner % M8, owner / M8];
    FillOne(m, a, [], sig);
    assert [] + one == one;
    FillTwo(m, a, one, owner);
    assert one + [owner % M8, owner / M8] == three;
    FillTwo(m, a, three, paras);
    assert three + [paras % M8, paras / M8] == [sig, owner % M8, owner / M8, paras % M8, paras / M8];
  }

  lemma McbInPieces(m: Ram, b: Block, last: bool)
    ensures var o := Shown(b).owner;
            var header := [if last then SIG_LAST else SIG_LINK, o % M8, o / M8, b.paras % M8, b.paras / M8];
            Fill(m, 16 * b.seg, McbBytes(b, last))
            == Fill(Fill(Fill(m, 16 * b.seg, header), 16 * b.seg + 5, seq(3, _ => 0)), 16 * b.seg + 8, seq(8, _ => 0))
  {
    var o := Shown(b).owner;
    var header := [if last then SIG_LAST else SIG_LINK, o % M8, o / M8, b.paras % M8, b.paras / M8];
    FillAppend(m, 16 * b.seg, header, seq(3, _ => 0));
    FillAppend(m, 16 * b.seg, header + seq(3, _ => 0), seq(8, _ => 0));
    assert header + seq(3, _ => 0) + seq(8, _ => 0) == McbBytes(b, last);
  }

  lemma McbIsWritten(m: Ram, b: Block, last: bool)
    requires b.seg < HEAP_END
    ensures var m' := Fill(m, 16 * b.seg, McbBytes(b, last));
            && m'[16 * b.seg..16 * b.seg + 16] == McbBytes(b, last)
            && forall x :: 0 <= x < M32 && x / 16 != b.seg ==> m'[x] == m[x]
  {
    var a, bytes := 16 * b.seg, McbBytes(b, last);
    var m' := Fill(m, a, bytes);
    forall x | 0 <= x < M32
      ensures m'[x] == if a <= x < a + 16 then bytes[x - a] else m[x]
    {
      FillIs(m, a, bytes, x);
      assert U32(x) == x && U32(x - a) == if x >= a then x - a else x - a + M32;
    }
  }

  /** One more MCB published. */
  lemma McbStep(was: Ram, before: Ram, after: Ram, bs: seq<Block>, i: nat)
    requires Tiles(bs, ARENA_MCB, HEAP_END) && i < |bs|
    requires bs[i].seg < HEAP_END && after == Fill(before, 16 * bs[i].seg, McbBytes(bs[i], i + 1 == |bs|))
    requires OnlyMcbs(was, before, bs) && forall k :: 0 <= k < i ==> McbAt(before, bs, k)
    ensures OnlyMcbs(was, after, bs) && forall k :: 0 <= k < i + 1 ==> McbAt(after, bs, k)
  {
    McbIsWritten(before, bs[i], i + 1 == |bs|);
    hide Fill, McbBytes, Tiles;
    forall k | 0 <= k < i ensures McbAt(after, bs, k) {
      InOrder(bs, ARENA_MCB, HEAP_END, k, i);
      assert McbAt(before, bs, k);
      ParagraphKept(before, after, bs[k].seg);
    }
  }

  lemma ParagraphKept(m: Ram, m': Ram, seg: int)
    requires 0 <= seg < M16
    requires forall x :: 16 * seg <= x < 16 * seg + 16 ==> m'[x] == m[x]
    ensures m'[16 * seg..16 * seg + 16] == m[16 * seg..16 * seg + 16]
  {
  }

  /** The blocks from `i` up to `k` replaced by `mid`: every change the calls make. */
  function Splice(bs: seq<Block>, i: nat, k: nat, mid: seq<Block>): seq<Block>
    requires i < k <= |bs|
  {
    bs[..i] + mid + bs[k..]
  }

  lemma SpliceIs(bs: seq<Block>, i: nat, k: nat, mid: seq<Block>)
    requires Tiles(bs, ARENA_MCB, HEAP_END) && i < k <= |bs|
    requires Tiles(mid, bs[i].seg, End(bs[k - 1]))
    ensures Tiles(Splice(bs, i, k, mid), ARENA_MCB, HEAP_END)
    ensures Used(Splice(bs, i, k, mid)) == Used(bs) - Used(bs[i..k]) + Used(mid)
  {
    SpliceTiles(bs, i, k, mid);
    SpliceUsed(bs, i, k, mid);
  }

  lemma SpliceTiles(bs: seq<Block>, i: nat, k: nat, mid: seq<Block>)
    requires Tiles(bs, ARENA_MCB, HEAP_END) && i < k <= |bs|
    requires Tiles(mid, bs[i].seg, End(bs[k - 1]))
    ensures Tiles(Splice(bs, i, k, mid), ARENA_MCB, HEAP_END)
  {
    var cs := Splice(bs, i, k, mid);
    forall j | 0 < j < |cs| ensures cs[j].seg == End(cs[j - 1]) {
      if j >= i + |mid| { assert cs[j] == bs[j - |mid| + k - i]; }
      if j > i + |mid| { assert cs[j - 1] == bs[j - 1 - |mid| + k - i]; }
    }
    if k < |bs| { assert cs[|cs| - 1] == bs[|bs| - 1]; }
  }

  lemma UsedConcat(a: seq<Block>, b: seq<Block>)
    ensures Used(a + b) == Used(a) + Used(b)
  {
  }

  /** No block of the middle is also before or after it. */
  lemma PartsApart(bs: seq<Block>, i: nat, k: nat)
    requires Tiles(bs, ARENA_MCB, HEAP_END) && i < k <= |bs|
    ensures Used(bs[i..k]) !! Used(bs[..i]) && Used(bs[i..k]) !! Used(bs[k..])
  {
    forall b | b in bs[i..k] ensures b !in bs[..i] && b !in bs[k..] {
      var n :| i <= n < k && bs[n] == b;
      forall j | 0 <= j < |bs| && (j < i || k <= j) ensures bs[j] != b {
        if bs[j].seg == b.seg { SameSeg(bs, ARENA_MCB, HEAP_END, j, n); }
      }
    }
  }

  lemma SpliceUsed(bs: seq<Block>, i: nat, k: nat, mid: seq<Block>)
    requires Tiles(bs, ARENA_MCB, HEAP_END) && i < k <= |bs|
    ensures Used(Splice(bs, i, k, mid)) == Used(bs) - Used(bs[i..k]) + Used(mid)
  {
    PartsApart(bs, i, k);
    hide Tiles, Used;
    UsedConcat(bs[..i], mid);
    UsedConcat(bs[..i] + mid, bs[k..]);
    UsedConcat(bs[..i], bs[i..k]);
    UsedConcat(bs[..i] + bs[i..k], bs[k..]);
    assert bs == bs[..i] + bs[i..k] + bs[k..];
    SwapPart(Used(bs[..i]), Used(bs[i..k]), Used(bs[k..]), Used(mid));
  }

  lemma SwapPart(front: set<Block>, part: set<Block>, back: set<Block>, other: set<Block>)
    requires part !! front && part !! back
    ensures front + other + back == front + part + back - part + other
  {
  }

  ghost predicate NoFreeUpTo(bs: seq<Block>, i: int) {
    forall k :: 0 < k < i && k < |bs| ==> bs[k - 1].used || bs[k].used
  }

  /** Block `i` merged into the one below it. */
  function Merged(bs: seq<Block>, i: nat): seq<Block>
    requires 0 < i < |bs| && bs[i - 1].paras + 1 + bs[i].paras < M16
  {
    Splice(bs, i - 1, i + 1, [bs[i - 1].(paras := bs[i - 1].paras + 1 + bs[i].paras)])
  }

  lemma MergeTiles(bs: seq<Block>, i: nat)
    requires Tiles(bs, ARENA_MCB, HEAP_END) && 0 < i < |bs| && !bs[i - 1].used && !bs[i].used
    ensures bs[i - 1].paras + 1 + bs[i].paras < M16
    ensures NoFreeUpTo(bs, i) ==> NoFreeUpTo(Merged(bs, i), i)
    ensures Tiles(Merged(bs, i), ARENA_MCB, HEAP_END)
    ensures Used(Merged(bs, i)) == Used(bs)
  {
    InRange(bs, ARENA_MCB, HEAP_END, i);
    InRange(bs, ARENA_MCB, HEAP_END, i - 1);
    SpliceIs(bs, i - 1, i + 1, [bs[i - 1].(paras := bs[i - 1].paras + 1 + bs[i].paras)]);
  }

  lemma OnlyContainer(bs: seq<Block>, seg: int)
    requires Tiles(bs, ARENA_MCB, HEAP_END)
    ensures forall k :: 0 <= k < |bs| && Within(bs[k], seg) ==> k == Container(bs, seg)
  {
    forall k | 0 <= k < |bs| && Within(bs[k], seg) ensures k == Container(bs, seg) {
      WithinOne(bs, Container(bs, seg), k, seg);
    }
  }

  lemma WithinOne(bs: seq<Block>, i: int, k: int, seg: int)
    requires Tiles(bs, ARENA_MCB, HEAP_END) && 0 <= i < |bs| && 0 <= k < |bs|
    requires Within(bs[i], seg) && Within(bs[k], seg)
    ensures i == k
  {
    if i < k { InOrder(bs, ARENA_MCB, HEAP_END, i, k); }
    if k < i { InOrder(bs, ARENA_MCB, HEAP_END, k, i); }
  }

  lemma SplitFree(bs: seq<Block>, i: nat, paras: Word)
    requires Tiles(bs, ARENA_MCB, HEAP_END) && i < |bs| && End(bs[i]) <= HEAP_END
    requires !bs[i].used && paras < bs[i].paras
    ensures var cs := SplitAt(bs, i, paras);
            && Tiles(cs, ARENA_MCB, HEAP_END) && Used(cs) == Used(bs) && |cs| == |bs| + 1
            && cs[i] == bs[i].(paras := paras)
            && cs[i + 1].seg == bs[i].seg + 1 + paras && End(cs[i + 1]) == End(bs[i]) && !cs[i + 1].used
  {
    SpliceIs(bs, i, i + 1, [bs[i].(paras := paras), Rest(bs[i], paras)]);
  }

  /** The front `paras` of block `i` marked used, what is left of it free. */
  function Taken(bs: seq<Block>, i: nat, paras: Word, owner: Word): seq<Block>
    requires i < |bs| && End(bs[i]) <= HEAP_END
  {
    var b := bs[i].(used := true, owner := owner);
    if b.paras > paras then Splice(bs, i, i + 1, [b.(paras := paras), Rest(b, paras)]) else Splice(bs, i, i + 1, [b])
  }

  lemma TakenIs(bs: seq<Block>, i: nat, paras: Word, owner: Word)
    requires Tiles(bs, ARENA_MCB, HEAP_END) && i < |bs| && End(bs[i]) <= HEAP_END && !bs[i].used
    ensures Tiles(Taken(bs, i, paras, owner), ARENA_MCB, HEAP_END)
    ensures Used(Taken(bs, i, paras, owner))
            == Used(bs) + {Block(bs[i].seg, if paras <= bs[i].paras then paras else bs[i].paras, owner, true)}
  {
    var b := bs[i].(used := true, owner := owner);
    UsedOfTwo(bs[i], bs[i]);
    assert bs[i..i + 1] == [bs[i]];
    if b.paras > paras {
      UsedOfTwo(b.(paras := paras), Rest(b, paras));
      TilesTwo(b, paras);
      hide Tiles, Used;
      SpliceIs(bs, i, i + 1, [b.(paras := paras), Rest(b, paras)]);
    } else {
      UsedOfTwo(b, b);
      assert Tiles([b], bs[i].seg, End(bs[i]));
      hide Tiles, Used;
      SpliceIs(bs, i, i + 1, [b]);
    }
  }

  lemma TilesTwo(b: Block, paras: Word)
    requires paras < b.paras && End(b) <= HEAP_END
    ensures Tiles([b.(paras := paras), Rest(b, paras)], b.seg, End(b))
  {
  }

  lemma UsedOfTwo(b: Block, c: Block)
    ensures Used([b]) == if b.used then {b} else {}
    ensures !c.used ==> Used([b, c]) == Used([b])
  {
  }

  lemma ClaimIsNormal(bs: seq<Block>, k: nat, paras: Word, owner: Word)
    requires Normal(bs) && k < |bs| && !bs[k].used && 0 < paras <= bs[k].paras && End(bs[k]) <= HEAP_END
    ensures Normal(Taken(bs, k, paras, owner))
    ensures Used(Taken(bs, k, paras, owner)) == Used(bs) + {Block(bs[k].seg, paras, owner, true)}
    ensures forall b :: b in Used(bs) ==> b.seg != bs[k].seg
  {
    TakenIs(bs, k, paras, owner);
    var ds := Taken(bs, k, paras, owner);
    forall j | 0 < j < |ds| ensures ds[j - 1].used || ds[j].used {
      if |ds| > |bs| && j > k + 1 { assert ds[j] == bs[j - 1]; }
      if |ds| > |bs| && j > k + 2 { assert ds[j - 1] == bs[j - 2]; }
    }
    forall b | b in Used(bs) ensures b.seg != bs[k].seg {
      var j :| 0 <= j < |bs| && bs[j] == b;
      if b.seg == bs[k].seg { SameSeg(bs, ARENA_MCB, HEAP_END, j, k); }
    }
  }

  /** Block `i`, after swallowing the blocks up to `k`, cut to `paras` of the `avail` it then has. */
  function Resized(bs: seq<Block>, i: nat, k: nat, avail: int, paras: Word): seq<Block>
    requires i < k <= |bs| && paras <= avail && bs[i].seg + 1 + avail <= HEAP_END
  {
    var b := bs[i].(paras := avail);
    if avail > paras then Splice(bs, i, k, [b.(paras := paras), Rest(b, paras)]) else Splice(bs, i, k, [b])
  }

  /** Shrinking, or growing over the free block above, changes the one block's size only. */
  lemma ResizedIs(bs: seq<Block>, i: nat, k: nat, avail: int, paras: Word)
    requires Normal(bs) && i < |bs|
    requires (k == i + 1 && avail == bs[i].paras) ||
             (k == i + 2 <= |bs| && !bs[i + 1].used && avail == Room(bs, i))
    requires paras <= avail
    ensures bs[i].seg + 1 + avail <= HEAP_END
    ensures Tiles(Resized(bs, i, k, avail, paras), ARENA_MCB, HEAP_END)
    ensures Used(Resized(bs, i, k, avail, paras)) == UsedResized(bs, i, paras)
  {
    InRange(bs, ARENA_MCB, HEAP_END, k - 1);
    UsedBetween(bs, i, k);
    var b := bs[i].(paras := avail);
    if avail > paras {
      UsedOfTwo(b.(paras := paras), Rest(b, paras));
      SpliceIs(bs, i, k, [b.(paras := paras), Rest(b, paras)]);
    } else {
      UsedOfTwo(b, b);
      SpliceIs(bs, i, k, [b]);
    }
  }

  lemma ResizedInTwo(bs: seq<Block>, i: nat, k: nat, avail: Word, paras: Word)
    requires i < k <= |bs| && paras < avail && bs[i].seg + 1 + avail <= HEAP_END
    ensures SplitAt(Resized(bs, i, k, avail, avail), i, paras) == Resized(bs, i, k, avail, paras)
  {
    var cs := Resized(bs, i, k, avail, avail);
    assert cs[..i] == bs[..i] && cs[i + 1..] == bs[k..];
  }

  lemma UsedBetween(bs: seq<Block>, i: nat, k: nat)
    requires Normal(bs) && i < |bs| && (k == i + 1 || (k == i + 2 <= |bs| && !bs[i + 1].used))
    ensures Used(bs[i..k]) == if bs[i].used then {bs[i]} else {}
  {
    if k == i + 1 { assert bs[i..k] == [bs[i]]; } else { assert bs[i..k] == [bs[i], bs[i + 1]]; }
  }

  /** A block claimed on the guest's word was not there before, and is what `Find` then finds. */
  lemma NotFoundBefore(was: seq<Block>, bs: seq<Block>, seg: Word, owner: Word)
    requires Normal(was) && Normal(bs) && Position(was, seg) == |was| && Position(bs, seg) < |bs|
    requires Container(was, seg) < |was| && !was[Container(was, seg)].used ==>
               seg > 0 && Used(bs) == Used(was) + {Block(seg - 1, 1, owner, true)}
    requires Container(was, seg) == |was| || was[Container(was, seg)].used ==> bs == was
    ensures Container(was, seg) < |was| && !was[Container(was, seg)].used
    ensures seg > 0 && bs[Position(bs, seg)] == Block(seg - 1, 1, owner, true)
  {
    var i := Position(bs, seg);
    assert Block(seg - 1, 1, owner, true) in bs;
    var j :| 0 <= j < |bs| && bs[j] == Block(seg - 1, 1, owner, true);
    SameSeg(bs, ARENA_MCB, HEAP_END, i, j);
  }

  /** The room such a block has is what was left of the free block it was claimed in. */
  lemma RoomAfterClaim(was: seq<Block>, bs: seq<Block>, k: nat, i: nat, seg: Word, owner: Word)
    requires Normal(was) && k < |was| && !was[k].used && Within(was[k], seg)
    requires Normal(bs) && i < |bs| && seg > 0 && bs[i] == Block(seg - 1, 1, owner, true)
    requires Used(bs) == Used(was) + {bs[i]}
    ensures Room(bs, i) == End(was[k]) - seg
  {
    if i + 1 == |bs| {
      InRange(was, ARENA_MCB, HEAP_END, k);
    } else if bs[i + 1].used {
      UsedAbove(was, bs, k, i, i + 1);
    } else {
      InRange(was, ARENA_MCB, HEAP_END, k);
      if i + 2 < |bs| {
        assert bs[i + 1].used || bs[i + 2].used;
        UsedAbove(was, bs, k, i, i + 2);
      }
      if k + 1 < |was| {
        assert was[k].used || was[k + 1].used;
        assert was[k + 1] in Used(bs);
        var j :| 0 <= j < |bs| && bs[j] == was[k + 1];
        if j < i { InOrder(bs, ARENA_MCB, HEAP_END, j, i); }
        InOrder(bs, ARENA_MCB, HEAP_END, i + 1, j);
      } else {
        InRange(bs, ARENA_MCB, HEAP_END, i + 1);
      }
    }
  }

  ghost predicate Starts(bs: seq<Block>, seg: int) { exists k :: 0 <= k < |bs| && bs[k].seg == seg }

  /** Resizing one block takes no MCB away but, perhaps, the one just above it. */
  lemma SegsKept(bs: seq<Block>, cs: seq<Block>, i: nat, b: Block)
    requires Normal(bs) && Normal(cs) && i < |bs| && bs[i].used && b.seg == bs[i].seg
    requires Used(cs) == Used(bs) || Used(cs) == Used(bs) - {bs[i]} + {b}
    ensures forall j :: 0 <= j < |bs| && j != i + 1 ==> Starts(cs, bs[j].seg)
  {
    forall j | 0 <= j < |bs| && j != i + 1 ensures Starts(cs, bs[j].seg) {
      if j == i {
        assert bs[i] in Used(cs) || b in Used(cs);
      } else if bs[j].used {
        UsedStays(bs, cs, i, j, b);
      } else if j == 0 {
        assert cs[0].seg == bs[0].seg;
      } else {
        assert bs[j - 1].used;
        UsedStays(bs, cs, i, j - 1, b);
        var n :| 0 <= n < |cs| && cs[n] == bs[j - 1];
        InRange(bs, ARENA_MCB, HEAP_END, j);
        assert cs[n + 1].seg == bs[j].seg;
      }
    }
  }

  lemma UsedStays(bs: seq<Block>, cs: seq<Block>, i: nat, j: nat, b: Block)
    requires Normal(bs) && i < |bs| && j < |bs| && j != i && bs[j].used
    requires Used(cs) == Used(bs) || Used(cs) == Used(bs) - {bs[i]} + {b}
    ensures bs[j] in cs
  {
    if bs[j].seg == bs[i].seg { SameSeg(bs, ARENA_MCB, HEAP_END, i, j); }
    assert bs[j] in Used(bs);
    assert bs[j] in Used(cs);
  }

  lemma McbsInTwoSteps(m: Ram, m1: Ram, m2: Ram, bs: seq<Block>, cs: seq<Block>, i: nat)
    requires Normal(bs) && i < |bs| && bs[i].paras == 1
    requires OnlyMcbs(m, m1, bs) && OnlyMcbs(m1, m2, cs)
    requires forall j :: 0 <= j < |bs| && j != i + 1 ==> Starts(cs, bs[j].seg)
    ensures OnlyMcbsOr(m, m2, cs, bs[i].seg + 2)
  {
    forall x | 0 <= x < M32 && (forall k :: 0 <= k < |cs| ==> x / 16 != cs[k].seg) && x / 16 != bs[i].seg + 2
      ensures m2[x] == m[x]
    {
      forall j | 0 <= j < |bs| ensures x / 16 != bs[j].seg {
        if j != i + 1 { assert Starts(cs, bs[j].seg); }
      }
    }
  }

  lemma AfterAdopting(m: Ram, m1: Ram, m2: Ram, bs: seq<Block>, cs: seq<Block>, i: nat, paras: Word, ok: bool)
    requires Normal(bs) && Normal(cs) && i < |bs| && bs[i].used && bs[i].paras == 1
    requires OnlyMcbs(m, m1, bs) && Published(m1, bs) && OnlyMcbs(m1, m2, cs)
    requires Used(cs) == if ok then UsedResized(bs, i, paras) else Used(bs)
    requires ok ==> paras <= Room(bs, i)
    ensures OnlyMcbsOr(m, m2, cs, bs[i].seg + 2)
    ensures var p, scars := bs[i].seg + 2, ok && paras != 1 && Room(bs, i) > 1;
            && (!scars ==> OnlyMcbs(m, m2, cs))
            && (scars ==> !Starts(cs, p) && Get8(m2, 16 * p) in {SIG_LINK, SIG_LAST})
  {
    SegsKept(bs, cs, i, bs[i].(paras := paras));
    McbsInTwoSteps(m, m1, m2, bs, cs, i);
    if ok && paras != 1 && Room(bs, i) > 1 {
      TailSignature(m1, bs, i);
      NoMcbAbove(bs, cs, i, paras);
      InRange(bs, ARENA_MCB, HEAP_END, i + 1);
      assert (16 * (bs[i].seg + 2)) / 16 == bs[i].seg + 2;
    } else {
      McbAboveStays(bs, cs, i, paras, ok);
    }
  }

  /** Otherwise the MCB just above is still one, or never was. */
  lemma McbAboveStays(bs: seq<Block>, cs: seq<Block>, i: nat, paras: Word, ok: bool)
    requires Normal(bs) && Normal(cs) && i < |bs| && bs[i].used && bs[i].paras == 1
    requires Used(cs) == if ok then UsedResized(bs, i, paras) else Used(bs)
    requires !ok || paras == 1 || Room(bs, i) <= 1
    ensures i + 1 < |bs| ==> Starts(cs, bs[i + 1].seg)
  {
    if i + 1 < |bs| {
      if bs[i + 1].used {
        UsedStays(bs, cs, i, i + 1, bs[i].(paras := paras));
      } else {
        assert bs[i].(paras := 1) == bs[i];
        assert Used(cs) == Used(bs);
        UsedDecides(bs, cs, ARENA_MCB, HEAP_END);
        assert View(cs)[i + 1] == View(bs)[i + 1];
        assert cs[i + 1].seg == bs[i + 1].seg;
      }
    }
  }

  /** Once the claimed block has any other size, no block starts where its tail did. */
  lemma NoMcbAbove(bs: seq<Block>, cs: seq<Block>, i: nat, paras: Word)
    requires Normal(bs) && Normal(cs) && i < |bs| && bs[i].used && bs[i].paras == 1 && Room(bs, i) > 1
    requires Used(cs) == UsedResized(bs, i, paras) && paras != 1
    ensures !Starts(cs, bs[i].seg + 2)
  {
    var b, p := bs[i].(paras := paras), bs[i].seg + 2;
    assert b in Used(cs);
    var n :| 0 <= n < |cs| && cs[n] == b;
    InRange(bs, ARENA_MCB, HEAP_END, i + 1);
    if paras == 0 {
      FreeAt(bs, cs, i, n + 1, b);
      if n + 2 < |cs| && cs[n + 2].seg == p { FreeAt(bs, cs, i, n + 2, b); }
      assert End(cs[n + 1]) > p;
    }
    forall k | 0 <= k < |cs| ensures cs[k].seg != p {
      if k < n { InOrder(cs, ARENA_MCB, HEAP_END, k, n); }
      if n < k { InOrder(cs, ARENA_MCB, HEAP_END, n, k); }
      if paras == 0 && n + 1 < k { InOrder(cs, ARENA_MCB, HEAP_END, n + 1, k); }
    }
  }

  /** A block that starts inside the claimed one and its free tail is not one of those in use. */
  lemma FreeAt(bs: seq<Block>, cs: seq<Block>, i: nat, k: nat, b: Block)
    requires Normal(bs) && i + 1 < |bs| && bs[i].used && !bs[i + 1].used && k < |cs|
    requires bs[i].seg < cs[k].seg <= bs[i + 1].seg && b.seg == bs[i].seg
    requires Used(cs) == Used(bs) - {bs[i]} + {b}
    ensures !cs[k].used
  {
    if cs[k].used {
      assert cs[k] in Used(cs) && cs[k] in Used(bs);
      var j :| 0 <= j < |bs| && bs[j] == cs[k];
      if j < i { InOrder(bs, ARENA_MCB, HEAP_END, j, i); }
      if i + 1 < j { InOrder(bs, ARENA_MCB, HEAP_END, i + 1, j); }
    }
  }

  lemma TailSignature(m: Ram, bs: seq<Block>, i: nat)
    requires Normal(bs) && Published(m, bs) && i < |bs| && bs[i].used && bs[i].paras == 1 && Room(bs, i) > 1
    ensures Get8(m, 16 * (bs[i].seg + 2)) in {SIG_LINK, SIG_LAST}
  {
    InRange(bs, ARENA_MCB, HEAP_END, i + 1);
    assert McbAt(m, bs, i + 1);
    Cells(m, 16 * bs[i + 1].seg, McbBytes(bs[i + 1], i + 1 == |bs| - 1));
  }

  /** AH=4Ah, on whatever segment: a block in use before and after keeps its bytes. */
  lemma ResizeKeepsData(m: Ram, m': Ram, was: seq<Block>, bs: seq<Block>, seg: int, b: Block, x: int)
    requires Normal(was) && Normal(bs) && OnlyMcbsOr(m, m', bs, seg + 1)
    requires !Adopts(was, seg) ==> OnlyMcbs(m, m', bs)
    requires b in Used(was) && b in Used(bs) && 16 * (b.seg + 1) <= x < 16 * End(b)
    ensures 0 <= x < M32 && m'[x] == m[x]
  {
    if !Adopts(was, seg) {
      DataKept(m, m', bs, b, x);
    } else {
      ClaimedApart(was, seg, b);
      var i :| 0 <= i < |bs| && bs[i] == b;
      InRange(bs, ARENA_MCB, HEAP_END, i);
      forall k | 0 <= k < |bs| ensures x / 16 != bs[k].seg {
        if k < i { InOrder(bs, ARENA_MCB, HEAP_END, k, i); } else if i < k { InOrder(bs, ARENA_MCB, HEAP_END, i, k); }
      }
    }
  }

  /** The paragraph after an adopted segment is nobody's data. */
  lemma ClaimedApart(was: seq<Block>, seg: int, b: Block)
    requires Normal(was) && Adopts(was, seg) && b in Used(was)
    ensures !(b.seg + 1 <= seg + 1 < End(b))
  {
    var k := Container(was, seg);
    var j :| 0 <= j < |was| && was[j] == b;
    if j < k { InOrder(was, ARENA_MCB, HEAP_END, j, k); } else if k < j { InOrder(was, ARENA_MCB, HEAP_END, k, j); }
  }

  /** A used block above the claimed one begins where the free block it was claimed in ended, or later. */
  lemma UsedAbove(was: seq<Block>, bs: seq<Block>, k: nat, i: nat, j: nat)
    requires Normal(was) && k < |was| && !was[k].used
    requires Normal(bs) && i < j < |bs| && bs[j].used && Used(bs) == Used(was) + {bs[i]}
    requires was[k].seg <= bs[i].seg
    ensures End(was[k]) <= bs[j].seg
  {
    InOrder(bs, ARENA_MCB, HEAP_END, i, j);
    assert bs[j] in Used(bs) && bs[j] != bs[i];
    var n :| 0 <= n < |was| && was[n] == bs[j];
    if n < k { InOrder(was, ARENA_MCB, HEAP_END, n, k); } else { InOrder(was, ARENA_MCB, HEAP_END, k, n); }
  }
}
