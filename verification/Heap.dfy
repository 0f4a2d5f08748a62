/**
 The extended memory that INT 31h functions 0501h and 0502h hand out (`alloc_mem` and
 `free_mem` in `src/dpmi.cpp`): an unordered list of blocks in which a block absorbed by
 another stays behind with length zero.
 */
module ExtendedMemory {
  import opened Widths

  const PAGE := 0x1000
  const HEAP_BASE := 0x0020_0000
  const MEMORY_SIZE := 0x0400_0000

  datatype Block = Block(base: Dword, len: Dword, used: bool)

  predicate Holds(b: Block, x: int) { b.base <= x < b.base + b.len }

  /** A block in use is never empty, and what is not empty is whole pages below `next`. */
  predicate Sound(b: Block, next: int) {
    && (b.used ==> b.len > 0)
    && (b.len > 0 ==> b.base % PAGE == 0 && b.len % PAGE == 0 && HEAP_BASE <= b.base && b.base + b.len <= next)
  }

  predicate Disjoint(a: Block, b: Block) {
    a.len > 0 && b.len > 0 ==> a.base + a.len <= b.base || b.base + b.len <= a.base
  }

  ghost predicate Covers(bs: seq<Block>, x: int) { exists i :: 0 <= i < |bs| && Holds(bs[i], x) }

  /** The non-empty blocks cut [HEAP_BASE, next) up exactly. */
  ghost predicate Partition(bs: seq<Block>, next: int) {
    && HEAP_BASE <= next <= MEMORY_SIZE && next % PAGE == 0
    && (forall i :: 0 <= i < |bs| ==> Sound(bs[i], next))
    && (forall i, j :: 0 <= i < j < |bs| ==> Disjoint(bs[i], bs[j]))
    && (forall x :: HEAP_BASE <= x < next ==> Covers(bs, x))
  }

  /** The address belongs to a client. */
  ghost predicate InUse(bs: seq<Block>, x: int) { exists i :: 0 <= i < |bs| && bs[i].used && Holds(bs[i], x) }

  /** The length actually reserved. */
  function Rounded(len: Dword): (l: Dword)
  {
    var l := U32(len + 0xFFF) / PAGE * PAGE;
    if l == 0 then PAGE else l
  }

  /** Whole pages always; and as much as was asked for exactly up to 0xFFFFF000. */
  lemma RoundedCovers(len: Dword)
    ensures Rounded(len) > 0 && Rounded(len) % PAGE == 0
    ensures Rounded(len) >= len <==> len <= 0xFFFF_F000
    ensures 0 < len <= 0xFFFF_F000 ==> Rounded(len) < len + PAGE
  {
    var x := U32(len + 0xFFF);
    assert x == PAGE * (x / PAGE) + x % PAGE;
  }

  predicate Fits(b: Block, l: int) { !b.used && b.len >= l }

  /** Block `k` is the first that fits. */
  predicate FirstFit(bs: seq<Block>, l: int, k: int) {
    0 <= k < |bs| && Fits(bs[k], l) && forall j :: 0 <= j < k ==> !Fits(bs[j], l)
  }

  /** A request of `l` bytes can be met: by a free block, or above all of them. */
  ghost predicate Grants(bs: seq<Block>, next: int, l: int) {
    (exists i :: 0 <= i < |bs| && Fits(bs[i], l)) || next + l <= MEMORY_SIZE
  }

  // ---- what each edit of the list keeps ----------------------------------------------

  /** The free block `i` becomes a block in use of `l` bytes and, if there is more, a free rest. */
  function Carved(bs: seq<Block>, i: nat, l: Dword): seq<Block>
    requires i < |bs| && Fits(bs[i], l) && bs[i].base + bs[i].len <= MEMORY_SIZE
  {
    var b := bs[i];
    bs[i := Block(b.base, l, true)] + if b.len > l then [Block(b.base + l, b.len - l, false)] else []
  }

  lemma CarvedKeeps(bs: seq<Block>, next: int, i: nat, l: Dword)
    requires Partition(bs, next) && i < |bs| && Fits(bs[i], l) && l > 0 && l % PAGE == 0
    ensures bs[i].base + bs[i].len <= MEMORY_SIZE && Partition(Carved(bs, i, l), next)
    ensures forall x :: InUse(Carved(bs, i, l), x) <==> InUse(bs, x) || bs[i].base <= x < bs[i].base + l
    ensures forall x :: bs[i].base <= x < bs[i].base + l ==> !InUse(bs, x)
  {
    assert Sound(bs[i], next);
    var c := Carved(bs, i, l);
    CarvedPieces(bs, next, i, l);
    forall x | HEAP_BASE <= x < next ensures Covers(c, x) {
      assert Covers(bs, x);
      var k :| 0 <= k < |bs| && Holds(bs[k], x);
      if k == i { assert Holds(c[i], x) || Holds(c[|bs|], x); } else { assert Holds(c[k], x); }
    }
    forall x ensures InUse(c, x) <==> InUse(bs, x) || bs[i].base <= x < bs[i].base + l {
      if InUse(bs, x) { var k :| 0 <= k < |bs| && bs[k].used && Holds(bs[k], x); assert c[k] == bs[k]; }
      if bs[i].base <= x < bs[i].base + l { assert c[i].used && Holds(c[i], x); }
      if InUse(c, x) {
        var k :| 0 <= k < |c| && c[k].used && Holds(c[k], x);
        assert k < |bs| && (k == i || c[k] == bs[k]);
      }
    }
    forall x | bs[i].base <= x < bs[i].base + l ensures !InUse(bs, x) { OneHolder(bs, next, i, x); }
  }

  /** No address of a block that is not in use is in use. */
  lemma OneHolder(bs: seq<Block>, next: int, i: nat, x: int)
    requires Partition(bs, next) && i < |bs| && !bs[i].used && Holds(bs[i], x)
    ensures !InUse(bs, x)
  {
    forall k | 0 <= k < |bs| && bs[k].used ensures !Holds(bs[k], x) {
      if k < i { assert Disjoint(bs[k], bs[i]); } else if i < k { assert Disjoint(bs[i], bs[k]); }
    }
  }

  lemma CarvedPieces(bs: seq<Block>, next: int, i: nat, l: Dword)
    requires Partition(bs, next) && i < |bs| && Fits(bs[i], l) && l > 0 && l % PAGE == 0
    ensures bs[i].base + bs[i].len <= MEMORY_SIZE
    ensures var c := Carved(bs, i, l);
            && (forall k :: 0 <= k < |c| ==> Sound(c[k], next))
            && (forall j, k :: 0 <= j < k < |c| ==> Disjoint(c[j], c[k]))
  {
    assert Sound(bs[i], next);
    var c := Carved(bs, i, l);
    forall k | 0 <= k < |c| ensures Sound(c[k], next) {
      if k < |bs| && k != i { assert Sound(bs[k], next); }
    }
    forall j, k | 0 <= j < k < |c| ensures Disjoint(c[j], c[k]) {
      var k0 := if k < |bs| then k else i;
      if j != k0 { assert Disjoint(bs[if j < k0 then j else k0], bs[if j < k0 then k0 else j]); }
    }
  }

  lemma GrownKeeps(bs: seq<Block>, next: int, l: Dword)
    requires Partition(bs, next) && l > 0 && l % PAGE == 0 && next + l <= MEMORY_SIZE
    ensures Partition(bs + [Block(next, l, true)], next + l)
    ensures forall x :: InUse(bs + [Block(next, l, true)], x) <==> InUse(bs, x) || next <= x < next + l
    ensures forall x :: next <= x < next + l ==> !InUse(bs, x)
  {
    var c := bs + [Block(next, l, true)];
    forall k | 0 <= k < |c| ensures Sound(c[k], next + l) { if k < |bs| { assert Sound(bs[k], next); } }
    forall j, k | 0 <= j < k < |c| ensures Disjoint(c[j], c[k]) {
      assert Sound(bs[j], next);
      if k < |bs| { assert Disjoint(bs[j], bs[k]); }
    }
    forall x | HEAP_BASE <= x < next + l ensures Covers(c, x) {
      if x < next { assert Covers(bs, x); var k :| 0 <= k < |bs| && Holds(bs[k], x); assert Holds(c[k], x); }
      else { assert Holds(c[|bs|], x); }
    }
    forall x ensures InUse(c, x) <==> InUse(bs, x) || next <= x < next + l {
      if InUse(bs, x) { var k :| 0 <= k < |bs| && bs[k].used && Holds(bs[k], x); assert c[k] == bs[k]; }
      if next <= x < next + l { assert c[|bs|].used && Holds(c[|bs|], x); }
      if InUse(c, x) { var k :| 0 <= k < |c| && c[k].used && Holds(c[k], x); assert k == |bs| || c[k] == bs[k]; }
    }
    forall x | next <= x < next + l ensures !InUse(bs, x) { assert forall k :: 0 <= k < |bs| ==> Sound(bs[k], next); }
  }

  function Released(bs: seq<Block>, f: nat): seq<Block>
    requires f < |bs|
  {
    bs[f := bs[f].(used := false)]
  }

  lemma ReleasedKeeps(bs: seq<Block>, next: int, f: nat)
    requires Partition(bs, next) && f < |bs| && bs[f].used
    ensures Partition(Released(bs, f), next)
    ensures forall x :: InUse(Released(bs, f), x) <==> InUse(bs, x) && !Holds(bs[f], x)
  {
    var c := Released(bs, f);
    forall k | 0 <= k < |c| ensures Sound(c[k], next) { assert Sound(bs[k], next); }
    forall j, k | 0 <= j < k < |c| ensures Disjoint(c[j], c[k]) { assert Disjoint(bs[j], bs[k]); }
    forall x | HEAP_BASE <= x < next ensures Covers(c, x) {
      assert Covers(bs, x);
      var k :| 0 <= k < |bs| && Holds(bs[k], x);
      assert Holds(c[k], x);
    }
    forall x ensures InUse(c, x) <==> InUse(bs, x) && !Holds(bs[f], x) {
      if InUse(c, x) {
        var k :| 0 <= k < |c| && c[k].used && Holds(c[k], x);
        assert k != f && c[k] == bs[k] && Disjoint(bs[if k < f then k else f], bs[if k < f then f else k]);
      }
      if InUse(bs, x) { var k :| 0 <= k < |bs| && bs[k].used && Holds(bs[k], x); assert k != f ==> c[k] == bs[k]; }
    }
  }

  /** Block `i` is free and starts where block `f` ends. */
  predicate Follows(bs: seq<Block>, f: nat, i: nat)
    requires f < |bs| && i < |bs|
  {
    i != f && !bs[i].used && bs[i].len > 0 && bs[i].base == bs[f].base + bs[f].len
  }

  function Absorbed(bs: seq<Block>, f: nat, i: nat): seq<Block>
    requires f < |bs| && i < |bs| && bs[f].len + bs[i].len < M32
  {
    bs[f := bs[f].(len := bs[f].len + bs[i].len)][i := bs[i].(len := 0)]
  }

  lemma AbsorbedKeeps(bs: seq<Block>, next: int, f: nat, i: nat)
    requires Partition(bs, next) && f < |bs| && i < |bs| && !bs[f].used && bs[f].len > 0 && Follows(bs, f, i)
    ensures bs[f].len + bs[i].len < M32
    ensures Partition(Absorbed(bs, f, i), next)
    ensures forall x :: InUse(Absorbed(bs, f, i), x) <==> InUse(bs, x)
    ensures NonEmpty(Absorbed(bs, f, i)) < NonEmpty(bs)
  {
    assert Sound(bs[f], next) && Sound(bs[i], next);
    var c := Absorbed(bs, f, i);
    AbsorbedPieces(bs, next, f, i);
    forall x | HEAP_BASE <= x < next ensures Covers(c, x) {
      assert Covers(bs, x);
      var k :| 0 <= k < |bs| && Holds(bs[k], x);
      if k == i { assert Holds(c[f], x); } else { assert Holds(c[k], x); }
    }
    forall x ensures InUse(c, x) <==> InUse(bs, x) {
      if InUse(bs, x) { var k :| 0 <= k < |bs| && bs[k].used && Holds(bs[k], x); assert c[k] == bs[k]; }
      if InUse(c, x) { var k :| 0 <= k < |c| && c[k].used && Holds(c[k], x); assert c[k] == bs[k]; }
    }
    Fewer(bs, bs[f := c[f]], f);
    Fewer(bs[f := c[f]], c, i);
  }

  lemma AbsorbedPieces(bs: seq<Block>, next: int, f: nat, i: nat)
    requires Partition(bs, next) && f < |bs| && i < |bs| && !bs[f].used && bs[f].len > 0 && Follows(bs, f, i)
    ensures bs[f].len + bs[i].len < M32
    ensures var c := Absorbed(bs, f, i);
            && (forall k :: 0 <= k < |c| ==> Sound(c[k], next))
            && (forall j, k :: 0 <= j < k < |c| ==> Disjoint(c[j], c[k]))
  {
    assert Sound(bs[f], next) && Sound(bs[i], next);
    var c := Absorbed(bs, f, i);
    forall k | 0 <= k < |c| ensures Sound(c[k], next) { assert Sound(bs[k], next); }
    forall j, k | 0 <= j < k < |c| ensures Disjoint(c[j], c[k]) {
      var o := if j == f then k else j;
      assert Disjoint(bs[j], bs[k]);
      if (j == f || k == f) && o != i { assert Disjoint(bs[if o < i then o else i], bs[if o < i then i else o]); }
    }
  }

  /** How many blocks have not been absorbed. */
  function NonEmpty(bs: seq<Block>): nat {
    if bs == [] then 0 else (if bs[0].len > 0 then 1 else 0) + NonEmpty(bs[1..])
  }

  lemma {:induction false} Fewer(bs: seq<Block>, c: seq<Block>, i: nat)
    requires |bs| == |c| && i < |bs| && c == bs[i := c[i]]
    ensures NonEmpty(c) == NonEmpty(bs) - (if bs[i].len > 0 then 1 else 0) + (if c[i].len > 0 then 1 else 0)
    decreases |bs|
  {
    if i == 0 {
      assert c[1..] == bs[1..];
    } else {
      assert c[1..] == bs[1..][i - 1 := c[i]];
      Fewer(bs[1..], c[1..], i - 1);
    }
  }

  /** 0500h reports what is left above every block. That is the largest request that will be
      met exactly when no free block is larger. */
  lemma ReportIsLargest(bs: seq<Block>, next: int)
    requires Partition(bs, next)
    ensures (forall l: int :: l > 0 && l % PAGE == 0 ==> (Grants(bs, next, l) <==> l <= MEMORY_SIZE - next))
            <==> (forall i :: 0 <= i < |bs| && !bs[i].used ==> bs[i].len <= MEMORY_SIZE - next)
  {
    if i :| 0 <= i < |bs| && !bs[i].used && bs[i].len > MEMORY_SIZE - next {
      assert Sound(bs[i], next) && Fits(bs[i], bs[i].len);
      assert Grants(bs, next, bs[i].len);
    }
  }

  class Heap {
    var blocks: seq<Block>
    var heapNext: nat

    ghost predicate Valid()
      reads this
    {
      Partition(blocks, heapNext)
    }

    constructor ()
      ensures Valid() && blocks == [] && heapNext == HEAP_BASE
    {
      blocks := [];
      heapNext := HEAP_BASE;
    }

    /** `alloc_mem`: zero is refusal. What it returns was nobody's, is now the caller's, and
        nothing else changes hands; a used block keeps its place in the list. */
    method AllocMem(request: Dword) returns (base: Dword)
      requires Valid()
      modifies this
      ensures Valid()
      ensures base == 0 <==> !Grants(old(blocks), old(heapNext), Rounded(request))
      ensures base == 0 ==> blocks == old(blocks) && heapNext == old(heapNext)
      ensures base != 0 ==>
                var l := Rounded(request);
                && HEAP_BASE <= base && base % PAGE == 0 && base + l <= heapNext
                && Block(base, l, true) in blocks
                && (forall x :: base <= x < base + l ==> !InUse(old(blocks), x))
                && (forall x :: InUse(blocks, x) <==> InUse(old(blocks), x) || base <= x < base + l)
      ensures base != 0 && base != old(heapNext) ==>
                exists k :: FirstFit(old(blocks), Rounded(request), k) && base == old(blocks)[k].base
      ensures base == old(heapNext) ==> forall k :: 0 <= k < |old(blocks)| ==> !Fits(old(blocks)[k], Rounded(request))
      ensures forall i :: 0 <= i < |old(blocks)| && old(blocks)[i].used ==> i < |blocks| && blocks[i] == old(blocks)[i]
      ensures heapNext == old(heapNext) <==>
                base == 0 || exists i :: 0 <= i < |old(blocks)| && Fits(old(blocks)[i], Rounded(request))
    {
      RoundedCovers(request);
      var len := U32(request + 0xFFF) / PAGE * PAGE;
      if len == 0 { len := PAGE; }
      for i := 0 to |blocks|
        invariant blocks == old(blocks) && heapNext == old(heapNext)
        invariant forall k :: 0 <= k < i ==> !Fits(blocks[k], len)
      {
        if blocks[i].used || blocks[i].len < len { continue; }
        CarvedKeeps(blocks, heapNext, i, len);
        assert Fits(blocks[i], len) && Sound(blocks[i], heapNext);
        var at, have := blocks[i].base, blocks[i].len;
        assert FirstFit(old(blocks), len, i);
        blocks := blocks[i := Block(at, len, true)];
        assert blocks[i] == Block(at, len, true);
        if have > len { blocks := blocks + [Block(at + len, have - len, false)]; }
        assert blocks == Carved(old(blocks), i, len);
        return at;
      }
      if heapNext + len > MEMORY_SIZE { return 0; }
      GrownKeeps(blocks, heapNext, len);
      base := heapNext;
      heapNext := heapNext + len;
      blocks := blocks + [Block(base, len, true)];
      assert blocks[|blocks| - 1] == Block(base, len, true);
    }

    /** `free_mem`: the block's addresses become free, every other used block stays as it is,
        and no free block is left starting where the freed one ends. */
    method FreeMem(base: Dword) returns (ok: bool)
      requires Valid()
      modifies this
      ensures Valid() && heapNext == old(heapNext) && |blocks| == |old(blocks)|
      ensures ok <==> exists i :: 0 <= i < |old(blocks)| && old(blocks)[i].used && old(blocks)[i].base == base
      ensures !ok ==> blocks == old(blocks)
      ensures ok ==> exists f :: 0 <= f < |blocks| && Freed(old(blocks), blocks, base, f)
    {
      var f := |blocks|;
      for i := 0 to |blocks|
        invariant f == |blocks| && forall k :: 0 <= k < i ==> !(blocks[k].used && blocks[k].base == base)
      {
        if blocks[i].used && blocks[i].base == base { f := i; break; }
      }
      if f == |blocks| { return false; }
      ReleasedKeeps(blocks, heapNext, f);
      blocks := blocks[f := blocks[f].(used := false)];
      Merge(f);
      assert Freed(old(blocks), blocks, base, f);
      ok := true;
    }

    /** The merging loop: it ends because each turn that absorbs leaves fewer non-empty blocks. */
    method Merge(f: nat)
      requires Valid() && f < |blocks| && !blocks[f].used && blocks[f].len > 0
      modifies this`blocks
      ensures Valid() && |blocks| == |old(blocks)|
      ensures forall i :: 0 <= i < |blocks| ==> !Follows(blocks, f, i)
      ensures blocks[f].base == old(blocks)[f].base && blocks[f].len >= old(blocks)[f].len && !blocks[f].used
      ensures forall x :: InUse(blocks, x) <==> InUse(old(blocks), x)
      ensures forall i :: 0 <= i < |blocks| && old(blocks)[i].used ==> blocks[i] == old(blocks)[i]
    {
      var merged := true;
      while merged
        invariant Valid() && |blocks| == |old(blocks)| && !blocks[f].used
        invariant blocks[f].base == old(blocks)[f].base && blocks[f].len >= old(blocks)[f].len
        invariant forall x :: InUse(blocks, x) <==> InUse(old(blocks), x)
        invariant forall i :: 0 <= i < |blocks| && old(blocks)[i].used ==> blocks[i] == old(blocks)[i]
        invariant !merged ==> forall i :: 0 <= i < |blocks| ==> !Follows(blocks, f, i)
        decreases NonEmpty(blocks), merged
      {
        merged := false;
        ghost var before := NonEmpty(blocks);
        for i := 0 to |blocks|
          invariant Valid() && |blocks| == |old(blocks)| && !blocks[f].used
          invariant blocks[f].base == old(blocks)[f].base && blocks[f].len >= old(blocks)[f].len
          invariant forall x :: InUse(blocks, x) <==> InUse(old(blocks), x)
          invariant forall k :: 0 <= k < |blocks| && old(blocks)[k].used ==> blocks[k] == old(blocks)[k]
          invariant if merged then NonEmpty(blocks) < before else NonEmpty(blocks) == before
          invariant !merged ==> forall k :: 0 <= k < i ==> !Follows(blocks, f, k)
        {
          if i != f && !blocks[i].used && blocks[i].len > 0 && blocks[i].base == blocks[f].base + blocks[f].len {
            AbsorbedKeeps(blocks, heapNext, f, i);
            blocks := Absorbed(blocks, f, i);
            merged := true;
          }
        }
      }
    }
  }

  /** What freeing block `f`, which starts at `base`, does to the list. */
  ghost predicate Freed(bs: seq<Block>, c: seq<Block>, base: Dword, f: nat)
    requires |bs| == |c| && f < |c|
  {
    && bs[f].used && bs[f].base == base && c[f].base == base && !c[f].used && c[f].len >= bs[f].len
    && (forall i :: 0 <= i < |c| ==> !Follows(c, f, i))
    && (forall i :: 0 <= i < |c| && i != f && bs[i].used ==> c[i] == bs[i])
    && (forall x :: InUse(c, x) <==> InUse(bs, x) && !Holds(bs[f], x))
  }

  /** What was freed can be had again: by any request no larger than the freed block. */
  lemma FreedIsReusable(bs: seq<Block>, c: seq<Block>, next: int, base: Dword, f: nat, l: int)
    requires |bs| == |c| && f < |c| && Freed(bs, c, base, f) && l <= bs[f].len
    ensures Grants(c, next, l)
  {
    assert Fits(c[f], l);
  }

  /** Two blocks in use do not start at the same address. */
  lemma UsedApart(bs: seq<Block>, next: int, i: nat, j: nat)
    requires Partition(bs, next) && i < j < |bs| && bs[i].used && bs[j].used
    ensures bs[i].base != bs[j].base
  {
    assert Sound(bs[i], next) && Sound(bs[j], next) && Disjoint(bs[i], bs[j]);
  }

  /**
   Freeing what an allocation returned gives every address back to whom it belonged before, and the
   same request would be met again, however the list was cut up and merged in between.
   */
  lemma FreeUndoesAlloc(
      bs: seq<Block>, cs: seq<Block>, ds: seq<Block>, next: int, base: Dword, l: Dword, f: nat)
    requires Partition(cs, next) && Block(base, l, true) in cs
    requires forall x :: InUse(cs, x) <==> InUse(bs, x) || base <= x < base + l
    requires forall x :: base <= x < base + l ==> !InUse(bs, x)
    requires |ds| == |cs| && f < |ds| && Freed(cs, ds, base, f)
    ensures forall x :: InUse(ds, x) <==> InUse(bs, x)
    ensures Grants(ds, next, l)
  {
    var k :| 0 <= k < |cs| && cs[k] == Block(base, l, true);
    if k < f { UsedApart(cs, next, k, f); }
    if f < k { UsedApart(cs, next, f, k); }
    FreedIsReusable(cs, ds, next, base, f, l);
  }
}
