/**
 Guest memory as `src/memory.h` keeps it: a table of 64 KiB pages, each allocated zeroed
 when it is first written. `flat` is the plain byte map the table stands for; every
 access is specified by what it does to that map, so that nothing else in the project
 sees a page.
 */
module PagedMemory {
  import opened Widths
  import opened FlatMemory

  const PAGE := 0x1_0000
  const PAGES := 0x1_0000

  class Memory {
    const slots: array<array?<Byte>>
    ghost var flat: Ram
    ghost var repr: set<object>

    ghost predicate Valid()
      reads this, repr
      ensures Valid() ==> this in repr
    {
      && this in repr && slots in repr && slots.Length == PAGES
      && (forall i :: 0 <= i < PAGES && slots[i] != null ==> slots[i] in repr && slots[i].Length == PAGE)
      && (forall i, j :: 0 <= i < j < PAGES && slots[i] != null ==> slots[i] != slots[j])
      && (forall a :: 0 <= a < M32 ==>
            flat[a] == if slots[a / PAGE] == null then 0 else slots[a / PAGE][a % PAGE])
    }

    constructor ()
      ensures Valid() && fresh(repr)
      ensures flat == ZEROED
      ensures forall i :: 0 <= i < PAGES ==> slots[i] == null
    {
      slots := new array?<Byte>[PAGES](_ => null);
      flat := ZEROED;
      new;
      repr := {this, slots};
    }

    /** A read of a page never written is zero. */
    function Read8(a: Dword): (v: Byte)
      requires Valid()
      reads this, repr
      ensures v == Get8(flat, a)
    {
      var p := slots[a / PAGE];
      if p == null then 0 else p[a % PAGE]
    }

    /** Byte `k` from `a` on, of the page `a` is on. */
    function InPage(a: Dword, k: nat): (v: Byte)
      requires Valid() && a % PAGE + k < PAGE
      reads this, repr
      ensures v == Get8(flat, a + k)
    {
      SamePage(a, k);
      var p := slots[a / PAGE];
      if p == null then 0 else p[a % PAGE + k]
    }

    function Read16(a: Dword): (v: Word)
      requires Valid()
      reads this, repr
      ensures v == Load(flat, a, 2)
    {
      LoadBytes(flat, a);
      if a % PAGE <= PAGE - 2 then InPage(a, 0) + M8 * InPage(a, 1)
      else Read8(a) + M8 * Read8(U32(a + 1))
    }

    function Read32(a: Dword): (v: Dword)
      requires Valid()
      reads this, repr
      ensures v == Load(flat, a, 4)
    {
      LoadBytes(flat, a);
      if a % PAGE <= PAGE - 4 then
        InPage(a, 0) + M8 * InPage(a, 1) + M16 * InPage(a, 2) + M24 * InPage(a, 3)
      else
        Read8(a) + M8 * Read8(U32(a + 1)) + M16 * Read8(U32(a + 2)) + M24 * Read8(U32(a + 3))
    }

    /** The page `a` is on, allocated zeroed if it is not there yet. */
    method Page(a: Dword) returns (p: array<Byte>)
      requires Valid()
      modifies repr
      ensures Valid() && fresh(repr - old(repr)) && flat == old(flat)
      ensures p == slots[a / PAGE] && p in repr
      ensures forall i :: 0 <= i < PAGES && i != a / PAGE ==> slots[i] == old(slots[i])
    {
      if slots[a / PAGE] == null {
        var q := new Byte[PAGE](_ => 0);
        slots[a / PAGE] := q;
        repr := repr + {q};
      }
      p := slots[a / PAGE];
    }

    /** `piece` put into page `p`, which `a` is on: the fast paths, and `memcpy`. */
    method CopyPage(p: array<Byte>, a: Dword, piece: seq<Byte>)
      requires Valid() && p == slots[a / PAGE] && a % PAGE + |piece| <= PAGE
      modifies p, this`flat
      ensures Valid() && flat == Fill(old(flat), a, piece)
    {
      CopyIn(p, a % PAGE, piece);
      flat := Fill(flat, a, piece);
      forall x | 0 <= x < M32
        ensures flat[x] == if slots[x / PAGE] == null then 0 else slots[x / PAGE][x % PAGE]
      {
        FillOnPage(old(flat), a, piece, x);
      }
    }

    method WriteInPage(a: Dword, piece: seq<Byte>)
      requires Valid() && a % PAGE + |piece| <= PAGE
      modifies repr
      ensures Valid() && fresh(repr - old(repr))
      ensures flat == Fill(old(flat), a, piece)
    {
      var p := Page(a);
      CopyPage(p, a, piece);
    }

    method Write8(a: Dword, v: Byte)
      requires Valid()
      modifies repr
      ensures Valid() && fresh(repr - old(repr))
      ensures flat == Put8(old(flat), a, v)
    {
      FillBytes(flat, a, v);
      WriteInPage(a, [v]);
    }

    method Write16(a: Dword, v: Word)
      requires Valid()
      modifies repr
      ensures Valid() && fresh(repr - old(repr))
      ensures flat == Store(old(flat), a, 2, v)
    {
      FillBytes(flat, a, v);
      StoreBytes(flat, a, v);
      if a % PAGE <= PAGE - 2 {
        WriteInPage(a, [v % M8, v / M8 % M8]);
      } else {
        Write8(a, v % M8);
        Write8(U32(a + 1), v / M8);
      }
    }

    method Write32(a: Dword, v: Dword)
      requires Valid()
      modifies repr
      ensures Valid() && fresh(repr - old(repr))
      ensures flat == Store(old(flat), a, 4, v)
    {
      if a % PAGE <= PAGE - 4 {
        FillBytes(flat, a, v);
        WriteInPage(a, [v % M8, v / M8 % M8, v / M16 % M8, v / M24 % M8]);
      } else {
        WriteEach(a, v);
      }
    }

    /** The slow path: a byte at a time, each on whatever page it falls. */
    method WriteEach(a: Dword, v: Dword)
      requires Valid()
      modifies repr
      ensures Valid() && fresh(repr - old(repr))
      ensures flat == Store(old(flat), a, 4, v)
    {
      for i := 0 to 4
        invariant Valid() && fresh(repr - old(repr)) && flat == Store(old(flat), a, i, v)
      {
        StoreNext(old(flat), a, i, v);
        Write8(U32(a + i), v / Pow256(i) % M8);
      }
    }

    /** The bulk copy: page by page, and the same as copying byte by byte. */
    method WriteBlock(start: Dword, src: seq<Byte>)
      requires Valid() && |src| < M32
      modifies repr
      ensures Valid() && fresh(repr - old(repr))
      ensures flat == Fill(old(flat), start, src)
    {
      var a: Dword, s := start, src;
      while s != []
        invariant Valid() && fresh(repr - old(repr))
        invariant Fill(flat, a, s) == Fill(old(flat), start, src)
        decreases |s|
      {
        var off := a % PAGE;
        var n := if |s| < PAGE - off then |s| else PAGE - off;
        FillInTwo(flat, a, s, n);
        WriteInPage(a, s[..n]);
        a, s := U32(a + n), s[n..];
      }
    }
  }

  lemma SamePage(a: Dword, k: nat)
    requires a % PAGE + k < PAGE
    ensures a + k < M32 && (a + k) / PAGE == a / PAGE && (a + k) % PAGE == a % PAGE + k
  {
  }

  /** Filling within one page, seen through page numbers and offsets. */
  lemma FillOnPage(m: Ram, a: Dword, piece: seq<Byte>, x: Dword)
    requires a % PAGE + |piece| <= PAGE
    ensures Fill(m, a, piece)[x] ==
            if x / PAGE == a / PAGE && a % PAGE <= x % PAGE < a % PAGE + |piece|
            then piece[x % PAGE - a % PAGE] else m[x]
  {
    FillIs(m, a, piece, x);
    assert U32(x - a) == (if x >= a then x - a else x - a + M32) && U32(x) == x;
    assert x - a == PAGE * (x / PAGE - a / PAGE) + x % PAGE - a % PAGE;
  }

  /** `memcpy` into a page: the bytes of `src` from offset `off` on, nothing else. */
  method CopyIn(p: array<Byte>, off: nat, src: seq<Byte>)
    requires off + |src| <= p.Length
    modifies p
    ensures forall j :: 0 <= j < p.Length ==> p[j] == if off <= j < off + |src| then src[j - off] else old(p[j])
  {
    for i := 0 to |src|
      invariant forall j :: 0 <= j < p.Length ==>
                              p[j] == if off <= j < off + i then src[j - off] else old(p[j])
    {
      p[off + i] := src[i];
    }
  }
}
