/**
 Loading a program or an overlay (`load_program` in `src/loader.cpp`, `load_overlay` in
 `src/dos.cpp`): the image is copied to a segment, and each word its relocation table names
 has a segment added to it, in place.
 */
module MzLoader {
  import opened Widths
  import opened Bits
  import opened FlatMemory
  import opened PagedMemory
  import Blocks
  import Arena

  /** A file short enough for its size to be a `uint32_t`. */
  type File = f: seq<Byte> | |f| < M32

  /** A relocation entry: offset and segment of a word, relative to the load segment. */
  datatype Fixup = Fixup(off: Word, seg: Word)

  // ---- the relocation loop -----------------------------------------------------------

  function Target(load: Word, x: Fixup): Dword { Phys(U16(load + x.seg), x.off) }

  function Add16(m: Ram, a: Dword, add: Word): Ram { Store(m, a, 2, U16(Load(m, a, 2) + add)) }

  function Relocated(m: Ram, load: Word, add: Word, xs: seq<Fixup>): Ram {
    if xs == [] then m
    else Add16(Relocated(m, load, add, xs[..|xs| - 1]), Target(load, xs[|xs| - 1]), add)
  }

  /** No two fixups share a byte. */
  ghost predicate Separate(load: Word, xs: seq<Fixup>) {
    forall i, j :: 0 <= i < j < |xs| ==> Apart(Target(load, xs[i]), 2, Target(load, xs[j]), 2)
  }

  /** Address `b` is in none of the words to be fixed up. */
  ghost predicate Untouched(load: Word, xs: seq<Fixup>, b: int) {
    forall i :: 0 <= i < |xs| ==> U32(b - Target(load, xs[i])) >= 2
  }

  /** Relocation changes no byte outside its words. */
  lemma {:induction false} OthersKept(m: Ram, load: Word, add: Word, xs: seq<Fixup>, b: int)
    requires Untouched(load, xs, b)
    ensures Get8(Relocated(m, load, add, xs), b) == Get8(m, b)
    decreases |xs|
  {
    hide Store, Load, Get8, Target, U32;
    if xs != [] {
      var front, last := xs[..|xs| - 1], xs[|xs| - 1];
      OthersKept(m, load, add, front, b);
      var m1 := Relocated(m, load, add, front);
      StoreElsewhere(m1, Target(load, last), 2, U16(Load(m1, Target(load, last), 2) + add), b);
    }
  }

  lemma WordKept(m: Ram, load: Word, add: Word, xs: seq<Fixup>, a: Dword)
    requires forall i :: 0 <= i < |xs| ==> Apart(Target(load, xs[i]), 2, a, 2)
    ensures Load(Relocated(m, load, add, xs), a, 2) == Load(m, a, 2)
  {
    hide Load, Store, Target, Relocated, Get8;
    forall b: int | U32(b - a) < 2 ensures Get8(Relocated(m, load, add, xs), b) == Get8(m, b) {
      forall i | 0 <= i < |xs| ensures U32(b - Target(load, xs[i])) >= 2 {
        OutsideStays(Target(load, xs[i]), 2, a, 2, b);
      }
      OthersKept(m, load, add, xs, b);
    }
    LoadSame(m, Relocated(m, load, add, xs), a, 2);
  }

  /** Each word of a separate table has the segment added to it exactly once, modulo 2^16. */
  lemma {:induction false} EachWordAdded(m: Ram, load: Word, add: Word, xs: seq<Fixup>, i: nat)
    requires Separate(load, xs) && i < |xs|
    ensures Load(Relocated(m, load, add, xs), Target(load, xs[i]), 2) == U16(Load(m, Target(load, xs[i]), 2) + add)
    decreases |xs|
  {
    hide Load, Store, Target, Apart, Pow256, U16;
    var front, last := xs[..|xs| - 1], xs[|xs| - 1];
    var m1, t := Relocated(m, load, add, front), Target(load, last);
    var v := U16(Load(m1, t, 2) + add);
    if i == |xs| - 1 {
      WordKept(m, load, add, front, t);
      LoadAfterStore(m1, t, 2, v);
      TwoBytes(v);
    } else {
      EachWordAdded(m, load, add, front, i);
      ApartFlips(Target(load, xs[i]), 2, t, 2);
      LoadAfterStoreApart(m1, t, 2, v, Target(load, xs[i]), 2);
    }
  }

  lemma TwoBytes(v: Word)
    ensures v % Pow256(2) == v
  {
    Sizes();
  }

  // ---- images ------------------------------------------------------------------------

  /** An image copied to a segment and fixed up. */
  function Loaded(m: Ram, load: Word, add: Word, body: seq<Byte>, xs: seq<Fixup>): Ram {
    Relocated(Fill(m, Phys(load, 0), body), load, add, xs)
  }

  function Offset(x: Fixup): nat { x.seg * 16 + x.off }

  /** The image fits below one megabyte from `load` on, and the table names words inside it,
      no two of which meet. */
  ghost predicate WellPlaced(load: Word, body: seq<Byte>, xs: seq<Fixup>) {
    && load * 16 + |body| <= 0x10_0000
    && (forall i :: 0 <= i < |xs| ==> Offset(xs[i]) + 2 <= |body|)
    && (forall i, j :: 0 <= i < j < |xs| ==> Offset(xs[i]) + 2 <= Offset(xs[j]) || Offset(xs[j]) + 2 <= Offset(xs[i]))
  }

  lemma TargetsInside(load: Word, body: seq<Byte>, xs: seq<Fixup>)
    requires WellPlaced(load, body, xs)
    ensures forall i :: 0 <= i < |xs| ==> Target(load, xs[i]) == load * 16 + Offset(xs[i])
    ensures Separate(load, xs)
    ensures Phys(load, 0) == load * 16
  {
    hide Target, Offset, Apart;
    forall i | 0 <= i < |xs| ensures Target(load, xs[i]) == load * 16 + Offset(xs[i]) { TargetIs(load, xs[i]); }
    Origin(load);
    forall i, j | 0 <= i < j < |xs| ensures Apart(Target(load, xs[i]), 2, Target(load, xs[j]), 2) {
      InsideApart(load * 16 + Offset(xs[i]), load * 16 + Offset(xs[j]));
    }
  }

  lemma TargetIs(load: Word, x: Fixup)
    requires load * 16 + Offset(x) < 0x10_0000
    ensures Target(load, x) == load * 16 + Offset(x)
  {
    assert load + x.seg < M16;
  }

  lemma Origin(load: Word)
    ensures Phys(load, 0) == load * 16
  {
  }

  lemma InsideApart(a: int, b: int)
    requires 0 <= a < 0x10_0000 && 0 <= b < 0x10_0000 && (a + 2 <= b || b + 2 <= a)
    ensures Apart(a, 2, b, 2)
  {
    if a < b { DivIs(a - b, M32, -1, a - b + M32); } else { DivIs(b - a, M32, -1, b - a + M32); }
  }

  /** A word of the file's image. */
  function ImageWord(body: seq<Byte>, at: nat): Word
    requires at + 2 <= |body|
  {
    body[at] + M8 * body[at + 1]
  }

  lemma FilledWord(m: Ram, a: Dword, body: seq<Byte>, at: nat)
    requires a + |body| <= 0x10_0000 && at + 2 <= |body|
    ensures Load(Fill(m, a, body), a + at, 2) == ImageWord(body, at)
  {
    LoadBytes(Fill(m, a, body), a + at);
    hide Fill, Load;
    FillIs(m, a, body, a + at);
    FillIs(m, a, body, a + at + 1);
  }

  /** Image offset `k` lies in no word the table names. */
  ghost predicate Plain(xs: seq<Fixup>, k: nat) {
    forall i :: 0 <= i < |xs| ==> !(Offset(xs[i]) <= k < Offset(xs[i]) + 2)
  }

  /** Every word the table names holds the file's word plus the segment. */
  lemma LoadedWord(m: Ram, load: Word, add: Word, body: seq<Byte>, xs: seq<Fixup>, i: nat)
    requires WellPlaced(load, body, xs) && i < |xs|
    ensures Load(Loaded(m, load, add, body, xs), load * 16 + Offset(xs[i]), 2)
            == U16(ImageWord(body, Offset(xs[i])) + add)
  {
    TargetsInside(load, body, xs);
    hide Separate, Target, Offset, Relocated, Fill, Load, Phys, ImageWord, U16;
    EachWordAdded(Fill(m, Phys(load, 0), body), load, add, xs, i);
    FilledWord(m, Phys(load, 0), body, Offset(xs[i]));
  }

  /** Every other byte of the image is the file's. */
  lemma LoadedByte(m: Ram, load: Word, add: Word, body: seq<Byte>, xs: seq<Fixup>, k: nat)
    requires WellPlaced(load, body, xs) && k < |body| && Plain(xs, k)
    ensures Get8(Loaded(m, load, add, body, xs), load * 16 + k) == body[k]
  {
    TargetsInside(load, body, xs);
    var base: int := load * 16;
    hide Separate, Target, Offset, Relocated, Fill, Get8, Phys, U32;
    forall i | 0 <= i < |xs| ensures U32(base + k - Target(load, xs[i])) >= 2 { Off(base, k, Offset(xs[i])); }
    OthersKept(Fill(m, Phys(load, 0), body), load, add, xs, base + k);
    FilledByte(m, base, body, k);
  }

  lemma FilledByte(m: Ram, a: Dword, body: seq<Byte>, k: nat)
    requires k < |body| <= M32
    ensures Get8(Fill(m, a, body), a + k) == body[k]
  {
    hide Get8;
    FillIs(m, a, body, a + k);
    assert a + k - a == k;
  }

  lemma Off(base: int, k: int, o: int)
    requires 0 <= k < 0x10_0000 && 0 <= o < 0x20_0000 && !(o <= k < o + 2)
    ensures U32(base + k - (base + o)) >= 2
  {
    if k < o { DivIs(k - o, M32, -1, k - o + M32); }
  }

  /** The same file loaded at two segments differs by the difference of the segments at the
      words its table names, and nowhere else. */
  lemma OnlyFixupsDiffer(m: Ram, m': Ram, a: Word, b: Word, body: seq<Byte>, xs: seq<Fixup>)
    requires WellPlaced(a, body, xs) && WellPlaced(b, body, xs)
    ensures var r, r' := Loaded(m, a, a, body, xs), Loaded(m', b, b, body, xs);
            && (forall i {:trigger xs[i]} :: 0 <= i < |xs| ==>
                  U16(Load(r', b * 16 + Offset(xs[i]), 2) - Load(r, a * 16 + Offset(xs[i]), 2)) == U16(b - a))
            && (forall k {:trigger Plain(xs, k)} :: 0 <= k < |body| && Plain(xs, k) ==>
                  Get8(r', b * 16 + k) == Get8(r, a * 16 + k))
  {
    hide Loaded, Load, Get8, Offset, WellPlaced, Plain, U16, ImageWord;
    var r, r' := Loaded(m, a, a, body, xs), Loaded(m', b, b, body, xs);
    forall i | 0 <= i < |xs|
      ensures U16(Load(r', b * 16 + Offset(xs[i]), 2) - Load(r, a * 16 + Offset(xs[i]), 2)) == U16(b - a)
    {
      LoadedWord(m, a, a, body, xs, i);
      LoadedWord(m', b, b, body, xs, i);
      NamesInside(a, body, xs, i);
      Differ(ImageWord(body, Offset(xs[i])), a, b);
    }
    forall k | 0 <= k < |body| && Plain(xs, k) ensures Get8(r', b * 16 + k) == Get8(r, a * 16 + k) {
      LoadedByte(m, a, a, body, xs, k);
      LoadedByte(m', b, b, body, xs, k);
    }
  }

  lemma NamesInside(load: Word, body: seq<Byte>, xs: seq<Fixup>, i: nat)
    requires WellPlaced(load, body, xs) && i < |xs|
    ensures Offset(xs[i]) + 2 <= |body|
  {
  }

  lemma Differ(w: Word, a: Word, b: Word)
    ensures U16(U16(w + b) - U16(w + a)) == U16(b - a)
  {
  }

  // ---- files -------------------------------------------------------------------------

  /** A little-endian word of the file; past its end, zero. */
  function Rd16(f: File, o: nat): Word { if o + 1 < |f| then f[o] + M8 * f[o + 1] else 0 }

  predicate IsMz(f: File) { |f| >= 2 && f[0] == 0x4D && f[1] == 0x5A }

  function HeaderBytes(f: File): nat { Rd16(f, 8) * 16 }

  /** Header and image together, never more than the file. */
  function ImageBytes(f: File): (n: nat)
    ensures n <= |f|
  {
    var last, whole := Rd16(f, 2), Rd16(f, 4) * 512;
    var n := if last != 0 then U32(whole - 512 + last) else whole;
    if n > |f| then |f| else n
  }

  function Body(f: File): seq<Byte>
    requires HeaderBytes(f) <= ImageBytes(f)
  {
    f[HeaderBytes(f)..ImageBytes(f)]
  }

  function FixupAt(f: File, i: nat): Fixup {
    var o := Rd16(f, 24) + i * 4;
    Fixup(Rd16(f, o), Rd16(f, o + 2))
  }

  /** The first `n` entries of the relocation table. */
  function Table(f: File, n: nat): seq<Fixup> { if n == 0 then [] else Table(f, n - 1) + [FixupAt(f, n - 1)] }

  function Fixups(f: File): seq<Fixup> { Table(f, Rd16(f, 6)) }

  // ---- what a linker writes ----------------------------------------------------------

  /** The fields of an MZ header; `size` is that of header and image together. */
  datatype Header = Header(
    size: nat, paras: Word, minAlloc: Word, maxAlloc: Word, ss: Word, sp: Word, checksum: Word, ip: Word, cs: Word,
    table: Word)

  /** The number of entries that fit the field for it, and a size that fits its two. */
  predicate Encodable(h: Header, xs: seq<Fixup>) { |xs| < M16 && h.size < 512 * 0xFFFF }

  function Bytes16(v: Word): seq<Byte> { [v % M8, v / M8] }

  /** The first 26 bytes of the file, field by field: the size as the bytes used in its last 512-byte
      page, 0 for a full one, and the number of pages. */
  function HeaderImage(h: Header, xs: seq<Fixup>): (r: seq<Byte>)
    requires Encodable(h, xs)
    ensures |r| == 26
  {
    [0x4D, 0x5A] + Bytes16(h.size % 512) + Bytes16((h.size + 511) / 512) + Bytes16(|xs|) + Bytes16(h.paras)
    + Bytes16(h.minAlloc) + Bytes16(h.maxAlloc) + Bytes16(h.ss) + Bytes16(h.sp) + Bytes16(h.checksum)
    + Bytes16(h.ip) + Bytes16(h.cs) + Bytes16(h.table)
  }

  /** The relocation table: the offset of each entry, then its segment. */
  function TableImage(xs: seq<Fixup>): (r: seq<Byte>)
    ensures |r| == 4 * |xs|
  {
    if xs == [] then [] else TableImage(xs[..|xs| - 1]) + Bytes16(xs[|xs| - 1].off) + Bytes16(xs[|xs| - 1].seg)
  }

  /** `part` is in the file from byte `o` on. */
  predicate Contains(f: File, o: nat, part: seq<Byte>) { o + |part| <= |f| && f[o..o + |part|] == part }

  /** The file was written with header `h` and relocation table `xs`. */
  predicate Written(f: File, h: Header, xs: seq<Fixup>) {
    Encodable(h, xs) && Contains(f, 0, HeaderImage(h, xs)) && Contains(f, h.table, TableImage(xs))
  }

  lemma ContainsPart(f: File, o: nat, part: seq<Byte>, k: nat, piece: seq<Byte>)
    requires Contains(f, o, part) && k + |piece| <= |part| && part[k..k + |piece|] == piece
    ensures Contains(f, o + k, piece)
  {
    forall j | 0 <= j < |piece| ensures f[o + k + j] == piece[j] {
      assert part[k..k + |piece|][j] == part[k + j] == f[o..o + |part|][k + j];
    }
  }

  lemma ReadsWord(f: File, o: nat, v: Word)
    requires Contains(f, o, Bytes16(v))
    ensures Rd16(f, o) == v
  {
    assert f[o..o + 2][0] == f[o] && f[o..o + 2][1] == f[o + 1];
  }

  /** Every field of the header is read back. */
  lemma FieldsRead(f: File, h: Header, xs: seq<Fixup>)
    requires Written(f, h, xs)
    ensures IsMz(f) && |f| >= 26
    ensures Rd16(f, 2) == h.size % 512 && Rd16(f, 4) == (h.size + 511) / 512
    ensures Rd16(f, 6) == |xs| && Rd16(f, 8) == h.paras && Rd16(f, 14) == h.ss && Rd16(f, 16) == h.sp
    ensures Rd16(f, 20) == h.ip && Rd16(f, 22) == h.cs && Rd16(f, 24) == h.table
  {
    var r := HeaderImage(h, xs);
    assert f[0] == f[0..26][0] && f[1] == f[0..26][1];
    FieldRead(f, r, 2, h.size % 512);
    FieldRead(f, r, 4, (h.size + 511) / 512);
    FieldRead(f, r, 6, |xs|);
    FieldRead(f, r, 8, h.paras);
    FieldRead(f, r, 14, h.ss);
    FieldRead(f, r, 16, h.sp);
    FieldRead(f, r, 20, h.ip);
    FieldRead(f, r, 22, h.cs);
    FieldRead(f, r, 24, h.table);
    hide Rd16, Contains;
  }

  lemma FieldRead(f: File, r: seq<Byte>, k: nat, v: Word)
    requires Contains(f, 0, r) && k + 2 <= |r| && r[k] == v % M8 && r[k + 1] == v / M8
    ensures Rd16(f, k) == v
  {
    assert r[k..k + 2] == Bytes16(v);
    ContainsPart(f, 0, r, k, Bytes16(v));
    ReadsWord(f, k, v);
  }

  /** And so is every entry of the table. */
  lemma {:induction false} EntriesRead(f: File, o: nat, xs: seq<Fixup>, i: nat)
    requires Contains(f, o, TableImage(xs)) && i < |xs|
    ensures Rd16(f, o + 4 * i) == xs[i].off && Rd16(f, o + 4 * i + 2) == xs[i].seg
    decreases |xs|
  {
    hide Rd16, Contains;
    var front, last, r := xs[..|xs| - 1], xs[|xs| - 1], TableImage(xs);
    assert r == TableImage(front) + Bytes16(last.off) + Bytes16(last.seg);
    if i < |front| {
      assert r[0..0 + 4 * |front|] == TableImage(front);
      ContainsPart(f, o, r, 0, TableImage(front));
      EntriesRead(f, o, front, i);
    } else {
      assert r[4 * i..4 * i + 2] == Bytes16(last.off) && r[4 * i + 2..4 * i + 2 + 2] == Bytes16(last.seg);
      ContainsPart(f, o, r, 4 * i, Bytes16(last.off));
      ContainsPart(f, o, r, 4 * i + 2, Bytes16(last.seg));
      ReadsWord(f, o + 4 * i, last.off);
      ReadsWord(f, o + 4 * i + 2, last.seg);
    }
  }

  lemma {:induction false} TableReads(f: File, o: nat, xs: seq<Fixup>, n: nat)
    requires Contains(f, o, TableImage(xs)) && Rd16(f, 24) == o && n <= |xs|
    ensures Table(f, n) == xs[..n]
    decreases n
  {
    hide Rd16, Contains;
    if n > 0 {
      TableReads(f, o, xs, n - 1);
      EntriesRead(f, o, xs, n - 1);
      assert o + (n - 1) * 4 == o + 4 * (n - 1);
      assert xs[..n] == xs[..n - 1] + [xs[n - 1]];
    }
  }

  /** Reading the file gives back what was written: the fixups in order, the header's length, and the
      image's, unless the file is shorter. */
  lemma FileReads(f: File, h: Header, xs: seq<Fixup>)
    requires Written(f, h, xs)
    ensures IsMz(f) && Fixups(f) == xs
    ensures HeaderBytes(f) == 16 * h.paras && ImageBytes(f) == if h.size <= |f| then h.size else |f|
  {
    hide Contains, HeaderImage, TableImage;
    FieldsRead(f, h, xs);
    TableReads(f, h.table, xs, |xs|);
    assert xs[..|xs|] == xs;
    hide Rd16;
    PageCount(h.size);
  }

  lemma PageCount(n: nat)
    requires n < 512 * 0xFFFF
    ensures var last, whole := n % 512, (n + 511) / 512 * 512;
            && (last == 0 ==> whole == n)
            && (last != 0 ==> whole - 512 + last == n && U32(whole - 512 + last) == n)
  {
  }

  /** An image whose fixups lie inside it and apart, from `load` on below one megabyte. */
  ghost predicate Sensible(f: File, h: Header, xs: seq<Fixup>, load: Word) {
    && Written(f, h, xs) && 16 * h.paras <= h.size <= |f|
    && WellPlaced(load, f[16 * h.paras..h.size], xs)
  }

  /** The image loading copies: the file's bytes behind the header. */
  lemma BodyIs(f: File, h: Header, xs: seq<Fixup>, load: Word)
    requires Sensible(f, h, xs, load)
    ensures 16 * h.paras <= h.size <= |f| && HeaderBytes(f) <= ImageBytes(f)
    ensures Body(f) == f[16 * h.paras..h.size] && Fixups(f) == xs && WellPlaced(load, Body(f), xs)
  {
    hide Written, WellPlaced, Fixups, HeaderBytes, ImageBytes;
    FileReads(f, h, xs);
  }

  /** What loading does to each word the table names, over the bytes of the file: the file's word there
      plus the amount to add. */
  lemma WordFromFile(m: Ram, f: File, h: Header, xs: seq<Fixup>, load: Word, add: Word, i: nat)
    requires Sensible(f, h, xs, load) && i < |xs|
    ensures HeaderBytes(f) <= ImageBytes(f)
    ensures var at: int := xs[i].seg * 16 + xs[i].off;
            var from := 16 * h.paras + at;
            && from + 1 < |f|
            && Load(Loaded(m, load, add, Body(f), Fixups(f)), load * 16 + at, 2)
               == U16(f[from] + M8 * f[from + 1] + add)
  {
    hide *;
    BodyIs(f, h, xs, load);
    NamesInside(load, Body(f), xs, i);
    LoadedWord(m, load, add, Body(f), xs, i);
    ImageFrom(f, 16 * h.paras, h.size, Offset(xs[i]));
    OffsetIs(xs[i]);
  }

  lemma ImageFrom(f: File, lo: nat, hi: nat, at: nat)
    requires lo <= hi <= |f| && at + 2 <= hi - lo
    ensures lo + at + 1 < |f| && ImageWord(f[lo..hi], at) == f[lo + at] + M8 * f[lo + at + 1]
  {
  }

  lemma OffsetIs(x: Fixup)
    ensures Offset(x) == x.seg * 16 + x.off
  {
  }

  /** And every other byte of the image is the file's. */
  lemma ByteFromFile(m: Ram, f: File, h: Header, xs: seq<Fixup>, load: Word, add: Word, k: nat)
    requires Sensible(f, h, xs, load) && k < h.size - 16 * h.paras && Plain(xs, k)
    ensures HeaderBytes(f) <= ImageBytes(f)
    ensures Get8(Loaded(m, load, add, Body(f), Fixups(f)), load * 16 + k) == f[16 * h.paras + k]
  {
    BodyIs(f, h, xs, load);
    hide Loaded, Get8, WellPlaced, Plain, Written, Fixups, HeaderBytes, ImageBytes, Body;
    LoadedByte(m, load, add, Body(f), xs, k);
  }

  // ---- the loaders -------------------------------------------------------------------

  /** The loop over the relocation table, in guest memory. */
  method Relocate(mem: Memory, f: File, load: Word, add: Word)
    requires mem.Valid()
    modifies mem.repr
    ensures mem.Valid() && fresh(mem.repr - old(mem.repr))
    ensures mem.flat == Relocated(old(mem.flat), load, add, Fixups(f))
  {
    hide Memory.Valid, Load, Store, Phys, Rd16, U16;
    for i := 0 to Rd16(f, 6)
      invariant mem.Valid() && fresh(mem.repr - old(mem.repr))
      invariant mem.flat == Relocated(old(mem.flat), load, add, Table(f, i))
    {
      var x := FixupAt(f, i);
      assert (Table(f, i) + [x])[..|Table(f, i)|] == Table(f, i);
      var cur := mem.Read16(Phys(U16(load + x.seg), x.off));
      mem.Write16(Phys(U16(load + x.seg), x.off), U16(cur + add));
    }
  }

  datatype Outcome = Placed(bytes: nat) | Refused(code: Word)

  /** `load_overlay` up to where the image is in place; an unreadable file comes as an empty one. */
  method PlaceOverlay(mem: Memory, f: File, load: Word, factor: Word) returns (r: Outcome)
    requires mem.Valid()
    modifies mem.repr
    ensures mem.Valid() && fresh(mem.repr - old(mem.repr))
    ensures f == [] ==> r == Refused(2)
    ensures IsMz(f) && HeaderBytes(f) > ImageBytes(f) ==> r == Refused(11)
    ensures IsMz(f) && HeaderBytes(f) <= ImageBytes(f) ==>
              r == Placed(|Body(f)|) && mem.flat == Loaded(old(mem.flat), load, factor, Body(f), Fixups(f))
    ensures f != [] && !IsMz(f) ==> r == Placed(|f|) && mem.flat == Fill(old(mem.flat), Phys(load, 0), f)
    ensures r.Refused? ==> mem.flat == old(mem.flat)
  {
    hide Memory.Valid, Fill, Relocated, Fixups, Phys;
    if f == [] { return Refused(2); }
    if IsMz(f) {
      var header, image := HeaderBytes(f), ImageBytes(f);
      if header > image { return Refused(11); }
      mem.WriteBlock(Phys(load, 0), f[header..image]);
      Relocate(mem, f, load, factor);
      r := Placed(image - header);
    } else {
      mem.WriteBlock(Phys(load, 0), f);
      r := Placed(|f|);
    }
  }

  /** What `PlaceOverlay` makes of memory. */
  function Overlaid(m: Ram, f: File, load: Word, factor: Word): Ram {
    if f == [] then m
    else if !IsMz(f) then Fill(m, Phys(load, 0), f)
    else if HeaderBytes(f) > ImageBytes(f) then m
    else Loaded(m, load, factor, Body(f), Fixups(f))
  }

  /** The paragraphs claimed for an overlay of `n` bytes. */
  function Paragraphs(n: nat): Word { U16((n + 15) / 16) }

  /** They cover it, with less than a paragraph to spare, up to one megabyte less a paragraph. */
  lemma ParagraphsCover(n: nat)
    requires n <= 0xF_FFF0
    ensures n <= 16 * Paragraphs(n) < n + 16
  {
  }

  /**
   `load_overlay`: the image is put in place, and the range it covers is claimed for the program if it
   begins in free memory, which rewrites the MCBs and nothing else.
   */
  method LoadOverlay(dos: Arena.Dos, f: File, load: Word, factor: Word) returns (r: Outcome)
    requires dos.Valid()
    modifies dos`blocks, dos.mem.repr
    ensures dos.Valid() && fresh(dos.mem.repr - old(dos.mem.repr))
    ensures f == [] ==> r == Refused(2)
    ensures IsMz(f) && HeaderBytes(f) > ImageBytes(f) ==> r == Refused(11)
    ensures IsMz(f) && HeaderBytes(f) <= ImageBytes(f) ==> r == Placed(|Body(f)|)
    ensures f != [] && !IsMz(f) ==> r == Placed(|f|)
    ensures r.Refused? ==> dos.blocks == old(dos.blocks) && dos.mem.flat == old(dos.mem.flat)
    ensures Blocks.OnlyMcbs(Overlaid(old(dos.mem.flat), f, load, factor), dos.mem.flat, dos.blocks)
    ensures r.Placed? ==>
              forall b :: b in old(dos.blocks) && Arena.Within(b, load) && !b.used && Paragraphs(r.bytes) > 0 ==>
                var room, wants := Blocks.End(b) - load, Paragraphs(r.bytes);
                var got := if wants <= room then wants else room;
                && 0 < got < M16 && dos.ChainAgrees()
                && Blocks.Used(dos.blocks)
                   == Blocks.Used(old(dos.blocks)) + {Blocks.Block(load - 1, got, dos.psp, true)}
    ensures r.Placed? && (Paragraphs(r.bytes) == 0 || Arena.NothingFree(old(dos.blocks), load)) ==>
              dos.blocks == old(dos.blocks) && dos.mem.flat == Overlaid(old(dos.mem.flat), f, load, factor)
  {
    hide Memory.Valid, Fill, Loaded, Fixups, Phys, Blocks.Normal;
    r := PlaceOverlay(dos.mem, f, load, factor);
    if r.Placed? { dos.Own(load, Paragraphs(r.bytes)); }
  }

  datatype Start = Start(cs: Word, ip: Word, ss: Word, sp: Word, ds: Word) | TooLarge

  /** `load_program` after the PSP is built; of an MZ file it trusts the header. */
  method LoadProgram(mem: Memory, f: File, psp: Word) returns (r: Start)
    requires mem.Valid()
    requires IsMz(f) ==> |f| >= 26 && HeaderBytes(f) <= ImageBytes(f)
    requires IsMz(f) && Rd16(f, 6) > 0 ==> Rd16(f, 24) + 4 * Rd16(f, 6) <= |f|
    modifies mem.repr
    ensures mem.Valid() && fresh(mem.repr - old(mem.repr))
    ensures IsMz(f) ==>
              var load := U16(psp + 0x10);
              && mem.flat == Loaded(old(mem.flat), load, load, Body(f), Fixups(f))
              && r == Start(U16(load + Rd16(f, 22)), Rd16(f, 20), U16(load + Rd16(f, 14)), Rd16(f, 16), psp)
    ensures !IsMz(f) && |f| > 0xFF00 ==> r == TooLarge && mem.flat == old(mem.flat)
    ensures !IsMz(f) && |f| <= 0xFF00 ==>
              && mem.flat == Store(Fill(old(mem.flat), Phys(psp, 0x100), f), Phys(psp, 0xFFFE), 2, 0)
              && r == Start(psp, 0x100, psp, 0xFFFE, psp)
  {
    hide Memory.Valid, Fill, Store, Relocated, Fixups, Phys;
    var load := U16(psp + 0x10);
    if IsMz(f) {
      var header, image := HeaderBytes(f), ImageBytes(f);
      mem.WriteBlock(Phys(load, 0), f[header..image]);
      Relocate(mem, f, load, load);
      return Start(U16(load + Rd16(f, 22)), Rd16(f, 20), U16(load + Rd16(f, 14)), Rd16(f, 16), psp);
    }
    if |f| > 0xFF00 { return TooLarge; }
    mem.WriteBlock(Phys(psp, 0x100), f);
    mem.Write16(Phys(psp, 0xFFFE), 0);
    r := Start(psp, 0x100, psp, 0xFFFE, psp);
  }
}
