/**
 Reading a FAT12 disk image (`tools/fat12x.cpp`): the packed table of 12-bit entries, and
 the walk along a file's cluster chain, which a hop cap keeps finite on a corrupt table.
 */
module Fat12 {
  import opened Widths

  datatype Volume = Volume(img: seq<Byte>, fatOff: nat, dataOff: nat, clusterSize: nat, nclusters: nat)

  // ---- the table ---------------------------------------------------------------------

  type Entry = x: int | 0 <= x < 0x1000

  function EntryPos(v: Volume, n: nat): nat { v.fatOff + n * 3 / 2 }

  predicate HasEntry(v: Volume, n: nat) { EntryPos(v, n) + 1 < |v.img| }

  /** `next`: odd entries take the high twelve bits of their word, even ones the low. */
  function Next(v: Volume, n: nat): Entry
    requires HasEntry(v, n)
  {
    var o := EntryPos(v, n);
    var w := v.img[o] + v.img[o + 1] * M8;
    if n % 2 == 1 then w / 0x10 else w % 0x1000
  }

  /** A table packed two entries to three bytes. */
  function Pack(table: seq<Entry>): seq<Byte> {
    if table == [] then []
    else if |table| == 1 then [table[0] % M8, table[0] / M8]
    else [table[0] % M8, table[0] / M8 + table[1] % 0x10 * 0x10, table[1] / 0x10] + Pack(table[2..])
  }

  /** The packed table lies in the image where the volume says. */
  predicate Holds(v: Volume, table: seq<Entry>) {
    v.fatOff + |Pack(table)| <= |v.img| && v.img[v.fatOff..v.fatOff + |Pack(table)|] == Pack(table)
  }

  /** Every entry of a packed table is read back. */
  lemma {:induction false} NextDecodes(v: Volume, table: seq<Entry>, n: nat)
    requires Holds(v, table) && n < |table|
    ensures HasEntry(v, n) && Next(v, n) == table[n]
    decreases |table|
  {
    if n < 2 {
      FirstTwo(v, table, n);
    } else {
      PairLater(v, table, n);
      hide Holds, HasEntry, Next;
      NextDecodes(v.(fatOff := v.fatOff + 3), table[2..], n - 2);
    }
  }

  lemma FirstTwo(v: Volume, table: seq<Entry>, n: nat)
    requires Holds(v, table) && n < |table| && n < 2
    ensures HasEntry(v, n) && Next(v, n) == table[n]
  {
    var p, o, b := Pack(table), v.fatOff, if |table| > 1 then table[1] else 0;
    assert EntryPos(v, n) == o + n;
    PackHead(table);
    Unpacked(table[0], b);
    hide Pack;
    assert v.img[o + n] == v.img[o..o + |p|][n] && v.img[o + n + 1] == v.img[o..o + |p|][n + 1];
  }

  lemma PackHead(table: seq<Entry>)
    requires table != []
    ensures var p, b := Pack(table), if |table| > 1 then table[1] else 0;
            && |p| >= 2 && p[0] == table[0] % M8 && p[1] == table[0] / M8 + b % 0x10 * 0x10
            && (|table| > 1 ==> |p| >= 3 && p[2] == b / 0x10)
  {
  }

  lemma PairLater(v: Volume, table: seq<Entry>, n: nat)
    requires Holds(v, table) && 2 <= n < |table|
    ensures var later := v.(fatOff := v.fatOff + 3);
            && Holds(later, table[2..])
            && HasEntry(later, n - 2) == HasEntry(v, n) && (HasEntry(v, n) ==> Next(later, n - 2) == Next(v, n))
  {
    var later, p, rest := v.(fatOff := v.fatOff + 3), Pack(table), Pack(table[2..]);
    assert EntryPos(later, n - 2) == EntryPos(v, n) && n % 2 == (n - 2) % 2;
    PackLater(table);
    hide Pack;
    Later(v.img, v.fatOff, p, rest);
  }

  lemma PackLater(table: seq<Entry>)
    requires |table| >= 2
    ensures |Pack(table)| == 3 + |Pack(table[2..])| && Pack(table)[3..] == Pack(table[2..])
  {
    var head := [table[0] % M8, table[0] / M8 + table[1] % 0x10 * 0x10, table[1] / 0x10];
    assert Pack(table) == head + Pack(table[2..]);
  }

  /** What follows the first three bytes of a piece of the image. */
  lemma Later(img: seq<Byte>, o: nat, p: seq<Byte>, rest: seq<Byte>)
    requires o + |p| <= |img| && img[o..o + |p|] == p && |p| == 3 + |rest| && p[3..] == rest
    ensures img[o + 3..o + 3 + |rest|] == rest
  {
    assert img[o..o + |p|][3..] == img[o + 3..o + |p|];
  }

  lemma Unpacked(a: Entry, b: Entry)
    ensures (a % M8 + (a / M8 + b % 0x10 * 0x10) * M8) % 0x1000 == a
    ensures (a / M8 + b % 0x10 * 0x10 + b / 0x10 * M8) / 0x10 == b
  {
  }

  // ---- chains ------------------------------------------------------------------------

  function ClusterPos(v: Volume, c: nat): nat
    requires c >= 2
  {
    v.dataOff + (c - 2) * v.clusterSize
  }

  /** A cluster the walk copies: neither an end mark nor past the image. */
  predicate Copied(v: Volume, c: nat) { 2 <= c < 0xFF8 && ClusterPos(v, c) + v.clusterSize <= |v.img| }

  /** Wherever a cluster's bytes lie in the image its table entry does too. */
  ghost predicate Readable(v: Volume) { forall c: nat :: Copied(v, c) ==> HasEntry(v, c) }

  /** Any image with clusters of at least two bytes behind a table of at least three is readable. */
  lemma ReadableWhen(v: Volume)
    requires v.clusterSize >= 2 && v.dataOff >= v.fatOff + 3
    ensures Readable(v)
  {
    forall c: nat | Copied(v, c) ensures HasEntry(v, c) {
      Twice(c - 2, v.clusterSize);
    }
  }

  lemma Twice(k: int, s: int)
    requires k >= 0 && s >= 2
    ensures k * s >= 2 * k
  {
  }

  /** Every cluster the walk from `c` copies has its table entry in the image; what lies elsewhere does not matter. */
  predicate Walkable(v: Volume, c: nat, hops: nat)
    decreases v.nclusters + 1 - hops
  {
    Copied(v, c) && hops <= v.nclusters ==> HasEntry(v, c) && Walkable(v, Next(v, c), hops + 1)
  }

  lemma {:induction false} ReadableWalks(v: Volume, c: nat, hops: nat)
    requires Readable(v)
    ensures Walkable(v, c, hops)
    decreases v.nclusters + 1 - hops
  {
    if Copied(v, c) && hops <= v.nclusters { ReadableWalks(v, Next(v, c), hops + 1); }
  }

  /** The clusters the walk copies, in order. */
  function Visited(v: Volume, c: nat, hops: nat): seq<nat>
    requires Walkable(v, c, hops)
    decreases v.nclusters + 1 - hops
  {
    if Copied(v, c) && hops <= v.nclusters then [c] + Visited(v, Next(v, c), hops + 1) else []
  }

  function ClusterBytes(v: Volume, c: nat): seq<Byte>
    requires Copied(v, c)
  {
    v.img[ClusterPos(v, c)..ClusterPos(v, c) + v.clusterSize]
  }

  function Contents(v: Volume, cs: seq<nat>): seq<Byte>
    requires forall i :: 0 <= i < |cs| ==> Copied(v, cs[i])
  {
    if cs == [] then [] else Contents(v, cs[..|cs| - 1]) + ClusterBytes(v, cs[|cs| - 1])
  }

  /** Whatever the table holds, a walk is finite: at most `nclusters + 1` clusters, all of them copied. */
  lemma {:induction false} WalkBounded(v: Volume, c: nat, hops: nat)
    requires Walkable(v, c, hops) && hops <= v.nclusters + 1
    ensures |Visited(v, c, hops)| <= v.nclusters + 1 - hops
    ensures forall i :: 0 <= i < |Visited(v, c, hops)| ==> Copied(v, Visited(v, c, hops)[i])
    decreases v.nclusters + 1 - hops
  {
    if Copied(v, c) && hops <= v.nclusters { WalkBounded(v, Next(v, c), hops + 1); }
  }

  /** `cs` is the whole chain from `c`: every cluster is one of the volume's, and it ends by itself. */
  predicate IsChain(v: Volume, c: nat, cs: seq<nat>)
    decreases |cs|
  {
    if cs == [] then !Copied(v, c)
    else cs[0] == c && Copied(v, c) && c < v.nclusters + 2 && HasEntry(v, c) && IsChain(v, Next(v, c), cs[1..])
  }

  lemma {:induction false} ChainUnique(v: Volume, c: nat, a: seq<nat>, b: seq<nat>)
    requires IsChain(v, c, a) && IsChain(v, c, b)
    ensures a == b
    decreases |a|
  {
    if a != [] {
      ChainUnique(v, Next(v, c), a[1..], b[1..]);
      assert a == [c] + a[1..] && b == [c] + b[1..];
    }
  }

  lemma {:induction false} ChainFrom(v: Volume, c: nat, cs: seq<nat>, i: nat)
    requires IsChain(v, c, cs) && i < |cs|
    ensures IsChain(v, cs[i], cs[i..]) && 2 <= cs[i] < v.nclusters + 2
    decreases i
  {
    if i > 0 {
      ChainFrom(v, Next(v, c), cs[1..], i - 1);
      assert cs[1..][i - 1..] == cs[i..];
    } else {
      assert cs[0..] == cs;
    }
  }

  ghost predicate Distinct(cs: seq<nat>) { forall i, j :: 0 <= i < j < |cs| ==> cs[i] != cs[j] }

  /** A chain that ends does not come back to a cluster it has left. */
  lemma ChainDistinct(v: Volume, c: nat, cs: seq<nat>)
    requires IsChain(v, c, cs)
    ensures Distinct(cs)
  {
    forall i, j | 0 <= i < j < |cs| ensures cs[i] != cs[j] {
      ChainFrom(v, c, cs, i);
      ChainFrom(v, c, cs, j);
      if cs[i] == cs[j] { ChainUnique(v, cs[i], cs[i..], cs[j..]); }
    }
  }

  /** There are only so many cluster numbers. */
  lemma {:induction false} Pigeonhole(cs: seq<nat>, n: nat)
    requires Distinct(cs) && forall i :: 0 <= i < |cs| ==> 2 <= cs[i] < n + 2
    ensures |cs| <= n
    decreases n
  {
    if cs != [] { assert 2 <= cs[0] < n + 2; }
    if n > 0 {
      if k :| 0 <= k < |cs| && cs[k] == n + 1 {
        var rest := cs[..k] + cs[k + 1..];
        forall i | 0 <= i < |rest| ensures rest[i] == cs[if i < k then i else i + 1] { }
        Pigeonhole(rest, n - 1);
      } else {
        Pigeonhole(cs, n - 1);
      }
    }
  }

  /** Up to the cap the walk follows the chain. */
  lemma {:induction false} WalkFollows(v: Volume, c: nat, cs: seq<nat>, hops: nat)
    requires IsChain(v, c, cs) && hops + |cs| <= v.nclusters + 1
    ensures Walkable(v, c, hops) && Visited(v, c, hops) == cs
    decreases |cs|
  {
    if cs != [] {
      WalkFollows(v, Next(v, c), cs[1..], hops + 1);
      assert cs == [c] + cs[1..];
    }
  }

  /** The cap never cuts a chain that stays in the volume and ends: the walk is that chain. */
  lemma ChainWhole(v: Volume, c: nat, cs: seq<nat>)
    requires IsChain(v, c, cs)
    ensures Walkable(v, c, 0) && Visited(v, c, 0) == cs && |cs| <= v.nclusters
  {
    ChainDistinct(v, c, cs);
    forall i | 0 <= i < |cs| ensures 2 <= cs[i] < v.nclusters + 2 { ChainFrom(v, c, cs, i); }
    Pigeonhole(cs, v.nclusters);
    WalkFollows(v, c, cs, 0);
  }

  /** And a walk that stays in the volume is cut exactly when the chain never ends. */
  lemma {:induction false} ShortWalkEnds(v: Volume, c: nat, hops: nat)
    requires Walkable(v, c, hops) && hops <= v.nclusters + 1
    requires forall i :: 0 <= i < |Visited(v, c, hops)| ==> Visited(v, c, hops)[i] < v.nclusters + 2
    ensures |Visited(v, c, hops)| <= v.nclusters - hops ==> IsChain(v, c, Visited(v, c, hops))
    decreases v.nclusters + 1 - hops
  {
    var w := Visited(v, c, hops);
    if Copied(v, c) && hops <= v.nclusters {
      var rest := Visited(v, Next(v, c), hops + 1);
      assert w == [c] + rest && w[0] == c && w[1..] == rest;
      forall i | 0 <= i < |rest| ensures rest[i] < v.nclusters + 2 { assert rest[i] == w[i + 1]; }
      ShortWalkEnds(v, Next(v, c), hops + 1);
    }
  }

  /** Some whole chain starts at `c`. */
  ghost predicate Ends(v: Volume, c: nat) {
    exists cs :: IsChain(v, c, cs)
  }

  lemma CutExactlyOnLoops(v: Volume, c: nat)
    requires Walkable(v, c, 0)
    requires forall i :: 0 <= i < |Visited(v, c, 0)| ==> Visited(v, c, 0)[i] < v.nclusters + 2
    ensures |Visited(v, c, 0)| == v.nclusters + 1 <==> !Ends(v, c)
  {
    hide IsChain, Visited;
    WalkBounded(v, c, 0);
    ShortWalkEnds(v, c, 0);
    if Ends(v, c) {
      var cs :| IsChain(v, c, cs);
      ChainWhole(v, c, cs);
    }
  }

  // ---- what a formatted disk holds ---------------------------------------------------

  /** Clusters one after the other, as the data area has them. */
  function Joined(parts: seq<seq<Byte>>): seq<Byte> {
    if parts == [] then [] else parts[0] + Joined(parts[1..])
  }

  /** A volume with this table and these clusters, the first of them numbered 2. */
  ghost predicate Formatted(v: Volume, table: seq<Entry>, clusters: seq<seq<Byte>>) {
    && Holds(v, table) && |table| == |clusters| + 2 && |clusters| == v.nclusters
    && (forall i :: 0 <= i < |clusters| ==> |clusters[i]| == v.clusterSize)
    && v.dataOff + |Joined(clusters)| <= |v.img| && v.img[v.dataOff..v.dataOff + |Joined(clusters)|] == Joined(clusters)
  }

  /** The table strings the clusters `cs` together, and marks the last with anything from FF8h up. */
  ghost predicate Linked(table: seq<Entry>, cs: seq<nat>) {
    && cs != [] && (forall i :: 0 <= i < |cs| ==> 2 <= cs[i] < |table| && cs[i] < 0xFF8)
    && (forall i :: 0 < i < |cs| ==> table[cs[i - 1]] == cs[i])
    && table[cs[|cs| - 1]] >= 0xFF8
  }

  /** Cluster `c`'s bytes lie where the ones before it end. */
  lemma {:induction false} ClusterAt(img: seq<Byte>, o: nat, clusters: seq<seq<Byte>>, size: nat, i: nat)
    requires i < |clusters| && forall k :: 0 <= k < |clusters| ==> |clusters[k]| == size
    requires o + |Joined(clusters)| <= |img| && img[o..o + |Joined(clusters)|] == Joined(clusters)
    ensures o + i * size + size <= |img| && img[o + i * size..o + i * size + size] == clusters[i]
    decreases i
  {
    var all, rest := Joined(clusters), Joined(clusters[1..]);
    assert all == clusters[0] + rest && |all| == size + |rest|;
    hide Joined;
    assert img[o..o + |all|][..size] == clusters[0] && img[o..o + |all|][size..] == rest;
    if i > 0 {
      assert img[o + size..o + size + |rest|] == img[o..o + |all|][size..];
      ClusterAt(img, o + size, clusters[1..], size, i - 1);
      assert o + size + (i - 1) * size == o + i * size;
    } else {
      assert img[o..o + size] == img[o..o + |all|][..size];
    }
  }

  lemma ClusterReads(v: Volume, table: seq<Entry>, clusters: seq<seq<Byte>>, c: nat)
    requires Formatted(v, table, clusters) && 2 <= c < |table| && c < 0xFF8
    ensures Copied(v, c) && ClusterBytes(v, c) == clusters[c - 2]
  {
    ClusterAt(v.img, v.dataOff, clusters, v.clusterSize, c - 2);
  }

  lemma {:induction false} LinkedIsChain(v: Volume, table: seq<Entry>, clusters: seq<seq<Byte>>, cs: seq<nat>)
    requires Formatted(v, table, clusters) && Linked(table, cs)
    ensures IsChain(v, cs[0], cs)
    decreases |cs|
  {
    hide Holds, HasEntry, Next, Joined, ClusterPos;
    var c := cs[0];
    ClusterReads(v, table, clusters, c);
    NextDecodes(v, table, c);
    if |cs| > 1 {
      assert table[cs[0]] == cs[1];
      LinkedLater(table, cs);
      LinkedIsChain(v, table, clusters, cs[1..]);
    } else {
      assert cs[1..] == [];
      EndsAt(v, table[c]);
    }
  }

  lemma LinkedLater(table: seq<Entry>, cs: seq<nat>)
    requires Linked(table, cs) && |cs| > 1
    ensures Linked(table, cs[1..])
  {
    forall i | 0 < i < |cs| - 1 ensures table[cs[1..][i - 1]] == cs[1..][i] { assert table[cs[i]] == cs[i + 1]; }
  }

  /** Every mark from FF8h up ends a chain. */
  lemma EndsAt(v: Volume, mark: nat)
    requires mark >= 0xFF8
    ensures !Copied(v, mark)
  {
  }

  /** The clusters a file is kept in, in its order. */
  function Kept(clusters: seq<seq<Byte>>, cs: seq<nat>): seq<Byte>
    requires forall i :: 0 <= i < |cs| ==> 2 <= cs[i] < |clusters| + 2
  {
    if cs == [] then [] else Kept(clusters, cs[..|cs| - 1]) + clusters[cs[|cs| - 1] - 2]
  }

  lemma {:induction false} ContentsKept(v: Volume, table: seq<Entry>, clusters: seq<seq<Byte>>, cs: seq<nat>)
    requires Formatted(v, table, clusters) && forall i :: 0 <= i < |cs| ==> 2 <= cs[i] < |table| && cs[i] < 0xFF8
    ensures (forall i :: 0 <= i < |cs| ==> Copied(v, cs[i])) && Contents(v, cs) == Kept(clusters, cs)
    decreases |cs|
  {
    hide Formatted, ClusterBytes, Copied;
    assert |table| == |clusters| + 2 by { FormattedSizes(v, table, clusters); }
    forall i | 0 <= i < |cs| ensures Copied(v, cs[i]) { ClusterReads(v, table, clusters, cs[i]); }
    if cs != [] {
      ContentsKept(v, table, clusters, cs[..|cs| - 1]);
      ClusterReads(v, table, clusters, cs[|cs| - 1]);
    }
  }

  lemma FormattedSizes(v: Volume, table: seq<Entry>, clusters: seq<seq<Byte>>)
    requires Formatted(v, table, clusters)
    ensures |table| == |clusters| + 2
  {
  }

  /**
   A file written to a formatted disk is read back: from its first cluster the walk copies the clusters it
   is kept in, each of them whole and in order, and nothing else.
   */
  lemma FileReadBack(v: Volume, table: seq<Entry>, clusters: seq<seq<Byte>>, cs: seq<nat>)
    requires Formatted(v, table, clusters) && Linked(table, cs)
    ensures Walkable(v, cs[0], 0) && Visited(v, cs[0], 0) == cs
    ensures |table| == |clusters| + 2 && (forall i :: 0 <= i < |cs| ==> Copied(v, cs[i]))
    ensures Contents(v, cs) == Kept(clusters, cs)
  {
    FormattedSizes(v, table, clusters);
    hide Formatted, IsChain, Visited, Walkable, Copied;
    LinkedIsChain(v, table, clusters, cs);
    ChainWhole(v, cs[0], cs);
    ContentsKept(v, table, clusters, cs);
  }

  // ---- the reader --------------------------------------------------------------------

  /** One cluster further along the walk. */
  lemma WalkOn(v: Volume, c: nat, hops: nat)
    requires Walkable(v, c, hops) && Copied(v, c) && hops <= v.nclusters
    ensures HasEntry(v, c) && Walkable(v, Next(v, c), hops + 1)
    ensures Visited(v, c, hops) == [c] + Visited(v, Next(v, c), hops + 1)
  {
  }

  lemma WalkOver(v: Volume, c: nat, hops: nat)
    requires Walkable(v, c, hops) && !(Copied(v, c) && hops <= v.nclusters)
    ensures Visited(v, c, hops) == []
  {
  }

  method ReadCluster(v: Volume, c: nat) returns (bytes: seq<Byte>)
    requires Copied(v, c)
    ensures bytes == ClusterBytes(v, c)
  {
    var o := v.dataOff + (c - 2) * v.clusterSize;
    bytes := v.img[o..o + v.clusterSize];
  }

  /** `chain`: the bytes of the clusters visited, and for a file no more of them than its size. */
  method Chain(v: Volume, start: nat, size: nat, cap: bool) returns (out: seq<Byte>)
    requires Walkable(v, start, 0)
    ensures forall i :: 0 <= i < |Visited(v, start, 0)| ==> Copied(v, Visited(v, start, 0)[i])
    ensures var whole := Contents(v, Visited(v, start, 0));
            out == if cap && |whole| > size then whole[..size] else whole
  {
    hide Copied, HasEntry, Next, ClusterBytes, Walkable, Visited;
    WalkBounded(v, start, 0);
    ghost var all := Visited(v, start, 0);
    ghost var done: seq<nat> := [];
    out := [];
    var c: nat, hops: nat := start, 0;
    while Copied(v, c) && hops <= v.nclusters
      invariant hops <= v.nclusters + 1
      invariant Walkable(v, c, hops) && done + Visited(v, c, hops) == all
      invariant forall i :: 0 <= i < |done| ==> Copied(v, done[i])
      invariant out == Contents(v, done)
      decreases v.nclusters + 1 - hops
    {
      WalkOn(v, c, hops);
      var bytes := ReadCluster(v, c);
      out := out + bytes;
      assert (done + [c])[..|done|] == done;
      assert done + ([c] + Visited(v, Next(v, c), hops + 1)) == done + [c] + Visited(v, Next(v, c), hops + 1);
      done := done + [c];
      c, hops := Next(v, c), hops + 1;
    }
    WalkOver(v, c, hops);
    assert done == all;
    if cap && |out| > size { out := out[..size]; }
  }
}
