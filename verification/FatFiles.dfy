/** Cluster contents, directory entries and the catalogue of files that a volume represents. */
module FatFiles {
  import opened Common
  import opened Bytes
  import opened FatTable
  import opened FatChains
  import opened FatNames

  // ---------------------------------------------------------------- cluster contents

  function DataSector(g: Geometry, c: int): int { g.dataStart + (c - 2) * g.spc }

  function ClusterBytes(g: Geometry): nat { g.spc * 512 }

  /** The bytes stored in cluster c. */
  ghost function ClusterData(g: Geometry, d: Disk, c: int): seq<Byte>
  {
    var s := DataSector(g, c);
    if 0 <= s && s + g.spc <= |d| then Flatten(d[s..s + g.spc]) else []
  }

  /** The bytes stored along a chain. */
  ghost function ChainData(g: Geometry, d: Disk, chain: seq<nat>): seq<Byte>
  {
    if chain == [] then [] else ChainData(g, d, chain[..|chain| - 1]) + ClusterData(g, d, chain[|chain| - 1])
  }

  lemma NextMultiple(a: int, b: int, n: nat)
    requires a < b
    ensures a * n + n <= b * n
  {
    assert 0 <= (b - a - 1) * n == b * n - a * n - n;
  }

  lemma ClusterRange(g: Geometry, c: int, size: nat)
    requires GeometryOk(g, size) && 2 <= c < g.clusters + 2
    ensures g.dataStart <= DataSector(g, c) && DataSector(g, c) + g.spc <= size && 1 <= g.spc
  {
    NextMultiple(c - 2, g.clusters, g.spc);
    assert 0 <= (c - 2) * g.spc;
  }

  lemma ClustersApart(g: Geometry, a: int, b: int)
    requires a < b
    ensures DataSector(g, a) + g.spc <= DataSector(g, b)
  {
    NextMultiple(a - 2, b - 2, g.spc);
  }

  predicate InCluster(g: Geometry, c: int, i: int) { DataSector(g, c) <= i < DataSector(g, c) + g.spc }

  /** d' differs from d at most in the table and in cluster c. */
  ghost predicate SameExcept(g: Geometry, d: Disk, d': Disk, c: int)
  {
    && |d'| == |d|
    && forall i :: 0 <= i < |d| && !(g.fatStart <= i < g.rootStart) && !InCluster(g, c, i) ==> d'[i] == d[i]
  }

  lemma ExceptInside(g: Geometry, d: Disk, d': Disk, c: int)
    requires GeometryOk(g, |d|) && 2 <= c < g.clusters + 2 && SameExcept(g, d, d', c)
    ensures OutsideKept(g, d, d')
  {
    NextMultiple(c - 2, g.clusters, g.spc);
    assert 0 <= (c - 2) * g.spc;
    var s := DataSector(g, c);
    assert g.dataStart <= s && s + g.spc <= DataEnd(g);
    hide DataSector, DataEnd;
  }

  lemma OtherClusterKept(g: Geometry, d: Disk, d': Disk, c: int, x: int)
    requires GeometryOk(g, |d|) && SameExcept(g, d, d', c) && x != c && 2 <= x < g.clusters + 2
    ensures ClusterData(g, d', x) == ClusterData(g, d, x)
  {
    ClusterRange(g, x, |d|);
    if x < c { ClustersApart(g, x, c); } else { ClustersApart(g, c, x); }
    var s := DataSector(g, x);
    assert d'[s..s + g.spc] == d[s..s + g.spc];
  }

  lemma {:induction false} ChainDataKept(g: Geometry, d: Disk, d': Disk, chain: seq<nat>)
    requires forall i :: 0 <= i < |chain| ==> ClusterData(g, d', chain[i]) == ClusterData(g, d, chain[i])
    ensures ChainData(g, d', chain) == ChainData(g, d, chain)
  {
    if chain != [] { ChainDataKept(g, d, d', chain[..|chain| - 1]); }
  }

  lemma {:induction false} ChainDataLength(g: Geometry, d: Disk, chain: seq<nat>)
    requires GeometryOk(g, |d|)
    requires forall i :: 0 <= i < |chain| ==> 2 <= chain[i] < g.clusters + 2
    ensures |ChainData(g, d, chain)| == |chain| * ClusterBytes(g)
  {
    if chain != [] {
      ChainDataLength(g, d, chain[..|chain| - 1]);
      ClusterRange(g, chain[|chain| - 1], |d|);
      OneMore(|chain|, ClusterBytes(g));
    }
  }

  lemma OneMore(n: nat, b: nat)
    requires 1 <= n
    ensures n * b == (n - 1) * b + b
  {
  }

  /** How many clusters len bytes take. */
  function Needed(g: Geometry, len: nat): nat
    requires 1 <= g.spc
  {
    (len + ClusterBytes(g) - 1) / ClusterBytes(g)
  }

  /** The chain stores the content, padded with zeros to exactly the clusters it needs. */
  ghost predicate Stores(g: Geometry, d: Disk, chain: seq<nat>, content: seq<Byte>)
    requires 1 <= g.spc
  {
    && |chain| == Needed(g, |content|)
    && |content| <= |ChainData(g, d, chain)|
    && ChainData(g, d, chain) == content + Zeros(|ChainData(g, d, chain)| - |content|)
  }

  // ---------------------------------------------------------------- directory entries

  type Entry32 = e: seq<Byte> | |e| == 32 witness seq(32, i => 0)

  const FREE: Byte := 0x00
  const DELETED: Byte := 0xE5
  const ARCHIVE: Byte := 0x20

  function NameOf(e: Entry32): seq<Byte> { e[..11] }

  function FirstCluster(e: Entry32): nat { Le16(e, 26) + 65536 * Le16(e, 20) }

  function SizeOf(e: Entry32): nat { Le32(e, 28) }

  predicate InUse(e: Entry32) { e[0] != FREE && e[0] != DELETED }

  /** A file, as opposed to a long-name part or a volume label. */
  predicate IsFile(e: Entry32) { InUse(e) && e[11] != 0x0F && e[11] / 8 % 2 == 0 }

  /** The entry with its cluster, size and attribute fields rewritten. */
  function WithFile(e: Entry32, first: nat, size: nat): Entry32
  {
    e[..11] + [ARCHIVE] + e[12..20] + Bytes16(first / 65536) + e[22..26] + Bytes16(first % 65536) + Bytes32(size)
  }

  function WithName(e: Entry32, name: seq<Byte>): Entry32
    requires |name| == 11
  {
    name + e[11..]
  }

  lemma WithFileFields(e: Entry32, first: nat, size: nat)
    requires first < WORD32 && size < WORD32
    ensures var r := WithFile(e, first, size);
            && NameOf(r) == NameOf(e) && r[0] == e[0] && r[11] == ARCHIVE
            && FirstCluster(r) == first && SizeOf(r) == size
  {
    var r := WithFile(e, first, size);
    Le16Bytes16(first / 65536);
    Le16Bytes16(first % 65536);
    Le16Bytes16(size / 65536);
    Le16Bytes16(size % 65536);
    assert r[20..22] == Bytes16(first / 65536) && r[26..28] == Bytes16(first % 65536);
    assert r[28..32] == Bytes32(size);
    assert r[28] == r[28..32][0] && r[29] == r[28..32][1] && r[30] == r[28..32][2] && r[31] == r[28..32][3];
  }

  lemma WithNameFields(e: Entry32, name: seq<Byte>)
    requires |name| == 11
    ensures var r := WithName(e, name);
            && NameOf(r) == name && r[0] == name[0] && r[11] == e[11]
            && FirstCluster(r) == FirstCluster(e) && SizeOf(r) == SizeOf(e)
  {
  }

  function Slots(g: Geometry): nat { g.rootSectors * 16 }

  /** The root directory as a sequence of 32-byte entries. */
  function Directory(g: Geometry, d: Disk): (dir: seq<Entry32>)
    requires g.rootStart + g.rootSectors <= |d|
    ensures |dir| == Slots(g)
  {
    seq(Slots(g), k requires 0 <= k < Slots(g) => SlotIn(d[g.rootStart + k / 16], k % 16))
  }

  function SlotIn(s: Sector, i: nat): Entry32
    requires i < 16
  {
    s[32 * i..32 * i + 32]
  }

  function WithSlot(s: Sector, i: nat, e: Entry32): Sector
    requires i < 16
  {
    s[..32 * i] + e + s[32 * i + 32..]
  }

  lemma SlotUpdate(s: Sector, i: nat, e: Entry32, j: nat)
    requires i < 16 && j < 16
    ensures SlotIn(WithSlot(s, i, e), j) == if j == i then e else SlotIn(s, j)
  {
  }

  lemma SlotPlace(g: Geometry, d: Disk, s: nat, i: nat)
    requires g.rootStart + g.rootSectors <= |d| && s < g.rootSectors && i < 16
    ensures (16 * s + i) / 16 == s && (16 * s + i) % 16 == i && 16 * s + i < Slots(g)
    ensures Directory(g, d)[16 * s + i] == SlotIn(d[g.rootStart + s], i)
  {
  }

  /** The disk after writing back the directory sector with slot k replaced. */
  function PutEntry(g: Geometry, d: Disk, k: nat, e: Entry32): Disk
    requires g.rootStart + g.rootSectors <= |d| && k < Slots(g)
  {
    var i := g.rootStart + k / 16;
    d[i := WithSlot(d[i], k % 16, e)]
  }

  lemma DirectoryUpdate(g: Geometry, d: Disk, k: nat, e: Entry32)
    requires g.rootStart + g.rootSectors <= |d| && k < Slots(g)
    ensures Directory(g, PutEntry(g, d, k, e)) == Directory(g, d)[k := e]
  {
    var i, d' := g.rootStart + k / 16, PutEntry(g, d, k, e);
    forall j | 0 <= j < Slots(g) ensures Directory(g, d')[j] == Directory(g, d)[k := e][j] {
      if j / 16 == k / 16 { SlotUpdate(d[i], k % 16, e, j % 16); }
    }
  }

  /** A directory write leaves the table and all cluster contents alone. */
  lemma DirectoryWriteKeeps(g: Geometry, d: Disk, k: nat, e: Entry32)
    requires GeometryOk(g, |d|) && Mirrored(g, d) && k < Slots(g)
    ensures var d' := PutEntry(g, d, k, e);
            && Table(g, d') == Table(g, d) && Mirrored(g, d')
            && forall c :: 2 <= c < g.clusters + 2 ==> ClusterData(g, d', c) == ClusterData(g, d, c)
  {
    var d' := PutEntry(g, d, k, e);
    assert FatImage(g, d') == FatImage(g, d);
    forall f: nat, t: nat | f < g.numFats && t < g.fatSize
      ensures FatSector(g, f, t) < |d'| && d'[FatSector(g, f, t)] == d'[g.fatStart + t]
    {
      FatSectorRange(g, f, t);
    }
    forall c | 2 <= c < g.clusters + 2 ensures ClusterData(g, d', c) == ClusterData(g, d, c) {
      ClusterRange(g, c, |d|);
      var s := DataSector(g, c);
      assert d'[s..s + g.spc] == d[s..s + g.spc];
    }
  }
}
