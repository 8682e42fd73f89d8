/** How file bytes are laid over the sectors and clusters of a chain (kernel/fat.c:405-421, 566-594). */
module FatContent {
  import opened Bytes
  import opened FatTable
  import opened FatChains
  import opened FatFiles

  /** The sector that holds buf from offset w, padded with zeros. */
  function Chunk(buf: seq<Byte>, w: nat): Sector
  {
    if |buf| <= w then ZeroSector()
    else if w + 512 <= |buf| then buf[w..w + 512]
    else buf[w..] + Zeros(512 - (|buf| - w))
  }

  function Reach(buf: seq<Byte>, w: nat): nat { if w <= |buf| then w else |buf| }

  lemma ChunkAt(buf: seq<Byte>, w: nat, n: nat)
    requires w < |buf| && n == if |buf| - w > 512 then 512 else |buf| - w
    ensures |buf[w..w + n] + Zeros(512 - n)| == 512 && buf[w..w + n] + Zeros(512 - n) == Chunk(buf, w)
  {
  }

  /** buf[w..p] padded to p, followed by the chunk at p. */
  lemma AppendChunk(buf: seq<Byte>, w: nat, p: nat)
    requires w <= |buf| && w <= p
    ensures var m, e := Reach(buf, p), Reach(buf, p + 512);
            (buf[w..m] + Zeros(p - m)) + Chunk(buf, p) == buf[w..e] + Zeros(p + 512 - e)
  {
    var m, e := Reach(buf, p), Reach(buf, p + 512);
    if p < |buf| {
      assert buf[w..m] + Zeros(0) == buf[w..m];
      assert buf[w..m] + buf[m..e] == buf[w..e];
      assert Chunk(buf, p) == buf[m..e] + Zeros(p + 512 - e);
    } else {
      assert Zeros(p - m) + Zeros(512) == Zeros(p + 512 - m);
    }
  }

  /** buf[w..p], padded with zeros where buf ends before p. */
  ghost function Padded(buf: seq<Byte>, w: nat, p: nat): seq<Byte>
    requires w <= |buf| && w <= p
  {
    buf[w..Reach(buf, p)] + Zeros(p - Reach(buf, p))
  }

  lemma PaddedStep(buf: seq<Byte>, w: nat, p: nat)
    requires w <= |buf| && w <= p
    ensures Padded(buf, w, w) == [] && Padded(buf, w, p) + Chunk(buf, p) == Padded(buf, w, p + 512)
  {
    AppendChunk(buf, w, p);
  }

  lemma {:induction false} ChunksFlatten(buf: seq<Byte>, w: nat, ss: seq<Sector>)
    requires w <= |buf|
    requires forall s :: 0 <= s < |ss| ==> ss[s] == Chunk(buf, w + 512 * s)
    ensures Flatten(ss) == Padded(buf, w, w + 512 * |ss|)
  {
    hide Chunk, Padded;
    if ss == [] {
      PaddedStep(buf, w, w);
    } else {
      var n, p := |ss| - 1, w + 512 * (|ss| - 1);
      ChunksFlatten(buf, w, ss[..n]);
      assert ss[n] == Chunk(buf, p);
      PaddedStep(buf, w, p);
    }
  }

  /** d' differs from d at most inside cluster c. */
  ghost predicate OnlyCluster(g: Geometry, d: Disk, d': Disk, c: int)
  {
    |d'| == |d| && forall i :: 0 <= i < |d| && !InCluster(g, c, i) ==> d'[i] == d[i]
  }

  lemma ClusterInside(g: Geometry, d: Disk, d': Disk, c: int)
    requires GeometryOk(g, |d|) && 2 <= c < g.clusters + 2 && OnlyCluster(g, d, d', c)
    ensures OutsideKept(g, d, d')
  {
    assert SameExcept(g, d, d', c) by { hide InCluster; }
    hide OnlyCluster, SameExcept;
    ExceptInside(g, d, d', c);
  }

  /** Data writes leave the table and the directory alone. */
  lemma DataWriteKeeps(g: Geometry, d: Disk, d': Disk, c: int)
    requires GeometryOk(g, |d|) && Mirrored(g, d) && OnlyCluster(g, d, d', c) && 2 <= c < g.clusters + 2
    ensures Table(g, d') == Table(g, d) && Mirrored(g, d') && Directory(g, d') == Directory(g, d)
  {
    ClusterRange(g, c, |d|);
    assert FatImage(g, d') == FatImage(g, d);
    forall f: nat, t: nat | f < g.numFats && t < g.fatSize
      ensures FatSector(g, f, t) < |d'| && d'[FatSector(g, f, t)] == d'[g.fatStart + t]
    {
      FatSectorRange(g, f, t);
    }
  }

  /** The sectors of cluster c hold buf from offset w on. */
  ghost predicate Filled(g: Geometry, d: Disk, c: int, buf: seq<Byte>, w: nat)
  {
    && 0 <= DataSector(g, c) && DataSector(g, c) + g.spc <= |d|
    && forall i :: DataSector(g, c) <= i < DataSector(g, c) + g.spc ==>
         d[i] == Chunk(buf, w + 512 * (i - DataSector(g, c)))
  }

  /** The sectors from s on were zero and buf ends before them, so the whole cluster is filled. */
  lemma SectorsFilled(g: Geometry, d0: Disk, d: Disk, c: int, buf: seq<Byte>, w: nat, s: nat)
    requires 0 <= DataSector(g, c) && DataSector(g, c) + g.spc <= |d0| && |d| == |d0| && s <= g.spc &&
             Filled(g, d0, c, [], 0)
    requires s == g.spc || |buf| <= w + 512 * s
    requires forall i :: DataSector(g, c) <= i < DataSector(g, c) + s ==>
             d[i] == Chunk(buf, w + 512 * (i - DataSector(g, c)))
    requires forall i :: 0 <= i < |d| && !(DataSector(g, c) <= i < DataSector(g, c) + s) ==> d[i] == d0[i]
    ensures OnlyCluster(g, d0, d, c) && Filled(g, d, c, buf, w)
  {
    hide DataSector;
  }

  lemma FilledData(g: Geometry, d: Disk, c: int, buf: seq<Byte>, w: nat)
    requires Filled(g, d, c, buf, w) && w <= |buf|
    ensures var e := Reach(buf, w + ClusterBytes(g));
            ClusterData(g, d, c) == buf[w..e] + Zeros(w + ClusterBytes(g) - e)
  {
    var s := DataSector(g, c);
    var ss := d[s..s + g.spc];
    ChunksFlatten(buf, w, ss);
  }

  lemma CeilUnique(n: nat, b: nat, len: nat)
    requires 1 <= b && 1 <= n && (n - 1) * b < len <= n * b
    ensures (len + b - 1) / b == n
  {
    var q, r := (len + b - 1) / b, (len + b - 1) % b;
    assert len + b - 1 == q * b + r;
    if q < n { NextMultiple(q, n, b); } else if n < q { NextMultiple(n, q, b); }
  }

  /** Filling the last cluster of a chain whose earlier clusters hold buf[..w]. */
  lemma ChainGrown(g: Geometry, d: Disk, chain: seq<nat>, buf: seq<Byte>, w: nat)
    requires chain != [] && w <= |buf|
    requires ChainData(g, d, chain[..|chain| - 1]) == buf[..w]
    requires Filled(g, d, chain[|chain| - 1], buf, w)
    ensures var e := Reach(buf, w + ClusterBytes(g));
            ChainData(g, d, chain) == buf[..e] + Zeros(w + ClusterBytes(g) - e)
  {
    FilledData(g, d, chain[|chain| - 1], buf, w);
    var e := Reach(buf, w + ClusterBytes(g));
    assert buf[..w] + buf[w..e] == buf[..e];
  }

  lemma SmallQuotient(a: nat, b: nat)
    requires a < b
    ensures a / b == 0
  {
  }

  lemma EmptyStored(g: Geometry, d: Disk)
    requires 1 <= g.spc
    ensures Needed(g, 0) == 0 && Stores(g, d, [], [])
  {
    var b := ClusterBytes(g);
    SmallQuotient(b - 1, b);
  }

  /** A chain that has taken in all of buf stores it, in exactly the clusters needed. */
  lemma ChainComplete(g: Geometry, d: Disk, chain: seq<nat>, buf: seq<Byte>, w: nat)
    requires 1 <= g.spc && chain != [] && w == (|chain| - 1) * ClusterBytes(g) && w < |buf| <= w + ClusterBytes(g)
    requires ChainData(g, d, chain) == buf[..|buf|] + Zeros(w + ClusterBytes(g) - |buf|)
    ensures Stores(g, d, chain, buf)
  {
    OneMore(|chain|, ClusterBytes(g));
    CeilUnique(|chain|, ClusterBytes(g), |buf|);
    assert buf[..|buf|] == buf;
  }

  lemma CeilAbove(n: nat, b: nat, len: nat)
    requires 1 <= b && n * b < len
    ensures n < (len + b - 1) / b
  {
    var q, r := (len + b - 1) / b, (len + b - 1) % b;
    assert len + b - 1 == q * b + r;
    assert q <= n ==> q * b <= n * b;
  }

  /** What allocate_cluster does when it returns c: the first free cluster, end-marked and zeroed. */
  ghost predicate Allocated(g: Geometry, d: Disk, d': Disk, c: nat)
    requires GeometryOk(g, |d|)
  {
    && |d'| == |d| && 2 <= c < g.clusters + 2
    && Table(g, d)[c] == 0 && (forall k :: 2 <= k < c ==> Table(g, d)[k] != 0)
    && Table(g, d') == Table(g, d)[c := EocMarker(g.bits)]
    && Mirrored(g, d') && SameExcept(g, d, d', c) && Filled(g, d', c, [], 0)
  }

  lemma AllocatedInside(g: Geometry, d: Disk, d': Disk, c: nat)
    requires GeometryOk(g, |d|) && Allocated(g, d, d', c)
    ensures OutsideKept(g, d, d')
  {
    hide Table, Mirrored, Filled, SameExcept;
    ExceptInside(g, d, d', c);
  }

  /** Reading along a chain: the bytes of its first i clusters come first. */
  lemma {:induction false} ChainDataPrefix(g: Geometry, d: Disk, chain: seq<nat>, i: nat)
    requires i <= |chain|
    ensures ChainData(g, d, chain[..i]) <= ChainData(g, d, chain)
    decreases |chain|
  {
    if i < |chain| {
      ChainDataPrefix(g, d, chain[..|chain| - 1], i);
      assert chain[..|chain| - 1][..i] == chain[..i];
    } else {
      assert chain[..i] == chain;
    }
  }

  lemma ChainDataStep(g: Geometry, d: Disk, chain: seq<nat>, i: nat)
    requires i < |chain|
    ensures ChainData(g, d, chain[..i + 1]) == ChainData(g, d, chain[..i]) + ClusterData(g, d, chain[i])
  {
    assert chain[..i + 1][..i] == chain[..i];
  }

  /** After i clusters, the bytes read so far are the first bytes of the content. */
  lemma ReadSoFar(g: Geometry, d: Disk, chain: seq<nat>, content: seq<Byte>, i: nat, data: seq<Byte>, take: nat)
    requires 1 <= g.spc && Stores(g, d, chain, content) && i < |chain|
    requires data == ChainData(g, d, chain[..i]) && take <= |ClusterData(g, d, chain[i])|
    requires |data| + take <= |content|
    ensures data + ClusterData(g, d, chain[i])[..take] == content[..|data| + take]
  {
    ChainDataStep(g, d, chain, i);
    ChainDataPrefix(g, d, chain, i + 1);
    var all := ChainData(g, d, chain);
    assert data + ClusterData(g, d, chain[i])[..take] == ChainData(g, d, chain[..i + 1])[..|data| + take];
    assert all[..|data| + take] == content[..|data| + take];
  }

  lemma {:induction false} FlattenAt(ss: seq<Sector>, k: nat)
    requires k < |ss|
    ensures Flatten(ss)[512 * k..512 * k + 512] == ss[k]
  {
    var n := |ss| - 1;
    if k < n {
      FlattenAt(ss[..n], k);
      assert Flatten(ss)[512 * k..512 * k + 512] == Flatten(ss[..n])[512 * k..512 * k + 512];
    }
  }

  lemma SectorOfCluster(g: Geometry, d: Disk, c: nat, s: nat)
    requires 0 <= DataSector(g, c) && DataSector(g, c) + g.spc <= |d| && s < g.spc
    ensures |ClusterData(g, d, c)| == ClusterBytes(g)
    ensures ClusterData(g, d, c)[512 * s..512 * s + 512] == d[DataSector(g, c) + s]
  {
    var sec := DataSector(g, c);
    FlattenAt(d[sec..sec + g.spc], s);
  }

  lemma ReadStep(g: Geometry, d: Disk, c: nat, s: nat, chunk: nat)
    requires 0 <= DataSector(g, c) && DataSector(g, c) + g.spc <= |d| && s < g.spc && chunk <= 512
    ensures |ClusterData(g, d, c)| == ClusterBytes(g)
    ensures ClusterData(g, d, c)[..512 * s] + d[DataSector(g, c) + s][..chunk] ==
            ClusterData(g, d, c)[..512 * s + chunk]
  {
    var all := ClusterData(g, d, c);
    SectorOfCluster(g, d, c, s);
    assert all[..512 * s] + all[512 * s..512 * s + 512][..chunk] == all[..512 * s + chunk];
  }

  lemma StoredLength(g: Geometry, d: Disk, chain: seq<nat>, content: seq<Byte>)
    requires 1 <= g.spc && Stores(g, d, chain, content)
    ensures |chain| == Needed(g, |content|)
  {
  }

  lemma NothingRead(g: Geometry, d: Disk, chain: seq<nat>)
    ensures ChainData(g, d, chain[..0]) == []
  {
  }

  lemma WholeChainRead(g: Geometry, d: Disk, chain: seq<nat>, content: seq<Byte>)
    requires 1 <= g.spc && Stores(g, d, chain, content)
    ensures |content| <= |ChainData(g, d, chain[..|chain|])|
  {
    assert chain[..|chain|] == chain;
  }
}
