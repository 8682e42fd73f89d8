/** The chain that a write builds, and what building it leaves alone (kernel/fat.c:566-594). */
module FatGrowth {
  import opened Bytes
  import opened FatTable
  import opened FatChains
  import opened FatFiles
  import opened FatContent
  import opened FatCatalog

  /** A cluster owned before the write began still belongs where it did and holds the same bytes. */
  ghost predicate Untouched(g: Geometry, d0: Disk, w0: Catalog, d: Disk, own: Owners, c: nat)
    requires c in w0.own
  {
    c in own && own[c] == w0.own[c] && own[c].chain + 1 < |w0.chains| && ClusterData(g, d, c) == ClusterData(g, d0, c)
  }

  /** From disk d0 and catalogue w0, clusters have been linked into `chain`, and nothing else changed. */
  ghost predicate Grown(g: Geometry, d0: Disk, w0: Catalog, d: Disk, chain: seq<nat>, own: Owners)
    requires GeometryOk(g, |d0|)
  {
    && 1 <= |w0.chains| && |d| == |d0| && Mirrored(g, d) && Directory(g, d) == Directory(g, d0)
    && ChainsOk(Table(g, d), EocThreshold(g.bits), w0.chains[|w0.chains| - 1 := chain], own)
    && (forall c :: c in w0.own ==> Untouched(g, d0, w0, d, own, c))
    && Used(Table(g, d), g.clusters + 2) == Used(Table(g, d0), g.clusters + 2) + |chain|
  }

  lemma GrowthStart(g: Geometry, d0: Disk, w0: Catalog)
    requires GeometryOk(g, |d0|) && Mirrored(g, d0)
    requires ChainsOk(Table(g, d0), EocThreshold(g.bits), w0.chains, w0.own)
    requires 1 <= |w0.chains| && w0.chains[|w0.chains| - 1] == []
    ensures Grown(g, d0, w0, d0, [], w0.own)
  {
    hide Mirrored, Table;
    assert w0.chains[|w0.chains| - 1 := []] == w0.chains;
    forall c | c in w0.own ensures Untouched(g, d0, w0, d0, w0.own, c) {
      assert Owned(w0.chains, w0.own[c], c);
    }
  }

  lemma DirectoryKept(g: Geometry, d: Disk, d': Disk, c: nat)
    requires GeometryOk(g, |d|) && SameExcept(g, d, d', c) && 2 <= c < g.clusters + 2
    ensures Directory(g, d') == Directory(g, d)
  {
    ClusterRange(g, c, |d|);
  }

  /** The table after c is end-marked and the old last cluster is pointed at it. */
  ghost function LinkedTable(fat: seq<nat>, chain: seq<nat>, c: nat, mark: nat): seq<nat>
    requires c < |fat|
  {
    if chain == [] then fat[c := mark]
    else if chain[|chain| - 1] < |fat| then fat[c := mark][chain[|chain| - 1] := c]
    else fat
  }

  lemma UsedAfterLink(fat: seq<nat>, chain: seq<nat>, c: nat, mark: nat)
    requires 2 <= c < |fat| && fat[c] == 0 && mark != 0
    requires chain != [] ==> 2 <= chain[|chain| - 1] < |fat| && fat[chain[|chain| - 1]] != 0
    ensures Used(LinkedTable(fat, chain, c, mark), |fat|) == Used(fat, |fat|) + 1
  {
    UsedUpdate(fat, |fat|, c, mark);
    if chain != [] {
      UsedUpdate(fat[c := mark], |fat|, chain[|chain| - 1], c);
    }
  }

  /** A newly allocated cluster joins the chain. */
  lemma GrowthExtended(g: Geometry, d0: Disk, w0: Catalog, d: Disk, chain: seq<nat>, own: Owners, c: nat, d': Disk)
    requires GeometryOk(g, |d0|) && Grown(g, d0, w0, d, chain, own)
    requires 2 <= c < g.clusters + 2 && Table(g, d)[c] == 0
    requires |d'| == |d0| && SameExcept(g, d, d', c) && Mirrored(g, d')
    requires Table(g, d') == LinkedTable(Table(g, d), chain, c, EocMarker(g.bits))
    ensures c !in own
    ensures Grown(g, d0, w0, d', chain + [c], own[c := Link(|w0.chains| - 1, |chain|)])
  {
    hide Mirrored, Table, ClusterData, Directory, SameExcept;
    var p, fat, eoc := |w0.chains| - 1, Table(g, d), EocThreshold(g.bits);
    var chains := w0.chains[p := chain];
    DirectoryKept(g, d, d', c);
    ExtendChain(fat, eoc, chains, own, p, c, EocMarker(g.bits), Table(g, d'));
    assert chains[p := chain + [c]] == w0.chains[p := chain + [c]];
    if chain != [] { assert Linked(fat, eoc, chains, own, p, |chain| - 1); }
    UsedAfterLink(fat, chain, c, EocMarker(g.bits));
    forall k | k in w0.own ensures Untouched(g, d0, w0, d', own[c := Link(p, |chain|)], k) {
      assert Untouched(g, d0, w0, d, own, k);
      assert Owned(chains, own[k], k);
      assert Linked(fat, eoc, chains, own, own[k].chain, own[k].pos);
      OtherClusterKept(g, d, d', c, k);
    }
  }

  /** Filling the last cluster of the chain. */
  lemma GrowthFilled(g: Geometry, d0: Disk, w0: Catalog, d: Disk, chain: seq<nat>, own: Owners, d': Disk)
    requires GeometryOk(g, |d0|) && Grown(g, d0, w0, d, chain, own) && chain != []
    requires |d'| == |d0| && OnlyCluster(g, d, d', chain[|chain| - 1])
    ensures 2 <= chain[|chain| - 1] < g.clusters + 2
    ensures Grown(g, d0, w0, d', chain, own)
  {
    hide Mirrored, Table, ClusterData, Directory;
    var p, fat, eoc, c := |w0.chains| - 1, Table(g, d), EocThreshold(g.bits), chain[|chain| - 1];
    var chains := w0.chains[p := chain];
    assert Linked(fat, eoc, chains, own, p, |chain| - 1);
    DataWriteKeeps(g, d, d', c);
    forall k | k in w0.own ensures Untouched(g, d0, w0, d', own, k) {
      assert Untouched(g, d0, w0, d, own, k);
      assert Owned(chains, own[k], k);
      assert Linked(fat, eoc, chains, own, own[k].chain, own[k].pos);
      OtherClusterKept(g, d, d', c, k);
    }
  }

  /** Every file of the catalogue is still represented; the new chain waits past the last slot. */
  lemma GrowthRepresents(g: Geometry, d0: Disk, w0: Catalog, busy: int, d: Disk, chain: seq<nat>, own: Owners)
    requires Represents(g, d0, w0, busy) && Grown(g, d0, w0, d, chain, own)
    ensures Represents(g, d, w0.(chains := w0.chains[|w0.chains| - 1 := chain], own := own), busy)
  {
    hide Mirrored, Table, ClusterData, ChainsOk, NamesOk;
    var w' := w0.(chains := w0.chains[|w0.chains| - 1 := chain], own := own);
    forall c | c in w0.own && w0.own[c].chain < |Directory(g, d0)|
      ensures ClusterData(g, d, c) == ClusterData(g, d0, c)
    {
      assert Untouched(g, d0, w0, d, own, c);
    }
    SlotsKept(g, d0, d, Directory(g, d0), w0, busy, Table(g, d0), EocThreshold(g.bits), w');
  }

  /** Extending a chain with another cluster keeps the bytes it already holds. */
  lemma ChainDataExtended(g: Geometry, d0: Disk, w0: Catalog, d: Disk, chain: seq<nat>, own: Owners, c: nat, d': Disk)
    requires GeometryOk(g, |d0|) && Grown(g, d0, w0, d, chain, own)
    requires c !in own && SameExcept(g, d, d', c)
    ensures ChainData(g, d', chain) == ChainData(g, d, chain)
    ensures (chain + [c])[..|chain|] == chain
  {
    hide Mirrored, Table, ClusterData, Directory;
    var p, fat, eoc := |w0.chains| - 1, Table(g, d), EocThreshold(g.bits);
    forall i | 0 <= i < |chain| ensures ClusterData(g, d', chain[i]) == ClusterData(g, d, chain[i]) {
      assert Linked(fat, eoc, w0.chains[p := chain], own, p, i);
      OtherClusterKept(g, d, d', c, chain[i]);
    }
    ChainDataKept(g, d, d', chain);
  }

  /** Allocation fails only when every cluster is in use. */
  lemma {:induction false} AllUsed(fat: seq<nat>, k: nat)
    requires 2 <= k <= |fat| && forall c :: 2 <= c < k ==> fat[c] != 0
    ensures Used(fat, k) == k - 2
  {
    if k > 2 { AllUsed(fat, k - 1); }
  }

  /** A free cluster has been zeroed, end-marked and, when cur is given, linked after cur. */
  ghost predicate Appended(g: Geometry, d: Disk, d': Disk, chain: seq<nat>, c: nat)
    requires GeometryOk(g, |d|)
  {
    && |d'| == |d| && 2 <= c < g.clusters + 2 && Table(g, d)[c] == 0
    && Table(g, d') == LinkedTable(Table(g, d), chain, c, EocMarker(g.bits))
    && Mirrored(g, d') && SameExcept(g, d, d', c) && Filled(g, d', c, [], 0)
  }

  lemma AppendedInside(g: Geometry, d: Disk, d': Disk, chain: seq<nat>, c: nat)
    requires GeometryOk(g, |d|) && Appended(g, d, d', chain, c)
    ensures OutsideKept(g, d, d')
  {
    hide Table, Mirrored, Filled, SameExcept, LinkedTable;
    ExceptInside(g, d, d', c);
  }

  lemma AllocatedBasics(g: Geometry, d: Disk, d': Disk, c: nat)
    requires GeometryOk(g, |d|) && Allocated(g, d, d', c)
    ensures |d'| == |d| && Mirrored(g, d') && 2 <= c < g.clusters + 2
  {
    hide GeometryOk, Mirrored, Table, Filled;
  }

  /** Linking an allocated cluster after the last of the chain. */
  lemma LinkAppended(g: Geometry, d0: Disk, d1: Disk, d: Disk, chain: seq<nat>, c: nat)
    requires GeometryOk(g, |d0|) && Allocated(g, d0, d1, c) && |d1| == |d0| && SameOutsideTable(g, d1, d) &&
             Mirrored(g, d)
    requires chain != [] && 2 <= chain[|chain| - 1] < g.clusters + 2
    requires Table(g, d) == Table(g, d1)[chain[|chain| - 1] := c % EntryLimit(g.bits)]
    ensures Appended(g, d0, d, chain, c)
  {
    hide Mirrored, Table, GeometryOk, Chunk, DataSector;
    ClusterRange(g, c, |d0|);
    LinkFits(g, |d0|, c);
  }

  lemma LinkFits(g: Geometry, size: nat, c: nat)
    requires GeometryOk(g, size) && 2 <= c < g.clusters + 2
    ensures c % EntryLimit(g.bits) == c && g.rootStart <= g.dataStart
  {
  }

  /** Between clusters of a write: the chain but its last cluster holds buf[..w]; the last is zeroed. */
  ghost predicate Ready(g: Geometry, d: Disk, chain: seq<nat>, buf: seq<Byte>, w: nat)
    requires GeometryOk(g, |d|)
  {
    && chain != [] && w == (|chain| - 1) * ClusterBytes(g) && w < |buf|
    && ChainData(g, d, chain[..|chain| - 1]) == buf[..w]
    && Filled(g, d, chain[|chain| - 1], [], 0)
    && 2 <= chain[|chain| - 1] < g.clusters + 2 && Table(g, d)[chain[|chain| - 1]] == EocMarker(g.bits)
  }

  lemma FirstReady(g: Geometry, d0: Disk, w0: Catalog, c: nat, d: Disk, buf: seq<Byte>)
    requires GeometryOk(g, |d0|) && Grown(g, d0, w0, d0, [], w0.own) && Allocated(g, d0, d, c) && 1 <= |buf|
    ensures Grown(g, d0, w0, d, [c], w0.own[c := Link(|w0.chains| - 1, 0)]) && Ready(g, d, [c], buf, 0)
  {
    hide Mirrored, Table, Filled, ChainsOk, Directory, SameExcept, ClusterData;
    GrowthExtended(g, d0, w0, d0, [], w0.own, c, d);
    assert [] + [c] == [c];
    assert [c][..0] == [] && buf[..0] == [];
  }

  /** The earlier clusters of the chain are not disturbed by filling the last. */
  lemma PrefixKept(g: Geometry, d0: Disk, w0: Catalog, d: Disk, chain: seq<nat>, own: Owners, d': Disk)
    requires GeometryOk(g, |d0|) && Grown(g, d0, w0, d, chain, own) && chain != []
    requires |d'| == |d0| && OnlyCluster(g, d, d', chain[|chain| - 1])
    ensures ChainData(g, d', chain[..|chain| - 1]) == ChainData(g, d, chain[..|chain| - 1])
  {
    hide Mirrored, Table, ClusterData, Directory;
    var p, fat, eoc := |w0.chains| - 1, Table(g, d), EocThreshold(g.bits);
    assert Linked(fat, eoc, w0.chains[p := chain], own, p, |chain| - 1);
    forall i | 0 <= i < |chain| - 1 ensures ClusterData(g, d', chain[i]) == ClusterData(g, d, chain[i]) {
      assert Linked(fat, eoc, w0.chains[p := chain], own, p, i);
      OtherClusterKept(g, d, d', chain[|chain| - 1], chain[i]);
    }
    ChainDataKept(g, d, d', chain[..|chain| - 1]);
  }

  /** After the last cluster is filled, either all of buf is stored or the chain is full. */
  lemma ClusterFilled(g: Geometry, d0: Disk, w0: Catalog, d: Disk, chain: seq<nat>, own: Owners, buf: seq<Byte>,
      w: nat, d': Disk)
    requires GeometryOk(g, |d0|) && Grown(g, d0, w0, d, chain, own) && Ready(g, d, chain, buf, w)
    requires |d'| == |d0| && OnlyCluster(g, d, d', chain[|chain| - 1]) && Filled(g, d', chain[|chain| - 1], buf, w)
    ensures Grown(g, d0, w0, d', chain, own) && Table(g, d') == Table(g, d)
    ensures var e := Reach(buf, w + ClusterBytes(g));
            if e == |buf| then Stores(g, d', chain, buf)
            else e == |chain| * ClusterBytes(g) && ChainData(g, d', chain) == buf[..e]
  {
    hide Mirrored, Table, Filled, ChainsOk, Directory, ClusterData, Grown;
    GrowthFilled(g, d0, w0, d, chain, own, d');
    TableKept(g, d0, w0, d, chain, own, d');
    PrefixKept(g, d0, w0, d, chain, own, d');
    ChainGrown(g, d', chain, buf, w);
    var e := Reach(buf, w + ClusterBytes(g));
    if e == |buf| {
      ChainComplete(g, d', chain, buf, w);
    } else {
      OneMore(|chain|, ClusterBytes(g));
      assert buf[..e] + Zeros(0) == buf[..e];
    }
  }

  lemma PendingInRange(g: Geometry, d0: Disk, w0: Catalog, d: Disk, chain: seq<nat>, own: Owners)
    requires GeometryOk(g, |d0|) && Grown(g, d0, w0, d, chain, own)
    ensures forall i :: 0 <= i < |chain| ==> 2 <= chain[i] < g.clusters + 2
  {
    hide Mirrored, Table, ClusterData, Directory;
    var chains := w0.chains[|w0.chains| - 1 := chain];
    ClustersInRange(Table(g, d), EocThreshold(g.bits), chains, own, |w0.chains| - 1);
    assert chains[|w0.chains| - 1] == chain;
  }

  lemma TableKept(g: Geometry, d0: Disk, w0: Catalog, d: Disk, chain: seq<nat>, own: Owners, d': Disk)
    requires GeometryOk(g, |d0|) && Grown(g, d0, w0, d, chain, own) && chain != []
    requires |d'| == |d0| && OnlyCluster(g, d, d', chain[|chain| - 1])
    ensures Table(g, d') == Table(g, d)
  {
    hide Mirrored, Table, ClusterData, Directory, OnlyCluster;
    PendingInRange(g, d0, w0, d, chain, own);
    DataWriteKeeps(g, d, d', chain[|chain| - 1]);
  }

  /** Going on to the next cluster. */
  lemma NextReady(g: Geometry, d0: Disk, w0: Catalog, d: Disk, chain: seq<nat>, own: Owners, buf: seq<Byte>, w: nat,
      c: nat, d': Disk)
    requires GeometryOk(g, |d0|) && Grown(g, d0, w0, d, chain, own) && Appended(g, d, d', chain, c) && chain != []
    requires w == |chain| * ClusterBytes(g) && w < |buf| && ChainData(g, d, chain) == buf[..w]
    ensures Grown(g, d0, w0, d', chain + [c], own[c := Link(|w0.chains| - 1, |chain|)])
    ensures Ready(g, d', chain + [c], buf, w)
  {
    hide Mirrored, Table, Filled, ChainsOk, Directory, SameExcept, ClusterData;
    GrowthExtended(g, d0, w0, d, chain, own, c, d');
    ChainDataExtended(g, d0, w0, d, chain, own, c, d');
    LastInUse(g, d0, w0, d, chain, own, c);
  }

  lemma LastInUse(g: Geometry, d0: Disk, w0: Catalog, d: Disk, chain: seq<nat>, own: Owners, c: nat)
    requires GeometryOk(g, |d0|) && Grown(g, d0, w0, d, chain, own) && chain != []
    requires 2 <= c < g.clusters + 2 && Table(g, d)[c] == 0
    ensures chain[|chain| - 1] != c && chain[|chain| - 1] < g.clusters + 2
  {
    hide Mirrored, Table, ClusterData, Directory;
    assert Linked(Table(g, d), EocThreshold(g.bits), w0.chains[|w0.chains| - 1 := chain], own, |w0.chains| - 1,
           |chain| - 1);
  }

  /** Rewriting the end mark of the last cluster changes nothing. */
  lemma Resealed(g: Geometry, d0: Disk, w0: Catalog, d: Disk, chain: seq<nat>, own: Owners, buf: seq<Byte>, d': Disk)
    requires GeometryOk(g, |d0|) && Grown(g, d0, w0, d, chain, own) && Stores(g, d, chain, buf)
    requires SameOutsideTable(g, d, d') && Mirrored(g, d') && Table(g, d') == Table(g, d)
    ensures Grown(g, d0, w0, d', chain, own) && Stores(g, d', chain, buf)
  {
    hide Mirrored, Table, ClusterData, Directory;
    var p, fat, eoc := |w0.chains| - 1, Table(g, d), EocThreshold(g.bits);
    TableWriteKeeps(g, d, d');
    PendingInRange(g, d0, w0, d, chain, own);
    ChainDataKept(g, d, d', chain);
    forall k | k in w0.own ensures Untouched(g, d0, w0, d', own, k) {
      assert Untouched(g, d0, w0, d, own, k);
      assert Owned(w0.chains[p := chain], own[k], k);
      assert Linked(fat, eoc, w0.chains[p := chain], own, own[k].chain, own[k].pos);
    }
  }
}
