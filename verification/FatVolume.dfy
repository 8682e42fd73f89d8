/** The mounted volume and its operations (kernel/fat.c). */
module FatVolume {
  import opened Common
  import opened Bytes
  import opened FatTable
  import opened FatChains
  import opened FatNames
  import opened FatFiles
  import opened FatContent
  import opened FatCatalog
  import opened FatGrowth
  import opened FatCapacity
  import opened FatOperations
  import opened FatSeeds
  import opened FatFormat

  datatype FsInfo = FsInfo(
    clusters: nat, bytesPerCluster: nat, used: nat, free: nat, totalBytes: nat, usedBytes: nat, freeBytes: nat,
    files: nat)

  /** The report of fat_get_fs_info, its byte counts computed in 32-bit arithmetic. */
  function Report(clusters: nat, used: nat, bpc: nat, files: nat): FsInfo
  {
    var free := if clusters >= used then clusters - used else 0;
    FsInfo(clusters, bpc, used, free, clusters * bpc % WORD32, used * bpc % WORD32, free * bpc % WORD32, files)
  }

  /** The counts add up and no byte total was cut to 32 bits. */
  ghost predicate Exact(info: FsInfo)
  {
    && info.used + info.free == info.clusters
    && info.totalBytes == info.clusters * info.bytesPerCluster
    && info.usedBytes == info.used * info.bytesPerCluster
    && info.usedBytes + info.freeBytes == info.totalBytes
  }

  /** The byte totals of any mounted volume fit 32 bits. */
  lemma ReportExact(clusters: nat, used: nat, bpc: nat, files: nat)
    requires used <= clusters <= 65526 && bpc <= 65536
    ensures Exact(Report(clusters, used, bpc, files))
  {
    var total, u, f := clusters * bpc, used * bpc, (clusters - used) * bpc;
    ProductBound(clusters, bpc);
    ProductSplit(used, clusters - used, bpc);
    Unwrapped(total);
    Unwrapped(u);
    Unwrapped(f);
  }

  lemma ProductBound(clusters: nat, bpc: nat)
    requires clusters <= 65526 && bpc <= 65536
    ensures 0 <= clusters * bpc < WORD32
  {
    assert clusters * bpc <= 65526 * bpc;
  }

  lemma ProductSplit(a: nat, b: nat, n: nat)
    ensures (a + b) * n == a * n + b * n && 0 <= a * n && 0 <= b * n
  {
  }

  lemma Unwrapped(x: nat)
    ensures x < WORD32 ==> x % WORD32 == x
  {
  }

  // ---------------------------------------------------------------- marked names

  /** The entry that a write stores under a name is a file again when it is read exactly when the name is not marked. */
  lemma StoredEntryIsFile(name: CString, first: nat, size: nat)
    requires FatName(name).Name? && first < WORD32 && size < WORD32
    ensures IsFile(WithFile(WithName(Zeros(32), FatName(name).bytes), first, size)) <==> NotMarked(name)
  {
    hide FatName;
    FatNameValid(name);
    WithNameFields(Zeros(32), FatName(name).bytes);
    WithFileFields(WithName(Zeros(32), FatName(name).bytes), first, size);
  }

  /** No volume holds a file under a marked name, so a write to one that reports success has stored no file. */
  lemma HeldNameUnmarked(g: Geometry, d: Disk, w: Catalog, n: FileName)
    requires Represents(g, d, w, -1) && n in w.files
    ensures |n| == 11 && n[0] != DELETED
  {
    hide Represents, Directory;
    RepresentsBounds(g, d, w, -1);
    FileAt(g, d, w, -1, n);
    var e := Directory(g, d)[w.slotOf[n]];
    assert NameOf(e)[0] == e[0];
  }

  lemma MarkedNotHeld(g: Geometry, d: Disk, w: Catalog, n: FileName)
    requires Represents(g, d, w, -1) && |n| == 11 && n[0] == DELETED
    ensures n !in w.files
  {
    hide Represents;
    if n in w.files { HeldNameUnmarked(g, d, w, n); }
  }

  /** The name made of the single byte 0xE5 is such a name. */
  lemma MarkedNameExists()
    ensures FatName([DELETED]).Name? && !NotMarked([DELETED])
  {
    var name: CString := [DELETED];
    assert SkipLead(name) == name && DotAt(name) == 1;
    assert StemOf(name) == name && ExtensionOf(name) == [];
    assert Upper(name) == name;
    assert Pad(name, 8)[0] == DELETED;
  }

  /** The run is clean on a volume formatted on n sectors that is in state s. */
  ghost predicate CleanFrom(n: nat, s: State, ops: seq<Operation>)
    requires 64 <= n
  {
    0 <= FinalClusters(n) && CleanRun(Planned(n), s, ops)
  }

  /** No call of the run breaks a file of a volume formatted on n sectors that is in state s. */
  ghost predicate Unbroken(n: nat, s: State, ops: seq<Operation>)
    requires 64 <= n
  {
    0 <= FinalClusters(n) && 1 <= Planned(n).spc && NeverBreaks(Planned(n), s, ops)
  }

  /** Filling the last cluster of a growing chain. */
  lemma LastInside(g: Geometry, d0: Disk, w0: Catalog, d: Disk, chain: seq<nat>, own: Owners, d': Disk)
    requires GeometryOk(g, |d0|) && |d| == |d0| && Grown(g, d0, w0, d, chain, own) && chain != []
    requires OnlyCluster(g, d, d', chain[|chain| - 1])
    ensures OutsideKept(g, d, d')
  {
    hide Grown, OnlyCluster, OutsideKept, GeometryOk;
    PendingInRange(g, d0, w0, d, chain, own);
    ClusterInside(g, d, d', chain[|chain| - 1]);
  }

  lemma NothingLeaked(g: Geometry)
    ensures var w := EmptyCatalog(g);
            w.files == map[] && Slots(g) < |w.chains| && Leaked(g, w) == 0 && Pending(w) == []
  {
    var w := EmptyCatalog(g);
    assert w.chains[Slots(g)..] == [] + [[]];
    TotalLengthNone([]);
  }

  lemma RegionsFit(n: nat)
    requires 64 <= n <= MAX_SECTORS
    ensures 1 <= FatSectors(n) && 1 + 2 * FatSectors(n) + RootSectors(n) <= n
    ensures SectorsPerCluster(n) <= 16
  {
    hide FatSectors;
    FatSectorsBounds(n);
    DataRemains(n);
  }

  /** What the loops of fat_format wrote is a blank volume of the planned geometry. */
  lemma PlannedBlank(n: nat, d: Disk)
    requires 64 <= n <= MAX_SECTORS && n <= |d|
    requires 0 <= FinalClusters(n) && 1 + 2 * FatSectors(n) + RootSectors(n) <= n
    requires var fs, rs := FatSectors(n), RootSectors(n);
             forall i :: 1 <= i < 1 + 2 * fs + rs ==>
               d[i] == if i == 1 || i == 1 + fs then FirstTableSector(TargetBits(n)) else ZeroSector()
    ensures GeometryOk(Planned(n), |d|) && Blank(Planned(n), d)
  {
    hide FatSectors, ApproxClusters, FinalClusters, FirstTableSector, ZeroSector;
    PlanSound(n);
    FatSectorsBounds(n);
    var g := Planned(n);
    forall f: nat, t: nat | f < g.numFats && t < g.fatSize
      ensures FatSector(g, f, t) < |d|
      ensures d[FatSector(g, f, t)] == if t == 0 then FirstTableSector(g.bits) else ZeroSector()
    {
      FatSectorRange(g, f, t);
      assert f == 0 || f == 1;
    }
  }

  class Volume {
    var disk: Disk
    var geo: Geometry
    var mounted: bool
    ghost var cat: Catalog

    /** A mounted volume, of a geometry that formatting produces, represents its catalogue. */
    ghost predicate Valid()
      reads this
    {
      mounted ==> Settled() && geo.spc <= 16
    }

    /** The disk represents the catalogue and no chain is half built. */
    ghost predicate Settled()
      reads this
    {
      Represents(geo, disk, cat, -1) && Pending(cat) == []
    }

    // -------------------------------------------------------------- the table

    /** The one or two sectors that hold the entry at byte offset o. */
    method ReadEntryBuffer(o: nat) returns (buf: seq<Byte>)
      requires geo.fatStart + geo.fatSize <= |disk| && o + 2 <= geo.fatSize * 512
      ensures buf == ReadBuffer(geo, disk, o)
    {
      var sector := geo.fatStart + o / 512;
      buf := disk[sector];
      if o % 512 == 511 { buf := buf + disk[sector + 1]; }
    }

    /** get_fat_entry. */
    method GetFatEntry(c: nat) returns (r: nat)
      requires GeometryOk(geo, |disk|) && c < geo.clusters + 2
      ensures r == if c < 2 then EocMarker(geo.bits) else Table(geo, disk)[c]
    {
      if c < 2 { return EocMarker(geo.bits); }
      OffsetFits(geo, c);
      var o := EntryOffset(geo.bits, c);
      var buf := ReadEntryBuffer(o);
      BufferEntry(geo, disk, o);
      r := Unpack(geo.bits, c, Le16(buf, o % 512));
    }

    /** set_fat_entry. */
    method SetFatEntry(c: nat, v: nat)
      requires GeometryOk(geo, |disk|) && Mirrored(geo, disk) && c < geo.clusters + 2
      modifies this`disk
      ensures SameOutsideTable(geo, old(disk), disk) && Mirrored(geo, disk)
      ensures Table(geo, disk) == if c < 2 then old(Table(geo, disk))
                                  else old(Table(geo, disk))[c := v % EntryLimit(geo.bits)]
    {
      hide Mirrored, CopiesWritten;
      if c < 2 { return; }
      OffsetFits(geo, c);
      var o := EntryOffset(geo.bits, c);
      var buf := ReadEntryBuffer(o);
      var raw := Pack(geo.bits, c, Le16(buf, o % 512), v);
      buf := buf[o % 512 := Lo(raw)][o % 512 + 1 := Hi(raw)];
      WriteCopies(o / 512, buf);
      EntryWritten(geo, old(disk), disk, c, v);
    }

    /** The loop of set_fat_entry over the copies of the table. */
    method WriteCopies(t0: nat, buf: seq<Byte>)
      requires GeometryOk(geo, |disk|) && (|buf| == 512 || |buf| == 1024) && t0 + |buf| / 512 <= geo.fatSize
      modifies this`disk
      ensures CopiesWritten(geo, old(disk), disk, geo.numFats, t0, buf)
    {
      ghost var d0 := disk;
      assert CopiesWritten(geo, d0, disk, 0, t0, buf) by { NoCopyWritten(geo, disk, t0, buf); }
      for f := 0 to geo.numFats
        invariant |disk| == |d0| && CopiesWritten(geo, d0, disk, f, t0, buf)
      {
        ghost var d := disk;
        FatSectorRange(geo, f, t0 + |buf| / 512 - 1);
        var sector := FatSector(geo, f, t0);
        disk := disk[sector := BufferSector(buf, 0)];
        if |buf| == 1024 {
          disk := disk[sector + 1 := BufferSector(buf, 1)];
        }
        CopyWritten(geo, d0, d, f, t0, buf, disk);
      }
    }

    /** free_cluster_chain, started at the first cluster of chain x. */
    method FreeClusterChain(start: nat, ghost x: nat)
      requires GeometryOk(geo, |disk|) && Mirrored(geo, disk)
      requires ChainsOk(Table(geo, disk), EocThreshold(geo.bits), cat.chains, cat.own)
      requires x < |cat.chains| && start == Head(cat.chains[x])
      modifies this`disk
      ensures SameOutsideTable(geo, old(disk), disk) && Mirrored(geo, disk)
      ensures Freed(old(Table(geo, disk)), Table(geo, disk), cat.own, x, |cat.chains[x]|)
    {
      hide Mirrored, Freed, Table, ChainsOk, SameOutsideTable;
      OutsideSame(geo, disk);
      var c, guard := start, geo.clusters + 2;
      ghost var i := 0;
      ghost var fat, eoc, chain := Table(geo, disk), EocThreshold(geo.bits), cat.chains[x];
      ChainFits(fat, eoc, cat.chains, cat.own, x);
      ClustersInRange(fat, eoc, cat.chains, cat.own, x);
      NoneFreed(fat, cat.own, x);
      while 2 <= c && c < EocThreshold(geo.bits) && guard > 0
        invariant |disk| == |old(disk)| && SameOutsideTable(geo, old(disk), disk) && Mirrored(geo, disk)
        invariant i <= |chain| && guard == geo.clusters + 2 - i
        invariant if i < |chain| then c == chain[i] else c < 2 || eoc <= c
        invariant Freed(fat, Table(geo, disk), cat.own, x, i)
        decreases guard
      {
        ghost var d, t := disk, Table(geo, disk);
        FreeStep(fat, eoc, cat.chains, cat.own, x, i, t);
        var next := GetFatEntry(c);
        SetFatEntry(c, 0);
        OutsideChain(geo, old(disk), d, disk);
        assert Table(geo, disk) == t[c := 0];
        c, guard, i := next, guard - 1, i + 1;
      }
    }

    /** The zeroing loop of allocate_cluster. */
    method ZeroCluster(c: nat)
      requires GeometryOk(geo, |disk|) && 2 <= c < geo.clusters + 2
      modifies this`disk
      ensures OnlyCluster(geo, old(disk), disk, c) && Filled(geo, disk, c, [], 0)
    {
      ClusterRange(geo, c, |disk|);
      var sec := DataSector(geo, c);
      for s := 0 to geo.spc
        invariant |disk| == |old(disk)|
        invariant forall i :: sec <= i < sec + s ==> disk[i] == ZeroSector()
        invariant forall i :: 0 <= i < |disk| && !(sec <= i < sec + s) ==> disk[i] == old(disk)[i]
      {
        disk := disk[sec + s := ZeroSector()];
      }
    }

    /** allocate_cluster. */
    method AllocateCluster() returns (c: nat)
      requires GeometryOk(geo, |disk|) && Mirrored(geo, disk)
      modifies this`disk
      ensures c == 0 ==> disk == old(disk) && forall k :: 2 <= k < geo.clusters + 2 ==> Table(geo, disk)[k] != 0
      ensures c != 0 ==> Allocated(geo, old(disk), disk, c)
    {
      hide Mirrored, Filled, Table;
      for k := 2 to geo.clusters + 2
        invariant disk == old(disk)
        invariant forall j :: 2 <= j < k ==> Table(geo, disk)[j] != 0
      {
        var e := GetFatEntry(k);
        if e == 0 {
          SetFatEntry(k, EocMarker(geo.bits));
          ghost var d := disk;
          ZeroCluster(k);
          DataWriteKeeps(geo, d, disk, k);
          return k;
        }
      }
      c := 0;
    }

    /** The sector loop of fat_write_file: fills one zeroed cluster from buf at offset w. */
    method FillCluster(c: nat, buf: seq<Byte>, w: nat) returns (written: nat)
      requires GeometryOk(geo, |disk|) && 2 <= c < geo.clusters + 2
      requires w < |buf| && Filled(geo, disk, c, [], 0)
      modifies this`disk
      ensures OnlyCluster(geo, old(disk), disk, c) && Filled(geo, disk, c, buf, w)
      ensures written == Reach(buf, w + ClusterBytes(geo))
    {
      hide GeometryOk, Chunk, Filled, OnlyCluster, DataSector;
      ClusterRange(geo, c, |disk|);
      ghost var d0 := disk;
      var sec := DataSector(geo, c);
      var s := 0;
      written := w;
      while s < geo.spc && written < |buf|
        invariant s <= geo.spc && |disk| == |d0| && written == Reach(buf, w + 512 * s)
        invariant forall i :: sec <= i < sec + s ==> disk[i] == Chunk(buf, w + 512 * (i - sec))
        invariant forall i :: 0 <= i < |disk| && !(sec <= i < sec + s) ==> disk[i] == d0[i]
      {
        var left := |buf| - written;
        var chunk := if left > 512 then 512 else left;
        ChunkAt(buf, written, chunk);
        disk := disk[sec + s := buf[written..written + chunk] + Zeros(512 - chunk)];
        written := written + chunk;
        s := s + 1;
      }
      SectorsFilled(geo, d0, disk, c, buf, w, s);
    }

    /** Allocating the next cluster and linking it after the last cluster of the chain. */
    method AppendCluster(cur: nat, ghost chain: seq<nat>) returns (next: nat)
      requires GeometryOk(geo, |disk|) && Mirrored(geo, disk) && 2 <= cur < geo.clusters + 2
      requires chain != [] && cur == chain[|chain| - 1] && Table(geo, disk)[cur] != 0
      modifies this`disk
      ensures next == 0 ==> disk == old(disk) && forall k :: 2 <= k < geo.clusters + 2 ==> Table(geo, disk)[k] != 0
      ensures next != 0 ==> Appended(geo, old(disk), disk, chain, next)
    {
      hide Mirrored, Table, GeometryOk, Allocated, Appended, SameOutsideTable, EntryLimit;
      ghost var d0 := disk;
      next := AllocateCluster();
      if next != 0 {
        ghost var d1 := disk;
        AllocatedBasics(geo, d0, d1, next);
        SetFatEntry(cur, next);
        LinkAppended(geo, d0, d1, disk, chain, next);
      }
    }

    /** One round of the copy loop: fill the last cluster, then link another or seal the chain. */
    method WriteStep(cur: nat, buf: seq<Byte>, w: nat, ghost d0: Disk, ghost w0: Catalog, ghost chain: seq<nat>,
        ghost own: Owners)
      returns (ok: bool, cur': nat, written: nat, ghost chain': seq<nat>, ghost own': Owners)
      requires GeometryOk(geo, |d0|) && |disk| == |d0| && Grown(geo, d0, w0, disk, chain, own)
      requires Ready(geo, disk, chain, buf, w) && cur == chain[|chain| - 1]
      modifies this`disk
      ensures |disk| == |d0| && OutsideKept(geo, old(disk), disk) && Grown(geo, d0, w0, disk, chain', own')
      ensures chain' != [] && chain'[0] == chain[0] && cur' == chain'[|chain'| - 1]
      ensures !ok ==> geo.clusters - Used(Table(geo, d0), geo.clusters + 2) < Needed(geo, |buf|)
      ensures !ok ==> Used(Table(geo, disk), geo.clusters + 2) == geo.clusters
      ensures ok ==> w < written <= |buf|
      ensures ok ==> if written < |buf| then Ready(geo, disk, chain', buf, written) else Stores(geo, disk, chain', buf)
    {
      hide Mirrored, Table, ChainsOk, Filled, ChainData, Directory, LinkedTable, OutsideKept;
      ok, cur', chain', own' := true, cur, chain, own;
      ghost var d := disk;
      written := FillCluster(cur, buf, w);
      ClusterFilled(geo, d0, w0, d, chain, own, buf, w, disk);
      LastInside(geo, d0, w0, d, chain, own, disk);
      d := disk;
      if written < |buf| {
        var next := AppendCluster(cur, chain);
        if next == 0 {
          AllUsed(Table(geo, disk), geo.clusters + 2);
          CeilAbove(|chain|, ClusterBytes(geo), |buf|);
          ok := false;
        } else {
          NextReady(geo, d0, w0, d, chain, own, buf, written, next, disk);
          AppendedInside(geo, d, disk, chain, next);
          KeptChain(geo, old(disk), d, disk);
          cur', chain', own' := next, chain + [next], own[next := Link(|w0.chains| - 1, |chain|)];
        }
      } else {
        ghost var t := Table(geo, disk);
        SetFatEntry(cur, EocMarker(geo.bits));
        assert Table(geo, disk) == t;
        Resealed(geo, d0, w0, d, chain, own, buf, disk);
        TableInside(geo, d, disk);
        KeptChain(geo, old(disk), d, disk);
      }
    }

    ghost function FreeClusters(): int
      requires GeometryOk(geo, |disk|)
      reads this
    {
      geo.clusters - Used(Table(geo, disk), geo.clusters + 2)
    }

    /** The allocation and copy part of fat_write_file (kernel/fat.c:566-594): succeeds exactly when there
        are enough free clusters, takes all there are when there are not enough, and whatever happens no
        existing file is disturbed. */
    method WriteData(buf: seq<Byte>, ghost busy: int) returns (ok: bool, first: nat)
      requires Represents(geo, disk, cat, busy) && Pending(cat) == []
      modifies this`disk, this`cat
      ensures |disk| == |old(disk)| && OutsideKept(geo, old(disk), disk)
      ensures Represents(geo, disk, cat, busy) && Directory(geo, disk) == old(Directory(geo, disk))
      ensures cat == old(cat).(chains := old(cat.chains)[|old(cat.chains)| - 1 := Pending(cat)], own := cat.own)
      ensures ok <==> Needed(geo, |buf|) <= old(FreeClusters())
      ensures ok ==> Stores(geo, disk, Pending(cat), buf) && first == Head(Pending(cat))
      ensures !ok ==> FreeClusters() == 0
    {
      hide Mirrored, Table, ChainsOk, NamesOk, Filled, ChainData, Directory, OutsideKept;
      ghost var d0, w0 := disk, cat;
      KeptSame(geo, disk);
      GrowthStart(geo, d0, w0);
      UsedBound(Table(geo, d0), geo.clusters + 2);
      EmptyStored(geo, disk);
      if buf == [] {
        return true, 0;
      }
      first := AllocateCluster();
      if first == 0 {
        AllUsed(Table(geo, disk), geo.clusters + 2);
        CeilAbove(0, ClusterBytes(geo), |buf|);
        return false, 0;
      }
      FirstReady(geo, d0, w0, first, disk, buf);
      AllocatedInside(geo, d0, disk, first);
      ghost var chain, own := [first], w0.own[first := Link(|w0.chains| - 1, 0)];
      var cur, written := first, 0;
      ok := true;
      while written < |buf| && ok
        invariant |disk| == |d0| && OutsideKept(geo, d0, disk) && Grown(geo, d0, w0, disk, chain, own)
        invariant chain != [] && first == chain[0] && cur == chain[|chain| - 1]
        invariant cat == w0
        invariant !ok ==> geo.clusters - Used(Table(geo, d0), geo.clusters + 2) < Needed(geo, |buf|)
        invariant !ok ==> Used(Table(geo, disk), geo.clusters + 2) == geo.clusters
        invariant ok ==> if written < |buf| then Ready(geo, disk, chain, buf, written)
                         else Stores(geo, disk, chain, buf)
        decreases ok, |buf| - written
      {
        ghost var d := disk;
        ok, cur, written, chain, own := WriteStep(cur, buf, written, d0, w0, chain, own);
        KeptChain(geo, d0, d, disk);
      }
      cat := w0.(chains := w0.chains[|w0.chains| - 1 := chain], own := own);
      GrowthRepresents(geo, d0, w0, busy, disk, chain, own);
      UsedBound(Table(geo, disk), geo.clusters + 2);
    }

    // -------------------------------------------------------------- the directory

    /** The scan of find_dirent_val over sectors and slots. */
    method ScanFor(n: FileName) returns (found: bool, e: Entry32, sector: nat, index: nat, ghost k: nat)
      requires geo.rootStart + geo.rootSectors <= |disk| && NamesOk(Directory(geo, disk), cat.slotOf)
      ensures found <==> n in cat.slotOf
      ensures found ==> && k == cat.slotOf[n] && k < Slots(geo)
                        && geo.rootStart + k / 16 == sector && k % 16 == index && sector < |disk|
                        && e == Directory(geo, disk)[k] == SlotIn(disk[sector], index)
    {
      hide NamesOk, Missed, Directory;
      found, e, sector, index, k := false, Zeros(32), 0, 0, 0;
      ghost var dir := Directory(geo, disk);
      assert Missed(dir, 0, n) by { NoneMissed(dir, n); }
      for s := 0 to geo.rootSectors
        invariant Missed(dir, 16 * s, n)
      {
        var buf := disk[geo.rootStart + s];
        for i := 0 to 16
          invariant Missed(dir, 16 * s + i, n)
        {
          k := 16 * s + i;
          SlotPlace(geo, disk, s, i);
          e := SlotIn(buf, i);
          if e[0] == FREE {
            NotFound(dir, cat.slotOf, k, n);
            return;
          }
          if e[0] != DELETED && e[11] != 0x0F && e[11] / 8 % 2 == 0 && NameOf(e) == n {
            FoundAt(dir, cat.slotOf, k);
            found, sector, index := true, geo.rootStart + s, i;
            return;
          }
          MissedNext(dir, cat.slotOf, k, n);
        }
      }
      NotFound(dir, cat.slotOf, |dir|, n);
    }

    /** find_dirent_val: finds the entry that the catalogue holds under this name, and no other. */
    method FindDirent(name: CString) returns (found: bool, e: Entry32, sector: nat, index: nat, ghost k: nat)
      requires mounted ==> Represents(geo, disk, cat, -1)
      ensures found <==> mounted && FatName(name).Name? && FatName(name).bytes in cat.files
      ensures found ==> && k == cat.slotOf[FatName(name).bytes] && k < Slots(geo)
                        && geo.rootStart + k / 16 == sector && k % 16 == index && sector < |disk|
                        && e == Directory(geo, disk)[k] == SlotIn(disk[sector], index)
    {
      hide Mirrored, Table, ChainsOk, NamesOk, Directory, FatName;
      found, e, sector, index, k := false, Zeros(32), 0, 0, 0;
      if !mounted { return; }
      var r := FilenameToFat(name);
      if r.BadName? { return; }
      found, e, sector, index, k := ScanFor(r.bytes);
    }

    // -------------------------------------------------------------- reading

    /** The sector loop of fat_read_file: appends up to `left` bytes of cluster c. */
    method ReadCluster(c: nat, left: nat, data: seq<Byte>) returns (out: seq<Byte>, rest: nat)
      requires GeometryOk(geo, |disk|) && 2 <= c < geo.clusters + 2
      ensures |ClusterData(geo, disk, c)| == ClusterBytes(geo)
      ensures left - rest == if left < ClusterBytes(geo) then left else ClusterBytes(geo)
      ensures out == data + ClusterData(geo, disk, c)[..left - rest]
    {
      hide ClusterData, GeometryOk;
      ClusterRange(geo, c, |disk|);
      var sec := DataSector(geo, c);
      ghost var all := ClusterData(geo, disk, c);
      SectorOfCluster(geo, disk, c, 0);
      out, rest := data, left;
      var s := 0;
      while s < geo.spc && rest > 0
        invariant 0 <= s <= geo.spc && rest <= left
        invariant if rest > 0 then left - rest == 512 * s else left <= 512 * s
        invariant rest == 0 ==> left <= ClusterBytes(geo)
        invariant left - rest <= |all| && out == data + all[..left - rest]
      {
        var chunk := if rest > 512 then 512 else rest;
        ReadStep(geo, disk, c, s, chunk);
        out := out + disk[sec + s][..chunk];
        rest := rest - chunk;
        s := s + 1;
      }
    }

    /** fat_read_file: the length of the file, and its first maxLen bytes. */
    method ReadFile(name: CString, maxLen: nat) returns (rc: int, size: nat, data: seq<Byte>)
      requires Valid()
      ensures rc == 0 <==> mounted && FatName(name).Name? && FatName(name).bytes in cat.files
      ensures rc != 0 ==> rc == -1 && size == 0 && data == []
      ensures rc == 0 ==> var content := cat.files[FatName(name).bytes];
                          size == |content| && data == content[..if maxLen < size then maxLen else size]
    {
      hide Mirrored, Table, ChainsOk, Directory, FatName, NamesOk, SlotsOk, ChainData, ClusterData;
      data := [];
      var found, e, sector, index, k := FindDirent(name);
      if !found { return -1, 0, []; }
      ghost var n := FatName(name).bytes;
      FileAt(geo, disk, cat, -1, n);
      rc, size := 0, SizeOf(e);
      var toRead := if size < maxLen then size else maxLen;
      if toRead == 0 { return; }
      var cluster := FirstCluster(e);
      data := ReadChain(cluster, toRead, k, cat.files[n]);
    }

    /** The cluster loop of fat_read_file. */
    method ReadChain(start: nat, toRead: nat, ghost x: nat, ghost content: seq<Byte>) returns (data: seq<Byte>)
      requires GeometryOk(geo, |disk|) && ChainsOk(Table(geo, disk), EocThreshold(geo.bits), cat.chains, cat.own)
      requires x < |cat.chains| && start == Head(cat.chains[x]) && Stores(geo, disk, cat.chains[x], content)
      requires toRead <= |content|
      ensures data == content[..toRead]
    {
      hide Table, ChainData, ClusterData, ChainsOk, Stores;
      var cluster, left, guard := start, toRead, geo.clusters + 2;
      ghost var i, chain, fat, eoc := 0, cat.chains[x], Table(geo, disk), EocThreshold(geo.bits);
      ChainFits(fat, eoc, cat.chains, cat.own, x);
      ClustersInRange(fat, eoc, cat.chains, cat.own, x);
      data := [];
      NothingRead(geo, disk, chain);
      while 2 <= cluster && cluster < EocThreshold(geo.bits) && left > 0 && guard > 0
        invariant i <= |chain| && guard == geo.clusters + 2 - i
        invariant if i < |chain| then cluster == chain[i] else cluster < 2 || eoc <= cluster
        invariant 0 <= left && left + |data| == toRead
        invariant data == content[..|data|]
        invariant left > 0 ==> data == ChainData(geo, disk, chain[..i])
        decreases guard
      {
        ghost var before, wanted := data, left;
        data, left := ReadCluster(cluster, left, data);
        ReadSoFar(geo, disk, chain, content, i, before, wanted - left);
        ChainDataStep(geo, disk, chain, i);
        NextInChain(fat, eoc, cat.chains, cat.own, x, i);
        cluster := GetFatEntry(cluster);
        guard, i := guard - 1, i + 1;
      }
      WholeChainRead(geo, disk, chain, content);
    }

    // -------------------------------------------------------------- writing

    /** Overwriting begins by freeing the old chain (kernel/fat.c:558-563). */
    method ReleaseOld(e: Entry32, ghost k: nat)
      requires Represents(geo, disk, cat, -1) && k < Slots(geo) && InUse(e) && e == Directory(geo, disk)[k]
      modifies this`disk, this`cat
      ensures |disk| == |old(disk)| && OutsideKept(geo, old(disk), disk)
      ensures Represents(geo, disk, cat, k) && Directory(geo, disk) == old(Directory(geo, disk))
      ensures cat == old(cat).(chains := old(cat.chains)[k := []], own := cat.own)
      ensures FreeClusters() == old(FreeClusters()) + |old(cat.chains)[k]|
    {
      hide Mirrored, Table, ChainsOk, NamesOk, Freed, Stores, Used, OutsideKept;
      assert SlotOk(geo, disk, e, cat.chains[k], cat.files);
      ghost var d, w, fat, eoc := disk, cat, Table(geo, disk), EocThreshold(geo.bits);
      var first := FirstCluster(e);
      if first >= 2 {
        FreeClusterChain(first, k);
      } else {
        NoneFreed(fat, cat.own, k);
        ClustersInRange(fat, eoc, cat.chains, cat.own, k);
      }
      FreedCount(fat, eoc, w.chains, w.own, k, Table(geo, disk));
      ChainFreed(geo, d, w, k, disk);
      TableWriteKeeps(geo, d, disk);
      TableInside(geo, d, disk);
      cat := cat.(chains := cat.chains[k := []], own := Without(cat.own, k));
    }

    /** Rewriting the entry of an existing file (kernel/fat.c:596-604). */
    method StoreExisting(sector: nat, index: nat, first: nat, ghost k: nat, ghost buf: seq<Byte>, len: nat)
      requires Represents(geo, disk, cat, k) && k < Slots(geo) && InUse(Directory(geo, disk)[k]) && cat.chains[k] == []
      requires sector == geo.rootStart + k / 16 && index == k % 16
      requires Stores(geo, disk, Pending(cat), buf) && first == Head(Pending(cat))
      requires len == |buf| < WORD32
      modifies this`disk, this`cat
      ensures |disk| == |old(disk)| && OutsideKept(geo, old(disk), disk)
      ensures Settled() && cat.files == old(cat.files)[NameOf(old(Directory(geo, disk))[k]) := buf]
      ensures Lost() == old(Leaked(geo, cat)) - |old(Pending(cat))|
    {
      hide Mirrored, Table, ChainsOk, NamesOk, Stores, Represents, Leaked, OutsideKept;
      FileOverwritten(geo, disk, cat, k, buf);
      RepresentsBounds(geo, disk, cat, k);
      var sec := disk[sector];
      var e := SlotIn(sec, index);
      assert e == Directory(geo, disk)[k];
      LeakedHanded(geo, cat, k, NameOf(e), buf);
      cat := Handed(cat, k, NameOf(e), buf);
      DirectoryInside(geo, disk, k, WithSlot(sec, index, WithFile(e, first, len)));
      disk := disk[sector := WithSlot(sec, index, WithFile(e, first, len))];
    }

    /** The scan for a slot that is unused or deleted (kernel/fat.c:607-612). */
    method FindFreeSlot() returns (found: bool, sector: nat, index: nat, ghost k: nat)
      requires geo.rootStart + geo.rootSectors <= |disk|
      ensures found <==> !Crowded(Directory(geo, disk), Slots(geo))
      ensures found ==> && k < Slots(geo) && Crowded(Directory(geo, disk), k) && !InUse(Directory(geo, disk)[k])
                        && geo.rootStart + k / 16 == sector && k % 16 == index && sector < |disk|
    {
      hide Directory;
      found, sector, index, k := false, 0, 0, 0;
      ghost var dir := Directory(geo, disk);
      for s := 0 to geo.rootSectors
        invariant Crowded(dir, 16 * s)
      {
        var buf := disk[geo.rootStart + s];
        for i := 0 to 16
          invariant Crowded(dir, 16 * s + i)
        {
          k := 16 * s + i;
          SlotPlace(geo, disk, s, i);
          var first := SlotIn(buf, i)[0];
          if first == FREE || first == DELETED {
            assert !InUse(dir[k]);
            found, sector, index := true, geo.rootStart + s, i;
            return;
          }
        }
      }
    }

    /** Adding the entry of a new file (kernel/fat.c:606-622). */
    method StoreNew(n: FileName, first: nat, ghost buf: seq<Byte>, len: nat) returns (rc: int)
      requires Represents(geo, disk, cat, -1)
      requires |n| == 11 && ValidName(n) && n[0] != FREE && n !in cat.files
      requires Stores(geo, disk, Pending(cat), buf) && first == Head(Pending(cat))
      requires len == |buf| < WORD32
      modifies this`disk, this`cat
      ensures |disk| == |old(disk)| && OutsideKept(geo, old(disk), disk)
      ensures rc == (if Crowded(old(Directory(geo, disk)), Slots(geo)) then -1 else 0)
      ensures rc == 0 && n[0] != DELETED ==>
                Settled() && cat.files == old(cat.files)[n := buf] &&
                Lost() == old(Leaked(geo, cat)) - |old(Pending(cat))|
      ensures rc == 0 && n[0] == DELETED ==> Represents(geo, disk, cat, -1) && cat == old(cat)
      ensures rc != 0 ==> disk == old(disk) && cat == old(cat)
    {
      hide Mirrored, Table, ChainsOk, NamesOk, Stores, Represents, ValidName, Crowded, Leaked, OutsideKept;
      RepresentsBounds(geo, disk, cat, -1);
      KeptSame(geo, disk);
      var found, sector, index, k := FindFreeSlot();
      if !found { return -1; }
      var e: Entry32 := WithName(Zeros(32), n);
      WithNameFields(Zeros(32), n);
      if n[0] != DELETED {
        FileCreated(geo, disk, cat, k, e, buf);
        LeakedHanded(geo, cat, k, n, buf);
        cat := Handed(cat, k, n, buf);
      } else {
        PendingHead(geo, disk, cat);
        WithFileFields(e, first, len);
        MarkedStored(geo, disk, cat, k, WithFile(e, first, len));
      }
      DirectoryInside(geo, disk, k, WithSlot(disk[sector], index, WithFile(e, first, len)));
      disk := disk[sector := WithSlot(disk[sector], index, WithFile(e, first, len))];
      rc := 0;
    }

    /** The clusters in use that belong to no file. */
    ghost function Lost(): nat
      requires Settled()
      reads this
    {
      RepresentsBounds(geo, disk, cat, -1);
      Leaked(geo, cat)
    }

    /** fat_write_file on a name that is not on file. */
    method Create(n: FileName, buf: seq<Byte>) returns (rc: int)
      requires Settled() && |buf| < WORD32 && |n| == 11 && ValidName(n) && n[0] != FREE && n !in cat.files
      modifies this`disk, this`cat
      ensures |disk| == |old(disk)| && OutsideKept(geo, old(disk), disk)
      ensures rc == 0 || rc == -1
      ensures rc == 0 <==> Needed(geo, |buf|) <= old(FreeClusters()) && !old(Crowded(Directory(geo, disk), Slots(geo)))
      ensures Settled()
      ensures rc == 0 && n[0] != DELETED ==> cat.files == old(cat.files)[n := buf] && Lost() == old(Lost())
      ensures rc != 0 || n[0] == DELETED ==>
                cat.files == old(cat.files) && Lost() == old(Lost()) + Least(Needed(geo, |buf|), old(FreeClusters()))
    {
      hide Mirrored, Table, ChainsOk, NamesOk, Stores, Represents, ValidName, Crowded, Directory, Leaked, Needed, Used,
           OutsideKept;
      DemandIsUsed(geo, disk, cat);
      var ok, first := WriteData(buf, -1);
      ghost var d := disk;
      LeakedPending(geo, old(cat), Pending(cat), cat.own);
      if ok {
        StoredLength(geo, disk, Pending(cat), buf);
        rc := StoreNew(n, first, buf, |buf|);
        KeptChain(geo, old(disk), d, disk);
      } else {
        DemandIsUsed(geo, disk, cat);
        rc := -1;
      }
      if rc != 0 || n[0] == DELETED {
        PendingAbandoned(geo, disk, cat, -1);
        cat := Abandoned(cat);
      }
    }

    /** fat_write_file on a file: its old chain is freed first, and is gone when the write then fails. */
    method Overwrite(n: FileName, e: Entry32, sector: nat, index: nat, buf: seq<Byte>, ghost k: nat) returns (rc: int)
      requires Settled() && |buf| < WORD32 && n in cat.files && k == cat.slotOf[n] && k < Slots(geo)
      requires sector == geo.rootStart + k / 16 && index == k % 16 && e == Directory(geo, disk)[k]
      modifies this`disk, this`cat
      ensures |disk| == |old(disk)| && OutsideKept(geo, old(disk), disk)
      ensures rc == 0 || rc == -1
      ensures rc == 0 <==> Needed(geo, |buf|) <= old(FreeClusters() + Needed(geo, |cat.files[n]|))
      ensures rc == 0 ==> Settled() && cat.files == old(cat.files)[n := buf] && Lost() == old(Lost())
      ensures rc != 0 && old(cat.files)[n] == [] ==>
                Settled() && cat.files == old(cat.files) && Lost() == old(Lost()) + old(FreeClusters())
      ensures rc != 0 && old(cat.files)[n] != [] ==> cat.files == old(cat.files) - {n} && Broken(geo, disk, cat, n)
    {
      hide Mirrored, Table, ChainsOk, NamesOk, Stores, Represents, ValidName, Directory, Leaked, Needed, Used, FileOk,
           FirstCluster, SizeOf, OutsideKept;
      ghost var w0, d0, content := cat, disk, cat.files[n];
      RepresentsBounds(geo, disk, cat, -1);
      FileAt(geo, disk, cat, -1, n);
      HeadReal(geo, disk, cat, -1, k);
      FileOkMeans(geo, disk, e, cat.chains[k], content);
      DemandIsUsed(geo, disk, cat);
      ReleaseOld(e, k);
      LeakedSuffix(geo, w0, cat);
      ghost var w1, d1 := cat, disk;
      var ok, first := WriteData(buf, k);
      KeptChain(geo, d0, d1, disk);
      LeakedPending(geo, w1, Pending(cat), cat.own);
      if ok {
        StoredLength(geo, disk, Pending(cat), buf);
        ghost var d2 := disk;
        StoreExisting(sector, index, first, k, buf, |buf|);
        KeptChain(geo, d0, d2, disk);
        rc := 0;
      } else {
        rc := -1;
        if content == [] {
          EmptyAgain(geo, disk, cat, k, n);
          DemandIsUsed(geo, disk, cat);
          PendingAbandoned(geo, disk, cat, -1);
          cat := Abandoned(cat);
        } else {
          BusyContent(geo, disk, cat, k, n, []);
          assert (cat.files - {n})[n := []] == cat.files[n := []];
          cat := cat.(files := cat.files - {n});
        }
      }
    }

    /** The volume is mounted and sound, holds exactly these files and has lost this many clusters. */
    ghost predicate Has(s: State)
      reads this
    {
      mounted && Valid() && cat.files == s.files && Lost() == s.lost
    }

    ghost function StateOf(): State
      requires mounted && Valid()
      reads this
    {
      State(cat.files, Lost())
    }

    /** What a write of len bytes that fails leaves of a volume in state s: the clusters it took are lost and every file
        is kept, unless it was to replace bytes; then that file is broken and no other is. */
    ghost predicate WriteFailed(s: State, name: CString, len: nat)
      requires 1 <= geo.spc
      reads this
    {
      if Lookup(s.files, KeyOf(name)) == [] then Has(Wasted(geo, s, len))
      else mounted && cat.files == s.files - {KeyOf(name)} && Broken(geo, disk, cat, KeyOf(name))
    }

    lemma FreeMeans()
      requires Settled()
      ensures GeometryOk(geo, |disk|) && 0 <= FreeClusters() == FreeIn(geo, State(cat.files, Lost())) &&
              Needed(geo, 0) == 0
    {
      hide Represents, Table, Leaked, Needed, Used, Demand;
      DemandIsUsed(geo, disk, cat);
      UsedBound(Table(geo, disk), geo.clusters + 2);
      EmptyStored(geo, disk);
    }

    /** fat_write_file.  It succeeds exactly when the name is good, there is a directory slot for it and the
        free clusters, with those of the file it replaces, suffice.  On success exactly this file changed, or,
        under a marked name, no file at all and the clusters are lost. */
    method WriteFile(name: CString, buf: seq<Byte>) returns (rc: int)
      requires Valid() && |buf| < WORD32
      modifies this`disk, this`cat
      ensures |disk| == |old(disk)| && OutsideKept(geo, old(disk), disk)
      ensures rc == 0 || rc == -1
      ensures rc == 0 <==> old(CanWrite(name, |buf|))
      ensures !mounted || FatName(name).BadName? ==> disk == old(disk) && cat == old(cat)
      ensures mounted && FatName(name).Name? ==> 1 <= geo.spc
      ensures mounted && FatName(name).Name? && rc == 0 ==> Has(Written(geo, old(StateOf()), name, buf))
      ensures rc == 0 ==> (Holds(name) <==> NotMarked(name))
      ensures mounted && FatName(name).Name? && rc != 0 ==> WriteFailed(old(StateOf()), name, |buf|)
    {
      hide Mirrored, Table, ChainsOk, NamesOk, Stores, Represents, ValidName, Crowded, FatName, Directory, Leaked,
           Needed, Broken, Used, OutsideKept;
      KeptSame(geo, disk);
      if !mounted { return -1; }
      var r := FilenameToFat(name);
      if r.BadName? { return -1; }
      FatNameValid(name);
      FreeMeans();
      var found, e, sector, index, k := FindDirent(name);
      if found {
        HeldNameUnmarked(geo, disk, cat, r.bytes);
        rc := Overwrite(r.bytes, e, sector, index, buf, k);
      } else {
        rc := Create(r.bytes, buf);
        if r.bytes[0] == DELETED { MarkedNotHeld(geo, disk, cat, r.bytes); }
      }
    }

    /** When a write of len bytes will succeed. */
    ghost predicate CanWrite(name: CString, len: nat)
      requires Valid()
      reads this
    {
      && mounted && FatName(name).Name?
      && var n := FatName(name).bytes;
         if n in cat.files then Needed(geo, len) <= FreeClusters() + Needed(geo, |cat.files[n]|)
         else Needed(geo, len) <= FreeClusters() && !Crowded(Directory(geo, disk), Slots(geo))
    }

    /** The volume holds a file of this name: fat_file_exists. */
    ghost predicate Holds(name: CString)
      reads this
    {
      mounted && FatName(name).Name? && FatName(name).bytes in cat.files
    }

    /** The content of the file of this name, empty when there is none. */
    ghost function Content(name: CString): seq<Byte>
      reads this
    {
      if Holds(name) then cat.files[FatName(name).bytes] else []
    }

    /** The size test and the allocation of fat_append_file let the append of len bytes go on. */
    ghost predicate AppendGoesOn(name: CString, len: nat, memOk: bool)
      reads this
    {
      Holds(name) ==> |Content(name)| + len <= MAX_FILE_SIZE && memOk
    }

    /** fat_append_file.  memOk tells whether kmalloc could provide the combined buffer. */
    method AppendFile(name: CString, buf: seq<Byte>, memOk: bool) returns (rc: int)
      requires Valid() && |buf| < WORD32 && (Holds(name) ==> !AppendWraps(|Content(name)|, |buf|))
      modifies this`disk, this`cat
      ensures (rc == 0 || rc == -1) && OutsideKept(geo, old(disk), disk)
      ensures rc == 0 <==> old(CanWrite(name, |Content(name)| + |buf|) && AppendGoesOn(name, |buf|, memOk))
      ensures !mounted || FatName(name).BadName? || !old(AppendGoesOn(name, |buf|, memOk)) ==>
              disk == old(disk) && cat == old(cat)
      ensures mounted ==> 1 <= geo.spc
      ensures mounted && rc == 0 ==> Has(Written(geo, old(StateOf()), name, old(Content(name)) + buf))
      ensures mounted && FatName(name).Name? && old(AppendGoesOn(name, |buf|, memOk)) && rc != 0 ==>
                WriteFailed(old(StateOf()), name, |old(Content(name))| + |buf|)
    {
      hide Represents, FatName, Directory, CanWrite, Crowded, FreeClusters, Written, WriteFailed, Has, StateOf,
           OutsideKept;
      KeptSame(geo, disk);
      if mounted { RepresentsBounds(geo, disk, cat, -1); }
      var found, e, sector, index, k := FindDirent(name);
      ghost var content := Content(name);
      if !found {
        rc := WriteFile(name, buf);
        assert [] + buf == buf;
        return;
      }
      FileAt(geo, disk, cat, -1, FatName(name).bytes);
      var size := SizeOf(e);
      AppendTest(size, |buf|);
      var total := (size + |buf|) % WORD32;
      if total > MAX_FILE_SIZE || !memOk { return -1; }
      var ok, len, data := ReadFile(name, size);
      assert data == content;
      rc := WriteFile(name, data + buf);
    }

    /** fat_delete_file. */
    method DeleteFile(name: CString) returns (rc: int)
      requires Valid()
      modifies this`disk, this`cat
      ensures rc == (if old(Holds(name)) then 0 else -1) && Valid() && OutsideKept(geo, old(disk), disk)
      ensures rc == 0 ==> mounted && Has(State(old(cat.files) - {FatName(name).bytes}, old(StateOf()).lost))
      ensures rc != 0 ==> disk == old(disk) && cat == old(cat)
    {
      hide Mirrored, Table, ChainsOk, NamesOk, Stores, Represents, ValidName, FatName, Leaked, OutsideKept;
      KeptSame(geo, disk);
      var found, e, sector, index, k := FindDirent(name);
      if !found { return -1; }
      ghost var w0 := cat;
      RepresentsBounds(geo, disk, cat, -1);
      FileAt(geo, disk, cat, -1, FatName(name).bytes);
      ReleaseOld(e, k);
      RepresentsBounds(geo, disk, cat, k);
      var sec := disk[sector];
      var marked: Entry32 := SlotIn(sec, index)[0 := DELETED];
      FileDeleted(geo, disk, cat, k, marked);
      cat := cat.(slotOf := cat.slotOf - {FatName(name).bytes}, files := cat.files - {FatName(name).bytes});
      ghost var d := disk;
      disk := disk[sector := WithSlot(sec, index, marked)];
      DirectoryInside(geo, d, k, WithSlot(sec, index, marked));
      KeptChain(geo, old(disk), d, disk);
      LeakedSuffix(geo, w0, cat);
      rc := 0;
    }

    /** There is something to copy and memory to do it with. */
    ghost predicate CopyGoesOn(src: CString, memOk: bool)
      reads this
    {
      Holds(src) && |Content(src)| <= MAX_FILE_SIZE && (Content(src) == [] || memOk)
    }

    /** fat_copy_file.  Names that strcasecmp calls equal report success at once, even when there is no such file. */
    method CopyFile(src: CString, dst: CString, memOk: bool) returns (rc: int)
      requires Valid()
      modifies this`disk, this`cat
      ensures (rc == 0 || rc == -1) && OutsideKept(geo, old(disk), disk)
      ensures rc == 0 <==> SameIgnoringCase(src, dst) || old(CopyGoesOn(src, memOk) && CanWrite(dst, |Content(src)|))
      ensures SameIgnoringCase(src, dst) || !old(CopyGoesOn(src, memOk)) || FatName(dst).BadName? ==>
                disk == old(disk) && cat == old(cat)
      ensures mounted ==> 1 <= geo.spc
      ensures rc == 0 && !SameIgnoringCase(src, dst) ==>
              mounted && Has(Written(geo, old(StateOf()), dst, old(Content(src))))
      ensures rc != 0 && old(CopyGoesOn(src, memOk)) && FatName(dst).Name? ==>
                mounted && WriteFailed(old(StateOf()), dst, |old(Content(src))|)
    {
      hide Represents, FatName, Directory, CanWrite, SameIgnoringCase, Crowded, FreeClusters, Written, WriteFailed,
           Has, StateOf, OutsideKept;
      KeptSame(geo, disk);
      if mounted { RepresentsBounds(geo, disk, cat, -1); }
      ghost var content := Content(src);
      if SameIgnoringCase(src, dst) { return 0; }
      var found, e, sector, index, k := FindDirent(src);
      if !found { return -1; }
      FileAt(geo, disk, cat, -1, FatName(src).bytes);
      var size := SizeOf(e);
      if size > MAX_FILE_SIZE { return -1; }
      if size == 0 {
        rc := WriteFile(dst, []);
        return;
      }
      if !memOk { return -1; }
      var ok, len, data := ReadFile(src, size);
      assert data == content;
      rc := WriteFile(dst, data);
    }

    /** fat_rename_file.  To a marked name the file is lost, and its clusters with it. */
    method RenameFile(oldName: CString, newName: CString) returns (rc: int)
      requires Valid()
      modifies this`disk, this`cat
      ensures (rc == 0 || rc == -1) && OutsideKept(geo, old(disk), disk)
      ensures rc == 0 <==> || SameIgnoringCase(oldName, newName)
                           || old(FatName(newName).Name? && !Holds(newName) && Holds(oldName))
      ensures Valid() && (mounted ==> 1 <= geo.spc)
      ensures rc == 0 && !SameIgnoringCase(oldName, newName) ==>
                var s := old(StateOf());
                mounted && Has(Written(geo, s.(files := s.files - {KeyOf(oldName)}), newName, old(Content(oldName))))
      ensures rc != 0 || SameIgnoringCase(oldName, newName) ==> disk == old(disk) && cat == old(cat)
    {
      hide Mirrored, Table, ChainsOk, NamesOk, Stores, Represents, ValidName, FatName, SameIgnoringCase, Leaked, Needed,
           OutsideKept;
      KeptSame(geo, disk);
      if mounted { RepresentsBounds(geo, disk, cat, -1); }
      if SameIgnoringCase(oldName, newName) { return 0; }
      var exists', e', s', i', k' := FindDirent(newName);
      if exists' { return -1; }
      var r := FilenameToFat(newName);
      if r.BadName? { return -1; }
      var found, e, sector, index, k := FindDirent(oldName);
      if !found { return -1; }
      FatNameValid(newName);
      rc := Relabel(FatName(oldName).bytes, r.bytes, sector, index, k);
    }

    /** Writing the new name into the entry of a file (kernel/fat.c:704-712). */
    method Relabel(ghost n: FileName, name: FileName, sector: nat, index: nat, ghost k: nat) returns (rc: int)
      requires Settled() && n in cat.files && k == cat.slotOf[n] && k < Slots(geo)
      requires sector == geo.rootStart + k / 16 < |disk| && index == k % 16
      requires |name| == 11 && ValidName(name) && name[0] != FREE && name !in cat.files
      modifies this`disk, this`cat
      ensures rc == 0 && Settled() && OutsideKept(geo, old(disk), disk)
      ensures name[0] != DELETED ==>
              cat.files == (old(cat.files) - {n})[name := old(cat.files)[n]] && Lost() == old(Lost())
      ensures name[0] == DELETED ==>
                cat.files == old(cat.files) - {n} && Lost() == old(Lost()) + Needed(geo, |old(cat.files)[n]|)
    {
      hide Mirrored, Table, ChainsOk, NamesOk, Stores, Represents, ValidName, Leaked, Needed, OutsideKept;
      RepresentsBounds(geo, disk, cat, -1);
      FileAt(geo, disk, cat, -1, n);
      var sec := disk[sector];
      var e := SlotIn(sec, index);
      assert e == Directory(geo, disk)[k];
      ghost var w0 := cat;
      WithNameFields(e, name);
      if name[0] != DELETED {
        FileRenamed(geo, disk, cat, k, name);
        cat := cat.(slotOf := (cat.slotOf - {n})[name := k], files := (cat.files - {n})[name := cat.files[n]]);
        LeakedSuffix(geo, w0, cat);
      } else {
        StoredLength(geo, disk, cat.chains[k], cat.files[n]);
        FileRenamedAway(geo, disk, cat, k, WithName(e, name));
        LeakedRenamed(geo, cat, k, n);
        cat := RenamedAway(cat, k, n);
      }
      DirectoryInside(geo, disk, k, WithSlot(sec, index, WithName(e, name)));
      disk := disk[sector := WithSlot(sec, index, WithName(e, name))];
      if name[0] == DELETED {
        PendingAbandoned(geo, disk, cat, -1);
        cat := Abandoned(cat);
      }
      rc := 0;
    }

    // -------------------------------------------------------------- reporting

    /** The counting loop of fat_get_fs_info. */
    method CountUsed() returns (used: nat)
      requires GeometryOk(geo, |disk|)
      ensures used == Used(Table(geo, disk), geo.clusters + 2)
    {
      hide Table;
      used := 0;
      for c := 2 to geo.clusters + 2
        invariant used == Used(Table(geo, disk), c)
      {
        var e := GetFatEntry(c);
        if e != 0 { used := used + 1; }
      }
    }

    /** The file-counting loop of fat_get_fs_info. */
    method CountFiles() returns (files: nat)
      requires geo.rootStart + geo.rootSectors <= |disk| && NamesOk(Directory(geo, disk), cat.slotOf)
      ensures files == |ListedNames(Directory(geo, disk), Slots(geo))|
    {
      hide NamesOk, Directory, ListedNames, NameText;
      ghost var dir := Directory(geo, disk);
      files := 0;
      NoneListed(dir);
      for s := 0 to geo.rootSectors
        invariant files == |ListedNames(dir, 16 * s)|
      {
        var buf := disk[geo.rootStart + s];
        for i := 0 to 16
          invariant files == |ListedNames(dir, 16 * s + i)|
        {
          SlotPlace(geo, disk, s, i);
          var e := SlotIn(buf, i);
          if e[0] == FREE {
            RestUnused(dir, cat.slotOf, 16 * s + i, |dir|);
            return;
          }
          ListedNext(dir, cat.slotOf, 16 * s + i);
          if e[0] != DELETED && e[11] != 0x0F && e[11] / 8 % 2 == 0 { files := files + 1; }
        }
      }
    }

    /** The loop of fat_enumerate_files. */
    method ListSlots(max: nat) returns (names: seq<seq<Byte>>, ghost k: nat)
      requires geo.rootStart + geo.rootSectors <= |disk| && NamesOk(Directory(geo, disk), cat.slotOf)
      ensures k <= Slots(geo) && |names| <= max && names == ListedNames(Directory(geo, disk), k)
      ensures |names| < max ==> names == ListedNames(Directory(geo, disk), Slots(geo))
    {
      hide NamesOk, Directory, ListedNames, NameText;
      ghost var dir := Directory(geo, disk);
      names, k := [], 0;
      NoneListed(dir);
      var s := 0;
      while s < geo.rootSectors && |names| < max
        invariant s <= geo.rootSectors && k <= |dir| && |names| <= max && names == ListedNames(dir, k)
        invariant |names| < max ==> k == 16 * s
      {
        var buf := disk[geo.rootStart + s];
        var i := 0;
        while i < 16 && |names| < max
          invariant i <= 16 && k == 16 * s + i && |names| <= max && names == ListedNames(dir, k)
        {
          SlotPlace(geo, disk, s, i);
          var e := SlotIn(buf, i);
          if e[0] == FREE {
            RestUnused(dir, cat.slotOf, k, |dir|);
            return;
          }
          ListedNext(dir, cat.slotOf, k);
          if e[0] != DELETED && e[11] != 0x0F && e[11] / 8 % 2 == 0 {
            var text := FatNameToStr(NameOf(e));
            names := names + [text];
          }
          i, k := i + 1, k + 1;
        }
        s := s + 1;
      }
    }

    /** fat_enumerate_files: the printed names in slot order, at most `max` of them; each finds its file again. */
    method Enumerate(max: nat) returns (names: seq<seq<Byte>>)
      requires Valid()
      ensures !mounted ==> names == []
      ensures mounted ==> |names| == if max < |cat.files| then max else |cat.files|
      ensures forall i :: 0 <= i < |names| ==> Finds(names[i], cat.files.Keys)
      ensures mounted && |cat.files| <= max ==> forall n :: n in cat.files ==> |n| == 11 && NameText(n) in names
    {
      hide Mirrored, Table, ChainsOk, NamesOk, Directory, ListedNames, NameText, Finds;
      names := [];
      if !mounted { return; }
      ghost var dir := Directory(geo, disk);
      ghost var k;
      names, k := ListSlots(max);
      ListedPrefix(dir, k, Slots(geo));
      ListedNamesFind(dir, cat.slotOf, Slots(geo));
      FilesListed(geo, disk, cat);
    }

    /** The clusters that the files on the volume need and those that were lost. */
    ghost function ClustersInUse(): nat
      requires Settled()
      reads this
    {
      RepresentsBounds(geo, disk, cat, -1);
      Demand(geo, cat.files) + Leaked(geo, cat)
    }

    /** fat_get_fs_info.  The used count is the sum over the files of the clusters their sizes need, and the clusters
        that were lost. */
    method GetFsInfo() returns (info: FsInfo)
      requires Valid()
      ensures !mounted ==> info == FsInfo(0, 0, 0, 0, 0, 0, 0, 0)
      ensures mounted ==>
                && info.clusters == geo.clusters && info.bytesPerCluster == ClusterBytes(geo) && Exact(info)
                && info.used == ClustersInUse()
                && info.files == |cat.files|
    {
      hide Mirrored, Table, ChainsOk, NamesOk, Directory, SlotsOk, Represents, Used, Demand, ListedNames, Exact,
           Leaked, Needed;
      if !mounted { return FsInfo(0, 0, 0, 0, 0, 0, 0, 0); }
      DemandIsUsed(geo, disk, cat);
      UsedBound(Table(geo, disk), geo.clusters + 2);
      NamesRepresented(geo, disk, cat);
      FilesListed(geo, disk, cat);
      var used := CountUsed();
      var files := CountFiles();
      info := Report(geo.clusters, used, geo.spc * 512, files);
      ReportExact(geo.clusters, used, geo.spc * 512, files);
    }

    // -------------------------------------------------------------- formatting and mounting

    /** The table loops of fat_format: both copies, the first sector of each carrying the reserved entries. */
    method WriteTables(fs: nat, bits: nat)
      requires 1 <= fs && 1 + 2 * fs <= |disk|
      modifies this`disk
      ensures |disk| == |old(disk)|
      ensures forall i :: 0 <= i < |disk| ==>
                disk[i] == if 1 <= i < 1 + 2 * fs
                           then (if i == 1 || i == 1 + fs then FirstTableSector(bits) else ZeroSector())
                           else old(disk)[i]
    {
      hide FirstTableSector, ZeroSector;
      for f := 0 to 2
        invariant |disk| == |old(disk)|
        invariant forall i :: 0 <= i < |disk| ==>
          disk[i] == if 1 <= i < 1 + f * fs
                     then (if i == 1 || i == 1 + fs then FirstTableSector(bits) else ZeroSector())
                     else old(disk)[i]
      {
        var base := 1 + f * fs;
        for s := 0 to fs
          invariant |disk| == |old(disk)|
          invariant forall i :: 0 <= i < |disk| ==>
            disk[i] == if 1 <= i < base + s
                       then (if i == 1 || i == 1 + fs then FirstTableSector(bits) else ZeroSector())
                       else old(disk)[i]
        {
          disk := disk[base + s := if s == 0 then FirstTableSector(bits) else ZeroSector()];
        }
      }
    }

    /** The root directory loop of fat_format. */
    method ZeroDirectory(base: nat, count: nat)
      requires base + count <= |disk|
      modifies this`disk
      ensures |disk| == |old(disk)|
      ensures forall i :: 0 <= i < |disk| ==> disk[i] == if base <= i < base + count then ZeroSector() else old(disk)[i]
    {
      for s := 0 to count
        invariant |disk| == |old(disk)|
        invariant forall i :: 0 <= i < |disk| ==> disk[i] == if base <= i < base + s then ZeroSector() else old(disk)[i]
      {
        disk := disk[base + s := ZeroSector()];
      }
    }

    /** mount_at_lba: reads the boot sector at `base` and takes over its geometry. */
    method MountAt(base: nat) returns (rc: int)
      modifies this`geo, this`mounted
      ensures rc == 0 <==> && base < |disk| && IsValidBpb(disk[base])
                           && 0 < MountedGeometry(BpbOf(disk[base]), base).clusters < 65525
      ensures rc == 0 ==> mounted && geo == MountedGeometry(BpbOf(disk[base]), base)
      ensures rc != 0 ==> rc == -1 && mounted == old(mounted)
    {
      hide BpbOf;
      if base >= |disk| { return -1; }
      var buf := disk[base];
      if !IsValidBpb(buf) { return -1; }
      geo := MountedGeometry(BpbOf(buf), base);
      if geo.clusters == 0 || geo.clusters >= 65525 { return -1; }
      mounted := true;
      rc := 0;
    }

    /** The boot sector describes a volume of this geometry. */
    ghost predicate Describes(g: Geometry)
      reads this
    {
      && 1 <= |disk| && IsValidBpb(disk[0]) && 1 <= g.fatStart
      && g == MountedGeometry(BpbOf(disk[0]), 0) && 0 < g.clusters < 65525
    }

    /** The boot sector describes the mounted volume. */
    ghost predicate Bootable()
      reads this
    {
      Describes(geo)
    }

    lemma StillBootable(d: Disk)
      requires 1 <= |d| && IsValidBpb(d[0]) && 1 <= geo.fatStart
      requires geo == MountedGeometry(BpbOf(d[0]), 0) && 0 < geo.clusters < 65525 && OutsideKept(geo, d, disk)
      ensures Bootable()
    {
      hide IsValidBpb, BpbOf, MountedGeometry, DataEnd;
    }

    /** The first attempt of try_mount_disk, whatever the driver holds in memory: when a disk represents a catalogue and
        its boot sector describes the volume, mounting finds that volume. */
    method Restart(ghost g: Geometry) returns (rc: int)
      requires !mounted && Describes(g) && Represents(g, disk, cat, -1) && Pending(cat) == [] && g.spc <= 16
      modifies this`geo, this`mounted
      ensures rc == 0 && mounted && Valid() && geo == g
    {
      hide Represents, IsValidBpb, BpbOf, MountedGeometry, Leaked;
      rc := MountAt(0);
    }

    /** fat_format up to the mount.  Every disk of at least 64 sectors becomes a mounted volume without files or lost
        clusters whose geometry is the one the formatter computed. */
    method FormatEmpty(volLabel: CString) returns (rc: int)
      modifies this
      ensures rc == if |old(disk)| < 64 then -1 else 0
      ensures rc != 0 ==> !mounted && disk == old(disk)
      ensures |disk| == |old(disk)|
      ensures rc == 0 ==> && Has(State(map[], 0))
                          && 0 <= FinalClusters(Capped(|disk|)) && geo == Planned(Capped(|disk|)) && Bootable()
    {
      hide BootSector, IsValidBpb, MountedGeometry, FatSectors, ApproxClusters, FinalClusters, Blank, BpbOf, GeometryOk,
           Represents, EmptyCatalog, Leaked, LabelField, Slots, TargetBits, RootSectors, SectorsPerCluster;
      mounted := false;
      if |disk| < 64 { return -1; }
      var n := Capped(|disk|);
      PlanSound(n);
      var label11, typeText := LabelField(volLabel), TypeText(TargetBits(n));
      FormatMounts(n, label11, typeText);
      LayOut(n, label11, typeText);
      rc := MountAt(0);
      cat := EmptyCatalog(geo);
      BlankRepresents(geo, disk);
      NothingLeaked(geo);
      RegionsFit(n);
    }

    /** The writes of fat_format: the boot sector, both copies of the table and the root directory. */
    method LayOut(n: nat, label11: seq<Byte>, typeText: seq<Byte>)
      requires 64 <= n <= MAX_SECTORS && n <= |disk| && |label11| == 11 && |typeText| == 8 && 0 <= FinalClusters(n)
      modifies this`disk
      ensures |disk| == |old(disk)| && disk[0] == BootSector(n, label11, typeText)
      ensures GeometryOk(Planned(n), |disk|) && Blank(Planned(n), disk)
    {
      hide BootSector, FatSectors, ApproxClusters, FinalClusters, Blank, GeometryOk;
      FatSectorsBounds(n);
      var fs, rs := FatSectors(n), RootSectors(n);
      RegionsFit(n);
      disk := disk[0 := BootSector(n, label11, typeText)];
      WriteTables(fs, TargetBits(n));
      ZeroDirectory(1 + 2 * fs, rs);
      PlannedBlank(n, disk);
    }

    /** seed_default_files, with the texts of three of the files given: all four writes succeed. */
    method SeedDefaultFiles(hello: seq<Byte>, readme: seq<Byte>, demo: seq<Byte>)
      requires Has(State(map[], 0)) && 1 <= geo.spc && 8 <= geo.clusters && 4 <= Slots(geo)
      requires |hello| <= SEED_SIZE && |readme| <= SEED_SIZE && |demo| <= SEED_SIZE
      modifies this`disk, this`cat
      ensures Has(State(SeedFiles(hello, readme, demo), 0)) && |disk| == |old(disk)|
      ensures OutsideKept(geo, old(disk), disk)
    {
      hide Represents, FatName, Room, HelloTxt, ReadmeTxt, DemoSh, ConfigCfg, Leaked, CanWrite, WriteFailed, Slots,
           OutsideKept;
      SeedNamesGood();
      ghost var d0 := disk;
      KeptSame(geo, d0);
      Seed(HelloTxt(), hello, 0, d0);
      Seed(ReadmeTxt(), readme, 1, d0);
      Seed(DemoSh(), demo, 2, d0);
      Seed(ConfigCfg(), Tiger(), 3, d0);
    }

    /** One of the writes of seed_default_files. */
    method Seed(name: CString, content: seq<Byte>, ghost k: nat, ghost d0: Disk)
      requires OutsideKept(geo, d0, disk)
      requires mounted && Valid() && Small(StateOf(), k) && k <= 3 && |content| <= SEED_SIZE
      requires 1 <= geo.spc && 8 <= geo.clusters && 4 <= Slots(geo) && FatName(name).Name? && NotMarked(name)
      modifies this`disk, this`cat
      ensures Has(State(old(cat.files)[KeyOf(name) := content], 0)) && Small(StateOf(), k + 1) && |disk| == |old(disk)|
      ensures OutsideKept(geo, d0, disk)
    {
      hide Represents, FatName, Room, Leaked, CanWrite, WriteFailed, Slots, OutsideKept;
      SeedFits(geo, StateOf(), k, KeyOf(name), content);
      CanWriteMeans(name, |content|);
      var rc := WriteFile(name, content);
      KeptChain(geo, d0, old(disk), disk);
    }

    /** fat_format.  Every disk of at least 64 sectors becomes a mounted volume of the planned geometry that holds
        exactly the four seed files and has lost no cluster. */
    method Format(volLabel: CString, hello: seq<Byte>, readme: seq<Byte>, demo: seq<Byte>) returns (rc: int)
      requires |hello| <= SEED_SIZE && |readme| <= SEED_SIZE && |demo| <= SEED_SIZE
      modifies this
      ensures rc == if |old(disk)| < 64 then -1 else 0
      ensures rc != 0 ==> !mounted && disk == old(disk)
      ensures |disk| == |old(disk)|
      ensures rc == 0 ==> && Has(State(SeedFiles(hello, readme, demo), 0))
                          && 0 <= FinalClusters(Capped(|disk|)) && geo == Planned(Capped(|disk|)) && Bootable()
    {
      hide Represents, FatSectors, ApproxClusters, FinalClusters, SeedFiles, Leaked, OutsideKept, IsValidBpb, BpbOf,
           MountedGeometry;
      rc := FormatEmpty(volLabel);
      if rc == 0 {
        ghost var d := disk;
        EightClusters(Capped(|disk|));
        PlanSound(Capped(|disk|));
        SeedDefaultFiles(hello, readme, demo);
        StillBootable(d);
      }
    }

    // -------------------------------------------------------------- runs

    lemma CanWriteMeans(name: CString, len: nat)
      requires Valid() && mounted && 1 <= geo.spc
      ensures CanWrite(name, len) <==> FatName(name).Name? && Room(geo, cat.files, Lost(), KeyOf(name), len)
    {
      hide Represents, FatName, Room, Directory, Table, Crowded, Needed, Leaked;
      RoomMeans(geo, disk, cat, KeyOf(name), len);
    }

    /** One call.  Whether it succeeds, whether it breaks a file and what it leaves otherwise depends on nothing but the
        geometry, the files and the number of lost clusters. */
    method Perform(op: Operation) returns (rc: int)
      requires Valid() && mounted && WellFormed(op)
      modifies this`disk, this`cat
      ensures 1 <= geo.spc && (rc == 0 <==> Accepts(geo, old(StateOf()), op)) && OutsideKept(geo, old(disk), disk)
      ensures !Breaks(geo, old(StateOf()), op) ==> Has(Effect(geo, old(StateOf()), op))
      ensures Breaks(geo, old(StateOf()), op) ==>
                var n := KeyOf(Asked(old(StateOf()), op).value.0);
                cat.files == old(cat.files) - {n} && Broken(geo, disk, cat, n)
    {
      hide Represents, FatName, SameIgnoringCase, CanWrite, Room, Leaked, Broken, Written, Wasted,
           OutsideKept;
      RepresentsBounds(geo, disk, cat, -1);
      match op
      case Write(name, buf) =>
        CanWriteMeans(name, |buf|);
        rc := WriteFile(name, buf);
      case Append(name, buf, memOk) =>
        if Holds(name) { ContentBound(geo, disk, cat, FatName(name).bytes); }
        CanWriteMeans(name, |Content(name)| + |buf|);
        rc := AppendFile(name, buf, memOk);
      case Copy(src, dst, memOk) =>
        CanWriteMeans(dst, |Content(src)|);
        rc := CopyFile(src, dst, memOk);
      case Rename(a, b) => rc := RenameFile(a, b);
      case Delete(name) => rc := DeleteFile(name);
    }

    /** Every run of calls, whether they succeed or not and marked names included, leaves exactly the files that the
        calls describe, each with exactly its bytes, as long as none breaks a file. */
    method Replay(ops: seq<Operation>)
      requires Valid() && mounted && 1 <= geo.spc && forall i :: 0 <= i < |ops| ==> WellFormed(ops[i])
      requires NeverBreaks(geo, StateOf(), ops)
      modifies this`disk, this`cat
      ensures Has(Outcome(geo, old(StateOf()), ops)) && OutsideKept(geo, old(disk), disk)
    {
      hide Represents, Effect, Accepts, Breaks, Asked, Leaked, Broken, OutsideKept;
      ghost var s, d0 := StateOf(), disk;
      KeptSame(geo, d0);
      for i := 0 to |ops|
        invariant 1 <= geo.spc && Has(Outcome(geo, s, ops[..i])) && OutsideKept(geo, d0, disk)
      {
        assert ops[..i + 1][..i] == ops[..i];
        PrefixNeverBreaks(geo, s, ops, i + 1);
        assert StateOf() == Outcome(geo, s, ops[..i]);
        ghost var d := disk;
        var rc := Perform(ops[i]);
        KeptChain(geo, d0, d, disk);
      }
      assert ops[..|ops|] == ops;
    }

    /** Formatting, any run of calls none of which breaks a file, losing all that is in memory, and mounting: the volume
        still holds exactly the files that the calls describe. */
    method Persists(volLabel: CString, hello: seq<Byte>, readme: seq<Byte>, demo: seq<Byte>, ops: seq<Operation>)
      returns (rc: int)
      requires |hello| <= SEED_SIZE && |readme| <= SEED_SIZE && |demo| <= SEED_SIZE
      requires forall i :: 0 <= i < |ops| ==> WellFormed(ops[i])
      requires 64 <= |disk| ==> Unbroken(Capped(|disk|), State(SeedFiles(hello, readme, demo), 0), ops)
      modifies this
      ensures rc == if |old(disk)| < 64 then -1 else 0
      ensures rc == 0 ==> 1 <= geo.spc && Has(Outcome(geo, State(SeedFiles(hello, readme, demo), 0), ops))
    {
      hide Represents, SeedFiles, Outcome, NeverBreaks, Leaked, Planned, FinalClusters, OutsideKept, IsValidBpb, BpbOf,
           MountedGeometry;
      rc := Format(volLabel, hello, readme, demo);
      if rc != 0 { return rc; }
      RepresentsBounds(geo, disk, cat, -1);
      ghost var s := State(SeedFiles(hello, readme, demo), 0);
      assert StateOf() == s;
      ghost var d := disk;
      Replay(ops);
      StillBootable(d);
      ghost var g := geo;
      geo, mounted := Geometry(0, 0, 0, 0, 0, 0, 0, 0, 0), false;
      rc := Restart(g);
    }

    /** Formatting, any run of calls that writes under unmarked names and without a write that fails, and a report: the
        used count is the sum over the files of the clusters they need, so nothing has leaked. */
    method CleanSession(volLabel: CString, hello: seq<Byte>, readme: seq<Byte>, demo: seq<Byte>, ops: seq<Operation>)
      returns (rc: int, info: FsInfo)
      requires |hello| <= SEED_SIZE && |readme| <= SEED_SIZE && |demo| <= SEED_SIZE
      requires forall i :: 0 <= i < |ops| ==> WellFormed(ops[i])
      requires 64 <= |disk| ==> CleanFrom(Capped(|disk|), State(SeedFiles(hello, readme, demo), 0), ops)
      modifies this
      ensures rc == if |old(disk)| < 64 then -1 else 0
      ensures rc == 0 ==>
                && 1 <= geo.spc && mounted
                && var s := Outcome(geo, State(SeedFiles(hello, readme, demo), 0), ops);
                   Has(State(s.files, 0)) && info.used == Demand(geo, s.files) && info.files == |s.files|
    {
      hide Represents, SeedFiles, CleanRun, Outcome, NeverBreaks, Demand, Leaked, Planned, FinalClusters;
      rc := Format(volLabel, hello, readme, demo);
      if rc != 0 { return rc, FsInfo(0, 0, 0, 0, 0, 0, 0, 0); }
      RepresentsBounds(geo, disk, cat, -1);
      ghost var s := State(SeedFiles(hello, readme, demo), 0);
      assert StateOf() == s;
      CleanRunLosesNothing(geo, s, ops);
      Replay(ops);
      info := GetFsInfo();
    }
  }
}
