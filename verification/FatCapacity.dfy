/** What a set of files asks of a volume: clusters and directory slots, as a function of the files alone. */
module FatCapacity {
  import opened Bytes
  import opened FatTable
  import opened FatChains
  import opened FatNames
  import opened FatContent
  import opened FatFiles
  import opened FatCatalog

  type Files = map<FileName, seq<Byte>>

  /** The clusters that the files need, summed in any order. */
  ghost function Demand(g: Geometry, files: Files): nat
    requires 1 <= g.spc
    decreases |files|
  {
    if files == map[] then 0
    else
      var n :| n in files;
      FewerFiles(files, n);
      Needed(g, |files[n]|) + Demand(g, files - {n})
  }

  lemma FewerFiles(files: Files, n: FileName)
    requires n in files
    ensures |files - {n}| == |files| - 1
  {
    assert files.Keys == (files - {n}).Keys + {n};
  }

  lemma {:induction false} DemandWithout(g: Geometry, files: Files, n: FileName)
    requires 1 <= g.spc && n in files
    ensures Demand(g, files) == Needed(g, |files[n]|) + Demand(g, files - {n})
    decreases |files|
  {
    hide Needed;
    var m :| m in files && Demand(g, files) == Needed(g, |files[m]|) + Demand(g, files - {m});
    if m != n {
      FewerFiles(files, m);
      FewerFiles(files, n);
      DemandWithout(g, files - {m}, n);
      DemandWithout(g, files - {n}, m);
      assert files - {m} - {n} == files - {n} - {m};
    }
  }

  /** The files whose entries lie in the first k slots. */
  ghost function FilesBelow(w: Catalog, k: nat): Files
    requires w.files.Keys == w.slotOf.Keys
  {
    map n | n in w.files && w.slotOf[n] < k :: w.files[n]
  }

  lemma FilesNext(dir: seq<Entry32>, w: Catalog, k: nat)
    requires NamesOk(dir, w.slotOf) && w.files.Keys == w.slotOf.Keys && k < |dir|
    ensures if InUse(dir[k])
            then NameOf(dir[k]) in FilesBelow(w, k + 1) && FilesBelow(w, k + 1) - {NameOf(dir[k])} == FilesBelow(w, k)
            else FilesBelow(w, k + 1) == FilesBelow(w, k)
  {
    hide ValidName;
    if InUse(dir[k]) {
      var n := NameOf(dir[k]);
      assert NamedSlot(dir[k], w.slotOf, k);
      assert FilesBelow(w, k + 1) - {n} == FilesBelow(w, k);
    } else {
      assert FilesBelow(w, k + 1) == FilesBelow(w, k);
    }
  }

  /** The slot sizes add up to the demand of the files in those slots, and the slots in use are as many as the files. */
  lemma {:induction false} SlotsMeetDemand(g: Geometry, d: Disk, dir: seq<Entry32>, w: Catalog, k: nat)
    requires 1 <= g.spc && NamesOk(dir, w.slotOf) && SlotsOk(g, d, dir, w, -1) && k <= |dir|
    ensures ClustersOfSizes(g, dir, k) == Demand(g, FilesBelow(w, k))
    ensures |FilesBelow(w, k)| <= k && (|FilesBelow(w, k)| == k <==> Crowded(dir, k))
  {
    hide NamesOk, Needed, Stores, Demand;
    if k == 0 {
      NoDemand(g, w);
    } else {
      SlotsMeetDemand(g, d, dir, w, k - 1);
      FilesNext(dir, w, k - 1);
      assert SlotOk(g, d, dir[k - 1], w.chains[k - 1], w.files);
      assert Crowded(dir, k) <==> Crowded(dir, k - 1) && InUse(dir[k - 1]);
      if InUse(dir[k - 1]) {
        DemandWithout(g, FilesBelow(w, k), NameOf(dir[k - 1]));
        FewerFiles(FilesBelow(w, k), NameOf(dir[k - 1]));
      }
    }
  }

  lemma NoDemand(g: Geometry, w: Catalog)
    requires 1 <= g.spc && w.files.Keys == w.slotOf.Keys
    ensures FilesBelow(w, 0) == map[] && Demand(g, FilesBelow(w, 0)) == 0
  {
    assert FilesBelow(w, 0) == map[];
  }

  /** The used clusters are the demand of the files and what was leaked; the directory is full exactly when there are as
      many files as slots. */
  lemma DemandIsUsed(g: Geometry, d: Disk, w: Catalog)
    requires Represents(g, d, w, -1)
    ensures GeometryOk(g, |d|) && Slots(g) < |w.chains|
    ensures Used(Table(g, d), g.clusters + 2) == Demand(g, w.files) + Leaked(g, w)
    ensures |w.files| <= Slots(g) && (|w.files| == Slots(g) <==> Crowded(Directory(g, d), Slots(g)))
  {
    hide Mirrored, Table, ChainsOk, Directory, Demand, Crowded, Needed, Stores, ValidName, Leaked;
    RepresentsBounds(g, d, w, -1);
    UsedIsSumOfFiles(g, d, w);
    SlotsMeetDemand(g, d, Directory(g, d), w, Slots(g));
    assert FilesBelow(w, Slots(g)) == w.files;
  }

  /** There is room for len bytes under name n, with `leaked` clusters out of use. */
  ghost predicate Room(g: Geometry, files: Files, leaked: nat, n: FileName, len: nat)
    requires 1 <= g.spc
  {
    (n in files || |files| < Slots(g)) && Demand(g, files - {n}) + leaked + Needed(g, len) <= g.clusters
  }

  lemma RoomMeans(g: Geometry, d: Disk, w: Catalog, n: FileName, len: nat)
    requires Represents(g, d, w, -1)
    ensures GeometryOk(g, |d|) && Slots(g) < |w.chains|
    ensures var free := g.clusters - Used(Table(g, d), g.clusters + 2);
            Room(g, w.files, Leaked(g, w), n, len) <==>
            if n in w.files then Needed(g, len) <= free + Needed(g, |w.files[n]|)
            else Needed(g, len) <= free && !Crowded(Directory(g, d), Slots(g))
  {
    hide Represents, Table, Directory, Demand, Crowded, Needed, Leaked;
    DemandIsUsed(g, d, w);
    if n in w.files {
      DemandWithout(g, w.files, n);
    } else {
      assert w.files - {n} == w.files;
    }
  }

  /** No volume has room for more bytes than it has clusters, whatever it holds. */
  lemma TooLarge(g: Geometry, files: Files, leaked: nat, n: FileName, len: nat)
    requires 1 <= g.spc && g.clusters * ClusterBytes(g) < len
    ensures !Room(g, files, leaked, n, len)
  {
    CeilAbove(g.clusters, ClusterBytes(g), len);
  }
}
