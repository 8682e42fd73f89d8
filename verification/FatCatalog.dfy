/** The catalogue invariant: what a disk image represents, and how it moves with each change.

    A `Catalog` names the cluster chain of every directory slot, the slot of every name and the
    content of every file.  The chains past those of the slots belong to no file: clusters that
    were leaked and, last, the chain that a write is still building. */
module FatCatalog {
  import opened Common
  import opened Bytes
  import opened FatTable
  import opened FatChains
  import opened FatNames
  import opened FatFiles
  import FatContent

  type FileName = seq<Byte>

  function Head(chain: seq<nat>): nat { if chain == [] then 0 else chain[0] }

  datatype Catalog = Catalog(
    chains: Chains, own: Owners, slotOf: map<FileName, nat>, files: map<FileName, seq<Byte>>)

  /** Entry e of the directory is an archive file whose name leads back to slot k. */
  ghost predicate NamedSlot(e: Entry32, slotOf: map<FileName, nat>, k: nat)
  {
    e[11] == ARCHIVE && ValidName(NameOf(e)) && NameOf(e) in slotOf && slotOf[NameOf(e)] == k
  }

  /** Names are unique, every name has a slot, and all slots after the first unused one are unused. */
  ghost predicate NamesOk(dir: seq<Entry32>, slotOf: map<FileName, nat>)
  {
    && (forall k :: 0 <= k < |dir| && InUse(dir[k]) ==> NamedSlot(dir[k], slotOf, k))
    && (forall n :: n in slotOf ==> slotOf[n] < |dir| && InUse(dir[slotOf[n]]) && NameOf(dir[slotOf[n]]) == n)
    && (forall j, k :: 0 <= j < k < |dir| && dir[j][0] == FREE ==> dir[k][0] == FREE)
  }

  /** The entry's first cluster and size are those of the chain and of the content it stores. */
  ghost predicate FileOk(g: Geometry, d: Disk, e: Entry32, chain: seq<nat>, content: seq<Byte>)
    requires 1 <= g.spc
  {
    && FirstCluster(e) == (if chain == [] then 0 else chain[0])
    && SizeOf(e) == |content|
    && Stores(g, d, chain, content)
  }

  ghost predicate SlotOk(g: Geometry, d: Disk, e: Entry32, chain: seq<nat>, files: map<FileName, seq<Byte>>)
    requires 1 <= g.spc
  {
    if InUse(e) then NameOf(e) in files && FileOk(g, d, e, chain, files[NameOf(e)]) else chain == []
  }

  /** Every slot but the busy one agrees with the catalogue. */
  ghost predicate SlotsOk(g: Geometry, d: Disk, dir: seq<Entry32>, w: Catalog, busy: int)
    requires 1 <= g.spc
  {
    && |dir| < |w.chains|
    && w.files.Keys == w.slotOf.Keys
    && forall k :: 0 <= k < |dir| && k != busy ==> SlotOk(g, d, dir[k], w.chains[k], w.files)
  }

  ghost predicate Represents(g: Geometry, d: Disk, w: Catalog, busy: int)
  {
    && GeometryOk(g, |d|) && Mirrored(g, d)
    && ChainsOk(Table(g, d), EocThreshold(g.bits), w.chains, w.own)
    && NamesOk(Directory(g, d), w.slotOf)
    && SlotsOk(g, d, Directory(g, d), w, busy)
  }

  lemma RepresentsBounds(g: Geometry, d: Disk, w: Catalog, busy: int)
    requires Represents(g, d, w, busy)
    ensures GeometryOk(g, |d|) && Slots(g) < |w.chains| && w.files.Keys == w.slotOf.Keys
  {
    hide Mirrored, Table, ChainsOk, NamesOk;
  }

  lemma NamesRepresented(g: Geometry, d: Disk, w: Catalog)
    requires Represents(g, d, w, -1)
    ensures GeometryOk(g, |d|) && NamesOk(Directory(g, d), w.slotOf)
  {
    hide Mirrored, Table, ChainsOk, NamesOk, SlotsOk;
  }

  // ---------------------------------------------------------------- frames

  /** Files keep their content when their clusters do. */
  lemma SlotsKept(g: Geometry, d: Disk, d': Disk, dir: seq<Entry32>, w: Catalog, busy: int, fat: seq<nat>, eoc: nat,
      w': Catalog)
    requires 1 <= g.spc && SlotsOk(g, d, dir, w, busy) && ChainsOk(fat, eoc, w.chains, w.own)
    requires |w'.chains| == |w.chains| && w'.slotOf == w.slotOf && w'.files == w.files
    requires forall k :: 0 <= k < |dir| && k != busy ==> w'.chains[k] == w.chains[k]
    requires forall c :: c in w.own && w.own[c].chain < |dir| ==> ClusterData(g, d', c) == ClusterData(g, d, c)
    ensures SlotsOk(g, d', dir, w', busy)
  {
    forall k | 0 <= k < |dir| && k != busy ensures SlotOk(g, d', dir[k], w'.chains[k], w'.files) {
      forall i | 0 <= i < |w.chains[k]|
        ensures ClusterData(g, d', w.chains[k][i]) == ClusterData(g, d, w.chains[k][i])
      {
        assert Linked(fat, eoc, w.chains, w.own, k, i);
      }
      ChainDataKept(g, d, d', w.chains[k]);
    }
  }

  /** Table writes leave the directory and all cluster contents alone. */
  lemma TableWriteKeeps(g: Geometry, d: Disk, d': Disk)
    requires GeometryOk(g, |d|) && SameOutsideTable(g, d, d')
    ensures Directory(g, d') == Directory(g, d)
    ensures forall c :: 2 <= c < g.clusters + 2 ==> ClusterData(g, d', c) == ClusterData(g, d, c)
  {
    forall c | 2 <= c < g.clusters + 2 ensures ClusterData(g, d', c) == ClusterData(g, d, c) {
      ClusterRange(g, c, |d|);
      var s := DataSector(g, c);
      assert d'[s..s + g.spc] == d[s..s + g.spc];
    }
  }

  /** Freeing the chain of slot x: the slot is left busy and every other file is untouched. */
  lemma ChainFreed(g: Geometry, d: Disk, w: Catalog, x: nat, d': Disk)
    requires Represents(g, d, w, -1) && x < |Directory(g, d)|
    requires SameOutsideTable(g, d, d') && Mirrored(g, d')
    requires Freed(Table(g, d), Table(g, d'), w.own, x, |w.chains[x]|)
    ensures Represents(g, d', w.(chains := w.chains[x := []], own := Without(w.own, x)), x)
  {
    hide ChainsOk, Stores, ValidName, Table;
    var w' := w.(chains := w.chains[x := []], own := Without(w.own, x));
    TableWriteKeeps(g, d, d');
    FreeChain(Table(g, d), EocThreshold(g.bits), w.chains, w.own, x, Table(g, d'));
    OwnedInRange(g, d, w);
    SlotsKept(g, d, d', Directory(g, d), w, -1, Table(g, d), EocThreshold(g.bits), w);
    assert SlotsOk(g, d', Directory(g, d), w', x);
  }

  lemma OwnedInRange(g: Geometry, d: Disk, w: Catalog)
    requires GeometryOk(g, |d|) && ChainsOk(Table(g, d), EocThreshold(g.bits), w.chains, w.own)
    ensures forall c :: c in w.own ==> 2 <= c < g.clusters + 2
  {
    forall c | c in w.own ensures 2 <= c < g.clusters + 2 {
      assert Owned(w.chains, w.own[c], c);
      assert Linked(Table(g, d), EocThreshold(g.bits), w.chains, w.own, w.own[c].chain, w.own[c].pos);
    }
  }

  // ---------------------------------------------------------------- directory changes

  /** The files of the slots other than x keep their content. */
  ghost predicate OthersKept(dir: seq<Entry32>, w: Catalog, x: nat, w': Catalog)
  {
    forall k :: 0 <= k < |dir| && k != x && InUse(dir[k]) ==>
      NameOf(dir[k]) in w.files && NameOf(dir[k]) in w'.files && w'.files[NameOf(dir[k])] == w.files[NameOf(dir[k])]
  }

  /** Slot x takes an entry and a chain that agree, the other slots stay as they are. */
  lemma SlotReplaced(g: Geometry, d: Disk, dir: seq<Entry32>, w: Catalog, x: nat, e: Entry32, w': Catalog)
    requires 1 <= g.spc && SlotsOk(g, d, dir, w, x) && x < |dir|
    requires |w'.chains| == |w.chains| && forall k :: 0 <= k < |dir| && k != x ==> w'.chains[k] == w.chains[k]
    requires w'.files.Keys == w'.slotOf.Keys && OthersKept(dir, w, x, w')
    requires SlotOk(g, d, e, w'.chains[x], w'.files)
    ensures SlotsOk(g, d, dir[x := e], w', -1)
  {
    forall k | 0 <= k < |dir| ensures SlotOk(g, d, dir[x := e][k], w'.chains[k], w'.files) {
      if k != x { assert SlotOk(g, d, dir[k], w.chains[k], w.files); }
    }
  }

  /** Writing the new entry back to its directory sector makes the disk represent the new catalogue. */
  lemma WrittenBack(g: Geometry, d: Disk, x: nat, e: Entry32, w: Catalog)
    requires GeometryOk(g, |d|) && Mirrored(g, d) && x < Slots(g)
    requires ChainsOk(Table(g, d), EocThreshold(g.bits), w.chains, w.own)
    requires NamesOk(Directory(g, d)[x := e], w.slotOf)
    requires SlotsOk(g, d, Directory(g, d)[x := e], w, -1)
    ensures Represents(g, PutEntry(g, d, x, e), w, -1)
  {
    var dir, d' := Directory(g, d), PutEntry(g, d, x, e);
    DirectoryWriteKeeps(g, d, x, e);
    DirectoryUpdate(g, d, x, e);
    OwnedInRange(g, d, w);
    SlotsKept(g, d, d', dir[x := e], w, -1, Table(g, d), EocThreshold(g.bits), w);
  }

  lemma SameNameKept(dir: seq<Entry32>, slotOf: map<FileName, nat>, x: nat, e: Entry32)
    requires NamesOk(dir, slotOf) && x < |dir| && InUse(dir[x])
    requires InUse(e) && NameOf(e) == NameOf(dir[x]) && e[11] == ARCHIVE
    ensures NamesOk(dir[x := e], slotOf)
  {
    assert NamedSlot(dir[x], slotOf, x);
  }

  /** A new name in the first slot that is not in use. */
  lemma NameAdded(dir: seq<Entry32>, slotOf: map<FileName, nat>, x: nat, e: Entry32)
    requires NamesOk(dir, slotOf) && x < |dir| && !InUse(dir[x])
    requires forall j :: 0 <= j < x ==> InUse(dir[j])
    requires InUse(e) && ValidName(NameOf(e)) && NameOf(e) !in slotOf && e[11] == ARCHIVE
    ensures NamesOk(dir[x := e], slotOf[NameOf(e) := x])
  {
    var dir', slotOf' := dir[x := e], slotOf[NameOf(e) := x];
    forall k | 0 <= k < |dir'| && InUse(dir'[k]) ensures NamedSlot(dir'[k], slotOf', k) {
      if k != x { assert NamedSlot(dir[k], slotOf, k); }
    }
  }

  /** Slot x takes a name no other slot has; its old name is given up. */
  lemma NameReplaced(dir: seq<Entry32>, slotOf: map<FileName, nat>, x: nat, e: Entry32)
    requires NamesOk(dir, slotOf) && x < |dir| && InUse(dir[x])
    requires InUse(e) && ValidName(NameOf(e)) && NameOf(e) !in slotOf && e[11] == ARCHIVE
    ensures NameOf(dir[x]) in slotOf
    ensures NamesOk(dir[x := e], (slotOf - {NameOf(dir[x])})[NameOf(e) := x])
  {
    var dir', slotOf' := dir[x := e], (slotOf - {NameOf(dir[x])})[NameOf(e) := x];
    assert NamedSlot(dir[x], slotOf, x);
    forall k | 0 <= k < |dir'| && InUse(dir'[k]) ensures NamedSlot(dir'[k], slotOf', k) {
      if k != x { assert NamedSlot(dir[k], slotOf, k); }
    }
  }

  lemma NameDeleted(dir: seq<Entry32>, slotOf: map<FileName, nat>, x: nat, e: Entry32)
    requires NamesOk(dir, slotOf) && x < |dir| && InUse(dir[x]) && e[0] == DELETED
    ensures NameOf(dir[x]) in slotOf
    ensures NamesOk(dir[x := e], slotOf - {NameOf(dir[x])})
  {
    var dir', slotOf' := dir[x := e], slotOf - {NameOf(dir[x])};
    assert NamedSlot(dir[x], slotOf, x);
    forall k | 0 <= k < |dir'| && InUse(dir'[k]) ensures NamedSlot(dir'[k], slotOf', k) {
      if k != x { assert NamedSlot(dir[k], slotOf, k); }
    }
  }

  // ---------------------------------------------------------------- searching

  /** None of the first k slots is unused-from-here-on or holds file n. */
  ghost predicate Missed(dir: seq<Entry32>, k: nat, n: FileName)
    requires k <= |dir|
  {
    forall j :: 0 <= j < k ==> dir[j][0] != FREE && !(InUse(dir[j]) && NameOf(dir[j]) == n)
  }

  lemma NoneMissed(dir: seq<Entry32>, n: FileName)
    ensures Missed(dir, 0, n)
  {
  }

  lemma MissedNext(dir: seq<Entry32>, slotOf: map<FileName, nat>, k: nat, n: FileName)
    requires NamesOk(dir, slotOf) && k < |dir| && Missed(dir, k, n)
    requires dir[k][0] != FREE && !(IsFile(dir[k]) && NameOf(dir[k]) == n)
    ensures Missed(dir, k + 1, n)
  {
    hide ValidName;
    if InUse(dir[k]) { assert NamedSlot(dir[k], slotOf, k); }
  }

  lemma NotFound(dir: seq<Entry32>, slotOf: map<FileName, nat>, k: nat, n: FileName)
    requires NamesOk(dir, slotOf) && k <= |dir| && Missed(dir, k, n)
    requires k == |dir| || dir[k][0] == FREE
    ensures n !in slotOf
  {
    hide ValidName;
  }

  lemma FoundAt(dir: seq<Entry32>, slotOf: map<FileName, nat>, k: nat)
    requires NamesOk(dir, slotOf) && k < |dir| && InUse(dir[k])
    ensures NameOf(dir[k]) in slotOf && slotOf[NameOf(dir[k])] == k
  {
    hide ValidName;
    assert NamedSlot(dir[k], slotOf, k);
  }

  /** What the catalogue says about file n, read off its slot. */
  lemma FileAt(g: Geometry, d: Disk, w: Catalog, busy: int, n: FileName)
    requires Represents(g, d, w, busy) && n in w.files
    ensures var k := w.slotOf[n];
            && k < Slots(g) < |w.chains|
            && InUse(Directory(g, d)[k]) && NameOf(Directory(g, d)[k]) == n
            && (k != busy ==> FileOk(g, d, Directory(g, d)[k], w.chains[k], w.files[n]))
  {
    hide Mirrored, Table, ChainsOk, Stores, Directory, ValidName;
    var k := w.slotOf[n];
    if k != busy { assert SlotOk(g, d, Directory(g, d)[k], w.chains[k], w.files); }
  }

  /** The first k slots are all in use. */
  ghost predicate Crowded(dir: seq<Entry32>, k: nat)
    requires k <= |dir|
  {
    forall j :: 0 <= j < k ==> InUse(dir[j])
  }

  // ---------------------------------------------------------------- accounting

  /** Clusters that the sizes in the first k entries call for. */
  ghost function ClustersOfSizes(g: Geometry, dir: seq<Entry32>, k: nat): nat
    requires 1 <= g.spc && k <= |dir|
  {
    if k == 0 then 0
    else ClustersOfSizes(g, dir, k - 1) + if InUse(dir[k - 1]) then Needed(g, SizeOf(dir[k - 1])) else 0
  }

  lemma {:induction false} ChainLengthsMatchSizes(g: Geometry, d: Disk, dir: seq<Entry32>, w: Catalog, k: nat)
    requires 1 <= g.spc && SlotsOk(g, d, dir, w, -1) && k <= |dir|
    ensures TotalLength(w.chains[..k]) == ClustersOfSizes(g, dir, k)
  {
    if k > 0 {
      ChainLengthsMatchSizes(g, d, dir, w, k - 1);
      assert SlotOk(g, d, dir[k - 1], w.chains[k - 1], w.files);
      assert w.chains[..k][..k - 1] == w.chains[..k - 1];
    }
  }

  /** The chain that a write is building. */
  ghost function Pending(w: Catalog): seq<nat>
    requires w.chains != []
  {
    w.chains[|w.chains| - 1]
  }

  /** The clusters in chains that no slot owns. */
  ghost function Leaked(g: Geometry, w: Catalog): nat
    requires Slots(g) <= |w.chains|
  {
    TotalLength(w.chains[Slots(g)..])
  }

  /** The used count of the table is the sum over the files of the clusters their sizes need, and what was leaked. */
  lemma UsedIsSumOfFiles(g: Geometry, d: Disk, w: Catalog)
    requires Represents(g, d, w, -1)
    ensures Slots(g) <= |w.chains|
    ensures Used(Table(g, d), g.clusters + 2) == ClustersOfSizes(g, Directory(g, d), Slots(g)) + Leaked(g, w)
  {
    hide Mirrored, Table, ChainsOk, NamesOk, Directory, SlotsOk;
    RepresentsBounds(g, d, w, -1);
    UsedIsTotalLength(Table(g, d), EocThreshold(g.bits), w.chains, w.own);
    ChainLengthsMatchSizes(g, d, Directory(g, d), w, Slots(g));
    TotalLengthSplit(w.chains, Slots(g));
  }

  /** Giving a pending chain up: it stays in the table but belongs to nothing. */
  ghost function Abandoned(w: Catalog): Catalog { w.(chains := w.chains + [[]]) }

  lemma PendingAbandoned(g: Geometry, d: Disk, w: Catalog, busy: int)
    requires Represents(g, d, w, busy)
    ensures Represents(g, d, Abandoned(w), busy) && Pending(Abandoned(w)) == [] && Slots(g) < |w.chains|
    ensures Leaked(g, Abandoned(w)) == Leaked(g, w)
  {
    hide Mirrored, ChainsOk, Table, NamesOk, Stores, Directory, TotalLength;
    RepresentsBounds(g, d, w, busy);
    EmptyChainAdded(Table(g, d), EocThreshold(g.bits), w.chains, w.own);
    SlotsAbandoned(g, d, Directory(g, d), w, busy);
    assert Abandoned(w).chains[Slots(g)..] == w.chains[Slots(g)..] + [[]];
    TotalLengthNone(w.chains[Slots(g)..]);
  }

  lemma LeakedPending(g: Geometry, w: Catalog, chain: seq<nat>, own: Owners)
    requires Slots(g) < |w.chains|
    ensures var w' := w.(chains := w.chains[|w.chains| - 1 := chain], own := own);
            Leaked(g, w') == Leaked(g, w) - |Pending(w)| + |chain|
  {
    hide TotalLength;
    var k, last := Slots(g), |w.chains| - 1;
    assert w.chains[last := chain][k..] == w.chains[k..][last - k := chain];
    TotalLengthUpdate(w.chains[k..], last - k, chain);
  }

  lemma LeakedHanded(g: Geometry, w: Catalog, x: nat, n: FileName, content: seq<Byte>)
    requires x < Slots(g) < |w.chains|
    ensures Leaked(g, Handed(w, x, n, content)) == Leaked(g, w) - |Pending(w)|
  {
    hide TotalLength;
    var k, last := Slots(g), |w.chains| - 1;
    assert Moved(w.chains, last, x)[k..] == w.chains[k..][last - k := []];
    TotalLengthUpdate(w.chains[k..], last - k, []);
  }

  lemma LeakedRenamed(g: Geometry, w: Catalog, x: nat, n: FileName)
    requires x < Slots(g) < |w.chains| && Pending(w) == []
    ensures Leaked(g, RenamedAway(w, x, n)) == Leaked(g, w) + |w.chains[x]|
    ensures Pending(RenamedAway(w, x, n)) == w.chains[x]
  {
    hide TotalLength;
    var k, last := Slots(g), |w.chains| - 1;
    assert Moved(w.chains, x, last)[k..] == w.chains[k..][last - k := w.chains[x]];
    TotalLengthUpdate(w.chains[k..], last - k, w.chains[x]);
  }

  lemma LeakedSuffix(g: Geometry, w: Catalog, w': Catalog)
    requires Slots(g) <= |w.chains| && |w'.chains| == |w.chains|
    requires forall k :: Slots(g) <= k < |w.chains| ==> w'.chains[k] == w.chains[k]
    ensures Leaked(g, w') == Leaked(g, w)
  {
    assert w'.chains[Slots(g)..] == w.chains[Slots(g)..];
  }

  lemma SlotsAbandoned(g: Geometry, d: Disk, dir: seq<Entry32>, w: Catalog, busy: int)
    requires 1 <= g.spc && SlotsOk(g, d, dir, w, busy)
    ensures SlotsOk(g, d, dir, Abandoned(w), busy)
  {
    hide SlotOk;
  }

  /** The printed names of the files in the first k slots, in slot order. */
  ghost function ListedNames(dir: seq<Entry32>, k: nat): seq<seq<Byte>>
    requires k <= |dir|
  {
    if k == 0 then []
    else ListedNames(dir, k - 1) + if InUse(dir[k - 1]) then [NameText(NameOf(dir[k - 1]))] else []
  }

  lemma {:induction false} ListedPrefix(dir: seq<Entry32>, k: nat, m: nat)
    requires k <= m <= |dir|
    ensures ListedNames(dir, k) <= ListedNames(dir, m)
  {
    hide NameText;
    if k < m { ListedPrefix(dir, k, m - 1); }
  }

  /** Taking in one more slot. */
  lemma ListedNext(dir: seq<Entry32>, slotOf: map<FileName, nat>, k: nat)
    requires NamesOk(dir, slotOf) && k < |dir|
    ensures ListedNames(dir, k + 1) == ListedNames(dir, k) + if IsFile(dir[k]) then [NameText(NameOf(dir[k]))] else []
  {
    hide ValidName, NameText;
    if InUse(dir[k]) { assert NamedSlot(dir[k], slotOf, k); }
  }

  lemma {:induction false} RestUnused(dir: seq<Entry32>, slotOf: map<FileName, nat>, k: nat, m: nat)
    requires NamesOk(dir, slotOf) && k < |dir| && dir[k][0] == FREE && k <= m <= |dir|
    ensures ListedNames(dir, m) == ListedNames(dir, k)
  {
    hide ValidName;
    if k < m { RestUnused(dir, slotOf, k, m - 1); }
  }

  /** There are as many listed names as files. */
  lemma {:induction false} ListedCount(dir: seq<Entry32>, slotOf: map<FileName, nat>, k: nat)
    requires NamesOk(dir, slotOf) && k <= |dir|
    ensures |ListedNames(dir, k)| == |set n | n in slotOf && slotOf[n] < k|
  {
    hide ValidName, NameText;
    var now := set n | n in slotOf && slotOf[n] < k;
    if k == 0 {
      assert now == {};
    } else {
      ListedCount(dir, slotOf, k - 1);
      var before := set n | n in slotOf && slotOf[n] < k - 1;
      if InUse(dir[k - 1]) {
        assert NamedSlot(dir[k - 1], slotOf, k - 1);
        assert now == before + {NameOf(dir[k - 1])};
      } else {
        assert now == before;
      }
    }
  }

  lemma NoneListed(dir: seq<Entry32>)
    ensures ListedNames(dir, 0) == []
  {
  }

  lemma FilesListed(g: Geometry, d: Disk, w: Catalog)
    requires Represents(g, d, w, -1)
    ensures |ListedNames(Directory(g, d), Slots(g))| == |w.files|
    ensures forall n :: n in w.files ==> w.slotOf[n] < Slots(g)
  {
    hide Mirrored, Table, ChainsOk, Directory, ListedNames, ValidName;
    ListedCount(Directory(g, d), w.slotOf, Slots(g));
    assert (set n | n in w.slotOf && w.slotOf[n] < Slots(g)) == w.slotOf.Keys == w.files.Keys;
  }

  /** The text is a C string that stands for the 11 bytes n. */
  ghost predicate ReadsBack(t: seq<Byte>, n: FileName)
  {
    (forall i :: 0 <= i < |t| ==> t[i] != 0) && FatName(t) == Name(n)
  }

  lemma ReadBackName(n: FileName)
    requires ValidName(n)
    ensures |n| == 11 && ReadsBack(NameText(n), n)
  {
    NameRoundTrip(n);
  }

  /** The text is the printed form of one of the names and leads back to it. */
  ghost predicate Finds(t: seq<Byte>, names: set<FileName>)
  {
    exists n :: n in names && |n| == 11 && t == NameText(n) && ReadsBack(t, n)
  }

  /** Every listed name converts back to a name on file, and every file is listed. */
  lemma {:induction false} ListedNamesFind(dir: seq<Entry32>, slotOf: map<FileName, nat>, k: nat)
    requires NamesOk(dir, slotOf) && k <= |dir|
    ensures forall i :: 0 <= i < |ListedNames(dir, k)| ==> Finds(ListedNames(dir, k)[i], slotOf.Keys)
    ensures forall n :: n in slotOf && slotOf[n] < k ==> |n| == 11 && NameText(n) in ListedNames(dir, k)
  {
    hide ValidName, NameText, ReadsBack;
    if k > 0 {
      ListedNamesFind(dir, slotOf, k - 1);
      if InUse(dir[k - 1]) {
        var n := NameOf(dir[k - 1]);
        assert NamedSlot(dir[k - 1], slotOf, k - 1);
        ReadBackName(n);
        assert Finds(NameText(n), slotOf.Keys);
      }
    }
  }

  // ---------------------------------------------------------------- the disk decides

  /** The catalogue is a function of the disk: two that it represents agree. */
  lemma CatalogDecided(g: Geometry, d: Disk, a: Catalog, b: Catalog, n: FileName)
    requires Represents(g, d, a, -1) && Represents(g, d, b, -1) && n in a.files
    ensures n in b.files && a.files[n] == b.files[n]
  {
    hide Mirrored, Table, ChainsOk, Directory, ValidName, Stores;
    FileAt(g, d, a, -1, n);
    var k := a.slotOf[n];
    assert NamedSlot(Directory(g, d)[k], b.slotOf, k);
    FileAt(g, d, b, -1, n);
    SameChain(Table(g, d), EocThreshold(g.bits), a.chains, a.own, b.chains, b.own, k);
    StoredContent(g, d, a.chains[k], a.files[n], b.files[n]);
  }

  lemma SameChain(fat: seq<nat>, eoc: nat, a: Chains, ownA: Owners, b: Chains, ownB: Owners, k: nat)
    requires ChainsOk(fat, eoc, a, ownA) && ChainsOk(fat, eoc, b, ownB) && k < |a| && k < |b|
    requires Head(a[k]) == Head(b[k])
    ensures a[k] == b[k]
  {
    hide ChainsOk;
    ClustersInRange(fat, eoc, a, ownA, k);
    ClustersInRange(fat, eoc, b, ownB, k);
    if a[k] != [] && b[k] != [] {
      ChainUnique(fat, eoc, a, ownA, b, ownB, k, |a[k]| - 1);
      ChainUnique(fat, eoc, b, ownB, a, ownA, k, |b[k]| - 1);
      forall i | 0 <= i < |a[k]| ensures a[k][i] == b[k][i] {
        ChainUnique(fat, eoc, a, ownA, b, ownB, k, i);
      }
    }
  }

  lemma StoredContent(g: Geometry, d: Disk, chain: seq<nat>, x: seq<Byte>, y: seq<Byte>)
    requires 1 <= g.spc && Stores(g, d, chain, x) && Stores(g, d, chain, y) && |x| == |y|
    ensures x == y
  {
    hide ChainData;
    var all := ChainData(g, d, chain);
    assert x == all[..|x|] && y == all[..|y|];
  }

  /** A file is no larger than its volume. */
  lemma ContentBound(g: Geometry, d: Disk, w: Catalog, n: FileName)
    requires Represents(g, d, w, -1) && n in w.files && g.spc <= 16
    ensures |w.files[n]| < 0x4000_0000
  {
    hide Mirrored, Table, ChainsOk, Directory, NamesOk, SlotsOk, ChainData;
    RepresentsBounds(g, d, w, -1);
    FileAt(g, d, w, -1, n);
    var k := w.slotOf[n];
    ChainFits(Table(g, d), EocThreshold(g.bits), w.chains, w.own, k);
    ClustersInRange(Table(g, d), EocThreshold(g.bits), w.chains, w.own, k);
    ChainDataLength(g, d, w.chains[k]);
    ChainBytesBound(|w.chains[k]|, ClusterBytes(g));
  }

  lemma ChainBytesBound(clusters: nat, bytes: nat)
    requires clusters <= 65526 && bytes <= 8192
    ensures clusters * bytes < 0x4000_0000
  {
    assert clusters * bytes <= 65526 * bytes;
  }

  // ---------------------------------------------------------------- operations

  /** The catalogue after the chain under construction is handed to slot x, for file n. */
  ghost function Handed(w: Catalog, x: nat, n: FileName, content: seq<Byte>): Catalog
    requires x < |w.chains| && 1 <= |w.chains|
  {
    var p := |w.chains| - 1;
    Catalog(Moved(w.chains, p, x), Relabelled(w.own, p, x), w.slotOf[n := x], w.files[n := content])
  }

  lemma HeadInRange(g: Geometry, d: Disk, w: Catalog, x: nat)
    requires GeometryOk(g, |d|) && ChainsOk(Table(g, d), EocThreshold(g.bits), w.chains, w.own) && x < |w.chains|
    ensures Head(w.chains[x]) < 0x10000
  {
    if w.chains[x] != [] {
      assert Linked(Table(g, d), EocThreshold(g.bits), w.chains, w.own, x, 0);
    }
  }

  lemma OtherNames(dir: seq<Entry32>, w: Catalog, x: nat, w': Catalog)
    requires NamesOk(dir, w.slotOf) && w.files.Keys == w.slotOf.Keys && x < |dir|
    requires forall n :: n in w.files && !(InUse(dir[x]) && n == NameOf(dir[x])) ==>
               n in w'.files && w'.files[n] == w.files[n]
    ensures OthersKept(dir, w, x, w')
  {
    forall k | 0 <= k < |dir| && k != x && InUse(dir[k])
      ensures NameOf(dir[k]) in w.files && NameOf(dir[k]) in w'.files &&
              w'.files[NameOf(dir[k])] == w.files[NameOf(dir[k])]
    {
      assert NamedSlot(dir[k], w.slotOf, k);
      if InUse(dir[x]) { assert NamedSlot(dir[x], w.slotOf, x); }
    }
  }

  /** Slot x, holding no chain, takes the chain under construction and an entry that describes it. */
  lemma ChainHanded(g: Geometry, d: Disk, fat: seq<nat>, eoc: nat, dir: seq<Entry32>, w: Catalog, x: nat, e: Entry32,
      content: seq<Byte>)
    requires ChainsOk(fat, eoc, w.chains, w.own) && NamesOk(dir, w.slotOf)
    requires 1 <= g.spc && SlotsOk(g, d, dir, w, x) && x < |dir| && w.chains[x] == []
    requires w.chains != [] && InUse(e) && FileOk(g, d, e, Pending(w), content)
    requires if InUse(dir[x]) then NameOf(dir[x]) == NameOf(e) else NameOf(e) !in w.slotOf
    ensures var w' := Handed(w, x, NameOf(e), content);
            ChainsOk(fat, eoc, w'.chains, w'.own) && SlotsOk(g, d, dir[x := e], w', -1)
  {
    hide ChainsOk, Stores, ValidName;
    var p, n := |w.chains| - 1, NameOf(e);
    var w' := Catalog(Moved(w.chains, p, x), Relabelled(w.own, p, x), w.slotOf[n := x], w.files[n := content]);
    assert w'.files.Keys == w.files.Keys + {n} == w'.slotOf.Keys;
    MoveChain(fat, eoc, w.chains, w.own, p, x);
    OtherNames(dir, w, x, w');
    SlotReplaced(g, d, dir, w, x, e, w');
  }

  /** The parts of the invariant after slot x has taken the pending chain. */
  lemma EntryTaken(g: Geometry, d: Disk, fat: seq<nat>, eoc: nat, dir: seq<Entry32>, w: Catalog, x: nat, e: Entry32,
                   content: seq<Byte>)
    requires ChainsOk(fat, eoc, w.chains, w.own) && NamesOk(dir, w.slotOf)
    requires 1 <= g.spc && SlotsOk(g, d, dir, w, x) && x < |dir| && w.chains[x] == []
    requires InUse(e) && e[11] == ARCHIVE && FileOk(g, d, e, Pending(w), content)
    requires if InUse(dir[x]) then NameOf(dir[x]) == NameOf(e)
             else NameOf(e) !in w.slotOf && ValidName(NameOf(e)) && Crowded(dir, x)
    ensures var w' := Handed(w, x, NameOf(e), content);
            && ChainsOk(fat, eoc, w'.chains, w'.own) && NamesOk(dir[x := e], w'.slotOf)
            && SlotsOk(g, d, dir[x := e], w', -1)
  {
    assert w.chains != [];
    hide ChainsOk, Stores, ValidName, SlotsOk, FileOk, NamesOk, Crowded;
    ChainHanded(g, d, fat, eoc, dir, w, x, e, content);
    NameTaken(dir, w.slotOf, x, e);
  }

  /** Slot x takes an entry: under its old name, or under a new one in the first slot not in use. */
  lemma NameTaken(dir: seq<Entry32>, slotOf: map<FileName, nat>, x: nat, e: Entry32)
    requires NamesOk(dir, slotOf) && x < |dir| && InUse(e) && e[11] == ARCHIVE
    requires if InUse(dir[x]) then NameOf(dir[x]) == NameOf(e)
             else NameOf(e) !in slotOf && ValidName(NameOf(e)) && Crowded(dir, x)
    ensures NamesOk(dir[x := e], slotOf[NameOf(e) := x])
  {
    hide ValidName;
    if InUse(dir[x]) {
      SameNameKept(dir, slotOf, x, e);
      assert NamedSlot(dir[x], slotOf, x);
      assert slotOf[NameOf(e) := x] == slotOf;
    } else {
      NameAdded(dir, slotOf, x, e);
    }
  }

  lemma NewEntry(g: Geometry, d: Disk, w: Catalog, busy: int, e: Entry32, content: seq<Byte>)
    requires Represents(g, d, w, busy) && w.chains != [] && Stores(g, d, Pending(w), content) && |content| < WORD32
    ensures var e' := WithFile(e, Head(Pending(w)), |content|);
            e'[0] == e[0] && e'[11] == ARCHIVE && NameOf(e') == NameOf(e) && FileOk(g, d, e', Pending(w), content)
  {
    hide Mirrored, ChainsOk, Table, NamesOk, SlotsOk, Directory, Stores, WithFile, FirstCluster, SizeOf;
    HeadInRange(g, d, w, |w.chains| - 1);
    WithFileFields(e, Head(Pending(w)), |content|);
  }

  /** Overwriting: slot x, whose old chain has been freed, takes the new chain. */
  lemma FileOverwritten(g: Geometry, d: Disk, w: Catalog, x: nat, content: seq<Byte>)
    requires Represents(g, d, w, x) && x < |Directory(g, d)| && InUse(Directory(g, d)[x]) && w.chains[x] == []
    requires Stores(g, d, Pending(w), content) && |content| < WORD32
    ensures var e := Directory(g, d)[x];
            var first := Head(Pending(w));
            Represents(g, PutEntry(g, d, x, WithFile(e, first, |content|)), Handed(w, x, NameOf(e), content), -1)
  {
    hide Mirrored, ChainsOk, Table, NamesOk, SlotsOk, Stores, FileOk, Handed, PutEntry, WithFile;
    RepresentsBounds(g, d, w, x);
    var e := Directory(g, d)[x];
    var e' := WithFile(e, Head(Pending(w)), |content|);
    NewEntry(g, d, w, x, e, content);
    EntryTaken(g, d, Table(g, d), EocThreshold(g.bits), Directory(g, d), w, x, e', content);
    WrittenBack(g, d, x, e', Handed(w, x, NameOf(e), content));
  }

  /** Creating: the first slot not in use takes the name and the new chain. */
  lemma FileCreated(g: Geometry, d: Disk, w: Catalog, x: nat, e: Entry32, content: seq<Byte>)
    requires Represents(g, d, w, -1) && x < |Directory(g, d)| && !InUse(Directory(g, d)[x])
    requires Crowded(Directory(g, d), x)
    requires InUse(e) && ValidName(NameOf(e)) && NameOf(e) !in w.slotOf
    requires Stores(g, d, Pending(w), content) && |content| < WORD32
    ensures var first := Head(Pending(w));
            Represents(g, PutEntry(g, d, x, WithFile(e, first, |content|)), Handed(w, x, NameOf(e), content), -1)
  {
    hide Mirrored, ChainsOk, Table, NamesOk, SlotsOk, Stores, FileOk, Handed, PutEntry, WithFile, ValidName, Crowded;
    RepresentsBounds(g, d, w, -1);
    var e' := WithFile(e, Head(Pending(w)), |content|);
    NewEntry(g, d, w, -1, e, content);
    SlotUnused(g, d, Directory(g, d), w, x);
    EntryTaken(g, d, Table(g, d), EocThreshold(g.bits), Directory(g, d), w, x, e', content);
    WrittenBack(g, d, x, e', Handed(w, x, NameOf(e), content));
  }

  lemma SlotUnused(g: Geometry, d: Disk, dir: seq<Entry32>, w: Catalog, x: nat)
    requires 1 <= g.spc && SlotsOk(g, d, dir, w, -1) && x < |dir| && !InUse(dir[x])
    ensures x < |w.chains| && w.chains[x] == [] && SlotsOk(g, d, dir, w, x)
  {
    hide FileOk;
    assert SlotOk(g, d, dir[x], w.chains[x], w.files);
  }

  /** Deleting: the slot, whose chain has been freed, is marked and its name forgotten. */
  lemma FileDeleted(g: Geometry, d: Disk, w: Catalog, x: nat, e: Entry32)
    requires Represents(g, d, w, x) && x < |Directory(g, d)| && InUse(Directory(g, d)[x]) && w.chains[x] == []
    requires e[0] == DELETED
    ensures var n := NameOf(Directory(g, d)[x]);
            Represents(g, PutEntry(g, d, x, e), w.(slotOf := w.slotOf - {n}, files := w.files - {n}), -1)
  {
    hide Mirrored, ChainsOk, Table, ValidName, Stores;
    var dir := Directory(g, d);
    var n := NameOf(dir[x]);
    var w' := w.(slotOf := w.slotOf - {n}, files := w.files - {n});
    NameDeleted(dir, w.slotOf, x, e);
    OtherNames(dir, w, x, w');
    SlotReplaced(g, d, dir, w, x, e, w');
    WrittenBack(g, d, x, e, w');
  }

  /** Renaming: the slot keeps its chain and content under the new name. */
  lemma FileRenamed(g: Geometry, d: Disk, w: Catalog, x: nat, name: FileName)
    requires Represents(g, d, w, -1) && x < |Directory(g, d)| && InUse(Directory(g, d)[x])
    requires |name| == 11 && ValidName(name) && name[0] != FREE && name[0] != DELETED && name !in w.files
    ensures var e := Directory(g, d)[x];
            var n := NameOf(e);
            && n in w.files
            && Represents(g, PutEntry(g, d, x, WithName(e, name)),
                          w.(slotOf := (w.slotOf - {n})[name := x], files := (w.files - {n})[name := w.files[n]]), -1)
  {
    hide Mirrored, ChainsOk, Table, ValidName, Stores;
    var dir := Directory(g, d);
    var e, n, e' := dir[x], NameOf(dir[x]), WithName(dir[x], name);
    assert NamedSlot(e, w.slotOf, x) && SlotOk(g, d, e, w.chains[x], w.files);
    var w' := w.(slotOf := (w.slotOf - {n})[name := x], files := (w.files - {n})[name := w.files[n]]);
    assert w'.files.Keys == w.files.Keys - {n} + {name} == w'.slotOf.Keys;
    WithNameFields(e, name);
    NameReplaced(dir, w.slotOf, x, e');
    OtherNames(dir, w, x, w');
    SlotReplaced(g, d, dir, w, x, e', w');
    WrittenBack(g, d, x, e', w');
  }

  // ---------------------------------------------------------------- marked names and broken files

  lemma MarkStored(dir: seq<Entry32>, slotOf: map<FileName, nat>, x: nat, e: Entry32)
    requires NamesOk(dir, slotOf) && x < |dir| && !InUse(dir[x]) && Crowded(dir, x) && e[0] == DELETED
    ensures NamesOk(dir[x := e], slotOf)
  {
    hide ValidName;
    var dir' := dir[x := e];
    forall k | 0 <= k < |dir'| && InUse(dir'[k]) ensures NamedSlot(dir'[k], slotOf, k) {
      assert NamedSlot(dir[k], slotOf, k);
    }
  }

  /** A marked name stored in the first slot not in use: the catalogue is as before, the pending chain belongs to
      nothing. */
  lemma MarkedStored(g: Geometry, d: Disk, w: Catalog, x: nat, e: Entry32)
    requires Represents(g, d, w, -1) && x < |Directory(g, d)| && !InUse(Directory(g, d)[x])
    requires Crowded(Directory(g, d), x) && e[0] == DELETED
    ensures Represents(g, PutEntry(g, d, x, e), w, -1)
  {
    hide Mirrored, ChainsOk, Table, ValidName, Stores;
    var dir := Directory(g, d);
    MarkStored(dir, w.slotOf, x, e);
    assert SlotOk(g, d, dir[x], w.chains[x], w.files);
    OtherNames(dir, w, x, w);
    SlotReplaced(g, d, dir, w, x, e, w);
    WrittenBack(g, d, x, e, w);
  }

  /** What renaming slot x to a marked name leaves: the file is gone and its chain belongs to nothing. */
  ghost function RenamedAway(w: Catalog, x: nat, n: FileName): Catalog
    requires x < |w.chains|
  {
    var p := |w.chains| - 1;
    Catalog(Moved(w.chains, x, p), Relabelled(w.own, x, p), w.slotOf - {n}, w.files - {n})
  }

  lemma ChainGivenUp(g: Geometry, d: Disk, fat: seq<nat>, eoc: nat, dir: seq<Entry32>, w: Catalog, x: nat, e: Entry32)
    requires ChainsOk(fat, eoc, w.chains, w.own) && NamesOk(dir, w.slotOf)
    requires 1 <= g.spc && SlotsOk(g, d, dir, w, -1) && x < |dir| && Pending(w) == [] && InUse(dir[x])
    requires e[0] == DELETED
    ensures var w' := RenamedAway(w, x, NameOf(dir[x]));
            && ChainsOk(fat, eoc, w'.chains, w'.own) && NamesOk(dir[x := e], w'.slotOf)
            && SlotsOk(g, d, dir[x := e], w', -1)
  {
    hide ChainsOk, Stores, ValidName, NamesOk, FileOk, OthersKept;
    var n, p := NameOf(dir[x]), |w.chains| - 1;
    var w' := RenamedAway(w, x, n);
    NameDeleted(dir, w.slotOf, x, e);
    MoveChain(fat, eoc, w.chains, w.own, x, p);
    OtherNames(dir, w, x, w');
    SlotReplaced(g, d, dir, w, x, e, w');
  }

  lemma FileRenamedAway(g: Geometry, d: Disk, w: Catalog, x: nat, e: Entry32)
    requires Represents(g, d, w, -1) && Pending(w) == [] && x < |Directory(g, d)| && InUse(Directory(g, d)[x])
    requires e[0] == DELETED
    ensures Represents(g, PutEntry(g, d, x, e), RenamedAway(w, x, NameOf(Directory(g, d)[x])), -1)
  {
    hide Mirrored, ChainsOk, Table, NamesOk, SlotsOk, RenamedAway, PutEntry;
    RepresentsBounds(g, d, w, -1);
    ChainGivenUp(g, d, Table(g, d), EocThreshold(g.bits), Directory(g, d), w, x, e);
    WrittenBack(g, d, x, e, RenamedAway(w, x, NameOf(Directory(g, d)[x])));
  }

  /** A slot that was busy and agrees with the catalogue again. */
  lemma BusyEnds(g: Geometry, d: Disk, w: Catalog, x: nat)
    requires Represents(g, d, w, x) && x < |Directory(g, d)|
    requires x < |w.chains| && SlotOk(g, d, Directory(g, d)[x], w.chains[x], w.files)
    ensures Represents(g, d, w, -1)
  {
    hide Mirrored, ChainsOk, Table, NamesOk, SlotOk, Directory;
  }

  /** What the catalogue says about the file of a busy slot does not matter. */
  lemma BusyContent(g: Geometry, d: Disk, w: Catalog, x: nat, n: FileName, content: seq<Byte>)
    requires Represents(g, d, w, x) && n in w.slotOf && w.slotOf[n] == x
    ensures Represents(g, d, w.(files := w.files[n := content]), x)
  {
    hide Mirrored, ChainsOk, Table, Directory, Stores, ValidName;
    var dir, w' := Directory(g, d), w.(files := w.files[n := content]);
    assert w'.files.Keys == w.files.Keys;
    forall k | 0 <= k < |dir| && k != x ensures SlotOk(g, d, dir[k], w'.chains[k], w'.files) {
      assert SlotOk(g, d, dir[k], w.chains[k], w.files);
      if InUse(dir[k]) { assert NamedSlot(dir[k], w.slotOf, k); }
    }
  }

  /** A file without content needs no chain. */
  lemma EmptyAgain(g: Geometry, d: Disk, w: Catalog, x: nat, n: FileName)
    requires Represents(g, d, w, x) && n in w.files && w.slotOf[n] == x && w.files[n] == []
    requires x < Slots(g) && w.chains[x] == [] && InUse(Directory(g, d)[x]) && NameOf(Directory(g, d)[x]) == n
    requires FirstCluster(Directory(g, d)[x]) == 0 && SizeOf(Directory(g, d)[x]) == 0
    ensures Represents(g, d, w, -1)
  {
    hide Mirrored, ChainsOk, Table, NamesOk, Directory, Represents, Stores;
    RepresentsBounds(g, d, w, x);
    FatContent.EmptyStored(g, d);
    BusyEnds(g, d, w, x);
  }

  lemma HeadReal(g: Geometry, d: Disk, w: Catalog, busy: int, x: nat)
    requires Represents(g, d, w, busy) && x < |w.chains|
    ensures w.chains[x] != [] ==> 2 <= w.chains[x][0]
  {
    hide Mirrored, Table, NamesOk, Directory, SlotsOk;
    if w.chains[x] != [] { assert Linked(Table(g, d), EocThreshold(g.bits), w.chains, w.own, x, 0); }
  }

  lemma PendingHead(g: Geometry, d: Disk, w: Catalog)
    requires Represents(g, d, w, -1)
    ensures w.chains != [] && Head(Pending(w)) < WORD32
  {
    hide Mirrored, Table, NamesOk, Directory, SlotsOk, ChainsOk;
    RepresentsBounds(g, d, w, -1);
    HeadInRange(g, d, w, |w.chains| - 1);
  }

  /** What an entry says of a file with and without content. */
  lemma FileOkMeans(g: Geometry, d: Disk, e: Entry32, chain: seq<nat>, content: seq<Byte>)
    requires 1 <= g.spc && FileOk(g, d, e, chain, content) && (chain != [] ==> 2 <= chain[0])
    ensures |chain| == Needed(g, |content|) && SizeOf(e) == |content|
    ensures if content == [] then FirstCluster(e) == 0 else 2 <= FirstCluster(e) && 0 < SizeOf(e)
  {
    hide Needed, Stores, SizeOf, FirstCluster;
    FatContent.StoredLength(g, d, chain, content);
    NeededPositive(g, |content|);
  }

  lemma NeededPositive(g: Geometry, len: nat)
    requires 1 <= g.spc
    ensures Needed(g, len) == 0 <==> len == 0
  {
    var b := ClusterBytes(g);
    if len == 0 {
      FatContent.SmallQuotient(b - 1, b);
    } else {
      FatContent.CeilAbove(0, b, len);
    }
  }

  /** Every file but n is as catalogued; the entry of n gives a size and a first cluster, but n owns no cluster. */
  ghost predicate Broken(g: Geometry, d: Disk, w: Catalog, n: FileName)
  {
    && n in w.slotOf && n !in w.files
    && Represents(g, d, w.(files := w.files[n := []]), w.slotOf[n])
    && w.slotOf[n] < Slots(g) && w.chains[w.slotOf[n]] == []
    && var e := Directory(g, d)[w.slotOf[n]];
       InUse(e) && NameOf(e) == n && 2 <= FirstCluster(e) && 0 < SizeOf(e)
  }

  // ---------------------------------------------------------------- a blank volume

  /** The first sector of a fresh table: the media byte and end marks of entries 0 and 1. */
  function FirstTableSector(bits: nat): Sector
  {
    if bits == 12 then [0xF8, 0xFF, 0xFF] + Zeros(509) else [0xF8, 0xFF, 0xFF, 0xFF] + Zeros(508)
  }

  /** Both regions as fat_format leaves them. */
  ghost predicate Blank(g: Geometry, d: Disk)
    requires GeometryOk(g, |d|)
  {
    && (forall f: nat, t: nat :: f < g.numFats && t < g.fatSize ==>
          FatSector(g, f, t) < |d| &&
          d[FatSector(g, f, t)] == if t == 0 then FirstTableSector(g.bits) else ZeroSector())
    && (forall i :: g.rootStart <= i < g.dataStart ==> d[i] == ZeroSector())
  }

  ghost function EmptyCatalog(g: Geometry): Catalog
  {
    Catalog(seq(Slots(g) + 1, i => []), map[], map[], map[])
  }

  lemma BlankTable(g: Geometry, d: Disk, c: nat)
    requires GeometryOk(g, |d|) && Blank(g, d) && 2 <= c < g.clusters + 2
    ensures Table(g, d)[c] == 0
  {
    OffsetFits(g, c);
    var o, b := EntryOffset(g.bits, c), FatImage(g, d);
    forall x | o <= x < o + 2 ensures b[x] == 0 {
      assert FatSector(g, 0, x / 512) == g.fatStart + x / 512;
    }
  }

  /** A freshly formatted volume represents the empty catalogue. */
  lemma BlankRepresents(g: Geometry, d: Disk)
    requires GeometryOk(g, |d|) && Blank(g, d)
    ensures Represents(g, d, EmptyCatalog(g), -1)
  {
    var w, dir := EmptyCatalog(g), Directory(g, d);
    assert Mirrored(g, d) by {
      forall f: nat, t: nat | f < g.numFats && t < g.fatSize
        ensures FatSector(g, f, t) < |d| && d[FatSector(g, f, t)] == d[g.fatStart + t]
      {
        assert FatSector(g, 0, t) == g.fatStart + t;
      }
    }
    assert ChainsOk(Table(g, d), EocThreshold(g.bits), w.chains, w.own) by {
      hide Blank, Table;
      forall c: nat | 2 <= c < g.clusters + 2 ensures Table(g, d)[c] == 0 { BlankTable(g, d, c); }
    }
    BlankDirectory(g, d);
  }

  lemma BlankDirectory(g: Geometry, d: Disk)
    requires GeometryOk(g, |d|) && Blank(g, d)
    ensures NamesOk(Directory(g, d), map[]) && SlotsOk(g, d, Directory(g, d), EmptyCatalog(g), -1)
  {
    hide ValidName, Stores;
    var dir := Directory(g, d);
    forall k | 0 <= k < |dir| ensures dir[k][0] == FREE {
      assert d[g.rootStart + k / 16] == ZeroSector();
    }
    assert forall k :: 0 <= k < |dir| ==> SlotOk(g, d, dir[k], [], map[]);
  }
}
