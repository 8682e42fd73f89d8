/** Volume geometry and the packed 12- and 16-bit file allocation table (kernel/fat.c:341-393). */
module FatTable {
  import opened Bytes

  /** The static geometry variables that mounting computes (kernel/fat.c:66-74, 111-133). */
  datatype Geometry = Geometry(
    bits: nat, spc: nat, fatStart: nat, numFats: nat, fatSize: nat,
    rootStart: nat, rootSectors: nat, dataStart: nat, clusters: nat)

  type Disk = seq<Sector>

  function EntryLimit(bits: nat): nat { if bits == 12 then 0x1000 else 0x10000 }

  function EocThreshold(bits: nat): nat { if bits == 12 then 0x0FF8 else 0xFFF8 }

  function EocMarker(bits: nat): nat { if bits == 12 then 0x0FFF else 0xFFFF }

  /** Entries have 12 or 16 bits; the last eight values end a chain, and the last of all is the one written. */
  lemma EndMarks(bits: nat)
    requires bits == 12 || bits == 16
    ensures EntryLimit(bits) == (if bits == 12 then 0x1000 else 0x1000 * 0x10)
    ensures EocThreshold(bits) == EntryLimit(bits) - 8 && EocMarker(bits) == EntryLimit(bits) - 1
  {
  }

  /** Byte offset of an entry inside one copy of the table. */
  function EntryOffset(bits: nat, c: nat): nat { if bits == 12 then c + c / 2 else c * 2 }

  /** What the rest of the driver relies on; established by formatting (module FatFormat). */
  predicate GeometryOk(g: Geometry, size: nat)
  {
    && (g.bits == 12 || g.bits == 16)
    && 1 <= g.spc && 1 <= g.fatStart && 1 <= g.numFats && 1 <= g.fatSize && 1 <= g.rootSectors
    && g.rootStart == g.fatStart + g.numFats * g.fatSize
    && g.dataStart == g.rootStart + g.rootSectors
    && g.dataStart + g.clusters * g.spc <= size
    && g.fatStart + g.fatSize <= g.rootStart && g.dataStart <= size
    && 1 <= g.clusters && g.clusters + 2 <= EocThreshold(g.bits)
    && EntryOffset(g.bits, g.clusters + 1) + 2 <= g.fatSize * 512
  }

  /** Sector t of copy f of the table. */
  function FatSector(g: Geometry, f: nat, t: nat): nat { g.fatStart + f * g.fatSize + t }

  lemma FatSectorRange(g: Geometry, f: nat, t: nat)
    requires f < g.numFats && t < g.fatSize
    ensures g.fatStart <= FatSector(g, f, t) < g.fatStart + g.numFats * g.fatSize
  {
    assert (f + 1) * g.fatSize <= g.numFats * g.fatSize;
  }

  lemma FatSectorInjective(g: Geometry, f: nat, t: nat, f': nat, t': nat)
    requires t < g.fatSize && t' < g.fatSize
    ensures FatSector(g, f, t) == FatSector(g, f', t') ==> f == f' && t == t'
  {
    if f < f' {
      assert (f + 1) * g.fatSize <= f' * g.fatSize;
    } else if f' < f {
      assert (f' + 1) * g.fatSize <= f * g.fatSize;
    }
  }

  /** Every copy of the table holds the same sectors as the first. */
  ghost predicate Mirrored(g: Geometry, d: Disk)
    requires GeometryOk(g, |d|)
  {
    forall f: nat, t: nat :: f < g.numFats && t < g.fatSize ==>
      FatSector(g, f, t) < |d| && d[FatSector(g, f, t)] == d[g.fatStart + t]
  }

  /** The bytes of the first copy of the table. */
  function FatImage(g: Geometry, d: Disk): (b: seq<Byte>)
    requires g.fatStart + g.fatSize <= |d|
    ensures |b| == g.fatSize * 512
  {
    seq(g.fatSize * 512, o requires 0 <= o < g.fatSize * 512 => d[g.fatStart + o / 512][o % 512])
  }

  function Unpack(bits: nat, c: nat, raw: nat): nat
  {
    if bits == 12 then (if c % 2 == 1 then raw / 16 else raw % 4096) else raw
  }

  function Pack(bits: nat, c: nat, raw: nat, v: nat): nat
  {
    if bits == 12 then
      if c % 2 == 1 then raw % 16 + v % 4096 * 16 else raw / 4096 * 4096 + v % 4096
    else v % 65536
  }

  /** Entry c of a table image. */
  function EntryAt(bits: nat, b: seq<Byte>, c: nat): nat
    requires EntryOffset(bits, c) + 2 <= |b|
  {
    Unpack(bits, c, Le16(b, EntryOffset(bits, c)))
  }

  /** A table image with entry c set to v. */
  function Patch(bits: nat, b: seq<Byte>, c: nat, v: nat): seq<Byte>
    requires EntryOffset(bits, c) + 2 <= |b|
  {
    var o := EntryOffset(bits, c);
    var raw := Pack(bits, c, Le16(b, o), v);
    b[o := Lo(raw)][o + 1 := Hi(raw)]
  }

  lemma OffsetMonotone(bits: nat, c: nat, x: nat)
    requires c < x
    ensures EntryOffset(bits, c) + 1 <= EntryOffset(bits, x)
    ensures c + 1 < x || bits != 12 || c % 2 == 1 ==> EntryOffset(bits, c) + 2 <= EntryOffset(bits, x)
  {
  }

  lemma Nibbles(b0: Byte, b1: Byte)
    ensures var raw := b0 as int + 256 * b1 as int;
            && raw % 4096 == b0 as int + 256 * (b1 as int % 16)
            && raw / 16 == b0 as int / 16 + 16 * b1 as int
            && raw / 4096 == b1 as int / 16
            && raw % 16 == b0 as int % 16
  {
  }

  lemma PackOdd(b0: nat, w: nat)
    requires b0 < 16 && w < 4096
    ensures var r := b0 + w * 16; r < 65536 && Lo(r) as int == b0 + 16 * (w % 16) && Hi(r) as int == w / 16
  {
    var q, m := w / 16, w % 16;
    var r := b0 + w * 16;
    assert w == 16 * q + m;
    assert r == 256 * q + (b0 + 16 * m) && b0 + 16 * m < 256 && q < 256;
    SplitByte(q, b0 + 16 * m);
  }

  lemma SplitByte(q: nat, m: nat)
    requires m < 256
    ensures (256 * q + m) / 256 == q && (256 * q + m) % 256 == m
  {
  }

  lemma PackEven(b1: nat, w: nat)
    requires b1 < 16 && w < 4096
    ensures var r := b1 * 4096 + w; r < 65536 && Lo(r) as int == w % 256 && Hi(r) as int == b1 * 16 + w / 256
  {
    var q, m := w / 256, w % 256;
    assert w == 256 * q + m;
    assert b1 * 4096 + w == 256 * (b1 * 16 + q) + m;
    SplitByte(b1 * 16 + q, m);
  }

  lemma JoinOdd(n: nat, w: nat)
    requires n < 16 && w < 4096
    ensures (n + 16 * (w % 16)) / 16 + 16 * (w / 16) == w
  {
  }

  lemma JoinEven(n: nat, w: nat)
    requires n < 16 && w < 4096
    ensures w % 256 + 256 * ((n * 16 + w / 256) % 16) == w
  {
  }

  /** The two bytes that a patch of a 12-bit entry writes. */
  lemma PatchedBytes(b: seq<Byte>, c: nat, v: nat)
    requires EntryOffset(12, c) + 2 <= |b|
    ensures var o, b', w := EntryOffset(12, c), Patch(12, b, c, v), v % 4096;
            if c % 2 == 1 then b'[o] as int == b[o] as int % 16 + 16 * (w % 16) && b'[o + 1] as int == w / 16
            else b'[o] as int == w % 256 && b'[o + 1] as int == b[o + 1] as int / 16 * 16 + w / 256
  {
    var o := EntryOffset(12, c);
    Nibbles(b[o], b[o + 1]);
    if c % 2 == 1 { PackOdd(b[o] as int % 16, v % 4096); } else { PackEven(b[o + 1] as int / 16, v % 4096); }
  }

  /** Reading an entry back gives the value masked to the entry width. */
  lemma ReadBack(bits: nat, b: seq<Byte>, c: nat, v: nat)
    requires (bits == 12 || bits == 16) && EntryOffset(bits, c) + 2 <= |b|
    ensures EntryAt(bits, Patch(bits, b, c, v), c) == v % EntryLimit(bits)
  {
    if bits == 12 {
      var o, b' := EntryOffset(12, c), Patch(12, b, c, v);
      PatchedBytes(b, c, v);
      Nibbles(b'[o], b'[o + 1]);
      if c % 2 == 1 { JoinOdd(b[o] as int % 16, v % 4096); } else { JoinEven(b[o + 1] as int / 16, v % 4096); }
    }
  }

  lemma EntryBytes(b: seq<Byte>, c: nat)
    requires EntryOffset(12, c) + 2 <= |b|
    ensures var o := EntryOffset(12, c);
            EntryAt(12, b, c) == if c % 2 == 1 then b[o] as int / 16 + 16 * b[o + 1] as int
                                 else b[o] as int + 256 * (b[o + 1] as int % 16)
  {
    Nibbles(b[EntryOffset(12, c)], b[EntryOffset(12, c) + 1]);
  }

  lemma PatchElsewhere(b: seq<Byte>, c: nat, v: nat, i: nat)
    requires EntryOffset(12, c) + 2 <= |b| && i < |b| && i != EntryOffset(12, c) && i != EntryOffset(12, c) + 1
    ensures |Patch(12, b, c, v)| == |b| && Patch(12, b, c, v)[i] == b[i]
  {
    hide Pack, EntryOffset, Lo, Hi;
  }

  lemma NibbleKept(x: nat, n: nat)
    ensures (x % 16 + 16 * n) % 16 == x % 16
    ensures n < 16 ==> (x / 16 * 16 + n) / 16 == x / 16
  {
  }

  lemma Neighbours(c: nat)
    ensures c % 2 == 0 ==> EntryOffset(12, c + 1) == EntryOffset(12, c) + 1
    ensures c % 2 == 1 ==> EntryOffset(12, c) == EntryOffset(12, c - 1) + 1 && (c - 1) % 2 == 0
  {
  }

  /** Entry c + 1 shares the high byte of an even entry c and keeps its value. */
  lemma NextKept(b: seq<Byte>, c: nat, v: nat)
    requires c % 2 == 0 && EntryOffset(12, c + 1) + 2 <= |b|
    ensures EntryAt(12, Patch(12, b, c, v), c + 1) == EntryAt(12, b, c + 1)
  {
    var o := EntryOffset(12, c);
    Neighbours(c);
    PatchedBytes(b, c, v);
    PatchElsewhere(b, c, v, o + 2);
    EntryBytes(b, c + 1);
    EntryBytes(Patch(12, b, c, v), c + 1);
    NibbleKept(b[o + 1], v % 4096 / 256);
    hide Patch, EntryAt, EntryOffset;
  }

  /** Entry c - 1 shares the low byte of an odd entry c and keeps its value. */
  lemma PreviousKept(b: seq<Byte>, c: nat, v: nat)
    requires c % 2 == 1 && EntryOffset(12, c) + 2 <= |b|
    ensures EntryAt(12, Patch(12, b, c, v), c - 1) == EntryAt(12, b, c - 1)
  {
    var o := EntryOffset(12, c);
    Neighbours(c);
    PatchedBytes(b, c, v);
    PatchElsewhere(b, c, v, o - 1);
    EntryBytes(b, c - 1);
    EntryBytes(Patch(12, b, c, v), c - 1);
    NibbleKept(b[o], v % 4096 % 16);
    hide Patch, EntryAt, EntryOffset;
  }

  /** Every other entry, the one sharing a byte included, keeps its value. */
  lemma OthersKept(bits: nat, b: seq<Byte>, c: nat, v: nat, x: nat)
    requires (bits == 12 || bits == 16) && EntryOffset(bits, c) + 2 <= |b| && EntryOffset(bits, x) + 2 <= |b|
    requires x != c
    ensures EntryAt(bits, Patch(bits, b, c, v), x) == EntryAt(bits, b, x)
  {
    if bits == 12 && c % 2 == 0 && x == c + 1 {
      NextKept(b, c, v);
    } else if bits == 12 && c % 2 == 1 && x == c - 1 {
      PreviousKept(b, c, v);
    } else {
      var o, p, b' := EntryOffset(bits, c), EntryOffset(bits, x), Patch(bits, b, c, v);
      if x < c { OffsetMonotone(bits, x, c); } else { OffsetMonotone(bits, c, x); }
      assert b'[p] == b[p] && b'[p + 1] == b[p + 1];
    }
  }

  /** Entry c of the volume's table. */
  function Entry(g: Geometry, d: Disk, c: nat): nat
    requires GeometryOk(g, |d|) && c < g.clusters + 2
  {
    OffsetFits(g, c);
    EntryAt(g.bits, FatImage(g, d), c)
  }

  /** Sector k of a one- or two-sector buffer. */
  function BufferSector(buf: seq<Byte>, k: nat): Sector
    requires 512 * k + 512 <= |buf|
  {
    buf[512 * k..512 * k + 512]
  }

  /** d is d0 with buf written over sectors t0, t0 + 1 of the first n copies. */
  ghost predicate CopiesWritten(g: Geometry, d0: Disk, d: Disk, n: nat, t0: nat, buf: seq<Byte>)
    requires GeometryOk(g, |d0|) && (|buf| == 512 || |buf| == 1024)
  {
    && |d| == |d0|
    && (forall i :: 0 <= i < |d| && !(g.fatStart <= i < g.rootStart) ==> d[i] == d0[i])
    && (forall f: nat, t: nat :: f < g.numFats && t < g.fatSize ==>
          && FatSector(g, f, t) < |d|
          && d[FatSector(g, f, t)] ==
             if f < n && t0 <= t < t0 + |buf| / 512 then BufferSector(buf, t - t0) else d0[FatSector(g, f, t)])
  }

  lemma NoCopyWritten(g: Geometry, d: Disk, t0: nat, buf: seq<Byte>)
    requires GeometryOk(g, |d|) && (|buf| == 512 || |buf| == 1024)
    ensures CopiesWritten(g, d, d, 0, t0, buf)
  {
    forall f: nat, t: nat | f < g.numFats && t < g.fatSize ensures FatSector(g, f, t) < |d| {
      FatSectorRange(g, f, t);
    }
  }

  lemma CopyWritten(g: Geometry, d0: Disk, d: Disk, n: nat, t0: nat, buf: seq<Byte>, d': Disk)
    requires GeometryOk(g, |d0|) && (|buf| == 512 || |buf| == 1024)
    requires CopiesWritten(g, d0, d, n, t0, buf)
    requires n < g.numFats && t0 + |buf| / 512 <= g.fatSize
    requires FatSector(g, n, t0) + |buf| / 512 <= |d|
    requires d' == if |buf| == 512 then d[FatSector(g, n, t0) := BufferSector(buf, 0)]
                   else d[FatSector(g, n, t0) := BufferSector(buf, 0)][FatSector(g, n, t0) + 1 := BufferSector(buf, 1)]
    ensures CopiesWritten(g, d0, d', n + 1, t0, buf)
  {
    FatSectorRange(g, n, t0);
    FatSectorRange(g, n, t0 + |buf| / 512 - 1);
    forall f: nat, t: nat | f < g.numFats && t < g.fatSize
      ensures FatSector(g, f, t) < |d'|
      ensures d'[FatSector(g, f, t)] ==
             if f < n + 1 && t0 <= t < t0 + |buf| / 512 then BufferSector(buf, t - t0) else d0[FatSector(g, f, t)]
    {
      FatSectorRange(g, f, t);
      FatSectorInjective(g, f, t, n, t0);
      FatSectorInjective(g, f, t, n, t0 + |buf| / 512 - 1);
    }
  }

  lemma OffsetFits(g: Geometry, c: nat)
    requires GeometryOk(g, g.dataStart + g.clusters * g.spc) && c < g.clusters + 2
    ensures EntryOffset(g.bits, c) + 2 <= g.fatSize * 512
  {
    if c < g.clusters + 1 { OffsetMonotone(g.bits, c, g.clusters + 1); }
  }

  lemma SectorOf(t: nat, k: nat)
    requires k < 512
    ensures (t * 512 + k) / 512 == t && (t * 512 + k) % 512 == k
  {
  }

  /** The buffer that holds the entry at offset o: one sector, or two when the entry straddles a boundary. */
  function ReadBuffer(g: Geometry, d: Disk, o: nat): (buf: seq<Byte>)
    requires g.fatStart + g.fatSize <= |d| && o + 2 <= g.fatSize * 512
    ensures |buf| == 512 || |buf| == 1024
    ensures o % 512 + 2 <= |buf| && o / 512 + |buf| / 512 <= g.fatSize
  {
    var t := o / 512;
    var first: seq<Byte> := d[g.fatStart + t];
    if o % 512 == 511 then first + d[g.fatStart + t + 1] else first
  }

  lemma BufferIsWindow(g: Geometry, d: Disk, o: nat)
    requires g.fatStart + g.fatSize <= |d| && o + 2 <= g.fatSize * 512
    ensures var base, b := o / 512 * 512, ReadBuffer(g, d, o);
            base + |b| <= g.fatSize * 512 && b == FatImage(g, d)[base..base + |b|]
  {
    var t, b := o / 512, ReadBuffer(g, d, o);
    assert (t + |b| / 512) * 512 <= g.fatSize * 512;
    forall k | 0 <= k < |b| ensures FatImage(g, d)[t * 512 + k] == b[k] {
      if k < 512 { SectorOf(t, k); } else { SectorOf(t + 1, k - 512); }
    }
  }

  lemma BufferEntry(g: Geometry, d: Disk, o: nat)
    requires g.fatStart + g.fatSize <= |d| && o + 2 <= g.fatSize * 512
    ensures Le16(ReadBuffer(g, d, o), o % 512) == Le16(FatImage(g, d), o)
  {
    BufferIsWindow(g, d, o);
  }

  /** Nothing outside the table region differs. */
  ghost predicate SameOutsideTable(g: Geometry, d0: Disk, d: Disk)
  {
    |d| == |d0| && forall i :: 0 <= i < |d| && !(g.fatStart <= i < g.rootStart) ==> d[i] == d0[i]
  }

  function DataEnd(g: Geometry): nat { g.dataStart + g.clusters * g.spc }

  /** Nothing has changed outside the tables, the directory and the clusters: the reserved sectors in front, with the
      boot sector, and whatever lies behind. */
  ghost predicate OutsideKept(g: Geometry, d0: Disk, d: Disk)
  {
    |d| == |d0| && forall i :: 0 <= i < |d| && !(g.fatStart <= i < DataEnd(g)) ==> d[i] == d0[i]
  }

  lemma KeptSame(g: Geometry, d: Disk)
    ensures OutsideKept(g, d, d)
  {
  }

  lemma KeptChain(g: Geometry, d0: Disk, d1: Disk, d: Disk)
    requires OutsideKept(g, d0, d1) && OutsideKept(g, d1, d)
    ensures OutsideKept(g, d0, d)
  {
    hide DataEnd;
  }

  /** A change within the tables, or of one directory sector. */
  lemma TableInside(g: Geometry, d0: Disk, d: Disk)
    requires GeometryOk(g, |d0|) && SameOutsideTable(g, d0, d)
    ensures OutsideKept(g, d0, d)
  {
  }

  lemma DirectoryInside(g: Geometry, d: Disk, k: nat, s: Sector)
    requires GeometryOk(g, |d|) && k < 16 * g.rootSectors
    ensures g.rootStart + k / 16 < |d| && OutsideKept(g, d, d[g.rootStart + k / 16 := s])
  {
    var i := g.rootStart + k / 16;
    assert g.fatStart <= i < g.dataStart <= DataEnd(g) <= |d|;
    hide GeometryOk, DataEnd;
  }

  lemma OutsideSame(g: Geometry, d: Disk)
    ensures SameOutsideTable(g, d, d)
  {
  }

  lemma OutsideChain(g: Geometry, d0: Disk, d1: Disk, d: Disk)
    requires SameOutsideTable(g, d0, d1) && SameOutsideTable(g, d1, d)
    ensures SameOutsideTable(g, d0, d) && |d| == |d1|
  {
  }

  /** The image after the copies are written. */
  lemma ImageAfter(g: Geometry, d0: Disk, d: Disk, t0: nat, buf: seq<Byte>)
    requires GeometryOk(g, |d0|) && (|buf| == 512 || |buf| == 1024) && |d| == |d0|
    requires CopiesWritten(g, d0, d, g.numFats, t0, buf)
    ensures forall x :: 0 <= x < g.fatSize * 512 ==>
              FatImage(g, d)[x] == if t0 * 512 <= x < t0 * 512 + |buf| then buf[x - t0 * 512] else FatImage(g, d0)[x]
  {
    hide FatImage, CopiesWritten;
    forall x: nat | x < g.fatSize * 512
      ensures FatImage(g, d)[x] == if t0 * 512 <= x < t0 * 512 + |buf| then buf[x - t0 * 512] else FatImage(g, d0)[x]
    {
      ImageAt(g, d0, d, t0, buf, x);
    }
  }

  lemma SectorOfByte(x: nat, t0: nat, n: nat)
    ensures t0 * 512 <= x < (t0 + n) * 512 <==> t0 <= x / 512 < t0 + n
    ensures x == x / 512 * 512 + x % 512
  {
  }

  lemma ImageAt(g: Geometry, d0: Disk, d: Disk, t0: nat, buf: seq<Byte>, x: nat)
    requires GeometryOk(g, |d0|) && (|buf| == 512 || |buf| == 1024) && |d| == |d0|
    requires CopiesWritten(g, d0, d, g.numFats, t0, buf) && x < g.fatSize * 512
    ensures FatImage(g, d)[x] == if t0 * 512 <= x < t0 * 512 + |buf| then buf[x - t0 * 512] else FatImage(g, d0)[x]
  {
    var t := x / 512;
    SectorOfByte(x, t0, |buf| / 512);
    FirstCopyAt(g, d0, d, t0, buf, t);
    hide GeometryOk, CopiesWritten;
  }

  lemma FirstCopyAt(g: Geometry, d0: Disk, d: Disk, t0: nat, buf: seq<Byte>, t: nat)
    requires GeometryOk(g, |d0|) && (|buf| == 512 || |buf| == 1024) && |d| == |d0|
    requires CopiesWritten(g, d0, d, g.numFats, t0, buf) && t < g.fatSize
    ensures g.fatStart + g.fatSize <= |d|
    ensures d[g.fatStart + t] ==
            if t0 <= t < t0 + |buf| / 512 then BufferSector(buf, t - t0) else d0[g.fatStart + t]
  {
    hide BufferSector;
    assert FatSector(g, 0, t) == g.fatStart + t;
  }

  lemma MirroredAfter(g: Geometry, d0: Disk, d: Disk, t0: nat, buf: seq<Byte>)
    requires GeometryOk(g, |d0|) && (|buf| == 512 || |buf| == 1024) && |d| == |d0|
    requires CopiesWritten(g, d0, d, g.numFats, t0, buf) && Mirrored(g, d0)
    ensures Mirrored(g, d)
  {
    forall f: nat, t: nat | f < g.numFats && t < g.fatSize
      ensures FatSector(g, f, t) < |d| && d[FatSector(g, f, t)] == d[g.fatStart + t]
    {
      assert FatSector(g, 0, t) == g.fatStart + t;
      assert d0[FatSector(g, f, t)] == d0[g.fatStart + t];
    }
  }

  function PatchedBuffer(g: Geometry, d: Disk, c: nat, o: nat, v: nat): (buf: seq<Byte>)
    requires g.fatStart + g.fatSize <= |d| && o + 2 <= g.fatSize * 512
    ensures |buf| == |ReadBuffer(g, d, o)|
  {
    var b := ReadBuffer(g, d, o);
    var raw := Pack(g.bits, c, Le16(b, o % 512), v);
    b[o % 512 := Lo(raw)][o % 512 + 1 := Hi(raw)]
  }

  /** Patching a window of the image that holds the entry patches the image. */
  lemma PatchInWindow(bits: nat, img: seq<Byte>, c: nat, v: nat, o: nat, base: nat, n: nat, img': seq<Byte>)
    requires o == EntryOffset(bits, c) && base <= o && o + 2 <= base + n <= |img|
    requires |img'| == |img|
    requires var b := img[base..base + n];
             var raw := Pack(bits, c, Le16(b, o - base), v);
             var buf := b[o - base := Lo(raw)][o - base + 1 := Hi(raw)];
             forall x :: 0 <= x < |img| ==> img'[x] == if base <= x < base + n then buf[x - base] else img[x]
    ensures img' == Patch(bits, img, c, v)
  {
    var b := img[base..base + n];
    assert b[o - base] == img[o] && b[o - base + 1] == img[o + 1];
  }

  /** Writing the patched buffer over every copy patches the image. */
  lemma AllCopiesWritten(g: Geometry, d0: Disk, d: Disk, c: nat, o: nat, v: nat)
    requires GeometryOk(g, |d0|) && |d| == |d0|
    requires o == EntryOffset(g.bits, c) && o + 2 <= g.fatSize * 512
    requires CopiesWritten(g, d0, d, g.numFats, o / 512, PatchedBuffer(g, d0, c, o, v))
    ensures FatImage(g, d) == Patch(g.bits, FatImage(g, d0), c, v)
  {
    hide FatImage, CopiesWritten, Patch, Pack, ReadBuffer;
    var buf := PatchedBuffer(g, d0, c, o, v);
    BufferIsWindow(g, d0, o);
    ImageAfter(g, d0, d, o / 512, buf);
    PatchInWindow(g.bits, FatImage(g, d0), c, v, o, o / 512 * 512, |buf|, FatImage(g, d));
  }

  /** The table as a sequence of entries. */
  function Table(g: Geometry, d: Disk): (t: seq<nat>)
    requires GeometryOk(g, |d|)
    ensures |t| == g.clusters + 2
  {
    seq(g.clusters + 2, c requires 0 <= c < g.clusters + 2 => Entry(g, d, c))
  }

  /** Patching the image updates exactly one entry of the table. */
  lemma TablePatched(g: Geometry, d0: Disk, d: Disk, c: nat, v: nat)
    requires GeometryOk(g, |d0|) && |d| == |d0| && c < g.clusters + 2
    requires EntryOffset(g.bits, c) + 2 <= g.fatSize * 512
    requires FatImage(g, d) == Patch(g.bits, FatImage(g, d0), c, v)
    ensures Table(g, d) == Table(g, d0)[c := v % EntryLimit(g.bits)]
  {
    forall x | 0 <= x < g.clusters + 2
      ensures Entry(g, d, x) == if x == c then v % EntryLimit(g.bits) else Entry(g, d0, x)
    {
      OffsetFits(g, x);
      if x == c {
        ReadBack(g.bits, FatImage(g, d0), c, v);
      } else {
        OthersKept(g.bits, FatImage(g, d0), c, v, x);
      }
    }
  }

  /** What set_fat_entry computes: one entry changed, the copies still equal. */
  lemma EntryWritten(g: Geometry, d0: Disk, d: Disk, c: nat, v: nat)
    requires GeometryOk(g, |d0|) && c < g.clusters + 2 && Mirrored(g, d0)
    requires var o := EntryOffset(g.bits, c);
             o + 2 <= g.fatSize * 512 && CopiesWritten(g, d0, d, g.numFats, o / 512, PatchedBuffer(g, d0, c, o, v))
    ensures |d| == |d0| && SameOutsideTable(g, d0, d) && Mirrored(g, d)
    ensures Table(g, d) == Table(g, d0)[c := v % EntryLimit(g.bits)]
  {
    var o := EntryOffset(g.bits, c);
    assert |d| == |d0|;
    MirroredAfter(g, d0, d, o / 512, PatchedBuffer(g, d0, c, o, v));
    AllCopiesWritten(g, d0, d, c, o, v);
    TablePatched(g, d0, d, c, v);
  }
}
