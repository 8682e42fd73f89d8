/** Formatting and mounting: the arithmetic of fat_format, the boot sector, and mount_at_lba (kernel/fat.c:93-134,
    190-315). */
module FatFormat {
  import opened Common
  import opened Bytes
  import opened FatTable
  import opened FatFiles
  import opened FatNames

  const MAX_SECTORS: nat := 1048576

  function Capped(n: nat): nat { if n > MAX_SECTORS then MAX_SECTORS else n }

  // ---------------------------------------------------------------- what fat_format computes

  function SectorsPerCluster(n: nat): nat
  {
    if n >= 524288 then 16 else if n >= 262144 then 8 else if n >= 16384 then 4 else if n >= 8192 then 2 else 1
  }

  function RootEntries(n: nat): nat { if n <= 2048 then 112 else 512 }

  function RootSectors(n: nat): nat { (RootEntries(n) * 32 + 511) / 512 }

  function ApproxClusters(n: nat): nat
    requires 64 <= n
  {
    (n - 1 - RootSectors(n)) / SectorsPerCluster(n)
  }

  function FatBytes(a: nat): nat { if a < 4085 then ((a + 2) * 3 + 1) / 2 else (a + 2) * 2 }

  /** Sectors per table copy, cut to 16 bits and at least 1 as in the source. */
  function FatSectors(n: nat): nat
    requires 64 <= n
  {
    var s := (FatBytes(ApproxClusters(n)) + 511) / 512 % 65536;
    if s == 0 then 1 else s
  }

  function DataSectors(n: nat): int
    requires 64 <= n
  {
    n - 1 - 2 * FatSectors(n) - RootSectors(n)
  }

  function FinalClusters(n: nat): int
    requires 64 <= n
  {
    DataSectors(n) / SectorsPerCluster(n)
  }

  function TargetBits(n: nat): nat
    requires 64 <= n
  {
    if ApproxClusters(n) < 4085 || FinalClusters(n) < 4085 then 12 else 16
  }

  /** The geometry that a volume formatted on n sectors has. */
  function Planned(n: nat): Geometry
    requires 64 <= n && 0 <= FinalClusters(n)
  {
    var fs, rs := FatSectors(n), RootSectors(n);
    Geometry(TargetBits(n), SectorsPerCluster(n), 1, 2, fs, 1 + 2 * fs, rs, 1 + 2 * fs + rs, FinalClusters(n))
  }

  /** Quotients by the cluster size, made linear: spc is one of five constants. */
  lemma Quotient(x: nat, spc: nat)
    requires spc == 1 || spc == 2 || spc == 4 || spc == 8 || spc == 16
    ensures x / spc * spc <= x < x / spc * spc + spc
  {
  }

  lemma ApproxBounds(n: nat)
    requires 64 <= n <= MAX_SECTORS
    ensures var a, spc := ApproxClusters(n), SectorsPerCluster(n);
            && a * spc <= n - 1 - RootSectors(n) < a * spc + spc
            && 56 <= a <= 65533
            && (spc == 1 ==> a < 8160) && (spc > 1 ==> 4079 <= a)
  {
    Quotient(n - 1 - RootSectors(n), SectorsPerCluster(n));
  }

  lemma FatSectorsBounds(n: nat)
    requires 64 <= n <= MAX_SECTORS
    ensures var a, fs := ApproxClusters(n), FatSectors(n);
            1 <= fs <= 256 && fs * 512 - 512 < FatBytes(a) <= fs * 512
  {
    ApproxBounds(n);
    var a := ApproxClusters(n);
    var b := FatBytes(a);
    assert 1 <= b <= 131072;
  }

  lemma FatBytesBounds(a: nat)
    ensures FatBytes(a) <= 2 * a + 4 && (a < 4085 ==> FatBytes(a) <= 6130) && (a >= 4085 ==> FatBytes(a) == 2 * a + 4)
  {
  }

  /** Twice the table fits in what rounding leaves, so at least one cluster remains. */
  lemma DataRemains(n: nat)
    requires 64 <= n <= MAX_SECTORS
    ensures SectorsPerCluster(n) <= DataSectors(n) <= n - 1 - RootSectors(n)
  {
    hide FatSectors, ApproxClusters;
    ApproxBounds(n);
    FatSectorsBounds(n);
    var spc, fs, a := SectorsPerCluster(n), FatSectors(n), ApproxClusters(n);
    FatBytesBounds(a);
    assert 2 * fs <= a - 1;
    assert a - 1 <= (a - 1) * spc == a * spc - spc;
  }

  /** The smallest disk has room for eight clusters beside its tables, and so has every larger one. */
  lemma EightClusters(n: nat)
    requires 64 <= n <= MAX_SECTORS
    ensures 8 <= FinalClusters(n) && 4 <= RootSectors(n)
  {
    hide FatSectors, ApproxClusters;
    ApproxBounds(n);
    FatSectorsBounds(n);
    var spc, fs, a := SectorsPerCluster(n), FatSectors(n), ApproxClusters(n);
    FatBytesBounds(a);
    assert 2 * fs <= a - 8;
    assert a - 8 <= (a - 8) * spc == a * spc - 8 * spc;
    Quotient(DataSectors(n), spc);
  }

  /** The exact cluster count is at most the estimate, and below the FAT32 limit. */
  lemma FinalBounds(n: nat)
    requires 64 <= n <= MAX_SECTORS
    ensures 1 <= FinalClusters(n) <= ApproxClusters(n) && FinalClusters(n) < 65525
    ensures FinalClusters(n) * SectorsPerCluster(n) <= DataSectors(n)
  {
    hide FatSectors, ApproxClusters, FatBytes;
    DataRemains(n);
    ApproxBounds(n);
    FatSectorsBounds(n);
    var spc, fs, a, c := SectorsPerCluster(n), FatSectors(n), ApproxClusters(n), FinalClusters(n);
    Quotient(DataSectors(n), spc);
    FatBytesBounds(a);
    assert c > a ==> a * spc + spc <= c * spc by { if c > a { NextMultiple(a, c, spc); } }
    if a >= 65525 {
      assert fs == 256;
      assert (a - 31) * spc == a * spc + spc - 32 * spc;
      assert c >= a - 31 ==> (a - 31) * spc <= c * spc;
    }
  }

  /** For every disk of at least 64 sectors the plan is sound: the table has room for every entry, the data
      area ends inside the disk, and the cluster count is below both the FAT32 and the end-of-chain limits. */
  lemma PlanSound(n: nat)
    requires 64 <= n <= MAX_SECTORS
    ensures 1 <= FinalClusters(n) < 65525
    ensures GeometryOk(Planned(n), n)
    ensures TargetBits(n) == if FinalClusters(n) < 4085 then 12 else 16
  {
    hide FatSectors, ApproxClusters, FinalClusters;
    FatSectorsBounds(n);
    FinalBounds(n);
  }

  /** Cluster size and directory grow with the disk, in these steps. */
  lemma PlanSteps(n: nat, m: nat)
    ensures n <= m ==> SectorsPerCluster(n) <= SectorsPerCluster(m) && RootEntries(n) <= RootEntries(m)
    ensures SectorsPerCluster(0) == 1 == SectorsPerCluster(0x1FFF)
    ensures SectorsPerCluster(0x2000) == 2 == SectorsPerCluster(0x3FFF)
    ensures SectorsPerCluster(0x4000) == 4 == SectorsPerCluster(0x3_FFFF)
    ensures SectorsPerCluster(0x4_0000) == 8 == SectorsPerCluster(0x7_FFFF)
    ensures SectorsPerCluster(0x8_0000) == 16 == SectorsPerCluster(MAX_SECTORS)
    ensures RootEntries(0) == 7 * 16 == RootEntries(0x800) && RootEntries(0x801) == 32 * 16 == RootEntries(MAX_SECTORS)
  {
  }

  /** A table copy has the fewest sectors that hold an entry of 12 or 16 bits for each cluster estimated and for two
      more. */
  lemma TableSize(n: nat)
    requires 64 <= n <= MAX_SECTORS
    ensures var entries, bytes := ApproxClusters(n) + 2, FatBytes(ApproxClusters(n));
            && (if entries < 4087 then 12 * entries <= 8 * bytes < 12 * entries + 8 else 8 * bytes == 16 * entries)
            && 512 * (FatSectors(n) - 1) < bytes <= 512 * FatSectors(n)
  {
    FatSectorsBounds(n);
    hide ApproxClusters, FatSectors;
  }

  // ---------------------------------------------------------------- the boot sector

  /** The parameter block fields that the driver reads. */
  datatype Bpb = Bpb(
    bytesPerSector: nat, spc: nat, reserved: nat, numFats: nat, rootEntries: nat, total16: nat, fatSize: nat,
    total32: nat)

  function BpbOf(s: Sector): Bpb
  {
    Bpb(Le16(s, 11), s[13] as int, Le16(s, 14), s[16] as int, Le16(s, 17), Le16(s, 19), Le16(s, 22), Le32(s, 32))
  }

  function TotalSectors(b: Bpb): nat { if b.total16 != 0 then b.total16 else b.total32 }

  function DirectorySectors(b: Bpb): nat { (b.rootEntries * 32 + 511) / 512 }

  function MetaSectors(b: Bpb): nat { b.reserved + b.numFats * b.fatSize + DirectorySectors(b) }

  /** is_valid_bpb. */
  predicate IsValidBpb(s: Sector)
  {
    var b := BpbOf(s);
    && s[510] == 0x55 && s[511] == 0xAA
    && b.bytesPerSector == 512
    && (|| b.spc == 1 || b.spc == 2 || b.spc == 4 || b.spc == 8
        || b.spc == 16 || b.spc == 32 || b.spc == 64 || b.spc == 128)
    && b.reserved != 0 && 1 <= b.numFats <= 4 && b.rootEntries != 0 && b.fatSize != 0
    && MetaSectors(b) < TotalSectors(b)
  }

  /** The geometry that mount_at_lba computes from a valid block at sector `base`. */
  function MountedGeometry(b: Bpb, base: nat): Geometry
    requires 1 <= b.spc && MetaSectors(b) < TotalSectors(b)
  {
    var root := base + b.reserved + b.numFats * b.fatSize;
    var clusters := (TotalSectors(b) - MetaSectors(b)) / b.spc;
    Geometry(if clusters < 4085 then 12 else 16, b.spc, base + b.reserved, b.numFats, b.fatSize,
             root, DirectorySectors(b), root + DirectorySectors(b), clusters)
  }

  /** Exactly these boot sectors are valid: signed, with 512-byte sectors, clusters of a power of two up to 128 sectors,
      one to four tables, nothing of size zero, and at least one sector left for data. */
  lemma ValidBlocks(s: Sector)
    ensures IsValidBpb(s) <==>
            && s[510..] == [0x55, 0xAA] && Le16(s, 11) == 0x200
            && (exists k :: 0 <= k < 8 && s[13] == PowerOfTwo(k))
            && 0 < Le16(s, 14) && s[16] in {1, 2, 3, 4} && 0 < Le16(s, 17) && 0 < Le16(s, 22)
            && MetaSectors(BpbOf(s)) < TotalSectors(BpbOf(s))
  {
    hide Le16, Le32, MetaSectors, TotalSectors;
    assert s[510..] == [0x55, 0xAA] <==> s[510] == 0x55 && s[511] == 0xAA by {
      assert s[510..] == [s[510], s[511]];
    }
    Powers(s[13]);
  }

  function PowerOfTwo(k: nat): nat { if k == 0 then 1 else 2 * PowerOfTwo(k - 1) }

  lemma Powers(x: int)
    ensures (exists k :: 0 <= k < 8 && x == PowerOfTwo(k)) <==>
            x == 1 || x == 2 || x == 4 || x == 8 || x == 16 || x == 32 || x == 64 || x == 128
  {
    assert PowerOfTwo(0) == 1 && PowerOfTwo(1) == 2;
    assert PowerOfTwo(2) == 4;
    assert PowerOfTwo(3) == 8;
    assert PowerOfTwo(4) == 16;
    assert PowerOfTwo(5) == 32;
    assert PowerOfTwo(6) == 64;
    assert PowerOfTwo(7) == 128;
  }

  /** The parts of a mounted volume follow one another: reserved sectors, tables, a directory of the fewest sectors that
      hold the entries promised, and whole clusters up to the last that fits the sectors in the block. */
  lemma LayoutInOrder(s: Sector, base: nat)
    requires IsValidBpb(s)
    ensures var b := BpbOf(s);
            var g := MountedGeometry(b, base);
            && g.fatStart == base + Le16(s, 14) && g.numFats == s[16] && g.fatSize == Le16(s, 22)
            && g.rootStart == g.fatStart + g.numFats * g.fatSize && g.dataStart == g.rootStart + g.rootSectors
            && g.rootSectors * 16 - 16 < Le16(s, 17) <= g.rootSectors * 16
            && g.spc == s[13] && (g.bits == 12 <==> g.clusters < 4085) && (g.bits != 12 ==> g.bits == 16)
    ensures var g := MountedGeometry(BpbOf(s), base);
            var end := base + if Le16(s, 19) != 0 then Le16(s, 19) else Le32(s, 32);
            g.dataStart + g.clusters * g.spc <= end < g.dataStart + g.clusters * g.spc + g.spc
  {
    hide Le16, Le32;
    var b := BpbOf(s);
    var g := MountedGeometry(b, base);
    WholeClusters(TotalSectors(b) - MetaSectors(b), b.spc);
  }

  lemma WholeClusters(data: nat, spc: nat)
    requires 1 <= spc
    ensures data / spc * spc <= data < data / spc * spc + spc
  {
    var q, r := data / spc, data % spc;
    assert data == spc * q + r;
    assert q * spc == spc * q;
  }

  /** The byte totals of any volume that mounts fit 32 bits. */
  lemma MountableTotalsFit(s: Sector, base: nat)
    requires IsValidBpb(s) && MountedGeometry(BpbOf(s), base).clusters < 65525
    ensures var g := MountedGeometry(BpbOf(s), base);
            g.clusters * ClusterBytes(g) < WORD32
  {
    var g := MountedGeometry(BpbOf(s), base);
    assert ClusterBytes(g) <= 65536;
    assert g.clusters * ClusterBytes(g) <= 65524 * ClusterBytes(g);
  }

  const JUMP_AND_OEM: seq<Byte> := [0xEB, 0x3C, 0x90, 0x42, 0x45, 0x4E, 0x47, 0x41, 0x4C, 0x4F, 0x53]

  /** Bytes 11 to 23: sector size, cluster size, reserved sectors, copies, root entries, 16-bit total, media, table
      size. */
  function BootFields(spc: nat, rootEntries: nat, fatSize: nat, t16: nat): (f: seq<Byte>)
    ensures |f| == 13
  {
    [Lo(512), Hi(512), Lo(spc), Lo(1), Hi(1), 2, Lo(rootEntries), Hi(rootEntries), Lo(t16), Hi(t16), 0xF8,
     Lo(fatSize), Hi(fatSize)]
  }

  /** The first 36 bytes that fat_format writes; sectors per track, heads and hidden sectors come before the 32-bit
      total. */
  function BootHead(spc: nat, rootEntries: nat, fatSize: nat, total: nat): (h: seq<Byte>)
    ensures |h| == 36
  {
    var t16, t32 := if total < 65536 then total else 0, if total < 65536 then 0 else total;
    JUMP_AND_OEM + BootFields(spc, rootEntries, fatSize, t16) + [32, 0, 64, 0, 0, 0, 0, 0] + Bytes32(t32)
  }

  /** The whole boot sector: drive fields, volume id, label, type text, padding and signature follow. */
  function BootSector(n: nat, volLabel: seq<Byte>, typeText: seq<Byte>): Sector
    requires 64 <= n && |volLabel| == 11 && |typeText| == 8
  {
    BootHead(SectorsPerCluster(n), RootEntries(n), FatSectors(n), n)
    + ([0x80, 0, 0x29, 0x31, 0x10, 0x26, 0x20] + volLabel + typeText + Zeros(448) + [0x55, 0xAA])
  }

  /** The label field: upper case, cut or padded to 11 bytes, with a default. */
  function LabelField(volLabel: CString): (f: seq<Byte>)
    ensures |f| == 11
  {
    if volLabel == [] then [0x42, 0x45, 0x4E, 0x47, 0x41, 0x4C, 0x20, 0x4F, 0x53, 0x20, 0x20]
    else Pad(Upper(Take(volLabel, 11)), 11)
  }

  function TypeText(bits: nat): (f: seq<Byte>)
    ensures |f| == 8
  {
    [0x46, 0x41, 0x54, 0x31, if bits == 12 then 0x32 else 0x36, 0x20, 0x20, 0x20]
  }

  /** The fields of the boot sector that the driver itself does not read. */
  lemma BootSectorFields(n: nat, volLabel: seq<Byte>, typeText: seq<Byte>)
    requires 64 <= n && |volLabel| == 11 && |typeText| == 8
    ensures var s := BootSector(n, volLabel, typeText);
            && s[21] == 0xF8 && Le16(s, 24) == 32 && Le16(s, 26) == 64 && Le32(s, 28) == 0
            && s[36] == 0x80 && s[38] == 0x29 && Le32(s, 39) == 0x2026_1031
            && s[43..54] == volLabel && s[54..62] == typeText && forall i :: 62 <= i < 510 ==> s[i] == 0
  {
    hide FatSectors, SectorsPerCluster, RootEntries, Lo, Hi;
    var s := BootSector(n, volLabel, typeText);
    var h := BootHead(SectorsPerCluster(n), RootEntries(n), FatSectors(n), n);
    assert s[..36] == h && h[21] == 0xF8 && h[24..32] == [32, 0, 64, 0, 0, 0, 0, 0];
    assert forall i :: 24 <= i < 32 ==> s[i] == h[24..32][i - 24];
  }

  /** The texts in the boot sector. */
  lemma TextsSpelled()
    ensures Spells(JUMP_AND_OEM[3..], "BENGALOS") && Spells(LabelField([]), "BENGAL OS  ")
    ensures Spells(TypeText(12), "FAT12   ") && Spells(TypeText(16), "FAT16   ")
  {
  }

  lemma HeadBytes(spc: nat, rootEntries: nat, fatSize: nat, total: nat, s: Sector)
    requires s[..36] == BootHead(spc, rootEntries, fatSize, total)
    ensures var t16, t32 := if total < 65536 then total else 0, if total < 65536 then 0 else total;
            && s[11] == Lo(512) && s[12] == Hi(512) && s[13] == Lo(spc) && s[14] == Lo(1) && s[15] == Hi(1)
            && s[16] == 2
            && s[17] == Lo(rootEntries) && s[18] == Hi(rootEntries) && s[19] == Lo(t16) && s[20] == Hi(t16)
            && s[22] == Lo(fatSize) && s[23] == Hi(fatSize)
            && s[32] == Lo(t32 % 65536) && s[33] == Hi(t32 % 65536) && s[34] == Lo(t32 / 65536)
            && s[35] == Hi(t32 / 65536)
  {
    hide Lo, Hi, BootFields;
    var h := s[..36];
    var t16, t32 := if total < 65536 then total else 0, if total < 65536 then 0 else total;
    var f, t := BootFields(spc, rootEntries, fatSize, t16), Bytes32(t32);
    assert h[11..24] == f && h[32..36] == t;
    FieldBytes(spc, rootEntries, fatSize, t16);
    assert forall k :: 0 <= k < 13 ==> s[11 + k] == f[k];
    assert s[32] == t[0] && s[33] == t[1] && s[34] == t[2] && s[35] == t[3];
  }

  lemma FieldBytes(spc: nat, rootEntries: nat, fatSize: nat, t16: nat)
    ensures var f := BootFields(spc, rootEntries, fatSize, t16);
            && f[0] == Lo(512) && f[1] == Hi(512) && f[2] == Lo(spc) && f[3] == Lo(1) && f[4] == Hi(1) && f[5] == 2
            && f[6] == Lo(rootEntries) && f[7] == Hi(rootEntries) && f[8] == Lo(t16) && f[9] == Hi(t16)
            && f[11] == Lo(fatSize) && f[12] == Hi(fatSize)
  {
  }

  lemma Joined16(v: nat)
    requires v < 65536
    ensures Lo(v) as int + 256 * Hi(v) as int == v
  {
  }

  lemma HeadFields(spc: nat, rootEntries: nat, fatSize: nat, total: nat, s: Sector)
    requires spc < 256 && rootEntries < 65536 && fatSize < 65536 && total < WORD32
    requires s[..36] == BootHead(spc, rootEntries, fatSize, total)
    ensures BpbOf(s) == if total < 65536 then Bpb(512, spc, 1, 2, rootEntries, total, fatSize, 0)
                        else Bpb(512, spc, 1, 2, rootEntries, 0, fatSize, total)
  {
    hide BootHead, Lo, Hi;
    HeadBytes(spc, rootEntries, fatSize, total, s);
    var t16, t32 := if total < 65536 then total else 0, if total < 65536 then 0 else total;
    Joined16(512);
    Joined16(1);
    Joined16(rootEntries);
    Joined16(fatSize);
    Joined16(t16);
    Joined16(t32 % 65536);
    Joined16(t32 / 65536);
    assert Lo(spc) as int == spc by { LowByte(spc); }
  }

  lemma LowByte(v: nat)
    requires v < 256
    ensures Lo(v) as int == v
  {
  }

  /** The boot sector that formatting writes mounts with the geometry that formatting computed. */
  lemma FormatMounts(n: nat, volLabel: seq<Byte>, typeText: seq<Byte>)
    requires 64 <= n <= MAX_SECTORS && |volLabel| == 11 && |typeText| == 8
    ensures 0 <= FinalClusters(n)
    ensures var s := BootSector(n, volLabel, typeText);
            IsValidBpb(s) && MountedGeometry(BpbOf(s), 0) == Planned(n)
  {
    hide FatSectors, ApproxClusters, BootHead, BpbOf;
    var s := BootSector(n, volLabel, typeText);
    PlanSound(n);
    FatSectorsBounds(n);
    assert s[..36] == BootHead(SectorsPerCluster(n), RootEntries(n), FatSectors(n), n);
    HeadFields(SectorsPerCluster(n), RootEntries(n), FatSectors(n), n, s);
  }
}
