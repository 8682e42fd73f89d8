/** Bytes, 512-byte sectors and little-endian fields, as kernel/fat.c lays them out on disk. */
module Bytes {

  type Byte = x: int | 0 <= x < 256

  type Sector = s: seq<Byte> | |s| == 512 witness seq(512, i => 0)

  function Lo(v: nat): Byte { v % 256 }

  function Hi(v: nat): Byte { v / 256 % 256 }

  function Le16(b: seq<Byte>, o: nat): nat
    requires o + 2 <= |b|
  {
    b[o] as int + 256 * b[o + 1] as int
  }

  function Le32(b: seq<Byte>, o: nat): nat
    requires o + 4 <= |b|
  {
    Le16(b, o) + 65536 * Le16(b, o + 2)
  }

  function Bytes16(v: nat): (b: seq<Byte>)
    ensures |b| == 2
  {
    [Lo(v), Hi(v)]
  }

  function Bytes32(v: nat): (b: seq<Byte>)
    ensures |b| == 4
  {
    Bytes16(v % 65536) + Bytes16(v / 65536)
  }

  lemma Le16Bytes16(v: nat)
    requires v < 65536
    ensures Le16(Bytes16(v), 0) == v
  {
  }

  function Zeros(n: nat): (z: seq<Byte>)
    ensures |z| == n && forall i :: 0 <= i < n ==> z[i] == 0
  {
    seq(n, i => 0)
  }

  /** The bytes are those of the text. */
  predicate Spells(b: seq<Byte>, t: string) { |b| == |t| && forall i :: 0 <= i < |t| ==> b[i] == t[i] as int }

  function ZeroSector(): Sector { Zeros(512) }

  /** The bytes of consecutive sectors. */
  function Flatten(ss: seq<Sector>): (b: seq<Byte>)
    ensures |b| == 512 * |ss|
  {
    if ss == [] then [] else Flatten(ss[..|ss| - 1]) + ss[|ss| - 1]
  }
}
