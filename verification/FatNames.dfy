/** 8.3 names: conversion to the 11 directory bytes and back (kernel/fat.c:423-464). */
module FatNames {
  import opened Bytes

  const SPACE: Byte := 0x20
  const SLASH: Byte := 0x2F
  const DOT: Byte := 0x2E

  /** The bytes of a C string before its terminator. */
  type CString = s: seq<Byte> | forall i :: 0 <= i < |s| ==> s[i] != 0

  datatype NameResult = BadName | Name(bytes: seq<Byte>)

  function UpperByte(c: Byte): Byte { if 0x61 <= c <= 0x7A then c - 0x20 else c }

  function Upper(s: seq<Byte>): (u: seq<Byte>)
    ensures |u| == |s|
  {
    seq(|s|, i requires 0 <= i < |s| => UpperByte(s[i]))
  }

  predicate Plain(s: seq<Byte>) { forall i :: 0 <= i < |s| ==> s[i] != SPACE && s[i] != SLASH }

  function SkipLead(s: CString): CString
  {
    if s != [] && (s[0] == SLASH || s[0] == SPACE) then SkipLead(s[1..]) else s
  }

  /** Index of the first dot, or the length when there is none. */
  function DotAt(s: seq<Byte>): (d: nat)
    ensures d <= |s| && (d < |s| ==> s[d] == DOT) && forall i :: 0 <= i < d ==> s[i] != DOT
  {
    if s == [] || s[0] == DOT then 0 else 1 + DotAt(s[1..])
  }

  function Take(s: seq<Byte>, n: nat): seq<Byte> { if |s| <= n then s else s[..n] }

  function StemOf(s: seq<Byte>): seq<Byte> { Take(s[..DotAt(s)], 8) }

  function ExtensionOf(s: seq<Byte>): seq<Byte> { if DotAt(s) < |s| then Take(s[DotAt(s) + 1..], 3) else [] }

  function Pad(s: seq<Byte>, n: nat): (p: seq<Byte>)
    requires |s| <= n
    ensures |p| == n
  {
    s + seq(n - |s|, i => SPACE)
  }

  /** The 11 bytes that a file name stands for, or an error. */
  function FatName(name: CString): (r: NameResult)
    ensures r.Name? ==> |r.bytes| == 11
  {
    var s := SkipLead(name);
    var stem, ext := StemOf(s), ExtensionOf(s);
    if stem == [] || !Plain(stem) || !Plain(ext) then BadName
    else Name(Pad(Upper(stem), 8) + Pad(Upper(ext), 3))
  }

  predicate StemByte(c: Byte) { c != 0 && c != SPACE && c != SLASH && c != DOT && !(0x61 <= c <= 0x7A) }

  predicate ExtensionByte(c: Byte) { c != 0 && c != SPACE && c != SLASH && !(0x61 <= c <= 0x7A) }

  predicate IsStem(m: seq<Byte>) { 1 <= |m| <= 8 && forall i :: 0 <= i < |m| ==> StemByte(m[i]) }

  predicate IsExtension(e: seq<Byte>) { |e| <= 3 && forall i :: 0 <= i < |e| ==> ExtensionByte(e[i]) }

  /** What a directory entry's name field may hold: an upper-case stem and extension, each padded with spaces. */
  ghost predicate ValidName(n: seq<Byte>)
  {
    exists m, e :: IsStem(m) && IsExtension(e) && n == Pad(m, 8) + Pad(e, 3)
  }

  function NonSpace(s: seq<Byte>): seq<Byte>
  {
    if s == [] then [] else NonSpace(s[..|s| - 1]) + if s[|s| - 1] != SPACE then [s[|s| - 1]] else []
  }

  /** The printed form of a directory name. */
  function NameText(n: seq<Byte>): seq<Byte>
    requires |n| == 11
  {
    NonSpace(n[..8]) + if n[8] != SPACE then [DOT] + NonSpace(n[8..]) else []
  }

  lemma FatNameValid(name: CString)
    requires FatName(name).Name?
    ensures ValidName(FatName(name).bytes) && FatName(name).bytes[0] != 0
  {
    var s := SkipLead(name);
    var m, e := Upper(StemOf(s)), Upper(ExtensionOf(s));
    assert IsStem(m) && IsExtension(e);
  }

  lemma {:induction false} NonSpacePad(m: seq<Byte>, n: nat)
    requires |m| <= n && forall i :: 0 <= i < |m| ==> m[i] != SPACE
    ensures NonSpace(Pad(m, n)) == m
  {
    var p := Pad(m, n);
    if |m| < n {
      assert p[..n - 1] == Pad(m, n - 1);
      NonSpacePad(m, n - 1);
    } else {
      assert p == m;
      NonSpaceAll(m);
    }
  }

  lemma {:induction false} NonSpaceAll(m: seq<Byte>)
    requires forall i :: 0 <= i < |m| ==> m[i] != SPACE
    ensures NonSpace(m) == m
  {
    if m != [] { NonSpaceAll(m[..|m| - 1]); }
  }

  lemma {:induction false} DotAtStem(m: seq<Byte>, rest: seq<Byte>)
    requires forall i :: 0 <= i < |m| ==> m[i] != DOT
    requires rest == [] || rest[0] == DOT
    ensures DotAt(m + rest) == |m|
  {
    if m == [] {
      assert m + rest == rest;
    } else {
      assert (m + rest)[1..] == m[1..] + rest;
      DotAtStem(m[1..], rest);
    }
  }

  lemma TextOfPadded(m: seq<Byte>, e: seq<Byte>)
    requires IsStem(m) && IsExtension(e)
    ensures NameText(Pad(m, 8) + Pad(e, 3)) == Joined(m, e)
  {
    var n := Pad(m, 8) + Pad(e, 3);
    assert n[..8] == Pad(m, 8) && n[8..] == Pad(e, 3);
    NonSpacePad(m, 8);
    NonSpacePad(e, 3);
  }

  function Joined(m: seq<Byte>, e: seq<Byte>): seq<Byte> { m + if e == [] then [] else [DOT] + e }

  lemma JoinedSplits(m: seq<Byte>, e: seq<Byte>)
    requires IsStem(m) && IsExtension(e)
    ensures StemOf(Joined(m, e)) == m && ExtensionOf(Joined(m, e)) == e
  {
    var s, rest := Joined(m, e), if e == [] then [] else [DOT] + e;
    DotAtStem(m, rest);
    assert s[..|m|] == m;
    if e != [] { assert s[|m| + 1..] == e; }
  }

  lemma JoinedParses(m: seq<Byte>, e: seq<Byte>)
    requires IsStem(m) && IsExtension(e)
    ensures forall i :: 0 <= i < |Joined(m, e)| ==> Joined(m, e)[i] != 0
    ensures FatName(Joined(m, e)) == Name(Pad(m, 8) + Pad(e, 3))
  {
    JoinedSplits(m, e);
    assert SkipLead(Joined(m, e)) == Joined(m, e) by { assert Joined(m, e)[0] == m[0]; }
    assert Upper(m) == m && Upper(e) == e;
  }

  /** Every listed name converts back to the 11 bytes it was printed from. */
  lemma NameRoundTrip(n: seq<Byte>)
    requires ValidName(n)
    ensures |n| == 11
    ensures forall i :: 0 <= i < |NameText(n)| ==> NameText(n)[i] != 0
    ensures FatName(NameText(n)) == Name(n)
  {
    var m, e :| IsStem(m) && IsExtension(e) && n == Pad(m, 8) + Pad(e, 3);
    TextOfPadded(m, e);
    JoinedParses(m, e);
  }

  /** The same byte, or the two cases of a letter. */
  predicate SameLetter(a: Byte, b: Byte)
  {
    a == b || (0x41 <= a <= 0x5A && b == a as int + 0x20) || (0x41 <= b <= 0x5A && a == b as int + 0x20)
  }

  /** Names that strcasecmp calls equal. */
  predicate SameIgnoringCase(a: seq<Byte>, b: seq<Byte>)
  {
    |a| == |b| && forall i :: 0 <= i < |a| ==> SameLetter(a[i], b[i])
  }

  /** Two bytes have the same upper-case form exactly when they are the same but for case, and that form is one of the
      two and no lower-case letter. */
  lemma UpperByteMeans(a: Byte, b: Byte)
    ensures UpperByte(a) == UpperByte(b) <==> SameLetter(a, b)
    ensures SameLetter(a, UpperByte(a)) && !(0x61 <= UpperByte(a) <= 0x7A)
  {
  }

  lemma UpperMeans(a: seq<Byte>, b: seq<Byte>)
    ensures SameIgnoringCase(a, b) <==> Upper(a) == Upper(b)
  {
    if |a| == |b| {
      forall i | 0 <= i < |a| ensures Upper(a)[i] == Upper(b)[i] <==> SameLetter(a[i], b[i]) {
        UpperByteMeans(a[i], b[i]);
      }
      assert (forall i :: 0 <= i < |a| ==> Upper(a)[i] == Upper(b)[i]) <==> Upper(a) == Upper(b);
    } else {
      assert |Upper(a)| != |Upper(b)|;
    }
  }

  lemma {:induction false} SkipLeadIgnoresCase(a: CString, b: CString)
    requires SameIgnoringCase(a, b)
    ensures SameIgnoringCase(SkipLead(a), SkipLead(b))
  {
    if a != [] {
      assert SameLetter(a[0], b[0]);
      if a[0] == SLASH || a[0] == SPACE { SkipLeadIgnoresCase(a[1..], b[1..]); }
    }
  }

  lemma PlainIgnoresCase(a: seq<Byte>, b: seq<Byte>)
    requires SameIgnoringCase(a, b) && Plain(a)
    ensures Plain(b)
  {
    forall i | 0 <= i < |b| ensures b[i] != SPACE && b[i] != SLASH {
      assert SameLetter(a[i], b[i]);
    }
  }

  lemma PartsIgnoreCase(a: seq<Byte>, b: seq<Byte>)
    requires SameIgnoringCase(a, b)
    ensures SameIgnoringCase(StemOf(a), StemOf(b)) && SameIgnoringCase(ExtensionOf(a), ExtensionOf(b))
  {
    assert forall i :: 0 <= i < |a| ==> (a[i] == DOT <==> b[i] == DOT);
    assert DotAt(a) == DotAt(b);
  }

  /** Such names stand for the same directory entry, or for none. */
  lemma FatNameIgnoresCase(a: CString, b: CString)
    requires SameIgnoringCase(a, b)
    ensures FatName(a) == FatName(b)
  {
    SkipLeadIgnoresCase(a, b);
    var p, q := SkipLead(a), SkipLead(b);
    PartsIgnoreCase(p, q);
    if Plain(StemOf(p)) { PlainIgnoresCase(StemOf(p), StemOf(q)); }
    if Plain(StemOf(q)) { PlainIgnoresCase(StemOf(q), StemOf(p)); }
    if Plain(ExtensionOf(p)) { PlainIgnoresCase(ExtensionOf(p), ExtensionOf(q)); }
    if Plain(ExtensionOf(q)) { PlainIgnoresCase(ExtensionOf(q), ExtensionOf(p)); }
    UpperMeans(StemOf(p), StemOf(q));
    UpperMeans(ExtensionOf(p), ExtensionOf(q));
  }

  /** A stem and an extension joined by a dot stand for the two padded with spaces, in whatever case they are
      written. */
  lemma AnyCaseParses(m: seq<Byte>, e: seq<Byte>, s: CString)
    requires IsStem(m) && IsExtension(e) && |s| == |Joined(m, e)|
    requires forall i :: 0 <= i < |s| ==>
               s[i] == Joined(m, e)[i] || (0x41 <= Joined(m, e)[i] <= 0x5A && s[i] == Joined(m, e)[i] as int + 0x20)
    ensures FatName(s) == Name(Pad(m, 8) + Pad(e, 3))
  {
    hide FatName, IsStem, IsExtension, Joined;
    JoinedParses(m, e);
    FatNameIgnoresCase(Joined(m, e), s);
  }

  /** The stem loop of filename_to_fat. */
  method CopyStem(s: CString) returns (ok: bool, i: nat, fat: seq<Byte>)
    ensures ok == Plain(StemOf(s))
    ensures ok ==> i == |StemOf(s)| && fat == Pad(Upper(StemOf(s)), 8) + Pad([], 3)
  {
    fat := seq(11, k => SPACE);
    i := 0;
    ghost var d := DotAt(s);
    while i < |s| && s[i] != DOT && i < 8
      invariant i <= d && i <= 8 && |fat| == 11 && Plain(s[..i])
      invariant forall k :: 0 <= k < 11 ==> fat[k] == if k < i then UpperByte(s[k]) else SPACE
    {
      var c := s[i];
      if c == SPACE || c == SLASH {
        assert StemOf(s)[i] == c;
        return false, i, fat;
      }
      fat := fat[i := UpperByte(c)];
      i := i + 1;
    }
    ok := true;
    assert StemOf(s) == s[..i];
  }

  /** The extension loop of filename_to_fat. */
  method CopyExtension(s: CString, d: nat, stem: seq<Byte>) returns (ok: bool, fat: seq<Byte>)
    requires d == DotAt(s) && d < |s| && |stem| == 8
    ensures ok == Plain(ExtensionOf(s))
    ensures ok ==> fat == stem + Pad(Upper(ExtensionOf(s)), 3)
  {
    fat := stem + Pad([], 3);
    var i, j := d + 1, 8;
    while i < |s| && j < 11
      invariant i <= |s| && j <= 11 && i - d - 1 == j - 8 && |fat| == 11 && Plain(s[d + 1..i])
      invariant forall k :: 0 <= k < 11 ==>
        fat[k] == if k < 8 then stem[k] else if k < j then UpperByte(s[d + 1 + k - 8]) else SPACE
    {
      var c := s[i];
      if c == SPACE || c == SLASH {
        assert ExtensionOf(s)[i - d - 1] == c;
        return false, fat;
      }
      fat := fat[j := UpperByte(c)];
      assert s[d + 1..i + 1] == s[d + 1..i] + [c];
      i, j := i + 1, j + 1;
    }
    ok := true;
    assert ExtensionOf(s) == s[d + 1..i];
  }

  /** filename_to_fat. */
  method FilenameToFat(name: CString) returns (r: NameResult)
    ensures r == FatName(name)
  {
    var s := name;
    while s != [] && (s[0] == SLASH || s[0] == SPACE)
      invariant SkipLead(s) == SkipLead(name)
    {
      s := s[1..];
    }
    if s == [] { return BadName; }
    var ok, i, fat := CopyStem(s);
    if !ok { return BadName; }
    while i < |s| && s[i] != DOT
      invariant i <= DotAt(s)
    {
      i := i + 1;
    }
    if i < |s| {
      ok, fat := CopyExtension(s, i, fat[..8]);
      if !ok { return BadName; }
    }
    if fat[0] == SPACE { return BadName; }
    r := Name(fat);
  }

  /** fat_name_to_str. */
  method FatNameToStr(n: seq<Byte>) returns (out: seq<Byte>)
    requires |n| == 11
    ensures out == NameText(n)
  {
    out := [];
    for k := 0 to 8
      invariant out == NonSpace(n[..k])
    {
      assert n[..k + 1][..k] == n[..k];
      if n[k] != SPACE { out := out + [n[k]]; }
    }
    if n[8] != SPACE {
      ghost var stem := out;
      out := out + [DOT];
      for k := 0 to 3
        invariant out == stem + [DOT] + NonSpace(n[8..8 + k])
      {
        assert n[8..8 + k + 1][..k] == n[8..8 + k];
        if n[8 + k] != SPACE { out := out + [n[8 + k]]; }
      }
      assert n[8..11] == n[8..];
    }
  }
}
