/** The Internet checksum and the packets that carry it (kernel/net.c:123-140, 322-351, 594-608, 686-722). */
module NetChecksum {
  import opened Bytes
  import opened Common

  const MAX16: nat := 65535
  /** The longest data whose 32-bit sum cannot wrap: 65537 words of at most 65535. */
  const MAX_SUMMED: nat := 131074

  // ---------------------------------------------------------------- the sum and its fold

  /** A big-endian 16-bit field. */
  function Word(p: seq<Byte>, at: nat): (w: nat)
    requires at + 2 <= |p|
    ensures w <= MAX16
  {
    p[at] as int * 256 + p[at + 1]
  }

  /** The big-endian 16-bit words of the data, added up; a last odd byte is a high byte. */
  ghost function Sum(p: seq<Byte>): nat
  {
    if |p| == 0 then 0
    else if |p| == 1 then p[0] as int * 256
    else Word(p, 0) + Sum(p[2..])
  }

  /** One's complement reduction to 16 bits. */
  ghost function Fold(s: nat): nat
  {
    if s <= MAX16 then s else Fold(s % 65536 + s / 65536)
  }

  ghost function Checksum(p: seq<Byte>): nat
  {
    MAX16 - Fold(Sum(p)) % 65536
  }

  lemma FoldStep(s: nat)
    ensures (s % 65536 + s / 65536) % MAX16 == s % MAX16
    ensures MAX16 < s ==> 0 < s % 65536 + s / 65536 < s
  {
    var h := s / 65536;
    assert s == (s % 65536 + h) + MAX16 * h;
    ModPlus(s % 65536 + h, h);
  }

  lemma ModPlus(x: nat, k: nat)
    ensures (x + MAX16 * k) % MAX16 == x % MAX16
  {
  }

  /** Folding keeps the residue modulo 65535 and maps only zero to zero. */
  lemma {:induction false} FoldMeans(s: nat)
    ensures Fold(s) <= MAX16 && Fold(s) % MAX16 == s % MAX16 && (Fold(s) == 0 <==> s == 0)
  {
    if MAX16 < s {
      FoldStep(s);
      FoldMeans(s % 65536 + s / 65536);
    }
  }

  lemma {:induction false} SumBound(p: seq<Byte>)
    ensures Sum(p) <= (|p| + 1) / 2 * MAX16
  {
    if 2 <= |p| { SumBound(p[2..]); }
  }

  /** The sum of a prefix, an even number of bytes long, grows word by word. */
  lemma {:induction false} SumSplit(p: seq<Byte>, k: nat)
    requires k <= |p| && k % 2 == 0
    ensures Sum(p) == Sum(p[..k]) + Sum(p[k..])
  {
    if k == 0 {
      assert p[..0] == [] && p[0..] == p;
    } else {
      SumSplit(p[2..], k - 2);
      assert p[..k][2..] == p[2..][..k - 2] && p[k..] == p[2..][k - 2..];
    }
  }

  lemma SumNext(p: seq<Byte>, k: nat)
    requires k % 2 == 0 && k + 2 <= |p|
    ensures Sum(p[..k + 2]) == Sum(p[..k]) + Word(p, k)
  {
    var q := p[..k + 2];
    SumSplit(q, k);
    assert q[..k] == p[..k] && q[k..] == [p[k], p[k + 1]];
    assert q[k..][2..] == [];
  }

  lemma SumLast(p: seq<Byte>, k: nat)
    requires k % 2 == 0 && k + 1 == |p|
    ensures Sum(p) == Sum(p[..k]) + p[k] as int * 256
  {
    SumSplit(p, k);
    assert p[k..] == [p[k]];
  }

  /** net_checksum, with the 32-bit accumulator's wrap written out. */
  method Compute(data: seq<Byte>) returns (c: nat)
    ensures c <= MAX16
    ensures |data| <= MAX_SUMMED ==> c == Checksum(data)
  {
    hide Sum, Fold;
    var sum: nat, at: nat := 0, 0;
    assert Sum(data[..0]) == 0 by { SumBound(data[..0]); }
    while |data| - at > 1
      invariant at <= |data| && at % 2 == 0 && sum < WORD32
      invariant |data| <= MAX_SUMMED ==> sum == Sum(data[..at])
    {
      var word := Word(data, at);
      SumNext(data, at);
      SumBound(data[..at + 2]);
      sum := (sum + word) % WORD32;
      at := at + 2;
    }
    if |data| - at == 1 {
      SumLast(data, at);
      SumBound(data);
      sum := (sum + data[at] as int * 256) % WORD32;
    } else {
      assert data[..at] == data;
    }
    ghost var total := sum;
    while sum / 65536 != 0
      invariant Fold(sum) == Fold(total)
      decreases sum
    {
      FoldUnfold(sum);
      FoldStep(sum);
      sum := sum % 65536 + sum / 65536;
    }
    FoldUnfold(sum);
    c := MAX16 - sum;
  }

  lemma FoldUnfold(s: nat)
    ensures Fold(s) == if s <= MAX16 then s else Fold(s % 65536 + s / 65536)
  {
  }

  // ---------------------------------------------------------------- verification

  /** Data verifies exactly when its words add up to a positive multiple of 65535. */
  lemma VerifiesWhen(p: seq<Byte>)
    ensures Checksum(p) == 0 <==> Sum(p) % MAX16 == 0 && 0 < Sum(p)
  {
    hide Sum, Fold;
    FoldMeans(Sum(p));
  }

  /** htons and a 16-bit store. */
  function WithWord(p: seq<Byte>, at: nat, w: nat): (q: seq<Byte>)
    requires at + 2 <= |p| && w <= MAX16
    ensures |q| == |p| && Word(q, at) == w
    ensures forall i :: 0 <= i < |p| && i != at && i != at + 1 ==> q[i] == p[i]
  {
    p[at := w / 256][at + 1 := w % 256]
  }

  lemma SumWithWord(p: seq<Byte>, at: nat, w: nat)
    requires at % 2 == 0 && at + 2 <= |p| && w <= MAX16
    ensures Sum(WithWord(p, at, w)) == Sum(p) - Word(p, at) + w && Word(p, at) <= Sum(p)
  {
    hide Sum;
    var q := WithWord(p, at, w);
    SumSplit(p, at + 2);
    SumSplit(q, at + 2);
    SumNext(p, at);
    SumNext(q, at);
    assert p[..at] == q[..at] && p[at + 2..] == q[at + 2..];
  }

  /** Storing the checksum of the data in its zeroed field makes the whole verify. */
  lemma StoredVerifies(p: seq<Byte>, at: nat)
    requires at % 2 == 0 && at + 2 <= |p| && Word(p, at) == 0
    ensures Checksum(WithWord(p, at, Checksum(p))) == 0
  {
    hide Sum, Fold;
    var s, c := Sum(p), Checksum(p);
    FoldMeans(s);
    SumWithWord(p, at, c);
    VerifiesWhen(WithWord(p, at, c));
    CancelMod(s, Fold(s));
  }

  lemma CancelMod(s: nat, f: nat)
    requires f <= MAX16 && f % MAX16 == s % MAX16
    ensures (s + (MAX16 - f)) % MAX16 == 0
  {
    var a, b := s / MAX16, f / MAX16;
    assert s + (MAX16 - f) == 0 + MAX16 * (a - b + 1);
    ModPlus(0, a - b + 1);
  }

  /** Changing one aligned word of data that verifies goes unnoticed only when 0 and 0xFFFF are exchanged. */
  lemma WordChangeSeen(p: seq<Byte>, at: nat, w: nat)
    requires at % 2 == 0 && at + 2 <= |p| && w <= MAX16 && Checksum(p) == 0
    ensures var v := Word(p, at); var q := WithWord(p, at, w);
            Checksum(q) == 0 <==> v == w || (v == 0 && w == MAX16) || (v == MAX16 && w == 0 && MAX16 < Sum(p))
  {
    hide Sum, Fold;
    var v, q := Word(p, at), WithWord(p, at, w);
    SumWithWord(p, at, w);
    VerifiesWhen(p);
    VerifiesWhen(q);
    DiffMod(Sum(p), Sum(q), v, w);
  }

  lemma DiffMod(s: nat, t: nat, v: nat, w: nat)
    requires s % MAX16 == 0 && t == s - v + w && v <= MAX16 && w <= MAX16
    ensures t % MAX16 == 0 <==> v == w || (v == 0 && w == MAX16) || (v == MAX16 && w == 0)
  {
    var a := s / MAX16;
    assert s == MAX16 * a;
    var b := t / MAX16;
    assert t == MAX16 * b + t % MAX16;
    if t % MAX16 == 0 {
      assert w - v == MAX16 * (b - a);
    }
  }
}
