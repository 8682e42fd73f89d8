/** The kernel heap: a first-fit allocator over an address-ordered, doubly linked list of blocks (kernel/heap.c). */
module Heap {
  import opened Common

  const HEADER: nat := 24
  const MIN_BLOCK: nat := 16
  const CHUNK: nat := 0x10_0000

  /** A block header; next and prev are addresses, 0 standing for NULL. */
  datatype Block = Block(size: nat, isFree: bool, next: nat, prev: nat)

  /** The headers in memory, by address.  Merged-away headers stay behind, as they do in the source. */
  type Memory = map<nat, Block>

  function SizeAt(mem: Memory, a: nat): nat { if a in mem then mem[a].size else 0 }

  predicate FreeAt(mem: Memory, a: nat) { a in mem && mem[a].isFree }

  /** The allocated blocks and their sizes: what the callers own. */
  ghost function Live(mem: Memory): map<nat, nat>
  {
    map a | a in mem && !mem[a].isFree :: mem[a].size
  }

  // ---------------------------------------------------------------- the list

  function NextOf(blocks: seq<nat>, i: nat): nat { if i + 1 < |blocks| then blocks[i + 1] else 0 }

  function PrevOf(blocks: seq<nat>, i: nat): nat { if 0 < i <= |blocks| then blocks[i - 1] else 0 }

  /** Where block i must end: at the next block, or at the end of the heap. */
  function EndOf(blocks: seq<nat>, end: nat, i: nat): nat { if i + 1 < |blocks| then blocks[i + 1] else end }

  /** Block i is linked to its neighbours and ends exactly where the next one, or the heap's end, begins. */
  ghost predicate Placed(mem: Memory, blocks: seq<nat>, end: nat, i: nat)
    requires i < |blocks|
  {
    && blocks[i] in mem && 0 < blocks[i]
    && mem[blocks[i]].next == NextOf(blocks, i) && mem[blocks[i]].prev == PrevOf(blocks, i)
    && blocks[i] + HEADER + mem[blocks[i]].size == EndOf(blocks, end, i)
  }

  /** The list tiles [base, end) in address order, and every allocated header is on it. */
  ghost predicate Tiled(mem: Memory, blocks: seq<nat>, base: nat, end: nat)
  {
    && |blocks| >= 1 && blocks[0] == base
    && (forall i: nat :: i < |blocks| ==> Placed(mem, blocks, end, i))
    && (forall a :: a in mem && !mem[a].isFree ==> a in blocks)
  }

  /** No two neighbouring blocks are both free, the pairs that involve block `except` aside. */
  ghost predicate Coalesced(mem: Memory, blocks: seq<nat>, except: int)
  {
    forall i :: 0 <= i < |blocks| - 1 && i != except && i + 1 != except ==>
      !(FreeAt(mem, blocks[i]) && FreeAt(mem, blocks[i + 1]))
  }

  /** Later blocks lie after the whole of earlier ones. */
  lemma {:induction false} Apart(mem: Memory, blocks: seq<nat>, base: nat, end: nat, i: nat, j: nat)
    requires Tiled(mem, blocks, base, end) && i < j < |blocks|
    ensures blocks[i] + HEADER + SizeAt(mem, blocks[i]) <= blocks[j]
    decreases j
  {
    assert Placed(mem, blocks, end, i) && Placed(mem, blocks, end, j - 1);
    if i + 1 < j { Apart(mem, blocks, base, end, i, j - 1); }
  }

  /** Every block lies inside the heap. */
  lemma Inside(mem: Memory, blocks: seq<nat>, base: nat, end: nat, i: nat)
    requires Tiled(mem, blocks, base, end) && i < |blocks|
    ensures base <= blocks[i] && blocks[i] + HEADER + SizeAt(mem, blocks[i]) <= end
  {
    var n := |blocks| - 1;
    assert Placed(mem, blocks, end, n) && Placed(mem, blocks, end, i);
    if i < n { Apart(mem, blocks, base, end, i, n); }
    if 0 < i { Apart(mem, blocks, base, end, 0, i); }
  }

  lemma Distinct(mem: Memory, blocks: seq<nat>, base: nat, end: nat)
    requires Tiled(mem, blocks, base, end)
    ensures forall i, j :: 0 <= i < j < |blocks| ==> blocks[i] < blocks[j]
  {
    forall i, j | 0 <= i < j < |blocks| ensures blocks[i] < blocks[j] {
      Apart(mem, blocks, base, end, i, j);
    }
  }

  /** Live payloads are pairwise disjoint and lie inside the heap. */
  lemma LivePayloadsDisjoint(mem: Memory, blocks: seq<nat>, base: nat, end: nat, a: nat, b: nat)
    requires Tiled(mem, blocks, base, end) && a in Live(mem) && b in Live(mem) && a != b
    ensures base <= a && a + HEADER + Live(mem)[a] <= end
    ensures a + HEADER + Live(mem)[a] <= b || b + HEADER + Live(mem)[b] <= a
  {
    var i :| 0 <= i < |blocks| && blocks[i] == a;
    var j :| 0 <= j < |blocks| && blocks[j] == b;
    Inside(mem, blocks, base, end, i);
    if i < j { Apart(mem, blocks, base, end, i, j); } else { Apart(mem, blocks, base, end, j, i); }
  }

  // ---------------------------------------------------------------- splitting and merging

  /** The header at a, with its prev pointer redirected when a is a real address. */
  function WithPrev(mem: Memory, a: nat, p: nat): Memory
  {
    if a != 0 && a in mem then mem[a := mem[a].(prev := p)] else mem
  }

  /** What split_block does once the block is large enough. */
  function SplitMem(mem: Memory, b: nat, size: nat): Memory
    requires b in mem && size + HEADER <= mem[b].size
  {
    var added, blk := b + HEADER + size, mem[b];
    var m := mem[added := Block(blk.size - size - HEADER, true, blk.next, b)];
    WithPrev(m, blk.next, added)[b := blk.(next := added, size := size)]
  }

  lemma SplitOthers(mem: Memory, b: nat, size: nat, a: nat)
    requires b in mem && size + HEADER <= mem[b].size
    requires a in mem && a != b && a != b + HEADER + size
    ensures a in SplitMem(mem, b, size)
    ensures SplitMem(mem, b, size)[a] ==
            if a == mem[b].next && a != 0 then mem[a].(prev := b + HEADER + size) else mem[a]
  {
  }

  lemma SplitSelf(mem: Memory, b: nat, size: nat)
    requires b in mem && size + HEADER <= mem[b].size && mem[b].next != b + HEADER + size
    ensures var added, m' := b + HEADER + size, SplitMem(mem, b, size);
            && b in m' && m'[b] == mem[b].(next := added, size := size)
            && added in m' && m'[added] == Block(mem[b].size - size - HEADER, true, mem[b].next, b)
            && forall a :: a in m' ==> a in mem || a == added
  {
  }

  lemma SplitInSteps(mem: Memory, b: nat, size: nat, m': Memory)
    requires b in mem && size + HEADER <= mem[b].size && (mem[b].next != 0 ==> mem[b].next in mem)
    requires mem[b].next != b && mem[b].next != b + HEADER + size
    requires var added, blk := b + HEADER + size, mem[b];
             var m1 := mem[added := Block(blk.size - size - HEADER, true, blk.next, b)];
             var m2 := if blk.next != 0 then m1[blk.next := m1[blk.next].(prev := added)] else m1;
             m' == m2[b := m2[b].(next := added, size := size)]
    ensures m' == SplitMem(mem, b, size)
  {
  }

  /** Splitting block i puts a new free block right after it. */
  lemma SplitTiled(mem: Memory, blocks: seq<nat>, base: nat, end: nat, i: nat, size: nat)
    requires Tiled(mem, blocks, base, end) && i < |blocks|
    requires blocks[i] in mem && size + HEADER <= mem[blocks[i]].size
    ensures var added := blocks[i] + HEADER + size;
            Tiled(SplitMem(mem, blocks[i], size), Inserted(blocks, i + 1, added), base, end)
  {
    hide SplitMem;
    var b, added := blocks[i], blocks[i] + HEADER + size;
    var m', bs := SplitMem(mem, b, size), Inserted(blocks, i + 1, added);
    forall k: nat | k < |bs| ensures Placed(m', bs, end, k) {
      SplitPlaced(mem, blocks, base, end, i, size, k);
    }
    SplitListed(mem, blocks, base, end, i, size);
  }

  lemma SplitPlaced(mem: Memory, blocks: seq<nat>, base: nat, end: nat, i: nat, size: nat, k: nat)
    requires Tiled(mem, blocks, base, end) && i < |blocks| && k <= |blocks|
    requires blocks[i] in mem && size + HEADER <= mem[blocks[i]].size
    ensures Placed(SplitMem(mem, blocks[i], size), Inserted(blocks, i + 1, blocks[i] + HEADER + size), end, k)
  {
    hide SplitMem, Tiled;
    var b := blocks[i];
    PlacedAt(mem, blocks, base, end, i);
    if i + 1 < |blocks| { PlacedAt(mem, blocks, base, end, i + 1); }
    SplitSelf(mem, b, size);
    if k < i {
      PlacedAt(mem, blocks, base, end, k);
      Apart(mem, blocks, base, end, k, i);
      SplitOthers(mem, b, size, blocks[k]);
    } else if k > i + 1 {
      PlacedAt(mem, blocks, base, end, k - 1);
      Apart(mem, blocks, base, end, i, k - 1);
      if i + 1 < k - 1 { Apart(mem, blocks, base, end, i + 1, k - 1); }
      SplitOthers(mem, b, size, blocks[k - 1]);
    }
  }

  lemma PlacedAt(mem: Memory, blocks: seq<nat>, base: nat, end: nat, i: nat)
    requires Tiled(mem, blocks, base, end) && i < |blocks|
    ensures Placed(mem, blocks, end, i)
  {
  }

  lemma SplitListed(mem: Memory, blocks: seq<nat>, base: nat, end: nat, i: nat, size: nat)
    requires Tiled(mem, blocks, base, end) && i < |blocks|
    requires blocks[i] in mem && size + HEADER <= mem[blocks[i]].size
    ensures var m', bs := SplitMem(mem, blocks[i], size), Inserted(blocks, i + 1, blocks[i] + HEADER + size);
            forall a :: a in m' && !m'[a].isFree ==> a in bs
  {
    hide SplitMem, Inserted;
    var b, added := blocks[i], blocks[i] + HEADER + size;
    assert Placed(mem, blocks, end, i);
    if i + 1 < |blocks| { assert Placed(mem, blocks, end, i + 1); }
    SplitSelf(mem, b, size);
    var m' := SplitMem(mem, b, size);
    forall a | a in m' && !m'[a].isFree ensures a in Inserted(blocks, i + 1, added) {
      if a != b { SplitOthers(mem, b, size, a); }
      InsertedHas(blocks, i + 1, added, a);
    }
  }

  function Inserted(blocks: seq<nat>, k: nat, a: nat): (r: seq<nat>)
    requires k <= |blocks|
    ensures |r| == |blocks| + 1 && r[k] == a
    ensures forall j :: 0 <= j < k ==> r[j] == blocks[j]
    ensures forall j :: k < j < |r| ==> r[j] == blocks[j - 1]
  {
    blocks[..k] + [a] + blocks[k..]
  }

  function Removed(blocks: seq<nat>, k: nat): (r: seq<nat>)
    requires k < |blocks|
    ensures |r| == |blocks| - 1
    ensures forall j :: 0 <= j < k ==> r[j] == blocks[j]
    ensures forall j :: k <= j < |r| ==> r[j] == blocks[j + 1]
  {
    blocks[..k] + blocks[k + 1..]
  }

  lemma InsertedHas(blocks: seq<nat>, k: nat, a: nat, x: nat)
    requires k <= |blocks| && x in blocks
    ensures x in Inserted(blocks, k, a)
  {
    var j :| 0 <= j < |blocks| && blocks[j] == x;
    assert Inserted(blocks, k, a)[if j < k then j else j + 1] == x;
  }

  lemma RemovedHas(blocks: seq<nat>, k: nat, x: nat)
    requires k < |blocks| && x in blocks && x != blocks[k]
    ensures x in Removed(blocks, k)
  {
    var j :| 0 <= j < |blocks| && blocks[j] == x;
    assert Removed(blocks, k)[if j < k then j else j - 1] == x;
  }

  /** Block a absorbs the block b that follows it: one half of coalesce. */
  function MergeMem(mem: Memory, a: nat, b: nat): Memory
    requires a in mem && b in mem
  {
    var m := mem[a := mem[a].(size := mem[a].size + HEADER + mem[b].size, next := mem[b].next)];
    WithPrev(m, mem[b].next, a)
  }

  lemma MergeOthers(mem: Memory, a: nat, b: nat, x: nat)
    requires a in mem && b in mem && x in mem && x != a && mem[b].next != a
    ensures x in MergeMem(mem, a, b)
    ensures MergeMem(mem, a, b)[x] == if x == mem[b].next && x != 0 then mem[x].(prev := a) else mem[x]
    ensures a in MergeMem(mem, a, b) &&
            MergeMem(mem, a, b)[a] == mem[a].(size := mem[a].size + HEADER + mem[b].size, next := mem[b].next)
  {
  }

  lemma MergeGrows(mem: Memory, a: nat, b: nat)
    requires a in mem && b in mem && mem[b].next != a
    ensures SizeAt(MergeMem(mem, a, b), a) == mem[a].size + HEADER + mem[b].size
  {
  }

  /** Merging block j + 1, which is free, into block j keeps the tiling. */
  lemma MergeTiled(mem: Memory, blocks: seq<nat>, base: nat, end: nat, j: nat)
    requires Tiled(mem, blocks, base, end) && j + 1 < |blocks| && FreeAt(mem, blocks[j + 1])
    ensures blocks[j] in mem && Tiled(MergeMem(mem, blocks[j], blocks[j + 1]), Removed(blocks, j + 1), base, end)
  {
    var a, b, bs := blocks[j], blocks[j + 1], Removed(blocks, j + 1);
    assert Placed(mem, blocks, end, j) && Placed(mem, blocks, end, j + 1);
    Distinct(mem, blocks, base, end);
    var m' := MergeMem(mem, a, b);
    MergeOthers(mem, a, b, b);
    forall k: nat | k < |bs| ensures Placed(m', bs, end, k) {
      if k < j {
        assert Placed(mem, blocks, end, k);
        MergeOthers(mem, a, b, blocks[k]);
      } else if k > j {
        assert Placed(mem, blocks, end, k + 1);
        MergeOthers(mem, a, b, blocks[k + 1]);
      }
    }
    forall x | x in m' && !m'[x].isFree ensures x in bs {
      if x != a { MergeOthers(mem, a, b, x); }
      RemovedHas(blocks, j + 1, x);
    }
  }

  // ---------------------------------------------------------------- statistics

  datatype Measure = UsedBytes | FreeBytes | UsedBlocks

  function Weight(mem: Memory, a: nat, what: Measure): nat
  {
    match what
    case UsedBytes => if FreeAt(mem, a) then 0 else SizeAt(mem, a)
    case FreeBytes => if FreeAt(mem, a) then SizeAt(mem, a) else 0
    case UsedBlocks => if FreeAt(mem, a) then 0 else 1
  }

  function Tally(mem: Memory, blocks: seq<nat>, what: Measure): nat
  {
    if blocks == [] then 0 else Tally(mem, blocks[..|blocks| - 1], what) + Weight(mem, blocks[|blocks| - 1], what)
  }

  lemma {:induction false} TallyConcat(mem: Memory, xs: seq<nat>, ys: seq<nat>, what: Measure)
    ensures Tally(mem, xs + ys, what) == Tally(mem, xs, what) + Tally(mem, ys, what)
  {
    if ys == [] {
      assert xs + ys == xs;
    } else {
      var n := |ys| - 1;
      assert (xs + ys)[..|xs + ys| - 1] == xs + ys[..n];
      TallyConcat(mem, xs, ys[..n], what);
    }
  }

  lemma SingleTally(mem: Memory, a: nat)
    ensures forall what :: Tally(mem, [a], what) == Weight(mem, a, what)
  {
    assert [a][..0] == [];
  }

  lemma {:induction false} TallyKept(mem: Memory, mem': Memory, xs: seq<nat>, what: Measure)
    requires forall i :: 0 <= i < |xs| ==> Weight(mem', xs[i], what) == Weight(mem, xs[i], what)
    ensures Tally(mem', xs, what) == Tally(mem, xs, what)
  {
    if xs != [] { TallyKept(mem, mem', xs[..|xs| - 1], what); }
  }

  lemma TallyInserted(mem: Memory, blocks: seq<nat>, k: nat, a: nat, what: Measure)
    requires k <= |blocks|
    ensures Tally(mem, Inserted(blocks, k, a), what) == Tally(mem, blocks, what) + Weight(mem, a, what)
  {
    var xs, ys := blocks[..k], blocks[k..];
    assert blocks == xs + ys;
    TallyConcat(mem, xs, ys, what);
    TallyConcat(mem, xs + [a], ys, what);
    TallyConcat(mem, xs, [a], what);
    assert Tally(mem, [a], what) == Weight(mem, a, what) by { assert [a][..0] == []; }
  }

  lemma TallyRemoved(mem: Memory, blocks: seq<nat>, k: nat, what: Measure)
    requires k < |blocks|
    ensures Tally(mem, blocks, what) == Tally(mem, Removed(blocks, k), what) + Weight(mem, blocks[k], what)
  {
    TallyInserted(mem, Removed(blocks, k), k, blocks[k], what);
    assert Inserted(Removed(blocks, k), k, blocks[k]) == blocks;
  }

  /** Changing the weight of one block of the list moves the tally by the difference. */
  lemma TallyChanged(mem: Memory, mem': Memory, blocks: seq<nat>, k: nat, what: Measure)
    requires k < |blocks|
    requires forall i :: 0 <= i < |blocks| && i != k ==> Weight(mem', blocks[i], what) == Weight(mem, blocks[i], what)
    ensures Tally(mem', blocks, what) ==
            Tally(mem, blocks, what) - Weight(mem, blocks[k], what) + Weight(mem', blocks[k], what)
  {
    hide Weight, Tally;
    TallyRemoved(mem, blocks, k, what);
    TallyRemoved(mem', blocks, k, what);
    TallyKept(mem, mem', Removed(blocks, k), what);
  }

  /** used + free + blocks * header = total. */
  lemma {:induction false} Accounting(mem: Memory, blocks: seq<nat>, base: nat, end: nat, k: nat)
    requires Tiled(mem, blocks, base, end) && 1 <= k <= |blocks|
    ensures Tally(mem, blocks[..k], UsedBytes) + Tally(mem, blocks[..k], FreeBytes) + k * HEADER ==
            EndOf(blocks, end, k - 1) - base
  {
    var xs := blocks[..k - 1];
    assert blocks[..k][..k - 1] == xs;
    PlacedAt(mem, blocks, base, end, k - 1);
    if k > 1 { Accounting(mem, blocks, base, end, k - 1); }
  }

  /** Once every allocation has been freed the heap is a single free block. */
  lemma AllFreeIsOneBlock(mem: Memory, blocks: seq<nat>, base: nat, end: nat)
    requires Tiled(mem, blocks, base, end) && Coalesced(mem, blocks, -1) && Live(mem) == map[]
    ensures |blocks| == 1 && FreeAt(mem, base) && SizeAt(mem, base) + HEADER == end - base
  {
    forall i | 0 <= i < |blocks| ensures FreeAt(mem, blocks[i]) {
      PlacedAt(mem, blocks, base, end, i);
      assert blocks[i] !in Live(mem);
    }
    PlacedAt(mem, blocks, base, end, 0);
  }

  // ---------------------------------------------------------------- what each change does

  /** Splitting a free block costs one header of free space and adds a block. */
  lemma SplitEffect(mem: Memory, blocks: seq<nat>, base: nat, end: nat, i: nat, size: nat)
    requires Tiled(mem, blocks, base, end) && Coalesced(mem, blocks, -1) && i < |blocks|
    requires FreeAt(mem, blocks[i]) && size + HEADER <= mem[blocks[i]].size
    ensures var m', bs := SplitMem(mem, blocks[i], size), Inserted(blocks, i + 1, blocks[i] + HEADER + size);
            && Tiled(m', bs, base, end) && Coalesced(m', bs, i) && FreeAt(m', bs[i]) && SizeAt(m', bs[i]) == size
            && Live(m') == Live(mem)
            && Tally(m', bs, UsedBytes) == Tally(mem, blocks, UsedBytes)
            && Tally(m', bs, UsedBlocks) == Tally(mem, blocks, UsedBlocks)
            && Tally(m', bs, FreeBytes) == Tally(mem, blocks, FreeBytes) - HEADER
  {
    hide Tiled, SplitMem, Tally;
    var b, added := blocks[i], blocks[i] + HEADER + size;
    var m' := SplitMem(mem, b, size);
    SplitTiled(mem, blocks, base, end, i, size);
    PlacedAt(mem, blocks, base, end, i);
    if i + 1 < |blocks| { PlacedAt(mem, blocks, base, end, i + 1); }
    SplitSelf(mem, b, size);
    forall k | 0 <= k < |blocks| && k != i
      ensures SizeAt(m', blocks[k]) == SizeAt(mem, blocks[k]) && FreeAt(m', blocks[k]) == FreeAt(mem, blocks[k])
    {
      PlacedAt(mem, blocks, base, end, k);
      if k < i { Apart(mem, blocks, base, end, k, i); } else { Apart(mem, blocks, base, end, i, k); }
      SplitOthers(mem, b, size, blocks[k]);
    }
    SplitTally(mem, m', blocks, i, added, UsedBytes);
    SplitTally(mem, m', blocks, i, added, UsedBlocks);
    SplitTally(mem, m', blocks, i, added, FreeBytes);
    SplitLive(mem, blocks, base, end, i, size);
  }

  lemma SplitTally(mem: Memory, m': Memory, blocks: seq<nat>, i: nat, a: nat, what: Measure)
    requires i < |blocks|
    requires forall k :: 0 <= k < |blocks| && k != i ==>
               SizeAt(m', blocks[k]) == SizeAt(mem, blocks[k]) && FreeAt(m', blocks[k]) == FreeAt(mem, blocks[k])
    ensures Tally(m', Inserted(blocks, i + 1, a), what) ==
            Tally(mem, blocks, what) - Weight(mem, blocks[i], what) + Weight(m', blocks[i], what) + Weight(m', a, what)
  {
    hide Tally;
    TallyInserted(m', blocks, i + 1, a, what);
    TallyChanged(mem, m', blocks, i, what);
  }

  lemma SplitLive(mem: Memory, blocks: seq<nat>, base: nat, end: nat, i: nat, size: nat)
    requires Tiled(mem, blocks, base, end) && i < |blocks|
    requires FreeAt(mem, blocks[i]) && size + HEADER <= mem[blocks[i]].size
    ensures Live(SplitMem(mem, blocks[i], size)) == Live(mem)
  {
    hide SplitMem;
    var b, m' := blocks[i], SplitMem(mem, blocks[i], size);
    PlacedAt(mem, blocks, base, end, i);
    if i + 1 < |blocks| { PlacedAt(mem, blocks, base, end, i + 1); }
    SplitSelf(mem, b, size);
    forall a | a in m' && a != b && a != b + HEADER + size
      ensures a in mem && m'[a].isFree == mem[a].isFree && m'[a].size == mem[a].size
    {
      SplitOthers(mem, b, size, a);
    }
    forall a | a in Live(mem) ensures a in Live(m') {
      var k :| 0 <= k < |blocks| && blocks[k] == a;
      PlacedAt(mem, blocks, base, end, k);
      if k < i { Apart(mem, blocks, base, end, k, i); } else { Apart(mem, blocks, base, end, i, k); }
      SplitOthers(mem, b, size, a);
    }
  }

  /** Merging two free neighbours gives a header of free space back and drops a block. */
  lemma MergeEffect(mem: Memory, blocks: seq<nat>, base: nat, end: nat, j: nat, except: int)
    requires Tiled(mem, blocks, base, end) && Coalesced(mem, blocks, except) && j + 1 < |blocks|
    requires except == j || except == j + 1
    requires FreeAt(mem, blocks[j]) && FreeAt(mem, blocks[j + 1])
    ensures var m', bs := MergeMem(mem, blocks[j], blocks[j + 1]), Removed(blocks, j + 1);
            && Tiled(m', bs, base, end) && Coalesced(m', bs, j) && FreeAt(m', bs[j])
            && Live(m') == Live(mem)
            && (forall k :: 0 <= k < |bs| && k != j ==> FreeAt(m', bs[k]) == FreeAt(mem, bs[k]))
            && Tally(m', bs, UsedBytes) == Tally(mem, blocks, UsedBytes)
            && Tally(m', bs, UsedBlocks) == Tally(mem, blocks, UsedBlocks)
            && Tally(m', bs, FreeBytes) == Tally(mem, blocks, FreeBytes) + HEADER
  {
    hide Tiled, MergeMem, Tally;
    var a, b, bs := blocks[j], blocks[j + 1], Removed(blocks, j + 1);
    var m' := MergeMem(mem, a, b);
    MergeTiled(mem, blocks, base, end, j);
    PlacedAt(mem, blocks, base, end, j);
    PlacedAt(mem, blocks, base, end, j + 1);
    if j + 2 < |blocks| { Apart(mem, blocks, base, end, j, j + 2); }
    Apart(mem, blocks, base, end, j, j + 1);
    MergeOthers(mem, a, b, b);
    forall k | 0 <= k < |bs| && k != j
      ensures SizeAt(m', bs[k]) == SizeAt(mem, bs[k]) && FreeAt(m', bs[k]) == FreeAt(mem, bs[k])
    {
      var k' := if k < j then k else k + 1;
      PlacedAt(mem, blocks, base, end, k');
      if k' < j { Apart(mem, blocks, base, end, k', j); } else { Apart(mem, blocks, base, end, j, k'); }
      MergeOthers(mem, a, b, bs[k]);
    }
    MergeTally(mem, m', blocks, j, UsedBytes);
    MergeTally(mem, m', blocks, j, UsedBlocks);
    MergeTally(mem, m', blocks, j, FreeBytes);
    MergeLive(mem, a, b);
  }

  lemma MergeTally(mem: Memory, m': Memory, blocks: seq<nat>, j: nat, what: Measure)
    requires j + 1 < |blocks|
    requires var bs := Removed(blocks, j + 1);
             forall k :: 0 <= k < |bs| && k != j ==>
               SizeAt(m', bs[k]) == SizeAt(mem, bs[k]) && FreeAt(m', bs[k]) == FreeAt(mem, bs[k])
    ensures Tally(m', Removed(blocks, j + 1), what) ==
            Tally(mem, blocks, what) - Weight(mem, blocks[j + 1], what) - Weight(mem, blocks[j], what) +
            Weight(m', blocks[j], what)
  {
    hide Tally;
    TallyRemoved(mem, blocks, j + 1, what);
    TallyChanged(mem, m', Removed(blocks, j + 1), j, what);
  }

  lemma MergeLive(mem: Memory, a: nat, b: nat)
    requires a in mem && b in mem && mem[a].isFree && mem[b].isFree && mem[b].next != a
    ensures Live(MergeMem(mem, a, b)) == Live(mem)
  {
    var m' := MergeMem(mem, a, b);
    forall x | x in mem && x != a ensures x in m' && m'[x].isFree == mem[x].isFree && m'[x].size == mem[x].size {
      MergeOthers(mem, a, b, x);
    }
  }

  /** The header at a with its allocation flag set. */
  function Flagged(mem: Memory, a: nat, free: bool): Memory
    requires a in mem
  {
    mem[a := mem[a].(isFree := free)]
  }

  /** Flipping the allocation flag of a block of the list. */
  lemma FlagEffect(mem: Memory, blocks: seq<nat>, base: nat, end: nat, i: nat, free: bool)
    requires Tiled(mem, blocks, base, end) && Coalesced(mem, blocks, i) && i < |blocks|
    ensures blocks[i] in mem
    ensures var m' := Flagged(mem, blocks[i], free);
            Tiled(m', blocks, base, end) && Coalesced(m', blocks, if free then i else -1)
  {
    PlacedAt(mem, blocks, base, end, i);
    Distinct(mem, blocks, base, end);
    var m' := Flagged(mem, blocks[i], free);
    forall k: nat | k < |blocks| ensures Placed(m', blocks, end, k) {
      PlacedAt(mem, blocks, base, end, k);
    }
  }

  lemma FlagTally(mem: Memory, blocks: seq<nat>, base: nat, end: nat, i: nat, free: bool, what: Measure)
    requires Tiled(mem, blocks, base, end) && i < |blocks| && blocks[i] in mem
    ensures var m' := Flagged(mem, blocks[i], free);
            Tally(m', blocks, what) ==
            Tally(mem, blocks, what) - Weight(mem, blocks[i], what) + Weight(m', blocks[i], what)
  {
    hide Tally;
    Distinct(mem, blocks, base, end);
    TallyChanged(mem, Flagged(mem, blocks[i], free), blocks, i, what);
  }

  /** A new free block after the old end. */
  lemma AppendEffect(mem: Memory, blocks: seq<nat>, base: nat, end: nat, size: nat)
    requires Tiled(mem, blocks, base, end) && Coalesced(mem, blocks, -1)
    ensures blocks[|blocks| - 1] in mem && end > 0
    ensures var n := |blocks| - 1;
            var m' := mem[end := Block(size, true, 0, blocks[n])][blocks[n] := mem[blocks[n]].(next := end)];
            && Tiled(m', blocks + [end], base, end + HEADER + size) && Coalesced(m', blocks + [end], n + 1)
            && Live(m') == Live(mem)
            && FreeAt(m', end) && SizeAt(m', end) == size
            && (forall k :: 0 <= k < |blocks| ==>
                 FreeAt(m', blocks[k]) == FreeAt(mem, blocks[k]) && SizeAt(m', blocks[k]) == SizeAt(mem, blocks[k]))
            && Tally(m', blocks + [end], UsedBytes) == Tally(mem, blocks, UsedBytes)
            && Tally(m', blocks + [end], UsedBlocks) == Tally(mem, blocks, UsedBlocks)
            && Tally(m', blocks + [end], FreeBytes) == Tally(mem, blocks, FreeBytes) + size
  {
    hide Tally, Tiled;
    var n := |blocks| - 1;
    NonEmpty(mem, blocks, base, end);
    PlacedAt(mem, blocks, base, end, n);
    var m' := mem[end := Block(size, true, 0, blocks[n])][blocks[n] := mem[blocks[n]].(next := end)];
    AppendTiled(mem, blocks, base, end, size);
    forall k | 0 <= k < |blocks|
      ensures && blocks[k] != end && FreeAt(m', blocks[k]) == FreeAt(mem, blocks[k])
              && SizeAt(m', blocks[k]) == SizeAt(mem, blocks[k])
    {
      Inside(mem, blocks, base, end, k);
    }
    AppendTally(mem, m', blocks, end, UsedBytes);
    AppendTally(mem, m', blocks, end, UsedBlocks);
    AppendTally(mem, m', blocks, end, FreeBytes);
    EndNotLive(mem, blocks, base, end);
  }

  lemma AppendInSteps(mem: Memory, a: nat, size: nat, tail: nat, m': Memory)
    requires tail in mem && tail != a
    requires var m := mem[a := Block(size, true, 0, tail)]; m' == m[tail := m[tail].(next := a)]
    ensures m' == mem[a := Block(size, true, 0, tail)][tail := mem[tail].(next := a)]
  {
  }

  lemma LastHasNoNext(mem: Memory, blocks: seq<nat>, base: nat, end: nat, i: nat)
    requires Tiled(mem, blocks, base, end) && i < |blocks|
    ensures blocks[i] in mem && (mem[blocks[i]].next == 0 ==> i == |blocks| - 1)
  {
    PlacedAt(mem, blocks, base, end, i);
    if i + 1 < |blocks| { PlacedAt(mem, blocks, base, end, i + 1); }
  }

  /** The place of an allocated block on the list. */
  ghost function IndexOf(mem: Memory, blocks: seq<nat>, base: nat, end: nat, a: nat): (i: nat)
    requires Tiled(mem, blocks, base, end) && a in mem && !mem[a].isFree
    ensures i < |blocks| && blocks[i] == a
  {
    var i :| 0 <= i < |blocks| && blocks[i] == a;
    i
  }

  /** The blocks of the list are in memory, and the allocated ones are on the list. */
  lemma OnList(mem: Memory, blocks: seq<nat>, base: nat, end: nat)
    requires Tiled(mem, blocks, base, end)
    ensures (forall a :: a in blocks ==> a in mem) && forall a :: a in Live(mem) ==> a in blocks
  {
    forall a | a in blocks ensures a in mem {
      var i: nat :| i < |blocks| && blocks[i] == a;
      assert Placed(mem, blocks, end, i);
    }
  }

  lemma LiveInside(mem: Memory, blocks: seq<nat>, base: nat, end: nat)
    requires Tiled(mem, blocks, base, end)
    ensures forall a :: a in Live(mem) ==> base <= a && a + HEADER + Live(mem)[a] <= end
  {
    forall a | a in Live(mem) ensures base <= a && a + HEADER + Live(mem)[a] <= end {
      Inside(mem, blocks, base, end, IndexOf(mem, blocks, base, end, a));
    }
  }

  lemma WeakerCoalesced(mem: Memory, blocks: seq<nat>, i: nat)
    requires Coalesced(mem, blocks, -1)
    ensures Coalesced(mem, blocks, i)
  {
  }

  lemma NonEmpty(mem: Memory, blocks: seq<nat>, base: nat, end: nat)
    requires Tiled(mem, blocks, base, end)
    ensures |blocks| >= 1 && blocks[0] == base
  {
  }

  lemma EndNotLive(mem: Memory, blocks: seq<nat>, base: nat, end: nat)
    requires Tiled(mem, blocks, base, end)
    ensures end !in Live(mem)
  {
    if end in Live(mem) {
      var k :| 0 <= k < |blocks| && blocks[k] == end;
      Inside(mem, blocks, base, end, k);
    }
  }

  lemma AppendTally(mem: Memory, m': Memory, blocks: seq<nat>, end: nat, what: Measure)
    requires forall k :: 0 <= k < |blocks| ==>
             FreeAt(m', blocks[k]) == FreeAt(mem, blocks[k]) && SizeAt(m', blocks[k]) == SizeAt(mem, blocks[k])
    ensures Tally(m', blocks + [end], what) == Tally(mem, blocks, what) + Weight(m', end, what)
  {
    TallyKept(mem, m', blocks, what);
    assert (blocks + [end])[..|blocks|] == blocks;
  }

  lemma AppendTiled(mem: Memory, blocks: seq<nat>, base: nat, end: nat, size: nat)
    requires Tiled(mem, blocks, base, end)
    requires blocks[|blocks| - 1] in mem
    ensures var n := |blocks| - 1;
            var m' := mem[end := Block(size, true, 0, blocks[n])][blocks[n] := mem[blocks[n]].(next := end)];
            Tiled(m', blocks + [end], base, end + HEADER + size)
  {
    var n, bs, end' := |blocks| - 1, blocks + [end], end + HEADER + size;
    var m' := mem[end := Block(size, true, 0, blocks[n])][blocks[n] := mem[blocks[n]].(next := end)];
    Distinct(mem, blocks, base, end);
    Inside(mem, blocks, base, end, n);
    forall k: nat | k < |bs| ensures Placed(m', bs, end', k) {
      if k <= n {
        PlacedAt(mem, blocks, base, end, k);
        Inside(mem, blocks, base, end, k);
      }
    }
  }

  // ---------------------------------------------------------------- the allocator

  function RoundUp8(n: nat): nat { (n + 7) / 8 * 8 }

  /** In 32 bits the rounding of kmalloc covers the request exactly when the request is at most 2^32 - 8. */
  lemma RoundingCovers(n: nat)
    requires n < WORD32
    ensures n <= RoundUp8(n) % WORD32 <==> n <= WORD32 - 8
  {
    if n <= WORD32 - 8 {
      assert RoundUp8(n) == WORD32 - 8 || RoundUp8(n) < WORD32 - 8;
    } else {
      assert RoundUp8(n) == WORD32;
    }
  }

  function AlignUp(n: nat): nat { (n + CHUNK - 1) / CHUNK * CHUNK }

  /** How much of a block of this size a request is given: all of it, unless the rest can hold a header and the smallest
      block. */
  function Given(available: nat, size: nat): nat
  {
    if available < size + HEADER + MIN_BLOCK then available else size
  }

  /** The least number of whole megabytes that hold n bytes. */
  lemma AlignUpLeast(n: nat)
    ensures n <= AlignUp(n) && AlignUp(n) % CHUNK == 0
    ensures forall k: nat :: n <= k * CHUNK ==> AlignUp(n) <= k * CHUNK
  {
    var q := (n + CHUNK - 1) / CHUNK;
    forall k: nat | n <= k * CHUNK ensures q * CHUNK <= k * CHUNK {
      assert q <= k;
    }
  }

  /** The heap has grown to hold `need` bytes and a header: by the fewest whole megabytes that do, or by less, up to the
      limit. */
  ghost predicate GrownFor(need: nat, from: nat, to: nat, limit: nat)
  {
    && from + need + HEADER <= to <= limit
    && (forall k: nat :: need + HEADER <= k * CHUNK ==> to - from <= k * CHUNK)
    && (to == limit || (to - from) % CHUNK == 0)
  }

  /** The growth that heap_expand computes in 32 bits. */
  function Growth32(n: nat): nat { ((n + HEADER) % WORD32 + (CHUNK - 1)) % WORD32 / CHUNK * CHUNK }

  /** In 32 bits the growth of heap_expand covers request and header exactly when no sum on the way wraps; a request of
      0xFFF00000 bytes, for one, grows the heap by nothing. */
  lemma GrowthCovers(n: nat)
    requires n < WORD32
    ensures n + HEADER <= Growth32(n) <==> n + HEADER + (CHUNK - 1) < WORD32
    ensures n + HEADER + (CHUNK - 1) < WORD32 ==> Growth32(n) == AlignUp(n + HEADER)
    ensures Growth32(0xFFF0_0000) == 0
  {
    var x := n + HEADER;
    if x + (CHUNK - 1) < WORD32 {
      assert x % WORD32 == x && (x + (CHUNK - 1)) % WORD32 == x + (CHUNK - 1);
    } else if x < WORD32 {
      assert x % WORD32 == x && (x + (CHUNK - 1)) % WORD32 == x + (CHUNK - 1) - WORD32;
    } else {
      assert x % WORD32 == x - WORD32;
    }
  }

  class KernelHeap {
    var mem: Memory
    var head: nat
    var base: nat
    var curSize: nat
    var maxLimit: nat
    var totalSize: nat
    var usedSize: nat
    var freeSize: nat
    var numAllocations: nat
    var numBlocks: nat
    ghost var blocks: seq<nat>

    /** The list tiles the heap, with free neighbours allowed only around `except`, and the statistics are exact. */
    ghost predicate Structured(except: int)
      reads this
    {
      && head == base
      && Tiled(mem, blocks, base, base + curSize) && Coalesced(mem, blocks, except)
      && totalSize == curSize && numBlocks == |blocks|
      && usedSize == Tally(mem, blocks, UsedBytes)
      && freeSize == Tally(mem, blocks, FreeBytes)
      && numAllocations == Tally(mem, blocks, UsedBlocks)
    }

    /** Holds before and after every call: the heap is not set up yet, or it is structured and every
        allocated block has room for at least one byte. */
    ghost predicate Valid()
      reads this
    {
      head == 0 || (Structured(-1) && forall a :: a in Live(mem) ==> 0 < Live(mem)[a])
    }

    /** No free block can hold `size` bytes. */
    ghost predicate NoFit(size: nat)
      reads this
    {
      forall k :: 0 <= k < |blocks| ==> !(FreeAt(mem, blocks[k]) && SizeAt(mem, blocks[k]) >= size)
    }

    /** Block b is the first on the list that is free and large enough. */
    ghost predicate FirstFit(size: nat, b: nat)
      reads this
    {
      exists i: nat :: i < |blocks| && b == blocks[i] && FreeAt(mem, b) && SizeAt(mem, b) >= size
                       && forall k :: 0 <= k < i ==> !(FreeAt(mem, blocks[k]) && SizeAt(mem, blocks[k]) >= size)
    }

    /** Nothing was asked for, or no free block fits and the limit leaves fewer than size + header bytes. */
    ghost predicate Refused(size: nat)
      reads this
    {
      || size == 0 || head == 0
      || (NoFit(RoundUp8(size)) && maxLimit < curSize + RoundUp8(size) + HEADER)
    }

    /** No 32-bit sum that a request for `size` bytes forms can wrap around. */
    predicate NoWrap(size: nat)
      reads this
    {
      curSize + size + 7 + HEADER + CHUNK < WORD32 && base + curSize < WORD32 && base + maxLimit < WORD32
    }

    /** used + free + blocks x header = total, and no allocations means one free block, in every state. */
    lemma StatisticsAddUp()
      requires Structured(-1)
      ensures usedSize + freeSize + numBlocks * HEADER == totalSize
      ensures Live(mem) == map[] ==> numBlocks == 1 && usedSize == 0 && freeSize + HEADER == totalSize
    {
      hide Tally, Tiled;
      ghost var end := base + curSize;
      NonEmpty(mem, blocks, base, end);
      Accounting(mem, blocks, base, end, |blocks|);
      assert blocks[..|blocks|] == blocks;
      if Live(mem) == map[] {
        AllFreeIsOneBlock(mem, blocks, base, end);
        SingleTally(mem, base);
        assert blocks == [base];
      }
    }

    /** heap_init_at. */
    method InitAt(base: nat, initialSize: nat, maxSize: nat)
      requires 0 < base && HEADER <= initialSize && base + initialSize <= WORD32 && maxSize < WORD32
      modifies this
      ensures Structured(-1) && head != 0 && blocks == [base] && FreeAt(mem, base)
      ensures this.base == base && curSize == initialSize && maxLimit == maxSize
    {
      this.base, curSize, maxLimit, head := base, initialSize, maxSize, base;
      mem := map[base := Block(initialSize - HEADER, true, 0, 0)];
      totalSize, freeSize, usedSize, numAllocations, numBlocks := initialSize, initialSize - HEADER, 0, 0, 1;
      blocks := [base];
      assert blocks[..0] == [];
    }

    /** find_free_block: the first free block that is large enough, or 0. */
    method FindFreeBlock(size: nat) returns (p: nat, ghost i: nat)
      requires Structured(-1) && head != 0
      ensures p == 0 <==> NoFit(size)
      ensures p != 0 ==> && i < |blocks| && p == blocks[i] && FreeAt(mem, p) && SizeAt(mem, p) >= size
                         && forall k :: 0 <= k < i ==> !(FreeAt(mem, blocks[k]) && SizeAt(mem, blocks[k]) >= size)
    {
      hide Tiled, Tally;
      NonEmpty(mem, blocks, base, base + curSize);
      i := 0;
      var current := head;
      PlacedAt(mem, blocks, base, base + curSize, 0);
      while current != 0
        invariant i <= |blocks| && (current != 0 ==> i < |blocks| && current == blocks[i] && current in mem)
        invariant current == 0 ==> i == |blocks|
        invariant forall k :: 0 <= k < i ==> !(FreeAt(mem, blocks[k]) && SizeAt(mem, blocks[k]) >= size)
        decreases |blocks| - i
      {
        if mem[current].isFree && mem[current].size >= size {
          return current, i;
        }
        PlacedAt(mem, blocks, base, base + curSize, i);
        if i + 1 < |blocks| { PlacedAt(mem, blocks, base, base + curSize, i + 1); }
        current := mem[current].next;
        i := i + 1;
      }
      p := 0;
    }

    /** split_block, on a free block that is large enough. */
    method SplitBlock(b: nat, size: nat, ghost i: nat)
      requires Structured(-1) && i < |blocks| && b == blocks[i] && FreeAt(mem, b) && size <= SizeAt(mem, b)
      modifies this`mem, this`blocks, this`numBlocks, this`freeSize
      ensures Structured(i) && i < |blocks| && b == blocks[i] && FreeAt(mem, b) && size <= SizeAt(mem, b)
      ensures SizeAt(mem, b) == Given(old(SizeAt(mem, b)), size)
      ensures Live(mem) == old(Live(mem))
    {
      hide Tiled, Tally, SplitMem, Live, Inserted;
      if mem[b].size < size + HEADER + MIN_BLOCK { return; }
      SplitEffect(mem, blocks, base, base + curSize, i, size);
      PlacedAt(mem, blocks, base, base + curSize, i);
      ghost var m, bs := mem, blocks;
      var remaining := mem[b].size - size - HEADER;
      var newBlock := b + HEADER + size;
      var next := mem[b].next;
      if i + 1 < |blocks| { PlacedAt(mem, blocks, base, base + curSize, i + 1); }
      mem := mem[newBlock := Block(remaining, true, next, b)];
      if next != 0 { mem := mem[next := mem[next].(prev := newBlock)]; }
      mem := mem[b := mem[b].(next := newBlock, size := size)];
      SplitInSteps(m, b, size, mem);
      numBlocks := numBlocks + 1;
      freeSize := freeSize - HEADER;
      blocks := Inserted(blocks, i + 1, newBlock);
    }

    /** The first half of coalesce: absorb a free successor. */
    method AbsorbNext(b: nat, ghost i: nat)
      requires Structured(i) && i < |blocks| && b == blocks[i] && FreeAt(mem, b)
      modifies this`mem, this`blocks, this`numBlocks, this`freeSize
      ensures Structured(i) && i < |blocks| && b == blocks[i] && FreeAt(mem, b)
      ensures i + 1 < |blocks| ==> !FreeAt(mem, blocks[i + 1])
      ensures Live(mem) == old(Live(mem)) && SizeAt(mem, b) >= old(SizeAt(mem, b))
    {
      hide Tiled, Tally, Live, Removed, MergeMem;
      ghost var end := base + curSize;
      PlacedAt(mem, blocks, base, end, i);
      var next := mem[b].next;
      if i + 1 < |blocks| { PlacedAt(mem, blocks, base, end, i + 1); }
      if next != 0 && mem[next].isFree {
        MergeEffect(mem, blocks, base, end, i, i);
        MergeGrows(mem, b, next);
        mem := MergeMem(mem, b, next);
        numBlocks, freeSize := numBlocks - 1, freeSize + HEADER;
        blocks := Removed(blocks, i + 1);
      }
    }

    /** The second half of coalesce: be absorbed by a free predecessor. */
    method AbsorbIntoPrev(b: nat, ghost i: nat) returns (ghost k: nat)
      requires Structured(i) && i < |blocks| && b == blocks[i] && FreeAt(mem, b)
      requires i + 1 < |blocks| ==> !FreeAt(mem, blocks[i + 1])
      modifies this`mem, this`blocks, this`numBlocks, this`freeSize
      ensures Structured(-1) && Live(mem) == old(Live(mem))
      ensures k < |blocks| && FreeAt(mem, blocks[k]) && SizeAt(mem, blocks[k]) >= old(SizeAt(mem, b))
    {
      hide Tiled, Tally, Live, Removed, MergeMem;
      ghost var end := base + curSize;
      k := i;
      PlacedAt(mem, blocks, base, end, i);
      var prev := mem[b].prev;
      if i > 0 { PlacedAt(mem, blocks, base, end, i - 1); }
      if prev != 0 && mem[prev].isFree {
        MergeEffect(mem, blocks, base, end, i - 1, i);
        MergeGrows(mem, prev, b);
        mem := MergeMem(mem, prev, b);
        numBlocks, freeSize := numBlocks - 1, freeSize + HEADER;
        blocks := Removed(blocks, i);
        k := i - 1;
      }
    }

    /** coalesce: merges the free block b with a free successor, then with a free predecessor. */
    method Coalesce(b: nat, ghost i: nat) returns (ghost k: nat)
      requires Structured(i) && i < |blocks| && b == blocks[i] && FreeAt(mem, b)
      modifies this`mem, this`blocks, this`numBlocks, this`freeSize
      ensures Structured(-1) && Live(mem) == old(Live(mem))
      ensures k < |blocks| && FreeAt(mem, blocks[k]) && SizeAt(mem, blocks[k]) >= old(SizeAt(mem, b))
    {
      hide Tiled, Tally, Live, Coalesced;
      AbsorbNext(b, i);
      k := AbsorbIntoPrev(b, i);
    }

    /** The walk of heap_expand to the last block. */
    method FindTail() returns (tail: nat)
      requires Structured(-1) && head != 0
      ensures |blocks| >= 1 && tail == blocks[|blocks| - 1]
    {
      hide Tiled, Tally;
      ghost var end := base + curSize;
      NonEmpty(mem, blocks, base, end);
      PlacedAt(mem, blocks, base, end, 0);
      ghost var i := 0;
      tail := head;
      while mem[tail].next != 0
        invariant i < |blocks| && tail == blocks[i] && tail in mem && Placed(mem, blocks, end, i)
        decreases |blocks| - i
      {
        tail := mem[tail].next;
        i := i + 1;
        PlacedAt(mem, blocks, base, end, i);
      }
      LastHasNoNext(mem, blocks, base, end, i);
    }

    /** The second part of heap_expand: a new block at the end of the heap, merged with a free last block. */
    method GrowBy(grow: nat)
      requires Structured(-1) && head != 0 && HEADER <= grow
      modifies this`mem, this`blocks, this`numBlocks, this`freeSize, this`curSize, this`totalSize
      ensures Structured(-1) && Live(mem) == old(Live(mem))
      ensures !NoFit(grow - HEADER) && curSize == old(curSize) + grow
    {
      hide Tiled, Tally, Live, Coalesced;
      var newBlk := base + curSize;
      AppendEffect(mem, blocks, base, newBlk, grow - HEADER);
      var tail := FindTail();
      Inside(mem, blocks, base, newBlk, |blocks| - 1);
      mem := mem[newBlk := Block(grow - HEADER, true, 0, tail)];
      mem := mem[tail := mem[tail].(next := newBlk)];
      AppendInSteps(old(mem), newBlk, grow - HEADER, tail, mem);
      curSize, totalSize := curSize + grow, totalSize + grow;
      freeSize, numBlocks := freeSize + (grow - HEADER), numBlocks + 1;
      blocks := blocks + [newBlk];
      ghost var k := Coalesce(newBlk, |blocks| - 1);
    }

    /** heap_expand: succeeds exactly when the limit leaves room for the request and a header, and then some
        free block fits it. */
    method Expand(minBytes: nat) returns (ok: bool)
      requires Structured(-1) && head != 0 && curSize + minBytes + HEADER + CHUNK < WORD32
      modifies this`mem, this`blocks, this`numBlocks, this`freeSize, this`curSize, this`totalSize
      ensures ok <==> old(curSize) + minBytes + HEADER <= maxLimit
      ensures Structured(-1) && Live(mem) == old(Live(mem))
      ensures ok ==> !NoFit(minBytes) && GrownFor(minBytes, old(curSize), curSize, maxLimit)
      ensures !ok ==> mem == old(mem) && blocks == old(blocks) && curSize == old(curSize)
    {
      hide Tiled, Tally, Live, Coalesced;
      var grow := AlignUp(minBytes + HEADER);
      if curSize + grow > maxLimit {
        if curSize >= maxLimit { return false; }
        grow := maxLimit - curSize;
        if grow < minBytes + HEADER { return false; }
      }
      AlignUpLeast(minBytes + HEADER);
      GrowBy(grow);
      ok := true;
    }

    /** kmalloc.  NULL is returned exactly when nothing was asked for, or no free block fits and the limit leaves
        fewer than size + header bytes; otherwise exactly one new block, large enough, is allocated. */
    method Kmalloc(size: nat) returns (p: nat)
      requires Valid() && NoWrap(size)
      modifies this
      ensures Valid() && base == old(base) && head == old(head) && maxLimit == old(maxLimit) && old(curSize) <= curSize
      ensures p == 0 <==> old(Refused(size))
      ensures p == 0 ==> mem == old(mem) && blocks == old(blocks) && curSize == old(curSize)
      ensures p != 0 ==> && HEADER < p && p - HEADER !in old(Live(mem)) && size <= SizeAt(mem, p - HEADER)
                         && Live(mem) == old(Live(mem))[p - HEADER := SizeAt(mem, p - HEADER)]
      ensures p != 0 ==> if old(NoFit(RoundUp8(size))) then GrownFor(RoundUp8(size), old(curSize), curSize, maxLimit)
                         else curSize == old(curSize)
      ensures p != 0 && !old(NoFit(RoundUp8(size))) ==>
                && old(FirstFit(RoundUp8(size), p - HEADER))
                && SizeAt(mem, p - HEADER) == Given(old(SizeAt(mem, p - HEADER)), RoundUp8(size))
      ensures p != 0 ==> SizeAt(mem, p - HEADER) < RoundUp8(size) + HEADER + MIN_BLOCK
    {
      hide Tiled, Tally, Coalesced;
      if size == 0 || head == 0 { return 0; }
      var need := RoundUp8(size);
      var b, i := FindFreeBlock(need);
      if b == 0 {
        var ok := Expand(need);
        if ok { b, i := FindFreeBlock(need); }
      }
      if b == 0 { return 0; }
      p := Take(b, need, i);
    }

    /** The tail of kmalloc: split the block found and mark it used. */
    method Take(b: nat, size: nat, ghost i: nat) returns (p: nat)
      requires Structured(-1) && i < |blocks| && b == blocks[i] && FreeAt(mem, b) && size <= SizeAt(mem, b)
      modifies this`mem, this`blocks, this`numBlocks, this`freeSize, this`usedSize, this`numAllocations
      ensures Structured(-1) && p == b + HEADER && b !in old(Live(mem)) && size <= SizeAt(mem, b)
      ensures Live(mem) == old(Live(mem))[b := SizeAt(mem, b)] && SizeAt(mem, b) == Given(old(SizeAt(mem, b)), size)
    {
      hide Tiled, Tally, Coalesced;
      SplitBlock(b, size, i);
      ghost var end, m := base + curSize, mem;
      FlagEffect(mem, blocks, base, end, i, false);
      FlagTally(mem, blocks, base, end, i, false, UsedBytes);
      FlagTally(mem, blocks, base, end, i, false, FreeBytes);
      FlagTally(mem, blocks, base, end, i, false, UsedBlocks);
      mem := mem[b := mem[b].(isFree := false)];
      assert mem == Flagged(m, b, false);
      usedSize := usedSize + mem[b].size;
      freeSize := freeSize - mem[b].size;
      numAllocations := numAllocations + 1;
      p := b + HEADER;
    }

    /** kfree.  A pointer to an allocated block frees exactly that block; NULL, an address outside the heap and a
        block of the list that is already free are ignored. */
    method Kfree(p: nat)
      requires Valid()
      requires p == 0 || head == 0 || p < base + HEADER || base + curSize <= p || p - HEADER in blocks
      modifies this
      ensures Valid() && base == old(base) && head == old(head) && maxLimit == old(maxLimit) && curSize == old(curSize)
      ensures if HEADER < p && old(head != 0 && p - HEADER in Live(mem)) then Live(mem) == old(Live(mem)) - {p - HEADER}
              else mem == old(mem) && blocks == old(blocks)
    {
      hide Tiled, Tally, Coalesced;
      if p == 0 || head == 0 { return; }
      ghost var end := base + curSize;
      LiveInside(mem, blocks, base, end);
      OnList(mem, blocks, base, end);
      if p < base + HEADER || p >= base + curSize { return; }
      var b := p - HEADER;
      if mem[b].isFree { return; }
      ghost var m, i := mem, IndexOf(mem, blocks, base, end, b);
      WeakerCoalesced(mem, blocks, i);
      FlagEffect(mem, blocks, base, end, i, true);
      FlagTally(mem, blocks, base, end, i, true, UsedBytes);
      FlagTally(mem, blocks, base, end, i, true, FreeBytes);
      FlagTally(mem, blocks, base, end, i, true, UsedBlocks);
      mem := mem[b := mem[b].(isFree := true)];
      assert mem == Flagged(m, b, true);
      usedSize := usedSize - mem[b].size;
      freeSize := freeSize + mem[b].size;
      if numAllocations > 0 { numAllocations := numAllocations - 1; }
      assert Live(mem) == Live(m) - {b};
      ghost var k := Coalesce(b, i);
    }

    lemma LiveListed()
      requires Valid() && head != 0
      ensures forall a :: a in Live(mem) ==> a in blocks && a in mem
    {
      hide Tiled, Tally, Coalesced;
      OnList(mem, blocks, base, base + curSize);
    }

    /** krealloc of NULL or of an allocated block.  The block is kept, or moved to a larger one that the old
        payload fits into, or left as it was when there is no room. */
    method Krealloc(p: nat, newSize: nat) returns (q: nat)
      requires Valid() && NoWrap(newSize)
      requires p == 0 || (HEADER < p && head != 0 && p - HEADER in Live(mem))
      modifies this
      ensures Valid() && base == old(base) && head == old(head)
      ensures q == 0 <==> if p == 0 then old(Refused(newSize))
                          else newSize == 0 || old(SizeAt(mem, p - HEADER) < newSize && Refused(newSize))
      ensures p != 0 ==> (q == p <==> 0 < newSize <= old(SizeAt(mem, p - HEADER)))
      ensures p != 0 && newSize == 0 ==> Live(mem) == old(Live(mem)) - {p - HEADER}
      ensures q != 0 ==> HEADER < q && newSize <= SizeAt(mem, q - HEADER)
      ensures q == 0 && (p == 0 || newSize > 0) ==> Live(mem) == old(Live(mem))
      ensures q != 0 && q == p ==> Live(mem) == old(Live(mem))
      ensures q != 0 && q != p ==>
                && q - HEADER !in old(Live(mem))
                && (p != 0 ==> old(SizeAt(mem, p - HEADER)) <= SizeAt(mem, q - HEADER))
                && var kept := if p == 0 then old(Live(mem)) else old(Live(mem)) - {p - HEADER};
                   Live(mem) == kept[q - HEADER := SizeAt(mem, q - HEADER)]
    {
      hide Tiled, Tally, Coalesced, Structured;
      if p == 0 {
        q := Kmalloc(newSize);
        return;
      }
      LiveListed();
      if newSize == 0 {
        Kfree(p);
        return 0;
      }
      if mem[p - HEADER].size >= newSize { return p; }
      q := Kmalloc(newSize);
      if q != 0 {
        assert p - HEADER in Live(mem);
        LiveListed();
        Kfree(p);
        assert q - HEADER in Live(mem);
      }
    }
  }
}
