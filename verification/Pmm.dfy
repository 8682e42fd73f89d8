/** The physical frame allocator: a bitmap of frames with a cached count of used ones (kernel/paging.c:20-185). */
module Pmm {
  import opened Common

  const PAGE: nat := 4096
  const WORDS: nat := 32768
  const FRAMES: nat := 1048576
  const HEAP_LIMIT: nat := 0x0140_0000
  const TOP: nat := 0xFFFF_F000
  const WORD64: nat := 0x1_0000_0000_0000_0000

  // ---------------------------------------------------------------- bits

  /** A 32-bit word as its bits, least significant first. */
  type Word = w: seq<bool> | |w| == 32 witness seq(32, i => false)

  /** 0xFFFFFFFF. */
  function Ones(): (w: Word)
    ensures forall j :: 0 <= j < 32 ==> w[j]
  {
    seq(32, i => true)
  }

  /** Frame f is marked used. */
  predicate Used(bits: seq<Word>, f: nat)
    requires f / 32 < |bits|
  {
    bits[f / 32][f % 32]
  }

  lemma BitAt(bits: seq<Word>, i: nat, j: nat)
    requires i < |bits| && j < 32
    ensures Used(bits, i * 32 + j) == bits[i][j]
  {
  }

  lemma FullWord(bits: seq<Word>, i: nat)
    requires i < |bits| && bits[i] == Ones()
    ensures forall f: nat :: 32 * i <= f < 32 * i + 32 ==> Used(bits, f)
  {
    assert forall f: nat :: 32 * i <= f < 32 * i + 32 ==> f / 32 == i;
  }

  /** The bitmap with the bit of frame f set or cleared. */
  function Marked(bits: seq<Word>, f: nat, v: bool): (r: seq<Word>)
    requires f / 32 < |bits|
    ensures |r| == |bits|
  {
    bits[f / 32 := bits[f / 32][f % 32 := v]]
  }

  lemma MarkedAt(bits: seq<Word>, f: nat, v: bool, g: nat)
    requires f / 32 < |bits| && g / 32 < |bits|
    ensures Used(Marked(bits, f, v), g) == if g == f then v else Used(bits, g)
  {
  }

  lemma MarkedSame(bits: seq<Word>, f: nat, v: bool)
    requires f / 32 < |bits| && Used(bits, f) == v
    ensures Marked(bits, f, v) == bits
  {
    assert bits[f / 32][f % 32 := v] == bits[f / 32];
  }

  /** How many of the first n frames are marked used. */
  ghost function Count(bits: seq<Word>, n: nat): nat
    requires n <= 32 * |bits|
  {
    if n == 0 then 0 else Count(bits, n - 1) + if Used(bits, n - 1) then 1 else 0
  }

  lemma {:induction false} CountMarked(bits: seq<Word>, f: nat, v: bool, n: nat)
    requires f / 32 < |bits| && n <= 32 * |bits| && Used(bits, f) != v
    ensures Count(Marked(bits, f, v), n) == Count(bits, n) + if f < n then (if v then 1 else -1) else 0
  {
    hide Marked, Used;
    if n > 0 {
      CountMarked(bits, f, v, n - 1);
      MarkedAt(bits, f, v, n - 1);
    }
  }

  lemma {:induction false} CountAll(bits: seq<Word>, n: nat)
    requires n <= 32 * |bits| && forall f: nat :: f < n ==> Used(bits, f)
    ensures Count(bits, n) == n
  {
    if n > 0 { CountAll(bits, n - 1); }
  }

  /** The cached count is exact and every frame past the end is marked. */
  ghost predicate Exact(bits: seq<Word>, total: nat, used: nat)
  {
    && |bits| == WORDS && total <= FRAMES && used == Count(bits, total)
    && forall f: nat :: total <= f < FRAMES ==> Used(bits, f)
  }

  // ---------------------------------------------------------------- the memory map

  /** An E820 entry; only type 1 is available memory. */
  datatype Region = Region(addr: Word64, len: Word64, kind: nat)

  type Word64 = n: nat | n < WORD64

  const AVAILABLE: nat := 1

  function RegionStart(e: Region): nat { (e.addr + PAGE - 1) / PAGE * PAGE }

  /** End of a region in 64-bit arithmetic, cut below 4 GB and to whole pages. */
  function RegionEnd(e: Region): nat
  {
    var end := (e.addr + e.len) % WORD64;
    (if end > TOP then TOP else end) / PAGE * PAGE
  }

  predicate Usable(e: Region) { e.kind == AVAILABLE && e.addr < TOP }

  /** Something is left of the region after the rounding. */
  predicate HasPages(e: Region) { Usable(e) && RegionStart(e) < RegionEnd(e) }

  /** pmm_init_mmap frees frame f for region e. */
  predicate Offers(e: Region, f: nat) { Usable(e) && RegionStart(e) <= f * PAGE && f * PAGE < RegionEnd(e) }

  ghost predicate Offered(regions: seq<Region>, f: nat) { exists i :: 0 <= i < |regions| && Offers(regions[i], f) }

  /** Frame f lies wholly inside the available region e, which ends below 2^64, and ends at or below 0xFFFFF000. */
  predicate HoldsFrame(e: Region, f: nat)
  {
    && e.kind == AVAILABLE && e.addr + e.len < WORD64
    && e.addr <= f * PAGE && f * PAGE + PAGE <= e.addr + e.len && f * PAGE + PAGE <= TOP
  }

  ghost predicate Available(regions: seq<Region>, f: nat)
  {
    exists i :: 0 <= i < |regions| && HoldsFrame(regions[i], f)
  }

  /** The rounding of pmm_init_mmap gives exactly the frames that a region holds; a region whose end wraps around 64
      bits offers none, and so does the last page below 4 GB. */
  lemma OffersMeans(e: Region, f: nat)
    ensures Offers(e, f) <==> HoldsFrame(e, f)
  {
    if e.addr + e.len < WORD64 {
      EndMeans(e.addr + e.len, f);
      StartMeans(e.addr, f);
    } else {
      assert RegionEnd(e) <= e.addr <= RegionStart(e);
    }
  }

  lemma StartMeans(a: nat, f: nat)
    ensures (a + PAGE - 1) / PAGE * PAGE <= f * PAGE <==> a <= f * PAGE
  {
  }

  lemma EndMeans(end: nat, f: nat)
    ensures f * PAGE < (if end > TOP then TOP else end) / PAGE * PAGE <==>
            f * PAGE + PAGE <= end && f * PAGE + PAGE <= TOP
  {
  }

  lemma OfferedMeans(regions: seq<Region>, f: nat)
    ensures Offered(regions, f) <==> Available(regions, f)
  {
    hide Offers, HoldsFrame;
    forall i | 0 <= i < |regions| ensures Offers(regions[i], f) <==> HoldsFrame(regions[i], f) {
      OffersMeans(regions[i], f);
    }
  }

  /** A usable region that survives the rounding holds a frame, and only such a region does. */
  lemma SomeFrame(e: Region)
    ensures HasPages(e) <==> exists f: nat :: HoldsFrame(e, f)
  {
    hide HoldsFrame;
    if HasPages(e) {
      OffersMeans(e, RegionStart(e) / PAGE);
      assert HoldsFrame(e, RegionStart(e) / PAGE);
    }
    forall f: nat | HoldsFrame(e, f) ensures HasPages(e) { OffersMeans(e, f); }
  }

  lemma SomeAvailable(regions: seq<Region>)
    ensures (exists i :: 0 <= i < |regions| && HasPages(regions[i])) <==>
            exists f: nat :: Available(regions, f)
  {
    hide HoldsFrame, Usable, RegionStart, RegionEnd;
    if i :| 0 <= i < |regions| && HasPages(regions[i]) {
      SomeFrame(regions[i]);
      var f: nat :| HoldsFrame(regions[i], f);
      assert Available(regions, f);
    }
    if f: nat :| Available(regions, f) {
      var i :| 0 <= i < |regions| && HoldsFrame(regions[i], f);
      SomeFrame(regions[i]);
    }
  }

  /** The frames below this address are never handed out. */
  function ProtectedLimit(reservedEnd: nat): nat
  {
    var up := (reservedEnd + PAGE - 1) / PAGE * PAGE % WORD32;
    if up < HEAP_LIMIT then HEAP_LIMIT else up
  }

  // ---------------------------------------------------------------- the allocator

  class FrameAllocator {
    const bitmap: array<Word>
    var totalFrames: nat
    var usedFrames: nat
    /** Frames in the hands of callers, and frames that may ever be handed out. */
    ghost var handed: set<nat>
    ghost var allowed: set<nat>

    constructor ()
      ensures bitmap.Length == WORDS && fresh(bitmap)
    {
      bitmap := new Word[WORDS](i => Ones());
      totalFrames, usedFrames := 0, 0;
      handed, allowed := {}, {};
    }

    ghost predicate Counted()
      reads this, bitmap
    {
      bitmap.Length == WORDS && Exact(bitmap[..], totalFrames, usedFrames)
    }

    /** True in every state after initialisation: the count is exact, a free frame is one that may be handed out
        and is not in anyone's hands, and a frame in someone's hands is marked. */
    ghost predicate Valid()
      reads this, bitmap
    {
      && Counted() && (forall f :: f in allowed ==> HEAP_LIMIT <= f * PAGE)
      && (forall f: nat :: f < FRAMES && !Used(bitmap[..], f) ==> f in allowed && f !in handed)
      && (forall f :: f in handed ==> f in allowed && f < totalFrames && Used(bitmap[..], f))
    }

    /** frame_set_used. */
    method SetUsed(f: nat)
      requires Counted()
      modifies this`usedFrames, bitmap
      ensures Counted()
      ensures f < FRAMES ==> bitmap[..] == Marked(old(bitmap[..]), f, true)
      ensures f >= FRAMES ==> bitmap[..] == old(bitmap[..])
    {
      hide Count;
      if f / 32 < WORDS {
        if !bitmap[f / 32][f % 32] {
          ghost var before := bitmap[..];
          MarkKeepsExact(before, totalFrames, usedFrames, f);
          bitmap[f / 32] := bitmap[f / 32][f % 32 := true];
          assert bitmap[..] == Marked(before, f, true);
          usedFrames := usedFrames + 1;
        } else {
          MarkedSame(bitmap[..], f, true);
        }
      }
    }

    /** frame_set_free; the count stays exact for a frame below the end of memory. */
    method SetFree(f: nat)
      requires bitmap.Length == WORDS
      modifies this`usedFrames, bitmap
      ensures f < FRAMES ==> bitmap[..] == Marked(old(bitmap[..]), f, false)
      ensures f >= FRAMES ==> bitmap[..] == old(bitmap[..])
      ensures old(Counted()) && f < totalFrames ==> Counted()
    {
      hide Count;
      if f / 32 < WORDS {
        if bitmap[f / 32][f % 32] {
          ghost var before := bitmap[..];
          if Exact(before, totalFrames, usedFrames) && f < totalFrames {
            ClearKeepsExact(before, totalFrames, usedFrames, f);
          }
          bitmap[f / 32] := bitmap[f / 32][f % 32 := false];
          assert bitmap[..] == Marked(before, f, false);
          if usedFrames > 0 { usedFrames := usedFrames - 1; }
        } else {
          MarkedSame(bitmap[..], f, false);
        }
      }
    }

    /** pmm_reserve_region: marks every frame that the region touches. */
    method ReserveRegion(base: nat, size: nat)
      requires Counted() && base < WORD32 && size < WORD32
      modifies this`usedFrames, bitmap
      ensures Counted() && (old(Valid()) ==> Valid())
      ensures forall f: nat :: f < FRAMES ==>
                Used(bitmap[..], f) == (old(Used(bitmap[..], f)) || Touched(base, size, f))
    {
      hide Count, Exact, Marked;
      var start := base / PAGE;
      var endAddr := if base + size > TOP then TOP else base + size;
      var endFrame := (endAddr + PAGE - 1) / PAGE;
      var f := start;
      ghost var before := bitmap[..];
      while f < endFrame && f < FRAMES
        invariant start <= f && Counted()
        invariant f <= endFrame || f == start
        invariant forall g: nat :: g < FRAMES ==> Used(bitmap[..], g) == (Used(before, g) || start <= g < f)
        decreases FRAMES - f
      {
        ghost var bits := bitmap[..];
        SetUsed(f);
        forall g: nat | g < FRAMES ensures Used(bitmap[..], g) == (g == f || Used(bits, g)) {
          MarkedAt(bits, f, true, g);
        }
        f := f + 1;
      }
      ExactMeans(bitmap[..], totalFrames, usedFrames);
    }

    /** Marks everything, as memset(bitmap, 0xFF) does, with `total` frames all used. */
    method MarkAll(total: nat)
      requires bitmap.Length == WORDS && total <= FRAMES
      modifies this`totalFrames, this`usedFrames, bitmap
      ensures Counted() && totalFrames == total && forall f: nat :: f < FRAMES ==> Used(bitmap[..], f)
    {
      hide Count, Used;
      for i := 0 to WORDS
        invariant forall k :: 0 <= k < i ==> bitmap[k] == Ones()
      {
        bitmap[i] := Ones();
      }
      totalFrames, usedFrames := total, total;
      AllMarkedExact(bitmap[..], total);
    }

    /** Clears the bits of frames lo to hi - 1. */
    method FreeRange(lo: nat, hi: nat)
      requires Counted() && hi <= totalFrames
      modifies this`usedFrames, bitmap
      ensures Counted()
      ensures forall g: nat :: g < FRAMES ==> Used(bitmap[..], g) == (old(Used(bitmap[..], g)) && !(lo <= g < hi))
    {
      hide Count, Exact, Marked;
      ghost var before := bitmap[..];
      var f := lo;
      while f < hi
        invariant lo <= f && (f <= hi || f == lo) && Counted()
        invariant forall g: nat :: g < FRAMES ==> Used(bitmap[..], g) == (Used(before, g) && !(lo <= g < f))
        decreases hi - f
      {
        ghost var bits := bitmap[..];
        ExactMeans(bits, totalFrames, usedFrames);
        SetFree(f);
        forall g: nat | g < FRAMES ensures Used(bitmap[..], g) == (g != f && Used(bits, g)) {
          MarkedAt(bits, f, false, g);
        }
        f := f + 1;
      }
    }

    /** pmm_init: without a memory map every frame from the protected limit up is free. */
    method Init(memSize: nat, reservedEnd: nat)
      requires bitmap.Length == WORDS && memSize < WORD32 && reservedEnd < WORD32
      modifies this, bitmap
      ensures Valid() && handed == {} && totalFrames == memSize / PAGE
      ensures forall f: nat :: f in allowed <==> f < totalFrames && ProtectedLimit(reservedEnd) <= f * PAGE
      ensures forall f: nat :: f < FRAMES ==> (Used(bitmap[..], f) <==> f !in allowed)
    {
      hide Count, Exact, Used;
      var total := memSize / PAGE;
      total := if total > FRAMES then FRAMES else total;
      MarkAll(total);
      var minFree := ProtectedLimit(reservedEnd);
      FreeRange(minFree / PAGE, total);
      handed, allowed := {}, set f: nat | f < FRAMES && !Used(bitmap[..], f);
      LimitAligned(reservedEnd);
    }

    /** The first loop of pmm_init_mmap: the end of the highest available region. */
    method HighestAvailable(regions: seq<Region>) returns (high: nat)
      ensures high <= TOP && high % PAGE == 0
      ensures forall i :: 0 <= i < |regions| && HasPages(regions[i]) ==> RegionEnd(regions[i]) <= high
      ensures high == 0 <==> forall i :: 0 <= i < |regions| ==> !HasPages(regions[i])
    {
      high := 0;
      for k := 0 to |regions|
        invariant high <= TOP && high % PAGE == 0
        invariant forall i :: 0 <= i < k && HasPages(regions[i]) ==> RegionEnd(regions[i]) <= high
        invariant high == 0 <==> forall i :: 0 <= i < k ==> !HasPages(regions[i])
      {
        var e := regions[k];
        RegionEndAligned(e);
        if Usable(e) {
          var start, end := RegionStart(e), RegionEnd(e);
          if end > start && end > high { high := end; }
        }
      }
    }

    /** The second loop of pmm_init_mmap: frees the whole pages of each available region. */
    method FreeRegions(regions: seq<Region>)
      requires Counted() && forall f: nat :: f < FRAMES ==> Used(bitmap[..], f)
      requires forall i :: 0 <= i < |regions| && HasPages(regions[i]) ==> RegionEnd(regions[i]) <= totalFrames * PAGE
      modifies this`usedFrames, bitmap
      ensures Counted()
      ensures forall f: nat :: f < FRAMES ==> (Used(bitmap[..], f) <==> !Offered(regions, f))
    {
      hide Count, Exact, Used, Offers;
      for k := 0 to |regions|
        invariant Counted()
        invariant forall f: nat :: f < FRAMES ==> (Used(bitmap[..], f) <==> !Offered(regions[..k], f))
      {
        var e := regions[k];
        ghost var before := bitmap[..];
        RegionFrames(e);
        if Usable(e) {
          var start, end := RegionStart(e), RegionEnd(e);
          if start < end { FreeRange(start / PAGE, end / PAGE); }
        }
        forall f: nat | f < FRAMES ensures Used(bitmap[..], f) <==> !Offered(regions[..k + 1], f) {
          OfferedNext(regions, k, f);
        }
      }
      assert regions[..|regions|] == regions;
    }

    /** pmm_init_mmap.  For every memory map, overlapping regions included, a frame is free exactly when some
        available region holds all of it, it ends at or below 0xFFFFF000 and it lies at or above the protected limit.
        A map that holds no frame is treated as if there were none. */
    method InitMmap(regions: seq<Region>, fallback: nat, reservedEnd: nat)
      requires bitmap.Length == WORDS && fallback < WORD32 && reservedEnd < WORD32
      modifies this, bitmap
      ensures Valid() && handed == {}
      ensures forall f: nat :: f < FRAMES ==> (Used(bitmap[..], f) <==> f !in allowed)
      ensures forall f: nat :: f in allowed ==> f < totalFrames && ProtectedLimit(reservedEnd) <= f * PAGE
      ensures (exists f: nat :: Available(regions, f)) ==>
                forall f: nat :: f in allowed <==> Available(regions, f) && ProtectedLimit(reservedEnd) <= f * PAGE
      ensures (forall f: nat :: !Available(regions, f)) ==>
                && totalFrames == fallback / PAGE
                && forall f: nat :: f in allowed <==> f < totalFrames && ProtectedLimit(reservedEnd) <= f * PAGE
    {
      hide Count, Exact, Used, Offered, Usable, RegionStart, RegionEnd, Available;
      SomeAvailable(regions);
      if regions == [] {
        Init(fallback, reservedEnd);
        return;
      }
      var high := HighestAvailable(regions);
      if high == 0 {
        Init(fallback, reservedEnd);
        return;
      }
      MarkAll(high / PAGE);
      FreeRegions(regions);
      LimitAligned(reservedEnd);
      var lowProtect := ProtectedLimit(reservedEnd);
      ReserveRegion(0, lowProtect);
      handed, allowed := {}, set f: nat | f < FRAMES && !Used(bitmap[..], f);
      forall f: nat | f < FRAMES ensures Touched(0, lowProtect, f) <==> f * PAGE < lowProtect {
        TouchedBelow(lowProtect, f);
      }
      ExactMeans(bitmap[..], totalFrames, usedFrames);
      forall f: nat ensures Available(regions, f) <==> f < FRAMES && Offered(regions, f) {
        OfferedMeans(regions, f);
        AvailableBelow(regions, f);
      }
    }

    /** pmm_alloc_frame: the lowest free frame, marked and handed out, or 0. */
    method AllocFrame() returns (addr: nat)
      requires bitmap.Length == WORDS && totalFrames <= FRAMES && (forall f :: f in allowed ==> HEAP_LIMIT <= f * PAGE)
      requires forall f: nat :: f < totalFrames && !Used(bitmap[..], f) ==> f in allowed && f !in handed
      modifies this`usedFrames, this`handed, bitmap
      ensures old(Valid()) ==> Valid()
      ensures addr == 0 ==> && bitmap[..] == old(bitmap[..]) && handed == old(handed)
                            && forall f: nat :: f < totalFrames ==> Used(bitmap[..], f)
      ensures addr != 0 ==> && addr % PAGE == 0 && addr / PAGE < totalFrames
                            && addr / PAGE in allowed && addr / PAGE !in old(handed)
                            && handed == old(handed) + {addr / PAGE}
                            && !Used(old(bitmap[..]), addr / PAGE)
                            && bitmap[..] == Marked(old(bitmap[..]), addr / PAGE, true)
                            && forall f: nat :: f < addr / PAGE ==> Used(old(bitmap[..]), f)
    {
      hide Count, Exact, Marked, Used;
      ghost var bits := bitmap[..];
      for i := 0 to WORDS
        invariant bitmap[..] == bits && handed == old(handed) && usedFrames == old(usedFrames)
        invariant forall f: nat :: f < 32 * i ==> Used(bits, f)
      {
        if bitmap[i] != Ones() {
          for j := 0 to 32
            invariant bitmap[..] == bits && handed == old(handed) && usedFrames == old(usedFrames)
            invariant forall f: nat :: f < 32 * i + j ==> Used(bits, f)
          {
            BitAt(bits, i, j);
            if !bitmap[i][j] {
              var frame := i * 32 + j;
              if frame >= totalFrames { return 0; }
              addr := HandOut(i, j, frame);
              return;
            }
          }
        } else {
          FullWord(bits, i);
        }
      }
      addr := 0;
    }

    /** Marking the frame found and handing it out. */
    method HandOut(i: nat, j: nat, frame: nat) returns (addr: nat)
      requires bitmap.Length == WORDS && totalFrames <= FRAMES && i < WORDS && j < 32 && frame == i * 32 + j
      requires !Used(bitmap[..], frame) && frame < totalFrames && frame in allowed && frame !in handed
      modifies this`usedFrames, this`handed, bitmap
      ensures addr == frame * PAGE && handed == old(handed) + {frame} &&
              bitmap[..] == Marked(old(bitmap[..]), frame, true)
      ensures old(Valid()) ==> Valid()
    {
      hide Count, Exact;
      ghost var bits := bitmap[..];
      if Counted() { MarkKeepsExact(bits, totalFrames, usedFrames, frame); }
      bitmap[i] := bitmap[i][j := true];
      assert bitmap[..] == Marked(bits, frame, true);
      usedFrames := usedFrames + 1;
      handed := handed + {frame};
      addr := frame * PAGE;
      forall g: nat | g < FRAMES ensures Used(bitmap[..], g) == (g == frame || Used(bits, g)) {
        MarkedAt(bits, frame, true, g);
      }
    }

    /** pmm_free_frame.  The allocator stays sound exactly when the frame may be handed out or lies past the end of
        memory, in which case nothing happens. */
    method FreeFrame(addr: nat)
      requires Counted()
      modifies this`usedFrames, this`handed, bitmap
      ensures Counted() && handed == old(handed) - {addr / PAGE}
      ensures bitmap[..] == if addr / PAGE < totalFrames then Marked(old(bitmap[..]), addr / PAGE, false)
                            else old(bitmap[..])
      ensures old(Valid()) ==> (Valid() <==> addr / PAGE in allowed || totalFrames <= addr / PAGE)
    {
      hide Count, Exact, Marked;
      ghost var bits := bitmap[..];
      ExactMeans(bits, totalFrames, usedFrames);
      var frame := addr / PAGE;
      if frame < totalFrames {
        SetFree(frame);
        forall g: nat | g < FRAMES ensures Used(bitmap[..], g) == (g != frame && Used(bits, g)) {
          MarkedAt(bits, frame, false, g);
        }
      }
      handed := handed - {frame};
    }
  }

  lemma ExactMeans(bits: seq<Word>, total: nat, used: nat)
    requires Exact(bits, total, used)
    ensures |bits| == WORDS && total <= FRAMES && forall f: nat :: total <= f < FRAMES ==> Used(bits, f)
  {
  }

  /** memset(bitmap, 0xFF) and a total: nothing is free. */
  lemma AllMarkedExact(bits: seq<Word>, total: nat)
    requires |bits| == WORDS && total <= FRAMES && forall i :: 0 <= i < WORDS ==> bits[i] == Ones()
    ensures Exact(bits, total, total) && forall f: nat :: f < FRAMES ==> Used(bits, f)
  {
    CountAll(bits, total);
  }

  /** The frames that pmm_reserve_region(base, size) marks. */
  predicate Touched(base: nat, size: nat, f: nat)
  {
    var end := if base + size > TOP then TOP else base + size;
    base / PAGE <= f && f < (end + PAGE - 1) / PAGE
  }

  lemma MarkKeepsExact(bits: seq<Word>, total: nat, used: nat, f: nat)
    requires Exact(bits, total, used) && f < FRAMES && !Used(bits, f)
    ensures Exact(Marked(bits, f, true), total, used + 1)
  {
    hide Marked, Used;
    CountMarked(bits, f, true, total);
    forall g: nat | total <= g < FRAMES ensures Used(Marked(bits, f, true), g) { MarkedAt(bits, f, true, g); }
  }

  lemma ClearKeepsExact(bits: seq<Word>, total: nat, used: nat, f: nat)
    requires Exact(bits, total, used) && f < total && Used(bits, f)
    ensures used > 0 && Exact(Marked(bits, f, false), total, used - 1)
  {
    hide Marked, Used;
    CountMarked(bits, f, false, total);
    forall g: nat | total <= g < FRAMES ensures Used(Marked(bits, f, false), g) { MarkedAt(bits, f, false, g); }
  }

  lemma LimitAligned(reservedEnd: nat)
    requires reservedEnd < WORD32
    ensures ProtectedLimit(reservedEnd) % PAGE == 0 && ProtectedLimit(reservedEnd) < WORD32
    ensures ProtectedLimit(reservedEnd) <= TOP
    ensures HEAP_LIMIT <= ProtectedLimit(reservedEnd) &&
            (reservedEnd <= TOP ==> reservedEnd <= ProtectedLimit(reservedEnd))
  {
  }

  /** A page is touched exactly when it begins below the end of the region, cut off at 4 GB, and ends above its base. */
  lemma TouchedMeans(base: nat, size: nat, f: nat)
    ensures var end := if base + size > TOP then TOP else base + size;
            Touched(base, size, f) <==> f * PAGE < end && base < (f + 1) * PAGE
  {
    var end := if base + size > TOP then TOP else base + size;
    CeilAbove(end, f);
    FloorBelow(base, f);
  }

  lemma CeilAbove(a: nat, f: nat)
    ensures f < (a + PAGE - 1) / PAGE <==> f * PAGE < a
  {
  }

  lemma FloorBelow(a: nat, f: nat)
    ensures a / PAGE <= f <==> a < (f + 1) * PAGE
  {
  }

  lemma TouchedBelow(limit: nat, f: nat)
    requires limit % PAGE == 0 && limit <= TOP
    ensures Touched(0, limit, f) <==> f * PAGE < limit
  {
  }

  lemma RegionEndAligned(e: Region)
    ensures RegionEnd(e) % PAGE == 0 && RegionEnd(e) <= TOP && RegionStart(e) % PAGE == 0
  {
  }

  /** The frames a region offers are those between its first and last whole page. */
  lemma RegionFrames(e: Region)
    ensures forall f: nat :: Offers(e, f) <==> Usable(e) && RegionStart(e) / PAGE <= f < RegionEnd(e) / PAGE
  {
    RegionEndAligned(e);
  }

  lemma AvailableBelow(regions: seq<Region>, f: nat)
    ensures Available(regions, f) ==> f < FRAMES
  {
  }

  lemma OfferedNext(regions: seq<Region>, k: nat, f: nat)
    requires k < |regions|
    ensures Offered(regions[..k + 1], f) <==> Offered(regions[..k], f) || Offers(regions[k], f)
  {
    hide Offers;
    assert regions[..k + 1] == regions[..k] + [regions[k]];
    if Offers(regions[k], f) { assert Offers(regions[..k + 1][k], f); }
    if Offered(regions[..k], f) {
      var i :| 0 <= i < k && Offers(regions[..k][i], f);
      assert Offers(regions[..k + 1][i], f);
    }
  }
}
