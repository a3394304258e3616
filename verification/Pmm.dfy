/**
 The physical memory manager as the kernel runs it: a byte array with one bit per frame and a
 counter of frames in use, and the loop of kmain that carves the heap arena out of it.
 */
module Pmm {
  import opened PmmModel

  // ---------------------------------------------------------------------------
  // Bits of a byte
  // ---------------------------------------------------------------------------

  /** 1 << bit. */
  function Mask(bit: nat): bv8
    requires bit < 8
  {
    if bit == 0 then 1 else if bit == 1 then 2 else if bit == 2 then 4 else if bit == 3 then 8
    else if bit == 4 then 16 else if bit == 5 then 32 else if bit == 6 then 64 else 128
  }

  predicate BitOf(b: bv8, bit: nat)
    requires bit < 8
  {
    b & Mask(bit) != 0
  }

  lemma SetOneBit(b: bv8, i: nat, j: nat)
    requires i < 8 && j < 8
    ensures BitOf(b | Mask(i), j) <==> i == j || BitOf(b, j)
  {
  }

  lemma ClearOneBit(b: bv8, i: nat, j: nat)
    requires i < 8 && j < 8
    ensures BitOf(b & !Mask(i), j) <==> i != j && BitOf(b, j)
  {
  }

  class Manager {
    const bitmap: array<bv8>
    var total: nat
    var used: nat
    var maxAddress: nat

    ghost predicate Shape()
      reads this
    {
      bitmap.Length == BITMAP_SIZE && total <= BITS
    }

    ghost predicate InUse(page: nat)
      requires Shape() && page < BITS
      reads this, bitmap
    {
      BitOf(bitmap[page / 8], page % 8)
    }

    ghost function Abs(): (f: Frames)
      requires Shape()
      reads this, bitmap
      ensures WellFormed(f) && |f.bits| == BITS && f.total == total
      ensures forall p :: 0 <= p < BITS ==> f.bits[p] == InUse(p)
    {
      Frames(seq(BITS, p requires 0 <= p < BITS && Shape() reads this, bitmap => InUse(p)), total)
    }

    /** The counter counts. */
    ghost predicate Valid()
      reads this, bitmap
    {
      Shape() && used == Count(Abs().bits, total)
    }

    constructor ()
      ensures fresh(bitmap) && Shape()
    {
      bitmap := new bv8[BITMAP_SIZE](i => 0);
      total, used, maxAddress := 0, 0, 0;
    }

    method BitmapSet(page: nat)
      requires Shape() && page < UINT32_SIZE
      modifies bitmap
      ensures Abs() == if page < BITS then Mark(old(Abs()), page, true) else old(Abs())
    {
      var byte, bit := page / 8, page % 8;
      if byte < BITMAP_SIZE {
        bitmap[byte] := bitmap[byte] | Mask(bit);
        forall p | 0 <= p < BITS ensures InUse(p) == (p == page || old(InUse(p))) {
          if p / 8 == byte { SetOneBit(old(bitmap[byte]), bit, p % 8); }
        }
        assert Abs().bits == old(Abs()).bits[page := true];
      }
    }

    method BitmapClear(page: nat)
      requires Shape() && page < UINT32_SIZE
      modifies bitmap
      ensures Abs() == if page < BITS then Mark(old(Abs()), page, false) else old(Abs())
    {
      var byte, bit := page / 8, page % 8;
      if byte < BITMAP_SIZE {
        bitmap[byte] := bitmap[byte] & !Mask(bit);
        forall p | 0 <= p < BITS ensures InUse(p) == (p != page && old(InUse(p))) {
          if p / 8 == byte { ClearOneBit(old(bitmap[byte]), bit, p % 8); }
        }
        assert Abs().bits == old(Abs()).bits[page := false];
      }
    }

    /** Pages beyond the bitmap count as used. */
    method BitmapTest(page: nat) returns (b: bool)
      requires Shape() && page < UINT32_SIZE
      ensures b <==> (page < BITS ==> Abs().bits[page])
    {
      var byte, bit := page / 8, page % 8;
      if byte < BITMAP_SIZE { return bitmap[byte] & Mask(bit) != 0; }
      return true;
    }

    /** Mark the frames of [start, end) that are managed. */
    method ReserveRange(start: nat, end: nat)
      requires Shape() && start < UINT32_SIZE && end <= UINT32_SIZE
      modifies bitmap
      ensures Shape()
      ensures forall p :: 0 <= p < BITS ==>
          (Abs().bits[p] <==> old(Abs()).bits[p] || (p < total && Touches(start, end, p)))
    {
      if end <= start { return; }
      var first, last := start / PAGE_SIZE, (end + PAGE_SIZE - 1) / PAGE_SIZE;
      var page := first;
      while page < last && page < total
        invariant first <= page && Shape()
        invariant forall p :: 0 <= p < BITS ==>
            (Abs().bits[p] <==> old(Abs()).bits[p] || (p < total && first <= p < page && p < last))
      {
        var taken := BitmapTest(page);
        if !taken { BitmapSet(page); }
        page := page + 1;
      }
    }

    /** All bits set. */
    method FillBitmap()
      requires Shape()
      modifies bitmap
      ensures Shape() && AllSet()
    {
      for i := 0 to BITMAP_SIZE
        invariant forall k :: 0 <= k < i ==> bitmap[k] == 0xFF
      {
        bitmap[i] := 0xFF;
      }
      forall p | 0 <= p < BITS ensures InUse(p) { AllOnes(p % 8); }
    }

    /** Clear the bits of frames [first, last) that are managed. */
    method ReleaseRange(first: nat, last: nat)
      requires Shape() && first < UINT32_SIZE && last < UINT32_SIZE
      modifies bitmap
      ensures Shape()
      ensures forall p :: 0 <= p < BITS ==> (Abs().bits[p] <==> old(Abs()).bits[p] && !(p < total && first <= p < last))
    {
      var page := first;
      while page < last && page < total
        invariant first <= page && Shape()
        invariant forall p :: 0 <= p < BITS ==>
            (Abs().bits[p] <==> old(Abs()).bits[p] && !(p < total && first <= p < page && p < last))
      {
        BitmapClear(page);
        page := page + 1;
      }
    }

    method CountUsed()
      requires Shape()
      modifies `used
      ensures Valid() && Abs() == old(Abs())
    {
      used := 0;
      ghost var f := Abs();
      var i := 0;
      while i < total
        invariant Shape() && Abs() == f && 0 <= i <= total && used == Count(f.bits, i)
      {
        var taken := BitmapTest(i);
        CountNext(f.bits, i, i + 1);
        if taken { used := used + 1; }
        i := i + 1;
      }
    }

    /** The first pass over the memory map. */
    method FindEnd(regions: seq<Region>) returns (end: nat)
      ensures end == MaxEnd(regions)
    {
      end := 0;
      var i := 0;
      while i < |regions|
        invariant 0 <= i <= |regions| && end == MaxEnd(regions[..i])
      {
        assert regions[..i + 1][..i] == regions[..i];
        if regions[i].available {
          var e := RegionEnd(regions[i]);
          if e > end { end := e; }
        }
        i := i + 1;
      }
      assert regions[..|regions|] == regions;
    }

    /** The second pass. */
    method ReleaseRegions(regions: seq<Region>)
      requires Shape()
      modifies bitmap
      ensures Shape()
      ensures forall p :: 0 <= p < BITS ==>
                (Abs().bits[p] <==>
                   && old(Abs()).bits[p]
                   && !(p < total && exists k :: 0 <= k < |regions| && Offers(regions[k], p)))
    {
      var i := 0;
      while i < |regions|
        invariant 0 <= i <= |regions| && Shape()
        invariant forall p :: 0 <= p < BITS ==>
                    (Abs().bits[p] <==>
                       && old(Abs()).bits[p]
                       && !(p < total && exists k :: 0 <= k < i && Offers(regions[k], p)))
      {
        var r := regions[i];
        if r.available && r.addr >= LOW_MEMORY { ReleaseRange(StartPage(r), EndPage(r)); }
        i := i + 1;
      }
    }

    ghost predicate AllSet()
      requires Shape()
      reads this, bitmap
    {
      forall p :: 0 <= p < BITS ==> InUse(p)
    }

    ghost predicate OnlyOfferedFree(info: BootInfo)
      requires Shape()
      reads this, bitmap
    {
      forall p :: 0 <= p < BITS ==> (InUse(p) <==> !(p < total && OfferedAtBoot(info, p)))
    }

    /** Without a memory map: everything from 1 MiB up. */
    method InitFromSizes(info: BootInfo)
      requires Shape() && AllSet() && info.Sizes?
      modifies this, bitmap
      ensures Shape() && total == TotalPages(info) && OnlyOfferedFree(info)
    {
      var kb := (info.lowerKb + info.upperKb) % UINT32_SIZE;
      maxAddress := (kb * 1024) % UINT32_SIZE;
      total := maxAddress / PAGE_SIZE;
      forall p | 0 <= p < BITS ensures InUse(p) { assert old(InUse(p)); }
      ghost var f := Abs();
      ReleaseRange(LOW_MEMORY / PAGE_SIZE, total);
      assert forall p :: 0 <= p < BITS ==> Abs().bits[p] == InUse(p) && f.bits[p];
    }

    /** With a memory map: the end of memory first, then the available regions. */
    method InitFromMap(info: BootInfo)
      requires Shape() && AllSet() && info.MemoryMap?
      modifies this, bitmap
      ensures Shape() && total == TotalPages(info) && OnlyOfferedFree(info)
    {
      maxAddress := FindEnd(info.regions);
      var pages := (maxAddress / PAGE_SIZE) % UINT32_SIZE;
      total := if pages > BITS then BITS else pages;
      forall p | 0 <= p < BITS ensures InUse(p) { assert old(InUse(p)); }
      ghost var f := Abs();
      ReleaseRegions(info.regions);
      assert forall p :: 0 <= p < BITS ==> Abs().bits[p] == InUse(p) && f.bits[p];
    }

    /**
     A managed frame is free after pmm_init exactly when it was offered and is neither frame 0
     nor part of the kernel.
     */
    method Init(info: BootInfo, kernelStart: nat, kernelEnd: nat)
      requires Shape() && kernelStart < UINT32_SIZE && kernelEnd <= UINT32_SIZE
      modifies this, bitmap
      ensures Valid() && total == TotalPages(info)
      ensures forall p :: 0 <= p < BITS ==> (Abs().bits[p] <==> !FreeAtBoot(info, kernelStart, kernelEnd, p))
    {
      FillBitmap();
      if info.Sizes? { InitFromSizes(info); } else { InitFromMap(info); }
      ghost var f := Abs();
      ReserveRange(0, PAGE_SIZE);
      assert forall p :: Touches(0, PAGE_SIZE, p) <==> p == 0;
      ReserveRange(kernelStart, kernelEnd);
      CountUsed();
    }

    method AllocPage() returns (a: nat)
      requires Valid()
      modifies this, bitmap
      ensures Valid() && Abs() == Alloc(old(Abs())) && a == AllocResult(old(Abs())) && maxAddress == old(maxAddress)
    {
      ghost var f := Abs();
      var page := 0;
      while page < total
        invariant Valid() && Abs() == f && page <= total && FirstFree(f, 0) == FirstFree(f, page)
        invariant total == old(total) && maxAddress == old(maxAddress)
      {
        var taken := BitmapTest(page);
        if !taken {
          CountMark(f.bits, total, page, true);
          BitmapSet(page);
          used := used + 1;
          assert Abs() == Mark(f, page, true);
          return AddressOf(page);
        }
        page := page + 1;
      }
      return NULL;
    }

    method FreePage(a: nat)
      requires Valid() && a < UINT32_SIZE
      modifies this, bitmap
      ensures Valid() && Abs() == Free(old(Abs()), a) && maxAddress == old(maxAddress)
    {
      ghost var f := Abs();
      var page := a / PAGE_SIZE;
      var taken := BitmapTest(page);
      if page < total && taken {
        CountMark(f.bits, total, page, false);
        BitmapClear(page);
        used := used - 1;
        assert Abs() == Mark(f, page, false);
      }
    }

    method MarkPageUsed(a: nat)
      requires Valid() && a < UINT32_SIZE
      modifies this, bitmap
      ensures Valid() && Abs() == MarkUsed(old(Abs()), a) && maxAddress == old(maxAddress)
    {
      ghost var f := Abs();
      var page := a / PAGE_SIZE;
      var taken := BitmapTest(page);
      if page < total && !taken {
        CountMark(f.bits, total, page, true);
        BitmapSet(page);
        used := used + 1;
        assert Abs() == Mark(f, page, true);
      }
    }
  }

  lemma AllOnes(bit: nat)
    requires bit < 8
    ensures BitOf(0xFF, bit)
  {
  }

  // ---------------------------------------------------------------------------
  // The heap arena
  // ---------------------------------------------------------------------------

  const HEAP_PAGES: nat := 1024

  /** Frames [first, first + n) are taken, all else is as before. */
  ghost predicate Carved(f: Frames, g: Frames, first: nat, n: nat) {
    && g.total == f.total && |g.bits| == |f.bits| && first + n <= f.total <= |f.bits|
    && (forall p :: first <= p < first + n ==> !f.bits[p] && g.bits[p])
    && (forall p :: 0 <= p < |f.bits| && !(first <= p < first + n) ==> g.bits[p] == f.bits[p])
  }

  lemma NextFrame(last: nat, q: nat)
    requires last < q < ADDRESSABLE
    ensures AddressOf(q) != NULL && (AddressOf(q) == (AddressOf(last) + PAGE_SIZE) % UINT32_SIZE <==> q == last + 1)
  {
  }

  lemma CarvedMore(f: Frames, g: Frames, first: nat, n: nat)
    requires WellFormed(f) && Carved(f, g, first, n) && FirstFree(g, 0) == first + n && first + n < f.total
    ensures Carved(f, Alloc(g), first, n + 1)
  {
  }

  /** The loop of the carve-out: a frame that does not follow the last one goes back, by its address. */
  function CarveOn(f: Frames, prev: nat, got: nat, limit: nat): (r: (Frames, nat))
    requires WellFormed(f) && got <= limit
    ensures WellFormed(r.0) && got <= r.1 <= limit
    decreases limit - got
  {
    var p, g := AllocResult(f), Alloc(f);
    if got == limit then (f, got)
    else if p == NULL then (g, got)
    else if p != (prev + PAGE_SIZE) % UINT32_SIZE then (Free(g, p), got)
    else CarveOn(g, p, got + 1, limit)
  }

  /** kmain's carve-out: the frames it leaves and how many it got. */
  function Carve(f: Frames, limit: nat): (r: (Frames, nat))
    requires WellFormed(f) && limit > 0
  {
    CarveOn(Alloc(f), AllocResult(f), if AllocResult(f) != NULL then 1 else 0, limit)
  }

  method CarveArena(pmm: Manager) returns (start: nat, got: nat)
    requires pmm.Valid()
    modifies pmm, pmm.bitmap
    ensures pmm.Valid() && (pmm.Abs(), got) == Carve(old(pmm.Abs()), HEAP_PAGES) && start == AllocResult(old(pmm.Abs()))
  {
    start := pmm.AllocPage();
    got := ExtendRun(pmm, start, if start != NULL then 1 else 0, HEAP_PAGES);
  }

  method ExtendRun(pmm: Manager, start: nat, first: nat, limit: nat) returns (got: nat)
    requires pmm.Valid() && first <= limit
    modifies pmm, pmm.bitmap
    ensures pmm.Valid() && (pmm.Abs(), got) == CarveOn(old(pmm.Abs()), start, first, limit)
  {
    ghost var goal := CarveOn(pmm.Abs(), start, first, limit);
    got := first;
    var prev: nat := start;
    while got < limit
      invariant got <= limit && pmm.Valid() && CarveOn(pmm.Abs(), prev, got, limit) == goal
    {
      ghost var f := pmm.Abs();
      var p := OneMore(pmm, prev);
      CarveStep(f, prev, got, got + 1, limit);
      if p == NULL { break; }
      prev := p;
      got := got + 1;
    }
  }

  /** One turn of the loop: the address of the next frame, or NULL if there is none or it lies elsewhere. */
  method OneMore(pmm: Manager, prev: nat) returns (p: nat)
    requires pmm.Valid()
    modifies pmm, pmm.bitmap
    ensures pmm.Valid()
    ensures
      var f := old(pmm.Abs());
      var a := AllocResult(f);
      if a == NULL then p == NULL && pmm.Abs() == Alloc(f)
      else if a != (prev + PAGE_SIZE) % UINT32_SIZE then p == NULL && pmm.Abs() == Free(Alloc(f), a)
      else p == a && pmm.Abs() == Alloc(f)
  {
    p := pmm.AllocPage();
    if p == NULL || p != (prev + PAGE_SIZE) % UINT32_SIZE {
      if p != NULL { pmm.FreePage(p); }
      p := NULL;
    }
  }

  /**
   The carve-out took the free frames from `first` on, up to the limit or to the first that is
   not free, and no others.
   */
  ghost predicate IsRun(f: Frames, r: (Frames, nat), first: nat, limit: nat) {
    && 0 < r.1 <= limit && Carved(f, r.0, first, r.1)
    && (r.1 < limit && first + r.1 < f.total ==> f.bits[first + r.1])
  }

  lemma CarveStep(g: Frames, prev: nat, n: nat, next: nat, limit: nat)
    requires WellFormed(g) && n < limit && next == n + 1
    ensures
      var p := AllocResult(g);
      CarveOn(g, prev, n, limit) ==
      if p == NULL then (Alloc(g), n)
      else if p != (prev + PAGE_SIZE) % UINT32_SIZE then (Free(Alloc(g), p), n)
      else CarveOn(Alloc(g), p, next, limit)
  {
  }

  /** Every frame the loop is offered from `at` on, at most `left` of them, lies below 4 GiB. */
  predicate StaysBelow(f: Frames, at: nat, left: nat)
    requires WellFormed(f) && at <= f.total
    decreases left
  {
    || left == 0
    || (var q := FirstFree(f, at);
        q == f.total || (q < ADDRESSABLE && (q > at || StaysBelow(f, at + 1, left - 1))))
  }

  /** On a machine with at most 4 GiB it always does. */
  lemma {:induction false} SmallMachine(f: Frames, at: nat, left: nat)
    requires WellFormed(f) && at <= f.total <= ADDRESSABLE
    ensures StaysBelow(f, at, left)
    decreases left
  {
    if left > 0 && FirstFree(f, at) == at < f.total { SmallMachine(f, at + 1, left - 1); }
  }

  /** The loop is offered the first free frame after the run so far. */
  lemma NextOffer(f: Frames, g: Frames, first: nat, n: nat)
    requires WellFormed(f) && Carved(f, g, first, n) && forall k :: 0 <= k < first ==> f.bits[k]
    ensures WellFormed(g) && FirstFree(g, 0) == FirstFree(f, first + n)
  {
    var q, r := FirstFree(g, 0), FirstFree(f, first + n);
    assert forall k :: 0 <= k < first + n ==> g.bits[k];
    assert q >= first + n;
    assert q < f.total ==> g.bits[q] == f.bits[q];
    assert r < f.total ==> g.bits[r] == f.bits[r];
  }

  /** What the loop takes above 4 GiB it never gives back. */
  lemma {:induction false} HighStays(g: Frames, prev: nat, n: nat, limit: nat, q: nat)
    requires WellFormed(g) && n <= limit && ADDRESSABLE <= q < |g.bits| && g.bits[q]
    ensures |CarveOn(g, prev, n, limit).0.bits| == |g.bits| && CarveOn(g, prev, n, limit).0.bits[q]
    decreases limit - n
  {
    if n < limit {
      CarveStep(g, prev, n, n + 1, limit);
      var p := AllocResult(g);
      if p != NULL && p == (prev + PAGE_SIZE) % UINT32_SIZE { HighStays(Alloc(g), p, n + 1, limit, q); }
    }
  }

  /** The loop is offered a frame above 4 GiB: what it leaves is no run. */
  lemma HighIsNoRun(f: Frames, g: Frames, first: nat, prev: nat, n: nat, limit: nat)
    requires WellFormed(f) && WellFormed(g) && 0 < n < limit && Carved(f, g, first, n) && first + n <= ADDRESSABLE
    requires forall k :: 0 <= k < first ==> f.bits[k]
    requires ADDRESSABLE <= FirstFree(g, 0) < f.total
    ensures !IsRun(f, CarveOn(g, prev, n, limit), first, limit)
  {
    var q, r := FirstFree(g, 0), CarveOn(g, prev, n, limit);
    NextOffer(f, g, first, n);
    CarveStep(g, prev, n, n + 1, limit);
    AddressNamesFrame(q);
    var p := AllocResult(g);
    if p != NULL && p == (prev + PAGE_SIZE) % UINT32_SIZE { HighStays(Alloc(g), p, n + 1, limit, q); }
    OutsideIsNoRun(f, r, first, n, limit, q);
  }

  lemma OutsideIsNoRun(f: Frames, r: (Frames, nat), first: nat, n: nat, limit: nat, q: nat)
    requires first + n <= q < |f.bits| == |r.0.bits| && !f.bits[q] && r.0.bits[q]
    requires if q > first + n then f.bits[first + n] else r.1 == n
    ensures !IsRun(f, r, first, limit)
  {
  }

  lemma {:induction false} CarveOnIsRun(f: Frames, g: Frames, first: nat, prev: nat, n: nat, limit: nat)
    requires WellFormed(f) && WellFormed(g) && 0 < n <= limit && Carved(f, g, first, n) && first + n <= ADDRESSABLE
    requires prev == AddressOf(first + n - 1) && forall k :: 0 <= k < first ==> f.bits[k]
    ensures RunIffBelow(f, CarveOn(g, prev, n, limit), first, first + n, limit, limit - n)
    decreases limit - n
  {
    if n < limit {
      NextOffer(f, g, first, n);
      var q := FirstFree(g, 0);
      if ADDRESSABLE <= q < f.total {
        HighIsNoRun(f, g, first, prev, n, limit);
      } else if q == first + n < f.total {
        RunGoesOn(f, g, first, prev, n, n + 1, limit);
        CarveOnIsRun(f, Alloc(g), first, AllocResult(g), n + 1, limit);
        StaysStep(f, q, q + 1, limit - n, limit - n - 1);
      } else {
        RunEnds(f, g, first, prev, n, limit);
      }
    }
  }

  /** What the loop leaves is a run exactly if the frames it has still to be offered lie below 4 GiB. */
  ghost predicate RunIffBelow(f: Frames, r: (Frames, nat), first: nat, at: nat, limit: nat, left: nat)
    requires WellFormed(f) && at <= f.total
  {
    IsRun(f, r, first, limit) <==> StaysBelow(f, at, left)
  }

  lemma StaysStep(f: Frames, at: nat, next: nat, left: nat, rest: nat)
    requires WellFormed(f) && next == at + 1 && rest + 1 == left
    requires at < f.total && at < ADDRESSABLE && !f.bits[at]
    ensures StaysBelow(f, at, left) <==> StaysBelow(f, next, rest)
  {
    FirstFreeIs(f, at, at);
  }

  /** The next frame follows the run and extends it. */
  lemma RunGoesOn(f: Frames, g: Frames, first: nat, prev: nat, n: nat, next: nat, limit: nat)
    requires WellFormed(f) && WellFormed(g) && 0 < n < limit && Carved(f, g, first, n) && next == n + 1
    requires prev == AddressOf(first + n - 1) && FirstFree(g, 0) == first + n < f.total && first + n < ADDRESSABLE
    ensures Carved(f, Alloc(g), first, next) && AllocResult(g) == AddressOf(first + n)
    ensures CarveOn(g, prev, n, limit) == CarveOn(Alloc(g), AllocResult(g), next, limit)
  {
    NextFrame(first + n - 1, first + n);
    CarvedMore(f, g, first, n);
    CarveStep(g, prev, n, next, limit);
  }

  /** There is no further frame, or it lies elsewhere and goes back. */
  lemma RunEnds(f: Frames, g: Frames, first: nat, prev: nat, n: nat, limit: nat)
    requires WellFormed(f) && WellFormed(g) && 0 < n < limit && Carved(f, g, first, n) && first + n <= ADDRESSABLE
    requires prev == AddressOf(first + n - 1) && FirstFree(g, 0) == FirstFree(f, first + n)
    requires FirstFree(g, 0) == f.total || first + n < FirstFree(g, 0) < ADDRESSABLE
    ensures IsRun(f, CarveOn(g, prev, n, limit), first, limit) && StaysBelow(f, first + n, limit - n)
  {
    var q := FirstFree(g, 0);
    CarveStep(g, prev, n, n + 1, limit);
    if q < f.total {
      NextFrame(first + n - 1, q);
      FreeUndoesAlloc(g);
    }
  }

  /**
   The carve-out takes the lowest free frame and the free frames that follow it directly, as many
   as there are up to the limit, and changes nothing else, if and only if every frame it is
   offered on the way lies below 4 GiB.
   */
  lemma CarveIsRun(f: Frames, limit: nat)
    requires WellFormed(f) && 0 < f.total && f.bits[0] && limit > 0
    ensures
      var first, start := FirstFree(f, 0), AllocResult(f);
      if first == f.total then start == NULL && Carve(f, limit) == (f, 0)
      else
        PageOf(start) == first && IsRun(f, Carve(f, limit), first, limit)
        <==> first < ADDRESSABLE && StaysBelow(f, first + 1, limit - 1)
  {
    var first := FirstFree(f, 0);
    AddressNamesFrame(first);
    if first == f.total {
      CarveStep(f, NULL, 0, 1, limit);
    } else if first < ADDRESSABLE {
      FirstCarved(f);
      CarveOnIsRun(f, Alloc(f), first, AllocResult(f), 1, limit);
    }
  }

  lemma FirstCarved(f: Frames)
    requires WellFormed(f) && 0 < f.total && f.bits[0] && FirstFree(f, 0) < f.total && FirstFree(f, 0) < ADDRESSABLE
    ensures
      var first := FirstFree(f, 0);
      AllocResult(f) != NULL && AllocResult(f) == first * PAGE_SIZE && Carved(f, Alloc(f), first, 1)
  {
    AddressNamesFrame(FirstFree(f, 0));
  }

  /** Free are the second to last frame below 4 GiB and one above: another frame, which is in use, is given back. */
  lemma CarveFreesAnother(f: Frames, limit: nat, high: nat)
    requires |f.bits| == BITS && high == ADDRESSABLE + 5 && f.total == high + 1 && limit > 1
    requires forall p :: 0 <= p < BITS ==> (f.bits[p] <==> p != ADDRESSABLE - 2 && p != high)
    ensures
      var g := Carve(f, limit).0;
      f.bits[5] && !g.bits[5] && g.bits[high]
  {
    var first := ADDRESSABLE - 2;
    FirstFreeIs(f, 0, first);
    FirstCarved(f);
    var g := Alloc(f);
    FirstFreeIs(g, 0, high);
    AddressNamesFrame(high);
    CarveStep(g, AllocResult(f), 1, 2, limit);
  }

  /** What kmain keeps for the heap. */
  ghost predicate ArenaIs(f: Frames, limit: nat, first: nat, n: nat, g: Frames) {
    && WellFormed(f) && 0 < f.total && f.bits[0] && limit > 0 && Carve(f, limit) == (g, n)
    && first == FirstFree(f, 0) < f.total && first < ADDRESSABLE && StaysBelow(f, first + 1, limit - 1)
  }

  lemma ArenaFacts(f: Frames, limit: nat, first: nat, n: nat, g: Frames)
    requires ArenaIs(f, limit, first, n, g)
    ensures 0 < n && Carved(f, g, first, n) && first + n <= ADDRESSABLE && g.bits[0]
    ensures AllocResult(f) == first * PAGE_SIZE
    ensures WellFormed(g) && Accounted(Client(g, {}), g.bits)
  {
    CarveIsRun(f, limit);
    FirstCarved(f);
    BelowAllTheWay(f, first + 1, limit - 1, n - 1);
  }

  /** A run of free frames the loop was offered ends below 4 GiB. */
  lemma {:induction false} BelowAllTheWay(f: Frames, at: nat, left: nat, n: nat)
    requires WellFormed(f) && at <= ADDRESSABLE && at + n <= f.total && n <= left && StaysBelow(f, at, left)
    requires forall p :: at <= p < at + n ==> !f.bits[p]
    ensures at + n <= ADDRESSABLE
    decreases n
  {
    if n > 0 {
      assert FirstFree(f, at) == at;
      BelowAllTheWay(f, at + 1, left - 1, n - 1);
    }
  }

  /**
   After the carve-out and any run of honest clients whose frames lay below 4 GiB, the next frame
   handed out meets byte a of the arena if and only if it lies above 4 GiB and aliases its frame.
   */
  lemma ArenaIsNeverHandedOut(f: Frames, limit: nat, first: nat, n: nat, g: Frames, rs: seq<Request>, a: nat)
    requires ArenaIs(f, limit, first, n, g) && AllHonest(Client(g, {}), rs) && AllLow(Client(g, {}), rs)
    requires first * PAGE_SIZE <= a < (first + n) * PAGE_SIZE
    ensures
      var d := ServeAll(Client(g, {}), rs).f;
      var r, q := AllocResult(d), FirstFree(d, 0);
      r != NULL && r <= a < r + PAGE_SIZE <==> q < d.total && q >= ADDRESSABLE && q % ADDRESSABLE == PageOf(a)
  {
    ArenaFacts(f, limit, first, n, g);
    NeverHandedOut(Client(g, {}), g.bits, rs);
    InArena(first, n, a);
    var d := ServeAll(Client(g, {}), rs).f;
    SameTotal(Client(g, {}), rs);
    AddressNamesFrame(FirstFree(d, 0));
    Meets(d, a);
  }

  lemma InArena(first: nat, n: nat, a: nat)
    requires first * PAGE_SIZE <= a < (first + n) * PAGE_SIZE
    ensures first <= PageOf(a) < first + n
  {
  }

  /** A byte lies in the frame handed out exactly if its address is in that frame. */
  lemma Meets(f: Frames, a: nat)
    requires WellFormed(f)
    ensures AllocResult(f) <= a < AllocResult(f) + PAGE_SIZE <==> PageOf(a) == PageOf(AllocResult(f))
  {
    AddressIsAligned(FirstFree(f, 0));
  }

  lemma AddressIsAligned(page: nat)
    ensures AddressOf(page) % PAGE_SIZE == 0 && AddressOf(page) == PageOf(AddressOf(page)) * PAGE_SIZE
  {
    AddressNamesFrame(page);
    var r := page % ADDRESSABLE;
    assert AddressOf(page) == r * PAGE_SIZE by {
      assert page * PAGE_SIZE == page / ADDRESSABLE * UINT32_SIZE + r * PAGE_SIZE;
      ModOfSum(page / ADDRESSABLE, r * PAGE_SIZE);
    }
  }
}
