/**
 The virtual memory manager as the kernel runs it: directory and table entries written in
 place, tables allocated on demand from the frame manager. The frame manager may hold frames
 above 4 GiB, whose 32-bit addresses name other frames.
 */
module Vmm {
  import opened Arithmetic
  import opened Wrappers
  import opened PmmModel
  import opened Pmm
  import opened VmmModel
  import opened VmmRegion

  class Directory {
    const entries: array<nat>
    const tables: array<nat>
    const pmm: Manager
    var mem: map<nat, seq<nat>>

    ghost function Abs(): Space
      reads this, entries, tables
    {
      Space(entries[..], tables[..], mem)
    }

    /** The frame manager is sound and frame 0 is reserved. */
    ghost predicate Frames()
      reads this, pmm, pmm.bitmap
    {
      pmm.Valid() && 0 < pmm.total && pmm.Abs().bits[0]
    }

    /** The two levels agree, and the tables sit in frames that are in use. */
    ghost predicate Valid()
      reads this, entries, tables, pmm, pmm.bitmap
    {
      && Frames() && entries != tables && Consistent(Abs())
      && forall i :: 0 <= i < ENTRIES && tables[i] != NULL ==> InUse(pmm.Abs(), tables[i])
    }

    /** Slot i has no table, and the address of the next frame is that of another table. */
    ghost predicate Clashes(i: nat)
      requires pmm.Valid() && i < tables.Length
      reads this, tables, pmm, pmm.bitmap
    {
      tables[i] == NULL && AllocResult(pmm.Abs()) != NULL && AllocResult(pmm.Abs()) in tables[..]
    }

    /** An empty directory. */
    constructor (manager: Manager)
      requires manager.Valid() && 0 < manager.total && manager.Abs().bits[0]
      ensures Valid() && pmm == manager && fresh(entries) && fresh(tables)
      ensures (forall i :: 0 <= i < ENTRIES ==> tables[i] == NULL) && forall q :: 0 <= q < PAGES ==> Flat(Abs())[q] == 0
    {
      entries := new nat[ENTRIES](i => 0);
      tables := new nat[ENTRIES](i => NULL);
      pmm := manager;
      mem := map[];
      new;
      forall i | 0 <= i < ENTRIES ensures VmmModel.GoodSlot(Abs(), i) { }
      assert Consistent(Abs());
    }

    /**
     The table of an address, made if it is missing and asked for; NULL if there is none. The
     directory stays sound exactly if the new table does not fall on another one.
     */
    method GetPageTable(virt: nat, create: bool) returns (pt: nat)
      requires Valid() && virt < UINT32_SIZE
      modifies this, entries, tables, pmm, pmm.bitmap
      ensures Frames() && pt == tables[PdIndex(virt)] && (pt != NULL ==> pt in mem && |mem[pt]| == ENTRIES)
      ensures Valid() <==> !create || !old(Clashes(PdIndex(virt)))
      ensures Valid() ==> Flat(Abs()) == old(Flat(Abs()))
      ensures
        var i := PdIndex(virt);
        if old(tables[i]) != NULL || !create then Abs() == old(Abs()) && pmm.Abs() == old(pmm.Abs())
        else pmm.Abs() == Alloc(old(pmm.Abs())) && tables[..] == old(tables[..])[i := AllocResult(old(pmm.Abs()))]
      ensures pmm.maxAddress == old(pmm.maxAddress)
    {
      var i := PdIndex(virt);
      assert VmmModel.GoodSlot(Abs(), i);
      if tables[i] != NULL { return tables[i]; }
      if !create { return NULL; }
      pt := MakeTable(i);
    }

    /** A frame for the missing table of slot i, if there is one. */
    method MakeTable(i: nat) returns (pt: nat)
      requires Valid() && i < ENTRIES && tables[i] == NULL
      modifies this, entries, tables, pmm, pmm.bitmap
      ensures Frames() && pt == tables[i] && (pt != NULL ==> pt in mem && |mem[pt]| == ENTRIES)
      ensures Valid() <==> !old(Clashes(i))
      ensures Valid() ==> Flat(Abs()) == old(Flat(Abs()))
      ensures pmm.Abs() == Alloc(old(pmm.Abs())) && tables[..] == old(tables[..])[i := AllocResult(old(pmm.Abs()))]
      ensures pmm.maxAddress == old(pmm.maxAddress)
    {
      ghost var ts := tables[..];
      NextAddress(pmm.Abs());
      pt := pmm.AllocPage();
      if pt == NULL {
        assert tables[..] == ts[i := NULL];
      } else {
        HangTable(i, pt);
      }
    }

    /** A cleared table at pt becomes the table of slot i; it must not be that of another slot. */
    method HangTable(i: nat, pt: nat)
      requires entries != tables && Consistent(Abs()) && i < ENTRIES && tables[i] == NULL
      requires pt != NULL && pt % PAGE_SIZE == 0 && pt < UINT32_SIZE
      modifies this, entries, tables
      ensures tables[..] == old(tables[..])[i := pt] && pt in mem && |mem[pt]| == ENTRIES
      ensures Consistent(Abs()) <==> pt !in old(tables[..])
      ensures Consistent(Abs()) ==> Flat(Abs()) == old(Flat(Abs()))
    {
      ghost var s := Abs();
      var zeros := ClearedTable();
      mem := mem[pt := zeros];
      tables[i] := pt;
      entries[i] := pt + TABLE_FLAGS;
      assert Abs() == WithTable(s, i, pt, zeros);
      if pt in s.tables {
        SharedIsInconsistent(s, i, pt, zeros);
      } else {
        TableChangesNothing(s, i, pt, zeros);
      }
    }

    method ClearedTable() returns (zeros: seq<nat>)
      ensures |zeros| == ENTRIES && forall k :: 0 <= k < ENTRIES ==> zeros[k] == 0
    {
      var t := new nat[ENTRIES];
      for i := 0 to ENTRIES
        invariant forall k :: 0 <= k < i ==> t[k] == 0
      {
        t[i] := 0;
      }
      zeros := t[..];
    }

    method WriteEntry(virt: nat, pt: nat, e: nat)
      requires virt < UINT32_SIZE && tables.Length == ENTRIES && pt == tables[PdIndex(virt)]
      requires pt != NULL && pt in mem && |mem[pt]| == ENTRIES
      modifies `mem
      ensures Valid() <==> old(Valid())
      ensures Valid() ==> PageOf(virt) < PAGES && Flat(Abs()) == old(Flat(Abs()))[PageOf(virt) := e]
    {
      Indices(virt);
      ghost var s := Abs();
      var page: seq<nat> := mem[pt][PtIndex(virt) := e];
      mem := mem[pt := page];
      SameSoundness(s, pt, page);
      if Consistent(s) {
        EntryChangesOnePage(s, PageOf(virt), e);
        assert Abs() == WithEntry(s, PageOf(virt), e);
      }
    }

    /**
     It fails exactly if a table is needed and no frame, or a frame whose address is null, is
     next. The directory stays sound exactly if the table made for it does not fall on another
     one, and then exactly one page changes.
     */
    method MapPage(virt: nat, phys: nat, flags: nat) returns (ok: bool)
      requires Valid() && virt < UINT32_SIZE
      modifies this, entries, tables, pmm, pmm.bitmap
      ensures pmm.maxAddress == old(pmm.maxAddress) && PageOf(virt) < PAGES
      ensures ok <==> old(tables[PdIndex(virt)]) != NULL || AllocResult(old(pmm.Abs())) != NULL
      ensures Valid() <==> !old(Clashes(PdIndex(virt)))
      ensures Valid() ==>
                Flat(Abs()) == if ok then old(Flat(Abs()))[PageOf(virt) := Pte(phys, flags)] else old(Flat(Abs()))
      ensures Frames() && Taken(old(pmm.Abs()), old(tables[..]), PdIndex(virt), pmm.Abs(), tables[..])
    {
      Indices(virt);
      var pt := GetPageTable(virt, true);
      if pt == NULL { return false; }
      WriteEntry(virt, pt, Pte(phys, flags));
      ok := true;
    }

    method UnmapPage(virt: nat)
      requires Valid() && virt < UINT32_SIZE
      modifies this, entries, tables, pmm, pmm.bitmap
      ensures Valid() && pmm.Abs() == old(pmm.Abs())
      ensures PageOf(virt) < PAGES && Flat(Abs()) == old(Flat(Abs()))[PageOf(virt) := 0]
    {
      ghost var s := Abs();
      Indices(virt);
      var pt := GetPageTable(virt, false);
      if pt == NULL { return; }
      WriteEntry(virt, pt, 0);
    }

    /** The answer is that of the hardware, with 0 for "not mapped". */
    method GetPhysical(virt: nat) returns (r: nat)
      requires Valid() && virt < UINT32_SIZE
      modifies this, entries, tables, pmm, pmm.bitmap
      ensures Valid() && Abs() == old(Abs())
      ensures r == match HardwareWalk(Abs(), virt) case Some(a) => a case None => 0
    {
      WalksAgree(Abs(), virt);
      var pt := GetPageTable(virt, false);
      if pt == NULL { return 0; }
      assert VmmModel.GoodSlot(Abs(), PdIndex(virt));
      var e := mem[pt][PtIndex(virt)];
      if !IsPresent(e) { return 0; }
      return PageBase(e) + Offset(virt);
    }

    /** The loop of the region routines stands before page q, and the tables still to be made get frames below 4 GiB. */
    ghost predicate At(plan: Plan, q: nat, virt: nat, phys: nat)
      reads this, entries, tables, pmm, pmm.bitmap
      ensures At(plan, q, virt, phys) ==> Valid() && GoodPlan(plan)
    {
      && Valid() && Standing(plan, q, virt, phys, Flat(Abs()), tables[..], FreeCount(pmm.Abs()))
      && EnoughLow(pmm.Abs(), Remaining(plan, q))
    }

    /** One turn of the region loops. */
    method MapNext(virt: nat, phys: nat, flags: nat, ghost plan: Plan, ghost q: nat)
      requires At(plan, q, virt, phys) && virt < plan.stop * PAGE_SIZE && flags == plan.flags
      modifies this, entries, tables, pmm, pmm.bitmap
      ensures At(plan, q + 1, virt + PAGE_SIZE, (phys + PAGE_SIZE) % UINT32_SIZE)
      ensures pmm.maxAddress == old(pmm.maxAddress)
    {
      BeforeEnd(plan, q, virt, plan.stop * PAGE_SIZE);
      PageIndices(q, virt);
      ghost var m, ts, f := Flat(Abs()), tables[..], pmm.Abs();
      if tables[q / ENTRIES] == NULL { TableIsLow(plan, q, virt, phys, m, ts, f); }
      LowTakes(f, ts, q / ENTRIES);
      var ok := MapPage(virt, phys, flags);
      TurnDone(plan, q, q + 1, virt, phys, m, ts, f, Flat(Abs()), tables[..], pmm.Abs(), ok);
    }

    /**
     vmm_map_region, with enough frames below 4 GiB for its tables or none above. A page from that
     of `virt` up to the computed end gets its frame exactly when its table was there or the free
     frames cover the tables missing up to it; every other page keeps what it had.
     */
    method MapRegion(virt: nat, phys: nat, size: nat, flags: nat)
      requires Valid() && virt < UINT32_SIZE && phys < UINT32_SIZE && size < UINT32_SIZE
      requires EnoughLow(pmm.Abs(), TablesNeeded(tables[..], virt, size))
      modifies this, entries, tables, pmm, pmm.bitmap
      ensures Valid() && pmm.maxAddress == old(pmm.maxAddress)
      ensures
        var plan := PlanFor(old(Flat(Abs())), old(tables[..]), FreeCount(old(pmm.Abs())), virt, phys, size, flags);
        Mapped(plan, Flat(Abs()))
      ensures
        0 < size && virt + size + PAGE_SIZE - 1 < UINT32_SIZE && IsPresent(flags)
        && TablesNeeded(old(tables[..]), virt, size) <= FreeCount(old(pmm.Abs())) ==>
          Translated(old(Abs()), Abs(), virt, phys, size)
    {
      ghost var plan := PlanFor(Flat(Abs()), tables[..], FreeCount(pmm.Abs()), virt, phys, size, flags);
      var v, p := PageBase(virt), PageBase(phys);
      var end := PageBase((virt + size + PAGE_SIZE - 1) % UINT32_SIZE);
      Start(Flat(Abs()), tables[..], FreeCount(pmm.Abs()), virt, phys, size, flags);
      AllRemaining(Flat(Abs()), tables[..], FreeCount(pmm.Abs()), virt, phys, size, flags);
      MapPages(v, p, end, flags, plan);
      if 0 < size && virt + size + PAGE_SIZE - 1 < UINT32_SIZE && IsPresent(flags)
         && TablesNeeded(old(tables[..]), virt, size) <= plan.free {
        RegionTranslates(old(Abs()), Abs(), plan.free, virt, phys, size, flags);
      }
    }

    /** The loop of the region routines. */
    method MapPages(v0: nat, p0: nat, end: nat, flags: nat, ghost plan: Plan)
      requires At(plan, plan.first, v0, p0) && end == plan.stop * PAGE_SIZE && flags == plan.flags
      modifies this, entries, tables, pmm, pmm.bitmap
      ensures Valid() && pmm.maxAddress == old(pmm.maxAddress)
      ensures Mapped(plan, Flat(Abs()))
    {
      var v: nat, p: nat := v0, p0;
      ghost var q: nat := plan.first;
      while v < end
        invariant At(plan, q, v, p) && pmm.maxAddress == old(pmm.maxAddress)
        decreases end - v
      {
        MapNext(v, p, flags, plan, q);
        v, p, q := v + PAGE_SIZE, (p + PAGE_SIZE) % UINT32_SIZE, q + 1;
      }
      Ended(plan, q, v, p);
    }

    lemma Ended(plan: Plan, q: nat, virt: nat, phys: nat)
      requires At(plan, q, virt, phys) && virt >= plan.stop * PAGE_SIZE
      ensures Mapped(plan, Flat(Abs()))
    {
      AtEnd(plan, q, virt, phys, plan.stop * PAGE_SIZE, Flat(Abs()), tables[..], FreeCount(pmm.Abs()));
    }

    /** vmm_identity_map_region: the same loop with the address as its own frame. */
    method IdentityMapRegion(start: nat, size: nat, flags: nat)
      requires Valid() && start < UINT32_SIZE && size < UINT32_SIZE
      requires EnoughLow(pmm.Abs(), TablesNeeded(tables[..], start, size))
      modifies this, entries, tables, pmm, pmm.bitmap
      ensures Valid() && pmm.maxAddress == old(pmm.maxAddress)
      ensures
        var plan := PlanFor(old(Flat(Abs())), old(tables[..]), FreeCount(old(pmm.Abs())), start, start, size, flags);
        Mapped(plan, Flat(Abs()))
    {
      MapRegion(start, start, size, flags);
    }
  }

  // ---------------------------------------------------------------------------
  // Frames for tables
  // ---------------------------------------------------------------------------

  /** The frame an address names is managed and in use. */
  predicate InUse(f: PmmModel.Frames, a: nat)
    requires PmmModel.WellFormed(f)
  {
    PageOf(a) < f.total && f.bits[PageOf(a)]
  }

  /** What mapping a page takes: nothing if slot i has a table, else the next frame, whose address becomes the table. */
  ghost predicate Taken(f: PmmModel.Frames, ts: seq<nat>, i: nat, g: PmmModel.Frames, tsNow: seq<nat>)
    requires PmmModel.WellFormed(f) && i < |ts|
  {
    if ts[i] != NULL then g == f && tsNow == ts else g == Alloc(f) && tsNow == ts[i := AllocResult(f)]
  }

  /**
   The address handed out is page-aligned; once it is handed out its frame is in use, before only
   if it aliases one.
   */
  lemma NextAddress(f: PmmModel.Frames)
    requires PmmModel.WellFormed(f) && 0 < f.total && f.bits[0]
    ensures AllocResult(f) % PAGE_SIZE == 0 && AllocResult(f) < UINT32_SIZE
    ensures Alloc(f).bits[0] && Alloc(f).total == f.total
    ensures AllocResult(f) != NULL ==> InUse(Alloc(f), AllocResult(f))
    ensures AllocResult(f) != NULL ==> (InUse(f, AllocResult(f)) <==> !NextIsLow(f))
    ensures NextIsLow(f) ==> (AllocResult(f) == NULL <==> FirstFree(f, 0) == f.total)
  {
    var p := FirstFree(f, 0);
    AddressNamesFrame(p);
    AddressIsAligned(p);
  }

  /**
   With the next frame below 4 GiB, the table does not fall on another one, and the count of free
   frames tells whether there is one.
   */
  lemma LowTakes(f: PmmModel.Frames, ts: seq<nat>, i: nat)
    requires PmmModel.WellFormed(f) && 0 < f.total && f.bits[0] && i < |ts|
    requires forall k :: 0 <= k < |ts| && ts[k] != NULL ==> InUse(f, ts[k])
    requires ts[i] == NULL ==> NextIsLow(f)
    ensures ts[i] == NULL ==> (AllocResult(f) != NULL <==> FreeCount(f) > 0)
    ensures ts[i] == NULL && AllocResult(f) != NULL ==> AllocResult(f) !in ts && FreeCount(Alloc(f)) == FreeCount(f) - 1
    ensures ts[i] == NULL && AllocResult(f) == NULL ==> Alloc(f) == f && ts == ts[i := NULL]
  {
    NextAddress(f);
    AllocCosts(f);
  }

  /** What a turn of the region loops leaves. */
  lemma TurnDone(plan: Plan, q: nat, next: nat, v: nat, p: nat, m: seq<nat>, ts: seq<nat>, f: PmmModel.Frames,
                 now: seq<nat>, tsNow: seq<nat>, g: PmmModel.Frames, ok: bool)
    requires PmmModel.WellFormed(f) && PmmModel.WellFormed(g) && 0 < f.total && f.bits[0]
    requires Standing(plan, q, v, p, m, ts, FreeCount(f)) && q < plan.stop && next == q + 1
    requires EnoughLow(f, Remaining(plan, q)) && (ts[q / ENTRIES] == NULL ==> NextIsLow(f))
    requires forall k :: 0 <= k < |ts| && ts[k] != NULL ==> InUse(f, ts[k])
    requires ok <==> ts[q / ENTRIES] != NULL || AllocResult(f) != NULL
    requires Taken(f, ts, q / ENTRIES, g, tsNow) && now == if ok then m[q := Pte(p, plan.flags)] else m
    ensures Standing(plan, next, v + PAGE_SIZE, (p + PAGE_SIZE) % UINT32_SIZE, now, tsNow, FreeCount(g))
    ensures EnoughLow(g, Remaining(plan, next))
  {
    LowTakes(f, ts, q / ENTRIES);
    StillEnough(plan, q, next, v, p, m, ts, f, g);
    Advance(plan, q, next, v, p, m, ts, FreeCount(f), now, tsNow, FreeCount(g), ok);
  }

  lemma SharedIsInconsistent(s: Space, i: nat, pt: nat, zeros: seq<nat>)
    requires |s.entries| == |s.tables| == ENTRIES && i < ENTRIES && s.tables[i] == NULL && pt != NULL && pt in s.tables
    ensures !Consistent(WithTable(s, i, pt, zeros))
  {
    var r := WithTable(s, i, pt, zeros);
    var j :| 0 <= j < ENTRIES && s.tables[j] == pt;
    assert r.tables[i] == r.tables[j] == pt && i != j;
  }

  /** Rewriting a table page does not change whether the two levels agree. */
  lemma SameSoundness(s: Space, pt: nat, page: seq<nat>)
    requires pt in s.mem && |s.mem[pt]| == |page| == ENTRIES
    ensures Consistent(s) <==> Consistent(s.(mem := s.mem[pt := page]))
  {
    var r := s.(mem := s.mem[pt := page]);
    if |s.entries| == |s.tables| == ENTRIES {
      forall i | 0 <= i < ENTRIES ensures VmmModel.GoodSlot(s, i) <==> VmmModel.GoodSlot(r, i) { }
    }
  }

  // ---------------------------------------------------------------------------
  // Directories come and go
  // ---------------------------------------------------------------------------

  /** The lowest free frame and its neighbour are both free. */
  ghost predicate RoomForDirectory(f: PmmModel.Frames)
    requires PmmModel.WellFormed(f)
  {
    var p := FirstFree(f, 0);
    p + 1 < f.total && !f.bits[p + 1]
  }

  /**
   Only the last frame below 4 GiB is free: the address expected next wraps to 0, which is what a
   failed allocation returns.
   */
  ghost predicate OnlyLastFrame(f: PmmModel.Frames)
    requires PmmModel.WellFormed(f)
  {
    FirstFree(f, 0) == ADDRESSABLE - 1 < f.total && FirstFree(f, ADDRESSABLE) == f.total
  }

  /** The 32-bit addresses of the next two frames look like neighbours. */
  ghost predicate LooksContiguous(f: PmmModel.Frames)
    requires PmmModel.WellFormed(f)
  {
    var p, q := FirstFree(f, 0), FirstFree(Alloc(f), 0);
    && p < f.total && p % ADDRESSABLE != 0
    && (p % ADDRESSABLE + 1) % ADDRESSABLE == if q < f.total then q % ADDRESSABLE else 0
  }

  lemma FrameAddress(page: nat)
    ensures AddressOf(page) == page % ADDRESSABLE * PAGE_SIZE
  {
    AddressIsAligned(page);
    AddressNamesFrame(page);
  }

  lemma NextAddressOf(x: nat)
    requires x < ADDRESSABLE
    ensures (x * PAGE_SIZE + PAGE_SIZE) % UINT32_SIZE == (x + 1) % ADDRESSABLE * PAGE_SIZE
  {
    if x + 1 == ADDRESSABLE { assert x * PAGE_SIZE + PAGE_SIZE == UINT32_SIZE; }
  }

  /** The test for contiguity passes exactly then. */
  lemma TwoFrames(f: PmmModel.Frames)
    requires PmmModel.WellFormed(f)
    ensures AllocResult(f) != NULL && AllocResult(Alloc(f)) == (AllocResult(f) + PAGE_SIZE) % UINT32_SIZE
            <==> LooksContiguous(f)
  {
    var p, q := FirstFree(f, 0), FirstFree(Alloc(f), 0);
    FrameAddress(p);
    FrameAddress(q);
    NextAddressOf(p % ADDRESSABLE);
  }

  /** With both frames below 4 GiB, or absent, it means what it should, but for the wrap to 0. */
  lemma LowTwoFrames(f: PmmModel.Frames)
    requires PmmModel.WellFormed(f) && 0 < f.total && f.bits[0] && NextIsLow(f) && NextIsLow(Alloc(f))
    ensures LooksContiguous(f) <==> RoomForDirectory(f) || OnlyLastFrame(f)
  {
    if FirstFree(f, 0) < f.total { SecondFrame(f); }
  }

  /** The second allocation takes a later frame, and the next one exactly when that is free. */
  lemma SecondFrame(f: PmmModel.Frames)
    requires PmmModel.WellFormed(f) && FirstFree(f, 0) < f.total
    ensures
      var p, q := FirstFree(f, 0), FirstFree(Alloc(f), 0);
      q > p && q == FirstFree(f, p + 1) && (q == p + 1 < f.total <==> RoomForDirectory(f))
  {
    var p, g := FirstFree(f, 0), Alloc(f);
    var q, r := FirstFree(g, 0), FirstFree(f, p + 1);
    assert forall k :: 0 <= k <= p ==> g.bits[k];
    assert q < f.total ==> g.bits[q] == f.bits[q];
    assert r < f.total ==> g.bits[r] == f.bits[r];
  }

  /** Two allocations cost two frames, or as many as there are. */
  lemma TwoCost(f: PmmModel.Frames)
    requires PmmModel.WellFormed(f)
    ensures FreeCount(Alloc(Alloc(f))) == FreeCount(f) - Min(2, FreeCount(f))
    ensures FreeCount(Alloc(f)) == FreeCount(f) - Min(1, FreeCount(f))
    ensures RoomForDirectory(f) ==> FreeCount(f) >= 2
    ensures OnlyLastFrame(f) ==> FreeCount(f) == 1
  {
    AllocCosts(f);
    AllocCosts(Alloc(f));
    if FirstFree(f, 0) < f.total { SecondFrame(f); }
  }

  /** The frames vmm_create_directory takes, whatever comes of it: one if its address is null, else two. */
  ghost function AfterTwo(f: PmmModel.Frames): (g: PmmModel.Frames)
    requires PmmModel.WellFormed(f)
    ensures PmmModel.WellFormed(g) && g.total == f.total && |g.bits| == |f.bits|
  {
    if AllocResult(f) == NULL then Alloc(f) else Alloc(Alloc(f))
  }

  /** The two allocations and the test; the frames stay taken whatever its outcome. */
  method TakeTwo(pmm: Manager) returns (ok: bool, at: nat)
    requires pmm.Valid()
    modifies pmm, pmm.bitmap
    ensures pmm.Valid() && pmm.maxAddress == old(pmm.maxAddress)
    ensures pmm.Abs() == AfterTwo(old(pmm.Abs())) && at == AllocResult(old(pmm.Abs()))
    ensures ok <==> LooksContiguous(old(pmm.Abs()))
  {
    TwoFrames(pmm.Abs());
    at := pmm.AllocPage();
    if at == NULL { return false, at; }
    var second := pmm.AllocPage();
    ok := second == (at + PAGE_SIZE) % UINT32_SIZE;
  }

  /** The two frames named by `at` and its successor lie below 4 GiB and were free. */
  ghost predicate OwnFrames(f: PmmModel.Frames, at: nat)
    requires PmmModel.WellFormed(f)
  {
    var p := PageOf(at);
    p + 1 < ADDRESSABLE && p + 1 < f.total && !f.bits[p] && !f.bits[p + 1]
  }

  /** A directory has its frames to itself exactly if the lowest free frames are neighbours below 4 GiB. */
  lemma OwnFramesIff(f: PmmModel.Frames)
    requires PmmModel.WellFormed(f) && LooksContiguous(f)
    ensures OwnFrames(f, AllocResult(f)) <==> RoomForDirectory(f) && FirstFree(f, 0) + 1 < ADDRESSABLE
  {
    var p := FirstFree(f, 0);
    AddressNamesFrame(p);
    SecondFrame(f);
  }

  /** Free are frame 200 and one above 4 GiB: the directory's second page falls on frame 201, which is in use. */
  lemma DirectoryOverlaps(f: PmmModel.Frames, p: nat, high: nat)
    requires PmmModel.WellFormed(f) && p == 200 && high == ADDRESSABLE + 201 && f.total == high + 1
    requires forall k :: 0 <= k < f.total ==> (f.bits[k] <==> k != p && k != high)
    ensures LooksContiguous(f) && AllocResult(f) == p * PAGE_SIZE && f.bits[p + 1] && !OwnFrames(f, AllocResult(f))
  {
    FirstFreeIs(f, 0, p);
    FirstFreeIs(Alloc(f), 0, high);
    FrameAddress(p);
  }

  /**
   vmm_create_directory; null stands for failure, and then the one or two frames it got, if any,
   are lost.
   */
  method CreateDirectory(pmm: Manager) returns (d: Directory?, at: nat)
    requires pmm.Valid() && 0 < pmm.total && pmm.Abs().bits[0]
    modifies pmm, pmm.bitmap
    ensures pmm.Valid() && pmm.total == old(pmm.total) && pmm.maxAddress == old(pmm.maxAddress)
    ensures d != null <==> LooksContiguous(old(pmm.Abs()))
    ensures d != null ==> fresh(d) && fresh(d.entries) && fresh(d.tables) && d.pmm == pmm && d.Valid()
    ensures d != null ==> forall i :: 0 <= i < ENTRIES ==> d.tables[i] == NULL
    ensures d != null ==> forall q :: 0 <= q < PAGES ==> Flat(d.Abs())[q] == 0
    ensures pmm.Abs() == AfterTwo(old(pmm.Abs())) && at == AllocResult(old(pmm.Abs()))
    ensures d == null ==>
              var free := FreeCount(old(pmm.Abs()));
              FreeCount(pmm.Abs()) == free - Min(if at == NULL then 1 else 2, free)
  {
    TwoCost(pmm.Abs());
    NextAddress(pmm.Abs());
    NextAddress(Alloc(pmm.Abs()));
    var ok;
    ok, at := TakeTwo(pmm);
    d := null;
    if ok { d := new Directory(pmm); }
  }

  /** vmm_destroy_directory: the tables' frames and the first frame of the directory become free, and no others. */
  method DestroyDirectory(d: Directory, at: nat)
    requires d.Valid() && at < UINT32_SIZE
    modifies d.pmm, d.pmm.bitmap
    ensures d.pmm.Valid() && d.pmm.total == old(d.pmm.total)
    ensures forall p :: 0 <= p < BITS ==>
              (d.pmm.Abs().bits[p] <==>
                 && old(d.pmm.Abs()).bits[p]
                 && !(p < d.pmm.total && (p == PageOf(at) || HoldsTable(d.tables[..], ENTRIES, p))))
  {
    ghost var was := d.pmm.Abs();
    var i := 0;
    while i < ENTRIES
      invariant 0 <= i <= ENTRIES && d.pmm.Valid() && d.pmm.total == was.total
      invariant forall p :: 0 <= p < BITS ==>
                  (d.pmm.Abs().bits[p] <==> was.bits[p] && !(p < was.total && HoldsTable(d.tables[..], i, p)))
    {
      assert VmmModel.GoodSlot(d.Abs(), i);
      FreeTable(d.pmm, d.tables[i]);
      i := i + 1;
    }
    d.pmm.FreePage(at);
  }

  /** Frame p holds one of the first n tables. */
  ghost predicate HoldsTable(tables: seq<nat>, n: nat, p: nat)
    requires n <= |tables|
  {
    exists i :: 0 <= i < n && tables[i] != NULL && PageOf(tables[i]) == p
  }

  method FreeTable(pmm: Manager, table: nat)
    requires pmm.Valid() && table < UINT32_SIZE
    modifies pmm, pmm.bitmap
    ensures pmm.Valid() && pmm.total == old(pmm.total)
    ensures forall p :: 0 <= p < BITS ==>
              (pmm.Abs().bits[p] <==> old(pmm.Abs()).bits[p] && !(p < pmm.total && table != NULL && PageOf(table) == p))
  {
    if table != NULL { pmm.FreePage(table); }
  }

  /**
   A directory that is created and destroyed gives all its frames back exactly when it got only
   one, the last one below 4 GiB. Otherwise, if its first frame lies below 4 GiB, exactly its
   second frame is lost; if not, another frame is freed in its place.
   */
  method CreateThenDestroy(pmm: Manager) returns (created: bool)
    requires pmm.Valid() && 0 < pmm.total && pmm.Abs().bits[0]
    modifies pmm, pmm.bitmap
    ensures pmm.Valid() && (created <==> LooksContiguous(old(pmm.Abs())))
    ensures
      var f := old(pmm.Abs());
      created ==>
        && pmm.Abs() == Free(AfterTwo(f), AllocResult(f))
        && (pmm.Abs() == f <==> OnlyLastFrame(f))
        && (FirstFree(f, 0) < ADDRESSABLE ==> pmm.Abs() == SecondLost(f))
  {
    ghost var f := pmm.Abs();
    var d, at := CreateDirectory(pmm);
    created := d != null;
    if created {
      DestroyDirectory(d, at);
      assert forall p :: !HoldsTable(d.tables[..], ENTRIES, p);
      assert pmm.Abs().bits == Free(AfterTwo(f), at).bits;
      FreedAgain(f);
    }
  }

  /** Only the second lowest free frame, if there is one, has been taken. */
  ghost function SecondLost(f: PmmModel.Frames): PmmModel.Frames
    requires PmmModel.WellFormed(f) && FirstFree(f, 0) < f.total
  {
    var q := FirstFree(f, FirstFree(f, 0) + 1);
    if q < f.total then Mark(f, q, true) else f
  }

  /** Freeing by the first address after taking two frames, or the only one. */
  lemma FreedAgain(f: PmmModel.Frames)
    requires PmmModel.WellFormed(f) && LooksContiguous(f)
    ensures
      var h := Free(AfterTwo(f), AllocResult(f));
      && (h == f <==> OnlyLastFrame(f))
      && (FirstFree(f, 0) < ADDRESSABLE ==> h == SecondLost(f))
  {
    var p := FirstFree(f, 0);
    SecondFrame(f);
    AddressNamesFrame(p);
    TwoFrames(f);
    if p < ADDRESSABLE {
      LowFreed(f, p, FirstFree(f, p + 1));
    } else {
      assert Free(AfterTwo(f), AllocResult(f)).bits[p] != f.bits[p];
    }
  }

  lemma LowFreed(f: PmmModel.Frames, p: nat, q: nat)
    requires PmmModel.WellFormed(f) && p == FirstFree(f, 0) < f.total
    requires q == FirstFree(f, p + 1) == FirstFree(Alloc(f), 0)
    requires AllocResult(f) != NULL && PageOf(AllocResult(f)) == p
    ensures
      var h := Free(AfterTwo(f), AllocResult(f));
      h == SecondLost(f) && (h == f <==> q == f.total)
  {
    var h := Free(AfterTwo(f), AllocResult(f));
    assert h.bits == SecondLost(f).bits;
    if q < f.total { assert h.bits[q] != f.bits[q]; }
  }

  // ---------------------------------------------------------------------------
  // Start-up
  // ---------------------------------------------------------------------------

  const MIN_MAP: nat := 0x40_0000
  const MAX_MAP: nat := 0x400_0000

  /** The end of physical memory, as far as it is managed. */
  function MemoryEnd(total: nat, maxAddress: nat): nat {
    Min(maxAddress, total * PAGE_SIZE)
  }

  /** At least 4 MiB and at most 64 MiB. */
  function Clamped(m: nat): (e: nat)
    ensures MIN_MAP <= e <= MAX_MAP
  {
    if m < MIN_MAP then MIN_MAP else if m > MAX_MAP then MAX_MAP else m
  }

  /** The end of the identity map: pmm_get_max_address returns only 32 bits of the end of memory. */
  function RamEnd(total: nat, maxAddress: nat): (e: nat)
    ensures MIN_MAP <= e <= MAX_MAP
  {
    Clamped(MemoryEnd(total, maxAddress) % UINT32_SIZE)
  }

  /** It covers the memory there is, up to the cap, exactly if the 32 bits lose nothing or leave at least the cap. */
  lemma RamEndIff(total: nat, maxAddress: nat)
    ensures
      var m := if maxAddress < total * 4096 then maxAddress else total * 4096;
      var covered := if m < 0x40_0000 then 0x40_0000 else if m > 0x400_0000 then 0x400_0000 else m;
      RamEnd(total, maxAddress) == covered <==> m < UINT32_SIZE || m % UINT32_SIZE >= 0x400_0000
  {
  }

  /** A machine with exactly 4 GiB gets only 4 MiB mapped. */
  lemma FullMachineMapsLittle(total: nat, maxAddress: nat)
    requires total == ADDRESSABLE && maxAddress == UINT32_SIZE
    ensures RamEnd(total, maxAddress) == MIN_MAP && Clamped(MemoryEnd(total, maxAddress)) == MAX_MAP
  {
    assert ADDRESSABLE * PAGE_SIZE == UINT32_SIZE;
  }

  lemma {:induction false} AllMissing(tables: seq<nat>, i: nat, j: nat)
    requires i <= j <= |tables| && forall k :: 0 <= k < |tables| ==> tables[k] == NULL
    ensures Missing(tables, i, j) == j - i
    decreases j
  {
    if i < j { AllMissing(tables, i, j - 1); }
  }

  /**
   An identity region from 0 in an empty directory: an address is translated to itself exactly
   when there was a frame for its table.
   */
  lemma IdentityWalk(plan: Plan, s: Space, end: nat, v: nat)
    requires GoodPlan(plan) && Consistent(s) && Mapped(plan, Flat(s))
    requires plan.first == plan.base == 0 && plan.stop == RegionEndPage(0, end) && plan.flags == TABLE_FLAGS
    requires forall i :: 0 <= i < ENTRIES ==> plan.tables[i] == NULL
    requires forall q :: 0 <= q < PAGES ==> plan.before[q] == 0
    requires v < end <= MAX_MAP
    ensures HardwareWalk(s, v) == if PageOf(v) / ENTRIES < plan.free then Some(v) else None
  {
    WalksAgree(s, v);
    var q := PageOf(v);
    assert q < RegionEndPage(0, end);
    AllMissing(plan.tables, 0, q / ENTRIES + 1);
    assert Target(0, 0, q) == q * PAGE_SIZE;
    PteParts(q * PAGE_SIZE, TABLE_FLAGS);
    assert PageBase(q * PAGE_SIZE) == q * PAGE_SIZE;
  }

  /** The page tables an identity map of [0, end) has. */
  function TablesFor(end: nat): nat
    requires 0 < end <= MAX_MAP
  {
    (end + MIN_MAP - 1) / MIN_MAP
  }

  lemma TablesForEmpty(tables: seq<nat>, zero: nat, end: nat)
    requires |tables| == ENTRIES && zero == 0 < end <= MAX_MAP && forall k :: 0 <= k < ENTRIES ==> tables[k] == NULL
    ensures TablesNeeded(tables, zero, end) == TablesFor(end)
  {
    var stop := RegionEndPage(zero, end);
    assert stop == (end + PAGE_SIZE - 1) / PAGE_SIZE;
    AllMissing(tables, 0, (stop - 1) / ENTRIES + 1);
  }

  /** Two frames for the directory leave enough for the tables. */
  lemma EnoughAfterTwo(f: PmmModel.Frames, need: nat)
    requires PmmModel.WellFormed(f) && 0 < f.total && f.bits[0] && EnoughLow(f, need + 2)
    ensures NextIsLow(f) && NextIsLow(Alloc(f)) && (LooksContiguous(f) ==> EnoughLow(AfterTwo(f), need))
  {
    EnoughIsLow(f, need + 2);
    EnoughAfterAlloc(f, need + 2);
    EnoughIsLow(Alloc(f), need + 1);
    EnoughAfterAlloc(Alloc(f), need + 1);
    TwoFrames(f);
  }

  /** The directory's two allocations, seen from vmm_init. */
  lemma StartUp(f: PmmModel.Frames, need: nat)
    requires PmmModel.WellFormed(f) && 0 < f.total && f.bits[0] && EnoughLow(f, need + 2)
    ensures LooksContiguous(f) <==> RoomForDirectory(f) || OnlyLastFrame(f)
    ensures LooksContiguous(f) ==> EnoughLow(AfterTwo(f), need)
    ensures LooksContiguous(f) ==> FreeCount(AfterTwo(f)) == if FreeCount(f) < 2 then 0 else FreeCount(f) - 2
  {
    EnoughAfterTwo(f, need);
    LowTwoFrames(f);
    TwoCost(f);
    TwoFrames(f);
  }

  /** The identity map of vmm_init, in a fresh directory. */
  method MapMemory(d: Directory, end: nat)
    requires d.Valid() && 0 < end <= MAX_MAP && EnoughLow(d.pmm.Abs(), TablesFor(end))
    requires forall i :: 0 <= i < ENTRIES ==> d.tables[i] == NULL
    requires forall q :: 0 <= q < PAGES ==> Flat(d.Abs())[q] == 0
    modifies d, d.entries, d.tables, d.pmm, d.pmm.bitmap
    ensures d.Valid()
    ensures
      var free := FreeCount(old(d.pmm.Abs()));
      forall v :: 0 <= v < end ==> HardwareWalk(d.Abs(), v) == if PageOf(v) / ENTRIES < free then Some(v) else None
  {
    TablesForEmpty(d.tables[..], 0, end);
    ghost var plan := PlanFor(Flat(d.Abs()), d.tables[..], FreeCount(d.pmm.Abs()), 0, 0, end, TABLE_FLAGS);
    d.IdentityMapRegion(0, end, TABLE_FLAGS);
    forall v | 0 <= v < end
      ensures HardwareWalk(d.Abs(), v) == if PageOf(v) / ENTRIES < plan.free then Some(v) else None
    {
      IdentityWalk(plan, d.Abs(), end, v);
    }
  }

  /**
   vmm_init, with enough frames below 4 GiB for the directory and its at most 16 tables, or none
   above: an address below the end of the map is its own translation exactly when a frame was
   left for its table.
   */
  method Init(pmm: Manager) returns (d: Directory?)
    requires pmm.Valid() && 0 < pmm.total && pmm.Abs().bits[0]
    requires EnoughLow(pmm.Abs(), TablesFor(RamEnd(pmm.total, pmm.maxAddress)) + 2)
    modifies pmm, pmm.bitmap
    ensures d != null <==> RoomForDirectory(old(pmm.Abs())) || OnlyLastFrame(old(pmm.Abs()))
    ensures d != null ==> fresh(d) && d.pmm == pmm && d.Valid()
    ensures
      var end, frames := RamEnd(old(pmm.total), old(pmm.maxAddress)), FreeCount(old(pmm.Abs())) - 2;
      d != null ==>
        forall v :: 0 <= v < end ==> HardwareWalk(d.Abs(), v) == if PageOf(v) / ENTRIES < frames then Some(v) else None
  {
    var end := RamEnd(pmm.total, pmm.maxAddress);
    StartUp(pmm.Abs(), TablesFor(end));
    var at;
    d, at := CreateDirectory(pmm);
    if d != null { MapMemory(d, end); }
  }

  // ---------------------------------------------------------------------------
  // A table on top of another
  // ---------------------------------------------------------------------------

  /** Free are frames 5, 6 and 7 and one above 4 GiB that aliases frame 7. */
  ghost predicate AliasOfSeven(f: PmmModel.Frames, high: nat) {
    && PmmModel.WellFormed(f) && high == ADDRESSABLE + 7 && f.total == high + 1
    && forall k :: 0 <= k < f.total ==> (f.bits[k] <==> k != 5 && k != 6 && k != 7 && k != high)
  }

  lemma AliasSteps(f: PmmModel.Frames, high: nat)
    requires AliasOfSeven(f, high)
    ensures LooksContiguous(f) && AfterTwo(f) == Alloc(Alloc(f))
    ensures
      var g := AfterTwo(f);
      AllocResult(g) == AllocResult(Alloc(g)) == 7 * PAGE_SIZE
  {
    var g := Alloc(Alloc(f));
    FirstFreeIs(f, 0, 5);
    FirstFreeIs(Alloc(f), 0, 6);
    FirstFreeIs(g, 0, 7);
    FirstFreeIs(Alloc(g), 0, high);
    FrameAddress(5);
    FrameAddress(7);
    FrameAddress(high);
  }

  /**
   Such a machine: a directory is created and two pages 4 MiB apart are mapped. The second table
   is put on the first, so both slots share it.
   */
  method SharedTable(pmm: Manager, ghost high: nat) returns (d: Directory?)
    requires pmm.Valid() && AliasOfSeven(pmm.Abs(), high)
    modifies pmm, pmm.bitmap
    ensures d != null && !d.Valid() && d.tables.Length == ENTRIES && d.tables[0] == d.tables[1] == 7 * PAGE_SIZE
  {
    AliasSteps(pmm.Abs(), high);
    var at;
    d, at := CreateDirectory(pmm);
    MapTwo(d, 7 * PAGE_SIZE);
  }

  method MapTwo(d: Directory, ghost a: nat)
    requires d.Valid() && d.tables[0] == d.tables[1] == NULL != a
    requires AllocResult(d.pmm.Abs()) == AllocResult(Alloc(d.pmm.Abs())) == a && a !in d.tables[..]
    modifies d, d.entries, d.tables, d.pmm, d.pmm.bitmap
    ensures !d.Valid() && d.tables[0] == d.tables[1] == a
  {
    assert PdIndex(0) == 0 && PdIndex(0x40_0000) == 1;
    var ok := d.MapPage(0, 0, TABLE_FLAGS);
    assert d.tables[..][0] == a && d.tables[..][1] == NULL;
    ok := d.MapPage(0x40_0000, 0, TABLE_FLAGS);
    assert d.tables[..][0] == d.tables[..][1] == a;
  }
}
