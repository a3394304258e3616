/**
 The loops that map a region, on values: which pages get their frames when a page table may be
 missing and frames may run out. Tables are allocated in ascending order as the loop reaches
 them, so a page is mapped exactly when its table was there or the free frames covered all
 tables missing up to it.
 */
module VmmRegion {
  import opened PmmModel
  import opened VmmModel
  import opened Wrappers

  /** The page number where the region loops stop. */
  function RegionEndPage(virt: nat, size: nat): (e: nat)
    ensures e < PAGES
  {
    PageOf((virt + size + PAGE_SIZE - 1) % UINT32_SIZE)
  }

  /** The pages the loops visit cover a non-empty range exactly when rounding its end up does not wrap. */
  lemma RegionIsCovered(virt: nat, size: nat)
    requires virt < UINT32_SIZE && 0 < size < UINT32_SIZE
    ensures (forall a :: virt <= a < virt + size ==> PageOf(virt) <= PageOf(a) < RegionEndPage(virt, size))
            <==> virt + size + PAGE_SIZE - 1 < UINT32_SIZE
  {
    if virt + size + PAGE_SIZE - 1 >= UINT32_SIZE {
      var a := virt + size - 1;
      assert virt <= a < virt + size;
      assert PageOf(a) >= RegionEndPage(virt, size);
    }
  }

  /** The frame for page q of a region whose first page is `first`, with 32-bit wrap-around. */
  function Target(base: nat, first: nat, q: nat): nat
    requires first <= q
  {
    (base + (q - first) * PAGE_SIZE) % UINT32_SIZE
  }

  lemma NextTarget(base: nat, first: nat, q: nat)
    requires first <= q
    ensures Target(base, first, q + 1) == (Target(base, first, q) + PAGE_SIZE) % UINT32_SIZE
  {
    var x := base + (q - first) * PAGE_SIZE;
    assert base + (q + 1 - first) * PAGE_SIZE == x + PAGE_SIZE;
  }

  /**
   What a region loop starts from: page map, tables and number of free frames; its pages, the
   first frame, the flags.
   */
  datatype Plan = Plan(before: seq<nat>, tables: seq<nat>, free: nat, first: nat, stop: nat, base: nat, flags: nat)

  predicate GoodPlan(plan: Plan) {
    |plan.before| == PAGES && |plan.tables| == ENTRIES && plan.first < PAGES && plan.stop < PAGES
  }

  /** Slot i has a table once the loop has been there. */
  predicate Served(plan: Plan, i: nat)
    requires GoodPlan(plan) && plan.first / ENTRIES <= i < ENTRIES
  {
    plan.tables[i] != NULL || Missing(plan.tables, plan.first / ENTRIES, i + 1) <= plan.free
  }

  /** The page map when the loop is at page q: the served pages before q have their frames, all others what they had. */
  ghost predicate MappedUpTo(plan: Plan, q: nat, m: seq<nat>)
    requires GoodPlan(plan)
  {
    && |m| == PAGES && plan.first <= q
    && forall p :: 0 <= p < PAGES ==>
         m[p] ==
         if plan.first <= p < q && Served(plan, p / ENTRIES) then Pte(Target(plan.base, plan.first, p), plan.flags)
         else plan.before[p]
  }

  /** The page map when the loop has ended. */
  ghost predicate Mapped(plan: Plan, m: seq<nat>)
    requires GoodPlan(plan)
  {
    MappedUpTo(plan, if plan.first < plan.stop then plan.stop else plan.first, m)
  }

  /** Every page of the region is served exactly when the free frames cover the missing tables. */
  lemma AllServedIff(plan: Plan)
    requires GoodPlan(plan) && plan.first < plan.stop
    ensures
      var i, j := plan.first / ENTRIES, (plan.stop - 1) / ENTRIES + 1;
      (forall p :: plan.first <= p < plan.stop ==> Served(plan, p / ENTRIES))
          <==> Missing(plan.tables, i, j) <= plan.free
  {
    var i, j := plan.first / ENTRIES, (plan.stop - 1) / ENTRIES + 1;
    if Missing(plan.tables, i, j) <= plan.free {
      forall p | plan.first <= p < plan.stop ensures Served(plan, p / ENTRIES) {
        MissingGrows(plan.tables, i, p / ENTRIES + 1, j);
      }
    }
    if forall p :: plan.first <= p < plan.stop ==> Served(plan, p / ENTRIES) {
      forall k | i <= k < j ensures Served(plan, k) {
        var p := if k == i then plan.first else k * ENTRIES;
        assert plan.first <= p < plan.stop && p / ENTRIES == k;
      }
      ServedMeansEnough(plan, j);
    }
  }

  lemma {:induction false} ServedMeansEnough(plan: Plan, j: nat)
    requires GoodPlan(plan) && plan.first / ENTRIES <= j <= ENTRIES
    requires forall k :: plan.first / ENTRIES <= k < j ==> Served(plan, k)
    ensures Missing(plan.tables, plan.first / ENTRIES, j) <= plan.free
    decreases j
  {
    if plan.first / ENTRIES < j {
      assert Served(plan, j - 1);
      if plan.tables[j - 1] != NULL { ServedMeansEnough(plan, j - 1); }
    }
  }

  // ---------------------------------------------------------------------------
  // The loop
  // ---------------------------------------------------------------------------

  /** At most one table was added, in slot i, at the price of one frame. */
  ghost predicate Grown(before: seq<nat>, after: seq<nat>, i: nat, freeBefore: nat, freeAfter: nat) {
    && i < |before| == |after| && after[i] != NULL
    && if before[i] != NULL then after == before && freeAfter == freeBefore
       else after == before[i := after[i]] && freeAfter == freeBefore - 1
  }

  /** Tables and free frames when the loop has been in the slots below e. */
  ghost predicate SlotsUpTo(plan: Plan, e: nat, tables: seq<nat>, free: nat)
    requires GoodPlan(plan)
  {
    && plan.first / ENTRIES <= e <= ENTRIES && |tables| == ENTRIES
    && (forall j :: plan.first / ENTRIES <= j < e ==> (tables[j] != NULL <==> Served(plan, j)))
    && (forall j :: e <= j < ENTRIES ==> tables[j] == plan.tables[j])
    && free == var m := Missing(plan.tables, plan.first / ENTRIES, e); if m <= plan.free then plan.free - m else 0
  }

  /** One page in slot i, which is new to the loop or the last it was in. */
  lemma SlotStep(plan: Plan, i: nat, e: nat, ts: seq<nat>, free: nat, tsNow: seq<nat>, freeNow: nat, ok: bool)
    requires GoodPlan(plan) && SlotsUpTo(plan, e, ts, free) && plan.first / ENTRIES <= i < ENTRIES
    requires e == i || e == i + 1
    requires ok <==> ts[i] != NULL || free > 0
    requires if ok then Grown(ts, tsNow, i, free, freeNow) else tsNow == ts && freeNow == free
    ensures (ok <==> Served(plan, i)) && SlotsUpTo(plan, i + 1, tsNow, freeNow)
  {
    if e == i + 1 {
      MissingGrows(plan.tables, plan.first / ENTRIES, i, e);
    }
  }

  /** Where the loop stands before page q, at address v with frame p. */
  ghost predicate Standing(plan: Plan, q: nat, v: nat, p: nat, m: seq<nat>, tables: seq<nat>, free: nat) {
    && GoodPlan(plan) && v == q * PAGE_SIZE && plan.first <= q && (q == plan.first || q <= plan.stop)
    && p == Target(plan.base, plan.first, q)
    && MappedUpTo(plan, q, m)
    && SlotsUpTo(plan, SlotsSeen(plan.first, q), tables, free)
  }

  /** One past the last slot the loop has been in. */
  function SlotsSeen(first: nat, q: nat): nat
    requires first <= q
  {
    if q == first then first / ENTRIES else (q - 1) / ENTRIES + 1
  }

  lemma BeforeEnd(plan: Plan, q: nat, v: nat, end: nat)
    requires v == q * PAGE_SIZE && end == plan.stop * PAGE_SIZE && v < end
    ensures q < plan.stop
  {
  }

  lemma AtEnd(plan: Plan, q: nat, v: nat, p: nat, end: nat, m: seq<nat>, tables: seq<nat>, free: nat)
    requires Standing(plan, q, v, p, m, tables, free) && end == plan.stop * PAGE_SIZE && v >= end
    ensures Mapped(plan, m)
  {
    assert q >= plan.stop;
  }

  lemma PageIndices(q: nat, virt: nat)
    requires virt == q * PAGE_SIZE && q < PAGES
    ensures virt < UINT32_SIZE && PageOf(virt) == q && PdIndex(virt) == q / ENTRIES
  {
    Indices(virt);
  }

  lemma Advance(plan: Plan, q: nat, next: nat, v: nat, p: nat, m: seq<nat>, ts: seq<nat>, free: nat,
                now: seq<nat>, tsNow: seq<nat>, freeNow: nat, ok: bool)
    requires Standing(plan, q, v, p, m, ts, free) && q < plan.stop && next == q + 1
    requires ok <==> ts[q / ENTRIES] != NULL || free > 0
    requires now == if ok then m[q := Pte(p, plan.flags)] else m
    requires if ok then Grown(ts, tsNow, q / ENTRIES, free, freeNow) else tsNow == ts && freeNow == free
    ensures Standing(plan, next, v + PAGE_SIZE, (p + PAGE_SIZE) % UINT32_SIZE, now, tsNow, freeNow)
  {
    NextTarget(plan.base, plan.first, q);
    SlotStep(plan, q / ENTRIES, SlotsSeen(plan.first, q), ts, free, tsNow, freeNow, ok);
    MappedStep(plan, q, next, m, now, ok);
  }

  lemma MappedStep(plan: Plan, q: nat, next: nat, m: seq<nat>, now: seq<nat>, ok: bool)
    requires GoodPlan(plan) && MappedUpTo(plan, q, m) && q < plan.stop && next == q + 1
    requires ok <==> Served(plan, q / ENTRIES)
    requires now == if ok then m[q := Pte(Target(plan.base, plan.first, q), plan.flags)] else m
    ensures MappedUpTo(plan, next, now)
  {
  }

  ghost function PlanFor(m: seq<nat>, tables: seq<nat>, free: nat, virt: nat, phys: nat, size: nat,
                         flags: nat): (plan: Plan)
    requires |m| == PAGES && |tables| == ENTRIES && virt < UINT32_SIZE
    ensures GoodPlan(plan)
  {
    Plan(m, tables, free, PageOf(virt), RegionEndPage(virt, size), PageBase(phys), flags)
  }

  lemma Start(m: seq<nat>, tables: seq<nat>, free: nat, virt: nat, phys: nat, size: nat, flags: nat)
    requires |m| == PAGES && |tables| == ENTRIES && virt < UINT32_SIZE && phys < UINT32_SIZE
    ensures
      var plan := PlanFor(m, tables, free, virt, phys, size, flags);
      && Standing(plan, plan.first, PageBase(virt), PageBase(phys), m, tables, free)
      && PageBase((virt + size + PAGE_SIZE - 1) % UINT32_SIZE) == plan.stop * PAGE_SIZE
  {
  }

  // ---------------------------------------------------------------------------
  // What the hardware makes of it
  // ---------------------------------------------------------------------------

  /** What `a` stands for when the pages from that of `virt` on stand for the frames from that of `phys` on. */
  function Image(virt: nat, phys: nat, a: nat): nat
    requires PageBase(virt) <= a
  {
    (PageBase(phys) + (a - PageBase(virt))) % UINT32_SIZE
  }

  /** Frame by frame this is the same as address by address. */
  lemma TargetIsImage(virt: nat, phys: nat, a: nat)
    requires PageBase(virt) <= a
    ensures PageOf(virt) <= PageOf(a)
    ensures
      var t := Target(PageBase(phys), PageOf(virt), PageOf(a));
      PageBase(t) == t && t + Offset(a) == Image(virt, phys, a)
  {
    var k, f := PageOf(a) - PageOf(virt), PageOf(phys);
    var x := (f + k) % ADDRESSABLE;
    var q := (f + k) / ADDRESSABLE;
    assert f + k == q * ADDRESSABLE + x;
    assert PageBase(phys) + k * PAGE_SIZE == q * UINT32_SIZE + x * PAGE_SIZE;
    ModOfSum(q, x * PAGE_SIZE);
    ModOfSum(q, x * PAGE_SIZE + Offset(a));
    assert PageBase(phys) + (a - PageBase(virt)) == q * UINT32_SIZE + (x * PAGE_SIZE + Offset(a));
  }

  /** Pages of the region are mapped frame after frame; every other address is translated as before. */
  ghost predicate Translated(s: Space, r: Space, virt: nat, phys: nat, size: nat)
    requires |s.entries| == |r.entries| == ENTRIES && 0 < size
  {
    && (forall a :: virt <= a < virt + size ==> HardwareWalk(r, a) == Some(Image(virt, phys, a)))
    && (forall a :: 0 <= a < UINT32_SIZE && !(PageOf(virt) <= PageOf(a) <= PageOf(virt + size - 1)) ==>
          HardwareWalk(r, a) == HardwareWalk(s, a))
  }

  lemma InRegion(virt: nat, size: nat, a: nat)
    requires 0 < size && virt + size + PAGE_SIZE - 1 < UINT32_SIZE
    ensures RegionEndPage(virt, size) == PageOf(virt + size - 1) + 1
    ensures virt <= a < virt + size ==> PageBase(virt) <= a && PageOf(virt) <= PageOf(a) < RegionEndPage(virt, size)
  {
  }

  lemma OneAddress(s: Space, r: Space, free: nat, virt: nat, phys: nat, size: nat, flags: nat, a: nat)
    requires Consistent(s) && Consistent(r) && virt < UINT32_SIZE && phys < UINT32_SIZE && a < UINT32_SIZE
    requires 0 < size && virt + size + PAGE_SIZE - 1 < UINT32_SIZE && IsPresent(flags)
    requires
      var plan := PlanFor(Flat(s), s.tables, free, virt, phys, size, flags);
      Mapped(plan, Flat(r)) && forall p :: plan.first <= p < plan.stop ==> Served(plan, p / ENTRIES)
    ensures HardwareWalk(r, a) ==
        if PageOf(virt) <= PageOf(a) <= PageOf(virt + size - 1) then Some(Image(virt, phys, a)) else HardwareWalk(s, a)
  {
    WalksAgree(s, a);
    WalksAgree(r, a);
    InRegion(virt, size, a);
    if PageOf(virt) <= PageOf(a) <= PageOf(virt + size - 1) {
      TargetIsImage(virt, phys, a);
      PteParts(Target(PageBase(phys), PageOf(virt), PageOf(a)), flags);
    }
  }

  /**
   A region that does not reach the end of the address space, with flags that say "present" and
   frames enough for its tables, is mapped address by address.
   */
  lemma RegionTranslates(s: Space, r: Space, free: nat, virt: nat, phys: nat, size: nat, flags: nat)
    requires Consistent(s) && Consistent(r) && virt < UINT32_SIZE && phys < UINT32_SIZE
    requires 0 < size && virt + size + PAGE_SIZE - 1 < UINT32_SIZE && IsPresent(flags)
    requires Mapped(PlanFor(Flat(s), s.tables, free, virt, phys, size, flags), Flat(r))
    requires TablesNeeded(s.tables, virt, size) <= free
    ensures Translated(s, r, virt, phys, size)
  {
    var plan := PlanFor(Flat(s), s.tables, free, virt, phys, size, flags);
    InRegion(virt, size, virt);
    AllServedIff(plan);
    forall a | 0 <= a < UINT32_SIZE
      ensures HardwareWalk(r, a) ==
          if PageOf(virt) <= PageOf(a) <= PageOf(virt + size - 1) then Some(Image(virt, phys, a))
          else HardwareWalk(s, a)
    {
      OneAddress(s, r, free, virt, phys, size, flags, a);
    }
    forall a | virt <= a < virt + size ensures HardwareWalk(r, a) == Some(Image(virt, phys, a)) {
      InRegion(virt, size, a);
    }
  }

  // ---------------------------------------------------------------------------
  // Frames below 4 GiB
  // ---------------------------------------------------------------------------

  /** One past the last slot of the region. */
  function LastSlot(plan: Plan): (j: nat)
    requires GoodPlan(plan) && plan.first < plan.stop
    ensures plan.first / ENTRIES < j <= ENTRIES
  {
    (plan.stop - 1) / ENTRIES + 1
  }

  /** The tables the loop may still have to make from page q on. */
  function Remaining(plan: Plan, q: nat): nat
    requires GoodPlan(plan) && plan.first <= q
  {
    if plan.first < plan.stop && q <= plan.stop then Missing(plan.tables, SlotsSeen(plan.first, q), LastSlot(plan))
    else 0
  }

  /** The tables a region loop may have to make. */
  function TablesNeeded(tables: seq<nat>, virt: nat, size: nat): nat
    requires |tables| == ENTRIES && virt < UINT32_SIZE
  {
    var first, stop := PageOf(virt), RegionEndPage(virt, size);
    if first < stop then Missing(tables, first / ENTRIES, (stop - 1) / ENTRIES + 1) else 0
  }

  lemma AllRemaining(m: seq<nat>, tables: seq<nat>, free: nat, virt: nat, phys: nat, size: nat, flags: nat)
    requires |m| == PAGES && |tables| == ENTRIES && virt < UINT32_SIZE
    ensures
      var plan := PlanFor(m, tables, free, virt, phys, size, flags);
      Remaining(plan, plan.first) == TablesNeeded(tables, virt, size)
  {
  }

  /** A table the loop needs gets a frame below 4 GiB, or there is no frame. */
  lemma TableIsLow(plan: Plan, q: nat, v: nat, p: nat, m: seq<nat>, ts: seq<nat>, f: Frames)
    requires WellFormed(f) && Standing(plan, q, v, p, m, ts, FreeCount(f)) && q < plan.stop
    requires EnoughLow(f, Remaining(plan, q)) && ts[q / ENTRIES] == NULL
    ensures NextIsLow(f)
  {
    var i, e := q / ENTRIES, SlotsSeen(plan.first, q);
    if e == i {
      MissingFirst(plan.tables, i, LastSlot(plan));
      EnoughIsLow(f, Remaining(plan, q));
    } else {
      assert !Served(plan, i);
      NothingLeft(f, 0);
    }
  }

  lemma StillEnough(plan: Plan, q: nat, next: nat, v: nat, p: nat, m: seq<nat>, ts: seq<nat>, f: Frames, g: Frames)
    requires WellFormed(f) && Standing(plan, q, v, p, m, ts, FreeCount(f)) && q < plan.stop && next == q + 1
    requires EnoughLow(f, Remaining(plan, q)) && g == if ts[q / ENTRIES] != NULL then f else Alloc(f)
    ensures EnoughLow(g, Remaining(plan, next))
  {
    var i, e := q / ENTRIES, SlotsSeen(plan.first, q);
    RemainingStep(plan, q, next);
    if e == i {
      if ts[i] == NULL { EnoughAfterAlloc(f, Remaining(plan, q)); }
    } else if ts[i] == NULL {
      assert !Served(plan, i);
      NothingLeft(f, Remaining(plan, next));
    }
  }

  /** Entering a slot takes its table, if it is missing, off the tables to be made. */
  lemma RemainingStep(plan: Plan, q: nat, next: nat)
    requires GoodPlan(plan) && plan.first <= q < plan.stop && next == q + 1
    ensures
      var i := q / ENTRIES;
      var entered := SlotsSeen(plan.first, q) == i && plan.tables[i] == NULL;
      Remaining(plan, q) == Remaining(plan, next) + if entered then 1 else 0
  {
    if SlotsSeen(plan.first, q) == q / ENTRIES { MissingFirst(plan.tables, q / ENTRIES, LastSlot(plan)); }
  }
}
