/**
 Two-level paging on values: the directory entries the hardware reads, the table pointers the
 kernel keeps beside them, and the page tables themselves. Entries are words whose low twelve
 bits are flags; bit 0 is "present".
 */
module VmmModel {
  import opened PmmModel
  import opened Arithmetic
  import opened Wrappers

  const ENTRIES: nat := 1024
  const PAGES: nat := 0x10_0000
  const PRESENT: nat := 1
  /** Present, writable and user. */
  const TABLE_FLAGS: nat := 7

  /** `mem` holds the frames used as page tables, by address. */
  datatype Space = Space(entries: seq<nat>, tables: seq<nat>, mem: map<nat, seq<nat>>)

  function PageBase(x: nat): nat { x - x % PAGE_SIZE }

  function Offset(x: nat): nat { x % PAGE_SIZE }

  predicate IsPresent(e: nat) { e % 2 == 1 }

  function PdIndex(virt: nat): nat { (virt / 0x40_0000) % ENTRIES }

  function PtIndex(virt: nat): nat { (virt / PAGE_SIZE) % ENTRIES }

  /** Directory and table index of an address are the two halves of its page number. */
  lemma Indices(virt: nat)
    requires virt < UINT32_SIZE
    ensures PageOf(virt) < PAGES && PdIndex(virt) == PageOf(virt) / ENTRIES && PtIndex(virt) == PageOf(virt) % ENTRIES
  {
  }

  /** The entry for a frame and flags. */
  function Pte(phys: nat, flags: nat): nat {
    PageBase(phys) + flags % PAGE_SIZE
  }

  /** Frame and flags can be read back from it. */
  lemma PteParts(phys: nat, flags: nat)
    ensures PageBase(Pte(phys, flags)) == PageBase(phys) && Pte(phys, flags) % PAGE_SIZE == flags % PAGE_SIZE
    ensures IsPresent(Pte(phys, flags)) <==> IsPresent(flags)
  {
    var k, r := phys / PAGE_SIZE, flags % PAGE_SIZE;
    assert PageBase(phys) == k * PAGE_SIZE;
    DivModUnique(k * PAGE_SIZE + r, PAGE_SIZE, k, r);
    var m := flags / PAGE_SIZE;
    assert flags == m * PAGE_SIZE + r;
    SameParity(k, r);
    SameParity(m, r);
  }

  lemma SameParity(k: nat, r: nat)
    ensures (k * PAGE_SIZE + r) % 2 == r % 2
  {
    assert k * PAGE_SIZE + r == 2 * (2048 * k) + r;
  }

  /** Directory slot i: empty on both sides, or the hardware entry names the kernel's table. */
  predicate GoodSlot(s: Space, i: nat)
    requires |s.entries| == |s.tables| == ENTRIES && i < ENTRIES
  {
    var t := s.tables[i];
    if t == NULL then s.entries[i] == 0
    else t % PAGE_SIZE == 0 && t < UINT32_SIZE && s.entries[i] == t + TABLE_FLAGS && t in s.mem && |s.mem[t]| == ENTRIES
  }

  ghost predicate Consistent(s: Space) {
    && |s.entries| == |s.tables| == ENTRIES
    && (forall i :: 0 <= i < ENTRIES ==> GoodSlot(s, i))
    && (forall i, j :: 0 <= i < j < ENTRIES && s.tables[i] != NULL ==> s.tables[i] != s.tables[j])
  }

  /** The flat page map the two levels stand for: the entry of page q, 0 if it has no table. */
  ghost function Entry(s: Space, q: nat): nat
    requires Consistent(s) && q < PAGES
  {
    assert GoodSlot(s, q / ENTRIES);
    if s.tables[q / ENTRIES] == NULL then 0 else s.mem[s.tables[q / ENTRIES]][q % ENTRIES]
  }

  /** All of it, page by page. */
  ghost function Flat(s: Space): (m: seq<nat>)
    requires Consistent(s)
    ensures |m| == PAGES && forall q :: 0 <= q < PAGES ==> m[q] == Entry(s, q)
  {
    seq(PAGES, q requires 0 <= q < PAGES => Entry(s, q))
  }

  /** What a page entry makes of an address. */
  function Translate(e: nat, virt: nat): Option<nat> {
    if IsPresent(e) then Some(PageBase(e) + Offset(virt)) else None
  }

  /** The walk of section 4.3 of the Intel SDM, volume 3A, for 4 KiB pages: it knows only the hardware entries. */
  ghost function HardwareWalk(s: Space, virt: nat): Option<nat>
    requires |s.entries| == ENTRIES
  {
    var pde := s.entries[PdIndex(virt)];
    if !IsPresent(pde) || PageBase(pde) !in s.mem || |s.mem[PageBase(pde)]| != ENTRIES then None
    else Translate(s.mem[PageBase(pde)][PtIndex(virt)], virt)
  }

  /** vmm_get_physical: it knows only the table pointers. */
  ghost function SoftwareWalk(s: Space, virt: nat): nat
    requires Consistent(s)
  {
    assert GoodSlot(s, PdIndex(virt));
    var t := s.tables[PdIndex(virt)];
    if t == NULL then 0
    else
      var e := s.mem[t][PtIndex(virt)];
      if IsPresent(e) then PageBase(e) + Offset(virt) else 0
  }

  /** Both walks read the same flat page map. */
  lemma WalksAgree(s: Space, virt: nat)
    requires Consistent(s) && virt < UINT32_SIZE
    ensures PageOf(virt) < PAGES && HardwareWalk(s, virt) == Translate(Flat(s)[PageOf(virt)], virt)
    ensures SoftwareWalk(s, virt) == match HardwareWalk(s, virt) case Some(a) => a case None => 0
  {
    Indices(virt);
    var i := PdIndex(virt);
    assert GoodSlot(s, i);
    if s.tables[i] != NULL { TableBase(s.tables[i]); }
  }

  lemma TableBase(t: nat)
    requires t % PAGE_SIZE == 0
    ensures PageBase(t + TABLE_FLAGS) == t && IsPresent(t + TABLE_FLAGS)
  {
    assert (t + TABLE_FLAGS) % PAGE_SIZE == TABLE_FLAGS;
  }

  /** Hang an empty table into slot i. */
  ghost function WithTable(s: Space, i: nat, t: nat, zeros: seq<nat>): Space
    requires |s.entries| == |s.tables| == ENTRIES && i < ENTRIES
  {
    Space(s.entries[i := t + TABLE_FLAGS], s.tables[i := t], s.mem[t := zeros])
  }

  /** A new table changes no translation. */
  lemma TableChangesNothing(s: Space, i: nat, t: nat, zeros: seq<nat>)
    requires Consistent(s) && i < ENTRIES && s.tables[i] == NULL
    requires t != NULL && t % PAGE_SIZE == 0 && t < UINT32_SIZE && t !in s.tables
    requires |zeros| == ENTRIES && forall k :: 0 <= k < ENTRIES ==> zeros[k] == 0
    ensures Consistent(WithTable(s, i, t, zeros))
    ensures Flat(WithTable(s, i, t, zeros)) == Flat(s)
  {
    var r := WithTable(s, i, t, zeros);
    forall k | 0 <= k < ENTRIES ensures GoodSlot(r, k) {
      assert GoodSlot(s, k);
      if k != i { assert s.tables[k] in s.tables; }
    }
    assert Consistent(r);
    forall q | 0 <= q < PAGES ensures Entry(r, q) == Entry(s, q) {
      assert GoodSlot(s, q / ENTRIES);
      if q / ENTRIES != i { assert s.tables[q / ENTRIES] in s.tables; }
    }
    assert Flat(r) == Flat(s);
  }

  /** Write the entry of page q. */
  ghost function WithEntry(s: Space, q: nat, e: nat): Space
    requires Consistent(s) && q < PAGES && s.tables[q / ENTRIES] != NULL
  {
    assert GoodSlot(s, q / ENTRIES);
    var t := s.tables[q / ENTRIES];
    var page: seq<nat> := s.mem[t][q % ENTRIES := e];
    s.(mem := s.mem[t := page])
  }

  /** Writing an entry changes the translation of that page and of no other. */
  lemma EntryChangesOnePage(s: Space, q: nat, e: nat)
    requires Consistent(s) && q < PAGES && s.tables[q / ENTRIES] != NULL
    ensures Consistent(WithEntry(s, q, e))
    ensures Flat(WithEntry(s, q, e)) == Flat(s)[q := e]
  {
    var r := WithEntry(s, q, e);
    var t := s.tables[q / ENTRIES];
    assert GoodSlot(s, q / ENTRIES);
    forall k | 0 <= k < ENTRIES ensures GoodSlot(r, k) { assert GoodSlot(s, k); }
    assert Consistent(r);
    forall p | 0 <= p < PAGES ensures Entry(r, p) == if p == q then e else Entry(s, p) {
      assert GoodSlot(s, p / ENTRIES);
      assert p / ENTRIES != q / ENTRIES && s.tables[p / ENTRIES] != NULL ==> s.tables[p / ENTRIES] != t;
      if p / ENTRIES == q / ENTRIES && p % ENTRIES == q % ENTRIES { SamePage(p, q); }
    }
    assert Flat(r) == Flat(s)[q := e];
  }

  lemma SamePage(p: nat, q: nat)
    requires p / ENTRIES == q / ENTRIES && p % ENTRIES == q % ENTRIES
    ensures p == q
  {
  }

  // ---------------------------------------------------------------------------
  // Frames for tables
  // ---------------------------------------------------------------------------

  /** Empty slots in [i, j). */
  function Missing(tables: seq<nat>, i: nat, j: nat): (m: nat)
    requires i <= j <= |tables|
    ensures m <= j - i
    decreases j
  {
    if i == j then 0 else Missing(tables, i, j - 1) + (if tables[j - 1] == NULL then 1 else 0)
  }

  lemma {:induction false} MissingGrows(tables: seq<nat>, i: nat, j: nat, k: nat)
    requires i <= j <= k <= |tables|
    ensures Missing(tables, i, j) <= Missing(tables, i, k)
    decreases k
  {
    if j < k { MissingGrows(tables, i, j, k - 1); }
  }

  function FreeCount(f: Frames): nat
    requires WellFormed(f)
  {
    f.total - Count(f.bits, f.total)
  }

  lemma {:induction false} CountFull(bits: seq<bool>, n: nat)
    requires n <= |bits| && forall k :: 0 <= k < n ==> bits[k]
    ensures Count(bits, n) == n
  {
    if n > 0 { CountFull(bits, n - 1); }
  }

  /** Allocation succeeds exactly when a frame is free, and then costs one. */
  lemma AllocCosts(f: Frames)
    requires WellFormed(f)
    ensures FirstFree(f, 0) < f.total ==> FreeCount(f) > 0 && FreeCount(Alloc(f)) == FreeCount(f) - 1
    ensures FirstFree(f, 0) == f.total ==> FreeCount(f) == 0
  {
    var p := FirstFree(f, 0);
    if p < f.total {
      CountMark(f.bits, f.total, p, true);
    } else {
      CountFull(f.bits, f.total);
    }
  }

  /** Free frames below 4 GiB. */
  function LowFrames(f: Frames): nat
    requires WellFormed(f)
  {
    var n := Min(f.total, ADDRESSABLE);
    n - Count(f.bits, n)
  }

  /** The next `need` allocations take frames below 4 GiB, or there is no frame above. */
  predicate EnoughLow(f: Frames, need: nat)
    requires WellFormed(f)
  {
    need <= LowFrames(f) || LowFrames(f) == FreeCount(f)
  }

  lemma SmallIsEnough(f: Frames, need: nat)
    requires WellFormed(f) && f.total <= ADDRESSABLE
    ensures EnoughLow(f, need)
  {
  }

  lemma EnoughIsLow(f: Frames, need: nat)
    requires WellFormed(f) && EnoughLow(f, need) && need > 0
    ensures NextIsLow(f)
  {
    var p := FirstFree(f, 0);
    if ADDRESSABLE <= p < f.total {
      CountFull(f.bits, ADDRESSABLE);
      AllocCosts(f);
      assert false;
    }
  }

  /** An allocation uses up one of them. */
  lemma EnoughAfterAlloc(f: Frames, need: nat)
    requires WellFormed(f) && EnoughLow(f, need) && need > 0
    ensures EnoughLow(Alloc(f), need - 1)
  {
    var p, n := FirstFree(f, 0), Min(f.total, ADDRESSABLE);
    EnoughIsLow(f, need);
    AllocCosts(f);
    if p < f.total { CountMark(f.bits, n, p, true); }
  }

  lemma NothingLeft(f: Frames, need: nat)
    requires WellFormed(f) && FreeCount(f) == 0
    ensures EnoughLow(f, need) && FirstFree(f, 0) == f.total
  {
    AllocCosts(f);
    CountFull(f.bits, Min(f.total, ADDRESSABLE));
  }

  lemma {:induction false} MissingFirst(tables: seq<nat>, i: nat, j: nat)
    requires i < j <= |tables|
    ensures Missing(tables, i, j) == Missing(tables, i + 1, j) + if tables[i] == NULL then 1 else 0
    decreases j
  {
    if i + 1 < j { MissingFirst(tables, i, j - 1); }
  }
}
