/**
 The physical memory manager on values: one flag per page frame, set when the frame is in
 use. Allocation hands out the lowest free frame; a frame number is turned into an address by
 a 32-bit multiplication.
 */
module PmmModel {
  import opened Arithmetic

  const PAGE_SIZE: nat := 4096
  const BITMAP_SIZE: nat := 0x10_0000
  const BITS: nat := 0x80_0000
  const LOW_MEMORY: nat := 0x10_0000
  const UINT32_SIZE: nat := 0x1_0000_0000
  const UINT64_SIZE: nat := 0x1_0000_0000_0000_0000
  /** Frames whose addresses fit 32 bits. */
  const ADDRESSABLE: nat := 0x10_0000
  const NULL: nat := 0

  datatype Frames = Frames(bits: seq<bool>, total: nat)

  predicate WellFormed(f: Frames) {
    f.total <= |f.bits|
  }

  function AddressOf(page: nat): (a: nat)
    ensures a < UINT32_SIZE
  {
    (page * PAGE_SIZE) % UINT32_SIZE
  }

  function PageOf(a: nat): nat {
    a / PAGE_SIZE
  }

  /** Addresses name their frame exactly below 4 GiB; beyond, they alias lower frames. */
  lemma AddressNamesFrame(page: nat)
    ensures PageOf(AddressOf(page)) == page % ADDRESSABLE
    ensures PageOf(AddressOf(page)) == page <==> page < ADDRESSABLE
  {
    var q, r := page / ADDRESSABLE, page % ADDRESSABLE;
    assert page * PAGE_SIZE == q * UINT32_SIZE + r * PAGE_SIZE;
    assert r * PAGE_SIZE < UINT32_SIZE;
    ModOfSum(q, r * PAGE_SIZE);
  }

  lemma ModOfSum(q: nat, x: nat)
    requires x < UINT32_SIZE
    ensures (q * UINT32_SIZE + x) % UINT32_SIZE == x
  {
  }

  /** How many of the first n frames are in use. */
  function Count(bits: seq<bool>, n: nat): (c: nat)
    requires n <= |bits|
    ensures c <= n
  {
    if n == 0 then 0 else Count(bits, n - 1) + (if bits[n - 1] then 1 else 0)
  }

  lemma {:induction false} CountMark(bits: seq<bool>, n: nat, p: nat, b: bool)
    requires n <= |bits| && p < |bits|
    ensures Count(bits[p := b], n) ==
        Count(bits, n) + (if p < n && b && !bits[p] then 1 else 0) - (if p < n && !b && bits[p] then 1 else 0)
    decreases n
  {
    if n > 0 { CountMark(bits, n - 1, p, b); }
  }

  lemma CountNext(bits: seq<bool>, n: nat, next: nat)
    requires n < |bits| && next == n + 1
    ensures Count(bits, next) == Count(bits, n) + if bits[n] then 1 else 0
  {
  }

  /** The lowest free frame from k on, or total. */
  function FirstFree(f: Frames, k: nat): (r: nat)
    requires WellFormed(f) && k <= f.total
    ensures k <= r <= f.total && (r < f.total ==> !f.bits[r]) && forall j :: k <= j < r ==> f.bits[j]
    decreases f.total - k
  {
    if k == f.total || !f.bits[k] then k else FirstFree(f, k + 1)
  }

  lemma FirstFreeIs(f: Frames, k: nat, p: nat)
    requires WellFormed(f) && k <= p < f.total && !f.bits[p] && forall j :: k <= j < p ==> f.bits[j]
    ensures FirstFree(f, k) == p
  {
    var r := FirstFree(f, k);
    assert r <= p;
  }

  function Mark(f: Frames, page: nat, b: bool): (r: Frames)
    requires page < |f.bits|
    ensures |r.bits| == |f.bits| && r.total == f.total
  {
    f.(bits := f.bits[page := b])
  }

  /** pmm_alloc_page: the frame it takes, or total. */
  function Alloc(f: Frames): (r: Frames)
    requires WellFormed(f)
    ensures WellFormed(r)
  {
    var p := FirstFree(f, 0);
    if p == f.total then f else Mark(f, p, true)
  }

  function AllocResult(f: Frames): nat
    requires WellFormed(f)
  {
    var p := FirstFree(f, 0);
    if p == f.total then NULL else AddressOf(p)
  }

  /** pmm_free_page: frames outside the managed range and free frames are left alone. */
  function Free(f: Frames, a: nat): (r: Frames)
    requires WellFormed(f)
    ensures WellFormed(r) && r.total == f.total && |r.bits| == |f.bits|
  {
    if PageOf(a) < f.total && f.bits[PageOf(a)] then Mark(f, PageOf(a), false) else f
  }

  function MarkUsed(f: Frames, a: nat): (r: Frames)
    requires WellFormed(f)
    ensures WellFormed(r)
  {
    if PageOf(a) < f.total && !f.bits[PageOf(a)] then Mark(f, PageOf(a), true) else f
  }

  /** Freeing the address just allocated restores the allocator exactly when the frame lies below 4 GiB. */
  lemma FreeUndoesAlloc(f: Frames)
    requires WellFormed(f) && FirstFree(f, 0) < f.total
    ensures Free(Alloc(f), AllocResult(f)) == f <==> FirstFree(f, 0) < ADDRESSABLE
  {
    var p := FirstFree(f, 0);
    AddressNamesFrame(p);
    if p < ADDRESSABLE {
      assert f.bits[p := true][p := false] == f.bits;
    } else {
      assert Free(Alloc(f), AllocResult(f)).bits[p] != f.bits[p];
    }
  }

  // ---------------------------------------------------------------------------
  // What pmm_init leaves
  // ---------------------------------------------------------------------------

  datatype Region = Region(addr: nat, len: nat, available: bool)

  /** The boot information the manager reads: a memory map, or only two sizes in KiB. */
  datatype BootInfo = MemoryMap(regions: seq<Region>) | Sizes(lowerKb: nat, upperKb: nat)

  /** 64-bit end of a region. */
  function RegionEnd(r: Region): nat {
    (r.addr + r.len) % UINT64_SIZE
  }

  function StartPage(r: Region): nat {
    (r.addr / PAGE_SIZE) % UINT32_SIZE
  }

  function EndPage(r: Region): nat {
    (RegionEnd(r) / PAGE_SIZE) % UINT32_SIZE
  }

  predicate Offers(r: Region, page: nat) {
    r.available && r.addr >= LOW_MEMORY && StartPage(r) <= page < EndPage(r)
  }

  function MaxEnd(regions: seq<Region>): (m: nat)
    ensures forall i :: 0 <= i < |regions| && regions[i].available ==> RegionEnd(regions[i]) <= m
    ensures m == 0 || exists i :: 0 <= i < |regions| && regions[i].available && RegionEnd(regions[i]) == m
  {
    if regions == [] then 0
    else
      var n := |regions| - 1;
      var m := MaxEnd(regions[..n]);
      assert forall i :: 0 <= i < n ==> regions[..n][i] == regions[i];
      if regions[n].available && RegionEnd(regions[n]) > m then RegionEnd(regions[n]) else m
  }

  function TotalPages(info: BootInfo): (t: nat)
    ensures t <= BITS
  {
    match info
    case MemoryMap(regions) => Min((MaxEnd(regions) / PAGE_SIZE) % UINT32_SIZE, BITS)
    case Sizes(lower, upper) => (((lower + upper) % UINT32_SIZE * 1024) % UINT32_SIZE) / PAGE_SIZE
  }

  predicate OfferedAtBoot(info: BootInfo, page: nat) {
    match info
    case MemoryMap(regions) => exists i :: 0 <= i < |regions| && Offers(regions[i], page)
    case Sizes(_, _) => page >= LOW_MEMORY / PAGE_SIZE
  }

  /** The frames an address range touches, partly covered ones included. */
  predicate Touches(start: nat, end: nat, page: nat) {
    start < end && start / PAGE_SIZE <= page < (end + PAGE_SIZE - 1) / PAGE_SIZE
  }

  predicate FreeAtBoot(info: BootInfo, kernelStart: nat, kernelEnd: nat, page: nat) {
    page < TotalPages(info) && OfferedAtBoot(info, page) && page != 0 && !Touches(kernelStart, kernelEnd, page)
  }

  /** For a region that ends below 16 TiB the 32-bit page numbers lose nothing. */
  lemma RegionPages(r: Region, page: nat)
    requires r.addr + r.len < PAGE_SIZE * UINT32_SIZE && r.available && r.addr >= LOW_MEMORY
    ensures Offers(r, page) <==> r.addr / PAGE_SIZE <= page < (r.addr + r.len) / PAGE_SIZE
  {
    assert r.addr / PAGE_SIZE < UINT32_SIZE && (r.addr + r.len) / PAGE_SIZE < UINT32_SIZE;
  }

  /** A touched frame is exactly one that shares a byte with the range. */
  lemma TouchesMeansOverlap(start: nat, end: nat, page: nat)
    ensures Touches(start, end, page) <==> exists a: nat {:trigger PageOf(a)} :: start <= a < end && PageOf(a) == page
  {
    if Touches(start, end, page) {
      var a := if start / PAGE_SIZE == page then start else page * PAGE_SIZE;
      assert start <= a < end && PageOf(a) == page;
    }
  }

  // ---------------------------------------------------------------------------
  // Clients that free only what they were given
  // ---------------------------------------------------------------------------

  datatype Client = Client(f: Frames, owned: set<nat>)
  datatype Request = Get | GiveBack(page: nat)

  predicate Honest(c: Client, r: Request) {
    r.GiveBack? ==> r.page in c.owned
  }

  function Serve(c: Client, r: Request): (d: Client)
    requires WellFormed(c.f)
    ensures WellFormed(d.f)
  {
    match r
    case Get =>
      if AllocResult(c.f) == NULL then Client(Alloc(c.f), c.owned)
      else Client(Alloc(c.f), c.owned + {PageOf(AllocResult(c.f))})
    case GiveBack(p) => Client(Free(c.f, AddressOf(p)), c.owned - {p})
  }

  predicate AllHonest(c: Client, rs: seq<Request>)
    requires WellFormed(c.f)
    decreases |rs|
  {
    rs == [] || (Honest(c, rs[0]) && AllHonest(Serve(c, rs[0]), rs[1..]))
  }

  function ServeAll(c: Client, rs: seq<Request>): (d: Client)
    requires WellFormed(c.f)
    ensures WellFormed(d.f)
    decreases |rs|
  {
    if rs == [] then c else ServeAll(Serve(c, rs[0]), rs[1..])
  }

  /** Frames in use are the reserved ones and the ones handed out, and these are apart and below 4 GiB. */
  ghost predicate Accounted(c: Client, reserved: seq<bool>) {
    && WellFormed(c.f) && |reserved| == |c.f.bits|
    && (forall p :: p in c.owned ==> p < c.f.total && p < ADDRESSABLE && !reserved[p])
    && (forall p :: 0 <= p < |reserved| ==> (c.f.bits[p] <==> reserved[p] || p in c.owned))
    && Count(c.f.bits, c.f.total) == Count(reserved, c.f.total) + |c.owned|
  }

  /** The next allocation takes a frame below 4 GiB, or none. */
  predicate NextIsLow(f: Frames)
    requires WellFormed(f)
  {
    FirstFree(f, 0) == f.total || FirstFree(f, 0) < ADDRESSABLE
  }

  predicate Low(c: Client, r: Request)
    requires WellFormed(c.f)
  {
    r.Get? ==> NextIsLow(c.f)
  }

  /** No request of the run takes a frame above 4 GiB. */
  predicate AllLow(c: Client, rs: seq<Request>)
    requires WellFormed(c.f)
    decreases |rs|
  {
    rs == [] || (Low(c, rs[0]) && AllLow(Serve(c, rs[0]), rs[1..]))
  }

  /** What a pointer handed out means: its frame is nobody's exactly when the frame taken lies below 4 GiB. */
  lemma HandedOutIff(c: Client, reserved: seq<bool>)
    requires Accounted(c, reserved) && 0 < c.f.total && reserved[0] && AllocResult(c.f) != NULL
    ensures
      var p := PageOf(AllocResult(c.f));
      p < |reserved| && (!reserved[p] && p !in c.owned <==> FirstFree(c.f, 0) < ADDRESSABLE)
  {
    AliasAbove4GiB(c.f);
  }

  lemma ServeAccounted(c: Client, reserved: seq<bool>, r: Request)
    requires Accounted(c, reserved) && Honest(c, r) && Low(c, r) && 0 < c.f.total && reserved[0]
    ensures Accounted(Serve(c, r), reserved)
    ensures r.Get? ==> (AllocResult(c.f) == NULL <==> FirstFree(c.f, 0) == c.f.total)
  {
    match r
    case Get =>
      var p := FirstFree(c.f, 0);
      assert p != 0;
      if p < c.f.total {
        AddressNamesFrame(p);
        CountMark(c.f.bits, c.f.total, p, true);
        assert AllocResult(c.f) != NULL;
      }
    case GiveBack(p) =>
      AddressNamesFrame(p);
      CountMark(c.f.bits, c.f.total, p, false);
  }

  /** A frame above 4 GiB that nobody can name is in use. */
  ghost predicate Stranded(f: Frames, reserved: seq<bool>) {
    exists p :: ADDRESSABLE <= p < |f.bits| && p < |reserved| && f.bits[p] && !reserved[p]
  }

  lemma ServeStrands(c: Client, reserved: seq<bool>, r: Request)
    requires WellFormed(c.f) && |reserved| == |c.f.bits|
    requires Stranded(c.f, reserved) || (Accounted(c, reserved) && !Low(c, r))
    ensures Stranded(Serve(c, r).f, reserved)
  {
    var d := Serve(c, r).f;
    if Stranded(c.f, reserved) {
      var p :| ADDRESSABLE <= p < |c.f.bits| && c.f.bits[p] && !reserved[p];
      assert d.bits[p] by {
        if r.GiveBack? { AddressNamesFrame(r.page); }
      }
    } else {
      var p := FirstFree(c.f, 0);
      assert d.bits[p] && !reserved[p];
    }
  }

  lemma {:induction false} StaysStranded(c: Client, reserved: seq<bool>, rs: seq<Request>)
    requires WellFormed(c.f) && |reserved| == |c.f.bits| && Stranded(c.f, reserved)
    ensures Stranded(ServeAll(c, rs).f, reserved)
    decreases |rs|
  {
    if rs != [] {
      ServeStrands(c, reserved, rs[0]);
      StaysStranded(Serve(c, rs[0]), reserved, rs[1..]);
    }
  }

  /** Over runs of honest clients the accounts stay right exactly as long as every frame taken lies below 4 GiB. */
  lemma {:induction false} AccountedIff(c: Client, reserved: seq<bool>, rs: seq<Request>)
    requires Accounted(c, reserved) && AllHonest(c, rs) && 0 < c.f.total && reserved[0]
    ensures Accounted(ServeAll(c, rs), reserved) <==> AllLow(c, rs)
    decreases |rs|
  {
    if rs != [] {
      var d := Serve(c, rs[0]);
      if Low(c, rs[0]) {
        ServeAccounted(c, reserved, rs[0]);
        assert d.f.total == c.f.total;
        AccountedIff(d, reserved, rs[1..]);
      } else {
        ServeStrands(c, reserved, rs[0]);
        StaysStranded(d, reserved, rs[1..]);
        NotAccounted(ServeAll(c, rs), reserved);
      }
    }
  }

  lemma NotAccounted(c: Client, reserved: seq<bool>)
    requires WellFormed(c.f) && Stranded(c.f, reserved)
    ensures !Accounted(c, reserved)
  {
    var p :| ADDRESSABLE <= p < |c.f.bits| && p < |reserved| && c.f.bits[p] && !reserved[p];
    assert Accounted(c, reserved) ==> p in c.owned;
  }

  /**
   After every run of honest clients whose frames lay below 4 GiB, what the next allocation hands
   out is neither reserved nor live if and only if its frame lies below 4 GiB as well.
   */
  lemma NeverHandedOut(c: Client, reserved: seq<bool>, rs: seq<Request>)
    requires Accounted(c, reserved) && AllHonest(c, rs) && AllLow(c, rs) && 0 < c.f.total && reserved[0]
    ensures
      var d := ServeAll(c, rs);
      && Accounted(d, reserved)
      && (AllocResult(d.f) != NULL ==>
            var p := PageOf(AllocResult(d.f));
            p < |reserved| && (!reserved[p] && p !in d.owned <==> FirstFree(d.f, 0) < ADDRESSABLE))
  {
    AccountedIff(c, reserved, rs);
    SameTotal(c, rs);
    var d := ServeAll(c, rs);
    if AllocResult(d.f) != NULL { HandedOutIff(d, reserved); }
  }

  lemma {:induction false} SameTotal(c: Client, rs: seq<Request>)
    requires WellFormed(c.f)
    ensures ServeAll(c, rs).f.total == c.f.total && |ServeAll(c, rs).f.bits| == |c.f.bits|
    decreases |rs|
  {
    if rs != [] { SameTotal(Serve(c, rs[0]), rs[1..]); }
  }

  /** On a machine with at most 4 GiB every frame lies below. */
  lemma {:induction false} SmallRun(c: Client, rs: seq<Request>)
    requires WellFormed(c.f) && c.f.total <= ADDRESSABLE
    ensures AllLow(c, rs)
    decreases |rs|
  {
    if rs != [] { SmallRun(Serve(c, rs[0]), rs[1..]); }
  }

  /** Above 4 GiB it fails: the address handed out for a frame names another frame, which may be in use. */
  lemma AliasAbove4GiB(f: Frames)
    requires WellFormed(f) && FirstFree(f, 0) < f.total
    ensures PageOf(AllocResult(f)) == FirstFree(f, 0) <==> FirstFree(f, 0) < ADDRESSABLE
    ensures FirstFree(f, 0) >= ADDRESSABLE ==> f.bits[PageOf(AllocResult(f))]
  {
    var p := FirstFree(f, 0);
    AddressNamesFrame(p);
  }

  /** 1 MiB where the kernel is loaded, and 256 MiB at 4 GiB. */
  const HIGH_MEMORY: BootInfo :=
    MemoryMap([Region(LOW_MEMORY, LOW_MEMORY, true), Region(0x1_0000_0000, 0x1000_0000, true)])

  lemma HighMemoryFacts(p: nat)
    ensures TotalPages(HIGH_MEMORY) == 0x11_0000
    ensures OfferedAtBoot(HIGH_MEMORY, p) <==> 0x100 <= p < 0x200 || ADDRESSABLE <= p < 0x11_0000
  {
    var rs := HIGH_MEMORY.regions;
    assert RegionEnd(rs[0]) == 0x20_0000 && RegionEnd(rs[1]) == 0x1_1000_0000;
    assert rs[..1] == [rs[0]] && rs[..1][..0] == [];
    assert MaxEnd(rs[..1]) == 0x20_0000;
    assert MaxEnd(rs) == 0x1_1000_0000;
    assert Offers(rs[0], p) <==> 0x100 <= p < 0x200;
    assert Offers(rs[1], p) <==> ADDRESSABLE <= p < 0x11_0000;
  }

  /** With such a memory map and a kernel that fills its 1 MiB the first allocation takes a frame and returns NULL. */
  lemma FirstFrameIsLost(f: Frames, kernelStart: nat, kernelEnd: nat)
    requires |f.bits| == BITS && f.total == TotalPages(HIGH_MEMORY)
    requires kernelStart == LOW_MEMORY && kernelEnd == 2 * LOW_MEMORY
    requires forall p :: 0 <= p < BITS ==> (f.bits[p] <==> !FreeAtBoot(HIGH_MEMORY, kernelStart, kernelEnd, p))
    ensures WellFormed(f) && FirstFree(f, 0) == ADDRESSABLE < f.total && AllocResult(f) == NULL && Alloc(f) != f
  {
    forall p | 0 <= p < 0x11_0000 ensures f.bits[p] <==> p < ADDRESSABLE {
      HighMemoryFacts(p);
      assert Touches(kernelStart, kernelEnd, p) <==> 0x100 <= p < 0x200;
    }
    HighMemoryFacts(0);
    AddressNamesFrame(ADDRESSABLE);
    assert !f.bits[ADDRESSABLE];
  }
}
