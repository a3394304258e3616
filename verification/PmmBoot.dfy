/**
 Which frames are free after pmm_init, said in addresses: a frame is free if its last byte lies
 in an available region that starts above 1 MiB, and no byte of it belongs to the kernel. Page
 numbers have 32 bits, so this holds for regions that end below 16 TiB.
 */
module PmmBoot {
  import opened PmmModel

  const TIB_16: nat := 0x1000_0000_0000

  /** No region reaches the address from which page numbers wrap. */
  predicate PagesFit(info: BootInfo) {
    info.MemoryMap? ==> forall i :: 0 <= i < |info.regions| ==> info.regions[i].addr + info.regions[i].len < TIB_16
  }

  /** The last byte of the frame lies in the region, which is available and starts above 1 MiB. */
  predicate EndsIn(r: Region, page: nat) {
    r.available && r.addr >= 0x10_0000 && r.addr < (page + 1) * 4096 <= r.addr + r.len
  }

  lemma OffersIff(r: Region, page: nat)
    requires r.addr + r.len < TIB_16
    ensures Offers(r, page) <==> EndsIn(r, page)
  {
    if r.available && r.addr >= LOW_MEMORY { RegionPages(r, page); }
    Frame(r.addr, page);
    Frame(r.addr + r.len, page);
  }

  lemma Frame(a: nat, page: nat)
    ensures a / PAGE_SIZE <= page <==> a < (page + 1) * 4096
    ensures page < a / PAGE_SIZE <==> (page + 1) * 4096 <= a
  {
  }

  /** The boot information offers the frame. */
  predicate Offered(info: BootInfo, page: nat) {
    match info
    case MemoryMap(regions) => exists i :: 0 <= i < |regions| && EndsIn(regions[i], page)
    case Sizes(_, _) => page * 4096 >= 0x10_0000
  }

  /** Free after boot are exactly the offered frames the manager has a bit for, without frame 0 and the kernel. */
  lemma BootFreesIff(info: BootInfo, kernelStart: nat, kernelEnd: nat, page: nat)
    requires PagesFit(info)
    ensures FreeAtBoot(info, kernelStart, kernelEnd, page) <==>
        page < TotalPages(info) && page != 0 && Offered(info, page)
        && forall a: nat {:trigger PageOf(a)} :: kernelStart <= a < kernelEnd ==> PageOf(a) != page
  {
    TouchesMeansOverlap(kernelStart, kernelEnd, page);
    if info.MemoryMap? {
      forall i | 0 <= i < |info.regions| ensures Offers(info.regions[i], page) <==> EndsIn(info.regions[i], page) {
        OffersIff(info.regions[i], page);
      }
    }
  }

  /** The first MiB is never free. */
  lemma LowMemoryIsReserved(info: BootInfo, kernelStart: nat, kernelEnd: nat, page: nat)
    requires PagesFit(info) && page * 4096 < 0x10_0000
    ensures !FreeAtBoot(info, kernelStart, kernelEnd, page)
  {
    BootFreesIff(info, kernelStart, kernelEnd, page);
  }

  /** A region that starts at 16 TiB gives frame 1 away, because its page numbers wrap; frame 0 is reserved even so. */
  lemma HighRegionFreesLowMemory(r: Region, kernelStart: nat, kernelEnd: nat)
    requires r == Region(TIB_16, 2 * PAGE_SIZE, true) && LOW_MEMORY <= kernelStart
    ensures FreeAtBoot(MemoryMap([r]), kernelStart, kernelEnd, 1)
    ensures Offers(r, 0) && !FreeAtBoot(MemoryMap([r]), kernelStart, kernelEnd, 0)
  {
    var rs := [r];
    assert RegionEnd(r) == TIB_16 + 8192 && StartPage(r) == 0 && EndPage(r) == 2;
    assert rs[..0] == [];
    assert MaxEnd(rs) == TIB_16 + 8192;
    assert Offers(rs[0], 1);
  }

  /** The number of frames managed: up to the end of the highest available region, or to the last bit of the bitmap. */
  lemma ManagedIs(info: BootInfo)
    requires PagesFit(info)
    ensures
      var t := TotalPages(info);
      match info
      case MemoryMap(rs) =>
        && (t == 0x80_0000 || forall i :: 0 <= i < |rs| && rs[i].available ==> (rs[i].addr + rs[i].len) / 4096 <= t)
        && (t == 0 || exists i :: 0 <= i < |rs| && rs[i].available && t <= (rs[i].addr + rs[i].len) / 4096)
      case Sizes(lower, upper) => lower + upper < 0x40_0000 ==> t == (lower + upper) / 4
  {
    if info.MemoryMap? { MapManages(info.regions, MaxEnd(info.regions)); }
  }

  lemma MapManages(rs: seq<Region>, m: nat)
    requires PagesFit(MemoryMap(rs)) && m == MaxEnd(rs)
    ensures
      var t := TotalPages(MemoryMap(rs));
      && (t == 0x80_0000 || forall i :: 0 <= i < |rs| && rs[i].available ==> (rs[i].addr + rs[i].len) / 4096 <= t)
      && (t == 0 || exists i :: 0 <= i < |rs| && rs[i].available && t <= (rs[i].addr + rs[i].len) / 4096)
  {
    forall i | 0 <= i < |rs| ensures RegionEnd(rs[i]) == rs[i].addr + rs[i].len < TIB_16 { EndFits(rs[i]); }
    PageFits(m);
    forall i | 0 <= i < |rs| && rs[i].available ensures (rs[i].addr + rs[i].len) / 4096 <= m / 4096 {
      LowerPage(RegionEnd(rs[i]), m);
    }
  }

  lemma EndFits(r: Region)
    requires r.addr + r.len < TIB_16
    ensures RegionEnd(r) == r.addr + r.len
  {
  }

  lemma PageFits(m: nat)
    requires m < TIB_16
    ensures (m / PAGE_SIZE) % UINT32_SIZE == m / PAGE_SIZE == m / 4096
  {
  }

  lemma LowerPage(x: nat, m: nat)
    requires x <= m
    ensures x / 4096 <= m / 4096
  {
  }

  // ---------------------------------------------------------------------------
  // Marking
  // ---------------------------------------------------------------------------

  /** pmm_mark_used and pmm_free_page set and clear the one frame the address lies in, if it is managed. */
  lemma MarkAndFree(f: Frames, a: nat, p: nat)
    requires WellFormed(f) && p < |f.bits|
    ensures MarkUsed(f, a).total == Free(f, a).total == f.total && |MarkUsed(f, a).bits| == |f.bits|
    ensures MarkUsed(f, a).bits[p] <==> f.bits[p] || (p < f.total && a / 4096 == p)
    ensures Free(f, a).bits[p] <==> f.bits[p] && !(p < f.total && a / 4096 == p)
  {
  }

  /** Either undoes the other where the other did something. */
  lemma MarkUndoesFree(f: Frames, a: nat)
    requires WellFormed(f) && PageOf(a) < f.total
    ensures if f.bits[PageOf(a)] then MarkUsed(Free(f, a), a) == f else Free(MarkUsed(f, a), a) == f
  {
    var p := PageOf(a);
    assert f.bits[p] ==> f.bits[p := false][p := true] == f.bits;
    assert !f.bits[p] ==> f.bits[p := true][p := false] == f.bits;
  }
}
