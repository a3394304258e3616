/**
 The heap on its arena: kmain carves the arena out of the frame allocator and gives it to the
 heap, and from then on the two never meet.
 */
module HeapArena {
  import PmmModel
  import Pmm
  import opened HeapModel
  import opened HeapProperties

  /** Byte a belongs to the live block b of a heap that was set up on [base, base + size) and has served ops. */
  ghost predicate LiveByte(base: nat, size: nat, ops: seq<HeapOp>, b: Block, a: nat) {
    && size >= HEADER_SIZE
    && var arena := [Block(base, size - HEADER_SIZE, true)];
       LegalOps(arena, ops) && b in LiveBlocks(ApplyAll(arena, ops)) && Payload(b) <= a < Payload(b) + b.size
  }

  /** The frame handed out next contains byte a. */
  ghost predicate NextMeets(f: PmmModel.Frames, a: nat)
    requires PmmModel.WellFormed(f)
  {
    var r := PmmModel.AllocResult(f);
    r != PmmModel.NULL && r <= a < r + PmmModel.PAGE_SIZE
  }

  /** The frame taken next lies above 4 GiB, and its 32-bit address names the frame of byte a. */
  ghost predicate NextAliases(f: PmmModel.Frames, a: nat)
    requires PmmModel.WellFormed(f)
  {
    var q := PmmModel.FirstFree(f, 0);
    PmmModel.ADDRESSABLE <= q < f.total && q % PmmModel.ADDRESSABLE == PmmModel.PageOf(a)
  }

  /**
   Whatever the heap has done since heap_init on the arena kmain carved out, and whatever frames
   below 4 GiB its other clients have taken and given back: the next frame handed out meets a
   byte of a live heap payload if and only if it lies above 4 GiB and aliases the frame of that
   byte.
   */
  lemma NoFrameMeetsThePayloads(f: PmmModel.Frames, limit: nat, first: nat, n: nat, g: PmmModel.Frames,
                                ops: seq<HeapOp>, rs: seq<PmmModel.Request>, b: Block, a: nat)
    requires limit == Pmm.HEAP_PAGES && Pmm.ArenaIs(f, limit, first, n, g)
    requires PmmModel.AllHonest(PmmModel.Client(g, {}), rs) && PmmModel.AllLow(PmmModel.Client(g, {}), rs)
    requires LiveByte(PmmModel.AllocResult(f), n * PmmModel.PAGE_SIZE, ops, b, a)
    ensures
      var d := PmmModel.ServeAll(PmmModel.Client(g, {}), rs).f;
      NextMeets(d, a) <==> NextAliases(d, a)
  {
    Pmm.ArenaFacts(f, limit, first, n, g);
    PayloadStaysInside(PmmModel.AllocResult(f), n * PmmModel.PAGE_SIZE, ops, b, a);
    InBytes(first, n, a);
    Pmm.ArenaIsNeverHandedOut(f, limit, first, n, g, rs, a);
  }

  lemma InBytes(first: nat, n: nat, a: nat)
    requires first * PmmModel.PAGE_SIZE <= a < first * PmmModel.PAGE_SIZE + n * PmmModel.PAGE_SIZE
    ensures a < (first + n) * PmmModel.PAGE_SIZE
  {
  }

  /** On a machine with at most 4 GiB, where the carve-out always succeeds if a frame is free, it never does. */
  lemma NeverOnASmallMachine(f: PmmModel.Frames, limit: nat, first: nat, n: nat, g: PmmModel.Frames,
                             ops: seq<HeapOp>, rs: seq<PmmModel.Request>, b: Block, a: nat)
    requires PmmModel.WellFormed(f) && 0 < f.total <= PmmModel.ADDRESSABLE && f.bits[0]
    requires limit == Pmm.HEAP_PAGES && first == PmmModel.FirstFree(f, 0) < f.total && (g, n) == Pmm.Carve(f, limit)
    requires PmmModel.AllHonest(PmmModel.Client(g, {}), rs)
    requires LiveByte(PmmModel.AllocResult(f), n * PmmModel.PAGE_SIZE, ops, b, a)
    ensures !NextMeets(PmmModel.ServeAll(PmmModel.Client(g, {}), rs).f, a)
  {
    Pmm.SmallMachine(f, first + 1, limit - 1);
    Pmm.ArenaFacts(f, limit, first, n, g);
    PmmModel.SmallRun(PmmModel.Client(g, {}), rs);
    PmmModel.SameTotal(PmmModel.Client(g, {}), rs);
    NoFrameMeetsThePayloads(f, limit, first, n, g, ops, rs, b, a);
  }

  /** After any heap run the bytes of a live payload lie in the arena. */
  lemma PayloadStaysInside(base: nat, size: nat, ops: seq<HeapOp>, b: Block, a: nat)
    requires LiveByte(base, size, ops, b, a)
    ensures base <= a < base + size
  {
    var arena := [Block(base, size - HEADER_SIZE, true)];
    FreshArena(base, size);
    EveryHeapRun(arena, base, size, ops);
    LivePayloads(ApplyAll(arena, ops), base, size, b, b);
  }
}
