/**
 What the heap promises its clients: disjoint payloads, the lowest fitting block, an exact
 kmalloc/kfree round trip, an arena that is whole again once everything is freed, and exact
 accounting, over every run.
 */
module HeapProperties {
  import opened HeapModel
  import Arithmetic

  // ---------------------------------------------------------------------------
  // Live blocks
  // ---------------------------------------------------------------------------

  ghost function LiveBlocks(blocks: seq<Block>): set<Block> {
    set b | b in blocks && !b.free
  }

  function Payload(b: Block): nat {
    b.addr + HEADER_SIZE
  }

  /** Blocks lie one after the other, so payloads never overlap. */
  lemma {:induction false} BlocksAscend(blocks: seq<Block>, lo: nat, hi: nat, i: nat, j: nat)
    requires Tiles(blocks, lo, hi) && i < j < |blocks|
    ensures End(blocks[i]) <= blocks[j].addr
    decreases j
  {
    TilesBounds(blocks, lo, hi, j - 1);
    if i < j - 1 { BlocksAscend(blocks, lo, hi, i, j - 1); }
  }

  /** Two different live blocks have disjoint payloads, inside the arena, and 8-aligned if the arena is. */
  lemma LivePayloads(blocks: seq<Block>, base: nat, size: nat, a: Block, b: Block)
    requires HeapInv(blocks, base, size) && a in LiveBlocks(blocks) && b in LiveBlocks(blocks)
    ensures a != b ==> End(a) <= b.addr || End(b) <= a.addr
    ensures base + HEADER_SIZE <= Payload(a) && Payload(a) + a.size <= base + size
    ensures OnGrid(blocks, base) ==> (Payload(a) % 8 == 0 <==> base % 8 == 0)
  {
    var i :| 0 <= i < |blocks| && blocks[i] == a;
    var j :| 0 <= j < |blocks| && blocks[j] == b;
    TilesBounds(blocks, base, base + size, i);
    if i < j {
      BlocksAscend(blocks, base, base + size, i, j);
    } else if j < i {
      BlocksAscend(blocks, base, base + size, j, i);
    }
  }

  lemma DistinctAddresses(blocks: seq<Block>, lo: nat, hi: nat, i: nat, j: nat)
    requires Tiles(blocks, lo, hi) && i < |blocks| && j < |blocks| && i != j
    ensures blocks[i].addr != blocks[j].addr
  {
    if i < j { BlocksAscend(blocks, lo, hi, i, j); } else { BlocksAscend(blocks, lo, hi, j, i); }
  }

  lemma AllocLive(blocks: seq<Block>, lo: nat, hi: nat, i: nat, want: nat)
    requires Tiles(blocks, lo, hi) && i < |blocks| && Fits(blocks[i], want)
    ensures LiveBlocks(AllocAt(blocks, i, want)) == LiveBlocks(blocks) + {Taken(blocks[i], want)}
    ensures forall b :: b in LiveBlocks(blocks) ==> b.addr != blocks[i].addr
  {
    AllocIndex(blocks, i, want);
    var r := AllocAt(blocks, i, want);
    var n := if Splits(blocks[i], want) then 1 else 0;
    forall b | b in LiveBlocks(r) ensures b in LiveBlocks(blocks) + {Taken(blocks[i], want)} {
      var k :| 0 <= k < |r| && r[k] == b;
      assert k != i ==> (k < i && b == blocks[k]) || (k >= i + 1 + n && b == blocks[k - n]);
    }
    forall b | b in LiveBlocks(blocks) ensures b in LiveBlocks(r) && b.addr != blocks[i].addr {
      var k :| 0 <= k < |blocks| && blocks[k] == b;
      DistinctAddresses(blocks, lo, hi, k, i);
      assert r[if k < i then k else k + n] == b;
    }
    assert r[i] in LiveBlocks(r);
  }

  lemma MergeLive(blocks: seq<Block>, i: nat)
    requires i < |blocks| && blocks[i].free
    ensures LiveBlocks(Merge(blocks, i)) == LiveBlocks(blocks)
  {
    MergeIndex(blocks, i);
    var r := Merge(blocks, i);
    var n := if i + 1 < |blocks| && blocks[i + 1].free then 1 else 0;
    forall b | b in LiveBlocks(r) ensures b in LiveBlocks(blocks) {
      var k :| 0 <= k < |r| && r[k] == b;
      assert b == blocks[if k < i then k else k + n];
    }
    forall b | b in LiveBlocks(blocks) ensures b in LiveBlocks(r) {
      var k :| 0 <= k < |blocks| && blocks[k] == b;
      assert r[if k < i then k else k - n] == b;
    }
  }

  lemma MarkFreeLive(blocks: seq<Block>, lo: nat, hi: nat, i: nat)
    requires Tiles(blocks, lo, hi) && i < |blocks|
    ensures LiveBlocks(MarkFree(blocks, i)) == LiveBlocks(blocks) - {blocks[i]}
  {
    var r := MarkFree(blocks, i);
    forall b | b in LiveBlocks(r) ensures b in LiveBlocks(blocks) - {blocks[i]} {
      var k :| 0 <= k < |r| && r[k] == b;
      DistinctAddresses(blocks, lo, hi, k, i);
    }
    forall b | b in LiveBlocks(blocks) - {blocks[i]} ensures b in LiveBlocks(r) {
      var k :| 0 <= k < |blocks| && blocks[k] == b;
      assert r[k] == b;
    }
  }

  lemma FreeLive(blocks: seq<Block>, lo: nat, hi: nat, i: nat)
    requires Tiles(blocks, lo, hi) && i < |blocks|
    ensures LiveBlocks(FreeAt(blocks, i)) == LiveBlocks(blocks) - {blocks[i]}
  {
    MarkFreeLive(blocks, lo, hi, i);
    var f := MarkFree(blocks, i);
    MergeLive(f, i);
    if i > 0 && Merge(f, i)[i - 1].free { MergeLive(Merge(f, i), i - 1); }
  }

  // ---------------------------------------------------------------------------
  // Round trip
  // ---------------------------------------------------------------------------

  /** Freeing a block right after it was allocated restores the block list exactly. */
  lemma RoundTrip(blocks: seq<Block>, i: nat, want: nat)
    requires Coalesced(blocks) && i < |blocks| && Fits(blocks[i], want)
    ensures i < |AllocAt(blocks, i, want)| && FreeAt(AllocAt(blocks, i, want), i) == blocks
  {
    var b, r := blocks[i], AllocAt(blocks, i, want);
    AllocIndex(blocks, i, want);
    var f := MarkFree(r, i);
    var m := Merge(f, i);
    assert i > 0 ==> !blocks[i - 1].free;
    assert i + 1 < |blocks| ==> !blocks[i + 1].free;
    if Splits(b, want) {
      assert f[..i] == blocks[..i] && f[i + 2..] == blocks[i + 1..];
      assert f[i].(size := f[i].size + HEADER_SIZE + f[i + 1].size) == b;
      assert m == blocks[..i] + [b] + blocks[i + 1..];
    } else {
      assert f == blocks[..i] + [b] + blocks[i + 1..];
    }
    assert blocks == blocks[..i] + [b] + blocks[i + 1..];
  }

  // ---------------------------------------------------------------------------
  // Accounting
  // ---------------------------------------------------------------------------

  function TotalPayload(blocks: seq<Block>): nat {
    if blocks == [] then 0 else blocks[0].size + TotalPayload(blocks[1..])
  }

  /** Payload bytes of the blocks in use. */
  function UsedPayload(blocks: seq<Block>): nat {
    if blocks == [] then 0 else (if blocks[0].free then 0 else blocks[0].size) + UsedPayload(blocks[1..])
  }

  /** Payload bytes plus one header per block make up the arena. */
  lemma {:induction false} Accounting(blocks: seq<Block>, lo: nat, hi: nat)
    requires Tiles(blocks, lo, hi)
    ensures TotalPayload(blocks) + HEADER_SIZE * |blocks| == hi - lo
    decreases |blocks|
  {
    if blocks != [] { Accounting(blocks[1..], End(blocks[0]), hi); }
  }

  // ---------------------------------------------------------------------------
  // Runs
  // ---------------------------------------------------------------------------

  datatype HeapOp = Malloc(size: nat, alignment: nat) | Free(ptr: nat)

  /** The block whose payload starts at ptr, or |blocks|. */
  function BlockAtFrom(blocks: seq<Block>, ptr: nat, i: nat): (r: nat)
    requires i <= |blocks|
    ensures i <= r <= |blocks|
    ensures r < |blocks| ==> Payload(blocks[r]) == ptr
    ensures forall j :: i <= j < r ==> Payload(blocks[j]) != ptr
    decreases |blocks| - i
  {
    if i == |blocks| || Payload(blocks[i]) == ptr then i else BlockAtFrom(blocks, ptr, i + 1)
  }

  /** The new block list and, for an allocation, the pointer returned (0 stands for NULL). */
  function Kmalloc(blocks: seq<Block>, size: nat, alignment: nat): (seq<Block>, nat) {
    var i := FirstFitFrom(blocks, Want(size, alignment), 0);
    if size == 0 || i == |blocks| then (blocks, 0)
    else (AllocAt(blocks, i, Want(size, alignment)), Payload(blocks[i]))
  }

  function Kfree(blocks: seq<Block>, ptr: nat): seq<Block> {
    var i := BlockAtFrom(blocks, ptr, 0);
    if ptr == 0 || i == |blocks| then blocks else FreeAt(blocks, i)
  }

  function Apply(blocks: seq<Block>, op: HeapOp): seq<Block> {
    match op
    case Malloc(size, alignment) => Kmalloc(blocks, size, alignment).0
    case Free(ptr) => Kfree(blocks, ptr)
  }

  ghost predicate LivePointer(blocks: seq<Block>, ptr: nat) {
    exists b :: b in LiveBlocks(blocks) && Payload(b) == ptr
  }

  /** kmalloc with any 32-bit size and alignment; kfree of NULL or of a live pointer. */
  ghost predicate LegalOp(blocks: seq<Block>, op: HeapOp) {
    match op
    case Malloc(size, alignment) => size < UINT32_SIZE && alignment < UINT32_SIZE
    case Free(ptr) => ptr == 0 || LivePointer(blocks, ptr)
  }

  lemma FindLive(blocks: seq<Block>, lo: nat, hi: nat, ptr: nat)
    requires Tiles(blocks, lo, hi) && LivePointer(blocks, ptr)
    ensures var i := BlockAtFrom(blocks, ptr, 0); i < |blocks| && !blocks[i].free && Payload(blocks[i]) == ptr
  {
    var b :| b in LiveBlocks(blocks) && Payload(b) == ptr;
    var k :| 0 <= k < |blocks| && blocks[k] == b;
    var i := BlockAtFrom(blocks, ptr, 0);
    if i != k { DistinctAddresses(blocks, lo, hi, i, k); }
  }

  lemma ApplyInv(blocks: seq<Block>, base: nat, size: nat, op: HeapOp)
    requires HeapInv(blocks, base, size) && LegalOp(blocks, op)
    ensures HeapInv(Apply(blocks, op), base, size)
  {
    match op
    case Malloc(n, alignment) =>
      var i := FirstFitFrom(blocks, Want(n, alignment), 0);
      if n > 0 && i < |blocks| { AllocInv(blocks, base, size, i, Want(n, alignment)); }
    case Free(ptr) =>
      if ptr != 0 {
        FindLive(blocks, base, base + size, ptr);
        FreeInv(blocks, base, size, BlockAtFrom(blocks, ptr, 0));
      }
  }

  function ApplyAll(blocks: seq<Block>, ops: seq<HeapOp>): seq<Block>
    decreases |ops|
  {
    if ops == [] then blocks else ApplyAll(Apply(blocks, ops[0]), ops[1..])
  }

  ghost predicate LegalOps(blocks: seq<Block>, ops: seq<HeapOp>)
    decreases |ops|
  {
    ops == [] || (LegalOp(blocks, ops[0]) && LegalOps(Apply(blocks, ops[0]), ops[1..]))
  }

  /** The heap invariant holds after every run of kmalloc and of kfree on live pointers. */
  lemma {:induction false} EveryHeapRun(blocks: seq<Block>, base: nat, size: nat, ops: seq<HeapOp>)
    requires HeapInv(blocks, base, size) && LegalOps(blocks, ops)
    ensures HeapInv(ApplyAll(blocks, ops), base, size)
    decreases |ops|
  {
    if ops != [] {
      ApplyInv(blocks, base, size, ops[0]);
      EveryHeapRun(Apply(blocks, ops[0]), base, size, ops[1..]);
    }
  }

  /** The operation asks for an alignment below 8, which is raised to 8, or for a multiple of 8. */
  predicate ByEights(op: HeapOp) {
    op.Malloc? ==> EffectiveAlignment(op.alignment) % 8 == 0
  }

  lemma ApplyOnGrid(blocks: seq<Block>, base: nat, op: HeapOp)
    requires OnGrid(blocks, base) && LegalOp(blocks, op) && ByEights(op)
    ensures OnGrid(Apply(blocks, op), base)
  {
    match op
    case Malloc(n, alignment) =>
      var i := FirstFitFrom(blocks, Want(n, alignment), 0);
      if n > 0 && i < |blocks| {
        WantBy8(n, alignment, EffectiveAlignment(alignment));
        AllocOnGrid(blocks, base, i, Want(n, alignment));
      }
    case Free(ptr) =>
      var i := BlockAtFrom(blocks, ptr, 0);
      if i < |blocks| { FreeOnGrid(blocks, base, i); }
  }

  /** With such alignments every block stays a multiple of 8 above the start of the arena. */
  lemma {:induction false} EveryAlignedRun(blocks: seq<Block>, base: nat, ops: seq<HeapOp>)
    requires OnGrid(blocks, base) && LegalOps(blocks, ops) && forall i :: 0 <= i < |ops| ==> ByEights(ops[i])
    ensures OnGrid(ApplyAll(blocks, ops), base)
    decreases |ops|
  {
    if ops != [] {
      ApplyOnGrid(blocks, base, ops[0]);
      EveryAlignedRun(Apply(blocks, ops[0]), base, ops[1..]);
    }
  }

  lemma OffGrid(base: nat, addr: nat, want: nat)
    requires addr == base + HEADER_SIZE + want && want % 8 != 0
    ensures (addr - base) % 8 != 0
  {
  }

  /** Any other alignment puts the block after a one-byte request off the grid. */
  lemma OddAlignmentLeavesGrid(base: nat, size: nat, alignment: nat)
    requires alignment < UINT32_SIZE && EffectiveAlignment(alignment) % 8 != 0
    requires size >= alignment + HEADER_SIZE + MIN_PAYLOAD
    ensures !OnGrid(Kmalloc([Block(base, size, true)], 1, alignment).0, base)
  {
    var arena, want := [Block(base, size, true)], Want(1, alignment);
    WantNotBy8(1, alignment, alignment);
    WantFacts(1, alignment);
    var one := Kmalloc(arena, 1, alignment).0;
    assert one == [Taken(arena[0], want), Rest(arena[0], want)];
    OffGrid(base, one[1].addr, want);
  }

  /** heap_build_freelist satisfies the invariant. */
  lemma FreshArena(base: nat, size: nat)
    requires size >= HEADER_SIZE
    ensures
      var blocks := [Block(base, size - HEADER_SIZE, true)];
      HeapInv(blocks, base, size) && OnGrid(blocks, base)
  {
    assert [Block(base, size - HEADER_SIZE, true)][1..] == [];
  }

  /**
   The payload covers the request exactly when rounding the request up does not wrap. Only for
   alignments within 32 bytes of 2^32 a block that is not worth splitting may cover it as well.
   */
  lemma PayloadCoversRequest(b: Block, n: nat, alignment: nat)
    requires 0 < n < UINT32_SIZE && alignment < UINT32_SIZE && Fits(b, Want(n, alignment))
    ensures
      var want := Want(n, alignment);
      var fits := n + EffectiveAlignment(alignment) - 1 < UINT32_SIZE;
      && (n <= Taken(b, want).size <==> fits || (!Splits(b, want) && n <= b.size))
      && (alignment <= UINT32_SIZE - (HEADER_SIZE + MIN_PAYLOAD) ==> (n <= Taken(b, want).size <==> fits))
  {
    WantFacts(n, alignment);
  }

  /** And a request it does not cover: 2^32 - 1 bytes are granted with a payload of none. */
  lemma HugeRequestGetsNothing(base: nat, size: nat, n: nat)
    requires n == UINT32_SIZE - 1 && base > 0 && size >= HEADER_SIZE + MIN_PAYLOAD
    ensures
      var (h, p) := Kmalloc([Block(base, size, true)], n, 8);
      p == base + HEADER_SIZE && h[0] == Block(base, 0, false)
  {
    assert IsPowerOfTwo(2) && IsPowerOfTwo(4);
    WantRoundsUp(n, 8);
    assert FirstFitFrom([Block(base, size, true)], 0, 0) == 0;
  }

  /** b is the lowest-addressed free block that fits. */
  ghost predicate LowestFit(blocks: seq<Block>, want: nat, b: Block) {
    b in blocks && Fits(b, want) && forall c :: c in blocks && Fits(c, want) ==> b.addr <= c.addr
  }

  /**
   kmalloc returns NULL exactly when no free block fits; otherwise it returns the payload of
   the lowest-addressed one that does, and that block is the only one whose owner changes.
   */
  lemma FirstFit(blocks: seq<Block>, base: nat, size: nat, n: nat, alignment: nat)
    requires HeapInv(blocks, base, size) && n > 0
    ensures
      var want, ptr := Want(n, alignment), Kmalloc(blocks, n, alignment).1;
      && (ptr == 0 <==> forall b :: b in blocks ==> !Fits(b, want))
      && (ptr != 0 ==> exists b :: LowestFit(blocks, want, b) && Payload(b) == ptr
                         && LiveBlocks(Kmalloc(blocks, n, alignment).0) == LiveBlocks(blocks) + {Taken(b, want)})
  {
    var want := Want(n, alignment);
    var i := FirstFitFrom(blocks, want, 0);
    if i < |blocks| {
      var b := blocks[i];
      forall c | c in blocks && Fits(c, want) ensures b.addr <= c.addr {
        var k :| 0 <= k < |blocks| && blocks[k] == c;
        if i < k { BlocksAscend(blocks, base, base + size, i, k); }
      }
      AllocLive(blocks, base, base + size, i, want);
      assert LowestFit(blocks, want, b);
    }
  }

  /** Alignments up to 8 are honoured in an aligned arena. */
  lemma SmallAlignmentsAreHonoured(blocks: seq<Block>, base: nat, size: nat, n: nat, alignment: nat)
    requires HeapInv(blocks, base, size) && OnGrid(blocks, base) && base % 8 == 0 && alignment in {1, 2, 4, 8}
    ensures Kmalloc(blocks, n, alignment).1 % alignment == 0
  {
    PointersBy8(blocks, base, size, n, alignment);
    DividesEight(Kmalloc(blocks, n, alignment).1, alignment);
  }

  lemma PointersBy8(blocks: seq<Block>, base: nat, size: nat, n: nat, alignment: nat)
    requires HeapInv(blocks, base, size) && OnGrid(blocks, base) && base % 8 == 0
    ensures Kmalloc(blocks, n, alignment).1 % 8 == 0
  {
    var i := FirstFitFrom(blocks, Want(n, alignment), 0);
    if i < |blocks| { assert (blocks[i].addr - base) % 8 == 0; }
  }

  lemma DividesEight(p: nat, a: nat)
    requires p % 8 == 0 && a in {1, 2, 4, 8}
    ensures p % a == 0
  {
    var k := p / 8;
    if a == 2 { assert p == 2 * (4 * k); } else if a == 4 { assert p == 4 * (2 * k); }
  }

  /**
   No larger alignment is: kmalloc_aligned rounds the size, not the address, so after one
   8-byte allocation the next pointer lies 40 bytes into the arena, however that is aligned.
   */
  lemma LargeAlignmentsAreNot(base: nat, size: nat, alignment: nat)
    requires IsPowerOfTwo(alignment) && 16 <= alignment < UINT32_SIZE
    requires base % alignment == 0 && size >= 64 + alignment
    ensures
      var one := Kmalloc([Block(base, size, true)], 8, 8).0;
      var p := Kmalloc(one, 1, alignment).1;
      p == base + 40 && p % alignment != 0
  {
    WantOfOne(alignment);
    assert IsPowerOfTwo(2) && IsPowerOfTwo(4);
    WantOfItself(8);
    SecondPointer(base, size, 8, 8, 8, 1, alignment, alignment);
    FortyIsMisaligned(base, alignment);
  }

  lemma WantOfOne(a: nat)
    requires 8 <= a < UINT32_SIZE && IsPowerOfTwo(a)
    ensures Want(1, a) == a
  {
    WantRoundsUp(1, a);
    assert RoundDown(a, a) == a + RoundDown(0, a);
  }

  lemma WantOfItself(a: nat)
    requires 8 <= a < 0x8000_0000 && IsPowerOfTwo(a)
    ensures Want(a, a) == a
  {
    WantRoundsUp(a, a);
    assert RoundDown(2 * a - 1, a) == a + RoundDown(a - 1, a);
  }

  /** Two allocations in a fresh arena: the second payload follows the first and its own header. */
  lemma SecondPointer(base: nat, size: nat, n: nat, a: nat, w: nat, m: nat, b: nat, v: nat)
    requires n > 0 && m > 0 && w == Want(n, a) && v == Want(m, b) && size >= w + v + HEADER_SIZE + MIN_PAYLOAD
    ensures Kmalloc(Kmalloc([Block(base, size, true)], n, a).0, m, b).1 == base + w + 2 * HEADER_SIZE
  {
    var arena := [Block(base, size, true)];
    var one := Kmalloc(arena, n, a).0;
    assert one == [Taken(arena[0], w), Rest(arena[0], w)];
    assert FirstFitFrom(one, v, 0) == FirstFitFrom(one, v, 1) == 1;
  }

  lemma PowerOfTwoBy16(a: nat)
    requires IsPowerOfTwo(a) && a >= 16
    ensures a % 16 == 0
  {
    PowerOfTwoBy8(a / 2);
    var c := a / 2 / 8;
    assert a == 16 * c;
  }

  lemma FortyBelow(base: nat, a: nat)
    requires a > 40 && base % a == 0
    ensures (base + 40) % a == 40
  {
    Arithmetic.DivModUnique(base + 40, a, base / a, 40);
  }

  lemma FortyIsMisaligned(base: nat, a: nat)
    requires IsPowerOfTwo(a) && a >= 16 && base % a == 0
    ensures (base + 40) % a != 0
  {
    if a == 16 {
      assert base % 16 == 0;
    } else if a == 32 {
      assert base % 32 == 0;
    } else {
      PowerOfTwoBy16(a);
      FortyBelow(base, a);
    }
  }

  // ---------------------------------------------------------------------------
  // Freeing everything
  // ---------------------------------------------------------------------------

  function FreeAll(blocks: seq<Block>, ptrs: seq<nat>): seq<Block>
    decreases |ptrs|
  {
    if ptrs == [] then blocks else FreeAll(Kfree(blocks, ptrs[0]), ptrs[1..])
  }

  /** The pointers are exactly the live ones, each once. */
  ghost predicate ListsLive(blocks: seq<Block>, ptrs: seq<nat>) {
    && (forall p :: p in ptrs <==> LivePointer(blocks, p))
    && (forall i, j :: 0 <= i < j < |ptrs| ==> ptrs[i] != ptrs[j])
  }

  lemma NothingLive(blocks: seq<Block>, base: nat, size: nat)
    requires HeapInv(blocks, base, size) && LiveBlocks(blocks) == {}
    ensures size >= HEADER_SIZE && blocks == [Block(base, size - HEADER_SIZE, true)]
  {
    assert |blocks| > 1 ==> !(blocks[0].free && blocks[0 + 1].free);
    assert forall i :: 0 <= i < |blocks| ==> blocks[i].free by {
      forall i | 0 <= i < |blocks| ensures blocks[i].free {
        assert blocks[i] !in LiveBlocks(blocks);
      }
    }
    TilesBounds(blocks, base, base + size, 0);
    assert blocks == [blocks[0]];
  }

  /** kfree of the pointer kmalloc just returned restores the block list exactly. */
  lemma KfreeUndoesKmalloc(blocks: seq<Block>, base: nat, size: nat, n: nat, alignment: nat)
    requires HeapInv(blocks, base, size)
    ensures
      var (h, p) := Kmalloc(blocks, n, alignment);
      p != 0 ==> Kfree(h, p) == blocks
  {
    var want := Want(n, alignment);
    var i := FirstFitFrom(blocks, want, 0);
    if n > 0 && i < |blocks| {
      RoundTrip(blocks, i, want);
      AllocTiles(blocks, i, want, base, base + size);
      AllocIndex(blocks, i, want);
      BlockIsFound(AllocAt(blocks, i, want), base, base + size, i);
    }
  }

  /** The lookup by payload address finds the block it belongs to. */
  lemma BlockIsFound(blocks: seq<Block>, lo: nat, hi: nat, i: nat)
    requires Tiles(blocks, lo, hi) && i < |blocks|
    ensures BlockAtFrom(blocks, Payload(blocks[i]), 0) == i
  {
    var k := BlockAtFrom(blocks, Payload(blocks[i]), 0);
    if k < i { DistinctAddresses(blocks, lo, hi, k, i); }
  }

  /** kfree of a live pointer ends exactly that pointer's life. */
  lemma KfreeEndsPointer(blocks: seq<Block>, base: nat, size: nat, p: nat, q: nat)
    requires HeapInv(blocks, base, size) && LivePointer(blocks, p)
    ensures LivePointer(Kfree(blocks, p), q) <==> LivePointer(blocks, q) && q != p
  {
    FindLive(blocks, base, base + size, p);
    var i := BlockAtFrom(blocks, p, 0);
    TilesBounds(blocks, base, base + size, i);
    FreeLive(blocks, base, base + size, i);
    OthersLive(blocks, base, size, i, LiveBlocks(Kfree(blocks, p)), q);
  }

  /** Taking block i out of the live blocks takes its payload address out of the live pointers. */
  lemma OthersLive(blocks: seq<Block>, base: nat, size: nat, i: nat, live: set<Block>, q: nat)
    requires HeapInv(blocks, base, size) && i < |blocks| && live == LiveBlocks(blocks) - {blocks[i]}
    ensures (exists b :: b in live && Payload(b) == q) <==> LivePointer(blocks, q) && q != Payload(blocks[i])
  {
    if b :| b in live && Payload(b) == q {
      var k :| 0 <= k < |blocks| && blocks[k] == b;
      DistinctAddresses(blocks, base, base + size, i, k);
    }
    if LivePointer(blocks, q) && q != Payload(blocks[i]) {
      var b :| b in LiveBlocks(blocks) && Payload(b) == q;
      assert b in live;
    }
  }

  lemma FreeFirst(blocks: seq<Block>, base: nat, size: nat, ptrs: seq<nat>)
    requires HeapInv(blocks, base, size) && ListsLive(blocks, ptrs) && ptrs != []
    ensures HeapInv(Kfree(blocks, ptrs[0]), base, size) && ListsLive(Kfree(blocks, ptrs[0]), ptrs[1..])
  {
    var p := ptrs[0];
    assert p in ptrs;
    ApplyInv(blocks, base, size, Free(p));
    forall q ensures q in ptrs[1..] <==> LivePointer(Kfree(blocks, p), q) {
      KfreeEndsPointer(blocks, base, size, p, q);
      assert q in ptrs <==> q == p || q in ptrs[1..];
    }
  }

  /** Freeing all live blocks, in any order, leaves a single free block spanning the arena. */
  lemma {:induction false} FreeingAllRestoresArena(blocks: seq<Block>, base: nat, size: nat, ptrs: seq<nat>)
    requires HeapInv(blocks, base, size) && ListsLive(blocks, ptrs)
    ensures size >= HEADER_SIZE && FreeAll(blocks, ptrs) == [Block(base, size - HEADER_SIZE, true)]
    decreases |ptrs|
  {
    if ptrs == [] {
      forall b | b in LiveBlocks(blocks) ensures false {
        assert LivePointer(blocks, Payload(b));
      }
      NothingLive(blocks, base, size);
    } else {
      FreeFirst(blocks, base, size, ptrs);
      FreeingAllRestoresArena(Kfree(blocks, ptrs[0]), base, size, ptrs[1..]);
    }
  }
}
