/**
 The blocks in use determine the whole heap: what is free between them is one block each. So
 kmalloc and kfree are given, block for block, by what they do to the set of blocks in use, and
 the order in which blocks are freed does not matter.
 */
module HeapCanonical {
  import opened HeapModel
  import opened HeapProperties

  lemma LiveTail(blocks: seq<Block>, lo: nat, hi: nat)
    requires blocks != [] && Tiles(blocks, lo, hi)
    ensures LiveBlocks(blocks[1..]) == LiveBlocks(blocks) - {blocks[0]}
  {
    var rest := blocks[1..];
    forall b | b in LiveBlocks(rest) ensures b in LiveBlocks(blocks) && b != blocks[0] {
      var k :| 0 <= k < |rest| && rest[k] == b;
      assert blocks[k + 1] == b;
      DistinctAddresses(blocks, lo, hi, 0, k + 1);
    }
    forall b | b in LiveBlocks(blocks) && b != blocks[0] ensures b in LiveBlocks(rest) {
      var k :| 0 <= k < |blocks| && blocks[k] == b;
      assert rest[k - 1] == b;
    }
  }

  /** A block in use that starts at the bottom of one heap is the first block of the other. */
  lemma SameFirstLive(a: seq<Block>, b: seq<Block>, lo: nat, hi: nat)
    requires a != [] && b != [] && Tiles(a, lo, hi) && Tiles(b, lo, hi)
    requires !a[0].free && LiveBlocks(a) <= LiveBlocks(b)
    ensures a[0] == b[0]
  {
    assert a[0] in LiveBlocks(a);
    var k :| 0 <= k < |b| && b[k] == a[0];
    if k > 0 { BlocksAscend(b, lo, hi, 0, k); }
  }

  /** A free first block reaches up to a block in use, or to the end; so it is not shorter than in the other heap. */
  lemma NotShorter(a: seq<Block>, b: seq<Block>, lo: nat, hi: nat)
    requires a != [] && b != [] && Tiles(a, lo, hi) && Tiles(b, lo, hi) && Coalesced(a)
    requires a[0].free && b[0].free && LiveBlocks(a) <= LiveBlocks(b)
    ensures a[0].size >= b[0].size
  {
    TilesBounds(a, lo, hi, 0);
    TilesBounds(b, lo, hi, 0);
    if |a| > 1 && a[0].size < b[0].size {
      assert a[1] in LiveBlocks(a);
      var k :| 0 <= k < |b| && b[k] == a[1];
      if k > 0 { BlocksAscend(b, lo, hi, 0, k); }
      assert false;
    }
  }

  /** Two heaps over the same arena with the same blocks in use are the same heap. */
  lemma {:induction false} LiveDetermines(a: seq<Block>, b: seq<Block>, lo: nat, hi: nat)
    requires Tiles(a, lo, hi) && Tiles(b, lo, hi) && Coalesced(a) && Coalesced(b) && LiveBlocks(a) == LiveBlocks(b)
    ensures a == b
    decreases |a|
  {
    if a == [] {
      if b != [] { TilesBounds(b, lo, hi, 0); }
    } else if b == [] {
      TilesBounds(a, lo, hi, 0);
    } else {
      SameFirst(a, b, lo, hi);
      LiveTail(a, lo, hi);
      LiveTail(b, lo, hi);
      LiveDetermines(a[1..], b[1..], End(a[0]), hi);
      assert a == [a[0]] + a[1..] && b == [b[0]] + b[1..];
    }
  }

  lemma SameFirst(a: seq<Block>, b: seq<Block>, lo: nat, hi: nat)
    requires a != [] && b != [] && Tiles(a, lo, hi) && Tiles(b, lo, hi)
    requires Coalesced(a) && Coalesced(b) && LiveBlocks(a) == LiveBlocks(b)
    ensures a[0] == b[0]
  {
    if !a[0].free {
      SameFirstLive(a, b, lo, hi);
    } else if !b[0].free {
      SameFirstLive(b, a, lo, hi);
    } else {
      NotShorter(a, b, lo, hi);
      NotShorter(b, a, lo, hi);
    }
  }

  /** h is the heap over the arena in which exactly these blocks are in use. */
  ghost predicate IsHeapOf(h: seq<Block>, base: nat, size: nat, live: set<Block>) {
    HeapInv(h, base, size) && LiveBlocks(h) == live
  }

  lemma OnlyHeapOf(g: seq<Block>, h: seq<Block>, base: nat, size: nat, live: set<Block>)
    requires IsHeapOf(g, base, size, live) && IsHeapOf(h, base, size, live)
    ensures g == h
  {
    LiveDetermines(g, h, base, base + size);
  }

  /** The block kmalloc makes of free block b: cut to size if at least 32 bytes are left over, and whole if not. */
  function Granted(b: Block, want: nat): Block {
    Block(b.addr, if b.size < want + 32 then b.size else want, false)
  }

  predicate LargeEnough(b: Block, want: nat) {
    b.free && b.size >= want
  }

  /** b is the lowest block that is free and large enough. */
  ghost predicate Lowest(blocks: seq<Block>, want: nat, b: Block) {
    b in blocks && LargeEnough(b, want) && forall c :: c in blocks && LargeEnough(c, want) ==> b.addr <= c.addr
  }

  /**
   kmalloc: NULL and no change if nothing is asked for or no free block is large enough; else the
   lowest that is, cut to size, is in use as well, its payload is what is returned, and that is all.
   */
  lemma KmallocIs(blocks: seq<Block>, base: nat, size: nat, n: nat, alignment: nat)
    requires HeapInv(blocks, base, size)
    ensures
      var want, (h, p) := Want(n, alignment), Kmalloc(blocks, n, alignment);
      if n == 0 || forall b :: b in blocks ==> !LargeEnough(b, want) then h == blocks && p == 0
      else exists b :: Lowest(blocks, want, b) && p == b.addr + 16
                         && IsHeapOf(h, base, size, LiveBlocks(blocks) + {Granted(b, want)})
  {
    var want := Want(n, alignment);
    var i := FirstFitFrom(blocks, want, 0);
    assert forall b :: LargeEnough(b, want) <==> Fits(b, want);
    if n > 0 && i < |blocks| {
      FirstFit(blocks, base, size, n, alignment);
      AllocInv(blocks, base, size, i, want);
      var b :| LowestFit(blocks, want, b) && Payload(b) == Kmalloc(blocks, n, alignment).1
        && LiveBlocks(Kmalloc(blocks, n, alignment).0) == LiveBlocks(blocks) + {Taken(b, want)};
      assert Taken(b, want) == Granted(b, want);
      assert Lowest(blocks, want, b);
    }
  }

  /** kfree of a pointer in use: its block is not in use any more, and that is all. */
  lemma KfreeIs(blocks: seq<Block>, base: nat, size: nat, b: Block)
    requires HeapInv(blocks, base, size) && b in LiveBlocks(blocks)
    ensures IsHeapOf(Kfree(blocks, b.addr + 16), base, size, LiveBlocks(blocks) - {b})
    ensures Kfree(blocks, 0) == blocks
  {
    var p := b.addr + 16;
    assert Payload(b) == p;
    FindLive(blocks, base, base + size, p);
    var i := BlockAtFrom(blocks, p, 0);
    FreeLive(blocks, base, base + size, i);
    FreeInv(blocks, base, size, i);
    var k :| 0 <= k < |blocks| && blocks[k] == b;
    if k != i { DistinctAddresses(blocks, base, base + size, k, i); }
  }

  lemma BothFreed(blocks: seq<Block>, base: nat, size: nat, b: Block, c: Block)
    requires HeapInv(blocks, base, size) && b in LiveBlocks(blocks) && c in LiveBlocks(blocks) && b != c
    ensures IsHeapOf(Kfree(Kfree(blocks, b.addr + 16), c.addr + 16), base, size, LiveBlocks(blocks) - {b, c})
  {
    KfreeIs(blocks, base, size, b);
    KfreeIs(Kfree(blocks, b.addr + 16), base, size, c);
    assert LiveBlocks(blocks) - {b} - {c} == LiveBlocks(blocks) - {b, c};
  }

  /** Freeing two blocks in either order leaves the same heap. */
  lemma FreesCommute(blocks: seq<Block>, base: nat, size: nat, b: Block, c: Block)
    requires HeapInv(blocks, base, size) && b in LiveBlocks(blocks) && c in LiveBlocks(blocks) && b != c
    ensures Kfree(Kfree(blocks, b.addr + 16), c.addr + 16) == Kfree(Kfree(blocks, c.addr + 16), b.addr + 16)
  {
    BothFreed(blocks, base, size, b, c);
    BothFreed(blocks, base, size, c, b);
    assert {b, c} == {c, b};
    OnlyHeapOf(Kfree(Kfree(blocks, b.addr + 16), c.addr + 16), Kfree(Kfree(blocks, c.addr + 16), b.addr + 16),
               base, size, LiveBlocks(blocks) - {b, c});
  }
}
