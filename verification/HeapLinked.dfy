/**
 The heap as the kernel has it: headers inside the arena, doubly linked in address order and
 updated in place by block_split and block_coalesce. Every method is proved against the block
 sequence of HeapModel; 0 stands for NULL.
 */
module HeapLinked {
  import opened HeapModel
  import opened HeapProperties

  const NULL: nat := 0
  const DEFAULT_HEAP_SIZE: nat := 65536

  datatype Header = Header(size: nat, free: bool, next: nat, prev: nat)

  function AddrAt(blocks: seq<Block>, i: int): nat {
    if 0 <= i < |blocks| then blocks[i].addr else NULL
  }

  /** The header that block i must have. */
  function HeaderOf(blocks: seq<Block>, i: nat): Header
    requires i < |blocks|
  {
    Header(blocks[i].size, blocks[i].free, AddrAt(blocks, i + 1), AddrAt(blocks, i - 1))
  }

  predicate HasHeader(mem: map<nat, Header>, blocks: seq<Block>, i: nat)
    requires i < |blocks|
  {
    blocks[i].addr in mem && mem[blocks[i].addr] == HeaderOf(blocks, i)
  }

  ghost predicate Linked(mem: map<nat, Header>, blocks: seq<Block>) {
    forall i :: 0 <= i < |blocks| ==> HasHeader(mem, blocks, i)
  }

  ghost predicate Ascending(blocks: seq<Block>) {
    && (forall i :: 0 <= i < |blocks| ==> blocks[i].addr > NULL)
    && (forall i, j :: 0 <= i < j < |blocks| ==> End(blocks[i]) <= blocks[j].addr)
  }

  lemma TilesAscend(blocks: seq<Block>, lo: nat, hi: nat)
    requires Tiles(blocks, lo, hi) && lo > NULL
    ensures Ascending(blocks)
  {
    forall i | 0 <= i < |blocks| ensures blocks[i].addr > NULL { TilesBounds(blocks, lo, hi, i); }
    forall i, j | 0 <= i < j < |blocks| ensures End(blocks[i]) <= blocks[j].addr {
      BlocksAscend(blocks, lo, hi, i, j);
    }
  }

  // ---------------------------------------------------------------------------
  // Header updates
  // ---------------------------------------------------------------------------

  /** block_split, seen on values: the remainder becomes a free block of its own. */
  function SplitAt(blocks: seq<Block>, i: nat, want: nat): (r: seq<Block>)
    requires i < |blocks|
    ensures |r| == |blocks| + (if Splits(blocks[i], want) then 1 else 0)
    ensures AllocAt(blocks, i, want) == r[i := r[i].(free := false)]
  {
    var b := blocks[i];
    if Splits(b, want) then blocks[..i] + [b.(size := want), Rest(b, want)] + blocks[i + 1..] else blocks
  }

  function SplitHeaders(mem: map<nat, Header>, blk: nat, want: nat): map<nat, Header>
    requires blk in mem && mem[blk].size >= want + HEADER_SIZE
  {
    var h := mem[blk];
    var rest := blk + HEADER_SIZE + want;
    var m1 := mem[rest := Header(h.size - want - HEADER_SIZE, true, h.next, blk)];
    var m2 := if h.next != NULL && h.next in m1 then m1[h.next := m1[h.next].(prev := rest)] else m1;
    m2[blk := h.(size := want, next := rest)]
  }

  /** r is blocks with block i cut in two, index by index. */
  ghost predicate IsSplit(blocks: seq<Block>, r: seq<Block>, i: nat, want: nat) {
    && i < |blocks| && Splits(blocks[i], want) && |r| == |blocks| + 1
    && r[i] == blocks[i].(size := want) && r[i + 1] == Rest(blocks[i], want)
    && (forall k {:trigger r[k]} :: 0 <= k < i ==> r[k] == blocks[k])
    && (forall k {:trigger r[k]} :: i + 1 < k < |r| ==> r[k] == blocks[k - 1])
  }

  /** Splitting block i leaves the header of every other block alone, except the back link of its successor. */
  lemma SplitOthers(mem: map<nat, Header>, blocks: seq<Block>, i: nat, want: nat, k: nat)
    requires Linked(mem, blocks) && Ascending(blocks) && i < |blocks| && Splits(blocks[i], want)
    requires k < |blocks| && k != i
    ensures HasHeader(mem, blocks, i)
    ensures
      var m := SplitHeaders(mem, blocks[i].addr, want);
      var a := blocks[k].addr;
      a in m && m[a] == if k == i + 1 then HeaderOf(blocks, k).(prev := Rest(blocks[i], want).addr)
          else HeaderOf(blocks, k)
  {
    assert HasHeader(mem, blocks, i) && HasHeader(mem, blocks, k);
    if i + 1 < |blocks| { assert HasHeader(mem, blocks, i + 1); }
  }

  lemma SplitHeaderAt(mem: map<nat, Header>, blocks: seq<Block>, r: seq<Block>, i: nat, want: nat, k: nat)
    requires Linked(mem, blocks) && Ascending(blocks) && IsSplit(blocks, r, i, want) && k < |r|
    ensures HasHeader(mem, blocks, i)
    ensures HasHeader(SplitHeaders(mem, blocks[i].addr, want), r, k)
  {
    assert HasHeader(mem, blocks, i);
    if k < i {
      SplitOthers(mem, blocks, i, want, k);
    } else if k == i + 1 {
      if i + 1 < |blocks| { assert HasHeader(mem, blocks, i + 1); }
    } else if k > i + 1 {
      SplitOthers(mem, blocks, i, want, k - 1);
    }
  }

  lemma SplitAtIsSplit(blocks: seq<Block>, i: nat, want: nat)
    requires i < |blocks| && Splits(blocks[i], want)
    ensures IsSplit(blocks, SplitAt(blocks, i, want), i, want)
  {
  }

  lemma SplitLinked(mem: map<nat, Header>, blocks: seq<Block>, i: nat, want: nat)
    requires Linked(mem, blocks) && Ascending(blocks) && i < |blocks| && Splits(blocks[i], want)
    ensures HasHeader(mem, blocks, i)
    ensures Linked(SplitHeaders(mem, blocks[i].addr, want), SplitAt(blocks, i, want))
  {
    assert HasHeader(mem, blocks, i);
    var r := SplitAt(blocks, i, want);
    SplitAtIsSplit(blocks, i, want);
    forall k | 0 <= k < |r| ensures HasHeader(SplitHeaders(mem, blocks[i].addr, want), r, k) {
      SplitHeaderAt(mem, blocks, r, i, want, k);
    }
  }

  /** block_coalesce on the headers, when the successor exists and is free. */
  function MergeHeaders(mem: map<nat, Header>, blk: nat): map<nat, Header>
    requires blk in mem && mem[blk].next in mem
  {
    var h, n := mem[blk], mem[mem[blk].next];
    var m1 := mem[blk := h.(size := h.size + HEADER_SIZE + n.size, next := n.next)];
    if n.next != NULL && n.next in m1 then m1[n.next := m1[n.next].(prev := blk)] else m1
  }

  ghost predicate IsMerge(blocks: seq<Block>, r: seq<Block>, i: nat) {
    && i + 1 < |blocks| && blocks[i + 1].free && |r| == |blocks| - 1
    && r[i] == blocks[i].(size := blocks[i].size + HEADER_SIZE + blocks[i + 1].size)
    && (forall k {:trigger r[k]} :: 0 <= k < i ==> r[k] == blocks[k])
    && (forall k {:trigger r[k]} :: i < k < |r| ==> r[k] == blocks[k + 1])
  }

  lemma MergeOthers(mem: map<nat, Header>, blocks: seq<Block>, i: nat, k: nat)
    requires Linked(mem, blocks) && Ascending(blocks) && i + 1 < |blocks| && k < |blocks| && k != i && k != i + 1
    ensures HasHeader(mem, blocks, i) && HasHeader(mem, blocks, i + 1)
    ensures
      var m := MergeHeaders(mem, blocks[i].addr);
      var a := blocks[k].addr;
      a in m && m[a] == if k == i + 2 then HeaderOf(blocks, k).(prev := blocks[i].addr) else HeaderOf(blocks, k)
  {
    assert HasHeader(mem, blocks, i) && HasHeader(mem, blocks, i + 1) && HasHeader(mem, blocks, k);
    if i + 2 < |blocks| { assert HasHeader(mem, blocks, i + 2); }
  }

  lemma MergeHeaderAt(mem: map<nat, Header>, blocks: seq<Block>, r: seq<Block>, i: nat, k: nat)
    requires Linked(mem, blocks) && Ascending(blocks) && IsMerge(blocks, r, i) && k < |r|
    ensures HasHeader(mem, blocks, i) && HasHeader(mem, blocks, i + 1)
    ensures HasHeader(MergeHeaders(mem, blocks[i].addr), r, k)
  {
    assert HasHeader(mem, blocks, i) && HasHeader(mem, blocks, i + 1);
    if k < i {
      MergeOthers(mem, blocks, i, k);
    } else if k > i {
      MergeOthers(mem, blocks, i, k + 1);
    } else if i + 2 < |blocks| {
      assert HasHeader(mem, blocks, i + 2);
    }
  }

  lemma MergeIsMerge(blocks: seq<Block>, i: nat)
    requires i + 1 < |blocks| && blocks[i + 1].free
    ensures IsMerge(blocks, Merge(blocks, i), i)
  {
  }

  lemma MergeLinked(mem: map<nat, Header>, blocks: seq<Block>, i: nat)
    requires Linked(mem, blocks) && Ascending(blocks) && i + 1 < |blocks| && blocks[i + 1].free
    ensures HasHeader(mem, blocks, i) && HasHeader(mem, blocks, i + 1)
    ensures Linked(MergeHeaders(mem, blocks[i].addr), Merge(blocks, i))
  {
    assert HasHeader(mem, blocks, i) && HasHeader(mem, blocks, i + 1);
    var r := Merge(blocks, i);
    MergeIsMerge(blocks, i);
    forall k | 0 <= k < |r| ensures HasHeader(MergeHeaders(mem, blocks[i].addr), r, k) {
      MergeHeaderAt(mem, blocks, r, i, k);
    }
  }

  /** Flipping the free flag of one block. */
  lemma FlagLinked(mem: map<nat, Header>, blocks: seq<Block>, i: nat, free: bool)
    requires Linked(mem, blocks) && Ascending(blocks) && i < |blocks|
    ensures HasHeader(mem, blocks, i)
    ensures Linked(mem[blocks[i].addr := mem[blocks[i].addr].(free := free)], blocks[i := blocks[i].(free := free)])
  {
    assert HasHeader(mem, blocks, i);
    var a := blocks[i].addr;
    var m, r := mem[a := mem[a].(free := free)], blocks[i := blocks[i].(free := free)];
    forall k | 0 <= k < |r| ensures HasHeader(m, r, k) {
      assert HasHeader(mem, blocks, k);
      assert AddrAt(r, k + 1) == AddrAt(blocks, k + 1) && AddrAt(r, k - 1) == AddrAt(blocks, k - 1);
    }
  }

  lemma SplitTiles(blocks: seq<Block>, i: nat, want: nat, lo: nat, hi: nat)
    requires Tiles(blocks, lo, hi) && i < |blocks| && blocks[i].size >= want
    ensures Tiles(SplitAt(blocks, i, want), lo, hi)
  {
    var b := blocks[i];
    if Splits(b, want) {
      var cut := [b.(size := want), Rest(b, want)];
      assert blocks == blocks[..i] + [b] + blocks[i + 1..];
      forall l, h | Tiles([b], l, h) ensures Tiles(cut, l, h) {
        assert [b][1..] == [] && cut[1..] == [Rest(b, want)] && cut[1..][1..] == [];
      }
      TilesReplace(blocks[..i], [b], cut, blocks[i + 1..], lo, hi);
    }
  }

  class Heap {
    const defaultHeap: nat
    var mem: map<nat, Header>
    var heapBase: nat
    var heapSize: nat
    var heapHead: nat
    ghost var blocks: seq<Block>

    /** The headers mirror a tiling of the arena; nothing is promised before the free list is built. */
    ghost predicate Threaded()
      reads this
    {
      && heapBase > NULL && heapHead == heapBase && blocks != []
      && Tiles(blocks, heapBase, heapBase + heapSize)
      && Linked(mem, blocks)
    }

    ghost predicate ArenaOk()
      reads this
    {
      && heapBase > NULL && HEADER_SIZE + MIN_PAYLOAD < heapSize < UINT32_SIZE - HEADER_SIZE
      && heapBase + heapSize <= UINT32_SIZE
    }

    ghost predicate Valid()
      reads this
    {
      && defaultHeap > NULL && defaultHeap + DEFAULT_HEAP_SIZE <= UINT32_SIZE
      && ArenaOk()
      && (heapHead == NULL || (Threaded() && HeapInv(blocks, heapBase, heapSize)))
    }

    /** The block list a client works with: before the first call it is the fresh arena. */
    ghost function Blocks(): seq<Block>
      requires Valid()
      reads this
    {
      if heapHead == NULL then [Block(heapBase, heapSize - HEADER_SIZE, true)] else blocks
    }

    constructor (defaultHeap: nat)
      requires defaultHeap > NULL && defaultHeap + DEFAULT_HEAP_SIZE <= UINT32_SIZE
      ensures Valid() && Blocks() == [Block(defaultHeap, DEFAULT_HEAP_SIZE - HEADER_SIZE, true)]
    {
      this.defaultHeap := defaultHeap;
      mem, heapBase, heapSize, heapHead := map[], defaultHeap, DEFAULT_HEAP_SIZE, NULL;
      blocks := [];
    }

    /** heap_build_freelist. */
    method BuildFreeList()
      requires ArenaOk()
      modifies this`mem, this`heapHead, this`blocks
      ensures Threaded() && blocks == [Block(heapBase, heapSize - HEADER_SIZE, true)]
    {
      heapHead := heapBase;
      mem := mem[heapHead := Header(heapSize - HEADER_SIZE, true, NULL, NULL)];
      blocks := [Block(heapBase, heapSize - HEADER_SIZE, true)];
      assert blocks[1..] == [];
      assert HasHeader(mem, blocks, 0);
    }

    /** heap_init: a usable region replaces the arena, anything else falls back to the static one. */
    method Init(start: nat, size: nat)
      requires Valid() && start + size <= UINT32_SIZE && size < UINT32_SIZE - HEADER_SIZE
      modifies this
      ensures Valid()
      ensures var usable := start != NULL && size > HEADER_SIZE + MIN_PAYLOAD;
              Blocks() == [if usable then Block(start, size - HEADER_SIZE, true)
                           else Block(defaultHeap, DEFAULT_HEAP_SIZE - HEADER_SIZE, true)]
    {
      if start == NULL || size <= HEADER_SIZE + MIN_PAYLOAD {
        heapBase, heapSize := defaultHeap, DEFAULT_HEAP_SIZE;
      } else {
        heapBase, heapSize := start, size;
      }
      BuildFreeList();
      FreshArena(heapBase, heapSize);
    }

    method SplitBlock(blk: nat, want: nat, ghost i: nat)
      requires ArenaOk() && Threaded() && i < |blocks| && blk == blocks[i].addr && blocks[i].size >= want
      modifies this`mem, this`blocks
      ensures Threaded() && blocks == SplitAt(old(blocks), i, want)
    {
      TilesAscend(blocks, heapBase, heapBase + heapSize);
      TilesBounds(blocks, heapBase, heapBase + heapSize, i);
      assert HasHeader(mem, blocks, i);
      if mem[blk].size < (want + HEADER_SIZE + MIN_PAYLOAD) % UINT32_SIZE { return; }
      SplitTiles(blocks, i, want, heapBase, heapBase + heapSize);
      SplitLinked(mem, blocks, i, want);
      if i + 1 < |blocks| { assert HasHeader(mem, blocks, i + 1); }
      Carve(blk, want);
      blocks := SplitAt(blocks, i, want);
    }

    /** The writes of block_split: a new header for the remainder, linked in after blk. */
    method Carve(blk: nat, want: nat)
      requires blk in mem && mem[blk].size >= want + HEADER_SIZE
      requires mem[blk].next != NULL ==> mem[blk].next in mem && mem[blk].next != blk
      modifies this`mem
      ensures mem == SplitHeaders(old(mem), blk, want)
    {
      var rest := blk + HEADER_SIZE + want;
      mem := mem[rest := Header(mem[blk].size - want - HEADER_SIZE, true, mem[blk].next, blk)];
      if mem[rest].next != NULL { mem := mem[mem[rest].next := mem[mem[rest].next].(prev := rest)]; }
      mem := mem[blk := mem[blk].(size := want, next := rest)];
    }

    /** kmalloc_aligned: the payload address, or NULL. */
    method KmallocAligned(size: nat, alignment: nat) returns (ptr: nat)
      requires Valid() && size < UINT32_SIZE && alignment < UINT32_SIZE
      modifies this`mem, this`heapHead, this`blocks
      ensures Valid() && (Blocks(), ptr) == Kmalloc(old(Blocks()), size, alignment)
    {
      if heapHead == NULL {
        BuildFreeList();
        FreshArena(heapBase, heapSize);
      }
      if size == 0 { return NULL; }
      var a := EffectiveAlignment(alignment);
      var want := AlignUp(size, a);
      ptr := FindAndTake(want);
    }

    method FindAndTake(want: nat) returns (ptr: nat)
      requires Valid() && heapHead != NULL
      modifies this`mem, this`blocks
      ensures Valid()
      ensures var i := FirstFitFrom(old(blocks), want, 0);
              if i == |old(blocks)| then ptr == NULL && blocks == old(blocks)
              else ptr == Payload(old(blocks)[i]) && blocks == AllocAt(old(blocks), i, want)
    {
      var blk := heapHead;
      ghost var i := 0;
      assert blk == AddrAt(blocks, 0);
      TilesAscend(blocks, heapBase, heapBase + heapSize);
      while blk != NULL
        invariant Valid() && blocks == old(blocks) && mem == old(mem)
        invariant 0 <= i <= |blocks| && blk == AddrAt(blocks, i)
        invariant FirstFitFrom(blocks, want, i) == FirstFitFrom(blocks, want, 0)
        decreases |blocks| - i
      {
        assert HasHeader(mem, blocks, i);
        if mem[blk].free && mem[blk].size >= want {
          AllocInv(blocks, heapBase, heapSize, i, want);
          SplitBlock(blk, want, i);
          MarkUsed(blk, i);
          return blk + HEADER_SIZE;
        }
        blk, i := mem[blk].next, i + 1;
      }
      ptr := NULL;
    }

    method MarkUsed(blk: nat, ghost i: nat)
      requires Threaded() && i < |blocks| && blk == blocks[i].addr
      requires Tiles(blocks[i := blocks[i].(free := false)], heapBase, heapBase + heapSize)
      modifies this`mem, this`blocks
      ensures Threaded() && blocks == old(blocks)[i := old(blocks)[i].(free := false)]
    {
      TilesAscend(blocks, heapBase, heapBase + heapSize);
      FlagLinked(mem, blocks, i, false);
      mem := mem[blk := mem[blk].(free := false)];
      blocks := blocks[i := blocks[i].(free := false)];
    }

    /** The writes of block_coalesce: blk takes over the bytes and the successor of nxt. */
    method Absorb(blk: nat, nxt: nat)
      requires blk in mem && nxt in mem && nxt == mem[blk].next && blk != nxt
      requires mem[nxt].next != NULL ==> mem[nxt].next in mem
      modifies this`mem
      ensures mem == MergeHeaders(old(mem), blk)
    {
      mem := mem[blk := mem[blk].(size := mem[blk].size + HEADER_SIZE + mem[nxt].size, next := mem[nxt].next)];
      if mem[nxt].next != NULL { mem := mem[mem[nxt].next := mem[mem[nxt].next].(prev := blk)]; }
    }

    /** block_coalesce. */
    method Coalesce(blk: nat, ghost i: nat)
      requires Threaded() && i < |blocks| && blk == blocks[i].addr
      modifies this`mem, this`blocks
      ensures Threaded() && blocks == Merge(old(blocks), i)
    {
      TilesAscend(blocks, heapBase, heapBase + heapSize);
      assert HasHeader(mem, blocks, i);
      var nxt := mem[blk].next;
      if nxt != NULL {
        assert HasHeader(mem, blocks, i + 1);
        if mem[nxt].free { CoalesceWith(blk, nxt, i); }
      }
    }

    method CoalesceWith(blk: nat, nxt: nat, ghost i: nat)
      requires Threaded() && Ascending(blocks) && i + 1 < |blocks| && blocks[i + 1].free
      requires blk == blocks[i].addr && nxt == blocks[i + 1].addr
      modifies this`mem, this`blocks
      ensures Threaded() && blocks == Merge(old(blocks), i)
    {
      MergeTiles(blocks, i, heapBase, heapBase + heapSize);
      MergeLinked(mem, blocks, i);
      if i + 2 < |blocks| { assert HasHeader(mem, blocks, i + 2); }
      Absorb(blk, nxt);
      blocks := Merge(blocks, i);
    }

    /** kfree of NULL or of a pointer kmalloc returned and nobody freed since. */
    method Free(ptr: nat)
      requires Valid() && (ptr == NULL || LivePointer(Blocks(), ptr))
      modifies this`mem, this`blocks
      ensures Valid() && Blocks() == Kfree(old(Blocks()), ptr)
    {
      if ptr == NULL { return; }
      ghost var i := BlockAtFrom(blocks, ptr, 0);
      FindLive(blocks, heapBase, heapBase + heapSize, ptr);
      FreeInv(blocks, heapBase, heapSize, i);
      ReleaseBlock(ptr - HEADER_SIZE, i);
    }

    method SetFree(blk: nat, ghost i: nat)
      requires Threaded() && i < |blocks| && blk == blocks[i].addr
      modifies this`mem, this`blocks
      ensures Threaded() && blocks == MarkFree(old(blocks), i)
    {
      TilesAscend(blocks, heapBase, heapBase + heapSize);
      FlagLinked(mem, blocks, i, true);
      MarkFreeTiles(blocks, i, heapBase, heapBase + heapSize);
      mem := mem[blk := mem[blk].(free := true)];
      blocks := MarkFree(blocks, i);
    }

    method CoalesceBackward(blk: nat, ghost i: nat)
      requires Threaded() && i < |blocks| && blk == blocks[i].addr
      modifies this`mem, this`blocks
      ensures Threaded() && blocks == if i > 0 && old(blocks)[i - 1].free then Merge(old(blocks), i - 1)
          else old(blocks)
    {
      TilesAscend(blocks, heapBase, heapBase + heapSize);
      assert HasHeader(mem, blocks, i);
      var prev := mem[blk].prev;
      if prev != NULL {
        assert HasHeader(mem, blocks, i - 1);
        if mem[prev].free { Coalesce(prev, i - 1); }
      }
    }

    method ReleaseBlock(blk: nat, ghost i: nat)
      requires Threaded() && i < |blocks| && blk == blocks[i].addr
      modifies this`mem, this`blocks
      ensures Threaded() && blocks == FreeAt(old(blocks), i)
    {
      SetFree(blk, i);
      MergeIndex(blocks, i);
      Coalesce(blk, i);
      CoalesceBackward(blk, i);
    }

    /** heap_get_stats; before the free list is built there is nothing to count. */
    method Stats() returns (total: nat, used: nat, free: nat, count: nat)
      requires Valid()
      ensures heapHead == NULL ==> total == used == free == count == 0
      ensures heapHead != NULL ==> total == TotalPayload(blocks) && used == UsedPayload(blocks) && count == |blocks|
      ensures heapHead != NULL ==> total + HEADER_SIZE * count == heapSize
      ensures used + free == total
    {
      total, used, free, count := 0, 0, 0, 0;
      var b := heapHead;
      if heapHead != NULL {
        assert b == AddrAt(blocks, 0) && blocks[0..] == blocks;
        TilesAscend(blocks, heapBase, heapBase + heapSize);
        Accounting(blocks, heapBase, heapBase + heapSize);
      }
      while b != NULL
        invariant heapHead == NULL ==> b == NULL && total == used == free == count == 0
        invariant heapHead != NULL ==> count <= |blocks| && b == AddrAt(blocks, count)
        invariant heapHead != NULL ==> total + TotalPayload(blocks[count..]) == TotalPayload(blocks)
        invariant heapHead != NULL ==> used + UsedPayload(blocks[count..]) == UsedPayload(blocks)
        invariant used + free == total
        decreases |blocks| - count
      {
        assert HasHeader(mem, blocks, count);
        assert blocks[count..][1..] == blocks[count + 1..];
        total := total + mem[b].size;
        if mem[b].free { free := free + mem[b].size; } else { used := used + mem[b].size; }
        count := count + 1;
        b := mem[b].next;
      }
    }

    /** kmalloc. */
    method Malloc(size: nat) returns (ptr: nat)
      requires Valid() && size < UINT32_SIZE
      modifies this`mem, this`heapHead, this`blocks
      ensures Valid() && (Blocks(), ptr) == Kmalloc(old(Blocks()), size, 8)
    {
      ptr := KmallocAligned(size, 8);
    }
  }
}
