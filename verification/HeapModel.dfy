/**
 The kernel heap of memory/heap.c on values: the arena is a sequence of blocks in address
 order. kmalloc takes the first free block that fits and splits it; kfree merges the block
 with its free neighbours.
 */
module HeapModel {

  const HEADER_SIZE: nat := 16
  const MIN_PAYLOAD: nat := 16
  const UINT32_SIZE: nat := 0x1_0000_0000

  /** A header address, the payload size after it, and whether it is free. */
  datatype Block = Block(addr: nat, size: nat, free: bool)

  function End(b: Block): nat {
    b.addr + HEADER_SIZE + b.size
  }

  // ---------------------------------------------------------------------------
  // Allocation
  // ---------------------------------------------------------------------------

  predicate Fits(b: Block, want: nat) {
    b.free && b.size >= want
  }

  /** The first block at or above i that fits, or |blocks|. */
  function FirstFitFrom(blocks: seq<Block>, want: nat, i: nat): (r: nat)
    requires i <= |blocks|
    ensures i <= r <= |blocks|
    ensures r < |blocks| ==> Fits(blocks[r], want)
    ensures forall j :: i <= j < r ==> !Fits(blocks[j], want)
    decreases |blocks| - i
  {
    if i == |blocks| || Fits(blocks[i], want) then i else FirstFitFrom(blocks, want, i + 1)
  }

  /** The block is cut in two when the remainder can hold a header and a minimal payload. */
  predicate Splits(b: Block, want: nat) {
    b.size >= want + HEADER_SIZE + MIN_PAYLOAD
  }

  function Taken(b: Block, want: nat): Block {
    Block(b.addr, if Splits(b, want) then want else b.size, false)
  }

  function Rest(b: Block, want: nat): Block
    requires Splits(b, want)
  {
    Block(b.addr + HEADER_SIZE + want, b.size - want - HEADER_SIZE, true)
  }

  function AllocAt(blocks: seq<Block>, i: nat, want: nat): (r: seq<Block>)
    requires i < |blocks|
  {
    var b := blocks[i];
    blocks[..i] + (if Splits(b, want) then [Taken(b, want), Rest(b, want)] else [Taken(b, want)]) + blocks[i + 1..]
  }

  predicate IsPowerOfTwo(a: nat)
    decreases a
  {
    a == 1 || (a > 1 && a % 2 == 0 && IsPowerOfTwo(a / 2))
  }

  /** x & ~m, bit by bit. */
  function AndNot(x: nat, m: nat): (r: nat)
    ensures r <= x <= r + m
    decreases x
  {
    if x == 0 then 0 else 2 * AndNot(x / 2, m / 2) + if x % 2 == 1 && m % 2 == 0 then 1 else 0
  }

  /** HEAP_ALIGN in 32-bit arithmetic. */
  function AlignUp(n: nat, a: nat): (r: nat)
    requires a > 0
  {
    AndNot((n + a - 1) % UINT32_SIZE, a - 1)
  }

  /** The alignment kmalloc_aligned works with. */
  function EffectiveAlignment(alignment: nat): nat {
    if alignment < 8 then 8 else alignment
  }

  /** The payload size kmalloc_aligned looks for. */
  function Want(size: nat, alignment: nat): nat {
    AlignUp(size, EffectiveAlignment(alignment))
  }

  // ---------------------------------------------------------------------------
  // Freeing
  // ---------------------------------------------------------------------------

  /** block_coalesce: swallow the following block if it is free. */
  function Merge(blocks: seq<Block>, i: nat): (r: seq<Block>)
    requires i < |blocks|
    ensures |r| <= |blocks| && i < |r|
  {
    if i + 1 < |blocks| && blocks[i + 1].free then
      blocks[..i] + [blocks[i].(size := blocks[i].size + HEADER_SIZE + blocks[i + 1].size)] + blocks[i + 2..]
    else blocks
  }

  function MarkFree(blocks: seq<Block>, i: nat): (r: seq<Block>)
    requires i < |blocks|
    ensures |r| == |blocks|
  {
    blocks[i := blocks[i].(free := true)]
  }

  /** kfree: mark free, merge forward, then let a free predecessor merge. */
  function FreeAt(blocks: seq<Block>, i: nat): (r: seq<Block>)
    requires i < |blocks|
  {
    var m := Merge(MarkFree(blocks, i), i);
    if i > 0 && m[i - 1].free then Merge(m, i - 1) else m
  }

  // ---------------------------------------------------------------------------
  // The invariant
  // ---------------------------------------------------------------------------

  /** The blocks cover [lo, hi) without gap or overlap, in address order. */
  ghost predicate Tiles(blocks: seq<Block>, lo: nat, hi: nat)
    decreases |blocks|
  {
    if blocks == [] then lo == hi
    else blocks[0].addr == lo && Tiles(blocks[1..], End(blocks[0]), hi)
  }

  /** No two neighbouring blocks are both free. */
  ghost predicate Coalesced(blocks: seq<Block>) {
    forall i :: 0 <= i < |blocks| - 1 ==> !(blocks[i].free && blocks[i + 1].free)
  }

  ghost predicate HeapInv(blocks: seq<Block>, base: nat, size: nat) {
    blocks != [] && Tiles(blocks, base, base + size) && Coalesced(blocks)
  }

  /** Every block lies a multiple of 8 bytes above the start of the arena. */
  ghost predicate OnGrid(blocks: seq<Block>, base: nat) {
    forall i :: 0 <= i < |blocks| ==> (blocks[i].addr - base) % 8 == 0
  }

  // ---------------------------------------------------------------------------
  // Tilings
  // ---------------------------------------------------------------------------

  /** A tiling splits at any block. */
  lemma {:induction false} TilesSplit(a: seq<Block>, b: seq<Block>, lo: nat, hi: nat)
    requires Tiles(a + b, lo, hi)
    ensures exists mid :: Tiles(a, lo, mid) && Tiles(b, mid, hi)
    decreases |a|
  {
    if a == [] {
      assert a + b == b;
      assert Tiles(a, lo, lo);
    } else {
      assert (a + b)[1..] == a[1..] + b;
      TilesSplit(a[1..], b, End(a[0]), hi);
      var mid :| Tiles(a[1..], End(a[0]), mid) && Tiles(b, mid, hi);
      assert Tiles(a, lo, mid);
    }
  }

  lemma {:induction false} TilesJoin(a: seq<Block>, b: seq<Block>, lo: nat, mid: nat, hi: nat)
    requires Tiles(a, lo, mid) && Tiles(b, mid, hi)
    ensures Tiles(a + b, lo, hi)
    decreases |a|
  {
    if a == [] {
      assert a + b == b;
    } else {
      assert (a + b)[1..] == a[1..] + b;
      TilesJoin(a[1..], b, End(a[0]), mid, hi);
    }
  }

  lemma {:induction false} TilesBounds(blocks: seq<Block>, lo: nat, hi: nat, i: nat)
    requires Tiles(blocks, lo, hi) && i < |blocks|
    ensures lo <= blocks[i].addr && End(blocks[i]) <= hi
    ensures i + 1 < |blocks| ==> blocks[i + 1].addr == End(blocks[i])
    ensures i == 0 ==> blocks[i].addr == lo
    ensures i + 1 == |blocks| ==> End(blocks[i]) == hi
    decreases |blocks|
  {
    if i > 0 {
      TilesBounds(blocks[1..], End(blocks[0]), hi, i - 1);
    } else if |blocks| > 1 {
      TilesBounds(blocks[1..], End(blocks[0]), hi, 0);
    }
  }

  /** Replacing a run of blocks by another run that covers the same addresses. */
  lemma TilesReplace(a: seq<Block>, old_: seq<Block>, new_: seq<Block>, b: seq<Block>, lo: nat, hi: nat)
    requires Tiles(a + old_ + b, lo, hi)
    requires forall l, h :: Tiles(old_, l, h) ==> Tiles(new_, l, h)
    ensures Tiles(a + new_ + b, lo, hi)
  {
    assert a + old_ + b == a + (old_ + b);
    TilesSplit(a, old_ + b, lo, hi);
    var m1 :| Tiles(a, lo, m1) && Tiles(old_ + b, m1, hi);
    TilesSplit(old_, b, m1, hi);
    var m2 :| Tiles(old_, m1, m2) && Tiles(b, m2, hi);
    TilesJoin(new_, b, m1, m2, hi);
    TilesJoin(a, new_ + b, lo, m1, hi);
    assert a + new_ + b == a + (new_ + b);
  }

  // ---------------------------------------------------------------------------
  // Sizes
  // ---------------------------------------------------------------------------

  lemma {:induction false} PowerOfTwoBy8(a: nat)
    requires IsPowerOfTwo(a) && a >= 8
    ensures a % 8 == 0
    decreases a
  {
    var b := a / 2;
    assert a == 2 * b;
    if a >= 16 {
      PowerOfTwoBy8(b);
      var c := b / 8;
      assert a == 8 * (2 * c);
    } else {
      assert IsPowerOfTwo(b) && b == 2 * (b / 2) && IsPowerOfTwo(b / 2);
    }
  }

  /** The largest multiple of a up to x. */
  function RoundDown(x: nat, a: nat): (r: nat)
    requires a > 0
    ensures r <= x < r + a
    decreases x
  {
    if x < a then 0 else a + RoundDown(x - a, a)
  }

  lemma {:induction false} RoundDownDouble(x: nat, a: nat, b: nat)
    requires b > 0 && a == 2 * b
    ensures RoundDown(x, a) == 2 * RoundDown(x / 2, b)
    decreases x
  {
    if x >= a {
      assert (x - a) / 2 == x / 2 - b;
      RoundDownDouble(x - a, a, b);
    }
  }

  lemma {:induction false} AndNotZero(x: nat)
    ensures AndNot(x, 0) == x && RoundDown(x, 1) == x
    decreases x
  {
    if x > 0 {
      AndNotZero(x / 2);
      AndNotZero(x - 1);
    }
  }

  /** For a power of two, masking with ~(a - 1) rounds down to a multiple of a. */
  lemma {:induction false} MaskRoundsDown(x: nat, a: nat, m: nat)
    requires IsPowerOfTwo(a) && m == a - 1
    ensures AndNot(x, m) == RoundDown(x, a)
    decreases a
  {
    if a == 1 {
      AndNotZero(x);
    } else {
      MaskRoundsDown(x / 2, a / 2, m / 2);
      RoundDownDouble(x, a, a / 2);
    }
  }

  /** A mask that ends in three one bits leaves a multiple of 8. */
  lemma MaskBy8(x: nat, m: nat)
    requires m % 8 == 7
    ensures AndNot(x, m) % 8 == 0
  {
    var n, o := Ones(m);
    var y := x / 2;
    HalfMask(x, m);
    HalfMask(y, n);
    HalfMask(y / 2, o);
    EightTimes(AndNot(y / 2 / 2, o / 2));
  }

  lemma Ones(m: nat) returns (n: nat, o: nat)
    requires m % 8 == 7
    ensures m % 2 == 1 && n == m / 2 && n % 2 == 1 && o == n / 2 && o % 2 == 1
  {
    var k := m / 8;
    n, o := 4 * k + 3, 2 * k + 1;
  }

  lemma EightTimes(w: nat)
    ensures (2 * (2 * (2 * w))) % 8 == 0
  {
  }

  lemma HalfMask(x: nat, m: nat)
    requires m % 2 == 1
    ensures AndNot(x, m) == 2 * AndNot(x / 2, m / 2)
  {
  }

  lemma LowestBitOfOdd(a: nat, m: nat)
    requires a % 2 == 1 && m == a - 1
    ensures AndNot(a, m) % 2 == 1
  {
  }

  lemma LowestBitOfEven(a: nat, m: nat, b: nat, n: nat)
    requires a == 2 * b && b > 0 && m == a - 1 && n == b - 1
    ensures AndNot(a, m) == 2 * AndNot(b, n)
  {
    HalfMask(a, m);
  }

  lemma LowestBitOfTwice(a: nat, m: nat, b: nat)
    requires a == 2 * b && b % 2 == 1 && m == a - 1
    ensures AndNot(a, m) % 8 != 0
  {
    LowestBitOfEven(a, m, b, b - 1);
    LowestBitOfOdd(b, b - 1);
    NotBy8(AndNot(b, b - 1));
  }

  lemma LowestBitOfFourTimes(a: nat, m: nat, b: nat, c: nat)
    requires a == 2 * b && b == 2 * c && c % 2 == 1 && m == a - 1
    ensures AndNot(a, m) % 8 != 0
  {
    LowestBitOfEven(a, m, b, b - 1);
    LowestBitOfEven(b, b - 1, c, c - 1);
    LowestBitOfOdd(c, c - 1);
    NotBy8(AndNot(c, c - 1));
  }

  lemma Halves(a: nat) returns (b: nat, c: nat)
    requires a % 8 != 0
    ensures a % 2 == 1 || (a == 2 * b && (b % 2 == 1 || (b == 2 * c && c % 2 == 1)))
  {
    b, c := 0, 0;
    var k, r := a / 8, a % 8;
    if r == 2 {
      b := 4 * k + 1;
      OddIs(b, 2 * k);
    } else if r == 6 {
      b := 4 * k + 3;
      OddIs(b, 2 * k + 1);
    } else if r == 4 {
      b, c := 4 * k + 2, 2 * k + 1;
      OddIs(c, k);
    } else {
      OddIs(a, 4 * k + (if r == 1 then 0 else if r == 3 then 1 else if r == 5 then 2 else 3));
    }
  }

  lemma OddIs(a: nat, w: nat)
    requires a == 2 * w + 1
    ensures a % 2 == 1
  {
  }

  /** a & ~(a - 1), the lowest one bit of a, is below 8 if a is no multiple of 8. */
  lemma LowestBit(a: nat, m: nat)
    requires a % 8 != 0 && m == a - 1
    ensures AndNot(a, m) % 8 != 0
  {
    var b, c := Halves(a);
    if a % 2 == 1 {
      LowestBitOfOdd(a, m);
      NotBy8(AndNot(a, m));
    } else if b % 2 == 1 {
      LowestBitOfTwice(a, m, b);
    } else {
      LowestBitOfFourTimes(a, m, b, c);
    }
  }

  lemma NotBy8(w: nat)
    requires w % 2 == 1
    ensures w % 8 != 0 && (2 * w) % 8 != 0 && (2 * (2 * w)) % 8 != 0
  {
  }

  /** The size looked for covers the request exactly when the rounding does not wrap, whatever the alignment. */
  lemma WantFacts(size: nat, alignment: nat)
    requires 0 < size < UINT32_SIZE && alignment < UINT32_SIZE
    ensures
      var a := EffectiveAlignment(alignment);
      && (size <= Want(size, alignment) <==> size + a - 1 < UINT32_SIZE)
      && (size + a - 1 < UINT32_SIZE ==> Want(size, alignment) < size + a)
      && (size + a - 1 >= UINT32_SIZE ==> Want(size, alignment) <= size + a - 1 - UINT32_SIZE)
  {
  }

  /** For a power of two it is the request rounded up to a multiple of it, and 0 when that wraps. */
  lemma WantRoundsUp(size: nat, alignment: nat)
    requires 0 < size < UINT32_SIZE && IsPowerOfTwo(alignment) && 8 <= alignment < UINT32_SIZE
    ensures
      var x := size + alignment - 1;
      Want(size, alignment) == if x < UINT32_SIZE then RoundDown(x, alignment) else 0
  {
    var x := size + alignment - 1;
    var y := if x < UINT32_SIZE then x else x - UINT32_SIZE;
    Wrapped(x, y);
    MaskRoundsDown(y, alignment, alignment - 1);
  }

  lemma Wrapped(x: nat, y: nat)
    requires x < 2 * UINT32_SIZE && y == if x < UINT32_SIZE then x else x - UINT32_SIZE
    ensures x % UINT32_SIZE == y
  {
  }

  lemma WantBy8(n: nat, alignment: nat, a: nat)
    requires a == EffectiveAlignment(alignment) && a % 8 == 0
    ensures Want(n, alignment) % 8 == 0
  {
    var k := a / 8 - 1;
    assert a - 1 == 8 * k + 7;
    MaskBy8((n + a - 1) % UINT32_SIZE, a - 1);
  }

  lemma WantNotBy8(n: nat, alignment: nat, a: nat)
    requires n == 1 && a == EffectiveAlignment(alignment) < UINT32_SIZE && a % 8 != 0
    ensures Want(n, alignment) % 8 != 0
  {
    Wrapped(a, a);
    LowestBit(a, a - 1);
  }

  /** Sizes are multiples of 8 exactly for the alignments that are, or that are raised to 8. */
  lemma WantBy8Iff(alignment: nat)
    requires alignment < UINT32_SIZE
    ensures EffectiveAlignment(alignment) % 8 == 0 <==> forall n :: 0 < n < UINT32_SIZE ==> Want(n, alignment) % 8 == 0
  {
    var a := EffectiveAlignment(alignment);
    if a % 8 == 0 {
      forall n | 0 < n < UINT32_SIZE ensures Want(n, alignment) % 8 == 0 { WantBy8(n, alignment, a); }
    } else {
      WantNotBy8(1, alignment, a);
    }
  }

  // ---------------------------------------------------------------------------
  // Allocation keeps the invariant
  // ---------------------------------------------------------------------------

  lemma AllocTiles(blocks: seq<Block>, i: nat, want: nat, lo: nat, hi: nat)
    requires Tiles(blocks, lo, hi) && i < |blocks| && blocks[i].size >= want
    ensures Tiles(AllocAt(blocks, i, want), lo, hi)
  {
    var b := blocks[i];
    var cut := if Splits(b, want) then [Taken(b, want), Rest(b, want)] else [Taken(b, want)];
    assert blocks == blocks[..i] + [b] + blocks[i + 1..];
    forall l, h | Tiles([b], l, h) ensures Tiles(cut, l, h) {
      assert [b][1..] == [];
      if Splits(b, want) {
        assert cut[1..] == [Rest(b, want)] && cut[1..][1..] == [];
      } else {
        assert cut[1..] == [];
      }
    }
    TilesReplace(blocks[..i], [b], cut, blocks[i + 1..], lo, hi);
  }

  /** The blocks of AllocAt, by index. */
  lemma AllocIndex(blocks: seq<Block>, i: nat, want: nat)
    requires i < |blocks|
    ensures
      var b, r := blocks[i], AllocAt(blocks, i, want);
      var n := if Splits(b, want) then 1 else 0;
      && |r| == |blocks| + n && r[i] == Taken(b, want)
      && (n == 1 ==> r[i + 1] == Rest(b, want))
      && r[..i] == blocks[..i] && r[i + 1 + n..] == blocks[i + 1..]
      && (forall k {:trigger r[k]} :: 0 <= k < i ==> r[k] == blocks[k])
      && (forall k {:trigger r[k]} :: i + 1 + n <= k < |r| ==> r[k] == blocks[k - n])
  {
  }

  lemma AllocInv(blocks: seq<Block>, base: nat, size: nat, i: nat, want: nat)
    requires HeapInv(blocks, base, size) && i < |blocks| && Fits(blocks[i], want)
    ensures HeapInv(AllocAt(blocks, i, want), base, size)
  {
    AllocTiles(blocks, i, want, base, base + size);
    AllocIndex(blocks, i, want);
  }

  lemma AllocOnGrid(blocks: seq<Block>, base: nat, i: nat, want: nat)
    requires OnGrid(blocks, base) && i < |blocks| && want % 8 == 0
    ensures OnGrid(AllocAt(blocks, i, want), base)
  {
    AllocIndex(blocks, i, want);
    var b, r := blocks[i], AllocAt(blocks, i, want);
    forall k | 0 <= k < |r| ensures (r[k].addr - base) % 8 == 0 {
      if Splits(b, want) && k == i + 1 {
        GridStep(b.addr - base, want);
      } else {
        assert r[k].addr == blocks[if k <= i then k else k + |blocks| - |r|].addr;
      }
    }
  }

  lemma GridStep(x: int, want: nat)
    requires x % 8 == 0 && want % 8 == 0
    ensures (x + HEADER_SIZE + want) % 8 == 0
  {
  }

  // ---------------------------------------------------------------------------
  // Freeing keeps the invariant
  // ---------------------------------------------------------------------------

  lemma MergeTiles(blocks: seq<Block>, i: nat, lo: nat, hi: nat)
    requires Tiles(blocks, lo, hi) && i < |blocks|
    ensures Tiles(Merge(blocks, i), lo, hi)
  {
    if i + 1 < |blocks| && blocks[i + 1].free {
      var two := [blocks[i], blocks[i + 1]];
      var one := [blocks[i].(size := blocks[i].size + HEADER_SIZE + blocks[i + 1].size)];
      assert blocks == blocks[..i] + two + blocks[i + 2..];
      forall l, h | Tiles(two, l, h) ensures Tiles(one, l, h) {
        assert two[1..] == [blocks[i + 1]] && two[1..][1..] == [];
        assert Tiles(two[1..], End(blocks[i]), h) && Tiles(two[1..][1..], End(blocks[i + 1]), h);
        assert one[1..] == [];
      }
      TilesReplace(blocks[..i], two, one, blocks[i + 2..], lo, hi);
    }
  }

  lemma MarkFreeTiles(blocks: seq<Block>, i: nat, lo: nat, hi: nat)
    requires Tiles(blocks, lo, hi) && i < |blocks|
    ensures Tiles(MarkFree(blocks, i), lo, hi)
  {
    var b := blocks[i];
    assert blocks == blocks[..i] + [b] + blocks[i + 1..];
    assert MarkFree(blocks, i) == blocks[..i] + [b.(free := true)] + blocks[i + 1..];
    forall l, h | Tiles([b], l, h) ensures Tiles([b.(free := true)], l, h) {
      assert [b][1..] == [] && [b.(free := true)][1..] == [];
    }
    TilesReplace(blocks[..i], [b], [b.(free := true)], blocks[i + 1..], lo, hi);
  }

  /** The blocks of Merge, by index. */
  lemma MergeIndex(blocks: seq<Block>, i: nat)
    requires i < |blocks|
    ensures
      var r := Merge(blocks, i);
      var n := if i + 1 < |blocks| && blocks[i + 1].free then 1 else 0;
      && |r| == |blocks| - n && r[i].addr == blocks[i].addr && r[i].free == blocks[i].free
      && (forall k {:trigger r[k]} :: 0 <= k < i ==> r[k] == blocks[k])
      && (forall k {:trigger r[k]} :: i < k < |r| ==> r[k] == blocks[k + n])
  {
    var r := Merge(blocks, i);
    if i + 1 < |blocks| && blocks[i + 1].free {
      assert r[..i] == blocks[..i] && r[i + 1..] == blocks[i + 2..];
      forall k {:trigger r[k]} | i < k < |r| ensures r[k] == blocks[k + 1] { assert r[k] == r[i + 1..][k - i - 1]; }
    }
  }

  lemma FreeTiles(blocks: seq<Block>, i: nat, lo: nat, hi: nat)
    requires Tiles(blocks, lo, hi) && i < |blocks|
    ensures Tiles(FreeAt(blocks, i), lo, hi)
  {
    MarkFreeTiles(blocks, i, lo, hi);
    MergeTiles(MarkFree(blocks, i), i, lo, hi);
    if i > 0 { MergeTiles(Merge(MarkFree(blocks, i), i), i - 1, lo, hi); }
  }

  /** After the forward merge only the block before i can still touch a free neighbour. */
  lemma ForwardMergeCoalesces(blocks: seq<Block>, i: nat)
    requires Coalesced(blocks) && i < |blocks|
    ensures
      var m := Merge(MarkFree(blocks, i), i);
      && m[i].free
      && (forall k :: 0 <= k < i ==> m[k] == blocks[k])
      && (forall k :: 0 <= k < |m| - 1 && k != i - 1 ==> !(m[k].free && m[k + 1].free))
  {
    var f := MarkFree(blocks, i);
    MergeIndex(f, i);
  }

  lemma BackwardMergeCoalesces(m: seq<Block>, i: nat)
    requires 0 < i < |m| && m[i - 1].free && m[i].free
    requires forall k :: 0 <= k < |m| - 1 && k != i - 1 ==> !(m[k].free && m[k + 1].free)
    ensures Coalesced(Merge(m, i - 1))
  {
    MergeIndex(m, i - 1);
    var r := Merge(m, i - 1);
    forall k | 0 <= k < |r| - 1 ensures !(r[k].free && r[k + 1].free) {
      if k >= i - 1 { assert r[k + 1] == m[k + 2] && !(m[k + 1].free && m[k + 2].free); }
    }
  }

  lemma FreeInv(blocks: seq<Block>, base: nat, size: nat, i: nat)
    requires HeapInv(blocks, base, size) && i < |blocks| && !blocks[i].free
    ensures HeapInv(FreeAt(blocks, i), base, size)
  {
    FreeTiles(blocks, i, base, base + size);
    var m := Merge(MarkFree(blocks, i), i);
    ForwardMergeCoalesces(blocks, i);
    if i > 0 && m[i - 1].free { BackwardMergeCoalesces(m, i); }
  }

  lemma MergeOnGrid(blocks: seq<Block>, base: nat, i: nat)
    requires OnGrid(blocks, base) && i < |blocks|
    ensures OnGrid(Merge(blocks, i), base)
  {
    MergeIndex(blocks, i);
    var r := Merge(blocks, i);
    forall k | 0 <= k < |r| ensures (r[k].addr - base) % 8 == 0 {
      assert r[k].addr == blocks[if k <= i then k else k + |blocks| - |r|].addr;
    }
  }

  lemma FreeOnGrid(blocks: seq<Block>, base: nat, i: nat)
    requires OnGrid(blocks, base) && i < |blocks|
    ensures OnGrid(FreeAt(blocks, i), base)
  {
    var f := MarkFree(blocks, i);
    assert OnGrid(f, base);
    MergeOnGrid(f, base, i);
    if i > 0 { MergeOnGrid(Merge(f, i), base, i - 1); }
  }
}
