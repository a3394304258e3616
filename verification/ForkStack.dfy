/**
 The user-stack half of sys_fork: the child gets a copy of the parent's stack in which every
 link of the saved-EBP chain that points into the parent's stack is moved to the child's.
 Stacks are arrays of 32-bit words; addresses are byte addresses.
 */
module ForkStack {

  const USTACK_SIZE: nat := 16384
  const WORDS: nat := 4096
  const GUARD: nat := 64
  const UINT32_SIZE: nat := 0x1_0000_0000

  /** 32-bit addition of the distance between the two stacks. */
  function Shift(x: nat, delta: int): nat {
    (x + delta) % UINT32_SIZE
  }

  /** A word-aligned stack that does not reach the end of the address space. */
  predicate StackAt(lo: nat) {
    lo % 4 == 0 && lo + USTACK_SIZE < UINT32_SIZE
  }

  /** The stacks do not even touch: each block has a header before it. */
  predicate Apart(lo: nat, childLo: nat) {
    lo + USTACK_SIZE < childLo || childLo + USTACK_SIZE < lo
  }

  /** The address of a whole word inside the stack. */
  predicate IsSlot(lo: nat, a: nat) {
    lo <= a <= lo + USTACK_SIZE - 4 && a % 4 == 0
  }

  function SlotIndex(lo: nat, a: nat): (i: nat)
    requires StackAt(lo) && IsSlot(lo, a)
    ensures i < WORDS && lo + 4 * i == a
  {
    (a - lo) / 4
  }

  /** A link is moved when it points into the parent's stack, its upper end included. */
  predicate PointsInto(lo: nat, v: nat) {
    lo <= v <= lo + USTACK_SIZE
  }

  /** The slots the loop visits: it follows links upwards, through at most `guard` frames. */
  function FrameChain(words: seq<nat>, lo: nat, ebp: nat, guard: nat): (chain: seq<nat>)
    requires |words| == WORDS && StackAt(lo)
    decreases guard
  {
    if guard == 0 || !IsSlot(lo, ebp) then []
    else
      var link := words[SlotIndex(lo, ebp)];
      if link <= ebp then [ebp] else [ebp] + FrameChain(words, lo, link, guard - 1)
  }

  /** The chain ascends strictly through slots of the stack, and has at most `guard` frames. */
  lemma {:induction false} ChainAscends(words: seq<nat>, lo: nat, ebp: nat, guard: nat)
    requires |words| == WORDS && StackAt(lo)
    ensures
      var c := FrameChain(words, lo, ebp, guard);
      && |c| <= guard
      && (forall i :: 0 <= i < |c| ==> IsSlot(lo, c[i]) && c[i] >= ebp)
      && (forall i, j :: 0 <= i < j < |c| ==> c[i] < c[j])
    decreases guard
  {
    if guard > 0 && IsSlot(lo, ebp) {
      var link := words[SlotIndex(lo, ebp)];
      if link > ebp { ChainAscends(words, lo, link, guard - 1); }
    }
  }

  /** c starts at ebp, each frame is where the one before links to, and it ends for one of the loop's reasons. */
  ghost predicate FollowsLinks(words: seq<nat>, lo: nat, ebp: nat, guard: nat, c: seq<nat>)
    requires |words| == WORDS && StackAt(lo)
  {
    && |c| <= guard && (forall i :: 0 <= i < |c| ==> IsSlot(lo, c[i]))
    && (c != [] ==> c[0] == ebp)
    && (forall i :: 0 < i < |c| ==> c[i] == words[SlotIndex(lo, c[i - 1])] && c[i] > c[i - 1])
    && (|c| < guard ==>
          if c == [] then !IsSlot(lo, ebp)
          else
            var last := c[|c| - 1];
            var link := words[SlotIndex(lo, last)];
            link <= last || !IsSlot(lo, link))
  }

  lemma {:induction false} ChainFollowsLinks(words: seq<nat>, lo: nat, ebp: nat, guard: nat)
    requires |words| == WORDS && StackAt(lo)
    ensures FollowsLinks(words, lo, ebp, guard, FrameChain(words, lo, ebp, guard))
    decreases guard
  {
    if guard > 0 && IsSlot(lo, ebp) {
      var link := words[SlotIndex(lo, ebp)];
      if link > ebp {
        ChainFollowsLinks(words, lo, link, guard - 1);
        FirstFrame(words, lo, ebp, link, guard, FrameChain(words, lo, link, guard - 1));
      }
    }
  }

  lemma FirstFrame(words: seq<nat>, lo: nat, ebp: nat, link: nat, guard: nat, rest: seq<nat>)
    requires |words| == WORDS && StackAt(lo) && guard > 0 && IsSlot(lo, ebp)
    requires link == words[SlotIndex(lo, ebp)] > ebp && FollowsLinks(words, lo, link, guard - 1, rest)
    ensures FollowsLinks(words, lo, ebp, guard, [ebp] + rest)
  {
    var c := [ebp] + rest;
    forall i | 0 < i < |c| ensures c[i] == words[SlotIndex(lo, c[i - 1])] && c[i] > c[i - 1] {
      if i > 1 { assert c[i] == rest[i - 1] && c[i - 1] == rest[i - 2]; }
    }
  }

  /** The child's stack: the parent's words, with the links on the chain moved. */
  function Relocated(words: seq<nat>, lo: nat, delta: int, chain: seq<nat>): (r: seq<nat>)
    requires |words| == WORDS
    ensures |r| == WORDS
  {
    seq(WORDS, i requires 0 <= i < WORDS =>
      if lo + 4 * i in chain && PointsInto(lo, words[i]) then Shift(words[i], delta) else words[i])
  }

  method CopyStack(parent: array<nat>) returns (child: array<nat>)
    requires parent.Length == WORDS
    ensures fresh(child) && child[..] == parent[..]
  {
    child := new nat[WORDS];
    for i := 0 to WORDS
      invariant child[..i] == parent[..i]
    {
      child[i] := parent[i];
    }
  }

  /** What the loop of sys_fork has done and still has to do. */
  ghost predicate WalkInv(words: seq<nat>, lo: nat, delta: int, now: seq<nat>, all: seq<nat>, ebp: nat, guard: nat,
                          done: seq<nat>) {
    && |words| == WORDS && StackAt(lo)
    && now == Relocated(words, lo, delta, done)
    && all == done + FrameChain(words, lo, ebp, guard)
    && forall a :: a in done ==> a < ebp
  }

  lemma WalkStep(words: seq<nat>, lo: nat, delta: int, now: seq<nat>, all: seq<nat>, ebp: nat, guard: nat,
                 done: seq<nat>)
    requires WalkInv(words, lo, delta, now, all, ebp, guard, done) && guard > 0 && IsSlot(lo, ebp)
    ensures
      var i := SlotIndex(lo, ebp);
      var next := if PointsInto(lo, words[i]) then now[i := Shift(words[i], delta)] else now;
      && now[i] == words[i]
      && next == Relocated(words, lo, delta, done + [ebp])
      && (words[i] <= ebp ==> all == done + [ebp])
      && (words[i] > ebp ==> WalkInv(words, lo, delta, next, all, words[i], guard - 1, done + [ebp]))
  {
    var i := SlotIndex(lo, ebp);
    var next := if PointsInto(lo, words[i]) then now[i := Shift(words[i], delta)] else now;
    assert ebp !in done;
    forall k | 0 <= k < WORDS ensures next[k] == Relocated(words, lo, delta, done + [ebp])[k] {
      assert lo + 4 * k in done + [ebp] <==> lo + 4 * k in done || k == i;
    }
    assert next == Relocated(words, lo, delta, done + [ebp]);
    if words[i] > ebp {
      assert done + [ebp] + FrameChain(words, lo, words[i], guard - 1) ==
          done + ([ebp] + FrameChain(words, lo, words[i], guard - 1));
    }
  }

  /** Read one link and move it if it points into the parent's stack. */
  method VisitFrame(child: array<nat>, lo: nat, delta: int, ebp: nat) returns (link: nat)
    requires child.Length == WORDS && StackAt(lo) && IsSlot(lo, ebp)
    modifies child
    ensures link == old(child[..])[SlotIndex(lo, ebp)]
    ensures child[..] == if PointsInto(lo, link) then old(child[..])[SlotIndex(lo, ebp) := Shift(link, delta)]
        else old(child[..])
  {
    var i := SlotIndex(lo, ebp);
    link := child[i];
    if PointsInto(lo, link) { child[i] := Shift(link, delta); }
  }

  /** The chain walk of sys_fork, in place on the copied stack. */
  method RelocateChain(child: array<nat>, lo: nat, delta: int, ebp0: nat, maxFrames: nat)
    requires child.Length == WORDS && StackAt(lo)
    modifies child
    ensures child[..] == Relocated(old(child[..]), lo, delta, FrameChain(old(child[..]), lo, ebp0, maxFrames))
  {
    ghost var words := child[..];
    ghost var all := FrameChain(words, lo, ebp0, maxFrames);
    ghost var done: seq<nat> := [];
    var ebp, guard := ebp0, maxFrames;
    assert words == Relocated(words, lo, delta, []);
    while guard > 0 && IsSlot(lo, ebp)
      invariant WalkInv(words, lo, delta, child[..], all, ebp, guard, done)
    {
      WalkStep(words, lo, delta, child[..], all, ebp, guard, done);
      var link := VisitFrame(child, lo, delta, ebp);
      done := done + [ebp];
      if link <= ebp { return; }
      ebp, guard := link, guard - 1;
    }
    assert all == done;
  }

  /** Copy the parent's stack and relocate the links of its chain; sys_fork follows GUARD frames. */
  method ForkUserStack(parent: array<nat>, lo: nat, delta: int, ebp: nat, maxFrames: nat) returns (child: array<nat>)
    requires parent.Length == WORDS && StackAt(lo) && maxFrames == GUARD
    ensures fresh(child) && child.Length == WORDS
    ensures child[..] == Relocated(parent[..], lo, delta, FrameChain(parent[..], lo, ebp, maxFrames))
  {
    child := CopyStack(parent);
    RelocateChain(child, lo, delta, ebp, maxFrames);
  }

  // ---------------------------------------------------------------------------
  // What the child sees
  // ---------------------------------------------------------------------------

  /** Moving an address of the parent's stack gives the same place in the child's. */
  lemma ShiftInto(lo: nat, childLo: nat, v: nat)
    requires StackAt(lo) && StackAt(childLo) && PointsInto(lo, v)
    ensures Shift(v, childLo - lo) == v - lo + childLo
  {
  }

  /** Word by word: the child's stack holds what the parent's holds at the same place, or the same link moved. */
  lemma ChildWord(words: seq<nat>, lo: nat, childLo: nat, chain: seq<nat>, a: nat)
    requires |words| == WORDS && StackAt(lo) && StackAt(childLo) && IsSlot(lo, a)
    ensures IsSlot(childLo, a - lo + childLo)
    ensures
      var w := words[SlotIndex(lo, a)];
      Relocated(words, lo, childLo - lo, chain)[SlotIndex(childLo, a - lo + childLo)] ==
          if a in chain && lo <= w <= lo + USTACK_SIZE then w - lo + childLo else w
  {
    var w := words[SlotIndex(lo, a)];
    assert SlotIndex(childLo, a - lo + childLo) == SlotIndex(lo, a);
    if PointsInto(lo, w) { ShiftInto(lo, childLo, w); }
  }

  /** No frame the walk visited links back into the parent's stack. */
  lemma NoLinkIntoParent(words: seq<nat>, lo: nat, childLo: nat, chain: seq<nat>, a: nat)
    requires |words| == WORDS && StackAt(lo) && StackAt(childLo) && Apart(lo, childLo)
    requires a in chain && IsSlot(lo, a)
    ensures !PointsInto(lo, Relocated(words, lo, childLo - lo, chain)[SlotIndex(lo, a)])
  {
    var v := words[SlotIndex(lo, a)];
    if PointsInto(lo, v) { ShiftInto(lo, childLo, v); }
  }

  function ShiftAll(chain: seq<nat>, delta: int): (r: seq<nat>) {
    seq(|chain|, i requires 0 <= i < |chain| => Shift(chain[i], delta))
  }

  /** The link of a frame leaves the parent's stack, yet happens to name a frame further up the child's. */
  predicate StrayLink(words: seq<nat>, lo: nat, childLo: nat, a: nat)
    requires |words| == WORDS && StackAt(lo) && IsSlot(lo, a)
  {
    var v := words[SlotIndex(lo, a)];
    !PointsInto(lo, v) && IsSlot(childLo, v) && v > a - lo + childLo
  }

  /** The walk stopped, before it ran out of frames, at a frame with such a link. */
  predicate EndsStray(words: seq<nat>, lo: nat, childLo: nat, c: seq<nat>, guard: nat)
    requires |words| == WORDS && StackAt(lo)
  {
    0 < |c| < guard && IsSlot(lo, c[|c| - 1]) && StrayLink(words, lo, childLo, c[|c| - 1])
  }

  /**
   The child's frame chain is the parent's, moved: walking the child's stack from the moved
   frame pointer visits exactly the moved frames. The one exception is a walk that stops, before
   it runs out of frames, at a frame whose link leaves the parent's stack for the child's.
   */
  lemma {:induction false} ChildChainIsMoved(words: seq<nat>, lo: nat, childLo: nat, chain: seq<nat>, ebp: nat,
                                             guard: nat)
    requires |words| == WORDS && StackAt(lo) && StackAt(childLo) && PointsInto(lo, ebp)
    requires forall a :: a in FrameChain(words, lo, ebp, guard) ==> a in chain
    ensures
      var c := FrameChain(words, lo, ebp, guard);
      FrameChain(Relocated(words, lo, childLo - lo, chain), childLo, Shift(ebp, childLo - lo), guard) ==
          ShiftAll(c, childLo - lo)
      <==> !EndsStray(words, lo, childLo, c, guard)
    decreases guard
  {
    if guard == 0 || !IsSlot(lo, ebp) {
      NoFrame(words, lo, childLo, chain, ebp, guard);
    } else {
      var c := FrameChain(words, lo, ebp, guard);
      var link := words[SlotIndex(lo, ebp)];
      assert c[0] == ebp && ebp in c;
      if PointsInto(lo, link) && link > ebp {
        var rest := FrameChain(words, lo, link, guard - 1);
        assert c == [ebp] + rest;
        assert forall a :: a in rest ==> a in c;
        ChildChainIsMoved(words, lo, childLo, chain, link, guard - 1);
        LongerChain(words, lo, childLo, chain, ebp, link, guard);
        SameEnd(words, lo, childLo, ebp, link, guard);
      } else {
        LastFrame(words, lo, childLo, chain, ebp, guard);
      }
    }
  }

  lemma NoFrame(words: seq<nat>, lo: nat, childLo: nat, chain: seq<nat>, ebp: nat, guard: nat)
    requires |words| == WORDS && StackAt(lo) && StackAt(childLo) && PointsInto(lo, ebp)
    requires guard == 0 || !IsSlot(lo, ebp)
    ensures FrameChain(words, lo, ebp, guard) == []
    ensures FrameChain(Relocated(words, lo, childLo - lo, chain), childLo, Shift(ebp, childLo - lo), guard) == []
  {
    ShiftInto(lo, childLo, ebp);
  }

  /** A frame whose link leads no further up the parent's stack is the last one, in the child too unless it strays. */
  lemma LastFrame(words: seq<nat>, lo: nat, childLo: nat, chain: seq<nat>, ebp: nat, guard: nat)
    requires |words| == WORDS && StackAt(lo) && StackAt(childLo) && guard > 0 && IsSlot(lo, ebp) && ebp in chain
    requires var link := words[SlotIndex(lo, ebp)]; !(PointsInto(lo, link) && link > ebp)
    ensures FrameChain(words, lo, ebp, guard) == [ebp]
    ensures
      FrameChain(Relocated(words, lo, childLo - lo, chain), childLo, Shift(ebp, childLo - lo), guard) ==
          ShiftAll([ebp], childLo - lo)
      <==> !EndsStray(words, lo, childLo, [ebp], guard)
  {
    var child, a := Relocated(words, lo, childLo - lo, chain), Shift(ebp, childLo - lo);
    ChildLink(words, lo, childLo, chain, ebp);
    var link := child[SlotIndex(childLo, a)];
    if link > a {
      assert FrameChain(child, childLo, a, guard) == [a] + FrameChain(child, childLo, link, guard - 1);
    }
  }

  /** One frame more in front does not change how the walk ends. */
  lemma SameEnd(words: seq<nat>, lo: nat, childLo: nat, ebp: nat, link: nat, guard: nat)
    requires |words| == WORDS && StackAt(lo) && StackAt(childLo) && guard > 0
    requires IsSlot(lo, ebp) && link == words[SlotIndex(lo, ebp)] && link > ebp && PointsInto(lo, link)
    ensures EndsStray(words, lo, childLo, FrameChain(words, lo, ebp, guard), guard)
            <==> EndsStray(words, lo, childLo, FrameChain(words, lo, link, guard - 1), guard - 1)
  {
    var rest := FrameChain(words, lo, link, guard - 1);
    assert FrameChain(words, lo, ebp, guard) == [ebp] + rest;
  }

  /** Prefixing one frame to both chains keeps their agreement. */
  lemma LongerChain(words: seq<nat>, lo: nat, childLo: nat, chain: seq<nat>, ebp: nat, link: nat, guard: nat)
    requires |words| == WORDS && StackAt(lo) && StackAt(childLo) && guard > 0
    requires IsSlot(lo, ebp) && ebp in chain && link == words[SlotIndex(lo, ebp)] && link > ebp && PointsInto(lo, link)
    ensures
      var child := Relocated(words, lo, childLo - lo, chain);
      var delta := childLo - lo;
      var rest := FrameChain(words, lo, link, guard - 1);
      FrameChain(child, childLo, Shift(ebp, delta), guard) == ShiftAll(FrameChain(words, lo, ebp, guard), delta)
      <==> FrameChain(child, childLo, Shift(link, delta), guard - 1) == ShiftAll(rest, delta)
  {
    var child := Relocated(words, lo, childLo - lo, chain);
    var delta := childLo - lo;
    ChildLink(words, lo, childLo, chain, ebp);
    var rest := FrameChain(words, lo, link, guard - 1);
    assert FrameChain(words, lo, ebp, guard) == [ebp] + rest;
    assert ShiftAll([ebp] + rest, delta) == [Shift(ebp, delta)] + ShiftAll(rest, delta);
    var moved := FrameChain(child, childLo, Shift(link, delta), guard - 1);
    assert FrameChain(child, childLo, Shift(ebp, delta), guard) == [Shift(ebp, delta)] + moved;
    assert ([Shift(ebp, delta)] + moved)[1..] == moved;
    assert ([Shift(ebp, delta)] + ShiftAll(rest, delta))[1..] == ShiftAll(rest, delta);
  }

  /**
   One link of the child: it sits in the moved slot, and is the moved link exactly when the link
   points into the parent's stack.
   */
  lemma ChildLink(words: seq<nat>, lo: nat, childLo: nat, chain: seq<nat>, ebp: nat)
    requires |words| == WORDS && StackAt(lo) && StackAt(childLo) && IsSlot(lo, ebp) && ebp in chain
    ensures
      var child := Relocated(words, lo, childLo - lo, chain);
      var link := words[SlotIndex(lo, ebp)];
      var a := Shift(ebp, childLo - lo);
      && a == ebp - lo + childLo && IsSlot(childLo, a)
      && (PointsInto(lo, link) ==> child[SlotIndex(childLo, a)] == Shift(link, childLo - lo) == link - lo + childLo)
      && (!PointsInto(lo, link) ==> child[SlotIndex(childLo, a)] == link)
  {
    ShiftInto(lo, childLo, ebp);
    var link := words[SlotIndex(lo, ebp)];
    assert SlotIndex(childLo, ebp - lo + childLo) == SlotIndex(lo, ebp);
    if PointsInto(lo, link) { ShiftInto(lo, childLo, link); }
  }
}
