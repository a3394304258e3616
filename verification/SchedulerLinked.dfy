/**
 The scheduler as the kernel has it: a table of process control blocks updated in place, and
 three ready queues threaded through `next` links with a head and a tail each. Every method
 is proved to take the abstract state to the state that SchedulerModel computes, and to keep
 the links well formed: each queue is an acyclic list from head to tail, and no process is in
 two places. Slot numbers stand for pointers, NIL for the null pointer.
 */
module SchedulerLinked {
  import opened SchedulerModel
  import opened SchedulerInvariant

  const NIL: int := -1

  /** The links from h to t spell out xs. */
  ghost predicate Chain(next: seq<int>, xs: seq<nat>, h: int, t: int) {
    && (forall k :: 0 <= k < |xs| ==> xs[k] < |next|)
    && if xs == [] then h == NIL && t == NIL
       else h == xs[0] && t == xs[|xs| - 1]
            && forall k {:trigger Follower(xs, k)} :: 0 <= k < |xs| ==> next[xs[k]] == Follower(xs, k)
  }

  function Follower(xs: seq<nat>, k: nat): int
    requires k < |xs|
  {
    if k + 1 < |xs| then xs[k + 1] else NIL
  }

  /** No process stands twice in one queue or in two queues. */
  ghost predicate Apart(queues: seq<seq<nat>>) {
    && (forall q :: 0 <= q < |queues| ==> NoDup(queues[q]))
    && (forall q, r, x :: 0 <= q < r < |queues| && x in queues[q] ==> x !in queues[r])
  }

  lemma ChainFrame(next: seq<int>, next': seq<int>, xs: seq<nat>, h: int, t: int)
    requires Chain(next, xs, h, t) && |next'| == |next|
    requires forall x :: x in xs && x < |next| ==> next'[x] == next[x]
    ensures Chain(next', xs, h, t)
  {
  }

  lemma ChainAppend(next: seq<int>, xs: seq<nat>, h: int, t: int, p: nat)
    requires Chain(next, xs, h, t) && NoDup(xs) && p < |next| && p !in xs
    ensures
      var next1 := next[p := NIL];
      if xs == [] then Chain(next1, [p], p, p)
      else 0 <= t < |next| && Chain(next1[t := p], xs + [p], h, p)
  {
    if xs != [] {
      var next1 := next[p := NIL][t := p];
      var ys := xs + [p];
      forall k | 0 <= k < |ys| ensures next1[ys[k]] == Follower(ys, k) {
        if k < |xs| {
          assert ys[k] == xs[k] && next[xs[k]] == Follower(xs, k);
        }
      }
    }
  }

  /** Unlinking the head. The list had one element exactly when the head has no follower, or is the tail. */
  lemma ChainPop(next: seq<int>, xs: seq<nat>, h: int, t: int)
    requires Chain(next, xs, h, t) && NoDup(xs) && xs != []
    ensures 0 <= h < |next| && (next[h] == NIL <==> |xs| == 1) && (t == h <==> |xs| == 1)
    ensures Chain(next[h := NIL], xs[1..], next[h], if |xs| == 1 then NIL else t)
  {
    var ys := xs[1..];
    assert next[xs[0]] == Follower(xs, 0);
    forall k | 0 <= k < |ys| ensures next[h := NIL][ys[k]] == Follower(ys, k) {
      assert ys[k] == xs[k + 1] && next[xs[k + 1]] == Follower(xs, k + 1);
    }
  }

  /** ys is xs without the element at position k, index by index. */
  ghost predicate IsRemoval(xs: seq<nat>, ys: seq<nat>, k: nat) {
    && k < |xs| && |ys| == |xs| - 1
    && forall i {:trigger ys[i]} :: 0 <= i < |ys| ==> ys[i] == if i < k then xs[i] else xs[i + 1]
  }

  lemma RemoveFollower(xs: seq<nat>, ys: seq<nat>, k: nat, i: nat)
    requires 0 < k && IsRemoval(xs, ys, k) && i < |ys|
    ensures Follower(ys, i) == if i < k - 1 then Follower(xs, i) else Follower(xs, i + 1)
  {
  }

  lemma RemovedLink(next: seq<int>, xs: seq<nat>, ys: seq<nat>, h: int, t: int, k: nat, i: nat)
    requires Chain(next, xs, h, t) && NoDup(xs) && 0 < k && IsRemoval(xs, ys, k) && i < |ys|
    ensures ys[i] < |next| && next[xs[k - 1] := next[xs[k]]][xs[k] := NIL][ys[i]] == Follower(ys, i)
  {
    RemoveFollower(xs, ys, k, i);
    var j := if i < k then i else i + 1;
    assert ys[i] == xs[j] && xs[j] != xs[k] && next[xs[j]] == Follower(xs, j);
    if i == k - 1 {
      assert next[xs[k]] == Follower(xs, k);
    } else {
      assert xs[j] != xs[k - 1];
    }
  }

  /** Unlinking the element at position k > 0. */
  lemma ChainRemove(next: seq<int>, xs: seq<nat>, ys: seq<nat>, h: int, t: int, k: nat)
    requires Chain(next, xs, h, t) && NoDup(xs) && 0 < k && IsRemoval(xs, ys, k)
    ensures Chain(next[xs[k - 1] := next[xs[k]]][xs[k] := NIL], ys, h, if t == xs[k] then xs[k - 1] else t)
  {
    var next1 := next[xs[k - 1] := next[xs[k]]][xs[k] := NIL];
    forall i {:trigger ys[i]} {:trigger Follower(ys, i)} | 0 <= i < |ys|
      ensures ys[i] < |next1| && next1[ys[i]] == Follower(ys, i)
    {
      RemovedLink(next, xs, ys, h, t, k, i);
    }
    assert xs[|xs| - 1] == xs[k] <==> k == |xs| - 1;
    assert ys[0] == xs[0] && ys[|ys| - 1] == if k == |xs| - 1 then xs[k - 1] else xs[|xs| - 1];
  }

  lemma RemoveIndex(xs: seq<nat>, k: nat)
    requires NoDup(xs) && k < |xs|
    ensures IndexOf(xs, xs[k]) == k && IsRemoval(xs, Remove(xs, xs[k]), k)
    ensures k == 0 ==> Remove(xs, xs[k]) == xs[1..]
  {
  }

  /** All queues are threaded through the links, and no process is in two places. */
  ghost predicate Threaded(next: seq<int>, head: seq<int>, tail: seq<int>, queues: seq<seq<nat>>) {
    && |head| == |queues| && |tail| == |queues|
    && Apart(queues)
    && forall q :: 0 <= q < |queues| ==> Chain(next, queues[q], head[q], tail[q])
  }

  ghost predicate Absent(queues: seq<seq<nat>>, p: nat) {
    forall q :: 0 <= q < |queues| ==> p !in queues[q]
  }

  /** Replacing one queue, when the links of the others did not change. */
  lemma ThreadedUpdate(next: seq<int>, head: seq<int>, tail: seq<int>, queues: seq<seq<nat>>,
                       next': seq<int>, q: nat, xs: seq<nat>, h: int, t: int)
    requires Threaded(next, head, tail, queues) && q < |queues| && |next'| == |next|
    requires Chain(next', xs, h, t) && Apart(queues[q := xs])
    requires forall r, x :: 0 <= r < |queues| && r != q && x in queues[r] && x < |next| ==> next'[x] == next[x]
    ensures Threaded(next', head[q := h], tail[q := t], queues[q := xs])
  {
    forall r | 0 <= r < |queues| && r != q ensures Chain(next', queues[r], head[r], tail[r]) {
      ChainFrame(next, next', queues[r], head[r], tail[r]);
    }
  }

  lemma ApartAppend(queues: seq<seq<nat>>, q: nat, p: nat)
    requires Apart(queues) && q < |queues| && Absent(queues, p)
    ensures Apart(queues[q := queues[q] + [p]])
  {
    var r := queues[q := queues[q] + [p]];
    forall a, b, x | 0 <= a < b < |r| && x in r[a] ensures x !in r[b] {
      assert x == p || x in queues[a];
      assert a != q ==> p !in queues[a];
      assert b != q ==> p !in queues[b];
    }
  }

  lemma ApartShrink(queues: seq<seq<nat>>, q: nat, xs: seq<nat>)
    requires Apart(queues) && q < |queues| && NoDup(xs) && forall x :: x in xs ==> x in queues[q]
    ensures Apart(queues[q := xs])
  {
  }

  lemma ThreadedAppend(next: seq<int>, head: seq<int>, tail: seq<int>, queues: seq<seq<nat>>, q: nat, p: nat)
    requires Threaded(next, head, tail, queues) && q < |queues| && p < |next| && Absent(queues, p)
    ensures tail[q] == NIL ==> Threaded(next[p := NIL], head[q := p], tail[q := p], queues[q := queues[q] + [p]])
    ensures tail[q] != NIL ==> 0 <= tail[q] < |next|
    ensures tail[q] != NIL ==> Threaded(next[p := NIL][tail[q] := p], head, tail[q := p], queues[q := queues[q] + [p]])
  {
    var xs, h, t := queues[q], head[q], tail[q];
    assert Chain(next, xs, h, t);
    ChainAppend(next, xs, h, t, p);
    ApartAppend(queues, q, p);
    if t == NIL {
      assert xs + [p] == [p];
      ThreadedUpdate(next, head, tail, queues, next[p := NIL], q, xs + [p], p, p);
    } else {
      assert t in xs;
      ThreadedUpdate(next, head, tail, queues, next[p := NIL][t := p], q, xs + [p], h, p);
      assert head[q := h] == head;
    }
  }

  lemma ThreadedPop(next: seq<int>, head: seq<int>, tail: seq<int>, queues: seq<seq<nat>>, q: nat)
    requires Threaded(next, head, tail, queues) && q < |queues| && queues[q] != []
    ensures 0 <= head[q] < |next| && head[q] == queues[q][0]
    ensures next[head[q]] == NIL <==> |queues[q]| == 1
    ensures tail[q] == head[q] <==> |queues[q]| == 1
    ensures Threaded(next[head[q] := NIL], head[q := next[head[q]]],
                     tail[q := if |queues[q]| == 1 then NIL else tail[q]], queues[q := queues[q][1..]])
  {
    var xs, h, t := queues[q], head[q], tail[q];
    assert Chain(next, xs, h, t);
    ChainPop(next, xs, h, t);
    ApartShrink(queues, q, xs[1..]);
    assert h in xs;
    ThreadedUpdate(next, head, tail, queues, next[h := NIL], q, xs[1..], next[h], if |xs| == 1 then NIL else t);
  }

  lemma ThreadedRemove(next: seq<int>, head: seq<int>, tail: seq<int>, queues: seq<seq<nat>>, q: nat, k: nat)
    requires Threaded(next, head, tail, queues) && q < |queues| && 0 < k < |queues[q]|
    ensures var xs := queues[q];
            && xs[k - 1] < |next| && xs[k] < |next|
            && Threaded(next[xs[k - 1] := next[xs[k]]][xs[k] := NIL], head,
                        tail[q := if tail[q] == xs[k] then xs[k - 1] else tail[q]], queues[q := Remove(xs, xs[k])])
  {
    var xs, h, t := queues[q], head[q], tail[q];
    assert Chain(next, xs, h, t);
    RemoveFacts(xs, xs[k]);
    RemoveIndex(xs, k);
    ChainRemove(next, xs, Remove(xs, xs[k]), h, t, k);
    ApartShrink(queues, q, Remove(xs, xs[k]));
    assert xs[k] in xs && xs[k - 1] in xs;
    ThreadedUpdate(next, head, tail, queues, next[xs[k - 1] := next[xs[k]]][xs[k] := NIL], q, Remove(xs, xs[k]),
                   h, if t == xs[k] then xs[k - 1] else t);
    assert head[q := h] == head;
  }

  datatype WaitResult = Collected(pid: nat, status: int) | NoChild | Blocks

  class Kernel {
    const table: array<Pcb>
    const next: array<int>
    const head: array<int>
    const tail: array<int>
    var cur: nat
    var now: nat
    var nextPid: nat
    var started: bool
    ghost var queues: seq<seq<nat>>

    ghost function Abs(): State
      reads this, table
    {
      State(table[..], queues, cur, now, nextPid, started)
    }

    ghost predicate Valid()
      reads this, table, next, head, tail
    {
      && next != head && next != tail && head != tail && next.Length == PROCESS_MAX
      && WellFormed(Abs())
      && Threaded(next[..], head[..], tail[..], queues)
    }

    method Enqueue(p: nat)
      requires Valid() && p < PROCESS_MAX && Absent(queues, p)
      modifies this`queues, table, next, head, tail
      ensures Valid() && Abs() == SchedulerModel.Enqueue(old(Abs()), p)
    {
      if table[p].pid == 0 { return; }
      var q := Level(table[p]);
      ThreadedAppend(next[..], head[..], tail[..], queues, q, p);
      next[p] := NIL;
      table[p] := table[p].(waitTicks := 0);
      if tail[q] != NIL {
        next[tail[q]] := p;
        tail[q] := p;
      } else {
        head[q], tail[q] := p, p;
      }
      queues := queues[q := queues[q] + [p]];
    }

    /** Links, as values: what a loop that has not changed anything yet keeps. */
    ghost function Links(): (seq<int>, seq<int>, seq<int>, seq<seq<nat>>)
      reads this, next, head, tail
    {
      (next[..], head[..], tail[..], queues)
    }

    /** Walk queue q from its head until p, remembering the element before it. */
    method Find(q: nat, p: nat) returns (found: bool, prev: int, ghost k: nat)
      requires Valid() && q < PRIORITY_LEVELS
      ensures found <==> p in queues[q]
      ensures found ==> k < |queues[q]| && queues[q][k] == p && prev == (if k == 0 then NIL else queues[q][k - 1])
    {
      var it := head[q];
      prev, k := NIL, 0;
      ghost var xs := queues[q];
      assert Chain(next[..], xs, head[q], tail[q]);
      while it != NIL
        invariant 0 <= k <= |xs| && p !in xs[..k]
        invariant it == if k < |xs| then xs[k] else NIL
        invariant prev == if k == 0 then NIL else xs[k - 1]
        decreases |xs| - k
      {
        if it == p { return true, prev, k; }
        assert next[..][xs[k]] == Follower(xs, k);
        prev, it, k := it, next[it], k + 1;
      }
      found := false;
    }

    method Dequeue(p: nat)
      requires Valid()
      modifies this`queues, next, head, tail
      ensures Valid() && Abs() == SchedulerModel.Dequeue(old(Abs()), p)
    {
      for q := 0 to PRIORITY_LEVELS
        invariant Links() == old(Links())
        invariant forall r :: 0 <= r < q ==> p !in queues[r]
      {
        var found, prev, k := Find(q, p);
        if found {
          Unlink(q, prev, p, k);
          return;
        }
      }
    }

    method UnlinkHead(q: nat, it: int)
      requires Valid() && q < PRIORITY_LEVELS && queues[q] != [] && it == queues[q][0]
      modifies this`queues, next, head, tail
      ensures Valid() && queues == old(queues)[q := old(queues)[q][1..]]
    {
      ThreadedPop(next[..], head[..], tail[..], queues, q);
      head[q] := next[it];
      if tail[q] == it { tail[q] := NIL; }
      next[it] := NIL;
      queues := queues[q := queues[q][1..]];
    }

    method UnlinkInner(q: nat, prev: int, it: int, ghost k: nat)
      requires Valid() && q < PRIORITY_LEVELS && 0 < k < |queues[q]| && it == queues[q][k] && prev == queues[q][k - 1]
      modifies this`queues, next, tail
      ensures Valid() && queues == old(queues)[q := Remove(old(queues)[q], old(queues)[q][k])]
    {
      ThreadedRemove(next[..], head[..], tail[..], queues, q, k);
      next[prev] := next[it];
      if tail[q] == it { tail[q] := prev; }
      next[it] := NIL;
      queues := queues[q := Remove(queues[q], queues[q][k])];
    }

    /** Take the element at position k of queue q out of the list. */
    method Unlink(q: nat, prev: int, it: int, ghost k: nat)
      requires Valid() && q < PRIORITY_LEVELS && k < |queues[q]| && it == queues[q][k]
      requires prev == if k == 0 then NIL else queues[q][k - 1]
      modifies this`queues, next, head, tail
      ensures Valid() && queues == old(queues)[q := Remove(old(queues)[q], old(queues)[q][k])]
    {
      RemoveIndex(queues[q], k);
      if prev != NIL { UnlinkInner(q, prev, it, k); } else { UnlinkHead(q, it); }
    }

    method PopHead(q: nat, p: int)
      requires Valid() && q < PRIORITY_LEVELS && queues[q] != [] && p == queues[q][0]
      modifies this`queues, next, head, tail
      ensures Valid() && queues == old(queues)[q := old(queues)[q][1..]]
    {
      ThreadedPop(next[..], head[..], tail[..], queues, q);
      head[q] := next[p];
      if head[q] == NIL { tail[q] := NIL; }
      next[p] := NIL;
      queues := queues[q := queues[q][1..]];
    }

    /** Pop the head of the best non-empty queue. */
    method PickNext() returns (p: int)
      requires Valid()
      modifies this`queues, next, head, tail
      ensures Valid()
      ensures p == NIL <==> BestQueue(old(Abs())) == PRIORITY_LEVELS
      ensures p == NIL ==> Abs() == old(Abs())
      ensures p != NIL ==> p == old(queues)[BestQueue(old(Abs()))][0] && Abs() == Pop(old(Abs()), BestQueue(old(Abs())))
    {
      for q := 0 to PRIORITY_LEVELS
        invariant Links() == old(Links())
        invariant forall r :: 0 <= r < q ==> queues[r] == []
      {
        assert Chain(next[..], queues[q], head[q], tail[q]);
        p := head[q];
        if p != NIL {
          PopHead(q, p);
          return;
        }
      }
      p := NIL;
    }

    // -------------------------------------------------------------------------
    // Table scans
    // -------------------------------------------------------------------------

    /** process_by_pid; PROCESS_MAX stands for the null pointer. */
    method FindByPid(pid: nat) returns (r: nat)
      requires table.Length == PROCESS_MAX
      ensures r == ByPid(table[..], pid)
    {
      r := 0;
      while r < PROCESS_MAX
        invariant r <= PROCESS_MAX && ByPidFrom(table[..], pid, r) == ByPid(table[..], pid)
      {
        if table[r].state != Unused && table[r].pid == pid { return; }
        r := r + 1;
      }
    }

    method FindUnused() returns (r: nat)
      requires table.Length == PROCESS_MAX
      ensures r == FreeSlotFrom(table[..], 0)
    {
      r := 0;
      while r < PROCESS_MAX
        invariant r <= PROCESS_MAX && FreeSlotFrom(table[..], r) == FreeSlotFrom(table[..], 0)
      {
        if table[r].state == Unused { return; }
        r := r + 1;
      }
    }

    /** process_release. */
    method Release(i: nat)
      requires Valid() && i < PROCESS_MAX
      modifies table
      ensures Valid() && Abs() == SchedulerModel.Release(old(Abs()), i)
    {
      if i == cur { return; }
      table[i] := table[i].(hasUserStack := false);
      table[i] := table[i].(state := Unused, pid := 0);
    }

    method ReapOrphans()
      requires Valid()
      modifies table
      ensures Valid() && Abs() == ReapFrom(old(Abs()), 0)
    {
      for i := 0 to PROCESS_MAX
        invariant Valid() && ReapFrom(Abs(), i) == ReapFrom(old(Abs()), 0)
      {
        if table[i].state == Zombie && i != cur {
          var parent := FindByPid(table[i].ppid);
          if parent == PROCESS_MAX || table[parent].state == Unused
             || table[parent].state == Zombie || table[parent].pid == 0 {
            Release(i);
          }
        }
      }
    }

    method MakeRunnable(p: nat)
      requires Valid() && p < PROCESS_MAX && Absent(queues, p)
      modifies this`queues, table, next, head, tail
      ensures Valid() && Abs() == MakeReady(old(Abs()), p)
    {
      table[p] := table[p].(state := Ready);
      Enqueue(p);
    }

    method WakeIfDue(i: nat)
      requires Valid() && SchedInv(Abs()) && i < PROCESS_MAX
      modifies this`queues, table, next, head, tail
      ensures Valid() && Abs() == WakeOne(old(Abs()), i)
    {
      if table[i].state == Sleeping {
        if now >= table[i].sleepUntil {
          NotReadyAbsent(Abs(), i);
          MakeRunnable(i);
        }
      }
    }

    method WakeTurn(i: nat, ghost j: nat, ghost end: State)
      requires Valid() && WakingInv(Abs(), i, end) && j == i + 1 <= PROCESS_MAX
      modifies this`queues, table, next, head, tail
      ensures Valid() && WakingInv(Abs(), j, end)
    {
      WakingStep(Abs(), i, j, end);
      WakeIfDue(i);
    }

    method WakeSleepers()
      requires Valid() && SchedInv(Abs()) && table[cur].state == Running
      modifies this`queues, table, next, head, tail
      ensures Valid() && Abs() == WakeFrom(old(Abs()), 0)
    {
      ghost var end := WakeFrom(Abs(), 0);
      for i := 0 to PROCESS_MAX
        invariant Valid() && WakingInv(Abs(), i, end)
      {
        WakeTurn(i, i + 1, end);
      }
    }

    // -------------------------------------------------------------------------
    // Aging
    // -------------------------------------------------------------------------

    method Promote(it: nat, q: nat)
      requires Valid() && QueueInv(Abs()) && 0 < q < PRIORITY_LEVELS && it in queues[q]
      modifies this`queues, table, next, head, tail
      ensures Valid() && Abs() == SchedulerModel.Promote(old(Abs()), it, q)
    {
      DequeueAbsent(Abs(), it);
      Dequeue(it);
      table[it] := table[it].(priority := q - 1);
      Enqueue(it);
    }

    method Bump(it: nat)
      requires Valid() && QueueInv(Abs()) && it < PROCESS_MAX
      modifies table
      ensures Valid() && QueueInv(Abs()) && Abs() == OneTickOlder(old(Abs()), it)
    {
      QuietUpdate(Abs(), it, Older(table[it]));
      table[it] := Older(table[it]);
    }

    method AgeOne(it: nat, q: nat)
      requires Valid() && QueueInv(Abs()) && 0 < q < PRIORITY_LEVELS && it in queues[q]
      modifies this`queues, table, next, head, tail
      ensures Valid() && Abs() == AgeItem(old(Abs()), it, q)
    {
      Bump(it);
      if table[it].waitTicks > AGING_THRESHOLD { Promote(it, q); }
    }

    /** The link is read before aging may move the process to another queue. */
    method AgeAndAdvance(it: nat, q: nat, ghost k: nat) returns (following: int)
      requires Valid() && QueueInv(Abs()) && 0 < q < PRIORITY_LEVELS && k < |queues[q]| && it == queues[q][k]
      modifies this`queues, table, next, head, tail
      ensures Valid() && Abs() == AgeItem(old(Abs()), it, q)
      ensures following == Follower(old(queues[q]), k)
    {
      assert Chain(next[..], queues[q], head[q], tail[q]);
      assert next[..][queues[q][k]] == Follower(queues[q], k);
      following := next[it];
      AgeOne(it, q);
    }

    method AgeTurn(it: nat, q: nat, ghost s: State, ghost kept: seq<nat>, ghost rest: seq<nat>) returns (following: int)
      requires Valid() && s == Abs() && AgingInv(s, kept, rest, q) && rest != [] && it == rest[0]
      modifies this`queues, table, next, head, tail
      ensures Valid() && Abs() == AgeItem(s, rest[0], q) && following == if |rest| > 1 then rest[1] else NIL
    {
      assert queues[q][|kept|] == it && Follower(queues[q], |kept|) == if |rest| > 1 then rest[1] else NIL;
      following := AgeAndAdvance(it, q, |kept|);
    }

    method AgeLevel(q: nat)
      requires Valid() && SchedInv(Abs()) && table[cur].state == Running && 0 < q < PRIORITY_LEVELS
      modifies this`queues, table, next, head, tail
      ensures Valid() && Abs() == AgeItems(old(Abs()), old(queues[q]), q)
    {
      var it := head[q];
      ghost var s, kept, rest := Abs(), [], queues[q];
      assert Chain(next[..], queues[q], head[q], tail[q]);
      while it != NIL
        invariant Valid() && s == Abs()
        invariant AgingInv(s, kept, rest, q)
        invariant it == if rest == [] then NIL else rest[0]
        invariant AgeItems(s, rest, q) == AgeItems(old(Abs()), old(queues[q]), q)
        decreases |rest|
      {
        AgingStep(s, kept, rest, q);
        it := AgeTurn(it, q, s, kept, rest);
        kept := if s.procs[rest[0]].waitTicks + 1 > AGING_THRESHOLD then kept else kept + [rest[0]];
        s, rest := AgeItem(s, rest[0], q), rest[1..];
      }
    }

    method ApplyAging()
      requires Valid() && SchedInv(Abs()) && table[cur].state == Running
      modifies this`queues, table, next, head, tail
      ensures Valid() && Abs() == SchedulerModel.ApplyAging(old(Abs()))
    {
      AgeItemsInv(Abs(), queues[1], 1);
      AgeLevel(1);
      AgeLevel(2);
    }

    // -------------------------------------------------------------------------
    // schedule() and the tick
    // -------------------------------------------------------------------------

    method RequeueCurrent()
      requires Valid() && Absent(queues, cur)
      modifies this`queues, table, next, head, tail
      ensures Valid() && Abs() == Requeue(old(Abs()))
    {
      table[cur] := table[cur].(state := Ready, priority := table[cur].basePriority);
      Enqueue(cur);
    }

    /** The second half of schedule(): requeue the outgoing process, make `to` the current one. */
    method Switch(to: nat)
      requires Valid() && to < PROCESS_MAX && (table[cur].state == Running ==> Absent(queues, cur))
      modifies this`queues, this`cur, table, next, head, tail
      ensures Valid() && Abs() == SwitchTo(old(Abs()), to)
    {
      if table[cur].state == Running { RequeueCurrent(); }
      table[to] := table[to].(state := Running, priority := table[to].basePriority, quantumLeft := SCHED_QUANTUM_TICKS);
      cur := to;
    }

    method PickAndSwitch()
      requires Valid() && SchedInv(Abs())
      modifies this`queues, this`cur, table, next, head, tail
      ensures Valid() && Abs() == Dispatch(old(Abs()))
    {
      if table[cur].state == Running { NotReadyAbsent(Abs(), cur); }
      var p := PickNext();
      if p == NIL {
        if table[cur].state == Running {
          table[cur] := table[cur].(quantumLeft := SCHED_QUANTUM_TICKS);
          return;
        }
        var idle := FindByPid(0);
        if idle == PROCESS_MAX || idle == cur { return; }
        p := idle;
      }
      Switch(p);
    }

    method Schedule()
      requires Valid() && SchedInv(Abs())
      modifies this`queues, this`cur, table, next, head, tail
      ensures Valid() && Abs() == SchedulerModel.Schedule(old(Abs()))
    {
      if !started { return; }
      ReapInv(Abs(), 0);
      ReapOrphans();
      PickAndSwitch();
    }

    /** Is a queue above the current priority, or for idle any queue, non-empty? */
    method IsHigherReady() returns (higher: bool)
      requires Valid() && Inv(Abs())
      ensures higher == HigherReady(Abs())
    {
      higher := false;
      assert PcbInv(Abs().procs[cur], cur);
      for q := 0 to table[cur].priority
        invariant higher <==> exists r :: 0 <= r < q && queues[r] != []
      {
        assert Chain(next[..], queues[q], head[q], tail[q]);
        if head[q] != NIL { higher := true; }
      }
      if table[cur].pid == 0 {
        for q := 0 to PRIORITY_LEVELS
          invariant higher <==>
                    exists r :: 0 <= r < PRIORITY_LEVELS && (r < q || r < table[cur].priority) && queues[r] != []
        {
          assert Chain(next[..], queues[q], head[q], tail[q]);
          if head[q] != NIL { higher := true; }
        }
      }
    }

    method BurnQuantum()
      requires Valid()
      modifies table
      ensures Valid() && Abs() == Burn(old(Abs()))
    {
      if table[cur].quantumLeft > 0 {
        table[cur] := table[cur].(quantumLeft := table[cur].quantumLeft - 1);
      }
    }

    method MaybePreempt()
      requires Valid() && Inv(Abs())
      modifies this`queues, this`cur, table, next, head, tail
      ensures Valid() && Abs() == Preempt(old(Abs()))
    {
      var higher := IsHigherReady();
      BurnInv(Abs());
      BurnQuantum();
      if higher || table[cur].quantumLeft == 0 { Schedule(); }
    }

    method Bookkeeping()
      requires Valid() && Inv(Abs())
      modifies this`queues, table, next, head, tail
      ensures Valid() && Abs() == TickBookkeeping(old(Abs()))
    {
      WakeInv(Abs(), 0);
      WakeSleepers();
      ApplyAging();
    }

    /** timer_handler followed by scheduler_tick. */
    method Tick()
      requires Valid() && Inv(Abs())
      modifies this, table, next, head, tail
      ensures Valid() && Inv(Abs()) && Abs() == SchedulerModel.Tick(old(Abs()))
    {
      TickInv(Abs());
      ClockInv(Abs());
      now := now + 1;
      assert Abs() == Advance(old(Abs()));
      if started {
        BookkeepingInv(Abs());
        Bookkeeping();
        MaybePreempt();
      }
    }

    /** scheduler_start. */
    method Start()
      requires Valid() && Inv(Abs())
      modifies `started
      ensures Valid() && Inv(Abs()) && Abs() == SchedulerModel.Next(old(Abs()), StartA)
    {
      StepInv(Abs(), StartA);
      started := true;
    }

    method Yield()
      requires Valid() && Inv(Abs())
      modifies this`queues, this`cur, table, next, head, tail
      ensures Valid() && Inv(Abs()) && Abs() == SchedulerModel.Yield(old(Abs()))
    {
      YieldInv(Abs());
      if started {
        QuantumInv(Abs(), 0);
        table[cur] := table[cur].(quantumLeft := 0);
        assert Abs() == SetQuantum(old(Abs()), 0);
        Schedule();
      }
    }

    // -------------------------------------------------------------------------
    // Process life cycle
    // -------------------------------------------------------------------------

    /** process_init: every slot unused, then slot 0 adopted as the running idle process. */
    constructor ()
      ensures Valid() && Inv(Abs()) && Abs() == Init()
      ensures fresh(table) && fresh(next) && fresh(head) && fresh(tail)
    {
      var idle := Pcb(0, 0, Running, PRIORITY_LOW, PRIORITY_LOW, SCHED_QUANTUM_TICKS, 0, 0, 0, false, false, false);
      var free := Pcb(0, 0, Unused, 0, 0, 0, 0, 0, 0, false, false, false);
      table := new Pcb[PROCESS_MAX](i => if i == 0 then idle else free);
      next := new int[PROCESS_MAX](_ => NIL);
      head := new int[PRIORITY_LEVELS](_ => NIL);
      tail := new int[PRIORITY_LEVELS](_ => NIL);
      cur, now, nextPid, started := 0, 0, 1, false;
      queues := [[], [], []];
      new;
      assert table[..] == Init().procs;
      InitInv();
    }

    /** process_create: the slot of the new process, or PROCESS_MAX. */
    method Create(priority: nat, valid: bool, user: bool) returns (slot: nat)
      requires Valid() && Inv(Abs())
      modifies this`queues, this`nextPid, table, next, head, tail
      ensures Valid() && Abs() == SchedulerModel.Create(old(Abs()), priority, valid, user)
      ensures Inv(Abs()) <==> old(nextPid) != 0 || !Creates(old(Abs()), priority, valid)
      ensures slot < PROCESS_MAX <==> Creates(old(Abs()), priority, valid)
      ensures slot < PROCESS_MAX ==> table[slot].pid == old(nextPid) && table[slot].ppid == old(table[cur].pid)
    {
      CreateInvIff(Abs(), priority, valid, user);
      if !valid || priority >= PRIORITY_LEVELS { return PROCESS_MAX; }
      slot := FindUnused();
      if slot == PROCESS_MAX { return; }
      NotReadyAbsent(Abs(), slot);
      var p := Pcb(nextPid, table[cur].pid, Ready, priority, priority, SCHED_QUANTUM_TICKS, 0, 0, 0, false, user, user);
      nextPid := Successor(nextPid);
      Place(slot, p);
    }

    /** Fill an unqueued slot and enqueue it. */
    method Place(slot: nat, p: Pcb)
      requires Valid() && slot < PROCESS_MAX && Absent(queues, slot)
      modifies this`queues, table, next, head, tail
      ensures Valid() && Abs() == SchedulerModel.Enqueue(old(Abs()).(procs := old(table[..])[slot := p]), slot)
    {
      table[slot] := p;
      Enqueue(slot);
    }

    method IsPidTaken(child: nat, pid: nat) returns (taken: bool)
      requires table.Length == PROCESS_MAX
      ensures taken == PidTaken(table[..], child, pid)
    {
      for i := 0 to PROCESS_MAX
        invariant forall j :: 0 <= j < i ==> !(j != child && Live(table[j]) && table[j].pid == pid)
      {
        if i != child && table[i].state != Unused && table[i].pid == pid {
          assert table[..][i].pid == pid;
          return true;
        }
      }
      taken := false;
    }

    /** The pid scan of sys_fork; it ends because every taken pid uses up one slot. */
    method FreshPid(child: nat) returns (pid: nat)
      requires table.Length == PROCESS_MAX
      ensures pid == FreshPidFrom(table[..], child, 1)
    {
      pid := 1;
      while true
        invariant FreshPidFrom(table[..], child, pid) == FreshPidFrom(table[..], child, 1)
        decreases Contenders(table[..], child, pid)
      {
        var taken := IsPidTaken(child, pid);
        if !taken { break; }
        ContendersShrink(table[..], child, pid);
        pid := pid + 1;
      }
    }

    /** The process-table half of sys_fork: the child's pid, or -1. */
    method Fork(stacks: bool) returns (pid: int)
      requires Valid() && Inv(Abs()) && cur != 0
      modifies this`queues, table, next, head, tail
      ensures Valid() && Inv(Abs()) && Abs() == SchedulerModel.Fork(old(Abs()), stacks)
      ensures
        var room := FreeSlotFrom(old(table[..]), 0) < PROCESS_MAX;
        pid == -1 <==> !(old(table[cur].isUser && table[cur].hasUserStack) && stacks && room)
      ensures pid != -1 ==> pid == FreshPidFrom(old(table[..]), FreeSlotFrom(old(table[..]), 0), 1)
    {
      ForkInv(Abs(), stacks);
      if !table[cur].isUser || !table[cur].hasUserStack || !stacks { return -1; }
      var child := FindUnused();
      if child == PROCESS_MAX { return -1; }
      var newPid := FreshPid(child);
      NotReadyAbsent(Abs(), child);
      Place(child, table[cur].(pid := newPid, ppid := table[cur].pid, state := Ready, parentWaiting := false,
          waitTicks := 0));
      pid := newPid;
    }

    method TellParent(p: nat)
      requires Valid() && SchedInv(Abs()) && p < PROCESS_MAX
      modifies this`queues, table, next, head, tail
      ensures Valid() && Abs() == WakeParent(old(Abs()), p)
    {
      var parent := FindByPid(table[p].ppid);
      if parent != PROCESS_MAX && table[parent].parentWaiting && table[parent].state == Blocked {
        NotReadyAbsent(Abs(), parent);
        MakeRunnable(parent);
      }
    }

    method BuryCurrent(code: int)
      requires Valid() && Inv(Abs()) && cur != 0
      modifies this`queues, table, next, head, tail
      ensures Valid() && SchedInv(Abs()) && Abs() == WakeParent(MakeZombie(old(Abs()), old(cur), code), old(cur))
    {
      StopCurrentInv(Abs(), table[cur].(state := Zombie, exitCode := code, hasUserStack := false));
      table[cur] := table[cur].(exitCode := code, state := Zombie, hasUserStack := false);
      assert Abs() == MakeZombie(old(Abs()), cur, code);
      WakeParentInv(Abs(), cur);
      TellParent(cur);
    }

    method Exit(code: int)
      requires Valid() && Inv(Abs()) && cur != 0
      modifies this`queues, this`cur, table, next, head, tail
      ensures Valid() && Inv(Abs()) && Abs() == SchedulerModel.Exit(old(Abs()), code)
    {
      ExitInv(Abs(), code);
      BuryCurrent(code);
      Schedule();
    }

    method KillOther(p: nat)
      requires Valid() && Inv(Abs()) && 0 < p < PROCESS_MAX && p != cur && Live(table[p])
      modifies this`queues, table, next, head, tail
      ensures Valid() && Abs() == WakeParent(MakeZombie(SchedulerModel.Dequeue(old(Abs()), p), p, -1), p)
    {
      KilledInv(Abs(), p);
      Dequeue(p);
      table[p] := table[p].(exitCode := -1, state := Zombie, hasUserStack := false);
      assert Abs() == MakeZombie(SchedulerModel.Dequeue(old(Abs()), p), p, -1);
      TellParent(p);
    }

    /** process_kill: 0 on success, -1 if there is nothing to kill. */
    method Kill(pid: nat) returns (rc: int)
      requires Valid() && Inv(Abs()) && cur != 0
      modifies this`queues, this`cur, table, next, head, tail
      ensures Valid() && Inv(Abs()) && Abs() == SchedulerModel.Kill(old(Abs()), pid)
      ensures
        var p := ByPid(old(table[..]), pid);
        rc == if pid != 0 && p < PROCESS_MAX && old(table[..])[p].state != Zombie then 0 else -1
    {
      KillInv(Abs(), pid);
      if pid == 0 { return -1; }
      var p := FindByPid(pid);
      if p == PROCESS_MAX || table[p].state == Unused || table[p].state == Zombie { return -1; }
      if p == cur {
        Exit(-1);
      } else {
        assert PcbInv(Abs().procs[p], p);
        KillOther(p);
      }
      rc := 0;
    }

    /** The scan of process_wait: the first zombie child (or PROCESS_MAX), and whether there is any child. */
    method ScanChildren() returns (zombie: nat, haveChildren: bool)
      requires table.Length == PROCESS_MAX && cur < PROCESS_MAX
      ensures zombie == ZombieChildFrom(table[..], cur, 0)
      ensures zombie == PROCESS_MAX ==> haveChildren == HasChild(table[..], cur)
    {
      zombie, haveChildren := 0, false;
      ghost var procs := table[..];
      while zombie < PROCESS_MAX
        invariant zombie <= PROCESS_MAX && ZombieChildFrom(procs, cur, zombie) == ZombieChildFrom(procs, cur, 0)
        invariant haveChildren <==> exists i :: 0 <= i < zombie && IsChild(procs, cur, i)
      {
        if table[zombie].state != Unused && table[zombie].ppid == table[cur].pid && zombie != cur {
          assert IsChild(procs, cur, zombie);
          haveChildren := true;
          if table[zombie].state == Zombie { return; }
        }
        zombie := zombie + 1;
      }
    }

    method StopAndSchedule(pcb: Pcb)
      requires Valid() && Inv(Abs()) && cur != 0
      requires pcb.state == Blocked || pcb.state == Sleeping
      requires pcb.pid == table[cur].pid && pcb.priority == table[cur].priority
      requires pcb.basePriority == table[cur].basePriority
      modifies this`queues, this`cur, table, next, head, tail
      ensures Valid() && Abs() == SchedulerModel.Schedule(StopCurrent(old(Abs()), pcb))
    {
      StopCurrentInv(Abs(), pcb);
      table[cur] := pcb;
      assert Abs() == StopCurrent(old(Abs()), pcb);
      Schedule();
    }

    /** One pass of process_wait. */
    method Wait() returns (r: WaitResult)
      requires Valid() && Inv(Abs()) && cur != 0
      modifies this`queues, this`cur, table, next, head, tail
      ensures Valid() && Inv(Abs()) && Abs() == SchedulerModel.Wait(old(Abs()))
      ensures var z := ZombieChildFrom(old(table[..]), old(cur), 0);
              match r
              case Collected(pid, status) => z < PROCESS_MAX && pid == old(table[..])[z].pid
                  && status == old(table[..])[z].exitCode
              case NoChild => z == PROCESS_MAX && !HasChild(old(table[..]), old(cur))
              case Blocks => z == PROCESS_MAX && HasChild(old(table[..]), old(cur))
    {
      WaitInv(Abs());
      var z, haveChildren := ScanChildren();
      if z < PROCESS_MAX {
        r := Collected(table[z].pid, table[z].exitCode);
        Release(z);
      } else if !haveChildren {
        r := NoChild;
      } else {
        r := Blocks;
        StopAndSchedule(table[cur].(parentWaiting := true, state := Blocked));
      }
    }

    /** process_wait clears its flag when it runs again. */
    method Resume()
      requires Valid() && Inv(Abs())
      modifies table
      ensures Valid() && Inv(Abs()) && Abs() == SchedulerModel.Resume(old(Abs()))
    {
      QuietUpdate(Abs(), cur, table[cur].(parentWaiting := false));
      assert PcbInv(Abs().procs[cur], cur);
      table[cur] := table[cur].(parentWaiting := false);
    }

    method Sleep(ms: nat)
      requires Valid() && Inv(Abs()) && cur != 0 && ms < UINT32_SIZE
      modifies this`queues, this`cur, table, next, head, tail
      ensures Valid() && Inv(Abs()) && Abs() == SchedulerModel.Sleep(old(Abs()), ms)
    {
      SleepInv(Abs(), ms);
      if ms == 0 {
        Yield();
      } else {
        var ticks := SleepTicks(ms);
        var pcb := table[cur].(sleepUntil := now + ticks, state := Sleeping);
        assert pcb == Asleep(Abs(), ms);
        StopAndSchedule(pcb);
      }
    }
  }

  lemma KilledInv(s: State, p: nat)
    requires Inv(s) && 0 < p < PROCESS_MAX && p != s.cur && Live(s.procs[p])
    ensures SchedInv(MakeZombie(SchedulerModel.Dequeue(s, p), p, -1))
  {
    DequeueStopped(s, p, s.procs[p].(state := Zombie, exitCode := -1, hasUserStack := false));
    assert PcbInv(s.procs[p], p);
  }

  lemma DequeueAbsent(s: State, p: nat)
    requires QueueInv(s)
    ensures WellFormed(SchedulerModel.Dequeue(s, p)) && Absent(SchedulerModel.Dequeue(s, p).queues, p)
  {
    var q := QueueHolding(s, p);
    if q < PRIORITY_LEVELS {
      RemoveFacts(s.queues[q], p);
      forall r | 0 <= r < PRIORITY_LEVELS && r != q ensures p !in s.queues[r] {
        assert p in s.queues[q] <==> Queued(s.procs[p], p, q);
        assert p in s.queues[r] <==> Queued(s.procs[p], p, r);
      }
    }
  }

  /** Between two turns of the loop of wake_sleepers, with i slots visited. */
  ghost predicate WakingInv(s: State, i: nat, end: State) {
    SchedInv(s) && s.procs[s.cur].state == Running && i <= PROCESS_MAX && WakeFrom(s, i) == end
  }

  lemma WakingStep(s: State, i: nat, j: nat, end: State)
    requires WakingInv(s, i, end) && j == i + 1 <= PROCESS_MAX
    ensures WakingInv(WakeOne(s, i), j, end)
  {
    WakeOneInv(s, i);
  }

  /** Between two turns of the aging loop: the queue is what was kept followed by what remains. */
  ghost predicate AgingInv(s: State, kept: seq<nat>, rest: seq<nat>, q: nat) {
    && SchedInv(s) && s.procs[s.cur].state == Running
    && 0 < q < PRIORITY_LEVELS && s.queues[q] == kept + rest
    && forall k :: 0 <= k < |rest| ==> rest[k] < PROCESS_MAX
  }

  /** Aging the first of the remaining elements leaves the rest of the queue in place. */
  lemma AgedQueue(s: State, kept: seq<nat>, rest: seq<nat>, q: nat)
    requires SchedInv(s) && 0 < q < PRIORITY_LEVELS && s.queues[q] == kept + rest && rest != [] && rest[0] < PROCESS_MAX
    ensures
      AgeItem(s, rest[0], q).queues[q] ==
      (if s.procs[rest[0]].waitTicks + 1 > AGING_THRESHOLD then kept else kept + [rest[0]]) + rest[1..]
  {
    var p := rest[0];
    assert s.queues[q][|kept|] == p && p in s.queues[q];
    if s.procs[p].waitTicks + 1 > AGING_THRESHOLD {
      BumpPromoteInv(s, p, q);
      assert IndexOf(s.queues[q], p) == |kept|;
    }
  }

  lemma AgingStep(s: State, kept: seq<nat>, rest: seq<nat>, q: nat)
    requires AgingInv(s, kept, rest, q) && rest != []
    ensures AgingInv(AgeItem(s, rest[0], q),
                     if s.procs[rest[0]].waitTicks + 1 > AGING_THRESHOLD then kept else kept + [rest[0]],
                     rest[1..], q)
  {
    assert s.queues[q][|kept|] == rest[0] && rest[0] in s.queues[q];
    AgeItemInv(s, rest[0], q);
    AgedQueue(s, kept, rest, q);
  }

  lemma NotReadyAbsent(s: State, p: nat)
    requires QueueInv(s) && p < PROCESS_MAX && (p == 0 || s.procs[p].state != Ready)
    ensures Absent(s.queues, p)
  {
    forall q | 0 <= q < |s.queues| ensures p !in s.queues[q] {
      assert p in s.queues[q] <==> Queued(s.procs[p], p, q);
    }
  }
}
