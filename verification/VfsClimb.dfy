/**
 The climb from the current directory to the root that pwd and build_absolute_path share.
 It follows parent links until one is null or leads back to its own node. The current
 directory may be a removed one, so nothing here asks for a sound tree.
 */
module VfsClimb {
  import Arithmetic
  import opened PathStrings
  import opened VfsTree

  /** The loop goes on at this node. */
  ghost predicate GoesOn(s: State, n: int)
    requires Sized(s) && NULL <= n < MAX_NODES
  {
    n != NULL && s.nodes[n].parent != n
  }

  /** Where the loop is after the given number of turns. */
  ghost function Climb(s: State, n: int, turns: nat): (r: int)
    requires Sized(s) && NULL <= n < MAX_NODES
    ensures NULL <= r < MAX_NODES
    decreases turns
  {
    if turns == 0 || !GoesOn(s, n) then n else Climb(s, s.nodes[n].parent, turns - 1)
  }

  /** The loop has stopped after as many turns as there are slots. */
  ghost predicate Returns(s: State, n: int)
    requires Sized(s) && NULL <= n < MAX_NODES
  {
    !GoesOn(s, Climb(s, n, |s.nodes|))
  }

  // ---------------------------------------------------------------------------
  // When the climb ends
  // ---------------------------------------------------------------------------

  lemma {:induction false} ClimbAdds(s: State, n: int, a: nat, b: nat)
    requires Sized(s) && NULL <= n < MAX_NODES
    ensures Climb(s, n, a + b) == Climb(s, Climb(s, n, a), b)
    decreases a
  {
    if a > 0 && GoesOn(s, n) { ClimbAdds(s, s.nodes[n].parent, a - 1, b); }
  }

  /** A climb that has stopped stays where it is. */
  lemma StopsForGood(s: State, n: int, t: nat, u: nat)
    requires Sized(s) && NULL <= n < MAX_NODES && t <= u && !GoesOn(s, Climb(s, n, t))
    ensures Climb(s, n, u) == Climb(s, n, t)
  {
    ClimbAdds(s, n, t, u - t);
  }

  /** A climb that is still going on after as many turns as there are slots has been somewhere twice. */
  lemma ComesBack(s: State, n: int) returns (i: nat, j: nat)
    requires Sized(s) && NULL <= n < MAX_NODES && !Returns(s, n)
    ensures i < j <= |s.nodes| && Climb(s, n, i) == Climb(s, n, j)
  {
    var visits := seq(|s.nodes| + 1, t requires 0 <= t => Climb(s, n, t));
    forall t | 0 <= t < |visits| ensures 0 <= visits[t] < MAX_NODES {
      if !GoesOn(s, Climb(s, n, t)) { StopsForGood(s, n, t, |s.nodes|); }
    }
    i, j := Arithmetic.Repeats(visits, 0, MAX_NODES);
  }

  /** A climb that comes back to where it was goes on for ever. */
  lemma {:induction false} GoesRound(s: State, n: int, i: nat, j: nat, t: nat)
    requires Sized(s) && NULL <= n < MAX_NODES && i < j && Climb(s, n, i) == Climb(s, n, j) && GoesOn(s, Climb(s, n, j))
    ensures GoesOn(s, Climb(s, n, t))
    decreases t
  {
    if t <= j {
      if !GoesOn(s, Climb(s, n, t)) { StopsForGood(s, n, t, j); }
    } else {
      GoesRound(s, n, i, j, i + (t - j));
      ClimbAdds(s, n, i, t - j);
      ClimbAdds(s, n, j, t - j);
    }
  }

  /**
   pwd returns if and only if the parent links lead to a null link or to a node that is its own
   parent within as many links as the pool has slots.
   */
  lemma PwdReturnsIff(s: State, n: int)
    requires Sized(s) && NULL <= n < MAX_NODES
    ensures (exists t: nat :: !GoesOn(s, Climb(s, n, t))) <==> Returns(s, n)
  {
    if !Returns(s, n) {
      var i, j := ComesBack(s, n);
      if !GoesOn(s, Climb(s, n, j)) { StopsForGood(s, n, j, |s.nodes|); }
      forall t: nat ensures GoesOn(s, Climb(s, n, t)) { GoesRound(s, n, i, j, t); }
    } else {
      assert !GoesOn(s, Climb(s, n, |s.nodes|));
    }
  }

  /** From a node of the tree the climb ends at the root, after as many turns as the node is deep. */
  lemma {:induction false} EndsAtRoot(s: State, path: seq<nat>)
    requires TreeInv(s) && Walk(s, path).Some?
    ensures Climb(s, Walk(s, path).value, |path|) == ROOT && !GoesOn(s, ROOT)
    decreases |path|
  {
    if path != [] {
      LastStep(s, path);
      EndsAtRoot(s, path[..|path| - 1]);
    }
  }

  /** In every node of the tree pwd returns. */
  lemma PwdStops(s: State, path: seq<nat>)
    requires TreeInv(s) && Walk(s, path).Some?
    ensures Returns(s, Walk(s, path).value) && Climb(s, Walk(s, path).value, |s.nodes|) == ROOT
  {
    var n := Walk(s, path).value;
    EndsAtRoot(s, path);
    PwdReturnsIff(s, n);
    if |path| <= |s.nodes| { StopsForGood(s, n, |path|, |s.nodes|); } else { StopsForGood(s, n, |s.nodes|, |path|); }
  }

  // ---------------------------------------------------------------------------
  // What the climb puts together
  // ---------------------------------------------------------------------------

  /** "/" and a name for each node passed, the last one passed in front. */
  ghost function UpPath(s: State, n: int, turns: nat): (r: string)
    requires Sized(s) && NULL <= n < MAX_NODES
    decreases turns
  {
    if turns == 0 || !GoesOn(s, n) then "" else UpPath(s, s.nodes[n].parent, turns - 1) + "/" + s.nodes[n].name
  }

  /** The path of directory n, "" for the root; for a directory that was removed, whatever its parent links give. */
  ghost function PathOf(s: State, n: int): (r: string)
    requires Sized(s) && NULL <= n < MAX_NODES
  {
    UpPath(s, n, |s.nodes|)
  }

  /** After the climb has stopped, no more is put in front. */
  lemma {:induction false} NothingMore(s: State, n: int, t: nat, u: nat)
    requires Sized(s) && NULL <= n < MAX_NODES && t <= u && !GoesOn(s, Climb(s, n, t))
    ensures UpPath(s, n, u) == UpPath(s, n, t)
    decreases t
  {
    if t > 0 && GoesOn(s, n) { NothingMore(s, s.nodes[n].parent, t - 1, u - 1); }
  }

  /** Each turn puts at least a slash in front. */
  lemma {:induction false} PathGrows(s: State, n: int, turns: nat)
    requires Sized(s) && NULL <= n < MAX_NODES && GoesOn(s, Climb(s, n, turns))
    ensures |UpPath(s, n, turns)| >= turns
    decreases turns
  {
    if turns > 0 { PathGrows(s, s.nodes[n].parent, turns - 1); }
  }

  /** A climb that does not return puts together a path longer than any buffer, one character a turn at least. */
  lemma EndlessMeansOverrun(s: State, n: int)
    requires Sized(s) && NULL <= n < MAX_NODES && !Returns(s, n)
    ensures forall turns: nat :: |UpPath(s, n, turns)| >= turns
  {
    PwdReturnsIff(s, n);
    forall turns: nat ensures |UpPath(s, n, turns)| >= turns { PathGrows(s, n, turns); }
  }

  lemma {:induction false} NoNulInPath(s: State, n: int, turns: nat)
    requires Sized(s) && NULL <= n < MAX_NODES && forall p :: 0 <= p < MAX_NODES ==> NUL !in s.nodes[p].name
    ensures NUL !in UpPath(s, n, turns)
    decreases turns
  {
    if turns > 0 && GoesOn(s, n) { NoNulInPath(s, s.nodes[n].parent, turns - 1); }
  }

  /** The loop has come to `node` after k turns, with the path below it put together. */
  ghost predicate Climbing(s: State, start: int, k: nat, node: int, soFar: string) {
    && Sized(s) && NULL <= start < MAX_NODES && Returns(s, start)
    && k <= |s.nodes| && node == Climb(s, start, k)
    && PathOf(s, start) == UpPath(s, node, |s.nodes| - k) + soFar
  }

  lemma ClimbNext(s: State, start: int, k: nat, node: int, soFar: string)
    requires Climbing(s, start, k, node, soFar) && GoesOn(s, node)
    ensures k < |s.nodes| && Climbing(s, start, k + 1, s.nodes[node].parent, "/" + s.nodes[node].name + soFar)
    ensures |"/" + s.nodes[node].name + soFar| <= |PathOf(s, start)|
  {
    ClimbAdds(s, start, k, 1);
    OneTurn(s, node, 1);
    Prepended(UpPath(s, s.nodes[node].parent, |s.nodes| - k - 1), s.nodes[node].name, soFar);
  }

  lemma OneTurn(s: State, n: int, one: nat)
    requires Sized(s) && 0 <= n < MAX_NODES && GoesOn(s, n) && one == 1
    ensures Climb(s, n, one) == s.nodes[n].parent
  {
  }

  lemma Prepended(above: string, name: string, below: string)
    ensures above + "/" + name + below == above + ("/" + name + below)
  {
  }

  lemma ClimbEnd(s: State, start: int, k: nat, node: int, soFar: string)
    requires Climbing(s, start, k, node, soFar) && !GoesOn(s, node)
    ensures soFar == PathOf(s, start)
  {
    assert "" + soFar == soFar;
  }
}
