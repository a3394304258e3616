/**
 What the commands do to the names in the tree: a path that was just created resolves to the
 new node, a path that was just removed resolves to nothing, removing undoes creating; and
 one thing that goes wrong: pwd below a removed directory can walk in circles.
 */
module VfsCommands {
  import opened Wrappers
  import opened PathStrings
  import opened VfsTree
  import opened VfsClimb
  import opened VfsPaths

  /** The command gets past its checks: a new name, a free slot and room in the directory. */
  ghost predicate CanCreate(s: State, p: nat, leaf: string)
    requires Sized(s) && p < MAX_NODES
  {
    && leaf != "" && Find(s, p, leaf).None? && FirstFree(s.used, 0) < MAX_NODES
    && s.nodes[p].isDir && |s.nodes[p].children| < MAX_CHILDREN
  }

  /** The whole effect of a successful mkdir or touch in an allocated directory. */
  lemma Created(s: State, p: nat, leaf: string, isDir: bool)
    requires TreeInv(s) && p < MAX_NODES && s.used[p] && CanCreate(s, p, leaf)
    ensures
      var r, k := Create(s, p, leaf, isDir), FirstFree(s.used, 0);
      && k != p && !s.used[k] && r.used == s.used[k := true] && r.cwd == s.cwd
      && r.nodes == s.nodes[k := Node(leaf, isDir, p, [])][p := s.nodes[p].(children := s.nodes[p].children + [k])]
  {
  }

  /** Directory p lists a child of that name at position i. */
  ghost predicate Lists(s: State, p: nat, name: string, i: int)
    requires Sized(s) && p < MAX_NODES
  {
    s.nodes[p].isDir && 0 <= i < |s.nodes[p].children| && s.nodes[s.nodes[p].children[i]].name == name
  }

  ghost predicate LowestUnused(used: seq<bool>, k: nat) {
    k < |used| && !used[k] && forall j :: 0 <= j < k ==> used[j]
  }

  /** r is s with slot k taken by a node, and node p changed; k and p may be one slot. */
  ghost predicate Changed(s: State, r: State, k: nat, p: nat, node: Node, parent: Node)
    requires Sized(s) && k < MAX_NODES && p < MAX_NODES
  {
    r.nodes == s.nodes[k := node][p := parent] && r.used == s.used[k := true] && r.cwd == s.cwd
  }

  /**
   The new node has taken slot k. If the parent is no directory, or full, no list holds it; if
   the parent is a removed directory and k its slot, the new node is in its place, and a
   directory is its own child.
   */
  ghost predicate Takes(s: State, r: State, k: nat, p: nat, leaf: string, isDir: bool)
    requires Sized(s) && k < MAX_NODES && p < MAX_NODES
  {
    var parent, loose := s.nodes[p], Node(leaf, isDir, NULL, []);
    if p == k && isDir then Changed(s, r, k, k, loose, Node(leaf, true, k, [k]))
    else if p == k || !parent.isDir || |parent.children| >= 32 then Changed(s, r, k, k, loose, loose)
    else Changed(s, r, k, p, Node(leaf, isDir, p, []), parent.(children := parent.children + [k]))
  }

  lemma ListsIff(s: State, p: nat, name: string)
    requires Sized(s) && p < MAX_NODES
    ensures (exists i :: Lists(s, p, name, i)) <==> Find(s, p, name).Some?
    ensures Find(s, p, name).Some? ==> Lists(s, p, name, FindFrom(s, p, name, 0))
  {
    if i :| Lists(s, p, name, i) { assert FindFrom(s, p, name, 0) <= i; }
    if Find(s, p, name).Some? { assert Lists(s, p, name, FindFrom(s, p, name, 0)); }
  }

  /** mkdir and touch, with every way they fail: nothing changes without a name, for a taken one, or without a slot. */
  lemma CreateLaw(s: State, p: nat, leaf: string, isDir: bool)
    requires TreeInv(s) && p < MAX_NODES
    ensures
      var r := Create(s, p, leaf, isDir);
      if leaf == "" || (exists i :: Lists(s, p, leaf, i)) || (forall j :: 0 <= j < MAX_NODES ==> s.used[j]) then r == s
      else exists k: nat :: LowestUnused(s.used, k) && Takes(s, r, k, p, leaf, isDir)
  {
    var k := FirstFree(s.used, 0);
    ListsIff(s, p, leaf);
    if leaf != "" && Find(s, p, leaf).None? && k < MAX_NODES {
      CreateTakes(s, p, leaf, isDir);
      assert LowestUnused(s.used, k) && Takes(s, Create(s, p, leaf, isDir), k, p, leaf, isDir);
    }
  }

  lemma CreateTakes(s: State, p: nat, leaf: string, isDir: bool)
    requires TreeInv(s) && p < MAX_NODES && leaf != "" && Find(s, p, leaf).None? && FirstFree(s.used, 0) < MAX_NODES
    ensures Takes(s, Create(s, p, leaf, isDir), FirstFree(s.used, 0), p, leaf, isDir)
  {
    var r, k := Create(s, p, leaf, isDir), FirstFree(s.used, 0);
    assert GoodSlot(s, p);
    assert p == k && isDir ==> [] + [k] == [k];
  }

  /** The child at position i of p is out of the list, and its slot is free. */
  ghost predicate TakenOut(s: State, r: State, p: nat, i: nat)
    requires Sized(s) && p < MAX_NODES && i < |s.nodes[p].children|
  {
    var kids := s.nodes[p].children;
    && r.cwd == s.cwd && r.used == s.used[kids[i] := false]
    && r.nodes == s.nodes[p := s.nodes[p].(children := kids[..i] + kids[i + 1..])]
  }

  /** rm: the one child of that name is taken out; nothing changes if there is none, or for "." and "..". */
  lemma RemoveLaw(s: State, p: nat, leaf: string)
    requires TreeInv(s) && p < MAX_NODES
    ensures
      var r := Remove(s, p, leaf);
      if leaf == "." || leaf == ".." || (forall i :: !Lists(s, p, leaf, i)) then r == s
      else exists i: nat :: Lists(s, p, leaf, i) && TakenOut(s, r, p, i)
  {
    ListsIff(s, p, leaf);
    if Find(s, p, leaf).Some? {
      var i := FindFrom(s, p, leaf, 0);
      assert GoodSlot(s, p);
      assert GoodChild(s, p, i);
      assert !Special(leaf) ==> TakenOut(s, Remove(s, p, leaf), p, i);
    }
  }

  lemma FirstOf(s: State, p: nat, name: string, m: nat)
    requires Sized(s) && p < MAX_NODES && m < |s.nodes[p].children| && s.nodes[s.nodes[p].children[m]].name == name
    requires forall j :: 0 <= j < m ==> s.nodes[s.nodes[p].children[j]].name != name
    ensures FindFrom(s, p, name, 0) == m
  {
  }

  lemma NoneOf(s: State, p: nat, name: string)
    requires Sized(s) && p < MAX_NODES
    requires forall j :: 0 <= j < |s.nodes[p].children| ==> s.nodes[s.nodes[p].children[j]].name != name
    ensures FindFrom(s, p, name, 0) == |s.nodes[p].children| && Find(s, p, name).None?
  {
  }

  /** Lookups in other directories, and for other names, do not notice a new node. */
  lemma FindAfterCreate(s: State, p: nat, leaf: string, isDir: bool, q: nat, name: string)
    requires TreeInv(s) && p < MAX_NODES && s.used[p] && CanCreate(s, p, leaf)
    requires q < MAX_NODES && s.used[q]
    ensures
      var r, k := Create(s, p, leaf, isDir), FirstFree(s.used, 0);
      Find(r, q, name) == if q == p && name == leaf then Some(k) else Find(s, q, name)
  {
    var r, k := Create(s, p, leaf, isDir), FirstFree(s.used, 0);
    Created(s, p, leaf, isDir);
    Unlisted(s, k);
    var kids, now := s.nodes[q].children, r.nodes[q].children;
    assert forall m :: 0 <= m < |kids| ==> now[m] == kids[m] && r.nodes[kids[m]].name == s.nodes[kids[m]].name;
    var i := FindFrom(s, q, name, 0);
    if i < |kids| {
      FirstOf(r, q, name, i);
    } else if q == p && name == leaf {
      assert now[i] == k;
      FirstOf(r, q, name, i);
    } else {
      assert q == p ==> now == kids + [k];
      NoneOf(r, q, name);
    }
  }

  lemma StepAfterCreate(s: State, p: nat, leaf: string, isDir: bool, q: nat, token: string)
    requires TreeInv(s) && p < MAX_NODES && s.used[p] && CanCreate(s, p, leaf)
    requires q < MAX_NODES && s.used[q] && StepName(s, q, token).Some?
    ensures StepName(Create(s, p, leaf, isDir), q, token) == StepName(s, q, token)
  {
    Created(s, p, leaf, isDir);
    FindAfterCreate(s, p, leaf, isDir, q, token);
  }

  lemma ReachableIsUsed(s: State, path: seq<nat>)
    requires TreeInv(s) && Walk(s, path).Some?
    ensures s.used[Walk(s, path).value]
  {
    if path != [] { LastStep(s, path); }
  }

  /** Every path that resolved before the creation still resolves to the same node. */
  lemma {:induction false} WalkAfterCreate(s: State, p: nat, leaf: string, isDir: bool, from: seq<nat>,
                                           tokens: seq<string>)
    requires TreeInv(s) && p < MAX_NODES && s.used[p] && CanCreate(s, p, leaf)
    requires Walk(s, from).Some? && WalkNames(s, Walk(s, from).value, tokens).Some?
    ensures WalkNames(Create(s, p, leaf, isDir), Walk(s, from).value, tokens) ==
        WalkNames(s, Walk(s, from).value, tokens)
    decreases |tokens|
  {
    if tokens != [] {
      ReachableIsUsed(s, from);
      StepAfterCreate(s, p, leaf, isDir, Walk(s, from).value, tokens[0]);
      var next := OneStepInTree(s, from, tokens[0]);
      WalkAfterCreate(s, p, leaf, isDir, next, tokens[1..]);
    }
  }

  /** The directory part of an absolute path; "" stands for the root, as in "/leaf". */
  ghost function ParentOf(s: State, dir: string): (r: Option<nat>)
    requires Sized(s)
    ensures r.Some? ==> r.value < MAX_NODES
  {
    if dir == "" then Some(ROOT) else Resolve(s, dir)
  }

  lemma ParentSegments(s: State, dir: string, leaf: string)
    requires Sized(s) && LegalName(leaf) && (dir == "" || dir[0] == '/')
    ensures ParentOf(s, dir) == WalkNames(s, ROOT, Segments(dir, SLASH))
    ensures Resolve(s, dir + "/" + leaf) == WalkNames(s, ROOT, Segments(dir, SLASH) + [leaf])
  {
    var path := dir + ['/'] + leaf;
    assert path == dir + "/" + leaf;
    SegmentsOfConcat(dir, '/', leaf, SLASH);
    SegmentsOfWord(leaf, SLASH);
    ResolveIsWalk(s, path);
    if dir != "" { ResolveIsWalk(s, dir); }
  }

  /** After mkdir or touch of "dir/leaf", that path resolves to the new node, an empty one of the right kind. */
  lemma CreatedPathResolves(s: State, dir: string, leaf: string, isDir: bool)
    requires TreeInv(s) && LegalName(leaf) && !Special(leaf) && (dir == "" || dir[0] == '/')
    requires ParentOf(s, dir).Some? && CanCreate(s, ParentOf(s, dir).value, leaf)
    ensures
      var p := ParentOf(s, dir).value;
      var r := Create(s, p, leaf, isDir);
      var k := Resolve(r, dir + "/" + leaf);
      k == Some(FirstFree(s.used, 0)) && r.nodes[k.value] == Node(leaf, isDir, p, [])
  {
    var p := ParentOf(s, dir).value;
    var r := Create(s, p, leaf, isDir);
    var ds := Segments(dir, SLASH);
    ParentSegments(s, dir, leaf);
    assert Walk(s, []) == Some(ROOT);
    var path := WalkStaysInTree(s, [], ds);
    ReachableIsUsed(s, path);
    Created(s, p, leaf, isDir);
    WalkAfterCreate(s, p, leaf, isDir, [], ds);
    ParentSegments(r, dir, leaf);
    WalkConcat(r, ROOT, ds, [leaf]);
    FindAfterCreate(s, p, leaf, isDir, p, leaf);
  }

  /** The whole command, from its path argument: mkdir or touch "dir/leaf" makes exactly that path. */
  lemma MakesThePath(s: State, dir: string, leaf: string, isDir: bool)
    requires TreeInv(s) && LegalName(leaf) && !Special(leaf) && |leaf| <= LEAF_ROOM && |dir| <= PATH_ROOM
    requires dir == "" || dir[0] == '/'
    requires ParentOf(s, dir).Some? && CanCreate(s, ParentOf(s, dir).value, leaf)
    ensures
      var path := dir + "/" + leaf;
      var p := ParentNode(s, path);
      && p.Some?
      && var r := Create(s, p.value, LeafOf(path), isDir);
         Resolve(r, path) == Some(FirstFree(s.used, 0)) && Resolve(s, path) == None
  {
    SplitAbsolute(s, dir, leaf);
    CreatedPathResolves(s, dir, leaf, isDir);
    ParentSegments(s, dir, leaf);
    WalkConcat(s, ROOT, Segments(dir, SLASH), [leaf]);
  }

  // ---------------------------------------------------------------------------
  // Removal
  // ---------------------------------------------------------------------------

  ghost predicate CanRemove(s: State, p: nat, leaf: string)
    requires Sized(s) && p < MAX_NODES
  {
    leaf != "" && !Special(leaf) && Find(s, p, leaf).Some?
  }

  lemma FindAfterRemove(s: State, p: nat, leaf: string, q: nat, name: string)
    requires TreeInv(s) && p < MAX_NODES && q < MAX_NODES && CanRemove(s, p, leaf)
    ensures Find(Remove(s, p, leaf), q, name) == if q == p && name == leaf then None else Find(s, q, name)
  {
    if q == p && name == leaf { RemovedIsGone(s, p, leaf); }
    else if q == p { SiblingsStay(s, p, leaf, name); }
    else { OthersStay(s, p, leaf, q, name); }
  }

  lemma OthersStay(s: State, p: nat, leaf: string, q: nat, name: string)
    requires TreeInv(s) && p < MAX_NODES && q < MAX_NODES && CanRemove(s, p, leaf) && q != p
    ensures Find(Remove(s, p, leaf), q, name) == Find(s, q, name)
  {
    var r, i := Remove(s, p, leaf), FindFrom(s, q, name, 0);
    assert r.nodes[q] == s.nodes[q];
    assert forall n :: 0 <= n < MAX_NODES ==> r.nodes[n].name == s.nodes[n].name;
    if i < |s.nodes[q].children| { FirstOf(r, q, name, i); } else { NoneOf(r, q, name); }
  }

  lemma RemovedIsGone(s: State, p: nat, leaf: string)
    requires TreeInv(s) && p < MAX_NODES && CanRemove(s, p, leaf)
    ensures Find(Remove(s, p, leaf), p, leaf).None?
  {
    var r, c := Remove(s, p, leaf), FindFrom(s, p, leaf, 0);
    var was, kids := s.nodes[p].children, r.nodes[p].children;
    assert GoodSlot(s, p);
    forall m | 0 <= m < |kids| ensures r.nodes[kids[m]].name != leaf {
      var m0 := if m < c then m else m + 1;
      assert kids[m] == was[m0] && m0 != c;
    }
    NoneOf(r, p, leaf);
  }

  lemma SiblingsStay(s: State, p: nat, leaf: string, name: string)
    requires TreeInv(s) && p < MAX_NODES && CanRemove(s, p, leaf) && name != leaf
    ensures Find(Remove(s, p, leaf), p, name) == Find(s, p, name)
  {
    var r, c, i := Remove(s, p, leaf), FindFrom(s, p, leaf, 0), FindFrom(s, p, name, 0);
    var was, kids := s.nodes[p].children, r.nodes[p].children;
    assert forall n :: 0 <= n < MAX_NODES ==> r.nodes[n].name == s.nodes[n].name;
    assert forall m :: 0 <= m < |kids| ==> kids[m] == was[if m < c then m else m + 1];
    if i < |was| {
      var m := if i < c then i else i - 1;
      assert kids[m] == was[i];
      FirstOf(r, p, name, m);
    } else {
      NoneOf(r, p, name);
    }
  }

  lemma StepAfterRemove(s: State, p: nat, leaf: string, q: nat, token: string)
    requires TreeInv(s) && p < MAX_NODES && q < MAX_NODES && CanRemove(s, p, leaf)
    ensures
      var r := Remove(s, p, leaf);
      StepName(r, q, token) == if q == p && token == leaf then None else StepName(s, q, token)
  {
    FindAfterRemove(s, p, leaf, q, token);
    assert Remove(s, p, leaf).nodes[q].parent == s.nodes[q].parent;
  }

  /** A walk after the removal stops, or ends where it ended before. */
  lemma {:induction false} WalkAfterRemove(s: State, p: nat, leaf: string, at: nat, tokens: seq<string>)
    requires TreeInv(s) && p < MAX_NODES && at < MAX_NODES && CanRemove(s, p, leaf)
    ensures
      var r := Remove(s, p, leaf);
      WalkNames(r, at, tokens) == None || WalkNames(r, at, tokens) == WalkNames(s, at, tokens)
    decreases |tokens|
  {
    if tokens != [] {
      StepAfterRemove(s, p, leaf, at, tokens[0]);
      var next := StepName(Remove(s, p, leaf), at, tokens[0]);
      if next.Some? { WalkAfterRemove(s, p, leaf, next.value, tokens[1..]); }
    }
  }

  /** After rm of "dir/leaf", that path resolves to nothing. */
  lemma RemovedPathIsGone(s: State, dir: string, leaf: string)
    requires TreeInv(s) && LegalName(leaf) && (dir == "" || dir[0] == '/')
    requires ParentOf(s, dir).Some? && CanRemove(s, ParentOf(s, dir).value, leaf)
    ensures Resolve(Remove(s, ParentOf(s, dir).value, leaf), dir + "/" + leaf) == None
  {
    var p := ParentOf(s, dir).value;
    var r := Remove(s, p, leaf);
    var ds := Segments(dir, SLASH);
    ParentSegments(s, dir, leaf);
    ParentSegments(r, dir, leaf);
    WalkAfterRemove(s, p, leaf, ROOT, ds);
    WalkConcat(r, ROOT, ds, [leaf]);
    StepAfterRemove(s, p, leaf, p, leaf);
  }

  lemma NewestIsLast(s: State, p: nat, leaf: string, isDir: bool)
    requires TreeInv(s) && p < MAX_NODES && s.used[p] && CanCreate(s, p, leaf)
    ensures
      var r := Create(s, p, leaf, isDir);
      FindFrom(r, p, leaf, 0) == |s.nodes[p].children| && Find(r, p, leaf).Some?
  {
    var r, k, kids := Create(s, p, leaf, isDir), FirstFree(s.used, 0), s.nodes[p].children;
    Created(s, p, leaf, isDir);
    Unlisted(s, k);
    assert r.nodes[p].children == kids + [k];
    assert forall m :: 0 <= m < |kids| ==> r.nodes[kids[m]].name == s.nodes[kids[m]].name;
    FirstOf(r, p, leaf, |kids|);
  }

  /** rm right after mkdir or touch undoes it, up to what the freed slot still holds. */
  lemma RemoveUndoesCreate(s: State, p: nat, leaf: string, isDir: bool)
    requires TreeInv(s) && p < MAX_NODES && s.used[p] && CanCreate(s, p, leaf) && !Special(leaf)
    ensures
      var k := FirstFree(s.used, 0);
      Remove(Create(s, p, leaf, isDir), p, leaf) == s.(nodes := s.nodes[k := Node(leaf, isDir, p, [])])
  {
    var r, k := Create(s, p, leaf, isDir), FirstFree(s.used, 0);
    Created(s, p, leaf, isDir);
    NewestIsLast(s, p, leaf, isDir);
    var kids := s.nodes[p].children;
    var i := |kids|;
    var was := r.nodes[p].children;
    assert was == kids + [k] && was[..i] + was[i + 1..] == kids;
    var t := Remove(r, p, leaf);
    assert t.used == s.used;
    forall n | 0 <= n < MAX_NODES ensures t.nodes[n] == s.nodes[k := Node(leaf, isDir, p, [])][n] { }
    assert t.nodes == s.nodes[k := Node(leaf, isDir, p, [])];
  }

  // ---------------------------------------------------------------------------
  // The walk of pwd
  // ---------------------------------------------------------------------------

  /** Two nodes that are each other's parent keep the loop going for ever. */
  lemma {:induction false} ClimbInCircles(s: State, a: nat, b: nat, turns: nat)
    requires Sized(s) && a < MAX_NODES && b < MAX_NODES && a != b && s.nodes[a].parent == b && s.nodes[b].parent == a
    ensures GoesOn(s, Climb(s, a, turns))
    decreases turns
  {
    if turns > 0 { ClimbInCircles(s, b, a, turns - 1); }
  }

  /**
   The commands can get there: with b the current directory inside a, remove a from the root and
   create a directory in b. If a's slot is the lowest free one it is reused, as a child of b. The
   path put together outgrows every buffer, so the kernel writes past its 256 bytes on the way.
   */
  lemma PwdCanLoop(s: State, x: string, i: nat, leaf: string)
    requires TreeInv(s) && CanRemove(s, ROOT, x)
    requires
      var a := Find(s, ROOT, x).value;
      && i < |s.nodes[a].children| && s.nodes[a].children[i] == s.cwd
      && FirstFree(s.used[a := false], 0) == a
      && s.nodes[s.cwd].isDir && |s.nodes[s.cwd].children| < MAX_CHILDREN && leaf != "" && Find(s, s.cwd, leaf).None?
    ensures
      var t := Create(Remove(s, ROOT, x), s.cwd, leaf, true);
      t.cwd == s.cwd && ClimbsForEver(t)
  {
    var a, b := Find(s, ROOT, x).value, s.cwd;
    assert GoodSlot(s, ROOT);
    assert GoodChild(s, ROOT, FindFrom(s, ROOT, x, 0));
    assert GoodSlot(s, a);
    assert GoodChild(s, a, i);
    var r := Remove(s, ROOT, x);
    FindAfterRemove(s, ROOT, x, b, leaf);
    var t := Create(r, b, leaf, true);
    assert t.nodes[a].parent == b && t.nodes[b].parent == a;
    ClimbInCircles(t, b, a, |t.nodes|);
    PwdReturnsIff(t, b);
    EndlessMeansOverrun(t, b);
  }

  /** pwd does not return, and what it has put together after some turns is at least as long as their number. */
  ghost predicate ClimbsForEver(s: State)
    requires Sized(s)
  {
    && !Returns(s, s.cwd)
    && (forall turns: nat :: GoesOn(s, Climb(s, s.cwd, turns)))
    && (forall turns: nat :: |UpPath(s, s.cwd, turns)| >= turns)
  }

  /** The first directory made after boot takes slot 6, the next one slot 7. */
  const A: nat := 6
  const B: nat := 7

  /** The root lists its four directories and a, which holds b. */
  ghost predicate HasAB(s: State) {
    && TreeInv(s) && s.used == Boot().used[A := true][B := true]
    && s.nodes[ROOT].children == [BIN, ETC, HOME, TMP, A]
    && s.nodes[A] == Node("a", true, ROOT, [B]) && s.nodes[B] == Node("b", true, A, [])
  }

  lemma MakeA()
    ensures
      var s := Do(Boot(), Mkdir(ROOT, "a"));
      && TreeInv(s) && s.cwd == ROOT && s.used == Boot().used[A := true]
      && s.nodes[ROOT].children == [BIN, ETC, HOME, TMP, A] && s.nodes[A] == Node("a", true, ROOT, [])
  {
    var b := Boot();
    BootInv();
    LowestFree(b.used, A);
    NoneOf(b, ROOT, "a");
    Created(b, ROOT, "a", true);
    StepInv(b, Mkdir(ROOT, "a"));
  }

  lemma MakeB()
    ensures
      var t := Do(Do(Boot(), Mkdir(ROOT, "a")), Mkdir(A, "b"));
      HasAB(t) && t.cwd == ROOT
  {
    var s := Do(Boot(), Mkdir(ROOT, "a"));
    MakeA();
    LowestFree(s.used, B);
    Created(s, A, "b", true);
    StepInv(s, Mkdir(A, "b"));
  }

  /** After boot: mkdir a; mkdir a/b; cd a/b; rm /a; mkdir c: from here on, pwd does not return. */
  lemma PwdLoops()
    ensures
      var inside := Do(Do(Do(Boot(), Mkdir(ROOT, "a")), Mkdir(A, "b")), Cd(B));
      var s := Do(Do(inside, Rm(ROOT, "a")), Mkdir(B, "c"));
      ClimbsForEver(s)
  {
    MakeB();
    var s := Do(Do(Boot(), Mkdir(ROOT, "a")), Mkdir(A, "b"));
    StepInv(s, Cd(B));
    InsideARemovedDirectory(Do(s, Cd(B)));
  }

  lemma InsideARemovedDirectory(s: State)
    requires HasAB(s) && s.cwd == B
    ensures
      var t := Do(Do(s, Rm(ROOT, "a")), Mkdir(B, "c"));
      ClimbsForEver(t)
  {
    FindChild(s, ROOT, 4);
    assert s.nodes[s.nodes[ROOT].children[4]].name == "a";
    LowestFree(s.used[A := false], A);
    NoneOf(s, B, "c");
    PwdCanLoop(s, "a", 0, "c");
  }

  // ---------------------------------------------------------------------------
  // A current directory called "."
  // ---------------------------------------------------------------------------

  lemma EnterTmp()
    ensures
      var s := Do(Boot(), Cd(TMP));
      && TreeInv(s) && s.cwd == TMP && s.used == Boot().used && s.nodes == Boot().nodes
      && FindFrom(s, ROOT, "tmp", 0) == 3 && CanRemove(s, ROOT, "tmp")
  {
    BootInv();
    StepInv(Boot(), Cd(TMP));
    var s := Do(Boot(), Cd(TMP));
    assert s.nodes[ROOT].children == [BIN, ETC, HOME, TMP];
    assert s.nodes[TMP].name == "tmp";
    FindChild(s, ROOT, 3);
    assert "bin"[0] == 'b' && "etc"[0] == 'e' && "home"[0] == 'h' && "tmp"[0] == 't';
    FirstOf(s, ROOT, "tmp", 3);
  }

  lemma LeaveTmp()
    ensures
      var r := Do(Do(Boot(), Cd(TMP)), Rm(ROOT, "tmp"));
      && TreeInv(r) && r.cwd == TMP && r.used == Boot().used[TMP := false]
      && r.nodes[ROOT] == Node("/", true, ROOT, [BIN, ETC, HOME]) && CanCreate(r, ROOT, ".") && CanCreate(r, ROOT, "x")
  {
    EnterTmp();
    var s := Do(Boot(), Cd(TMP));
    var r := Do(s, Rm(ROOT, "tmp"));
    StepInv(s, Rm(ROOT, "tmp"));
    var kids := s.nodes[ROOT].children;
    assert kids[..3] + kids[4..] == [BIN, ETC, HOME];
    LowestFree(r.used, TMP);
    NoneOf(r, ROOT, ".");
    NoneOf(r, ROOT, "x");
  }

  /**
   cd never enters a directory by the name "." or "..", but its slot can become one: after boot,
   cd /tmp; rm /tmp; mkdir /. leaves a current directory whose printed path leads to the root.
   */
  lemma PwdLies()
    ensures
      var s := Do(Do(Do(Boot(), Cd(TMP)), Rm(ROOT, "tmp")), Mkdir(ROOT, "."));
      Walk(s, [3]) == Some(s.cwd) && Resolve(s, Printed(PathOf(s, s.cwd))) != Some(s.cwd)
  {
    LeaveTmp();
    DotTakesTmp(Do(Do(Boot(), Cd(TMP)), Rm(ROOT, "tmp")));
  }

  lemma DotTakesTmp(r: State)
    requires TreeInv(r) && r.cwd == TMP && r.used == Boot().used[TMP := false]
    requires r.nodes[ROOT] == Node("/", true, ROOT, [BIN, ETC, HOME]) && CanCreate(r, ROOT, ".")
    ensures
      var s := Do(r, Mkdir(ROOT, "."));
      Walk(s, [3]) == Some(s.cwd) && Resolve(s, Printed(PathOf(s, s.cwd))) != Some(s.cwd)
  {
    var s := Do(r, Mkdir(ROOT, "."));
    StepInv(r, Mkdir(ROOT, "."));
    LowestFree(r.used, TMP);
    Created(r, ROOT, ".", true);
    SpecialCurrent(s);
  }

  lemma SpecialCurrent(s: State)
    requires TreeInv(s) && s.cwd == TMP && s.nodes[TMP].name == "." && s.nodes[ROOT].children == [BIN, ETC, HOME, TMP]
    ensures Walk(s, [3]) == Some(s.cwd) && Resolve(s, Printed(PathOf(s, s.cwd))) != Some(s.cwd)
  {
    assert Walk(s, []) == Some(ROOT) && [3][..0] == [];
    assert Walk(s, [3]) == Some(TMP);
    var ns := NamesOn(s, [3]);
    assert ns[0] == "." && Special(ns[0]);
    PwdResolves(s, [3]);
  }

  // ---------------------------------------------------------------------------
  // A current directory that is a file
  // ---------------------------------------------------------------------------

  /** The command makes a new file, and the slot it takes is that of the current directory, which was removed. */
  ghost predicate FileOverCurrent(s: State, c: Command)
    requires Sized(s) && WellFormed(c)
  {
    && (c.Touch? || c.Write?) && c.leaf != "" && (forall i :: !Lists(s, c.p, c.leaf, i))
    && LowestUnused(s.used, s.cwd)
  }

  /** A command leaves the current directory a directory in all other cases, and only in those. */
  lemma StaysDirectoryIff(s: State, c: Command)
    requires TreeInv(s) && WellFormed(c) && s.nodes[s.cwd].isDir
    ensures
      var r := Do(s, c);
      r.nodes[r.cwd].isDir <==> !FileOverCurrent(s, c)
  {
    match c
    case Rm(p, leaf) => RemovedKeepsKind(s, p, leaf);
    case Cd(_) =>
    case Mkdir(p, leaf) => DirectoryOver(s, p, leaf);
    case Touch(p, leaf) => FileOver(s, p, leaf);
    case Write(p, leaf) => FileOver(s, p, leaf);
  }

  lemma RemovedKeepsKind(s: State, p: nat, leaf: string)
    requires TreeInv(s) && p < MAX_NODES && s.nodes[s.cwd].isDir
    ensures var r := Remove(s, p, leaf); r.nodes[r.cwd].isDir
  {
    RemoveLaw(s, p, leaf);
  }

  lemma DirectoryOver(s: State, p: nat, leaf: string)
    requires TreeInv(s) && p < MAX_NODES && s.nodes[s.cwd].isDir
    ensures var r := Create(s, p, leaf, true); r.nodes[r.cwd].isDir
  {
    CreateLaw(s, p, leaf, true);
  }

  lemma FileOver(s: State, p: nat, leaf: string)
    requires TreeInv(s) && p < MAX_NODES && s.nodes[s.cwd].isDir
    ensures
      var r := Create(s, p, leaf, false);
      !r.nodes[r.cwd].isDir <==>
        leaf != "" && (forall i :: !Lists(s, p, leaf, i)) && LowestUnused(s.used, s.cwd)
  {
    CreateLaw(s, p, leaf, false);
    if LowestUnused(s.used, s.cwd) { LowestFree(s.used, s.cwd); }
  }

  /** It happens: after boot, cd /tmp; rm /tmp; touch /x leaves a current directory that is the file x. */
  lemma CurrentBecomesAFile()
    ensures
      var s := Do(Do(Do(Boot(), Cd(TMP)), Rm(ROOT, "tmp")), Touch(ROOT, "x"));
      Walk(s, [3]) == Some(s.cwd) && s.nodes[s.cwd] == Node("x", false, ROOT, [])
  {
    LeaveTmp();
    FileTakesTmp(Do(Do(Boot(), Cd(TMP)), Rm(ROOT, "tmp")));
  }

  lemma FileTakesTmp(r: State)
    requires TreeInv(r) && r.cwd == TMP && r.used == Boot().used[TMP := false]
    requires r.nodes[ROOT] == Node("/", true, ROOT, [BIN, ETC, HOME]) && CanCreate(r, ROOT, "x")
    ensures
      var s := Do(r, Touch(ROOT, "x"));
      Walk(s, [3]) == Some(s.cwd) && s.nodes[s.cwd] == Node("x", false, ROOT, [])
  {
    LowestFree(r.used, TMP);
    Created(r, ROOT, "x", false);
    var s := Do(r, Touch(ROOT, "x"));
    assert Walk(s, []) == Some(ROOT) && [3][..0] == [];
  }
}
