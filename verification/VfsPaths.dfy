/**
 Path strings over the tree: what pwd builds, what vfs_resolve_path makes of it, and how
 relative paths reduce to absolute ones.
 */
module VfsPaths {
  import opened Wrappers
  import opened PathStrings
  import opened VfsTree
  import opened VfsClimb

  const SLASH: string := "/"

  // ---------------------------------------------------------------------------
  // Resolution
  // ---------------------------------------------------------------------------

  /** One component of a path. */
  ghost function StepName(s: State, at: nat, token: string): (r: Option<nat>)
    requires Sized(s) && at < MAX_NODES
    ensures r.Some? ==> r.value < MAX_NODES
  {
    if token == "." then Some(at)
    else if token == ".." then (if s.nodes[at].parent == NULL then Some(at) else Some(s.nodes[at].parent))
    else Find(s, at, token)
  }

  ghost function WalkNames(s: State, at: nat, tokens: seq<string>): (r: Option<nat>)
    requires Sized(s) && at < MAX_NODES
    ensures r.Some? ==> r.value < MAX_NODES
    decreases |tokens|
  {
    if tokens == [] then Some(at)
    else
      var next := StepName(s, at, tokens[0]);
      if next.None? then None else WalkNames(s, next.value, tokens[1..])
  }

  /** vfs_resolve_path. */
  ghost function Resolve(s: State, path: string): (r: Option<nat>)
    requires Sized(s)
    ensures r.Some? ==> r.value < MAX_NODES
  {
    if path == "" || path[0] != '/' then None
    else if |path| == 1 then Some(ROOT)
    else WalkNames(s, ROOT, Segments(path[1..], SLASH))
  }

  /** The names on a path of child positions. */
  ghost function NamesOn(s: State, path: seq<nat>): (ns: seq<string>)
    requires Sized(s) && Walk(s, path).Some?
    ensures |ns| == |path|
  {
    if path == [] then []
    else NamesOn(s, path[..|path| - 1]) + [s.nodes[Walk(s, path).value].name]
  }

  /** "/a/b/c"; the empty string for the root. */
  function Joined(ns: seq<string>): (t: string) {
    if ns == [] then "" else Joined(ns[..|ns| - 1]) + "/" + ns[|ns| - 1]
  }

  /** What pwd prints for the path it put together. */
  function Printed(here: string): (t: string) {
    if here == "" then "/" else here
  }

  /** The string build_absolute_path makes: the current path, a slash, the relative path. */
  function Absolute(here: string, rel: string): (t: string) {
    Printed(here) + "/" + rel
  }

  predicate Special(name: string) {
    name == "." || name == ".."
  }

  predicate AllLegal(ns: seq<string>) {
    forall i :: 0 <= i < |ns| ==> LegalName(ns[i])
  }

  predicate NoneSpecial(ns: seq<string>) {
    forall i :: 0 <= i < |ns| ==> !Special(ns[i])
  }

  // ---------------------------------------------------------------------------
  // Strings and components
  // ---------------------------------------------------------------------------

  /** Splitting a joined path gives its components back. */
  lemma {:induction false} SegmentsOfJoined(ns: seq<string>)
    requires AllLegal(ns)
    ensures Segments(Joined(ns), SLASH) == ns
    decreases |ns|
  {
    if ns != [] {
      var n := |ns| - 1;
      SegmentsOfJoined(ns[..n]);
      assert Joined(ns) == Joined(ns[..n]) + ['/'] + ns[n];
      SegmentsOfConcat(Joined(ns[..n]), '/', ns[n], SLASH);
      SegmentsOfWord(ns[n], SLASH);
      assert ns == ns[..n] + [ns[n]];
    }
  }

  lemma {:induction false} JoinedStartsWithSlash(ns: seq<string>)
    requires ns != [] && AllLegal(ns)
    ensures |Joined(ns)| > 1 && Joined(ns)[0] == '/'
    decreases |ns|
  {
    var n := |ns| - 1;
    assert Joined(ns) == Joined(ns[..n]) + "/" + ns[n];
    if n > 0 { JoinedStartsWithSlash(ns[..n]); }
  }

  /** Resolving a string that starts with a slash walks all its segments from the root. */
  lemma ResolveIsWalk(s: State, path: string)
    requires Sized(s) && path != "" && path[0] == '/'
    ensures Resolve(s, path) == WalkNames(s, ROOT, Segments(path, SLASH))
  {
    assert Segments(path, SLASH) == Segments(path[1..], SLASH);
    if |path| == 1 { assert path[1..] == ""; }
  }

  lemma {:induction false} WalkConcat(s: State, at: nat, a: seq<string>, b: seq<string>)
    requires Sized(s) && at < MAX_NODES
    ensures
      var mid := WalkNames(s, at, a);
      WalkNames(s, at, a + b) == if mid.None? then None else WalkNames(s, mid.value, b)
    decreases |a|
  {
    if a == [] {
      assert a + b == b;
    } else {
      assert (a + b)[1..] == a[1..] + b;
      var next := StepName(s, at, a[0]);
      if next.Some? { WalkConcat(s, next.value, a[1..], b); }
    }
  }

  // ---------------------------------------------------------------------------
  // Round trips
  // ---------------------------------------------------------------------------

  lemma {:induction false} NamesAreLegal(s: State, path: seq<nat>)
    requires TreeInv(s) && Walk(s, path).Some?
    ensures AllLegal(NamesOn(s, path))
    decreases |path|
  {
    if path != [] {
      LastStep(s, path);
      NamesAreLegal(s, path[..|path| - 1]);
    }
  }

  /** What the climb from a node of the tree puts together are the names on the way to it. */
  lemma {:induction false} ClimbGivesNames(s: State, path: seq<nat>)
    requires TreeInv(s) && Walk(s, path).Some?
    ensures UpPath(s, Walk(s, path).value, |path|) == Joined(NamesOn(s, path))
    decreases |path|
  {
    if path != [] {
      var n := |path| - 1;
      LastStep(s, path);
      OnlyRootIsOwnParent(s, path);
      ClimbGivesNames(s, path[..n]);
      var ns := NamesOn(s, path);
      assert ns[..n] == NamesOn(s, path[..n]);
    }
  }

  /** Among reachable nodes only the root is its own parent. */
  lemma OnlyRootIsOwnParent(s: State, path: seq<nat>)
    requires TreeInv(s) && path != [] && Walk(s, path).Some?
    ensures s.nodes[Walk(s, path).value].parent != Walk(s, path).value
  {
    LastStep(s, path);
    ShorterIsElsewhere(s, path, path[..|path| - 1]);
  }

  lemma PathIsNames(s: State, path: seq<nat>)
    requires TreeInv(s) && Walk(s, path).Some?
    ensures PathOf(s, Walk(s, path).value) == Joined(NamesOn(s, path))
  {
    var n := Walk(s, path).value;
    ClimbGivesNames(s, path);
    EndsAtRoot(s, path);
    PwdStops(s, path);
    if |path| <= |s.nodes| { NothingMore(s, n, |path|, |s.nodes|); } else { NothingMore(s, n, |s.nodes|, |path|); }
  }

  /** In a sound tree, looking up a child's name finds that child. */
  lemma FindChild(s: State, p: nat, i: nat)
    requires TreeInv(s) && p < MAX_NODES && i < |s.nodes[p].children|
    ensures Find(s, p, s.nodes[s.nodes[p].children[i]].name) == Some(s.nodes[p].children[i])
  {
    assert GoodSlot(s, p);
    var r := FindFrom(s, p, s.nodes[s.nodes[p].children[i]].name, 0);
    assert r <= i;
  }

  /** Following the names of a path without special names leads where its positions lead. */
  lemma {:induction false} NamesLeadThere(s: State, path: seq<nat>)
    requires TreeInv(s) && Walk(s, path).Some? && NoneSpecial(NamesOn(s, path))
    ensures WalkNames(s, ROOT, NamesOn(s, path)) == Walk(s, path)
    decreases |path|
  {
    if path != [] {
      var n := |path| - 1;
      LastStep(s, path);
      var up := NamesOn(s, path[..n]);
      var name := s.nodes[Walk(s, path).value].name;
      var all := NamesOn(s, path);
      assert all == up + [name] && all[n] == name;
      assert NoneSpecial(up) by { forall i | 0 <= i < n ensures !Special(up[i]) { assert up[i] == all[i]; } }
      NamesLeadThere(s, path[..n]);
      WalkConcat(s, ROOT, up, [name]);
      FindChild(s, Walk(s, path[..n]).value, path[n]);
    }
  }

  /** A walk by names from a reachable node stays reachable, and special names never lead deeper. */
  lemma {:induction false} WalkStaysInTree(s: State, from: seq<nat>, tokens: seq<string>) returns (to: seq<nat>)
    requires TreeInv(s) && Walk(s, from).Some?
    requires WalkNames(s, Walk(s, from).value, tokens).Some?
    ensures Walk(s, to) == WalkNames(s, Walk(s, from).value, tokens)
    ensures |to| <= |from| + |tokens|
    ensures !NoneSpecial(tokens) ==> |to| < |from| + |tokens|
    decreases |tokens|
  {
    if tokens == [] {
      to := from;
    } else {
      var next := OneStepInTree(s, from, tokens[0]);
      to := WalkStaysInTree(s, next, tokens[1..]);
      if !Special(tokens[0]) && !NoneSpecial(tokens) {
        var i :| 0 <= i < |tokens| && Special(tokens[i]);
        assert tokens[1..][i - 1] == tokens[i];
      }
    }
  }

  lemma OneStepInTree(s: State, from: seq<nat>, token: string) returns (to: seq<nat>)
    requires TreeInv(s) && Walk(s, from).Some? && StepName(s, Walk(s, from).value, token).Some?
    ensures Walk(s, to) == StepName(s, Walk(s, from).value, token)
    ensures |to| <= |from| + 1 && (Special(token) ==> |to| <= |from|)
  {
    var at := Walk(s, from).value;
    if token == "." {
      to := from;
    } else if token == ".." {
      if from == [] { to := []; } else {
        LastStep(s, from);
        to := from[..|from| - 1];
      }
    } else {
      var i := FindFrom(s, at, token, 0);
      to := from + [i];
      assert to[..|from|] == from;
    }
  }

  /** No two reachable nodes share a path, so a shorter path leads elsewhere. */
  lemma ShorterIsElsewhere(s: State, a: seq<nat>, b: seq<nat>)
    requires TreeInv(s) && Walk(s, a).Some? && |a| != |b|
    ensures Walk(s, a) != Walk(s, b)
  {
    if Walk(s, a) == Walk(s, b) { UniquePath(s, a, b); }
  }

  /**
   pwd and path resolution undo each other for a reachable directory exactly when no directory
   on the way is called "." or "..".
   */
  lemma PwdResolves(s: State, path: seq<nat>)
    requires TreeInv(s) && Walk(s, path).Some?
    ensures Resolve(s, Printed(PathOf(s, Walk(s, path).value))) == Walk(s, path) <==> NoneSpecial(NamesOn(s, path))
  {
    var ns := NamesOn(s, path);
    PathIsNames(s, path);
    NamesAreLegal(s, path);
    if path == [] {
      assert ns == [];
    } else {
      JoinedStartsWithSlash(ns);
      ResolveIsWalk(s, Joined(ns));
      SegmentsOfJoined(ns);
      if NoneSpecial(ns) {
        NamesLeadThere(s, path);
      } else {
        SpecialLeadsElsewhere(s, path);
      }
    }
  }

  /** Resolving the absolute form of a relative path is walking its components from the current directory. */
  lemma RelativeResolves(s: State, path: seq<nat>, rel: string)
    requires TreeInv(s) && Walk(s, path).Some? && NoneSpecial(NamesOn(s, path))
    ensures
      var n := Walk(s, path).value;
      Resolve(s, Absolute(PathOf(s, n), rel)) == WalkNames(s, n, Segments(rel, SLASH))
  {
    var ns := NamesOn(s, path);
    PathIsNames(s, path);
    NamesAreLegal(s, path);
    var abs := Absolute(Joined(ns), rel);
    AbsoluteSegments(ns, rel);
    ResolveIsWalk(s, abs);
    NamesLeadThere(s, path);
    WalkConcat(s, ROOT, ns, Segments(rel, SLASH));
  }

  /**
   Relative paths are walks from the current directory, whatever the path, if and only if no
   directory on the way to it is called "." or "..".
   */
  lemma RelativeResolvesIff(s: State, path: seq<nat>)
    requires TreeInv(s) && Walk(s, path).Some?
    ensures
      var n := Walk(s, path).value;
      (forall rel :: Resolve(s, Absolute(PathOf(s, n), rel)) == WalkNames(s, n, Segments(rel, SLASH)))
      <==> NoneSpecial(NamesOn(s, path))
  {
    var n, ns := Walk(s, path).value, NamesOn(s, path);
    if NoneSpecial(ns) {
      forall rel ensures Resolve(s, Absolute(PathOf(s, n), rel)) == WalkNames(s, n, Segments(rel, SLASH)) {
        RelativeResolves(s, path, rel);
      }
    } else {
      NothingLeadsBack(s, path);
      assert Segments("", SLASH) == [];
    }
  }

  /** Below a special name even the empty relative path leads elsewhere. */
  lemma NothingLeadsBack(s: State, path: seq<nat>)
    requires TreeInv(s) && Walk(s, path).Some? && !NoneSpecial(NamesOn(s, path))
    ensures Resolve(s, Absolute(PathOf(s, Walk(s, path).value), "")) != Walk(s, path)
  {
    var ns := NamesOn(s, path);
    PathIsNames(s, path);
    NamesAreLegal(s, path);
    AbsoluteSegments(ns, "");
    assert ns + Segments("", SLASH) == ns;
    ResolveIsWalk(s, Absolute(Joined(ns), ""));
    SpecialLeadsElsewhere(s, path);
  }

  lemma SpecialLeadsElsewhere(s: State, path: seq<nat>)
    requires TreeInv(s) && Walk(s, path).Some? && !NoneSpecial(NamesOn(s, path))
    ensures WalkNames(s, ROOT, NamesOn(s, path)) != Walk(s, path)
  {
    var ns := NamesOn(s, path);
    if WalkNames(s, ROOT, ns).Some? {
      assert Walk(s, []) == Some(ROOT);
      var to := WalkStaysInTree(s, [], ns);
      ShorterIsElsewhere(s, path, to);
    }
  }

  lemma AbsoluteSegments(ns: seq<string>, rel: string)
    requires AllLegal(ns)
    ensures
      var abs := Absolute(Joined(ns), rel);
      abs != "" && abs[0] == '/' && Segments(abs, SLASH) == ns + Segments(rel, SLASH)
  {
    var here := Printed(Joined(ns));
    assert Absolute(Joined(ns), rel) == here + ['/'] + rel;
    SegmentsOfConcat(here, '/', rel, SLASH);
    if ns == [] {
      assert Segments("/", SLASH) == [] by { assert "/"[1..] == ""; }
    } else {
      JoinedStartsWithSlash(ns);
      SegmentsOfJoined(ns);
    }
  }

  // ---------------------------------------------------------------------------
  // Parent and leaf
  // ---------------------------------------------------------------------------

  const LEAF_ROOM: nat := 127
  const PATH_ROOM: nat := 255

  /** The position of the last slash, or -1. */
  function LastSlash(path: string): (r: int)
    ensures -1 <= r < |path| && (r >= 0 ==> path[r] == '/') && forall k :: r < k < |path| ==> path[k] != '/'
  {
    if path == "" then -1 else if path[|path| - 1] == '/' then |path| - 1 else LastSlash(path[..|path| - 1])
  }

  function Cut(s: string, room: nat): (r: string)
    ensures r <= s && |r| == (if |s| <= room then |s| else room)
  {
    if |s| <= room then s else s[..room]
  }

  /** The leaf, cut to the room for a name. */
  function LeafOf(path: string): (r: string)
    ensures '/' !in r && |r| <= LEAF_ROOM
  {
    Cut(path[LastSlash(path) + 1..], LEAF_ROOM)
  }

  predicate IsRelativeDir(path: string) {
    LastSlash(path) > 0 && path[0] != '/'
  }

  /** What precedes the last slash, cut to the room for a path. */
  function DirPart(path: string): (r: string)
    requires LastSlash(path) > 0
    ensures r != "" && r[0] == path[0] && |r| <= PATH_ROOM && r <= path
  {
    Cut(path[..LastSlash(path)], PATH_ROOM)
  }

  ghost function OnlyDir(s: State, r: Option<nat>): Option<nat>
    requires Sized(s) && (r.Some? ==> r.value < MAX_NODES)
  {
    if r.Some? && s.nodes[r.value].isDir then r else None
  }

  /** resolve_parent_and_leaf: the directory a command works in. */
  ghost function ParentNode(s: State, path: string): (r: Option<nat>)
    requires Sized(s)
    ensures r.Some? ==> r.value < MAX_NODES
  {
    if LastSlash(path) < 0 then Some(s.cwd)
    else if LastSlash(path) == 0 then OnlyDir(s, Some(ROOT))
    else if path[0] == '/' then OnlyDir(s, Resolve(s, DirPart(path)))
    else OnlyDir(s, Resolve(s, Absolute(PathOf(s, s.cwd), DirPart(path))))
  }

  /** For "dir/leaf" with both parts short enough, the parent is what dir resolves to and the leaf is leaf. */
  lemma SplitAbsolute(s: State, dir: string, leaf: string)
    requires Sized(s) && '/' !in leaf && |leaf| <= LEAF_ROOM && |dir| <= PATH_ROOM && (dir == "" || dir[0] == '/')
    ensures LeafOf(dir + "/" + leaf) == leaf
    ensures ParentNode(s, dir + "/" + leaf) == OnlyDir(s, if dir == "" then Some(ROOT) else Resolve(s, dir))
  {
    var path := dir + "/" + leaf;
    var n := LastSlash(path);
    assert path[|dir|] == '/';
    assert forall k :: |dir| < k < |path| ==> path[k] == leaf[k - |dir| - 1];
    assert n == |dir|;
    assert path[n + 1..] == leaf && path[..n] == dir;
  }

  /** A path without a slash names an entry of the current directory. */
  lemma BareName(s: State, leaf: string)
    requires Sized(s) && '/' !in leaf && |leaf| <= LEAF_ROOM
    ensures ParentNode(s, leaf) == Some(s.cwd) && LeafOf(leaf) == leaf
  {
    assert LastSlash(leaf) == -1;
    assert leaf[0..] == leaf;
  }

  // ---------------------------------------------------------------------------
  // Changing the directory
  // ---------------------------------------------------------------------------

  /** cd: where its argument leads. */
  ghost function CdTarget(s: State, arg: string): (r: Option<nat>)
    requires Sized(s)
    ensures r.Some? ==> r.value < MAX_NODES
  {
    if arg == "/" then Some(ROOT)
    else if arg == "." then Some(s.cwd)
    else if arg == ".." then Some(if s.nodes[s.cwd].parent == NULL then ROOT else s.nodes[s.cwd].parent)
    else if arg != "" && arg[0] == '/' then Resolve(s, arg)
    else Resolve(s, Absolute(PathOf(s, s.cwd), arg))
  }

  /** The whole cd command. */
  ghost function ChangeTo(s: State, arg: string): (r: State)
    requires Sized(s)
    ensures Sized(r)
  {
    var t := CdTarget(s, arg);
    if t.None? then s else Enter(s, t.value)
  }

  /** Both printing the path and going there, and going up and down again, lead back to where cd started. */
  lemma CdReturns(s: State, up: seq<nat>)
    requires TreeInv(s) && Walk(s, up) == Some(s.cwd) && NoneSpecial(NamesOn(s, up))
    ensures CdTarget(s, Printed(PathOf(s, s.cwd))) == Some(s.cwd)
    ensures up != [] ==>
              var above := CdTarget(s, "..");
              above == Walk(s, up[..|up| - 1]) && StepName(s, above.value, s.nodes[s.cwd].name) == Some(s.cwd)
  {
    var ns := NamesOn(s, up);
    PwdResolves(s, up);
    PathIsNames(s, up);
    if up != [] {
      NamesAreLegal(s, up);
      JoinedStartsWithSlash(ns);
      LastStep(s, up);
      assert ns[|up| - 1] == s.nodes[s.cwd].name;
      FindChild(s, Walk(s, up[..|up| - 1]).value, up[|up| - 1]);
    }
  }
}
