/**
 The filesystem as the kernel holds it: a static pool of node records with fixed arrays of
 child links, changed in place. Every operation is proved against the operations of VfsTree,
 and the path routines against VfsPaths.
 */
module VfsLinked {
  import opened Wrappers
  import opened PathStrings
  import opened VfsTree
  import opened VfsClimb
  import opened VfsPaths

  const NAME_LENGTH: nat := 128
  const MAX_PATH_LENGTH: nat := 256
  /** The null pointer in a child slot. */
  const NO_NODE: nat := MAX_NODES

  class Vfs {
    const names: array<string>
    const dirs: array<bool>
    const parents: array<int>
    const kids: array2<nat>
    const counts: array<nat>
    const used: array<bool>
    var cwd: nat

    ghost predicate Shape() {
      && names.Length == dirs.Length == parents.Length == counts.Length == used.Length == MAX_NODES
      && kids.Length0 == MAX_NODES && kids.Length1 == MAX_CHILDREN && dirs != used
    }

    ghost predicate Valid()
      reads this, names, dirs, parents, kids, counts, used
    {
      && Shape() && cwd < MAX_NODES
      && (forall p :: 0 <= p < MAX_NODES ==> counts[p] <= MAX_CHILDREN)
      && (forall p, i :: 0 <= p < MAX_NODES && 0 <= i < counts[p] ==> kids[p, i] < MAX_NODES)
      && (forall p :: 0 <= p < MAX_NODES ==> NULL <= parents[p] < MAX_NODES)
      && (forall p :: 0 <= p < MAX_NODES ==> NUL !in names[p])
    }

    ghost function KidsOf(p: nat): (r: seq<nat>)
      requires Shape() && p < MAX_NODES && counts[p] <= MAX_CHILDREN
      reads kids, counts
      ensures |r| == counts[p]
    {
      seq(counts[p], i requires 0 <= i < counts[p] <= MAX_CHILDREN reads kids, counts => kids[p, i])
    }

    ghost function NodeAt(p: nat): (r: Node)
      requires Valid() && p < MAX_NODES
      reads this, names, dirs, parents, kids, counts, used
    {
      Node(names[p], dirs[p], parents[p], KidsOf(p))
    }

    ghost function Abs(): (s: State)
      requires Valid()
      reads this, names, dirs, parents, kids, counts, used
      ensures Sized(s)
    {
      State(seq(MAX_NODES, p requires 0 <= p < MAX_NODES
          && Valid() reads this, names, dirs, parents, kids, counts, used => NodeAt(p)),
            used[..], cwd)
    }

    /** vfs_init. */
    constructor ()
      ensures Valid() && Abs() == Boot()
      ensures fresh(names) && fresh(dirs) && fresh(parents) && fresh(kids) && fresh(counts) && fresh(used)
    {
      names := new string[MAX_NODES](i => if i == ROOT then "/" else "");
      dirs := new bool[MAX_NODES](i => i == ROOT);
      parents := new int[MAX_NODES](i => if i == ROOT then ROOT else NULL);
      kids := new nat[MAX_NODES, MAX_CHILDREN]((i, j) => NO_NODE);
      counts := new nat[MAX_NODES](i => 0);
      used := new bool[MAX_NODES](i => i == ROOT);
      cwd := ROOT;
      new;
      assert Valid();
      assert used[..] == Bare().used;
      forall p | 0 <= p < MAX_NODES ensures NodeAt(p) == Bare().nodes[p] { }
      assert Abs().nodes == Bare().nodes;
      CreateDirectories();
      AttachDirectories();
      CreateMotd();
    }

    /** The first free slot k becomes node `name`. */
    method CreateAt(k: nat, name: string, isDir: bool)
      requires Valid() && k < MAX_NODES && !used[k] && (forall j :: 0 <= j < k ==> used[j])
      requires |name| < NAME_LENGTH && NUL !in name
      modifies names, dirs, parents, kids, counts, used
      ensures Valid() && Abs() == Allocate(old(Abs()), k, name, isDir) && used[..] == old(used[..])[k := true]
    {
      LowestFree(Abs().used, k);
      var slot := CreateNode(name, isDir);
    }

    method CreateDirectories()
      requires Valid() && Abs() == Bare()
      modifies names, dirs, parents, kids, counts, used
      ensures Valid() && Abs() == Unlinked()
    {
      CreateAt(BIN, "bin", true);
      CreateAt(ETC, "etc", true);
      CreateAt(HOME, "home", true);
      CreateAt(TMP, "tmp", true);
    }

    method AttachDirectories()
      requires Valid() && Abs() == Unlinked()
      modifies parents, kids, counts
      ensures Valid() && Abs() == Linked()
    {
      var ok := AddChild(ROOT, BIN);
      ok := AddChild(ROOT, ETC);
      ok := AddChild(ROOT, HOME);
      ok := AddChild(ROOT, TMP);
    }

    method CreateMotd()
      requires Valid() && Abs() == Linked()
      modifies names, dirs, parents, kids, counts, used
      ensures Valid() && Abs() == Boot()
    {
      LinkedFreeFrom();
      CreateAt(MOTD, "motd.txt", false);
      var ok := AddChild(ETC, MOTD);
      BootIsBuilt();
    }

    method FindNode(p: nat, name: string) returns (r: Option<nat>)
      requires Valid() && p < MAX_NODES
      ensures r == Find(Abs(), p, name)
    {
      if !dirs[p] { return None; }
      var i := FindIndex(p, name);
      if i < counts[p] { return Some(kids[p, i]); }
      return None;
    }

    method FindIndex(p: nat, name: string) returns (i: nat)
      requires Valid() && p < MAX_NODES
      ensures i == FindFrom(Abs(), p, name, 0)
    {
      i := 0;
      while i < counts[p]
        invariant i <= counts[p] && FindFrom(Abs(), p, name, 0) == FindFrom(Abs(), p, name, i)
      {
        assert Abs().nodes[p].children[i] == kids[p, i];
        assert Abs().nodes[kids[p, i]].name == names[kids[p, i]];
        if names[kids[p, i]] == name { return; }
        i := i + 1;
      }
    }

    /** The scan of allocate_node. */
    method FirstFreeSlot() returns (k: nat)
      requires Valid()
      ensures k == FirstFree(Abs().used, 0)
    {
      k := 0;
      while k < MAX_NODES
        invariant k <= MAX_NODES && FirstFree(used[..], 0) == FirstFree(used[..], k)
      {
        if !used[k] { return; }
        k := k + 1;
      }
    }

    /** vfs_create_node: clear the slot's fields and its child links, then set name and type. */
    method CreateNode(name: string, isDir: bool) returns (k: nat)
      requires Valid() && |name| < NAME_LENGTH && NUL !in name
      modifies names, dirs, parents, kids, counts, used
      ensures Valid() && k == FirstFree(old(Abs()).used, 0)
      ensures Abs() == if k == MAX_NODES then old(Abs()) else Allocate(old(Abs()), k, name, isDir)
    {
      k := FirstFreeSlot();
      if k < MAX_NODES { InitNode(k, name, isDir); }
    }

    method InitNode(k: nat, name: string, isDir: bool)
      requires Valid() && k < MAX_NODES && NUL !in name
      modifies names, dirs, parents, kids, counts, used
      ensures Valid() && Abs() == Allocate(old(Abs()), k, name, isDir)
    {
      ghost var s := Abs();
      ClearNode(k);
      names[k] := name;
      dirs[k] := isDir;
      forall p | 0 <= p < MAX_NODES ensures NodeAt(p) == Allocate(s, k, name, isDir).nodes[p] {
        if p != k { assert s.nodes[p].children == old(KidsOf(p)); assert KidsOf(p) == old(KidsOf(p)); }
      }
      assert Abs().nodes == Allocate(s, k, name, isDir).nodes;
    }

    /** allocate_node, once it has found a slot. */
    method ClearNode(k: nat)
      requires Shape() && k < MAX_NODES
      modifies names, dirs, parents, kids, counts, used
      ensures names[..] == old(names[..])[k := ""] && dirs[..] == old(dirs[..])[k := false]
      ensures parents[..] == old(parents[..])[k := NULL] && counts[..] == old(counts[..])[k := 0]
      ensures used[..] == old(used[..])[k := true]
      ensures forall p, i :: 0 <= p < MAX_NODES && 0 <= i < MAX_CHILDREN ==>
          kids[p, i] == if p == k then NO_NODE else old(kids[p, i])
    {
      used[k] := true;
      names[k] := "";
      dirs[k] := false;
      parents[k] := NULL;
      counts[k] := 0;
      ClearKids(k);
    }

    method ClearKids(k: nat)
      requires Shape() && k < MAX_NODES
      modifies kids
      ensures forall p, i :: 0 <= p < MAX_NODES && 0 <= i < MAX_CHILDREN ==>
          kids[p, i] == if p == k then NO_NODE else old(kids[p, i])
    {
      for j := 0 to MAX_CHILDREN
        invariant forall p, i :: 0 <= p < MAX_NODES && 0 <= i < MAX_CHILDREN ==>
            kids[p, i] == if p == k && i < j then NO_NODE else old(kids[p, i])
      {
        kids[k, j] := NO_NODE;
      }
    }

    method AddChild(p: nat, k: nat) returns (ok: bool)
      requires Valid() && p < MAX_NODES && k < MAX_NODES
      modifies parents, kids, counts
      ensures Valid() && Abs() == VfsTree.AddChild(old(Abs()), p, k)
      ensures ok <==> old(dirs[p] && counts[p] < MAX_CHILDREN)
    {
      if !dirs[p] || counts[p] >= MAX_CHILDREN { return false; }
      Append(p, k);
      ok := true;
    }

    method Append(p: nat, k: nat)
      requires Valid() && p < MAX_NODES && k < MAX_NODES && counts[p] < MAX_CHILDREN
      modifies parents, kids, counts
      ensures Valid() && Abs() == Attach(old(Abs()), p, k)
    {
      ghost var s := Abs();
      kids[p, counts[p]] := k;
      counts[p] := counts[p] + 1;
      parents[k] := p;
      assert KidsOf(p) == s.nodes[p].children + [k];
      forall q | 0 <= q < MAX_NODES ensures NodeAt(q) == Attach(s, p, k).nodes[q] {
        assert s.nodes[q].children == old(KidsOf(q));
        if q != p { assert KidsOf(q) == old(KidsOf(q)); }
      }
      assert Abs().nodes == Attach(s, p, k).nodes;
    }

    /** vfs_remove_child, given the position of the child. */
    method RemoveAt(p: nat, i: nat)
      requires Valid() && p < MAX_NODES && i < counts[p]
      modifies kids, counts, used
      ensures Valid() && Abs() == Detach(old(Abs()), p, i)
    {
      ghost var s := Abs();
      used[kids[p, i]] := false;
      TakeOut(p, i);
      forall q | 0 <= q < MAX_NODES ensures NodeAt(q) == Detach(s, p, i).nodes[q] {
        assert s.nodes[q].children == old(KidsOf(q));
      }
      assert Abs().nodes == Detach(s, p, i).nodes;
    }

    method TakeOut(p: nat, i: nat)
      requires Valid() && p < MAX_NODES && i < counts[p]
      modifies kids, counts
      ensures Valid()
      ensures forall q :: 0 <= q < MAX_NODES && q != p ==> KidsOf(q) == old(KidsOf(q))
      ensures KidsOf(p) == old(KidsOf(p))[..i] + old(KidsOf(p))[i + 1..]
    {
      ShiftDown(p, i);
      counts[p] := counts[p] - 1;
    }

    method ShiftDown(p: nat, i: nat)
      requires Valid() && p < MAX_NODES && i < counts[p]
      modifies kids
      ensures forall q, j :: 0 <= q < MAX_NODES && 0 <= j < MAX_CHILDREN ==>
                kids[q, j] == if q != p || j < i || j >= counts[p] then old(kids[q, j])
                              else if j == counts[p] - 1 then NO_NODE else old(kids[q, j + 1])
    {
      var j := i;
      while j < counts[p] - 1
        invariant i <= j <= counts[p] - 1
        invariant forall q, m :: 0 <= q < MAX_NODES && 0 <= m < MAX_CHILDREN ==>
                    kids[q, m] == if q != p || m < i || m >= j then old(kids[q, m]) else old(kids[q, m + 1])
      {
        kids[p, j] := kids[p, j + 1];
        j := j + 1;
      }
      kids[p, counts[p] - 1] := NO_NODE;
    }

    // -------------------------------------------------------------------------
    // Commands, below a resolved parent
    // -------------------------------------------------------------------------

    /** The loop body of mkdir and of touch; also how write makes a missing file. */
    method MakeNode(p: nat, leaf: string, isDir: bool)
      requires Valid() && p < MAX_NODES && |leaf| < NAME_LENGTH && NUL !in leaf
      modifies names, dirs, parents, kids, counts, used
      ensures Valid() && Abs() == Create(old(Abs()), p, leaf, isDir)
    {
      if leaf == "" { return; }
      var found := FindNode(p, leaf);
      if found.Some? { return; }
      var k := CreateNode(leaf, isDir);
      if k < MAX_NODES {
        var ok := AddChild(p, k);
      }
    }

    /** The loop body of rm. */
    method RemoveNode(p: nat, leaf: string)
      requires Valid() && p < MAX_NODES
      modifies kids, counts, used
      ensures Valid() && Abs() == Remove(old(Abs()), p, leaf)
    {
      ghost var s := Abs();
      if leaf == "" || leaf == "." || leaf == ".." { return; }
      var found := FindNode(p, leaf);
      if found.None? { return; }
      assert found == Find(s, p, leaf);
      var i := FindIndex(p, leaf);
      RemoveAt(p, i);
    }

    method ChangeDirectory(target: nat)
      requires Valid() && target < MAX_NODES
      modifies `cwd
      ensures Valid() && Abs() == Enter(old(Abs()), target)
    {
      if dirs[target] { cwd := target; }
      assert Abs().nodes == old(Abs()).nodes;
    }

    // -------------------------------------------------------------------------
    // Paths
    // -------------------------------------------------------------------------

    /** One component of vfs_resolve_path. */
    method StepTo(at: nat, token: string) returns (r: Option<nat>)
      requires Valid() && at < MAX_NODES
      ensures r == StepName(Abs(), at, token)
    {
      if token == "." { return Some(at); }
      if token == ".." {
        assert Abs().nodes[at].parent == parents[at];
        if parents[at] != NULL { return Some(parents[at]); }
        return Some(at);
      }
      r := FindNode(at, token);
    }

    method ResolvePath(path: string) returns (r: Option<nat>)
      requires Valid() && |path| <= MAX_PATH_LENGTH && NUL !in path
      ensures r == Resolve(Abs(), path)
    {
      if path == "" || path[0] != '/' { return None; }
      if |path| == 1 { return Some(ROOT); }
      var text := path[1..];
      assert forall k :: 0 <= k < |text| ==> text[k] == path[k + 1];
      var t := new Tokenizer(text);
      r := FollowTokens(t);
    }

    /** One turn of the loop of vfs_resolve_path. */
    method TakeToken(t: Tokenizer, at: nat, token: int, ghost ws: seq<string>)
      returns (next: Option<nat>, following: int)
      requires Valid() && at < MAX_NODES && ws != [] && t.Holds(token, ws, SLASH)
      modifies t, t.buf
      ensures Valid() && Abs() == old(Abs()) && next == StepName(Abs(), at, ws[0])
      ensures next.Some? ==> t.Holds(following, ws[1..], SLASH)
    {
      var name := t.Text(token);
      next := StepTo(at, name);
      following := -1;
      if next.Some? { following := t.Next(SLASH); }
    }

    /** The loop of vfs_resolve_path. */
    method FollowTokens(t: Tokenizer) returns (r: Option<nat>)
      requires Valid() && t.Ready()
      modifies t, t.buf
      ensures r == WalkNames(old(Abs()), ROOT, old(Segments(t.Pending(), SLASH)))
    {
      ghost var s := Abs();
      ghost var rest := Segments(t.Pending(), SLASH);
      ghost var all := rest;
      var at: nat := ROOT;
      var token := t.Next(SLASH);
      while token >= 0
        invariant Valid() && Abs() == s && at < MAX_NODES && t.Holds(token, rest, SLASH)
        invariant WalkNames(s, ROOT, all) == WalkNames(s, at, rest)
        decreases |rest|
      {
        var next, following := TakeToken(t, at, token, rest);
        if next.None? { return None; }
        at, token, rest := next.value, following, rest[1..];
      }
      r := Some(at);
    }

    /** One turn of the climb: "/", the name and the path so far are put together in temp and copied back. */
    method PrependName(path: array<char>, temp: array<char>, name: string)
      requires path != temp && path.Length == temp.Length == MAX_PATH_LENGTH && NUL !in name && Terminated(path[..], 0)
      requires |"/" + name + CString(path[..], 0)| < MAX_PATH_LENGTH
      modifies path, temp
      ensures CString(path[..], 0) == "/" + name + old(CString(path[..], 0)) && Terminated(path[..], 0)
    {
      CStringShape(path[..], 0);
      var soFar := ReadString(path);
      Copy(temp, "/");
      Concat(temp, name);
      Concat(temp, soFar);
      var all := ReadString(temp);
      CStringShape(temp[..], 0);
      Copy(path, all);
    }

    /** The path of the current directory has an end and fits the buffers, with a relative path after it. */
    ghost predicate Fits(rel: string)
      requires Valid()
      reads this, names, dirs, parents, kids, counts, used
    {
      Returns(Abs(), cwd) && |Absolute(PathOf(Abs(), cwd), rel)| < MAX_PATH_LENGTH
    }

    /** One turn of the climb that pwd and build_absolute_path share. */
    method ClimbTurn(path: array<char>, temp: array<char>, node: nat, ghost k: nat) returns (above: int)
      requires Valid() && path != temp && path.Length == temp.Length == MAX_PATH_LENGTH && Terminated(path[..], 0)
      requires node < MAX_NODES && parents[node] != node && Climbing(Abs(), cwd, k, node, CString(path[..], 0))
      requires |PathOf(Abs(), cwd)| < MAX_PATH_LENGTH
      modifies path, temp
      ensures Valid() && Abs() == old(Abs()) && Terminated(path[..], 0) && above == parents[node]
      ensures k < MAX_NODES && Climbing(Abs(), cwd, k + 1, above, CString(path[..], 0))
    {
      assert Abs().nodes[node].parent == parents[node] && Abs().nodes[node].name == names[node];
      ClimbNext(Abs(), cwd, k, node, CString(path[..], 0));
      PrependName(path, temp, names[node]);
      above := parents[node];
    }

    /** The climb itself. */
    method ClimbUp(path: array<char>, temp: array<char>)
      requires Valid() && path != temp && path.Length == temp.Length == MAX_PATH_LENGTH && Terminated(path[..], 0)
      requires CString(path[..], 0) == "" && Returns(Abs(), cwd) && |PathOf(Abs(), cwd)| < MAX_PATH_LENGTH
      modifies path, temp
      ensures Valid() && Abs() == old(Abs()) && CString(path[..], 0) == PathOf(Abs(), cwd)
    {
      ghost var s := Abs();
      var node: int := cwd;
      ghost var k := 0;
      while node != NULL && parents[node] != node
        invariant Valid() && Abs() == s && Terminated(path[..], 0) && Climbing(s, cwd, k, node, CString(path[..], 0))
        decreases MAX_NODES - k
      {
        node := ClimbTurn(path, temp, node, k);
        k := k + 1;
      }
      assert node != NULL ==> s.nodes[node].parent == parents[node];
      ClimbEnd(s, cwd, k, node, CString(path[..], 0));
    }

    static method EmptyString() returns (buffer: array<char>)
      ensures fresh(buffer) && buffer.Length == MAX_PATH_LENGTH && Terminated(buffer[..], 0)
      ensures CString(buffer[..], 0) == ""
    {
      buffer := new char[MAX_PATH_LENGTH];
      buffer[0] := NUL;
      assert buffer[..][0] == NUL;
    }

    /** The path of the current directory, "" for the root. */
    method CurrentPath() returns (out: string)
      requires Valid() && Returns(Abs(), cwd) && |PathOf(Abs(), cwd)| < MAX_PATH_LENGTH
      ensures out == PathOf(Abs(), cwd)
    {
      var path := EmptyString();
      var temp := EmptyString();
      ClimbUp(path, temp);
      out := ReadString(path);
    }

    method Pwd() returns (out: string)
      requires Valid() && Returns(Abs(), cwd) && |PathOf(Abs(), cwd)| < MAX_PATH_LENGTH
      ensures out == Printed(PathOf(Abs(), cwd))
      ensures forall up :: TreeInv(Abs()) && Walk(Abs(), up) == Some(cwd) && up != [] ==>
          out == Joined(NamesOn(Abs(), up))
    {
      out := CurrentPath();
      if out == "" { out := "/"; }
      forall up | TreeInv(Abs()) && Walk(Abs(), up) == Some(cwd) && up != [] ensures out == Joined(NamesOn(Abs(), up)) {
        PathIsNames(Abs(), up);
        NamesAreLegal(Abs(), up);
        JoinedStartsWithSlash(NamesOn(Abs(), up));
      }
    }

    lemma PathHasNoNul()
      requires Valid()
      ensures NUL !in PathOf(Abs(), cwd)
    {
      forall p | 0 <= p < MAX_NODES ensures NUL !in Abs().nodes[p].name { assert Abs().nodes[p].name == names[p]; }
      NoNulInPath(Abs(), cwd, |Abs().nodes|);
    }

    method BuildAbsolutePath(rel: string) returns (abs: string)
      requires Valid() && Fits(rel) && NUL !in rel
      ensures abs == Absolute(PathOf(Abs(), cwd), rel) && NUL !in abs
    {
      var here := CurrentPath();
      PathHasNoNul();
      abs := PutTogether(here, rel);
    }

    /** The end of build_absolute_path: copy, a slash, the relative path. */
    static method PutTogether(here: string, rel: string) returns (abs: string)
      requires NUL !in here && NUL !in rel && |Absolute(here, rel)| < MAX_PATH_LENGTH
      ensures abs == Absolute(here, rel) && NUL !in abs
    {
      var buffer := new char[MAX_PATH_LENGTH];
      if here == "" { Copy(buffer, "/"); } else { Copy(buffer, here); }
      Concat(buffer, "/");
      Concat(buffer, rel);
      abs := ReadString(buffer);
      CStringShape(buffer[..], 0);
    }

    /** Relative paths, as cd and the file commands treat them: below a reachable directory, a walk from there. */
    method ResolveRelative(rel: string) returns (r: Option<nat>)
      requires Valid() && Fits(rel) && NUL !in rel
      ensures r == Resolve(Abs(), Absolute(PathOf(Abs(), cwd), rel))
      ensures forall up :: TreeInv(Abs()) && Walk(Abs(), up) == Some(cwd) && NoneSpecial(NamesOn(Abs(), up)) ==>
                r == WalkNames(Abs(), cwd, Segments(rel, SLASH))
    {
      var abs := BuildAbsolutePath(rel);
      r := ResolvePath(abs);
      forall up | TreeInv(Abs()) && Walk(Abs(), up) == Some(cwd) && NoneSpecial(NamesOn(Abs(), up))
        ensures r == WalkNames(Abs(), cwd, Segments(rel, SLASH))
      {
        RelativeResolves(Abs(), up, rel);
      }
    }

    /** The scan for the last slash. */
    method FindLastSlash(path: string) returns (last: int)
      ensures last == LastSlash(path)
    {
      last := -1;
      var i := 0;
      while i < |path|
        invariant 0 <= i <= |path| && last == LastSlash(path[..i])
      {
        assert path[..i + 1][..i] == path[..i];
        if path[i] == '/' { last := i; }
        i := i + 1;
      }
      assert path[..|path|] == path;
    }

    /** The copy loops with a bound. */
    method CopyBounded(s: string, room: nat) returns (r: string)
      ensures r == Cut(s, room)
    {
      r := "";
      var i := 0;
      while i < |s| && i < room
        invariant 0 <= i <= |s| && i <= room && r == s[..i]
      {
        r := r + [s[i]];
        i := i + 1;
      }
    }

    /** A parent path whose resolution ends and for which the buffers have room. */
    ghost predicate Resolvable(path: string)
      requires Valid()
      reads this, names, dirs, parents, kids, counts, used
    {
      NUL !in path && (IsRelativeDir(path) ==> Fits(DirPart(path)))
    }

    method ResolveDirPart(path: string, last: int) returns (r: Option<nat>)
      requires Valid() && Resolvable(path) && last == LastSlash(path) && last > 0
      ensures r == Resolve(Abs(), if path[0] == '/' then DirPart(path) else Absolute(PathOf(Abs(), cwd), DirPart(path)))
    {
      var dir := CopyBounded(path[..last], PATH_ROOM);
      assert dir == DirPart(path);
      assert forall k :: 0 <= k < |dir| ==> dir[k] == path[k];
      if dir[0] != '/' { dir := BuildAbsolutePath(dir); }
      r := ResolvePath(dir);
    }

    method CopyLeaf(path: string, last: int) returns (leaf: string)
      requires last == LastSlash(path)
      ensures leaf == LeafOf(path)
    {
      leaf := CopyBounded(path[last + 1..], LEAF_ROOM);
    }

    /** Only a directory can be worked in. */
    method DirectoryOnly(r: Option<nat>) returns (d: Option<nat>)
      requires Valid() && (r.Some? ==> r.value < MAX_NODES)
      ensures d == OnlyDir(Abs(), r)
    {
      d := None;
      if r.Some? {
        assert Abs().nodes[r.value].isDir == dirs[r.value];
        if dirs[r.value] { d := r; }
      }
    }

    method ResolveParentAndLeaf(path: string) returns (parent: Option<nat>, leaf: string)
      requires Valid() && Resolvable(path)
      ensures leaf == LeafOf(path) && parent == ParentNode(Abs(), path)
    {
      var last := FindLastSlash(path);
      leaf := CopyLeaf(path, last);
      if last < 0 { return Some(cwd), leaf; }
      var found: Option<nat> := Some(ROOT);
      if last > 0 { found := ResolveDirPart(path, last); }
      parent := DirectoryOnly(found);
    }

    /** cd is not called on a path whose resolution does not end or for which the buffers have no room. */
    ghost predicate Reachable(arg: string)
      requires Valid()
      reads this, names, dirs, parents, kids, counts, used
    {
      && NUL !in arg && |arg| <= MAX_PATH_LENGTH
      && (arg != "." && arg != ".." && (arg == "" || arg[0] != '/') ==> Fits(arg))
    }

    /** The target of cd, as its cases find it. */
    method FindTarget(arg: string) returns (target: Option<nat>)
      requires Valid() && Reachable(arg)
      ensures target == CdTarget(Abs(), arg)
    {
      if arg == "/" { return Some(ROOT); }
      if arg == "." { return Some(cwd); }
      if arg == ".." {
        assert Abs().nodes[cwd].parent == parents[cwd];
        return Some(if parents[cwd] == NULL then ROOT else parents[cwd]);
      }
      var path := arg;
      if arg == "" || arg[0] != '/' { path := BuildAbsolutePath(arg); }
      target := ResolvePath(path);
    }

    /** cd, from its argument. */
    method Cd(arg: string)
      requires Valid() && Reachable(arg)
      modifies `cwd
      ensures Valid() && Abs() == ChangeTo(old(Abs()), arg)
    {
      var target := FindTarget(arg);
      if target.Some? { ChangeDirectory(target.value); }
    }

    /** mkdir (isDir) and touch, from the path argument. */
    method Make(path: string, isDir: bool)
      requires Valid() && Resolvable(path)
      modifies names, dirs, parents, kids, counts, used
      ensures Valid()
      ensures
        var p := ParentNode(old(Abs()), path);
        Abs() == if p.None? then old(Abs()) else Create(old(Abs()), p.value, LeafOf(path), isDir)
    {
      var parent, leaf := ResolveParentAndLeaf(path);
      NoNulInLeaf(path);
      if parent.Some? { MakeNode(parent.value, leaf, isDir); }
    }

    /** rm, from the path argument. */
    method Rm(path: string)
      requires Valid() && Resolvable(path)
      modifies kids, counts, used
      ensures Valid()
      ensures
        var p := ParentNode(old(Abs()), path);
        Abs() == if p.None? then old(Abs()) else Remove(old(Abs()), p.value, LeafOf(path))
    {
      var parent, leaf := ResolveParentAndLeaf(path);
      if parent.Some? { RemoveNode(parent.value, leaf); }
    }
  }

  /** vfs_init with its four directories created, not yet attached. */
  ghost function Unlinked(): (s: State)
    ensures Sized(s)
  {
    var s := Allocate(Allocate(Bare(), BIN, "bin", true), ETC, "etc", true);
    Allocate(Allocate(s, HOME, "home", true), TMP, "tmp", true)
  }

  /** vfs_init with its four directories below the root. */
  ghost function Linked(): (s: State)
    ensures Sized(s)
  {
    var s := VfsTree.AddChild(VfsTree.AddChild(Unlinked(), ROOT, BIN), ROOT, ETC);
    VfsTree.AddChild(VfsTree.AddChild(s, ROOT, HOME), ROOT, TMP)
  }

  lemma LinkedFreeFrom()
    ensures forall j :: 0 <= j < MAX_NODES ==> (Linked().used[j] <==> j < MOTD)
  {
  }

  lemma LinkedNode(i: nat)
    requires i < MAX_NODES
    ensures Linked().nodes[i] == if i == ETC then BootNode(i).(children := []) else if i == MOTD then BLANK
        else BootNode(i)
  {
    var s := Unlinked();
    assert |s.nodes[ROOT].children| == 0 && s.nodes[ROOT].isDir;
  }

  /** The steps of vfs_init lead to what Boot says. */
  lemma BootIsBuilt()
    ensures VfsTree.AddChild(Allocate(Linked(), MOTD, "motd.txt", false), ETC, MOTD) == Boot()
  {
    var t := VfsTree.AddChild(Allocate(Linked(), MOTD, "motd.txt", false), ETC, MOTD);
    assert t.used == Boot().used;
    LinkedNode(ETC);
    forall i | 0 <= i < MAX_NODES ensures t.nodes[i] == Boot().nodes[i] { LinkedNode(i); }
    assert t.nodes == Boot().nodes;
  }

  lemma NoNulInLeaf(path: string)
    requires NUL !in path
    ensures NUL !in LeafOf(path)
  {
    var from := LastSlash(path) + 1;
    var leaf := LeafOf(path);
    assert leaf == path[from..from + |leaf|];
    NoNulInSlice(path, from, from + |leaf|);
  }

  lemma NoNulInSlice(s: string, i: nat, j: nat)
    requires NUL !in s && i <= j <= |s|
    ensures NUL !in s[i..j]
  {
    var t := s[i..j];
    forall k | 0 <= k < |t| ensures t[k] != NUL { assert t[k] == s[i + k]; }
  }
}
