/**
 The RAM filesystem: a pool of 128 nodes, directories of at most 32 children, and the effect
 of mkdir, touch, write, rm and cd on them. A removed directory is freed without its
 children, a freed slot keeps its old links until it is reused, and the current directory may
 be such a slot; so the commands are stated for any slot of the pool as the parent, whether
 it is part of the tree or not.
 */
module VfsTree {
  import opened Wrappers

  const MAX_NODES: nat := 128
  const MAX_CHILDREN: nat := 32
  const ROOT: nat := 0
  const NULL: int := -1

  datatype Node = Node(name: string, isDir: bool, parent: int, children: seq<nat>)
  datatype State = State(nodes: seq<Node>, used: seq<bool>, cwd: nat)

  // ---------------------------------------------------------------------------
  // Operations
  // ---------------------------------------------------------------------------

  /** All links are slots of the pool, or null. */
  ghost predicate Sized(s: State) {
    && |s.nodes| == |s.used| == MAX_NODES && s.cwd < MAX_NODES
    && (forall p, i :: 0 <= p < MAX_NODES && 0 <= i < |s.nodes[p].children| ==> s.nodes[p].children[i] < MAX_NODES)
    && (forall p :: 0 <= p < MAX_NODES ==> NULL <= s.nodes[p].parent < MAX_NODES)
  }

  /** The lowest free slot from k on, or the size of the pool. */
  function FirstFree(used: seq<bool>, k: nat): (r: nat)
    requires k <= |used|
    ensures k <= r <= |used| && (r < |used| ==> !used[r]) && forall j :: k <= j < r ==> used[j]
    decreases |used| - k
  {
    if k == |used| || !used[k] then k else FirstFree(used, k + 1)
  }

  /** The position of the first child with the given name, from i on, or the number of children. */
  ghost function FindFrom(s: State, p: nat, name: string, i: nat): (r: nat)
    requires Sized(s) && p < MAX_NODES && i <= |s.nodes[p].children|
    ensures i <= r <= |s.nodes[p].children|
    ensures r < |s.nodes[p].children| ==> s.nodes[s.nodes[p].children[r]].name == name
    ensures forall j :: i <= j < r ==> s.nodes[s.nodes[p].children[j]].name != name
    decreases |s.nodes[p].children| - i
  {
    var kids := s.nodes[p].children;
    if i == |kids| || s.nodes[kids[i]].name == name then i else FindFrom(s, p, name, i + 1)
  }

  /** vfs_find_node. */
  ghost function Find(s: State, p: nat, name: string): (r: Option<nat>)
    requires Sized(s) && p < MAX_NODES
    ensures r.Some? ==> r.value < MAX_NODES && s.nodes[r.value].name == name && r.value in s.nodes[p].children
    ensures r.Some? ==> s.nodes[p].isDir
    ensures r.None? && s.nodes[p].isDir ==>
              forall j :: 0 <= j < |s.nodes[p].children| ==> s.nodes[s.nodes[p].children[j]].name != name
  {
    if !s.nodes[p].isDir then None
    else
      var i := FindFrom(s, p, name, 0);
      if i < |s.nodes[p].children| then Some(s.nodes[p].children[i]) else None
  }

  /** allocate_node and vfs_create_node: slot k becomes a fresh, unattached node. */
  ghost function Allocate(s: State, k: nat, name: string, isDir: bool): (r: State)
    requires Sized(s) && k < MAX_NODES
    ensures Sized(r)
  {
    s.(nodes := s.nodes[k := Node(name, isDir, NULL, [])], used := s.used[k := true])
  }

  /** vfs_add_child, with its failures. */
  ghost function AddChild(s: State, p: nat, k: nat): (r: State)
    requires Sized(s) && p < MAX_NODES && k < MAX_NODES
    ensures Sized(r)
  {
    if !s.nodes[p].isDir || |s.nodes[p].children| >= MAX_CHILDREN then s
    else Attach(s, p, k)
  }

  /** The child's parent link is written after the parent's list, also when the two are one node. */
  ghost function Attach(s: State, p: nat, k: nat): (r: State)
    requires Sized(s) && p < MAX_NODES && k < MAX_NODES
    ensures Sized(r)
  {
    var listed := s.nodes[p := s.nodes[p].(children := s.nodes[p].children + [k])];
    s.(nodes := listed[k := listed[k].(parent := p)])
  }

  /** mkdir and touch below an already resolved parent. */
  ghost function Create(s: State, p: nat, leaf: string, isDir: bool): (r: State)
    requires Sized(s) && p < MAX_NODES
    ensures Sized(r)
  {
    var k := FirstFree(s.used, 0);
    if leaf == "" || Find(s, p, leaf).Some? || k == MAX_NODES then s
    else AddChild(Allocate(s, k, leaf, isDir), p, k)
  }

  ghost function Detach(s: State, p: nat, i: nat): (r: State)
    requires Sized(s) && p < MAX_NODES && i < |s.nodes[p].children|
    ensures Sized(r)
  {
    var kids := s.nodes[p].children;
    s.(nodes := s.nodes[p := s.nodes[p].(children := kids[..i] + kids[i + 1..])], used := s.used[kids[i] := false])
  }

  /** rm below an already resolved parent. */
  ghost function Remove(s: State, p: nat, leaf: string): (r: State)
    requires Sized(s) && p < MAX_NODES
    ensures Sized(r)
  {
    if leaf == "" || leaf == "." || leaf == ".." || Find(s, p, leaf).None? then s
    else Detach(s, p, FindFrom(s, p, leaf, 0))
  }

  /** cd to an already resolved target. */
  ghost function Enter(s: State, target: nat): (r: State)
    requires Sized(s) && target < MAX_NODES
    ensures Sized(r)
  {
    if s.nodes[target].isDir then s.(cwd := target) else s
  }

  datatype Command = Mkdir(p: nat, leaf: string) | Touch(p: nat, leaf: string) | Write(p: nat, leaf: string)
                   | Rm(p: nat, leaf: string) | Cd(target: nat)

  /** Leaves come from cutting a path at its last slash, so they have none; slots are slots. */
  predicate WellFormed(c: Command) {
    match c
    case Cd(t) => t < MAX_NODES
    case _ => c.p < MAX_NODES && '/' !in c.leaf
  }

  /** write creates the file as touch does; existing nodes keep their place. */
  ghost function Do(s: State, c: Command): (r: State)
    requires Sized(s) && WellFormed(c)
    ensures Sized(r)
  {
    match c
    case Mkdir(p, leaf) => Create(s, p, leaf, true)
    case Touch(p, leaf) => Create(s, p, leaf, false)
    case Write(p, leaf) => Create(s, p, leaf, false)
    case Rm(p, leaf) => Remove(s, p, leaf)
    case Cd(t) => Enter(s, t)
  }

  ghost function DoAll(s: State, cs: seq<Command>): (r: State)
    requires Sized(s) && forall i :: 0 <= i < |cs| ==> WellFormed(cs[i])
    ensures Sized(r)
    decreases |cs|
  {
    if cs == [] then s else DoAll(Do(s, cs[0]), cs[1..])
  }

  const BLANK: Node := Node("", false, NULL, [])

  /** vfs_init before it adds its directories: only the root, which is its own parent. */
  ghost function Bare(): (s: State)
    ensures Sized(s)
  {
    State(seq(MAX_NODES, i => if i == ROOT then Node("/", true, ROOT, []) else BLANK),
          seq(MAX_NODES, i => i == ROOT), ROOT)
  }

  const BIN: nat := 1
  const ETC: nat := 2
  const HOME: nat := 3
  const TMP: nat := 4
  const MOTD: nat := 5

  function BootNode(i: nat): (r: Node) {
    if i == ROOT then Node("/", true, ROOT, [BIN, ETC, HOME, TMP])
    else if i == BIN then Node("bin", true, ROOT, [])
    else if i == ETC then Node("etc", true, ROOT, [MOTD])
    else if i == HOME then Node("home", true, ROOT, [])
    else if i == TMP then Node("tmp", true, ROOT, [])
    else if i == MOTD then Node("motd.txt", false, ETC, [])
    else BLANK
  }

  /** What vfs_init leaves: /bin, /etc, /home, /tmp and /etc/motd.txt. */
  ghost function Boot(): (s: State)
    ensures Sized(s)
  {
    State(seq(MAX_NODES, i requires 0 <= i => BootNode(i)), seq(MAX_NODES, i => i <= MOTD), ROOT)
  }

  // ---------------------------------------------------------------------------
  // The invariant
  // ---------------------------------------------------------------------------

  predicate LegalName(name: string) {
    name != "" && '/' !in name
  }

  /** Child i of slot p: an allocated node other than the root, with p as its parent. */
  ghost predicate GoodChild(s: State, p: nat, i: nat)
    requires Sized(s) && p < MAX_NODES && i < |s.nodes[p].children|
  {
    var c := s.nodes[p].children[i];
    s.used[c] && c != ROOT && s.nodes[c].parent == p && LegalName(s.nodes[c].name)
  }

  /** The names in the list of slot p are distinct. */
  ghost predicate DistinctNames(s: State, p: nat)
    requires Sized(s) && p < MAX_NODES
  {
    var kids := s.nodes[p].children;
    forall i, j :: 0 <= i < j < |kids| ==> s.nodes[kids[i]].name != s.nodes[kids[j]].name
  }

  ghost predicate GoodSlot(s: State, p: nat)
    requires Sized(s) && p < MAX_NODES
  {
    && |s.nodes[p].children| <= MAX_CHILDREN
    && (s.nodes[p].children != [] ==> s.nodes[p].isDir)
    && (forall i :: 0 <= i < |s.nodes[p].children| ==> GoodChild(s, p, i))
    && DistinctNames(s, p)
  }

  /** It speaks of every slot, free ones included. */
  ghost predicate TreeInv(s: State) {
    && Sized(s)
    && s.used[ROOT] && s.nodes[ROOT].isDir && s.nodes[ROOT].parent == ROOT
    && forall p :: 0 <= p < MAX_NODES ==> GoodSlot(s, p)
  }

  lemma BootRoot()
    ensures GoodSlot(Boot(), ROOT)
  {
    var s := Boot();
    assert "bin"[0] == 'b' && "etc"[0] == 'e' && "home"[0] == 'h' && "tmp"[0] == 't';
    assert s.nodes[ROOT].children == [BIN, ETC, HOME, TMP];
    forall i | 0 <= i < 4 ensures GoodChild(s, ROOT, i) { }
  }

  lemma BootSlot(p: nat)
    requires p < MAX_NODES && p != ROOT
    ensures GoodSlot(Boot(), p)
  {
    var s := Boot();
    assert s.nodes[p] == BootNode(p);
    if p == ETC { assert GoodChild(s, ETC, 0); }
  }

  lemma BootInv()
    ensures TreeInv(Boot())
  {
    BootRoot();
    forall p | 0 < p < MAX_NODES ensures GoodSlot(Boot(), p) { BootSlot(p); }
  }

  /** The first free slot is the one below which all are used. */
  lemma LowestFree(used: seq<bool>, k: nat)
    requires k < |used| && !used[k] && forall j :: 0 <= j < k ==> used[j]
    ensures FirstFree(used, 0) == k
  {
    var r := FirstFree(used, 0);
    assert r <= k;
  }

  lemma AllocateInv(s: State, k: nat, name: string, isDir: bool)
    requires TreeInv(s) && k < MAX_NODES && !s.used[k]
    ensures TreeInv(Allocate(s, k, name, isDir))
  {
    var r := Allocate(s, k, name, isDir);
    forall p | 0 <= p < MAX_NODES ensures GoodSlot(r, p) {
      if p != k {
        assert GoodSlot(s, p);
        forall i | 0 <= i < |r.nodes[p].children| ensures GoodChild(r, p, i) && r.nodes[p].children[i] != k {
          assert GoodChild(s, p, i);
        }
      }
    }
  }

  /** What vfs_add_child needs to keep the lists sound: a named, allocated node that no list holds yet. */
  ghost predicate Attachable(s: State, p: nat, k: nat) {
    && TreeInv(s) && p < MAX_NODES && k < MAX_NODES && k != ROOT && s.used[k] && LegalName(s.nodes[k].name)
    && s.nodes[p].isDir && |s.nodes[p].children| < MAX_CHILDREN && Unused(s, k)
    && forall i :: 0 <= i < |s.nodes[p].children| ==> s.nodes[s.nodes[p].children[i]].name != s.nodes[k].name
  }

  lemma AttachChild(s: State, p: nat, k: nat, q: nat, i: nat)
    requires Attachable(s, p, k) && q < MAX_NODES && i < |s.nodes[q].children|
    ensures
      var r := Attach(s, p, k);
      i < |r.nodes[q].children| && r.nodes[q].children[i] == s.nodes[q].children[i] && GoodChild(r, q, i)
  {
    assert GoodSlot(s, q);
    assert GoodChild(s, q, i);
  }

  lemma AttachSlot(s: State, p: nat, k: nat, q: nat)
    requires Attachable(s, p, k) && q < MAX_NODES
    ensures GoodSlot(Attach(s, p, k), q)
  {
    var r := Attach(s, p, k);
    assert GoodSlot(s, q);
    var kids, was := r.nodes[q].children, s.nodes[q].children;
    assert kids == if q == p then was + [k] else was;
    assert forall n :: 0 <= n < MAX_NODES ==> r.nodes[n].name == s.nodes[n].name;
    forall i | 0 <= i < |kids| ensures GoodChild(r, q, i) {
      if i < |was| { AttachChild(s, p, k, q, i); }
    }
  }

  lemma AttachInv(s: State, p: nat, k: nat)
    requires Attachable(s, p, k)
    ensures TreeInv(Attach(s, p, k))
  {
    forall q | 0 <= q < MAX_NODES ensures GoodSlot(Attach(s, p, k), q) { AttachSlot(s, p, k, q); }
  }

  lemma CreateInv(s: State, p: nat, leaf: string, isDir: bool)
    requires TreeInv(s) && p < MAX_NODES && '/' !in leaf
    ensures TreeInv(Create(s, p, leaf, isDir))
  {
    var k := FirstFree(s.used, 0);
    if leaf != "" && Find(s, p, leaf).None? && k < MAX_NODES {
      AllocateInv(s, k, leaf, isDir);
      var m := Allocate(s, k, leaf, isDir);
      Unlisted(s, k);
      assert Unused(m, k) by { assert Unused(s, k); }
      if m.nodes[p].isDir && |m.nodes[p].children| < MAX_CHILDREN {
        forall i | 0 <= i < |m.nodes[p].children| ensures m.nodes[m.nodes[p].children[i]].name != leaf {
          assert p != k && s.nodes[p].children[i] != k;
        }
        AttachInv(m, p, k);
      }
    }
  }

  /** No list names slot k. */
  ghost predicate Unused(s: State, k: nat)
    requires Sized(s)
  {
    forall q, i :: 0 <= q < MAX_NODES && 0 <= i < |s.nodes[q].children| ==> s.nodes[q].children[i] != k
  }

  lemma Unlisted(s: State, k: nat)
    requires TreeInv(s) && k < MAX_NODES && (!s.used[k] || k == ROOT)
    ensures Unused(s, k)
  {
    forall q, i | 0 <= q < MAX_NODES && 0 <= i < |s.nodes[q].children| ensures s.nodes[q].children[i] != k {
      assert GoodSlot(s, q);
      assert GoodChild(s, q, i);
    }
  }

  lemma DetachInv(s: State, p: nat, i: nat)
    requires TreeInv(s) && p < MAX_NODES && i < |s.nodes[p].children|
    ensures TreeInv(Detach(s, p, i))
  {
    var r := Detach(s, p, i);
    var c := s.nodes[p].children[i];
    assert GoodSlot(s, p);
    assert GoodChild(s, p, i);
    forall q | 0 <= q < MAX_NODES ensures GoodSlot(r, q) {
      assert GoodSlot(s, q);
      var kids, was := r.nodes[q].children, s.nodes[q].children;
      forall j | 0 <= j < |kids| ensures GoodChild(r, q, j) {
        var j0 := if q != p || j < i then j else j + 1;
        assert kids[j] == was[j0] && GoodChild(s, q, j0);
        assert kids[j] == c ==> q == p && j0 != i;
      }
    }
  }

  lemma EnterInv(s: State, t: nat)
    requires TreeInv(s) && t < MAX_NODES
    ensures TreeInv(Enter(s, t))
  {
    var r := Enter(s, t);
    forall q | 0 <= q < MAX_NODES ensures GoodSlot(r, q) {
      assert GoodSlot(s, q);
      forall i | 0 <= i < |r.nodes[q].children| ensures GoodChild(r, q, i) { assert GoodChild(s, q, i); }
    }
  }

  lemma StepInv(s: State, c: Command)
    requires TreeInv(s) && WellFormed(c)
    ensures TreeInv(Do(s, c))
  {
    match c
    case Mkdir(p, leaf) => CreateInv(s, p, leaf, true);
    case Touch(p, leaf) => CreateInv(s, p, leaf, false);
    case Write(p, leaf) => CreateInv(s, p, leaf, false);
    case Rm(p, leaf) =>
      if leaf != "" && leaf != "." && leaf != ".." && Find(s, p, leaf).Some? {
        DetachInv(s, p, FindFrom(s, p, leaf, 0));
      }
    case Cd(t) =>
      EnterInv(s, t);
  }

  lemma {:induction false} RunInv(s: State, cs: seq<Command>)
    requires TreeInv(s) && forall i :: 0 <= i < |cs| ==> WellFormed(cs[i])
    ensures TreeInv(DoAll(s, cs))
    decreases |cs|
  {
    if cs != [] {
      StepInv(s, cs[0]);
      RunInv(Do(s, cs[0]), cs[1..]);
    }
  }

  // ---------------------------------------------------------------------------
  // What is reachable from the root is a tree
  // ---------------------------------------------------------------------------

  /** The slot reached from the root by taking the given child positions. */
  ghost function Walk(s: State, path: seq<nat>): (r: Option<nat>)
    requires Sized(s)
    ensures r.Some? ==> r.value < MAX_NODES
  {
    if path == [] then Some(ROOT)
    else
      var n := |path| - 1;
      var above := Walk(s, path[..n]);
      if above.Some? && path[n] < |s.nodes[above.value].children| then Some(s.nodes[above.value].children[path[n]])
      else None
  }

  /** Every reachable node has exactly one path from the root: no sharing and no cycles. */
  lemma {:induction false} UniquePath(s: State, a: seq<nat>, b: seq<nat>)
    requires TreeInv(s) && Walk(s, a).Some? && Walk(s, a) == Walk(s, b)
    ensures a == b
    decreases |a| + |b|
  {
    if a == [] {
      if b != [] { LastStep(s, b); assert false; }
    } else if b == [] {
      LastStep(s, a);
      assert false;
    } else {
      var m, n := |a| - 1, |b| - 1;
      LastStep(s, a);
      LastStep(s, b);
      UniquePath(s, a[..m], b[..n]);
      SamePosition(s, Walk(s, a[..m]).value, a[m], b[n]);
      assert a == a[..m] + [a[m]] && b == b[..n] + [b[n]];
    }
  }

  /** The last step of a path leads to a listed node, whose parent link undoes it. */
  lemma LastStep(s: State, path: seq<nat>)
    requires TreeInv(s) && path != [] && Walk(s, path).Some?
    ensures
      var n := |path| - 1;
      var c, up := Walk(s, path).value, Walk(s, path[..n]);
      && up.Some? && path[n] < |s.nodes[up.value].children| && s.nodes[up.value].children[path[n]] == c
      && s.nodes[up.value].isDir && s.nodes[c].parent == up.value && c != ROOT && s.used[c]
      && LegalName(s.nodes[c].name)
  {
    var n := |path| - 1;
    var up := Walk(s, path[..n]).value;
    assert GoodSlot(s, up);
    assert GoodChild(s, up, path[n]);
  }

  lemma SamePosition(s: State, p: nat, i: nat, j: nat)
    requires TreeInv(s) && p < MAX_NODES && i < |s.nodes[p].children| && j < |s.nodes[p].children|
    requires s.nodes[p].children[i] == s.nodes[p].children[j]
    ensures i == j
  {
    assert GoodSlot(s, p);
  }

  /** In every run from boot, whatever reachable node two paths lead to, they are the same path. */
  lemma AlwaysATree(cs: seq<Command>, a: seq<nat>, b: seq<nat>)
    requires forall i :: 0 <= i < |cs| ==> WellFormed(cs[i])
    ensures
      var s := DoAll(Boot(), cs);
      && TreeInv(s)
      && (Walk(s, a).Some? && Walk(s, a) == Walk(s, b) ==> a == b)
      && (Walk(s, a).Some? ==> s.used[Walk(s, a).value])
  {
    BootInv();
    RunInv(Boot(), cs);
    var s := DoAll(Boot(), cs);
    if Walk(s, a).Some? {
      if a != [] { LastStep(s, a); }
      if Walk(s, a) == Walk(s, b) { UniquePath(s, a, b); }
    }
  }

  /** A node appears in at most one list, and there at most once, however the lists came about. */
  lemma ListedOnce(s: State, p: nat, i: nat, q: nat, j: nat)
    requires TreeInv(s) && p < MAX_NODES && q < MAX_NODES && i < |s.nodes[p].children| && j < |s.nodes[q].children|
    requires s.nodes[p].children[i] == s.nodes[q].children[j]
    ensures p == q && i == j
  {
    assert GoodSlot(s, p) && GoodSlot(s, q);
    assert GoodChild(s, p, i) && GoodChild(s, q, j);
    SamePosition(s, p, i, j);
  }
}
