/**
 What a path means, said without walking it: its normal form drops every ".", and every ".."
 takes back the name before it. A path leads to the node whose own path is the normal form;
 cd and the commands that take "dir/leaf" go there too.
 */
module VfsNormal {
  import opened Wrappers
  import opened PathStrings
  import opened VfsTree
  import opened VfsClimb
  import opened VfsPaths
  import opened VfsCommands

  function DropLast<T>(xs: seq<T>): (r: seq<T>) {
    if xs == [] then [] else xs[..|xs| - 1]
  }

  /** The normal form of a list of components. */
  function Normal(tokens: seq<string>): (ns: seq<string>)
    ensures NoneSpecial(ns) && |ns| <= |tokens|
  {
    if tokens == [] then []
    else
      var before, last := Normal(tokens[..|tokens| - 1]), tokens[|tokens| - 1];
      if last == "." then before else if last == ".." then DropLast(before) else before + [last]
  }

  // ---------------------------------------------------------------------------
  // Single components
  // ---------------------------------------------------------------------------

  /** ".." leads from a node of the tree to the one above, and from the root to itself; "." leads nowhere else. */
  lemma DotDotIsUp(s: State, up: seq<nat>)
    requires TreeInv(s) && Walk(s, up).Some?
    ensures WalkNames(s, Walk(s, up).value, [".."]) == Walk(s, DropLast(up))
    ensures WalkNames(s, Walk(s, up).value, ["."]) == Walk(s, up)
  {
    if up != [] { LastStep(s, up); }
    OneName(s, Walk(s, up).value, "..");
    OneName(s, Walk(s, up).value, ".");
  }

  lemma OneName(s: State, at: nat, name: string)
    requires Sized(s) && at < MAX_NODES
    ensures WalkNames(s, at, [name]) == StepName(s, at, name)
  {
    assert [name][1..] == [];
  }

  /** A name followed by ".." cancels out wherever the name leads anywhere; if it does not, neither does the path. */
  lemma DotDotCancels(s: State, at: nat, a: seq<string>, name: string, b: seq<string>)
    requires TreeInv(s) && at < MAX_NODES && !Special(name)
    ensures WalkNames(s, at, a + [name, ".."] + b) ==
        if WalkNames(s, at, a + [name]).Some? then WalkNames(s, at, a + b) else None
  {
    WalkConcat(s, at, a + [name, ".."], b);
    WalkConcat(s, at, a + [name], [".."]);
    WalkConcat(s, at, a, [name]);
    WalkConcat(s, at, a, b);
    assert a + [name, ".."] == a + [name] + [".."];
    var mid := WalkNames(s, at, a);
    if mid.Some? {
      OneName(s, mid.value, name);
      if StepName(s, mid.value, name).Some? { UpFromChild(s, mid.value, name); }
    }
  }

  lemma UpFromChild(s: State, p: nat, name: string)
    requires TreeInv(s) && p < MAX_NODES && !Special(name) && StepName(s, p, name).Some?
    ensures WalkNames(s, StepName(s, p, name).value, [".."]) == Some(p)
  {
    assert GoodSlot(s, p);
    assert GoodChild(s, p, FindFrom(s, p, name, 0));
    OneName(s, StepName(s, p, name).value, "..");
  }

  /** "." can be left out anywhere. */
  lemma DotDisappears(s: State, at: nat, a: seq<string>, b: seq<string>)
    requires Sized(s) && at < MAX_NODES
    ensures WalkNames(s, at, a + ["."] + b) == WalkNames(s, at, a + b)
  {
    WalkConcat(s, at, a + ["."], b);
    WalkConcat(s, at, a, ["."]);
    WalkConcat(s, at, a, b);
    var mid := WalkNames(s, at, a);
    if mid.Some? { OneName(s, mid.value, "."); }
  }

  // ---------------------------------------------------------------------------
  // Whole paths
  // ---------------------------------------------------------------------------

  /** Node `to` of the tree is reached from the root by exactly these names. */
  ghost predicate Named(s: State, to: seq<nat>, ns: seq<string>)
    requires Sized(s)
  {
    Walk(s, to).Some? && NamesOn(s, to) == ns
  }

  /** One more component, from a node whose path is in normal form. */
  lemma NormalStep(s: State, to: seq<nat>, ns: seq<string>, token: string) returns (next: seq<nat>)
    requires TreeInv(s) && Named(s, to, ns) && StepName(s, Walk(s, to).value, token).Some?
    ensures Walk(s, next) == StepName(s, Walk(s, to).value, token)
    ensures Named(s, next, if token == "." then ns else if token == ".." then DropLast(ns) else ns + [token])
  {
    var at := Walk(s, to).value;
    if token == "." {
      next := to;
    } else if token == ".." {
      DotDotIsUp(s, to);
      OneName(s, at, "..");
      next := DropLast(to);
      if to != [] { assert DropLast(NamesOn(s, to)) == NamesOn(s, next); }
    } else {
      var i := FindFrom(s, at, token, 0);
      next := to + [i];
      assert next[..|to|] == to;
    }
  }

  /** A path that resolves leads to the node whose own path, name by name, is the normal form. */
  lemma {:induction false} LeadsToNormal(s: State, tokens: seq<string>) returns (to: seq<nat>)
    requires TreeInv(s) && WalkNames(s, ROOT, tokens).Some?
    ensures Walk(s, to) == WalkNames(s, ROOT, tokens) && Named(s, to, Normal(tokens))
    decreases |tokens|
  {
    if tokens == [] {
      to := [];
    } else {
      var n := |tokens| - 1;
      assert tokens == tokens[..n] + [tokens[n]];
      WalkConcat(s, ROOT, tokens[..n], [tokens[n]]);
      var before := LeadsToNormal(s, tokens[..n]);
      OneName(s, Walk(s, before).value, tokens[n]);
      to := NormalStep(s, before, Normal(tokens[..n]), tokens[n]);
    }
  }

  /** The node that these names, none of them special, lead to from the root. */
  ghost predicate Exists(s: State, ns: seq<string>)
    requires Sized(s)
  {
    exists to :: Named(s, to, ns)
  }

  lemma NamesLeadTo(s: State, to: seq<nat>, ns: seq<string>)
    requires TreeInv(s) && Named(s, to, ns) && NoneSpecial(ns)
    ensures WalkNames(s, ROOT, ns) == Walk(s, to)
  {
    NamesLeadThere(s, to);
  }

  /** Every beginning of the path has a normal form that names a node. */
  ghost predicate Throughout(s: State, tokens: seq<string>)
    requires Sized(s)
  {
    forall k :: 0 <= k <= |tokens| ==> Exists(s, Normal(tokens[..k]))
  }

  lemma ThroughoutStep(s: State, front: seq<string>, last: string)
    requires Sized(s)
    ensures Throughout(s, front + [last]) <==> Throughout(s, front) && Exists(s, Normal(front + [last]))
  {
    var tokens := front + [last];
    assert tokens[..|tokens|] == tokens;
    assert forall k :: 0 <= k <= |front| ==> tokens[..k] == front[..k];
  }

  /**
   A path resolves if and only if the normal form of each of its beginnings names a node, and
   then it leads where its normal form leads.
   */
  lemma ResolvesIff(s: State, tokens: seq<string>)
    requires TreeInv(s)
    ensures WalkNames(s, ROOT, tokens).Some? <==> Throughout(s, tokens)
    ensures WalkNames(s, ROOT, tokens).Some? ==> WalkNames(s, ROOT, tokens) == WalkNames(s, ROOT, Normal(tokens))
  {
    SomewhereIff(s, tokens);
    if WalkNames(s, ROOT, tokens).Some? {
      var to := LeadsToNormal(s, tokens);
      NamesLeadTo(s, to, Normal(tokens));
    }
  }

  lemma {:induction false} SomewhereIff(s: State, tokens: seq<string>)
    requires TreeInv(s)
    ensures WalkNames(s, ROOT, tokens).Some? <==> Throughout(s, tokens)
    decreases |tokens|
  {
    if tokens == [] {
      assert Named(s, [], []);
      assert tokens[..0] == [];
    } else {
      var front, last := tokens[..|tokens| - 1], tokens[|tokens| - 1];
      assert tokens == front + [last];
      SomewhereIff(s, front);
      ThroughoutStep(s, front, last);
      LastComponent(s, front, last);
    }
  }

  lemma LastComponent(s: State, front: seq<string>, last: string)
    requires TreeInv(s)
    ensures WalkNames(s, ROOT, front + [last]).Some? <==>
        WalkNames(s, ROOT, front).Some? && Exists(s, Normal(front + [last]))
  {
    var tokens := front + [last];
    assert tokens[..|tokens| - 1] == front;
    WalkConcat(s, ROOT, front, [last]);
    if WalkNames(s, ROOT, front).Some? {
      var at := WalkNames(s, ROOT, front).value;
      OneName(s, at, last);
      if WalkNames(s, ROOT, tokens).Some? {
        var to := LeadsToNormal(s, tokens);
      } else if Exists(s, Normal(tokens)) {
        var to :| Named(s, to, Normal(tokens));
        LastNameIsThere(s, front, last, to);
      }
    }
  }

  lemma LastNameIsThere(s: State, front: seq<string>, last: string, to: seq<nat>)
    requires TreeInv(s) && WalkNames(s, ROOT, front).Some? && !Special(last)
    requires Normal(front + [last]) == Normal(front) + [last] && Named(s, to, Normal(front + [last]))
    ensures StepName(s, WalkNames(s, ROOT, front).value, last).Some?
  {
    var ns := Normal(front);
    var before := LeadsToNormal(s, front);
    NamesLeadTo(s, before, ns);
    NamesLeadTo(s, to, ns + [last]);
    WalkConcat(s, ROOT, ns, [last]);
    OneName(s, Walk(s, before).value, last);
  }

  /** The two forms a string can take: "dir/name/../rest" leads where "dir/rest" leads, if "dir/name" leads anywhere. */
  lemma DotDotCancelsInPath(s: State, dir: string, name: string, rest: string)
    requires TreeInv(s) && LegalName(name) && !Special(name) && (dir == "" || dir[0] == '/')
    ensures Resolve(s, dir + "/" + name + "/../" + rest) ==
        if Resolve(s, dir + "/" + name).Some? then Resolve(s, dir + "/" + rest) else None
  {
    var ds, rs := Segments(dir, SLASH), Segments(rest, SLASH);
    ParentSegments(s, dir, name);
    InTheMiddle(dir, name, rest);
    SegmentsOfConcat(dir, '/', rest, SLASH);
    assert dir + "/" + rest == dir + ['/'] + rest;
    ResolveIsWalk(s, dir + "/" + rest);
    ResolveIsWalk(s, dir + "/" + name + "/../" + rest);
    DotDotCancels(s, ROOT, ds, name, rs);
  }

  lemma InTheMiddle(dir: string, name: string, rest: string)
    requires LegalName(name)
    ensures Segments(dir + "/" + name + "/../" + rest, SLASH) ==
        Segments(dir, SLASH) + [name, ".."] + Segments(rest, SLASH)
  {
    TwoWords(dir, name, "..", rest);
    Regrouped(dir, ['/'], name, "..", rest);
    assert "/../" == ['/'] + ".." + ['/'];
  }

  lemma Regrouped(a: string, c: string, v: string, w: string, b: string)
    ensures a + c + v + (c + w + c) + b == a + c + (v + c + (w + c + b))
  {
  }

  lemma TwoWords(dir: string, v: string, w: string, rest: string)
    requires LegalName(v) && LegalName(w)
    ensures Segments(dir + ['/'] + (v + ['/'] + (w + ['/'] + rest)), SLASH) ==
        Segments(dir, SLASH) + [v, w] + Segments(rest, SLASH)
  {
    var tail := w + ['/'] + rest;
    SegmentsOfConcat(dir, '/', v + ['/'] + tail, SLASH);
    SegmentsOfConcat(v, '/', tail, SLASH);
    SegmentsOfConcat(w, '/', rest, SLASH);
    SegmentsOfWord(v, SLASH);
    SegmentsOfWord(w, SLASH);
    Flattened(Segments(dir, SLASH), v, w, Segments(rest, SLASH));
  }

  lemma Flattened(a: seq<string>, v: string, w: string, b: seq<string>)
    ensures a + ([v] + ([w] + b)) == a + [v, w] + b
  {
  }

  // ---------------------------------------------------------------------------
  // The current directory
  // ---------------------------------------------------------------------------

  /** Where cd and the other commands take an argument from: the root if it starts with a slash, or where one is. */
  ghost function Meaning(s: State, arg: string): (r: Option<nat>)
    requires Sized(s)
  {
    WalkNames(s, if arg != "" && arg[0] == '/' then ROOT else s.cwd, Segments(arg, SLASH))
  }

  /** The current directory is in the tree, and no name on the way to it is special. */
  ghost predicate Somewhere(s: State, up: seq<nat>) {
    TreeInv(s) && Walk(s, up) == Some(s.cwd) && NoneSpecial(NamesOn(s, up))
  }

  /** cd follows its argument, component by component, for every argument. */
  lemma CdFollows(s: State, up: seq<nat>, arg: string)
    requires Somewhere(s, up)
    ensures CdTarget(s, arg) == Meaning(s, arg)
  {
    if arg != "" && arg[0] == '/' {
      ResolveIsWalk(s, arg);
    } else {
      RelativeResolves(s, up, arg);
      if Special(arg) {
        SegmentsOfWord(arg, SLASH);
        DotDotIsUp(s, up);
        if up != [] { LastStep(s, up); }
      }
    }
  }

  /** It does so for every argument if and only if no name on the way to the current directory is special. */
  lemma CdFollowsIff(s: State, up: seq<nat>)
    requires TreeInv(s) && Walk(s, up) == Some(s.cwd)
    ensures (forall arg :: CdTarget(s, arg) == Meaning(s, arg)) <==> NoneSpecial(NamesOn(s, up))
  {
    if NoneSpecial(NamesOn(s, up)) {
      forall arg ensures CdTarget(s, arg) == Meaning(s, arg) { CdFollows(s, up, arg); }
    } else {
      StrayCd(s, up, "./");
    }
  }

  /** Below a special name "cd ./" leads away. */
  lemma StrayCd(s: State, up: seq<nat>, arg: string)
    requires TreeInv(s) && Walk(s, up) == Some(s.cwd) && !NoneSpecial(NamesOn(s, up)) && arg == "./"
    ensures CdTarget(s, arg) != Some(s.cwd) && Meaning(s, arg) == Some(s.cwd)
  {
    var ns := NamesOn(s, up);
    assert arg == "." + ['/'] + "";
    SegmentsOfConcat(".", '/', "", SLASH);
    SegmentsOfWord(".", SLASH);
    assert Segments(arg, SLASH) == ["."];
    OneName(s, s.cwd, ".");
    PathIsNames(s, up);
    NamesAreLegal(s, up);
    AbsoluteSegments(ns, arg);
    ResolveIsWalk(s, Absolute(Joined(ns), arg));
    DotDisappears(s, ROOT, ns, []);
    assert ns + ["."] + [] == ns + ["."] && ns + [] == ns;
    SpecialLeadsElsewhere(s, up);
  }

  /** The directory part of a path is followed in the same way; a file or nothing there is an error. */
  lemma ParentFollows(s: State, up: seq<nat>, path: string)
    requires Somewhere(s, up) && LastSlash(path) > 0
    ensures
      var there := Meaning(s, DirPart(path));
      ParentNode(s, path) == if there.Some? && s.nodes[there.value].isDir then there else None
  {
    var dir := DirPart(path);
    if path[0] == '/' { ResolveIsWalk(s, dir); } else { RelativeResolves(s, up, dir); }
  }

  /** The components from the root on that an argument stands for. */
  ghost function FullPath(s: State, up: seq<nat>, arg: string): (ns: seq<string>)
    requires Sized(s) && Walk(s, up).Some?
  {
    if arg != "" && arg[0] == '/' then Segments(arg, SLASH) else NamesOn(s, up) + Segments(arg, SLASH)
  }

  lemma MeaningIsFullPath(s: State, up: seq<nat>, arg: string)
    requires Somewhere(s, up)
    ensures Meaning(s, arg) == WalkNames(s, ROOT, FullPath(s, up, arg))
  {
    NamesLeadThere(s, up);
    WalkConcat(s, ROOT, NamesOn(s, up), Segments(arg, SLASH));
  }

  /**
   cd changes nothing but the current directory. It moves if and only if the argument leads to
   a directory, and pwd then prints the normal form of where one was and the argument; in every
   other case it stays.
   */
  lemma CdThenPwd(s: State, up: seq<nat>, arg: string)
    requires Somewhere(s, up)
    ensures
      var r, t, full := ChangeTo(s, arg), Meaning(s, arg), FullPath(s, up, arg);
      && r.nodes == s.nodes && r.used == s.used
      && (if t.Some? && s.nodes[t.value].isDir then r.cwd == t.value && PathOf(r, r.cwd) == Joined(Normal(full))
          else r.cwd == s.cwd)
  {
    var r, t, full := ChangeTo(s, arg), Meaning(s, arg), FullPath(s, up, arg);
    CdFollows(s, up, arg);
    MeaningIsFullPath(s, up, arg);
    if t.Some? && s.nodes[t.value].isDir {
      var to := LeadsToNormal(s, full);
      PathIsNames(s, to);
      SamePaths(s, r, t.value, |s.nodes|);
    }
  }

  /** The current directory has no say in where a node is. */
  lemma {:induction false} SamePaths(s: State, r: State, n: int, turns: nat)
    requires Sized(s) && Sized(r) && r.nodes == s.nodes && NULL <= n < MAX_NODES
    ensures UpPath(r, n, turns) == UpPath(s, n, turns)
    decreases turns
  {
    if turns > 0 && GoesOn(s, n) { SamePaths(s, r, s.nodes[n].parent, turns - 1); }
  }

  /** cd keeps the current directory in the tree, clear of special names: the law above holds of every cd after it. */
  lemma CdStaysSomewhere(s: State, up: seq<nat>, arg: string) returns (to: seq<nat>)
    requires Somewhere(s, up)
    ensures Somewhere(ChangeTo(s, arg), to)
  {
    var r, full := ChangeTo(s, arg), FullPath(s, up, arg);
    CdFollows(s, up, arg);
    MeaningIsFullPath(s, up, arg);
    if r.cwd == s.cwd {
      assert r == s;
      to := up;
    } else {
      EnterInv(s, r.cwd);
      to := LeadsToNormal(s, full);
      SameTree(s, r, to);
    }
  }

  lemma {:induction false} SameTree(s: State, r: State, to: seq<nat>)
    requires Sized(s) && Sized(r) && r.nodes == s.nodes
    ensures Walk(r, to) == Walk(s, to) && (Walk(s, to).Some? ==> NamesOn(r, to) == NamesOn(s, to))
    decreases |to|
  {
    if to != [] { SameTree(s, r, to[..|to| - 1]); }
  }

  /** After boot, "/etc/../bin" is "/bin". */
  lemma BinByWayOfEtc()
    ensures Resolve(Boot(), "/etc/../bin") == Some(BIN)
  {
    var s := Boot();
    BootInv();
    DotDotCancelsInPath(s, "", "etc", "bin");
    Spelled();
    assert s.nodes[ROOT].children == [BIN, ETC, HOME, TMP];
    InTheRoot(s, 0);
    InTheRoot(s, 1);
  }

  lemma Spelled()
    ensures "/etc/../bin" == "" + "/" + "etc" + "/../" + "bin"
  {
  }

  lemma InTheRoot(s: State, i: nat)
    requires TreeInv(s) && i < |s.nodes[ROOT].children| && !Special(s.nodes[s.nodes[ROOT].children[i]].name)
    ensures Resolve(s, "" + "/" + s.nodes[s.nodes[ROOT].children[i]].name) == Some(s.nodes[ROOT].children[i])
  {
    var name := s.nodes[s.nodes[ROOT].children[i]].name;
    assert GoodSlot(s, ROOT);
    assert GoodChild(s, ROOT, i);
    ParentSegments(s, "", name);
    FindChild(s, ROOT, i);
    OneName(s, ROOT, name);
    assert Segments("", SLASH) + [name] == [name];
  }
}
