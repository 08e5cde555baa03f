/** Path walking and the path operations of kernel/fs/vfs.c over ramfs. */
module Vfs {
  import opened Wrappers
  import opened RamfsTree
  import opened RamfsMoves
  import opened RamfsPaths
  import opened Ramfs

  function Init(p: Path): Path
    requires p != []
  {
    p[..|p| - 1]
  }

  function Last(p: Path): string
    requires p != []
  {
    p[|p| - 1]
  }

  /** The node a path's last component is looked up in; the root path has none. */
  ghost function ParentOf(fs: Fs, p: Path): Option<Ino>
    requires Lists(fs)
  {
    if p == [] then None else Resolve(fs, fs.root, Init(p))
  }

  // ---- splitting a path ----

  lemma SlashSkipped(s: string, p: nat)
    requires p < |s| && s[p] == '/'
    ensures Components(s[p..]) == Components(s[p + 1..])
  {
    assert s[p..][1..] == s[p + 1..];
  }

  lemma {:induction false} WordEnds(s: string, n: nat)
    requires n <= |s| && (n < |s| ==> s[n] == '/') && forall i :: 0 <= i < n ==> s[i] != '/'
    ensures WordLength(s) == n
  {
    if n > 0 {
      WordEnds(s[1..], n - 1);
    }
  }

  lemma WordTaken(s: string, p: nat, q: nat)
    requires p < q <= |s| && (q < |s| ==> s[q] == '/') && forall i :: p <= i < q ==> s[i] != '/'
    ensures Components(s[p..]) == [Cut(s[p..q])] + Components(s[q..])
  {
    WordEnds(s[p..], q - p);
    assert s[p..][..q - p] == s[p..q] && s[p..][q - p..] == s[q..];
  }

  /** Moves past a run of slashes. */
  method SkipSlashes(s: string, start: nat) returns (p: nat)
    requires start <= |s|
    ensures start <= p <= |s| && Components(s[p..]) == Components(s[start..]) && (p < |s| ==> s[p] != '/')
  {
    p := start;
    while p < |s| && s[p] == '/'
      invariant start <= p <= |s| && Components(s[p..]) == Components(s[start..])
    {
      SlashSkipped(s, p);
      p := p + 1;
    }
  }

  lemma CutNothing()
    ensures Cut("") == ""
  {
  }

  lemma CutMore(s: string, c: char)
    ensures Cut(s + [c]) == if |Cut(s)| < MAX_NAME then Cut(s) + [c] else Cut(s)
  {
  }

  /** Copies a component into a buffer of 255 characters and moves past it. */
  method TakeWord(s: string, start: nat) returns (name: string, p: nat)
    requires start < |s| && s[start] != '/'
    ensures start < p <= |s| && Components(s[start..]) == [name] + Components(s[p..]) && (p < |s| ==> s[p] == '/')
  {
    hide Components, Cut;
    p := start;
    name := "";
    CutNothing();
    assert s[start..p] == "";
    while p < |s| && s[p] != '/'
      invariant start <= p <= |s| && name == Cut(s[start..p]) && forall i :: start <= i < p ==> s[i] != '/'
    {
      CutMore(s[start..p], s[p]);
      assert s[start..p + 1] == s[start..p] + [s[p]];
      if |name| < MAX_NAME {
        name := name + [s[p]];
      }
      p := p + 1;
    }
    WordTaken(s, start, p);
  }

  lemma EndOfPath(s: string)
    ensures Components(s[|s|..]) == []
  {
  }

  lemma MoreComponents(s: string, p: nat)
    requires p < |s| && s[p] != '/'
    ensures Components(s[p..]) != []
  {
  }

  lemma ResolveNothing(fs: Fs)
    requires Lists(fs)
    ensures fs.root in fs.nodes && Resolve(fs, fs.root, []) == Some(fs.root)
  {
  }

  lemma RootOwned(r: RamFs)
    requires r.Valid()
    ensures Lists(r.fs) && r.fs.root in r.fs.nodes && r.Owns(r.root) && r.root.ino == r.fs.root
  {
    assert r.Holds(r.fs.root);
  }

  /** The parent node and last component of a path. The last component itself is not looked up, and
      the parent need not be a directory. */
  method LookupParent(r: RamFs, path: string) returns (parent: Node?, name: string)
    requires r.Valid()
    ensures var p, d := Components(path), ParentOf(r.fs, Components(path));
            if d.None? then parent == null
            else parent != null && r.Owns(parent) && d == Some(parent.ino) && name == Last(p)
  {
    hide Lists, Resolve, Components, Lookup;
    var curr: Node := r.root;
    name := "";
    RootOwned(r);
    ghost var all, done: Path := Components(path), [];
    assert path[0..] == path;
    var p := SkipSlashes(path, 0);
    ResolveNothing(r.fs);
    EndOfPath(path);
    while p < |path|
      invariant p <= |path| && (p < |path| ==> path[p] != '/')
      invariant all == done + Components(path[p..])
      invariant r.Owns(curr) && Resolve(r.fs, r.fs.root, done) == Some(curr.ino)
      invariant p == |path| ==> all == []
    {
      ghost var rest := Components(path[p..]);
      var q;
      name, q := TakeWord(path, p);
      p := SkipSlashes(path, q);
      ghost var more := Components(path[p..]);
      assert all == done + [name] + more;
      if p == |path| {
        assert Init(all) == done;
        return curr, name;
      }
      MoreComponents(path, p);
      var child := r.LookupChild(curr, name);
      ResolveNext(r.fs, r.fs.root, done, name);
      assert Init(all) == done + [name] + Init(more);
      if child == null {
        ResolveConcat(r.fs, r.fs.root, done + [name], Init(more));
        return null, "";
      }
      curr := child;
      done := done + [name];
    }
    return null, "";
  }

  // ---- operations on paths ----

  /** What a rename of one path to another answers and does. */
  ghost predicate RenameDone(fs: Fs, from: string, to: string, code: int, after: Fs) {
    Lists(fs) &&
    var p, q := Components(from), Components(to);
    var o, d, x := ParentOf(fs, p), ParentOf(fs, q), Resolve(fs, fs.root, p);
    if o.None? || d.None? || x.None? then code == ENOENT && after == fs
    else
      && o.value in fs.nodes && d.value in fs.nodes && x.value in fs.nodes
      && if Resolve(fs, fs.root, q).Some? then code == EEXIST && after == fs
         else code == 0 && after == Rename(fs, o.value, x.value, d.value, Last(q))
  }

  /** Looking up the last component of a path in its parent resolves the path. */
  lemma LastLookup(fs: Fs, p: Path)
    requires Lists(fs) && ParentOf(fs, p).Some?
    ensures ParentOf(fs, p).value in fs.nodes && Lookup(fs, ParentOf(fs, p).value, Last(p)) == Resolve(fs, fs.root, p)
  {
    hide Lookup, Resolve, IsKid;
    assert p == Init(p) + [Last(p)];
    ResolveNext(fs, fs.root, Init(p), Last(p));
  }

  lemma {:induction false} ComponentsFit(s: string)
    ensures forall i :: 0 <= i < |Components(s)| ==> |Components(s)[i]| <= MAX_NAME
    decreases |s|
  {
    if s != "" {
      ComponentsFit(if s[0] == '/' then s[1..] else s[WordLength(s)..]);
    }
  }

  lemma ValidLists(r: RamFs)
    requires r.Valid()
    ensures Lists(r.fs)
  {
  }

  lemma OwnedIn(r: RamFs, n: Node)
    requires r.Valid() && r.Owns(n)
    ensures n.ino in r.fs.nodes
  {
  }

  method VfsRename(r: RamFs, from: string, to: string) returns (code: int)
    requires r.Valid()
    modifies r`fs, r`first, r`next, r.at.Values
    ensures r.Valid() && RenameDone(old(r.fs), from, to, code, r.fs)
  {
    hide Resolve, Components, Lookup, IsKid, RamfsTree.Rename;
    ValidLists(r);
    var oldParent, oldName := LookupParent(r, from);
    if oldParent == null {
      return ENOENT;
    }
    var newParent, newName := LookupParent(r, to);
    if newParent == null {
      return ENOENT;
    }
    LastLookup(r.fs, Components(from));
    LastLookup(r.fs, Components(to));
    ComponentsFit(to);
    var target := r.LookupChild(oldParent, oldName);
    if target == null {
      return ENOENT;
    }
    OwnedIn(r, target);
    code := r.Rename(oldParent, target, newParent, newName);
  }

  /** Unlink of a path. */
  ghost predicate UnlinkPathDone(fs: Fs, path: string, code: int, after: Fs) {
    Lists(fs) &&
    var d := ParentOf(fs, Components(path));
    if d.None? then code == ENOENT && after == fs
    else UnlinkDone(fs, d.value, Last(Components(path)), code, after)
  }

  /** The path does not lead to a file with children. */
  ghost predicate ChildlessPath(fs: Fs, path: string)
    requires Lists(fs)
  {
    var d := ParentOf(fs, Components(path));
    d.Some? ==> Childless(fs, d.value, Last(Components(path)))
  }

  method VfsUnlink(r: RamFs, path: string) returns (code: int)
    requires r.Valid()
    modifies r`fs, r`first, r`next, r`at, r`inodeCount, r.at.Values
    ensures UnlinkPathDone(old(r.fs), path, code, r.fs)
    ensures r.Valid() <==> ChildlessPath(old(r.fs), path)
  {
    hide Resolve, Components, Lookup, IsKid, Remove;
    ValidLists(r);
    var parent, name := LookupParent(r, path);
    if parent == null {
      return ENOENT;
    }
    OwnedIn(r, parent);
    var child := r.LookupChild(parent, name);
    if child == null {
      return ENOENT;
    }
    OwnedIn(r, child);
    r.OwnedKind(child);
    if child.isDir {
      return EISDIR;
    }
    code := r.Unlink(parent, name);
  }

  /** Rmdir of a path. */
  ghost predicate RmdirPathDone(fs: Fs, path: string, code: int, after: Fs) {
    Lists(fs) &&
    var d := ParentOf(fs, Components(path));
    if d.None? then code == ENOENT && after == fs
    else RmdirDone(fs, d.value, Last(Components(path)), code, after)
  }

  method VfsRmdir(r: RamFs, path: string) returns (code: int)
    requires r.Valid()
    modifies r`fs, r`first, r`next, r`at, r`inodeCount, r.at.Values
    ensures r.Valid() && RmdirPathDone(old(r.fs), path, code, r.fs)
  {
    hide Resolve, Components, Lookup, IsKid, Remove;
    ValidLists(r);
    var parent, name := LookupParent(r, path);
    if parent == null {
      return ENOENT;
    }
    OwnedIn(r, parent);
    var child := r.LookupChild(parent, name);
    if child == null {
      return ENOENT;
    }
    OwnedIn(r, child);
    r.OwnedKind(child);
    if !child.isDir {
      return ENOTDIR;
    }
    code := r.Rmdir(parent, name);
  }

  /** Creation of a path: the parent is taken as it is and the name is not looked for. */
  ghost predicate CreateDone(fs: Fs, path: string, isDir: bool, x: Ino, code: int, after: Fs) {
    Lists(fs) &&
    var d := ParentOf(fs, Components(path));
    if d.None? then code == ENOENT && after == fs
    else
      && code == 0 && d.value in fs.nodes && x !in fs.nodes
      && after == Add(fs, d.value, x, isDir, Last(Components(path)))
  }

  ghost predicate InDirectory(fs: Fs, path: string)
    requires Lists(fs)
  {
    var d := ParentOf(fs, Components(path));
    d.Some? && d.value in fs.nodes && fs.nodes[d.value].isDir
  }

  /** vfs_create and vfs_mkdir. A node made under a file is counted and lost. */
  method VfsCreate(r: RamFs, path: string, isDir: bool) returns (code: int)
    requires r.Valid()
    modifies r, r.at.Values
    ensures r.Valid() && CreateDone(old(r.fs), path, isDir, old(r.nextIno), code, r.fs)
    ensures r.lost == old(r.lost) + if code == 0 && !InDirectory(old(r.fs), path) then 1 else 0
    ensures r.inodeCount == old(r.inodeCount) + if code == 0 then 1 else 0
  {
    hide Resolve, Components, Lookup, IsKid, Add;
    ValidLists(r);
    var parent, name := LookupParent(r, path);
    if parent == null {
      return ENOENT;
    }
    r.ValidOwns(parent);
    r.OwnedKind(parent);
    var n := r.CreateNode(parent, isDir, name);
    code := 0;
  }

  /** Where open looks, and for which name. */
  ghost function OpenParent(fs: Fs, path: string): Option<Ino>
    requires Lists(fs)
  {
    if Components(path) == [] then Some(fs.root) else ParentOf(fs, Components(path))
  }

  function OpenName(path: string): string {
    if Components(path) == [] then "" else Last(Components(path))
  }

  lemma ParentIn(fs: Fs, path: string)
    requires Lists(fs) && OpenParent(fs, path).Some?
    ensures OpenParent(fs, path).value in fs.nodes
  {
    if Components(path) != [] {
      LastLookup(fs, Components(path));
    }
  }

  ghost function Opened(fs: Fs, path: string): Option<Ino>
    requires Lists(fs)
  {
    var d := OpenParent(fs, path);
    if path == "/" then Some(fs.root)
    else if d.None? then None
    else ParentIn(fs, path); Lookup(fs, d.value, OpenName(path))
  }

  /** Opening a path with at least one component opens what the path leads to. */
  lemma OpenedIsResolved(fs: Fs, path: string)
    requires Lists(fs) && Components(path) != []
    ensures Opened(fs, path) == Resolve(fs, fs.root, Components(path))
  {
    hide Resolve, Lookup, IsKid;
    var p := Components(path);
    if ParentOf(fs, p).Some? {
      LastLookup(fs, p);
    } else {
      assert p == Init(p) + [Last(p)];
      ResolveConcat(fs, fs.root, Init(p), [Last(p)]);
    }
  }

  ghost predicate CreatedIn(fs: Fs, d: Ino, x: Ino, name: string, after: Fs) {
    d in fs.nodes && x !in fs.nodes && after == Add(fs, d, x, false, name)
  }

  /** The first component of a path, as open takes it when there is no parent to look in. */
  method FirstWord(path: string) returns (name: string, p: nat)
    ensures p <= |path|
    ensures Components(path) == [] ==> name == "" && p == |path|
    ensures Components(path) != [] && p == |path| ==> Components(path) == [name]
  {
    hide Components;
    assert path[0..] == path;
    EndOfPath(path);
    p := SkipSlashes(path, 0);
    name := "";
    if p < |path| {
      MoreComponents(path, p);
      name, p := TakeWord(path, p);
    }
  }

  lemma InitOfOne(p: Path)
    ensures |p| == 1 ==> Init(p) == []
  {
  }

  /** Only a path of several components can fail to have a parent. */
  lemma NoParent(fs: Fs, path: string)
    requires Lists(fs) && ParentOf(fs, Components(path)) == None
    ensures |Components(path)| != 1
  {
    hide Components;
    ResolveNothing(fs);
    InitOfOne(Components(path));
  }

  /** Where open looks. Without a parent it falls back to the root, unless components are left over. */
  method OpenTarget(r: RamFs, path: string) returns (parent: Node?, name: string)
    requires r.Valid()
    ensures var d := OpenParent(r.fs, path);
            if d.None? then parent == null
            else parent != null && r.Owns(parent) && d == Some(parent.ino) && name == OpenName(path)
  {
    hide Resolve, Components, Lookup, IsKid, Lists;
    ValidLists(r);
    RootOwned(r);
    parent, name := LookupParent(r, path);
    if parent == null {
      NoParent(r.fs, path);
      parent := r.root;
      var p;
      name, p := FirstWord(path);
      if p < |path| {
        return null, "";
      }
    }
  }

  method OpenIn(r: RamFs, parent: Node, name: string, create: bool) returns (n: Node?)
    requires r.Valid() && r.Owns(parent)
    modifies r, parent`children
    ensures r.Valid() && Lists(old(r.fs)) && parent.ino in old(r.fs.nodes)
    ensures match Lookup(old(r.fs), parent.ino, name)
            case Some(x) => n != null && n.ino == x && r.Owns(n) && r.fs == old(r.fs)
            case None =>
              if create then n != null && CreatedIn(old(r.fs), parent.ino, n.ino, name, r.fs)
              else n == null && r.fs == old(r.fs)
    ensures var makes := create && Lookup(old(r.fs), parent.ino, name).None?;
            && r.inodeCount == old(r.inodeCount) + (if makes then 1 else 0)
            && r.lost == old(r.lost) + if makes && !old(r.fs).nodes[parent.ino].isDir then 1 else 0
  {
    hide Lookup, IsKid, Add;
    ValidLists(r);
    r.ValidOwns(parent);
    r.OwnedKind(parent);
    n := r.LookupChild(parent, name);
    if n == null && create {
      n := r.CreateNode(parent, false, name);
    }
  }

  /** The path is not found and is to be created. */
  ghost predicate OpenMakes(fs: Fs, path: string, create: bool)
    requires Lists(fs)
  {
    Opened(fs, path).None? && create && OpenParent(fs, path).Some?
  }

  /** Open would create under a node that is no directory. */
  ghost predicate OpenLoses(fs: Fs, path: string, create: bool)
    requires Lists(fs)
  {
    OpenMakes(fs, path, create) && (ParentIn(fs, path); !fs.nodes[OpenParent(fs, path).value].isDir)
  }

  /** What opening a path does to the tree: nothing, unless the path is not found and is to be created. */
  ghost predicate OpenDone(fs: Fs, path: string, create: bool, x: Ino, after: Fs) {
    Lists(fs) &&
    if OpenMakes(fs, path, create)
    then CreatedIn(fs, OpenParent(fs, path).value, x, OpenName(path), after)
    else after == fs
  }

  /** The node opened, if any: the one the path leads to, or with the create flag a new one, which under a
      file is counted and lost. Of the paths with no component "/" is the root, and any other stands for a nameless
      entry of the root. */
  method VfsOpen(r: RamFs, path: string, create: bool) returns (n: Node?)
    requires r.Valid()
    modifies r, r.at.Values
    ensures r.Valid() && Lists(old(r.fs))
    ensures OpenDone(old(r.fs), path, create, if n == null then 0 else n.ino, r.fs)
    ensures var found := Opened(old(r.fs), path);
            if found.Some? then n != null && n.ino == found.value && r.Owns(n)
            else n != null <==> create && OpenParent(old(r.fs), path).Some?
    ensures r.inodeCount == old(r.inodeCount) + if OpenMakes(old(r.fs), path, create) then 1 else 0
    ensures r.lost == old(r.lost) + if OpenLoses(old(r.fs), path, create) then 1 else 0
  {
    hide Resolve, Components, Lookup, IsKid, Add, OpenParent, OpenName, CreatedIn;
    ValidLists(r);
    RootOwned(r);
    if |path| >= 1 && path[0] == '/' && |path| == 1 {
      return r.root;
    }
    var parent, name := OpenTarget(r, path);
    if parent == null {
      return null;
    }
    r.ValidOwns(parent);
    n := OpenIn(r, parent, name, create);
  }

  // ---- what path operations do to every path ----

  /** The new parent is a directory outside the subtree moved. */
  ghost predicate GoodTarget(fs: Fs, from: string, to: string)
    requires Lists(fs)
  {
    var d, x := ParentOf(fs, Components(to)), Resolve(fs, fs.root, Components(from));
    d.Some? && x.Some? && d.value in fs.nodes && fs.nodes[d.value].isDir && !Under(fs, x.value, d.value)
  }

  lemma RenameSetting(fs: Fs, from: string, to: string, after: Fs)
    requires RenameDone(fs, from, to, 0, after) && Tree(fs) && UniqueNames(fs)
    ensures var p, q := Components(from), Components(to);
            var o, d, x := ParentOf(fs, p), ParentOf(fs, q), Resolve(fs, fs.root, p);
            && o.Some? && d.Some? && x.Some? && p != [] && q != []
            && o.value in fs.nodes && d.value in fs.nodes && x.value in fs.nodes && IsKid(fs, o.value, x.value)
            && after == Rename(fs, o.value, x.value, d.value, Last(q))
            && Cut(Last(q)) == Last(q) && Lookup(fs, d.value, Last(q)) == None
  {
    hide Resolve, Components, Lookup, IsKid, Rename;
    var p, q := Components(from), Components(to);
    LastLookup(fs, p);
    LastLookup(fs, q);
    LookupIs(fs, ParentOf(fs, p).value, Last(p));
    ComponentsFit(to);
  }

  /** After a rename everything at or below the old path is at or below the new one, the old path is
      gone, and every other path leads where it led. */
  lemma RenamedPaths(fs: Fs, from: string, to: string, after: Fs, path: string)
    requires RenameDone(fs, from, to, 0, after) && Tree(fs) && UniqueNames(fs) && GoodTarget(fs, from, to)
    ensures Tree(after) && UniqueNames(after) && after.root == fs.root
    ensures var p, q, s := Components(from), Components(to), Components(path);
            Resolve(after, fs.root, s)
            == if q <= s then Resolve(fs, fs.root, p + s[|q|..]) else if p <= s then None else Resolve(fs, fs.root, s)
  {
    hide Resolve, Components, Lookup, IsKid, Rename, UniqueNames;
    RenameSetting(fs, from, to, after);
    var p, q := Components(from), Components(to);
    var o, d, x := ParentOf(fs, p).value, ParentOf(fs, q).value, Resolve(fs, fs.root, p).value;
    RenameGood(fs, o, x, d, Last(q));
    RenameMovesPaths(fs, o, x, d, Last(q), p, q, Components(path));
  }

  /** A rename that succeeds leaves a tree exactly when the new parent is a directory outside the
      subtree moved. */
  lemma RenameKeepsTreeOnlyIf(fs: Fs, from: string, to: string, after: Fs)
    requires RenameDone(fs, from, to, 0, after) && Tree(fs) && UniqueNames(fs)
    ensures Tree(after) <==> GoodTarget(fs, from, to)
  {
    hide Resolve, Components, Lookup, IsKid, Rename, UniqueNames;
    RenameSetting(fs, from, to, after);
    var p, q := Components(from), Components(to);
    RenameKeepsTreeIff(fs, ParentOf(fs, p).value, Resolve(fs, fs.root, p).value, ParentOf(fs, q).value, Last(q));
  }

  /** A rename into a file or into the subtree moved succeeds all the same: everything at or below the old path
      is at no path any more, and every other path leads where it led. */
  lemma BadlyRenamedPaths(fs: Fs, from: string, to: string, after: Fs, path: string)
    requires RenameDone(fs, from, to, 0, after) && Tree(fs) && UniqueNames(fs) && !GoodTarget(fs, from, to)
    ensures Lists(after) && after.root == fs.root
    ensures Resolve(after, fs.root, Components(path))
            == if Components(from) <= Components(path) then None else Resolve(fs, fs.root, Components(path))
  {
    hide Resolve, Components, Lookup, IsKid, Rename, UniqueNames, Under;
    RenameSetting(fs, from, to, after);
    var p, q, s := Components(from), Components(to), Components(path);
    var o, d, x := ParentOf(fs, p).value, ParentOf(fs, q).value, Resolve(fs, fs.root, p).value;
    BadRenameLosesPaths(fs, o, x, d, Last(q), s);
    if Resolve(fs, fs.root, s).Some? {
      UnderIsPrefix(fs, x, p, s);
    }
  }

  /** A path unlinked or removed as a directory is gone, with its node, and nothing else is. */
  lemma RemovedPaths(fs: Fs, gone: string, after: Fs, path: string)
    requires UnlinkPathDone(fs, gone, 0, after) || RmdirPathDone(fs, gone, 0, after)
    requires Tree(fs) && UniqueNames(fs)
    ensures Tree(after) && UniqueNames(after) && after.root == fs.root && |after.nodes| == |fs.nodes| - 1
    ensures Resolve(after, fs.root, Components(path))
            == if Components(path) == Components(gone) then None else Resolve(fs, fs.root, Components(path))
  {
    hide Resolve, Components, Lookup, IsKid, Remove, UniqueNames;
    var p := Components(gone);
    LastLookup(fs, p);
    var d, x := ParentOf(fs, p).value, Resolve(fs, fs.root, p).value;
    LookupIs(fs, d, Last(p));
    RemoveKeepsTree(fs, d, x);
    CountOneLess(fs.nodes, x);
    assert |after.nodes| == |fs.nodes| - 1 by {
      assert after.nodes.Keys == (fs.nodes - {x}).Keys;
      assert |after.nodes| == |after.nodes.Keys| && |fs.nodes - {x}| == |(fs.nodes - {x}).Keys|;
    }
    RemoveLosesOnePath(fs, d, x, p, Components(path));
  }

  /** A path created under a directory, where nothing was, is the one new path. */
  lemma CreatedPaths(fs: Fs, made: string, isDir: bool, x: Ino, after: Fs, path: string)
    requires CreateDone(fs, made, isDir, x, 0, after) && Tree(fs) && UniqueNames(fs)
    requires Resolve(fs, fs.root, Components(made)) == None
    ensures Tree(after) && UniqueNames(after) && after.root == fs.root
    ensures Resolve(after, fs.root, Components(path))
            == if Components(path) == Components(made)
               && fs.nodes[ParentOf(fs, Components(made)).value].isDir then Some(x)
               else Resolve(fs, fs.root, Components(path))
  {
    hide Resolve, Components, Lookup, IsKid, UniqueNames;
    var p := Components(made);
    LastLookup(fs, p);
    ComponentsFit(made);
    var d := ParentOf(fs, p).value;
    AddKeepsTree(fs, d, x, isDir, Last(p));
    AddKeepsNamesIff(fs, d, x, isDir, Last(p));
    assert p == Init(p) + [Last(p)];
    if fs.nodes[d].isDir {
      AddMakesOnePath(fs, d, x, isDir, Last(p), Init(p), Components(path));
    }
  }

  // ---- whole runs ----

  datatype Op =
    | Move(from: string, to: string)
    | Drop(path: string)
    | DropDir(path: string)
    | Make(path: string, isDir: bool)
    | Open(path: string, create: bool)

  /** One operation, with any answer. */
  ghost predicate Step(fs: Fs, op: Op, x: Ino, code: int, after: Fs) {
    match op
    case Move(from, to) => RenameDone(fs, from, to, code, after)
    case Drop(path) => UnlinkPathDone(fs, path, code, after)
    case DropDir(path) => RmdirPathDone(fs, path, code, after)
    case Make(path, isDir) => CreateDone(fs, path, isDir, x, code, after)
    case Open(path, create) => OpenDone(fs, path, create, x, after)
  }

  /** Open creates only what it did not find, so it needs no care. */
  lemma OpenKeepsTree(fs: Fs, path: string, create: bool, x: Ino, after: Fs)
    requires Tree(fs) && UniqueNames(fs) && OpenDone(fs, path, create, x, after)
    ensures Tree(after) && UniqueNames(after)
  {
    hide Resolve, Components, Lookup, IsKid, Add, UniqueNames;
    if after != fs {
      var d, name := OpenParent(fs, path).value, OpenName(path);
      ComponentsFit(path);
      ParentIn(fs, path);
      assert path != "/" && Cut(name) == name;
      AddKeepsTree(fs, d, x, false, name);
      AddKeepsNamesIff(fs, d, x, false, name);
    }
  }

  /** What callers must see to: no move into a file or into the subtree moved, no creation of a name in use. */
  ghost predicate Careful(fs: Fs, op: Op)
    requires Lists(fs)
  {
    && (op.Move? ==> GoodTarget(fs, op.from, op.to))
    && (op.Make? ==> Resolve(fs, fs.root, Components(op.path)) == None)
  }

  /** Each operation, careful or refused, keeps the tree and its unique names. */
  lemma StepKeepsTree(fs: Fs, op: Op, x: Ino, code: int, after: Fs)
    requires Tree(fs) && UniqueNames(fs) && Step(fs, op, x, code, after) && (code == 0 ==> Careful(fs, op))
    ensures Tree(after) && UniqueNames(after)
  {
    hide Resolve, Components, Lookup, IsKid, Rename, Remove, Add, UniqueNames, Tree, Lists, OpenDone;
    if op.Open? {
      OpenKeepsTree(fs, op.path, op.create, x, after);
    } else if code == 0 {
      match op {
        case Move(from, to) => RenamedPaths(fs, from, to, after, from);
        case Drop(path) => RemovedPaths(fs, path, after, path);
        case DropDir(path) => RemovedPaths(fs, path, after, path);
        case Make(path, isDir) => CreatedPaths(fs, path, isDir, x, after, path);
      }
    } else {
      assert after == fs;
    }
  }

  /** A run: the states passed through, one more than the operations. */
  ghost predicate IsRun(states: seq<Fs>, ops: seq<Op>, made: seq<Ino>, codes: seq<int>) {
    && |states| == |ops| + 1 && |made| == |codes| == |ops|
    && forall i :: 0 <= i < |ops| ==>
         Lists(states[i]) && Step(states[i], ops[i], made[i], codes[i], states[i + 1])
         && (codes[i] == 0 ==> Careful(states[i], ops[i]))
  }

  /** Every run of careful operations stays a tree with unique names. */
  lemma {:induction false} RunKeepsTree(states: seq<Fs>, ops: seq<Op>, made: seq<Ino>, codes: seq<int>, n: nat)
    requires IsRun(states, ops, made, codes) && n <= |ops| && Tree(states[0]) && UniqueNames(states[0])
    ensures Tree(states[n]) && UniqueNames(states[n])
  {
    hide Tree, UniqueNames, Step, Careful;
    if n > 0 {
      RunKeepsTree(states, ops, made, codes, n - 1);
      StepKeepsTree(states[n - 1], ops[n - 1], made[n - 1], codes[n - 1], states[n]);
    }
  }

  // ---- runs without care ----

  /** A root with one entry "a". */
  function OneEntry(isDir: bool): Fs {
    Fs(map[1 := Entry(true, "", None, [2]), 2 := Entry(isDir, "a", Some(1), [])], 1)
  }

  lemma OneEntryOk(isDir: bool)
    ensures Tree(OneEntry(isDir)) && UniqueNames(OneEntry(isDir))
    ensures Resolve(OneEntry(isDir), 1, ["a"]) == Some(2) && Lookup(OneEntry(isDir), 1, "a") == Some(2)
  {
    var fs := OneEntry(isDir);
    assert IsKid(fs, 1, 2);
    assert Up(fs, 1, 0) == Some(1) && Up(fs, 2, 1) == Up(fs, 1, 0);
    assert Find(fs, [2], "a") == Some(2);
    assert ["a"][1..] == [];
    assert Resolve(fs, 2, []) == Some(2);
  }

  lemma PathsOfA()
    ensures Components("/a") == ["a"] && Components("/a/b") == ["a", "b"]
  {
    assert "/a/b"[1..] == "a/b" && "a/b"[1..] == "/b" && "/b"[1..] == "b" && "b"[1..] == "";
    assert "/a"[1..] == "a" && "a"[1..] == "";
    assert WordLength("a/b") == 1 && WordLength("a") == 1 && WordLength("b") == 1;
    assert "a/b"[..1] == "a";
    assert "a"[..1] == "a" && "b"[..1] == "b" && Components("") == [];
    assert Components("b") == ["b"] && Components("a") == ["a"];
    assert Components("/b") == ["b"] && Components("a/b") == ["a"] + ["b"];
  }

  /** Renaming /a to /a/b answers 0 and leaves no tree. */
  lemma RenameIntoItself() returns (after: Fs)
    ensures Tree(OneEntry(true)) && RenameDone(OneEntry(true), "/a", "/a/b", 0, after) && !Tree(after)
  {
    var fs := OneEntry(true);
    OneEntryOk(true);
    PathsOfA();
    assert Init(["a"]) == [] && Init(["a", "b"]) == ["a"];
    after := Rename(fs, 1, 2, 2, "b");
    assert Lookup(fs, 2, "b") == None;
    assert ParentOf(fs, ["a", "b"]) == Some(2);
    LastLookup(fs, ["a", "b"]);
    assert Up(fs, 2, 0) == Some(2);
    assert IsKid(fs, 1, 2);
    RenameKeepsTreeIff(fs, 1, 2, 2, "b");
  }

  /** Creating /a a second time answers 0 and leaves two entries of one name. */
  lemma CreateTwice() returns (after: Fs)
    ensures Tree(OneEntry(false)) && CreateDone(OneEntry(false), "/a", false, 3, 0, after)
    ensures Tree(after) && !UniqueNames(after)
  {
    var fs := OneEntry(false);
    OneEntryOk(false);
    PathsOfA();
    assert Init(["a"]) == [];
    after := Add(fs, 1, 3, false, "a");
    AddKeepsTree(fs, 1, 3, false, "a");
    AddKeepsNamesIff(fs, 1, 3, false, "a");
  }

  /** Creating /a/b where /a is a file answers 0 and adds nothing to the tree. */
  lemma CreateUnderFile(isDir: bool)
    ensures Tree(OneEntry(false)) && Components("/a/b") != []
    ensures CreateDone(OneEntry(false), "/a/b", isDir, 3, 0, OneEntry(false)) && !InDirectory(OneEntry(false), "/a/b")
  {
    OneEntryOk(false);
    PathsOfA();
    assert Init(["a", "b"]) == ["a"];
  }

  /** A root with two files, "a" and "b". */
  function TwoFiles(): Fs {
    Fs(map[1 := Entry(true, "", None, [2, 3]),
           2 := Entry(false, "a", Some(1), []),
           3 := Entry(false, "b", Some(1), [])], 1)
  }

  lemma TwoFilesKids(d: Ino, x: Ino)
    ensures IsKid(TwoFiles(), d, x) <==> d == 1 && (x == 2 || x == 3)
  {
  }

  lemma TwoFilesLists()
    ensures Lists(TwoFiles())
  {
    hide IsKid;
    forall d, x ensures IsKid(TwoFiles(), d, x) <==> d == 1 && (x == 2 || x == 3) {
      TwoFilesKids(d, x);
    }
  }

  lemma TwoFilesRooted()
    ensures Rooted(TwoFiles())
  {
    var fs := TwoFiles();
    assert Up(fs, 1, 0) == Some(1) && Up(fs, 2, 1) == Up(fs, 1, 0) && Up(fs, 3, 1) == Up(fs, 1, 0);
  }

  lemma TwoFilesFound()
    requires Lists(TwoFiles())
    ensures Lookup(TwoFiles(), 1, "a") == Some(2) && Lookup(TwoFiles(), 1, "b") == Some(3)
            && Lookup(TwoFiles(), 2, "c") == None
  {
    hide Lists;
    var fs := TwoFiles();
    assert Find(fs, [2, 3], "a") == Some(2) && Find(fs, [2, 3][1..], "b") == Some(3) && [2, 3][1..] == [3];
  }

  lemma TwoFilesOk()
    ensures Tree(TwoFiles()) && UniqueNames(TwoFiles()) && IsKid(TwoFiles(), 1, 2) && IsKid(TwoFiles(), 1, 3)
    ensures Lookup(TwoFiles(), 1, "a") == Some(2) && Lookup(TwoFiles(), 1, "b") == Some(3)
            && Lookup(TwoFiles(), 2, "c") == None
  {
    hide IsKid, Lists, Rooted, Lookup;
    TwoFilesLists();
    TwoFilesRooted();
    TwoFilesFound();
    forall d, x ensures IsKid(TwoFiles(), d, x) <==> d == 1 && (x == 2 || x == 3) {
      TwoFilesKids(d, x);
    }
  }

  lemma PathsOfB()
    ensures Components("/b") == ["b"] && Components("/a/c") == ["a", "c"]
  {
    assert "/a/c"[1..] == "a/c" && "a/c"[1..] == "/c" && "/c"[1..] == "c" && "c"[1..] == "";
    assert "/b"[1..] == "b" && "b"[1..] == "";
    assert WordLength("a/c") == 1 && WordLength("b") == 1 && WordLength("c") == 1 && "a/c"[..1] == "a";
    assert "b"[..1] == "b" && "c"[..1] == "c" && Components("") == [];
    assert Components("/c") == Components("c") == ["c"] && Components("a/c") == ["a"] + ["c"];
  }

  /** One name looked up in the root. */
  lemma OneName(fs: Fs, name: string)
    requires Lists(fs)
    ensures Resolve(fs, fs.root, [name]) == Lookup(fs, fs.root, name) && Init([name]) == []
  {
    hide Lookup, IsKid;
    LookupIs(fs, fs.root, name);
    assert [name][1..] == [];
  }

  lemma NotUnderLeaf(fs: Fs)
    requires fs == TwoFiles()
    ensures !Under(fs, 3, 2)
  {
    forall n: nat ensures Up(fs, 2, n) != Some(3) {
      if n > 1 {
        assert Up(fs, 2, n) == Up(fs, 1, n - 1) == None;
      }
    }
  }

  /** Renaming /b to /a/c, where /a is a file, answers 0. The node moved is still in memory, with a chain of
      parents to the root, but at no path. */
  lemma RenameIntoFile() returns (after: Fs)
    ensures Tree(TwoFiles()) && RenameDone(TwoFiles(), "/b", "/a/c", 0, after)
            && after == Rename(TwoFiles(), 1, 3, 2, "c")
    ensures Lists(after) && Rooted(after) && !Tree(after) && after.root == 1 && 3 in after.nodes
    ensures Resolve(after, 1, ["b"]) == None && Resolve(after, 1, ["a", "c"]) == None
  {
    hide Lookup, IsKid, Rename, Under;
    TwoFilesOk();
    PathsOfB();
    var fs := TwoFiles();
    OneName(fs, "a");
    OneName(fs, "b");
    assert Init(["a", "c"]) == ["a"];
    LastLookup(fs, ["a", "c"]);
    after := Rename(fs, 1, 3, 2, "c");
    RenameFacts(fs, 1, 3, 2, "c");
    NotUnderLeaf(fs);
    RenameKeepsTreeIff(fs, 1, 3, 2, "c");
    RenameKeepsRootedIff(fs, 1, 3, 2, "c");
    BadlyRenamedPaths(fs, "/b", "/a/c", after, "/b");
    BadlyRenamedPaths(fs, "/b", "/a/c", after, "/a/c");
  }

  /** Unlinking /a after that answers 0 and frees the node that b's parent pointer leads to. */
  lemma UnlinkOrphans() returns (moved: Fs, after: Fs)
    ensures RenameDone(TwoFiles(), "/b", "/a/c", 0, moved) && UnlinkPathDone(moved, "/a", 0, after)
    ensures 3 in after.nodes && Parent(after, 3) == Some(2) && 2 !in after.nodes
  {
    hide Lists, Rooted, Tree, UniqueNames, RenameDone;
    TwoFilesOk();
    PathsOfA();
    moved := RenameIntoFile();
    OneName(moved, "a");
    after := Remove(moved, 1, 2);
    assert Find(moved, [2], "a") == Some(2);
  }
}
