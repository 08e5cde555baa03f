/** Resolving paths in the ramfs tree, and what rename does to every path. */
module RamfsPaths {
  import opened Wrappers
  import opened RamfsTree
  import opened RamfsMoves

  type Path = seq<string>

  /** The length of the leading part with no slash. */
  function WordLength(s: string): (n: nat)
    ensures n <= |s| && (n < |s| ==> s[n] == '/') && forall i :: 0 <= i < n ==> s[i] != '/'
  {
    if s == "" || s[0] == '/' then 0 else 1 + WordLength(s[1..])
  }

  /** The components of a path: runs of slashes separate, and every component is cut to 255. */
  function Components(s: string): Path
    decreases |s|
  {
    if s == "" then []
    else if s[0] == '/' then Components(s[1..])
    else [Cut(s[..WordLength(s)])] + Components(s[WordLength(s)..])
  }

  /** Names with a run of slashes before each and after the last. */
  function Spelled(names: Path, gaps: seq<string>): string
    requires |gaps| == |names| + 1
  {
    if names == [] then gaps[0] else gaps[0] + (names[0] + Spelled(names[1..], gaps[1..]))
  }

  predicate Slashes(s: string) {
    forall i :: 0 <= i < |s| ==> s[i] == '/'
  }

  /** A path is spelled with runs of slashes that are empty at most at its two ends. */
  predicate GapsOk(names: Path, gaps: seq<string>) {
    && |gaps| == |names| + 1 && (forall i :: 0 <= i < |gaps| ==> Slashes(gaps[i]))
    && (forall i :: 0 < i < |names| ==> gaps[i] != "")
  }

  predicate IsName(name: string) {
    name != "" && '/' !in name
  }

  lemma {:induction false} SlashesSkipped(gap: string, rest: string)
    requires Slashes(gap)
    ensures Components(gap + rest) == Components(rest)
  {
    if gap == "" {
      assert gap + rest == rest;
    } else {
      assert (gap + rest)[1..] == gap[1..] + rest;
      SlashesSkipped(gap[1..], rest);
    }
  }

  lemma WordIs(name: string, rest: string)
    requires IsName(name) && (rest == "" || rest[0] == '/')
    ensures Components(name + rest) == [Cut(name)] + Components(rest)
  {
    var s, n := name + rest, WordLength(name + rest);
    assert rest != "" ==> s[|name|] == '/';
    assert forall i :: 0 <= i < |name| ==> s[i] == name[i] != '/';
    assert s[..n] == name && s[n..] == rest;
  }

  lemma NoComponents()
    ensures Components("") == []
  {
  }

  /** Names joined by slashes, one or more between any two and any number at either end, are split into those
      names, each cut to its first 255 characters. */
  lemma {:induction false} SplitJoined(names: Path, gaps: seq<string>)
    requires GapsOk(names, gaps) && forall i :: 0 <= i < |names| ==> IsName(names[i])
    ensures var p := Components(Spelled(names, gaps));
            && |p| == |names|
            && forall i :: 0 <= i < |p| ==> p[i] == if |names[i]| <= 255 then names[i] else names[i][..255]
    decreases |names|
  {
    hide Components;
    if names == [] {
      SlashesSkipped(gaps[0], "");
      assert gaps[0] + "" == gaps[0];
      NoComponents();
    } else {
      var rest := Spelled(names[1..], gaps[1..]);
      SplitJoined(names[1..], gaps[1..]);
      SlashesSkipped(gaps[0], names[0] + rest);
      WordIs(names[0], rest);
    }
  }

  /** The node a path leads to. */
  ghost function Resolve(fs: Fs, x: Ino, p: Path): Option<Ino>
    requires Lists(fs) && x in fs.nodes
    decreases |p|
  {
    if p == [] then Some(x)
    else
      var c := Lookup(fs, x, p[0]);
      LookupIs(fs, x, p[0]);
      if c.None? then None else Resolve(fs, c.value, p[1..])
  }

  lemma {:induction false} ResolveIn(fs: Fs, x: Ino, p: Path)
    requires Lists(fs) && x in fs.nodes && Resolve(fs, x, p).Some?
    ensures Resolve(fs, x, p).value in fs.nodes
    decreases |p|
  {
    hide IsKid, Lookup;
    if p != [] {
      LookupIs(fs, x, p[0]);
      ResolveIn(fs, Lookup(fs, x, p[0]).value, p[1..]);
    }
  }

  lemma {:induction false} ResolveConcat(fs: Fs, x: Ino, p: Path, q: Path)
    requires Lists(fs) && x in fs.nodes
    ensures Resolve(fs, x, p).None? ==> Resolve(fs, x, p + q).None?
    ensures Resolve(fs, x, p).Some? ==>
              Resolve(fs, x, p).value in fs.nodes && Resolve(fs, x, p + q) == Resolve(fs, Resolve(fs, x, p).value, q)
    decreases |p|
  {
    hide IsKid, Lookup;
    if p == [] {
      assert p + q == q;
    } else {
      assert (p + q)[1..] == p[1..] + q;
      LookupIs(fs, x, p[0]);
      if Lookup(fs, x, p[0]).Some? {
        ResolveConcat(fs, Lookup(fs, x, p[0]).value, p[1..], q);
      }
    }
  }

  /** One component more. */
  lemma ResolveNext(fs: Fs, x: Ino, p: Path, name: string)
    requires Lists(fs) && x in fs.nodes && Resolve(fs, x, p).Some?
    ensures Resolve(fs, x, p).value in fs.nodes
    ensures Resolve(fs, x, p + [name]) == Lookup(fs, Resolve(fs, x, p).value, name)
  {
    hide IsKid, Lookup;
    ResolveConcat(fs, x, p, [name]);
    var y := Resolve(fs, x, p).value;
    LookupIs(fs, y, name);
    assert [name][1..] == [];
  }

  /** A path of n components leads to a node whose n-th ancestor is where it started. */
  lemma {:induction false} ResolveUp(fs: Fs, x: Ino, p: Path)
    requires Lists(fs) && x in fs.nodes && Resolve(fs, x, p).Some?
    ensures Up(fs, Resolve(fs, x, p).value, |p|) == Some(x) && Resolve(fs, x, p).value in fs.nodes
    decreases |p|
  {
    hide IsKid, Lookup;
    if p != [] {
      LookupIs(fs, x, p[0]);
      var c := Lookup(fs, x, p[0]).value;
      ResolveUp(fs, c, p[1..]);
      UpMore(fs, Resolve(fs, x, p).value, |p| - 1, 1);
      assert Up(fs, x, 0) == Some(x);
      assert Up(fs, c, 1) == Up(fs, x, 0);
    }
  }

  lemma LastStep(fs: Fs, p: Path)
    requires Lists(fs) && p != [] && Resolve(fs, fs.root, p).Some?
    ensures var n, y := |p| - 1, Resolve(fs, fs.root, p).value;
            y in fs.nodes && Parent(fs, y).Some? && Resolve(fs, fs.root, p[..n]) == Parent(fs, y)
            && p[n] == fs.nodes[y].name
  {
    hide IsKid, Lookup, Resolve;
    var n := |p| - 1;
    assert p == p[..n] + [p[n]];
    ResolveConcat(fs, fs.root, p[..n], [p[n]]);
    ResolveNext(fs, fs.root, p[..n], p[n]);
    LookupIs(fs, Resolve(fs, fs.root, p[..n]).value, p[n]);
  }

  /** Two paths to one node are the same path. */
  lemma {:induction false} OnePath(fs: Fs, p: Path, q: Path)
    requires Lists(fs) && Rooted(fs)
    requires Resolve(fs, fs.root, p).Some? && Resolve(fs, fs.root, p) == Resolve(fs, fs.root, q)
    ensures p == q
    decreases |p|
  {
    hide IsKid, Lookup, Resolve;
    var y := Resolve(fs, fs.root, p).value;
    ResolveUp(fs, fs.root, p);
    ResolveUp(fs, fs.root, q);
    if |p| != |q| {
      var a, b := if |p| < |q| then |p| else |q|, if |p| < |q| then |q| else |p|;
      UpMore(fs, y, a, b - a);
      NoCycle(fs, fs.root, b - a);
      assert false;
    } else if p != [] {
      var n := |p| - 1;
      LastStep(fs, p);
      LastStep(fs, q);
      OnePath(fs, p[..n], q[..n]);
      assert p == p[..n] + [p[n]] && q == q[..n] + [q[n]];
    }
  }

  // ---- rename and paths ----

  /** With unique names a lookup is decided by who is in the list. */
  lemma LookupIff(fs: Fs, d: Ino, name: string, c: Ino)
    requires Lists(fs) && UniqueNames(fs) && d in fs.nodes
    ensures Lookup(fs, d, name) == Some(c) <==>
            fs.nodes[d].isDir && IsKid(fs, d, c) && c in fs.nodes && fs.nodes[c].name == name
  {
    hide IsKid, Lookup;
    LookupIs(fs, d, name);
    if !fs.nodes[d].isDir {
      LookupNotDir(fs, d, name);
    }
  }

  /** The setting of a rename that succeeds and moves nothing into itself. */
  ghost predicate CanRename(fs: Fs, o: Ino, x: Ino, d: Ino, name: string) {
    && Tree(fs) && UniqueNames(fs) && IsKid(fs, o, x) && d in fs.nodes && fs.nodes[d].isDir
    && Lookup(fs, d, Cut(name)) == None && !Under(fs, x, d)
  }

  lemma RenameGood(fs: Fs, o: Ino, x: Ino, d: Ino, name: string)
    requires CanRename(fs, o, x, d, name)
    ensures o in fs.nodes && x in fs.nodes
    ensures var fs' := Rename(fs, o, x, d, name);
            Tree(fs') && UniqueNames(fs') && fs'.root == fs.root && fs'.nodes.Keys == fs.nodes.Keys
  {
    RenameKeepsTreeIff(fs, o, x, d, name);
    RenameKeepsNames(fs, o, x, d, name);
  }

  lemma TreeIsLists(fs: Fs)
    requires Tree(fs)
    ensures Lists(fs) && Rooted(fs)
  {
  }

  lemma RenameLookup(fs: Fs, o: Ino, x: Ino, d: Ino, name: string, e: Ino, n: string)
    requires CanRename(fs, o, x, d, name) && e in fs.nodes
    ensures o in fs.nodes && x in fs.nodes && Lists(Rename(fs, o, x, d, name)) && e in Rename(fs, o, x, d, name).nodes
    ensures var fs' := Rename(fs, o, x, d, name);
            Lookup(fs', e, n) == if e == d && n == Cut(name) then Some(x)
                                 else if Lookup(fs, e, n) == Some(x) then None else Lookup(fs, e, n)
  {
    hide IsKid, Lookup, Rename, Tree, UniqueNames;
    RenameGood(fs, o, x, d, name);
    TreeIsLists(fs);
    TreeIsLists(Rename(fs, o, x, d, name));
    RenameKids(fs, o, x, d, name);
    RenameFacts(fs, o, x, d, name);
    var fs' := Rename(fs, o, x, d, name);
    var after, before := Lookup(fs', e, n), Lookup(fs, e, n);
    LookupIff(fs', e, n, x);
    LookupIff(fs, e, n, x);
    if after.Some? {
      LookupIff(fs', e, n, after.value);
      LookupIff(fs, e, n, after.value);
    }
    if before.Some? {
      LookupIff(fs', e, n, before.value);
      LookupIff(fs, e, n, before.value);
    }
  }

  /** A child of a node below x is not x. */
  lemma NotAbove(fs: Fs, x: Ino, y: Ino, c: Ino)
    requires Tree(fs) && y in fs.nodes && Under(fs, x, y) && c in fs.nodes && Parent(fs, c) == Some(y)
    ensures c != x
  {
    if c == x {
      var n: nat :| Up(fs, y, n) == Some(x);
      NoCycle(fs, x, n + 1);
      assert false;
    }
  }

  /** Below the moved node nothing changes. */
  lemma {:induction false} Inside(fs: Fs, o: Ino, x: Ino, d: Ino, name: string, y: Ino, p: Path)
    requires CanRename(fs, o, x, d, name) && y in fs.nodes && Under(fs, x, y)
    ensures o in fs.nodes && x in fs.nodes && Lists(Rename(fs, o, x, d, name)) && y in Rename(fs, o, x, d, name).nodes
    ensures Resolve(Rename(fs, o, x, d, name), y, p) == Resolve(fs, y, p)
    decreases |p|
  {
    hide IsKid, Lookup, Rename, UniqueNames;
    RenameGood(fs, o, x, d, name);
    var fs' := Rename(fs, o, x, d, name);
    if p != [] {
      var c := Lookup(fs, y, p[0]);
      RenameLookup(fs, o, x, d, name, y, p[0]);
      LookupIs(fs, y, p[0]);
      LookupIs(fs', y, p[0]);
      if c.Some? {
        UnderParent(fs, x, c.value);
        NotAbove(fs, x, y, c.value);
        Inside(fs, o, x, d, name, c.value, p[1..]);
      }
    }
  }

  /** The paths of a rename: to the node moved and to where it goes. */
  ghost predicate RenamePaths(fs: Fs, o: Ino, x: Ino, d: Ino, name: string, oldPath: Path, newPath: Path) {
    && CanRename(fs, o, x, d, name) && oldPath != [] && newPath != []
    && Resolve(fs, fs.root, oldPath) == Some(x)
    && Resolve(fs, fs.root, newPath[..|newPath| - 1]) == Some(d) && newPath[|newPath| - 1] == Cut(name)
  }

  /** A path that leads past x leads below it. */
  lemma PastIsUnder(fs: Fs, p: Path, q: Path)
    requires Lists(fs) && p <= q && Resolve(fs, fs.root, q).Some?
    ensures Resolve(fs, fs.root, p).Some? && Under(fs, Resolve(fs, fs.root, p).value, Resolve(fs, fs.root, q).value)
  {
    hide IsKid, Lookup, Resolve;
    assert q == p + q[|p|..];
    ResolveConcat(fs, fs.root, p, q[|p|..]);
    ResolveUp(fs, Resolve(fs, fs.root, p).value, q[|p|..]);
  }

  /** A path to a node outside the moved subtree starts with neither the old path nor the new one. */
  lemma NeitherPrefix(fs: Fs, o: Ino, x: Ino, d: Ino, name: string, oldPath: Path, newPath: Path, p: Path)
    requires RenamePaths(fs, o, x, d, name, oldPath, newPath)
    requires Resolve(fs, fs.root, p).Some? && !Under(fs, x, Resolve(fs, fs.root, p).value)
    ensures !(oldPath <= p) && !(newPath <= p)
  {
    hide IsKid, Lookup, Resolve, UniqueNames;
    var n := |newPath| - 1;
    if oldPath <= p {
      PastIsUnder(fs, oldPath, p);
      assert false;
    }
    if newPath <= p {
      PastIsUnder(fs, newPath, p);
      assert newPath == newPath[..n] + [newPath[n]];
      ResolveNext(fs, fs.root, newPath[..n], newPath[n]);
      assert false;
    }
  }

  /** The walk reaches the new name. */
  lemma Lands(fs: Fs, o: Ino, x: Ino, d: Ino, name: string, oldPath: Path, newPath: Path, p: Path, q: Path)
    requires RenamePaths(fs, o, x, d, name, oldPath, newPath) && q != []
    requires Resolve(fs, fs.root, p) == Some(d) && q[0] == Cut(name)
    ensures newPath <= p + q && (p + q)[|newPath|..] == q[1..]
  {
    hide IsKid, Lookup, Resolve, UniqueNames;
    var n := |newPath| - 1;
    OnePath(fs, p, newPath[..n]);
    assert newPath == p + [q[0]];
    assert p + q == newPath + q[1..];
  }

  lemma PrefixBeyond(a: Path, p: Path, q: Path)
    requires a <= p + q && !(a <= p)
    ensures |a| > |p| && a[..|p|] == p && q != [] && a[|p|] == q[0]
  {
    assert a == (p + q)[..|a|];
    forall k | 0 <= k <= |p| ensures (p + q)[..k] == p[..k] {
    }
  }

  /** A walk that starts with the new path passes through the new parent by the new name. */
  lemma NotLanding(fs: Fs, o: Ino, x: Ino, d: Ino, name: string, oldPath: Path, newPath: Path, p: Path, q: Path)
    requires RenamePaths(fs, o, x, d, name, oldPath, newPath) && q != []
    requires Resolve(fs, fs.root, p).Some? && !Under(fs, x, Resolve(fs, fs.root, p).value)
    requires !(Resolve(fs, fs.root, p) == Some(d) && q[0] == Cut(name))
    requires newPath <= p + q
    ensures p + [q[0]] <= newPath[..|newPath| - 1]
  {
    hide IsKid, Lookup, Resolve, UniqueNames;
    NeitherPrefix(fs, o, x, d, name, oldPath, newPath, p);
    var n := |newPath| - 1;
    assert newPath == (p + q)[..n + 1];
    PrefixBeyond(newPath, p, q);
    assert newPath[..|p|] == p && newPath[|p|] == q[0];
    assert n != |p|;
    assert newPath[..n] == (p + q)[..n];
    assert p + [q[0]] == (p + q)[..|p| + 1];
  }

  /** The walk reaches the old name. */
  lemma Gone(fs: Fs, o: Ino, x: Ino, d: Ino, name: string, oldPath: Path, newPath: Path, p: Path, q: Path)
    requires RenamePaths(fs, o, x, d, name, oldPath, newPath) && q != []
    requires Resolve(fs, fs.root, p).Some? && !Under(fs, x, Resolve(fs, fs.root, p).value)
    requires !(Resolve(fs, fs.root, p) == Some(d) && q[0] == Cut(name))
    requires Resolve(fs, fs.root, p + [q[0]]) == Some(x)
    ensures oldPath <= p + q && !(newPath <= p + q)
  {
    hide IsKid, Lookup, Resolve, UniqueNames;
    OnePath(fs, oldPath, p + [q[0]]);
    assert p + q == oldPath + q[1..];
    if newPath <= p + q {
      NotLanding(fs, o, x, d, name, oldPath, newPath, p, q);
      PastIsUnder(fs, oldPath, newPath[..|newPath| - 1]);
      assert false;
    }
  }

  /** The walk finds nothing. */
  lemma DeadEnd(fs: Fs, o: Ino, x: Ino, d: Ino, name: string, oldPath: Path, newPath: Path, p: Path, q: Path)
    requires RenamePaths(fs, o, x, d, name, oldPath, newPath) && q != []
    requires Resolve(fs, fs.root, p).Some? && !Under(fs, x, Resolve(fs, fs.root, p).value)
    requires !(Resolve(fs, fs.root, p) == Some(d) && q[0] == Cut(name))
    requires Resolve(fs, fs.root, p + [q[0]]) == None
    ensures !(newPath <= p + q) && Resolve(fs, fs.root, p + q) == None
  {
    hide IsKid, Lookup, Resolve, UniqueNames;
    assert p + [q[0]] + q[1..] == p + q;
    ResolveConcat(fs, fs.root, p + [q[0]], q[1..]);
    if newPath <= p + q {
      NotLanding(fs, o, x, d, name, oldPath, newPath, p, q);
      PastIsUnder(fs, p + [q[0]], newPath[..|newPath| - 1]);
      assert false;
    }
  }

  /** The result for one path, once the walk is at y, outside the moved subtree, with q still to go. */
  lemma {:induction false} Outside(fs: Fs, o: Ino, x: Ino, d: Ino, name: string, oldPath: Path, newPath: Path,
                                   p: Path, q: Path)
    requires RenamePaths(fs, o, x, d, name, oldPath, newPath)
    requires Resolve(fs, fs.root, p).Some? && !Under(fs, x, Resolve(fs, fs.root, p).value)
    ensures o in fs.nodes && x in fs.nodes && Lists(Rename(fs, o, x, d, name))
    ensures Resolve(fs, fs.root, p).value in Rename(fs, o, x, d, name).nodes
    ensures var y, all := Resolve(fs, fs.root, p).value, p + q;
            Resolve(Rename(fs, o, x, d, name), y, q)
            == if newPath <= all then Resolve(fs, x, all[|newPath|..])
               else if oldPath <= all then None else Resolve(fs, fs.root, all)
    decreases |q|
  {
    hide IsKid, Lookup, Rename, UniqueNames;
    RenameGood(fs, o, x, d, name);
    ResolveIn(fs, fs.root, p);
    var fs', y := Rename(fs, o, x, d, name), Resolve(fs, fs.root, p).value;
    if q == [] {
      assert p + q == p;
      NeitherPrefix(fs, o, x, d, name, oldPath, newPath, p);
    } else {
      var c := Lookup(fs, y, q[0]);
      RenameLookup(fs, o, x, d, name, y, q[0]);
      LookupIs(fs, y, q[0]);
      ResolveNext(fs, fs.root, p, q[0]);
      if y == d && q[0] == Cut(name) {
        Lands(fs, o, x, d, name, oldPath, newPath, p, q);
        UnderSelf(fs, x);
        Inside(fs, o, x, d, name, x, q[1..]);
      } else if c == Some(x) {
        Gone(fs, o, x, d, name, oldPath, newPath, p, q);
      } else if c == None {
        DeadEnd(fs, o, x, d, name, oldPath, newPath, p, q);
      } else {
        if Under(fs, x, c.value) {
          ParentUnder(fs, x, c.value);
          assert false;
        }
        Outside(fs, o, x, d, name, oldPath, newPath, p + [q[0]], q[1..]);
        assert p + [q[0]] + q[1..] == p + q;
      }
    }
  }

  /** After a rename the old path and everything below it is gone, everything below it is found below
      the new path, and every other path leads where it led. */
  lemma RenameMovesPaths(fs: Fs, o: Ino, x: Ino, d: Ino, name: string, oldPath: Path, newPath: Path, q: Path)
    requires RenamePaths(fs, o, x, d, name, oldPath, newPath)
    ensures o in fs.nodes && x in fs.nodes && Lists(Rename(fs, o, x, d, name))
    ensures var fs' := Rename(fs, o, x, d, name);
            fs'.root == fs.root && fs.root in fs'.nodes &&
            Resolve(fs', fs.root, q)
            == if newPath <= q then Resolve(fs, fs.root, oldPath + q[|newPath|..])
               else if oldPath <= q then None else Resolve(fs, fs.root, q)
  {
    hide IsKid, Lookup, Rename, UniqueNames;
    RenameGood(fs, o, x, d, name);
    if Under(fs, x, fs.root) {
      ParentUnder(fs, x, fs.root);
      assert false;
    } else {
      Outside(fs, o, x, d, name, oldPath, newPath, [], q);
      assert [] + q == q;
      if newPath <= q {
        ResolveConcat(fs, fs.root, oldPath, q[|newPath|..]);
      }
    }
  }

  // ---- moves to a bad target ----

  /** The setting of a rename that succeeds though the new parent is a file or in the subtree moved. */
  ghost predicate BadRename(fs: Fs, o: Ino, x: Ino, d: Ino, name: string) {
    && Tree(fs) && UniqueNames(fs) && IsKid(fs, o, x) && d in fs.nodes
    && Lookup(fs, d, Cut(name)) == None && (!fs.nodes[d].isDir || Under(fs, x, d))
  }

  lemma BadRenameLists(fs: Fs, o: Ino, x: Ino, d: Ino, name: string)
    requires BadRename(fs, o, x, d, name)
    ensures o in fs.nodes && x in fs.nodes
    ensures var fs' := Rename(fs, o, x, d, name);
            Lists(fs') && UniqueNames(fs') && fs'.root == fs.root && fs'.nodes.Keys == fs.nodes.Keys
  {
    hide Rename, Lookup;
    RenameFacts(fs, o, x, d, name);
    RenameKeepsNames(fs, o, x, d, name);
  }

  /** A lookup in a node outside the subtree moved finds what it found, but for the node moved. */
  lemma BadRenameLookup(fs: Fs, o: Ino, x: Ino, d: Ino, name: string, e: Ino, n: string)
    requires BadRename(fs, o, x, d, name) && e in fs.nodes && !Under(fs, x, e)
    ensures o in fs.nodes && x in fs.nodes && Lists(Rename(fs, o, x, d, name)) && e in Rename(fs, o, x, d, name).nodes
    ensures Lookup(Rename(fs, o, x, d, name), e, n) == if Lookup(fs, e, n) == Some(x) then None else Lookup(fs, e, n)
  {
    hide IsKid, Lookup, Rename, UniqueNames, Tree;
    BadRenameLists(fs, o, x, d, name);
    TreeIsLists(fs);
    RenameKids(fs, o, x, d, name);
    RenameFacts(fs, o, x, d, name);
    UnderSelf(fs, x);
    var fs' := Rename(fs, o, x, d, name);
    var after, before := Lookup(fs', e, n), Lookup(fs, e, n);
    if after.Some? {
      LookupIff(fs', e, n, after.value);
      LookupIff(fs, e, n, after.value);
    }
    if before.Some? {
      LookupIff(fs', e, n, before.value);
      LookupIff(fs, e, n, before.value);
    }
  }

  /** Outside the subtree moved a step leads out of it only to the node moved. */
  lemma StaysOutside(fs: Fs, x: Ino, e: Ino, n: string)
    requires Lists(fs) && e in fs.nodes && !Under(fs, x, e) && Lookup(fs, e, n).Some? && Lookup(fs, e, n) != Some(x)
    ensures Lookup(fs, e, n).value in fs.nodes && !Under(fs, x, Lookup(fs, e, n).value)
  {
    hide IsKid, Lookup;
    LookupIs(fs, e, n);
    var c := Lookup(fs, e, n).value;
    if Under(fs, x, c) {
      ParentUnder(fs, x, c);
      assert false;
    }
  }

  lemma {:induction false} BadRenameFrom(fs: Fs, o: Ino, x: Ino, d: Ino, name: string, e: Ino, p: Path)
    requires BadRename(fs, o, x, d, name) && e in fs.nodes && !Under(fs, x, e)
    ensures o in fs.nodes && x in fs.nodes && Lists(Rename(fs, o, x, d, name)) && e in Rename(fs, o, x, d, name).nodes
    ensures var was := Resolve(fs, e, p);
            Resolve(Rename(fs, o, x, d, name), e, p) == if was.Some? && Under(fs, x, was.value) then None else was
    decreases |p|
  {
    hide IsKid, Lookup, Rename, UniqueNames, Tree;
    BadRenameLists(fs, o, x, d, name);
    TreeIsLists(fs);
    if p != [] {
      var c := Lookup(fs, e, p[0]);
      BadRenameLookup(fs, o, x, d, name, e, p[0]);
      LookupIs(fs, e, p[0]);
      if c == Some(x) {
        if Resolve(fs, x, p[1..]).Some? {
          ResolveUp(fs, x, p[1..]);
        }
      } else if c.Some? {
        StaysOutside(fs, x, e, p[0]);
        BadRenameFrom(fs, o, x, d, name, c.value, p[1..]);
      }
    }
  }

  /** Moved into a file or into its own subtree, a node loses every path to it and to what is below it; every
      other path leads where it led. Into a file, the chain of parents still reaches the root. */
  lemma BadRenameLosesPaths(fs: Fs, o: Ino, x: Ino, d: Ino, name: string, p: Path)
    requires BadRename(fs, o, x, d, name)
    ensures o in fs.nodes && x in fs.nodes && Lists(Rename(fs, o, x, d, name))
    ensures var fs', was := Rename(fs, o, x, d, name), Resolve(fs, fs.root, p);
            && fs'.root == fs.root && fs.root in fs'.nodes
            && Resolve(fs', fs.root, p) == (if was.Some? && Under(fs, x, was.value) then None else was)
            && (Rooted(fs') <==> !Under(fs, x, d))
  {
    hide IsKid, Lookup, Rename, UniqueNames, Tree;
    BadRenameLists(fs, o, x, d, name);
    TreeIsLists(fs);
    RenameFacts(fs, o, x, d, name);
    if Under(fs, x, fs.root) {
      ParentUnder(fs, x, fs.root);
      assert false;
    } else {
      BadRenameFrom(fs, o, x, d, name, fs.root, p);
      RenameKeepsRootedIff(fs, o, x, d, name);
    }
  }

  lemma RootHasNoParent(fs: Fs)
    requires Lists(fs)
    ensures fs.root in fs.nodes && Parent(fs, fs.root) == None && Resolve(fs, fs.root, []) == Some(fs.root)
  {
  }

  /** The paths below a node are those that start with its own. */
  lemma {:induction false} UnderIsPrefix(fs: Fs, x: Ino, p: Path, q: Path)
    requires Lists(fs) && Rooted(fs) && Resolve(fs, fs.root, p) == Some(x) && Resolve(fs, fs.root, q).Some?
    ensures Under(fs, x, Resolve(fs, fs.root, q).value) <==> p <= q
    decreases |q|
  {
    hide IsKid, Lookup, Resolve, Rooted;
    var y := Resolve(fs, fs.root, q).value;
    if p <= q {
      PastIsUnder(fs, p, q);
    } else if Under(fs, x, y) {
      if y == x {
        OnePath(fs, p, q);
      } else {
        ParentUnder(fs, x, y);
        if q == [] {
          RootHasNoParent(fs);
          assert false;
        } else {
          LastStep(fs, q);
          UnderIsPrefix(fs, x, p, q[..|q| - 1]);
        }
      }
    }
  }

  // ---- creation, removal and paths ----

  lemma AddLookup(fs: Fs, d: Ino, x: Ino, isDir: bool, name: string, e: Ino, n: string)
    requires Tree(fs) && UniqueNames(fs) && d in fs.nodes && fs.nodes[d].isDir && x !in fs.nodes
    requires Lookup(fs, d, Cut(name)) == None && (e in fs.nodes || e == x)
    ensures var fs' := Add(fs, d, x, isDir, name);
            Tree(fs') && e in fs'.nodes &&
            Lookup(fs', e, n) == if e == x then None else if e == d && n == Cut(name) then Some(x) else Lookup(fs, e, n)
  {
    hide IsKid, Lookup, Tree, UniqueNames;
    TreeIsLists(fs);
    AddKeepsTree(fs, d, x, isDir, name);
    AddKeepsNamesIff(fs, d, x, isDir, name);
    AddFacts(fs, d, x, isDir, name);
    var fs' := Add(fs, d, x, isDir, name);
    TreeIsLists(fs');
    var after := Lookup(fs', e, n);
    LookupIff(fs', e, n, x);
    if after.Some? {
      LookupIff(fs', e, n, after.value);
      if IsKid(fs, e, after.value) {
        IsKidIn(fs, e, after.value);
      }
    }
    if e != x {
      var before := Lookup(fs, e, n);
      if after.Some? {
        LookupIff(fs, e, n, after.value);
      }
      if before.Some? {
        LookupIff(fs', e, n, before.value);
        LookupIff(fs, e, n, before.value);
      }
    }
  }

  lemma AddKeepsNodes(fs: Fs, d: Ino, x: Ino, isDir: bool, name: string)
    requires d in fs.nodes && x !in fs.nodes
    ensures fs.nodes.Keys <= Add(fs, d, x, isDir, name).nodes.Keys && Add(fs, d, x, isDir, name).root == fs.root
  {
  }

  lemma {:induction false} AddResolve(fs: Fs, d: Ino, x: Ino, isDir: bool, name: string, p: Path, q: Path)
    requires Tree(fs) && UniqueNames(fs) && d in fs.nodes && fs.nodes[d].isDir && x !in fs.nodes
    requires Lookup(fs, d, Cut(name)) == None && Resolve(fs, fs.root, p).Some?
             && Resolve(fs, fs.root, p).value in fs.nodes
    ensures Tree(Add(fs, d, x, isDir, name)) && Resolve(fs, fs.root, p).value in Add(fs, d, x, isDir, name).nodes
    ensures Resolve(Add(fs, d, x, isDir, name), Resolve(fs, fs.root, p).value, q)
            == if |q| > 0 && Resolve(fs, fs.root, (p + q)[..|p + q| - 1]) == Some(d)
               && q[|q| - 1] == Cut(name) then Some(x)
               else Resolve(fs, fs.root, p + q)
    decreases |q|
  {
    hide IsKid, Lookup, Add, UniqueNames;
    var y, fs' := Resolve(fs, fs.root, p).value, Add(fs, d, x, isDir, name);
    AddKeepsTree(fs, d, x, isDir, name);
    AddKeepsNodes(fs, d, x, isDir, name);
    ResolveConcat(fs, fs.root, p, q);
    if q != [] {
      AddLookup(fs, d, x, isDir, name, y, q[0]);
      LookupIs(fs, y, q[0]);
      LookupIs(fs', y, q[0]);
      ResolveNext(fs, fs.root, p, q[0]);
      var n := |q| - 1;
      assert (p + q)[..|p + q| - 1] == p + q[..n];
      ResolveConcat(fs, fs.root, p, q[..n]);
      var c := Lookup(fs, y, q[0]);
      if c.Some? {
        AddResolve(fs, d, x, isDir, name, p + [q[0]], q[1..]);
        assert p + [q[0]] + q[1..] == p + q;
        assert n == 0 ==> q[..n] == [];
      } else if n > 0 {
        assert q[..n] == [q[0]] + q[1..n];
        assert Resolve(fs, y, q[..n]) == None;
        if y == d && q[0] == Cut(name) {
          AddLookup(fs, d, x, isDir, name, x, q[1]);
        }
      } else {
        assert q[..n] == [] && q[1..] == [];
      }
    }
  }

  /** Creation under a free name adds one path and leaves every other where it led. */
  lemma AddMakesOnePath(fs: Fs, d: Ino, x: Ino, isDir: bool, name: string, parent: Path, q: Path)
    requires Tree(fs) && UniqueNames(fs) && d in fs.nodes && fs.nodes[d].isDir && x !in fs.nodes
    requires Lookup(fs, d, Cut(name)) == None && Resolve(fs, fs.root, parent) == Some(d)
    ensures var fs' := Add(fs, d, x, isDir, name);
            Tree(fs') && fs'.root == fs.root &&
            Resolve(fs', fs.root, q) == if q == parent + [Cut(name)] then Some(x) else Resolve(fs, fs.root, q)
  {
    hide IsKid, Lookup, Add, UniqueNames;
    AddKeepsNodes(fs, d, x, isDir, name);
    AddResolve(fs, d, x, isDir, name, [], q);
    assert [] + q == q;
    if |q| > 0 {
      var n := |q| - 1;
      assert q == q[..n] + [q[n]];
      if Resolve(fs, fs.root, q[..n]) == Some(d) && q[n] == Cut(name) {
        OnePath(fs, q[..n], parent);
      } else {
        assert q != parent + [Cut(name)] by {
          assert (parent + [Cut(name)])[..|parent|] == parent;
        }
      }
    }
  }

  lemma RemoveLookup(fs: Fs, d: Ino, x: Ino, e: Ino, n: string)
    requires Tree(fs) && UniqueNames(fs) && IsKid(fs, d, x) && Kids(fs, x) == [] && e in fs.nodes && e != x
    ensures var fs' := Remove(fs, d, x);
            Tree(fs') && e in fs'.nodes &&
            Lookup(fs', e, n) == if Lookup(fs, e, n) == Some(x) then None else Lookup(fs, e, n)
  {
    hide IsKid, Lookup, Tree, UniqueNames, Remove;
    TreeIsLists(fs);
    IsKidIn(fs, d, x);
    RemoveKeepsTree(fs, d, x);
    RemoveFacts(fs, d, x);
    var fs' := Remove(fs, d, x);
    TreeIsLists(fs');
    var before, after := Lookup(fs, e, n), Lookup(fs', e, n);
    if after.Some? {
      LookupIff(fs', e, n, after.value);
      LookupIff(fs, e, n, after.value);
    }
    if before.Some? {
      LookupIff(fs', e, n, before.value);
      LookupIff(fs, e, n, before.value);
    }
  }

  lemma NothingBelow(fs: Fs, x: Ino, name: string)
    requires Lists(fs) && x in fs.nodes && Kids(fs, x) == []
    ensures Lookup(fs, x, name) == None
  {
  }

  lemma {:induction false} RemoveResolve(fs: Fs, d: Ino, x: Ino, y: Ino, q: Path)
    requires Tree(fs) && UniqueNames(fs) && IsKid(fs, d, x) && Kids(fs, x) == [] && y in fs.nodes && y != x
    ensures Tree(Remove(fs, d, x)) && y in Remove(fs, d, x).nodes
    ensures Resolve(Remove(fs, d, x), y, q) == if Resolve(fs, y, q) == Some(x) then None else Resolve(fs, y, q)
    decreases |q|
  {
    hide IsKid, Lookup, UniqueNames, Remove;
    IsKidIn(fs, d, x);
    RemoveKeepsTree(fs, d, x);
    if q != [] {
      RemoveLookup(fs, d, x, y, q[0]);
      LookupIs(fs, y, q[0]);
      var c := Lookup(fs, y, q[0]);
      if c == Some(x) {
        if q[1..] != [] {
          NothingBelow(fs, x, q[1]);
        }
      } else if c.Some? {
        RemoveResolve(fs, d, x, c.value, q[1..]);
      }
    }
  }

  /** Unlink and rmdir take away one path and leave every other where it led. */
  lemma RemoveLosesOnePath(fs: Fs, d: Ino, x: Ino, p: Path, q: Path)
    requires Tree(fs) && UniqueNames(fs) && IsKid(fs, d, x) && Kids(fs, x) == [] && Resolve(fs, fs.root, p) == Some(x)
    ensures var fs' := Remove(fs, d, x);
            Tree(fs') && fs'.root == fs.root &&
            Resolve(fs', fs.root, q) == if q == p then None else Resolve(fs, fs.root, q)
  {
    hide IsKid, Lookup, UniqueNames, Remove, Resolve;
    IsKidIn(fs, d, x);
    RemoveFacts(fs, d, x);
    assert x != fs.root;
    RemoveResolve(fs, d, x, fs.root, q);
    if Resolve(fs, fs.root, q) == Some(x) {
      OnePath(fs, p, q);
    }
  }
}
