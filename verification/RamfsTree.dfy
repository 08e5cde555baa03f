/** The tree of ramfs nodes, as a value: what kernel/fs/ramfs.c keeps in parent, children and
    sibling pointers. A node is known by its inode number. */
module RamfsTree {

  import opened Wrappers

  type Ino = int

  /** A node's fields, with its child list written out. */
  datatype Entry = Entry(isDir: bool, name: string, parent: Option<Ino>, kids: seq<Ino>)

  /** The nodes in the tree. */
  datatype Fs = Fs(nodes: map<Ino, Entry>, root: Ino)

  const MAX_NAME := 255

  /** Names are cut to fit a node. */
  function Cut(name: string): (r: string)
    ensures |r| <= MAX_NAME && r <= name && (|name| <= MAX_NAME ==> r == name)
  {
    if |name| <= MAX_NAME then name else name[..MAX_NAME]
  }

  function Kids(fs: Fs, d: Ino): seq<Ino>
    requires d in fs.nodes
  {
    fs.nodes[d].kids
  }

  function Parent(fs: Fs, x: Ino): Option<Ino>
    requires x in fs.nodes
  {
    fs.nodes[x].parent
  }

  predicate IsKid(fs: Fs, d: Ino, x: Ino) {
    d in fs.nodes && x in Kids(fs, d)
  }

  // ---- what a well-formed tree is ----

  predicate Distinct(s: seq<Ino>) {
    forall i, j :: 0 <= i < j < |s| ==> s[i] != s[j]
  }

  /** Child lists hold no node twice, and a node is in the list of its parent and in no other. */
  ghost predicate Lists(fs: Fs) {
    && fs.root in fs.nodes && Parent(fs, fs.root) == None
    && (forall x :: x in fs.nodes && x != fs.root ==> Parent(fs, x).Some? && IsKid(fs, Parent(fs, x).value, x))
    && (forall d, x :: IsKid(fs, d, x) ==> x in fs.nodes && Parent(fs, x) == Some(d))
    && (forall d :: d in fs.nodes ==> Distinct(Kids(fs, d)))
  }

  /** The n-th ancestor. */
  function Up(fs: Fs, x: Ino, n: nat): Option<Ino>
    decreases n
  {
    if n == 0 then Some(x)
    else if x in fs.nodes && Parent(fs, x).Some? then Up(fs, Parent(fs, x).value, n - 1)
    else None
  }

  /** x is in the subtree of a. */
  ghost predicate Under(fs: Fs, a: Ino, x: Ino) {
    exists n: nat :: Up(fs, x, n) == Some(a)
  }

  ghost predicate Rooted(fs: Fs) {
    forall x :: x in fs.nodes ==> Under(fs, fs.root, x)
  }

  ghost predicate OnlyDirsHaveKids(fs: Fs) {
    forall x :: x in fs.nodes && !fs.nodes[x].isDir ==> Kids(fs, x) == []
  }

  ghost predicate Tree(fs: Fs) {
    Lists(fs) && Rooted(fs) && OnlyDirsHaveKids(fs) && fs.nodes[fs.root].isDir
  }

  ghost predicate UniqueNames(fs: Fs)
    requires Lists(fs)
  {
    forall d, x, y :: IsKid(fs, d, x) && IsKid(fs, d, y) && x != y ==> fs.nodes[x].name != fs.nodes[y].name
  }

  // ---- operations ----

  /** The first child of that name. */
  function Find(fs: Fs, kids: seq<Ino>, name: string): Option<Ino>
    requires forall i :: 0 <= i < |kids| ==> kids[i] in fs.nodes
  {
    if kids == [] then None
    else if fs.nodes[kids[0]].name == name then Some(kids[0])
    else Find(fs, kids[1..], name)
  }

  function Lookup(fs: Fs, d: Ino, name: string): Option<Ino>
    requires d in fs.nodes && forall x :: IsKid(fs, d, x) ==> x in fs.nodes
  {
    assert forall i :: 0 <= i < |Kids(fs, d)| ==> IsKid(fs, d, Kids(fs, d)[i]);
    if fs.nodes[d].isDir then Find(fs, Kids(fs, d), name) else None
  }

  /** A new node at the head of a directory; a parent that is no directory gets none. */
  function Add(fs: Fs, d: Ino, x: Ino, isDir: bool, name: string): Fs
    requires d in fs.nodes && x !in fs.nodes
  {
    if fs.nodes[d].isDir then
      fs.(nodes := fs.nodes[d := fs.nodes[d].(kids := [x] + Kids(fs, d))]
                           [x := Entry(isDir, Cut(name), Some(d), [])])
    else fs
  }

  function Without(s: seq<Ino>, x: Ino): seq<Ino> {
    if s == [] then [] else if s[0] == x then s[1..] else [s[0]] + Without(s[1..], x)
  }

  /** Takes a node out of its directory's list. */
  function Unlist(fs: Fs, d: Ino, x: Ino): Fs
    requires d in fs.nodes
  {
    fs.(nodes := fs.nodes[d := fs.nodes[d].(kids := Without(Kids(fs, d), x))])
  }

  /** Moves a node to the head of another directory, or of its own, under a new name. */
  function Rename(fs: Fs, oldDir: Ino, x: Ino, newDir: Ino, name: string): Fs
    requires oldDir in fs.nodes && x in fs.nodes && newDir in fs.nodes
  {
    var a := Unlist(fs, oldDir, x);
    var b := a.nodes[newDir := a.nodes[newDir].(kids := [x] + Kids(a, newDir))];
    fs.(nodes := b[x := b[x].(parent := Some(newDir), name := Cut(name))])
  }

  function Remove(fs: Fs, d: Ino, x: Ino): Fs
    requires d in fs.nodes
  {
    var a := Unlist(fs, d, x);
    a.(nodes := a.nodes - {x})
  }

  // ---- child lists ----

  lemma {:induction false} WithoutHas(s: seq<Ino>, x: Ino, y: Ino)
    requires Distinct(s)
    ensures y in Without(s, x) <==> y in s && y != x
  {
    if s != [] {
      WithoutHas(s[1..], x, y);
      assert s == [s[0]] + s[1..];
      assert forall i :: 0 < i < |s| ==> s[0] != s[i];
    }
  }

  lemma {:induction false} WithoutDistinct(s: seq<Ino>, x: Ino)
    requires Distinct(s)
    ensures Distinct(Without(s, x))
  {
    if s != [] && s[0] != x {
      var r := Without(s[1..], x);
      WithoutDistinct(s[1..], x);
      WithoutHas(s[1..], x, s[0]);
      assert Without(s, x) == [s[0]] + r;
      assert s[0] !in r;
    }
  }

  /** Taking a node out at its place. */
  lemma {:induction false} WithoutAt(s: seq<Ino>, k: nat)
    requires Distinct(s) && k < |s|
    ensures Without(s, s[k]) == s[..k] + s[k + 1..]
  {
    if k > 0 {
      assert s[0] != s[k];
      var t := s[1..];
      assert Distinct(t) by {
        assert forall i, j :: 0 <= i < j < |t| ==> t[i] == s[i + 1] && t[j] == s[j + 1];
      }
      WithoutAt(t, k - 1);
      assert t[..k - 1] == s[1..k] && t[k..] == s[k + 1..];
      assert [s[0]] + s[1..k] == s[..k];
    }
  }

  lemma {:induction false} FindIs(fs: Fs, kids: seq<Ino>, name: string)
    requires forall i :: 0 <= i < |kids| ==> kids[i] in fs.nodes
    ensures var r := Find(fs, kids, name);
            if r.Some? then r.value in kids && fs.nodes[r.value].name == name
            else forall i :: 0 <= i < |kids| ==> fs.nodes[kids[i]].name != name
  {
    if kids != [] {
      FindIs(fs, kids[1..], name);
    }
  }

  /** What a lookup finds is a child of that name; if it finds none, there is none. */
  lemma LookupIs(fs: Fs, d: Ino, name: string)
    requires Lists(fs) && d in fs.nodes
    ensures var r := Lookup(fs, d, name);
            if r.Some? then IsKid(fs, d, r.value) && r.value in fs.nodes && fs.nodes[r.value].name == name
            else fs.nodes[d].isDir ==> forall x :: IsKid(fs, d, x) ==> fs.nodes[x].name != name
  {
    if fs.nodes[d].isDir {
      assert forall i :: 0 <= i < |Kids(fs, d)| ==> IsKid(fs, d, Kids(fs, d)[i]);
      FindIs(fs, Kids(fs, d), name);
    }
  }

  // ---- ancestors ----

  lemma {:induction false} UpMore(fs: Fs, x: Ino, n: nat, m: nat)
    requires Up(fs, x, n).Some?
    ensures Up(fs, x, n + m) == Up(fs, Up(fs, x, n).value, m)
    decreases n
  {
    if n > 0 {
      UpMore(fs, Parent(fs, x).value, n - 1, m);
    }
  }

  lemma UnderParent(fs: Fs, a: Ino, x: Ino)
    requires x in fs.nodes && Parent(fs, x).Some? && Under(fs, a, Parent(fs, x).value)
    ensures Under(fs, a, x)
  {
    var n: nat :| Up(fs, Parent(fs, x).value, n) == Some(a);
    assert Up(fs, x, n + 1) == Some(a);
  }

  lemma ParentUnder(fs: Fs, a: Ino, x: Ino)
    requires Under(fs, a, x) && x != a
    ensures x in fs.nodes && Parent(fs, x).Some? && Under(fs, a, Parent(fs, x).value)
  {
    var n: nat :| Up(fs, x, n) == Some(a);
    assert Up(fs, Parent(fs, x).value, n - 1) == Some(a);
  }

  lemma UnderSelf(fs: Fs, x: Ino)
    ensures Under(fs, x, x)
  {
    assert Up(fs, x, 0) == Some(x);
  }

  lemma AroundAgain(fs: Fs, x: Ino, n: nat, k: nat)
    requires Up(fs, x, n) == Some(x)
    ensures Up(fs, x, n + k) == Up(fs, x, k)
  {
    UpMore(fs, x, n, k);
  }

  /** Nothing is below itself. */
  lemma NoCycle(fs: Fs, x: Ino, n: nat)
    requires Lists(fs) && Rooted(fs) && x in fs.nodes && n > 0
    ensures Up(fs, x, n) != Some(x)
  {
    if Up(fs, x, n) == Some(x) {
      var k: nat :| Up(fs, x, k) == Some(fs.root);
      AroundAgain(fs, x, n, k);
      UpMore(fs, x, k, n);
      assert false;
    }
  }

  // ---- adding ----

  /** What creation does to the child lists and to the old nodes. */
  lemma AddFacts(fs: Fs, d: Ino, x: Ino, isDir: bool, name: string)
    requires Lists(fs) && d in fs.nodes && x !in fs.nodes && fs.nodes[d].isDir
    ensures var fs' := Add(fs, d, x, isDir, name);
            && (forall e, y :: IsKid(fs', e, y) <==> IsKid(fs, e, y) || (e == d && y == x))
            && fs'.nodes.Keys == fs.nodes.Keys + {x} && fs'.root == fs.root
            && (forall y :: y in fs.nodes ==>
                  Parent(fs', y) == Parent(fs, y) && fs'.nodes[y].name == fs.nodes[y].name
                  && fs'.nodes[y].isDir == fs.nodes[y].isDir)
  {
    var fs' := Add(fs, d, x, isDir, name);
    forall e, y ensures IsKid(fs', e, y) <==> IsKid(fs, e, y) || (e == d && y == x) {
      if e == d {
        assert y in [x] + Kids(fs, d) <==> y == x || y in Kids(fs, d);
      }
    }
  }

  lemma AddDistinct(fs: Fs, d: Ino, x: Ino, isDir: bool, name: string)
    requires Lists(fs) && d in fs.nodes && x !in fs.nodes && fs.nodes[d].isDir
    ensures var fs' := Add(fs, d, x, isDir, name);
            forall e :: e in fs'.nodes ==> Distinct(Kids(fs', e))
  {
    var fs' := Add(fs, d, x, isDir, name);
    forall e | e in fs'.nodes ensures Distinct(Kids(fs', e)) {
      if e == d {
        assert !IsKid(fs, d, x);
      }
    }
  }

  lemma AddKeepsLists(fs: Fs, d: Ino, x: Ino, isDir: bool, name: string)
    requires Lists(fs) && d in fs.nodes && x !in fs.nodes
    ensures Lists(Add(fs, d, x, isDir, name))
  {
    hide IsKid, Distinct;
    var fs' := Add(fs, d, x, isDir, name);
    if fs.nodes[d].isDir {
      AddFacts(fs, d, x, isDir, name);
      AddDistinct(fs, d, x, isDir, name);
    }
  }

  lemma {:induction false} UpAfterAdd(fs: Fs, d: Ino, x: Ino, isDir: bool, name: string, y: Ino, n: nat)
    requires Lists(fs) && d in fs.nodes && x !in fs.nodes && y in fs.nodes
    ensures Up(Add(fs, d, x, isDir, name), y, n) == Up(fs, y, n)
    decreases n
  {
    if n > 0 && y != fs.root {
      UpAfterAdd(fs, d, x, isDir, name, Parent(fs, y).value, n - 1);
    }
  }

  /** Creating a file or a directory keeps the tree, whatever the parent is. */
  lemma AddKeepsTree(fs: Fs, d: Ino, x: Ino, isDir: bool, name: string)
    requires Tree(fs) && d in fs.nodes && x !in fs.nodes
    ensures Tree(Add(fs, d, x, isDir, name))
  {
    var fs' := Add(fs, d, x, isDir, name);
    AddKeepsLists(fs, d, x, isDir, name);
    forall y | y in fs'.nodes ensures Under(fs', fs'.root, y) {
      var z := if y == x then d else y;
      var n: nat :| Up(fs, z, n) == Some(fs.root);
      UpAfterAdd(fs, d, x, isDir, name, z, n);
      assert Under(fs', fs'.root, z);
      if y == x {
        UnderParent(fs', fs'.root, x);
      }
    }
  }

  lemma LookupNotDir(fs: Fs, d: Ino, name: string)
    requires Lists(fs) && d in fs.nodes && !fs.nodes[d].isDir
    ensures Lookup(fs, d, name) == None
  {
  }

  /** Creation does not look for the name first: sibling names stay unique exactly when it was free. */
  lemma AddKeepsNamesIff(fs: Fs, d: Ino, x: Ino, isDir: bool, name: string)
    requires Lists(fs) && UniqueNames(fs) && d in fs.nodes && x !in fs.nodes
    ensures Lists(Add(fs, d, x, isDir, name))
    ensures UniqueNames(Add(fs, d, x, isDir, name)) <==> Lookup(fs, d, Cut(name)) == None
  {
    hide IsKid, Lookup, Distinct;
    var fs', r := Add(fs, d, x, isDir, name), Lookup(fs, d, Cut(name));
    AddKeepsLists(fs, d, x, isDir, name);
    LookupIs(fs, d, Cut(name));
    if fs.nodes[d].isDir {
      AddFacts(fs, d, x, isDir, name);
      if r.Some? {
        assert IsKid(fs', d, x) && IsKid(fs', d, r.value) && r.value != x;
      }
    } else {
      assert r == None by {
        LookupNotDir(fs, d, Cut(name));
      }
    }
  }

  lemma FoundInDir(fs: Fs, d: Ino, name: string)
    requires Lists(fs) && d in fs.nodes && Lookup(fs, d, name).Some?
    ensures fs.nodes[d].isDir
  {
  }
}
