/** The ramfs nodes and the operations of kernel/fs/ramfs.c on them. */
module Ramfs {
  import opened Wrappers
  import opened Bytes
  import opened RamfsTree
  import opened RamfsMoves
  import opened RamfsLinks

  const ENOENT := -2
  const EEXIST := -17
  const ENOTDIR := -20
  const EISDIR := -21
  const ENOTEMPTY := -39

  const BLOCK := 4096

  /** A node's data, size and data_capacity fields. No tree operation touches them. */
  class FileBody {
    var data: array?<byte>
    var size: nat
    var capacity: nat

    ghost predicate Valid()
      reads this, data
    {
      size <= capacity && if data == null then capacity == 0 else data.Length == capacity
    }

    ghost function Content(): seq<byte>
      requires Valid()
      reads this, data
    {
      if data == null then [] else data[..size]
    }

    constructor ()
      ensures Valid() && data == null && Content() == []
    {
      data, size, capacity := null, 0, 0;
    }

    /** Up to count bytes from pos on; none at or past the end. */
    method Read(count: nat, pos: nat) returns (out: seq<byte>)
      requires Valid()
      ensures out == if pos >= size then [] else Content()[pos..if count < size - pos then pos + count else size]
    {
      out := [];
      if data == null || pos >= size {
        return;
      }
      var available := size - pos;
      var toRead := if count < available then count else available;
      for i := 0 to toRead
        invariant out == data[pos..pos + i]
      {
        out := out + [data[pos + i]];
      }
    }

    /** Replaces the buffer by a larger one of whole blocks, with the same content. */
    method Grow(newSize: nat)
      requires Valid() && newSize > capacity
      modifies this
      ensures Valid() && size == old(size) && capacity >= newSize && data != null && fresh(data)
      ensures Content() == old(Content())
    {
      ghost var was := Content();
      var newCapacity := (newSize + BLOCK - 1) / BLOCK * BLOCK;
      var newData := new byte[newCapacity];
      if data != null {
        for i := 0 to size
          invariant data == old(data) && unchanged(this) && data.Length == capacity
          invariant data[..] == old(data[..]) && newData[..i] == was[..i]
          modifies newData
        {
          newData[i] := data[i];
        }
      }
      data := newData;
      capacity := newCapacity;
    }

    /** Puts buf at pos, growing the buffer if need be. Bytes between the old end and pos are whatever the
        memory held. */
    method Write(buf: seq<byte>, pos: nat) returns (n: nat)
      requires Valid()
      modifies this, data
      ensures Valid() && n == |buf|
      ensures size == if pos + n > old(size) then pos + n else old(size)
      ensures Content()[pos..pos + n] == buf
      ensures forall i :: 0 <= i < old(size) && !(pos <= i < pos + n) ==> Content()[i] == old(Content())[i]
    {
      var newSize := pos + |buf|;
      ghost var was := Content();
      if newSize > capacity {
        Grow(newSize);
      }
      assert Content() == was;
      if data != null {
        for i := 0 to |buf|
          invariant data != null && data.Length == capacity && pos + |buf| <= capacity && size == old(size) <= capacity
          invariant forall j :: 0 <= j < i ==> data[pos + j] == buf[j]
          invariant forall j :: 0 <= j < size && !(pos <= j < pos + i) ==> data[j] == was[j]
          modifies data
        {
          data[pos + i] := buf[i];
        }
      }
      n := |buf|;
      if newSize > size {
        size := newSize;
      }
      ghost var now := Content()[pos..pos + n];
      forall j | 0 <= j < n ensures now[j] == buf[j] {
        assert now[j] == data[pos + j];
      }
    }
  }

  class Node {
    const ino: Ino
    const isDir: bool
    const body: FileBody
    var name: string
    var parent: Node?
    var children: Node?
    var sibling: Node?

    constructor (ino: Ino, isDir: bool, name: string)
      ensures this.ino == ino && this.isDir == isDir && this.name == name
      ensures parent == children == sibling == null
      ensures fresh(body) && body.Valid() && body.Content() == []
    {
      this.ino, this.isDir, this.name := ino, isDir, name;
      parent, children, sibling := null, null, null;
      body := new FileBody();
    }
  }

  /** Compares two strings character by character. */
  method SameString(a: string, b: string) returns (same: bool)
    ensures same == (a == b)
  {
    var i := 0;
    while i < |a| && i < |b| && a[i] == b[i]
      invariant i <= |a| && i <= |b| && a[..i] == b[..i]
    {
      i := i + 1;
    }
    same := i == |a| && i == |b|;
  }

  /** Copies a name into a node, at most 255 characters of it. */
  method CopyName(name: string) returns (copy: string)
    ensures copy == Cut(name)
  {
    var i := 0;
    copy := "";
    while i < MAX_NAME && i < |name|
      invariant i <= |name| && i <= MAX_NAME && copy == name[..i]
    {
      copy := copy + [name[i]];
      i := i + 1;
    }
  }

  /** What unlink answers and does. */
  ghost predicate UnlinkDone(fs: Fs, d: Ino, name: string, code: int, after: Fs) {
    Lists(fs) && d in fs.nodes &&
    match Lookup(fs, d, name)
    case None => code == ENOENT && after == fs
    case Some(x) =>
      x in fs.nodes &&
      if fs.nodes[x].isDir then code == EISDIR && after == fs
      else code == 0 && after == Remove(fs, d, x)
  }

  /** The file to be unlinked, if there is one, has no children. */
  ghost predicate Childless(fs: Fs, d: Ino, name: string) {
    Lists(fs) && d in fs.nodes &&
    match Lookup(fs, d, name)
    case None => true
    case Some(x) => x in fs.nodes && (fs.nodes[x].isDir || Kids(fs, x) == [])
  }

  /** What rmdir answers and does. */
  ghost predicate RmdirDone(fs: Fs, d: Ino, name: string, code: int, after: Fs) {
    Lists(fs) && d in fs.nodes &&
    match Lookup(fs, d, name)
    case None => code == ENOENT && after == fs
    case Some(x) =>
      x in fs.nodes &&
      if !fs.nodes[x].isDir then code == ENOTDIR && after == fs
      else if Kids(fs, x) != [] then code == ENOTEMPTY && after == fs
      else code == 0 && after == Remove(fs, d, x)
  }

  /** No other node's parent, first or next pointer leads to x, and x is in no list. */
  ghost predicate Unreferenced(fs: Fs, first: Links, next: Links, x: Ino) {
    && (forall e :: !IsKid(fs, e, x))
    && (forall y :: y in fs.nodes && y != x ==> Parent(fs, y) != Some(x))
    && (forall y :: y in first ==> first[y] != Some(x))
    && (forall y :: y in next && y != x ==> next[y] != Some(x))
  }

  /** An unlisted node without children is not referred to. */
  lemma NoneRefer(was: Fs, fs: Fs, first: Links, next: Links, d: Ino, x: Ino)
    requires Lists(was) && IsKid(was, d, x) && x in was.nodes && Kids(was, x) == [] && fs == Unlist(was, d, x)
    requires Linked(fs, first, next) && fs.root in next && next[fs.root] == None
    ensures Unreferenced(fs, first, next, x)
  {
    hide Distinct, Without;
    UnlistFacts(was, d, x);
    forall y | y in fs.nodes && y != x ensures Parent(fs, y) != Some(x) {
      assert y != fs.root ==> IsKid(was, Parent(was, y).value, y);
    }
    forall y | y in first ensures first[y] != Some(x) {
      assert Kids(fs, y) != [] ==> IsKid(fs, y, Kids(fs, y)[0]);
    }
    forall y | y in next && y != x ensures next[y] != Some(x) {
      if y != fs.root {
        var p := Parent(was, y).value;
        assert IsKid(fs, p, y);
        var k: nat :| k < |Kids(fs, p)| && Kids(fs, p)[k] == y;
        assert KidAt(fs, p, k) == y;
        assert k + 1 < |Kids(fs, p)| ==> IsKid(fs, p, Kids(fs, p)[k + 1]);
      }
    }
  }

  lemma KidIsNotRoot(fs: Fs, d: Ino, x: Ino)
    requires Lists(fs) && IsKid(fs, d, x)
    ensures x != fs.root
  {
  }

  lemma KidsKept(fs: Fs, d: Ino, x: Ino)
    requires Lists(fs) && IsKid(fs, d, x) && d != x && x in fs.nodes
    ensures x in Unlist(fs, d, x).nodes && Kids(Unlist(fs, d, x), x) == Kids(fs, x)
  {
  }

  function Moved(e: Entry, p: Ino, name: string): Entry {
    Entry(e.isDir, name, Some(p), e.kids)
  }

  lemma MovedTwice(fs: Fs, i: Ino, p: Ino, name: string, first: Links, next: Links)
    requires i in fs.nodes && Linked(fs, first, next)
    ensures var a := With(fs, i, fs.nodes[i].(parent := Some(p)));
            i in a.nodes && With(a, i, a.nodes[i].(name := name)) == With(fs, i, Moved(fs.nodes[i], p, name))
    ensures Linked(With(fs, i, Moved(fs.nodes[i], p, name)), first, next)
  {
    SameKidsLinks(fs, With(fs, i, Moved(fs.nodes[i], p, name)), first, next);
  }

  lemma SameCount(fs: Fs, i: Ino, e: Entry)
    requires i in fs.nodes
    ensures With(fs, i, e).nodes.Keys == fs.nodes.Keys && |With(fs, i, e).nodes| == |fs.nodes|
  {
    var m := With(fs, i, e).nodes;
    assert m.Keys == fs.nodes.Keys;
    assert |m| == |m.Keys| && |fs.nodes| == |fs.nodes.Keys|;
  }

  lemma CountOneLess(m: map<Ino, Entry>, i: Ino)
    requires i in m
    ensures |m - {i}| == |m| - 1
  {
    assert (m - {i}).Keys == m.Keys - {i};
    assert |m - {i}| == |(m - {i}).Keys| && |m| == |m.Keys|;
  }

  lemma CountOneMore(m: map<Ino, Entry>, i: Ino, e: Entry)
    requires i !in m
    ensures |m[i := e]| == |m| + 1
  {
    assert m[i := e].Keys == m.Keys + {i};
    assert |m[i := e]| == |m[i := e].Keys|;
  }

  lemma NewIsNoKid(fs: Fs, i: Ino, n: Entry)
    requires Lists(fs) && i !in fs.nodes && n.kids == []
    ensures forall e :: !IsKid(With(fs, i, n), e, i)
  {
    var fs' := With(fs, i, n);
    forall e ensures !IsKid(fs', e, i) {
      assert !IsKid(fs, e, i);
    }
  }

  lemma AddIsPush(fs: Fs, d: Ino, i: Ino, isDir: bool, name: string)
    requires d in fs.nodes && i !in fs.nodes && fs.nodes[d].isDir && |name| <= MAX_NAME
    ensures Push(With(fs, i, Entry(isDir, name, Some(d), [])), d, i) == Add(fs, d, i, isDir, name)
  {
  }

  lemma FindStep(fs: Fs, s: seq<Ino>, k: nat, name: string)
    requires k < |s| && forall i :: 0 <= i < |s| ==> s[i] in fs.nodes
    ensures Find(fs, s[k..], name) == if fs.nodes[s[k]].name == name then Some(s[k]) else Find(fs, s[k + 1..], name)
  {
    assert s[k..][1..] == s[k + 1..];
  }

  lemma FindEnd(fs: Fs, s: seq<Ino>, k: nat, name: string)
    requires k <= |s| && forall i :: 0 <= i < |s| ==> s[i] in fs.nodes
    ensures k == |s| ==> Find(fs, s[k..], name) == None
  {
  }

  /** The tree of a file system just mounted. */
  lemma RootAlone(fs: Fs, first: Links, next: Links)
    requires fs == Fs(map[1 := Entry(true, "", None, [])], 1) && first == map[1 := None] && next == map[1 := None]
    ensures Lists(fs) && Tree(fs) && UniqueNames(fs) && Linked(fs, first, next)
  {
    assert Up(fs, 1, 0) == Some(1);
  }

  class RamFs {
    const root: Node
    var nextIno: Ino
    var inodeCount: nat

    // The tree these nodes form, its links, which node has which number, and how many nodes were
    // allocated under a parent that is no directory, so that nothing refers to them.
    ghost var fs: Fs
    ghost var first: Links
    ghost var next: Links
    ghost var at: map<Ino, Node>
    ghost var lost: nat

    /** The node of a number, or null. */
    ghost function Ptr(x: Option<Ino>): Node?
      reads this
    {
      if x.Some? && x.value in at then at[x.value] else null
    }

    ghost predicate Owns(n: Node)
      reads this
    {
      n.ino in at && at[n.ino] == n
    }

    ghost predicate Known(x: Option<Ino>)
      reads this
    {
      x.Some? ==> x.value in at
    }

    /** A node's fields are what the tree and the links say. */
    ghost predicate Holds(x: Ino)
      reads this, at.Values
    {
      && x in at && x in fs.nodes && x in first && x in next
      && var n := at[x];
         && n.ino == x && n.isDir == fs.nodes[x].isDir && n.name == fs.nodes[x].name
         && Known(Parent(fs, x)) && Known(first[x]) && Known(next[x])
         && n.parent == Ptr(Parent(fs, x)) && n.children == Ptr(first[x]) && n.sibling == Ptr(next[x])
    }

    ghost predicate AllHold()
      reads this, at.Values
    {
      && at.Keys == fs.nodes.Keys && (forall x :: x in at ==> Holds(x) && x < nextIno)
      && fs.root in at && at[fs.root] == root
      && inodeCount == |fs.nodes| + lost
    }

    /** The nodes' pointers are those of the tree's child lists. */
    ghost predicate Shape()
      reads this, at.Values
    {
      AllHold() && Linked(fs, first, next)
    }

    ghost predicate Valid()
      reads this, at.Values
    {
      Lists(fs) && Shape() && fs.root in next && next[fs.root] == None
    }

    /** A mounted file system: the root alone. */
    constructor Mount()
      ensures Valid() && fresh(at.Values) && Tree(fs) && UniqueNames(fs)
      ensures fs.nodes.Keys == {fs.root} && lost == 0
    {
      hide Lists, Tree, UniqueNames, Linked;
      var r := new Node(1, true, "");
      root := r;
      nextIno, inodeCount := 2, 1;
      fs := Fs(map[1 := Entry(true, "", None, [])], 1);
      first, next, at, lost := map[1 := None], map[1 := None], map[1 := r], 0;
      new;
      RootAlone(fs, first, next);
    }

    /** A directory's first pointer. */
    lemma DirNode(d: Ino)
      requires Valid() && d in at
      ensures d in fs.nodes && at[d].ino == d && at[d].isDir == fs.nodes[d].isDir
      ensures at[d].children == Ptr(Nth(Kids(fs, d), 0))
      ensures forall i :: 0 <= i < |Kids(fs, d)| ==> IsKid(fs, d, Kids(fs, d)[i]) && Kids(fs, d)[i] in at
    {
      assert Holds(d);
      forall i | 0 <= i < |Kids(fs, d)| ensures IsKid(fs, d, Kids(fs, d)[i]) && Kids(fs, d)[i] in at {
        assert IsKid(fs, d, Kids(fs, d)[i]);
      }
    }

    /** A child's name and next pointer. */
    lemma KidNode(d: Ino, k: nat)
      requires Valid() && d in fs.nodes && k < |Kids(fs, d)|
      ensures var y := Kids(fs, d)[k];
              y in at && y in fs.nodes && at[y].ino == y && at[y].name == fs.nodes[y].name
              && at[y].sibling == Ptr(Nth(Kids(fs, d), k + 1))
    {
      var y := KidAt(fs, d, k);
      assert IsKid(fs, d, y);
      assert Holds(y);
      assert next[y] == Nth(Kids(fs, d), k + 1);
    }

    lemma LookupFacts(d: Ino, name: string)
      requires Valid() && d in at
      ensures d in fs.nodes && forall x :: IsKid(fs, d, x) ==> x in fs.nodes
      ensures Lookup(fs, d, name) == (if fs.nodes[d].isDir then Find(fs, Kids(fs, d), name) else None)
      ensures Lookup(fs, d, name).Some? ==>
                IsKid(fs, d, Lookup(fs, d, name).value) && Lookup(fs, d, name).value in at
                && at[Lookup(fs, d, name).value].ino == Lookup(fs, d, name).value
    {
      LookupIs(fs, d, name);
      if Lookup(fs, d, name).Some? {
        assert Holds(Lookup(fs, d, name).value);
      }
    }

    /** The first child of that name, walking the sibling list. */
    method LookupChild(dir: Node, name: string) returns (r: Node?)
      requires Valid() && Owns(dir)
      ensures Lookup(fs, dir.ino, name) == if r == null then None else Some(r.ino)
      ensures r != null ==> Owns(r) && IsKid(fs, dir.ino, r.ino)
    {
      hide Valid, Holds, Linked, Lists, Find, IsKid;
      DirNode(dir.ino);
      LookupFacts(dir.ino, name);
      if !dir.isDir {
        return null;
      }
      ghost var s := Kids(fs, dir.ino);
      r := dir.children;
      ghost var k := 0;
      while r != null
        invariant k <= |s| && r == Ptr(Nth(s, k))
        invariant Find(fs, s, name) == Find(fs, s[k..], name)
        decreases |s| - k
      {
        KidNode(dir.ino, k);
        FindStep(fs, s, k, name);
        var same := SameString(r.name, name);
        if same {
          return;
        }
        r := r.sibling;
        k := k + 1;
      }
      FindEnd(fs, s, k, name);
    }

    // Single pointer updates.

    method SetFirst(d: Node, m: Node?, ghost v: Option<Ino>)
      requires AllHold() && Owns(d) && m == Ptr(v) && Known(v)
      modifies d`children, this`first
      ensures AllHold() && first == old(first)[d.ino := v]
    {
      d.children := m;
      first := first[d.ino := v];
      forall y | y in at ensures Holds(y) {
        assert old(Holds(y));
      }
    }

    method SetNext(x: Node, m: Node?, ghost v: Option<Ino>)
      requires AllHold() && Owns(x) && m == Ptr(v) && Known(v)
      modifies x`sibling, this`next
      ensures AllHold() && next == old(next)[x.ino := v]
    {
      x.sibling := m;
      next := next[x.ino := v];
      forall y | y in at ensures Holds(y) {
        assert old(Holds(y));
      }
    }

    /** The child lists change in the ghost tree only. */
    ghost method SetKids(fs': Fs)
      requires AllHold() && fs'.nodes.Keys == fs.nodes.Keys && fs'.root == fs.root
      requires forall y :: y in fs.nodes ==> fs'.nodes[y] == fs.nodes[y].(kids := Kids(fs', y))
      modifies this`fs
      ensures AllHold() && fs == fs'
    {
      fs := fs';
      assert forall y :: y in at ==> old(Holds(y));
    }

    lemma HeldRoot()
      requires AllHold()
      ensures fs.root in next
    {
      assert Holds(fs.root);
    }

    lemma HeldLinks(n: Node)
      requires AllHold() && Owns(n)
      ensures n.ino in fs.nodes && n.ino in first && n.ino in next
      ensures n.children == Ptr(first[n.ino]) && n.sibling == Ptr(next[n.ino])
      ensures Known(first[n.ino]) && Known(next[n.ino])
    {
      assert Holds(n.ino);
    }

    /** Links a node that is in no list at the head of a directory's. */
    method PushChild(dir: Node, x: Node)
      requires Shape() && Owns(dir) && Owns(x) && forall e :: !IsKid(fs, e, x.ino)
      modifies this`fs, this`first, this`next, dir`children, x`sibling
      ensures Shape() && fs == Push(old(fs), dir.ino, x.ino)
      ensures fs.root != x.ino ==> fs.root in next && old(fs.root in next) && next[fs.root] == old(next[fs.root])
    {
      hide Linked, IsKid, Holds, AllHold;
      ghost var d, i := dir.ino, x.ino;
      HeldLinks(dir);
      HeldLinks(x);
      HeldRoot();
      PushLinks(fs, first, next, d, i);
      ghost var v := first[d];
      SetNext(x, dir.children, v);
      SetFirst(dir, x, Some(i));
      SetKids(Push(fs, d, i));
    }

    /** The j-th child, before the k-th, points to the next, which is the k-th only if j + 1 is k. */
    ghost predicate Before(s: seq<Ino>, j: nat, k: nat)
      requires j < k < |s|
      reads this, at.Values
    {
      && s[j] in at && s[j + 1] in at && s[k] in at && at[s[j]].ino == s[j]
      && at[s[j]].sibling == at[s[j + 1]] && (at[s[j + 1]] == at[s[k]] <==> j + 1 == k)
    }

    lemma ValidDistinct(d: Ino, j: nat, k: nat)
      requires Valid() && d in fs.nodes && j <= k < |Kids(fs, d)|
      ensures Kids(fs, d)[j] == Kids(fs, d)[k] ==> j == k
    {
    }

    lemma BeforeHolds(d: Ino, j: nat, k: nat)
      requires Valid() && d in fs.nodes && j < k < |Kids(fs, d)|
      ensures Before(Kids(fs, d), j, k)
    {
      hide Linked, Lists, AllHold;
      KidNode(d, j);
      KidNode(d, j + 1);
      KidNode(d, k);
      ValidDistinct(d, j + 1, k);
    }

    /** A child's place in the list, and the links once it is bypassed. */
    lemma CutFacts(d: Ino, i: Ino) returns (k: nat)
      requires Valid() && IsKid(fs, d, i)
      ensures d in fs.nodes && i in fs.nodes && k < |Kids(fs, d)| && Kids(fs, d)[k] == i && i in next && d in first
      ensures Linked(Unlist(fs, d, i), SkipFirst(first, next, d, Kids(fs, d), k), SkipNext(next, Kids(fs, d), k))
    {
      hide AllHold;
      k :| k < |Kids(fs, d)| && Kids(fs, d)[k] == i;
      ListsApart(fs);
      SkipLinks(fs, first, next, d, k);
    }

    lemma NotRoot(d: Ino, k: nat)
      requires Valid() && d in fs.nodes && k < |Kids(fs, d)|
      ensures forall j :: 0 <= j < |Kids(fs, d)| ==> Kids(fs, d)[j] != fs.root
    {
      hide Linked, AllHold;
      forall j | 0 <= j < |Kids(fs, d)| ensures Kids(fs, d)[j] != fs.root {
        assert IsKid(fs, d, Kids(fs, d)[j]);
      }
    }

    /** Which pointer leads to the k-th child. */
    lemma CutStart(d: Ino, k: nat)
      requires Valid() && d in fs.nodes && k < |Kids(fs, d)|
      ensures d in at && Kids(fs, d)[0] in at && at[d].children == at[Kids(fs, d)[0]]
      ensures Kids(fs, d)[k] in at && (at[Kids(fs, d)[0]] == at[Kids(fs, d)[k]] <==> k == 0)
    {
      hide Linked, Lists, Holds;
      DirNode(d);
      KidNode(d, 0);
      KidNode(d, k);
      ValidDistinct(d, 0, k);
    }

    /** The list after a node is taken out differs in that directory's children only. */
    lemma UnlistSame(d: Ino, i: Ino)
      requires Valid() && IsKid(fs, d, i)
      ensures var fs' := Unlist(fs, d, i);
              fs'.nodes.Keys == fs.nodes.Keys && fs'.root == fs.root
              && forall y :: y in fs.nodes ==> fs'.nodes[y] == fs.nodes[y].(kids := Kids(fs', y))
    {
      hide Linked, AllHold;
    }

    /** The pointer that leads to the k-th child leads past it. */
    method Bypass(dir: Node, x: Node, ghost k: nat)
      requires Valid() && Owns(dir) && Owns(x) && dir.ino in fs.nodes && dir.ino in first && x.ino in next
      requires k < |Kids(fs, dir.ino)| && Kids(fs, dir.ino)[k] == x.ino
      modifies this`first, this`next, at.Values
      ensures AllHold() && x.ino in next
      ensures first == SkipFirst(old(first), old(next), dir.ino, Kids(fs, dir.ino), k)
      ensures next == SkipNext(old(next), Kids(fs, dir.ino), k)
    {
      hide Linked, Lists, IsKid, Holds, AllHold;
      ghost var d, i, s := dir.ino, x.ino, Kids(fs, dir.ino);
      HeldLinks(x);
      CutStart(d, k);
      if dir.children == x {
        SetFirst(dir, x.sibling, next[i]);
      } else {
        var curr := dir.children;
        ghost var j := 0;
        BeforeHolds(d, 0, k);
        while curr != null && curr.sibling != x
          invariant j < k && Before(s, j, k) && curr == at[s[j]]
          decreases k - j
          modifies {}
        {
          BeforeHolds(d, j + 1, k);
          curr := curr.sibling;
          j := j + 1;
        }
        if curr != null {
          SetNext(curr, x.sibling, next[i]);
        }
      }
    }

    /** Takes a node out of its directory's list, by its predecessor's pointer. */
    method CutChild(dir: Node, x: Node)
      requires Valid() && Owns(dir) && Owns(x) && IsKid(fs, dir.ino, x.ino)
      modifies this`fs, this`first, this`next, at.Values
      ensures Shape() && fs == Unlist(old(fs), dir.ino, x.ino) && x.ino in next && x.ino in fs.nodes
      ensures fs.root in next && next[fs.root] == None
    {
      hide Linked, Lists, IsKid, Without, Holds, AllHold;
      ghost var d, i := dir.ino, x.ino;
      ghost var k := CutFacts(d, i);
      UnlistSame(d, i);
      NotRoot(d, k);
      Bypass(dir, x, k);
      SetKids(Unlist(fs, d, i));
    }

    // ---- operations ----

    /** A new node, counted but not yet in the tree. */
    method AllocInode(isDir: bool, name: string) returns (n: Node)
      requires Valid()
      modifies this`nextIno, this`inodeCount, this`lost
      ensures Valid() && fresh(n) && n.ino == old(nextIno) && n.ino !in fs.nodes && n.ino < nextIno
      ensures n.isDir == isDir && n.name == Cut(name) && n.parent == n.children == n.sibling == null
      ensures fresh(n.body) && n.body.Valid() && n.body.Content() == []
      ensures lost == old(lost) + 1 && nextIno == old(nextIno) + 1 && inodeCount == old(inodeCount) + 1
    {
      hide Linked, Lists, IsKid;
      var copy := CopyName(name);
      n := new Node(nextIno, isDir, copy);
      nextIno := nextIno + 1;
      inodeCount := inodeCount + 1;
      lost := lost + 1;
      assert forall y :: y in at ==> old(Holds(y));
    }

    lemma HeldAll()
      requires AllHold()
      ensures at.Keys == fs.nodes.Keys && fs.root in next && fs.root in fs.nodes
    {
      HeldRoot();
    }

    twostate lemma EnteredHold(d: Ino, new n: Node)
      requires old(AllHold()) && d in old(fs.nodes) && n.ino !in old(fs.nodes) && n.ino < nextIno
               && nextIno == old(nextIno)
      requires n.parent == old(Ptr(Some(d))) && n.children == n.sibling == null
      requires fs == With(old(fs), n.ino, Entry(n.isDir, n.name, Some(d), [])) && |fs.nodes| == old(|fs.nodes|) + 1
      requires first == old(first)[n.ino := None] && next == old(next)[n.ino := None] && at == old(at)[n.ino := n]
      requires old(lost) == lost + 1 && inodeCount == old(inodeCount)
      requires forall y :: y in old(at) ==> unchanged(at[y])
      ensures AllHold()
    {
      assert n.ino !in old(at);
      forall y | y in at ensures Holds(y) && y < nextIno {
        if y != n.ino {
          assert old(Holds(y));
        }
      }
    }

    /** The node enters the tree's books, with its parent set, before it is linked. */
    ghost method Enter(d: Ino, n: Node)
      requires Valid() && d in fs.nodes && n.ino !in fs.nodes && n.ino < nextIno && lost > 0
      requires n.parent == Ptr(Some(d)) && n.children == n.sibling == null
      modifies this`fs, this`first, this`next, this`at, this`lost
      ensures Shape() && at == old(at)[n.ino := n] && lost == old(lost) - 1
      ensures fs == With(old(fs), n.ino, Entry(n.isDir, n.name, Some(d), []))
      ensures fs.root in next && next[fs.root] == None && n.ino != fs.root
    {
      hide Linked, Lists, IsKid, AllHold, Holds;
      HeldAll();
      NewLinks(fs, first, next, n.ino, Entry(n.isDir, n.name, Some(d), []));
      CountOneMore(fs.nodes, n.ino, Entry(n.isDir, n.name, Some(d), []));
      fs := With(fs, n.ino, Entry(n.isDir, n.name, Some(d), []));
      first, next, at, lost := first[n.ino := None], next[n.ino := None], at[n.ino := n], lost - 1;
      EnteredHold(d, n);
    }

    lemma OwnedKind(n: Node)
      requires Valid() && Owns(n)
      ensures n.ino in fs.nodes && n.isDir == fs.nodes[n.ino].isDir
    {
      assert Holds(n.ino);
    }

    method SetParentOfNew(dir: Node, child: Node)
      requires Valid() && forall y :: y in at ==> at[y] != child
      modifies child`parent
      ensures Valid() && child.parent == dir
    {
      hide Linked, Lists;
      child.parent := dir;
      assert forall y :: y in at ==> old(Holds(y));
    }

    /** Links a new node into a directory; anything else refuses it. */
    method AddChild(dir: Node, child: Node) returns (code: int)
      requires Valid() && Owns(dir) && child.ino !in fs.nodes && child.ino < nextIno && lost > 0
      requires |child.name| <= MAX_NAME && child.children == child.sibling == null
      requires forall y :: y in at ==> at[y] != child
      modifies this`fs, this`first, this`next, this`at, this`lost, dir`children, child`sibling, child`parent
      ensures Valid() && (code == 0 <==> dir.isDir) && (code != 0 ==> code == ENOTDIR)
      ensures fs == Add(old(fs), dir.ino, child.ino, child.isDir, child.name)
      ensures at == (if dir.isDir then old(at)[child.ino := child] else old(at))
      ensures lost == if dir.isDir then old(lost) - 1 else old(lost)
    {
      hide Linked, IsKid, AllHold, Holds, Lists;
      OwnedKind(dir);
      if !dir.isDir {
        return ENOTDIR;
      }
      ghost var d, i := dir.ino, child.ino;
      NewIsNoKid(fs, i, Entry(child.isDir, child.name, Some(d), []));
      AddKeepsLists(fs, d, i, child.isDir, child.name);
      SetParentOfNew(dir, child);
      Enter(d, child);
      PushChild(dir, child);
      AddIsPush(old(fs), d, i, child.isDir, child.name);
      code := 0;
    }

    lemma NewHere(n: Node)
      requires Valid() && n.ino !in fs.nodes
      ensures forall y :: y in at ==> at[y] != n
    {
      forall y | y in at ensures at[y] != n {
        assert Holds(y);
      }
    }

    /** Create and mkdir: the node is made whatever AddChild says. */
    method CreateNode(dir: Node, isDir: bool, name: string) returns (n: Node)
      requires Valid() && Owns(dir)
      modifies this, dir`children
      ensures Valid() && fresh(n) && n.ino == old(nextIno) && n.ino !in old(fs.nodes) && nextIno == old(nextIno) + 1
      ensures fresh(n.body) && n.body.Valid() && n.body.Content() == []
      ensures fs == Add(old(fs), dir.ino, n.ino, isDir, name) && inodeCount == old(inodeCount) + 1
      ensures at == (if dir.isDir then old(at)[n.ino := n] else old(at))
      ensures lost == if dir.isDir then old(lost) else old(lost) + 1
    {
      hide Valid;
      n := AllocInode(isDir, name);
      NewHere(n);
      var code := AddChild(dir, n);
    }

    method SetParent(x: Node, p: Node)
      requires AllHold() && Owns(x) && Owns(p)
      modifies x`parent, this`fs
      ensures AllHold() && x.ino in old(fs.nodes)
              && fs == With(old(fs), x.ino, old(fs.nodes[x.ino]).(parent := Some(p.ino)))
    {
      HeldLinks(x);
      SameCount(fs, x.ino, fs.nodes[x.ino].(parent := Some(p.ino)));
      x.parent := p;
      fs := With(fs, x.ino, fs.nodes[x.ino].(parent := Some(p.ino)));
      forall y | y in at ensures Holds(y) {
        assert old(Holds(y));
      }
    }

    method SetName(x: Node, name: string)
      requires AllHold() && Owns(x)
      modifies x`name, this`fs
      ensures AllHold() && x.ino in old(fs.nodes) && fs == With(old(fs), x.ino, old(fs.nodes[x.ino]).(name := name))
    {
      HeldLinks(x);
      SameCount(fs, x.ino, fs.nodes[x.ino].(name := name));
      x.name := name;
      fs := With(fs, x.ino, fs.nodes[x.ino].(name := name));
      forall y | y in at ensures Holds(y) {
        assert old(Holds(y));
      }
    }

    /** Gives a node its new parent and name. */
    method Rewrite(x: Node, p: Node, name: string)
      requires Shape() && Owns(x) && Owns(p) && p.ino in fs.nodes && x.ino in fs.nodes
      modifies x`parent, x`name, this`fs
      ensures Shape() && next == old(next)
      ensures fs == With(old(fs), x.ino, Moved(old(fs.nodes[x.ino]), p.ino, name))
    {
      hide Linked, AllHold, Holds, With, Moved;
      MovedTwice(fs, x.ino, p.ino, name, first, next);
      SetParent(x, p);
      SetName(x, name);
    }

    lemma ValidOwns(n: Node)
      requires Valid() && Owns(n)
      ensures n.ino in fs.nodes && n in at.Values && n.ino in at.Keys
    {
    }

    method Rename(oldDir: Node, target: Node, newDir: Node, name: string) returns (code: int)
      requires Valid() && Owns(oldDir) && Owns(target) && Owns(newDir) && IsKid(fs, oldDir.ino, target.ino)
      requires |name| <= MAX_NAME
      modifies this`fs, this`first, this`next, at.Values
      ensures Valid() && (code == EEXIST <==> Lookup(old(fs), newDir.ino, name).Some?) && (code == 0 || code == EEXIST)
      ensures fs == if code == 0 then RamfsTree.Rename(old(fs), oldDir.ino, target.ino, newDir.ino, name) else old(fs)
    {
      hide Linked, IsKid, AllHold, Holds, Lists, Lookup, Without;
      ValidOwns(oldDir);
      ValidOwns(newDir);
      ValidOwns(target);
      var existing := LookupChild(newDir, name);
      if existing != null {
        return EEXIST;
      }
      RenameKeepsLists(fs, oldDir.ino, target.ino, newDir.ino, name);
      RenameFacts(fs, oldDir.ino, target.ino, newDir.ino, name);
      UnlistFacts(fs, oldDir.ino, target.ino);
      CutChild(oldDir, target);
      PushChild(newDir, target);
      var copy := CopyName(name);
      Rewrite(target, newDir, copy);
      code := 0;
    }

    lemma Counted(i: Ino)
      requires AllHold() && i in fs.nodes
      ensures |fs.nodes - {i}| == |fs.nodes| - 1 && inodeCount > 0
    {
      CountOneLess(fs.nodes, i);
    }

    /** What dropping a node that nothing refers to leaves of the links. */
    lemma Dropped(i: Ino)
      requires Shape() && i in at && i != fs.root && Unreferenced(fs, first, next, i) && i in fs.nodes
               && Kids(fs, i) == []
      ensures Linked(fs.(nodes := fs.nodes - {i}), first - {i}, next - {i})
    {
      DropLinks(fs, first, next, i);
    }

    /** Every other node still holds what it held. */
    twostate lemma StillHold(i: Ino)
      requires old(AllHold()) && i in old(at) && i != old(fs.root) && old(Unreferenced(fs, first, next, i))
      requires fs == old(fs).(nodes := old(fs.nodes) - {i}) && first == old(first) - {i} && next == old(next) - {i}
      requires at == old(at) - {i} && nextIno == old(nextIno) && lost == old(lost)
      requires |fs.nodes| == old(|fs.nodes|) - 1 && inodeCount == old(inodeCount) - 1
      requires forall y :: y in at ==> unchanged(at[y])
      ensures AllHold()
    {
      hide Linked, IsKid;
      forall y | y in at ensures Holds(y) {
        assert old(Holds(y));
      }
    }

    /** Frees a node. What is left is in shape if nothing referred to it. */
    method FreeInode(x: Node)
      requires Shape() && Owns(x) && x.ino in fs.nodes && x.ino != fs.root
      modifies this`fs, this`first, this`next, this`at, this`inodeCount
      ensures fs == old(fs).(nodes := old(fs).nodes - {x.ino}) && at == old(at) - {x.ino}
      ensures next == old(next) - {x.ino} && inodeCount == old(inodeCount) - 1
      ensures old(Unreferenced(fs, first, next, x.ino) && Kids(fs, x.ino) == []) ==> Shape()
    {
      hide Linked, IsKid, Unreferenced, AllHold;
      ghost var i := x.ino;
      ghost var alone := Unreferenced(fs, first, next, i) && Kids(fs, i) == [];
      HeldLinks(x);
      Counted(i);
      if alone {
        Dropped(i);
      }
      fs, first, next, at := fs.(nodes := fs.nodes - {i}), first - {i}, next - {i}, at - {i};
      inodeCount := inodeCount - 1;
      if alone {
        StillHold(i);
      }
    }

    method TakeOut(dir: Node, x: Node)
      requires Valid() && Owns(dir) && Owns(x) && IsKid(fs, dir.ino, x.ino) && x.ino in fs.nodes && dir != x
      modifies this`fs, this`first, this`next, this`at, this`inodeCount, at.Values
      ensures fs == Remove(old(fs), dir.ino, x.ino) && inodeCount == old(inodeCount) - 1
      ensures Valid() <==> old(Kids(fs, x.ino)) == []
    {
      hide Linked, IsKid, AllHold, Holds, Lists, Without, Unreferenced;
      ghost var d, i := dir.ino, x.ino;
      ValidOwns(dir);
      NoOrphansIff(fs, d, i);
      KidIsNotRoot(fs, d, i);
      UnlistFacts(fs, d, i);
      KidsKept(fs, d, i);
      ghost var childless := Kids(fs, i) == [];
      CutChild(dir, x);
      if childless {
        NoneRefer(old(fs), fs, first, next, d, i);
      }
      FreeInode(x);
    }

    /** Removes a file. The nodes are left in order unless the file was given children before. */
    method Unlink(dir: Node, name: string) returns (code: int)
      requires Valid() && Owns(dir)
      modifies this`fs, this`first, this`next, this`at, this`inodeCount, at.Values
      ensures UnlinkDone(old(fs), dir.ino, name, code, fs)
      ensures Valid() <==> Childless(old(fs), dir.ino, name)
    {
      hide Linked, IsKid, AllHold, Holds, Lists, Lookup, Without, Unreferenced;
      ValidOwns(dir);
      var target := LookupChild(dir, name);
      if target == null {
        return ENOENT;
      }
      OwnedKind(target);
      if target.isDir {
        return EISDIR;
      }
      FoundInDir(fs, dir.ino, name);
      OwnedKind(dir);
      TakeOut(dir, target);
      code := 0;
    }

    /** Removes an empty directory. */
    method Rmdir(dir: Node, name: string) returns (code: int)
      requires Valid() && Owns(dir)
      modifies this`fs, this`first, this`next, this`at, this`inodeCount, at.Values
      ensures Valid() && RmdirDone(old(fs), dir.ino, name, code, fs)
    {
      hide Linked, IsKid, AllHold, Holds, Lists, Lookup, Without, Unreferenced;
      ValidOwns(dir);
      var target := LookupChild(dir, name);
      if target == null {
        return ENOENT;
      }
      OwnedKind(target);
      DirNode(target.ino);
      if !target.isDir {
        return ENOTDIR;
      }
      if target.children != null {
        return ENOTEMPTY;
      }
      NoKids(fs, target.ino, target.ino);
      TakeOut(dir, target);
      code := 0;
    }
  }
}
