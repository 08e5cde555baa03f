/** What rename, unlink and rmdir do to the ramfs tree. */
module RamfsMoves {
  import opened Wrappers
  import opened RamfsTree

  // ---- taking a node out ----

  lemma UnlistFacts(fs: Fs, d: Ino, x: Ino)
    requires Lists(fs) && IsKid(fs, d, x)
    ensures var fs' := Unlist(fs, d, x);
            && (forall e, y :: IsKid(fs', e, y) <==> IsKid(fs, e, y) && y != x)
            && (forall e :: e in fs'.nodes ==> Distinct(Kids(fs', e)))
            && (forall y :: y in fs.nodes ==> fs'.nodes[y] == fs.nodes[y].(kids := Kids(fs', y)))
            && fs'.nodes.Keys == fs.nodes.Keys
  {
    var fs' := Unlist(fs, d, x);
    forall e, y ensures IsKid(fs', e, y) <==> IsKid(fs, e, y) && y != x {
      if e == d {
        WithoutHas(Kids(fs, d), x, y);
      } else if y == x {
        assert !IsKid(fs, e, x);
      }
    }
    WithoutDistinct(Kids(fs, d), x);
  }

  lemma IsKidFrame(a: Fs, b: Fs, e: Ino, y: Ino)
    ensures (e in a.nodes <==> e in b.nodes) && (e in a.nodes ==> a.nodes[e] == b.nodes[e]) ==>
              (IsKid(a, e, y) <==> IsKid(b, e, y))
    ensures e !in b.nodes ==> !IsKid(b, e, y)
  {
  }

  lemma NoKids(fs: Fs, x: Ino, y: Ino)
    requires x in fs.nodes && Kids(fs, x) == []
    ensures !IsKid(fs, x, y)
  {
  }

  /** A node is removed and nothing else changes. */
  lemma RemoveFacts(fs: Fs, d: Ino, x: Ino)
    requires Lists(fs) && IsKid(fs, d, x) && Kids(fs, x) == []
    ensures var fs' := Remove(fs, d, x);
            && fs'.nodes.Keys == fs.nodes.Keys - {x} && fs'.root == fs.root
            && (forall e, y :: IsKid(fs', e, y) <==> IsKid(fs, e, y) && y != x)
            && (forall e :: e in fs'.nodes ==> Distinct(Kids(fs', e)))
            && (forall y :: y in fs'.nodes ==> fs'.nodes[y] == fs.nodes[y].(kids := Kids(fs', y)))
  {
    hide IsKid, Distinct, Without;
    UnlistFacts(fs, d, x);
    var a, fs' := Unlist(fs, d, x), Remove(fs, d, x);
    forall e, y ensures IsKid(fs', e, y) <==> IsKid(a, e, y) {
      IsKidFrame(a, fs', e, y);
      if e == x {
        NoKids(fs, x, y);
      }
    }
  }

  lemma IsKidIn(fs: Fs, d: Ino, x: Ino)
    requires IsKid(fs, d, x)
    ensures d in fs.nodes
  {
  }

  lemma RemoveKeepsLists(fs: Fs, d: Ino, x: Ino)
    requires Lists(fs) && IsKid(fs, d, x) && Kids(fs, x) == []
    ensures Lists(Remove(fs, d, x))
  {
    hide IsKid, Distinct, Without, Remove;
    IsKidIn(fs, d, x);
    var fs' := Remove(fs, d, x);
    RemoveFacts(fs, d, x);
    assert x != fs.root;
    forall y | y in fs'.nodes && y != fs'.root ensures Parent(fs', y).Some? && IsKid(fs', Parent(fs', y).value, y) {
      assert Parent(fs', y) == Parent(fs, y);
    }
    forall e, y | IsKid(fs', e, y) ensures y in fs'.nodes && Parent(fs', y) == Some(e) {
      assert IsKid(fs, e, y);
    }
  }

  lemma {:induction false} UpAfterRemove(fs: Fs, d: Ino, x: Ino, y: Ino, n: nat)
    requires Lists(fs) && IsKid(fs, d, x) && Kids(fs, x) == []
    requires y in fs.nodes && y != x
    ensures Up(Remove(fs, d, x), y, n) == Up(fs, y, n)
    decreases n
  {
    hide IsKid, Distinct, Without, Remove;
    RemoveFacts(fs, d, x);
    if n > 0 && y != fs.root {
      var p := Parent(fs, y).value;
      NoKids(fs, x, y);
      assert IsKid(fs, p, y) && p != x;
      IsKidIn(fs, p, y);
      UpAfterRemove(fs, d, x, p, n - 1);
    }
  }

  lemma KidsOfFile(fs: Fs, fs': Fs, y: Ino)
    requires y in fs.nodes && y in fs'.nodes && Kids(fs, y) == [] && forall z :: IsKid(fs', y, z) ==> IsKid(fs, y, z)
    ensures Kids(fs', y) == []
  {
    if Kids(fs', y) != [] {
      assert IsKid(fs', y, Kids(fs', y)[0]);
    }
  }

  /** Unlink and rmdir take exactly one node out of the tree. */
  lemma RemoveKeepsTree(fs: Fs, d: Ino, x: Ino)
    requires Tree(fs) && IsKid(fs, d, x) && Kids(fs, x) == []
    ensures Tree(Remove(fs, d, x)) && Remove(fs, d, x).nodes.Keys == fs.nodes.Keys - {x}
    ensures UniqueNames(fs) ==> UniqueNames(Remove(fs, d, x))
  {
    hide IsKid, Distinct, Without, Remove;
    IsKidIn(fs, d, x);
    var fs' := Remove(fs, d, x);
    RemoveKeepsLists(fs, d, x);
    RemoveFacts(fs, d, x);
    assert x != fs.root;
    forall y | y in fs'.nodes ensures Under(fs', fs'.root, y) {
      assert Under(fs, fs.root, y);
      var n: nat :| Up(fs, y, n) == Some(fs.root);
      UpAfterRemove(fs, d, x, y, n);
    }
    forall y | y in fs'.nodes && !fs'.nodes[y].isDir ensures Kids(fs', y) == [] {
      KidsOfFile(fs, fs', y);
    }
  }

  /** Freeing a file leaves no node whose parent pointer leads to it, and keeps lists and parents in
      step, exactly when the file has no children. A node moved into the file before is left hanging. */
  lemma NoOrphansIff(fs: Fs, d: Ino, x: Ino)
    requires Lists(fs) && IsKid(fs, d, x) && d != x && x in fs.nodes
    ensures Kids(fs, x) == [] <==> forall y :: y in Remove(fs, d, x).nodes ==> Parent(Remove(fs, d, x), y) != Some(x)
    ensures Kids(fs, x) == [] <==> Lists(Remove(fs, d, x))
  {
    hide Distinct, Without;
    var fs' := Remove(fs, d, x);
    if Kids(fs, x) == [] {
      RemoveKeepsLists(fs, d, x);
      forall y | y in fs'.nodes ensures Parent(fs', y) != Some(x) {
        assert y != fs.root ==> IsKid(fs, Parent(fs, y).value, y);
      }
    } else {
      var y := Kids(fs, x)[0];
      assert IsKid(fs, x, y) && y != x;
      assert y in fs'.nodes && Parent(fs', y) == Some(x);
      assert !IsKid(fs', x, y);
    }
  }

  // ---- rename ----

  lemma HeadDistinct(x: Ino, s: seq<Ino>)
    requires Distinct(s) && x !in s
    ensures Distinct([x] + s)
  {
  }

  lemma RenameKids(fs: Fs, o: Ino, x: Ino, d: Ino, name: string)
    requires Lists(fs) && IsKid(fs, o, x) && d in fs.nodes
    ensures var fs' := Rename(fs, o, x, d, name);
            && (forall e, y :: IsKid(fs', e, y) <==> if y == x then e == d else IsKid(fs, e, y))
            && (forall e :: e in fs'.nodes ==> Distinct(Kids(fs', e)))
  {
    hide Without;
    UnlistFacts(fs, o, x);
    var a, fs' := Unlist(fs, o, x), Rename(fs, o, x, d, name);
    forall e, y ensures IsKid(fs', e, y) <==> if y == x then e == d else IsKid(fs, e, y) {
      if e == d {
        assert y in [x] + Kids(a, d) <==> y == x || y in Kids(a, d);
        assert IsKid(a, e, y) <==> y in Kids(a, d);
      } else {
        assert e in a.nodes ==> Kids(fs', e) == Kids(a, e);
        assert IsKid(fs', e, y) <==> IsKid(a, e, y);
      }
    }
    forall e | e in fs'.nodes ensures Distinct(Kids(fs', e)) {
      if e == d {
        assert !IsKid(a, d, x);
        HeadDistinct(x, Kids(a, d));
      }
    }
  }

  /** Rename changes one node's parent and name, and nothing about any other node but its child list. */
  lemma RenameFacts(fs: Fs, o: Ino, x: Ino, d: Ino, name: string)
    requires Lists(fs) && IsKid(fs, o, x) && d in fs.nodes
    ensures var fs' := Rename(fs, o, x, d, name);
            && fs'.nodes.Keys == fs.nodes.Keys && fs'.root == fs.root && x != fs.root
            && Parent(fs', x) == Some(d) && fs'.nodes[x].name == Cut(name) && fs'.nodes[x].isDir == fs.nodes[x].isDir
            && (forall y :: y in fs.nodes && y != x ==> fs'.nodes[y] == fs.nodes[y].(kids := Kids(fs', y)))
  {
    hide Without, IsKid, Distinct;
    IsKidIn(fs, o, x);
  }

  /** Lists stay lists wherever the node is moved. */
  lemma RenameKeepsLists(fs: Fs, o: Ino, x: Ino, d: Ino, name: string)
    requires Lists(fs) && IsKid(fs, o, x) && d in fs.nodes
    ensures Lists(Rename(fs, o, x, d, name))
  {
    hide IsKid, Distinct, Rename;
    IsKidIn(fs, o, x);
    var fs' := Rename(fs, o, x, d, name);
    RenameFacts(fs, o, x, d, name);
    RenameKids(fs, o, x, d, name);
    forall y | y in fs'.nodes && y != fs'.root ensures Parent(fs', y).Some? && IsKid(fs', Parent(fs', y).value, y) {
      if y != x {
        assert Parent(fs', y) == Parent(fs, y);
      }
    }
  }

  /** A chain of parents that avoids the moved node is unchanged. */
  lemma {:induction false} UpAfterRename(fs: Fs, o: Ino, x: Ino, d: Ino, name: string, y: Ino, n: nat)
    requires Lists(fs) && IsKid(fs, o, x) && d in fs.nodes && y in fs.nodes && !Under(fs, x, y)
    ensures Up(Rename(fs, o, x, d, name), y, n) == Up(fs, y, n)
    decreases n
  {
    hide IsKid, Distinct, Rename;
    RenameFacts(fs, o, x, d, name);
    UnderSelf(fs, x);
    if n > 0 && y != fs.root {
      var p := Parent(fs, y).value;
      IsKidIn(fs, p, y);
      if Under(fs, x, p) {
        UnderParent(fs, x, y);
        assert false;
      } else {
        UpAfterRename(fs, o, x, d, name, p, n - 1);
      }
    }
  }

  /** Every node still reaches the root: below the moved node by way of it, and it by way of its new parent. */
  lemma {:induction false} RootedAfterRename(fs: Fs, o: Ino, x: Ino, d: Ino, name: string, y: Ino, n: nat)
    requires Lists(fs) && Rooted(fs) && IsKid(fs, o, x) && d in fs.nodes && !Under(fs, x, d)
    requires y in fs.nodes && Up(fs, y, n) == Some(fs.root)
    ensures Under(Rename(fs, o, x, d, name), fs.root, y)
    decreases n
  {
    hide IsKid, Distinct, Rename;
    IsKidIn(fs, o, x);
    var fs' := Rename(fs, o, x, d, name);
    RenameFacts(fs, o, x, d, name);
    if y == x {
      var m: nat :| Up(fs, d, m) == Some(fs.root);
      UpAfterRename(fs, o, x, d, name, d, m);
      assert Under(fs', fs.root, d);
      UnderParent(fs', fs.root, x);
    } else if y == fs.root {
      UnderSelf(fs', fs.root);
    } else {
      var p := Parent(fs, y).value;
      IsKidIn(fs, p, y);
      RootedAfterRename(fs, o, x, d, name, p, n - 1);
      UnderParent(fs', fs.root, y);
    }
  }

  /** Moved into its own subtree, the node and all below it are cut off from the root. */
  lemma {:induction false} CutOff(fs: Fs, o: Ino, x: Ino, d: Ino, name: string, y: Ino, n: nat)
    requires Lists(fs) && IsKid(fs, o, x) && d in fs.nodes && Under(fs, x, d)
    requires y in fs.nodes && Under(fs, x, y)
    ensures Up(Rename(fs, o, x, d, name), y, n) != Some(fs.root)
    decreases n
  {
    hide IsKid, Distinct, Rename;
    RenameFacts(fs, o, x, d, name);
    if n == 0 {
      if y == fs.root {
        ParentUnder(fs, x, y);
        assert false;
      }
    } else {
      var p := if y == x then d else Parent(fs, y).value;
      if y != x {
        ParentUnder(fs, x, y);
        IsKidIn(fs, p, y);
      }
      CutOff(fs, o, x, d, name, p, n - 1);
    }
  }

  lemma KidNotEmpty(fs: Fs, d: Ino, x: Ino)
    requires IsKid(fs, d, x)
    ensures Kids(fs, d) != []
  {
  }

  /** Every chain of parents still reaches the root exactly when the new parent is outside the subtree moved. */
  lemma RenameKeepsRootedIff(fs: Fs, o: Ino, x: Ino, d: Ino, name: string)
    requires Lists(fs) && Rooted(fs) && IsKid(fs, o, x) && d in fs.nodes
    ensures o in fs.nodes && x in fs.nodes
    ensures Rooted(Rename(fs, o, x, d, name)) <==> !Under(fs, x, d)
  {
    hide IsKid, Distinct, Rename;
    IsKidIn(fs, o, x);
    RenameFacts(fs, o, x, d, name);
    var fs' := Rename(fs, o, x, d, name);
    if Under(fs, x, d) {
      UnderSelf(fs, x);
      forall n: nat ensures Up(fs', x, n) != Some(fs'.root) {
        CutOff(fs, o, x, d, name, x, n);
      }
      assert !Under(fs', fs'.root, x);
    } else {
      forall y | y in fs'.nodes ensures Under(fs', fs'.root, y) {
        assert Under(fs, fs.root, y);
        var n: nat :| Up(fs, y, n) == Some(fs.root);
        RootedAfterRename(fs, o, x, d, name, y, n);
      }
    }
  }

  /** Rename keeps the tree exactly when the new parent is a directory outside the subtree moved,
      neither of which the code checks. */
  lemma RenameKeepsTreeIff(fs: Fs, o: Ino, x: Ino, d: Ino, name: string)
    requires Tree(fs) && IsKid(fs, o, x) && d in fs.nodes
    ensures Tree(Rename(fs, o, x, d, name)) <==> fs.nodes[d].isDir && !Under(fs, x, d)
  {
    hide IsKid, Distinct, Rename;
    IsKidIn(fs, o, x);
    var fs' := Rename(fs, o, x, d, name);
    RenameFacts(fs, o, x, d, name);
    RenameKids(fs, o, x, d, name);
    RenameKeepsLists(fs, o, x, d, name);
    RenameKeepsRootedIff(fs, o, x, d, name);
    if !fs.nodes[d].isDir {
      KidNotEmpty(fs', d, x);
    } else {
      forall y | y in fs'.nodes && !fs'.nodes[y].isDir ensures Kids(fs', y) == [] {
        forall z | IsKid(fs', y, z) ensures IsKid(fs, y, z) {
        }
        KidsOfFile(fs, fs', y);
      }
    }
  }

  /** Refusing an existing name keeps sibling names unique. */
  lemma RenameKeepsNames(fs: Fs, o: Ino, x: Ino, d: Ino, name: string)
    requires Tree(fs) && UniqueNames(fs) && IsKid(fs, o, x) && d in fs.nodes && Lookup(fs, d, Cut(name)) == None
    ensures Lists(Rename(fs, o, x, d, name)) && UniqueNames(Rename(fs, o, x, d, name))
  {
    hide IsKid, Distinct, Rename, Lookup;
    RenameFacts(fs, o, x, d, name);
    RenameKids(fs, o, x, d, name);
    RenameKeepsLists(fs, o, x, d, name);
    LookupIs(fs, d, Cut(name));
    forall y | IsKid(fs, d, y) ensures fs.nodes[y].name != Cut(name) {
      if !fs.nodes[d].isDir {
        NoKids(fs, d, y);
      }
    }
  }
}
