/** What the path operations answer, as error numbers, and what they make of the nodes. */
module VfsMeaning {
  import opened Wrappers
  import opened RamfsTree
  import opened RamfsMoves
  import opened RamfsPaths
  import opened Ramfs
  import opened Vfs

  /** The node a path leads to. */
  ghost function At(fs: Fs, path: string): Option<Ino>
    requires Lists(fs)
  {
    Resolve(fs, fs.root, Components(path))
  }

  /** A path of one component or more, all but the last of which lead to a node. */
  ghost predicate HasParent(fs: Fs, path: string)
    requires Lists(fs)
  {
    var p := Components(path);
    p != [] && Resolve(fs, fs.root, p[..|p| - 1]).Some?
  }

  /** What is there, below the root, has a parent. */
  lemma FoundHasParent(fs: Fs, path: string)
    requires Lists(fs) && Components(path) != [] && At(fs, path).Some?
    ensures HasParent(fs, path)
  {
    hide Resolve;
    var p := Components(path);
    assert p == Init(p) + [Last(p)];
    ResolveConcat(fs, fs.root, Init(p), [Last(p)]);
  }

  /** The nodes agree but for their child lists. */
  ghost predicate SameButKids(e: Entry, e': Entry) {
    e' == e.(kids := e'.kids)
  }

  /** A rename is refused with -2 when nothing is there to be moved, either path has no component, or the target has
      no parent, and else with -17 when something is at the target. If not refused it renames the node and sets its
      parent, and but for child lists leaves every other node as it was. */
  lemma RenameAnswers(fs: Fs, from: string, to: string, code: int, after: Fs)
    requires RenameDone(fs, from, to, code, after)
    ensures code in {0, -2, -17} && (code != 0 ==> after == fs)
    ensures code == -2 <==> Components(from) == [] || At(fs, from).None? || !HasParent(fs, to)
    ensures code == -17 ==> At(fs, to).Some?
    ensures code == 0 ==>
              var x, q := At(fs, from), Components(to);
              && At(fs, to).None? && x.Some? && x.value in fs.nodes && q != []
              && after.root == fs.root && after.nodes.Keys == fs.nodes.Keys
              && (forall y :: y in fs.nodes && y != x.value ==> SameButKids(fs.nodes[y], after.nodes[y]))
              && SameButKids(fs.nodes[x.value].(name := q[|q| - 1], parent := Resolve(fs, fs.root, q[..|q| - 1])),
                             after.nodes[x.value])
  {
    hide Resolve, Components, IsKid, Lists;
    if Components(from) != [] && At(fs, from).Some? {
      FoundHasParent(fs, from);
    }
    ComponentsFit(to);
  }

  /** The nodes but one are left, and only their child lists may differ. */
  ghost predicate OneLess(fs: Fs, x: Ino, after: Fs) {
    && x in fs.nodes && after.root == fs.root && after.nodes.Keys == fs.nodes.Keys - {x}
    && forall y :: y in after.nodes ==> SameButKids(fs.nodes[y], after.nodes[y])
  }

  lemma RemoveIs(fs: Fs, d: Ino, x: Ino)
    requires d in fs.nodes && x in fs.nodes
    ensures OneLess(fs, x, Remove(fs, d, x))
  {
  }

  /** An unlink is refused with -2 when nothing is there or the path has no component, and with -21 when it leads to a
      directory; if not refused it takes away the file. */
  lemma UnlinkAnswers(fs: Fs, path: string, code: int, after: Fs)
    requires UnlinkPathDone(fs, path, code, after)
    ensures code in {0, -2, -21} && (code != 0 ==> after == fs)
    ensures code == -2 <==> Components(path) == [] || At(fs, path).None?
    ensures var x := At(fs, path);
            code != -2 ==> x.Some? && x.value in fs.nodes && (code == -21 <==> fs.nodes[x.value].isDir)
                           && (code == 0 ==> OneLess(fs, x.value, after))
  {
    hide Resolve, Components, IsKid, Remove, Lookup, Lists;
    if Components(path) != [] {
      if At(fs, path).Some? {
        FoundHasParent(fs, path);
      }
      if ParentOf(fs, Components(path)).Some? {
        LastLookup(fs, Components(path));
        if code == 0 {
          RemoveIs(fs, ParentOf(fs, Components(path)).value, At(fs, path).value);
        }
      }
    }
  }

  /** An rmdir is refused with -2 as an unlink is, with -20 when the path leads to a file, and with -39 when it leads
      to a directory that is not empty; if not refused it takes away the directory. */
  lemma RmdirAnswers(fs: Fs, path: string, code: int, after: Fs)
    requires RmdirPathDone(fs, path, code, after)
    ensures code in {0, -2, -20, -39} && (code != 0 ==> after == fs)
    ensures code == -2 <==> Components(path) == [] || At(fs, path).None?
    ensures var x := At(fs, path);
            code != -2 ==> x.Some? && x.value in fs.nodes && (code == -20 <==> !fs.nodes[x.value].isDir)
                           && (code == -39 <==> fs.nodes[x.value].isDir && fs.nodes[x.value].kids != [])
                           && (code == 0 ==> OneLess(fs, x.value, after))
  {
    hide Resolve, Components, IsKid, Remove, Lookup, Lists;
    if Components(path) != [] {
      if At(fs, path).Some? {
        FoundHasParent(fs, path);
      }
      if ParentOf(fs, Components(path)).Some? {
        LastLookup(fs, Components(path));
        if code == 0 {
          RemoveIs(fs, ParentOf(fs, Components(path)).value, At(fs, path).value);
        }
      }
    }
  }

  /** A creation is refused with -2 when the path has no parent. If not refused, and the parent is a directory, there
      is one node more, of the kind asked for, empty, with the last component as its name, and but for the parent's
      child list, which it heads, every other node is as it was. */
  lemma CreateAnswers(fs: Fs, path: string, isDir: bool, x: Ino, code: int, after: Fs)
    requires CreateDone(fs, path, isDir, x, code, after)
    ensures code in {0, -2} && (code != 0 ==> after == fs) && (code == -2 <==> !HasParent(fs, path))
    ensures code == 0 ==>
              var p := Components(path);
              && p != [] && x !in fs.nodes
              && var d := Resolve(fs, fs.root, p[..|p| - 1]);
                 && d.Some? && d.value in fs.nodes
                 && if !fs.nodes[d.value].isDir then after == fs
                    else
                      && after.root == fs.root && after.nodes.Keys == fs.nodes.Keys + {x}
                      && after.nodes[x] == Entry(isDir, p[|p| - 1], d, [])
                      && after.nodes[d.value] == fs.nodes[d.value].(kids := [x] + fs.nodes[d.value].kids)
                      && forall y :: y in fs.nodes && y != d.value ==> after.nodes[y] == fs.nodes[y]
  {
    hide Resolve, Components, IsKid, Lists;
    ComponentsFit(path);
  }
}
