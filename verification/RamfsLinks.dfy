/** The children and sibling pointers of ramfs nodes as maps, and the pointer updates that keep
    them in step with the child lists. */
module RamfsLinks {
  import opened Wrappers
  import opened RamfsTree
  import opened RamfsMoves

  function Nth(s: seq<Ino>, k: nat): Option<Ino> {
    if k < |s| then Some(s[k]) else None
  }

  function KidAt(fs: Fs, d: Ino, k: nat): Ino
    requires d in fs.nodes && k < |Kids(fs, d)|
  {
    Kids(fs, d)[k]
  }

  type Links = map<Ino, Option<Ino>>

  /** Following children and then sibling pointers visits each child list in order and ends. */
  ghost predicate Linked(fs: Fs, first: Links, next: Links) {
    && first.Keys == next.Keys == fs.nodes.Keys
    && (forall d :: d in fs.nodes ==> first[d] == Nth(Kids(fs, d), 0))
    && (forall d, k: nat :: d in fs.nodes && k < |Kids(fs, d)| ==>
          KidAt(fs, d, k) in next && next[KidAt(fs, d, k)] == Nth(Kids(fs, d), k + 1))
  }

  /** Each node is in at most one list, once. */
  ghost predicate Apart(fs: Fs) {
    && (forall d, e, y :: IsKid(fs, d, y) && IsKid(fs, e, y) ==> d == e)
    && (forall d :: d in fs.nodes ==> Distinct(Kids(fs, d)))
  }

  lemma ListsApart(fs: Fs)
    requires Lists(fs)
    ensures Apart(fs)
  {
  }

  function Push(fs: Fs, d: Ino, x: Ino): Fs
    requires d in fs.nodes
  {
    fs.(nodes := fs.nodes[d := fs.nodes[d].(kids := [x] + Kids(fs, d))])
  }

  /** Linking a node that is in no list at the head of one. */
  lemma PushLinks(fs: Fs, first: Links, next: Links, d: Ino, x: Ino)
    requires Linked(fs, first, next) && d in fs.nodes && x in fs.nodes && forall e :: !IsKid(fs, e, x)
    ensures Linked(Push(fs, d, x), first[d := Some(x)], next[x := first[d]])
  {
    var fs', next' := Push(fs, d, x), next[x := first[d]];
    forall e, k: nat | e in fs'.nodes && k < |Kids(fs', e)|
      ensures KidAt(fs', e, k) in next' && next'[KidAt(fs', e, k)] == Nth(Kids(fs', e), k + 1)
    {
      if e != d {
        assert KidAt(fs, e, k) == KidAt(fs', e, k);
        assert IsKid(fs, e, KidAt(fs, e, k));
      } else if k > 0 {
        assert KidAt(fs, d, k - 1) == KidAt(fs', d, k);
        assert IsKid(fs, d, KidAt(fs, d, k - 1));
      }
    }
  }

  /** With one node more. */
  function With(fs: Fs, x: Ino, e: Entry): Fs {
    fs.(nodes := fs.nodes[x := e])
  }

  /** A node added outside every list, with no children. */
  lemma NewLinks(fs: Fs, first: Links, next: Links, x: Ino, e: Entry)
    requires Linked(fs, first, next) && x !in fs.nodes && e.kids == []
    ensures Linked(With(fs, x, e), first[x := None], next[x := None])
  {
    var fs' := With(fs, x, e);
    forall d, k: nat | d in fs'.nodes && k < |Kids(fs', d)|
      ensures KidAt(fs', d, k) in next && KidAt(fs', d, k) != x && next[KidAt(fs', d, k)] == Nth(Kids(fs', d), k + 1)
    {
      assert KidAt(fs, d, k) == KidAt(fs', d, k);
    }
  }

  /** The links once the k-th child of d is bypassed. */
  function SkipFirst(first: Links, next: Links, d: Ino, s: seq<Ino>, k: nat): Links
    requires k < |s| && s[k] in next
  {
    if k == 0 then first[d := next[s[k]]] else first
  }

  function SkipNext(next: Links, s: seq<Ino>, k: nat): Links
    requires k < |s| && s[k] in next
  {
    if k == 0 then next else next[s[k - 1] := next[s[k]]]
  }

  lemma DistinctIs(s: seq<Ino>)
    requires Distinct(s)
    ensures forall i, j :: 0 <= i < j < |s| ==> s[i] != s[j]
  {
  }

  lemma SkipLinks(fs: Fs, first: Links, next: Links, d: Ino, k: nat)
    requires Linked(fs, first, next) && Apart(fs) && d in fs.nodes && k < |Kids(fs, d)|
    ensures var s := Kids(fs, d);
            s[k] in next && Linked(Unlist(fs, d, s[k]), SkipFirst(first, next, d, s, k), SkipNext(next, s, k))
  {
    hide Without, Distinct;
    var s := Kids(fs, d);
    var x := KidAt(fs, d, k);
    WithoutAt(s, k);
    assert forall i, j :: 0 <= i < j < |s| ==> s[i] != s[j] by {
      DistinctIs(s);
    }
    var fs', first', next' := Unlist(fs, d, x), SkipFirst(first, next, d, s, k), SkipNext(next, s, k);
    assert k > 0 ==> KidAt(fs, d, k - 1) in next;
    forall e, j: nat | e in fs'.nodes && j < |Kids(fs', e)|
      ensures KidAt(fs', e, j) in next' && next'[KidAt(fs', e, j)] == Nth(Kids(fs', e), j + 1)
    {
      if e != d {
        assert KidAt(fs, e, j) == KidAt(fs', e, j);
        assert IsKid(fs, e, KidAt(fs, e, j));
        assert k > 0 ==> IsKid(fs, d, s[k - 1]);
      } else {
        var i := if j < k then j else j + 1;
        assert KidAt(fs, d, i) == KidAt(fs', d, j);
        assert next[s[i]] == Nth(s, i + 1);
        assert next[s[k]] == Nth(s, k + 1);
      }
    }
  }

  /** Dropping a node that is in no list and has no children. */
  lemma DropLinks(fs: Fs, first: Links, next: Links, x: Ino)
    requires Linked(fs, first, next) && x in fs.nodes && Kids(fs, x) == [] && forall e :: !IsKid(fs, e, x)
    ensures Linked(fs.(nodes := fs.nodes - {x}), first - {x}, next - {x})
  {
    var fs', next' := fs.(nodes := fs.nodes - {x}), next - {x};
    forall e, j: nat | e in fs'.nodes && j < |Kids(fs', e)|
      ensures KidAt(fs', e, j) in next' && next'[KidAt(fs', e, j)] == Nth(Kids(fs', e), j + 1)
    {
      assert KidAt(fs, e, j) == KidAt(fs', e, j);
      assert IsKid(fs, e, KidAt(fs, e, j));
    }
  }

  /** Links depend on the child lists only. */
  lemma SameKidsLinks(fs: Fs, fs': Fs, first: Links, next: Links)
    requires Linked(fs, first, next) && fs'.nodes.Keys == fs.nodes.Keys
    requires forall d :: d in fs.nodes ==> Kids(fs', d) == Kids(fs, d)
    ensures Linked(fs', first, next)
  {
    forall d, k: nat | d in fs'.nodes && k < |Kids(fs', d)|
      ensures KidAt(fs', d, k) in next && next[KidAt(fs', d, k)] == Nth(Kids(fs', d), k + 1)
    {
      assert KidAt(fs, d, k) == KidAt(fs', d, k);
    }
  }
}
