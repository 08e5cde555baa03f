/** The work list of kill_children: why it stops, never overflows and frees exactly the
    descendants. */
module KillTreeProof {
  import opened Process

  /** The table once the children of every value in done were dealt with. */
  ghost function KilledBy(procs: seq<Proc>, current: int, done: set<int>): (r: seq<Proc>)
    ensures |r| == |procs|
  {
    seq(|procs|, i requires 0 <= i < |procs| =>
      if Live(procs[i]) && i != current && procs[i].parentPid in done then Freed(procs[i]) else procs[i])
  }

  /** The same, with the children of v dealt with in the first n slots. */
  ghost function KilledUpTo(procs: seq<Proc>, current: int, done: set<int>, v: int, n: int): (r: seq<Proc>)
    ensures |r| == |procs|
  {
    seq(|procs|, i requires 0 <= i < |procs| =>
      if Live(procs[i]) && i != current && (procs[i].parentPid in done || (procs[i].parentPid == v && i < n))
      then Freed(procs[i]) else procs[i])
  }

  /** The pids of the live processes in the first n slots. */
  ghost function PidsUpTo(procs: seq<Proc>, n: nat): (s: set<int>)
    requires n <= |procs|
    ensures |s| <= n
  {
    if n == 0 then {}
    else PidsUpTo(procs, n - 1) + (if Live(procs[n - 1]) then {procs[n - 1].pid} else {})
  }

  ghost function Pids(procs: seq<Proc>): (s: set<int>)
    ensures |s| <= |procs|
  {
    PidsUpTo(procs, |procs|)
  }

  lemma {:induction false} PidIn(procs: seq<Proc>, n: nat, i: nat)
    requires i < n <= |procs| && Live(procs[i])
    ensures procs[i].pid in PidsUpTo(procs, n)
  {
    if i < n - 1 {
      PidIn(procs, n - 1, i);
    }
  }

  lemma {:induction false} PidPositive(procs: seq<Proc>, nextPid: int, n: nat, w: int)
    requires PidsOk(procs, nextPid) && n <= |procs| && w in PidsUpTo(procs, n)
    ensures w > 0
  {
    if n > 0 && w in PidsUpTo(procs, n - 1) {
      PidPositive(procs, nextPid, n - 1, w);
    }
  }

  lemma SubsetSize(a: set<int>, b: set<int>)
    requires a <= b
    ensures |a| <= |b|
  {
    assert b == a + (b - a);
  }

  /** Slot i is a live child of a value dealt with, or of v and among the first n slots. */
  ghost predicate Met(procs: seq<Proc>, done: set<int>, v: int, n: int, i: int) {
    0 <= i < |procs| && Live(procs[i]) && (procs[i].parentPid in done || (procs[i].parentPid == v && i < n))
  }

  /** w descends from p and is a pid; unless it is p, its slot was met. */
  ghost predicate Justified(procs: seq<Proc>, p: int, done: set<int>, v: int, n: int, w: int) {
    && Descends(procs, p, w) && w in Pids(procs)
    && (w == p || exists i :: Met(procs, done, v, n, i) && procs[i].pid == w)
  }

  /** The work list while the children of v are looked for, n slots in. */
  ghost predicate WorkOk(procs: seq<Proc>, p: int, work: seq<int>, done: set<int>, v: int, n: int) {
    && (forall w :: w in work ==> Justified(procs, p, done, v, n, w) && w !in done && w != v)
    && (forall w :: w in done ==> Justified(procs, p, done, v, n, w))
    && Justified(procs, p, done, v, n, v)
    && (forall i, j :: 0 <= i < j < |work| ==> work[i] != work[j])
    && v !in done && (p == v || p in work || p in done)
    && (forall i :: Met(procs, done, v, n, i) ==> procs[i].pid in work || procs[i].pid in done || procs[i].pid == v)
  }

  /** The work list between two rounds. */
  ghost predicate BetweenOk(procs: seq<Proc>, p: int, work: seq<int>, done: set<int>) {
    && (forall w :: w in work ==> Justified(procs, p, done, 0, 0, w) && w !in done)
    && (forall w :: w in done ==> Justified(procs, p, done, 0, 0, w))
    && (forall i, j :: 0 <= i < j < |work| ==> work[i] != work[j])
    && (p in work || p in done)
    && (forall i :: Met(procs, done, 0, 0, i) ==> procs[i].pid in work || procs[i].pid in done)
  }

  lemma FirstOnList(procs: seq<Proc>, p: int)
    requires p in Pids(procs)
    ensures BetweenOk(procs, p, [p], {})
  {
  }

  /** Slots met stay met. */
  lemma JustifiedMore(procs: seq<Proc>, p: int, done: set<int>, v: int, n: int, done': set<int>, v': int, n': int,
                      w: int)
    requires Justified(procs, p, done, v, n, w)
    requires forall i :: Met(procs, done, v, n, i) ==> Met(procs, done', v', n', i)
    ensures Justified(procs, p, done', v', n', w)
  {
  }

  lemma NextTaken(procs: seq<Proc>, p: int, work: seq<int>, done: set<int>)
    requires BetweenOk(procs, p, work, done) && work != []
    ensures WorkOk(procs, p, work[..|work| - 1], done, work[|work| - 1], 0)
  {
    hide Descends, Pids, Live, PidsUpTo;
    var n := |work| - 1;
    var v := work[n];
    forall w | w in work || w in done
      ensures Justified(procs, p, done, v, 0, w)
    {
      JustifiedMore(procs, p, done, 0, 0, done, v, 0, w);
    }
    forall w | w in work[..n] ensures w in work && w != v {
    }
    forall i | Met(procs, done, v, 0, i)
      ensures procs[i].pid in work[..n] || procs[i].pid in done || procs[i].pid == v
    {
      assert Met(procs, done, 0, 0, i);
    }
  }

  lemma SlotPassed(procs: seq<Proc>, p: int, work: seq<int>, done: set<int>, v: int, n: int)
    requires WorkOk(procs, p, work, done, v, n) && 0 <= n < |procs|
    requires !Live(procs[n]) || procs[n].parentPid in done || procs[n].parentPid != v
    ensures WorkOk(procs, p, work, done, v, n + 1)
  {
    hide Descends;
    forall w | w in work || w in done || w == v
      ensures Justified(procs, p, done, v, n + 1, w)
    {
      JustifiedMore(procs, p, done, v, n, done, v, n + 1, w);
    }
    forall i | Met(procs, done, v, n + 1, i) ensures Met(procs, done, v, n, i) {
    }
  }

  /** A child met while dealing with v is new to the list. */
  lemma ChildIsNew(procs: seq<Proc>, nextPid: int, p: int, work: seq<int>, done: set<int>, v: int, n: int)
    requires PidsOk(procs, nextPid) && p > 0 && WorkOk(procs, p, work, done, v, n)
    requires 0 <= n < |procs| && Live(procs[n]) && procs[n].parentPid == v
    ensures var w := procs[n].pid;
            w !in work && w !in done && w != v && w > v && Descends(procs, p, w) && w in Pids(procs)
  {
    var slots := DescendsChain(procs, p, v);
    ChainsGoDown(procs, nextPid, p, slots, v);
    PidIn(procs, |procs|, n);
    assert !Met(procs, done, v, n, n);
    forall w | w in work || w in done ensures w != procs[n].pid {
      assert Justified(procs, p, done, v, n, w);
      if w != p {
        var i :| Met(procs, done, v, n, i) && procs[i].pid == w;
        assert i != n;
      }
    }
  }

  lemma ChildListed(procs: seq<Proc>, nextPid: int, p: int, work: seq<int>, done: set<int>, v: int, n: int)
    requires PidsOk(procs, nextPid) && p > 0 && WorkOk(procs, p, work, done, v, n)
    requires 0 <= n < |procs| && Live(procs[n]) && procs[n].parentPid == v
    ensures WorkOk(procs, p, work + [procs[n].pid], done, v, n + 1)
  {
    hide Descends, Live;
    var c := procs[n].pid;
    ChildIsNew(procs, nextPid, p, work, done, v, n);
    assert Met(procs, done, v, n + 1, n);
    assert Justified(procs, p, done, v, n + 1, c);
    forall w | w in work || w in done || w == v
      ensures Justified(procs, p, done, v, n + 1, w)
    {
      JustifiedMore(procs, p, done, v, n, done, v, n + 1, w);
    }
    forall i | Met(procs, done, v, n + 1, i) ensures Met(procs, done, v, n, i) || i == n {
    }
  }

  lemma RoundOver(procs: seq<Proc>, p: int, work: seq<int>, done: set<int>, v: int)
    requires WorkOk(procs, p, work, done, v, |procs|)
    ensures BetweenOk(procs, p, work, done + {v})
  {
    hide Descends;
    forall w | w in work || w in done || w == v
      ensures Justified(procs, p, done + {v}, 0, 0, w)
    {
      JustifiedMore(procs, p, done, v, |procs|, done + {v}, 0, 0, w);
    }
    forall i | Met(procs, done + {v}, 0, 0, i) ensures Met(procs, done, v, |procs|, i) {
    }
  }

  lemma {:induction false} DistinctSize(work: seq<int>)
    requires forall i, j :: 0 <= i < j < |work| ==> work[i] != work[j]
    ensures |set w | w in work| == |work|
  {
    if work != [] {
      var n := |work| - 1;
      DistinctSize(work[..n]);
      assert (set w | w in work) == (set w | w in work[..n]) + {work[n]};
    }
  }

  /** With distinct entries, a list that misses some pid has room left. */
  lemma RoomLeft(procs: seq<Proc>, work: seq<int>, v: int, extra: int)
    requires forall i, j :: 0 <= i < j < |work| ==> work[i] != work[j]
    requires forall w :: w in work ==> w in Pids(procs) && w != v && w != extra
    requires v in Pids(procs) && extra in Pids(procs) && v != extra
    ensures |work| + 2 <= |procs|
  {
    var s := set w | w in work;
    DistinctSize(work);
    assert s !! {v, extra};
    assert |s + {v, extra}| == |s| + 2;
    assert s + {v, extra} <= Pids(procs);
    SubsetSize(s + {v, extra}, Pids(procs));
  }

  /** The table follows the round slot by slot. */
  lemma KillSlot(procs: seq<Proc>, current: int, done: set<int>, v: int, n: int, now: seq<Proc>)
    requires 0 <= n < |procs| && now == KilledUpTo(procs, current, done, v, n) && v !in done
    ensures now[n].state != Free && now[n].parentPid == v <==> Live(procs[n]) && procs[n].parentPid == v
    ensures Live(procs[n]) && procs[n].parentPid == v ==> now[n] == procs[n]
    ensures KilledUpTo(procs, current, done, v, n + 1) ==
            if Live(procs[n]) && procs[n].parentPid == v && n != current then now[n := Freed(procs[n])] else now
  {
  }

  /** Once the list is empty, every descendant's value was dealt with. */
  lemma {:induction false} AllDone(procs: seq<Proc>, nextPid: int, p: int, done: set<int>, v: int)
    requires PidsOk(procs, nextPid) && p in done && Descends(procs, p, v)
    requires forall i :: 0 <= i < |procs| && Live(procs[i]) && procs[i].parentPid in done ==> procs[i].pid in done
    ensures v in done
    decreases if v < 0 then 0 else v + 1
  {
    if v != p {
      var i :| 0 <= i < |procs| && Live(procs[i]) && procs[i].pid == v && -1 <= procs[i].parentPid < v &&
               Descends(procs, p, procs[i].parentPid);
      AllDone(procs, nextPid, p, done, procs[i].parentPid);
    }
  }

  lemma PidsPositive(procs: seq<Proc>, nextPid: int, p: int)
    requires PidsOk(procs, nextPid) && p in Pids(procs)
    ensures p > 0
  {
    PidPositive(procs, nextPid, |procs|, p);
  }

  lemma NobodyKilled(procs: seq<Proc>, current: int)
    ensures KilledBy(procs, current, {}) == procs
  {
  }

  lemma RoundStarts(procs: seq<Proc>, p: int, current: int, work: seq<int>, done: set<int>, v: int)
    requires WorkOk(procs, p, work, done, v, 0)
    ensures KilledBy(procs, current, done) == KilledUpTo(procs, current, done, v, 0)
    ensures v !in done && |done| < |procs|
  {
    hide Descends;
    forall w | w in done + {v} ensures w in Pids(procs) {
      assert Justified(procs, p, done, v, 0, w);
    }
    SubsetSize(done + {v}, Pids(procs));
  }

  lemma RoundEnds(procs: seq<Proc>, current: int, done: set<int>, v: int)
    ensures KilledUpTo(procs, current, done, v, |procs|) == KilledBy(procs, current, done + {v})
  {
  }

  lemma ListHasRoom(procs: seq<Proc>, nextPid: int, p: int, work: seq<int>, done: set<int>, v: int, n: int)
    requires PidsOk(procs, nextPid) && p > 0 && WorkOk(procs, p, work, done, v, n)
    requires 0 <= n < |procs| && Live(procs[n]) && procs[n].parentPid == v
    ensures |work| + 2 <= |procs|
  {
    ChildIsNew(procs, nextPid, p, work, done, v, n);
    hide Descends;
    assert Justified(procs, p, done, v, n, v);
    RoomLeft(procs, work, v, procs[n].pid);
  }

  lemma KilledIsKillTree(procs: seq<Proc>, nextPid: int, current: int, p: int, done: set<int>)
    requires PidsOk(procs, nextPid) && p in done
    requires forall w :: w in done ==> Descends(procs, p, w)
    requires forall i :: 0 <= i < |procs| && Live(procs[i]) && procs[i].parentPid in done ==> procs[i].pid in done
    ensures KilledBy(procs, current, done) == KillTree(procs, current, p)
  {
    forall i | 0 <= i < |procs|
      ensures Descends(procs, p, procs[i].parentPid) <==> procs[i].parentPid in done
    {
      if Descends(procs, p, procs[i].parentPid) {
        AllDone(procs, nextPid, p, done, procs[i].parentPid);
      }
    }
  }

  lemma Finished(procs: seq<Proc>, nextPid: int, current: int, p: int, done: set<int>)
    requires PidsOk(procs, nextPid) && BetweenOk(procs, p, [], done)
    ensures KilledBy(procs, current, done) == KillTree(procs, current, p)
  {
    forall w | w in done ensures Descends(procs, p, w) {
      assert Justified(procs, p, done, 0, 0, w);
    }
    forall i | 0 <= i < |procs| && Live(procs[i]) && procs[i].parentPid in done
      ensures procs[i].pid in done
    {
      assert Met(procs, done, 0, 0, i);
    }
    KilledIsKillTree(procs, nextPid, current, p, done);
  }
}
