/** The process table as the kernel keeps it. */
module ProcessTable {
  import opened Process
  import opened KillTreeProof

  class Kernel {
    const procs: array<Proc>
    var current: int
    var pointer: int
    var nextPid: int

    constructor ()
      ensures T() == Init() && fresh(procs)
    {
      procs := new Proc[MAX_PROCESSES](_ => Proc(0, Free, 0, 0, false, false));
      current, pointer, nextPid := -1, -1, 1;
    }

    ghost function T(): Table
      reads this, procs
    {
      Table(procs[..], current, pointer, nextPid)
    }

    /** One slot of the scan: a child of v goes on the work list and, unless it is the
        current process, its slot is freed. */
    method KillSlotIfChild(work: array<int>, top: int, ghost p: int, v: int, i: int, ghost before: seq<Proc>,
                           ghost done: set<int>)
      returns (i': int, top': int)
      requires work.Length == MAX_PROCESSES && 0 <= top <= MAX_PROCESSES && 0 <= i < MAX_PROCESSES
      requires |before| == MAX_PROCESSES && PidsOk(before, nextPid) && p > 0
      requires procs[..] == KilledUpTo(before, current, done, v, i) && WorkOk(before, p, work[..top], done, v, i)
      modifies procs, work
      ensures i' == i + 1 && 0 <= top' <= MAX_PROCESSES
      ensures procs[..] == KilledUpTo(before, current, done, v, i')
      ensures WorkOk(before, p, work[..top'], done, v, i')
    {
      hide Descends, Justified, KilledUpTo, Pids, Met, PidsOk;
      KillSlot(before, current, done, v, i, procs[..]);
      top' := top;
      if procs[i].state != Free && procs[i].parentPid == v {
        var childPid := procs[i].pid;
        ChildListed(before, nextPid, p, work[..top], done, v, i);
        ListHasRoom(before, nextPid, p, work[..top], done, v, i);
        if top < MAX_PROCESSES {
          work[top] := childPid;
          top' := top + 1;
        }
        assert work[..top'] == old(work[..top]) + [childPid];
        if i != current {
          procs[i] := procs[i].(state := Free, pid := 0, hasStack := false);
        }
      } else {
        SlotPassed(before, p, work[..top], done, v, i);
      }
      i' := i + 1;
    }

    /** Frees every live slot, except the current one, that descends from parentPid. */
    method KillChildren(parentPid: int)
      requires Inv(T()) && parentPid in Pids(procs[..])
      modifies procs
      ensures T() == old(T()).(procs := KillTree(old(procs[..]), current, parentPid))
    {
      hide Descends, Justified, WorkOk, BetweenOk, KillTree, KilledUpTo, KilledBy, Pids;
      ghost var before := procs[..];
      PidsPositive(before, nextPid, parentPid);
      var work := new int[MAX_PROCESSES];
      var top := 0;
      work[top] := parentPid;
      top := top + 1;
      ghost var done: set<int> := {};
      FirstOnList(before, parentPid);
      assert work[..top] == [parentPid];
      NobodyKilled(before, current);
      while top > 0
        invariant 0 <= top <= MAX_PROCESSES && work.Length == MAX_PROCESSES && fresh(work)
        invariant procs[..] == KilledBy(before, current, done)
        invariant BetweenOk(before, parentPid, work[..top], done)
        decreases MAX_PROCESSES - |done|
      {
        ghost var listed := work[..top];
        top := top - 1;
        var v := work[top];
        NextTaken(before, parentPid, listed, done);
        assert listed[..top] == work[..top] && listed[top] == v;
        RoundStarts(before, parentPid, current, work[..top], done, v);
        var i := 0;
        while i < MAX_PROCESSES
          invariant 0 <= i <= MAX_PROCESSES && 0 <= top <= MAX_PROCESSES
          invariant procs[..] == KilledUpTo(before, current, done, v, i)
          invariant WorkOk(before, parentPid, work[..top], done, v, i)
        {
          i, top := KillSlotIfChild(work, top, parentPid, v, i, before, done);
        }
        RoundEnds(before, current, done, v);
        RoundOver(before, parentPid, work[..top], done, v);
        done := done + {v};
      }
      Finished(before, nextPid, current, parentPid, done);
    }

    // ---- creation ----

    method FindFreeSlot() returns (slot: int)
      requires procs.Length == MAX_PROCESSES
      ensures slot == FirstFree(procs[..], 0)
    {
      var i := 0;
      while i < MAX_PROCESSES
        invariant 0 <= i <= MAX_PROCESSES && FirstFree(procs[..], 0) == FirstFree(procs[..], i)
      {
        if procs[i].state == Free {
          return i;
        }
        i := i + 1;
      }
      return -1;
    }

    /** The outcome stands for what happens to the file, the loader and the allocator. */
    method CreateProcess(outcome: Outcome) returns (r: int)
      requires Inv(T())
      modifies this, procs
      ensures T() == Create(old(T()), outcome) && Inv(T())
      ensures r >= 0 <==> outcome == Loaded && FirstFree(old(procs[..]), 0) >= 0
      ensures r >= 0 ==> r == old(nextPid)
    {
      CreateKeeps(T(), outcome);
      var slot := FindFreeSlot();
      if slot < 0 {
        return -1;
      }
      procs[slot] := procs[slot].(state := Blocked);
      if outcome == LoadFails {
        procs[slot] := procs[slot].(state := Free);
        assert procs[..] == old(procs[..]);
        return -1;
      }
      var pid := nextPid;
      nextPid := nextPid + 1;
      procs[slot] := procs[slot].(pid := pid, parentPid := current, exitStatus := 0);
      if outcome == NoStack {
        procs[slot] := procs[slot].(hasStack := false, state := Free);
        return -1;
      }
      procs[slot] := procs[slot].(hasStack := true, contextOk := true);
      procs[slot] := procs[slot].(state := Ready);
      return pid;
    }

    // ---- scheduling ----

    /** The table part of a switch, the same in both schedulers. */
    method SwitchProcess(next: int)
      requires procs.Length == MAX_PROCESSES && 0 <= next < MAX_PROCESSES && -1 <= current < MAX_PROCESSES
      modifies this, procs
      ensures T() == SwitchTo(old(T()), next)
    {
      if current >= 0 && procs[current].state == Running {
        procs[current] := procs[current].(state := Ready);
      }
      procs[next] := procs[next].(state := Running);
      current, pointer := next, next;
    }

    method FindReady(start: nat) returns (next: int)
      requires procs.Length == MAX_PROCESSES
      ensures next == NextReady(procs[..], start, 0)
    {
      var i := 0;
      while i < MAX_PROCESSES
        invariant 0 <= i <= MAX_PROCESSES
        invariant NextReady(procs[..], start, 0) == NextReady(procs[..], start, i)
      {
        var idx := (start + i) % MAX_PROCESSES;
        if procs[idx].state == Ready {
          return idx;
        }
        i := i + 1;
      }
      return -1;
    }

    /** Up to the context switch, which hands the processor to what current designates. */
    method ScheduleNext()
      requires Inv(T())
      modifies this, procs
      ensures T() == Schedule(old(T())) && Inv(T())
    {
      hide PidsOk, NextReady, SwitchTo;
      ScheduleKeeps(T());
      var oldPid := current;
      var next := FindReady(if oldPid >= 0 then oldPid + 1 else 0);
      if next < 0 {
        if oldPid >= 0 && procs[oldPid].state == Running {
          return;
        }
        if oldPid >= 0 {
          current, pointer := -1, -1;
        }
        return;
      }
      if next == oldPid {
        procs[oldPid] := procs[oldPid].(state := Running);
        return;
      }
      SwitchProcess(next);
    }

    /** The two halves of a yield; the timer may interrupt between them. */
    method YieldMark()
      requires Inv(T())
      modifies procs
      ensures T() == MarkReady(old(T())) && Inv(T())
    {
      MarkReadyKeeps(T());
      if current >= 0 {
        procs[current] := procs[current].(state := Ready);
      }
    }

    method CountRunnable() returns (count: nat)
      requires procs.Length == MAX_PROCESSES
      ensures count == CountReady(procs[..], MAX_PROCESSES)
    {
      count := 0;
      for i := 0 to MAX_PROCESSES
        invariant count == CountReady(procs[..], i)
      {
        if procs[i].state == Ready || procs[i].state == Running {
          count := count + 1;
        }
      }
    }

    /** The scan of the timer interrupt: it stops at the interrupted slot if that is ready,
        and skips ready slots without a usable context. */
    method FindFromIrq(oldSlot: int, start: nat) returns (next: int)
      requires procs.Length == MAX_PROCESSES
      ensures next == NextFromIrq(procs[..], oldSlot, start, 0)
    {
      var i := 0;
      while i < MAX_PROCESSES
        invariant 0 <= i <= MAX_PROCESSES
        invariant NextFromIrq(procs[..], oldSlot, start, 0) == NextFromIrq(procs[..], oldSlot, start, i)
      {
        var idx := (start + i) % MAX_PROCESSES;
        if procs[idx].state == Ready {
          if idx == oldSlot || procs[idx].contextOk {
            return idx;
          }
        }
        i := i + 1;
      }
      return -1;
    }

    method TimerInterrupt()
      requires Inv(T())
      modifies this, procs
      ensures T() == ScheduleFromIrq(old(T())) && Inv(T())
    {
      hide PidsOk, CountReady, NextFromIrq, SwitchTo;
      IrqKeeps(T());
      var ready := CountRunnable();
      if current >= 0 && ready <= 1 {
        return;
      }
      if current < 0 && ready == 0 {
        return;
      }
      var next := FindFromIrq(current, if current >= 0 then current + 1 else 0);
      if next >= 0 && next != current {
        SwitchProcess(next);
      }
    }

    // ---- exit and kill ----

    /** Up to the switch back to the kernel context. */
    method ExitCurrent(status: int)
      requires Inv(T())
      modifies this, procs
      ensures T() == Exit(old(T()), status) && Inv(T())
    {
      hide PidsOk, PidsUpTo, KillTree;
      ExitKeeps(T(), status);
      if current < 0 {
        return;
      }
      var slot := current;
      PidIn(procs[..], MAX_PROCESSES, slot);
      KillChildren(procs[slot].pid);
      procs[slot] := procs[slot].(exitStatus := status, state := Zombie);
      procs[slot] := procs[slot].(state := Free);
      current, pointer := -1, -1;
    }

    method KillProcess(pid: int) returns (r: int)
      requires Inv(T())
      modifies procs
      ensures T() == Kill(old(T()), pid) && Inv(T())
      ensures var slot := FindLive(old(procs[..]), pid, 0); r == 0 <==> pid > 0 && slot >= 0 && slot != current
    {
      KillKeeps(T(), pid);
      if pid <= 0 {
        return -1;
      }
      var slot := -1;
      var i := 0;
      while i < MAX_PROCESSES
        invariant 0 <= i <= MAX_PROCESSES && FindLive(procs[..], pid, 0) == FindLive(procs[..], pid, i)
      {
        if procs[i].pid == pid && procs[i].state != Free {
          slot := i;
          break;
        }
        i := i + 1;
      }
      assert slot == FindLive(procs[..], pid, 0);
      if slot < 0 {
        return -1;
      }
      if slot == current {
        return -1;
      }
      PidIn(procs[..], MAX_PROCESSES, slot);
      KillChildren(pid);
      procs[slot] := procs[slot].(hasStack := false);
      procs[slot] := procs[slot].(state := Free, pid := 0);
      return 0;
    }
  }
}
