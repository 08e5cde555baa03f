/** What each operation does to the process table, slot by slot. */
module ProcessEffects {
  import opened Process
  import opened ProcessRuns

  // ---- creation ----

  /** A creation that succeeds makes the first free slot a ready process with the next pid, created by the
      current slot; one that fails leaves every live process alone, and costs a pid only if the file loaded. */
  lemma CreateDoes(t: Table, outcome: Outcome, slot: int)
    requires Inv(t) && 0 <= slot < MAX_PROCESSES && !Live(t.procs[slot])
    requires forall i :: 0 <= i < slot ==> Live(t.procs[i])
    ensures var t' := Apply(t, DoCreate(outcome));
            && t'.current == t.current && t'.pointer == t.pointer
            && t'.nextPid == (if outcome == LoadFails then t.nextPid else t.nextPid + 1)
            && (forall i :: 0 <= i < MAX_PROCESSES && i != slot ==> t'.procs[i] == t.procs[i])
            && (if outcome == Loaded then t'.procs[slot] == Proc(t.nextPid, Ready, t.current, 0, true, true)
                else !Live(t'.procs[slot]))
  {
    assert FirstFree(t.procs, 0) == slot;
  }

  /** With every slot live a creation changes nothing. */
  lemma CreateRefused(t: Table, outcome: Outcome)
    requires Inv(t) && forall i :: 0 <= i < MAX_PROCESSES ==> Live(t.procs[i])
    ensures Apply(t, DoCreate(outcome)) == t
  {
    assert FirstFree(t.procs, 0) == -1;
  }

  // ---- scheduling ----

  /** How many slots a scan that starts after slot c looks at before slot s. */
  function Turn(c: int, s: int): (k: nat)
    requires -1 <= c < MAX_PROCESSES && 0 <= s < MAX_PROCESSES
    ensures k < MAX_PROCESSES
  {
    if s > c then s - c - 1 else s - c - 1 + MAX_PROCESSES
  }

  lemma TurnIs(c: int, s: int, k: nat)
    requires -1 <= c < MAX_PROCESSES && 0 <= s < MAX_PROCESSES && k < MAX_PROCESSES
    ensures (c + 1 + k) % MAX_PROCESSES == s <==> k == Turn(c, s)
  {
  }

  /** Slot s is ready and comes first after the current one, which itself comes last. */
  ghost predicate ComesFirst(t: Table, s: int)
    requires Inv(t)
  {
    && 0 <= s < MAX_PROCESSES && t.procs[s].state == Ready
    && forall i :: 0 <= i < MAX_PROCESSES && t.procs[i].state == Ready ==> Turn(t.current, s) <= Turn(t.current, i)
  }

  ghost predicate NoneReady(t: Table)
    requires Inv(t)
  {
    forall i :: 0 <= i < MAX_PROCESSES ==> t.procs[i].state != Ready
  }

  lemma {:induction false} ScanFinds(procs: seq<Proc>, c: int, k: nat, s: int)
    requires |procs| == MAX_PROCESSES && -1 <= c < MAX_PROCESSES && 0 <= s < MAX_PROCESSES
    requires procs[s].state == Ready && k <= Turn(c, s)
    requires forall i :: 0 <= i < MAX_PROCESSES && procs[i].state == Ready ==> Turn(c, s) <= Turn(c, i)
    ensures NextReady(procs, c + 1, k) == s
    decreases MAX_PROCESSES - k
  {
    var idx := (c + 1 + k) % MAX_PROCESSES;
    TurnIs(c, s, k);
    TurnIs(c, idx, k);
    if idx != s {
      ScanFinds(procs, c, k + 1, s);
    }
  }

  lemma IrqScanStep(procs: seq<Proc>, was: int, start: nat, k: nat)
    requires |procs| == MAX_PROCESSES && k < MAX_PROCESSES
    ensures var idx := (start + k) % MAX_PROCESSES;
            NextFromIrq(procs, was, start, k)
            == if procs[idx].state == Ready && (idx == was || procs[idx].contextOk) then idx
               else NextFromIrq(procs, was, start, k + 1)
  {
  }

  lemma {:induction false} IrqScanFinds(procs: seq<Proc>, was: int, c: int, k: nat, s: int)
    requires |procs| == MAX_PROCESSES && -1 <= c < MAX_PROCESSES && 0 <= s < MAX_PROCESSES
    requires procs[s].state == Ready && procs[s].contextOk && k <= Turn(c, s)
    requires forall i :: 0 <= i < MAX_PROCESSES && procs[i].state == Ready ==> Turn(c, s) <= Turn(c, i)
    ensures NextFromIrq(procs, was, c + 1, k) == s
    decreases MAX_PROCESSES - k
  {
    hide NextFromIrq;
    var idx := (c + 1 + k) % MAX_PROCESSES;
    IrqScanStep(procs, was, c + 1, k);
    TurnIs(c, s, k);
    TurnIs(c, idx, k);
    if idx != s {
      IrqScanFinds(procs, was, c, k + 1, s);
    }
  }

  /** A decision switches to the ready slot that comes first after the current one. The timer leaves a current
      process that has just yielded, and that comes first because no other is ready, as it is. */
  lemma FirstIsChosen(t: Table, step: Step, s: int)
    requires Inv(t) && CurrentRunnable(t) && IsDecision(step) && ComesFirst(t, s)
    ensures var t' := Apply(t, step);
            && t'.current == s == t'.pointer
            && (step == DoSchedule || s != t.current ==> t'.procs[s].state == Running)
  {
    hide PidsOk, CountReady, NextReady, NextFromIrq;
    if step == DoSchedule {
      ScanFinds(t.procs, t.current, 0, s);
    } else {
      IrqScanFinds(t.procs, t.current, t.current, 0, s);
      SomeoneCounts(t.procs, MAX_PROCESSES, s);
      if t.current >= 0 && t.current != s {
        CountsBoth(t.procs, MAX_PROCESSES, t.current, s);
      }
    }
  }

  /** With no slot ready the running process keeps running, and one that does not run gives way to the kernel;
      the timer changes nothing. */
  lemma NoneToChoose(t: Table, step: Step)
    requires Inv(t) && IsDecision(step) && NoneReady(t)
    ensures Apply(t, step) ==
            if step == DoSchedule && t.current >= 0 && t.procs[t.current].state != Running
            then t.(current := -1, pointer := -1) else t
  {
    hide PidsOk, CountReady, NextReady, NextFromIrq;
    NextReadyIsReady(t.procs, Start(t), 0);
    NextFromIrqIsReady(t.procs, t.current, Start(t), 0);
  }

  /** A decision makes no process runnable and stops none from being it, and changes nothing but states, of the
      slot left and the slot chosen alone. */
  lemma DecisionKeepsRunnable(t: Table, step: Step, i: int)
    requires Inv(t) && IsDecision(step) && 0 <= i < MAX_PROCESSES
    ensures var t' := Apply(t, step);
            && (Runnable(t'.procs[i]) <==> Runnable(t.procs[i]))
            && t'.procs[i] == t.procs[i].(state := t'.procs[i].state) && t'.nextPid == t.nextPid
            && (i != t.current && i != t'.current ==> t'.procs[i] == t.procs[i])
  {
    hide PidsOk, CountReady, NextReady, NextFromIrq;
    NextReadyIsReady(t.procs, Start(t), 0);
    NextFromIrqIsReady(t.procs, t.current, Start(t), 0);
  }

  /** A process that was running when another was chosen is ready afterwards. */
  lemma LeftIsReady(t: Table, step: Step)
    requires Inv(t) && IsDecision(step) && t.current >= 0 && t.procs[t.current].state == Running
    requires Apply(t, step).current != t.current
    ensures Apply(t, step).procs[t.current].state == Ready
  {
    hide PidsOk, CountReady, NextReady, NextFromIrq;
    NextReadyIsReady(t.procs, Start(t), 0);
    NextFromIrqIsReady(t.procs, t.current, Start(t), 0);
  }

  /** A yield makes the current process ready and changes nothing else. */
  lemma YieldDoes(t: Table, i: int)
    requires Inv(t) && 0 <= i < MAX_PROCESSES
    ensures var t' := Apply(t, DoMarkReady);
            && t' == t.(procs := t'.procs)
            && t'.procs[i] == if i == t.current then t.procs[i].(state := Ready) else t.procs[i]
  {
  }

  // ---- exit and kill ----

  /** A slot that a kill of process p's descendants frees: live, not the current one, and reached from p by
      recorded parents. */
  ghost predicate Falls(t: Table, p: int, j: int)
    requires Inv(t) && 0 <= j < MAX_PROCESSES
  {
    Live(t.procs[j]) && j != t.current && Reachable(t.procs, p, t.procs[j].parentPid)
  }

  /** Killing a live process other than the current one frees its slot and those reached from it by recorded
      parents, and changes nothing else; no live process has the pid any more. */
  lemma KillDoes(t: Table, i: int)
    requires Inv(t) && 0 <= i < MAX_PROCESSES && Live(t.procs[i]) && i != t.current
    ensures var t' := Apply(t, DoKill(t.procs[i].pid));
            && t'.procs[i] == t.procs[i].(pid := 0, state := Free, hasStack := false) && t' == t.(procs := t'.procs)
            && (forall j :: 0 <= j < MAX_PROCESSES && Live(t'.procs[j]) ==> t'.procs[j].pid != t.procs[i].pid)
            && (forall j :: 0 <= j < MAX_PROCESSES && j != i ==>
                  if Falls(t, t.procs[i].pid, j) then !Live(t'.procs[j]) else t'.procs[j] == t.procs[j])
  {
    hide Reachable, KillTree;
    var pid := t.procs[i].pid;
    assert FindLive(t.procs, pid, 0) == i;
    forall j | 0 <= j < MAX_PROCESSES
      ensures KillTree(t.procs, t.current, pid)[j] == if Falls(t, pid, j) then Freed(t.procs[j]) else t.procs[j]
    {
      KillTreeFreesReachable(t, pid, j);
    }
  }

  /** A kill of the current process, or of a pid that no live process has, changes nothing. */
  lemma KillRefused(t: Table, pid: int)
    requires Inv(t)
    requires forall i :: 0 <= i < MAX_PROCESSES && Live(t.procs[i]) && t.procs[i].pid == pid ==> i == t.current
    ensures Apply(t, DoKill(pid)) == t
  {
  }

  /** An exit frees the current slot, which keeps its pid and holds the status given, and those reached from its
      process by recorded parents, changes nothing else, and hands over to the kernel. */
  lemma ExitDoes(t: Table, status: int)
    requires Inv(t) && t.current >= 0
    ensures var t', was := Apply(t, DoExit(status)), t.procs[t.current];
            && t'.current == -1 == t'.pointer && t'.nextPid == t.nextPid
            && t'.procs[t.current] == was.(state := Free, exitStatus := status)
            && (forall j :: 0 <= j < MAX_PROCESSES && j != t.current ==>
                  if Falls(t, was.pid, j) then !Live(t'.procs[j]) else t'.procs[j] == t.procs[j])
  {
    hide Reachable, KillTree;
    var pid := t.procs[t.current].pid;
    forall j | 0 <= j < MAX_PROCESSES
      ensures KillTree(t.procs, t.current, pid)[j] == if Falls(t, pid, j) then Freed(t.procs[j]) else t.procs[j]
    {
      KillTreeFreesReachable(t, pid, j);
    }
  }

  /** In the kernel there is no process to exit. */
  lemma ExitInKernel(t: Table, status: int)
    requires Inv(t) && t.current < 0
    ensures Apply(t, DoExit(status)) == t
  {
  }
}
