/** Runs of the process table: what holds in every reachable state, and how long a ready
    process can wait. */
module ProcessRuns {
  import opened Process

  datatype Step =
    | DoCreate(outcome: Outcome)
    | DoMarkReady
    | DoSchedule
    | DoIrq
    | DoExit(status: int)
    | DoKill(pid: int)

  ghost function Apply(t: Table, step: Step): (r: Table)
    requires Inv(t)
    ensures Inv(r)
  {
    match step
    case DoCreate(outcome) => CreateKeeps(t, outcome); Create(t, outcome)
    case DoMarkReady => MarkReadyKeeps(t); MarkReady(t)
    case DoSchedule => ScheduleKeeps(t); Schedule(t)
    case DoIrq => IrqKeeps(t); ScheduleFromIrq(t)
    case DoExit(status) => ExitKeeps(t, status); Exit(t, status)
    case DoKill(pid) => KillKeeps(t, pid); Kill(t, pid)
  }

  ghost function Run(t: Table, steps: seq<Step>): (r: Table)
    requires Inv(t)
    ensures Inv(r)
    decreases |steps|
  {
    if steps == [] then t else Run(Apply(t, steps[0]), steps[1..])
  }

  /** In every reachable state the running slot, if any, is the current one and the one
      the interrupt handler will save to; a live slot's pid exceeds its number and its parent, and its
      context is usable, so process_schedule, which does not look, never switches to a bad one. */
  lemma RunningIsCurrent(steps: seq<Step>, i: int, j: int)
    requires 0 <= i < MAX_PROCESSES && 0 <= j < MAX_PROCESSES
    ensures Inv(Init())
    ensures var t := Run(Init(), steps);
            && (t.procs[i].state == Running ==> i == t.current == t.pointer)
            && (t.procs[i].state == Running && t.procs[j].state == Running ==> i == j)
            && (Live(t.procs[i]) ==>
                  t.procs[i].parentPid < t.procs[i].pid && i < t.procs[i].pid && t.procs[i].contextOk)
            && (Live(t.procs[i]) && Live(t.procs[j]) && t.procs[i].pid == t.procs[j].pid ==> i == j)
  {
  }

  // ---- bounded waiting ----

  predicate IsDecision(step: Step) { step == DoSchedule || step == DoIrq }

  function Decisions(steps: seq<Step>): (n: nat)
    ensures n <= |steps|
  {
    if steps == [] then 0 else (if IsDecision(steps[0]) then 1 else 0) + Decisions(steps[1..])
  }

  /** How far slot s is ahead of slot c, cyclically. */
  function Distance(c: int, s: int): (d: nat)
    requires 0 <= c < MAX_PROCESSES && 0 <= s < MAX_PROCESSES
    ensures d < MAX_PROCESSES && (d == 0 <==> c == s)
  {
    if s >= c then s - c else s - c + MAX_PROCESSES
  }

  predicate Runnable(p: Proc) { p.state == Running || p.state == Ready }

  /** Slot s is ready and not chosen, and the kernel is not returned to, all along the run. */
  ghost predicate Waits(t: Table, steps: seq<Step>, s: int)
    requires Inv(t) && 0 <= s < MAX_PROCESSES
    decreases |steps|
  {
    && t.current >= 0 && t.current != s && t.procs[s].state == Ready
    && (steps == [] || Waits(Apply(t, steps[0]), steps[1..], s))
  }

  lemma {:induction false} ReadyWithin(procs: seq<Proc>, start: nat, k: nat, m: nat) returns (j: nat)
    requires |procs| == MAX_PROCESSES && k <= m < MAX_PROCESSES
    requires procs[(start + m) % MAX_PROCESSES].state == Ready
    ensures k <= j <= m && NextReady(procs, start, k) == (start + j) % MAX_PROCESSES
    decreases MAX_PROCESSES - k
  {
    if procs[(start + k) % MAX_PROCESSES].state == Ready {
      j := k;
    } else {
      j := ReadyWithin(procs, start, k + 1, m);
    }
  }

  lemma {:induction false} IrqReadyWithin(procs: seq<Proc>, was: int, start: nat, k: nat, m: nat) returns (j: nat)
    requires |procs| == MAX_PROCESSES && k <= m < MAX_PROCESSES
    requires procs[(start + m) % MAX_PROCESSES].state == Ready && procs[(start + m) % MAX_PROCESSES].contextOk
    ensures k <= j <= m && NextFromIrq(procs, was, start, k) == (start + j) % MAX_PROCESSES
    decreases MAX_PROCESSES - k
  {
    var idx := (start + k) % MAX_PROCESSES;
    if procs[idx].state == Ready && (idx == was || procs[idx].contextOk) {
      j := k;
    } else {
      j := IrqReadyWithin(procs, was, start, k + 1, m);
    }
  }

  lemma {:induction false} CountsBoth(procs: seq<Proc>, n: nat, i: nat, j: nat)
    requires n <= |procs| && i < |procs| && j < |procs| && i != j && Runnable(procs[i]) && Runnable(procs[j])
    ensures CountReady(procs, n) >= (if i < n then 1 else 0) + (if j < n then 1 else 0)
  {
    if n > 0 {
      CountsBoth(procs, n - 1, i, j);
    }
  }

  /** Where the scan lands, in terms of distances. */
  lemma Closer(c: int, s: int, j: nat)
    requires 0 <= c < MAX_PROCESSES && 0 <= s < MAX_PROCESSES && c != s && j < Distance(c, s)
    ensures (c + 1 + (Distance(c, s) - 1)) % MAX_PROCESSES == s
    ensures var next := (c + 1 + j) % MAX_PROCESSES;
            next != c && (next == s || Distance(next, s) < Distance(c, s))
  {
  }

  lemma ScheduleCloser(t: Table, s: int)
    requires Inv(t) && 0 <= s < MAX_PROCESSES && t.current >= 0 && t.current != s && t.procs[s].state == Ready
    ensures var t' := Schedule(t);
            && t'.current >= 0 && |t'.procs| == MAX_PROCESSES && t'.procs[t'.current].state == Running
            && (t'.current == s || Distance(t'.current, s) < Distance(t.current, s))
  {
    hide PidsOk, NextReady;
    var m := Distance(t.current, s) - 1;
    Closer(t.current, s, m);
    var j := ReadyWithin(t.procs, t.current + 1, 0, m);
    Closer(t.current, s, j);
  }

  lemma IrqCloser(t: Table, s: int)
    requires Inv(t) && 0 <= s < MAX_PROCESSES && t.current >= 0 && t.current != s && t.procs[s].state == Ready
    requires Runnable(t.procs[t.current])
    ensures var t' := ScheduleFromIrq(t);
            && t'.current >= 0 && |t'.procs| == MAX_PROCESSES && t'.procs[t'.current].state == Running
            && (t'.current == s || Distance(t'.current, s) < Distance(t.current, s))
  {
    hide PidsOk, CountReady, NextFromIrq;
    var m := Distance(t.current, s) - 1;
    Closer(t.current, s, m);
    CountsBoth(t.procs, MAX_PROCESSES, t.current, s);
    var j := IrqReadyWithin(t.procs, t.current, t.current + 1, 0, m);
    Closer(t.current, s, j);
  }

  /** A scheduling decision picks s or moves closer to it. */
  lemma DecisionCloser(t: Table, step: Step, s: int)
    requires Inv(t) && 0 <= s < MAX_PROCESSES && IsDecision(step)
    requires t.current >= 0 && t.current != s && t.procs[s].state == Ready
    requires Runnable(t.procs[t.current])
    ensures var t' := Apply(t, step);
            && t'.current >= 0 && t'.procs[t'.current].state == Running
            && (t'.current == s || Distance(t'.current, s) < Distance(t.current, s))
  {
    hide PidsOk, CountReady, NextReady, NextFromIrq, Schedule, ScheduleFromIrq, Distance, SetState;
    if step == DoSchedule {
      ScheduleCloser(t, s);
    } else {
      IrqCloser(t, s);
    }
  }

  /** The other steps leave the current process in place and runnable. */
  lemma OthersLeaveCurrent(t: Table, step: Step)
    requires Inv(t) && t.current >= 0 && Runnable(t.procs[t.current]) && !IsDecision(step)
    requires Apply(t, step).current >= 0
    ensures var t' := Apply(t, step);
            t'.current == t.current && Runnable(t'.procs[t'.current])
  {
  }

  /** In any stretch that does not return to the kernel, a process that stays ready is passed over fewer
      times than its distance from the current slot, that is, at most 14 times. */
  lemma {:induction false} BoundedWaiting(t: Table, steps: seq<Step>, s: int)
    requires Inv(t) && 0 <= s < MAX_PROCESSES && Waits(t, steps, s)
    requires Runnable(t.procs[t.current])
    ensures Decisions(steps) < Distance(t.current, s) <= 15
    decreases |steps|
  {
    if steps != [] {
      var t' := Apply(t, steps[0]);
      if IsDecision(steps[0]) {
        DecisionCloser(t, steps[0], s);
      } else {
        OthersLeaveCurrent(t, steps[0]);
      }
      BoundedWaiting(t', steps[1..], s);
    }
  }

  // ---- across returns to the kernel ----

  /** Slot s stays ready and is never chosen; the kernel may be returned to. */
  ghost predicate Starves(t: Table, steps: seq<Step>, s: int)
    requires Inv(t) && 0 <= s < MAX_PROCESSES
    decreases |steps|
  {
    && t.current != s && t.procs[s].state == Ready
    && (steps == [] || Starves(Apply(t, steps[0]), steps[1..], s))
  }

  lemma {:induction false} FirstReadyFromZero(procs: seq<Proc>, k: nat, s: nat)
    requires |procs| == MAX_PROCESSES && k <= s < MAX_PROCESSES && procs[s].state == Ready
    ensures NextReady(procs, 0, k) == s <==> forall i :: k <= i < s ==> procs[i].state != Ready
    decreases s - k
  {
    if k < s && procs[k].state != Ready {
      FirstReadyFromZero(procs, k + 1, s);
    }
  }

  lemma {:induction false} FirstUsableFromZero(procs: seq<Proc>, k: nat, s: nat)
    requires |procs| == MAX_PROCESSES && k <= s < MAX_PROCESSES && procs[s].state == Ready && procs[s].contextOk
    ensures NextFromIrq(procs, -1, 0, k) == s <==>
            forall i :: k <= i < s ==> !(procs[i].state == Ready && procs[i].contextOk)
    decreases s - k
  {
    if k < s && !(procs[k].state == Ready && procs[k].contextOk) {
      FirstUsableFromZero(procs, k + 1, s);
    }
  }

  lemma {:induction false} SomeoneCounts(procs: seq<Proc>, n: nat, i: nat)
    requires n <= |procs| && i < n && Runnable(procs[i])
    ensures CountReady(procs, n) > 0
  {
    if i < n - 1 {
      SomeoneCounts(procs, n - 1, i);
    }
  }

  /** A decision taken in the kernel picks a ready slot exactly when no lower slot is ready. */
  lemma KernelPicksLowest(t: Table, step: Step, s: int)
    requires Inv(t) && 0 <= s < MAX_PROCESSES && t.current == -1 && t.procs[s].state == Ready && IsDecision(step)
    ensures Apply(t, step).current == s <==> forall i :: 0 <= i < s ==> t.procs[i].state != Ready
  {
    hide PidsOk, CountReady, NextReady, NextFromIrq;
    FirstReadyFromZero(t.procs, 0, s);
    NextReadyIsReady(t.procs, 0, 0);
    FirstUsableFromZero(t.procs, 0, s);
    SomeoneCounts(t.procs, MAX_PROCESSES, s);
  }

  /** The current process, if there is one, is running or was just marked ready. */
  ghost predicate CurrentRunnable(t: Table)
    requires Inv(t)
  {
    t.current >= 0 ==> Runnable(t.procs[t.current])
  }

  lemma StepKeepsRunnable(t: Table, step: Step)
    requires Inv(t) && CurrentRunnable(t)
    ensures CurrentRunnable(Apply(t, step))
  {
  }

  lemma {:induction false} RunKeepsRunnable(t: Table, steps: seq<Step>)
    requires Inv(t) && CurrentRunnable(t)
    ensures CurrentRunnable(Run(t, steps))
    decreases |steps|
  {
    hide CurrentRunnable;
    if steps != [] {
      StepKeepsRunnable(t, steps[0]);
      RunKeepsRunnable(Apply(t, steps[0]), steps[1..]);
    }
  }

  /** Slot 0 waits a bounded time even across returns to the kernel, where it is chosen at once. */
  lemma {:induction false} SlotZeroBounded(t: Table, steps: seq<Step>)
    requires Inv(t) && CurrentRunnable(t) && Starves(t, steps, 0)
    ensures Decisions(steps) <= if t.current < 0 then 0 else Distance(t.current, 0) - 1
    decreases |steps|
  {
    if steps != [] {
      var t' := Apply(t, steps[0]);
      StepKeepsRunnable(t, steps[0]);
      if t.current < 0 {
        if IsDecision(steps[0]) {
          KernelPicksLowest(t, steps[0], 0);
        }
      } else if IsDecision(steps[0]) {
        DecisionCloser(t, steps[0], 0);
      } else if t'.current >= 0 {
        OthersLeaveCurrent(t, steps[0]);
      }
      SlotZeroBounded(t', steps[1..]);
    }
  }

  /** The kernel is running; slots 0 and s hold ready processes it created. */
  ghost predicate BothReady(t: Table, s: int) {
    && Inv(t) && t.current == -1 && 0 < s < MAX_PROCESSES
    && t.procs[0].state == Ready && t.procs[0].parentPid == -1
    && t.procs[s].state == Ready && t.procs[s].parentPid == -1
  }

  const ROUND: seq<Step> := [DoSchedule, DoExit(0), DoCreate(Loaded)]

  function Rounds(n: nat): (r: seq<Step>)
    ensures |r| == 3 * n
  {
    if n == 0 then [] else ROUND + Rounds(n - 1)
  }

  lemma KernelChildSurvives(t: Table, p: int, i: int)
    requires Inv(t) && p > 0 && 0 <= i < MAX_PROCESSES && t.procs[i].parentPid == -1
    ensures KillTree(t.procs, t.current, p)[i] == t.procs[i]
  {
    assert !Descends(t.procs, p, -1);
  }

  /** One round runs and replaces the process in slot 0; slot s is not considered. */
  lemma OneRound(t: Table, s: int)
    requires BothReady(t, s)
    ensures var t1 := Apply(t, DoSchedule); var t2 := Apply(t1, DoExit(0)); var t3 := Apply(t2, DoCreate(Loaded));
            && BothReady(t3, s)
            && (forall u :: u in {t, t1, t2, t3} ==> u.current != s && u.procs[s].state == Ready)
  {
    assert NextReady(t.procs, 0, 0) == 0;
    var t1 := Apply(t, DoSchedule);
    assert t1.current == 0;
    KernelChildSurvives(t1, t1.procs[0].pid, s);
    var t2 := Apply(t1, DoExit(0));
    assert FirstFree(t2.procs, 0) == 0;
  }

  lemma NotChosenYet(t: Table, s: int)
    requires BothReady(t, s)
    ensures Starves(t, [], s)
  {
  }

  lemma {:induction false} StarvesForever(t: Table, s: int, n: nat)
    requires BothReady(t, s)
    ensures Starves(t, Rounds(n), s) && Decisions(Rounds(n)) == n
    decreases n
  {
    hide Apply, Inv;
    if n == 0 {
      NotChosenYet(t, s);
    } else {
      OneRound(t, s);
      var steps := Rounds(n);
      var t1 := Apply(t, DoSchedule);
      var t2 := Apply(t1, DoExit(0));
      var t3 := Apply(t2, DoCreate(Loaded));
      StarvesForever(t3, s, n - 1);
      assert steps[0] == DoSchedule && steps[1..][0] == DoExit(0) && steps[1..][1..][0] == DoCreate(Loaded);
      assert steps[1..][1..][1..] == Rounds(n - 1);
      assert t1 == Apply(t, steps[0]) && t2 == Apply(t1, steps[1..][0]) && t3 == Apply(t2, steps[1..][1..][0]);
      assert Starves(t2, steps[1..][1..], s) && Starves(t1, steps[1..], s);
      assert Decisions(steps) == 1 + Decisions(steps[1..]) && Decisions(steps[1..]) == Decisions(steps[1..][1..]);
    }
  }

  function Creations(n: nat): (r: seq<Step>)
    ensures |r| == n
  {
    if n == 0 then [] else [DoCreate(Loaded)] + Creations(n - 1)
  }

  /** The kernel is running and its children fill exactly the first k slots. */
  ghost predicate Filled(t: Table, k: nat) {
    && Inv(t) && t.current == -1 && k <= MAX_PROCESSES
    && (forall i :: 0 <= i < k ==> t.procs[i].state == Ready && t.procs[i].parentPid == -1)
    && (forall i :: k <= i < MAX_PROCESSES ==> !Live(t.procs[i]))
  }

  lemma {:induction false} CreationsFill(t: Table, k: nat, n: nat)
    requires Filled(t, k) && k + n <= MAX_PROCESSES
    ensures Filled(Run(t, Creations(n)), k + n)
    decreases n
  {
    if n > 0 {
      var t' := Apply(t, DoCreate(Loaded));
      assert !Live(t.procs[k]) && forall i :: 0 <= i < k ==> t.procs[i].state == Ready;
      assert FirstFree(t.procs, 0) == k;
      CreationsFill(t', k + 1, n - 1);
      assert Creations(n)[0] == DoCreate(Loaded) && Creations(n)[1..] == Creations(n - 1);
    }
  }

  lemma InitFilled()
    ensures Inv(Init()) && Filled(Init(), 0)
  {
  }

  lemma FilledBoth(t: Table, s: int)
    requires 0 < s < MAX_PROCESSES && Filled(t, s + 1)
    ensures BothReady(t, s)
  {
  }

  /** Every slot but 0 can be passed over any number of times, from a state reached by creations alone. */
  lemma StarvationAcrossKernel(s: int, n: nat)
    requires 0 < s < MAX_PROCESSES
    ensures Inv(Init())
    ensures Starves(Run(Init(), Creations(s + 1)), Rounds(n), s) && Decisions(Rounds(n)) == n
  {
    hide Inv, Filled, BothReady, Apply, Run, Init, Starves;
    InitFilled();
    CreationsFill(Init(), 0, s + 1);
    FilledBoth(Run(Init(), Creations(s + 1)), s);
    StarvesForever(Run(Init(), Creations(s + 1)), s, n);
  }

  /** In no run does slot s, ready all along, see more than b decisions pass it by. */
  ghost predicate WaitsAtMost(s: int, b: nat)
    requires 0 <= s < MAX_PROCESSES && Inv(Init())
  {
    forall before: seq<Step>, steps: seq<Step> :: Starves(Run(Init(), before), steps, s) ==> Decisions(steps) <= b
  }

  /** The wait of a ready process is bounded over all runs exactly for slot 0. */
  lemma WaitBoundedIffSlotZero(s: int)
    requires 0 <= s < MAX_PROCESSES
    ensures Inv(Init())
    ensures (exists b: nat :: WaitsAtMost(s, b)) <==> s == 0
  {
    assert Inv(Init());
    if s == 0 {
      forall before: seq<Step>, steps: seq<Step> | Starves(Run(Init(), before), steps, s)
        ensures Decisions(steps) <= 14
      {
        RunKeepsRunnable(Init(), before);
        SlotZeroBounded(Run(Init(), before), steps);
      }
      assert WaitsAtMost(s, 14);
    } else {
      forall b: nat ensures !WaitsAtMost(s, b) {
        StarvationAcrossKernel(s, b + 1);
      }
    }
  }

  // ---- a child survives its creator ----

  lemma RunOfNone(t: Table)
    requires Inv(t)
    ensures Run(t, []) == t
  {
  }

  lemma RunFirst(t: Table, a: Step, rest: seq<Step>)
    requires Inv(t)
    ensures Run(t, [a] + rest) == Run(Apply(t, a), rest)
  {
    hide Apply, Inv;
    assert ([a] + rest)[1..] == rest;
  }

  lemma RunOfFour(t: Table, a: Step, b: Step, c: Step, d: Step)
    requires Inv(t)
    ensures Run(t, [a, b, c, d]) == Apply(Apply(Apply(Apply(t, a), b), c), d)
  {
    hide Apply, Inv, Run;
    var t1 := Apply(t, a);
    var t2 := Apply(t1, b);
    var t3 := Apply(t2, c);
    RunFirst(t, a, [b, c, d]);
    RunFirst(t1, b, [c, d]);
    RunFirst(t2, c, [d]);
    RunFirst(t3, d, []);
    RunOfNone(Apply(t3, d));
    assert [a, b, c, d] == [a] + [b, c, d] && [b, c, d] == [b] + [c, d] && [c, d] == [c] + [d] && [d] == [d] + [];
  }

  /** A first process runs and creates a second. */
  lemma TwoProcesses() returns (t: Table)
    ensures Inv(Init()) && t == Apply(Apply(Apply(Init(), DoCreate(Loaded)), DoSchedule), DoCreate(Loaded))
    ensures t.current == 0 && Live(t.procs[0]) && t.procs[0].pid == 1
    ensures Live(t.procs[1]) && t.procs[1].pid == 2 && t.procs[1].parentPid == 0
  {
    var t1 := Apply(Init(), DoCreate(Loaded));
    assert t1.procs[0].pid == 1 && t1.procs[0].state == Ready && t1.current == -1 && t1.nextPid == 2;
    assert NextReady(t1.procs, 0, 0) == 0;
    var t2 := Apply(t1, DoSchedule);
    assert FirstFree(t2.procs, 0) == FirstFree(t2.procs, 1) == 1;
    t := Apply(t2, DoCreate(Loaded));
  }

  /** Two processes are created, the second by the first, and the first exits: the second lives on, and its
      recorded parent is the slot number 0, not the pid 1. */
  lemma OrphanRun()
    ensures Inv(Init())
    ensures var t := Run(Init(), [DoCreate(Loaded), DoSchedule, DoCreate(Loaded), DoExit(0)]);
            t.current == -1 && !Live(t.procs[0]) && Live(t.procs[1]) && t.procs[1].pid == 2 && t.procs[1].parentPid == 0
  {
    hide PidsOk, NextReady, FirstFree;
    var t := TwoProcesses();
    RunOfFour(Init(), DoCreate(Loaded), DoSchedule, DoCreate(Loaded), DoExit(0));
    OwnChildrenSpared(t, 0, 1);
  }
}
