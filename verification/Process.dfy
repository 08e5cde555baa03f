/** The process table: creation, the two schedulers, exit and the kill tree, as values. */
module Process {

  datatype State = Free | Ready | Running | Blocked | Zombie

  /** One slot. parentPid holds what process_create stores there: the creator's slot
      number, or -1 for the kernel. */
  datatype Proc = Proc(pid: int, state: State, parentPid: int, exitStatus: int, hasStack: bool, contextOk: bool)

  const MAX_PROCESSES := 16

  /** current is a slot number or -1 for the kernel; pointer is the slot that the
      current_process pointer designates, -1 for NULL. */
  datatype Table = Table(procs: seq<Proc>, current: int, pointer: int, nextPid: int)

  predicate Live(p: Proc) { p.state != Free }

  // ---- invariant ----

  ghost predicate PidsOk(procs: seq<Proc>, nextPid: int) {
    && nextPid > 0
    && (forall i :: 0 <= i < |procs| && Live(procs[i]) ==>
          && i < procs[i].pid < nextPid && -1 <= procs[i].parentPid < procs[i].pid)
    && (forall i, j :: 0 <= i < j < |procs| && Live(procs[i]) && Live(procs[j]) ==> procs[i].pid != procs[j].pid)
  }

  ghost predicate Inv(t: Table) {
    && |t.procs| == MAX_PROCESSES
    && -1 <= t.current < MAX_PROCESSES && t.pointer == t.current
    && (t.current >= 0 ==> Live(t.procs[t.current]))
    && (forall i :: 0 <= i < |t.procs| && t.procs[i].state == Running ==> i == t.current)
    && (forall i :: 0 <= i < |t.procs| && Live(t.procs[i]) ==> t.procs[i].contextOk)
    && PidsOk(t.procs, t.nextPid)
  }

  function Init(): Table {
    Table(seq(MAX_PROCESSES, i => Proc(0, Free, 0, 0, false, false)), -1, -1, 1)
  }

  // ---- creation ----

  datatype Outcome = LoadFails | NoStack | Loaded

  function FirstFree(procs: seq<Proc>, from: nat): (r: int)
    requires from <= |procs|
    ensures r == -1 || (from <= r < |procs| && !Live(procs[r]) && forall i :: from <= i < r ==> Live(procs[i]))
    ensures r == -1 ==> forall i :: from <= i < |procs| ==> Live(procs[i])
    decreases |procs| - from
  {
    if from == |procs| then -1 else if !Live(procs[from]) then from else FirstFree(procs, from + 1)
  }

  /** process_create, taken as one step: what it leaves in the table. */
  function Create(t: Table, outcome: Outcome): Table
    requires |t.procs| == MAX_PROCESSES
  {
    var slot := FirstFree(t.procs, 0);
    if slot < 0 || outcome == LoadFails then t
    else
      var p := t.procs[slot].(pid := t.nextPid, parentPid := t.current, exitStatus := 0);
      if outcome == NoStack then t.(procs := t.procs[slot := p.(hasStack := false)], nextPid := t.nextPid + 1)
      else
        t.(procs := t.procs[slot := p.(hasStack := true, contextOk := true, state := Ready)],
           nextPid := t.nextPid + 1)
  }

  /** First-free allocation keeps every pid above its slot number, so the recorded parent,
      a slot number, stays below the child's pid. */
  lemma CreateKeeps(t: Table, outcome: Outcome)
    requires Inv(t)
    ensures Inv(Create(t, outcome))
  {
    var slot := FirstFree(t.procs, 0);
    if slot >= 0 && outcome != LoadFails {
      if slot > 0 {
        assert Live(t.procs[slot - 1]);
      }
      assert slot < t.nextPid;
      assert t.current < t.nextPid;
    }
  }

  // ---- the kill tree ----

  /** v is p, or the pid of a live process whose recorded parent descends from p. */
  ghost predicate Descends(procs: seq<Proc>, p: int, v: int)
    decreases if v < 0 then 0 else v + 1
  {
    v == p ||
    exists i :: 0 <= i < |procs| && Live(procs[i]) && procs[i].pid == v && -1 <= procs[i].parentPid < v &&
                Descends(procs, p, procs[i].parentPid)
  }

  function Freed(p: Proc): Proc {
    p.(state := Free, pid := 0, hasStack := false)
  }

  /** The slots that a kill of p's descendants frees. */
  ghost predicate Doomed(procs: seq<Proc>, current: int, p: int, i: int)
    requires 0 <= i < |procs|
  {
    Live(procs[i]) && i != current && Descends(procs, p, procs[i].parentPid)
  }

  ghost function KillTree(procs: seq<Proc>, current: int, p: int): (r: seq<Proc>)
    ensures |r| == |procs|
  {
    seq(|procs|, i requires 0 <= i < |procs| => if Doomed(procs, current, p, i) then Freed(procs[i]) else procs[i])
  }

  lemma KillTreeKeeps(t: Table, p: int)
    requires Inv(t)
    ensures Inv(t.(procs := KillTree(t.procs, t.current, p)))
  {
  }

  /** Slots that lead from value v up to p by recorded parents: a live process of pid v, one of its
      recorded parent's value, and so on. */
  predicate Chain(procs: seq<Proc>, p: int, slots: seq<nat>, v: int)
    decreases |slots|
  {
    if slots == [] then v == p
    else
      && slots[0] < |procs| && Live(procs[slots[0]]) && procs[slots[0]].pid == v
      && Chain(procs, p, slots[1..], procs[slots[0]].parentPid)
  }

  ghost predicate Reachable(procs: seq<Proc>, p: int, v: int) {
    exists slots: seq<nat> :: Chain(procs, p, slots, v)
  }

  /** Recorded links lead to smaller values, so no chain of them comes back to where it started. */
  lemma {:induction false} ChainsGoDown(procs: seq<Proc>, nextPid: int, p: int, slots: seq<nat>, v: int)
    requires PidsOk(procs, nextPid) && Chain(procs, p, slots, v)
    ensures p <= v && (slots != [] ==> p < v && v > 0)
    decreases |slots|
  {
    if slots != [] {
      ChainsGoDown(procs, nextPid, p, slots[1..], procs[slots[0]].parentPid);
    }
  }

  lemma {:induction false} ChainDescends(procs: seq<Proc>, nextPid: int, p: int, slots: seq<nat>, v: int)
    requires PidsOk(procs, nextPid) && Chain(procs, p, slots, v)
    ensures Descends(procs, p, v)
    decreases |slots|
  {
    if slots != [] {
      ChainDescends(procs, nextPid, p, slots[1..], procs[slots[0]].parentPid);
    }
  }

  lemma {:induction false} DescendsChain(procs: seq<Proc>, p: int, v: int) returns (slots: seq<nat>)
    requires Descends(procs, p, v)
    ensures Chain(procs, p, slots, v)
    decreases if v < 0 then 0 else v + 1
  {
    if v == p {
      slots := [];
    } else {
      var i: nat :| i < |procs| && Live(procs[i]) && procs[i].pid == v && -1 <= procs[i].parentPid < v &&
               Descends(procs, p, procs[i].parentPid);
      var rest := DescendsChain(procs, p, procs[i].parentPid);
      slots := [i] + rest;
      assert slots[1..] == rest;
    }
  }

  /** Descending from p is being reachable from p by any chain of recorded links. */
  lemma DescendsIffReachable(procs: seq<Proc>, nextPid: int, p: int, v: int)
    requires PidsOk(procs, nextPid)
    ensures Descends(procs, p, v) <==> Reachable(procs, p, v)
  {
    if Descends(procs, p, v) {
      var slots := DescendsChain(procs, p, v);
    }
    if Reachable(procs, p, v) {
      var slots: seq<nat> :| Chain(procs, p, slots, v);
      ChainDescends(procs, nextPid, p, slots, v);
    }
  }

  /** What a kill of p's descendants frees, said by reachability alone. */
  lemma KillTreeFreesReachable(t: Table, p: int, i: int)
    requires Inv(t) && 0 <= i < MAX_PROCESSES
    ensures KillTree(t.procs, t.current, p)[i] ==
            if Live(t.procs[i]) && i != t.current && Reachable(t.procs, p, t.procs[i].parentPid) then Freed(t.procs[i])
            else t.procs[i]
  {
    DescendsIffReachable(t.procs, t.nextPid, p, t.procs[i].parentPid);
  }

  // ---- whose children a kill frees ----

  /** parent_pid holds the creator's slot number, and every pid above the slot exceeds it: no kill or exit
      of a process frees one it created. */
  lemma OwnChildrenSpared(t: Table, i: int, c: int)
    requires Inv(t) && 0 <= i < MAX_PROCESSES && 0 <= c < MAX_PROCESSES
    requires Live(t.procs[i]) && Live(t.procs[c]) && t.procs[c].parentPid == i
    ensures !Doomed(t.procs, t.current, t.procs[i].pid, c)
  {
    if Descends(t.procs, t.procs[i].pid, i) {
      var slots := DescendsChain(t.procs, t.procs[i].pid, i);
      ChainsGoDown(t.procs, t.nextPid, t.procs[i].pid, slots, i);
    }
  }

  /** The slots created by slot i that hold a live process other than the current one. */
  predicate LiveChild(t: Table, i: int, c: int)
    requires |t.procs| == MAX_PROCESSES
  {
    0 <= c < MAX_PROCESSES && Live(t.procs[c]) && t.procs[c].parentPid == i && c != t.current
  }

  /** A kill of process i frees all its children exactly when it has none; what it frees are the children of
      the slot whose number is its pid. */
  lemma KillFreesChildrenIff(t: Table, i: int)
    requires Inv(t) && 0 <= i < MAX_PROCESSES && Live(t.procs[i])
    ensures (forall c :: LiveChild(t, i, c) ==> Doomed(t.procs, t.current, t.procs[i].pid, c)) <==>
            forall c :: !LiveChild(t, i, c)
    ensures forall c :: LiveChild(t, t.procs[i].pid, c) ==> Doomed(t.procs, t.current, t.procs[i].pid, c)
  {
    forall c | LiveChild(t, i, c) ensures !Doomed(t.procs, t.current, t.procs[i].pid, c) {
      OwnChildrenSpared(t, i, c);
    }
  }

  // ---- exit and kill ----

  function FindLive(procs: seq<Proc>, pid: int, from: nat): (r: int)
    requires from <= |procs|
    ensures r == -1 || (from <= r < |procs| && Live(procs[r]) && procs[r].pid == pid)
    ensures r == -1 ==> forall i :: from <= i < |procs| ==> !(Live(procs[i]) && procs[i].pid == pid)
    decreases |procs| - from
  {
    if from == |procs| then -1
    else if procs[from].pid == pid && Live(procs[from]) then from else FindLive(procs, pid, from + 1)
  }

  ghost function Exit(t: Table, status: int): Table
    requires |t.procs| == MAX_PROCESSES && t.current < MAX_PROCESSES
  {
    if t.current < 0 then t
    else
      var procs := KillTree(t.procs, t.current, t.procs[t.current].pid);
      t.(procs := procs[t.current := procs[t.current].(state := Free, exitStatus := status)],
         current := -1, pointer := -1)
  }

  ghost function Kill(t: Table, pid: int): Table
    requires |t.procs| == MAX_PROCESSES
  {
    var slot := FindLive(t.procs, pid, 0);
    if pid <= 0 || slot < 0 || slot == t.current then t
    else
      var procs := KillTree(t.procs, t.current, pid);
      t.(procs := procs[slot := Freed(procs[slot])])
  }

  lemma ExitKeeps(t: Table, status: int)
    requires Inv(t)
    ensures Inv(Exit(t, status))
  {
    if t.current >= 0 {
      KillTreeKeeps(t, t.procs[t.current].pid);
    }
  }

  lemma KillKeeps(t: Table, pid: int)
    requires Inv(t)
    ensures Inv(Kill(t, pid))
  {
    KillTreeKeeps(t, pid);
  }

  // ---- scheduling ----

  /** The first slot from start + k on, cyclically, that is ready (and, if asked, has a
      usable context); -1 if none. */
  function NextReady(procs: seq<Proc>, start: nat, k: nat): (r: int)
    requires |procs| == MAX_PROCESSES && k <= MAX_PROCESSES
    ensures -1 <= r < MAX_PROCESSES
    decreases MAX_PROCESSES - k
  {
    if k == MAX_PROCESSES then -1
    else
      var idx := (start + k) % MAX_PROCESSES;
      if procs[idx].state == Ready then idx else NextReady(procs, start, k + 1)
  }

  function SetState(procs: seq<Proc>, i: int, s: State): (r: seq<Proc>)
    requires 0 <= i < |procs|
    ensures |r| == |procs|
  {
    procs[i := procs[i].(state := s)]
  }

  /** The old process, if it is running, becomes ready; slot next runs. */
  function SwitchTo(t: Table, next: int): Table
    requires |t.procs| == MAX_PROCESSES && 0 <= next < MAX_PROCESSES && t.current < MAX_PROCESSES
  {
    var procs := if t.current >= 0 && t.procs[t.current].state == Running then SetState(t.procs, t.current, Ready)
                 else t.procs;
    t.(procs := SetState(procs, next, Running), current := next, pointer := next)
  }

  function Start(t: Table): nat
    requires -1 <= t.current
  {
    if t.current >= 0 then t.current + 1 else 0
  }

  /** process_schedule up to the context switch. */
  function Schedule(t: Table): Table
    requires |t.procs| == MAX_PROCESSES && -1 <= t.current < MAX_PROCESSES
  {
    var next := NextReady(t.procs, Start(t), 0);
    if next < 0 then
      if t.current >= 0 && t.procs[t.current].state == Running then t
      else if t.current >= 0 then t.(current := -1, pointer := -1)
      else t
    else if next == t.current then t.(procs := SetState(t.procs, next, Running))
    else SwitchTo(t, next)
  }

  /** The first half of process_yield. */
  function MarkReady(t: Table): Table
    requires |t.procs| == MAX_PROCESSES && t.current < MAX_PROCESSES
  {
    if t.current >= 0 then t.(procs := SetState(t.procs, t.current, Ready)) else t
  }

  function CountReady(procs: seq<Proc>, n: nat): (c: nat)
    requires n <= |procs|
    ensures c <= n
  {
    if n == 0 then 0 else CountReady(procs, n - 1) + (if procs[n - 1].state in {Ready, Running} then 1 else 0)
  }

  /** What the scan of the timer interrupt stops at: the first ready slot that is the
      interrupted one or has a usable context. */
  function NextFromIrq(procs: seq<Proc>, was: int, start: nat, k: nat): (r: int)
    requires |procs| == MAX_PROCESSES && k <= MAX_PROCESSES
    ensures -1 <= r < MAX_PROCESSES
    decreases MAX_PROCESSES - k
  {
    if k == MAX_PROCESSES then -1
    else
      var idx := (start + k) % MAX_PROCESSES;
      if procs[idx].state == Ready && (idx == was || procs[idx].contextOk) then idx
      else NextFromIrq(procs, was, start, k + 1)
  }

  function ScheduleFromIrq(t: Table): Table
    requires |t.procs| == MAX_PROCESSES && -1 <= t.current < MAX_PROCESSES
  {
    var ready := CountReady(t.procs, MAX_PROCESSES);
    if (t.current >= 0 && ready <= 1) || (t.current < 0 && ready == 0) then t
    else
      var next := NextFromIrq(t.procs, t.current, Start(t), 0);
      if next < 0 || next == t.current then t else SwitchTo(t, next)
  }

  lemma {:induction false} NextReadyIsReady(procs: seq<Proc>, start: nat, k: nat)
    requires |procs| == MAX_PROCESSES && k <= MAX_PROCESSES
    ensures var r := NextReady(procs, start, k); r >= 0 ==> procs[r].state == Ready
    decreases MAX_PROCESSES - k
  {
    if k < MAX_PROCESSES {
      NextReadyIsReady(procs, start, k + 1);
    }
  }

  lemma {:induction false} NextFromIrqIsReady(procs: seq<Proc>, was: int, start: nat, k: nat)
    requires |procs| == MAX_PROCESSES && k <= MAX_PROCESSES
    ensures var r := NextFromIrq(procs, was, start, k);
            r >= 0 ==> procs[r].state == Ready && (r == was || procs[r].contextOk)
    decreases MAX_PROCESSES - k
  {
    if k < MAX_PROCESSES {
      NextFromIrqIsReady(procs, was, start, k + 1);
    }
  }

  lemma SwitchKeeps(t: Table, next: int)
    requires Inv(t) && 0 <= next < MAX_PROCESSES && t.procs[next].state == Ready
    ensures Inv(SwitchTo(t, next))
  {
  }

  lemma ScheduleKeeps(t: Table)
    requires Inv(t)
    ensures Inv(Schedule(t))
  {
    NextReadyIsReady(t.procs, Start(t), 0);
    var next := NextReady(t.procs, Start(t), 0);
    if next >= 0 && next != t.current {
      SwitchKeeps(t, next);
    }
  }

  lemma MarkReadyKeeps(t: Table)
    requires Inv(t)
    ensures Inv(MarkReady(t))
  {
  }

  lemma IrqKeeps(t: Table)
    requires Inv(t)
    ensures Inv(ScheduleFromIrq(t))
  {
    NextFromIrqIsReady(t.procs, t.current, Start(t), 0);
    var next := NextFromIrq(t.procs, t.current, Start(t), 0);
    if next >= 0 && next != t.current {
      SwitchKeeps(t, next);
    }
  }
}
