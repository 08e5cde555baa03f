/** The input virtqueue: a driver that recycles 16 descriptors against a device that takes
    and completes them in any order and at any time (section 2.6 of Virtio 1.1). */
module Virtqueue {

  const QUEUE_SIZE := 16
  const IDX := 0x10000      // the 16-bit index counters wrap here

  /** The ring slot of the k-th entry, and the k-th value of a 16-bit counter. */
  function Slot(k: nat): (i: nat)
    ensures i < QUEUE_SIZE
  {
    k % QUEUE_SIZE
  }

  function Wrap(k: nat): (i: nat)
    ensures i < IDX
  {
    k % IDX
  }

  /** A wrapped counter still finds the right slot, since 16 divides 2^16, and steps as the counter does. */
  lemma WrapOk(k: nat)
    ensures Slot(Wrap(k)) == Slot(k) && Wrap(Wrap(k) + 1) == Wrap(k + 1)
  {
    assert k == IDX * (k / IDX) + Wrap(k);
    assert IDX == QUEUE_SIZE * 4096;
  }

  lemma WrapAdd(k: nat)
    ensures (Wrap(k) + QUEUE_SIZE) % IDX == Wrap(k + QUEUE_SIZE)
  {
    assert k == IDX * (k / IDX) + Wrap(k);
  }

  /** Counters less than a ring apart use different slots and wrap to different values. */
  lemma Apart(a: nat, b: nat)
    requires a < b
    ensures b < a + QUEUE_SIZE ==> Slot(a) != Slot(b)
    ensures b < a + IDX ==> Wrap(a) != Wrap(b)
  {
  }

  datatype Event = Event(kind: nat, code: nat, value: nat)

  /** Where the driver is in its poll: outside, at the loop head, holding a completed
      descriptor, having stored it in the available ring, or having published it. The
      argument is the used index read when the poll began. */
  datatype Pc = Idle | Loop(seen: nat) | Held(seen: nat, id: nat) | Stored(seen: nat, id: nat) | Bumped(seen: nat)

  /** Shared memory, the two sides' private counters, and the history: every descriptor
      made available, every completion with its event, the events handled, and how many completions
      the current poll saw. */
  datatype World = World(
    availRing: seq<nat>, availIdx: nat, usedRing: seq<nat>, usedIdx: nat, events: seq<Event>,
    lastUsed: nat, pc: Pc,
    devIdx: nat, inDevice: set<nat>,
    madeAvailable: seq<nat>, taken: nat, completed: seq<nat>, sent: seq<Event>, handled: seq<Event>,
    goal: nat)

  /** Queue setup: every descriptor is available. */
  function Setup(events: seq<Event>): World {
    var ids := seq(QUEUE_SIZE, i => i);
    World(ids, QUEUE_SIZE, seq(QUEUE_SIZE, i => 0), 0, events, 0, Idle, 0, {}, ids, 0, [], [], [], 0)
  }

  datatype Step =
    | Take
    | Fill(id: nat, event: Event)
    | Complete(id: nat)
    | BeginPoll
    | ReadUsed
    | StoreAvail
    | BumpAvail
    | BumpUsed
    | EndPoll

  predicate DeviceStep(s: Step) { s.Take? || s.Fill? || s.Complete? }

  predicate Sized(w: World) {
    |w.availRing| == QUEUE_SIZE && |w.usedRing| == QUEUE_SIZE && |w.events| == QUEUE_SIZE
  }

  predicate Enabled(w: World, s: Step)
    requires Sized(w)
  {
    match s
    case Take => w.devIdx != w.availIdx
    case Fill(id, _) => id in w.inDevice && id < QUEUE_SIZE
    case Complete(id) => id in w.inDevice && id < QUEUE_SIZE
    case BeginPoll => w.pc == Idle
    // Reading past the event buffers is no step: RunsStayInBounds shows the driver never does.
    case ReadUsed => w.pc.Loop? && w.lastUsed != w.pc.seen && w.usedRing[Slot(w.lastUsed)] < QUEUE_SIZE
    case StoreAvail => w.pc.Held?
    case BumpAvail => w.pc.Stored?
    case BumpUsed => w.pc.Bumped?
    case EndPoll => w.pc.Loop? && w.lastUsed == w.pc.seen
  }

  function Next(w: World, s: Step): (r: World)
    requires Sized(w) && Enabled(w, s)
    ensures Sized(r)
  {
    match s
    case Take =>
      var id := w.availRing[Slot(w.devIdx)];
      w.(devIdx := Wrap(w.devIdx + 1), inDevice := w.inDevice + {id}, taken := w.taken + 1)
    case Fill(id, event) => w.(events := w.events[id := event])
    case Complete(id) =>
      w.(usedRing := w.usedRing[Slot(w.usedIdx) := id], usedIdx := Wrap(w.usedIdx + 1),
         inDevice := w.inDevice - {id}, completed := w.completed + [id], sent := w.sent + [w.events[id]])
    case BeginPoll => w.(pc := Loop(w.usedIdx), goal := |w.completed|)
    case ReadUsed =>
      var id := w.usedRing[Slot(w.lastUsed)];
      w.(pc := Held(w.pc.seen, id), handled := w.handled + [w.events[id]])
    case StoreAvail =>
      w.(availRing := w.availRing[Slot(w.availIdx) := w.pc.id], pc := Stored(w.pc.seen, w.pc.id))
    case BumpAvail =>
      w.(availIdx := Wrap(w.availIdx + 1), pc := Bumped(w.pc.seen), madeAvailable := w.madeAvailable + [w.pc.id])
    case BumpUsed => w.(lastUsed := Wrap(w.lastUsed + 1), pc := Loop(w.pc.seen))
    case EndPoll => w.(pc := Idle)
  }

  // ---- invariant ----

  /** Every id below n once. */
  ghost function Ids(n: nat): multiset<nat> {
    if n == 0 then multiset{} else Ids(n - 1) + multiset{n - 1}
  }

  lemma {:induction false} IdsCount(n: nat, id: nat)
    ensures Ids(n)[id] == if id < n then 1 else 0
  {
    if n > 0 {
      IdsCount(n - 1, id);
    }
  }

  /** Descriptors handled and republished, over all time. */
  function Recycled(w: World): int { |w.madeAvailable| - QUEUE_SIZE }

  ghost predicate CountersOk(w: World) {
    var r, u := Recycled(w), |w.completed|;
    && 0 <= r <= u <= w.taken <= |w.madeAvailable| && |w.sent| == u
    && w.availIdx == Wrap(|w.madeAvailable|) && w.usedIdx == Wrap(u) && w.devIdx == Wrap(w.taken)
  }

  /** The driver's own position. */
  ghost predicate DriverOk(w: World)
    requires CountersOk(w)
  {
    var r, u := Recycled(w), |w.completed|;
    && (w.pc != Idle ==> w.pc.seen == Wrap(w.goal) && w.goal <= u)
    && |w.handled| == (if w.pc.Held? || w.pc.Stored? then r + 1 else r)
    && (if w.pc.Bumped? then r > 0 && w.lastUsed == Wrap(r - 1) && r <= w.goal else w.lastUsed == Wrap(r))
    && (w.pc.Loop? ==> r <= w.goal)
    && (w.pc.Held? || w.pc.Stored? ==> r < w.goal && w.pc.id == w.completed[r])
  }

  /** Ring slots hold what the history says for everything not yet taken or reaped. */
  ghost predicate RingsOk(w: World)
    requires Sized(w) && CountersOk(w)
  {
    && (forall k :: w.taken <= k < |w.madeAvailable| ==> w.availRing[Slot(k)] == w.madeAvailable[k])
    && (w.pc.Stored? ==> w.availRing[Slot(|w.madeAvailable|)] == w.pc.id)
    && (forall k :: Recycled(w) <= k < |w.completed| ==> w.usedRing[Slot(k)] == w.completed[k])
  }

  /** The 16 ids are split among available, in the device, and completed but not recycled. */
  ghost predicate Partition(w: World)
    requires CountersOk(w)
  {
    && multiset(w.madeAvailable[w.taken..]) + multiset(w.inDevice) + multiset(w.completed[Recycled(w)..]) ==
       Ids(QUEUE_SIZE)
    && |w.inDevice| == w.taken - |w.completed|
  }

  /** A completed buffer keeps its event until it is recycled; events are handled in order. */
  ghost predicate EventsOk(w: World)
    requires Sized(w) && CountersOk(w)
  {
    && (forall k :: Recycled(w) <= k < |w.completed| ==>
          w.completed[k] < QUEUE_SIZE && w.events[w.completed[k]] == w.sent[k])
    && |w.handled| <= |w.sent| && w.handled == w.sent[..|w.handled|]
  }

  ghost predicate Inv(w: World) {
    Sized(w) && CountersOk(w) && DriverOk(w) && RingsOk(w) && Partition(w) && EventsOk(w)
  }

  // ---- steps of the device ----

  lemma CountsAdd(a: multiset<nat>, b: multiset<nat>, c: multiset<nat>, id: nat)
    ensures (a + b + c)[id] == a[id] + b[id] + c[id]
  {
  }

  lemma IdsIn(w: World, id: nat)
    requires CountersOk(w) && Partition(w)
    ensures multiset(w.madeAvailable[w.taken..])[id] + multiset(w.inDevice)[id] +
            multiset(w.completed[Recycled(w)..])[id]
            == if id < QUEUE_SIZE then 1 else 0
  {
    hide Ids;
    IdsCount(QUEUE_SIZE, id);
    CountsAdd(multiset(w.madeAvailable[w.taken..]), multiset(w.inDevice), multiset(w.completed[Recycled(w)..]), id);
  }

  /** No more than 16 descriptors are anywhere at once. */
  lemma Lengths(w: World)
    requires CountersOk(w) && Partition(w)
    ensures |w.madeAvailable| == Recycled(w) + QUEUE_SIZE
    ensures w.inDevice != {} ==> w.taken > |w.completed|
  {
    hide Wrap, Ids;
  }

  /** What the device may take is the oldest descriptor it has not taken. */
  lemma TakesNext(w: World)
    requires Sized(w) && CountersOk(w) && RingsOk(w) && Enabled(w, Take)
    ensures w.taken < |w.madeAvailable|
    ensures w.availRing[Slot(w.devIdx)] == w.madeAvailable[w.taken]
  {
    hide Slot, Wrap;
    WrapOk(w.taken);
  }

  lemma FirstApart(s: seq<nat>, t: nat)
    requires t < |s|
    ensures multiset(s[t..]) == multiset{s[t]} + multiset(s[t + 1..])
  {
    assert s[t..] == [s[t]] + s[t + 1..];
  }

  lemma OneMore(s: set<nat>, id: nat)
    requires id !in s
    ensures multiset(s + {id}) == multiset(s) + multiset{id} && |s + {id}| == |s| + 1
  {
  }

  lemma TakePartition(w: World)
    requires Sized(w) && CountersOk(w) && RingsOk(w) && Partition(w) && Enabled(w, Take)
    requires CountersOk(Next(w, Take))
    ensures Partition(Next(w, Take))
  {
    hide RingsOk, Slot, Wrap, Ids;
    var w', t := Next(w, Take), w.taken;
    TakesNext(w);
    var id := w.madeAvailable[t];
    FirstApart(w.madeAvailable, t);
    IdsIn(w, id);
    assert id !in w.inDevice;
    OneMore(w.inDevice, id);
  }

  lemma TakeKeeps(w: World)
    requires Inv(w) && Enabled(w, Take)
    ensures Inv(Next(w, Take))
  {
    hide Partition, Slot, Wrap, Ids;
    TakesNext(w);
    WrapOk(w.taken);
    TakePartition(w);
  }

  /** A descriptor in the device is not among the completed ones. */
  lemma InDeviceApart(w: World, id: nat)
    requires CountersOk(w) && Partition(w) && id in w.inDevice
    ensures id < QUEUE_SIZE
    ensures forall k :: Recycled(w) <= k < |w.completed| ==> w.completed[k] != id
  {
    hide Wrap, Ids;
    IdsIn(w, id);
    assert id in multiset(w.inDevice);
    var r := Recycled(w);
    forall k | r <= k < |w.completed| ensures w.completed[k] != id {
      assert w.completed[k] == w.completed[r..][k - r];
      assert w.completed[k] in multiset(w.completed[r..]);
    }
  }

  lemma FillKeeps(w: World, id: nat, event: Event)
    requires Inv(w) && Enabled(w, Fill(id, event))
    ensures Inv(Next(w, Fill(id, event)))
  {
    hide Slot, Wrap, Ids;
    InDeviceApart(w, id);
  }

  lemma CompletePartition(w: World, id: nat)
    requires Sized(w) && CountersOk(w) && Partition(w) && Enabled(w, Complete(id))
    requires CountersOk(Next(w, Complete(id)))
    ensures Partition(Next(w, Complete(id)))
  {
    hide Slot, Wrap, Ids;
    var w', r := Next(w, Complete(id)), Recycled(w);
    assert w'.completed[r..] == w.completed[r..] + [id];
    assert multiset(w.inDevice) == multiset(w'.inDevice) + multiset{id};
    assert multiset(w'.completed[r..]) == multiset(w.completed[r..]) + multiset{id};
  }

  /** The used slot written holds no completion still to be read. */
  lemma CompleteRings(w: World, id: nat)
    requires Sized(w) && CountersOk(w) && RingsOk(w) && Enabled(w, Complete(id))
    requires w.taken > |w.completed| && CountersOk(Next(w, Complete(id)))
    ensures RingsOk(Next(w, Complete(id)))
  {
    hide Slot, Wrap;
    var r, u := Recycled(w), |w.completed|;
    WrapOk(u);
    forall k | r <= k < u ensures Slot(k) != Slot(u) {
      Apart(k, u);
    }
  }

  lemma CompleteKeeps(w: World, id: nat)
    requires Inv(w) && Enabled(w, Complete(id))
    ensures Inv(Next(w, Complete(id)))
  {
    hide Partition, RingsOk, Slot, Wrap, Ids;
    Lengths(w);
    WrapOk(|w.completed|);
    CompletePartition(w, id);
    CompleteRings(w, id);
    InDeviceApart(w, id);
  }

  // ---- steps of the driver ----

  /** The driver reads the oldest completion it has not handled. */
  lemma ReadsNext(w: World)
    requires Sized(w) && CountersOk(w) && DriverOk(w) && RingsOk(w) && w.pc.Loop? && w.lastUsed != w.pc.seen
    ensures Recycled(w) < w.goal
    ensures w.usedRing[Slot(w.lastUsed)] == w.completed[Recycled(w)]
  {
    hide Slot, Wrap;
    WrapOk(Recycled(w));
  }

  /** The poll ends only when everything it saw was handled. */
  lemma PollDone(w: World)
    requires CountersOk(w) && DriverOk(w) && w.pc.Loop? && w.lastUsed == w.pc.seen
    ensures Recycled(w) == w.goal
  {
    hide Wrap;
    if Recycled(w) < w.goal {
      Apart(Recycled(w), w.goal);
    }
  }

  lemma SamePartition(w: World, w': World)
    requires CountersOk(w) && CountersOk(w') && Partition(w)
    requires w'.madeAvailable == w.madeAvailable && w'.taken == w.taken && w'.inDevice == w.inDevice
             && w'.completed == w.completed
    ensures Partition(w')
  {
    hide Wrap, Ids;
  }

  lemma ReadUsedKeeps(w: World)
    requires Inv(w) && Enabled(w, ReadUsed)
    ensures Inv(Next(w, ReadUsed))
  {
    hide Partition, Slot, Wrap, Ids;
    ReadsNext(w);
    var r := Recycled(w);
    assert w.sent[..r + 1] == w.sent[..r] + [w.sent[r]];
    assert Partition(Next(w, ReadUsed)) by {
      SamePartition(w, Next(w, ReadUsed));
    }
  }

  /** The available slot written holds no descriptor the device has yet to take. */
  lemma StoreAvailKeeps(w: World)
    requires Inv(w) && Enabled(w, StoreAvail)
    ensures Inv(Next(w, StoreAvail))
  {
    hide Partition, Slot, Wrap, Ids;
    var n := |w.madeAvailable|;
    WrapOk(n);
    forall k | w.taken <= k < n ensures Slot(k) != Slot(n) {
      Apart(k, n);
    }
    SamePartition(w, Next(w, StoreAvail));
  }

  lemma BumpPartition(w: World)
    requires Sized(w) && CountersOk(w) && DriverOk(w) && Partition(w) && Enabled(w, BumpAvail)
    requires CountersOk(Next(w, BumpAvail))
    ensures Partition(Next(w, BumpAvail))
  {
    hide Slot, Wrap, Ids;
    var w', r, t := Next(w, BumpAvail), Recycled(w), w.taken;
    var id := w.pc.id;
    assert w'.madeAvailable[t..] == w.madeAvailable[t..] + [id];
    assert w.completed[r..] == [id] + w.completed[r + 1..];
    assert multiset(w'.madeAvailable[t..]) == multiset(w.madeAvailable[t..]) + multiset{id};
    assert multiset(w.completed[r..]) == multiset{id} + multiset(w.completed[r + 1..]);
  }

  lemma BumpAvailKeeps(w: World)
    requires Inv(w) && Enabled(w, BumpAvail)
    ensures Inv(Next(w, BumpAvail))
  {
    hide Partition, Slot, Wrap, Ids;
    WrapOk(|w.madeAvailable|);
    BumpPartition(w);
  }

  lemma OtherStepsKeep(w: World, s: Step)
    requires Inv(w) && Enabled(w, s) && (s.BeginPoll? || s.BumpUsed? || s.EndPoll?)
    ensures Inv(Next(w, s))
  {
    hide Partition, Slot, Wrap, Ids;
    if s.BumpUsed? {
      WrapOk(Recycled(w) - 1);
    }
    SamePartition(w, Next(w, s));
  }

  lemma StepKeeps(w: World, s: Step)
    requires Inv(w) && Enabled(w, s)
    ensures Inv(Next(w, s))
  {
    hide Inv;
    match s {
      case Take => TakeKeeps(w);
      case Fill(id, event) => FillKeeps(w, id, event);
      case Complete(id) => CompleteKeeps(w, id);
      case ReadUsed => ReadUsedKeeps(w);
      case StoreAvail => StoreAvailKeeps(w);
      case BumpAvail => BumpAvailKeeps(w);
      case _ => OtherStepsKeep(w, s);
    }
  }

  lemma {:induction false} IdsOfSeq(n: nat, s: seq<nat>)
    requires |s| == n && forall i :: 0 <= i < n ==> s[i] == i
    ensures multiset(s) == Ids(n)
  {
    if n > 0 {
      assert s == s[..n - 1] + [n - 1];
      IdsOfSeq(n - 1, s[..n - 1]);
    }
  }

  lemma SetupPartition(events: seq<Event>)
    requires |events| == QUEUE_SIZE
    ensures CountersOk(Setup(events)) && Partition(Setup(events))
  {
    hide Ids, Slot;
    var w := Setup(events);
    IdsOfSeq(QUEUE_SIZE, w.madeAvailable);
    assert w.madeAvailable[0..] == w.madeAvailable;
    assert w.completed[0..] == [];
  }

  lemma SetupOk(events: seq<Event>)
    requires |events| == QUEUE_SIZE
    ensures Inv(Setup(events))
  {
    hide Partition, Ids;
    SetupPartition(events);
    assert forall k :: 0 <= k < QUEUE_SIZE ==> Slot(k) == k;
  }

  // ---- whole runs ----

  /** A run of driver and device steps in any order. */
  ghost predicate IsRun(w: World, steps: seq<Step>, w': World)
    decreases |steps|
  {
    if steps == [] then w' == w
    else Sized(w) && Enabled(w, steps[0]) && IsRun(Next(w, steps[0]), steps[1..], w')
  }

  lemma {:induction false} RunKeeps(w: World, steps: seq<Step>, w': World)
    requires Inv(w) && IsRun(w, steps, w')
    ensures Inv(w')
    decreases |steps|
  {
    hide Inv;
    if steps != [] {
      StepKeeps(w, steps[0]);
      RunKeeps(Next(w, steps[0]), steps[1..], w');
    }
  }

  /** Where a descriptor is: waiting for the device, in it, or completed and not yet back. */
  ghost function Places(w: World, id: nat): nat
    requires CountersOk(w)
  {
    multiset(w.madeAvailable[w.taken..])[id] + multiset(w.inDevice)[id] + multiset(w.completed[Recycled(w)..])[id]
  }

  lemma PendingIntact(w: World)
    requires Sized(w) && CountersOk(w) && RingsOk(w)
    ensures forall k :: w.taken <= k < |w.madeAvailable| ==> w.availRing[Slot(k)] == w.madeAvailable[k]
  {
  }

  lemma AheadBySixteen(w: World)
    requires CountersOk(w) && DriverOk(w) && (w.pc.Idle? || w.pc.Loop?)
    ensures w.availIdx == (w.lastUsed + QUEUE_SIZE) % IDX
  {
    hide Slot, Wrap;
    WrapAdd(Recycled(w));
  }

  /** In every state of every run the 16 descriptors are each in one place, the available index is
      16 ahead of the used index followed, modulo 2^16, whenever the driver is not in the middle of an entry,
      and the available slots not yet taken are intact. */
  lemma DescriptorsConserved(events: seq<Event>, steps: seq<Step>, w: World)
    requires |events| == QUEUE_SIZE && IsRun(Setup(events), steps, w)
    ensures CountersOk(w) && forall id: nat :: Places(w, id) == if id < 16 then 1 else 0
    ensures w.pc.Idle? || w.pc.Loop? ==> w.availIdx == (w.lastUsed + 16) % 0x10000
    ensures Sized(w) && forall k :: w.taken <= k < |w.madeAvailable| ==> w.availRing[Slot(k)] == w.madeAvailable[k]
    ensures |w.madeAvailable| - w.taken <= 16
  {
    hide Ids, Slot, Wrap, Partition, RingsOk, DriverOk, Setup;
    SetupOk(events);
    RunKeeps(Setup(events), steps, w);
    Lengths(w);
    if w.pc.Idle? || w.pc.Loop? {
      AheadBySixteen(w);
    }
    assert forall k :: w.taken <= k < |w.madeAvailable| ==> w.availRing[Slot(k)] == w.madeAvailable[k] by {
      PendingIntact(w);
    }
    forall id: nat ensures Places(w, id) == if id < QUEUE_SIZE then 1 else 0 {
      IdsIn(w, id);
    }
  }

  /** The events handled are the completions' events, in completion order, each once, and a poll
      that ends has handled every completion made before it began. */
  lemma EachEventOnceInOrder(events: seq<Event>, steps: seq<Step>, w: World)
    requires |events| == QUEUE_SIZE && IsRun(Setup(events), steps, w)
    ensures |w.handled| <= |w.sent| && w.handled == w.sent[..|w.handled|]
    ensures Sized(w) && (Enabled(w, EndPoll) ==> |w.handled| == w.goal)
  {
    hide Ids, Partition, RingsOk, Slot, Wrap;
    SetupOk(events);
    RunKeeps(Setup(events), steps, w);
    if Enabled(w, EndPoll) {
      PollDone(w);
    }
  }

  /** The driver is never stuck and never indexes outside the 16 event buffers. */
  lemma RunsStayInBounds(events: seq<Event>, steps: seq<Step>, w: World)
    requires |events| == QUEUE_SIZE && IsRun(Setup(events), steps, w)
    requires w.pc.Loop? && w.lastUsed != w.pc.seen
    ensures Sized(w) && Enabled(w, ReadUsed) && w.usedRing[Slot(w.lastUsed)] < QUEUE_SIZE
  {
    hide Ids, Partition, Slot, Wrap;
    SetupOk(events);
    RunKeeps(Setup(events), steps, w);
    ReadsNext(w);
  }

  // ---- what the mouse driver makes of the events ----

  const EV_KEY := 1
  const EV_REL := 2
  const EV_ABS := 3
  const ABS_X := 0
  const ABS_Y := 1
  const REL_WHEEL := 8
  const BTN_LEFT := 0x110
  const BTN_RIGHT := 0x111

  datatype Mouse = Mouse(x: int, y: int, scroll: int, left: bool, right: bool)

  /** A 32-bit word as a signed number. */
  function Signed(value: nat): (v: int)
    ensures -0x8000_0000 <= v < 0x8000_0000 && (value - v) % 0x1_0000_0000 == 0
  {
    var v := value % 0x1_0000_0000;
    if v < 0x8000_0000 then v else v - 0x1_0000_0000
  }

  function Apply(m: Mouse, e: Event): Mouse {
    if e.kind == EV_ABS && e.code == ABS_X then m.(x := Signed(e.value))
    else if e.kind == EV_ABS && e.code == ABS_Y then m.(y := Signed(e.value))
    else if e.kind == EV_REL && e.code == REL_WHEEL then m.(scroll := m.scroll + Signed(e.value))
    else if e.kind == EV_KEY && e.code == BTN_LEFT then m.(left := e.value != 0)
    else if e.kind == EV_KEY && e.code == BTN_RIGHT then m.(right := e.value != 0)
    else m
  }

  function ApplyAll(m: Mouse, es: seq<Event>): Mouse {
    if es == [] then m else Apply(ApplyAll(m, es[..|es| - 1]), es[|es| - 1])
  }

  lemma ApplyOneMore(m: Mouse, es: seq<Event>, i: nat, j: nat)
    requires i <= j < |es|
    ensures ApplyAll(m, es[i..j + 1]) == Apply(ApplyAll(m, es[i..j]), es[j])
  {
    assert es[i..j + 1][..j - i] == es[i..j];
  }

  predicate Reports(e: Event, kind: nat, code: nat) { e.kind == kind && e.code == code }

  predicate LastReport(es: seq<Event>, kind: nat, code: nat, k: nat) {
    k < |es| && Reports(es[k], kind, code) && forall j :: k < j < |es| ==> !Reports(es[j], kind, code)
  }

  /** On either axis the position is the last one reported, whatever came around it. */
  lemma {:induction false} PositionIsLastReported(m: Mouse, es: seq<Event>, axis: nat, k: nat)
    requires LastReport(es, 3, axis, k)
    ensures axis == 0 ==> ApplyAll(m, es).x == Signed(es[k].value)
    ensures axis == 1 ==> ApplyAll(m, es).y == Signed(es[k].value)
  {
    var n := |es| - 1;
    if k < n {
      PositionIsLastReported(m, es[..n], axis, k);
    }
  }

  /** Either button is as its own last report says: down unless the value is 0. */
  lemma {:induction false} ButtonIsLastReported(m: Mouse, es: seq<Event>, button: nat, k: nat)
    requires LastReport(es, 1, button, k)
    ensures button == 0x110 ==> (ApplyAll(m, es).left <==> es[k].value != 0)
    ensures button == 0x111 ==> (ApplyAll(m, es).right <==> es[k].value != 0)
  {
    var n := |es| - 1;
    if k < n {
      ButtonIsLastReported(m, es[..n], button, k);
    }
  }

  /** What is not reported stays as it was. */
  lemma {:induction false} UnreportedStays(m: Mouse, es: seq<Event>, kind: nat, code: nat)
    requires forall j :: 0 <= j < |es| ==> !Reports(es[j], kind, code)
    ensures var r := ApplyAll(m, es);
            && (kind == 3 && code == 0 ==> r.x == m.x) && (kind == 3 && code == 1 ==> r.y == m.y)
            && (kind == 1 && code == 0x110 ==> r.left == m.left)
            && (kind == 1 && code == 0x111 ==> r.right == m.right)
  {
    if es != [] {
      UnreportedStays(m, es[..|es| - 1], kind, code);
    }
  }

  /** The sum of the wheel's reports. */
  function WheelSum(es: seq<Event>): int {
    if es == [] then 0 else (if Reports(es[0], 2, 8) then Signed(es[0].value) else 0) + WheelSum(es[1..])
  }

  lemma {:induction false} WheelSumLast(es: seq<Event>, e: Event)
    ensures WheelSum(es + [e]) == WheelSum(es) + if Reports(e, 2, 8) then Signed(e.value) else 0
  {
    if es == [] {
      assert es + [e] == [e] && [e][1..] == [];
    } else {
      assert (es + [e])[1..] == es[1..] + [e];
      WheelSumLast(es[1..], e);
    }
  }

  /** The scroll sum gains the wheel's reports and nothing else. */
  lemma {:induction false} ScrollGains(m: Mouse, es: seq<Event>)
    ensures ApplyAll(m, es).scroll == m.scroll + WheelSum(es)
  {
    if es != [] {
      var n := |es| - 1;
      assert es == es[..n] + [es[n]];
      ScrollGains(m, es[..n]);
      WheelSumLast(es[..n], es[n]);
    }
  }

  /** Everything of the driver's stays, and completions only grow. */
  ghost predicate OnlyDevice(w: World, w': World) {
    && w'.availRing == w.availRing && w'.availIdx == w.availIdx && w'.lastUsed == w.lastUsed && w'.pc == w.pc
    && w'.madeAvailable == w.madeAvailable && w'.handled == w.handled && w'.goal == w.goal
    && w.completed <= w'.completed && w.sent <= w'.sent
  }

  lemma InvSized(w: World)
    requires Inv(w)
    ensures Sized(w)
  {
  }

  lemma BeginFacts(w: World)
    requires Inv(w) && w.pc == Idle
    ensures Inv(Next(w, BeginPoll)) && Next(w, BeginPoll) == w.(pc := Loop(w.usedIdx), goal := |w.sent|)
    ensures |w.handled| <= |w.sent|
  {
    StepKeeps(w, BeginPoll);
  }

  lemma ReadFacts(w: World)
    requires Inv(w) && w.pc.Loop? && w.lastUsed != w.pc.seen
    ensures Sized(w) && |w.handled| < w.goal <= |w.sent|
    ensures var id := w.usedRing[Slot(w.lastUsed)];
            id < QUEUE_SIZE && Inv(Next(w, ReadUsed))
            && Next(w, ReadUsed) == w.(pc := Held(w.pc.seen, id), handled := w.handled + [w.sent[|w.handled|]])
  {
    hide Slot, Wrap, Partition, Ids;
    ReadsNext(w);
    ReadUsedKeeps(w);
  }

  /** While the driver holds a descriptor its event stays what it was when completed. */
  lemma HeldFacts(w: World)
    requires Inv(w) && w.pc.Held?
    ensures Sized(w) && w.pc.id < QUEUE_SIZE && 0 < |w.handled| <= |w.sent|
    ensures w.events[w.pc.id] == w.sent[|w.handled| - 1]
  {
    hide Slot, Wrap, Partition, RingsOk, Ids;
  }

  // The driver's three publishing steps.

  lemma StoreFacts(w: World)
    requires Inv(w) && w.pc.Held?
    ensures Sized(w) && Inv(Next(w, StoreAvail))
    ensures Next(w, StoreAvail) ==
            w.(availRing := w.availRing[Slot(w.availIdx) := w.pc.id], pc := Stored(w.pc.seen, w.pc.id))
  {
    hide Slot, Wrap, Partition, RingsOk, EventsOk, DriverOk, CountersOk, Ids;
    StoreAvailKeeps(w);
  }

  lemma BumpFacts(w: World)
    requires Inv(w) && w.pc.Stored?
    ensures Sized(w) && Inv(Next(w, BumpAvail))
    ensures Next(w, BumpAvail) == w.(availIdx := Wrap(w.availIdx + 1), pc := Bumped(w.pc.seen),
                                     madeAvailable := w.madeAvailable + [w.pc.id])
  {
    hide Slot, Wrap, Partition, RingsOk, EventsOk, DriverOk, CountersOk, Ids;
    BumpAvailKeeps(w);
  }

  lemma DoneFacts(w: World)
    requires Inv(w) && w.pc.Bumped?
    ensures Sized(w) && Inv(Next(w, BumpUsed)) && |w.handled| <= w.goal
    ensures Next(w, BumpUsed) == w.(lastUsed := Wrap(w.lastUsed + 1), pc := Loop(w.pc.seen))
  {
    hide Slot, Wrap, Partition, RingsOk, EventsOk, Ids;
    OtherStepsKeep(w, BumpUsed);
  }

  lemma EndFacts(w: World)
    requires Inv(w) && w.pc.Loop? && w.lastUsed == w.pc.seen
    ensures Sized(w) && Inv(Next(w, EndPoll)) && Next(w, EndPoll) == w.(pc := Idle)
    ensures |w.handled| == w.goal
  {
    hide Slot, Wrap, Partition, RingsOk, EventsOk, Ids;
    PollDone(w);
    StepKeeps(w, EndPoll);
  }

  // ---- the driver, with the device acting between its memory accesses ----

  class MouseQueue {
    const availRing: array<nat>
    const usedRing: array<nat>
    const events: array<Event>
    var availIdx: nat
    var usedIdx: nat
    var lastUsed: nat
    var x: int
    var y: int
    var scroll: int
    var left: bool
    var right: bool

    /** The device: what it tries at each of its turns, and what it privately knows. */
    const device: nat -> seq<Step>
    var turn: nat
    var devIdx: nat
    var inDevice: set<nat>

    ghost var w: World

    ghost predicate Agrees()
      reads this, availRing, usedRing, events
    {
      && w.availRing == availRing[..] && w.usedRing == usedRing[..] && w.events == events[..]
      && w.availIdx == availIdx && w.usedIdx == usedIdx && w.lastUsed == lastUsed
      && w.devIdx == devIdx && w.inDevice == inDevice
    }

    ghost predicate Valid()
      reads this, availRing, usedRing, events
    {
      && availRing != usedRing
      && availRing.Length == usedRing.Length == events.Length == QUEUE_SIZE
      && Agrees() && Inv(w)
    }

    function State(): Mouse
      reads this
    {
      Mouse(x, y, scroll, left, right)
    }

    constructor MouseInit(device: nat -> seq<Step>)
      ensures Valid() && fresh(availRing) && fresh(usedRing) && fresh(events)
      ensures w == Setup(events[..])
    {
      hide Inv;
      this.device := device;
      turn, devIdx, inDevice := 0, 0, {};
      x, y, scroll, left, right := 16384, 16384, 0, false, false;
      var ring := new nat[QUEUE_SIZE](_ => 0);
      var buffers := new Event[QUEUE_SIZE](_ => Event(0, 0, 0));
      for i := 0 to QUEUE_SIZE
        invariant forall j :: 0 <= j < i ==> ring[j] == j
      {
        ring[i] := i;
      }
      availRing := ring;
      usedRing := new nat[QUEUE_SIZE](_ => 0);
      events := buffers;
      availIdx, usedIdx, lastUsed := QUEUE_SIZE, 0, 0;
      w := Setup(buffers[..]);
      new;
      SetupOk(events[..]);
      assert availRing[..] == seq(QUEUE_SIZE, i => i);
      assert usedRing[..] == seq(QUEUE_SIZE, i => 0);
    }

    /** One device step, if the device may take it now; any other step is not the device's to take. */
    method Attempt(s: Step)
      requires Valid()
      modifies this`devIdx, this`inDevice, this`usedIdx, this`w, usedRing, events
      ensures Valid() && OnlyDevice(old(w), w)
      ensures Sized(old(w)) && w == if DeviceStep(s) && Enabled(old(w), s) then Next(old(w), s) else old(w)
    {
      hide Inv;
      assert Sized(w) by {
        InvSized(w);
      }
      match s {
        case Take =>
          if devIdx != availIdx {
            StepKeeps(w, s);
            w := Next(w, s);
            inDevice := inDevice + {availRing[Slot(devIdx)]};
            devIdx := Wrap(devIdx + 1);
          }
        case Fill(id, event) =>
          if id in inDevice && id < QUEUE_SIZE {
            StepKeeps(w, s);
            w := Next(w, s);
            events[id] := event;
          }
        case Complete(id) =>
          if id in inDevice && id < QUEUE_SIZE {
            StepKeeps(w, s);
            w := Next(w, s);
            usedRing[Slot(usedIdx)] := id;
            usedIdx := Wrap(usedIdx + 1);
            inDevice := inDevice - {id};
          }
        case _ =>
      }
    }

    /** The device takes as many steps as it likes. */
    method DeviceTurn()
      requires Valid()
      modifies this`turn, this`devIdx, this`inDevice, this`usedIdx, this`w, usedRing, events
      ensures Valid() && OnlyDevice(old(w), w)
    {
      hide Inv;
      var script := device(turn);
      turn := turn + 1;
      for i := 0 to |script|
        invariant Valid() && OnlyDevice(old(w), w)
      {
        Attempt(script[i]);
      }
    }

    /** Reads the next completion's descriptor, then its event. */
    method ReadCompletion() returns (desc: nat, event: Event)
      requires Valid() && w.pc.Loop? && lastUsed != w.pc.seen
      modifies this`turn, this`devIdx, this`inDevice, this`usedIdx, this`w, usedRing, events
      ensures Valid() && w.pc == Held(old(w.pc.seen), desc)
      ensures old(w.sent) <= w.sent && w.goal == old(w.goal) && w.madeAvailable == old(w.madeAvailable)
      ensures |old(w.handled)| < w.goal <= |w.sent| && event == w.sent[|old(w.handled)|]
      ensures w.handled == old(w.handled) + [event]
    {
      hide Inv, Next;
      DeviceTurn();
      ReadFacts(w);
      desc := usedRing[Slot(lastUsed)];
      w := Next(w, ReadUsed);
      DeviceTurn();
      HeldFacts(w);
      event := events[desc];
    }

    /** Puts a descriptor back in the available ring and moves past its completion. */
    method HandBack(desc: nat)
      requires Valid() && w.pc.Held? && w.pc.id == desc
      modifies this`turn, this`devIdx, this`inDevice, this`usedIdx, this`w, usedRing, events
      modifies this`availIdx, this`lastUsed, availRing
      ensures Valid() && w.pc == Loop(old(w.pc.seen))
      ensures old(w.sent) <= w.sent && w.goal == old(w.goal) && w.handled == old(w.handled)
      ensures w.madeAvailable == old(w.madeAvailable) + [desc]
    {
      hide Inv, Next;
      DeviceTurn();
      StoreFacts(w);
      availRing[Slot(availIdx)] := desc;
      w := Next(w, StoreAvail);
      DeviceTurn();
      BumpFacts(w);
      availIdx := Wrap(availIdx + 1);
      w := Next(w, BumpAvail);
      DeviceTurn();
      DoneFacts(w);
      lastUsed := Wrap(lastUsed + 1);
      w := Next(w, BumpUsed);
    }

    /** What one event does to the mouse. */
    method HandleEvent(event: Event)
      modifies this`x, this`y, this`scroll, this`left, this`right
      ensures State() == Apply(old(State()), event)
    {
      if event.kind == EV_ABS {
        if event.code == ABS_X {
          x := Signed(event.value);
        } else if event.code == ABS_Y {
          y := Signed(event.value);
        }
      } else if event.kind == EV_REL {
        if event.code == REL_WHEEL {
          scroll := scroll + Signed(event.value);
        }
      } else if event.kind == EV_KEY {
        var pressed := event.value != 0;
        if event.code == BTN_LEFT {
          left := pressed;
        } else if event.code == BTN_RIGHT {
          right := pressed;
        }
      }
    }

    /** One round of the poll: the next completion's event is handled and its descriptor handed back. */
    method HandleNext()
      requires Valid() && w.pc.Loop? && lastUsed != w.pc.seen
      modifies this`turn, this`devIdx, this`inDevice, this`usedIdx, this`w, usedRing, events
      modifies this`availIdx, this`lastUsed, this`x, this`y, this`scroll, this`left, this`right, availRing
      ensures Valid() && w.pc == old(w.pc) && w.goal == old(w.goal) && old(w.sent) <= w.sent
      ensures |old(w.handled)| < w.goal <= |w.sent| && w.handled == old(w.handled) + [w.sent[|old(w.handled)|]]
      ensures |w.madeAvailable| == |old(w.madeAvailable)| + 1
      ensures State() == Apply(old(State()), w.sent[|old(w.handled)|])
    {
      hide Inv, Next, Apply;
      var desc, event := ReadCompletion();
      HandleEvent(event);
      HandBack(desc);
    }

    /** Handles every completion made before the poll began, once each and in order, whatever the
        device does meanwhile, and hands each descriptor back. */
    method MousePoll()
      requires Valid() && w.pc == Idle
      modifies this`turn, this`devIdx, this`inDevice, this`usedIdx, this`w, usedRing, events
      modifies this`availIdx, this`lastUsed, this`x, this`y, this`scroll, this`left, this`right, availRing
      ensures Valid() && w.pc == Idle
      ensures old(|w.handled|) <= old(|w.sent|) <= |w.handled| <= |w.sent| && old(w.sent) <= w.sent
      ensures |w.madeAvailable| - old(|w.madeAvailable|) == |w.handled| - old(|w.handled|)
      ensures State() == ApplyAll(old(State()), w.sent[old(|w.handled|)..|w.handled|])
    {
      hide Inv, Next, Apply;
      BeginFacts(w);
      DeviceTurn();
      var current := usedIdx;
      ghost var first := |w.handled|;
      BeginFacts(w);
      w := Next(w, BeginPoll);
      while lastUsed != current
        invariant Valid() && w.pc == Loop(current) && first <= |w.handled| <= w.goal <= |w.sent|
        invariant old(|w.sent|) <= w.goal && old(w.sent) <= w.sent
        invariant |w.madeAvailable| - old(|w.madeAvailable|) == |w.handled| - first
        invariant State() == ApplyAll(old(State()), w.sent[first..|w.handled|])
        decreases w.goal - |w.handled|
      {
        ghost var k, sent := |w.handled|, w.sent;
        HandleNext();
        assert w.sent[first..k] == sent[first..k];
        ApplyOneMore(old(State()), w.sent, first, k);
      }
      EndFacts(w);
      w := Next(w, EndPoll);
    }
  }
}
