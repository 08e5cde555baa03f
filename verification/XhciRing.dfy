/** The xHCI command ring: the driver's enqueue side against a controller that follows
    cycle bits and the link TRB (section 4.9 of the xHCI specification). */
module XhciRing {

  const LAST := 63          // the slot of the link TRB
  const TRB_TYPE_LINK := 6

  datatype Trb = Trb(param: nat, status: nat, control: nat)

  predicate CycleOf(t: Trb) { t.control % 2 == 1 }
  predicate ToggleOf(t: Trb) { t.control / 2 % 2 == 1 }
  predicate IsLink(t: Trb) { t.control / 1024 % 64 == TRB_TYPE_LINK }

  /** A command as callers pass it: cycle bit clear, not a link. */
  predicate IsCommand(t: Trb) { !CycleOf(t) && !IsLink(t) }

  /** The control word with the cycle bit or-ed in. */
  function WithCycle(t: Trb, cycle: bool): Trb {
    t.(control := if cycle && t.control % 2 == 0 then t.control + 1 else t.control)
  }

  function LinkTrb(base: nat, cycle: bool): Trb {
    Trb(base, 0, TRB_TYPE_LINK * 1024 + 2 + (if cycle then 1 else 0))
  }

  lemma LowBits(rest: nat, toggle: nat, cycle: nat)
    requires toggle < 2 && cycle < 2
    ensures var w := rest * 4 + toggle * 2 + cycle; w % 2 == cycle && w / 2 % 2 == toggle
  {
  }

  lemma TypeBits(high: nat, kind: nat, low: nat)
    requires kind < 64 && low < 1024
    ensures (high * 0x10000 + kind * 0x400 + low) / 1024 % 64 == kind
  {
    assert (high * 0x10000 + kind * 0x400 + low) / 1024 == high * 64 + kind;
  }

  /** What the bits of a control word say: bit 0 is the cycle bit, bit 1 the toggle bit, and bits 10 to 15 are the
      type, 6 for a link. */
  lemma ControlBits(t: Trb, high: nat, kind: nat, mid: nat, toggle: nat, cycle: nat)
    requires kind < 64 && mid < 256 && toggle < 2 && cycle < 2
    requires t.control == high * 0x10000 + kind * 0x400 + mid * 4 + toggle * 2 + cycle
    ensures (CycleOf(t) <==> cycle == 1) && (ToggleOf(t) <==> toggle == 1) && (IsLink(t) <==> kind == 6)
    ensures WithCycle(t, true) == t.(control := t.control - cycle + 1) && WithCycle(t, false) == t
  {
    var rest := high * 0x4000 + kind * 0x100 + mid;
    LowBits(rest, toggle, cycle);
    TypeBits(high, kind, mid * 4 + toggle * 2 + cycle);
  }

  /** The link the driver writes leads to the ring's start, has the toggle bit, and the cycle bit given. */
  lemma LinkWord(base: nat, cycle: bool)
    ensures LinkTrb(base, cycle) == Trb(base, 0, if cycle then 0x1803 else 0x1802)
    ensures IsLink(LinkTrb(base, cycle)) && ToggleOf(LinkTrb(base, cycle))
    ensures CycleOf(LinkTrb(base, cycle)) <==> cycle
  {
    ControlBits(LinkTrb(base, cycle), 0, 6, 0, 1, if cycle then 1 else 0);
  }

  // ---- both sides of the ring ----

  /** enqueue and cycle belong to the driver, dequeue and wanted to the controller; issued
      and fetched are the history. enqueue rests at LAST while the link is still to be
      written. */
  datatype World = World(ring: seq<Trb>, base: nat, enqueue: nat, cycle: bool, dequeue: nat, wanted: bool,
                         issued: seq<Trb>, fetched: seq<Trb>)

  /** A zeroed ring. */
  function Fresh(base: nat): World {
    World(seq(LAST + 1, i => Trb(0, 0, 0)), base, 0, true, 0, true, [], [])
  }

  datatype Step = Put(command: Trb) | PutLink | Consume

  function Outstanding(w: World): int { |w.issued| - |w.fetched| }

  /** When the driver may put a command: a free slot, and one less while the controller
      has yet to step over the link. */
  predicate Roomy(w: World) {
    Outstanding(w) < LAST && (w.dequeue == LAST ==> Outstanding(w) < LAST - 1)
  }

  predicate Enabled(w: World, s: Step) {
    match s
    case Put(c) => w.enqueue < LAST && IsCommand(c)
    case PutLink => w.enqueue == LAST
    case Consume => true
  }

  predicate Sized(w: World) {
    |w.ring| == LAST + 1 && w.enqueue <= LAST && w.dequeue <= LAST
  }

  function Next(w: World, s: Step): (r: World)
    requires Sized(w) && Enabled(w, s)
    ensures Sized(r)
  {
    match s
    case Put(c) =>
      w.(ring := w.ring[w.enqueue := WithCycle(c, w.cycle)], enqueue := w.enqueue + 1, issued := w.issued + [c])
    case PutLink =>
      w.(ring := w.ring[LAST := LinkTrb(w.base, w.cycle)], enqueue := 0, cycle := !w.cycle)
    case Consume =>
      var t := w.ring[w.dequeue];
      if CycleOf(t) != w.wanted then w
      else if IsLink(t) then w.(dequeue := 0, wanted := if ToggleOf(t) then !w.wanted else w.wanted)
      else if w.dequeue == LAST then w
      else w.(dequeue := w.dequeue + 1, fetched := w.fetched + [t.(control := t.control - t.control % 2)])
  }

  // ---- invariant ----

  /** The cycle bit used on lap q, and on the lap before the first one. */
  predicate Lap(q: int) { q % 2 == 0 }

  /** How often slot j < LAST was written after n commands. */
  function Writes(n: nat, j: nat): nat { n / LAST + (if j < n % LAST then 1 else 0) }

  /** How often the link was written after n commands, pending or not. */
  function LinkWrites(n: nat, pending: bool): int { if pending then n / LAST - 1 else n / LAST }

  ghost predicate DriverOk(w: World) {
    var n := |w.issued|;
    if w.enqueue < LAST then w.enqueue == n % LAST && w.cycle == Lap(n / LAST)
    else n > 0 && n % LAST == 0 && w.cycle == Lap(n / LAST - 1)
  }

  ghost predicate ControllerOk(w: World) {
    var m := |w.fetched|;
    if w.dequeue < LAST then w.dequeue == m % LAST && w.wanted == Lap(m / LAST)
    else m > 0 && m % LAST == 0 && w.wanted == Lap(m / LAST - 1)
  }

  /** Cycle bits tell how often each slot was written; outstanding commands are in place. */
  ghost predicate SlotsOk(ring: seq<Trb>, issued: seq<Trb>, m: nat)
    requires |ring| == LAST + 1 && m <= |issued| && forall k :: 0 <= k < |issued| ==> IsCommand(issued[k])
  {
    && (forall j: nat :: j < LAST ==> CycleOf(ring[j]) == Lap(Writes(|issued|, j) - 1) && !IsLink(ring[j]))
    && (forall k: nat :: m <= k < |issued| ==> ring[k % LAST] == WithCycle(issued[k], Lap(k / LAST)))
  }

  ghost predicate LinkOk(w: World)
    requires |w.ring| == LAST + 1
  {
    var links := LinkWrites(|w.issued|, w.enqueue == LAST);
    CycleOf(w.ring[LAST]) == Lap(links - 1) && (links > 0 ==> w.ring[LAST] == LinkTrb(w.base, Lap(links - 1)))
  }

  ghost predicate Inv(w: World) {
    && Sized(w) && |w.fetched| <= |w.issued| && w.fetched == w.issued[..|w.fetched|]
    && Outstanding(w) <= LAST && (w.dequeue == LAST ==> Outstanding(w) < LAST)
    && (forall k :: 0 <= k < |w.issued| ==> IsCommand(w.issued[k]))
    && DriverOk(w) && ControllerOk(w) && SlotsOk(w.ring, w.issued, |w.fetched|) && LinkOk(w)
  }

  lemma FreshOk(base: nat)
    ensures Inv(Fresh(base))
  {
  }

  lemma CycleSet(c: Trb, cycle: bool)
    requires IsCommand(c)
    ensures CycleOf(WithCycle(c, cycle)) == cycle && !IsLink(WithCycle(c, cycle))
    ensures var t := WithCycle(c, cycle); t.(control := t.control - t.control % 2) == c
  {
  }

  lemma LinkFields(base: nat, cycle: bool)
    ensures var t := LinkTrb(base, cycle); CycleOf(t) == cycle && IsLink(t) && ToggleOf(t)
  {
  }

  /** One more command: only the slot it goes to is written once more. */
  lemma WritesNext(n: nat, j: nat)
    requires j < LAST
    ensures Writes(n + 1, j) == Writes(n, j) + (if j == n % LAST then 1 else 0)
    ensures Writes(n, n % LAST) == n / LAST
  {
    if n % LAST == LAST - 1 {
      assert (n + 1) / LAST == n / LAST + 1 && (n + 1) % LAST == 0;
    } else {
      assert (n + 1) / LAST == n / LAST && (n + 1) % LAST == n % LAST + 1;
    }
  }

  /** A slot that holds an outstanding command is not the next one to be written, unless
      the ring is full. */
  lemma SlotsApart(n: nat, k: nat)
    requires n - LAST < k < n
    ensures k % LAST != n % LAST
  {
  }

  lemma PutSlots(ring: seq<Trb>, issued: seq<Trb>, m: nat, c: Trb)
    requires |ring| == LAST + 1 && m <= |issued| && (forall k :: 0 <= k < |issued| ==> IsCommand(issued[k]))
    requires SlotsOk(ring, issued, m) && IsCommand(c) && |issued| - m < LAST
    ensures var n := |issued|;
            SlotsOk(ring[n % LAST := WithCycle(c, Lap(n / LAST))], issued + [c], m)
  {
    hide Lap, IsLink, CycleOf, Writes, WithCycle, IsCommand;
    var n := |issued|;
    var ring' := ring[n % LAST := WithCycle(c, Lap(n / LAST))];
    CycleSet(c, Lap(n / LAST));
    forall j: nat | j < LAST
      ensures CycleOf(ring'[j]) == Lap(Writes(n + 1, j) - 1) && !IsLink(ring'[j])
    {
      WritesNext(n, j);
    }
    forall k: nat | m <= k < n + 1
      ensures ring'[k % LAST] == WithCycle((issued + [c])[k], Lap(k / LAST))
    {
      if k < n {
        SlotsApart(n, k);
      }
    }
  }

  lemma NextPosition(n: nat)
    ensures if n % LAST + 1 < LAST then (n + 1) % LAST == n % LAST + 1 && (n + 1) / LAST == n / LAST
            else (n + 1) % LAST == 0 && (n + 1) / LAST == n / LAST + 1
  {
  }

  lemma PutKeeps(w: World, c: Trb)
    requires Inv(w) && Enabled(w, Put(c)) && Roomy(w)
    ensures Inv(Next(w, Put(c)))
  {
    hide SlotsOk, Lap, CycleOf, Writes, IsLink, WithCycle;
    PutSlots(w.ring, w.issued, |w.fetched|, c);
    assert (w.issued + [c])[..|w.fetched|] == w.issued[..|w.fetched|];
    NextPosition(|w.issued|);
  }

  lemma PutLinkKeeps(w: World)
    requires Inv(w) && Enabled(w, PutLink)
    ensures Inv(Next(w, PutLink))
  {
    LinkFields(w.base, w.cycle);
  }

  /** What the controller finds in its slot: the next command when one is outstanding,
      a cycle bit that does not match otherwise. */
  lemma SlotAhead(w: World)
    requires Inv(w) && w.dequeue < LAST
    ensures var m := |w.fetched|;
            if m < |w.issued| then w.ring[w.dequeue] == WithCycle(w.issued[m], w.wanted)
            else CycleOf(w.ring[w.dequeue]) != w.wanted
  {
    var n, m := |w.issued|, |w.fetched|;
    if m == n {
      WritesNext(n, n % LAST);
    }
  }

  lemma SlotsFewer(ring: seq<Trb>, issued: seq<Trb>, m: nat)
    requires |ring| == LAST + 1 && m < |issued| && (forall k :: 0 <= k < |issued| ==> IsCommand(issued[k]))
    requires SlotsOk(ring, issued, m)
    ensures SlotsOk(ring, issued, m + 1)
  {
  }

  /** At the link the controller sees either the link of its own lap, or none yet. */
  lemma LinkAhead(w: World)
    requires Inv(w) && w.dequeue == LAST
    ensures var links, laps := LinkWrites(|w.issued|, w.enqueue == LAST), |w.fetched| / LAST;
            laps - 1 <= links <= laps
  {
    hide SlotsOk, Lap;
  }

  lemma FetchKeeps(w: World)
    requires Inv(w) && w.dequeue < LAST
    requires var m := |w.fetched|;
             if m < |w.issued| then w.ring[w.dequeue] == WithCycle(w.issued[m], w.wanted)
             else CycleOf(w.ring[w.dequeue]) != w.wanted
    ensures Inv(Next(w, Consume))
  {
    hide SlotsOk, Lap, CycleOf, Writes, IsLink, WithCycle;
    var m := |w.fetched|;
    if m < |w.issued| {
      CycleSet(w.issued[m], w.wanted);
      SlotsFewer(w.ring, w.issued, m);
      assert Next(w, Consume).fetched == w.issued[..m + 1];
      NextPosition(m);
    }
  }

  lemma FollowKeeps(w: World)
    requires Inv(w) && w.dequeue == LAST
    requires var links, laps := LinkWrites(|w.issued|, w.enqueue == LAST), |w.fetched| / LAST;
             laps - 1 <= links <= laps
    ensures Inv(Next(w, Consume))
  {
    hide SlotsOk;
    var links := LinkWrites(|w.issued|, w.enqueue == LAST);
    if links > 0 {
      LinkFields(w.base, Lap(links - 1));
    }
  }

  lemma ConsumeKeeps(w: World)
    requires Inv(w)
    ensures Inv(Next(w, Consume))
  {
    var m := |w.fetched|;
    if w.dequeue < LAST {
      SlotAhead(w);
      FetchKeeps(w);
    } else {
      LinkAhead(w);
      FollowKeeps(w);
    }
  }

  // ---- runs ----

  /** When callers put a command: while there is room, or while fewer than k are outstanding, which is
      all that a caller counting its own commands can see. */
  datatype Guard = Room | Below(k: nat)

  predicate Allows(guard: Guard, w: World, s: Step) {
    s.Put? ==> match guard case Room => Roomy(w) case Below(k) => Outstanding(w) < k
  }

  ghost predicate IsRun(start: World, steps: seq<Step>, end: World, guard: Guard)
    decreases |steps|
  {
    if steps == [] then start == end
    else
      && Sized(start) && Enabled(start, steps[0]) && Allows(guard, start, steps[0])
      && IsRun(Next(start, steps[0]), steps[1..], end, guard)
  }

  /** A guard that leaves room. */
  predicate LeavesRoom(guard: Guard) { guard.Room? || guard.k < LAST }

  lemma {:induction false} RunKeeps(start: World, steps: seq<Step>, end: World, guard: Guard)
    requires Inv(start) && IsRun(start, steps, end, guard) && LeavesRoom(guard)
    ensures Inv(end)
    decreases |steps|
  {
    hide DriverOk, ControllerOk, SlotsOk, LinkOk;
    if steps != [] {
      match steps[0] {
        case Put(c) => PutKeeps(start, c);
        case PutLink => PutLinkKeeps(start);
        case Consume => ConsumeKeeps(start);
      }
      RunKeeps(Next(start, steps[0]), steps[1..], end, guard);
    }
  }

  lemma FetchesNext(w: World)
    requires Inv(w)
    ensures |w.fetched| < |w.issued| && w.dequeue < LAST ==>
              Next(w, Consume).fetched == w.fetched + [w.issued[|w.fetched|]]
    ensures |w.fetched| < |w.issued| && w.dequeue == LAST && w.enqueue < LAST ==> Next(w, Consume).dequeue == 0
    ensures |w.fetched| == |w.issued| ==> Next(w, Consume).fetched == w.fetched
  {
    var n, m := |w.issued|, |w.fetched|;
    if w.dequeue < LAST {
      SlotAhead(w);
      if m < n {
        CycleSet(w.issued[m], w.wanted);
      }
    } else {
      var links := LinkWrites(n, w.enqueue == LAST);
      if w.enqueue < LAST && m < n {
        assert links == m / LAST;
        LinkFields(w.base, Lap(links - 1));
      }
    }
  }

  /** For any number of wraps, what the controller fetched is what the driver issued, in
      order, and it finds the next command whenever one is outstanding: at its slot, or
      behind a link it can follow once the driver wrote it. */
  lemma RingIsFifo(base: nat, steps: seq<Step>, w: World)
    requires IsRun(Fresh(base), steps, w, Room)
    ensures Inv(w)
    ensures |w.fetched| <= |w.issued| && w.fetched == w.issued[..|w.fetched|]
    ensures |w.fetched| < |w.issued| && w.dequeue < LAST ==>
              Next(w, Consume).fetched == w.fetched + [w.issued[|w.fetched|]]
    ensures |w.fetched| < |w.issued| && w.dequeue == LAST && w.enqueue < LAST ==> Next(w, Consume).dequeue == 0
    ensures |w.fetched| == |w.issued| ==> Next(w, Consume).fetched == w.fetched
  {
    FreshOk(base);
    RunKeeps(Fresh(base), steps, w, Room);
    FetchesNext(w);
  }

  // ---- the bound on outstanding commands is exact ----

  /** With the controller about to step over the link, filling the 63rd slot rewrites the
      link with the next lap's cycle bit; the controller then waits forever, although 63
      commands are outstanding. */
  lemma FullRingStrands(w: World, c: Trb)
    requires Inv(w) && IsCommand(c) && w.dequeue == LAST && Outstanding(w) == LAST - 1
    ensures w.enqueue == LAST - 1 && !Roomy(w)
    ensures var v := Next(Next(w, Put(c)), PutLink);
            Next(v, Consume) == v && Outstanding(v) == LAST
  {
    var n := |w.issued|;
    assert n % LAST == LAST - 1 && n / LAST == |w.fetched| / LAST;
    LinkFields(w.base, w.cycle);
  }

  lemma {:induction false} RunConcat(a: World, s: seq<Step>, b: World, t: seq<Step>, c: World, guard: Guard)
    requires IsRun(a, s, b, guard) && IsRun(b, t, c, guard)
    ensures IsRun(a, s + t, c, guard)
    decreases |s|
  {
    hide Next, Enabled, Allows;
    if s == [] {
      assert s + t == t;
    } else {
      RunConcat(Next(a, s[0]), s[1..], b, t, c, guard);
      assert (s + t)[0] == s[0] && (s + t)[1..] == s[1..] + t;
    }
  }

  /** n more commands. */
  lemma {:induction false} PutMany(w: World, c: Trb, n: nat, guard: Guard) returns (steps: seq<Step>, v: World)
    requires Inv(w) && IsCommand(c) && w.enqueue + n <= LAST
    requires Outstanding(w) + n <= (if w.dequeue == LAST then LAST - 1 else LAST)
    requires guard.Below? ==> Outstanding(w) + n <= guard.k
    ensures IsRun(w, steps, v, guard) && Inv(v)
    ensures v.enqueue == w.enqueue + n && v.dequeue == w.dequeue && Outstanding(v) == Outstanding(w) + n
    decreases n
  {
    hide DriverOk, ControllerOk, SlotsOk, LinkOk, CycleOf, IsLink, WithCycle;
    if n == 0 {
      steps, v := [], w;
    } else {
      PutKeeps(w, c);
      var rest;
      rest, v := PutMany(Next(w, Put(c)), c, n - 1, guard);
      steps := [Put(c)] + rest;
      assert steps[1..] == rest;
    }
  }

  /** The controller takes n outstanding commands. */
  lemma {:induction false} ConsumeMany(w: World, n: nat, guard: Guard) returns (steps: seq<Step>, v: World)
    requires Inv(w) && w.dequeue + n <= LAST && n <= Outstanding(w)
    ensures IsRun(w, steps, v, guard) && Inv(v)
    ensures v.enqueue == w.enqueue && v.dequeue == w.dequeue + n && Outstanding(v) == Outstanding(w) - n
    decreases n
  {
    if n == 0 {
      steps, v := [], w;
    } else {
      SlotAhead(w);
      CycleSet(w.issued[|w.fetched|], w.wanted);
      ConsumeKeeps(w);
      var rest;
      rest, v := ConsumeMany(Next(w, Consume), n - 1, guard);
      steps := [Consume] + rest;
      assert steps[1..] == rest;
    }
  }

  lemma OneStep(w: World, s: Step, guard: Guard)
    requires Sized(w) && Enabled(w, s) && Allows(guard, w, s)
    ensures IsRun(w, [s], Next(w, s), guard)
  {
    assert [s][1..] == [];
  }

  lemma LinkMoves(w: World)
    requires Sized(w) && Enabled(w, PutLink)
    ensures var v := Next(w, PutLink);
            v.enqueue == 0 && v.dequeue == w.dequeue && v.issued == w.issued && v.fetched == w.fetched
  {
  }

  /** Such a state is reached from a zeroed ring with 62 commands outstanding. */
  lemma StrandingIsReachable(base: nat, c: Trb, guard: Guard) returns (steps: seq<Step>, w: World)
    requires IsCommand(c) && (guard.Below? ==> guard.k >= LAST)
    ensures IsRun(Fresh(base), steps, w, guard) && Inv(w) && w.dequeue == LAST && Outstanding(w) == LAST - 1
  {
    hide DriverOk, ControllerOk, SlotsOk, LinkOk, IsRun, CycleOf, IsLink, Next;
    FreshOk(base);
    var s1, w1 := PutMany(Fresh(base), c, LAST, guard);
    var s2, w2 := ConsumeMany(w1, LAST, guard);
    PutLinkKeeps(w2);
    LinkMoves(w2);
    var w3 := Next(w2, PutLink);
    OneStep(w2, PutLink, guard);
    var s4;
    s4, w := PutMany(w3, c, LAST - 1, guard);
    RunConcat(Fresh(base), s1, w1, s2, w2, guard);
    RunConcat(Fresh(base), s1 + s2, w2, [PutLink], w3, guard);
    RunConcat(Fresh(base), s1 + s2 + [PutLink], w3, s4, w, guard);
    steps := s1 + s2 + [PutLink] + s4;
  }

  /** w with the driver's current call finished: a pending link is written. */
  function Settled(w: World): World
    requires Sized(w)
  {
    if w.enqueue == LAST then Next(w, PutLink) else w
  }

  /** The oldest outstanding command, if any, is the next the controller fetches: at once, or once it
      has stepped over the link. */
  ghost predicate FetchesOldest(w: World)
    requires Sized(w)
  {
    |w.fetched| < |w.issued| ==>
      var v := Settled(w);
      var more := w.fetched + [w.issued[|w.fetched|]];
      Next(v, Consume).fetched == more || Next(Next(v, Consume), Consume).fetched == more
  }

  /** Callers that keep fewer than k commands outstanding have them all fetched, in the order issued, in
      every interleaving. */
  ghost predicate BoundIsSafe(k: nat) {
    forall base: nat, steps: seq<Step>, w: World :: IsRun(Fresh(base), steps, w, Below(k)) ==>
      Sized(w) && w.fetched <= w.issued && FetchesOldest(w)
  }

  lemma InvFetchesOldest(w: World)
    requires Inv(w)
    ensures w.fetched <= w.issued && FetchesOldest(w)
  {
    hide DriverOk, ControllerOk, SlotsOk, LinkOk, CycleOf, IsLink, ToggleOf;
    if |w.fetched| < |w.issued| {
      var v := Settled(w);
      if w.enqueue == LAST {
        PutLinkKeeps(w);
        LinkMoves(w);
      }
      FetchesNext(v);
      ConsumeKeeps(v);
      if v.dequeue == LAST {
        FetchesNext(Next(v, Consume));
      }
    }
  }

  lemma PlainCommand(c: Trb)
    requires c.control == 0
    ensures IsCommand(c)
  {
  }

  lemma PutMoves(w: World, c: Trb)
    requires Sized(w) && Enabled(w, Put(c))
    ensures var v := Next(w, Put(c));
            v.enqueue == w.enqueue + 1 && v.dequeue == w.dequeue && v.issued == w.issued + [c] && v.fetched == w.fetched
  {
  }

  /** Keeping fewer than k outstanding is safe exactly up to k = 62, though the ring has 63 slots. */
  lemma SafeBoundIff(k: nat)
    ensures BoundIsSafe(k) <==> k < LAST
  {
    hide DriverOk, ControllerOk, SlotsOk, LinkOk, CycleOf, IsLink, ToggleOf, Next, IsRun, IsCommand;
    if k < LAST {
      forall base: nat, steps: seq<Step>, w: World | IsRun(Fresh(base), steps, w, Below(k))
        ensures Sized(w) && w.fetched <= w.issued && FetchesOldest(w)
      {
        FreshOk(base);
        RunKeeps(Fresh(base), steps, w, Below(k));
        InvFetchesOldest(w);
      }
    } else {
      var c := Trb(0, 0, 0);
      PlainCommand(c);
      var steps, w := StrandingIsReachable(0, c, Below(k));
      FullRingStrands(w, c);
      OneStep(w, Put(c), Below(k));
      var w1 := Next(w, Put(c));
      PutMoves(w, c);
      OneStep(w1, PutLink, Below(k));
      LinkMoves(w1);
      var v := Next(w1, PutLink);
      RunConcat(Fresh(0), steps, w, [Put(c)], w1, Below(k));
      RunConcat(Fresh(0), steps + [Put(c)], w1, [PutLink], v, Below(k));
      assert !FetchesOldest(v);
    }
  }

  // ---- the driver ----

  class CommandRing {
    const ring: array<Trb>
    const phys: nat
    var enqueue: nat
    var cycle: bool

    /** The page for the ring is taken to be zeroed. */
    constructor SetupRings(phys: nat)
      ensures this.phys == phys && ring.Length == LAST + 1 && fresh(ring)
      ensures Agrees(Fresh(phys))
    {
      this.phys := phys;
      ring := new Trb[LAST + 1](_ => Trb(0, 0, 0));
      enqueue, cycle := 0, true;
    }

    /** The driver's part of w is what this ring holds. */
    ghost predicate Agrees(w: World)
      reads this, ring
    {
      w.ring == ring[..] && w.base == phys && w.enqueue == enqueue && w.cycle == cycle
    }

    /** Issues a command: the steps Put and, at the end of a lap, PutLink. Whether there is room is not
        looked at; when there is, the protocol's invariant is kept. */
    method RingCommand(c: Trb, ghost w: World) returns (ghost w': World)
      requires Sized(w) && Agrees(w) && enqueue < LAST && IsCommand(c)
      modifies this, ring
      ensures Agrees(w') && Sized(w') && enqueue < LAST
      ensures w' == (if old(enqueue) + 1 < LAST then Next(w, Put(c)) else Next(Next(w, Put(c)), PutLink))
      ensures w'.issued == w.issued + [c] && (Inv(w) && Roomy(w) ==> Inv(w'))
    {
      hide Inv, CycleOf, IsLink;
      ghost var safe := Inv(w) && Roomy(w);
      if safe {
        PutKeeps(w, c);
      }
      w' := Next(w, Put(c));
      ring[enqueue] := Trb(c.param, c.status, if cycle && c.control % 2 == 0 then c.control + 1 else c.control);
      enqueue := enqueue + 1;
      if enqueue >= 63 {
        if safe {
          PutLinkKeeps(w');
        }
        w' := Next(w', PutLink);
        ring[63] := Trb(phys, 0, TRB_TYPE_LINK * 1024 + 2 + (if cycle then 1 else 0));
        enqueue := 0;
        cycle := !cycle;
      }
    }
  }
}
