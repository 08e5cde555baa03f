/** The pipe: a byte queue shared by readers and writers. Each lock-held section of a read
    or write is one step; threads interleave between sections. */
module Pipe {
  import opened Bytes

  const PIPE_SIZE := 4096

  // ---- sections on the abstract queue ----

  /** What a pipe is to its users: buffered bytes and the open ends. */
  datatype Queue = Queue(content: Buffer, readers: nat, writers: nat)

  datatype ReadResult = ReadWaits | Got(bytes: Buffer)
  datatype WriteResult = WriteWaits(progress: nat) | Wrote(total: nat) | BrokenPipe

  function Min(a: nat, b: nat): nat { if a < b then a else b }

  function ReadSection(q: Queue, want: nat): ReadResult {
    if |q.content| == 0 && q.writers > 0 then ReadWaits else Got(q.content[..Min(want, |q.content|)])
  }

  function AfterRead(q: Queue, want: nat): Queue {
    q.(content := q.content[Min(want, |q.content|)..])
  }

  /** How many bytes a write section puts in, with written already accepted before. */
  function Accepts(q: Queue, data: Buffer, written: nat): (n: nat)
    requires written <= |data| && |q.content| <= PIPE_SIZE
    ensures written + n <= |data| && |q.content| + n <= PIPE_SIZE
  {
    if q.readers == 0 then 0 else Min(|data| - written, PIPE_SIZE - |q.content|)
  }

  function WriteSection(q: Queue, data: Buffer, written: nat): WriteResult
    requires written <= |data| && |q.content| <= PIPE_SIZE
  {
    var total := written + Accepts(q, data, written);
    if q.readers == 0 then (if written > 0 then Wrote(written) else BrokenPipe)
    else if total < |data| then WriteWaits(total)
    else Wrote(total)
  }

  function AfterWrite(q: Queue, data: Buffer, written: nat): Queue
    requires written <= |data| && |q.content| <= PIPE_SIZE
  {
    q.(content := q.content + data[written..written + Accepts(q, data, written)])
  }

  // ---- the ring buffer ----

  function RingIndex(pos: nat, i: nat): (r: nat)
    ensures r < PIPE_SIZE
  {
    (pos + i) % PIPE_SIZE
  }

  /** The n bytes from pos on, around the ring. */
  ghost function Ring(buf: Buffer, pos: nat, n: nat): (r: Buffer)
    requires |buf| == PIPE_SIZE
    ensures |r| == n
  {
    seq(n, i requires 0 <= i < n => buf[RingIndex(pos, i)])
  }

  lemma RingStart(pos: nat)
    requires pos < PIPE_SIZE
    ensures RingIndex(pos, 0) == pos
  {
  }

  lemma RingNext(pos: nat, i: nat)
    ensures (RingIndex(pos, i) + 1) % PIPE_SIZE == RingIndex(pos, i + 1)
  {
  }

  lemma RingAt(buf: Buffer, pos: nat, n: nat, i: nat)
    requires |buf| == PIPE_SIZE && i < n
    ensures Ring(buf, pos, n)[i] == buf[RingIndex(pos, i)]
  {
  }

  lemma RingIndexTwice(pos: nat, k: nat, i: nat)
    ensures RingIndex(RingIndex(pos, k), i) == RingIndex(pos, k + i)
  {
  }

  /** Moving the start forward by k drops the first k bytes; the end stays where it is. */
  lemma RingDrop(buf: Buffer, pos: nat, n: nat, k: nat)
    requires |buf| == PIPE_SIZE && k <= n
    ensures Ring(buf, RingIndex(pos, k), n - k) == Ring(buf, pos, n)[k..]
    ensures RingIndex(RingIndex(pos, k), n - k) == RingIndex(pos, n)
  {
    hide RingIndex;
    forall i: nat | i <= n - k ensures RingIndex(RingIndex(pos, k), i) == RingIndex(pos, k + i) {
      RingIndexTwice(pos, k, i);
    }
  }

  /** Storing the byte after the last one extends the ring's content by it. */
  lemma RingPut(buf: Buffer, pos: nat, n: nat, x: byte)
    requires |buf| == PIPE_SIZE && n < PIPE_SIZE
    ensures Ring(buf[RingIndex(pos, n) := x], pos, n + 1) == Ring(buf, pos, n) + [x]
  {
    forall i | 0 <= i < n ensures RingIndex(pos, i) != RingIndex(pos, n) {
    }
  }

  class PipeBuffer {
    const buffer: array<byte>
    var readPos: nat
    var writePos: nat
    var count: nat
    var readers: nat
    var writers: nat
    var freed: bool

    constructor ()
      ensures Valid() && fresh(buffer) && Q() == Queue([], 1, 1) && !freed
    {
      buffer := new byte[PIPE_SIZE](_ => 0);
      readPos, writePos, count, readers, writers, freed := 0, 0, 0, 1, 1, false;
    }

    ghost predicate Valid()
      reads this, buffer
    {
      && buffer.Length == PIPE_SIZE && count <= PIPE_SIZE && readPos < PIPE_SIZE
      && writePos == RingIndex(readPos, count)
    }

    ghost function Q(): Queue
      reads this, buffer
      requires Valid()
    {
      Queue(Ring(buffer[..], readPos, count), readers, writers)
    }

    /** One lock-held section of pipe_read. */
    method TryRead(want: nat) returns (waits: bool, out: Buffer)
      requires Valid()
      modifies this
      ensures Valid() && freed == old(freed)
      ensures waits <==> ReadSection(old(Q()), want) == ReadWaits
      ensures waits ==> Q() == old(Q())
      ensures !waits ==> Got(out) == ReadSection(old(Q()), want) && Q() == AfterRead(old(Q()), want)
    {
      hide Ring, RingIndex;
      out := [];
      if count == 0 && writers > 0 {
        return true, [];
      }
      var toRead := if want < count then want else count;
      ghost var pos, content := readPos, Ring(buffer[..], readPos, count);
      RingStart(pos);
      for i := 0 to toRead
        invariant readPos == RingIndex(pos, i) && out == content[..i]
        invariant count == old(count) && readers == old(readers) && writers == old(writers) && writePos == old(writePos)
        invariant freed == old(freed)
      {
        RingAt(buffer[..], pos, count, i);
        RingNext(pos, i);
        out := out + [buffer[readPos]];
        readPos := (readPos + 1) % PIPE_SIZE;
      }
      RingDrop(buffer[..], pos, count, toRead);
      count := count - toRead;
      waits := false;
    }

    /** One lock-held section of pipe_write, entered with written bytes already accepted. */
    method TryWrite(data: Buffer, written: nat) returns (r: WriteResult)
      requires Valid() && written <= |data|
      modifies this, buffer
      ensures Valid() && freed == old(freed)
      ensures r == WriteSection(old(Q()), data, written)
      ensures Q() == AfterWrite(old(Q()), data, written)
    {
      hide Ring, RingIndex;
      ghost var content := Ring(buffer[..], readPos, count);
      if readers == 0 {
        assert content + data[written..written] == content;
        return if written > 0 then Wrote(written) else BrokenPipe;
      }
      var space := PIPE_SIZE - count;
      var n := if |data| - written < space then |data| - written else space;
      for i := 0 to n
        invariant writePos == RingIndex(readPos, count + i)
        invariant Ring(buffer[..], readPos, count + i) == content + data[written..written + i]
        invariant count == old(count) && readers == old(readers) && writers == old(writers) && readPos == old(readPos)
        invariant freed == old(freed)
      {
        RingPut(buffer[..], readPos, count + i, data[written + i]);
        RingNext(readPos, count + i);
        buffer[writePos] := data[written + i];
        writePos := (writePos + 1) % PIPE_SIZE;
        assert content + data[written..written + i] + [data[written + i]] == content + data[written..written + i + 1];
      }
      count := count + n;
      return if written + n < |data| then WriteWaits(written + n) else Wrote(written + n);
    }

    method ReleaseRead()
      requires Valid() && readers > 0 && !freed
      modifies this
      ensures Valid() && Q() == old(Q()).(readers := old(readers) - 1)
      ensures freed <==> readers == 0 && writers == 0
    {
      readers := readers - 1;
      if readers == 0 && writers == 0 {
        freed := true;
      }
    }

    method ReleaseWrite()
      requires Valid() && writers > 0 && !freed
      modifies this
      ensures Valid() && Q() == old(Q()).(writers := old(writers) - 1)
      ensures freed <==> readers == 0 && writers == 0
    {
      writers := writers - 1;
      if readers == 0 && writers == 0 {
        freed := true;
      }
    }
  }

  // ---- threads ----

  datatype Thread = Reading(want: nat) | Writing(data: Buffer, written: nat)

  /** The pipe with the calls in flight, and the history: bytes accepted from writers,
      bytes delivered to readers, and how often the pipe was freed. */
  datatype World = World(q: Queue, calls: map<nat, Thread>, accepted: Buffer, delivered: Buffer, frees: nat)

  datatype Step =
    | BeginRead(thread: nat, want: nat)
    | BeginWrite(thread: nat, data: Buffer)
    | Section(thread: nat)
    | CloseRead
    | CloseWrite

  function Calls(w: World, readers: bool): set<nat> {
    set t | t in w.calls && w.calls[t].Reading? == readers
  }

  /** Calls need an open end, a thread makes one call at a time, and an end is released
      once, by a close after the calls on it are over. */
  predicate Enabled(w: World, s: Step) {
    match s
    case BeginRead(t, _) => t !in w.calls && w.q.readers > 0
    case BeginWrite(t, _) => t !in w.calls && w.q.writers > 0
    case Section(t) => t in w.calls
    case CloseRead => w.q.readers > 0 && (w.q.readers == 1 ==> Calls(w, true) == {})
    case CloseWrite => w.q.writers > 0 && (w.q.writers == 1 ==> Calls(w, false) == {})
  }

  ghost predicate WorldOk(w: World) {
    && |w.q.content| <= PIPE_SIZE
    && w.delivered + w.q.content == w.accepted
    && w.frees == (if w.q.readers == 0 && w.q.writers == 0 then 1 else 0)
    && (forall t :: t in w.calls ==>
          match w.calls[t]
          case Reading(_) => w.q.readers > 0
          case Writing(data, written) => w.q.writers > 0 && written <= |data|)
  }

  function Freeing(q: Queue): nat { if q.readers == 0 && q.writers == 0 then 1 else 0 }

  /** The buffered bytes fit the buffer, and no write in flight is past its data. */
  predicate Sized(w: World) {
    && |w.q.content| <= PIPE_SIZE
    && forall t :: t in w.calls && w.calls[t].Writing? ==> w.calls[t].written <= |w.calls[t].data|
  }

  function Next(w: World, s: Step): (r: World)
    requires Sized(w) && Enabled(w, s)
    ensures Sized(r)
  {
    match s
    case BeginRead(t, want) => w.(calls := w.calls[t := Reading(want)])
    case BeginWrite(t, data) => w.(calls := w.calls[t := Writing(data, 0)])
    case CloseRead =>
      var q := w.q.(readers := w.q.readers - 1);
      w.(q := q, frees := w.frees + Freeing(q))
    case CloseWrite =>
      var q := w.q.(writers := w.q.writers - 1);
      w.(q := q, frees := w.frees + Freeing(q))
    case Section(t) =>
      match w.calls[t]
      case Reading(want) =>
        (match ReadSection(w.q, want)
         case ReadWaits => w
         case Got(bytes) =>
           w.(q := AfterRead(w.q, want), calls := w.calls - {t}, delivered := w.delivered + bytes))
      case Writing(data, written) =>
        var q := AfterWrite(w.q, data, written);
        var accepted := w.accepted + data[written..written + Accepts(w.q, data, written)];
        match WriteSection(w.q, data, written)
        case WriteWaits(progress) =>
          w.(q := q, calls := w.calls[t := Writing(data, progress)], accepted := accepted)
        case _ => w.(q := q, calls := w.calls - {t}, accepted := accepted)
  }

  lemma CloseReadKeeps(w: World)
    requires WorldOk(w) && Enabled(w, CloseRead)
    ensures WorldOk(Next(w, CloseRead))
  {
    forall t | t in w.calls ensures w.q.readers == 1 ==> !w.calls[t].Reading? {
      assert t in Calls(w, true) <==> w.calls[t].Reading?;
    }
  }

  lemma CloseWriteKeeps(w: World)
    requires WorldOk(w) && Enabled(w, CloseWrite)
    ensures WorldOk(Next(w, CloseWrite))
  {
    forall t | t in w.calls ensures w.q.writers == 1 ==> w.calls[t].Reading? {
      assert t in Calls(w, false) <==> !w.calls[t].Reading?;
    }
  }

  lemma CutAt(a: Buffer, b: Buffer, k: nat)
    requires k <= |b|
    ensures a + b[..k] + b[k..] == a + b
  {
  }

  lemma Joined(a: Buffer, b: Buffer, c: Buffer)
    ensures a + (b + c) == a + b + c
  {
  }

  lemma ReadKeeps(w: World, t: nat)
    requires WorldOk(w) && t in w.calls && w.calls[t].Reading?
    ensures WorldOk(Next(w, Section(t))) && Next(w, Section(t)).frees == w.frees
  {
    CutAt(w.delivered, w.q.content, Min(w.calls[t].want, |w.q.content|));
  }

  lemma WriteKeeps(w: World, t: nat)
    requires WorldOk(w) && t in w.calls && w.calls[t].Writing?
    ensures WorldOk(Next(w, Section(t))) && Next(w, Section(t)).frees == w.frees
  {
    hide Accepts;
    var data, written := w.calls[t].data, w.calls[t].written;
    Joined(w.delivered, w.q.content, data[written..written + Accepts(w.q, data, written)]);
  }

  /** No byte is lost, duplicated or reordered by any step; no call is in flight on an end
      that is closed, so none touches a freed pipe; the pipe is freed once, by the step
      that closes the last end. */
  lemma StepKeeps(w: World, s: Step)
    requires WorldOk(w) && Enabled(w, s)
    ensures WorldOk(Next(w, s))
    ensures Next(w, s).frees > w.frees ==> s in {CloseRead, CloseWrite}
  {
    hide Calls, ReadSection, WriteSection, AfterRead, AfterWrite;
    match s
    case CloseRead => CloseReadKeeps(w);
    case CloseWrite => CloseWriteKeeps(w);
    case Section(t) =>
      if w.calls[t].Reading? {
        ReadKeeps(w, t);
      } else {
        WriteKeeps(w, t);
      }
    case _ =>
  }

  ghost predicate IsRun(start: World, steps: seq<Step>, end: World)
    decreases |steps|
  {
    if steps == [] then start == end
    else Sized(start) && Enabled(start, steps[0]) && IsRun(Next(start, steps[0]), steps[1..], end)
  }

  const OPENED := World(Queue([], 1, 1), map[], [], [], 0)

  lemma {:induction false} RunKeeps(start: World, steps: seq<Step>, end: World)
    requires WorldOk(start) && IsRun(start, steps, end)
    ensures WorldOk(end) && end.frees <= 1
    decreases |steps|
  {
    if steps != [] {
      StepKeeps(start, steps[0]);
      RunKeeps(Next(start, steps[0]), steps[1..], end);
    }
  }

  /** Over every interleaving from do_pipe on, what readers got followed by what is
      buffered is what writers put in. */
  lemma PipeIsFifo(steps: seq<Step>, w: World)
    requires IsRun(OPENED, steps, w)
    ensures w.delivered + w.q.content == w.accepted && |w.q.content| <= PIPE_SIZE
    ensures w.frees == 1 <==> w.q.readers == 0 && w.q.writers == 0
    ensures w.frees == 1 ==> w.calls == map[]
  {
    RunKeeps(OPENED, steps, w);
  }

  /** In every reachable state a read in flight for at least one byte is answered with none exactly
      when the writers are gone and every byte accepted was delivered. */
  lemma EmptyReadIsEof(steps: seq<Step>, w: World, t: nat)
    requires IsRun(OPENED, steps, w) && t in w.calls && w.calls[t].Reading? && w.calls[t].want > 0
    ensures Sized(w)
    ensures var v := Next(w, Section(t));
            t !in v.calls && v.delivered == w.delivered <==> w.q.writers == 0 && w.delivered == w.accepted
  {
    RunKeeps(OPENED, steps, w);
    var k := Min(w.calls[t].want, |w.q.content|);
    assert |w.delivered + w.q.content[..k]| == |w.delivered| + k;
    assert |w.delivered + w.q.content| == |w.delivered| + |w.q.content|;
    assert w.q.content == [] ==> w.delivered + w.q.content == w.delivered;
    assert w.q.content == [] ==> w.delivered + w.q.content[..k] == w.delivered;
  }

  // ---- what calls answer ----

  /** How many bytes the last write of a thread has put in after a step, with sofar before it. */
  function PutIn(t: nat, w: World, s: Step, sofar: int): int
    requires Sized(w) && Enabled(w, s)
  {
    match s
    case BeginWrite(u, _) => if u == t then 0 else sofar
    case Section(u) => if u == t then sofar + |Next(w, s).accepted| - |w.accepted| else sofar
    case _ => sofar
  }

  ghost function PutBy(t: nat, w: World, steps: seq<Step>, end: World, sofar: int): int
    requires IsRun(w, steps, end)
    decreases |steps|
  {
    if steps == [] then sofar
    else PutBy(t, Next(w, steps[0]), steps[1..], end, PutIn(t, w, steps[0], sofar))
  }

  lemma PutInIs(t: nat, w: World, s: Step, sofar: int)
    requires Sized(w) && Enabled(w, s) && (t in w.calls && w.calls[t].Writing? ==> w.calls[t].written == sofar)
    ensures var v := Next(w, s); t in v.calls && v.calls[t].Writing? ==> v.calls[t].written == PutIn(t, w, s, sofar)
  {
    hide Calls;
  }

  lemma {:induction false} PutByIs(t: nat, w: World, steps: seq<Step>, end: World, sofar: int)
    requires IsRun(w, steps, end) && (t in w.calls && w.calls[t].Writing? ==> w.calls[t].written == sofar)
    ensures t in end.calls && end.calls[t].Writing? ==> end.calls[t].written == PutBy(t, w, steps, end, sofar)
    decreases |steps|
  {
    if steps != [] {
      PutInIs(t, w, steps[0], sofar);
      PutByIs(t, Next(w, steps[0]), steps[1..], end, PutIn(t, w, steps[0], sofar));
    }
  }

  /** A section of a write, entered with some bytes in before. */
  lemma SectionAnswers(w: World, t: nat)
    requires Sized(w) && t in w.calls && w.calls[t].Writing?
    ensures var data, before, v := w.calls[t].data, w.calls[t].written, Next(w, Section(t));
            var answer, put := WriteSection(w.q, data, before), before + |v.accepted| - |w.accepted|;
            && before <= put <= |data| && v.accepted == w.accepted + data[before..put]
            && (put < |data| && w.q.readers > 0 ==> |v.q.content| == 4096)
            && (t in v.calls <==> put < |data| && w.q.readers > 0)
            && (answer.WriteWaits? <==> t in v.calls)
            && (answer == BrokenPipe <==> w.q.readers == 0 && before == 0)
            && (answer.Wrote? ==> answer.total == put && (w.q.readers > 0 ==> put == |data|))
  {
    var data, before := w.calls[t].data, w.calls[t].written;
    assert |data[before..before + Accepts(w.q, data, before)]| == Accepts(w.q, data, before);
  }

  lemma NoReaderNoneAccepted(w: World, t: nat)
    requires Sized(w) && t in w.calls && w.calls[t].Writing?
    ensures w.q.readers == 0 ==> Next(w, Section(t)).accepted == w.accepted
  {
  }

  /** A write goes on while a reader is open and not all of its bytes are in. It answers how many of its bytes
      were put in, all of them while a reader is open, and fails exactly when no reader is left and none was
      put in; each section puts in as much as there is room for. */
  lemma WriteAnswers(steps: seq<Step>, w: World, t: nat)
    requires IsRun(OPENED, steps, w) && t in w.calls && w.calls[t].Writing?
    ensures Sized(w)
    ensures var data, before, v := w.calls[t].data, PutBy(t, OPENED, steps, w, 0), Next(w, Section(t));
            var answer, put := WriteSection(w.q, data, w.calls[t].written), before + |v.accepted| - |w.accepted|;
            && 0 <= before <= put <= |data| && v.accepted == w.accepted + data[before..put]
            && (put < |data| && w.q.readers > 0 ==> |v.q.content| == 4096)
            && (t in v.calls <==> put < |data| && w.q.readers > 0)
            && (answer.WriteWaits? <==> t in v.calls)
            && (answer == BrokenPipe <==> w.q.readers == 0 && put == 0)
            && (answer.Wrote? ==> answer.total == put && (w.q.readers > 0 ==> put == |data|))
  {
    hide Next, PutBy, WriteSection;
    RunKeeps(OPENED, steps, w);
    PutByIs(t, OPENED, steps, w, 0);
    SectionAnswers(w, t);
    NoReaderNoneAccepted(w, t);
  }

  /** A read goes on while the pipe is empty and a writer is open; otherwise it is answered with the oldest bytes
      buffered, as many as it wants or as there are. */
  lemma ReadAnswers(steps: seq<Step>, w: World, t: nat)
    requires IsRun(OPENED, steps, w) && t in w.calls && w.calls[t].Reading?
    ensures Sized(w)
    ensures var v, n := Next(w, Section(t)), |w.q.content|;
            var k := if w.calls[t].want < n then w.calls[t].want else n;
            && (t in v.calls <==> n == 0 && w.q.writers > 0)
            && (t !in v.calls ==> ReadSection(w.q, w.calls[t].want) == Got(w.q.content[..k])
                                  && v.delivered == w.delivered + w.q.content[..k] && v.q.content == w.q.content[k..])
  {
    RunKeeps(OPENED, steps, w);
  }

  /** A call in flight whose next section changes nothing. */
  predicate Blocked(w: World, t: nat)
    requires Sized(w)
  {
    t in w.calls && Next(w, Section(t)) == w
  }

  /** With nothing buffered a write goes on, and with something buffered a read does. */
  lemma WriterMoves(w: World, t: nat)
    requires Sized(w) && w.q.content == [] && t in w.calls && w.calls[t].Writing?
    ensures !Blocked(w, t)
  {
    var call := w.calls[t];
    var v := Next(w, Section(t));
    if WriteSection(w.q, call.data, call.written).WriteWaits? {
      assert v.calls[t].written > call.written;
    } else {
      assert t !in v.calls;
    }
  }

  lemma ReaderMoves(w: World, r: nat)
    requires Sized(w) && w.q.content != [] && r in w.calls && w.calls[r].Reading?
    ensures !Blocked(w, r)
  {
    assert r !in Next(w, Section(r)).calls;
  }

  /** In no reachable state are a read and a write in flight both blocked. */
  lemma NeverBothBlocked(steps: seq<Step>, w: World, r: nat, t: nat)
    requires IsRun(OPENED, steps, w)
    requires r in w.calls && w.calls[r].Reading? && t in w.calls && w.calls[t].Writing?
    ensures Sized(w) && !(Blocked(w, r) && Blocked(w, t))
  {
    RunKeeps(OPENED, steps, w);
    if w.q.content == [] {
      WriterMoves(w, t);
    } else {
      ReaderMoves(w, r);
    }
  }
}
