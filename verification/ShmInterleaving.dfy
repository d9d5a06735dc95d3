/**
 One writer and one reader of the ring (crates/ipc/src/shm.rs) running at the
 same time. A step is one atomic load, one byte of a copy (in any order), or one
 atomic store; the acquire and release orderings of the counters are what lets
 the plain byte accesses be ordered by them.
 */
module ShmInterleaving {
  import opened Common
  import opened RingMath
  import opened ShmRing

  datatype Writer =
    | WriterIdle
    | WriterLoadedHead(data: Bytes, head: nat)
    | Copying(data: Bytes, head: nat, done: set<nat>)

  datatype Reader =
    | ReaderIdle
    | ReaderLoadedHead(head: nat)
    | ReadingLength(tail: nat, length: map<nat, u8>)
    | ReadingData(tail: nat, len: nat, bytes: map<nat, u8>)

  datatype System = System(
    mem: Bytes, head: nat, tail: nat,
    writer: Writer, reader: Reader,
    accepted: seq<Bytes>, delivered: seq<Bytes>)

  datatype Step =
    | LoadHeadToWrite(data: Bytes)
    | LoadTailToWrite
    | CopyByte(i: nat)
    | StoreHead
    | LoadHeadToRead
    | LoadTailToRead
    | ReadLengthByte(i: nat)
    | TakeLength
    | ReadDataByte(i: nat)
    | StoreTail

  ghost predicate Init(s: System) {
    && 4 < |s.mem| < U32
    && s.head == 0 && s.tail == 0 && s.writer == WriterIdle && s.reader == ReaderIdle
    && s.accepted == [] && s.delivered == []
  }

  function ValuesUpTo(m: map<nat, u8>, n: nat): Bytes
    requires forall i | 0 <= i < n :: i in m
  {
    seq(n, i requires 0 <= i < n => m[i])
  }

  /** The step leads from s to t; false when the step is not possible in s. */
  ghost predicate Next(s: System, step: Step, t: System)
    requires |s.mem| > 0
  {
    var size := |s.mem|;
    match step
    case LoadHeadToWrite(data) =>
      s.writer == WriterIdle && t == s.(writer := WriterLoadedHead(data, s.head))
    case LoadTailToWrite =>
      s.writer.WriterLoadedHead?
      && var w := s.writer;
         if Refuses(Used(Ring(s.mem, w.head, s.tail)), |w.data|, size) then t == s.(writer := WriterIdle)
         else t == s.(writer := Copying(Covered(w.data), w.head, {}))
    case CopyByte(i) =>
      s.writer.Copying? && i < 4 + |s.writer.data| && i !in s.writer.done
      && var w := s.writer;
         t == s.(mem := s.mem[Slot(size, w.head, i) := Frame(w.data)[i]], writer := w.(done := w.done + {i}))
    case StoreHead =>
      s.writer.Copying? && (forall i | 0 <= i < 4 + |s.writer.data| :: i in s.writer.done)
      && t == s.(head := ((s.writer.head + 4) % U32 + |s.writer.data|) % U32, writer := WriterIdle,
                 accepted := s.accepted + [s.writer.data])
    case LoadHeadToRead =>
      s.reader == ReaderIdle && t == s.(reader := ReaderLoadedHead(s.head))
    case LoadTailToRead =>
      s.reader.ReaderLoadedHead?
      && t == s.(reader := if s.tail == s.reader.head then ReaderIdle else ReadingLength(s.tail, map[]))
    case ReadLengthByte(i) =>
      s.reader.ReadingLength? && i < 4
      && t == s.(reader := s.reader.(length := s.reader.length[i := s.mem[Slot(size, s.reader.tail, i)]]))
    case TakeLength =>
      s.reader.ReadingLength? && (forall i | 0 <= i < 4 :: i in s.reader.length)
      && t == s.(reader := ReadingData(s.reader.tail, FromLe32(ValuesUpTo(s.reader.length, 4)), map[]))
    case ReadDataByte(i) =>
      s.reader.ReadingData? && i < s.reader.len
      && t == s.(reader := s.reader.(bytes := s.reader.bytes[i := s.mem[Slot(size, s.reader.tail, i + 4)]]))
    case StoreTail =>
      s.reader.ReadingData? && (forall i | 0 <= i < s.reader.len :: i in s.reader.bytes)
      && t == s.(tail := ((s.reader.tail + 4) % U32 + s.reader.len) % U32, reader := ReaderIdle,
                 delivered := s.delivered + [ValuesUpTo(s.reader.bytes, s.reader.len)])
  }

  // ---- the invariant ----

  function Unread(s: System): seq<Bytes>
    requires |s.delivered| <= |s.accepted|
  {
    s.accepted[|s.delivered|..]
  }

  function Pending(w: Writer): nat {
    if w.Copying? then 4 + |w.data| else 0
  }

  /** The size is regular, or fewer than 2^32 bytes have been committed so far. */
  ghost predicate Bounded(s: System)
    requires |s.mem| > 0
  {
    Regular(|s.mem|) || Span(s.accepted) + Pending(s.writer) < U32
  }

  /** Only lengths are sent that write tests as intended. */
  ghost predicate SendsWell(s: System, step: Step) {
    step.LoadHeadToWrite? ==> Sendable(|s.mem|, |step.data|)
  }

  ghost predicate RingOk(s: System) {
    && 4 < |s.mem| < U32
    && s.delivered <= s.accepted
    && Holds(Ring(s.mem, s.head, s.tail), Span(s.delivered), Unread(s))
    && Span(s.accepted) == Span(s.delivered) + Span(Unread(s))
  }

  ghost predicate WriterOk(s: System)
    requires RingOk(s)
  {
    match s.writer
    case WriterIdle => true
    case WriterLoadedHead(data, head) => head == s.head && Sendable(|s.mem|, |data|)
    case Copying(data, head, done) =>
      && head == s.head
      && Span(Unread(s)) + 4 + |data| < |s.mem|
      && forall i | i in done && i < 4 + |data| :: s.mem[Slot(|s.mem|, Span(s.accepted), i)] == Frame(data)[i]
  }

  ghost predicate ReaderOk(s: System)
    requires RingOk(s)
  {
    match s.reader
    case ReaderIdle => true
    case ReaderLoadedHead(head) => head != s.tail ==> Unread(s) != []
    case ReadingLength(tail, length) =>
      && tail == s.tail && Unread(s) != []
      && forall i | i in length && i < 4 :: length[i] == Le32(|Unread(s)[0]|)[i]
    case ReadingData(tail, len, bytes) =>
      && tail == s.tail && Unread(s) != [] && len == |Unread(s)[0]|
      && forall i | i in bytes && i < len :: bytes[i] == Unread(s)[0][i]
  }

  ghost predicate Inv(s: System) {
    RingOk(s) && WriterOk(s) && ReaderOk(s)
  }

  // ---- steps keep it ----

  lemma PositionOf(size: nat, x: nat, y: nat)
    requires size > 0 && x % U32 == y % U32
    ensures Position(size, x) == Position(size, y)
  {
  }

  lemma SlotWrapped(size: nat, x: nat, i: nat)
    requires size > 0
    ensures Slot(size, x % U32, i) == Slot(size, x, i)
  {
    var h := x % U32;
    if i < 4 {
      PositionOf(size, h, x);
    } else {
      NextOffset(x, 4);
      PositionOf(size, h + 4, x + 4);
    }
  }

  /** One more byte of the frame at y: the messages before it and its own other bytes stay. */
  lemma {:induction false} ByteKeeps(mem: Bytes, x: nat, queue: seq<Bytes>, y: nat, data: Bytes, i: nat)
    requires 0 < |mem| <= U32 && InFlight(mem, x, queue) && x + Span(queue) == y
    requires Span(queue) + 4 + |data| < |mem| && i < 4 + |data|
    requires Regular(|mem|) || y + 4 + |data| < U32
    ensures var mem' := mem[Slot(|mem|, y, i) := Frame(data)[i]];
            && InFlight(mem', x, queue)
            && forall j | 0 <= j < 4 + |data| && j != i :: mem'[Slot(|mem|, y, j)] == mem[Slot(|mem|, y, j)]
  {
    var mem' := mem[Slot(|mem|, y, i) := Frame(data)[i]];
    InFlightKept(mem, mem', x, queue, y, 4 + |data|);
    forall j | 0 <= j < 4 + |data| && j != i ensures mem'[Slot(|mem|, y, j)] == mem[Slot(|mem|, y, j)] {
      if j < i {
        SlotsApart(|mem|, y, j, y, i);
      } else {
        SlotsApart(|mem|, y, i, y, j);
      }
    }
  }

  lemma {:induction false} CopyByteKeeps(s: System, i: nat, t: System)
    requires Inv(s) && Bounded(s) && Next(s, CopyByte(i), t)
    ensures Inv(t)
  {
    SlotWrapped(|s.mem|, Span(s.accepted), i);
    ByteKeeps(s.mem, Span(s.delivered), Unread(s), Span(s.accepted), s.writer.data, i);
  }

  /** Publishing a complete frame queues its message. */
  lemma {:induction false} PublishHolds(r: Ring, x: nat, queue: seq<Bytes>, data: Bytes)
    requires Holds(r, x, queue) && Span(queue) + 4 + |data| < |r.mem| && FrameAt(r.mem, x + Span(queue), data)
    ensures Holds(r.(head := ((r.head + 4) % U32 + |data|) % U32), x, queue + [data])
  {
    InFlightAppend(r.mem, x, queue, data);
    SpanAppend(queue, data);
    NextOffset(x + Span(queue), 4);
    NextOffset(x + Span(queue) + 4, |data|);
  }

  lemma {:induction false} StoreHeadRing(s: System, t: System)
    requires Inv(s) && Next(s, StoreHead, t)
    ensures RingOk(t) && Unread(t) == Unread(s) + [s.writer.data]
  {
    var y, data, q := Span(s.accepted), s.writer.data, Unread(s);
    assert FrameAt(s.mem, y, data);
    PublishHolds(Ring(s.mem, s.head, s.tail), Span(s.delivered), q, data);
    SpanAppend(s.accepted, data);
    SpanAppend(q, data);
    assert Unread(t) == q + [data];
  }

  lemma {:induction false} StoreHeadKeeps(s: System, t: System)
    requires Inv(s) && Next(s, StoreHead, t)
    ensures Inv(t)
  {
    StoreHeadRing(s, t);
    if Unread(s) != [] {
      assert Unread(t)[0] == Unread(s)[0];
    }
    TailApart(s);
  }

  /** Tail and head offsets tell an empty ring from one with messages. */
  lemma TailApart(s: System)
    requires RingOk(s)
    ensures s.head == s.tail <==> Unread(s) == []
  {
    UsedIs(Ring(s.mem, s.head, s.tail), Span(s.delivered), Unread(s));
  }

  /** Freeing the oldest message. */
  lemma ConsumeHolds(r: Ring, x: nat, queue: seq<Bytes>)
    requires Holds(r, x, queue) && queue != []
    ensures Holds(r.(tail := ((r.tail + 4) % U32 + |queue[0]|) % U32), x + 4 + |queue[0]|, queue[1..])
  {
    NextOffset(x, 4);
    NextOffset(x + 4, |queue[0]|);
  }

  lemma {:induction false} StoreTailRing(s: System, t: System)
    requires Inv(s) && Next(s, StoreTail, t)
    ensures t.delivered == s.delivered + [Unread(s)[0]] && RingOk(t) && Unread(t) == Unread(s)[1..]
  {
    var q := Unread(s);
    assert ValuesUpTo(s.reader.bytes, s.reader.len) == q[0];
    ConsumeHolds(Ring(s.mem, s.head, s.tail), Span(s.delivered), q);
    SpanAppend(s.delivered, q[0]);
    assert s.accepted == s.delivered + q == t.delivered + q[1..];
    assert Unread(t) == q[1..];
  }

  lemma {:induction false} StoreTailKeeps(s: System, t: System)
    requires Inv(s) && Next(s, StoreTail, t)
    ensures Inv(t)
    ensures t.delivered == s.delivered + [Unread(s)[0]]
  {
    StoreTailRing(s, t);
  }

  lemma WriterLoadKeeps(s: System, step: Step, t: System)
    requires Inv(s) && SendsWell(s, step) && Next(s, step, t) && (step.LoadHeadToWrite? || step.LoadTailToWrite?)
    ensures Inv(t)
  {
    UsedIs(Ring(s.mem, s.head, s.tail), Span(s.delivered), Unread(s));
    if step.LoadTailToWrite? {
      var n := |s.writer.data|;
      SendableRefuses(Span(Unread(s)), n, |s.mem|);
      assert n < U32 ==> n % U32 == n;
    }
  }

  lemma {:induction false} ReaderStepKeeps(s: System, step: Step, t: System)
    requires Inv(s) && Next(s, step, t)
    requires step.LoadHeadToRead? || step.LoadTailToRead? || step.ReadLengthByte? || step.TakeLength? || step.ReadDataByte?
    ensures Inv(t)
  {
    TailApart(s);
    var x := Span(s.delivered);
    match step
    case ReadLengthByte(i) =>
      SlotWrapped(|s.mem|, x, i);
      assert s.mem[Slot(|s.mem|, x, i)] == Frame(Unread(s)[0])[i];
    case TakeLength =>
      assert ValuesUpTo(s.reader.length, 4) == Le32(|Unread(s)[0]|);
      Le32RoundTrip(|Unread(s)[0]|);
    case ReadDataByte(i) =>
      SlotWrapped(|s.mem|, x, i + 4);
      assert s.mem[Slot(|s.mem|, x, i + 4)] == Frame(Unread(s)[0])[i + 4];
    case _ =>
  }

  lemma {:induction false} NextKeeps(s: System, step: Step, t: System)
    requires Inv(s) && Bounded(s) && SendsWell(s, step) && Next(s, step, t)
    ensures Inv(t)
  {
    match step
    case LoadHeadToWrite(_) => WriterLoadKeeps(s, step, t);
    case LoadTailToWrite => WriterLoadKeeps(s, step, t);
    case CopyByte(i) => CopyByteKeeps(s, i, t);
    case StoreHead => StoreHeadKeeps(s, t);
    case StoreTail => StoreTailKeeps(s, t);
    case _ => ReaderStepKeeps(s, step, t);
  }

  // ---- runs ----

  ghost predicate IsRun(states: seq<System>, steps: seq<Step>) {
    && |states| == |steps| + 1
    && Init(states[0])
    && forall k | 0 <= k < |steps| :: |states[k].mem| > 0 && Next(states[k], steps[k], states[k + 1])
  }

  /**
   In every interleaving, while the size is regular or fewer than 2^32 bytes
   have been written, and of lengths that write tests as intended, what has been
   read is a prefix of what has been written,
   message by message and whole.
   */
  lemma {:induction false} DeliveredInOrder(states: seq<System>, steps: seq<Step>, k: nat)
    requires IsRun(states, steps) && k < |states|
    requires forall j | 0 <= j < k :: Bounded(states[j]) && SendsWell(states[j], steps[j])
    ensures Inv(states[k]) && states[k].delivered <= states[k].accepted
    decreases k
  {
    if k == 0 {
      assert Unread(states[0]) == [];
    } else {
      DeliveredInOrder(states, steps, k - 1);
      NextKeeps(states[k - 1], steps[k - 1], states[k]);
    }
  }

  /** A copy in progress and the unread messages share no byte, so no read can see a half-written one. */
  lemma {:induction false} CopyDisjoint(size: nat, x: nat, queue: seq<Bytes>, y: nat, n: nat, m: nat, i: nat, j: nat)
    requires 0 < size <= U32 && x + Span(queue) == y && Span(queue) + n < size
    requires Regular(size) || y + n < U32
    requires m < |queue| && i < 4 + |queue[m]| && j < n
    ensures Slot(size, x + Span(queue[..m]), i) != Slot(size, y, j)
    decreases m
  {
    if m == 0 {
      SlotsApart(size, x, i, y, j);
    } else {
      CopyDisjoint(size, x + 4 + |queue[0]|, queue[1..], y, n, m - 1, i, j);
      assert queue[..m][1..] == queue[1..][..m - 1];
    }
  }

  lemma {:induction false} WriterAndReaderDisjoint(states: seq<System>, steps: seq<Step>, k: nat, m: nat, i: nat, j: nat)
    requires IsRun(states, steps) && k < |states|
    requires forall l | 0 <= l <= k :: |states[l].mem| > 0 && Bounded(states[l])
    requires forall l | 0 <= l < k :: SendsWell(states[l], steps[l])
    requires states[k].writer.Copying? && j < 4 + |states[k].writer.data|
    requires |states[k].delivered| <= |states[k].accepted| && m < |Unread(states[k])| && i < 4 + |Unread(states[k])[m]|
    ensures var s := states[k];
            Slot(|s.mem|, Span(s.delivered) + Span(Unread(s)[..m]), i) != Slot(|s.mem|, s.writer.head, j)
  {
    DeliveredInOrder(states, steps, k);
    var s := states[k];
    SlotWrapped(|s.mem|, Span(s.accepted), j);
    CopyDisjoint(|s.mem|, Span(s.delivered), Unread(s), Span(s.accepted), 4 + |s.writer.data|, m, i, j);
  }
}
