/**
 Whole runs of the ring of crates/ipc/src/shm.rs: which buffer sizes deliver
 every message whole and in order, and a run that tears a message for each of
 the others.
 */
module ShmFifo {
  import opened Common
  import opened RingMath
  import opened ShmRing

  datatype Operation = Send(data: Bytes) | Receive

  /** The ring after a run, the messages write accepted and the messages read returned; nothing is known after an overrun. */
  datatype Run = Run(ring: Ring, accepted: seq<Bytes>, received: seq<Bytes>, overrun: bool)

  function After(r: Run, op: Operation): (r': Run)
    requires r.ring.Sane()
    ensures r'.ring.Sane() && |r'.ring.mem| == |r.ring.mem|
    ensures r.accepted <= r'.accepted
  {
    if r.overrun then r
    else
      match op
      case Send(data) =>
        (match WriteTo(r.ring, data)
         case Refused => r
         case Queued(ring) => r.(ring := ring, accepted := r.accepted + [data])
         case WriteOverrun => r.(overrun := true))
      case Receive =>
        match ReadFrom(r.ring)
        case Nothing => r
        case Message(ring, data) => r.(ring := ring, received := r.received + [data])
        case ReadOverrun => r.(overrun := true)
  }

  function RunOf(mem: Bytes, ops: seq<Operation>): (r: Run)
    requires 0 < |mem| <= U32
    ensures r.ring.Sane() && |r.ring.mem| == |mem|
  {
    if ops == [] then Run(Ring(mem, 0, 0), [], [], false) else After(RunOf(mem, ops[..|ops| - 1]), ops[|ops| - 1])
  }

  /** The run stayed in the buffer, received a prefix of what was accepted, and all of it if the ring reads as empty. */
  ghost predicate Delivered(r: Run) {
    !r.overrun && r.received <= r.accepted && (r.ring.head == r.ring.tail ==> r.received == r.accepted)
  }

  ghost predicate SendsWithin(ops: seq<Operation>, lens: iset<nat>) {
    forall op | op in ops && op.Send? :: |op.data| in lens
  }

  /** The lengths that this size tests as intended. */
  ghost function SendableOn(size: nat): iset<nat> {
    iset n: nat | Sendable(size, n)
  }

  lemma RunOfAppend(mem: Bytes, ops: seq<Operation>, op: Operation)
    requires 0 < |mem| <= U32
    ensures RunOf(mem, ops + [op]) == After(RunOf(mem, ops), op)
  {
    assert (ops + [op])[..|ops + [op]| - 1] == ops;
  }

  /** Everything received is what was accepted, in order, and the rest is in flight. */
  ghost predicate InOrder(r: Run) {
    exists queue :: Explains(r, queue)
  }

  ghost predicate Explains(r: Run, queue: seq<Bytes>) {
    !r.overrun && r.accepted == r.received + queue && Holds(r.ring, Span(r.received), queue)
  }

  lemma {:induction false} SpanConcat(a: seq<Bytes>, b: seq<Bytes>)
    ensures Span(a + b) == Span(a) + Span(b)
  {
    if a == [] {
      assert a + b == b;
    } else {
      assert (a + b)[1..] == a[1..] + b;
      SpanConcat(a[1..], b);
    }
  }

  /** A send keeps the order, as long as the size is regular or the bytes accepted stay below 2^32. */
  lemma {:induction false} SendInOrder(r: Run, data: Bytes, queue: seq<Bytes>)
    requires Explains(r, queue) && Sendable(|r.ring.mem|, |data|)
    requires Regular(|r.ring.mem|) || Span(After(r, Send(data)).accepted) < U32
    ensures Explains(After(r, Send(data)), if After(r, Send(data)).accepted == r.accepted then queue else queue + [data])
  {
    if Span(queue) + 4 + |data| < |r.ring.mem| {
      SendFits(r, data, queue);
      SpanConcat(r.received, queue);
      SpanAppend(r.accepted, data);
      WriteHolds(r.ring, Span(r.received), queue, data);
      assert r.accepted + [data] == r.received + (queue + [data]);
    } else {
      SendRefused(r, data, queue);
    }
  }

  lemma SendRefused(r: Run, data: Bytes, queue: seq<Bytes>)
    requires Explains(r, queue) && Sendable(|r.ring.mem|, |data|) && Span(queue) + 4 + |data| >= |r.ring.mem|
    ensures After(r, Send(data)) == r
  {
    UsedIs(r.ring, Span(r.received), queue);
    SendableRefuses(Span(queue), |data|, |r.ring.mem|);
  }

  lemma SendFits(r: Run, data: Bytes, queue: seq<Bytes>)
    requires Explains(r, queue) && Sendable(|r.ring.mem|, |data|) && Span(queue) + 4 + |data| < |r.ring.mem|
    ensures WriteTo(r.ring, data).Queued? && After(r, Send(data)).accepted == r.accepted + [data]
  {
    UsedIs(r.ring, Span(r.received), queue);
    SendableRefuses(Span(queue), |data|, |r.ring.mem|);
    WriteFits(r.ring, Span(r.received) + Span(queue), data);
  }

  lemma {:induction false} ReceiveInOrder(r: Run, queue: seq<Bytes>)
    requires Explains(r, queue)
    ensures Explains(After(r, Receive), if queue == [] then [] else queue[1..])
    ensures After(r, Receive).received == if queue == [] then r.received else r.received + [queue[0]]
  {
    ReadHolds(r.ring, Span(r.received), queue);
    if queue != [] {
      SpanAppend(r.received, queue[0]);
      assert r.accepted == (r.received + [queue[0]]) + queue[1..];
    }
  }

  lemma {:induction false} AcceptedGrows(mem: Bytes, ops: seq<Operation>, n: nat)
    requires 0 < |mem| <= U32 && n <= |ops|
    ensures RunOf(mem, ops[..n]).accepted <= RunOf(mem, ops).accepted
    ensures Span(RunOf(mem, ops[..n]).accepted) <= Span(RunOf(mem, ops).accepted)
    decreases |ops|
  {
    if n < |ops| {
      var init := ops[..|ops| - 1];
      assert init[..n] == ops[..n];
      AcceptedGrows(mem, init, n);
      var a, a' := RunOf(mem, init).accepted, RunOf(mem, ops).accepted;
      assert a' == a + a'[|a|..];
      SpanConcat(a, a'[|a|..]);
    } else {
      assert ops[..n] == ops;
    }
  }

  /** Every run of sendable lengths delivers in order on a regular size, and on any size while fewer than 2^32 bytes have gone through. */
  lemma {:induction false} RunInOrder(mem: Bytes, ops: seq<Operation>)
    requires 0 < |mem| <= U32 && SendsWithin(ops, SendableOn(|mem|))
    requires Regular(|mem|) || Span(RunOf(mem, ops).accepted) < U32
    ensures InOrder(RunOf(mem, ops)) && Delivered(RunOf(mem, ops))
    decreases |ops|
  {
    if ops == [] {
      assert Explains(RunOf(mem, ops), []);
    } else {
      var init, op := ops[..|ops| - 1], ops[|ops| - 1];
      AcceptedGrows(mem, ops, |ops| - 1);
      assert SendsWithin(init, SendableOn(|mem|)) && op in ops;
      RunInOrder(mem, init);
      StepInOrder(RunOf(mem, init), op);
    }
    OrderDelivers(RunOf(mem, ops));
  }

  lemma StepInOrder(r: Run, op: Operation)
    requires r.ring.Sane() && InOrder(r) && (op.Send? ==> Sendable(|r.ring.mem|, |op.data|))
    requires Regular(|r.ring.mem|) || Span(After(r, op).accepted) < U32
    ensures InOrder(After(r, op))
  {
    var queue :| Explains(r, queue);
    match op
    case Send(data) => SendInOrder(r, data, queue);
    case Receive => ReceiveInOrder(r, queue);
  }

  lemma OrderDelivers(r: Run)
    requires InOrder(r)
    ensures Delivered(r)
  {
    var queue :| Explains(r, queue);
    UsedIs(r.ring, Span(r.received), queue);
  }

  // ---- the sizes that tear ----

  /** n empty messages, each sent and received. */
  function Empties(n: nat): (ops: seq<Operation>)
    ensures |ops| == 2 * n
    ensures forall op | op in ops && op.Send? :: op.data == []
  {
    if n == 0 then [] else Empties(n - 1) + [Send([]), Receive]
  }

  lemma {:induction false} EmptyRoundTrip(r: Run)
    requires Explains(r, []) && 4 < |r.ring.mem| < U32 && Sendable(|r.ring.mem|, 0)
    requires Regular(|r.ring.mem|) || Span(r.received) + 4 < U32
    ensures var r' := After(After(r, Send([])), Receive);
            && Explains(r', [])
            && |r'.received| == |r.received| + 1 && Span(r'.received) == Span(r.received) + 4
  {
    var r1 := After(r, Send([]));
    assert r.accepted == r.received;
    SendFits(r, [], []);
    SpanAppend(r.accepted, []);
    SendInOrder(r, [], []);
    var queue: seq<Bytes> := [[]];
    assert [] + queue == queue && queue[1..] == [];
    ReceiveInOrder(r1, queue);
    SpanAppend(r.received, []);
  }

  lemma {:induction false} EmptiesStep(mem: Bytes, n: nat)
    requires 0 < |mem| <= U32 && n > 0
    ensures RunOf(mem, Empties(n)) == After(After(RunOf(mem, Empties(n - 1)), Send([])), Receive)
  {
    RunOfAppend(mem, Empties(n - 1), Send([]));
    RunOfAppend(mem, Empties(n - 1) + [Send([])], Receive);
    assert Empties(n) == (Empties(n - 1) + [Send([])]) + [Receive];
  }

  lemma {:induction false} EmptiesRun(mem: Bytes, n: nat)
    requires 4 < |mem| < U32 && Sendable(|mem|, 0) && 4 * n < U32
    ensures var r := RunOf(mem, Empties(n));
            Explains(r, []) && |r.received| == n && Span(r.received) == 4 * n
    decreases n
  {
    if n == 0 {
      assert Explains(RunOf(mem, []), []);
    } else {
      EmptiesRun(mem, n - 1);
      EmptyRoundTrip(RunOf(mem, Empties(n - 1)));
      EmptiesStep(mem, n);
    }
  }

  lemma {:induction false} SlotBefore(size: nat, i: nat, q: nat, r: nat)
    requires 4 <= size <= U32 && i < 4 && U32 - 4 + i == q * size + r && r < size
    ensures Slot(size, U32 - 4, i) == r
  {
    ModShift(U32 - 4, i, size);
    ModUnique(U32 - 4 + i, q, size, r);
  }

  /** Just before the counters wrap, an irregular size puts a data byte of a full message over one of its length bytes. */
  lemma {:induction false} Collision(size: nat) returns (i: nat)
    requires 6 <= size <= U32 && !Regular(size)
    ensures i < 4 && Slot(size, U32 - 4, i) < size - 5
  {
    var q, r := U32 / size, U32 % size;
    assert U32 == q * size + r;
    if r == size - 1 {
      assert U32 + 1 == (q + 1) * size + 0;
      ModUnique(U32 + 1, q + 1, size, 0);
    } else if r <= size - 5 {
      i := 3;
      SlotBefore(size, 3, q, r - 1);
    } else {
      i := 0;
      assert size == 6 || size == 7 ==> r == 4;
      SlotBefore(size, 0, q, r - 4);
    }
  }

  /** A message of size - 5 equal bytes, chosen to differ from the length byte they will overwrite. */
  function Clash(size: nat, i: nat): Bytes
    requires size >= 6 && i < 4
  {
    seq(size - 5, k => if Le32(size - 5)[i] == 0 then 1 else 0)
  }

  lemma {:induction false} Overwritten(mem: Bytes, len: Bytes, data: Bytes, pos: nat, i: nat)
    requires |mem| > 0 && |len| == 4 && i < 4 && Place(|mem|, pos, i) < |data| <= |mem|
    ensures Get(Put(Put(mem, pos, len), 0, data), pos, 4)[i] == data[Place(|mem|, pos, i)]
  {
    var p := Place(|mem|, pos, i);
    PlaceStraight(|mem|, 0, p);
    PutHits(Put(mem, pos, len), 0, data, p);
  }

  /** A write into the empty ring whose length prefix ends exactly at the wrap. */
  lemma {:induction false} WriteAtWrap(r: Ring, x: nat, data: Bytes)
    requires r.Sane() && |r.mem| < U32 && x + 4 == U32 && r.head == r.tail == x && 4 + |data| < |r.mem|
    ensures WriteTo(r, data) == Queued(Ring(Put(Put(r.mem, x % |r.mem|, Le32(|data|)), 0, data), |data|, x))
  {
    var size := |r.mem|;
    WrapAtZero(x);
    ModUnique(0, 0, size, 0);
    assert Used(r) == 0;
    assert |data| % U32 == |data| by { ModUnique(|data|, 0, U32, |data|); }
    assert Covered(data) == data;
    assert !Refuses(0, |data|, size) by { RefusesExact(0, |data|, size); }
  }

  lemma WrapAtZero(x: nat)
    requires x + 4 == U32
    ensures (x + 4) % U32 == 0
  {
    ModUnique(U32, 1, U32, 0);
  }

  lemma {:induction false} ClashTorn(r: Ring, x: nat, i: nat)
    requires r.Sane() && 6 <= |r.mem| < U32 && i < 4 && x + 4 == U32 && Place(|r.mem|, x % |r.mem|, i) < |r.mem| - 5
    requires r.head == r.tail == x
    ensures WriteTo(r, Clash(|r.mem|, i)).Queued?
    ensures var got := ReadFrom(WriteTo(r, Clash(|r.mem|, i)).ring);
            got.ReadOverrun? || (got.Message? && |got.data| != |Clash(|r.mem|, i)|)
  {
    var size := |r.mem|;
    var data := Clash(size, i);
    var pos := x % size;
    WriteAtWrap(r, x, data);
    var r1 := WriteTo(r, data).ring;
    Overwritten(r.mem, Le32(|data|), data, pos, i);
    ClashDiffers(Get(r1.mem, pos, 4), size, i);
  }

  lemma ClashDiffers(b: Bytes, size: nat, i: nat)
    requires |b| == 4 && size >= 6 && i < 4 && b[i] in Clash(size, i)
    ensures FromLe32(b) != |Clash(size, i)|
  {
    LenBytesOf(b);
  }

  /** The next message read is not the next one accepted. */
  lemma ReadsWrong(r: Run)
    requires r.ring.Sane() && !r.overrun && |r.received| < |r.accepted|
    requires var got := ReadFrom(r.ring);
             got.ReadOverrun? || (got.Message? && |got.data| != |r.accepted[|r.received|]|)
    ensures !Delivered(After(r, Receive))
  {
    var n, r' := |r.received|, After(r, Receive);
    if !r'.overrun {
      assert |r'.received[n]| != |r'.accepted[n]|;
    }
  }

  lemma SentWrong(r: Run, data: Bytes)
    requires r.ring.Sane() && !r.overrun && r.accepted == r.received && WriteTo(r.ring, data).Queued?
    requires var got := ReadFrom(WriteTo(r.ring, data).ring); got.ReadOverrun? || (got.Message? && |got.data| != |data|)
    ensures !Delivered(After(After(r, Send(data)), Receive))
  {
    var r1 := After(r, Send(data));
    assert r1.accepted == r.received + [data] && r1.ring == WriteTo(r.ring, data).ring;
    ReadsWrong(r1);
  }

  lemma TornStep(r: Run) returns (data: Bytes)
    requires r.ring.Sane() && 6 <= |r.ring.mem| < U32 && !Regular(|r.ring.mem|)
    requires Explains(r, []) && Span(r.received) == U32 - 4
    ensures |data| == |r.ring.mem| - 5 && !Delivered(After(After(r, Send(data)), Receive))
  {
    UsedIs(r.ring, U32 - 4, []);
    var size := |r.ring.mem|;
    var i := Collision(size);
    data := Clash(size, i);
    ClashTorn(r.ring, r.ring.head, i);
    assert r.accepted == r.received;
    SentWrong(r, data);
  }

  /** The lengths that fit into an empty buffer. */
  predicate Fits(size: nat, n: nat) {
    n + 4 < size
  }

  ghost function Fitting(size: nat): iset<nat> {
    iset n: nat | Fits(size, n)
  }

  ghost predicate AllowsFitting(size: nat, lens: iset<nat>) {
    forall n: nat | Fits(size, n) :: n in lens
  }

  lemma {:induction false} TornRun(mem: Bytes, lens: iset<nat>) returns (ops: seq<Operation>)
    requires 6 <= |mem| < U32 - 12 && !Regular(|mem|) && AllowsFitting(|mem|, lens)
    ensures SendsWithin(ops, lens) && !Delivered(RunOf(mem, ops))
  {
    var n := 0x3FFF_FFFF;
    EmptiesRun(mem, n);
    var data := TornStep(RunOf(mem, Empties(n)));
    RunOfAppend(mem, Empties(n), Send(data));
    RunOfAppend(mem, Empties(n) + [Send(data)], Receive);
    ops := (Empties(n) + [Send(data)]) + [Receive];
  }

  // ---- the lengths that tear ----

  lemma StartRun(mem: Bytes)
    requires 0 < |mem| < U32
    ensures RunOf(mem, []) == Run(Ring(mem, 0, 0), [], [], false) && Explains(RunOf(mem, []), [])
  {
  }

  lemma RunTwo(mem: Bytes, a: Operation, b: Operation)
    requires 0 < |mem| <= U32
    ensures RunOf(mem, [a]) == After(RunOf(mem, []), a)
    ensures RunOf(mem, [a, b]) == After(After(RunOf(mem, []), a), b)
  {
    RunOfAppend(mem, [], a);
    RunOfAppend(mem, [a], b);
    assert [] + [a] == [a] && [a] + [b] == [a, b];
  }

  /** A length within three of 2^32 wraps the sum at once, and its copy leaves a buffer of up to 2 GiB. */
  lemma {:induction false} HugeAccepted(size: nat, n: nat)
    requires 0 < size <= U32 / 2 && n % U32 + 4 >= U32 && n % U32 + 4 - U32 < size
    requires size < 5 || n % U32 + 4 > U32
    ensures !Refuses(0, n, size) && Overruns(size, 4, n % U32)
  {
    var sum := n % U32 + 4 - U32;
    ModUnique(n % U32 + 4, 1, U32, sum);
    ModUnique(sum, 0, U32, sum);
    if size >= 5 {
      ModUnique(4, 0, size, 4);
    }
  }

  lemma {:induction false} HugeOverruns(mem: Bytes, data: Bytes)
    requires 0 < |mem| <= U32 / 2 && |data| % U32 + 4 >= U32 && |data| % U32 + 4 - U32 < |mem|
    requires |mem| < 5 || |data| % U32 + 4 > U32
    ensures !Delivered(RunOf(mem, [Send(data)]))
  {
    RunTwo(mem, Send(data), Receive);
    StartRun(mem);
    HugeAccepted(|mem|, |data|);
    ModUnique(4, 0, U32, 4);
    var ring := Ring(mem, 0, 0);
    assert Used(ring) == 0 && (ring.head + 4) % U32 == 4;
    assert WriteTo(ring, data) == WriteOverrun;
  }

  /** A payload of 4 GiB or more is queued as the part its cast length covers, if that fits. */
  lemma {:induction false} CastTorn(mem: Bytes, data: Bytes)
    requires 5 <= |mem| <= U32 / 2 && |data| >= U32 && |data| % U32 + 4 < |mem|
    ensures !Delivered(RunOf(mem, [Send(data), Receive]))
  {
    var part, r0 := Covered(data), RunOf(mem, []);
    RunTwo(mem, Send(data), Receive);
    StartRun(mem);
    CastWrite(r0.ring, data);
    assert Sendable(|mem|, |part|) by { ModUnique(|part|, 0, U32, |part|); }
    CutDown(r0, data, part);
  }

  /** It is received cut down to that. */
  lemma {:induction false} CutDown(r: Run, data: Bytes, part: Bytes)
    requires Explains(r, []) && r.accepted == [] && |data| != |part| && Sendable(|r.ring.mem|, |part|)
    requires |part| + 4 < |r.ring.mem| < U32 && WriteTo(r.ring, data) == WriteTo(r.ring, part)
    ensures !Delivered(After(After(r, Send(data)), Receive))
  {
    SendFits(r, part, []);
    SpanAppend([], part);
    assert r.accepted + [part] == [] + [part] == [part];
    SendInOrder(r, part, []);
    var sent := After(r, Send(part));
    ReceiveInOrder(sent, [part]);
    var r2 := After(After(r, Send(data)), Receive);
    assert r2.accepted[0] == data && r2.received[0] == part;
  }

  lemma {:induction false} PutKeepsByte(mem: Bytes, pos: nat, src: Bytes, c: u8, p: nat)
    requires p < |mem| && mem[p] == c && forall k | 0 <= k < |src| :: src[k] == c
    ensures Put(mem, pos, src)[p] == c
    decreases |src|
  {
    if src != [] {
      PutKeepsByte(mem[Place(|mem|, pos, 0) := src[0]], pos + 1, src[1..], c, p);
    }
  }

  function Uniform(n: nat, c: u8): (data: Bytes)
    ensures |data| == n && forall k | 0 <= k < n :: data[k] == c
  {
    seq(n, k => c)
  }

  /** Into that ring a length that wraps the sum is accepted. */
  lemma {:induction false} WrapAccepted(size: nat, n: nat)
    requires 5 <= size <= U32 / 2 && n % U32 + 4 + size > U32 && n % U32 + 4 <= U32
    ensures !Refuses(size - 1, n, size)
  {
    var len := n % U32;
    if len + 4 == U32 {
      ModUnique(U32, 1, U32, 0);
      ModUnique(size - 1, 0, U32, size - 1);
    } else {
      ModUnique(len + 4, 0, U32, len + 4);
      ModUnique(size - 1 + len + 4, 1, U32, size - 1 + len + 4 - U32);
    }
  }

  lemma OnePast(size: nat)
    requires 5 <= size <= U32 / 2
    ensures (size - 1 + 4) % U32 == size + 3 && (size + 3) % size == 3 && 0 % size == 0
  {
    ModUnique(size + 3, 0, U32, size + 3);
    ModUnique(size + 3, 1, size, 3);
  }

  lemma CoveredUniform(data: Bytes, c: u8)
    requires forall k | 0 <= k < |data| :: data[k] == c
    ensures forall k | 0 <= k < |Covered(data)| :: Covered(data)[k] == c
  {
  }

  lemma PutFirst(mem: Bytes, pos: nat, src: Bytes, c: u8)
    requires pos < |mem| && src != [] && forall k | 0 <= k < |src| :: src[k] == c
    ensures Put(mem, pos, src)[pos] == c
  {
    PlaceStraight(|mem|, pos, 0);
    PutKeepsByte(mem[pos := src[0]], pos + 1, src[1..], c, pos);
  }

  /** Its data then overwrites the length of the message before. */
  lemma {:induction false} OverwritesLength(ring: Ring, data: Bytes, c: u8)
    requires ring.Sane() && 5 <= |ring.mem| <= U32 / 2 && ring.head == |ring.mem| - 1 && WriteTo(ring, data).Queued?
    requires Covered(data) != [] && forall k | 0 <= k < |data| :: data[k] == c
    ensures WriteTo(ring, data).ring.mem[3] == c && WriteTo(ring, data).ring.tail == ring.tail
  {
    var size, part := |ring.mem|, Covered(data);
    var mem1 := Put(ring.mem, ring.head % size, Le32(|data| % U32));
    var pos := (ring.head + 4) % U32 % size;
    assert WriteTo(ring, data).ring.mem == Put(mem1, pos, part);
    assert pos == 3 by { OnePast(size); }
    CoveredUniform(data, c);
    PutFirst(mem1, pos, part, c);
  }

  /** A run that ends with the message `full` alone in the buffer, at its start. */
  ghost predicate IsFull(r: Run, full: Bytes) {
    && r.ring.Sane() && 5 <= |r.ring.mem| <= U32 / 2 && |full| == |r.ring.mem| - 5
    && !r.overrun && r.accepted == [full] && r.received == []
    && r.ring.head == |r.ring.mem| - 1 && r.ring.tail == 0
  }

  /** One message of the greatest length leads to such a run. */
  lemma {:induction false} FullRing(mem: Bytes, full: Bytes)
    requires 5 <= |mem| <= U32 / 2 && |full| == |mem| - 5
    ensures IsFull(RunOf(mem, [Send(full)]), full)
  {
    RunTwo(mem, Send(full), Receive);
    StartRun(mem);
    var ring := Ring(mem, 0, 0);
    ModUnique(|mem| - 1, 0, U32, |mem| - 1);
    assert |full| + 4 == |mem| - 1 && Used(ring) == 0;
    RefusesExact(0, |full|, |mem|);
    WriteFits(ring, 0, full);
    assert [] + [full] == [full];
  }

  /** The second message is accepted, and unless its copy overran, it lies over the length of the first. */
  lemma {:induction false} WrapSent(r: Run, full: Bytes, data: Bytes, c: u8)
    requires IsFull(r, full)
    requires |data| % U32 + 4 + |r.ring.mem| > U32 && |data| % U32 + 4 <= U32
    requires forall k | 0 <= k < |data| :: data[k] == c
    ensures var r1 := After(r, Send(data));
            r1.overrun || (r1.accepted == [full, data] && r1.received == [] && r1.ring.tail == 0 && r1.ring.mem[3] == c)
  {
    WrapAccepted(|r.ring.mem|, |data|);
    assert Used(r.ring) == |r.ring.mem| - 1;
    assert WriteTo(r.ring, data) != Refused;
    assert [full] + [data] == [full, data];
    if WriteTo(r.ring, data).Queued? {
      assert |Covered(data)| > 0;
      OverwritesLength(r.ring, data, c);
    }
  }

  lemma {:induction false} WrapFails(r: Run, full: Bytes, data: Bytes, c: u8)
    requires IsFull(r, full) && c != Le32(|full|)[3]
    requires |data| % U32 + 4 + |r.ring.mem| > U32 && |data| % U32 + 4 <= U32
    requires forall k | 0 <= k < |data| :: data[k] == c
    ensures !Delivered(After(After(r, Send(data)), Receive))
  {
    WrapSent(r, full, data, c);
    var r1 := After(r, Send(data));
    if !r1.overrun {
      ReadsOther(r1, full, data);
    }
  }

  lemma {:induction false} WrapTorn(mem: Bytes, full: Bytes, data: Bytes, c: u8)
    requires 5 <= |mem| <= U32 / 2 && |full| == |mem| - 5 && c != Le32(|full|)[3]
    requires |data| % U32 + 4 + |mem| > U32 && |data| % U32 + 4 <= U32
    requires forall k | 0 <= k < |data| :: data[k] == c
    ensures !Delivered(RunOf(mem, [Send(full), Send(data), Receive]))
  {
    RunTwo(mem, Send(full), Send(data));
    RunOfAppend(mem, [Send(full), Send(data)], Receive);
    assert [Send(full), Send(data)] + [Receive] == [Send(full), Send(data), Receive];
    FullRing(mem, full);
    WrapFails(RunOf(mem, [Send(full)]), full, data, c);
  }

  lemma {:induction false} ReadsOther(r: Run, full: Bytes, data: Bytes)
    requires r.ring.Sane() && 5 <= |r.ring.mem| <= U32 / 2 && |full| == |r.ring.mem| - 5 && r.ring.tail == 0
    requires !r.overrun && r.accepted == [full, data] && r.received == [] && r.ring.mem[3] != Le32(|full|)[3]
    ensures !Delivered(After(r, Receive))
  {
    var prefix := Get(r.ring.mem, 0, 4);
    PlaceStraight(|r.ring.mem|, 0, 3);
    assert prefix[3] == r.ring.mem[3];
    LenBytesOf(prefix);
    OnePast(|r.ring.mem|);
    if r.ring.head != 0 {
      ReadsWrong(r);
    }
  }

  /** On sizes up to 2 GiB every length that write does not test as intended has a run that fails. */
  lemma {:induction false} PayloadFails(mem: Bytes, n: nat, lens: iset<nat>) returns (ops: seq<Operation>)
    requires 0 < |mem| <= U32 / 2 && !Sendable(|mem|, n) && n in lens && AllowsFitting(|mem|, lens)
    ensures SendsWithin(ops, lens) && !Delivered(RunOf(mem, ops))
  {
    var size, len := |mem|, n % U32;
    var full := Uniform(if size >= 5 then size - 5 else 0, 0);
    var c: u8 := if Le32(|full|)[3] == 0 then 1 else 0;
    var data := Uniform(n, c);
    if size < 5 || len + 4 > U32 {
      HugeOverruns(mem, data);
      ops := [Send(data)];
    } else if len + 4 + size > U32 {
      WrapTorn(mem, full, data, c);
      ops := [Send(full), Send(data), Receive];
    } else {
      CastTorn(mem, data);
      ops := [Send(data), Receive];
    }
  }

  // ---- up to 5 bytes ----

  /** The ring is empty, or holds one empty message, which takes a single chunk. */
  ghost predicate Tiny(r: Run) {
    var ring := r.ring;
    && !r.overrun && 0 < |ring.mem| <= 5 && ring.head < U32 && ring.tail < U32
    && if ring.head == ring.tail then r.accepted == r.received
       else
         && |ring.mem| == 5 && ring.head == (ring.tail + 4) % U32 && Get(ring.mem, ring.tail % 5, 4) == Le32(0)
         && r.accepted == r.received + [[]]
  }

  lemma GetPut(mem: Bytes, pos: nat, b: Bytes)
    requires |mem| > 0 && |b| <= |mem|
    ensures Get(Put(mem, pos, b), pos, |b|) == b
  {
    forall k | 0 <= k < |b| ensures Get(Put(mem, pos, b), pos, |b|)[k] == b[k] {
      PutHits(mem, pos, b, k);
    }
  }

  /** Four bytes on, the counter differs, and four bytes are in use. */
  lemma FourUsed(r: Ring)
    requires r.tail < U32 && r.head == (r.tail + 4) % U32
    ensures r.head < U32 && r.head != r.tail && Used(r) == 4
  {
  }

  /** The only message that fits. */
  lemma TinyEmpty(ring: Ring)
    requires ring.Sane() && |ring.mem| == 5 && ring.head == ring.tail
    ensures WriteTo(ring, []) == Queued(Ring(Put(ring.mem, ring.tail % 5, Le32(0)), (ring.tail + 4) % U32, ring.tail))
  {
    var head1 := (ring.head + 4) % U32;
    assert Put(Put(ring.mem, ring.head % 5, Le32(0)), head1 % 5, []) == Put(ring.mem, ring.head % 5, Le32(0));
    assert (head1 + 0) % U32 == head1;
    assert Covered([]) == [];
  }

  lemma TinySend(r: Run, data: Bytes)
    requires Tiny(r) && Sendable(|r.ring.mem|, |data|)
    ensures Tiny(After(r, Send(data)))
  {
    var ring := r.ring;
    if ring.head != ring.tail {
      FourUsed(ring);
    }
    SendableRefuses(Used(ring), |data|, |ring.mem|);
    if !Refuses(Used(ring), |data|, |ring.mem|) {
      assert data == [] && |ring.mem| == 5 && ring.head == ring.tail;
      TinyEmpty(ring);
      GetPut(ring.mem, ring.tail % 5, Le32(0));
      FourUsed(Ring(ring.mem, (ring.tail + 4) % U32, ring.tail));
    }
  }

  lemma TinyReceive(r: Run)
    requires Tiny(r)
    ensures Tiny(After(r, Receive))
  {
    var ring := r.ring;
    if ring.head != ring.tail {
      Le32RoundTrip(0);
      var tail1 := (ring.tail + 4) % U32;
      assert Get(ring.mem, tail1 % 5, 0) == [] && (tail1 + 0) % U32 == tail1;
    }
  }

  lemma {:induction false} TinyRun(mem: Bytes, ops: seq<Operation>)
    requires 0 < |mem| <= 5 && SendsWithin(ops, SendableOn(|mem|))
    ensures Tiny(RunOf(mem, ops)) && Delivered(RunOf(mem, ops))
    decreases |ops|
  {
    if ops != [] {
      var init, op := ops[..|ops| - 1], ops[|ops| - 1];
      assert SendsWithin(init, SendableOn(|mem|)) && op in ops;
      TinyRun(mem, init);
      match op
      case Send(data) => TinySend(RunOf(mem, init), data);
      case Receive => TinyReceive(RunOf(mem, init));
    }
  }

  // ---- exactly which sizes and lengths ----

  ghost predicate DeliversOn(size: nat, lens: iset<nat>)
    requires 0 < size <= U32
  {
    forall mem: Bytes, ops | |mem| == size && SendsWithin(ops, lens) :: Delivered(RunOf(mem, ops))
  }

  /** An irregular size exceeds 5 or a regular one 2 GiB. */
  lemma RegularSmall(size: nat)
    requires 0 < size < U32 && Regular(size)
    ensures size <= U32 / 2
  {
    if size > U32 / 2 {
      ModUnique(U32, 1, size, U32 - size);
      ModUnique(U32 + 1, 1, size, U32 + 1 - size);
    }
  }

  /**
   Let every length that fits be sent, and perhaps others. All runs deliver in
   order exactly when the size is regular or holds one empty message at most, and
   write tests every length sent as intended.
   */
  lemma {:induction false} DeliversIff(size: nat, lens: iset<nat>)
    requires 0 < size < U32 - 12 && AllowsFitting(size, lens)
    ensures DeliversOn(size, lens) <==> (Regular(size) || size <= 5) && forall n | n in lens :: Sendable(size, n)
  {
    var zeros: Bytes := seq(size, k => 0);
    if !Regular(size) && size > 5 {
      var ops := TornRun(zeros, lens);
      assert !Delivered(RunOf(zeros, ops));
    } else if n :| n in lens && !Sendable(size, n) {
      if Regular(size) {
        RegularSmall(size);
      }
      var ops := PayloadFails(zeros, n, lens);
      assert !Delivered(RunOf(zeros, ops));
    } else {
      forall mem: Bytes, ops | |mem| == size && SendsWithin(ops, lens) ensures Delivered(RunOf(mem, ops)) {
        assert SendsWithin(ops, SendableOn(size));
        if Regular(size) {
          RunInOrder(mem, ops);
        } else {
          TinyRun(mem, ops);
        }
      }
    }
  }

  /** The size in use, 1 MiB less the 12-byte header, fails even with the lengths that fit. */
  lemma ShippedSizeTears()
    ensures !DeliversOn(1024 * 1024 - 12, Fitting(1024 * 1024 - 12))
  {
    DeliversIff(1024 * 1024 - 12, Fitting(1024 * 1024 - 12));
  }

  /** A regular size with all lengths allowed fails too: 2^32 is cast to 0. */
  lemma CastLengthTears(lens: iset<nat>)
    requires AllowsFitting(0x1_0000, lens) && U32 in lens
    ensures Regular(0x1_0000) && !Sendable(0x1_0000, U32) && !DeliversOn(0x1_0000, lens)
  {
    DeliversIff(0x1_0000, lens);
  }
}
