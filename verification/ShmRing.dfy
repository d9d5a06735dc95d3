/**
 The shared-memory byte ring of crates/ipc/src/shm.rs, one operation at a time:
 length-prefixed messages, copies split at the end of the buffer, free-running
 u32 counters. The class works on the buffer in place; the functions say what
 it computes, and the lemmas when messages come out as they went in.
 */
module ShmRing {
  import opened Common
  import opened RingMath

  datatype Ring = Ring(mem: Bytes, head: nat, tail: nat) {
    ghost predicate Sane() {
      0 < |mem| <= U32 && head < U32 && tail < U32
    }
  }

  // ---- length prefixes (native endianness, taken as little-endian) ----

  lemma LenBytesOf(b: Bytes)
    requires |b| == 4
    ensures Le32(FromLe32(b)) == b
  {
    var n := FromLe32(b);
    assert n / 0x100 == b[1] as int + 0x100 * (b[2] as int + 0x100 * b[3] as int);
    assert n / 0x100 / 0x100 == b[2] as int + 0x100 * b[3] as int;
  }

  function Frame(data: Bytes): Bytes {
    Le32(|data|) + data
  }

  // ---- copies, byte by byte at positions modulo the buffer size ----

  function Put(mem: Bytes, pos: nat, src: Bytes): (m: Bytes)
    requires |mem| > 0
    ensures |m| == |mem|
    decreases |src|
  {
    if src == [] then mem else Put(mem[Place(|mem|, pos, 0) := src[0]], pos + 1, src[1..])
  }

  function Get(mem: Bytes, pos: nat, n: nat): (b: Bytes)
    requires |mem| > 0
    ensures |b| == n
  {
    seq(n, k requires 0 <= k < n => mem[Place(|mem|, pos, k)])
  }

  lemma {:induction false} PutStraight(mem: Bytes, pos: nat, src: Bytes)
    requires pos + |src| <= |mem| && |mem| > 0
    ensures Put(mem, pos, src) == mem[..pos] + src + mem[pos + |src|..]
    decreases |src|
  {
    if src != [] {
      PlaceStraight(|mem|, pos, 0);
      var mem' := mem[pos := src[0]];
      PutStraight(mem', pos + 1, src[1..]);
      assert mem'[..pos + 1] == mem[..pos] + [src[0]];
      assert mem'[pos + |src|..] == mem[pos + |src|..];
    }
  }

  lemma {:induction false} PutSplit(mem: Bytes, pos: nat, a: Bytes, b: Bytes)
    requires |mem| > 0
    ensures Put(mem, pos, a + b) == Put(Put(mem, pos, a), pos + |a|, b)
    decreases |a|
  {
    if a == [] {
      assert a + b == b;
    } else {
      assert (a + b)[1..] == a[1..] + b;
      PutSplit(mem[Place(|mem|, pos, 0) := a[0]], pos + 1, a[1..], b);
    }
  }

  lemma {:induction false} PutWraps(mem: Bytes, pos: nat, src: Bytes)
    requires |mem| > 0
    ensures Put(mem, pos + |mem|, src) == Put(mem, pos, src)
    decreases |src|
  {
    ModMultiple(1, |mem|, pos, |mem|);
    if src != [] {
      PutWraps(mem[Place(|mem|, pos, 0) := src[0]], pos + 1, src[1..]);
    }
  }

  /** A copy past the end goes on at the start. */
  lemma PutTwice(mem: Bytes, pos: nat, a: Bytes, b: Bytes)
    requires pos + |a| == |mem| && 0 < |mem| && |b| <= |mem|
    ensures Put(mem, pos, a + b) == b + (mem[..pos] + a)[|b|..]
  {
    var mid := mem[..pos] + a;
    PutStraight(mem, pos, a);
    assert mem[pos + |a|..] == [];
    assert Put(mem, pos, a) == mid;
    PutStraight(mid, 0, b);
    assert mid[..0] == [] && Put(mid, 0, b) == b + mid[|b|..];
    PutWraps(mid, 0, b);
    assert pos + |a| == 0 + |mid|;
    PutSplit(mem, pos, a, b);
  }

  lemma {:induction false} PutMisses(mem: Bytes, pos: nat, src: Bytes, p: nat)
    requires p < |mem| && forall k | 0 <= k < |src| :: Place(|mem|, pos, k) != p
    ensures Put(mem, pos, src)[p] == mem[p]
    decreases |src|
  {
    if src != [] {
      assert Place(|mem|, pos, 0) != p;
      var next := pos + 1;
      forall k | 0 <= k < |src| - 1 ensures Place(|mem|, next, k) != p {
        assert Place(|mem|, next, k) == Place(|mem|, pos, k + 1);
      }
      PutMisses(mem[Place(|mem|, pos, 0) := src[0]], next, src[1..], p);
    }
  }

  lemma {:induction false} PutHits(mem: Bytes, pos: nat, src: Bytes, k: nat)
    requires k < |src| <= |mem|
    ensures Put(mem, pos, src)[Place(|mem|, pos, k)] == src[k]
    decreases k
  {
    var mem' := mem[Place(|mem|, pos, 0) := src[0]];
    if k == 0 {
      var next := pos + 1;
      forall j | 0 <= j < |src| - 1 ensures Place(|mem|, next, j) != Place(|mem|, pos, 0) {
        PlacesApart(|mem|, pos, 0, j + 1);
        assert Place(|mem|, next, j) == Place(|mem|, pos, j + 1);
      }
      PutMisses(mem', next, src[1..], Place(|mem|, pos, 0));
    } else {
      PutHits(mem', pos + 1, src[1..], k - 1);
      assert Place(|mem|, pos + 1, k - 1) == Place(|mem|, pos, k);
    }
  }

  // ---- write and read ----

  function Used(r: Ring): int {
    if r.head >= r.tail then r.head - r.tail else (U32 - 1 - r.tail) + r.head + 1
  }

  /** The length test of write in 32-bit arithmetic: both additions wrap. */
  predicate Refuses(used: int, len: nat, size: nat) {
    (used + (len % U32 + 4) % U32) % U32 >= size
  }

  /** It is the intended test unless the true sum overflows ... */
  lemma RefusesExact(used: nat, len: nat, size: nat)
    requires used + len + 4 < U32
    ensures Refuses(used, len, size) <==> used + len + 4 >= size
  {
  }

  /** ... and a length that does overflow is let through. */
  lemma OverflowAccepted(used: nat, size: nat)
    requires used < size <= U32
    ensures !Refuses(used, U32 - 4, size) && used + (U32 - 4) + 4 >= size
  {
  }

  /** A copy of n bytes from this offset is split once, so it may run past the end of the buffer a second time. */
  predicate Overruns(size: nat, offset: nat, n: nat)
    requires size > 0
  {
    n > 2 * size - offset % size
  }

  /** Refused, queued, or a copy that leaves the buffer, after which nothing is known. */
  datatype Written = Refused | Queued(ring: Ring) | WriteOverrun

  /** The part of a payload that its length covers when cast to 32 bits. */
  function Covered(data: Bytes): (b: Bytes)
    ensures |b| == |data| % U32
  {
    data[..|data| % U32]
  }

  /** Only the low 32 bits of the length are tested, stored and copied. */
  function WriteTo(r: Ring, data: Bytes): Written
    requires r.Sane()
  {
    var size, len := |r.mem|, |data| % U32;
    if Refuses(Used(r), |data|, size) then Refused
    else
      var head1 := (r.head + 4) % U32;
      if Overruns(size, r.head, 4) || Overruns(size, head1, len) then WriteOverrun
      else
        var mem1 := Put(r.mem, r.head % size, Le32(len));
        var mem2 := Put(mem1, head1 % size, Covered(data));
        Queued(Ring(mem2, (head1 + len) % U32, r.tail))
  }

  datatype Taken = Nothing | Message(ring: Ring, data: Bytes) | ReadOverrun

  function ReadFrom(r: Ring): Taken
    requires r.Sane()
  {
    if r.tail == r.head then Nothing
    else
      var size := |r.mem|;
      if Overruns(size, r.tail, 4) then ReadOverrun
      else
        var len := FromLe32(Get(r.mem, r.tail % size, 4));
        var tail1 := (r.tail + 4) % U32;
        if Overruns(size, tail1, len) then ReadOverrun
        else Message(r.(tail := (tail1 + len) % U32), Get(r.mem, tail1 % size, len))
  }

  /** write treats a payload like the part of it that its cast length covers. */
  lemma CastWrite(r: Ring, data: Bytes)
    requires r.Sane()
    ensures WriteTo(r, data) == WriteTo(r, Covered(data))
  {
    assert |data| % U32 % U32 == |data| % U32;
    assert Covered(Covered(data)) == Covered(data);
  }

  /** The payload lengths that write tests as intended, however much of the buffer is in use. */
  predicate Sendable(size: nat, n: nat) {
    var len := n % U32;
    if size < 5 then len + 4 < U32 || len + 4 - U32 >= size
    else len + 4 + size <= U32 && (n < U32 || len + 4 >= size)
  }

  lemma SendableRefuses(used: nat, n: nat, size: nat)
    requires 0 < size <= U32 && Sendable(size, n) && used < size && (size < 5 ==> used == 0)
    ensures Refuses(used, n, size) <==> used + n + 4 >= size
  {
    var len := n % U32;
    if len + 4 < U32 {
      assert (len + 4) % U32 == len + 4;
      assert used + len + 4 < U32 || used == 0;
    } else {
      assert (len + 4) % U32 == len + 4 - U32;
    }
  }

  // ---- what the bytes in flight say ----

  function Span(queue: seq<Bytes>): nat {
    if queue == [] then 0 else 4 + |queue[0]| + Span(queue[1..])
  }

  lemma {:induction false} SpanAppend(queue: seq<Bytes>, data: Bytes)
    ensures Span(queue + [data]) == Span(queue) + 4 + |data|
  {
    if queue == [] {
      assert queue + [data] == [data];
    } else {
      assert (queue + [data])[1..] == queue[1..] + [data];
      SpanAppend(queue[1..], data);
    }
  }

  predicate FrameAt(mem: Bytes, x: nat, data: Bytes)
    requires |mem| > 0
  {
    forall i | 0 <= i < 4 + |data| :: mem[Slot(|mem|, x, i)] == Frame(data)[i]
  }

  /** The queued messages lie in the buffer one after the other from offset x on. */
  predicate InFlight(mem: Bytes, x: nat, queue: seq<Bytes>)
    requires |mem| > 0
    decreases |queue|
  {
    queue == [] || (FrameAt(mem, x, queue[0]) && InFlight(mem, x + 4 + |queue[0]|, queue[1..]))
  }

  /** `mem'` differs from `mem` at most in the slots of the n-byte frame at y. */
  ghost predicate OnlyFrame(mem: Bytes, mem': Bytes, y: nat, n: nat)
    requires 0 < |mem| == |mem'|
  {
    forall p | 0 <= p < |mem| && (forall j | 0 <= j < n :: Slot(|mem|, y, j) != p) :: mem'[p] == mem[p]
  }

  /** A frame after the queued messages, all within fewer than `size` bytes, does not disturb them. */
  lemma {:induction false} InFlightKept(mem: Bytes, mem': Bytes, x: nat, queue: seq<Bytes>, y: nat, n: nat)
    requires 0 < |mem| == |mem'| <= U32 && OnlyFrame(mem, mem', y, n) && InFlight(mem, x, queue)
    requires x + Span(queue) == y && Span(queue) + n < |mem|
    requires Regular(|mem|) || y + n < U32
    ensures InFlight(mem', x, queue)
    decreases |queue|
  {
    if queue != [] {
      forall i | 0 <= i < 4 + |queue[0]| ensures mem'[Slot(|mem|, x, i)] == Frame(queue[0])[i] {
        forall j | 0 <= j < n ensures Slot(|mem|, y, j) != Slot(|mem|, x, i) {
          SlotsApart(|mem|, x, i, y, j);
        }
      }
      InFlightKept(mem, mem', x + 4 + |queue[0]|, queue[1..], y, n);
    }
  }

  lemma {:induction false} InFlightAppend(mem: Bytes, x: nat, queue: seq<Bytes>, data: Bytes)
    requires |mem| > 0 && InFlight(mem, x, queue) && FrameAt(mem, x + Span(queue), data)
    ensures InFlight(mem, x, queue + [data])
    decreases |queue|
  {
    if queue == [] {
      assert queue + [data] == [data];
    } else {
      assert (queue + [data])[1..] == queue[1..] + [data];
      InFlightAppend(mem, x + 4 + |queue[0]|, queue[1..], data);
    }
  }

  /** Read offset `tail` (never wrapped) and queued messages explain the ring. */
  ghost predicate Holds(r: Ring, tail: nat, queue: seq<Bytes>) {
    && r.Sane()
    && r.tail == tail % U32 && r.head == (tail + Span(queue)) % U32
    && (Span(queue) < |r.mem| || queue == [])
    && InFlight(r.mem, tail, queue)
  }

  lemma UsedIs(r: Ring, tail: nat, queue: seq<Bytes>)
    requires Holds(r, tail, queue)
    ensures Used(r) == Span(queue)
    ensures r.head == r.tail <==> queue == []
  {
  }

  /** The two copies of a write lay down exactly one frame. */
  ghost function FramePut(mem: Bytes, y: nat, data: Bytes): (m: Bytes)
    requires |mem| > 0
    ensures |m| == |mem|
  {
    Put(Put(mem, Position(|mem|, y), Le32(|data|)), Position(|mem|, y + 4), data)
  }

  lemma {:induction false} FramePutAt(mem: Bytes, y: nat, data: Bytes, i: nat)
    requires 0 < |mem| <= U32 && 4 + |data| < |mem| && (Regular(|mem|) || y + 4 + |data| < U32)
    requires i < 4 + |data|
    ensures FramePut(mem, y, data)[Slot(|mem|, y, i)] == Frame(data)[i]
  {
    var size, dataPos := |mem|, Position(|mem|, y + 4);
    var mem1 := Put(mem, Position(size, y), Le32(|data|));
    if i < 4 {
      PutHits(mem, Position(size, y), Le32(|data|), i);
      forall k | 0 <= k < |data| ensures Place(size, dataPos, k) != Slot(size, y, i) {
        SlotsApart(size, y, i, y, k + 4);
        assert Slot(size, y, k + 4) == Place(size, dataPos, k);
      }
      PutMisses(mem1, dataPos, data, Slot(size, y, i));
    } else {
      PutHits(mem1, dataPos, data, i - 4);
    }
  }

  lemma FramePutOnly(mem: Bytes, y: nat, data: Bytes)
    requires 0 < |mem|
    ensures OnlyFrame(mem, FramePut(mem, y, data), y, 4 + |data|)
  {
    var size, dataPos := |mem|, Position(|mem|, y + 4);
    var mem1 := Put(mem, Position(size, y), Le32(|data|));
    forall p | 0 <= p < size && (forall j | 0 <= j < 4 + |data| :: Slot(size, y, j) != p)
      ensures FramePut(mem, y, data)[p] == mem[p]
    {
      forall k | 0 <= k < 4 ensures Place(size, Position(size, y), k) != p {
        assert Slot(size, y, k) != p;
      }
      PutMisses(mem, Position(size, y), Le32(|data|), p);
      forall k | 0 <= k < |data| ensures Place(size, dataPos, k) != p {
        assert Slot(size, y, k + 4) != p;
      }
      PutMisses(mem1, dataPos, data, p);
    }
  }

  /** Of a sendable length, write refuses exactly when the bytes in use and the frame reach the buffer size; otherwise it queues the message. */
  lemma {:induction false} WriteHolds(r: Ring, tail: nat, queue: seq<Bytes>, data: Bytes)
    requires Holds(r, tail, queue) && Sendable(|r.mem|, |data|)
    requires Regular(|r.mem|) || tail + Span(queue) + 4 + |data| < U32
    ensures Span(queue) + 4 + |data| >= |r.mem| ==> WriteTo(r, data) == Refused
    ensures Span(queue) + 4 + |data| < |r.mem| ==>
              && WriteTo(r, data).Queued?
              && WriteTo(r, data).ring.mem == FramePut(r.mem, tail + Span(queue), data)
              && Holds(WriteTo(r, data).ring, tail, queue + [data])
  {
    UsedIs(r, tail, queue);
    SendableRefuses(Span(queue), |data|, |r.mem|);
    if Span(queue) + 4 + |data| < |r.mem| {
      var y := tail + Span(queue);
      var mem' := FramePut(r.mem, y, data);
      WriteFits(r, y, data);
      FramePutOnly(r.mem, y, data);
      forall i | 0 <= i < 4 + |data| ensures mem'[Slot(|r.mem|, y, i)] == Frame(data)[i] {
        FramePutAt(r.mem, y, data, i);
      }
      InFlightKept(r.mem, mem', tail, queue, y, 4 + |data|);
      InFlightAppend(mem', tail, queue, data);
      SpanAppend(queue, data);
    }
  }

  /** A frame that fits is laid down whole. */
  lemma WriteFits(r: Ring, y: nat, data: Bytes)
    requires r.Sane() && r.head == y % U32 && 4 + |data| < |r.mem| && !Refuses(Used(r), |data|, |r.mem|)
    ensures WriteTo(r, data) == Queued(Ring(FramePut(r.mem, y, data), (y + 4 + |data|) % U32, r.tail))
  {
    assert |data| % U32 == |data|;
    assert data[..|data|] == data;
    NextOffset(y, 4);
    NextOffset(y + 4, |data|);
  }

  /** Offsets advance the same whether they wrap or not. */
  lemma NextOffset(x: nat, n: nat)
    ensures (x % U32 + n) % U32 == (x + n) % U32
  {
  }

  lemma {:induction false} GetFrame(mem: Bytes, x: nat, data: Bytes)
    requires 0 < |mem| && FrameAt(mem, x, data) && |data| < U32
    ensures FromLe32(Get(mem, Position(|mem|, x), 4)) == |data|
    ensures Get(mem, Position(|mem|, x + 4), |data|) == data
  {
    var size := |mem|;
    var b := Get(mem, Position(size, x), 4);
    forall i | 0 <= i < 4 ensures b[i] == Le32(|data|)[i] {
      assert mem[Slot(size, x, i)] == Frame(data)[i];
    }
    assert b == Le32(|data|);
    Le32RoundTrip(|data|);
    var d := Get(mem, Position(size, x + 4), |data|);
    forall i | 0 <= i < |data| ensures d[i] == data[i] {
      assert mem[Slot(size, x, i + 4)] == Frame(data)[i + 4];
    }
    assert d == data;
  }

  /** read hands out the oldest message, whole, or nothing when there is none. */
  lemma {:induction false} ReadHolds(r: Ring, tail: nat, queue: seq<Bytes>)
    requires Holds(r, tail, queue)
    ensures queue == [] ==> ReadFrom(r) == Nothing
    ensures queue != [] ==>
              && ReadFrom(r).Message? && ReadFrom(r).data == queue[0]
              && Holds(ReadFrom(r).ring, tail + 4 + |queue[0]|, queue[1..])
  {
    UsedIs(r, tail, queue);
    if queue != [] {
      NextOffset(tail, 4);
      NextOffset(tail + 4, |queue[0]|);
      GetFrame(r.mem, tail, queue[0]);
    }
  }

  // ---- the buffer in place ----

  class ShmRingBuffer {
    const buffer: array<u8>
    var head: nat
    var tail: nat

    constructor (bufferSize: nat)
      requires 0 < bufferSize <= U32
      ensures buffer.Length == bufferSize && fresh(buffer) && head == 0 && tail == 0
      ensures Holds(Now(), 0, [])
    {
      buffer := new u8[bufferSize];
      head, tail := 0, 0;
    }

    ghost function Now(): Ring
      reads this, buffer
    {
      Ring(buffer[..], head, tail)
    }

    /** One contiguous copy into the buffer. */
    method CopyIn(at: nat, src: Bytes, from: nat, n: nat)
      requires at + n <= buffer.Length && from + n <= |src|
      modifies buffer
      ensures buffer[..] == old(buffer[..at]) + src[from..from + n] + old(buffer[at + n..])
    {
      for k := 0 to n
        invariant forall i | at <= i < at + k :: buffer[i] == src[from..from + n][i - at]
        invariant forall i | 0 <= i < buffer.Length && !(at <= i < at + k) :: buffer[i] == old(buffer[i])
      {
        buffer[at + k] := src[from + k];
      }
      assert buffer[at..at + n] == src[from..from + n];
      assert buffer[..] == buffer[..at] + buffer[at..at + n] + buffer[at + n..];
    }

    /** A copy of a part whose length fits 32 bits, split at the end of the buffer. */
    method CopyAt(offset: nat, src: Bytes) returns (next: nat)
      requires 0 < buffer.Length && !Overruns(buffer.Length, offset, |src|)
      modifies buffer
      ensures buffer[..] == Put(old(buffer[..]), offset % buffer.Length, src)
      ensures next == (offset + |src|) % U32
    {
      ghost var mem := buffer[..];
      var size := buffer.Length;
      var len := |src|;
      var pos := offset % size;
      var spaceToEnd := size - pos;
      if len <= spaceToEnd {
        CopyIn(pos, src, 0, len);
        assert src[..len] == src;
        PutStraight(mem, pos, src);
      } else {
        ghost var a, b := src[..spaceToEnd], src[spaceToEnd..len];
        CopyIn(pos, src, 0, spaceToEnd);
        ghost var mid := buffer[..];
        assert mid == mem[..pos] + a by {
          assert mem[pos + spaceToEnd..] == [] && src[0..spaceToEnd] == a;
        }
        CopyIn(0, src, spaceToEnd, len - spaceToEnd);
        assert buffer[..] == b + mid[|b|..];
        PutTwice(mem, pos, a, b);
        assert src == a + b;
      }
      next := (offset + len) % U32;
    }

    method ReadAt(offset: nat, n: nat) returns (dest: Bytes, next: nat)
      requires 0 < buffer.Length && !Overruns(buffer.Length, offset, n)
      ensures dest == Get(buffer[..], offset % buffer.Length, n)
      ensures next == (offset + n) % U32
    {
      var size := buffer.Length;
      var pos := offset % size;
      var spaceToEnd := size - pos;
      if n <= spaceToEnd {
        dest := buffer[pos..pos + n];
      } else {
        dest := buffer[pos..] + buffer[..n - spaceToEnd];
      }
      forall k | 0 <= k < n ensures dest[k] == buffer[Place(size, pos, k)] {
        if pos + k < size {
          PlaceStraight(size, pos, k);
        } else {
          PlaceWrapped(size, pos, k);
        }
      }
      assert dest == Get(buffer[..], pos, n);
      next := (offset + n) % U32;
    }

    /** Both copies of a write: the length, then the data. */
    method CopyFrame(data: Bytes) returns (next: nat)
      requires Now().Sane() && WriteTo(Now(), data).Queued?
      modifies buffer
      ensures WriteTo(old(Now()), data) == Queued(Ring(buffer[..], next, tail))
    {
      next := CopyAt(head, Le32(|data| % U32));
      next := CopyAt(next, Covered(data));
    }

    /** The flag tells whether all copies stay in the buffer; the method stops before one that does not. */
    method Write(data: Bytes) returns (ok: bool, inBounds: bool)
      requires Now().Sane()
      modifies this`head, buffer
      ensures inBounds <==> WriteTo(old(Now()), data) != WriteOverrun
      ensures inBounds && ok ==> WriteTo(old(Now()), data) == Queued(Now())
      ensures inBounds && !ok ==> WriteTo(old(Now()), data) == Refused && Now() == old(Now())
    {
      var len := |data| % U32;
      var used := if head >= tail then head - tail else (U32 - 1 - tail) + head + 1;
      if Refuses(used, |data|, buffer.Length) {
        return false, true;
      }
      if Overruns(buffer.Length, head, 4) || Overruns(buffer.Length, (head + 4) % U32, len) {
        return true, false;
      }
      var currentHead := CopyFrame(data);
      head := currentHead;
      return true, true;
    }

    method Read() returns (r: Option<Bytes>, inBounds: bool)
      requires Now().Sane()
      modifies this`tail
      ensures inBounds <==> ReadFrom(old(Now())) != ReadOverrun
      ensures inBounds && r.Some? ==> ReadFrom(old(Now())) == Message(Now(), r.value)
      ensures inBounds && r.None? ==> ReadFrom(old(Now())) == Nothing && Now() == old(Now())
    {
      if tail == head {
        return None, true;
      }
      if Overruns(buffer.Length, tail, 4) {
        return None, false;
      }
      var lenBytes, currentTail := ReadAt(tail, 4);
      var len := FromLe32(lenBytes);
      if Overruns(buffer.Length, currentTail, len) {
        return None, false;
      }
      var data: Bytes;
      data, currentTail := ReadAt(currentTail, len);
      tail := currentTail;
      return Some(data), true;
    }
  }
}
