/**
 The log stream: the framed writer of crates/core/src/logging.rs and the
 resynchronising reader of crates/cli/src/applets/syslogs.rs, which also runs
 incrementally on a growing file. The payload serializer and the checksum are
 parameters.
 */
module LogCodec {
  import opened Common

  /** The payload serializer of log entries of type E (it may fail), its inverse, and the checksum. */
  datatype Codec<!E> = Codec(encode: E -> Option<Bytes>, decode: Bytes -> Option<E>, crc: Bytes -> nat)

  ghost predicate Faithful<E(!new)>(c: Codec<E>) {
    && (forall e :: c.encode(e).Some? ==> c.decode(c.encode(e).value) == Some(e))
    && (forall b :: c.crc(b) < U32)
  }

  const MAGIC: Bytes := [0x52, 0x4C, 0x4F, 0x47]

  // ---- the writer ----

  /** Both length fields are 32-bit and truncate. */
  function Frame<E(!new)>(c: Codec<E>, payload: Bytes): Bytes {
    var payloadLen := |payload| % U32;
    MAGIC + Be32((4 + payloadLen + 4) % U32) + Be32(payloadLen) + payload + Be32(c.crc(payload))
  }

  method EncodeRecord<E(!new)>(c: Codec<E>, entry: E) returns (r: Option<Bytes>)
    ensures r == if c.encode(entry).None? then None else Some(Frame(c, c.encode(entry).value))
  {
    var encoded := c.encode(entry);
    if encoded.None? {
      return None;
    }
    var payload := encoded.value;
    var payloadLen := |payload| % U32;
    var crc := c.crc(payload);
    var totalLen := (4 + payloadLen + 4) % U32;
    var out: Bytes := [];
    out := out + MAGIC;
    assert out == MAGIC;
    out := out + Be32(totalLen);
    out := out + Be32(payloadLen);
    out := out + payload;
    out := out + Be32(crc);
    return Some(out);
  }

  // ---- the reader ----

  function Word(data: Bytes, at: nat): nat
    requires at + 4 <= |data|
  {
    FromBe32(data[at..at + 4])
  }

  /** What the reader does at the head of the remaining data: move on one byte, wait for more, or take the frame of `size` bytes. */
  datatype Action<E> = Skip | Wait | Take(entry: Option<E>, size: nat)

  type Scanner<E> = Bytes -> Action<E>

  function Head<E(!new)>(c: Codec<E>, data: Bytes): Action<E> {
    if |data| < 8 then Wait
    else if Word(data, 0) != FromBe32(MAGIC) then Skip
    else
      var totalLen := Word(data, 4);
      if 8 + totalLen > |data| then Wait
      else if totalLen < 8 then Skip
      else
        var payloadLen := Word(data, 8);
        if 4 + payloadLen + 4 != totalLen then Skip
        else
          var payload := data[12..12 + payloadLen];
          if c.crc(payload) != Word(data, 12 + payloadLen) then Skip
          else Take(c.decode(payload), 8 + totalLen)
  }

  /** A frame is not empty and lies within the data. */
  ghost predicate Sound<E(!new)>(scan: Scanner<E>) {
    forall d :: (|d| < 8 ==> scan(d) == Wait) && (scan(d).Take? ==> 16 <= scan(d).size <= |d|)
  }

  /** A decision other than waiting does not change when data is appended. */
  ghost predicate Stable<E(!new)>(scan: Scanner<E>) {
    forall a, b | a <= b :: StableAt(scan, a, b)
  }

  ghost predicate StableAt<E(!new)>(scan: Scanner<E>, a: Bytes, b: Bytes) {
    scan(a) != Wait ==> scan(b) == scan(a)
  }

  function ScannerOf<E(!new)>(c: Codec<E>): (scan: Scanner<E>)
    ensures Sound(scan)
    ensures forall d :: scan(d) == Head(c, d)
  {
    d => Head(c, d)
  }

  lemma HeadStable<E(!new)>(c: Codec<E>, a: Bytes, data: Bytes)
    requires a <= data && Head(c, a) != Wait
    ensures Head(c, data) == Head(c, a)
  {
    assert data[0..4] == a[0..4];
    assert data[4..8] == a[4..8];
    if Word(a, 0) == FromBe32(MAGIC) && Word(a, 4) >= 8 {
      assert data[8..12] == a[8..12];
      var payloadLen := Word(a, 8);
      if 4 + payloadLen + 4 == Word(a, 4) {
        assert data[12..12 + payloadLen] == a[12..12 + payloadLen];
        assert data[12 + payloadLen..16 + payloadLen] == a[12 + payloadLen..16 + payloadLen];
      }
    }
  }

  lemma {:induction false} ScannerStable<E(!new)>(c: Codec<E>)
    ensures Stable(ScannerOf(c))
  {
    forall a, b | a <= b ensures StableAt(ScannerOf(c), a, b) {
      if Head(c, a) != Wait {
        HeadStable(c, a, b);
      }
    }
  }

  datatype Decoded<E> = Decoded(entries: seq<E>, consumed: nat)

  function Prepend<E(!new)>(entry: Option<E>, d: Decoded<E>): Decoded<E> {
    if entry.Some? then d.(entries := [entry.value] + d.entries) else d
  }

  function Append<E(!new)>(entries: seq<E>, d: Decoded<E>): Decoded<E> {
    d.(entries := entries + d.entries)
  }

  function Later<E(!new)>(n: nat, d: Decoded<E>): Decoded<E> {
    d.(consumed := n + d.consumed)
  }

  /** The entries of the data, and how much of it they and the bytes skipped take up: never more than there is. */
  function Scan<E(!new)>(scan: Scanner<E>, data: Bytes): (d: Decoded<E>)
    requires Sound(scan)
    ensures d.consumed <= |data|
    decreases |data|
  {
    match scan(data)
    case Skip => Later(1, Scan(scan, data[1..]))
    case Wait => Decoded([], 0)
    case Take(entry, size) => Prepend(entry, Later(size, Scan(scan, data[size..])))
  }

  function Decode<E(!new)>(c: Codec<E>, data: Bytes): (d: Decoded<E>)
    ensures d.consumed <= |data|
  {
    Scan(ScannerOf(c), data)
  }

  /** The decision at a cursor, on absolute positions as the loop reads them. */
  method DecideAt<E(!new)>(c: Codec<E>, data: Bytes, cursor: nat) returns (a: Action<E>)
    requires cursor + 8 <= |data|
    ensures a == Head(c, data[cursor..])
  {
    ghost var left := data[cursor..];
    assert data[cursor..cursor + 4] == left[0..4];
    assert data[cursor + 4..cursor + 8] == left[4..8];
    if Word(data, cursor) != FromBe32(MAGIC) {
      return Skip;
    }
    var totalLen := Word(data, cursor + 4);
    var frameEnd := cursor + 8 + totalLen;
    if frameEnd > |data| {
      return Wait;
    }
    if totalLen < 8 {
      return Skip;
    }
    assert data[cursor + 8..cursor + 12] == left[8..12];
    var payloadLen := Word(data, cursor + 8);
    if 4 + payloadLen + 4 != totalLen {
      return Skip;
    }
    var payloadStart := cursor + 12;
    var payloadEnd := payloadStart + payloadLen;
    var payload := data[payloadStart..payloadEnd];
    assert payload == left[12..12 + payloadLen];
    assert data[payloadEnd..payloadEnd + 4] == left[12 + payloadLen..16 + payloadLen];
    if c.crc(payload) != Word(data, payloadEnd) {
      return Skip;
    }
    return Take(c.decode(payload), frameEnd - cursor);
  }

  method DecodeRecords<E(!new)>(c: Codec<E>, data: Bytes) returns (entries: seq<E>, cursor: nat)
    ensures Decoded(entries, cursor) == Decode(c, data)
    ensures Faithful(c) ==> exists frames :: IsFramed(c, data, frames)
  {
    if Faithful(c) {
      ghost var frames := DecodedFrames(c, data);
    }
    ghost var decode := x => Decode(c, x);
    forall d ensures Decides(c, decode, d) {
      assert ScannerOf(c)(d) == Head(c, d);
    }
    entries, cursor := DecodeLoop(c, data, decode);
  }

  /** `decode` starts with the decision at the head. */
  ghost predicate Decides<E(!new)>(c: Codec<E>, decode: Bytes -> Decoded<E>, d: Bytes) {
    match Head(c, d)
    case Skip => |d| > 0 && decode(d) == Later(1, decode(d[1..]))
    case Wait => decode(d) == Decoded([], 0)
    case Take(entry, size) => 16 <= size <= |d| && decode(d) == Prepend(entry, Later(size, decode(d[size..])))
  }

  method DecodeLoop<E(!new)>(c: Codec<E>, data: Bytes, ghost decode: Bytes -> Decoded<E>) returns (entries: seq<E>, cursor: nat)
    requires forall d :: Decides(c, decode, d)
    ensures Decoded(entries, cursor) == decode(data)
  {
    entries, cursor := [], 0;
    assert data[0..] == data;
    while cursor + 8 <= |data|
      invariant cursor <= |data|
      invariant decode(data) == Append(entries, Later(cursor, decode(data[cursor..])))
      decreases |data| - cursor
    {
      var action := DecideAt(c, data, cursor);
      assert Decides(c, decode, data[cursor..]);
      match action {
        case Skip =>
          assert data[cursor..][1..] == data[cursor + 1..];
          cursor := cursor + 1;
        case Wait =>
          assert entries + [] == entries;
          return;
        case Take(entry, size) =>
          assert data[cursor..][size..] == data[cursor + size..];
          AppendPrepend(entries, entry, Later(cursor + size, decode(data[cursor + size..])));
          if entry.Some? {
            entries := entries + [entry.value];
          }
          cursor := cursor + size;
      }
    }
    assert Decides(c, decode, data[cursor..]);
    assert entries + [] == entries;
  }

  lemma AppendPrepend<E(!new)>(entries: seq<E>, entry: Option<E>, d: Decoded<E>)
    ensures Append(entries, Prepend(entry, d)) == Append(if entry.Some? then entries + [entry.value] else entries, d)
  {
    if entry.Some? {
      assert entries + ([entry.value] + d.entries) == (entries + [entry.value]) + d.entries;
    }
  }

  // ---- decoding piece by piece ----

  /** Decoding `data` goes on where decoding its prefix `a` stopped. */
  ghost predicate GoesOn<E(!new)>(scan: Scanner<E>, a: Bytes, data: Bytes)
    requires Sound(scan) && a <= data
  {
    var d := Scan(scan, a);
    Scan(scan, data) == Append(d.entries, Later(d.consumed, Scan(scan, data[d.consumed..])))
  }

  lemma {:induction false} ScanAppend<E(!new)>(scan: Scanner<E>, a: Bytes, data: Bytes)
    requires Sound(scan) && Stable(scan) && a <= data
    ensures GoesOn(scan, a, data)
    decreases |a|
  {
    if scan(a).Wait? {
      assert data[0..] == data;
      assert [] + Scan(scan, data).entries == Scan(scan, data).entries;
    } else {
      assert StableAt(scan, a, data);
      var n := if scan(a).Skip? then 1 else scan(a).size;
      ScanAppend(scan, a[n..], data[n..]);
      Resumed(scan, a, data, n);
    }
  }

  function EntryOf<E(!new)>(a: Action<E>): Option<E> {
    if a.Take? then a.entry else None
  }

  lemma ScanStep<E(!new)>(scan: Scanner<E>, data: Bytes, n: nat)
    requires Sound(scan) && 0 < n <= |data|
    requires if scan(data).Take? then n == scan(data).size else scan(data).Skip? && n == 1
    ensures Scan(scan, data) == Prepend(EntryOf(scan(data)), Later(n, Scan(scan, data[n..])))
  {
  }

  /** One decision on both, then the rest. */
  lemma Resumed<E(!new)>(scan: Scanner<E>, a: Bytes, data: Bytes, n: nat)
    requires Sound(scan) && a <= data && 0 < n <= |a| && scan(data) == scan(a)
    requires if scan(a).Take? then n == scan(a).size else scan(a).Skip? && n == 1
    requires GoesOn(scan, a[n..], data[n..])
    ensures GoesOn(scan, a, data)
  {
    var first, whole, d := Scan(scan, a), Scan(scan, data), Scan(scan, a[n..]);
    var rest := Scan(scan, data[n + d.consumed..]);
    assert first == Prepend(EntryOf(scan(a)), Later(n, d)) by { ScanStep(scan, a, n); }
    assert whole == Prepend(EntryOf(scan(a)), Later(n, Append(d.entries, Later(d.consumed, rest)))) by {
      ScanStep(scan, data, n);
      DropTwice(data, n, d.consumed);
    }
    ResumeParts(EntryOf(scan(a)), n, d, rest);
  }

  lemma DropTwice(data: Bytes, n: nat, m: nat)
    requires n + m <= |data|
    ensures data[n..][m..] == data[n + m..]
  {
  }

  lemma ResumeParts<E(!new)>(entry: Option<E>, n: nat, d: Decoded<E>, rest: Decoded<E>)
    ensures var head := Prepend(entry, Later(n, d));
            Prepend(entry, Later(n, Append(d.entries, Later(d.consumed, rest)))) == Append(head.entries, Later(head.consumed, rest))
  {
    if entry.Some? {
      ConcatAssoc([entry.value], d.entries, rest.entries);
    }
  }

  lemma DecodeAppend<E(!new)>(c: Codec<E>, a: Bytes, data: Bytes)
    requires a <= data
    ensures Decode(c, data) == Append(Decode(c, a).entries, Later(Decode(c, a).consumed, Decode(c, data[Decode(c, a).consumed..])))
  {
    ScannerStable(c);
    ScanAppend(ScannerOf(c), a, data);
  }

  // ---- following a file ----

  datatype Tail = Tail(offset: nat, carry: Bytes)

  /** One call of read_incremental on the current contents (None when the file cannot be read). */
  function ReadStep<E(!new)>(c: Codec<E>, tail: Tail, file: Option<Bytes>): (Tail, seq<E>) {
    if file.None? then (tail, [])
    else
      var t := if |file.value| < tail.offset then Tail(0, []) else tail;
      var appended := file.value[t.offset..];
      if appended == [] then (t, [])
      else
        var merged := t.carry + appended;
        var d := Decode(c, merged);
        (Tail(t.offset + |appended|, merged[d.consumed..]), d.entries)
  }

  class TailCursor {
    var offset: nat
    var carry: Bytes

    constructor ()
      ensures Now() == Tail(0, [])
    {
      offset, carry := 0, [];
    }

    function Now(): Tail
      reads this
    {
      Tail(offset, carry)
    }

    method ReadIncremental<E(!new)>(c: Codec<E>, file: Option<Bytes>) returns (entries: seq<E>)
      modifies this
      ensures (Now(), entries) == ReadStep(c, old(Now()), file)
      ensures file.None? ==> Now() == old(Now()) && entries == []
      ensures file.Some? && |file.value| < old(offset) ==> CatchesUp(c, 0, Now(), [], file.value, entries)
      ensures file.Some? ==> forall n: nat, before | Caught(c, n, old(Now()), before) && before <= file.value ::
                CatchesUp(c, n, Now(), before, file.value, entries)
    {
      if file.Some? {
        if |file.value| < offset {
          ShorterReadAnew(c, Now(), file.value);
        }
        forall n: nat, before | Caught(c, n, Now(), before) && before <= file.value
          ensures CatchesUp(c, n, ReadStep(c, Now(), file).0, before, file.value, ReadStep(c, Now(), file).1)
        {
          StepCatchesUp(c, n, Now(), before, file.value);
        }
      }
      if file.None? {
        return [];
      }
      if |file.value| < offset {
        offset := 0;
        carry := [];
      }
      var appended := file.value[offset..];
      if appended == [] {
        return [];
      }
      offset := offset + |appended|;
      var merged := carry + appended;
      carry := [];
      var consumed;
      entries, consumed := DecodeRecords(c, merged);
      carry := merged[consumed..];
    }
  }

  /** What decoding the file from position n on gives. */
  function DecodeFrom<E(!new)>(c: Codec<E>, n: nat, file: Bytes): Decoded<E> {
    Decode(c, if n <= |file| then file[n..] else [])
  }

  /** A cursor that began at position n stands where decoding the file from there stopped. */
  ghost predicate Caught<E(!new)>(c: Codec<E>, n: nat, tail: Tail, file: Bytes) {
    n <= |file| && tail == Tail(|file|, file[n..][Decode(c, file[n..]).consumed..])
  }

  /** The entries are those that `file` adds to `before`, and nothing of it is left behind. */
  ghost predicate CatchesUp<E(!new)>(c: Codec<E>, n: nat, tail: Tail, before: Bytes, file: Bytes, entries: seq<E>) {
    Caught(c, n, tail, file) && DecodeFrom(c, n, file).entries == DecodeFrom(c, n, before).entries + entries
  }

  lemma CarryIs(before: Bytes, appended: Bytes, n: nat, m: nat)
    requires n <= |before| && m <= |before| - n + |appended|
    ensures (before + appended)[n..] == before[n..] + appended
    ensures (before[n..] + appended)[m..] == (before + appended)[n + m..]
  {
  }

  lemma {:induction false} StepCatchesUp<E(!new)>(c: Codec<E>, n: nat, tail: Tail, before: Bytes, file: Bytes)
    requires Caught(c, n, tail, before) && before <= file
    ensures CatchesUp(c, n, ReadStep(c, tail, Some(file)).0, before, file, ReadStep(c, tail, Some(file)).1)
  {
    if file[|before|..] == [] {
      assert file == before;
      assert Decode(c, before[n..]).entries + [] == Decode(c, before[n..]).entries;
    } else {
      AppendedCatchesUp(c, n, tail, before, file);
    }
  }

  lemma {:induction false} AppendedCatchesUp<E(!new)>(c: Codec<E>, n: nat, tail: Tail, before: Bytes, file: Bytes)
    requires Caught(c, n, tail, before) && before <= file && file[|before|..] != []
    ensures CatchesUp(c, n, ReadStep(c, tail, Some(file)).0, before, file, ReadStep(c, tail, Some(file)).1)
  {
    var appended, old', new' := file[|before|..], before[n..], file[n..];
    assert new' == old' + appended;
    var merged := tail.carry + appended;
    ReadAppended(c, tail, file);
    DecodeAppend(c, old', new');
    CarryIs(old', appended, Decode(c, old').consumed, Decode(c, merged).consumed);
    assert merged == new'[Decode(c, old').consumed..];
  }

  lemma ReadAppended<E(!new)>(c: Codec<E>, tail: Tail, file: Bytes)
    requires tail.offset < |file|
    ensures var merged := tail.carry + file[tail.offset..];
            ReadStep(c, tail, Some(file)) == (Tail(|file|, merged[Decode(c, merged).consumed..]), Decode(c, merged).entries)
  {
  }

  /** A file that has become shorter is read anew. */
  lemma {:induction false} ShorterReadAnew<E(!new)>(c: Codec<E>, tail: Tail, file: Bytes)
    requires |file| < tail.offset
    ensures ReadStep(c, tail, Some(file)) == ReadStep(c, Tail(0, []), Some(file))
    ensures CatchesUp(c, 0, ReadStep(c, tail, Some(file)).0, [], file, ReadStep(c, tail, Some(file)).1)
  {
    assert Caught(c, 0, Tail(0, []), []);
    StepCatchesUp(c, 0, Tail(0, []), [], file);
  }

  /** The cursor and everything returned after reading the snapshots one by one. */
  function Follow<E(!new)>(c: Codec<E>, tail: Tail, snapshots: seq<Bytes>): (Tail, seq<E>) {
    if snapshots == [] then (tail, [])
    else
      var (last, entries) := Follow(c, tail, snapshots[..|snapshots| - 1]);
      var (last', more) := ReadStep(c, last, Some(snapshots[|snapshots| - 1]));
      (last', entries + more)
  }

  ghost predicate Growing(before: Bytes, snapshots: seq<Bytes>) {
    && (snapshots != [] ==> before <= snapshots[0])
    && forall i | 0 <= i < |snapshots| - 1 :: snapshots[i] <= snapshots[i + 1]
  }

  ghost function LastOf(before: Bytes, snapshots: seq<Bytes>): Bytes {
    if snapshots == [] then before else snapshots[|snapshots| - 1]
  }

  /** A cursor that has caught up stays so, however the growing file is cut into reads. */
  lemma {:induction false} FollowCatchesUp<E(!new)>(c: Codec<E>, n: nat, tail: Tail, before: Bytes, snapshots: seq<Bytes>)
    requires Caught(c, n, tail, before) && Growing(before, snapshots)
    ensures CatchesUp(c, n, Follow(c, tail, snapshots).0, before, LastOf(before, snapshots), Follow(c, tail, snapshots).1)
  {
    if snapshots == [] {
      assert DecodeFrom(c, n, before).entries + [] == DecodeFrom(c, n, before).entries;
    } else {
      var k := |snapshots| - 1;
      var init := snapshots[..k];
      FollowCatchesUp(c, n, tail, before, init);
      var (last, entries) := Follow(c, tail, init);
      var mid := LastOf(before, init);
      assert mid <= snapshots[k];
      StepCatchesUp(c, n, last, mid, snapshots[k]);
      ConcatAssoc(DecodeFrom(c, n, before).entries, entries, ReadStep(c, last, Some(snapshots[k])).1);
    }
  }

  /** Following a growing file from a fresh cursor returns what decoding it at once returns. */
  lemma {:induction false} FollowIsDecode<E(!new)>(c: Codec<E>, snapshots: seq<Bytes>)
    requires Growing([], snapshots)
    ensures Follow(c, Tail(0, []), snapshots).1 == Decode(c, LastOf([], snapshots)).entries
  {
    SeededFollows(c, [], snapshots);
    assert LastOf([], snapshots)[0..] == LastOf([], snapshots);
  }

  /** tail_logs starts behind what it has read at once, with nothing carried over, and returns what the bytes added since decode to on their own. */
  lemma {:induction false} SeededFollows<E(!new)>(c: Codec<E>, seen: Bytes, snapshots: seq<Bytes>)
    requires Growing(seen, snapshots)
    ensures |seen| <= |LastOf(seen, snapshots)|
    ensures Follow(c, Tail(|seen|, []), snapshots).1 == Decode(c, LastOf(seen, snapshots)[|seen|..]).entries
  {
    assert seen[|seen|..] == [];
    assert Caught(c, |seen|, Tail(|seen|, []), seen);
    FollowCatchesUp(c, |seen|, Tail(|seen|, []), seen, snapshots);
    var entries := Follow(c, Tail(|seen|, []), snapshots).1;
    assert [] + entries == entries;
  }

  // ---- what is returned came from intact frames ----

  /** An intact frame of payload p starts at this position: magic, both lengths, the payload and its checksum. */
  ghost predicate IntactAt<E(!new)>(c: Codec<E>, data: Bytes, at: nat, p: Bytes) {
    && at + |p| + 16 <= |data| && |p| + 8 < U32
    && data[at..at + 4] == [0x52, 0x4C, 0x4F, 0x47]
    && data[at + 4..at + 8] == Be32(|p| + 8) && data[at + 8..at + 12] == Be32(|p|)
    && data[at + 12..at + 12 + |p|] == p && data[at + 12 + |p|..at + 16 + |p|] == Be32(c.crc(p))
  }

  lemma WordIs(data: Bytes, at: nat, n: nat)
    requires at + 4 <= |data| && n < U32
    ensures Word(data, at) == n <==> data[at..at + 4] == Be32(n)
  {
    Be32RoundTrip(n);
    Be32Of(data[at..at + 4]);
  }

  lemma MagicIs()
    ensures FromBe32(MAGIC) < U32 && Be32(FromBe32(MAGIC)) == [0x52, 0x4C, 0x4F, 0x47]
  {
    Be32Of(MAGIC);
  }

  /** An intact frame is taken whole, with what its payload decodes to. */
  lemma {:induction false} IntactIsTaken<E(!new)>(c: Codec<E>, data: Bytes, p: Bytes)
    requires Faithful(c) && IntactAt(c, data, 0, p)
    ensures ScannerOf(c)(data) == Take(c.decode(p), |p| + 16)
  {
    MagicIs();
    Be32RoundTrip(FromBe32(MAGIC));
    WordIs(data, 0, FromBe32(MAGIC));
    WordIs(data, 4, |p| + 8);
    WordIs(data, 8, |p|);
    WordIs(data, 12 + |p|, c.crc(p));
  }

  lemma TakenWords<E(!new)>(c: Codec<E>, data: Bytes, n: nat)
    requires Head(c, data).Take? && n == Word(data, 8)
    ensures 16 + n <= |data| && n + 8 < U32
    ensures Word(data, 0) == FromBe32(MAGIC) && Word(data, 4) == n + 8 && Word(data, 12 + n) == c.crc(data[12..12 + n])
    ensures Head(c, data) == Take(c.decode(data[12..12 + n]), n + 16)
  {
  }

  /** And nothing else is. */
  lemma {:induction false} TakenIsIntact<E(!new)>(c: Codec<E>, data: Bytes) returns (p: Bytes)
    requires Faithful(c) && ScannerOf(c)(data).Take?
    ensures IntactAt(c, data, 0, p) && ScannerOf(c)(data) == Take(c.decode(p), |p| + 16)
  {
    assert Head(c, data).Take?;
    var n := Word(data, 8);
    TakenWords(c, data, n);
    p := data[12..12 + n];
    MagicIs();
    WordIs(data, 0, FromBe32(MAGIC));
    WordIs(data, 4, n + 8);
    WordIs(data, 8, n);
    WordIs(data, 12 + n, c.crc(p));
  }

  /** The reader takes a frame exactly where an intact one starts. */
  lemma {:induction false} TakesIff<E(!new)>(c: Codec<E>, data: Bytes, entry: Option<E>, size: nat)
    requires Faithful(c)
    ensures ScannerOf(c)(data) == Take(entry, size) <==> exists p :: IntactAt(c, data, 0, p) && size == |p| + 16 && entry == c.decode(p)
  {
    if ScannerOf(c)(data) == Take(entry, size) {
      var p := TakenIsIntact(c, data);
    } else if p :| IntactAt(c, data, 0, p) && size == |p| + 16 && entry == c.decode(p) {
      IntactIsTaken(c, data, p);
    }
  }

  /** The writer's frame is one. */
  lemma {:induction false} FrameIsIntact<E(!new)>(c: Codec<E>, p: Bytes, rest: Bytes)
    requires |p| + 8 < U32
    ensures |Frame(c, p)| == |p| + 16 && IntactAt(c, Frame(c, p) + rest, 0, p)
  {
    FramePlain(c, p);
    var data := Frame(c, p) + rest;
    assert data[0..4] == MAGIC;
    assert data[4..8] == Be32(|p| + 8) && data[8..12] == Be32(|p|);
    assert data[12..12 + |p|] == p && data[12 + |p|..16 + |p|] == Be32(c.crc(p));
  }

  /** The entries of the payloads that decode. */
  ghost function EntriesOf<E(!new)>(c: Codec<E>, frames: seq<(nat, Bytes)>): seq<E> {
    if frames == [] then []
    else (if c.decode(frames[0].1).Some? then [c.decode(frames[0].1).value] else []) + EntriesOf(c, frames[1..])
  }

  ghost predicate IntactFrames<E(!new)>(c: Codec<E>, data: Bytes, frames: seq<(nat, Bytes)>, n: nat) {
    forall k | 0 <= k < |frames| :: IntactAt(c, data, frames[k].0, frames[k].1) && frames[k].0 + |frames[k].1| + 16 <= n
  }

  ghost predicate Apart(frames: seq<(nat, Bytes)>) {
    forall k | 0 <= k < |frames| - 1 :: frames[k].0 + |frames[k].1| + 16 <= frames[k + 1].0
  }

  ghost predicate Covers(frames: seq<(nat, Bytes)>, i: nat) {
    exists k | 0 <= k < |frames| :: frames[k].0 <= i < frames[k].0 + |frames[k].1| + 16
  }

  /** Within the first n bytes no intact frame starts outside these. */
  ghost predicate NoneMissed<E(!new)>(c: Codec<E>, data: Bytes, frames: seq<(nat, Bytes)>, n: nat) {
    forall i, p | 0 <= i < n && IntactAt(c, data, i, p) :: Covers(frames, i)
  }

  /** The frames, each n bytes further on. */
  ghost function Shifted(frames: seq<(nat, Bytes)>, n: nat): (r: seq<(nat, Bytes)>)
    ensures |r| == |frames|
  {
    seq(|frames|, k requires 0 <= k < |frames| => (frames[k].0 + n, frames[k].1))
  }

  lemma IntactShift<E(!new)>(c: Codec<E>, data: Bytes, n: nat, at: nat, p: Bytes)
    requires n <= |data|
    ensures IntactAt(c, data, at + n, p) <==> IntactAt(c, data[n..], at, p)
  {
    var rest := data[n..];
    if at + |p| + 16 <= |rest| {
      assert rest[at..at + 4] == data[at + n..at + n + 4];
      assert rest[at + 4..at + 8] == data[at + n + 4..at + n + 8] && rest[at + 8..at + 12] == data[at + n + 8..at + n + 12];
      assert rest[at + 12..at + 12 + |p|] == data[at + n + 12..at + n + 12 + |p|];
      assert rest[at + 12 + |p|..at + 16 + |p|] == data[at + n + 12 + |p|..at + n + 16 + |p|];
    }
  }

  lemma {:induction false} EntriesShift<E(!new)>(c: Codec<E>, frames: seq<(nat, Bytes)>, n: nat)
    ensures EntriesOf(c, Shifted(frames, n)) == EntriesOf(c, frames)
  {
    if frames != [] {
      assert Shifted(frames, n)[1..] == Shifted(frames[1..], n);
      EntriesShift(c, frames[1..], n);
    }
  }

  /** The frames behind the first n bytes, seen from the start. */
  lemma {:induction false} ShiftedFrames<E(!new)>(c: Codec<E>, data: Bytes, n: nat, frames: seq<(nat, Bytes)>, m: nat)
    requires n <= |data| && IntactFrames(c, data[n..], frames, m)
    ensures IntactFrames(c, data, Shifted(frames, n), n + m)
  {
    var moved := Shifted(frames, n);
    forall k | 0 <= k < |moved| ensures IntactAt(c, data, moved[k].0, moved[k].1) && moved[k].0 + |moved[k].1| + 16 <= n + m {
      IntactShift(c, data, n, frames[k].0, frames[k].1);
    }
  }

  lemma ShiftedApart(frames: seq<(nat, Bytes)>, n: nat)
    requires Apart(frames)
    ensures Apart(Shifted(frames, n))
  {
    var moved := Shifted(frames, n);
    forall k | 0 <= k < |moved| - 1 ensures moved[k].0 + |moved[k].1| + 16 <= moved[k + 1].0 {
      assert frames[k].0 + |frames[k].1| + 16 <= frames[k + 1].0;
    }
  }

  lemma ShiftedCovers(frames: seq<(nat, Bytes)>, n: nat, i: nat)
    requires Covers(frames, i)
    ensures Covers(Shifted(frames, n), i + n)
  {
    var k :| 0 <= k < |frames| && frames[k].0 <= i < frames[k].0 + |frames[k].1| + 16;
    var moved := Shifted(frames, n);
    assert moved[k].0 <= i + n < moved[k].0 + |moved[k].1| + 16;
  }

  lemma {:induction false} ShiftedMissed<E(!new)>(c: Codec<E>, data: Bytes, n: nat, frames: seq<(nat, Bytes)>, m: nat, i: nat, p: Bytes)
    requires n <= |data| && NoneMissed(c, data[n..], frames, m) && n <= i < n + m && IntactAt(c, data, i, p)
    ensures Covers(Shifted(frames, n), i)
  {
    IntactShift(c, data, n, i - n, p);
    ShiftedCovers(frames, n, i - n);
  }

  lemma {:induction false} FramesSkip<E(!new)>(c: Codec<E>, data: Bytes, frames: seq<(nat, Bytes)>, m: nat)
    requires Faithful(c) && ScannerOf(c)(data) == Skip && |data| > 0
    requires IntactFrames(c, data[1..], frames, m) && Apart(frames) && NoneMissed(c, data[1..], frames, m)
    ensures IntactFrames(c, data, Shifted(frames, 1), m + 1) && Apart(Shifted(frames, 1)) && NoneMissed(c, data, Shifted(frames, 1), m + 1)
  {
    ShiftedFrames(c, data, 1, frames, m);
    ShiftedApart(frames, 1);
    forall i, p | 0 <= i < m + 1 && IntactAt(c, data, i, p) ensures Covers(Shifted(frames, 1), i) {
      if i == 0 {
        IntactIsTaken(c, data, p);
      } else {
        ShiftedMissed(c, data, 1, frames, m, i, p);
      }
    }
  }

  lemma {:induction false} TakeIntact<E(!new)>(c: Codec<E>, data: Bytes, p: Bytes, frames: seq<(nat, Bytes)>, m: nat)
    requires IntactAt(c, data, 0, p) && IntactFrames(c, data[|p| + 16..], frames, m)
    ensures IntactFrames(c, data, [(0, p)] + Shifted(frames, |p| + 16), |p| + 16 + m)
  {
    var size := |p| + 16;
    var moved, all := Shifted(frames, size), [(0, p)] + Shifted(frames, size);
    ShiftedFrames(c, data, size, frames, m);
    forall k | 0 <= k < |all| ensures IntactAt(c, data, all[k].0, all[k].1) && all[k].0 + |all[k].1| + 16 <= size + m {
      if k > 0 {
        assert all[k] == moved[k - 1];
      }
    }
  }

  lemma {:induction false} TakeMisses<E(!new)>(c: Codec<E>, data: Bytes, p: Bytes, frames: seq<(nat, Bytes)>, m: nat)
    requires |p| + 16 <= |data| && NoneMissed(c, data[|p| + 16..], frames, m)
    ensures NoneMissed(c, data, [(0, p)] + Shifted(frames, |p| + 16), |p| + 16 + m)
  {
    var size := |p| + 16;
    forall i, q | 0 <= i < size + m && IntactAt(c, data, i, q) ensures Covers([(0, p)] + Shifted(frames, size), i) {
      if i >= size {
        ShiftedMissed(c, data, size, frames, m, i, q);
      }
      PrependedCovers(p, Shifted(frames, size), i);
    }
  }

  lemma {:induction false} FramesTake<E(!new)>(c: Codec<E>, data: Bytes, p: Bytes, frames: seq<(nat, Bytes)>, m: nat)
    requires IntactAt(c, data, 0, p)
    requires IntactFrames(c, data[|p| + 16..], frames, m) && Apart(frames) && NoneMissed(c, data[|p| + 16..], frames, m)
    ensures var all := [(0, p)] + Shifted(frames, |p| + 16);
            IntactFrames(c, data, all, |p| + 16 + m) && Apart(all) && NoneMissed(c, data, all, |p| + 16 + m)
  {
    ShiftedApart(frames, |p| + 16);
    PrependedApart(p, Shifted(frames, |p| + 16));
    TakeIntact(c, data, p, frames, m);
    TakeMisses(c, data, p, frames, m);
  }

  lemma PrependedApart(p: Bytes, moved: seq<(nat, Bytes)>)
    requires Apart(moved) && (moved != [] ==> |p| + 16 <= moved[0].0)
    ensures Apart([(0, p)] + moved)
  {
    var all := [(0, p)] + moved;
    forall k | 0 <= k < |all| - 1 ensures all[k].0 + |all[k].1| + 16 <= all[k + 1].0 {
      assert all[k + 1] == moved[k] && (k > 0 ==> all[k] == moved[k - 1]);
    }
  }

  lemma PrependedCovers(p: Bytes, moved: seq<(nat, Bytes)>, i: nat)
    requires i < |p| + 16 || Covers(moved, i)
    ensures Covers([(0, p)] + moved, i)
  {
    var all := [(0, p)] + moved;
    if i < |p| + 16 {
      assert all[0] == (0, p);
    } else {
      var k :| 0 <= k < |moved| && moved[k].0 <= i < moved[k].0 + |moved[k].1| + 16;
      assert all[k + 1] == moved[k];
    }
  }

  /** The entries decoded are those of these frames: intact, in order and apart, and all there are in what is consumed. */
  ghost predicate IsFramed<E(!new)>(c: Codec<E>, data: Bytes, frames: seq<(nat, Bytes)>) {
    var d := Decode(c, data);
    && IntactFrames(c, data, frames, d.consumed) && Apart(frames) && NoneMissed(c, data, frames, d.consumed)
    && d.entries == EntriesOf(c, frames)
  }

  lemma {:induction false} FramedSkip<E(!new)>(c: Codec<E>, data: Bytes, frames: seq<(nat, Bytes)>)
    requires Faithful(c) && ScannerOf(c)(data) == Skip && |data| > 0 && IsFramed(c, data[1..], frames)
    ensures IsFramed(c, data, Shifted(frames, 1))
  {
    FramesSkip(c, data, frames, Decode(c, data[1..]).consumed);
    EntriesShift(c, frames, 1);
    assert Decode(c, data) == Later(1, Decode(c, data[1..]));
  }

  lemma {:induction false} FramedTake<E(!new)>(c: Codec<E>, data: Bytes, p: Bytes, frames: seq<(nat, Bytes)>)
    requires IntactAt(c, data, 0, p) && ScannerOf(c)(data) == Take(c.decode(p), |p| + 16) && IsFramed(c, data[|p| + 16..], frames)
    ensures IsFramed(c, data, [(0, p)] + Shifted(frames, |p| + 16))
  {
    var size := |p| + 16;
    FramesTake(c, data, p, frames, Decode(c, data[size..]).consumed);
    EntriesShift(c, frames, size);
    assert Decode(c, data) == Prepend(c.decode(p), Later(size, Decode(c, data[size..])));
    var all := [(0, p)] + Shifted(frames, size);
    assert all[1..] == Shifted(frames, size);
  }

  /**
   On any bytes: the entries returned are those of intact frames, in order and
   without overlap, within what is consumed, where every other intact frame starts
   inside one of them.
   */
  lemma {:induction false} DecodedFrames<E(!new)>(c: Codec<E>, data: Bytes) returns (frames: seq<(nat, Bytes)>)
    requires Faithful(c)
    ensures IsFramed(c, data, frames)
    decreases |data|
  {
    var action := ScannerOf(c)(data);
    match action
    case Skip =>
      frames := DecodedFrames(c, data[1..]);
      FramedSkip(c, data, frames);
      frames := Shifted(frames, 1);
    case Wait => frames := [];
    case Take(entry, size) =>
      var p := TakenIsIntact(c, data);
      frames := DecodedFrames(c, data[size..]);
      FramedTake(c, data, p, frames);
      frames := [(0, p)] + Shifted(frames, size);
  }

  /** It stops where fewer than 8 bytes are left, or at a magic whose stated length goes beyond the end. */
  lemma {:induction false} DecodeStops<E(!new)>(c: Codec<E>, data: Bytes)
    ensures var left := data[Decode(c, data).consumed..];
            |left| < 8 || (left[0..4] == [0x52, 0x4C, 0x4F, 0x47] && 8 + FromBe32(left[4..8]) > |left|)
    decreases |data|
  {
    var action := ScannerOf(c)(data);
    match action
    case Skip =>
      DecodeStops(c, data[1..]);
      DropTwice(data, 1, Decode(c, data[1..]).consumed);
    case Wait =>
      assert data[0..] == data && Head(c, data) == Wait;
      if |data| >= 8 {
        MagicWord(data[0..4]);
      }
    case Take(_, size) =>
      DecodeStops(c, data[size..]);
      DropTwice(data, size, Decode(c, data[size..]).consumed);
  }

  // ---- streams with noise ----

  /** The magic bytes do not occur in `noise`. */
  ghost predicate MagicFree(noise: Bytes) {
    forall i | 0 <= i :: !OccursAt(noise, MAGIC, i)
  }

  /** A record the writer can frame without overflowing the length fields. */
  ghost predicate Encodable<E(!new)>(c: Codec<E>, e: E) {
    c.encode(e).Some? && |c.encode(e).value| < U32 - 8
  }

  function FrameOf<E(!new)>(c: Codec<E>, e: E): Bytes
    requires c.encode(e).Some?
  {
    Frame(c, c.encode(e).value)
  }

  /** Records, each behind some noise. */
  function Stream<E(!new)>(c: Codec<E>, records: seq<(Bytes, E)>): Bytes
    requires forall r | r in records :: c.encode(r.1).Some?
  {
    if records == [] then [] else records[0].0 + (FrameOf(c, records[0].1) + Stream(c, records[1..]))
  }

  function Entries<E(!new)>(records: seq<(Bytes, E)>): seq<E> {
    if records == [] then [] else [records[0].1] + Entries(records[1..])
  }

  lemma HeadOfParts<E(!new)>(c: Codec<E>, magic: Bytes, total: Bytes, len: Bytes, payload: Bytes, crc: Bytes, rest: Bytes)
    requires |magic| == |total| == |len| == |crc| == 4
    requires FromBe32(magic) == FromBe32(MAGIC) && FromBe32(total) == |payload| + 8 && FromBe32(len) == |payload|
    requires FromBe32(crc) == c.crc(payload)
    ensures Head(c, magic + total + len + payload + crc + rest) == Take(c.decode(payload), |payload| + 16)
  {
    var data, n := magic + total + len + payload + crc + rest, |payload|;
    assert data[0..4] == magic;
    assert data[4..8] == total;
    assert data[8..12] == len;
    assert data[12..12 + n] == payload;
    assert data[12 + n..16 + n] == crc;
  }

  lemma {:induction false} FramePlain<E(!new)>(c: Codec<E>, payload: Bytes)
    requires |payload| < U32 - 8
    ensures Frame(c, payload) == MAGIC + Be32(|payload| + 8) + Be32(|payload|) + payload + Be32(c.crc(payload))
  {
    assert |payload| % U32 == |payload|;
    assert (4 + |payload| + 4) % U32 == |payload| + 8;
  }

  /** At the start of a frame the reader takes it. */
  lemma {:induction false} HeadOfFrame<E(!new)>(c: Codec<E>, e: E, rest: Bytes)
    requires Faithful(c) && c.encode(e).Some? && Encodable(c, e)
    ensures |FrameOf(c, e)| >= 16 && FrameOf(c, e)[..4] == MAGIC
    ensures Head(c, FrameOf(c, e) + rest) == Take(Some(e), |FrameOf(c, e)|)
  {
    var payload := c.encode(e).value;
    FramePlain(c, payload);
    Be32RoundTrip(|payload| + 8);
    Be32RoundTrip(|payload|);
    Be32RoundTrip(c.crc(payload));
    HeadOfParts(c, MAGIC, Be32(|payload| + 8), Be32(|payload|), payload, Be32(c.crc(payload)), rest);
  }

  lemma MagicWord(b: Bytes)
    requires |b| == 4 && FromBe32(b) == FromBe32(MAGIC)
    ensures b == MAGIC
  {
  }

  lemma NoMagicAt(noise: Bytes, frame: Bytes, rest: Bytes, cursor: nat)
    requires MagicFree(noise) && |frame| >= 4 && frame[..4] == MAGIC && cursor < |noise|
    ensures FromBe32((noise + (frame + rest))[cursor..cursor + 4]) != FromBe32(MAGIC)
  {
    var data := noise + (frame + rest);
    var window := data[cursor..cursor + 4];
    assert !OccursAt(noise, MAGIC, cursor);
    if cursor + 4 <= |noise| {
      assert noise[cursor..cursor + 4] == window;
    } else {
      assert window[|noise| - cursor] == frame[..4][0] == 0x52;
    }
    assert window != MAGIC;
    if FromBe32(window) == FromBe32(MAGIC) {
      MagicWord(window);
    }
  }

  lemma {:induction false} SkipTo<E(!new)>(scan: Scanner<E>, data: Bytes, n: nat)
    requires Sound(scan) && n <= |data| && forall i | 0 <= i < n :: scan(data[i..]) == Skip
    ensures Scan(scan, data) == Later(n, Scan(scan, data[n..]))
    decreases n
  {
    if n == 0 {
      assert data[0..] == data;
    } else {
      SkipTo(scan, data, n - 1);
      ScanStep(scan, data[n - 1..], 1);
      assert data[n - 1..][1..] == data[n..];
    }
  }

  lemma SkipsAt<E(!new)>(c: Codec<E>, noise: Bytes, frame: Bytes, rest: Bytes, i: nat)
    requires MagicFree(noise) && |frame| >= 16 && frame[..4] == MAGIC && i < |noise|
    ensures ScannerOf(c)((noise + (frame + rest))[i..]) == Skip
  {
    NoMagicAt(noise, frame, rest, i);
    var data := noise + (frame + rest);
    assert data[i..][0..4] == data[i..i + 4];
  }

  /** Over noise in front of a frame the reader only skips. */
  lemma SkipNoise<E(!new)>(c: Codec<E>, noise: Bytes, frame: Bytes, rest: Bytes)
    requires MagicFree(noise) && |frame| >= 16 && frame[..4] == MAGIC
    ensures Decode(c, noise + (frame + rest)) == Later(|noise|, Decode(c, frame + rest))
  {
    var data := noise + (frame + rest);
    forall i | 0 <= i < |noise| ensures ScannerOf(c)(data[i..]) == Skip {
      SkipsAt(c, noise, frame, rest, i);
    }
    SkipTo(ScannerOf(c), data, |noise|);
    assert data[|noise|..] == frame + rest;
  }

  lemma {:induction false} DecodeFrame<E(!new)>(c: Codec<E>, e: E, rest: Bytes)
    requires Faithful(c) && c.encode(e).Some? && Encodable(c, e)
    ensures Decode(c, FrameOf(c, e) + rest) == Prepend(Some(e), Later(|FrameOf(c, e)|, Decode(c, rest)))
  {
    var frame := FrameOf(c, e);
    HeadOfFrame(c, e, rest);
    assert ScannerOf(c)(frame + rest) == Take(Some(e), |frame|);
    assert (frame + rest)[|frame|..] == rest;
  }

  /** Every record comes out, in order, whatever magic-free noise lies between them, and all bytes are consumed. */
  lemma {:induction false} StreamRoundTrip<E(!new)>(c: Codec<E>, records: seq<(Bytes, E)>)
    requires Faithful(c) && forall r | r in records :: c.encode(r.1).Some? && Encodable(c, r.1) && MagicFree(r.0)
    ensures Decode(c, Stream(c, records)) == Decoded(Entries(records), |Stream(c, records)|)
  {
    if records != [] {
      var (noise, e) := records[0];
      assert records[0] in records;
      var rest := Stream(c, records[1..]);
      HeadOfFrame(c, e, rest);
      SkipNoise(c, noise, FrameOf(c, e), rest);
      DecodeFrame(c, e, rest);
      StreamRoundTrip(c, records[1..]);
    }
  }

  // ---- following from the end ----

  /** The data starts with the magic bytes, or is the start of them. */
  predicate BeginsMagic(data: Bytes) {
    data != [] && if |data| < 4 then data == MAGIC[..|data|] else data[..4] == MAGIC
  }

  ghost predicate BeginsNoFrame(data: Bytes) {
    forall i | 0 <= i < |data| :: !BeginsMagic(data[i..])
  }

  lemma {:induction false} GrowsFrom(before: Bytes, snapshots: seq<Bytes>)
    requires Growing(before, snapshots)
    ensures before <= LastOf(before, snapshots)
  {
    if snapshots != [] {
      var init := snapshots[..|snapshots| - 1];
      GrowsFrom(before, init);
      assert LastOf(before, init) <= LastOf(before, snapshots);
    }
  }

  lemma NotMagic<E(!new)>(c: Codec<E>, left: Bytes, data: Bytes)
    requires left != [] && left <= data && |data| >= 8 && !BeginsMagic(left)
    ensures ScannerOf(c)(data) == Skip
  {
    var word := data[0..4];
    if |left| < 4 {
      assert left == word[..|left|];
    } else {
      assert left[..4] == word;
    }
    assert word != MAGIC;
    if FromBe32(word) == FromBe32(MAGIC) {
      MagicWord(word);
    }
  }

  /** Bytes that begin no frame change nothing of what comes after them. */
  lemma {:induction false} SkipsLeft<E(!new)>(c: Codec<E>, left: Bytes, added: Bytes)
    requires BeginsNoFrame(left)
    ensures Decode(c, left + added).entries == Decode(c, added).entries
    decreases |left|
  {
    var data := left + added;
    if left == [] {
      assert data == added;
    } else if |data| < 8 {
      assert Head(c, data) == Wait && Head(c, added) == Wait;
      assert ScannerOf(c)(data) == Wait && ScannerOf(c)(added) == Wait;
    } else {
      assert !BeginsMagic(left[0..]) && left[0..] == left;
      NotMagic(c, left, data);
      forall i | 0 <= i < |left[1..]| ensures !BeginsMagic(left[1..][i..]) {
        assert left[1..][i..] == left[i + 1..];
      }
      SkipsLeft(c, left[1..], added);
      assert data[1..] == left[1..] + added;
    }
  }

  lemma {:induction false} AddedAfterLeft<E(!new)>(c: Codec<E>, seen: Bytes, file: Bytes)
    requires seen <= file && BeginsNoFrame(seen[Decode(c, seen).consumed..])
    ensures Decode(c, file).entries == Decode(c, seen).entries + Decode(c, file[|seen|..]).entries
  {
    var n, added := Decode(c, seen).consumed, file[|seen|..];
    DecodeAppend(c, seen, file);
    SkipsLeft(c, seen[n..], added);
    assert file[n..] == seen[n..] + added;
  }

  /** So it misses nothing when no frame begins in the bytes that were seen but not consumed. */
  lemma {:induction false} SeededMissesNothing<E(!new)>(c: Codec<E>, seen: Bytes, snapshots: seq<Bytes>)
    requires Growing(seen, snapshots) && BeginsNoFrame(seen[Decode(c, seen).consumed..])
    ensures Decode(c, LastOf(seen, snapshots)).entries == Decode(c, seen).entries + Follow(c, Tail(|seen|, []), snapshots).1
  {
    SeededFollows(c, seen, snapshots);
    GrowsFrom(seen, snapshots);
    AddedAfterLeft(c, seen, LastOf(seen, snapshots));
  }

  /** Of a frame cut short the reader takes nothing. */
  lemma {:induction false} HalfFrameWaits<E(!new)>(c: Codec<E>, e: E, n: nat)
    requires Faithful(c) && c.encode(e).Some? && Encodable(c, e) && n < |FrameOf(c, e)|
    ensures Decode(c, FrameOf(c, e)[..n]) == Decoded([], 0)
  {
    var frame, part := FrameOf(c, e), FrameOf(c, e)[..n];
    HeadOfFrame(c, e, []);
    assert frame + [] == frame;
    if !Head(c, part).Wait? {
      HeadStable(c, part, frame);
      assert false;
    }
    assert ScannerOf(c)(part) == Wait;
  }

  /**
   Started within a frame, behind consumed data, it gets whatever decoding the
   rest of the frame alone gives, instead of the frame's entry: nothing, when no
   magic occurs in the rest.
   */
  lemma {:induction false} HalfFrameLost<E(!new)>(c: Codec<E>, done: Bytes, e: E, n: nat)
    requires Faithful(c) && c.encode(e).Some? && Encodable(c, e) && 0 < n < |FrameOf(c, e)|
    requires Decode(c, done).consumed == |done|
    ensures var seen, file := done + FrameOf(c, e)[..n], done + FrameOf(c, e);
            && Decode(c, seen) == Decode(c, done)
            && Decode(c, file) == Decoded(Decode(c, done).entries + [e], |file|)
            && ReadStep(c, Tail(|seen|, []), Some(file)).1 == Decode(c, FrameOf(c, e)[n..]).entries
            && (MagicFree(FrameOf(c, e)[n..]) ==> ReadStep(c, Tail(|seen|, []), Some(file)).1 == [])
  {
    var frame := FrameOf(c, e);
    var seen, file := done + frame[..n], done + frame;
    HalfFrameWaits(c, e, n);
    DecodeAppend(c, done, seen);
    assert seen[|done|..] == frame[..n];
    assert Decode(c, done).entries + [] == Decode(c, done).entries;
    FrameAppended(c, done, e);
    assert file[|seen|..] == frame[n..] == [] + frame[n..];
    if MagicFree(frame[n..]) {
      NoMagicNoEntries(c, frame[n..]);
    }
  }

  lemma {:induction false} NoMagicNoEntries<E(!new)>(c: Codec<E>, noise: Bytes)
    requires MagicFree(noise)
    ensures Decode(c, noise).entries == []
    decreases |noise|
  {
    assert ScannerOf(c)(noise) == Head(c, noise);
    if |noise| >= 8 {
      assert !OccursAt(noise, MAGIC, 0);
      assert noise[0..4] != MAGIC;
      if FromBe32(noise[0..4]) == FromBe32(MAGIC) {
        MagicWord(noise[0..4]);
      }
      forall i: nat ensures !OccursAt(noise[1..], MAGIC, i) {
        assert !OccursAt(noise, MAGIC, i + 1);
        if i + 4 < |noise| {
          assert noise[1..][i..i + 4] == noise[i + 1..i + 5];
        }
      }
      NoMagicNoEntries(c, noise[1..]);
    }
  }

  // ---- the logger's segments ----

  /** The frames of the entries that encode, one after the other. */
  function Written<E(!new)>(c: Codec<E>, entries: seq<E>): Bytes {
    if entries == [] then []
    else Written(c, entries[..|entries| - 1]) +
         (if c.encode(entries[|entries| - 1]).Some? then FrameOf(c, entries[|entries| - 1]) else [])
  }

  function Kept<E(!new)>(c: Codec<E>, entries: seq<E>): seq<E> {
    if entries == [] then []
    else Kept(c, entries[..|entries| - 1]) +
         (if c.encode(entries[|entries| - 1]).Some? then [entries[|entries| - 1]] else [])
  }

  lemma {:induction false} WrittenRoundTrip<E(!new)>(c: Codec<E>, entries: seq<E>)
    requires Faithful(c) && forall e | e in entries && c.encode(e).Some? :: Encodable(c, e)
    ensures Decode(c, Written(c, entries)) == Decoded(Kept(c, entries), |Written(c, entries)|)
  {
    if entries != [] {
      var n := |entries| - 1;
      var e, w := entries[n], Written(c, entries[..n]);
      WrittenRoundTrip(c, entries[..n]);
      if c.encode(e).Some? {
        assert e in entries;
        FrameAppended(c, w, e);
      } else {
        assert w + [] == w && Kept(c, entries[..n]) + [] == Kept(c, entries[..n]);
      }
    }
  }

  /** A frame appended to fully consumed data adds its entry and is consumed. */
  lemma {:induction false} FrameAppended<E(!new)>(c: Codec<E>, w: Bytes, e: E)
    requires Faithful(c) && c.encode(e).Some? && Encodable(c, e) && Decode(c, w).consumed == |w|
    ensures Decode(c, w + FrameOf(c, e)) == Decoded(Decode(c, w).entries + [e], |w + FrameOf(c, e)|)
  {
    var frame := FrameOf(c, e);
    DecodeFrame(c, e, []);
    assert frame + [] == frame;
    assert Decode(c, []) == Decoded([], 0);
    assert [e] + [] == [e];
    DecodeAppend(c, w, w + frame);
    assert (w + frame)[|w|..] == frame;
  }

  function Flatten<E(!new)>(parts: seq<seq<E>>): seq<E> {
    if parts == [] then [] else Flatten(parts[..|parts| - 1]) + parts[|parts| - 1]
  }

  /** The entries of the closed segments and of the open one. */
  datatype Log<E> = Log(closed: seq<seq<E>>, open: seq<E>)

  /** A segment is closed as soon as it holds `limit` bytes; no record is split over segments. */
  function Rotated<E(!new)>(c: Codec<E>, entries: seq<E>, limit: nat): Log<E> {
    if entries == [] then Log([], [])
    else
      var log := Rotated(c, entries[..|entries| - 1], limit);
      var open := log.open + [entries[|entries| - 1]];
      if |Written(c, open)| >= limit then Log(log.closed + [open], []) else Log(log.closed, open)
  }

  /** Long enough to be closed, but not before its last entry. */
  ghost predicate JustFull<E(!new)>(c: Codec<E>, segment: seq<E>, limit: nat) {
    && segment != [] && |Written(c, segment)| >= limit
    && (|segment| > 1 ==> |Written(c, segment[..|segment| - 1])| < limit)
  }

  /** Every closed segment is just full, and the open one is not full. */
  lemma {:induction false} RotatedIsFull<E(!new)>(c: Codec<E>, entries: seq<E>, limit: nat)
    ensures var log := Rotated(c, entries, limit);
            && (forall segment | segment in log.closed :: JustFull(c, segment, limit))
            && (log.open != [] ==> |Written(c, log.open)| < limit)
  {
    if entries != [] {
      var log, last := Rotated(c, entries[..|entries| - 1], limit), entries[|entries| - 1];
      RotatedIsFull(c, entries[..|entries| - 1], limit);
      var open := log.open + [last];
      assert open[..|open| - 1] == log.open;
    }
  }

  function Segments<E(!new)>(c: Codec<E>, parts: seq<seq<E>>): seq<Bytes> {
    if parts == [] then [] else Segments(c, parts[..|parts| - 1]) + [Written(c, parts[|parts| - 1])]
  }

  /** logger_loop, with every write succeeding; entries that do not encode are dropped. */
  method LoggerLoop<E(!new)>(c: Codec<E>, entries: seq<E>, segmentMaxBytes: nat) returns (segments: seq<Bytes>)
    ensures var log := Rotated(c, entries, segmentMaxBytes);
            segments == Segments(c, log.closed + [log.open])
  {
    segments := [];
    var current: Bytes := [];
    ghost var log := Log([], []);
    for k := 0 to |entries|
      invariant log == Rotated(c, entries[..k], segmentMaxBytes)
      invariant segments == Segments(c, log.closed) && current == Written(c, log.open)
    {
      var bytes := EncodeRecord(c, entries[k]);
      ghost var open := log.open + [entries[k]];
      assert open[..|open| - 1] == log.open;
      assert current + [] == current;
      if bytes.Some? {
        current := current + bytes.value;
      }
      assert entries[..k + 1][..k] == entries[..k];
      log := log.(open := open);
      if |current| >= segmentMaxBytes {
        assert (log.closed + [open])[..|log.closed|] == log.closed;
        segments := segments + [current];
        current := [];
        log := Log(log.closed + [open], []);
      }
    }
    assert entries[..|entries|] == entries;
    assert (log.closed + [log.open])[..|log.closed|] == log.closed;
    segments := segments + [current];
  }

  /** Nothing is lost or moved by the rotation. */
  lemma {:induction false} RotatedKeepsAll<E(!new)>(c: Codec<E>, entries: seq<E>, limit: nat)
    ensures Flatten(Rotated(c, entries, limit).closed) + Rotated(c, entries, limit).open == entries
  {
    if entries != [] {
      var n := |entries| - 1;
      RotatedKeepsAll(c, entries[..n], limit);
      var before := Rotated(c, entries[..n], limit);
      RotationStep(before, entries[..n], entries[n]);
      assert entries[..n] + [entries[n]] == entries;
    }
  }

  lemma RotationStep<E(!new)>(before: Log<E>, entries: seq<E>, e: E)
    requires Flatten(before.closed) + before.open == entries
    ensures Flatten(before.closed) + (before.open + [e]) == entries + [e]
    ensures Flatten(before.closed + [before.open + [e]]) + [] == entries + [e]
  {
    FlattenAppend(before.closed, before.open + [e]);
  }

  lemma FlattenAppend<E(!new)>(parts: seq<seq<E>>, part: seq<E>)
    ensures Flatten(parts + [part]) == Flatten(parts) + part
  {
    assert (parts + [part])[..|parts|] == parts;
  }

  /** What the reader makes of the segments, one by one. */
  function ReadAll<E(!new)>(c: Codec<E>, segments: seq<Bytes>): seq<E> {
    if segments == [] then []
    else ReadAll(c, segments[..|segments| - 1]) + Decode(c, segments[|segments| - 1]).entries
  }

  lemma {:induction false} SegmentsRoundTrip<E(!new)>(c: Codec<E>, parts: seq<seq<E>>)
    requires Faithful(c) && forall e | e in Flatten(parts) && c.encode(e).Some? :: Encodable(c, e)
    ensures ReadAll(c, Segments(c, parts)) == Kept(c, Flatten(parts))
  {
    if parts != [] {
      var n := |parts| - 1;
      SegmentsRoundTrip(c, parts[..n]);
      WrittenRoundTrip(c, parts[n]);
      KeptConcat(c, Flatten(parts[..n]), parts[n]);
      assert Segments(c, parts)[..|Segments(c, parts)| - 1] == Segments(c, parts[..n]);
    }
  }

  /** Whatever the segment size, reading the segments the logger wrote gives back every entry that encoded, in order. */
  lemma {:induction false} LoggedIsRead<E(!new)>(c: Codec<E>, entries: seq<E>, limit: nat)
    requires Faithful(c) && forall e | e in entries && c.encode(e).Some? :: Encodable(c, e)
    ensures var log := Rotated(c, entries, limit);
            ReadAll(c, Segments(c, log.closed + [log.open])) == Kept(c, entries)
  {
    var log := Rotated(c, entries, limit);
    RotatedKeepsAll(c, entries, limit);
    FlattenAppend(log.closed, log.open);
    SegmentsRoundTrip(c, log.closed + [log.open]);
  }

  lemma {:induction false} KeptConcat<E(!new)>(c: Codec<E>, a: seq<E>, b: seq<E>)
    ensures Kept(c, a + b) == Kept(c, a) + Kept(c, b)
    decreases |b|
  {
    if b == [] {
      assert a + b == a;
    } else {
      var n := |b| - 1;
      assert (a + b)[..|a + b| - 1] == a + b[..n];
      KeptConcat(c, a, b[..n]);
    }
  }
}
