/**
 The binary permission file (crates/core/src/user.rs): writing the stored
 permissions with the overlay applied, and reading them back onto the user and
 group tables.
 */
module Rperms {
  import opened Common
  import opened Users
  import opened Permissions

  /** One record: a user or a group, its id and its permissions. */
  datatype Record = Record(isUser: bool, id: Id, perms: seq<u16>)

  const ALL_PERMS := 0x1_0000

  // ---- the byte layout ----

  function Le16(n: u16): (b: Bytes)
    ensures |b| == 2
  {
    [(n as int % 0x100) as u8, (n as int / 0x100) as u8]
  }

  function FromLe16(b: Bytes): u16
    requires |b| == 2
  {
    (b[0] as int + 0x100 * b[1] as int) as u16
  }

  lemma Le16RoundTrip(n: u16)
    ensures FromLe16(Le16(n)) == n
  {
  }

  function PermBytes(perms: seq<u16>): (b: Bytes)
    ensures |b| == 2 * |perms|
  {
    if perms == [] then [] else PermBytes(perms[..|perms| - 1]) + Le16(perms[|perms| - 1])
  }

  function Words(data: Bytes, at: nat, count: nat): (w: seq<u16>)
    requires at + 2 * count <= |data|
    ensures |w| == count
  {
    if count == 0 then [] else Words(data, at, count - 1) + [FromLe16(data[at + 2 * (count - 1)..at + 2 * (count - 1) + 2])]
  }

  function EncodeRecord(r: Record): (b: Bytes)
    requires |r.perms| < ALL_PERMS
    ensures |b| == 7 + 2 * |r.perms|
  {
    [if r.isUser then 0 else 1] + Le32(r.id) + Le16(|r.perms| as u16) + PermBytes(r.perms)
  }

  ghost predicate Writable(rs: seq<Record>) {
    forall r | r in rs :: |r.perms| < ALL_PERMS
  }

  ghost function EncodeAll(rs: seq<Record>): Bytes
    requires Writable(rs)
  {
    if rs == [] then [] else EncodeRecord(rs[0]) + EncodeAll(rs[1..])
  }

  /** The records of a file, or None when it ends inside one. A record of any kind but 0 is a group's. */
  ghost function DecodeAll(data: Bytes): Option<seq<Record>> {
    if data == [] then Some([])
    else if |data| < 7 then None
    else
      var count := FromLe16(data[5..7]) as int;
      if |data| < 7 + 2 * count then None
      else
        var rest := DecodeAll(data[7 + 2 * count..]);
        if rest.None? then None
        else Some([Record(data[0] == 0, FromLe32(data[1..5]), Words(data, 7, count))] + rest.value)
  }

  lemma SplitSlice(data: Bytes, at: nat, a: Bytes, b: Bytes)
    requires at + |a| + |b| <= |data| && data[at..at + |a| + |b|] == a + b
    ensures data[at..at + |a|] == a && data[at + |a|..at + |a| + |b|] == b
  {
    var slice := data[at..at + |a| + |b|];
    assert slice[..|a|] == a && slice[|a|..] == b;
  }

  lemma {:induction false} WordsOfBytes(data: Bytes, at: nat, perms: seq<u16>)
    requires at + 2 * |perms| <= |data| && data[at..at + 2 * |perms|] == PermBytes(perms)
    ensures Words(data, at, |perms|) == perms
  {
    if perms != [] {
      var init, last := perms[..|perms| - 1], perms[|perms| - 1];
      SplitSlice(data, at, PermBytes(init), Le16(last));
      WordsOfBytes(data, at, init);
      Le16RoundTrip(last);
    }
  }

  /** The fields of a record stay where they are when more follows. */
  lemma RecordFields(r: Record, tail: Bytes)
    requires |r.perms| < ALL_PERMS
    ensures var data := EncodeRecord(r) + tail;
            && (data[0] == 0 <==> r.isUser) && data[1..5] == Le32(r.id) && data[5..7] == Le16(|r.perms| as u16)
            && data[7..7 + 2 * |r.perms|] == PermBytes(r.perms) && data[7 + 2 * |r.perms|..] == tail
  {
    var head, data := EncodeRecord(r), EncodeRecord(r) + tail;
    assert data[1..5] == head[1..5] == Le32(r.id);
    assert data[5..7] == head[5..7] == Le16(|r.perms| as u16);
    assert data[7..7 + 2 * |r.perms|] == head[7..] == PermBytes(r.perms);
  }

  lemma DecodeStep(r: Record, tail: Bytes)
    requires |r.perms| < ALL_PERMS && DecodeAll(tail).Some?
    ensures DecodeAll(EncodeRecord(r) + tail) == Some([r] + DecodeAll(tail).value)
  {
    var data := EncodeRecord(r) + tail;
    RecordFields(r, tail);
    Le32RoundTrip(r.id);
    Le16RoundTrip(|r.perms| as u16);
    WordsOfBytes(data, 7, r.perms);
  }

  /** Reading what was written gives the records back, in order. */
  lemma {:induction false} RecordsRoundTrip(rs: seq<Record>)
    requires Writable(rs)
    ensures DecodeAll(EncodeAll(rs)) == Some(rs)
  {
    if rs != [] {
      RecordsRoundTrip(rs[1..]);
      DecodeStep(rs[0], EncodeAll(rs[1..]));
      assert [rs[0]] + rs[1..] == rs;
    }
  }

  // ---- the effective set and its ascending order ----

  /** What is written for a subject: the stored permissions less the revoked ones, plus the granted ones. */
  function Effective(base: seq<u16>, grants: set<u16>, revokes: set<u16>): set<u16> {
    (set p | p in base && p !in revokes) + grants
  }

  /** It is the set that `all` lists exactly when nothing is both granted and revoked. */
  lemma EffectiveIsListedIff(base: seq<u16>, grants: set<u16>, revokes: set<u16>)
    ensures Effective(base, grants, revokes) == (Elements(base) + grants) - revokes <==> grants !! revokes
  {
    if p :| p in grants && p in revokes {
      assert p in Effective(base, grants, revokes);
    }
  }

  function Ascending(s: set<u16>, n: nat): (q: seq<u16>)
    requires n <= ALL_PERMS
  {
    if n == 0 then []
    else
      var q := Ascending(s, n - 1);
      if (n - 1) as u16 in s then q + [(n - 1) as u16] else q
  }

  lemma {:induction false} AscendingIs(s: set<u16>, n: nat)
    requires n <= ALL_PERMS
    ensures var q := Ascending(s, n);
            && (forall p :: p in q <==> p in s && (p as int) < n)
            && (forall i, j | 0 <= i < j < |q| :: q[i] < q[j])
            && |q| <= n && (|q| == n <==> forall p: u16 | (p as int) < n :: p in s)
  {
    if n > 0 {
      AscendingIs(s, n - 1);
      var last, q := (n - 1) as u16, Ascending(s, n - 1);
      forall i | 0 <= i < |q| ensures q[i] < last {
        assert q[i] in q;
      }
    }
  }

  function Sorted(s: set<u16>): seq<u16> {
    Ascending(s, ALL_PERMS)
  }

  lemma SortedIs(s: set<u16>)
    ensures Elements(Sorted(s)) == s && Distinct(Sorted(s)) && |Sorted(s)| == |s|
    ensures |s| <= ALL_PERMS && (|s| == ALL_PERMS <==> forall p: u16 :: p in s)
  {
    AscendingIs(s, ALL_PERMS);
    DistinctSize(Sorted(s));
  }

  // ---- what is written for a table, and what a reader makes of it ----

  /** A line of a table: its id and the permissions to write or just read. */
  datatype Subject = Subject(id: Id, perms: seq<u16>)

  function RecordsFor(isUser: bool, subjects: seq<Subject>): seq<Record> {
    if subjects == [] then []
    else
      var last := subjects[|subjects| - 1];
      var init := RecordsFor(isUser, subjects[..|subjects| - 1]);
      if last.perms == [] then init else init + [Record(isUser, last.id, last.perms)]
  }

  /** The table a reader collects from the records of one kind: the last record of an id stays. */
  ghost function Collected(isUser: bool, rs: seq<Record>): map<Id, seq<u16>> {
    if rs == [] then map[]
    else
      var r, m := rs[|rs| - 1], Collected(isUser, rs[..|rs| - 1]);
      if r.isUser == isUser then m[r.id := r.perms] else m
  }

  /** A record goes to the first line with its id. */
  ghost function Assigned(ids: seq<Id>, m: map<Id, seq<u16>>): seq<seq<u16>> {
    seq(|ids|, i requires 0 <= i < |ids| => if ids[i] in m && ids[i] !in ids[..i] then m[ids[i]] else [])
  }

  ghost function Ids(subjects: seq<Subject>): seq<Id> {
    seq(|subjects|, i requires 0 <= i < |subjects| => subjects[i].id)
  }

  ghost function Perms(subjects: seq<Subject>): seq<seq<u16>> {
    seq(|subjects|, i requires 0 <= i < |subjects| => subjects[i].perms)
  }

  /** The permissions of the last line with this id that has any. */
  ghost function Latest(subjects: seq<Subject>, id: Id): seq<u16> {
    if subjects == [] then []
    else
      var last := subjects[|subjects| - 1];
      if last.id == id && last.perms != [] then last.perms else Latest(subjects[..|subjects| - 1], id)
  }

  lemma {:induction false} CollectedIs(isUser: bool, subjects: seq<Subject>, id: Id)
    ensures var m := Collected(isUser, RecordsFor(isUser, subjects)); (if id in m then m[id] else []) == Latest(subjects, id)
  {
    if subjects != [] {
      var last, rs := subjects[|subjects| - 1], RecordsFor(isUser, subjects[..|subjects| - 1]);
      CollectedIs(isUser, subjects[..|subjects| - 1], id);
      if last.perms != [] {
        CollectedPush(isUser, rs, Record(isUser, last.id, last.perms));
      }
    }
  }

  lemma CollectedPush(isUser: bool, rs: seq<Record>, r: Record)
    ensures Collected(isUser, rs + [r]) == if r.isUser == isUser then Collected(isUser, rs)[r.id := r.perms] else Collected(isUser, rs)
  {
    assert (rs + [r])[..|rs|] == rs;
  }

  lemma {:induction false} OtherKind(isUser: bool, subjects: seq<Subject>)
    ensures Collected(!isUser, RecordsFor(isUser, subjects)) == map[]
  {
    if subjects != [] {
      var last, rs := subjects[|subjects| - 1], RecordsFor(isUser, subjects[..|subjects| - 1]);
      OtherKind(isUser, subjects[..|subjects| - 1]);
      if last.perms != [] {
        CollectedPush(!isUser, rs, Record(isUser, last.id, last.perms));
      }
    }
  }

  /** Reading one table after another. */
  lemma {:induction false} CollectedConcat(isUser: bool, a: seq<Record>, b: seq<Record>)
    ensures Collected(isUser, a + b) == Collected(isUser, a) + Collected(isUser, b)
  {
    if b == [] {
      assert a + b == a;
    } else {
      var n := |b| - 1;
      CollectedConcat(isUser, a, b[..n]);
      assert (a + b)[..|a + b| - 1] == a + b[..n];
    }
  }

  /** No line with the same id before this one, and none with permissions after it: they are the latest. */
  lemma {:induction false} LatestIs(subjects: seq<Subject>, k: nat, id: Id)
    requires k <= |subjects|
    requires forall i | 0 <= i < |subjects| && i != k && subjects[i].id == id :: i > k && subjects[i].perms == []
    ensures Latest(subjects, id) == if k < |subjects| && subjects[k].id == id then subjects[k].perms else []
  {
    if subjects != [] {
      var n := |subjects| - 1;
      LatestIs(subjects[..n], if k < n then k else n, id);
    }
  }

  /** No line after another with the same id has any permissions. */
  ghost predicate OncePerId(subjects: seq<Subject>) {
    forall i, j | 0 <= i < j < |subjects| && subjects[i].id == subjects[j].id :: subjects[j].perms == []
  }

  /** Every line reads its own permissions back exactly when no line after another with the same id has any. */
  lemma TableRoundTripIff(isUser: bool, subjects: seq<Subject>)
    ensures Assigned(Ids(subjects), Collected(isUser, RecordsFor(isUser, subjects))) == Perms(subjects) <==> OncePerId(subjects)
  {
    var m, ids := Collected(isUser, RecordsFor(isUser, subjects)), Ids(subjects);
    var a := Assigned(ids, m);
    if OncePerId(subjects) {
      forall k | 0 <= k < |subjects| ensures a[k] == subjects[k].perms {
        ReadsBack(isUser, subjects, m, k);
      }
      assert a == Perms(subjects);
    } else {
      var i, j :| 0 <= i < j < |subjects| && subjects[i].id == subjects[j].id && subjects[j].perms != [];
      assert ids[..j][i] == ids[j];
      assert a[j] == [] && Perms(subjects)[j] != [];
    }
  }

  lemma ReadsBack(isUser: bool, subjects: seq<Subject>, m: map<Id, seq<u16>>, k: nat)
    requires OncePerId(subjects) && m == Collected(isUser, RecordsFor(isUser, subjects)) && k < |subjects|
    ensures Assigned(Ids(subjects), m)[k] == subjects[k].perms
  {
    var ids := Ids(subjects);
    if i :| 0 <= i < k && ids[i] == ids[k] {
      assert ids[..k][i] == ids[k];
    } else {
      forall x | x in ids[..k] ensures x != ids[k] {
        var i :| 0 <= i < k && ids[..k][i] == x;
        assert ids[i] == x;
      }
      CollectedIs(isUser, subjects, ids[k]);
      forall i | 0 <= i < |subjects| && i != k && subjects[i].id == ids[k] ensures i > k && subjects[i].perms == [] {
        assert ids[i] == ids[k];
      }
      LatestIs(subjects, k, ids[k]);
    }
  }

  // ---- writing ----

  function UserSubject(u: UserRecord, o: Overlay): Subject {
    Subject(u.uid, Sorted(Effective(u.permissions, Of(o.uidGrants, u.uid), Of(o.uidRevokes, u.uid))))
  }

  function GroupSubject(g: GroupEntry, o: Overlay): Subject {
    Subject(g.gid, Sorted(Effective(g.permissions, Of(o.gidGrants, g.gid), Of(o.gidRevokes, g.gid))))
  }

  ghost function UserSubjects(users: seq<UserRecord>, o: Overlay): seq<Subject> {
    seq(|users|, i requires 0 <= i < |users| => UserSubject(users[i], o))
  }

  ghost function GroupSubjects(groups: seq<GroupEntry>, o: Overlay): seq<Subject> {
    seq(|groups|, i requires 0 <= i < |groups| => GroupSubject(groups[i], o))
  }

  /** The records of a file: the users', then the groups'. */
  ghost function FileRecords(store: UserStore, o: Overlay): seq<Record> {
    RecordsFor(true, UserSubjects(store.users, o)) + RecordsFor(false, GroupSubjects(store.groups, o))
  }

  lemma {:induction false} EncodePush(rs: seq<Record>, r: Record)
    requires Writable(rs) && |r.perms| < ALL_PERMS
    ensures Writable(rs + [r]) && EncodeAll(rs + [r]) == EncodeAll(rs) + EncodeRecord(r)
    decreases |rs|
  {
    var all := rs + [r];
    if rs == [] {
      assert EncodeAll(all) == EncodeRecord(r) + EncodeAll([]);
    } else {
      assert Writable(rs[1..]);
      EncodePush(rs[1..], r);
      assert all[0] == rs[0] && all[1..] == rs[1..] + [r];
      ConcatAssoc(EncodeRecord(rs[0]), EncodeAll(rs[1..]), EncodeRecord(r));
    }
  }

  /** Append one record, unless there is nothing to write or the count does not fit 16 bits. */
  method AppendRecord(buf: Bytes, isUser: bool, id: Id, effective: set<u16>) returns (out: Option<Bytes>)
    ensures var perms := Sorted(effective);
            out == if perms == [] then Some(buf)
                   else if |perms| < ALL_PERMS then Some(buf + EncodeRecord(Record(isUser, id, perms))) else None
  {
    var perms := Sorted(effective);
    SortedIs(effective);
    if effective == {} {
      return Some(buf);
    }
    var bytes: Bytes := [if isUser then 0 else 1] + Le32(id);
    if |perms| >= ALL_PERMS {
      return None;
    }
    bytes := bytes + Le16(|perms| as u16);
    ghost var head := bytes;
    for i := 0 to |perms|
      invariant bytes == head + PermBytes(perms[..i])
    {
      assert perms[..i + 1][..i] == perms[..i];
      bytes := bytes + Le16(perms[i]);
    }
    assert perms[..|perms|] == perms;
    return Some(buf + bytes);
  }

  ghost predicate TooMany(subjects: seq<Subject>) {
    exists s | s in subjects :: |s.perms| == ALL_PERMS
  }

  /** The bytes of a table's records so far follow what was there. */
  ghost predicate WrittenSoFar(buf: Bytes, rs: seq<Record>) {
    Writable(rs) && buf == EncodeAll(rs)
  }

  lemma WrittenStep(buf: Bytes, before: seq<Record>, isUser: bool, subjects: seq<Subject>, n: nat, effective: set<u16>)
    requires n < |subjects| && subjects[n].perms == Sorted(effective)
    requires WrittenSoFar(buf, before + RecordsFor(isUser, subjects[..n]))
    ensures var perms := Sorted(effective); var rs := before + RecordsFor(isUser, subjects[..n + 1]);
            && (perms == [] ==> WrittenSoFar(buf, rs))
            && (perms != [] && |perms| < ALL_PERMS ==> WrittenSoFar(buf + EncodeRecord(Record(isUser, subjects[n].id, perms)), rs))
            && (|perms| >= ALL_PERMS ==> |perms| == ALL_PERMS && !Writable(rs))
  {
    var last, rs := subjects[n], before + RecordsFor(isUser, subjects[..n]);
    var r := Record(isUser, last.id, last.perms);
    SortedIs(effective);
    assert subjects[..n + 1][..n] == subjects[..n];
    if last.perms != [] {
      assert before + RecordsFor(isUser, subjects[..n + 1]) == rs + [r];
      assert r in rs + [r];
      if |last.perms| < ALL_PERMS {
        EncodePush(rs, r);
      }
    }
  }

  method WriteUsers(buf0: Bytes, users: seq<UserRecord>, o: Overlay, ghost before: seq<Record>) returns (out: Option<Bytes>)
    requires WrittenSoFar(buf0, before)
    ensures out.Some? ==> WrittenSoFar(out.value, before + RecordsFor(true, UserSubjects(users, o)))
    ensures out.None? <==> TooMany(UserSubjects(users, o))
  {
    var buf := buf0;
    ghost var subjects := UserSubjects(users, o);
    assert before + [] == before;
    for i := 0 to |users|
      invariant WrittenSoFar(buf, before + RecordsFor(true, subjects[..i]))
      invariant !TooMany(subjects[..i])
    {
      var user := users[i];
      var effective := set p | p in user.permissions;
      if user.uid in o.uidRevokes {
        effective := effective - o.uidRevokes[user.uid];
      }
      if user.uid in o.uidGrants {
        effective := effective + o.uidGrants[user.uid];
      }
      assert effective == Effective(user.permissions, Of(o.uidGrants, user.uid), Of(o.uidRevokes, user.uid));
      WrittenStep(buf, before, true, subjects, i, effective);
      TooManyStep(subjects, i);
      var longer := AppendRecord(buf, true, user.uid, effective);
      if longer.None? {
        return None;
      }
      buf := longer.value;
    }
    assert subjects[..|subjects|] == subjects;
    return Some(buf);
  }

  method WriteGroups(buf0: Bytes, groups: seq<GroupEntry>, o: Overlay, ghost before: seq<Record>) returns (out: Option<Bytes>)
    requires WrittenSoFar(buf0, before)
    ensures out.Some? ==> WrittenSoFar(out.value, before + RecordsFor(false, GroupSubjects(groups, o)))
    ensures out.None? <==> TooMany(GroupSubjects(groups, o))
  {
    var buf := buf0;
    ghost var subjects := GroupSubjects(groups, o);
    assert before + [] == before;
    for i := 0 to |groups|
      invariant WrittenSoFar(buf, before + RecordsFor(false, subjects[..i]))
      invariant !TooMany(subjects[..i])
    {
      var group := groups[i];
      var effective := set p | p in group.permissions;
      if group.gid in o.gidRevokes {
        effective := effective - o.gidRevokes[group.gid];
      }
      if group.gid in o.gidGrants {
        effective := effective + o.gidGrants[group.gid];
      }
      assert effective == Effective(group.permissions, Of(o.gidGrants, group.gid), Of(o.gidRevokes, group.gid));
      WrittenStep(buf, before, false, subjects, i, effective);
      TooManyStep(subjects, i);
      var longer := AppendRecord(buf, false, group.gid, effective);
      if longer.None? {
        return None;
      }
      buf := longer.value;
    }
    assert subjects[..|subjects|] == subjects;
    return Some(buf);
  }

  /**
   write_perms_with_overlay: the bytes written, or None when a subject has all
   65536 permissions.
   */
  method WritePerms(store: UserStore, o: Overlay) returns (out: Option<Bytes>)
    ensures out.Some? ==> WrittenSoFar(out.value, FileRecords(store, o))
    ensures out.None? <==> TooMany(UserSubjects(store.users, o)) || TooMany(GroupSubjects(store.groups, o))
  {
    out := WriteUsers([], store.users, o, []);
    ghost var before := RecordsFor(true, UserSubjects(store.users, o));
    assert [] + before == before;
    if out.Some? {
      out := WriteGroups(out.value, store.groups, o, before);
    }
  }

  lemma TooManyStep(subjects: seq<Subject>, n: nat)
    requires n < |subjects|
    ensures TooMany(subjects[..n + 1]) <==> TooMany(subjects[..n]) || |subjects[n].perms| == ALL_PERMS
    ensures |subjects[n].perms| == ALL_PERMS ==> TooMany(subjects)
  {
    assert subjects[..n + 1] == subjects[..n] + [subjects[n]];
  }

  // ---- reading ----

  method ReadExact(data: Bytes, pos: nat, n: nat) returns (bytes: Option<Bytes>)
    requires pos <= |data|
    ensures bytes == if pos + n <= |data| then Some(data[pos..pos + n]) else None
  {
    if pos + n > |data| {
      return None;
    }
    return Some(data[pos..pos + n]);
  }

  /** The records read so far in front of what the rest holds. */
  ghost function Prefixed(done: seq<Record>, rest: Option<seq<Record>>): Option<seq<Record>> {
    if rest.None? then None else Some(done + rest.value)
  }

  lemma {:induction false} WordsShift(data: Bytes, pos: nat, at: nat, n: nat)
    requires pos + at + 2 * n <= |data|
    ensures Words(data, pos + at, n) == Words(data[pos..], at, n)
  {
    if n > 0 {
      WordsShift(data, pos, at, n - 1);
      var lo := at + 2 * (n - 1);
      assert data[pos..][lo..lo + 2] == data[pos + lo..pos + lo + 2];
    }
  }

  /** One record at `pos`, decoded where it lies. */
  lemma DecodeAt(data: Bytes, pos: nat)
    requires pos < |data|
    ensures DecodeAll(data[pos..]) ==
              if |data| < pos + 7 || |data| < pos + 7 + 2 * (FromLe16(data[pos + 5..pos + 7]) as int) then None
              else
                var count := FromLe16(data[pos + 5..pos + 7]) as int;
                var r := Record(data[pos] == 0, FromLe32(data[pos + 1..pos + 5]), Words(data, pos + 7, count));
                Prefixed([r], DecodeAll(data[pos + 7 + 2 * count..]))
  {
    var tail := data[pos..];
    if |tail| >= 7 {
      assert tail[5..7] == data[pos + 5..pos + 7] && tail[1..5] == data[pos + 1..pos + 5];
      var count := FromLe16(tail[5..7]) as int;
      if |tail| >= 7 + 2 * count {
        WordsShift(data, pos, 7, count);
        assert tail[7 + 2 * count..] == data[pos + 7 + 2 * count..];
      }
    }
  }

  method ReadPerms(data: Bytes, pos: nat, count: nat) returns (perms: Option<seq<u16>>)
    requires pos <= |data|
    ensures perms == if pos + 2 * count <= |data| then Some(Words(data, pos, count)) else None
  {
    var read: seq<u16> := [];
    for i := 0 to count
      invariant pos + 2 * i <= |data| && read == Words(data, pos, i)
    {
      var p := ReadExact(data, pos + 2 * i, 2);
      if p.None? {
        return None;
      }
      read := read + [FromLe16(p.value)];
    }
    return Some(read);
  }

  type PermTable = map<Id, seq<u16>>

  ghost predicate Tables(rs: seq<Record>, users: PermTable, groups: PermTable) {
    users == Collected(true, rs) && groups == Collected(false, rs)
  }

  lemma TablesPush(rs: seq<Record>, users: PermTable, groups: PermTable, r: Record)
    requires Tables(rs, users, groups)
    ensures if r.isUser then Tables(rs + [r], users[r.id := r.perms], groups) else Tables(rs + [r], users, groups[r.id := r.perms])
  {
    CollectedPush(true, rs, r);
    CollectedPush(false, rs, r);
  }

  lemma PrefixedPush(done: seq<Record>, r: Record, rest: Option<seq<Record>>)
    ensures Prefixed(done, Prefixed([r], rest)) == Prefixed(done + [r], rest)
  {
    if rest.Some? {
      assert done + ([r] + rest.value) == done + [r] + rest.value;
    }
  }

  lemma PrefixedNone(done: seq<Record>, rest: Option<seq<Record>>)
    ensures Prefixed([], rest) == rest && Prefixed(done, Some([])) == Some(done)
  {
    if rest.Some? {
      assert [] + rest.value == rest.value;
    }
    assert done + [] == done;
  }

  /** The record at `pos` and where the next one starts. */
  method ParseRecord(data: Bytes, pos: nat) returns (r: Option<Record>, next: nat)
    requires pos < |data|
    ensures r.None? ==> DecodeAll(data[pos..]) == None
    ensures r.Some? ==> pos < next <= |data| && DecodeAll(data[pos..]) == Prefixed([r.value], DecodeAll(data[next..]))
  {
    DecodeAt(data, pos);
    var t := ReadExact(data, pos, 1);
    if t.None? { return None, pos; }
    var idBuf := ReadExact(data, pos + 1, 4);
    if idBuf.None? { return None, pos; }
    var countBuf := ReadExact(data, pos + 5, 2);
    if countBuf.None? { return None, pos; }
    var count := FromLe16(countBuf.value) as int;
    var perms := ReadPerms(data, pos + 7, count);
    if perms.None? { return None, pos; }
    return Some(Record(t.value[0] == 0, FromLe32(idBuf.value), perms.value)), pos + 7 + 2 * count;
  }

  /** The tables held by a file; None when it ends inside a record. */
  method ParsePerms(data: Bytes) returns (tables: Option<(PermTable, PermTable)>)
    ensures tables.Some? == DecodeAll(data).Some?
    ensures tables.Some? ==> Tables(DecodeAll(data).value, tables.value.0, tables.value.1)
  {
    var users: PermTable, groups: PermTable, cursor := map[], map[], 0;
    ghost var done: seq<Record> := [];
    assert data[0..] == data;
    PrefixedNone([], DecodeAll(data));
    while cursor < |data|
      invariant cursor <= |data|
      invariant DecodeAll(data) == Prefixed(done, DecodeAll(data[cursor..]))
      invariant Tables(done, users, groups)
    {
      var parsed, next := ParseRecord(data, cursor);
      if parsed.None? { return None; }
      var r := parsed.value;
      PrefixedPush(done, r, DecodeAll(data[next..]));
      TablesPush(done, users, groups, r);
      if r.isUser {
        users := users[r.id := r.perms];
      } else {
        groups := groups[r.id := r.perms];
      }
      done := done + [r];
      cursor := next;
    }
    assert data[cursor..] == [];
    PrefixedNone(done, None);
    return Some((users, groups));
  }

  ghost function UserIds(users: seq<UserRecord>): seq<Id> {
    seq(|users|, i requires 0 <= i < |users| => users[i].uid)
  }

  ghost function GroupIds(groups: seq<GroupEntry>): seq<Id> {
    seq(|groups|, i requires 0 <= i < |groups| => groups[i].gid)
  }

  /** A line with other permissions. */
  ghost predicate UsersWith(users: seq<UserRecord>, from: seq<UserRecord>, perms: seq<seq<u16>>) {
    && |users| == |from| == |perms|
    && forall i | 0 <= i < |users| :: users[i] == from[i].(permissions := perms[i])
  }

  ghost predicate GroupsWith(groups: seq<GroupEntry>, from: seq<GroupEntry>, perms: seq<seq<u16>>) {
    && |groups| == |from| == |perms|
    && forall i | 0 <= i < |groups| :: groups[i] == from[i].(permissions := perms[i])
  }

  /** The entries left when the ids so far have taken theirs. */
  ghost function Left(m: PermTable, ids: seq<Id>): PermTable {
    m - Elements(ids)
  }

  /** Hand each user the record read for it, once. */
  method AssignUsers(users: seq<UserRecord>, table: PermTable) returns (out: seq<UserRecord>)
    ensures UsersWith(out, users, Assigned(UserIds(users), table))
  {
    var m: PermTable := table;
    out := [];
    ghost var ids := UserIds(users);
    for k := 0 to |users|
      invariant m == Left(table, ids[..k])
      invariant |out| == k && forall i | 0 <= i < k :: out[i] == users[i].(permissions := Assigned(ids, table)[i])
    {
      var perms := [];
      assert ids[..k + 1] == ids[..k] + [ids[k]];
      if users[k].uid in m {
        perms := m[users[k].uid];
        m := m - {users[k].uid};
      }
      out := out + [users[k].(permissions := perms)];
    }
  }

  method AssignGroups(groups: seq<GroupEntry>, table: PermTable) returns (out: seq<GroupEntry>)
    ensures GroupsWith(out, groups, Assigned(GroupIds(groups), table))
  {
    var m: PermTable := table;
    out := [];
    ghost var ids := GroupIds(groups);
    for k := 0 to |groups|
      invariant m == Left(table, ids[..k])
      invariant |out| == k && forall i | 0 <= i < k :: out[i] == groups[i].(permissions := Assigned(ids, table)[i])
    {
      var perms := [];
      assert ids[..k + 1] == ids[..k] + [ids[k]];
      if groups[k].gid in m {
        perms := m[groups[k].gid];
        m := m - {groups[k].gid};
      }
      out := out + [groups[k].(permissions := perms)];
    }
  }

  /** What loading makes of the file's records. */
  ghost predicate LoadedFrom(store: UserStore, users: seq<UserRecord>, groups: seq<GroupEntry>, rs: seq<Record>) {
    && UsersWith(store.users, users, Assigned(UserIds(users), Collected(true, rs)))
    && GroupsWith(store.groups, groups, Assigned(GroupIds(groups), Collected(false, rs)))
  }

  /** UserStore::load over the parsed user and group lines; no file is an empty one. */
  method Load(users: seq<UserRecord>, groups: seq<GroupEntry>, file: Option<Bytes>) returns (store: Option<UserStore>)
    ensures store.Some? == DecodeAll(file.GetOr([])).Some?
    ensures store.Some? ==> LoadedFrom(store.value, users, groups, DecodeAll(file.GetOr([])).value)
  {
    var userPerms: PermTable, groupPerms: PermTable := map[], map[];
    if file.Some? {
      var tables := ParsePerms(file.value);
      if tables.None? { return None; }
      userPerms, groupPerms := tables.value.0, tables.value.1;
    }
    var us := AssignUsers(users, userPerms);
    var gs := AssignGroups(groups, groupPerms);
    return Some(UserStore(us, gs));
  }

  // ---- the round trip ----

  ghost predicate Restores(store: UserStore, o: Overlay, back: UserStore) {
    && UsersWith(back.users, store.users, Perms(UserSubjects(store.users, o)))
    && GroupsWith(back.groups, store.groups, Perms(GroupSubjects(store.groups, o)))
  }

  lemma FileTables(store: UserStore, o: Overlay)
    ensures Collected(true, FileRecords(store, o)) == Collected(true, RecordsFor(true, UserSubjects(store.users, o)))
    ensures Collected(false, FileRecords(store, o)) == Collected(false, RecordsFor(false, GroupSubjects(store.groups, o)))
  {
    var us, gs := RecordsFor(true, UserSubjects(store.users, o)), RecordsFor(false, GroupSubjects(store.groups, o));
    CollectedConcat(true, us, gs);
    CollectedConcat(false, us, gs);
    OtherKind(true, UserSubjects(store.users, o));
    OtherKind(false, GroupSubjects(store.groups, o));
  }

  lemma UsersWithPerms(back: seq<UserRecord>, from: seq<UserRecord>, perms: seq<seq<u16>>, other: seq<seq<u16>>)
    requires UsersWith(back, from, perms) && |other| == |from|
    ensures UsersWith(back, from, other) <==> perms == other
  {
    if UsersWith(back, from, other) {
      assert forall i | 0 <= i < |perms| :: back[i].permissions == perms[i] == other[i];
    }
  }

  lemma GroupsWithPerms(back: seq<GroupEntry>, from: seq<GroupEntry>, perms: seq<seq<u16>>, other: seq<seq<u16>>)
    requires GroupsWith(back, from, perms) && |other| == |from|
    ensures GroupsWith(back, from, other) <==> perms == other
  {
    if GroupsWith(back, from, other) {
      assert forall i | 0 <= i < |perms| :: back[i].permissions == perms[i] == other[i];
    }
  }

  /**
   Writing and loading again gives every user and group exactly its effective
   permissions if and only if no user has any after another with its uid, and
   likewise for groups.
   */
  lemma RoundTripIff(store: UserStore, o: Overlay, file: Bytes, back: UserStore)
    requires WrittenSoFar(file, FileRecords(store, o)) && DecodeAll(file).Some?
    requires LoadedFrom(back, store.users, store.groups, DecodeAll(file).value)
    ensures Restores(store, o, back) <==> OncePerId(UserSubjects(store.users, o)) && OncePerId(GroupSubjects(store.groups, o))
  {
    RecordsRoundTrip(FileRecords(store, o));
    LoadsIff(store, o, back);
  }

  lemma LoadsIff(store: UserStore, o: Overlay, back: UserStore)
    requires LoadedFrom(back, store.users, store.groups, FileRecords(store, o))
    ensures Restores(store, o, back) <==> OncePerId(UserSubjects(store.users, o)) && OncePerId(GroupSubjects(store.groups, o))
  {
    var us, gs := UserSubjects(store.users, o), GroupSubjects(store.groups, o);
    FileTables(store, o);
    assert UserIds(store.users) == Ids(us) && GroupIds(store.groups) == Ids(gs);
    TableRoundTripIff(true, us);
    TableRoundTripIff(false, gs);
    UsersWithPerms(back.users, store.users, Assigned(Ids(us), Collected(true, RecordsFor(true, us))), Perms(us));
    GroupsWithPerms(back.groups, store.groups, Assigned(Ids(gs), Collected(false, RecordsFor(false, gs))), Perms(gs));
  }

  /** What is written of a subject whose grants and revocations are disjoint is what it holds. */
  lemma WrittenIsHeld(base: seq<u16>, grants: set<u16>, revokes: set<u16>, p: u16)
    requires grants !! revokes
    ensures p in Sorted(Effective(base, grants, revokes)) <==> p !in revokes && (p in base || p in grants)
  {
    var e := Effective(base, grants, revokes);
    SortedIs(e);
    assert p in Sorted(e) <==> p in Elements(Sorted(e));
  }

  /** What a user holds directly: stored or granted, and not revoked. */
  ghost function UserHolds(o: Overlay, user: UserRecord): iset<u16> {
    iset p: u16 | p !in Of(o.uidRevokes, user.uid) && (p in user.permissions || p in Of(o.uidGrants, user.uid))
  }

  /**
   With distinct ids and a consistent overlay, a reloaded subject holds exactly
   what it held directly before: the unrevoked part of what was stored or granted.
   */
  lemma ReloadedDirect(store: UserStore, o: Overlay, back: UserStore)
    requires Consistent(o) && Restores(store, o, back)
    ensures forall i | 0 <= i < |store.users| :: UserHolds(o, store.users[i]) == iset p | p in back.users[i].permissions
    ensures forall i | 0 <= i < |store.groups| :: GroupHolds(o, store.groups[i]) == iset p | p in back.groups[i].permissions
  {
    forall i | 0 <= i < |store.users| ensures UserHolds(o, store.users[i]) == iset p | p in back.users[i].permissions {
      ReloadedUser(store, o, back, i);
    }
    forall i | 0 <= i < |store.groups| ensures GroupHolds(o, store.groups[i]) == iset p | p in back.groups[i].permissions {
      ReloadedGroup(store, o, back, i);
    }
  }

  lemma ReloadedUser(store: UserStore, o: Overlay, back: UserStore, i: nat)
    requires Consistent(o) && Restores(store, o, back) && i < |store.users|
    ensures UserHolds(o, store.users[i]) == iset p | p in back.users[i].permissions
  {
    var u := store.users[i];
    var grants, revokes := Of(o.uidGrants, u.uid), Of(o.uidRevokes, u.uid);
    assert back.users[i].permissions == Sorted(Effective(u.permissions, grants, revokes));
    forall p ensures p in UserHolds(o, u) <==> p in back.users[i].permissions {
      WrittenIsHeld(u.permissions, grants, revokes, p);
    }
  }

  lemma ReloadedGroup(store: UserStore, o: Overlay, back: UserStore, i: nat)
    requires Consistent(o) && Restores(store, o, back) && i < |store.groups|
    ensures GroupHolds(o, store.groups[i]) == iset p | p in back.groups[i].permissions
  {
    var g := store.groups[i];
    var grants, revokes := Of(o.gidGrants, g.gid), Of(o.gidRevokes, g.gid);
    assert back.groups[i].permissions == Sorted(Effective(g.permissions, grants, revokes));
    forall p ensures p in GroupHolds(o, g) <==> p in back.groups[i].permissions {
      WrittenIsHeld(g.permissions, grants, revokes, p);
    }
  }
}
