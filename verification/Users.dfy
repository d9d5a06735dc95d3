/** The user and group tables of crates/core/src/user.rs and their lookups. */
module Users {
  import opened Common

  type Id = x: int | 0 <= x < 0x1_0000_0000

  datatype UserRecord = UserRecord(username: string, uid: Id, gid: Id, permissions: seq<u16>)

  datatype GroupEntry = GroupEntry(name: string, gid: Id, members: seq<string>, permissions: seq<u16>)

  datatype UserStore = UserStore(users: seq<UserRecord>, groups: seq<GroupEntry>)

  /** The uid index keeps the last user inserted under a uid. */
  ghost predicate IsLastWith(users: seq<UserRecord>, uid: Id, u: UserRecord) {
    exists i | 0 <= i < |users| :: users[i] == u && u.uid == uid && forall j | i < j < |users| :: users[j].uid != uid
  }

  function LookupByUid(users: seq<UserRecord>, uid: Id): (r: Option<UserRecord>)
    ensures r.Some? ==> r.value in users && r.value.uid == uid && IsLastWith(users, uid, r.value)
    ensures r.None? <==> forall u | u in users :: u.uid != uid
  {
    if users == [] then None
    else
      var last := users[|users| - 1];
      if last.uid == uid then
        assert users[|users| - 1] == last;
        Some(last)
      else
        assert users == users[..|users| - 1] + [last];
        var r := LookupByUid(users[..|users| - 1], uid);
        assert r.Some? ==> IsLastWith(users, uid, r.value) by { LastWithPush(users[..|users| - 1], last, uid, r); }
        r
  }

  lemma LastWithPush(users: seq<UserRecord>, last: UserRecord, uid: Id, r: Option<UserRecord>)
    requires last.uid != uid && (r.Some? ==> IsLastWith(users, uid, r.value))
    ensures r.Some? ==> IsLastWith(users + [last], uid, r.value)
  {
    if r.Some? {
      var i :| 0 <= i < |users| && users[i] == r.value && forall j | i < j < |users| :: users[j].uid != uid;
      assert (users + [last])[i] == r.value;
    }
  }

  ghost predicate IsFirst(groups: seq<GroupEntry>, g: GroupEntry, other: GroupEntry -> bool) {
    exists i | 0 <= i < |groups| :: groups[i] == g && forall j | 0 <= j < i :: other(groups[j])
  }

  lemma FirstPush(groups: seq<GroupEntry>, r: Option<GroupEntry>, other: GroupEntry -> bool)
    requires groups != [] && other(groups[0]) && (r.Some? ==> IsFirst(groups[1..], r.value, other))
    ensures r.Some? ==> IsFirst(groups, r.value, other)
  {
    if r.Some? {
      var i :| 0 <= i < |groups| - 1 && groups[1..][i] == r.value && forall j | 0 <= j < i :: other(groups[1..][j]);
      assert groups[i + 1] == r.value;
      forall j | 0 <= j < i + 1 ensures other(groups[j]) {
        assert j > 0 ==> groups[j] == groups[1..][j - 1];
      }
    }
  }

  /** The first group with the gid. */
  function GroupById(groups: seq<GroupEntry>, gid: Id): (r: Option<GroupEntry>)
    ensures r.Some? ==> r.value in groups && r.value.gid == gid && IsFirst(groups, r.value, (g: GroupEntry) => g.gid != gid)
    ensures r.None? <==> forall g | g in groups :: g.gid != gid
  {
    if groups == [] then None
    else if groups[0].gid == gid then Some(groups[0])
    else
      var r := GroupById(groups[1..], gid);
      FirstPush(groups, r, (g: GroupEntry) => g.gid != gid);
      r
  }

  /** The first group with the name. */
  function GroupByName(groups: seq<GroupEntry>, name: string): (r: Option<GroupEntry>)
    ensures r.Some? ==> r.value in groups && r.value.name == name && IsFirst(groups, r.value, (g: GroupEntry) => g.name != name)
    ensures r.None? <==> forall g | g in groups :: g.name != name
  {
    if groups == [] then None
    else if groups[0].name == name then Some(groups[0])
    else
      var r := GroupByName(groups[1..], name);
      FirstPush(groups, r, (g: GroupEntry) => g.name != name);
      r
  }

  /** A user belongs to a group by its primary gid (only the first group with it) or as a listed member. */
  ghost predicate BelongsTo(store: UserStore, user: UserRecord, name: string) {
    || (GroupById(store.groups, user.gid).Some? && GroupById(store.groups, user.gid).value.name == name)
    || exists g | g in store.groups :: g.name == name && user.username in g.members
  }

  /** The names of a user's groups among the first n listed: the primary one, then those that list the user, each once. */
  function GroupsUpTo(store: UserStore, user: UserRecord, n: nat): seq<string>
    requires n <= |store.groups|
  {
    if n == 0 then
      var primary := GroupById(store.groups, user.gid);
      if primary.Some? then [primary.value.name] else []
    else
      var names, g := GroupsUpTo(store, user, n - 1), store.groups[n - 1];
      if user.username in g.members && g.name !in names then names + [g.name] else names
  }

  function GroupsOf(store: UserStore, user: UserRecord): seq<string> {
    GroupsUpTo(store, user, |store.groups|)
  }

  lemma {:induction false} GroupsUpToAre(store: UserStore, user: UserRecord, n: nat)
    requires n <= |store.groups|
    ensures forall x :: x in GroupsUpTo(store, user, n) <==>
              || (GroupById(store.groups, user.gid).Some? && GroupById(store.groups, user.gid).value.name == x)
              || exists g | g in store.groups[..n] :: g.name == x && user.username in g.members
    ensures Distinct(GroupsUpTo(store, user, n))
  {
    if n > 0 {
      GroupsUpToAre(store, user, n - 1);
      assert store.groups[..n] == store.groups[..n - 1] + [store.groups[n - 1]];
    }
  }

  /** The groups of a user are exactly those it belongs to, each once. */
  lemma GroupsOfAre(store: UserStore, user: UserRecord)
    ensures forall x :: x in GroupsOf(store, user) <==> BelongsTo(store, user, x)
    ensures Distinct(GroupsOf(store, user))
  {
    GroupsUpToAre(store, user, |store.groups|);
    assert store.groups[..|store.groups|] == store.groups;
  }

  method GroupsFor(store: UserStore, user: UserRecord) returns (names: seq<string>)
    ensures names == GroupsOf(store, user)
  {
    names := [];
    var primary := GroupById(store.groups, user.gid);
    if primary.Some? {
      names := [primary.value.name];
    }
    for i := 0 to |store.groups|
      invariant names == GroupsUpTo(store, user, i)
    {
      var g := store.groups[i];
      if user.username in g.members && g.name !in names {
        names := names + [g.name];
      }
    }
  }
}
