/**
 Permission evaluation (crates/core/src/permissions.rs): grants and revocations
 laid over the stored permissions, and links that pass a permission on.
 */
module Permissions {
  import opened Common
  import opened Graphs
  import opened Users

  type PermMap = map<Id, set<u16>>

  type Links = map<u16, set<u16>>

  /** The overlay: PermissionStoreInner. */
  datatype Overlay = Overlay(uidGrants: PermMap, uidRevokes: PermMap, gidGrants: PermMap, gidRevokes: PermMap,
                             links: Links, groups: map<u16, string>)

  function Of(m: PermMap, id: Id): set<u16> {
    if id in m then m[id] else {}
  }

  function LinksOf(links: Links, perm: u16): set<u16> {
    if perm in links then links[perm] else {}
  }

  ghost function LinkEdges(links: Links): Edges<u16> {
    set p, q | p in links && q in links[p] :: (p, q)
  }

  // ---- what it means: a link path to a permission that decides, past none that is revoked ----

  ghost predicate Route(links: Links, revoked: set<u16>, accepts: iset<u16>, w: seq<u16>) {
    && IsWalk(LinkEdges(links), w)
    && w[|w| - 1] in accepts
    && forall i | 0 <= i < |w| - 1 :: w[i] !in revoked
  }

  ghost predicate Reaches(links: Links, revoked: set<u16>, accepts: iset<u16>, perm: u16) {
    exists w :: Route(links, revoked, accepts, w) && w[0] == perm
  }

  /** A group holds a permission itself: stored or granted, and not revoked. */
  ghost function GroupHolds(o: Overlay, group: GroupEntry): iset<u16> {
    iset p: u16 | p !in Of(o.gidRevokes, group.gid) && (p in group.permissions || p in Of(o.gidGrants, group.gid))
  }

  ghost predicate GroupEntitled(store: UserStore, o: Overlay, gid: Id, perm: u16) {
    var group := GroupById(store.groups, gid);
    group.Some? && Reaches(o.links, Of(o.gidRevokes, gid), GroupHolds(o, group.value), perm)
  }

  /** Some group of the user, taken by its name, is entitled to the permission. */
  ghost predicate ThroughGroup(store: UserStore, o: Overlay, user: UserRecord, perm: u16) {
    exists g | g in store.groups ::
      BelongsTo(store, user, g.name) && GroupByName(store.groups, g.name) == Some(g) && GroupEntitled(store, o, g.gid, perm)
  }

  /** What decides for a user: 0, a permission tied to one of its groups, or an unrevoked one it holds. */
  ghost function UserAccepts(store: UserStore, o: Overlay, user: UserRecord): iset<u16> {
    iset p: u16 |
      || p == 0
      || (p in o.groups && BelongsTo(store, user, o.groups[p]))
      || (p !in Of(o.uidRevokes, user.uid)
          && (p in user.permissions || p in Of(o.uidGrants, user.uid) || ThroughGroup(store, o, user, p)))
  }

  ghost predicate UserEntitled(store: UserStore, o: Overlay, uid: Id, perm: u16) {
    var user := LookupByUid(store.users, uid);
    || uid == 0 || perm == 0
    || (user.Some? && Reaches(o.links, Of(o.uidRevokes, uid), UserAccepts(store, o, user.value), perm))
  }

  lemma ReachesStep(links: Links, revoked: set<u16>, accepts: iset<u16>, perm: u16)
    ensures Reaches(links, revoked, accepts, perm) <==>
              || perm in accepts
              || (perm !in revoked && exists q | q in LinksOf(links, perm) :: Reaches(links, revoked, accepts, q))
  {
    if perm in accepts {
      assert Route(links, revoked, accepts, [perm]);
    } else if w :| Route(links, revoked, accepts, w) && w[0] == perm {
      assert (w[0], w[1]) in LinkEdges(links);
      var rest := w[1..];
      assert forall i | 0 <= i < |rest| :: rest[i] == w[i + 1];
      assert Route(links, revoked, accepts, rest) && rest[0] in LinksOf(links, perm);
    } else if perm !in revoked {
      forall q | q in LinksOf(links, perm) ensures !Reaches(links, revoked, accepts, q) {
        if w :| Route(links, revoked, accepts, w) && w[0] == q {
          assert (perm, q) in LinkEdges(links);
          assert Route(links, revoked, accepts, [perm] + w);
        }
      }
    }
  }

  // ---- where an evaluation ends ----

  /** The links followed from permissions that do not decide. */
  ghost function OpenEdges(links: Links, closed: iset<u16>): Edges<u16> {
    set e | e in LinkEdges(links) && e.0 !in closed
  }

  ghost predicate Leads(edges: Edges<u16>, from: u16, to: u16) {
    exists w :: IsWalk(edges, w) && w[0] == from && w[|w| - 1] == to
  }

  /** No cycle of undecided permissions is reached from `perm` through such permissions. */
  ghost predicate Ends(links: Links, closed: iset<u16>, perm: u16) {
    forall c | IsCycle(OpenEdges(links, closed), c) :: !Leads(OpenEdges(links, closed), perm, c[0])
  }

  ghost function LinkNodes(links: Links): set<u16> {
    links.Keys + set p, q | p in links && q in links[p] :: q
  }

  /** Everything reached from `perm` through undecided permissions. */
  ghost function Ahead(links: Links, closed: iset<u16>, perm: u16): set<u16> {
    set q | q in LinkNodes(links) + {perm} && Leads(OpenEdges(links, closed), perm, q)
  }

  lemma LeadsSelf(edges: Edges<u16>, p: u16)
    ensures Leads(edges, p, p)
  {
    assert IsWalk(edges, [p]);
  }

  lemma LeadsStep(edges: Edges<u16>, p: u16, q: u16, to: u16)
    requires (p, q) in edges && Leads(edges, q, to)
    ensures Leads(edges, p, to)
  {
    var w :| IsWalk(edges, w) && w[0] == q && w[|w| - 1] == to;
    assert IsWalk(edges, [p] + w);
  }

  lemma AheadShrinks(links: Links, closed: iset<u16>, p: u16, q: u16)
    requires Ends(links, closed, p) && (p, q) in OpenEdges(links, closed)
    ensures Ends(links, closed, q) && |Ahead(links, closed, q)| < |Ahead(links, closed, p)|
  {
    var edges := OpenEdges(links, closed);
    forall c | IsCycle(edges, c) ensures !Leads(edges, q, c[0]) {
      if Leads(edges, q, c[0]) {
        LeadsStep(edges, p, q, c[0]);
      }
    }
    forall x | x in Ahead(links, closed, q) ensures x in Ahead(links, closed, p) {
      LeadsStep(edges, p, q, x);
    }
    LeadsSelf(edges, p);
    if w :| IsWalk(edges, w) && w[0] == q && w[|w| - 1] == p {
      assert IsCycle(edges, [p] + w);
    }
    SubsetSize(Ahead(links, closed, q), Ahead(links, closed, p), p);
  }

  lemma SubsetSize(a: set<u16>, b: set<u16>, x: u16)
    requires a <= b && x in b && x !in a
    ensures |a| < |b|
  {
    assert b == a + (b - a) && x in b - a;
  }

  /** The permission reached by following n times the link that each set yields first. */
  ghost function Along(first: u16 -> u16, perm: u16, n: nat): u16 {
    if n == 0 then perm else first(Along(first, perm, n - 1))
  }

  /** An endless chain of calls, each on the first link of the permission before, which it does not decide. */
  ghost predicate Endless(links: Links, closed: iset<u16>, first: u16 -> u16, perm: u16) {
    forall i: nat :: (Along(first, perm, i), Along(first, perm, i + 1)) in OpenEdges(links, closed)
  }

  lemma {:induction false} ChainsEnd(links: Links, closed: iset<u16>, first: u16 -> u16, perm: u16, i: nat)
    requires Endless(links, closed, first, perm)
    ensures !Ends(links, closed, Along(first, perm, i))
    decreases |Ahead(links, closed, Along(first, perm, i))|
  {
    var p := Along(first, perm, i);
    if Ends(links, closed, p) {
      AheadShrinks(links, closed, p, Along(first, perm, i + 1));
      ChainsEnd(links, closed, first, perm, i + 1);
    }
  }

  /** From a permission that reaches such a cycle a link leads to another. */
  lemma HasWorse(links: Links, closed: iset<u16>, p: u16)
    requires !Ends(links, closed, p)
    ensures exists q :: (p, q) in OpenEdges(links, closed) && !Ends(links, closed, q)
  {
    var edges := OpenEdges(links, closed);
    var c :| IsCycle(edges, c) && Leads(edges, p, c[0]);
    var w :| IsWalk(edges, w) && w[0] == p && w[|w| - 1] == c[0];
    var rest := if |w| > 1 then w[1..] else c[1..];
    assert IsWalk(edges, rest);
    assert Leads(edges, rest[0], c[0]);
    assert (p, rest[0]) in edges by {
      assert |w| > 1 ==> (w[0], w[1]) in edges;
      assert (c[0], c[1]) in edges;
    }
  }

  ghost function Worse(links: Links, closed: iset<u16>, p: u16): (q: u16)
    ensures !Ends(links, closed, p) ==> (p, q) in OpenEdges(links, closed) && !Ends(links, closed, q)
  {
    if Ends(links, closed, p) then p
    else
      HasWorse(links, closed, p);
      var q :| (p, q) in OpenEdges(links, closed) && !Ends(links, closed, q);
      q
  }

  /** Along the worse links it goes on for ever. */
  lemma {:induction false} WorseEndless(links: Links, closed: iset<u16>, first: u16 -> u16, perm: u16, i: nat)
    requires !Ends(links, closed, perm)
    requires forall p | !Ends(links, closed, p) :: first(p) == Worse(links, closed, p)
    ensures !Ends(links, closed, Along(first, perm, i))
    ensures (Along(first, perm, i), Along(first, perm, i + 1)) in OpenEdges(links, closed)
  {
    if i > 0 {
      WorseEndless(links, closed, first, perm, i - 1);
    }
  }

  /**
   The link sets can be ordered so that such a chain starts at `perm` exactly when a
   cycle of undecided permissions is reached from it through such permissions.
   */
  lemma {:induction false} EndlessIff(links: Links, closed: iset<u16>, perm: u16)
    ensures (exists first: u16 -> u16 :: Endless(links, closed, first, perm)) <==> !Ends(links, closed, perm)
  {
    if first: u16 -> u16 :| Endless(links, closed, first, perm) {
      ChainsEnd(links, closed, first, perm, 0);
    } else if !Ends(links, closed, perm) {
      var first: u16 -> u16 := p => Worse(links, closed, p);
      forall i: nat ensures (Along(first, perm, i), Along(first, perm, i + 1)) in OpenEdges(links, closed) {
        WorseEndless(links, closed, first, perm, i);
      }
      assert Endless(links, closed, first, perm);
    }
  }

  /** Without any link cycle everything ends. */
  lemma AcyclicEnds(links: Links, closed: iset<u16>, perm: u16)
    requires Acyclic(LinkEdges(links))
    ensures Ends(links, closed, perm)
  {
    forall c ensures !IsCycle(OpenEdges(links, closed), c) {
      if IsCycle(OpenEdges(links, closed), c) {
        assert IsCycle(LinkEdges(links), c);
      }
    }
  }

  // ---- evaluation, as the code recurses ----

  /** What decides for a group: held or revoked. */
  ghost function GroupClosed(o: Overlay, group: GroupEntry): iset<u16> {
    iset p: u16 | p in Of(o.gidRevokes, group.gid) || p in group.permissions || p in Of(o.gidGrants, group.gid)
  }

  ghost predicate GroupEnds(store: UserStore, o: Overlay, gid: Id, perm: u16) {
    var group := GroupById(store.groups, gid);
    group.Some? ==> Ends(o.links, GroupClosed(o, group.value), perm)
  }

  ghost function GroupDepth(store: UserStore, o: Overlay, gid: Id, perm: u16): nat {
    var group := GroupById(store.groups, gid);
    if group.None? then 0 else |Ahead(o.links, GroupClosed(o, group.value), perm)|
  }

  lemma GroupStep(store: UserStore, o: Overlay, gid: Id, perm: u16, q: u16)
    requires GroupEnds(store, o, gid, perm) && GroupById(store.groups, gid).Some?
    requires perm !in GroupClosed(o, GroupById(store.groups, gid).value) && q in LinksOf(o.links, perm)
    ensures GroupEnds(store, o, gid, q) && GroupDepth(store, o, gid, q) < GroupDepth(store, o, gid, perm)
  {
    assert (perm, q) in LinkEdges(o.links);
    AheadShrinks(o.links, GroupClosed(o, GroupById(store.groups, gid).value), perm, q);
  }

  predicate GroupHas(store: UserStore, o: Overlay, gid: Id, perm: u16)
    requires GroupEnds(store, o, gid, perm)
    decreases GroupDepth(store, o, gid, perm)
  {
    var group := GroupById(store.groups, gid);
    if group.None? then false
    else if perm in Of(o.gidRevokes, gid) then false
    else
      || perm in group.value.permissions
      || perm in Of(o.gidGrants, gid)
      || exists q | q in LinksOf(o.links, perm) ::
           GroupStep(store, o, gid, perm, q); GroupHas(store, o, gid, q)
  }

  /** Without an open cycle, group_has is true exactly when a path leads to a permission the group holds, past none revoked. */
  lemma {:induction false} GroupHasIff(store: UserStore, o: Overlay, gid: Id, perm: u16)
    requires GroupEnds(store, o, gid, perm)
    ensures GroupHas(store, o, gid, perm) <==> GroupEntitled(store, o, gid, perm)
    decreases GroupDepth(store, o, gid, perm)
  {
    var group := GroupById(store.groups, gid);
    if group.Some? {
      ReachesStep(o.links, Of(o.gidRevokes, gid), GroupHolds(o, group.value), perm);
      if perm !in GroupClosed(o, group.value) {
        forall q | q in LinksOf(o.links, perm)
          ensures GroupEnds(store, o, gid, q) && (GroupHas(store, o, gid, q) <==> GroupEntitled(store, o, gid, q))
        {
          GroupStep(store, o, gid, perm, q);
          GroupHasIff(store, o, gid, q);
        }
      }
    }
  }

  /** What is decided for a user before its groups are asked. */
  ghost function DecidedFirst(store: UserStore, o: Overlay, user: UserRecord): iset<u16> {
    iset p: u16 |
      || p == 0
      || (p in o.groups && BelongsTo(store, user, o.groups[p]))
      || p in Of(o.uidRevokes, user.uid)
      || p in user.permissions || p in Of(o.uidGrants, user.uid)
  }

  ghost function UserClosed(store: UserStore, o: Overlay, user: UserRecord): iset<u16> {
    iset p: u16 | p in Of(o.uidRevokes, user.uid) || p in UserAccepts(store, o, user)
  }

  /** The k-th of the named groups is entitled to the permission. */
  ghost predicate EntitledAt(store: UserStore, o: Overlay, names: seq<string>, k: nat, perm: u16)
    requires k < |names|
  {
    var e := GroupByName(store.groups, names[k]);
    e.Some? && GroupEntitled(store, o, e.value.gid, perm)
  }

  /** The groups are asked in order, up to the first that has the permission. */
  ghost predicate Asked(store: UserStore, o: Overlay, names: seq<string>, k: nat, perm: u16)
    requires k <= |names|
  {
    forall j | 0 <= j < k :: !EntitledAt(store, o, names, j, perm)
  }

  ghost predicate EndsAt(store: UserStore, o: Overlay, names: seq<string>, k: nat, perm: u16)
    requires k < |names|
  {
    var e := GroupByName(store.groups, names[k]);
    e.Some? ==> GroupEnds(store, o, e.value.gid, perm)
  }

  /** Every group that is asked about the permission, if it comes to that, ends. */
  ghost predicate GroupsEnd(store: UserStore, o: Overlay, user: UserRecord, perm: u16) {
    var names := GroupsOf(store, user);
    perm in DecidedFirst(store, o, user) || AskedEnd(store, o, names, 0, perm)
  }

  /** Every group from the k-th on that is asked ends. */
  ghost predicate AskedEnd(store: UserStore, o: Overlay, names: seq<string>, k: nat, perm: u16) {
    forall j | k <= j < |names| && Asked(store, o, names, j, perm) :: EndsAt(store, o, names, j, perm)
  }

  /** No cycle of undecided permissions is reached, neither for the user nor for a group that is asked on the way. */
  ghost predicate UserEnds(store: UserStore, o: Overlay, uid: Id, perm: u16) {
    var user := LookupByUid(store.users, uid);
    uid != 0 && perm != 0 && user.Some? ==>
      && Ends(o.links, UserClosed(store, o, user.value), perm)
      && forall p | Leads(OpenEdges(o.links, UserClosed(store, o, user.value)), perm, p) :: GroupsEnd(store, o, user.value, p)
  }

  ghost function UserDepth(store: UserStore, o: Overlay, uid: Id, perm: u16): nat {
    var user := LookupByUid(store.users, uid);
    if user.None? then 0 else |Ahead(o.links, UserClosed(store, o, user.value), perm)|
  }

  lemma AcyclicUserEnds(store: UserStore, o: Overlay, uid: Id, perm: u16)
    requires Acyclic(LinkEdges(o.links))
    ensures UserEnds(store, o, uid, perm)
  {
    var user := LookupByUid(store.users, uid);
    if user.Some? {
      AcyclicEnds(o.links, UserClosed(store, o, user.value), perm);
      forall p: u16, gid: Id ensures GroupEnds(store, o, gid, p) {
        if GroupById(store.groups, gid).Some? {
          AcyclicEnds(o.links, GroupClosed(o, GroupById(store.groups, gid).value), p);
        }
      }
    }
  }

  lemma UserStep(store: UserStore, o: Overlay, uid: Id, perm: u16, q: u16)
    requires UserEnds(store, o, uid, perm) && uid != 0 && LookupByUid(store.users, uid).Some?
    requires perm !in UserClosed(store, o, LookupByUid(store.users, uid).value) && q in LinksOf(o.links, perm)
    ensures UserEnds(store, o, uid, q) && UserDepth(store, o, uid, q) < UserDepth(store, o, uid, perm)
  {
    var user := LookupByUid(store.users, uid).value;
    var edges := OpenEdges(o.links, UserClosed(store, o, user));
    assert (perm, q) in LinkEdges(o.links);
    AheadShrinks(o.links, UserClosed(store, o, user), perm, q);
    forall p | Leads(edges, q, p) ensures GroupsEnd(store, o, user, p) {
      LeadsStep(edges, perm, q, p);
    }
  }

  /** The groups are asked only where that ends. */
  lemma GroupsAsked(store: UserStore, o: Overlay, uid: Id, perm: u16)
    requires UserEnds(store, o, uid, perm) && uid != 0 && perm != 0 && LookupByUid(store.users, uid).Some?
    ensures GroupsEnd(store, o, LookupByUid(store.users, uid).value, perm)
  {
    LeadsSelf(OpenEdges(o.links, UserClosed(store, o, LookupByUid(store.users, uid).value)), perm);
  }

  /** The loop over the groups from the k-th on: it stops at the first that has the permission. */
  predicate AnyGroupHas(store: UserStore, o: Overlay, names: seq<string>, k: nat, perm: u16)
    requires k <= |names| && Asked(store, o, names, k, perm) && AskedEnd(store, o, names, k, perm)
    decreases |names| - k
  {
    if k == |names| then false
    else
      AskedHas(store, o, names, k, perm);
      var e := GroupByName(store.groups, names[k]);
      if e.Some? && GroupHas(store, o, e.value.gid, perm) then true
      else AnyGroupHas(store, o, names, k + 1, perm)
  }

  /** The group asked ends; without the permission the next one is asked. */
  lemma AskedHas(store: UserStore, o: Overlay, names: seq<string>, k: nat, perm: u16)
    requires k < |names| && Asked(store, o, names, k, perm) && AskedEnd(store, o, names, k, perm)
    ensures EndsAt(store, o, names, k, perm)
    ensures var e := GroupByName(store.groups, names[k]);
            if e.Some? && GroupHas(store, o, e.value.gid, perm) then EntitledAt(store, o, names, k, perm)
            else !EntitledAt(store, o, names, k, perm) && Asked(store, o, names, k + 1, perm) && AskedEnd(store, o, names, k + 1, perm)
  {
    assert EndsAt(store, o, names, k, perm);
    var e := GroupByName(store.groups, names[k]);
    if e.Some? {
      GroupHasIff(store, o, e.value.gid, perm);
    }
    assert EntitledAt(store, o, names, k, perm) <==> e.Some? && GroupHas(store, o, e.value.gid, perm);
    if !EntitledAt(store, o, names, k, perm) {
      AskNext(store, o, names, k, perm);
    }
  }

  lemma AskNext(store: UserStore, o: Overlay, names: seq<string>, k: nat, perm: u16)
    requires k < |names| && Asked(store, o, names, k, perm) && AskedEnd(store, o, names, k, perm) && !EntitledAt(store, o, names, k, perm)
    ensures Asked(store, o, names, k + 1, perm) && AskedEnd(store, o, names, k + 1, perm)
  {
    forall j | k + 1 <= j < |names| && Asked(store, o, names, j, perm) ensures EndsAt(store, o, names, j, perm) {
    }
  }

  lemma {:induction false} AnyGroupHasIff(store: UserStore, o: Overlay, names: seq<string>, k: nat, perm: u16)
    requires k <= |names| && Asked(store, o, names, k, perm) && AskedEnd(store, o, names, k, perm)
    ensures AnyGroupHas(store, o, names, k, perm) <==> EntitledFrom(store, o, names, k, perm)
    decreases |names| - k
  {
    if k < |names| {
      AskedHas(store, o, names, k, perm);
      if !EntitledAt(store, o, names, k, perm) {
        AnyGroupHasIff(store, o, names, k + 1, perm);
      }
      FromStep(store, o, names, k, perm);
    }
  }

  ghost predicate EntitledFrom(store: UserStore, o: Overlay, names: seq<string>, k: nat, perm: u16) {
    exists j :: k <= j < |names| && EntitledAt(store, o, names, j, perm)
  }

  lemma FromStep(store: UserStore, o: Overlay, names: seq<string>, k: nat, perm: u16)
    requires k < |names|
    ensures EntitledFrom(store, o, names, k, perm) <==> EntitledAt(store, o, names, k, perm) || EntitledFrom(store, o, names, k + 1, perm)
  {
  }

  /** Some group of the list is entitled exactly when the user is entitled through a group. */
  lemma EntitledByName(store: UserStore, o: Overlay, user: UserRecord, perm: u16)
    ensures var names := GroupsOf(store, user);
            ThroughGroup(store, o, user, perm) <==> EntitledFrom(store, o, names, 0, perm)
  {
    var names := GroupsOf(store, user);
    GroupsOfAre(store, user);
    if g :| g in store.groups && BelongsTo(store, user, g.name) && GroupByName(store.groups, g.name) == Some(g) && GroupEntitled(store, o, g.gid, perm) {
      assert g.name in names;
      var j :| 0 <= j < |names| && names[j] == g.name;
      assert EntitledAt(store, o, names, j, perm);
    }
    if j :| 0 <= j < |names| && EntitledAt(store, o, names, j, perm) {
      var e := GroupByName(store.groups, names[j]);
      assert names[j] in names && e.value in store.groups && e.value.name == names[j];
    }
  }

  lemma ThroughGroupIff(store: UserStore, o: Overlay, user: UserRecord, perm: u16)
    requires GroupsEnd(store, o, user, perm) && perm !in DecidedFirst(store, o, user)
    ensures AnyGroupHas(store, o, GroupsOf(store, user), 0, perm) <==> ThroughGroup(store, o, user, perm)
  {
    AnyGroupHasIff(store, o, GroupsOf(store, user), 0, perm);
    EntitledByName(store, o, user, perm);
  }

  predicate UserHas(store: UserStore, o: Overlay, uid: Id, perm: u16)
    requires UserEnds(store, o, uid, perm)
    decreases UserDepth(store, o, uid, perm)
  {
    if uid == 0 || perm == 0 then true
    else
      var user := LookupByUid(store.users, uid);
      if user.None? then false
      else
        GroupsAsked(store, o, uid, perm);
        GroupsOfAre(store, user.value);
        var groups := GroupsOf(store, user.value);
        if perm in o.groups && o.groups[perm] in groups then true
        else if perm in Of(o.uidRevokes, uid) then false
        else
          || perm in user.value.permissions
          || perm in Of(o.uidGrants, uid)
          || AnyGroupHas(store, o, groups, 0, perm)
          || exists q | q in LinksOf(o.links, perm) ::
               ThroughGroupIff(store, o, user.value, perm); UserStep(store, o, uid, perm, q); UserHas(store, o, uid, q)
  }

  /** Without an open cycle, user_has is true exactly when a path leads to a permission that decides for the user, past none revoked. */
  lemma {:induction false} UserHasIff(store: UserStore, o: Overlay, uid: Id, perm: u16)
    requires UserEnds(store, o, uid, perm)
    ensures UserHas(store, o, uid, perm) <==> UserEntitled(store, o, uid, perm)
    decreases UserDepth(store, o, uid, perm)
  {
    var user := LookupByUid(store.users, uid);
    if uid != 0 && perm != 0 && user.Some? {
      GroupsOfAre(store, user.value);
      GroupsAsked(store, o, uid, perm);
      if perm !in DecidedFirst(store, o, user.value) {
        ThroughGroupIff(store, o, user.value, perm);
      }
      ReachesStep(o.links, Of(o.uidRevokes, uid), UserAccepts(store, o, user.value), perm);
      if perm !in UserClosed(store, o, user.value) {
        forall q | q in LinksOf(o.links, perm)
          ensures UserEnds(store, o, uid, q) && (UserHas(store, o, uid, q) <==> Reaches(o.links, Of(o.uidRevokes, uid), UserAccepts(store, o, user.value), q))
        {
          UserStep(store, o, uid, perm, q);
          UserHasIff(store, o, uid, q);
          ReachesStep(o.links, Of(o.uidRevokes, uid), UserAccepts(store, o, user.value), q);
        }
      }
    }
  }

  // ---- exactly where an evaluation may not end ----

  /** A call of user_has for the user at hand, or of group_has. */
  datatype Call = UserCall(perm: u16) | GroupCall(gid: Id, perm: u16)

  /** The group of this id is asked about the permission on behalf of the user. */
  ghost predicate IsAsked(store: UserStore, o: Overlay, user: UserRecord, gid: Id, perm: u16) {
    var names := GroupsOf(store, user);
    exists k :: 0 <= k < |names| && Asked(store, o, names, k, perm) && NamesGroup(store, names[k], gid)
  }

  predicate NamesGroup(store: UserStore, name: string, gid: Id) {
    var e := GroupByName(store.groups, name);
    e.Some? && e.value.gid == gid
  }

  /** c makes the call d, when `first` is what each link set yields first. */
  ghost predicate Makes(store: UserStore, o: Overlay, user: UserRecord, first: u16 -> u16, c: Call, d: Call) {
    match c
    case UserCall(p) =>
      (match d
       case UserCall(q) => q == first(p) && (p, q) in OpenEdges(o.links, UserClosed(store, o, user))
       case GroupCall(gid, q) => q == p && p !in DecidedFirst(store, o, user) && IsAsked(store, o, user, gid, p))
    case GroupCall(gid, p) =>
      && d == GroupCall(gid, first(p)) && GroupById(store.groups, gid).Some?
      && (p, first(p)) in OpenEdges(o.links, GroupClosed(o, GroupById(store.groups, gid).value))
  }

  ghost predicate NestsOn(store: UserStore, o: Overlay, user: UserRecord, first: u16 -> u16, chain: nat -> Call) {
    forall i: nat :: Makes(store, o, user, first, chain(i), chain(i + 1))
  }

  /** In some order of the link sets user_has calls itself and group_has ever deeper. */
  ghost predicate MayNotEnd(store: UserStore, o: Overlay, uid: Id, perm: u16) {
    var user := LookupByUid(store.users, uid);
    uid != 0 && user.Some? && MayNest(store, o, user.value, perm)
  }

  ghost predicate MayNest(store: UserStore, o: Overlay, user: UserRecord, perm: u16) {
    exists first: u16 -> u16, chain: nat -> Call :: NestsOn(store, o, user, first, chain) && chain(0) == UserCall(perm)
  }

  // -- where it ends, it always does --

  lemma {:induction false} GroupChain(store: UserStore, o: Overlay, user: UserRecord, first: u16 -> u16, chain: nat -> Call, n: nat, i: nat)
    requires NestsOn(store, o, user, first, chain) && chain(n).GroupCall?
    ensures chain(n + i) == GroupCall(chain(n).gid, Along(first, chain(n).perm, i))
  {
    if i > 0 {
      GroupChain(store, o, user, first, chain, n, i - 1);
      assert Makes(store, o, user, first, chain(n + (i - 1)), chain(n + (i - 1) + 1));
    }
  }

  /** Once in a group it stays there, so the group does not end. */
  lemma {:induction false} GroupNests(store: UserStore, o: Overlay, user: UserRecord, first: u16 -> u16, chain: nat -> Call, n: nat)
    requires NestsOn(store, o, user, first, chain) && chain(n).GroupCall?
    ensures !GroupEnds(store, o, chain(n).gid, chain(n).perm)
  {
    var gid, p := chain(n).gid, chain(n).perm;
    assert Makes(store, o, user, first, chain(n), chain(n + 1));
    var closed := GroupClosed(o, GroupById(store.groups, gid).value);
    forall i: nat ensures (Along(first, p, i), Along(first, p, i + 1)) in OpenEdges(o.links, closed) {
      GroupChain(store, o, user, first, chain, n, i);
      assert Makes(store, o, user, first, chain(n + i), chain(n + i + 1));
    }
    assert Endless(o.links, closed, first, p);
    EndlessIff(o.links, closed, p);
  }

  lemma {:induction false} UserNests(store: UserStore, o: Overlay, uid: Id, first: u16 -> u16, chain: nat -> Call, n: nat)
    requires uid != 0 && LookupByUid(store.users, uid).Some? && chain(n).UserCall?
    requires NestsOn(store, o, LookupByUid(store.users, uid).value, first, chain)
    ensures !UserEnds(store, o, uid, chain(n).perm)
    decreases UserDepth(store, o, uid, chain(n).perm)
  {
    var user, p := LookupByUid(store.users, uid).value, chain(n).perm;
    assert Makes(store, o, user, first, chain(n), chain(n + 1));
    if UserEnds(store, o, uid, p) {
      if chain(n + 1).UserCall? {
        UserStep(store, o, uid, p, first(p));
        UserNests(store, o, uid, first, chain, n + 1);
      } else {
        var names := GroupsOf(store, user);
        var k :| 0 <= k < |names| && Asked(store, o, names, k, p) && NamesGroup(store, names[k], chain(n + 1).gid);
        GroupsAsked(store, o, uid, p);
        assert EndsAt(store, o, names, k, p);
        GroupNests(store, o, user, first, chain, n + 1);
      }
    }
  }

  // -- where it does not, there is such an order --

  /** A group that is asked here does not end. */
  ghost predicate Sticks(store: UserStore, o: Overlay, user: UserRecord, gid: Id, perm: u16) {
    perm !in DecidedFirst(store, o, user) && IsAsked(store, o, user, gid, perm) && !GroupEnds(store, o, gid, perm)
  }

  ghost predicate StuckAt(store: UserStore, o: Overlay, user: UserRecord, perm: u16) {
    exists gid :: Sticks(store, o, user, gid, perm)
  }

  lemma SticksSomewhere(store: UserStore, o: Overlay, user: UserRecord, perm: u16)
    requires !GroupsEnd(store, o, user, perm)
    ensures StuckAt(store, o, user, perm)
  {
    var names := GroupsOf(store, user);
    var k :| 0 <= k < |names| && Asked(store, o, names, k, perm) && !EndsAt(store, o, names, k, perm);
    var gid := GroupByName(store.groups, names[k]).value.gid;
    assert NamesGroup(store, names[k], gid);
    assert Sticks(store, o, user, gid, perm);
  }

  /** Where a user's permission is open every group is asked: none of them has it. */
  lemma OpenAsksAll(store: UserStore, o: Overlay, user: UserRecord, gid: Id, perm: u16, other: u16)
    requires perm !in UserClosed(store, o, user) && IsAsked(store, o, user, gid, other)
    ensures perm !in DecidedFirst(store, o, user) && IsAsked(store, o, user, gid, perm)
  {
    EntitledByName(store, o, user, perm);
    var names := GroupsOf(store, user);
    var k :| 0 <= k < |names| && Asked(store, o, names, k, other) && NamesGroup(store, names[k], gid);
    assert Asked(store, o, names, k, perm);
  }

  /** A walk to a permission in `stuck`, with none of those before it and nothing twice. */
  ghost predicate Approach(edges: Edges<u16>, stuck: iset<u16>, w: seq<u16>) {
    && IsWalk(edges, w) && w[|w| - 1] in stuck
    && (forall i | 0 <= i < |w| - 1 :: w[i] !in stuck)
    && forall i, j | 0 <= i < j < |w| :: w[i] != w[j]
  }

  lemma CutWalk(edges: Edges<u16>, w: seq<u16>, i: nat, j: nat)
    requires IsWalk(edges, w) && i < j < |w| && w[i] == w[j]
    ensures var cut := w[..i] + w[j..]; IsWalk(edges, cut) && cut[0] == w[0] && cut[|cut| - 1] == w[|w| - 1]
  {
    var cut := w[..i] + w[j..];
    forall k | 0 <= k < |cut| - 1 ensures (cut[k], cut[k + 1]) in edges {
      if k + 1 < i {
        assert (w[k], w[k + 1]) in edges;
      } else if k + 1 == i {
        assert (w[k], w[k + 1]) in edges && cut[k + 1] == w[j];
      } else {
        var m := k - i + j;
        assert cut[k] == w[m] && cut[k + 1] == w[m + 1] && (w[m], w[m + 1]) in edges;
      }
    }
  }

  lemma {:induction false} FindApproach(edges: Edges<u16>, stuck: iset<u16>, w: seq<u16>) returns (v: seq<u16>)
    requires IsWalk(edges, w) && w[|w| - 1] in stuck
    ensures Approach(edges, stuck, v) && v[0] == w[0]
    decreases |w|
  {
    if i :| 0 <= i < |w| - 1 && w[i] in stuck {
      v := FindApproach(edges, stuck, w[..i + 1]);
    } else if i, j :| 0 <= i < j < |w| && w[i] == w[j] {
      CutWalk(edges, w, i, j);
      v := FindApproach(edges, stuck, w[..i] + w[j..]);
    } else {
      v := w;
    }
  }

  ghost function Stuck(store: UserStore, o: Overlay, user: UserRecord): iset<u16> {
    iset p: u16 | StuckAt(store, o, user, p)
  }

  ghost predicate UserApproach(store: UserStore, o: Overlay, user: UserRecord, w: seq<u16>) {
    Approach(OpenEdges(o.links, UserClosed(store, o, user)), Stuck(store, o, user), w)
  }

  ghost function IndexIn(w: seq<u16>, p: u16): (i: nat)
    ensures i <= |w| && (i < |w| ==> w[i] == p) && forall j | 0 <= j < i :: w[j] != p
  {
    if w == [] || w[0] == p then 0 else 1 + IndexIn(w[1..], p)
  }

  /** Along the approach, and off it along the worse links of the group. */
  ghost function FirstOf(links: Links, closed: iset<u16>, w: seq<u16>, p: u16): u16 {
    var i := IndexIn(w, p);
    if i + 1 < |w| then w[i + 1] else Worse(links, closed, p)
  }

  ghost function ChainOf(first: u16 -> u16, gid: Id, w: seq<u16>, i: nat): Call
    requires |w| > 0
  {
    if i < |w| then UserCall(w[i]) else GroupCall(gid, Along(first, w[|w| - 1], i - |w|))
  }

  /** The group's chain never comes back to the approach: it would have stuck there already. */
  lemma {:induction false} StaysOff(store: UserStore, o: Overlay, user: UserRecord, w: seq<u16>, gid: Id, first: u16 -> u16, i: nat)
    requires UserApproach(store, o, user, w) && Sticks(store, o, user, gid, w[|w| - 1])
    requires forall p :: first(p) == FirstOf(o.links, GroupClosed(o, GroupById(store.groups, gid).value), w, p)
    ensures var closed := GroupClosed(o, GroupById(store.groups, gid).value); var p := Along(first, w[|w| - 1], i);
            !Ends(o.links, closed, p) && first(p) == Worse(o.links, closed, p)
  {
    var closed := GroupClosed(o, GroupById(store.groups, gid).value);
    var p := Along(first, w[|w| - 1], i);
    if i > 0 {
      StaysOff(store, o, user, w, gid, first, i - 1);
    }
    var k := IndexIn(w, p);
    if k + 1 < |w| {
      assert (w[k], w[k + 1]) in OpenEdges(o.links, UserClosed(store, o, user));
      OpenAsksAll(store, o, user, gid, p, w[|w| - 1]);
      assert Sticks(store, o, user, gid, w[k]) && StuckAt(store, o, user, w[k]);
    }
  }

  ghost function FirstFunction(links: Links, closed: iset<u16>, w: seq<u16>): (first: u16 -> u16)
    ensures forall p :: first(p) == FirstOf(links, closed, w, p)
  {
    p => FirstOf(links, closed, w, p)
  }

  ghost function ChainFunction(first: u16 -> u16, gid: Id, w: seq<u16>): (chain: nat -> Call)
    requires |w| > 0
    ensures forall i: nat :: chain(i) == ChainOf(first, gid, w, i)
  {
    (i: nat) => ChainOf(first, gid, w, i)
  }

  lemma AlongApproach(links: Links, closed: iset<u16>, w: seq<u16>, i: nat)
    requires i + 1 < |w| && forall i, j | 0 <= i < j < |w| :: w[i] != w[j]
    ensures FirstOf(links, closed, w, w[i]) == w[i + 1]
  {
    assert IndexIn(w, w[i]) == i;
  }

  lemma {:induction false} UserMakes(store: UserStore, o: Overlay, user: UserRecord, w: seq<u16>, gid: Id, first: u16 -> u16, i: nat)
    requires UserApproach(store, o, user, w) && i + 1 < |w| && first(w[i]) == w[i + 1]
    ensures Makes(store, o, user, first, ChainOf(first, gid, w, i), ChainOf(first, gid, w, i + 1))
  {
    var edges := OpenEdges(o.links, UserClosed(store, o, user));
    assert (w[i], w[i + 1]) in edges;
  }

  lemma {:induction false} GroupMakes(store: UserStore, o: Overlay, user: UserRecord, w: seq<u16>, gid: Id, first: u16 -> u16, i: nat)
    requires |w| > 0 && i >= |w| && GroupById(store.groups, gid).Some?
    requires var p := Along(first, w[|w| - 1], i - |w|);
             (p, first(p)) in OpenEdges(o.links, GroupClosed(o, GroupById(store.groups, gid).value))
    ensures Makes(store, o, user, first, ChainOf(first, gid, w, i), ChainOf(first, gid, w, i + 1))
  {
  }

  lemma {:induction false} EnterMakes(store: UserStore, o: Overlay, user: UserRecord, w: seq<u16>, gid: Id, first: u16 -> u16)
    requires |w| > 0 && Sticks(store, o, user, gid, w[|w| - 1])
    ensures Makes(store, o, user, first, ChainOf(first, gid, w, |w| - 1), ChainOf(first, gid, w, |w|))
  {
  }

  lemma {:induction false} NextMakes(store: UserStore, o: Overlay, user: UserRecord, w: seq<u16>, gid: Id, first: u16 -> u16, i: nat)
    requires UserApproach(store, o, user, w) && Sticks(store, o, user, gid, w[|w| - 1])
    requires first == FirstFunction(o.links, GroupClosed(o, GroupById(store.groups, gid).value), w)
    ensures Makes(store, o, user, first, ChainOf(first, gid, w, i), ChainOf(first, gid, w, i + 1))
  {
    if i + 1 < |w| {
      AlongApproach(o.links, GroupClosed(o, GroupById(store.groups, gid).value), w, i);
      UserMakes(store, o, user, w, gid, first, i);
    } else if i + 1 == |w| {
      EnterMakes(store, o, user, w, gid, first);
    } else {
      StaysOff(store, o, user, w, gid, first, i - |w|);
      GroupMakes(store, o, user, w, gid, first, i);
    }
  }

  lemma {:induction false} ChainNests(store: UserStore, o: Overlay, user: UserRecord, w: seq<u16>, gid: Id, first: u16 -> u16)
    requires UserApproach(store, o, user, w) && Sticks(store, o, user, gid, w[|w| - 1])
    requires first == FirstFunction(o.links, GroupClosed(o, GroupById(store.groups, gid).value), w)
    ensures MayNest(store, o, user, w[0])
  {
    var chain := ChainFunction(first, gid, w);
    forall i: nat ensures Makes(store, o, user, first, chain(i), chain(i + 1)) {
      NextMakes(store, o, user, w, gid, first, i);
    }
    assert NestsOn(store, o, user, first, chain);
  }

  lemma {:induction false} CycleNests(store: UserStore, o: Overlay, user: UserRecord, perm: u16)
    requires !Ends(o.links, UserClosed(store, o, user), perm)
    ensures MayNest(store, o, user, perm)
  {
    var closed := UserClosed(store, o, user);
    EndlessIff(o.links, closed, perm);
    var first: u16 -> u16 :| Endless(o.links, closed, first, perm);
    var chain: nat -> Call := (i: nat) => UserCall(Along(first, perm, i));
    forall i: nat ensures Makes(store, o, user, first, chain(i), chain(i + 1)) {
      assert (Along(first, perm, i), Along(first, perm, i + 1)) in OpenEdges(o.links, closed);
    }
    assert NestsOn(store, o, user, first, chain) && chain(0) == UserCall(perm);
  }

  /**
   The link sets can be ordered so that user_has never returns exactly when a cycle
   of undecided permissions is reached, for the user or for a group that is asked
   on the way.
   */
  lemma {:induction false} MayNotEndIff(store: UserStore, o: Overlay, uid: Id, perm: u16)
    ensures MayNotEnd(store, o, uid, perm) <==> !UserEnds(store, o, uid, perm)
  {
    if MayNotEnd(store, o, uid, perm) {
      var user := LookupByUid(store.users, uid).value;
      var first: u16 -> u16, chain: nat -> Call :| NestsOn(store, o, user, first, chain) && chain(0) == UserCall(perm);
      UserNests(store, o, uid, first, chain, 0);
    } else if !UserEnds(store, o, uid, perm) {
      var user := LookupByUid(store.users, uid).value;
      var edges := OpenEdges(o.links, UserClosed(store, o, user));
      if Ends(o.links, UserClosed(store, o, user), perm) {
        var p :| Leads(edges, perm, p) && !GroupsEnd(store, o, user, p);
        SticksSomewhere(store, o, user, p);
        var w :| IsWalk(edges, w) && w[0] == perm && w[|w| - 1] == p;
        var v := FindApproach(edges, Stuck(store, o, user), w);
        assert StuckAt(store, o, user, v[|v| - 1]);
        var gid :| Sticks(store, o, user, gid, v[|v| - 1]);
        ChainNests(store, o, user, v, gid, FirstFunction(o.links, GroupClosed(o, GroupById(store.groups, gid).value), v));
      } else {
        CycleNests(store, o, user, perm);
      }
    }
  }

  // ---- permission expressions ----

  datatype PermissionExpr = All | AnyOf(exprs: seq<PermissionExpr>) | Exact(exprs: seq<PermissionExpr>)
    | Group(name: string) | Perm(perm: u16) | RootOnly

  /** What an expression says, by entitlement. */
  ghost predicate ExprHolds(store: UserStore, o: Overlay, uid: Id, e: PermissionExpr, groups: seq<string>) {
    match e
    case All => true
    case Perm(p) => UserEntitled(store, o, uid, p)
    case Group(name) => name in groups
    case AnyOf(es) => exists i | 0 <= i < |es| :: ExprHolds(store, o, uid, es[i], groups)
    case Exact(es) => forall i | 0 <= i < |es| :: ExprHolds(store, o, uid, es[i], groups)
    case RootOnly => uid == 0
  }

  /** Every part that evaluation comes to ends: it stops at the first that settles an AnyOf or Exact. */
  ghost predicate ExprEnds(store: UserStore, o: Overlay, uid: Id, e: PermissionExpr, groups: seq<string>) {
    match e
    case Perm(p) => UserEnds(store, o, uid, p)
    case AnyOf(es) =>
      forall i | 0 <= i < |es| && (forall j | 0 <= j < i :: !ExprHolds(store, o, uid, es[j], groups)) :: ExprEnds(store, o, uid, es[i], groups)
    case Exact(es) =>
      forall i | 0 <= i < |es| && (forall j | 0 <= j < i :: ExprHolds(store, o, uid, es[j], groups)) :: ExprEnds(store, o, uid, es[i], groups)
    case _ => true
  }

  function EvalExpr(store: UserStore, o: Overlay, uid: Id, e: PermissionExpr, groups: seq<string>): (holds: bool)
    requires ExprEnds(store, o, uid, e, groups)
    ensures holds == ExprHolds(store, o, uid, e, groups)
    decreases e, if e.AnyOf? || e.Exact? then |e.exprs| + 1 else 0
  {
    match e
    case All => true
    case Perm(p) => UserHasIff(store, o, uid, p); UserHas(store, o, uid, p)
    case Group(name) => name in groups
    case AnyOf(es) => EvalUntil(store, o, uid, e, 0, groups, true)
    case Exact(es) => !EvalUntil(store, o, uid, e, 0, groups, false)
    case RootOnly => uid == 0
  }

  /** Whether some part from the k-th on has the value `settles`; the parts after it are not evaluated. */
  function EvalUntil(store: UserStore, o: Overlay, uid: Id, e: PermissionExpr, k: nat, groups: seq<string>, settles: bool): (found: bool)
    requires (e.AnyOf? || e.Exact?) && k <= |e.exprs|
    requires forall j | 0 <= j < k :: ExprHolds(store, o, uid, e.exprs[j], groups) != settles
    requires forall i | k <= i < |e.exprs| && (forall j | 0 <= j < i :: ExprHolds(store, o, uid, e.exprs[j], groups) != settles) ::
               ExprEnds(store, o, uid, e.exprs[i], groups)
    ensures found <==> exists i | k <= i < |e.exprs| :: ExprHolds(store, o, uid, e.exprs[i], groups) == settles
    decreases e, |e.exprs| - k
  {
    if k == |e.exprs| then false
    else if EvalExpr(store, o, uid, e.exprs[k], groups) == settles then true
    else EvalUntil(store, o, uid, e, k + 1, groups, settles)
  }

  /** None of it is evaluated for root or an unknown user. */
  ghost predicate CheckEnds(store: UserStore, o: Overlay, uid: Id, e: PermissionExpr) {
    var user := LookupByUid(store.users, uid);
    uid != 0 && user.Some? ==> ExprEnds(store, o, uid, e, GroupsOf(store, user.value))
  }

  predicate UserCheck(store: UserStore, o: Overlay, uid: Id, e: PermissionExpr)
    requires CheckEnds(store, o, uid, e)
  {
    if uid == 0 then true
    else
      var user := LookupByUid(store.users, uid);
      user.Some? && EvalExpr(store, o, uid, e, GroupsOf(store, user.value))
  }

  // ---- granting only widens, revoking only narrows ----

  ghost predicate Within(a: PermMap, b: PermMap) {
    forall id :: Of(a, id) <= Of(b, id)
  }

  /** b grants at least what a grants and revokes at most what a revokes; links and group ties agree. */
  ghost predicate Wider(a: Overlay, b: Overlay) {
    && a.links == b.links && a.groups == b.groups
    && Within(a.uidGrants, b.uidGrants) && Within(a.gidGrants, b.gidGrants)
    && Within(b.uidRevokes, a.uidRevokes) && Within(b.gidRevokes, a.gidRevokes)
  }

  lemma ReachesWidens(links: Links, revoked: set<u16>, accepts: iset<u16>, revoked': set<u16>, accepts': iset<u16>, perm: u16)
    requires revoked' <= revoked && accepts <= accepts' && Reaches(links, revoked, accepts, perm)
    ensures Reaches(links, revoked', accepts', perm)
  {
    var w :| Route(links, revoked, accepts, w) && w[0] == perm;
    assert Route(links, revoked', accepts', w);
  }

  lemma GroupWidens(store: UserStore, a: Overlay, b: Overlay, gid: Id, perm: u16)
    requires Wider(a, b) && GroupEntitled(store, a, gid, perm)
    ensures GroupEntitled(store, b, gid, perm)
  {
    var group := GroupById(store.groups, gid).value;
    assert Of(b.gidRevokes, gid) <= Of(a.gidRevokes, gid) && Of(a.gidGrants, gid) <= Of(b.gidGrants, gid);
    ReachesWidens(a.links, Of(a.gidRevokes, gid), GroupHolds(a, group), Of(b.gidRevokes, gid), GroupHolds(b, group), perm);
  }

  lemma AcceptsWiden(store: UserStore, a: Overlay, b: Overlay, user: UserRecord, p: u16)
    requires Wider(a, b) && p in UserAccepts(store, a, user)
    ensures p in UserAccepts(store, b, user)
  {
    assert Of(b.uidRevokes, user.uid) <= Of(a.uidRevokes, user.uid) && Of(a.uidGrants, user.uid) <= Of(b.uidGrants, user.uid);
    if ThroughGroup(store, a, user, p) {
      var g :| g in store.groups && BelongsTo(store, user, g.name) && GroupByName(store.groups, g.name) == Some(g) && GroupEntitled(store, a, g.gid, p);
      GroupWidens(store, a, b, g.gid, p);
    }
  }

  lemma EntitledWidens(store: UserStore, a: Overlay, b: Overlay, uid: Id, perm: u16)
    requires Wider(a, b) && UserEntitled(store, a, uid, perm)
    ensures UserEntitled(store, b, uid, perm)
  {
    if uid != 0 && perm != 0 {
      var user := LookupByUid(store.users, uid).value;
      forall p | p in UserAccepts(store, a, user) ensures p in UserAccepts(store, b, user) {
        AcceptsWiden(store, a, b, user, p);
      }
      assert Of(b.uidRevokes, uid) <= Of(a.uidRevokes, uid);
      ReachesWidens(a.links, Of(a.uidRevokes, uid), UserAccepts(store, a, user), Of(b.uidRevokes, uid), UserAccepts(store, b, user), perm);
    }
  }

  lemma {:induction false} ExprWidens(store: UserStore, a: Overlay, b: Overlay, uid: Id, e: PermissionExpr, groups: seq<string>)
    requires Wider(a, b) && ExprHolds(store, a, uid, e, groups)
    ensures ExprHolds(store, b, uid, e, groups)
    decreases e
  {
    match e
    case All =>
    case Group(_) =>
    case RootOnly =>
    case Perm(p) => EntitledWidens(store, a, b, uid, p);
    case AnyOf(es) =>
      var i :| 0 <= i < |es| && ExprHolds(store, a, uid, es[i], groups);
      ExprWidens(store, a, b, uid, es[i], groups);
    case Exact(es) =>
      forall i | 0 <= i < |es| ensures ExprHolds(store, b, uid, es[i], groups) {
        ExprWidens(store, a, b, uid, es[i], groups);
      }
  }

  /** A check that a user passes is not failed after more is granted or less revoked. */
  lemma {:induction false} CheckWidens(store: UserStore, a: Overlay, b: Overlay, uid: Id, e: PermissionExpr)
    requires Wider(a, b) && CheckEnds(store, a, uid, e) && CheckEnds(store, b, uid, e) && UserCheck(store, a, uid, e)
    ensures UserCheck(store, b, uid, e)
  {
    if uid != 0 {
      ExprWidens(store, a, b, uid, e, GroupsOf(store, LookupByUid(store.users, uid).value));
    }
  }

  // ---- tying a permission to a group ----

  /** A link path of unrevoked permissions to this one. */
  ghost predicate ReachesPerm(links: Links, revoked: set<u16>, from: u16, perm: u16) {
    Reaches(links, revoked, iset{perm}, from)
  }

  lemma ReachesEither(links: Links, revoked: set<u16>, accepts: iset<u16>, perm: u16, from: u16)
    ensures Reaches(links, revoked, accepts + iset{perm}, from) <==> Reaches(links, revoked, accepts, from) || ReachesPerm(links, revoked, from, perm)
  {
    if w :| Route(links, revoked, accepts + iset{perm}, w) && w[0] == from {
      assert Route(links, revoked, accepts, w) || Route(links, revoked, iset{perm}, w);
    }
    if w :| Route(links, revoked, accepts, w) && w[0] == from {
      assert Route(links, revoked, accepts + iset{perm}, w);
    }
    if w :| Route(links, revoked, iset{perm}, w) && w[0] == from {
      assert Route(links, revoked, accepts + iset{perm}, w);
    }
  }

  function Tied(o: Overlay, perm: u16, group: string): Overlay {
    o.(groups := o.groups[perm := group])
  }

  function Untied(o: Overlay, perm: u16): Overlay {
    o.(groups := o.groups - {perm})
  }

  ghost predicate IsMember(store: UserStore, uid: Id, group: string) {
    var user := LookupByUid(store.users, uid);
    user.Some? && BelongsTo(store, user.value, group)
  }

  /** The tie replaces the permission's former one and adds exactly what its group's members reach through unrevoked links. */
  ghost predicate TieGives(store: UserStore, before: Overlay, after: Overlay, perm: u16, group: string, uid: Id, p: u16) {
    UserEntitled(store, after, uid, p) <==>
      || UserEntitled(store, Untied(before, perm), uid, p)
      || (IsMember(store, uid, group) && ReachesPerm(before.links, Of(before.uidRevokes, uid), p, perm))
  }

  lemma TiedAccepts(store: UserStore, o: Overlay, perm: u16, group: string, user: UserRecord)
    ensures UserAccepts(store, Tied(o, perm, group), user) ==
              UserAccepts(store, Untied(o, perm), user) + if BelongsTo(store, user, group) then iset{perm} else iset{}
  {
    forall p: u16 ensures ThroughGroup(store, Tied(o, perm, group), user, p) == ThroughGroup(store, Untied(o, perm), user, p) {
      forall gid: Id ensures GroupEntitled(store, Tied(o, perm, group), gid, p) == GroupEntitled(store, Untied(o, perm), gid, p) {
      }
    }
  }

  lemma TieEntitlesIff(store: UserStore, o: Overlay, perm: u16, group: string, uid: Id, p: u16)
    ensures TieGives(store, o, Tied(o, perm, group), perm, group, uid, p)
  {
    if LookupByUid(store.users, uid).Some? {
      var user := LookupByUid(store.users, uid).value;
      TiedAccepts(store, o, perm, group, user);
      var accepts := UserAccepts(store, Untied(o, perm), user);
      ReachesEither(o.links, Of(o.uidRevokes, uid), accepts, perm, p);
      assert accepts + iset{} == accepts;
    }
  }

  // ---- linking ----

  function Linked(links: Links, perm: u16, parent: u16): Links {
    if perm in LinksOf(links, parent) then links else links[perm := LinksOf(links, perm) + {parent}]
  }

  lemma LinkedEdges(links: Links, perm: u16, parent: u16)
    requires perm !in LinksOf(links, parent)
    ensures LinkEdges(Linked(links, perm, parent)) == LinkEdges(links) + {(perm, parent)}
  {
    var l := Linked(links, perm, parent);
    forall p, q ensures (p, q) in LinkEdges(l) <==> (p, q) in LinkEdges(links) || (p, q) == (perm, parent) {
      assert LinksOf(l, p) == LinksOf(links, p) + if p == perm then {parent} else {};
    }
  }

  lemma {:induction false} RankBound(rank: map<u16, nat>, nodes: set<u16>) returns (bound: nat)
    requires nodes <= rank.Keys
    ensures forall p | p in nodes :: rank[p] < bound
    decreases nodes
  {
    if nodes == {} {
      bound := 0;
    } else {
      var p :| p in nodes;
      var b := RankBound(rank, nodes - {p});
      bound := if b > rank[p] then b else rank[p] + 1;
    }
  }

  /** Everything that `parent` leads to keeps its rank, everything else is lifted above it: the new link falls too. */
  lemma NewLinkRanked(links: Links, perm: u16, parent: u16)
    requires Acyclic(LinkEdges(links)) && perm !in LinksOf(links, parent) && !Leads(LinkEdges(links), parent, perm)
    ensures Acyclic(LinkEdges(Linked(links, perm, parent)))
  {
    var edges := LinkEdges(links);
    var nodes := LinkNodes(links) + {perm, parent};
    var rank := AcyclicRanks(edges, nodes);
    var bound := RankBound(rank, nodes);
    var lifted: map<u16, nat> := map p | p in nodes :: if Leads(LinkEdges(links), parent, p) then rank[p] else rank[p] + bound;
    LinkedEdges(links, perm, parent);
    LeadsSelf(edges, parent);
    forall p, q | (p, q) in edges + {(perm, parent)} ensures p in lifted && q in lifted && lifted[q] < lifted[p] {
      if (p, q) in edges && Leads(LinkEdges(links), parent, p) {
        var w :| IsWalk(edges, w) && w[0] == parent && w[|w| - 1] == p;
        assert IsWalk(edges, w + [q]);
        assert Leads(LinkEdges(links), parent, q);
      }
    }
    RanksAcyclic(edges + {(perm, parent)}, lifted);
  }

  /** link keeps the links free of cycles exactly when it is refused (the parent already links back) or the parent does not lead to `perm`. */
  lemma LinkKeepsAcyclicIff(links: Links, perm: u16, parent: u16)
    requires Acyclic(LinkEdges(links))
    ensures Acyclic(LinkEdges(Linked(links, perm, parent))) <==> perm in LinksOf(links, parent) || !Leads(LinkEdges(links), parent, perm)
  {
    if perm !in LinksOf(links, parent) {
      if Leads(LinkEdges(links), parent, perm) {
        var w :| IsWalk(LinkEdges(links), w) && w[0] == parent && w[|w| - 1] == perm;
        LinkedEdges(links, perm, parent);
        var c := [perm] + w;
        assert forall i | 0 < i < |c| - 1 :: (c[i], c[i + 1]) == (w[i - 1], w[i]);
        assert IsCycle(LinkEdges(Linked(links, perm, parent)), c);
      } else {
        NewLinkRanked(links, perm, parent);
      }
    }
  }

  /** The guard only sees direct links back: a permission may be linked to itself, and three links close a cycle. */
  lemma LinkCycles(a: u16, b: u16, c: u16)
    requires a != b && b != c && a != c
    ensures !Acyclic(LinkEdges(Linked(map[], a, a)))
    ensures !Acyclic(LinkEdges(Linked(Linked(Linked(map[], a, b), b, c), c, a)))
  {
    assert IsCycle(LinkEdges(Linked(map[], a, a)), [a, a]);
    var l := Linked(Linked(Linked(map[], a, b), b, c), c, a);
    assert LinksOf(l, a) == {b} && LinksOf(l, b) == {c} && LinksOf(l, c) == {a};
    assert IsCycle(LinkEdges(l), [a, b, c, a]);
  }

  // ---- the permission store ----

  /** No subject has a permission both granted and revoked. */
  ghost predicate Disjoint(grants: PermMap, revokes: PermMap) {
    forall id :: Of(grants, id) !! Of(revokes, id)
  }

  /** No two different permissions link to each other. */
  ghost predicate OneWay(links: Links) {
    forall p, q | p != q :: !(q in LinksOf(links, p) && p in LinksOf(links, q))
  }

  ghost predicate Consistent(o: Overlay) {
    && Disjoint(o.uidGrants, o.uidRevokes) && Disjoint(o.gidGrants, o.gidRevokes)
    && OneWay(o.links)
  }

  /** Moving one permission of one subject from one side to the other keeps the sides disjoint. */
  lemma MoveKeepsDisjoint(to: PermMap, from: PermMap, id: Id, perm: u16)
    requires Disjoint(to, from)
    ensures Disjoint(to[id := Of(to, id) + {perm}], from[id := Of(from, id) - {perm}])
    ensures Disjoint(from[id := Of(from, id) - {perm}], to[id := Of(to, id) + {perm}])
  {
    var to', from' := to[id := Of(to, id) + {perm}], from[id := Of(from, id) - {perm}];
    forall other: Id ensures Of(to', other) !! Of(from', other) {
      assert Of(to, other) !! Of(from, other);
    }
  }

  lemma LinkedKeepsOneWay(links: Links, perm: u16, parent: u16)
    requires OneWay(links)
    ensures OneWay(Linked(links, perm, parent))
  {
    var l := Linked(links, perm, parent);
    forall p, q | p != q ensures !(q in LinksOf(l, p) && p in LinksOf(l, q)) {
      assert LinksOf(l, p) <= LinksOf(links, p) + if p == perm then {parent} else {};
      assert LinksOf(l, q) <= LinksOf(links, q) + if q == perm then {parent} else {};
    }
  }

  /** Every other subject keeps its set. */
  ghost predicate OnlyAt(before: PermMap, after: PermMap, id: Id) {
    forall other | other != id :: Of(after, other) == Of(before, other)
  }

  class PermissionStore {
    const users: UserStore
    var overlay: Overlay
    var byId: map<u16, string>

    ghost predicate Valid() reads this {
      Consistent(overlay)
    }

    constructor (users: UserStore)
      ensures Valid() && this.users == users && byId == map[]
      ensures overlay == Overlay(map[], map[], map[], map[], map[], map[])
    {
      this.users := users;
      overlay := Overlay(map[], map[], map[], map[], map[], map[]);
      byId := map[];
    }

    method GrantUser(uid: Id, perm: u16)
      requires Valid()
      modifies this`overlay
      ensures Valid()
      ensures overlay == old(overlay).(uidGrants := overlay.uidGrants, uidRevokes := overlay.uidRevokes)
      ensures Of(overlay.uidGrants, uid) == old(Of(overlay.uidGrants, uid)) + {perm} && OnlyAt(old(overlay).uidGrants, overlay.uidGrants, uid)
      ensures Of(overlay.uidRevokes, uid) == old(Of(overlay.uidRevokes, uid)) - {perm} && OnlyAt(old(overlay).uidRevokes, overlay.uidRevokes, uid)
      ensures Wider(old(overlay), overlay)
    {
      MoveKeepsDisjoint(overlay.uidGrants, overlay.uidRevokes, uid, perm);
      overlay := overlay.(uidRevokes := overlay.uidRevokes[uid := Of(overlay.uidRevokes, uid) - {perm}]);
      overlay := overlay.(uidGrants := overlay.uidGrants[uid := Of(overlay.uidGrants, uid) + {perm}]);
    }

    method GrantGroup(gid: Id, perm: u16)
      requires Valid()
      modifies this`overlay
      ensures Valid()
      ensures overlay == old(overlay).(gidGrants := overlay.gidGrants, gidRevokes := overlay.gidRevokes)
      ensures Of(overlay.gidGrants, gid) == old(Of(overlay.gidGrants, gid)) + {perm} && OnlyAt(old(overlay).gidGrants, overlay.gidGrants, gid)
      ensures Of(overlay.gidRevokes, gid) == old(Of(overlay.gidRevokes, gid)) - {perm} && OnlyAt(old(overlay).gidRevokes, overlay.gidRevokes, gid)
      ensures Wider(old(overlay), overlay)
    {
      MoveKeepsDisjoint(overlay.gidGrants, overlay.gidRevokes, gid, perm);
      overlay := overlay.(gidRevokes := overlay.gidRevokes[gid := Of(overlay.gidRevokes, gid) - {perm}]);
      overlay := overlay.(gidGrants := overlay.gidGrants[gid := Of(overlay.gidGrants, gid) + {perm}]);
    }

    method UngrantUser(uid: Id, perm: u16)
      requires Valid()
      modifies this`overlay
      ensures Valid()
      ensures overlay == old(overlay).(uidGrants := overlay.uidGrants, uidRevokes := overlay.uidRevokes)
      ensures Of(overlay.uidGrants, uid) == old(Of(overlay.uidGrants, uid)) - {perm} && OnlyAt(old(overlay).uidGrants, overlay.uidGrants, uid)
      ensures Of(overlay.uidRevokes, uid) == old(Of(overlay.uidRevokes, uid)) + {perm} && OnlyAt(old(overlay).uidRevokes, overlay.uidRevokes, uid)
      ensures Wider(overlay, old(overlay))
    {
      MoveKeepsDisjoint(overlay.uidRevokes, overlay.uidGrants, uid, perm);
      overlay := overlay.(uidGrants := overlay.uidGrants[uid := Of(overlay.uidGrants, uid) - {perm}]);
      overlay := overlay.(uidRevokes := overlay.uidRevokes[uid := Of(overlay.uidRevokes, uid) + {perm}]);
    }

    method UngrantGroup(gid: Id, perm: u16)
      requires Valid()
      modifies this`overlay
      ensures Valid()
      ensures overlay == old(overlay).(gidGrants := overlay.gidGrants, gidRevokes := overlay.gidRevokes)
      ensures Of(overlay.gidGrants, gid) == old(Of(overlay.gidGrants, gid)) - {perm} && OnlyAt(old(overlay).gidGrants, overlay.gidGrants, gid)
      ensures Of(overlay.gidRevokes, gid) == old(Of(overlay.gidRevokes, gid)) + {perm} && OnlyAt(old(overlay).gidRevokes, overlay.gidRevokes, gid)
      ensures Wider(overlay, old(overlay))
    {
      MoveKeepsDisjoint(overlay.gidRevokes, overlay.gidGrants, gid, perm);
      overlay := overlay.(gidGrants := overlay.gidGrants[gid := Of(overlay.gidGrants, gid) - {perm}]);
      overlay := overlay.(gidRevokes := overlay.gidRevokes[gid := Of(overlay.gidRevokes, gid) + {perm}]);
    }

    method Link(perm: u16, parent: u16)
      requires Valid()
      modifies this`overlay
      ensures Valid()
      ensures overlay == old(overlay).(links := Linked(old(overlay).links, perm, parent))
    {
      LinkedKeepsOneWay(overlay.links, perm, parent);
      if perm in LinksOf(overlay.links, parent) {
        return;
      }
      overlay := overlay.(links := overlay.links[perm := LinksOf(overlay.links, perm) + {parent}]);
    }

    /** Every member of the group gets the permission, even where it is revoked; TieEntitlesIff says what else changes. */
    method OrGroup(perm: u16, group: string)
      requires Valid()
      modifies this`overlay
      ensures Valid()
      ensures overlay == Tied(old(overlay), perm, group)
      ensures forall uid, p :: TieGives(users, old(overlay), overlay, perm, group, uid, p)
      ensures forall uid | IsMember(users, uid, group) :: UserEntitled(users, overlay, uid, perm)
    {
      forall uid | IsMember(users, uid, group) ensures ReachesPerm(overlay.links, Of(overlay.uidRevokes, uid), perm, perm) {
        assert Route(overlay.links, Of(overlay.uidRevokes, uid), iset{perm}, [perm]);
      }
      forall uid, p ensures TieGives(users, old(overlay), Tied(old(overlay), perm, group), perm, group, uid, p) {
        TieEntitlesIff(users, overlay, perm, group, uid, p);
      }
      overlay := overlay.(groups := overlay.groups[perm := group]);
    }

    method Has(uid: Id, perm: u16) returns (has: bool)
      requires UserEnds(users, overlay, uid, perm)
      ensures has <==> UserEntitled(users, overlay, uid, perm)
    {
      UserHasIff(users, overlay, uid, perm);
      has := UserHas(users, overlay, uid, perm);
    }

    /**
     The permissions of a subject, with their registered names and group ties;
     None for an unknown subject, the whole registry without one.
     */
    method All(subject: Option<Id>, group: bool) returns (listed: Option<map<u16, (string, Option<string>)>>)
      ensures subject.None? ==> listed.Some? && listed.value.Keys == byId.Keys && forall p | p in byId :: listed.value[p].0 == byId[p]
      ensures subject.Some? && !group ==> listed.Some? == LookupByUid(users.users, subject.value).Some?
      ensures subject.Some? && group ==> listed.Some? == GroupById(users.groups, subject.value).Some?
      ensures subject.Some? && !group && listed.Some? ==>
                var u := LookupByUid(users.users, subject.value).value;
                listed.value.Keys == (Elements(u.permissions) + Of(overlay.uidGrants, u.uid)) - Of(overlay.uidRevokes, u.uid)
                && forall p | p in listed.value :: listed.value[p].0 == NameOf(u.permissions, Of(overlay.uidGrants, u.uid), byId, p)
      ensures subject.Some? && group && listed.Some? ==>
                var g := GroupById(users.groups, subject.value).value;
                listed.value.Keys == (Elements(g.permissions) + Of(overlay.gidGrants, g.gid)) - Of(overlay.gidRevokes, g.gid)
                && forall p | p in listed.value :: listed.value[p].0 == NameOf(g.permissions, Of(overlay.gidGrants, g.gid), byId, p)
      ensures listed.Some? ==> forall p | p in listed.value ::
                listed.value[p].1 == if p in overlay.groups then Some(overlay.groups[p]) else None
    {
      var names: map<u16, string> := byId;
      if subject.Some? && !group {
        var u := LookupByUid(users.users, subject.value);
        if u.None? { return None; }
        names := Named(u.value.permissions, Of(overlay.uidGrants, subject.value), Of(overlay.uidRevokes, subject.value), byId);
      } else if subject.Some? && group {
        var g := GroupById(users.groups, subject.value);
        if g.None? { return None; }
        names := Named(g.value.permissions, Of(overlay.gidGrants, subject.value), Of(overlay.gidRevokes, subject.value), byId);
      }
      listed := Some(map p | p in names :: (names[p], if p in overlay.groups then Some(overlay.groups[p]) else None));
    }
  }

  const UNKNOWN := "unknown"

  /** How often an id comes up when the stored permissions are followed by the granted ones. */
  ghost function Mentions(base: seq<u16>, grants: set<u16>, id: u16): nat {
    multiset(base)[id] + multiset(grants)[id]
  }

  ghost function NameOf(base: seq<u16>, grants: set<u16>, registry: map<u16, string>, id: u16): string {
    if Mentions(base, grants, id) == 1 && id in registry then registry[id] else UNKNOWN
  }

  /** The granted ids in some order. */
  method Enumerate(s: set<u16>) returns (order: seq<u16>)
    ensures multiset(order) == multiset(s)
  {
    order := [];
    var rest := s;
    while rest != {}
      invariant rest <= s && multiset(order) == multiset(s - rest)
    {
      var p :| p in rest;
      rest := rest - {p};
      order := order + [p];
    }
    assert s - rest == s;
  }

  ghost predicate NamedSoFar(chain: seq<u16>, revokes: set<u16>, registry: map<u16, string>, names: map<u16, string>, all: map<u16, string>) {
    && names.Keys == Elements(chain) - revokes
    && all == registry - names.Keys
    && forall p | p in names :: names[p] == if multiset(chain)[p] == 1 && p in registry then registry[p] else UNKNOWN
  }

  lemma NameStep(chain: seq<u16>, p: u16, revokes: set<u16>, registry: map<u16, string>, names: map<u16, string>, all: map<u16, string>)
    requires NamedSoFar(chain, revokes, registry, names, all)
    ensures p in revokes ==> NamedSoFar(chain + [p], revokes, registry, names, all)
    ensures p !in revokes ==> NamedSoFar(chain + [p], revokes, registry, names[p := if p in all then all[p] else UNKNOWN], all - {p})
  {
    MentionStep(chain, p);
  }

  /**
   The collected pairs: each name is taken out of the registry when it is first
   used, so an id that comes up again ends as "unknown".
   */
  method Collect(chain: seq<u16>, revokes: set<u16>, registry: map<u16, string>) returns (names: map<u16, string>)
    ensures names.Keys == Elements(chain) - revokes
    ensures forall p | p in names :: names[p] == if multiset(chain)[p] == 1 && p in registry then registry[p] else UNKNOWN
  {
    var all;
    names, all := map[], registry;
    for i := 0 to |chain|
      invariant NamedSoFar(chain[..i], revokes, registry, names, all)
    {
      var p := chain[i];
      NameStep(chain[..i], p, revokes, registry, names, all);
      assert chain[..i + 1] == chain[..i] + [p];
      if p !in revokes {
        names := names[p := if p in all then all[p] else UNKNOWN];
        all := all - {p};
      }
    }
    assert chain[..|chain|] == chain;
  }

  lemma ChainMentions(base: seq<u16>, grants: set<u16>, order: seq<u16>)
    requires multiset(order) == multiset(grants)
    ensures Elements(base + order) == Elements(base) + grants
    ensures forall p :: multiset(base + order)[p] == Mentions(base, grants, p)
  {
    assert forall p :: p in order <==> p in multiset(order);
  }

  /** The ids listed for a subject and their names: an id both stored and granted, or stored twice, is "unknown". */
  method Named(base: seq<u16>, grants: set<u16>, revokes: set<u16>, registry: map<u16, string>) returns (names: map<u16, string>)
    ensures names.Keys == (Elements(base) + grants) - revokes
    ensures forall p | p in names :: names[p] == NameOf(base, grants, registry, p)
  {
    var order := Enumerate(grants);
    ChainMentions(base, grants, order);
    names := Collect(base + order, revokes, registry);
  }

  lemma MentionStep(chain: seq<u16>, p: u16)
    ensures Elements(chain + [p]) == Elements(chain) + {p}
    ensures forall q :: multiset(chain + [p])[q] == multiset(chain)[q] + if q == p then 1 else 0
    ensures multiset(chain)[p] == 0 <==> p !in Elements(chain)
  {
    assert multiset(chain + [p]) == multiset(chain) + multiset{p};
  }
}
