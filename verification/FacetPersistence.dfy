/**
 Saving and loading the facet graph by scope (crates/flow/src/flow.rs). The state
 directory is a map from scope to the snapshot in its file; the serializer of one
 instance is a parameter.
 */
module FacetPersistence {
  import opened Common
  import opened FlowModel

  datatype EntryCodec = EntryCodec(encode: Instance -> Bytes, decode: Bytes -> Option<Instance>)

  ghost predicate Faithful(c: EntryCodec) {
    forall i :: c.decode(c.encode(i)) == Some(i)
  }

  type Snapshot = map<string, seq<Bytes>>

  type FacetMap = map<string, seq<Instance>>

  const STATIC := "static"

  /** What follows the last '@', or "static". */
  function ScopeOf(name: string): string {
    var i := LastIndex(name, '@');
    if i == |name| then STATIC else name[i + 1..]
  }

  /** Facets that are never saved. */
  predicate Impermanent(name: string) {
    Contains(name, "!@") || EndsWith(name, "!")
  }

  function Encoded(c: EntryCodec, instances: seq<Instance>): (r: seq<Bytes>)
    ensures |r| == |instances|
  {
    seq(|instances|, i requires 0 <= i < |instances| => c.encode(instances[i]))
  }

  /** An entry that cannot be decoded becomes an instance without a name, and those are dropped. */
  function Decoded(c: EntryCodec, entries: seq<Bytes>): seq<Instance> {
    if entries == [] then []
    else
      var rest, i := Decoded(c, entries[..|entries| - 1]), c.decode(entries[|entries| - 1]);
      if i.Some? && i.value.name != "" then rest + [i.value] else rest
  }

  ghost predicate AllNamed(instances: seq<Instance>) {
    forall i | 0 <= i < |instances| :: instances[i].name != ""
  }

  /** Entries come back whole exactly when every instance has a name. */
  lemma {:induction false} EntriesRoundTripIff(c: EntryCodec, instances: seq<Instance>)
    requires Faithful(c)
    ensures Decoded(c, Encoded(c, instances)) == instances <==> AllNamed(instances)
    ensures |Decoded(c, Encoded(c, instances))| <= |instances|
  {
    if instances != [] {
      var n := |instances| - 1;
      EntriesRoundTripIff(c, instances[..n]);
      assert Encoded(c, instances)[..n] == Encoded(c, instances[..n]);
      assert instances == instances[..n] + [instances[n]];
      assert c.decode(c.encode(instances[n])) == Some(instances[n]);
      var d := Decoded(c, Encoded(c, instances[..n]));
      if d + [instances[n]] == instances {
        assert d == (d + [instances[n]])[..n] == instances[..n];
      }
      assert AllNamed(instances) <==> AllNamed(instances[..n]) && instances[n].name != "" by {
        assert forall i | 0 <= i < n :: instances[..n][i] == instances[i];
      }
    }
  }

  // ---- what is saved ----

  /** The snapshot of one scope, over these facet names. */
  ghost function ScopeSnapshot(c: EntryCodec, facets: FacetMap, names: set<string>, scope: string): Snapshot {
    map k | k in names && k in facets && !Impermanent(k) && ScopeOf(k) == scope :: Encoded(c, facets[k])
  }

  ghost function SavedScopes(facets: FacetMap, names: set<string>): set<string> {
    set k | k in names && k in facets && !Impermanent(k) :: ScopeOf(k)
  }

  /** The facets that are saved. */
  ghost function Permanent(facets: FacetMap): FacetMap {
    map k | k in facets && !Impermanent(k) :: facets[k]
  }

  /** Every file holds facets of its own scope. */
  ghost predicate Scoped(disk: map<string, Snapshot>) {
    forall s, k | s in disk && k in disk[s] :: ScopeOf(k) == s
  }

  /** The files written: one for every scope of a saved facet, and always the static one. */
  ghost function Snapshots(c: EntryCodec, facets: FacetMap): map<string, Snapshot> {
    map s | s in SavedScopes(facets, facets.Keys) + {STATIC} :: ScopeSnapshot(c, facets, facets.Keys, s)
  }

  ghost function SavedTo(c: EntryCodec, facets: FacetMap, disk: map<string, Snapshot>): map<string, Snapshot> {
    disk + Snapshots(c, facets)
  }

  /** The file of the empty scope lies outside every scope directory and is never read. */
  predicate Readable(scope: string) {
    scope != ""
  }

  ghost function NamesIn(disk: map<string, Snapshot>, scopes: set<string>): set<string> {
    set s, k | s in scopes && s in disk && k in disk[s] :: k
  }

  /** What the file of a facet's scope holds for it. */
  ghost function Content(disk: map<string, Snapshot>, name: string): seq<Bytes> {
    if ScopeOf(name) in disk && name in disk[ScopeOf(name)] then disk[ScopeOf(name)][name] else []
  }

  /** The facets are those in the files of these scopes. */
  ghost predicate Loaded(c: EntryCodec, disk: map<string, Snapshot>, scopes: set<string>, facets: FacetMap) {
    && facets.Keys == NamesIn(disk, scopes)
    && forall k | k in facets :: facets[k] == Decoded(c, Content(disk, k))
  }

  ghost function ReadableScopes(disk: map<string, Snapshot>): set<string> {
    set s | s in disk && Readable(s)
  }

  function DecodedAll(c: EntryCodec, snapshot: Snapshot): FacetMap {
    map k | k in snapshot :: Decoded(c, snapshot[k])
  }

  class FacetGraph {
    var facets: FacetMap
    var disk: map<string, Snapshot>

    ghost predicate Valid() reads this {
      Scoped(disk)
    }

    constructor ()
      ensures Valid() && facets == map[] && disk == map[]
    {
      facets, disk := map[], map[];
    }

    method SaveAllScopes(c: EntryCodec)
      requires Valid()
      modifies this`disk
      ensures Valid() && disk == SavedTo(c, facets, old(disk))
    {
      var perScope := GroupByScope(c, facets);
      if STATIC !in perScope {
        EmptySnapshot(c, facets, facets.Keys, STATIC);
        perScope := perScope[STATIC := map[]];
      }
      SavedIs(c, facets, perScope);
      SavedScoped(c, facets, disk);
      WriteAll(perScope);
    }

    method WriteAll(perScope: map<string, Snapshot>)
      modifies this`disk
      ensures disk == old(disk) + perScope
    {
      var scopes := perScope.Keys;
      while scopes != {}
        invariant scopes <= perScope.Keys
        invariant disk == old(disk) + Only(perScope, perScope.Keys - scopes)
      {
        var scope :| scope in scopes;
        scopes := scopes - {scope};
        disk := disk[scope := perScope[scope]];
      }
      assert Only(perScope, perScope.Keys) == perScope;
    }

    method LoadScope(c: EntryCodec, scope: string)
      requires scope in disk
      modifies this`facets
      ensures facets == old(facets) + DecodedAll(c, disk[scope])
    {
      var names := disk[scope].Keys;
      while names != {}
        invariant names <= disk[scope].Keys
        invariant facets == old(facets) + map k | k in disk[scope] && k !in names :: Decoded(c, disk[scope][k])
      {
        var name :| name in names;
        names := names - {name};
        facets := facets[name := Decoded(c, disk[scope][name])];
      }
    }

    /** Whatever order the directories are listed in. */
    method LoadFromPersistence(c: EntryCodec)
      requires Valid()
      modifies this`facets
      ensures Loaded(c, disk, ReadableScopes(disk), facets)
    {
      facets := map[];
      ghost var done := {};
      if STATIC in disk {
        LoadStep(c, disk, done, facets, STATIC);
        done := {STATIC};
        LoadScope(c, STATIC);
      }
      var scopes := set s | s in disk && Readable(s) && s != STATIC;
      while scopes != {}
        invariant scopes <= ReadableScopes(disk) && done + scopes == ReadableScopes(disk)
        invariant Loaded(c, disk, done, facets)
      {
        var scope :| scope in scopes;
        LoadStep(c, disk, done, facets, scope);
        scopes := scopes - {scope};
        done := done + {scope};
        LoadScope(c, scope);
      }
    }

    method DropScope(scope: string)
      requires Valid()
      modifies this
      ensures Valid()
      ensures facets == map k | k in old(facets) && !Drops(scope, k) :: old(facets)[k]
      ensures disk == if scope == STATIC then old(disk) else WithoutScope(old(disk), scope)
    {
      facets := map k | k in facets && ((scope == STATIC && !Contains(k, "@")) || !EndsWith(k, "@" + scope)) :: facets[k];
      if scope != STATIC {
        disk := WithoutScope(disk, scope);
      }
    }
  }

  /** The directory of the empty scope is the root of all others; only the static file lies elsewhere. */
  function WithoutScope(disk: map<string, Snapshot>, scope: string): map<string, Snapshot> {
    if scope == "" then map s | s in disk && s == STATIC :: disk[s] else disk - {scope}
  }

  ghost function Only(disk: map<string, Snapshot>, scopes: set<string>): map<string, Snapshot> {
    map s | s in disk && s in scopes :: disk[s]
  }

  ghost predicate Grouped(c: EntryCodec, facets: FacetMap, names: set<string>, perScope: map<string, Snapshot>) {
    && perScope.Keys == SavedScopes(facets, names)
    && forall s | s in perScope :: perScope[s] == ScopeSnapshot(c, facets, names, s)
  }

  lemma SnapshotStep(c: EntryCodec, facets: FacetMap, names: set<string>, name: string, s: string)
    requires name in facets
    ensures ScopeSnapshot(c, facets, names + {name}, s) ==
              if !Impermanent(name) && s == ScopeOf(name) then ScopeSnapshot(c, facets, names, s)[name := Encoded(c, facets[name])]
              else ScopeSnapshot(c, facets, names, s)
  {
  }

  lemma ScopesStep(facets: FacetMap, names: set<string>, name: string)
    requires name in facets
    ensures SavedScopes(facets, names + {name}) == SavedScopes(facets, names) + if Impermanent(name) then {} else {ScopeOf(name)}
  {
  }

  lemma EmptySnapshot(c: EntryCodec, facets: FacetMap, names: set<string>, s: string)
    requires s !in SavedScopes(facets, names)
    ensures ScopeSnapshot(c, facets, names, s) == map[]
  {
  }

  lemma {:induction false} GroupStep(c: EntryCodec, facets: FacetMap, names: set<string>, perScope: map<string, Snapshot>, name: string)
    requires Grouped(c, facets, names, perScope) && name in facets
    ensures Impermanent(name) ==> Grouped(c, facets, names + {name}, perScope)
    ensures var entry := if ScopeOf(name) in perScope then perScope[ScopeOf(name)] else map[];
            !Impermanent(name) ==> Grouped(c, facets, names + {name}, perScope[ScopeOf(name) := entry[name := Encoded(c, facets[name])]])
  {
    var scope := ScopeOf(name);
    var entry := if scope in perScope then perScope[scope] else map[];
    ScopesStep(facets, names, name);
    if scope !in perScope {
      EmptySnapshot(c, facets, names, scope);
    }
    var next := if Impermanent(name) then perScope else perScope[scope := entry[name := Encoded(c, facets[name])]];
    forall s | s in next ensures next[s] == ScopeSnapshot(c, facets, names + {name}, s) {
      SnapshotStep(c, facets, names, name, s);
    }
  }

  method GroupByScope(c: EntryCodec, facets: FacetMap) returns (perScope: map<string, Snapshot>)
    ensures Grouped(c, facets, facets.Keys, perScope)
  {
    perScope := map[];
    var rest := facets.Keys;
    ghost var done := {};
    while rest != {}
      invariant rest <= facets.Keys && done == facets.Keys - rest
      invariant Grouped(c, facets, done, perScope)
    {
      var name :| name in rest;
      GroupStep(c, facets, done, perScope, name);
      rest, done := rest - {name}, done + {name};
      if Impermanent(name) {
        continue;
      }
      var entry := if ScopeOf(name) in perScope then perScope[ScopeOf(name)] else map[];
      perScope := perScope[ScopeOf(name) := entry[name := Encoded(c, facets[name])]];
    }
    assert done == facets.Keys;
  }

  lemma SavedIs(c: EntryCodec, facets: FacetMap, perScope: map<string, Snapshot>)
    requires perScope.Keys == SavedScopes(facets, facets.Keys) + {STATIC}
    requires forall s | s in perScope :: perScope[s] == ScopeSnapshot(c, facets, facets.Keys, s)
    ensures perScope == Snapshots(c, facets)
  {
  }

  lemma SavedScoped(c: EntryCodec, facets: FacetMap, disk: map<string, Snapshot>)
    requires Scoped(disk)
    ensures Scoped(SavedTo(c, facets, disk))
  {
    var saved := SavedTo(c, facets, disk);
    forall s, k | s in saved && k in saved[s] ensures ScopeOf(k) == s {
      if s in Snapshots(c, facets) {
        assert k in ScopeSnapshot(c, facets, facets.Keys, s);
      }
    }
  }

  lemma NamesStep(disk: map<string, Snapshot>, done: set<string>, scope: string)
    requires scope in disk
    ensures NamesIn(disk, done + {scope}) == NamesIn(disk, done) + disk[scope].Keys
  {
  }

  lemma LoadStep(c: EntryCodec, disk: map<string, Snapshot>, done: set<string>, facets: FacetMap, scope: string)
    requires Scoped(disk) && scope in disk && Loaded(c, disk, done, facets)
    ensures Loaded(c, disk, done + {scope}, facets + DecodedAll(c, disk[scope]))
  {
    NamesStep(disk, done, scope);
  }

  // ---- dropping a scope ----

  predicate Drops(scope: string, name: string) {
    EndsWith(name, "@" + scope) && !(scope == STATIC && !Contains(name, "@"))
  }

  /**
   Dropping a scope drops exactly the facets of that scope, whatever facets there
   are, if and only if it is not "static" and holds no '@'.
   */
  lemma DropsExactlyIff(scope: string)
    ensures (forall name :: Drops(scope, name) <==> ScopeOf(name) == scope) <==> scope != STATIC && '@' !in scope
  {
    if scope != STATIC && '@' !in scope {
      forall name ensures Drops(scope, name) <==> ScopeOf(name) == scope {
        DropsItsScope(scope, name);
      }
    } else if scope == STATIC {
      var name := "x";
      assert ScopeOf(name) == STATIC && !Drops(scope, name);
    } else {
      var name := "@" + scope;
      assert name[|name| - |name|..] == name;
      assert Drops(scope, name);
      ScopeHoldsNoAt(name);
    }
  }

  lemma ScopeHoldsNoAt(name: string)
    ensures '@' !in ScopeOf(name)
  {
  }

  lemma {:induction false} LastIndexUnique(s: string, c: char, at: nat)
    requires at < |s| && s[at] == c && c !in s[at + 1..]
    ensures LastIndex(s, c) == at
    decreases |s|
  {
    if at < |s| - 1 {
      var init := s[..|s| - 1];
      assert s[at + 1..] == init[at + 1..] + [s[|s| - 1]];
      LastIndexUnique(init, c, at);
    }
  }

  lemma DropsItsScope(scope: string, name: string)
    requires scope != STATIC && '@' !in scope
    ensures Drops(scope, name) <==> ScopeOf(name) == scope
  {
    var i, suffix := LastIndex(name, '@'), "@" + scope;
    if i < |name| && name[i + 1..] == scope {
      assert name[i..] == [name[i]] + name[i + 1..] == suffix;
    }
    if EndsWith(name, suffix) {
      var at := |name| - |suffix|;
      assert name[at..][0] == name[at] == '@' && name[at + 1..] == name[at..][1..] == scope;
      LastIndexUnique(name, '@', at);
    }
  }

  /**
   A scope that was dropped does not come back on the next load, and what the
   other scopes load is not changed; dropping the empty scope leaves only the
   static facets.
   */
  lemma DroppedStaysAway(c: EntryCodec, disk: map<string, Snapshot>, scope: string, before: FacetMap, after: FacetMap, k: string)
    requires Scoped(disk) && scope != STATIC
    requires Loaded(c, disk, ReadableScopes(disk), before)
    requires var left := WithoutScope(disk, scope); Loaded(c, left, ReadableScopes(left), after)
    ensures k in after <==> k in before && if scope == "" then ScopeOf(k) == "static" else ScopeOf(k) != scope
    ensures k in after ==> after[k] == before[k]
  {
    var left := WithoutScope(disk, scope);
    LoadedAt(c, disk, before, k);
    LoadedAt(c, left, after, k);
  }

  lemma LoadedAt(c: EntryCodec, disk: map<string, Snapshot>, facets: FacetMap, k: string)
    requires Scoped(disk) && Loaded(c, disk, ReadableScopes(disk), facets)
    ensures k in facets <==> ScopeOf(k) != "" && ScopeOf(k) in disk && k in disk[ScopeOf(k)]
    ensures k in facets ==> facets[k] == Decoded(c, disk[ScopeOf(k)][k])
  {
  }

  /** Not saved are exactly the names that end in '!' and those with a '!' right before an '@'. */
  lemma ImpermanentIff(name: string)
    ensures Impermanent(name) <==> exists i | 0 <= i < |name| :: name[i] == '!' && (i == |name| - 1 || name[i + 1] == '@')
  {
    if Contains(name, "!@") {
      var i :| 0 <= i <= |name| && OccursAt(name, "!@", i);
      assert name[i] == name[i..i + 2][0] == '!' && name[i + 1] == name[i..i + 2][1] == '@';
    }
    if EndsWith(name, "!") {
      assert name[|name| - 1] == name[|name| - 1..][0] == '!';
    }
    if i :| 0 <= i < |name| && name[i] == '!' && (i == |name| - 1 || name[i + 1] == '@') {
      if i == |name| - 1 {
        assert name[|name| - 1..] == "!";
      } else {
        assert name[i..i + 2] == "!@";
        assert OccursAt(name, "!@", i);
      }
    }
  }

  // ---- saving and loading ----

  lemma SavedContent(c: EntryCodec, facets: FacetMap, disk: map<string, Snapshot>, name: string)
    requires Scoped(disk)
    ensures var saved := SavedTo(c, facets, disk);
            && (name in Permanent(facets) ==> Content(saved, name) == Encoded(c, facets[name]) && name in NamesIn(saved, {ScopeOf(name)}))
            && (name in NamesIn(saved, saved.Keys) && name !in Permanent(facets) ==> Stale(c, facets, disk, ScopeOf(name)) && name in disk[ScopeOf(name)])
  {
    var saved, scope := SavedTo(c, facets, disk), ScopeOf(name);
    SavedScoped(c, facets, disk);
    if name in Permanent(facets) {
      assert scope in SavedScopes(facets, facets.Keys);
      assert saved[scope] == ScopeSnapshot(c, facets, facets.Keys, scope);
      assert name in saved[scope];
    } else if name in NamesIn(saved, saved.Keys) {
      assert scope in saved && name in saved[scope];
    }
  }

  /** A file that saving leaves alone. */
  ghost predicate Stale(c: EntryCodec, facets: FacetMap, disk: map<string, Snapshot>, scope: string) {
    scope in disk && scope !in Snapshots(c, facets)
  }

  /** What saving and loading needs: names on all instances, no facet in the empty scope, nothing in leftover files. */
  ghost predicate Savable(c: EntryCodec, facets: FacetMap, disk: map<string, Snapshot>) {
    && (forall k | k in Permanent(facets) :: AllNamed(facets[k]) && Readable(ScopeOf(k)))
    && (forall s | Stale(c, facets, disk, s) && Readable(s) :: disk[s] == map[])
  }

  /**
   Saving, then loading, restores exactly the facets that are not impermanent, with
   all their instances, if and only if all their instances have names, none is in
   the empty scope, and no leftover file of another scope holds a facet.
   */
  lemma {:induction false} SaveLoadIff(c: EntryCodec, facets: FacetMap, disk: map<string, Snapshot>, back: FacetMap)
    requires Faithful(c) && Scoped(disk)
    requires var saved := SavedTo(c, facets, disk); Loaded(c, saved, ReadableScopes(saved), back)
    ensures back == Permanent(facets) <==> Savable(c, facets, disk)
  {
    var saved := SavedTo(c, facets, disk);
    if Savable(c, facets, disk) {
      Restored(c, facets, disk, back);
    } else if k :| k in Permanent(facets) && !(AllNamed(facets[k]) && Readable(ScopeOf(k))) {
      NotRestored(c, facets, disk, back, k);
    } else {
      var s :| Stale(c, facets, disk, s) && Readable(s) && disk[s] != map[];
      var k :| k in disk[s];
      assert saved[s] == disk[s] && k in NamesIn(saved, ReadableScopes(saved));
      PermanentSaved(facets, k);
      assert k in back && k !in Permanent(facets);
    }
  }

  lemma PermanentSaved(facets: FacetMap, k: string)
    ensures k in Permanent(facets) ==> ScopeOf(k) in SavedScopes(facets, facets.Keys)
  {
  }

  lemma {:induction false} RestoredAt(c: EntryCodec, facets: FacetMap, disk: map<string, Snapshot>, back: FacetMap, k: string)
    requires Faithful(c) && Scoped(disk) && Savable(c, facets, disk)
    requires var saved := SavedTo(c, facets, disk); Loaded(c, saved, ReadableScopes(saved), back)
    ensures k in back <==> k in Permanent(facets)
    ensures k in back && k in Permanent(facets) ==> back[k] == Permanent(facets)[k]
  {
    var saved := SavedTo(c, facets, disk);
    SavedContent(c, facets, disk, k);
    if k in Permanent(facets) {
      PermanentSaved(facets, k);
      assert ScopeOf(k) in ReadableScopes(saved) && k in saved[ScopeOf(k)];
      EntriesRoundTripIff(c, facets[k]);
    }
  }

  lemma {:induction false} Restored(c: EntryCodec, facets: FacetMap, disk: map<string, Snapshot>, back: FacetMap)
    requires Faithful(c) && Scoped(disk) && Savable(c, facets, disk)
    requires var saved := SavedTo(c, facets, disk); Loaded(c, saved, ReadableScopes(saved), back)
    ensures back == Permanent(facets)
  {
    forall k ensures (k in back <==> k in Permanent(facets)) && (k in back && k in Permanent(facets) ==> back[k] == Permanent(facets)[k]) {
      RestoredAt(c, facets, disk, back, k);
    }
  }

  lemma {:induction false} NotRestored(c: EntryCodec, facets: FacetMap, disk: map<string, Snapshot>, back: FacetMap, k: string)
    requires Faithful(c) && Scoped(disk) && k in Permanent(facets) && !(AllNamed(facets[k]) && Readable(ScopeOf(k)))
    requires var saved := SavedTo(c, facets, disk); Loaded(c, saved, ReadableScopes(saved), back)
    ensures back != Permanent(facets)
  {
    var saved := SavedTo(c, facets, disk);
    SavedContent(c, facets, disk, k);
    EntriesRoundTripIff(c, facets[k]);
    SavedScoped(c, facets, disk);
    if k in back {
      var s :| s in ReadableScopes(saved) && s in saved && k in saved[s];
      assert s == ScopeOf(k);
      assert back[k] != facets[k];
    }
  }
}
