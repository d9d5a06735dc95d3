/**
 The keyed store of branches: where set_facet puts an instance, what
 remove_facet keeps, and when the branches of a facet stay unique
 (crates/flow/src/flow.rs).
 */
module FlowBranches {
  import opened Common
  import opened Json
  import opened FlowModel
  import opened FlowMerge
  import opened FlowUniverse

  // ---- storing one instance ----

  predicate HasBranchKey(i: Instance, keys: seq<string>, key: seq<Value>) {
    i.payload.JsonPayload? && BranchKey(i.payload.value, keys) == Some(key)
  }

  function FirstBranch(entry: seq<Instance>, keys: seq<string>, key: seq<Value>): (i: nat)
    ensures i <= |entry| && (i < |entry| ==> HasBranchKey(entry[i], keys, key))
    ensures forall j | 0 <= j < i :: !HasBranchKey(entry[j], keys, key)
  {
    if entry == [] || HasBranchKey(entry[0], keys, key) then 0 else 1 + FirstBranch(entry[1..], keys, key)
  }

  /** The entry after storing an instance: replaced for plain payloads, merged into its branch or appended for JSON. */
  ghost function Stored(entry: seq<Instance>, instance: Instance, keys: seq<string>): Option<seq<Instance>> {
    if !instance.payload.JsonPayload? then Some([instance])
    else
      match BranchKey(instance.payload.value, keys)
      case None => None
      case Some(key) =>
        var i := FirstBranch(entry, keys, key);
        if i == |entry| then Some(entry + [instance])
        else
          var merged := MergedValue(entry[i].payload.value, instance.payload.value);
          Some(entry[i := entry[i].(payload := JsonPayload(merged))])
  }

  /** The first instance of this branch, or none. */
  ghost predicate IsFirstOf(entry: seq<Instance>, keys: seq<string>, key: seq<Value>, i: nat) {
    && i < |entry| && HasBranchKey(entry[i], keys, key)
    && forall j | 0 <= j < i :: !HasBranchKey(entry[j], keys, key)
  }

  /**
   A plain payload replaces the entry. A JSON one is refused exactly when it is no
   object or lacks a branch key; otherwise it is merged into the first instance of
   its branch, and appended when there is none, and the other instances stay.
   */
  lemma StoredIs(entry: seq<Instance>, instance: Instance, keys: seq<string>)
    ensures !instance.payload.JsonPayload? ==> Stored(entry, instance, keys) == Some([instance])
    ensures instance.payload.JsonPayload? ==>
              (Stored(entry, instance, keys).None? <==>
                 !instance.payload.value.Obj? || exists k | k in keys :: k !in instance.payload.value.fields)
    ensures instance.payload.JsonPayload? && Stored(entry, instance, keys).Some? ==>
              var key := BranchKey(instance.payload.value, keys).value; var after := Stored(entry, instance, keys).value;
              && ((forall i | i in entry :: !HasBranchKey(i, keys, key)) ==> after == entry + [instance])
              && (forall i: nat | IsFirstOf(entry, keys, key, i) ::
                    && |after| == |entry| && (forall j | 0 <= j < |entry| && j != i :: after[j] == entry[j])
                    && after[i] == entry[i].(payload := JsonPayload(MergedValue(entry[i].payload.value, instance.payload.value))))
  {
    if instance.payload.JsonPayload? {
      BranchKeyIs(instance.payload.value, keys);
      if Stored(entry, instance, keys).Some? {
        var key := BranchKey(instance.payload.value, keys).value;
        var first := FirstBranch(entry, keys, key);
        assert first < |entry| ==> entry[first] in entry;
        forall i: nat | IsFirstOf(entry, keys, key, i) ensures first == i {
          assert HasBranchKey(entry[i], keys, key);
        }
      }
    }
  }

  method StoreInstance(entry: seq<Instance>, instance: Instance, keys: seq<string>) returns (r: Option<seq<Instance>>)
    ensures r == Stored(entry, instance, keys)
  {
    if !instance.payload.JsonPayload? {
      return Some([instance]);
    }
    var newKey := JsonBranchKey(instance.payload.value, keys);
    if newKey.None? {
      return None;
    }
    for i := 0 to |entry|
      invariant forall j | 0 <= j < i :: !HasBranchKey(entry[j], keys, newKey.value)
    {
      if entry[i].payload.JsonPayload? {
        var existingKey := JsonBranchKey(entry[i].payload.value, keys);
        if existingKey == newKey {
          var merged := MergeJson(entry[i].payload.value, instance.payload.value);
          return Some(entry[i := entry[i].(payload := JsonPayload(merged))]);
        }
      }
    }
    return Some(entry + [instance]);
  }

  // ---- branch uniqueness ----

  predicate SameBranch(a: Instance, b: Instance, keys: seq<string>) {
    && a.payload.JsonPayload? && b.payload.JsonPayload?
    && BranchKey(a.payload.value, keys).Some?
    && BranchKey(a.payload.value, keys) == BranchKey(b.payload.value, keys)
  }

  predicate UniqueBranches(entry: seq<Instance>, keys: seq<string>) {
    forall i, j | 0 <= i < j < |entry| :: !SameBranch(entry[i], entry[j], keys)
  }

  predicate UniqueEntry(def: FacetDef, entry: seq<Instance>) {
    if def.payload == JsonType then UniqueBranches(entry, BranchKeys(def)) else |entry| <= 1
  }

  predicate Unique(rules: Rules, facets: Facets) {
    forall n | n in facets && n in rules.defs :: UniqueEntry(rules.defs[n], facets[n])
  }

  /** No forced copy that decides over a branch key has another value than the key itself. */
  predicate KeepsOwnBranch(b: Fields, keys: seq<string>) {
    forall k | k in keys && CopyWins(b.Keys, k) :: k in b && b["&" + k] == b[k]
  }

  /** Then, and only then, merging the object into itself keeps its branch key. */
  lemma OwnBranchIff(b: Fields, keys: seq<string>)
    requires BranchKey(Obj(b), keys).Some?
    ensures BranchKey(MergedValue(Obj(b), Obj(b)), keys) == BranchKey(Obj(b), keys) <==> KeepsOwnBranch(b, keys)
  {
    var m := Merged(b, b, b.Keys, "");
    BranchKeyIs(Obj(b), keys);
    BranchKeyIs(Obj(m), keys);
    forall k | k in keys ensures k in b && k in m && (m[k] == b[k] <==> (CopyWins(b.Keys, k) ==> b["&" + k] == b[k])) {
      MergedAt(b, b, k);
    }
    if KeepsOwnBranch(b, keys) {
      BranchKeyCong(Obj(b), Obj(m), keys);
    } else {
      var k :| k in keys && CopyWins(b.Keys, k) && b["&" + k] != b[k];
      var i :| 0 <= i < |keys| && keys[i] == k;
      assert BranchKey(Obj(m), keys).value[i] == m[k] != b[k] == BranchKey(Obj(b), keys).value[i];
    }
  }

  /** What a merge writes at a key does not depend on the object merged into. */
  lemma {:induction false} MergeAgrees(a: Fields, a': Fields, b: Fields, rest: set<string>, forced: string, x: string)
    requires rest <= b.Keys && x in a && x in a' && a[x] == a'[x]
    ensures x in Merged(a, b, rest, forced) && x in Merged(a', b, rest, forced)
    ensures Merged(a, b, rest, forced)[x] == Merged(a', b, rest, forced)[x]
    decreases |rest|
  {
    if rest != {} {
      var k := Least(rest);
      if forced == k {
        MergeAgrees(a, a', b, rest - {k}, forced, x);
      } else if IsForced(k) {
        MergeAgrees(a[k[1..] := b[k]], a'[k[1..] := b[k]], b, rest - {k}, k[1..], x);
      } else {
        MergeAgrees(a[k := b[k]], a'[k := b[k]], b, rest - {k}, forced, x);
      }
    }
  }

  lemma MergedBranch(a: Fields, b: Fields, keys: seq<string>)
    requires BranchKey(Obj(a), keys).Some? && BranchKey(Obj(a), keys) == BranchKey(Obj(b), keys)
    ensures BranchKey(MergedValue(Obj(a), Obj(b)), keys) == BranchKey(MergedValue(Obj(b), Obj(b)), keys)
    ensures BranchKey(MergedValue(Obj(a), Obj(b)), keys).Some?
  {
    BranchKeyIs(Obj(a), keys);
    BranchKeyIs(Obj(b), keys);
    var m, m' := Merged(a, b, b.Keys, ""), Merged(b, b, b.Keys, "");
    forall k | k in keys ensures k in m && k in m' && m[k] == m'[k] {
      var i :| 0 <= i < |keys| && keys[i] == k;
      MergeAgrees(a, b, b, b.Keys, "", k);
    }
    BranchKeyIs(Obj(m'), keys);
    BranchKeyCong(Obj(m'), Obj(m), keys);
  }

  /** Storing an instance keeps branches unique when the instance keeps its own branch. */
  lemma StoredKeepsUnique(entry: seq<Instance>, instance: Instance, keys: seq<string>)
    requires IsObject(instance.payload) && KeepsOwnBranch(instance.payload.value.fields, keys)
    requires UniqueBranches(entry, keys) && Stored(entry, instance, keys).Some?
    ensures UniqueBranches(Stored(entry, instance, keys).value, keys)
  {
    var key := BranchKey(instance.payload.value, keys).value;
    var i := FirstBranch(entry, keys, key);
    OwnBranchIff(instance.payload.value.fields, keys);
    if i < |entry| {
      MergedBranch(entry[i].payload.value.fields, instance.payload.value.fields, keys);
    }
  }

  /**
   A stored payload keeps every set of unique branches unique exactly when none of
   its forced copies that decide over a branch key has another value than the key.
   */
  lemma StoreKeepsUniqueIff(name: string, b: Fields, keys: seq<string>)
    requires BranchKey(Obj(b), keys).Some?
    ensures KeepsOwnBranch(b, keys) <==>
            forall entry | UniqueBranches(entry, keys) ::
              UniqueBranches(Stored(entry, Instance(name, JsonPayload(Obj(b)), Facet), keys).value, keys)
  {
    var instance := Instance(name, JsonPayload(Obj(b)), Facet);
    if KeepsOwnBranch(b, keys) {
      forall entry | UniqueBranches(entry, keys) ensures UniqueBranches(Stored(entry, instance, keys).value, keys) {
        StoredKeepsUnique(entry, instance, keys);
      }
    } else {
      OwnBranchIff(b, keys);
      MergedBranch(b, b, keys);
      var moved := instance.(payload := JsonPayload(MergedValue(Obj(b), Obj(b))));
      var entry := [instance, moved];
      assert UniqueBranches(entry, keys);
      var key := BranchKey(Obj(b), keys).value;
      assert HasBranchKey(entry[0], keys, key) && FirstBranch(entry, keys, key) == 0;
      var after := Stored(entry, instance, keys).value;
      assert SameBranch(after[0], after[1], keys);
    }
  }

  /** An id and a forced copy of a different id: merged into itself the object changes its branch exactly when the copy decides. */
  lemma ForcedIdMovesIff(b: Fields)
    requires "id" in b && "&id" in b && b["&id"] != b["id"]
    ensures BranchKey(Obj(b), ["id"]).Some?
    ensures BranchKey(MergedValue(Obj(b), Obj(b)), ["id"]) != BranchKey(Obj(b), ["id"]) <==> CopyWins(b.Keys, "id")
    ensures KeepsOwnBranch(b, ["id"]) <==> !CopyWins(b.Keys, "id")
  {
    assert "&" + "id" == "&id" && "id" in ["id"];
    BranchKeyIs(Obj(b), ["id"]);
    OwnBranchIff(b, ["id"]);
  }

  /** The two keys alone do move it; a second forced key, later in the order, gives the id back to the plain key. */
  lemma ForcedIdExamples(id: Value, other: Value, z: Value)
    requires id != other
    ensures !KeepsOwnBranch(map["id" := id, "&id" := other], ["id"])
    ensures KeepsOwnBranch(map["id" := id, "&id" := other, "&z" := z], ["id"])
  {
    var two: Fields, three: Fields := map["id" := id, "&id" := other], map["id" := id, "&id" := other, "&z" := z];
    assert "&" + "id" == "&id";
    assert AtMost("&id", "&id") by { AtMostTotal("&id", "&id"); }
    assert "id"[0] != "&"[0] && !IsForced("id");
    assert forall j | j in two.Keys && IsForced(j) :: j == "&id";
    NonePassed(two.Keys, "&id");
    assert CopyWins(two.Keys, "id");
    ForcedIdMovesIff(two);
    assert "&z" in three.Keys && IsForced("&z") && !AtMost("&z", "&id");
    assert !CopyWins(three.Keys, "id");
    ForcedIdMovesIff(three);
  }

  predicate IsBranchKey(rules: Rules, k: string) {
    exists n | n in rules.defs :: rules.defs[n].payload == JsonType && k in BranchKeys(rules.defs[n])
  }

  /** No key of the universe forces a branch key of any facet. */
  ghost predicate Clean(rules: Rules, u: Universe) {
    forall k | k in u.keys && IsForced(k) :: !IsBranchKey(rules, k[1..])
  }

  lemma CleanKeepsOwnBranch(rules: Rules, u: Universe, name: string, p: Payload)
    requires Clean(rules, u) && Within(u, p) && IsObject(p)
    requires name in rules.defs && rules.defs[name].payload == JsonType
    ensures KeepsOwnBranch(p.value.fields, BranchKeys(rules.defs[name]))
  {
    forall k | k in BranchKeys(rules.defs[name]) ensures "&" + k !in p.value.fields {
      var f := "&" + k;
      assert f[1..] == k && IsForced(f) && IsBranchKey(rules, f[1..]);
    }
  }

  lemma StoreKeepsUniverse(rules: Rules, u: Universe, entry: seq<Instance>, instance: Instance, keys: seq<string>)
    requires RulesIn(u, rules) && EntryIn(u, entry)
    requires instance.name in u.names && Within(u, instance.payload)
    ensures Stored(entry, instance, keys).Some? ==> EntryIn(u, Stored(entry, instance, keys).value)
  {
    if instance.payload.JsonPayload? && BranchKey(instance.payload.value, keys).Some? {
      var i := FirstBranch(entry, keys, BranchKey(instance.payload.value, keys).value);
      if i < |entry| {
        assert entry[i] in entry;
        MergedWithin(u, rules, entry[i].payload.value, instance.payload.value);
      }
    }
  }

  lemma StoreKeepsEntryUnique(rules: Rules, u: Universe, entry: seq<Instance>, instance: Instance)
    requires Clean(rules, u) && Within(u, instance.payload)
    requires instance.name in rules.defs && HasType(instance.payload, rules.defs[instance.name].payload)
    requires UniqueEntry(rules.defs[instance.name], entry)
    requires Stored(entry, instance, BranchKeys(rules.defs[instance.name])).Some?
    ensures UniqueEntry(rules.defs[instance.name], Stored(entry, instance, BranchKeys(rules.defs[instance.name])).value)
  {
    if instance.payload.JsonPayload? {
      CleanKeepsOwnBranch(rules, u, instance.name, instance.payload);
      StoredKeepsUnique(entry, instance, BranchKeys(rules.defs[instance.name]));
    }
  }

  // ---- the partition of remove_facet ----

  function Branches(facets: Facets, name: string): seq<Instance> {
    if name in facets then facets[name] else []
  }

  predicate CurrentlyActive(facets: Facets, name: string, payload: Payload) {
    exists b | b in Branches(facets, name) :: PayloadCompatible(Some(payload), b.payload)
  }

  function Selected(r: Rendering, filter: Option<MatchOperation>, entry: seq<Instance>, dropped: bool): (s: seq<Instance>)
    ensures forall i :: i in s <==> i in entry && Dropped(r, filter, i.payload) == dropped
    ensures |s| <= |entry|
  {
    if entry == [] then [] else
      var n := |entry| - 1;
      var init := Selected(r, filter, entry[..n], dropped);
      assert entry == entry[..n] + [entry[n]];
      if Dropped(r, filter, entry[n].payload) == dropped then init + [entry[n]] else init
  }

  /** The last instance of a unique entry shares its branch with none before it. */
  lemma UniqueInit(entry: seq<Instance>, keys: seq<string>)
    requires entry != [] && UniqueBranches(entry, keys)
    ensures UniqueBranches(entry[..|entry| - 1], keys) && NewBranch(entry[..|entry| - 1], entry[|entry| - 1], keys)
  {
    var n := |entry| - 1;
    forall i, j | 0 <= i < j < n ensures !SameBranch(entry[..n][i], entry[..n][j], keys) {
      assert entry[..n][i] == entry[i] && entry[..n][j] == entry[j];
    }
    forall i | i in entry[..n] ensures !SameBranch(i, entry[n], keys) {
      var k :| 0 <= k < n && entry[..n][k] == i;
      assert entry[k] == i;
    }
  }

  ghost predicate NewBranch(entry: seq<Instance>, last: Instance, keys: seq<string>) {
    forall i | i in entry :: !SameBranch(i, last, keys)
  }

  lemma UniquePush(entry: seq<Instance>, last: Instance, keys: seq<string>)
    requires UniqueBranches(entry, keys) && NewBranch(entry, last, keys)
    ensures UniqueBranches(entry + [last], keys)
  {
    var all := entry + [last];
    forall i, j | 0 <= i < j < |all| ensures !SameBranch(all[i], all[j], keys) {
      assert all[i] == entry[i] && entry[i] in entry;
    }
  }

  lemma {:induction false} SelectedUnique(r: Rendering, filter: Option<MatchOperation>, entry: seq<Instance>, dropped: bool, keys: seq<string>)
    requires UniqueBranches(entry, keys)
    ensures UniqueBranches(Selected(r, filter, entry, dropped), keys)
  {
    if entry != [] {
      var init, last := entry[..|entry| - 1], entry[|entry| - 1];
      UniqueInit(entry, keys);
      SelectedUnique(r, filter, init, dropped, keys);
      var chosen := Selected(r, filter, init, dropped);
      assert NewBranch(chosen, last, keys);
      UniquePush(chosen, last, keys);
    }
  }

  /** The removal by this payload's filter covers what the active test counts: same kind, or a payload without a filter. */
  predicate Covers(payload: Payload, stored: Payload) {
    SameKind(payload, stored) || payload.BytesPayload? || payload.NonePayload?
  }

  /** What a removal keeps no longer counts as active for the payload removed, when that covers the instances. */
  lemma RemovalDeactivates(rules: Rules, name: string, entry: seq<Instance>, payload: Payload)
    requires forall b | b in entry :: Covers(payload, b.payload)
    ensures !CurrentlyActive(map[name := Selected(rules.rendering, PayloadToFilter(payload), entry, false)], name, payload)
  {
    var kept := Selected(rules.rendering, PayloadToFilter(payload), entry, false);
    forall b | b in kept ensures !PayloadCompatible(Some(payload), b.payload) {
      if SameKind(payload, b.payload) && PayloadCompatible(Some(payload), b.payload) {
        CompatibleIsDropped(rules.rendering, payload, b.payload);
      }
    }
  }
}
