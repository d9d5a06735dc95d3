/**
 The finite universe a cascade stays in. A payload derived by projection or
 merge only rearranges top-level keys and values that were already there, so
 the payloads, and with them the guard keys, of one cascade form a finite set.
 */
module FlowUniverse {
  import opened Common
  import opened Json
  import opened FlowModel

  datatype Direction = Apply | Revert

  /** payload_signature: JSON and strings are told apart by content, raw bytes only by length. */
  datatype Signature = JsonSignature(value: Value) | TextSignature(text: string) | BytesSignature(length: nat) | NoneSignature

  datatype GuardKey = GuardKey(direction: Direction, name: string, signature: Signature)

  function SignatureOf(p: Option<Payload>): Signature {
    match p
    case Some(JsonPayload(v)) => JsonSignature(v)
    case Some(StringPayload(s)) => TextSignature(s)
    case Some(BytesPayload(b)) => BytesSignature(|b|)
    case Some(NonePayload(_)) => NoneSignature
    case None => NoneSignature
  }

  type Facets = map<string, seq<Instance>>

  /** Facet names, object keys, top-level values, and the payloads that are not JSON objects. */
  datatype Universe = Universe(names: set<string>, keys: set<string>, values: set<Value>, others: set<Payload>)

  predicate IsObject(p: Payload) {
    p.JsonPayload? && p.value.Obj?
  }

  ghost predicate Within(u: Universe, p: Payload) {
    if IsObject(p) then p.value.fields.Keys <= u.keys && p.value.fields.Values <= u.values else p in u.others
  }

  ghost predicate EntryIn(u: Universe, entry: seq<Instance>) {
    forall i | i in entry :: i.name in u.names && Within(u, i.payload)
  }

  ghost predicate GraphIn(u: Universe, facets: Facets) {
    forall n | n in facets && n in u.names :: EntryIn(u, facets[n])
  }

  ghost predicate IndexClosed(index: map<string, seq<string>>, names: set<string>) {
    forall n, t | n in names && n in index && t in index[n] :: t in names
  }

  /** The universe absorbs everything the rules can derive from it. */
  ghost predicate RulesIn(u: Universe, rules: Rules) {
    && IndexClosed(rules.afterIndex, u.names)
    && IndexClosed(rules.stopOnIndex, u.names)
    && NonePayload(false) in u.others
    && (forall k | k in u.keys && IsForced(k) :: k[1..] in u.keys)
    && (forall n | n in rules.defs :: DefIn(u, rules.defs[n]))
  }

  ghost predicate DefIn(u: Universe, def: FacetDef) {
    && (def.branch.Some? ==> forall s | s in def.branch.value :: TargetKey(s) in u.keys)
    && (def.autoPayloads.Some? ==> forall p | p in def.autoPayloads.value :: Within(u, p))
  }

  lemma TranscendentWithin(u: Universe, def: FacetDef, source: Payload)
    requires DefIn(u, def) && Within(u, source) && NonePayload(false) in u.others
    ensures TranscendentPayload(def, source).Some? ==> Within(u, TranscendentPayload(def, source).value)
  {
    if def.payload == JsonType && def.branch.Some? && IsObject(source) {
      ProjectedIs(def.branch.value, source.value.fields);
    }
  }

  lemma MergedWithin(u: Universe, rules: Rules, a: Value, b: Value)
    requires RulesIn(u, rules) && Within(u, JsonPayload(a)) && Within(u, JsonPayload(b))
    ensures Within(u, JsonPayload(MergedValue(a, b)))
  {
    if a.Obj? && b.Obj? {
      MergeWithin(a.fields, b.fields, b.fields.Keys, "", u.keys, u.values);
    }
  }

  // ---- the guard keys of a universe are finitely many ----

  ghost function AllObjects(keys: set<string>, values: set<Value>): set<Fields> {
    if keys == {} then {map[]} else
      var k := Least(keys);
      var smaller := AllObjects(keys - {k}, values);
      smaller + set f, v | f in smaller && v in values :: f[k := v]
  }

  lemma {:induction false} AllObjectsComplete(keys: set<string>, values: set<Value>, f: Fields)
    requires f.Keys <= keys && f.Values <= values
    ensures f in AllObjects(keys, values)
    decreases keys
  {
    if keys == {} {
      assert f == map[];
    } else {
      var k := Least(keys);
      if k in f {
        var g := map x | x in f && x != k :: f[x];
        AllObjectsComplete(keys - {k}, values, g);
        assert f == g[k := f[k]] && f[k] in values;
      } else {
        AllObjectsComplete(keys - {k}, values, f);
      }
    }
  }

  ghost function Signatures(u: Universe): set<Signature> {
    (set f | f in AllObjects(u.keys, u.values) :: JsonSignature(Obj(f)))
    + (set p | p in u.others :: SignatureOf(Some(p))) + {NoneSignature}
  }

  ghost function GuardKeys(u: Universe): set<GuardKey> {
    set d, n, s | d in {Apply, Revert} && n in u.names && s in Signatures(u) :: GuardKey(d, n, s)
  }

  lemma KeyInUniverse(u: Universe, d: Direction, name: string, p: Option<Payload>)
    requires name in u.names && (p.Some? ==> Within(u, p.value))
    ensures GuardKey(d, name, SignatureOf(p)) in GuardKeys(u)
  {
    if p.Some? && IsObject(p.value) {
      AllObjectsComplete(u.keys, u.values, p.value.value.fields);
    }
    assert SignatureOf(p) in Signatures(u);
  }

  /** The cascade's termination measure: the guard keys that may still be taken. */
  ghost function Unused(u: Universe, guard: set<GuardKey>): nat {
    |GuardKeys(u) - guard|
  }

  lemma {:induction false} SubsetSize<T>(a: set<T>, b: set<T>)
    requires a <= b
    ensures |a| <= |b| && (a != b ==> |a| < |b|)
  {
    assert b == a + (b - a);
    assert a != b ==> b - a != {};
  }

  lemma UnusedShrinks(u: Universe, guard: set<GuardKey>, guard': set<GuardKey>)
    requires guard <= guard'
    ensures Unused(u, guard') <= Unused(u, guard)
    ensures forall k | k in GuardKeys(u) && k in guard' && k !in guard :: Unused(u, guard') < Unused(u, guard)
  {
    SubsetSize(GuardKeys(u) - guard', GuardKeys(u) - guard);
  }

  // ---- every input has a universe ----

  /** The facets a cascade from `name` can touch: what the two indexes and stored instance names lead to. */
  ghost predicate ReachClosed(rules: Rules, facets: Facets, names: set<string>) {
    && IndexClosed(rules.afterIndex, names)
    && IndexClosed(rules.stopOnIndex, names)
    && forall n | n in names && n in facets :: forall i | i in facets[n] :: i.name in names
  }

  ghost function AllNames(rules: Rules, facets: Facets): set<string> {
    (set n, t | n in rules.afterIndex && t in rules.afterIndex[n] :: t)
    + (set n, t | n in rules.stopOnIndex && t in rules.stopOnIndex[n] :: t)
    + rules.stopOnIndex.Keys
    + (set n, i | n in facets && i in facets[n] :: i.name)
  }

  ghost predicate Reaches(rules: Rules, facets: Facets, name: string, n: string) {
    forall names: set<string> | ReachClosed(rules, facets, names) && name in names :: n in names
  }

  ghost function Reach(rules: Rules, facets: Facets, name: string): (r: set<string>)
    ensures name in r && ReachClosed(rules, facets, r)
  {
    var r := set n | n in AllNames(rules, facets) + {name} && Reaches(rules, facets, name, n);
    assert ReachClosed(rules, facets, r) by {
      forall n, t | n in r && n in rules.afterIndex && t in rules.afterIndex[n] ensures t in r {
        assert Reaches(rules, facets, name, t);
      }
      forall n, t | n in r && n in rules.stopOnIndex && t in rules.stopOnIndex[n] ensures t in r {
        assert Reaches(rules, facets, name, t);
      }
      forall n, i | n in r && n in facets && i in facets[n] ensures i.name in r {
        assert Reaches(rules, facets, name, i.name);
      }
    }
    r
  }

  lemma AllNamesClosed(rules: Rules, facets: Facets)
    ensures ReachClosed(rules, facets, AllNames(rules, facets))
  {
  }

  /** Every payload a cascade starts from: the stored ones, the automatic ones, and the one given. */
  ghost function StartPayloads(rules: Rules, facets: Facets, payload: Option<Payload>): set<Payload> {
    (set n, i | n in facets && i in facets[n] :: i.payload)
    + (set n, p | n in rules.defs && rules.defs[n].autoPayloads.Some? && p in rules.defs[n].autoPayloads.value :: p)
    + (if payload.Some? then {payload.value} else {})
    + {NonePayload(false)}
  }

  function ForcedDepth(k: string): (n: nat)
    ensures n <= |k|
  {
    if IsForced(k) then 1 + ForcedDepth(k[1..]) else 0
  }

  ghost function StartKeys(rules: Rules, payloads: set<Payload>): set<string> {
    (set p, k | p in payloads && IsObject(p) && k in p.value.fields :: k)
    + (set n, s | n in rules.defs && rules.defs[n].branch.Some? && s in rules.defs[n].branch.value :: TargetKey(s))
  }

  /** The keys with any number of their leading '&' removed. */
  ghost function Unforced(keys: set<string>): set<string> {
    set k, i | k in keys && 0 <= i <= ForcedDepth(k) :: k[i..]
  }

  lemma {:induction false} ForcedSuffix(k: string, i: nat)
    requires i <= ForcedDepth(k)
    ensures IsForced(k[i..]) <==> i < ForcedDepth(k)
  {
    if i > 0 {
      ForcedSuffix(k[1..], i - 1);
      assert k[1..][i - 1..] == k[i..];
    } else {
      assert k[0..] == k;
    }
  }

  ghost function UniverseOf(rules: Rules, facets: Facets, names: set<string>, payload: Option<Payload>): Universe {
    var payloads := StartPayloads(rules, facets, payload);
    Universe(
      names,
      Unforced(StartKeys(rules, payloads)),
      set p, k | p in payloads && IsObject(p) && k in p.value.fields :: p.value.fields[k],
      set p | p in payloads && !IsObject(p))
  }

  lemma StartWithin(rules: Rules, facets: Facets, names: set<string>, payload: Option<Payload>)
    ensures forall p | p in StartPayloads(rules, facets, payload) :: Within(UniverseOf(rules, facets, names, payload), p)
  {
    var u := UniverseOf(rules, facets, names, payload);
    var payloads := StartPayloads(rules, facets, payload);
    forall p | p in payloads ensures Within(u, p) {
      if IsObject(p) {
        forall k | k in p.value.fields ensures k in u.keys && p.value.fields[k] in u.values {
          assert k in StartKeys(rules, payloads) && k[0..] == k;
        }
      }
    }
  }

  /** Any rules, any graph, any payload: the cascade has a finite universe. */
  lemma UniverseExists(rules: Rules, facets: Facets, names: set<string>, payload: Option<Payload>)
    requires ReachClosed(rules, facets, names)
    ensures var u := UniverseOf(rules, facets, names, payload);
            && RulesIn(u, rules) && GraphIn(u, facets)
            && (payload.Some? ==> Within(u, payload.value))
  {
    var u := UniverseOf(rules, facets, names, payload);
    var payloads := StartPayloads(rules, facets, payload);
    var keys := StartKeys(rules, payloads);
    StartWithin(rules, facets, names, payload);
    forall k | k in u.keys && IsForced(k) ensures k[1..] in u.keys {
      var s, i :| s in keys && 0 <= i <= ForcedDepth(s) && k == s[i..];
      ForcedSuffix(s, i);
      assert k[1..] == s[i + 1..];
    }
    forall n | n in rules.defs ensures DefIn(u, rules.defs[n]) {
      if rules.defs[n].branch.Some? {
        forall s | s in rules.defs[n].branch.value ensures TargetKey(s) in u.keys {
          assert TargetKey(s) in keys && TargetKey(s)[0..] == TargetKey(s);
        }
      }
    }
  }
}
