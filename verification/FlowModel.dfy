/**
 The values the flow engine works on: payloads, match operations, facet
 definitions, branch keys and the in-place merge of JSON branches
 (crates/flow/src/triggers.rs and the types of crates/flow/src/flow.rs).
 */
module FlowModel {
  import opened Common
  import opened Json

  datatype Payload = JsonPayload(value: Value) | StringPayload(text: string) | BytesPayload(bytes: Bytes) | NonePayload(flag: bool)

  datatype PayloadType = JsonType | StringType | BytesType | NoneType

  datatype MatchOperation =
    | Eq(text: string)
    | Options(binary: Option<bool>, contains: Option<string>, like: Option<Value>)

  datatype FlowType = Impulse | Facet

  datatype Instance = Instance(name: string, payload: Payload, flowType: FlowType)

  datatype FlowItem =
    | Simple(name: string)
    | Detailed(facet: Option<string>, impulse: Option<string>, target: Option<MatchOperation>, branch: Option<MatchOperation>)

  datatype StopOn = StopOn(name: string, branch: Option<string>)

  /** `autoPayloads` is what auto_payloads_for yields under the (fixed) variables, when auto-payload is configured. */
  datatype FacetDef = FacetDef(
    payload: PayloadType,
    stopOn: Option<seq<StopOn>>,
    after: Option<seq<FlowItem>>,
    branch: Option<seq<string>>,
    autoPayloads: Option<seq<Payload>>)

  /** Rendering of JSON and of raw bytes as text, left uninterpreted. */
  datatype Rendering = Rendering(json: Value -> string, utf8: Bytes -> string)

  /** Everything a cascade reads but never writes. The targets of an index entry come in the order its hash set yields. */
  datatype Rules = Rules(
    defs: map<string, FacetDef>,
    afterIndex: map<string, seq<string>>,
    stopOnIndex: map<string, seq<string>>,
    rendering: Rendering)

  // ---- matching ----

  function ToText(r: Rendering, p: Payload): string {
    match p
    case JsonPayload(v) => r.json(v)
    case StringPayload(s) => s
    case BytesPayload(b) => r.utf8(b)
    case NonePayload(_) => ""
  }

  function ToJson(r: Rendering, p: Payload): Value {
    match p
    case JsonPayload(v) => v
    case StringPayload(s) => Str(s)
    case BytesPayload(b) => Str(r.utf8(b))
    case NonePayload(_) => Null
  }

  predicate Matches(r: Rendering, op: MatchOperation, p: Payload) {
    match op
    case Eq(s) => ToText(r, p) == s
    case Options(binary, contains, like) =>
      if binary == Some(true) then p.BytesPayload?
      else if contains.Some? then Contains(ToText(r, p), contains.value)
      else if like.Some? then SubsetMatch(like.value, ToJson(r, p))
      else false
  }

  function PayloadToFilter(p: Payload): Option<MatchOperation> {
    match p
    case JsonPayload(v) => Some(Options(None, None, Some(v)))
    case StringPayload(s) => Some(Eq(s))
    case _ => None
  }

  predicate PayloadCompatible(reference: Option<Payload>, thing: Payload) {
    match reference
    case None => true
    case Some(ref) =>
      match (ref, thing)
      case (JsonPayload(a), JsonPayload(b)) => JsonSubset(a, b)
      case (StringPayload(a), StringPayload(b)) => a == b
      case _ => true
  }

  predicate HasType(p: Payload, t: PayloadType) {
    match p
    case JsonPayload(_) => t == JsonType
    case StringPayload(_) => t == StringType
    case BytesPayload(_) => t == BytesType
    case NonePayload(_) => t == NoneType
  }

  function NameWithoutScope(name: string): string {
    name[..FirstIndex(name, '@')]
  }

  predicate SameFlowName(a: string, b: string) {
    a == b || NameWithoutScope(a) == NameWithoutScope(b)
  }

  predicate OperationHolds(r: Rendering, op: Option<MatchOperation>, p: Payload) {
    op.Some? ==> Matches(r, op.value, p)
  }

  predicate CheckCondition(r: Rendering, cond: FlowItem, trigger: Instance) {
    match cond
    case Simple(name) => SameFlowName(name, trigger.name)
    case Detailed(facet, impulse, target, branch) =>
      if facet.Some? then
        && trigger.flowType == Facet && SameFlowName(facet.value, trigger.name)
        && OperationHolds(r, target, trigger.payload) && OperationHolds(r, branch, trigger.payload)
      else if impulse.Some? then
        && trigger.flowType == Impulse && SameFlowName(impulse.value, trigger.name)
        && OperationHolds(r, target, trigger.payload) && OperationHolds(r, branch, trigger.payload)
      else false
  }

  /** The same facet under any two scopes, or without one, has the same flow name, and different facets have not. */
  lemma SameNameAnyScope(x: string, y: string, s: string, t: string)
    requires '@' !in x && '@' !in y
    ensures SameFlowName(x, x + "@" + s) && SameFlowName(x + "@" + t, x) && SameFlowName(x + "@" + t, x + "@" + s)
    ensures x != y ==> !SameFlowName(x, y) && !SameFlowName(x, y + "@" + s) && !SameFlowName(x + "@" + t, y + "@" + s)
  {
    ScopeStart(x, s);
    ScopeStart(x, t);
    ScopeStart(y, s);
  }

  lemma ScopeStart(x: string, s: string)
    requires '@' !in x
    ensures NameWithoutScope(x + "@" + s) == x && NameWithoutScope(x) == x
  {
    FirstIndexIs(x, '@', s);
  }

  /** `binary` comes first, then `contains`, then `as`; a plain text compares the whole text. */
  lemma MatchesIs(r: Rendering, p: Payload, text: string, binary: Option<bool>, like: Option<Value>)
    ensures Matches(r, Eq(text), p) <==> ToText(r, p) == text
    ensures Matches(r, Options(Some(true), Some(text), like), p) <==> p.BytesPayload?
    ensures binary != Some(true) ==>
              (Matches(r, Options(binary, Some(text), like), p) <==> exists before, after :: ToText(r, p) == before + text + after)
    ensures binary != Some(true) ==>
              (Matches(r, Options(binary, None, like), p) <==> like.Some? && SubsetMatch(like.value, ToJson(r, p)))
  {
    ContainsIff(ToText(r, p), text);
  }

  lemma ContainsIff(hay: string, needle: string)
    ensures Contains(hay, needle) <==> exists before, after :: hay == before + needle + after
  {
    if Contains(hay, needle) {
      var i :| 0 <= i <= |hay| && OccursAt(hay, needle, i);
      assert hay == hay[..i] + needle + hay[i + |needle|..];
    }
    if before, after :| hay == before + needle + after {
      assert hay[|before|..|before| + |needle|] == needle;
      assert OccursAt(hay, needle, |before|);
    }
  }

  /** remove_facet called with no filter drops everything; otherwise what the filter matches. */
  predicate Dropped(r: Rendering, filter: Option<MatchOperation>, p: Payload) {
    filter.Some? ==> Matches(r, filter.value, p)
  }

  predicate SameKind(p: Payload, q: Payload) {
    exists t {:trigger HasType(p, t)} :: HasType(p, t) && HasType(q, t)
  }

  /** What the currently-active test counts is what the matching removal drops, for payloads of one kind. */
  lemma {:induction false} CompatibleIsDropped(r: Rendering, payload: Payload, stored: Payload)
    requires SameKind(payload, stored) && PayloadCompatible(Some(payload), stored)
    ensures Dropped(r, PayloadToFilter(payload), stored)
  {
    match (payload, stored)
    case (JsonPayload(a), JsonPayload(b)) => JsonSubsetImpliesSubsetMatch(a, b);
    case _ =>
  }

  /** On payloads of these kinds, whatever the active test counts the matching removal drops. */
  ghost predicate TestsAgree(r: Rendering, a: PayloadType, b: PayloadType) {
    forall p, q | HasType(p, a) && HasType(q, b) && PayloadCompatible(Some(p), q) :: Dropped(r, PayloadToFilter(p), q)
  }

  /** The active test and the removal agree on one kind, and under a bytes or none payload, whose removal has no filter; nowhere else. */
  lemma TestsAgreeIff(r: Rendering, a: PayloadType, b: PayloadType)
    ensures TestsAgree(r, a, b) <==> a == b || a == BytesType || a == NoneType
  {
    if a == b || a == BytesType || a == NoneType {
      forall p, q | HasType(p, a) && HasType(q, b) && PayloadCompatible(Some(p), q) ensures Dropped(r, PayloadToFilter(p), q) {
        if a == b {
          CompatibleIsDropped(r, p, q);
        }
      }
    } else {
      var q := match b
        case JsonType => JsonPayload(Null)
        case StringType => StringPayload("")
        case BytesType => BytesPayload([])
        case NoneType => NonePayload(false);
      KeptAcrossKinds(r, a, q);
      var p :| HasType(p, a) && PayloadCompatible(Some(p), q) && !Dropped(r, PayloadToFilter(p), q);
      assert HasType(q, b);
    }
  }

  /** A JSON or text payload whose removal keeps this instance of another kind, though the active test counts it. */
  lemma KeptAcrossKinds(r: Rendering, a: PayloadType, q: Payload)
    requires (a == JsonType || a == StringType) && !HasType(q, a)
    ensures exists p :: HasType(p, a) && PayloadCompatible(Some(p), q) && !Dropped(r, PayloadToFilter(p), q)
  {
    if a == JsonType {
      var v := if q.NonePayload? then Bool(true) else Null;
      assert !SubsetMatch(v, ToJson(r, q));
      var p := JsonPayload(v);
      assert HasType(p, a) && PayloadCompatible(Some(p), q) && !Dropped(r, PayloadToFilter(p), q);
    } else {
      var p := StringPayload(ToText(r, q) + "x");
      assert |ToText(r, q) + "x"| != |ToText(r, q)|;
      assert HasType(p, a) && PayloadCompatible(Some(p), q) && !Dropped(r, PayloadToFilter(p), q);
    }
  }

  /** A wider removal payload drops no more: what payload p drops, any p' below it drops too. */
  lemma {:induction false} DroppedMonotone(r: Rendering, v': Value, v: Value, w: Value, w': Value)
    requires JsonSubset(v', v) && JsonSubset(w, w')
    requires Dropped(r, PayloadToFilter(JsonPayload(v)), JsonPayload(w))
    ensures Dropped(r, PayloadToFilter(JsonPayload(v')), JsonPayload(w'))
  {
    SubsetMatchNarrowFilter(v', v, w);
    SubsetMatchWidenPayload(v', w, w');
  }

  // ---- branch specs, branch keys ----

  function SplitColon(spec: string): Option<(string, string)> {
    var i := FirstIndex(spec, ':');
    if i < |spec| then Some((spec[..i], spec[i + 1..])) else None
  }

  function TargetKey(spec: string): string {
    match SplitColon(spec)
    case Some((target, _)) => Trim(target)
    case None => spec
  }

  function SourceKey(spec: string): string {
    match SplitColon(spec)
    case Some((_, source)) => Trim(source)
    case None => spec
  }

  /** "target:source" names two keys, trimmed; a spec without ':' names one for both. */
  lemma SpecKeys(target: string, source: string)
    requires ':' !in target
    ensures TargetKey(target + ":" + source) == Trim(target) && SourceKey(target + ":" + source) == Trim(source)
    ensures TargetKey(target) == target && SourceKey(target) == target
  {
    FirstIndexIs(target, ':', source);
    var spec := target + ":" + source;
    assert spec[..|target|] == target && spec[|target| + 1..] == source;
  }

  function BranchKeys(def: FacetDef): seq<string> {
    match def.branch
    case None => ["id"]
    case Some(specs) => seq(|specs|, i requires 0 <= i < |specs| => TargetKey(specs[i]))
  }

  function BranchKey(v: Value, keys: seq<string>): Option<seq<Value>> {
    if !v.Obj? then None
    else if keys == [] then Some([])
    else if keys[0] !in v.fields then None
    else
      match BranchKey(v, keys[1..])
      case None => None
      case Some(rest) => Some([v.fields[keys[0]]] + rest)
  }

  /** A branch key is the tuple of the values at the keys, and exists when all of them are present. */
  lemma {:induction false} BranchKeyIs(v: Value, keys: seq<string>)
    ensures BranchKey(v, keys).Some? <==> v.Obj? && forall k | k in keys :: k in v.fields
    ensures BranchKey(v, keys).Some? ==>
              && |BranchKey(v, keys).value| == |keys|
              && forall i | 0 <= i < |keys| :: BranchKey(v, keys).value[i] == v.fields[keys[i]]
  {
    if v.Obj? && keys != [] {
      BranchKeyIs(v, keys[1..]);
    }
  }

  /** Objects that agree on the branch keys have the same branch key. */
  lemma BranchKeyCong(v: Value, w: Value, keys: seq<string>)
    requires v.Obj? && w.Obj? && BranchKey(v, keys).Some?
    requires forall k | k in keys && k in v.fields :: k in w.fields && w.fields[k] == v.fields[k]
    ensures BranchKey(w, keys) == BranchKey(v, keys)
  {
    BranchKeyIs(v, keys);
    BranchKeyIs(w, keys);
    assert BranchKey(w, keys).value == BranchKey(v, keys).value;
  }

  method JsonBranchKey(v: Value, keys: seq<string>) returns (key: Option<seq<Value>>)
    ensures key == BranchKey(v, keys)
  {
    BranchKeyIs(v, keys);
    if !v.Obj? {
      return None;
    }
    var out := [];
    for i := 0 to |keys|
      invariant |out| == i
      invariant forall j | 0 <= j < i :: keys[j] in v.fields && out[j] == v.fields[keys[j]]
    {
      if keys[i] !in v.fields {
        return None;
      }
      out := out + [v.fields[keys[i]]];
    }
    assert BranchKey(v, keys).Some? && out == BranchKey(v, keys).value;
    return Some(out);
  }

  // ---- map_json_payload ----

  /** The object the branch specs project out of a source object; None when a source key is missing. */
  function Projected(specs: seq<string>, source: Fields): Option<Fields> {
    if specs == [] then Some(map[])
    else
      var spec := specs[|specs| - 1];
      match Projected(specs[..|specs| - 1], source)
      case None => None
      case Some(m) =>
        if SourceKey(spec) in source then Some(m[TargetKey(spec) := source[SourceKey(spec)]]) else None
  }

  function MappedPayload(specs: seq<string>, source: Payload): Option<Payload> {
    if source.JsonPayload? && source.value.Obj? then
      match Projected(specs, source.value.fields)
      case None => None
      case Some(m) => Some(JsonPayload(Obj(m)))
    else None
  }

  /** A projection exists exactly when every source key does; its keys are the target keys, its values source values. */
  lemma {:induction false} ProjectedIs(specs: seq<string>, source: Fields)
    ensures Projected(specs, source).Some? <==> forall s | s in specs :: SourceKey(s) in source
    ensures Projected(specs, source).Some? ==>
              var m := Projected(specs, source).value;
              && (forall s | s in specs :: TargetKey(s) in m)
              && (forall k | k in m :: exists s | s in specs :: TargetKey(s) == k && SourceKey(s) in source && m[k] == source[SourceKey(s)])
  {
    if specs != [] {
      var n := |specs| - 1;
      assert specs == specs[..n] + [specs[n]];
      ProjectedIs(specs[..n], source);
      if Projected(specs, source).Some? {
        var m := Projected(specs, source).value;
        forall k | k in m
          ensures exists s | s in specs :: TargetKey(s) == k && SourceKey(s) in source && m[k] == source[SourceKey(s)]
        {
          if k == TargetKey(specs[n]) {
            assert specs[n] in specs;
          } else {
            var s :| s in specs[..n] && TargetKey(s) == k && SourceKey(s) in source && m[k] == source[SourceKey(s)];
            assert s in specs;
          }
        }
      }
    }
  }

  /** When several specs share a target, the last one decides. */
  lemma {:induction false} ProjectedLastWins(specs: seq<string>, source: Fields, i: nat)
    requires Projected(specs, source).Some? && i < |specs|
    requires forall j | i < j < |specs| :: TargetKey(specs[j]) != TargetKey(specs[i])
    ensures SourceKey(specs[i]) in source && TargetKey(specs[i]) in Projected(specs, source).value
    ensures Projected(specs, source).value[TargetKey(specs[i])] == source[SourceKey(specs[i])]
  {
    var n := |specs| - 1;
    if i < n {
      ProjectedLastWins(specs[..n], source, i);
      assert specs[..n][i] == specs[i];
    }
  }

  method MapJsonPayload(specs: seq<string>, source: Payload) returns (r: Option<Payload>)
    ensures r == MappedPayload(specs, source)
  {
    if !source.JsonPayload? || !source.value.Obj? {
      return None;
    }
    var mapped: Fields := map[];
    for i := 0 to |specs|
      invariant Projected(specs[..i], source.value.fields) == Some(mapped)
    {
      assert specs[..i + 1][..i] == specs[..i];
      if SourceKey(specs[i]) !in source.value.fields {
        ProjectedIs(specs, source.value.fields);
        return None;
      }
      mapped := mapped[TargetKey(specs[i]) := source.value.fields[SourceKey(specs[i])]];
    }
    assert specs[..|specs|] == specs;
    return Some(JsonPayload(Obj(mapped)));
  }

  function TranscendentPayload(def: FacetDef, source: Payload): Option<Payload> {
    match def.payload
    case JsonType =>
      if def.branch.Some? then MappedPayload(def.branch.value, source)
      else if source.JsonPayload? then Some(source) else None
    case StringType => if source.StringPayload? then Some(source) else None
    case BytesType => if source.BytesPayload? then Some(source) else None
    case NoneType => Some(NonePayload(false))
  }

  // ---- merge_json ----

  predicate AtMost(a: string, b: string) {
    a == [] || (b != [] && (a[0] < b[0] || (a[0] == b[0] && AtMost(a[1..], b[1..]))))
  }

  lemma {:induction false} AtMostTotal(a: string, b: string)
    ensures AtMost(a, b) || AtMost(b, a)
    ensures AtMost(a, b) && AtMost(b, a) ==> a == b
  {
    if a != [] && b != [] && a[0] == b[0] {
      AtMostTotal(a[1..], b[1..]);
      assert a == [a[0]] + a[1..] && b == [b[0]] + b[1..];
    }
  }

  lemma {:induction false} AtMostTransitive(a: string, b: string, c: string)
    requires AtMost(a, b) && AtMost(b, c)
    ensures AtMost(a, c)
  {
    if a != [] && c != [] && a[0] == b[0] == c[0] {
      AtMostTransitive(a[1..], b[1..], c[1..]);
    }
  }

  predicate IsLeast(k: string, s: set<string>) {
    k in s && forall j | j in s :: AtMost(k, j)
  }

  lemma {:induction false} LeastExists(s: set<string>)
    requires s != {}
    ensures exists k :: IsLeast(k, s)
  {
    var k :| k in s;
    if s == {k} {
      AtMostTotal(k, k);
      assert IsLeast(k, s);
    } else {
      LeastExists(s - {k});
      var l :| IsLeast(l, s - {k});
      AtMostTotal(k, l);
      AtMostTotal(k, k);
      if AtMost(k, l) {
        forall j | j in s ensures AtMost(k, j) {
          if j != k { AtMostTransitive(k, l, j); }
        }
        assert IsLeast(k, s);
      } else {
        assert IsLeast(l, s);
      }
    }
  }

  ghost function Least(s: set<string>): (k: string)
    requires s != {}
    ensures IsLeast(k, s)
  {
    LeastExists(s);
    var k :| IsLeast(k, s);
    k
  }

  predicate IsForced(k: string) {
    StartsWith(k, "&")
  }

  /** merge_json over the keys `rest` of `b`, taken in ascending order, with the last forced key in `forced`. */
  ghost function Merged(a: Fields, b: Fields, rest: set<string>, forced: string): Fields
    requires rest <= b.Keys
    decreases |rest|
  {
    if rest == {} then a else
      var k := Least(rest);
      if forced == k then Merged(a, b, rest - {k}, forced)
      else if IsForced(k) then Merged(a[k[1..] := b[k]], b, rest - {k}, k[1..])
      else Merged(a[k := b[k]], b, rest - {k}, forced)
  }

  ghost function MergedValue(a: Value, b: Value): Value {
    if a.Obj? && b.Obj? then Obj(Merged(a.fields, b.fields, b.fields.Keys, "")) else a
  }

  method MergeJson(a: Value, b: Value) returns (m: Value)
    ensures m == MergedValue(a, b)
  {
    if !a.Obj? || !b.Obj? {
      return a;
    }
    var fields, forced, rest := a.fields, "", b.fields.Keys;
    while rest != {}
      invariant rest <= b.fields.Keys
      invariant Merged(fields, b.fields, rest, forced) == Merged(a.fields, b.fields, b.fields.Keys, "")
      decreases |rest|
    {
      LeastExists(rest);
      var k: string :| IsLeast(k, rest);
      AtMostTotal(k, Least(rest));
      rest := rest - {k};
      if forced != k {
        if IsForced(k) {
          fields, forced := fields[k[1..] := b.fields[k]], k[1..];
        } else {
          fields := fields[k := b.fields[k]];
        }
      }
    }
    return Obj(fields);
  }

  /** A key of `a` on which `b` agrees, and of which `b` has no forced copy, survives the merge unchanged. */
  lemma {:induction false} MergeKeeps(a: Fields, b: Fields, rest: set<string>, forced: string, x: string)
    requires rest <= b.Keys && x in a && "&" + x !in rest
    requires x in b ==> b[x] == a[x]
    ensures x in Merged(a, b, rest, forced) && Merged(a, b, rest, forced)[x] == a[x]
    decreases |rest|
  {
    if rest != {} {
      var k := Least(rest);
      if IsForced(k) { assert k == "&" + k[1..]; }
      if forced == k {
        MergeKeeps(a, b, rest - {k}, forced, x);
      } else if IsForced(k) {
        MergeKeeps(a[k[1..] := b[k]], b, rest - {k}, k[1..], x);
      } else {
        MergeKeeps(a[k := b[k]], b, rest - {k}, forced, x);
      }
    }
  }

  /** Merging writes only keys and values that were there, up to stripping one '&'. */
  lemma {:induction false} MergeWithin(a: Fields, b: Fields, rest: set<string>, forced: string, keys: set<string>, values: set<Value>)
    requires rest <= b.Keys && a.Keys <= keys && b.Keys <= keys && a.Values <= values && b.Values <= values
    requires forall k | k in keys && IsForced(k) :: k[1..] in keys
    ensures Merged(a, b, rest, forced).Keys <= keys && Merged(a, b, rest, forced).Values <= values
    decreases |rest|
  {
    if rest != {} {
      var k := Least(rest);
      assert b[k] in b.Values;
      if forced == k {
        MergeWithin(a, b, rest - {k}, forced, keys, values);
      } else if IsForced(k) {
        MergeWithin(a[k[1..] := b[k]], b, rest - {k}, k[1..], keys, values);
      } else {
        MergeWithin(a[k := b[k]], b, rest - {k}, forced, keys, values);
      }
    }
  }
}
