/**
 A removal that loses an instance its own cascade stored (crates/flow/src/flow.rs).
 Facet `a` is active on its own unless `b` is, and `b` follows one instance of
 `a`. Removing that instance reverts `b`, which applies `a` anew; the kept
 instance is then put back over the new one.
 */
module FlowLoss {
  import opened Common
  import opened Json
  import opened FlowModel
  import opened FlowUniverse
  import opened FlowBranches
  import opened FlowCascade
  import opened FlowReach

  function WithId(id: string): Value {
    Obj(map["id" := Str(id)])
  }

  function Like(id: string): MatchOperation {
    Options(None, None, Some(WithId(id)))
  }

  function Item(name: string, id: string): Instance {
    Instance(name, JsonPayload(WithId(id)), Facet)
  }

  function Mark(name: string): Instance {
    Instance(name, NonePayload(false), Facet)
  }

  function LoopRules(r: Rendering, a: string, b: string, x: string, z: string): Rules {
    Rules(
      map[a := FacetDef(JsonType, Some([StopOn(b, None)]), None, None, Some([JsonPayload(WithId(z))])),
          b := FacetDef(NoneType, None, Some([Detailed(Some(a), None, Some(Like(x)), None)]), None, None)],
      map[a := [b]],
      map[b := [a]],
      r)
  }

  /** Two names, three ids, and a universe for the rules. */
  ghost predicate Setting(r: Rendering, a: string, b: string, x: string, y: string, z: string, u: Universe) {
    a != b && x != y && x != z && y != z && RulesIn(u, LoopRules(r, a, b, x, z)) && a in u.names && b in u.names
  }

  lemma IdsMatch(r: Rendering, name: string, x: string, y: string)
    ensures Matches(r, Like(x), JsonPayload(WithId(y))) <==> x == y
  {
    var f, g := map["id" := Str(x)], map["id" := Str(y)];
    assert "id" in f && f["id"] == Str(x) && g["id"] == Str(y);
    assert SubsetMatch(Str(x), Str(y)) <==> x == y;
  }

  /** b reacts to the instance x of a, and to no other. */
  lemma HandsOver(r: Rendering, a: string, b: string, x: string, z: string, id: string)
    requires a != b
    ensures Handover(LoopRules(r, a, b, x, z), b, Item(a, id)) == if id == x then Some(NonePayload(false)) else None
  {
    var rules := LoopRules(r, a, b, x, z);
    IdsMatch(r, a, x, id);
    var cond := Detailed(Some(a), None, Some(Like(x)), None);
    assert rules.defs[b].after.value == [cond];
    assert CheckCondition(r, cond, Item(a, id)) <==> id == x;
    assert cond in rules.defs[b].after.value;
  }

  // ---- putting single steps together ----

  lemma RemoveVia(rules: Rules, u: Universe, s: State, name: string, filter: Option<MatchOperation>, kept: seq<Instance>, after: State)
    requires RulesIn(u, rules) && GraphIn(u, s.facets) && name in u.names && name in s.facets
    requires CascadeOf(rules, u, s, name, filter) == Step(after, Done)
    requires Selected(rules.rendering, filter, s.facets[name], false) == kept
    ensures Remove(rules, u, s, name, filter) == Step(if kept == [] then after else after.(facets := after.facets[name := kept]), Done)
  {
  }

  lemma SetVia(rules: Rules, u: Universe, s: State, name: string, p: Payload, facets: Facets, after: State)
    requires RulesIn(u, rules) && GraphIn(u, s.facets) && name in u.names && Within(u, p)
    requires name in rules.defs && HasType(p, rules.defs[name].payload)
    requires GuardKey(Apply, name, SignatureOf(Some(p))) !in s.guard
    requires Enter(rules, s.facets, Instance(name, p, Facet)) == (facets, true) && GraphIn(u, facets)
    requires Spread(rules, u, State(facets, s.guard + {GuardKey(Apply, name, SignatureOf(Some(p)))}, s.events + [Event(name, p, Apply)]), Instance(name, p, Facet))
          == Step(after, Done)
    ensures Set(rules, u, s, name, Some(p)) == Step(after.(guard := after.guard - {GuardKey(Apply, name, SignatureOf(Some(p)))}), Done)
  {
  }

  lemma RevertalVia(rules: Rules, u: Universe, s: State, branch: Instance, mid: State, after: State)
    requires RulesIn(u, rules) && GraphIn(u, s.facets) && branch.name in u.names && Within(u, branch.payload)
    requires GuardKey(Revert, branch.name, SignatureOf(Some(branch.payload))) !in s.guard
    requires var reverted := State(s.facets, s.guard + {GuardKey(Revert, branch.name, SignatureOf(Some(branch.payload)))}, s.events + [Event(branch.name, branch.payload, Revert)]);
             Transcend(rules, u, reverted, branch, Revert, Targets(rules.afterIndex, branch.name)) == Step(mid, Done)
    requires GraphIn(u, mid.facets)
    requires Inverse(rules, u, mid, branch, Revert, Targets(rules.stopOnIndex, branch.name)) == Step(after, Done)
    ensures Revertal(rules, u, s, branch)
         == Step(after.(guard := after.guard - {GuardKey(Revert, branch.name, SignatureOf(Some(branch.payload)))}), Done)
  {
  }

  lemma TranscendOne(rules: Rules, u: Universe, s: State, source: Instance, target: string, payload: Payload, after: State)
    requires RulesIn(u, rules) && GraphIn(u, s.facets) && Within(u, source.payload) && target in u.names
    requires Handover(rules, target, source) == Some(payload)
    requires Remove(rules, u, s, target, PayloadToFilter(payload)) == Step(after, Done) && GraphIn(u, after.facets)
    ensures Transcend(rules, u, s, source, Revert, [target]) == Step(after, Done)
  {
    var targets := [target];
    assert targets[0] == target && targets[1..] == [];
    assert Transcend(rules, u, after, source, Revert, []) == Step(after, Done);
  }

  lemma OneReverted(rules: Rules, u: Universe, s: State, branch: Instance, after: State)
    requires RulesIn(u, rules) && GraphIn(u, s.facets) && branch.name in u.names && Within(u, branch.payload) && branch.flowType == Facet
    requires Revertal(rules, u, s, branch) == Step(after, Done)
    ensures RevertEach(rules, u, s, [branch]) == Step(after, Done)
  {
    var dropped := [branch];
    assert dropped[0] == branch && dropped[1..] == [];
    assert RevertEach(rules, u, after, []) == Step(after, Done);
  }

  // ---- the run, from its end ----

  ghost function Reverting(a: string, b: string, x: string, both: bool): set<GuardKey> {
    {GuardKey(Revert, a, JsonSignature(WithId(x)))} + if both then {GuardKey(Revert, b, NoneSignature)} else {}
  }

  ghost function Story(a: string, b: string, x: string, z: string): seq<Event> {
    [Event(a, JsonPayload(WithId(x)), Revert), Event(b, NonePayload(false), Revert), Event(a, JsonPayload(WithId(z)), Apply)]
  }

  lemma FirstStored(name: string, id: string)
    ensures Stored([], Item(name, id), ["id"]) == Some([Item(name, id)])
  {
    BranchKeyIs(WithId(id), ["id"]);
    assert "id" in WithId(id).fields;
    var key := BranchKey(WithId(id), ["id"]).value;
    assert FirstBranch([], ["id"], key) == 0;
    assert [] + [Item(name, id)] == [Item(name, id)];
  }

  lemma ReapplyEnters(r: Rendering, a: string, b: string, x: string, z: string)
    requires a != b
    ensures Enter(LoopRules(r, a, b, x, z), map[], Item(a, z)) == (map[a := [Item(a, z)]], true)
  {
    assert BranchKeys(LoopRules(r, a, b, x, z).defs[a]) == ["id"];
    FirstStored(a, z);
  }

  lemma NothingFollows(r: Rendering, a: string, b: string, x: string, y: string, z: string, u: Universe, s: State)
    requires Setting(r, a, b, x, y, z, u) && GraphIn(u, s.facets) && Within(u, JsonPayload(WithId(z)))
    ensures Spread(LoopRules(r, a, b, x, z), u, s, Item(a, z)) == Step(s, Done)
  {
    var rules := LoopRules(r, a, b, x, z);
    HandsOver(r, a, b, x, z, z);
    var targets := Targets(rules.afterIndex, a);
    assert targets == [b] && targets[0] == b && targets[1..] == [];
    assert Transcend(rules, u, s, Item(a, z), Apply, targets) == Transcend(rules, u, s, Item(a, z), Apply, []) == Step(s, Done);
    assert Targets(rules.stopOnIndex, a) == [];
  }

  lemma Reapplied(r: Rendering, a: string, b: string, x: string, y: string, z: string, u: Universe)
    requires Setting(r, a, b, x, y, z, u)
    ensures Within(u, JsonPayload(WithId(z)))
    ensures var held := Reverting(a, b, x, true);
            Set(LoopRules(r, a, b, x, z), u, State(map[], held, Story(a, b, x, z)[..2]), a, Some(JsonPayload(WithId(z))))
              == Step(State(map[a := [Item(a, z)]], held, Story(a, b, x, z)), Done)
  {
    var rules, p := LoopRules(r, a, b, x, z), JsonPayload(WithId(z));
    assert DefIn(u, rules.defs[a]) && p in rules.defs[a].autoPayloads.value;
    var held, key := Reverting(a, b, x, true), GuardKey(Apply, a, SignatureOf(Some(p)));
    var s := State(map[], held, Story(a, b, x, z)[..2]);
    var entered := State(map[a := [Item(a, z)]], held + {key}, s.events + [Event(a, p, Apply)]);
    assert entered.events == Story(a, b, x, z);
    ReapplyEnters(r, a, b, x, z);
    NothingFollows(r, a, b, x, y, z, u, entered);
    SetVia(rules, u, s, a, p, entered.facets, entered);
    assert held + {key} - {key} == held;
  }

  ghost function Reborn(a: string, b: string, x: string, z: string, both: bool): Step {
    Step(State(map[a := [Item(a, z)]], Reverting(a, b, x, both), Story(a, b, x, z)), Done)
  }

  /** The single candidate of a is set. */
  lemma Reconsidered(r: Rendering, a: string, b: string, x: string, y: string, z: string, u: Universe)
    requires Setting(r, a, b, x, y, z, u)
    ensures var rules := LoopRules(r, a, b, x, z); var s := State(map[], Reverting(a, b, x, true), Story(a, b, x, z)[..2]);
            && rules.defs[a].stopOn.Some? && Within(u, JsonPayload(WithId(z)))
            && Candidates(rules.defs[a], Branches(s.facets, a)) == [JsonPayload(WithId(z))]
            && Reconsider(rules, u, s, Mark(b), Revert, a, [JsonPayload(WithId(z))]) == Reborn(a, b, x, z, true)
  {
    var rules, p := LoopRules(r, a, b, x, z), JsonPayload(WithId(z));
    var s := State(map[], Reverting(a, b, x, true), Story(a, b, x, z)[..2]);
    Reapplied(r, a, b, x, y, z, u);
    var def := rules.defs[a];
    assert def.stopOn.value == [StopOn(b, None)];
    assert ShouldActivate(rules, s.facets, def, p, Mark(b), Revert);
    assert !CurrentlyActive(s.facets, a, p);
    var after := Reborn(a, b, x, z, true);
    assert Settle(rules, u, s, Mark(b), Revert, a, p) == after;
    assert [p][0] == p && [p][1..] == [];
    assert Reconsider(rules, u, after.state, Mark(b), Revert, a, []) == after;
  }

  /** The stop-on side of reverting b: its one target is a. */
  lemma InverseOfMark(r: Rendering, a: string, b: string, x: string, y: string, z: string, u: Universe)
    requires Setting(r, a, b, x, y, z, u)
    ensures Inverse(LoopRules(r, a, b, x, z), u, State(map[], Reverting(a, b, x, true), Story(a, b, x, z)[..2]), Mark(b), Revert, [a])
         == Reborn(a, b, x, z, true)
  {
    var rules, after := LoopRules(r, a, b, x, z), Reborn(a, b, x, z, true);
    var s := State(map[], Reverting(a, b, x, true), Story(a, b, x, z)[..2]);
    Reconsidered(r, a, b, x, y, z, u);
    var targets: seq<string> := [a];
    assert targets[0] == a && targets[1..] == [];
    assert Inverse(rules, u, after.state, Mark(b), Revert, []) == after;
  }

  /** Guard and events on both sides of reverting b. */
  lemma MarkBooks(a: string, b: string, x: string, z: string)
    requires a != b
    ensures var key := GuardKey(Revert, b, NoneSignature);
            && key !in Reverting(a, b, x, false) && Reverting(a, b, x, false) + {key} == Reverting(a, b, x, true)
            && Reverting(a, b, x, true) - {key} == Reverting(a, b, x, false)
    ensures Story(a, b, x, z)[..1] + [Event(b, NonePayload(false), Revert)] == Story(a, b, x, z)[..2]
  {
  }

  lemma MarkReverted(r: Rendering, a: string, b: string, x: string, y: string, z: string, u: Universe)
    requires Setting(r, a, b, x, y, z, u)
    ensures Revertal(LoopRules(r, a, b, x, z), u, State(map[], Reverting(a, b, x, false), Story(a, b, x, z)[..1]), Mark(b))
         == Reborn(a, b, x, z, false)
  {
    var rules := LoopRules(r, a, b, x, z);
    var s := State(map[], Reverting(a, b, x, false), Story(a, b, x, z)[..1]);
    var reverted := State(map[], Reverting(a, b, x, true), Story(a, b, x, z)[..2]);
    MarkBooks(a, b, x, z);
    assert Targets(rules.afterIndex, b) == [] && Targets(rules.stopOnIndex, b) == [a];
    assert Transcend(rules, u, reverted, Mark(b), Revert, []) == Step(reverted, Done);
    InverseOfMark(r, a, b, x, y, z, u);
    RevertalVia(rules, u, s, Mark(b), reverted, Reborn(a, b, x, z, true).state);
  }

  lemma AllSelected(r: Rendering, i: Instance)
    ensures Selected(r, None, [i], true) == [i] && Selected(r, None, [i], false) == []
  {
    assert [i][..0] == [];
  }

  lemma MarkRemoved(r: Rendering, a: string, b: string, x: string, y: string, z: string, u: Universe)
    requires Setting(r, a, b, x, y, z, u)
    ensures GraphIn(u, map[b := [Mark(b)]])
    ensures Remove(LoopRules(r, a, b, x, z), u, State(map[b := [Mark(b)]], Reverting(a, b, x, false), Story(a, b, x, z)[..1]), b, None)
         == Reborn(a, b, x, z, false)
  {
    var rules := LoopRules(r, a, b, x, z);
    var s := State(map[b := [Mark(b)]], Reverting(a, b, x, false), Story(a, b, x, z)[..1]);
    AllSelected(r, Mark(b));
    assert s.facets - {b} == map[];
    MarkReverted(r, a, b, x, y, z, u);
    OneReverted(rules, u, s.(facets := map[]), Mark(b), Reborn(a, b, x, z, false).state);
    RemoveVia(rules, u, s, b, None, [], Reborn(a, b, x, z, false).state);
  }

  lemma ItemReverted(r: Rendering, a: string, b: string, x: string, y: string, z: string, u: Universe)
    requires Setting(r, a, b, x, y, z, u) && Within(u, JsonPayload(WithId(x)))
    ensures GraphIn(u, map[b := [Mark(b)]])
    ensures Revertal(LoopRules(r, a, b, x, z), u, State(map[b := [Mark(b)]], {}, []), Item(a, x))
         == Step(State(map[a := [Item(a, z)]], {}, Story(a, b, x, z)), Done)
  {
    var rules, after := LoopRules(r, a, b, x, z), Reborn(a, b, x, z, false).state;
    var key := GuardKey(Revert, a, JsonSignature(WithId(x)));
    var s := State(map[b := [Mark(b)]], {}, []);
    var reverted := State(s.facets, s.guard + {key}, s.events + [Event(a, JsonPayload(WithId(x)), Revert)]);
    assert reverted.guard == Reverting(a, b, x, false) && reverted.events == Story(a, b, x, z)[..1];
    MarkRemoved(r, a, b, x, y, z, u);
    Reapplied(r, a, b, x, y, z, u);
    HandsOver(r, a, b, x, z, x);
    assert Targets(rules.afterIndex, a) == [b] && Targets(rules.stopOnIndex, a) == [];
    TranscendOne(rules, u, reverted, Item(a, x), b, NonePayload(false), after);
    assert Inverse(rules, u, after, Item(a, x), Revert, []) == Step(after, Done);
    RevertalVia(rules, u, s, Item(a, x), after, after);
    assert after.guard - {key} == {};
  }

  ghost function Start(a: string, b: string, x: string, y: string): State {
    State(map[a := [Item(a, x), Item(a, y)], b := [Mark(b)]], {}, [])
  }

  lemma SplitEntry(r: Rendering, a: string, x: string, y: string)
    requires x != y
    ensures Selected(r, Some(Like(x)), [Item(a, x), Item(a, y)], true) == [Item(a, x)]
    ensures Selected(r, Some(Like(x)), [Item(a, x), Item(a, y)], false) == [Item(a, y)]
  {
    IdsMatch(r, a, x, x);
    IdsMatch(r, a, x, y);
    var both, first := [Item(a, x), Item(a, y)], [Item(a, x)];
    assert both[..1] == first && first[..0] == [];
    assert [] + [Item(a, x)] == [Item(a, x)] && [] + [Item(a, y)] == [Item(a, y)];
  }

  /** The state after the run's events, with one instance in a. */
  ghost function Refilled(a: string, b: string, x: string, z: string, id: string): State {
    State(map[a := [Item(a, id)]], {}, Story(a, b, x, z))
  }

  lemma PutBack(a: string, b: string, x: string, z: string, y: string)
    ensures var c := Refilled(a, b, x, z, z); c.(facets := c.facets[a := [Item(a, y)]]) == Refilled(a, b, x, z, y)
  {
    var m: Facets := map[a := [Item(a, z)]];
    assert m[a := [Item(a, y)]] == map[a := [Item(a, y)]];
  }

  lemma CascadeRuns(r: Rendering, a: string, b: string, x: string, y: string, z: string, u: Universe)
    requires Setting(r, a, b, x, y, z, u) && GraphIn(u, Start(a, b, x, y).facets)
    ensures a in Start(a, b, x, y).facets && Selected(r, Some(Like(x)), Start(a, b, x, y).facets[a], false) == [Item(a, y)]
    ensures CascadeOf(LoopRules(r, a, b, x, z), u, Start(a, b, x, y), a, Some(Like(x))) == Step(Refilled(a, b, x, z, z), Done)
  {
    var rules, s := LoopRules(r, a, b, x, z), Start(a, b, x, y);
    var out, after := State(map[b := [Mark(b)]], {}, []), Refilled(a, b, x, z, z);
    assert s.facets - {a} == out.facets;
    assert Within(u, JsonPayload(WithId(x))) by {
      assert Item(a, x) in s.facets[a];
    }
    SplitEntry(r, a, x, y);
    ItemReverted(r, a, b, x, y, z, u);
    OneReverted(rules, u, out, Item(a, x), after);
  }

  /** The whole run: removing x from a reverts it, reverts b, applies a with z, and ends with y alone in a; z is never reverted. */
  lemma RemovalRuns(r: Rendering, a: string, b: string, x: string, y: string, z: string, u: Universe)
    requires Setting(r, a, b, x, y, z, u) && GraphIn(u, Start(a, b, x, y).facets)
    ensures Remove(LoopRules(r, a, b, x, z), u, Start(a, b, x, y), a, Some(Like(x))) == Step(Refilled(a, b, x, z, y), Done)
  {
    CascadeRuns(r, a, b, x, y, z, u);
    PutBack(a, b, x, z, y);
    RemoveVia(LoopRules(r, a, b, x, z), u, Start(a, b, x, y), a, Some(Like(x)), [Item(a, y)], Refilled(a, b, x, z, z));
  }

  /** The applied z is lost. */
  lemma RemovalLoses(r: Rendering, a: string, b: string, x: string, y: string, z: string, u: Universe)
    requires Setting(r, a, b, x, y, z, u) && GraphIn(u, Start(a, b, x, y).facets)
    ensures Lost(LoopRules(r, a, b, x, z), u, Start(a, b, x, y), a, Some(Like(x)), a, Item(a, z))
  {
    CascadeRuns(r, a, b, x, y, z, u);
    RemovalRuns(r, a, b, x, y, z, u);
    assert WithId(y).fields["id"] == Str(y) && WithId(z).fields["id"] == Str(z);
    assert Item(a, z) in [Item(a, z)] && Item(a, z) !in [Item(a, y)];
  }

  /** So facet a is one that its own removal may apply again, as it has to be. */
  lemma LoopReactivates(r: Rendering, a: string, b: string, x: string, y: string, z: string)
    requires a != b && x != y && x != z && y != z
    ensures a in Reactivated(LoopRules(r, a, b, x, z), a)
  {
    var u := SettingExists(r, a, b, x, y, z);
    var rules, s := LoopRules(r, a, b, x, z), Start(a, b, x, y);
    if a !in Reactivated(rules, a) {
      assert NamesMatch(s.facets);
      NothingLost(rules, u, s, a, Some(Like(x)));
      RemovalLoses(r, a, b, x, y, z, u);
      assert false;
    }
  }

  /** Such a universe exists for every choice of names and ids. */
  lemma SettingExists(r: Rendering, a: string, b: string, x: string, y: string, z: string) returns (u: Universe)
    requires a != b && x != y && x != z && y != z
    ensures Setting(r, a, b, x, y, z, u) && GraphIn(u, Start(a, b, x, y).facets)
  {
    var rules, facets := LoopRules(r, a, b, x, z), Start(a, b, x, y).facets;
    var names := Reach(rules, facets, a);
    u := UniverseOf(rules, facets, names, None);
    UniverseExists(rules, facets, names, None);
    assert b in rules.afterIndex[a];
  }
}
