/**
 The cascades as functions of the state: what setting or removing one facet
 does to the graph, the guard and the emitted events, edge by edge
 (crates/flow/src/flow.rs). The edges may form cycles; only the guard stops the
 recursion, so the unused guard keys of a finite universe measure it.
 */
module FlowCascade {
  import opened Common
  import opened Json
  import opened FlowModel
  import opened FlowUniverse
  import opened FlowBranches

  datatype Outcome = Done | FacetNotFound(name: string) | PayloadTypeMismatch(name: string) | InvalidBranchKeys

  datatype Event = Event(name: string, payload: Payload, action: Direction)

  datatype State = State(facets: Facets, guard: set<GuardKey>, events: seq<Event>)

  datatype Step = Step(state: State, outcome: Outcome)

  // ---- decisions ----

  function Navigate(v: Value, path: string): Option<Value>
    decreases |path|
  {
    var i := FirstIndex(path, '/');
    var segment := path[..i];
    var rest := if i < |path| then path[i + 1..] else "";
    if path == "" then Some(v)
    else if segment == "" then Navigate(v, rest)
    else if v.Obj? && segment in v.fields then
      Navigate(v.fields[segment], rest)
    else None
  }

  function BranchFilter(p: Payload, spec: string): Option<MatchOperation> {
    if !p.JsonPayload? then None
    else
      match Navigate(p.value, spec)
      case None => None
      case Some(v) => Some(Options(None, None, Some(Obj(map[TargetKey(spec) := v]))))
  }

  predicate Blocking(rules: Rules, facets: Facets, dep: StopOn, payload: Payload, source: Instance, action: Direction) {
    if dep.branch.Some? then
      var filter := BranchFilter(payload, dep.branch.value);
      filter.Some? && exists b | b in Branches(facets, dep.name) :: Matches(rules.rendering, filter.value, b.payload)
    else if action == Revert && dep.name == source.name then false
    else Branches(facets, dep.name) != []
  }

  predicate ShouldActivate(rules: Rules, facets: Facets, def: FacetDef, payload: Payload, source: Instance, action: Direction) {
    && def.autoPayloads.Some? && def.stopOn.Some?
    && forall dep | dep in def.stopOn.value :: !Blocking(rules, facets, dep, payload, source, action)
  }

  /** The payload a source hands to an `after` target, None when the target does not react. */
  function Handover(rules: Rules, target: string, source: Instance): Option<Payload> {
    if target !in rules.defs then None
    else
      var def := rules.defs[target];
      if def.after.None? || !exists cond | cond in def.after.value :: CheckCondition(rules.rendering, cond, source) then None
      else if def.autoPayloads.None? then TranscendentPayload(def, source.payload)
      else if def.autoPayloads.value == [] then None
      else TranscendentPayload(def, def.autoPayloads.value[0])
  }

  function Targets(index: map<string, seq<string>>, name: string): seq<string> {
    if name in index then index[name] else []
  }

  /** The payloads a stop-on target is reconsidered for. */
  function Candidates(def: FacetDef, stored: seq<Instance>): seq<Payload> {
    if def.autoPayloads.Some? then def.autoPayloads.value
    else seq(|stored|, i requires 0 <= i < |stored| => stored[i].payload)
  }

  // ---- what every cascade keeps ----

  ghost predicate Untouched(u: Universe, before: Facets, after: Facets) {
    forall n | n !in u.names :: (n in before <==> n in after) && (n in before ==> before[n] == after[n])
  }

  ghost predicate Keeps(rules: Rules, u: Universe, s: State, t: State) {
    && GraphIn(u, t.facets)
    && s.guard <= t.guard
    && s.events <= t.events
    && Untouched(u, s.facets, t.facets)
    && (Clean(rules, u) && Unique(rules, s.facets) ==> Unique(rules, t.facets))
    && (NamesMatch(s.facets) ==> NamesMatch(t.facets))
    && (TypesMatch(rules, s.facets) ==> TypesMatch(rules, t.facets))
  }

  ghost predicate TypedEntry(t: PayloadType, entry: seq<Instance>) {
    forall i | i in entry :: HasType(i.payload, t)
  }

  /** Stored instances have the payload type of their facet. */
  ghost predicate TypesMatch(rules: Rules, facets: Facets) {
    forall n | n in facets && n in rules.defs :: TypedEntry(rules.defs[n].payload, facets[n])
  }

  lemma {:induction false} StoreKeepsTyped(entry: seq<Instance>, instance: Instance, keys: seq<string>, t: PayloadType)
    requires TypedEntry(t, entry) && HasType(instance.payload, t)
    ensures Stored(entry, instance, keys).Some? ==> TypedEntry(t, Stored(entry, instance, keys).value)
  {
  }

  /** Instances are stored under their own name. */
  ghost predicate NamesMatch(facets: Facets) {
    forall n | n in facets :: forall i | i in facets[n] :: i.name == n
  }

  /** The store step; an instance without its branch keys leaves an entry but no new branch. */
  ghost function Enter(rules: Rules, facets: Facets, instance: Instance): (Facets, bool)
    requires instance.name in rules.defs
  {
    var entry := Branches(facets, instance.name);
    var stored := Stored(entry, instance, BranchKeys(rules.defs[instance.name]));
    (facets[instance.name := if stored.Some? then stored.value else entry], stored.Some?)
  }

  lemma {:induction false} EnterKeeps(rules: Rules, u: Universe, s: State, instance: Instance)
    requires RulesIn(u, rules) && GraphIn(u, s.facets)
    requires instance.name in u.names && Within(u, instance.payload)
    requires instance.name in rules.defs && HasType(instance.payload, rules.defs[instance.name].payload)
    ensures Keeps(rules, u, s, s.(facets := Enter(rules, s.facets, instance).0))
  {
    var entry := Branches(s.facets, instance.name);
    StoreKeepsUniverse(rules, u, entry, instance, BranchKeys(rules.defs[instance.name]));
    if TypesMatch(rules, s.facets) {
      StoreKeepsTyped(entry, instance, BranchKeys(rules.defs[instance.name]), rules.defs[instance.name].payload);
    }
    if Clean(rules, u) && Unique(rules, s.facets) && Enter(rules, s.facets, instance).1 {
      StoreKeepsEntryUnique(rules, u, entry, instance);
    }
  }

  /** Dropping an entry, or replacing it by a selection of itself, keeps what holds entry by entry. */
  lemma SelectionKeeps(rules: Rules, facets: Facets, name: string, filter: Option<MatchOperation>)
    requires name in facets
    ensures var kept := Selected(rules.rendering, filter, facets[name], false);
            && (Unique(rules, facets) && name in rules.defs ==> UniqueEntry(rules.defs[name], kept))
            && (TypesMatch(rules, facets) && name in rules.defs ==> TypedEntry(rules.defs[name].payload, kept))
            && (Unique(rules, facets) ==> Unique(rules, facets - {name}))
            && (TypesMatch(rules, facets) ==> TypesMatch(rules, facets - {name}))
            && (NamesMatch(facets) ==> NamesMatch(facets - {name}) && forall i | i in kept :: i.name == name)
  {
    if name in rules.defs && Unique(rules, facets) && rules.defs[name].payload == JsonType {
      SelectedUnique(rules.rendering, filter, facets[name], false, BranchKeys(rules.defs[name]));
    }
  }

  /** Giving up after removing an entry, or putting back the part that stays. */
  lemma {:induction false} PutBackKeeps(rules: Rules, u: Universe, s: State, t: State, name: string, filter: Option<MatchOperation>)
    requires GraphIn(u, s.facets) && name in u.names && name in s.facets
    requires Keeps(rules, u, s.(facets := s.facets - {name}), t)
    ensures Keeps(rules, u, s, t)
    ensures Keeps(rules, u, s, t.(facets := t.facets[name := Selected(rules.rendering, filter, s.facets[name], false)]))
  {
    SelectionKeeps(rules, s.facets, name, filter);
  }

  // ---- the cascades ----

  ghost function Set(rules: Rules, u: Universe, s: State, name: string, payload: Option<Payload>): (r: Step)
    requires RulesIn(u, rules) && GraphIn(u, s.facets)
    requires name in u.names && (payload.Some? ==> Within(u, payload.value))
    ensures Keeps(rules, u, s, r.state)
    decreases Unused(u, s.guard), 0, 0
  {
    var key := GuardKey(Apply, name, SignatureOf(payload));
    if key in s.guard then Step(s, Done)
    else
      var held := s.guard + {key};
      KeyInUniverse(u, Apply, name, payload);
      UnusedShrinks(u, s.guard, held);
      var flowPayload := payload.GetOr(NonePayload(false));
      if name !in rules.defs then Step(s.(guard := held), FacetNotFound(name))
      else if !HasType(flowPayload, rules.defs[name].payload) then Step(s, PayloadTypeMismatch(name))
      else
        var instance := Instance(name, flowPayload, Facet);
        EnterKeeps(rules, u, s, instance);
        var (facets, ok) := Enter(rules, s.facets, instance);
        var entered := State(facets, held, s.events + [Event(name, flowPayload, Apply)]);
        if !ok then Step(entered.(guard := s.guard), InvalidBranchKeys)
        else
          var r := Spread(rules, u, entered, instance);
          if r.outcome != Done then r else Step(r.state.(guard := r.state.guard - {key}), Done)
  }

  /** Both reconcilers after an applied instance. */
  ghost function Spread(rules: Rules, u: Universe, s: State, instance: Instance): (r: Step)
    requires RulesIn(u, rules) && GraphIn(u, s.facets) && instance.name in u.names && Within(u, instance.payload)
    ensures Keeps(rules, u, s, r.state)
    decreases Unused(u, s.guard), 6, 0
  {
    var r := Transcend(rules, u, s, instance, Apply, Targets(rules.afterIndex, instance.name));
    if r.outcome != Done then r
    else
      UnusedShrinks(u, s.guard, r.state.guard);
      Inverse(rules, u, r.state, instance, Apply, Targets(rules.stopOnIndex, instance.name))
  }

  ghost function Remove(rules: Rules, u: Universe, s: State, name: string, filter: Option<MatchOperation>): (r: Step)
    requires RulesIn(u, rules) && GraphIn(u, s.facets) && name in u.names
    ensures Keeps(rules, u, s, r.state)
    decreases Unused(u, s.guard), 2, 0
  {
    if name !in s.facets then Step(s, Done)
    else
      var kept := Selected(rules.rendering, filter, s.facets[name], false);
      var dropped := Selected(rules.rendering, filter, s.facets[name], true);
      var r := RevertEach(rules, u, s.(facets := s.facets - {name}), dropped);
      PutBackKeeps(rules, u, s, r.state, name, filter);
      if r.outcome != Done || kept == [] then r
      else Step(r.state.(facets := r.state.facets[name := kept]), Done)
  }

  ghost function RevertEach(rules: Rules, u: Universe, s: State, dropped: seq<Instance>): (r: Step)
    requires RulesIn(u, rules) && GraphIn(u, s.facets) && EntryIn(u, dropped)
    ensures Keeps(rules, u, s, r.state)
    decreases Unused(u, s.guard), 1, |dropped|
  {
    if dropped == [] then Step(s, Done)
    else
      assert dropped[0] in dropped;
      var r := Revertal(rules, u, s, dropped[0].(flowType := Facet));
      UnusedShrinks(u, s.guard, r.state.guard);
      if r.outcome != Done then r else RevertEach(rules, u, r.state, dropped[1..])
  }

  /** One dropped branch; an error of the stop-on side is ignored, one of the `after` side is not. */
  ghost function Revertal(rules: Rules, u: Universe, s: State, branch: Instance): (r: Step)
    requires RulesIn(u, rules) && GraphIn(u, s.facets) && branch.name in u.names && Within(u, branch.payload)
    ensures Keeps(rules, u, s, r.state)
    decreases Unused(u, s.guard), 0, 0
  {
    var key := GuardKey(Revert, branch.name, SignatureOf(Some(branch.payload)));
    if key in s.guard then Step(s, Done)
    else
      var held := s.guard + {key};
      KeyInUniverse(u, Revert, branch.name, Some(branch.payload));
      UnusedShrinks(u, s.guard, held);
      var reverted := State(s.facets, held, s.events + [Event(branch.name, branch.payload, Revert)]);
      var r1 := Transcend(rules, u, reverted, branch, Revert, Targets(rules.afterIndex, branch.name));
      if r1.outcome != Done then r1
      else
        UnusedShrinks(u, held, r1.state.guard);
        var r2 := Inverse(rules, u, r1.state, branch, Revert, Targets(rules.stopOnIndex, branch.name));
        Step(r2.state.(guard := r2.state.guard - {key}), Done)
  }

  /** reconcile_transcendence over the remaining targets. */
  ghost function Transcend(rules: Rules, u: Universe, s: State, source: Instance, action: Direction, targets: seq<string>): (r: Step)
    requires RulesIn(u, rules) && GraphIn(u, s.facets)
    requires Within(u, source.payload) && forall t | t in targets :: t in u.names
    ensures Keeps(rules, u, s, r.state)
    decreases Unused(u, s.guard), 3, |targets|
  {
    if targets == [] then Step(s, Done)
    else
      var payload := Handover(rules, targets[0], source);
      HandoverWithin(rules, u, targets[0], source);
      if payload.None? then Transcend(rules, u, s, source, action, targets[1..])
      else
        var r := match action
          case Apply => Set(rules, u, s, targets[0], payload)
          case Revert => Remove(rules, u, s, targets[0], PayloadToFilter(payload.value));
        UnusedShrinks(u, s.guard, r.state.guard);
        if r.outcome != Done then r else Transcend(rules, u, r.state, source, action, targets[1..])
  }

  /** reconcile_inverse_transcendence_for_source over the remaining targets. */
  ghost function Inverse(rules: Rules, u: Universe, s: State, source: Instance, action: Direction, targets: seq<string>): (r: Step)
    requires RulesIn(u, rules) && GraphIn(u, s.facets) && forall t | t in targets :: t in u.names
    ensures Keeps(rules, u, s, r.state)
    decreases Unused(u, s.guard), 5, |targets|
  {
    if targets == [] then Step(s, Done)
    else if targets[0] !in rules.defs || rules.defs[targets[0]].stopOn.None? then
      Inverse(rules, u, s, source, action, targets[1..])
    else
      var r := Reconsider(rules, u, s, source, action, targets[0], Candidates(rules.defs[targets[0]], Branches(s.facets, targets[0])));
      UnusedShrinks(u, s.guard, r.state.guard);
      if r.outcome != Done then r else Inverse(rules, u, r.state, source, action, targets[1..])
  }

  ghost function Reconsider(rules: Rules, u: Universe, s: State, source: Instance, action: Direction, target: string, payloads: seq<Payload>): (r: Step)
    requires RulesIn(u, rules) && GraphIn(u, s.facets) && target in u.names && target in rules.defs
    requires forall p | p in payloads :: Within(u, p)
    ensures Keeps(rules, u, s, r.state)
    decreases Unused(u, s.guard), 4, |payloads|
  {
    if payloads == [] then Step(s, Done)
    else
      var r := Settle(rules, u, s, source, action, target, payloads[0]);
      UnusedShrinks(u, s.guard, r.state.guard);
      if r.outcome != Done then r else Reconsider(rules, u, r.state, source, action, target, payloads[1..])
  }

  /** One candidate of one stop-on target: set it, remove it, or leave it. */
  ghost function Settle(rules: Rules, u: Universe, s: State, source: Instance, action: Direction, target: string, payload: Payload): (r: Step)
    requires RulesIn(u, rules) && GraphIn(u, s.facets) && target in u.names && target in rules.defs && Within(u, payload)
    ensures Keeps(rules, u, s, r.state)
    decreases Unused(u, s.guard), 3, 0
  {
    var wanted := ShouldActivate(rules, s.facets, rules.defs[target], payload, source, action);
    var active := CurrentlyActive(s.facets, target, payload);
    if wanted && !active then Set(rules, u, s, target, Some(payload))
    else if !wanted && active then Remove(rules, u, s, target, PayloadToFilter(payload))
    else Step(s, Done)
  }

  lemma HandoverWithin(rules: Rules, u: Universe, target: string, source: Instance)
    requires RulesIn(u, rules) && Within(u, source.payload)
    ensures Handover(rules, target, source).Some? ==> Within(u, Handover(rules, target, source).value)
  {
    if target in rules.defs {
      var def := rules.defs[target];
      TranscendentWithin(u, def, source.payload);
      if def.autoPayloads.Some? && def.autoPayloads.value != [] {
        TranscendentWithin(u, def, def.autoPayloads.value[0]);
      }
    }
  }

  // ---- typed graphs ----

  /** Auto-payloads have the payload type of their facet, as the code builds them. */
  ghost predicate AutoTyped(rules: Rules) {
    forall n | n in rules.defs && rules.defs[n].autoPayloads.Some? ::
      forall p | p in rules.defs[n].autoPayloads.value :: HasType(p, rules.defs[n].payload)
  }

  /** Every payload a stop-on target is reconsidered for has its payload type. */
  lemma CandidatesTyped(rules: Rules, facets: Facets, target: string)
    requires TypesMatch(rules, facets) && AutoTyped(rules) && target in rules.defs
    ensures forall p | p in Candidates(rules.defs[target], Branches(facets, target)) :: HasType(p, rules.defs[target].payload)
  {
    forall p | p in Candidates(rules.defs[target], Branches(facets, target)) ensures HasType(p, rules.defs[target].payload) {
      if rules.defs[target].autoPayloads.None? {
        var i :| 0 <= i < |Branches(facets, target)| && Branches(facets, target)[i].payload == p;
        assert Branches(facets, target)[i] in facets[target];
      }
    }
  }

  /** On a typed graph a removal for a typed payload leaves nothing the active test would count for it. */
  lemma TypedRemovalDeactivates(rules: Rules, facets: Facets, name: string, p: Payload)
    requires TypesMatch(rules, facets) && name in rules.defs && name in facets && HasType(p, rules.defs[name].payload)
    ensures !CurrentlyActive(facets[name := Selected(rules.rendering, PayloadToFilter(p), facets[name], false)], name, p)
  {
    forall b | b in facets[name] ensures Covers(p, b.payload) {
      assert HasType(b.payload, rules.defs[name].payload);
    }
    RemovalDeactivates(rules, name, facets[name], p);
    var kept := Selected(rules.rendering, PayloadToFilter(p), facets[name], false);
    assert Branches(map[name := kept], name) == kept == Branches(facets[name := kept], name);
  }
}
