/**
 What decides inside a cascade (crates/flow/src/flow.rs): whether an `after`
 target reacts and what it is handed, whether a stop-on target is held down, and
 what becomes of a candidate at its turn. Everything is said over the graph, the
 definitions and the payloads alone.
 */
module FlowDecide {
  import opened Common
  import opened Json
  import opened FlowModel
  import opened FlowUniverse
  import opened FlowBranches
  import opened FlowCascade

  // ---- `after` targets ----

  /** The condition speaks of the source: a plain name of anything, a facet's of a facet, an impulse's of an impulse. */
  ghost predicate Names(cond: FlowItem, source: Instance) {
    exists n :: SameFlowName(n, source.name) && SpeaksOf(cond, n, source.flowType)
  }

  ghost predicate SpeaksOf(cond: FlowItem, n: string, kind: FlowType) {
    || cond == Simple(n)
    || (cond.Detailed? && cond.facet == Some(n) && kind == Facet)
    || (cond.Detailed? && cond.facet == None && cond.impulse == Some(n) && kind == Impulse)
  }

  /** Every filter it has matches the payload. */
  ghost predicate Passes(r: Rendering, cond: FlowItem, p: Payload) {
    cond.Detailed? ==> forall op | Some(op) == cond.target || Some(op) == cond.branch :: Matches(r, op, p)
  }

  lemma ConditionIff(r: Rendering, cond: FlowItem, source: Instance)
    ensures CheckCondition(r, cond, source) <==> Names(cond, source) && Passes(r, cond, source.payload)
  {
    if CheckCondition(r, cond, source) {
      match cond
      case Simple(name) => assert SpeaksOf(cond, name, source.flowType);
      case Detailed(facet, impulse, _, _) =>
        if facet.Some? {
          assert SpeaksOf(cond, facet.value, source.flowType);
        } else {
          assert SpeaksOf(cond, impulse.value, source.flowType);
        }
    }
    if Names(cond, source) && Passes(r, cond, source.payload) {
      var n :| SameFlowName(n, source.name) && SpeaksOf(cond, n, source.flowType);
      assert cond.Detailed? && cond.target.Some? ==> Matches(r, cond.target.value, source.payload);
      assert cond.Detailed? && cond.branch.Some? ==> Matches(r, cond.branch.value, source.payload);
    }
  }

  /** Some condition of the target speaks of the source and lets its payload through. */
  ghost predicate Reacts(rules: Rules, target: string, source: Instance) {
    && target in rules.defs && rules.defs[target].after.Some?
    && exists cond | cond in rules.defs[target].after.value :: Names(cond, source) && Passes(rules.rendering, cond, source.payload)
  }

  /** The payload that is handed on: the source's, or the first auto-payload where there are any. */
  ghost function Given(def: FacetDef, source: Instance): Option<Payload> {
    if def.autoPayloads.None? then Some(source.payload)
    else if def.autoPayloads.value == [] then None
    else Some(def.autoPayloads.value[0])
  }

  /**
   A target is handed something exactly when it reacts and the payload to hand on
   has its type, and for a JSON target with a branch all the keys it maps from; it
   is handed that payload, or the mapped object, or an unset none payload.
   */
  lemma HandoverIs(rules: Rules, target: string, source: Instance)
    ensures Handover(rules, target, source).Some? ==> Reacts(rules, target, source)
    ensures Reacts(rules, target, source) ==>
              var def := rules.defs[target]; var given := Given(def, source); var handed := Handover(rules, target, source);
              && (given.None? ==> handed == None)
              && (given.Some? && def.payload == NoneType ==> handed == Some(NonePayload(false)))
              && (given.Some? && def.payload != NoneType && (def.payload != JsonType || def.branch.None?) ==>
                    handed == if HasType(given.value, def.payload) then given else None)
              && (given.Some? && def.payload == JsonType && def.branch.Some? ==>
                    && (handed.Some? <==> given.value.JsonPayload? && given.value.value.Obj?
                                          && forall s | s in def.branch.value :: SourceKey(s) in given.value.value.fields)
                    && (handed.Some? ==> handed.value.JsonPayload? && handed.value.value.Obj?
                                         && Projected(def.branch.value, given.value.value.fields) == Some(handed.value.value.fields)))
  {
    if target in rules.defs && rules.defs[target].after.Some? {
      forall cond | cond in rules.defs[target].after.value
        ensures CheckCondition(rules.rendering, cond, source) <==> Names(cond, source) && Passes(rules.rendering, cond, source.payload)
      {
        ConditionIff(rules.rendering, cond, source);
      }
      var def := rules.defs[target];
      var given := Given(def, source);
      if given.Some? && def.branch.Some? && given.value.JsonPayload? && given.value.value.Obj? {
        ProjectedIs(def.branch.value, given.value.value.fields);
      }
    }
  }

  // ---- paths ----

  /** The parts between slashes that are not empty. */
  ghost function Segments(path: string): (segments: seq<string>)
    ensures forall s | s in segments :: s != "" && '/' !in s
    decreases |path|
  {
    if path == "" then []
    else
      var i := FirstIndex(path, '/');
      (if i == 0 then [] else [path[..i]]) + (if i < |path| then Segments(path[i + 1..]) else [])
  }

  ghost function Joined(segments: seq<string>): string {
    if segments == [] then "" else segments[0] + "/" + Joined(segments[1..])
  }

  lemma {:induction false} SegmentsOfJoined(segments: seq<string>)
    requires forall s | s in segments :: s != "" && '/' !in s
    ensures Segments(Joined(segments)) == segments
  {
    if segments != [] {
      var rest := Joined(segments[1..]);
      assert segments[0] in segments;
      FirstIndexIs(segments[0], '/', rest);
      assert forall s | s in segments[1..] :: s in segments;
      SegmentsOfJoined(segments[1..]);
      var path := Joined(segments);
      assert path == segments[0] + ['/'] + rest;
      assert path[..|segments[0]|] == segments[0] && path[|segments[0]| + 1..] == rest;
    }
  }

  lemma SegmentsStep(path: string)
    requires path != ""
    ensures var i := FirstIndex(path, '/'); var rest := if i < |path| then path[i + 1..] else "";
            Segments(path) == (if path[..i] == "" then [] else [path[..i]]) + Segments(rest)
  {
    assert Segments("") == [];
  }

  lemma LookupStep(v: Value, segment: string, rest: seq<string>)
    ensures Lookup(v, [segment] + rest) == if v.Obj? && segment in v.fields then Lookup(v.fields[segment], rest) else None
  {
    assert ([segment] + rest)[1..] == rest;
  }

  /** A path walks down by the keys between its slashes. */
  lemma {:induction false} NavigateIs(v: Value, path: string)
    ensures Navigate(v, path) == Lookup(v, Segments(path))
    decreases |path|
  {
    if path != "" {
      var i := FirstIndex(path, '/');
      var segment, rest := path[..i], if i < |path| then path[i + 1..] else "";
      SegmentsStep(path);
      if segment == "" {
        NavigateIs(v, rest);
        assert [] + Segments(rest) == Segments(rest);
      } else {
        LookupStep(v, segment, Segments(rest));
        if v.Obj? && segment in v.fields {
          NavigateIs(v.fields[segment], rest);
        }
      }
    }
  }

  // ---- stop-on targets ----

  /**
   A dependency holds a candidate down: without a branch when it has any stored
   instance, unless it is the source that is being reverted; with one when some
   stored instance holds the value that the candidate has along the branch.
   */
  ghost predicate HoldsDown(rules: Rules, facets: Facets, dep: StopOn, payload: Payload, source: Instance, action: Direction) {
    if dep.branch.None? then
      !(action == Revert && dep.name == source.name) && exists b :: b in Branches(facets, dep.name)
    else
      && payload.JsonPayload? && Lookup(payload.value, Segments(dep.branch.value)).Some?
      && exists b | b in Branches(facets, dep.name) ::
           SubsetMatch(Obj(map[TargetKey(dep.branch.value) := Lookup(payload.value, Segments(dep.branch.value)).value]), ToJson(rules.rendering, b.payload))
  }

  /** In a stored object that is the value at the branch's key. */
  lemma KeyMatchIff(key: string, w: Value, fields: Fields)
    ensures SubsetMatch(Obj(map[key := w]), Obj(fields)) <==> key in fields && SubsetMatch(w, fields[key])
  {
    var f: Fields := map[key := w];
    assert key in f && f[key] == w;
  }

  ghost predicate HeldDown(rules: Rules, facets: Facets, def: FacetDef, payload: Payload, source: Instance, action: Direction) {
    def.stopOn.Some? && exists dep | dep in def.stopOn.value :: HoldsDown(rules, facets, dep, payload, source, action)
  }

  lemma BlockingIff(rules: Rules, facets: Facets, dep: StopOn, payload: Payload, source: Instance, action: Direction)
    ensures Blocking(rules, facets, dep, payload, source, action) <==> HoldsDown(rules, facets, dep, payload, source, action)
  {
    var entry := Branches(facets, dep.name);
    assert entry != [] ==> entry[0] in entry;
    if dep.branch.Some? && payload.JsonPayload? {
      NavigateIs(payload.value, dep.branch.value);
    }
  }

  /** A candidate is wanted exactly when its facet comes up by itself and nothing it stops on holds it down. */
  lemma WantedIff(rules: Rules, facets: Facets, def: FacetDef, payload: Payload, source: Instance, action: Direction)
    ensures ShouldActivate(rules, facets, def, payload, source, action) <==>
              def.autoPayloads.Some? && def.stopOn.Some? && !HeldDown(rules, facets, def, payload, source, action)
  {
    if def.stopOn.Some? {
      forall dep ensures Blocking(rules, facets, dep, payload, source, action) <==> HoldsDown(rules, facets, dep, payload, source, action) {
        BlockingIff(rules, facets, dep, payload, source, action);
      }
    }
  }

  /** A stored instance of the facet counts as this candidate. */
  ghost predicate IsUp(facets: Facets, target: string, payload: Payload) {
    exists b | b in Branches(facets, target) :: CountsAs(payload, b.payload)
  }

  /** For JSON it holds all of it, for texts it is the same; payloads of other kinds count as anything. */
  ghost predicate CountsAs(payload: Payload, stored: Payload) {
    && (payload.JsonPayload? && stored.JsonPayload? ==> JsonSubset(payload.value, stored.value))
    && (payload.StringPayload? && stored.StringPayload? ==> payload.text == stored.text)
  }

  /** The active test counts an instance as the payload asked for, or as anything when none is asked for. */
  lemma CompatibleIff(payload: Option<Payload>, stored: Payload)
    ensures PayloadCompatible(payload, stored) <==> payload.None? || CountsAs(payload.value, stored)
  {
  }

  /**
   One candidate at its turn. Held down, or without auto-payloads, it is removed
   if it is up and nothing happens otherwise; else it is set if it is not up.
   */
  ghost predicate SettledRight(rules: Rules, u: Universe, s: State, source: Instance, action: Direction, target: string, payload: Payload, r: Step)
    requires RulesIn(u, rules) && GraphIn(u, s.facets) && target in u.names && target in rules.defs && Within(u, payload)
    requires rules.defs[target].stopOn.Some?
  {
    var def := rules.defs[target];
    var down := def.autoPayloads.None? || HeldDown(rules, s.facets, def, payload, source, action);
    var up := IsUp(s.facets, target, payload);
    && (down && up ==> r == Remove(rules, u, s, target, PayloadToFilter(payload)))
    && (!down && !up ==> r == Set(rules, u, s, target, Some(payload)))
    && (down != up ==> r == Step(s, Done))
  }

  lemma SettleIs(rules: Rules, u: Universe, s: State, source: Instance, action: Direction, target: string, payload: Payload)
    requires RulesIn(u, rules) && GraphIn(u, s.facets) && target in u.names && target in rules.defs && Within(u, payload)
    requires rules.defs[target].stopOn.Some?
    ensures SettledRight(rules, u, s, source, action, target, payload, Settle(rules, u, s, source, action, target, payload))
  {
    WantedIff(rules, s.facets, rules.defs[target], payload, source, action);
    forall b: Instance ensures CountsAs(payload, b.payload) <==> PayloadCompatible(Some(payload), b.payload) {
      CompatibleIff(Some(payload), b.payload);
    }
  }

  // ---- turns ----

  /** The candidates of a target: its auto-payloads in order, or the payloads stored for it. */
  ghost predicate AreCandidates(rules: Rules, facets: Facets, target: string, payloads: seq<Payload>)
    requires target in rules.defs
  {
    match rules.defs[target].autoPayloads
    case Some(auto) => payloads == auto
    case None =>
      && |payloads| == |Branches(facets, target)|
      && forall i | 0 <= i < |payloads| :: payloads[i] == Branches(facets, target)[i].payload
  }

  lemma {:induction false} ReconsiderSplit(rules: Rules, u: Universe, s: State, source: Instance, action: Direction, target: string, payloads: seq<Payload>, i: nat)
    requires RulesIn(u, rules) && GraphIn(u, s.facets) && target in u.names && target in rules.defs
    requires (forall p | p in payloads :: Within(u, p)) && i <= |payloads|
    ensures var first := Reconsider(rules, u, s, source, action, target, payloads[..i]);
            Reconsider(rules, u, s, source, action, target, payloads) ==
              if first.outcome != Done then first else Reconsider(rules, u, first.state, source, action, target, payloads[i..])
    decreases i
  {
    if i == 0 {
      assert payloads[..0] == [] && payloads[0..] == payloads;
    } else {
      var r := Settle(rules, u, s, source, action, target, payloads[0]);
      assert payloads[..i][0] == payloads[0] && payloads[..i][1..] == payloads[1..][..i - 1];
      assert payloads[i..] == payloads[1..][i - 1..];
      if r.outcome == Done {
        ReconsiderSplit(rules, u, r.state, source, action, target, payloads[1..], i - 1);
      }
    }
  }

  /** Every candidate that is reached has been settled right, from the state its turn found. */
  ghost predicate CandidatesSettled(rules: Rules, u: Universe, s: State, source: Instance, action: Direction, target: string, payloads: seq<Payload>)
    requires RulesIn(u, rules) && GraphIn(u, s.facets) && target in u.names && target in rules.defs && rules.defs[target].stopOn.Some?
    requires forall p | p in payloads :: Within(u, p)
  {
    forall i | 0 <= i < |payloads| :: CandidateSettled(rules, u, s, source, action, target, payloads, i)
  }

  ghost predicate CandidateSettled(rules: Rules, u: Universe, s: State, source: Instance, action: Direction, target: string, payloads: seq<Payload>, i: nat)
    requires RulesIn(u, rules) && GraphIn(u, s.facets) && target in u.names && target in rules.defs && rules.defs[target].stopOn.Some?
    requires (forall p | p in payloads :: Within(u, p)) && i < |payloads|
  {
    var turn := Reconsider(rules, u, s, source, action, target, payloads[..i]);
    turn.outcome == Done ==>
      SettledRight(rules, u, turn.state, source, action, target, payloads[i],
                   Reconsider(rules, u, s, source, action, target, payloads[..i + 1]))
  }

  lemma {:induction false} ReconsiderSettles(rules: Rules, u: Universe, s: State, source: Instance, action: Direction, target: string, payloads: seq<Payload>)
    requires RulesIn(u, rules) && GraphIn(u, s.facets) && target in u.names && target in rules.defs && rules.defs[target].stopOn.Some?
    requires forall p | p in payloads :: Within(u, p)
    ensures CandidatesSettled(rules, u, s, source, action, target, payloads)
  {
    forall i | 0 <= i < |payloads| ensures CandidateSettled(rules, u, s, source, action, target, payloads, i) {
      var longer := payloads[..i + 1];
      assert longer[..i] == payloads[..i] && longer[i..] == [payloads[i]];
      ReconsiderSplit(rules, u, s, source, action, target, longer, i);
      var turn := Reconsider(rules, u, s, source, action, target, payloads[..i]);
      if turn.outcome == Done {
        OneCandidate(rules, u, turn.state, source, action, target, payloads[i]);
        SettleIs(rules, u, turn.state, source, action, target, payloads[i]);
      }
    }
  }

  lemma OneCandidate(rules: Rules, u: Universe, s: State, source: Instance, action: Direction, target: string, payload: Payload)
    requires RulesIn(u, rules) && GraphIn(u, s.facets) && target in u.names && target in rules.defs && Within(u, payload)
    ensures Reconsider(rules, u, s, source, action, target, [payload]) == Settle(rules, u, s, source, action, target, payload)
  {
    var one := [payload];
    assert one[0] == payload && one[1..] == [];
  }

  ghost function OneTarget(rules: Rules, u: Universe, s: State, source: Instance, action: Direction, target: string): (r: Step)
    requires RulesIn(u, rules) && GraphIn(u, s.facets) && target in u.names
    ensures GraphIn(u, r.state.facets)
  {
    if target !in rules.defs || rules.defs[target].stopOn.None? then Step(s, Done)
    else Reconsider(rules, u, s, source, action, target, Candidates(rules.defs[target], Branches(s.facets, target)))
  }

  lemma InverseHead(rules: Rules, u: Universe, s: State, source: Instance, action: Direction, targets: seq<string>)
    requires RulesIn(u, rules) && GraphIn(u, s.facets) && targets != [] && forall t | t in targets :: t in u.names
    ensures var first := OneTarget(rules, u, s, source, action, targets[0]);
            Inverse(rules, u, s, source, action, targets) ==
              if first.outcome != Done then first else Inverse(rules, u, first.state, source, action, targets[1..])
  {
  }

  lemma {:induction false} InverseSplit(rules: Rules, u: Universe, s: State, source: Instance, action: Direction, targets: seq<string>, i: nat)
    requires RulesIn(u, rules) && GraphIn(u, s.facets) && (forall t | t in targets :: t in u.names) && i <= |targets|
    ensures var first := Inverse(rules, u, s, source, action, targets[..i]);
            Inverse(rules, u, s, source, action, targets) ==
              if first.outcome != Done then first else Inverse(rules, u, first.state, source, action, targets[i..])
    decreases i
  {
    if i == 0 {
      assert targets[..0] == [] && targets[0..] == targets;
    } else {
      InverseHead(rules, u, s, source, action, targets);
      InverseHead(rules, u, s, source, action, targets[..i]);
      assert targets[..i][0] == targets[0] && targets[..i][1..] == targets[1..][..i - 1];
      assert targets[i..] == targets[1..][i - 1..];
      var first := OneTarget(rules, u, s, source, action, targets[0]);
      if first.outcome == Done {
        InverseSplit(rules, u, first.state, source, action, targets[1..], i - 1);
      }
    }
  }

  /** What a reconciled target leaves: all its candidates were settled in turn, and the run went on from there. */
  ghost predicate TargetSettled(rules: Rules, u: Universe, turn: State, source: Instance, action: Direction, target: string, payloads: seq<Payload>, end: State)
    requires RulesIn(u, rules) && GraphIn(u, turn.facets) && target in u.names && target in rules.defs && rules.defs[target].stopOn.Some?
    requires forall p | p in payloads :: Within(u, p)
  {
    var r := Reconsider(rules, u, turn, source, action, target, payloads);
    && AreCandidates(rules, turn.facets, target, payloads)
    && CandidatesSettled(rules, u, turn, source, action, target, payloads)
    && r.outcome == Done && r.state.events <= end.events
  }

  /** Reconciling the stop-on side settles every target, each from the state its turn found. */
  lemma {:induction false} InverseSettles(rules: Rules, u: Universe, s: State, source: Instance, action: Direction, targets: seq<string>, i: nat)
    returns (turn: State, payloads: seq<Payload>)
    requires RulesIn(u, rules) && GraphIn(u, s.facets) && (forall t | t in targets :: t in u.names) && i < |targets|
    requires targets[i] in rules.defs && rules.defs[targets[i]].stopOn.Some?
    requires Inverse(rules, u, s, source, action, targets).outcome == Done
    ensures turn == Inverse(rules, u, s, source, action, targets[..i]).state && GraphIn(u, turn.facets) && forall p | p in payloads :: Within(u, p)
    ensures TargetSettled(rules, u, turn, source, action, targets[i], payloads, Inverse(rules, u, s, source, action, targets).state)
  {
    InverseSplit(rules, u, s, source, action, targets, i);
    turn := Inverse(rules, u, s, source, action, targets[..i]).state;
    var target, rest := targets[i], targets[i..];
    assert rest[0] == target && rest[1..] == targets[i + 1..];
    payloads := Candidates(rules.defs[target], Branches(turn.facets, target));
    ReconsiderSettles(rules, u, turn, source, action, target, payloads);
  }

  /** The state of a set when it has stored its instance and reconciled the `after` side. */
  ghost function Midway(rules: Rules, u: Universe, s: State, name: string, p: Payload): Step
    requires RulesIn(u, rules) && GraphIn(u, s.facets) && name in u.names && Within(u, p)
    requires name in rules.defs && HasType(p, rules.defs[name].payload)
  {
    var instance := Instance(name, p, Facet);
    EnterKeeps(rules, u, s, instance);
    var entered := State(Enter(rules, s.facets, instance).0, s.guard + {GuardKey(Apply, name, SignatureOf(Some(p)))}, s.events + [Event(name, p, Apply)]);
    Transcend(rules, u, entered, instance, Apply, Targets(rules.afterIndex, name))
  }

  /** A set that ends well has settled every stop-on target of the facet. */
  lemma {:induction false} SetSettles(rules: Rules, u: Universe, s: State, name: string, p: Payload, i: nat)
    returns (turn: State, payloads: seq<Payload>)
    requires RulesIn(u, rules) && GraphIn(u, s.facets) && name in u.names && Within(u, p)
    requires GuardKey(Apply, name, SignatureOf(Some(p))) !in s.guard && Set(rules, u, s, name, Some(p)).outcome == Done
    requires var targets := StopOnTargets(rules, name); i < |targets| && targets[i] in rules.defs && rules.defs[targets[i]].stopOn.Some?
    ensures name in rules.defs && HasType(p, rules.defs[name].payload) && StopOnTargets(rules, name)[i] in u.names
    ensures GraphIn(u, turn.facets) && (forall q | q in payloads :: Within(u, q)) && s.events + [Event(name, p, Apply)] <= turn.events
    ensures TargetSettled(rules, u, turn, Instance(name, p, Facet), Apply, StopOnTargets(rules, name)[i], payloads, Set(rules, u, s, name, Some(p)).state)
  {
    var mid := Midway(rules, u, s, name, p);
    turn, payloads := InverseSettles(rules, u, mid.state, Instance(name, p, Facet), Apply, Targets(rules.stopOnIndex, name), i);
  }

  ghost function StopOnTargets(rules: Rules, name: string): seq<string> {
    Targets(rules.stopOnIndex, name)
  }

  /** The same for a dropped branch: its revert and the `after` side come first. */
  ghost function RevertedMidway(rules: Rules, u: Universe, s: State, branch: Instance): Step
    requires RulesIn(u, rules) && GraphIn(u, s.facets) && branch.name in u.names && Within(u, branch.payload)
  {
    var reverted := State(s.facets, s.guard + {GuardKey(Revert, branch.name, SignatureOf(Some(branch.payload)))}, s.events + [Event(branch.name, branch.payload, Revert)]);
    Transcend(rules, u, reverted, branch, Revert, Targets(rules.afterIndex, branch.name))
  }

  /** Its revert fails exactly when its `after` side does; the stop-on side may fail without a word. */
  lemma RevertalFailsIff(rules: Rules, u: Universe, s: State, branch: Instance)
    requires RulesIn(u, rules) && GraphIn(u, s.facets) && branch.name in u.names && Within(u, branch.payload)
    ensures Revertal(rules, u, s, branch).outcome ==
              if GuardKey(Revert, branch.name, SignatureOf(Some(branch.payload))) in s.guard then Done
              else RevertedMidway(rules, u, s, branch).outcome
  {
  }

  lemma {:induction false} RevertalSettles(rules: Rules, u: Universe, s: State, branch: Instance, i: nat)
    returns (turn: State, payloads: seq<Payload>)
    requires RulesIn(u, rules) && GraphIn(u, s.facets) && branch.name in u.names && Within(u, branch.payload)
    requires GuardKey(Revert, branch.name, SignatureOf(Some(branch.payload))) !in s.guard && RevertedMidway(rules, u, s, branch).outcome == Done
    requires Inverse(rules, u, RevertedMidway(rules, u, s, branch).state, branch, Revert, StopOnTargets(rules, branch.name)).outcome == Done
    requires var targets := StopOnTargets(rules, branch.name); i < |targets| && targets[i] in rules.defs && rules.defs[targets[i]].stopOn.Some?
    ensures StopOnTargets(rules, branch.name)[i] in u.names && GraphIn(u, turn.facets) && forall q | q in payloads :: Within(u, q)
    ensures s.events + [Event(branch.name, branch.payload, Revert)] <= turn.events
    ensures TargetSettled(rules, u, turn, branch, Revert, StopOnTargets(rules, branch.name)[i], payloads, Revertal(rules, u, s, branch).state)
  {
    var mid := RevertedMidway(rules, u, s, branch);
    turn, payloads := InverseSettles(rules, u, mid.state, branch, Revert, Targets(rules.stopOnIndex, branch.name), i);
  }

  // ---- errors ----

  /**
   What a set that is not under way can fail of by itself: an unknown facet keeps
   its guard key; a payload of another type changes nothing; a JSON payload that
   is no object with all branch keys has emitted its event and is not stored.
   */
  lemma SetErrors(rules: Rules, u: Universe, s: State, name: string, payload: Option<Payload>)
    requires RulesIn(u, rules) && GraphIn(u, s.facets) && name in u.names && (payload.Some? ==> Within(u, payload.value))
    requires GuardKey(Apply, name, SignatureOf(payload)) !in s.guard
    ensures var p := payload.GetOr(NonePayload(false)); var r := Set(rules, u, s, name, payload);
            && (name !in rules.defs ==> r == Step(s.(guard := s.guard + {GuardKey(Apply, name, SignatureOf(payload))}), FacetNotFound(name)))
            && (name in rules.defs && !HasType(p, rules.defs[name].payload) ==> r == Step(s, PayloadTypeMismatch(name)))
            && (name in rules.defs && HasType(p, rules.defs[name].payload) && p.JsonPayload?
                && !(p.value.Obj? && forall k | k in BranchKeys(rules.defs[name]) :: k in p.value.fields) ==>
                  && r.outcome == InvalidBranchKeys && r.state.events == s.events + [Event(name, p, Apply)] && r.state.guard == s.guard
                  && Branches(r.state.facets, name) == Branches(s.facets, name)
                  && forall n | n != name :: (n in r.state.facets <==> n in s.facets) && (n in s.facets ==> r.state.facets[n] == s.facets[n]))
  {
    var p := payload.GetOr(NonePayload(false));
    if name in rules.defs && HasType(p, rules.defs[name].payload) {
      StoredIs(Branches(s.facets, name), Instance(name, p, Facet), BranchKeys(rules.defs[name]));
      EnterKeeps(rules, u, s, Instance(name, p, Facet));
    }
  }

  /** A set or a revert under way is not begun again. */
  lemma UnderWay(rules: Rules, u: Universe, s: State, name: string, payload: Option<Payload>, branch: Instance)
    requires RulesIn(u, rules) && GraphIn(u, s.facets) && name in u.names && (payload.Some? ==> Within(u, payload.value))
    requires branch.name in u.names && Within(u, branch.payload)
    ensures GuardKey(Apply, name, SignatureOf(payload)) in s.guard ==> Set(rules, u, s, name, payload) == Step(s, Done)
    ensures GuardKey(Revert, branch.name, SignatureOf(Some(branch.payload))) in s.guard ==> Revertal(rules, u, s, branch) == Step(s, Done)
  {
  }

  /** When the cascade of a removal fails, the part of the entry to keep is not put back. */
  lemma RemoveError(rules: Rules, u: Universe, s: State, name: string, filter: Option<MatchOperation>)
    requires RulesIn(u, rules) && GraphIn(u, s.facets) && name in u.names && name in s.facets
    requires Remove(rules, u, s, name, filter).outcome != Done
    ensures Remove(rules, u, s, name, filter)
         == RevertEach(rules, u, s.(facets := s.facets - {name}), Selected(rules.rendering, filter, s.facets[name], true))
  {
  }
}
