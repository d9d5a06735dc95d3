/**
 How far a cascade reaches, and what remove_facet loses. remove_facet takes an
 entry out, lets the cascade run, and puts the kept part back over whatever the
 cascade stored there meanwhile (crates/flow/src/flow.rs).
 */
module FlowReach {
  import opened Common
  import opened FlowModel
  import opened FlowUniverse
  import opened FlowBranches
  import opened FlowCascade

  /** A stop-on target that comes back by itself: it has auto-payloads. */
  predicate Automatic(rules: Rules, t: string) {
    && t in rules.defs && rules.defs[t].stopOn.Some?
    && rules.defs[t].autoPayloads.Some? && rules.defs[t].autoPayloads.value != []
  }

  /** d holds the targets of n, and `on` those of them that come back by themselves. */
  ghost predicate TargetsIn(rules: Rules, n: string, d: set<string>, on: set<string>) {
    && (forall t | t in Targets(rules.afterIndex, n) :: t in d)
    && (forall t | t in Targets(rules.stopOnIndex, n) :: t in d && (Automatic(rules, t) ==> t in on))
  }

  ghost predicate AfterIn(rules: Rules, n: string, on: set<string>) {
    forall t | t in Targets(rules.afterIndex, n) :: t in on
  }

  /** What a cascade touches, d, and what of it it may apply, `on`, are closed. */
  ghost predicate ClosedNames(rules: Rules, d: set<string>, on: set<string>) {
    (forall n | n in d :: TargetsIn(rules, n, d, on)) && forall n | n in on :: AfterIn(rules, n, on)
  }

  ghost predicate SameEntry(s: State, t: State, n: string) {
    (n in s.facets <==> n in t.facets) && (n in s.facets ==> t.facets[n] == s.facets[n])
  }

  /** A stretch of a cascade that touches only facets of d, and brings instances only to those of `on`. */
  ghost predicate Follows(d: set<string>, on: set<string>, s: State, t: State) {
    (forall n | n !in d :: SameEntry(s, t, n)) && forall n | n !in on :: BringsNone(s, t, n)
  }

  ghost predicate BringsNone(s: State, t: State, n: string) {
    forall i | i in Branches(t.facets, n) :: i in Branches(s.facets, n)
  }

  lemma FollowsOn(d: set<string>, on: set<string>, a: State, b: State, c: State)
    requires Follows(d, on, a, b) && Follows(d, on, b, c)
    ensures Follows(d, on, a, c)
  {
    forall n | n !in d ensures SameEntry(a, c, n) {
      assert SameEntry(a, b, n) && SameEntry(b, c, n);
    }
    forall n | n !in on ensures BringsNone(a, c, n) {
      assert BringsNone(a, b, n) && BringsNone(b, c, n);
    }
  }

  /** Guard and events play no part in it. */
  lemma FollowsGraph(d: set<string>, on: set<string>, s: State, t: State, s': State, t': State)
    requires Follows(d, on, s, t) && s'.facets == s.facets && t'.facets == t.facets
    ensures Follows(d, on, s', t')
  {
    forall n | n !in d ensures SameEntry(s', t', n) {
      assert SameEntry(s, t, n);
    }
    forall n | n !in on ensures BringsNone(s', t', n) {
      assert BringsNone(s, t, n);
    }
  }

  /** Taking an entry out, going on from there, and putting part of it back or not. */
  lemma PutBackFollows(d: set<string>, on: set<string>, s: State, t: State, name: string, kept: seq<Instance>)
    requires name in d && name in s.facets && forall i | i in kept :: i in s.facets[name]
    requires Follows(d, on, s.(facets := s.facets - {name}), t)
    ensures Follows(d, on, s, t) && Follows(d, on, s, t.(facets := t.facets[name := kept]))
  {
    var out, back := s.(facets := s.facets - {name}), t.(facets := t.facets[name := kept]);
    forall n | n !in on ensures BringsNone(s, t, n) && BringsNone(s, back, n) {
      assert BringsNone(out, t, n);
    }
    forall n | n !in d ensures SameEntry(s, t, n) && SameEntry(s, back, n) {
      assert SameEntry(out, t, n);
    }
  }

  lemma {:induction false} SetFollows(rules: Rules, u: Universe, s: State, name: string, payload: Option<Payload>, d: set<string>, on: set<string>)
    requires RulesIn(u, rules) && GraphIn(u, s.facets) && NamesMatch(s.facets) && ClosedNames(rules, d, on)
    requires name in u.names && name in d && name in on && (payload.Some? ==> Within(u, payload.value))
    ensures Follows(d, on, s, Set(rules, u, s, name, payload).state)
    decreases Unused(u, s.guard), 0, 0
  {
    var key := GuardKey(Apply, name, SignatureOf(payload));
    var p := payload.GetOr(NonePayload(false));
    if key !in s.guard && name in rules.defs && HasType(p, rules.defs[name].payload) {
      KeyInUniverse(u, Apply, name, payload);
      UnusedShrinks(u, s.guard, s.guard + {key});
      EnteredFollows(rules, u, s, Instance(name, p, Facet), s.guard + {key}, d, on);
      var entered := Entered(rules, s, Instance(name, p, Facet), s.guard + {key});
      var after := Spread(rules, u, entered, Instance(name, p, Facet)).state;
      FollowsGraph(d, on, s, entered, s, entered.(guard := s.guard));
      FollowsGraph(d, on, s, after, s, after.(guard := after.guard - {key}));
    }
  }

  /** The state of a set once the instance is stored and its event emitted. */
  ghost function Entered(rules: Rules, s: State, instance: Instance, held: set<GuardKey>): State
    requires instance.name in rules.defs
  {
    State(Enter(rules, s.facets, instance).0, held, s.events + [Event(instance.name, instance.payload, Apply)])
  }

  lemma EnterFollows(rules: Rules, d: set<string>, on: set<string>, s: State, instance: Instance, held: set<GuardKey>)
    requires instance.name in d && instance.name in on && instance.name in rules.defs
    ensures Follows(d, on, s, Entered(rules, s, instance, held))
  {
    var t := Entered(rules, s, instance, held);
    forall n | n != instance.name ensures SameEntry(s, t, n) && BringsNone(s, t, n) {
    }
  }

  lemma {:induction false} EnteredFollows(rules: Rules, u: Universe, s: State, instance: Instance, held: set<GuardKey>, d: set<string>, on: set<string>)
    requires RulesIn(u, rules) && GraphIn(u, s.facets) && NamesMatch(s.facets) && ClosedNames(rules, d, on)
    requires instance.name in u.names && instance.name in d && instance.name in on && Within(u, instance.payload)
    requires instance.name in rules.defs && HasType(instance.payload, rules.defs[instance.name].payload)
    ensures var entered := Entered(rules, s, instance, held);
            GraphIn(u, entered.facets) && Follows(d, on, s, entered) && Follows(d, on, s, Spread(rules, u, entered, instance).state)
    decreases Unused(u, held), 8, 0
  {
    var entered := Entered(rules, s, instance, held);
    EnterKeeps(rules, u, s, instance);
    EnterFollows(rules, d, on, s, instance, held);
    SpreadFollows(rules, u, entered, instance, d, on);
    FollowsOn(d, on, s, entered, Spread(rules, u, entered, instance).state);
  }

  lemma {:induction false} SpreadFollows(rules: Rules, u: Universe, s: State, instance: Instance, d: set<string>, on: set<string>)
    requires RulesIn(u, rules) && GraphIn(u, s.facets) && NamesMatch(s.facets) && ClosedNames(rules, d, on)
    requires instance.name in u.names && Within(u, instance.payload) && TargetsIn(rules, instance.name, d, on) && AfterIn(rules, instance.name, on)
    ensures Follows(d, on, s, Spread(rules, u, s, instance).state)
    decreases Unused(u, s.guard), 7, 0
  {
    BothFollow(rules, u, s, instance, Apply, d, on);
  }

  /** Both reconcilers after an event, whatever comes of the first. */
  lemma {:induction false} BothFollow(rules: Rules, u: Universe, s: State, source: Instance, action: Direction, d: set<string>, on: set<string>)
    requires RulesIn(u, rules) && GraphIn(u, s.facets) && NamesMatch(s.facets) && ClosedNames(rules, d, on)
    requires source.name in u.names && Within(u, source.payload) && TargetsIn(rules, source.name, d, on)
    requires action == Apply ==> AfterIn(rules, source.name, on)
    ensures var r1 := Transcend(rules, u, s, source, action, Targets(rules.afterIndex, source.name));
            && Follows(d, on, s, r1.state)
            && Follows(d, on, s, Inverse(rules, u, r1.state, source, action, Targets(rules.stopOnIndex, source.name)).state)
    decreases Unused(u, s.guard), 6, 0
  {
    TranscendFollows(rules, u, s, source, action, Targets(rules.afterIndex, source.name), d, on);
    var r1 := Transcend(rules, u, s, source, action, Targets(rules.afterIndex, source.name));
    UnusedShrinks(u, s.guard, r1.state.guard);
    InverseFollows(rules, u, r1.state, source, action, Targets(rules.stopOnIndex, source.name), d, on);
    FollowsOn(d, on, s, r1.state, Inverse(rules, u, r1.state, source, action, Targets(rules.stopOnIndex, source.name)).state);
  }

  lemma {:induction false} RemoveFollows(rules: Rules, u: Universe, s: State, name: string, filter: Option<MatchOperation>, d: set<string>, on: set<string>)
    requires RulesIn(u, rules) && GraphIn(u, s.facets) && NamesMatch(s.facets) && ClosedNames(rules, d, on)
    requires name in u.names && name in d
    ensures Follows(d, on, s, Remove(rules, u, s, name, filter).state)
    decreases Unused(u, s.guard), 2, 0
  {
    if name in s.facets {
      var kept := Selected(rules.rendering, filter, s.facets[name], false);
      var dropped := Selected(rules.rendering, filter, s.facets[name], true);
      var out := s.(facets := s.facets - {name});
      RevertEachFollows(rules, u, out, dropped, d, on);
      PutBackFollows(d, on, s, RevertEach(rules, u, out, dropped).state, name, kept);
    }
  }

  lemma {:induction false} RevertEachFollows(rules: Rules, u: Universe, s: State, dropped: seq<Instance>, d: set<string>, on: set<string>)
    requires RulesIn(u, rules) && GraphIn(u, s.facets) && NamesMatch(s.facets) && ClosedNames(rules, d, on)
    requires EntryIn(u, dropped) && forall b | b in dropped :: TargetsIn(rules, b.name, d, on)
    ensures Follows(d, on, s, RevertEach(rules, u, s, dropped).state)
    decreases Unused(u, s.guard), 1, |dropped|
  {
    if dropped != [] {
      assert dropped[0] in dropped;
      var b := dropped[0].(flowType := Facet);
      RevertalFollows(rules, u, s, b, d, on);
      var r := Revertal(rules, u, s, b);
      UnusedShrinks(u, s.guard, r.state.guard);
      if r.outcome == Done {
        RevertEachFollows(rules, u, r.state, dropped[1..], d, on);
        FollowsOn(d, on, s, r.state, RevertEach(rules, u, r.state, dropped[1..]).state);
      }
    }
  }

  lemma {:induction false} RevertalFollows(rules: Rules, u: Universe, s: State, branch: Instance, d: set<string>, on: set<string>)
    requires RulesIn(u, rules) && GraphIn(u, s.facets) && NamesMatch(s.facets) && ClosedNames(rules, d, on)
    requires branch.name in u.names && Within(u, branch.payload) && TargetsIn(rules, branch.name, d, on)
    ensures Follows(d, on, s, Revertal(rules, u, s, branch).state)
    decreases Unused(u, s.guard), 0, 0
  {
    var key := GuardKey(Revert, branch.name, SignatureOf(Some(branch.payload)));
    if key !in s.guard {
      KeyInUniverse(u, Revert, branch.name, Some(branch.payload));
      UnusedShrinks(u, s.guard, s.guard + {key});
      var reverted := State(s.facets, s.guard + {key}, s.events + [Event(branch.name, branch.payload, Revert)]);
      assert Follows(d, on, s, reverted);
      BothFollow(rules, u, reverted, branch, Revert, d, on);
      var r1 := Transcend(rules, u, reverted, branch, Revert, Targets(rules.afterIndex, branch.name));
      FollowsOn(d, on, s, reverted, r1.state);
      var r2 := Inverse(rules, u, r1.state, branch, Revert, Targets(rules.stopOnIndex, branch.name));
      FollowsOn(d, on, s, reverted, r2.state);
      FollowsGraph(d, on, s, r2.state, s, r2.state.(guard := r2.state.guard - {key}));
    }
  }

  lemma {:induction false} TranscendFollows(rules: Rules, u: Universe, s: State, source: Instance, action: Direction, targets: seq<string>, d: set<string>, on: set<string>)
    requires RulesIn(u, rules) && GraphIn(u, s.facets) && NamesMatch(s.facets) && ClosedNames(rules, d, on)
    requires Within(u, source.payload) && forall t | t in targets :: t in u.names && t in d && (action == Apply ==> t in on)
    ensures Follows(d, on, s, Transcend(rules, u, s, source, action, targets).state)
    decreases Unused(u, s.guard), 3, |targets|
  {
    if targets != [] {
      var payload := Handover(rules, targets[0], source);
      HandoverWithin(rules, u, targets[0], source);
      if payload.None? {
        TranscendFollows(rules, u, s, source, action, targets[1..], d, on);
      } else {
        var r := match action
          case Apply => Set(rules, u, s, targets[0], payload)
          case Revert => Remove(rules, u, s, targets[0], PayloadToFilter(payload.value));
        match action {
          case Apply => SetFollows(rules, u, s, targets[0], payload, d, on);
          case Revert => RemoveFollows(rules, u, s, targets[0], PayloadToFilter(payload.value), d, on);
        }
        UnusedShrinks(u, s.guard, r.state.guard);
        if r.outcome == Done {
          TranscendFollows(rules, u, r.state, source, action, targets[1..], d, on);
          FollowsOn(d, on, s, r.state, Transcend(rules, u, r.state, source, action, targets[1..]).state);
        }
      }
    }
  }

  lemma {:induction false} InverseFollows(rules: Rules, u: Universe, s: State, source: Instance, action: Direction, targets: seq<string>, d: set<string>, on: set<string>)
    requires RulesIn(u, rules) && GraphIn(u, s.facets) && NamesMatch(s.facets) && ClosedNames(rules, d, on)
    requires forall t | t in targets :: t in u.names && t in d && (Automatic(rules, t) ==> t in on)
    ensures Follows(d, on, s, Inverse(rules, u, s, source, action, targets).state)
    decreases Unused(u, s.guard), 5, |targets|
  {
    if targets != [] {
      if targets[0] !in rules.defs || rules.defs[targets[0]].stopOn.None? {
        InverseFollows(rules, u, s, source, action, targets[1..], d, on);
      } else {
        var payloads := Candidates(rules.defs[targets[0]], Branches(s.facets, targets[0]));
        ReconsiderFollows(rules, u, s, source, action, targets[0], payloads, d, on);
        var r := Reconsider(rules, u, s, source, action, targets[0], payloads);
        UnusedShrinks(u, s.guard, r.state.guard);
        if r.outcome == Done {
          InverseFollows(rules, u, r.state, source, action, targets[1..], d, on);
          FollowsOn(d, on, s, r.state, Inverse(rules, u, r.state, source, action, targets[1..]).state);
        }
      }
    }
  }

  lemma {:induction false} ReconsiderFollows(rules: Rules, u: Universe, s: State, source: Instance, action: Direction, target: string, payloads: seq<Payload>, d: set<string>, on: set<string>)
    requires RulesIn(u, rules) && GraphIn(u, s.facets) && NamesMatch(s.facets) && ClosedNames(rules, d, on)
    requires target in u.names && target in d && target in rules.defs && (forall p | p in payloads :: Within(u, p))
    requires payloads != [] && rules.defs[target].autoPayloads.Some? && rules.defs[target].stopOn.Some? ==> target in on
    ensures Follows(d, on, s, Reconsider(rules, u, s, source, action, target, payloads).state)
    decreases Unused(u, s.guard), 4, |payloads|
  {
    if payloads != [] {
      SettleFollows(rules, u, s, source, action, target, payloads[0], d, on);
      var r := Settle(rules, u, s, source, action, target, payloads[0]);
      UnusedShrinks(u, s.guard, r.state.guard);
      if r.outcome == Done {
        ReconsiderFollows(rules, u, r.state, source, action, target, payloads[1..], d, on);
        FollowsOn(d, on, s, r.state, Reconsider(rules, u, r.state, source, action, target, payloads[1..]).state);
      }
    }
  }

  lemma {:induction false} SettleFollows(rules: Rules, u: Universe, s: State, source: Instance, action: Direction, target: string, payload: Payload, d: set<string>, on: set<string>)
    requires RulesIn(u, rules) && GraphIn(u, s.facets) && NamesMatch(s.facets) && ClosedNames(rules, d, on)
    requires target in u.names && target in d && target in rules.defs && Within(u, payload)
    requires rules.defs[target].autoPayloads.Some? && rules.defs[target].stopOn.Some? ==> target in on
    ensures Follows(d, on, s, Settle(rules, u, s, source, action, target, payload).state)
    decreases Unused(u, s.guard), 3, 0
  {
    var wanted := ShouldActivate(rules, s.facets, rules.defs[target], payload, source, action);
    var active := CurrentlyActive(s.facets, target, payload);
    if wanted && !active {
      SetFollows(rules, u, s, target, Some(payload), d, on);
    } else if !wanted && active {
      RemoveFollows(rules, u, s, target, PayloadToFilter(payload), d, on);
    }
  }

  // ---- what a removal loses ----

  ghost function AllTargets(rules: Rules): set<string> {
    (set n, t | n in rules.afterIndex && t in rules.afterIndex[n] :: t) + set n, t | n in rules.stopOnIndex && t in rules.stopOnIndex[n] :: t
  }

  ghost predicate IsBelow(rules: Rules, name: string, n: string) {
    forall d: set<string> | ClosedNames(rules, d, d) && TargetsIn(rules, name, d, d) :: n in d
  }

  /** The facets reached from the targets of `name`, following both indexes. */
  ghost function Downstream(rules: Rules, name: string): (d: set<string>)
    ensures ClosedNames(rules, d, d) && TargetsIn(rules, name, d, d)
  {
    var d := set n | n in AllTargets(rules) && IsBelow(rules, name, n);
    forall n, t | (n == name || n in d) && (t in Targets(rules.afterIndex, n) || t in Targets(rules.stopOnIndex, n)) ensures t in d {
      BelowTarget(rules, name, n, t);
    }
    d
  }

  lemma BelowTarget(rules: Rules, name: string, n: string, t: string)
    requires n == name || IsBelow(rules, name, n)
    requires t in Targets(rules.afterIndex, n) || t in Targets(rules.stopOnIndex, n)
    ensures t in AllTargets(rules) && IsBelow(rules, name, t)
  {
    forall d: set<string> | ClosedNames(rules, d, d) && TargetsIn(rules, name, d, d) ensures t in d {
      assert n == name || n in d;
    }
  }

  /** What comes back by itself when `name` or a facet downstream of it changes is in `on`, with all that follows it. */
  ghost predicate HoldsReactivated(rules: Rules, name: string, on: set<string>) {
    && ClosedNames(rules, Downstream(rules, name), on)
    && TargetsIn(rules, name, Downstream(rules, name), on)
  }

  ghost predicate IsReactivated(rules: Rules, name: string, n: string) {
    forall on: set<string> | HoldsReactivated(rules, name, on) :: n in on
  }

  /**
   The facets a removal of `name` may apply: the automatic stop-on targets of
   `name` and of its downstream, and what is reached from them over `after`.
   */
  ghost function Reactivated(rules: Rules, name: string): (on: set<string>)
    ensures HoldsReactivated(rules, name, on) && on <= Downstream(rules, name)
    ensures forall on' | HoldsReactivated(rules, name, on') :: on <= on'
  {
    var d := Downstream(rules, name);
    var on := set n | n in d && IsReactivated(rules, name, n);
    forall n, t | n in on && t in Targets(rules.afterIndex, n) ensures t in on {
      forall on': set<string> | HoldsReactivated(rules, name, on') ensures t in on' {
        assert n in on' && AfterIn(rules, n, on');
      }
      assert TargetsIn(rules, n, d, d);
    }
    forall n, t | (n == name || n in d) && t in Targets(rules.stopOnIndex, n) && Automatic(rules, t) ensures t in on {
      forall on': set<string> | HoldsReactivated(rules, name, on') ensures t in on' {
        assert TargetsIn(rules, n, d, on');
      }
      assert TargetsIn(rules, n, d, d);
    }
    on
  }

  /** Without automatic stop-on targets a removal applies nothing, whatever loops there are. */
  lemma NothingReactivated(rules: Rules, name: string)
    requires forall n, t | (n == name || n in Downstream(rules, name)) && t in Targets(rules.stopOnIndex, n) :: !Automatic(rules, t)
    ensures Reactivated(rules, name) == {}
  {
    var d := Downstream(rules, name);
    forall n | n == name || n in d ensures TargetsIn(rules, n, d, {}) {
      assert TargetsIn(rules, n, d, d);
    }
    assert HoldsReactivated(rules, name, {});
  }

  /** The state the cascade of a removal leaves, before the kept part is put back. */
  ghost function CascadeOf(rules: Rules, u: Universe, s: State, name: string, filter: Option<MatchOperation>): Step
    requires RulesIn(u, rules) && GraphIn(u, s.facets) && name in u.names && name in s.facets
  {
    RevertEach(rules, u, s.(facets := s.facets - {name}), Selected(rules.rendering, filter, s.facets[name], true))
  }

  /** An instance that the cascade of the removal left in the graph and the removal then overwrote. */
  ghost predicate Lost(rules: Rules, u: Universe, s: State, name: string, filter: Option<MatchOperation>, n: string, i: Instance)
    requires RulesIn(u, rules) && GraphIn(u, s.facets) && name in u.names && name in s.facets
  {
    i in Branches(CascadeOf(rules, u, s, name, filter).state.facets, n) && i !in Branches(Remove(rules, u, s, name, filter).state.facets, n)
  }

  lemma HoldsSome(entry: seq<Instance>)
    requires entry != []
    ensures exists i :: i in entry
  {
    assert entry[0] in entry;
  }

  /** A facet that its removal cannot apply again ends it with exactly what the filter keeps. */
  lemma RemoveLeavesKept(rules: Rules, u: Universe, s: State, name: string, filter: Option<MatchOperation>)
    requires RulesIn(u, rules) && GraphIn(u, s.facets) && NamesMatch(s.facets) && name in u.names && name in s.facets
    requires name !in Reactivated(rules, name)
    ensures Branches(CascadeOf(rules, u, s, name, filter).state.facets, name) == []
    ensures var r := Remove(rules, u, s, name, filter);
            r.outcome == Done ==> Branches(r.state.facets, name) == Selected(rules.rendering, filter, s.facets[name], false)
  {
    var out := s.(facets := s.facets - {name});
    var dropped := Selected(rules.rendering, filter, s.facets[name], true);
    RevertEachFollows(rules, u, out, dropped, Downstream(rules, name), Reactivated(rules, name));
    var c := CascadeOf(rules, u, s, name, filter).state;
    assert BringsNone(out, c, name) && Branches(out.facets, name) == [];
    if Branches(c.facets, name) != [] {
      HoldsSome(Branches(c.facets, name));
    }
  }

  /** Nothing that the cascade stored is lost when nothing is kept, or when the removal cannot apply the facet again. */
  lemma NothingLost(rules: Rules, u: Universe, s: State, name: string, filter: Option<MatchOperation>)
    requires RulesIn(u, rules) && GraphIn(u, s.facets) && NamesMatch(s.facets) && name in u.names && name in s.facets
    requires Selected(rules.rendering, filter, s.facets[name], false) == [] || name !in Reactivated(rules, name)
    ensures forall n, i :: !Lost(rules, u, s, name, filter, n, i)
  {
    if name !in Reactivated(rules, name) {
      RemoveLeavesKept(rules, u, s, name, filter);
    }
  }

  lemma SpreadStays(rules: Rules, u: Universe, s: State, instance: Instance, held: set<GuardKey>)
    requires RulesIn(u, rules) && GraphIn(u, s.facets) && NamesMatch(s.facets) && instance.name !in Downstream(rules, instance.name)
    requires instance.name in u.names && Within(u, instance.payload)
    requires instance.name in rules.defs && HasType(instance.payload, rules.defs[instance.name].payload)
    ensures var entered := Entered(rules, s, instance, held);
            GraphIn(u, entered.facets) && SameEntry(entered, Spread(rules, u, entered, instance).state, instance.name)
  {
    EnterKeeps(rules, u, s, instance);
    var d := Downstream(rules, instance.name);
    SpreadFollows(rules, u, Entered(rules, s, instance, held), instance, d, d);
  }

  /** And a set that ends well with what it stored. */
  lemma SetLeavesStored(rules: Rules, u: Universe, s: State, name: string, p: Payload)
    requires RulesIn(u, rules) && GraphIn(u, s.facets) && NamesMatch(s.facets) && name in u.names && Within(u, p)
    requires GuardKey(Apply, name, SignatureOf(Some(p))) !in s.guard && Set(rules, u, s, name, Some(p)).outcome == Done
    requires name !in Downstream(rules, name)
    ensures Some(Branches(Set(rules, u, s, name, Some(p)).state.facets, name))
         == Stored(Branches(s.facets, name), Instance(name, p, Facet), BranchKeys(rules.defs[name]))
  {
    SpreadStays(rules, u, s, Instance(name, p, Facet), s.guard + {GuardKey(Apply, name, SignatureOf(Some(p)))});
  }
}
