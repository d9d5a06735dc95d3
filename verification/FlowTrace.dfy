/**
 What the events of a cascade mean: every one is caused by an edge from an
 earlier one, and none of the reactions an `after` edge calls for is missed.
 */
module FlowTrace {
  import opened Common
  import opened FlowModel
  import opened FlowUniverse
  import opened FlowBranches
  import opened FlowCascade

  /** `e` may cause `f`: along an `after` edge in the same direction with the payload handed over, or along a stop-on edge. */
  ghost predicate Causes(rules: Rules, e: Event, f: Event) {
    || CausesAfter(rules, e, f)
    || (f.name in Targets(rules.stopOnIndex, e.name) && f.name in rules.defs && rules.defs[f.name].stopOn.Some?
        && (f.action == Apply ==> f.payload in rules.defs[f.name].autoPayloads.GetOr([])))
  }

  ghost predicate CausesAfter(rules: Rules, e: Event, f: Event) {
    && f.name in Targets(rules.afterIndex, e.name)
    && e.action == f.action
    && var payload := Handover(rules, f.name, Instance(e.name, e.payload, Facet));
    && payload.Some?
    && match f.action
       case Apply => f.payload == payload.value
       case Revert => Dropped(rules.rendering, PayloadToFilter(payload.value), f.payload)
  }

  /** Every event from `base` on is caused by `root` or by an earlier one of them. */
  ghost predicate Caused(rules: Rules, root: Event, events: seq<Event>, base: nat) {
    forall j | base <= j < |events| ::
      Causes(rules, root, events[j]) || CausedWithin(rules, events, base, j)
  }

  ghost predicate CausedWithin(rules: Rules, events: seq<Event>, base: nat, j: nat)
    requires j < |events|
  {
    exists i | base <= i < j :: Causes(rules, events[i], events[j])
  }

  /** A run of events that starts with `first`, everything else following from it. */
  ghost predicate Rooted(rules: Rules, first: Event, events: seq<Event>, base: nat) {
    base < |events| ==> events[base] == first && forall j | base < j < |events| :: CausedWithin(rules, events, base, j)
  }

  ghost predicate Ready(rules: Rules, u: Universe, s: State) {
    RulesIn(u, rules) && GraphIn(u, s.facets) && NamesMatch(s.facets)
  }

  /** The reaction of applying `p` to `name` was carried out after `base`, or is under way higher up. */
  ghost predicate Applied(t: State, base: nat, name: string, p: Payload) {
    || GuardKey(Apply, name, SignatureOf(Some(p))) in t.guard
    || exists j | base <= j < |t.events| :: t.events[j] == Event(name, p, Apply)
  }

  lemma CausedJoin(rules: Rules, root: Event, first: seq<Event>, all: seq<Event>, base: nat)
    requires Caused(rules, root, first, base) && first <= all && base <= |first|
    requires forall j | |first| <= j < |all| :: Causes(rules, root, all[j]) || CausedWithin(rules, all, |first|, j)
    ensures Caused(rules, root, all, base)
  {
    forall j | base <= j < |all| ensures Causes(rules, root, all[j]) || CausedWithin(rules, all, base, j) {
      if j < |first| {
        assert all[j] == first[j];
        if CausedWithin(rules, first, base, j) {
          var i :| base <= i < j && Causes(rules, first[i], first[j]);
          assert Causes(rules, all[i], all[j]);
        }
      } else if CausedWithin(rules, all, |first|, j) {
        var i :| |first| <= i < j && Causes(rules, all[i], all[j]);
        assert Causes(rules, all[i], all[j]);
      }
    }
  }

  /** Setting a facet: its own event first, everything else caused by it. */
  lemma {:induction false} SetTrace(rules: Rules, u: Universe, s: State, name: string, payload: Option<Payload>)
    requires Ready(rules, u, s) && name in u.names && (payload.Some? ==> Within(u, payload.value))
    ensures Rooted(rules, Event(name, payload.GetOr(NonePayload(false)), Apply), Set(rules, u, s, name, payload).state.events, |s.events|)
    decreases Unused(u, s.guard), 0, 0
  {
    var key := GuardKey(Apply, name, SignatureOf(payload));
    var p := payload.GetOr(NonePayload(false));
    if key !in s.guard && name in rules.defs && HasType(p, rules.defs[name].payload) {
      KeyInUniverse(u, Apply, name, payload);
      UnusedShrinks(u, s.guard, s.guard + {key});
      EnterKeeps(rules, u, s, Instance(name, p, Facet));
      var (facets, ok) := Enter(rules, s.facets, Instance(name, p, Facet));
      if ok {
        ReconcileTrace(rules, u, s, State(facets, s.guard + {key}, s.events + [Event(name, p, Apply)]), Instance(name, p, Facet), Apply);
      }
    }
  }

  /** The two reconcilers, run after an event: everything they emit follows from it. */
  lemma {:induction false} ReconcileTrace(rules: Rules, u: Universe, s: State, t: State, source: Instance, action: Direction)
    requires Ready(rules, u, t) && source.name in u.names && Within(u, source.payload) && source.flowType == Facet
    requires t.events == s.events + [Event(source.name, source.payload, action)]
    requires s.guard <= t.guard && Unused(u, t.guard) < Unused(u, s.guard)
    ensures var r1 := Transcend(rules, u, t, source, action, Targets(rules.afterIndex, source.name));
            && Rooted(rules, Event(source.name, source.payload, action), r1.state.events, |s.events|)
            && (r1.outcome == Done ==>
                  && Ready(rules, u, r1.state)
                  && Unused(u, r1.state.guard) <= Unused(u, t.guard)
                  && Rooted(rules, Event(source.name, source.payload, action),
                       Inverse(rules, u, r1.state, source, action, Targets(rules.stopOnIndex, source.name)).state.events, |s.events|))
    decreases Unused(u, t.guard), 6, 0
  {
    var first := Event(source.name, source.payload, action);
    TranscendTrace(rules, u, t, source, action, Targets(rules.afterIndex, source.name));
    var r1 := Transcend(rules, u, t, source, action, Targets(rules.afterIndex, source.name));
    RootedFrom(rules, first, s.events, r1.state.events);
    if r1.outcome == Done {
      UnusedShrinks(u, t.guard, r1.state.guard);
      InverseTrace(rules, u, r1.state, source, action, Targets(rules.stopOnIndex, source.name));
      var r2 := Inverse(rules, u, r1.state, source, action, Targets(rules.stopOnIndex, source.name));
      CausedJoin(rules, first, r1.state.events, r2.state.events, |s.events| + 1);
      RootedFrom(rules, first, s.events, r2.state.events);
    }
  }

  lemma RootedFrom(rules: Rules, first: Event, before: seq<Event>, events: seq<Event>)
    requires before + [first] <= events && Caused(rules, first, events, |before| + 1)
    ensures Rooted(rules, first, events, |before|)
  {
    forall j | |before| < j < |events| ensures CausedWithin(rules, events, |before|, j) {
      assert events[|before|] == first;
      if CausedWithin(rules, events, |before| + 1, j) {
        var i :| |before| + 1 <= i < j && Causes(rules, events[i], events[j]);
      } else {
        assert Causes(rules, events[|before|], events[j]);
      }
    }
  }

  /** Events that revert dropped branches of `name`, or follow from an earlier one. */
  ghost predicate Removal(rules: Rules, name: string, filter: Option<MatchOperation>, events: seq<Event>, base: nat) {
    forall j | base <= j < |events| ::
      Reverts(rules, name, filter, events[j]) || CausedWithin(rules, events, base, j)
  }

  ghost predicate Reverts(rules: Rules, name: string, filter: Option<MatchOperation>, e: Event) {
    e.name == name && e.action == Revert && Dropped(rules.rendering, filter, e.payload)
  }

  lemma RootedIsCaused(rules: Rules, root: Event, first: Event, events: seq<Event>, base: nat)
    requires Rooted(rules, first, events, base) && Causes(rules, root, first)
    ensures Caused(rules, root, events, base)
  {
  }

  lemma RemovalIsCaused(rules: Rules, root: Event, name: string, filter: Option<MatchOperation>, events: seq<Event>, base: nat)
    requires Removal(rules, name, filter, events, base)
    requires forall e | Reverts(rules, name, filter, e) :: Causes(rules, root, e)
    ensures Caused(rules, root, events, base)
  {
  }

  /** Every event of a removal is the removal of a dropped branch or caused by an earlier one. */
  lemma {:induction false} RemoveTrace(rules: Rules, u: Universe, s: State, name: string, filter: Option<MatchOperation>)
    requires Ready(rules, u, s) && name in u.names
    ensures Removal(rules, name, filter, Remove(rules, u, s, name, filter).state.events, |s.events|)
    decreases Unused(u, s.guard), 2, 0
  {
    if name in s.facets {
      var dropped := Selected(rules.rendering, filter, s.facets[name], true);
      RevertEachTrace(rules, u, s.(facets := s.facets - {name}), dropped, name, filter);
    }
  }

  lemma {:induction false} RevertEachTrace(rules: Rules, u: Universe, s: State, dropped: seq<Instance>, name: string, filter: Option<MatchOperation>)
    requires Ready(rules, u, s) && EntryIn(u, dropped)
    requires forall b | b in dropped :: b.name == name && Dropped(rules.rendering, filter, b.payload)
    ensures Removal(rules, name, filter, RevertEach(rules, u, s, dropped).state.events, |s.events|)
    decreases Unused(u, s.guard), 1, |dropped|
  {
    if dropped != [] {
      assert dropped[0] in dropped;
      var branch := dropped[0].(flowType := Facet);
      RevertalTrace(rules, u, s, branch);
      var r := Revertal(rules, u, s, branch);
      UnusedShrinks(u, s.guard, r.state.guard);
      assert Removal(rules, name, filter, r.state.events, |s.events|);
      if r.outcome == Done {
        RevertEachTrace(rules, u, r.state, dropped[1..], name, filter);
        RemovalJoin(rules, name, filter, r.state.events, RevertEach(rules, u, r.state, dropped[1..]).state.events, |s.events|);
      }
    }
  }

  lemma {:induction false} RevertalTrace(rules: Rules, u: Universe, s: State, branch: Instance)
    requires Ready(rules, u, s) && branch.name in u.names && Within(u, branch.payload) && branch.flowType == Facet
    ensures Rooted(rules, Event(branch.name, branch.payload, Revert), Revertal(rules, u, s, branch).state.events, |s.events|)
    decreases Unused(u, s.guard), 0, 0
  {
    var key := GuardKey(Revert, branch.name, SignatureOf(Some(branch.payload)));
    if key !in s.guard {
      KeyInUniverse(u, Revert, branch.name, Some(branch.payload));
      UnusedShrinks(u, s.guard, s.guard + {key});
      ReconcileTrace(rules, u, s, State(s.facets, s.guard + {key}, s.events + [Event(branch.name, branch.payload, Revert)]), branch, Revert);
    }
  }

  lemma RemovalJoin(rules: Rules, name: string, filter: Option<MatchOperation>, first: seq<Event>, all: seq<Event>, base: nat)
    requires Removal(rules, name, filter, first, base) && first <= all && base <= |first|
    requires Removal(rules, name, filter, all, |first|)
    ensures Removal(rules, name, filter, all, base)
  {
    forall j | base <= j < |all| ensures Reverts(rules, name, filter, all[j]) || CausedWithin(rules, all, base, j) {
      if j < |first| {
        assert all[j] == first[j];
        if CausedWithin(rules, first, base, j) {
          var i :| base <= i < j && Causes(rules, first[i], first[j]);
          assert Causes(rules, all[i], all[j]);
        }
      } else if CausedWithin(rules, all, |first|, j) {
        var i :| |first| <= i < j && Causes(rules, all[i], all[j]);
      }
    }
  }

  lemma {:induction false} TranscendTrace(rules: Rules, u: Universe, s: State, source: Instance, action: Direction, targets: seq<string>)
    requires Ready(rules, u, s) && Within(u, source.payload) && source.flowType == Facet
    requires forall t | t in targets :: t in u.names && t in Targets(rules.afterIndex, source.name)
    ensures Caused(rules, Event(source.name, source.payload, action), Transcend(rules, u, s, source, action, targets).state.events, |s.events|)
    decreases Unused(u, s.guard), 3, |targets|
  {
    if targets != [] {
      var root := Event(source.name, source.payload, action);
      var t := targets[0];
      var payload := Handover(rules, t, source);
      HandoverWithin(rules, u, t, source);
      if payload.None? {
        TranscendTrace(rules, u, s, source, action, targets[1..]);
      } else {
        var r;
        match action {
          case Apply =>
            SetTrace(rules, u, s, t, payload);
            r := Set(rules, u, s, t, payload);
            RootedIsCaused(rules, root, Event(t, payload.value, Apply), r.state.events, |s.events|);
          case Revert =>
            var filter := PayloadToFilter(payload.value);
            RemoveTrace(rules, u, s, t, filter);
            r := Remove(rules, u, s, t, filter);
            RemovalIsCaused(rules, root, t, filter, r.state.events, |s.events|);
        }
        UnusedShrinks(u, s.guard, r.state.guard);
        if r.outcome == Done {
          TranscendTrace(rules, u, r.state, source, action, targets[1..]);
          CausedJoin(rules, root, r.state.events, Transcend(rules, u, r.state, source, action, targets[1..]).state.events, |s.events|);
        }
      }
    }
  }

  lemma {:induction false} InverseTrace(rules: Rules, u: Universe, s: State, source: Instance, action: Direction, targets: seq<string>)
    requires Ready(rules, u, s)
    requires forall t | t in targets :: t in u.names && t in Targets(rules.stopOnIndex, source.name)
    ensures Caused(rules, Event(source.name, source.payload, action), Inverse(rules, u, s, source, action, targets).state.events, |s.events|)
    decreases Unused(u, s.guard), 5, |targets|
  {
    if targets != [] {
      var t := targets[0];
      if t in rules.defs && rules.defs[t].stopOn.Some? {
        var payloads := Candidates(rules.defs[t], Branches(s.facets, t));
        ReconsiderTrace(rules, u, s, source, action, t, payloads);
        var r := Reconsider(rules, u, s, source, action, t, payloads);
        UnusedShrinks(u, s.guard, r.state.guard);
        if r.outcome == Done {
          InverseTrace(rules, u, r.state, source, action, targets[1..]);
          CausedJoin(rules, Event(source.name, source.payload, action), r.state.events,
            Inverse(rules, u, r.state, source, action, targets[1..]).state.events, |s.events|);
        }
      } else {
        InverseTrace(rules, u, s, source, action, targets[1..]);
      }
    }
  }

  lemma {:induction false} ReconsiderTrace(rules: Rules, u: Universe, s: State, source: Instance, action: Direction, target: string, payloads: seq<Payload>)
    requires Ready(rules, u, s) && target in u.names && target in rules.defs && rules.defs[target].stopOn.Some?
    requires target in Targets(rules.stopOnIndex, source.name)
    requires forall p | p in payloads :: Within(u, p) && p in rules.defs[target].autoPayloads.GetOr(payloads)
    ensures Caused(rules, Event(source.name, source.payload, action),
              Reconsider(rules, u, s, source, action, target, payloads).state.events, |s.events|)
    decreases Unused(u, s.guard), 4, |payloads|
  {
    if payloads != [] {
      var root := Event(source.name, source.payload, action);
      SettleTrace(rules, u, s, source, action, target, payloads[0]);
      var r := Settle(rules, u, s, source, action, target, payloads[0]);
      UnusedShrinks(u, s.guard, r.state.guard);
      if r.outcome == Done {
        ReconsiderTrace(rules, u, r.state, source, action, target, payloads[1..]);
        CausedJoin(rules, root, r.state.events, Reconsider(rules, u, r.state, source, action, target, payloads[1..]).state.events, |s.events|);
      }
    }
  }

  lemma {:induction false} SettleTrace(rules: Rules, u: Universe, s: State, source: Instance, action: Direction, target: string, payload: Payload)
    requires Ready(rules, u, s) && target in u.names && target in rules.defs && rules.defs[target].stopOn.Some?
    requires target in Targets(rules.stopOnIndex, source.name)
    requires Within(u, payload) && payload in rules.defs[target].autoPayloads.GetOr([payload])
    ensures Caused(rules, Event(source.name, source.payload, action),
              Settle(rules, u, s, source, action, target, payload).state.events, |s.events|)
    decreases Unused(u, s.guard), 3, 0
  {
    var root := Event(source.name, source.payload, action);
    var wanted := ShouldActivate(rules, s.facets, rules.defs[target], payload, source, action);
    if wanted && !CurrentlyActive(s.facets, target, payload) {
      SetTrace(rules, u, s, target, Some(payload));
      RootedIsCaused(rules, root, Event(target, payload, Apply), Set(rules, u, s, target, Some(payload)).state.events, |s.events|);
    } else if !wanted && CurrentlyActive(s.facets, target, payload) {
      var filter := PayloadToFilter(payload);
      RemoveTrace(rules, u, s, target, filter);
      RemovalIsCaused(rules, root, target, filter, Remove(rules, u, s, target, filter).state.events, |s.events|);
    }
  }

  // ---- no reaction is missed ----

  lemma AppliedStays(s: State, t: State, base: nat, name: string, p: Payload)
    requires Applied(s, base, name, p) && s.guard <= t.guard && s.events <= t.events
    ensures Applied(t, base, name, p)
  {
    if GuardKey(Apply, name, SignatureOf(Some(p))) !in s.guard {
      var j :| base <= j < |s.events| && s.events[j] == Event(name, p, Apply);
      assert t.events[j] == Event(name, p, Apply);
    }
  }

  /** A set that ends well has applied its payload, or finds that under way. */
  lemma {:induction false} SetApplies(rules: Rules, u: Universe, s: State, name: string, p: Payload)
    requires RulesIn(u, rules) && GraphIn(u, s.facets) && name in u.names && Within(u, p)
    ensures Set(rules, u, s, name, Some(p)).outcome == Done ==> Applied(Set(rules, u, s, name, Some(p)).state, |s.events|, name, p)
  {
    var key := GuardKey(Apply, name, SignatureOf(Some(p)));
    var r := Set(rules, u, s, name, Some(p));
    if key !in s.guard && r.outcome == Done {
      FirstEvent(rules, u, s, name, p);
      assert r.state.events[|s.events|] == Event(name, p, Apply);
    }
  }

  /** No payload is the same as the none payload. */
  lemma SetNoPayload(rules: Rules, u: Universe, s: State, name: string)
    requires RulesIn(u, rules) && GraphIn(u, s.facets) && name in u.names
    ensures Set(rules, u, s, name, None) == Set(rules, u, s, name, Some(NonePayload(false)))
  {
  }

  lemma {:induction false} FirstEvent(rules: Rules, u: Universe, s: State, name: string, p: Payload)
    requires RulesIn(u, rules) && GraphIn(u, s.facets) && name in u.names && Within(u, p)
    requires GuardKey(Apply, name, SignatureOf(Some(p))) !in s.guard && Set(rules, u, s, name, Some(p)).outcome == Done
    ensures s.events + [Event(name, p, Apply)] <= Set(rules, u, s, name, Some(p)).state.events
  {
    var held := s.guard + {GuardKey(Apply, name, SignatureOf(Some(p)))};
    KeyInUniverse(u, Apply, name, Some(p));
    UnusedShrinks(u, s.guard, held);
    EnterKeeps(rules, u, s, Instance(name, p, Facet));
    var (facets, ok) := Enter(rules, s.facets, Instance(name, p, Facet));
    var entered := State(facets, held, s.events + [Event(name, p, Apply)]);
    var r1 := Transcend(rules, u, entered, Instance(name, p, Facet), Apply, Targets(rules.afterIndex, name));
    assert entered.events <= r1.state.events;
  }

  /** Reconciling an applied source reaches every target that reacts to it. */
  lemma {:induction false} TranscendComplete(rules: Rules, u: Universe, s: State, source: Instance, targets: seq<string>)
    requires RulesIn(u, rules) && GraphIn(u, s.facets) && Within(u, source.payload)
    requires forall t | t in targets :: t in u.names
    requires Transcend(rules, u, s, source, Apply, targets).outcome == Done
    ensures forall t | t in targets && Handover(rules, t, source).Some? ::
              Applied(Transcend(rules, u, s, source, Apply, targets).state, |s.events|, t, Handover(rules, t, source).value)
    decreases |targets|
  {
    if targets != [] {
      var t := targets[0];
      var payload := Handover(rules, t, source);
      HandoverWithin(rules, u, t, source);
      if payload.None? {
        TranscendComplete(rules, u, s, source, targets[1..]);
      } else {
        SetApplies(rules, u, s, t, payload.value);
        var r := Set(rules, u, s, t, payload);
        TranscendComplete(rules, u, r.state, source, targets[1..]);
        var end := Transcend(rules, u, r.state, source, Apply, targets[1..]).state;
        AppliedStays(r.state, end, |s.events|, t, payload.value);
        forall t' | t' in targets && Handover(rules, t', source).Some?
          ensures Applied(end, |s.events|, t', Handover(rules, t', source).value)
        {
          if t' != t {
            assert t' in targets[1..];
            AppliedLater(end, |r.state.events|, |s.events|, t', Handover(rules, t', source).value);
          }
        }
      }
    }
  }

  lemma AppliedLater(s: State, base: nat, base': nat, name: string, p: Payload)
    requires Applied(s, base, name, p) && base' <= base
    ensures Applied(s, base', name, p)
  {
  }

  /** Setting a facet not already under way applies it and every `after` target that reacts to it. */
  lemma {:induction false} SetComplete(rules: Rules, u: Universe, s: State, name: string, p: Payload, t: string)
    requires RulesIn(u, rules) && GraphIn(u, s.facets) && name in u.names && Within(u, p)
    requires GuardKey(Apply, name, SignatureOf(Some(p))) !in s.guard && Set(rules, u, s, name, Some(p)).outcome == Done
    requires t in Targets(rules.afterIndex, name) && Handover(rules, t, Instance(name, p, Facet)).Some?
    ensures var q := Handover(rules, t, Instance(name, p, Facet)).value;
            || (t == name && SignatureOf(Some(q)) == SignatureOf(Some(p)))
            || Applied(Set(rules, u, s, name, Some(p)).state, |s.events|, t, q)
  {
    var key := GuardKey(Apply, name, SignatureOf(Some(p)));
    var source := Instance(name, p, Facet);
    var held := s.guard + {key};
    KeyInUniverse(u, Apply, name, Some(p));
    UnusedShrinks(u, s.guard, held);
    EnterKeeps(rules, u, s, source);
    var (facets, ok) := Enter(rules, s.facets, source);
    var entered := State(facets, held, s.events + [Event(name, p, Apply)]);
    TranscendComplete(rules, u, entered, source, Targets(rules.afterIndex, name));
    var r1 := Transcend(rules, u, entered, source, Apply, Targets(rules.afterIndex, name));
    var q := Handover(rules, t, source).value;
    AppliedLater(r1.state, |entered.events|, |s.events|, t, q);
    UnusedShrinks(u, held, r1.state.guard);
    var r2 := Inverse(rules, u, r1.state, source, Apply, Targets(rules.stopOnIndex, name));
    AppliedStays(r1.state, r2.state, |s.events|, t, q);
  }

  // ---- no dropped branch is missed ----

  /** The branch was reverted after `base`, or its reverting is under way higher up. */
  ghost predicate Reverted(t: State, base: nat, b: Instance) {
    || GuardKey(Revert, b.name, SignatureOf(Some(b.payload))) in t.guard
    || exists j | base <= j < |t.events| :: t.events[j] == Event(b.name, b.payload, Revert)
  }

  lemma RevertedStays(s: State, t: State, base: nat, base': nat, b: Instance)
    requires Reverted(s, base, b) && s.guard <= t.guard && s.events <= t.events && base' <= base
    ensures Reverted(t, base', b)
  {
    if GuardKey(Revert, b.name, SignatureOf(Some(b.payload))) !in s.guard {
      var j :| base <= j < |s.events| && s.events[j] == Event(b.name, b.payload, Revert);
      assert t.events[j] == s.events[j];
    }
  }

  lemma {:induction false} RevertalReverts(rules: Rules, u: Universe, s: State, branch: Instance)
    requires RulesIn(u, rules) && GraphIn(u, s.facets) && branch.name in u.names && Within(u, branch.payload)
    ensures Reverted(Revertal(rules, u, s, branch).state, |s.events|, branch)
  {
    var key := GuardKey(Revert, branch.name, SignatureOf(Some(branch.payload)));
    if key !in s.guard {
      KeyInUniverse(u, Revert, branch.name, Some(branch.payload));
      UnusedShrinks(u, s.guard, s.guard + {key});
      var reverted := State(s.facets, s.guard + {key}, s.events + [Event(branch.name, branch.payload, Revert)]);
      var r1 := Transcend(rules, u, reverted, branch, Revert, Targets(rules.afterIndex, branch.name));
      assert reverted.events[|s.events|] == r1.state.events[|s.events|];
      if r1.outcome == Done {
        UnusedShrinks(u, reverted.guard, r1.state.guard);
        var r2 := Inverse(rules, u, r1.state, branch, Revert, Targets(rules.stopOnIndex, branch.name));
        assert r1.state.events[|s.events|] == r2.state.events[|s.events|];
      }
    }
  }

  lemma {:induction false} RevertEachComplete(rules: Rules, u: Universe, s: State, dropped: seq<Instance>)
    requires RulesIn(u, rules) && GraphIn(u, s.facets) && EntryIn(u, dropped) && RevertEach(rules, u, s, dropped).outcome == Done
    ensures forall b | b in dropped :: Reverted(RevertEach(rules, u, s, dropped).state, |s.events|, b)
    decreases |dropped|
  {
    if dropped != [] {
      assert dropped[0] in dropped;
      var branch := dropped[0].(flowType := Facet);
      RevertalReverts(rules, u, s, branch);
      var r := Revertal(rules, u, s, branch);
      UnusedShrinks(u, s.guard, r.state.guard);
      RevertEachComplete(rules, u, r.state, dropped[1..]);
      var end := RevertEach(rules, u, r.state, dropped[1..]).state;
      forall b | b in dropped ensures Reverted(end, |s.events|, b) {
        if b == dropped[0] {
          RevertedStays(r.state, end, |s.events|, |s.events|, branch);
        } else {
          assert b in dropped[1..];
          RevertedStays(end, end, |r.state.events|, |s.events|, b);
        }
      }
    }
  }

  /** A removal that ends well has reverted every instance its filter drops. */
  lemma {:induction false} RemoveComplete(rules: Rules, u: Universe, s: State, name: string, filter: Option<MatchOperation>)
    requires RulesIn(u, rules) && GraphIn(u, s.facets) && name in u.names && Remove(rules, u, s, name, filter).outcome == Done
    ensures forall b | b in Branches(s.facets, name) && Dropped(rules.rendering, filter, b.payload) ::
              Reverted(Remove(rules, u, s, name, filter).state, |s.events|, b)
  {
    if name in s.facets {
      RevertEachComplete(rules, u, s.(facets := s.facets - {name}), Selected(rules.rendering, filter, s.facets[name], true));
    }
  }

  /**
   Reconciling a reverted source: when a target that reacts to it has its turn,
   every instance of it that what it is handed drops is reverted.
   */
  lemma {:induction false} TranscendRevertComplete(rules: Rules, u: Universe, s: State, source: Instance, targets: seq<string>, i: nat)
    requires RulesIn(u, rules) && GraphIn(u, s.facets) && Within(u, source.payload)
    requires forall t | t in targets :: t in u.names
    requires i < |targets| && Handover(rules, targets[i], source).Some?
    requires Transcend(rules, u, s, source, Revert, targets).outcome == Done
    ensures var turn := Transcend(rules, u, s, source, Revert, targets[..i]).state;
            var filter := PayloadToFilter(Handover(rules, targets[i], source).value);
            forall b | b in Branches(turn.facets, targets[i]) && Dropped(rules.rendering, filter, b.payload) ::
              Reverted(Transcend(rules, u, s, source, Revert, targets).state, |turn.events|, b)
    decreases |targets|
  {
    var payload := Handover(rules, targets[0], source);
    HandoverWithin(rules, u, targets[0], source);
    assert targets[..i] == [] || (targets[..i][0] == targets[0] && targets[..i][1..] == targets[1..][..i - 1]);
    var next := if payload.None? then s else Remove(rules, u, s, targets[0], PayloadToFilter(payload.value)).state;
    if i == 0 {
      RemoveComplete(rules, u, s, targets[0], PayloadToFilter(payload.value));
      UnusedShrinks(u, s.guard, next.guard);
      var end := Transcend(rules, u, next, source, Revert, targets[1..]).state;
      forall b | b in Branches(s.facets, targets[0]) && Dropped(rules.rendering, PayloadToFilter(payload.value), b.payload)
        ensures Reverted(end, |s.events|, b)
      {
        RevertedStays(next, end, |s.events|, |s.events|, b);
      }
    } else {
      assert targets[i] == targets[1..][i - 1];
      TranscendRevertComplete(rules, u, next, source, targets[1..], i - 1);
    }
  }
}
