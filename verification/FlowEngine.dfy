/**
 The flow runtime object (crates/flow/src/flow.rs): its methods update the
 graph, the guard and the emitted events in place, and compute exactly the
 cascades of FlowCascade.
 */
module FlowEngine {
  import opened Common
  import opened FlowModel
  import opened FlowUniverse
  import opened FlowBranches
  import opened FlowCascade
  import opened FlowDecide
  import opened FlowTrace
  import opened FlowReach

  /** No key a cascade can meet is a branch key behind a '&'. */
  ghost predicate NoForcedBranchKeys(rules: Rules, facets: Facets, payload: Option<Payload>) {
    forall k | k in Unforced(StartKeys(rules, StartPayloads(rules, facets, payload))) && IsForced(k) :: !IsBranchKey(rules, k[1..])
  }

  class FlowRuntime {
    const rules: Rules
    var facets: Facets
    var guard: set<GuardKey>
    var events: seq<Event>

    constructor (rules: Rules, facets: Facets)
      ensures this.rules == rules && this.facets == facets && guard == {} && events == []
    {
      this.rules := rules;
      this.facets := facets;
      this.guard := {};
      this.events := [];
    }

    ghost function Now(): State
      reads this
    {
      State(facets, guard, events)
    }

    method EnterInstance(instance: Instance, def: FacetDef) returns (ok: bool)
      requires instance.name in rules.defs && def == rules.defs[instance.name]
      modifies this`facets
      ensures (facets, ok) == Enter(rules, old(facets), instance)
    {
      var entry := Branches(facets, instance.name);
      facets := facets[instance.name := entry];
      var stored := StoreInstance(entry, instance, BranchKeys(def));
      if stored.None? {
        return false;
      }
      facets := facets[instance.name := stored.value];
      assert facets == old(facets)[instance.name := stored.value];
      return true;
    }

    method SetFacet(name: string, payload: Option<Payload>, ghost u: Universe) returns (r: Outcome)
      requires RulesIn(u, rules) && GraphIn(u, facets)
      requires name in u.names && (payload.Some? ==> Within(u, payload.value))
      modifies this
      ensures Step(Now(), r) == Set(rules, u, old(Now()), name, payload)
      decreases Unused(u, guard), 0, 0
    {
      var key := GuardKey(Apply, name, SignatureOf(payload));
      if key in guard {
        return Done;
      }
      KeyInUniverse(u, Apply, name, payload);
      UnusedShrinks(u, guard, guard + {key});
      guard := guard + {key};
      if name !in rules.defs {
        return FacetNotFound(name);
      }
      var def := rules.defs[name];
      var flowPayload := payload.GetOr(NonePayload(false));
      if !HasType(flowPayload, def.payload) {
        guard := guard - {key};
        return PayloadTypeMismatch(name);
      }
      var instance := Instance(name, flowPayload, Facet);
      events := events + [Event(name, flowPayload, Apply)];
      EnterKeeps(rules, u, old(Now()), instance);
      var ok := EnterInstance(instance, def);
      if !ok {
        guard := guard - {key};
        return InvalidBranchKeys;
      }
      label entered:
      r := ReconcileTranscendence(instance, Apply, u);
      if r != Done {
        return;
      }
      UnusedShrinks(u, old@entered(guard), guard);
      r := ReconcileInverse(instance, Apply, u);
      if r != Done {
        return;
      }
      guard := guard - {key};
    }

    method RemoveFacet(name: string, filter: Option<MatchOperation>, ghost u: Universe) returns (r: Outcome)
      requires RulesIn(u, rules) && GraphIn(u, facets) && name in u.names
      modifies this
      ensures Step(Now(), r) == Remove(rules, u, old(Now()), name, filter)
      decreases Unused(u, guard), 2, 0
    {
      if name !in facets {
        return Done;
      }
      var branches := facets[name];
      facets := facets - {name};
      var toKeep := Selected(rules.rendering, filter, branches, false);
      var toRemove := Selected(rules.rendering, filter, branches, true);
      label taken:
      for i := 0 to |toRemove|
        invariant GraphIn(u, facets) && old(guard) <= guard && EntryIn(u, toRemove[i..])
        invariant RevertEach(rules, u, old@taken(Now()), toRemove) == RevertEach(rules, u, Now(), toRemove[i..])
      {
        assert toRemove[i..][0] == toRemove[i] && toRemove[i..][1..] == toRemove[i + 1..];
        UnusedShrinks(u, old(guard), guard);
        r := RevertBranch(toRemove[i].(flowType := Facet), u);
        if r != Done {
          return;
        }
      }
      if toKeep != [] {
        facets := facets[name := toKeep];
      }
      return Done;
    }

    method RevertBranch(branch: Instance, ghost u: Universe) returns (r: Outcome)
      requires RulesIn(u, rules) && GraphIn(u, facets) && branch.name in u.names && Within(u, branch.payload)
      modifies this
      ensures Step(Now(), r) == Revertal(rules, u, old(Now()), branch)
      decreases Unused(u, guard), 0, 0
    {
      var key := GuardKey(Revert, branch.name, SignatureOf(Some(branch.payload)));
      if key in guard {
        return Done;
      }
      KeyInUniverse(u, Revert, branch.name, Some(branch.payload));
      UnusedShrinks(u, guard, guard + {key});
      guard := guard + {key};
      events := events + [Event(branch.name, branch.payload, Revert)];
      label reverted:
      r := ReconcileTranscendence(branch, Revert, u);
      if r != Done {
        return;
      }
      UnusedShrinks(u, old@reverted(guard), guard);
      var _ := ReconcileInverse(branch, Revert, u);
      guard := guard - {key};
    }

    method ReconcileTranscendence(source: Instance, action: Direction, ghost u: Universe) returns (r: Outcome)
      requires RulesIn(u, rules) && GraphIn(u, facets)
      requires source.name in u.names && Within(u, source.payload)
      modifies this
      ensures Step(Now(), r) == Transcend(rules, u, old(Now()), source, action, Targets(rules.afterIndex, source.name))
      decreases Unused(u, guard), 4, 0
    {
      if source.name !in rules.afterIndex {
        return Done;
      }
      var targets := rules.afterIndex[source.name];
      for i := 0 to |targets|
        invariant GraphIn(u, facets) && old(guard) <= guard
        invariant Transcend(rules, u, old(Now()), source, action, targets) == Transcend(rules, u, Now(), source, action, targets[i..])
      {
        var fullName := targets[i];
        assert targets[i..][0] == fullName && targets[i..][1..] == targets[i + 1..];
        if fullName !in rules.defs {
          continue;
        }
        var def := rules.defs[fullName];
        if def.after.None? || !exists cond | cond in def.after.value :: CheckCondition(rules.rendering, cond, source) {
          continue;
        }
        var sourcePayload := source.payload;
        if def.autoPayloads.Some? {
          if def.autoPayloads.value == [] {
            continue;
          }
          sourcePayload := def.autoPayloads.value[0];
        }
        var payload := ComputeTranscendent(def, sourcePayload);
        if payload.None? {
          continue;
        }
        HandoverWithin(rules, u, fullName, source);
        UnusedShrinks(u, old(guard), guard);
        label before:
        match action {
          case Apply => r := SetFacet(fullName, payload, u);
          case Revert => r := RemoveFacet(fullName, PayloadToFilter(payload.value), u);
        }
        UnusedShrinks(u, old@before(guard), guard);
        if r != Done {
          return;
        }
      }
      return Done;
    }

    method ReconcileInverse(source: Instance, action: Direction, ghost u: Universe) returns (r: Outcome)
      requires RulesIn(u, rules) && GraphIn(u, facets) && source.name in u.names
      modifies this
      ensures Step(Now(), r) == Inverse(rules, u, old(Now()), source, action, Targets(rules.stopOnIndex, source.name))
      decreases Unused(u, guard), 5, 0
    {
      if source.name !in rules.stopOnIndex {
        return Done;
      }
      var targets := rules.stopOnIndex[source.name];
      for i := 0 to |targets|
        invariant GraphIn(u, facets) && old(guard) <= guard
        invariant Inverse(rules, u, old(Now()), source, action, targets) == Inverse(rules, u, Now(), source, action, targets[i..])
      {
        var fullName := targets[i];
        assert targets[i..][0] == fullName && targets[i..][1..] == targets[i + 1..];
        if fullName !in rules.defs || rules.defs[fullName].stopOn.None? {
          continue;
        }
        UnusedShrinks(u, old(guard), guard);
        label before:
        r := ReconsiderTarget(source, action, fullName, u);
        UnusedShrinks(u, old@before(guard), guard);
        if r != Done {
          return;
        }
      }
      return Done;
    }

    method ReconsiderTarget(source: Instance, action: Direction, target: string, ghost u: Universe) returns (r: Outcome)
      requires RulesIn(u, rules) && GraphIn(u, facets) && target in u.names
      requires target in rules.defs && rules.defs[target].stopOn.Some?
      modifies this
      ensures Step(Now(), r) == Reconsider(rules, u, old(Now()), source, action, target,
                                  Candidates(rules.defs[target], Branches(old(facets), target)))
      ensures AreCandidates(rules, old(facets), target, Candidates(rules.defs[target], Branches(old(facets), target)))
      ensures CandidatesSettled(rules, u, old(Now()), source, action, target, Candidates(rules.defs[target], Branches(old(facets), target)))
      decreases Unused(u, guard), 3, 1
    {
      var payloads := Candidates(rules.defs[target], Branches(facets, target));
      ReconsiderSettles(rules, u, Now(), source, action, target, payloads);
      r := ReconsiderAll(source, action, target, payloads, u);
    }

    /** Its loop over the candidates. */
    method ReconsiderAll(source: Instance, action: Direction, target: string, payloads: seq<Payload>, ghost u: Universe) returns (r: Outcome)
      requires RulesIn(u, rules) && GraphIn(u, facets) && target in u.names
      requires target in rules.defs && rules.defs[target].stopOn.Some? && forall p | p in payloads :: Within(u, p)
      modifies this
      ensures Step(Now(), r) == Reconsider(rules, u, old(Now()), source, action, target, payloads)
      decreases Unused(u, guard), 3, 0
    {
      var def := rules.defs[target];
      for i := 0 to |payloads|
        invariant GraphIn(u, facets) && old(guard) <= guard
        invariant forall p | p in payloads :: Within(u, p)
        invariant Reconsider(rules, u, old(Now()), source, action, target, payloads)
               == Reconsider(rules, u, Now(), source, action, target, payloads[i..])
      {
        var payload := payloads[i];
        assert payloads[i..][0] == payload && payloads[i..][1..] == payloads[i + 1..];
        var shouldActivate := ShouldActivate(rules, facets, def, payload, source, action);
        var currentlyActive := CurrentlyActive(facets, target, payload);
        UnusedShrinks(u, old(guard), guard);
        label before:
        r := Done;
        if shouldActivate && !currentlyActive {
          r := SetFacet(target, Some(payload), u);
        } else if !shouldActivate && currentlyActive {
          r := RemoveFacet(target, PayloadToFilter(payload), u);
        }
        UnusedShrinks(u, old@before(guard), guard);
        if r != Done {
          return;
        }
      }
      return Done;
    }

    method ComputeTranscendent(def: FacetDef, source: Payload) returns (r: Option<Payload>)
      ensures r == TranscendentPayload(def, source)
    {
      if def.payload == JsonType && def.branch.Some? {
        r := MapJsonPayload(def.branch.value, source);
      } else {
        r := TranscendentPayload(def, source);
      }
    }

    // ---- the runtime's actions ----

    /** set_facet terminates on every graph, touches only what it can reach, keeps branches unique, and emits only what it causes. */
    method SetFacetAction(name: string, payload: Option<Payload>) returns (r: Outcome, ghost u: Universe)
      modifies this
      ensures RulesIn(u, rules) && GraphIn(u, old(facets)) && name in u.names && (payload.Some? ==> Within(u, payload.value))
      ensures Step(Now(), r) == Set(rules, u, old(Now()).(guard := {}), name, payload)
      ensures forall n | n !in Reach(rules, old(facets), name) ::
                (n in facets <==> n in old(facets)) && (n in facets ==> facets[n] == old(facets)[n])
      ensures NoForcedBranchKeys(rules, old(facets), payload) && old(Unique(rules, facets)) ==> Unique(rules, facets)
      ensures old(NamesMatch(facets)) ==> NamesMatch(facets)
      ensures old(TypesMatch(rules, facets)) ==> TypesMatch(rules, facets)
      ensures old(NamesMatch(facets)) ==> Rooted(rules, Event(name, payload.GetOr(NonePayload(false)), Apply), events, |old(events)|)
      ensures r == Done ==> old(events) + [Event(name, payload.GetOr(NonePayload(false)), Apply)] <= events
      ensures r == Done && old(NamesMatch(facets)) && name !in Downstream(rules, name) ==>
                && name in rules.defs
                && var instance := Instance(name, payload.GetOr(NonePayload(false)), Facet);
                   Some(Branches(facets, name)) == Stored(Branches(old(facets), name), instance, BranchKeys(rules.defs[name]))
    {
      guard := {};
      u := UniverseOf(rules, facets, Reach(rules, facets, name), payload);
      ghost var start := Now();
      UniverseExists(rules, facets, u.names, payload);
      r := SetFacet(name, payload, u);
      if NamesMatch(start.facets) {
        SetTrace(rules, u, start, name, payload);
      }
      if r == Done {
        assert start.guard == {};
        var p := payload.GetOr(NonePayload(false));
        SetNoPayload(rules, u, start, name);
        FirstEvent(rules, u, start, name, p);
        if NamesMatch(start.facets) && name !in Downstream(rules, name) {
          SetLeavesStored(rules, u, start, name, p);
        }
      }
    }

    /** remove_facet likewise; what it drops is reverted, or its revert was under way. */
    method RemoveFacetAction(name: string, filter: Option<MatchOperation>) returns (r: Outcome, ghost u: Universe)
      modifies this
      ensures RulesIn(u, rules) && GraphIn(u, old(facets)) && name in u.names
      ensures Step(Now(), r) == Remove(rules, u, old(Now()).(guard := {}), name, filter)
      ensures r == Done ==> forall b | b in Branches(old(facets), name) && Dropped(rules.rendering, filter, b.payload) ::
                Reverted(Now(), |old(events)|, b)
      ensures forall n | n !in Reach(rules, old(facets), name) ::
                (n in facets <==> n in old(facets)) && (n in facets ==> facets[n] == old(facets)[n])
      ensures NoForcedBranchKeys(rules, old(facets), None) && old(Unique(rules, facets)) ==> Unique(rules, facets)
      ensures old(TypesMatch(rules, facets)) ==> TypesMatch(rules, facets)
      ensures old(NamesMatch(facets)) ==> NamesMatch(facets) && Removal(rules, name, filter, events, |old(events)|)
      ensures r == Done && name in old(facets) ==>
                var kept := Selected(rules.rendering, filter, old(facets)[name], false);
                kept != [] ==> name in facets && facets[name] == kept
      ensures r == Done && old(NamesMatch(facets)) && name in old(facets) && name !in Reactivated(rules, name) ==>
                Branches(facets, name) == Selected(rules.rendering, filter, old(facets)[name], false)
    {
      guard := {};
      u := UniverseOf(rules, facets, Reach(rules, facets, name), None);
      ghost var start := Now();
      UniverseExists(rules, facets, u.names, None);
      r := RemoveFacet(name, filter, u);
      if r == Done {
        RemoveComplete(rules, u, start, name, filter);
      }
      if NamesMatch(start.facets) {
        RemoveTrace(rules, u, start, name, filter);
        if name in start.facets && name !in Reactivated(rules, name) {
          RemoveLeavesKept(rules, u, start, name, filter);
        }
      }
    }

    method StoredInstances() returns (existing: seq<Instance>)
      ensures forall i | i in existing :: exists n | n in facets :: i in facets[n]
      ensures forall n, i | n in facets && i in facets[n] :: i in existing
    {
      existing := [];
      var names := facets.Keys;
      while names != {}
        invariant names <= facets.Keys
        invariant forall i | i in existing :: exists n | n in facets :: i in facets[n]
        invariant forall n, i | n in facets && n !in names && i in facets[n] :: i in existing
        decreases names
      {
        var n :| n in names;
        names := names - {n};
        existing := existing + facets[n];
      }
    }

    method ReconcileStored(existing: seq<Instance>, ghost u: Universe) returns (r: Outcome)
      requires RulesIn(u, rules) && GraphIn(u, facets) && EntryIn(u, existing)
      modifies this
      ensures Keeps(rules, u, old(Now()), Now())
      ensures old(NamesMatch(facets)) && (forall i | i in existing :: i.flowType == Facet) ==>
                Prompted(rules, Applications(existing), events, |old(events)|)
      ensures r == Done ==> forall i | i in existing :: Answered(rules, |old(events)|, Now(), i)
    {
      ghost var traced := NamesMatch(facets) && forall i | i in existing :: i.flowType == Facet;
      for k := 0 to |existing|
        invariant Keeps(rules, u, old(Now()), Now())
        invariant traced ==> NamesMatch(facets) && Prompted(rules, Applications(existing), events, |old(events)|)
        invariant forall j | 0 <= j < k :: Answered(rules, |old(events)|, Now(), existing[j])
      {
        ghost var before := Now();
        assert existing[k] in existing;
        r := ReconcileTranscendence(existing[k], Apply, u);
        if r == Done {
          AnsweredSoFar(rules, u, before, existing, k, |old(events)|);
        }
        if traced {
          TranscendTrace(rules, u, before, existing[k], Apply, Targets(rules.afterIndex, existing[k].name));
          PromptedJoin(rules, Applications(existing), Event(existing[k].name, existing[k].payload, Apply), before.events, events, |old(events)|);
        }
        if r != Done {
          return;
        }
      }
      return Done;
    }

    method ReconcileStopOn(ghost u: Universe) returns (r: Outcome)
      requires RulesIn(u, rules) && GraphIn(u, facets) && rules.stopOnIndex.Keys <= u.names
      modifies this
      ensures Keeps(rules, u, old(Now()), Now())
      ensures old(NamesMatch(facets)) ==> Prompted(rules, StopOnSources(rules), events, |old(events)|)
      ensures r == Done ==> forall n | n in rules.stopOnIndex :: SourceSettled(rules, u, old(events), Now(), n)
    {
      ghost var traced := NamesMatch(facets);
      var sources := rules.stopOnIndex.Keys;
      while sources != {}
        invariant sources <= rules.stopOnIndex.Keys
        invariant Keeps(rules, u, old(Now()), Now())
        invariant traced ==> NamesMatch(facets) && Prompted(rules, StopOnSources(rules), events, |old(events)|)
        invariant forall n | n in rules.stopOnIndex && n !in sources :: SourceSettled(rules, u, old(events), Now(), n)
        decreases sources
      {
        var source :| source in sources;
        sources := sources - {source};
        ghost var before := Now();
        r := ReconcileInverse(Instance(source, NonePayload(false), Facet), Revert, u);
        if r == Done {
          forall n | n in rules.stopOnIndex && n !in sources ensures SourceSettled(rules, u, old(events), Now(), n) {
            if n == source {
              ReconciledSettles(rules, u, before, n, old(events));
            } else {
              SourceStays(rules, u, old(events), before, Now(), n);
            }
          }
        }
        if traced {
          InverseTrace(rules, u, before, Instance(source, NonePayload(false), Facet), Revert, Targets(rules.stopOnIndex, source));
          PromptedJoin(rules, StopOnSources(rules), Event(source, NonePayload(false), Revert), before.events, events, |old(events)|);
        }
        if r != Done {
          return;
        }
      }
      return Done;
    }

    /** bootstrap: reconcile from every stored instance, then from every stop-on source, under one guard set. */
    method Bootstrap() returns (r: Outcome, ghost u: Universe)
      modifies this
      ensures NoForcedBranchKeys(rules, old(facets), None) && old(Unique(rules, facets)) ==> Unique(rules, facets)
      ensures old(NamesMatch(facets)) ==> NamesMatch(facets)
      ensures old(TypesMatch(rules, facets)) ==> TypesMatch(rules, facets)
      ensures forall n | n !in AllNames(rules, old(facets)) ::
                (n in facets <==> n in old(facets)) && (n in facets ==> facets[n] == old(facets)[n])
      ensures old(NamesMatch(facets)) && old(AllFacets(facets)) ==>
                Prompted(rules, AllStored(old(facets)) + StopOnSources(rules), events, |old(events)|)
      ensures r == Done ==> forall n, i | n in old(facets) && i in old(facets)[n] :: Answered(rules, |old(events)|, Now(), i)
      ensures r == Done ==> forall n | n in rules.stopOnIndex :: SourceSettled(rules, u, old(events), Now(), n)
    {
      guard := {};
      u := UniverseOf(rules, facets, AllNames(rules, facets), None);
      ghost var start := Now();
      AllNamesClosed(rules, facets);
      UniverseExists(rules, facets, u.names, None);
      StartWithin(rules, facets, u.names, None);
      var existing := StoredInstances();
      assert forall i | i in existing :: Event(i.name, i.payload, Apply) in AllStored(facets);
      label start:
      r := ReconcileStored(existing, u);
      ghost var middle := Now();
      if NamesMatch(start.facets) && AllFacets(start.facets) {
        PromptedWidens(rules, Applications(existing), AllStored(start.facets) + StopOnSources(rules), events, |start.events|);
      }
      if r != Done {
        return;
      }
      r := ReconcileStopOn(u);
      if r == Done {
        NothingUndone(rules, u, start, middle, Now());
      }
      if NamesMatch(start.facets) && AllFacets(start.facets) {
        PromptedByBoth(rules, AllStored(start.facets), StopOnSources(rules), middle.events, events, |start.events|);
      }
    }
  }

  // ---- what a bootstrap does not leave undone ----

  /** Every `after` target that reacts to the instance was applied, with what it was handed. */
  ghost predicate Answered(rules: Rules, base: nat, t: State, i: Instance) {
    forall target | target in Targets(rules.afterIndex, i.name) && Handover(rules, target, i).Some? ::
      Applied(t, base, target, Handover(rules, target, i).value)
  }

  lemma AnsweredStays(rules: Rules, base: nat, s: State, t: State, i: Instance)
    requires Answered(rules, base, s, i) && s.guard <= t.guard && s.events <= t.events
    ensures Answered(rules, base, t, i)
  {
    forall target | target in Targets(rules.afterIndex, i.name) && Handover(rules, target, i).Some?
      ensures Applied(t, base, target, Handover(rules, target, i).value)
    {
      AppliedStays(s, t, base, target, Handover(rules, target, i).value);
    }
  }

  lemma AnsweredSoFar(rules: Rules, u: Universe, s: State, existing: seq<Instance>, k: nat, base: nat)
    requires RulesIn(u, rules) && GraphIn(u, s.facets) && EntryIn(u, existing) && k < |existing| && base <= |s.events|
    requires existing[k].name in u.names && Within(u, existing[k].payload)
    requires Transcend(rules, u, s, existing[k], Apply, Targets(rules.afterIndex, existing[k].name)).outcome == Done
    requires forall j | 0 <= j < k :: Answered(rules, base, s, existing[j])
    ensures var t := Transcend(rules, u, s, existing[k], Apply, Targets(rules.afterIndex, existing[k].name)).state;
            forall j | 0 <= j < k + 1 :: Answered(rules, base, t, existing[j])
  {
    var t := Transcend(rules, u, s, existing[k], Apply, Targets(rules.afterIndex, existing[k].name)).state;
    forall j | 0 <= j < k ensures Answered(rules, base, t, existing[j]) {
      AnsweredStays(rules, base, s, t, existing[j]);
    }
    ReconciledAnswers(rules, u, s, existing[k], base);
  }

  lemma ReconciledAnswers(rules: Rules, u: Universe, s: State, i: Instance, base: nat)
    requires RulesIn(u, rules) && GraphIn(u, s.facets) && i.name in u.names && Within(u, i.payload) && base <= |s.events|
    requires Transcend(rules, u, s, i, Apply, Targets(rules.afterIndex, i.name)).outcome == Done
    ensures Answered(rules, base, Transcend(rules, u, s, i, Apply, Targets(rules.afterIndex, i.name)).state, i)
  {
    var end := Transcend(rules, u, s, i, Apply, Targets(rules.afterIndex, i.name)).state;
    TranscendComplete(rules, u, s, i, Targets(rules.afterIndex, i.name));
    forall target | target in Targets(rules.afterIndex, i.name) && Handover(rules, target, i).Some?
      ensures Applied(end, base, target, Handover(rules, target, i).value)
    {
      AppliedLater(end, |s.events|, base, target, Handover(rules, target, i).value);
    }
  }

  /** Every stop-on target of the source was reconsidered since, candidate by candidate. */
  ghost predicate SourceSettled(rules: Rules, u: Universe, since: seq<Event>, t: State, n: string) {
    forall target | target in Targets(rules.stopOnIndex, n) && target in rules.defs && rules.defs[target].stopOn.Some? ::
      WasSettled(rules, u, since, t, n, target)
  }

  ghost predicate WasSettled(rules: Rules, u: Universe, since: seq<Event>, t: State, n: string, target: string)
    requires target in rules.defs && rules.defs[target].stopOn.Some?
  {
    && RulesIn(u, rules) && target in u.names
    && exists turn: State, payloads: seq<Payload> ::
         && GraphIn(u, turn.facets) && (forall p | p in payloads :: Within(u, p)) && since <= turn.events
         && TargetSettled(rules, u, turn, Instance(n, NonePayload(false), Facet), Revert, target, payloads, t)
  }

  lemma SourceStays(rules: Rules, u: Universe, since: seq<Event>, s: State, t: State, n: string)
    requires SourceSettled(rules, u, since, s, n) && s.events <= t.events
    ensures SourceSettled(rules, u, since, t, n)
  {
    forall target | target in Targets(rules.stopOnIndex, n) && target in rules.defs && rules.defs[target].stopOn.Some?
      ensures WasSettled(rules, u, since, t, n, target)
    {
      assert WasSettled(rules, u, since, s, n, target);
      var turn: State, payloads: seq<Payload> :|
        && GraphIn(u, turn.facets) && (forall p | p in payloads :: Within(u, p)) && since <= turn.events
        && TargetSettled(rules, u, turn, Instance(n, NonePayload(false), Facet), Revert, target, payloads, s);
      assert TargetSettled(rules, u, turn, Instance(n, NonePayload(false), Facet), Revert, target, payloads, t);
    }
  }

  lemma SourceSince(rules: Rules, u: Universe, since: seq<Event>, later: seq<Event>, t: State, n: string)
    requires SourceSettled(rules, u, later, t, n) && since <= later
    ensures SourceSettled(rules, u, since, t, n)
  {
    forall target | target in Targets(rules.stopOnIndex, n) && target in rules.defs && rules.defs[target].stopOn.Some?
      ensures WasSettled(rules, u, since, t, n, target)
    {
      assert WasSettled(rules, u, later, t, n, target);
      var turn: State, payloads: seq<Payload> :|
        && GraphIn(u, turn.facets) && (forall p | p in payloads :: Within(u, p)) && later <= turn.events
        && TargetSettled(rules, u, turn, Instance(n, NonePayload(false), Facet), Revert, target, payloads, t);
      assert since <= turn.events;
    }
  }

  lemma NothingUndone(rules: Rules, u: Universe, start: State, middle: State, end: State)
    requires start.events <= middle.events <= end.events && middle.guard <= end.guard
    requires forall n, i | n in start.facets && i in start.facets[n] :: Answered(rules, |start.events|, middle, i)
    requires forall n | n in rules.stopOnIndex :: SourceSettled(rules, u, middle.events, end, n)
    ensures forall n, i | n in start.facets && i in start.facets[n] :: Answered(rules, |start.events|, end, i)
    ensures forall n | n in rules.stopOnIndex :: SourceSettled(rules, u, start.events, end, n)
  {
    forall n, i | n in start.facets && i in start.facets[n] ensures Answered(rules, |start.events|, end, i) {
      AnsweredStays(rules, |start.events|, middle, end, i);
    }
    forall n | n in rules.stopOnIndex ensures SourceSettled(rules, u, start.events, end, n) {
      SourceSince(rules, u, start.events, middle.events, end, n);
    }
  }

  lemma {:induction false} ReconciledSettles(rules: Rules, u: Universe, s: State, n: string, since: seq<Event>)
    requires RulesIn(u, rules) && GraphIn(u, s.facets) && n in u.names && since <= s.events
    requires Inverse(rules, u, s, Instance(n, NonePayload(false), Facet), Revert, Targets(rules.stopOnIndex, n)).outcome == Done
    ensures SourceSettled(rules, u, since, Inverse(rules, u, s, Instance(n, NonePayload(false), Facet), Revert, Targets(rules.stopOnIndex, n)).state, n)
  {
    var source, targets := Instance(n, NonePayload(false), Facet), Targets(rules.stopOnIndex, n);
    forall target | target in targets && target in rules.defs && rules.defs[target].stopOn.Some?
      ensures WasSettled(rules, u, since, Inverse(rules, u, s, source, Revert, targets).state, n, target)
    {
      var i :| 0 <= i < |targets| && targets[i] == target;
      var turn, payloads := InverseSettles(rules, u, s, source, Revert, targets, i);
      assert s.events <= turn.events;
    }
  }

  // ---- what a bootstrap starts from ----

  ghost predicate AllFacets(facets: Facets) {
    forall n, i | n in facets && i in facets[n] :: i.flowType == Facet
  }

  ghost function Applications(existing: seq<Instance>): set<Event> {
    set i | i in existing :: Event(i.name, i.payload, Apply)
  }

  /** The applications of all stored instances, which a bootstrap does not emit again. */
  ghost function AllStored(facets: Facets): set<Event> {
    set n, i | n in facets && i in facets[n] :: Event(i.name, i.payload, Apply)
  }

  ghost function StopOnSources(rules: Rules): set<Event> {
    set n | n in rules.stopOnIndex :: Event(n, NonePayload(false), Revert)
  }

  /** Every event from `base` on is caused by one of the roots or by an earlier one of them. */
  ghost predicate Prompted(rules: Rules, roots: set<Event>, events: seq<Event>, base: nat) {
    forall j | base <= j < |events| :: PromptedAt(rules, roots, events[j]) || CausedWithin(rules, events, base, j)
  }

  ghost predicate PromptedAt(rules: Rules, roots: set<Event>, e: Event) {
    exists root | root in roots :: Causes(rules, root, e)
  }

  lemma PromptedWidens(rules: Rules, roots: set<Event>, more: set<Event>, events: seq<Event>, base: nat)
    requires Prompted(rules, roots, events, base) && roots <= more
    ensures Prompted(rules, more, events, base)
  {
    forall j | base <= j < |events| ensures PromptedAt(rules, more, events[j]) || CausedWithin(rules, events, base, j) {
      assert PromptedAt(rules, roots, events[j]) ==> PromptedAt(rules, more, events[j]);
    }
  }

  lemma CausedEarlier(rules: Rules, first: seq<Event>, all: seq<Event>, base: nat, from: nat, j: nat)
    requires base <= from <= j < |first| && first <= all && CausedWithin(rules, first, from, j)
    ensures CausedWithin(rules, all, base, j)
  {
    var i :| from <= i < j && Causes(rules, first[i], first[j]);
    assert Causes(rules, all[i], all[j]);
  }

  lemma PromptedAppend(rules: Rules, roots: set<Event>, first: seq<Event>, all: seq<Event>, base: nat)
    requires Prompted(rules, roots, first, base) && Prompted(rules, roots, all, |first|) && first <= all && base <= |first|
    ensures Prompted(rules, roots, all, base)
  {
    forall j | base <= j < |all| ensures PromptedAt(rules, roots, all[j]) || CausedWithin(rules, all, base, j) {
      if j < |first| {
        assert all[j] == first[j];
        if CausedWithin(rules, first, base, j) {
          CausedEarlier(rules, first, all, base, base, j);
        }
      } else if CausedWithin(rules, all, |first|, j) {
        CausedEarlier(rules, all, all, base, |first|, j);
      }
    }
  }

  lemma PromptedByBoth(rules: Rules, a: set<Event>, b: set<Event>, first: seq<Event>, all: seq<Event>, base: nat)
    requires Prompted(rules, a + b, first, base) && Prompted(rules, b, all, |first|) && first <= all && base <= |first|
    ensures Prompted(rules, a + b, all, base)
  {
    PromptedWidens(rules, b, a + b, all, |first|);
    PromptedAppend(rules, a + b, first, all, base);
  }

  lemma PromptedJoin(rules: Rules, roots: set<Event>, root: Event, first: seq<Event>, all: seq<Event>, base: nat)
    requires Prompted(rules, roots, first, base) && root in roots && Caused(rules, root, all, |first|) && first <= all && base <= |first|
    ensures Prompted(rules, roots, all, base)
  {
    forall j | |first| <= j < |all| ensures PromptedAt(rules, roots, all[j]) || CausedWithin(rules, all, |first|, j) {
      assert Causes(rules, root, all[j]) ==> PromptedAt(rules, roots, all[j]);
    }
    PromptedAppend(rules, roots, first, all, base);
  }
}
