# Verification of rind's core algorithms

rind is an init daemon. This project models the parts of it whose correctness is
hard to see from one function body, and proves what they promise for every input
and every run:

* **Flow engine** (`Json`, `FlowModel`, `FlowMerge`, `FlowUniverse`,
  `FlowBranches`, `FlowCascade`, `FlowDecide`, `FlowTrace`, `FlowReach`, `FlowLoss`,
  `FlowEngine`, `FacetPersistence`). Setting or
  removing a facet cascades along `after` and `stop-on` edges through four
  mutually recursive routines over a graph that may be cyclic. The cascade is
  given once as functions of the state and once as methods of a class that
  updates graph, guard and event trace in place; the methods are proved equal to
  the functions. Termination is measured by the guard keys not yet held, out of a
  finite universe of payloads that is built from the rules, the graph and the
  payload. The facet graph is also saved and loaded by scope.
* **Shared-memory ring** (`RingMath`, `ShmRing`, `ShmFifo`, `ShmInterleaving`).
  A byte ring with free-running 32-bit counters: in place on an array, over whole
  sequential runs, and as one writer and one reader interleaved at single loads,
  bytes and stores.
* **Boot planning and dependency loops** (`Graphs`, `Orchestrator`, `Settling`,
  `Mounts`, `Services`, `RuntimeQueue`). Kahn's algorithm, the
  retain-until-no-progress loops of mounts and services, and the command queue.
* **Log stream** (`LogCodec`). The framed writer with segment rotation, the
  resynchronising decoder and its incremental use.
* **Permissions, login limits and DHCP** (`Users`, `Permissions`, `Rperms`,
  `Lockout`, `Dhcp`).

Text serializers, checksums, password verification, clocks, system calls and
handler bodies are parameters; each module says which.

## What came out

Some promises hold only under a condition. The code is modelled as it is; the
condition is proved exact, or a concrete input shows the failure.

* `merge_json` remembers only the last key it forced, so "&k" overrides "k" not
  always, but exactly when k is absent, or does not sort after the forced keys, or
  "&k" is the last of them; next to doubly forced keys a copy may be passed over
  (`FlowMerge.MergedAt`, `FlowMerge.CopyDecidesIff`, `FlowMerge.LaterCopyUndoes`).
* Branches of a facet stay unique under a stored payload exactly when no forced
  copy that so decides over a branch key has another value than the key itself.
  An object with "id" and another value under "&id" moves to another branch; a
  further "&z" leaves it where it is (`FlowBranches.StoreKeepsUniqueIff`,
  `FlowBranches.ForcedIdMovesIff`, `FlowBranches.ForcedIdExamples`).
* `remove_facet` puts back the part of the entry it keeps over whatever its own
  cascade stored under that name meanwhile. A removal applies a facet only from
  stop-on targets with auto-payloads and along `after` from there; a facet not
  among those ends with exactly what the filter kept, whatever loops it lies on,
  and nothing is lost (`FlowReach.RemoveLeavesKept`, `FlowReach.NothingLost`). For
  one that is among them it can happen: with facet a stopping on b and b following
  one instance of a, removing that instance applies a anew, and the new instance is
  gone at the end without having been reverted (`FlowLoss.RemovalRuns`,
  `FlowLoss.RemovalLoses`).
* The active test and the removal filter agree on two kinds of payload exactly
  when the kinds are equal or the removing payload is of bytes or none, whose
  removal has no filter (`FlowModel.TestsAgreeIff`). On a graph whose instances
  have their facet's payload type, which every cascade keeps, only equal kinds
  meet (`FlowCascade.TypedRemovalDeactivates`).
* `subset_match` is transitive from a filter exactly when the filter reaches no
  object with keys through arrays alone (`Json.TransitiveIff`).
* Let every message that fits an empty ring be sent, and perhaps others. All runs
  deliver whole messages, in order and none lost, exactly when 2^32 modulo the
  buffer size is 0 or the size less one, or the size is at most 5, and every length
  sent is one that `write` tests as intended (`ShmFifo.DeliversIff`). The size in
  use, 1 MiB less 12, is not such a size: a message is torn when the counters wrap
  (`ShmFifo.ShippedSizeTears`). Lengths not tested as intended are those that, cast
  to 32 bits, wrap the sum with the bytes in use, and those of 4 GiB or more that
  are cast to one that fits: such a payload is received cut down
  (`ShmFifo.PayloadFails`, `ShmFifo.CastLengthTears`).
* A mount with dependencies is entered as mounted under `unit:target`, so plain
  targets in `after` reach only mounts without `after`
  (`Mounts.BareNamesReachOneLevel`).
* `link` refuses only a direct link back; links stay free of cycles exactly when
  the new parent does not lead to the permission
  (`Permissions.LinkKeepsAcyclicIff`, `Permissions.LinkCycles`). The link
  sets can be ordered so that `user_has` never returns exactly when a cycle of
  undecided permissions is reached through undecided ones, for the user or for a
  group that is asked on the way; groups are asked in their order up to the first
  that has the permission. Everywhere else the answer is the one the link paths
  give (`Permissions.MayNotEndIff`, `Permissions.UserHasIff`).
* Following the log from its end returns what the bytes added since decode to on
  their own. It misses nothing when no frame begins in what was seen but not
  consumed; started within a frame, it loses that frame's entry
  (`LogCodec.SeededFollows`, `LogCodec.SeededMissesNothing`,
  `LogCodec.HalfFrameLost`).
* `all` names an id "unknown" when it is both stored and granted
  (`Permissions.Named`).
* The permission file restores every subject exactly when no subject with any
  permissions follows another with the same id (`Rperms.RoundTripIff`).
* A flush of an unregistered context loses the runtime it was about to call
  (`RuntimeQueue.RuntimesConservedIff`).
* `drop_scope` drops exactly its scope's facets unless the scope is `static` or
  holds an `@` (`FacetPersistence.DropsExactlyIff`); saving and loading restores
  the facets exactly when leftover files are empty, instances have names and no
  facet is in the empty scope (`FacetPersistence.SaveLoadIff`).

## Model

| member | source | states |
|---|---|---|
| `Json.JsonSubsetIff` | crates/flow/src/triggers.rs:415-441 | json_subset means agreement along every object path of the reference: an object, an array with a match for every item, or the same scalar |
| `Json.JsonSubsetReflexive` | crates/flow/src/triggers.rs:415-441 | json_subset holds of every value and itself |
| `Json.JsonSubsetTransitive` | crates/flow/src/triggers.rs:415-441 | json_subset is transitive |
| `Json.SubsetMatchNarrowFilter` | crates/flow/src/triggers.rs:268-293 | a filter below a matching filter matches |
| `Json.SubsetMatchWidenPayload` | crates/flow/src/triggers.rs:268-293 | a payload above a matched payload is matched |
| `Json.SubsetMatchReflexive` | crates/flow/src/triggers.rs:268-293 | every value matches itself as a filter |
| `Json.JsonSubsetImpliesSubsetMatch` | crates/flow/src/triggers.rs:268-293 | whatever json_subset accepts, subset_match accepts |
| `Json.FlatTransitive` | crates/flow/src/triggers.rs:268-293 | subset_match is transitive from a filter that reaches no object with keys through arrays |
| `Json.TransitiveIff` | crates/flow/src/triggers.rs:268-293 | a filter makes it transitive iff it reaches no object with keys through arrays: an object filter stops descending at the first object |
| `FlowModel.SameNameAnyScope` | crates/flow/src/triggers.rs:22-27 | a facet has one flow name under every scope and without one, and different facets have different ones |
| `FlowModel.MatchesIs` | crates/flow/src/triggers.rs:75-94 | binary comes before contains, contains before as; contains means the text occurs, a plain text is compared whole |
| `FlowModel.SpecKeys` | crates/flow/src/triggers.rs:368-380 | "target:source" names two trimmed keys, a spec without ':' one for both |
| `FlowModel.CompatibleIsDropped` | crates/flow/src/triggers.rs:337-347 | for payloads of one kind, what the active test counts is what the removal filter drops |
| `FlowModel.TestsAgreeIff` | crates/flow/src/triggers.rs:337-347 | on payloads of kinds a and b, whatever the active test counts the removal drops, iff a is b or a is bytes or none |
| `FlowModel.KeptAcrossKinds` | crates/flow/src/triggers.rs:403-413 | any instance of another kind is kept by the removal of some JSON or text payload for which the active test counts it |
| `FlowModel.DroppedMonotone` | crates/flow/src/triggers.rs:75-94 | a removal with a smaller payload drops at least as much, and larger instances no less |
| `FlowModel.BranchKeyIs` | crates/flow/src/triggers.rs:295-303 | a branch key exists iff all keys are present, and is the tuple of their values |
| `FlowModel.BranchKeyCong` | crates/flow/src/triggers.rs:295-303 | objects that agree on the branch keys have the same branch key |
| `FlowModel.JsonBranchKey` | crates/flow/src/triggers.rs:295-303 | the loop computes the branch key |
| `FlowModel.ProjectedIs` | crates/flow/src/triggers.rs:382-401 | a projection exists iff all source keys do; its keys are the target keys and its values source values |
| `FlowModel.ProjectedLastWins` | crates/flow/src/triggers.rs:382-401 | of specs with one target, the last decides its value |
| `FlowModel.MapJsonPayload` | crates/flow/src/triggers.rs:382-401 | the loop computes the projection, or None for a missing key or a non-object |
| `FlowModel.MergeJson` | crates/flow/src/triggers.rs:305-325 | the in-place merge in ascending key order with forced keys computes Merged, whose value at each key `FlowMerge.MergedAt` gives |
| `FlowMerge.MergedAt` | crates/flow/src/triggers.rs:305-325 | the value at each key after a merge: the forced copy's if it decides, else the plain one, else what was there |
| `FlowMerge.CopyDecidesIff` | crates/flow/src/triggers.rs:305-325 | a forced copy overrides its key iff the key comes before all forced keys or the copy is the last forced key and is not passed over |
| `FlowMerge.LaterCopyUndoes` | crates/flow/src/triggers.rs:305-325 | a key after all forced keys keeps its plain value as soon as another key is forced after its copy |
| `FlowMerge.NonePassed` | crates/flow/src/triggers.rs:305-325 | without doubly forced keys no forced key is passed over |
| `FlowModel.MergeKeeps` | crates/flow/src/triggers.rs:305-325 | a key on which both agree and of which there is no forced copy survives a merge unchanged |
| `FlowModel.MergeWithin` | crates/flow/src/triggers.rs:305-325 | a merge only writes keys and values that were there, up to one stripped '&' |
| `FlowUniverse.TranscendentWithin` | crates/flow/src/flow.rs:1315-1345 | a payload handed to a target stays within the universe |
| `FlowUniverse.MergedWithin` | crates/flow/src/triggers.rs:305-325 | so does a merged payload |
| `FlowUniverse.KeyInUniverse` | crates/flow/src/triggers.rs:327-335 | every guard key of a payload within the universe is one of its finitely many keys |
| `FlowUniverse.UnusedShrinks` | crates/flow/src/flow.rs:460-465 | taking a new guard key strictly shrinks the measure, and no larger guard raises it |
| `FlowUniverse.Reach` | crates/flow/src/flow.rs:956-1001 | the facets reachable over both indexes and stored names are closed under what a cascade follows |
| `FlowUniverse.UniverseExists` | crates/flow/src/flow.rs:448-645 | any rules, graph and payload have a finite universe that absorbs everything derived from them |
| `FlowBranches.StoreInstance` | crates/flow/src/flow.rs:502-541 | the store loop replaces plain payloads, merges JSON into the first branch with its key, or appends it |
| `FlowBranches.StoredIs` | crates/flow/src/flow.rs:502-541 | a plain payload replaces the entry; a JSON one is refused iff it is no object or lacks a branch key, else merged into the first instance of its branch or appended, and the others stay |
| `FlowBranches.MergeAgrees` | crates/flow/src/triggers.rs:305-325 | what a merge writes at a common key does not depend on the rest of the object merged into |
| `FlowBranches.StoredKeepsUnique` | crates/flow/src/flow.rs:508-540 | storing a payload that keeps its own branch keeps the branches of a facet unique |
| `FlowBranches.OwnBranchIff` | crates/flow/src/triggers.rs:305-325 | merging an object into itself keeps its branch key iff no deciding forced copy of a branch key has another value |
| `FlowBranches.StoreKeepsUniqueIff` | crates/flow/src/flow.rs:508-540 | a payload keeps every unique set of branches unique iff no deciding forced copy of a branch key has another value than the key |
| `FlowBranches.ForcedIdMovesIff` | crates/flow/src/triggers.rs:305-325 | an object with an id and a forced copy of a different id moves to another branch iff the copy decides |
| `FlowBranches.ForcedIdExamples` | crates/flow/src/triggers.rs:305-325 | the two keys alone move it; with a later forced key added it stays |
| `FlowBranches.CleanKeepsOwnBranch` | crates/flow/src/flow.rs:508-540 | where no key forces a branch key, every payload keeps its own branch |
| `FlowBranches.StoreKeepsEntryUnique` | crates/flow/src/flow.rs:502-541 | a store keeps JSON branches unique and plain facets at one instance at most |
| `FlowBranches.SelectedUnique` | crates/flow/src/flow.rs:580-586 | the part of an entry a removal keeps has unique branches |
| `FlowBranches.RemovalDeactivates` | crates/flow/src/flow.rs:886-918 | after a removal by payload's filter the active test is false for that payload, for instances of its kind or a payload without a filter |
| `FlowCascade.Set` | crates/flow/src/flow.rs:448-566 | terminates on cyclic graphs; guard and events only grow, nothing outside the reach changes, branches stay unique, names and payload types stay matched |
| `FlowCascade.Remove` | crates/flow/src/flow.rs:568-645 | the same for a removal |
| `FlowCascade.Revertal` | crates/flow/src/flow.rs:588-637 | the same for one dropped branch, whose stop-on errors are ignored |
| `FlowCascade.Transcend` | crates/flow/src/flow.rs:731-802 | the same for the `after` reconciler |
| `FlowCascade.Inverse` | crates/flow/src/flow.rs:826-923 | the same for the stop-on reconciler |
| `FlowCascade.Reconsider` | crates/flow/src/flow.rs:852-919 | the same for all candidate payloads of one stop-on target |
| `FlowCascade.Settle` | crates/flow/src/flow.rs:859-918 | the same for one candidate; what is decided for it is `FlowDecide.SettleIs` |
| `FlowCascade.EnterKeeps` | crates/flow/src/flow.rs:502-541 | the store step keeps what every cascade keeps |
| `FlowCascade.PutBackKeeps` | crates/flow/src/flow.rs:579-642 | so does taking an entry out and putting the kept part back |
| `FlowCascade.CandidatesTyped` | crates/flow/src/flow.rs:842-860 | on a typed graph every payload a stop-on target is reconsidered for has its payload type |
| `FlowCascade.TypedRemovalDeactivates` | crates/flow/src/flow.rs:886-918 | on a typed graph a removal for a typed payload leaves nothing the active test counts |
| `FlowDecide.ConditionIff` | crates/flow/src/triggers.rs:29-60 | a condition holds iff it speaks of the source, by name and kind, and every filter it has matches |
| `FlowDecide.HandoverIs` | crates/flow/src/flow.rs:746-779 | which payload a reacting `after` target is handed, by its type, branch and auto-payloads, and when none |
| `FlowDecide.SegmentsOfJoined` | crates/flow/src/flow.rs:813-816 | the segments of a path are the nonempty parts between its slashes |
| `FlowDecide.NavigateIs` | crates/flow/src/flow.rs:811-816 | a branch path walks down by its segments |
| `FlowDecide.KeyMatchIff` | crates/flow/src/flow.rs:817-823 | the branch filter matches a stored object iff that holds the value under the branch's key |
| `FlowDecide.WantedIff` | crates/flow/src/flow.rs:859-884 | a candidate is wanted iff its facet has auto-payloads and no dependency holds it down: one with a stored instance that is not the source being reverted, or with a branch one that stores the candidate's value along it |
| `FlowDecide.SettleIs` | crates/flow/src/flow.rs:859-918 | held down or without auto-payloads a candidate that is up is removed; one that is neither held down nor up is set; nothing happens otherwise |
| `FlowDecide.ReconsiderSettles` | crates/flow/src/flow.rs:852-919 | every candidate is settled so from the state its turn finds |
| `FlowDecide.InverseSettles` | crates/flow/src/flow.rs:826-923 | reconciling the stop-on side settles every target that has one |
| `FlowDecide.SetSettles` | crates/flow/src/flow.rs:448-566 | a set that ends well has settled every stop-on target of its facet, after its own event |
| `FlowDecide.RevertalSettles` | crates/flow/src/flow.rs:588-637 | so has the revert of a dropped branch, if nothing on that side fails |
| `FlowDecide.RevertalFailsIff` | crates/flow/src/flow.rs:588-637 | it fails iff its `after` side does |
| `FlowDecide.SetErrors` | crates/flow/src/flow.rs:460-521 | what each error of a set leaves of graph, guard and events |
| `FlowDecide.UnderWay` | crates/flow/src/flow.rs:460-465 | a set or revert under way is not begun again |
| `FlowDecide.RemoveError` | crates/flow/src/flow.rs:579-642 | when the cascade of a removal fails, what was to be kept is not put back |
| `FlowTrace.SetTrace` | crates/flow/src/flow.rs:448-566 | the events of a set start with its own, and each later one is caused by an earlier one over an edge |
| `FlowTrace.RemoveTrace` | crates/flow/src/flow.rs:568-645 | every event of a removal reverts a dropped branch or is caused by an earlier one |
| `FlowTrace.RevertalTrace` | crates/flow/src/flow.rs:588-637 | the events of one dropped branch start with its revert |
| `FlowTrace.TranscendTrace` | crates/flow/src/flow.rs:731-802 | everything the `after` reconciler emits follows from its source |
| `FlowTrace.InverseTrace` | crates/flow/src/flow.rs:826-923 | everything the stop-on reconciler emits follows from its source |
| `FlowTrace.SettleTrace` | crates/flow/src/flow.rs:859-918 | so does what one candidate emits |
| `FlowTrace.SetApplies` | crates/flow/src/flow.rs:448-566 | a set that ends well has emitted its application or finds it under way; what the graph then holds is `FlowReach.SetLeavesStored` |
| `FlowTrace.TranscendComplete` | crates/flow/src/flow.rs:746-799 | reconciling an applied source emits, or finds under way, the application of every target that reacts to it |
| `FlowTrace.TranscendRevertComplete` | crates/flow/src/flow.rs:746-799 | reconciling a reverted source reverts, at each reacting target's turn, every instance of it that its payload drops |
| `FlowTrace.SetComplete` | crates/flow/src/flow.rs:448-566 | a set not under way emits, or finds under way, the application of every `after` target that reacts to it |
| `FlowTrace.RemoveComplete` | crates/flow/src/flow.rs:568-645 | a removal that ends well has reverted every instance it drops, or finds its revert under way |
| `FlowReach.Reactivated` | crates/flow/src/flow.rs:568-645 | the least set that holds the automatic stop-on targets of a facet and its downstream, and what follows them over `after` |
| `FlowReach.NothingReactivated` | crates/flow/src/flow.rs:852-919 | it is empty where no such target has auto-payloads, whatever loops there are |
| `FlowReach.NothingLost` | crates/flow/src/flow.rs:579-642 | a removal loses no instance its cascade stored when nothing is kept or the facet is not one its removal may apply again |
| `FlowReach.RemoveLeavesKept` | crates/flow/src/flow.rs:568-645 | a facet its removal cannot apply again is left empty by the cascade and ends with exactly what the filter keeps |
| `FlowReach.SetLeavesStored` | crates/flow/src/flow.rs:448-566 | a facet not downstream of itself ends a set with exactly what the store loop made of its entry |
| `FlowReach.Downstream` | crates/flow/src/flow.rs:956-1001 | the facets reached from a facet's targets are closed under both indexes |
| `FlowLoss.RemovalRuns` | crates/flow/src/flow.rs:568-645 | for any two facets, one stopping on the other which follows an instance of it, and any three ids: the whole run of a removal, event by event |
| `FlowLoss.RemovalLoses` | crates/flow/src/flow.rs:579-642 | it loses the instance that its cascade applied |
| `FlowLoss.LoopReactivates` | crates/flow/src/flow.rs:579-642 | the facet it happens to is one that its removal may apply again |
| `FlowLoss.SettingExists` | crates/flow/src/flow.rs:448-645 | such a setting exists for all names and ids |
| `FlowEngine.FlowRuntime.SetFacet` | crates/flow/src/flow.rs:448-566 | the method, updating graph, guard and events in place, computes the cascade and its error |
| `FlowEngine.FlowRuntime.RemoveFacet` | crates/flow/src/flow.rs:568-645 | likewise |
| `FlowEngine.FlowRuntime.ReconcileTranscendence` | crates/flow/src/flow.rs:731-802 | likewise |
| `FlowEngine.FlowRuntime.ReconcileInverse` | crates/flow/src/flow.rs:826-923 | likewise |
| `FlowEngine.FlowRuntime.ReconsiderTarget` | crates/flow/src/flow.rs:842-919 | likewise; the candidates are the auto-payloads or the stored payloads, and each is settled as `FlowDecide.SettleIs` says from the state its turn finds |
| `FlowEngine.FlowRuntime.SetFacetAction` | crates/flow/src/flow.rs:1018-1048 | computes the cascade of a set; from any graph: terminates, changes only reachable facets, keeps branches unique and typed, emits its event and only what that causes; a facet not downstream of itself ends as the store left it |
| `FlowEngine.FlowRuntime.RemoveFacetAction` | crates/flow/src/flow.rs:1051-1111 | computes the cascade of a removal; the same invariants; when it ends well everything dropped was reverted; the facet ends with the kept part if there is one, and with nothing else when its removal cannot apply it again |
| `FlowEngine.FlowRuntime.ReconcileStored` | crates/flow/src/flow.rs:1150-1178 | reconciling stored instances keeps what a cascade keeps, emits only what their applications cause, and when it ends well has applied every target that reacts to one |
| `FlowEngine.FlowRuntime.ReconcileStopOn` | crates/flow/src/flow.rs:925-954 | reconciling the stop-on sources likewise; when it ends well every target of each was settled |
| `FlowEngine.FlowRuntime.Bootstrap` | crates/flow/src/flow.rs:1150-1190 | terminates; branches stay unique, names and types matched, facets outside rules and graph unchanged; every event is caused by a stored instance, a stop-on source or an earlier event; when it ends well no reacting target is left out and no stop-on target unsettled |
| `FacetPersistence.EntriesRoundTripIff` | crates/flow/src/flow.rs:89-112 | instances come back from their entries iff all have names |
| `FacetPersistence.FacetGraph.SaveAllScopes` | crates/flow/src/flow.rs:309-329 | the files of all scopes of saved facets, and the static one, hold exactly their facets; other files stay |
| `FacetPersistence.FacetGraph.LoadScope` | crates/flow/src/flow.rs:277-290 | the facets of one file replace those of the same names |
| `FacetPersistence.FacetGraph.LoadFromPersistence` | crates/flow/src/flow.rs:213-248 | the facets are those of the static file and all scope directories, in whatever order they are listed |
| `FacetPersistence.FacetGraph.DropScope` | crates/flow/src/flow.rs:292-307 | the facets with the scope's suffix go, with the scope's file, or every scope's for the empty scope; static names without '@' stay |
| `FacetPersistence.DropsExactlyIff` | crates/flow/src/flow.rs:250-259 | drop_scope drops exactly the names of its scope, for all names, iff the scope is not static and holds no '@' |
| `FacetPersistence.DroppedStaysAway` | crates/flow/src/flow.rs:213-307 | after dropping a scope the next load brings back none of its facets and all others as before |
| `FacetPersistence.ImpermanentIff` | crates/flow/src/flow.rs:309-317 | not saved are exactly the names with a '!' at the end or right before an '@' |
| `FacetPersistence.SaveLoadIff` | crates/flow/src/flow.rs:213-329 | save then load restores exactly the facets that are not impermanent iff they are named, readable and no leftover file holds any |
| `RingMath.VirtualPosition` | crates/ipc/src/shm.rs:100-104 | on a regular size, positions modulo the buffer size behave as unwrapped ones shifted by at most one per wrap |
| `RingMath.SlotsApart` | crates/ipc/src/shm.rs:100-158 | bytes within fewer than a buffer of one another lie at different positions |
| `ShmRing.PutHits` | crates/ipc/src/shm.rs:100-128 | a copy puts byte k at the k-th position on, modulo the size |
| `ShmRing.PutMisses` | crates/ipc/src/shm.rs:100-128 | and touches no other position |
| `ShmRing.PutStraight` | crates/ipc/src/shm.rs:105-112 | a copy that fits before the end is one contiguous copy |
| `ShmRing.RefusesExact` | crates/ipc/src/shm.rs:51-66 | write's 32-bit test is used + len + 4 >= size when that sum does not overflow |
| `ShmRing.OverflowAccepted` | crates/ipc/src/shm.rs:51-66 | a length that overflows it is let through |
| `ShmRing.SendableRefuses` | crates/ipc/src/shm.rs:51-66 | of a sendable length it is the intended test, however much is in use |
| `ShmRing.CastWrite` | crates/ipc/src/shm.rs:51-72 | a payload is treated like the part of it that its length, cast to 32 bits, covers |
| `ShmRing.UsedIs` | crates/ipc/src/shm.rs:58-62 | used is the number of unread bytes, and the counters are equal iff there are none |
| `ShmRing.InFlightKept` | crates/ipc/src/shm.rs:100-128 | a frame that fits disturbs no unread message |
| `ShmRing.WriteHolds` | crates/ipc/src/shm.rs:46-74 | a sendable length is refused exactly when the unread bytes and the frame reach the size, otherwise the message is queued |
| `ShmRing.ReadHolds` | crates/ipc/src/shm.rs:76-98 | read returns the oldest message whole and frees it, or None when there is none |
| `ShmRing.ShmRingBuffer.constructor` | crates/flow/src/shm_tp.rs:143-153 | a ring with zeroed counters is empty |
| `ShmRing.ShmRingBuffer.CopyAt` | crates/ipc/src/shm.rs:100-128 | the split copy equals the byte-by-byte copy modulo the size |
| `ShmRing.ShmRingBuffer.ReadAt` | crates/ipc/src/shm.rs:130-158 | the split read equals the byte-by-byte read modulo the size |
| `ShmRing.ShmRingBuffer.CopyFrame` | crates/ipc/src/shm.rs:69-71 | length and data, both split, lie where WriteTo puts them |
| `ShmRing.ShmRingBuffer.Write` | crates/ipc/src/shm.rs:46-74 | refuses, queues in place, or has a copy that leaves the buffer, as WriteTo says, for payloads of any length |
| `ShmRing.ShmRingBuffer.Read` | crates/ipc/src/shm.rs:76-98 | takes a message, finds none, or has a read that leaves the buffer, as ReadFrom says, whatever the stored length |
| `ShmFifo.RunInOrder` | crates/ipc/src/shm.rs:46-98 | every run of receives and sends of sendable lengths stays in the buffer, delivers a prefix of the accepted messages, and all of them once the ring reads as empty, on a regular size or below 2^32 bytes |
| `ShmFifo.TornRun` | crates/ipc/src/shm.rs:46-98 | on any other size of at least 6 there is a run of lengths that fit which does not |
| `ShmFifo.PayloadFails` | crates/ipc/src/shm.rs:46-98 | on a size of up to 2 GiB every length that is not sendable has such a run |
| `ShmFifo.WrapFails` | crates/ipc/src/shm.rs:51-72 | one that wraps the sum is accepted into a full ring and overruns it or overwrites the length of the message there |
| `ShmFifo.CastTorn` | crates/ipc/src/shm.rs:51-72 | one of 4 GiB or more that is cast to a length that fits is received cut down to that |
| `ShmFifo.TinyRun` | crates/ipc/src/shm.rs:46-98 | on a size of at most 5 at most one empty message is in flight, and every run of sendable lengths delivers in order |
| `ShmFifo.DeliversIff` | crates/ipc/src/shm.rs:46-98 | for any allowed lengths that include those that fit: all runs deliver iff the size is regular or at most 5 and every allowed length is sendable |
| `ShmFifo.ShippedSizeTears` | crates/ipc/src/shm.rs:54-56 | on the size in use not all do, even with lengths that fit |
| `ShmFifo.CastLengthTears` | crates/ipc/src/shm.rs:51-56 | nor on 64 KiB once a payload of 4 GiB may be sent |
| `ShmInterleaving.NextKeeps` | crates/ipc/src/shm.rs:46-158 | every single load, byte copy or store of writer or reader keeps the protocol invariant, sendable lengths provided |
| `ShmInterleaving.DeliveredInOrder` | crates/ipc/src/shm.rs:46-98 | in every interleaving that writes sendable lengths the messages read are a prefix of those written, whole |
| `ShmInterleaving.WriterAndReaderDisjoint` | crates/ipc/src/shm.rs:68-94 | a copy in progress shares no byte with an unread message |
| `Graphs.SuccessorsCycle` | crates/core/src/orchestrator.rs:160-166 | nodes that all have successors among themselves hold a cycle, and each leads to one |
| `Graphs.AcyclicRanks` | crates/core/src/orchestrator.rs:119-158 | a graph without cycles has a rank that falls along every edge |
| `Orchestrator.Select` | crates/core/src/orchestrator.rs:105-117 | the selected indexes in order, or the first conflicting item |
| `Orchestrator.ResolvesUnique` | crates/core/src/orchestrator.rs:121-127 | what an id resolves to, and so the graph, is determined by the list and the selection |
| `Orchestrator.CountEdges` | crates/core/src/orchestrator.rs:119-136 | the tables hold the dependents and the number of resolved entries, with multiplicity |
| `Orchestrator.Release` | crates/core/src/orchestrator.rs:148-156 | the decrements never underflow and queue exactly what reaches zero |
| `Orchestrator.Kahn` | crates/core/src/orchestrator.rs:138-158 | the order is free of repetition and topological; what is left out still needs something left out |
| `Orchestrator.OrderAcyclic` | crates/core/src/orchestrator.rs:145-158 | an order of all nodes shows there is no cycle |
| `Orchestrator.LeftoverCyclic` | crates/core/src/orchestrator.rs:160-166 | a node left over shows there is one |
| `Orchestrator.Sort` | crates/core/src/orchestrator.rs:119-166 | the order is complete iff the dependencies have no cycle |
| `Orchestrator.PlannedIndexes` | crates/core/src/orchestrator.rs:100-173 | Ok exactly when nothing conflicts and no cycle exists, with a permutation of the selection in dependency order (reversed for End); the errors exactly otherwise |
| `Orchestrator.RunCyclePhase` | crates/core/src/orchestrator.rs:175-194 | in both phases orchestrators start in a prefix of a valid plan order, each only after all it waits for succeeded, until the first failure |
| `Settling.Settle` | crates/primitives/src/mounts.rs:195-214 | the loop runs exactly the pending entries that the least fixpoint enables, each after its needs, and leaves the blocked ones |
| `Settling.FixpointUnique` | crates/services/src/services.rs:3233-3261 | the fixpoint does not depend on the order of the pending entries |
| `Settling.PartedOnce` | crates/primitives/src/mounts.rs:198-209 | distinct entries are run at most once and either run or left |
| `Mounts.CollectDependents` | crates/primitives/src/mounts.rs:169-182 | the table lists exactly the targets that name a target in `after` |
| `Mounts.UnmountUnits` | crates/primitives/src/mounts.rs:161-229 | each mount is unmounted at most once and after its dependents; those left are exactly those that lead to a cycle of dependents |
| `Mounts.DoneIffNoCycle` | crates/primitives/src/mounts.rs:195-226 | a target stays mounted iff a cycle of dependents is reachable from it |
| `Mounts.MountUnits` | crates/primitives/src/mounts.rs:105-159 | mounts are attempted after what they list has been entered; a failure ends the call only for a mount without `after` |
| `Mounts.BareNamesReachOneLevel` | crates/primitives/src/mounts.rs:117-139 | with plain targets in `after`, a mount is attempted iff all it lists are mounts without `after` |
| `Services.StartAll` | crates/services/src/services.rs:3233-3273 | the services handled are those of the least fixpoint, each after its afters, and the unresolved ones are the rest; those handled that do not run are each asked to start once, after a provider of every after that had to be asked |
| `Services.CallsAre` | crates/services/src/services.rs:3214-3256 | asked are exactly those of the trace that do not run, once, in its order |
| `Services.Gather` | crates/services/src/services.rs:3205-3231 | what has no dependencies starts at once, a failure there ends the call, the rest is pending |
| `LogCodec.EncodeRecord` | crates/core/src/logging.rs:212-226 | the record is magic, lengths, payload and checksum, with both lengths truncated to 32 bits |
| `LogCodec.DecodeRecords` | crates/cli/src/applets/syslogs.rs:442-483 | on any bytes the entries returned are those of intact frames, in order and apart, and every other intact frame consumed starts inside one of them |
| `LogCodec.TakesIff` | crates/cli/src/applets/syslogs.rs:446-482 | a frame is taken iff magic, both lengths, a payload and its checksum lie there, with what the payload decodes to |
| `LogCodec.DecodedFrames` | crates/cli/src/applets/syslogs.rs:442-483 | the frames behind the entries decoded, for all bytes |
| `LogCodec.DecodeStops` | crates/cli/src/applets/syslogs.rs:453-460 | decoding stops where fewer than 8 bytes are left or a magic states a length beyond the end |
| `LogCodec.FrameIsIntact` | crates/core/src/logging.rs:212-226 | the writer's frame is intact |
| `LogCodec.DecodeAppend` | crates/cli/src/applets/syslogs.rs:442-483 | decoding more data goes on where decoding its prefix stopped |
| `LogCodec.StreamRoundTrip` | crates/cli/src/applets/syslogs.rs:442-483 | frames behind magic-free noise all come out, in order, and everything is consumed |
| `LogCodec.SkipNoise` | crates/cli/src/applets/syslogs.rs:446-452 | noise before a frame is skipped byte by byte |
| `LogCodec.DecodeFrame` | crates/cli/src/applets/syslogs.rs:446-482 | a written frame is read back as its entry |
| `LogCodec.TailCursor.ReadIncremental` | crates/cli/src/applets/syslogs.rs:391-418 | a cursor that has caught up with a file catches up with its growth, and returns exactly the entries the growth adds |
| `LogCodec.StepCatchesUp` | crates/cli/src/applets/syslogs.rs:391-418 | a read returns the entries added since, from wherever the cursor began, and the carry is the undecoded suffix |
| `LogCodec.ShorterReadAnew` | crates/cli/src/applets/syslogs.rs:398-401 | a file that has become shorter is read anew from its start |
| `LogCodec.FollowCatchesUp` | crates/cli/src/applets/syslogs.rs:379-389 | so do any number of reads of a growing file |
| `LogCodec.FollowIsDecode` | crates/cli/src/applets/syslogs.rs:391-418 | however a growing file is cut into reads, the reads together return what decoding it at once returns |
| `LogCodec.SeededFollows` | crates/cli/src/applets/syslogs.rs:363-389 | started behind what was seen, following returns exactly what the bytes added since decode to |
| `LogCodec.SkipsLeft` | crates/cli/src/applets/syslogs.rs:442-452 | bytes in which no frame begins change nothing of what comes after them |
| `LogCodec.SeededMissesNothing` | crates/cli/src/applets/syslogs.rs:363-389 | so nothing is missed when no frame begins in what was seen but not consumed |
| `LogCodec.HalfFrameLost` | crates/cli/src/applets/syslogs.rs:363-378 | started within a frame, it returns what the rest of the frame alone decodes to, not the entry; nothing, without a magic there |
| `LogCodec.HalfFrameWaits` | crates/cli/src/applets/syslogs.rs:442-483 | no proper prefix of a frame is decoded or consumed |
| `LogCodec.LoggerLoop` | crates/core/src/logging.rs:122-176 | the segments hold the frames of the entries in order, closed as soon as they reach the limit |
| `LogCodec.RotatedKeepsAll` | crates/core/src/logging.rs:122-176 | rotation loses and moves no entry |
| `LogCodec.RotatedIsFull` | crates/core/src/logging.rs:122-176 | every closed segment has reached the limit, not before its last entry, and the open one has not |
| `LogCodec.LoggedIsRead` | crates/core/src/logging.rs:122-176 | reading the written segments returns every encodable entry in order, whatever the segment size |
| `Users.LookupByUid` | crates/core/src/user.rs:265-267 | the last user with the uid, or None iff there is none |
| `Users.GroupById` | crates/core/src/user.rs:273-275 | the first group with the gid, or None iff there is none |
| `Users.GroupByName` | crates/core/src/user.rs:277-279 | the first group with the name, or None iff there is none |
| `Users.GroupsOfAre` | crates/core/src/user.rs:288-299 | a user's groups are its primary one and those that list it, each once |
| `Users.GroupsFor` | crates/core/src/user.rs:288-299 | the loop computes them, the primary one first |
| `Permissions.EndlessIff` | crates/core/src/permissions.rs:224-227 | the link sets can be ordered so that following their first links from a permission never ends iff a cycle of undecided permissions is reached from it through such permissions |
| `Permissions.GroupHasIff` | crates/core/src/permissions.rs:202-228 | where no such cycle is reached group_has ends, and is true iff a link path leads to a permission the group holds unrevoked, past none revoked |
| `Permissions.UserHasIff` | crates/core/src/permissions.rs:115-161 | the same for user_has, with permission 0, group ties and group membership, as long as the groups asked on the way end |
| `Permissions.MayNotEndIff` | crates/core/src/permissions.rs:115-161 | the link sets can be ordered so that user_has calls itself and group_has ever deeper iff such a cycle is reached for the user or for a group asked on the way |
| `Permissions.AnyGroupHasIff` | crates/core/src/permissions.rs:150-156 | the loop over the groups in order, up to the first that has the permission, finds one iff some group is entitled |
| `Permissions.AcyclicUserEnds` | crates/core/src/permissions.rs:115-161 | without link cycles every evaluation ends |
| `Permissions.ThroughGroupIff` | crates/core/src/permissions.rs:150-156 | the group clause of user_has means entitlement of a group taken by its name, as long as the groups asked in order end |
| `Permissions.EvalExpr` | crates/core/src/permissions.rs:178-192 | an expression is evaluated in order, up to the first part that settles it, to what it says by entitlement |
| `Permissions.EntitledWidens` | crates/core/src/permissions.rs:115-161 | granting more or revoking less takes no permission away |
| `Permissions.ExprWidens` | crates/core/src/permissions.rs:178-192 | nor does it make an expression false that held |
| `Permissions.CheckWidens` | crates/core/src/permissions.rs:163-176 | a check a user passes still passes after more is granted or less revoked |
| `Permissions.LinkKeepsAcyclicIff` | crates/core/src/permissions.rs:230-240 | a link keeps the links acyclic iff it is refused or the parent does not lead to the permission |
| `Permissions.LinkCycles` | crates/core/src/permissions.rs:230-240 | self links and cycles of three are accepted |
| `Permissions.PermissionStore.constructor` | crates/core/src/permissions.rs:104-109 | the overlay starts empty and consistent |
| `Permissions.PermissionStore.GrantUser` | crates/core/src/permissions.rs:248-260 | one permission of one user moves to the grants; grants and revocations stay disjoint; everything only widens |
| `Permissions.PermissionStore.GrantGroup` | crates/core/src/permissions.rs:262-274 | the same for a group |
| `Permissions.PermissionStore.UngrantUser` | crates/core/src/permissions.rs:276-288 | one permission of one user moves to the revocations; everything only narrows |
| `Permissions.PermissionStore.UngrantGroup` | crates/core/src/permissions.rs:290-302 | the same for a group |
| `Permissions.PermissionStore.Link` | crates/core/src/permissions.rs:230-240 | adds the link unless the parent links back; no two permissions ever link to each other |
| `Permissions.TieEntitlesIff` | crates/core/src/permissions.rs:242-246 | a tie replaces the permission's former one and adds exactly what its group's members reach through unrevoked links |
| `Permissions.PermissionStore.OrGroup` | crates/core/src/permissions.rs:242-246 | after it every member of the group is entitled to the permission even where it is revoked, and nobody else's entitlements change beyond the former tie |
| `Permissions.PermissionStore.Has` | crates/core/src/permissions.rs:115-161 | the answer is entitlement by link paths, wherever every order of the link sets gives one |
| `Permissions.PermissionStore.All` | crates/core/src/permissions.rs:355-410 | a subject's ids are the stored or granted ones less the revoked; None iff the subject is unknown |
| `Permissions.Named` | crates/core/src/permissions.rs:376-385 | an id is listed under its registered name iff it comes up once, else as "unknown" |
| `Rperms.RecordsRoundTrip` | crates/core/src/user.rs:130-157 | reading written records gives the same records in order |
| `Rperms.EffectiveIsListedIff` | crates/core/src/user.rs:322-332 | the written set is the set `all` lists iff nothing is both granted and revoked |
| `Rperms.AscendingIs` | crates/core/src/user.rs:347-349 | the permissions are written in strictly ascending order, each once |
| `Rperms.AppendRecord` | crates/core/src/user.rs:334-349 | an empty set writes nothing, a set of 65536 is an error, any other one record |
| `Rperms.WritePerms` | crates/core/src/user.rs:312-384 | the file is the users' records then the groups'; an error iff some subject has all 65536 permissions |
| `Rperms.ParsePerms` | crates/core/src/user.rs:125-158 | the tables hold the last record of every id; an error iff the file ends inside a record |
| `Rperms.ReadPerms` | crates/core/src/user.rs:145-150 | the permissions of one record, or an error iff they are cut short |
| `Rperms.Load` | crates/core/src/user.rs:114-259 | each record goes to the first line with its id |
| `Rperms.TableRoundTripIff` | crates/core/src/user.rs:220-256 | every line reads back its own permissions iff none follows another with its id and has any |
| `Rperms.RoundTripIff` | crates/core/src/user.rs:312-384 | write then load gives every subject its effective set iff ids with permissions are not repeated |
| `Rperms.ReloadedDirect` | crates/core/src/permissions.rs:135-149 | with a consistent overlay a reloaded subject holds exactly what it held directly before |
| `Lockout.PamHandle.CheckLockout` | crates/core/src/user.rs:622-636 | refuses iff the failures since the last success in the run of all attempts reach the retries and the last is less than the duration ago |
| `Lockout.PamHandle.RecordFailure` | crates/core/src/user.rs:638-650 | the table then agrees, for every user, with the run extended by the failed attempt |
| `Lockout.PamHandle.ClearLockout` | crates/core/src/user.rs:652-657 | the table then agrees, for every user, with the run extended by the successful attempt |
| `Lockout.PamHandle.Authenticate` | crates/core/src/user.rs:511-536 | the run grows by the attempt and the table keeps agreeing with it; each answer is given exactly when the run calls for it |
| `Lockout.LockedOutIff` | crates/core/src/user.rs:622-636 | locked out means at least one failure and at least max_retries since the last success, and less than the duration since the last: with fewer or later an attempt is admitted |
| `Lockout.FailureAt` | crates/core/src/user.rs:528-531 | the failures of a user since its last success, in order of time |
| `Lockout.FailureListedIff` | crates/core/src/user.rs:528-533 | an attempt is listed iff it failed and no success came after it |
| `Lockout.FailuresAreSpaced` | crates/core/src/user.rs:622-650 | after max(1, max_retries) failures since the last success each further one comes at least a lockout after the one before |
| `Lockout.FailuresSpan` | crates/core/src/user.rs:511-536 | n failures without a success between them span at least n - max(1, max_retries) lockouts |
| `RuntimeQueue.RuntimeHandle.Send` | crates/core/src/runtime.rs:178-208 | a dispatch goes to the end of its context's line and no other's, a registration adds its context and nothing else, a stop empties all lines; an error iff stopped, changing nothing; the accepted commands say what is registered and stopped |
| `RuntimeQueue.RuntimeHandle.FlushContext` | crates/core/src/runtime.rs:298-415 | computes Flush; order is kept in every line, its own is empty after Ok, the others only grow, runtimes are kept unless its context is unknown, and for a known one it returns Ok |
| `RuntimeQueue.RuntimeHandle.FlushLoop` | crates/core/src/runtime.rs:298-415 | the loop: first dispatch of the context, unknown runtimes skipped, runtime and context taken and put back |
| `RuntimeQueue.FlushMeant` | crates/core/src/runtime.rs:298-415 | these properties hold of Flush for all engines and handlers |
| `RuntimeQueue.FlushAccepts` | crates/core/src/runtime.rs:298-415 | a flush accepts what the handlers it calls send, in turn, up to the first stop |
| `RuntimeQueue.RunAccepts` | crates/core/src/runtime.rs:178-208 | in every run exactly the commands issued up to the first stop are accepted; a context is registered iff its registration was among them |
| `RuntimeQueue.RegisteredFlush` | crates/core/src/runtime.rs:298-415 | before a stop, once a registration was issued, every flush of that context returns Ok and keeps all runtimes, and handles exactly the dispatches to known ones unless a handler stops the engine |
| `RuntimeQueue.RunInOrder` | crates/core/src/runtime.rs:178-208 | in every run before a stop, what a context was sent is what was taken for it in order, then what is queued |
| `RuntimeQueue.FlushKeepsOthers` | crates/core/src/runtime.rs:304-316 | flushing one context takes nothing of another's queue and only appends to it |
| `RuntimeQueue.FlushEmpties` | crates/core/src/runtime.rs:304-328 | an Ok flush leaves none of its context queued |
| `RuntimeQueue.FlushFates` | crates/core/src/runtime.rs:336-349 | flushing a registered context handles exactly the dispatches to known runtimes |
| `RuntimeQueue.RuntimesConservedIff` | crates/core/src/runtime.rs:336-353 | runtimes are conserved iff the context is registered or nothing queued for it names a known one |
| `RuntimeQueue.UnregisteredLosesIff` | crates/core/src/runtime.rs:351-353 | for an unregistered context the flush fails, and loses a runtime, iff one is addressed |
| `RuntimeQueue.StoppedIsEmpty` | crates/core/src/runtime.rs:200-203 | once stopped nothing is queued, in every run, and every flush returns Ok and changes nothing |
| `Dhcp.ItemsRoundTrip` | crates/networking/src/networking.rs:1381-1428 | a written option list, pads included, is read back, whatever follows its end |
| `Dhcp.NextItemIs` | crates/networking/src/networking.rs:1381-1403 | reading ends at the end of the bytes, at 255, or at an option cut short; 0 is skipped |
| `Dhcp.CutListStops` | crates/networking/src/networking.rs:1392-1403 | a list whose last option is cut short is read up to that option |
| `Dhcp.AddressesAre` | crates/networking/src/networking.rs:1412-1418 | the complete groups of four bytes, in order |
| `Dhcp.LastValueIs` | crates/networking/src/networking.rs:1403-1425 | a single option's value is that of the last long enough occurrence |
| `Dhcp.AddressFieldsAre` | crates/networking/src/networking.rs:1405-1423 | mask, router and server are their last values |
| `Dhcp.OtherFieldsAre` | crates/networking/src/networking.rs:1404-1420 | message type and lease are their last values; name servers are those of all options in order |
| `Dhcp.ParseOptions` | crates/networking/src/networking.rs:1381-1428 | the loop stays in bounds and ends on any bytes, and applies the options up to the end or the first cut short |
| `Dhcp.ParseDhcpResponse` | crates/networking/src/networking.rs:1354-1439 | each error exactly for the first check that fails: 240 bytes, reply, transaction id, cookie; else the address and the options |
| `Dhcp.HeaderErrorIs` | crates/networking/src/networking.rs:1355-1374 | which check gives which error, and that passing all gives none |
| `Dhcp.ParsesList` | crates/networking/src/networking.rs:1354-1439 | behind a good header any well-formed list is parsed to what its items say |
| `Dhcp.BuildDhcpPacket` | crates/networking/src/networking.rs:1296-1342 | the packet is header, requested options, end |
| `Dhcp.PacketFields` | crates/networking/src/networking.rs:1303-1318 | every byte of the header: kind, transaction id, broadcast flag, hardware address, cookie, zero elsewhere |
| `Dhcp.PacketOptions` | crates/networking/src/networking.rs:1320-1342 | read as an option list the packet holds its type, the address asked for, the server and the parameters wanted |
| `Dhcp.RequestRoundTrip` | crates/networking/src/networking.rs:1296-1342 | a built packet with byte 0 set to 2 is parsed to its message type and server under its transaction id, refused under every other, and as built is no reply |

## Left out

- Sockets, event loops, memory mapping, mount calls, files and processes: only their effect or answer appears, as a trace, a map or a parameter.
- Serde, bincode, toml, crc32, password hashing and JSON rendering: parameters, with decode after encode assumed to be the identity where a round trip needs it.
- Guard keys and branch keys are compared as values, not as the strings the code concatenates; two different keys with one rendering are not modelled.
- The stored JSON text is identified with its parsed value; equal values with different text are not told apart, and a text that does not parse reads as null.
- Hash map and hash set iteration: any order, given as a sequence or an arbitrary choice.
- Event publishing to subscribers, impulses and the triggers that events fire: they do not feed back into the facet cascade.
- Evaluating variables for auto-payload: the payloads it yields are part of the rules.
- Reconciling stop-on targets has no completeness result: a later step of the same cascade may undo what an earlier one settled.
- FlowReach.NothingLost: one way only; a facet that its removal may apply again loses something only if conditions and payloads on the way let the cascade through, as in FlowLoss.
- FlowTrace.SetComplete: speaks of emitted events, since on a cyclic graph a later step may remove what was applied; what the graph ends with is stated for facets not downstream of themselves.
- ShmFifo.PayloadFails: 32-bit sums wrap, as in a release build; a debug build stops there. After a copy that leaves the buffer nothing is modelled.
- Weak memory: acquire and release are modelled as the order of interleaved steps.
- Services.StartAll: does not model a service whose running state changes while the loop runs; it is read once per service.
- Failing log writes, and the file names of segments.
- LogCodec.StreamRoundTrip: does not cover payloads of 2^32 - 8 bytes or more, whose length fields truncate.
- Permissions.PermissionStore.Has: does not say what it answers where some order of the link sets keeps the code from returning (`Permissions.MayNotEndIff`) and another does not.
- Registering permission names, parsing of the user, shadow and group files, sessions and account expiry.
- Lockout.PamHandle.RecordFailure: does not model the 32-bit wrap of the failure count.
- Concurrent authentications and poisoned locks: one call at a time.
- RuntimeQueue.RuntimeHandle.FlushContext: does not model replies, scopes, instances or handler results; a handler is the list of commands it sends, and there are finitely many of them.
- Scope names with '/' or dots, for which two scopes may share a directory; write failures part-way through a save; corrupt state files.
- Sending and receiving DHCP packets, and the retry and lease handling around them.
- Service instances beyond the start loop, resource descriptors, namespaces, duration and address parsing: easier, or without an invariant the code keeps.
