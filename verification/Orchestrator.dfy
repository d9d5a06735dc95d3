/**
 Boot planning (crates/core/src/orchestrator.rs): Kahn's algorithm over the
 orchestrators selected for one cycle and phase. `indegree` counts dependency
 entries with multiplicity, exactly as the loop that fills it does.
 */
module Orchestrator {
  import opened Common
  import opened Graphs

  datatype BootCycle = PreBoot | Collect | Runtime | PostRuntime | Pump

  datatype BootPhase = Start | End

  datatype Item = Item(id: string, dependsOn: seq<string>, cycles: seq<BootCycle>, phase: BootPhase)

  datatype Plan = Ok(order: seq<nat>) | ConflictingCycles(id: string) | DependencyCycle(ids: seq<string>)

  predicate Conflicting(cycles: seq<BootCycle>) {
    Runtime in cycles && PostRuntime in cycles
  }

  predicate IsSelected(item: Item, cycle: BootCycle, phase: BootPhase) {
    cycle in item.cycles && item.phase == phase
  }

  predicate InRange(list: seq<Item>, selected: seq<nat>) {
    forall i | 0 <= i < |selected| :: selected[i] < |list|
  }

  ghost predicate Selection(list: seq<Item>, cycle: BootCycle, phase: BootPhase, selected: seq<nat>) {
    && InRange(list, selected)
    && (forall i, j | 0 <= i < j < |selected| :: selected[i] < selected[j])
    && (forall idx | 0 <= idx < |list| :: idx in selected <==> cycle in list[idx].cycles && list[idx].phase == phase)
  }

  /** The index the plan looks an id up as: the last selected item that carries it. */
  ghost predicate Resolves(list: seq<Item>, selected: seq<nat>, idToIdx: map<string, nat>) {
    && (forall id | id in idToIdx :: idToIdx[id] in selected && idToIdx[id] < |list| && list[idToIdx[id]].id == id)
    && (forall s | s in selected && s < |list| :: list[s].id in idToIdx && s <= idToIdx[list[s].id])
  }

  /** u needs v: some dependency of u resolves to v. */
  ghost function Needs(list: seq<Item>, selected: seq<nat>, idToIdx: map<string, nat>): Edges<nat> {
    set u, d | u in selected && u < |list| && d in list[u].dependsOn && d in idToIdx :: (u, idToIdx[d])
  }

  lemma ResolvesUnique(list: seq<Item>, selected: seq<nat>, a: map<string, nat>, b: map<string, nat>)
    requires Resolves(list, selected, a) && Resolves(list, selected, b)
    ensures a == b
  {
    assert a.Keys == b.Keys;
  }

  // ---- the dependency entries as a list of edges (dependent, dependency), in the order they are counted ----

  ghost function ItemEdges(u: nat, dependsOn: seq<string>, idToIdx: map<string, nat>): seq<(nat, nat)> {
    if dependsOn == [] then []
    else
      var d := dependsOn[|dependsOn| - 1];
      ItemEdges(u, dependsOn[..|dependsOn| - 1], idToIdx) + if d in idToIdx then [(u, idToIdx[d])] else []
  }

  ghost function AllEdges(list: seq<Item>, selected: seq<nat>, idToIdx: map<string, nat>): seq<(nat, nat)>
    requires InRange(list, selected)
  {
    if selected == [] then []
    else
      var u := selected[|selected| - 1];
      AllEdges(list, selected[..|selected| - 1], idToIdx) + ItemEdges(u, list[u].dependsOn, idToIdx)
  }

  lemma {:induction false} ItemEdgesAre(u: nat, dependsOn: seq<string>, idToIdx: map<string, nat>)
    ensures forall e :: e in ItemEdges(u, dependsOn, idToIdx) <==> e.0 == u && exists d | d in dependsOn :: d in idToIdx && idToIdx[d] == e.1
  {
    if dependsOn != [] {
      var n := |dependsOn| - 1;
      ItemEdgesAre(u, dependsOn[..n], idToIdx);
      assert dependsOn == dependsOn[..n] + [dependsOn[n]];
    }
  }

  lemma {:induction false} AllEdgesAre(list: seq<Item>, selected: seq<nat>, idToIdx: map<string, nat>)
    requires InRange(list, selected)
    ensures forall e :: e in AllEdges(list, selected, idToIdx) <==> e in Needs(list, selected, idToIdx)
  {
    if selected != [] {
      var n := |selected| - 1;
      AllEdgesAre(list, selected[..n], idToIdx);
      ItemEdgesAre(selected[n], list[selected[n]].dependsOn, idToIdx);
      assert selected == selected[..n] + [selected[n]];
    }
  }

  ghost function EdgeSet(edges: seq<(nat, nat)>): Edges<nat> {
    set e | e in edges
  }

  /** The dependents of v, once per entry. */
  ghost function Dependents(edges: seq<(nat, nat)>, v: nat): seq<nat> {
    if edges == [] then []
    else
      var e := edges[|edges| - 1];
      Dependents(edges[..|edges| - 1], v) + if e.1 == v then [e.0] else []
  }

  /** The entries of u that resolve outside `done`. */
  ghost function Open(edges: seq<(nat, nat)>, u: nat, done: set<nat>): nat {
    if edges == [] then 0
    else
      var e := edges[|edges| - 1];
      Open(edges[..|edges| - 1], u, done) + if e.0 == u && e.1 !in done then 1 else 0
  }

  ghost function Count(s: seq<nat>, v: nat): nat {
    if s == [] then 0 else Count(s[..|s| - 1], v) + if s[|s| - 1] == v then 1 else 0
  }

  lemma {:induction false} CountPrefix(s: seq<nat>, i: nat, v: nat)
    requires i <= |s|
    ensures Count(s[..i], v) <= Count(s, v)
  {
    if i < |s| {
      assert s[..|s| - 1][..i] == s[..i];
      CountPrefix(s[..|s| - 1], i, v);
    } else {
      assert s[..i] == s;
    }
  }

  lemma AppendEdge(edges: seq<(nat, nat)>, e: (nat, nat))
    ensures forall v :: Dependents(edges + [e], v) == Dependents(edges, v) + if e.1 == v then [e.0] else []
    ensures forall u, done :: Open(edges + [e], u, done) == Open(edges, u, done) + if e.0 == u && e.1 !in done then 1 else 0
  {
    assert (edges + [e])[..|edges|] == edges;
  }

  lemma {:induction false} OpenSplit(edges: seq<(nat, nat)>, u: nat, done: set<nat>, v: nat)
    requires v !in done
    ensures Open(edges, u, done) == Open(edges, u, done + {v}) + Count(Dependents(edges, v), u)
  {
    if edges != [] {
      var n := |edges| - 1;
      OpenSplit(edges[..n], u, done, v);
      var init := Dependents(edges[..n], v);
      assert (init + [edges[n].0])[..|init|] == init;
      assert init + [] == init;
    }
  }

  lemma {:induction false} OpenZero(edges: seq<(nat, nat)>, u: nat, done: set<nat>)
    ensures Open(edges, u, done) == 0 <==> forall v | (u, v) in edges :: v in done
  {
    if edges != [] {
      var n := |edges| - 1;
      OpenZero(edges[..n], u, done);
      assert edges == edges[..n] + [edges[n]];
    }
  }

  lemma {:induction false} DependentsAre(edges: seq<(nat, nat)>, v: nat)
    ensures forall u :: u in Dependents(edges, v) <==> (u, v) in edges
  {
    if edges != [] {
      var n := |edges| - 1;
      DependentsAre(edges[..n], v);
      assert edges == edges[..n] + [edges[n]];
    }
  }

  // ---- the loops that prepare the sort ----

  method Select(list: seq<Item>, cycle: BootCycle, phase: BootPhase) returns (selected: seq<nat>, conflict: Option<string>)
    ensures conflict.None? ==> Selection(list, cycle, phase, selected) && forall i | 0 <= i < |list| :: !(Runtime in list[i].cycles && PostRuntime in list[i].cycles)
    ensures conflict.Some? ==> exists i | 0 <= i < |list| :: IsFirstConflict(list, i) && conflict.value == list[i].id
  {
    selected := [];
    for idx := 0 to |list|
      invariant forall j | 0 <= j < idx :: !Conflicting(list[j].cycles)
      invariant forall i | 0 <= i < |selected| :: selected[i] < idx
      invariant forall i, j | 0 <= i < j < |selected| :: selected[i] < selected[j]
      invariant forall s | 0 <= s < idx :: s in selected <==> IsSelected(list[s], cycle, phase)
    {
      if Conflicting(list[idx].cycles) {
        assert IsFirstConflict(list, idx);
        return selected, Some(list[idx].id);
      }
      if IsSelected(list[idx], cycle, phase) {
        selected := selected + [idx];
      }
    }
    return selected, None;
  }

  /** The first item of both runtime cycles. */
  ghost predicate IsFirstConflict(list: seq<Item>, i: nat)
    requires i < |list|
  {
    && Runtime in list[i].cycles && PostRuntime in list[i].cycles
    && forall j | 0 <= j < i :: !(Runtime in list[j].cycles && PostRuntime in list[j].cycles)
  }

  method ResolveIds(list: seq<Item>, selected: seq<nat>) returns (idToIdx: map<string, nat>)
    requires InRange(list, selected)
    requires forall i, j | 0 <= i < j < |selected| :: selected[i] < selected[j]
    ensures Resolves(list, selected, idToIdx)
  {
    idToIdx := map[];
    for i := 0 to |selected|
      invariant Resolves(list, selected[..i], idToIdx)
    {
      assert selected[..i + 1] == selected[..i] + [selected[i]];
      idToIdx := idToIdx[list[selected[i]].id := selected[i]];
    }
    assert selected[..|selected|] == selected;
  }

  /** The two tables of the sort agree with the edges counted so far. */
  ghost predicate Tables(selected: seq<nat>, edges: seq<(nat, nat)>, deps: map<nat, seq<nat>>, indegree: map<nat, nat>) {
    forall v | v in selected ::
      v in deps && deps[v] == Dependents(edges, v) && v in indegree && indegree[v] == Open(edges, v, {})
  }

  lemma TablesStep(selected: seq<nat>, edges: seq<(nat, nat)>, deps: map<nat, seq<nat>>, indegree: map<nat, nat>, u: nat, v: nat)
    requires Tables(selected, edges, deps, indegree) && u in selected && v in selected
    ensures Tables(selected, edges + [(u, v)], deps[v := deps[v] + [u]], indegree[u := indegree[u] + 1])
  {
    AppendEdge(edges, (u, v));
  }

  method EmptyTables(selected: seq<nat>) returns (deps: map<nat, seq<nat>>, indegree: map<nat, nat>)
    ensures Tables(selected, [], deps, indegree) && indegree.Keys == Elements(selected)
  {
    deps, indegree := map[], map[];
    for i := 0 to |selected|
      invariant Tables(selected[..i], [], deps, indegree) && indegree.Keys == Elements(selected[..i])
    {
      indegree := indegree[selected[i] := 0];
      deps := deps[selected[i] := []];
      assert selected[..i + 1] == selected[..i] + [selected[i]];
    }
    assert selected[..|selected|] == selected;
  }

  method CountEdges(list: seq<Item>, selected: seq<nat>, idToIdx: map<string, nat>) returns (deps: map<nat, seq<nat>>, indegree: map<nat, nat>)
    requires InRange(list, selected)
    requires Resolves(list, selected, idToIdx)
    ensures Tables(selected, AllEdges(list, selected, idToIdx), deps, indegree) && indegree.Keys == Elements(selected)
  {
    deps, indegree := EmptyTables(selected);
    ghost var edges: seq<(nat, nat)> := [];
    for i := 0 to |selected|
      invariant edges == AllEdges(list, selected[..i], idToIdx)
      invariant Tables(selected, edges, deps, indegree) && indegree.Keys == Elements(selected)
    {
      assert selected[..i + 1][..i] == selected[..i];
      deps, indegree := CountItem(list, selected, idToIdx, selected[i], deps, indegree, edges);
      edges := edges + ItemEdges(selected[i], list[selected[i]].dependsOn, idToIdx);
    }
    assert selected[..|selected|] == selected;
  }

  method CountItem(list: seq<Item>, selected: seq<nat>, idToIdx: map<string, nat>, idx: nat,
                   deps0: map<nat, seq<nat>>, indegree0: map<nat, nat>, ghost before: seq<(nat, nat)>)
    returns (deps: map<nat, seq<nat>>, indegree: map<nat, nat>)
    requires Resolves(list, selected, idToIdx) && idx in selected && idx < |list|
    requires Tables(selected, before, deps0, indegree0)
    ensures Tables(selected, before + ItemEdges(idx, list[idx].dependsOn, idToIdx), deps, indegree) && indegree.Keys == indegree0.Keys
  {
    deps, indegree := deps0, indegree0;
    var entries := list[idx].dependsOn;
    ghost var edges := before;
    for k := 0 to |entries|
      invariant edges == before + ItemEdges(idx, entries[..k], idToIdx)
      invariant Tables(selected, edges, deps, indegree) && indegree.Keys == indegree0.Keys
    {
      assert entries[..k + 1][..k] == entries[..k];
      if entries[k] in idToIdx {
        var depIdx := idToIdx[entries[k]];
        TablesStep(selected, edges, deps, indegree, idx, depIdx);
        deps := deps[depIdx := deps[depIdx] + [idx]];
        indegree := indegree[idx := indegree[idx] + 1];
        edges := edges + [(idx, depIdx)];
      }
    }
    assert entries[..|entries|] == entries;
  }

  // ---- the sort ----

  /** Every node comes after the nodes it needs. */
  ghost predicate Topological(edges: seq<(nat, nat)>, order: seq<nat>) {
    forall i, v | 0 <= i < |order| && (order[i], v) in edges :: v in order[..i]
  }

  /** What one round of the sort has established: which nodes are out, queued, and how many open entries the rest have. */
  ghost predicate SortState(selected: seq<nat>, edges: seq<(nat, nat)>, order: seq<nat>, queue: seq<nat>, indegree: map<nat, nat>) {
    && (forall v | v in order + queue :: v in selected)
    && Distinct(order + queue)
    && Topological(edges, order)
    && indegree.Keys == Elements(selected)
    && (forall v | v in selected :: indegree[v] == 0 <==> v in order + queue)
  }

  /** Something `v` needs is not out. */
  ghost predicate Stuck(selected: seq<nat>, edges: seq<(nat, nat)>, order: seq<nat>, v: nat) {
    exists w :: w in selected && w !in order && (v, w) in edges
  }

  method Kahn(selected: seq<nat>, deps: map<nat, seq<nat>>, initial: map<nat, nat>, ghost edges: seq<(nat, nat)>) returns (order: seq<nat>)
    requires Distinct(selected) && Tables(selected, edges, deps, initial) && initial.Keys == Elements(selected)
    requires forall e | e in edges :: e.0 in selected && e.1 in selected
    ensures Distinct(order) && Topological(edges, order)
    ensures forall v | v in order :: v in selected
    ensures forall v | v in selected && v !in order :: Stuck(selected, edges, order, v)
  {
    var indegree := initial;
    var queue := InitialQueue(selected, indegree);
    order := [];
    assert order + queue == queue;
    ghost var done: set<nat> := {};
    while queue != []
      invariant SortState(selected, edges, order, queue, indegree)
      invariant done == Elements(order)
      invariant forall v | v in selected :: indegree[v] == Open(edges, v, done)
      decreases |selected| - |order|
    {
      order, queue, indegree, done := Round(selected, deps, order, queue, indegree, done, edges);
    }
    assert order + queue == order;
    forall v | v in selected && v !in order ensures Stuck(selected, edges, order, v) {
      OpenZero(edges, v, done);
    }
  }

  /** One round: take a node without open entries and release its dependents. */
  method Round(selected: seq<nat>, deps: map<nat, seq<nat>>, order0: seq<nat>, queue0: seq<nat>, indegree0: map<nat, nat>,
               ghost done0: set<nat>, ghost edges: seq<(nat, nat)>)
    returns (order: seq<nat>, queue: seq<nat>, indegree: map<nat, nat>, ghost done: set<nat>)
    requires Distinct(selected) && forall e | e in edges :: e.0 in selected && e.1 in selected
    requires forall v | v in selected :: v in deps && deps[v] == Dependents(edges, v)
    requires SortState(selected, edges, order0, queue0, indegree0) && queue0 != [] && done0 == Elements(order0)
    requires forall v | v in selected :: indegree0[v] == Open(edges, v, done0)
    ensures SortState(selected, edges, order, queue, indegree) && done == Elements(order)
    ensures forall v | v in selected :: indegree[v] == Open(edges, v, done)
    ensures |order0| < |order| <= |selected|
  {
    var node := queue0[0];
    NextNode(selected, edges, order0, queue0, indegree0, done0);
    TakeHead(order0, queue0);
    SplitAll(edges, indegree0, done0, node);
    queue := queue0[1..];
    order := order0 + [node];
    done := done0 + {node};
    ghost var rest := map v | v in indegree0.Keys :: Open(edges, v, done);
    indegree, queue := Release(deps[node], indegree0, queue, order, rest);
    BoundedOrder(order + queue, selected);
  }

  lemma TakeHead(order: seq<nat>, queue: seq<nat>)
    requires queue != []
    ensures order + [queue[0]] + queue[1..] == order + queue
  {
  }

  lemma NextNode(selected: seq<nat>, edges: seq<(nat, nat)>, order: seq<nat>, queue: seq<nat>, indegree: map<nat, nat>, done: set<nat>)
    requires SortState(selected, edges, order, queue, indegree) && queue != [] && done == Elements(order)
    requires forall v | v in selected :: indegree[v] == Open(edges, v, done)
    ensures queue[0] in selected && queue[0] !in order && Topological(edges, order + [queue[0]])
  {
    assert queue[0] in order + queue;
    HeadNotBefore(order, queue);
    OpenZero(edges, queue[0], done);
    TopologicalStep(edges, order, queue[0]);
  }

  lemma SplitAll(edges: seq<(nat, nat)>, indegree: map<nat, nat>, done: set<nat>, node: nat)
    requires node !in done && forall v | v in indegree :: indegree[v] == Open(edges, v, done)
    ensures forall v | v in indegree :: indegree[v] == Open(edges, v, done + {node}) + Count(Dependents(edges, node), v)
    ensures forall u :: u in Dependents(edges, node) <==> (u, node) in edges
  {
    DependentsAre(edges, node);
    forall v | v in indegree ensures indegree[v] == Open(edges, v, done + {node}) + Count(Dependents(edges, node), v) {
      OpenSplit(edges, v, done, node);
    }
  }

  method InitialQueue(selected: seq<nat>, indegree: map<nat, nat>) returns (queue: seq<nat>)
    requires Distinct(selected) && forall v | v in selected :: v in indegree
    ensures Distinct(queue)
    ensures forall v :: v in queue <==> v in selected && indegree[v] == 0
  {
    queue := [];
    for i := 0 to |selected|
      invariant Distinct(queue)
      invariant forall v :: v in queue <==> v in selected[..i] && indegree[v] == 0
    {
      assert selected[..i + 1] == selected[..i] + [selected[i]];
      assert selected[i] !in selected[..i];
      if indegree[selected[i]] == 0 {
        queue := queue + [selected[i]];
      }
    }
    assert selected[..|selected|] == selected;
  }

  lemma TopologicalStep(edges: seq<(nat, nat)>, order: seq<nat>, node: nat)
    requires Topological(edges, order) && forall v | (node, v) in edges :: v in order
    ensures Topological(edges, order + [node])
  {
    var longer := order + [node];
    forall i, v | 0 <= i < |longer| && (longer[i], v) in edges ensures v in longer[..i] {
      assert longer[..i] == order[..i];
      if i == |order| {
        assert order[..i] == order;
      }
    }
  }

  lemma HeadNotBefore(order: seq<nat>, queue: seq<nat>)
    requires Distinct(order + queue) && queue != []
    ensures queue[0] !in order
  {
    assert (order + queue)[|order|] == queue[0];
    forall i | 0 <= i < |order| ensures order[i] != queue[0] {
      assert (order + queue)[i] == order[i];
    }
  }

  /** Distinct nodes drawn from `selected` are all of it exactly when there are as many. */
  lemma BoundedOrder(s: seq<nat>, selected: seq<nat>)
    requires Distinct(s) && Distinct(selected) && forall v | v in s :: v in selected
    ensures |s| <= |selected|
    ensures |s| == |selected| <==> forall v | v in selected :: v in s
  {
    DistinctSize(s);
    DistinctSize(selected);
    var a, b := Elements(s), Elements(selected);
    assert b == a + (b - a);
    assert |b| == |a| + |b - a|;
    if forall v | v in selected :: v in s {
      assert b - a == {};
    }
    if |s| == |selected| {
      assert b - a == {};
      forall v | v in selected ensures v in s {
        assert v in a;
      }
    }
  }

  /** The inner loop: one decrement per entry of `nexts`, queueing what reaches zero; `rest` is what remains of each count. */
  method Release(nexts: seq<nat>, before: map<nat, nat>, ready: seq<nat>, ghost order: seq<nat>, ghost rest: map<nat, nat>)
    returns (indegree: map<nat, nat>, queue: seq<nat>)
    requires before.Keys == rest.Keys && forall v | v in nexts :: v in rest
    requires forall v | v in rest :: before[v] == rest[v] + Count(nexts, v)
    requires Distinct(order + ready) && forall v | v in order + ready :: v in rest
    requires forall v | v in rest :: before[v] == 0 <==> v in order + ready
    ensures indegree == rest
    ensures Distinct(order + queue) && forall v | v in order + queue :: v in rest
    ensures forall v | v in rest :: indegree[v] == 0 <==> v in order + queue
  {
    indegree, queue := before, ready;
    for i := 0 to |nexts|
      invariant indegree.Keys == rest.Keys
      invariant forall v | v in rest :: indegree[v] + Count(nexts[..i], v) == before[v]
      invariant Distinct(order + queue) && forall v | v in order + queue :: v in rest
      invariant forall v | v in rest :: indegree[v] == 0 <==> v in order + queue
    {
      var next := nexts[i];
      assert nexts[..i + 1][..i] == nexts[..i];
      CountPrefix(nexts, i + 1, next);
      indegree := indegree[next := indegree[next] - 1];
      if indegree[next] == 0 {
        assert order + (queue + [next]) == (order + queue) + [next];
        queue := queue + [next];
      }
    }
    assert nexts[..|nexts|] == nexts;
  }

  // ---- the plan ----

  /** The dependencies among the selected orchestrators, each pair (dependent, dependency) once. */
  ghost predicate DependencyGraph(list: seq<Item>, cycle: BootCycle, phase: BootPhase, selected: seq<nat>, edges: Edges<nat>) {
    && Selection(list, cycle, phase, selected)
    && exists idToIdx :: Resolves(list, selected, idToIdx) && edges == Needs(list, selected, idToIdx)
  }

  ghost predicate Precedes(order: seq<nat>, v: nat, u: nat) {
    exists i, j :: 0 <= i < j < |order| && order[i] == v && order[j] == u
  }

  function Reversed(s: seq<nat>): (r: seq<nat>)
    ensures |r| == |s| && forall i | 0 <= i < |s| :: r[i] == s[|s| - 1 - i]
  {
    seq(|s|, i requires 0 <= i < |s| => s[|s| - 1 - i])
  }

  ghost function IndexOf(s: seq<nat>, v: nat): (i: nat)
    requires v in s
    ensures i < |s| && s[i] == v
  {
    var i :| 0 <= i < |s| && s[i] == v;
    i
  }

  /** A topological order that covers every node ranks the edges. */
  lemma OrderAcyclic(edges: seq<(nat, nat)>, order: seq<nat>)
    requires Distinct(order) && Topological(edges, order)
    requires forall e | e in edges :: e.0 in order && e.1 in order
    ensures Acyclic(EdgeSet(edges))
    ensures forall e | e in edges :: Precedes(order, e.1, e.0)
  {
    var rank := map v | v in Elements(order) :: IndexOf(order, v);
    forall u, v | (u, v) in edges ensures rank[v] < rank[u] && Precedes(order, v, u) {
      var j := IndexOf(order, u);
      assert v in order[..j];
      var i :| 0 <= i < j && order[..j][i] == v;
      assert order[i] == v && order[IndexOf(order, v)] == v;
      assert Precedes(order, v, u);
    }
    RanksAcyclic(EdgeSet(edges), rank);
  }

  /** Nodes left over all need one another: there is a cycle. */
  lemma LeftoverCyclic(edges: seq<(nat, nat)>, selected: seq<nat>, order: seq<nat>, start: nat)
    requires start in selected && start !in order
    requires forall v | v in selected && v !in order :: Stuck(selected, edges, order, v)
    ensures !Acyclic(EdgeSet(edges))
  {
    var rest := Elements(selected) - Elements(order);
    forall v | v in rest ensures HasSuccessor(EdgeSet(edges), rest, v) {
      var w :| w in selected && w !in order && (v, w) in edges;
      assert w in rest && (v, w) in EdgeSet(edges);
    }
    var p, c := SuccessorsCycle(EdgeSet(edges), rest, start);
  }

  /** Exactly the selected nodes, once each, dependencies first (last for phase End). */
  ghost predicate InPhaseOrder(order: seq<nat>, selected: seq<nat>, edges: Edges<nat>, phase: BootPhase) {
    && Distinct(order)
    && (forall v :: v in order <==> v in selected)
    && forall u, v | (u, v) in edges :: if phase == Start then Precedes(order, v, u) else Precedes(order, u, v)
  }

  method Sort(list: seq<Item>, selected: seq<nat>, idToIdx: map<string, nat>) returns (order: seq<nat>)
    requires InRange(list, selected) && Distinct(selected) && Resolves(list, selected, idToIdx)
    ensures |order| == |selected| <==> Acyclic(Needs(list, selected, idToIdx))
    ensures |order| == |selected| ==> InPhaseOrder(order, selected, Needs(list, selected, idToIdx), Start)
  {
    var deps, indegree := CountEdges(list, selected, idToIdx);
    ghost var entries := AllEdges(list, selected, idToIdx);
    AllEdgesAre(list, selected, idToIdx);
    assert EdgeSet(entries) == Needs(list, selected, idToIdx);
    order := Kahn(selected, deps, indegree, entries);
    BoundedOrder(order, selected);
    if |order| == |selected| {
      OrderAcyclic(entries, order);
    } else {
      ghost var start :| start in selected && start !in order;
      LeftoverCyclic(entries, selected, order, start);
    }
  }

  /** The error is exact, and an Ok plan exists exactly when the dependencies have no cycle. */
  ghost predicate PlanIs(plan: Plan, list: seq<Item>, phase: BootPhase, selected: seq<nat>, edges: Edges<nat>)
    requires InRange(list, selected)
  {
    match plan
    case Ok(order) => Acyclic(edges) && InPhaseOrder(order, selected, edges, phase)
    case DependencyCycle(ids) => !Acyclic(edges) && ids == seq(|selected|, i requires 0 <= i < |selected| => list[selected[i]].id)
    case ConflictingCycles(_) => false
  }

  method PlannedIndexes(list: seq<Item>, cycle: BootCycle, phase: BootPhase) returns (plan: Plan, ghost selected: seq<nat>, ghost edges: Edges<nat>)
    ensures plan.ConflictingCycles? <==> exists i | 0 <= i < |list| :: Runtime in list[i].cycles && PostRuntime in list[i].cycles
    ensures plan.ConflictingCycles? ==> exists i | 0 <= i < |list| :: IsFirstConflict(list, i) && plan.id == list[i].id
    ensures !plan.ConflictingCycles? ==> DependencyGraph(list, cycle, phase, selected, edges) && PlanIs(plan, list, phase, selected, edges)
  {
    var chosen, conflict := Select(list, cycle, phase);
    selected, edges := chosen, {};
    if conflict.Some? {
      return ConflictingCycles(conflict.value), selected, edges;
    }
    var idToIdx := ResolveIds(list, chosen);
    edges := Needs(list, chosen, idToIdx);
    var order := Sort(list, chosen, idToIdx);
    if |order| != |chosen| {
      var ids := seq(|chosen|, i requires 0 <= i < |chosen| => list[chosen[i]].id);
      return DependencyCycle(ids), selected, edges;
    }
    if phase == End {
      ReversedPrecedes(order, edges);
      return Ok(Reversed(order)), selected, edges;
    }
    return Ok(order), selected, edges;
  }

  lemma ReversedPrecedes(order: seq<nat>, edges: Edges<nat>)
    requires Distinct(order) && forall u, v | (u, v) in edges :: Precedes(order, v, u)
    ensures Distinct(Reversed(order)) && forall v :: v in Reversed(order) <==> v in order
    ensures forall u, v | (u, v) in edges :: Precedes(Reversed(order), u, v)
  {
    var r := Reversed(order);
    forall v | v in order ensures v in r {
      var i :| 0 <= i < |order| && order[i] == v;
      assert r[|order| - 1 - i] == v;
    }
    forall u, v | (u, v) in edges ensures Precedes(r, u, v) {
      var i, j :| 0 <= i < j < |order| && order[i] == v && order[j] == u;
      assert r[|order| - 1 - j] == u && r[|order| - 1 - i] == v;
    }
  }

  // ---- carrying the plan out ----

  datatype PhaseResult = Completed | PlanFailed(plan: Plan) | Failed(index: nat)

  /** Everything started so far succeeded, except that the last one failed when the phase did. */
  ghost predicate TraceIs(trace: seq<nat>, result: PhaseResult, succeeds: nat -> bool) {
    match result
    case Completed => forall v | v in trace :: succeeds(v)
    case Failed(index) => trace != [] && trace[|trace| - 1] == index && !succeeds(index) && forall i | 0 <= i < |trace| - 1 :: succeeds(trace[i])
    case PlanFailed(plan) => trace == [] && !plan.Ok?
  }

  /** An orchestrator is started only after everything it depends on, and only if that succeeded. */
  ghost predicate StartedAfterNeeds(trace: seq<nat>, edges: Edges<nat>, succeeds: nat -> bool) {
    forall u, v | (u, v) in edges && u in trace :: Precedes(trace, v, u) && succeeds(v)
  }

  /** What has to be started before what: dependencies first in phase Start, dependents first in phase End. */
  ghost function Waiting(edges: Edges<nat>, phase: BootPhase): Edges<nat> {
    if phase == Start then edges else set e | e in edges :: (e.1, e.0)
  }

  /** The order of the plan, of which the trace is a prefix. */
  ghost predicate FollowsPlan(trace: seq<nat>, selected: seq<nat>, edges: Edges<nat>, phase: BootPhase) {
    exists order :: trace <= order && InPhaseOrder(order, selected, edges, phase)
  }

  /** run_cycle_phase: `succeeds` says which orchestrators' preload or run returns Ok; the trace lists those started. */
  method RunCyclePhase(list: seq<Item>, cycle: BootCycle, phase: BootPhase, succeeds: nat -> bool)
    returns (trace: seq<nat>, result: PhaseResult, ghost selected: seq<nat>, ghost edges: Edges<nat>)
    ensures TraceIs(trace, result, succeeds)
    ensures !result.PlanFailed? ==> DependencyGraph(list, cycle, phase, selected, edges) && Distinct(trace)
    ensures !result.PlanFailed? ==> FollowsPlan(trace, selected, edges, phase) && StartedAfterNeeds(trace, Waiting(edges, phase), succeeds)
    ensures result.Completed? ==> InPhaseOrder(trace, selected, edges, phase)
  {
    var plan;
    plan, selected, edges := PlannedIndexes(list, cycle, phase);
    if !plan.Ok? {
      return [], PlanFailed(plan), selected, edges;
    }
    trace, result := StartEach(plan.order, succeeds);
    PrefixPrecedes(plan.order, |trace|, selected, edges, phase, succeeds);
  }

  method StartEach(order: seq<nat>, succeeds: nat -> bool) returns (trace: seq<nat>, result: PhaseResult)
    requires Distinct(order)
    ensures !result.PlanFailed? && TraceIs(trace, result, succeeds)
    ensures trace <= order && Distinct(trace) && (result.Completed? ==> trace == order)
  {
    trace := [];
    for i := 0 to |order|
      invariant trace == order[..i]
      invariant forall j | 0 <= j < i :: succeeds(order[j])
    {
      trace := trace + [order[i]];
      if !succeeds(order[i]) {
        return trace, Failed(order[i]);
      }
    }
    return trace, Completed;
  }

  /** In a prefix of the order, what a member needs comes before it, so not last. */
  lemma PrefixPrecedes(order: seq<nat>, n: nat, selected: seq<nat>, edges: Edges<nat>, phase: BootPhase, succeeds: nat -> bool)
    requires n <= |order| && InPhaseOrder(order, selected, edges, phase)
    requires forall i | 0 <= i < n - 1 :: succeeds(order[i])
    ensures StartedAfterNeeds(order[..n], Waiting(edges, phase), succeeds)
  {
    forall u, v | (u, v) in Waiting(edges, phase) && u in order[..n] ensures Precedes(order[..n], v, u) && succeeds(v) {
      assert if phase == Start then (u, v) in edges else (v, u) in edges;
      var i, j :| 0 <= i < j < |order| && order[i] == v && order[j] == u;
      var k :| 0 <= k < n && order[..n][k] == u;
      assert order[k] == u;
      assert order[..n][i] == v && order[..n][j] == u;
    }
  }
}
