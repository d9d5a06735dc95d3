/**
 Mounting and unmounting units in dependency order
 (crates/primitives/src/mounts.rs). The system calls appear as traces of the
 positions attempted.
 */
module Mounts {
  import opened Common
  import opened Graphs
  import opened Settling

  datatype Mount = Mount(unitName: string, target: string, after: Option<seq<string>>)

  // ---- unmounting ----

  /** `d` is the target of a mount that lists `t` in `after`: `t` must outlive `d`. */
  predicate DependsOn(m: Mount, t: string, d: string) {
    m.target == d && m.after.Some? && t in m.after.value
  }

  ghost predicate Dependent(mounts: seq<Mount>, t: string, d: string) {
    exists m | m in mounts :: DependsOn(m, t, d)
  }

  /** `t` waits for `d`. */
  ghost function Waits(mounts: seq<Mount>): Edges<string> {
    set m, t | m in mounts && m.after.Some? && t in m.after.value :: (t, m.target)
  }

  ghost predicate LeadsToCycle(edges: Edges<string>, x: string) {
    exists p, c :: IsWalk(edges, p) && p[0] == x && IsCycle(edges, c) && c[0] == p[|p| - 1]
  }

  /** A target that leads to a cycle has a dependent that does. */
  lemma LeadsOn(mounts: seq<Mount>, x: string) returns (y: string)
    requires LeadsToCycle(Waits(mounts), x)
    ensures Dependent(mounts, x, y) && LeadsToCycle(Waits(mounts), y)
  {
    var edges := Waits(mounts);
    var p, c :| IsWalk(edges, p) && p[0] == x && IsCycle(edges, c) && c[0] == p[|p| - 1];
    if |p| > 1 {
      y := p[1];
      assert IsWalk(edges, p[1..]) && p[1..][|p| - 2] == c[0];
    } else {
      y := c[1];
      var d := c[1..] + [c[1]];
      assert (c[0], c[1]) in edges;
      forall i | 0 <= i < |d| - 1 ensures (d[i], d[i + 1]) in edges {
        if i < |c| - 2 {
          assert (c[i + 1], c[i + 2]) in edges;
        }
      }
      assert IsCycle(edges, d) && IsWalk(edges, [y]);
    }
    assert (x, y) in edges;
  }

  lemma NoDependentNoCycle(mounts: seq<Mount>, x: string)
    requires forall d :: !Dependent(mounts, x, d)
    ensures !LeadsToCycle(Waits(mounts), x)
  {
    if LeadsToCycle(Waits(mounts), x) {
      var d := LeadsOn(mounts, x);
    }
  }

  function Listed(dependents: map<string, seq<string>>, t: string): seq<string> {
    if t in dependents then dependents[t] else []
  }

  /** The table lists exactly the dependents. */
  ghost predicate Lists(dependents: map<string, seq<string>>, mounts: seq<Mount>) {
    && (forall t, d :: d in Listed(dependents, t) <==> Dependent(mounts, t, d))
    && (forall t | t in dependents :: dependents[t] != [])
  }

  method CollectDependents(mounts: seq<Mount>) returns (dependents: map<string, seq<string>>)
    ensures Lists(dependents, mounts)
  {
    dependents := map[];
    for i := 0 to |mounts|
      invariant Lists(dependents, mounts[..i])
    {
      var m := mounts[i];
      assert mounts[..i + 1] == mounts[..i] + [m];
      OneMore(mounts[..i], m);
      if m.after.Some? {
        dependents := AddDependents(dependents, m, mounts[..i]);
      }
    }
    assert mounts[..|mounts|] == mounts;
  }

  lemma OneMore(mounts: seq<Mount>, m: Mount)
    ensures forall t, d :: Dependent(mounts + [m], t, d) <==> Dependent(mounts, t, d) || DependsOn(m, t, d)
  {
    forall t, d ensures Dependent(mounts + [m], t, d) <==> Dependent(mounts, t, d) || DependsOn(m, t, d) {
      if m' :| m' in mounts && DependsOn(m', t, d) {
        assert m' in mounts + [m];
      }
      assert m in mounts + [m];
    }
  }

  method AddDependents(before: map<string, seq<string>>, m: Mount, ghost seen: seq<Mount>) returns (dependents: map<string, seq<string>>)
    requires m.after.Some? && Lists(before, seen)
    ensures forall t, d :: d in Listed(dependents, t) <==> Dependent(seen, t, d) || DependsOn(m, t, d)
    ensures forall t | t in dependents :: dependents[t] != []
  {
    dependents := before;
    var afters := m.after.value;
    for k := 0 to |afters|
      invariant forall t, d :: d in Listed(dependents, t) <==> Dependent(seen, t, d) || (d == m.target && t in afters[..k])
      invariant forall t | t in dependents :: dependents[t] != []
    {
      assert afters[..k + 1] == afters[..k] + [afters[k]];
      ghost var old' := dependents;
      dependents := dependents[afters[k] := Listed(dependents, afters[k]) + [m.target]];
      assert forall t :: Listed(dependents, t) == if t == afters[k] then Listed(old', t) + [m.target] else Listed(old', t);
    }
    assert afters[..|afters|] == afters;
  }

  /** The mounts nothing depends on, unmounted at once, and the others as tasks waiting for their dependents. */
  ghost predicate Sorted(mounts: seq<Mount>, n: nat, dependents: map<string, seq<string>>, now: seq<nat>, base: set<string>, tasks: seq<Task>)
    requires n <= |mounts|
  {
    && (forall i | i in now :: i < n && mounts[i].target !in dependents)
    && (forall t | t in tasks :: t.index < n && t.name == mounts[t.index].target && t.name in dependents && t.needs == dependents[t.name])
    && (forall i | 0 <= i < n :: if mounts[i].target in dependents
          then Task(i, mounts[i].target, dependents[mounts[i].target]) in tasks else i in now)
    && base == (set i | i in now && i < n :: mounts[i].target)
    && Distinct(now) && Distinct(tasks)
  }

  method SortMounts(mounts: seq<Mount>, dependents: map<string, seq<string>>) returns (now: seq<nat>, base: set<string>, tasks: seq<Task>)
    ensures Sorted(mounts, |mounts|, dependents, now, base, tasks)
  {
    now, base, tasks := [], {}, [];
    for i := 0 to |mounts|
      invariant Sorted(mounts, i, dependents, now, base, tasks)
    {
      var target := mounts[i].target;
      if target in dependents {
        tasks := tasks + [Task(i, target, dependents[target])];
      } else {
        now := now + [i];
        base := base + {target};
      }
    }
  }

  /** Nothing is unmounted before everything that depends on it. */
  ghost predicate DependentsFirst(mounts: seq<Mount>, trace: seq<nat>) {
    forall p, d | 0 <= p < |trace| && trace[p] < |mounts| && Dependent(mounts, mounts[trace[p]].target, d) ::
      exists q | 0 <= q < p :: trace[q] < |mounts| && mounts[trace[q]].target == d
  }

  /**
   Each mount is attempted at most once, after everything that lists it in
   `after`, and those never attempted are exactly the ones from which a cycle of
   dependents can be reached.
   */
  method UnmountUnits(mounts: seq<Mount>) returns (trace: seq<nat>, pending: seq<Task>)
    ensures Distinct(trace) && forall i | i in trace :: i < |mounts|
    ensures DependentsFirst(mounts, trace)
    ensures forall i | 0 <= i < |mounts| :: i !in trace <==> LeadsToCycle(Waits(mounts), mounts[i].target)
    ensures forall i | 0 <= i < |mounts| :: i !in trace <==> exists t | t in pending :: t.index == i
  {
    var dependents := CollectDependents(mounts);
    var now, base, tasks := SortMounts(mounts, dependents);
    var done, ran;
    done, pending, ran := Settle(tasks, base);
    trace := now + seq(|ran|, k requires 0 <= k < |ran| => ran[k].index);
    TraceOnce(mounts, dependents, now, base, tasks, ran, pending, done, trace);
    TraceOrdered(mounts, dependents, now, base, tasks, ran, pending, done, trace);
    forall i | 0 <= i < |mounts| ensures i !in trace <==> LeadsToCycle(Waits(mounts), mounts[i].target) {
      DoneIffNoCycle(mounts, dependents, now, base, tasks, done, mounts[i].target);
      TracedIffDone(mounts, dependents, now, base, tasks, ran, pending, done, trace, i);
    }
  }

  lemma TraceOnce(mounts: seq<Mount>, dependents: map<string, seq<string>>, now: seq<nat>, base: set<string>, tasks: seq<Task>,
                  ran: seq<Task>, pending: seq<Task>, done: set<string>, trace: seq<nat>)
    requires Sorted(mounts, |mounts|, dependents, now, base, tasks) && Settled(base, tasks, done, pending, ran)
    requires trace == now + seq(|ran|, k requires 0 <= k < |ran| => ran[k].index)
    ensures Distinct(trace) && forall i | i in trace :: i < |mounts|
    ensures forall i | 0 <= i < |mounts| :: i !in trace <==> exists t | t in pending :: t.index == i
  {
    PartedOnce(tasks, ran, pending);
    TaskTraced(ran, now, trace);
    forall p, q | 0 <= p < q < |trace| ensures trace[p] != trace[q] {
      if q >= |now| {
        assert ran[q - |now|] in tasks;
        if p >= |now| {
          assert ran[p - |now|] in tasks && ran[p - |now|] != ran[q - |now|];
        } else {
          assert trace[p] in now;
        }
      }
    }
    forall i | 0 <= i < |mounts| ensures i !in trace <==> exists t | t in pending :: t.index == i {
      if mounts[i].target in dependents {
        var t := Task(i, mounts[i].target, dependents[mounts[i].target]);
        assert t in ran || t in pending;
        assert forall t' | t' in tasks && t'.index == i :: t' == t;
      }
    }
  }

  lemma TraceOrdered(mounts: seq<Mount>, dependents: map<string, seq<string>>, now: seq<nat>, base: set<string>, tasks: seq<Task>,
                     ran: seq<Task>, pending: seq<Task>, done: set<string>, trace: seq<nat>)
    requires Sorted(mounts, |mounts|, dependents, now, base, tasks) && Settled(base, tasks, done, pending, ran)
    requires trace == now + seq(|ran|, k requires 0 <= k < |ran| => ran[k].index)
    requires Lists(dependents, mounts)
    ensures DependentsFirst(mounts, trace)
  {
    forall p | 0 <= p < |now| ensures trace[p] < |mounts| && mounts[trace[p]].target !in dependents {
      assert now[p] in now;
    }
    forall p, d | 0 <= p < |trace| && trace[p] < |mounts| && Dependent(mounts, mounts[trace[p]].target, d)
      ensures exists q | 0 <= q < p :: trace[q] < |mounts| && mounts[trace[q]].target == d
    {
      assert d in Listed(dependents, mounts[trace[p]].target);
      var k := p - |now|;
      assert ran[k] in tasks && d in ran[k].needs;
      InOrderAt(base, ran, k);
      ProvidedIs(base, ran[..k]);
      if j :| 0 <= j < k && ran[..k][j].name == d {
        assert ran[j] in tasks && trace[|now| + j] == ran[j].index;
      } else {
        var i :| i in now && i < |mounts| && mounts[i].target == d;
        var q :| 0 <= q < |now| && now[q] == i;
        assert trace[q] == i;
      }
    }
  }

  lemma TracedIffDone(mounts: seq<Mount>, dependents: map<string, seq<string>>, now: seq<nat>, base: set<string>, tasks: seq<Task>,
                      ran: seq<Task>, pending: seq<Task>, done: set<string>, trace: seq<nat>, i: nat)
    requires Sorted(mounts, |mounts|, dependents, now, base, tasks) && Settled(base, tasks, done, pending, ran)
    requires trace == now + seq(|ran|, k requires 0 <= k < |ran| => ran[k].index) && i < |mounts|
    ensures i in trace <==> mounts[i].target in done
  {
    TaskTraced(ran, now, trace);
    var target := mounts[i].target;
    if target in dependents {
      var t := Task(i, target, dependents[target]);
      assert t in tasks;
      assert forall t' | t' in tasks && t'.index == i :: t' == t;
      if target in done {
        ProvidedIs(base, ran);
        assert target !in base;
        var k :| 0 <= k < |ran| && ran[k].name == target;
        assert ran[k] in tasks && Enabled(t, done);
      }
    } else {
      assert i in now && target in base;
      assert Closed(base, tasks, done);
    }
  }

  lemma DoneIffNoCycle(mounts: seq<Mount>, dependents: map<string, seq<string>>, now: seq<nat>, base: set<string>, tasks: seq<Task>,
                       done: set<string>, x: string)
    requires Sorted(mounts, |mounts|, dependents, now, base, tasks) && LeastFixpoint(base, tasks, done)
    requires Lists(dependents, mounts)
    requires exists m | m in mounts :: m.target == x
    ensures x !in done <==> LeadsToCycle(Waits(mounts), x)
  {
    var edges := Waits(mounts);
    var targets := set m | m in mounts :: m.target;
    if x !in done {
      var rest := targets - done;
      forall t | t in rest ensures HasSuccessor(edges, rest, t) {
        Stuck(mounts, dependents, now, base, tasks, done, t);
        var d :| d in targets && d !in done && Dependent(mounts, t, d);
        assert d in rest && (t, d) in edges;
      }
      var p, c := SuccessorsCycle(edges, rest, x);
    } else {
      var safe := set t | t in targets && !LeadsToCycle(edges, t);
      assert Closed(base, tasks, safe) by {
        forall t | t in base ensures t in safe {
          var i :| i in now && i < |mounts| && mounts[i].target == t;
          assert mounts[i] in mounts;
          NoDependentNoCycle(mounts, t);
        }
        forall t | t in tasks && Enabled(t, safe) ensures t.name in safe {
          assert mounts[t.index] in mounts;
          if LeadsToCycle(edges, t.name) {
            var d := LeadsOn(mounts, t.name);
          }
        }
      }
    }
  }

  /** A target left over has a dependent left over. */
  lemma Stuck(mounts: seq<Mount>, dependents: map<string, seq<string>>, now: seq<nat>, base: set<string>, tasks: seq<Task>,
              done: set<string>, t: string)
    requires Sorted(mounts, |mounts|, dependents, now, base, tasks) && LeastFixpoint(base, tasks, done)
    requires Lists(dependents, mounts)
    requires t !in done && exists m | m in mounts :: m.target == t
    ensures exists d :: d in (set m | m in mounts :: m.target) && d !in done && Dependent(mounts, t, d)
  {
    var m :| m in mounts && m.target == t;
    var i :| 0 <= i < |mounts| && mounts[i] == m;
    assert t !in dependents ==> i in now && t in base;
    var task := Task(i, t, dependents[t]);
    assert task in tasks && !Enabled(task, done);
    var d :| d in task.needs && d !in done;
    assert Dependent(mounts, t, d);
  }

  // ---- mounting ----

  /** The name a mount with dependencies is entered under once mounted; one without is entered under its target. */
  function LateName(m: Mount): string {
    m.unitName + ":" + m.target
  }

  ghost predicate EntersAs(m: Mount, name: string) {
    name == if m.after.Some? then m.unitName + ":" + m.target else m.target
  }

  /** No mount is attempted before everything it lists has been entered. */
  ghost predicate NeedsFirst(mounts: seq<Mount>, trace: seq<nat>) {
    forall p, a | 0 <= p < |trace| && trace[p] < |mounts| && mounts[trace[p]].after.Some? && a in mounts[trace[p]].after.value ::
      exists q | 0 <= q < p :: trace[q] < |mounts| && EntersAs(mounts[trace[q]], a)
  }

  ghost predicate MountTasks(mounts: seq<Mount>, n: nat, now: seq<nat>, base: set<string>, tasks: seq<Task>)
    requires n <= |mounts|
  {
    && (forall i :: i in now <==> 0 <= i < n && mounts[i].after.None?)
    && base == (set i | i in now && i < n :: mounts[i].target)
    && (forall t | t in tasks :: t.index < n && mounts[t.index].after.Some? && t == Task(t.index, LateName(mounts[t.index]), mounts[t.index].after.value))
    && (forall i | 0 <= i < n && mounts[i].after.Some? :: Task(i, LateName(mounts[i]), mounts[i].after.value) in tasks)
    && Distinct(now) && Distinct(tasks)
  }

  /**
   mount_units: `mounts[i]` succeeds or not as `succeeds` says; a failure of a
   mount without `after` ends the call, a later one is ignored. The mounts
   attempted are those the least fixpoint enables.
   */
  method MountUnits(mounts: seq<Mount>, succeeds: nat -> bool)
    returns (ok: bool, trace: seq<nat>, ghost base: set<string>, ghost tasks: seq<Task>, ghost done: set<string>)
    ensures ok <==> forall i | 0 <= i < |mounts| && mounts[i].after.None? :: succeeds(i)
    ensures Distinct(trace) && forall i | i in trace :: i < |mounts|
    ensures NeedsFirst(mounts, trace)
    ensures ok ==> exists now :: MountTasks(mounts, |mounts|, now, base, tasks)
    ensures ok ==> LeastFixpoint(base, tasks, done)
    ensures ok ==> forall i | 0 <= i < |mounts| ::
              i in trace <==> mounts[i].after.None? || forall a | a in mounts[i].after.value :: a in done
    ensures !ok ==> trace != [] && !succeeds(trace[|trace| - 1]) && forall i | i in trace :: mounts[i].after.None?
  {
    var now: seq<nat>, mounted: set<string>, pending: seq<Task> := [], {}, [];
    base, tasks, done := {}, [], {};
    for i := 0 to |mounts|
      invariant MountTasks(mounts, i, now, mounted, pending)
      invariant forall j | 0 <= j < i && mounts[j].after.None? :: succeeds(j)
    {
      if mounts[i].after.Some? {
        pending := pending + [Task(i, LateName(mounts[i]), mounts[i].after.value)];
      } else {
        now := now + [i];
        if !succeeds(i) {
          return false, now, base, tasks, done;
        }
        mounted := mounted + {mounts[i].target};
      }
    }
    base, tasks := mounted, pending;
    var ran;
    mounted, pending, ran := Settle(pending, mounted);
    done := mounted;
    trace := now + seq(|ran|, k requires 0 <= k < |ran| => ran[k].index);
    ok := true;
    MountTraceOnce(mounts, now, base, tasks, done, pending, ran, trace);
    MountTraceIs(mounts, now, base, tasks, done, pending, ran, trace);
    MountTraceOrdered(mounts, now, base, tasks, done, pending, ran, trace);
  }

  lemma MountTraceOnce(mounts: seq<Mount>, now: seq<nat>, base: set<string>, tasks: seq<Task>, done: set<string>,
                     pending: seq<Task>, ran: seq<Task>, trace: seq<nat>)
    requires MountTasks(mounts, |mounts|, now, base, tasks) && Settled(base, tasks, done, pending, ran)
    requires trace == now + seq(|ran|, k requires 0 <= k < |ran| => ran[k].index)
    ensures Distinct(trace) && forall i | i in trace :: i < |mounts|
  {
    PartedOnce(tasks, ran, pending);
    TaskTraced(ran, now, trace);
    forall p, q | 0 <= p < q < |trace| ensures trace[p] != trace[q] {
      if q >= |now| {
        assert ran[q - |now|] in tasks;
        if p >= |now| { assert ran[p - |now|] in tasks; } else { assert trace[p] in now; }
      }
    }
  }

  lemma MountTraceIs(mounts: seq<Mount>, now: seq<nat>, base: set<string>, tasks: seq<Task>, done: set<string>,
                     pending: seq<Task>, ran: seq<Task>, trace: seq<nat>)
    requires MountTasks(mounts, |mounts|, now, base, tasks) && Settled(base, tasks, done, pending, ran)
    requires trace == now + seq(|ran|, k requires 0 <= k < |ran| => ran[k].index)
    ensures forall i | 0 <= i < |mounts| ::
              i in trace <==> mounts[i].after.None? || forall a | a in mounts[i].after.value :: a in done
  {
    PartedOnce(tasks, ran, pending);
    TaskTraced(ran, now, trace);
    forall i | 0 <= i < |mounts| ensures i in trace <==> mounts[i].after.None? || forall a | a in mounts[i].after.value :: a in done {
      if mounts[i].after.Some? {
        var t := Task(i, LateName(mounts[i]), mounts[i].after.value);
        assert t in ran || t in pending;
        assert forall t' | t' in tasks && t'.index == i :: t' == t;
      }
    }
  }

  lemma MountTraceOrdered(mounts: seq<Mount>, now: seq<nat>, base: set<string>, tasks: seq<Task>, done: set<string>,
                     pending: seq<Task>, ran: seq<Task>, trace: seq<nat>)
    requires MountTasks(mounts, |mounts|, now, base, tasks) && Settled(base, tasks, done, pending, ran)
    requires trace == now + seq(|ran|, k requires 0 <= k < |ran| => ran[k].index)
    ensures NeedsFirst(mounts, trace)
  {
    forall p | 0 <= p < |now| ensures trace[p] < |mounts| && mounts[trace[p]].after.None? {
      assert now[p] in now;
    }
    forall p, a | 0 <= p < |trace| && trace[p] < |mounts| && mounts[trace[p]].after.Some? && a in mounts[trace[p]].after.value
      ensures exists q | 0 <= q < p :: trace[q] < |mounts| && EntersAs(mounts[trace[q]], a)
    {
      var k := p - |now|;
      assert ran[k] in tasks && a in ran[k].needs;
      InOrderAt(base, ran, k);
      ProvidedIs(base, ran[..k]);
      if j :| 0 <= j < k && ran[..k][j].name == a {
        assert ran[j] in tasks && trace[|now| + j] == ran[j].index;
      } else {
        var i :| i in now && i < |mounts| && mounts[i].target == a;
        var q :| 0 <= q < |now| && now[q] == i;
        assert trace[q] == i;
      }
    }
  }

  /**
   A mount with dependencies is entered under "unit:target" only. So when no
   `after` entry is written that way, dependencies reach one level: a mount is
   attempted exactly when everything it lists is a mount without `after`.
   */
  lemma BareNamesReachOneLevel(mounts: seq<Mount>, now: seq<nat>, base: set<string>, tasks: seq<Task>, done: set<string>, i: nat)
    requires MountTasks(mounts, |mounts|, now, base, tasks) && LeastFixpoint(base, tasks, done)
    requires i < |mounts| && mounts[i].after.Some?
    requires forall m, n | m in mounts && n in mounts && m.after.Some? && n.after.Some? :: n.unitName + ":" + n.target !in m.after.value
    ensures (forall a | a in mounts[i].after.value :: a in done) <==>
            forall a | a in mounts[i].after.value :: exists j | 0 <= j < |mounts| :: mounts[j].after.None? && mounts[j].target == a
  {
    var late := set t | t in tasks :: t.name;
    assert Closed(base, tasks, base + late);
    assert done <= base + late;
    forall a | a in mounts[i].after.value ensures a in done <==> exists j | 0 <= j < |mounts| :: mounts[j].after.None? && mounts[j].target == a {
      assert mounts[i] in mounts;
      forall t | t in tasks ensures t.name != a {
        assert mounts[t.index] in mounts;
      }
      assert a !in late;
      if j :| 0 <= j < |mounts| && mounts[j].after.None? && mounts[j].target == a {
        assert j in now && a in base;
      }
      if a in base {
        var j :| j in now && j < |mounts| && mounts[j].target == a;
      }
    }
  }
}
