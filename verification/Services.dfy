/**
 The dependency-ordered start loop of start_all (crates/services/src/services.rs):
 which of the active services are started, in what order, and which are reported
 as unresolved.
 */
module Services {
  import opened Common
  import opened Settling

  /** An active service; `startOn` services are left to their triggers, `running` ones are not started again. */
  datatype Service = Service(name: string, after: Option<seq<string>>, startOn: bool, running: bool)

  ghost predicate Immediate(s: Service) {
    s.after.None? && !s.startOn
  }

  /** What the first loop leaves: the services started at once, the names taken as started, and the pending ones. */
  ghost predicate Gathered(services: seq<Service>, n: nat, now: seq<nat>, base: set<string>, tasks: seq<Task>)
    requires n <= |services|
  {
    && (forall i :: i in now <==> 0 <= i < n && Immediate(services[i]))
    && (forall x :: x in base <==> exists i | 0 <= i < n :: services[i].name == x && (Immediate(services[i]) || (services[i].startOn && services[i].running)))
    && (forall t | t in tasks :: t.index < n && services[t.index].after.Some? && !services[t.index].startOn
          && t == Task(t.index, services[t.index].name, services[t.index].after.value))
    && (forall i | 0 <= i < n && services[i].after.Some? && !services[i].startOn ::
          Task(i, services[i].name, services[i].after.value) in tasks)
    && Distinct(now) && Distinct(tasks)
  }

  /** What is considered started when the loop is at position p of the trace. */
  ghost predicate StartedBefore(services: seq<Service>, trace: seq<nat>, p: nat, name: string)
    requires p <= |trace|
  {
    || (exists i | 0 <= i < |services| :: services[i].startOn && services[i].running && services[i].name == name)
    || (exists q | 0 <= q < p :: trace[q] < |services| && services[trace[q]].name == name)
  }

  ghost predicate AftersFirst(services: seq<Service>, trace: seq<nat>) {
    forall p, a | 0 <= p < |trace| && trace[p] < |services| && services[trace[p]].after.Some? && a in services[trace[p]].after.value ::
      StartedBefore(services, trace, p, a)
  }

  /** The services whose start was actually asked for: those of the trace not already running. */
  function StartCalls(services: seq<Service>, trace: seq<nat>): seq<nat> {
    if trace == [] then []
    else
      var init := StartCalls(services, trace[..|trace| - 1]);
      var i := trace[|trace| - 1];
      if i < |services| && !services[i].running then init + [i] else init
  }

  /** One of the trace is asked to start exactly when it does not run, once, and in the order of the trace. */
  ghost predicate CallsOf(services: seq<Service>, trace: seq<nat>, calls: seq<nat>) {
    && Distinct(calls)
    && (forall i :: i in calls <==> i in trace && i < |services| && !services[i].running)
    && forall a, b | 0 <= a < b < |calls| :: Earlier(trace, calls[a], calls[b])
  }

  ghost predicate Earlier(trace: seq<nat>, i: nat, j: nat) {
    exists p, q :: 0 <= p < q < |trace| && trace[p] == i && trace[q] == j
  }

  lemma {:induction false} CallsAre(services: seq<Service>, trace: seq<nat>)
    requires Distinct(trace)
    ensures CallsOf(services, trace, StartCalls(services, trace))
  {
    if trace != [] {
      var n := |trace| - 1;
      var init, last := StartCalls(services, trace[..n]), trace[n];
      CallsAre(services, trace[..n]);
      assert trace == trace[..n] + [last];
      assert last !in trace[..n];
      var calls := StartCalls(services, trace);
      forall a, b | 0 <= a < b < |calls| ensures Earlier(trace, calls[a], calls[b]) {
        if b < |init| {
          assert Earlier(trace[..n], init[a], init[b]);
          var p, q :| 0 <= p < q < n && trace[..n][p] == init[a] && trace[..n][q] == init[b];
          assert trace[p] == calls[a] && trace[q] == calls[b];
        } else {
          assert init[a] in trace[..n];
          var p :| 0 <= p < n && trace[..n][p] == init[a];
          assert trace[p] == calls[a] && trace[n] == calls[b];
        }
      }
    }
  }

  /** A service is asked only after each name it waits for is that of a running service or of one asked before. */
  ghost predicate AskedFirst(services: seq<Service>, calls: seq<nat>) {
    forall q, a | 0 <= q < |calls| && calls[q] < |services| && services[calls[q]].after.Some? && a in services[calls[q]].after.value ::
      AskedBefore(services, calls, q, a)
  }

  ghost predicate AskedBefore(services: seq<Service>, calls: seq<nat>, q: nat, name: string)
    requires q <= |calls|
  {
    exists j | 0 <= j < |services| :: services[j].name == name && (services[j].running || j in calls[..q])
  }

  lemma CallsOrdered(services: seq<Service>, trace: seq<nat>, calls: seq<nat>)
    requires Distinct(trace) && CallsOf(services, trace, calls) && AftersFirst(services, trace)
    ensures AskedFirst(services, calls)
  {
    forall q, a | 0 <= q < |calls| && calls[q] < |services| && services[calls[q]].after.Some? && a in services[calls[q]].after.value
      ensures AskedBefore(services, calls, q, a)
    {
      assert calls[q] in trace;
      var p :| 0 <= p < |trace| && trace[p] == calls[q];
      assert StartedBefore(services, trace, p, a);
      if r :| 0 <= r < p && trace[r] < |services| && services[trace[r]].name == a {
        if !services[trace[r]].running {
          CalledBefore(services, trace, calls, r, p, q);
        }
      }
    }
  }

  /** Of two that are asked, the earlier in the trace is asked first. */
  lemma CalledBefore(services: seq<Service>, trace: seq<nat>, calls: seq<nat>, r: nat, p: nat, q: nat)
    requires Distinct(trace) && CallsOf(services, trace, calls) && r < p < |trace| && q < |calls| && calls[q] == trace[p]
    requires trace[r] < |services| && !services[trace[r]].running
    ensures trace[r] in calls[..q]
  {
    assert trace[r] in calls;
    var b :| 0 <= b < |calls| && calls[b] == trace[r];
    assert b > q ==> Earlier(trace, calls[q], calls[b]);
    assert b < q;
    assert calls[..q][b] == trace[r];
  }

  /**
   start_all: `succeeds` says whether the start of a service without
   dependencies succeeds; a failure there ends the call. The services handled
   are those the least fixpoint enables, and the unresolved ones are the rest.
   */
  method StartAll(services: seq<Service>, succeeds: nat -> bool)
    returns (ok: bool, calls: seq<nat>, unresolved: seq<Task>, ghost trace: seq<nat>, ghost base: set<string>, ghost tasks: seq<Task>, ghost started: set<string>)
    ensures CallsOf(services, trace, calls) && AskedFirst(services, calls)
    ensures Distinct(trace) && AftersFirst(services, trace) && forall i | i in trace :: i < |services| && !services[i].startOn
    ensures ok <==> forall i | 0 <= i < |services| && Immediate(services[i]) && !services[i].running :: succeeds(i)
    ensures ok ==> (exists now :: Gathered(services, |services|, now, base, tasks)) && LeastFixpoint(base, tasks, started)
    ensures ok ==> forall i | 0 <= i < |services| && !services[i].startOn ::
              i in trace <==> services[i].after.None? || forall a | a in services[i].after.value :: a in started
    ensures ok ==> forall i | 0 <= i < |services| && !services[i].startOn ::
              i !in trace <==> exists t | t in unresolved :: t.index == i
    ensures ok ==> forall i | 0 <= i < |services| && !services[i].startOn && !services[i].running ::
              i in calls <==> services[i].after.None? || forall a | a in services[i].after.value :: a in started
  {
    var now, begun, pending;
    ok, calls, now, begun, pending := Gather(services, succeeds);
    unresolved, trace, base, tasks, started := [], now, begun, pending, {};
    if ok {
      var ran;
      begun, pending, ran := Settle(pending, begun);
      started, unresolved := begun, pending;
      trace := now + seq(|ran|, k requires 0 <= k < |ran| => ran[k].index);
      calls := RecordCalls(services, calls, now, ran);
      TraceOnce(services, now, base, tasks, started, unresolved, ran, trace);
      TraceIs(services, now, base, tasks, started, unresolved, ran, trace);
      TraceOrdered(services, now, base, tasks, started, unresolved, ran, trace);
    }
    CallsAre(services, trace);
    CallsOrdered(services, trace, calls);
  }

  lemma GatheredNow(services: seq<Service>, i: nat, now: seq<nat>, base: set<string>, tasks: seq<Task>)
    requires i < |services| && Gathered(services, i, now, base, tasks) && Immediate(services[i])
    ensures Distinct(now + [i]) && forall j | j in now + [i] :: j < |services| && Immediate(services[j])
    ensures Gathered(services, i + 1, now + [i], base + {services[i].name}, tasks)
  {
    forall j | 0 <= j < |now| ensures now[j] < i {
      assert now[j] in now;
    }
  }

  lemma GatheredPending(services: seq<Service>, i: nat, now: seq<nat>, base: set<string>, tasks: seq<Task>)
    requires i < |services| && Gathered(services, i, now, base, tasks) && services[i].after.Some? && !services[i].startOn
    ensures Gathered(services, i + 1, now, base, tasks + [Task(i, services[i].name, services[i].after.value)])
  {
    forall k | 0 <= k < |tasks| ensures tasks[k].index < i {
      assert tasks[k] in tasks;
    }
  }

  lemma GatheredTriggered(services: seq<Service>, i: nat, now: seq<nat>, base: set<string>, tasks: seq<Task>)
    requires i < |services| && Gathered(services, i, now, base, tasks) && services[i].startOn
    ensures Gathered(services, i + 1, now, if services[i].running then base + {services[i].name} else base, tasks)
  {
  }

  /** The first loop: start what has no dependencies, note what runs, queue the rest. */
  method Gather(services: seq<Service>, succeeds: nat -> bool)
    returns (ok: bool, calls: seq<nat>, now: seq<nat>, begun: set<string>, pending: seq<Task>)
    ensures calls == StartCalls(services, now)
    ensures Distinct(now) && forall i | i in now :: i < |services| && Immediate(services[i])
    ensures ok <==> forall i | 0 <= i < |services| && Immediate(services[i]) && !services[i].running :: succeeds(i)
    ensures ok ==> Gathered(services, |services|, now, begun, pending)
  {
    calls, now, begun, pending := [], [], {}, [];
    for i := 0 to |services|
      invariant Gathered(services, i, now, begun, pending)
      invariant calls == StartCalls(services, now)
      invariant forall j | 0 <= j < i && Immediate(services[j]) && !services[j].running :: succeeds(j)
    {
      var s := services[i];
      if s.startOn {
        GatheredTriggered(services, i, now, begun, pending);
        if s.running {
          begun := begun + {s.name};
        }
      } else if s.after.Some? {
        GatheredPending(services, i, now, begun, pending);
        pending := pending + [Task(i, s.name, s.after.value)];
      } else {
        GatheredNow(services, i, now, begun, pending);
        assert (now + [i])[..|now|] == now;
        now := now + [i];
        if !s.running {
          calls := calls + [i];
          if !succeeds(i) {
            return false, calls, now, begun, pending;
          }
        }
        begun := begun + {s.name};
      }
    }
    return true, calls, now, begun, pending;
  }

  /** The start requests of the dependent services, in the order they were run. */
  method RecordCalls(services: seq<Service>, before: seq<nat>, ghost now: seq<nat>, ran: seq<Task>) returns (calls: seq<nat>)
    requires before == StartCalls(services, now)
    ensures calls == StartCalls(services, now + seq(|ran|, k requires 0 <= k < |ran| => ran[k].index))
  {
    calls := before;
    ghost var trace := now;
    for k := 0 to |ran|
      invariant trace == now + seq(k, j requires 0 <= j < k => ran[j].index)
      invariant calls == StartCalls(services, trace)
    {
      ghost var longer := trace + [ran[k].index];
      assert longer[..|longer| - 1] == trace;
      trace := longer;
      if ran[k].index < |services| && !services[ran[k].index].running {
        calls := calls + [ran[k].index];
      }
    }
  }

  lemma TraceOnce(services: seq<Service>, now: seq<nat>, base: set<string>, tasks: seq<Task>, started: set<string>,
                  unresolved: seq<Task>, ran: seq<Task>, trace: seq<nat>)
    requires Gathered(services, |services|, now, base, tasks) && Settled(base, tasks, started, unresolved, ran)
    requires trace == now + seq(|ran|, k requires 0 <= k < |ran| => ran[k].index)
    ensures Distinct(trace) && forall i | i in trace :: i < |services| && !services[i].startOn
  {
    PartedOnce(tasks, ran, unresolved);
    forall p | 0 <= p < |trace| ensures trace[p] < |services| && !services[trace[p]].startOn {
      if p >= |now| { assert ran[p - |now|] in tasks; } else { assert now[p] in now; }
    }
    forall p, q | 0 <= p < q < |trace| ensures trace[p] != trace[q] {
      if q >= |now| {
        assert ran[q - |now|] in tasks;
        if p >= |now| { assert ran[p - |now|] in tasks; } else { assert now[p] in now; }
      }
    }
  }

  lemma TraceIs(services: seq<Service>, now: seq<nat>, base: set<string>, tasks: seq<Task>, started: set<string>,
                unresolved: seq<Task>, ran: seq<Task>, trace: seq<nat>)
    requires Gathered(services, |services|, now, base, tasks) && Settled(base, tasks, started, unresolved, ran)
    requires trace == now + seq(|ran|, k requires 0 <= k < |ran| => ran[k].index)
    ensures forall i | 0 <= i < |services| && !services[i].startOn ::
              i in trace <==> services[i].after.None? || forall a | a in services[i].after.value :: a in started
    ensures forall i | 0 <= i < |services| && !services[i].startOn ::
              i !in trace <==> exists t | t in unresolved :: t.index == i
  {
    PartedOnce(tasks, ran, unresolved);
    TaskTraced(ran, now, trace);
    forall i | 0 <= i < |services| && !services[i].startOn
      ensures i in trace <==> services[i].after.None? || forall a | a in services[i].after.value :: a in started
      ensures i !in trace <==> exists t | t in unresolved :: t.index == i
    {
      if services[i].after.Some? {
        var t := Task(i, services[i].name, services[i].after.value);
        assert t in ran || t in unresolved;
        assert forall t' | t' in tasks && t'.index == i :: t' == t;
      } else {
        assert i in now;
        assert forall t | t in tasks :: t.index != i;
      }
    }
  }

  lemma TraceOrdered(services: seq<Service>, now: seq<nat>, base: set<string>, tasks: seq<Task>, started: set<string>,
                     unresolved: seq<Task>, ran: seq<Task>, trace: seq<nat>)
    requires Gathered(services, |services|, now, base, tasks) && Settled(base, tasks, started, unresolved, ran)
    requires trace == now + seq(|ran|, k requires 0 <= k < |ran| => ran[k].index)
    ensures AftersFirst(services, trace)
  {
    forall p | 0 <= p < |now| ensures trace[p] < |services| && services[trace[p]].after.None? {
      assert now[p] in now;
    }
    forall p, a | 0 <= p < |trace| && trace[p] < |services| && services[trace[p]].after.Some? && a in services[trace[p]].after.value
      ensures StartedBefore(services, trace, p, a)
    {
      var k := p - |now|;
      assert ran[k] in tasks && a in ran[k].needs;
      InOrderAt(base, ran, k);
      ProvidedIs(base, ran[..k]);
      if j :| 0 <= j < k && ran[..k][j].name == a {
        assert ran[j] in tasks && trace[|now| + j] == ran[j].index;
      } else {
        var i :| 0 <= i < |services| && services[i].name == a && (Immediate(services[i]) || (services[i].startOn && services[i].running));
        if Immediate(services[i]) {
          var q :| 0 <= q < |now| && now[q] == i;
          assert trace[q] == i;
        }
      }
    }
  }
}
