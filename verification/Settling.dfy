/**
 The retain-until-no-progress loop that mounts, unmounts and service starts
 share: in passes over the pending tasks, run every task whose needs are all
 provided, until a pass runs none.
 */
module Settling {
  import opened Common

  /** A pending entry: its position in the input, the name it provides once run, and the names it waits for. */
  datatype Task = Task(index: nat, name: string, needs: seq<string>)

  predicate Enabled(t: Task, done: set<string>) {
    forall n | n in t.needs :: n in done
  }

  ghost predicate Closed(base: set<string>, tasks: seq<Task>, s: set<string>) {
    base <= s && forall t | t in tasks && Enabled(t, s) :: t.name in s
  }

  /** The least set that holds the base and what every enabled task provides. */
  ghost predicate LeastFixpoint(base: set<string>, tasks: seq<Task>, s: set<string>) {
    Closed(base, tasks, s) && forall s' | Closed(base, tasks, s') :: s <= s'
  }

  /** It depends on which tasks there are, not on their order or repetition. */
  lemma FixpointUnique(base: set<string>, tasks: seq<Task>, tasks': seq<Task>, s: set<string>, s': set<string>)
    requires LeastFixpoint(base, tasks, s) && LeastFixpoint(base, tasks', s')
    requires forall t :: t in tasks <==> t in tasks'
    ensures s == s'
  {
    assert Closed(base, tasks, s') && Closed(base, tasks', s);
  }

  /** The names available after running `ran`. */
  ghost function Provided(base: set<string>, ran: seq<Task>): set<string> {
    if ran == [] then base else Provided(base, ran[..|ran| - 1]) + {ran[|ran| - 1].name}
  }

  /** Every task ran after everything it needs. */
  ghost predicate InOrder(base: set<string>, ran: seq<Task>) {
    ran == [] || (InOrder(base, ran[..|ran| - 1]) && Enabled(ran[|ran| - 1], Provided(base, ran[..|ran| - 1])))
  }

  lemma {:induction false} InOrderAt(base: set<string>, ran: seq<Task>, i: nat)
    requires InOrder(base, ran) && i < |ran|
    ensures Enabled(ran[i], Provided(base, ran[..i])) && Enabled(ran[i], Provided(base, ran))
    ensures ran[i].name in Provided(base, ran)
  {
    var n := |ran| - 1;
    if i < n {
      InOrderAt(base, ran[..n], i);
      assert ran[..n][..i] == ran[..i];
    }
  }

  lemma {:induction false} ProvidedIs(base: set<string>, ran: seq<Task>)
    ensures forall n :: n in Provided(base, ran) <==> n in base || exists k | 0 <= k < |ran| :: ran[k].name == n
  {
    if ran != [] {
      var m := |ran| - 1;
      ProvidedIs(base, ran[..m]);
      forall n ensures n in Provided(base, ran) <==> n in base || exists k | 0 <= k < |ran| :: ran[k].name == n {
        if k :| 0 <= k < |ran| && ran[k].name == n {
          assert k < m ==> ran[..m][k].name == n;
        }
        if k :| 0 <= k < m && ran[..m][k].name == n {
          assert ran[k].name == n;
        }
      }
    }
  }

  lemma RanStep(base: set<string>, ran: seq<Task>, t: Task)
    requires InOrder(base, ran) && Enabled(t, Provided(base, ran))
    ensures InOrder(base, ran + [t]) && Provided(base, ran + [t]) == Provided(base, ran) + {t.name}
  {
    assert (ran + [t])[..|ran|] == ran;
  }

  /** Every entry was either run or left, counted. */
  ghost predicate Parted(tasks: seq<Task>, ran: seq<Task>, left: seq<Task>) {
    && |ran| + |left| == |tasks|
    && (forall t | t in tasks :: t in ran || t in left)
    && (forall t | t in ran :: t in tasks) && (forall t | t in left :: t in tasks)
  }

  /** Distinct tasks are each run at most once, and either run or left. */
  lemma PartedOnce(tasks: seq<Task>, ran: seq<Task>, left: seq<Task>)
    requires Parted(tasks, ran, left) && Distinct(tasks)
    ensures Distinct(ran) && Distinct(left) && forall t | t in ran :: t !in left
  {
    var all := ran + left;
    DistinctSize(tasks);
    DistinctSize(all);
    assert Elements(all) == Elements(tasks);
    assert Distinct(all);
    forall i, j | 0 <= i < j < |ran| ensures ran[i] != ran[j] {
      assert all[i] == ran[i] && all[j] == ran[j];
    }
    forall i, j | 0 <= i < j < |left| ensures left[i] != left[j] {
      assert all[|ran| + i] == left[i] && all[|ran| + j] == left[j];
    }
    forall i, j | 0 <= i < |ran| && 0 <= j < |left| ensures ran[i] != left[j] {
      assert all[i] == ran[i] && all[|ran| + j] == left[j];
    }
  }

  /** One pass of retain over `pending`. */
  method Pass(pending: seq<Task>, ran0: seq<Task>, done0: set<string>, ghost base: set<string>, ghost tasks: seq<Task>)
    returns (kept: seq<Task>, ran: seq<Task>, done: set<string>, progress: bool)
    requires InOrder(base, ran0) && done0 == Provided(base, ran0) && Parted(tasks, ran0, pending)
    ensures InOrder(base, ran) && done == Provided(base, ran) && Parted(tasks, ran, kept)
    ensures |kept| <= |pending| && (progress <==> |kept| < |pending|)
    ensures !progress ==> forall t | t in kept :: !Enabled(t, done)
  {
    kept, ran, done, progress := [], ran0, done0, false;
    for i := 0 to |pending|
      invariant InOrder(base, ran) && done == Provided(base, ran) && Parted(tasks, ran, kept + pending[i..])
      invariant |kept| <= i && (progress <==> |kept| < i)
      invariant !progress ==> forall t | t in kept :: !Enabled(t, done)
    {
      var t := pending[i];
      assert pending[i..] == [t] + pending[i + 1..];
      if Enabled(t, done) {
        RanStep(base, ran, t);
        ran := ran + [t];
        done := done + {t.name};
        progress := true;
      } else {
        kept := kept + [t];
      }
    }
  }

  /** All entries, split into those run, all enabled at the end, and those pending, all blocked. */
  ghost predicate Settled(base: set<string>, tasks: seq<Task>, done: set<string>, pending: seq<Task>, ran: seq<Task>) {
    && LeastFixpoint(base, tasks, done)
    && InOrder(base, ran) && done == Provided(base, ran)
    && Parted(tasks, ran, pending)
    && (forall t | t in pending :: !Enabled(t, done))
    && (forall t | t in ran :: Enabled(t, done) && t.name in done)
  }

  method Settle(tasks: seq<Task>, base: set<string>) returns (done: set<string>, pending: seq<Task>, ran: seq<Task>)
    ensures Settled(base, tasks, done, pending, ran)
  {
    done, pending, ran := base, tasks, [];
    var progress := true;
    while progress
      invariant InOrder(base, ran) && done == Provided(base, ran) && Parted(tasks, ran, pending)
      invariant !progress ==> forall t | t in pending :: !Enabled(t, done)
      decreases |pending|, progress
    {
      pending, ran, done, progress := Pass(pending, ran, done, base, tasks);
    }
    Least(base, tasks, pending, ran, done);
    forall t | t in ran ensures Enabled(t, done) && t.name in done {
      var i :| 0 <= i < |ran| && ran[i] == t;
      InOrderAt(base, ran, i);
    }
  }

  lemma Least(base: set<string>, tasks: seq<Task>, pending: seq<Task>, ran: seq<Task>, done: set<string>)
    requires InOrder(base, ran) && done == Provided(base, ran) && Parted(tasks, ran, pending)
    requires forall t | t in pending :: !Enabled(t, done)
    ensures LeastFixpoint(base, tasks, done)
  {
    forall t | t in tasks && Enabled(t, done) ensures t.name in done {
      assert t in multiset(tasks) && t !in multiset(pending);
      assert t in multiset(ran);
      var i :| 0 <= i < |ran| && ran[i] == t;
      InOrderAt(base, ran, i);
    }
    ProvidedGrows(base, ran);
    forall s | Closed(base, tasks, s) ensures done <= s {
      forall t | t in ran ensures t in tasks { assert t in multiset(ran) && t in multiset(tasks); }
      RanWithin(base, tasks, ran, s);
    }
  }

  lemma {:induction false} ProvidedGrows(base: set<string>, ran: seq<Task>)
    ensures base <= Provided(base, ran)
  {
    if ran != [] {
      ProvidedGrows(base, ran[..|ran| - 1]);
    }
  }

  lemma {:induction false} RanWithin(base: set<string>, tasks: seq<Task>, ran: seq<Task>, s: set<string>)
    requires InOrder(base, ran) && Closed(base, tasks, s) && forall t | t in ran :: t in tasks
    ensures Provided(base, ran) <= s
  {
    if ran != [] {
      var n := |ran| - 1;
      RanWithin(base, tasks, ran[..n], s);
      assert ran[n] in tasks && Enabled(ran[n], s);
    }
  }

  /** The positions of a trace: those handled at once, then those of the entries run. */
  lemma TaskTraced(ran: seq<Task>, now: seq<nat>, trace: seq<nat>)
    requires trace == now + seq(|ran|, k requires 0 <= k < |ran| => ran[k].index)
    ensures forall i :: i in trace <==> i in now || exists t | t in ran :: t.index == i
  {
    forall t | t in ran ensures t.index in trace {
      var k :| 0 <= k < |ran| && ran[k] == t;
      assert trace[|now| + k] == t.index;
    }
    forall i | i in now ensures i in trace {
      var k :| 0 <= k < |now| && now[k] == i;
      assert trace[k] == i;
    }
    forall i | i in trace ensures i in now || exists t | t in ran :: t.index == i {
      var k :| 0 <= k < |trace| && trace[k] == i;
      if k >= |now| { assert ran[k - |now|] in ran; }
    }
  }
}
