/**
 The login rate limiter of PamHandle (crates/core/src/user.rs). The clock and the
 password check are parameters: each call is given the time it reads in
 check_lockout and the time it reads in record_failure. What the table must say
 is stated over the run of all attempts made on the handle.
 */
module Lockout {
  import opened Common

  datatype PamError = UserNotFound | AccountLocked | AuthenticationFailed | MaxRetriesExceeded

  datatype LockoutState = LockoutState(failedAttempts: nat, lastFailure: Option<nat>)

  datatype PamConfig = PamConfig(maxRetries: nat, lockoutDuration: nat)

  /** What the tables say of a name: whether a user and a shadow entry exist, and the entry's hash. */
  datatype Account = Account(known: bool, shadow: Option<string>)

  /** What does not change over a run. */
  datatype World = World(config: PamConfig, accounts: string -> Account, verify: (string, string) -> bool)

  /** Empty, "!" and "*" hashes lock the account. */
  predicate IsLocked(hash: string) {
    hash == "" || hash[0] == '!' || hash[0] == '*'
  }

  /** One call: its name, its password and the two clock readings it makes. */
  datatype Attempt = Attempt(username: string, password: string, checkedAt: nat, recordedAt: nat)

  function Elapsed(since: nat, now: nat): nat {
    if now < since then 0 else now - since
  }

  // ---- runs, without a table ----

  ghost predicate CanLogIn(w: World, username: string) {
    var account := w.accounts(username);
    account.known && account.shadow.Some? && !IsLocked(account.shadow.value)
  }

  ghost predicate Verifies(w: World, a: Attempt) {
    var account := w.accounts(a.username);
    account.shadow.Some? && w.verify(a.password, account.shadow.value)
  }

  /** With these failures so far a user is refused: enough of them, and the last less than the duration ago. */
  ghost predicate TooMany(w: World, run: seq<Attempt>, fs: seq<nat>, now: nat)
    requires forall k | 0 <= k < |fs| :: fs[k] < |run|
  {
    && fs != [] && |fs| >= w.config.maxRetries
    && Elapsed(run[fs[|fs| - 1]].recordedAt, now) < w.config.lockoutDuration
  }

  /** The positions among the first n at which a password of this user was checked and failed, since one was last accepted. */
  ghost function Failures(w: World, run: seq<Attempt>, name: string, n: nat): (fs: seq<nat>)
    requires n <= |run|
    ensures forall k | 0 <= k < |fs| :: fs[k] < n
  {
    if n == 0 then []
    else
      var fs, a := Failures(w, run, name, n - 1), run[n - 1];
      if a.username != name || TooMany(w, run, fs, a.checkedAt) || !CanLogIn(w, name) then fs
      else if Verifies(w, a) then []
      else fs + [n - 1]
  }

  ghost predicate LockedOut(w: World, run: seq<Attempt>, name: string, now: nat) {
    TooMany(w, run, Failures(w, run, name, |run|), now)
  }

  /**
   Locked out means at least `max_retries` failures since the last success, at
   least one, and the last of them less than the duration ago: with fewer, or a
   lockout later, an attempt is admitted.
   */
  lemma LockedOutIff(w: World, run: seq<Attempt>, name: string, now: nat)
    ensures var fs := Failures(w, run, name, |run|);
            LockedOut(w, run, name, now) <==>
              && |fs| >= 1 && |fs| >= w.config.maxRetries && w.config.lockoutDuration > 0
              && now < run[fs[|fs| - 1]].recordedAt + w.config.lockoutDuration
  {
  }

  /** Attempt i gets as far as its password. */
  ghost predicate CheckedAt(w: World, run: seq<Attempt>, name: string, i: nat)
    requires i < |run|
  {
    run[i].username == name && CanLogIn(w, name) && !TooMany(w, run, Failures(w, run, name, i), run[i].checkedAt)
  }

  ghost predicate FailedAt(w: World, run: seq<Attempt>, name: string, i: nat)
    requires i < |run|
  {
    CheckedAt(w, run, name, i) && !Verifies(w, run[i])
  }

  ghost predicate SucceededAt(w: World, run: seq<Attempt>, name: string, i: nat)
    requires i < |run|
  {
    CheckedAt(w, run, name, i) && Verifies(w, run[i])
  }

  /** Exactly the failures not followed by a success are listed. */
  lemma {:induction false} FailureListedIff(w: World, run: seq<Attempt>, name: string, n: nat, i: nat)
    requires i < n <= |run|
    ensures i in Failures(w, run, name, n) <==>
              FailedAt(w, run, name, i) && forall j | i < j < n :: !SucceededAt(w, run, name, j)
    decreases n
  {
    var fs := Failures(w, run, name, n - 1);
    assert Failures(w, run, name, n) ==
             if SucceededAt(w, run, name, n - 1) then [] else if FailedAt(w, run, name, n - 1) then fs + [n - 1] else fs;
    if i < n - 1 {
      FailureListedIff(w, run, name, n - 1, i);
    } else {
      assert i !in fs;
    }
  }

  /** They are listed in order. */
  lemma {:induction false} FailureAt(w: World, run: seq<Attempt>, name: string, n: nat, k: nat)
    requires n <= |run| && k < |Failures(w, run, name, n)|
    ensures var fs := Failures(w, run, name, n);
            fs[k] < n && FailedAt(w, run, name, fs[k]) && (k > 0 ==> fs[k - 1] < fs[k])
  {
    var before := Failures(w, run, name, n - 1);
    if k < |before| {
      FailureAt(w, run, name, n - 1, k);
    } else if k > 0 {
      FailureAt(w, run, name, n - 1, k - 1);
    }
  }

  lemma {:induction false} LaterAttemptsDoNotMatter(w: World, run: seq<Attempt>, a: Attempt, name: string, n: nat)
    requires n <= |run|
    ensures Failures(w, run + [a], name, n) == Failures(w, run, name, n)
  {
    if n > 0 {
      LaterAttemptsDoNotMatter(w, run, a, name, n - 1);
      assert (run + [a])[n - 1] == run[n - 1];
      assert forall i | 0 <= i < n :: (run + [a])[i] == run[i];
    }
  }

  // ---- the table ----

  ghost function StateOf(table: map<string, LockoutState>, name: string): Option<LockoutState> {
    if name in table then Some(table[name]) else None
  }

  /** The entry that these failures leave: their number and the time of the last. */
  ghost function CountedIn(run: seq<Attempt>, fs: seq<nat>): Option<LockoutState>
    requires forall k | 0 <= k < |fs| :: fs[k] < |run|
  {
    if fs == [] then None else Some(LockoutState(|fs|, Some(run[fs[|fs| - 1]].recordedAt)))
  }

  /** The entry of this user agrees with the run. */
  ghost predicate Agrees(w: World, run: seq<Attempt>, table: map<string, LockoutState>, name: string) {
    StateOf(table, name) == CountedIn(run, Failures(w, run, name, |run|))
  }

  lemma AgreesStep(w: World, run: seq<Attempt>, a: Attempt, table: map<string, LockoutState>, name: string)
    requires Agrees(w, run, table, name)
    ensures var fs := Failures(w, run, name, |run|);
            && CountedIn(run + [a], fs) == StateOf(table, name)
            && Failures(w, run + [a], name, |run| + 1) ==
                 if a.username != name || LockedOut(w, run, name, a.checkedAt) || !CanLogIn(w, name) then fs
                 else if Verifies(w, a) then [] else fs + [|run|]
  {
    LaterAttemptsDoNotMatter(w, run, a, name, |run|);
  }

  class PamHandle {
    const world: World
    var lockouts: map<string, LockoutState>
    ghost var run: seq<Attempt>

    /** The table holds what the run so far has left. */
    ghost predicate Valid() reads this {
      forall name :: Agrees(world, run, lockouts, name)
    }

    constructor (world: World)
      ensures Valid() && this.world == world && run == []
    {
      this.world := world;
      lockouts := map[];
      run := [];
    }

    /** Err(MaxRetriesExceeded) exactly for those that the run has locked out. */
    method CheckLockout(username: string, now: nat) returns (ok: bool)
      requires Valid()
      ensures ok <==> !LockedOut(world, run, username, now)
    {
      assert Agrees(world, run, lockouts, username);
      if username in lockouts {
        var state := lockouts[username];
        if state.failedAttempts >= world.config.maxRetries {
          if state.lastFailure.Some? {
            if Elapsed(state.lastFailure.value, now) < world.config.lockoutDuration {
              return false;
            }
          }
        }
      }
      return true;
    }

    /** The table takes the failure of attempt `a` in. */
    method RecordFailure(ghost a: Attempt, username: string, now: nat)
      requires Valid() && username == a.username && now == a.recordedAt
      requires CanLogIn(world, username) && !LockedOut(world, run, username, a.checkedAt) && !Verifies(world, a)
      modifies this`lockouts
      ensures forall name :: Agrees(world, run + [a], lockouts, name)
    {
      ghost var before := lockouts;
      var state := if username in lockouts then lockouts[username] else LockoutState(0, None);
      lockouts := lockouts[username := LockoutState(state.failedAttempts + 1, Some(now))];
      forall name ensures Agrees(world, run + [a], lockouts, name) {
        AgreesStep(world, run, a, before, name);
      }
    }

    /** The table forgets the user after the success of attempt `a`. */
    method ClearLockout(ghost a: Attempt, username: string)
      requires Valid() && username == a.username
      requires CanLogIn(world, username) && !LockedOut(world, run, username, a.checkedAt) && Verifies(world, a)
      modifies this`lockouts
      ensures forall name :: Agrees(world, run + [a], lockouts, name)
    {
      ghost var before := lockouts;
      lockouts := lockouts - {username};
      forall name ensures Agrees(world, run + [a], lockouts, name) {
        AgreesStep(world, run, a, before, name);
      }
    }

    /** pam_authenticate: None on success. */
    method Authenticate(a: Attempt) returns (error: Option<PamError>)
      requires Valid()
      modifies this
      ensures Valid() && run == old(run) + [a]
      ensures error == Some(MaxRetriesExceeded) <==> LockedOut(world, old(run), a.username, a.checkedAt)
      ensures error == Some(AuthenticationFailed) <==> FailedAt(world, run, a.username, |run| - 1)
      ensures error == None <==> SucceededAt(world, run, a.username, |run| - 1)
      ensures error == Some(UserNotFound) <==>
                !LockedOut(world, old(run), a.username, a.checkedAt)
                && (!world.accounts(a.username).known || world.accounts(a.username).shadow.None?)
      ensures error == Some(AccountLocked) <==>
                && !LockedOut(world, old(run), a.username, a.checkedAt)
                && world.accounts(a.username).known && world.accounts(a.username).shadow.Some?
                && var hash := world.accounts(a.username).shadow.value; hash == "" || hash[0] == '!' || hash[0] == '*'
    {
      ghost var before := lockouts;
      LaterAttemptsDoNotMatter(world, run, a, a.username, |run|);
      forall name ensures !CanLogIn(world, a.username) || LockedOut(world, run, a.username, a.checkedAt) ==> Agrees(world, run + [a], lockouts, name) {
        assert Agrees(world, run, lockouts, name);
        AgreesStep(world, run, a, lockouts, name);
      }
      var ok := CheckLockout(a.username, a.checkedAt);
      if !ok {
        run := run + [a];
        return Some(MaxRetriesExceeded);
      }
      var account := world.accounts(a.username);
      if !account.known {
        run := run + [a];
        return Some(UserNotFound);
      }
      if account.shadow.None? {
        run := run + [a];
        return Some(UserNotFound);
      }
      var hash := account.shadow.value;
      if IsLocked(hash) {
        run := run + [a];
        return Some(AccountLocked);
      }
      if !world.verify(a.password, hash) {
        RecordFailure(a, a.username, a.recordedAt);
        run := run + [a];
        return Some(AuthenticationFailed);
      }
      ClearLockout(a, a.username);
      run := run + [a];
      return None;
    }
  }

  // ---- how far apart failures are ----

  /** Clock readings never go back. */
  ghost predicate Timed(run: seq<Attempt>) {
    && (forall i | 0 <= i < |run| :: run[i].checkedAt <= run[i].recordedAt)
    && forall i, j | 0 <= i < j < |run| :: run[i].recordedAt <= run[j].checkedAt
  }

  function Threshold(config: PamConfig): nat {
    if config.maxRetries == 0 then 1 else config.maxRetries
  }

  /** The failures before and at position k of the list are a lockout apart. */
  ghost predicate Gap(config: PamConfig, run: seq<Attempt>, fs: seq<nat>, k: nat) {
    0 < k < |fs| && fs[k] < |run| && fs[k - 1] < |run| ==> run[fs[k]].checkedAt >= run[fs[k - 1]].recordedAt + config.lockoutDuration
  }

  lemma LastGap(w: World, run: seq<Attempt>, name: string, n: nat)
    requires n < |run| && Timed(run) && FailedAt(w, run, name, n)
    requires Threshold(w.config) <= |Failures(w, run, name, n)|
    ensures Gap(w.config, run, Failures(w, run, name, n + 1), |Failures(w, run, name, n)|)
  {
    var before := Failures(w, run, name, n);
    FailureAt(w, run, name, n, |before| - 1);
    var last := before[|before| - 1];
    assert run[last].recordedAt <= run[n].checkedAt;
    assert Elapsed(run[last].recordedAt, run[n].checkedAt) >= w.config.lockoutDuration;
  }

  /**
   Once `max_retries` checks (at least one) have failed since the last success,
   every further failing check comes at least the lockout duration after the
   failure before it.
   */
  lemma {:induction false} FailuresAreSpaced(w: World, run: seq<Attempt>, name: string, n: nat, k: nat)
    requires n <= |run| && Timed(run) && Threshold(w.config) <= k
    ensures Gap(w.config, run, Failures(w, run, name, n), k)
  {
    if n > 0 {
      FailuresAreSpaced(w, run, name, n - 1, k);
      if FailedAt(w, run, name, n - 1) && k == |Failures(w, run, name, n - 1)| {
        LastGap(w, run, name, n - 1);
      }
    }
  }

  ghost predicate Later(times: seq<nat>, k: nat, gap: nat) {
    0 < k < |times| ==> times[k] >= times[k - 1] + gap
  }

  lemma MulStep(n: int, d: int)
    ensures (n + 1) * d == n * d + d
  {
  }

  /** Times that never go back and are `gap` apart from the m-th on. */
  lemma {:induction false} SpanFrom(times: seq<nat>, m: nat, gap: nat, k: nat)
    requires 0 < m && 0 < k <= |times|
    requires (forall j :: Later(times, j, 0)) && forall j | m <= j :: Later(times, j, gap)
    ensures times[k - 1] >= times[0] + if k < m then 0 else (k - m) * gap
  {
    if k > 1 {
      SpanFrom(times, m, gap, k - 1);
      assert Later(times, k - 1, 0);
      if k > m {
        assert Later(times, k - 1, gap);
        MulStep(k - 1 - m, gap);
      }
    }
  }

  ghost function Times(run: seq<Attempt>, fs: seq<nat>): seq<nat> {
    seq(|fs|, k requires 0 <= k < |fs| => if fs[k] < |run| then run[fs[k]].recordedAt else 0)
  }

  lemma TimesLater(w: World, run: seq<Attempt>, name: string, k: nat)
    requires Timed(run)
    ensures var times := Times(run, Failures(w, run, name, |run|));
            Later(times, k, 0) && (Threshold(w.config) <= k ==> Later(times, k, w.config.lockoutDuration))
  {
    var fs := Failures(w, run, name, |run|);
    if 0 < k < |fs| {
      FailureAt(w, run, name, |run|, k - 1);
      FailureAt(w, run, name, |run|, k);
      var i, j := fs[k - 1], fs[k];
      assert i < j < |run|;
      assert run[i].recordedAt <= run[j].checkedAt <= run[j].recordedAt;
      if Threshold(w.config) <= k {
        FailuresAreSpaced(w, run, name, |run|, k);
      }
    }
  }

  /** The times of listed failures, from the threshold on a lockout apart. */
  lemma TimesSpan(w: World, run: seq<Attempt>, name: string, times: seq<nat>, m: nat, gap: nat)
    requires Timed(run) && times == Times(run, Failures(w, run, name, |run|))
    requires m == Threshold(w.config) <= |times| && gap == w.config.lockoutDuration
    ensures times[|times| - 1] >= times[0] + (|times| - m) * gap
  {
    forall k: nat ensures Later(times, k, 0) && (m <= k ==> Later(times, k, gap)) {
      TimesLater(w, run, name, k);
    }
    SpanFrom(times, m, gap, |times|);
  }

  /** n failures of a user without a success between them span at least (n - max(1, max_retries)) lockout durations. */
  lemma FailuresSpan(w: World, run: seq<Attempt>, name: string)
    requires Timed(run) && Threshold(w.config) <= |Failures(w, run, name, |run|)|
    ensures var fs := Failures(w, run, name, |run|);
            run[fs[|fs| - 1]].recordedAt >= run[fs[0]].recordedAt + (|fs| - Threshold(w.config)) * w.config.lockoutDuration
  {
    var fs := Failures(w, run, name, |run|);
    TimesSpan(w, run, name, Times(run, fs), Threshold(w.config), w.config.lockoutDuration);
  }
}
