/**
 The command queue of crates/core/src/runtime.rs: sends, and flushes of one
 context at a time. A handler is known by the commands it sends while it runs:
 a script gives those of each invocation in turn, and none once it is used up.
 */
module RuntimeQueue {
  import opened Common

  datatype Dispatch = Dispatch(runtimeId: string, action: string, payload: string, contextId: nat)

  datatype Command = Send(dispatch: Dispatch) | RegisterScopes(contextId: nat) | Stop

  /** What became of a dispatch taken from the queue. */
  datatype Fate = Handled | Skipped | Unregistered | Refused

  datatype Event = Event(dispatch: Dispatch, fate: Fate)

  /** The engine, with the commands accepted and the dispatches taken so far. */
  datatype Engine = Engine(queue: seq<Dispatch>, runtimes: set<string>, contexts: set<nat>, stopped: bool,
                           accepted: seq<Command>, taken: seq<Event>)

  type Script = seq<seq<Command>>

  function Sent(e: Engine, command: Command): Engine {
    if e.stopped then e
    else
      var e' := e.(accepted := e.accepted + [command]);
      match command
      case RegisterScopes(c) => e'.(contexts := e.contexts + {c})
      case Stop => e'.(stopped := true, queue := [])
      case Send(d) => e'.(queue := e.queue + [d])
  }

  function SentAll(e: Engine, commands: seq<Command>): Engine {
    if commands == [] then e else Sent(SentAll(e, commands[..|commands| - 1]), commands[|commands| - 1])
  }

  /** Where the first dispatch of a context is, or the length of the queue. */
  function Position(queue: seq<Dispatch>, c: nat): (i: nat)
    ensures i <= |queue| && (i < |queue| ==> queue[i].contextId == c) && forall j | 0 <= j < i :: queue[j].contextId != c
  {
    if queue == [] || queue[0].contextId == c then 0 else 1 + Position(queue[1..], c)
  }

  function Removed(queue: seq<Dispatch>, i: nat): seq<Dispatch>
    requires i < |queue|
  {
    queue[..i] + queue[i + 1..]
  }

  function Took(e: Engine, d: Dispatch, fate: Fate): Engine {
    e.(taken := e.taken + [Event(d, fate)])
  }

  /** One pass of the flush loop, up to the handler's return; the flag says whether the loop goes on. */
  datatype Progress = Done | Failed | More(script: Script)

  function FlushStep(e: Engine, c: nat, script: Script): (r: (Engine, Progress)) {
    var i := Position(e.queue, c);
    if i == |e.queue| then (e, Done)
    else
      var d := e.queue[i];
      var e1 := e.(queue := Removed(e.queue, i));
      if e1.stopped then (Took(e1, d, Refused), Failed)
      else if d.runtimeId !in e1.runtimes then (Took(e1, d, Skipped), More(script))
      else
        var e2 := e1.(runtimes := e1.runtimes - {d.runtimeId});
        if d.contextId !in e2.contexts then (Took(e2, d, Unregistered), Failed)
        else
          var e3 := SentAll(Took(e2, d, Handled), if script == [] then [] else script[0]);
          (e3.(runtimes := e3.runtimes + {d.runtimeId}), More(if script == [] then [] else script[1..]))
  }

  lemma StepShrinks(e: Engine, c: nat, script: Script)
    ensures var r := FlushStep(e, c, script);
            r.1.More? ==> |r.1.script| < |script| || (r.1.script == script && |r.0.queue| < |e.queue|)
  {
  }

  /** flush_context: the engine it leaves, and whether it returned Ok. */
  function Flush(e: Engine, c: nat, script: Script): (Engine, bool)
    decreases |script|, |e.queue|
  {
    var (e', p) := FlushStep(e, c, script);
    match p
    case Done => (e', true)
    case Failed => (e', false)
    case More(rest) => StepShrinks(e, c, script); Flush(e', c, rest)
  }

  class RuntimeHandle {
    var queue: seq<Dispatch>
    var runtimes: set<string>
    var contexts: set<nat>
    var stopped: bool
    ghost var accepted: seq<Command>
    ghost var taken: seq<Event>

    ghost function View(): Engine reads this {
      Engine(queue, runtimes, contexts, stopped, accepted, taken)
    }

    /**
     Every context's dispatches leave in the order they came; the accepted commands
     say which contexts are registered and whether it is stopped, and then none is queued.
     */
    ghost predicate Valid() reads this {
      (forall c :: InOrder(View(), c)) && Recorded(View())
    }

    constructor (runtimes: set<string>)
      ensures Valid() && View() == Fresh(runtimes)
    {
      queue, this.runtimes, contexts, stopped := [], runtimes, {}, false;
      accepted, taken := [], [];
    }

    /** A dispatch goes to the end of its context's line and no other's, a stop empties every line; a stopped engine takes nothing. */
    method Send(command: Command) returns (ok: bool)
      modifies this
      ensures View() == Sent(old(View()), command) && ok == !old(stopped)
      ensures old(Valid()) ==> Valid()
      ensures !ok ==> View() == old(View())
      ensures ok && command.Stop? ==> stopped && queue == []
      ensures ok && !command.Stop? ==> !stopped && forall c :: Of(queue, c) == old(Of(queue, c)) + SentTo(command, c)
      ensures ok ==> accepted == old(accepted) + [command]
      ensures forall c :: c in contexts <==> c in old(contexts) || (ok && command == RegisterScopes(c))
    {
      forall c
        ensures InOrder(View(), c) ==> InOrder(Sent(View(), command), c)
        ensures Of(queue + SentTo(command, c), c) == Of(queue, c) + SentTo(command, c) {
        if InOrder(View(), c) {
          SentInOrder(View(), command, c);
        }
        OfConcat(queue, SentTo(command, c), c);
      }
      if stopped {
        return false;
      }
      match command {
        case RegisterScopes(c) => contexts := contexts + {c};
        case Stop =>
          stopped := true;
          queue := [];
        case Send(d) =>
          queue := queue + [d];
      }
      accepted := accepted + [command];
      return true;
    }

    /** A handler that sends these commands. */
    method Handle(commands: seq<Command>)
      modifies this
      ensures View() == SentAll(old(View()), commands)
    {
      assert commands[..0] == [];
      for k := 0 to |commands|
        invariant View() == SentAll(old(View()), commands[..k])
      {
        assert commands[..k + 1][..k] == commands[..k];
        var ok := Send(commands[k]);
      }
      assert commands[..|commands|] == commands;
    }

    /** flush_context: no line is put out of order, and only this context's is drawn from. */
    method FlushContext(c: nat, script: Script) returns (ok: bool)
      requires Valid()
      modifies this
      ensures Valid() && (View(), ok) == Flush(old(View()), c, script)
      ensures FlushMeans(old(View()), c, View(), ok)
    {
      FlushMeant(View(), c, script);
      ok := FlushLoop(c, script);
    }

    /** Its loop. */
    method FlushLoop(c: nat, script: Script) returns (ok: bool)
      modifies this
      ensures (View(), ok) == Flush(old(View()), c, script)
    {
      var rest := script;
      while true
        invariant Flush(View(), c, rest) == Flush(old(View()), c, script)
        decreases |rest|, |queue|
      {
        ghost var before := View();
        StepShrinks(before, c, rest);
        var i := Position(queue, c);
        if i == |queue| {
          return true;
        }
        var d := queue[i];
        queue := queue[..i] + queue[i + 1..];
        if stopped {
          taken := taken + [Event(d, Refused)];
          return false;
        }
        if d.runtimeId !in runtimes {
          taken := taken + [Event(d, Skipped)];
          assert View() == FlushStep(before, c, rest).0;
          continue;
        }
        runtimes := runtimes - {d.runtimeId};
        if d.contextId !in contexts {
          taken := taken + [Event(d, Unregistered)];
          return false;
        }
        taken := taken + [Event(d, Handled)];
        Handle(if rest == [] then [] else rest[0]);
        runtimes := runtimes + {d.runtimeId};
        rest := if rest == [] then [] else rest[1..];
      }
    }
  }

  function Fresh(runtimes: set<string>): Engine {
    Engine([], runtimes, {}, false, [], [])
  }

  // ---- order within a context ----

  ghost function Of(s: seq<Dispatch>, c: nat): seq<Dispatch> {
    if s == [] then []
    else Of(s[..|s| - 1], c) + if s[|s| - 1].contextId == c then [s[|s| - 1]] else []
  }

  ghost function Drawn(events: seq<Event>): seq<Dispatch> {
    seq(|events|, i requires 0 <= i < |events| => events[i].dispatch)
  }

  lemma {:induction false} OfConcat(a: seq<Dispatch>, b: seq<Dispatch>, c: nat)
    ensures Of(a + b, c) == Of(a, c) + Of(b, c)
  {
    if b == [] {
      assert a + b == a;
    } else {
      var n := |b| - 1;
      OfConcat(a, b[..n], c);
      assert (a + b)[..|a + b| - 1] == a + b[..n];
      ConcatAssoc(Of(a, c), Of(b[..n], c), if b[n].contextId == c then [b[n]] else []);
    }
  }

  lemma {:induction false} OfNone(s: seq<Dispatch>, c: nat)
    requires forall d | d in s :: d.contextId != c
    ensures Of(s, c) == []
  {
    if s != [] {
      OfNone(s[..|s| - 1], c);
    }
  }

  lemma OfAround(a: seq<Dispatch>, d: Dispatch, b: seq<Dispatch>, c: nat)
    ensures Of(a + [d] + b, c) == Of(a, c) + (if d.contextId == c then [d] else []) + Of(b, c)
    ensures Of(a + b, c) == Of(a, c) + Of(b, c)
  {
    OfConcat(a + [d], b, c);
    OfConcat(a, [d], c);
    OfConcat(a, b, c);
    assert Of([d], c) == if d.contextId == c then [d] else [];
  }

  lemma TakeAround(a: seq<Dispatch>, d: Dispatch, b: seq<Dispatch>, c: nat)
    requires d.contextId == c ==> forall x | x in a :: x.contextId != c
    ensures Of(a + [d] + b, c) == (if d.contextId == c then [d] else []) + Of(a + b, c)
  {
    OfAround(a, d, b, c);
    if d.contextId == c {
      OfNone(a, c);
      assert [] + [d] + Of(b, c) == [d] + Of(b, c) && [] + Of(b, c) == Of(b, c);
    } else {
      assert Of(a, c) + [] + Of(b, c) == Of(a, c) + Of(b, c) == [] + Of(a + b, c);
    }
  }

  /** Taking the first dispatch of a context takes the head of its line and no other's. */
  lemma RemoveFirst(queue: seq<Dispatch>, c: nat, other: nat)
    requires Position(queue, c) < |queue|
    ensures var i := Position(queue, c);
            Of(queue, other) == (if other == c then [queue[i]] else []) + Of(Removed(queue, i), other)
  {
    var i := Position(queue, c);
    assert queue == queue[..i] + [queue[i]] + queue[i + 1..];
    TakeAround(queue[..i], queue[i], queue[i + 1..], other);
  }

  /** While the engine runs: what a context was sent is what was taken for it, then what is still queued. */
  ghost predicate InOrder(e: Engine, c: nat) {
    !e.stopped ==> Line(e.accepted, c) == Of(Drawn(e.taken), c) + Of(e.queue, c)
  }

  /** The dispatches that the commands send to a context. */
  ghost function Line(commands: seq<Command>, c: nat): seq<Dispatch> {
    if commands == [] then [] else Line(commands[..|commands| - 1], c) + SentTo(commands[|commands| - 1], c)
  }

  lemma {:induction false} LineConcat(a: seq<Command>, b: seq<Command>, c: nat)
    ensures Line(a + b, c) == Line(a, c) + Line(b, c)
  {
    if b == [] {
      assert a + b == a;
    } else {
      var n := |b| - 1;
      LineConcat(a, b[..n], c);
      assert (a + b)[..|a + b| - 1] == a + b[..n];
      ConcatAssoc(Line(a, c), Line(b[..n], c), SentTo(b[n], c));
    }
  }

  /** What a command puts in a context's line. */
  ghost function SentTo(command: Command, c: nat): seq<Dispatch> {
    if command.Send? && command.dispatch.contextId == c then [command.dispatch] else []
  }

  lemma SentInOrder(e: Engine, command: Command, c: nat)
    requires InOrder(e, c)
    ensures InOrder(Sent(e, command), c)
  {
    LineConcat(e.accepted, [command], c);
    if command.Send? {
      OfConcat(e.queue, [command.dispatch], c);
    }
  }

  lemma {:induction false} SentAllInOrder(e: Engine, commands: seq<Command>, c: nat)
    requires InOrder(e, c)
    ensures InOrder(SentAll(e, commands), c)
  {
    if commands != [] {
      SentAllInOrder(e, commands[..|commands| - 1], c);
      SentInOrder(SentAll(e, commands[..|commands| - 1]), commands[|commands| - 1], c);
    }
  }

  lemma DrawnPush(events: seq<Event>, event: Event, c: nat)
    ensures Of(Drawn(events + [event]), c) == Of(Drawn(events), c) + if event.dispatch.contextId == c then [event.dispatch] else []
  {
    assert Drawn(events + [event]) == Drawn(events) + [event.dispatch];
    OfConcat(Drawn(events), [event.dispatch], c);
    assert Of([event.dispatch], c) == if event.dispatch.contextId == c then [event.dispatch] else [];
  }

  lemma TookInOrder(e: Engine, c: nat, fate: Fate, other: nat)
    requires InOrder(e, other) && Position(e.queue, c) < |e.queue|
    ensures var i := Position(e.queue, c); InOrder(Took(e.(queue := Removed(e.queue, i)), e.queue[i], fate), other)
  {
    var i := Position(e.queue, c);
    var d := e.queue[i];
    RemoveFirst(e.queue, c, other);
    DrawnPush(e.taken, Event(d, fate), other);
    ConcatAssoc(Of(Drawn(e.taken), other), if d.contextId == other then [d] else [], Of(Removed(e.queue, i), other));
    assert d.contextId == c;
  }

  lemma StepInOrder(e: Engine, c: nat, script: Script, other: nat)
    requires InOrder(e, other)
    ensures InOrder(FlushStep(e, c, script).0, other)
  {
    var i := Position(e.queue, c);
    if i < |e.queue| {
      TookInOrder(e, c, Refused, other);
      TookInOrder(e, c, Skipped, other);
      TookInOrder(e, c, Unregistered, other);
      TookInOrder(e, c, Handled, other);
      var e2 := Took(e.(queue := Removed(e.queue, i), runtimes := e.runtimes - {e.queue[i].runtimeId}), e.queue[i], Handled);
      assert InOrder(e2, other);
      SentAllInOrder(e2, if script == [] then [] else script[0], other);
    }
  }

  lemma {:induction false} FlushInOrder(e: Engine, c: nat, script: Script, other: nat)
    requires InOrder(e, other)
    ensures InOrder(Flush(e, c, script).0, other)
    decreases |script|, |e.queue|
  {
    var (e', p) := FlushStep(e, c, script);
    StepInOrder(e, c, script, other);
    if p.More? {
      StepShrinks(e, c, script);
      FlushInOrder(e', c, p.script, other);
    }
  }

  // ---- what a flush leaves ----

  /** A flush that returns Ok leaves none of its context queued. */
  lemma {:induction false} FlushEmpties(e: Engine, c: nat, script: Script)
    requires Flush(e, c, script).1
    ensures forall d | d in Flush(e, c, script).0.queue :: d.contextId != c
    decreases |script|, |e.queue|
  {
    var (e', p) := FlushStep(e, c, script);
    if p.More? {
      StepShrinks(e, c, script);
      FlushEmpties(e', c, p.script);
    }
  }

  /** What a stretch of sending and flushing may do to another context: queue more behind what it had. */
  ghost predicate OnlyAppends(e: Engine, e': Engine, other: nat) {
    && |e.accepted| <= |e'.accepted| && e'.accepted[..|e.accepted|] == e.accepted
    && (e.stopped ==> e'.stopped)
    && (!e'.stopped ==> Of(e'.queue, other) == Of(e.queue, other) + Line(e'.accepted[|e.accepted|..], other))
    && Of(Drawn(e'.taken), other) == Of(Drawn(e.taken), other)
  }

  lemma AppendsTransitive(a: Engine, b: Engine, c: Engine, other: nat)
    requires OnlyAppends(a, b, other) && OnlyAppends(b, c, other)
    ensures OnlyAppends(a, c, other)
  {
    var m, n := |a.accepted|, |b.accepted|;
    assert c.accepted[..m] == c.accepted[..n][..m];
    assert c.accepted[m..] == b.accepted[m..] + c.accepted[n..];
    LineConcat(b.accepted[m..], c.accepted[n..], other);
    ConcatAssoc(Of(a.queue, other), Line(b.accepted[m..], other), Line(c.accepted[n..], other));
  }

  lemma SentAppends(e: Engine, command: Command, other: nat)
    ensures OnlyAppends(e, Sent(e, command), other)
  {
    assert e.accepted[|e.accepted|..] == [];
    assert (e.accepted + [command])[|e.accepted|..] == [command];
    assert Line([command], other) == SentTo(command, other);
    if command.Send? {
      OfConcat(e.queue, [command.dispatch], other);
    }
  }

  lemma {:induction false} SentAllAppends(e: Engine, commands: seq<Command>, other: nat)
    ensures OnlyAppends(e, SentAll(e, commands), other)
  {
    if commands == [] {
      assert e.accepted[|e.accepted|..] == [];
    } else {
      var mid := SentAll(e, commands[..|commands| - 1]);
      SentAllAppends(e, commands[..|commands| - 1], other);
      SentAppends(mid, commands[|commands| - 1], other);
      AppendsTransitive(e, mid, SentAll(e, commands), other);
    }
  }

  lemma TookAppends(e: Engine, c: nat, fate: Fate, runtimes: set<string>, other: nat)
    requires Position(e.queue, c) < |e.queue| && other != c
    ensures var i := Position(e.queue, c); OnlyAppends(e, Took(e.(queue := Removed(e.queue, i), runtimes := runtimes), e.queue[i], fate), other)
  {
    var i := Position(e.queue, c);
    RemoveFirst(e.queue, c, other);
    assert Drawn(e.taken + [Event(e.queue[i], fate)]) == Drawn(e.taken) + [e.queue[i]];
    OfConcat(Drawn(e.taken), [e.queue[i]], other);
    assert e.accepted[|e.accepted|..] == [];
  }

  /** Flushing one context neither drops nor reorders what another has queued, and takes nothing of it. */
  lemma {:induction false} FlushKeepsOthers(e: Engine, c: nat, script: Script, other: nat)
    requires other != c
    ensures OnlyAppends(e, Flush(e, c, script).0, other)
    decreases |script|, |e.queue|
  {
    var (e', p) := FlushStep(e, c, script);
    StepKeepsOthers(e, c, script, other);
    if p.More? {
      StepShrinks(e, c, script);
      FlushKeepsOthers(e', c, p.script, other);
      AppendsTransitive(e, e', Flush(e', c, p.script).0, other);
    }
  }

  lemma {:induction false} StepKeepsOthers(e: Engine, c: nat, script: Script, other: nat)
    requires other != c
    ensures OnlyAppends(e, FlushStep(e, c, script).0, other)
  {
    var i := Position(e.queue, c);
    assert e.accepted[|e.accepted|..] == [];
    if i < |e.queue| {
      var runtimes := e.runtimes - {e.queue[i].runtimeId};
      TookAppends(e, c, Refused, e.runtimes, other);
      TookAppends(e, c, Skipped, e.runtimes, other);
      TookAppends(e, c, Unregistered, runtimes, other);
      TookAppends(e, c, Handled, runtimes, other);
      var e2 := Took(e.(queue := Removed(e.queue, i), runtimes := runtimes), e.queue[i], Handled);
      var commands := if script == [] then [] else script[0];
      SentAllAppends(e2, commands, other);
      AppendsTransitive(e, e2, SentAll(e2, commands), other);
    }
  }

  // ---- runtimes ----

  /** A dispatch of the context to a known runtime is queued. */
  ghost predicate Addressed(queue: seq<Dispatch>, runtimes: set<string>, c: nat) {
    exists d | d in queue :: d.contextId == c && d.runtimeId in runtimes
  }

  lemma AddressedStep(queue: seq<Dispatch>, runtimes: set<string>, c: nat)
    requires Position(queue, c) < |queue|
    ensures var i := Position(queue, c);
            Addressed(queue, runtimes, c) <==> queue[i].runtimeId in runtimes || Addressed(Removed(queue, i), runtimes, c)
  {
    var i := Position(queue, c);
    assert queue[i] in queue;
    assert queue == queue[..i] + ([queue[i]] + queue[i + 1..]);
  }

  lemma {:induction false} SentAllKeeps(e: Engine, commands: seq<Command>)
    ensures var e' := SentAll(e, commands); e'.runtimes == e.runtimes && e.contexts <= e'.contexts && e'.taken == e.taken
  {
    if commands != [] {
      SentAllKeeps(e, commands[..|commands| - 1]);
    }
  }

  /** With its context registered a flush keeps every runtime. */
  lemma {:induction false} RegisteredKeepsRuntimes(e: Engine, c: nat, script: Script)
    requires c in e.contexts
    ensures Flush(e, c, script).0.runtimes == e.runtimes
    decreases |script|, |e.queue|
  {
    var (e', p) := FlushStep(e, c, script);
    var i := Position(e.queue, c);
    if i < |e.queue| {
      var e2 := Took(e.(queue := Removed(e.queue, i), runtimes := e.runtimes - {e.queue[i].runtimeId}), e.queue[i], Handled);
      SentAllKeeps(e2, if script == [] then [] else script[0]);
      if p.More? {
        StepShrinks(e, c, script);
        RegisteredKeepsRuntimes(e', c, p.script);
      }
    }
  }

  /** Without it the first dispatch to a known runtime ends the flush, and the runtime is gone. */
  lemma {:induction false} UnregisteredLosesIff(e: Engine, c: nat, script: Script)
    requires c !in e.contexts && !e.stopped
    ensures var (e', ok) := Flush(e, c, script);
            (ok <==> !Addressed(e.queue, e.runtimes, c)) && (e'.runtimes == e.runtimes <==> !Addressed(e.queue, e.runtimes, c))
    decreases |script|, |e.queue|
  {
    var i := Position(e.queue, c);
    if i < |e.queue| {
      AddressedStep(e.queue, e.runtimes, c);
      if e.queue[i].runtimeId !in e.runtimes {
        StepShrinks(e, c, script);
        UnregisteredLosesIff(FlushStep(e, c, script).0, c, script);
      }
    } else {
      assert forall d | d in e.queue :: d.contextId != c;
    }
  }

  /**
   A running engine keeps its runtimes through a flush exactly when the context is
   registered or nothing queued for it names a known runtime.
   */
  lemma RuntimesConservedIff(e: Engine, c: nat, script: Script)
    requires !e.stopped
    ensures Flush(e, c, script).0.runtimes == e.runtimes <==> c in e.contexts || !Addressed(e.queue, e.runtimes, c)
  {
    if c in e.contexts {
      RegisteredKeepsRuntimes(e, c, script);
    } else {
      UnregisteredLosesIff(e, c, script);
    }
  }

  /** The events of a flush from position n on: a dispatch is handled exactly when its runtime is known. */
  ghost predicate FatesFrom(events: seq<Event>, n: nat, c: nat, runtimes: set<string>) {
    forall k | n <= k < |events| ::
      events[k].dispatch.contextId == c && events[k].fate == if events[k].dispatch.runtimeId in runtimes then Handled else Skipped
  }

  lemma StepFates(e: Engine, c: nat, script: Script, n: nat)
    requires c in e.contexts && !e.stopped && n <= |e.taken| && FatesFrom(e.taken, n, c, e.runtimes)
    ensures var (e', p) := FlushStep(e, c, script);
            && !p.Failed? && c in e'.contexts && e'.runtimes == e.runtimes
            && n <= |e'.taken| && FatesFrom(e'.taken, n, c, e.runtimes)
  {
    var i := Position(e.queue, c);
    if i < |e.queue| {
      var e2 := Took(e.(queue := Removed(e.queue, i), runtimes := e.runtimes - {e.queue[i].runtimeId}), e.queue[i], Handled);
      SentAllKeeps(e2, if script == [] then [] else script[0]);
    }
  }

  /** Flushing a registered context handles exactly the dispatches to known runtimes and skips the others. */
  lemma {:induction false} FlushFates(e: Engine, c: nat, script: Script, n: nat)
    requires c in e.contexts && !e.stopped && n <= |e.taken| && FatesFrom(e.taken, n, c, e.runtimes)
    ensures var e' := Flush(e, c, script).0; !e'.stopped ==> FatesFrom(e'.taken, n, c, e.runtimes)
    decreases |script|, |e.queue|
  {
    var (e', p) := FlushStep(e, c, script);
    StepFates(e, c, script, n);
    if p.More? {
      StepShrinks(e, c, script);
      if e'.stopped {
        StoppedFlush(e', c, p.script);
      } else {
        FlushFates(e', c, p.script, n);
      }
    }
  }

  /** After a stop a flush takes at most one dispatch more, and handles none. */
  lemma StoppedFlush(e: Engine, c: nat, script: Script)
    requires e.stopped
    ensures var (e', ok) := Flush(e, c, script);
            && e'.stopped && e'.runtimes == e.runtimes && |e.taken| <= |e'.taken| && e'.taken[..|e.taken|] == e.taken
            && (ok <==> forall d | d in e.queue :: d.contextId != c)
  {
    var i := Position(e.queue, c);
    if i == |e.queue| {
      assert forall d | d in e.queue :: d.contextId != c;
    } else {
      assert e.queue[i] in e.queue;
    }
  }

  /**
   What a flush means: order is kept in every line, its own is emptied by Ok, the
   others only grow, runtimes are kept unless its context is unknown; for a
   registered one it returns Ok and handles exactly the dispatches to known runtimes.
   */
  ghost predicate FlushMeans(e: Engine, c: nat, e': Engine, ok: bool) {
    && (forall other :: InOrder(e, other) ==> InOrder(e', other))
    && (ok ==> Of(e'.queue, c) == [])
    && (forall other | other != c :: OnlyAppends(e, e', other))
    && (!e.stopped ==> (e'.runtimes == e.runtimes <==> c in e.contexts || !Addressed(e.queue, e.runtimes, c)))
    && (!e.stopped && c in e.contexts ==> ok && (!e'.stopped ==> |e.taken| <= |e'.taken| && FatesFrom(e'.taken, |e.taken|, c, e.runtimes)))
  }

  lemma {:induction false} FlushMeant(e: Engine, c: nat, script: Script)
    ensures FlushMeans(e, c, Flush(e, c, script).0, Flush(e, c, script).1)
    ensures Recorded(e) ==> Recorded(Flush(e, c, script).0)
  {
    var (e', ok) := Flush(e, c, script);
    forall other | InOrder(e, other) ensures InOrder(e', other) {
      FlushInOrder(e, c, script, other);
    }
    forall other | other != c ensures OnlyAppends(e, e', other) {
      FlushKeepsOthers(e, c, script, other);
    }
    if ok {
      FlushEmpties(e, c, script);
      OfNone(e'.queue, c);
    }
    if !e.stopped {
      RuntimesConservedIff(e, c, script);
      if c in e.contexts {
        RegisteredIsOk(e, c, script);
        FlushFates(e, c, script, |e.taken|);
      }
    }
    if Recorded(e) {
      FlushRecords(e, c, script);
    }
  }

  /** A flush of a registered context returns Ok. */
  lemma {:induction false} RegisteredIsOk(e: Engine, c: nat, script: Script)
    requires c in e.contexts && (e.stopped ==> e.queue == [])
    ensures Flush(e, c, script).1 && |e.taken| <= |Flush(e, c, script).0.taken|
    decreases |script|, |e.queue|
  {
    var (e', p) := FlushStep(e, c, script);
    var i := Position(e.queue, c);
    if i < |e.queue| {
      var e2 := Took(e.(queue := Removed(e.queue, i), runtimes := e.runtimes - {e.queue[i].runtimeId}), e.queue[i], Handled);
      SentAllKeeps(e2, if script == [] then [] else script[0]);
      SentAllKeepsEmpty(e2, if script == [] then [] else script[0]);
      StepShrinks(e, c, script);
      RegisteredIsOk(e', c, p.script);
    }
  }

  // ---- what is accepted ----

  /** The contexts registered and the stop are those of the accepted commands; nothing is queued after the stop. */
  ghost predicate Recorded(e: Engine) {
    && (forall c :: c in e.contexts <==> RegisterScopes(c) in e.accepted)
    && (e.stopped <==> Stop in e.accepted)
    && (e.stopped ==> e.queue == [])
  }

  /** The commands up to the first stop. */
  ghost function UpToStop(commands: seq<Command>): seq<Command> {
    if commands == [] then []
    else
      var init := UpToStop(commands[..|commands| - 1]);
      if Stop in init then init else init + [commands[|commands| - 1]]
  }

  lemma {:induction false} UpToStopTwice(a: seq<Command>, b: seq<Command>)
    ensures UpToStop(UpToStop(a) + b) == UpToStop(a + b)
    ensures UpToStop(UpToStop(a)) == UpToStop(a)
  {
    if b != [] {
      var n := |b| - 1;
      UpToStopTwice(a, b[..n]);
      assert (a + b)[..|a + b| - 1] == a + b[..n];
      assert (UpToStop(a) + b)[..|UpToStop(a) + b| - 1] == UpToStop(a) + b[..n];
    } else if a != [] {
      UpToStopTwice(a[..|a| - 1], []);
      var init := UpToStop(a[..|a| - 1]);
      assert UpToStop(a) + b == UpToStop(a) && a + b == a;
      if Stop !in init {
        assert UpToStop(a)[..|init|] == init;
      } else {
        assert init + b == init && a[..|a| - 1] + b == a[..|a| - 1];
      }
    } else {
      assert UpToStop(a) + b == [] && a + b == [];
    }
  }

  lemma UpToStopPush(commands: seq<Command>, command: Command)
    ensures var init := UpToStop(commands); UpToStop(commands + [command]) == if Stop in init then init else init + [command]
  {
    assert (commands + [command])[..|commands|] == commands;
  }

  lemma SentRecords(e: Engine, command: Command)
    requires Recorded(e)
    ensures Recorded(Sent(e, command))
    ensures Sent(e, command).accepted == if Stop in e.accepted then e.accepted else e.accepted + [command]
  {
  }

  lemma SentPush(e: Engine, base: seq<Command>, sent: seq<Command>, command: Command)
    requires Recorded(e) && e.accepted == UpToStop(base + sent)
    ensures Recorded(Sent(e, command)) && Sent(e, command).accepted == UpToStop(base + (sent + [command]))
  {
    SentRecords(e, command);
    UpToStopPush(base + sent, command);
    ConcatAssoc(base, sent, [command]);
  }

  /** Commands sent in turn are accepted up to the first stop. */
  lemma {:induction false} SentAllRecords(e: Engine, commands: seq<Command>)
    requires Recorded(e) && UpToStop(e.accepted) == e.accepted
    ensures Recorded(SentAll(e, commands)) && SentAll(e, commands).accepted == UpToStop(e.accepted + commands)
  {
    if commands == [] {
      assert e.accepted + commands == e.accepted;
    } else {
      var n := |commands| - 1;
      SentAllRecords(e, commands[..n]);
      SentPush(SentAll(e, commands[..n]), e.accepted, commands[..n], commands[n]);
      assert commands == commands[..n] + [commands[n]];
    }
  }

  /** How many handlers were called from event n on. */
  ghost function Calls(events: seq<Event>, n: nat): nat {
    if |events| <= n then 0
    else Calls(events[..|events| - 1], n) + if events[|events| - 1].fate == Handled then 1 else 0
  }

  lemma {:induction false} CallsSplit(events: seq<Event>, m: nat, n: nat)
    requires m <= n <= |events|
    ensures Calls(events, m) == Calls(events[..n], m) + Calls(events, n)
  {
    if n == |events| {
      assert events[..n] == events;
    } else {
      var k := |events| - 1;
      CallsSplit(events[..k], m, n);
      assert events[..k][..n] == events[..n];
    }
  }

  /** What the first n handlers send. */
  ghost function Scripted(script: Script, n: nat): seq<Command> {
    if n == 0 || script == [] then [] else script[0] + Scripted(script[1..], n - 1)
  }

  lemma {:induction false} FlushRecords(e: Engine, c: nat, script: Script)
    requires Recorded(e)
    ensures Recorded(Flush(e, c, script).0)
    decreases |script|, |e.queue|
  {
    var (e', p) := FlushStep(e, c, script);
    StepRecords(e, c, script);
    if p.More? {
      StepShrinks(e, c, script);
      FlushRecords(e', c, p.script);
    }
  }

  lemma {:induction false} SentAllKeepsRecord(e: Engine, commands: seq<Command>)
    requires Recorded(e)
    ensures Recorded(SentAll(e, commands))
  {
    if commands != [] {
      SentAllKeepsRecord(e, commands[..|commands| - 1]);
      SentRecords(SentAll(e, commands[..|commands| - 1]), commands[|commands| - 1]);
    }
  }

  lemma {:induction false} StepRecords(e: Engine, c: nat, script: Script)
    requires Recorded(e)
    ensures Recorded(FlushStep(e, c, script).0)
  {
    var i := Position(e.queue, c);
    if i < |e.queue| {
      var e2 := Took(e.(queue := Removed(e.queue, i), runtimes := e.runtimes - {e.queue[i].runtimeId}), e.queue[i], Handled);
      assert Recorded(e2);
      SentAllKeepsRecord(e2, if script == [] then [] else script[0]);
    }
  }

  lemma CallsPush(events: seq<Event>, event: Event, n: nat)
    requires n <= |events|
    ensures Calls(events + [event], n) == Calls(events, n) + if event.fate == Handled then 1 else 0
    ensures Calls(events, |events|) == 0
  {
    assert (events + [event])[..|events|] == events;
  }

  /** The engine from e to e': the events go on, `calls` handlers are called, and what they send is accepted up to a stop. */
  ghost predicate Accepts(e: Engine, e': Engine, sent: seq<Command>, calls: nat) {
    && |e.taken| <= |e'.taken| && e'.taken[..|e.taken|] == e.taken && Calls(e'.taken, |e.taken|) == calls
    && e'.accepted == UpToStop(e.accepted + sent) && UpToStop(e'.accepted) == e'.accepted
  }

  lemma AcceptsNothing(e: Engine, e': Engine)
    requires UpToStop(e.accepted) == e.accepted && e'.accepted == e.accepted
    requires e'.taken == e.taken || (|e'.taken| == |e.taken| + 1 && e'.taken[..|e.taken|] == e.taken && e'.taken[|e.taken|].fate != Handled)
    ensures Accepts(e, e', [], 0)
  {
    assert e.accepted + [] == e.accepted;
    if e'.taken != e.taken {
      assert e'.taken == e.taken + [e'.taken[|e.taken|]];
      CallsPush(e.taken, e'.taken[|e.taken|], |e.taken|);
    }
  }

  lemma AcceptsHandled(e: Engine, e2: Engine, d: Dispatch, commands: seq<Command>, e': Engine)
    requires Recorded(e2) && UpToStop(e.accepted) == e.accepted && e2.accepted == e.accepted && e2.taken == e.taken + [Event(d, Handled)]
    requires e'.accepted == SentAll(e2, commands).accepted && e'.taken == e2.taken
    ensures Accepts(e, e', commands, 1)
  {
    SentAllRecords(e2, commands);
    UpToStopTwice(e.accepted + commands, []);
    CallsPush(e.taken, Event(d, Handled), |e.taken|);
    assert e'.taken[..|e.taken|] == e.taken;
  }

  /** One pass calls one handler or none, and goes on with the rest of the script. */
  lemma {:induction false} StepAccepts(e: Engine, c: nat, script: Script, e': Engine, p: Progress) returns (calls: nat)
    requires Recorded(e) && UpToStop(e.accepted) == e.accepted && (e', p) == FlushStep(e, c, script)
    ensures calls <= 1 && Accepts(e, e', Scripted(script, calls), calls) && UpToStop(e'.accepted) == e'.accepted
    ensures p.More? ==> p.script == if calls == 0 || script == [] then script else script[1..]
  {
    var i := Position(e.queue, c);
    if i < |e.queue| && !e.stopped && e.queue[i].runtimeId in e.runtimes && c in e.contexts {
      var d := e.queue[i];
      var commands := if script == [] then [] else script[0];
      var e2 := Took(e.(queue := Removed(e.queue, i), runtimes := e.runtimes - {d.runtimeId}), d, Handled);
      SentAllKeeps(e2, commands);
      AcceptsHandled(e, e2, d, commands, e');
      calls := 1;
      assert script != [] ==> script[0] + Scripted(script[1..], 0) == script[0];
    } else {
      AcceptsNothing(e, e');
      calls := 0;
    }
  }

  lemma AcceptsOn(e: Engine, e': Engine, e'': Engine, sent: seq<Command>, calls: nat, sent': seq<Command>, calls': nat)
    requires Accepts(e, e', sent, calls) && Accepts(e', e'', sent', calls')
    ensures Accepts(e, e'', sent + sent', calls + calls')
  {
    var m, n := |e.taken|, |e'.taken|;
    assert e''.taken[..m] == e''.taken[..n][..m];
    CallsSplit(e''.taken, m, n);
    UpToStopTwice(e.accepted + sent, sent');
    ConcatAssoc(e.accepted, sent, sent');
  }

  lemma FlushNext(e: Engine, c: nat, script: Script) returns (e': Engine, p: Progress)
    ensures (e', p) == FlushStep(e, c, script)
    ensures p.More? ==> Flush(e, c, script).0 == Flush(e', c, p.script).0
    ensures p.More? ==> |p.script| < |script| || (p.script == script && |e'.queue| < |e.queue|)
    ensures !p.More? ==> Flush(e, c, script).0 == e'
  {
    var r := FlushStep(e, c, script);
    e', p := r.0, r.1;
    StepShrinks(e, c, script);
  }

  /** A flush accepts what the handlers it calls send, in turn, up to the first stop. */
  lemma {:induction false} FlushAccepts(e: Engine, c: nat, script: Script, out: Engine) returns (calls: nat)
    requires Recorded(e) && UpToStop(e.accepted) == e.accepted && out == Flush(e, c, script).0
    ensures Accepts(e, out, Scripted(script, calls), calls)
    decreases |script|, |e.queue|, 1
  {
    var e', p := FlushNext(e, c, script);
    calls := StepAccepts(e, c, script, e', p);
    StepRecords(e, c, script);
    if p.More? {
      calls := RestAccepts(e, c, script, out, e', p.script, calls);
    }
  }

  lemma {:induction false} RestAccepts(e: Engine, c: nat, script: Script, out: Engine, e': Engine, rest: Script, first: nat) returns (calls: nat)
    requires Recorded(e') && UpToStop(e'.accepted) == e'.accepted && out == Flush(e', c, rest).0
    requires Accepts(e, e', Scripted(script, first), first) && first <= 1 && rest == if first == 0 || script == [] then script else script[1..]
    requires |rest| < |script| || (rest == script && |e'.queue| < |e.queue|)
    ensures Accepts(e, out, Scripted(script, calls), calls)
    decreases |script|, |e.queue|, 0
  {
    var k := FlushAccepts(e', c, rest, out);
    AcceptsMore(e, e', out, script, first, rest, k);
    calls := first + k;
  }

  lemma AcceptsMore(e: Engine, e': Engine, e'': Engine, script: Script, calls: nat, rest: Script, k: nat)
    requires calls <= 1 && rest == if calls == 0 || script == [] then script else script[1..]
    requires Accepts(e, e', Scripted(script, calls), calls) && Accepts(e', e'', Scripted(rest, k), k)
    ensures Accepts(e, e'', Scripted(script, calls + k), calls + k)
  {
    AcceptsOn(e, e', e'', Scripted(script, calls), calls, Scripted(rest, k), k);
    ScriptedSplit(script, calls, rest, k);
  }

  lemma ScriptedSplit(script: Script, calls: nat, rest: Script, k: nat)
    requires calls <= 1 && rest == if calls == 0 || script == [] then script else script[1..]
    ensures Scripted(script, calls) + Scripted(rest, k) == Scripted(script, calls + k)
  {
    if calls == 0 {
      assert [] + Scripted(script, k) == Scripted(script, k);
    } else if script != [] {
      assert Scripted(script, 1) == script[0] + [] == script[0];
    }
  }

  // ---- runs ----

  datatype Step = SendStep(command: Command) | FlushStepOf(contextId: nat, script: Script)

  ghost function After(runtimes: set<string>, steps: seq<Step>): Engine {
    if steps == [] then Fresh(runtimes)
    else
      var e := After(runtimes, steps[..|steps| - 1]);
      match steps[|steps| - 1]
      case SendStep(command) => Sent(e, command)
      case FlushStepOf(c, script) => Flush(e, c, script).0
  }

  /** In every run before a stop, the dispatches of a context are taken in the order they were sent, and the rest are queued in that order. */
  lemma {:induction false} RunInOrder(runtimes: set<string>, steps: seq<Step>, c: nat)
    ensures InOrder(After(runtimes, steps), c)
  {
    if steps != [] {
      RunInOrder(runtimes, steps[..|steps| - 1], c);
      var e := After(runtimes, steps[..|steps| - 1]);
      match steps[|steps| - 1]
      case SendStep(command) => SentInOrder(e, command, c);
      case FlushStepOf(d, script) => FlushInOrder(e, d, script, c);
    }
  }

  /** Every command the run issues: those sent, and those sent by the handlers that flushes call. */
  ghost function Issued(runtimes: set<string>, steps: seq<Step>): seq<Command> {
    if steps == [] then []
    else
      var init := steps[..|steps| - 1];
      Issued(runtimes, init) +
        match steps[|steps| - 1]
        case SendStep(command) => [command]
        case FlushStepOf(_, script) => Scripted(script, Calls(After(runtimes, steps).taken, |After(runtimes, init).taken|))
  }

  /**
   In every run exactly the commands issued up to the first stop are accepted. So a
   context is registered exactly when its registration was among them, and after a
   stop nothing is queued.
   */
  lemma {:induction false} RunAccepts(runtimes: set<string>, steps: seq<Step>)
    ensures var e := After(runtimes, steps);
            e.accepted == UpToStop(Issued(runtimes, steps)) && UpToStop(e.accepted) == e.accepted && Recorded(e)
  {
    if steps != [] {
      var init := steps[..|steps| - 1];
      RunAccepts(runtimes, init);
      var e, issued := After(runtimes, init), Issued(runtimes, init);
      match steps[|steps| - 1]
      case SendStep(command) =>
        SentRecords(e, command);
        assert (issued + [command])[..|issued|] == issued;
        UpToStopTwice(Issued(runtimes, steps), []);
      case FlushStepOf(c, script) =>
        var calls := FlushAccepts(e, c, script, After(runtimes, steps));
        FlushRecords(e, c, script);
        UpToStopTwice(issued, Scripted(script, Calls(After(runtimes, steps).taken, |e.taken|)));
    }
  }

  /**
   Before a stop, once a registration of the context has been issued, every flush
   of it returns Ok and keeps all runtimes, and as long as no handler stops the
   engine it handles exactly the dispatches to known runtimes and leaves none queued.
   */
  lemma {:induction false} RegisteredFlush(runtimes: set<string>, steps: seq<Step>, c: nat, script: Script)
    requires Stop !in Issued(runtimes, steps) && RegisterScopes(c) in Issued(runtimes, steps)
    ensures var e := After(runtimes, steps); var (e', ok) := Flush(e, c, script);
            && ok && e'.runtimes == e.runtimes && Of(e'.queue, c) == []
            && (Stop !in Issued(runtimes, steps + [FlushStepOf(c, script)]) ==> |e.taken| <= |e'.taken| && FatesFrom(e'.taken, |e.taken|, c, e.runtimes))
  {
    var all := steps + [FlushStepOf(c, script)];
    assert all[..|steps|] == steps;
    RunAccepts(runtimes, steps);
    RunAccepts(runtimes, all);
    NoStopKeepsAll(Issued(runtimes, steps));
    if Stop !in Issued(runtimes, all) {
      NoStopKeepsAll(Issued(runtimes, all));
    }
    FlushMeant(After(runtimes, steps), c, script);
  }

  lemma {:induction false} NoStopKeepsAll(commands: seq<Command>)
    requires Stop !in commands
    ensures UpToStop(commands) == commands
  {
    if commands != [] {
      var n := |commands| - 1;
      assert commands == commands[..n] + [commands[n]];
      NoStopKeepsAll(commands[..n]);
    }
  }

  /** Once stopped, in every run: nothing is queued, so every later flush returns Ok and takes nothing. */
  lemma {:induction false} StoppedIsEmpty(runtimes: set<string>, steps: seq<Step>, c: nat, script: Script)
    ensures var e := After(runtimes, steps); e.stopped ==> e.queue == [] && Flush(e, c, script) == (e, true)
  {
    RunAccepts(runtimes, steps);
  }

  lemma {:induction false} SentAllKeepsEmpty(e: Engine, commands: seq<Command>)
    requires e.stopped ==> e.queue == []
    ensures var e' := SentAll(e, commands); e'.stopped ==> e'.queue == []
  {
    if commands != [] {
      SentAllKeepsEmpty(e, commands[..|commands| - 1]);
    }
  }
}
