/** When the calls of src/lib/keyed-lock.ts come to an end, and when they wait for ever. */
module KeyedLockProgress {
  import opened KeyedLock
  import opened Wrappers

  // ---------------------------------------------------------------- what the lock does by itself

  function Left(c: Call): nat {
    match c.phase case Waiting => 4 case Running => 3 case Settled(_) => 2 case TailSettled => 1 case Cleaned => 0
  }

  function Rank(calls: seq<Call>): nat {
    if calls == [] then 0 else Rank(calls[..|calls| - 1]) + Left(calls[|calls| - 1])
  }

  lemma {:induction false} RankUpdate(calls: seq<Call>, i: nat, c: Call)
    requires i < |calls|
    ensures Rank(calls[i := c]) == Rank(calls) - Left(calls[i]) + Left(c)
  {
    var n := |calls| - 1;
    if i == n {
      assert calls[i := c][..n] == calls[..n];
    } else {
      RankUpdate(calls[..n], i, c);
      assert calls[i := c][..n] == calls[..n][i := c];
    }
  }

  lemma RankDrops(s: State, e: Event)
    requires !e.Enter? && Enabled(s, e)
    ensures Rank(Apply(s, e).calls) == Rank(s.calls) - 1
  {
    RankUpdate(s.calls, e.i, Apply(s, e).calls[e.i]);
  }

  /** The steps that are the lock's own: neither an arrival nor a function's promise settling. */
  predicate OwnStep(e: Event) {
    e.Start? || e.SettleTail? || e.CleanUp?
  }

  predicate AllCleaned(s: State) {
    forall i :: 0 <= i < |s.calls| ==> s.calls[i].phase.Cleaned?
  }

  /** As long as some call is not cleaned up, the lock has a step of its own to take or some
      function is running; and a call takes at most four steps. */
  lemma LockProgress(events: seq<Event>)
    ensures
      var s := Run(events);
      && (|| AllCleaned(s)
          || (exists e: Event :: OwnStep(e) && Enabled(s, e))
          || exists i :: 0 <= i < |s.calls| && s.calls[i].phase.Running?)
      && (forall e: Event :: !e.Enter? && Enabled(s, e) ==> Rank(Apply(s, e).calls) == Rank(s.calls) - 1)
  {
    RunInv(events);
    var s := Run(events);
    forall e: Event | !e.Enter? && Enabled(s, e)
      ensures Rank(Apply(s, e).calls) == Rank(s.calls) - 1
    {
      RankDrops(s, e);
    }
    if i :| 0 <= i < |s.calls| && !s.calls[i].phase.Cleaned? {
      var e := EnabledStep(s, i);
    }
  }

  lemma {:induction false} EnabledStep(s: State, i: nat) returns (e: Event)
    requires Inv(s) && i < |s.calls| && !s.calls[i].phase.Cleaned?
    ensures !e.Enter? && Enabled(s, e)
  {
    match s.calls[i].phase {
      case Waiting =>
        if Ready(s, s.calls[i]) {
          e := Start(i);
        } else {
          assert PrevOk(s, i);
          e := EnabledStep(s, s.calls[i].prev.value);
        }
      case Running => e := Settle(i, true);
      case Settled(_) => e := SettleTail(i);
      case TailSettled => e := CleanUp(i);
    }
  }

  // ---------------------------------------------------------------- functions that await calls

  /** The calls whose results the function of each call awaits. */
  type Awaits = nat -> set<nat>

  predicate Unsettled(s: State, i: nat) {
    i < |s.calls| && (s.calls[i].phase.Waiting? || s.calls[i].phase.Running?)
  }

  /** A function settles only once everything it awaits is settled. */
  predicate Allowed(s: State, awaits: Awaits, e: Event) {
    Enabled(s, e) && (e.Settle? ==> forall j :: j in awaits(e.i) ==> !Unsettled(s, j))
  }

  function After(s: State, steps: seq<Event>): State
    decreases |steps|
  {
    if steps == [] then s else After(Apply(s, steps[0]), steps[1..])
  }

  predicate Respects(s: State, awaits: Awaits, steps: seq<Event>)
    decreases |steps|
  {
    steps != [] ==> Allowed(s, awaits, steps[0]) && Respects(Apply(s, steps[0]), awaits, steps[1..])
  }

  /** Call `i` is held up by a call of the set: it is queued behind it, or its function awaits it. */
  predicate HeldUp(s: State, awaits: Awaits, knot: set<nat>, i: nat) {
    && i < |s.calls|
    && if s.calls[i].phase.Waiting? then
         exists j :: j in knot && j < i && Unsettled(s, j) && s.calls[j].key == s.calls[i].key
       else
         s.calls[i].phase.Running? && exists j :: j in knot && j in awaits(i) && Unsettled(s, j)
  }

  /** Calls each of which is held up by another one of them. */
  predicate Knot(s: State, awaits: Awaits, knot: set<nat>) {
    knot != {} && forall i :: i in knot ==> HeldUp(s, awaits, knot, i)
  }

  /** A function that has not been called awaits nothing. */
  predicate AwaitsWhenRunning(s: State, awaits: Awaits) {
    forall i :: 0 <= i < |s.calls| && s.calls[i].phase.Waiting? ==> awaits(i) == {}
  }

  // ---------------------------------------------------------------- a knot stays

  lemma InvKept(s: State, e: Event)
    requires Inv(s)
    ensures Inv(Apply(s, e))
  {
    if e.Enter? {
      EnterKeeps(s, e.key);
    } else if Enabled(s, e) {
      PhaseKeeps(s, e);
    }
  }

  lemma HeldUpStays(s: State, awaits: Awaits, knot: set<nat>, e: Event, i: nat)
    requires Inv(s) && Knot(s, awaits, knot) && Allowed(s, awaits, e) && i in knot
    ensures Apply(s, e).calls[i].phase == s.calls[i].phase && Apply(s, e).calls[i].key == s.calls[i].key
  {
    assert HeldUp(s, awaits, knot, i);
    if e == Start(i) {
      var j :| j in knot && j < i && Unsettled(s, j) && s.calls[j].key == s.calls[i].key;
      ReadyDone(s, i, j);
    }
  }

  lemma HeldInQueue(s: State, awaits: Awaits, knot: set<nat>, i: nat, j: nat)
    requires j in knot && j < i < |s.calls| && Unsettled(s, j)
    requires s.calls[i].phase.Waiting? && s.calls[j].key == s.calls[i].key
    ensures HeldUp(s, awaits, knot, i)
  {
  }

  lemma HeldByAwait(s: State, awaits: Awaits, knot: set<nat>, i: nat, j: nat)
    requires j in knot && i < |s.calls| && Unsettled(s, j)
    requires s.calls[i].phase.Running? && j in awaits(i)
    ensures HeldUp(s, awaits, knot, i)
  {
  }

  lemma QueuedStays(s: State, awaits: Awaits, knot: set<nat>, e: Event, i: nat)
    requires Inv(s) && Knot(s, awaits, knot) && Allowed(s, awaits, e) && i in knot
    requires i < |s.calls| && s.calls[i].phase.Waiting?
    ensures HeldUp(Apply(s, e), awaits, knot, i)
  {
    assert HeldUp(s, awaits, knot, i);
    var j :| j in knot && j < i && Unsettled(s, j) && s.calls[j].key == s.calls[i].key;
    HeldUpStays(s, awaits, knot, e, i);
    HeldUpStays(s, awaits, knot, e, j);
    HeldInQueue(Apply(s, e), awaits, knot, i, j);
  }

  lemma AwaitingStays(s: State, awaits: Awaits, knot: set<nat>, e: Event, i: nat)
    requires Inv(s) && Knot(s, awaits, knot) && Allowed(s, awaits, e) && i in knot
    requires i < |s.calls| && !s.calls[i].phase.Waiting?
    ensures HeldUp(Apply(s, e), awaits, knot, i)
  {
    assert HeldUp(s, awaits, knot, i);
    var j :| j in knot && j in awaits(i) && Unsettled(s, j);
    HeldUpStays(s, awaits, knot, e, i);
    HeldUpStays(s, awaits, knot, e, j);
    HeldByAwait(Apply(s, e), awaits, knot, i, j);
  }

  lemma KnotStays(s: State, awaits: Awaits, knot: set<nat>, e: Event)
    requires Inv(s) && Knot(s, awaits, knot) && Allowed(s, awaits, e)
    ensures Knot(Apply(s, e), awaits, knot)
  {
    forall i | i in knot ensures HeldUp(Apply(s, e), awaits, knot, i) {
      assert HeldUp(s, awaits, knot, i);
      if s.calls[i].phase.Waiting? {
        QueuedStays(s, awaits, knot, e, i);
      } else {
        AwaitingStays(s, awaits, knot, e, i);
      }
    }
  }

  /** Whatever happens, new arrivals included, none of the calls of a knot ever settles. */
  lemma {:induction false} KnotForever(s: State, awaits: Awaits, knot: set<nat>, steps: seq<Event>)
    requires Inv(s) && Knot(s, awaits, knot) && Respects(s, awaits, steps)
    ensures Knot(After(s, steps), awaits, knot)
    decreases |steps|
  {
    if steps == [] {
    } else {
      InvKept(s, steps[0]);
      KnotStays(s, awaits, knot, steps[0]);
      KnotForever(Apply(s, steps[0]), awaits, knot, steps[1..]);
    }
  }

  // ---------------------------------------------------------------- without one, all ends

  lemma KnotBefore(s: State, awaits: Awaits, e: Event, knot: set<nat>)
    requires AwaitsWhenRunning(s, awaits) && !e.Enter? && Enabled(s, e) && Knot(Apply(s, e), awaits, knot)
    ensures Knot(s, awaits, knot)
  {
    var s' := Apply(s, e);
    forall i | i in knot ensures HeldUp(s, awaits, knot, i) {
      assert HeldUp(s', awaits, knot, i);
      var j :| j in knot && Unsettled(s', j) &&
        if s'.calls[i].phase.Waiting? then j < i && s'.calls[j].key == s'.calls[i].key else j in awaits(i);
      assert Unsettled(s, j);
    }
  }

  function UnsettledCalls(s: State): set<nat> {
    set i: nat | i < |s.calls| && Unsettled(s, i)
  }

  /** If nothing can move, the unsettled calls hold each other up. */
  lemma AllHeldUp(s: State, awaits: Awaits)
    requires Inv(s) && !AllCleaned(s)
    requires forall e: Event :: !e.Enter? ==> !Allowed(s, awaits, e)
    ensures Knot(s, awaits, UnsettledCalls(s))
  {
    var knot := UnsettledCalls(s);
    forall i | 0 <= i < |s.calls| ensures Unsettled(s, i) || s.calls[i].phase.Cleaned? {
      assert !Allowed(s, awaits, SettleTail(i)) && !Allowed(s, awaits, CleanUp(i));
    }
    forall i | i in knot ensures HeldUp(s, awaits, knot, i) {
      if s.calls[i].phase.Waiting? {
        assert !Allowed(s, awaits, Start(i)) && PrevOk(s, i);
        assert s.calls[i].prev.value in knot;
      } else {
        assert !Allowed(s, awaits, Settle(i, true));
        var j :| j in awaits(i) && Unsettled(s, j);
        assert j in knot;
      }
    }
    var i :| 0 <= i < |s.calls| && !s.calls[i].phase.Cleaned?;
    assert i in knot;
  }

  lemma {:induction false} AllEnds(s: State, awaits: Awaits) returns (steps: seq<Event>)
    requires Inv(s) && AwaitsWhenRunning(s, awaits) && forall knot: set<nat> :: !Knot(s, awaits, knot)
    ensures Respects(s, awaits, steps) && AllCleaned(After(s, steps))
    decreases Rank(s.calls)
  {
    if AllCleaned(s) {
      steps := [];
    } else {
      if forall e: Event :: !e.Enter? ==> !Allowed(s, awaits, e) { AllHeldUp(s, awaits); }
      var e: Event :| !e.Enter? && Allowed(s, awaits, e);
      var s' := Apply(s, e);
      RankDrops(s, e);
      InvKept(s, e);
      forall knot: set<nat> ensures !Knot(s', awaits, knot) {
        if Knot(s', awaits, knot) { KnotBefore(s, awaits, e, knot); }
      }
      var rest := AllEnds(s', awaits);
      steps := [e] + rest;
      assert steps[1..] == rest;
    }
  }

  // ---------------------------------------------------------------- main results

  lemma KnotNeverCleaned(s: State, awaits: Awaits, knot: set<nat>, steps: seq<Event>)
    requires Inv(s) && Knot(s, awaits, knot) && Respects(s, awaits, steps)
    ensures !AllCleaned(After(s, steps))
  {
    KnotForever(s, awaits, knot, steps);
    var i :| i in knot;
    assert HeldUp(After(s, steps), awaits, knot, i);
  }

  ghost predicate Tangled(s: State, awaits: Awaits) {
    exists knot: set<nat> :: Knot(s, awaits, knot)
  }

  ghost predicate CanEnd(s: State, awaits: Awaits) {
    exists steps: seq<Event> :: Respects(s, awaits, steps) && AllCleaned(After(s, steps))
  }

  /** All calls can be brought to an end if and only if no calls hold each other up in a knot:
      each queued behind another of them, or with a function that awaits another of them. */
  lemma EndsExactly(events: seq<Event>, awaits: Awaits)
    requires AwaitsWhenRunning(Run(events), awaits)
    ensures CanEnd(Run(events), awaits) <==> !Tangled(Run(events), awaits)
  {
    RunInv(events);
    var s := Run(events);
    if Tangled(s, awaits) {
      var knot: set<nat> :| Knot(s, awaits, knot);
      forall steps: seq<Event> ensures !(Respects(s, awaits, steps) && AllCleaned(After(s, steps))) {
        if Respects(s, awaits, steps) { KnotNeverCleaned(s, awaits, knot, steps); }
      }
    } else {
      forall knot: set<nat> ensures !Knot(s, awaits, knot) {}
      var steps := AllEnds(s, awaits);
    }
  }

  /** The smallest knot: a function that awaits a call it makes, or finds, on its own key. Neither
      call ever settles. */
  lemma OwnKeyNeverEnds(events: seq<Event>, awaits: Awaits, i: nat, j: nat, steps: seq<Event>)
    requires i < j < |Run(events).calls| && Run(events).calls[i].key == Run(events).calls[j].key
    requires Run(events).calls[i].phase.Running? && j in awaits(i)
    requires Respects(Run(events), awaits, steps)
    ensures Unsettled(After(Run(events), steps), i) && Unsettled(After(Run(events), steps), j)
  {
    RunInv(events);
    var s := Run(events);
    assert OrderOk(s, j);
    assert Unsettled(s, i) && Unsettled(s, j) && s.calls[j].phase.Waiting?;
    assert HeldUp(s, awaits, {i, j}, i) && HeldUp(s, awaits, {i, j}, j);
    KnotForever(s, awaits, {i, j}, steps);
    assert HeldUp(After(s, steps), awaits, {i, j}, i) && HeldUp(After(s, steps), awaits, {i, j}, j);
  }
}
