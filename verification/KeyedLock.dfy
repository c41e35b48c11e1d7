/** The promise-chain mutex of src/lib/keyed-lock.ts, one step per promise reaction.

    A call's number stands for its `tail` promise. Reactions that are ready run in any
    order, of which the first-in first-out order of the microtask queue is one. */
module KeyedLock {
  import opened Wrappers

  datatype Phase =
    | Waiting             // fn has not been called
    | Running             // fn was called, its promise is pending
    | Settled(ok: bool)   // `result` is settled
    | TailSettled         // `tail` is settled
    | Cleaned             // the `finally` callback of `tail` has run

  /** `prev` is the tail found in the map, or `None` for Promise.resolve(). */
  datatype Call = Call(key: string, prev: Option<nat>, phase: Phase)

  datatype State = State(calls: seq<Call>, chains: map<string, nat>)

  datatype Event =
    | Enter(key: string)
    | Start(i: nat)
    | Settle(i: nat, ok: bool)
    | SettleTail(i: nat)
    | CleanUp(i: nat)

  predicate Done(c: Call) { c.phase.TailSettled? || c.phase.Cleaned? }

  predicate Ready(s: State, c: Call) {
    c.prev.None? || (c.prev.value < |s.calls| && Done(s.calls[c.prev.value]))
  }

  predicate Enabled(s: State, e: Event) {
    match e
    case Enter(_) => true
    case Start(i) => i < |s.calls| && s.calls[i].phase.Waiting? && Ready(s, s.calls[i])
    case Settle(i, _) => i < |s.calls| && s.calls[i].phase.Running?
    case SettleTail(i) => i < |s.calls| && s.calls[i].phase.Settled?
    case CleanUp(i) => i < |s.calls| && s.calls[i].phase.TailSettled?
  }

  function Lookup(chains: map<string, nat>, key: string): Option<nat> {
    if key in chains then Some(chains[key]) else None
  }

  function SetPhase(s: State, i: nat, phase: Phase): State
    requires i < |s.calls|
  {
    s.(calls := s.calls[i := s.calls[i].(phase := phase)])
  }

  /** One step; an event that is not enabled changes nothing. */
  function Apply(s: State, e: Event): State {
    if !Enabled(s, e) then s
    else match e
      case Enter(key) =>
        State(s.calls + [Call(key, Lookup(s.chains, key), Waiting)], s.chains[key := |s.calls|])
      case Start(i) => SetPhase(s, i, Running)
      case Settle(i, ok) => SetPhase(s, i, Settled(ok))
      case SettleTail(i) => SetPhase(s, i, TailSettled)
      case CleanUp(i) =>
        var s1 := SetPhase(s, i, Cleaned);
        var key := s.calls[i].key;
        if Lookup(s.chains, key) == Some(i) then s1.(chains := s.chains - {key}) else s1
  }

  function Run(events: seq<Event>): State {
    if events == [] then State([], map[])
    else Apply(Run(events[..|events| - 1]), events[|events| - 1])
  }

  // ---------------------------------------------------------------- the lock object

  class Lock {
    var calls: seq<Call>
    var chains: map<string, nat>

    ghost function Abs(): State
      reads this
    {
      State(calls, chains)
    }

    constructor ()
      ensures Abs() == Run([])
    {
      calls, chains := [], map[];
    }

    /** runExclusive: queue behind the key's tail and become its new tail. */
    method RunExclusive(key: string) returns (i: nat)
      modifies this
      ensures i == |old(calls)| && Abs() == Apply(old(Abs()), Enter(key))
    {
      var prev := if key in chains then Some(chains[key]) else None;
      i := |calls|;
      calls := calls + [Call(key, prev, Waiting)];
      chains := chains[key := i];
    }

    method StartFn(i: nat)
      requires Enabled(Abs(), Start(i))
      modifies this`calls
      ensures Abs() == Apply(old(Abs()), Start(i))
    {
      calls := calls[i := calls[i].(phase := Running)];
    }

    method SettleResult(i: nat, ok: bool)
      requires Enabled(Abs(), Settle(i, ok))
      modifies this`calls
      ensures Abs() == Apply(old(Abs()), Settle(i, ok))
    {
      calls := calls[i := calls[i].(phase := Settled(ok))];
    }

    /** Fulfilled or rejected, `result` leaves the tail fulfilled. */
    method SettleTailOf(i: nat)
      requires Enabled(Abs(), SettleTail(i))
      modifies this`calls
      ensures Abs() == Apply(old(Abs()), SettleTail(i))
    {
      calls := calls[i := calls[i].(phase := TailSettled)];
    }

    /** Drops the key if its tail is still this call's. */
    method Finally(i: nat)
      requires Enabled(Abs(), CleanUp(i))
      modifies this
      ensures Abs() == Apply(old(Abs()), CleanUp(i))
    {
      var key := calls[i].key;
      calls := calls[i := calls[i].(phase := Cleaned)];
      if key in chains && chains[key] == i {
        chains := chains - {key};
      }
    }
  }

  // ---------------------------------------------------------------- invariant

  /** `prev` is the latest earlier call of the key; without one every earlier call is done. */
  predicate PrevOk(s: State, i: nat)
    requires i < |s.calls|
  {
    var c := s.calls[i];
    match c.prev
    case None => forall j :: 0 <= j < i && s.calls[j].key == c.key ==> Done(s.calls[j])
    case Some(p) => p < i && s.calls[p].key == c.key && forall j :: p < j < i ==> s.calls[j].key != c.key
  }

  predicate OrderOk(s: State, i: nat)
    requires i < |s.calls|
  {
    !s.calls[i].phase.Waiting? ==> forall j :: 0 <= j < i && s.calls[j].key == s.calls[i].key ==> Done(s.calls[j])
  }

  predicate LastOfKey(s: State, i: nat)
    requires i < |s.calls|
  {
    forall j :: i < j < |s.calls| ==> s.calls[j].key != s.calls[i].key
  }

  /** The map holds the last call of each key until that call is cleaned up. */
  predicate ChainOk(s: State, i: nat)
    requires i < |s.calls|
  {
    Lookup(s.chains, s.calls[i].key) == Some(i) <==> LastOfKey(s, i) && !s.calls[i].phase.Cleaned?
  }

  predicate Inv(s: State) {
    && (forall i :: 0 <= i < |s.calls| ==> PrevOk(s, i))
    && (forall i :: 0 <= i < |s.calls| ==> OrderOk(s, i))
    && (forall i :: 0 <= i < |s.calls| ==> ChainOk(s, i))
    && (forall k :: k in s.chains ==> s.chains[k] < |s.calls| && s.calls[s.chains[k]].key == k)
  }

  /** A key that is not in the map has no call that is not done. */
  lemma {:induction false} AbsentDone(s: State, j: nat)
    requires Inv(s) && j < |s.calls| && s.calls[j].key !in s.chains
    ensures Done(s.calls[j])
    decreases |s.calls| - j
  {
    assert ChainOk(s, j);
    if !LastOfKey(s, j) {
      var k :| j < k < |s.calls| && s.calls[k].key == s.calls[j].key;
      AbsentDone(s, k);
      assert OrderOk(s, k);
    }
  }

  /** A later call of the same key is all that stops a call from being its key's last. */
  lemma LastOfKeyMoves(s: State, s': State, i: nat)
    requires i < |s.calls| <= |s'.calls| <= |s.calls| + 1
    requires forall j :: 0 <= j < |s.calls| ==> s'.calls[j].key == s.calls[j].key
    ensures LastOfKey(s', i) <==>
              LastOfKey(s, i) && (|s'.calls| > |s.calls| ==> s'.calls[|s.calls|].key != s.calls[i].key)
  {
    if LastOfKey(s', i) {
      forall j | i < j < |s.calls|
        ensures s.calls[j].key != s.calls[i].key
      {
        assert s'.calls[j].key != s'.calls[i].key;
      }
    }
  }

  lemma EnterKeeps(s: State, key: string)
    requires Inv(s)
    ensures Inv(Apply(s, Enter(key)))
  {
    var s' := Apply(s, Enter(key));
    var n := |s.calls|;
    forall i | 0 <= i <= n ensures PrevOk(s', i) {
      if i < n {
        assert PrevOk(s, i);
      } else if key in s.chains {
        assert ChainOk(s, s.chains[key]);
      } else {
        forall j | 0 <= j < n && s.calls[j].key == key ensures Done(s.calls[j]) { AbsentDone(s, j); }
      }
    }
    forall i | 0 <= i <= n ensures OrderOk(s', i) && ChainOk(s', i) {
      assert s'.calls[n].key == key;
      if i < n {
        assert OrderOk(s, i) && ChainOk(s, i);
        LastOfKeyMoves(s, s', i);
      }
    }
  }

  /** When a waiting call becomes ready, every earlier call of its key is done. */
  lemma ReadyDone(s: State, i: nat, j: nat)
    requires Inv(s) && j < i < |s.calls| && Ready(s, s.calls[i]) && s.calls[j].key == s.calls[i].key
    ensures Done(s.calls[j])
  {
    assert PrevOk(s, i);
    if s.calls[i].prev.Some? {
      assert OrderOk(s, s.calls[i].prev.value);
    }
  }

  lemma PhaseKeeps(s: State, e: Event)
    requires Inv(s) && Enabled(s, e) && !e.Enter?
    ensures Inv(Apply(s, e))
  {
    var s' := Apply(s, e);
    assert forall j :: 0 <= j < |s.calls| ==> s'.calls[j].key == s.calls[j].key && s'.calls[j].prev == s.calls[j].prev;
    assert forall j :: 0 <= j < |s.calls| && Done(s.calls[j]) ==> Done(s'.calls[j]);
    forall i | 0 <= i < |s'.calls| ensures PrevOk(s', i) {
      assert PrevOk(s, i);
    }
    forall i | 0 <= i < |s'.calls| ensures OrderOk(s', i) {
      assert OrderOk(s, i);
      if e == Start(i) {
        forall j | 0 <= j < i && s.calls[j].key == s.calls[i].key ensures Done(s.calls[j]) { ReadyDone(s, i, j); }
      }
    }
    PhaseKeepsChains(s, e);
  }

  lemma PhaseKeepsChains(s: State, e: Event)
    requires Inv(s) && Enabled(s, e) && !e.Enter?
    ensures
      var s' := Apply(s, e);
      && (forall i :: 0 <= i < |s'.calls| ==> ChainOk(s', i))
      && (forall k :: k in s'.chains ==> s'.chains[k] < |s'.calls| && s'.calls[s'.chains[k]].key == k)
  {
    var s' := Apply(s, e);
    assert forall j :: 0 <= j < |s.calls| ==> s'.calls[j].key == s.calls[j].key;
    forall i | 0 <= i < |s'.calls| ensures ChainOk(s', i) {
      assert ChainOk(s, i);
      LastOfKeyMoves(s, s', i);
    }
  }

  lemma {:induction false} RunInv(events: seq<Event>)
    ensures Inv(Run(events))
  {
    if events == [] {
    } else {
      var s, e := Run(events[..|events| - 1]), events[|events| - 1];
      RunInv(events[..|events| - 1]);
      if e.Enter? {
        EnterKeeps(s, e.key);
      } else if Enabled(s, e) {
        PhaseKeeps(s, e);
      }
    }
  }

  // ---------------------------------------------------------------- main results

  /** In every reachable state, whatever the functions returned: calls of one key never run
      together, a call has started only if every earlier call of its key is settled, and a key
      absent from the map has no unsettled call. */
  lemma LockSafe(events: seq<Event>)
    ensures
      var s := Run(events);
      && (forall i, j :: 0 <= i < j < |s.calls| && s.calls[i].key == s.calls[j].key ==>
            !(s.calls[i].phase.Running? && s.calls[j].phase.Running?))
      && (forall i, j :: 0 <= i < j < |s.calls| && s.calls[i].key == s.calls[j].key && !s.calls[j].phase.Waiting? ==>
            Done(s.calls[i]))
      && (forall i :: 0 <= i < |s.calls| && s.calls[i].key !in s.chains ==> Done(s.calls[i]))
  {
    RunInv(events);
    var s := Run(events);
    forall i, j | 0 <= i < j < |s.calls| && s.calls[i].key == s.calls[j].key && !s.calls[j].phase.Waiting?
      ensures Done(s.calls[i])
    {
      assert OrderOk(s, j);
    }
    forall i | 0 <= i < |s.calls| && s.calls[i].key !in s.chains ensures Done(s.calls[i]) { AbsentDone(s, i); }
  }

  /** A waiting call may start exactly when all earlier calls of its own key are settled: calls
      of other keys, and how the earlier ones ended, do not matter. */
  lemma StartsExactlyWhen(events: seq<Event>, i: nat)
    requires i < |Run(events).calls| && Run(events).calls[i].phase.Waiting?
    ensures
      var s := Run(events);
      Enabled(s, Start(i)) <==> forall j :: 0 <= j < i && s.calls[j].key == s.calls[i].key ==> Done(s.calls[j])
  {
    RunInv(events);
    var s := Run(events);
    assert PrevOk(s, i);
    if Enabled(s, Start(i)) {
      forall j | 0 <= j < i && s.calls[j].key == s.calls[i].key ensures Done(s.calls[j]) { ReadyDone(s, i, j); }
    }
  }

  /** Once every call is cleaned up the map is empty. */
  lemma QuiescentMapEmpty(events: seq<Event>)
    requires forall i :: 0 <= i < |Run(events).calls| ==> Run(events).calls[i].phase.Cleaned?
    ensures Run(events).chains == map[]
  {
    RunInv(events);
    var s := Run(events);
    forall i | 0 <= i < |s.calls| ensures Lookup(s.chains, s.calls[i].key) != Some(i) {
      assert ChainOk(s, i);
    }
  }
}
