/** How long the pool of src/lib/ssh.ts keeps a connection that is not in use. */
module ConnectionPoolIdle {
  import opened Concat
  import opened ConnectionPool

  // ---------------------------------------------------------------- uses of a key

  predicate Timed(e: Event) { e.Acquire? || e.Connected? || e.Disconnect? || e.Cleanup? }

  /** Clock readings do not go back. */
  predicate Rising(events: seq<Event>) {
    forall i, j :: 0 <= i < j < |events| && Timed(events[i]) && Timed(events[j]) ==> events[i].now <= events[j].now
  }

  /** The step hands out the live connection of `key`, makes a new one for it, or returns a
      handle of the key for the first time. */
  predicate Uses(s: State, e: Event, key: string) {
    match e
    case Acquire(k, _) => k == key && Healthy(s.pool, key)
    case Connected(c, _) => Enabled(s, e) && s.clients[c] == key
    case Disconnect(h, _) => h < |s.handles| && !s.handles[h].released && s.handles[h].key == key
    case _ => false
  }

  ghost predicate UsedAt(events: seq<Event>, key: string, i: int) {
    0 <= i < |events| && Timed(events[i]) && Uses(Run(events[..i]), events[i], key)
  }

  ghost predicate LastUsedAt(events: seq<Event>, key: string, i: int) {
    UsedAt(events, key, i) && forall j :: UsedAt(events, key, j) ==> j <= i
  }

  lemma StepUses(s: State, e: Event, key: string)
    requires key in Apply(s, e).pool.connections
    ensures Uses(s, e, key) ==> Timed(e) && Apply(s, e).pool.connections[key].lastUsedAt == e.now
    ensures !Uses(s, e, key) ==>
      key in s.pool.connections && Apply(s, e).pool.connections[key].lastUsedAt == s.pool.connections[key].lastUsedAt
  {
  }

  lemma UsedSnoc(events: seq<Event>, e: Event, key: string, i: int)
    ensures i < |events| ==> (UsedAt(events + [e], key, i) <==> UsedAt(events, key, i))
    ensures UsedAt(events + [e], key, |events|) <==> Uses(Run(events), e, key)
  {
    var more := events + [e];
    assert more[..|events|] == events;
    if 0 <= i < |events| { assert more[..i] == events[..i]; }
  }

  /** On every run the time on an entry is that of the last use of its key. */
  lemma {:induction false} LastUsedIs(events: seq<Event>, key: string) returns (i: nat)
    requires key in Run(events).pool.connections
    ensures LastUsedAt(events, key, i) && Run(events).pool.connections[key].lastUsedAt == events[i].now
  {
    var most, e := events[..|events| - 1], events[|events| - 1];
    assert events == most + [e];
    StepUses(Run(most), e, key);
    UsedSnoc(most, e, key, |most|);
    if Uses(Run(most), e, key) {
      i := |most|;
    } else {
      i := LastUsedIs(most, key);
      UsedSnoc(most, e, key, i);
      forall j | UsedAt(events, key, j) ensures j <= i { UsedSnoc(most, e, key, j); }
    }
  }

  // ---------------------------------------------------------------- one cleanup

  /** Some use of the key lies no more than the idle time before `now`. */
  ghost predicate UsedWithin(events: seq<Event>, key: string, now: int) {
    exists i :: UsedAt(events, key, i) && now <= events[i].now + MAX_IDLE_MS
  }

  lemma RecentExactly(events: seq<Event>, key: string, now: int)
    requires Rising(events) && key in Run(events).pool.connections
    ensures UsedWithin(events, key, now) <==> now - Run(events).pool.connections[key].lastUsedAt <= MAX_IDLE_MS
  {
    var last := LastUsedIs(events, key);
    if i :| UsedAt(events, key, i) && now <= events[i].now + MAX_IDLE_MS {
      assert events[i].now <= events[last].now;
    }
  }

  /** By a clock that does not go back, a cleanup leaves a live connection alone up to the idle
      time after every use of its key, a return among them. */
  lemma RecentlyUsedStays(events: seq<Event>, key: string, now: int)
    requires Rising(events) && Healthy(Run(events).pool, key) && UsedWithin(events, key, now)
    ensures
      var p, p' := Run(events).pool, Apply(Run(events), Cleanup(now)).pool;
      Healthy(p', key) && p'.connections[key] == p.connections[key]
  {
    RecentExactly(events, key, now);
    CleanupLeaves(events, now);
  }

  /** With every handle of the key returned, that is exactly how long it is left alone: the first
      cleanup after that removes and closes it. */
  lemma UnusedGoesExactly(events: seq<Event>, key: string, now: int)
    requires Rising(events) && Healthy(Run(events).pool, key)
    requires forall h :: 0 <= h < |Run(events).handles| && Run(events).handles[h].key == key ==>
      Run(events).handles[h].released
    ensures
      var p, p' := Run(events).pool, Apply(Run(events), Cleanup(now)).pool;
      && (Healthy(p', key) <==> UsedWithin(events, key, now))
      && (!UsedWithin(events, key, now) ==>
            key !in p'.connections && p.connections[key].client !in p'.connected)
  {
    RecentExactly(events, key, now);
    NeverPinned(events, key, now);
    CleanupLeaves(events, now);
  }

  // ---------------------------------------------------------------- over a continuation

  /** The step does not lose, evict or overwrite the connection of the key, and is not a cleanup
      after the idle time. */
  ghost predicate Undisturbed(events: seq<Event>, e: Event, key: string)
    requires key in Run(events).pool.connections
  {
    var s := Run(events);
    match e
    case Drop(c) => c != s.pool.connections[key].client
    case CallFailed(h) => h < |s.handles| ==> s.handles[h].key != key
    case Connected(c, _) => c < |s.clients| ==> s.clients[c] != key
    case Cleanup(now) => s.pool.connections[key].refCount > 0 || UsedWithin(events, key, now)
    case _ => true
  }

  ghost predicate AllUndisturbed(events: seq<Event>, more: seq<Event>, key: string) {
    forall i :: 0 <= i < |more| && key in Run(events + more[..i]).pool.connections ==>
      Undisturbed(events + more[..i], more[i], key)
  }

  lemma StepKeepsLive(events: seq<Event>, e: Event, key: string)
    requires Rising(events) && Healthy(Run(events).pool, key) && Undisturbed(events, e, key)
    ensures
      var p, p' := Run(events).pool, Apply(Run(events), e).pool;
      Healthy(p', key) && p'.connections[key].client == p.connections[key].client
  {
    RunInv(events);
    if e.Cleanup? {
      RecentExactly(events, key, e.now);
      CleanupLeaves(events, e.now);
    }
  }

  lemma RisingPrefix(events: seq<Event>, more: seq<Event>, n: nat)
    requires Rising(events + more) && n <= |more|
    ensures Rising(events + more[..n])
  {
    assert events + more[..n] <= events + more;
  }

  lemma RunNext(events: seq<Event>, more: seq<Event>, n: nat)
    requires n < |more|
    ensures Run(events + more[..n + 1]) == Apply(Run(events + more[..n]), more[n])
  {
    SliceSnoc(events, more, n);
    Step(events + more[..n], more[n], Run(events + more[..n]), Apply(Run(events + more[..n]), more[n]));
  }

  lemma UndisturbedNext(events: seq<Event>, more: seq<Event>, key: string, n: nat, before: seq<Event>)
    requires AllUndisturbed(events, more, key) && n < |more| && before == events + more[..n]
    requires key in Run(before).pool.connections
    ensures Undisturbed(before, more[n], key)
  {
  }

  /** The key's entry holds this client, which is connected. */
  ghost predicate Serves(events: seq<Event>, key: string, client: nat) {
    Healthy(Run(events).pool, key) && Run(events).pool.connections[key].client == client
  }

  lemma ServesNext(events: seq<Event>, more: seq<Event>, key: string, n: nat, client: nat)
    requires Rising(events + more) && AllUndisturbed(events, more, key) && n < |more|
    requires Serves(events + more[..n], key, client)
    ensures Serves(events + more[..n + 1], key, client)
  {
    var before := events + more[..n];
    RisingPrefix(events, more, n);
    RunNext(events, more, n);
    UndisturbedNext(events, more, key, n, before);
    StepKeepsLive(before, more[n], key);
  }

  /** A live connection stays pooled on every continuation that does not lose, evict or overwrite
      it, and in which each cleanup finds it in use or used within the idle time. */
  lemma {:induction false} StaysPooled(events: seq<Event>, more: seq<Event>, key: string, n: nat, client: nat)
    requires Rising(events + more) && AllUndisturbed(events, more, key) && n <= |more|
    requires Serves(events, key, client)
    ensures Serves(events + more[..n], key, client)
  {
    if n == 0 {
      assert events + more[..0] == events;
    } else {
      StaysPooled(events, more, key, n - 1, client);
      ServesNext(events, more, key, n - 1, client);
    }
  }
}
