/** The single-flight response cache of src/lib/response-cache.ts, one step per call and per
    promise reaction. A flight is one run of a `compute`; its number stands for the promise. */
module ResponseCache {
  import opened Concat
  import opened Wrappers
  import opened StampMap

  datatype Outcome<T> = Fulfilled(value: T) | Rejected

  datatype Phase<T> =
    | Computing                        // compute's promise is pending
    | Settled(outcome: Outcome<T>)     // it is settled, its reactions have not run
    | Passed(outcome: Outcome<T>)      // `then` has stored the value, or let the rejection pass
    | Finalized(outcome: Outcome<T>)   // `finally` has run, the callers' promise is settled

  /** `startedAt` is the `now` of the call that started the compute. */
  datatype Flight<T> = Flight(key: string, startedAt: int, phase: Phase<T>)

  /** A stored value is stamped with the time it expires at. */
  datatype State<T> = State(flights: seq<Flight<T>>, entries: seq<Item<T>>, inflight: map<string, nat>)

  datatype Config = Config(ttlMs: int, maxEntries: int)

  datatype Event<T> =
    | Call(key: string, now: int)
    | Settle(f: nat, outcome: Outcome<T>)
    | RunThen(f: nat)
    | RunFinally(f: nat)

  /** What a caller gets: a value from memory, or the promise of a flight. */
  datatype Reply<T> = Hit(value: T) | Await(f: nat)

  function FreshEntry<T>(entries: seq<Item<T>>, key: string, now: int): Option<T> {
    match Get(entries, key)
    case Some(item) => if item.stamp > now then Some(item.value) else None
    case None => None
  }

  function ReplyTo<T>(s: State<T>, key: string, now: int): Reply<T> {
    match FreshEntry(s.entries, key, now)
    case Some(value) => Hit(value)
    case None => if key in s.inflight then Await(s.inflight[key]) else Await(|s.flights|)
  }

  predicate Enabled<T>(s: State<T>, e: Event<T>) {
    match e
    case Call(_, _) => true
    case Settle(f, _) => f < |s.flights| && s.flights[f].phase.Computing?
    case RunThen(f) => f < |s.flights| && s.flights[f].phase.Settled?
    case RunFinally(f) => f < |s.flights| && s.flights[f].phase.Passed?
  }

  function SetPhase<T>(s: State<T>, f: nat, phase: Phase<T>): State<T>
    requires f < |s.flights|
  {
    s.(flights := s.flights[f := s.flights[f].(phase := phase)])
  }

  function StoreValue<T>(c: Config, s: State<T>, key: string, value: T, now: int): State<T> {
    s.(entries := Store(s.entries, Item(key, now + c.ttlMs, value), c.maxEntries))
  }

  /** The `then` callback: a fulfilled value is stored as of the time its compute started. */
  function AfterThen<T>(c: Config, s: State<T>, f: nat): State<T>
    requires Enabled(s, RunThen(f))
  {
    var flight := s.flights[f];
    var s1 := SetPhase(s, f, Passed(flight.phase.outcome));
    if flight.phase.outcome.Rejected? then s1
    else StoreValue(c, s1, flight.key, flight.phase.outcome.value, flight.startedAt)
  }

  /** One step; an event that is not enabled changes nothing. */
  function Apply<T>(c: Config, s: State<T>, e: Event<T>): State<T> {
    if !Enabled(s, e) then s
    else match e
      case Call(key, now) =>
        if ReplyTo(s, key, now) == Await(|s.flights|)
        then s.(flights := s.flights + [Flight(key, now, Computing)], inflight := s.inflight[key := |s.flights|])
        else s
      case Settle(f, outcome) => SetPhase(s, f, Settled(outcome))
      case RunThen(f) => AfterThen(c, s, f)
      case RunFinally(f) =>
        SetPhase(s, f, Finalized(s.flights[f].phase.outcome)).(inflight := s.inflight - {s.flights[f].key})
  }

  function Run<T>(c: Config, events: seq<Event<T>>): State<T> {
    if events == [] then State([], [], map[])
    else Apply(c, Run(c, events[..|events| - 1]), events[|events| - 1])
  }

  // ---------------------------------------------------------------- the cache object

  class Cache<T(==)> {
    const config: Config
    var flights: seq<Flight<T>>
    var entries: seq<Item<T>>
    var inflight: map<string, nat>

    ghost function Abs(): State<T>
      reads this
    {
      State(flights, entries, inflight)
    }

    constructor (ttlMs: int, maxEntries: int)
      ensures config == Config(ttlMs, maxEntries)
      ensures Abs() == Run(config, [])
    {
      config := Config(ttlMs, maxEntries);
      flights, entries, inflight := [], [], map[];
    }

    /** Only a call that finds neither a fresh entry nor a pending flight starts a compute. */
    method GetOrCompute(key: string, now: int) returns (reply: Reply<T>)
      requires forall k :: k in inflight ==> inflight[k] < |flights|
      modifies this`flights, this`inflight
      ensures reply == ReplyTo(old(Abs()), key, now)
      ensures Abs() == Apply(config, old(Abs()), Call(key, now))
    {
      var hit := Get(entries, key);
      if hit.Some? && hit.value.stamp > now {
        return Hit(hit.value.value);
      }
      if key in inflight {
        return Await(inflight[key]);
      }
      var promise := |flights|;
      flights := flights + [Flight(key, now, Computing)];
      inflight := inflight[key := promise];
      return Await(promise);
    }

    method SettleCompute(f: nat, outcome: Outcome<T>)
      requires Enabled(Abs(), Settle(f, outcome))
      modifies this`flights
      ensures Abs() == Apply(config, old(Abs()), Settle(f, outcome))
    {
      flights := flights[f := flights[f].(phase := Settled(outcome))];
    }

    /** `store`: set the entry, then evict the half that expires first if the map is too big. */
    method StoreEntry(key: string, value: T, now: int)
      modifies this`entries
      ensures Abs() == StoreValue(config, old(Abs()), key, value, now)
    {
      entries := Put(entries, Item(key, now + config.ttlMs, value));
      if |entries| > config.maxEntries {
        entries := EvictOldest(entries);
      }
    }

    method Then(f: nat)
      requires Enabled(Abs(), RunThen(f))
      modifies this`flights, this`entries
      ensures Abs() == Apply(config, old(Abs()), RunThen(f))
    {
      var flight := flights[f];
      flights := flights[f := flight.(phase := Passed(flight.phase.outcome))];
      if flight.phase.outcome.Fulfilled? {
        StoreEntry(flight.key, flight.phase.outcome.value, flight.startedAt);
      }
    }

    method Finally(f: nat)
      requires Enabled(Abs(), RunFinally(f))
      modifies this`flights, this`inflight
      ensures Abs() == Apply(config, old(Abs()), RunFinally(f))
    {
      inflight := inflight - {flights[f].key};
      flights := flights[f := flights[f].(phase := Finalized(flights[f].phase.outcome))];
    }
  }

  // ---------------------------------------------------------------- invariant

  /** Flight `f` put `item` there. */
  ghost predicate Source<T>(c: Config, flights: seq<Flight<T>>, f: nat, item: Item<T>) {
    && f < |flights|
    && flights[f].key == item.key
    && (flights[f].phase == Passed(Fulfilled(item.value)) || flights[f].phase == Finalized(Fulfilled(item.value)))
    && item.stamp == flights[f].startedAt + c.ttlMs
  }

  ghost predicate Sourced<T(!new)>(c: Config, flights: seq<Flight<T>>, item: Item<T>) {
    exists f: nat :: Source(c, flights, f, item)
  }

  ghost predicate EntriesOk<T(!new)>(c: Config, s: State<T>) {
    && Distinct(s.entries)
    && |s.entries| <= AtLeastOne(c.maxEntries)
    && forall i :: 0 <= i < |s.entries| ==> Sourced(c, s.flights, s.entries[i])
  }

  /** The in-flight map holds exactly the flights that are not finalized. */
  predicate InflightOk<T>(s: State<T>) {
    && (forall k :: k in s.inflight ==>
          s.inflight[k] < |s.flights| && s.flights[s.inflight[k]].key == k
            && !s.flights[s.inflight[k]].phase.Finalized?)
    && (forall f: nat :: f < |s.flights| && !s.flights[f].phase.Finalized? ==>
          s.flights[f].key in s.inflight && s.inflight[s.flights[f].key] == f)
  }

  predicate Unstored<T>(flight: Flight<T>) {
    flight.phase.Computing? || flight.phase.Settled?
  }

  /** An entry that a flight is going to replace had expired when the flight started. */
  predicate ExpiredOk<T>(s: State<T>) {
    forall f: nat, i: nat ::
      f < |s.flights| && i < |s.entries| && Unstored(s.flights[f]) && s.entries[i].key == s.flights[f].key ==>
      s.entries[i].stamp <= s.flights[f].startedAt
  }

  ghost predicate Inv<T(!new)>(c: Config, s: State<T>) {
    EntriesOk(c, s) && InflightOk(s) && ExpiredOk(s)
  }

  lemma StartKeepsEntries<T(!new)>(c: Config, s: State<T>, s': State<T>, flight: Flight<T>)
    requires EntriesOk(c, s) && s'.entries == s.entries && s'.flights == s.flights + [flight]
    ensures EntriesOk(c, s')
  {
    forall i | 0 <= i < |s'.entries| ensures Sourced(c, s'.flights, s'.entries[i]) {
      var f: nat :| Source(c, s.flights, f, s.entries[i]);
      assert Source(c, s'.flights, f, s'.entries[i]);
    }
  }

  lemma StartKeepsInflight<T>(s: State<T>, s': State<T>, key: string, now: int)
    requires InflightOk(s) && key !in s.inflight
    requires s'.flights == s.flights + [Flight(key, now, Computing)] && s'.inflight == s.inflight[key := |s.flights|]
    ensures InflightOk(s')
  {
  }

  /** Without a fresh entry, what is stored for the key has expired. */
  lemma StartFindsExpired<T(!new)>(s: State<T>, key: string, now: int)
    requires Distinct(s.entries) && FreshEntry(s.entries, key, now).None?
    ensures forall i :: 0 <= i < |s.entries| && s.entries[i].key == key ==> s.entries[i].stamp <= now
  {
    forall i | 0 <= i < |s.entries| && s.entries[i].key == key ensures s.entries[i].stamp <= now {
      GetIs(s.entries, s.entries[i]);
    }
  }

  lemma CallKeeps<T(!new)>(c: Config, s: State<T>, key: string, now: int)
    requires Inv(c, s)
    ensures Inv(c, Apply(c, s, Call(key, now)))
  {
    var s' := Apply(c, s, Call(key, now));
    if s' != s {
      StartKeepsEntries(c, s, s', Flight(key, now, Computing));
      StartKeepsInflight(s, s', key, now);
      StartFindsExpired(s, key, now);
    }
  }

  lemma PhaseKeepsEntries<T(!new)>(c: Config, s: State<T>, f: nat, phase: Phase<T>)
    requires EntriesOk(c, s) && f < |s.flights|
    requires (Unstored(s.flights[f]) || (s.flights[f].phase.Passed? && phase == Finalized(s.flights[f].phase.outcome)))
    ensures EntriesOk(c, SetPhase(s, f, phase))
  {
    var s' := SetPhase(s, f, phase);
    forall i | 0 <= i < |s'.entries| ensures Sourced(c, s'.flights, s'.entries[i]) {
      assert Sourced(c, s.flights, s.entries[i]);
      var g: nat :| Source(c, s.flights, g, s.entries[i]);
      assert Source(c, s'.flights, g, s'.entries[i]);
    }
  }

  predicate ComesFrom<T(==)>(x: Item<T>, entries: seq<Item<T>>, item: Item<T>) {
    x == item || exists j :: 0 <= j < |entries| && entries[j] == x && x.key != item.key
  }

  lemma StoreMembers<T(!new)>(c: Config, s: State<T>, item: Item<T>, i: nat)
    requires EntriesOk(c, s) && i < |Store(s.entries, item, c.maxEntries)|
    ensures
      ComesFrom(Store(s.entries, item, c.maxEntries)[i], s.entries, item)
  {
    StoreBounded(s.entries, item, c.maxEntries);
    assert Store(s.entries, item, c.maxEntries)[i] in Store(s.entries, item, c.maxEntries);
  }

  /** Replacing the entries by some of them and one item of flight `f`. */
  lemma ReplaceKeeps<T(!new)>(c: Config, s: State<T>, f: nat, item: Item<T>, entries: seq<Item<T>>)
    requires Inv(c, s) && f < |s.flights| && Source(c, s.flights, f, item) && s.flights[f].phase.Passed?
    requires Distinct(entries) && |entries| <= AtLeastOne(c.maxEntries)
    requires forall i :: 0 <= i < |entries| ==> ComesFrom(entries[i], s.entries, item)
    ensures Inv(c, s.(entries := entries))
  {
    forall i | 0 <= i < |entries| ensures Sourced(c, s.flights, entries[i]) {
      assert ComesFrom(entries[i], s.entries, item);
    }
    forall g: nat, i: nat | g < |s.flights| && i < |entries| && Unstored(s.flights[g])
      && entries[i].key == s.flights[g].key
      ensures entries[i].stamp <= s.flights[g].startedAt
    {
      assert ComesFrom(entries[i], s.entries, item);
    }
  }

  lemma StoreKeeps<T(!new)>(c: Config, s: State<T>, f: nat, item: Item<T>)
    requires Inv(c, s) && f < |s.flights| && Source(c, s.flights, f, item) && s.flights[f].phase.Passed?
    ensures Inv(c, s.(entries := Store(s.entries, item, c.maxEntries)))
  {
    StoreBounded(s.entries, item, c.maxEntries);
    var entries := Store(s.entries, item, c.maxEntries);
    forall i | 0 <= i < |entries| ensures ComesFrom(entries[i], s.entries, item) {
      StoreMembers(c, s, item, i);
    }
    ReplaceKeeps(c, s, f, item, entries);
  }

  /** A settled compute stays under way until its `finally` callback. */
  lemma PhaseKeeps<T(!new)>(c: Config, s: State<T>, f: nat, phase: Phase<T>)
    requires Inv(c, s) && f < |s.flights| && Unstored(s.flights[f])
    requires phase.Settled? || (phase.Passed? && s.flights[f].phase == Settled(phase.outcome))
    ensures Inv(c, SetPhase(s, f, phase))
  {
    PhaseKeepsEntries(c, s, f, phase);
  }

  lemma FinallyKeeps<T(!new)>(c: Config, s: State<T>, f: nat)
    requires Inv(c, s) && Enabled(s, RunFinally(f))
    ensures Inv(c, Apply(c, s, RunFinally(f)))
  {
    PhaseKeepsEntries(c, s, f, Finalized(s.flights[f].phase.outcome));
  }

  /** The entry that the `then` callback of flight `f` sets. */
  function ItemOf<T>(c: Config, s: State<T>, f: nat): Item<T>
    requires f < |s.flights| && s.flights[f].phase.Settled? && s.flights[f].phase.outcome.Fulfilled?
  {
    Item(s.flights[f].key, s.flights[f].startedAt + c.ttlMs, s.flights[f].phase.outcome.value)
  }

  lemma ThenStores<T>(c: Config, s: State<T>, f: nat, s1: State<T>, item: Item<T>)
    requires Enabled(s, RunThen(f)) && s.flights[f].phase.outcome.Fulfilled? && item == ItemOf(c, s, f)
    requires s1 == SetPhase(s, f, Passed(s.flights[f].phase.outcome))
    ensures AfterThen(c, s, f) == s1.(entries := Store(s1.entries, item, c.maxEntries))
  {
  }

  lemma ThenKeeps<T(!new)>(c: Config, s: State<T>, f: nat)
    requires Inv(c, s) && Enabled(s, RunThen(f))
    ensures Inv(c, AfterThen(c, s, f))
  {
    var flight := s.flights[f];
    var s1 := SetPhase(s, f, Passed(flight.phase.outcome));
    PhaseKeeps(c, s, f, Passed(flight.phase.outcome));
    if flight.phase.outcome.Fulfilled? {
      ThenStores(c, s, f, s1, ItemOf(c, s, f));
      StoreKeeps(c, s1, f, ItemOf(c, s, f));
    }
  }

  lemma {:induction false} RunInv<T(!new)>(c: Config, events: seq<Event<T>>)
    ensures Inv(c, Run(c, events))
  {
    if events == [] {
    } else {
      var s, e := Run(c, events[..|events| - 1]), events[|events| - 1];
      RunInv(c, events[..|events| - 1]);
      if Enabled(s, e) {
        match e {
          case Call(key, now) => CallKeeps(c, s, key, now);
          case Settle(f, outcome) => PhaseKeeps(c, s, f, Settled(outcome));
          case RunThen(f) => ThenKeeps(c, s, f);
          case RunFinally(f) => FinallyKeeps(c, s, f);
        }
      }
    }
  }

  // ---------------------------------------------------------------- main results

  /** No key ever has two computes under way, and a caller that joins one gets a pending
      promise of its own key. */
  lemma SingleFlight<T(!new)>(c: Config, events: seq<Event<T>>, key: string, now: int)
    ensures
      var s := Run(c, events);
      && (forall f: nat, g: nat ::
            f < |s.flights| && g < |s.flights| && s.flights[f].key == s.flights[g].key &&
            !s.flights[f].phase.Finalized? && !s.flights[g].phase.Finalized? ==>
              f == g)
      && (ReplyTo(s, key, now).Await? && ReplyTo(s, key, now).f < |s.flights| ==>
            s.flights[ReplyTo(s, key, now).f].key == key && !s.flights[ReplyTo(s, key, now).f].phase.Finalized?)
  {
    RunInv(c, events);
  }

  /** A call starts a compute exactly when no entry is fresh and every flight of the key is
      finalized, so a rejection is never kept: the next call tries again. */
  lemma StartsExactlyWhen<T(!new)>(c: Config, events: seq<Event<T>>, key: string, now: int)
    ensures
      var s := Run(c, events);
      |Apply(c, s, Call(key, now)).flights| > |s.flights| <==>
        FreshEntry(s.entries, key, now).None?
        && forall f :: 0 <= f < |s.flights| && s.flights[f].key == key ==> s.flights[f].phase.Finalized?
  {
    RunInv(c, events);
  }

  /** A value served from memory at `now` is what a compute of the same key fulfilled with, and
      that compute was started less than ttlMs before. */
  lemma HitIsFresh<T(!new)>(c: Config, events: seq<Event<T>>, key: string, now: int)
    requires ReplyTo(Run(c, events), key, now).Hit?
    ensures
      var s := Run(c, events);
      exists f: nat :: f < |s.flights| && s.flights[f].key == key && now < s.flights[f].startedAt + c.ttlMs
        && OutcomeOf(s.flights[f]) == Some(Fulfilled(ReplyTo(s, key, now).value))
  {
    RunInv(c, events);
    var s := Run(c, events);
    var p := Position(s.entries, key);
    var f: nat :| Source(c, s.flights, f, s.entries[p]);
  }

  function OutcomeOf<T>(flight: Flight<T>): Option<Outcome<T>> {
    if flight.phase.Computing? then None else Some(flight.phase.outcome)
  }

  /** What a store overwrites had expired when its compute was started, so with ttlMs >= 0 the
      expiry of a key never moves back. */
  lemma StoreAdvances<T(!new)>(c: Config, events: seq<Event<T>>, f: nat, i: nat)
    requires Enabled(Run(c, events), RunThen(f)) && i < |Run(c, events).entries|
    requires Run(c, events).entries[i].key == Run(c, events).flights[f].key
    ensures Run(c, events).entries[i].stamp <= Run(c, events).flights[f].startedAt
  {
    RunInv(c, events);
  }

  lemma Step<T(!new)>(c: Config, events: seq<Event<T>>, e: Event<T>, s: State<T>, s': State<T>)
    requires Run(c, events) == s && Apply(c, s, e) == s'
    ensures Run(c, events + [e]) == s'
  {
    assert (events + [e])[..|events|] == events;
  }

  ghost predicate Stores<T>(s: State<T>, e: Event<T>) {
    e.RunThen? && Enabled(s, e) && s.flights[e.f].phase.outcome.Fulfilled?
  }

  /** The step is not one that replaces or evicts `item`. */
  ghost predicate Spares<T>(c: Config, s: State<T>, e: Event<T>, item: Item<T>) {
    Stores(s, e) ==>
      var put := Put(s.entries, ItemOf(c, s, e.f));
      && (item.key != s.flights[e.f].key || item == ItemOf(c, s, e.f))
      && (|put| <= c.maxEntries || item !in Oldest(put))
  }

  lemma StoreSpares<T(!new)>(entries: seq<Item<T>>, stored: Item<T>, maxEntries: int, item: Item<T>)
    requires Distinct(entries) && (item == stored || (item in entries && item.key != stored.key))
    requires |Put(entries, stored)| <= maxEntries || item !in Oldest(Put(entries, stored))
    ensures item in Store(entries, stored, maxEntries)
  {
    PutIs(entries, stored);
    if |Put(entries, stored)| > maxEntries { EvictMembers(Put(entries, stored)); }
  }

  lemma EntrySpared<T(!new)>(c: Config, s: State<T>, e: Event<T>, item: Item<T>)
    requires Inv(c, s) && Spares(c, s, e, item)
    requires item in s.entries || (Stores(s, e) && item == ItemOf(c, s, e.f))
    ensures item in Apply(c, s, e).entries
  {
    if Stores(s, e) {
      StoreSpares(s.entries, ItemOf(c, s, e.f), c.maxEntries, item);
      StepStores(c, s, e);
    } else {
      StepLeaves(c, s, e);
    }
  }

  lemma StepStores<T>(c: Config, s: State<T>, e: Event<T>)
    requires Stores(s, e)
    ensures Apply(c, s, e).entries == Store(s.entries, ItemOf(c, s, e.f), c.maxEntries)
  {
    ThenStores(c, s, e.f, SetPhase(s, e.f, Passed(s.flights[e.f].phase.outcome)), ItemOf(c, s, e.f));
  }

  lemma StepLeaves<T>(c: Config, s: State<T>, e: Event<T>)
    requires !Stores(s, e)
    ensures Apply(c, s, e).entries == s.entries
  {
  }

  /** All of `more`, run after `events`, spares the item. */
  ghost predicate AllSpare<T>(c: Config, events: seq<Event<T>>, more: seq<Event<T>>, item: Item<T>) {
    forall i :: 0 <= i < |more| ==> Spares(c, Run(c, events + more[..i]), more[i], item)
  }

  lemma {:induction false} EntryStays<T(!new)>(c: Config, events: seq<Event<T>>, more: seq<Event<T>>, item: Item<T>,
    n: nat)
    requires item in Run(c, events).entries && AllSpare(c, events, more, item) && n <= |more|
    ensures item in Run(c, events + more[..n]).entries
  {
    if n == 0 {
      assert events + more[..0] == events;
    } else {
      EntryStays(c, events, more, item, n - 1);
      EntryStaysStep(c, events + more[..n - 1], more[n - 1], item);
      SliceSnoc(events, more, n - 1);
    }
  }

  lemma EntryStaysStep<T(!new)>(c: Config, events: seq<Event<T>>, e: Event<T>, item: Item<T>)
    requires item in Run(c, events).entries && Spares(c, Run(c, events), e, item)
    ensures item in Run(c, events + [e]).entries
  {
    RunInv(c, events);
    EntrySpared(c, Run(c, events), e, item);
    Step(c, events, e, Run(c, events), Apply(c, Run(c, events), e));
  }

  /** A fulfilled value is served from its store on, through every continuation in which no store
      for its key replaces it and no eviction picks it, exactly while less than ttlMs have passed
      since its compute was started. */
  lemma ServedUntilExpiry<T(!new)>(c: Config, events: seq<Event<T>>, f: nat, more: seq<Event<T>>, now: int)
    requires Stores(Run(c, events), RunThen(f))
    requires Spares(c, Run(c, events), RunThen(f), ItemOf(c, Run(c, events), f))
    requires AllSpare(c, events + [RunThen(f)], more, ItemOf(c, Run(c, events), f))
    ensures
      var item := ItemOf(c, Run(c, events), f);
      var reply := ReplyTo(Run(c, events + [RunThen(f)] + more), item.key, now);
      if now < item.stamp then reply == Hit(item.value) else reply.Await?
  {
    var s, item := Run(c, events), ItemOf(c, Run(c, events), f);
    RunInv(c, events);
    EntrySpared(c, s, RunThen(f), item);
    Step(c, events, RunThen(f), s, Apply(c, s, RunThen(f)));
    EntryStays(c, events + [RunThen(f)], more, item, |more|);
    assert more[..|more|] == more;
    RunInv(c, events + [RunThen(f)] + more);
    GetIs(Run(c, events + [RunThen(f)] + more).entries, item);
  }

  lemma SizeBounded<T(!new)>(c: Config, events: seq<Event<T>>)
    ensures |Run(c, events).entries| <= AtLeastOne(c.maxEntries)
  {
    RunInv(c, events);
  }

  /** The first value to be stored stays, even when the limit is 0 or less. */
  lemma FirstStays<T(!new)>(item: Item<T>, maxEntries: int)
    ensures |Store([], item, maxEntries)| == 1
  {
    EvictIs([item]);
  }

  lemma StoreOnce<T(!new)>(c: Config, key: string, value: T) returns (events: seq<Event<T>>)
    ensures |Run(c, events).entries| == 1
  {
    var done := Fulfilled(value);
    var s0: State<T> := State([], [], map[]);
    var s1 := State([Flight(key, 0, Computing)], [], map[key := 0]);
    var s2 := State([Flight(key, 0, Settled(done))], [], map[key := 0]);
    Step(c, [], Call(key, 0), s0, s1);
    events := [] + [Call(key, 0)];
    Step(c, events, Settle(0, done), s1, s2);
    events := events + [Settle(0, done)];
    FirstStays(Item(key, 0 + c.ttlMs, value), c.maxEntries);
    Step(c, events, RunThen(0), s2, Apply(c, s2, RunThen(0)));
    events := events + [RunThen(0)];
  }

  /** The map stays within maxEntries on every run if and only if maxEntries is at least 1. */
  lemma SizeBoundedExactly<T(!new)>(c: Config, value: T)
    ensures (forall events: seq<Event<T>> :: |Run(c, events).entries| <= c.maxEntries) <==> c.maxEntries >= 1
  {
    if c.maxEntries >= 1 {
      forall events: seq<Event<T>> ensures |Run(c, events).entries| <= c.maxEntries { SizeBounded(c, events); }
    } else {
      var events := StoreOnce(c, [], value);
    }
  }

  // ---------------------------------------------------------------- invisibility

  /** Flights keep their key and, once settled, their outcome. */
  lemma {:induction false} FlightsKept<T(!new)>(c: Config, events: seq<Event<T>>, i: nat, f: nat)
    requires i <= |events| && f < |Run(c, events[..i]).flights|
    ensures f < |Run(c, events).flights|
    ensures Run(c, events).flights[f].key == Run(c, events[..i]).flights[f].key
    ensures OutcomeOf(Run(c, events[..i]).flights[f]).Some? ==>
      OutcomeOf(Run(c, events).flights[f]) == OutcomeOf(Run(c, events[..i]).flights[f])
  {
    if i == |events| {
      assert events[..i] == events;
    } else {
      var most := events[..|events| - 1];
      assert most[..i] == events[..i];
      FlightsKept(c, most, i, f);
      StepKeeps(c, Run(c, most), events[|events| - 1], f);
    }
  }

  lemma StepKeeps<T(!new)>(c: Config, s: State<T>, e: Event<T>, f: nat)
    requires f < |s.flights|
    ensures f < |Apply(c, s, e).flights| && Apply(c, s, e).flights[f].key == s.flights[f].key
    ensures OutcomeOf(s.flights[f]).Some? ==> OutcomeOf(Apply(c, s, e).flights[f]) == OutcomeOf(s.flights[f])
  {
  }

  /** What the caller of event `i` has been answered by the end of the run. */
  function Answer<T>(c: Config, events: seq<Event<T>>, i: nat): Option<Outcome<T>>
    requires i < |events| && events[i].Call?
  {
    match ReplyTo(Run(c, events[..i]), events[i].key, events[i].now)
    case Hit(value) => Some(Fulfilled(value))
    case Await(f) => if f < |Run(c, events).flights| then OutcomeOf(Run(c, events).flights[f]) else None
  }

  /** With computes that depend only on the key nobody can tell the cache is there: whatever the
      clock, the settings and the interleaving, each caller that gets a value gets the one its
      own compute would have given. */
  lemma CacheInvisible<T(!new)>(c: Config, events: seq<Event<T>>, compute: string -> T, i: nat)
    requires i < |events| && events[i].Call?
    requires forall f: nat, v ::
      f < |Run(c, events).flights| && OutcomeOf(Run(c, events).flights[f]) == Some(Fulfilled(v)) ==>
      v == compute(Run(c, events).flights[f].key)
    ensures Answer(c, events, i).Some? && Answer(c, events, i).value.Fulfilled? ==>
      Answer(c, events, i).value.value == compute(events[i].key)
  {
    var s, key, now := Run(c, events[..i]), events[i].key, events[i].now;
    match ReplyTo(s, key, now) {
      case Hit(value) =>
        HitIsFresh(c, events[..i], key, now);
        var f: nat :| f < |s.flights| && s.flights[f].key == key && OutcomeOf(s.flights[f]) == Some(Fulfilled(value));
        FlightsKept(c, events, i, f);
      case Await(f) =>
        AwaitedKey(c, events, i);
    }
  }

  lemma AwaitedKey<T(!new)>(c: Config, events: seq<Event<T>>, i: nat)
    requires i < |events| && events[i].Call?
    requires ReplyTo(Run(c, events[..i]), events[i].key, events[i].now).Await?
    ensures
      var f := ReplyTo(Run(c, events[..i]), events[i].key, events[i].now).f;
      f < |Run(c, events).flights| && Run(c, events).flights[f].key == events[i].key
  {
    var s, key, now := Run(c, events[..i]), events[i].key, events[i].now;
    SingleFlight(c, events[..i], key, now);
    RunInv(c, events[..i]);
    assert events[..i + 1][..i] == events[..i];
    FlightsKept(c, events, i + 1, ReplyTo(s, key, now).f);
  }
}
