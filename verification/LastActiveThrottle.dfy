/** The write throttle of src/lib/last-active-throttle.ts. */
module LastActiveThrottle {
  import opened Wrappers
  import opened Sorting
  import opened StampMap

  datatype Config = Config(windowMs: int, maxEntries: int)

  datatype Call = Call(id: string, now: int)

  /** `value` carries nothing: an entry is an id and its stamp. */
  type Stamps = seq<Item<()>>

  predicate ShouldWrite(c: Config, stamps: Stamps, call: Call) {
    match Get(stamps, call.id)
    case Some(last) => call.now - last.stamp >= c.windowMs
    case None => true
  }

  function Apply(c: Config, stamps: Stamps, call: Call): Stamps {
    if ShouldWrite(c, stamps, call) then Store(stamps, Item(call.id, call.now, ()), c.maxEntries) else stamps
  }

  /** The map after the first calls of a run. */
  function Run(c: Config, calls: seq<Call>): Stamps {
    if calls == [] then [] else Apply(c, Run(c, calls[..|calls| - 1]), calls[|calls| - 1])
  }

  class Throttle {
    const config: Config
    var stamps: Stamps

    constructor (windowMs: int, maxEntries: int)
      ensures config == Config(windowMs, maxEntries) && stamps == Run(config, [])
    {
      config := Config(windowMs, maxEntries);
      stamps := [];
    }

    method ShouldWriteNow(id: string, now: int) returns (write: bool)
      modifies this`stamps
      ensures write == ShouldWrite(config, old(stamps), Call(id, now))
      ensures stamps == Apply(config, old(stamps), Call(id, now))
    {
      var last := Get(stamps, id);
      if last.Some? && now - last.value.stamp < config.windowMs {
        return false;
      }
      stamps := Put(stamps, Item(id, now, ()));
      if |stamps| > config.maxEntries {
        stamps := EvictOldest(stamps);
      }
      return true;
    }
  }

  // ---------------------------------------------------------------- size

  lemma {:induction false} RunBounded(c: Config, calls: seq<Call>)
    ensures Distinct(Run(c, calls)) && |Run(c, calls)| <= AtLeastOne(c.maxEntries)
  {
    if calls == [] {
    } else {
      var most, last := calls[..|calls| - 1], calls[|calls| - 1];
      RunBounded(c, most);
      StoreBounded(Run(c, most), Item(last.id, last.now, ()), c.maxEntries);
    }
  }

  /** The map stays within maxEntries on every run if and only if maxEntries is at least 1. */
  lemma SizeBoundedExactly(c: Config)
    ensures (forall calls: seq<Call> :: |Run(c, calls)| <= c.maxEntries) <==> c.maxEntries >= 1
  {
    if c.maxEntries >= 1 {
      forall calls: seq<Call> ensures |Run(c, calls)| <= c.maxEntries { RunBounded(c, calls); }
    } else {
      var calls := [Call([], 0)];
      assert calls[..0] == [];
      EvictIs(Put([], Item([], 0, ())));
      assert |Run(c, calls)| == 1;
    }
  }

  // ---------------------------------------------------------------- early writes

  /** The answer to call `i` of a run. */
  predicate Answer(c: Config, calls: seq<Call>, i: nat)
    requires i < |calls|
  {
    ShouldWrite(c, Run(c, calls[..i]), calls[i])
  }

  lemma RunStep(c: Config, calls: seq<Call>, i: nat)
    requires i < |calls|
    ensures Run(c, calls[..i + 1]) == Apply(c, Run(c, calls[..i]), calls[i])
  {
    assert calls[..i + 1][..i] == calls[..i];
  }

  /** Call `k` ran an eviction that dropped `item`. */
  predicate Drops(c: Config, calls: seq<Call>, k: nat, item: Item<()>)
    requires k < |calls|
  {
    var put := Put(Run(c, calls[..k]), Item(calls[k].id, calls[k].now, ()));
    && Answer(c, calls, k)
    && |put| > c.maxEntries
    && item in put
    && item !in Run(c, calls[..k + 1])
  }

  /** An entry that is there and is not there after the next call, which was not for its id,
      was dropped by an eviction. */
  lemma LostMeansDropped(c: Config, calls: seq<Call>, k: nat, item: Item<()>)
    requires k < |calls|
    requires item in Run(c, calls[..k]) || (Answer(c, calls, k) && item == Item(calls[k].id, calls[k].now, ()))
    requires calls[k].id == item.key ==> !Answer(c, calls, k) || item == Item(calls[k].id, calls[k].now, ())
    requires item !in Run(c, calls[..k + 1])
    ensures Drops(c, calls, k, item)
  {
    RunStep(c, calls, k);
    RunBounded(c, calls[..k]);
    PutIs(Run(c, calls[..k]), Item(calls[k].id, calls[k].now, ()));
  }

  /** What an eviction leaves when it drops an entry: at least half of a full map, all for
      other ids and none of it older than what was dropped. */
  lemma DropLeaves(c: Config, calls: seq<Call>, k: nat, item: Item<()>)
    requires k < |calls| && Drops(c, calls, k, item)
    ensures |Run(c, calls[..k + 1])| >= (c.maxEntries + 2) / 2
    ensures Distinct(Run(c, calls[..k + 1]))
    ensures forall x :: x in Run(c, calls[..k + 1]) ==> x.key != item.key && x.stamp >= item.stamp
  {
    var put := Put(Run(c, calls[..k]), Item(calls[k].id, calls[k].now, ()));
    RunStep(c, calls, k);
    RunBounded(c, calls[..k]);
    PutIs(Run(c, calls[..k]), Item(calls[k].id, calls[k].now, ()));
    EvictIs(put);
    forall x | x in Evict(put) ensures x.key != item.key && x.stamp >= item.stamp { DistinctKeys(put, x, item); }
  }

  ghost predicate DroppedIn(c: Config, calls: seq<Call>, i: nat, j: nat, item: Item<()>) {
    exists k: nat :: i <= k < j && k < |calls| && Drops(c, calls, k, item)
  }

  /** Either an entry survives to the end of a stretch of calls without a write for its id, or
      one of them dropped it. */
  lemma {:induction false} SurvivesOrDropped(c: Config, calls: seq<Call>, i: nat, j: nat, item: Item<()>)
    requires i < j <= |calls| && Answer(c, calls, i) && item == Item(calls[i].id, calls[i].now, ())
    requires forall m :: i < m < j && calls[m].id == calls[i].id ==> !Answer(c, calls, m)
    ensures item in Run(c, calls[..j]) || DroppedIn(c, calls, i, j, item)
  {
    var last := j - 1;
    if item !in Run(c, calls[..last + 1]) {
      if i < last {
        SurvivesOrDropped(c, calls, i, last, item);
      }
      if i == last || item in Run(c, calls[..last]) {
        LostMeansDropped(c, calls, last, item);
      }
    }
  }

  /** Call `i` was answered with true, and no later call for its id before call `j` was. */
  predicate LastWrite(c: Config, calls: seq<Call>, i: nat, j: nat) {
    && i < j <= |calls| && Answer(c, calls, i)
    && forall m :: i < m < j && calls[m].id == calls[i].id ==> !Answer(c, calls, m)
  }

  /** Two consecutive writes for an id less than windowMs apart: an eviction at or after the
      first one dropped the id and kept at least half of more than maxEntries entries, all of
      other ids and stamped no earlier than the first write. No assumption on the clock. */
  lemma EarlyWriteMeansEviction(c: Config, calls: seq<Call>, i: nat, j: nat) returns (k: nat)
    requires j < |calls| && LastWrite(c, calls, i, j) && calls[i].id == calls[j].id && Answer(c, calls, j)
    requires calls[j].now - calls[i].now < c.windowMs
    ensures i <= k < j && Drops(c, calls, k, Item(calls[i].id, calls[i].now, ()))
    ensures |Run(c, calls[..k + 1])| >= (c.maxEntries + 2) / 2 && Distinct(Run(c, calls[..k + 1]))
    ensures forall x :: x in Run(c, calls[..k + 1]) ==> x.key != calls[i].id && x.stamp >= calls[i].now
  {
    var item := Item(calls[i].id, calls[i].now, ());
    SurvivesOrDropped(c, calls, i, j, item);
    RunBounded(c, calls[..j]);
    GetIs(Run(c, calls[..j]), item);
    k :| i <= k < j && Drops(c, calls, k, item);
    DropLeaves(c, calls, k, item);
  }

  // ---------------------------------------------------------------- refusals

  lemma EntryOrigin(c: Config, calls: seq<Call>, k: nat, x: Item<()>)
    requires k < |calls| && x in Run(c, calls[..k + 1])
    ensures if Answer(c, calls, k) && calls[k].id == x.key then x == Item(calls[k].id, calls[k].now, ())
            else x in Run(c, calls[..k])
  {
    RunStep(c, calls, k);
    RunBounded(c, calls[..k]);
    StoreBounded(Run(c, calls[..k]), Item(calls[k].id, calls[k].now, ()), c.maxEntries);
  }

  lemma LastWriteExtends(c: Config, calls: seq<Call>, i: nat, j: nat)
    requires j < |calls| && LastWrite(c, calls, i, j) && !(Answer(c, calls, j) && calls[j].id == calls[i].id)
    ensures LastWrite(c, calls, i, j + 1)
  {
  }

  /** An entry is the stamp of the last write for its id. */
  lemma {:induction false} EntryIsLastWrite(c: Config, calls: seq<Call>, j: nat, x: Item<()>) returns (i: nat)
    requires j <= |calls| && x in Run(c, calls[..j])
    ensures LastWrite(c, calls, i, j) && x == Item(calls[i].id, calls[i].now, ())
  {
    assert j > 0;
    var last := j - 1;
    EntryOrigin(c, calls, last, x);
    if Answer(c, calls, last) && calls[last].id == x.key {
      i := last;
    } else {
      i := EntryIsLastWrite(c, calls, last, x);
      LastWriteExtends(c, calls, i, last);
    }
  }

  /** A call is turned down only if the last write for its id was less than windowMs before. */
  lemma RefusedMeansRecent(c: Config, calls: seq<Call>, j: nat) returns (i: nat)
    requires j < |calls| && !Answer(c, calls, j)
    ensures LastWrite(c, calls, i, j) && calls[i].id == calls[j].id && calls[j].now - calls[i].now < c.windowMs
  {
    var stamps := Run(c, calls[..j]);
    var x := stamps[Position(stamps, calls[j].id)];
    i := EntryIsLastWrite(c, calls, j, x);
  }

  // ---------------------------------------------------------------- few ids

  lemma {:induction false} DistinctCount(items: Stamps, ids: set<string>)
    requires Distinct(items) && forall i :: 0 <= i < |items| ==> items[i].key in ids
    ensures |items| <= |ids|
  {
    if items == [] {
    } else {
      DistinctCount(items[1..], ids - {items[0].key});
    }
  }

  lemma {:induction false} RunKeys(c: Config, calls: seq<Call>, ids: set<string>, x: Item<()>)
    requires forall i :: 0 <= i < |calls| ==> calls[i].id in ids
    requires x in Run(c, calls)
    ensures x.key in ids
  {
    var most, last := calls[..|calls| - 1], calls[|calls| - 1];
    RunBounded(c, most);
    StoreBounded(Run(c, most), Item(last.id, last.now, ()), c.maxEntries);
    if x in Run(c, most) {
      RunKeys(c, most, ids, x);
    }
  }

  /** An eviction needs more than one entry to drop any. */
  lemma DropNeedsMore(c: Config, calls: seq<Call>, ids: set<string>, k: nat, item: Item<()>)
    requires forall m :: 0 <= m < |calls| ==> calls[m].id in ids
    requires k < |calls| && Drops(c, calls, k, item)
    ensures |ids| > AtLeastOne(c.maxEntries)
  {
    var put := Put(Run(c, calls[..k]), Item(calls[k].id, calls[k].now, ()));
    PutWithin(c, calls, ids, k);
    RunStep(c, calls, k);
    assert Run(c, calls[..k + 1]) == Evict(put);
    if |put| <= 1 { EvictSmall(put); }
  }

  lemma EvictSmall(put: Stamps)
    requires |put| <= 1
    ensures Evict(put) == put
  {
    SortMultiset(put, Older);
    assert Oldest(put) == [];
  }

  /** As long as no more ids turn up than the map can hold, the promise holds outright: a call is
      answered with true if and only if the last write for its id, if any, was at least windowMs
      before. */
  lemma FewIdsExact(c: Config, calls: seq<Call>, ids: set<string>, j: nat)
    requires forall k :: 0 <= k < |calls| ==> calls[k].id in ids
    requires |ids| <= AtLeastOne(c.maxEntries) && j < |calls|
    ensures Answer(c, calls, j) <==>
      forall i: nat :: LastWrite(c, calls, i, j) && calls[i].id == calls[j].id ==>
        calls[j].now - calls[i].now >= c.windowMs
  {
    if Answer(c, calls, j) {
      forall i: nat | LastWrite(c, calls, i, j) && calls[i].id == calls[j].id
        ensures calls[j].now - calls[i].now >= c.windowMs
      {
        if calls[j].now - calls[i].now < c.windowMs {
          var k := EarlyWriteMeansEviction(c, calls, i, j);
          DropNeedsMore(c, calls, ids, k, Item(calls[i].id, calls[i].now, ()));
        }
      }
    } else {
      var i := RefusedMeansRecent(c, calls, j);
    }
  }

  lemma PutWithin(c: Config, calls: seq<Call>, ids: set<string>, k: nat)
    requires forall m :: 0 <= m < |calls| ==> calls[m].id in ids
    requires k < |calls|
    ensures |Put(Run(c, calls[..k]), Item(calls[k].id, calls[k].now, ()))| <= |ids|
  {
    var stamps, item := Run(c, calls[..k]), Item(calls[k].id, calls[k].now, ());
    RunBounded(c, calls[..k]);
    PutIs(stamps, item);
    var put := Put(stamps, item);
    forall i | 0 <= i < |put| ensures put[i].key in ids {
      assert put[i] in put;
      if put[i] != item { RunKeys(c, calls[..k], ids, put[i]); }
    }
    DistinctCount(put, ids);
  }

  // ---------------------------------------------------------------- the promise, exactly

  /** At most one write per id and window. */
  ghost predicate KeepsPromise(c: Config, calls: seq<Call>) {
    forall i: nat, j: nat ::
      j < |calls| && LastWrite(c, calls, i, j) && calls[i].id == calls[j].id && Answer(c, calls, j) ==>
      calls[j].now - calls[i].now >= c.windowMs
  }

  /** Calls for some of `ids`, by a clock that does not run backwards. */
  predicate RunOver(calls: seq<Call>, ids: set<string>) {
    && (forall k :: 0 <= k < |calls| ==> calls[k].id in ids)
    && (forall i, j :: 0 <= i < j < |calls| ==> calls[i].now <= calls[j].now)
  }

  lemma {:induction false} Enumerate(ids: set<string>, n: nat) returns (xs: seq<string>)
    requires n <= |ids|
    ensures |xs| == n && (forall i :: 0 <= i < n ==> xs[i] in ids)
    ensures forall i, j :: 0 <= i < j < n ==> xs[i] != xs[j]
  {
    if n == 0 {
      xs := [];
    } else {
      var x :| x in ids;
      var rest := Enumerate(ids - {x}, n - 1);
      xs := [x] + rest;
    }
  }

  /** One call for each id, all at the same time, and the entries that makes. */
  function Burst(xs: seq<string>): seq<Call> {
    seq(|xs|, i requires 0 <= i < |xs| => Call(xs[i], 0))
  }

  function Stamped(xs: seq<string>): Stamps {
    seq(|xs|, i requires 0 <= i < |xs| => Item(xs[i], 0, ()))
  }

  lemma PutNew(xs: seq<string>, id: string)
    requires id !in xs
    ensures Put(Stamped(xs), Item(id, 0, ())) == Stamped(xs + [id]) && Get(Stamped(xs), id).None?
  {
    forall i | 0 <= i < |xs| ensures Stamped(xs)[i].key != id { assert xs[i] in xs; }
  }

  lemma {:induction false} BurstFits(c: Config, xs: seq<string>)
    requires |xs| <= AtLeastOne(c.maxEntries) && forall i, j :: 0 <= i < j < |xs| ==> xs[i] != xs[j]
    ensures Run(c, Burst(xs)) == Stamped(xs)
  {
    if xs == [] {
      assert Burst(xs) == [] && Stamped(xs) == [];
    } else {
      var init, last := xs[..|xs| - 1], xs[|xs| - 1];
      assert Burst(xs)[..|xs| - 1] == Burst(init) && xs == init + [last];
      BurstFits(c, init);
      PutNew(init, last);
      if |xs| > c.maxEntries {
        assert Stamped(xs) == [Item(last, 0, ())];
        EvictSmall(Stamped(xs));
      }
    }
  }

  lemma BurstAnswers(c: Config, xs: seq<string>, i: nat)
    requires |xs| == AtLeastOne(c.maxEntries) + 1 && i < |xs| && forall k, l :: 0 <= k < l < |xs| ==> xs[k] != xs[l]
    ensures Answer(c, Burst(xs), i) && Run(c, Burst(xs)[..i]) == Stamped(xs[..i])
  {
    assert Burst(xs)[..i] == Burst(xs[..i]);
    BurstFits(c, xs[..i]);
    PutNew(xs[..i], xs[i]);
  }

  /** An eviction from a map of several entries drops some of them. */
  lemma SomeDropped(put: Stamps) returns (i: nat)
    requires Distinct(put) && |put| >= 2
    ensures i < |put| && Get(Evict(put), put[i].key).None?
  {
    OldestIs(put);
    EvictMembers(put);
    i :| 0 <= i < |put| && put[i] == Oldest(put)[0];
    NotKept(put, i);
  }

  lemma NotKept(put: Stamps, i: nat)
    requires Distinct(put) && i < |put| && Distinct(Evict(put)) && put[i] !in Evict(put)
    requires forall x :: x in Evict(put) ==> x in put
    ensures Get(Evict(put), put[i].key).None?
  {
    var kept := Evict(put);
    forall p | 0 <= p < |kept| ensures kept[p].key != put[i].key {
      assert kept[p] in kept && put[i] in put;
      DistinctKeys(put, kept[p], put[i]);
    }
  }

  lemma BurstOverflows(c: Config, xs: seq<string>)
    requires |xs| == AtLeastOne(c.maxEntries) + 1 && forall k, l :: 0 <= k < l < |xs| ==> xs[k] != xs[l]
    ensures Run(c, Burst(xs)) == Evict(Stamped(xs))
  {
    var n := |xs| - 1;
    BurstAnswers(c, xs, n);
    PutNew(xs[..n], xs[n]);
    assert xs[..n] + [xs[n]] == xs && Burst(xs)[..n + 1] == Burst(xs);
    RunStep(c, Burst(xs), n);
  }

  /** One id more than the map can hold, and one of them is forgotten at once. */
  lemma BurstForgets(c: Config, xs: seq<string>) returns (i: nat)
    requires |xs| == AtLeastOne(c.maxEntries) + 1 && forall k, l :: 0 <= k < l < |xs| ==> xs[k] != xs[l]
    ensures i < |xs| && Get(Run(c, Burst(xs)), xs[i]).None?
  {
    BurstOverflows(c, xs);
    i := SomeDropped(Stamped(xs));
  }

  lemma ForgottenWritesAgain(c: Config, xs: seq<string>, i: nat, calls: seq<Call>)
    requires |xs| == AtLeastOne(c.maxEntries) + 1 && (forall k, l :: 0 <= k < l < |xs| ==> xs[k] != xs[l]) && i < |xs|
    requires Get(Run(c, Burst(xs)), xs[i]).None? && calls == Burst(xs) + [Call(xs[i], 0)]
    ensures LastWrite(c, calls, i, |xs|) && Answer(c, calls, |xs|)
  {
    var n := |xs|;
    assert calls[..n] == Burst(xs) && calls[..i] == Burst(xs)[..i];
    BurstAnswers(c, xs, i);
  }

  lemma TooManyIds(c: Config, ids: set<string>) returns (calls: seq<Call>)
    requires |ids| > AtLeastOne(c.maxEntries) && c.windowMs > 0
    ensures RunOver(calls, ids) && !KeepsPromise(c, calls)
  {
    var xs := Enumerate(ids, AtLeastOne(c.maxEntries) + 1);
    var i := BurstForgets(c, xs);
    calls := Burst(xs) + [Call(xs[i], 0)];
    ForgottenWritesAgain(c, xs, i, calls);
    AllAtOnce(xs, i, ids);
    BreaksPromise(c, calls, i, |xs|);
  }

  lemma AllAtOnce(xs: seq<string>, i: nat, ids: set<string>)
    requires i < |xs| && forall k :: 0 <= k < |xs| ==> xs[k] in ids
    ensures
      var calls := Burst(xs) + [Call(xs[i], 0)];
      && RunOver(calls, ids)
      && calls[i] == calls[|xs|] == Call(xs[i], 0)
  {
  }

  lemma BreaksPromise(c: Config, calls: seq<Call>, i: nat, j: nat)
    requires j < |calls| && LastWrite(c, calls, i, j) && calls[i].id == calls[j].id && Answer(c, calls, j)
    requires calls[j].now - calls[i].now < c.windowMs
    ensures !KeepsPromise(c, calls)
  {
  }

  /** The promise is kept on all runs over a set of ids if and only if the map can hold an entry
      for each of them, or there is no window to speak of. */
  lemma PromiseKeptExactly(c: Config, ids: set<string>)
    ensures (forall calls: seq<Call> :: RunOver(calls, ids) ==> KeepsPromise(c, calls)) <==>
              |ids| <= AtLeastOne(c.maxEntries) || c.windowMs <= 0
  {
    if |ids| <= AtLeastOne(c.maxEntries) {
      forall calls: seq<Call> | RunOver(calls, ids) ensures KeepsPromise(c, calls) {
        forall i: nat, j: nat | j < |calls| && LastWrite(c, calls, i, j) && calls[i].id == calls[j].id
          && Answer(c, calls, j)
          ensures calls[j].now - calls[i].now >= c.windowMs
        {
          FewIdsExact(c, calls, ids, j);
        }
      }
    } else if c.windowMs > 0 {
      var calls := TooManyIds(c, ids);
    }
  }
}
