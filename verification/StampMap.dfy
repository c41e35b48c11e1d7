/** An insertion-ordered map of stamped entries with the half-eviction that
    src/lib/response-cache.ts and src/lib/last-active-throttle.ts share. */
module StampMap {
  import opened Wrappers
  import opened Sorting

  datatype Item<V> = Item(key: string, stamp: int, value: V)

  predicate Distinct<V>(items: seq<Item<V>>) {
    forall i, j :: 0 <= i < j < |items| ==> items[i].key != items[j].key
  }

  function Position<V>(items: seq<Item<V>>, key: string): (p: nat)
    ensures p <= |items|
    ensures p < |items| ==> items[p].key == key
    ensures forall i :: 0 <= i < p ==> items[i].key != key
  {
    if items == [] || items[0].key == key then 0 else 1 + Position(items[1..], key)
  }

  function Get<V>(items: seq<Item<V>>, key: string): Option<Item<V>> {
    var p := Position(items, key);
    if p < |items| then Some(items[p]) else None
  }

  /** A key that is already present keeps its place. */
  function Put<V>(items: seq<Item<V>>, item: Item<V>): seq<Item<V>> {
    var p := Position(items, item.key);
    if p < |items| then items[p := item] else items + [item]
  }

  function Delete<V>(items: seq<Item<V>>, key: string): seq<Item<V>> {
    var p := Position(items, key);
    if p < |items| then items[..p] + items[p + 1..] else items
  }

  function DeleteAll<V>(items: seq<Item<V>>, victims: seq<Item<V>>): seq<Item<V>> {
    if victims == [] then items
    else Delete(DeleteAll(items, victims[..|victims| - 1]), victims[|victims| - 1].key)
  }

  predicate Older<V>(a: Item<V>, b: Item<V>) {
    a.stamp <= b.stamp
  }

  function Oldest<V>(items: seq<Item<V>>): seq<Item<V>> {
    var sorted := Sort(items, Older);
    sorted[..|sorted| / 2]
  }

  /** The map after one eviction pass. */
  function Evict<V>(items: seq<Item<V>>): seq<Item<V>> {
    DeleteAll(items, Oldest(items))
  }

  /** The eviction loop: the victims are deleted one by one. */
  method EvictOldest<V>(items: seq<Item<V>>) returns (kept: seq<Item<V>>)
    ensures kept == Evict(items)
  {
    var sorted := Sort(items, Older);
    var evict := |sorted| / 2;
    kept := items;
    for i := 0 to evict
      invariant kept == DeleteAll(items, sorted[..i])
    {
      assert sorted[..i + 1][..i] == sorted[..i];
      kept := Delete(kept, sorted[i].key);
    }
  }

  // ---------------------------------------------------------------- lookups

  lemma GetIs<V>(items: seq<Item<V>>, x: Item<V>)
    requires Distinct(items)
    ensures Get(items, x.key) == Some(x) <==> x in items
  {
    if x in items {
      var i :| 0 <= i < |items| && items[i] == x;
      var p := Position(items, x.key);
      assert p == i;
    }
  }

  lemma PutIs<V>(items: seq<Item<V>>, item: Item<V>)
    requires Distinct(items)
    ensures Distinct(Put(items, item))
    ensures forall x :: x in Put(items, item) <==> x == item || (x in items && x.key != item.key)
    ensures |Put(items, item)| == |items| + if Get(items, item.key).None? then 1 else 0
  {
    var p, r := Position(items, item.key), Put(items, item);
    forall x ensures x in r <==> x == item || (x in items && x.key != item.key) {
      if x in items && x.key != item.key {
        var i :| 0 <= i < |items| && items[i] == x;
        assert r[i] == x;
      }
      if x == item {
        assert r[p] == x;
      }
    }
  }

  lemma DeleteIs<V>(items: seq<Item<V>>, key: string)
    requires Distinct(items)
    ensures Distinct(Delete(items, key))
    ensures forall x :: x in Delete(items, key) <==> x in items && x.key != key
    ensures |Delete(items, key)| == |items| - if Get(items, key).Some? then 1 else 0
  {
    var p, r := Position(items, key), Delete(items, key);
    forall x ensures x in r <==> x in items && x.key != key {
      if x in items && x.key != key {
        var i :| 0 <= i < |items| && items[i] == x;
        assert r[if i < p then i else i - 1] == x;
      }
    }
  }

  lemma DistinctKeys<V>(items: seq<Item<V>>, x: Item<V>, y: Item<V>)
    requires Distinct(items) && x in items && y in items && x != y
    ensures x.key != y.key
  {
  }

  lemma DeleteAnother<V>(items: seq<Item<V>>, init: seq<Item<V>>, last: Item<V>, rest: seq<Item<V>>)
    requires Distinct(rest) && last in rest
    requires forall x :: x in rest <==> x in items && x !in init
    ensures Distinct(Delete(rest, last.key)) && |Delete(rest, last.key)| == |rest| - 1
    ensures forall x :: x in Delete(rest, last.key) <==> x in items && x !in init + [last]
  {
    GetIs(rest, last);
    DeleteIs(rest, last.key);
    forall x ensures x in Delete(rest, last.key) <==> x in items && x !in init + [last] {
      if x in rest && x != last { DistinctKeys(rest, x, last); }
    }
  }

  lemma {:induction false} DeleteAllIs<V>(items: seq<Item<V>>, victims: seq<Item<V>>)
    requires Distinct(items) && Distinct(victims)
    requires forall i :: 0 <= i < |victims| ==> victims[i] in items
    ensures Distinct(DeleteAll(items, victims))
    ensures forall x :: x in DeleteAll(items, victims) <==> x in items && x !in victims
    ensures |DeleteAll(items, victims)| == |items| - |victims|
  {
    if victims == [] {
    } else {
      var init, last := victims[..|victims| - 1], victims[|victims| - 1];
      assert victims == init + [last];
      DeleteAllIs(items, init);
      assert last !in init;
      DeleteAnother(items, init, last, DeleteAll(items, init));
    }
  }

  // ---------------------------------------------------------------- eviction

  lemma OlderIsTotal<V(!new)>()
    ensures TotalPreorder<Item<V>>(Older)
  {
  }

  lemma {:induction false} InsertDistinct<V>(items: seq<Item<V>>, x: Item<V>)
    requires Distinct(items) && forall i :: 0 <= i < |items| ==> items[i].key != x.key
    ensures Distinct(Insert(items, x, Older))
  {
    if items == [] {
    } else {
      var init, last := items[..|items| - 1], items[|items| - 1];
      if !Older(last, x) {
        InsertDistinct(init, x);
        InsertMultiset(init, x, Older);
        var r := Insert(init, x, Older);
        forall i | 0 <= i < |r| ensures r[i].key != last.key {
          assert r[i] in multiset(r);
          if r[i] != x { assert r[i] in multiset(init); }
        }
      }
    }
  }

  lemma SortMember<V>(items: seq<Item<V>>, i: nat)
    requires i < |items|
    ensures |Sort(items, Older)| == |items| && Sort(items, Older)[i] in items
  {
    SortMultiset(items, Older);
    assert Sort(items, Older)[i] in multiset(Sort(items, Older));
    assert Sort(items, Older)[i] in multiset(items);
  }

  lemma {:induction false} SortDistinct<V>(items: seq<Item<V>>)
    requires Distinct(items)
    ensures Distinct(Sort(items, Older))
  {
    if items == [] {
    } else {
      var init, last := items[..|items| - 1], items[|items| - 1];
      SortDistinct(init);
      SortMultiset(init, Older);
      var s := Sort(init, Older);
      forall i | 0 <= i < |s| ensures s[i].key != last.key {
        SortMember(init, i);
        var k :| 0 <= k < |init| && init[k] == s[i];
        assert items[k].key != last.key;
      }
      InsertDistinct(s, last);
    }
  }

  lemma OldestIs<V(!new)>(items: seq<Item<V>>)
    requires Distinct(items)
    ensures |Oldest(items)| == |items| / 2 && Distinct(Oldest(items))
    ensures forall i :: 0 <= i < |Oldest(items)| ==> Oldest(items)[i] in items
  {
    var sorted := Sort(items, Older);
    SortMultiset(items, Older);
    SortDistinct(items);
    forall i | 0 <= i < |items| / 2 ensures sorted[i] in items { SortMember(items, i); }
  }

  lemma OldestAreOlder<V(!new)>(items: seq<Item<V>>, x: Item<V>, y: Item<V>)
    requires Distinct(items) && x in items && x !in Oldest(items) && y in Oldest(items)
    ensures y.stamp <= x.stamp
  {
    var sorted, half := Sort(items, Older), |items| / 2;
    SortMultiset(items, Older);
    OlderIsTotal<V>();
    SortOrders(items, Older);
    assert x in sorted;
    var i :| 0 <= i < |sorted| && sorted[i] == x;
    var j :| 0 <= j < half && Oldest(items)[j] == y;
    assert i >= half by {
      assert forall k :: 0 <= k < half ==> Oldest(items)[k] == sorted[k];
    }
    assert Older(sorted[j], sorted[i]);
  }

  lemma DeletedAll<V(!new)>(items: seq<Item<V>>, victims: seq<Item<V>>, kept: seq<Item<V>>)
    requires Distinct(items) && Distinct(victims) && kept == DeleteAll(items, victims)
    requires forall i :: 0 <= i < |victims| ==> victims[i] in items
    ensures Distinct(kept) && |kept| == |items| - |victims|
    ensures forall x :: x in kept <==> x in items && x !in victims
  {
    DeleteAllIs(items, victims);
  }

  lemma EvictMembers<V(!new)>(items: seq<Item<V>>)
    requires Distinct(items)
    ensures Distinct(Evict(items))
    ensures |Evict(items)| == |items| - |items| / 2
    ensures forall x :: x in Evict(items) <==> x in items && x !in Oldest(items)
  {
    OldestIs(items);
    DeletedAll(items, Oldest(items), Evict(items));
  }

  /** One pass drops the older half, rounded down: nothing that stays is older than anything
      that goes, and what stays is unchanged. */
  lemma EvictIs<V(!new)>(items: seq<Item<V>>)
    requires Distinct(items)
    ensures Distinct(Evict(items))
    ensures |Evict(items)| == |items| - |items| / 2
    ensures forall x :: x in Evict(items) ==> x in items
    ensures forall x, y :: x in Evict(items) && y in items && y !in Evict(items) ==> y.stamp <= x.stamp
  {
    EvictMembers(items);
    forall x, y | x in Evict(items) && y in items && y !in Evict(items)
      ensures y.stamp <= x.stamp
    {
      OldestAreOlder(items, x, y);
    }
  }

  // ---------------------------------------------------------------- bounded insertion

  /** Put, and one eviction pass if the map has outgrown its limit. */
  function Store<V>(items: seq<Item<V>>, item: Item<V>, maxEntries: int): seq<Item<V>> {
    var put := Put(items, item);
    if |put| > maxEntries then Evict(put) else put
  }

  function AtLeastOne(maxEntries: int): nat {
    if maxEntries >= 1 then maxEntries else 1
  }

  lemma StoreBounded<V(!new)>(items: seq<Item<V>>, item: Item<V>, maxEntries: int)
    requires Distinct(items) && |items| <= AtLeastOne(maxEntries)
    ensures Distinct(Store(items, item, maxEntries))
    ensures |Store(items, item, maxEntries)| <= AtLeastOne(maxEntries)
    ensures forall x :: x in Store(items, item, maxEntries) ==> x == item || (x in items && x.key != item.key)
  {
    PutIs(items, item);
    EvictIs(Put(items, item));
  }
}
