/** The join-table sync of src/lib/key-usage-extraction.ts for one config file: secret and
    variable usage follow the same steps. */
module UsageSync {
  import opened Wrappers

  datatype Row = Row(file: string, key: string)

  function KeysOf(rows: set<Row>, file: string): set<string> {
    set r | r in rows && r.file == file :: r.key
  }

  function RowsFor(file: string, keys: set<string>): set<Row> {
    set k | k in keys :: Row(file, k)
  }

  lemma KeysWithout(rows: set<Row>, file: string, keys: set<string>)
    ensures KeysOf(rows - RowsFor(file, keys), file) == KeysOf(rows, file) - keys
  {
    var after := rows - RowsFor(file, keys);
    forall k ensures k in KeysOf(after, file) <==> k in KeysOf(rows, file) - keys {
      assert k in keys <==> Row(file, k) in RowsFor(file, keys);
      assert k in KeysOf(rows, file) <==> Row(file, k) in rows;
      assert k in KeysOf(after, file) <==> Row(file, k) in after;
    }
  }

  lemma KeysWith(rows: set<Row>, file: string, keys: set<string>)
    ensures KeysOf(rows + RowsFor(file, keys), file) == KeysOf(rows, file) + keys
  {
    var after := rows + RowsFor(file, keys);
    forall k ensures k in KeysOf(after, file) <==> k in KeysOf(rows, file) + keys {
      assert k in keys <==> Row(file, k) in RowsFor(file, keys);
      assert k in KeysOf(rows, file) <==> Row(file, k) in rows;
      assert k in KeysOf(after, file) <==> Row(file, k) in after;
    }
  }

  /** The table, and the sync as it runs when nothing else writes in between. */
  class UsageTable {
    var rows: set<Row>

    constructor ()
      ensures rows == {}
    {
      rows := {};
    }

    method DeleteMany(file: string, keys: set<string>)
      modifies this
      ensures rows == old(rows) - RowsFor(file, keys)
    {
      rows := rows - RowsFor(file, keys);
    }

    /** All or nothing; false is the unique-constraint violation. */
    method CreateMany(file: string, keys: set<string>) returns (ok: bool)
      modifies this
      ensures ok <==> keys !! KeysOf(old(rows), file)
      ensures rows == if ok then old(rows) + RowsFor(file, keys) else old(rows)
    {
      ok := keys !! KeysOf(rows, file);
      if ok { rows := rows + RowsFor(file, keys); }
    }

    /** Afterwards the file has exactly the referenced keys; its rows for keys referenced
        before and after, and the rows of other files, are never touched. */
    method Sync(file: string, referenced: set<string>)
      modifies this
      ensures KeysOf(rows, file) == referenced
      ensures rows == (old(rows) - RowsFor(file, KeysOf(old(rows), file) - referenced)) +
        RowsFor(file, referenced - KeysOf(old(rows), file))
      ensures forall r: Row :: r.file != file ==> (r in rows <==> r in old(rows))
    {
      var existing := KeysOf(rows, file);
      var toCreate, toDelete := referenced - existing, existing - referenced;
      if toDelete != {} { DeleteMany(file, toDelete); }
      KeysWithout(old(rows), file, toDelete);
      assert rows == old(rows) - RowsFor(file, toDelete);
      if toCreate != {} {
        var ok := CreateMany(file, toCreate);
      }
      KeysWith(old(rows) - RowsFor(file, toDelete), file, toCreate);
      assert rows == old(rows) - RowsFor(file, toDelete) + RowsFor(file, toCreate);
    }
  }

  // ---------------------------------------------------------------- concurrent syncs

  /** A sync between its awaits; `toCreate` is fixed by what it read first. */
  datatype Phase =
    | Start
    | Diffed(toCreate: set<string>, toDelete: set<string>)
    | Cleared(toCreate: set<string>)
    | Collided(toCreate: set<string>)
    | Reread(retry: set<string>)
    | Finished
    | Failed

  /** The keys the file has in the table, and any number of syncs of the file. */
  datatype State = State(keys: set<string>, syncs: map<nat, Phase>)

  /** One step of one sync, of content that refers to `referenced`. */
  function Step(referenced: set<string>, s: State, id: nat): State {
    var phase := if id in s.syncs then s.syncs[id] else Start;
    match phase
    case Start => s.(syncs := s.syncs[id := Diffed(referenced - s.keys, s.keys - referenced)])
    case Diffed(toCreate, toDelete) => State(s.keys - toDelete, s.syncs[id := Cleared(toCreate)])
    case Cleared(toCreate) =>
      if toCreate !! s.keys then State(s.keys + toCreate, s.syncs[id := Finished])
      else s.(syncs := s.syncs[id := Collided(toCreate)])
    case Collided(toCreate) => s.(syncs := s.syncs[id := Reread(toCreate - s.keys)])
    case Reread(retry) =>
      if retry !! s.keys then State(s.keys + retry, s.syncs[id := Finished])
      else s.(syncs := s.syncs[id := Failed])
    case Finished => s
    case Failed => s
  }

  /** Syncs may be of different contents: sync `id` refers to `contents(id)`. */
  function Run(contents: nat -> set<string>, before: set<string>, steps: seq<nat>): State {
    if steps == [] then State(before, map[])
    else
      var id := steps[|steps| - 1];
      Step(contents(id), Run(contents, before, steps[..|steps| - 1]), id)
  }

  // ---------------------------------------------------------------- one key

  /** Every sync that took a step wants the key, or none does. */
  predicate Wanted(contents: nat -> set<string>, steps: seq<nat>, key: string) {
    forall i :: 0 <= i < |steps| ==> key in contents(steps[i])
  }

  predicate Unwanted(contents: nat -> set<string>, steps: seq<nat>, key: string) {
    forall i :: 0 <= i < |steps| ==> key !in contents(steps[i])
  }

  predicate WantedOk(keys: set<string>, phase: Phase, key: string) {
    match phase
    case Start => true
    case Diffed(toCreate, toDelete) => key !in toDelete && key in keys + toCreate
    case Cleared(toCreate) => key in keys + toCreate
    case Collided(toCreate) => key in keys + toCreate
    case Reread(retry) => key in keys + retry
    case Finished => key in keys
    case Failed => true
  }

  predicate UnwantedOk(keys: set<string>, phase: Phase, key: string) {
    match phase
    case Start => true
    case Diffed(toCreate, toDelete) => key !in toCreate && (key in keys ==> key in toDelete)
    case Cleared(toCreate) => key !in toCreate && key !in keys
    case Collided(toCreate) => key !in toCreate && key !in keys
    case Reread(retry) => key !in retry && key !in keys
    case Finished => key !in keys
    case Failed => key !in keys
  }

  /** A key that every sync wants is planned for or there, in each of them. */
  lemma {:induction false} WantedInv(contents: nat -> set<string>, before: set<string>, steps: seq<nat>, key: string)
    requires Wanted(contents, steps, key)
    ensures forall id :: id in Run(contents, before, steps).syncs ==>
      WantedOk(Run(contents, before, steps).keys, Run(contents, before, steps).syncs[id], key)
  {
    if steps == [] {
    } else {
      WantedInv(contents, before, steps[..|steps| - 1], key);
    }
  }

  /** A key that no sync wants is planned to go or gone, in each of them. */
  lemma {:induction false} UnwantedInv(contents: nat -> set<string>, before: set<string>, steps: seq<nat>, key: string)
    requires Unwanted(contents, steps, key)
    ensures forall id :: id in Run(contents, before, steps).syncs ==>
      UnwantedOk(Run(contents, before, steps).keys, Run(contents, before, steps).syncs[id], key)
  {
    if steps == [] {
    } else {
      UnwantedInv(contents, before, steps[..|steps| - 1], key);
    }
  }

  // ---------------------------------------------------------------- main results

  /** However syncs of any contents interleave, from the moment one of them has finished the
      table holds every key that all of them refer to and none that none of them does. */
  lemma MixedSyncsBound(contents: nat -> set<string>, before: set<string>, steps: seq<nat>, id: nat, key: string)
    requires id in Run(contents, before, steps).syncs && Run(contents, before, steps).syncs[id] == Finished
    ensures Wanted(contents, steps, key) ==> key in Run(contents, before, steps).keys
    ensures Unwanted(contents, steps, key) ==> key !in Run(contents, before, steps).keys
  {
    if Wanted(contents, steps, key) { WantedInv(contents, before, steps, key); }
    if Unwanted(contents, steps, key) { UnwantedInv(contents, before, steps, key); }
  }

  /** So syncs of the same content leave exactly its keys. */
  lemma SyncsConverge(contents: nat -> set<string>, referenced: set<string>, before: set<string>, steps: seq<nat>,
    id: nat)
    requires forall i :: 0 <= i < |steps| ==> contents(steps[i]) == referenced
    requires id in Run(contents, before, steps).syncs && Run(contents, before, steps).syncs[id] == Finished
    ensures Run(contents, before, steps).keys == referenced
  {
    forall key ensures key in Run(contents, before, steps).keys <==> key in referenced {
      MixedSyncsBound(contents, before, steps, id, key);
    }
  }

  // ---------------------------------------------------------------- two syncs

  function Either(a: set<string>, b: set<string>): nat -> set<string> {
    id => if id == 0 then a else b
  }

  lemma Steps(contents: nat -> set<string>, before: set<string>, steps: seq<nat>, id: nat, s: State, s': State)
    requires Run(contents, before, steps) == s && Step(contents(id), s, id) == s'
    ensures Run(contents, before, steps + [id]) == s'
  {
    assert (steps + [id])[..|steps|] == steps;
  }

  lemma BothRead(contents: nat -> set<string>, before: set<string>, p: nat, q: nat)
    requires p != q
    ensures Run(contents, before, [p] + [q]) ==
      State(before, map[p := Diffed(contents(p) - before, before - contents(p)),
                        q := Diffed(contents(q) - before, before - contents(q))])
  {
    var s1 := State(before, map[p := Diffed(contents(p) - before, before - contents(p))]);
    assert [] + [p] == [p];
    Steps(contents, before, [], p, State(before, map[]), s1);
    Steps(contents, before, [p], q, s1,
      s1.(syncs := s1.syncs[q := Diffed(contents(q) - before, before - contents(q))]));
  }

  /** A sync that collides with nothing takes two more steps. */
  lemma Finishes(contents: nat -> set<string>, before: set<string>, steps: seq<nat>, id: nat, s: State)
    requires Run(contents, before, steps) == s && id in s.syncs && s.syncs[id].Diffed?
    requires s.syncs[id].toCreate !! s.keys - s.syncs[id].toDelete
    ensures Run(contents, before, steps + [id] + [id]) ==
      State(s.keys - s.syncs[id].toDelete + s.syncs[id].toCreate, s.syncs[id := Finished])
  {
    var toCreate, keys := s.syncs[id].toCreate, s.keys - s.syncs[id].toDelete;
    var s1 := State(keys, s.syncs[id := Cleared(toCreate)]);
    Steps(contents, before, steps, id, s, s1);
    assert s.syncs[id := Cleared(toCreate)][id := Finished] == s.syncs[id := Finished];
    Steps(contents, before, steps + [id], id, s1, State(keys + toCreate, s.syncs[id := Finished]));
  }

  /** Steps of two syncs, both finished by their end. */
  predicate TwoFinish(contents: nat -> set<string>, before: set<string>, steps: seq<nat>) {
    && (forall i :: 0 <= i < |steps| ==> steps[i] < 2)
    && Run(contents, before, steps).syncs == map[0 := Finished, 1 := Finished]
  }

  /** Both read, then `q` finishes, then `p`. */
  lemma Interleaved(contents: nat -> set<string>, before: set<string>, p: nat, q: nat) returns (steps: seq<nat>)
    requires p < 2 && q < 2 && p != q
    requires contents(p) - before !! contents(q) - before
    ensures TwoFinish(contents, before, steps)
    ensures Run(contents, before, steps).keys ==
      before - (before - contents(q)) + (contents(q) - before) - (before - contents(p)) + (contents(p) - before)
  {
    steps := [p] + [q];
    BothRead(contents, before, p, q);
    Finishes(contents, before, steps, q, Run(contents, before, steps));
    steps := steps + [q] + [q];
    Finishes(contents, before, steps, p, Run(contents, before, steps));
    steps := steps + [p] + [p];
  }

  /** Contents that each have a key of their own: the table can end with the keys of both. */
  lemma CrossedFails(a: set<string>, b: set<string>) returns (before: set<string>, steps: seq<nat>)
    requires a - b != {} && b - a != {}
    ensures TwoFinish(Either(a, b), before, steps)
    ensures Run(Either(a, b), before, steps).keys == a + b
  {
    before := a * b;
    steps := Interleaved(Either(a, b), before, 0, 1);
    assert before - (before - b) + (b - before) - (before - a) + (a - before) == a + b;
  }

  /** Content `p` has two keys more than content `q`: the table can end with one of the two. */
  lemma NestedFails(contents: nat -> set<string>, p: nat, q: nat, x: string, y: string)
    returns (before: set<string>, steps: seq<nat>)
    requires p < 2 && q < 2 && p != q && contents(q) <= contents(p)
    requires x != y && x in contents(p) - contents(q) && y in contents(p) - contents(q)
    ensures TwoFinish(contents, before, steps)
    ensures Run(contents, before, steps).keys == contents(p) - {x}
  {
    before := contents(q) + {x};
    steps := Interleaved(contents, before, p, q);
    var large, small := contents(p), contents(q);
    assert before - (before - small) + (small - before) == small;
    assert small - (before - large) + (large - before) == large - {x};
  }

  lemma TwoOf(s: set<string>) returns (x: string, y: string)
    requires |s| > 1
    ensures x in s && y in s && x != y
  {
    x :| x in s;
    assert |s - {x}| > 0;
    y :| y in s - {x};
  }

  /** Two contents that differ in more than one key can both be missed. */
  lemma TwoSyncsFail(a: set<string>, b: set<string>) returns (before: set<string>, steps: seq<nat>)
    requires |(a - b) + (b - a)| > 1
    ensures TwoFinish(Either(a, b), before, steps)
    ensures Run(Either(a, b), before, steps).keys != a && Run(Either(a, b), before, steps).keys != b
  {
    if b - a == {} {
      assert (a - b) + (b - a) == a - b;
      var x, y := TwoOf(a - b);
      before, steps := NestedFails(Either(a, b), 0, 1, x, y);
      assert x in a && x !in a - {x} && y in a - {x} && y !in b;
    } else if a - b == {} {
      assert (a - b) + (b - a) == b - a;
      var x, y := TwoOf(b - a);
      before, steps := NestedFails(Either(a, b), 1, 0, x, y);
      assert x in b && x !in b - {x} && y in b - {x} && y !in a;
    } else {
      before, steps := CrossedFails(a, b);
      var x :| x in a - b;
      var y :| y in b - a;
      assert x in a + b && y in a + b;
    }
  }

  lemma OnlyOne(d: set<string>, x: string, k: string)
    requires |d| <= 1 && x in d && k in d
    ensures k == x
  {
    assert |d - {x}| == 0;
    assert k in d - {x} || k == x;
  }

  /** Contents that differ in at most one key leave the table no choice but the two of them. */
  lemma CloseContents(a: set<string>, b: set<string>, keys: set<string>)
    requires |(a - b) + (b - a)| <= 1 && a * b <= keys <= a + b
    ensures keys == a || keys == b
  {
    if a == b {
      assert keys == a;
    } else {
      var x :| x in (a - b) + (b - a);
      forall k | k != x ensures (k in a <==> k in b) && (k in keys <==> k in a) {
        if k in (a - b) + (b - a) { OnlyOne((a - b) + (b - a), x, k); }
      }
      if x in keys <==> x in a {
        assert keys == a;
      } else {
        assert keys == b;
      }
    }
  }

  /** Two syncs, from whatever table and however interleaved, leave the keys of one of the two
      contents whenever both finish, if and only if the contents differ in at most one key. */
  lemma TwoSyncsExactly(a: set<string>, b: set<string>)
    ensures
      (forall before: set<string>, steps: seq<nat> :: TwoFinish(Either(a, b), before, steps) ==>
         Run(Either(a, b), before, steps).keys == a || Run(Either(a, b), before, steps).keys == b)
      <==> |(a - b) + (b - a)| <= 1
  {
    if |(a - b) + (b - a)| <= 1 {
      forall before: set<string>, steps: seq<nat> | TwoFinish(Either(a, b), before, steps)
        ensures Run(Either(a, b), before, steps).keys == a || Run(Either(a, b), before, steps).keys == b
      {
        TwoSyncsBound(a, b, before, steps);
        CloseContents(a, b, Run(Either(a, b), before, steps).keys);
      }
    } else {
      var before, steps := TwoSyncsFail(a, b);
    }
  }

  lemma TwoSyncsBound(a: set<string>, b: set<string>, before: set<string>, steps: seq<nat>)
    requires TwoFinish(Either(a, b), before, steps)
    ensures a * b <= Run(Either(a, b), before, steps).keys <= a + b
  {
    forall key ensures key in a * b ==> key in Run(Either(a, b), before, steps).keys
               ensures key in Run(Either(a, b), before, steps).keys ==> key in a + b
    {
      MixedSyncsBound(Either(a, b), before, steps, 0, key);
    }
  }

  // ---------------------------------------------------------------- the retry

  /** While one of two syncs still plans to create a key that is there, the other has finished. */
  predicate PairOk(keys: set<string>, phase: Phase, other: Phase) {
    match phase
    case Start => true
    case Diffed(toCreate, _) => toCreate !! keys || other.Finished?
    case Cleared(toCreate) => toCreate !! keys || other.Finished?
    case Collided(_) => other.Finished?
    case Reread(retry) => retry !! keys && other.Finished?
    case Finished => true
    case Failed => false
  }

  function PhaseOf(s: State, id: nat): Phase {
    if id in s.syncs then s.syncs[id] else Start
  }

  lemma PairStep(referenced: set<string>, s: State, id: nat, other: nat)
    requires id != other
    requires PairOk(s.keys, PhaseOf(s, id), PhaseOf(s, other)) && PairOk(s.keys, PhaseOf(s, other), PhaseOf(s, id))
    ensures
      var s' := Step(referenced, s, id);
      PairOk(s'.keys, PhaseOf(s', id), PhaseOf(s', other)) && PairOk(s'.keys, PhaseOf(s', other), PhaseOf(s', id))
  {
  }

  lemma {:induction false} PairInv(contents: nat -> set<string>, before: set<string>, steps: seq<nat>)
    requires forall i :: 0 <= i < |steps| ==> steps[i] < 2
    ensures
      var s := Run(contents, before, steps);
      PairOk(s.keys, PhaseOf(s, 0), PhaseOf(s, 1)) && PairOk(s.keys, PhaseOf(s, 1), PhaseOf(s, 0))
  {
    if steps == [] {
    } else {
      var id := steps[|steps| - 1];
      PairInv(contents, before, steps[..|steps| - 1]);
      PairStep(contents(id), Run(contents, before, steps[..|steps| - 1]), id, 1 - id);
    }
  }

  /** With two syncs the retry after a collision never collides again. */
  lemma TwoNeverFail(contents: nat -> set<string>, before: set<string>, steps: seq<nat>, id: nat)
    requires (forall i :: 0 <= i < |steps| ==> steps[i] < 2) && id < 2
    ensures !PhaseOf(Run(contents, before, steps), id).Failed?
  {
    PairInv(contents, before, steps);
  }

  function OneOfThree(x: string, y: string): nat -> set<string> {
    id => if id == 0 then {x, y} else if id == 1 then {x} else {y}
  }

  lemma ThreeRead(x: string, y: string)
    ensures Run(OneOfThree(x, y), {}, [0] + [1] + [2]) ==
      State({}, map[0 := Diffed({x, y}, {}), 1 := Diffed({x}, {}), 2 := Diffed({y}, {})])
  {
    var contents := OneOfThree(x, y);
    BothRead(contents, {}, 0, 1);
    assert forall s: set<string> :: s - {} == s && {} - s == {};
    var s2 := State({}, map[0 := Diffed({x, y}, {}), 1 := Diffed({x}, {})]);
    Steps(contents, {}, [0] + [1], 2, s2, s2.(syncs := s2.syncs[2 := Diffed({y}, {})]));
  }

  lemma FirstRereads(x: string, y: string, syncs: map<nat, Phase>)
    requires syncs == map[0 := Diffed({x, y}, {}), 1 := Finished, 2 := Diffed({y}, {})]
    ensures syncs[0 := Reread({y})] == map[0 := Reread({y}), 1 := Finished, 2 := Diffed({y}, {})]
  {
  }

  /** Three can make it: while the first rereads, the second key is created by the third. */
  lemma ThreeCanFail(x: string, y: string) returns (steps: seq<nat>)
    requires x != y
    ensures forall i :: 0 <= i < |steps| ==> steps[i] < 3
    ensures PhaseOf(Run(OneOfThree(x, y), {}, steps), 0).Failed?
  {
    steps := SecondEnds(x, y);
    var s := State({x}, map[0 := Diffed({x, y}, {}), 1 := Finished, 2 := Diffed({y}, {})]);
    steps := RereadAfter(OneOfThree(x, y), steps, s, x, y);
    FirstRereads(x, y, s.syncs);
    steps := ThirdGetsInBetween(OneOfThree(x, y), steps, x, y);
  }

  lemma SecondEnds(x: string, y: string) returns (steps: seq<nat>)
    requires x != y
    ensures forall i :: 0 <= i < |steps| ==> steps[i] < 3
    ensures Run(OneOfThree(x, y), {}, steps) ==
      State({x}, map[0 := Diffed({x, y}, {}), 1 := Finished, 2 := Diffed({y}, {})])
  {
    steps := [0] + [1] + [2];
    ThreeRead(x, y);
    Finishes(OneOfThree(x, y), {}, steps, 1, Run(OneOfThree(x, y), {}, steps));
    assert {} - {} + {x} == {x};
    steps := steps + [1] + [1];
  }

  /** The third sync creates the key that the first is about to try again. */
  lemma ThirdGetsInBetween(contents: nat -> set<string>, before: seq<nat>, x: string, y: string)
    returns (steps: seq<nat>)
    requires forall i :: 0 <= i < |before| ==> before[i] < 3
    requires Run(contents, {}, before) == State({x}, map[0 := Reread({y}), 1 := Finished, 2 := Diffed({y}, {})])
    requires x != y
    ensures forall i :: 0 <= i < |steps| ==> steps[i] < 3
    ensures PhaseOf(Run(contents, {}, steps), 0).Failed?
  {
    var s := Run(contents, {}, before);
    Finishes(contents, {}, before, 2, s);
    steps := before + [2] + [2];
    var s' := Run(contents, {}, steps);
    assert y in s'.keys;
    Steps(contents, {}, steps, 0, s', s'.(syncs := s'.syncs[0 := Failed]));
    steps := steps + [0];
  }

  /** Sync 0 clears, collides and rereads. */
  lemma RereadAfter(contents: nat -> set<string>, before: seq<nat>, s: State, x: string, y: string)
    returns (steps: seq<nat>)
    requires Run(contents, {}, before) == s && x != y && s.keys == {x}
    requires 0 in s.syncs && s.syncs[0] == Diffed({x, y}, {})
    requires forall i :: 0 <= i < |before| ==> before[i] < 3
    ensures Run(contents, {}, steps) == State({x}, s.syncs[0 := Reread({y})])
    ensures forall i :: 0 <= i < |steps| ==> steps[i] < 3
  {
    var s1 := State({x}, s.syncs[0 := Cleared({x, y})]);
    var s2 := State({x}, s.syncs[0 := Collided({x, y})]);
    var s3 := State({x}, s.syncs[0 := Reread({y})]);
    assert s.keys - {} == s.keys && {x, y} - {x} == {y} && x in {x, y};
    assert s1.syncs[0 := Collided({x, y})] == s2.syncs && s2.syncs[0 := Reread({y})] == s3.syncs;
    Steps(contents, {}, before, 0, s, s1);
    steps := before + [0];
    Steps(contents, {}, steps, 0, s1, s2);
    steps := steps + [0];
    Steps(contents, {}, steps, 0, s2, s3);
    steps := steps + [0];
  }
}
