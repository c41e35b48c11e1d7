/** The edit script inside `unifiedDiff` of src/lib/dry-run.ts: the suffix table of longest
    common subsequence lengths, and the greedy walk over it. */
module LineDiff {
  import opened Concat

  datatype Kind = Context | Deletion | Insertion
  datatype Op = Op(kind: Kind, line: string)

  /** What table cell [i, j] holds. */
  ghost function Lcs(a: seq<string>, b: seq<string>, i: nat, j: nat): (len: nat)
    requires i <= |a| && j <= |b|
    decreases |a| - i + |b| - j
  {
    if i == |a| || j == |b| then 0
    else if a[i] == b[j] then Lcs(a, b, i + 1, j + 1) + 1
    else Max(Lcs(a, b, i + 1, j), Lcs(a, b, i, j + 1))
  }

  function Max(x: int, y: int): int { if x >= y then x else y }

  /** Where the walk stands after one op. */
  function NextI(kind: Kind, i: nat): nat { if kind.Insertion? then i else i + 1 }

  function NextJ(kind: Kind, j: nat): nat { if kind.Deletion? then j else j + 1 }

  ghost function Emits(a: seq<string>, b: seq<string>, i: nat, j: nat, kind: Kind): Op
    requires if kind.Insertion? then j < |b| else i < |a|
  {
    Op(kind, if kind.Insertion? then b[j] else a[i])
  }

  /** What the walk does at (i, j); ties delete first. */
  ghost function Choice(a: seq<string>, b: seq<string>, i: nat, j: nat): (kind: Kind)
    requires i <= |a| && j <= |b| && (i < |a| || j < |b|)
    ensures NextI(kind, i) <= |a| && NextJ(kind, j) <= |b|
  {
    if j == |b| then Deletion
    else if i == |a| then Insertion
    else if a[i] == b[j] then Context
    else if Lcs(a, b, i + 1, j) >= Lcs(a, b, i, j + 1) then Deletion
    else Insertion
  }

  /** The script the walk emits from position (i, j); ties delete first. */
  ghost function Script(a: seq<string>, b: seq<string>, i: nat, j: nat): seq<Op>
    requires i <= |a| && j <= |b|
    decreases |a| - i + |b| - j
  {
    if i == |a| && j == |b| then []
    else if j == |b| then [Op(Deletion, a[i])] + Script(a, b, i + 1, j)
    else if i == |a| then [Op(Insertion, b[j])] + Script(a, b, i, j + 1)
    else if a[i] == b[j] then [Op(Context, a[i])] + Script(a, b, i + 1, j + 1)
    else if Lcs(a, b, i + 1, j) >= Lcs(a, b, i, j + 1) then [Op(Deletion, a[i])] + Script(a, b, i + 1, j)
    else [Op(Insertion, b[j])] + Script(a, b, i, j + 1)
  }

  lemma DeletionStep(a: seq<string>, b: seq<string>, i: nat, j: nat)
    requires i < |a| && j <= |b| && Choice(a, b, i, j) == Deletion
    ensures Script(a, b, i, j) == [Op(Deletion, a[i])] + Script(a, b, i + 1, j)
  {
  }

  lemma InsertionStep(a: seq<string>, b: seq<string>, i: nat, j: nat)
    requires i <= |a| && j < |b| && Choice(a, b, i, j) == Insertion
    ensures Script(a, b, i, j) == [Op(Insertion, b[j])] + Script(a, b, i, j + 1)
  {
  }

  lemma ContextStep(a: seq<string>, b: seq<string>, i: nat, j: nat)
    requires i < |a| && j < |b| && Choice(a, b, i, j) == Context
    ensures Script(a, b, i, j) == [Op(Context, a[i])] + Script(a, b, i + 1, j + 1)
  {
  }

  lemma ScriptStep(a: seq<string>, b: seq<string>, i: nat, j: nat, kind: Kind)
    requires i <= |a| && j <= |b| && (i < |a| || j < |b|) && kind == Choice(a, b, i, j)
    ensures Script(a, b, i, j) == [Emits(a, b, i, j, kind)] + Script(a, b, NextI(kind, i), NextJ(kind, j))
  {
    match kind {
      case Deletion => DeletionStep(a, b, i, j);
      case Insertion => InsertionStep(a, b, i, j);
      case Context => ContextStep(a, b, i, j);
    }
  }

  // ---------------------------------------------------------------- the algorithm

  /** One cell of the table, from the three cells after it. */
  method Cell(a: seq<string>, b: seq<string>, lcs: array2<int>, i: nat, j: nat) returns (len: int)
    requires i < |a| && j < |b| && lcs.Length0 == |a| + 1 && lcs.Length1 == |b| + 1
    requires lcs[i + 1, j + 1] == Lcs(a, b, i + 1, j + 1)
    requires lcs[i + 1, j] == Lcs(a, b, i + 1, j) && lcs[i, j + 1] == Lcs(a, b, i, j + 1)
    ensures len == Lcs(a, b, i, j)
  {
    if a[i] == b[j] {
      len := lcs[i + 1, j + 1] + 1;
    } else {
      len := Max(lcs[i + 1, j], lcs[i, j + 1]);
    }
  }

  lemma BorderIsZero(a: seq<string>, b: seq<string>, i: nat, j: nat)
    requires i <= |a| && j <= |b| && (i == |a| || j == |b|)
    ensures Lcs(a, b, i, j) == 0
  {
  }

  /** The inner loop: row i from the row below it. */
  method FillRow(a: seq<string>, b: seq<string>, lcs: array2<int>, i: nat)
    requires i < |a| && lcs.Length0 == |a| + 1 && lcs.Length1 == |b| + 1
    requires forall k, l :: i < k <= |a| && 0 <= l <= |b| ==> lcs[k, l] == Lcs(a, b, k, l)
    requires lcs[i, |b|] == 0
    modifies lcs
    ensures forall l :: 0 <= l <= |b| ==> lcs[i, l] == Lcs(a, b, i, l)
    ensures forall k, l :: 0 <= k <= |a| && 0 <= l <= |b| && k != i ==> lcs[k, l] == old(lcs[k, l])
  {
    var j := |b|;
    BorderIsZero(a, b, i, j);
    while j > 0
      invariant 0 <= j <= |b|
      invariant forall l :: j <= l <= |b| ==> lcs[i, l] == Lcs(a, b, i, l)
      invariant forall k, l :: 0 <= k <= |a| && 0 <= l <= |b| && k != i ==> lcs[k, l] == old(lcs[k, l])
    {
      j := j - 1;
      lcs[i, j] := Cell(a, b, lcs, i, j);
    }
  }

  method FillTable(a: seq<string>, b: seq<string>) returns (lcs: array2<int>)
    ensures lcs.Length0 == |a| + 1 && lcs.Length1 == |b| + 1 && fresh(lcs)
    ensures forall i, j :: 0 <= i <= |a| && 0 <= j <= |b| ==> lcs[i, j] == Lcs(a, b, i, j)
  {
    var n, m := |a|, |b|;
    lcs := new int[n + 1, m + 1]((i, j) => 0);
    forall l | 0 <= l <= m ensures Lcs(a, b, n, l) == 0 { BorderIsZero(a, b, n, l); }
    var i := n;
    while i > 0
      invariant 0 <= i <= n
      invariant forall k, l :: i <= k <= n && 0 <= l <= m ==> lcs[k, l] == Lcs(a, b, k, l)
      invariant forall k, l :: 0 <= k < i && 0 <= l <= m ==> lcs[k, l] == 0
    {
      i := i - 1;
      FillRow(a, b, lcs, i);
    }
  }

  /** `done` holds what the walk has emitted when it stands at (i, j). */
  ghost predicate Emitted(a: seq<string>, b: seq<string>, done: seq<Op>, i: nat, j: nat) {
    i <= |a| && j <= |b| && done + Script(a, b, i, j) == Script(a, b, 0, 0)
  }

  lemma LcsStep(a: seq<string>, b: seq<string>, i: nat, j: nat, kind: Kind)
    requires i <= |a| && j <= |b| && (i < |a| || j < |b|) && kind == Choice(a, b, i, j)
    ensures Lcs(a, b, i, j) == (if kind.Context? then 1 else 0) + Lcs(a, b, NextI(kind, i), NextJ(kind, j))
  {
    if i == |a| || j == |b| {
      BorderIsZero(a, b, i, j);
      BorderIsZero(a, b, NextI(kind, i), NextJ(kind, j));
    }
  }

  lemma Emit(a: seq<string>, b: seq<string>, done: seq<Op>, i: nat, j: nat, kind: Kind)
    requires Emitted(a, b, done, i, j)
    requires (i < |a| || j < |b|) && kind == Choice(a, b, i, j)
    ensures Emitted(a, b, done + [Emits(a, b, i, j, kind)], NextI(kind, i), NextJ(kind, j))
  {
    ScriptStep(a, b, i, j, kind);
    Assoc(done, [Emits(a, b, i, j, kind)], Script(a, b, NextI(kind, i), NextJ(kind, j)));
  }

  /** One comparison of the greedy walk, on the table. */
  method Choose(a: seq<string>, b: seq<string>, lcs: array2<int>, i: nat, j: nat) returns (kind: Kind)
    requires lcs.Length0 == |a| + 1 && lcs.Length1 == |b| + 1 && i < |a| && j < |b|
    requires forall k, l :: 0 <= k <= |a| && 0 <= l <= |b| ==> lcs[k, l] == Lcs(a, b, k, l)
    ensures kind == Choice(a, b, i, j)
  {
    if a[i] == b[j] {
      kind := Context;
    } else if lcs[i + 1, j] >= lcs[i, j + 1] {
      kind := Deletion;
    } else {
      kind := Insertion;
    }
  }

  method EditScript(a: seq<string>, b: seq<string>) returns (ops: seq<Op>)
    ensures ops == Script(a, b, 0, 0)
  {
    var n, m := |a|, |b|;
    var lcs := FillTable(a, b);
    ops := [];
    var i, j := 0, 0;
    while i < n && j < m
      invariant 0 <= i <= n && 0 <= j <= m && Emitted(a, b, ops, i, j)
      invariant forall k, l :: 0 <= k <= n && 0 <= l <= m ==> lcs[k, l] == Lcs(a, b, k, l)
      decreases n - i + m - j
    {
      var kind := Choose(a, b, lcs, i, j);
      match kind {
        case Context =>
          Emit(a, b, ops, i, j, Context);
          ops := ops + [Op(Context, a[i])];
          i, j := i + 1, j + 1;
        case Deletion =>
          Emit(a, b, ops, i, j, Deletion);
          ops := ops + [Op(Deletion, a[i])];
          i := i + 1;
        case Insertion =>
          Emit(a, b, ops, i, j, Insertion);
          ops := ops + [Op(Insertion, b[j])];
          j := j + 1;
      }
    }
    ops := EmitRest(a, b, ops, i, j);
    assert ops + [] == ops;
  }

  /** The two loops that empty whichever side is left. */
  method EmitRest(a: seq<string>, b: seq<string>, done: seq<Op>, i0: nat, j0: nat) returns (ops: seq<Op>)
    requires Emitted(a, b, done, i0, j0) && (i0 == |a| || j0 == |b|)
    ensures Emitted(a, b, ops, |a|, |b|)
  {
    var i, j := i0, j0;
    ops := done;
    while i < |a|
      invariant i <= |a| && j <= |b| && (i < |a| ==> j == |b|) && Emitted(a, b, ops, i, j)
    {
      Emit(a, b, ops, i, j, Deletion);
      ops := ops + [Op(Deletion, a[i])];
      i := i + 1;
    }
    while j < |b|
      invariant i == |a| && j <= |b| && Emitted(a, b, ops, i, j)
    {
      Emit(a, b, ops, i, j, Insertion);
      ops := ops + [Op(Insertion, b[j])];
      j := j + 1;
    }
  }

  // ---------------------------------------------------------------- what a script means

  function OldSide(ops: seq<Op>): seq<string> {
    if ops == [] then []
    else (if ops[0].kind.Insertion? then [] else [ops[0].line]) + OldSide(ops[1..])
  }

  function NewSide(ops: seq<Op>): seq<string> {
    if ops == [] then []
    else (if ops[0].kind.Deletion? then [] else [ops[0].line]) + NewSide(ops[1..])
  }

  function Kept(ops: seq<Op>): seq<string> {
    if ops == [] then []
    else (if ops[0].kind.Context? then [ops[0].line] else []) + Kept(ops[1..])
  }

  function Changes(ops: seq<Op>): nat {
    if ops == [] then 0 else (if ops[0].kind.Context? then 0 else 1) + Changes(ops[1..])
  }

  /** `ops` turns the lines `a` into the lines `b`. */
  predicate Transforms(ops: seq<Op>, a: seq<string>, b: seq<string>) {
    OldSide(ops) == a && NewSide(ops) == b
  }

  lemma OpInFront(op: Op, rest: seq<Op>)
    ensures OldSide([op] + rest) == (if op.kind.Insertion? then [] else [op.line]) + OldSide(rest)
    ensures NewSide([op] + rest) == (if op.kind.Deletion? then [] else [op.line]) + NewSide(rest)
    ensures |Kept([op] + rest)| == (if op.kind.Context? then 1 else 0) + |Kept(rest)|
  {
    assert ([op] + rest)[1..] == rest;
  }

  /** What one op takes from either side. */
  lemma SidesStep(a: seq<string>, b: seq<string>, i: nat, j: nat, kind: Kind)
    requires i <= |a| && j <= |b| && NextI(kind, i) <= |a| && NextJ(kind, j) <= |b|
    requires kind.Context? ==> a[i] == b[j]
    ensures a[i..] == (if kind.Insertion? then [] else [Emits(a, b, i, j, kind).line]) + a[NextI(kind, i)..]
    ensures b[j..] == (if kind.Deletion? then [] else [Emits(a, b, i, j, kind).line]) + b[NextJ(kind, j)..]
  {
  }

  lemma {:induction false} ScriptTransforms(a: seq<string>, b: seq<string>, i: nat, j: nat)
    requires i <= |a| && j <= |b|
    ensures Transforms(Script(a, b, i, j), a[i..], b[j..])
    ensures |Kept(Script(a, b, i, j))| == Lcs(a, b, i, j)
    decreases |a| - i + |b| - j
  {
    if i < |a| || j < |b| {
      var kind := Choice(a, b, i, j);
      ScriptStep(a, b, i, j, kind);
      LcsStep(a, b, i, j, kind);
      ScriptTransforms(a, b, NextI(kind, i), NextJ(kind, j));
      SidesStep(a, b, i, j, kind);
      OpInFront(Emits(a, b, i, j, kind), Script(a, b, NextI(kind, i), NextJ(kind, j)));
    }
  }

  // ---------------------------------------------------------------- optimality

  /** `at` picks `c` out of `a` from left to right, starting at `from`. */
  ghost predicate Embeds(c: seq<string>, a: seq<string>, at: seq<nat>, from: nat) {
    && |at| == |c|
    && (forall k :: 0 <= k < |c| ==> from <= at[k] < |a| && a[at[k]] == c[k])
    && (forall k, l :: 0 <= k < l < |c| ==> at[k] < at[l])
  }

  ghost predicate Subsequence(c: seq<string>, a: seq<string>) {
    exists at: seq<nat> :: Embeds(c, a, at, 0)
  }

  lemma {:induction false} LcsBounds(a: seq<string>, b: seq<string>, c: seq<string>, i: nat, j: nat, ia: seq<nat>,
    ib: seq<nat>)
    requires i <= |a| && j <= |b|
    requires Embeds(c, a, ia, i) && Embeds(c, b, ib, j)
    ensures |c| <= Lcs(a, b, i, j)
    decreases |a| - i + |b| - j
  {
    if c == [] {
    } else {
      assert i <= ia[0] < |a| && j <= ib[0] < |b|;
      if a[i] == b[j] {
        EmbedsTail(c, a, ia, i);
        EmbedsTail(c, b, ib, j);
        LcsBounds(a, b, c[1..], i + 1, j + 1, ia[1..], ib[1..]);
      } else if ia[0] > i {
        EmbedsLater(c, a, ia, i);
        LcsBounds(a, b, c, i + 1, j, ia, ib);
      } else {
        EmbedsLater(c, b, ib, j);
        LcsBounds(a, b, c, i, j + 1, ia, ib);
      }
    }
  }

  lemma EmbedsTail(c: seq<string>, a: seq<string>, at: seq<nat>, from: nat)
    requires Embeds(c, a, at, from) && c != []
    ensures Embeds(c[1..], a, at[1..], from + 1)
  {
    assert from <= at[0];
    forall k | 0 <= k < |c[1..]| ensures from + 1 <= at[1..][k] < |a| && a[at[1..][k]] == c[1..][k] {
      assert at[0] < at[k + 1];
    }
  }

  lemma EmbedsLater(c: seq<string>, a: seq<string>, at: seq<nat>, from: nat)
    requires Embeds(c, a, at, from) && c != [] && at[0] > from
    ensures Embeds(c, a, at, from + 1)
  {
    forall k | 0 <= k < |c| ensures from + 1 <= at[k] {
      if k > 0 { assert at[0] < at[k]; }
    }
  }

  /** Putting a line in front of `a`, and in front of `c` too when it is kept. */
  lemma EmbedsCons(c: seq<string>, a: seq<string>, at: seq<nat>, line: string, keep: bool) returns (at': seq<nat>)
    requires Embeds(c, a, at, 0)
    ensures Embeds(if keep then [line] + c else c, [line] + a, at', 0)
  {
    var shifted := seq(|at|, k requires 0 <= k < |at| => at[k] + 1);
    at' := if keep then [0] + shifted else shifted;
  }

  lemma {:induction false} KeptInOld(ops: seq<Op>) returns (at: seq<nat>)
    ensures Embeds(Kept(ops), OldSide(ops), at, 0)
  {
    if ops == [] {
      at := [];
    } else {
      at := KeptInOld(ops[1..]);
      assert OldSide(ops) == if ops[0].kind.Insertion? then OldSide(ops[1..]) else [ops[0].line] + OldSide(ops[1..]);
      assert Kept(ops) == if ops[0].kind.Context? then [ops[0].line] + Kept(ops[1..]) else Kept(ops[1..]);
      if !ops[0].kind.Insertion? {
        at := EmbedsCons(Kept(ops[1..]), OldSide(ops[1..]), at, ops[0].line, ops[0].kind.Context?);
      }
    }
  }

  lemma {:induction false} KeptInNew(ops: seq<Op>) returns (at: seq<nat>)
    ensures Embeds(Kept(ops), NewSide(ops), at, 0)
  {
    if ops == [] {
      at := [];
    } else {
      at := KeptInNew(ops[1..]);
      assert NewSide(ops) == if ops[0].kind.Deletion? then NewSide(ops[1..]) else [ops[0].line] + NewSide(ops[1..]);
      assert Kept(ops) == if ops[0].kind.Context? then [ops[0].line] + Kept(ops[1..]) else Kept(ops[1..]);
      if !ops[0].kind.Deletion? {
        at := EmbedsCons(Kept(ops[1..]), NewSide(ops[1..]), at, ops[0].line, ops[0].kind.Context?);
      }
    }
  }

  lemma {:induction false} SidesCount(ops: seq<Op>)
    ensures |OldSide(ops)| + |NewSide(ops)| == 2 * |Kept(ops)| + Changes(ops)
  {
    if ops == [] {
    } else {
      SidesCount(ops[1..]);
    }
  }

  /** The emitted script transforms `a` into `b`; its context lines are a common subsequence,
      no common subsequence is longer, and no script for the same change has fewer `-` and
      `+` lines. */
  lemma ScriptMinimal(a: seq<string>, b: seq<string>)
    ensures
      var s := Script(a, b, 0, 0);
      && Transforms(s, a, b)
      && Subsequence(Kept(s), a) && Subsequence(Kept(s), b)
      && (forall c :: Subsequence(c, a) && Subsequence(c, b) ==> |c| <= |Kept(s)|)
      && (forall ops :: Transforms(ops, a, b) ==> Changes(s) <= Changes(ops))
  {
    var s := Script(a, b, 0, 0);
    ScriptTransforms(a, b, 0, 0);
    assert a[0..] == a && b[0..] == b;
    var _ := KeptInOld(s);
    var _ := KeptInNew(s);
    forall c | Subsequence(c, a) && Subsequence(c, b) ensures |c| <= |Kept(s)| {
      var ia: seq<nat> :| Embeds(c, a, ia, 0);
      var ib: seq<nat> :| Embeds(c, b, ib, 0);
      LcsBounds(a, b, c, 0, 0, ia, ib);
    }
    forall ops | Transforms(ops, a, b) ensures Changes(s) <= Changes(ops) {
      var _ := KeptInOld(ops);
      var _ := KeptInNew(ops);
      SidesCount(s);
      SidesCount(ops);
    }
  }
}
