/** Which of the shortest edit scripts the walk of `unifiedDiff` in src/lib/dry-run.ts emits. */
module LineDiffOrder {
  import opened LineDiff

  // ---------------------------------------------------------------- scripts and the table

  lemma EmbedsShifted(c: seq<string>, a: seq<string>, at: seq<nat>, i: nat) returns (shifted: seq<nat>)
    requires i <= |a| && Embeds(c, a[i..], at, 0)
    ensures Embeds(c, a, shifted, i)
  {
    shifted := seq(|at|, k requires 0 <= k < |at| => at[k] + i);
    forall k | 0 <= k < |c| ensures i <= shifted[k] < |a| && a[shifted[k]] == c[k] {
      assert a[i..][at[k]] == c[k];
    }
  }

  /** No script for two suffixes keeps more lines than the cell for them says. */
  lemma KeptBounded(a: seq<string>, b: seq<string>, i: nat, j: nat, ops: seq<Op>)
    requires i <= |a| && j <= |b| && Transforms(ops, a[i..], b[j..])
    ensures |Kept(ops)| <= Lcs(a, b, i, j)
  {
    var ia := KeptInOld(ops);
    var ib := KeptInNew(ops);
    ia := EmbedsShifted(Kept(ops), a, ia, i);
    ib := EmbedsShifted(Kept(ops), b, ib, j);
    LcsBounds(a, b, Kept(ops), i, j, ia, ib);
  }

  /** A script for what an op leaves, with the op in front, is a script for the whole. */
  lemma InFront(a: seq<string>, b: seq<string>, i: nat, j: nat, kind: Kind, rest: seq<Op>)
    requires i <= |a| && j <= |b| && NextI(kind, i) <= |a| && NextJ(kind, j) <= |b|
    requires kind.Context? ==> a[i] == b[j]
    requires Transforms(rest, a[NextI(kind, i)..], b[NextJ(kind, j)..])
    ensures Transforms([Emits(a, b, i, j, kind)] + rest, a[i..], b[j..])
    ensures |Kept([Emits(a, b, i, j, kind)] + rest)| == (if kind.Context? then 1 else 0) + |Kept(rest)|
  {
    SidesStep(a, b, i, j, kind);
    OpInFront(Emits(a, b, i, j, kind), rest);
  }

  /** The table never loses by an op that can be made. */
  lemma LcsAtLeast(a: seq<string>, b: seq<string>, i: nat, j: nat, kind: Kind)
    requires i <= |a| && j <= |b| && NextI(kind, i) <= |a| && NextJ(kind, j) <= |b|
    requires kind.Context? ==> a[i] == b[j]
    ensures Lcs(a, b, i, j) >= (if kind.Context? then 1 else 0) + Lcs(a, b, NextI(kind, i), NextJ(kind, j))
  {
    var rest := Script(a, b, NextI(kind, i), NextJ(kind, j));
    ScriptTransforms(a, b, NextI(kind, i), NextJ(kind, j));
    InFront(a, b, i, j, kind, rest);
    KeptBounded(a, b, i, j, [Emits(a, b, i, j, kind)] + rest);
  }

  // ---------------------------------------------------------------- deletions first

  lemma NoSwap(a: seq<string>, b: seq<string>, i: nat, j: nat)
    requires i < |a| && j < |b| && Choice(a, b, i, j).Insertion?
    ensures Choice(a, b, i, j + 1) != Deletion
  {
    LcsAtLeast(a, b, i + 1, j, Insertion);
    LcsStep(a, b, i, j + 1, Choice(a, b, i, j + 1));
  }

  /** In a run of changed lines the deletions come before the insertions. */
  predicate DeletionsFirst(ops: seq<Op>) {
    forall k :: 0 <= k < |ops| - 1 ==> !(ops[k].kind.Insertion? && ops[k + 1].kind.Deletion?)
  }

  lemma FirstOp(a: seq<string>, b: seq<string>, i: nat, j: nat)
    requires i <= |a| && j <= |b| && (i < |a| || j < |b|)
    ensures Script(a, b, i, j) != [] && Script(a, b, i, j)[0].kind == Choice(a, b, i, j)
  {
    ScriptStep(a, b, i, j, Choice(a, b, i, j));
  }

  lemma DeletionsFirstCons(op: Op, rest: seq<Op>)
    requires DeletionsFirst(rest) && (rest != [] ==> !(op.kind.Insertion? && rest[0].kind.Deletion?))
    ensures DeletionsFirst([op] + rest)
  {
    var ops := [op] + rest;
    forall k | 0 <= k < |ops| - 1 ensures !(ops[k].kind.Insertion? && ops[k + 1].kind.Deletion?) {
      if k > 0 { assert ops[k] == rest[k - 1] && ops[k + 1] == rest[k - 1 + 1]; }
    }
  }

  lemma {:induction false} ScriptDeletesFirst(a: seq<string>, b: seq<string>, i: nat, j: nat)
    requires i <= |a| && j <= |b|
    ensures DeletionsFirst(Script(a, b, i, j))
    decreases |a| - i + |b| - j
  {
    if i == |a| && j == |b| {
    } else {
      var kind := Choice(a, b, i, j);
      var i', j' := NextI(kind, i), NextJ(kind, j);
      ScriptStep(a, b, i, j, kind);
      ScriptDeletesFirst(a, b, i', j');
      if i' < |a| || j' < |b| {
        FirstOp(a, b, i', j');
        if kind.Insertion? && i < |a| { NoSwap(a, b, i, j); }
      }
      DeletionsFirstCons(Emits(a, b, i, j, kind), Script(a, b, i', j'));
    }
  }

  // ---------------------------------------------------------------- the first of the shortest

  function Rank(kind: Kind): nat {
    match kind case Context => 0 case Deletion => 1 case Insertion => 2
  }

  /** At the first op in which they differ, `xs` keeps before `ys` deletes, and deletes before
      `ys` inserts. */
  predicate NotAfter(xs: seq<Op>, ys: seq<Op>) {
    if xs == [] || ys == [] then xs == []
    else if xs[0] == ys[0] then NotAfter(xs[1..], ys[1..])
    else Rank(xs[0].kind) < Rank(ys[0].kind)
  }

  /** An op that a script starts with, and the rest of it. */
  lemma HeadOf(a: seq<string>, b: seq<string>, i: nat, j: nat, ops: seq<Op>)
    requires i <= |a| && j <= |b| && ops != [] && Transforms(ops, a[i..], b[j..])
    ensures
      var kind := ops[0].kind;
      && NextI(kind, i) <= |a| && NextJ(kind, j) <= |b|
      && (kind.Context? ==> a[i] == b[j])
      && ops[0] == Emits(a, b, i, j, kind)
      && Transforms(ops[1..], a[NextI(kind, i)..], b[NextJ(kind, j)..])
      && |Kept(ops)| == (if kind.Context? then 1 else 0) + |Kept(ops[1..])|
  {
    var op, rest := ops[0], ops[1..];
    assert ops == [op] + rest;
    OpInFront(op, rest);
    if !op.kind.Insertion? {
      assert a[i..][0] == op.line && a[i..][1..] == OldSide(rest);
      assert a[i..][1..] == a[i + 1..];
    }
    if !op.kind.Deletion? {
      assert b[j..][0] == op.line && b[j..][1..] == NewSide(rest);
      assert b[j..][1..] == b[j + 1..];
    }
  }

  /** What is left of a script that keeps as much as can be kept does so too. */
  lemma RestKeepsMost(a: seq<string>, b: seq<string>, i: nat, j: nat, ops: seq<Op>)
    requires i <= |a| && j <= |b| && ops != [] && Transforms(ops, a[i..], b[j..])
    requires |Kept(ops)| == Lcs(a, b, i, j)
    ensures
      var kind := ops[0].kind;
      && NextI(kind, i) <= |a| && NextJ(kind, j) <= |b|
      && |Kept(ops[1..])| == Lcs(a, b, NextI(kind, i), NextJ(kind, j))
      && Lcs(a, b, i, j) == (if kind.Context? then 1 else 0) + Lcs(a, b, NextI(kind, i), NextJ(kind, j))
  {
    var kind := ops[0].kind;
    HeadOf(a, b, i, j, ops);
    LcsAtLeast(a, b, i, j, kind);
    KeptBounded(a, b, NextI(kind, i), NextJ(kind, j), ops[1..]);
  }

  /** An op that loses nothing is not one the walk would rather make. */
  lemma ChoiceFirst(a: seq<string>, b: seq<string>, i: nat, j: nat, kind: Kind)
    requires i <= |a| && j <= |b| && NextI(kind, i) <= |a| && NextJ(kind, j) <= |b|
    requires kind.Context? ==> a[i] == b[j]
    requires Lcs(a, b, i, j) == (if kind.Context? then 1 else 0) + Lcs(a, b, NextI(kind, i), NextJ(kind, j))
    ensures Rank(Choice(a, b, i, j)) <= Rank(kind)
  {
    if kind.Deletion? && j < |b| && a[i] != b[j] {
      LcsAtLeast(a, b, i, j, Insertion);
    }
  }

  lemma NotEmpty(a: seq<string>, b: seq<string>, i: nat, j: nat, ops: seq<Op>)
    requires i <= |a| && j <= |b| && (i < |a| || j < |b|) && Transforms(ops, a[i..], b[j..])
    ensures ops != []
  {
    assert |OldSide(ops)| == |a| - i && |NewSide(ops)| == |b| - j;
  }

  lemma {:induction false} ScriptFirst(a: seq<string>, b: seq<string>, i: nat, j: nat, ops: seq<Op>)
    requires i <= |a| && j <= |b| && Transforms(ops, a[i..], b[j..]) && |Kept(ops)| == Lcs(a, b, i, j)
    ensures NotAfter(Script(a, b, i, j), ops)
    decreases |a| - i + |b| - j
  {
    if i == |a| && j == |b| {
    } else {
      var choice := Choice(a, b, i, j);
      ScriptStep(a, b, i, j, choice);
      NotEmpty(a, b, i, j, ops);
      var kind := ops[0].kind;
      HeadOf(a, b, i, j, ops);
      RestKeepsMost(a, b, i, j, ops);
      ChoiceFirst(a, b, i, j, kind);
      if kind == choice {
        ScriptFirst(a, b, NextI(kind, i), NextJ(kind, j), ops[1..]);
        var rest := Script(a, b, NextI(kind, i), NextJ(kind, j));
        assert ([Emits(a, b, i, j, kind)] + rest)[1..] == rest;
      }
    }
  }

  lemma {:induction false} NotAfterBoth(xs: seq<Op>, ys: seq<Op>)
    requires NotAfter(xs, ys) && NotAfter(ys, xs)
    ensures xs == ys
  {
    if xs == [] || ys == [] {
    } else {
      NotAfterBoth(xs[1..], ys[1..]);
      assert xs == [xs[0]] + xs[1..] && ys == [ys[0]] + ys[1..];
    }
  }

  /** A script for the change, none shorter, and of the shortest none before it. */
  ghost predicate FirstOfShortest(ops: seq<Op>, a: seq<string>, b: seq<string>) {
    && Transforms(ops, a, b)
    && (forall other :: Transforms(other, a, b) ==> Changes(ops) <= Changes(other))
    && (forall other :: Transforms(other, a, b) && Changes(other) <= Changes(ops) ==> NotAfter(ops, other))
  }

  lemma ScriptIsFirst(a: seq<string>, b: seq<string>)
    ensures FirstOfShortest(Script(a, b, 0, 0), a, b)
  {
    var s := Script(a, b, 0, 0);
    ScriptMinimal(a, b);
    ScriptTransforms(a, b, 0, 0);
    assert a[0..] == a && b[0..] == b;
    forall other | Transforms(other, a, b) && Changes(other) <= Changes(s) ensures NotAfter(s, other) {
      SidesCount(s);
      SidesCount(other);
      ScriptFirst(a, b, 0, 0, other);
    }
  }

  /** The emitted script is the one script that is first, by kinds, of the shortest: that fixes
      it. In it no insertion stands right before a deletion. */
  lemma ScriptExactly(a: seq<string>, b: seq<string>, ops: seq<Op>)
    ensures ops == Script(a, b, 0, 0) <==> FirstOfShortest(ops, a, b)
    ensures DeletionsFirst(Script(a, b, 0, 0))
  {
    var s := Script(a, b, 0, 0);
    ScriptIsFirst(a, b);
    ScriptDeletesFirst(a, b, 0, 0);
    if FirstOfShortest(ops, a, b) {
      NotAfterBoth(s, ops);
    }
  }
}
