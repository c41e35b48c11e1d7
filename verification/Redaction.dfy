/** `redactSecretValues` and `redactEnvSecrets` of src/lib/dry-run.ts. */
module Redaction {
  import opened Sorting
  import opened Text

  const MASK := "***"

  predicate OccursAt(s: string, v: string, i: nat) {
    i + |v| <= |s| && s[i..i + |v|] == v
  }

  ghost predicate Contains(s: string, v: string) {
    exists i: nat :: OccursAt(s, v, i)
  }

  /** The leftmost occurrence of `v` at or after `from`, or |s| when there is none. */
  function IndexOf(s: string, v: string, from: nat): (k: nat)
    requires from <= |s| && v != ""
    ensures from <= k <= |s|
    ensures k < |s| ==> OccursAt(s, v, k)
    decreases |s| - from
  {
    if from == |s| then |s|
    else if OccursAt(s, v, from) then from
    else IndexOf(s, v, from + 1)
  }

  lemma {:induction false} NoneBefore(s: string, v: string, from: nat, i: nat)
    requires from <= |s| && v != "" && from <= i < IndexOf(s, v, from)
    ensures !OccursAt(s, v, i)
    decreases |s| - from
  {
    if from < i { NoneBefore(s, v, from + 1, i); }
  }

  /** The text from `from` on, cut at the occurrences of `v` found from left to right. */
  function SplitFrom(s: string, v: string, from: nat): (pieces: seq<string>)
    requires v != "" && from <= |s|
    ensures pieces != []
    decreases |s| - from
  {
    var k := IndexOf(s, v, from);
    if k == |s| then [s[from..]] else [s[from..k]] + SplitFrom(s, v, k + |v|)
  }

  /** s.split(v).join("***"). */
  function ReplaceAll(s: string, v: string): string
    requires v != ""
  {
    Join(SplitFrom(s, v, 0), MASK)
  }

  // ---------------------------------------------------------------- sorting by length

  function NonEmpty(values: seq<string>): seq<string> {
    if values == [] then []
    else (if values[0] == "" then [] else [values[0]]) + NonEmpty(values[1..])
  }

  predicate NotShorter(a: string, b: string) { |a| >= |b| }

  /** The non-empty values, longest first, equal lengths in their given order. */
  function Sorted(values: seq<string>): seq<string> {
    Sort(NonEmpty(values), NotShorter)
  }

  lemma {:induction false} NonEmptyMembers(values: seq<string>, v: string)
    ensures v in NonEmpty(values) <==> v in values && v != ""
  {
    if values == [] {
    } else {
      NonEmptyMembers(values[1..], v);
      assert values == [values[0]] + values[1..];
    }
  }

  lemma SortedValues(values: seq<string>)
    ensures forall i, j :: 0 <= i < j < |Sorted(values)| ==> |Sorted(values)[i]| >= |Sorted(values)[j]|
    ensures forall v :: v in Sorted(values) <==> v in values && v != ""
  {
    SortOrders(NonEmpty(values), NotShorter);
    SortMultiset(NonEmpty(values), NotShorter);
    forall v ensures v in Sorted(values) <==> v in values && v != "" {
      NonEmptyMembers(values, v);
    }
  }

  // ---------------------------------------------------------------- the redactor

  ghost function ReplaceEach(s: string, values: seq<string>): string
    requires "" !in values
  {
    if values == [] then s
    else ReplaceAll(ReplaceEach(s, values[..|values| - 1]), values[|values| - 1])
  }

  ghost function Redacted(content: string, secrets: seq<string>): string {
    SortedValues(secrets);
    ReplaceEach(content, Sorted(secrets))
  }

  method RedactSecretValues(content: string, secretValues: seq<string>) returns (result: string)
    ensures result == Redacted(content, secretValues)
  {
    SortedValues(secretValues);
    var sorted := Sorted(secretValues);
    if content == "" {
      EmptyStays(sorted);
      return content;
    }
    result := content;
    for i := 0 to |sorted|
      invariant "" !in sorted && result == ReplaceEach(content, sorted[..i])
    {
      assert sorted[..i + 1][..i] == sorted[..i] && sorted[i] in sorted;
      result := ReplaceAll(result, sorted[i]);
    }
    assert sorted[..|sorted|] == sorted;
  }

  lemma {:induction false} EmptyStays(values: seq<string>)
    requires "" !in values
    ensures ReplaceEach("", values) == ""
  {
    if values == [] {
    } else {
      EmptyStays(values[..|values| - 1]);
    }
  }

  method RedactEnvSecrets(env: map<string, string>, secretValues: seq<string>) returns (result: map<string, string>)
    ensures result.Keys == env.Keys
    ensures forall k :: k in env ==> result[k] == Redacted(env[k], secretValues)
  {
    result := map[];
    var todo := env.Keys;
    while todo != {}
      invariant todo <= env.Keys && result.Keys == env.Keys - todo
      invariant forall k :: k in result ==> result[k] == Redacted(env[k], secretValues)
      decreases todo
    {
      var key :| key in todo;
      var value := RedactSecretValues(env[key], secretValues);
      result := result[key := value];
      todo := todo - {key};
    }
  }

  // ---------------------------------------------------------------- what replacing does

  lemma FoundParts(s: string, v: string, from: nat, k: nat)
    requires from <= k && OccursAt(s, v, k)
    ensures s[from..] == s[from..k] + v + s[k + |v|..]
  {
    assert s[from..] == s[from..k] + s[k..k + |v|] + s[k + |v|..];
  }

  lemma SplitStep(s: string, v: string, from: nat, k: nat)
    requires v != "" && from <= |s| && k == IndexOf(s, v, from) < |s|
    ensures SplitFrom(s, v, from) == [s[from..k]] + SplitFrom(s, v, k + |v|)
  {
  }

  lemma RestorePiece(first: string, rest: seq<string>, v: string, tail: string)
    requires rest != [] && Join(rest, v) == tail
    ensures Join([first] + rest, v) == first + v + tail
  {
    JoinCons(first, rest, v);
  }

  lemma NextPiece(s: string, v: string, from: nat, k: nat, rest: seq<string>)
    requires v != "" && from <= |s| && k == IndexOf(s, v, from) < |s|
    requires rest == SplitFrom(s, v, k + |v|) && Join(rest, v) == s[k + |v|..]
    ensures Join(SplitFrom(s, v, from), v) == s[from..]
  {
    SplitStep(s, v, from, k);
    RestorePiece(s[from..k], rest, v, s[k + |v|..]);
    FoundParts(s, v, from, k);
  }

  /** Only occurrences of `v` are replaced: putting `v` back for the mask restores the text. */
  lemma {:induction false} PiecesRestore(s: string, v: string, from: nat)
    requires v != "" && from <= |s|
    ensures Join(SplitFrom(s, v, from), v) == s[from..]
    decreases |s| - from
  {
    var k := IndexOf(s, v, from);
    if k == |s| {
      assert SplitFrom(s, v, from) == [s[from..]];
    } else {
      PiecesRestore(s, v, k + |v|);
      NextPiece(s, v, from, k, SplitFrom(s, v, k + |v|));
    }
  }

  /** The mask cannot be part of an occurrence of `v`. */
  ghost predicate MaskSafe(v: string) {
    v != "" && v[0] != '*' && v[|v| - 1] != '*' && !Contains(v, MASK)
  }

  lemma NoStarIsMaskSafe(v: string)
    requires v != "" && '*' !in v
    ensures MaskSafe(v)
  {
    forall i: nat ensures !OccursAt(v, MASK, i) {
      if i + 3 <= |v| { assert v[i..i + 3][0] == v[i]; }
    }
  }

  lemma MaskInside(a: string, b: string, u: string, p: nat)
    requires OccursAt(a + MASK + b, u, p) && p < |a| && p + |u| >= |a| + 3
    ensures OccursAt(u, MASK, |a| - p)
  {
    var t, m := a + MASK + b, |a| - p;
    assert u[m..m + 3] == t[p..p + |u|][m..m + 3] == t[|a|..|a| + 3];
  }

  /** An occurrence in a + "***" + b of a mask-safe value lies in a or in b. */
  lemma OccursBesideMask(a: string, b: string, u: string, p: nat)
    requires MaskSafe(u) && OccursAt(a + MASK + b, u, p)
    ensures OccursAt(a, u, p) || (p >= |a| + 3 && OccursAt(b, u, p - |a| - 3))
  {
    var t, q := a + MASK + b, p + |u|;
    assert t[p..q][0] == t[p] && t[p..q][|u| - 1] == t[q - 1];
    if q <= |a| {
      assert t[p..q] == a[p..q];
    } else if p >= |a| + 3 {
      assert t[p..q] == b[p - |a| - 3..q - |a| - 3];
    } else if p < |a| && q >= |a| + 3 {
      MaskInside(a, b, u, p);
    }
  }

  lemma SliceOccurs(s: string, i: nat, j: nat, u: string, p: nat)
    requires i <= j <= |s| && OccursAt(s[i..j], u, p)
    ensures OccursAt(s, u, i + p) && i + p + |u| <= j
  {
    SliceOfSlice(s, i, j, p, p + |u|);
  }

  /** An occurrence of a mask-safe value in masked text lies in one of the pieces kept. */
  lemma {:induction false} JoinOccurs(pieces: seq<string>, u: string, p: nat) returns (n: nat, q: nat)
    requires pieces != [] && MaskSafe(u) && OccursAt(Join(pieces, MASK), u, p)
    ensures n < |pieces| && OccursAt(pieces[n], u, q)
  {
    n, q := 0, p;
    if |pieces| > 1 {
      OccursBesideMask(pieces[0], Join(pieces[1..], MASK), u, p);
      if !OccursAt(pieces[0], u, p) {
        n, q := JoinOccurs(pieces[1..], u, p - |pieces[0]| - 3);
        n := n + 1;
      }
    }
  }

  /** Every piece is a stretch of the text in which the value found at its ends does not start. */
  lemma {:induction false} PieceIs(s: string, v: string, from: nat, n: nat) returns (i: nat, j: nat)
    requires v != "" && from <= |s| && n < |SplitFrom(s, v, from)|
    ensures i <= j <= |s| && SplitFrom(s, v, from)[n] == s[i..j]
    ensures forall p: nat :: i <= p < j ==> !OccursAt(s, v, p)
    decreases |s| - from
  {
    var k := IndexOf(s, v, from);
    if k != |s| && n > 0 {
      i, j := PieceIs(s, v, k + |v|, n - 1);
    } else {
      i, j := from, k;
      forall p: nat | i <= p < j ensures !OccursAt(s, v, p) { NoneBefore(s, v, from, p); }
    }
  }

  /** Replacing any value brings in no occurrence of a mask-safe one. */
  lemma ReplaceAddsNone(s: string, v: string, u: string, p: nat) returns (i: nat)
    requires v != "" && MaskSafe(u) && OccursAt(ReplaceAll(s, v), u, p)
    ensures OccursAt(s, u, i)
  {
    var n, q := JoinOccurs(SplitFrom(s, v, 0), u, p);
    var a, b := PieceIs(s, v, 0, n);
    SliceOccurs(s, a, b, u, q);
    i := a + q;
  }

  /** Replacing a mask-safe value leaves no occurrence of it. */
  lemma ReplaceRemoves(s: string, v: string, p: nat)
    requires MaskSafe(v)
    ensures !OccursAt(ReplaceAll(s, v), v, p)
  {
    if OccursAt(ReplaceAll(s, v), v, p) {
      var n, q := JoinOccurs(SplitFrom(s, v, 0), v, p);
      var a, b := PieceIs(s, v, 0, n);
      SliceOccurs(s, a, b, v, q);
    }
  }

  lemma {:induction false} ReplaceEachRemoves(s: string, values: seq<string>, k: nat, p: nat)
    requires "" !in values
    requires k < |values| && MaskSafe(values[k])
    ensures !OccursAt(ReplaceEach(s, values), values[k], p)
  {
    var init, last := values[..|values| - 1], values[|values| - 1];
    if k == |values| - 1 {
      ReplaceRemoves(ReplaceEach(s, init), last, p);
    } else if OccursAt(ReplaceEach(s, values), values[k], p) {
      var i := ReplaceAddsNone(ReplaceEach(s, init), last, values[k], p);
      ReplaceEachRemoves(s, init, k, i);
    }
  }

  lemma {:induction false} ReplaceEachUnchanged(s: string, values: seq<string>)
    requires "" !in values && forall v :: v in values ==> !Contains(s, v)
    ensures ReplaceEach(s, values) == s
  {
    if values == [] {
    } else {
      var last := values[|values| - 1];
      ReplaceEachUnchanged(s, values[..|values| - 1]);
      assert last in values && !OccursAt(s, last, IndexOf(s, last, 0));
      assert SplitFrom(s, last, 0) == [s];
    }
  }

  // ---------------------------------------------------------------- main results

  /** Whatever the other values are, a secret value that the mask cannot touch, in particular
      one without `*`, occurs nowhere in the result; and content in which no secret value
      occurs comes back unchanged. */
  lemma RedactionComplete(content: string, secrets: seq<string>)
    ensures forall v :: v in secrets && MaskSafe(v) ==> !Contains(Redacted(content, secrets), v)
    ensures forall v :: v in secrets && v != "" && '*' !in v ==> !Contains(Redacted(content, secrets), v)
    ensures (forall v :: v in secrets && v != "" ==> !Contains(content, v)) ==> Redacted(content, secrets) == content
  {
    var sorted := Sorted(secrets);
    SortedValues(secrets);
    forall v | v in secrets && MaskSafe(v) ensures !Contains(Redacted(content, secrets), v) {
      var k :| 0 <= k < |sorted| && sorted[k] == v;
      forall p: nat ensures !OccursAt(Redacted(content, secrets), v, p) {
        ReplaceEachRemoves(content, sorted, k, p);
      }
    }
    forall v | v in secrets && v != "" && '*' !in v ensures MaskSafe(v) {
      NoStarIsMaskSafe(v);
    }
    if forall v :: v in secrets && v != "" ==> !Contains(content, v) {
      ReplaceEachUnchanged(content, sorted);
    }
  }

  lemma ThreeParts(w: string, v: string, q: string)
    ensures
      var s := w + v + q;
      s[..|w|] == w && s[|w| + |v|..] == q && OccursAt(s, v, |w|)
  {
    assert (w + v + q)[|w|..|w| + |v|] == v;
  }

  lemma FirstAt(s: string, v: string, n: nat)
    requires v != "" && OccursAt(s, v, n) && forall i: nat :: i < n ==> !OccursAt(s, v, i)
    ensures IndexOf(s, v, 0) == n
  {
    if n < IndexOf(s, v, 0) { NoneBefore(s, v, 0, n); }
  }

  /** If `v` is first found at |w| in w + v + q, and |q| < |v|, only that occurrence is masked. */
  lemma ReplaceOnce(w: string, v: string, q: string)
    requires v != "" && |q| < |v| && forall i: nat :: i < |w| ==> !OccursAt(w + v + q, v, i)
    ensures ReplaceAll(w + v + q, v) == w + MASK + q
  {
    var s := w + v + q;
    ThreeParts(w, v, q);
    FirstAt(s, v, |w|);
    NoneLeft(s, v, |w| + |v|);
    assert SplitFrom(s, v, 0) == [w] + [q];
    JoinCons(w, [q], MASK);
  }

  lemma {:induction false} NoneLeft(s: string, v: string, from: nat)
    requires v != "" && from <= |s| < from + |v|
    ensures IndexOf(s, v, from) == |s|
    decreases |s| - from
  {
    if from < |s| { NoneLeft(s, v, from + 1); }
  }

  /** What is put together around the mask may hold `v` again. */
  lemma OnceComesBack(w: string, v: string, q: string, p: nat)
    requires v != "" && |q| < |v| && forall i: nat :: i < |w| ==> !OccursAt(w + v + q, v, i)
    requires OccursAt(w + MASK + q, v, p)
    ensures Contains(ReplaceAll(w + v + q, v), v)
  {
    ReplaceOnce(w, v, q);
  }

  lemma StarRejoins(v: string)
    requires v != "" && v[0] == '*'
    ensures OccursAt("" + MASK + v[1..], v, 2)
  {
    var t := "" + MASK + v[1..];
    assert t[2..2 + |v|] == v;
  }

  lemma StarFirstComesBack(v: string) returns (content: string)
    requires v != "" && v[0] == '*'
    ensures Contains(ReplaceAll(content, v), v)
  {
    content := "" + v + v[1..];
    StarRejoins(v);
    OnceComesBack("", v, v[1..], 2);
  }

  /** Found before its own place in (v without its last character) + v, `v` starts as it ends. */
  lemma EarlyStart(v: string, i: nat)
    requires v != "" && i < |v| - 1 && OccursAt(v[..|v| - 1] + v + "", v, i)
    ensures v[0] == v[|v| - 1]
  {
    var s := v[..|v| - 1] + v + "";
    assert s[i..i + |v|][0] == s[i] == v[i];
    assert s[i..i + |v|][|v| - 1] == s[i + |v| - 1] == v[i];
  }

  lemma StarLastComesBack(v: string) returns (content: string)
    requires v != "" && v[0] != '*' && v[|v| - 1] == '*'
    ensures Contains(ReplaceAll(content, v), v)
  {
    var w := v[..|v| - 1];
    content := w + v + "";
    forall i: nat | i < |w| ensures !OccursAt(content, v, i) {
      if OccursAt(content, v, i) { EarlyStart(v, i); }
    }
    assert (w + MASK + "")[0..|v|] == v;
    OnceComesBack(w, v, "", 0);
  }

  /** Found before its own place in (v up to its first mask) + v + ..., `v` has an earlier mask. */
  lemma EarlyMask(v: string, k: nat, q: string, i: nat)
    requires OccursAt(v, MASK, k) && i < k && OccursAt(v[..k] + v + q, v, i)
    ensures OccursAt(v, MASK, i)
  {
    var s := v[..k] + v + q;
    SliceOfSlice(s, i, i + |v|, k, k + 3);
    assert s[k..k + |v|] == v;
    SliceOfSlice(s, k, k + |v|, i, i + 3);
  }

  lemma MaskRejoins(v: string, k: nat)
    requires OccursAt(v, MASK, k)
    ensures OccursAt(v[..k] + MASK + v[k + 3..], v, 0)
  {
    assert v == v[..k] + v[k..k + 3] + v[k + 3..];
    assert v[0..|v|] == v;
  }

  lemma MaskFound(v: string)
    requires Contains(v, MASK)
    ensures OccursAt(v, MASK, IndexOf(v, MASK, 0))
  {
    var i: nat :| OccursAt(v, MASK, i);
    if IndexOf(v, MASK, 0) == |v| { NoneBefore(v, MASK, 0, i); }
  }

  lemma MaskWithinComesBack(v: string) returns (content: string)
    requires Contains(v, MASK)
    ensures Contains(ReplaceAll(content, v), v)
  {
    var k := IndexOf(v, MASK, 0);
    MaskFound(v);
    var w, q := v[..k], v[k + 3..];
    content := w + v + q;
    forall i: nat | i < |w| ensures !OccursAt(content, v, i) {
      if OccursAt(content, v, i) {
        EarlyMask(v, k, q, i);
        NoneBefore(v, MASK, 0, i);
      }
    }
    MaskRejoins(v, k);
    OnceComesBack(w, v, q, 0);
  }

  lemma MaskBringsBack(v: string) returns (content: string)
    requires v != "" && !MaskSafe(v)
    ensures Contains(ReplaceAll(content, v), v)
  {
    if v[0] == '*' {
      content := StarFirstComesBack(v);
    } else if v[|v| - 1] == '*' {
      content := StarLastComesBack(v);
    } else {
      content := MaskWithinComesBack(v);
    }
  }

  /** A single secret is removed from every content if and only if it neither starts nor ends
      with `*` nor contains the mask. */
  lemma SingleSecretExactly(v: string)
    requires v != ""
    ensures (forall content :: !Contains(Redacted(content, [v]), v)) <==> MaskSafe(v)
  {
    forall content ensures Redacted(content, [v]) == ReplaceAll(content, v) {
      RedactOne(content, v);
    }
    if MaskSafe(v) {
      forall content ensures !Contains(Redacted(content, [v]), v) {
        forall p: nat ensures !OccursAt(ReplaceAll(content, v), v, p) { ReplaceRemoves(content, v, p); }
      }
    } else {
      var content := MaskBringsBack(v);
    }
  }

  lemma RedactOne(content: string, v: string)
    requires v != ""
    ensures Redacted(content, [v]) == ReplaceAll(content, v)
  {
    assert NonEmpty([v]) == [v] + NonEmpty([v][1..]) == [v];
    assert [v][..0] == [];
    assert Sorted([v]) == Insert(Sort([v][..0], NotShorter), v, NotShorter) == [v];
    assert ReplaceEach(content, [v]) == ReplaceAll(ReplaceEach(content, [v][..0]), v);
  }
}
