/** When the order of the secret values matters to `redactSecretValues` of src/lib/dry-run.ts. */
module RedactionOrder {
  import opened Concat
  import opened Redaction
  import opened Sorting
  import opened Text

  // ---------------------------------------------------------------- different lengths

  predicate DistinctLengths(xs: seq<string>) {
    forall i, j :: 0 <= i < j < |xs| ==> |xs[i]| != |xs[j]|
  }

  predicate Falling(xs: seq<string>) {
    forall i, j :: 0 <= i < j < |xs| ==> |xs[i]| > |xs[j]|
  }

  lemma {:induction false} InsertDistinct(xs: seq<string>, x: string)
    requires DistinctLengths(xs) && forall i :: 0 <= i < |xs| ==> |xs[i]| != |x|
    ensures DistinctLengths(Insert(xs, x, NotShorter))
  {
    if xs == [] {
    } else {
      var init, last := xs[..|xs| - 1], xs[|xs| - 1];
      if !NotShorter(last, x) {
        InsertDistinct(init, x);
        InsertMultiset(init, x, NotShorter);
        var r := Insert(init, x, NotShorter);
        forall i | 0 <= i < |r| ensures |r[i]| != |last| {
          assert r[i] in multiset(r);
          if r[i] != x { assert r[i] in multiset(init); }
        }
      }
    }
  }

  lemma {:induction false} SortDistinct(xs: seq<string>)
    requires DistinctLengths(xs)
    ensures DistinctLengths(Sort(xs, NotShorter))
  {
    if xs == [] {
    } else {
      var init, last := xs[..|xs| - 1], xs[|xs| - 1];
      var s := Sort(init, NotShorter);
      SortDistinct(init);
      SortMultiset(init, NotShorter);
      forall i | 0 <= i < |s| ensures |s[i]| != |last| {
        assert s[i] in s;
        var k :| 0 <= k < |init| && init[k] == s[i];
        assert |xs[k]| != |last|;
      }
      InsertDistinct(s, last);
    }
  }

  /** Lists of falling length with the same members are the same list. */
  lemma {:induction false} FallingUnique(xs: seq<string>, ys: seq<string>)
    requires Falling(xs) && Falling(ys) && forall v :: v in xs <==> v in ys
    ensures xs == ys
  {
    if xs == [] {
      assert forall i :: 0 <= i < |ys| ==> ys[i] in ys;
    } else {
      assert xs[0] in ys;
      assert ys[0] in xs;
      var i :| 0 <= i < |ys| && ys[i] == xs[0];
      var j :| 0 <= j < |xs| && xs[j] == ys[0];
      assert xs[0] == ys[0];
      forall v ensures v in xs[1..] <==> v in ys[1..] {
        TailMembers(xs, v);
        TailMembers(ys, v);
      }
      FallingUnique(xs[1..], ys[1..]);
      assert xs == [xs[0]] + xs[1..] && ys == [ys[0]] + ys[1..];
    }
  }

  lemma TailMembers(xs: seq<string>, v: string)
    requires xs != [] && Falling(xs)
    ensures v in xs[1..] <==> v in xs && v != xs[0]
  {
    if v in xs && v != xs[0] {
      var i :| 0 <= i < |xs| && xs[i] == v;
      assert xs[1..][i - 1] == v;
    }
  }

  /** With values of pairwise different lengths the result depends only on which values there
      are, not on their order, nor on empty ones. */
  lemma OrderIrrelevant(content: string, a: seq<string>, b: seq<string>)
    requires DistinctLengths(NonEmpty(a)) && DistinctLengths(NonEmpty(b))
    requires forall v :: v != "" ==> (v in a <==> v in b)
    ensures Redacted(content, a) == Redacted(content, b)
  {
    SortedValues(a);
    SortedValues(b);
    SortDistinct(NonEmpty(a));
    SortDistinct(NonEmpty(b));
    FallingUnique(Sorted(a), Sorted(b));
  }

  // ---------------------------------------------------------------- one left-to-right scan

  /** Replacement, one position after another. */
  ghost function Scan(s: string, v: string): string
    requires v != ""
  {
    if s == "" then ""
    else if v <= s then MASK + Scan(s[|v|..], v)
    else [s[0]] + Scan(s[1..], v)
  }

  lemma JoinHead(s: string, v: string, from: nat)
    requires v != "" && from < |s| && !OccursAt(s, v, from)
    ensures Join(SplitFrom(s, v, from), MASK) == [s[from]] + Join(SplitFrom(s, v, from + 1), MASK)
  {
    var k := IndexOf(s, v, from);
    assert k == IndexOf(s, v, from + 1);
    if k == |s| {
      assert s[from..] == [s[from]] + s[from + 1..];
    } else {
      JoinFirstPiece(s, v, from, k);
      JoinFirstPiece(s, v, from + 1, k);
      assert s[from..k] == [s[from]] + s[from + 1..k];
      AssocRest([s[from]], s[from + 1..k], MASK, Join(SplitFrom(s, v, k + |v|), MASK));
    }
  }

  lemma JoinFirstPiece(s: string, v: string, from: nat, k: nat)
    requires v != "" && from <= |s| && k == IndexOf(s, v, from) < |s|
    ensures Join(SplitFrom(s, v, from), MASK) == s[from..k] + MASK + Join(SplitFrom(s, v, k + |v|), MASK)
  {
    SplitStep(s, v, from, k);
    JoinCons(s[from..k], SplitFrom(s, v, k + |v|), MASK);
  }

  lemma JoinMask(s: string, v: string, from: nat)
    requires v != "" && from < |s| && OccursAt(s, v, from)
    ensures Join(SplitFrom(s, v, from), MASK) == MASK + Join(SplitFrom(s, v, from + |v|), MASK)
  {
    assert IndexOf(s, v, from) == from;
    JoinFirstPiece(s, v, from, from);
    assert s[from..from] + MASK == MASK;
  }

  lemma ScanStep(s: string, v: string, from: nat)
    requires v != "" && from < |s|
    ensures Scan(s[from..], v) ==
      if OccursAt(s, v, from) then MASK + Scan(s[from + |v|..], v) else [s[from]] + Scan(s[from + 1..], v)
  {
    PrefixHere(s, v, from);
    DropDrop(s, from, 1);
    if OccursAt(s, v, from) { DropDrop(s, from, |v|); }
  }

  lemma DropDrop(s: string, i: nat, j: nat)
    requires i + j <= |s|
    ensures s[i..][j..] == s[i + j..]
  {
  }

  lemma PrefixHere(s: string, v: string, from: nat)
    requires from <= |s|
    ensures OccursAt(s, v, from) <==> v <= s[from..]
  {
    var t := s[from..];
    if v <= t { assert s[from..from + |v|] == t[..|v|] == v; }
    if OccursAt(s, v, from) { assert t[..|v|] == s[from..from + |v|] == v; }
  }

  lemma {:induction false} ReplaceIsScan(s: string, v: string, from: nat)
    requires v != "" && from <= |s|
    ensures Join(SplitFrom(s, v, from), MASK) == Scan(s[from..], v)
    decreases |s| - from
  {
    if from == |s| {
    } else if OccursAt(s, v, from) {
      ReplaceIsScan(s, v, from + |v|);
      JoinMask(s, v, from);
      ScanStep(s, v, from);
    } else {
      ReplaceIsScan(s, v, from + 1);
      JoinHead(s, v, from);
      ScanStep(s, v, from);
    }
  }

  lemma ReplaceAllIsScan(s: string, v: string)
    requires v != ""
    ensures ReplaceAll(s, v) == Scan(s, v)
  {
    ReplaceIsScan(s, v, 0);
    assert s[0..] == s;
  }

  lemma StarStep(t: string, v: string)
    requires MaskSafe(v)
    ensures Scan("*" + t, v) == "*" + Scan(t, v)
  {
    var s := "*" + t;
    assert s[1..] == t;
    if v <= s { PrefixHead(v, s); }
  }

  lemma ThreeStars(t: string)
    ensures "*" + ("*" + ("*" + t)) == MASK + t
  {
  }

  /** A mask in front stays in front of what a mask-safe value leaves. */
  lemma ScanMask(t: string, v: string)
    requires MaskSafe(v)
    ensures Scan(MASK + t, v) == MASK + Scan(t, v)
  {
    StarStep(t, v);
    StarStep("*" + t, v);
    StarStep("*" + ("*" + t), v);
    ThreeStars(t);
    ThreeStars(Scan(t, v));
  }

  lemma PrefixHead(v: string, s: string)
    requires v != "" && v <= s
    ensures s != "" && s[0] == v[0] && OccursAt(s, v, 0)
  {
  }

  lemma TailOccurs(s: string, v: string, p: nat)
    requires s != "" && OccursAt(s[1..], v, p)
    ensures OccursAt(s, v, p + 1)
  {
    assert s[1..] == s[1..|s|];
    SliceOccurs(s, 1, |s|, v, p);
  }

  lemma {:induction false} ScanNone(s: string, v: string)
    requires v != "" && forall p: nat :: !OccursAt(s, v, p)
    ensures Scan(s, v) == s
  {
    if s == "" {
    } else {
      forall p: nat ensures !OccursAt(s[1..], v, p) {
        if OccursAt(s[1..], v, p) { TailOccurs(s, v, p); }
      }
      ScanNone(s[1..], v);
      if v <= s { PrefixHead(v, s); }
    }
  }

  // ---------------------------------------------------------------- overlaps

  /** A proper suffix of `v`, `k` long, is a prefix of `w`. */
  predicate Overlap(v: string, w: string, k: nat) {
    0 < k < |v| && k < |w| && v[|v| - k..] == w[..k]
  }

  ghost predicate Overlaps(v: string, w: string) {
    exists k: nat :: Overlap(v, w, k)
  }

  lemma ScanPlain(s: string, v: string)
    requires v != "" && s != "" && !(v <= s)
    ensures Scan(s, v) == [s[0]] + Scan(s[1..], v)
  {
  }

  /** The scan for `v` copies an occurrence of `w` that it does not overlap. */
  lemma {:induction false} ScanCopies(w: string, i: nat, t: string, v: string)
    requires v != "" && |v| == |w| && v != w && !Overlaps(w, v) && i <= |w|
    ensures Scan(w[i..] + t, v) == w[i..] + Scan(t, v)
    decreases |w| - i
  {
    if i == |w| {
      assert w[i..] + t == t;
    } else {
      ScanCopies(w, i + 1, t, v);
      NotHere(w, i, t, v);
      ScanPlain(w[i..] + t, v);
      assert (w[i..] + t)[1..] == w[i + 1..] + t && w[i..] == [w[i]] + w[i + 1..];
      Assoc([w[i]], w[i + 1..], Scan(t, v));
    }
  }

  /** A value that starts within another one of its length is that one, or overlaps it. */
  lemma PrefixOverlaps(w: string, i: nat, t: string, v: string)
    requires |v| == |w| && i < |w| && v <= w[i..] + t
    ensures if i == 0 then v == w else Overlap(w, v, |w| - i)
  {
    var s := w[i..] + t;
    assert v[..|w| - i] == s[..|w| - i] == w[i..];
  }

  lemma NotHere(w: string, i: nat, t: string, v: string)
    requires v != "" && |v| == |w| && v != w && !Overlaps(w, v) && i < |w|
    ensures !(v <= w[i..] + t)
  {
    if v <= w[i..] + t { PrefixOverlaps(w, i, t, v); }
  }

  lemma ThroughMask(s: string, v: string, w: string)
    requires v != "" && MaskSafe(w) && w <= ReplaceAll(s, v)
    ensures w <= s
  {
    var k := IndexOf(s, v, 0);
    assert ReplaceAll(s, v)[0..0 + |w|] == w;
    if k == |s| {
      assert SplitFrom(s, v, 0) == [s];
    } else {
      JoinFirstPiece(s, v, 0, k);
      OccursBesideMask(s[0..k], Join(SplitFrom(s, v, k + |v|), MASK), w, 0);
      SliceOccurs(s, 0, k, w, 0);
    }
  }

  // ---------------------------------------------------------------- two values of one length

  /** Both values replaced in one scan. */
  ghost function ScanBoth(s: string, v: string, w: string): string
    requires v != "" && |v| == |w|
  {
    if s == "" then ""
    else if v <= s || w <= s then MASK + ScanBoth(s[|v|..], v, w)
    else [s[0]] + ScanBoth(s[1..], v, w)
  }

  lemma {:induction false} BothSymmetric(s: string, v: string, w: string)
    requires v != "" && |v| == |w|
    ensures ScanBoth(s, v, w) == ScanBoth(s, w, v)
  {
    if s == "" {
    } else if v <= s || w <= s {
      BothSymmetric(s[|v|..], v, w);
    } else {
      BothSymmetric(s[1..], v, w);
    }
  }

  /** Unless the second value can run into the first, two scans do what one does. */
  lemma {:induction false} TwoScans(s: string, v: string, w: string)
    requires v != "" && MaskSafe(w) && |v| == |w| && v != w && !Overlaps(w, v)
    ensures Scan(Scan(s, v), w) == ScanBoth(s, v, w)
  {
    if s == "" {
    } else if v <= s {
      TwoScans(s[|v|..], v, w);
      ScanMask(Scan(s[|v|..], v), w);
    } else if w <= s {
      TwoScans(s[|w|..], v, w);
      assert s == w + s[|w|..];
      SecondFound(w, s[|w|..], v, Scan(s[|w|..], v));
    } else {
      TwoScans(s[1..], v, w);
      NeitherFound(s, v, w);
    }
  }

  lemma ScanFound(w: string, t: string)
    requires w != ""
    ensures Scan(w + t, w) == MASK + Scan(t, w)
  {
    assert (w + t)[|w|..] == t;
  }

  lemma CopiesWhole(w: string, t: string, v: string)
    requires v != "" && |v| == |w| && v != w && !Overlaps(w, v)
    ensures Scan(w + t, v) == w + Scan(t, v)
  {
    ScanCopies(w, 0, t, v);
    assert w[0..] == w;
  }

  lemma SecondFound(w: string, t: string, v: string, r: string)
    requires v != "" && MaskSafe(w) && |v| == |w| && v != w && !Overlaps(w, v) && r == Scan(t, v)
    ensures Scan(Scan(w + t, v), w) == MASK + Scan(r, w)
  {
    CopiesWhole(w, t, v);
    ScanFound(w, r);
  }

  lemma NeitherFound(s: string, v: string, w: string)
    requires v != "" && MaskSafe(w) && s != "" && !(v <= s) && !(w <= s)
    ensures Scan(Scan(s, v), w) == [s[0]] + Scan(Scan(s[1..], v), w)
  {
    var r := Scan(s, v);
    ReplaceAllIsScan(s, v);
    assert r[0] == s[0] && r[1..] == Scan(s[1..], v);
    if w <= r { ThroughMask(s, v, w); }
  }

  lemma RedactTwo(content: string, v: string, w: string)
    requires v != "" && |v| == |w|
    ensures Redacted(content, [v, w]) == Scan(Scan(content, v), w)
  {
    SortTwo(v, w);
    var values := [v, w];
    assert values[..1] == [v] && [v][..0] == [];
    assert ReplaceEach(content, []) == content;
    assert ReplaceEach(content, [v]) == ReplaceAll(content, v);
    ReplaceAllIsScan(content, v);
    ReplaceAllIsScan(Scan(content, v), w);
  }

  lemma SortTwo(v: string, w: string)
    requires v != "" && |v| == |w|
    ensures Sorted([v, w]) == [v, w]
  {
    assert [v, w][1..] == [w] && [w][1..] == [];
    assert NonEmpty([w]) == [w] && NonEmpty([v, w]) == [v, w];
    assert [v, w][..1] == [v] && [v][..0] == [];
    assert Sort([v], NotShorter) == [v];
    assert Sort([v, w], NotShorter) == Insert([v], w, NotShorter);
  }

  // ---------------------------------------------------------------- where the order shows

  lemma {:induction false} LargestOverlap(v: string, w: string, k: nat) returns (m: nat)
    requires Overlap(v, w, k)
    ensures Overlap(v, w, m) && forall l: nat :: l > m ==> !Overlap(v, w, l)
    decreases |v| - k
  {
    if l: nat :| l > k && Overlap(v, w, l) {
      m := LargestOverlap(v, w, l);
    } else {
      m := k;
    }
  }

  lemma LaidOver(v: string, w: string, k: nat, i: nat)
    requires |v| == |w| && Overlap(v, w, k) && i < |v| - k
    ensures v[i..] + w[k..] == [v[i]] + (v[i + 1..] + w[k..])
    ensures v[i..|v| - k] == [v[i]] + v[i + 1..|v| - k]
  {
  }

  lemma LaidOverEnd(v: string, w: string, k: nat)
    requires |v| == |w| && Overlap(v, w, k)
    ensures v[|v| - k..] + w[k..] == w + ""
    ensures v[|v| - k..|v| - k] + MASK == MASK + ""
  {
  }

  lemma ScanHead(c: char, t: string, v: string)
    requires v != "" && !(v <= [c] + t)
    ensures Scan([c] + t, v) == [c] + Scan(t, v)
  {
    assert ([c] + t)[1..] == t;
  }

  /** v and w, laid over each other by their largest overlap. */
  lemma {:induction false} SecondScanned(v: string, w: string, k: nat, i: nat)
    requires |v| == |w| && v != w && Overlap(v, w, k) && (forall l: nat :: l > k ==> !Overlap(v, w, l)) && i <= |v| - k
    ensures Scan(v[i..] + w[k..], w) == v[i..|v| - k] + MASK
    decreases |v| - i
  {
    if i == |v| - k {
      LaidOverEnd(v, w, k);
      ScanFound(w, "");
    } else {
      SecondScanned(v, w, k, i + 1);
      NotBefore(v, w, k, i);
      LaidOver(v, w, k, i);
      ScanHead(v[i], v[i + 1..] + w[k..], w);
      Assoc([v[i]], v[i + 1..|v| - k], MASK);
    }
  }

  lemma NotBefore(v: string, w: string, k: nat, i: nat)
    requires |v| == |w| && v != w && Overlap(v, w, k) && (forall l: nat :: l > k ==> !Overlap(v, w, l)) && i < |v| - k
    ensures !(w <= v[i..] + w[k..])
  {
    if w <= v[i..] + w[k..] { PrefixOverlaps(v, i, w[k..], w); }
  }

  lemma ShortScan(s: string, v: string)
    requires v != "" && |s| < |v|
    ensures Scan(s, v) == s
  {
    ScanNone(s, v);
  }

  /** The order decides which of two overlapping values is found. */
  lemma OverlapShows(v: string, w: string, k: nat) returns (content: string)
    requires MaskSafe(v) && MaskSafe(w) && |v| == |w| && v != w && Overlap(v, w, k)
    ensures Redacted(content, [v, w]) != Redacted(content, [w, v])
  {
    var m := LargestOverlap(v, w, k);
    content := v[0..] + w[m..];
    RedactTwo(content, v, w);
    RedactTwo(content, w, v);
    FirstThenSecond(v, w, m);
    SecondThenFirst(v, w, m);
    assert (MASK + w[m..])[0] == '*' && (v[0..|v| - m] + MASK)[0] == v[0];
  }

  lemma FirstThenSecond(v: string, w: string, k: nat)
    requires MaskSafe(v) && MaskSafe(w) && |v| == |w| && 0 < k < |v|
    ensures Scan(Scan(v[0..] + w[k..], v), w) == MASK + w[k..]
  {
    var s := v[0..] + w[k..];
    assert v <= s && s[|v|..] == w[k..];
    ShortScan(w[k..], v);
    ScanMask(w[k..], w);
    ShortScan(w[k..], w);
  }

  lemma SecondThenFirst(v: string, w: string, k: nat)
    requires MaskSafe(v) && |v| == |w| && v != w && Overlap(v, w, k) && (forall l: nat :: l > k ==> !Overlap(v, w, l))
    ensures Scan(Scan(v[0..] + w[k..], w), v) == v[0..|v| - k] + MASK
  {
    SecondScanned(v, w, k, 0);
    var a := v[0..|v| - k];
    var r := a + MASK;
    forall p: nat ensures !OccursAt(r, v, p) {
      assert a + MASK + "" == r;
      if OccursAt(r, v, p) { OccursBesideMask(a, "", v, p); }
    }
    ScanNone(r, v);
  }

  /** For two different mask-safe values of one length the order makes no difference to any
      content if and only if no proper suffix of either is a prefix of the other. */
  lemma OrderExactly(v: string, w: string)
    requires MaskSafe(v) && MaskSafe(w) && |v| == |w| && v != w
    ensures (forall content :: Redacted(content, [v, w]) == Redacted(content, [w, v])) <==>
      !Overlaps(v, w) && !Overlaps(w, v)
  {
    if k: nat :| Overlap(v, w, k) {
      var content := OverlapShows(v, w, k);
    } else if k: nat :| Overlap(w, v, k) {
      var content := OverlapShows(w, v, k);
    } else {
      forall content ensures Redacted(content, [v, w]) == Redacted(content, [w, v]) {
        RedactTwo(content, v, w);
        RedactTwo(content, w, v);
        TwoScans(content, v, w);
        TwoScans(content, w, v);
        BothSymmetric(content, v, w);
      }
    }
  }

  lemma ForwardOrder()
    ensures Redacted("abc", ["ab", "bc"]) == "***c"
  {
    var v, w := "ab", "bc";
    NoStarIsMaskSafe(v);
    NoStarIsMaskSafe(w);
    RedactTwo("abc", v, w);
    FirstThenSecond(v, w, 1);
    assert w[1..] == "c" && v[0..] + "c" == "abc";
    assert MASK + "c" == "***c";
  }

  lemma BackwardOrder()
    ensures Redacted("abc", ["bc", "ab"]) == "a***"
  {
    var v, w := "ab", "bc";
    NoStarIsMaskSafe(v);
    RedactTwo("abc", w, v);
    assert v[1..] == "b" == w[..1];
    assert Overlap(v, w, 1);
    SecondThenFirst(v, w, 1);
    assert w[1..] == "c" && v[0..] + "c" == "abc";
    assert v[0..1] == "a" && "a" + MASK == "a***";
  }

  /** "abc" with the values "ab" and "bc", for one. */
  lemma OrderMatters()
    ensures Redacted("abc", ["ab", "bc"]) == "***c" && Redacted("abc", ["bc", "ab"]) == "a***"
  {
    ForwardOrder();
    BackwardOrder();
  }

  // ---------------------------------------------------------------- any number of values

  /** Neither value can run into the other, unless they differ in length. */
  ghost predicate Apart(v: string, w: string) {
    |v| == |w| && v != w ==> !Overlaps(v, w) && !Overlaps(w, v)
  }

  /** Mask-safe values of which no two different ones of one length overlap. */
  ghost predicate Compatible(values: seq<string>) {
    && (forall v :: v in values ==> MaskSafe(v))
    && (forall v, w :: v in values && w in values ==> Apart(v, w))
  }

  predicate AllOfLength(values: seq<string>, n: nat) {
    forall v :: v in values ==> |v| == n
  }

  lemma SwapTwo(t: string, v: string, w: string)
    requires MaskSafe(v) && MaskSafe(w) && |v| == |w| && Apart(v, w)
    ensures ReplaceAll(ReplaceAll(t, v), w) == ReplaceAll(ReplaceAll(t, w), v)
  {
    if v != w {
      ReplaceAllIsScan(t, v);
      ReplaceAllIsScan(t, w);
      ReplaceAllIsScan(Scan(t, v), w);
      ReplaceAllIsScan(Scan(t, w), v);
      TwoScans(t, v, w);
      TwoScans(t, w, v);
      BothSymmetric(t, v, w);
    }
  }

  lemma EachLast(s: string, values: seq<string>, v: string)
    requires "" !in values && v != ""
    ensures ReplaceEach(s, values + [v]) == ReplaceAll(ReplaceEach(s, values), v)
  {
    assert (values + [v])[..|values|] == values;
  }

  /** A value may be replaced after the values of its length that follow it. */
  lemma {:induction false} MoveLast(s: string, front: seq<string>, v: string, same: seq<string>)
    requires Compatible(front + [v] + same)
    requires AllOfLength(same, |v|)
    ensures "" !in front + [v] + same && "" !in front + same + [v]
    ensures ReplaceEach(s, front + [v] + same) == ReplaceEach(s, front + same + [v])
  {
    var whole := front + [v] + same;
    assert forall x :: x in front || x == v || x in same ==> x in whole;
    if same == [] {
      assert front + [v] + same == front + same + [v];
    } else {
      var init, w := same[..|same| - 1], same[|same| - 1];
      assert same == init + [w];
      MoveLast(s, front, v, init);
      MoveOne(s, front, v, init, w);
      Assoc(front + [v], init, [w]);
      Assoc(front, init, [w]);
    }
  }

  lemma MoveOne(s: string, front: seq<string>, v: string, init: seq<string>, w: string)
    requires "" !in front && "" !in init
    requires MaskSafe(v) && MaskSafe(w) && |v| == |w| && Apart(v, w)
    requires ReplaceEach(s, front + [v] + init) == ReplaceEach(s, front + init + [v])
    ensures ReplaceEach(s, front + [v] + init + [w]) == ReplaceEach(s, front + init + [w] + [v])
  {
    var t := ReplaceEach(s, front + init);
    EachLast(s, front + [v] + init, w);
    EachLast(s, front + init, v);
    EachLast(s, front + init, w);
    EachLast(s, front + init + [w], v);
    SwapTwo(t, v, w);
  }

  /** In an order of the same values, only values of its length follow the last of `ys`. */
  lemma LastFollowed(xs: seq<string>, ys: seq<string>, p: nat)
    requires Ordered(xs, NotShorter) && Ordered(ys, NotShorter) && multiset(xs) == multiset(ys)
    requires ys != [] && p < |xs| && xs[p] == ys[|ys| - 1]
    ensures AllOfLength(xs[p + 1..], |xs[p]|)
  {
    forall x | x in xs[p + 1..] ensures |x| == |xs[p]| {
      var i :| p + 1 <= i < |xs| && xs[i] == x;
      assert NotShorter(xs[p], xs[i]);
      assert x in multiset(xs);
      var j :| 0 <= j < |ys| && ys[j] == x;
      assert j < |ys| - 1 ==> NotShorter(ys[j], ys[|ys| - 1]);
    }
  }

  lemma OrderedWithout(xs: seq<string>, p: nat)
    requires Ordered(xs, NotShorter) && p < |xs|
    ensures Ordered(xs[..p] + xs[p + 1..], NotShorter)
  {
    var rest := xs[..p] + xs[p + 1..];
    forall i, j | 0 <= i < j < |rest| ensures NotShorter(rest[i], rest[j]) {
      var i', j' := if i < p then i else i + 1, if j < p then j else j + 1;
      assert rest[i] == xs[i'] && rest[j] == xs[j'] && NotShorter(xs[i'], xs[j']);
    }
  }

  lemma Without(xs: seq<string>, p: nat)
    requires p < |xs|
    ensures xs == xs[..p] + [xs[p]] + xs[p + 1..]
    ensures multiset(xs[..p] + xs[p + 1..]) == multiset(xs) - multiset{xs[p]}
  {
    assert xs == xs[..p] + [xs[p]] + xs[p + 1..];
  }

  lemma SameValues(xs: seq<string>, ys: seq<string>)
    requires multiset(ys) <= multiset(xs) && Compatible(xs)
    ensures Compatible(ys) && "" !in ys
  {
    assert forall x :: x in ys ==> x in multiset(ys) && x in multiset(xs);
    assert forall x :: x in ys ==> x in xs;
  }

  /** The rest of `xs`, without its entry p, and the front of `ys` have the same values. */
  lemma SameRest(xs: seq<string>, ys: seq<string>, p: nat)
    requires multiset(xs) == multiset(ys) && ys != [] && p < |xs| && xs[p] == ys[|ys| - 1]
    ensures multiset(xs[..p] + xs[p + 1..]) == multiset(ys[..|ys| - 1])
  {
    Without(xs, p);
    Without(ys, |ys| - 1);
    assert ys[..|ys| - 1] + ys[|ys|..] == ys[..|ys| - 1];
  }

  lemma WhereLast(xs: seq<string>, ys: seq<string>) returns (p: nat)
    requires multiset(xs) == multiset(ys) && ys != []
    ensures p < |xs| && xs[p] == ys[|ys| - 1]
  {
    var v := ys[|ys| - 1];
    assert v in multiset(ys);
    assert v in multiset(xs);
    p :| 0 <= p < |xs| && xs[p] == v;
  }

  lemma LastReplaced(s: string, front: seq<string>, v: string, same: seq<string>, init: seq<string>)
    requires Compatible(front + [v] + same) && AllOfLength(same, |v|) && Compatible(init) && "" !in front + same
    requires ReplaceEach(s, front + same) == ReplaceEach(s, init)
    ensures "" !in front + [v] + same && "" !in init + [v]
    ensures ReplaceEach(s, front + [v] + same) == ReplaceEach(s, init + [v])
  {
    assert v in front + [v] + same;
    MoveLast(s, front, v, same);
    EachLast(s, front + same, v);
    EachLast(s, init, v);
  }

  /** The last of `ys` taken out of both. */
  lemma TakeLast(xs: seq<string>, ys: seq<string>)
    returns (front: seq<string>, v: string, same: seq<string>, init: seq<string>)
    requires Ordered(xs, NotShorter) && Ordered(ys, NotShorter) && multiset(xs) == multiset(ys) && ys != []
    ensures xs == front + [v] + same && ys == init + [v] && AllOfLength(same, |v|)
    ensures Ordered(front + same, NotShorter) && Ordered(init, NotShorter) && multiset(front + same) == multiset(init)
  {
    var p := WhereLast(xs, ys);
    front, v, same, init := xs[..p], xs[p], xs[p + 1..], ys[..|ys| - 1];
    LastFollowed(xs, ys, p);
    OrderedWithout(xs, p);
    SameRest(xs, ys, p);
    Without(xs, p);
    assert ys == init + [v];
  }

  lemma StillCompatible(front: seq<string>, v: string, same: seq<string>, init: seq<string>)
    requires Compatible(front + [v] + same) && multiset(front + same) == multiset(init)
    ensures Compatible(front + same) && "" !in front + same && Compatible(init) && "" !in init
  {
    forall x | x in front + same ensures x in front + [v] + same {}
    SameValues(front + same, init);
  }

  /** Two orders of the same values, both longest first. */
  lemma {:induction false} SameResult(s: string, xs: seq<string>, ys: seq<string>)
    requires Ordered(xs, NotShorter) && Ordered(ys, NotShorter) && multiset(xs) == multiset(ys) && Compatible(xs)
    ensures "" !in xs && "" !in ys && ReplaceEach(s, xs) == ReplaceEach(s, ys)
    decreases |ys|
  {
    if ys == [] {
      assert |multiset(xs)| == 0;
    } else {
      var front, v, same, init := TakeLast(xs, ys);
      StillCompatible(front, v, same, init);
      SameResult(s, front + same, init);
      LastReplaced(s, front, v, same, init);
    }
  }

  /** The order of the values makes no difference to any content, whatever their number, when
      they are mask-safe and no two different ones of one length overlap. */
  lemma PermutationIrrelevant(content: string, a: seq<string>, b: seq<string>)
    requires multiset(NonEmpty(a)) == multiset(NonEmpty(b)) && Compatible(NonEmpty(a))
    ensures Redacted(content, a) == Redacted(content, b)
  {
    SortMultiset(NonEmpty(a), NotShorter);
    SortMultiset(NonEmpty(b), NotShorter);
    SortOrders(NonEmpty(a), NotShorter);
    SortOrders(NonEmpty(b), NotShorter);
    SameResult(content, Sorted(a), Sorted(b));
  }
}
