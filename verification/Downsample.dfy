/** The columnar largest-triangle-three-buckets downsampling of src/lib/metrics-downsample.ts,
    over exact reals. */
module Downsample {
  import opened Wrappers

  /** One entity's samples; a slot the entity was not sampled at holds None. */
  type Row = seq<Option<real>>

  datatype Point = Point(x: real, y: real)

  /** A half-open range of timestamp indices. */
  datatype Range = Range(start: nat, end: nat)

  /** Reading past the end of a row gives no sample. */
  function Sample(row: Row, i: nat): Option<real> {
    if i < |row| then row[i] else None
  }

  // ---------------------------------------------------------------- bucket boundaries

  function Start(n: nat, interior: nat, i: nat): (s: nat)
    requires n >= 2 && interior > 0
    ensures s >= 1
  {
    DivNonNegative(i * (n - 2), interior);
    i * (n - 2) / interior + 1
  }

  lemma DivNonNegative(a: int, d: int)
    requires a >= 0 && d > 0
    ensures a / d >= 0
  {
  }

  /** The range given to an interior bucket. */
  function Bucket(n: nat, interior: nat, i: nat): Range
    requires n >= 2 && interior > 0
  {
    Range(Start(n, interior, i), if Start(n, interior, i + 1) < n - 1 then Start(n, interior, i + 1) else n - 1)
  }

  lemma DivAdvances(a: int, b: int, d: int)
    requires d > 0 && a + d <= b
    ensures a / d + 1 <= b / d
  {
    var q, r := a / d, a % d;
    assert a == q * d + r;
    assert (q + 1) * d == q * d + d;
    DivLower(b, q + 1, d);
  }

  lemma DivLower(b: int, q: int, d: int)
    requires d > 0 && q * d <= b
    ensures q <= b / d
  {
    var p := b / d;
    assert b == p * d + b % d;
    assert (p + 1) * d == p * d + d;
    if p < q {
      MulMonotone(p + 1, q, d);
    }
  }

  lemma MulMonotone(a: int, b: int, d: int)
    requires a <= b && d >= 0
    ensures a * d <= b * d
  {
  }

  lemma StartAdvances(n: nat, interior: nat, i: nat)
    requires interior > 0 && n - 2 >= interior
    ensures Start(n, interior, i) < Start(n, interior, i + 1)
  {
    assert (i + 1) * (n - 2) == i * (n - 2) + (n - 2);
    DivAdvances(i * (n - 2), (i + 1) * (n - 2), interior);
  }

  lemma {:induction false} StartMonotone(n: nat, interior: nat, i: nat, j: nat)
    requires interior > 0 && n - 2 >= interior && i <= j
    ensures Start(n, interior, i) + (j - i) <= Start(n, interior, j)
    decreases j - i
  {
    if i < j {
      StartAdvances(n, interior, i);
      StartMonotone(n, interior, i + 1, j);
    }
  }

  lemma StartEnds(n: nat, interior: nat)
    requires interior > 0 && n - 2 >= interior
    ensures Start(n, interior, 0) == 1 && Start(n, interior, interior) == n - 1
  {
    var m := n - 2;
    assert 0 * m == 0;
    DivLower(interior * m, m, interior);
    assert m * interior == interior * m;
    DivUpper(m, interior);
  }

  lemma DivUpper(m: int, d: int)
    requires d > 0
    ensures d * m / d <= m
  {
    var p := d * m / d;
    assert d * m == p * d + (d * m) % d;
    assert (m + 1) * d == d * m + d;
    if p > m {
      MulMonotone(m + 1, p, d);
    }
  }

  /** Every bucket is non-empty and ends where the next one starts; the clamp to the last
      index never bites, and the degenerate branch is never taken. */
  lemma BucketShape(n: nat, interior: nat, i: nat)
    requires interior > 0 && n - 2 >= interior && i < interior
    ensures Bucket(n, interior, i) == Range(Start(n, interior, i), Start(n, interior, i + 1))
    ensures 1 <= Bucket(n, interior, i).start < Bucket(n, interior, i).end <= n - 1
  {
    StartEnds(n, interior);
    StartMonotone(n, interior, 0, i);
    StartAdvances(n, interior, i);
    StartMonotone(n, interior, i + 1, interior);
  }

  ghost predicate InBucket(n: nat, interior: nat, i: nat, j: nat)
    requires n >= 2 && interior > 0
  {
    Bucket(n, interior, i).start <= j < Bucket(n, interior, i).end
  }

  /** The buckets partition the indices strictly between the first and the last. */
  lemma BucketsPartition(n: nat, interior: nat, j: nat)
    requires interior > 0 && n - 2 >= interior
    ensures 1 <= j < n - 1 <==> exists i: nat :: i < interior && InBucket(n, interior, i, j)
    ensures forall i: nat, k: nat ::
      i < interior && k < interior && InBucket(n, interior, i, j) && InBucket(n, interior, k, j) ==> i == k
  {
    StartEnds(n, interior);
    if 1 <= j < n - 1 {
      BucketOf(n, interior, j, interior);
    }
    forall i: nat | i < interior && InBucket(n, interior, i, j)
      ensures 1 <= j < n - 1
    {
      BucketShape(n, interior, i);
    }
    forall i: nat, k: nat | i < interior && k < interior && InBucket(n, interior, i, j) && InBucket(n, interior, k, j)
      ensures i == k
    {
      BucketShape(n, interior, i);
      BucketShape(n, interior, k);
      if i < k {
        StartMonotone(n, interior, i + 1, k);
      } else if k < i {
        StartMonotone(n, interior, k + 1, i);
      }
    }
  }

  lemma {:induction false} BucketOf(n: nat, interior: nat, j: nat, top: nat)
    requires interior > 0 && n - 2 >= interior && top <= interior
    requires Start(n, interior, 0) <= j < Start(n, interior, top)
    ensures exists i: nat :: i < top && InBucket(n, interior, i, j)
  {
    if Start(n, interior, top - 1) <= j {
      BucketShape(n, interior, top - 1);
      assert InBucket(n, interior, top - 1, j);
    } else {
      BucketOf(n, interior, j, top - 1);
    }
  }

  lemma DivBounds(a: int, d: int)
    requires d > 0
    ensures d * (a / d) <= a < d * (a / d + 1)
  {
    assert a == d * (a / d) + a % d;
  }

  /** A bucket starts at the floor of its share of the interior, past the first index. */
  ghost predicate StartsAt(n: nat, interior: nat, i: nat, start: nat) {
    interior * (start - 1) <= i * (n - 2) < interior * start
  }

  lemma StartIsFloor(n: nat, interior: nat, i: nat)
    requires n >= 2 && interior > 0
    ensures StartsAt(n, interior, i, Start(n, interior, i))
  {
    DivBounds(i * (n - 2), interior);
  }

  lemma StartUnique(n: nat, interior: nat, i: nat, s: nat, t: nat)
    requires interior > 0 && StartsAt(n, interior, i, s) && StartsAt(n, interior, i, t)
    ensures s == t
  {
    if s < t {
      MulMonotone(s, t - 1, interior);
    } else if t < s {
      MulMonotone(t, s - 1, interior);
    }
  }

  /** The interior is cut evenly: no two buckets differ in length by more than one index. */
  lemma BucketsEven(n: nat, interior: nat, i: nat, k: nat)
    requires interior > 0 && n - 2 >= interior && i < interior && k < interior
    ensures
      var b, c := Bucket(n, interior, i), Bucket(n, interior, k);
      b.end - b.start <= c.end - c.start + 1
  {
    BucketShape(n, interior, i);
    BucketShape(n, interior, k);
    var length, other := LengthOf(n, interior, i), LengthOf(n, interior, k);
    LengthBounds(n, interior, i);
    LengthBounds(n, interior, k);
    if length > other + 1 {
      MulMonotone(other + 1, length - 1, interior);
    }
  }

  function LengthOf(n: nat, interior: nat, i: nat): int
    requires n >= 2 && interior > 0
  {
    Start(n, interior, i + 1) - Start(n, interior, i)
  }

  lemma LengthBounds(n: nat, interior: nat, i: nat)
    requires n >= 2 && interior > 0
    ensures (LengthOf(n, interior, i) - 1) * interior < n - 2 < (LengthOf(n, interior, i) + 1) * interior
  {
    var s, t := Start(n, interior, i), Start(n, interior, i + 1);
    StartIsFloor(n, interior, i);
    StartIsFloor(n, interior, i + 1);
    assert (i + 1) * (n - 2) == i * (n - 2) + (n - 2);
    assert (t - s - 1) * interior == interior * (t - 1) - interior * s;
    assert (t - s + 1) * interior == interior * t - interior * (s - 1);
  }

  /** The loop: each start is the floor of its share, each bucket ends where the next one starts,
      the last one at the last index. */
  method Boundaries(n: nat, interior: nat) returns (boundaries: array<Range>)
    requires interior > 0 && n - 2 >= interior
    ensures fresh(boundaries) && boundaries.Length == interior
    ensures forall i: nat :: i < interior ==> boundaries[i] == Bucket(n, interior, i)
    ensures forall i: nat :: i < interior ==> StartsAt(n, interior, i, boundaries[i].start)
    ensures forall i: nat :: i < interior ==> StartsAt(n, interior, i + 1, boundaries[i].end)
    ensures boundaries[interior - 1].end == n - 1
  {
    boundaries := new Range[interior](_ => Range(0, 0));
    for i := 0 to interior
      invariant forall k: nat :: k < i ==> boundaries[k] == Bucket(n, interior, k)
    {
      DivNonNegative(i * (n - 2), interior);
      DivNonNegative((i + 1) * (n - 2), interior);
      var start := i * (n - 2) / interior + 1;
      var end := (i + 1) * (n - 2) / interior + 1;
      boundaries[i] := Range(start, if end < n - 1 then end else n - 1);
    }
    StartEnds(n, interior);
    forall i: nat | i < interior
      ensures StartsAt(n, interior, i, boundaries[i].start) && StartsAt(n, interior, i + 1, boundaries[i].end)
    {
      BucketShape(n, interior, i);
      StartIsFloor(n, interior, i);
      StartIsFloor(n, interior, i + 1);
    }
    BucketShape(n, interior, interior - 1);
  }

  // ---------------------------------------------------------------- triangle evidence

  datatype Sums = Sums(count: nat, x: nat, y: real)

  /** How many samples a row has in a range, with the sums of their indices and values. */
  function SumsOf(row: Row, start: nat, end: nat): Sums
    decreases end
  {
    if end <= start then Sums(0, 0, 0.0)
    else
      var before := SumsOf(row, start, end - 1);
      match Sample(row, end - 1)
      case None => before
      case Some(v) => Sums(before.count + 1, before.x + (end - 1), before.y + v)
  }

  /** The mean point of a row's samples in a range. */
  function Average(row: Row, range: Range): Option<Point> {
    var s := SumsOf(row, range.start, range.end);
    if s.count == 0 then None else Some(Point(s.x as real / s.count as real, s.y / s.count as real))
  }

  /** How far the samples of a range lie from a point, summed. */
  ghost function Deviation(row: Row, start: nat, end: nat, c: Point): Point
    decreases end
  {
    if end <= start then Point(0.0, 0.0)
    else
      var before := Deviation(row, start, end - 1, c);
      match Sample(row, end - 1)
      case None => before
      case Some(v) => Point(before.x + ((end - 1) as real - c.x), before.y + (v - c.y))
  }

  ghost function Times(n: nat, c: real): real {
    if n == 0 then 0.0 else Times(n - 1, c) + c
  }

  lemma {:induction false} TimesIs(n: nat, c: real)
    ensures Times(n, c) == n as real * c
  {
    if n > 0 {
      var m := (n - 1) as real;
      TimesIs(n - 1, c);
      assert (m + 1.0) * c == m * c + c;
    }
  }

  lemma BalancedAbout(sum: real, n: nat, mean: real)
    requires n > 0 && mean == sum / n as real
    ensures Times(n, mean) == sum
  {
    TimesIs(n, mean);
  }

  lemma {:induction false} DeviationIs(row: Row, start: nat, end: nat, c: Point)
    ensures
      var s := SumsOf(row, start, end);
      && Deviation(row, start, end, c).x == s.x as real - Times(s.count, c.x)
      && Deviation(row, start, end, c).y == s.y - Times(s.count, c.y)
    decreases end
  {
    if end > start {
      DeviationIs(row, start, end - 1, c);
    }
  }

  lemma {:induction false} NoneCounted(row: Row, start: nat, end: nat)
    ensures SumsOf(row, start, end).count == 0 <==> forall i: nat :: start <= i < end ==> Sample(row, i).None?
    decreases end
  {
    if end > start {
      NoneCounted(row, start, end - 1);
    }
  }

  /** The mean is the point the samples of the range balance about; there is none exactly when
      the range holds no sample. */
  lemma AverageBalances(row: Row, range: Range)
    ensures Average(row, range).None? <==> forall i: nat :: range.start <= i < range.end ==> Sample(row, i).None?
    ensures Average(row, range).Some? ==>
      Deviation(row, range.start, range.end, Average(row, range).value) == Point(0.0, 0.0)
  {
    NoneCounted(row, range.start, range.end);
    if Average(row, range).Some? {
      var s := SumsOf(row, range.start, range.end);
      DeviationIs(row, range.start, range.end, Average(row, range).value);
      BalancedAbout(s.x as real, s.count, Average(row, range).value.x);
      BalancedAbout(s.y, s.count, Average(row, range).value.y);
    }
  }

  function Abs(a: real): real {
    if a < 0.0 then -a else a
  }

  /** The source's expression for twice the area of the triangle p, c, q. */
  function Area(p: Point, c: Point, q: Point): real {
    Abs((p.x - q.x) * (c.y - p.y) - (p.x - c.x) * (q.y - p.y))
  }

  /** It is the shoelace formula, so the order of the corners does not matter. */
  lemma AreaIsShoelace(p: Point, c: Point, q: Point)
    ensures Area(p, c, q) == Abs(p.x * (c.y - q.y) + c.x * (q.y - p.y) + q.x * (p.y - c.y))
    ensures Area(p, c, q) == Area(c, p, q) == Area(q, c, p)
  {
  }

  /** What one row says about a candidate: the triangle over its previous chosen sample and
      its mean in the next range, or nothing if any of the three is missing. */
  function RowArea(row: Row, previous: nat, candidate: nat, next: Range): Option<real> {
    var c, p, q := Sample(row, candidate), Sample(row, previous), Average(row, next);
    if c.None? || p.None? || q.None? then None
    else Some(Area(Point(previous as real, p.value), Point(candidate as real, c.value), q.value))
  }

  /** A row speaks for a candidate exactly when it has a sample at the candidate, one at its
      previous index and one in the next range. */
  lemma RowSpeaksExactly(row: Row, previous: nat, candidate: nat, next: Range)
    ensures RowArea(row, previous, candidate, next).Some? <==>
      && Sample(row, candidate).Some? && Sample(row, previous).Some?
      && exists i: nat :: next.start <= i < next.end && Sample(row, i).Some?
  {
    AverageBalances(row, next);
  }

  /** It says twice the area of the triangle over its two samples and its mean. */
  lemma RowAreaIsTriangle(row: Row, previous: nat, candidate: nat, next: Range, p: Point, c: Point, q: Point)
    requires p.x == previous as real && Sample(row, previous) == Some(p.y)
    requires c.x == candidate as real && Sample(row, candidate) == Some(c.y)
    requires Average(row, next) == Some(q)
    ensures RowArea(row, previous, candidate, next) ==
      Some(Abs(p.x * (c.y - q.y) + c.x * (q.y - p.y) + q.x * (p.y - c.y)))
  {
    assert p == Point(previous as real, p.y) && c == Point(candidate as real, c.y);
    AreaIsShoelace(p, c, q);
  }

  datatype Evidence = Evidence(score: real, contributing: nat)

  function EvidenceOf(rows: seq<Row>, previous: seq<nat>, candidate: nat, next: Range): Evidence
    requires |previous| == |rows|
  {
    if rows == [] then Evidence(0.0, 0)
    else
      var last := |rows| - 1;
      var before := EvidenceOf(rows[..last], previous[..last], candidate, next);
      match RowArea(rows[last], previous[last], candidate, next)
      case None => before
      case Some(area) => Evidence(before.score + area, before.contributing + 1)
  }

  /** The evidence of a list of rows is the sum of what each row says. */
  lemma {:induction false} EvidenceAdds(a: seq<Row>, b: seq<Row>, p: seq<nat>, q: seq<nat>, candidate: nat, next: Range)
    requires |p| == |a| && |q| == |b|
    ensures
      var whole := EvidenceOf(a + b, p + q, candidate, next);
      var first, second := EvidenceOf(a, p, candidate, next), EvidenceOf(b, q, candidate, next);
      whole.score == first.score + second.score && whole.contributing == first.contributing + second.contributing
  {
    if b == [] {
      assert a + b == a && p + q == p;
    } else {
      var last := |b| - 1;
      EvidenceAdds(a, b[..last], p, q[..last], candidate, next);
      assert (a + b)[..|a + b| - 1] == a + b[..last] && (p + q)[..|a + b| - 1] == p + q[..last];
    }
  }

  lemma EvidenceOfOne(row: Row, previous: nat, candidate: nat, next: Range)
    ensures EvidenceOf([row], [previous], candidate, next) ==
      match RowArea(row, previous, candidate, next) case None => Evidence(0.0, 0) case Some(area) => Evidence(area, 1)
  {
    assert [row][..0] == [] && [previous][..0] == [];
  }

  predicate Contributes(rows: seq<Row>, previous: seq<nat>, candidate: nat, next: Range)
    requires |previous| == |rows|
  {
    exists r :: 0 <= r < |rows| && RowArea(rows[r], previous[r], candidate, next).Some?
  }

  lemma {:induction false} ContributesExactly(rows: seq<Row>, previous: seq<nat>, candidate: nat, next: Range)
    requires |previous| == |rows|
    ensures EvidenceOf(rows, previous, candidate, next).contributing > 0 <==>
      Contributes(rows, previous, candidate, next)
  {
    if rows == [] {
    } else {
      var last := |rows| - 1;
      ContributesExactly(rows[..last], previous[..last], candidate, next);
      if Contributes(rows[..last], previous[..last], candidate, next) {
        var r :| 0 <= r < last && RowArea(rows[..last][r], previous[..last][r], candidate, next).Some?;
        assert RowArea(rows[r], previous[r], candidate, next).Some?;
      }
      if Contributes(rows, previous, candidate, next) {
        var r :| 0 <= r < |rows| && RowArea(rows[r], previous[r], candidate, next).Some?;
        if r < last {
          assert RowArea(rows[..last][r], previous[..last][r], candidate, next).Some?;
        }
      }
    }
  }

  /** The anchor the source promises for a bucket: the earliest of the candidates with the
      largest summed area among those some row speaks for, or the bucket's start. */
  ghost predicate IsAnchor(rows: seq<Row>, previous: seq<nat>, bucket: Range, next: Range, anchor: nat)
    requires |previous| == |rows|
  {
    && bucket.start <= anchor < bucket.end
    && (if Contributes(rows, previous, anchor, next) then
          forall c: nat :: bucket.start <= c < bucket.end && Contributes(rows, previous, c, next) ==>
            && EvidenceOf(rows, previous, c, next).score <= EvidenceOf(rows, previous, anchor, next).score
            && (c < anchor ==>
                  EvidenceOf(rows, previous, c, next).score < EvidenceOf(rows, previous, anchor, next).score)
        else
          && anchor == bucket.start
          && forall c: nat :: bucket.start <= c < bucket.end ==> !Contributes(rows, previous, c, next))
  }

  lemma AnchorUnique(rows: seq<Row>, previous: seq<nat>, bucket: Range, next: Range, a: nat, b: nat)
    requires |previous| == |rows|
    requires IsAnchor(rows, previous, bucket, next, a) && IsAnchor(rows, previous, bucket, next, b)
    ensures a == b
  {
  }

  /** The last of `anchors` at which the row has a sample, or 0. */
  function LastSampled(row: Row, anchors: seq<nat>): nat {
    if anchors == [] then 0
    else if Sample(row, anchors[|anchors| - 1]).Some? then anchors[|anchors| - 1]
    else LastSampled(row, anchors[..|anchors| - 1])
  }

  lemma {:induction false} LastSampledIs(row: Row, anchors: seq<nat>)
    ensures (LastSampled(row, anchors) == 0 && forall k :: 0 <= k < |anchors| ==> Sample(row, anchors[k]).None?) ||
      exists k :: 0 <= k < |anchors| && LastSampled(row, anchors) == anchors[k] && Sample(row, anchors[k]).Some?
        && forall m :: k < m < |anchors| ==> Sample(row, anchors[m]).None?
  {
    if anchors != [] && Sample(row, anchors[|anchors| - 1]).None? {
      var most := anchors[..|anchors| - 1];
      LastSampledIs(row, most);
      if k :| 0 <= k < |most| && LastSampled(row, most) == most[k] && Sample(row, most[k]).Some?
              && forall m :: k < m < |most| ==> Sample(row, most[m]).None? {
        assert forall m :: k < m < |most| ==> anchors[m] == most[m];
        assert LastSampled(row, anchors) == anchors[k];
      } else {
        assert forall m :: 0 <= m < |most| ==> anchors[m] == most[m];
      }
    }
  }

  function PreviousOf(rows: seq<Row>, anchors: seq<nat>): (p: seq<nat>)
    ensures |p| == |rows|
    ensures forall r :: 0 <= r < |rows| ==> p[r] == LastSampled(rows[r], anchors)
  {
    seq(|rows|, r requires 0 <= r < |rows| => LastSampled(rows[r], anchors))
  }

  /** The range averaged for a bucket: the next bucket, or just the last index. */
  function Next(n: nat, interior: nat, i: nat): Range
    requires n >= 2 && interior > 0
  {
    if i + 1 < interior then Bucket(n, interior, i + 1) else Range(n - 1, n)
  }

  /** What is averaged starts where the bucket ends and goes up to the end of the next bucket,
      or to the last index. */
  lemma NextFollows(n: nat, interior: nat, i: nat)
    requires interior > 0 && n - 2 >= interior && i < interior
    ensures Next(n, interior, i).start == Bucket(n, interior, i).end
    ensures Next(n, interior, i).end == if i + 1 < interior then Bucket(n, interior, i + 1).end else n
  {
    StartEnds(n, interior);
    BucketShape(n, interior, i);
    if i + 1 < interior { BucketShape(n, interior, i + 1); }
  }

  /** Each bucket's anchor is right, given the anchors before it. */
  ghost predicate IsAnchorList(rows: seq<Row>, n: nat, interior: nat, anchors: seq<nat>)
    requires n >= 2 && interior > 0
  {
    forall b :: 0 <= b < |anchors| ==>
      IsAnchor(rows, PreviousOf(rows, anchors[..b]), Bucket(n, interior, b), Next(n, interior, b), anchors[b])
  }

  lemma AnchorsAgreeAt(rows: seq<Row>, n: nat, interior: nat, a: seq<nat>, b: seq<nat>, k: nat)
    requires n >= 2 && interior > 0 && k < |a| == |b|
    requires IsAnchorList(rows, n, interior, a) && IsAnchorList(rows, n, interior, b)
    requires a[..k] == b[..k]
    ensures a[k] == b[k]
  {
    AnchorUnique(rows, PreviousOf(rows, a[..k]), Bucket(n, interior, k), Next(n, interior, k), a[k], b[k]);
  }

  lemma {:induction false} StepwiseEqual(a: seq<nat>, b: seq<nat>, k: nat)
    requires k <= |a| == |b|
    requires forall i :: 0 <= i < |a| && a[..i] == b[..i] ==> a[i] == b[i]
    ensures a[..k] == b[..k]
  {
    if k == 0 {
    } else {
      StepwiseEqual(a, b, k - 1);
      assert a[..k] == a[..k - 1] + [a[k - 1]] && b[..k] == b[..k - 1] + [b[k - 1]];
    }
  }

  /** So the whole selection is determined by the rows. */
  lemma AnchorListUnique(rows: seq<Row>, n: nat, interior: nat, a: seq<nat>, b: seq<nat>)
    requires n >= 2 && interior > 0 && |a| == |b|
    requires IsAnchorList(rows, n, interior, a) && IsAnchorList(rows, n, interior, b)
    ensures a == b
  {
    forall i | 0 <= i < |a| && a[..i] == b[..i] ensures a[i] == b[i] { AnchorsAgreeAt(rows, n, interior, a, b, i); }
    StepwiseEqual(a, b, |a|);
    assert a == a[..|a|] && b == b[..|b|];
  }

  /** The averages of the next range, computed once per bucket. */
  method Averages(rows: seq<Row>, next: Range) returns (averages: array<Option<Point>>)
    ensures fresh(averages) && averages.Length == |rows|
    ensures forall r :: 0 <= r < |rows| ==> averages[r] == Average(rows[r], next)
  {
    averages := new Option<Point>[|rows|](_ => None);
    for r := 0 to |rows|
      invariant forall k :: 0 <= k < r ==> averages[k] == Average(rows[k], next)
    {
      var x: nat, y: real, count: nat := 0, 0.0, 0;
      var j := next.start;
      while j < next.end
        invariant next.start <= j
        invariant j <= next.end || next.end < next.start
        invariant j == next.start || j <= next.end
        invariant Sums(count, x, y) == SumsOf(rows[r], next.start, j)
      {
        match Sample(rows[r], j) {
          case None =>
          case Some(v) => x, y, count := x + j, y + v, count + 1;
        }
        j := j + 1;
      }
      averages[r] := if count > 0 then Some(Point(x as real / count as real, y / count as real)) else None;
    }
  }

  /** The loop over the rows for one candidate: the averages are read from the hoisted array,
      the contract speaks of averages taken afresh. */
  method Weigh(rows: seq<Row>, previous: array<nat>, averages: array<Option<Point>>, candidate: nat, ghost next: Range)
    returns (score: real, contributing: nat)
    requires previous.Length == averages.Length == |rows|
    requires forall r :: 0 <= r < |rows| ==> averages[r] == Average(rows[r], next)
    ensures Evidence(score, contributing) == EvidenceOf(rows, previous[..], candidate, next)
  {
    score, contributing := 0.0, 0;
    for r := 0 to |rows|
      invariant Evidence(score, contributing) == EvidenceOf(rows[..r], previous[..r], candidate, next)
    {
      assert rows[..r + 1][..r] == rows[..r] && previous[..r + 1][..r] == previous[..r];
      var c, p, q := Sample(rows[r], candidate), Sample(rows[r], previous[r]), averages[r];
      if c.Some? && p.Some? && q.Some? {
        var area := Area(Point(previous[r] as real, p.value), Point(candidate as real, c.value), q.value);
        score, contributing := score + area, contributing + 1;
      }
    }
    assert rows[..|rows|] == rows && previous[..|rows|] == previous[..];
  }

  /** What the search knows when it has weighed the candidates from `start` up to `upTo`. */
  ghost predicate BestSoFar(rows: seq<Row>, previous: seq<nat>, start: nat, next: Range, upTo: nat,
    best: nat, bestScore: Option<real>)
    requires |previous| == |rows|
  {
    match bestScore
    case None => best == start && forall c: nat :: start <= c < upTo ==> !Contributes(rows, previous, c, next)
    case Some(top) =>
      && start <= best < upTo && Contributes(rows, previous, best, next)
      && top == EvidenceOf(rows, previous, best, next).score
      && forall c: nat :: start <= c < upTo && Contributes(rows, previous, c, next) ==>
        && EvidenceOf(rows, previous, c, next).score <= top
        && (c < best ==> EvidenceOf(rows, previous, c, next).score < top)
  }

  lemma BestStep(rows: seq<Row>, previous: seq<nat>, start: nat, next: Range, candidate: nat,
    best: nat, bestScore: Option<real>, e: Evidence)
    requires |previous| == |rows| && start <= candidate
    requires BestSoFar(rows, previous, start, next, candidate, best, bestScore)
    requires e == EvidenceOf(rows, previous, candidate, next)
    ensures
      if e.contributing > 0 && (bestScore.None? || e.score > bestScore.value)
      then BestSoFar(rows, previous, start, next, candidate + 1, candidate, Some(e.score))
      else BestSoFar(rows, previous, start, next, candidate + 1, best, bestScore)
  {
    ContributesExactly(rows, previous, candidate, next);
  }

  lemma BestIsAnchor(rows: seq<Row>, previous: seq<nat>, bucket: Range, next: Range, best: nat, bestScore: Option<real>)
    requires |previous| == |rows| && bucket.start < bucket.end
    requires BestSoFar(rows, previous, bucket.start, next, bucket.end, best, bestScore)
    ensures IsAnchor(rows, previous, bucket, next, best)
  {
  }

  method BestCandidate(rows: seq<Row>, previous: array<nat>, averages: array<Option<Point>>, bucket: Range,
    ghost next: Range)
    returns (best: nat)
    requires bucket.start < bucket.end
    requires previous.Length == averages.Length == |rows|
    requires forall r :: 0 <= r < |rows| ==> averages[r] == Average(rows[r], next)
    ensures IsAnchor(rows, previous[..], bucket, next, best)
  {
    ghost var from := previous[..];
    best := bucket.start;
    var bestScore: Option<real> := None;
    for candidate := bucket.start to bucket.end
      invariant BestSoFar(rows, from, bucket.start, next, candidate, best, bestScore)
    {
      var score, contributing := Weigh(rows, previous, averages, candidate, next);
      BestStep(rows, from, bucket.start, next, candidate, best, bestScore, Evidence(score, contributing));
      if contributing > 0 && (bestScore.None? || score > bestScore.value) {
        bestScore, best := Some(score), candidate;
      }
    }
    BestIsAnchor(rows, from, bucket, next, best, bestScore);
  }

  /** Moves each row that has a sample at the new anchor on to it. */
  method Advance(rows: seq<Row>, previous: array<nat>, ghost chosen: seq<nat>, best: nat)
    requires previous[..] == PreviousOf(rows, chosen)
    modifies previous
    ensures previous[..] == PreviousOf(rows, chosen + [best])
  {
    assert (chosen + [best])[..|chosen|] == chosen;
    for r := 0 to |rows|
      invariant forall k :: 0 <= k < r ==> previous[k] == LastSampled(rows[k], chosen + [best])
      invariant forall k :: r <= k < |rows| ==> previous[k] == LastSampled(rows[k], chosen)
    {
      if Sample(rows[r], best).Some? { previous[r] := best; }
    }
  }

  /** One round of the selection. */
  method ChooseAnchor(rows: seq<Row>, n: nat, boundaries: array<Range>, previous: array<nat>, bucket: nat,
    ghost chosen: seq<nat>)
    returns (best: nat)
    requires 0 < boundaries.Length <= n - 2 && |chosen| == bucket < boundaries.Length
    requires forall i: nat :: i < boundaries.Length ==> boundaries[i] == Bucket(n, boundaries.Length, i)
    requires previous[..] == PreviousOf(rows, chosen)
    modifies previous
    ensures previous[..] == PreviousOf(rows, chosen + [best])
    ensures IsAnchor(rows, PreviousOf(rows, chosen), Bucket(n, boundaries.Length, |chosen|),
      Next(n, boundaries.Length, |chosen|), best)
  {
    BucketShape(n, boundaries.Length, bucket);
    var range := boundaries[bucket];
    if range.end <= range.start {
      assert false;
    }
    var next :=
      if bucket + 1 < boundaries.Length then Range(boundaries[bucket + 1].start, boundaries[bucket + 1].end)
      else Range(n - 1, n);
    var averages := Averages(rows, next);
    best := BestCandidate(rows, previous, averages, range, next);
    Advance(rows, previous, chosen, best);
  }

  method SelectAnchors(rows: seq<Row>, n: nat, boundaries: array<Range>) returns (anchors: array<nat>)
    requires 0 < boundaries.Length <= n - 2
    requires forall i: nat :: i < boundaries.Length ==> boundaries[i] == Bucket(n, boundaries.Length, i)
    ensures fresh(anchors) && anchors.Length == boundaries.Length
    ensures IsAnchorList(rows, n, boundaries.Length, anchors[..])
  {
    var interior := boundaries.Length;
    anchors := new nat[interior](_ => 0);
    var previous := new nat[|rows|](_ => 0);
    ghost var chosen: seq<nat> := [];
    for bucket := 0 to interior
      invariant chosen == anchors[..bucket]
      invariant previous[..] == PreviousOf(rows, chosen)
      invariant IsAnchorList(rows, n, interior, chosen)
    {
      var best := ChooseAnchor(rows, n, boundaries, previous, bucket, chosen);
      AnchorListExtends(rows, n, interior, chosen, best);
      anchors[bucket] := best;
      chosen := chosen + [best];
    }
    assert anchors[..interior] == anchors[..];
  }

  lemma AnchorListExtends(rows: seq<Row>, n: nat, interior: nat, chosen: seq<nat>, best: nat)
    requires n >= 2 && interior > 0
    requires IsAnchorList(rows, n, interior, chosen)
    requires IsAnchor(rows, PreviousOf(rows, chosen), Bucket(n, interior, |chosen|), Next(n, interior, |chosen|), best)
    ensures IsAnchorList(rows, n, interior, chosen + [best])
  {
    var all := chosen + [best];
    forall b | 0 <= b < |all|
      ensures IsAnchor(rows, PreviousOf(rows, all[..b]), Bucket(n, interior, b), Next(n, interior, b), all[b])
    {
      assert all[..b] == chosen[..b];
      if b == |chosen| { assert chosen[..b] == chosen; }
    }
  }

  // ---------------------------------------------------------------- projection

  function FinalIndices(anchors: seq<nat>, n: nat): seq<nat>
    requires n >= 1
  {
    [0] + anchors + [n - 1]
  }

  ghost predicate InTheirBuckets(n: nat, interior: nat, anchors: seq<nat>)
    requires n >= 2 && interior > 0
  {
    forall b :: 0 <= b < |anchors| ==> InBucket(n, interior, b, anchors[b])
  }

  lemma AnchorsInBuckets(rows: seq<Row>, n: nat, interior: nat, anchors: seq<nat>)
    requires n >= 2 && interior > 0
    requires IsAnchorList(rows, n, interior, anchors)
    ensures InTheirBuckets(n, interior, anchors)
  {
    forall b | 0 <= b < |anchors|
      ensures InBucket(n, interior, b, anchors[b])
    {
      assert IsAnchor(rows, PreviousOf(rows, anchors[..b]), Bucket(n, interior, b), Next(n, interior, b), anchors[b]);
    }
  }

  /** The kept indices rise strictly from the first to the last. */
  lemma FinalIndicesRise(n: nat, interior: nat, anchors: seq<nat>)
    requires 0 < interior <= n - 2 && |anchors| == interior
    requires InTheirBuckets(n, interior, anchors)
    ensures |FinalIndices(anchors, n)| == interior + 2
    ensures FinalIndices(anchors, n)[0] == 0 && FinalIndices(anchors, n)[interior + 1] == n - 1
    ensures forall i, j :: 0 <= i < j < interior + 2 ==> FinalIndices(anchors, n)[i] < FinalIndices(anchors, n)[j]
    ensures forall i :: 0 <= i < interior + 2 ==> FinalIndices(anchors, n)[i] < n
  {
    var all := FinalIndices(anchors, n);
    forall i, j | 0 <= i < j < interior + 2
      ensures all[i] < all[j]
    {
      if i > 0 { BucketShape(n, interior, i - 1); }
      if j <= interior { BucketShape(n, interior, j - 1); }
      if 0 < i && j <= interior {
        StartMonotone(n, interior, i, j - 1);
      }
    }
    forall i | 0 <= i < interior + 2
      ensures all[i] < n
    {
      if i <= interior { assert all[i] < all[interior + 1]; }
    }
  }

  /** A row's value for a bucket: its sample at the anchor if it has one, else its latest
      sample in the bucket, and nothing exactly when the bucket holds no sample of the row. */
  ghost predicate IsSlot(row: Row, bucket: Range, anchor: nat, v: Option<real>) {
    if v.None? then
      forall j: nat :: bucket.start <= j < bucket.end ==> Sample(row, j).None?
    else if Sample(row, anchor).Some? then
      v == Sample(row, anchor)
    else
      exists j: nat :: bucket.start <= j < bucket.end && v == Sample(row, j)
        && forall k: nat :: j < k < bucket.end ==> Sample(row, k).None?
  }

  ghost predicate IsProjection(row: Row, n: nat, interior: nat, anchors: seq<nat>, out: seq<Option<real>>)
    requires n >= 2 && interior > 0 && |anchors| == interior
  {
    && |out| == interior + 2
    && out[0] == Sample(row, 0)
    && out[interior + 1] == Sample(row, n - 1)
    && forall b :: 0 <= b < interior ==> IsSlot(row, Bucket(n, interior, b), anchors[b], out[b + 1])
  }

  method LatestInBucket(row: Row, bucket: Range, anchor: nat) returns (v: Option<real>)
    requires bucket.start <= anchor < bucket.end
    ensures IsSlot(row, bucket, anchor, v)
  {
    v := Sample(row, anchor);
    if v.None? {
      var j := bucket.end;
      while j > bucket.start
        invariant bucket.start <= j <= bucket.end
        invariant v.None?
        invariant forall k: nat :: j <= k < bucket.end ==> Sample(row, k).None?
      {
        j := j - 1;
        if Sample(row, j).Some? {
          v := Sample(row, j);
          break;
        }
      }
    }
  }

  method ProjectRow(row: Row, n: nat, boundaries: array<Range>, anchors: array<nat>) returns (out: array<Option<real>>)
    requires 0 < boundaries.Length <= n - 2 && anchors.Length == boundaries.Length
    requires forall i: nat :: i < boundaries.Length ==> boundaries[i] == Bucket(n, boundaries.Length, i)
    requires InTheirBuckets(n, boundaries.Length, anchors[..])
    ensures fresh(out)
    ensures IsProjection(row, n, boundaries.Length, anchors[..], out[..])
  {
    var interior := boundaries.Length;
    out := new Option<real>[interior + 2](_ => None);
    out[0] := Sample(row, 0);
    out[interior + 1] := Sample(row, n - 1);
    for b := 0 to interior
      invariant out[0] == Sample(row, 0) && out[interior + 1] == Sample(row, n - 1)
      invariant forall k :: 0 <= k < b ==> IsSlot(row, Bucket(n, interior, k), anchors[k], out[k + 1])
    {
      assert InBucket(n, interior, b, anchors[..][b]);
      out[b + 1] := LatestInBucket(row, boundaries[b], anchors[b]);
    }
  }

  /** What one downsampled answer has to be. */
  ghost predicate IsDownsampled<T>(timestamps: seq<T>, rows: seq<Row>, anchors: seq<nat>, newTimestamps: seq<T>,
    newRows: seq<Row>)
    requires |timestamps| >= 2 && |anchors| > 0
  {
    var n := |timestamps|;
    && IsAnchorList(rows, n, |anchors|, anchors)
    && InTheirBuckets(n, |anchors|, anchors)
    && |newTimestamps| == |anchors| + 2
    && (forall i :: 0 <= i < |newTimestamps| ==>
          FinalIndices(anchors, n)[i] < n && newTimestamps[i] == timestamps[FinalIndices(anchors, n)[i]])
    && |newRows| == |rows|
    && forall r :: 0 <= r < |rows| ==> IsProjection(rows[r], n, |anchors|, anchors, newRows[r])
  }

  lemma SlotUnique(row: Row, bucket: Range, anchor: nat, v: Option<real>, w: Option<real>)
    requires bucket.start <= anchor < bucket.end
    requires IsSlot(row, bucket, anchor, v) && IsSlot(row, bucket, anchor, w)
    ensures v == w
  {
    if v.Some? && w.Some? && Sample(row, anchor).None? {
      var i: nat :| bucket.start <= i < bucket.end && v == Sample(row, i)
        && forall k: nat :: i < k < bucket.end ==> Sample(row, k).None?;
      var j: nat :| bucket.start <= j < bucket.end && w == Sample(row, j)
        && forall k: nat :: j < k < bucket.end ==> Sample(row, k).None?;
      assert i == j;
    }
  }

  lemma ProjectionUnique(row: Row, n: nat, interior: nat, anchors: seq<nat>, a: seq<Option<real>>, b: seq<Option<real>>)
    requires n >= 2 && interior > 0 && |anchors| == interior && InTheirBuckets(n, interior, anchors)
    requires IsProjection(row, n, interior, anchors, a) && IsProjection(row, n, interior, anchors, b)
    ensures a == b
  {
    forall i | 0 <= i < interior + 2
      ensures a[i] == b[i]
    {
      if 0 < i <= interior {
        assert InBucket(n, interior, i - 1, anchors[i - 1]);
        assert IsSlot(row, Bucket(n, interior, i - 1), anchors[i - 1], a[i - 1 + 1]);
        assert IsSlot(row, Bucket(n, interior, i - 1), anchors[i - 1], b[i - 1 + 1]);
        SlotUnique(row, Bucket(n, interior, i - 1), anchors[i - 1], a[i], b[i]);
      }
    }
  }

  /** The conditions leave one possible answer. */
  lemma DownsampledUnique<T>(timestamps: seq<T>, rows: seq<Row>, a: seq<nat>, b: seq<nat>,
                             aTimestamps: seq<T>, aRows: seq<Row>, bTimestamps: seq<T>, bRows: seq<Row>)
    requires |timestamps| >= 2 && 0 < |a| == |b|
    requires IsDownsampled(timestamps, rows, a, aTimestamps, aRows)
    requires IsDownsampled(timestamps, rows, b, bTimestamps, bRows)
    ensures a == b && aTimestamps == bTimestamps && aRows == bRows
  {
    AnchorListUnique(rows, |timestamps|, |a|, a, b);
    forall r | 0 <= r < |rows|
      ensures aRows[r] == bRows[r]
    {
      ProjectionUnique(rows[r], |timestamps|, |a|, a, aRows[r], bRows[r]);
    }
  }

  method ProjectTimestamps<T>(timestamps: seq<T>, finalIndices: seq<nat>) returns (newTimestamps: seq<T>)
    requires forall i :: 0 <= i < |finalIndices| ==> finalIndices[i] < |timestamps|
    ensures |newTimestamps| == |finalIndices|
    ensures forall i :: 0 <= i < |finalIndices| ==> newTimestamps[i] == timestamps[finalIndices[i]]
  {
    newTimestamps := [];
    for i := 0 to |finalIndices|
      invariant |newTimestamps| == i
      invariant forall k :: 0 <= k < i ==> newTimestamps[k] == timestamps[finalIndices[k]]
    {
      newTimestamps := newTimestamps + [timestamps[finalIndices[i]]];
    }
  }

  method ProjectRows(rows: seq<Row>, n: nat, boundaries: array<Range>, anchors: array<nat>) returns (newRows: seq<Row>)
    requires 0 < boundaries.Length <= n - 2 && anchors.Length == boundaries.Length
    requires forall i: nat :: i < boundaries.Length ==> boundaries[i] == Bucket(n, boundaries.Length, i)
    requires InTheirBuckets(n, boundaries.Length, anchors[..])
    ensures |newRows| == |rows|
    ensures forall r :: 0 <= r < |rows| ==> IsProjection(rows[r], n, boundaries.Length, anchors[..], newRows[r])
  {
    newRows := [];
    for r := 0 to |rows|
      invariant |newRows| == r
      invariant forall k :: 0 <= k < r ==> IsProjection(rows[k], n, boundaries.Length, anchors[..], newRows[k])
    {
      var out := ProjectRow(rows[r], n, boundaries, anchors);
      newRows := newRows + [out[..]];
    }
  }

  method DownsampleColumnar<T>(timestamps: seq<T>, rows: seq<Row>, maxPoints: int)
    returns (newTimestamps: seq<T>, newRows: seq<Row>)
    ensures |timestamps| <= maxPoints || maxPoints < 3 ==> newTimestamps == timestamps && newRows == rows
    ensures |timestamps| > maxPoints >= 3 ==>
      exists anchors: seq<nat> ::
        |anchors| == maxPoints - 2 && IsDownsampled(timestamps, rows, anchors, newTimestamps, newRows)
  {
    var n := |timestamps|;
    if n <= maxPoints || maxPoints < 3 {
      return timestamps, rows;
    }
    var interior := maxPoints - 2;
    var boundaries := Boundaries(n, interior);
    var selected := SelectAnchors(rows, n, boundaries);
    ghost var anchors: seq<nat> := selected[..];
    AnchorsInBuckets(rows, n, interior, anchors);
    FinalIndicesRise(n, interior, anchors);
    newTimestamps := ProjectTimestamps(timestamps, FinalIndices(selected[..], n));
    newRows := ProjectRows(rows, n, boundaries, selected);
    assert |anchors| == maxPoints - 2;
    assert IsDownsampled(timestamps, rows, anchors, newTimestamps, newRows);
  }
}
