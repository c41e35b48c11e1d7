/** `unifiedDiff` of src/lib/dry-run.ts: the text it emits, and a reader of that text. */
module UnifiedDiff {
  import opened Concat
  import opened Decimals
  import opened Wrappers
  import opened Text
  import opened LineDiff
  import opened LineDiffOrder

  // ---------------------------------------------------------------- decimal numbers

  function Digit(d: nat): char
    requires d < 10
  {
    ('0' as int + d) as char
  }

  /** `${n}` for a natural number. */
  function Decimal(n: nat): string {
    var ds := Digits(n);
    seq(|ds|, i requires 0 <= i < |ds| => Digit(ds[i]))
  }

  predicate IsDecimal(s: string) {
    s != "" && forall i :: 0 <= i < |s| ==> '0' <= s[i] <= '9'
  }

  function ReadDecimal(s: string): nat
    requires IsDecimal(s)
  {
    Value(seq(|s|, i requires 0 <= i < |s| => (s[i] as int - '0' as int) as nat))
  }

  lemma DecimalValue(n: nat)
    ensures IsDecimal(Decimal(n)) && ReadDecimal(Decimal(n)) == n
  {
    var ds, s := Digits(n), Decimal(n);
    assert seq(|s|, i requires 0 <= i < |s| => (s[i] as int - '0' as int) as nat) == ds;
    DigitsValue(n);
  }

  // ---------------------------------------------------------------- the emitted text

  function Mark(kind: Kind): char {
    match kind case Context => ' ' case Deletion => '-' case Insertion => '+'
  }

  function OpLine(op: Op): string { [Mark(op.kind)] + op.line }

  function OpLines(ops: seq<Op>): seq<string> {
    if ops == [] then [] else [OpLine(ops[0])] + OpLines(ops[1..])
  }

  function HunkLine(n: nat, m: nat): string {
    "@@ -1," + Decimal(n) + " +1," + Decimal(m) + " @@"
  }

  ghost function Rendered(before: string, after: string, fromLabel: string, toLabel: string): string {
    if before == after then ""
    else
      var a, b := Split(before, '\n'), Split(after, '\n');
      Join(["--- " + fromLabel, "+++ " + toLabel, HunkLine(|a|, |b|)] + OpLines(Script(a, b, 0, 0)), "\n")
  }

  method UnifiedDiff(before: string, after: string, fromLabel: Option<string>, toLabel: Option<string>)
    returns (diff: string)
    ensures diff == Rendered(before, after,
                      if fromLabel.Some? then fromLabel.value else "current",
                      if toLabel.Some? then toLabel.value else "rendered")
  {
    if before == after {
      return "";
    }
    var a, b := Split(before, '\n'), Split(after, '\n');
    var ops := EditScript(a, b);
    var lines := ["--- " + (if fromLabel.Some? then fromLabel.value else "current"),
                  "+++ " + (if toLabel.Some? then toLabel.value else "rendered"),
                  HunkLine(|a|, |b|)];
    ghost var header := lines;
    for k := 0 to |ops|
      invariant lines + OpLines(ops[k..]) == header + OpLines(ops)
    {
      assert ops[k..][1..] == ops[k + 1..];
      Assoc(lines, [OpLine(ops[k])], OpLines(ops[k + 1..]));
      lines := lines + [OpLine(ops[k])];
    }
    assert ops[|ops|..] == [] && lines == header + OpLines(ops);
    diff := Join(lines, "\n");
  }

  // ---------------------------------------------------------------- the reader

  datatype Parsed = Parsed(fromLabel: string, toLabel: string, oldCount: nat, newCount: nat, ops: seq<Op>)

  function ParseOps(lines: seq<string>): Option<seq<Op>> {
    if lines == [] then Some([])
    else
      var rest := ParseOps(lines[1..]);
      if lines[0] == "" || rest.None? then None
      else match lines[0][0]
        case ' ' => Some([Op(Context, lines[0][1..])] + rest.value)
        case '-' => Some([Op(Deletion, lines[0][1..])] + rest.value)
        case '+' => Some([Op(Insertion, lines[0][1..])] + rest.value)
        case _ => None
  }

  function ParseHunk(line: string): Option<(nat, nat)> {
    var w := Split(line, ' ');
    if |w| == 4 && w[0] == "@@" && w[3] == "@@" && "-1," <= w[1] && "+1," <= w[2]
       && IsDecimal(w[1][3..]) && IsDecimal(w[2][3..])
    then Some((ReadDecimal(w[1][3..]), ReadDecimal(w[2][3..])))
    else None
  }

  function Parse(text: string): Option<Parsed> {
    var lines := Split(text, '\n');
    if |lines| < 3 || !("--- " <= lines[0]) || !("+++ " <= lines[1]) then None
    else
      var hunk, ops := ParseHunk(lines[2]), ParseOps(lines[3..]);
      if hunk.None? || ops.None? then None
      else Some(Parsed(lines[0][4..], lines[1][4..], hunk.value.0, hunk.value.1, ops.value))
  }

  // ---------------------------------------------------------------- round trip

  lemma JoinFour(a: string, b: string, c: string, d: string, sep: string)
    ensures Join([a, b, c, d], sep) == a + sep + (b + sep + (c + sep + d))
  {
    JoinCons(c, [d], sep);
    JoinCons(b, [c, d], sep);
    JoinCons(a, [b, c, d], sep);
    assert [a] + [b, c, d] == [a, b, c, d] && [b] + [c, d] == [b, c, d] && [c] + [d] == [c, d];
  }

  lemma HunkText(n: string, m: string)
    ensures "@@ -1," + n + " +1," + m + " @@" == "@@" + " " + (("-1," + n) + " " + (("+1," + m) + " " + "@@"))
  {
    var l, r := "@@ -1," + n + " +1," + m + " @@", "@@" + " " + (("-1," + n) + " " + (("+1," + m) + " " + "@@"));
    assert |l| == |r|;
    forall i | 0 <= i < |l| ensures l[i] == r[i] {}
  }

  lemma HunkWords(n: nat, m: nat)
    ensures Split(HunkLine(n, m), ' ') == ["@@", "-1," + Decimal(n), "+1," + Decimal(m), "@@"]
    ensures '\n' !in HunkLine(n, m)
  {
    DecimalValue(n);
    DecimalValue(m);
    var x, y := "-1," + Decimal(n), "+1," + Decimal(m);
    JoinFour("@@", x, y, "@@", " ");
    SplitJoin(["@@", x, y, "@@"], ' ');
    HunkText(Decimal(n), Decimal(m));
  }

  lemma HunkRoundTrip(n: nat, m: nat)
    ensures ParseHunk(HunkLine(n, m)) == Some((n, m))
  {
    HunkWords(n, m);
    DecimalValue(n);
    DecimalValue(m);
    assert ("-1," + Decimal(n))[3..] == Decimal(n) && ("+1," + Decimal(m))[3..] == Decimal(m);
  }

  lemma {:induction false} OpsRoundTrip(ops: seq<Op>)
    requires forall i :: 0 <= i < |ops| ==> '\n' !in ops[i].line
    ensures ParseOps(OpLines(ops)) == Some(ops) && |OpLines(ops)| == |ops|
    ensures forall i :: 0 <= i < |ops| ==> '\n' !in OpLines(ops)[i]
  {
    if ops == [] {
    } else {
      OpsRoundTrip(ops[1..]);
      assert OpLines(ops)[1..] == OpLines(ops[1..]);
      assert OpLine(ops[0])[1..] == ops[0].line;
      assert [ops[0]] + ops[1..] == ops;
    }
  }

  lemma {:induction false} OpsFromSides(ops: seq<Op>, i: nat)
    requires i < |ops|
    ensures ops[i].line in OldSide(ops) || ops[i].line in NewSide(ops)
  {
    if i > 0 { OpsFromSides(ops[1..], i - 1); }
  }

  lemma ScriptLinesClean(before: string, after: string, i: nat)
    requires i < |Script(Split(before, '\n'), Split(after, '\n'), 0, 0)|
    ensures '\n' !in Script(Split(before, '\n'), Split(after, '\n'), 0, 0)[i].line
  {
    var a, b := Split(before, '\n'), Split(after, '\n');
    var ops := Script(a, b, 0, 0);
    ScriptMinimal(a, b);
    OpsFromSides(ops, i);
    if ops[i].line in a {
      var k :| 0 <= k < |a| && a[k] == ops[i].line;
      SplitPieces(before, '\n', k);
    } else {
      var k :| 0 <= k < |b| && b[k] == ops[i].line;
      SplitPieces(after, '\n', k);
    }
  }

  lemma ParseLines(header: seq<string>, ops: seq<Op>, fromLabel: string, toLabel: string, n: nat, m: nat)
    requires header == ["--- " + fromLabel, "+++ " + toLabel, HunkLine(n, m)]
    requires '\n' !in fromLabel && '\n' !in toLabel
    requires forall i :: 0 <= i < |ops| ==> '\n' !in ops[i].line
    ensures Parse(Join(header + OpLines(ops), "\n")) == Some(Parsed(fromLabel, toLabel, n, m, ops))
  {
    OpsRoundTrip(ops);
    HunkWords(n, m);
    HunkRoundTrip(n, m);
    var lines := header + OpLines(ops);
    SplitJoin(lines, '\n');
    assert lines[3..] == OpLines(ops);
    assert lines[0][4..] == fromLabel && lines[1][4..] == toLabel;
  }

  lemma ParseRendered(before: string, after: string, fromLabel: string, toLabel: string)
    requires before != after && '\n' !in fromLabel && '\n' !in toLabel
    ensures
      var a, b := Split(before, '\n'), Split(after, '\n');
      Parse(Rendered(before, after, fromLabel, toLabel)) ==
        Some(Parsed(fromLabel, toLabel, |a|, |b|, Script(a, b, 0, 0)))
  {
    var a, b := Split(before, '\n'), Split(after, '\n');
    forall i | 0 <= i < |Script(a, b, 0, 0)| ensures '\n' !in Script(a, b, 0, 0)[i].line {
      ScriptLinesClean(before, after, i);
    }
    ParseLines(["--- " + fromLabel, "+++ " + toLabel, HunkLine(|a|, |b|)], Script(a, b, 0, 0), fromLabel, toLabel,
      |a|, |b|);
  }

  /** Reading the emitted diff of two different texts back gives the labels, both texts, line
      counts that match them, and a script with as few changed lines as any, of these the one
      that is first when keeping comes before deleting and deleting before inserting. */
  lemma DiffRoundTrip(before: string, after: string, fromLabel: string, toLabel: string)
    requires before != after && '\n' !in fromLabel && '\n' !in toLabel
    ensures
      var p := Parse(Rendered(before, after, fromLabel, toLabel));
      && p.Some?
      && p.value.fromLabel == fromLabel && p.value.toLabel == toLabel
      && Join(OldSide(p.value.ops), "\n") == before && p.value.oldCount == |OldSide(p.value.ops)|
      && Join(NewSide(p.value.ops), "\n") == after && p.value.newCount == |NewSide(p.value.ops)|
      && FirstOfShortest(p.value.ops, OldSide(p.value.ops), NewSide(p.value.ops))
  {
    ScriptMinimal(Split(before, '\n'), Split(after, '\n'));
    ScriptIsFirst(Split(before, '\n'), Split(after, '\n'));
    JoinSplit(before, '\n');
    JoinSplit(after, '\n');
    ParseRendered(before, after, fromLabel, toLabel);
  }

  lemma DiffEmptyIffEqual(before: string, after: string, fromLabel: string, toLabel: string)
    ensures Rendered(before, after, fromLabel, toLabel) == "" <==> before == after
  {
    if before != after {
      var a, b := Split(before, '\n'), Split(after, '\n');
      var lines := ["--- " + fromLabel, "+++ " + toLabel, HunkLine(|a|, |b|)] + OpLines(Script(a, b, 0, 0));
      assert Join(lines, "\n") == lines[0] + "\n" + Join(lines[1..], "\n");
    }
  }
}
