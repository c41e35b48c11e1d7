/** The line parsers of src/lib/config-scan-parsing.ts: the one that lists key/value pairs and
    the one that rewrites a value into a placeholder. */
module ConfigScan {
  import opened Concat
  import opened Text
  import opened Wrappers

  // ---------------------------------------------------------------- characters

  /** `\s` and String.prototype.trim. */
  predicate IsSpace(c: char) {
    c == ' ' || '\t' <= c <= '\r' || c == '\U{A0}' || c == '\U{1680}' || '\U{2000}' <= c <= '\U{200A}'
    || c == '\U{2028}' || c == '\U{2029}' || c == '\U{202F}' || c == '\U{205F}' || c == '\U{3000}' || c == '\U{FEFF}'
  }

  /** What `.` does not match. */
  predicate IsLineEnd(c: char) {
    c == '\n' || c == '\r' || c == '\U{2028}' || c == '\U{2029}'
  }

  predicate Spaces(s: string) { forall i :: 0 <= i < |s| ==> IsSpace(s[i]) }

  predicate OneLine(s: string) { forall i :: 0 <= i < |s| ==> !IsLineEnd(s[i]) }

  /** Key characters: of an env key, or with `upper` of a YAML key. */
  predicate KeyStart(c: char, upper: bool) {
    'A' <= c <= 'Z' || (!upper && ('a' <= c <= 'z' || c == '_'))
  }

  predicate KeyPart(c: char, upper: bool) {
    'A' <= c <= 'Z' || '0' <= c <= '9' || c == '_' || (!upper && 'a' <= c <= 'z')
  }

  function SpaceRun(s: string): (n: nat)
    ensures n <= |s|
  {
    if s == "" || !IsSpace(s[0]) then 0 else 1 + SpaceRun(s[1..])
  }

  function PartRun(s: string, upper: bool): (n: nat)
    ensures n <= |s|
  {
    if s == "" || !KeyPart(s[0], upper) then 0 else 1 + PartRun(s[1..], upper)
  }

  /** Length of the key `s` starts with, 0 for none. */
  function KeyLength(s: string, upper: bool): (n: nat)
    ensures n <= |s|
  {
    if s == "" || !KeyStart(s[0], upper) then 0 else PartRun(s, upper)
  }

  function TrimRight(s: string): (t: string)
    ensures t <= s
  {
    if s == "" || !IsSpace(s[|s| - 1]) then s else TrimRight(s[..|s| - 1])
  }

  function Trim(s: string): string { TrimRight(s[SpaceRun(s)..]) }

  predicate InQuotes(s: string) {
    s != "" && (s[0] == s[|s| - 1] == '"' || s[0] == s[|s| - 1] == '\'')
  }

  // ---------------------------------------------------------------- extractKeyValues

  datatype Pair = Pair(key: string, value: string)

  /** s.slice(1, -1). */
  function Inner(s: string): string { if |s| <= 2 then "" else s[1..|s| - 1] }

  function Unquoted(rhs: string): string {
    var value := Trim(rhs);
    if InQuotes(value) then Inner(value) else value
  }

  /** What the two key patterns take a text apart into. */
  datatype Parts = Parts(key: string, sep: string, rhs: string)

  /** /^(key)=(.*)$/ */
  function EnvParts(s: string): Option<Parts> {
    var k := KeyLength(s, false);
    if 0 < k < |s| && s[k] == '=' && OneLine(s[k + 1..]) then Some(Parts(s[..k], "=", s[k + 1..])) else None
  }

  /** /^(KEY):(\s+)(.*)$/ */
  function YamlParts(s: string): Option<Parts> {
    var k := KeyLength(s, true);
    if 0 < k < |s| && s[k] == ':' then
      var w := SpaceRun(s[k + 1..]);
      var rhs := s[k + 1..][w..];
      if w > 0 && OneLine(rhs) then Some(Parts(s[..k], ":" + s[k + 1..][..w], rhs)) else None
    else None
  }

  /** The patterns of extractKeyValues end in (.+)$; on a trimmed line that asks no more than
      a non-empty right-hand side. */
  function EnvMatch(line: string): Option<Parts> {
    if EnvParts(line).Some? && EnvParts(line).value.rhs != "" then EnvParts(line) else None
  }

  function YamlMatch(line: string): Option<Parts> {
    if YamlParts(line).Some? && YamlParts(line).value.rhs != "" then YamlParts(line) else None
  }

  function ExtractTrimmed(line: string): Option<Pair> {
    if line == "" || line[0] == '#' || "//" <= line then None
    else
      var m := if EnvMatch(line).Some? then EnvMatch(line) else YamlMatch(line);
      if m.None? || Unquoted(m.value.rhs) == "" then None
      else Some(Pair(m.value.key, Unquoted(m.value.rhs)))
  }

  /** What one line contributes. */
  function ExtractLine(rawLine: string): Option<Pair> { ExtractTrimmed(Trim(rawLine)) }

  function OneOrNone<T>(x: Option<T>): seq<T> { if x.Some? then [x.value] else [] }

  function ExtractLines(lines: seq<string>): seq<Pair> {
    if lines == [] then []
    else ExtractLines(lines[..|lines| - 1]) + OneOrNone(ExtractLine(lines[|lines| - 1]))
  }

  /** One round of the loop, given the trimmed line: each `continue` is a None. */
  method ExtractOne(line: string) returns (pair: Option<Pair>)
    ensures pair == ExtractTrimmed(line)
  {
    if line == "" || line[0] == '#' || "//" <= line {
      return None;
    }
    var envMatch := EnvMatch(line);
    if envMatch.Some? {
      var value := Unquoted(envMatch.value.rhs);
      return if value != "" then Some(Pair(envMatch.value.key, value)) else None;
    }
    var yamlMatch := YamlMatch(line);
    if yamlMatch.Some? {
      var value := Unquoted(yamlMatch.value.rhs);
      if value != "" {
        return Some(Pair(yamlMatch.value.key, value));
      }
    }
    return None;
  }

  lemma ExtractSnoc(lines: seq<string>, last: string)
    ensures ExtractLines(lines + [last]) == ExtractLines(lines) + OneOrNone(ExtractLine(last))
  {
    assert (lines + [last])[..|lines|] == lines;
  }

  method ExtractKeyValues(content: string) returns (results: seq<Pair>)
    ensures results == ExtractLines(Split(content, '\n'))
  {
    results := [];
    var lines := Split(content, '\n');
    for i := 0 to |lines|
      invariant results == ExtractLines(lines[..i])
    {
      assert lines[..i + 1] == lines[..i] + [lines[i]];
      ExtractSnoc(lines[..i], lines[i]);
      var pair := ExtractOne(Trim(lines[i]));
      if pair.Some? {
        results := results + [pair.value];
      }
    }
    assert lines[..|lines|] == lines;
  }

  // ---------------------------------------------------------------- rewriteLine

  /** Both patterns of rewriteLine start with (\s*), which takes the whole indentation. */
  function LineParts(rawLine: string): Option<Parts> { BodyParts(rawLine[SpaceRun(rawLine)..]) }

  function BodyParts(body: string): Option<Parts> {
    if EnvParts(body).Some? then EnvParts(body) else YamlParts(body)
  }

  function QuoteOf(trimmed: string): string {
    if |trimmed| >= 2 && InQuotes(trimmed) then [trimmed[0]] else ""
  }

  /** The right-hand side as rewriteLine compares it. */
  function Bare(rhs: string): string {
    if QuoteOf(Trim(rhs)) != "" then Inner(Trim(rhs)) else Trim(rhs)
  }

  function NewRhs(rhs: string, placeholder: string): string {
    QuoteOf(Trim(rhs)) + placeholder + QuoteOf(Trim(rhs))
  }

  function NewBody(p: Parts, placeholder: string): string {
    p.key + p.sep + NewRhs(p.rhs, placeholder)
  }

  function RewriteLine(rawLine: string, value: string, placeholder: string): Option<string> {
    var p := LineParts(rawLine);
    if p.None? || Bare(p.value.rhs) != value then None
    else Some(rawLine[..SpaceRun(rawLine)] + NewBody(p.value, placeholder))
  }

  function NewLine(line: string, value: string, placeholder: string): string {
    var r := RewriteLine(line, value, placeholder);
    if r.Some? then r.value else line
  }

  function NewLines(lines: seq<string>, value: string, placeholder: string): seq<string> {
    seq(|lines|, i requires 0 <= i < |lines| => NewLine(lines[i], value, placeholder))
  }

  function RewrittenCount(lines: seq<string>, value: string, placeholder: string): nat {
    if lines == [] then 0
    else RewrittenCount(lines[..|lines| - 1], value, placeholder)
         + (if RewriteLine(lines[|lines| - 1], value, placeholder).Some? then 1 else 0)
  }

  lemma RewrittenSnoc(lines: seq<string>, i: nat, value: string, placeholder: string)
    requires i < |lines|
    ensures RewrittenCount(lines[..i + 1], value, placeholder) ==
              RewrittenCount(lines[..i], value, placeholder) +
                (if RewriteLine(lines[i], value, placeholder).Some? then 1 else 0)
  {
    assert lines[..i + 1][..i] == lines[..i];
  }

  lemma NewLinesSnoc(lines: seq<string>, value: string, placeholder: string)
    requires lines != []
    ensures
      var n := |lines| - 1;
      NewLines(lines, value, placeholder) ==
        NewLines(lines[..n], value, placeholder) + [NewLine(lines[n], value, placeholder)]
  {
  }

  method SubstituteFullValue(content: string, value: string, placeholder: string)
    returns (newContent: string, replacements: nat)
    ensures newContent == Join(NewLines(Split(content, '\n'), value, placeholder), "\n")
    ensures replacements == RewrittenCount(Split(content, '\n'), value, placeholder)
  {
    var lines := Split(content, '\n');
    replacements := 0;
    var newLines := [];
    for i := 0 to |lines|
      invariant newLines == NewLines(lines[..i], value, placeholder)
      invariant replacements == RewrittenCount(lines[..i], value, placeholder)
    {
      RewrittenSnoc(lines, i, value, placeholder);
      NewLinesSnoc(lines[..i + 1], value, placeholder);
      assert lines[..i + 1][..i] == lines[..i];
      var rewritten := RewriteLine(lines[i], value, placeholder);
      if rewritten.None? {
        newLines := newLines + [lines[i]];
      } else {
        replacements := replacements + 1;
        newLines := newLines + [rewritten.value];
      }
    }
    assert lines[..|lines|] == lines;
    newContent := Join(newLines, "\n");
  }

  // ---------------------------------------------------------------- trimming

  lemma {:induction false} SpaceRunMaximal(s: string)
    ensures Spaces(s[..SpaceRun(s)]) && (SpaceRun(s) < |s| ==> !IsSpace(s[SpaceRun(s)]))
  {
    if s != "" && IsSpace(s[0]) {
      SpaceRunMaximal(s[1..]);
      assert s[..SpaceRun(s)] == [s[0]] + s[1..][..SpaceRun(s[1..])];
    }
  }

  lemma {:induction false} PartRunMaximal(s: string, upper: bool)
    ensures forall i :: 0 <= i < PartRun(s, upper) ==> KeyPart(s[i], upper)
    ensures PartRun(s, upper) < |s| ==> !KeyPart(s[PartRun(s, upper)], upper)
  {
    if s != "" && KeyPart(s[0], upper) {
      PartRunMaximal(s[1..], upper);
      assert s == [s[0]] + s[1..];
    }
  }

  lemma {:induction false} TrimRightMaximal(s: string)
    ensures Spaces(s[|TrimRight(s)|..])
    ensures TrimRight(s) != "" ==> !IsSpace(TrimRight(s)[|TrimRight(s)| - 1])
  {
    if s != "" && IsSpace(s[|s| - 1]) {
      var init := s[..|s| - 1];
      TrimRightMaximal(init);
      assert s[|TrimRight(s)|..] == init[|TrimRight(init)|..] + [s[|s| - 1]];
    }
  }

  lemma {:induction false} SpaceRunIs(a: string, b: string)
    requires Spaces(a) && (b == "" || !IsSpace(b[0]))
    ensures SpaceRun(a + b) == |a|
  {
    if a == "" {
      assert a + b == b;
    } else {
      SpaceRunIs(a[1..], b);
      assert (a + b)[1..] == a[1..] + b;
    }
  }

  lemma {:induction false} TrimRightIs(a: string, b: string)
    requires (a == "" || !IsSpace(a[|a| - 1])) && Spaces(b)
    ensures TrimRight(a + b) == a
  {
    if b == "" {
      assert a + b == a;
    } else {
      TrimRightIs(a, b[..|b| - 1]);
      assert (a + b)[..|a + b| - 1] == a + b[..|b| - 1];
    }
  }

  /** Text without white space at its ends is what trimming leaves of it. */
  lemma TrimIs(a: string, t: string, b: string)
    requires Spaces(a) && Spaces(b) && (t == "" ==> a == "")
    requires t != "" ==> !IsSpace(t[0]) && !IsSpace(t[|t| - 1])
    ensures Trim(a + t + b) == t
  {
    if t == "" {
      assert a + t + b == b;
      SpaceRunIs(b, "");
      assert b + "" == b && b[|b|..] == "";
      TrimRightIs("", "");
    } else {
      SpaceRunIs(a, t + b);
      assert a + t + b == a + (t + b);
      assert (a + (t + b))[|a|..] == t + b;
      TrimRightIs(t, b);
    }
  }

  /** The white space that trimming takes off behind a line. */
  function Tail(rawLine: string): string {
    var body := rawLine[SpaceRun(rawLine)..];
    body[|TrimRight(body)|..]
  }

  lemma TailIs(rawLine: string)
    ensures rawLine[SpaceRun(rawLine)..] == Trim(rawLine) + Tail(rawLine) && Spaces(Tail(rawLine))
    ensures Trim(rawLine) != "" ==> !IsSpace(Trim(rawLine)[|Trim(rawLine)| - 1])
  {
    var body := rawLine[SpaceRun(rawLine)..];
    TrimRightMaximal(body);
    assert body == TrimRight(body) + body[|TrimRight(body)|..];
  }

  lemma TrimParts(x: string) returns (a: string, c: string)
    ensures x == a + Trim(x) + c && Spaces(a) && Spaces(c)
    ensures Trim(x) == "" ==> a == "" && c == x
    ensures Trim(x) != "" ==> !IsSpace(Trim(x)[0]) && !IsSpace(Trim(x)[|Trim(x)| - 1])
  {
    var n := SpaceRun(x);
    SpaceRunMaximal(x);
    TailIs(x);
    if Trim(x) == "" {
      a, c := "", x;
      OnlySpaces(x[..n], Tail(x));
      TwoParts(x, n, "", Tail(x));
    } else {
      a, c := x[..n], Tail(x);
      TwoParts(x, n, Trim(x), c);
      assert Trim(x)[0] == x[n..][0];
    }
  }

  lemma TwoParts(x: string, n: nat, t: string, c: string)
    requires n <= |x| && x[n..] == t + c
    ensures x == x[..n] + t + c
    ensures t == "" ==> x == x[..n] + c && x == "" + t + x
  {
    assert x == x[..n] + x[n..];
  }

  lemma OnlySpaces(a: string, b: string)
    requires Spaces(a) && Spaces(b)
    ensures Spaces(a + b)
  {
  }

  lemma TrimAppend(x: string, b: string)
    requires Spaces(b)
    ensures Trim(x + b) == Trim(x)
  {
    var a, c := TrimParts(x);
    TrimIs(a, Trim(x), c + b);
    Assoc(a + Trim(x), c, b);
  }

  // ---------------------------------------------------------------- keys

  lemma {:induction false} PartRunIs(a: string, b: string, upper: bool)
    requires forall i :: 0 <= i < |a| ==> KeyPart(a[i], upper)
    requires b == "" || !KeyPart(b[0], upper)
    ensures PartRun(a + b, upper) == |a|
  {
    if a == "" {
      assert a + b == b;
    } else {
      PartRunIs(a[1..], b, upper);
      assert (a + b)[1..] == a[1..] + b;
    }
  }

  predicate IsKey(key: string, upper: bool) {
    key != "" && KeyStart(key[0], upper) && forall i :: 0 <= i < |key| ==> KeyPart(key[i], upper)
  }

  /** A key is read up to the first character that cannot belong to it. */
  lemma KeyLengthIs(key: string, rest: string, upper: bool)
    requires IsKey(key, upper) && rest != "" && !KeyPart(rest[0], upper)
    ensures KeyLength(key + rest, upper) == |key|
  {
    PartRunIs(key, rest, upper);
  }

  /** What follows and cannot continue a key does not change the key a text starts with. */
  lemma KeyLengthAppend(t: string, b: string, upper: bool)
    requires b == "" || !KeyPart(b[0], upper)
    ensures KeyLength(t + b, upper) == KeyLength(t, upper)
  {
    if t == "" {
      assert t + b == b;
    } else {
      var n := PartRun(t, upper);
      PartRunMaximal(t, upper);
      if n == |t| {
        PartRunIs(t, b, upper);
      } else {
        PartRunIs(t[..n], t[n..] + b, upper);
        assert t[..n] + (t[n..] + b) == t + b;
      }
    }
  }

  // ---------------------------------------------------------------- the parsers agree

  /** The raw line behind its indentation is the trimmed line and trailing white space. */
  lemma OneLineOfBoth(a: string, b: string)
    ensures OneLine(a + b) <==> OneLine(a) && OneLine(b)
  {
    var s := a + b;
    forall i | 0 <= i < |a| ensures a[i] == s[i] {}
    forall i | 0 <= i < |b| ensures b[i] == s[|a| + i] {}
    forall i | 0 <= i < |s| ensures s[i] == if i < |a| then a[i] else b[i - |a|] {}
  }

  lemma CutAtKey(t: string, c: string, k: nat)
    requires k < |t|
    ensures (t + c)[..k] == t[..k] && (t + c)[k + 1..] == t[k + 1..] + c
  {
  }

  lemma EnvBehindTrim(t: string, c: string)
    requires Spaces(c)
    ensures EnvParts(t + c) == if EnvParts(t).None? || !OneLine(c) then None
                               else Some(EnvParts(t).value.(rhs := EnvParts(t).value.rhs + c))
  {
    KeyLengthAppend(t, c, false);
    var k := KeyLength(t, false);
    if 0 < k < |t| && t[k] == '=' {
      CutAtKey(t, c, k);
      OneLineOfBoth(t[k + 1..], c);
    }
  }

  lemma YamlBehindTrim(t: string, c: string)
    requires Spaces(c) && (t != "" ==> !IsSpace(t[|t| - 1]))
    ensures YamlParts(t).Some? ==>
              YamlParts(t).value.rhs != ""
              && YamlParts(t + c) ==
                   if OneLine(c) then Some(YamlParts(t).value.(rhs := YamlParts(t).value.rhs + c)) else None
    ensures YamlParts(t).None? && YamlParts(t + c).Some? ==> YamlParts(t + c).value.rhs == "" && EnvParts(t).None?
  {
    KeyLengthAppend(t, c, true);
    var k := KeyLength(t, true);
    if 0 < k < |t| && t[k] == ':' {
      if k + 1 == |t| {
        YamlNoValue(t, c, k);
      } else {
        YamlValue(t, c, k);
      }
    }
  }

  lemma YamlNoValue(t: string, c: string, k: nat)
    requires Spaces(c) && 0 < k == |t| - 1 && t[k] == ':' && KeyLength(t, true) == k == KeyLength(t + c, true)
    ensures YamlParts(t).None? && EnvParts(t).None? && (YamlParts(t + c).Some? ==> YamlParts(t + c).value.rhs == "")
  {
    assert t[k + 1..] == "" && (t + c)[k + 1..] == c;
    SpaceRunIs(c, "");
    assert c + "" == c;
    PartRunMaximal(t, false);
    PartRunMaximal(t, true);
  }

  /** What the pattern takes a text with a colon behind its key apart into. */
  lemma YamlOf(t: string, k: nat, x: string, w: nat)
    requires 0 < k < |t| && t[k] == ':' && KeyLength(t, true) == k && x == t[k + 1..] && w == SpaceRun(x)
    ensures YamlParts(t) == if w > 0 && OneLine(x[w..]) then Some(Parts(t[..k], ":" + x[..w], x[w..])) else None
  {
  }

  lemma YamlValue(t: string, c: string, k: nat)
    requires Spaces(c) && 0 < k < |t| - 1 && t[k] == ':' && !IsSpace(t[|t| - 1])
    requires KeyLength(t, true) == k == KeyLength(t + c, true)
    ensures YamlParts(t).Some? ==>
              YamlParts(t).value.rhs != ""
              && YamlParts(t + c) ==
                   if OneLine(c) then Some(YamlParts(t).value.(rhs := YamlParts(t).value.rhs + c)) else None
    ensures YamlParts(t).None? ==> YamlParts(t + c).None?
  {
    var x := t[k + 1..];
    CutAtKey(t, c, k);
    SpaceRunBehind(x, c);
    OneLineOfBoth(x[SpaceRun(x)..], c);
    YamlOf(t, k, x, SpaceRun(x));
    YamlOf(t + c, k, x + c, SpaceRun(x));
  }

  /** In front of a last character that is not white space, white space behind does not count. */
  lemma SpaceRunBehind(x: string, c: string)
    requires x != "" && !IsSpace(x[|x| - 1])
    ensures
      var w := SpaceRun(x);
      w < |x| && SpaceRun(x + c) == w && (x + c)[..w] == x[..w] && (x + c)[w..] == x[w..] + c
  {
    var w := SpaceRun(x);
    SpaceRunMaximal(x);
    assert x == x[..w] + x[w..];
    SpaceRunIs(x[..w], x[w..] + c);
    assert x[..w] + (x[w..] + c) == x + c;
  }

  lemma NotBoth(t: string)
    requires EnvParts(t).Some?
    ensures YamlParts(t).None?
  {
    var k, k' := KeyLength(t, false), KeyLength(t, true);
    PartRunMaximal(t, false);
    PartRunMaximal(t, true);
    assert forall i :: 0 <= i < k' ==> KeyPart(t[i], true);
    assert !KeyPart(t[k], true);
  }

  /** What the rewriter's view of a line contributes to the list. */
  function Contribution(p: Option<Parts>): Option<Pair> {
    if p.None? || Unquoted(p.value.rhs) == "" then None else Some(Pair(p.value.key, Unquoted(p.value.rhs)))
  }

  lemma ContributionBehind(key: string, sep: string, rhs: string, c: string)
    requires Spaces(c)
    ensures Contribution(Some(Parts(key, sep, rhs + c))) == Contribution(Some(Parts(key, sep, rhs)))
    ensures rhs == "" ==> Contribution(Some(Parts(key, sep, rhs))) == None
  {
    TrimAppend(rhs, c);
    UnquotedSpaces("");
  }

  lemma CommentHasNoParts(t: string)
    requires t == "" || t[0] == '#' || "//" <= t
    ensures EnvParts(t).None? && YamlParts(t).None?
  {
    assert t != "" ==> !KeyStart(t[0], false) && !KeyStart(t[0], true);
  }

  lemma KeyIsNoComment(t: string)
    requires EnvParts(t).Some?
    ensures t != "" && t[0] != '#' && !("//" <= t)
  {
    assert KeyStart(t[0], false);
  }

  lemma ExtractOfEnv(t: string)
    requires EnvParts(t).Some?
    ensures ExtractTrimmed(t) == Contribution(EnvParts(t))
  {
    NotBoth(t);
    UnquotedSpaces("");
    KeyIsNoComment(t);
  }

  lemma ExtractOfParts(t: string)
    requires YamlParts(t).Some? ==> YamlParts(t).value.rhs != ""
    ensures ExtractTrimmed(t) == Contribution(BodyParts(t))
  {
    if t == "" || t[0] == '#' || "//" <= t {
      CommentHasNoParts(t);
    } else if EnvParts(t).Some? {
      ExtractOfEnv(t);
    }
  }

  lemma AgreeBehindTrim(t: string, c: string)
    requires Spaces(c) && (t != "" ==> !IsSpace(t[|t| - 1]))
    ensures Contribution(BodyParts(t + c)) == if OneLine(c) then ExtractTrimmed(t) else None
    ensures BodyParts(t + c).Some? && !OneLine(c) ==> ExtractTrimmed(t).None?
  {
    EnvBehindTrim(t, c);
    YamlBehindTrim(t, c);
    ExtractOfParts(t);
    UnquotedSpaces("");
    var p := BodyParts(t);
    if p.Some? {
      ContributionBehind(p.value.key, p.value.sep, p.value.rhs, c);
    }
  }

  /** The two parsers, on every line: the rewriter sees the key and the unquoted right-hand side
      that the line contributes, except where a line terminator is among the white space behind;
      there it sees no value. */
  lemma ParsersAgree(rawLine: string)
    ensures Contribution(LineParts(rawLine)) == if OneLine(Tail(rawLine)) then ExtractLine(rawLine) else None
    ensures LineParts(rawLine).Some? && !OneLine(Tail(rawLine)) ==> ExtractLine(rawLine).None?
  {
    TailIs(rawLine);
    AgreeBehindTrim(Trim(rawLine), Tail(rawLine));
  }

  lemma UnquotedSpaces(c: string)
    requires Spaces(c)
    ensures Trim(c) == "" && Unquoted(c) == ""
  {
    TrimIs("", "", c);
    assert "" + "" + c == c;
  }

  // ---------------------------------------------------------------- one rewritten line

  ghost predicate IsPlaceholder(p: string) {
    exists key :: IsKey(key, true) && p == "${" + key + "}"
  }

  lemma PlaceholderShape(p: string)
    requires IsPlaceholder(p)
    ensures |p| >= 4 && p[0] == '$' && p[|p| - 1] == '}' && OneLine(p)
  {
    var key :| IsKey(key, true) && p == "${" + key + "}";
    forall i | 0 <= i < |p| ensures !IsLineEnd(p[i]) {
      if 2 <= i < |p| - 1 { assert p[i] == key[i - 2]; }
    }
  }

  predicate LoneQuote(value: string) { value == "\"" || value == "'" }

  /** The rewriter finds the value, the lister nothing: the value is empty, or the right-hand
      side is one quote character, which the rewriter takes for a bare value and the lister for
      empty quotes. */
  predicate Unlisted(line: string, value: string) {
    var p := LineParts(line);
    p.Some? && Bare(p.value.rhs) == value && Unquoted(p.value.rhs) == ""
  }

  predicate Carries(line: string, value: string) {
    ExtractLine(line).Some? && ExtractLine(line).value.value == value
  }

  /** The lister finds the value, the rewriter nothing: behind the value there is a carriage
      return or another line terminator. */
  predicate Missed(line: string, value: string) {
    Carries(line, value) && !OneLine(Tail(line))
  }

  lemma BareOrUnquoted(rhs: string)
    ensures if LoneQuote(Trim(rhs)) then Bare(rhs) == Trim(rhs) && Unquoted(rhs) == "" else Bare(rhs) == Unquoted(rhs)
  {
  }

  /** A line is rewritten exactly when it contributes the value and no line terminator stands
      behind it, or when the lister skips it. */
  lemma RewriteCases(line: string, value: string, placeholder: string)
    ensures RewriteLine(line, value, placeholder).Some? <==>
      Unlisted(line, value) || (Carries(line, value) && !Missed(line, value))
    ensures Unlisted(line, value) ==> ExtractLine(line).None? && (value == "" || LoneQuote(value))
    ensures RewriteLine(line, value, placeholder).Some? && !Unlisted(line, value) ==>
      ExtractLine(line) == Some(Pair(LineParts(line).value.key, value))
  {
    ParsersAgree(line);
    if LineParts(line).Some? {
      BareOrUnquoted(LineParts(line).value.rhs);
    }
  }

  lemma QuotedTrims(q: string, placeholder: string)
    requires IsPlaceholder(placeholder) && q in {"", "\"", "'"}
    ensures Trim(q + placeholder + q) == q + placeholder + q
    ensures OneLine(q + placeholder + q) && !IsSpace((q + placeholder + q)[0])
  {
    PlaceholderShape(placeholder);
    var r := q + placeholder + q;
    TrimIs("", r, "");
    assert "" + r + "" == r;
  }

  lemma QuotedReads(q: string, placeholder: string)
    requires IsPlaceholder(placeholder) && q in {"", "\"", "'"}
    ensures
      var r := q + placeholder + q;
      Unquoted(r) == placeholder && Bare(r) == placeholder
  {
    PlaceholderShape(placeholder);
    QuotedTrims(q, placeholder);
    var r := q + placeholder + q;
    if q == "" {
      assert r == placeholder;
    } else {
      assert r[1..|r| - 1] == placeholder;
    }
  }

  lemma NewRhsReads(rhs: string, placeholder: string)
    requires IsPlaceholder(placeholder)
    ensures
      var r := NewRhs(rhs, placeholder);
      Unquoted(r) == placeholder && Bare(r) == placeholder && OneLine(r) && r != "" && !IsSpace(r[0])
  {
    PlaceholderShape(placeholder);
    QuotedTrims(QuoteOf(Trim(rhs)), placeholder);
    QuotedReads(QuoteOf(Trim(rhs)), placeholder);
  }

  lemma PartsShape(line: string)
    requires LineParts(line).Some?
    ensures
      var p := LineParts(line).value;
      if p.sep == "=" then IsKey(p.key, false)
      else IsKey(p.key, true) && |p.sep| > 1 && p.sep[0] == ':' && Spaces(p.sep[1..])
  {
    var body := line[SpaceRun(line)..];
    PartRunMaximal(body, false);
    PartRunMaximal(body, true);
    if EnvParts(body).None? {
      var k := KeyLength(body, true);
      SpaceRunMaximal(body[k + 1..]);
      assert YamlParts(body).value.sep[1..] == body[k + 1..][..SpaceRun(body[k + 1..])];
    }
  }

  lemma ReadsBackEnv(key: string, rhs: string)
    requires IsKey(key, false) && OneLine(rhs)
    ensures BodyParts(key + "=" + rhs) == Some(Parts(key, "=", rhs))
  {
    var body := key + "=" + rhs;
    assert body == key + ("=" + rhs);
    KeyLengthIs(key, "=" + rhs, false);
    assert body[..|key|] == key && body[|key| + 1..] == rhs;
  }

  lemma ReadsBackYaml(key: string, sep: string, rhs: string)
    requires IsKey(key, true) && |sep| > 1 && sep[0] == ':' && Spaces(sep[1..])
    requires OneLine(rhs) && rhs != "" && !IsSpace(rhs[0])
    ensures BodyParts(key + sep + rhs) == Some(Parts(key, sep, rhs))
  {
    var body, k := key + sep + rhs, |key|;
    assert body == key + (sep + rhs);
    KeyLengthIs(key, sep + rhs, true);
    KeyLengthIs(key, sep + rhs, false);
    assert body[..k] == key && body[k + 1..] == sep[1..] + rhs && body[k] == ':';
    SpaceRunIs(sep[1..], rhs);
    assert (sep[1..] + rhs)[..|sep| - 1] == sep[1..] && (sep[1..] + rhs)[|sep| - 1..] == rhs;
    assert ":" + sep[1..] == sep;
  }

  lemma NewBodyReads(line: string, placeholder: string)
    requires LineParts(line).Some? && IsPlaceholder(placeholder)
    ensures
      var p := LineParts(line).value;
      var body := NewBody(p, placeholder);
      BodyParts(body) == Some(p.(rhs := NewRhs(p.rhs, placeholder))) && body != "" && !IsSpace(body[0])
  {
    var p := LineParts(line).value;
    PartsShape(line);
    NewRhsReads(p.rhs, placeholder);
    assert NewBody(p, placeholder)[0] == p.key[0];
    if p.sep == "=" {
      ReadsBackEnv(p.key, NewRhs(p.rhs, placeholder));
    } else {
      ReadsBackYaml(p.key, p.sep, NewRhs(p.rhs, placeholder));
    }
  }

  /** The rewritten line has the same indentation, key and separator, and the placeholder as its
      value, quoted as the old one was. */
  lemma RewrittenReads(line: string, value: string, placeholder: string)
    requires IsPlaceholder(placeholder) && RewriteLine(line, value, placeholder).Some? && LineParts(line).Some?
    ensures
      var r := RewriteLine(line, value, placeholder).value;
      && r[..SpaceRun(r)] == line[..SpaceRun(line)]
      && LineParts(r) == Some(LineParts(line).value.(rhs := NewRhs(LineParts(line).value.rhs, placeholder)))
      && (LineParts(r).value.rhs == placeholder
          || exists q :: q in ['"', '\''] && LineParts(r).value.rhs == [q] + placeholder + [q])
  {
    var n := SpaceRun(line);
    var body := NewBody(LineParts(line).value, placeholder);
    NewBodyReads(line, placeholder);
    SpaceRunMaximal(line);
    SpaceRunIs(line[..n], body);
    assert (line[..n] + body)[n..] == body;
    QuotedOrBare(LineParts(line).value.rhs, placeholder);
  }

  lemma QuotedOrBare(rhs: string, placeholder: string)
    ensures NewRhs(rhs, placeholder) == placeholder
      || exists q :: q in ['"', '\''] && NewRhs(rhs, placeholder) == [q] + placeholder + [q]
  {
    var t := Trim(rhs);
    if QuoteOf(t) == "" {
      assert "" + placeholder + "" == placeholder;
    } else {
      assert t[0] in ['"', '\''] && NewRhs(rhs, placeholder) == [t[0]] + placeholder + [t[0]];
    }
  }

  lemma OneLineConcat(a: string, b: string)
    requires OneLine(a) && OneLine(b)
    ensures OneLine(a + b)
  {
  }

  /** Rewriting brings in no line feed. */
  lemma RewrittenNoFeed(line: string, value: string, placeholder: string)
    requires '\n' !in line && IsPlaceholder(placeholder)
    ensures '\n' !in NewLine(line, value, placeholder)
  {
    if RewriteLine(line, value, placeholder).Some? {
      var p := LineParts(line).value;
      NewRhsReads(p.rhs, placeholder);
      assert forall i :: 0 <= i < |NewRhs(p.rhs, placeholder)| ==> NewRhs(p.rhs, placeholder)[i] != '\n';
      PartsNoFeed(line);
    }
  }

  lemma PartsNoFeed(line: string)
    requires '\n' !in line && LineParts(line).Some?
    ensures '\n' !in line[..SpaceRun(line)] && '\n' !in LineParts(line).value.key && '\n' !in LineParts(line).value.sep
  {
    var body := line[SpaceRun(line)..];
    assert forall i :: 0 <= i < |body| ==> body[i] in line;
  }

  // ---------------------------------------------------------------- the whole content

  function Mapped(x: Pair, value: string, placeholder: string): Pair {
    if x.value == value then x.(value := placeholder) else x
  }

  function MapPairs(xs: seq<Pair>, value: string, placeholder: string): seq<Pair> {
    seq(|xs|, i requires 0 <= i < |xs| => Mapped(xs[i], value, placeholder))
  }

  function CountValue(xs: seq<Pair>, value: string): nat {
    if xs == [] then 0 else CountValue(xs[..|xs| - 1], value) + (if xs[|xs| - 1].value == value then 1 else 0)
  }

  function UnlistedCount(lines: seq<string>, value: string): nat {
    if lines == [] then 0
    else UnlistedCount(lines[..|lines| - 1], value) + (if Unlisted(lines[|lines| - 1], value) then 1 else 0)
  }

  function MissedCount(lines: seq<string>, value: string): nat {
    if lines == [] then 0
    else MissedCount(lines[..|lines| - 1], value) + (if Missed(lines[|lines| - 1], value) then 1 else 0)
  }

  lemma NoTail(front: string, body: string)
    requires Spaces(front) && body != "" && !IsSpace(body[0]) && !IsSpace(body[|body| - 1])
    ensures Tail(front + body) == ""
  {
    SpaceRunIs(front, body);
    assert (front + body)[|front|..] == body;
    TrimRightIs(body, "");
    assert body + "" == body;
  }

  lemma NewBodyEnds(p: Parts, placeholder: string)
    requires IsPlaceholder(placeholder)
    ensures NewBody(p, placeholder) != ""
    ensures !IsSpace(NewBody(p, placeholder)[|NewBody(p, placeholder)| - 1])
  {
    var rhs := NewRhs(p.rhs, placeholder);
    PlaceholderShape(placeholder);
    QuotedOrBare(p.rhs, placeholder);
    assert !IsSpace(rhs[|rhs| - 1]);
  }

  /** Nothing is left to trim behind a rewritten line. */
  lemma RewrittenTail(line: string, value: string, placeholder: string)
    requires IsPlaceholder(placeholder) && RewriteLine(line, value, placeholder).Some?
    ensures Tail(RewriteLine(line, value, placeholder).value) == ""
  {
    NewBodyEnds(LineParts(line).value, placeholder);
    NewBodyReads(line, placeholder);
    SpaceRunMaximal(line);
    NoTail(line[..SpaceRun(line)], NewBody(LineParts(line).value, placeholder));
  }

  /** A rewritten line contributes its key with the placeholder, which is its bare value too. */
  lemma RewrittenContributes(line: string, value: string, placeholder: string)
    requires IsPlaceholder(placeholder) && RewriteLine(line, value, placeholder).Some? && LineParts(line).Some?
    ensures
      var r := RewriteLine(line, value, placeholder).value;
      && ExtractLine(r) == Some(Pair(LineParts(line).value.key, placeholder))
      && LineParts(r).Some? && Bare(LineParts(r).value.rhs) == placeholder
  {
    RewrittenReads(line, value, placeholder);
    RewrittenTail(line, value, placeholder);
    NewRhsReads(LineParts(line).value.rhs, placeholder);
    PlaceholderShape(placeholder);
    ParsersAgree(RewriteLine(line, value, placeholder).value);
  }

  lemma LineCommutes(line: string, value: string, placeholder: string)
    requires IsPlaceholder(placeholder)
    ensures
      var before, after := ExtractLine(line), ExtractLine(NewLine(line, value, placeholder));
      && (Unlisted(line, value) ==> before.None? && after.Some? && after.value.value == placeholder)
      && (Missed(line, value) ==> after == before)
      && (!Unlisted(line, value) && !Missed(line, value) ==>
            after == if before.None? then None else Some(Mapped(before.value, value, placeholder)))
    ensures value != placeholder ==> RewriteLine(NewLine(line, value, placeholder), value, placeholder).None?
  {
    RewriteCases(line, value, placeholder);
    if RewriteLine(line, value, placeholder).Some? {
      RewrittenContributes(line, value, placeholder);
      NotAgain(RewriteLine(line, value, placeholder).value, value, placeholder);
    }
  }

  lemma NotAgain(line: string, value: string, placeholder: string)
    requires LineParts(line).Some? && Bare(LineParts(line).value.rhs) == placeholder
    ensures value != placeholder ==> RewriteLine(line, value, placeholder).None?
  {
  }

  lemma MapAppend(xs: seq<Pair>, x: Option<Pair>, value: string, placeholder: string)
    ensures MapPairs(xs + OneOrNone(x), value, placeholder) ==
              MapPairs(xs, value, placeholder)
              + OneOrNone(if x.None? then None else Some(Mapped(x.value, value, placeholder)))
  {
  }

  lemma {:induction false} LinesCommute(lines: seq<string>, value: string, placeholder: string)
    requires IsPlaceholder(placeholder)
    ensures
      var before, after := ExtractLines(lines), ExtractLines(NewLines(lines, value, placeholder));
      && |after| == |before| + UnlistedCount(lines, value)
      && (UnlistedCount(lines, value) == 0 && (MissedCount(lines, value) == 0 || value == placeholder) ==>
            after == MapPairs(before, value, placeholder))
  {
    if lines == [] {
    } else {
      var init, last := lines[..|lines| - 1], lines[|lines| - 1];
      LinesCommute(init, value, placeholder);
      LineCommutes(last, value, placeholder);
      NewLinesSnoc(lines, value, placeholder);
      ExtractSnoc(NewLines(init, value, placeholder), NewLine(last, value, placeholder));
      MapAppend(ExtractLines(init), ExtractLine(last), value, placeholder);
    }
  }

  lemma StaysIfMissed(line: string, value: string, placeholder: string)
    requires IsPlaceholder(placeholder) && value != placeholder
    ensures Carries(NewLine(line, value, placeholder), value) <==> Missed(line, value)
  {
    LineCommutes(line, value, placeholder);
  }

  lemma CountSnoc(lines: seq<string>, last: string, value: string)
    ensures CountValue(ExtractLines(lines + [last]), value) ==
      CountValue(ExtractLines(lines), value) + if Carries(last, value) then 1 else 0
  {
    ExtractSnoc(lines, last);
    CountAppend(ExtractLines(lines), ExtractLine(last), value);
  }

  /** The pairs that still have the value are those of the missed lines. */
  lemma {:induction false} MissedStay(lines: seq<string>, value: string, placeholder: string)
    requires IsPlaceholder(placeholder) && value != placeholder
    ensures CountValue(ExtractLines(NewLines(lines, value, placeholder)), value) == MissedCount(lines, value)
  {
    if lines == [] {
    } else {
      var init, last := lines[..|lines| - 1], lines[|lines| - 1];
      MissedStay(init, value, placeholder);
      NewLinesSnoc(lines, value, placeholder);
      CountSnoc(NewLines(init, value, placeholder), NewLine(last, value, placeholder), value);
      StaysIfMissed(last, value, placeholder);
    }
  }

  lemma {:induction false} CountsRewritten(lines: seq<string>, value: string, placeholder: string)
    ensures RewrittenCount(lines, value, placeholder) ==
              CountValue(ExtractLines(lines), value) - MissedCount(lines, value) + UnlistedCount(lines, value)
  {
    if lines == [] {
    } else {
      var init, last := lines[..|lines| - 1], lines[|lines| - 1];
      CountsRewritten(init, value, placeholder);
      RewriteCases(last, value, placeholder);
      CountAppend(ExtractLines(init), ExtractLine(last), value);
    }
  }

  /** Mapping leaves no pair with the value. */
  lemma {:induction false} MappedCount(xs: seq<Pair>, value: string, placeholder: string)
    requires value != placeholder
    ensures CountValue(MapPairs(xs, value, placeholder), value) == 0
  {
    if xs == [] {
    } else {
      var n := |xs| - 1;
      MappedCount(xs[..n], value, placeholder);
      assert MapPairs(xs, value, placeholder)[..n] == MapPairs(xs[..n], value, placeholder);
    }
  }

  lemma CountAppend(xs: seq<Pair>, x: Option<Pair>, value: string)
    ensures CountValue(xs + OneOrNone(x), value) ==
      CountValue(xs, value) + if x.Some? && x.value.value == value then 1 else 0
  {
    if x.Some? {
      assert (xs + [x.value])[..|xs|] == xs;
    } else {
      assert xs + [] == xs;
    }
  }

  lemma {:induction false} NothingLeft(lines: seq<string>, value: string, placeholder: string)
    requires forall i :: 0 <= i < |lines| ==> RewriteLine(lines[i], value, placeholder).None?
    ensures RewrittenCount(lines, value, placeholder) == 0
  {
    if lines == [] {
    } else {
      NothingLeft(lines[..|lines| - 1], value, placeholder);
    }
  }

  ghost function Extracted(content: string): seq<Pair> { ExtractLines(Split(content, '\n')) }

  ghost function Substituted(content: string, value: string, placeholder: string): string {
    Join(NewLines(Split(content, '\n'), value, placeholder), "\n")
  }

  lemma SubstitutedLines(content: string, value: string, placeholder: string)
    requires IsPlaceholder(placeholder)
    ensures Split(Substituted(content, value, placeholder), '\n') == NewLines(Split(content, '\n'), value, placeholder)
  {
    var lines := Split(content, '\n');
    var newLines := NewLines(lines, value, placeholder);
    forall i | 0 <= i < |newLines| ensures '\n' !in newLines[i] {
      SplitPieces(content, '\n', i);
      RewrittenNoFeed(lines[i], value, placeholder);
    }
    SplitJoin(newLines, '\n');
  }

  /** Substitution commutes with extraction, on any content, exactly when every line that carries
      the value has no line terminator behind it (or the value is the placeholder already) and
      no line has the value without being listed, which takes an empty value or a lone quote
      character. The number of replacements is the number of pairs that carry the value, less
      the lines of the first kind, plus those of the second. */
  lemma SubstitutionCommutes(content: string, value: string, placeholder: string)
    requires IsPlaceholder(placeholder)
    ensures
      var lines := Split(content, '\n');
      && (Extracted(Substituted(content, value, placeholder)) == MapPairs(Extracted(content), value, placeholder)
          <==> UnlistedCount(lines, value) == 0 && (MissedCount(lines, value) == 0 || value == placeholder))
      && (value != "" && !LoneQuote(value) ==> UnlistedCount(lines, value) == 0)
      && RewrittenCount(lines, value, placeholder) ==
           CountValue(Extracted(content), value) - MissedCount(lines, value) + UnlistedCount(lines, value)
  {
    var lines := Split(content, '\n');
    SubstitutedLines(content, value, placeholder);
    LinesCommute(lines, value, placeholder);
    CountsRewritten(lines, value, placeholder);
    if value != placeholder {
      MissedStay(lines, value, placeholder);
      MappedCount(Extracted(content), value, placeholder);
    }
    if value != "" && !LoneQuote(value) { NoneUnlisted(lines, value, placeholder); }
  }

  lemma {:induction false} NoneUnlisted(lines: seq<string>, value: string, placeholder: string)
    requires value != "" && !LoneQuote(value)
    ensures UnlistedCount(lines, value) == 0
  {
    if lines == [] {
    } else {
      NoneUnlisted(lines[..|lines| - 1], value, placeholder);
      RewriteCases(lines[|lines| - 1], value, placeholder);
    }
  }

  /** In content whose only line terminator is the line feed no line is missed. */
  lemma {:induction false} NoneMissed(lines: seq<string>, value: string)
    requires forall i :: 0 <= i < |lines| ==> OneLine(lines[i])
    ensures MissedCount(lines, value) == 0
  {
    if lines == [] {
    } else {
      var last := lines[|lines| - 1];
      NoneMissed(lines[..|lines| - 1], value);
      assert forall i :: 0 <= i < |Tail(last)| ==> Tail(last)[i] in last;
    }
  }

  /** A second pass replaces nothing. */
  lemma SecondPassIdle(content: string, value: string, placeholder: string)
    requires IsPlaceholder(placeholder) && value != placeholder
    ensures RewrittenCount(Split(Substituted(content, value, placeholder), '\n'), value, placeholder) == 0
  {
    var lines := Split(content, '\n');
    SubstitutedLines(content, value, placeholder);
    var newLines := NewLines(lines, value, placeholder);
    forall i | 0 <= i < |newLines| ensures RewriteLine(newLines[i], value, placeholder).None? {
      LineCommutes(lines[i], value, placeholder);
    }
    NothingLeft(newLines, value, placeholder);
  }

  // ---------------------------------------------------------------- where it fails

  lemma KeyA(rest: string)
    requires rest == "" || !KeyPart(rest[0], false)
    ensures KeyLength("A" + rest, false) == 1
  {
    PartRunIs("A", rest, false);
  }

  lemma EnvLineOfA(rhs: string)
    requires OneLine(rhs)
    ensures EnvParts("A" + ("=" + rhs)) == Some(Parts("A", "=", rhs))
    ensures SpaceRun("A" + ("=" + rhs)) == 0
  {
    KeyA("=" + rhs);
    var t := "A" + ("=" + rhs);
    assert t[..1] == "A" && t[2..] == rhs;
  }

  lemma LoneQuoteFails(content: string, value: string, placeholder: string)
    requires content == "A" + ("=" + value) && LoneQuote(value) && '\n' !in content && placeholder == "${A}"
    ensures Extracted(content) == [] && RewrittenCount(Split(content, '\n'), value, placeholder) == 1
    ensures Extracted(Substituted(content, value, placeholder)) != MapPairs(Extracted(content), value, placeholder)
  {
    QuoteUnlisted(content, value);
    FailsOnLine(content, value, placeholder);
  }

  /** One line A=", the value a double quote: it is replaced though it is not listed. */
  lemma LoneQuoteDisagrees(content: string, value: string, placeholder: string)
    requires content == "A=\"" && value == "\"" && placeholder == "${A}"
    ensures Extracted(content) == [] && RewrittenCount(Split(content, '\n'), value, placeholder) == 1
    ensures Extracted(Substituted(content, value, placeholder)) != MapPairs(Extracted(content), value, placeholder)
  {
    assert content == "A" + ("=" + value);
    LoneQuoteFails(content, value, placeholder);
  }

  lemma PartsOfA(rhs: string)
    requires OneLine(rhs)
    ensures LineParts("A" + ("=" + rhs)) == Some(Parts("A", "=", rhs))
  {
    EnvLineOfA(rhs);
    var t := "A" + ("=" + rhs);
    assert t[0..] == t;
  }

  lemma QuoteIsBare(value: string)
    requires LoneQuote(value)
    ensures Bare(value) == value && Unquoted(value) == ""
  {
    TrimIs("", value, "");
    assert "" + value + "" == value;
    BareOrUnquoted(value);
  }

  lemma QuoteUnlisted(line: string, value: string)
    requires line == "A" + ("=" + value) && LoneQuote(value)
    ensures Unlisted(line, value)
  {
    PartsOfA(value);
    QuoteIsBare(value);
  }

  /** A lone line that the lister skips and the rewriter replaces is enough. */
  lemma FailsOnLine(line: string, value: string, placeholder: string)
    requires '\n' !in line && placeholder == "${A}" && Unlisted(line, value)
    ensures Extracted(line) == [] && RewrittenCount(Split(line, '\n'), value, placeholder) == 1
    ensures Extracted(Substituted(line, value, placeholder)) != MapPairs(Extracted(line), value, placeholder)
  {
    assert IsKey("A", true) && placeholder == "${" + "A" + "}";
    SplitNone(line, '\n');
    CountsOfUnlisted(line, value, placeholder);
    SubstitutionCommutes(line, value, placeholder);
  }

  lemma CountsOfUnlisted(line: string, value: string, placeholder: string)
    requires Unlisted(line, value)
    ensures ExtractLines([line]) == [] && UnlistedCount([line], value) == 1
      && RewrittenCount([line], value, placeholder) == 1
  {
    assert [line][..0] == [] && [] + [line] == [line];
    RewriteCases(line, value, placeholder);
    ExtractSnoc([], line);
  }

  lemma TrimBehind(t: string, c: string)
    requires t != "" && !IsSpace(t[0]) && !IsSpace(t[|t| - 1]) && Spaces(c)
    ensures Trim(t + c) == t && Tail(t + c) == c
  {
    var line := t + c;
    SpaceRunIs("", line);
    assert "" + line == line && line[0..] == line;
    TrimRightIs(t, c);
    assert line[|t|..] == c;
  }

  /** Any line that is listed with the value is missed with a line terminator behind it. */
  lemma BehindTerminator(t: string, c: string, value: string, placeholder: string)
    requires t != "" && !IsSpace(t[0]) && !IsSpace(t[|t| - 1]) && Spaces(c) && !OneLine(c)
    requires ExtractTrimmed(t).Some? && ExtractTrimmed(t).value.value == value
    ensures Missed(t + c, value) && RewriteLine(t + c, value, placeholder).None?
  {
    TrimBehind(t, c);
    RewriteCases(t + c, value, placeholder);
  }

  lemma BareX()
    ensures Unquoted("x") == "x"
  {
    TrimIs("", "x", "");
    assert "" + "x" + "" == "x";
  }

  lemma ListedA(t: string)
    requires t == "A" + ("=" + "x")
    ensures ExtractTrimmed(t) == Some(Pair("A", "x"))
  {
    EnvLineOfA("x");
    NotBoth(t);
    ExtractOfParts(t);
    BareX();
  }

  /** One line A=x that ends in a carriage return: it is listed and not replaced. */
  lemma CarriageReturnMissed(t: string)
    requires t == "A=x"
    ensures Missed(t + "\r", "x") && RewriteLine(t + "\r", "x", "${A}").None?
  {
    assert "A" + ("=" + "x") == "A=x";
    ListedA(t);
    assert IsLineEnd("\r"[0]);
    BehindTerminator(t, "\r", "x", "${A}");
  }
}
