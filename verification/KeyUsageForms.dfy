/** The four forms of a reference in src/lib/key-usage-extraction.ts, written out. */
module KeyUsageForms {
  import opened ConfigScan
  import opened ConfigScanLines
  import opened KeyUsage
  import opened Wrappers

  predicate WordChar(c: char) { 'A' <= c <= 'Z' || '0' <= c <= '9' || c == '_' }

  /** `s` is `a`, a reference to `key` in one of the four forms, and `b`. */
  predicate InForm(s: string, pattern: Pattern, key: string, a: string, b: string) {
    match pattern
    case Braced => s == a + ("${" + key + "}" + b)
    case Dollar => s == a + ("$" + key + b) && (b == "" || !WordChar(b[0]))
    case Mustache => s == a + ("{{" + key + "}}" + b)
    case EnvLine => s == a + (key + "=" + b) && (a == "" || IsLineEnd(a[|a| - 1]))
  }

  ghost predicate Written(s: string, key: string) {
    exists pattern, a, b :: InForm(s, pattern, key, a, b)
  }

  // ---------------------------------------------------------------- what is written is found

  lemma MatchOf(s: string, pattern: Pattern, i: nat, from: nat, key: string, rest: string)
    requires i <= from <= |s| && KeyFrom(s, pattern, i) == Some(from) && s[from..] == key + rest
    requires UpperName(key) && (rest == "" || !KeyPart(rest[0], true))
    requires MatchEnd(s, pattern, from + |key|).Some?
    ensures KeyAt(s, pattern, i, key)
  {
    NameIsKey(key);
    PartRunIs(key, rest, true);
    assert s[from..from + |key|] == s[from..][..|key|] == key;
  }

  /** A text cut behind `a` and what opens a reference. */
  lemma CutBehind(s: string, a: string, open: string, key: string, rest: string)
    requires s == a + (open + key + rest)
    ensures s[|a| + |open|..] == key + rest
    ensures forall n :: 0 <= n < |open| ==> s[|a| + n] == open[n]
    ensures forall n :: 0 <= n < |rest| ==> s[|a| + |open| + |key| + n] == rest[n]
    ensures |s| == |a| + |open| + |key| + |rest|
  {
  }

  lemma BracedFound(s: string, key: string, a: string, b: string)
    requires UpperName(key) && InForm(s, Braced, key, a, b)
    ensures KeyAt(s, Braced, |a|, key)
  {
    assert "${" + key + "}" + b == "${" + key + ("}" + b);
    CutBehind(s, a, "${", key, "}" + b);
    assert s[|a| + 0] == '$' && s[|a| + 1] == '{' && s[|a| + 2 + |key| + 0] == '}';
    MatchOf(s, Braced, |a|, |a| + 2, key, "}" + b);
  }

  lemma DollarFound(s: string, key: string, a: string, b: string)
    requires UpperName(key) && InForm(s, Dollar, key, a, b)
    ensures KeyAt(s, Dollar, |a|, key)
  {
    CutBehind(s, a, "$", key, b);
    assert s[|a| + 0] == '$';
    MatchOf(s, Dollar, |a|, |a| + 1, key, b);
  }

  lemma MustacheFound(s: string, key: string, a: string, b: string)
    requires UpperName(key) && InForm(s, Mustache, key, a, b)
    ensures KeyAt(s, Mustache, |a|, key)
  {
    assert "{{" + key + "}}" + b == "{{" + key + ("}}" + b);
    CutBehind(s, a, "{{", key, "}}" + b);
    assert s[|a| + 0] == '{' && s[|a| + 1] == '{';
    assert s[|a| + 2 + |key| + 0] == '}' && s[|a| + 2 + |key| + 1] == '}';
    MatchOf(s, Mustache, |a|, |a| + 2, key, "}}" + b);
  }

  lemma BehindLineStart(s: string, a: string, key: string, b: string)
    requires s == a + (key + "=" + b)
    ensures |a| + |key| < |s| && s[|a|..] == key + ("=" + b) && s[|a| + |key|] == '='
    ensures |a| > 0 ==> s[|a| - 1] == a[|a| - 1]
  {
  }

  lemma EnvLineFound(s: string, key: string, a: string, b: string)
    requires UpperName(key) && InForm(s, EnvLine, key, a, b)
    ensures KeyAt(s, EnvLine, |a|, key)
  {
    BehindLineStart(s, a, key, b);
    MatchOf(s, EnvLine, |a|, |a|, key, "=" + b);
  }

  // ---------------------------------------------------------------- what is found is written

  lemma CutAround(s: string, i: nat, from: nat, to: nat, end: nat)
    requires i <= from <= to <= end <= |s|
    ensures s == s[..i] + (s[i..from] + s[from..to] + s[to..end] + s[end..])
  {
  }

  lemma TwoChars(s: string, i: nat)
    requires i + 2 <= |s|
    ensures s[i..i + 2] == [s[i], s[i + 1]]
  {
  }

  lemma BracedWritten(s: string, i: nat, key: string, from: nat, to: nat, end: nat)
    requires i + 2 == from <= to < end == to + 1 <= |s| && s[from..to] == key
    requires s[i] == '$' && s[i + 1] == '{' && s[to] == '}'
    ensures Written(s, key)
  {
    CutAround(s, i, from, to, end);
    TwoChars(s, i);
    assert s[to..end] == "}";
    assert InForm(s, Braced, key, s[..i], s[end..]);
  }

  lemma DollarWritten(s: string, i: nat, key: string, from: nat, to: nat)
    requires i + 1 == from <= to <= |s| && s[from..to] == key && s[i] == '$'
    requires to < |s| ==> !WordChar(s[to])
    ensures Written(s, key)
  {
    CutAround(s, i, from, to, to);
    assert s[i..from] == "$" && s[to..to] == "";
    assert "$" + key + "" == "$" + key;
    assert InForm(s, Dollar, key, s[..i], s[to..]);
  }

  lemma MustacheWritten(s: string, i: nat, key: string, from: nat, to: nat, end: nat)
    requires i + 2 == from <= to < end == to + 2 <= |s| && s[from..to] == key
    requires s[i] == '{' && s[i + 1] == '{' && s[to] == '}' && s[to + 1] == '}'
    ensures Written(s, key)
  {
    CutAround(s, i, from, to, end);
    TwoChars(s, i);
    TwoChars(s, to);
    assert InForm(s, Mustache, key, s[..i], s[end..]);
  }

  lemma EnvLineWritten(s: string, i: nat, key: string, to: nat, end: nat)
    requires i <= to < end == to + 1 <= |s| && s[i..to] == key && s[to] == '='
    requires i == 0 || IsLineEnd(s[i - 1])
    ensures Written(s, key)
  {
    CutAround(s, i, i, to, end);
    assert s[i..i] == "" && s[to..end] == "=";
    assert "" + key == key;
    assert InForm(s, EnvLine, key, s[..i], s[end..]);
  }

  lemma FoundBraced(s: string, i: nat, key: string)
    requires KeyAt(s, Braced, i, key)
    ensures UpperName(key) && Written(s, key)
  {
    var from, end := KeyFrom(s, Braced, i).value, MatchAt(s, Braced, i).value.1;
    MatchShape(s, Braced, i);
    NameIsKey(key);
    BracedWritten(s, i, key, from, from + |key|, end);
  }

  lemma FoundDollar(s: string, i: nat, key: string)
    requires KeyAt(s, Dollar, i, key)
    ensures UpperName(key) && Written(s, key)
  {
    var from := KeyFrom(s, Dollar, i).value;
    MatchShape(s, Dollar, i);
    NameIsKey(key);
    PartRunMaximal(s[from..], true);
    DollarWritten(s, i, key, from, from + |key|);
  }

  lemma FoundMustache(s: string, i: nat, key: string)
    requires KeyAt(s, Mustache, i, key)
    ensures UpperName(key) && Written(s, key)
  {
    var from, end := KeyFrom(s, Mustache, i).value, MatchAt(s, Mustache, i).value.1;
    MatchShape(s, Mustache, i);
    NameIsKey(key);
    MustacheWritten(s, i, key, from, from + |key|, end);
  }

  lemma FoundEnvLine(s: string, i: nat, key: string)
    requires KeyAt(s, EnvLine, i, key)
    ensures UpperName(key) && Written(s, key)
  {
    var from, end := KeyFrom(s, EnvLine, i).value, MatchAt(s, EnvLine, i).value.1;
    MatchShape(s, EnvLine, i);
    NameIsKey(key);
    EnvLineWritten(s, i, key, from + |key|, end);
  }

  /** A content refers to exactly the upper-case names that stand in it in one of the forms. */
  lemma RefersExactly(s: string, key: string)
    ensures Refers(s, key) <==> UpperName(key) && Written(s, key)
  {
    if pattern, i: nat :| KeyAt(s, pattern, i, key) {
      match pattern {
        case Braced => FoundBraced(s, i, key);
        case Dollar => FoundDollar(s, i, key);
        case Mustache => FoundMustache(s, i, key);
        case EnvLine => FoundEnvLine(s, i, key);
      }
    }
    if pattern, a, b :| UpperName(key) && InForm(s, pattern, key, a, b) {
      match pattern {
        case Braced => BracedFound(s, key, a, b);
        case Dollar => DollarFound(s, key, a, b);
        case Mustache => MustacheFound(s, key, a, b);
        case EnvLine => EnvLineFound(s, key, a, b);
      }
    }
  }
}
