/** `extractReferencedKeys` and `buildScanContent` of src/lib/key-usage-extraction.ts. */
module KeyUsage {
  import opened ConfigScan
  import opened ConfigScanLines
  import opened Text
  import opened Wrappers

  // ---------------------------------------------------------------- the four patterns

  /** ${KEY}, $KEY, {{KEY}}, and KEY= at the start of a line. */
  datatype Pattern = Braced | Dollar | Mustache | EnvLine

  predicate CharAt(s: string, i: nat, c: char) { i < |s| && s[i] == c }

  /** Where the key of a match at `i` starts, if what must precede it is there. */
  function KeyFrom(s: string, pattern: Pattern, i: nat): Option<nat>
    requires i <= |s|
    ensures KeyFrom(s, pattern, i).Some? ==> i <= KeyFrom(s, pattern, i).value <= |s|
  {
    match pattern
    case Braced => if CharAt(s, i, '$') && CharAt(s, i + 1, '{') then Some(i + 2) else None
    case Dollar => if CharAt(s, i, '$') then Some(i + 1) else None
    case Mustache => if CharAt(s, i, '{') && CharAt(s, i + 1, '{') then Some(i + 2) else None
    case EnvLine => if i == 0 || IsLineEnd(s[i - 1]) then Some(i) else None
  }

  /** The end of a match whose key ends at `j`, if what must follow is there. */
  function MatchEnd(s: string, pattern: Pattern, j: nat): Option<nat> {
    match pattern
    case Braced => if CharAt(s, j, '}') then Some(j + 1) else None
    case Dollar => Some(j)
    case Mustache => if CharAt(s, j, '}') && CharAt(s, j + 1, '}') then Some(j + 2) else None
    case EnvLine => if CharAt(s, j, '=') then Some(j + 1) else None
  }

  /** The key that starts at `from`, as long as it can be, and the end of the match. */
  function MatchFrom(s: string, pattern: Pattern, from: nat): Option<(string, nat)>
    requires from <= |s|
  {
    var k := KeyLength(s[from..], true);
    var end := MatchEnd(s, pattern, from + k);
    if k == 0 || end.None? then None else Some((s[from..from + k], end.value))
  }

  /** The match of `pattern` at `i`. The patterns leave no way to match a shorter key. */
  function MatchAt(s: string, pattern: Pattern, i: nat): Option<(string, nat)>
    requires i <= |s|
  {
    var from := KeyFrom(s, pattern, i);
    if from.None? then None else MatchFrom(s, pattern, from.value)
  }

  predicate KeyAt(s: string, pattern: Pattern, i: nat, key: string) {
    i <= |s| && MatchAt(s, pattern, i).Some? && MatchAt(s, pattern, i).value.0 == key
  }

  ghost predicate Matched(s: string, pattern: Pattern, key: string) {
    exists i :: KeyAt(s, pattern, i, key)
  }

  /** `s` refers to `key` somewhere in one of the four ways. */
  ghost predicate Refers(s: string, key: string) {
    exists pattern, i :: KeyAt(s, pattern, i, key)
  }

  // ---------------------------------------------------------------- matchAll

  lemma MatchShape(s: string, pattern: Pattern, i: nat)
    requires i <= |s| && MatchAt(s, pattern, i).Some?
    ensures
      var from := KeyFrom(s, pattern, i).value;
      var (key, end) := MatchAt(s, pattern, i).value;
      && i < from + |key| <= end <= |s| && key == s[from..from + |key|] && IsKey(key, true)
  {
    var from := KeyFrom(s, pattern, i).value;
    PartRunMaximal(s[from..], true);
  }

  /** Nothing that can precede a key stands inside a key, or between it and what follows. */
  lemma NoStartInside(s: string, pattern: Pattern, i: nat, k: nat, j: nat)
    requires i <= |s| && KeyFrom(s, pattern, i).Some? && k > 0
    requires
      var from := KeyFrom(s, pattern, i).value;
      && from + k <= |s| && (forall n :: from <= n < from + k ==> KeyPart(s[n], true))
      && MatchEnd(s, pattern, from + k).Some? && i < j < MatchEnd(s, pattern, from + k).value
    ensures j <= |s| && KeyFrom(s, pattern, j).None?
  {
    var from := KeyFrom(s, pattern, i).value;
    assert KeyPart(s[from], true);
    match pattern {
      case Braced =>
      case Dollar =>
      case Mustache =>
      case EnvLine => assert KeyPart(s[j - 1], true);
    }
  }

  /** No other match of a pattern starts inside one. */
  lemma MatchesApart(s: string, pattern: Pattern, i: nat, j: nat)
    requires i <= |s| && MatchAt(s, pattern, i).Some? && i < j < MatchAt(s, pattern, i).value.1
    ensures j <= |s| && MatchAt(s, pattern, j).None?
  {
    var from := KeyFrom(s, pattern, i).value;
    var k := KeyLength(s[from..], true);
    PartRunMaximal(s[from..], true);
    forall n | from <= n < from + k ensures KeyPart(s[n], true) { assert s[n] == s[from..][n - from]; }
    NoStartInside(s, pattern, i, k, j);
  }

  ghost predicate MatchedBefore(s: string, pattern: Pattern, i: nat, key: string) {
    exists j :: 0 <= j < i && KeyAt(s, pattern, j, key)
  }

  lemma TakeMatch(s: string, pattern: Pattern, i: nat, key: string)
    requires i <= |s| && MatchAt(s, pattern, i).Some?
    ensures
      var (found, end) := MatchAt(s, pattern, i).value;
      i < end <= |s| && (MatchedBefore(s, pattern, end, key) <==> MatchedBefore(s, pattern, i, key) || key == found)
  {
    MatchShape(s, pattern, i);
    var (found, end) := MatchAt(s, pattern, i).value;
    assert KeyAt(s, pattern, i, found);
    forall j | i < j < end ensures !KeyAt(s, pattern, j, key) { MatchesApart(s, pattern, i, j); }
  }

  lemma SkipNoMatch(s: string, pattern: Pattern, i: nat, key: string)
    requires i <= |s| && MatchAt(s, pattern, i).None?
    ensures MatchedBefore(s, pattern, i + 1, key) <==> MatchedBefore(s, pattern, i, key)
  {
  }

  /** content.matchAll(regex): the matches from left to right, none overlapping another. */
  method MatchAll(s: string, pattern: Pattern) returns (keys: set<string>)
    ensures forall key :: key in keys <==> Matched(s, pattern, key)
  {
    keys := {};
    var i := 0;
    while i <= |s|
      invariant i <= |s| + 1
      invariant forall key :: key in keys <==> MatchedBefore(s, pattern, i, key)
    {
      var m := MatchAt(s, pattern, i);
      if m.Some? {
        forall key { TakeMatch(s, pattern, i, key); }
        keys := keys + {m.value.0};
        i := if m.value.1 > i then m.value.1 else i + 1;
      } else {
        forall key { SkipNoMatch(s, pattern, i, key); }
        i := i + 1;
      }
    }
    forall key ensures key in keys <==> Matched(s, pattern, key) { AllBefore(s, pattern, i, key); }
  }

  lemma AllBefore(s: string, pattern: Pattern, i: nat, key: string)
    requires i > |s|
    ensures MatchedBefore(s, pattern, i, key) <==> Matched(s, pattern, key)
  {
  }

  method ExtractReferencedKeys(content: string) returns (keys: set<string>)
    ensures forall key :: key in keys <==> Refers(content, key)
    ensures forall key :: key in keys ==> UpperName(key)
  {
    var braced := MatchAll(content, Braced);
    var dollar := MatchAll(content, Dollar);
    var mustache := MatchAll(content, Mustache);
    var envLine := MatchAll(content, EnvLine);
    keys := Validated(braced + dollar + mustache + envLine);
    FoundIsReferred(content, braced, dollar, mustache, envLine);
    ValidationKeepsAll(content, braced + dollar + mustache + envLine);
    forall key | key in keys ensures UpperName(key) {
      ReferredIsKey(content, key);
      NameIsKey(key);
    }
  }

  /** The final pass over the set: only keys that match ^[A-Z][A-Z0-9_]*$ stay. */
  function Validated(found: set<string>): set<string> {
    set key | key in found && key != "" && KeyLength(key, true) == |key|
  }

  /** What the patterns capture is a valid key: the final validation drops nothing. */
  lemma ReferredIsKey(s: string, key: string)
    requires Refers(s, key)
    ensures IsKey(key, true) && KeyLength(key, true) == |key|
  {
    var pattern, i: nat :| KeyAt(s, pattern, i, key);
    MatchShape(s, pattern, i);
    PartRunIs(key, "", true);
    assert key + "" == key;
  }

  lemma ValidationKeepsAll(s: string, found: set<string>)
    requires forall key :: key in found ==> Refers(s, key)
    ensures Validated(found) == found
  {
    forall key | key in found ensures key in Validated(found) { ReferredIsKey(s, key); }
  }

  lemma FoundIsReferred(s: string, braced: set<string>, dollar: set<string>, mustache: set<string>,
    envLine: set<string>)
    requires forall key :: key in braced <==> Matched(s, Braced, key)
    requires forall key :: key in dollar <==> Matched(s, Dollar, key)
    requires forall key :: key in mustache <==> Matched(s, Mustache, key)
    requires forall key :: key in envLine <==> Matched(s, EnvLine, key)
    ensures forall key :: key in braced + dollar + mustache + envLine <==> Refers(s, key)
  {
    forall key ensures key in braced + dollar + mustache + envLine <==> Refers(s, key) { OneOfFour(s, key); }
  }

  lemma OneOfFour(s: string, key: string)
    ensures Refers(s, key) <==>
      || Matched(s, Braced, key) || Matched(s, Dollar, key)
      || Matched(s, Mustache, key) || Matched(s, EnvLine, key)
  {
    if pattern, i: nat :| KeyAt(s, pattern, i, key) {
      assert Matched(s, pattern, key);
    }
  }

  // ---------------------------------------------------------------- line by line

  /** A character that can be no part of a match, save as the line end before a KEY=. */
  predicate Inert(e: char) {
    !KeyPart(e, true) && e != '$' && e != '{' && e != '}' && e != '='
  }

  lemma KeyFromLeft(a: string, e: char, b: string, pattern: Pattern, i: nat)
    requires Inert(e) && i <= |a|
    ensures KeyFrom(a + [e] + b, pattern, i) == KeyFrom(a, pattern, i)
  {
  }

  lemma MatchEndLeft(a: string, e: char, b: string, pattern: Pattern, j: nat)
    requires Inert(e) && j <= |a|
    ensures MatchEnd(a + [e] + b, pattern, j) == MatchEnd(a, pattern, j)
  {
  }

  lemma MatchFromLeft(a: string, e: char, b: string, pattern: Pattern, from: nat)
    requires Inert(e) && from <= |a|
    ensures MatchFrom(a + [e] + b, pattern, from) == MatchFrom(a, pattern, from)
  {
    var s := a + [e] + b;
    assert s[from..] == a[from..] + ([e] + b);
    KeyLengthAppend(a[from..], [e] + b, true);
    var j := from + KeyLength(a[from..], true);
    MatchEndLeft(a, e, b, pattern, j);
    assert s[from..j] == a[from..j];
  }

  lemma MatchLeft(a: string, e: char, b: string, pattern: Pattern, i: nat)
    requires Inert(e) && i <= |a|
    ensures MatchAt(a + [e] + b, pattern, i) == MatchAt(a, pattern, i)
  {
    KeyFromLeft(a, e, b, pattern, i);
    if KeyFrom(a, pattern, i).Some? {
      MatchFromLeft(a, e, b, pattern, KeyFrom(a, pattern, i).value);
    }
  }

  lemma KeyFromRight(a: string, e: char, b: string, pattern: Pattern, i: nat)
    requires i <= |b| && (pattern.EnvLine? && i == 0 ==> IsLineEnd(e))
    ensures
      var f, f' := KeyFrom(b, pattern, i), KeyFrom(a + [e] + b, pattern, |a| + 1 + i);
      f'.Some? == f.Some? && (f.Some? ==> f'.value == |a| + 1 + f.value)
  {
    var s, off := a + [e] + b, |a| + 1;
    assert s[off..] == b && s[|a|] == e;
    assert forall n :: 0 <= n < |b| ==> s[off + n] == b[n];
  }

  lemma MatchEndRight(a: string, e: char, b: string, pattern: Pattern, j: nat)
    ensures MatchEnd(a + [e] + b, pattern, |a| + 1 + j).Some? == MatchEnd(b, pattern, j).Some?
  {
    var s, off := a + [e] + b, |a| + 1;
    assert forall n :: 0 <= n < |b| ==> s[off + n] == b[n];
  }

  lemma RightSlice(a: string, e: char, b: string, from: nat, to: nat)
    requires from <= to <= |b|
    ensures
      var s, off := a + [e] + b, |a| + 1;
      s[off + from..] == b[from..] && s[off + from..off + to] == b[from..to]
  {
  }

  lemma MatchFromRight(a: string, e: char, b: string, pattern: Pattern, from: nat)
    requires from <= |b|
    ensures
      var m, m' := MatchFrom(b, pattern, from), MatchFrom(a + [e] + b, pattern, |a| + 1 + from);
      m'.Some? == m.Some? && (m.Some? ==> m'.value.0 == m.value.0)
  {
    var k := KeyLength(b[from..], true);
    RightSlice(a, e, b, from, from + k);
    MatchEndRight(a, e, b, pattern, from + k);
  }

  lemma MatchRight(a: string, e: char, b: string, pattern: Pattern, i: nat)
    requires i <= |b| && (pattern.EnvLine? && i == 0 ==> IsLineEnd(e))
    ensures
      var m, m' := MatchAt(b, pattern, i), MatchAt(a + [e] + b, pattern, |a| + 1 + i);
      m'.Some? == m.Some? && (m.Some? ==> m'.value.0 == m.value.0)
  {
    KeyFromRight(a, e, b, pattern, i);
    if KeyFrom(b, pattern, i).Some? {
      MatchFromRight(a, e, b, pattern, KeyFrom(b, pattern, i).value);
    }
  }

  /** Nothing is referred to across a line end, and nothing is lost at one. */
  lemma RefersAcross(a: string, e: char, b: string, key: string)
    requires IsLineEnd(e)
    ensures Refers(a + [e] + b, key) <==> Refers(a, key) || Refers(b, key)
  {
    var s := a + [e] + b;
    if pattern, i: nat :| KeyAt(s, pattern, i, key) {
      if i <= |a| {
        MatchLeft(a, e, b, pattern, i);
        assert KeyAt(a, pattern, i, key);
      } else {
        MatchRight(a, e, b, pattern, i - |a| - 1);
        assert KeyAt(b, pattern, i - |a| - 1, key);
      }
    }
    if pattern, i: nat :| KeyAt(a, pattern, i, key) {
      MatchLeft(a, e, b, pattern, i);
      assert KeyAt(s, pattern, i, key);
    }
    if pattern, i: nat :| KeyAt(b, pattern, i, key) {
      MatchRight(a, e, b, pattern, i);
      assert KeyAt(s, pattern, |a| + 1 + i, key);
    }
  }

  lemma RefersEmpty(key: string)
    ensures !Refers("", key)
  {
    if pattern, i: nat :| KeyAt("", pattern, i, key) {
      MatchShape("", pattern, i);
    }
  }

  ghost predicate RefersAny(parts: seq<string>, key: string) {
    exists i :: 0 <= i < |parts| && Refers(parts[i], key)
  }

  lemma RefersAnyCons(parts: seq<string>, key: string)
    requires parts != []
    ensures RefersAny(parts, key) <==> Refers(parts[0], key) || RefersAny(parts[1..], key)
  {
    if i :| 0 <= i < |parts[1..]| && Refers(parts[1..][i], key) {
      assert Refers(parts[i + 1], key);
    }
    if i :| 1 <= i < |parts| && Refers(parts[i], key) {
      assert Refers(parts[1..][i - 1], key);
    }
  }

  lemma RefersAcrossGlue(a: string, glue: string, b: string, key: string)
    requires glue == "\n" || glue == "\n\n"
    ensures Refers(a + glue + b, key) <==> Refers(a, key) || Refers(b, key)
  {
    if glue == "\n" {
      RefersAcross(a, '\n', b, key);
    } else {
      RefersEmpty(key);
      RefersAcross("", '\n', b, key);
      RefersAcross(a, '\n', "" + ['\n'] + b, key);
      assert a + ['\n'] + ("" + ['\n'] + b) == a + glue + b;
    }
  }

  /** Joined by one or two line feeds, parts refer to what they refer to one by one. */
  lemma {:induction false} RefersJoined(parts: seq<string>, glue: string, key: string)
    requires glue == "\n" || glue == "\n\n"
    ensures Refers(Join(parts, glue), key) <==> RefersAny(parts, key)
  {
    if parts == [] {
      RefersEmpty(key);
    } else {
      RefersAnyCons(parts, key);
      if |parts| > 1 {
        RefersJoined(parts[1..], glue, key);
        RefersAcrossGlue(parts[0], glue, Join(parts[1..], glue), key);
      }
    }
  }

  // ---------------------------------------------------------------- scan content

  function BuildScanContent(fragments: seq<string>, own: string): string {
    var fragmentContent := Join(fragments, "\n");
    if fragmentContent == "" then own else fragmentContent + "\n" + own
  }

  /** The scan blob refers to exactly the keys of the fragments and of the own content. */
  lemma ScanContentKeys(fragments: seq<string>, own: string, key: string)
    ensures Refers(BuildScanContent(fragments, own), key) <==> RefersAny(fragments, key) || Refers(own, key)
  {
    RefersJoined(fragments, "\n", key);
    RefersEmpty(key);
    RefersAcross(Join(fragments, "\n"), '\n', own, key);
  }
}
