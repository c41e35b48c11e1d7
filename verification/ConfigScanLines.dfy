/** Which lines the parsers of src/lib/config-scan-parsing.ts take for key/value pairs, with the
    characters of a key written out. */
module ConfigScanLines {
  import opened Concat
  import opened ConfigScan
  import opened Wrappers

  // ---------------------------------------------------------------- keys

  /** [A-Za-z_][A-Za-z0-9_]* */
  predicate EnvName(k: string) {
    && k != "" && ('A' <= k[0] <= 'Z' || 'a' <= k[0] <= 'z' || k[0] == '_')
    && forall i :: 0 <= i < |k| ==>
         'A' <= k[i] <= 'Z' || 'a' <= k[i] <= 'z' || '0' <= k[i] <= '9' || k[i] == '_'
  }

  /** [A-Z][A-Z0-9_]* */
  predicate UpperName(k: string) {
    && k != "" && 'A' <= k[0] <= 'Z'
    && forall i :: 0 <= i < |k| ==> 'A' <= k[i] <= 'Z' || '0' <= k[i] <= '9' || k[i] == '_'
  }

  lemma NameIsKey(k: string)
    ensures IsKey(k, false) <==> EnvName(k)
    ensures IsKey(k, true) <==> UpperName(k)
  {
  }

  // ---------------------------------------------------------------- listed lines

  /** Trimmed, on one line, and not in quotes. */
  predicate Plain(v: string) {
    v != "" && OneLine(v) && !IsSpace(v[0]) && !IsSpace(v[|v| - 1]) && !InQuotes(v)
  }

  lemma EnvStart(t: string)
    requires EnvParts(t).Some?
    ensures
      var k := EnvParts(t).value.key;
      |k| < |t| && t[..|k|] == k && t[|k|] == '=' && EnvName(k)
  {
    PartRunMaximal(t, false);
    assert forall i :: 0 <= i < KeyLength(t, false) ==> KeyPart(t[i], false);
  }

  lemma YamlStart(t: string)
    requires YamlParts(t).Some?
    ensures
      var k := YamlParts(t).value.key;
      |k| < |t| && t[..|k|] == k && t[|k|] == ':' && UpperName(k)
  {
    PartRunMaximal(t, true);
    assert forall i :: 0 <= i < KeyLength(t, true) ==> KeyPart(t[i], true);
  }

  /** A listed line starts with its key, and the character behind it says which pattern it is. */
  lemma ListedStart(t: string)
    requires ExtractTrimmed(t).Some?
    ensures
      var k := ExtractTrimmed(t).value.key;
      && |k| < |t| && t[..|k|] == k
      && ((t[|k|] == '=' && EnvName(k)) || (t[|k|] == ':' && UpperName(k)))
  {
    if EnvMatch(t).Some? { EnvStart(t); } else { YamlStart(t); }
  }

  lemma NoneInFront(a: string, rest: string, line: string)
    requires line == a + rest && Spaces(a) && line != "" && !IsSpace(line[0])
    ensures a == ""
  {
  }

  lemma TrimmedStart(line: string, k: string)
    requires k != "" && k <= line && |k| <= |Trim(line)| && Trim(line)[..|k|] == k
    ensures forall i :: 0 <= i < |Trim(line)| ==> line[i] == Trim(line)[i]
  {
    var a, c := TrimParts(line);
    assert line[0] == k[0] == Trim(line)[0];
    Assoc(a, Trim(line), c);
    NoneInFront(a, Trim(line) + c, line);
    assert a + Trim(line) + c == Trim(line) + c;
  }

  /** The key a line is listed with is what stands in front of its separator. */
  lemma ListedAsIs(k: string, sep: char, rest: string, v: string)
    requires ExtractLine(k + [sep] + rest) == Some(Pair(k, v)) && k != ""
    ensures if sep == '=' then EnvName(k) else sep == ':' && UpperName(k)
  {
    var line := k + [sep] + rest;
    ListedStart(Trim(line));
    TrimmedStart(line, k);
    assert line[|k|] == sep;
  }

  lemma AlreadyTrimmed(t: string)
    requires t != "" && !IsSpace(t[0]) && !IsSpace(t[|t| - 1])
    ensures Trim(t) == t
  {
    TrimIs("", t, "");
    assert "" + t + "" == t;
  }

  lemma EnvPartsOf(k: string, rhs: string)
    requires EnvName(k) && OneLine(rhs)
    ensures EnvParts(k + "=" + rhs) == Some(Parts(k, "=", rhs))
  {
    var line := k + "=" + rhs;
    NameIsKey(k);
    KeyLengthIs(k, "=" + rhs, false);
    assert k + ("=" + rhs) == line;
    assert line[..|k|] == k && line[|k| + 1..] == rhs;
  }

  lemma YamlPartsOf(k: string, rhs: string)
    requires UpperName(k) && OneLine(rhs) && rhs != "" && !IsSpace(rhs[0])
    ensures YamlParts(k + ": " + rhs) == Some(Parts(k, ": ", rhs)) && EnvParts(k + ": " + rhs) == None
  {
    var line := k + ": " + rhs;
    NameIsKey(k);
    KeyLengthIs(k, ": " + rhs, true);
    KeyLengthIs(k, ": " + rhs, false);
    assert k + (": " + rhs) == line;
    assert line[..|k|] == k && line[|k| + 1..] == " " + rhs;
    SpaceRunIs(" ", rhs);
    assert (" " + rhs)[1..] == rhs && (" " + rhs)[..1] == " " && ":" + " " == ": ";
  }

  lemma NoComment(k: string, rest: string)
    requires EnvName(k)
    ensures k + rest != "" && (k + rest)[0] == k[0] != '#' && !("//" <= k + rest) && !IsSpace(k[0])
  {
  }

  /** A line without white space at its ends lists what its pattern takes it apart into. */
  lemma ListedBy(line: string, p: Parts, v: string)
    requires line != "" && line[0] != '#' && !("//" <= line) && !IsSpace(line[0]) && !IsSpace(line[|line| - 1])
    requires EnvParts(line) == Some(p) || (EnvParts(line) == None && YamlParts(line) == Some(p))
    requires p.rhs != "" && Unquoted(p.rhs) == v && v != ""
    ensures ExtractLine(line) == Some(Pair(p.key, v))
  {
    AlreadyTrimmed(line);
  }

  lemma PlainUnquoted(v: string)
    requires Plain(v)
    ensures Unquoted(v) == v
  {
    AlreadyTrimmed(v);
  }

  lemma QuotedUnquoted(q: char, v: string)
    requires q == '"' || q == '\''
    ensures Unquoted([q] + v + [q]) == v
  {
    var rhs := [q] + v + [q];
    AlreadyTrimmed(rhs);
    assert rhs[0] == q == rhs[|rhs| - 1] && rhs[1..|rhs| - 1] == v;
  }

  lemma Ends(k: string, sep: string, rhs: string)
    requires k != "" && rhs != ""
    ensures
      var line := k + sep + rhs;
      line == k + (sep + rhs) && line[0] == k[0] && line[|line| - 1] == rhs[|rhs| - 1]
  {
  }

  lemma EnvListed(k: string, rhs: string, v: string)
    requires EnvName(k) && rhs != "" && OneLine(rhs) && !IsSpace(rhs[|rhs| - 1]) && Unquoted(rhs) == v && v != ""
    ensures ExtractLine(k + "=" + rhs) == Some(Pair(k, v))
  {
    NoComment(k, "=" + rhs);
    Ends(k, "=", rhs);
    EnvPartsOf(k, rhs);
    ListedBy(k + "=" + rhs, Parts(k, "=", rhs), v);
  }

  lemma YamlListed(k: string, v: string)
    requires UpperName(k) && Plain(v)
    ensures ExtractLine(k + ": " + v) == Some(Pair(k, v))
  {
    NoComment(k, ": " + v);
    Ends(k, ": ", v);
    YamlPartsOf(k, v);
    PlainUnquoted(v);
    ListedBy(k + ": " + v, Parts(k, ": ", v), v);
  }

  lemma NamelessUnlisted(line: string, v: string)
    ensures ExtractLine(line) != Some(Pair("", v))
  {
    if ExtractLine(line).Some? { ListedStart(Trim(line)); }
  }

  /** One plain value behind the equals sign is listed under what stands in front of it exactly
      when that is letters, digits and underscores, not starting with a digit. */
  lemma EnvListedExactly(k: string, v: string)
    requires Plain(v)
    ensures ExtractLine(k + "=" + v) == Some(Pair(k, v)) <==> EnvName(k)
  {
    if EnvName(k) {
      PlainUnquoted(v);
      EnvListed(k, v, v);
    } else if k == "" {
      NamelessUnlisted(k + "=" + v, v);
    } else if ExtractLine(k + "=" + v) == Some(Pair(k, v)) {
      ListedAsIs(k, '=', v, v);
    }
  }

  /** Behind a colon it is listed exactly when that is upper-case letters, digits and
      underscores, starting with a letter. */
  lemma YamlListedExactly(k: string, v: string)
    requires Plain(v)
    ensures ExtractLine(k + ": " + v) == Some(Pair(k, v)) <==> UpperName(k)
  {
    if UpperName(k) {
      YamlListed(k, v);
    } else if k == "" {
      NamelessUnlisted(k + ": " + v, v);
    } else {
      ColonBlank(k, v);
      if ExtractLine(k + [':'] + (" " + v)) == Some(Pair(k, v)) { ListedAsIs(k, ':', " " + v, v); }
    }
  }

  lemma ColonBlank(k: string, v: string)
    ensures k + ": " + v == k + [':'] + (" " + v)
  {
  }

  /** In quotes any text on one line is listed as it is, without them. */
  lemma QuotedListed(k: string, q: char, v: string)
    requires EnvName(k) && v != "" && OneLine(v) && (q == '"' || q == '\'')
    ensures ExtractLine(k + "=" + ([q] + v + [q])) == Some(Pair(k, v))
  {
    OneLineOfBoth([q] + v, [q]);
    OneLineOfBoth([q], v);
    QuotedUnquoted(q, v);
    EnvListed(k, [q] + v + [q], v);
  }

  lemma RewrittenBy(line: string, p: Parts, v: string, placeholder: string)
    requires line != "" && !IsSpace(line[0])
    requires EnvParts(line) == Some(p) || (EnvParts(line) == None && YamlParts(line) == Some(p))
    requires p.rhs == v && Plain(v)
    ensures RewriteLine(line, v, placeholder) == Some(p.key + p.sep + placeholder)
  {
    assert SpaceRun(line) == 0 && line[0..] == line;
    AlreadyTrimmed(v);
    assert "" + placeholder + "" == placeholder;
    assert line[..0] + (p.key + p.sep + placeholder) == p.key + p.sep + placeholder;
  }

  /** The same lines are the ones in which the value is replaced, with key and separator kept. */
  lemma PlainRewritten(k: string, v: string, placeholder: string)
    requires Plain(v)
    ensures EnvName(k) ==> RewriteLine(k + "=" + v, v, placeholder) == Some(k + "=" + placeholder)
    ensures UpperName(k) ==> RewriteLine(k + ": " + v, v, placeholder) == Some(k + ": " + placeholder)
  {
    if EnvName(k) {
      Ends(k, "=", v);
      EnvPartsOf(k, v);
      RewrittenBy(k + "=" + v, Parts(k, "=", v), v, placeholder);
    }
    if UpperName(k) {
      Ends(k, ": ", v);
      YamlPartsOf(k, v);
      RewrittenBy(k + ": " + v, Parts(k, ": ", v), v, placeholder);
    }
  }

  predicate Blank(s: string) {
    forall i :: 0 <= i < |s| ==> s[i] == ' ' || s[i] == '\t' || s[i] == '\r'
  }

  /** Blanks, tabs and carriage returns around a line make no difference to what it lists. */
  lemma IndentedAlike(a: string, line: string, c: string)
    requires Blank(a) && Blank(c)
    ensures ExtractLine(a + line + c) == ExtractLine(line)
  {
    var b, d := TrimParts(line);
    var t := Trim(line);
    if t == "" {
      assert line == d;
      OnlySpaces(a, line);
      OnlySpaces(a + line, c);
      UnquotedSpaces(a + line + c);
    } else {
      OnlySpaces(a, b);
      OnlySpaces(d, c);
      TrimIs(a + b, t, d + c);
      Around(a, b, t, d, c);
    }
  }

  lemma Around(a: string, b: string, t: string, d: string, c: string)
    ensures a + (b + t + d) + c == (a + b) + t + (d + c)
  {
  }

  // ---------------------------------------------------------------- attributes

  /** A key such as `restart` or `depends_on`, as compose files have them. */
  predicate AttributeName(k: string) {
    && k != "" && 'a' <= k[0] <= 'z'
    && forall i :: 0 <= i < |k| ==>
         'A' <= k[i] <= 'Z' || 'a' <= k[i] <= 'z' || '0' <= k[i] <= '9' || k[i] == '_' || k[i] == '-' || k[i] == '.'
  }

  lemma AttributeParts(k: string, rest: string)
    requires AttributeName(k)
    ensures EnvParts(k + ":" + rest).None? && YamlParts(k + ":" + rest).None?
  {
    var t := k + ":" + rest;
    var n := KeyLength(t, false);
    PartRunMaximal(t, false);
    assert t[|k|] == ':' && forall i :: 0 <= i < |k| ==> t[i] == k[i];
    assert !KeyPart(t[|k|], false) && forall i :: 0 <= i < n ==> KeyPart(t[i], false);
  }

  /** A line with such a key and a colon is neither listed nor rewritten, whatever follows. */
  lemma AttributeIgnored(k: string, rest: string, value: string, placeholder: string)
    requires AttributeName(k)
    ensures ExtractLine(k + ":" + rest) == None && RewriteLine(k + ":" + rest, value, placeholder) == None
  {
    var line := k + ":" + rest;
    SpaceRunIs("", line);
    assert "" + line == line && line[0..] == line;
    AttributeParts(k, rest);
    ParsersAgree(line);
    if !OneLine(Tail(line)) {
      AttributeTrimmed(k, rest);
    }
  }

  lemma CutBehind(k: string, rest: string, c: string)
    requires c <= rest
    ensures k + ":" + rest == "" + (k + ":" + c) + rest[|c|..]
  {
  }

  lemma AttributeTrimmed(k: string, rest: string)
    requires AttributeName(k)
    ensures ExtractLine(k + ":" + rest) == None
  {
    var line := k + ":" + rest;
    var c := TrimRight(rest);
    TrimRightMaximal(rest);
    CutBehind(k, rest, c);
    TrimIs("", k + ":" + c, rest[|c|..]);
    AttributeParts(k, c);
  }

  /** The line that the restriction of colon keys is there for. */
  lemma RestartIgnored(line: string, value: string, placeholder: string)
    requires line == "restart: unless-stopped"
    ensures ExtractLine(line) == None && RewriteLine(line, value, placeholder) == None
  {
    var k, rest := line[..7], line[8..];
    assert line[7] == ':' && line == k + ":" + rest;
    AttributeIgnored(k, rest, value, placeholder);
  }
}
