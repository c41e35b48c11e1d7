/** `composeFragmentedContent` of src/lib/config-fragments.ts, and how the usage index agrees
    with the content it renders. */
module ConfigFragments {
  import opened Concat
  import opened ConfigScan
  import opened KeyUsage
  import opened Text
  import opened Wrappers

  // ---------------------------------------------------------------- rendered content

  datatype Fragment = Fragment(name: string, content: string)

  function LowerAscii(s: string): string {
    seq(|s|, i requires 0 <= i < |s| => if 'A' <= s[i] <= 'Z' then (s[i] as int + 32) as char else s[i])
  }

  /** Only json, xml and html lack `#` comments; an unknown language counts as having them. */
  predicate LanguageSupportsHashHeaders(language: Option<string>) {
    language.None? || language.value == "" || LowerAscii(language.value) !in {"json", "xml", "html"}
  }

  function HeaderLine(name: string): string { "# === fragment: " + name + " ===" }

  const OWN_HEADER := "# === service-specific ==="

  function Section(header: string, content: string, useHeaders: bool): string {
    if useHeaders then header + "\n" + content else content
  }

  function Sections(fragments: seq<Fragment>, useHeaders: bool): seq<string> {
    seq(|fragments|, i requires 0 <= i < |fragments| =>
      Section(HeaderLine(fragments[i].name), fragments[i].content, useHeaders))
  }

  function Composed(fragments: seq<Fragment>, own: string, language: Option<string>): string {
    if fragments == [] then own
    else
      var useHeaders := LanguageSupportsHashHeaders(language);
      Join(Sections(fragments, useHeaders) + [Section(OWN_HEADER, own, useHeaders)], "\n\n")
  }

  method ComposeFragmentedContent(fragments: seq<Fragment>, own: string, language: Option<string>)
    returns (content: string)
    ensures content == Composed(fragments, own, language)
  {
    if |fragments| == 0 { return own; }
    var useHeaders := LanguageSupportsHashHeaders(language);
    var sections := [];
    for i := 0 to |fragments|
      invariant |sections| == i
      invariant forall k ::
        0 <= k < i ==> sections[k] == Section(HeaderLine(fragments[k].name), fragments[k].content, useHeaders)
    {
      var header := if useHeaders then "# === fragment: " + fragments[i].name + " ===\n" else "";
      assert useHeaders ==> header == HeaderLine(fragments[i].name) + "\n";
      assert !useHeaders ==> header + fragments[i].content == fragments[i].content;
      sections := sections + [header + fragments[i].content];
    }
    var ownHeader := if useHeaders then "# === service-specific ===\n" else "";
    assert useHeaders ==> ownHeader == OWN_HEADER + "\n";
    assert !useHeaders ==> ownHeader + own == own;
    assert sections == Sections(fragments, useHeaders);
    sections := sections + [ownHeader + own];
    content := Join(sections, "\n\n");
  }

  lemma {:induction false} JoinEnds(parts: seq<string>, last: string, glue: string) returns (front: string)
    ensures Join(parts + [last], glue) == front + last
  {
    if parts == [] {
      front := "";
      assert [] + [last] == [last];
      assert "" + last == last;
    } else {
      assert (parts + [last])[1..] == parts[1..] + [last];
      var rest := JoinEnds(parts[1..], last, glue);
      front := parts[0] + glue + rest;
      assert parts[0] + glue + (rest + last) == parts[0] + glue + rest + last;
    }
  }

  /** The own content comes last, byte for byte, so its definitions win; without fragments it is
      all there is. */
  lemma OwnContentLast(fragments: seq<Fragment>, own: string, language: Option<string>) returns (front: string)
    ensures Composed(fragments, own, language) == front + own
    ensures fragments == [] ==> front == ""
  {
    if fragments == [] {
      front := "";
      assert "" + own == own;
    } else {
      var useHeaders := LanguageSupportsHashHeaders(language);
      front := JoinEnds(Sections(fragments, useHeaders), Section(OWN_HEADER, own, useHeaders), "\n\n");
      if useHeaders {
        assert front + (OWN_HEADER + "\n" + own) == front + (OWN_HEADER + "\n") + own;
        front := front + (OWN_HEADER + "\n");
      }
    }
  }

  /** Equal but for upper-case ASCII letters in `s`. */
  predicate SpelledAs(s: string, t: string) {
    |s| == |t| && forall i :: 0 <= i < |s| ==> s[i] == t[i] || ('A' <= s[i] <= 'Z' && s[i] as int + 32 == t[i] as int)
  }

  predicate NoUpperCase(t: string) {
    forall i :: 0 <= i < |t| ==> !('A' <= t[i] <= 'Z')
  }

  lemma LowerIs(s: string, t: string)
    requires NoUpperCase(t)
    ensures LowerAscii(s) == t <==> SpelledAs(s, t)
  {
    var l := LowerAscii(s);
    if SpelledAs(s, t) {
      forall i | 0 <= i < |s| ensures l[i] == t[i] {}
    }
    if l == t {
      forall i | 0 <= i < |s|
        ensures s[i] == t[i] || ('A' <= s[i] <= 'Z' && s[i] as int + 32 == t[i] as int)
      {
        assert l[i] == t[i];
      }
    }
  }

  /** The languages whose files get no `#` lines, in any spelling. */
  predicate Strict(language: Option<string>) {
    language.Some?
    && (SpelledAs(language.value, "json") || SpelledAs(language.value, "xml") || SpelledAs(language.value, "html"))
  }

  lemma HeadersExactly(language: Option<string>)
    ensures LanguageSupportsHashHeaders(language) <==> !Strict(language)
  {
    if language.Some? {
      LowerIs(language.value, "json");
      LowerIs(language.value, "xml");
      LowerIs(language.value, "html");
    }
  }

  /** What stands in front of a fragment's content, or of the own content. */
  function Heading(text: string, language: Option<string>): string {
    if Strict(language) then "" else "# === " + text + " ===\n"
  }

  lemma SectionIs(header: string, text: string, content: string, language: Option<string>)
    requires header == "# === " + text + " ==="
    ensures Section(header, content, !Strict(language)) == Heading(text, language) + content
  {
    if Strict(language) {
      assert "" + content == content;
    }
  }

  lemma HeaderText(name: string)
    ensures HeaderLine(name) == "# === " + ("fragment: " + name) + " ==="
  {
    assert "# === " + "fragment: " == "# === fragment: ";
    Assoc("# === ", "fragment: ", name);
  }

  lemma OwnHeaderText()
    ensures OWN_HEADER == "# === " + "service-specific" + " ==="
  {
  }

  /** The rendered text, from its front: the first fragment under its header, a blank line, and
      what the others and the own content render to. Headers are left out of json, xml and html. */
  lemma FirstFragmentFirst(fragments: seq<Fragment>, own: string, language: Option<string>)
    requires fragments != []
    ensures Composed(fragments, own, language) ==
      Heading("fragment: " + fragments[0].name, language) + fragments[0].content + "\n\n" +
        if |fragments| > 1 then Composed(fragments[1..], own, language)
        else Heading("service-specific", language) + own
  {
    var useHeaders := LanguageSupportsHashHeaders(language);
    var first := Section(HeaderLine(fragments[0].name), fragments[0].content, useHeaders);
    var last := Section(OWN_HEADER, own, useHeaders);
    HeadersExactly(language);
    HeaderText(fragments[0].name);
    OwnHeaderText();
    SectionIs(HeaderLine(fragments[0].name), "fragment: " + fragments[0].name, fragments[0].content, language);
    SectionIs(OWN_HEADER, "service-specific", own, language);
    assert Sections(fragments, useHeaders) == [first] + Sections(fragments[1..], useHeaders);
    Assoc([first], Sections(fragments[1..], useHeaders), [last]);
    JoinCons(first, Sections(fragments[1..], useHeaders) + [last], "\n\n");
    if |fragments| == 1 {
      assert Sections(fragments[1..], useHeaders) + [last] == [last];
    }
  }

  /** A comment line without `$`, `{` and line ends refers to nothing. */
  lemma CommentRefersNothing(s: string, key: string)
    requires s != "" && s[0] == '#' && '$' !in s && '{' !in s && OneLine(s)
    ensures !Refers(s, key)
  {
    assert forall n :: 0 <= n < |s| ==> s[n] in s;
    if pattern, i: nat :| KeyAt(s, pattern, i, key) {
      MatchShape(s, pattern, i);
    }
  }

  /** What a fragment name refers to inside its header line: its `${KEY}`, `$KEY` and `{{KEY}}`,
      and its KEY= at the start of a line other than the first. */
  ghost predicate NameRefers(name: string, key: string) {
    exists pattern, i :: KeyAt(name, pattern, i, key) && (pattern.EnvLine? ==> i > 0)
  }

  const BEFORE_NAME := "# === fragment:"
  const AFTER_NAME := "==="

  lemma HeaderParts(name: string)
    ensures HeaderLine(name) == BEFORE_NAME + [' '] + (name + [' '] + AFTER_NAME)
  {
    assert BEFORE_NAME + [' '] == "# === fragment: " && [' '] + AFTER_NAME == " ===";
    Assoc(BEFORE_NAME + [' '], name, [' '] + AFTER_NAME);
    assert name + ([' '] + AFTER_NAME) == name + [' '] + AFTER_NAME;
  }

  /** A blank does not start a line. */
  lemma NoLineAfterBlank(a: string, b: string, i: nat)
    requires i == |a| + 1
    ensures MatchAt(a + [' '] + b, EnvLine, i).None?
  {
    assert (a + [' '] + b)[i - 1] == ' ';
  }

  lemma NothingAfterName(pattern: Pattern, i: nat)
    requires i <= |AFTER_NAME|
    ensures MatchAt(AFTER_NAME, pattern, i).None?
  {
    assert forall n :: 0 <= n < |AFTER_NAME| ==> AFTER_NAME[n] == '=';
    if MatchAt(AFTER_NAME, pattern, i).Some? { MatchShape(AFTER_NAME, pattern, i); }
  }

  /** A match in the name and what follows it is a match in the name. */
  lemma MatchInName(name: string, pattern: Pattern, i: nat, key: string)
    requires KeyAt(name + [' '] + AFTER_NAME, pattern, i, key)
    ensures KeyAt(name, pattern, i, key)
  {
    if i <= |name| {
      MatchLeft(name, ' ', AFTER_NAME, pattern, i);
    } else if pattern.EnvLine? && i == |name| + 1 {
      NoLineAfterBlank(name, AFTER_NAME, i);
    } else {
      MatchRight(name, ' ', AFTER_NAME, pattern, i - |name| - 1);
      NothingAfterName(pattern, i - |name| - 1);
    }
  }

  /** Behind a text that refers to nothing and a blank, matches are those of what follows. */
  lemma MatchBehindBlank(a: string, b: string, pattern: Pattern, i: nat, key: string)
    requires KeyAt(a + [' '] + b, pattern, i, key) && !Refers(a, key)
    ensures i > |a| && KeyAt(b, pattern, i - |a| - 1, key) && (pattern.EnvLine? ==> i > |a| + 1)
  {
    if i <= |a| {
      MatchLeft(a, ' ', b, pattern, i);
      assert KeyAt(a, pattern, i, key);
    } else if pattern.EnvLine? && i == |a| + 1 {
      NoLineAfterBlank(a, b, i);
    } else {
      MatchRight(a, ' ', b, pattern, i - |a| - 1);
    }
  }

  lemma NameInHeader(a: string, name: string, b: string, pattern: Pattern, i: nat, key: string)
    requires KeyAt(name, pattern, i, key) && (pattern.EnvLine? ==> i > 0)
    ensures Refers(a + [' '] + (name + [' '] + b), key)
  {
    MatchLeft(name, ' ', b, pattern, i);
    MatchRight(a, ' ', name + [' '] + b, pattern, i);
    assert KeyAt(a + [' '] + (name + [' '] + b), pattern, |a| + 1 + i, key);
  }

  /** A header line refers to exactly what its name refers to. */
  lemma HeaderRefersExactly(name: string, key: string)
    ensures Refers(HeaderLine(name), key) <==> NameRefers(name, key)
  {
    var tail := name + [' '] + AFTER_NAME;
    HeaderParts(name);
    CommentRefersNothing(BEFORE_NAME, key);
    if pattern, i: nat :| KeyAt(BEFORE_NAME + [' '] + tail, pattern, i, key) {
      MatchBehindBlank(BEFORE_NAME, tail, pattern, i, key);
      MatchInName(name, pattern, i - |BEFORE_NAME| - 1, key);
    }
    if pattern, i: nat :| KeyAt(name, pattern, i, key) && (pattern.EnvLine? ==> i > 0) {
      NameInHeader(BEFORE_NAME, name, AFTER_NAME, pattern, i, key);
    }
  }

  /** A name on one line without `$` and `{` refers to nothing. */
  lemma PlainNameRefersNothing(name: string, key: string)
    requires '$' !in name && '{' !in name && OneLine(name)
    ensures !NameRefers(name, key)
  {
    OneLineConcat("# === fragment: ", name);
    OneLineConcat("# === fragment: " + name, " ===");
    CommentRefersNothing(HeaderLine(name), key);
    HeaderRefersExactly(name, key);
  }

  function Contents(fragments: seq<Fragment>): seq<string> {
    seq(|fragments|, i requires 0 <= i < |fragments| => fragments[i].content)
  }

  /** Some header is written whose name refers to the key. */
  ghost predicate HeadersRefer(fragments: seq<Fragment>, language: Option<string>, key: string) {
    LanguageSupportsHashHeaders(language) && exists i :: 0 <= i < |fragments| && NameRefers(fragments[i].name, key)
  }

  lemma SectionKeys(header: string, content: string, useHeaders: bool, key: string)
    ensures Refers(Section(header, content, useHeaders), key) <==>
              (useHeaders && Refers(header, key)) || Refers(content, key)
  {
    RefersAcross(header, '\n', content, key);
  }

  lemma SectionListKeys(fragments: seq<Fragment>, useHeaders: bool, key: string)
    ensures RefersAny(Sections(fragments, useHeaders), key) <==>
              RefersAny(Contents(fragments), key)
              || (useHeaders && exists i :: 0 <= i < |fragments| && Refers(HeaderLine(fragments[i].name), key))
  {
    var sections, contents := Sections(fragments, useHeaders), Contents(fragments);
    forall i | 0 <= i < |fragments|
      ensures Refers(sections[i], key) <==>
        (useHeaders && Refers(HeaderLine(fragments[i].name), key)) || Refers(contents[i], key)
    {
      SectionKeys(HeaderLine(fragments[i].name), fragments[i].content, useHeaders, key);
    }
    if i :| 0 <= i < |contents| && Refers(contents[i], key) { assert Refers(sections[i], key); }
    if i :| 0 <= i < |fragments| && useHeaders && Refers(HeaderLine(fragments[i].name), key) {
      assert Refers(sections[i], key);
    }
  }

  lemma SectionsRefer(sections: seq<string>, last: string, key: string)
    ensures RefersAny(sections + [last], key) <==> RefersAny(sections, key) || Refers(last, key)
  {
    assert (sections + [last])[|sections|] == last;
    if i :| 0 <= i < |sections| && Refers(sections[i], key) {
      assert (sections + [last])[i] == sections[i];
    }
  }

  lemma JoinedSections(sections: seq<string>, last: string, key: string)
    ensures Refers(Join(sections + [last], "\n\n"), key) <==> RefersAny(sections, key) || Refers(last, key)
  {
    RefersJoined(sections + [last], "\n\n", key);
    SectionsRefer(sections, last, key);
  }

  lemma OwnSectionKeys(own: string, useHeaders: bool, key: string)
    ensures Refers(Section(OWN_HEADER, own, useHeaders), key) <==> Refers(own, key)
  {
    SectionKeys(OWN_HEADER, own, useHeaders, key);
    CommentRefersNothing(OWN_HEADER, key);
  }

  lemma RenderedKeys(fragments: seq<Fragment>, own: string, useHeaders: bool, key: string)
    ensures Refers(Join(Sections(fragments, useHeaders) + [Section(OWN_HEADER, own, useHeaders)], "\n\n"), key) <==>
              RefersAny(Sections(fragments, useHeaders), key) || Refers(own, key)
  {
    JoinedSections(Sections(fragments, useHeaders), Section(OWN_HEADER, own, useHeaders), key);
    OwnSectionKeys(own, useHeaders, key);
  }

  /** The rendered content refers to the keys of the scan blob and of the fragment names, to no
      others and to all of these. */
  lemma ComposedKeys(fragments: seq<Fragment>, own: string, language: Option<string>, key: string)
    ensures Refers(Composed(fragments, own, language), key) <==>
              Refers(BuildScanContent(Contents(fragments), own), key) || HeadersRefer(fragments, language, key)
  {
    ScanContentKeys(Contents(fragments), own, key);
    if fragments != [] {
      var useHeaders := LanguageSupportsHashHeaders(language);
      RenderedKeys(fragments, own, useHeaders, key);
      SectionListKeys(fragments, useHeaders, key);
      forall i | 0 <= i < |fragments|
        ensures Refers(HeaderLine(fragments[i].name), key) <==> NameRefers(fragments[i].name, key)
      {
        HeaderRefersExactly(fragments[i].name, key);
      }
    }
  }

  /** The usage index and the rendered content hold the same keys. */
  ghost predicate Agrees(fragments: seq<Fragment>, own: string, language: Option<string>) {
    forall key :: Refers(Composed(fragments, own, language), key) <==>
      Refers(BuildScanContent(Contents(fragments), own), key)
  }

  /** They do exactly when each key that a fragment name refers to, in a language that gets
      headers, is referred to by some fragment's or the own content as well. */
  lemma IndexAgreesWithRendered(fragments: seq<Fragment>, own: string, language: Option<string>)
    ensures Agrees(fragments, own, language) <==>
      forall key :: HeadersRefer(fragments, language, key) ==> RefersAny(Contents(fragments), key) || Refers(own, key)
  {
    forall key
      ensures Refers(Composed(fragments, own, language), key) <==>
                Refers(BuildScanContent(Contents(fragments), own), key) || HeadersRefer(fragments, language, key)
      ensures Refers(BuildScanContent(Contents(fragments), own), key) <==>
        RefersAny(Contents(fragments), key) || Refers(own, key)
    {
      ComposedKeys(fragments, own, language, key);
      ScanContentKeys(Contents(fragments), own, key);
    }
  }

  function Named(names: seq<string>, contents: seq<string>): seq<Fragment>
    requires |names| == |contents|
  {
    seq(|names|, i requires 0 <= i < |names| => Fragment(names[i], contents[i]))
  }

  /** The names alone decide whether that can go wrong: index and rendered content agree for all
      contents if and only if no headers are written or no name refers to anything. */
  lemma NamesDecide(names: seq<string>, language: Option<string>)
    ensures
      (forall contents: seq<string>, own ::
        |contents| == |names| ==> Agrees(Named(names, contents), own, language)) <==>
        !LanguageSupportsHashHeaders(language) || forall i, key :: 0 <= i < |names| ==> !NameRefers(names[i], key)
    ensures (forall i :: 0 <= i < |names| ==> '$' !in names[i] && '{' !in names[i] && OneLine(names[i])) ==>
      forall i, key :: 0 <= i < |names| ==> !NameRefers(names[i], key)
  {
    if !LanguageSupportsHashHeaders(language) || forall i, key :: 0 <= i < |names| ==> !NameRefers(names[i], key) {
      forall contents: seq<string>, own | |contents| == |names| ensures Agrees(Named(names, contents), own, language) {
        IndexAgreesWithRendered(Named(names, contents), own, language);
      }
    } else {
      var i, key :| 0 <= i < |names| && NameRefers(names[i], key);
      var contents := seq(|names|, _ => "");
      NameShows(names, contents, language, i, key);
    }
    if forall i :: 0 <= i < |names| ==> '$' !in names[i] && '{' !in names[i] && OneLine(names[i]) {
      forall i, key | 0 <= i < |names| ensures !NameRefers(names[i], key) { PlainNameRefersNothing(names[i], key); }
    }
  }

  lemma NameShows(names: seq<string>, contents: seq<string>, language: Option<string>, i: nat, key: string)
    requires |contents| == |names| && (forall k :: 0 <= k < |contents| ==> contents[k] == "")
    requires LanguageSupportsHashHeaders(language) && i < |names| && NameRefers(names[i], key)
    ensures !Agrees(Named(names, contents), "", language)
  {
    var fragments := Named(names, contents);
    RefersEmpty(key);
    assert NameRefers(fragments[i].name, key) && HeadersRefer(fragments, language, key);
    assert !RefersAny(Contents(fragments), key);
    IndexAgreesWithRendered(fragments, "", language);
  }

  /** For one, an empty fragment named $KEY: the rendered content refers to KEY, the index not. */
  lemma HeaderNameDisagrees()
    ensures Refers(Composed([Fragment("$KEY", "")], "", None), "KEY")
    ensures !Refers(BuildScanContent(Contents([Fragment("$KEY", "")]), ""), "KEY")
  {
    var fragments := [Fragment("$KEY", "")];
    assert KeyLength("KEY", true) == 3 by { KeyOfKey(); }
    assert "$KEY"[1..] == "KEY" && "KEY"[..3] == "KEY";
    assert KeyAt("$KEY", Dollar, 0, "KEY");
    assert NameRefers(fragments[0].name, "KEY");
    ComposedKeys(fragments, "", None, "KEY");
    ScanContentKeys(Contents(fragments), "", "KEY");
    RefersEmpty("KEY");
  }

  lemma KeyOfKey()
    ensures KeyLength("KEY", true) == 3
  {
    PartRunIs("KEY", "", true);
    assert "KEY" + "" == "KEY";
  }
}
