/** `shellEscape` of src/lib/ssh.ts against a reader for POSIX shell words. */
module ShellEscape {
  import opened Concat
  import opened Text
  import opened Wrappers

  /** value.replace(/'/g, `'\''`). */
  function QuoteQuotes(value: string): string {
    if value == "" then ""
    else (if value[0] == '\'' then "'\\''" else [value[0]]) + QuoteQuotes(value[1..])
  }

  function Escape(value: string): string {
    "'" + QuoteQuotes(value) + "'"
  }

  function EscapeAll(args: seq<string>): seq<string> {
    if args == [] then [] else [Escape(args[0])] + EscapeAll(args[1..])
  }

  // ---------------------------------------------------------------- the shell

  datatype Mode = Unquoted | Single | Double

  /** Characters that are operators, expansions or patterns unless quoted (POSIX.1-2017 XCU
      section 2.2). A command line with one of them is more than a list of words. */
  predicate Active(c: char) {
    c in "|&;<>()$`\n*?[#~=%"
  }

  function Put(word: Option<string>, c: char): Option<string> {
    Some((if word.Some? then word.value else "") + [c])
  }

  function Open(word: Option<string>): Option<string> {
    Some(if word.Some? then word.value else "")
  }

  /** Token recognition and quote removal (sections 2.2.1 to 2.2.3 and 2.3): the words of `s`,
      `word` being the one under way; `None` if `s` is unfinished or not just words. */
  function Words(s: string, mode: Mode, word: Option<string>): Option<seq<string>> {
    if s == "" then
      if mode.Unquoted? then Some(if word.Some? then [word.value] else []) else None
    else
      var c, rest := s[0], s[1..];
      match mode
      case Single => if c == '\'' then Words(rest, Unquoted, word) else Words(rest, Single, Put(word, c))
      case Double =>
        if c == '"' then Words(rest, Unquoted, word)
        else if c == '$' || c == '`' then None
        else if c == '\\' then
          if rest == "" then None
          else if rest[0] == '\n' then Words(rest[1..], Double, word)
          else if rest[0] in "$`\"\\" then Words(rest[1..], Double, Put(word, rest[0]))
          else Words(rest, Double, Put(word, c))
        else Words(rest, Double, Put(word, c))
      case Unquoted =>
        if c == ' ' || c == '\t' then
          var more := Words(rest, Unquoted, None);
          if more.None? || word.None? then more else Some([word.value] + more.value)
        else if c == '\'' then Words(rest, Single, Open(word))
        else if c == '"' then Words(rest, Double, Open(word))
        else if c == '\\' then
          if rest == "" then None
          else if rest[0] == '\n' then Words(rest[1..], Unquoted, word)
          else Words(rest[1..], Unquoted, Put(word, rest[0]))
        else if Active(c) then None
        else Words(rest, Unquoted, Put(word, c))
  }

  /** No command line holds a NUL character. */
  function ReadCommand(s: string): Option<seq<string>> {
    if '\0' in s then None else Words(s, Unquoted, None)
  }

  // ---------------------------------------------------------------- round trip

  /** Inside single quotes the reader collects exactly the escaped value, up to the closing one. */
  lemma ReadsClosing(rest: string, word: string)
    ensures Words("'" + rest, Single, Some(word)) == Words(rest, Unquoted, Some(word))
  {
    assert ("'" + rest)[1..] == rest;
  }

  lemma ReadsPlain(c: char, tail: string, word: string)
    requires c != '\''
    ensures Words([c] + tail, Single, Some(word)) == Words(tail, Single, Some(word + [c]))
  {
    assert ([c] + tail)[1..] == tail;
  }

  lemma {:induction false} ReadsQuoted(value: string, rest: string, word: string)
    ensures Words(QuoteQuotes(value) + "'" + rest, Single, Some(word)) == Words(rest, Unquoted, Some(word + value))
  {
    if value == "" {
      assert "" + "'" == "'" && word + "" == word;
      ReadsClosing(rest, word);
    } else {
      var c, quoted := value[0], QuoteQuotes(value[1..]);
      ReadsQuoted(value[1..], rest, word + [c]);
      Assoc(word, [c], value[1..]);
      assert [c] + value[1..] == value;
      if c == '\'' {
        AssocRest("'\\''", quoted, "'", rest);
        ClosesAndReopens(quoted + "'" + rest, word);
      } else {
        AssocRest([c], quoted, "'", rest);
        ReadsPlain(c, quoted + "'" + rest, word);
      }
    }
  }

  lemma ClosesAndReopens(tail: string, word: string)
    ensures Words("'\\''" + tail, Single, Some(word)) == Words(tail, Single, Some(word + "'"))
  {
    var s := "'\\''" + tail;
    var s1, s2, s3 := "\\''" + tail, "''" + tail, "'" + tail;
    assert s[1..] == s1 && s1[1..] == s2 && s2[1..] == s3 && s3[1..] == tail;
    assert Words(s, Single, Some(word)) == Words(s1, Unquoted, Some(word));
    assert Words(s1, Unquoted, Some(word)) == Words(s3, Unquoted, Some(word + "'"));
  }

  lemma ReadsOne(value: string, tail: string)
    ensures Words(Escape(value) + tail, Unquoted, None) == Words(tail, Unquoted, Some(value))
  {
    var s := Escape(value) + tail;
    assert s[0] == '\'' && s[1..] == QuoteQuotes(value) + "'" + tail;
    assert "" + value == value;
    ReadsQuoted(value, tail, "");
  }

  lemma JoinFirst(first: string, rest: seq<string>)
    ensures Join([first] + rest, " ") == first + if rest == [] then "" else " " + Join(rest, " ")
  {
    if rest == [] {
      assert [first] + rest == [first] && first + "" == first;
    } else {
      JoinCons(first, rest, " ");
      Assoc(first, " ", Join(rest, " "));
    }
  }

  lemma JoinEscaped(args: seq<string>)
    requires args != []
    ensures Join(EscapeAll(args), " ") ==
              Escape(args[0]) + if |args| == 1 then "" else " " + Join(EscapeAll(args[1..]), " ")
  {
    JoinFirst(Escape(args[0]), EscapeAll(args[1..]));
  }

  lemma ReadsBlank(rest: string, word: string)
    ensures
      var more := Words(rest, Unquoted, None);
      Words(" " + rest, Unquoted, Some(word)) == if more.None? then None else Some([word] + more.value)
  {
    assert (" " + rest)[1..] == rest;
  }

  lemma {:induction false} ReadsAll(args: seq<string>)
    ensures Words(Join(EscapeAll(args), " "), Unquoted, None) == Some(args)
  {
    if args == [] {
    } else {
      JoinEscaped(args);
      if |args| == 1 {
        ReadsOne(args[0], "");
        assert [args[0]] == args;
      } else {
        var rest := Join(EscapeAll(args[1..]), " ");
        ReadsOne(args[0], " " + rest);
        ReadsBlank(rest, args[0]);
        ReadsAll(args[1..]);
        assert [args[0]] + args[1..] == args;
      }
    }
  }

  lemma {:induction false} QuoteQuotesMembers(value: string)
    ensures '\0' in QuoteQuotes(value) <==> '\0' in value
  {
    if value == "" {
    } else {
      QuoteQuotesMembers(value[1..]);
      assert value == [value[0]] + value[1..];
    }
  }

  lemma {:induction false} CommandMembers(args: seq<string>)
    ensures '\0' in Join(EscapeAll(args), " ") <==> exists i :: 0 <= i < |args| && '\0' in args[i]
  {
    if args == [] {
    } else {
      QuoteQuotesMembers(args[0]);
      CommandMembers(args[1..]);
      JoinEscaped(args);
      if i :| 0 <= i < |args| && '\0' in args[i] {
        assert i > 0 ==> args[1..][i - 1] == args[i];
      }
    }
  }

  /** A shell reading the escaped values joined by blanks sees exactly those values as its
      words, whatever characters they hold; only a NUL cannot be passed. */
  lemma EscapeRoundTrip(args: seq<string>)
    ensures ReadCommand(Join(EscapeAll(args), " ")) == Some(args) <==>
              forall i :: 0 <= i < |args| ==> '\0' !in args[i]
  {
    ReadsAll(args);
    CommandMembers(args);
  }
}
