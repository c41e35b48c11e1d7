/** JSON.stringify of a string (QuoteJSONString of ECMA-262, section 25.5.2.3), and the reader
    of RFC 8259, section 7. */
module JsonString {
  import opened CodeUnits
  import opened Concat
  import opened Wrappers

  predicate HighSurrogate(u: Unit) { 0xD800 <= u <= 0xDBFF }
  predicate LowSurrogate(u: Unit) { 0xDC00 <= u <= 0xDFFF }

  function HexUnit(d: nat): Unit
    requires d < 16
  {
    if d < 10 then 48 + d else 87 + d
  }

  function UnicodeEscape(u: Unit): Utf16 {
    [BACKSLASH, 117, HexUnit(u / 4096), HexUnit(u / 256 % 16), HexUnit(u / 16 % 16), HexUnit(u % 16)]
  }

  /** Short escapes: backspace, tab, line feed, form feed, carriage return, quote, backslash. */
  function ShortEscape(u: Unit): Option<Unit> {
    if u == 8 then Some(98) else if u == 9 then Some(116) else if u == 10 then Some(110)
    else if u == 12 then Some(102) else if u == 13 then Some(114)
    else if u == QUOTE || u == BACKSLASH then Some(u) else None
  }

  /** One code unit; `paired` says it is half of a surrogate pair. */
  function EscapeUnit(u: Unit, paired: bool): Utf16 {
    if ShortEscape(u).Some? then [BACKSLASH, ShortEscape(u).value]
    else if u < 0x20 || (!paired && (HighSurrogate(u) || LowSurrogate(u))) then UnicodeEscape(u)
    else [u]
  }

  function EscapeUnits(s: Utf16): Utf16 {
    if s == [] then []
    else if HighSurrogate(s[0]) && |s| > 1 && LowSurrogate(s[1])
    then EscapeUnit(s[0], true) + (EscapeUnit(s[1], true) + EscapeUnits(s[2..]))
    else EscapeUnit(s[0], false) + EscapeUnits(s[1..])
  }

  function Quoted(s: Utf16): Utf16 {
    [QUOTE] + EscapeUnits(s) + [QUOTE]
  }

  // ---------------------------------------------------------------- the reader

  function HexValue(u: Unit): Option<nat> {
    if 48 <= u <= 57 then Some(u - 48)
    else if 97 <= u <= 102 then Some(u - 87)
    else if 65 <= u <= 70 then Some(u - 55)
    else None
  }

  function ReadShort(u: Unit): Option<Unit> {
    if u == 98 then Some(8) else if u == 116 then Some(9) else if u == 110 then Some(10)
    else if u == 102 then Some(12) else if u == 114 then Some(13)
    else if u == QUOTE || u == BACKSLASH || u == 47 then Some(u) else None
  }

  /** One character of a string literal and what follows it. */
  function ReadUnit(t: Utf16): (r: Option<(Unit, Utf16)>)
    ensures r.Some? ==> |r.value.1| < |t|
  {
    if t == [] || t[0] == QUOTE || t[0] < 0x20 then None
    else if t[0] != BACKSLASH then Some((t[0], t[1..]))
    else if |t| >= 2 && ReadShort(t[1]).Some? then Some((ReadShort(t[1]).value, t[2..]))
    else if |t| >= 6 && t[1] == 117
      && HexValue(t[2]).Some? && HexValue(t[3]).Some? && HexValue(t[4]).Some? && HexValue(t[5]).Some?
    then
      Some((HexValue(t[2]).value * 4096 + HexValue(t[3]).value * 256
            + HexValue(t[4]).value * 16 + HexValue(t[5]).value, t[6..]))
    else None
  }

  /** The characters up to the closing quote, and what follows it. */
  function ReadUnits(t: Utf16): (r: Option<(Utf16, Utf16)>)
    ensures r.Some? ==> |r.value.1| < |t|
  {
    if t != [] && t[0] == QUOTE then Some(([], t[1..]))
    else
      var u := ReadUnit(t);
      if u.None? then None
      else
        var rest := ReadUnits(u.value.1);
        if rest.None? then None else Some(([u.value.0] + rest.value.0, rest.value.1))
  }

  function ReadString(t: Utf16): (r: Option<(Utf16, Utf16)>)
    ensures r.Some? ==> |r.value.1| < |t|
  {
    if t != [] && t[0] == QUOTE then ReadUnits(t[1..]) else None
  }

  // ---------------------------------------------------------------- round trip

  lemma HexDigits(u: Unit)
    ensures u / 4096 * 4096 + u / 256 % 16 * 256 + u / 16 % 16 * 16 + u % 16 == u
  {
    assert u / 256 == u / 16 / 16 && u / 4096 == u / 256 / 16;
  }

  lemma ReadsShort(u: Unit, rest: Utf16)
    requires ShortEscape(u).Some?
    ensures ReadUnit([BACKSLASH, ShortEscape(u).value] + rest) == Some((u, rest))
  {
    assert ([BACKSLASH, ShortEscape(u).value] + rest)[2..] == rest;
  }

  lemma ReadsUnicode(u: Unit, rest: Utf16)
    ensures ReadUnit(UnicodeEscape(u) + rest) == Some((u, rest))
  {
    HexDigits(u);
    assert (UnicodeEscape(u) + rest)[6..] == rest;
  }

  lemma ReadsEscapedUnit(u: Unit, paired: bool, rest: Utf16)
    ensures ReadUnit(EscapeUnit(u, paired) + rest) == Some((u, rest))
    ensures EscapeUnit(u, paired)[0] != QUOTE
  {
    if ShortEscape(u).Some? {
      ReadsShort(u, rest);
    } else if u < 0x20 || (!paired && (HighSurrogate(u) || LowSurrogate(u))) {
      ReadsUnicode(u, rest);
    } else {
      assert ([u] + rest)[1..] == rest;
    }
  }

  lemma ReadUnitsStep(u: Unit, paired: bool, s: Utf16, tail: Utf16, rest: Utf16)
    requires ReadUnits(tail) == Some((s, rest))
    ensures ReadUnits(EscapeUnit(u, paired) + tail) == Some(([u] + s, rest))
  {
    ReadsEscapedUnit(u, paired, tail);
  }

  lemma ReadsTwo(u: Unit, v: Unit, s: Utf16, tail: Utf16, rest: Utf16)
    requires ReadUnits(tail) == Some((s, rest))
    ensures ReadUnits(EscapeUnit(u, true) + (EscapeUnit(v, true) + tail)) == Some(([u] + ([v] + s), rest))
  {
    var behind := EscapeUnit(v, true) + tail;
    ReadUnitsStep(v, true, s, tail, rest);
    ReadUnitsStep(u, true, [v] + s, behind, rest);
  }

  lemma PairText(first: Utf16, second: Utf16, tail: Utf16, rest: Utf16)
    ensures (first + (second + tail)) + [QUOTE] + rest == first + (second + (tail + [QUOTE] + rest))
  {
    AssocRest(second, tail, [QUOTE], rest);
    AssocRest(first, second + tail, [QUOTE], rest);
  }

  lemma PairWhole(s: Utf16)
    requires |s| > 1
    ensures [s[0]] + ([s[1]] + s[2..]) == s
  {
  }

  lemma EscapedPair(s: Utf16)
    requires |s| > 1 && HighSurrogate(s[0]) && LowSurrogate(s[1])
    ensures EscapeUnits(s) == EscapeUnit(s[0], true) + (EscapeUnit(s[1], true) + EscapeUnits(s[2..]))
  {
  }

  lemma ReadsPair(s: Utf16, tail: Utf16, rest: Utf16)
    requires |s| > 1 && HighSurrogate(s[0]) && LowSurrogate(s[1]) && tail == EscapeUnits(s[2..])
    requires ReadUnits(tail + [QUOTE] + rest) == Some((s[2..], rest))
    ensures ReadUnits(EscapeUnits(s) + [QUOTE] + rest) == Some((s, rest))
  {
    EscapedPair(s);
    PairText(EscapeUnit(s[0], true), EscapeUnit(s[1], true), tail, rest);
    ReadsTwo(s[0], s[1], s[2..], tail + [QUOTE] + rest, rest);
    PairWhole(s);
  }

  lemma EscapedSingle(s: Utf16)
    requires s != [] && !(HighSurrogate(s[0]) && |s| > 1 && LowSurrogate(s[1]))
    ensures EscapeUnits(s) == EscapeUnit(s[0], false) + EscapeUnits(s[1..])
  {
  }

  lemma ReadsSingle(s: Utf16, tail: Utf16, rest: Utf16)
    requires s != [] && !(HighSurrogate(s[0]) && |s| > 1 && LowSurrogate(s[1])) && tail == EscapeUnits(s[1..])
    requires ReadUnits(tail + [QUOTE] + rest) == Some((s[1..], rest))
    ensures ReadUnits(EscapeUnits(s) + [QUOTE] + rest) == Some((s, rest))
  {
    EscapedSingle(s);
    AssocRest(EscapeUnit(s[0], false), tail, [QUOTE], rest);
    ReadUnitsStep(s[0], false, s[1..], tail + [QUOTE] + rest, rest);
    assert [s[0]] + s[1..] == s;
  }

  lemma ReadsNone(rest: Utf16)
    ensures ReadUnits([] + [QUOTE] + rest) == Some(([], rest))
  {
    var t: Utf16 := [] + [QUOTE] + rest;
    assert t[0] == QUOTE && t[1..] == rest;
  }

  lemma {:induction false} ReadsEscaped(s: Utf16, rest: Utf16)
    ensures ReadUnits(EscapeUnits(s) + [QUOTE] + rest) == Some((s, rest))
  {
    if s == [] {
      ReadsNone(rest);
    } else if HighSurrogate(s[0]) && |s| > 1 && LowSurrogate(s[1]) {
      ReadsEscaped(s[2..], rest);
      ReadsPair(s, EscapeUnits(s[2..]), rest);
    } else {
      ReadsEscaped(s[1..], rest);
      ReadsSingle(s, EscapeUnits(s[1..]), rest);
    }
  }

  lemma ReadsBehindQuote(t: Utf16)
    ensures ReadString([QUOTE] + t) == ReadUnits(t)
  {
    assert ([QUOTE] + t)[1..] == t;
  }

  /** A reader of the quoted string stops at its end with the string itself. */
  lemma StringRoundTrip(s: Utf16, rest: Utf16)
    ensures ReadString(Quoted(s) + rest) == Some((s, rest))
  {
    var t := EscapeUnits(s) + [QUOTE] + rest;
    ReadsEscaped(s, rest);
    AssocRest([QUOTE], EscapeUnits(s), [QUOTE], rest);
    ReadsBehindQuote(t);
  }

  /** Printed as it is: neither a control character, nor a quote, a backslash or a surrogate. */
  predicate PlainUnit(u: Unit) {
    u >= 0x20 && u != QUOTE && u != BACKSLASH && !HighSurrogate(u) && !LowSurrogate(u)
  }

  lemma {:induction false} PlainUnits(s: Utf16)
    requires forall i :: 0 <= i < |s| ==> PlainUnit(s[i])
    ensures EscapeUnits(s) == s
  {
    if s == [] {
    } else {
      PlainUnits(s[1..]);
      assert s == [s[0]] + s[1..];
    }
  }

  /** A string without anything to escape stands in quotes as it is. */
  lemma PlainAsIs(s: Utf16)
    requires forall i :: 0 <= i < |s| ==> PlainUnit(s[i])
    ensures Quoted(s) == [QUOTE] + s + [QUOTE]
  {
    PlainUnits(s);
  }
}
