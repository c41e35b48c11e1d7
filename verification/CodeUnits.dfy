/** JavaScript strings as sequences of UTF-16 code units, lone surrogates included. */
module CodeUnits {
  type Unit = u: nat | u < 0x1_0000

  type Utf16 = seq<Unit>

  const QUOTE: Unit := 34
  const PLUS: Unit := 43
  const COMMA: Unit := 44
  const MINUS: Unit := 45
  const DOT: Unit := 46
  const ZERO: Unit := 48
  const COLON: Unit := 58
  const LBRACKET: Unit := 91
  const BACKSLASH: Unit := 92
  const RBRACKET: Unit := 93
  const SMALL_E: Unit := 101
  const LBRACE: Unit := 123
  const RBRACE: Unit := 125

  predicate IsDigit(u: Unit) { 48 <= u <= 57 }

  function IndexOf(t: Utf16, u: Unit): (i: nat)
    ensures i <= |t|
    ensures i < |t| ==> t[i] == u
    ensures forall j :: 0 <= j < i ==> t[j] != u
  {
    if t == [] || t[0] == u then 0 else 1 + IndexOf(t[1..], u)
  }
}
