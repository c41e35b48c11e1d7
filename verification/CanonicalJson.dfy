/** `canonicalizeJson` of src/lib/canonical-json.ts. */
module CanonicalJson {
  import opened CodeUnits
  import opened Concat
  import opened JsonNumber
  import opened JsonString
  import opened Sorting
  import opened Wrappers

  datatype Member = Member(key: Utf16, value: Json)

  /** A JSON value as JavaScript holds it: the members of an object come in some order. */
  datatype Json =
    | Null
    | Bool(b: bool)
    | Num(n: Number)
    | Str(s: Utf16)
    | Arr(items: seq<Json>)
    | Obj(members: seq<Member>)

  predicate DistinctKeys(ms: seq<Member>) {
    forall i, j :: 0 <= i < j < |ms| ==> ms[i].key != ms[j].key
  }

  predicate Proper(v: Json) {
    match v
    case Num(n) => Shortest(n)
    case Arr(items) => forall i :: 0 <= i < |items| ==> Proper(items[i])
    case Obj(ms) => DistinctKeys(ms) && forall i :: 0 <= i < |ms| ==> Proper(ms[i].value)
    case _ => true
  }

  /** The value with the order of object keys forgotten, at every depth. */
  datatype Value =
    | VNull
    | VBool(b: bool)
    | VNum(n: Number)
    | VStr(s: Utf16)
    | VArr(items: seq<Value>)
    | VObj(members: map<Utf16, Value>)

  ghost predicate ItemsWithin(parent: Json, items: seq<Json>) {
    forall i :: 0 <= i < |items| ==> items[i] < parent
  }

  ghost predicate MembersWithin(parent: Json, ms: seq<Member>) {
    forall i :: 0 <= i < |ms| ==> ms[i].value < parent
  }

  ghost function Meaning(v: Json): Value
    decreases v
  {
    match v
    case Null => VNull
    case Bool(b) => VBool(b)
    case Num(n) => VNum(n)
    case Str(s) => VStr(s)
    case Arr(items) => VArr(ItemsMeaning(v, items))
    case Obj(ms) => VObj(MembersMeaning(v, ms))
  }

  ghost function ItemsMeaning(parent: Json, items: seq<Json>): (vs: seq<Value>)
    requires ItemsWithin(parent, items)
    ensures |vs| == |items|
    decreases parent, |items|
  {
    if items == [] then [] else [Meaning(items[0])] + ItemsMeaning(parent, items[1..])
  }

  ghost function MembersMeaning(parent: Json, ms: seq<Member>): map<Utf16, Value>
    requires MembersWithin(parent, ms)
    decreases parent, |ms|
  {
    if ms == [] then map[]
    else map[ms[0].key := Meaning(ms[0].value)] + MembersMeaning(parent, ms[1..])
  }

  // ---------------------------------------------------------------- the printer

  /** The order of Array.prototype.sort on strings: by code units. */
  predicate LessEq(a: Utf16, b: Utf16) {
    a == [] || (b != [] && (a[0] < b[0] || (a[0] == b[0] && LessEq(a[1..], b[1..]))))
  }

  predicate KeyLessEq(a: Member, b: Member) { LessEq(a.key, b.key) }

  lemma SortedWithin(parent: Json, ms: seq<Member>)
    requires MembersWithin(parent, ms)
    ensures MembersWithin(parent, Sort(ms, KeyLessEq)) && |Sort(ms, KeyLessEq)| == |ms|
    ensures (forall i :: 0 <= i < |ms| ==> Proper(ms[i].value)) ==>
              forall i :: 0 <= i < |ms| ==> Proper(Sort(ms, KeyLessEq)[i].value)
  {
    SortMultiset(ms, KeyLessEq);
    var s := Sort(ms, KeyLessEq);
    forall i | 0 <= i < |s| ensures exists j :: 0 <= j < |ms| && ms[j] == s[i] {
      assert s[i] in ms;
    }
  }

  ghost function Canonicalize(v: Json): Utf16
    requires Proper(v)
    decreases v
  {
    match v
    case Null => [110, 117, 108, 108]
    case Bool(b) => if b then [116, 114, 117, 101] else [102, 97, 108, 115, 101]
    case Num(n) => ToText(n)
    case Str(s) => Quoted(s)
    case Arr(items) => [LBRACKET] + Items(v, items) + [RBRACKET]
    case Obj(ms) =>
      SortedWithin(v, ms);
      [LBRACE] + Entries(v, Sort(ms, KeyLessEq)) + [RBRACE]
  }

  ghost function Items(parent: Json, items: seq<Json>): Utf16
    requires ItemsWithin(parent, items) && forall i :: 0 <= i < |items| ==> Proper(items[i])
    decreases parent, |items|
  {
    if items == [] then []
    else if |items| == 1 then Canonicalize(items[0])
    else Canonicalize(items[0]) + [COMMA] + Items(parent, items[1..])
  }

  ghost function Entry(parent: Json, m: Member): Utf16
    requires m.value < parent && Proper(m.value)
    decreases parent, 0
  {
    Quoted(m.key) + [COLON] + Canonicalize(m.value)
  }

  ghost function Entries(parent: Json, ms: seq<Member>): Utf16
    requires MembersWithin(parent, ms) && forall i :: 0 <= i < |ms| ==> Proper(ms[i].value)
    decreases parent, |ms|
  {
    if ms == [] then []
    else if |ms| == 1 then Entry(parent, ms[0])
    else Entry(parent, ms[0]) + [COMMA] + Entries(parent, ms[1..])
  }

  // ---------------------------------------------------------------- the reader

  function NumberLength(t: Utf16): (n: nat)
    ensures n <= |t|
    ensures forall i :: 0 <= i < n ==> NumberUnit(t[i])
    ensures n < |t| ==> !NumberUnit(t[n])
  {
    if t == [] || !NumberUnit(t[0]) then 0 else 1 + NumberLength(t[1..])
  }

  function ReadNumber(t: Utf16): (r: Option<(Value, Utf16)>)
    ensures r.Some? ==> |r.value.1| < |t|
  {
    var n := NumberLength(t);
    if !IsNumberText(t[..n]) then None else Some((VNum(Read(t[..n])), t[n..]))
  }

  /** One JSON value without white space (RFC 8259, sections 3 to 7) and what follows it. */
  function ReadValue(t: Utf16): (r: Option<(Value, Utf16)>)
    ensures r.Some? ==> |r.value.1| < |t|
    decreases |t|, 0
  {
    if t == [] then None
    else if [110, 117, 108, 108] <= t then Some((VNull, t[4..]))
    else if [116, 114, 117, 101] <= t then Some((VBool(true), t[4..]))
    else if [102, 97, 108, 115, 101] <= t then Some((VBool(false), t[5..]))
    else if t[0] == QUOTE then
      var s := ReadString(t);
      if s.None? then None else Some((VStr(s.value.0), s.value.1))
    else if t[0] == LBRACKET then
      if |t| > 1 && t[1] == RBRACKET then Some((VArr([]), t[2..]))
      else
        var items := ReadItems(t[1..]);
        if items.None? then None else Some((VArr(items.value.0), items.value.1))
    else if t[0] == LBRACE then
      if |t| > 1 && t[1] == RBRACE then Some((VObj(map[]), t[2..]))
      else
        var ms := ReadMembers(t[1..]);
        if ms.None? then None else Some((VObj(ms.value.0), ms.value.1))
    else ReadNumber(t)
  }

  function ReadItems(t: Utf16): (r: Option<(seq<Value>, Utf16)>)
    ensures r.Some? ==> |r.value.1| < |t|
    decreases |t|, 1
  {
    var v := ReadValue(t);
    if v.None? || v.value.1 == [] then None
    else if v.value.1[0] == RBRACKET then Some(([v.value.0], v.value.1[1..]))
    else if v.value.1[0] == COMMA then
      var rest := ReadItems(v.value.1[1..]);
      if rest.None? then None else Some(([v.value.0] + rest.value.0, rest.value.1))
    else None
  }

  function ReadMembers(t: Utf16): (r: Option<(map<Utf16, Value>, Utf16)>)
    ensures r.Some? ==> |r.value.1| < |t|
    decreases |t|, 1
  {
    var k := ReadString(t);
    if k.None? || k.value.1 == [] || k.value.1[0] != COLON then None
    else
      var v := ReadValue(k.value.1[1..]);
      if v.None? || v.value.1 == [] then None
      else if v.value.1[0] == RBRACE then Some((map[k.value.0 := v.value.0], v.value.1[1..]))
      else if v.value.1[0] == COMMA then
        var rest := ReadMembers(v.value.1[1..]);
        if rest.None? then None else Some((map[k.value.0 := v.value.0] + rest.value.0, rest.value.1))
      else None
  }

  // ---------------------------------------------------------------- reading what is printed

  /** What may follow a value. */
  predicate Stops(rest: Utf16) {
    rest == [] || rest[0] == COMMA || rest[0] == RBRACKET || rest[0] == RBRACE
  }

  lemma {:induction false} NumberEnds(a: Utf16, rest: Utf16)
    requires forall i :: 0 <= i < |a| ==> NumberUnit(a[i])
    requires Stops(rest)
    ensures NumberLength(a + rest) == |a|
  {
    if a == [] {
      assert a + rest == rest;
    } else {
      NumberEnds(a[1..], rest);
      assert (a + rest)[1..] == a[1..] + rest;
    }
  }

  lemma ReadsAsNumber(t: Utf16)
    requires t != [] && (IsDigit(t[0]) || t[0] == MINUS)
    ensures ReadValue(t) == ReadNumber(t)
  {
    NoWord(t);
  }

  lemma ReadNumberText(t: Utf16)
    requires t != [] && (IsDigit(t[0]) || t[0] == MINUS) && IsNumberText(t[..NumberLength(t)])
    ensures ReadValue(t) == Some((VNum(Read(t[..NumberLength(t)])), t[NumberLength(t)..]))
  {
    ReadsAsNumber(t);
  }

  lemma OtherWord(word: Utf16, t: Utf16)
    requires word != [] && t != [] && word[0] != t[0]
    ensures !(word <= t)
  {
  }

  /** `t` starts with none of null, true and false. */
  lemma NoWord(t: Utf16)
    requires t != [] && t[0] !in {110, 116, 102}
    ensures !([110, 117, 108, 108] <= t) && !([116, 114, 117, 101] <= t) && !([102, 97, 108, 115, 101] <= t)
  {
    OtherWord([110, 117, 108, 108], t);
    OtherWord([116, 114, 117, 101], t);
    OtherWord([102, 97, 108, 115, 101], t);
  }

  lemma Cut(a: Utf16, b: Utf16)
    ensures (a + b)[..|a|] == a && (a + b)[|a|..] == b
  {
  }

  lemma ReadsNumber(n: Number, rest: Utf16)
    requires Shortest(n) && Stops(rest)
    ensures ReadValue(ToText(n) + rest) == Some((VNum(n), rest))
  {
    NumberRoundTrip(n);
    NumberEnds(ToText(n), rest);
    Cut(ToText(n), rest);
    assert (ToText(n) + rest)[0] == ToText(n)[0];
    ReadNumberText(ToText(n) + rest);
  }

  lemma ItemsStep(t: Utf16, v: Value, after: Utf16)
    requires ReadValue(t) == Some((v, after)) && after != []
    ensures after[0] == RBRACKET ==> ReadItems(t) == Some(([v], after[1..]))
    ensures after[0] == COMMA && ReadItems(after[1..]).Some? ==>
              ReadItems(t) == Some(([v] + ReadItems(after[1..]).value.0, ReadItems(after[1..]).value.1))
  {
  }

  lemma ReadFirstMember(t: Utf16, key: Utf16, tail: Utf16, v: Value, after: Utf16)
    requires ReadString(t) == Some((key, tail)) && tail != [] && tail[0] == COLON
    requires ReadValue(tail[1..]) == Some((v, after)) && after != []
    ensures after[0] == RBRACE ==> ReadMembers(t) == Some((map[key := v], after[1..]))
    ensures after[0] == COMMA && ReadMembers(after[1..]).Some? ==>
              ReadMembers(t) == Some((map[key := v] + ReadMembers(after[1..]).value.0, ReadMembers(after[1..]).value.1))
  {
  }

  lemma MembersStep(key: Utf16, text: Utf16, v: Value, after: Utf16)
    requires ReadValue(text + after) == Some((v, after)) && after != []
    ensures
      var t := Quoted(key) + [COLON] + text + after;
      && (after[0] == RBRACE ==> ReadMembers(t) == Some((map[key := v], after[1..])))
      && (after[0] == COMMA && ReadMembers(after[1..]).Some? ==>
            ReadMembers(t) == Some((map[key := v] + ReadMembers(after[1..]).value.0, ReadMembers(after[1..]).value.1)))
  {
    var tail := [COLON] + (text + after);
    StringRoundTrip(key, tail);
    AssocTail(Quoted(key), [COLON], text, after);
    assert tail[1..] == text + after;
    ReadFirstMember(Quoted(key) + tail, key, tail, v, after);
  }

  lemma BracketStep(t: Utf16)
    requires t != [] && t[0] != RBRACKET && ReadItems(t).Some?
    ensures ReadValue([LBRACKET] + t) == Some((VArr(ReadItems(t).value.0), ReadItems(t).value.1))
  {
    Cut([LBRACKET], t);
    NoWord([LBRACKET] + t);
  }

  lemma BraceStep(t: Utf16)
    requires t != [] && t[0] == QUOTE && ReadMembers(t).Some?
    ensures ReadValue([LBRACE] + t) == Some((VObj(ReadMembers(t).value.0), ReadMembers(t).value.1))
  {
    Cut([LBRACE], t);
    NoWord([LBRACE] + t);
  }

  lemma ReadsFlat(v: Json, rest: Utf16)
    requires Proper(v) && Stops(rest)
    requires !v.Arr? && !v.Obj?
    ensures ReadValue(Canonicalize(v) + rest) == Some((Meaning(v), rest))
    ensures Canonicalize(v) != [] && Canonicalize(v)[0] != RBRACKET
  {
    var t := Canonicalize(v) + rest;
    match v {
      case Null => assert t[4..] == rest;
      case Bool(b) =>
        assert t[|Canonicalize(v)|..] == rest;
        assert t[0] == if b then 116 else 102;
      case Num(n) => NumberRoundTrip(n); ReadsNumber(n, rest);
      case Str(s) => StringRoundTrip(s, rest);
    }
  }

  lemma ReadsEmptyArray(rest: Utf16)
    ensures ReadValue([LBRACKET] + [] + [RBRACKET] + rest) == Some((VArr([]), rest))
  {
    var t := [LBRACKET] + [] + [RBRACKET] + rest;
    assert t[0] == LBRACKET && t[1] == RBRACKET && t[2..] == rest;
    NoWord(t);
  }

  lemma ReadsEmptyObject(rest: Utf16)
    ensures ReadValue([LBRACE] + [] + [RBRACE] + rest) == Some((VObj(map[]), rest))
  {
    var t := [LBRACE] + [] + [RBRACE] + rest;
    assert t[0] == LBRACE && t[1] == RBRACE && t[2..] == rest;
    NoWord(t);
  }

  /** A reader of the printed value stops at its end with the value's meaning. */
  lemma {:induction false} ReadsValue(v: Json, rest: Utf16)
    requires Proper(v) && Stops(rest)
    ensures ReadValue(Canonicalize(v) + rest) == Some((Meaning(v), rest))
    ensures Canonicalize(v) != [] && Canonicalize(v)[0] != RBRACKET
    decreases v
  {
    match v {
      case Arr(items) =>
        if items == [] {
          ReadsEmptyArray(rest);
        } else {
          ReadsItems(v, items, rest);
          BracketStep(Items(v, items) + [RBRACKET] + rest);
          AssocRest([LBRACKET], Items(v, items), [RBRACKET], rest);
        }
      case Obj(ms) =>
        SortedWithin(v, ms);
        MeaningOfSorted(v, ms);
        var sorted := Sort(ms, KeyLessEq);
        if ms == [] {
          ReadsEmptyObject(rest);
        } else {
          ReadsEntries(v, sorted, rest);
          EntriesStart(v, sorted);
          BraceStep(Entries(v, sorted) + [RBRACE] + rest);
          AssocRest([LBRACE], Entries(v, sorted), [RBRACE], rest);
        }
      case _ => ReadsFlat(v, rest);
    }
  }

  lemma ReadsLastItem(item: Json, rest: Utf16)
    requires Proper(item)
    requires ReadValue(Canonicalize(item) + ([RBRACKET] + rest)) == Some((Meaning(item), [RBRACKET] + rest))
    ensures ReadItems(Canonicalize(item) + [RBRACKET] + rest) == Some(([Meaning(item)], rest))
  {
    var after := [RBRACKET] + rest;
    ItemsStep(Canonicalize(item) + after, Meaning(item), after);
    Assoc(Canonicalize(item), [RBRACKET], rest);
    assert after[1..] == rest;
  }

  lemma ReadsMoreItems(item: Json, more: Utf16, vs: seq<Value>, rest: Utf16)
    requires Proper(item)
    requires
      var after := [COMMA] + (more + [RBRACKET] + rest);
      ReadValue(Canonicalize(item) + after) == Some((Meaning(item), after))
    requires ReadItems(more + [RBRACKET] + rest) == Some((vs, rest))
    ensures ReadItems(Canonicalize(item) + [COMMA] + more + [RBRACKET] + rest) == Some(([Meaning(item)] + vs, rest))
  {
    var after := [COMMA] + (more + [RBRACKET] + rest);
    ItemsStep(Canonicalize(item) + after, Meaning(item), after);
    AssocList(Canonicalize(item), [COMMA], more, [RBRACKET], rest);
    assert after[1..] == more + [RBRACKET] + rest;
  }

  lemma {:induction false} ReadsItems(parent: Json, items: seq<Json>, rest: Utf16)
    requires items != [] && ItemsWithin(parent, items) && forall i :: 0 <= i < |items| ==> Proper(items[i])
    ensures ReadItems(Items(parent, items) + [RBRACKET] + rest) == Some((ItemsMeaning(parent, items), rest))
    ensures Items(parent, items) != [] && Items(parent, items)[0] != RBRACKET
    decreases parent, |items|
  {
    if |items| == 1 {
      ReadsValue(items[0], [RBRACKET] + rest);
      ReadsLastItem(items[0], rest);
      assert ItemsMeaning(parent, items) == [Meaning(items[0])];
    } else {
      var more := Items(parent, items[1..]);
      ReadsItems(parent, items[1..], rest);
      ReadsValue(items[0], [COMMA] + (more + [RBRACKET] + rest));
      ReadsMoreItems(items[0], more, ItemsMeaning(parent, items[1..]), rest);
    }
  }

  lemma ReadsLastEntry(parent: Json, m: Member, rest: Utf16)
    requires m.value < parent && Proper(m.value)
    requires ReadValue(Canonicalize(m.value) + ([RBRACE] + rest)) == Some((Meaning(m.value), [RBRACE] + rest))
    ensures ReadMembers(Entry(parent, m) + [RBRACE] + rest) == Some((map[m.key := Meaning(m.value)], rest))
  {
    var after := [RBRACE] + rest;
    MembersStep(m.key, Canonicalize(m.value), Meaning(m.value), after);
    Assoc(Entry(parent, m), [RBRACE], rest);
    assert after[1..] == rest;
  }

  lemma ReadsMoreEntries(parent: Json, m: Member, more: Utf16, vs: map<Utf16, Value>, rest: Utf16)
    requires m.value < parent && Proper(m.value)
    requires
      var after := [COMMA] + (more + [RBRACE] + rest);
      ReadValue(Canonicalize(m.value) + after) == Some((Meaning(m.value), after))
    requires ReadMembers(more + [RBRACE] + rest) == Some((vs, rest))
    ensures ReadMembers(Entry(parent, m) + [COMMA] + more + [RBRACE] + rest) ==
      Some((map[m.key := Meaning(m.value)] + vs, rest))
  {
    var after := [COMMA] + (more + [RBRACE] + rest);
    MembersStep(m.key, Canonicalize(m.value), Meaning(m.value), after);
    AssocList(Entry(parent, m), [COMMA], more, [RBRACE], rest);
    assert after[1..] == more + [RBRACE] + rest;
  }

  lemma EntriesStart(parent: Json, ms: seq<Member>)
    requires ms != [] && MembersWithin(parent, ms) && forall i :: 0 <= i < |ms| ==> Proper(ms[i].value)
    ensures Entries(parent, ms) != [] && Entries(parent, ms)[0] == QUOTE
  {
  }

  lemma {:induction false} ReadsEntries(parent: Json, ms: seq<Member>, rest: Utf16)
    requires ms != [] && MembersWithin(parent, ms) && forall i :: 0 <= i < |ms| ==> Proper(ms[i].value)
    ensures ReadMembers(Entries(parent, ms) + [RBRACE] + rest) == Some((MembersMeaning(parent, ms), rest))
    decreases parent, |ms|
  {
    var m := ms[0];
    UnfoldMembers(parent, ms);
    if |ms| == 1 {
      ReadsValue(m.value, [RBRACE] + rest);
      ReadsLastEntry(parent, m, rest);
    } else {
      var more, vs := Entries(parent, ms[1..]), MembersMeaning(parent, ms[1..]);
      ReadsEntries(parent, ms[1..], rest);
      ReadsValue(m.value, [COMMA] + (more + [RBRACE] + rest));
      ReadsMoreEntries(parent, m, more, vs, rest);
    }
  }

  lemma UnfoldMembers(parent: Json, ms: seq<Member>)
    requires ms != [] && MembersWithin(parent, ms) && forall i :: 0 <= i < |ms| ==> Proper(ms[i].value)
    ensures |ms| == 1 ==>
      && Entries(parent, ms) == Entry(parent, ms[0])
      && MembersMeaning(parent, ms) == map[ms[0].key := Meaning(ms[0].value)]
    ensures |ms| > 1 ==>
      && Entries(parent, ms) == Entry(parent, ms[0]) + [COMMA] + Entries(parent, ms[1..])
      && MembersMeaning(parent, ms) == map[ms[0].key := Meaning(ms[0].value)] + MembersMeaning(parent, ms[1..])
  {
    if |ms| == 1 {
      assert ms[1..] == [];
    }
  }

  // ---------------------------------------------------------------- meaning ignores order

  lemma {:induction false} MembersMeaningAt(parent: Json, ms: seq<Member>, i: nat)
    requires DistinctKeys(ms) && MembersWithin(parent, ms) && i < |ms|
    ensures ms[i].key in MembersMeaning(parent, ms)
    ensures MembersMeaning(parent, ms)[ms[i].key] == Meaning(ms[i].value)
    decreases |ms|
  {
    if i > 0 {
      MembersMeaningAt(parent, ms[1..], i - 1);
    } else if ms[0].key in MembersMeaning(parent, ms[1..]) {
      var j := MembersMeaningKey(parent, ms[1..], ms[0].key);
    }
  }

  lemma {:induction false} MembersMeaningKey(parent: Json, ms: seq<Member>, key: Utf16) returns (i: nat)
    requires MembersWithin(parent, ms) && key in MembersMeaning(parent, ms)
    ensures i < |ms| && ms[i].key == key
    decreases |ms|
  {
    if ms[0].key == key {
      i := 0;
    } else {
      i := MembersMeaningKey(parent, ms[1..], key);
      i := i + 1;
    }
  }

  lemma SortedDistinct(ms: seq<Member>)
    requires DistinctKeys(ms)
    ensures DistinctKeys(Sort(ms, KeyLessEq))
  {
    SortMultiset(ms, KeyLessEq);
    var s := Sort(ms, KeyLessEq);
    forall i, j | 0 <= i < j < |s| ensures s[i].key != s[j].key {
      if s[i].key == s[j].key {
        assert s[i] in ms && s[j] in ms;
        var a :| 0 <= a < |ms| && ms[a] == s[i];
        var b :| 0 <= b < |ms| && ms[b] == s[j];
        assert a == b;
        TwiceInSeq(s, i, j);
        OnceInSeq(ms, a);
      }
    }
  }

  lemma TwiceInSeq(s: seq<Member>, i: nat, j: nat)
    requires i < j < |s| && s[i] == s[j]
    ensures multiset(s)[s[i]] >= 2
  {
    assert s == s[..i] + [s[i]] + s[i + 1..j] + [s[j]] + s[j + 1..];
  }

  lemma OnceInSeq(ms: seq<Member>, a: nat)
    requires a < |ms| && DistinctKeys(ms)
    ensures multiset(ms)[ms[a]] == 1
  {
    assert ms == ms[..a] + [ms[a]] + ms[a + 1..];
  }

  lemma MemberMeansTheSame(parent: Json, ms: seq<Member>, ms': seq<Member>, k: Utf16)
    requires DistinctKeys(ms) && DistinctKeys(ms') && MembersWithin(parent, ms) && MembersWithin(parent, ms')
    requires forall i :: 0 <= i < |ms| ==> ms[i] in ms'
    requires k in MembersMeaning(parent, ms)
    ensures k in MembersMeaning(parent, ms') && MembersMeaning(parent, ms')[k] == MembersMeaning(parent, ms)[k]
  {
    var i := MembersMeaningKey(parent, ms, k);
    var j :| 0 <= j < |ms'| && ms'[j] == ms[i];
    MembersMeaningAt(parent, ms, i);
    MembersMeaningAt(parent, ms', j);
  }

  /** Member lists with the same members mean the same map. */
  lemma SameMembersSameMeaning(parent: Json, ms: seq<Member>, ms': seq<Member>)
    requires DistinctKeys(ms) && DistinctKeys(ms') && MembersWithin(parent, ms) && MembersWithin(parent, ms')
    requires (forall i :: 0 <= i < |ms| ==> ms[i] in ms') && forall i :: 0 <= i < |ms'| ==> ms'[i] in ms
    ensures MembersMeaning(parent, ms) == MembersMeaning(parent, ms')
  {
    MeansWithin(parent, ms, ms');
    MeansWithin(parent, ms', ms);
    SameMap(MembersMeaning(parent, ms), MembersMeaning(parent, ms'));
  }

  predicate Submap(a: map<Utf16, Value>, b: map<Utf16, Value>) {
    forall k :: k in a ==> k in b && b[k] == a[k]
  }

  lemma SameMap(a: map<Utf16, Value>, b: map<Utf16, Value>)
    requires Submap(a, b) && Submap(b, a)
    ensures a == b
  {
  }

  lemma MeansWithin(parent: Json, ms: seq<Member>, ms': seq<Member>)
    requires DistinctKeys(ms) && DistinctKeys(ms') && MembersWithin(parent, ms) && MembersWithin(parent, ms')
    requires forall i :: 0 <= i < |ms| ==> ms[i] in ms'
    ensures Submap(MembersMeaning(parent, ms), MembersMeaning(parent, ms'))
  {
    forall k | k in MembersMeaning(parent, ms)
      ensures k in MembersMeaning(parent, ms') && MembersMeaning(parent, ms')[k] == MembersMeaning(parent, ms)[k]
    {
      MemberMeansTheSame(parent, ms, ms', k);
    }
  }

  lemma SortedMembers(ms: seq<Member>)
    ensures forall i :: 0 <= i < |ms| ==> ms[i] in Sort(ms, KeyLessEq)
    ensures forall i :: 0 <= i < |Sort(ms, KeyLessEq)| ==> Sort(ms, KeyLessEq)[i] in ms
  {
    SortMultiset(ms, KeyLessEq);
    var s := Sort(ms, KeyLessEq);
    forall i | 0 <= i < |s| ensures s[i] in ms { assert s[i] in s; }
    forall i | 0 <= i < |ms| ensures ms[i] in s { assert ms[i] in ms; }
  }

  lemma MeaningOfSorted(parent: Json, ms: seq<Member>)
    requires DistinctKeys(ms) && MembersWithin(parent, ms)
    ensures MembersWithin(parent, Sort(ms, KeyLessEq))
    ensures MembersMeaning(parent, Sort(ms, KeyLessEq)) == MembersMeaning(parent, ms)
  {
    SortedWithin(parent, ms);
    SortedDistinct(ms);
    SortedMembers(ms);
    SameMembersSameMeaning(parent, Sort(ms, KeyLessEq), ms);
  }

  // ---------------------------------------------------------------- one text per meaning

  lemma {:induction false} LessEqTotal(a: Utf16, b: Utf16)
    ensures LessEq(a, b) || LessEq(b, a)
    ensures LessEq(a, b) && LessEq(b, a) ==> a == b
  {
    if a != [] && b != [] && a[0] == b[0] {
      LessEqTotal(a[1..], b[1..]);
      assert a == [a[0]] + a[1..] && b == [b[0]] + b[1..];
    }
  }

  lemma {:induction false} LessEqTransitive(a: Utf16, b: Utf16, c: Utf16)
    requires LessEq(a, b) && LessEq(b, c)
    ensures LessEq(a, c)
  {
    if a != [] && a[0] == b[0] == c[0] { LessEqTransitive(a[1..], b[1..], c[1..]); }
  }

  lemma SortedByKey(ms: seq<Member>)
    ensures Ordered(Sort(ms, KeyLessEq), KeyLessEq)
  {
    forall a, b ensures KeyLessEq(a, b) || KeyLessEq(b, a) { LessEqTotal(a.key, b.key); }
    forall a, b, c | KeyLessEq(a, b) && KeyLessEq(b, c)
      ensures KeyLessEq(a, c)
    {
      LessEqTransitive(a.key, b.key, c.key);
    }
    SortOrders(ms, KeyLessEq);
  }

  predicate SameKeys(ms: seq<Member>, ms': seq<Member>) {
    |ms| == |ms'| && forall i :: 0 <= i < |ms| ==> ms[i].key == ms'[i].key
  }

  predicate HasKey(ms: seq<Member>, k: Utf16) {
    exists i :: 0 <= i < |ms| && ms[i].key == k
  }

  /** Two sorted lists of distinct keys with the same keys list them alike. */
  lemma {:induction false} SortedKeysUnique(ms: seq<Member>, ms': seq<Member>)
    requires DistinctKeys(ms) && DistinctKeys(ms') && Ordered(ms, KeyLessEq) && Ordered(ms', KeyLessEq)
    requires forall k :: HasKey(ms, k) <==> HasKey(ms', k)
    ensures SameKeys(ms, ms')
    decreases |ms|
  {
    if ms == [] {
      if ms' != [] { assert HasKey(ms', ms'[0].key); }
    } else {
      assert HasKey(ms, ms[0].key);
      var j :| 0 <= j < |ms'| && ms'[j].key == ms[0].key;
      assert HasKey(ms', ms'[0].key);
      var i :| 0 <= i < |ms| && ms[i].key == ms'[0].key;
      assert i == 0 || KeyLessEq(ms[0], ms[i]);
      assert j == 0 || KeyLessEq(ms'[0], ms'[j]);
      LessEqTotal(ms[0].key, ms'[0].key);
      assert ms[0].key == ms'[0].key;
      forall k ensures HasKey(ms[1..], k) <==> HasKey(ms'[1..], k) {
        HasKeyTail(ms, k);
        HasKeyTail(ms', k);
      }
      SortedKeysUnique(ms[1..], ms'[1..]);
      forall n | 0 <= n < |ms| ensures ms[n].key == ms'[n].key {
        if n > 0 { assert ms[1..][n - 1].key == ms'[1..][n - 1].key; }
      }
    }
  }

  lemma HasKeyTail(ms: seq<Member>, k: Utf16)
    requires ms != [] && DistinctKeys(ms)
    ensures HasKey(ms[1..], k) <==> HasKey(ms, k) && k != ms[0].key
  {
    if HasKey(ms[1..], k) {
      var i :| 0 <= i < |ms[1..]| && ms[1..][i].key == k;
      assert ms[i + 1].key == k;
    }
    if i :| 0 <= i < |ms| && ms[i].key == k && k != ms[0].key {
      assert ms[1..][i - 1].key == k;
    }
  }

  lemma MeaningKeys(parent: Json, ms: seq<Member>, k: Utf16)
    requires DistinctKeys(ms) && MembersWithin(parent, ms)
    ensures HasKey(ms, k) <==> k in MembersMeaning(parent, ms)
  {
    if i :| 0 <= i < |ms| && ms[i].key == k {
      MembersMeaningAt(parent, ms, i);
    }
    if k in MembersMeaning(parent, ms) {
      var i := MembersMeaningKey(parent, ms, k);
    }
  }

  lemma {:induction false} SameMeaningSameText(v: Json, w: Json)
    requires Proper(v) && Proper(w) && Meaning(v) == Meaning(w)
    ensures Canonicalize(v) == Canonicalize(w)
    decreases v
  {
    match v {
      case Arr(items) => SameItems(v, items, w, w.items);
      case Obj(ms) =>
        var ms' := w.members;
        var s, s' := Sort(ms, KeyLessEq), Sort(ms', KeyLessEq);
        SortedWithin(v, ms);
        SortedWithin(w, ms');
        MeaningOfSorted(v, ms);
        MeaningOfSorted(w, ms');
        SortedDistinct(ms);
        SortedDistinct(ms');
        SortedByKey(ms);
        SortedByKey(ms');
        forall k ensures HasKey(s, k) <==> HasKey(s', k) {
          MeaningKeys(v, s, k);
          MeaningKeys(w, s', k);
        }
        SortedKeysUnique(s, s');
        forall i | 0 <= i < |s| ensures Meaning(s[i].value) == Meaning(s'[i].value) {
          MembersMeaningAt(v, s, i);
          MembersMeaningAt(w, s', i);
        }
        SameEntries(v, s, w, s');
      case _ =>
    }
  }

  lemma {:induction false} SameItems(p: Json, xs: seq<Json>, p': Json, ys: seq<Json>)
    requires ItemsWithin(p, xs) && ItemsWithin(p', ys)
    requires (forall i :: 0 <= i < |xs| ==> Proper(xs[i])) && (forall i :: 0 <= i < |ys| ==> Proper(ys[i]))
    requires ItemsMeaning(p, xs) == ItemsMeaning(p', ys)
    ensures Items(p, xs) == Items(p', ys)
    decreases p, |xs|
  {
    if xs == [] {
    } else {
      assert ItemsMeaning(p, xs)[0] == ItemsMeaning(p', ys)[0];
      assert ItemsMeaning(p, xs)[1..] == ItemsMeaning(p', ys)[1..];
      SameMeaningSameText(xs[0], ys[0]);
      SameItems(p, xs[1..], p', ys[1..]);
    }
  }

  lemma {:induction false} SameEntries(p: Json, ms: seq<Member>, p': Json, ms': seq<Member>)
    requires MembersWithin(p, ms) && MembersWithin(p', ms') && SameKeys(ms, ms')
    requires forall i :: 0 <= i < |ms| ==> Proper(ms[i].value) && Proper(ms'[i].value)
    requires forall i :: 0 <= i < |ms| ==> Meaning(ms[i].value) == Meaning(ms'[i].value)
    ensures Entries(p, ms) == Entries(p', ms')
    decreases p, |ms|
  {
    if ms == [] {
    } else {
      SameMeaningSameText(ms[0].value, ms'[0].value);
      SameEntries(p, ms[1..], p', ms'[1..]);
    }
  }

  // ---------------------------------------------------------------- main results

  /** The canonical text of a value is JSON that denotes the value. */
  lemma CanonicalRoundTrip(v: Json)
    requires Proper(v)
    ensures ReadValue(Canonicalize(v)) == Some((Meaning(v), []))
  {
    ReadsValue(v, []);
    assert Canonicalize(v) + [] == Canonicalize(v);
  }

  /** Two values have the same canonical text, so the same input to the hash, exactly when
      they are equal up to the order of object keys. */
  lemma CanonicalInjective(v: Json, w: Json)
    requires Proper(v) && Proper(w)
    ensures Canonicalize(v) == Canonicalize(w) <==> Meaning(v) == Meaning(w)
  {
    CanonicalRoundTrip(v);
    CanonicalRoundTrip(w);
    if Meaning(v) == Meaning(w) {
      SameMeaningSameText(v, w);
    }
  }

  // ---------------------------------------------------------------- the order of keys

  /** At the first code unit in which they differ `a` has the smaller one, or `a` ends there. */
  ghost predicate Precedes(a: Utf16, b: Utf16) {
    exists p: nat :: DiffersAt(a, b, p)
  }

  predicate DiffersAt(a: Utf16, b: Utf16, p: nat) {
    && p <= |a| && p < |b| && (forall i :: 0 <= i < p ==> a[i] == b[i])
    && (p == |a| || a[p] < b[p])
  }

  lemma {:induction false} LessEqPrecedes(a: Utf16, b: Utf16)
    requires LessEq(a, b) && a != b
    ensures Precedes(a, b)
  {
    if a == [] || a[0] < b[0] {
      assert DiffersAt(a, b, 0);
    } else {
      assert a == [a[0]] + a[1..] && b == [b[0]] + b[1..];
      LessEqPrecedes(a[1..], b[1..]);
      var p: nat :| DiffersAt(a[1..], b[1..], p);
      forall i | 0 <= i < p + 1 ensures a[i] == b[i] {
        if i > 0 { assert a[i] == a[1..][i - 1] && b[i] == b[1..][i - 1]; }
      }
      assert DiffersAt(a, b, p + 1);
    }
  }

  /** The entries of an object are its members, with the keys rising by code units. */
  lemma KeysRise(v: Json) returns (sorted: seq<Member>)
    requires Proper(v) && v.Obj?
    ensures multiset(sorted) == multiset(v.members)
    ensures MembersWithin(v, sorted) && forall i :: 0 <= i < |sorted| ==> Proper(sorted[i].value)
    ensures Canonicalize(v) == [LBRACE] + Entries(v, sorted) + [RBRACE]
    ensures forall i, j :: 0 <= i < j < |sorted| ==> Precedes(sorted[i].key, sorted[j].key)
  {
    var ms := v.members;
    sorted := Sort(ms, KeyLessEq);
    SortedWithin(v, ms);
    SortMultiset(ms, KeyLessEq);
    SortedByKey(ms);
    SortedDistinct(ms);
    forall i, j | 0 <= i < j < |sorted| ensures Precedes(sorted[i].key, sorted[j].key) {
      assert KeyLessEq(sorted[i], sorted[j]);
      LessEqPrecedes(sorted[i].key, sorted[j].key);
    }
  }
}
