/** The key that src/lib/idempotency.ts stores a row under. */
module StoredKeys {
  import opened Concat
  import opened Wrappers

  function EnvironmentText(environment: Option<string>): string {
    if environment.Some? then environment.value else "-"
  }

  /** The unique constraint's key: credential hash, resolved environment and client key. */
  function StoredKey(scope: string, environment: Option<string>, clientKey: string): string {
    scope + ":" + EnvironmentText(environment) + ":" + clientKey
  }

  lemma SamePrefix(a: string, x: string, b: string, y: string)
    requires |a| == |b| && a + x == b + y
    ensures a == b && x == y
  {
    assert (a + x)[..|a|] == a && (b + y)[..|b|] == b;
    assert (a + x)[|a|..] == x && (b + y)[|b|..] == y;
  }

  lemma ColonAt(t: string, k: string, j: nat)
    requires ':' !in t && j < |t + ":" + k| && (t + ":" + k)[j] == ':'
    requires forall i :: 0 <= i < j ==> (t + ":" + k)[i] != ':'
    ensures j == |t|
  {
    assert (t + ":" + k)[|t|] == ':';
    assert forall i :: 0 <= i < |t| ==> (t + ":" + k)[i] == t[i];
  }

  lemma FirstColon(t1: string, k1: string, t2: string, k2: string)
    requires ':' !in t1 && ':' !in t2 && t1 + ":" + k1 == t2 + ":" + k2
    ensures t1 == t2 && k1 == k2
  {
    var a, b := t1 + ":" + k1, t2 + ":" + k2;
    assert a[|t1|] == ':' && b[|t2|] == ':';
    assert forall i :: 0 <= i < |t1| ==> b[i] == t1[i];
    ColonAt(t2, k2, |t1|);
    SamePrefix(t1 + ":", k1, t2 + ":", k2);
    assert (t1 + ":")[..|t1|] == t1 && (t2 + ":")[..|t2|] == t2;
  }

  /** Credential hashes have one fixed length; as long as environment ids hold no colon, two
      requests share a stored key exactly when credential, environment text and client key agree. */
  lemma StoredKeySeparates(s1: string, e1: Option<string>, k1: string, s2: string, e2: Option<string>, k2: string)
    requires |s1| == |s2|
    requires ':' !in EnvironmentText(e1) && ':' !in EnvironmentText(e2)
    ensures StoredKey(s1, e1, k1) == StoredKey(s2, e2, k2) <==>
              s1 == s2 && EnvironmentText(e1) == EnvironmentText(e2) && k1 == k2
  {
    var t1, t2 := EnvironmentText(e1), EnvironmentText(e2);
    if StoredKey(s1, e1, k1) == StoredKey(s2, e2, k2) {
      SameScope(s1, e1, k1, s2, e2, k2);
      FirstColon(t1, k1, t2, k2);
    }
  }

  /** Whatever the ids hold, credentials never mix, and within one environment neither do
      client keys. */
  lemma SameScope(s1: string, e1: Option<string>, k1: string, s2: string, e2: Option<string>, k2: string)
    requires |s1| == |s2| && StoredKey(s1, e1, k1) == StoredKey(s2, e2, k2)
    ensures s1 == s2 && EnvironmentText(e1) + ":" + k1 == EnvironmentText(e2) + ":" + k2
    ensures EnvironmentText(e1) == EnvironmentText(e2) ==> k1 == k2
  {
    var t1, t2 := EnvironmentText(e1), EnvironmentText(e2);
    AssocPair(s1, ":", t1, ":", k1);
    AssocPair(s2, ":", t2, ":", k2);
    SamePrefix(s1 + ":", t1 + ":" + k1, s2 + ":", t2 + ":" + k2);
    assert (s1 + ":")[..|s1|] == s1 && (s2 + ":")[..|s2|] == s2;
    if t1 == t2 { SamePrefix(t1 + ":", k1, t2 + ":", k2); }
  }

  /** One environment text continues the other behind a colon. */
  predicate ColonPrefix(t1: string, t2: string) {
    t1 + ":" <= t2
  }

  /** Then a client key can make up for the difference. */
  lemma Collides(scope: string, e1: Option<string>, e2: Option<string>) returns (k1: string, k2: string)
    requires ColonPrefix(EnvironmentText(e1), EnvironmentText(e2))
    ensures EnvironmentText(e1) != EnvironmentText(e2)
    ensures StoredKey(scope, e1, k1) == StoredKey(scope, e2, k2)
  {
    var t1, t2 := EnvironmentText(e1), EnvironmentText(e2);
    var rest := t2[|t1| + 1..];
    k1, k2 := rest + ":c", "c";
    assert t2 == t1 + ":" + rest;
    assert t1 + ":" + k1 == t2 + ":" + k2;
    AssocPair(scope, ":", t1, ":", k1);
    AssocPair(scope, ":", t2, ":", k2);
  }

  lemma SharedKeyIsColonPrefix(t1: string, k1: string, t2: string, k2: string)
    requires t1 + ":" + k1 == t2 + ":" + k2 && |t1| < |t2|
    ensures ColonPrefix(t1, t2)
  {
    var a, b := t1 + ":" + k1, t2 + ":" + k2;
    assert forall i :: 0 <= i < |t1| + 1 ==> (t1 + ":")[i] == a[i];
    assert forall i :: 0 <= i < |t2| ==> t2[i] == b[i];
  }

  lemma SharedKeySameLength(t1: string, k1: string, t2: string, k2: string)
    requires t1 + ":" + k1 == t2 + ":" + k2 && |t1| == |t2|
    ensures t1 == t2
  {
    SamePrefix(t1 + ":", k1, t2 + ":", k2);
    assert (t1 + ":")[..|t1|] == t1 && (t2 + ":")[..|t2|] == t2;
  }

  /** Two environments of one credential are told apart by every pair of client keys if and only
      if neither text continues the other behind a colon. */
  lemma StoredKeySeparatesExactly(scope: string, e1: Option<string>, e2: Option<string>)
    ensures
      var t1, t2 := EnvironmentText(e1), EnvironmentText(e2);
      (forall k1, k2 :: StoredKey(scope, e1, k1) == StoredKey(scope, e2, k2) ==> t1 == t2) <==>
        !ColonPrefix(t1, t2) && !ColonPrefix(t2, t1)
  {
    var t1, t2 := EnvironmentText(e1), EnvironmentText(e2);
    if ColonPrefix(t1, t2) {
      var k1, k2 := Collides(scope, e1, e2);
    } else if ColonPrefix(t2, t1) {
      var k2, k1 := Collides(scope, e2, e1);
    } else {
      forall k1, k2 | StoredKey(scope, e1, k1) == StoredKey(scope, e2, k2) ensures t1 == t2 {
        SameScope(scope, e1, k1, scope, e2, k2);
        if |t1| < |t2| {
          SharedKeyIsColonPrefix(t1, k1, t2, k2);
        } else if |t2| < |t1| {
          SharedKeyIsColonPrefix(t2, k2, t1, k1);
        } else {
          SharedKeySameLength(t1, k1, t2, k2);
        }
      }
    }
  }

  /** The environments `a` and `a:b`, for one. */
  lemma StoredKeyCollision()
    ensures StoredKey("s", Some("a"), "b:c") == StoredKey("s", Some("a:b"), "c")
  {
    assert "s" + ":" + "a" + ":" + "b:c" == "s:a:b:c" == "s" + ":" + "a:b" + ":" + "c";
  }
}
