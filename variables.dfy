/** Substitution of ${NAME} references in one token of a command line
    (varRegexp and expandVariables, cmdtest.go:661-689). A name is one or more
    characters other than '$', '{' and '}'; the environment is a map from names to
    values, standing for os.LookupEnv. */
module Variables {
  import opened Wrappers
  import opened Text

  predicate IsNameChar(c: char) {
    c != '$' && c != '{' && c != '}'
  }

  /** A reference ${NAME} occupies s[i..j]: what `\$\{([^${}]+)\}` matches. */
  predicate MatchAt(s: string, i: int, j: int) {
    && 0 <= i && i + 4 <= j <= |s|
    && s[i] == '$' && s[i + 1] == '{' && s[j - 1] == '}'
    && forall k | i + 2 <= k < j - 1 :: IsNameChar(s[k])
  }

  /** The name inside the reference at s[i..j]. */
  function NameOf(s: string, i: int, j: int): string
    requires MatchAt(s, i, j)
  {
    s[i + 2..j - 1]
  }

  /** The end of the run of name characters starting at k. */
  function NameEnd(s: string, k: nat): (e: nat)
    requires k <= |s|
    ensures k <= e <= |s|
    ensures forall m | k <= m < e :: IsNameChar(s[m])
    ensures e == |s| || !IsNameChar(s[e])
    decreases |s| - k
  {
    if k == |s| || !IsNameChar(s[k]) then k else NameEnd(s, k + 1)
  }

  /** The end of the reference that starts at i, if one does: since a name cannot
      hold '}', there is at most one. */
  function MatchEndAt(s: string, i: nat): (r: Option<nat>)
    ensures forall j :: MatchAt(s, i, j) <==> r == Some(j)
  {
    if i + 1 < |s| && s[i] == '$' && s[i + 1] == '{' then
      var e := NameEnd(s, i + 2);
      if e > i + 2 && e < |s| && s[e] == '}' then Some(e + 1) else None
    else None
  }

  /** The leftmost reference that starts at or after from. */
  function FindFrom(s: string, from: nat): (r: Option<(nat, nat)>)
    ensures r.Some? ==> from <= r.value.0 && MatchAt(s, r.value.0, r.value.1)
    ensures r.Some? ==> forall i, j | from <= i < r.value.0 :: !MatchAt(s, i, j)
    ensures r.None? ==> forall i, j | from <= i :: !MatchAt(s, i, j)
    decreases |s| - from
  {
    if from >= |s| then None
    else match MatchEndAt(s, from)
      case Some(j) => Some((from, j))
      case None => FindFrom(s, from + 1)
  }

  /** regexp.FindStringSubmatchIndex: the leftmost reference of s. */
  function FindReference(s: string): (r: Option<(nat, nat)>)
    ensures r.Some? ==> MatchAt(s, r.value.0, r.value.1)
    ensures r.Some? ==> forall i, j | i < r.value.0 :: !MatchAt(s, i, j)
    ensures r.None? <==> forall i, j :: !MatchAt(s, i, j)
  {
    FindFrom(s, 0)
  }

  function Prepend(p: string, r: Result<string, string>): Result<string, string> {
    match r
    case Ok(t) => Ok(p + t)
    case Err(e) => Err(e)
  }

  lemma PrependPrepend(a: string, b: string, r: Result<string, string>)
    ensures Prepend(a, Prepend(b, r)) == Prepend(a + b, r)
  {
    if r.Ok? {
      assert a + (b + r.value) == (a + b) + r.value;
    }
  }

  /** The meaning of expandVariables: replace the leftmost reference with its value
      and go on with the text after it, so that a value is never scanned again; an
      undefined name is an error naming it. */
  function Expand(s: string, env: map<string, string>): (r: Result<string, string>)
    ensures (forall i, j :: !MatchAt(s, i, j)) ==> r == Ok(s)
    ensures r.Err? ==> r.error !in env
    decreases |s|
  {
    match FindReference(s)
    case None => Ok(s)
    case Some((i, j)) =>
      var name := NameOf(s, i, j);
      if name !in env then Err(name) else Prepend(s[..i] + env[name], Expand(s[j..], env))
  }

  /** expandVariables. The loop keeps the text written so far, sb, and the part of
      the input not yet scanned, rest. */
  method ExpandVariables(s: string, env: map<string, string>) returns (r: Result<string, string>)
    ensures r == Expand(s, env)
  {
    var sb := "";
    var rest := s;
    PrependPrepend("", "", Expand(s, env));
    assert Prepend("", Expand(s, env)) == Expand(s, env) by {
      if Expand(s, env).Ok? { assert "" + Expand(s, env).value == Expand(s, env).value; }
    }
    while true
      invariant Expand(s, env) == Prepend(sb, Expand(rest, env))
      decreases |rest|
    {
      var m := FindReference(rest);
      if m.None? {
        sb := sb + rest;
        return Ok(sb);
      }
      var (i, j) := m.value;
      var name := rest[i + 2..j - 1];
      if name !in env {
        return Err(name);
      }
      PrependPrepend(sb, rest[..i] + env[name], Expand(rest[j..], env));
      sb := sb + (rest[..i] + env[name]);
      rest := rest[j..];
    }
  }

  // ----- properties -----

  /** Two references cannot overlap: one that starts inside another starts where it does. */
  lemma NoOverlap(s: string, i0: int, j0: int, i: int, j: int)
    requires MatchAt(s, i0, j0) && MatchAt(s, i, j) && i0 <= i < j0
    ensures i == i0 && j == j0
  {
    assert MatchEndAt(s, i) == Some(j);
  }

  /** References after position k of s are the references of s[k..]. */
  lemma MatchShift(s: string, k: nat, i: int, j: int)
    requires k <= |s|
    ensures k <= i && MatchAt(s, i, j) <==> MatchAt(s[k..], i - k, j - k) && k <= i
  {
    if k <= i && MatchAt(s, i, j) {
      assert forall m | i + 2 <= m < j - 1 :: s[k..][m - k] == s[m];
    }
    if k <= i && MatchAt(s[k..], i - k, j - k) {
      assert forall m | i + 2 <= m < j - 1 :: s[k..][m - k] == s[m];
    }
  }

  /** A reference with none before it is the one FindReference finds. */
  lemma FindReferenceAt(s: string, i: nat, j: nat)
    requires MatchAt(s, i, j)
    requires forall i', j' | i' < i :: !MatchAt(s, i', j')
    ensures FindReference(s) == Some((i, j))
  {
    var r := FindReference(s);
    assert r.Some?;
    assert r.value.0 == i;
    assert MatchEndAt(s, i) == Some(j) && MatchEndAt(s, i) == Some(r.value.1);
  }

  /** The references of s are its leftmost one and the references of what follows it. */
  lemma ReferencesAfterLeftmost(s: string, i0: nat, j0: nat)
    requires FindReference(s) == Some((i0, j0))
    ensures forall i, j | MatchAt(s, i, j) :: (i == i0 && j == j0) || (j0 <= i && MatchAt(s[j0..], i - j0, j - j0))
    ensures forall i, j | MatchAt(s[j0..], i, j) ::
      MatchAt(s, i + j0, j + j0) && NameOf(s, i + j0, j + j0) == NameOf(s[j0..], i, j)
  {
    var t := s[j0..];
    forall i, j | MatchAt(s, i, j)
      ensures (i == i0 && j == j0) || (j0 <= i && MatchAt(t, i - j0, j - j0))
    {
      if i < j0 {
        NoOverlap(s, i0, j0, i, j);
      } else {
        MatchShift(s, j0, i, j);
      }
    }
    forall i, j | MatchAt(t, i, j)
      ensures MatchAt(s, i + j0, j + j0) && NameOf(s, i + j0, j + j0) == NameOf(t, i, j)
    {
      MatchShift(s, j0, i + j0, j + j0);
      assert t[i + 2..j - 1] == s[i + j0 + 2..j + j0 - 1];
    }
  }

  /** Expansion succeeds exactly when every reference in s names a defined variable,
      however many references there are and wherever the undefined one is. */
  lemma {:induction false} ExpandSucceedsIff(s: string, env: map<string, string>)
    ensures Expand(s, env).Ok? <==> forall i, j | MatchAt(s, i, j) :: NameOf(s, i, j) in env
    decreases |s|
  {
    match FindReference(s)
    case None =>
    case Some((i0, j0)) =>
      if NameOf(s, i0, j0) in env {
        var t := s[j0..];
        ExpandSucceedsIff(t, env);
        ReferencesAfterLeftmost(s, i0, j0);
        if !Expand(t, env).Ok? {
          var i', j' :| MatchAt(t, i', j') && NameOf(t, i', j') !in env;
          assert MatchAt(s, i' + j0, j' + j0);
        }
      }
  }

  /** A value is inserted as it is: a value that itself looks like a reference is not
      expanded again, so expansion never loops. */
  lemma ValueNotRescanned(name: string, env: map<string, string>)
    requires |name| > 0 && forall k | 0 <= k < |name| :: IsNameChar(name[k])
    requires name in env
    ensures Expand("${" + name + "}", env) == Ok(env[name])
  {
    var s := "${" + name + "}";
    assert MatchAt(s, 0, |s|) by {
      assert forall k | 2 <= k < |s| - 1 :: s[k] == name[k - 2];
    }
    assert NameOf(s, 0, |s|) == name;
    FindReferenceAt(s, 0, |s|);
    assert s[|s|..] == [];
    assert s[..0] + env[name] + [] == env[name];
  }

  /** The environment of the examples in cmdtest_test.go:200-209. */
  function ExampleEnv(): map<string, string> {
    map["A" := "1", "B_C" := "234"]
  }

  /** cmdtest_test.go:213-215. */
  lemma ExpandExamplesDefined()
    ensures Expand("", ExampleEnv()) == Ok("")
    ensures Expand("${A}", ExampleEnv()) == Ok("1")
    ensures Expand("${A}${B_C}", ExampleEnv()) == Ok("1234")
  {
    var env := ExampleEnv();
    ValueNotRescanned("A", env);
    assert "${" + "A" + "}" == "${A}";
    var s := "${A}${B_C}";
    assert MatchAt(s, 0, 4);
    FindReferenceAt(s, 0, 4);
    assert NameOf(s, 0, 4) == "A";
    assert s[4..] == "${" + "B_C" + "}";
    ValueNotRescanned("B_C", env);
    assert s[..0] + "1" + "234" == "1234";
  }

  /** cmdtest_test.go:216: references among other text. */
  lemma ExpandExampleSpaced()
    ensures Expand(" x${A}y  ${B_C}z ", ExampleEnv()) == Ok(" x1y  234z ")
  {
    var env := ExampleEnv();
    var s := " x${A}y  ${B_C}z ";
    assert MatchAt(s, 2, 6);
    FindReferenceAt(s, 2, 6);
    assert NameOf(s, 2, 6) == "A";
    var t := s[6..];
    assert t == "y  ${B_C}z ";
    assert MatchAt(t, 3, 9);
    FindReferenceAt(t, 3, 9);
    assert NameOf(t, 3, 9) == "B_C";
    var u := t[9..];
    assert u == "z ";
    assert Expand(u, env) == Ok(u);
    assert s[..2] + "1" + (t[..3] + "234" + u) == " x1y  234z ";
  }

  /** cmdtest_test.go:217: "${A" is not a reference, so only ${B_C} is replaced. */
  lemma ExpandExampleUnclosed()
    ensures Expand(" ${A${B_C}", ExampleEnv()) == Ok(" ${A234")
  {
    var env := ExampleEnv();
    var s := " ${A${B_C}";
    assert MatchEndAt(s, 1) == None;
    assert MatchAt(s, 4, 10);
    FindReferenceAt(s, 4, 10);
    assert NameOf(s, 4, 10) == "B_C";
    assert s[10..] == [];
    assert s[..4] + "234" + [] == " ${A234";
  }

  /** cmdtest_test.go:230-232: an undefined variable is an error. */
  lemma ExpandExampleUndefined()
    ensures Expand("x${C}y", ExampleEnv()) == Err("C")
  {
    var s := "x${C}y";
    assert MatchAt(s, 1, 5);
    FindReferenceAt(s, 1, 5);
    assert NameOf(s, 1, 5) == "C";
  }

  /** Because substituted text is not scanned again and the text around a reference
      is kept, a successful expansion can still contain a reference: here the "${"
      before ${A} and the "}" after it enclose the value. */
  lemma ExpandedTextMayHoldReference()
    ensures Expand("${${A}}", map["A" := "x"]) == Ok("${x}")
    ensures MatchAt("${x}", 0, 4)
  {
    var env := map["A" := "x"];
    var s := "${${A}}";
    assert MatchEndAt(s, 0) == None;
    assert MatchAt(s, 2, 6);
    FindReferenceAt(s, 2, 6);
    assert NameOf(s, 2, 6) == "A";
    assert s[6..] == "}";
    assert Expand("}", env) == Ok("}");
    assert s[..2] + "x" + "}" == "${x}";
  }
}
