/** The pieces of Go's strings and strconv packages that the test-file format and the
    command language rely on, defined on strings as sequences of characters.
    White space is Go's unicode.IsSpace; integers are those strconv.Atoi accepts
    on a 64-bit platform. */
module Text {
  import opened Wrappers

  /** unicode.IsSpace: the Unicode White_Space characters. */
  predicate IsSpace(c: char) {
    || c == ' ' || c == '\t' || c == '\n' || c == '\U{B}' || c == '\U{C}' || c == '\r'
    || c == '\U{85}' || c == '\U{A0}' || c == '\U{1680}' || ('\U{2000}' <= c <= '\U{200A}')
    || c == '\U{2028}' || c == '\U{2029}' || c == '\U{202F}' || c == '\U{205F}' || c == '\U{3000}'
  }

  predicate HasPrefix(s: string, p: string) {
    |p| <= |s| && s[..|p|] == p
  }

  /** Sub occurs in s at index i. */
  predicate OccursAt(s: string, sub: string, i: int) {
    0 <= i && i + |sub| <= |s| && s[i..i + |sub|] == sub
  }

  predicate Contains(s: string, sub: string) {
    exists i | 0 <= i <= |s| - |sub| :: OccursAt(s, sub, i)
  }

  // ----- trimming -----

  /** The number of white-space characters s starts with. */
  function LeadingSpace(s: string): (n: nat)
    ensures n <= |s|
    ensures forall k | 0 <= k < n :: IsSpace(s[k])
    ensures n == |s| || !IsSpace(s[n])
  {
    if |s| == 0 || !IsSpace(s[0]) then 0 else 1 + LeadingSpace(s[1..])
  }

  /** The index where the white space that s ends with begins. */
  function TrailingSpace(s: string): (n: nat)
    ensures n <= |s|
    ensures forall k | n <= k < |s| :: IsSpace(s[k])
    ensures n == 0 || !IsSpace(s[n - 1])
  {
    if |s| == 0 || !IsSpace(s[|s| - 1]) then |s| else TrailingSpace(s[..|s| - 1])
  }

  predicate Trimmed(s: string) {
    s == [] || (!IsSpace(s[0]) && !IsSpace(s[|s| - 1]))
  }

  /** strings.TrimSpace: s without its leading and trailing white space. */
  function TrimSpace(s: string): (r: string)
    ensures Trimmed(r)
    ensures LeadingSpace(s) + |r| <= |s| && r == s[LeadingSpace(s)..LeadingSpace(s) + |r|]
    ensures forall k | LeadingSpace(s) + |r| <= k < |s| :: IsSpace(s[k])
    ensures Trimmed(s) ==> r == s
  {
    var a := LeadingSpace(s);
    if a == |s| then [] else s[a..TrailingSpace(s)]
  }

  /** A space put before a trimmed string is trimmed off again. */
  lemma TrimSpaceAfterSpace(x: string)
    requires Trimmed(x)
    ensures TrimSpace(" " + x) == x
  {
    var s := " " + x;
    if x != [] {
      assert s[1..] == x;
      assert LeadingSpace(s) == 1;
    }
  }

  /** strings.TrimRight(s, cutset) with the cutset given as a set of characters. */
  function TrimRight(s: string, cutset: set<char>): (r: string)
    ensures |r| <= |s| && r == s[..|r|]
    ensures forall k | |r| <= k < |s| :: s[k] in cutset
    ensures r == [] || r[|r| - 1] !in cutset
  {
    if |s| == 0 || s[|s| - 1] !in cutset then s else TrimRight(s[..|s| - 1], cutset)
  }

  // ----- splitting and joining -----

  /** The index of the first white-space character of s, or |s|. */
  function TokenEnd(s: string): (n: nat)
    ensures n <= |s|
    ensures forall k | 0 <= k < n :: !IsSpace(s[k])
    ensures n == |s| || IsSpace(s[n])
  {
    if |s| == 0 || IsSpace(s[0]) then 0 else 1 + TokenEnd(s[1..])
  }

  /** strings.Fields: the maximal runs of non-white-space characters of s. */
  function Fields(s: string): (r: seq<string>)
    ensures forall t | t in r :: |t| > 0 && forall k | 0 <= k < |t| :: !IsSpace(t[k])
    ensures (forall k | 0 <= k < |s| :: IsSpace(s[k])) <==> r == []
    decreases |s|
  {
    var a := LeadingSpace(s);
    if a == |s| then []
    else
      var t := s[a..];
      var e := TokenEnd(t);
      [t[..e]] + Fields(t[e..])
  }

  /** Fields splits off the leading token: the white space before it is dropped and
      the token ends at the first white space after it. */
  lemma FieldsLeading(w: string, t: string, u: string)
    requires forall k | 0 <= k < |w| :: IsSpace(w[k])
    requires |t| > 0 && forall k | 0 <= k < |t| :: !IsSpace(t[k])
    requires u == [] || IsSpace(u[0])
    ensures Fields(w + t + u) == [t] + Fields(u)
  {
    var s := w + t + u;
    assert s == w + (t + u);
    LeadingSpaceAfter(w, t + u);
    TokenEndBefore(t, u);
    var rest := s[|w|..];
    assert rest == t + u;
    assert rest[..|t|] == t && rest[|t|..] == u;
  }

  /** Fields takes apart the tokens Join put together with single spaces, whatever
      white space comes first. */
  lemma {:induction false} FieldsJoin(w: string, ts: seq<string>)
    requires forall k | 0 <= k < |w| :: IsSpace(w[k])
    requires forall t | t in ts :: |t| > 0 && forall k | 0 <= k < |t| :: !IsSpace(t[k])
    ensures Fields(w + Join(ts, " ")) == ts
    decreases |ts|
  {
    if |ts| == 0 {
      assert w + Join(ts, " ") == w;
    } else if |ts| == 1 {
      FieldsLeading(w, ts[0], []);
      assert w + Join(ts, " ") == w + ts[0] + [];
      assert Fields([]) == [];
    } else {
      FieldsJoin(" ", ts[1..]);
      FieldsJoinStep(w, ts);
    }
  }

  lemma FieldsJoinStep(w: string, ts: seq<string>)
    requires forall k | 0 <= k < |w| :: IsSpace(w[k])
    requires |ts| >= 2 && |ts[0]| > 0 && forall k | 0 <= k < |ts[0]| :: !IsSpace(ts[0][k])
    requires Fields(" " + Join(ts[1..], " ")) == ts[1..]
    ensures Fields(w + Join(ts, " ")) == ts
  {
    var rest := " " + Join(ts[1..], " ");
    JoinFirst(w, ts);
    FieldsLeading(w, ts[0], rest);
    ConsTail(ts);
  }

  lemma ConsTail(ts: seq<string>)
    requires |ts| > 0
    ensures [ts[0]] + ts[1..] == ts
  {
  }

  lemma JoinFirst(w: string, ts: seq<string>)
    requires |ts| >= 2
    ensures w + Join(ts, " ") == w + ts[0] + (" " + Join(ts[1..], " "))
  {
    var j := Join(ts[1..], " ");
    assert Join(ts, " ") == ts[0] + " " + j;
    assert w + (ts[0] + " " + j) == w + ts[0] + (" " + j);
  }

  lemma LeadingSpaceAfter(w: string, x: string)
    requires forall k | 0 <= k < |w| :: IsSpace(w[k])
    requires x != [] && !IsSpace(x[0])
    ensures LeadingSpace(w + x) == |w|
  {
    assert (w + x)[|w|] == x[0];
  }

  lemma TokenEndBefore(t: string, u: string)
    requires forall k | 0 <= k < |t| :: !IsSpace(t[k])
    requires u == [] || IsSpace(u[0])
    ensures TokenEnd(t + u) == |t|
  {
    if u != [] { assert (t + u)[|t|] == u[0]; }
  }

  /** strings.Join */
  function Join(ss: seq<string>, sep: string): string {
    if |ss| == 0 then [] else if |ss| == 1 then ss[0] else ss[0] + sep + Join(ss[1..], sep)
  }

  /** The index of the first c in s, or |s|. */
  function IndexOfChar(s: string, c: char): (i: nat)
    ensures i <= |s|
    ensures forall k | 0 <= k < i :: s[k] != c
    ensures i < |s| ==> s[i] == c
  {
    if |s| == 0 || s[0] == c then 0 else 1 + IndexOfChar(s[1..], c)
  }

  /** strings.Split(s, string(c)): never empty, its pieces hold no c, and they join back to s. */
  function Split(s: string, c: char): (r: seq<string>)
    ensures |r| >= 1
    ensures forall p | p in r :: c !in p
    ensures Join(r, [c]) == s
    decreases |s|
  {
    var i := IndexOfChar(s, c);
    if i == |s| then [s]
    else
      var rest := Split(s[i + 1..], c);
      assert s == s[..i] + [c] + s[i + 1..];
      [s[..i]] + rest
  }

  // ----- searching and replacing -----

  function LastIndexFrom(s: string, sub: string, i: int): (r: int)
    ensures r == -1 || 0 <= r <= i
    ensures r >= 0 ==> OccursAt(s, sub, r)
    ensures forall j | r < j <= i :: !OccursAt(s, sub, j)
    decreases i + 1
  {
    if i < 0 then -1 else if OccursAt(s, sub, i) then i else LastIndexFrom(s, sub, i - 1)
  }

  /** strings.LastIndex: the start of the rightmost occurrence of sub in s, or -1. */
  function LastIndex(s: string, sub: string): (r: int)
    ensures r == -1 || OccursAt(s, sub, r)
    ensures forall j | r < j :: !OccursAt(s, sub, j)
    ensures r == -1 <==> !Contains(s, sub)
  {
    LastIndexFrom(s, sub, |s| - |sub|)
  }

  /** What Go's Replace does with an empty pattern: rep before every character and at the end. */
  function InsertEverywhere(s: string, rep: string): (r: string)
    ensures |r| == |s| + (|s| + 1) * |rep|
  {
    if |s| == 0 then rep else rep + [s[0]] + InsertEverywhere(s[1..], rep)
  }

  /** strings.Replace(s, pat, rep, -1) and bytes.Replace(s, pat, rep, -1): every
      occurrence of pat, taken from left to right without overlap, becomes rep. */
  function Replace(s: string, pat: string, rep: string): (r: string)
    ensures |pat| > 0 && !Contains(s, pat) ==> r == s
    decreases |s|
  {
    if |pat| == 0 then InsertEverywhere(s, rep)
    else if |s| < |pat| then s
    else if s[..|pat|] == pat then
      assert OccursAt(s, pat, 0);
      rep + Replace(s[|pat|..], pat, rep)
    else
      assert forall i | OccursAt(s[1..], pat, i) :: OccursAt(s, pat, i + 1);
      [s[0]] + Replace(s[1..], pat, rep)
  }

  /** With a non-empty replacement sharing no character with the pattern, no
      occurrence of the pattern is left: every one was replaced. */
  lemma {:induction false} ReplaceLeavesNone(s: string, pat: string, rep: string)
    requires |pat| > 0 && |rep| > 0 && forall k | 0 <= k < |pat| :: pat[k] !in rep
    ensures !Contains(Replace(s, pat, rep), pat)
    decreases |s|
  {
    var r := Replace(s, pat, rep);
    if |s| < |pat| {
      assert r == s;
    } else if s[..|pat|] == pat {
      var t := Replace(s[|pat|..], pat, rep);
      ReplaceLeavesNone(s[|pat|..], pat, rep);
      assert r == rep + t;
      NoneAfterReplacement(rep, t, pat);
    } else {
      var t := Replace(s[1..], pat, rep);
      ReplaceLeavesNone(s[1..], pat, rep);
      assert r == [s[0]] + t;
      ReplaceCopiesPrefix(s, pat, rep, pat);
      NoneAfterCopied(s[0], t, pat);
    }
  }

  /** No occurrence starts inside rep, whose characters are not in pat. */
  lemma NoneAfterReplacement(rep: string, t: string, pat: string)
    requires |pat| > 0 && forall k | 0 <= k < |pat| :: pat[k] !in rep
    requires !Contains(t, pat)
    ensures !Contains(rep + t, pat)
  {
    var r := rep + t;
    forall i | 0 <= i <= |r| - |pat| ensures !OccursAt(r, pat, i) {
      if i < |rep| {
        assert r[i..i + |pat|][0] == r[i] == rep[i];
      } else {
        assert r[i..i + |pat|] == t[i - |rep|..i - |rep| + |pat|];
        assert !OccursAt(t, pat, i - |rep|);
      }
    }
  }

  /** An occurrence in [c] + t starts at 0 or is one of t. */
  lemma NoneAfterCopied(c: char, t: string, pat: string)
    requires !Contains(t, pat) && !OccursAt([c] + t, pat, 0)
    ensures !Contains([c] + t, pat)
  {
    var r := [c] + t;
    forall i | 1 <= i <= |r| - |pat| ensures !OccursAt(r, pat, i) {
      assert r[i..i + |pat|] == t[i - 1..i - 1 + |pat|];
      assert !OccursAt(t, pat, i - 1);
    }
  }

  /** Text at the start of Replace's result that holds no character of the
      replacement was copied from the start of s. */
  lemma {:induction false} ReplaceCopiesPrefix(s: string, pat: string, rep: string, q: string)
    requires |pat| > 0 && |rep| > 0 && forall j | 0 <= j < |q| :: q[j] !in rep
    ensures OccursAt(Replace(s, pat, rep), q, 0) ==> OccursAt(s, q, 0)
    decreases |s|
  {
    var r := Replace(s, pat, rep);
    if |s| < |pat| {
      assert r == s;
    } else if s[..|pat|] == pat {
      assert r == rep + Replace(s[|pat|..], pat, rep);
      if |q| > 0 {
        assert r[0] == rep[0];
      }
    } else if |q| > 0 {
      var t := Replace(s[1..], pat, rep);
      assert r == [s[0]] + t;
      ReplaceCopiesPrefix(s[1..], pat, rep, q[1..]);
      if |q| <= |r| {
        assert r[0..|q|] == [s[0]] + t[0..|q| - 1];
      }
      if |q| <= |s| {
        assert s[0..|q|] == [s[0]] + s[1..][0..|q| - 1];
      }
      assert q == [q[0]] + q[1..];
    }
  }

  // ----- integers -----

  const MinInt: int := -0x8000_0000_0000_0000
  const MaxInt: int := 0x7fff_ffff_ffff_ffff

  predicate IsDigit(c: char) {
    '0' <= c <= '9'
  }

  predicate AllDigits(s: string) {
    forall k | 0 <= k < |s| :: IsDigit(s[k])
  }

  /** The value of a string of decimal digits. */
  function DigitsValue(ds: string): nat
    requires AllDigits(ds)
  {
    if |ds| == 0 then 0 else DigitsValue(ds[..|ds| - 1]) * 10 + (ds[|ds| - 1] as int - '0' as int)
  }

  /** strconv.Atoi: an optional sign then at least one decimal digit, in the range of a 64-bit int. */
  function Atoi(s: string): (r: Option<int>)
    ensures r.Some? ==> MinInt <= r.value <= MaxInt
    ensures r.Some? ==> |s| > 0 && (IsDigit(s[0]) || s[0] == '+' || s[0] == '-')
    ensures r.Some? ==> forall k | 1 <= k < |s| :: IsDigit(s[k])
    ensures r.Some? && !IsDigit(s[0]) ==> |s| >= 2
    ensures |s| > 0 && AllDigits(s) && DigitsValue(s) <= MaxInt ==> r == Some(DigitsValue(s))
  {
    if |s| == 0 then None
    else
      var neg := s[0] == '-';
      var ds := if s[0] == '+' || s[0] == '-' then s[1..] else s;
      if |ds| == 0 || !AllDigits(ds) then None
      else
        var d: int := DigitsValue(ds);
        var v := if neg then -d else d;
        if MinInt <= v <= MaxInt then Some(v) else None
  }

  /** The decimal digits of n, most significant first. */
  function NatDigits(n: nat): (r: string)
    ensures |r| > 0 && AllDigits(r)
  {
    if n < 10 then [('0' as int + n) as char]
    else NatDigits(n / 10) + [('0' as int + n % 10) as char]
  }

  /** strconv.Itoa */
  function Itoa(n: int): string {
    if n < 0 then "-" + NatDigits(-n) else NatDigits(n)
  }

  lemma {:induction false} NatDigitsValue(n: nat)
    ensures DigitsValue(NatDigits(n)) == n
  {
    var ds := NatDigits(n);
    if n >= 10 {
      NatDigitsValue(n / 10);
      assert ds[..|ds| - 1] == NatDigits(n / 10);
    }
  }

  /** Atoi reads back what Itoa writes, for every 64-bit integer. */
  lemma AtoiItoa(n: int)
    requires MinInt <= n <= MaxInt
    ensures Atoi(Itoa(n)) == Some(n)
  {
    if n < 0 {
      NatDigitsValue(-n);
      assert Itoa(n)[1..] == NatDigits(-n);
    } else {
      NatDigitsValue(n);
    }
  }
}
