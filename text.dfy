/** String operations the request handler relies on, with Python's meaning:
    `str.lower`, `str.endswith`, `str.strip`, `", ".join`, `sorted` over
    strings and the `repr` of a list of plain strings. */
module Text {

  // ---------------------------------------------------------------------------
  // Case folding and suffixes

  /** Python's lower-casing of one character, restricted to the mappings that
      can produce an ASCII letter: A-Z and KELVIN SIGN (U+212A), which Python
      lowers to 'k'. Other characters are left unchanged. */
  function LowerChar(c: char): char {
    if 'A' <= c <= 'Z' then (c as int + 32) as char
    else if c == '\U{212A}' then 'k'
    else c
  }

  /** No character of `s` is one that Python's `lower` would fold here. */
  predicate NoUpper(s: string) {
    forall k :: 0 <= k < |s| ==> !('A' <= s[k] <= 'Z') && s[k] != '\U{212A}'
  }

  /** `s.lower()`, character by character: same length, nothing left to fold,
      and every character that is not an upper-case letter kept as it was. */
  function Lower(s: string): (r: string)
    ensures |r| == |s| && NoUpper(r)
    ensures forall k :: 0 <= k < |s| && !('A' <= s[k] <= 'Z') && s[k] != '\U{212A}' ==> r[k] == s[k]
  {
    seq(|s|, i requires 0 <= i < |s| => LowerChar(s[i]))
  }

  /** Lower-casing twice is lower-casing once. */
  lemma LowerIdempotent(s: string)
    ensures Lower(Lower(s)) == Lower(s)
  {
  }

  /** `s.endswith(suffix)`. */
  predicate EndsWith(s: string, suffix: string) {
    |suffix| <= |s| && s[|s| - |suffix|..] == suffix
  }

  // ---------------------------------------------------------------------------
  // Whitespace stripping

  /** Python's `str.isspace` for a single character. */
  predicate IsSpace(c: char) {
    ('\t' <= c <= '\r') || ('\U{1C}' <= c <= '\U{1F}') || c == ' '
    || c == '\U{85}' || c == '\U{A0}' || c == '\U{1680}'
    || ('\U{2000}' <= c <= '\U{200A}') || c == '\U{2028}' || c == '\U{2029}'
    || c == '\U{202F}' || c == '\U{205F}' || c == '\U{3000}'
  }

  ghost predicate AllSpace(s: string) {
    forall k :: 0 <= k < |s| ==> IsSpace(s[k])
  }

  /** `s.lstrip()`: the longest suffix of `s` that does not start with whitespace. */
  function TrimStart(s: string): (r: string)
    ensures |r| <= |s| && r == s[|s| - |r|..]
    ensures AllSpace(s[..|s| - |r|])
    ensures r == [] || !IsSpace(r[0])
  {
    if s != [] && IsSpace(s[0]) then
      var r := TrimStart(s[1..]);
      TrimStartStep(s, r);
      r
    else
      s
  }

  lemma TrimStartStep(s: string, r: string)
    requires s != [] && IsSpace(s[0])
    requires |r| <= |s| - 1 && r == s[1..][|s| - 1 - |r|..] && AllSpace(s[1..][..|s| - 1 - |r|])
    ensures r == s[|s| - |r|..] && AllSpace(s[..|s| - |r|])
  {
    forall k | 0 < k < |s| - |r|
      ensures IsSpace(s[k])
    {
      assert s[k] == s[1..][..|s| - 1 - |r|][k - 1];
    }
  }

  /** `s.rstrip()`: the longest prefix of `s` that does not end with whitespace. */
  function TrimEnd(s: string): (r: string)
    ensures |r| <= |s| && r == s[..|r|]
    ensures AllSpace(s[|r|..])
    ensures r == [] || !IsSpace(r[|r| - 1])
  {
    if s != [] && IsSpace(s[|s| - 1]) then
      var r := TrimEnd(s[..|s| - 1]);
      TrimEndStep(s, r);
      r
    else
      s
  }

  lemma TrimEndStep(s: string, r: string)
    requires s != [] && IsSpace(s[|s| - 1])
    requires |r| <= |s| - 1 && r == s[..|s| - 1][..|r|] && AllSpace(s[..|s| - 1][|r|..])
    ensures r == s[..|r|] && AllSpace(s[|r|..])
  {
    forall k | |r| <= k < |s| - 1
      ensures IsSpace(s[k])
    {
      assert s[k] == s[..|s| - 1][|r|..][k - |r|];
    }
  }

  /** `r` is `s` with whitespace removed from both ends: `r` sits in `s` at
      offset `i`, everything around it is whitespace. */
  ghost predicate StrippedAt(s: string, i: int, r: string) {
    0 <= i <= |s| - |r| && r == s[i..i + |r|] && AllSpace(s[..i]) && AllSpace(s[i + |r|..])
  }

  /** Neither starts nor ends with whitespace. */
  predicate IsTrimmed(m: string) {
    m == [] || (!IsSpace(m[0]) && !IsSpace(m[|m| - 1]))
  }

  /** `s.strip()`. Its result is the part of `s` framed by whitespace on both
      sides that neither starts nor ends with whitespace, which determines it
      uniquely (StripUnique). */
  function Strip(s: string): (r: string)
    ensures exists i :: StrippedAt(s, i, r)
    ensures IsTrimmed(r)
  {
    StripFrame(s);
    TrimEnd(TrimStart(s))
  }

  lemma StripFrame(s: string)
    ensures exists i :: StrippedAt(s, i, TrimEnd(TrimStart(s)))
    ensures IsTrimmed(TrimEnd(TrimStart(s)))
  {
    var t := TrimStart(s);
    var i := StrippedBetween(s, t, TrimEnd(t));
  }

  /** Trimming the front of `s` to `t` and then the back of `t` to `r` leaves
      `r` framed by whitespace in `s`. */
  lemma StrippedBetween(s: string, t: string, r: string) returns (i: int)
    requires |t| <= |s| && t == s[|s| - |t|..] && AllSpace(s[..|s| - |t|])
    requires t == [] || !IsSpace(t[0])
    requires |r| <= |t| && r == t[..|r|] && AllSpace(t[|r|..])
    requires r == [] || !IsSpace(r[|r| - 1])
    ensures StrippedAt(s, i, r)
    ensures IsTrimmed(r)
  {
    i := |s| - |t|;
    assert s[i..i + |r|] == t[..|r|];
    assert s[i + |r|..] == t[|r|..];
    assert r != [] ==> r[0] == t[0];
    assert StrippedAt(s, i, r);
  }

  /** The frame of StrippedAt, one character at a time. */
  lemma StrippedAtChars(s: string, i: int, m: string)
    requires StrippedAt(s, i, m)
    ensures forall k :: 0 <= k < i ==> IsSpace(s[k])
    ensures forall k :: i + |m| <= k < |s| ==> IsSpace(s[k])
    ensures forall k :: 0 <= k < |m| ==> s[i + k] == m[k]
  {
    forall k | 0 <= k < i
      ensures IsSpace(s[k])
    {
      assert s[k] == s[..i][k];
    }
    forall k | i + |m| <= k < |s|
      ensures IsSpace(s[k])
    {
      assert s[k] == s[i + |m|..][k - i - |m|];
    }
  }

  /** Two non-empty stretches `s[i..e]` and `s[j..f]` (the second possibly
      empty), each framed by whitespace and each starting and ending with a
      non-space character, are the same stretch. */
  lemma SameFrame(s: string, i: int, e: int, j: int, f: int)
    requires 0 <= i < e <= |s| && 0 <= j <= f <= |s|
    requires !IsSpace(s[i]) && !IsSpace(s[e - 1])
    requires j < f ==> !IsSpace(s[j]) && !IsSpace(s[f - 1])
    requires forall k :: 0 <= k < i ==> IsSpace(s[k])
    requires forall k :: e <= k < |s| ==> IsSpace(s[k])
    requires forall k :: 0 <= k < j ==> IsSpace(s[k])
    requires forall k :: f <= k < |s| ==> IsSpace(s[k])
    ensures i == j && e == f
  {
  }

  /** At most one trimmed stretch of `s` is framed by whitespace. */
  lemma FramedUnique(s: string, i: int, m: string, j: int, r: string)
    requires StrippedAt(s, i, m) && IsTrimmed(m)
    requires StrippedAt(s, j, r) && IsTrimmed(r)
    ensures r == m
  {
    StrippedAtChars(s, i, m);
    StrippedAtChars(s, j, r);
    if m != [] {
      assert s[i] == m[0] && s[i + |m| - 1] == m[|m| - 1];
      assert |r| > 0 ==> s[j] == r[0] && s[j + |r| - 1] == r[|r| - 1];
      SameFrame(s, i, i + |m|, j, j + |r|);
    } else if r != [] {
      // s is all whitespace, yet r starts with a non-space character of s
      assert false;
    }
  }

  /** Whitespace, then a trimmed `m`, then whitespace strips to `m`: the
      contract of Strip has exactly one solution. */
  lemma StripUnique(s: string, i: int, m: string)
    requires StrippedAt(s, i, m) && IsTrimmed(m)
    ensures Strip(s) == m
  {
    var r := Strip(s);
    var j :| StrippedAt(s, j, r);
    FramedUnique(s, i, m, j, r);
  }

  /** A string without leading or trailing whitespace is its own strip. */
  lemma StripOfTrimmed(s: string)
    requires IsTrimmed(s)
    ensures Strip(s) == s
  {
    var r := Strip(s);
    var i :| StrippedAt(s, i, r);
    if s != [] {
      assert i == 0;
      assert |r| == |s|;
    }
  }

  /** A string of whitespace strips to the empty string. */
  lemma StripOfBlank(s: string)
    requires AllSpace(s)
    ensures Strip(s) == ""
  {
    var r := Strip(s);
    var i :| StrippedAt(s, i, r);
    assert r == [];
  }

  // ---------------------------------------------------------------------------
  // Ordering and sorting (Python compares strings by code point)

  /** `a <= b` on Python strings: lexicographic by code point, a prefix first. */
  predicate StrLe(a: string, b: string) {
    a == [] || (b != [] && (a[0] < b[0] || (a[0] == b[0] && StrLe(a[1..], b[1..]))))
  }

  lemma {:induction false} StrLeTotal(a: string, b: string)
    ensures StrLe(a, b) || StrLe(b, a)
  {
    if a != [] && b != [] && a[0] == b[0] {
      StrLeTotal(a[1..], b[1..]);
    }
  }

  lemma {:induction false} StrLeAntisymmetric(a: string, b: string)
    requires StrLe(a, b) && StrLe(b, a)
    ensures a == b
  {
    if a != [] && b != [] {
      StrLeAntisymmetric(a[1..], b[1..]);
      assert a == [a[0]] + a[1..] && b == [b[0]] + b[1..];
    }
  }

  lemma {:induction false} StrLeTransitive(a: string, b: string, c: string)
    requires StrLe(a, b) && StrLe(b, c)
    ensures StrLe(a, c)
  {
    if a != [] && a[0] == b[0] && b[0] == c[0] {
      StrLeTransitive(a[1..], b[1..], c[1..]);
    }
  }

  /** Each element is at most its successor. */
  ghost predicate Sorted(s: seq<string>) {
    forall i :: 0 < i < |s| ==> StrLe(s[i - 1], s[i])
  }

  /** Inserts `x` into a sorted sequence, keeping it sorted. */
  function Insert(x: string, s: seq<string>): (r: seq<string>)
    requires Sorted(s)
    ensures Sorted(r)
    ensures multiset(r) == multiset(s) + multiset{x}
    ensures r != [] && (r[0] == x || (s != [] && r[0] == s[0]))
  {
    if s == [] then [x]
    else if StrLe(x, s[0]) then [x] + s
    else
      StrLeTotal(x, s[0]);
      var t := Insert(x, s[1..]);
      assert s == [s[0]] + s[1..];
      [s[0]] + t
  }

  /** `sorted(s)`: a sorted permutation of `s`. */
  function Sort(s: seq<string>): (r: seq<string>)
    ensures Sorted(r)
    ensures multiset(r) == multiset(s)
  {
    if s == [] then []
    else
      assert s == [s[0]] + s[1..];
      Insert(s[0], Sort(s[1..]))
  }

  lemma {:induction false} SortedHeadIsLeast(s: seq<string>, j: int)
    requires Sorted(s) && 0 <= j < |s|
    ensures StrLe(s[0], s[j])
  {
    if j == 0 {
      StrLeTotal(s[0], s[0]);
    } else {
      SortedHeadIsLeast(s, j - 1);
      StrLeTransitive(s[0], s[j - 1], s[j]);
    }
  }

  /** Two sorted sequences with the same elements start with the same element. */
  lemma SortedSameHead(a: seq<string>, b: seq<string>)
    requires Sorted(a) && Sorted(b) && multiset(a) == multiset(b) && a != []
    ensures b != [] && a[0] == b[0]
  {
    assert a[0] in multiset(b) && b[0] in multiset(a);
    var i :| 0 <= i < |b| && b[i] == a[0];
    var j :| 0 <= j < |a| && a[j] == b[0];
    SortedHeadIsLeast(b, i);
    SortedHeadIsLeast(a, j);
    StrLeAntisymmetric(a[0], b[0]);
  }

  lemma TailMultiset(a: seq<string>)
    requires a != []
    ensures multiset(a[1..]) == multiset(a) - multiset{a[0]}
  {
    assert a == [a[0]] + a[1..];
  }

  /** Two sorted sequences with the same elements are the same sequence, so
      the result of `sorted` does not depend on the order of its input. */
  lemma {:induction false} SortedUnique(a: seq<string>, b: seq<string>)
    requires Sorted(a) && Sorted(b) && multiset(a) == multiset(b)
    ensures a == b
  {
    if a == [] {
      assert |b| == |multiset(b)| == 0;
    } else {
      SortedSameHead(a, b);
      TailMultiset(a);
      TailMultiset(b);
      SortedUnique(a[1..], b[1..]);
      assert a == [a[0]] + a[1..] && b == [b[0]] + b[1..];
    }
  }

  lemma SortIgnoresOrder(a: seq<string>, b: seq<string>)
    requires multiset(a) == multiset(b)
    ensures Sort(a) == Sort(b)
  {
    SortedUnique(Sort(a), Sort(b));
  }

  // ---------------------------------------------------------------------------
  // Joining, containment and list representation

  /** `sep.join(parts)`. */
  function Join(sep: string, parts: seq<string>): string {
    if |parts| == 0 then ""
    else if |parts| == 1 then parts[0]
    else parts[0] + sep + Join(sep, parts[1..])
  }

  /** `t in s` for Python strings: `t` occurs in `s` as a contiguous piece. */
  ghost predicate Contains(s: string, t: string) {
    exists k :: OccursAt(s, t, k)
  }

  ghost predicate OccursAt(s: string, t: string, k: int) {
    0 <= k <= |s| - |t| && s[k..k + |t|] == t
  }

  lemma ContainsInContext(a: string, b: string, c: string, t: string)
    requires Contains(b, t)
    ensures Contains(a + b + c, t)
  {
    var k :| OccursAt(b, t, k);
    assert (a + b + c)[|a| + k..|a| + k + |t|] == t;
    assert OccursAt(a + b + c, t, |a| + k);
  }

  lemma ContainsTransitive(s: string, t: string, u: string)
    requires Contains(s, t) && Contains(t, u)
    ensures Contains(s, u)
  {
    var k :| OccursAt(s, t, k);
    var m :| OccursAt(t, u, m);
    forall j | 0 <= j < |u|
      ensures s[k + m + j] == u[j]
    {
      assert u[j] == t[m + j] == s[k + m + j];
    }
    assert s[k + m..k + m + |u|] == u;
    assert OccursAt(s, u, k + m);
  }

  /** Every part of a join occurs in it. */
  lemma {:induction false} JoinContains(sep: string, parts: seq<string>, i: int)
    requires 0 <= i < |parts|
    ensures Contains(Join(sep, parts), parts[i])
  {
    if |parts| == 1 {
      assert OccursAt(Join(sep, parts), parts[0], 0);
    } else if i == 0 {
      ContainsInContext("", parts[0], sep + Join(sep, parts[1..]), parts[0]) by {
        assert OccursAt(parts[0], parts[0], 0);
      }
      assert "" + parts[0] + (sep + Join(sep, parts[1..])) == Join(sep, parts);
    } else {
      JoinContains(sep, parts[1..], i - 1);
      ContainsInContext(parts[0] + sep, Join(sep, parts[1..]), "", parts[i]);
      assert parts[0] + sep + Join(sep, parts[1..]) + "" == Join(sep, parts);
    }
  }

  /** `repr(s)` of a string without quotes, backslashes or unprintable characters. */
  function Quote(s: string): string {
    "'" + s + "'"
  }

  /** `repr(xs)` for a list of such strings: `['a', 'b']`. */
  function ListRepr(xs: seq<string>): string {
    "[" + Join(", ", seq(|xs|, i requires 0 <= i < |xs| => Quote(xs[i]))) + "]"
  }

  lemma ListReprContains(xs: seq<string>, i: int)
    requires 0 <= i < |xs|
    ensures Contains(ListRepr(xs), xs[i])
  {
    var quoted := seq(|xs|, k requires 0 <= k < |xs| => Quote(xs[k]));
    JoinContains(", ", quoted, i);
    ContainsInContext("[", Join(", ", quoted), "]", quoted[i]);
    assert OccursAt(Quote(xs[i]), xs[i], 1);
    ContainsTransitive(ListRepr(xs), quoted[i], xs[i]);
  }

  // ---------------------------------------------------------------------------
  // Sequences without repeated elements

  ghost predicate NoDuplicates<T>(s: seq<T>) {
    forall i, j :: 0 <= i < j < |s| ==> s[i] != s[j]
  }

  /** In a sequence without repetitions every element occurs exactly once. */
  lemma {:induction false} NoDuplicatesMultiplicity<T>(s: seq<T>, x: T)
    requires NoDuplicates(s)
    ensures multiset(s)[x] == if x in s then 1 else 0
  {
    if s != [] {
      assert s == [s[0]] + s[1..];
      assert NoDuplicates(s[1..]);
      NoDuplicatesMultiplicity(s[1..], x);
      if x == s[0] {
        assert x !in s[1..];
      }
    }
  }

  /** Two repetition-free sequences with the same elements are permutations
      of each other. */
  lemma SameElementsSameMultiset<T>(a: seq<T>, b: seq<T>)
    requires NoDuplicates(a) && NoDuplicates(b)
    requires forall x :: x in a <==> x in b
    ensures multiset(a) == multiset(b)
  {
    forall x
      ensures multiset(a)[x] == multiset(b)[x]
    {
      NoDuplicatesMultiplicity(a, x);
      NoDuplicatesMultiplicity(b, x);
    }
  }
}
