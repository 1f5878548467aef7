/**
  The two pieces of the Java standard library that the notifier's message
  renderer relies on, written out as functions on `string` (`seq<char>`):

  - `ReplaceAll` is `String.replace(CharSequence target, CharSequence replacement)`:
    a literal (not regular-expression) replacement of every occurrence of the
    target, found by scanning left to right and never overlapping a match.
    A `char` here is a Unicode scalar value, where Java's is a UTF-16 code
    unit; the two agree on text without supplementary characters, and for a
    non-empty target whose characters are all in the Basic Multilingual Plane.
  - `ValueOf` is `String.valueOf(int)` restricted to non-negative numbers: the
    shortest decimal rendering of a natural number.
 */
module JavaString {

  /** `s.startsWith(t)`. */
  predicate StartsWith(s: string, t: string) {
    |t| <= |s| && s[..|t|] == t
  }

  /** A prefix is refuted by one position at which the characters differ. */
  lemma DiffersAt(s: string, t: string, k: nat)
    requires k < |t| && (k < |s| ==> s[k] != t[k])
    ensures !StartsWith(s, t)
  {
  }

  /** The target `t` occurs in `s` starting at index `i`. */
  predicate OccursAt(s: string, t: string, i: nat) {
    i + |t| <= |s| && s[i..i + |t|] == t
  }

  /** An occurrence at index 0 is a prefix. */
  lemma OccursAtStart(s: string, t: string)
    ensures OccursAt(s, t, 0) <==> StartsWith(s, t)
  {
    if |t| <= |s| {
      assert s[0..|t|] == s[..|t|];
    }
  }

  /** `s.contains(t)`: the target occurs somewhere (an empty target always does). */
  ghost predicate Contains(s: string, t: string) {
    exists i: nat :: OccursAt(s, t, i)
  }

  /** `s.indexOf(t) == j`: `j` is the first index at which `t` occurs. */
  ghost predicate FirstIndexOf(s: string, t: string, j: nat) {
    OccursAt(s, t, j) && forall i: nat :: i < j ==> !OccursAt(s, t, i)
  }

  /** Replacement of the empty target: Java inserts the replacement before
      every character and once more at the end ("ab" becomes r+"a"+r+"b"+r).
      Java counts UTF-16 code units here, so it also splits a supplementary
      character; this counts Unicode scalar values. */
  function ReplaceEmptyTarget(s: string, r: string): string {
    if s == [] then r else r + [s[0]] + ReplaceEmptyTarget(s[1..], r)
  }

  /** `s.replace(t, r)`: at each position, if `t` starts there it is replaced by
      `r` and the scan resumes after the match; otherwise one character is
      copied. Replacement text is never re-scanned by this same call. */
  function ReplaceAll(s: string, t: string, r: string): string
    decreases |s|
  {
    if t == [] then ReplaceEmptyTarget(s, r)
    else if s == [] then []
    else if StartsWith(s, t) then r + ReplaceAll(s[|t|..], t, r)
    else [s[0]] + ReplaceAll(s[1..], t, r)
  }

  /** The number of occurrences of `t` that `ReplaceAll` matches in `s`. */
  function MatchCount(s: string, t: string): nat
    decreases |s|
  {
    if t == [] then |s| + 1
    else if s == [] then 0
    else if StartsWith(s, t) then 1 + MatchCount(s[|t|..], t)
    else MatchCount(s[1..], t)
  }

  /** Every matched occurrence changes the length by |r| - |t|. */
  lemma {:induction false} ReplaceAllLength(s: string, t: string, r: string)
    ensures |ReplaceAll(s, t, r)| == |s| + MatchCount(s, t) * (|r| - |t|)
    decreases |s|
  {
    if t == [] {
      ReplaceEmptyTargetLength(s, r);
    } else if s == [] {
    } else if StartsWith(s, t) {
      var rest := s[|t|..];
      ReplaceAllLength(rest, t, r);
      OneMoreMatch(|s|, |rest|, |r|, |t|, MatchCount(rest, t), |ReplaceAll(rest, t, r)|);
    } else {
      ReplaceAllLength(s[1..], t, r);
    }
  }

  /** The arithmetic of one more match: |r| more output characters and |t|
      fewer input characters. */
  lemma OneMoreMatch(n: int, rest: int, lr: int, lt: int, c: int, out: int)
    requires rest == n - lt && out == rest + c * (lr - lt)
    ensures lr + out == n + (1 + c) * (lr - lt)
  {
  }

  lemma {:induction false} ReplaceEmptyTargetLength(s: string, r: string)
    ensures |ReplaceEmptyTarget(s, r)| == |s| + (|s| + 1) * |r|
    decreases |s|
  {
    if s != [] {
      ReplaceEmptyTargetLength(s[1..], r);
      assert (|s| + 1) * |r| == |r| + |s| * |r|;
    }
  }

  /** Matches never overlap: a non-empty target fits at most |s| / |t| times. */
  lemma {:induction false} MatchCountBound(s: string, t: string)
    requires t != []
    ensures MatchCount(s, t) * |t| <= |s|
    decreases |s|
  {
    if s == [] {
    } else if StartsWith(s, t) {
      var rest := s[|t|..];
      MatchCountBound(rest, t);
      OneMoreFits(|s|, |rest|, |t|, MatchCount(rest, t));
    } else {
      MatchCountBound(s[1..], t);
    }
  }

  /** The arithmetic of one more match: c matches fit in what is left after it. */
  lemma OneMoreFits(n: int, rest: int, lt: int, c: int)
    requires rest == n - lt && c * lt <= rest
    ensures (1 + c) * lt <= n
  {
    assert (1 + c) * lt == lt + c * lt;
  }

  /** An occurrence in the tail is an occurrence in `s`, one index further on. */
  lemma OccursInTail(s: string, t: string, i: nat)
    requires s != []
    ensures OccursAt(s[1..], t, i) <==> OccursAt(s, t, i + 1)
  {
    if i + 1 + |t| <= |s| {
      assert s[1..][i..i + |t|] == s[i + 1..i + 1 + |t|];
    }
  }

  /** `ReplaceAll` finds a match exactly when the target occurs. */
  lemma {:induction false} MatchCountZeroIff(s: string, t: string)
    ensures MatchCount(s, t) == 0 <==> !Contains(s, t)
    decreases |s|
  {
    OccursAtStart(s, t);
    if t == [] {
      assert OccursAt(s, t, 0);
    } else if s == [] {
      forall i: nat ensures !OccursAt(s, t, i) {}
    } else if StartsWith(s, t) {
      assert OccursAt(s, t, 0);
    } else {
      MatchCountZeroIff(s[1..], t);
      if Contains(s, t) {
        var i: nat :| OccursAt(s, t, i);
        assert i != 0;
        OccursInTail(s, t, i - 1);
        assert OccursAt(s[1..], t, i - 1);
      }
      if Contains(s[1..], t) {
        var i: nat :| OccursAt(s[1..], t, i);
        OccursInTail(s, t, i);
      }
    }
  }

  /** A string in which the target does not occur is left unchanged. */
  lemma ReplaceAllAbsent(s: string, t: string, r: string)
    requires !Contains(s, t)
    ensures ReplaceAll(s, t, r) == s
  {
    MatchCountZeroIff(s, t);
    NoMatchUnchanged(s, t, r);
  }

  lemma {:induction false} NoMatchUnchanged(s: string, t: string, r: string)
    requires MatchCount(s, t) == 0
    ensures ReplaceAll(s, t, r) == s
    decreases |s|
  {
    if s != [] {
      NoMatchUnchanged(s[1..], t, r);
    }
  }

  /** Where the target does not start, one character is copied. */
  lemma CopyOneChar(s: string, t: string, r: string)
    requires t != [] && s != [] && !StartsWith(s, t)
    ensures ReplaceAll(s, t, r) == [s[0]] + ReplaceAll(s[1..], t, r)
  {
  }

  /** `s.indexOf(t)`: the first index at which `t` starts, or -1. */
  function IndexOf(s: string, t: string): (k: int)
    ensures k == -1 || 0 <= k <= |s| - |t|
    decreases |s|
  {
    if StartsWith(s, t) then 0
    else if s == [] then -1
    else (var k := IndexOf(s[1..], t); if k < 0 then -1 else k + 1)
  }

  /** `IndexOf` finds the first occurrence, and reports -1 exactly when there is none. */
  lemma {:induction false} IndexOfIsFirst(s: string, t: string)
    ensures IndexOf(s, t) >= 0 ==> FirstIndexOf(s, t, IndexOf(s, t))
    ensures IndexOf(s, t) < 0 <==> !Contains(s, t)
    decreases |s|
  {
    OccursAtStart(s, t);
    if StartsWith(s, t) {
    } else if s == [] {
      forall i: nat ensures !OccursAt(s, t, i) {}
    } else {
      IndexOfIsFirst(s[1..], t);
      forall i: nat ensures OccursAt(s[1..], t, i) <==> OccursAt(s, t, i + 1) {
        OccursInTail(s, t, i);
      }
      if Contains(s, t) {
        var i: nat :| OccursAt(s, t, i);
        assert i != 0 && OccursAt(s[1..], t, i - 1);
      }
      var k := IndexOf(s[1..], t);
      if k >= 0 {
        forall i: nat | i < k + 1 ensures !OccursAt(s, t, i) {
          if i > 0 {
            assert !OccursAt(s[1..], t, i - 1);
          }
        }
      }
    }
  }

  /** `ReplaceAll` of `s` is the text before index `j`, then `r`, then the
      replacement continued after an occurrence of `t` at `j`. */
  predicate SplitsAt(s: string, t: string, r: string, j: nat)
    requires j + |t| <= |s|
  {
    ReplaceAll(s, t, r) == s[..j] + r + ReplaceAll(s[j + |t|..], t, r)
  }

  /** The scan as `String.replace` runs it with `indexOf`: everything before
      the first occurrence is copied, the occurrence becomes `r`, and the scan
      resumes right after it. */
  lemma {:induction false} ReplaceAllAtIndexOf(s: string, t: string, r: string)
    requires t != [] && IndexOf(s, t) >= 0
    ensures SplitsAt(s, t, r, IndexOf(s, t))
    decreases |s|, 1
  {
    if StartsWith(s, t) {
      ReplacedAtStart(s, t, r);
    } else {
      ReplaceAllPastNonMatch(s, t, r);
    }
  }

  /** The case of `ReplaceAllAtIndexOf` where the target starts at index 0. */
  lemma ReplacedAtStart(s: string, t: string, r: string)
    requires t != [] && StartsWith(s, t)
    ensures IndexOf(s, t) == 0 && SplitsAt(s, t, r, 0)
  {
    assert s[..0] == [];
  }

  /** The case of `ReplaceAllAtIndexOf` where the target does not start at 0. */
  lemma {:induction false} ReplaceAllPastNonMatch(s: string, t: string, r: string)
    requires t != [] && IndexOf(s, t) >= 0 && !StartsWith(s, t)
    ensures SplitsAt(s, t, r, IndexOf(s, t))
    decreases |s|, 0
  {
    var k := IndexOf(s[1..], t);
    assert IndexOf(s, t) == k + 1;
    ReplaceAllAtIndexOf(s[1..], t, r);
    CopiedThenReplaced(s, t, r, k);
  }

  /** One copied character in front of the tail's first-occurrence split gives
      the split of `s`. */
  lemma CopiedThenReplaced(s: string, t: string, r: string, k: nat)
    requires t != [] && s != [] && !StartsWith(s, t) && k + |t| < |s|
    requires SplitsAt(s[1..], t, r, k)
    ensures SplitsAt(s, t, r, k + 1)
  {
    CopyOneChar(s, t, r);
    assert s[1..][k + |t|..] == s[k + 1 + |t|..];
    PrependCopied(s, k + 1, r, ReplaceAll(s[k + 1 + |t|..], t, r), ReplaceAll(s[1..], t, r));
  }

  /** Copying the first character, then the rest of the prefix, copies the prefix. */
  lemma PrependCopied(s: string, j: nat, r: string, after: string, rest: string)
    requires 0 < j <= |s|
    requires rest == s[1..][..j - 1] + r + after
    ensures [s[0]] + rest == s[..j] + r + after
  {
    assert s[..j] == [s[0]] + s[1..][..j - 1];
  }

  /** The target on its own becomes exactly the replacement. */
  lemma ReplaceAllWhole(t: string, r: string)
    requires t != []
    ensures ReplaceAll(t, t, r) == r
  {
    assert t[..|t|] == t;
    assert t[|t|..] == [];
  }

  /** Text holding no first character of the target is copied through, and
      the scan resumes with what follows it. */
  lemma {:induction false} ReplaceAllPastLiteral(a: string, b: string, t: string, r: string)
    requires t != [] && t[0] !in a
    ensures ReplaceAll(a + b, t, r) == a + ReplaceAll(b, t, r)
    decreases |a|
  {
    if a == [] {
      assert a + b == b;
    } else {
      assert ReplaceAll(a + b, t, r) == [a[0]] + ReplaceAll(a[1..] + b, t, r) by {
        DiffersAt(a + b, t, 0);
        CopyHead(a, b, t, r);
      }
      assert t[0] !in a[1..];
      ReplaceAllPastLiteral(a[1..], b, t, r);
      Regroup(a, ReplaceAll(a[1..] + b, t, r), ReplaceAll(b, t, r));
    }
  }

  /** The first character put back in front of the rest of `a`. */
  lemma Regroup(a: string, y: string, x: string)
    requires a != [] && y == a[1..] + x
    ensures [a[0]] + y == a + x
  {
    assert [a[0]] + a[1..] == a;
  }

  /** The target at the front is replaced, and the scan resumes after it. */
  lemma ReplaceAllAtTarget(b: string, t: string, r: string)
    requires t != []
    ensures ReplaceAll(t + b, t, r) == r + ReplaceAll(b, t, r)
  {
    assert (t + b)[..|t|] == t;
    assert (t + b)[|t|..] == b;
  }

  /** Two strings neither of which is a prefix of the other differ at some
      position both have. */
  lemma Diverge(u: string, t: string) returns (k: nat)
    requires !StartsWith(u, t) && !StartsWith(t, u)
    ensures k < |u| && k < |t| && u[k] != t[k]
  {
    if |t| <= |u| {
      assert u[..|t|] != t;
      k :| k < |t| && u[..|t|][k] != t[k];
    } else {
      assert t[..|u|] != u;
      k :| k < |u| && t[..|u|][k] != u[k];
    }
  }

  /** Another placeholder (a leading character that does not come back, and
      neither placeholder a prefix of the other) is copied through whole. */
  lemma ReplaceAllPastOther(u: string, b: string, t: string, r: string)
    requires t != [] && u != [] && t[0] !in u[1..]
    requires !StartsWith(u, t) && !StartsWith(t, u)
    ensures ReplaceAll(u + b, t, r) == u + ReplaceAll(b, t, r)
  {
    assert ReplaceAll(u + b, t, r) == [u[0]] + ReplaceAll(u[1..] + b, t, r) by {
      var k := Diverge(u, t);
      DiffersAt(u + b, t, k);
      CopyHead(u, b, t, r);
    }
    ReplaceAllPastLiteral(u[1..], b, t, r);
    Regroup(u, ReplaceAll(u[1..] + b, t, r), ReplaceAll(b, t, r));
  }

  /** Where the target does not start, the first character of `u` is copied. */
  lemma CopyHead(u: string, b: string, t: string, r: string)
    requires t != [] && u != [] && !StartsWith(u + b, t)
    ensures ReplaceAll(u + b, t, r) == [u[0]] + ReplaceAll(u[1..] + b, t, r)
  {
    CopyOneChar(u + b, t, r);
    assert (u + b)[1..] == u[1..] + b;
  }

  /** Replacing a target by itself changes nothing. */
  lemma {:induction false} ReplaceAllBySelf(s: string, t: string)
    requires t != []
    ensures ReplaceAll(s, t, t) == s
    decreases |s|
  {
    if s == [] {
    } else if StartsWith(s, t) {
      ReplaceAllBySelf(s[|t|..], t);
      assert s == s[..|t|] + s[|t|..];
    } else {
      ReplaceAllBySelf(s[1..], t);
    }
  }

  /** If the first character of the target does not appear in `s`, the target
      does not occur in `s`. */
  lemma AbsentLead(s: string, t: string)
    requires t != [] && t[0] !in s
    ensures !Contains(s, t)
  {
    forall i: nat ensures !OccursAt(s, t, i) {
      if i + |t| <= |s| {
        assert s[i..i + |t|][0] == s[i];
      }
    }
  }

  /** A target that starts with a character occurring only at the head of `s`
      can only occur at index 0, and a differing character at index `k` rules
      that out too. */
  lemma AbsentByLead(s: string, t: string, k: nat)
    requires s != [] && t != [] && t[0] !in s[1..]
    requires k < |t| && (k < |s| ==> s[k] != t[k])
    ensures !Contains(s, t)
  {
    DiffersAt(s, t, k);
    OccursAtStart(s, t);
    forall i: nat | 0 < i ensures !OccursAt(s, t, i) {
      if i + |t| <= |s| {
        assert s[i..i + |t|][0] == s[1..][i - 1];
      }
    }
  }

  // ---------------------------------------------------------------------------
  // String.valueOf for a non-negative build number

  predicate IsDigit(c: char) {
    '0' <= c <= '9'
  }

  function DigitChar(d: nat): (c: char)
    requires d < 10
    ensures IsDigit(c)
  {
    ['0', '1', '2', '3', '4', '5', '6', '7', '8', '9'][d]
  }

  function DigitValue(c: char): nat
    requires IsDigit(c)
  {
    (c as int - '0' as int) as nat
  }

  /** `String.valueOf(n)`: digits only, at least one, and no leading zero
      unless the number is zero itself. */
  function ValueOf(n: nat): (r: string)
    ensures |r| >= 1
    ensures forall k :: 0 <= k < |r| ==> IsDigit(r[k])
    ensures r[0] == '0' <==> n == 0
    ensures n == 0 ==> r == "0"
    decreases n
  {
    if n < 10 then [DigitChar(n)] else ValueOf(n / 10) + [DigitChar(n % 10)]
  }

  /** Reads a string of decimal digits back as a number (`Integer.parseInt`
      on digit-only input). */
  function ParseDecimal(s: string): nat
    requires forall k :: 0 <= k < |s| ==> IsDigit(s[k])
    decreases |s|
  {
    if s == [] then 0
    else 10 * ParseDecimal(s[..|s| - 1]) + DigitValue(s[|s| - 1])
  }

  /** The decimal rendering reads back as the number it renders. */
  lemma {:induction false} ParseValueOf(n: nat)
    ensures ParseDecimal(ValueOf(n)) == n
    decreases n
  {
    var r := ValueOf(n);
    if n < 10 {
      assert r[..0] == [];
    } else {
      ParseValueOf(n / 10);
      assert r[..|r| - 1] == ValueOf(n / 10);
    }
  }

  /** No placeholder can occur in a decimal rendering: it has no '$'. */
  lemma ValueOfHasNoDollar(n: nat)
    ensures '$' !in ValueOf(n)
  {
    var r := ValueOf(n);
    forall k | 0 <= k < |r| ensures r[k] != '$' {
      assert IsDigit(r[k]);
    }
  }
}
