/**
 * The string operations the utility relies on: lower-casing, substring search,
 * search for the last occurrence of a character, and the ordering of strings.
 */
module Strings {

  /** Lower-cases one ASCII letter; every other character is left alone. */
  function LowerAscii(c: char): char
  {
    if 'A' <= c <= 'Z' then (c as int + 32) as char else c
  }

  /** Lower-cases a string character by character (ASCII letters only). */
  function ToLower(s: string): string
  {
    seq(|s|, i requires 0 <= i < |s| => LowerAscii(s[i]))
  }

  /** `sub` occurs in `s` starting at index `k`. */
  predicate OccursAt(s: string, sub: string, k: int)
  {
    0 <= k <= |s| - |sub| && s[k..k + |sub|] == sub
  }

  /** `sub` occurs somewhere in `s` as a contiguous piece. */
  predicate Contains(s: string, sub: string)
  {
    exists k | 0 <= k <= |s| - |sub| :: OccursAt(s, sub, k)
  }

  /** Index of the last occurrence of `c` in `s`, or -1 when there is none. */
  function LastIndex(s: string, c: char): (r: int)
    ensures -1 <= r < |s|
    ensures r == -1 <==> c !in s
    ensures 0 <= r ==> s[r] == c && c !in s[r + 1..]
  {
    if |s| == 0 then -1
    else if s[|s| - 1] == c then |s| - 1
    else
      assert s == s[..|s| - 1] + [s[|s| - 1]];
      LastIndex(s[..|s| - 1], c)
  }

  /** In p + [c] + d with no `c` in d, the last `c` is the one after p. */
  lemma {:induction false} LastIndexOfJoin(p: string, c: char, d: string)
    requires c !in d
    ensures LastIndex(p + [c] + d, c) == |p|
  {
    if |d| > 0 {
      var s := p + [c] + d;
      assert s[..|s| - 1] == p + [c] + d[..|d| - 1];
      LastIndexOfJoin(p, c, d[..|d| - 1]);
    }
  }

  /**
   * Lexicographic order on strings, element by element: a proper prefix comes
   * first, otherwise the first differing character decides.
   */
  predicate LexLess(a: string, b: string)
  {
    if |a| == 0 then 0 < |b|
    else if |b| == 0 then false
    else if a[0] != b[0] then a[0] < b[0]
    else LexLess(a[1..], b[1..])
  }

  lemma {:induction false} LexLessIrreflexive(a: string)
    ensures !LexLess(a, a)
  {
    if 0 < |a| {
      LexLessIrreflexive(a[1..]);
    }
  }

  lemma {:induction false} LexLessTransitive(a: string, b: string, c: string)
    requires LexLess(a, b) && LexLess(b, c)
    ensures LexLess(a, c)
  {
    if 0 < |a| && 0 < |b| && 0 < |c| && a[0] == b[0] && b[0] == c[0] {
      LexLessTransitive(a[1..], b[1..], c[1..]);
    }
  }

  /** Any two different strings are ordered one way or the other. */
  lemma {:induction false} LexLessTotal(a: string, b: string)
    requires a != b
    ensures LexLess(a, b) || LexLess(b, a)
  {
    if 0 < |a| && 0 < |b| && a[0] == b[0] {
      assert a == [a[0]] + a[1..] && b == [b[0]] + b[1..];
      LexLessTotal(a[1..], b[1..]);
    }
  }

  lemma {:induction false} LexLessAsymmetric(a: string, b: string)
    requires LexLess(a, b)
    ensures !LexLess(b, a)
  {
    if 0 < |a| && 0 < |b| && a[0] == b[0] {
      LexLessAsymmetric(a[1..], b[1..]);
    }
  }

  /** "Not below" is transitive, which is what a sort by LexLess relies on. */
  lemma NotLessTransitive(a: string, b: string, c: string)
    requires !LexLess(b, a) && !LexLess(c, b)
    ensures !LexLess(c, a)
  {
    if a != b {
      LexLessTotal(a, b);
      if LexLess(c, a) {
        LexLessTransitive(c, a, b);
      }
    }
  }
}
