/** Small values and string operations from the Rust standard library that the
    package manager relies on: Option, bytes, ASCII lower-casing, prefix and
    suffix tests, and `str::replace`. */
module Prelude {

  datatype Option<T> = None | Some(value: T)

  newtype byte = b: int | 0 <= b < 256

  /** `char::to_lowercase` restricted to ASCII letters. */
  function LowerChar(c: char): char
  {
    if 'A' <= c <= 'Z' then (c as int + 32) as char else c
  }

  /** `str::to_lowercase`, character by character (ASCII letters only). */
  function Lower(s: string): (r: string)
    ensures |r| == |s|
    ensures forall i :: 0 <= i < |s| ==> r[i] == LowerChar(s[i])
  {
    seq(|s|, i requires 0 <= i < |s| => LowerChar(s[i]))
  }

  lemma LowerIdempotent(s: string)
    ensures Lower(Lower(s)) == Lower(s)
  {
  }

  predicate StartsWith(s: string, prefix: string)
  {
    |prefix| <= |s| && s[..|prefix|] == prefix
  }

  predicate EndsWith(s: string, suffix: string)
  {
    |suffix| <= |s| && s[|s| - |suffix|..] == suffix
  }

  /** `str::replace`: every non-overlapping occurrence of `pat`, scanning left
      to right, is replaced by `rep`. */
  function ReplaceAll(s: string, pat: string, rep: string): string
    requires pat != []
    decreases |s|
  {
    if |s| < |pat| then s
    else if s[..|pat|] == pat then rep + ReplaceAll(s[|pat|..], pat, rep)
    else [s[0]] + ReplaceAll(s[1..], pat, rep)
  }

  /** A string without the first character of the pattern is left as it is. */
  lemma {:induction false} ReplaceAllAbsent(s: string, pat: string, rep: string)
    requires pat != [] && pat[0] !in s
    ensures ReplaceAll(s, pat, rep) == s
    decreases |s|
  {
    if |s| >= |pat| {
      assert s[..|pat|][0] == s[0] != pat[0];
      ReplaceAllAbsent(s[1..], pat, rep);
      assert s == [s[0]] + s[1..];
    }
  }

  /** With no possible match starting inside `p`, the first occurrence of the
      pattern is the one right after `p`. */
  lemma {:induction false} ReplaceAllAfter(p: string, pat: string, q: string, rep: string)
    requires pat != [] && pat[0] !in p
    ensures ReplaceAll(p + pat + q, pat, rep) == p + rep + ReplaceAll(q, pat, rep)
    decreases |p|
  {
    var s := p + pat + q;
    if p == [] {
      assert s == pat + q;
      assert s[..|pat|] == pat && s[|pat|..] == q;
    } else {
      var tail := ReplaceAll(q, pat, rep);
      calc {
        ReplaceAll(s, pat, rep);
        { ReplaceAllSkip(s, pat, rep); }
        [p[0]] + ReplaceAll(s[1..], pat, rep);
        { assert s[1..] == p[1..] + pat + q; }
        [p[0]] + ReplaceAll(p[1..] + pat + q, pat, rep);
        { ReplaceAllAfter(p[1..], pat, q, rep); }
        [p[0]] + (p[1..] + rep + tail);
        { assert p == [p[0]] + p[1..]; }
        p + rep + tail;
      }
    }
  }

  /** A string that does not start like the pattern keeps its first character. */
  lemma ReplaceAllSkip(s: string, pat: string, rep: string)
    requires pat != [] && |s| >= |pat| && s[0] != pat[0]
    ensures ReplaceAll(s, pat, rep) == [s[0]] + ReplaceAll(s[1..], pat, rep)
  {
    assert s[..|pat|][0] == s[0];
  }
}
