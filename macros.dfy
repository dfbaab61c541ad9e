/** The list codec of `src/util/macros.rs`: `vec_to_string` joins a list of
    strings with commas, `string_to_vec` splits a string at every comma. The
    installed-package database stores `provides` and `conflicts` through it. */
module Macros {

  /** Comma-join: one `,` between consecutive elements, none before the first
      or after the last; the empty list joins to the empty string. */
  function Join(v: seq<string>): string
  {
    if |v| == 0 then ""
    else if |v| == 1 then v[0]
    else v[0] + "," + Join(v[1..])
  }

  /** Number of occurrences of `c` in `s`. */
  function Count(s: string, c: char): nat
  {
    if s == [] then 0 else (if s[0] == c then 1 else 0) + Count(s[1..], c)
  }

  /** Appending one element to a non-empty list appends a comma and that element. */
  lemma {:induction false} JoinSnoc(v: seq<string>, x: string)
    requires |v| >= 1
    ensures Join(v + [x]) == Join(v) + "," + x
    decreases |v|
  {
    if |v| > 1 {
      assert (v + [x])[1..] == v[1..] + [x];
      JoinSnoc(v[1..], x);
    }
  }

  /** `vec_to_string`: the loop pushes each element and, except after the
      last one, a comma. */
  method VecToString(v: seq<string>) returns (s: string)
    ensures s == Join(v)
  {
    s := "";
    var x := 0;
    while x < |v|
      invariant 0 <= x <= |v|
      invariant s == Join(v[..x]) + (if 0 < x < |v| then "," else "")
    {
      s := s + v[x];
      if x != |v| - 1 {
        s := s + ",";
      }
      if x > 0 {
        JoinSnoc(v[..x], v[x]);
      }
      assert v[..x + 1] == v[..x] + [v[x]];
      x := x + 1;
    }
    assert v[..x] == v;
  }

  /** `string_to_vec`: `str::split(",")`, which yields one more piece than
      there are commas, none of them containing a comma. */
  function StringToVec(s: string): (r: seq<string>)
    ensures |r| == Count(s, ',') + 1
    ensures forall i :: 0 <= i < |r| ==> ',' !in r[i]
    decreases |s|
  {
    if s == [] then [""]
    else
      var rest := StringToVec(s[1..]);
      if s[0] == ',' then [""] + rest
      else [[s[0]] + rest[0]] + rest[1..]
  }

  lemma {:induction false} JoinPrepend(c: char, v: seq<string>)
    requires |v| >= 1
    ensures Join([[c] + v[0]] + v[1..]) == [c] + Join(v)
  {
    var w := [[c] + v[0]] + v[1..];
    if |v| > 1 {
      assert w[1..] == v[1..];
    }
  }

  /** Splitting and joining again gives back every string. */
  lemma {:induction false} JoinOfSplit(s: string)
    ensures Join(StringToVec(s)) == s
    decreases |s|
  {
    if s != [] {
      var rest := StringToVec(s[1..]);
      JoinOfSplit(s[1..]);
      if s[0] == ',' {
        var w := [""] + rest;
        assert w[1..] == rest;
      } else {
        JoinPrepend(s[0], rest);
      }
      assert s == [s[0]] + s[1..];
    }
  }

  lemma {:induction false} SplitField(a: string)
    requires ',' !in a
    ensures StringToVec(a) == [a]
    decreases |a|
  {
    if a != [] {
      SplitField(a[1..]);
      assert a == [a[0]] + a[1..];
    }
  }

  lemma {:induction false} SplitFieldThenComma(a: string, b: string)
    requires ',' !in a
    ensures StringToVec(a + "," + b) == [a] + StringToVec(b)
    decreases |a|
  {
    var s := a + "," + b;
    if a == [] {
      assert s[1..] == b;
    } else {
      assert s[1..] == a[1..] + "," + b;
      SplitFieldThenComma(a[1..], b);
      assert a == [a[0]] + a[1..];
    }
  }

  /** Joining and splitting again gives back every non-empty list of
      comma-free strings; the empty list comes back as `[""]`. */
  lemma {:induction false} SplitOfJoin(v: seq<string>)
    requires forall i :: 0 <= i < |v| ==> ',' !in v[i]
    ensures StringToVec(Join(v)) == (if v == [] then [""] else v)
    decreases |v|
  {
    if |v| == 1 {
      SplitField(v[0]);
    } else if |v| > 1 {
      SplitFieldThenComma(v[0], Join(v[1..]));
      SplitOfJoin(v[1..]);
      assert v == [v[0]] + v[1..];
    }
  }

  /** A non-empty list of comma-free strings is the split of its join, so
      such a list is determined by its join. */
  lemma SplitUnique(v: seq<string>, s: string)
    requires v != [] && Join(v) == s
    requires forall i :: 0 <= i < |v| ==> ',' !in v[i]
    ensures v == StringToVec(s)
  {
    SplitOfJoin(v);
  }
}
