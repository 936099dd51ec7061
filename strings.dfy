/** The optional value used by decoders and lookups. */
module Wrappers {
  datatype Option<+T> = None | Some(value: T)
}

/**
 * The handful of Python `str` operations the converter page relies on:
 * `lower()`, `endswith()`, `rfind()` and `"/".join(...)`.
 */
module Strings {

  /** Lower-cases one character; only the ASCII letters 'A'..'Z' change. */
  function LowerChar(c: char): (r: char)
    ensures 'A' <= c <= 'Z' ==> 'a' <= r <= 'z' && r as int == c as int + 32
    ensures !('A' <= c <= 'Z') ==> r == c
  {
    if 'A' <= c <= 'Z' then (c as int + 32) as char else c
  }

  /** `s.lower()` restricted to ASCII case mapping. */
  function Lower(s: string): string
  {
    seq(|s|, i requires 0 <= i < |s| => LowerChar(s[i]))
  }

  /** `s.endswith(suffix)`. */
  predicate EndsWith(s: string, suffix: string)
  {
    |suffix| <= |s| && s[|s| - |suffix|..] == suffix
  }

  /** `s.rfind(c)`: the index of the last occurrence of `c`, or -1. */
  function RFind(s: string, c: char): (r: int)
    ensures -1 <= r < |s|
    ensures 0 <= r ==> s[r] == c
    ensures forall j :: r < j < |s| ==> s[j] != c
  {
    if s == [] then -1
    else if s[|s| - 1] == c then |s| - 1
    else RFind(s[..|s| - 1], c)
  }

  /** `"/".join(parts)`, the string form of a relative POSIX path. */
  function Join(parts: seq<string>): string
  {
    if |parts| == 0 then ""
    else if |parts| == 1 then parts[0]
    else Join(parts[..|parts| - 1]) + "/" + parts[|parts| - 1]
  }

  /** The last occurrence is unique: any index that looks like it is it. */
  lemma RFindIs(s: string, c: char, k: int)
    requires -1 <= k < |s|
    requires 0 <= k ==> s[k] == c
    requires forall j :: k < j < |s| ==> s[j] != c
    ensures RFind(s, c) == k
  {
  }

  /** Lower-casing commutes with concatenation. */
  lemma LowerAppend(a: string, b: string)
    ensures Lower(a + b) == Lower(a) + Lower(b)
  {
  }

  /** A string that ends with `t` still does so after both are lower-cased. */
  lemma LowerEndsWith(s: string, t: string)
    requires EndsWith(s, t)
    ensures EndsWith(Lower(s), Lower(t))
  {
    assert s == s[..|s| - |t|] + t;
    LowerAppend(s[..|s| - |t|], t);
  }

  /** Two endings of one string: the shorter is an ending of the longer. */
  lemma EndsWithBoth(s: string, a: string, b: string)
    requires EndsWith(s, a) && EndsWith(s, b) && |b| <= |a|
    ensures EndsWith(a, b)
  {
    assert a[|a| - |b|..] == s[|s| - |b|..];
  }

  /** No '/' occurs in `s`. */
  predicate NoSlash(s: string)
  {
    forall i :: 0 <= i < |s| ==> s[i] != '/'
  }

  /** The segments of a path: at least one, none empty, none holding a '/'. */
  predicate Segments(parts: seq<string>)
  {
    |parts| > 0 && forall i :: 0 <= i < |parts| ==> parts[i] != "" && NoSlash(parts[i])
  }

  /**
   * The last '/' of a joined path separates the joined parent from the
   * last segment; a single segment has no '/'.
   */
  lemma {:induction false} JoinSplit(parts: seq<string>)
    requires Segments(parts)
    ensures |parts| == 1 ==> RFind(Join(parts), '/') == -1 && Join(parts) == parts[0]
    ensures |parts| > 1 ==>
      var j := Join(parts[..|parts| - 1]);
      RFind(Join(parts), '/') == |j|
      && Join(parts)[..|j|] == j
      && Join(parts)[|j| + 1..] == parts[|parts| - 1]
  {
    var last := parts[|parts| - 1];
    if |parts| == 1 {
      RFindIs(Join(parts), '/', -1);
    } else {
      var j := Join(parts[..|parts| - 1]);
      var s := Join(parts);
      assert s == j + "/" + last;
      assert forall i :: |j| < i < |s| ==> s[i] == last[i - |j| - 1];
      RFindIs(s, '/', |j|);
    }
  }

  /** Joining segments loses nothing: distinct paths have distinct strings. */
  lemma {:induction false} JoinInjective(p: seq<string>, q: seq<string>)
    requires Segments(p) && Segments(q)
    requires Join(p) == Join(q)
    ensures p == q
  {
    JoinSplit(p);
    JoinSplit(q);
    if |p| > 1 && |q| > 1 {
      var pp, qq := p[..|p| - 1], q[..|q| - 1];
      assert Segments(pp) && Segments(qq) by {
        assert forall i :: 0 <= i < |pp| ==> pp[i] == p[i];
        assert forall i :: 0 <= i < |qq| ==> qq[i] == q[i];
      }
      JoinInjective(pp, qq);
      assert p == pp + [p[|p| - 1]];
      assert q == qq + [q[|q| - 1]];
    }
  }
}
