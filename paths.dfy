/**
 * The parts of `pathlib.PurePosixPath` the converter page uses: `.suffix`,
 * `.stem` and `.with_suffix(...)` on the last segment, and `str(path)`.
 * A relative path is the sequence of its segments.
 */
module Paths {
  import opened Strings

  type Path = seq<string>

  /**
   * `PurePath(name).suffix`: from the last '.' on, unless that dot is the
   * first character (a dotfile such as ".pdf") or the last one.
   */
  function Suffix(name: string): (r: string)
    ensures r == "" || (|r| >= 2 && r[0] == '.' && EndsWith(name, r))
    ensures forall j :: 1 <= j < |r| ==> r[j] != '.'
    ensures r != "" ==> |r| < |name|
  {
    var i := RFind(name, '.');
    if 0 < i < |name| - 1 then name[i..] else ""
  }

  /** `PurePath(name).stem`: the name without its suffix. */
  function Stem(name: string): (r: string)
    ensures r + Suffix(name) == name
    ensures name != "" ==> r != ""
  {
    var i := RFind(name, '.');
    if 0 < i < |name| - 1 then name[..i] else name
  }

  /** A suffix `with_suffix` accepts without raising ValueError: '.', then no '/'. */
  predicate ValidSuffix(suffix: string)
  {
    |suffix| >= 2 && suffix[0] == '.' && NoSlash(suffix)
  }

  /** ".md" is a suffix `with_suffix` accepts. */
  lemma MarkdownSuffixValid()
    ensures ValidSuffix(".md")
  {
    assert forall i :: 0 <= i < |".md"| ==> ".md"[i] != '/';
  }

  /**
   * `path.with_suffix(suffix)`: the last segment loses its old suffix, if
   * any, and gains the new one; the parent is kept.
   */
  function WithSuffix(path: Path, suffix: string): (r: Path)
    requires |path| > 0 && path[|path| - 1] != ""
    requires ValidSuffix(suffix)
    ensures |r| == |path| && r[..|r| - 1] == path[..|path| - 1]
    ensures r[|r| - 1] == Stem(path[|path| - 1]) + suffix
  {
    var name := path[|path| - 1];
    var oldSuffix := Suffix(name);
    var renamed := if oldSuffix == "" then name + suffix else name[..|name| - |oldSuffix|] + suffix;
    path[..|path| - 1] + [renamed]
  }

  /**
   * A non-empty stem followed by a suffix made of one '.' and no other dot
   * splits back into exactly that stem and that suffix.
   */
  lemma StemSuffixSplit(stem: string, suffix: string)
    requires stem != ""
    requires |suffix| >= 2 && suffix[0] == '.'
    requires forall j :: 1 <= j < |suffix| ==> suffix[j] != '.'
    ensures Suffix(stem + suffix) == suffix
    ensures Stem(stem + suffix) == stem
  {
    var s := stem + suffix;
    RFindIs(s, '.', |stem|);
    assert s[|stem|..] == suffix;
  }

  /** A segment free of '/' keeps no '/' when its suffix is swapped for a '/'-free one. */
  lemma WithSuffixSegments(path: Path, suffix: string)
    requires Segments(path) && ValidSuffix(suffix)
    ensures Segments(WithSuffix(path, suffix))
  {
    var r := WithSuffix(path, suffix);
    var name := path[|path| - 1];
    var stem := Stem(name);
    assert stem == name[..|stem|];
    assert forall i :: 0 <= i < |r| - 1 ==> r[i] == path[i];
  }

  /** `with_suffix` looks only at the parent and the stem of the last segment. */
  lemma WithSuffixKeepsStemOnly(p: Path, q: Path, suffix: string)
    requires |p| > 0 && p[|p| - 1] != "" && |q| > 0 && q[|q| - 1] != "" && ValidSuffix(suffix)
    requires p[..|p| - 1] == q[..|q| - 1] && Stem(p[|p| - 1]) == Stem(q[|q| - 1])
    ensures WithSuffix(p, suffix) == WithSuffix(q, suffix)
  {
    var rp, rq := WithSuffix(p, suffix), WithSuffix(q, suffix);
    assert rp == rp[..|rp| - 1] + [rp[|rp| - 1]];
    assert rq == rq[..|rq| - 1] + [rq[|rq| - 1]];
  }
}
