/**
 * The walk over an extracted archive (`process_zip_file`, app.py:104-142).
 * Every entry `rglob('*')` yields is looked at once: directories are passed
 * over, a file whose lower-cased suffix is supported is handed to the
 * converter, and any other file is skipped.  Successes are stored under the
 * relative path with its suffix replaced by ".md", failures under the
 * relative path itself.
 *
 * The specification has two layers: `VisitOf` says what the loop body does
 * with one entry (which branch, which key), and `Replay` folds the visits
 * into the two dicts and three counters.  `Walk` is the loop of the
 * source, proved to compute `Replay(Visits(items))`.
 */
module Walker {
  import opened Strings
  import opened Paths
  import opened Extensions
  import opened OrderedDict

  /** The converter's answer for one file: `result.text_content`, or the text of the exception it raised. */
  datatype Conversion = Success(text: string) | Failure(message: string)

  /**
   * One entry of the enumeration: its path relative to the extraction
   * root, whether it is a file, and what the converter answers for it (the
   * answer is looked at only when the file is converted).
   */
  datatype Item = Item(path: Path, isFile: bool, conversion: Conversion)

  /** A file's relative path has at least one segment, none empty, none holding '/'. */
  predicate SoundItem(it: Item)
  {
    it.isFile ==> Segments(it.path)
  }

  predicate WellFormed(items: seq<Item>)
  {
    forall i :: 0 <= i < |items| ==> SoundItem(items[i])
  }

  /** `rglob` yields each path once. */
  predicate DistinctFiles(items: seq<Item>)
  {
    forall i, j :: 0 <= i < j < |items| && items[i].isFile && items[j].isFile ==> items[i].path != items[j].path
  }

  /** `str(relative_path.with_suffix('.md'))`: where a converted file's text is stored. */
  function ResultKey(path: Path): string
    requires Segments(path)
  {
    Join(WithSuffix(path, ".md"))
  }

  /** `str(relative_path)`: where a failed file's message is stored. */
  function ErrorKey(path: Path): string
  {
    Join(path)
  }

  /** What the loop body does with one entry. */
  datatype Visit =
    | NotAFile
    | Skip
    | Converted(key: string, text: string)
    | Failed(key: string, message: string)

  function VisitOf(it: Item): Visit
    requires SoundItem(it)
  {
    if !it.isFile then NotAFile
    else if IsConvertible(it.path) then
      match it.conversion
      case Success(text) => Converted(ResultKey(it.path), text)
      case Failure(message) => Failed(ErrorKey(it.path), message)
    else Skip
  }

  function Visits(items: seq<Item>): (vs: seq<Visit>)
    requires WellFormed(items)
    ensures |vs| == |items|
  {
    seq(|items|, i requires 0 <= i < |items| => VisitOf(items[i]))
  }

  /**
   * The walk's state: the `results` and `errors` dicts and the counters
   * `processed_files_count`, `skipped_files_count` and
   * `files_processed_so_far`.
   */
  datatype Tally = Tally(
    results: Dict<string>,
    errors: Dict<string>,
    processed: nat,
    skipped: nat,
    seen: nat)

  /** One visit recorded in the state. */
  function Record(t: Tally, v: Visit): Tally
  {
    match v
    case NotAFile => t
    case Skip => t.(skipped := t.skipped + 1, seen := t.seen + 1)
    case Converted(key, text) =>
      t.(results := t.results.Put(key, text), processed := t.processed + 1, seen := t.seen + 1)
    case Failed(key, message) =>
      t.(errors := t.errors.Put(key, message), seen := t.seen + 1)
  }

  /** The state after recording `vs` in order, starting from empty dicts and zero counters. */
  function Replay(vs: seq<Visit>): Tally
  {
    if vs == [] then Tally(Empty(), Empty(), 0, 0, 0)
    else Record(Replay(vs[..|vs| - 1]), vs[|vs| - 1])
  }

  /** `sum(1 for item in base_path.rglob('*') if item.is_file())`, over visits. */
  function CountFiles(vs: seq<Visit>): nat
  {
    if vs == [] then 0 else CountFiles(vs[..|vs| - 1]) + (if vs[|vs| - 1].NotAFile? then 0 else 1)
  }

  function CountConverted(vs: seq<Visit>): nat
  {
    if vs == [] then 0 else CountConverted(vs[..|vs| - 1]) + (if vs[|vs| - 1].Converted? then 1 else 0)
  }

  function CountFailed(vs: seq<Visit>): nat
  {
    if vs == [] then 0 else CountFailed(vs[..|vs| - 1]) + (if vs[|vs| - 1].Failed? then 1 else 0)
  }

  function CountSkipped(vs: seq<Visit>): nat
  {
    if vs == [] then 0 else CountSkipped(vs[..|vs| - 1]) + (if vs[|vs| - 1].Skip? then 1 else 0)
  }

  /** The loop of `process_zip_file`, after the first pass has counted the files. */
  method Walk(items: seq<Item>)
    returns (results: Dict<string>, errors: Dict<string>, processed: nat, skipped: nat, seen: nat, total: nat)
    requires WellFormed(items)
    ensures Tally(results, errors, processed, skipped, seen) == Replay(Visits(items))
    ensures total == CountFiles(Visits(items)) && seen == total
    ensures processed == CountConverted(Visits(items)) && skipped == CountSkipped(Visits(items))
    ensures processed + CountFailed(Visits(items)) + skipped == total
    ensures results.Valid() && errors.Valid()
    ensures results.entries.Keys !! errors.entries.Keys
    ensures |results.entries| <= processed
  {
    ghost var vs := Visits(items);
    total := CountFiles(Visits(items));
    results, errors := Empty(), Empty();
    processed, skipped, seen := 0, 0, 0;
    var i := 0;
    while i < |items|
      invariant 0 <= i <= |items|
      invariant Tally(results, errors, processed, skipped, seen) == Replay(vs[..i])
      invariant seen == CountFiles(vs[..i]) <= total
    {
      var item := items[i];
      if item.isFile {
        if IsConvertible(item.path) {
          match item.conversion {
            case Success(text) =>
              results := results.Put(ResultKey(item.path), text);
              processed := processed + 1;
            case Failure(message) =>
              errors := errors.Put(ErrorKey(item.path), message);
          }
          seen := seen + 1;
        } else {
          skipped := skipped + 1;
          seen := seen + 1;
        }
      }
      ReplayStep(vs, i);
      i := i + 1;
      CountFilesPrefix(vs, i);
    }
    assert vs[..i] == vs;
    ghost var t := Replay(vs);
    WalkSummary(items, vs, t);
  }

  /** The fold takes one more visit at a time. */
  lemma ReplayStep(vs: seq<Visit>, i: nat)
    requires i < |vs|
    ensures Replay(vs[..i + 1]) == Record(Replay(vs[..i]), vs[i])
    ensures CountFiles(vs[..i + 1]) == CountFiles(vs[..i]) + (if vs[i].NotAFile? then 0 else 1)
  {
    assert vs[..i + 1][..i] == vs[..i];
  }

  /** What the finished walk promises, gathered from the lemmas below. */
  lemma WalkSummary(items: seq<Item>, vs: seq<Visit>, t: Tally)
    requires WellFormed(items) && vs == Visits(items) && t == Replay(vs)
    ensures t.processed == CountConverted(vs) && t.skipped == CountSkipped(vs) && t.seen == CountFiles(vs)
    ensures t.processed + CountFailed(vs) + t.skipped == CountFiles(vs)
    ensures t.results.Valid() && t.errors.Valid()
    ensures t.results.entries.Keys !! t.errors.entries.Keys
    ensures |t.results.entries| <= t.processed
  {
    ReplayCounts(vs);
    CountsPartition(vs);
    ReplayValid(vs);
    VisitsKeysApart(items);
    ResultsErrorsDisjoint(vs);
    ResultsAtMostConverted(vs);
  }

  /** The running count never passes the count of the first pass. */
  lemma {:induction false} CountFilesPrefix(vs: seq<Visit>, i: nat)
    requires i <= |vs|
    ensures CountFiles(vs[..i]) <= CountFiles(vs)
  {
    if i < |vs| {
      var front := vs[..|vs| - 1];
      assert vs[..i] == front[..i];
      CountFilesPrefix(front, i);
    } else {
      assert vs[..i] == vs;
    }
  }

  /** The counters count conversions, skips and files. */
  lemma {:induction false} ReplayCounts(vs: seq<Visit>)
    ensures Replay(vs).processed == CountConverted(vs)
    ensures Replay(vs).skipped == CountSkipped(vs)
    ensures Replay(vs).seen == CountFiles(vs)
  {
    if vs != [] {
      ReplayCounts(vs[..|vs| - 1]);
    }
  }

  /** Every file is converted, failed or skipped, and only one of them. */
  lemma {:induction false} CountsPartition(vs: seq<Visit>)
    ensures CountConverted(vs) + CountFailed(vs) + CountSkipped(vs) == CountFiles(vs)
  {
    if vs != [] {
      CountsPartition(vs[..|vs| - 1]);
    }
  }

  /** Both dicts stay well formed: each key listed once, in insertion order. */
  lemma {:induction false} ReplayValid(vs: seq<Visit>)
    ensures Replay(vs).results.Valid() && Replay(vs).errors.Valid()
  {
    if vs != [] {
      var t, last := Replay(vs[..|vs| - 1]), vs[|vs| - 1];
      ReplayValid(vs[..|vs| - 1]);
      match last
      case Converted(key, text) => PutValid(t.results, key, text);
      case Failed(key, message) => PutValid(t.errors, key, message);
      case _ =>
    }
  }

  /** Every key in `results` comes from a conversion in the walk. */
  lemma {:induction false} ResultKeyHasSource(vs: seq<Visit>, k: string)
    requires k in Replay(vs).results.entries
    ensures exists i :: 0 <= i < |vs| && vs[i].Converted? && vs[i].key == k
  {
    var front := vs[..|vs| - 1];
    if k in Replay(front).results.entries {
      ResultKeyHasSource(front, k);
      var i :| 0 <= i < |front| && front[i].Converted? && front[i].key == k;
      assert vs[i] == front[i];
    }
  }

  /** Every conversion's key is in `results`, whatever comes after it. */
  lemma {:induction false} ConversionIsRecorded(vs: seq<Visit>, i: nat)
    requires i < |vs| && vs[i].Converted?
    ensures vs[i].key in Replay(vs).results.entries
  {
    var front := vs[..|vs| - 1];
    if i < |front| {
      assert front[i] == vs[i];
      ConversionIsRecorded(front, i);
    }
  }

  /** Every key in `errors` comes from a failure in the walk. */
  lemma {:induction false} ErrorKeyHasSource(vs: seq<Visit>, k: string)
    requires k in Replay(vs).errors.entries
    ensures exists i :: 0 <= i < |vs| && vs[i].Failed? && vs[i].key == k
  {
    var front := vs[..|vs| - 1];
    if k in Replay(front).errors.entries {
      ErrorKeyHasSource(front, k);
      var i :| 0 <= i < |front| && front[i].Failed? && front[i].key == k;
      assert vs[i] == front[i];
    }
  }

  /**
   * Every failure's key is in `errors`: a failure is recorded and the walk
   * goes on with the entries after it.
   */
  lemma {:induction false} FailureIsRecorded(vs: seq<Visit>, i: nat)
    requires i < |vs| && vs[i].Failed?
    ensures vs[i].key in Replay(vs).errors.entries
  {
    var front := vs[..|vs| - 1];
    if i < |front| {
      assert front[i] == vs[i];
      FailureIsRecorded(front, i);
    }
  }

  /** No conversion and no failure of the walk share a key. */
  predicate KeysApart(vs: seq<Visit>)
  {
    forall i, j :: 0 <= i < |vs| && 0 <= j < |vs| && vs[i].Converted? && vs[j].Failed? ==> vs[i].key != vs[j].key
  }

  /** With keys apart, no path is both in `results` and in `errors`. */
  lemma ResultsErrorsDisjoint(vs: seq<Visit>)
    requires KeysApart(vs)
    ensures Replay(vs).results.entries.Keys !! Replay(vs).errors.entries.Keys
  {
    var t := Replay(vs);
    forall k | k in t.results.entries && k in t.errors.entries
      ensures false
    {
      ResultKeyHasSource(vs, k);
      ErrorKeyHasSource(vs, k);
    }
  }

  /** Later conversions with the same key overwrite earlier ones, so results never outnumber conversions. */
  lemma {:induction false} ResultsAtMostConverted(vs: seq<Visit>)
    ensures |Replay(vs).results.entries| <= Replay(vs).processed
  {
    if vs != [] {
      ResultsAtMostConverted(vs[..|vs| - 1]);
    }
  }

  /**
   * Two conversions with the same key leave one entry: `results` then
   * holds fewer entries than `processed_files_count` counts.
   */
  lemma {:induction false} OverwriteLosesResult(vs: seq<Visit>, i: nat, j: nat)
    requires i < j < |vs| && vs[i].Converted? && vs[j].Converted? && vs[i].key == vs[j].key
    ensures |Replay(vs).results.entries| < Replay(vs).processed
  {
    var front := vs[..|vs| - 1];
    assert front[i] == vs[i];
    if j < |front| {
      assert front[j] == vs[j];
      OverwriteLosesResult(front, i, j);
    } else {
      ConversionIsRecorded(front, i);
      ResultsAtMostConverted(front);
    }
  }

  /** No conversion after position `i` has key `k`. */
  predicate NotConvertedAfter(vs: seq<Visit>, i: nat, k: string)
  {
    forall j :: i < j < |vs| && vs[j].Converted? ==> vs[j].key != k
  }

  /**
   * The text stored under a key is that of the last conversion with that
   * key; no later conversion has the same key.
   */
  lemma {:induction false} LastConversionWins(vs: seq<Visit>, k: string)
    requires k in Replay(vs).results.entries
    ensures exists i :: 0 <= i < |vs| && vs[i] == Converted(k, Replay(vs).results.entries[k]) && NotConvertedAfter(vs, i, k)
  {
    var front, last := vs[..|vs| - 1], vs[|vs| - 1];
    if last.Converted? && last.key == k {
      assert vs[|vs| - 1] == Converted(k, Replay(vs).results.entries[k]);
    } else {
      LastConversionWins(front, k);
      var i :| 0 <= i < |front| && front[i] == Converted(k, Replay(front).results.entries[k]) && NotConvertedAfter(front, i, k);
      assert vs[i] == front[i];
      assert forall j :: i < j < |front| ==> vs[j] == front[j];
    }
  }

  /** No two failures share a key. */
  predicate FailureKeysDistinct(vs: seq<Visit>)
  {
    forall i, j :: 0 <= i < j < |vs| && vs[i].Failed? && vs[j].Failed? ==> vs[i].key != vs[j].key
  }

  /**
   * With failure keys distinct, every failure has its own entry in
   * `errors`, holding its message.
   */
  lemma {:induction false} ErrorsMatchFailures(vs: seq<Visit>)
    requires FailureKeysDistinct(vs)
    ensures |Replay(vs).errors.entries| == CountFailed(vs)
    ensures forall i :: 0 <= i < |vs| && vs[i].Failed? ==>
      vs[i].key in Replay(vs).errors.entries && Replay(vs).errors.entries[vs[i].key] == vs[i].message
  {
    if vs != [] {
      var front, last := vs[..|vs| - 1], vs[|vs| - 1];
      assert forall i :: 0 <= i < |front| ==> front[i] == vs[i];
      ErrorsMatchFailures(front);
      if last.Failed? && last.key in Replay(front).errors.entries {
        ErrorKeyHasSource(front, last.key);
        assert false;
      }
    }
  }

  /** No two conversions share a key. */
  predicate ConversionKeysDistinct(vs: seq<Visit>)
  {
    forall i, j :: 0 <= i < j < |vs| && vs[i].Converted? && vs[j].Converted? ==> vs[i].key != vs[j].key
  }

  /**
   * With conversion keys distinct, nothing is overwritten: `results` has
   * one entry per conversion, holding its text.
   */
  lemma {:induction false} ResultsMatchConversions(vs: seq<Visit>)
    requires ConversionKeysDistinct(vs)
    ensures |Replay(vs).results.entries| == Replay(vs).processed
    ensures forall i :: 0 <= i < |vs| && vs[i].Converted? ==>
      vs[i].key in Replay(vs).results.entries && Replay(vs).results.entries[vs[i].key] == vs[i].text
  {
    if vs != [] {
      var front, last := vs[..|vs| - 1], vs[|vs| - 1];
      assert forall i :: 0 <= i < |front| ==> front[i] == vs[i];
      ResultsMatchConversions(front);
      if last.Converted? && last.key in Replay(front).results.entries {
        ResultKeyHasSource(front, last.key);
        assert false;
      }
    }
  }

  /**
   * For an archive whose paths are enumerated once, the count one would
   * expect, `|results| + |errors| + skipped == total`, holds exactly when
   * no two conversions share a result key.
   */
  lemma CountsAddUpIff(items: seq<Item>)
    requires WellFormed(items) && DistinctFiles(items)
    ensures var vs := Visits(items); var t := Replay(vs);
      |t.results.entries| + |t.errors.entries| + t.skipped == CountFiles(vs) <==> ConversionKeysDistinct(vs)
  {
    var vs := Visits(items);
    ErrorsOnePerFailure(items);
    ReplayCounts(vs);
    CountsPartition(vs);
    if ConversionKeysDistinct(vs) {
      ResultsMatchConversions(vs);
    } else {
      var i, j :| 0 <= i < j < |vs| && vs[i].Converted? && vs[j].Converted? && vs[i].key == vs[j].key;
      OverwriteLosesResult(vs, i, j);
    }
  }

  /** A ".md" result key is never the path of a convertible file, because ".md" is not supported. */
  lemma KeysNeverClash(p: Path, q: Path)
    requires Segments(p) && Segments(q) && IsConvertible(q)
    ensures ResultKey(p) != ErrorKey(q)
  {
    var renamed := WithSuffix(p, ".md");
    WithSuffixSegments(p, ".md");
    MarkdownNotConvertible(Stem(p[|p| - 1]));
    if Join(renamed) == Join(q) {
      JoinInjective(renamed, q);
      assert false;
    }
  }

  /**
   * When the enumeration yields each path once, `errors` holds one entry
   * per failed file, each with that file's message.
   */
  lemma ErrorsOnePerFailure(items: seq<Item>)
    requires WellFormed(items) && DistinctFiles(items)
    ensures |Replay(Visits(items)).errors.entries| == CountFailed(Visits(items))
  {
    VisitsFailureKeysDistinct(items);
    ErrorsMatchFailures(Visits(items));
  }

  /**
   * The fraction handed to the progress bar after each file, as an exact
   * ratio: `so_far / total`, or 1 when the archive holds no file.
   */
  function Progress(soFar: nat, total: nat): (r: real)
    ensures soFar <= total ==> 0.0 <= r <= 1.0
    ensures soFar == total ==> r == 1.0
    ensures total > 0 ==> r * total as real == soFar as real
  {
    if total > 0 then RatioBounds(soFar, total); soFar as real / total as real else 1.0
  }

  /** A ratio of naturals with a positive denominator: exact, and at most 1 when the numerator is at most the denominator. */
  lemma RatioBounds(a: nat, b: nat)
    requires b > 0
    ensures (a as real / b as real) * b as real == a as real
    ensures 0.0 <= a as real / b as real
    ensures a <= b ==> a as real / b as real <= 1.0
    ensures a == b ==> a as real / b as real == 1.0
  {
    var r := a as real / b as real;
    assert r * b as real == a as real;
    if r > 1.0 {
      assert r * b as real > 1.0 * b as real;
    }
  }

  /** The walk of an archive never files one key under both outcomes. */
  lemma VisitsKeysApart(items: seq<Item>)
    requires WellFormed(items)
    ensures KeysApart(Visits(items))
  {
    var vs := Visits(items);
    forall i, j | 0 <= i < |vs| && 0 <= j < |vs| && vs[i].Converted? && vs[j].Failed?
      ensures vs[i].key != vs[j].key
    {
      KeysNeverClash(items[i].path, items[j].path);
    }
  }

  /** Each path enumerated once gives each failure its own key. */
  lemma VisitsFailureKeysDistinct(items: seq<Item>)
    requires WellFormed(items) && DistinctFiles(items)
    ensures FailureKeysDistinct(Visits(items))
  {
    var vs := Visits(items);
    forall i, j | 0 <= i < j < |vs| && vs[i].Failed? && vs[j].Failed?
      ensures vs[i].key != vs[j].key
    {
      if vs[i].key == vs[j].key {
        JoinInjective(items[i].path, items[j].path);
      }
    }
  }

  /** Files in one folder with the same stem get the same ".md" key. */
  lemma SameStemSameKey(p: Path, q: Path)
    requires Segments(p) && Segments(q)
    requires p[..|p| - 1] == q[..|q| - 1] && Stem(p[|p| - 1]) == Stem(q[|q| - 1])
    ensures ResultKey(p) == ResultKey(q)
  {
    MarkdownSuffixValid();
    WithSuffixKeepsStemOnly(p, q, ".md");
  }

  /** A result key names a Markdown file. */
  lemma ResultKeyIsMarkdown(path: Path)
    requires Segments(path)
    ensures EndsWith(ResultKey(path), ".md")
  {
    var renamed := WithSuffix(path, ".md");
    var stem := Stem(path[|path| - 1]);
    var front := if |renamed| == 1 then "" else Join(renamed[..|renamed| - 1]) + "/";
    assert Join(renamed) == front + (stem + ".md");
    assert Join(renamed) == (front + stem) + ".md";
  }

  /** Every text in `results` is stored under a name ending in ".md". */
  lemma ResultKeysAreMarkdown(items: seq<Item>, k: string)
    requires WellFormed(items) && k in Replay(Visits(items)).results.entries
    ensures EndsWith(k, ".md")
  {
    var vs := Visits(items);
    ResultKeyHasSource(vs, k);
    var i :| 0 <= i < |vs| && vs[i].Converted? && vs[i].key == k;
    ResultKeyIsMarkdown(items[i].path);
  }

  /** A ".zip" found inside an archive is counted as skipped and not opened. */
  lemma NestedArchiveSkipped(it: Item)
    requires SoundItem(it) && it.isFile
    requires EndsWith(Lower(it.path[|it.path| - 1]), ".zip")
    ensures VisitOf(it) == Skip
  {
    NestedArchiveNotConverted(it.path[|it.path| - 1]);
  }
}
