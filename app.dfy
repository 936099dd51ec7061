/**
 * The page's handling of uploaded files (app.py:36-71, 74-190, 202-215):
 * each upload is routed by its name, a single file is converted and
 * offered as "<stem>.md", and an archive is extracted, walked, and its
 * results offered as "<stem>_markdown_results.zip".  The converter's and
 * the extractor's answers are inputs, carried by each upload.
 */
module App {
  import opened Wrappers
  import opened Strings
  import opened Paths
  import opened Extensions
  import opened OrderedDict
  import opened Walker
  import opened Packager

  /** What `process_single_file` shows: the text with its download name, or the error. */
  datatype SingleReport = Shown(text: string, downloadName: string) | ConversionFailed(message: string)

  /** `Path(name).stem + ".md"`. */
  function MarkdownName(name: string): string
  {
    Stem(name) + ".md"
  }

  /**
   * For a non-empty upload name, the download name has suffix ".md" and
   * the upload's stem; uploaded again, it is skipped.
   */
  lemma MarkdownNameParts(name: string)
    ensures name != "" ==> Suffix(MarkdownName(name)) == ".md" && Stem(MarkdownName(name)) == Stem(name)
    ensures Dispatch(MarkdownName(name)) == Unsupported
  {
    MarkdownIsUnsupported(Stem(name));
    if name != "" {
      StemSuffixSplit(Stem(name), ".md");
    }
  }

  /** `Path(name).stem + "_markdown_results.zip"`. */
  function ResultsArchiveName(name: string): string
  {
    Stem(name) + "_markdown_results" + ".zip"
  }

  /** The results archive's name has suffix ".zip" and stem `<upload stem>_markdown_results`; uploaded again, it is an archive. */
  lemma ResultsArchiveNameParts(name: string)
    ensures Suffix(ResultsArchiveName(name)) == ".zip"
    ensures Stem(ResultsArchiveName(name)) == Stem(name) + "_markdown_results"
    ensures Dispatch(ResultsArchiveName(name)) == ZipArchive
  {
    var stem := Stem(name) + "_markdown_results";
    StemSuffixSplit(stem, ".zip");
    ZipNameIsArchive(stem);
  }

  /**
   * `process_single_file`: on success the converter's text is shown and
   * offered under the upload's stem with ".md"; on failure the message is
   * shown and nothing is offered.
   */
  function ProcessSingle(name: string, conversion: Conversion): (r: SingleReport)
    ensures r.Shown? <==> conversion.Success?
    ensures r.Shown? ==> r.text == conversion.text && r.downloadName == MarkdownName(name)
    ensures r.ConversionFailed? ==> r.message == conversion.message
  {
    match conversion
    case Success(text) => Shown(text, MarkdownName(name))
    case Failure(message) => ConversionFailed(message)
  }

  /** What `ZipFile(...).extractall(...)` did: refused the file, failed, or produced the enumerated entries. */
  datatype Extraction = BadZip | ExtractFailed(message: string) | Extracted(items: seq<Item>)

  /** The archive offered for download. */
  datatype Download = Download(fileName: string, archive: seq<Entry>)

  /** What `process_zip_file` reports. */
  datatype ZipReport =
    | NotAZip
    | ExtractionFailed(message: string)
    | Finished(results: Dict<string>, errors: Dict<string>, processed: nat, skipped: nat, total: nat,
               download: Option<Download>)

  predicate SoundExtraction(e: Extraction)
  {
    e.Extracted? ==> WellFormed(e.items)
  }

  /**
   * The report for an archive: an extraction error ends the call with
   * nothing converted; otherwise the walk's dicts and counters, and an
   * output archive only when some file was converted.
   */
  function ZipReportOf(name: string, extraction: Extraction): ZipReport
    requires SoundExtraction(extraction)
  {
    match extraction
    case BadZip => NotAZip
    case ExtractFailed(message) => ExtractionFailed(message)
    case Extracted(items) =>
      var vs := Visits(items);
      var t := Replay(vs);
      ReplayValid(vs);
      KeysSpanEntries(t.results);
      var download :=
        if |t.results.keys| > 0 then Some(Download(ResultsArchiveName(name), Packed(t.results.keys, t.results.entries)))
        else None;
      Finished(t.results, t.errors, t.processed, t.skipped, CountFiles(vs), download)
  }

  /** `process_zip_file`: extraction, the walk, then packaging when there are results. */
  method ProcessZip(name: string, extraction: Extraction) returns (r: ZipReport)
    requires SoundExtraction(extraction)
    ensures r == ZipReportOf(name, extraction)
  {
    match extraction {
      case BadZip =>
        return NotAZip;
      case ExtractFailed(message) =>
        return ExtractionFailed(message);
      case Extracted(items) =>
        var results, errors, processed, skipped, seen, total := Walk(items);
        var download := None;
        if |results.keys| > 0 {
          var archive := Package(results);
          download := Some(Download(ResultsArchiveName(name), archive));
        }
        return Finished(results, errors, processed, skipped, total, download);
    }
  }

  /** An extraction error stops the call before the walk: no results, no errors, no archive. */
  lemma ExtractionErrorAborts(name: string, extraction: Extraction)
    requires SoundExtraction(extraction) && !extraction.Extracted?
    ensures !ZipReportOf(name, extraction).Finished?
  {
  }

  /**
   * A finished walk: every file is converted, failed or skipped; results
   * and errors never share a key; results never outnumber conversions; and
   * the archive is offered exactly when there are results, under the
   * upload's stem, one entry per result in order, reading back as the
   * results.
   */
  lemma FinishedReport(name: string, items: seq<Item>)
    requires WellFormed(items)
    ensures var r := ZipReportOf(name, Extracted(items));
      && r.Finished?
      && r.processed + CountFailed(Visits(items)) + r.skipped == r.total
      && r.results.entries.Keys !! r.errors.entries.Keys
      && |r.results.entries| <= r.processed
      && (r.download.Some? <==> |r.results.entries| > 0)
      && (r.download.Some? ==>
            && r.download.value.fileName == ResultsArchiveName(name)
            && Names(r.download.value.archive) == r.results.keys
            && Unpack(r.download.value.archive) == Some(r.results.entries))
  {
    var vs := Visits(items);
    var t := Replay(vs);
    WalkSummary(items, vs, t);
    ValidSize(t.results);
    PackedDict(t.results);
  }

  /** One uploaded file with the answers the converter and the extractor give for it. */
  datatype Upload = Upload(name: string, conversion: Conversion, extraction: Extraction)

  /** What the main loop does with one upload. */
  datatype Report = Archive(zip: ZipReport) | Single(single: SingleReport) | Skipped

  /** The main loop's body: `.zip` first, then the supported extensions, else a warning. */
  function HandleUpload(u: Upload): (r: Report)
    requires SoundExtraction(u.extraction)
    ensures r.Archive? <==> Dispatch(u.name) == ZipArchive
    ensures r.Single? <==> Dispatch(u.name) == SingleFile
    ensures r.Skipped? <==> Dispatch(u.name) == Unsupported
  {
    match Dispatch(u.name)
    case ZipArchive => Archive(ZipReportOf(u.name, u.extraction))
    case SingleFile => Single(ProcessSingle(u.name, u.conversion))
    case Unsupported => Skipped
  }

  /** The loop over `uploaded_files`: each upload is handled on its own, in order. */
  method ProcessUploads(uploads: seq<Upload>) returns (reports: seq<Report>)
    requires forall i :: 0 <= i < |uploads| ==> SoundExtraction(uploads[i].extraction)
    ensures |reports| == |uploads|
    ensures forall i :: 0 <= i < |uploads| ==> reports[i] == HandleUpload(uploads[i])
  {
    reports := [];
    var i := 0;
    while i < |uploads|
      invariant 0 <= i <= |uploads|
      invariant |reports| == i
      invariant forall j :: 0 <= j < i ==> reports[j] == HandleUpload(uploads[j])
    {
      var u := uploads[i];
      var report;
      match Dispatch(u.name) {
        case ZipArchive =>
          var z := ProcessZip(u.name, u.extraction);
          report := Archive(z);
        case SingleFile =>
          report := Single(ProcessSingle(u.name, u.conversion));
        case Unsupported =>
          report := Skipped;
      }
      reports := reports + [report];
      i := i + 1;
    }
  }

  /** The results archive, uploaded again, is routed as an archive. */
  lemma ResultsArchiveIsArchive(name: string, extraction: Extraction)
    requires SoundExtraction(extraction)
    requires ZipReportOf(name, extraction).Finished? && ZipReportOf(name, extraction).download.Some?
    ensures Dispatch(ZipReportOf(name, extraction).download.value.fileName) == ZipArchive
  {
    ResultsArchiveNameParts(name);
  }
}
