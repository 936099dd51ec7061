/**
 * The two file-type classifiers of app.py: the top-level one, which routes
 * an uploaded file by the ending of its lower-cased name, and the one used
 * inside an extracted archive, which looks only at the lower-cased last
 * suffix of a file's path.
 */
module Extensions {
  import opened Strings
  import opened Paths

  /** The fixed allow-list of convertible extensions, in the source's order. */
  const SupportedExtensions: seq<string> := [
    ".pdf", ".doc", ".docx", ".ppt", ".pptx", ".xls", ".xlsx",
    ".png", ".jpg", ".jpeg", ".gif", ".bmp", ".tiff", ".tif",
    ".mp3", ".wav", ".ogg", ".flac",
    ".html", ".htm",
    ".csv", ".json", ".xml"
  ]

  /** Where the top-level loop sends one uploaded file. */
  datatype Route = ZipArchive | SingleFile | Unsupported

  /** `any(s.endswith(ext) for ext in exts)`. */
  function AnyEndsWith(s: string, exts: seq<string>): bool
  {
    if exts == [] then false
    else EndsWith(s, exts[0]) || AnyEndsWith(s, exts[1..])
  }

  /** `any` is true exactly when some extension of the list ends the string. */
  lemma {:induction false} AnyEndsWithIff(s: string, exts: seq<string>)
    ensures AnyEndsWith(s, exts) <==> exists i :: 0 <= i < |exts| && EndsWith(s, exts[i])
  {
    if exts != [] {
      AnyEndsWithIff(s, exts[1..]);
      if exists i :: 0 <= i < |exts| && EndsWith(s, exts[i]) {
        var i :| 0 <= i < |exts| && EndsWith(s, exts[i]);
        if i > 0 {
          assert exts[1..][i - 1] == exts[i];
        }
      }
      if exists i :: 0 <= i < |exts| - 1 && EndsWith(s, exts[1..][i]) {
        var i :| 0 <= i < |exts| - 1 && EndsWith(s, exts[1..][i]);
        assert exts[i + 1] == exts[1..][i];
      }
    }
  }

  /**
   * The top-level dispatch: a lower-cased name ending in ".zip" is an
   * archive (this test comes first), one ending in a supported extension
   * is a single file, anything else is skipped.
   */
  function Dispatch(name: string): (r: Route)
    ensures r == ZipArchive <==> EndsWith(Lower(name), ".zip")
  {
    var lowered := Lower(name);
    if EndsWith(lowered, ".zip") then ZipArchive
    else if AnyEndsWith(lowered, SupportedExtensions) then SingleFile
    else Unsupported
  }

  /** A name is a single file exactly when it is not an archive and some supported extension ends it. */
  lemma DispatchSingleFile(name: string)
    ensures Dispatch(name) == SingleFile <==>
      !EndsWith(Lower(name), ".zip") && exists i :: 0 <= i < |SupportedExtensions| && EndsWith(Lower(name), SupportedExtensions[i])
  {
    AnyEndsWithIff(Lower(name), SupportedExtensions);
  }

  /**
   * The in-archive test: a file is converted exactly when its lower-cased
   * last suffix is one of the supported extensions.
   */
  predicate IsConvertibleName(name: string)
  {
    Lower(Suffix(name)) in SupportedExtensions
  }

  /** The same test on a relative path, applied to its last segment. */
  predicate IsConvertible(path: Path)
    requires |path| > 0
  {
    IsConvertibleName(path[|path| - 1])
  }

  /** Neither ".zip" nor ".md" is a supported extension. */
  lemma ZipAndMarkdownUnsupported()
    ensures ".zip" !in SupportedExtensions && ".md" !in SupportedExtensions
  {
  }

  /** No supported extension ends in ".zip" or in 'd', and all have four or five characters. */
  lemma SupportedEndings()
    ensures forall i :: 0 <= i < |SupportedExtensions| ==> 4 <= |SupportedExtensions[i]| <= 5
    ensures forall i :: 0 <= i < |SupportedExtensions| ==>
      SupportedExtensions[i][|SupportedExtensions[i]| - 1] != 'd'
    ensures forall i :: 0 <= i < |SupportedExtensions| ==>
      SupportedExtensions[i][|SupportedExtensions[i]| - 4..] != ".zip"
  {
  }

  /** The top-level dispatch ignores ASCII case. */
  lemma DispatchIgnoresCase(a: string, b: string)
    requires Lower(a) == Lower(b)
    ensures Dispatch(a) == Dispatch(b)
  {
  }

  /**
   * Every file that would be converted inside an archive is also accepted
   * as a single file at top level.
   */
  lemma ConvertibleIsSingleFile(name: string)
    requires IsConvertibleName(name)
    ensures Dispatch(name) == SingleFile
  {
    var ext := Lower(Suffix(name));
    var i :| 0 <= i < |SupportedExtensions| && SupportedExtensions[i] == ext;
    DispatchSingleFile(name);
    LowerEndsWith(name, Suffix(name));
    SupportedEndings();
    if EndsWith(Lower(name), ".zip") {
      EndsWithBoth(Lower(name), ext, ".zip");
    }
  }

  /**
   * The converse fails: a dotfile named ".pdf" is accepted at top level,
   * but it has no suffix, so inside an archive it is skipped.
   */
  lemma DotfileAcceptedAtTopLevel()
    ensures Dispatch(".pdf") == SingleFile
  {
    var name := ".pdf";
    DispatchSingleFile(name);
    assert Lower(name) == name;
    assert EndsWith(name, SupportedExtensions[0]);
    assert name[|name| - 1] == 'f';
  }

  /** A dotfile named ".pdf" is skipped inside an archive. */
  lemma DotfileSkippedInArchive()
    ensures !IsConvertibleName(".pdf")
  {
    RFindIs(".pdf", '.', 0);
    assert Suffix(".pdf") == "";
    assert Lower("") == "";
  }

  /** Nested archives are never converted: a ".zip" inside an archive is skipped. */
  lemma NestedArchiveNotConverted(name: string)
    requires EndsWith(Lower(name), ".zip")
    ensures Dispatch(name) == ZipArchive
    ensures !IsConvertibleName(name)
  {
    if IsConvertibleName(name) {
      ConvertibleIsSingleFile(name);
    }
  }

  /** A Markdown file produced by the converter is skipped if uploaded again. */
  lemma MarkdownIsUnsupported(stem: string)
    ensures Dispatch(stem + ".md") == Unsupported
  {
    var lowered := Lower(stem + ".md");
    DispatchSingleFile(stem + ".md");
    LowerAppend(stem, ".md");
    SupportedEndings();
    assert lowered[|lowered| - 1] == 'd';
    forall i | 0 <= i < |SupportedExtensions|
      ensures !EndsWith(lowered, SupportedExtensions[i])
    {
      var ext := SupportedExtensions[i];
      assert ext[|ext| - 1] != lowered[|lowered| - 1];
    }
  }

  /** A name ending in ".zip" is routed as an archive. */
  lemma ZipNameIsArchive(stem: string)
    ensures Dispatch(stem + ".zip") == ZipArchive
  {
    LowerAppend(stem, ".zip");
    assert Lower(".zip") == ".zip";
  }

  /** A Markdown file is never converted inside an archive. */
  lemma MarkdownNotConvertible(stem: string)
    requires stem != ""
    ensures !IsConvertibleName(stem + ".md")
  {
    StemSuffixSplit(stem, ".md");
    ZipAndMarkdownUnsupported();
    assert Lower(".md") == ".md";
  }
}
