# MarkItDown Web: upload routing, archive walk and result packaging

This project models the core of `app.py`, the MarkItDown web converter page. The user uploads files.

- An upload whose lower-cased name ends in `.zip` is treated as an archive. It is extracted and walked. Every file whose lower-cased last suffix is on the allow-list is handed to the converter, which may succeed or fail. The texts of the successful conversions are offered back as a new archive named `<stem>_markdown_results.zip`.
- An upload whose name ends in a supported extension is converted on its own. The text is offered as `<stem>.md`.
- Any other upload is skipped with a warning.

The MarkItDown converter and the zip extractor are outside the model. Their answers are inputs:

- each archive entry (`Walker.Item`) carries the converter's outcome, success with a text or failure with a message;
- each upload (`App.Upload`) carries the extractor's outcome: not a zip, failed with a message, or the sequence of entries the recursive enumeration yields.

Modules:

- `Strings`: ASCII lower-casing, `endswith`, `rfind`, and joining path segments with '/'. Joining is proved injective on '/'-free, non-empty segments.
- `Paths`: `PurePath.suffix`, `.stem` and `.with_suffix(...)`, applied to a relative path given as its segments.
- `Extensions`:
  - the allow-list;
  - the top-level router (`.zip` first, then the allow-list, matched as name endings);
  - the in-archive test (the lower-cased last suffix must be on the allow-list).
- `OrderedDict`: a Python `dict` with string keys. Assignment keeps a key's first position, and iteration follows insertion order.
- `Walker`: the loop of `process_zip_file`.
  - It is specified by `VisitOf` (what the loop body does with one entry) and `Replay` (the fold of those visits into the two dicts and three counters).
  - `Walk` is the loop itself. It is proved to compute `Replay`.
- `Utf8`: `str.encode('utf-8')` and a strict decoder, with the round trip proved.
- `Packager`: the loop writing one archive entry per result. Reading the archive back gives the results dict.
- `App`: single-file handling, the archive report with its abort paths, and the loop over all uploads.

### Where the code differs from the expected behaviour

Two behaviours one would expect of this page are not what the code does. The model follows the code.

- **Invariant `|successes| + |failures| + skipped == total`.** One would expect it to hold. The code does not keep it. A result is stored under the relative path with its suffix replaced by `.md`, so `r.pdf` and `r.docx` in one folder both land on `r.md`. The later one overwrites the earlier one, while `processed_files_count` counts both.
  - `Walker.OverwriteLosesResult` and `Walker.SameStemSameKey` prove the loss.
  - The code does keep `processed + failures + skipped == total`, counting conversions and failures (`Walker.Walk`, `Walker.CountsPartition`). It also keeps `|results| <= processed` (`Walker.ResultsAtMostConverted`).
  - When no two conversions share a key, nothing is lost: `|results| == processed` (`Walker.ResultsMatchConversions`). For an archive whose paths are enumerated once, the expected invariant holds exactly when no two conversions share a key (`Walker.CountsAddUpIff`).
- **Archive for a batch with no results.** One would expect an archive with no convertible file to yield an empty output archive. The code offers no archive at all unless `results` is non-empty (`App.FinishedReport`).

## Model

| member | source | states |
|---|---|---|
| Extensions.Dispatch | app.py:206-213 | An upload is routed as an archive exactly when its lower-cased name ends in ".zip". |
| Extensions.DispatchSingleFile | app.py:206-213 | An upload is a single file exactly when its lower-cased name does not end in ".zip" but ends in some allow-listed extension. Every other name that is not an archive is skipped. |
| Extensions.AnyEndsWithIff | app.py:210 | The `any(...)` test is true exactly when some extension of the list ends the name. |
| Extensions.DispatchIgnoresCase | app.py:206 | Two names that agree after lower-casing are routed the same way. |
| Extensions.ZipAndMarkdownUnsupported | app.py:22-29 | Neither ".zip" nor ".md" is on the allow-list. |
| Extensions.SupportedEndings | app.py:22-29 | Every allow-listed extension has four or five characters, and none ends in 'd' or in ".zip". |
| Extensions.ConvertibleIsSingleFile | app.py:115-119 | A file that would be converted inside an archive is also routed as a single file at top level. |
| Extensions.DotfileAcceptedAtTopLevel | app.py:206-211 | The converse fails, first half: a dotfile named ".pdf" is routed as a single file at top level. |
| Extensions.DotfileSkippedInArchive | app.py:115-119 | The converse fails, second half: ".pdf" has no suffix, so inside an archive it is skipped. |
| Extensions.NestedArchiveNotConverted | app.py:115-119 | A name ending in ".zip" (any case) is routed as an archive at top level and is never converted inside an archive. |
| Extensions.MarkdownIsUnsupported | app.py:208-213 | A name ending in ".md" is skipped at top level. |
| Extensions.ZipNameIsArchive | app.py:208 | Any name ending in ".zip" is routed as an archive. |
| Extensions.MarkdownNotConvertible | app.py:115-119 | A file named `<stem>.md` is never converted inside an archive. |
| Strings.LowerChar | app.py:115 | 'A'..'Z' map to 'a'..'z'; every other character is unchanged. |
| Strings.RFind | app.py:115 | The index of the last occurrence of the character, or -1 when there is none. |
| Strings.JoinSplit | app.py:126 | The last '/' of a joined path separates the joined parent from the last segment. A single segment has no '/'. |
| Strings.JoinInjective | app.py:126-129 | Two segment lists with the same string form are equal. |
| Paths.Suffix | app.py:115 | The suffix is empty, or it starts with its only '.', is at least two characters long, ends the name, and is shorter than the name. |
| Paths.Stem | app.py:53 | The stem followed by the suffix is the name. A non-empty name has a non-empty stem. |
| Paths.WithSuffix | app.py:125 | The parent is kept, and the last segment becomes its stem followed by the new suffix. |
| Paths.StemSuffixSplit | app.py:53 | Appending a one-dot suffix to a non-empty stem gives a name whose suffix and stem are exactly those two parts. |
| Paths.WithSuffixSegments | app.py:125 | Swapping in a '/'-free suffix keeps every segment non-empty and '/'-free. |
| Paths.WithSuffixKeepsStemOnly | app.py:125 | Two paths with the same parent and the same last stem give the same result. |
| OrderedDict.Dict.Put | app.py:126 | Assignment maps the key to the value. A new key goes last in iteration order, and an existing key keeps its position. The dict grows by one exactly for a new key. |
| OrderedDict.PutValid | app.py:126 | Assignment keeps a dict well formed: each key listed once, and exactly the mapped keys listed. |
| OrderedDict.Empty | app.py:76-77 | The empty dict is well formed and has no keys. |
| OrderedDict.ValidSize | app.py:76-77 | A well-formed dict lists as many keys as it has entries. |
| Walker.Walk | app.py:104-142 | Same tally as `Replay` of the visits. The running count ends at the first pass's `total_files`. processed, failures and skipped add up to total. Both dicts stay well formed and never share a key. `|results| <= processed`. |
| Walker.WalkSummary | app.py:104-142 | The counters count conversions, skips and files. The counts partition the files. The dicts stay well formed and disjoint. Results never outnumber conversions. |
| Walker.ReplayStep | app.py:112-139 | Each entry changes the tally by exactly one recorded visit, and the running count by one for a file. |
| Walker.CountFilesPrefix | app.py:109-110 | The running count never exceeds the count of the first pass. |
| Walker.ReplayCounts | app.py:127-138 | processed counts conversions, skipped counts unsupported files, and the running count counts files. |
| Walker.CountsPartition | app.py:113-139 | Every file is converted, failed or skipped, exactly one of the three. |
| Walker.ReplayValid | app.py:126-129 | Both dicts stay well formed. |
| Walker.ResultKeyHasSource | app.py:125-126 | Every key in results is the key of some conversion. |
| Walker.ConversionIsRecorded | app.py:125-126 | Every conversion's key is in the final results, whatever comes after it. |
| Walker.ErrorKeyHasSource | app.py:128-129 | Every key in errors is the key of some failure. |
| Walker.FailureIsRecorded | app.py:128-133 | Every failure's key is in the final errors: a failure is recorded and the walk goes on. |
| Walker.ResultsErrorsDisjoint | app.py:125-129 | When no conversion and no failure share a key, results and errors share no key. |
| Walker.ResultsAtMostConverted | app.py:125-127 | `|results| <= processed`. |
| Walker.OverwriteLosesResult | app.py:125-127 | Two conversions with one key leave `|results| < processed`. |
| Walker.ResultsMatchConversions | app.py:125-127 | With no two conversions sharing a key, results has one entry per conversion, holding its text, so `|results| == processed`. |
| Walker.CountsAddUpIff | app.py:109-139 | With each path enumerated once, `|results| + |errors| + skipped == total` holds exactly when no two conversions share a key. |
| Walker.LastConversionWins | app.py:125-126 | The text under a key is the one from the last conversion with that key. |
| Walker.ErrorsMatchFailures | app.py:128-129 | With distinct failure keys, errors has one entry per failure, holding its message. |
| Walker.ErrorsOnePerFailure | app.py:112-129 | When each path is enumerated once, errors has exactly as many entries as there were failures. |
| Walker.KeysNeverClash | app.py:119-129 | A ".md" result key never equals the path of a convertible file. |
| Walker.VisitsKeysApart | app.py:119-129 | Within one walk, no conversion key equals a failure key. |
| Walker.VisitsFailureKeysDistinct | app.py:112-129 | Distinct enumerated paths give distinct failure keys. |
| Walker.SameStemSameKey | app.py:125 | Files in one folder with the same stem get the same result key. |
| Walker.ResultKeyIsMarkdown | app.py:125-126 | Every result key ends in ".md". |
| Walker.ResultKeysAreMarkdown | app.py:125-126 | Every key in the final results ends in ".md". |
| Walker.NestedArchiveSkipped | app.py:115-119 | A ".zip" file inside an archive is counted as skipped. |
| Walker.Progress | app.py:133 | The bar's fraction lies between 0 and 1 while the running count is at most the total. It is 1 once the count reaches the total, including when there are no files. Otherwise it is the exact ratio. |
| Walker.RatioBounds | app.py:133 | `so_far / total` with a positive total is exact, non-negative, at most 1 when `so_far <= total`, and 1 when they are equal. |
| Utf8.EncodeChar | app.py:157 | One to four bytes. One byte exactly for ASCII. Every byte after the first is a continuation byte. |
| Utf8.Encode | app.py:157 | At least one and at most four bytes per character. |
| Utf8.DecodeFirstEncodeChar | app.py:157 | The decoder reads a character's encoding back, whatever follows it. |
| Utf8.DecodeEncode | app.py:157 | Decoding the UTF-8 bytes of a text gives the text. |
| Packager.Package | app.py:152-160 | Writes `Packed` of the results. The entry names are the result keys in iteration order, one entry per result. Reading the archive back gives the results. |
| Packager.Packed | app.py:154-160 | One entry per listed key. |
| Packager.PackedNames | app.py:154-160 | The entries are named by the keys, in order. |
| Packager.PackedRoundTrip | app.py:154-160 | Reading the entries back gives each key's text. |
| Packager.PackedDict | app.py:154-160 | For a well-formed dict, one entry per key, in order, reading back as the dict. |
| Packager.NamesDistinct | app.py:154-160 | No two entries share a name. |
| App.MarkdownNameParts | app.py:53 | For a non-empty upload name, the download name has suffix ".md" and the upload's stem. It is skipped if uploaded again. |
| App.ResultsArchiveNameParts | app.py:165 | Suffix ".zip", stem `<upload stem>_markdown_results`, and routed as an archive if uploaded again. |
| App.ProcessSingle | app.py:36-64 | Text shown exactly on success, offered under `MarkdownName` (stem plus ".md"). On failure, the message is shown and nothing is offered. |
| App.ProcessZip | app.py:74-179 | Returns `ZipReportOf`: the extraction outcome, then the walk, then packaging only when there are results. |
| App.ExtractionErrorAborts | app.py:92-101 | A bad zip or an extraction error ends the call without results, errors or archive. |
| App.FinishedReport | app.py:146-174 | Counts add up. Keys disjoint. `|results| <= processed`. An archive exactly when results is non-empty, under `ResultsArchiveName`, one entry per result in order, reading back as the results. |
| App.HandleUpload | app.py:205-213 | Archive report exactly for ".zip" names, single-file report exactly for allow-listed endings, skipped otherwise. |
| App.ProcessUploads | app.py:202-215 | One report per upload, in order, each being `HandleUpload` of that upload. |
| App.ResultsArchiveIsArchive | app.py:165 | The offered results archive is routed as an archive if uploaded again. |
| Extensions.SupportedExtensions | app.py:22-29 | The 23 extensions in the source's order. Their properties are stated by `ZipAndMarkdownUnsupported` and `SupportedEndings`. |
| Extensions.AnyEndsWith | app.py:210 | `any(name.endswith(ext) for ext in exts)`. `AnyEndsWithIff` proves it true exactly when some listed extension ends the name. |
| Extensions.IsConvertibleName | app.py:115-119 | A file inside an archive is converted exactly when its lower-cased last suffix is on the allow-list. `ConvertibleIsSingleFile`, `DotfileSkippedInArchive`, `NestedArchiveNotConverted` and `MarkdownNotConvertible` state its consequences. |
| Extensions.IsConvertible | app.py:113-119 | The same test applied to the last segment of a relative path. `KeysNeverClash` and `NestedArchiveSkipped` use it. |
| Strings.Lower | app.py:206 | `name.lower()`, character by character with `LowerChar`. `LowerAppend` and `LowerEndsWith` relate it to concatenation and endings, and `DispatchIgnoresCase` to routing. |
| Strings.EndsWith | app.py:208-210 | `s.endswith(t)`: the last `|t|` characters of `s` are `t`. `EndsWithBoth` and `AnyEndsWithIff` state its use in routing. |
| Strings.Join | app.py:126-129 | `str(path)` of a relative path as its segments joined with '/'. `JoinSplit` recovers the last segment and `JoinInjective` proves distinct paths give distinct strings. |
| Walker.ResultKey | app.py:125-126 | `str(relative_path.with_suffix('.md'))`. `ResultKeyIsMarkdown` proves it ends in ".md", `SameStemSameKey` that same folder and stem give one key, `KeysNeverClash` that it never equals a failure key. |
| Walker.ErrorKey | app.py:129 | `str(relative_path)`. `VisitsFailureKeysDistinct` proves distinct paths give distinct keys. |
| Walker.VisitOf | app.py:113-139 | The branch the loop body takes for one entry: not a file, skipped, converted under its result key, or failed under its path. `NestedArchiveSkipped` and `VisitsKeysApart` state its consequences. |
| Walker.Record | app.py:125-139 | What one branch changes: the dict assignment and the counters. `ReplayStep` ties it to one iteration of `Walk`. |
| Walker.Replay | app.py:76-139 | The walk's state after a sequence of entries. `Walk` is proved to compute it, and `ReplayCounts`, `CountsPartition`, `ReplayValid`, `LastConversionWins` and `ResultsMatchConversions` state its properties. |
| Walker.CountFiles | app.py:109 | `total_files`, the number of file entries. `CountsPartition` splits it into conversions, failures and skips, and `CountFilesPrefix` bounds the running count by it. |
| App.MarkdownName | app.py:53 | `Path(name).stem + ".md"`. `MarkdownNameParts` proves its suffix is ".md", its stem is the upload's, and that it is skipped if uploaded again. |
| App.ResultsArchiveName | app.py:165 | `Path(name).stem + "_markdown_results.zip"`. `ResultsArchiveNameParts` proves how it splits back and that it routes as an archive. |
| App.ZipReportOf | app.py:74-179 | The report of `process_zip_file`. `ProcessZip` is proved to return it; `ExtractionErrorAborts` and `FinishedReport` state what it promises. |

## Left out

- The Streamlit page: titles, spinners, status texts, text areas, download buttons, and the formatted error listing (app.py:176-179). Only what the page offers (texts, names, archives) is modelled.
- MarkItDown's conversion. Its answer for each file is an input: `Conversion` is `Success(text)` or `Failure(message)`.
  - Any exception inside the `try` blocks counts as a failure, including one from writing the temporary file.
  - `text_content` is taken to be a string, so the branch for contents that are already bytes (app.py:158-159) is not modelled.
- Temporary files and directories, their clean-up and its warnings. `zipfile` reading and writing, and DEFLATE compression. Extraction is an input (`Extraction`). The output archive is its list of entries (name and bytes).
- Path traversal and other hazards of extracting untrusted archives.
- The order in which `rglob` yields entries. The walk takes any sequence, and the results' iteration order follows it. The model claims nothing about which order the platform uses.
- Walker.Walk: does not return the sequence of values handed to the progress bar. It only proves `seen <= total` at every step. `Walker.Progress` states the range of each value as an exact ratio, not a floating-point number. The final `progress(1.0)` call is UI.
- The outer `except` of `process_zip_file` (app.py:181-182) for unexpected errors outside the walk.
- Strings.LowerChar: lower-cases ASCII letters only. Python's `str.lower` also maps non-ASCII letters, but the only ones it maps into ASCII are U+212A (to 'k') and U+0130 (to 'i' followed by the non-ASCII U+0307). Neither 'k' nor U+0307 occurs in ".zip" or in any allow-listed extension, and a match of one of those endings lies after the last non-ASCII character of the lower-cased name in both versions. So every routing decision and every suffix test comes out the same.
- App.MarkdownName: applies `stem` to the whole upload name. An upload name holding '/' is not split into a parent folder, as `Path` would do. Browsers send base names.
- Paths.Suffix: follows the rule that the last '.' starts the suffix unless it is the first or the last character of the name. Trailing-dot and other edge forms handled differently by other Python versions are not modelled.
- The first pass that counts `total_files` is a generator expression over the same enumeration. It is modelled as a function over the visits, not as a second loop.
