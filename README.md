# CodeCrossConverter2 in Dafny

CodeCrossConverter2 is a small Flask web application. It converts mobile
application source code between three platforms: Android Java
(`android_java`), Android Kotlin (`android_kotlin`) and iOS Swift
(`ios_swift`). A user uploads one or more code files or a project ZIP, names
the source and target platforms, and picks a conversion type. The application
then works in four steps:

- It classifies the archive entries: it skips build, IDE and media files,
  extracts code files and records the ones it could not read.
- It sends each code file to a translation service, retrying with exponential
  backoff. When every attempt fails, it falls back to the original text with
  conversion notes.
- It serves the result either as one converted file or as an output ZIP.
  The output ZIP also carries project files that are kept verbatim (manifests).
- The older request handler (`app_old.py`) is modelled next to the current one
  (`app.py`). Its behaviour differs in several places.

This project models that core and proves properties of the model.

| module (file) | what it models |
|---|---|
| `Wrappers` (`wrappers.dfy`) | `Option` and `Result` |
| `Text` (`text.dfy`) | the string operations the program relies on: `str.lower`, `startswith`/`endswith`/`in`, `rsplit('.', 1)`, `split`/`join`, `strip`, slicing, `os.path.basename`, `os.path.splitext`, `pathlib.Path.suffix` |
| `Storage` (`storage.dfy`) | the staged files that pass between the classifier, the converter and the output writer. Each staged file carries the outcome of every later read of it. |
| `FileHandler` (`file_handler.dfy`) | `FileHandler` in `file_handler.py` |
| `CodeConverter` (`code_converter.dfy`) | `CodeConverter` in `code_converter.py` |
| `App` (`app.dfy`) | `convert_code` and `download_converted` in `app.py` |
| `LegacyApp` (`legacy_app.dfy`) | `convert_code`, `download_converted` and the error handlers in `app_old.py` |

The models of the loops in the source are methods with loop invariants:
- the entry scans in `extract_code_files`, `_extract_preserve_files` and `get_file_count`;
- the per-file loop of `convert_files`;
- the upload, filter and fallback loops of `app.py`;
- the first pass of `app_old.py`, which saves, extracts and gathers the uploads and then filters them. It uses the same upload step, filter and fallback methods as `app.py`.

Each such method is proved equal to a prefix-recursive specification
function. The properties the program promises are lemmas about those
functions.

Behaviours of the code as written that the model states explicitly:

- **Capitalised skip patterns never match.** The patterns `Pods/`,
  `DerivedData/`, `.DS_Store` and `Thumbs.db` contain capital letters, but they
  are compared against the lower-cased path. They match nothing
  (`FileHandler.CapitalisedPatternNeverMatches`).
  - `.DS_Store` and `Thumbs.db` are still skipped, through the exact-name list.
- **Media files are never preserved.** The docstring of
  `_extract_preserve_files` (`file_handler.py:124`) says images are preserved.
  But the twelve media patterns of the preserve list are also skip patterns, so
  an image is never kept in the output ZIP (`FileHandler.MediaNeverPreserved`).
  Only manifests are kept (`FileHandler.OnlyManifestsPreserved`). The model
  follows the code.
- **Some entries land in no list.** A non-directory entry that is neither
  skipped nor has a code extension goes into none of the three returned lists.
  The count identity in `FileHandler.ClassificationCount` therefore has a
  separate term for those entries.
- **A ZIP named after a code file is served as a single file.** In `app.py`,
  the output ZIP for several uploaded code files takes its name from the last
  upload, e.g. `…_B.java`. The download route then decides on the file name
  alone and serves that ZIP as a single text file
  (`App.ZipNamedAfterCodeFileServedAsSingle`).
- **A ZIP whose only code file sits in a folder fails in `app.py`.** Uploaded
  alone, such an archive gives one converted file named after its path, e.g.
  `app/Main.swift`. The single output is then written to
  `converted_…_app/Main.swift` inside the converted-files folder. That
  sub-folder does not exist, so the write raises and the request ends in the
  generic error (`App.NestedSingleOutputFails`). The platform values are raw
  form fields that go into the output name unchecked, so a platform value
  holding `/` makes every write fail the same way, single file or archive
  (`App.PlatformFolderNeverDelivers`).
- **Uploads with the same name share one saved file in `app.py`.** Each upload
  is saved under its own name, so the last save wins. Every code file of that
  name is then converted from the last one's content
  (`App.RepeatedNameReadsLastContent`).
- **In `app_old.py`, the conversion-type filter has no effect.**
  - The first pass gathers and filters the extracted files
    (`LegacyApp.ScanUploads`).
  - The ZIP branch extracts the archive again.
  - The single-file branch uses only the last upload.
  - So the filtered list is never read (`LegacyApp.ExtractedListUnused`), and
    the response does not depend on the conversion type
    (`LegacyApp.IgnoresConversionType`).
- **In `app_old.py`, only the last of several code files is converted**
  (`LegacyApp.OnlyLastUploadConverted`).
- **In `app_old.py`, a ZIP followed by a code file fails.** The archive branch
  opens the last upload, which is the code file, as a ZIP. The request then
  fails with that extraction error (`LegacyApp.ArchiveThenSingleFile`).
- **In `app_old.py`, an unreadable ZIP aborts the whole request** during the
  first pass over the uploads. That extraction is outside any `try`
  (`LegacyApp.FirstErrorStops`).

## Model

| member | source | states |
|---|---|---|
| Text.Lower | file_handler.py:162 | the result has the same length and maps every character to its lower-case form |
| Text.Basename | file_handler.py:163 | the whole path when it has no `/`; otherwise the `/`-free suffix that follows a `/`, that is, everything after the last `/` |
| Text.Suffix | file_handler.py:73 | like `Path.suffix`: non-empty exactly when the final component does not end in a dot and has a dot after its first character; then it is a dot followed by at least one character, ends the final component, is shorter than it and has no further dot |
| Text.SplitExtParts | code_converter.py:185 | like `os.path.splitext`: stem and extension concatenate back to the path; the extension is empty or a dot followed by characters other than `.` and `/`; it is non-empty exactly when the final component has a dot preceded, within that component, by a character other than a dot |
| Text.ExtensionIff | code_converter.py:185 | `os.path.splitext` finds an extension exactly when the final component has a dot preceded, within that component, by a character other than a dot |
| Text.LastDotSegment | app.py:40 | like `rsplit('.', 1)[-1]`: a suffix of the name with no dot; when the name has a dot, a dot precedes it; when it has none, the whole name |
| Text.StripShape | code_converter.py:92 | `strip()` keeps a contiguous middle slice; everything removed is whitespace; the result neither starts nor ends with whitespace |
| Text.Take | app.py:150 | `[:n]` is a prefix of at most `n` characters, and the whole string when that is short enough |
| Text.Split | code_converter.py:98 | `split(c)` yields at least one part and no part contains `c` |
| Text.JoinSplit | code_converter.py:98-103 | joining the parts of a split with the same separator gives back the original string |
| Text.SplitJoin | code_converter.py:98-103 | splitting a join of separator-free parts gives back the parts |
| Text.SlashedContainsIsComponent | file_handler.py:173 | `/name/` occurs in `/path/` exactly when `name` is a whole `/`-delimited component of the path |
| FileHandler.AnySkipPatternIff | file_handler.py:170-178 | the pattern loop reports a match exactly when some pattern of the list matches |
| FileHandler.FolderPatternIsComponent | file_handler.py:171-174 | a folder pattern (ending in `/`) matches exactly when its name is a whole component of the lower-cased path |
| FileHandler.FilePatternIsSubstring | file_handler.py:175-178 | any other pattern matches exactly when it occurs in the lower-cased path; the `endswith` test adds nothing |
| FileHandler.PatternHitsIff | file_handler.py:170-178 | a pattern matches exactly when it hits as a component or as a substring, depending on its kind |
| FileHandler.ShouldSkipIff | file_handler.py:160-190 | a path is skipped iff one of four tests holds: its lower-cased basename is in the exact-name list; some pattern hits; it has more than 6 slashes; or it contains a suspicious substring |
| FileHandler.ExactNameSkipped | file_handler.py:165-167 | a path whose lower-cased basename is in the exact-name list is skipped |
| FileHandler.FolderComponentSkipped | file_handler.py:171-174 | a path that has a skipped folder as a component is skipped |
| FileHandler.SubstringSkipped | file_handler.py:176-178 | a path containing a file pattern is skipped |
| FileHandler.DepthAndSuspiciousSkipped | file_handler.py:180-188 | a path deeper than 6 slashes, or one containing a suspicious pattern, is skipped |
| FileHandler.CapitalisedPatternNeverMatches | file_handler.py:162-178 | a pattern containing an upper-case letter never matches a lower-cased path |
| FileHandler.AnyPreservePatternWitness | file_handler.py:139-144 | when the preserve loop sets its flag, some preserve pattern matches |
| FileHandler.MediaPatternsAreSkipPatterns | file_handler.py:28-41 | the twelve media preserve patterns are skip patterns 21 to 32, and none of them is a folder pattern |
| FileHandler.MediaPathSkipped | file_handler.py:176-178 | a path containing a media preserve pattern is skipped |
| FileHandler.PreserveMatchContains | file_handler.py:141-142 | a preserve match implies that the pattern occurs in the lower-cased path |
| FileHandler.OnlyManifestsPreserved | file_handler.py:139-146 | a path that passes the preserve test and is not skipped contains `androidmanifest.xml` or `info.plist` |
| FileHandler.PreserveWitness | file_handler.py:139-144 | yields the index of a preserve pattern that the lower-cased path contains |
| FileHandler.ManifestPatterns | file_handler.py:42 | preserve patterns after the media ones are the two manifest names |
| FileHandler.MediaNeverPreserved | file_handler.py:139-146 | a path ending in a media extension is never preserved |
| FileHandler.ValidateFilePlatformIff | file_handler.py:245-249 | a file is valid exactly when its platform is known and its lower-cased suffix is one of that platform's extensions; so a valid file has a known platform and a non-empty suffix |
| FileHandler.ExtractCodeFiles | file_handler.py:45-114 | returns the classification of the archive: `Unsupported platform` for an unknown platform, `Invalid ZIP file` for a bad container, otherwise the three lists built entry by entry |
| FileHandler.Scan | file_handler.py:61-100 | the scan loop produces the extracted, skipped and error lists in archive order |
| FileHandler.ClassificationCount | file_handler.py:61-100 | the five kinds of entry (extracted, skipped, error, non-code, directory) add up to the number of entries |
| FileHandler.DirectoryVerdictIff | file_handler.py:64-65 | an entry is treated as a directory exactly when its name ends in `/` |
| FileHandler.CodeFilesIff | file_handler.py:74-88 | the extracted list holds exactly the staged copies of the entries whose verdict is extracted |
| FileHandler.SkippedPathsIff | file_handler.py:67-70 | the skipped list holds exactly the names of the entries whose verdict is skipped |
| FileHandler.ErrorFilesIff | file_handler.py:90-99 | every error record is the `name (reason)` record of an entry that failed, and every failed entry has its record in the error list |
| FileHandler.CodeFilesCharacterisation | file_handler.py:61-89 | an entry is extracted iff it is not a directory, not skipped, has a code extension, was staged and is non-empty |
| FileHandler.SkippedPathsCharacterisation | file_handler.py:64-70 | the skipped list holds exactly the non-directory entries that the skip rule matches |
| FileHandler.SkippedVerdict | file_handler.py:64-70 | an entry's verdict is skipped iff it is not a directory and the skip rule matches it |
| FileHandler.ExtractedVerdict | file_handler.py:64-88 | an entry's verdict is extracted iff it is not a directory, not skipped, has a code extension, was staged and is non-empty |
| FileHandler.SkippedNeverExtracted | file_handler.py:67-88 | no extracted file's path is in the skipped list |
| FileHandler.EmptyCodeFileIsError | file_handler.py:82-91 | an empty staged code file is recorded as `empty or corrupted` and is not extracted |
| FileHandler.UnknownPlatformRaises | file_handler.py:48-53 | an unknown platform fails with `Unsupported platform: <platform>`, whatever the archive |
| FileHandler.ExtractedIffValidated | file_handler.py:73-74 | for a readable, non-skipped file, the extension test of the scan agrees with `validate_file_platform` |
| FileHandler.ExtractPreserveFiles | file_handler.py:123-158 | returns the preserved files of the archive, and none for a bad container |
| FileHandler.SelectEntries | file_handler.py:131-153 | the selection loop keeps exactly the entries the rule admits, in order |
| FileHandler.SelectIff | file_handler.py:131-153 | every selected file comes from an admitted entry, and every admitted entry is selected; there are no more selections than entries |
| FileHandler.PreservedFilesIff | file_handler.py:123-158 | every preserved file passes the preserve test, is a manifest, and copies an entry's name and contents; every entry of a readable archive that passes the preserve test and is staged by the preserve scan is preserved |
| FileHandler.ExtractProjectFiles | file_handler.py:116-121 | returns code, preserved, skipped and error lists; succeeds exactly for a readable archive and a known platform |
| FileHandler.GetFileCount | file_handler.py:228-243 | returns the number of non-directory entries with a platform extension, and 0 for a bad container |
| FileHandler.CountEntries | file_handler.py:235-239 | the counting loop counts exactly the entries that satisfy the test |
| FileHandler.ExtractedWithinCount | file_handler.py:61-88 | when every extracted entry satisfies the count test, there are no more extracted files than counted ones |
| FileHandler.ExtractedWithinFileCount | file_handler.py:228-243 | the files extracted never outnumber `get_file_count` |
| FileHandler.CreateZip | file_handler.py:192-214 | the output archive holds the converted files, then the preserved files whose copy succeeds |
| FileHandler.CopiedVerbatim | file_handler.py:201-208 | every readable preserved file appears unchanged under its relative path; every copied entry comes from a preserved file |
| CodeConverter.CleanAnswer | code_converter.py:96-103 | an answer without a fence is kept as is; an answer that opens a fence and has no newline is a failed attempt (its fence removal indexes an empty list) |
| CodeConverter.FenceLineOpens | code_converter.py:97-99 | an answer that starts with a fence has a first line that starts with one |
| CodeConverter.FencedAnswerKeepsInnerLines | code_converter.py:97-103 | a fenced answer keeps the lines between its opening line and a closing fence line |
| CodeConverter.ReplyText | code_converter.py:90-103 | no content, an exception or an empty answer is a failed attempt; a non-empty answer without a fence yields its stripped text |
| CodeConverter.Delay | code_converter.py:68-115 | every retry delay is at least the initial 2 seconds |
| CodeConverter.Backoff | code_converter.py:111-115 | `n` retries produce `n` waits |
| CodeConverter.FirstAnswer | code_converter.py:70-119 | finds the first successful attempt among at most 3; every earlier attempt failed |
| CodeConverter.ConvertSingleFile | code_converter.py:58-119 | the retry loop returns the first successful answer, or the fallback after the last failure, with its attempts and waits |
| CodeConverter.RetryBounded | code_converter.py:66-119 | between 1 and 3 attempts are made; the waits are 2 then 4 seconds, one fewer than the attempts |
| CodeConverter.SucceedsAt | code_converter.py:70-106 | when attempt `k` is the first to succeed, its text is returned after `k+1` attempts |
| CodeConverter.AllAttemptsFail | code_converter.py:116-119 | when all three attempts fail, the fallback text is returned after waits of 2 and 4 seconds |
| CodeConverter.SameOutcomesSameFirst | code_converter.py:70-119 | the first success depends only on the outcomes of the three attempts |
| CodeConverter.OnlyReplyTextMatters | code_converter.py:90-106 | two services whose replies clean to the same text give the same conversion |
| CodeConverter.EmptyAnswerIsFailure | code_converter.py:90-94 | an empty answer or a missing content counts exactly like an exception |
| CodeConverter.PromptFileKind | code_converter.py:155-169 | a file is a kind of XML exactly when its last dot segment, lower-cased, is `xml`; ignoring case, it is layout XML exactly when its name also contains `layout` or `activity_`; manifest XML exactly when it contains neither but contains `androidmanifest`; configuration XML exactly when it contains none of the three |
| CodeConverter.LayoutBeforeManifest | code_converter.py:157-163 | an XML name containing both `layout` and `androidmanifest` is treated as layout XML |
| CodeConverter.PromptFileKindIgnoresCase | code_converter.py:155-158 | the file kind does not depend on letter case |
| CodeConverter.UnknownTargetKeepsName | code_converter.py:183-195 | for a target without an extension mapping, the converted name is the original name |
| CodeConverter.SplitAppendedExtension | code_converter.py:185 | splitting a stem plus a dotted extension gives back the two parts |
| CodeConverter.StemKeepsStem | code_converter.py:185 | the stem of a name that has a stem again has a stem |
| CodeConverter.ConvertedFilenameSplits | code_converter.py:183-195 | the converted name keeps the stem and has the target platform's extension |
| CodeConverter.ConvertedFilenameIdempotent | code_converter.py:183-195 | renaming a converted name again changes nothing |
| CodeConverter.ConvertedFilenameKeepsFolders | code_converter.py:183-195 | a path that holds a folder keeps it in its converted name |
| CodeConverter.ErrorComment | code_converter.py:197-205 | the comment ends with `CONVERSION ERROR: <message>`; it starts with `// ` exactly for a known target and with `# ` otherwise |
| CodeConverter.GuidanceDependsOnExtension | code_converter.py:233-238 | the conversion notes depend on the file name only through its extension |
| CodeConverter.Assemble | code_converter.py:219-231 | the fallback text starts with its header, contains the guidance and ends with the source |
| CodeConverter.FallbackConversion | code_converter.py:207-231 | the fallback starts with the "AI service temporarily unavailable" error comment, contains the guidance for the file and ends with the original source |
| CodeConverter.BatchFailureStops | code_converter.py:48-54 | once a file's recovery raises, the rest of the batch does not change the result |
| CodeConverter.ConvertOne | code_converter.py:31-54 | one step of the batch loop returns the entry's conversion or raises |
| CodeConverter.ConvertEach | code_converter.py:30-55 | the batch loop returns the conversions in input order, or the first error raised |
| CodeConverter.ConvertFiles | code_converter.py:26-56 | `convert_files` returns the batch converted with the translation service |
| CodeConverter.BatchOnePerInput | code_converter.py:30-56 | a successful batch has one output per input, and output `i` is input `i`'s conversion |
| CodeConverter.BatchFailsIff | code_converter.py:30-56 | the batch fails exactly when some file's step fails, and then with the error of the first failing step, every earlier step having succeeded |
| CodeConverter.ConvertEntryFailsIff | code_converter.py:34-54 | a file's step fails exactly when both the read and the recovery read of its staged copy raise |
| CodeConverter.ConvertedBatchOutcome | code_converter.py:26-56 | the batch fails iff some file has both reads failing; otherwise it has one conversion per file, in order |
| CodeConverter.ConvertEntryOutcome | code_converter.py:31-54 | readable file: renamed to the target extension, with the retried conversion's text; unreadable file whose recovery read works: keeps its name, and its content is the error comment, a blank line, then the original |
| App.AllowedFileIff | app.py:39-40 | a name is allowed exactly when, lower-cased, it ends in a dot and an allowed extension |
| App.AllowedFileEndsWith | app.py:39-40 | an allowed name ends, lower-cased, in a dot and its lower-cased last segment |
| App.EndsWithAllowed | app.py:39-40 | any name whose lower-cased form ends in `.zip`, `.java`, `.kt`, `.swift` or `.xml` is allowed |
| App.ValidUploads | app.py:69 | the valid uploads are exactly the uploads with a non-empty, allowed name |
| App.ValidUploadsFilter | app.py:69 | the valid uploads keep the uploads' order, and each allowed upload occurs among them as often as among the uploads |
| App.Contribute | app.py:84-113 | one pass of the upload loop: a code file is staged as itself; a ZIP contributes its extraction |
| App.GatherUploads | app.py:76-113 | the upload loop gathers all contributions in order; the output name is the last upload's name, or `conversion` |
| App.ContributionOutcome | app.py:89-113 | a code file contributes exactly itself; a ZIP with an unknown platform contributes nothing |
| App.AsSaved | app.py:84-86 | saving keeps every upload's name and archive |
| App.SavedContentIsLast | app.py:84-86 | every upload is read back with the content and disk behaviour of the last upload of its name |
| App.DistinctNamesReadAsUploaded | app.py:84-86 | uploads with distinct names are read back as they were uploaded |
| App.SavedLastName | app.py:84-87 | saving does not change the name the output is called after |
| App.RepeatedNameReadsLastContent | app.py:84-113 | two code files of the same name are both gathered with the second one's content |
| App.FilterEach | app.py:117-128 | the filter loop keeps exactly the files that pass the test, in order |
| App.FilterByConversionType | app.py:116-128 | the filter step returns the files the conversion type admits |
| App.FilteredMembers | app.py:117-126 | a file is kept iff it was gathered and its path passes the test |
| App.FilteredSubsequence | app.py:117-128 | filtering keeps the files in their original order |
| App.FilterFilesSpec | app.py:116-128 | `full_project` keeps everything; an unknown type keeps nothing; any other type keeps exactly the files its rule admits, as a subsequence |
| App.KeepCases | app.py:119-126 | `logic_only` keeps the `java`, `kt` and `swift` extensions; `layouts_only` keeps `xml` and any path containing `layout` |
| App.FallbackHeader | app.py:150 | the header starts with `// CONVERSION FAILED: `, followed by the first 100 characters of the error |
| App.BatchFallback | app.py:143-156 | the fallback loop returns a fallback file for each file that can be read again, in order |
| App.FallbackFilesSound | app.py:144-156 | every fallback file is a header plus a file's content under its path; every readable file gets one |
| App.FallbackContent | app.py:150-152 | a fallback starts with that header, carries at most 100 characters of the error, and ends with the source |
| App.DeliverSpec | app.py:162-180 | storing fails with the generic error exactly when a platform value, or the name the output is called after (the converted file's for a single output, the last upload's for a ZIP), holds a folder; otherwise the output is a single file iff there is exactly one conversion and one upload; a single file is named after the converted file and holds its text, or the empty-content notice when that text is empty; otherwise the output is a ZIP named after the last upload, holding the conversions followed by the copies of the preserved files |
| App.OutputNameHoldsFolder | app.py:165 | the output name `converted_<source>_to_<target>_<name>` holds a folder exactly when one of the platform values or the name does |
| App.OutputNameDownload | app.py:237-244 | an output is downloaded as a single file exactly when the upload it is named after is not a `.zip` |
| App.ZipNamedAfterCodeFileServedAsSingle | app.py:228-244 | several uploads whose last is a code file give a ZIP, once written (no part of its name holds a folder), that the download route serves as a single file |
| App.CheckFormOutcome | app.py:55-73 | each of no named file, missing platforms, same platforms and no valid files is the rejection exactly when its check is the first to fail; no other rejection comes from these checks; a form is accepted exactly when it passes all four, and then has two different platforms and a non-empty list of valid uploads |
| App.CheckRequest | app.py:50-73 | the form checks return the form's verdict |
| App.ConvertStage | app.py:138-159 | conversion with fallback: the batch conversion, or else the whole-batch fallback; no result when the fallback is empty too |
| App.Store | app.py:161-180 | the output step returns the delivered artifact, or the generic error when the output name it writes to holds a folder, in either branch |
| App.ProcessUploads | app.py:75-190 | saving, gathering, filtering, conversion and output give the specified response, including the generic error for an output name that holds a folder, whether the folder comes from the converted name or from a platform value |
| App.ConvertCode | app.py:47-195 | the request handler returns the response of its specification, including the generic error of its outer branch |
| App.ProcessOutcome | app.py:116-195 | the only rejections after validation are no matching files, service failure and the generic error; "no matching files" happens exactly when the filtered list is empty; the generic error needs a platform value or the last upload's name holding a folder, or a single upload; a single-file result comes from a single upload and has non-empty content |
| App.PlatformFolderNeverDelivers | app.py:165-195 | a request whose source or target platform value holds `/` is never delivered: the write to the output path raises and the generic error follows |
| App.NestedSingleOutputFails | app.py:161-195 | a ZIP uploaded alone whose only code file is in a folder and converts ends in the generic error |
| App.ConvertedOutputsDelivered | app.py:138-159 | when every file's staged copy can be read, there is one output per file |
| LegacyApp.AnyZipIff | app_old.py:91-92 | the ZIP flag is set exactly when some valid upload's name ends in `.zip`, ignoring case |
| LegacyApp.Probe | app_old.py:91-113 | one pass of the first loop returns a ZIP upload's extraction error, if any |
| LegacyApp.ScanUploads | app_old.py:83-113 | the first loop gives the first extraction error; without one, it also gives the ZIP flag and the files gathered from the uploads as saved |
| LegacyApp.FirstErrorStops | app_old.py:83-113 | once an upload's extraction raises, later uploads do not change the outcome |
| LegacyApp.NoZipNoError | app_old.py:110-113 | uploads without a ZIP never raise in the first loop |
| LegacyApp.LastZipExtracts | app_old.py:83-113 | when the first loop succeeds and the last upload is a ZIP, its extraction succeeded |
| LegacyApp.ZipStage | app_old.py:135-203 | the archive branch returns its response |
| LegacyApp.SingleStage | app_old.py:204-225 | the single-file branch returns its response |
| LegacyApp.ConvertCode | app_old.py:45-298 | the old request handler returns the response of its specification |
| LegacyApp.IgnoresConversionType | app_old.py:115-133 | the conversion type selects the filtered list, but the response is the same whatever conversion type is chosen |
| LegacyApp.ExtractedListUnused | app_old.py:133-225 | the handler's response does not depend on the first pass's filtered list |
| LegacyApp.UnguardedFilterSame | app_old.py:115-131 | filtering without the emptiness guard gives the same list as the current handler's filter |
| LegacyApp.SingleOutcome | app_old.py:228-250 | a delivered result is a single file exactly when no valid upload is a ZIP |
| LegacyApp.SingleFileOutcome | app_old.py:204-241 | a single-file result is named after the last upload, converted, and that upload passed validation; its content is the converted text, or the empty-content notice when that text is empty, so it is never empty |
| LegacyApp.ZipBranchShape | app_old.py:228-250 | the archive branch only ever delivers a ZIP |
| LegacyApp.SingleBranchShape | app_old.py:204-241 | the single-file branch only ever delivers a validated, renamed single file holding the converted text or the empty-content notice |
| LegacyApp.ZipOutcome | app_old.py:135-249 | a ZIP result is named after the last upload, which extracted successfully; it ends with the copies of that archive's preserved files |
| LegacyApp.NoZipIsSingleBranch | app_old.py:83-135 | without a ZIP upload, the handler answers as the single-file branch does on the last upload |
| LegacyApp.OnlyLastUploadConverted | app_old.py:83-225 | without a ZIP upload, the handler answers as if only the last upload had been sent |
| LegacyApp.ArchiveThenSingleFile | app_old.py:88-203 | a good ZIP followed by a code file fails with the error of opening the code file as a ZIP |
| LegacyApp.BadZipNeverExtracts | file_handler.py:102-103 | a file that is not a ZIP container fails project extraction |
| LegacyApp.Decimal | app_old.py:159 | a count is rendered as at least one decimal digit |
| LegacyApp.DecimalRoundTrip | app_old.py:159 | reading the rendered digits back gives the count |
| LegacyApp.JoinWithContains | app_old.py:159 | the joined list contains each of its parts |
| LegacyApp.Shown | app_old.py:159 | at most the first three error records are shown, in order: all of them when there are three or fewer |
| LegacyApp.NoCodeMessage | app_old.py:156-163 | the message starts with `No <platform> code files found in the uploaded ZIP.`; with no errors and no skips, that is all of it |
| LegacyApp.NoCodeMessageNamesErrors | app_old.py:156-160 | the message names each of the first three error records |
| LegacyApp.ErrorPartNamesErrors | app_old.py:158-161 | the error part names each of the first three error records |
| LegacyApp.ConversionErrorNoticeIff | app_old.py:292-296 | the network notice is shown exactly when the lower-cased error mentions `network`, `timeout` or `connection`; otherwise the notice ends with the error |
| LegacyApp.InternalCoversConversion | app_old.py:386-391 | an error that gets the network notice in the handler also gets it from the 500 handler |
| LegacyApp.HandleExceptionPrecedence | app_old.py:400-409 | a mention of `openai` or `api` gives the service notice; otherwise a mention of `zip` or `extract` gives the archive notice; every notice has at most 110 characters |
| LegacyApp.MimeOfExtension | app_old.py:327-335 | single files ending in `.java`, `.kt` and `.swift` get the Java, Kotlin and Swift source types |
| LegacyApp.ConvertedFileMime | app_old.py:327-337 | a file converted to a mapped target is served with that target's source type |

## Left out

- Flask itself is not modelled:
  - sessions, flash wording, redirects, `render_template`;
  - the routes `index`, `preview_conversion`, `conversion_status`, `test_upload`;
  - the `too_large` handler.
  The page flow is reduced to a rejection reason or a delivered artifact. The 500 and exception handlers of `app_old.py` are modelled as the notice they pick (`LegacyApp.InternalErrorNotice`, `LegacyApp.HandleExceptionNotice`).
  - `app.py` has fixed messages in those handlers, so it has no such model.
- The translation service is an injected reply per attempt, and per file in the batch; the OpenAI/httpx client is not modelled. Left out with it:
  - the system prompt and the prompt prose (`code_converter.py:121-181`);
  - model name, token limit and temperature.
  Only the file-kind branch of the prompt is modelled (`CodeConverter.PromptFileKind`).
- Disk and ZIP input/output are injected values, not modelled: `zipfile`, `tempfile`, `open`, `os.path.exists`/`getsize`, `save`.
  - Each archive entry carries how its extraction by the code scan goes, and separately how its extraction by the preserve scan goes.
  - Each staged file carries how each later read of it goes.
  - An uploaded file carries what the ZIP reader makes of it.
  - A file's size test is taken as "non-empty content".
  - The trial read of 100 characters is folded into the extraction outcome.
- Writing the output file and the output archive, and the `create_zip` failure path (`file_handler.py:212-214`), are not modelled as disk operations. Nothing creates sub-folders of the converted-files folder, so in `app.py` writing an output, single file or archive, whose name holds a folder fails. Every other write is taken to succeed. Only the copy of each preserved file may fail.
- The rejection `App.ConversionError` stands for every error the outer branch of `convert_code` catches (`app.py:192-195`); the only one the model produces is the failed write of an output whose name holds a folder.
- LegacyApp.ZipBranch: the archive write of `app_old.py` (`app_old.py:244-249`) is taken to succeed, so a platform value holding `/`, which makes that write raise into the outer handler (`app_old.py:275`), is not captured.
- LegacyApp.SingleBranch: the single-file write of `app_old.py` (`app_old.py:231-235`) is taken to succeed; with `secure_filename` taken as the identity, a converted name holding a folder, which would make it raise, is not captured.
- Waiting is not modelled: `time.sleep` is recorded as the list of delays.
- Logging is not modelled, and neither is the clean-up of temporary files (`app_old.py:252-260`, `280-290`).
- `secure_filename` is taken as the identity on upload names, so a name it would rewrite or empty is not modelled.
- Case mapping and whitespace are ASCII only; Unicode `lower()`/`upper()`/`strip()` are not modelled.
- `validate_zip_file` (`file_handler.py:216-226`) is never called by either request handler. Its model would be a single test on the injected archive value, so it is not modelled.
- `FileHandler.ExtractProjectFiles`: `App` and `LegacyApp` take project extraction as a function value (`App.Rules`, defaulting to `FileHandler.ProjectFilesOf`), not through the method.
  - The method is proved equal to that function.
  - The tuple-length fallbacks in the handlers (`len(extraction_result) == 4`) always take the four-tuple path, which is the only one reachable. The others are not modelled.
- `LegacyApp.SingleStage`: the single-file branch reads the last upload with the same read outcome the converter's read uses (`convertRead`). It does not model a separate read outcome for `app_old.py:214`.
- `CodeConverter.ConvertedFilenameSplits`: stated only for names whose final component has a character other than a dot. For a final component made only of dots, `os.path.splitext` returns no extension; that case is covered only by the definition, not by a lemma.
- `CodeConverter.Backoff`: its own contract states only the number of waits; the values 2 and 4 are stated by `CodeConverter.RetryBounded` and `CodeConverter.AllAttemptsFail`.
