/** The archive classifier: which archive entries are skipped, converted,
    recorded as errors or preserved verbatim, the platform extension check,
    the file count, and the assembly of the output archive's entries.

    An archive is its list of entries in `namelist()` order. Extracting an
    entry to staging storage is not performed: each entry carries the outcome
    of its extraction as an injected value. */
module FileHandler {
  import opened Wrappers
  import opened Text
  import opened Storage

  /** The outcome of extracting one entry: it was written to staging storage,
      creating the staging directory failed, or the extraction (or the trial
      read that follows it) raised. */
  datatype Staging = Staged | StagingFailed | ExtractFailed

  /** An archive entry: its name in the archive, its contents, how its
      extraction by the code scan goes, how its separate extraction by the
      preserve scan goes, and how later accesses to the staged copy go. */
  datatype Entry = Entry(name: string, data: string, staging: Staging, preserveStaging: Staging, disk: Disk)

  /** A readable archive, or a file that is not a valid ZIP container. */
  datatype Archive = Archive(entries: seq<Entry>) | BadZip

  // ------------------------------------------------------------ configuration

  /** `code_extensions.get(platform, [])`. */
  function CodeExtensions(platform: string): seq<string>
  {
    if platform == "android_java" then [".java", ".xml"]
    else if platform == "android_kotlin" then [".kt", ".xml"]
    else if platform == "ios_swift" then [".swift", ".storyboard", ".xib"]
    else []
  }

  predicate KnownPlatform(platform: string)
  {
    platform == "android_java" || platform == "android_kotlin" || platform == "ios_swift"
  }

  const SkipPatterns: seq<string> := [
    ".git/", ".idea/", ".vscode/", "__pycache__/",
    ".gradle/", "build/", "bin/", "obj/", "target/",
    ".DS_Store", "Thumbs.db", ".gitignore", ".gitattributes",
    "gradle/", "gradlew", "gradlew.bat", "local.properties",
    "Pods/", "DerivedData/", ".xcworkspace/", ".xcodeproj/",
    ".png", ".jpg", ".jpeg", ".gif", ".ico", ".svg", ".webp",
    ".mp3", ".mp4", ".avi", ".mov", ".wav",
    "proguard-rules.pro", ".pro", ".properties",
    ".md", ".txt", ".pdf", ".docx",
    ".zip", ".tar", ".gz", ".rar"
  ]

  /** The first twelve are media extensions, each also a skip pattern. */
  const PreservePatterns: seq<string> := [
    ".png", ".jpg", ".jpeg", ".gif", ".ico", ".svg", ".webp",
    ".mp3", ".mp4", ".avi", ".mov", ".wav",
    "androidmanifest.xml", "info.plist"
  ]

  const ExactSkipNames: seq<string> := ["gradlew", "gradlew.bat", "local.properties", ".ds_store", "thumbs.db"]

  const SuspiciousPatterns: seq<string> := ["generated", "cache", "temp", "tmp", ".class", ".dex", ".o"]

  const MaxDepth: nat := 6

  // --------------------------------------------------------------- skip rule

  /** One skip pattern against the lower-cased path: a pattern ending in '/'
      names a folder, any other pattern is a suffix or substring. */
  predicate MatchesSkipPattern(lp: string, pattern: string)
  {
    if EndsWith(pattern, "/") then
      var folder := pattern[..|pattern| - 1];
      Contains("/" + lp + "/", "/" + folder + "/") || StartsWith(lp, folder + "/")
    else
      EndsWith(lp, pattern) || Contains(lp, pattern)
  }

  /** The scan of the skip patterns, stopping at the first that matches. */
  predicate AnySkipPattern(lp: string, patterns: seq<string>)
    decreases |patterns|
  {
    patterns != [] && (MatchesSkipPattern(lp, patterns[0]) || AnySkipPattern(lp, patterns[1..]))
  }

  /** `_should_skip_file`: an exact basename, a folder or file pattern, a path
      with more than six '/' characters, or a suspicious substring. */
  predicate ShouldSkip(path: string)
  {
    var lp := Lower(path);
    || Basename(lp) in ExactSkipNames
    || AnySkipPattern(lp, SkipPatterns)
    || CountChar(path, '/') > MaxDepth
    || exists q | q in SuspiciousPatterns :: Contains(lp, q)
  }

  /** What a skip pattern means, independent of how it is tested: a folder
      pattern names a component of the path, any other pattern a substring. */
  predicate PatternHits(lp: string, pattern: string)
  {
    if EndsWith(pattern, "/") then IsComponent(lp, pattern[..|pattern| - 1]) else Contains(lp, pattern)
  }

  lemma {:induction false} AnySkipPatternIff(lp: string, patterns: seq<string>)
    ensures AnySkipPattern(lp, patterns) <==> exists i | 0 <= i < |patterns| :: MatchesSkipPattern(lp, patterns[i])
    decreases |patterns|
  {
    if patterns != [] {
      AnySkipPatternIff(lp, patterns[1..]);
      if exists i | 0 <= i < |patterns| :: MatchesSkipPattern(lp, patterns[i]) {
        var i :| 0 <= i < |patterns| && MatchesSkipPattern(lp, patterns[i]);
        if i > 0 {
          assert patterns[1..][i - 1] == patterns[i];
        }
      }
      if AnySkipPattern(lp, patterns[1..]) {
        var i :| 0 <= i < |patterns[1..]| && MatchesSkipPattern(lp, patterns[1..][i]);
        assert patterns[i + 1] == patterns[1..][i];
      }
    }
  }

  /** A folder pattern such as `build/` matches exactly when the folder is one
      of the path's components: the test `'/build/' in '/path/'` already
      covers the path that starts with `build/`. */
  lemma {:induction false} FolderPatternIsComponent(lp: string, pattern: string)
    requires EndsWith(pattern, "/")
    ensures MatchesSkipPattern(lp, pattern) <==> IsComponent(lp, pattern[..|pattern| - 1])
  {
    var folder := pattern[..|pattern| - 1];
    SlashedContainsIsComponent(lp, folder);
    if StartsWith(lp, folder + "/") {
      LeadingComponent(lp, folder);
    }
  }

  /** A pattern not ending in '/' matches exactly when it is a substring of
      the lower-cased path: the suffix test is subsumed. */
  lemma {:induction false} FilePatternIsSubstring(lp: string, pattern: string)
    requires !EndsWith(pattern, "/")
    ensures MatchesSkipPattern(lp, pattern) <==> Contains(lp, pattern)
  {
    if EndsWith(lp, pattern) {
      EndsWithContains(lp, pattern);
    }
  }

  lemma {:induction false} PatternHitsIff(lp: string, pattern: string)
    ensures MatchesSkipPattern(lp, pattern) <==> PatternHits(lp, pattern)
  {
    if EndsWith(pattern, "/") {
      FolderPatternIsComponent(lp, pattern);
    } else {
      FilePatternIsSubstring(lp, pattern);
    }
  }

  /** The skip rule as a whole: a path is skipped exactly when one of the five
      rules fires, with the pattern rule read as components and substrings. */
  lemma {:induction false} ShouldSkipIff(path: string)
    ensures ShouldSkip(path) <==>
      var lp := Lower(path);
      || Basename(lp) in ExactSkipNames
      || (exists i | 0 <= i < |SkipPatterns| :: PatternHits(lp, SkipPatterns[i]))
      || CountChar(path, '/') > MaxDepth
      || (exists q | q in SuspiciousPatterns :: Contains(lp, q))
  {
    var lp := Lower(path);
    AnySkipPatternIff(lp, SkipPatterns);
    forall i | 0 <= i < |SkipPatterns|
      ensures MatchesSkipPattern(lp, SkipPatterns[i]) <==> PatternHits(lp, SkipPatterns[i])
    {
      PatternHitsIff(lp, SkipPatterns[i]);
    }
  }

  /** A path whose lower-cased basename is a build wrapper or OS metadata file
      is skipped, whatever its extension. */
  lemma {:induction false} ExactNameSkipped(path: string)
    requires Basename(Lower(path)) in ExactSkipNames
    ensures ShouldSkip(path)
  {
  }

  /** A folder pattern skips every path that has the folder as a component. */
  lemma {:induction false} FolderComponentSkipped(path: string, i: nat)
    requires i < |SkipPatterns| && EndsWith(SkipPatterns[i], "/")
    requires IsComponent(Lower(path), SkipPatterns[i][..|SkipPatterns[i]| - 1])
    ensures ShouldSkip(path)
  {
    FolderPatternIsComponent(Lower(path), SkipPatterns[i]);
    AnySkipPatternIff(Lower(path), SkipPatterns);
  }

  /** A file pattern skips every path that contains it, at the end or anywhere. */
  lemma {:induction false} SubstringSkipped(path: string, i: nat)
    requires i < |SkipPatterns| && !EndsWith(SkipPatterns[i], "/")
    requires Contains(Lower(path), SkipPatterns[i])
    ensures ShouldSkip(path)
  {
    FilePatternIsSubstring(Lower(path), SkipPatterns[i]);
    AnySkipPatternIff(Lower(path), SkipPatterns);
  }

  /** Deep paths and paths with a suspicious substring are skipped. */
  lemma {:induction false} DepthAndSuspiciousSkipped(path: string)
    requires CountChar(path, '/') > MaxDepth || exists q | q in SuspiciousPatterns :: Contains(Lower(path), q)
    ensures ShouldSkip(path)
  {
  }

  /** The patterns `.DS_Store`, `Thumbs.db`, `Pods/` and `DerivedData/` hold
      capitals but are compared with the lower-cased path, so none of them
      ever matches: `Pods/` folders are not skipped by the pattern scan. */
  lemma {:induction false} CapitalisedPatternNeverMatches(path: string, pattern: string)
    requires HasUpper(pattern)
    ensures !MatchesSkipPattern(Lower(path), pattern)
  {
    var lp := Lower(path);
    LowerHasNoUpper(path);
    if EndsWith(pattern, "/") {
      var folder := pattern[..|pattern| - 1];
      assert pattern == folder + "/";
      var j :| 0 <= j < |pattern| && IsUpper(pattern[j]);
      var slashed := "/" + folder + "/";
      assert slashed[j + 1] == folder[j];
      Slashed(lp);
      var t := "/" + lp + "/";
      forall x | 0 <= x < |t| ensures !IsUpper(t[x]) {
        if 1 <= x <= |lp| {
          assert t[x] == lp[x - 1];
        }
      }
      ContainsNoNewUpper(t, slashed);
      StartsWithContains(lp, pattern);
      ContainsNoNewUpper(lp, pattern);
    } else {
      EndsWithContains(lp, pattern);
      ContainsNoNewUpper(lp, pattern);
    }
  }

  // ----------------------------------------------------------- preserve rule

  predicate MatchesPreservePattern(lp: string, pattern: string)
  {
    EndsWith(lp, pattern) || Contains(Basename(lp), pattern)
  }

  /** The scan of the preserve patterns, stopping at the first that matches. */
  predicate AnyPreservePattern(lp: string, patterns: seq<string>)
    decreases |patterns|
  {
    patterns != [] && (MatchesPreservePattern(lp, patterns[0]) || AnyPreservePattern(lp, patterns[1..]))
  }

  /** The preserve decision of `_extract_preserve_files` for a non-directory
      entry: a preserve pattern matches and the skip rule does not. */
  predicate ShouldPreserve(path: string)
  {
    AnyPreservePattern(Lower(path), PreservePatterns) && !ShouldSkip(path)
  }

  lemma {:induction false} AnyPreservePatternWitness(lp: string, patterns: seq<string>)
    requires AnyPreservePattern(lp, patterns)
    ensures exists i | 0 <= i < |patterns| :: MatchesPreservePattern(lp, patterns[i])
    decreases |patterns|
  {
    if !MatchesPreservePattern(lp, patterns[0]) {
      AnyPreservePatternWitness(lp, patterns[1..]);
      var i :| 0 <= i < |patterns[1..]| && MatchesPreservePattern(lp, patterns[1..][i]);
      assert patterns[i + 1] == patterns[1..][i];
    }
  }

  /** The twelve media preserve patterns are the skip patterns from index 21 on. */
  lemma {:induction false} MediaPatternsAreSkipPatterns(i: nat)
    requires i < 12
    ensures PreservePatterns[i] == SkipPatterns[21 + i] && !EndsWith(SkipPatterns[21 + i], "/")
  {
  }

  /** A path containing a media extension is skipped. */
  lemma {:induction false} MediaPathSkipped(path: string, i: nat)
    requires i < 12 && Contains(Lower(path), PreservePatterns[i])
    ensures ShouldSkip(path)
  {
    MediaPatternsAreSkipPatterns(i);
    SubstringSkipped(path, 21 + i);
  }

  /** A path that a preserve pattern selects contains that pattern. */
  lemma {:induction false} PreserveMatchContains(lp: string, pattern: string)
    requires MatchesPreservePattern(lp, pattern)
    ensures Contains(lp, pattern)
  {
    if EndsWith(lp, pattern) {
      EndsWithContains(lp, pattern);
    } else {
      ContainsInSuffix(lp, Basename(lp), pattern);
    }
  }

  /** Every media preserve pattern is also a skip pattern, so only a path
      naming a manifest (`androidmanifest.xml` or `info.plist`) is ever
      preserved: no image, audio or video file is. */
  lemma {:induction false} OnlyManifestsPreserved(path: string)
    requires ShouldPreserve(path)
    ensures Contains(Lower(path), "androidmanifest.xml") || Contains(Lower(path), "info.plist")
  {
    var i := PreserveWitness(Lower(path));
    if i < 12 {
      MediaPathSkipped(path, i);
      assert false;
    }
    ManifestPatterns(i);
  }

  /** The preserve pattern that selects a path, which the path contains. */
  lemma {:induction false} PreserveWitness(lp: string) returns (i: nat)
    requires AnyPreservePattern(lp, PreservePatterns)
    ensures i < |PreservePatterns| && Contains(lp, PreservePatterns[i])
  {
    AnyPreservePatternWitness(lp, PreservePatterns);
    i :| 0 <= i < |PreservePatterns| && MatchesPreservePattern(lp, PreservePatterns[i]);
    PreserveMatchContains(lp, PreservePatterns[i]);
  }

  /** The two preserve patterns after the media extensions name manifests. */
  lemma {:induction false} ManifestPatterns(i: nat)
    requires 12 <= i < |PreservePatterns|
    ensures PreservePatterns[i] == "androidmanifest.xml" || PreservePatterns[i] == "info.plist"
  {
  }

  /** No path ending in a media extension is preserved. */
  lemma {:induction false} MediaNeverPreserved(path: string, i: nat)
    requires i < 12 && EndsWith(Lower(path), PreservePatterns[i])
    ensures !ShouldPreserve(path)
  {
    EndsWithContains(Lower(path), PreservePatterns[i]);
    MediaPathSkipped(path, i);
  }

  // ------------------------------------------------------- platform check

  /** `validate_file_platform`: the lower-cased pathlib suffix is one of the
      platform's code extensions. */
  predicate ValidateFilePlatform(filename: string, platform: string)
  {
    HasCodeExtension(filename, CodeExtensions(platform))
  }

  /** The lower-cased pathlib suffix is one of `exts`. */
  predicate HasCodeExtension(path: string, exts: seq<string>)
  {
    Lower(Suffix(path)) in exts
  }

  /** The check accepts a file exactly for a known platform one of whose
      extensions is the file's lower-cased suffix; so never for an unknown
      platform, nor for a file whose final component has no extension. */
  lemma {:induction false} ValidateFilePlatformIff(filename: string, platform: string)
    ensures ValidateFilePlatform(filename, platform)
            <==> KnownPlatform(platform) && Lower(Suffix(filename)) in CodeExtensions(platform)
    ensures ValidateFilePlatform(filename, platform) ==> KnownPlatform(platform) && Suffix(filename) != ""
    ensures KnownPlatform(platform) && Lower(Suffix(filename)) == CodeExtensions(platform)[0]
            ==> ValidateFilePlatform(filename, platform)
  {
  }

  // ---------------------------------------------------------- classification

  /** Where one entry of the archive goes; `Failed` gives the parenthesised
      reason of its error record. */
  datatype Verdict = Directory | Skipped | NotCode | Extracted | Failed(reason: string)

  /** The decision `extract_code_files` takes for one entry. */
  function EntryVerdict(e: Entry, exts: seq<string>): Verdict
  {
    if EndsWith(e.name, "/") then Directory
    else if ShouldSkip(e.name) then Skipped
    else if !HasCodeExtension(e.name, exts) then NotCode
    else match e.staging
      case StagingFailed => Failed("processing error")
      case ExtractFailed => Failed("extraction failed")
      case Staged => if e.data == "" then Failed("empty or corrupted") else Extracted
  }

  /** The decision for one platform's extensions, as a value the scan's lists
      are built from. */
  function VerdictRule(exts: seq<string>): Entry -> Verdict
  {
    e => EntryVerdict(e, exts)
  }

  function ErrorRecord(name: string, reason: string): string { name + " (" + reason + ")" }

  function AsStaged(e: Entry): StagedFile { StagedFile(e.name, e.data, e.disk) }

  /** The staged copies of the entries with verdict `Extracted`, in archive order. */
  function CodeFiles(es: seq<Entry>, verdict: Entry -> Verdict): seq<StagedFile>
  {
    if es == [] then []
    else CodeFiles(es[..|es| - 1], verdict)
         + (if verdict(es[|es| - 1]) == Extracted then [AsStaged(es[|es| - 1])] else [])
  }

  /** The names of the entries with verdict `Skipped`, in archive order. */
  function SkippedPaths(es: seq<Entry>, verdict: Entry -> Verdict): seq<string>
  {
    if es == [] then []
    else SkippedPaths(es[..|es| - 1], verdict)
         + (if verdict(es[|es| - 1]) == Skipped then [es[|es| - 1].name] else [])
  }

  /** The error records of the entries with a `Failed` verdict, in archive order. */
  function ErrorFiles(es: seq<Entry>, verdict: Entry -> Verdict): seq<string>
  {
    if es == [] then []
    else ErrorFiles(es[..|es| - 1], verdict)
         + (match verdict(es[|es| - 1])
            case Failed(reason) => [ErrorRecord(es[|es| - 1].name, reason)]
            case _ => [])
  }

  datatype Classification = Classification(code: seq<StagedFile>, skipped: seq<string>, errors: seq<string>)

  /** What `extract_code_files` returns or raises. */
  function Classify(archive: Archive, platform: string): Result<Classification>
  {
    var exts := CodeExtensions(platform);
    if exts == [] then Failure("Unsupported platform: " + platform)
    else match archive
      case BadZip => Failure("Invalid ZIP file")
      case Archive(es) =>
        var rule := VerdictRule(exts);
        Success(Classification(CodeFiles(es, rule), SkippedPaths(es, rule), ErrorFiles(es, rule)))
  }

  /** `extract_code_files`: scan the entries, sorting each non-directory entry
      into the extracted, skipped or error list. */
  method ExtractCodeFiles(archive: Archive, platform: string) returns (r: Result<Classification>)
    ensures r == Classify(archive, platform)
  {
    var exts := CodeExtensions(platform);
    if exts == [] {
      return Failure("Unsupported platform: " + platform);
    }
    if archive.BadZip? {
      return Failure("Invalid ZIP file");
    }
    var c := Scan(archive.entries, VerdictRule(exts));
    r := Success(c);
  }

  /** The loop of `extract_code_files`: each entry, in order, goes to the list
      its verdict names, or to none. */
  method Scan(es: seq<Entry>, rule: Entry -> Verdict) returns (c: Classification)
    ensures c == Classification(CodeFiles(es, rule), SkippedPaths(es, rule), ErrorFiles(es, rule))
  {
    var extracted: seq<StagedFile> := [];
    var skipped: seq<string> := [];
    var errors: seq<string> := [];
    var i := 0;
    while i < |es|
      invariant 0 <= i <= |es|
      invariant extracted == CodeFiles(es[..i], rule)
      invariant skipped == SkippedPaths(es[..i], rule)
      invariant errors == ErrorFiles(es[..i], rule)
    {
      var e := es[i];
      assert es[..i + 1][..i] == es[..i] && es[..i + 1][i] == e;
      match rule(e) {
        case Directory =>
        case NotCode =>
        case Skipped =>
          skipped := skipped + [e.name];
        case Extracted =>
          extracted := extracted + [AsStaged(e)];
        case Failed(reason) =>
          errors := errors + [ErrorRecord(e.name, reason)];
      }
      i := i + 1;
    }
    assert es[..|es|] == es;
    c := Classification(extracted, skipped, errors);
  }

  // ------------------------------------------------ properties of the scan

  /** The number of entries whose verdict satisfies `pick`. */
  function CountVerdicts(es: seq<Entry>, verdict: Entry -> Verdict, pick: Verdict -> bool): nat
  {
    if es == [] then 0
    else CountVerdicts(es[..|es| - 1], verdict, pick) + (if pick(verdict(es[|es| - 1])) then 1 else 0)
  }

  function IsDirectoryVerdict(v: Verdict): bool { v == Directory }

  function IsNotCodeVerdict(v: Verdict): bool { v == NotCode }

  /** Each entry is a directory, is added to exactly one of the three lists, or
      is ignored because it is neither skipped nor of a code extension. */
  lemma {:induction false} ClassificationCount(es: seq<Entry>, verdict: Entry -> Verdict)
    ensures |CodeFiles(es, verdict)| + |SkippedPaths(es, verdict)| + |ErrorFiles(es, verdict)|
            + CountVerdicts(es, verdict, IsNotCodeVerdict) + CountVerdicts(es, verdict, IsDirectoryVerdict) == |es|
  {
    if es != [] {
      ClassificationCount(es[..|es| - 1], verdict);
    }
  }

  /** The directory verdict is given exactly to names ending in '/'. */
  lemma {:induction false} DirectoryVerdictIff(e: Entry, exts: seq<string>)
    ensures EntryVerdict(e, exts) == Directory <==> EndsWith(e.name, "/")
  {
  }

  /** Each extracted file is the staged copy of an entry with verdict
      `Extracted`, and each such entry is extracted. */
  lemma {:induction false} CodeFilesIff(es: seq<Entry>, verdict: Entry -> Verdict)
    ensures forall f | f in CodeFiles(es, verdict) :: exists e | e in es :: verdict(e) == Extracted && AsStaged(e) == f
    ensures forall e | e in es && verdict(e) == Extracted :: AsStaged(e) in CodeFiles(es, verdict)
  {
    if es != [] {
      var init := es[..|es| - 1];
      CodeFilesIff(init, verdict);
      assert forall e | e in es :: e in init || e == es[|es| - 1];
      forall f | f in CodeFiles(es, verdict)
        ensures exists e | e in es :: verdict(e) == Extracted && AsStaged(e) == f
      {
        if f in CodeFiles(init, verdict) {
          var e :| e in init && verdict(e) == Extracted && AsStaged(e) == f;
          assert e in es;
        } else {
          assert es[|es| - 1] in es;
        }
      }
    }
  }

  /** Each skipped path is the name of an entry with verdict `Skipped`, and
      each such entry's name is listed. */
  lemma {:induction false} SkippedPathsIff(es: seq<Entry>, verdict: Entry -> Verdict)
    ensures forall p | p in SkippedPaths(es, verdict) :: exists e | e in es :: verdict(e) == Skipped && e.name == p
    ensures forall e | e in es && verdict(e) == Skipped :: e.name in SkippedPaths(es, verdict)
  {
    if es != [] {
      var init := es[..|es| - 1];
      SkippedPathsIff(init, verdict);
      assert forall e | e in es :: e in init || e == es[|es| - 1];
      forall p | p in SkippedPaths(es, verdict)
        ensures exists e | e in es :: verdict(e) == Skipped && e.name == p
      {
        if p in SkippedPaths(init, verdict) {
          var e :| e in init && verdict(e) == Skipped && e.name == p;
          assert e in es;
        } else {
          assert es[|es| - 1] in es;
        }
      }
    }
  }

  /** Each error record comes from an entry with a `Failed` verdict, and each
      such entry leaves its record. */
  lemma {:induction false} ErrorFilesIff(es: seq<Entry>, verdict: Entry -> Verdict)
    ensures forall r | r in ErrorFiles(es, verdict) ::
      exists e | e in es && verdict(e).Failed? :: r == ErrorRecord(e.name, verdict(e).reason)
    ensures forall e | e in es && verdict(e).Failed? :: ErrorRecord(e.name, verdict(e).reason) in ErrorFiles(es, verdict)
  {
    if es != [] {
      var init := es[..|es| - 1];
      ErrorFilesIff(init, verdict);
      assert forall e | e in es :: e in init || e == es[|es| - 1];
      forall r | r in ErrorFiles(es, verdict)
        ensures exists e | e in es && verdict(e).Failed? :: r == ErrorRecord(e.name, verdict(e).reason)
      {
        if r in ErrorFiles(init, verdict) {
          var e :| e in init && verdict(e).Failed? && r == ErrorRecord(e.name, verdict(e).reason);
          assert e in es;
        } else {
          assert es[|es| - 1] in es;
        }
      }
    }
  }

  /** What an extracted file is: a non-directory entry that is not skipped,
      has one of the platform's extensions, was staged and is not empty; and
      every such entry is extracted. */
  lemma {:induction false} CodeFilesCharacterisation(es: seq<Entry>, exts: seq<string>)
    ensures forall f | f in CodeFiles(es, VerdictRule(exts)) ::
      exists e | e in es ::
        && AsStaged(e) == f && !EndsWith(e.name, "/") && !ShouldSkip(e.name)
        && HasCodeExtension(e.name, exts) && e.staging == Staged && e.data != ""
    ensures forall e | e in es && !EndsWith(e.name, "/") && !ShouldSkip(e.name) && HasCodeExtension(e.name, exts)
                                && e.staging == Staged && e.data != "" ::
      AsStaged(e) in CodeFiles(es, VerdictRule(exts))
  {
    var rule := VerdictRule(exts);
    CodeFilesIff(es, rule);
    forall f | f in CodeFiles(es, rule)
      ensures exists e | e in es ::
        && AsStaged(e) == f && !EndsWith(e.name, "/") && !ShouldSkip(e.name)
        && HasCodeExtension(e.name, exts) && e.staging == Staged && e.data != ""
    {
      var e :| e in es && rule(e) == Extracted && AsStaged(e) == f;
      ExtractedVerdict(e, exts);
    }
    forall e | e in es && !EndsWith(e.name, "/") && !ShouldSkip(e.name) && HasCodeExtension(e.name, exts)
                       && e.staging == Staged && e.data != ""
      ensures AsStaged(e) in CodeFiles(es, rule)
    {
      ExtractedVerdict(e, exts);
    }
  }

  lemma {:induction false} ExtractedVerdict(e: Entry, exts: seq<string>)
    ensures EntryVerdict(e, exts) == Extracted <==>
      && !EndsWith(e.name, "/") && !ShouldSkip(e.name) && HasCodeExtension(e.name, exts)
      && e.staging == Staged && e.data != ""
  {
  }

  /** What a skipped path is: the name of a non-directory entry that the skip
      rule catches; and every such entry's name is listed. */
  lemma {:induction false} SkippedPathsCharacterisation(es: seq<Entry>, exts: seq<string>)
    ensures forall p | p in SkippedPaths(es, VerdictRule(exts)) :: !EndsWith(p, "/") && ShouldSkip(p)
    ensures forall e | e in es && !EndsWith(e.name, "/") && ShouldSkip(e.name) :: e.name in SkippedPaths(es, VerdictRule(exts))
  {
    var rule := VerdictRule(exts);
    SkippedPathsIff(es, rule);
    forall p | p in SkippedPaths(es, rule) ensures !EndsWith(p, "/") && ShouldSkip(p) {
      var e :| e in es && rule(e) == Skipped && e.name == p;
      SkippedVerdict(e, exts);
    }
    forall e | e in es && !EndsWith(e.name, "/") && ShouldSkip(e.name) ensures e.name in SkippedPaths(es, rule) {
      SkippedVerdict(e, exts);
    }
  }

  lemma {:induction false} SkippedVerdict(e: Entry, exts: seq<string>)
    ensures EntryVerdict(e, exts) == Skipped <==> !EndsWith(e.name, "/") && ShouldSkip(e.name)
  {
  }

  /** A skipped entry is never extracted. */
  lemma {:induction false} SkippedNeverExtracted(es: seq<Entry>, exts: seq<string>)
    ensures forall f | f in CodeFiles(es, VerdictRule(exts)) :: f.relativePath !in SkippedPaths(es, VerdictRule(exts))
  {
    CodeFilesCharacterisation(es, exts);
    SkippedPathsCharacterisation(es, exts);
  }

  /** An empty code file is recorded as "(empty or corrupted)" and not extracted. */
  lemma {:induction false} EmptyCodeFileIsError(es: seq<Entry>, exts: seq<string>, e: Entry)
    requires e in es && e.staging == Staged && e.data == ""
    requires !EndsWith(e.name, "/") && !ShouldSkip(e.name) && HasCodeExtension(e.name, exts)
    ensures ErrorRecord(e.name, "empty or corrupted") in ErrorFiles(es, VerdictRule(exts))
    ensures AsStaged(e) !in CodeFiles(es, VerdictRule(exts))
  {
    ErrorFilesIff(es, VerdictRule(exts));
    CodeFilesCharacterisation(es, exts);
  }

  /** An unknown platform raises before the archive is opened. */
  lemma {:induction false} UnknownPlatformRaises(archive: Archive, platform: string)
    requires !KnownPlatform(platform)
    ensures Classify(archive, platform) == Failure("Unsupported platform: " + platform)
  {
  }

  /** An entry that is a staged, non-empty, unskipped file is extracted exactly
      when it passes the platform check. */
  lemma {:induction false} ExtractedIffValidated(e: Entry, platform: string)
    requires e.staging == Staged && e.data != "" && !EndsWith(e.name, "/") && !ShouldSkip(e.name)
    ensures EntryVerdict(e, CodeExtensions(platform)) == Extracted <==> ValidateFilePlatform(e.name, platform)
  {
  }

  // ------------------------------------------------------- preserved files

  /** A non-directory entry that the preserve rule selects and that the
      preserve scan's own extraction stages. */
  predicate PreservedEntry(e: Entry)
  {
    !EndsWith(e.name, "/") && ShouldPreserve(e.name) && e.preserveStaging == Staged
  }

  const PreserveRule: Entry -> bool := e => PreservedEntry(e)

  /** The staged copies of the entries that `keep` selects, in archive order. */
  function Select(es: seq<Entry>, keep: Entry -> bool): seq<StagedFile>
  {
    if es == [] then []
    else Select(es[..|es| - 1], keep) + (if keep(es[|es| - 1]) then [AsStaged(es[|es| - 1])] else [])
  }

  /** What `_extract_preserve_files` returns; an unreadable archive yields none. */
  function Preserved(archive: Archive): seq<StagedFile>
  {
    match archive
    case BadZip => []
    case Archive(es) => Select(es, PreserveRule)
  }

  /** `_extract_preserve_files`: collect the entries to copy unconverted; one
      that fails to extract is dropped. */
  method ExtractPreserveFiles(archive: Archive) returns (preserved: seq<StagedFile>)
    ensures preserved == Preserved(archive)
  {
    if archive.BadZip? {
      return [];
    }
    preserved := SelectEntries(archive.entries, PreserveRule);
  }

  /** The loop of `_extract_preserve_files`: keep, in order, the staged copy of
      each entry that `keep` accepts. */
  method SelectEntries(es: seq<Entry>, keep: Entry -> bool) returns (selected: seq<StagedFile>)
    ensures selected == Select(es, keep)
  {
    selected := [];
    var i := 0;
    while i < |es|
      invariant 0 <= i <= |es|
      invariant selected == Select(es[..i], keep)
    {
      var e := es[i];
      assert es[..i + 1][..i] == es[..i] && es[..i + 1][i] == e;
      if keep(e) {
        selected := selected + [AsStaged(e)];
      }
      i := i + 1;
    }
    assert es[..|es|] == es;
  }

  /** Each selected file is the staged copy of an entry that `keep` accepts,
      and each accepted entry is selected. */
  lemma {:induction false} SelectIff(es: seq<Entry>, keep: Entry -> bool)
    ensures forall f | f in Select(es, keep) :: exists e | e in es :: keep(e) && AsStaged(e) == f
    ensures forall e | e in es && keep(e) :: AsStaged(e) in Select(es, keep)
    ensures |Select(es, keep)| <= |es|
  {
    if es != [] {
      var init := es[..|es| - 1];
      SelectIff(init, keep);
      assert forall e | e in es :: e in init || e == es[|es| - 1];
      forall f | f in Select(es, keep) ensures exists e | e in es :: keep(e) && AsStaged(e) == f {
        if f in Select(init, keep) {
          var e :| e in init && keep(e) && AsStaged(e) == f;
          assert e in es;
        } else {
          assert es[|es| - 1] in es;
        }
      }
    }
  }

  /** A preserved file carries its entry's name and bytes, matches the preserve
      rule, and names a manifest; every entry of a readable archive that the
      preserve rule selects and the preserve scan stages is preserved. */
  lemma {:induction false} PreservedFilesIff(archive: Archive)
    ensures forall f | f in Preserved(archive) ::
      && ShouldPreserve(f.relativePath)
      && (Contains(Lower(f.relativePath), "androidmanifest.xml") || Contains(Lower(f.relativePath), "info.plist"))
      && exists e | e in archive.entries :: e.name == f.relativePath && e.data == f.content
    ensures archive.Archive? ==>
      forall e | e in archive.entries && PreservedEntry(e) :: AsStaged(e) in Preserved(archive)
  {
    if archive.Archive? {
      SelectIff(archive.entries, PreserveRule);
      forall f | f in Preserved(archive)
        ensures ShouldPreserve(f.relativePath)
        ensures Contains(Lower(f.relativePath), "androidmanifest.xml") || Contains(Lower(f.relativePath), "info.plist")
        ensures exists e | e in archive.entries :: e.name == f.relativePath && e.data == f.content
      {
        var e :| e in archive.entries && PreserveRule(e) && AsStaged(e) == f;
        OnlyManifestsPreserved(f.relativePath);
      }
      forall e | e in archive.entries && PreservedEntry(e) ensures AsStaged(e) in Preserved(archive) {
        assert PreserveRule(e);
      }
    }
  }

  // ---------------------------------------------------------- project files

  datatype ProjectFiles = ProjectFiles(code: seq<StagedFile>, preserve: seq<StagedFile>,
                                       skipped: seq<string>, errors: seq<string>)

  /** What `extract_project_files` returns or raises. */
  function ProjectFilesOf(archive: Archive, platform: string): Result<ProjectFiles>
  {
    match Classify(archive, platform)
    case Failure(e) => Failure(e)
    case Success(c) => Success(ProjectFiles(c.code, Preserved(archive), c.skipped, c.errors))
  }

  /** `extract_project_files`: the code scan, which may raise, then the
      preserve scan. */
  method ExtractProjectFiles(archive: Archive, platform: string) returns (r: Result<ProjectFiles>)
    ensures r == ProjectFilesOf(archive, platform)
    ensures r.Success? <==> archive.Archive? && KnownPlatform(platform)
  {
    var c := ExtractCodeFiles(archive, platform);
    if c.Failure? {
      return Failure(c.error);
    }
    var preserved := ExtractPreserveFiles(archive);
    r := Success(ProjectFiles(c.value.code, preserved, c.value.skipped, c.value.errors));
  }

  // -------------------------------------------------------------- file count

  /** A non-directory entry that passes the platform check. */
  predicate Counted(e: Entry, platform: string)
  {
    !EndsWith(e.name, "/") && ValidateFilePlatform(e.name, platform)
  }

  function CountRule(platform: string): Entry -> bool
  {
    e => Counted(e, platform)
  }

  /** The number of entries that `counted` accepts. */
  function CountWhere(es: seq<Entry>, counted: Entry -> bool): nat
  {
    if es == [] then 0
    else CountWhere(es[..|es| - 1], counted) + (if counted(es[|es| - 1]) then 1 else 0)
  }

  /** What `get_file_count` returns; an unreadable archive counts zero. */
  function FileCount(archive: Archive, platform: string): nat
  {
    match archive
    case BadZip => 0
    case Archive(es) => CountWhere(es, CountRule(platform))
  }

  /** `get_file_count`: count the non-directory entries with a code extension,
      ignoring the skip rules. */
  method GetFileCount(archive: Archive, platform: string) returns (count: nat)
    ensures count == FileCount(archive, platform)
  {
    if archive.BadZip? {
      return 0;
    }
    count := CountEntries(archive.entries, CountRule(platform));
  }

  /** The loop of `get_file_count`. */
  method CountEntries(es: seq<Entry>, counted: Entry -> bool) returns (count: nat)
    ensures count == CountWhere(es, counted)
  {
    count := 0;
    var i := 0;
    while i < |es|
      invariant 0 <= i <= |es|
      invariant count == CountWhere(es[..i], counted)
    {
      assert es[..i + 1][..i] == es[..i] && es[..i + 1][i] == es[i];
      if counted(es[i]) {
        count := count + 1;
      }
      i := i + 1;
    }
    assert es[..|es|] == es;
  }

  /** When every extracted entry is counted, no more files are extracted than
      counted. */
  lemma {:induction false} ExtractedWithinCount(es: seq<Entry>, verdict: Entry -> Verdict, counted: Entry -> bool)
    requires forall e | e in es :: verdict(e) == Extracted ==> counted(e)
    ensures |CodeFiles(es, verdict)| <= CountWhere(es, counted)
  {
    if es != [] {
      assert es[|es| - 1] in es;
      assert forall e | e in es[..|es| - 1] :: e in es;
      ExtractedWithinCount(es[..|es| - 1], verdict, counted);
    }
  }

  /** The file count is an upper bound on what the scan extracts. */
  lemma {:induction false} ExtractedWithinFileCount(archive: Archive, platform: string)
    requires archive.Archive?
    ensures KnownPlatform(platform) ==> |Classify(archive, platform).value.code| <= FileCount(archive, platform)
  {
    var exts := CodeExtensions(platform);
    forall e | e in archive.entries && VerdictRule(exts)(e) == Extracted
      ensures CountRule(platform)(e)
    {
    }
    ExtractedWithinCount(archive.entries, VerdictRule(exts), CountRule(platform));
  }

  // ------------------------------------------------------------ output archive

  function CopiedEntries(preserved: seq<StagedFile>): seq<OutputFile>
  {
    if preserved == [] then []
    else
      var f := preserved[|preserved| - 1];
      CopiedEntries(preserved[..|preserved| - 1])
      + (if f.disk.archiveCopy == Readable then [OutputFile(f.relativePath, f.content)] else [])
  }

  /** `create_zip`: the entries written to the output archive, converted files
      first, then each preserved file whose copy succeeds. */
  method CreateZip(converted: seq<OutputFile>, preserved: seq<StagedFile>) returns (entries: seq<OutputFile>)
    ensures entries == converted + CopiedEntries(preserved)
  {
    entries := [];
    var i := 0;
    while i < |converted|
      invariant 0 <= i <= |converted|
      invariant entries == converted[..i]
    {
      entries := entries + [converted[i]];
      i := i + 1;
    }
    assert converted[..|converted|] == converted;
    var j := 0;
    while j < |preserved|
      invariant 0 <= j <= |preserved|
      invariant entries == converted + CopiedEntries(preserved[..j])
    {
      assert preserved[..j + 1][..j] == preserved[..j];
      if preserved[j].disk.archiveCopy == Readable {
        entries := entries + [OutputFile(preserved[j].relativePath, preserved[j].content)];
      }
      j := j + 1;
    }
    assert preserved[..|preserved|] == preserved;
  }

  /** Every preserved file whose copy succeeds is in the archive under its
      relative path with its bytes unchanged, and nothing else is added. */
  lemma {:induction false} CopiedVerbatim(preserved: seq<StagedFile>)
    ensures forall f | f in preserved && f.disk.archiveCopy == Readable ::
              OutputFile(f.relativePath, f.content) in CopiedEntries(preserved)
    ensures forall o | o in CopiedEntries(preserved) ::
              exists f | f in preserved :: o == OutputFile(f.relativePath, f.content)
    ensures |CopiedEntries(preserved)| <= |preserved|
  {
    if preserved != [] {
      var init := preserved[..|preserved| - 1];
      CopiedVerbatim(init);
      assert forall f | f in preserved :: f in init || f == preserved[|preserved| - 1];
      forall o | o in CopiedEntries(preserved)
        ensures exists f | f in preserved :: o == OutputFile(f.relativePath, f.content)
      {
        if o in CopiedEntries(init) {
          var f :| f in init && o == OutputFile(f.relativePath, f.content);
          assert f in preserved;
        } else {
          assert preserved[|preserved| - 1] in preserved;
        }
      }
    }
  }
}
