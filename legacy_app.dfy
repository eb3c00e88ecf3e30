/** The earlier request handler, kept beside the current one. It runs the
    same form checks, but it tells archives from single files by whether any
    upload is an archive, re-opens the last upload as the archive to convert,
    converts only the last upload when there is no archive, and reports every
    unexpected error through one handler. It also holds the download's MIME
    choice and the two application-wide error handlers. */
module LegacyApp {
  import opened Wrappers
  import opened Text
  import opened Storage
  import FileHandler
  import CodeConverter
  import App

  /** Why a request ends without output. */
  datatype Failure =
    | Refused(reason: App.Rejection)            // the form checks shared with the current handler
    | ExtractionFailed(error: string)           // the last upload could not be re-opened as an archive
    | NoCodeInZip(errors: seq<string>, skipped: nat)
    | PlatformMismatch
    | ServiceUnavailable                        // conversion raised and no fallback file could be made
    | Raised(error: string)                     // caught by the handler's outer error branch

  datatype Response = Rejected(failure: Failure) | Delivered(outputName: string, artifact: App.Artifact)

  // ------------------------------------------------------------ first pass

  /** Some upload is an archive. */
  predicate AnyZip(valid: seq<App.Upload>)
  {
    valid != [] && (AnyZip(valid[..|valid| - 1]) || App.IsZipName(valid[|valid| - 1].filename))
  }

  lemma {:induction false} AnyZipIff(valid: seq<App.Upload>)
    ensures AnyZip(valid) <==> exists u | u in valid :: App.IsZipName(u.filename)
  {
    if valid != [] {
      var n := |valid| - 1;
      AnyZipIff(valid[..n]);
      assert valid == valid[..n] + [valid[n]];
    }
  }

  /** The error of the first archive upload that cannot be extracted. The
      first pass extracts every archive outside any error handling, so that
      error ends the request. */
  function FirstExtractionError(valid: seq<App.Upload>, sourcePlatform: string, extract: App.Extractor): Option<string>
  {
    if valid == [] then None
    else
      match FirstExtractionError(valid[..|valid| - 1], sourcePlatform, extract)
      case Some(e) => Some(e)
      case None =>
        ExtractionError(valid[|valid| - 1], sourcePlatform, extract)
  }

  /** The error an upload raises in the first pass: an archive that cannot
      be extracted. */
  function ExtractionError(u: App.Upload, sourcePlatform: string, extract: App.Extractor): Option<string>
  {
    if App.IsZipName(u.filename) && extract(u.archive, sourcePlatform).Failure?
    then Some(extract(u.archive, sourcePlatform).error)
    else None
  }

  /** One step of the first pass. */
  method Probe(u: App.Upload, sourcePlatform: string, extract: App.Extractor) returns (error: Option<string>)
    ensures error == ExtractionError(u, sourcePlatform, extract)
  {
    error := None;
    if App.IsZipName(u.filename) {
      var extraction := extract(u.archive, sourcePlatform);
      if extraction.Failure? {
        error := Some(extraction.error);
      }
    }
  }

  /** The first pass over the uploads: save each one, extract each archive,
      stop at the first archive that raises, note whether any archive was
      seen, and gather the files as the current handler does. */
  method ScanUploads(valid: seq<App.Upload>, sourcePlatform: string, extract: App.Extractor)
    returns (error: Option<string>, isZip: bool, g: App.Gathering)
    ensures error == FirstExtractionError(valid, sourcePlatform, extract)
    ensures error.None? ==> isZip == AnyZip(valid) && g == App.Gathered(App.AsSaved(valid), sourcePlatform, extract)
  {
    var saved := App.AsSaved(valid);
    SavedScansAlike(valid, saved, |valid|, sourcePlatform, extract);
    assert valid[..|valid|] == valid && saved[..|saved|] == saved;
    error, isZip, g := ScanSaved(saved, sourcePlatform, extract);
  }

  /** The first pass over uploads already saved. */
  method ScanSaved(saved: seq<App.Upload>, sourcePlatform: string, extract: App.Extractor)
    returns (error: Option<string>, isZip: bool, g: App.Gathering)
    ensures error == FirstExtractionError(saved, sourcePlatform, extract)
    ensures error.None? ==> isZip == AnyZip(saved) && g == App.Gathered(saved, sourcePlatform, extract)
  {
    isZip := false;
    g := App.Gathering([], []);
    var i := 0;
    while i < |saved|
      invariant 0 <= i <= |saved|
      invariant FirstExtractionError(saved[..i], sourcePlatform, extract) == None
      invariant isZip == AnyZip(saved[..i])
      invariant g == App.Gathered(saved[..i], sourcePlatform, extract)
    {
      assert saved[..i + 1][..i] == saved[..i] && saved[..i + 1][i] == saved[i];
      isZip := isZip || App.IsZipName(saved[i].filename);
      var e := Probe(saved[i], sourcePlatform, extract);
      if e.Some? {
        FirstErrorStops(saved, i + 1, sourcePlatform, extract);
        return e, isZip, g;
      }
      var c := App.Contribute(saved[i], sourcePlatform, extract);
      GatheredStep(saved, i, sourcePlatform, extract);
      g := App.Gathering(g.files + c.files, g.preserve + c.preserve);
      i := i + 1;
    }
    assert saved[..i] == saved;
    error := None;
  }

  /** Saving changes only what an upload holds, not its name or archive, so
      the first pass over the saved uploads finds the same error and the same
      archive flag as over the uploads themselves. */
  lemma {:induction false} SavedScansAlike(a: seq<App.Upload>, b: seq<App.Upload>, n: nat,
                                           sourcePlatform: string, extract: App.Extractor)
    requires n <= |a| == |b|
    requires forall i | 0 <= i < |a| :: a[i].filename == b[i].filename && a[i].archive == b[i].archive
    ensures FirstExtractionError(a[..n], sourcePlatform, extract) == FirstExtractionError(b[..n], sourcePlatform, extract)
    ensures AnyZip(a[..n]) == AnyZip(b[..n])
  {
    if n > 0 {
      SavedScansAlike(a, b, n - 1, sourcePlatform, extract);
      assert a[..n][..n - 1] == a[..n - 1] && a[..n][n - 1] == a[n - 1];
      assert b[..n][..n - 1] == b[..n - 1] && b[..n][n - 1] == b[n - 1];
    }
  }

  /** Gathering one more upload adds its contribution. */
  lemma {:induction false} GatheredStep(us: seq<App.Upload>, i: nat, sourcePlatform: string, extract: App.Extractor)
    requires i < |us|
    ensures var g := App.Gathered(us[..i], sourcePlatform, extract);
      var c := App.Contribution(us[i], sourcePlatform, extract);
      App.Gathered(us[..i + 1], sourcePlatform, extract) == App.Gathering(g.files + c.files, g.preserve + c.preserve)
  {
    assert us[..i + 1][..i] == us[..i] && us[..i + 1][i] == us[i];
  }

  /** Once a prefix has an extraction error, the whole sequence has it. */
  lemma {:induction false} FirstErrorStops(valid: seq<App.Upload>, n: nat, sourcePlatform: string, extract: App.Extractor)
    requires n <= |valid| && FirstExtractionError(valid[..n], sourcePlatform, extract).Some?
    ensures FirstExtractionError(valid, sourcePlatform, extract) == FirstExtractionError(valid[..n], sourcePlatform, extract)
    decreases |valid| - n
  {
    if n < |valid| {
      assert valid[..n + 1][..n] == valid[..n];
      FirstErrorStops(valid, n + 1, sourcePlatform, extract);
    } else {
      assert valid[..n] == valid;
    }
  }

  /** Without an archive upload the first pass cannot fail. */
  lemma {:induction false} NoZipNoError(valid: seq<App.Upload>, sourcePlatform: string, extract: App.Extractor)
    requires !AnyZip(valid)
    ensures FirstExtractionError(valid, sourcePlatform, extract) == None
  {
    if valid != [] {
      NoZipNoError(valid[..|valid| - 1], sourcePlatform, extract);
    }
  }

  /** When the first pass succeeds and the last upload is an archive, the
      second extraction of that archive succeeds too. */
  lemma {:induction false} LastZipExtracts(valid: seq<App.Upload>, sourcePlatform: string, extract: App.Extractor)
    requires valid != [] && FirstExtractionError(valid, sourcePlatform, extract) == None
    requires App.IsZipName(valid[|valid| - 1].filename)
    ensures extract(valid[|valid| - 1].archive, sourcePlatform).Success?
  {
  }

  // ------------------------------------------------------------- branches

  /** The archive branch: re-open the last upload as an archive, refuse when
      it holds no code, and always store an archive, named after the last
      upload and holding the preserved files of that archive alone. */
  function ZipBranch(last: App.Upload, sourcePlatform: string, targetPlatform: string,
                     service: CodeConverter.Service, rules: App.Rules): Response
  {
    match rules.extract(last.archive, sourcePlatform)
    case Failure(e) => Rejected(ExtractionFailed(e))
    case Success(p) =>
      if p.code == [] then Rejected(NoCodeInZip(p.errors, |p.skipped|))
      else
        match App.ConvertOrFallback(p.code, sourcePlatform, targetPlatform, service, rules)
        case None => Rejected(ServiceUnavailable)
        case Some(converted) =>
          Delivered(App.OutputName(sourcePlatform, targetPlatform, last.filename),
                    App.ZipFile(converted + FileHandler.CopiedEntries(p.preserve)))
  }

  method ZipStage(last: App.Upload, sourcePlatform: string, targetPlatform: string,
                  service: CodeConverter.Service, rules: App.Rules) returns (r: Response)
    ensures r == ZipBranch(last, sourcePlatform, targetPlatform, service, rules)
  {
    var extraction := rules.extract(last.archive, sourcePlatform);
    if extraction.Failure? {
      return Rejected(ExtractionFailed(extraction.error));
    }
    var p := extraction.value;
    if p.code == [] {
      return Rejected(NoCodeInZip(p.errors, |p.skipped|));
    }
    var converted := App.ConvertStage(p.code, sourcePlatform, targetPlatform, service, rules);
    if converted.None? {
      return Rejected(ServiceUnavailable);
    }
    var entries := FileHandler.CreateZip(converted.value, p.preserve);
    r := Delivered(App.OutputName(sourcePlatform, targetPlatform, last.filename), App.ZipFile(entries));
  }

  /** The single-file branch: the last upload alone is checked against the
      source platform, read, converted with the first file's answers, and
      stored under its converted name. */
  function SingleBranch(last: App.Upload, sourcePlatform: string, targetPlatform: string,
                        service: CodeConverter.Service, rules: App.Rules): Response
  {
    if !FileHandler.ValidateFilePlatform(last.filename, sourcePlatform) then Rejected(PlatformMismatch)
    else if last.disk.convertRead.Unreadable? then Rejected(Raised(last.disk.convertRead.error))
    else
      var text := SingleText(last, sourcePlatform, targetPlatform, service, rules);
      Delivered(CodeConverter.ConvertedFilename(last.filename, targetPlatform),
                App.SingleFile(if text != "" then text else App.EmptyContentNotice))
  }

  /** The converter's text for the last upload, read as one file with the
      first file's answers. */
  function SingleText(last: App.Upload, sourcePlatform: string, targetPlatform: string,
                      service: CodeConverter.Service, rules: App.Rules): string
  {
    var fallback := rules.fallbacks(sourcePlatform, targetPlatform)(StagedFile(last.filename, last.content, last.disk));
    CodeConverter.SingleFileSpec(CodeConverter.OutcomesOf(CodeConverter.FileOracle(service, 0)), fallback).text
  }

  method SingleStage(last: App.Upload, sourcePlatform: string, targetPlatform: string,
                     service: CodeConverter.Service, rules: App.Rules) returns (r: Response)
    ensures r == SingleBranch(last, sourcePlatform, targetPlatform, service, rules)
  {
    if !FileHandler.ValidateFilePlatform(last.filename, sourcePlatform) {
      return Rejected(PlatformMismatch);
    }
    if last.disk.convertRead.Unreadable? {
      return Rejected(Raised(last.disk.convertRead.error));
    }
    var fallback := rules.fallbacks(sourcePlatform, targetPlatform)(StagedFile(last.filename, last.content, last.disk));
    var c := CodeConverter.ConvertSingleFile(CodeConverter.OutcomesOf(CodeConverter.FileOracle(service, 0)), fallback);
    r := Delivered(CodeConverter.ConvertedFilename(last.filename, targetPlatform),
                   App.SingleFile(if c.text != "" then c.text else App.EmptyContentNotice));
  }

  // --------------------------------------------------------------- request

  /** The handler after the form checks. `extracted` is the gathered and
      filtered list of the first pass, which the branches never read: the
      archive branch extracts the last upload afresh and the single-file
      branch reads the last upload itself. */
  function Handle(valid: seq<App.Upload>, sourcePlatform: string, targetPlatform: string,
                  extracted: seq<StagedFile>, service: CodeConverter.Service, rules: App.Rules): Response
    requires valid != []
  {
    match FirstExtractionError(valid, sourcePlatform, rules.extract)
    case Some(e) => Rejected(Raised(e))
    case None =>
      var last := valid[|valid| - 1];
      if AnyZip(valid) then ZipBranch(last, sourcePlatform, targetPlatform, service, rules)
      else SingleBranch(last, sourcePlatform, targetPlatform, service, rules)
  }

  /** The response to a conversion request. */
  function Respond(req: App.Request, service: CodeConverter.Service, rules: App.Rules): Response
  {
    match App.CheckForm(req)
    case Refused(reason) => Rejected(Refused(reason))
    case Accepted(src, tgt, valid) =>
      var extracted := App.FilterFiles(App.Gathered(App.AsSaved(valid), src, rules.extract).files, App.ConversionType(req));
      Handle(valid, src, tgt, extracted, service, rules)
  }

  /** The earlier `convert_code`. */
  method ConvertCode(req: App.Request, service: CodeConverter.Service) returns (r: Response)
    ensures r == Respond(req, service, App.Standard)
  {
    var c := App.CheckRequest(req);
    if c.Refused? {
      return Rejected(Refused(c.reason));
    }
    App.CheckFormOutcome(req);
    var error, isZip, g := ScanUploads(c.valid, c.source, App.Standard.extract);
    if error.Some? {
      return Rejected(Raised(error.value));
    }
    var extracted := App.FilterByConversionType(g.files, App.ConversionType(req));
    var last := c.valid[|c.valid| - 1];
    if isZip {
      r := ZipStage(last, c.source, c.target, service, App.Standard);
    } else {
      r := SingleStage(last, c.source, c.target, service, App.Standard);
    }
  }

  // ------------------------------------------------------------ properties

  /** The first pass filters without first asking whether anything was
      gathered; filtering nothing gives nothing, so this is the current
      handler's filter. */
  lemma {:induction false} UnguardedFilterSame(files: seq<StagedFile>, conversionType: string)
    ensures App.FilterFiles(files, conversionType)
         == (if conversionType != "full_project" then App.Filtered(files, App.KeepFor(conversionType)) else files)
  {
  }

  /** The first pass's list is never read: the response is the same
      whatever it holds. */
  lemma {:induction false} ExtractedListUnused(valid: seq<App.Upload>, sourcePlatform: string, targetPlatform: string,
                                               a: seq<StagedFile>, b: seq<StagedFile>,
                                               service: CodeConverter.Service, rules: App.Rules)
    requires valid != []
    ensures Handle(valid, sourcePlatform, targetPlatform, a, service, rules)
         == Handle(valid, sourcePlatform, targetPlatform, b, service, rules)
  {
  }

  /** The conversion type selects the filtered list, but has no effect on
      the response. */
  lemma {:induction false} IgnoresConversionType(req: App.Request, service: CodeConverter.Service, rules: App.Rules,
                              conversionType: Option<string>)
    ensures Respond(req.(conversionType := conversionType), service, rules) == Respond(req, service, rules)
  {
    var other := req.(conversionType := conversionType);
    assert App.CheckForm(other) == App.CheckForm(req);
    match App.CheckForm(req)
    case Refused(_) =>
    case Accepted(src, tgt, valid) =>
      var files := App.Gathered(App.AsSaved(valid), src, rules.extract).files;
      ExtractedListUnused(valid, src, tgt, App.FilterFiles(files, App.ConversionType(other)),
                          App.FilterFiles(files, App.ConversionType(req)), service, rules);
  }

  /** The output is a single file exactly when no upload is an archive. */
  lemma {:induction false} SingleOutcome(valid: seq<App.Upload>, sourcePlatform: string, targetPlatform: string,
                      extracted: seq<StagedFile>, service: CodeConverter.Service, rules: App.Rules)
    requires valid != []
    ensures var r := Handle(valid, sourcePlatform, targetPlatform, extracted, service, rules);
      r.Delivered? ==> (r.artifact.SingleFile? <==> !AnyZip(valid))
  {
    var last := valid[|valid| - 1];
    if FirstExtractionError(valid, sourcePlatform, rules.extract).None? {
      if AnyZip(valid) {
        ZipBranchShape(last, sourcePlatform, targetPlatform, service, rules);
      } else {
        SingleBranchShape(last, sourcePlatform, targetPlatform, service, rules);
      }
    }
  }

  /** A single-file output is the last upload under its converted name,
      checked against the source platform, and is never empty. */
  lemma {:induction false} SingleFileOutcome(valid: seq<App.Upload>, sourcePlatform: string, targetPlatform: string,
                          extracted: seq<StagedFile>, service: CodeConverter.Service, rules: App.Rules)
    requires valid != []
    ensures var r := Handle(valid, sourcePlatform, targetPlatform, extracted, service, rules);
      var last := valid[|valid| - 1];
      var text := SingleText(last, sourcePlatform, targetPlatform, service, rules);
      r.Delivered? && r.artifact.SingleFile? ==>
        && r.outputName == CodeConverter.ConvertedFilename(last.filename, targetPlatform)
        && FileHandler.ValidateFilePlatform(last.filename, sourcePlatform)
        && r.artifact.content == (if text != "" then text else App.EmptyContentNotice)
        && r.artifact.content != ""
  {
    var last := valid[|valid| - 1];
    if FirstExtractionError(valid, sourcePlatform, rules.extract).None? {
      if AnyZip(valid) {
        ZipBranchShape(last, sourcePlatform, targetPlatform, service, rules);
      } else {
        SingleBranchShape(last, sourcePlatform, targetPlatform, service, rules);
      }
    }
  }

  lemma {:induction false} ZipBranchShape(last: App.Upload, sourcePlatform: string, targetPlatform: string,
                       service: CodeConverter.Service, rules: App.Rules)
    ensures var r := ZipBranch(last, sourcePlatform, targetPlatform, service, rules);
      r.Delivered? ==> r.artifact.ZipFile?
  {
  }

  lemma {:induction false} SingleBranchShape(last: App.Upload, sourcePlatform: string, targetPlatform: string,
                          service: CodeConverter.Service, rules: App.Rules)
    ensures var r := SingleBranch(last, sourcePlatform, targetPlatform, service, rules);
      var text := SingleText(last, sourcePlatform, targetPlatform, service, rules);
      r.Delivered? ==>
        && r.artifact.SingleFile?
        && r.outputName == CodeConverter.ConvertedFilename(last.filename, targetPlatform)
        && FileHandler.ValidateFilePlatform(last.filename, sourcePlatform)
        && r.artifact.content == (if text != "" then text else App.EmptyContentNotice)
        && r.artifact.content != ""
  {
  }

  /** An archive output is named after the last upload, which must itself
      open as an archive, and ends with the copies of that archive's
      preserved files. */
  lemma {:induction false} ZipOutcome(valid: seq<App.Upload>, sourcePlatform: string, targetPlatform: string,
                   extracted: seq<StagedFile>, service: CodeConverter.Service, rules: App.Rules)
    requires valid != []
    ensures var r := Handle(valid, sourcePlatform, targetPlatform, extracted, service, rules);
      var last := valid[|valid| - 1];
      r.Delivered? && r.artifact.ZipFile? ==>
        && r.outputName == App.OutputName(sourcePlatform, targetPlatform, last.filename)
        && rules.extract(last.archive, sourcePlatform).Success?
        && var copies := FileHandler.CopiedEntries(rules.extract(last.archive, sourcePlatform).value.preserve);
           |copies| <= |r.artifact.entries| && r.artifact.entries[|r.artifact.entries| - |copies|..] == copies
  {
    var r := Handle(valid, sourcePlatform, targetPlatform, extracted, service, rules);
    var last := valid[|valid| - 1];
    if r.Delivered? && r.artifact.ZipFile? {
      var p := rules.extract(last.archive, sourcePlatform).value;
      var converted := App.ConvertOrFallback(p.code, sourcePlatform, targetPlatform, service, rules).value;
      var copies := FileHandler.CopiedEntries(p.preserve);
      assert r.artifact.entries == converted + copies;
      assert (converted + copies)[|converted|..] == copies;
    }
  }

  /** Without an archive, the request is the single-file branch on the last
      upload. */
  lemma {:induction false} NoZipIsSingleBranch(valid: seq<App.Upload>, last: App.Upload, sourcePlatform: string, targetPlatform: string,
                            extracted: seq<StagedFile>, service: CodeConverter.Service, rules: App.Rules)
    requires valid != [] && !AnyZip(valid) && last == valid[|valid| - 1]
    ensures Handle(valid, sourcePlatform, targetPlatform, extracted, service, rules)
         == SingleBranch(last, sourcePlatform, targetPlatform, service, rules)
  {
    NoZipNoError(valid, sourcePlatform, rules.extract);
  }

  /** Without an archive, only the last upload is converted: the earlier
      single files make no difference. */
  lemma {:induction false} OnlyLastUploadConverted(valid: seq<App.Upload>, sourcePlatform: string, targetPlatform: string,
                                extracted: seq<StagedFile>, service: CodeConverter.Service, rules: App.Rules)
    requires valid != [] && !AnyZip(valid)
    ensures Handle(valid, sourcePlatform, targetPlatform, extracted, service, rules)
         == Handle([valid[|valid| - 1]], sourcePlatform, targetPlatform, extracted, service, rules)
  {
    var last := valid[|valid| - 1];
    LastUploadNotZip(valid);
    NoZipIsSingleBranch(valid, last, sourcePlatform, targetPlatform, extracted, service, rules);
    NoZipIsSingleBranch([last], last, sourcePlatform, targetPlatform, extracted, service, rules);
  }

  /** The last of a set of uploads without an archive is none either. */
  lemma {:induction false} LastUploadNotZip(valid: seq<App.Upload>)
    requires valid != [] && !AnyZip(valid)
    ensures var last := valid[|valid| - 1]; !AnyZip([last]) && [last][0] == last
  {
    var last := valid[|valid| - 1];
    assert [last][..0] == [];
  }

  /** An archive followed by a single file: the single file is re-opened as
      the archive, and the request ends on its extraction error even though
      the archive itself could be read. */
  lemma {:induction false} ArchiveThenSingleFile(zip: App.Upload, single: App.Upload, sourcePlatform: string, targetPlatform: string,
                              extracted: seq<StagedFile>, service: CodeConverter.Service, rules: App.Rules)
    requires App.IsZipName(zip.filename) && rules.extract(zip.archive, sourcePlatform).Success?
    requires !App.IsZipName(single.filename) && rules.extract(single.archive, sourcePlatform).Failure?
    ensures Handle([zip, single], sourcePlatform, targetPlatform, extracted, service, rules)
         == Rejected(ExtractionFailed(rules.extract(single.archive, sourcePlatform).error))
  {
    assert [zip, single][..1] == [zip];
    assert [zip][..0] == [];
    assert FirstExtractionError([zip], sourcePlatform, rules.extract) == None;
    assert [zip, single][1] == single;
    assert FirstExtractionError([zip, single], sourcePlatform, rules.extract) == None;
    assert AnyZip([zip, single]);
  }

  /** A file that is not an archive never extracts, whatever the platform. */
  lemma {:induction false} BadZipNeverExtracts(sourcePlatform: string)
    ensures FileHandler.ProjectFilesOf(FileHandler.BadZip, sourcePlatform).Failure?
  {
  }

  // --------------------------------------------------------------- notices

  /** The decimal digits of `n`. */
  function Decimal(n: nat): (r: string)
    ensures |r| >= 1 && forall i | 0 <= i < |r| :: '0' <= r[i] <= '9'
  {
    if n < 10 then [('0' as int + n) as char] else Decimal(n / 10) + [('0' as int + n % 10) as char]
  }

  /** The number a string of decimal digits denotes. */
  function DecimalValue(s: string): nat
  {
    if s == [] then 0
    else DecimalValue(s[..|s| - 1]) * 10 + (if '0' <= s[|s| - 1] <= '9' then s[|s| - 1] as int - '0' as int else 0)
  }

  lemma {:induction false} DecimalRoundTrip(n: nat)
    ensures DecimalValue(Decimal(n)) == n
  {
    if n >= 10 {
      DecimalRoundTrip(n / 10);
      var r := Decimal(n);
      assert r[..|r| - 1] == Decimal(n / 10);
    }
  }

  /** `sep.join(ls)`. */
  function JoinWith(ls: seq<string>, sep: string): string
  {
    if ls == [] then "" else if |ls| == 1 then ls[0] else JoinWith(ls[..|ls| - 1], sep) + sep + ls[|ls| - 1]
  }

  lemma {:induction false} JoinWithContains(ls: seq<string>, sep: string, i: nat)
    requires i < |ls|
    ensures Contains(JoinWith(ls, sep), ls[i])
  {
    var j := JoinWith(ls, sep);
    if |ls| == 1 {
      StartsWithContains(j, ls[0]);
    } else if i == |ls| - 1 {
      EndsWithContains(j, ls[i]);
    } else {
      var init := JoinWith(ls[..|ls| - 1], sep);
      JoinWithContains(ls[..|ls| - 1], sep, i);
      assert ls[..|ls| - 1][i] == ls[i];
      ContainsInPrefix(init, sep + ls[|ls| - 1], ls[i]);
      assert j == init + (sep + ls[|ls| - 1]);
    }
  }

  function NoCodeHead(sourcePlatform: string): string
  {
    "No " + sourcePlatform + " code files found in the uploaded ZIP."
  }

  /** The error part of the message: the count and the first three error
      texts, and how many more there were. */
  function ErrorPart(errors: seq<string>): string
  {
    if errors == [] then ""
    else " " + Decimal(|errors|) + " files had errors: " + JoinWith(Shown(errors), ", ")
         + (if |errors| > 3 then " and " + Decimal(|errors| - 3) + " more." else "")
  }

  /** `errors[:3]`. */
  function Shown(errors: seq<string>): (r: seq<string>)
    ensures |r| <= 3 && |r| <= |errors| && forall i | 0 <= i < |r| :: r[i] == errors[i]
    ensures |r| == if |errors| <= 3 then |errors| else 3
  {
    if |errors| <= 3 then errors else errors[..3]
  }

  function SkippedPart(skipped: nat): string
  {
    if skipped == 0 then "" else " " + Decimal(skipped) + " files were skipped (build files, IDE files, etc.)"
  }

  /** The message for an archive without code. */
  function NoCodeMessage(sourcePlatform: string, errors: seq<string>, skipped: nat): (r: string)
    ensures StartsWith(r, NoCodeHead(sourcePlatform))
    ensures errors == [] && skipped == 0 ==> r == NoCodeHead(sourcePlatform)
  {
    var r := NoCodeHead(sourcePlatform) + ErrorPart(errors) + SkippedPart(skipped);
    assert r[..|NoCodeHead(sourcePlatform)|] == NoCodeHead(sourcePlatform);
    r
  }

  /** The message names each of the first three errors. */
  lemma {:induction false} NoCodeMessageNamesErrors(sourcePlatform: string, errors: seq<string>, skipped: nat, i: nat)
    requires i < |errors| && i < 3
    ensures Contains(NoCodeMessage(sourcePlatform, errors, skipped), errors[i])
  {
    ErrorPartNamesErrors(errors, i);
    var head := NoCodeHead(sourcePlatform);
    var part := ErrorPart(errors);
    assert (head + part)[|head + part| - |part|..] == part;
    ContainsInSuffix(head + part, part, errors[i]);
    ContainsInPrefix(head + part, SkippedPart(skipped), errors[i]);
  }

  lemma {:induction false} ErrorPartNamesErrors(errors: seq<string>, i: nat)
    requires i < |errors| && i < 3
    ensures Contains(ErrorPart(errors), errors[i])
  {
    var shown := Shown(errors);
    JoinWithContains(shown, ", ", i);
    var head := " " + Decimal(|errors|) + " files had errors: ";
    var more := if |errors| > 3 then " and " + Decimal(|errors| - 3) + " more." else "";
    var j := JoinWith(shown, ", ");
    assert (head + j)[|head + j| - |j|..] == j;
    ContainsInSuffix(head + j, j, errors[i]);
    ContainsInPrefix(head + j, more, errors[i]);
    assert ErrorPart(errors) == (head + j) + more;
  }

  /** The flash text of a failure that has one. */
  function Notice(f: Failure, sourcePlatform: string): Option<string>
  {
    match f
    case Refused(_) => None
    case ExtractionFailed(e) => Some("Failed to extract ZIP file: " + e)
    case NoCodeInZip(errors, skipped) => Some(NoCodeMessage(sourcePlatform, errors, skipped))
    case PlatformMismatch => Some("File extension does not match source platform " + sourcePlatform)
    case ServiceUnavailable => Some("Code conversion failed due to service issues. Please try again later.")
    case Raised(e) => Some(ConversionErrorNotice(e))
  }

  /** The lower-cased text contains one of the terms. */
  predicate MentionsAny(e: string, terms: seq<string>)
  {
    exists t | t in terms :: Contains(Lower(e), t)
  }

  const ConversionTerms: seq<string> := ["network", "timeout", "connection"]
  const InternalTerms: seq<string> := ConversionTerms + ["ssl", "recv"]
  const NetworkNotice := "Network connectivity issue " + "with AI service. Please try again in a moment."

  /** The outer error branch of the handler. */
  function ConversionErrorNotice(e: string): string
  {
    if MentionsAny(e, ConversionTerms) then NetworkNotice else "Error during conversion: " + e
  }

  /** The handler's error notice is the network notice exactly when the
      error mentions a network term, and names the error otherwise. */
  lemma {:induction false} ConversionErrorNoticeIff(e: string)
    ensures ConversionErrorNotice(e) == NetworkNotice <==> MentionsAny(e, ConversionTerms)
    ensures !MentionsAny(e, ConversionTerms) ==> EndsWith(ConversionErrorNotice(e), e)
  {
    if !MentionsAny(e, ConversionTerms) {
      var prefix := "Error during conversion: ";
      var r := ConversionErrorNotice(e);
      assert r == prefix + e;
      assert r[0] == 'E';
      assert NetworkNotice[0] == 'N';
      assert r[|r| - |e|..] == e;
    }
  }

  /** The error handler for internal server errors. */
  function InternalErrorNotice(e: string): string
  {
    if MentionsAny(e, InternalTerms) then NetworkNotice
    else "An internal error occurred. Please try again. If the problem persists, try uploading individual files instead of a ZIP."
  }

  /** Every error the request handler reports as a network issue, the
      internal-error handler reports as one too. */
  lemma {:induction false} InternalCoversConversion(e: string)
    requires ConversionErrorNotice(e) == NetworkNotice
    ensures InternalErrorNotice(e) == NetworkNotice
  {
    ConversionErrorNoticeIff(e);
    MentionsMore(e, ConversionTerms, ["ssl", "recv"]);
  }

  /** Mentioning one of some terms is mentioning one of any longer list. */
  lemma {:induction false} MentionsMore(e: string, terms: seq<string>, more: seq<string>)
    ensures MentionsAny(e, terms) ==> MentionsAny(e, terms + more)
  {
    if MentionsAny(e, terms) {
      var t :| t in terms && Contains(Lower(e), t);
      assert t in terms + more;
    }
  }

  const ServiceTerms: seq<string> := ["openai", "api"]
  const ArchiveTerms: seq<string> := ["zip", "extract"]
  const ServiceNotice := "AI service error. Please try again in a moment."
  const ArchiveNotice := "ZIP file processing error. Please check your file and try again."
  const PlainNetworkNotice := "Network connectivity issue. Please try again."

  /** The application-wide handler for unhandled errors: service terms
      first, then archive terms, then network terms, else the error cut to
      100 characters. */
  function HandleExceptionNotice(e: string): string
  {
    if MentionsAny(e, ServiceTerms) then ServiceNotice
    else if MentionsAny(e, ArchiveTerms) then ArchiveNotice
    else if MentionsAny(e, ConversionTerms) then PlainNetworkNotice
    else "Error: " + Take(e, 100) + "..."
  }

  /** The checks are ordered: an error naming the service is reported as a
      service error even when it names an archive or the network, and the
      catch-all notice is at most 110 characters long. */
  lemma {:induction false} HandleExceptionPrecedence(e: string)
    ensures MentionsAny(e, ServiceTerms) ==> HandleExceptionNotice(e) == ServiceNotice
    ensures !MentionsAny(e, ServiceTerms) && MentionsAny(e, ArchiveTerms) ==> HandleExceptionNotice(e) == ArchiveNotice
    ensures |HandleExceptionNotice(e)| <= 110
  {
  }

  // -------------------------------------------------------------- download

  /** The MIME type of a download: a single file by its extension, case
      sensitive; an archive is sent without one. */
  function DownloadMime(outputName: string, isSingleFile: bool): Option<string>
  {
    if !isSingleFile then None
    else if EndsWith(outputName, ".java") then Some("text/x-java-source")
    else if EndsWith(outputName, ".kt") then Some("text/x-kotlin")
    else if EndsWith(outputName, ".swift") then Some("text/x-swift")
    else Some("text/plain")
  }

  const MimeFor: map<string, string> :=
    map["android_java" := "text/x-java-source", "android_kotlin" := "text/x-kotlin", "ios_swift" := "text/x-swift"]

  /** A name ending with one of the source extensions gets that
      extension's MIME type. */
  lemma {:induction false} MimeOfExtension(stem: string)
    ensures DownloadMime(stem + ".java", true) == Some("text/x-java-source")
    ensures DownloadMime(stem + ".kt", true) == Some("text/x-kotlin")
    ensures DownloadMime(stem + ".swift", true) == Some("text/x-swift")
  {
    var java := stem + ".java";
    var kt := stem + ".kt";
    var swift := stem + ".swift";
    assert java[|java| - 5..] == ".java";
    assert kt[|kt| - 3..] == ".kt" && kt[|kt| - 1] == 't';
    assert swift[|swift| - 6..] == ".swift" && swift[|swift| - 1] == 't' && swift[|swift| - 2] == 'f';
  }

  /** A single converted file for a known target is sent with that target's
      source MIME type, whatever the uploaded name was. */
  lemma {:induction false} ConvertedFileMime(path: string, targetPlatform: string)
    requires targetPlatform in CodeConverter.ExtensionMap
    ensures targetPlatform in MimeFor
    ensures DownloadMime(CodeConverter.ConvertedFilename(path, targetPlatform), true) == Some(MimeFor[targetPlatform])
  {
    var stem := SplitExt(path).0;
    assert CodeConverter.ConvertedFilename(path, targetPlatform) == stem + CodeConverter.ExtensionMap[targetPlatform];
    MimeOfExtension(stem);
  }
}
