/** The request handler of the web front end: which uploads it accepts, how
    it gathers the files to convert from them, the conversion-type filter,
    the whole-batch fallback when conversion raises, and whether the result
    is served as one file or as an archive, and under which name.

    Uploads are values: the name the browser sent, the text the saved file
    holds, the outcome of each later read of it, and what opening it as a ZIP
    archive gives. The page flow (flash messages, redirects, templates) is
    reduced to the decision it carries: a rejection reason or the artifact
    produced. */
module App {
  import opened Wrappers
  import opened Text
  import opened Storage
  import FileHandler
  import CodeConverter

  // ---------------------------------------------------------------- inputs

  /** One uploaded file. `archive` is what the ZIP reader makes of it. */
  datatype Upload = Upload(filename: string, content: string, disk: Disk, archive: FileHandler.Archive)

  /** The form: the uploads and the three form fields, each possibly absent. */
  datatype Request = Request(uploads: seq<Upload>, sourcePlatform: Option<string>,
                             targetPlatform: Option<string>, conversionType: Option<string>)

  /** Why a request is sent back to the upload page. */
  datatype Rejection =
    | NoFilesSelected
    | MissingPlatforms
    | SamePlatforms
    | NoValidFiles
    | NoMatchingFiles
    | ServiceFailure
    | ConversionError     // any other error, caught by the handler's outer branch

  /** What a successful request leaves for download. */
  datatype Artifact = SingleFile(content: string) | ZipFile(entries: seq<OutputFile>)

  datatype Response = Rejected(reason: Rejection) | Delivered(outputName: string, artifact: Artifact)

  // ------------------------------------------------------------ allow-list

  const AllowedExtensions: set<string> := {"zip", "java", "kt", "swift", "xml"}

  /** `allowed_file`: the name has a dot and the text after its last dot,
      lower-cased, is an allowed extension. */
  predicate AllowedFile(filename: string)
  {
    '.' in filename && Lower(LastDotSegment(filename)) in AllowedExtensions
  }

  /** A name is allowed exactly when, lower-cased, it ends with a dot and one
      of the allowed extensions. */
  lemma {:induction false} AllowedFileIff(filename: string)
    ensures AllowedFile(filename) <==> exists ext | ext in AllowedExtensions :: EndsWith(Lower(filename), "." + ext)
  {
    if AllowedFile(filename) {
      AllowedFileEndsWith(filename);
    }
    if exists ext | ext in AllowedExtensions :: EndsWith(Lower(filename), "." + ext) {
      var ext :| ext in AllowedExtensions && EndsWith(Lower(filename), "." + ext);
      EndsWithAllowed(filename, ext);
    }
  }

  lemma {:induction false} AllowedFileEndsWith(filename: string)
    requires AllowedFile(filename)
    ensures EndsWith(Lower(filename), "." + Lower(LastDotSegment(filename)))
  {
    LowerLastDotSegment(filename);
    LowerKeepsDot(filename);
    EndsWithDotSegment(Lower(filename));
  }

  lemma {:induction false} EndsWithAllowed(filename: string, ext: string)
    requires ext in AllowedExtensions && EndsWith(Lower(filename), "." + ext)
    ensures AllowedFile(filename)
  {
    assert '.' !in ext;
    DotSegmentOfSuffix(Lower(filename), ext);
    LowerLastDotSegment(filename);
    LowerKeepsDot(filename);
  }

  /** An upload that has a name and passes the allow-list. */
  predicate IsValidUpload(u: Upload) { u.filename != "" && AllowedFile(u.filename) }

  const ValidRule: Upload -> bool := u => IsValidUpload(u)

  /** The uploads that `ok` admits, in order. */
  function Admitted(us: seq<Upload>, ok: Upload -> bool): seq<Upload>
  {
    if us == [] then []
    else Admitted(us[..|us| - 1], ok) + (if ok(us[|us| - 1]) then [us[|us| - 1]] else [])
  }

  /** The uploads that have a name and pass the allow-list, in order. */
  function ValidUploads(us: seq<Upload>): (vs: seq<Upload>)
    ensures forall v | v in vs :: v in us && v.filename != "" && AllowedFile(v.filename)
    ensures forall u | u in us && u.filename != "" && AllowedFile(u.filename) :: u in vs
  {
    AdmittedMembers(us, ValidRule);
    Admitted(us, ValidRule)
  }

  lemma {:induction false} AdmittedMembers(us: seq<Upload>, ok: Upload -> bool)
    ensures forall v :: v in Admitted(us, ok) <==> v in us && ok(v)
  {
    if us != [] {
      var n := |us| - 1;
      AdmittedMembers(us[..n], ok);
      assert us == us[..n] + [us[n]];
    }
  }

  // ------------------------------------------------------------- gathering

  /** The files to convert and the files to copy, gathered from the uploads. */
  datatype Gathering = Gathering(files: seq<StagedFile>, preserve: seq<StagedFile>)

  /** What reading an archive for a source platform gives. */
  type Extractor = (FileHandler.Archive, string) -> Result<FileHandler.ProjectFiles>

  predicate IsZipName(name: string) { EndsWith(Lower(name), ".zip") }

  /** What one upload contributes: an archive its code files and its
      preserved files, or nothing when it cannot be extracted; any other
      file itself, under its own name. */
  function Contribution(u: Upload, sourcePlatform: string, extract: Extractor): Gathering
  {
    if IsZipName(u.filename) then
      match extract(u.archive, sourcePlatform)
      case Failure(_) => Gathering([], [])
      case Success(p) => Gathering(p.code, p.preserve)
    else Gathering([StagedFile(u.filename, u.content, u.disk)], [])
  }

  function Gathered(us: seq<Upload>, sourcePlatform: string, extract: Extractor): Gathering
  {
    if us == [] then Gathering([], [])
    else
      var g := Gathered(us[..|us| - 1], sourcePlatform, extract);
      var c := Contribution(us[|us| - 1], sourcePlatform, extract);
      Gathering(g.files + c.files, g.preserve + c.preserve)
  }

  /** The name the output is called after: the last upload's. */
  function LastName(us: seq<Upload>): string
  {
    if us == [] then "conversion" else us[|us| - 1].filename
  }

  // ---------------------------------------------------------------- saving

  /** The index of the last upload called `name`, or -1 when there is none. */
  function LastNamed(us: seq<Upload>, name: string): (k: int)
    ensures -1 <= k < |us|
    ensures 0 <= k ==> us[k].filename == name
    ensures forall j | k < j < |us| :: us[j].filename != name
  {
    if us == [] then -1
    else if us[|us| - 1].filename == name then |us| - 1
    else LastNamed(us[..|us| - 1], name)
  }

  /** The uploads as the handler later reads them. Every upload is saved to
      the uploads folder under its own name, so uploads of the same name
      share one file and the last save wins: a code file is read with the
      content (and the disk behaviour) of the last upload of its name. An
      archive is extracted straight after its own save and keeps its own
      archive. */
  function AsSaved(us: seq<Upload>): (r: seq<Upload>)
    ensures |r| == |us|
    ensures forall i | 0 <= i < |us| :: r[i].filename == us[i].filename && r[i].archive == us[i].archive
  {
    seq(|us|, i requires 0 <= i < |us| =>
      var k := LastNamed(us, us[i].filename);
      us[i].(content := us[k].content, disk := us[k].disk))
  }

  /** Each upload is read with the content of the last upload of its name. */
  lemma {:induction false} SavedContentIsLast(us: seq<Upload>, i: nat, k: nat)
    requires i <= k < |us| && us[k].filename == us[i].filename
    requires forall j | k < j < |us| :: us[j].filename != us[i].filename
    ensures AsSaved(us)[i].content == us[k].content && AsSaved(us)[i].disk == us[k].disk
  {
    assert LastNamed(us, us[i].filename) == k;
  }

  /** Uploads with distinct names are read as they were uploaded. */
  lemma {:induction false} DistinctNamesReadAsUploaded(us: seq<Upload>)
    requires forall i, j | 0 <= i < j < |us| :: us[i].filename != us[j].filename
    ensures AsSaved(us) == us
  {
    forall i | 0 <= i < |us|
      ensures AsSaved(us)[i] == us[i]
    {
      SavedContentIsLast(us, i, i);
    }
  }

  /** Saving keeps the last upload's name, which names the output. */
  lemma {:induction false} SavedLastName(us: seq<Upload>)
    ensures LastName(AsSaved(us)) == LastName(us)
  {
  }

  /** Two code files of the same name, uploaded together, are both converted
      from the second one's content. */
  lemma {:induction false} RepeatedNameReadsLastContent(a: Upload, b: Upload, sourcePlatform: string, extract: Extractor)
    requires a.filename == b.filename && !IsZipName(a.filename)
    ensures var f := StagedFile(b.filename, b.content, b.disk);
      Gathered(AsSaved([a, b]), sourcePlatform, extract).files == [f, f]
  {
    var saved := AsSaved([a, b]);
    SavedContentIsLast([a, b], 0, 1);
    SavedContentIsLast([a, b], 1, 1);
    var f := StagedFile(b.filename, b.content, b.disk);
    assert Contribution(saved[0], sourcePlatform, extract).files == [f];
    assert Contribution(saved[1], sourcePlatform, extract).files == [f];
    var first := saved[..1];
    assert first[..0] == [] && first[0] == saved[0];
    assert Gathered(first, sourcePlatform, extract).files == [f];
    assert saved[..|saved| - 1] == first;
  }

  /** One upload: extract it when it is an archive, take it as it is
      otherwise. */
  method Contribute(u: Upload, sourcePlatform: string, extract: Extractor) returns (c: Gathering)
    ensures c == Contribution(u, sourcePlatform, extract)
  {
    if IsZipName(u.filename) {
      var extraction := extract(u.archive, sourcePlatform);
      if extraction.Success? {
        c := Gathering(extraction.value.code, extraction.value.preserve);
      } else {
        c := Gathering([], []);
      }
    } else {
      c := Gathering([StagedFile(u.filename, u.content, u.disk)], []);
    }
  }

  /** The upload loop: save each valid upload, extract archives, keep code
      files as they are, and remember the last name seen. */
  method GatherUploads(valid: seq<Upload>, sourcePlatform: string, extract: Extractor) returns (g: Gathering, filename: string)
    ensures g == Gathered(valid, sourcePlatform, extract)
    ensures filename == LastName(valid)
  {
    g := Gathering([], []);
    filename := "conversion";
    var i := 0;
    while i < |valid|
      invariant 0 <= i <= |valid|
      invariant g == Gathered(valid[..i], sourcePlatform, extract)
      invariant filename == LastName(valid[..i])
    {
      var u := valid[i];
      assert valid[..i + 1][..i] == valid[..i] && valid[..i + 1][i] == u;
      filename := u.filename;
      var c := Contribute(u, sourcePlatform, extract);
      g := Gathering(g.files + c.files, g.preserve + c.preserve);
      i := i + 1;
    }
    assert valid[..i] == valid;
  }

  /** An upload that is not an archive is converted as one file under its
      own name; an archive that cannot be extracted adds nothing. */
  lemma {:induction false} ContributionOutcome(u: Upload, sourcePlatform: string)
    ensures !IsZipName(u.filename) ==>
      Contribution(u, sourcePlatform, FileHandler.ProjectFilesOf) == Gathering([StagedFile(u.filename, u.content, u.disk)], [])
    ensures IsZipName(u.filename) && !FileHandler.KnownPlatform(sourcePlatform) ==>
      Contribution(u, sourcePlatform, FileHandler.ProjectFilesOf) == Gathering([], [])
  {
  }

  // ---------------------------------------------------------------- filter

  const LogicExtensions: seq<string> := ["java", "kt", "swift"]

  /** Whether a file survives the filter for a conversion type other than a
      full project. */
  predicate Keep(conversionType: string, relativePath: string)
  {
    var ext := LastDotSegment(Lower(relativePath));
    if conversionType == "logic_only" then ext in LogicExtensions
    else if conversionType == "layouts_only" then ext == "xml" || Contains(Lower(relativePath), "layout")
    else false
  }

  /** A test on a file's relative path. */
  type PathTest = string -> bool

  function KeepFor(conversionType: string): PathTest
  {
    (relativePath: string) => Keep(conversionType, relativePath)
  }

  /** The files whose path passes the test, in their order. */
  function Filtered(files: seq<StagedFile>, keep: PathTest): seq<StagedFile>
  {
    if files == [] then []
    else
      var f := files[|files| - 1];
      Filtered(files[..|files| - 1], keep) + (if keep(f.relativePath) then [f] else [])
  }

  /** The conversion-type filter: a full project, or nothing to filter,
      keeps everything. */
  function FilterFiles(files: seq<StagedFile>, conversionType: string): seq<StagedFile>
  {
    if conversionType != "full_project" && files != [] then Filtered(files, KeepFor(conversionType)) else files
  }

  /** The filter loop over any path test. */
  method FilterEach(files: seq<StagedFile>, keep: PathTest) returns (kept: seq<StagedFile>)
    ensures kept == Filtered(files, keep)
  {
    kept := [];
    var i := 0;
    while i < |files|
      invariant 0 <= i <= |files|
      invariant kept == Filtered(files[..i], keep)
    {
      assert files[..i + 1][..i] == files[..i] && files[..i + 1][i] == files[i];
      if keep(files[i].relativePath) {
        kept := kept + [files[i]];
      }
      i := i + 1;
    }
    assert files[..i] == files;
  }

  /** The conversion-type filter as the handler runs it. */
  method FilterByConversionType(files: seq<StagedFile>, conversionType: string) returns (kept: seq<StagedFile>)
    ensures kept == FilterFiles(files, conversionType)
  {
    if conversionType == "full_project" || files == [] {
      return files;
    }
    kept := FilterEach(files, KeepFor(conversionType));
  }

  /** `xs` is `ys` with some elements left out, the rest in their order. */
  predicate SubsequenceOf<T(==)>(xs: seq<T>, ys: seq<T>)
    decreases |ys|
  {
    if ys == [] then xs == []
    else if xs != [] && xs[|xs| - 1] == ys[|ys| - 1] then SubsequenceOf(xs[..|xs| - 1], ys[..|ys| - 1])
    else SubsequenceOf(xs, ys[..|ys| - 1])
  }

  lemma {:induction false} SubsequenceOfSelf<T>(xs: seq<T>)
    ensures SubsequenceOf(xs, xs)
  {
    if xs != [] {
      SubsequenceOfSelf(xs[..|xs| - 1]);
    }
  }

  /** The valid uploads keep the order of the uploads, and each upload with
      an allowed name occurs among them as often as among the uploads; with
      the membership clauses of `ValidUploads` this fixes their number and
      their last element. */
  lemma {:induction false} ValidUploadsFilter(us: seq<Upload>)
    ensures SubsequenceOf(ValidUploads(us), us)
    ensures forall u: Upload | u.filename != "" && AllowedFile(u.filename) :: multiset(ValidUploads(us))[u] == multiset(us)[u]
  {
    AdmittedOrdered(us, ValidRule);
    AdmittedCounted(us, ValidRule);
    forall u: Upload | u.filename != "" && AllowedFile(u.filename)
      ensures multiset(ValidUploads(us))[u] == multiset(us)[u]
    {
      assert ValidRule(u);
    }
  }

  lemma {:induction false} AdmittedOrdered(us: seq<Upload>, ok: Upload -> bool)
    ensures SubsequenceOf(Admitted(us, ok), us)
  {
    if us != [] {
      var n := |us| - 1;
      AdmittedOrdered(us[..n], ok);
      var vs := Admitted(us, ok);
      if ok(us[n]) {
        assert vs[..|vs| - 1] == Admitted(us[..n], ok);
      } else if vs != [] {
        assert vs == Admitted(us[..n], ok);
        AdmittedMembers(us[..n], ok);
        assert vs[|vs| - 1] in vs;
        assert ok(vs[|vs| - 1]);
      }
    }
  }

  lemma {:induction false} AdmittedCounted(us: seq<Upload>, ok: Upload -> bool)
    ensures forall u | ok(u) :: multiset(Admitted(us, ok))[u] == multiset(us)[u]
  {
    if us != [] {
      var n := |us| - 1;
      AdmittedCounted(us[..n], ok);
      assert us == us[..n] + [us[n]];
    }
  }

  /** A file is kept exactly when its path passes the test. */
  lemma {:induction false} FilteredMembers(files: seq<StagedFile>, keep: PathTest)
    ensures forall f :: f in Filtered(files, keep) <==> f in files && keep(f.relativePath)
  {
    if files != [] {
      var n := |files| - 1;
      FilteredMembers(files[..n], keep);
      assert files == files[..n] + [files[n]];
    }
  }

  /** The filtered files are an order-preserving subsequence of the input. */
  lemma {:induction false} FilteredSubsequence(files: seq<StagedFile>, keep: PathTest)
    ensures SubsequenceOf(Filtered(files, keep), files)
  {
    if files != [] {
      var n := |files| - 1;
      var f := files[n];
      FilteredSubsequence(files[..n], keep);
      var kept := Filtered(files, keep);
      if keep(f.relativePath) {
        assert kept[..|kept| - 1] == Filtered(files[..n], keep);
      } else {
        FilteredMembers(files[..n], keep);
        assert kept == Filtered(files[..n], keep);
        assert kept != [] ==> kept[|kept| - 1] in kept;
      }
    }
  }

  /** The filter as a whole: a full project keeps every file; otherwise the
      result is a subsequence of the input holding exactly the files that
      pass the test; an unknown conversion type keeps nothing. */
  lemma {:induction false} FilterFilesSpec(files: seq<StagedFile>, conversionType: string)
    ensures conversionType == "full_project" ==> FilterFiles(files, conversionType) == files
    ensures SubsequenceOf(FilterFiles(files, conversionType), files)
    ensures conversionType != "full_project" ==>
      forall f :: f in FilterFiles(files, conversionType) <==> f in files && Keep(conversionType, f.relativePath)
    ensures conversionType !in {"full_project", "logic_only", "layouts_only"} ==> FilterFiles(files, conversionType) == []
  {
    FilteredMembers(files, KeepFor(conversionType));
    FilteredSubsequence(files, KeepFor(conversionType));
    SubsequenceOfSelf(files);
    var r := FilterFiles(files, conversionType);
    if conversionType !in {"full_project", "logic_only", "layouts_only"} && r != [] {
      assert r[0] in r;
    }
  }

  /** `logic_only` keeps exactly the files whose last dot-segment is a
      source extension; `layouts_only` the xml files and the paths that
      mention a layout. */
  lemma {:induction false} KeepCases(relativePath: string)
    ensures Keep("logic_only", relativePath) <==> LastDotSegment(Lower(relativePath)) in {"java", "kt", "swift"}
    ensures Keep("layouts_only", relativePath)
        <==> LastDotSegment(Lower(relativePath)) == "xml" || Contains(Lower(relativePath), "layout")
  {
  }

  // -------------------------------------------------------------- fallback

  /** The comment put before each file when the whole batch failed. */
  function FallbackHeader(error: string, sourcePlatform: string): (r: string)
    ensures StartsWith(r, "// CONVERSION FAILED: ")
    ensures OccursAt(r, Take(error, 100), 22)
  {
    var r := "// CONVERSION FAILED: " + Take(error, 100) + "...\n// Original " + sourcePlatform
             + " file preserved below\n\n";
    assert r[..22] == "// CONVERSION FAILED: ";
    assert r[22..22 + |Take(error, 100)|] == Take(error, 100);
    r
  }

  /** The fallback output of each file that can be read once more. */
  function FallbackFiles(files: seq<StagedFile>, error: string, sourcePlatform: string): seq<OutputFile>
  {
    if files == [] then []
    else
      var f := files[|files| - 1];
      FallbackFiles(files[..|files| - 1], error, sourcePlatform)
      + (if f.disk.fallbackRead == Readable
         then [OutputFile(f.relativePath, FallbackHeader(error, sourcePlatform) + f.content)] else [])
  }

  /** The fallback loop. */
  method BatchFallback(files: seq<StagedFile>, error: string, sourcePlatform: string) returns (out: seq<OutputFile>)
    ensures out == FallbackFiles(files, error, sourcePlatform)
  {
    out := [];
    var i := 0;
    while i < |files|
      invariant 0 <= i <= |files|
      invariant out == FallbackFiles(files[..i], error, sourcePlatform)
    {
      var f := files[i];
      assert files[..i + 1][..i] == files[..i] && files[..i + 1][i] == f;
      if f.disk.fallbackRead == Readable {
        out := out + [OutputFile(f.relativePath, FallbackHeader(error, sourcePlatform) + f.content)];
      }
      i := i + 1;
    }
    assert files[..i] == files;
  }

  /** At most one output per input; every output keeps an input's path and
      is that input's code behind the header; every input that can be read
      again has its output. */
  lemma {:induction false} FallbackFilesSound(files: seq<StagedFile>, error: string, sourcePlatform: string)
    ensures |FallbackFiles(files, error, sourcePlatform)| <= |files|
    ensures forall o | o in FallbackFiles(files, error, sourcePlatform) ::
      exists f | f in files :: o == OutputFile(f.relativePath, FallbackHeader(error, sourcePlatform) + f.content)
    ensures forall f | f in files && f.disk.fallbackRead == Readable ::
      OutputFile(f.relativePath, FallbackHeader(error, sourcePlatform) + f.content) in FallbackFiles(files, error, sourcePlatform)
  {
    if files != [] {
      var n := |files| - 1;
      FallbackFilesSound(files[..n], error, sourcePlatform);
      assert files == files[..n] + [files[n]];
    }
  }

  /** Each fallback file reads as the header, the original code after it,
      and the error text cut to 100 characters inside the header. */
  lemma {:induction false} FallbackContent(error: string, sourcePlatform: string, code: string)
    ensures var c := FallbackHeader(error, sourcePlatform) + code;
      StartsWith(c, "// CONVERSION FAILED: ") && EndsWith(c, code)
      && OccursAt(c, Take(error, 100), 22) && |Take(error, 100)| <= 100
  {
    var h := FallbackHeader(error, sourcePlatform);
    var c := h + code;
    assert c[..|h|] == h;
    assert c[..22] == h[..22];
    assert c[22..22 + |Take(error, 100)|] == h[22..22 + |Take(error, 100)|];
    assert c[|c| - |code|..] == code;
  }

  // ---------------------------------------------------------------- output

  /** The fallback text of a file for a pair of platforms. */
  type Fallbacks = (string, string) -> CodeConverter.FallbackOf

  /** The rules the handlers are stated over: how an archive is read for a
      source platform, and the fallback text of a file. */
  datatype Rules = Rules(extract: Extractor, fallbacks: Fallbacks)

  /** The rules of the application: the file handler's extraction and the
      converter's fallback text. */
  const Standard: Rules := Rules(FileHandler.ProjectFilesOf, CodeConverter.FallbackFor)

  /** The converted files, or the fallback files when conversion raised;
      `None` when the fallback produced nothing either. */
  function ConvertOrFallback(files: seq<StagedFile>, sourcePlatform: string, targetPlatform: string,
                             service: CodeConverter.Service, rules: Rules): Option<seq<OutputFile>>
  {
    match CodeConverter.Batch(files, CodeConverter.ConversionRule(targetPlatform, service, rules.fallbacks(sourcePlatform, targetPlatform)))
    case Success(c) => Some(c)
    case Failure(e) =>
      var fb := FallbackFiles(files, e, sourcePlatform);
      if fb == [] then None else Some(fb)
  }

  function OutputName(sourcePlatform: string, targetPlatform: string, name: string): string
  {
    "converted_" + sourcePlatform + "_to_" + targetPlatform + "_" + name
  }

  /** An output name holds a folder exactly when one of the two platform
      values or the name it is built from does. */
  lemma {:induction false} OutputNameHoldsFolder(sourcePlatform: string, targetPlatform: string, name: string)
    ensures '/' in OutputName(sourcePlatform, targetPlatform, name) <==>
      '/' in sourcePlatform || '/' in targetPlatform || '/' in name
  {
    var full := OutputName(sourcePlatform, targetPlatform, name);
    var a := "converted_" + sourcePlatform;
    var b := a + "_to_" + targetPlatform;
    assert full == b + "_" + name;
    assert '/' !in "converted_" && '/' !in "_to_" && '/' !in "_";
    assert forall c :: c in full <==> c in b || c in "_" || c in name;
    assert forall c :: c in b <==> c in a || c in "_to_" || c in targetPlatform;
    assert forall c :: c in a <==> c in "converted_" || c in sourcePlatform;
  }

  const EmptyContentNotice := "// Conversion failed - empty content"

  /** One converted file from a single upload is served as that file;
      anything else becomes an archive named after the last upload, holding
      the converted files and then the preserved ones. When the output name
      holds a folder, the output path lies in a folder of the
      converted-files folder that nothing creates: the write raises (for
      the archive, `create_zip` re-raises) and the handler's outer branch
      reports the error. */
  function Deliver(converted: seq<OutputFile>, preserve: seq<StagedFile>, multiple: bool, lastName: string,
                   sourcePlatform: string, targetPlatform: string): Response
  {
    var single := |converted| == 1 && !multiple;
    var name := OutputName(sourcePlatform, targetPlatform, if single then converted[0].name else lastName);
    if '/' in name then Rejected(ConversionError)
    else if single then
      Delivered(name, SingleFile(if converted[0].content != "" then converted[0].content else EmptyContentNotice))
    else
      Delivered(name, ZipFile(converted + FileHandler.CopiedEntries(preserve)))
  }

  /** Storing fails exactly when a platform value, or the name the output
      is called after (the converted file's for a single output, the last
      upload's for an archive), holds a folder. Otherwise the output is a single file exactly when there is one
      converted file and one valid upload; it is then named after the
      converted file and holds its text, or the empty-content notice, so it
      is never empty; an archive is named after the last upload and holds
      the converted files followed by the copies of the preserved ones. */
  lemma {:induction false} DeliverSpec(converted: seq<OutputFile>, preserve: seq<StagedFile>, multiple: bool, lastName: string,
                    sourcePlatform: string, targetPlatform: string)
    ensures var r := Deliver(converted, preserve, multiple, lastName, sourcePlatform, targetPlatform);
      && (r.Rejected? <==>
            || '/' in sourcePlatform || '/' in targetPlatform
            || (|converted| == 1 && !multiple && '/' in converted[0].name)
            || (!(|converted| == 1 && !multiple) && '/' in lastName))
      && (r.Rejected? ==> r.reason == ConversionError)
      && (r.Delivered? ==> (r.artifact.SingleFile? <==> |converted| == 1 && !multiple))
      && (r.Delivered? && r.artifact.SingleFile? ==>
            && r.outputName == OutputName(sourcePlatform, targetPlatform, converted[0].name)
            && r.artifact.content == (if converted[0].content != "" then converted[0].content else EmptyContentNotice)
            && r.artifact.content != "")
      && (r.Delivered? && r.artifact.ZipFile? ==>
            && r.outputName == OutputName(sourcePlatform, targetPlatform, lastName)
            && r.artifact.entries == converted + FileHandler.CopiedEntries(preserve)
            && r.artifact.entries[..|converted|] == converted)
  {
    var r := Deliver(converted, preserve, multiple, lastName, sourcePlatform, targetPlatform);
    var single := |converted| == 1 && !multiple;
    OutputNameHoldsFolder(sourcePlatform, targetPlatform, if single then converted[0].name else lastName);
    if r.Delivered? && r.artifact.ZipFile? {
      assert (converted + FileHandler.CopiedEntries(preserve))[..|converted|] == converted;
    }
  }

  /** `download_converted` serves a file as a single file unless its name
      ends with `.zip`. */
  predicate IsSingleDownload(filename: string)
  {
    !EndsWith(Lower(filename), ".zip")
  }

  /** An output name is served as a single file exactly when the name it was
      built from does not end with `.zip`: so an archive built from several
      code uploads, named after the last of them, is served as a single
      file. */
  lemma {:induction false} OutputNameDownload(sourcePlatform: string, targetPlatform: string, name: string)
    ensures IsSingleDownload(OutputName(sourcePlatform, targetPlatform, name)) <==> !IsZipName(name)
  {
    var pre := "converted_" + sourcePlatform + "_to_" + targetPlatform + "_";
    var full := OutputName(sourcePlatform, targetPlatform, name);
    assert full == pre + name;
    var lf := Lower(full);
    var ln := Lower(name);
    assert forall j :: 0 <= j < |name| ==> lf[|pre| + j] == ln[j];
    if |name| >= 4 {
      assert lf[|lf| - 4..] == ln[|ln| - 4..];
    } else {
      assert lf[|pre| - 1] == LowerChar(full[|pre| - 1]) == '_';
    }
  }

  /** An archive named after a code upload is served as a single file,
      once it is written, that is, once no part of its name holds a folder. */
  lemma {:induction false} ZipNamedAfterCodeFileServedAsSingle(converted: seq<OutputFile>, preserve: seq<StagedFile>, lastName: string,
                                            sourcePlatform: string, targetPlatform: string)
    requires !IsZipName(lastName)
    requires '/' !in sourcePlatform && '/' !in targetPlatform && '/' !in lastName
    ensures var r := Deliver(converted, preserve, true, lastName, sourcePlatform, targetPlatform);
      r.Delivered? && r.artifact.ZipFile? && IsSingleDownload(r.outputName)
  {
    OutputNameHoldsFolder(sourcePlatform, targetPlatform, lastName);
    OutputNameDownload(sourcePlatform, targetPlatform, lastName);
  }

  // --------------------------------------------------------------- request

  /** A form field is given and not empty. */
  predicate Present(field: Option<string>) { field.Some? && field.value != "" }

  function ConversionType(req: Request): string
  {
    if req.conversionType.Some? then req.conversionType.value else "full_project"
  }

  /** The outcome of the form checks: a rejection, or the two platforms and
      the uploads that pass the allow-list. */
  datatype FormCheck = Refused(reason: Rejection) | Accepted(source: string, target: string, valid: seq<Upload>)

  /** The form checks, in this order: some upload must have a name, both
      platforms must be given and differ, and some upload must pass the
      allow-list. */
  function CheckForm(req: Request): FormCheck
  {
    if forall u | u in req.uploads :: u.filename == "" then Refused(NoFilesSelected)
    else if !Present(req.sourcePlatform) || !Present(req.targetPlatform) then Refused(MissingPlatforms)
    else if req.sourcePlatform.value == req.targetPlatform.value then Refused(SamePlatforms)
    else
      var valid := ValidUploads(req.uploads);
      if valid == [] then Refused(NoValidFiles)
      else Accepted(req.sourcePlatform.value, req.targetPlatform.value, valid)
  }

  /** Each rejection is given exactly when its check is the first to fail,
      no other rejection comes from the form checks, and a form is accepted
      exactly when it passes all four; it then has two distinct platforms
      and at least one allowed upload, all of them from the form. */
  lemma {:induction false} CheckFormOutcome(req: Request)
    ensures CheckForm(req) == Refused(NoFilesSelected) <==> forall u | u in req.uploads :: u.filename == ""
    ensures CheckForm(req) == Refused(MissingPlatforms) <==>
      (exists u | u in req.uploads :: u.filename != "") && (!Present(req.sourcePlatform) || !Present(req.targetPlatform))
    ensures CheckForm(req) == Refused(SamePlatforms) ==> req.sourcePlatform == req.targetPlatform
    ensures CheckForm(req) == Refused(SamePlatforms) <==>
      && (exists u | u in req.uploads :: u.filename != "")
      && Present(req.sourcePlatform) && Present(req.targetPlatform)
      && req.sourcePlatform.value == req.targetPlatform.value
    ensures CheckForm(req) == Refused(NoValidFiles) ==>
      forall u | u in req.uploads :: u.filename == "" || !AllowedFile(u.filename)
    ensures CheckForm(req) == Refused(NoValidFiles) <==>
      && (exists u | u in req.uploads :: u.filename != "")
      && Present(req.sourcePlatform) && Present(req.targetPlatform)
      && req.sourcePlatform.value != req.targetPlatform.value
      && ValidUploads(req.uploads) == []
    ensures CheckForm(req).Refused? ==>
      CheckForm(req).reason in {NoFilesSelected, MissingPlatforms, SamePlatforms, NoValidFiles}
    ensures CheckForm(req).Accepted? <==>
      && (exists u | u in req.uploads :: u.filename != "")
      && Present(req.sourcePlatform) && Present(req.targetPlatform)
      && req.sourcePlatform.value != req.targetPlatform.value
      && ValidUploads(req.uploads) != []
    ensures CheckForm(req).Accepted? ==>
      && Present(req.sourcePlatform) && Present(req.targetPlatform)
      && CheckForm(req).source == req.sourcePlatform.value && CheckForm(req).target == req.targetPlatform.value
      && CheckForm(req).source != CheckForm(req).target
      && CheckForm(req).valid == ValidUploads(req.uploads) != []
  {
  }

  /** The form checks as the handler runs them. */
  method CheckRequest(req: Request) returns (c: FormCheck)
    ensures c == CheckForm(req)
  {
    if forall u | u in req.uploads :: u.filename == "" {
      return Refused(NoFilesSelected);
    }
    if !Present(req.sourcePlatform) || !Present(req.targetPlatform) {
      return Refused(MissingPlatforms);
    }
    if req.sourcePlatform.value == req.targetPlatform.value {
      return Refused(SamePlatforms);
    }
    var valid := ValidUploads(req.uploads);
    if valid == [] {
      return Refused(NoValidFiles);
    }
    c := Accepted(req.sourcePlatform.value, req.targetPlatform.value, valid);
  }

  /** The uploads of an accepted form, saved, gathered, filtered, converted
      and stored. */
  function Process(valid: seq<Upload>, sourcePlatform: string, targetPlatform: string, conversionType: string,
                   service: CodeConverter.Service, rules: Rules): Response
  {
    var g := Gathered(AsSaved(valid), sourcePlatform, rules.extract);
    var files := FilterFiles(g.files, conversionType);
    if files == [] then Rejected(NoMatchingFiles)
    else
      match ConvertOrFallback(files, sourcePlatform, targetPlatform, service, rules)
      case None => Rejected(ServiceFailure)
      case Some(converted) => Deliver(converted, g.preserve, |valid| > 1, LastName(valid), sourcePlatform, targetPlatform)
  }

  /** The response to a conversion request. */
  function Respond(req: Request, service: CodeConverter.Service, rules: Rules): Response
  {
    match CheckForm(req)
    case Refused(reason) => Rejected(reason)
    case Accepted(src, tgt, valid) => Process(valid, src, tgt, ConversionType(req), service, rules)
  }

  /** Conversion, or the batch fallback when it raises. */
  method ConvertStage(files: seq<StagedFile>, sourcePlatform: string, targetPlatform: string,
                      service: CodeConverter.Service, rules: Rules) returns (o: Option<seq<OutputFile>>)
    ensures o == ConvertOrFallback(files, sourcePlatform, targetPlatform, service, rules)
  {
    var conversion := CodeConverter.ConvertEach(files, targetPlatform, service, rules.fallbacks(sourcePlatform, targetPlatform));
    if conversion.Success? {
      return Some(conversion.value);
    }
    var fallback := BatchFallback(files, conversion.error, sourcePlatform);
    if fallback == [] {
      return None;
    }
    o := Some(fallback);
  }

  /** Storing the output: one file, or an archive with the preserved files. */
  method Store(converted: seq<OutputFile>, preserve: seq<StagedFile>, multiple: bool, lastName: string,
               sourcePlatform: string, targetPlatform: string) returns (r: Response)
    ensures r == Deliver(converted, preserve, multiple, lastName, sourcePlatform, targetPlatform)
  {
    if |converted| == 1 && !multiple {
      var c := converted[0];
      var name := OutputName(sourcePlatform, targetPlatform, c.name);
      if '/' in name {
        return Rejected(ConversionError);
      }
      r := Delivered(name, SingleFile(if c.content != "" then c.content else EmptyContentNotice));
    } else {
      var name := OutputName(sourcePlatform, targetPlatform, lastName);
      if '/' in name {
        return Rejected(ConversionError);
      }
      var entries := FileHandler.CreateZip(converted, preserve);
      r := Delivered(name, ZipFile(entries));
    }
  }

  /** The handler after the form checks. */
  method ProcessUploads(valid: seq<Upload>, sourcePlatform: string, targetPlatform: string, conversionType: string,
                        service: CodeConverter.Service, rules: Rules) returns (r: Response)
    ensures r == Process(valid, sourcePlatform, targetPlatform, conversionType, service, rules)
  {
    var saved := AsSaved(valid);
    var g, filename := GatherUploads(saved, sourcePlatform, rules.extract);
    var files := FilterByConversionType(g.files, conversionType);
    if files == [] {
      return Rejected(NoMatchingFiles);
    }
    var converted := ConvertStage(files, sourcePlatform, targetPlatform, service, rules);
    if converted.None? {
      return Rejected(ServiceFailure);
    }
    r := Store(converted.value, g.preserve, |valid| > 1, filename, sourcePlatform, targetPlatform);
  }

  /** `convert_code`. */
  method ConvertCode(req: Request, service: CodeConverter.Service) returns (r: Response)
    ensures r == Respond(req, service, Standard)
  {
    var c := CheckRequest(req);
    if c.Refused? {
      return Rejected(c.reason);
    }
    r := ProcessUploads(c.valid, c.source, c.target, ConversionType(req), service, Standard);
  }

  /** After the form checks, a request is refused only when filtering left
      nothing, when both conversion and the fallback produced nothing, or
      when a single output's name holds a folder, which needs a single valid
      upload; a delivered output is a single file only for a single valid
      upload with one output. */
  lemma {:induction false} ProcessOutcome(valid: seq<Upload>, sourcePlatform: string, targetPlatform: string, conversionType: string,
                       service: CodeConverter.Service, rules: Rules)
    ensures var r := Process(valid, sourcePlatform, targetPlatform, conversionType, service, rules);
      && (r.Rejected? ==> r.reason in {NoMatchingFiles, ServiceFailure, ConversionError})
      && (r == Rejected(NoMatchingFiles) <==>
            FilterFiles(Gathered(AsSaved(valid), sourcePlatform, rules.extract).files, conversionType) == [])
      && (r == Rejected(ConversionError) ==>
            '/' in sourcePlatform || '/' in targetPlatform || |valid| == 1 || '/' in LastName(valid))
      && (r.Delivered? && r.artifact.SingleFile? ==> |valid| == 1 && r.artifact.content != "")
  {
    var g := Gathered(AsSaved(valid), sourcePlatform, rules.extract);
    var files := FilterFiles(g.files, conversionType);
    if valid == [] {
      assert AsSaved(valid) == [];
      assert g.files == [];
      assert files == [];
    } else if files != [] {
      var o := ConvertOrFallback(files, sourcePlatform, targetPlatform, service, rules);
      if o.Some? {
        DeliverSpec(o.value, g.preserve, |valid| > 1, LastName(valid), sourcePlatform, targetPlatform);
      }
    }
  }

  /** A platform value that holds a folder is never delivered: whatever
      is converted, the output name holds that folder. */
  lemma {:induction false} PlatformFolderNeverDelivers(valid: seq<Upload>, sourcePlatform: string, targetPlatform: string,
                                                       conversionType: string, service: CodeConverter.Service, rules: Rules)
    requires '/' in sourcePlatform || '/' in targetPlatform
    ensures Process(valid, sourcePlatform, targetPlatform, conversionType, service, rules).Rejected?
  {
    var g := Gathered(AsSaved(valid), sourcePlatform, rules.extract);
    var files := FilterFiles(g.files, conversionType);
    if files != [] {
      var o := ConvertOrFallback(files, sourcePlatform, targetPlatform, service, rules);
      if o.Some? {
        DeliverSpec(o.value, g.preserve, |valid| > 1, LastName(valid), sourcePlatform, targetPlatform);
      }
    }
  }

  /** An archive uploaded alone whose only code file sits in a folder ends
      in the generic error when its conversion succeeds: the single output is
      named after the converted path, folder and all. */
  lemma {:induction false} NestedSingleOutputFails(u: Upload, p: FileHandler.ProjectFiles, f: StagedFile,
                                                   sourcePlatform: string, targetPlatform: string,
                                                   service: CodeConverter.Service, rules: Rules)
    requires IsZipName(u.filename) && rules.extract(u.archive, sourcePlatform) == Success(p)
    requires p.code == [f] && '/' in f.relativePath && f.disk.convertRead.Readable?
    ensures Process([u], sourcePlatform, targetPlatform, "full_project", service, rules) == Rejected(ConversionError)
  {
    LoneArchiveGathered(u, p, sourcePlatform, rules.extract);
    NestedConversionKeepsFolder(f, sourcePlatform, targetPlatform, service, rules);
  }

  /** An archive uploaded alone gathers exactly its own code files. */
  lemma {:induction false} LoneArchiveGathered(u: Upload, p: FileHandler.ProjectFiles, sourcePlatform: string, extract: Extractor)
    requires IsZipName(u.filename) && extract(u.archive, sourcePlatform) == Success(p)
    ensures Gathered(AsSaved([u]), sourcePlatform, extract).files == p.code
  {
    var saved := AsSaved([u]);
    assert saved[..0] == [];
  }

  /** A readable code file in a folder converts to one output whose name
      still holds a folder. */
  lemma {:induction false} NestedConversionKeepsFolder(f: StagedFile, sourcePlatform: string, targetPlatform: string,
                                                       service: CodeConverter.Service, rules: Rules)
    requires '/' in f.relativePath && f.disk.convertRead.Readable?
    ensures var o := ConvertOrFallback([f], sourcePlatform, targetPlatform, service, rules);
      o.Some? && |o.value| == 1 && '/' in o.value[0].name
  {
    var fallbackOf := rules.fallbacks(sourcePlatform, targetPlatform);
    CodeConverter.ConvertedBatchOutcome([f], targetPlatform, service, fallbackOf);
    CodeConverter.ConvertEntryOutcome(f, targetPlatform, CodeConverter.FileOracle(service, 0), fallbackOf);
    CodeConverter.ConvertedFilenameKeepsFolders(f.relativePath, targetPlatform);
  }

  /** When every file converts, the batch fallback is never used: the output
      holds exactly the converted files, one per input. */
  lemma {:induction false} ConvertedOutputsDelivered(files: seq<StagedFile>, sourcePlatform: string, targetPlatform: string,
                                  service: CodeConverter.Service, rules: Rules)
    requires forall i | 0 <= i < |files| :: files[i].disk.convertRead.Readable? || files[i].disk.recoveryRead.Readable?
    ensures var o := ConvertOrFallback(files, sourcePlatform, targetPlatform, service, rules);
      o.Some? && |o.value| == |files|
  {
    CodeConverter.ConvertedBatchOutcome(files, targetPlatform, service, rules.fallbacks(sourcePlatform, targetPlatform));
  }
}
