/** The conversion orchestrator: one translator request per file with up to
    three attempts and exponential back-off, clean-up of a fenced answer, a
    deterministic fallback text when every attempt fails, the renaming of a
    converted file to the target platform's extension, and the batch loop that
    yields one output file per input.

    The translator is not modelled: each file meets an injected oracle that
    says, per attempt, what the service answered. Waiting is not modelled
    either: the converter records the delays it would have slept. */
module CodeConverter {
  import opened Wrappers
  import opened Text
  import opened Storage

  // ------------------------------------------------------------ translator

  /** What one request to the translator produced: the message content
      (possibly empty), no content at all, or a raised exception. */
  datatype Reply = Answer(content: string) | NoContent | Raised(error: string)

  /** Gives, for each attempt number 0, 1, 2, the translator's reply. */
  type Oracle = nat -> Reply

  const MaxRetries: nat := 3
  const InitialDelay: nat := 2

  /** The opening of a fenced code block. */
  const Fence := "```"

  // ------------------------------------------------------- fence stripping

  /** The clean-up of a stripped answer. A fenced answer loses its first line,
      and its last line too when that line is only a closing fence; the other
      lines are joined back in order. `None` when the answer is a single
      fenced line: dropping its only line leaves nothing to look at, the
      look-up of the last line raises, and the attempt counts as failed. */
  function CleanAnswer(text: string): (r: Option<string>)
    ensures r.None? <==> StartsWith(text, Fence) && '\n' !in text
    ensures !StartsWith(text, Fence) ==> r == Some(text)
  {
    if StartsWith(text, Fence) then
      var lines0 := Split(text, '\n');
      FenceLineOpens(text);
      SplitSingle(text, '\n');
      var lines := if StartsWith(lines0[0], Fence) then lines0[1..] else lines0;
      if lines == [] then None
      else if Strip(lines[|lines| - 1]) == Fence then Some(Join(lines[..|lines| - 1], '\n'))
      else Some(Join(lines, '\n'))
    else Some(text)
  }

  /** The first line of a fenced text starts with the fence itself, so the
      clean-up always drops it. */
  lemma {:induction false} FenceLineOpens(text: string)
    ensures StartsWith(text, Fence) ==> StartsWith(Split(text, '\n')[0], Fence)
  {
    if StartsWith(text, Fence) {
      var first := Split(text, '\n')[0];
      SplitHeadPrefix(text, '\n');
      SplitHeadEnds(text, '\n');
      assert text[..3] == Fence;
      assert first[..3] == text[..|first|][..3];
    }
  }

  /** The inner lines of a fenced answer: without the opening line, and
      without the last line when it is a closing fence. */
  function InnerLines(text: string): seq<string>
  {
    var lines := Split(text, '\n')[1..];
    if lines != [] && Strip(lines[|lines| - 1]) == Fence then lines[..|lines| - 1] else lines
  }

  /** A fenced answer of several lines is cleaned to exactly its inner lines,
      kept in order: splitting the result gives them back. */
  lemma {:induction false} FencedAnswerKeepsInnerLines(text: string)
    requires StartsWith(text, Fence) && '\n' in text
    ensures CleanAnswer(text).Some?
    ensures InnerLines(text) != [] ==> Split(CleanAnswer(text).value, '\n') == InnerLines(text)
    ensures InnerLines(text) == [] ==> CleanAnswer(text) == Some("")
  {
    var lines := Split(text, '\n');
    FenceLineOpens(text);
    SplitSingle(text, '\n');
    var inner := InnerLines(text);
    assert forall i :: 0 <= i < |inner| ==> inner[i] == lines[i + 1];
    if inner != [] {
      SplitJoin(inner, '\n');
    }
  }

  /** The text an attempt yields, or `None` when the attempt fails: an
      exception, no content, empty content, or a single fenced line all
      count as failures. A successful answer is stripped first. */
  function ReplyText(reply: Reply): (r: Option<string>)
    ensures reply.NoContent? || reply.Raised? || reply == Answer("") ==> r.None?
    ensures reply.Answer? && reply.content != "" && !StartsWith(Strip(reply.content), Fence)
            ==> r == Some(Strip(reply.content))
  {
    match reply
    case Answer(content) => if content == "" then None else CleanAnswer(Strip(content))
    case NoContent => None
    case Raised(_) => None
  }

  // ------------------------------------------------------------ retries

  /** The wait before attempt `n + 1` after attempt `n` failed: 2, then 4, … */
  function Delay(n: nat): (d: nat)
    ensures d >= InitialDelay
  {
    if n == 0 then InitialDelay else 2 * Delay(n - 1)
  }

  /** The waits after the first `n` failed attempts. */
  function Backoff(n: nat): (ds: seq<nat>)
    ensures |ds| == n
  {
    if n == 0 then [] else Backoff(n - 1) + [Delay(n - 1)]
  }

  /** What each attempt yields once its reply is cleaned up: the text, or
      `None` for a failed attempt. */
  type Outcomes = nat -> Option<string>

  /** The outcomes of the attempts against a translator. */
  function OutcomesOf(oracle: Oracle): Outcomes
  {
    (k: nat) => ReplyText(oracle(k))
  }

  /** The index of the first successful attempt at or after `from`, or
      `MaxRetries` when none succeeds. */
  function FirstAnswer(outcomes: Outcomes, from: nat): (k: nat)
    requires from <= MaxRetries
    ensures from <= k <= MaxRetries
    ensures k < MaxRetries ==> outcomes(k).Some?
    ensures forall j :: from <= j < k ==> outcomes(j).None?
    decreases MaxRetries - from
  {
    if from == MaxRetries then MaxRetries
    else if outcomes(from).Some? then from
    else FirstAnswer(outcomes, from + 1)
  }

  /** The outcome of converting one file: the text returned, how many
      requests were made, and the delays slept between them. */
  datatype Conversion = Conversion(text: string, attempts: nat, delays: seq<nat>)

  /** The answer of the first successful attempt, after waiting once per
      earlier failure; the fallback text after three failures, with a wait
      between failures but none after the last. */
  function SingleFileSpec(outcomes: Outcomes, fallback: string): Conversion
  {
    var k := FirstAnswer(outcomes, 0);
    if k < MaxRetries then Conversion(outcomes(k).value, k + 1, Backoff(k))
    else Conversion(fallback, MaxRetries, Backoff(MaxRetries - 1))
  }

  /** The retry loop of one file. The fallback text is passed in, since it
      does not depend on the replies. */
  method ConvertSingleFile(outcomes: Outcomes, fallback: string) returns (c: Conversion)
    ensures c == SingleFileSpec(outcomes, fallback)
  {
    var attempt: nat := 0;
    var delay: nat := InitialDelay;
    var delays: seq<nat> := [];
    var answer: Option<string> := None;
    while attempt < MaxRetries && answer.None?
      invariant attempt <= MaxRetries
      invariant answer.None? ==> forall j :: 0 <= j < attempt ==> outcomes(j).None?
      invariant answer.None? && attempt < MaxRetries ==> delays == Backoff(attempt) && delay == Delay(attempt)
      invariant answer.None? && attempt == MaxRetries ==> delays == Backoff(MaxRetries - 1)
      invariant answer.Some? ==> 1 <= attempt && answer == outcomes(attempt - 1)
      invariant answer.Some? ==> delays == Backoff(attempt - 1) && FirstAnswer(outcomes, 0) == attempt - 1
    {
      answer := outcomes(attempt);
      if answer.Some? {
        assert FirstAnswer(outcomes, 0) == attempt;
      } else if attempt < MaxRetries - 1 {
        delays := delays + [delay];
        delay := delay * 2;
      }
      attempt := attempt + 1;
    }
    if answer.Some? {
      c := Conversion(answer.value, attempt, delays);
    } else {
      assert FirstAnswer(outcomes, 0) == MaxRetries;
      c := Conversion(fallback, MaxRetries, delays);
    }
  }

  /** At most three requests are made, and the waits between them are 2 and
      then 4 seconds: one wait per failed attempt that is followed by another. */
  lemma {:induction false} RetryBounded(outcomes: Outcomes, fallback: string)
    ensures var c := SingleFileSpec(outcomes, fallback);
      1 <= c.attempts <= MaxRetries && c.delays == [2, 4][..c.attempts - 1]
  {
    assert Backoff(1) == [2];
    assert Backoff(2) == [2, 4];
  }

  /** When attempt `k` is the first to succeed, its text is returned after
      `k + 1` requests. */
  lemma {:induction false} SucceedsAt(outcomes: Outcomes, fallback: string, k: nat)
    requires k < MaxRetries && outcomes(k).Some?
    requires forall j :: 0 <= j < k ==> outcomes(j).None?
    ensures SingleFileSpec(outcomes, fallback).text == outcomes(k).value
    ensures SingleFileSpec(outcomes, fallback).attempts == k + 1
  {
  }

  /** When every attempt fails, the fallback is returned after three requests
      and two waits, and nothing is raised. */
  lemma {:induction false} AllAttemptsFail(outcomes: Outcomes, fallback: string)
    requires forall j :: 0 <= j < MaxRetries ==> outcomes(j).None?
    ensures SingleFileSpec(outcomes, fallback) == Conversion(fallback, 3, [2, 4])
  {
    assert Backoff(2) == [2, 4];
  }

  /** Only the first three outcomes count. */
  lemma {:induction false} SameOutcomesSameFirst(o1: Outcomes, o2: Outcomes, from: nat)
    requires from <= MaxRetries
    requires forall j :: 0 <= j < MaxRetries ==> o1(j) == o2(j)
    ensures FirstAnswer(o1, from) == FirstAnswer(o2, from)
    decreases MaxRetries - from
  {
    if from < MaxRetries {
      SameOutcomesSameFirst(o1, o2, from + 1);
    }
  }

  /** The result depends on the replies only through the text each yields. */
  lemma {:induction false} OnlyReplyTextMatters(o1: Oracle, o2: Oracle, fallback: string)
    requires forall j :: 0 <= j < MaxRetries ==> ReplyText(o1(j)) == ReplyText(o2(j))
    ensures SingleFileSpec(OutcomesOf(o1), fallback) == SingleFileSpec(OutcomesOf(o2), fallback)
  {
    SameOutcomesSameFirst(OutcomesOf(o1), OutcomesOf(o2), 0);
  }

  /** The translator with the reply of attempt `k` replaced. */
  function WithReply(oracle: Oracle, k: nat, reply: Reply): Oracle
  {
    (j: nat) => if j == k then reply else oracle(j)
  }

  /** An empty answer and no content are handled exactly like a raised
      exception. */
  lemma {:induction false} EmptyAnswerIsFailure(oracle: Oracle, fallback: string, k: nat, error: string)
    ensures SingleFileSpec(OutcomesOf(WithReply(oracle, k, Answer(""))), fallback)
         == SingleFileSpec(OutcomesOf(WithReply(oracle, k, Raised(error))), fallback)
    ensures SingleFileSpec(OutcomesOf(WithReply(oracle, k, NoContent)), fallback)
         == SingleFileSpec(OutcomesOf(WithReply(oracle, k, Raised(error))), fallback)
  {
    OnlyReplyTextMatters(WithReply(oracle, k, Answer("")), WithReply(oracle, k, Raised(error)), fallback);
    OnlyReplyTextMatters(WithReply(oracle, k, NoContent), WithReply(oracle, k, Raised(error)), fallback);
  }

  // ------------------------------------------------------- prompt file type

  /** The kinds of file the prompt distinguishes. */
  datatype FileKind = LayoutXml | ManifestXml | ConfigXml | SourceCode

  /** The file-type branch of the prompt builder: an xml file is a layout when
      its lower-cased name mentions `layout` or `activity_`, else a manifest
      when it mentions `androidmanifest`, else configuration; any other file
      is code. */
  function PromptFileKind(filename: string): (k: FileKind)
    ensures k != SourceCode <==> DotExtension(filename) == "xml"
    ensures k == LayoutXml <==>
      DotExtension(filename) == "xml" && (Contains(Lower(filename), "layout") || Contains(Lower(filename), "activity_"))
    ensures k == ManifestXml <==>
      && DotExtension(filename) == "xml"
      && !Contains(Lower(filename), "layout") && !Contains(Lower(filename), "activity_")
      && Contains(Lower(filename), "androidmanifest")
    ensures k == ConfigXml <==>
      && DotExtension(filename) == "xml"
      && !Contains(Lower(filename), "layout") && !Contains(Lower(filename), "activity_")
      && !Contains(Lower(filename), "androidmanifest")
  {
    var name := Lower(filename);
    if DotExtension(filename) == "xml" then
      if Contains(name, "layout") || Contains(name, "activity_") then LayoutXml
      else if Contains(name, "androidmanifest") then ManifestXml
      else ConfigXml
    else SourceCode
  }

  /** An xml name mentioning a layout is a layout even when it also mentions
      the manifest. */
  lemma {:induction false} LayoutBeforeManifest(filename: string)
    requires DotExtension(filename) == "xml"
    requires Contains(Lower(filename), "layout") && Contains(Lower(filename), "androidmanifest")
    ensures PromptFileKind(filename) == LayoutXml
  {
  }

  /** The file type ignores letter case entirely. */
  lemma {:induction false} PromptFileKindIgnoresCase(filename: string)
    ensures PromptFileKind(Lower(filename)) == PromptFileKind(filename)
  {
    DotExtensionIgnoresCase(filename);
    LowerIdempotent(filename);
  }

  // ------------------------------------------------------------ file names

  /** The extension given to a file converted for each known target. */
  const ExtensionMap: map<string, string> :=
    map["android_java" := ".java", "android_kotlin" := ".kt", "ios_swift" := ".swift"]

  /** The stem of the path followed by the target's extension, or by the
      original extension when the target is unknown. */
  function ConvertedFilename(path: string, targetPlatform: string): string
  {
    var (stem, ext) := SplitExt(path);
    stem + (if targetPlatform in ExtensionMap then ExtensionMap[targetPlatform] else ext)
  }

  /** The converted name keeps the path's folders. */
  lemma {:induction false} ConvertedFilenameKeepsFolders(path: string, targetPlatform: string)
    requires '/' in path
    ensures '/' in ConvertedFilename(path, targetPlatform)
  {
    var sep := LastIndexOf(path, '/');
    var k :| 0 <= k < |path| && path[k] == '/';
    assert sep >= 0;
    var (stem, ext) := SplitExt(path);
    assert stem[sep] == '/';
    var out := ConvertedFilename(path, targetPlatform);
    assert out[sep] == '/';
  }

  /** An unknown target leaves the name unchanged. */
  lemma {:induction false} UnknownTargetKeepsName(path: string, targetPlatform: string)
    requires targetPlatform !in ExtensionMap
    ensures ConvertedFilename(path, targetPlatform) == path
  {
    SplitExtParts(path);
  }

  /** The final component of the path has a character that is not a dot, so
      it can carry an extension. */
  predicate HasStem(path: string)
  {
    NonDotBetween(path, LastIndexOf(path, '/') + 1, |path|)
  }

  /** Appending an extension of the form `.x…`, without dots or '/' after the
      first character, to a path that has a stem: splitting the result gives
      back the path and the extension. */
  lemma {:induction false} SplitAppendedExtension(stem: string, ext: string)
    requires HasStem(stem)
    requires 2 <= |ext| && ext[0] == '.' && forall k :: 1 <= k < |ext| ==> ext[k] != '.' && ext[k] != '/'
    ensures SplitExt(stem + ext) == (stem, ext)
  {
    var p := stem + ext;
    var sep := LastIndexOf(stem, '/');
    assert p[|stem|] == '.';
    assert forall j :: |stem| < j < |p| ==> p[j] == ext[j - |stem|];
    assert LastIndexOf(p, '.') == |stem|;
    assert forall j :: sep < j < |stem| ==> p[j] == stem[j];
    assert forall j :: |stem| <= j < |p| ==> p[j] != '/';
    LastIndexOfUnique(p, '/', sep);
    var j :| sep + 1 <= j < |stem| && stem[j] != '.';
    assert p[j] != '.';
    assert p[..|stem|] == stem && p[|stem|..] == ext;
  }

  /** The stem kept by the renaming still has a stem. */
  lemma {:induction false} StemKeepsStem(path: string)
    requires HasStem(path)
    ensures HasStem(SplitExt(path).0)
  {
    var sep := LastIndexOf(path, '/');
    var dot := LastIndexOf(path, '.');
    if dot > sep && NonDotBetween(path, sep + 1, dot) {
      var stem := path[..dot];
      assert forall j :: sep < j < dot ==> stem[j] == path[j];
      LastIndexOfUnique(stem, '/', sep);
      var j :| sep + 1 <= j < dot && path[j] != '.';
      assert stem[j] != '.';
    }
  }

  /** Renaming for a known target keeps the stem and replaces the last
      extension: splitting the new name gives the old stem and the target's
      extension. */
  lemma {:induction false} ConvertedFilenameSplits(path: string, targetPlatform: string)
    requires targetPlatform in ExtensionMap && HasStem(path)
    ensures SplitExt(ConvertedFilename(path, targetPlatform)) == (SplitExt(path).0, ExtensionMap[targetPlatform])
  {
    var ext := ExtensionMap[targetPlatform];
    StemKeepsStem(path);
    assert ext[0] == '.' && 2 <= |ext| && forall k :: 1 <= k < |ext| ==> ext[k] != '.' && ext[k] != '/';
    SplitAppendedExtension(SplitExt(path).0, ext);
  }

  /** Renaming twice for the same target is renaming once. */
  lemma {:induction false} ConvertedFilenameIdempotent(path: string, targetPlatform: string)
    requires targetPlatform in ExtensionMap && HasStem(path)
    ensures ConvertedFilename(ConvertedFilename(path, targetPlatform), targetPlatform)
         == ConvertedFilename(path, targetPlatform)
  {
    ConvertedFilenameSplits(path, targetPlatform);
  }

  // ---------------------------------------------------------- error texts

  /** The platforms whose comments start with `//`. */
  const SlashCommented: set<string> := {"android_java", "android_kotlin", "ios_swift"}

  /** A one-line comment reporting `message` in the target's comment syntax. */
  function ErrorComment(message: string, targetPlatform: string): (r: string)
    ensures EndsWith(r, "CONVERSION ERROR: " + message)
    ensures StartsWith(r, "// ") <==> targetPlatform in SlashCommented
    ensures StartsWith(r, "# ") <==> targetPlatform !in SlashCommented
  {
    var marker := if targetPlatform in SlashCommented then "// " else "# ";
    var r := marker + "CONVERSION ERROR: " + message;
    assert r[0] == marker[0];
    assert r[..|marker|] == marker;
    assert r[|r| - |"CONVERSION ERROR: " + message|..] == "CONVERSION ERROR: " + message;
    r
  }

  const JavaXmlToSwiftNotes :=
    "/*\n * CONVERSION NOTES FOR ANDROID XML TO iOS SWIFT:\n"
    + " * - Convert LinearLayout to VStack/HStack in SwiftUI\n"
    + " * - Convert TextView to Text() in SwiftUI\n"
    + " * - Convert Button to Button() in SwiftUI\n"
    + " * - Convert EditText to TextField() in SwiftUI\n"
    + " * - Replace android:layout_width/height with SwiftUI modifiers\n"
    + " * - Convert android:onClick to SwiftUI actions\n */"

  const JavaToSwiftNotes :=
    "/*\n * CONVERSION NOTES FOR ANDROID JAVA TO iOS SWIFT:\n"
    + " * - Convert classes to Swift classes/structs\n"
    + " * - Replace findViewById with @IBOutlet or SwiftUI @State\n"
    + " * - Convert setOnClickListener to SwiftUI actions\n"
    + " * - Replace Intent with segues or NavigationView\n"
    + " * - Convert AsyncTask to async/await or combine\n"
    + " * - Replace SharedPreferences with UserDefaults\n */"

  const KotlinToSwiftNotes :=
    "/*\n * CONVERSION NOTES FOR ANDROID KOTLIN TO iOS SWIFT:\n"
    + " * - Convert data classes to Swift structs\n"
    + " * - Replace lateinit var with Swift optionals or lazy properties\n"
    + " * - Convert coroutines to async/await\n"
    + " * - Replace Kotlin extensions with Swift extensions\n"
    + " * - Convert when expressions to switch statements\n */"

  /** The note for every other pair of platforms, naming both upper-cased. */
  function GenericNotes(sourcePlatform: string, targetPlatform: string): string
  {
    "/*\n * CONVERSION NOTES FOR " + Upper(sourcePlatform) + " TO " + Upper(targetPlatform) + ":\n"
    + " * - Review platform-specific APIs and frameworks\n"
    + " * - Update import statements and dependencies\n"
    + " * - Adapt UI components to target platform conventions\n"
    + " * - Adjust navigation and lifecycle patterns\n */"
  }

  /** The conversion notes put into the fallback text. */
  function ConversionGuidance(sourcePlatform: string, targetPlatform: string, filename: string): string
  {
    if sourcePlatform == "android_java" && targetPlatform == "ios_swift" then
      if DotExtension(filename) == "xml" then JavaXmlToSwiftNotes else JavaToSwiftNotes
    else if sourcePlatform == "android_kotlin" && targetPlatform == "ios_swift" then KotlinToSwiftNotes
    else GenericNotes(sourcePlatform, targetPlatform)
  }

  /** Only the Java to Swift notes depend on the file, and only through its
      extension. */
  lemma {:induction false} GuidanceDependsOnExtension(sourcePlatform: string, targetPlatform: string, f1: string, f2: string)
    requires DotExtension(f1) == DotExtension(f2)
    ensures ConversionGuidance(sourcePlatform, targetPlatform, f1) == ConversionGuidance(sourcePlatform, targetPlatform, f2)
  {
  }

  /** The notice heading the fallback text. */
  function UnavailableMessage(sourcePlatform: string): string
  {
    "AI service temporarily unavailable. This is the original " + sourcePlatform
    + " code with basic conversion notes."
  }

  /** The closing block of the fallback text, with the manual steps. */
  function ManualSteps(sourcePlatform: string): string
  {
    "\n\n/*\n * ORIGINAL " + Upper(sourcePlatform) + " CODE:\n"
    + " * To complete the conversion:\n"
    + " * 1. Review the conversion notes above\n"
    + " * 2. Apply platform-specific changes manually\n"
    + " * 3. Test and adjust as needed\n */\n\n"
  }

  /** The layout of the fallback text: a header, a blank line, the notes, the
      closing block, then the source. */
  function Assemble(head: string, guidance: string, steps: string, source: string): (r: string)
    ensures StartsWith(r, head) && EndsWith(r, source) && Contains(r, guidance)
  {
    var r := head + "\n\n" + guidance + steps + source;
    assert r[..|head|] == head;
    assert r[|r| - |source|..] == source;
    assert OccursAt(r, guidance, |head| + 2);
    r
  }

  /** The text returned when every attempt failed: it opens with the error
      comment announcing the fallback, contains the conversion notes, and ends
      with the source code unchanged. */
  function FallbackConversion(source: string, sourcePlatform: string, targetPlatform: string, filename: string): (r: string)
    ensures StartsWith(r, ErrorComment(UnavailableMessage(sourcePlatform), targetPlatform))
    ensures EndsWith(r, source)
    ensures Contains(r, ConversionGuidance(sourcePlatform, targetPlatform, filename))
  {
    Assemble(ErrorComment(UnavailableMessage(sourcePlatform), targetPlatform),
             ConversionGuidance(sourcePlatform, targetPlatform, filename),
             ManualSteps(sourcePlatform), source)
  }

  // ---------------------------------------------------------------- batch

  /** The service the batch talks to: the reply to attempt `k` for file `i`. */
  type Service = (nat, nat) -> Reply

  /** The fallback text of each staged file. */
  type FallbackOf = StagedFile -> string

  /** The fallback text of a staged file for a pair of platforms. */
  function FallbackFor(sourcePlatform: string, targetPlatform: string): FallbackOf
  {
    (file: StagedFile) => FallbackConversion(file.content, sourcePlatform, targetPlatform, file.relativePath)
  }

  /** The output for one staged file. When the file can be read it is
      converted and renamed; otherwise it is read a second time and, when
      that works, kept under its own path behind an error comment; when the
      second read fails as well, its exception ends the batch. */
  function ConvertEntry(file: StagedFile, targetPlatform: string, oracle: Oracle, fallbackOf: FallbackOf)
    : Result<OutputFile>
  {
    match file.disk.convertRead
    case Readable =>
      Success(OutputFile(ConvertedFilename(file.relativePath, targetPlatform),
                         SingleFileSpec(OutcomesOf(oracle), fallbackOf(file)).text))
    case Unreadable(e) =>
      match file.disk.recoveryRead
      case Readable => Success(OutputFile(file.relativePath, ErrorComment(e, targetPlatform) + "\n\n" + file.content))
      case Unreadable(e2) => Failure(e2)
  }

  /** The translator's replies for file `i` of the batch. */
  function FileOracle(service: Service, i: nat): Oracle
  {
    (k: nat) => service(i, k)
  }

  /** How the `i`-th file of a batch is turned into its output. */
  type EntryRule = (nat, StagedFile) -> Result<OutputFile>

  function ConversionRule(targetPlatform: string, service: Service, fallbackOf: FallbackOf): EntryRule
  {
    (i: nat, file: StagedFile) => ConvertEntry(file, targetPlatform, FileOracle(service, i), fallbackOf)
  }

  /** The outputs of the files in order, or the first escaping exception. */
  function Batch(files: seq<StagedFile>, rule: EntryRule): Result<seq<OutputFile>>
  {
    if files == [] then Success([])
    else
      var n := |files| - 1;
      match Batch(files[..n], rule)
      case Failure(e) => Failure(e)
      case Success(out) =>
        match rule(n, files[n])
        case Failure(e) => Failure(e)
        case Success(o) => Success(out + [o])
  }

  /** Once a prefix of the batch fails, the batch fails the same way. */
  lemma {:induction false} BatchFailureStops(files: seq<StagedFile>, rule: EntryRule, n: nat)
    requires n <= |files| && Batch(files[..n], rule).Failure?
    ensures Batch(files, rule) == Batch(files[..n], rule)
  {
    if n < |files| {
      var m := |files| - 1;
      assert files[..m][..n] == files[..n];
      BatchFailureStops(files[..m], rule, n);
    } else {
      assert files[..n] == files;
    }
  }

  /** The batch's result for a pair of platforms and a translator. */
  function ConvertedBatch(files: seq<StagedFile>, sourcePlatform: string, targetPlatform: string, service: Service)
    : Result<seq<OutputFile>>
  {
    Batch(files, ConversionRule(targetPlatform, service, FallbackFor(sourcePlatform, targetPlatform)))
  }

  /** The body of the batch loop for file `i`. */
  method ConvertOne(i: nat, file: StagedFile, targetPlatform: string, service: Service, fallbackOf: FallbackOf)
    returns (r: Result<OutputFile>)
    ensures r == ConversionRule(targetPlatform, service, fallbackOf)(i, file)
  {
    match file.disk.convertRead {
      case Readable =>
        var c := ConvertSingleFile(OutcomesOf(FileOracle(service, i)), fallbackOf(file));
        r := Success(OutputFile(ConvertedFilename(file.relativePath, targetPlatform), c.text));
      case Unreadable(e) =>
        match file.disk.recoveryRead {
          case Readable =>
            r := Success(OutputFile(file.relativePath, ErrorComment(e, targetPlatform) + "\n\n" + file.content));
          case Unreadable(e2) =>
            r := Failure(e2);
        }
    }
  }

  /** The batch loop, for any choice of fallback texts. */
  method ConvertEach(files: seq<StagedFile>, targetPlatform: string, service: Service, fallbackOf: FallbackOf)
    returns (r: Result<seq<OutputFile>>)
    ensures r == Batch(files, ConversionRule(targetPlatform, service, fallbackOf))
  {
    ghost var rule := ConversionRule(targetPlatform, service, fallbackOf);
    var converted: seq<OutputFile> := [];
    var i := 0;
    while i < |files|
      invariant 0 <= i <= |files|
      invariant Batch(files[..i], rule) == Success(converted)
    {
      assert files[..i + 1][..i] == files[..i] && files[..i + 1][i] == files[i];
      var o := ConvertOne(i, files[i], targetPlatform, service, fallbackOf);
      match o {
        case Success(out) =>
          converted := converted + [out];
        case Failure(e) =>
          BatchFailureStops(files, rule, i + 1);
          return Failure(e);
      }
      i := i + 1;
    }
    assert files[..i] == files;
    r := Success(converted);
  }

  /** `convert_files`: convert each staged file in turn. */
  method ConvertFiles(files: seq<StagedFile>, sourcePlatform: string, targetPlatform: string, service: Service)
    returns (r: Result<seq<OutputFile>>)
    ensures r == ConvertedBatch(files, sourcePlatform, targetPlatform, service)
  {
    r := ConvertEach(files, targetPlatform, service, FallbackFor(sourcePlatform, targetPlatform));
  }

  /** A successful batch has one output per input, in input order, each the
      output of its own file. */
  lemma {:induction false} BatchOnePerInput(files: seq<StagedFile>, rule: EntryRule)
    requires Batch(files, rule).Success?
    ensures |Batch(files, rule).value| == |files|
    ensures forall i :: 0 <= i < |files| ==> rule(i, files[i]) == Success(Batch(files, rule).value[i])
  {
    if files != [] {
      var n := |files| - 1;
      BatchOnePerInput(files[..n], rule);
      assert forall i :: 0 <= i < n ==> files[..n][i] == files[i];
    }
  }

  /** A batch fails exactly when the rule fails for some file, and then with
      the first such failure. */
  lemma {:induction false} BatchFailsIff(files: seq<StagedFile>, rule: EntryRule)
    ensures Batch(files, rule).Failure? <==> exists i :: 0 <= i < |files| && rule(i, files[i]).Failure?
    ensures Batch(files, rule).Failure? ==>
      exists i :: 0 <= i < |files| && rule(i, files[i]).Failure? && rule(i, files[i]).error == Batch(files, rule).error
                  && forall j :: 0 <= j < i ==> rule(j, files[j]).Success?
  {
    if files != [] {
      var n := |files| - 1;
      BatchFailsIff(files[..n], rule);
      assert forall i :: 0 <= i < n ==> files[..n][i] == files[i];
      if Batch(files[..n], rule).Success? && rule(n, files[n]).Failure? {
        assert forall j :: 0 <= j < n ==> rule(j, files[j]).Success?;
      }
    }
  }

  /** A file makes the batch fail exactly when it can be read neither for
      conversion nor for recovery. */
  lemma {:induction false} ConvertEntryFailsIff(file: StagedFile, targetPlatform: string, oracle: Oracle, fallbackOf: FallbackOf)
    ensures ConvertEntry(file, targetPlatform, oracle, fallbackOf).Failure?
        <==> file.disk.convertRead.Unreadable? && file.disk.recoveryRead.Unreadable?
  {
  }

  /** Converting a batch fails exactly when some file can be read neither for
      conversion nor for recovery; otherwise every file has its output, in
      order. */
  lemma {:induction false} ConvertedBatchOutcome(files: seq<StagedFile>, targetPlatform: string, service: Service, fallbackOf: FallbackOf)
    ensures var r := Batch(files, ConversionRule(targetPlatform, service, fallbackOf));
      r.Failure? <==> exists i :: 0 <= i < |files| && files[i].disk.convertRead.Unreadable? && files[i].disk.recoveryRead.Unreadable?
    ensures var r := Batch(files, ConversionRule(targetPlatform, service, fallbackOf));
      r.Success? ==>
        |r.value| == |files| &&
        forall i :: 0 <= i < |files| ==>
          ConvertEntry(files[i], targetPlatform, FileOracle(service, i), fallbackOf) == Success(r.value[i])
  {
    var rule := ConversionRule(targetPlatform, service, fallbackOf);
    BatchFailsIff(files, rule);
    forall i | 0 <= i < |files|
      ensures rule(i, files[i]).Failure? <==> files[i].disk.convertRead.Unreadable? && files[i].disk.recoveryRead.Unreadable?
    {
      ConvertEntryFailsIff(files[i], targetPlatform, FileOracle(service, i), fallbackOf);
    }
    if Batch(files, rule).Success? {
      BatchOnePerInput(files, rule);
    }
  }

  /** A readable file comes out renamed, holding the converted text; an
      unreadable one that can be read again keeps its path and its code,
      behind the error comment and a blank line. */
  lemma {:induction false} ConvertEntryOutcome(file: StagedFile, targetPlatform: string, oracle: Oracle, fallbackOf: FallbackOf)
    ensures file.disk.convertRead.Readable? ==>
      var o := ConvertEntry(file, targetPlatform, oracle, fallbackOf);
      && o.Success?
      && o.value.name == ConvertedFilename(file.relativePath, targetPlatform)
      && o.value.content == SingleFileSpec(OutcomesOf(oracle), fallbackOf(file)).text
    ensures file.disk.convertRead.Unreadable? && file.disk.recoveryRead.Readable? ==>
      var o := ConvertEntry(file, targetPlatform, oracle, fallbackOf);
      && o.Success?
      && o.value.name == file.relativePath
      && StartsWith(o.value.content, ErrorComment(file.disk.convertRead.error, targetPlatform) + "\n\n")
      && EndsWith(o.value.content, file.content)
  {
    if file.disk.convertRead.Unreadable? && file.disk.recoveryRead.Readable? {
      var head := ErrorComment(file.disk.convertRead.error, targetPlatform) + "\n\n";
      var c := head + file.content;
      assert c[..|head|] == head;
      assert c[|c| - |file.content|..] == file.content;
    }
  }
}
