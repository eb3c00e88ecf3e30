/** The string operations the program relies on, written out character by
    character: ASCII case mapping, prefix/suffix/substring tests, the last
    occurrence of a character, the basename and extension of a path in the
    sense of Python's `os.path` and `pathlib`, whitespace stripping, and
    splitting a text into lines and joining it back. */
module Text {

  // ---------------------------------------------------------------- case

  predicate IsUpper(c: char) { 'A' <= c <= 'Z' }

  predicate IsLowerLetter(c: char) { 'a' <= c <= 'z' }

  function LowerChar(c: char): char { if IsUpper(c) then (c as int + 32) as char else c }

  function UpperChar(c: char): char { if IsLowerLetter(c) then (c as int - 32) as char else c }

  /** `str.lower()`, restricted to ASCII letters. */
  function Lower(s: string): (r: string)
    ensures |r| == |s|
    ensures forall i :: 0 <= i < |s| ==> r[i] == LowerChar(s[i])
  {
    seq(|s|, i requires 0 <= i < |s| => LowerChar(s[i]))
  }

  /** `str.upper()`, restricted to ASCII letters. */
  function Upper(s: string): (r: string)
    ensures |r| == |s|
    ensures forall i :: 0 <= i < |s| ==> r[i] == UpperChar(s[i])
  {
    seq(|s|, i requires 0 <= i < |s| => UpperChar(s[i]))
  }

  predicate HasUpper(s: string) { exists i | 0 <= i < |s| :: IsUpper(s[i]) }

  /** A lower-cased string holds no upper-case letter. */
  lemma {:induction false} LowerHasNoUpper(s: string)
    ensures !HasUpper(Lower(s))
  {
    var r := Lower(s);
    forall i | 0 <= i < |r| ensures !IsUpper(r[i]) {
      assert r[i] == LowerChar(s[i]);
    }
  }

  /** Lower-casing twice is lower-casing once. */
  lemma {:induction false} LowerIdempotent(s: string)
    ensures Lower(Lower(s)) == Lower(s)
  {
    forall i | 0 <= i < |s| ensures Lower(Lower(s))[i] == Lower(s)[i] {
      assert Lower(s)[i] == LowerChar(s[i]);
    }
  }

  /** Lower-casing moves no dot. */
  lemma {:induction false} LowerLastIndexOf(s: string)
    ensures LastIndexOf(Lower(s), '.') == LastIndexOf(s, '.')
  {
    if s != [] {
      assert Lower(s)[|s| - 1] == LowerChar(s[|s| - 1]);
      assert Lower(s)[..|s| - 1] == Lower(s[..|s| - 1]);
      LowerLastIndexOf(s[..|s| - 1]);
    }
  }

  /** The text after the last dot of a lower-cased string is the lower-cased
      text after the last dot. */
  lemma {:induction false} LowerLastDotSegment(s: string)
    ensures LastDotSegment(Lower(s)) == Lower(LastDotSegment(s))
  {
    LowerLastIndexOf(s);
    var i := LastIndexOf(s, '.');
    assert Lower(s)[i + 1..] == Lower(s[i + 1..]);
  }

  /** The extension test ignores letter case. */
  lemma {:induction false} DotExtensionIgnoresCase(s: string)
    ensures DotExtension(Lower(s)) == DotExtension(s)
  {
    LowerLastIndexOf(s);
    if '.' in s {
      LowerLastDotSegment(s);
      LowerIdempotent(LastDotSegment(s));
    } else {
      assert LastIndexOf(s, '.') == -1;
    }
  }

  // ---------------------------------------------------- prefix, suffix, substring

  predicate StartsWith(s: string, p: string) { |p| <= |s| && s[..|p|] == p }

  predicate EndsWith(s: string, p: string) { |p| <= |s| && s[|s| - |p|..] == p }

  predicate OccursAt(s: string, p: string, k: nat) { k + |p| <= |s| && s[k..k + |p|] == p }

  /** Python's `p in s`. */
  predicate Contains(s: string, p: string) { exists k | 0 <= k <= |s| :: OccursAt(s, p, k) }

  lemma {:induction false} EndsWithContains(s: string, p: string)
    ensures EndsWith(s, p) ==> Contains(s, p)
  {
    if EndsWith(s, p) {
      assert OccursAt(s, p, |s| - |p|);
    }
  }

  lemma {:induction false} StartsWithContains(s: string, p: string)
    ensures StartsWith(s, p) ==> Contains(s, p)
  {
    if StartsWith(s, p) {
      assert OccursAt(s, p, 0);
    }
  }

  /** A substring of a suffix of `s` is a substring of `s`. */
  lemma {:induction false} ContainsInSuffix(s: string, t: string, p: string)
    requires EndsWith(s, t) && Contains(t, p)
    ensures Contains(s, p)
  {
    var k :| 0 <= k <= |t| && OccursAt(t, p, k);
    var d := |s| - |t|;
    assert s[d..] == t;
    assert s[d + k..d + k + |p|] == t[k..k + |p|];
    assert OccursAt(s, p, d + k);
  }

  /** A substring of `s` is a substring of any extension of `s`. */
  lemma {:induction false} ContainsInPrefix(s: string, t: string, p: string)
    requires Contains(s, p)
    ensures Contains(s + t, p)
  {
    var k :| 0 <= k <= |s| && OccursAt(s, p, k);
    assert (s + t)[k..k + |p|] == s[k..k + |p|];
    assert OccursAt(s + t, p, k);
  }

  /** Every character of a substring occurs in the string, so a string with no
      upper-case letter contains no pattern that has one. */
  lemma {:induction false} ContainsNoNewUpper(s: string, p: string)
    ensures Contains(s, p) && HasUpper(p) ==> HasUpper(s)
  {
    if Contains(s, p) && HasUpper(p) {
      var k :| 0 <= k <= |s| && OccursAt(s, p, k);
      var j :| 0 <= j < |p| && IsUpper(p[j]);
      assert s[k..k + |p|][j] == s[k + j];
    }
  }

  // ------------------------------------------------------------- searching

  /** `s.rfind(c)`: the last index holding `c`, or -1. */
  function LastIndexOf(s: string, c: char): (i: int)
    ensures -1 <= i < |s|
    ensures i >= 0 ==> s[i] == c
    ensures forall j :: i < j < |s| ==> s[j] != c
  {
    if s == [] then -1
    else if s[|s| - 1] == c then |s| - 1
    else LastIndexOf(s[..|s| - 1], c)
  }

  /** The last index of `c` is the only index holding `c` with no `c` after it. */
  lemma {:induction false} LastIndexOfUnique(s: string, c: char, i: int)
    requires i == -1 || (0 <= i < |s| && s[i] == c)
    requires forall j :: i < j < |s| ==> s[j] != c
    ensures LastIndexOf(s, c) == i
  {
  }

  lemma {:induction false} AfterLastIndex(s: string, c: char)
    ensures c !in s[LastIndexOf(s, c) + 1..]
  {
    var i := LastIndexOf(s, c);
    var r := s[i + 1..];
    forall j | 0 <= j < |r| ensures r[j] != c {
      assert r[j] == s[i + 1 + j];
    }
  }

  /** `s.count(c)`. */
  function CountChar(s: string, c: char): nat
  {
    if s == [] then 0 else CountChar(s[..|s| - 1], c) + (if s[|s| - 1] == c then 1 else 0)
  }

  /** `s.split('.')[-1]`: what follows the last dot, or the whole string when there is none. */
  function LastDotSegment(s: string): (r: string)
    ensures EndsWith(s, r) && '.' !in r
    ensures '.' in s ==> s[|s| - |r| - 1] == '.'
    ensures '.' !in s ==> r == s
  {
    AfterLastIndex(s, '.');
    s[LastIndexOf(s, '.') + 1..]
  }

  /** A string with a dot ends with a dot and its last dot-segment. */
  lemma {:induction false} EndsWithDotSegment(s: string)
    requires '.' in s
    ensures EndsWith(s, "." + LastDotSegment(s))
  {
    var r := LastDotSegment(s);
    assert s[|s| - |r| - 1..] == [s[|s| - |r| - 1]] + s[|s| - |r|..];
  }

  /** A string ending with a dot and a dot-free `ext` has `ext` as its last
      dot-segment. */
  lemma {:induction false} DotSegmentOfSuffix(s: string, ext: string)
    requires EndsWith(s, "." + ext) && '.' !in ext
    ensures '.' in s && LastDotSegment(s) == ext
  {
    var d := |s| - |ext| - 1;
    assert s[d] == ("." + ext)[0];
    forall j | d < j < |s| ensures s[j] != '.' {
      assert s[j] == ("." + ext)[j - d] == ext[j - d - 1];
    }
    LastIndexOfUnique(s, '.', d);
    assert s[d + 1..] == ("." + ext)[1..];
  }

  /** Lower-casing neither adds nor removes dots. */
  lemma {:induction false} LowerKeepsDot(s: string)
    ensures '.' in Lower(s) <==> '.' in s
  {
    if '.' in s {
      var i :| 0 <= i < |s| && s[i] == '.';
      assert Lower(s)[i] == '.';
    }
    if '.' in Lower(s) {
      var i :| 0 <= i < |s| && Lower(s)[i] == '.';
      assert s[i] == '.';
    }
  }

  /** `s.split('.')[-1].lower() if '.' in s else ''`, the extension test of the prompt builder. */
  function DotExtension(s: string): string
  {
    if '.' in s then Lower(LastDotSegment(s)) else ""
  }

  // ------------------------------------------------------------------ paths

  /** `os.path.basename` on POSIX: what follows the last '/'. */
  function Basename(p: string): (r: string)
    ensures EndsWith(p, r) && '/' !in r
    ensures '/' !in p ==> r == p
    ensures '/' in p ==> p[|p| - |r| - 1] == '/'
  {
    AfterLastIndex(p, '/');
    if '/' in p then p[LastIndexOf(p, '/') + 1..] else p
  }

  /** `pathlib.PurePath.suffix`: from the last dot of the final component, unless
      that dot is its first or its last character. */
  function Suffix(p: string): (r: string)
    ensures r == "" || (r[0] == '.' && 2 <= |r|)
    ensures var name := Basename(p);
      r != "" <==> name != "" && name[|name| - 1] != '.' && exists j | 0 < j < |name| :: name[j] == '.'
    ensures r != "" ==> EndsWith(Basename(p), r) && |r| < |Basename(p)| && '.' !in r[1..]
  {
    var name := Basename(p);
    var i := LastIndexOf(name, '.');
    if 0 < i < |name| - 1 then name[i..] else ""
  }

  /** Some character of `p` at an index in `[lo, hi)` is not a dot. */
  predicate NonDotBetween(p: string, lo: nat, hi: int) { exists j | lo <= j < hi && j < |p| :: p[j] != '.' }

  /** `os.path.splitext` on POSIX: split before the last dot of the final
      component, provided some character before that dot in the component is
      not a dot; otherwise the extension is empty. */
  function SplitExt(p: string): (string, string)
  {
    var sep := LastIndexOf(p, '/');
    var dot := LastIndexOf(p, '.');
    if dot > sep && NonDotBetween(p, sep + 1, dot) then (p[..dot], p[dot..]) else (p, "")
  }

  /** The two parts put back together give the path; a non-empty extension is
      a dot followed by characters that are neither dots nor '/'; and the
      extension is non-empty exactly when the final component has a dot with a
      character other than a dot somewhere before it in that component. */
  lemma {:induction false} SplitExtParts(p: string)
    ensures SplitExt(p).0 + SplitExt(p).1 == p
    ensures var ext := SplitExt(p).1;
      ext == "" || (ext[0] == '.' && forall k :: 1 <= k < |ext| ==> ext[k] != '.' && ext[k] != '/')
    ensures var name := Basename(p);
      SplitExt(p).1 != "" <==> exists j, d | 0 <= j < d < |name| :: name[j] != '.' && name[d] == '.'
  {
    var sep := LastIndexOf(p, '/');
    var dot := LastIndexOf(p, '.');
    if dot > sep && NonDotBetween(p, sep + 1, dot) {
      TailAfterLastDot(p, sep, dot);
    }
    ExtensionIff(p);
  }

  /** Cutting a path at a dot that comes after its last '/' and is its last dot
      leaves a tail of the dot followed by neither dots nor '/'. */
  lemma {:induction false} TailAfterLastDot(p: string, sep: int, dot: int)
    requires -1 <= sep < dot < |p| && p[dot] == '.'
    requires forall j :: dot < j < |p| ==> p[j] != '.'
    requires forall j :: sep < j < |p| ==> p[j] != '/'
    ensures p[..dot] + p[dot..] == p
    ensures var ext := p[dot..];
      ext[0] == '.' && forall k :: 1 <= k < |ext| ==> ext[k] != '.' && ext[k] != '/'
  {
    var ext := p[dot..];
    forall k | 1 <= k < |ext| ensures ext[k] != '.' && ext[k] != '/' {
      assert ext[k] == p[dot + k];
    }
  }

  /** The condition under which `splitext` finds an extension, stated on the
      final component. */
  lemma {:induction false} ExtensionIff(p: string)
    ensures var name := Basename(p);
      SplitExt(p).1 != "" <==> exists j, d | 0 <= j < d < |name| :: name[j] != '.' && name[d] == '.'
  {
    var sep := LastIndexOf(p, '/');
    var dot := LastIndexOf(p, '.');
    var name := Basename(p);
    assert name == p[sep + 1..];
    if dot > sep && NonDotBetween(p, sep + 1, dot) {
      var jj :| sep + 1 <= jj < dot && jj < |p| && p[jj] != '.';
      assert name[dot - sep - 1] == p[dot] && name[jj - sep - 1] == p[jj];
    } else {
      forall j, d | 0 <= j < d < |name| && name[d] == '.' ensures name[j] == '.' {
        assert p[sep + 1 + d] == name[d];
        assert p[sep + 1 + j] == name[j];
        assert sep + 1 + d <= dot;
      }
    }
  }

  // ------------------------------------------------------------- whitespace

  /** The ASCII characters for which `str.isspace()` holds. */
  predicate IsSpace(c: char)
  {
    var n := c as int;
    n == 32 || 9 <= n <= 13 || 28 <= n <= 31
  }

  /** Where the run of whitespace that starts at `i` ends. */
  function SkipSpaces(s: string, i: nat): (j: nat)
    requires i <= |s|
    ensures i <= j <= |s|
    ensures forall k :: i <= k < j ==> IsSpace(s[k])
    ensures j < |s| ==> !IsSpace(s[j])
    decreases |s| - i
  {
    if i < |s| && IsSpace(s[i]) then SkipSpaces(s, i + 1) else i
  }

  /** Where the run of whitespace that ends at `j` starts, looking no further
      back than `lo`. */
  function BackSpaces(s: string, lo: nat, j: nat): (i: nat)
    requires lo <= j <= |s|
    ensures lo <= i <= j
    ensures forall k :: i <= k < j ==> IsSpace(s[k])
    ensures lo < i ==> !IsSpace(s[i - 1])
  {
    if lo < j && IsSpace(s[j - 1]) then BackSpaces(s, lo, j - 1) else j
  }

  /** `str.strip()`: the text between the leading and the trailing whitespace. */
  function Strip(s: string): string
  {
    var a := SkipSpaces(s, 0);
    s[a..BackSpaces(s, a, |s|)]
  }

  /** The stripped text is the piece of the original that starts after the
      leading whitespace; it has no whitespace at either end, and everything
      around it is whitespace. */
  lemma {:induction false} StripShape(s: string)
    ensures var d := SkipSpaces(s, 0);
      && d + |Strip(s)| <= |s|
      && (forall k :: 0 <= k < |Strip(s)| ==> Strip(s)[k] == s[d + k])
      && (forall k :: 0 <= k < d || d + |Strip(s)| <= k < |s| ==> IsSpace(s[k]))
    ensures Strip(s) == "" || (!IsSpace(Strip(s)[0]) && !IsSpace(Strip(s)[|Strip(s)| - 1]))
  {
  }

  function Take(s: string, n: nat): (r: string)
    ensures |r| <= n && StartsWith(s, r)
    ensures |s| <= n ==> r == s
  {
    if |s| <= n then s else s[..n]
  }

  // ------------------------------------------------------------------ lines

  /** `s.split(c)`: the pieces between occurrences of `c`; never empty. */
  function Split(s: string, c: char): (r: seq<string>)
    ensures |r| >= 1
    ensures forall i :: 0 <= i < |r| ==> c !in r[i]
  {
    if s == [] then [""]
    else
      var rest := Split(s[1..], c);
      if s[0] == c then [""] + rest else [[s[0]] + rest[0]] + rest[1..]
  }

  /** `c.join(ls)`. */
  function Join(ls: seq<string>, c: char): string
  {
    if |ls| == 0 then "" else if |ls| == 1 then ls[0] else ls[0] + [c] + Join(ls[1..], c)
  }

  /** Joining the pieces of a split gives back the original text. */
  lemma {:induction false} JoinSplit(s: string, c: char)
    ensures Join(Split(s, c), c) == s
  {
    if s != [] {
      var rest := Split(s[1..], c);
      JoinSplit(s[1..], c);
      if s[0] == c {
        assert Split(s, c) == [""] + rest;
        assert ([""] + rest)[1..] == rest;
      } else {
        var ls := Split(s, c);
        assert ls == [[s[0]] + rest[0]] + rest[1..];
        if |rest| == 1 {
          assert Join(ls, c) == [s[0]] + rest[0];
        } else {
          assert ls[1..] == rest[1..];
          assert Join(rest, c) == rest[0] + [c] + Join(rest[1..], c);
        }
      }
    }
  }

  /** A text splits into a single piece exactly when it holds no separator. */
  lemma {:induction false} SplitSingle(s: string, c: char)
    ensures |Split(s, c)| == 1 <==> c !in s
  {
    if s != [] {
      SplitSingle(s[1..], c);
      assert c in s <==> s[0] == c || c in s[1..];
    }
  }

  /** The first piece of a split is a prefix of the text. */
  lemma {:induction false} SplitHeadPrefix(s: string, c: char)
    ensures StartsWith(s, Split(s, c)[0])
  {
    if s != [] && s[0] != c {
      SplitHeadPrefix(s[1..], c);
    }
  }

  /** The first piece of a split runs up to the first separator, or to the end. */
  lemma {:induction false} SplitHeadEnds(s: string, c: char)
    ensures var n := |Split(s, c)[0]|; n <= |s| && (n == |s| || s[n] == c)
  {
    if s != [] && s[0] != c {
      SplitHeadEnds(s[1..], c);
    }
  }

  /** A text without the separator splits into itself. */
  lemma {:induction false} SplitNoSeparator(a: string, c: char)
    requires c !in a
    ensures Split(a, c) == [a]
  {
    if a != [] {
      SplitNoSeparator(a[1..], c);
      assert [a[0]] + a[1..] == a;
    }
  }

  /** Splitting at the first separator. */
  lemma {:induction false} SplitAtFirst(a: string, b: string, c: char)
    requires c !in a
    ensures Split(a + [c] + b, c) == [a] + Split(b, c)
  {
    var s := a + [c] + b;
    if a == [] {
      assert s[1..] == b;
    } else {
      assert s[1..] == a[1..] + [c] + b;
      SplitAtFirst(a[1..], b, c);
      assert [a[0]] + a[1..] == a;
    }
  }

  /** Splitting a join gives back the pieces, when none holds the separator. */
  lemma {:induction false} SplitJoin(ls: seq<string>, c: char)
    requires |ls| >= 1
    requires forall i :: 0 <= i < |ls| ==> c !in ls[i]
    ensures Split(Join(ls, c), c) == ls
  {
    if |ls| == 1 {
      SplitNoSeparator(ls[0], c);
    } else {
      SplitJoin(ls[1..], c);
      SplitAtFirst(ls[0], Join(ls[1..], c), c);
      assert [ls[0]] + ls[1..] == ls;
    }
  }

  // -------------------------------------------------------- path components

  /** `n` occurs in `s` at `i` delimited by '/' or by the ends of `s`. */
  predicate ComponentAt(s: string, n: string, i: nat)
  {
    && i + |n| <= |s|
    && s[i..i + |n|] == n
    && (i == 0 || s[i - 1] == '/')
    && (i + |n| == |s| || s[i + |n|] == '/')
  }

  /** `n` is one of the '/'-separated components of `s` (when `n` holds no '/'). */
  predicate IsComponent(s: string, n: string) { exists i | 0 <= i <= |s| :: ComponentAt(s, n, i) }

  /** The layout of `"/" + s + "/"`. */
  lemma {:induction false} Slashed(s: string)
    ensures |"/" + s + "/"| == |s| + 2
    ensures ("/" + s + "/")[0] == '/' && ("/" + s + "/")[|s| + 1] == '/'
    ensures forall x :: 1 <= x <= |s| ==> ("/" + s + "/")[x] == s[x - 1]
  {
  }

  /** `'/n/' in '/s/'` holds exactly when `n` is a component of `s`. */
  lemma {:induction false} SlashedContainsIsComponent(s: string, n: string)
    ensures Contains("/" + s + "/", "/" + n + "/") <==> IsComponent(s, n)
  {
    if Contains("/" + s + "/", "/" + n + "/") {
      SlashedOccurrenceIsComponent(s, n);
    }
    if IsComponent(s, n) {
      ComponentIsSlashedOccurrence(s, n);
    }
  }

  lemma {:induction false} SlashedOccurrenceIsComponent(s: string, n: string)
    requires Contains("/" + s + "/", "/" + n + "/")
    ensures IsComponent(s, n)
  {
    var t := "/" + s + "/";
    var p := "/" + n + "/";
    Slashed(s);
    Slashed(n);
    var k :| 0 <= k <= |t| && OccursAt(t, p, k);
    forall x | 0 <= x < |p| ensures t[k + x] == p[x] {
      assert t[k..k + |p|][x] == t[k + x];
    }
    forall x | 0 <= x < |n| ensures s[k + x] == n[x] {
      assert t[k + 1 + x] == p[1 + x];
    }
    assert s[k..k + |n|] == n;
    assert k == 0 || s[k - 1] == t[k];
    assert k + |n| == |s| || s[k + |n|] == t[k + |n| + 1];
    assert ComponentAt(s, n, k);
  }

  lemma {:induction false} ComponentIsSlashedOccurrence(s: string, n: string)
    requires IsComponent(s, n)
    ensures Contains("/" + s + "/", "/" + n + "/")
  {
    var t := "/" + s + "/";
    var p := "/" + n + "/";
    Slashed(s);
    Slashed(n);
    var i :| 0 <= i <= |s| && ComponentAt(s, n, i);
    forall x | 0 <= x < |n| ensures n[x] == s[i + x] {
      assert s[i..i + |n|][x] == s[i + x];
    }
    forall x | 0 <= x < |p| ensures t[i + x] == p[x] {
      if x == 0 {
        assert i == 0 || t[i] == s[i - 1];
      } else if x <= |n| {
        assert t[i + x] == s[i + x - 1];
      } else {
        assert i + |n| == |s| || t[i + |n| + 1] == s[i + |n|];
      }
    }
    assert t[i..i + |p|] == p;
    assert OccursAt(t, p, i);
  }

  /** A path that starts with `n/` has `n` as its first component. */
  lemma {:induction false} LeadingComponent(s: string, n: string)
    requires StartsWith(s, n + "/")
    ensures IsComponent(s, n)
  {
    assert s[..|n| + 1][..|n|] == n;
    assert s[|n|] == (n + "/")[|n|];
    assert ComponentAt(s, n, 0);
  }
}
