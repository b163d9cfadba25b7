/** The naming helpers of packages/utils/src/logger.ts: the mutable name
    separator, path normalisation into a logger name, prefixing, scoped
    package names, the argument validators and `extendLoggingNaming`. The
    functions read `config.separator` when called; here it is their `sep`
    parameter. */
module Logger {
  import opened Wrappers
  import opened Strings
  import opened Lists

  /** The `config` object over the private `{ separator: ':' }`. */
  class LoggerConfig {
    var separator: string

    constructor ()
      ensures separator == ":"
    {
      separator := ":";
    }

    /** `config.separator = value`: the setter does nothing. */
    method AssignSeparator(value: string)
      ensures unchanged(this)
    {
    }

    /** `config.setSeparator(value)`: changes the separator and returns it. */
    method SetSeparator(value: string) returns (r: string)
      modifies this
      ensures separator == value && r == value
    {
      separator := value;
      r := value;
    }
  }

  /** `excludeFromPathNormalization`. */
  const Excluded: seq<string> := ["src", "dist", "types"]

  /** A logger name and an optional prefix (`{ name, prefix? }`). */
  datatype LoggingNaming = LoggingNaming(name: string, prefix: Option<string>)

  /** The characters `.` and `$` in a JavaScript regular expression do not
      cross. */
  predicate LineBreak(c: char)
  {
    c == '\n' || c == '\r' || c == '\U{2028}' || c == '\U{2029}'
  }

  /** Where the line holding position `n` starts. */
  function LineStart(s: string, n: nat): (i: nat)
    requires n <= |s|
    ensures i <= n
    ensures forall k :: i <= k < n ==> !LineBreak(s[k])
    ensures i > 0 ==> LineBreak(s[i - 1])
  {
    if n == 0 then 0 else if LineBreak(s[n - 1]) then n else LineStart(s, n - 1)
  }

  /** `s.replace(/\..*$/, '')`: the earliest `.` from which the rest of the
      string has no line break starts the part removed; without one nothing
      is removed. */
  function StripExtension(s: string): (r: string)
    ensures |r| <= |s| && r == s[..|r|]
    ensures forall k :: LineStart(s, |s|) <= k < |r| ==> s[k] != '.'
    ensures |r| < |s| ==> LineStart(s, |s|) <= |r| && s[|r|] == '.'
  {
    var i := IndexFrom(s, '.', LineStart(s, |s|));
    if i < 0 then s else s[..i]
  }

  predicate Kept(segment: string)
  {
    segment !in Excluded
  }

  /** The segments of `filePath` that name the logger: the non-empty ones
      other than `src`, `dist` and `types`, in order. */
  function NameSegments(filePath: string): (r: seq<string>)
    ensures forall x :: x in r ==> x != "" && '/' !in x && x !in Excluded
    ensures forall x :: x in Split(filePath, '/') && x != "" && x !in Excluded ==> x in r
  {
    Filter(Segments(filePath), Kept)
  }

  /** The name segments of two paths joined with `/` are those of the
      first, then those of the second. */
  lemma NameSegmentsConcat(a: string, b: string)
    ensures NameSegments(a + "/" + b) == NameSegments(a) + NameSegments(b)
  {
    SegmentsOfConcat(a, b);
    FilterConcat(Segments(a), Segments(b), Kept);
  }

  /** A single segment names the logger unless it is excluded. */
  lemma NameSegmentsOne(s: string)
    requires s != "" && '/' !in s
    ensures NameSegments(s) == if s in Excluded then [] else [s]
  {
    SegmentsOfSegment(s);
    FilterOne(s, Kept);
  }

  /** `normalizePath(filePath)`: the name segments joined with the separator,
      with the extension cut off. */
  function NormalizePath(filePath: string, sep: string): (r: string)
    ensures var joined := Join(NameSegments(filePath), sep);
            |r| <= |joined| && r == joined[..|r|]
            && (forall k :: LineStart(joined, |joined|) <= k < |r| ==> joined[k] != '.')
            && (|r| < |joined| ==> LineStart(joined, |joined|) <= |r| && joined[|r|] == '.')
            && ((forall k :: 0 <= k < |joined| ==> !LineBreak(joined[k])) ==> '.' !in r)
            && ('.' !in joined ==> r == joined)
  {
    StripExtension(Join(NameSegments(filePath), sep))
  }

  /** A segment that names the logger: non-empty, without `/`, not
      excluded. */
  predicate NameSegment(s: string)
  {
    s != "" && '/' !in s && s !in Excluded
  }

  /** Three naming segments give three names, in order. */
  lemma NameSegmentsThree(a: string, b: string, c: string)
    requires NameSegment(a) && NameSegment(b) && NameSegment(c)
    ensures NameSegments(a + "/" + b + "/" + c) == [a, b, c]
  {
    SegmentsThree(a, b, c);
    FilterAll([a, b, c], Kept);
  }

  /** Excluded segments between naming segments are dropped. */
  lemma NameSegmentsSkipping(a: string, b: string, x: string, y: string, c: string)
    requires NameSegment(a) && NameSegment(b) && NameSegment(c)
    requires x in Excluded && y in Excluded
    ensures NameSegments(a + "/" + b + "/" + x + "/" + y + "/" + c) == [a, b, c]
  {
    SegmentsFive(a, b, x, y, c);
    KeptAroundExcluded(a, b, x, y, c);
  }

  lemma SegmentsThree(a: string, b: string, c: string)
    requires a != "" && '/' !in a && b != "" && '/' !in b && c != "" && '/' !in c
    ensures Segments(a + "/" + b + "/" + c) == [a, b, c]
  {
    SegmentsOfConcat(a + "/" + b, c);
    SegmentsOfConcat(a, b);
    SegmentsOfSegment(a);
    SegmentsOfSegment(b);
    SegmentsOfSegment(c);
  }

  lemma SegmentsFive(a: string, b: string, x: string, y: string, c: string)
    requires a != "" && '/' !in a && b != "" && '/' !in b && c != "" && '/' !in c
    requires x in Excluded && y in Excluded
    ensures Segments(a + "/" + b + "/" + x + "/" + y + "/" + c) == [a, b, x, y, c]
  {
    assert x != "" && '/' !in x && y != "" && '/' !in y;
    SegmentsThree(a, b, x);
    SegmentsOfConcat(a + "/" + b + "/" + x + "/" + y, c);
    SegmentsOfConcat(a + "/" + b + "/" + x, y);
    SegmentsOfSegment(y);
    SegmentsOfSegment(c);
  }

  lemma KeptAroundExcluded(a: string, b: string, x: string, y: string, c: string)
    requires NameSegment(a) && NameSegment(b) && NameSegment(c)
    requires x in Excluded && y in Excluded
    ensures Filter([a, b, x, y, c], Kept) == [a, b, c]
  {
    assert [a, b, x, y, c] == [a, b] + [x, y] + [c];
    FilterDropsMiddle([a, b], [x, y], [c], Kept);
    assert [a, b] + [c] == [a, b, c];
  }

  lemma JoinThree(a: string, b: string, c: string, sep: string)
    ensures Join([a, b, c], sep) == a + sep + b + sep + c
  {
    assert [a, b, c][1..] == [b, c];
    assert [b, c][1..] == [c];
    assert Join([b, c], sep) == b + sep + c;
    assert Join([a, b, c], sep) == a + sep + (b + sep + c);
  }

  /** A text without `.` keeps its whole length. */
  lemma NoDotKept(filePath: string, sep: string)
    requires '.' !in Join(NameSegments(filePath), sep)
    ensures NormalizePath(filePath, sep) == Join(NameSegments(filePath), sep)
  {
  }

  /** Without line breaks, the cut is at the first `.`. */
  lemma CutAtFirstDot(filePath: string, sep: string, n: nat)
    requires var joined := Join(NameSegments(filePath), sep);
             n < |joined| && joined[n] == '.'
             && (forall k :: 0 <= k < n ==> joined[k] != '.')
             && forall k :: 0 <= k < |joined| ==> !LineBreak(joined[k])
    ensures NormalizePath(filePath, sep) == Join(NameSegments(filePath), sep)[..n]
  {
    var joined := Join(NameSegments(filePath), sep);
    NoBreakLineStart(joined, |joined|);
  }

  /** Without line breaks, the last line starts at the beginning. */
  lemma {:induction false} NoBreakLineStart(s: string, n: nat)
    requires n <= |s|
    requires forall k :: 0 <= k < |s| ==> !LineBreak(s[k])
    ensures LineStart(s, n) == 0
  {
    if n > 0 {
      NoBreakLineStart(s, n - 1);
    }
  }

  /** Three naming segments without `.` are joined with the separator. */
  lemma NormalizeThree(a: string, b: string, c: string, sep: string)
    requires NameSegment(a) && NameSegment(b) && NameSegment(c)
    requires '.' !in a && '.' !in b && '.' !in c && '.' !in sep
    ensures NormalizePath(a + "/" + b + "/" + c, sep) == a + sep + b + sep + c
  {
    NameSegmentsThree(a, b, c);
    JoinThree(a, b, c, sep);
    NoDotKept(a + "/" + b + "/" + c, sep);
  }

  /** The last segment loses everything from its first `.`. */
  lemma NormalizeExtension(a: string, b: string, c: string, ext: string, sep: string)
    requires NameSegment(a) && NameSegment(b) && NameSegment(c + "." + ext)
    requires '.' !in a && '.' !in b && '.' !in c && '.' !in sep
    requires NoBreak(a) && NoBreak(b) && NoBreak(c) && NoBreak(ext) && NoBreak(sep)
    ensures NormalizePath(a + "/" + b + "/" + (c + "." + ext), sep) == a + sep + b + sep + c
  {
    var last := c + "." + ext;
    NameSegmentsThree(a, b, last);
    JoinThree(a, b, last, sep);
    var kept := a + sep + b + sep + c;
    assert a + sep + b + sep + last == kept + "." + ext;
    NoBreakConcat(a, sep);
    NoBreakConcat(a + sep, b);
    NoBreakConcat(a + sep + b, sep);
    NoBreakConcat(a + sep + b + sep, c);
    DotCut(kept, ext);
    CutAtFirstDot(a + "/" + b + "/" + last, sep, |kept|);
  }

  lemma NoBreakConcat(x: string, y: string)
    requires NoBreak(x) && NoBreak(y)
    ensures NoBreak(x + y)
  {
    forall k | 0 <= k < |x + y| ensures !LineBreak((x + y)[k]) {
      if k >= |x| { assert (x + y)[k] == y[k - |x|]; }
    }
  }

  /** The first `.` after a text without one is where the text ends. */
  lemma DotCut(kept: string, ext: string)
    requires '.' !in kept && NoBreak(kept) && NoBreak(ext)
    ensures var joined := kept + "." + ext;
            joined[|kept|] == '.' && joined[..|kept|] == kept && NoBreak(joined)
            && forall k :: 0 <= k < |kept| ==> joined[k] != '.'
  {
    var joined := kept + "." + ext;
    assert joined == kept + ("." + ext);
    NoBreakConcat(kept, "." + ext) by {
      forall k | 0 <= k < |"." + ext| ensures !LineBreak(("." + ext)[k]) {
        if k > 0 { assert ("." + ext)[k] == ext[k - 1]; }
      }
    }
    forall k | 0 <= k < |kept| ensures joined[k] != '.' {
      assert joined[k] == kept[k];
    }
  }

  /** Excluded segments in between are dropped. */
  lemma NormalizeSkipping(a: string, b: string, x: string, y: string, c: string, sep: string)
    requires NameSegment(a) && NameSegment(b) && NameSegment(c)
    requires x in Excluded && y in Excluded
    requires '.' !in a && '.' !in b && '.' !in c && '.' !in sep
    ensures NormalizePath(a + "/" + b + "/" + x + "/" + y + "/" + c, sep) == a + sep + b + sep + c
  {
    NameSegmentsSkipping(a, b, x, y, c);
    JoinThree(a, b, c, sep);
    NoDotKept(a + "/" + b + "/" + x + "/" + y + "/" + c, sep);
  }

  /** `this/is/awesome` gives `this:is:awesome`. */
  lemma NormalizePlainExample()
    ensures NormalizePath("this" + "/" + "is" + "/" + "awesome", ":") == "this" + ":" + "is" + ":" + "awesome"
  {
    NormalizeThree("this", "is", "awesome", ":");
  }

  /** `this/is/awesome.my.extensions` gives `this:is:awesome`. */
  lemma NormalizeExtensionExample()
    ensures NormalizePath("this" + "/" + "is" + "/" + ("awesome" + "." + "my.extensions"), ":")
         == "this" + ":" + "is" + ":" + "awesome"
  {
    NormalizeExtension("this", "is", "awesome", "my.extensions", ":");
  }

  /** `this/is/src/dist/awesome` gives `this:is:awesome`. */
  lemma NormalizeExcludedExample()
    ensures NormalizePath("this" + "/" + "is" + "/" + "src" + "/" + "dist" + "/" + "awesome", ":")
         == "this" + ":" + "is" + ":" + "awesome"
  {
    NormalizeSkipping("this", "is", "src", "dist", "awesome", ":");
  }

  predicate NoBreak(s: string)
  {
    forall k :: 0 <= k < |s| ==> !LineBreak(s[k])
  }

  /** `normalizeLoggingNaming`: a non-empty prefix is joined in front of the
      name and dropped; anything else is returned as it is. */
  function NormalizeLoggingNaming(n: LoggingNaming, sep: string): (r: LoggingNaming)
    ensures n.prefix.Some? && n.prefix.value != "" ==> r == LoggingNaming(n.prefix.value + sep + n.name, None)
    ensures !(n.prefix.Some? && n.prefix.value != "") ==> r == n
  {
    JoinTwo(if n.prefix.Some? then n.prefix.value else "", n.name, sep);
    if n.prefix.Some? && n.prefix.value != "" then LoggingNaming(Join([n.prefix.value, n.name], sep), None)
    else n
  }

  /** A normalised naming carries no prefix that could be applied again. */
  lemma NormalizeIdempotent(n: LoggingNaming, sep: string)
    ensures var r := NormalizeLoggingNaming(n, sep);
            NormalizeLoggingNaming(r, sep) == r && !(r.prefix.Some? && r.prefix.value != "")
  {
  }

  /** `^@[^/]+\/[^/]+$`: an `@`, then two non-empty parts around one `/`. */
  predicate Scoped(packageName: string)
  {
    |packageName| > 0 && packageName[0] == '@'
    && var parts := Split(packageName[1..], '/');
       |parts| == 2 && parts[0] != "" && parts[1] != ""
  }

  /** `getLoggingNamingFromPackageName`: a scoped name splits into its scope as
      prefix and its name; any other name is used whole. */
  function GetLoggingNamingFromPackageName(packageName: string): (r: LoggingNaming)
    ensures Scoped(packageName) ==>
              r.prefix.Some? && r.prefix.value != "" && r.name != ""
              && '/' !in r.prefix.value && '/' !in r.name
              && packageName == "@" + r.prefix.value + "/" + r.name
    ensures !Scoped(packageName) ==> r == LoggingNaming(packageName, None)
  {
    if Scoped(packageName) then
      var parts := Split(packageName[1..], '/');
      JoinSplit(packageName[1..], '/');
      assert packageName == [packageName[0]] + packageName[1..];
      LoggingNaming(parts[1], Some(parts[0]))
    else LoggingNaming(packageName, None)
  }

  /** Every `@scope/name` with both parts non-empty and free of `/` is
      recognised and split back into its parts. */
  lemma ScopedRoundTrip(scope: string, name: string)
    requires scope != "" && name != "" && '/' !in scope && '/' !in name
    ensures GetLoggingNamingFromPackageName("@" + scope + "/" + name) == LoggingNaming(name, Some(scope))
  {
    var p := "@" + scope + "/" + name;
    assert p[1..] == scope + ['/'] + name;
    SplitAround(scope, name, '/');
    SplitPrefix(scope, "", '/');
    SplitPrefix(name, "", '/');
    assert scope + "" == scope && name + "" == name;
    assert Split(p[1..], '/') == [scope, name];
  }

  /** A scoped package's logger is named `scope` + separator + `name`. */
  lemma ScopedPackageName(scope: string, name: string, sep: string)
    requires scope != "" && name != "" && '/' !in scope && '/' !in name
    ensures NormalizeLoggingNaming(GetLoggingNamingFromPackageName("@" + scope + "/" + name), sep)
            == LoggingNaming(scope + sep + name, None)
  {
    ScopedRoundTrip(scope, name);
  }

  // ---------------------------------------------------------------------------
  // Validation

  /** `nameValidator(name)()`: a message exactly when no name is given. */
  function NameValidator(name: Option<string>): (r: Option<string>)
    ensures r.Some? <==> name.None? || name.value == ""
    ensures r.Some? ==> r.value == "must supply name"
  {
    if name.None? || name.value == "" then Some("must supply name") else None
  }

  /** `fileNameValidator(fileName)()`. */
  function FileNameValidator(fileName: Option<string>): (r: Option<string>)
    ensures r.Some? <==> fileName.None? || fileName.value == ""
    ensures r.Some? ==> r.value == "must supply fileName"
  {
    if fileName.None? || fileName.value == "" then Some("must supply fileName") else None
  }

  /** The validator outputs kept by `filter(Boolean)`, in order. */
  function Reasons(results: seq<Option<string>>): (r: seq<string>)
    ensures forall i :: 0 <= i < |r| ==> r[i] != ""
    ensures forall i :: 0 <= i < |results| && results[i].Some? && results[i].value != "" ==> results[i].value in r
    ensures |r| == 0 <==> forall i :: 0 <= i < |results| ==> results[i].None? || results[i].value == ""
  {
    if |results| == 0 then []
    else
      var rest := Reasons(results[1..]);
      assert forall i :: 1 <= i < |results| ==> results[i] == results[1..][i - 1];
      if results[0].Some? && results[0].value != "" then [results[0].value] + rest else rest
  }

  function Bullet(reason: string): string
  {
    "  - " + reason
  }

  /** The thrown message; the array of bullets becomes text joined by `,`. */
  function ReasonText(kind: string, reasons: seq<string>): string
  {
    "Could not create logger of type '" + kind + ". Reasons:\n" + Join(Map(reasons, Bullet), ",") + "\n    "
  }

  /** `validate(type, ...validators)`: fails exactly when some validator gives
      a message, and then lists every message. */
  function Validate(kind: string, results: seq<Option<string>>): (r: Result<()>)
    ensures r.Err? <==> exists i :: 0 <= i < |results| && results[i].Some? && results[i].value != ""
    ensures r.Err? ==> r.msg == ReasonText(kind, Reasons(results))
  {
    var reasons := Reasons(results);
    if |reasons| > 0 then Err(ReasonText(kind, reasons)) else Ok(())
  }

  /** Every message a validator gives appears, bulleted, in the thrown text. */
  lemma ValidateMentionsReason(kind: string, results: seq<Option<string>>, i: int)
    requires 0 <= i < |results| && results[i].Some? && results[i].value != ""
    ensures var r := Validate(kind, results);
            r.Err? && Contains(r.msg, Bullet(results[i].value))
  {
    var reasons := Reasons(results);
    var j :| 0 <= j < |reasons| && reasons[j] == results[i].value;
    var bullets := Map(reasons, Bullet);
    JoinContains(bullets, ",", j);
    var head := "Could not create logger of type '" + kind + ". Reasons:\n";
    ContainsAfter(head, Join(bullets, ","), Bullet(results[i].value));
    ContainsBefore(head + Join(bullets, ","), "\n    ", Bullet(results[i].value));
  }

  // ---------------------------------------------------------------------------
  // extendLoggingNaming

  /** `extendLoggingNaming` as written: the naming's name becomes the prefix of
      the input, and its own prefix is not used. */
  function ExtendLoggingNaming(n: LoggingNaming, input: string, sep: string): LoggingNaming
  {
    NormalizeLoggingNaming(LoggingNaming(input, Some(n.name)), sep)
  }

  /** As written, the prefix of the extended naming never reaches the result. */
  lemma ExtendDropsPrefix(n: LoggingNaming, input: string, sep: string)
    requires n.name != ""
    ensures ExtendLoggingNaming(n, input, sep) == LoggingNaming(n.name + sep + input, None)
    ensures n.prefix.Some? && n.prefix.value != "" ==>
              ExtendLoggingNaming(n, input, sep).name != ExtendNaming(n, input, sep).name
  {
  }

  /** The extension the documentation describes: the full name of the naming,
      prefix included, followed by the separator and the input. */
  function ExtendNaming(n: LoggingNaming, input: string, sep: string): (r: LoggingNaming)
    ensures r.prefix.None?
    ensures n.prefix.Some? && n.prefix.value != "" ==> r.name == n.prefix.value + sep + n.name + sep + input
    ensures !(n.prefix.Some? && n.prefix.value != "") ==> r.name == n.name + sep + input
  {
    JoinTwo(NormalizeLoggingNaming(n, sep).name, input, sep);
    LoggingNaming(Join([NormalizeLoggingNaming(n, sep).name, input], sep), None)
  }

  /** Without a prefix the corrected extension agrees with the one written. */
  lemma ExtendAgreesWithoutPrefix(n: LoggingNaming, input: string, sep: string)
    requires n.name != "" && !(n.prefix.Some? && n.prefix.value != "")
    ensures ExtendNaming(n, input, sep) == ExtendLoggingNaming(n, input, sep)
  {
  }

  /** Extending twice appends both inputs in order. */
  lemma ExtendTwice(n: LoggingNaming, a: string, b: string, sep: string)
    ensures ExtendNaming(ExtendNaming(n, a, sep), b, sep).name == ExtendNaming(n, a, sep).name + sep + b
  {
  }
}
