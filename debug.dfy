/**
 * The class `CodeIgniter\Debug\Exceptions` of system/Debug/Exceptions.php:
 * the uncaught-exception handler (message, view, template path, status
 * header, output buffers) and the display helpers `cleanPath` and
 * `describeMemory`. `highlightFile` is in module Highlight.
 */
module Debug {
  import opened PhpStrings
  import opened OutputBuffers

  /** What the handler reads from the `\Throwable` it receives. */
  datatype Throwable = Throwable(
    className: string,   // get_class($exception)
    code: int,
    message: string,
    file: string,
    line: int,
    trace: seq<string>)  // getTrace(), one entry per frame

  /** The front controller's path constants and the host's DIRECTORY_SEPARATOR. */
  datatype Constants = Constants(appPath: string, basePath: string, sysDir: string, fcPath: string, dirSep: string)

  /**
   * The local variables of `exceptionHandler` at the `include`. The template
   * runs in that scope; it can also reach the handler object through `$this`,
   * which this record does not hold.
   */
  datatype Scope = Scope(
    exception: Throwable,
    kind: string,
    code: int,
    message: string,
    file: string,
    line: int,
    trace: seq<string>,
    view: string,
    templatesPath: string,
    title: string)

  // ---------------------------------------------------------------------
  // Decisions of exceptionHandler
  // ---------------------------------------------------------------------

  const NullMessage := "(null)"

  /** Lines 59-62: an empty message ("" or "0", by PHP `empty`) becomes "(null)". */
  function NormalizeMessage(m: string): (r: string)
    ensures !IsEmpty(r)
    ensures r == m || (IsEmpty(m) && r == NullMessage)
  {
    if IsEmpty(m) then NullMessage else m
  }

  lemma NormalizeMessageIdempotent(m: string)
    ensures NormalizeMessage(NormalizeMessage(m)) == NormalizeMessage(m)
  {
  }

  /** The words `str_ireplace` deletes from `display_errors`, in the order they are deleted. */
  const DisablingTokens: seq<string> := ["off", "none", "no", "false", "null"]

  const ProductionView := "production.html"
  const ExceptionView := "exception"

  function StripDisabling(displayErrors: string): string {
    ReplaceEach(displayErrors, DisablingTokens, "", true)
  }

  /** Lines 68-73: `$view`, from the `display_errors` setting. */
  function ViewFor(displayErrors: string): (v: string)
    ensures v == ExceptionView || v == ProductionView
    ensures v == ExceptionView <==> !IsEmpty(StripDisabling(displayErrors))
  {
    if !IsEmpty(StripDisabling(displayErrors)) then ExceptionView else ProductionView
  }

  lemma TokensLowerCase()
    ensures forall k :: 0 <= k < |DisablingTokens| ==> DisablingTokens[k] != "" && Lower(DisablingTokens[k]) == DisablingTokens[k]
  {
    assert Lower("off") == "off" && Lower("none") == "none" && Lower("no") == "no";
    assert Lower("false") == "false" && Lower("null") == "null";
    forall k | 0 <= k < |DisablingTokens|
      ensures DisablingTokens[k] != "" && Lower(DisablingTokens[k]) == DisablingTokens[k]
    {
      assert k == 0 || k == 1 || k == 2 || k == 3 || k == 4;
    }
  }

  /** Case-insensitive deletion, read on the lower-cased setting. */
  lemma ViewFromLower(displayErrors: string)
    ensures ViewFor(displayErrors) ==
      if IsEmpty(ReplaceEach(Lower(displayErrors), DisablingTokens, "", false)) then ProductionView else ExceptionView
  {
    TokensLowerCase();
    ReplaceEachUnderLower(displayErrors, DisablingTokens, "");
    EmptyUnderLower(StripDisabling(displayErrors));
  }

  /** The view depends on `display_errors` only up to ASCII case. */
  lemma ViewIgnoresCase(displayErrors: string)
    ensures ViewFor(displayErrors) == ViewFor(Lower(displayErrors))
  {
    ViewFromLower(displayErrors);
    ViewFromLower(Lower(displayErrors));
    LowerIdempotent(displayErrors);
  }

  // The deletion passes on the lower-cased words that the lemmas below need.

  lemma StripOff()
    ensures ReplaceEach("off", DisablingTokens, "", false) == ""
  {
    assert Replace("off", "off", "", false) == "";
  }

  lemma StripNone()
    ensures ReplaceEach("none", DisablingTokens, "", false) == ""
  {
    ReplaceMissingChar("none", "off", "", 1);
    assert Replace("none", "none", "", false) == "";
  }

  lemma StripNo()
    ensures ReplaceEach("no", DisablingTokens, "", false) == ""
  {
    ReplaceMissingChar("no", "off", "", 1);
    assert Replace("no", "no", "", false) == "";
  }

  lemma StripFalse()
    ensures ReplaceEach("false", DisablingTokens, "", false) == ""
  {
    ReplaceMissingChar("false", "off", "", 0);
    ReplaceMissingChar("false", "none", "", 0);
    ReplaceMissingChar("false", "no", "", 0);
    assert Replace("false", "false", "", false) == "";
  }

  lemma StripNull()
    ensures ReplaceEach("null", DisablingTokens, "", false) == ""
  {
    ReplaceMissingChar("null", "off", "", 0);
    ReplaceMissingChar("null", "none", "", 1);
    ReplaceMissingChar("null", "no", "", 1);
    assert Replace("null", "null", "", false) == "";
  }

  lemma StripOn()
    ensures ReplaceEach("on", DisablingTokens, "", false) == "on"
  {
    ReplaceMissingChar("on", "off", "", 1);
    assert Replace("on", "no", "", false) == "on";
  }

  lemma StripNnoo()
    ensures ReplaceEach("nnoo", DisablingTokens, "", false) == "no"
  {
    ReplaceMissingChar("nnoo", "off", "", 1);
    ReplaceMissingChar("nnoo", "none", "", 3);
    assert Replace("nnoo", "no", "", false) == "no";
    ReplaceMissingChar("no", "false", "", 1);
    ReplaceMissingChar("no", "null", "", 1);
  }

  /** Each disabling word, in any mix of case, selects the production view. */
  lemma DisablingWordSelectsProduction(displayErrors: string)
    requires Lower(displayErrors) in DisablingTokens
    ensures ViewFor(displayErrors) == ProductionView
  {
    ViewFromLower(displayErrors);
    var l := Lower(displayErrors);
    if l == "off" {
      StripOff();
    } else if l == "none" {
      StripNone();
    } else if l == "no" {
      StripNo();
    } else if l == "false" {
      StripFalse();
    } else {
      StripNull();
    }
  }

  /** An empty setting and "0" select the production view. */
  lemma EmptySettingSelectsProduction(displayErrors: string)
    requires IsEmpty(displayErrors)
    ensures ViewFor(displayErrors) == ProductionView
  {
    ViewFromLower(displayErrors);
    assert Lower(displayErrors) == displayErrors;
    assert ReplaceEach("0", DisablingTokens, "", false) == "0";
  }

  /** "On", in any case, selects the exception view. */
  lemma OnSelectsException(displayErrors: string)
    requires Lower(displayErrors) == "on"
    ensures ViewFor(displayErrors) == ExceptionView
  {
    ViewFromLower(displayErrors);
    StripOn();
  }

  /**
   * Each word is deleted in a single pass without rescanning: "nnoo" loses
   * the inner "no" and keeps the "no" that the deletion brings together, so
   * it selects the exception view.
   */
  lemma NoRescan(displayErrors: string)
    requires Lower(displayErrors) == "nnoo"
    ensures ViewFor(displayErrors) == ExceptionView
  {
    ViewFromLower(displayErrors);
    StripNnoo();
  }

  /** Lines 76-93: the template directory, always the default one under APPPATH. */
  function TemplatesDir(c: Constants, isCli: bool): (d: string)
    ensures StartsWith(d, c.appPath + "views" + c.dirSep + "errors" + c.dirSep)
    ensures isCli ==> EndsWith(d, "cli" + c.dirSep)
    ensures !isCli ==> EndsWith(d, "html" + c.dirSep)
    ensures d == c.appPath + "views" + c.dirSep + "errors" + c.dirSep + (if isCli then "cli" else "html") + c.dirSep
  {
    var base := c.appPath + "views" + c.dirSep + "errors" + c.dirSep;
    var mode := if isCli then "cli" else "html";
    assert base + mode + c.dirSep == base + (mode + c.dirSep);
    ConcatEnds(base, mode + c.dirSep);
    base + mode + c.dirSep
  }

  /** Line 101: the file included is always `error_exception.php`, whatever `$view` is. */
  function TemplateFile(c: Constants, isCli: bool): (path: string)
    ensures StartsWith(path, c.appPath + "views" + c.dirSep + "errors" + c.dirSep)
    ensures EndsWith(path, c.dirSep + "error_exception.php")
    ensures path == c.appPath + "views" + c.dirSep + "errors" + c.dirSep + (if isCli then "cli" else "html") + c.dirSep + "error_exception.php"
  {
    var base := c.appPath + "views" + c.dirSep + "errors" + c.dirSep;
    var mode := if isCli then "cli" else "html";
    ConcatEnds(base, mode);
    StartsWithExtend(base + mode, base, c.dirSep);
    StartsWithExtend(base + mode + c.dirSep, base, "error_exception.php");
    ConcatEnds(base + mode, c.dirSep);
    EndsWithExtend(base + mode + c.dirSep, c.dirSep, "error_exception.php");
    TemplatesDir(c, isCli) + "error_exception.php"
  }

  /** The command-line and the HTTP template files differ, so the execution mode decides which is used. */
  lemma TemplateFileDeterminesMode(c: Constants, a: bool, b: bool)
    requires TemplateFile(c, a) == TemplateFile(c, b)
    ensures a == b
  {
  }

  /** The scope the template sees (lines 52-93). */
  function HandlerScope(e: Throwable, displayErrors: string, c: Constants, isCli: bool): Scope {
    Scope(e, e.className, e.code, NormalizeMessage(e.message), e.file, e.line, e.trace,
          ViewFor(displayErrors), TemplatesDir(c, isCli), e.className)
  }

  /** Line 91: the status header sent in an HTTP context. */
  const StatusHeader := Header("HTTP/1.1 401 Unauthorized", true, 500)

  class Exceptions {
    /** `ob_get_level()` when the handler object was made; nothing reassigns it. */
    const obLevel: nat

    /** Lines 15-18. */
    constructor (out: Output)
      ensures obLevel == out.buffers.Level()
    {
      var level := out.GetLevel();
      obLevel := level;
    }

    /**
     * Lines 95-104: flush at most one excess buffer level, capture what the
     * template echoes in a fresh buffer, close it and echo the capture.
     */
    method RenderPage(out: Output, path: string, scope: Scope, render: (string, Scope) -> string)
      modifies out`buffers
      ensures out.buffers == FlushExcess(old(out.buffers), obLevel).Write(render(path, scope))
    {
      var level := out.GetLevel();
      if level > obLevel + 1 {
        var _ := out.EndFlush();
      }
      ghost var flushed := out.buffers;

      out.Start();
      var page := render(path, scope);
      out.Echo(page);
      var buffer := out.GetContents();
      var _ := out.EndClean();
      CaptureRestores(flushed, page);
      // `echo false` prints nothing; here the buffer always exists.
      out.Echo(if buffer.Some? then buffer.value else "");
    }

    /**
     * Lines 49-105. `displayErrors` is `ini_get('display_errors')`, `isCli`
     * is `is_cli()`, and `render` is what the included template echoes for a
     * path and the handler's scope.
     */
    method ExceptionHandler(out: Output, exception: Throwable, displayErrors: string, isCli: bool,
                            c: Constants, render: (string, Scope) -> string)
      modifies out
      ensures out.headers == old(out.headers) + (if isCli then [] else [StatusHeader])
      ensures out.buffers ==
        FlushExcess(old(out.buffers), obLevel).Write(render(TemplateFile(c, isCli), HandlerScope(exception, displayErrors, c, isCli)))
    {
      var kind := exception.className;
      var code := exception.code;
      var message := exception.message;
      var file := exception.file;
      var line := exception.line;
      var trace := exception.trace;

      if IsEmpty(message) {
        message := NullMessage;
      }

      var view := ProductionView;
      if !IsEmpty(StripDisabling(displayErrors)) {
        view := ExceptionView;
      }

      var templatesPath := "";
      if IsEmpty(templatesPath) {
        templatesPath := c.appPath + "views" + c.dirSep + "errors" + c.dirSep;
      }

      var title := exception.className;

      if isCli {
        templatesPath := templatesPath + "cli" + c.dirSep;
      } else {
        out.SendHeader("HTTP/1.1 401 Unauthorized", true, 500);
        templatesPath := templatesPath + "html" + c.dirSep;
      }
      assert out.headers == old(out.headers) + (if isCli then [] else [StatusHeader]);

      assert message == NormalizeMessage(exception.message);
      assert view == ViewFor(displayErrors);
      assert templatesPath == TemplatesDir(c, isCli);
      assert templatesPath + "error_exception.php" == TemplateFile(c, isCli);

      var scope := Scope(exception, kind, code, message, file, line, trace, view, templatesPath, title);
      assert scope == HandlerScope(exception, displayErrors, c, isCli);
      RenderPage(out, templatesPath + "error_exception.php", scope, render);
    }
  }

  // ---------------------------------------------------------------------
  // cleanPath (lines 133-153)
  // ---------------------------------------------------------------------

  /** The PHP constants are directory paths, never empty. */
  predicate ValidPrefixes(c: Constants) {
    c.appPath != "" && c.basePath != "" && c.sysDir != "" && c.fcPath != ""
  }

  /** The rewritten prefix and its token, in the order `cleanPath` tests them. */
  function Prefixes(c: Constants): seq<string> {
    [c.appPath, c.basePath, c.sysDir, c.fcPath]
  }

  const PathTokens: seq<string> := ["APPPATH/", "BASEPATH/", "SYSDIR/", "FCPATH/"]

  /**
   * Lines 133-153: a path under one of the four directories comes back with
   * that directory replaced by its token; any other path comes back as it is.
   */
  function CleanPath(file: string, c: Constants): (r: string)
    requires ValidPrefixes(c)
    ensures (forall j :: 0 <= j < |Prefixes(c)| ==> !StartsWith(file, Prefixes(c)[j])) ==> r == file
    ensures r == file || exists i :: 0 <= i < |PathTokens| && StartsWith(r, PathTokens[i])
  {
    assert Prefixes(c)[0] == c.appPath && Prefixes(c)[1] == c.basePath;
    assert Prefixes(c)[2] == c.sysDir && Prefixes(c)[3] == c.fcPath;
    ConcatEnds(PathTokens[0], file[Min(|c.appPath|, |file|)..]);
    ConcatEnds(PathTokens[1], file[Min(|c.basePath|, |file|)..]);
    ConcatEnds(PathTokens[2], file[Min(|c.sysDir|, |file|)..]);
    ConcatEnds(PathTokens[3], file[Min(|c.fcPath|, |file|)..]);
    if StartsWith(file, c.appPath) then "APPPATH/" + file[|c.appPath|..]
    else if StartsWith(file, c.basePath) then "BASEPATH/" + file[|c.basePath|..]
    else if StartsWith(file, c.sysDir) then "SYSDIR/" + file[|c.sysDir|..]
    else if StartsWith(file, c.fcPath) then "FCPATH/" + file[|c.fcPath|..]
    else file
  }

  /** Reference definition: the index of the first of `prefixes` that `s` starts with. */
  function FirstMatch(s: string, prefixes: seq<string>): (r: Option<nat>)
    ensures r.Some? ==> r.value < |prefixes| && StartsWith(s, prefixes[r.value])
    ensures r.Some? ==> forall j :: 0 <= j < r.value ==> !StartsWith(s, prefixes[j])
    ensures r.None? ==> forall j :: 0 <= j < |prefixes| ==> !StartsWith(s, prefixes[j])
  {
    if prefixes == [] then None
    else if StartsWith(s, prefixes[0]) then Some(0)
    else match FirstMatch(s, prefixes[1..]) {
      case None => None
      case Some(i) => Some(i + 1)
    }
  }

  /**
   * `cleanPath` rewrites the first matching prefix, and only it, to its token;
   * a path under none of the four directories comes back unchanged.
   */
  lemma CleanPathIsFirstMatch(file: string, c: Constants)
    requires ValidPrefixes(c)
    ensures CleanPath(file, c) == match FirstMatch(file, Prefixes(c)) {
      case None => file
      case Some(i) => PathTokens[i] + file[|Prefixes(c)[i]|..]
    }
  {
    var p := Prefixes(c);
    match FirstMatch(file, p) {
      case None =>
        assert !StartsWith(file, p[0]) && !StartsWith(file, p[1]);
        assert !StartsWith(file, p[2]) && !StartsWith(file, p[3]);
      case Some(i) =>
        assert i < 4;
        if i >= 1 { assert !StartsWith(file, p[0]); }
        if i >= 2 { assert !StartsWith(file, p[1]); }
        if i >= 3 { assert !StartsWith(file, p[2]); }
    }
  }

  /** The rewrite can be undone: putting the matched directory back in place of its token restores the path. */
  lemma CleanPathRestores(file: string, c: Constants, i: nat)
    requires ValidPrefixes(c)
    requires FirstMatch(file, Prefixes(c)) == Some(i)
    ensures StartsWith(CleanPath(file, c), PathTokens[i])
    ensures Prefixes(c)[i] + CleanPath(file, c)[|PathTokens[i]|..] == file
  {
    CleanPathIsFirstMatch(file, c);
    var p := Prefixes(c)[i];
    var r := CleanPath(file, c);
    assert r == PathTokens[i] + file[|p|..];
    assert r[|PathTokens[i]|..] == file[|p|..];
    assert file == file[..|p|] + file[|p|..];
  }

  // ---------------------------------------------------------------------
  // describeMemory (lines 165-177)
  // ---------------------------------------------------------------------

  datatype MemoryUnit = B | KB | MB

  function UnitSuffix(u: MemoryUnit): string {
    match u
    case B => "B"
    case KB => "KB"
    case MB => "MB"
  }

  function UnitOf(bytes: int): (u: MemoryUnit)
    ensures u == B <==> bytes < 1024
    ensures u == KB <==> 1024 <= bytes < 1048576
    ensures u == MB <==> 1048576 <= bytes
  {
    if bytes < 1024 then B else if bytes < 1048576 then KB else MB
  }

  /**
   * `scaled(bytes, d)` is the text of `round($bytes / d, 2)`, a float
   * computation left to the caller.
   */
  function DescribeMemory(bytes: int, scaled: (int, int) -> string): (r: string)
    ensures EndsWith(r, UnitSuffix(UnitOf(bytes)))
    ensures UnitOf(bytes) == B ==> r == IntToString(bytes) + "B"
    ensures UnitOf(bytes) == KB ==> r == scaled(bytes, 1024) + "KB"
    ensures UnitOf(bytes) == MB ==> r == scaled(bytes, 1048576) + "MB"
  {
    if bytes < 1024 then IntToString(bytes) + "B"
    else if bytes < 1048576 then scaled(bytes, 1024) + "KB"
    else scaled(bytes, 1048576) + "MB"
  }

  /** Below 1024 the text is the exact decimal byte count followed by "B", and reads back to it. */
  lemma DescribeMemoryExactBytes(bytes: int, scaled: (int, int) -> string)
    requires bytes < 1024
    ensures var r := DescribeMemory(bytes, scaled);
            r == IntToString(bytes) + "B" &&
            |r| >= 2 && r[|r| - 1] == 'B' && IsDecimal(r[..|r| - 1]) && ParseInt(r[..|r| - 1]) == bytes
  {
    var r := DescribeMemory(bytes, scaled);
    assert r[..|r| - 1] == IntToString(bytes);
    IntToStringRoundTrip(bytes);
  }

  function UnitRank(u: MemoryUnit): nat {
    match u
    case B => 0
    case KB => 1
    case MB => 2
  }

  /** More bytes never give a smaller unit. */
  lemma UnitMonotone(a: int, b: int)
    requires a <= b
    ensures UnitRank(UnitOf(a)) <= UnitRank(UnitOf(b))
  {
  }
}
