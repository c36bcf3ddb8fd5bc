/**
  The entry accounting of `ZipPackageExtractor`: over the entries of a zip
  archive, count the files (directories do not count) and, unless
  suppressed, warn about each lifecycle script (`Deploy.ps1`,
  `PreDeploy.ps1`, `PostDeploy.ps1`, `DeployFailed.ps1`) that sits in a
  sub-folder, since such scripts are not run. The archive is abstracted to
  its entries in order, each a path and whether it is a directory; reading
  the archive and writing the files are not modelled.
 */
module ZipPackageExtractor {
  import opened Wrappers
  import Logger

  /** The platform decides which characters separate directories in a path. */
  datatype Platform = Windows | Unix

  /** One archive entry: its path inside the archive and whether it is a directory. */
  datatype Entry = Entry(fileName: string, isDirectory: bool)

  /** The package file extensions this extractor handles. */
  function Extensions(): (r: seq<string>)
    ensures forall e :: e in r <==> e == ".zip"
  {
    [".zip"]
  }

  // Paths

  /** `/` everywhere; on Windows `\` as well. */
  predicate IsSeparator(p: Platform, c: char)
  {
    c == '/' || (p == Windows && c == '\\')
  }

  /** The index just past the last separator of `path`, or 0 when it has none. */
  function FileNameStart(p: Platform, path: string): (k: nat)
    ensures k <= |path|
    ensures forall i | k <= i < |path| :: !IsSeparator(p, path[i])
    ensures k > 0 ==> IsSeparator(p, path[k - 1])
    decreases |path|
  {
    if |path| == 0 then 0
    else if IsSeparator(p, path[|path| - 1]) then |path|
    else FileNameStart(p, path[..|path| - 1])
  }

  /** `Path.GetFileName`: the text after the last separator. */
  function GetFileName(p: Platform, path: string): string
  {
    path[FileNameStart(p, path)..]
  }

  /**
    The file name is the longest suffix of the path without a separator:
    it ends the path, holds no separator, and unless it is the whole path
    a separator comes right before it.
   */
  lemma GetFileNameIsLastSegment(p: Platform, path: string)
    ensures var r := GetFileName(p, path);
      && |r| <= |path| && path[|path| - |r|..] == r
      && (forall i | 0 <= i < |r| :: !IsSeparator(p, r[i]))
      && (|r| < |path| ==> IsSeparator(p, path[|path| - |r| - 1]))
  {
  }

  /**
    `Path.GetDirectoryName`: the text before the last separator; the root
    separator itself when that is the only separator and it comes first;
    empty when there is no separator.
   */
  function GetDirectoryName(p: Platform, path: string): string
  {
    var k := FileNameStart(p, path);
    if k == 0 then "" else if k == 1 then path[..1] else path[..k - 1]
  }

  /**
    The directory part is empty exactly when the path has no separator.
    Otherwise it is a prefix of the path: the root separator alone, or the
    text right before the separator that precedes the file name.
   */
  lemma GetDirectoryNameIsPrefix(p: Platform, path: string)
    ensures var r := GetDirectoryName(p, path);
      && (r == [] <==> forall i | 0 <= i < |path| :: !IsSeparator(p, path[i]))
      && |r| <= |path| && path[..|r|] == r
      && (r != [] ==>
            || (|r| == 1 && IsSeparator(p, path[0]) && GetFileName(p, path) == path[1..])
            || (|r| < |path| && IsSeparator(p, path[|r|]) && GetFileName(p, path) == path[|r| + 1..]))
  {
  }

  // Text

  /** The characters `char.IsWhiteSpace` accepts: the Unicode space, line and paragraph separators and the controls U+0009-U+000D, U+0085. */
  predicate IsWhiteSpace(c: char)
  {
    || c == ' ' || '\t' <= c <= '\r' || c == '\U{85}' || c == '\U{A0}' || c == '\U{1680}'
    || '\U{2000}' <= c <= '\U{200A}' || c == '\U{2028}' || c == '\U{2029}' || c == '\U{202F}'
    || c == '\U{205F}' || c == '\U{3000}'
  }

  /** `string.IsNullOrWhiteSpace` on a non-null string: empty or all white space. */
  predicate IsNullOrWhiteSpace(s: string)
  {
    forall i | 0 <= i < |s| :: IsWhiteSpace(s[i])
  }

  function ToLowerAscii(c: char): char
  {
    if 'A' <= c <= 'Z' then (c as int - 'A' as int + 'a' as int) as char else c
  }

  /** Ordinal comparison that ignores the case of ASCII letters. */
  predicate EqualsIgnoreCase(a: string, b: string)
  {
    |a| == |b| && forall i | 0 <= i < |a| :: ToLowerAscii(a[i]) == ToLowerAscii(b[i])
  }

  /** The string with its ASCII letters in lower case. */
  function ToLowerAsciiString(s: string): (r: string)
    ensures |r| == |s|
  {
    seq(|s|, i requires 0 <= i < |s| => ToLowerAscii(s[i]))
  }

  /** Two strings are equal ignoring case exactly when their lower-case forms are equal. */
  lemma EqualsIgnoreCaseByLowering(a: string, b: string)
    ensures EqualsIgnoreCase(a, b) <==> ToLowerAsciiString(a) == ToLowerAsciiString(b)
  {
    if ToLowerAsciiString(a) == ToLowerAsciiString(b) {
      forall i | 0 <= i < |a|
        ensures ToLowerAscii(a[i]) == ToLowerAscii(b[i])
      {
        assert ToLowerAsciiString(a)[i] == ToLowerAsciiString(b)[i];
      }
    }
  }

  /** The file names of the lifecycle scripts a deployment runs from the package root. */
  predicate IsLifecycleScript(fileName: string)
  {
    || EqualsIgnoreCase(fileName, "Deploy.ps1")
    || EqualsIgnoreCase(fileName, "PreDeploy.ps1")
    || EqualsIgnoreCase(fileName, "PostDeploy.ps1")
    || EqualsIgnoreCase(fileName, "DeployFailed.ps1")
  }

  // Warnings

  const WarningPrefix: string := "The script file \""

  /** The fixed text after the path, in pieces short enough to check one at a time. */
  const WarningSuffixHead: string :=
    "\" contained within "
    + "the package will "
    + "not be executed "
    + "because it is "
    + "contained within a "

  const WarningSuffixTail: string :=
    "child folder. As of "
    + "Octopus Deploy 2.4, "
    + "scripts in sub "
    + "folders will not be "
    + "executed."

  const WarningSuffix: string := WarningSuffixHead + WarningSuffixTail

  /** The warning written for a nested script; it quotes the entry path. */
  function WarningText(path: string): (text: string)
    ensures |text| == |WarningPrefix| + |path| + |WarningSuffix|
    ensures text[|WarningPrefix|..|WarningPrefix| + |path|] == path
  {
    var text := WarningPrefix + path + WarningSuffix;
    assert text[|WarningPrefix|..|WarningPrefix| + |path|] == path;
    text
  }

  /** The warning for an entry path, if it names a lifecycle script in a sub-folder. */
  function WarnIfScriptInSubFolder(p: Platform, path: string): (r: Option<string>)
    ensures r.Some? <==> IsLifecycleScript(GetFileName(p, path)) && !IsNullOrWhiteSpace(GetDirectoryName(p, path))
    ensures r.Some? ==> r.value == WarningText(path)
    ensures r.Some? ==> r.value[|WarningPrefix|..|WarningPrefix| + |path|] == path
  {
    var fileName := GetFileName(p, path);
    if IsLifecycleScript(fileName) then
      var directoryName := GetDirectoryName(p, path);
      if !IsNullOrWhiteSpace(directoryName) then Some(WarningText(path)) else None
    else None
  }

  /**
    Independent description of a nested lifecycle script: some separator at
    index `k - 1` is the last one, what follows it is a lifecycle script
    name, and what precedes it is either nothing (a rooted path) or not
    blank.
   */
  ghost predicate IsNestedScript(p: Platform, path: string)
  {
    exists k :: NestedScriptAt(p, path, k)
  }

  ghost predicate NestedScriptAt(p: Platform, path: string, k: int)
  {
    && 0 < k <= |path|
    && IsSeparator(p, path[k - 1])
    && (forall i | k <= i < |path| :: !IsSeparator(p, path[i]))
    && IsLifecycleScript(path[k..])
    && (k == 1 || !IsNullOrWhiteSpace(path[..k - 1]))
  }

  /** The last separator is unique: any index past a separator with none after it is `FileNameStart`. */
  lemma {:induction false} FileNameStartUnique(p: Platform, path: string, k: nat)
    requires 0 < k <= |path| && IsSeparator(p, path[k - 1])
    requires forall i | k <= i < |path| :: !IsSeparator(p, path[i])
    ensures FileNameStart(p, path) == k
    decreases |path|
  {
    if k < |path| {
      var shorter := path[..|path| - 1];
      assert forall i | k <= i < |shorter| :: shorter[i] == path[i];
      FileNameStartUnique(p, shorter, k);
    }
  }

  /** The extractor warns about exactly the nested lifecycle scripts. */
  lemma WarnsIffNestedScript(p: Platform, path: string)
    ensures WarnIfScriptInSubFolder(p, path).Some? <==> IsNestedScript(p, path)
  {
    var k := FileNameStart(p, path);
    if WarnIfScriptInSubFolder(p, path).Some? {
      assert k != 0;
      assert NestedScriptAt(p, path, k);
    }
    if IsNestedScript(p, path) {
      var j :| NestedScriptAt(p, path, j);
      FileNameStartUnique(p, path, j);
    }
  }

  /** A lifecycle script at the package root (a path without separator) never draws a warning. */
  lemma RootScriptNeverWarns(p: Platform, path: string)
    requires forall i | 0 <= i < |path| :: !IsSeparator(p, path[i])
    ensures WarnIfScriptInSubFolder(p, path).None?
  {
    assert FileNameStart(p, path) == 0;
  }

  /** Handles one entry: directories are skipped; a file is counted, then checked unless warnings are suppressed. */
  function ProcessEvent(p: Platform, filesExtracted: nat, entry: Entry, suppressNestedScriptWarning: bool)
    : (r: (nat, Option<string>))
    ensures entry.isDirectory ==> r == (filesExtracted, None)
    ensures !entry.isDirectory ==> r.0 == filesExtracted + 1
    ensures suppressNestedScriptWarning ==> r.1.None?
    ensures r.1.Some? <==> !entry.isDirectory && !suppressNestedScriptWarning && IsNestedScript(p, entry.fileName)
    ensures r.1.Some? ==> r.1.value == WarningText(entry.fileName)
  {
    WarnsIffNestedScript(p, entry.fileName);
    if entry.isDirectory then (filesExtracted, None)
    else (filesExtracted + 1, if !suppressNestedScriptWarning then WarnIfScriptInSubFolder(p, entry.fileName) else None)
  }

  // Reference definitions over an entry sequence.

  /** The file entries, in archive order. */
  function Files(entries: seq<Entry>): (r: seq<Entry>)
    ensures |r| <= |entries|
    decreases |entries|
  {
    if entries == [] then []
    else Files(entries[..|entries| - 1]) + (if entries[|entries| - 1].isDirectory then [] else [entries[|entries| - 1]])
  }

  /** The warnings due for an entry sequence, in archive order: one per nested lifecycle script file. */
  ghost function ScriptWarnings(p: Platform, entries: seq<Entry>): seq<string>
    decreases |entries|
  {
    if entries == [] then []
    else
      var e := entries[|entries| - 1];
      ScriptWarnings(p, entries[..|entries| - 1])
        + (if !e.isDirectory && IsNestedScript(p, e.fileName) then [WarningText(e.fileName)] else [])
  }

  function WarnCalls(warnings: seq<string>): (calls: seq<Logger.Call>)
    ensures |calls| == |warnings|
    ensures forall i | 0 <= i < |warnings| :: calls[i] == Logger.WarnCall(warnings[i])
  {
    seq(|warnings|, i requires 0 <= i < |warnings| => Logger.WarnCall(warnings[i]))
  }

  /**
    Extracts an archive of the given entries: returns the number of files,
    with each warning written through the logger's `Warn`.
   */
  method Extract(p: Platform, entries: seq<Entry>, suppressNestedScriptWarning: bool, log: Logger.State)
    returns (filesExtracted: nat, log': Logger.State)
    ensures filesExtracted == |Files(entries)|
    ensures log' == Logger.Run(log, WarnCalls(if suppressNestedScriptWarning then [] else ScriptWarnings(p, entries)))
  {
    filesExtracted := 0;
    log' := log;
    ghost var warnings: seq<string> := [];
    var i := 0;
    while i < |entries|
      invariant 0 <= i <= |entries|
      invariant filesExtracted == |Files(entries[..i])|
      invariant warnings == (if suppressNestedScriptWarning then [] else ScriptWarnings(p, entries[..i]))
      invariant log' == Logger.Run(log, WarnCalls(warnings))
    {
      var r := ProcessEvent(p, filesExtracted, entries[i], suppressNestedScriptWarning);
      PrefixStep(p, entries, i);
      filesExtracted := r.0;
      if r.1.Some? {
        RunWarnCallsSnoc(log, warnings, r.1.value);
        log' := Logger.Warn(log', r.1.value);
        warnings := warnings + [r.1.value];
      }
      i := i + 1;
    }
    assert entries[..i] == entries;
  }

  lemma PrefixStep(p: Platform, entries: seq<Entry>, i: nat)
    requires i < |entries|
    ensures Files(entries[..i + 1]) == Files(entries[..i]) + (if entries[i].isDirectory then [] else [entries[i]])
    ensures ScriptWarnings(p, entries[..i + 1]) == ScriptWarnings(p, entries[..i])
      + (if !entries[i].isDirectory && IsNestedScript(p, entries[i].fileName) then [WarningText(entries[i].fileName)] else [])
  {
    assert entries[..i + 1][..i] == entries[..i];
  }

  lemma {:induction false} RunAppend(st: Logger.State, a: seq<Logger.Call>, b: seq<Logger.Call>)
    ensures Logger.Run(st, a + b) == Logger.Run(Logger.Run(st, a), b)
    decreases |a|
  {
    if a != [] {
      assert (a + b)[1..] == a[1..] + b;
      RunAppend(Logger.Apply(st, a[0]), a[1..], b);
    } else {
      assert a + b == b;
    }
  }

  /** Writing one more warning is one more `Warn` call on the log so far. */
  lemma RunWarnCallsSnoc(st: Logger.State, warnings: seq<string>, w: string)
    ensures Logger.Run(st, WarnCalls(warnings + [w])) == Logger.Warn(Logger.Run(st, WarnCalls(warnings)), w)
  {
    assert WarnCalls(warnings + [w]) == WarnCalls(warnings) + [Logger.WarnCall(w)];
    RunAppend(st, WarnCalls(warnings), [Logger.WarnCall(w)]);
    assert [Logger.WarnCall(w)][1..] == [];
  }

  /** Each file draws at most one warning and a directory none, so there are no more warnings than files. */
  lemma {:induction false} WarningsAtMostOnePerFile(p: Platform, entries: seq<Entry>)
    ensures |ScriptWarnings(p, entries)| <= |Files(entries)|
    decreases |entries|
  {
    if entries != [] {
      WarningsAtMostOnePerFile(p, entries[..|entries| - 1]);
    }
  }

  /** `w` is the warning for some file entry of `entries` that is a nested lifecycle script. */
  ghost predicate QuotesNestedScript(p: Platform, entries: seq<Entry>, w: string)
  {
    exists j | 0 <= j < |entries| ::
      && !entries[j].isDirectory
      && IsNestedScript(p, entries[j].fileName)
      && w == WarningText(entries[j].fileName)
  }

  lemma QuotesNestedScriptExtends(p: Platform, init: seq<Entry>, entries: seq<Entry>, w: string)
    requires |init| <= |entries| && init == entries[..|init|]
    requires QuotesNestedScript(p, init, w)
    ensures QuotesNestedScript(p, entries, w)
  {
    var j :| 0 <= j < |init| && !init[j].isDirectory && IsNestedScript(p, init[j].fileName)
             && w == WarningText(init[j].fileName);
    assert entries[j] == init[j];
  }

  /** Every warning quotes the path of a file entry that is a nested lifecycle script. */
  lemma {:induction false} WarningsQuoteNestedScripts(p: Platform, entries: seq<Entry>)
    ensures forall i | 0 <= i < |ScriptWarnings(p, entries)| :: QuotesNestedScript(p, entries, ScriptWarnings(p, entries)[i])
    decreases |entries|
  {
    if entries != [] {
      var last := |entries| - 1;
      var init := entries[..last];
      WarningsQuoteNestedScripts(p, init);
      var ws, wsInit := ScriptWarnings(p, entries), ScriptWarnings(p, init);
      var nested := !entries[last].isDirectory && IsNestedScript(p, entries[last].fileName);
      assert ws == wsInit + (if nested then [WarningText(entries[last].fileName)] else []);
      forall i | 0 <= i < |ws|
        ensures QuotesNestedScript(p, entries, ws[i])
      {
        if i < |wsInit| {
          assert ws[i] == wsInit[i];
          QuotesNestedScriptExtends(p, init, entries, wsInit[i]);
        } else {
          assert nested && ws[i] == WarningText(entries[last].fileName);
        }
      }
    }
  }

  lemma WarningSuffixHeadIsSingleLine()
    ensures Logger.SingleLine(WarningSuffixHead)
  {
    var p0, p1, p2, p3, p4 :=
      "\" contained within ", "the package will ", "not be executed ", "because it is ", "contained within a ";
    assert Logger.SingleLine(p0);
    assert Logger.SingleLine(p1);
    assert Logger.SingleLine(p2);
    assert Logger.SingleLine(p3);
    assert Logger.SingleLine(p4);
    Logger.SingleLineConcat(p0, p1);
    Logger.SingleLineConcat(p0 + p1, p2);
    Logger.SingleLineConcat(p0 + p1 + p2, p3);
    Logger.SingleLineConcat(p0 + p1 + p2 + p3, p4);
  }

  lemma WarningSuffixTailIsSingleLine()
    ensures Logger.SingleLine(WarningSuffixTail)
  {
    var p0, p1, p2, p3, p4 :=
      "child folder. As of ", "Octopus Deploy 2.4, ", "scripts in sub ", "folders will not be ", "executed.";
    assert Logger.SingleLine(p0);
    assert Logger.SingleLine(p1);
    assert Logger.SingleLine(p2);
    assert Logger.SingleLine(p3);
    assert Logger.SingleLine(p4);
    Logger.SingleLineConcat(p0, p1);
    Logger.SingleLineConcat(p0 + p1, p2);
    Logger.SingleLineConcat(p0 + p1 + p2, p3);
    Logger.SingleLineConcat(p0 + p1 + p2 + p3, p4);
  }

  lemma WarningSuffixIsSingleLine()
    ensures Logger.SingleLine(WarningSuffix)
  {
    WarningSuffixHeadIsSingleLine();
    WarningSuffixTailIsSingleLine();
    Logger.SingleLineConcat(WarningSuffixHead, WarningSuffixTail);
  }

  /** The warning for a path without line breaks is a single line. */
  lemma WarningIsSingleLine(path: string)
    requires Logger.SingleLine(path)
    ensures Logger.SingleLine(WarningText(path))
  {
    assert Logger.SingleLine(WarningPrefix);
    WarningSuffixIsSingleLine();
    Logger.SingleLineConcat(WarningPrefix, path);
    Logger.SingleLineConcat(WarningPrefix + path, WarningSuffix);
  }

  lemma WarningIsPlain(path: string)
    ensures !Logger.IsModeMarker(WarningText(path))
  {
    var text := WarningText(path);
    assert text[0] == 'T';
    assert text[..10][0] == 'T';
  }

  lemma {:induction false} AttributedWarnings(warnings: seq<string>)
    ensures Logger.Attributed(WarnCalls(warnings))
         == seq(|warnings|, i requires 0 <= i < |warnings| => (Some(Logger.WarningMode), warnings[i]))
    decreases |warnings|
  {
    if warnings != [] {
      AttributedWarnings(warnings[1..]);
      assert WarnCalls(warnings)[1..] == WarnCalls(warnings[1..]);
    }
  }

  /**
    When no entry path holds a line break, the warnings an extraction
    writes read back, through the orchestrator's `Interpret`, as exactly
    the script warnings, each in the warning mode; standard error is
    untouched.
   */
  lemma ExtractWarningsReadBack(log: Logger.State, p: Platform, entries: seq<Entry>)
    requires forall k | 0 <= k < |entries| :: Logger.SingleLine(entries[k].fileName)
    ensures var log' := Logger.Run(log, WarnCalls(ScriptWarnings(p, entries)));
      && log'.stderr == log.stderr
      && |log.stdout| <= |log'.stdout|
      && Logger.Interpret(log.mode, log'.stdout[|log.stdout|..])
         == seq(|ScriptWarnings(p, entries)|, i requires 0 <= i < |ScriptWarnings(p, entries)| =>
                (Some(Logger.WarningMode), ScriptWarnings(p, entries)[i]))
  {
    var ws := ScriptWarnings(p, entries);
    var calls := WarnCalls(ws);
    WarningsQuoteNestedScripts(p, entries);
    assert Logger.PlainMessages(calls) by {
      forall k | 0 <= k < |calls| && Logger.ModeOf(calls[k]).Some?
        ensures Logger.SingleLine(calls[k].message) && !Logger.IsModeMarker(calls[k].message)
      {
        var j :| 0 <= j < |entries| && ws[k] == WarningText(entries[j].fileName);
        WarningIsPlain(entries[j].fileName);
        WarningIsSingleLine(entries[j].fileName);
      }
    }
    Logger.InterpretRun(log, calls);
    Logger.RunStderr(log, calls);
    ErrorMessagesOfWarnings(ws);
    AttributedWarnings(ws);
  }

  lemma {:induction false} ErrorMessagesOfWarnings(warnings: seq<string>)
    ensures Logger.ErrorMessages(WarnCalls(warnings)) == []
    decreases |warnings|
  {
    if warnings != [] {
      ErrorMessagesOfWarnings(warnings[1..]);
      assert WarnCalls(warnings)[1..] == WarnCalls(warnings[1..]);
    }
  }
}
