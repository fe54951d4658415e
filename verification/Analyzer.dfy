/**
  The cppcheck analyzer: how it reads a project's suppressions file and how
  it assembles the cppcheck command line for a list of source files. Hash
  sets are enumerated in insertion order, so every collection here is a
  sequence without repetition built by appending what is new.
 */
module Analyzer {
  import opened Text
  import opened Suppressions
  import opened SourceFiles

  // ---------------------------------------------------------------------------
  // readSuppressions

  /** The name of the file `readSuppressions` looks for in a project's base
      directory; a null base path reads as "". */
  function SuppressionsFilePath(projectBasePath: Option<string>): string {
    OrEmpty(projectBasePath) + "\\suppressions.cfg"
  }
  /** The file looked for sits in the base directory: the base path (empty
      when null) followed by the separator and the file name. */
  lemma SuppressionsFileInBaseDirectory(projectBasePath: Option<string>)
    ensures var path := SuppressionsFilePath(projectBasePath);
            && StartsWith(path, OrEmpty(projectBasePath))
            && EndsWith(path, "\\suppressions.cfg")
            && |path| == |OrEmpty(projectBasePath)| + |"\\suppressions.cfg"|
  {
  }


  /** Any line holding a `[` anywhere opens a section. */
  predicate IsGroupLine(line: string) {
    '[' in line
  }

  /** The read loop of `readSuppressions` from the current group on: only
      normal forms of lines in group `cppcheck` are collected. */
  function ReadLines(lines: seq<string>, group: string, found: seq<string>): (r: seq<string>)
    ensures Distinct(found) ==> Distinct(r)
    ensures forall x :: x in found ==> x in r
    decreases |lines|
  {
    if |lines| == 0 then found
    else if IsGroupLine(lines[0]) then ReadLines(lines[1..], SectionName(lines[0]), found)
    else if group == SuppressionsSection && NormaliseSuppression(lines[0]).Some? then
      ReadLines(lines[1..], group, Insert(found, NormaliseSuppression(lines[0]).value))
    else ReadLines(lines[1..], group, found)
  }

  /** `readSuppressions`: the suppressions of the project at `projectBasePath`;
      no file, no suppressions. */
  function ReadSuppressions(fs: map<string, seq<string>>, projectBasePath: Option<string>): (r: seq<string>)
    ensures Distinct(r)
    ensures SuppressionsFilePath(projectBasePath) !in fs ==> r == []
  {
    var path := SuppressionsFilePath(projectBasePath);
    if path in fs then ReadLines(fs[path], "", []) else []
  }

  /** The group in effect at line `i`: set by the last group line before it,
      or `group` if there is none. */
  function GroupAt(lines: seq<string>, group: string, i: nat): string
    requires i <= |lines|
  {
    if i == 0 then group
    else if IsGroupLine(lines[i - 1]) then SectionName(lines[i - 1])
    else GroupAt(lines, group, i - 1)
  }

  /** A line `readSuppressions` keeps: not a group line, in group `cppcheck`,
      with a non-empty normal form. */
  predicate Kept(lines: seq<string>, group: string, i: nat)
    requires i < |lines|
  {
    && !IsGroupLine(lines[i])
    && GroupAt(lines, group, i) == SuppressionsSection
    && NormaliseSuppression(lines[i]).Some?
  }

  lemma {:induction false} GroupAtShift(lines: seq<string>, group: string, i: nat)
    requires 0 < |lines| && i < |lines|
    ensures GroupAt(lines, group, i + 1)
            == GroupAt(lines[1..], if IsGroupLine(lines[0]) then SectionName(lines[0]) else group, i)
  {
    if i > 0 {
      GroupAtShift(lines, group, i - 1);
      assert lines[1..][i - 1] == lines[i];
    }
  }

  /** `readSuppressions` collects exactly the normal forms of the kept lines. */
  lemma {:induction false} ReadLinesContents(lines: seq<string>, group: string, found: seq<string>)
    ensures forall x :: x in ReadLines(lines, group, found) <==>
              x in found || exists i :: 0 <= i < |lines| && Kept(lines, group, i) && NormaliseSuppression(lines[i]) == Some(x)
    decreases |lines|
  {
    if |lines| > 0 {
      var next := if IsGroupLine(lines[0]) then SectionName(lines[0]) else group;
      var found' := if !IsGroupLine(lines[0]) && group == SuppressionsSection && NormaliseSuppression(lines[0]).Some?
                    then Insert(found, NormaliseSuppression(lines[0]).value) else found;
      assert ReadLines(lines, group, found) == ReadLines(lines[1..], next, found');
      ReadLinesContents(lines[1..], next, found');
      forall i | 0 <= i < |lines[1..]|
        ensures Kept(lines[1..], next, i) <==> Kept(lines, group, i + 1)
      {
        GroupAtShift(lines, group, i);
        assert lines[1..][i] == lines[i + 1];
      }
      forall x
        ensures (exists i :: 0 <= i < |lines| && Kept(lines, group, i) && NormaliseSuppression(lines[i]) == Some(x))
                <==> (Kept(lines, group, 0) && NormaliseSuppression(lines[0]) == Some(x))
                     || exists i :: 0 <= i < |lines[1..]| && Kept(lines[1..], next, i) && NormaliseSuppression(lines[1..][i]) == Some(x)
      {
        if exists i :: 0 <= i < |lines| && Kept(lines, group, i) && NormaliseSuppression(lines[i]) == Some(x) {
          var i :| 0 <= i < |lines| && Kept(lines, group, i) && NormaliseSuppression(lines[i]) == Some(x);
          if i > 0 {
            assert lines[1..][i - 1] == lines[i];
            assert Kept(lines[1..], next, i - 1);
          }
        }
        if exists i :: 0 <= i < |lines[1..]| && Kept(lines[1..], next, i) && NormaliseSuppression(lines[1..][i]) == Some(x) {
          var i :| 0 <= i < |lines[1..]| && Kept(lines[1..], next, i) && NormaliseSuppression(lines[1..][i]) == Some(x);
          assert lines[1..][i] == lines[i + 1];
          assert Kept(lines, group, i + 1);
        }
      }
    }
  }

  /** Where no line holds a `[` except at its start, `readSuppressions` and the
      settings loader agree on the suppressions of a file. */
  lemma {:induction false} ReadAgreesWithLoader(lines: seq<string>, group: string, found: seq<string>, rules: Rules)
    requires forall i :: 0 <= i < |lines| && IsGroupLine(lines[i]) ==> StartsWith(lines[i], "[")
    requires forall x :: x in found <==> x in rules.suppressionLines
    ensures forall x :: x in ReadLines(lines, group, found) <==> x in LoadLines(lines, group, rules).suppressionLines
    decreases |lines|
  {
    if |lines| > 0 {
      var line := lines[0];
      assert forall i :: 0 <= i < |lines[1..]| ==> lines[1..][i] == lines[i + 1];
      if StartsWith(line, "[") {
        assert line[..1][0] == '[';
        ReadAgreesWithLoader(lines[1..], SectionName(line), found, rules);
      } else {
        assert !IsGroupLine(line);
        var rules' := AddToSection(rules, group, line);
        var found' := if group == SuppressionsSection && NormaliseSuppression(line).Some?
                      then Insert(found, NormaliseSuppression(line).value) else found;
        assert forall x :: x in found' <==> x in rules'.suppressionLines;
        ReadAgreesWithLoader(lines[1..], group, found', rules');
      }
    }
  }

  /** A suppression holding a `[` past its first character, such as an array
      subscript in a path, is read by `readSuppressions` as a group line: it is
      not kept, and the suppressions after it land in another group and are
      lost, whereas the settings loader keeps both. */
  lemma BracketInsideSuppressionOpensGroup(a: string, b: string)
    requires a != "" && b != ""
    requires '[' in a && !StartsWith(a, "[") && SectionName(a) != SuppressionsSection
    requires '[' !in b && !StartsWith(b, "[")
    ensures ReadLines([SuppressionsHeader, a, b], "", []) == []
    ensures LoadLines([SuppressionsHeader, a, b], "", NoRules).suppressionLines
            == {NormaliseSuppression(a).value, NormaliseSuppression(b).value}
  {
    var lines := [SuppressionsHeader, a, b];
    var none: seq<string> := [];
    assert SuppressionsHeader[0] == '[';
    assert SectionName(SuppressionsHeader) == SuppressionsSection by {
      SuppressionsHeaderNamesSection();
    }
    assert StartsWith(SuppressionsHeader, "[") by {
      assert SuppressionsHeader[..1] == "[";
    }
    assert lines[1..] == [a, b];
    assert lines[1..][1..] == [b];
    assert ReadLines(lines, "", none) == ReadLines([a, b], SuppressionsSection, none);
    assert ReadLines([a, b], SuppressionsSection, none) == ReadLines([b], SectionName(a), none);
    assert [b][1..] == none;
    assert ReadLines([b], SectionName(a), none) == ReadLines(none, SectionName(a), none);
    var r1 := AddSuppressionLine(NoRules, a);
    var r2 := AddSuppressionLine(r1, b);
    assert LoadLines(lines, "", NoRules) == LoadLines([a, b], SuppressionsSection, NoRules);
    assert LoadLines([a, b], SuppressionsSection, NoRules) == LoadLines([b], SuppressionsSection, r1);
    assert LoadLines([b], SuppressionsSection, r1) == LoadLines(none, SuppressionsSection, r2);
  }

  // ---------------------------------------------------------------------------
  // The command line

  /** The compiler version of the project's toolset. */
  datatype CompilerVersion = Vc2010 | Vc2012 | Vc2013 | VcFuture

  /** A file handed to the analyzer, with the compiler version of its project. */
  datatype AnalyzedFile = AnalyzedFile(source: SourceFile, compiler: CompilerVersion)

  /** The user settings `analyze` reads. */
  datatype Settings = Settings(
    defaultArguments: string,
    inconclusiveChecksEnabled: bool,
    fileOnlyCheckCurrentConfig: bool,
    projectOnlyCheckCurrentConfig: bool)

  /** The parts of the cppcheck command line, each list in the order the
      arguments appear. */
  datatype Arguments = Arguments(
    defaults: string,
    relativePaths: string,
    jobs: nat,
    inconclusive: bool,
    suppressions: seq<string>,
    includePaths: seq<string>,
    files: seq<string>,
    macros: seq<string>)

  /** The suppressions every run starts with. */
  const BuiltinSuppressions: seq<string> := [
    "passedByValue", "cstyleCast", "missingIncludeSystem", "unusedStructMember",
    "unmatchedSuppression", "class_X_Y", "missingInclude", "constStatement",
    "unusedPrivateFunction"]

  lemma BuiltinSuppressionsDistinct()
    ensures Distinct(BuiltinSuppressions)
  {
  }

  /** An include path mentioning Qt in any letter case gets no `-I` argument. */
  predicate IsQtPath(path: string) {
    Contains(ToLower(path), "qt")
  }

  /** Whether the current macro configuration is spelled out: a single file
      under the file-only setting, several under the project-only one. */
  predicate DefinesMacros(count: nat, settings: Settings)
    ensures count == 0 ==> !DefinesMacros(count, settings)
    ensures count == 1 ==> (DefinesMacros(count, settings) <==> settings.fileOnlyCheckCurrentConfig)
    ensures count > 1 ==> (DefinesMacros(count, settings) <==> settings.projectOnlyCheckCurrentConfig)
  {
    || (count == 1 && settings.fileOnlyCheckCurrentConfig)
    || (count > 1 && settings.projectOnlyCheckCurrentConfig)
  }

  /** The `_MSC_VER` macro of a compiler version: the same name with a
      four-digit value. */
  function MscVersion(v: CompilerVersion): (macro: string)
    ensures StartsWith(macro, "_MSC_VER=") && |macro| == |"_MSC_VER="| + 4
  {
    match v
    case Vc2010 => "_MSC_VER=1600"
    case Vc2012 => "_MSC_VER=1700"
    case Vc2013 => "_MSC_VER=1800"
    case VcFuture => "_MSC_VER=1900"
  }

  /** Two compiler versions never define the same `_MSC_VER`. */
  lemma MscVersionsDiffer(v: CompilerVersion, w: CompilerVersion)
    requires v != w
    ensures MscVersion(v) != MscVersion(w)
  {
  }

  /** The macros defined whatever the files say, for the first file's compiler. */
  function PlatformMacros(v: CompilerVersion, is64: bool, isDebug: bool): seq<string> {
    ["__cplusplus=199711L", MscVersion(v), "WIN32", "_WIN32"]
    + (if is64 then ["_M_X64", "_WIN64"] else ["_M_IX86"])
    + (if isDebug then ["_DEBUG"] else [])
  }

  /** The fixed macros always include `__cplusplus`, the compiler's
      `_MSC_VER`, `WIN32` and `_WIN32`; the 64-bit pair exactly for a 64-bit
      configuration, `_M_IX86` exactly otherwise, and `_DEBUG` exactly for a
      debug one. */
  lemma PlatformMacrosFacts(v: CompilerVersion, is64: bool, isDebug: bool)
    ensures var macros := PlatformMacros(v, is64, isDebug);
            && "__cplusplus=199711L" in macros && MscVersion(v) in macros
            && "WIN32" in macros && "_WIN32" in macros
            && ("_M_X64" in macros <==> is64) && ("_WIN64" in macros <==> is64)
            && ("_M_IX86" in macros <==> !is64)
            && ("_DEBUG" in macros <==> isDebug)
  {
  }

  /** No fixed macro is defined twice. */
  lemma PlatformMacrosDistinct(v: CompilerVersion, is64: bool, isDebug: bool)
    ensures Distinct(PlatformMacros(v, is64, isDebug))
  {
  }

  predicate InSuppressionsOf(x: string, fs: map<string, seq<string>>, files: seq<AnalyzedFile>) {
    exists k :: 0 <= k < |files| && x in ReadSuppressions(fs, files[k].source.baseProjectPath)
  }

  predicate InIncludePathsOf(x: string, files: seq<AnalyzedFile>) {
    exists k :: 0 <= k < |files| && x in files[k].source.includePaths
  }

  predicate InMacrosOf(x: string, files: seq<AnalyzedFile>) {
    exists k :: 0 <= k < |files| && x in files[k].source.macros
  }

  /** The distinct base paths of the files, in order of first appearance. */
  method ProjectPaths(files: seq<AnalyzedFile>) returns (paths: seq<Option<string>>)
    ensures Distinct(paths)
    ensures forall p :: p in paths <==> exists k :: 0 <= k < |files| && files[k].source.baseProjectPath == p
  {
    paths := [];
    var k := 0;
    while k < |files|
      invariant 0 <= k <= |files|
      invariant Distinct(paths)
      invariant forall p :: p in paths <==> exists j :: 0 <= j < k && files[j].source.baseProjectPath == p
    {
      var p := files[k].source.baseProjectPath;
      if p !in paths {
        paths := paths + [p];
      }
      k := k + 1;
    }
  }

  /** Adds `xs` to `acc` one by one, as `HashSet.Add` would. */
  method AddAll(acc: seq<string>, xs: seq<string>) returns (r: seq<string>)
    requires Distinct(acc)
    ensures Distinct(r)
    ensures forall x :: x in r <==> x in acc || x in xs
  {
    r := acc;
    var j := 0;
    while j < |xs|
      invariant 0 <= j <= |xs|
      invariant Distinct(r)
      invariant forall x :: x in r <==> x in acc || x in xs[..j]
    {
      if xs[j] !in r {
        r := r + [xs[j]];
      }
      assert xs[..j + 1] == xs[..j] + [xs[j]];
      j := j + 1;
    }
  }

  /** The suppression ids of a run: the built-in ones and those of every
      distinct project base path. */
  method CollectSuppressions(fs: map<string, seq<string>>, files: seq<AnalyzedFile>) returns (ids: seq<string>)
    ensures Distinct(ids)
    ensures forall x :: x in ids <==> x in BuiltinSuppressions || InSuppressionsOf(x, fs, files)
  {
    var paths := ProjectPaths(files);
    BuiltinSuppressionsDistinct();
    ids := BuiltinSuppressions;
    var k := 0;
    while k < |paths|
      invariant 0 <= k <= |paths|
      invariant Distinct(ids)
      invariant forall x :: x in ids <==>
                  x in BuiltinSuppressions || exists j :: 0 <= j < k && x in ReadSuppressions(fs, paths[j])
    {
      ids := AddAll(ids, ReadSuppressions(fs, paths[k]));
      k := k + 1;
    }
    forall x
      ensures (exists j :: 0 <= j < |paths| && x in ReadSuppressions(fs, paths[j])) <==> InSuppressionsOf(x, fs, files)
    {
      if exists j :: 0 <= j < |paths| && x in ReadSuppressions(fs, paths[j]) {
        var j :| 0 <= j < |paths| && x in ReadSuppressions(fs, paths[j]);
        assert paths[j] in paths;
        var k :| 0 <= k < |files| && files[k].source.baseProjectPath == paths[j];
        assert x in ReadSuppressions(fs, files[k].source.baseProjectPath);
      }
      if InSuppressionsOf(x, fs, files) {
        var k :| 0 <= k < |files| && x in ReadSuppressions(fs, files[k].source.baseProjectPath);
        var p := files[k].source.baseProjectPath;
        assert p in paths;
        var j :| 0 <= j < |paths| && paths[j] == p;
      }
    }
  }

  /** The include paths of all files without repetition. */
  method CollectIncludePaths(files: seq<AnalyzedFile>) returns (paths: seq<string>)
    ensures Distinct(paths)
    ensures forall x :: x in paths <==> InIncludePathsOf(x, files)
  {
    paths := [];
    var k := 0;
    while k < |files|
      invariant 0 <= k <= |files|
      invariant Distinct(paths)
      invariant forall x :: x in paths <==> InIncludePathsOf(x, files[..k])
    {
      paths := AddAll(paths, files[k].source.includePaths);
      assert forall j :: 0 <= j < k ==> files[..k + 1][j] == files[..k][j];
      assert files[..k + 1][k] == files[k];
      k := k + 1;
    }
    assert files[..|files|] == files;
  }

  /** The include paths that get an `-I` argument, in order. */
  function IncludeArguments(paths: seq<string>): (r: seq<string>)
    ensures Distinct(paths) ==> Distinct(r)
    ensures forall x :: x in r <==> x in paths && !IsQtPath(x)
  {
    if |paths| == 0 then []
    else
      var rest := IncludeArguments(paths[1..]);
      assert forall x :: x in paths[1..] ==> x in paths;
      if IsQtPath(paths[0]) then rest else [paths[0]] + rest
  }

  /** The macros of a run when they are spelled out: the platform macros and
      every file's macros, without repetition. */
  method CollectMacros(files: seq<AnalyzedFile>, is64: bool, isDebug: bool) returns (macros: seq<string>)
    requires |files| > 0
    ensures Distinct(macros)
    ensures forall x :: x in macros <==> x in PlatformMacros(files[0].compiler, is64, isDebug) || InMacrosOf(x, files)
  {
    macros := AddAll([], ["__cplusplus=199711L", MscVersion(files[0].compiler)]);
    var k := 0;
    while k < |files|
      invariant 0 <= k <= |files|
      invariant Distinct(macros)
      invariant forall x :: x in macros <==>
                  x == "__cplusplus=199711L" || x == MscVersion(files[0].compiler) || InMacrosOf(x, files[..k])
    {
      macros := AddAll(macros, files[k].source.macros);
      assert forall j :: 0 <= j < k ==> files[..k + 1][j] == files[..k][j];
      assert files[..k + 1][k] == files[k];
      k := k + 1;
    }
    assert files[..|files|] == files;
    macros := AddAll(macros, ["WIN32", "_WIN32"]);
    macros := AddAll(macros, if is64 then ["_M_X64", "_WIN64"] else ["_M_IX86"]);
    if isDebug {
      macros := AddAll(macros, ["_DEBUG"]);
    }
  }

  /** `analyze`, up to the point where the command line is complete. An empty
      file list builds nothing. Otherwise each suppression id, each non-Qt
      include path and each macro appears once, every file appears once per
      list entry in list order, and relative paths are taken from the first
      file's project. */
  method Analyze(files: seq<AnalyzedFile>, settings: Settings, numCores: nat, is64: bool, isDebug: bool,
                 fs: map<string, seq<string>>) returns (r: Option<Arguments>)
    requires numCores > 0
    ensures r.None? <==> |files| == 0
    ensures r.Some? ==>
              && r.value.defaults == settings.defaultArguments
              && r.value.relativePaths == OrEmpty(files[0].source.baseProjectPath)
              && r.value.jobs == numCores
              && r.value.inconclusive == settings.inconclusiveChecksEnabled
    ensures r.Some? ==>
              && Distinct(r.value.suppressions)
              && forall x :: x in r.value.suppressions <==> x in BuiltinSuppressions || InSuppressionsOf(x, fs, files)
    ensures r.Some? ==>
              && Distinct(r.value.includePaths)
              && forall x :: x in r.value.includePaths <==> InIncludePathsOf(x, files) && !IsQtPath(x)
    ensures r.Some? ==>
              && |r.value.files| == |files|
              && forall k :: 0 <= k < |files| ==> r.value.files[k] == OrEmpty(files[k].source.filePath)
    ensures r.Some? && !DefinesMacros(|files|, settings) ==> r.value.macros == []
    ensures r.Some? && DefinesMacros(|files|, settings) ==>
              && Distinct(r.value.macros)
              && forall x :: x in r.value.macros <==>
                   x in PlatformMacros(files[0].compiler, is64, isDebug) || InMacrosOf(x, files)
  {
    if |files| == 0 {
      return None;
    }
    var suppressions := CollectSuppressions(fs, files);
    var includePaths := CollectIncludePaths(files);
    var paths: seq<string> := [];
    var k := 0;
    while k < |files|
      invariant 0 <= k <= |files|
      invariant |paths| == k
      invariant forall j :: 0 <= j < k ==> paths[j] == OrEmpty(files[j].source.filePath)
    {
      paths := paths + [OrEmpty(files[k].source.filePath)];
      k := k + 1;
    }
    var macros: seq<string> := [];
    if DefinesMacros(|files|, settings) {
      macros := CollectMacros(files, is64, isDebug);
    }
    r := Some(Arguments(
      settings.defaultArguments, OrEmpty(files[0].source.baseProjectPath), numCores,
      settings.inconclusiveChecksEnabled, suppressions, IncludeArguments(includePaths), paths, macros));
  }
}
