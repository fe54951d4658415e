/**
  A source file as the analyzer sees it: its path, the base path of its
  project, and the include paths and macros collected for it. Every path is
  stored in the cleaned form `CleanPath` produces.
 */
module SourceFiles {
  import opened Text

  /** `SourceFile`: both paths start out null and are set by the constructor;
      the two lists keep insertion order and duplicates. */
  datatype SourceFile = SourceFile(
    filePath: Option<string>,
    baseProjectPath: Option<string>,
    includePaths: seq<string>,
    macros: seq<string>)

  // ---------------------------------------------------------------------------
  // cleanPath

  /** `cleanPath`: quotes removed, doubled backslashes collapsed, then at most
      one trailing and at most one leading backslash stripped. */
  function CleanPath(path: string): (r: string)
    ensures '"' !in r
    ensures |r| <= |path|
  {
    var unquoted := RemoveChar(path, '"');
    var result := CollapseBackslashes(unquoted);
    CollapseIntroducesNothing(unquoted, '"');
    var result := if EndsWith(result, "\\") then result[..|result| - 1] else result;
    if StartsWith(result, "\\") then result[1..] else result
  }

  /** A path `cleanPath` leaves as it is. */
  predicate IsCleanPath(p: string) {
    && '"' !in p
    && !HasDoubleBackslash(p)
    && !StartsWith(p, "\\")
    && !EndsWith(p, "\\")
  }

  /** Cleaning changes exactly the paths that hold a quote, a doubled
      backslash, or a backslash at either end. */
  lemma CleanPathFixedPoint(p: string)
    ensures CleanPath(p) == p <==> IsCleanPath(p)
  {
    var u := RemoveChar(p, '"');
    var c := CollapseBackslashes(u);
    var t := if EndsWith(c, "\\") then c[..|c| - 1] else c;
    assert CleanPath(p) == if StartsWith(t, "\\") then t[1..] else t;
    if IsCleanPath(p) {
      assert u == p;
      CollapseKeepsSingles(p);
      assert t == p;
    }
    if CleanPath(p) == p {
      assert |p| <= |t| <= |c| <= |u| <= |p|;
      assert t == c && CleanPath(p) == t;
      assert u == p;
      CollapseFixedPoint(p);
    }
  }

  /** A file constructed from clean paths stores them verbatim. */
  lemma ConstructorKeepsCleanPaths(fullPath: string, projectBasePath: string)
    requires IsCleanPath(fullPath) && IsCleanPath(projectBasePath)
    ensures NewSourceFile(fullPath, projectBasePath).filePath == Some(fullPath)
    ensures NewSourceFile(fullPath, projectBasePath).baseProjectPath == Some(projectBasePath)
  {
    CleanPathFixedPoint(fullPath);
    CleanPathFixedPoint(projectBasePath);
  }

  /** Quotes around a path make no difference. */
  lemma CleanPathDropsQuotes(p: string)
    ensures CleanPath("\"" + p + "\"") == CleanPath(p)
  {
    var q := "\"";
    RemoveCharAppend(q + p, q, '"');
    RemoveCharAppend(q, p, '"');
    assert RemoveChar(q, '"') == "" by {
      assert q[0] == '"' && q[1..] == "";
    }
    assert RemoveChar(q + p + q, '"') == RemoveChar(p, '"');
  }

  /** One separator at each end of a clean path is stripped, and nothing else
      changes. */
  lemma CleanPathStripsOneSeparator(p: string)
    requires IsCleanPath(p) && p != ""
    ensures CleanPath("\\" + p + "\\") == p
  {
    var s := "\\" + p + "\\";
    assert RemoveChar(s, '"') == s;
    assert !HasDoubleBackslash(s) by {
      forall i | 0 <= i < |s| - 1
        ensures !(s[i] == '\\' && s[i + 1] == '\\')
      {
        if i == 0 {
          assert s[1] == p[0];
          assert p[..1] != "\\";
        } else if i == |s| - 2 {
          assert s[i] == p[|p| - 1];
          assert p[|p| - 1..] != "\\";
        } else {
          assert s[i] == p[i - 1] && s[i + 1] == p[i];
        }
      }
    }
    CollapseKeepsSingles(s);
    var t := s[..|s| - 1];
    assert t == "\\" + p;
    assert t[1..] == p;
  }

  // ---------------------------------------------------------------------------
  // Construction and the set-once properties

  /** The constructor: both paths go through `CleanPath`; no include paths or
      macros yet. */
  function NewSourceFile(fullPath: string, projectBasePath: string): (f: SourceFile)
    ensures f.filePath.Some? && '"' !in f.filePath.value
    ensures f.baseProjectPath.Some? && '"' !in f.baseProjectPath.value
    ensures f.includePaths == [] && f.macros == []
  {
    SourceFile(Some(CleanPath(fullPath)), Some(CleanPath(projectBasePath)), [], [])
  }

  /** The result of a property setter: the updated file and whether its
      `Debug.Assert` (the field was still null) held. The assignment happens
      either way. */
  datatype SetOutcome = SetOutcome(file: SourceFile, assertionHeld: bool)

  /** The `FilePath` setter. A clean path is stored verbatim. */
  function SetFilePath(f: SourceFile, value: string): (o: SetOutcome)
    ensures o.assertionHeld <==> f.filePath.None?
    ensures o.file.filePath == Some(CleanPath(value))
    ensures IsCleanPath(value) ==> o.file.filePath == Some(value)
    ensures o.file == f.(filePath := o.file.filePath)
  {
    CleanPathFixedPoint(value);
    SetOutcome(f.(filePath := Some(CleanPath(value))), f.filePath.None?)
  }

  /** The `BaseProjectPath` setter. A clean path is stored verbatim. */
  function SetBaseProjectPath(f: SourceFile, value: string): (o: SetOutcome)
    ensures o.assertionHeld <==> f.baseProjectPath.None?
    ensures o.file.baseProjectPath == Some(CleanPath(value))
    ensures IsCleanPath(value) ==> o.file.baseProjectPath == Some(value)
    ensures o.file == f.(baseProjectPath := o.file.baseProjectPath)
  {
    CleanPathFixedPoint(value);
    SetOutcome(f.(baseProjectPath := Some(CleanPath(value))), f.baseProjectPath.None?)
  }

  /** Each setter's assertion holds at most once on a file, and never on one
      made by the constructor, which has already set both paths. */
  lemma SettersAreSetOnce(f: SourceFile, a: string, b: string, fullPath: string, projectBasePath: string)
    ensures !SetFilePath(SetFilePath(f, a).file, b).assertionHeld
    ensures !SetBaseProjectPath(SetBaseProjectPath(f, a).file, b).assertionHeld
    ensures !SetFilePath(NewSourceFile(fullPath, projectBasePath), a).assertionHeld
    ensures !SetBaseProjectPath(NewSourceFile(fullPath, projectBasePath), a).assertionHeld
  {
  }

  // ---------------------------------------------------------------------------
  // Include paths and macros

  /** The include path stored for `path`: a path with a drive colon is taken
      as given, any other is appended to the base path with no separator
      added. */
  function ResolveIncludePath(base: string, path: string): string {
    CleanPath(if ':' in path then path else base + path)
  }

  /** `addIncludePath`: nothing happens while the base path is null or empty;
      otherwise one path without quotes is appended, the given one itself
      when it is absolute and already clean. */
  function AddIncludePath(f: SourceFile, path: string): (r: SourceFile)
    ensures IsNullOrEmpty(f.baseProjectPath) ==> r == f
    ensures !IsNullOrEmpty(f.baseProjectPath) ==>
              r == f.(includePaths := f.includePaths + [ResolveIncludePath(f.baseProjectPath.value, path)])
    ensures !IsNullOrEmpty(f.baseProjectPath) ==>
              && |r.includePaths| == |f.includePaths| + 1
              && '"' !in r.includePaths[|f.includePaths|]
    ensures !IsNullOrEmpty(f.baseProjectPath) && ':' in path && IsCleanPath(path) ==>
              r.includePaths == f.includePaths + [path]
  {
    CleanPathFixedPoint(path);
    if IsNullOrEmpty(f.baseProjectPath) then f
    else f.(includePaths := f.includePaths + [CleanPath(if ':' in path then path else f.baseProjectPath.value + path)])
  }

  /** `addIncludePaths`: `addIncludePath` for each path in order. Only the
      include paths change, and they only grow at the end. */
  function AddIncludePaths(f: SourceFile, paths: seq<string>): (r: SourceFile)
    ensures r.filePath == f.filePath && r.baseProjectPath == f.baseProjectPath && r.macros == f.macros
    ensures f.includePaths <= r.includePaths
    ensures |r.includePaths| <= |f.includePaths| + |paths|
    decreases |paths|
  {
    if |paths| == 0 then f
    else AddIncludePaths(AddIncludePath(f, paths[0]), paths[1..])
  }

  /** The resolved form of every path, in order, duplicates kept. */
  function ResolveAll(base: string, paths: seq<string>): seq<string>
    decreases |paths|
  {
    if |paths| == 0 then [] else [ResolveIncludePath(base, paths[0])] + ResolveAll(base, paths[1..])
  }

  /** While the base path is null or empty, adding include paths does nothing. */
  lemma {:induction false} AddIncludePathsWithoutBase(f: SourceFile, paths: seq<string>)
    requires IsNullOrEmpty(f.baseProjectPath)
    ensures AddIncludePaths(f, paths) == f
    decreases |paths|
  {
    if |paths| > 0 {
      AddIncludePathsWithoutBase(f, paths[1..]);
    }
  }

  /** Otherwise adding a list of include paths appends their resolved forms in
      list order, duplicates kept, and touches nothing else. */
  lemma {:induction false} AddIncludePathsAppends(f: SourceFile, paths: seq<string>)
    requires !IsNullOrEmpty(f.baseProjectPath)
    ensures var r := AddIncludePaths(f, paths);
            && r.includePaths == f.includePaths + ResolveAll(f.baseProjectPath.value, paths)
            && r.filePath == f.filePath && r.baseProjectPath == f.baseProjectPath && r.macros == f.macros
    decreases |paths|
  {
    var b := f.baseProjectPath.value;
    if |paths| == 0 {
      assert f.includePaths + ResolveAll(b, paths) == f.includePaths;
    } else {
      var x := ResolveIncludePath(b, paths[0]);
      var g := AddIncludePath(f, paths[0]);
      assert g.includePaths == f.includePaths + [x];
      AddIncludePathsAppends(g, paths[1..]);
      var rest := ResolveAll(b, paths[1..]);
      assert ResolveAll(b, paths) == [x] + rest;
      var r := AddIncludePaths(f, paths);
      assert r == AddIncludePaths(g, paths[1..]);
      assert r.includePaths == g.includePaths + rest;
      AppendAssoc(f.includePaths, [x], rest);
    }
  }

  /** An absolute include path that is already clean is stored verbatim;
      a relative one is joined to the base path as written. */
  lemma IncludePathResolution(base: string, path: string)
    ensures ':' in path && IsCleanPath(path) ==> ResolveIncludePath(base, path) == path
    ensures ':' !in path ==> ResolveIncludePath(base, path) == CleanPath(base + path)
  {
    CleanPathFixedPoint(path);
  }

  /** `addMacro`: the macro goes last, after the ones already there, and
      nothing else changes. */
  function AddMacro(f: SourceFile, macro: string): (r: SourceFile)
    ensures f.macros < r.macros && |r.macros| == |f.macros| + 1
    ensures r.macros[|r.macros| - 1] == macro
    ensures r.(macros := f.macros) == f
  {
    f.(macros := f.macros + [macro])
  }

  /** `addMacros`: `addMacro` for each macro in order. Every macro of the
      list ends up in the file, after the ones already there, and nothing
      else changes. */
  function AddMacros(f: SourceFile, macros: seq<string>): (r: SourceFile)
    ensures f.macros <= r.macros && |r.macros| == |f.macros| + |macros|
    ensures forall m :: m in macros ==> m in r.macros
    ensures r.(macros := f.macros) == f
    decreases |macros|
  {
    if |macros| == 0 then f
    else AddMacros(AddMacro(f, macros[0]), macros[1..])
  }

  /** Adding a list of macros appends exactly that list, duplicates kept, and
      touches nothing else. */
  lemma {:induction false} AddMacrosAppends(f: SourceFile, macros: seq<string>)
    ensures AddMacros(f, macros) == f.(macros := f.macros + macros)
    decreases |macros|
  {
    if |macros| > 0 {
      AddMacrosAppends(AddMacro(f, macros[0]), macros[1..]);
      assert f.macros + [macros[0]] + macros[1..] == f.macros + macros;
    }
  }
}
