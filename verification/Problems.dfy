/**
  One diagnostic reported by cppcheck, and the rule that turns the file it
  names into an absolute path. The constructor stores every argument and
  each getter returns its field, which is what the datatype's destructors
  are.
 */
module Problems {
  import opened Text

  datatype SeverityLevel = Info | Warning | Error

  /** `Problem`. The analyzer that reported it is an opaque handle; the line
      number is the C# `int`. */
  datatype Problem = Problem(
    analyzer: nat,
    severity: SeverityLevel,
    messageId: Option<string>,
    message: Option<string>,
    file: Option<string>,
    line: int,
    baseProjectPath: Option<string>,
    projectName: Option<string>)

  /** A file name with a drive colon is taken to be absolute. */
  predicate IsAbsolute(file: string) {
    ':' in file
  }

  /** The `FilePath` getter: a relative file is joined to the project's base
      path; a blank or absolute file, or a blank base path, leaves the file as
      stored. */
  function FilePath(p: Problem): (r: Option<string>)
    ensures IsNullOrWhiteSpace(p.file) || IsAbsolute(p.file.value) || IsNullOrWhiteSpace(p.baseProjectPath)
            ==> r == p.file
    ensures !IsNullOrWhiteSpace(p.file) && !IsAbsolute(p.file.value) && !IsNullOrWhiteSpace(p.baseProjectPath)
            ==> r.Some? && EndsWith(r.value, "\\" + p.file.value)
  {
    if IsNullOrWhiteSpace(p.file) then p.file
    else if ':' in p.file.value then p.file
    else if IsNullOrWhiteSpace(p.baseProjectPath) then p.file
    else
      var base := p.baseProjectPath.value;
      var file := p.file.value;
      var r := if EndsWith(base, "\\") then base + file else base + "\\" + file;
      assert r[|r| - |file| - 1..] == "\\" + file by {
        if EndsWith(base, "\\") {
          assert r == base[..|base| - 1] + ("\\" + file);
        }
      }
      Some(r)
  }

  /** The joined path is the base path without its trailing separator, one
      separator, and the file: exactly one separator joins the two, whichever
      form the base path had. */
  lemma RelativeFileGetsOneSeparator(p: Problem)
    requires !IsNullOrWhiteSpace(p.file) && !IsAbsolute(p.file.value)
    requires !IsNullOrWhiteSpace(p.baseProjectPath)
    ensures var base := p.baseProjectPath.value;
            var stem := if EndsWith(base, "\\") then base[..|base| - 1] else base;
            FilePath(p) == Some(stem + "\\" + p.file.value)
  {
    var base := p.baseProjectPath.value;
    if EndsWith(base, "\\") {
      assert base == base[..|base| - 1] + "\\";
    }
  }

  /** With an absolute base path the result is absolute, so reading the path
      of a problem that already holds it changes nothing. */
  lemma AbsoluteBaseGivesFixedPoint(p: Problem)
    requires p.baseProjectPath.Some? && IsAbsolute(p.baseProjectPath.value)
    requires !IsNullOrWhiteSpace(p.file)
    ensures FilePath(p).Some? && IsAbsolute(FilePath(p).value)
    ensures FilePath(p.(file := FilePath(p))) == FilePath(p)
  {
    var base := p.baseProjectPath.value;
    var file := p.file.value;
    if !IsAbsolute(file) {
      var i :| 0 <= i < |base| && base[i] == ':';
      assert !IsNullOrWhiteSpace(p.baseProjectPath) by {
        assert !IsWhiteSpace(base[i]);
      }
      var r := FilePath(p).value;
      assert r[i] == ':';
    }
  }
}
