/**
  The suppressions of the add-in: three rule sets (cppcheck suppression lines,
  file-skip masks, include-skip masks), the normalisation applied to every
  suppression line, and the sectioned line format they are stored in.
  A file on disk is its sequence of lines, `None` when it does not exist.
 */
module Suppressions {
  import opened Text

  datatype Rules = Rules(
    suppressionLines: set<string>,
    skippedFilesMask: set<string>,
    skippedIncludesMask: set<string>)

  const NoRules := Rules({}, {}, {})

  const SuppressionsSection := "cppcheck"
  const FilesSection := "cppcheck_files"
  const IncludesSection := "cppcheck_includes"

  const SuppressionsHeader := "[cppcheck]"
  const FilesHeader := "[cppcheck_files]"
  const IncludesHeader := "[cppcheck_includes]"

  function Min(a: int, b: int): int {
    if a <= b then a else b
  }

  // ---------------------------------------------------------------------------
  // Normalisation of one suppression line

  /** The components of a suppression `id:path:line` after the path has been
      starred and anything past the third component dropped. */
  function KeptComponents(parts: seq<string>): (kept: seq<string>)
    requires |parts| >= 1
  {
    var starred := if |parts| >= 2 && !StartsWith(parts[1], "*") then parts[1 := "*" + parts[1]] else parts;
    starred[..Min(|starred|, 3)]
  }

  /** The string `AddSuppressionLine` builds from a raw line before it collapses
      doubled backslashes: components 0, 1 and 2 concatenated with `:`. */
  function RebuildSuppression(line: string): string {
    var parts := Split(line, ':');
    var components := if |parts| >= 2 && !StartsWith(parts[1], "*") then parts[1 := "*" + parts[1]] else parts;
    var suppression := components[0];
    var suppression := if |components| > 1 then suppression + ":" + components[1] else suppression;
    if |components| > 2 then suppression + ":" + components[2] else suppression
  }

  lemma RebuildIsJoin(line: string)
    ensures RebuildSuppression(line) == Join(KeptComponents(Split(line, ':')), ":")
  {
    var parts := Split(line, ':');
    var c := if |parts| >= 2 && !StartsWith(parts[1], "*") then parts[1 := "*" + parts[1]] else parts;
    TakeSmall(c);
    if |c| == 1 {
      JoinSmall(c[0], "", "", ":");
    } else if |c| == 2 {
      JoinSmall(c[0], c[1], "", ":");
    } else {
      JoinSmall(c[0], c[1], c[2], ":");
    }
  }

  lemma RebuildEmpty(line: string)
    ensures RebuildSuppression(line) == "" <==> line == ""
  {
    var parts := Split(line, ':');
    JoinSplit(line, ':');
    RebuildIsJoin(line);
    var k := KeptComponents(parts);
    if |parts| >= 2 {
      assert |k| >= 2;
      assert |Join(k, ":")| >= 1 by {
        assert Join(k, ":") == k[0] + ":" + Join(k[1..], ":");
      }
    }
  }

  /** `AddSuppressionLine`'s transformation of one raw line: `None` when the
      rebuilt string is empty and nothing is inserted. */
  function NormaliseSuppression(line: string): (r: Option<string>)
    ensures r.None? <==> line == ""
  {
    var suppression := RebuildSuppression(line);
    RebuildEmpty(line);
    if suppression == "" then None else Some(CollapseBackslashes(suppression))
  }

  /** The components of a normalised line, read back through the same split:
      the path component is starred, only the first three components survive,
      and each has had its doubled backslashes collapsed. */
  lemma NormalisedComponents(line: string)
    requires line != ""
    ensures var p := Split(line, ':');
            var q := Split(NormaliseSuppression(line).value, ':');
            && |q| == Min(|p|, 3)
            && q[0] == CollapseBackslashes(p[0])
            && (|p| >= 2 ==> q[1] == CollapseBackslashes(if StartsWith(p[1], "*") then p[1] else "*" + p[1]))
            && (|p| >= 3 ==> q[2] == CollapseBackslashes(p[2]))
  {
    var p := Split(line, ':');
    var k := KeptComponents(p);
    RebuildIsJoin(line);
    forall i | 0 <= i < |k| ensures ':' !in k[i] {
      if i == 1 && !StartsWith(p[1], "*") {
        assert k[1] == "*" + p[1];
      } else {
        assert k[i] == p[i];
      }
    }
    SplitJoin(k, ':');
    SplitCollapse(Join(k, ":"), ':');
  }

  /** A suppression line as `AddSuppressionLine` leaves it. */
  predicate IsNormalised(s: string) {
    var q := Split(s, ':');
    && s != ""
    && |q| <= 3
    && (|q| >= 2 ==> StartsWith(q[1], "*"))
    && !HasDoubleBackslash(s)
  }

  lemma RebuildKeepsShaped(s: string)
    requires var q := Split(s, ':'); |q| <= 3 && (|q| >= 2 ==> StartsWith(q[1], "*"))
    ensures RebuildSuppression(s) == s
  {
    var q := Split(s, ':');
    RebuildIsJoin(s);
    assert KeptComponents(q) == q;
    JoinSplit(s, ':');
  }

  /** Every normalised line is shaped: at most three components, path starred. */
  lemma NormalisedIsShaped(line: string)
    requires line != ""
    ensures var q := Split(NormaliseSuppression(line).value, ':');
            |q| <= 3 && (|q| >= 2 ==> StartsWith(q[1], "*"))
  {
    NormalisedComponents(line);
  }

  /** Exactly the normalised lines are left unchanged by normalisation. */
  lemma NormalisedIsFixedPoint(s: string)
    ensures NormaliseSuppression(s) == Some(s) <==> IsNormalised(s)
  {
    if IsNormalised(s) {
      RebuildKeepsShaped(s);
      CollapseFixedPoint(s);
    }
    if NormaliseSuppression(s) == Some(s) {
      NormalisedIsShaped(s);
      RebuildKeepsShaped(s);
      CollapseFixedPoint(s);
    }
  }

  /** Normalising a second time only collapses doubled backslashes again. */
  lemma NormaliseTwice(line: string)
    requires line != ""
    ensures var y := NormaliseSuppression(line).value;
            NormaliseSuppression(y) == Some(CollapseBackslashes(y))
  {
    var y := NormaliseSuppression(line).value;
    NormalisedIsShaped(line);
    RebuildKeepsShaped(y);
  }

  /** Normalisation is idempotent on a line exactly when its normal form holds
      no doubled backslash. */
  lemma NormaliseIdempotentIff(line: string)
    requires line != ""
    ensures var y := NormaliseSuppression(line).value;
            NormaliseSuppression(y) == Some(y) <==> !HasDoubleBackslash(y)
  {
    NormaliseTwice(line);
    CollapseFixedPoint(NormaliseSuppression(line).value);
  }

  /** Four backslashes in a row become two on the first pass and one on the second. */
  lemma NormaliseNotIdempotent()
    ensures var x := "a\\\\\\\\";
            NormaliseSuppression(NormaliseSuppression(x).value) != NormaliseSuppression(x)
  {
    var x := "a\\\\\\\\";
    SplitWithoutSeparator(x, ':');
    RebuildKeepsShaped(x);
    var y := CollapseBackslashes(x);
    assert y == "a\\\\";
    assert NormaliseSuppression(x) == Some(y);
    assert y[1] == '\\' && y[2] == '\\';
    NormaliseIdempotentIff(x);
  }

  // ---------------------------------------------------------------------------
  // The rule set operations

  /** `AddSuppressionLine`: inserts the normal form of the line, if any. */
  function AddSuppressionLine(rules: Rules, line: string): (r: Rules)
    ensures r.skippedFilesMask == rules.skippedFilesMask
    ensures r.skippedIncludesMask == rules.skippedIncludesMask
    ensures forall x :: x in r.suppressionLines <==> x in rules.suppressionLines || NormaliseSuppression(line) == Some(x)
    ensures line == "" ==> r == rules
  {
    match NormaliseSuppression(line)
    case None => rules
    case Some(s) => rules.(suppressionLines := rules.suppressionLines + {s})
  }

  /** Re-adding a line whose normal form is already present changes nothing. */
  lemma AddExistingIsNoOp(rules: Rules, line: string)
    requires NormaliseSuppression(line).Some?
    requires NormaliseSuppression(line).value in rules.suppressionLines
    ensures AddSuppressionLine(rules, line) == rules
  {
  }

  /** `UnionWith`: each set becomes its union with the argument's matching set;
      the argument is a value and is left as it was. */
  function UnionWith(rules: Rules, other: Rules): (r: Rules)
    ensures forall x :: x in r.suppressionLines <==> x in rules.suppressionLines || x in other.suppressionLines
    ensures forall x :: x in r.skippedFilesMask <==> x in rules.skippedFilesMask || x in other.skippedFilesMask
    ensures forall x :: x in r.skippedIncludesMask <==> x in rules.skippedIncludesMask || x in other.skippedIncludesMask
  {
    Rules(
      rules.suppressionLines + other.suppressionLines,
      rules.skippedFilesMask + other.skippedFilesMask,
      rules.skippedIncludesMask + other.skippedIncludesMask)
  }

  /** Merging scopes does not depend on their order or grouping. */
  lemma UnionWithIsCommutativeAndAssociative(a: Rules, b: Rules, c: Rules)
    ensures UnionWith(a, b) == UnionWith(b, a)
    ensures UnionWith(UnionWith(a, b), c) == UnionWith(a, UnionWith(b, c))
    ensures UnionWith(a, a) == a
    ensures UnionWith(a, NoRules) == a
  {
  }

  // ---------------------------------------------------------------------------
  // Loading

  /** The section a header line opens: the line with every `[` and `]` removed. */
  function SectionName(header: string): (name: string)
    ensures '[' !in name && ']' !in name
  {
    RemoveChar(RemoveChar(header, '['), ']')
  }

  /** One non-header line read while `section` is current. */
  function AddToSection(rules: Rules, section: string, line: string): Rules {
    if section == SuppressionsSection then AddSuppressionLine(rules, line)
    else if section == FilesSection then rules.(skippedFilesMask := rules.skippedFilesMask + {line})
    else if section == IncludesSection then rules.(skippedIncludesMask := rules.skippedIncludesMask + {line})
    else rules
  }

  /** The read loop of `LoadFromFile`, from the current section on. */
  function LoadLines(lines: seq<string>, section: string, rules: Rules): (r: Rules)
    ensures forall x :: x in r.skippedFilesMask ==>
              x in rules.skippedFilesMask || (x in lines && !StartsWith(x, "["))
    ensures forall x :: x in r.skippedIncludesMask ==>
              x in rules.skippedIncludesMask || (x in lines && !StartsWith(x, "["))
    ensures forall x :: x in r.suppressionLines ==>
              x in rules.suppressionLines || exists i :: 0 <= i < |lines| && NormaliseSuppression(lines[i]) == Some(x)
    decreases |lines|
  {
    if |lines| == 0 then rules
    else
      var r := if StartsWith(lines[0], "[") then LoadLines(lines[1..], SectionName(lines[0]), rules)
               else LoadLines(lines[1..], section, AddToSection(rules, section, lines[0]));
      assert forall i :: 0 <= i < |lines[1..]| ==> lines[1..][i] == lines[i + 1];
      r
  }

  /** `LoadFromFile`: the sets are cleared first, so the result depends on the
      file alone; a missing file leaves all three sets empty. */
  function LoadFromFile(file: Option<seq<string>>): (r: Rules)
    ensures file.None? ==> r == NoRules
    ensures file.Some? ==> forall x :: x in r.skippedFilesMask + r.skippedIncludesMask ==>
              x in file.value && !StartsWith(x, "[")
  {
    match file
    case None => NoRules
    case Some(lines) => LoadLines(lines, "", NoRules)
  }

  /** The normal forms of the non-empty lines of `body`. */
  function NormalisedLines(body: seq<string>): set<string> {
    set x | x in body && x != "" :: NormaliseSuppression(x).value
  }

  lemma NormalisedLinesOfOne(x: string)
    requires x != ""
    ensures NormalisedLines([x]) == {NormaliseSuppression(x).value}
  {
    assert x in [x];
  }

  /** What the lines under one header add to the rule set. */
  function SectionContents(rules: Rules, section: string, body: seq<string>): Rules {
    if section == SuppressionsSection then rules.(suppressionLines := rules.suppressionLines + NormalisedLines(body))
    else if section == FilesSection then rules.(skippedFilesMask := rules.skippedFilesMask + set x | x in body)
    else if section == IncludesSection then rules.(skippedIncludesMask := rules.skippedIncludesMask + set x | x in body)
    else rules
  }

  lemma SectionContentsStep(rules: Rules, section: string, body: seq<string>)
    requires |body| >= 1
    ensures SectionContents(AddToSection(rules, section, body[0]), section, body[1..])
         == SectionContents(rules, section, body)
  {
    assert forall x :: x in body <==> x == body[0] || x in body[1..];
    if section == SuppressionsSection {
      assert NormalisedLines(body) == NormalisedLines([body[0]]) + NormalisedLines(body[1..]);
    } else if section == FilesSection {
      assert (set x | x in body) == {body[0]} + set x | x in body[1..];
    } else if section == IncludesSection {
      assert (set x | x in body) == {body[0]} + set x | x in body[1..];
    }
  }

  /** The lines of one section, up to the next header, go into the set the
      section names; in any other section they are ignored. */
  lemma {:induction false} LoadSectionBody(body: seq<string>, rest: seq<string>, section: string, rules: Rules)
    requires forall i :: 0 <= i < |body| ==> !StartsWith(body[i], "[")
    ensures LoadLines(body + rest, section, rules) == LoadLines(rest, section, SectionContents(rules, section, body))
    decreases |body|
  {
    if |body| == 0 {
      assert body + rest == rest;
      assert SectionContents(rules, section, body) == rules by {
        assert NormalisedLines(body) == {};
        assert (set x | x in body) == {};
      }
    } else {
      assert (body + rest)[1..] == body[1..] + rest;
      assert (body + rest)[0] == body[0];
      LoadSectionBody(body[1..], rest, section, AddToSection(rules, section, body[0]));
      SectionContentsStep(rules, section, body);
    }
  }

  /** A line starting with `[` is not stored; it opens the section named by the
      line without its brackets, and the lines after it go there. */
  lemma LoadSection(header: string, body: seq<string>, rest: seq<string>, section: string, rules: Rules)
    requires StartsWith(header, "[")
    requires forall i :: 0 <= i < |body| ==> !StartsWith(body[i], "[")
    ensures LoadLines([header] + body + rest, section, rules)
         == LoadLines(rest, SectionName(header), SectionContents(rules, SectionName(header), body))
  {
    assert ([header] + body + rest)[1..] == body + rest;
    LoadSectionBody(body, rest, SectionName(header), rules);
  }

  /** Lines before the first header, or in a section of another name, are ignored. */
  lemma LinesOutsideSectionsIgnored(body: seq<string>, rest: seq<string>, section: string, rules: Rules)
    requires section != SuppressionsSection && section != FilesSection && section != IncludesSection
    requires forall i :: 0 <= i < |body| ==> !StartsWith(body[i], "[")
    ensures LoadLines(body + rest, section, rules) == LoadLines(rest, section, rules)
  {
    LoadSectionBody(body, rest, section, rules);
  }

  // ---------------------------------------------------------------------------
  // Saving

  /** `HashSet.Add` on a set enumerated in insertion order: a new string goes
      to the end, a present one changes nothing. */
  function Insert(lines: seq<string>, x: string): (r: seq<string>)
    ensures Distinct(lines) ==> Distinct(r)
    ensures forall y :: y in r <==> y in lines || y == x
  {
    if x in lines then lines else lines + [x]
  }

  /** Adding `xs` one by one. */
  function AddDistinct(lines: seq<string>, xs: seq<string>): seq<string>
    decreases |xs|
  {
    if |xs| == 0 then lines else AddDistinct(Insert(lines, xs[0]), xs[1..])
  }

  /** Adding keeps the set free of repetition, holds exactly the old and the
      added strings, and keeps what was there in front. */
  lemma {:induction false} AddDistinctFacts(lines: seq<string>, xs: seq<string>)
    ensures Distinct(lines) ==> Distinct(AddDistinct(lines, xs))
    ensures forall x :: x in AddDistinct(lines, xs) <==> x in lines || x in xs
    ensures |lines| <= |AddDistinct(lines, xs)| && AddDistinct(lines, xs)[..|lines|] == lines
    decreases |xs|
  {
    if |xs| > 0 {
      var next := Insert(lines, xs[0]);
      AddDistinctFacts(next, xs[1..]);
      assert next[..|lines|] == lines;
      assert forall x :: x in xs <==> x == xs[0] || x in xs[1..];
    }
  }

  lemma {:induction false} AddDistinctFresh(lines: seq<string>, xs: seq<string>)
    requires Distinct(xs)
    requires forall x :: x in xs ==> x !in lines
    ensures AddDistinct(lines, xs) == lines + xs
    decreases |xs|
  {
    if |xs| == 0 {
      assert lines + xs == lines;
    } else {
      var rest := xs[1..];
      assert Distinct(rest) by {
        forall p, q | 0 <= p < q < |rest| ensures rest[p] != rest[q] {
          assert rest[p] == xs[p + 1] && rest[q] == xs[q + 1];
        }
      }
      assert forall x :: x in rest ==> x in xs && x != xs[0];
      assert xs[0] in xs;
      assert Insert(lines, xs[0]) == lines + [xs[0]];
      AddDistinctFresh(lines + [xs[0]], rest);
      SplitFirst(lines, xs);
    }
  }

  /** Adding two runs one after the other is adding their concatenation. */
  lemma {:induction false} AddDistinctConcat(lines: seq<string>, a: seq<string>, b: seq<string>)
    ensures AddDistinct(AddDistinct(lines, a), b) == AddDistinct(lines, a + b)
    decreases |a|
  {
    if |a| == 0 {
      assert a + b == b;
    } else {
      assert (a + b)[0] == a[0];
      assert (a + b)[1..] == a[1..] + b;
      if a[0] in lines {
        AddDistinctConcat(lines, a[1..], b);
      } else {
        AddDistinctConcat(lines + [a[0]], a[1..], b);
      }
    }
  }

  /** The lines `SaveToFile` hands to its hash set, in order. */
  ghost function SaveOrder(rules: Rules): seq<string> {
    [SuppressionsHeader] + Enumeration(rules.suppressionLines)
    + [FilesHeader] + Enumeration(rules.skippedFilesMask)
    + [IncludesHeader] + Enumeration(rules.skippedIncludesMask)
  }

  /** The six insertions of `SaveToFile` add the lines in `SaveOrder`. */
  lemma SaveToFileIsOneRun(rules: Rules)
    ensures SaveToFile(rules) == AddDistinct([], SaveOrder(rules))
  {
    var h1: seq<string> := [SuppressionsHeader];
    var s := Enumeration(rules.suppressionLines);
    var h2: seq<string> := [FilesHeader];
    var f := Enumeration(rules.skippedFilesMask);
    var h3: seq<string> := [IncludesHeader];
    var i := Enumeration(rules.skippedIncludesMask);
    var none: seq<string> := [];
    AddDistinctConcat(none, h1, s);
    AddDistinctConcat(none, h1 + s, h2);
    AddDistinctConcat(none, h1 + s + h2, f);
    AddDistinctConcat(none, h1 + s + h2 + f, h3);
    AddDistinctConcat(none, h1 + s + h2 + f + h3, i);
  }

  /** `SaveToFile`: the lines of the file in the order they are written. All
      of them go through one hash set, headers included, so no line is
      written twice, and the file holds the three headers and every entry. */
  ghost function SaveToFile(rules: Rules): (file: seq<string>)
    ensures Distinct(file)
    ensures forall x :: x in file <==>
              || x == SuppressionsHeader || x == FilesHeader || x == IncludesHeader
              || x in rules.suppressionLines || x in rules.skippedFilesMask || x in rules.skippedIncludesMask
  {
    var none: seq<string> := [];
    var l1 := AddDistinct(none, [SuppressionsHeader]);
    var l2 := AddDistinct(l1, Enumeration(rules.suppressionLines));
    var l3 := AddDistinct(l2, [FilesHeader]);
    var l4 := AddDistinct(l3, Enumeration(rules.skippedFilesMask));
    var l5 := AddDistinct(l4, [IncludesHeader]);
    AddDistinctFacts(none, [SuppressionsHeader]);
    AddDistinctFacts(l1, Enumeration(rules.suppressionLines));
    AddDistinctFacts(l2, [FilesHeader]);
    AddDistinctFacts(l3, Enumeration(rules.skippedFilesMask));
    AddDistinctFacts(l4, [IncludesHeader]);
    AddDistinctFacts(l5, Enumeration(rules.skippedIncludesMask));
    AddDistinct(l5, Enumeration(rules.skippedIncludesMask))
  }

  /** The saved file starts with the suppressions header, repeats no line (so a
      string held by two of the sets is written once), and holds exactly the
      three headers and the members of the three sets. */
  lemma SaveToFileContents(rules: Rules)
    ensures var lines := SaveToFile(rules);
            && Distinct(lines)
            && |lines| >= 1 && lines[0] == SuppressionsHeader
            && forall x :: x in lines <==>
                 || x == SuppressionsHeader || x == FilesHeader || x == IncludesHeader
                 || x in rules.suppressionLines || x in rules.skippedFilesMask || x in rules.skippedIncludesMask
  {
    var order := SaveOrder(rules);
    SaveToFileIsOneRun(rules);
    SaveOrderMembers(rules);
    var none: seq<string> := [];
    var first: seq<string> := [SuppressionsHeader];
    assert Insert(none, order[0]) == first;
    assert AddDistinct(none, order) == AddDistinct(first, order[1..]);
    AddDistinctFacts(none, order);
    AddDistinctFacts(first, order[1..]);
  }

  lemma SaveOrderMembers(rules: Rules)
    ensures |SaveOrder(rules)| >= 1 && SaveOrder(rules)[0] == SuppressionsHeader
    ensures forall x :: x in SaveOrder(rules) <==>
              || x == SuppressionsHeader || x == FilesHeader || x == IncludesHeader
              || x in rules.suppressionLines || x in rules.skippedFilesMask || x in rules.skippedIncludesMask
  {
    var s := Enumeration(rules.suppressionLines);
    var f := Enumeration(rules.skippedFilesMask);
    var i := Enumeration(rules.skippedIncludesMask);
    var rest := s + [FilesHeader] + f + [IncludesHeader] + i;
    assert SaveOrder(rules) == [SuppressionsHeader] + rest;
  }

  /** A bracketed name opens the section of that name. */
  lemma SectionNameOfHeader(name: string)
    requires '[' !in name && ']' !in name
    ensures StartsWith("[" + name + "]", "[")
    ensures SectionName("[" + name + "]") == name
  {
    RemoveCharAppend("[", name + "]", '[');
    assert "[" + name + "]" == "[" + (name + "]");
    assert RemoveChar("[", '[') == "";
    RemoveCharAppend(name, "]", ']');
    assert RemoveChar("]", ']') == "";
    assert name + "" == name;
  }

  lemma SectionsHaveNoBrackets()
    ensures '[' !in SuppressionsSection && ']' !in SuppressionsSection
    ensures '[' !in FilesSection && ']' !in FilesSection
    ensures '[' !in IncludesSection && ']' !in IncludesSection
  {
  }

  lemma HeadersBracketSections()
    ensures SuppressionsHeader == "[" + SuppressionsSection + "]"
    ensures FilesHeader == "[" + FilesSection + "]"
    ensures IncludesHeader == "[" + IncludesSection + "]"
  {
  }

  lemma SuppressionsHeaderNamesSection()
    ensures StartsWith(SuppressionsHeader, "[") && SectionName(SuppressionsHeader) == SuppressionsSection
  {
    SectionsHaveNoBrackets();
    HeadersBracketSections();
    SectionNameOfHeader(SuppressionsSection);
  }

  lemma FilesHeaderNamesSection()
    ensures StartsWith(FilesHeader, "[") && SectionName(FilesHeader) == FilesSection
  {
    SectionsHaveNoBrackets();
    HeadersBracketSections();
    SectionNameOfHeader(FilesSection);
  }

  lemma IncludesHeaderNamesSection()
    ensures StartsWith(IncludesHeader, "[") && SectionName(IncludesHeader) == IncludesSection
  {
    SectionsHaveNoBrackets();
    HeadersBracketSections();
    SectionNameOfHeader(IncludesSection);
  }

  /** The three headers open the three sections. */
  lemma HeadersNameSections()
    ensures StartsWith(SuppressionsHeader, "[") && SectionName(SuppressionsHeader) == SuppressionsSection
    ensures StartsWith(FilesHeader, "[") && SectionName(FilesHeader) == FilesSection
    ensures StartsWith(IncludesHeader, "[") && SectionName(IncludesHeader) == IncludesSection
  {
    SuppressionsHeaderNamesSection();
    FilesHeaderNamesSection();
    IncludesHeaderNamesSection();
  }

  /** The rule sets that survive a save and a load unchanged. */
  predicate SavesFaithfully(rules: Rules) {
    && rules.suppressionLines !! rules.skippedFilesMask
    && rules.suppressionLines !! rules.skippedIncludesMask
    && rules.skippedFilesMask !! rules.skippedIncludesMask
    && (forall x :: x in rules.suppressionLines + rules.skippedFilesMask + rules.skippedIncludesMask ==> !StartsWith(x, "["))
    && (forall x :: x in rules.suppressionLines ==> IsNormalised(x))
  }

  /** When nothing is shared and no entry looks like a header, the file is the
      three sections in order, each header followed by its set. */
  lemma SaveLayout(rules: Rules)
    requires SavesFaithfully(rules)
    ensures SaveToFile(rules) == SaveOrder(rules)
  {
    var s := Enumeration(rules.suppressionLines);
    var f := Enumeration(rules.skippedFilesMask);
    var i := Enumeration(rules.skippedIncludesMask);
    HeadersNameSections();
    SectionsDistinct();
    assert forall x :: x in s ==> x in rules.suppressionLines && !StartsWith(x, "[");
    assert forall x :: x in f ==> x in rules.skippedFilesMask && !StartsWith(x, "[");
    assert forall x :: x in i ==> x in rules.skippedIncludesMask && !StartsWith(x, "[");
    SaveToFileIsOneRun(rules);
    DistinctRuns(SuppressionsHeader, s, FilesHeader, f, IncludesHeader, i);
    AddDistinctFresh([], SaveOrder(rules));
    assert [] + SaveOrder(rules) == SaveOrder(rules);
  }

  lemma DistinctAppend(a: seq<string>, b: seq<string>)
    requires Distinct(a) && Distinct(b)
    requires forall x :: x in a ==> x !in b
    ensures Distinct(a + b)
  {
    forall p, q | 0 <= p < q < |a + b|
      ensures (a + b)[p] != (a + b)[q]
    {
      if q >= |a| && p < |a| {
        assert (a + b)[p] in a && (a + b)[q] in b;
      }
    }
  }

  /** Three headers and three runs of lines that share nothing make a list
      without repetition. */
  lemma DistinctRuns(a: string, s: seq<string>, b: string, f: seq<string>, c: string, i: seq<string>)
    requires a != b && a != c && b != c
    requires Distinct(s) && Distinct(f) && Distinct(i)
    requires forall x :: x in s ==> x != a && x != b && x != c && x !in f && x !in i
    requires forall x :: x in f ==> x != a && x != b && x != c && x !in i
    requires forall x :: x in i ==> x != a && x != b && x != c
    ensures Distinct([a] + s + [b] + f + [c] + i)
  {
    DistinctAppend([a], s);
    DistinctAppend([a] + s, [b]);
    DistinctAppend([a] + s + [b], f);
    DistinctAppend([a] + s + [b] + f, [c]);
    DistinctAppend([a] + s + [b] + f + [c], i);
  }

  lemma ThreeSections(h1: seq<string>, s: seq<string>, h2: seq<string>, f: seq<string>, h3: seq<string>, i: seq<string>)
    ensures h1 + s + h2 + f + h3 + i == h1 + s + (h2 + f + (h3 + i + []))
  {
  }

  lemma NormalisedLinesOfNormalised(s: set<string>)
    requires forall x :: x in s ==> IsNormalised(x)
    ensures NormalisedLines(Enumeration(s)) == s
  {
    forall x | x in s ensures NormaliseSuppression(x) == Some(x) {
      NormalisedIsFixedPoint(x);
    }
  }

  lemma ElementsOfEnumeration(s: set<string>)
    ensures (set x | x in Enumeration(s)) == s
  {
  }

  lemma UnionEmpty(a: set<string>)
    ensures {} + a == a
  {
  }

  lemma SectionsDistinct()
    ensures SuppressionsSection != FilesSection && SuppressionsSection != IncludesSection
    ensures FilesSection != IncludesSection
  {
    assert |SuppressionsSection| != |FilesSection| && |SuppressionsSection| != |IncludesSection|;
    assert FilesSection[9] != IncludesSection[9];
  }

  /** A file made of the three headers in order, each followed by lines that
      are not headers, loads as the contents of the three sections. */
  lemma LoadThreeSections(s: seq<string>, f: seq<string>, i: seq<string>)
    requires forall k :: 0 <= k < |s| ==> !StartsWith(s[k], "[")
    requires forall k :: 0 <= k < |f| ==> !StartsWith(f[k], "[")
    requires forall k :: 0 <= k < |i| ==> !StartsWith(i[k], "[")
    ensures LoadFromFile(Some([SuppressionsHeader] + s + [FilesHeader] + f + [IncludesHeader] + i))
         == Rules(NormalisedLines(s), set x | x in f, set x | x in i)
  {
    HeadersNameSections();
    var rest3 := [IncludesHeader] + i + [];
    var rest2 := [FilesHeader] + f + rest3;
    ThreeSections([SuppressionsHeader], s, [FilesHeader], f, [IncludesHeader], i);
    LoadSection(SuppressionsHeader, s, rest2, "", NoRules);
    var r1 := SectionContents(NoRules, SuppressionsSection, s);
    LoadSection(FilesHeader, f, rest3, SuppressionsSection, r1);
    var r2 := SectionContents(r1, FilesSection, f);
    LoadSection(IncludesHeader, i, [], FilesSection, r2);
    var r3 := SectionContents(r2, IncludesSection, i);
    assert LoadLines([], IncludesSection, r3) == r3;
    SectionsDistinct();
    var n := NormalisedLines(s);
    var fs := set x | x in f;
    var ins := set x | x in i;
    assert r1.suppressionLines == {} + n;
    UnionEmpty(n);
    assert r1 == Rules(n, {}, {});
    assert r2 == Rules(n, {} + fs, {});
    UnionEmpty(fs);
    assert r3 == Rules(n, fs, {} + ins);
    UnionEmpty(ins);
  }

  /** Loading what was saved gives back the same three sets, provided no string
      is shared between sets, none starts with `[`, and every suppression line
      is already normalised. */
  lemma SaveLoadRoundTrip(rules: Rules)
    requires SavesFaithfully(rules)
    ensures LoadFromFile(Some(SaveToFile(rules))) == rules
  {
    var s := Enumeration(rules.suppressionLines);
    var f := Enumeration(rules.skippedFilesMask);
    var i := Enumeration(rules.skippedIncludesMask);
    SaveLayout(rules);
    assert forall x :: x in s + f + i ==> !StartsWith(x, "[") by {
      assert forall x :: x in s + f + i ==> x in rules.suppressionLines + rules.skippedFilesMask + rules.skippedIncludesMask;
    }
    LoadThreeSections(s, f, i);
    NormalisedLinesOfNormalised(rules.suppressionLines);
    ElementsOfEnumeration(rules.skippedFilesMask);
    ElementsOfEnumeration(rules.skippedIncludesMask);
    assert LoadFromFile(Some(SaveToFile(rules)))
        == Rules(rules.suppressionLines, rules.skippedFilesMask, rules.skippedIncludesMask);
  }

  lemma ElementsOfNothing(none: seq<string>)
    requires none == []
    ensures (set x | x in none) == {}
  {
  }

  lemma OneLetterIsNormalised(a: string)
    requires |a| == 1 && a[0] != ':' && a[0] != '\\'
    ensures NormaliseSuppression(a) == Some(a)
  {
    SplitWithoutSeparator(a, ':');
    assert !HasDoubleBackslash(a);
    NormalisedIsFixedPoint(a);
  }

  /** A string shared by the suppressions and the file masks is written once,
      after the suppressions header. */
  lemma SaveOfShared(a: string)
    requires a != SuppressionsHeader && a != FilesHeader && a != IncludesHeader
    ensures var none: seq<string> := [];
            SaveToFile(Rules({a}, {a}, {})) == [SuppressionsHeader] + [a] + [FilesHeader] + none + [IncludesHeader] + none
  {
    var rules := Rules({a}, {a}, {});
    var none: seq<string> := [];
    var one: seq<string> := [a];
    EnumerationOfOne(a);
    assert Enumeration({}) == none;
    var l1: seq<string> := [SuppressionsHeader];
    assert AddDistinct(none, [SuppressionsHeader]) == l1 by {
      assert Insert(none, SuppressionsHeader) == l1;
      assert [SuppressionsHeader][1..] == none;
    }
    var l2: seq<string> := [SuppressionsHeader, a];
    assert AddDistinct(l1, one) == l2 by {
      assert Insert(l1, a) == l2;
      assert one[1..] == none;
    }
    var l3: seq<string> := [SuppressionsHeader, a, FilesHeader];
    assert AddDistinct(l2, [FilesHeader]) == l3 by {
      assert Insert(l2, FilesHeader) == l3;
      assert [FilesHeader][1..] == none;
    }
    assert AddDistinct(l3, one) == l3 by {
      assert Insert(l3, a) == l3;
      assert one[1..] == none;
    }
    var l5: seq<string> := [SuppressionsHeader, a, FilesHeader, IncludesHeader];
    assert AddDistinct(l3, [IncludesHeader]) == l5 by {
      assert Insert(l3, IncludesHeader) == l5;
      assert [IncludesHeader][1..] == none;
    }
    assert AddDistinct(l5, none) == l5;
    assert l5 == [SuppressionsHeader] + [a] + [FilesHeader] + none + [IncludesHeader] + none;
  }

  /** A string held both as a suppression and as a file mask is written once and
      read back only as a suppression: the round trip needs disjoint sets. */
  lemma SharedEntryIsLost()
    ensures var rules := Rules({"a"}, {"a"}, {});
            LoadFromFile(Some(SaveToFile(rules))) == Rules({"a"}, {}, {})
  {
    var a := "a";
    assert a != SuppressionsHeader && a != FilesHeader && a != IncludesHeader by {
      assert |a| == 1;
    }
    SaveOfShared(a);
    var none: seq<string> := [];
    var file := [SuppressionsHeader] + [a] + [FilesHeader] + none + [IncludesHeader] + none;
    assert !StartsWith(a, "[") by {
      assert a[..1][0] == a[0] != "["[0];
    }
    LoadThreeSections([a], none, none);
    OneLetterIsNormalised(a);
    NormalisedLinesOfOne(a);
    ElementsOfNothing(none);
    assert NormalisedLines([a]) == {a};
    assert LoadFromFile(Some(file)) == Rules({a}, {}, {});
  }

}
