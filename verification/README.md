# cppcheck-vs-addin core, modelled in Dafny

This project models the pure logic inside the Visual Studio add-in that runs
cppcheck on C++ projects, and proves properties about that logic. The modelled
parts are:

- **Suppressions** (`SuppressionsInfo`):
  - the three rule sets: cppcheck suppression lines, file-skip masks and
    include-skip masks;
  - the normalisation of a suppression line: split on `:`, star the path,
    keep three components, collapse doubled backslashes;
  - the sectioned line format `[cppcheck]` / `[cppcheck_files]` /
    `[cppcheck_includes]`, read by `LoadFromFile` and written by `SaveToFile`;
  - `UnionWith`.
- **Analyzer** (`AnalyzerCppcheck`):
  - the older suppressions reader `readSuppressions`;
  - the part of `analyze` that assembles the cppcheck command line: built-in
    and per-project suppressions, de-duplicated include paths without Qt ones,
    the file list, and the macros synthesised from the compiler version and
    the 64-bit and debug flags.
- **Grouping**: the loop of `checkProjectsAsync` that cuts a project's files
  into groups with the same preprocessor setup.
- **Progress**: the busy/idle menu switch `setMenuState`, the counter reset of
  `runAnalysis`, and the counters of `checkProgressUpdated`.
- **SourceFiles** (`SourceFile`): `cleanPath`, the constructor, the set-once
  path setters, `addIncludePath(s)` and `addMacro(s)`.
- **Problems** (`Problem`): the relative-to-absolute rule of `FilePath`.
- **ChecksPanel**:
  - `FormatTooltip`, which wraps at the first space at index 100 or later;
  - `LoadSettings`, `GetSeveritiesString` and `GetSuppressionsString`, which
    move checkbox states to and from two comma-separated strings.
- **ItemsListEditor**: the `Items` property, which joins a set into text and
  splits text back into a set.

`Text` holds the .NET string operations these rely on (`Split`, `Join`,
`Replace`, `StartsWith`, `IndexOf`, `ToLower`), stated over `seq<char>`.

Modelling choices:

- A .NET `null` string is `Option<string>`. `OrEmpty` gives what `null` becomes
  inside a C# concatenation.
- A file on disk is its sequence of lines.
- Hash sets are modelled in one of two ways:
  - Where the order of insertion is visible, a hash set is a sequence without
    repetition, built by appending what is new (`Insert`, `AddDistinct`).
  - Where the code enumerates a set it was handed, the order is the ghost
    `Text.Enumeration`: some listing of the set without repetition.
- Settings, the processor count, the configuration's 64-bit and debug flags,
  and the file system are parameters.

## Model

| member | source | states |
|---|---|---|
| Text.Split | CPPCheckPlugin/SuppressionsInfo.cs:78 | `Split` on a character gives at least one piece, and no piece holds the separator |
| Text.JoinSplit | CPPCheckPlugin/SuppressionsInfo.cs:78 | joining the pieces of a split with the same separator gives the original string back |
| Text.SplitJoin | CPPCheckPlugin/ChecksPanel.cs:54-55 | splitting a join of separator-free pieces gives the same pieces back |
| Text.RemoveChar | CPPCheckPlugin/SuppressionsInfo.cs:52 | `Replace("[", "")` removes exactly that character and keeps every other character |
| Text.CollapseBackslashes | CPPCheckPlugin/SuppressionsInfo.cs:89 | collapsing doubled backslashes never lengthens a string and keeps its first character |
| Text.CollapseFixedPoint | CPPCheckPlugin/SuppressionsInfo.cs:89 | collapsing changes a string exactly when it holds two adjacent backslashes |
| Text.CollapseUndoesEscape | CPPCheckPlugin/SuppressionsInfo.cs:89 | collapsing is a left inverse of doubling every backslash |
| Text.CollapseJoin | CPPCheckPlugin/SuppressionsInfo.cs:82-89 | collapsing a `:`-join equals joining the collapsed components |
| Text.SplitCollapse | CPPCheckPlugin/SuppressionsInfo.cs:78-89 | splitting a collapsed string gives the collapsed pieces of the split |
| Text.ToLower | CPPCheckPlugin/AnalyzerCppcheck.cs:56 | lower-casing keeps the length and maps each character on its own |
| Text.IndexOfFrom | CPPCheckPlugin/ChecksPanel.cs:139 | `IndexOf(c, from)` is the first index at or after `from` holding `c`; it is absent exactly when no such index exists |
| Text.Enumeration | CPPCheckPlugin/SuppressionsInfo.cs:23-29 | a hash set's enumeration lists each member exactly once and nothing else |
| Suppressions.RebuildIsJoin | CPPCheckPlugin/SuppressionsInfo.cs:78-86 | the rebuilt line is the first three components, path starred, joined with `:` |
| Suppressions.RebuildEmpty | CPPCheckPlugin/SuppressionsInfo.cs:82-88 | the rebuilt string is empty exactly when the raw line is empty |
| Suppressions.NormaliseSuppression | CPPCheckPlugin/SuppressionsInfo.cs:76-90 | a line has no normal form, so nothing is inserted, exactly when it is empty |
| Suppressions.NormalisedComponents | CPPCheckPlugin/SuppressionsInfo.cs:78-89 | read back through `Split`, the normal form has min(n, 3) components: the collapsed id, the collapsed starred path, the collapsed line |
| Suppressions.RebuildKeepsShaped | CPPCheckPlugin/SuppressionsInfo.cs:78-86 | a line with at most three components and a starred path is rebuilt unchanged |
| Suppressions.NormalisedIsShaped | CPPCheckPlugin/SuppressionsInfo.cs:78-89 | every normal form has at most three components and a starred path |
| Suppressions.NormalisedIsFixedPoint | CPPCheckPlugin/SuppressionsInfo.cs:76-90 | exactly the shaped, non-empty lines without a doubled backslash are their own normal form |
| Suppressions.NormaliseTwice | CPPCheckPlugin/SuppressionsInfo.cs:76-90 | normalising a normal form again only collapses backslashes once more |
| Suppressions.NormaliseIdempotentIff | CPPCheckPlugin/SuppressionsInfo.cs:76-90 | normalisation is idempotent on a line exactly when its normal form holds no doubled backslash |
| Suppressions.NormaliseNotIdempotent | CPPCheckPlugin/SuppressionsInfo.cs:89 | four backslashes in a row give a line whose second normalisation differs from its first |
| Suppressions.AddSuppressionLine | CPPCheckPlugin/SuppressionsInfo.cs:76-90 | the suppressions gain exactly the normal form of the line, if there is one; the two mask sets are untouched; an empty line changes nothing |
| Suppressions.AddExistingIsNoOp | CPPCheckPlugin/SuppressionsInfo.cs:88-89 | re-adding a line whose normal form is already present changes nothing |
| Suppressions.UnionWith | CPPCheckPlugin/SuppressionsInfo.cs:92-97 | each set becomes the union with the argument's matching set, member by member |
| Suppressions.UnionWithIsCommutativeAndAssociative | CPPCheckPlugin/SuppressionsInfo.cs:92-97 | merging is commutative, associative and idempotent, and merging no rules changes nothing |
| Suppressions.SectionName | CPPCheckPlugin/SuppressionsInfo.cs:52 | a section name holds no `[` and no `]` |
| Suppressions.SectionNameOfHeader | CPPCheckPlugin/SuppressionsInfo.cs:50-52 | a bracketed bracket-free name is a header that opens the section of that name |
| Suppressions.HeadersNameSections | CPPCheckPlugin/SuppressionsInfo.cs:50-67 | the three headers start with `[` and open the sections `cppcheck`, `cppcheck_files` and `cppcheck_includes` |
| Suppressions.LoadLines | CPPCheckPlugin/SuppressionsInfo.cs:46-71 | loaded masks are non-header lines of the file, and loaded suppressions are normal forms of its lines |
| Suppressions.LoadFromFile | CPPCheckPlugin/SuppressionsInfo.cs:36-74 | the sets are cleared first, so a missing file gives three empty sets, and every mask comes from a non-header line |
| Suppressions.LoadSectionBody | CPPCheckPlugin/SuppressionsInfo.cs:54-67 | the non-header lines under the current section all go into the set that section names |
| Suppressions.LoadSection | CPPCheckPlugin/SuppressionsInfo.cs:50-53 | a line starting with `[` is not stored; it switches the current section to its bracket-free name |
| Suppressions.LinesOutsideSectionsIgnored | CPPCheckPlugin/SuppressionsInfo.cs:56-67 | lines before any header, or under an unknown section, change nothing |
| Suppressions.Insert | CPPCheckPlugin/SuppressionsInfo.cs:23-29 | `HashSet.Add` in insertion order keeps the list free of repetition and adds exactly the new string |
| Suppressions.AddDistinctFacts | CPPCheckPlugin/SuppressionsInfo.cs:23-29 | adding a run of strings keeps the set repetition-free, holds exactly the old and the new strings, and leaves the old ones in front |
| Suppressions.AddDistinctFresh | CPPCheckPlugin/SuppressionsInfo.cs:23-29 | adding distinct strings that are all new appends them as they are |
| Suppressions.AddDistinctConcat | CPPCheckPlugin/SuppressionsInfo.cs:23-29 | adding two runs one after the other is adding their concatenation |
| Suppressions.SaveToFile | CPPCheckPlugin/SuppressionsInfo.cs:21-33 | the file written repeats no line and holds exactly the three headers and the members of the three sets |
| Suppressions.SaveToFileIsOneRun | CPPCheckPlugin/SuppressionsInfo.cs:21-33 | the six insertions of `SaveToFile` add header, suppressions, header, file masks, header, include masks in that order |
| Suppressions.SaveToFileContents | CPPCheckPlugin/SuppressionsInfo.cs:21-33 | the file starts with `[cppcheck]`, repeats no line, and holds exactly the three headers and the members of the three sets |
| Suppressions.SaveLayout | CPPCheckPlugin/SuppressionsInfo.cs:21-33 | when the sets share nothing and hold no header, the file is each header followed by its own set |
| Suppressions.LoadThreeSections | CPPCheckPlugin/SuppressionsInfo.cs:36-74 | a file of the three headers, each followed by non-header lines, loads as the normalised first section and the verbatim other two |
| Suppressions.SaveLoadRoundTrip | CPPCheckPlugin/SuppressionsInfo.cs:21-74 | loading what was saved gives the same three sets when they are pairwise disjoint, no entry starts with `[`, and every suppression is normalised, with a file taken as its sequence of lines (an entry holding a line break is not given back by the program) |
| Suppressions.SaveOfShared | CPPCheckPlugin/SuppressionsInfo.cs:23-27 | a string held both as a suppression and as a file mask is written once, under `[cppcheck]` |
| Suppressions.SharedEntryIsLost | CPPCheckPlugin/SuppressionsInfo.cs:21-74 | such a string comes back only as a suppression, so the round trip needs disjoint sets |
| Analyzer.ReadLines | CPPCheckPlugin/AnalyzerCppcheck.cs:143-166 | the read loop keeps its set repetition-free and loses nothing already found |
| Analyzer.SuppressionsFileInBaseDirectory | CPPCheckPlugin/AnalyzerCppcheck.cs:136 | the file read is the base path (empty when null) followed by `\suppressions.cfg` |
| Analyzer.ReadSuppressions | CPPCheckPlugin/AnalyzerCppcheck.cs:134-170 | the result has no repetition, and a missing `suppressions.cfg` under the base path gives no suppressions |
| Analyzer.ReadLinesContents | CPPCheckPlugin/AnalyzerCppcheck.cs:144-166 | the suppressions read are exactly the normal forms of the non-group lines whose group is `cppcheck` |
| Analyzer.ReadAgreesWithLoader | CPPCheckPlugin/AnalyzerCppcheck.cs:146-165 | where a `[` only ever starts a line, `readSuppressions` and `LoadFromFile` find the same suppressions |
| Analyzer.BracketInsideSuppressionOpensGroup | CPPCheckPlugin/AnalyzerCppcheck.cs:146-150 | a suppression with a `[` past its first character drops it and the lines after it, where `LoadFromFile` keeps them all |
| Analyzer.BuiltinSuppressionsDistinct | CPPCheckPlugin/AnalyzerCppcheck.cs:21 | the nine built-in suppression ids are distinct |
| Analyzer.ProjectPaths | CPPCheckPlugin/AnalyzerCppcheck.cs:24-28 | the project paths are exactly the files' base paths, each once |
| Analyzer.AddAll | CPPCheckPlugin/AnalyzerCppcheck.cs:33 | `UnionWith` on an insertion-ordered set holds exactly the old and the new members, each once |
| Analyzer.CollectSuppressions | CPPCheckPlugin/AnalyzerCppcheck.cs:21-34 | the suppression ids are exactly the built-in ones and those read for some file's project, each once |
| Analyzer.CollectIncludePaths | CPPCheckPlugin/AnalyzerCppcheck.cs:47-52 | the include paths are exactly those of some file, each once |
| Analyzer.IncludeArguments | CPPCheckPlugin/AnalyzerCppcheck.cs:54-61 | a path gets an `-I` argument exactly when its lower-case form does not contain `qt` |
| Analyzer.DefinesMacros | CPPCheckPlugin/AnalyzerCppcheck.cs:68 | macros are spelled out never for no file, for one file exactly under the file-only setting, and for several exactly under the project-only setting |
| Analyzer.MscVersion | CPPCheckPlugin/AnalyzerCppcheck.cs:73-87 | each compiler version defines `_MSC_VER` with a four-digit value |
| Analyzer.MscVersionsDiffer | CPPCheckPlugin/AnalyzerCppcheck.cs:73-87 | two different compiler versions define different `_MSC_VER` values |
| Analyzer.PlatformMacrosFacts | CPPCheckPlugin/AnalyzerCppcheck.cs:71-108 | the fixed macros always include `__cplusplus`, the `_MSC_VER` of the version, `WIN32` and `_WIN32`; `_M_X64` and `_WIN64` exactly for 64-bit, `_M_IX86` exactly otherwise, and `_DEBUG` exactly for a debug configuration |
| Analyzer.PlatformMacrosDistinct | CPPCheckPlugin/AnalyzerCppcheck.cs:71-108 | no fixed macro is added twice |
| Analyzer.CollectMacros | CPPCheckPlugin/AnalyzerCppcheck.cs:70-110 | the macros are exactly the platform macros for the first file's compiler and flags plus every file's macros, each once |
| Analyzer.Analyze | CPPCheckPlugin/AnalyzerCppcheck.cs:12-116 | an empty file list builds nothing; otherwise it has the settings, first base path and core count, each suppression and non-Qt include path once, every file in list order, and macros only under the current-configuration settings |
| Grouping.SameElementsIffSameSet | CPPCheckPlugin/CPPCheckPluginPackage.cs:532-534 | mutual `All(Contains)` holds exactly when two lists have the same element set |
| Grouping.MatchesIffSameKey | CPPCheckPlugin/CPPCheckPluginPackage.cs:532-535 | the grouping test holds exactly when the two files have the same key, so it is an equivalence |
| Grouping.CollectMatching | CPPCheckPlugin/CPPCheckPluginPackage.cs:528-541 | the inner loop gives the template followed by the matching files in project order, and leaves the others in reversed order |
| Grouping.GroupFiles | CPPCheckPlugin/CPPCheckPluginPackage.cs:516-547 | the grouping loop terminates and emits, with the project's configuration, exactly the groups of the reference grouping, in order |
| Grouping.MatchingSplits | CPPCheckPlugin/CPPCheckPluginPackage.cs:528-541 | the files that match and the files that do not together make up the list |
| Grouping.MatchingIsWithKey | CPPCheckPlugin/CPPCheckPluginPackage.cs:532-539 | the files matching a template are exactly the files with its key, in order |
| Grouping.NonMatchingKeys | CPPCheckPlugin/CPPCheckPluginPackage.cs:532-539 | the files left behind come from the list and have another key |
| Grouping.NonMatchingKeepsOtherKeys | CPPCheckPlugin/CPPCheckPluginPackage.cs:532-539 | removing one key's files loses nothing of any other key |
| Grouping.GroupsPartitionFiles | CPPCheckPlugin/CPPCheckPluginPackage.cs:516-547 | the groups together hold every file exactly as often as the project lists it |
| Grouping.GroupsAreKeyClasses | CPPCheckPlugin/CPPCheckPluginPackage.cs:521-541 | no group is empty, each starts with a file of the project, and each is every file with its template's key, in project order |
| Grouping.GroupsHaveDistinctKeys | CPPCheckPlugin/CPPCheckPluginPackage.cs:528-547 | the templates of different groups differ in at least one of the four compared values |
| Grouping.FirstKeysOfNonMatching | CPPCheckPlugin/CPPCheckPluginPackage.cs:528-541 | removing the files that match a template removes its key from the first-occurrence order and keeps the rest of that order |
| Grouping.GroupsInFirstOccurrenceOrder | CPPCheckPlugin/CPPCheckPluginPackage.cs:513-530 | the groups come in the order in which their keys first occur among the files |
| Progress.SetMenuState | CPPCheckPlugin/CPPCheckPluginPackage.cs:114-123 | Cancel is enabled exactly when busy, and every other command exactly when Cancel is not |
| Progress.MenuStateIsBusyFlag | CPPCheckPlugin/CPPCheckPluginPackage.cs:114-123 | a menu is `setMenuState(busy)` exactly when it is exclusive and Cancel equals `busy` |
| Progress.ShownProgress | CPPCheckPlugin/CPPCheckPluginPackage.cs:801-803 | a reported 0% is shown as 1%, and every other value as reported |
| Progress.ProgressUpdated | CPPCheckPlugin/CPPCheckPluginPackage.cs:799-836 | below 100% the running total becomes the event's total and the label counts the completed files in; otherwise completed grows by the running total, which is cleared, and the menu goes idle |
| Progress.RunAnalysis | CPPCheckPlugin/CPPCheckPluginPackage.cs:635-644 | the completed count is reset, and the running total is reset only when there is an analyzer |
| Progress.UpdatesRememberLastTotal | CPPCheckPlugin/CPPCheckPluginPackage.cs:808-818 | in-progress events keep the completed count and remember only the last total |
| Progress.OneReport | CPPCheckPlugin/CPPCheckPluginPackage.cs:808-834 | one analyzer's report adds the total it last announced, clears the running total and leaves the menu idle |
| Progress.ReportsAdd | CPPCheckPlugin/CPPCheckPluginPackage.cs:808-834 | a run of well-formed reports adds the sum of the totals each analyzer last announced |
| Progress.CompletedCountsEachAnalyzerOnce | CPPCheckPlugin/CPPCheckPluginPackage.cs:635-644 | after `runAnalysis`, the completed count is the sum of the analyzers' last announced totals |
| Progress.FinishingTwiceCountsOnce | CPPCheckPlugin/CPPCheckPluginPackage.cs:819-823 | a second "finished" event adds nothing more |
| SourceFiles.CleanPath | CPPCheckPlugin/SourceFile.cs:66-74 | a cleaned path holds no quote and is no longer than the input |
| SourceFiles.CleanPathFixedPoint | CPPCheckPlugin/SourceFile.cs:66-74 | cleaning leaves a path unchanged exactly when it holds no quote, no doubled backslash and no backslash at either end |
| SourceFiles.CleanPathDropsQuotes | CPPCheckPlugin/SourceFile.cs:68 | quotes around a path make no difference |
| SourceFiles.CleanPathStripsOneSeparator | CPPCheckPlugin/SourceFile.cs:69-73 | one backslash at each end of a clean path is stripped, and nothing else changes |
| SourceFiles.NewSourceFile | CPPCheckPlugin/SourceFile.cs:10-14 | the constructor sets both paths, cleaned, and starts with no include paths or macros |
| SourceFiles.ConstructorKeepsCleanPaths | CPPCheckPlugin/SourceFile.cs:10-14 | clean paths are stored verbatim |
| SourceFiles.SetFilePath | CPPCheckPlugin/SourceFile.cs:46 | the setter's assertion holds exactly when the path was null; it stores the cleaned value and changes nothing else |
| SourceFiles.SetBaseProjectPath | CPPCheckPlugin/SourceFile.cs:52 | the setter's assertion holds exactly when the base path was null; it stores the cleaned value and changes nothing else |
| SourceFiles.SettersAreSetOnce | CPPCheckPlugin/SourceFile.cs:44-54 | a second set, or a set after the constructor, fails the assertion |
| SourceFiles.AddIncludePath | CPPCheckPlugin/SourceFile.cs:17-21 | with a null or empty base path nothing changes; otherwise exactly one path, without quotes, is appended, and an absolute path that is already clean is appended as given |
| SourceFiles.AddIncludePaths | CPPCheckPlugin/SourceFile.cs:23-29 | only the include paths change; the old ones stay in front and at most one path per list entry is added |
| SourceFiles.AddIncludePathsWithoutBase | CPPCheckPlugin/SourceFile.cs:23-29 | with a null or empty base path, adding a list changes nothing |
| SourceFiles.AddIncludePathsAppends | CPPCheckPlugin/SourceFile.cs:23-29 | otherwise the resolved paths are appended in list order, duplicates kept, and nothing else changes |
| SourceFiles.IncludePathResolution | CPPCheckPlugin/SourceFile.cs:20 | a clean path with `:` is stored as given; any other path is the cleaned base plus path, with no separator added |
| SourceFiles.AddMacro | CPPCheckPlugin/SourceFile.cs:31-34 | the macro is added last, after the macros already there, and nothing else changes |
| SourceFiles.AddMacros | CPPCheckPlugin/SourceFile.cs:36-42 | every macro of the list is added, one entry each, after the macros already there, and nothing else changes |
| SourceFiles.AddMacrosAppends | CPPCheckPlugin/SourceFile.cs:31-42 | adding macros appends exactly the list, duplicates kept, and nothing else changes |
| Problems.FilePath | CPPCheckPlugin/Problem.cs:60-75 | a blank file, a file with `:`, or a blank base path gives the stored file; otherwise the result ends in a backslash and the file |
| Problems.RelativeFileGetsOneSeparator | CPPCheckPlugin/Problem.cs:72 | the joined path is the base without its trailing backslash, one backslash, then the file |
| Problems.AbsoluteBaseGivesFixedPoint | CPPCheckPlugin/Problem.cs:60-75 | with an absolute base the result is absolute, so a second pass changes nothing |
| ChecksPanel.Wrap | CPPCheckPlugin/ChecksPanel.cs:137-145 | wrapping emits at least one segment |
| ChecksPanel.FormatTooltip | CPPCheckPlugin/ChecksPanel.cs:133-147 | the loop terminates, and the tooltip is the segments of `"id : " + id + "\n" + verbose` joined with line breaks |
| ChecksPanel.WrapJoinsBack | CPPCheckPlugin/ChecksPanel.cs:139-145 | joining the segments with single spaces gives the text back |
| ChecksPanel.WrapBreaksLate | CPPCheckPlugin/ChecksPanel.cs:136-143 | every segment but the last is at least 100 long and has no space at index 100 or later, and the last one is at most 100 long or has no space at index 100 or later: a break falls at the first space allowed, and wrapping stops only when no space is left to break at |
| ChecksPanel.ShortTooltipUnchanged | CPPCheckPlugin/ChecksPanel.cs:137-145 | a text of at most 100 characters is returned unchanged |
| ChecksPanel.TooltipStartsWithId | CPPCheckPlugin/ChecksPanel.cs:136 | when the id holds no space, the tooltip begins with the id line |
| ChecksPanel.LoadSettings | CPPCheckPlugin/ChecksPanel.cs:52-78 | without an `error` severity it throws; otherwise a check is checked exactly when not suppressed, `error` is checked and locked, and named severities are checked and enabled |
| ChecksPanel.DropLeadingEmpty | CPPCheckPlugin/ChecksPanel.cs:87-88 | with no empty id, every id is kept |
| ChecksPanel.AppendCsvJoins | CPPCheckPlugin/ChecksPanel.cs:85-89 | each step of a save loop extends the comma-join of the ids met so far |
| ChecksPanel.GetSeveritiesString | CPPCheckPlugin/ChecksPanel.cs:80-93 | the result is the comma-join of the checked severities other than `error` |
| ChecksPanel.AppendUnchecked | CPPCheckPlugin/ChecksPanel.cs:100-108 | the inner loop extends the comma-join with one severity's unchecked ids |
| ChecksPanel.GetSuppressionsString | CPPCheckPlugin/ChecksPanel.cs:95-111 | the result is the comma-join of the ids of all unchecked checks, severity by severity |
| ChecksPanel.UncheckedIdsMembers | CPPCheckPlugin/ChecksPanel.cs:100-107 | the ids written are exactly those of unchecked checks |
| ChecksPanel.CheckedSeverityIdsMembers | CPPCheckPlugin/ChecksPanel.cs:83-90 | the ids written are exactly those of checked severities other than `error` |
| ChecksPanel.NamedIdsOfJoin | CPPCheckPlugin/ChecksPanel.cs:54-55 | splitting a comma-join of non-empty comma-free ids names exactly those ids |
| ChecksPanel.UncheckedIdOf | CPPCheckPlugin/ChecksPanel.cs:100-107 | with distinct ids, a check's id is written exactly when it is unchecked |
| ChecksPanel.SuppressionsStringRoundTrip | CPPCheckPlugin/ChecksPanel.cs:55-62 | after a save, a reload checks a check exactly when it was checked, for non-empty, comma-free, distinct ids |
| ChecksPanel.SeveritiesStringRoundTrip | CPPCheckPlugin/ChecksPanel.cs:70-90 | after a save, a severity other than `error` is named exactly when it was checked |
| ChecksPanel.ReloadRestoresPanel | CPPCheckPlugin/ChecksPanel.cs:52-111 | a save and a reload keep every check's state and every severity's box state, with `error` checked, and enable a list exactly when its box is checked |
| ItemsListEditor.SplitLines | CPPCheckPlugin/SuppressionsSettingsUI/ItemsListEditor.xaml.cs:38 | splitting on `\r\n` or `\n` gives at least one piece |
| ItemsListEditor.SetItems | CPPCheckPlugin/SuppressionsSettingsUI/ItemsListEditor.xaml.cs:35 | when the set is not empty and every entry is a line, the lines of the text are exactly the entries, each once |
| ItemsListEditor.LinesOfJoin | CPPCheckPlugin/SuppressionsSettingsUI/ItemsListEditor.xaml.cs:35-38 | a non-empty list of lines joined with `\n` splits back into that list |
| ItemsListEditor.GetItems | CPPCheckPlugin/SuppressionsSettingsUI/ItemsListEditor.xaml.cs:36-40 | the getter never returns the empty entry |
| ItemsListEditor.SplitLinesAfterLine | CPPCheckPlugin/SuppressionsSettingsUI/ItemsListEditor.xaml.cs:38 | a line followed by either separator is one piece, followed by the pieces of the rest |
| ItemsListEditor.SplitLinesJoin | CPPCheckPlugin/SuppressionsSettingsUI/ItemsListEditor.xaml.cs:35-38 | lines joined with `\n` split back into the same lines |
| ItemsListEditor.ItemsRoundTrip | CPPCheckPlugin/SuppressionsSettingsUI/ItemsListEditor.xaml.cs:33-41 | reading back what the setter wrote gives the same set, when no entry is empty, holds a `\n` or ends in `\r` |
| ItemsListEditor.LineBreakSplitsEntry | CPPCheckPlugin/SuppressionsSettingsUI/ItemsListEditor.xaml.cs:35-39 | an entry with a `\n` inside comes back as its two lines |

## Behaviour worth knowing

- Normalising a suppression line is not idempotent. A normal form that still
  holds two adjacent backslashes loses one more on a second pass: four
  backslashes become two, then one. `Suppressions.NormaliseIdempotentIff`
  characterises the lines on which it is idempotent.
- An empty normal form is skipped with `IsNullOrEmpty`: a line of spaces is
  kept.
- `readSuppressions` treats any line holding a `[` as a group header.
  `LoadFromFile` only treats a line that starts with `[` as one. The two
  readers disagree on such lines; see
  `Analyzer.BracketInsideSuppressionOpensGroup`.
- `runAnalysis` resets `lastAnalyzerTotalFiles` inside the loop over
  analyzers. With no analyzer, the old value stays.
- `LoadSettings` never unchecks a severity's box. A severity missing from the
  severities string keeps its box state; only its list is disabled.
- The two save loops write a comma only once something has been written. An
  empty id at the front therefore leaves no trace (`DropLeadingEmpty`).

## Left out

- Running cppcheck and reading its output, the cppcheck-path file dialog,
  and saving the settings (`AnalyzerCppcheck.cs:118-131`): these are process
  and UI interaction.
- The Visual Studio object model: project discovery, file scanning, the tool
  settings read from project configurations, `ConfiguredFiles`, `DTEHelper`.
  The 64-bit and debug predicates are boolean parameters.
- Async and threading: task switches and `AtomicBool`. The counters are
  updated one event at a time, as if events were delivered in sequence.
- The delayed status-bar hiding five seconds after completion, and the
  decimal text of the in-progress label. The label keeps its two counts as
  numbers.
- WPF controls, the settings windows, `GenerateControls` with its
  culture-sensitive sort, and the XML parsing of the checks list.
- `CreateDefaultGlobalSuppressions`: a fixed list of default masks with no
  logic.
- Reading and writing lines of text (`ReadLine`, `WriteAllLines`, their line
  endings and encoding): a file is its sequence of lines.
- `suppressionsFilePathByStorage`: it is called but not defined in the
  source, so file locations are parameters.
- `Properties.Settings`: values are parameters.
- `Problem.FileName`: `Path.GetFileName` is a library call.
- Regular-expression meaning of the skip masks: no modelled code applies
  them, so they are opaque strings.
- `SourceFile.cs` declares neither `vcCompilerVersion` nor `MacrosToUndefine`
  nor `ProjectName`, though other code reads them. The analyzer pairs each
  file with a `CompilerVersion` (`Analyzer.AnalyzedFile`), and the grouping
  uses its own record of the four compared values (`Grouping.GroupedFile`).
- `addOrUpdateFile` is not in the source. It is taken to append, which the
  grouping order relies on.
- `cleanPath(null)` throws in C#. The constructor's paths are modelled as
  non-null strings.
- The `Problem` analyzer field is an opaque number.
- `Text.ToLower`: only ASCII letters are lowered. The culture-sensitive
  lower-casing of other characters is not modelled; it only matters for
  letters that lower to `q` or `t`.
- `Text.StartsWith`: compares characters ordinally. The C# calls pass no
  `StringComparison`, so they compare under the current culture, which
  ignores characters such as the soft hyphen (U+00AD). A line such as
  `"\u00AD[cppcheck]"` is a section header to `LoadFromFile` in C#, while
  `Suppressions.LoadLines` stores it as an entry.
- `Text.EndsWith`: compares characters ordinally, with the same gap as
  `Text.StartsWith`. `cleanPath` strips a trailing soft hyphen together
  with the backslash before it in C#; `SourceFiles.CleanPath` keeps both.
- `Suppressions.SaveLoadRoundTrip`: holds because a file is its sequence of
  lines. `WriteAllLines` followed by `ReadLine` splits an entry holding
  `"\n"` or `"\r"` into several lines, so such an entry does not come back.
  The lemma promises the round trip only under the file-as-lines model;
  `Suppressions.SavesFaithfully` rests on the same model.
- `Analyzer.Analyze`: produces the structured parts of the command line, not
  the string. Spacing, quoting and the decimal rendering of `-j` are not
  modelled.
- `Analyzer.Analyze`: hash sets enumerate in insertion order, so the order
  of the suppression, include and macro arguments is one possible order.
  Their contracts state membership and absence of repetition, not order.
- `Suppressions.SaveToFileContents`: states membership and order only for
  the first line. The exact order is `Suppressions.SaveLayout`, under the
  hash-set enumeration model.
- `ChecksPanel.LoadSettings`: a panel without an `error` severity throws a
  `KeyNotFoundException` in C#; here the result is `None`. A nullable
  `IsChecked` is a `bool`.
- `ChecksPanel.FormatTooltip`: `Environment.NewLine` is taken to be `"\r\n"`.
- `ChecksPanel.FormatTooltip`, `ChecksPanel.Wrap` and `Text.IndexOfFrom`:
  lengths and indices count Unicode scalar values, not the UTF-16 code units
  that `Length`, `IndexOf` and `Substring` count in C#. A message holding a
  character outside the Basic Multilingual Plane therefore wraps at a
  different place: the C# code counts such a character twice towards column
  100. An unpaired surrogate cannot be represented at all.
  `ChecksPanel.WrapBreaksLate` and `ChecksPanel.ShortTooltipUnchanged`
  measure the column in the same units.
- `Progress.ProgressUpdated`: `completedFileCount` and
  `lastAnalyzerTotalFiles` are unbounded integers here. In C# they are
  32-bit `int` fields whose `+=` wraps on overflow.
- `Analyzer.Analyze`: requires a positive core count from its callers. The C#
  code only checks this with `Debug.Assert`, which does not stop a release
  build, and the field it reads is not declared in the source shown here.
