/**
  The checks panel of the settings window: the tooltip text built for each
  cppcheck check, and the checkbox states it loads from and saves to two
  comma-separated settings strings.
 */
module ChecksPanel {
  import opened Text

  // ---------------------------------------------------------------------------
  // FormatTooltip

  /** `Environment.NewLine` on Windows, the only platform of the add-in. */
  const NewLine := "\r\n"

  /** Lines are broken at the first space at or after this index. */
  const WrapColumn := 100

  /** The text a tooltip starts from: the check id, a line break, and the
      verbose message. */
  function TooltipText(id: string, verboseMessage: string): string {
    "id : " + id + "\n" + verboseMessage
  }

  /** The segments the wrap loop emits: a text of at most `WrapColumn`
      characters, or one with no space at or after that index, is the last
      segment; otherwise the text up to that space is a segment, the space
      is dropped, and wrapping goes on with the rest. */
  function Wrap(text: string): (segments: seq<string>)
    ensures |segments| >= 1
    decreases |text|
  {
    if |text| <= WrapColumn then [text]
    else match IndexOfFrom(text, ' ', WrapColumn)
      case None => [text]
      case Some(k) => [text[..k]] + Wrap(text[k + 1..])
  }

  /** `FormatTooltip`. `severity` and `message` are accepted and not used. */
  method FormatTooltip(id: string, severity: string, message: string, verboseMessage: string)
    returns (tooltip: string)
    ensures tooltip == Join(Wrap(TooltipText(id, verboseMessage)), NewLine)
  {
    var text := TooltipText(id, verboseMessage);
    var multiline := "";
    var remaining := text;
    while |remaining| > WrapColumn
      invariant Join(Wrap(text), NewLine) == multiline + Join(Wrap(remaining), NewLine)
      decreases |remaining|
    {
      var spaceIdx := IndexOfFrom(remaining, ' ', WrapColumn);
      if spaceIdx.None? {
        break;
      }
      var k := spaceIdx.value;
      var rest := remaining[k + 1..];
      assert Wrap(remaining) == [remaining[..k]] + Wrap(rest);
      assert Join(Wrap(remaining), NewLine) == remaining[..k] + NewLine + Join(Wrap(rest), NewLine);
      multiline := multiline + remaining[..k] + NewLine;
      remaining := rest;
    }
    assert Wrap(remaining) == [remaining];
    tooltip := multiline + remaining;
  }

  /** Joining the segments with single spaces gives the text back: wrapping
      only turns some spaces into line breaks. */
  lemma {:induction false} WrapJoinsBack(text: string)
    ensures Join(Wrap(text), " ") == text
    decreases |text|
  {
    if |text| > WrapColumn {
      match IndexOfFrom(text, ' ', WrapColumn)
      case None =>
      case Some(k) =>
        var rest := text[k + 1..];
        WrapJoinsBack(rest);
        JoinCons(text[..k], Wrap(rest), " ");
        SplitAt(text, k);
        assert [text[k]] == " ";
    }
  }

  /** Every segment but the last is at least `WrapColumn` long and holds no
      space at or after that index: each break is at the first space allowed.
      The last segment is short or has no space left to break at: wrapping
      stops only when it has to. */
  lemma {:induction false} WrapBreaksLate(text: string)
    ensures var segments := Wrap(text);
            forall i :: 0 <= i < |segments| - 1 ==>
              |segments[i]| >= WrapColumn && ' ' !in segments[i][WrapColumn..]
    ensures var segments := Wrap(text);
            var last := segments[|segments| - 1];
            |last| <= WrapColumn || ' ' !in last[WrapColumn..]
    decreases |text|
  {
    if |text| > WrapColumn {
      match IndexOfFrom(text, ' ', WrapColumn)
      case None =>
        assert forall c :: c in text[WrapColumn..] ==> c != ' ';
      case Some(k) =>
        var rest := text[k + 1..];
        WrapBreaksLate(rest);
        var segments := Wrap(text);
        assert segments[1..] == Wrap(rest);
        assert forall j :: WrapColumn <= j < k ==> text[..k][j] != ' ';
        forall i | 0 <= i < |segments| - 1
          ensures |segments[i]| >= WrapColumn && ' ' !in segments[i][WrapColumn..]
        {
          if i > 0 {
            assert segments[i] == Wrap(rest)[i - 1];
          } else {
            assert segments[0] == text[..k];
            assert forall c :: c in text[..k][WrapColumn..] ==> c != ' ';
          }
        }
    }
  }

  /** A text of at most `WrapColumn` characters comes back unchanged. */
  lemma ShortTooltipUnchanged(id: string, verboseMessage: string)
    requires |TooltipText(id, verboseMessage)| <= WrapColumn
    ensures Join(Wrap(TooltipText(id, verboseMessage)), NewLine) == TooltipText(id, verboseMessage)
  {
  }

  /** The tooltip begins with the id line when the id holds no space: the
      only spaces before the verbose message are too early to break at. */
  lemma TooltipStartsWithId(id: string, verboseMessage: string)
    requires ' ' !in id
    ensures StartsWith(Join(Wrap(TooltipText(id, verboseMessage)), NewLine), "id : " + id + "\n")
  {
    var prefix := "id : " + id + "\n";
    var text := TooltipText(id, verboseMessage);
    assert text == prefix + verboseMessage;
    var segments := Wrap(text);
    assert StartsWith(segments[0], prefix) by {
      if |text| > WrapColumn {
        match IndexOfFrom(text, ' ', WrapColumn)
        case None =>
        case Some(k) =>
          assert forall j :: 5 <= j < |prefix| - 1 ==> prefix[j] == id[j - 5];
          assert k >= |prefix|;
          assert segments[0] == text[..k];
          assert text[..k][..|prefix|] == prefix;
      }
    }
    if |segments| > 1 {
      assert Join(segments, NewLine) == segments[0] + (NewLine + Join(segments[1..], NewLine));
    }
  }

  // ---------------------------------------------------------------------------
  // Checkbox states and the two settings strings

  /** One check of one severity and the state of its checkbox. */
  datatype Check = Check(id: string, message: string, checked: bool)

  /** One severity: its checks, its own checkbox (state, whether it can be
      clicked, caption) and whether the list of its checks is enabled. */
  datatype Severity = Severity(
    id: string,
    checks: seq<Check>,
    checked: bool,
    enabled: bool,
    content: string,
    scrollEnabled: bool)

  /** The severities in dictionary order; the dictionary is keyed by `id`. */
  type Panel = seq<Severity>

  const ErrorSeverity := "error"
  const ErrorContent := "error (can't be disabled)"

  function SeverityIds(panel: Panel): seq<string> {
    seq(|panel|, i requires 0 <= i < |panel| => panel[i].id)
  }

  predicate HasSeverity(panel: Panel, id: string) {
    exists i :: 0 <= i < |panel| && panel[i].id == id
  }

  /** The ids a settings string names. */
  function NamedIds(setting: string): set<string> {
    set x | x in Split(setting, ',')
  }

  /** What `LoadSettings` leaves of one severity, given the names in
      `SeveritiesString` and those in `SuppressionsString`: each check is
      checked exactly when it is not suppressed; the severity's list is
      enabled exactly when it is `error` or named; the severity's box is
      checked when it is `error`, named, or was checked already; `error`'s
      box can no longer be clicked and says so. */
  predicate Reloaded(before: Severity, after: Severity, enabled: set<string>, suppressed: set<string>) {
    var isError := before.id == ErrorSeverity;
    && after.id == before.id
    && |after.checks| == |before.checks|
    && (forall j :: 0 <= j < |before.checks| ==>
          after.checks[j] == before.checks[j].(checked := before.checks[j].id !in suppressed))
    && after.scrollEnabled == (isError || before.id in enabled)
    && after.checked == (isError || before.id in enabled || before.checked)
    && after.enabled == (before.enabled && !isError)
    && after.content == (if isError then ErrorContent else before.content)
  }

  /** The first loop of `LoadSettings` on one severity. */
  function ApplySuppressions(sev: Severity, suppressed: set<string>): Severity {
    sev.(scrollEnabled := false,
         checks := seq(|sev.checks|, j requires 0 <= j < |sev.checks| =>
                     sev.checks[j].(checked := sev.checks[j].id !in suppressed)))
  }

  /** Locking the `error` severity. */
  function LockError(sev: Severity): Severity {
    if sev.id == ErrorSeverity
    then sev.(checked := true, enabled := false, content := ErrorContent, scrollEnabled := true)
    else sev
  }

  /** Checking the severity named `name`, if there is one. */
  function EnableSeverity(sev: Severity, name: string): Severity {
    if sev.id == name then sev.(checked := true, scrollEnabled := true) else sev
  }

  /** `LoadSettings`. The `error` severity is looked up by key, so a panel
      without it throws, which is `None` here. */
  method LoadSettings(panel: Panel, severitiesString: string, suppressionsString: string)
    returns (r: Option<Panel>)
    ensures r.None? <==> !HasSeverity(panel, ErrorSeverity)
    ensures r.Some? ==> |r.value| == |panel|
    ensures r.Some? ==> forall i :: 0 <= i < |panel| ==>
              Reloaded(panel[i], r.value[i], NamedIds(severitiesString), NamedIds(suppressionsString))
  {
    var enabledSeverities := Split(severitiesString, ',');
    var suppressions := NamedIds(suppressionsString);
    var p: Panel := [];
    var i := 0;
    while i < |panel|
      invariant 0 <= i <= |panel| && |p| == i
      invariant forall k :: 0 <= k < i ==> p[k] == ApplySuppressions(panel[k], suppressions)
    {
      var sev := panel[i];
      var checks: seq<Check> := [];
      var j := 0;
      while j < |sev.checks|
        invariant 0 <= j <= |sev.checks| && |checks| == j
        invariant forall m :: 0 <= m < j ==> checks[m] == sev.checks[m].(checked := sev.checks[m].id !in suppressions)
      {
        checks := checks + [sev.checks[j].(checked := sev.checks[j].id !in suppressions)];
        j := j + 1;
      }
      p := p + [sev.(scrollEnabled := false, checks := checks)];
      i := i + 1;
    }
    if !HasSeverity(p, ErrorSeverity) {
      assert forall k :: 0 <= k < |panel| ==> panel[k].id == p[k].id;
      return None;
    }
    assert HasSeverity(panel, ErrorSeverity) by {
      var k :| 0 <= k < |p| && p[k].id == ErrorSeverity;
      assert panel[k].id == ErrorSeverity;
    }
    p := seq(|p|, k requires 0 <= k < |p| => LockError(p[k]));
    var n := 0;
    while n < |enabledSeverities|
      invariant 0 <= n <= |enabledSeverities| && |p| == |panel|
      invariant forall k :: 0 <= k < |panel| ==>
                  var sev := LockError(ApplySuppressions(panel[k], suppressions));
                  var named := panel[k].id in enabledSeverities[..n];
                  p[k] == if named then sev.(checked := true, scrollEnabled := true) else sev
    {
      var name := enabledSeverities[n];
      assert forall x :: x in enabledSeverities[..n + 1] <==> x in enabledSeverities[..n] || x == name;
      if HasSeverity(p, name) {
        p := seq(|p|, k requires 0 <= k < |p| => EnableSeverity(p[k], name));
      } else {
        assert forall k :: 0 <= k < |p| ==> p[k].id != name;
      }
      n := n + 1;
    }
    assert enabledSeverities[..n] == enabledSeverities;
    r := Some(p);
  }

  // ---------------------------------------------------------------------------
  // Saving the states

  /** The ids after any leading empty ones: the save loops put a comma before
      an id only when something has been written already. */
  function DropLeadingEmpty(ids: seq<string>): (r: seq<string>)
    ensures |r| > 0 ==> r[0] != ""
    ensures (forall i :: 0 <= i < |ids| ==> ids[i] != "") ==> r == ids
    decreases |ids|
  {
    if |ids| == 0 then []
    else if ids[0] == "" then DropLeadingEmpty(ids[1..])
    else ids
  }

  /** One step of the save loops: a comma unless nothing is written yet, then the id. */
  function AppendCsv(result: string, id: string): string {
    (if |result| != 0 then result + "," else result) + id
  }

  lemma {:induction false} JoinAppend(parts: seq<string>, x: string, sep: string)
    requires |parts| >= 1
    ensures Join(parts + [x], sep) == Join(parts, sep) + sep + x
    decreases |parts|
  {
    if |parts| == 1 {
      assert (parts + [x])[1..] == [x];
    } else {
      assert (parts + [x])[1..] == parts[1..] + [x];
      JoinAppend(parts[1..], x, sep);
    }
  }

  lemma JoinLength(parts: seq<string>, sep: string)
    requires |parts| >= 1
    ensures |Join(parts, sep)| >= |parts[0]|
  {
  }

  /** The save loops write the comma-join of the ids met so far, leading empty
      ones left out. */
  lemma {:induction false} AppendCsvJoins(ids: seq<string>, x: string)
    ensures AppendCsv(Join(DropLeadingEmpty(ids), ","), x) == Join(DropLeadingEmpty(ids + [x]), ",")
    decreases |ids|
  {
    if |ids| == 0 {
      assert ids + [x] == [x];
    } else if ids[0] == "" {
      assert (ids + [x])[1..] == ids[1..] + [x];
      AppendCsvJoins(ids[1..], x);
    } else {
      JoinLength(ids, ",");
      JoinAppend(ids, x, ",");
    }
  }

  /** The ids `GetSeveritiesString` writes: the checked severities other than `error`. */
  function CheckedSeverityIds(panel: Panel): seq<string>
    decreases |panel|
  {
    if |panel| == 0 then []
    else
      var last := panel[|panel| - 1];
      CheckedSeverityIds(panel[..|panel| - 1]) + (if last.id != ErrorSeverity && last.checked then [last.id] else [])
  }

  /** Every check of the panel, severity by severity. */
  function AllChecks(panel: Panel): seq<Check>
    decreases |panel|
  {
    if |panel| == 0 then [] else AllChecks(panel[..|panel| - 1]) + panel[|panel| - 1].checks
  }

  /** The ids `GetSuppressionsString` writes: those of the unchecked checks. */
  function UncheckedIds(checks: seq<Check>): seq<string>
    decreases |checks|
  {
    if |checks| == 0 then []
    else
      var last := checks[|checks| - 1];
      UncheckedIds(checks[..|checks| - 1]) + (if !last.checked then [last.id] else [])
  }

  /** `GetSeveritiesString`. */
  method GetSeveritiesString(panel: Panel) returns (result: string)
    ensures result == Join(DropLeadingEmpty(CheckedSeverityIds(panel)), ",")
  {
    result := "";
    var i := 0;
    while i < |panel|
      invariant 0 <= i <= |panel|
      invariant result == Join(DropLeadingEmpty(CheckedSeverityIds(panel[..i])), ",")
    {
      var sev := panel[i];
      var before := CheckedSeverityIds(panel[..i]);
      assert panel[..i + 1][..i] == panel[..i];
      if sev.id != ErrorSeverity && sev.checked {
        assert CheckedSeverityIds(panel[..i + 1]) == before + [sev.id];
        AppendCsvJoins(before, sev.id);
        result := AppendCsv(result, sev.id);
      } else {
        assert CheckedSeverityIds(panel[..i + 1]) == before + [];
        assert before + [] == before;
      }
      i := i + 1;
    }
    assert panel[..i] == panel;
  }

  lemma UncheckedIdsStep(done: seq<Check>, checks: seq<Check>, j: nat)
    requires j < |checks|
    ensures UncheckedIds(done + checks[..j + 1])
            == UncheckedIds(done + checks[..j]) + (if !checks[j].checked then [checks[j].id] else [])
  {
    var seen := done + checks[..j + 1];
    assert seen[..|seen| - 1] == done + checks[..j];
    assert seen[|seen| - 1] == checks[j];
  }

  /** The inner loop of `GetSuppressionsString`, over one severity's checks. */
  method AppendUnchecked(result0: string, done: seq<Check>, checks: seq<Check>) returns (result: string)
    requires result0 == Join(DropLeadingEmpty(UncheckedIds(done)), ",")
    ensures result == Join(DropLeadingEmpty(UncheckedIds(done + checks)), ",")
  {
    result := result0;
    var j := 0;
    assert done + checks[..0] == done;
    while j < |checks|
      invariant 0 <= j <= |checks|
      invariant result == Join(DropLeadingEmpty(UncheckedIds(done + checks[..j])), ",")
    {
      var before := UncheckedIds(done + checks[..j]);
      UncheckedIdsStep(done, checks, j);
      if !checks[j].checked {
        AppendCsvJoins(before, checks[j].id);
        result := AppendCsv(result, checks[j].id);
      } else {
        assert before + [] == before;
      }
      j := j + 1;
    }
    assert checks[..j] == checks;
  }

  /** `GetSuppressionsString`. */
  method GetSuppressionsString(panel: Panel) returns (result: string)
    ensures result == Join(DropLeadingEmpty(UncheckedIds(AllChecks(panel))), ",")
  {
    result := "";
    var i := 0;
    while i < |panel|
      invariant 0 <= i <= |panel|
      invariant result == Join(DropLeadingEmpty(UncheckedIds(AllChecks(panel[..i]))), ",")
    {
      result := AppendUnchecked(result, AllChecks(panel[..i]), panel[i].checks);
      assert panel[..i + 1][..i] == panel[..i];
      assert AllChecks(panel[..i + 1]) == AllChecks(panel[..i]) + panel[i].checks;
      i := i + 1;
    }
    assert panel[..i] == panel;
  }

  // ---------------------------------------------------------------------------
  // Saving and loading again

  lemma {:induction false} UncheckedIdsMembers(checks: seq<Check>)
    ensures forall x :: x in UncheckedIds(checks) <==>
              exists k :: 0 <= k < |checks| && checks[k].id == x && !checks[k].checked
    decreases |checks|
  {
    if |checks| > 0 {
      var n := |checks| - 1;
      var prefix := checks[..n];
      UncheckedIdsMembers(prefix);
      assert forall k :: 0 <= k < n ==> prefix[k] == checks[k];
      forall x | exists k :: 0 <= k < |checks| && checks[k].id == x && !checks[k].checked
        ensures x in UncheckedIds(checks)
      {
        var k :| 0 <= k < |checks| && checks[k].id == x && !checks[k].checked;
        if k < n {
          assert prefix[k].id == x;
        }
      }
    }
  }

  lemma {:induction false} CheckedSeverityIdsMembers(panel: Panel)
    ensures forall x :: x in CheckedSeverityIds(panel) <==>
              exists k :: 0 <= k < |panel| && panel[k].id == x && x != ErrorSeverity && panel[k].checked
    decreases |panel|
  {
    if |panel| > 0 {
      var n := |panel| - 1;
      var prefix := panel[..n];
      CheckedSeverityIdsMembers(prefix);
      assert forall k :: 0 <= k < n ==> prefix[k] == panel[k];
      forall x | exists k :: 0 <= k < |panel| && panel[k].id == x && x != ErrorSeverity && panel[k].checked
        ensures x in CheckedSeverityIds(panel)
      {
        var k :| 0 <= k < |panel| && panel[k].id == x && x != ErrorSeverity && panel[k].checked;
        if k < n {
          assert prefix[k].id == x;
        }
      }
    }
  }

  /** Ids that are non-empty and comma-free come back from the comma-join as
      exactly the ids joined. */
  lemma NamedIdsOfJoin(ids: seq<string>)
    requires forall i :: 0 <= i < |ids| ==> ids[i] != "" && ',' !in ids[i]
    ensures forall x :: x != "" ==> (x in NamedIds(Join(ids, ",")) <==> x in ids)
  {
    if |ids| > 0 {
      SplitJoin(ids, ',');
    }
  }

  /** With distinct ids, a check's id is written exactly when the check is
      unchecked. */
  lemma UncheckedIdOf(checks: seq<Check>, k: int)
    requires 0 <= k < |checks|
    requires forall a, b :: 0 <= a < b < |checks| ==> checks[a].id != checks[b].id
    ensures checks[k].id in UncheckedIds(checks) <==> !checks[k].checked
  {
    UncheckedIdsMembers(checks);
    if checks[k].id in UncheckedIds(checks) {
      var m :| 0 <= m < |checks| && checks[m].id == checks[k].id && !checks[m].checked;
      assert m == k;
    }
  }

  /** The ids written are ids of checks, so they share any property all
      check ids have. */
  lemma UncheckedIdsAreIds(checks: seq<Check>)
    requires forall k :: 0 <= k < |checks| ==> checks[k].id != "" && ',' !in checks[k].id
    ensures forall i :: 0 <= i < |UncheckedIds(checks)| ==>
              UncheckedIds(checks)[i] != "" && ',' !in UncheckedIds(checks)[i]
  {
    var ids := UncheckedIds(checks);
    UncheckedIdsMembers(checks);
    forall i | 0 <= i < |ids| ensures ids[i] != "" && ',' !in ids[i] {
      assert ids[i] in ids;
    }
  }

  /** Saving the check states and loading them again: a check is suppressed
      exactly when it was unchecked, provided check ids are non-empty,
      comma-free and distinct. */
  lemma SuppressionsStringRoundTrip(checks: seq<Check>)
    requires forall k :: 0 <= k < |checks| ==> checks[k].id != "" && ',' !in checks[k].id
    requires forall a, b :: 0 <= a < b < |checks| ==> checks[a].id != checks[b].id
    ensures var saved := Join(DropLeadingEmpty(UncheckedIds(checks)), ",");
            forall k :: 0 <= k < |checks| ==> (checks[k].id !in NamedIds(saved) <==> checks[k].checked)
  {
    var ids := UncheckedIds(checks);
    UncheckedIdsAreIds(checks);
    NamedIdsOfJoin(ids);
    forall k | 0 <= k < |checks|
      ensures checks[k].id !in NamedIds(Join(ids, ",")) <==> checks[k].checked
    {
      UncheckedIdOf(checks, k);
    }
  }

  lemma SeveritiesStringRoundTrip(panel: Panel)
    requires forall k :: 0 <= k < |panel| ==> panel[k].id != "" && ',' !in panel[k].id
    requires forall a, b :: 0 <= a < b < |panel| ==> panel[a].id != panel[b].id
    ensures var saved := Join(DropLeadingEmpty(CheckedSeverityIds(panel)), ",");
            forall k :: 0 <= k < |panel| && panel[k].id != ErrorSeverity ==>
              (panel[k].id in NamedIds(saved) <==> panel[k].checked)
  {
    var ids := CheckedSeverityIds(panel);
    CheckedSeverityIdsMembers(panel);
    assert forall i :: 0 <= i < |ids| ==> ids[i] != "" && ',' !in ids[i] by {
      forall i | 0 <= i < |ids| ensures ids[i] != "" && ',' !in ids[i] {
        assert ids[i] in ids;
      }
    }
    NamedIdsOfJoin(ids);
    forall k | 0 <= k < |panel| && panel[k].id in ids
      ensures panel[k].checked
    {
      var m :| 0 <= m < |panel| && panel[m].id == panel[k].id && panel[k].id != ErrorSeverity && panel[m].checked;
      assert m == k;
    }
  }

  lemma {:induction false} ChecksInAll(panel: Panel, i: int, j: int)
    requires 0 <= i < |panel| && 0 <= j < |panel[i].checks|
    ensures panel[i].checks[j] in AllChecks(panel)
    decreases |panel|
  {
    var n := |panel| - 1;
    if i < n {
      ChecksInAll(panel[..n], i, j);
    } else {
      assert AllChecks(panel)[|AllChecks(panel[..n])| + j] == panel[i].checks[j];
    }
  }

  /** Loading what was just saved restores the panel: every check keeps its
      state, every severity keeps its box state (`error` is checked anyway),
      and a severity's list is enabled exactly when its box is checked. */
  lemma ReloadRestoresPanel(panel: Panel, after: Panel)
    requires forall k :: 0 <= k < |panel| ==> panel[k].id != "" && ',' !in panel[k].id
    requires forall a, b :: 0 <= a < b < |panel| ==> panel[a].id != panel[b].id
    requires var cs := AllChecks(panel);
             forall k :: 0 <= k < |cs| ==> cs[k].id != "" && ',' !in cs[k].id
    requires var cs := AllChecks(panel);
             forall a, b :: 0 <= a < b < |cs| ==> cs[a].id != cs[b].id
    requires |after| == |panel|
    requires var severities := Join(DropLeadingEmpty(CheckedSeverityIds(panel)), ",");
             var suppressions := Join(DropLeadingEmpty(UncheckedIds(AllChecks(panel))), ",");
             forall i :: 0 <= i < |panel| ==>
               Reloaded(panel[i], after[i], NamedIds(severities), NamedIds(suppressions))
    ensures forall i :: 0 <= i < |panel| ==>
              && after[i].checks == panel[i].checks
              && after[i].checked == (panel[i].checked || panel[i].id == ErrorSeverity)
              && after[i].scrollEnabled == after[i].checked
  {
    var cs := AllChecks(panel);
    SeveritiesStringRoundTrip(panel);
    SuppressionsStringRoundTrip(cs);
    forall i | 0 <= i < |panel|
      ensures after[i].checks == panel[i].checks
    {
      forall j | 0 <= j < |panel[i].checks|
        ensures after[i].checks[j] == panel[i].checks[j]
      {
        ChecksInAll(panel, i, j);
      }
    }
  }
}
