/**
  The package's busy/idle menu switch and the two file counters behind the
  status-bar progress text: `completedFileCount` (files of analyzers that
  have finished) and `lastAnalyzerTotalFiles` (the total most recently
  reported by the analyzer still running).
 */
module Progress {

  /** The seven menu commands whose `Enabled` flag `setMenuState` writes. */
  datatype Menu = Menu(
    checkCurrentProject: bool,
    checkCurrentProjectContext: bool,
    checkCurrentProjectsContext: bool,
    showSettingsWindow: bool,
    cancelCheck: bool,
    checkSelections: bool,
    checkMultiSelections: bool)

  /** Every command that starts a check or opens the settings. */
  function CheckCommands(m: Menu): seq<bool> {
    [m.checkCurrentProject, m.checkCurrentProjectContext, m.checkCurrentProjectsContext,
     m.showSettingsWindow, m.checkSelections, m.checkMultiSelections]
  }

  /** Cancel is offered exactly when nothing else is. */
  predicate Exclusive(m: Menu) {
    forall i :: 0 <= i < |CheckCommands(m)| ==> CheckCommands(m)[i] != m.cancelCheck
  }

  /** `setMenuState(busy)`. */
  function SetMenuState(busy: bool): (m: Menu)
    ensures m.cancelCheck == busy
    ensures Exclusive(m)
  {
    Menu(!busy, !busy, !busy, !busy, busy, !busy, !busy)
  }

  /** The menu state is determined by the busy flag alone, and the busy flag
      can be read back from the menu. */
  lemma MenuStateIsBusyFlag(m: Menu, busy: bool)
    ensures m == SetMenuState(busy) <==> Exclusive(m) && m.cancelCheck == busy
  {
    if Exclusive(m) && m.cancelCheck == busy {
      assert CheckCommands(m)[0] != busy && CheckCommands(m)[1] != busy && CheckCommands(m)[2] != busy;
      assert CheckCommands(m)[3] != busy && CheckCommands(m)[4] != busy && CheckCommands(m)[5] != busy;
    }
  }

  /** What the status bar shows as its text. The in-progress counts are
      kept as numbers; their decimal rendering is not modelled. */
  datatype StatusLabel =
    | InProgress
    | InProgressCounts(filesChecked: int, totalFiles: int)
    | Completed

  datatype StatusBar = StatusBar(inProgress: bool, text: StatusLabel, percentage: int)

  /** `ProgressEvenArgs`: percentage, files checked and total files. */
  datatype ProgressEvent = ProgressEvent(progress: int, filesChecked: int, totalFiles: int)

  /** The package fields touched by a check run. */
  datatype Package = Package(
    completedFileCount: int,
    lastAnalyzerTotalFiles: int,
    menu: Menu,
    status: StatusBar)

  /** A report of 0% is shown as 1%, since the status bar draws no bar at 0. */
  function ShownProgress(e: ProgressEvent): (r: int)
    ensures r != 0
    ensures e.progress != 0 ==> r == e.progress
  {
    if e.progress == 0 then 1 else e.progress
  }

  predicate IsFinished(e: ProgressEvent) {
    ShownProgress(e) >= 100
  }

  /** `checkProgressUpdated`. Below 100% the running analyzer's total is
      remembered; at 100% or more it is added to the completed files, the
      remembered total is cleared and the menu leaves the busy state. The
      later, delayed hiding of the status bar is not part of this step. */
  function ProgressUpdated(p: Package, e: ProgressEvent): (r: Package)
    ensures r.status.inProgress && r.status.percentage == ShownProgress(e)
    ensures !IsFinished(e) ==>
              r.completedFileCount == p.completedFileCount && r.lastAnalyzerTotalFiles == e.totalFiles
              && r.menu == p.menu && r.status.text != Completed
    ensures !IsFinished(e) && (e.filesChecked == 0 || e.totalFiles == 0) ==> r.status.text == InProgress
    ensures !IsFinished(e) && e.filesChecked != 0 && e.totalFiles != 0 ==>
              r.status.text.InProgressCounts?
              && r.status.text.filesChecked - e.filesChecked == p.completedFileCount
              && r.status.text.totalFiles - e.totalFiles == p.completedFileCount
    ensures IsFinished(e) ==>
              r.completedFileCount == p.completedFileCount + p.lastAnalyzerTotalFiles
              && r.lastAnalyzerTotalFiles == 0 && !r.menu.cancelCheck && Exclusive(r.menu)
              && r.status.text == Completed
  {
    var progress := ShownProgress(e);
    if progress < 100 then
      var shown :=
        if e.filesChecked == 0 || e.totalFiles == 0 then InProgress
        else InProgressCounts(p.completedFileCount + e.filesChecked, p.completedFileCount + e.totalFiles);
      p.(lastAnalyzerTotalFiles := e.totalFiles, status := StatusBar(true, shown, progress))
    else
      Package(p.completedFileCount + p.lastAnalyzerTotalFiles, 0, SetMenuState(false),
              StatusBar(true, Completed, if progress >= 100 then progress else 100))
  }

  /** `runAnalysis` with `analyzers` analyzers: the completed count is reset,
      and the running total is reset once per analyzer, so with no analyzer
      it keeps its old value. */
  function RunAnalysis(p: Package, analyzers: nat): (r: Package)
    ensures r.completedFileCount == 0
    ensures analyzers > 0 ==> r.lastAnalyzerTotalFiles == 0
    ensures analyzers == 0 ==> r.lastAnalyzerTotalFiles == p.lastAnalyzerTotalFiles
    ensures r.menu == p.menu && r.status == p.status
  {
    var q := p.(completedFileCount := 0);
    if analyzers == 0 then q else q.(lastAnalyzerTotalFiles := 0)
  }

  /** Events delivered one after another. */
  function Deliver(p: Package, events: seq<ProgressEvent>): Package
    decreases |events|
  {
    if |events| == 0 then p else Deliver(ProgressUpdated(p, events[0]), events[1..])
  }

  lemma {:induction false} DeliverAppend(p: Package, a: seq<ProgressEvent>, b: seq<ProgressEvent>)
    ensures Deliver(p, a + b) == Deliver(Deliver(p, a), b)
    decreases |a|
  {
    if |a| > 0 {
      assert (a + b)[0] == a[0];
      assert (a + b)[1..] == a[1..] + b;
      DeliverAppend(ProgressUpdated(p, a[0]), a[1..], b);
    } else {
      assert a + b == b;
    }
  }

  /** What one analyzer reports: some in-progress events, then its final one. */
  datatype Report = Report(updates: seq<ProgressEvent>, done: ProgressEvent)

  predicate WellFormed(rep: Report) {
    IsFinished(rep.done) && forall i :: 0 <= i < |rep.updates| ==> !IsFinished(rep.updates[i])
  }

  function Events(reports: seq<Report>): seq<ProgressEvent>
    decreases |reports|
  {
    if |reports| == 0 then [] else reports[0].updates + [reports[0].done] + Events(reports[1..])
  }

  /** The number of files an analyzer reported last before finishing. */
  function LastTotal(rep: Report): int {
    if |rep.updates| == 0 then 0 else rep.updates[|rep.updates| - 1].totalFiles
  }

  function SumLastTotals(reports: seq<Report>): int
    decreases |reports|
  {
    if |reports| == 0 then 0 else LastTotal(reports[0]) + SumLastTotals(reports[1..])
  }

  /** In-progress events only remember the most recent total. */
  lemma {:induction false} UpdatesRememberLastTotal(p: Package, updates: seq<ProgressEvent>)
    requires forall i :: 0 <= i < |updates| ==> !IsFinished(updates[i])
    ensures Deliver(p, updates).completedFileCount == p.completedFileCount
    ensures Deliver(p, updates).lastAnalyzerTotalFiles
            == (if |updates| == 0 then p.lastAnalyzerTotalFiles else updates[|updates| - 1].totalFiles)
    decreases |updates|
  {
    if |updates| > 0 {
      UpdatesRememberLastTotal(ProgressUpdated(p, updates[0]), updates[1..]);
    }
  }

  /** Once the running total has been cleared, one analyzer's report adds
      exactly the total it last announced to the completed files, and leaves
      the running total cleared and the menu idle again. */
  lemma OneReport(p: Package, rep: Report)
    requires WellFormed(rep) && p.lastAnalyzerTotalFiles == 0
    ensures Deliver(p, rep.updates + [rep.done]).completedFileCount == p.completedFileCount + LastTotal(rep)
    ensures Deliver(p, rep.updates + [rep.done]).lastAnalyzerTotalFiles == 0
    ensures Deliver(p, rep.updates + [rep.done]).menu == SetMenuState(false)
  {
    DeliverAppend(p, rep.updates, [rep.done]);
    UpdatesRememberLastTotal(p, rep.updates);
  }

  /** After `runAnalysis`, a run of well-formed analyzer reports leaves
      `completedFileCount` equal to the sum of the totals the analyzers last
      announced: each finished analyzer is counted once, with its own total. */
  lemma {:induction false} CompletedCountsEachAnalyzerOnce(p: Package, reports: seq<Report>)
    requires forall k :: 0 <= k < |reports| ==> WellFormed(reports[k])
    ensures Deliver(RunAnalysis(p, 1), Events(reports)).completedFileCount == SumLastTotals(reports)
  {
    ReportsAdd(RunAnalysis(p, 1), reports);
  }

  lemma {:induction false} ReportsAdd(p: Package, reports: seq<Report>)
    requires forall k :: 0 <= k < |reports| ==> WellFormed(reports[k])
    requires p.lastAnalyzerTotalFiles == 0
    ensures Deliver(p, Events(reports)).completedFileCount == p.completedFileCount + SumLastTotals(reports)
    ensures Deliver(p, Events(reports)).lastAnalyzerTotalFiles == 0
    ensures |reports| > 0 ==> Deliver(p, Events(reports)).menu == SetMenuState(false)
    decreases |reports|
  {
    if |reports| > 0 {
      var rep := reports[0];
      var first := rep.updates + [rep.done];
      assert Events(reports) == first + Events(reports[1..]);
      DeliverAppend(p, first, Events(reports[1..]));
      OneReport(p, rep);
      ReportsAdd(Deliver(p, first), reports[1..]);
      if |reports| > 1 {
        assert Deliver(p, Events(reports)).menu == SetMenuState(false);
      } else {
        assert Events(reports[1..]) == [];
      }
    }
  }

  /** A second "finished" event with no update in between adds nothing:
      a finished analyzer is not counted twice. */
  lemma FinishingTwiceCountsOnce(p: Package, done1: ProgressEvent, done2: ProgressEvent)
    requires IsFinished(done1) && IsFinished(done2)
    ensures Deliver(p, [done1, done2]).completedFileCount == p.completedFileCount + p.lastAnalyzerTotalFiles
  {
    var q := ProgressUpdated(p, done1);
    assert [done1, done2][1..] == [done2];
    assert Deliver(p, [done1, done2]) == Deliver(q, [done2]);
    assert Deliver(q, [done2]) == ProgressUpdated(q, done2);
  }
}
