/** The Jest scenarios of the background tracker, each replayed on a fresh
    tracker. A focus request the test's browser stub answers with an
    activation echo is replayed as a call of OnActivated with the focused tab;
    a stub that does not echo leaves that call out. Each method returns what
    its test inspects and states the expected values. */
module Scenarios {
  import opened Wrappers
  import opened TabHistory
  import opened Background
  import Options

  /** Tracker with the default depth after activating 1, 2, 3. */
  method ThreeTabs() returns (t: TabTracker)
    ensures fresh(t) && t.Valid()
    ensures t.history == [3, 2, 1] && t.cursor == 0 && !t.rotating && t.pending == None && t.maxSize == 5
  {
    t := new TabTracker(None);
    t.TrackTabActivation(1);
    t.TrackTabActivation(2);
    RecordedFresh([1], 2, 5);
    t.TrackTabActivation(3);
    RecordedFresh([2, 1], 3, 5);
  }

  method SingleActivation() returns (h: seq<TabId>)
    ensures h == [1]
  {
    var t := new TabTracker(None);
    t.TrackTabActivation(1);
    h := t.GetTabHistory();
  }

  method ActivationsInOrder() returns (h: seq<TabId>)
    ensures h == [3, 2, 1]
  {
    var t := ThreeTabs();
    h := t.GetTabHistory();
  }

  method HistoryBoundedBySize() returns (h: seq<TabId>)
    ensures h == [5, 4, 3] && |h| == 3
  {
    var t := new TabTracker(Some(3));
    t.TrackTabActivation(1);
    t.TrackTabActivation(2);
    RecordedFresh([1], 2, 3);
    t.TrackTabActivation(3);
    RecordedFresh([2, 1], 3, 3);
    t.TrackTabActivation(4);
    RecordedFresh([3, 2, 1], 4, 3);
    t.TrackTabActivation(5);
    RecordedFresh([4, 3, 2], 5, 3);
    h := t.GetTabHistory();
  }

  /** The histories the re-activation scenario passes through. */
  lemma NoDuplicateTabsSteps()
    ensures Recorded([2, 1], 1, 5) == [1, 2]
    ensures Recorded([1, 2], 3, 5) == [3, 1, 2]
    ensures Recorded([3, 1, 2], 2, 5) == [2, 3, 1]
  {
    RecordedExisting([2, 1], 1, 5);
    RecordedFresh([1, 2], 3, 5);
    RecordedExisting([3, 1, 2], 2, 5);
    assert [3, 1, 2][..2] + [3, 1, 2][3..] == [3, 1];
  }

  method NoDuplicateTabs() returns (h: seq<TabId>)
    ensures h == [2, 3, 1] && |h| == 3
  {
    var t := new TabTracker(None);
    t.TrackTabActivation(1);
    t.TrackTabActivation(2);
    RecordedFresh([1], 2, 5);
    NoDuplicateTabsSteps();
    t.TrackTabActivation(1);
    t.TrackTabActivation(3);
    t.TrackTabActivation(2);
    h := t.GetTabHistory();
  }

  method RemoveClosedTab() returns (h: seq<TabId>)
    ensures h == [3, 1] && |h| == 2
  {
    var t := ThreeTabs();
    t.RemoveTabFromHistory(2);
    WithoutAt([3, 2, 1], 1);
    h := t.GetTabHistory();
  }

  /** Two echoed forward rotations, then the user clicks tab 4. */
  method ManualSwitchClearsForward() returns (h: seq<TabId>)
    ensures h == [4, 1]
  {
    var t := ThreeTabs();
    var f := t.RotateForward();
    t.OnActivated(f);
    f := t.RotateForward();
    t.OnActivated(f);
    t.OnActivated(4);
    ActivatedMidRotation([3, 2, 1], 2, 4, 5);
    h := t.GetTabHistory();
  }

  method RotateForwardFocusesNext() returns (focus: TabId)
    ensures focus == 2
  {
    var t := ThreeTabs();
    focus := t.RotateForward();
  }

  method RotateReverseGoesBack() returns (focus: TabId)
    ensures focus == 3
  {
    var t := ThreeTabs();
    var f := t.RotateForward();
    focus := t.RotateReverse();
  }

  /** Rotations without echo: the history stays put and the third forward
      rotation wraps to tab 3. */
  method RotationKeepsHistory() returns (h1: seq<TabId>, h2: seq<TabId>, focus: TabId, h3: seq<TabId>)
    ensures h1 == [3, 2, 1] && h2 == [3, 2, 1] && h3 == [3, 2, 1]
    ensures focus == 3
  {
    var t := ThreeTabs();
    var f := t.RotateForward();
    h1 := t.GetTabHistory();
    f := t.RotateForward();
    h2 := t.GetTabHistory();
    focus := t.RotateForward();
    h3 := t.GetTabHistory();
  }

  /** Each rotation's focus request is echoed; the echoes are swallowed. */
  method EchoIgnored() returns (h1: seq<TabId>, h2: seq<TabId>)
    ensures h1 == [3, 2, 1] && h2 == [3, 2, 1]
  {
    var t := ThreeTabs();
    var f := t.RotateForward();
    t.OnActivated(f);
    h1 := t.GetTabHistory();
    f := t.RotateForward();
    t.OnActivated(f);
    h2 := t.GetTabHistory();
  }

  /** Four echoed forward rotations on [4, 3, 2, 1]; the history is read
      after each one. */
  method ForwardCycle() returns (foci: seq<TabId>, hs: seq<seq<TabId>>)
    ensures foci == [3, 2, 1, 4]
    ensures hs == [[4, 3, 2, 1], [4, 3, 2, 1], [4, 3, 2, 1], [4, 3, 2, 1]]
  {
    var t := ThreeTabs();
    t.TrackTabActivation(4);
    RecordedFresh([3, 2, 1], 4, 5);
    assert t.history == [4, 3, 2, 1];
    var f := t.RotateForward();
    t.OnActivated(f);
    var h := t.GetTabHistory();
    foci, hs := [f], [h];
    f := t.RotateForward();
    t.OnActivated(f);
    h := t.GetTabHistory();
    foci, hs := foci + [f], hs + [h];
    f := t.RotateForward();
    t.OnActivated(f);
    h := t.GetTabHistory();
    foci, hs := foci + [f], hs + [h];
    f := t.RotateForward();
    t.OnActivated(f);
    h := t.GetTabHistory();
    foci, hs := foci + [f], hs + [h];
  }

  /** Three echoed reverse rotations on [3, 2, 1]; the history is read after
      each one. */
  method ReverseCycle() returns (foci: seq<TabId>, hs: seq<seq<TabId>>)
    ensures foci == [1, 2, 3]
    ensures hs == [[3, 2, 1], [3, 2, 1], [3, 2, 1]]
  {
    var t := ThreeTabs();
    var f := t.RotateReverse();
    t.OnActivated(f);
    var h := t.GetTabHistory();
    foci, hs := [f], [h];
    f := t.RotateReverse();
    t.OnActivated(f);
    h := t.GetTabHistory();
    foci, hs := foci + [f], hs + [h];
    f := t.RotateReverse();
    t.OnActivated(f);
    h := t.GetTabHistory();
    foci, hs := foci + [f], hs + [h];
  }

  method AlternateDirections() returns (foci: seq<TabId>, h: seq<TabId>)
    ensures foci == [2, 1, 2, 3] && h == [3, 2, 1]
  {
    var t := ThreeTabs();
    var f := t.RotateForward();
    t.OnActivated(f);
    foci := [f];
    f := t.RotateForward();
    t.OnActivated(f);
    foci := foci + [f];
    f := t.RotateReverse();
    t.OnActivated(f);
    foci := foci + [f];
    f := t.RotateReverse();
    t.OnActivated(f);
    foci := foci + [f];
    h := t.GetTabHistory();
  }

  /** A manual switch at cursor 2 leaves [4, 1]; the next rotation starts
      from the front again and focuses tab 1. */
  method ManualSwitchResetsPosition() returns (h: seq<TabId>, focus: TabId)
    ensures h == [4, 1] && focus == 1
  {
    var t := ThreeTabs();
    var f := t.RotateForward();
    t.OnActivated(f);
    f := t.RotateForward();
    t.OnActivated(f);
    t.OnActivated(4);
    ActivatedMidRotation([3, 2, 1], 2, 4, 5);
    h := t.GetTabHistory();
    focus := t.RotateForward();
  }

  method CommitAfterQuiet() returns (before: seq<TabId>, after: seq<TabId>)
    ensures before == [3, 2, 1] && after == [2, 3, 1]
  {
    var t := ThreeTabs();
    var f := t.RotateForward();
    before := t.GetTabHistory();
    t.Advance(1500);
    CommittedMovesToFront([3, 2, 1], 1, 5);
    after := t.GetTabHistory();
  }

  /** A second rotation 1000 ms into the wait restarts it: nothing is committed
      at 2000 ms, and at 2500 ms exactly one commit, of the second target. */
  method TimerRestartsOnRotation() returns (midway: seq<TabId>, after: seq<TabId>)
    ensures midway == [3, 2, 1] && after == [1, 3, 2]
  {
    var t := ThreeTabs();
    var f := t.RotateForward();
    t.Advance(1000);
    f := t.RotateForward();
    t.Advance(1000);
    midway := t.GetTabHistory();
    t.Advance(500);
    CommittedMovesToFront([3, 2, 1], 2, 5);
    after := t.GetTabHistory();
  }

  /** Committing tab 2 of [4, 3, 2, 1]. */
  lemma CommitResetsCursorSteps()
    ensures Committed([4, 3, 2, 1], 2, 5) == [2, 4, 3, 1]
  {
    CommittedMovesToFront([4, 3, 2, 1], 2, 5);
    assert [4, 3, 2, 1][..2] + [4, 3, 2, 1][3..] == [4, 3, 1];
  }

  method CommitResetsCursor() returns (h: seq<TabId>, focus: TabId)
    ensures h == [2, 4, 3, 1] && focus == 4
  {
    var t := ThreeTabs();
    t.TrackTabActivation(4);
    RecordedFresh([3, 2, 1], 4, 5);
    CommitResetsCursorSteps();
    assert t.history == [4, 3, 2, 1];
    var f := t.RotateForward();
    f := t.RotateForward();
    assert t.cursor == 2;
    t.Advance(1500);
    assert t.history == [2, 4, 3, 1];
    h := t.GetTabHistory();
    focus := t.RotateForward();
  }

  /** An echoed rotation, then the user clicks tab 4 1000 ms later: the
      forward entry is cleared and the commit never fires. */
  method ManualSwitchCancelsCommit() returns (h: seq<TabId>)
    ensures h == [4, 2]
  {
    var t := ThreeTabs();
    var f := t.RotateForward();
    t.OnActivated(f);
    t.Advance(1000);
    t.OnActivated(4);
    ActivatedMidRotation([3, 2, 1], 1, 4, 5);
    t.Advance(500);
    h := t.GetTabHistory();
  }

  method CommitAfterReverse() returns (h: seq<TabId>)
    ensures h == [1, 3, 2]
  {
    var t := ThreeTabs();
    var f := t.RotateReverse();
    t.Advance(1500);
    CommittedMovesToFront([3, 2, 1], 2, 5);
    h := t.GetTabHistory();
  }

  method CommitAfterMixedRotation() returns (h: seq<TabId>)
    ensures h == [2, 3, 1]
  {
    var t := ThreeTabs();
    var f := t.RotateForward();
    f := t.RotateForward();
    f := t.RotateReverse();
    t.Advance(1500);
    CommittedMovesToFront([3, 2, 1], 1, 5);
    h := t.GetTabHistory();
  }
}
