/** The background tracker: records tab activations most-recent-first, rotates
    a cursor over that history on the keyboard commands, swallows the echo of
    its own focus request, and commits the rotation after 1500 ms of quiet. */
module Background {
  import opened Wrappers
  import opened TabHistory
  import Config
  import Commands
  import Options

  /** Quiet time after the last rotation before the viewed tab is committed. */
  const COMMIT_DELAY_MS: nat := 1500

  /** The scheduled commit: the tab to make most recent, and when. */
  datatype PendingCommit = PendingCommit(tab: TabId, deadline: nat)

  class TabTracker {
    /** The tab history, most recent first. */
    var history: seq<TabId>
    /** How far the current rotation has stepped from the newest entry. */
    var cursor: nat
    /** Set when we asked the browser to focus a tab; the next activation is its echo. */
    var rotating: bool
    /** The commit scheduled by the last rotation, if any. */
    var pending: Option<PendingCommit>
    /** Milliseconds elapsed on the timer clock. */
    var now: nat
    /** The configured history depth. */
    const maxSize: nat

    ghost predicate Valid()
      reads this
    {
      && Config.MIN_TAB_HISTORY_SIZE <= maxSize <= Config.MAX_TAB_HISTORY_SIZE
      && NoDup(history)
      && |history| <= maxSize
      && (cursor == 0 || cursor < |history|)
      && (pending.None? ==> cursor == 0)
      && (pending.Some? ==>
            && cursor < |history|
            && pending.value.tab == history[cursor]
            && now < pending.value.deadline <= now + COMMIT_DELAY_MS)
    }

    /** A fresh tracker whose depth is read from the synced store (default 5). */
    constructor(stored: Option<int>)
      requires Options.ValidStored(stored)
      ensures Valid()
      ensures maxSize == Options.GetTabHistorySize(stored)
      ensures history == [] && cursor == 0 && !rotating && pending == None && now == 0
    {
      maxSize := Options.GetTabHistorySize(stored);
      history := [];
      cursor := 0;
      rotating := false;
      pending := None;
      now := 0;
    }

    /** The current history, most recent first. */
    method GetTabHistory() returns (h: seq<TabId>)
      requires Valid()
      ensures h == history
      ensures NoDup(h) && |h| <= maxSize
    {
      h := history;
    }

    /** A genuine activation of `tab`: cancels the pending commit, clears the
        forward entries of an interrupted rotation, records `tab` in front and
        resets the cursor. */
    method TrackTabActivation(tab: TabId)
      requires Valid()
      modifies this
      ensures Valid()
      ensures history == Activated(old(history), old(cursor), tab, maxSize)
      ensures cursor == 0 && pending == None
      ensures rotating == old(rotating) && now == old(now)
    {
      pending := None;
      if cursor > 0 {
        history := [history[cursor]];
      }
      history := Recorded(history, tab, maxSize);
      cursor := 0;
    }

    /** The browser's tab-activated notification. The first one after a
        rotation is the echo of our own focus request and is discarded. */
    method OnActivated(tab: TabId)
      requires Valid()
      modifies this
      ensures Valid()
      ensures old(rotating) ==>
        !rotating && history == old(history) && cursor == old(cursor) && pending == old(pending)
      ensures !old(rotating) ==>
        history == Activated(old(history), old(cursor), tab, maxSize) && cursor == 0 && pending == None && !rotating
      ensures now == old(now)
    {
      if rotating {
        rotating := false;
      } else {
        TrackTabActivation(tab);
      }
    }

    /** Focus the next older tab (wrapping to the newest), without touching the
        history; the commit is (re)scheduled 1500 ms from now. */
    method RotateForward() returns (focus: TabId)
      requires Valid() && |history| >= 2
      modifies this
      ensures Valid()
      ensures history == old(history) && now == old(now)
      ensures cursor == Forward(old(cursor), |history|) && focus == history[cursor]
      ensures rotating && pending == Some(PendingCommit(focus, now + COMMIT_DELAY_MS))
    {
      cursor := Forward(cursor, |history|);
      focus := history[cursor];
      rotating := true;
      pending := Some(PendingCommit(focus, now + COMMIT_DELAY_MS));
    }

    /** Focus the next newer tab (wrapping to the oldest), without touching the
        history; the commit is (re)scheduled 1500 ms from now. */
    method RotateReverse() returns (focus: TabId)
      requires Valid() && |history| >= 2
      modifies this
      ensures Valid()
      ensures history == old(history) && now == old(now)
      ensures cursor == Reverse(old(cursor), |history|) && focus == history[cursor]
      ensures rotating && pending == Some(PendingCommit(focus, now + COMMIT_DELAY_MS))
    {
      cursor := Reverse(cursor, |history|);
      focus := history[cursor];
      rotating := true;
      pending := Some(PendingCommit(focus, now + COMMIT_DELAY_MS));
    }

    /** The browser's command notification, dispatched by command identity. */
    method OnCommand(command: Commands.Command) returns (focus: TabId)
      requires Valid() && |history| >= 2
      modifies this
      ensures Valid()
      ensures history == old(history) && now == old(now)
      ensures command.RotateForward? ==> cursor == Forward(old(cursor), |history|)
      ensures command.RotateReverse? ==> cursor == Reverse(old(cursor), |history|)
      ensures focus == history[cursor]
      ensures rotating && pending == Some(PendingCommit(focus, now + COMMIT_DELAY_MS))
    {
      match command
      case RotateForward => focus := RotateForward();
      case RotateReverse => focus := RotateReverse();
    }

    /** Lets `ms` milliseconds pass. When the pending commit's deadline is
        reached, the tab being viewed becomes the most recent entry and the
        cursor returns to 0. */
    method Advance(ms: nat)
      requires Valid()
      modifies this
      ensures Valid()
      ensures now == old(now) + ms && rotating == old(rotating)
      ensures old(pending).Some? && old(pending).value.deadline <= now ==>
        history == Committed(old(history), old(cursor), maxSize) && cursor == 0 && pending == None
      ensures !(old(pending).Some? && old(pending).value.deadline <= now) ==>
        history == old(history) && cursor == old(cursor) && pending == old(pending)
    {
      now := now + ms;
      if pending.Some? && pending.value.deadline <= now {
        history := Recorded(history, pending.value.tab, maxSize);
        cursor := 0;
        pending := None;
      }
    }

    /** The browser's tab-removed notification: the closed tab leaves the
        history. A rotation in progress must not be viewing, or have passed,
        the closed tab. */
    method RemoveTabFromHistory(tab: TabId)
      requires Valid()
      requires pending.None? || tab !in history[..cursor + 1]
      modifies this
      ensures Valid()
      ensures history == Without(old(history), tab)
      ensures cursor == old(cursor) && pending == old(pending)
      ensures rotating == old(rotating) && now == old(now)
    {
      if pending.Some? {
        WithoutKeepsPrefix(history, tab, cursor + 1);
        assert history[cursor] == history[..cursor + 1][cursor];
        assert Without(history, tab)[cursor] == Without(history, tab)[..cursor + 1][cursor];
      }
      history := Without(history, tab);
    }
  }
}
