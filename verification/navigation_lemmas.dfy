/**
 Properties of the navigation controller that relate several transitions:
 save/restore round trips, the consume-once index scroll restore, the
 scroll-checkpoint invariant, and independence of the tag filter.
 */
module NavigationLemmas {
  import opened Common
  import opened Navigation

  // ---------------------------------------------------------------------------
  // Simple inverses
  // ---------------------------------------------------------------------------

  /** Toggling a view twice is the identity. */
  lemma ToggleViewTwice(c: Controller, v: View)
    ensures ToggleView(ToggleView(c, v), v) == c
  {
    var views := c.nav.activeViews;
    assert views.With(v, !views.Get(v)).With(v, views.Get(v)) == views;
  }

  /** Setting a tag and then clearing it is the same as clearing it. */
  lemma SetThenClearTag(c: Controller, tag: string)
    ensures ClearSelectedTag(SetSelectedTag(c, tag)) == ClearSelectedTag(c)
  {
  }

  // ---------------------------------------------------------------------------
  // Shared-pane exclusivity and tag independence over sequences of calls
  // ---------------------------------------------------------------------------

  /** Applies `ShowView` for each view in order. */
  function ShowViews(c: Controller, vs: seq<View>): (r: Controller)
    decreases |vs|
  {
    if vs == [] then c else ShowViews(ShowView(c, vs[0]), vs[1..])
  }

  /**
   After any non-empty sequence of `showView('home' | 'issue')` calls, exactly
   one of home and issue is active, and it is the last one shown.
   */
  lemma {:induction false} ShowViewsExclusive(c: Controller, vs: seq<View>)
    requires |vs| > 0
    requires forall i :: 0 <= i < |vs| ==> vs[i] != Index
    ensures ShowViews(c, vs).nav.activeViews.home != ShowViews(c, vs).nav.activeViews.issue
    ensures ShowViews(c, vs).nav.activeViews.home <==> vs[|vs| - 1] == Home
    decreases |vs|
  {
    if |vs| > 1 {
      ShowViewsExclusive(ShowView(c, vs[0]), vs[1..]);
    }
  }

  /** A view-only operation: one that must not touch the tag filter. */
  predicate IsViewOp(op: Op) {
    op.ToggleViewOp? || op.ShowViewOp?
  }

  /** Applies a sequence of operations under one environment, discarding effects. */
  function RunOps(c: Controller, ops: seq<Op>, env: Env): (r: Controller)
    decreases |ops|
  {
    if ops == [] then c else RunOps(Apply(c, ops[0], env).controller, ops[1..], env)
  }

  /** After `setSelectedTag(t)`, any run of `toggleView` / `showView` calls keeps the tag. */
  lemma {:induction false} TagSurvivesViewOps(c: Controller, tag: string, ops: seq<Op>, env: Env)
    requires forall i :: 0 <= i < |ops| ==> IsViewOp(ops[i])
    ensures RunOps(SetSelectedTag(c, tag), ops, env).nav.selectedTag == Some(tag)
  {
    ViewOpsKeepTag(SetSelectedTag(c, tag), ops, env);
  }

  lemma {:induction false} ViewOpsKeepTag(c: Controller, ops: seq<Op>, env: Env)
    requires forall i :: 0 <= i < |ops| ==> IsViewOp(ops[i])
    ensures RunOps(c, ops, env).nav.selectedTag == c.nav.selectedTag
    ensures RunOps(c, ops, env).slots == c.slots
    decreases |ops|
  {
    if ops != [] {
      ViewOpsKeepTag(Apply(c, ops[0], env).controller, ops[1..], env);
    }
  }

  // ---------------------------------------------------------------------------
  // The index scroll checkpoint
  // ---------------------------------------------------------------------------

  /** The index offset is recorded exactly while its restore flag is set. */
  predicate CheckpointPaired(s: ScrollState) {
    s.indexScrollY.Some? <==> s.shouldRestoreFromIndex
  }

  /** Every operation keeps the checkpoint offset and its flag paired. */
  lemma ApplyKeepsCheckpointPaired(c: Controller, op: Op, env: Env)
    requires CheckpointPaired(c.scroll)
    ensures CheckpointPaired(Apply(c, op, env).controller.scroll)
  {
  }

  /** ... and so does every sequence of operations, for instance from the initial scroll record. */
  lemma {:induction false} RunOpsKeepsCheckpointPaired(c: Controller, ops: seq<Op>, env: Env)
    requires CheckpointPaired(c.scroll)
    ensures CheckpointPaired(RunOps(c, ops, env).scroll)
    decreases |ops|
  {
    if ops != [] {
      ApplyKeepsCheckpointPaired(c, ops[0], env);
      RunOpsKeepsCheckpointPaired(Apply(c, ops[0], env).controller, ops[1..], env);
    }
  }

  lemma InitialCheckpointPaired()
    ensures CheckpointPaired(InitialScroll)
  {
  }

  /** Running the restore callback twice scrolls at most once, and the second run changes nothing. */
  lemma RestoreConsumedOnce(s: ScrollState)
    ensures RestoreIndexScroll(RestoreIndexScroll(s).scroll).scrolledTo == None
    ensures RestoreIndexScroll(RestoreIndexScroll(s).scroll).scroll == RestoreIndexScroll(s).scroll
  {
  }

  /** No checkpoint pending: a frame scrolls nowhere and leaves the scroll record alone. */
  lemma {:induction false} FrameWithoutCheckpoint(c: Controller)
    requires !(c.scroll.shouldRestoreFromIndex && c.scroll.indexScrollY.Some?)
    ensures RunFrame(c).effects == []
    ensures RunFrame(c).controller.scroll == c.scroll
    decreases |c.pending|
  {
    if c.pending != [] {
      FrameWithoutCheckpoint(RunPending(c).controller);
    }
  }

  /**
   Consume-once: however many restore callbacks are queued, one frame scrolls
   at most once, and when a checkpoint was pending it scrolls exactly to it.
   */
  lemma {:induction false} FrameScrollsAtMostOnce(c: Controller)
    ensures |RunFrame(c).effects| <= 1
    ensures c.pending != [] && c.scroll.shouldRestoreFromIndex && c.scroll.indexScrollY.Some? ==>
      RunFrame(c).effects == [ScrollTo(c.scroll.indexScrollY.value)]
    ensures c.pending != [] ==> !(RunFrame(c).controller.scroll.shouldRestoreFromIndex
                                  && RunFrame(c).controller.scroll.indexScrollY.Some?)
    decreases |c.pending|
  {
    if c.pending != [] {
      var first := RunPending(c);
      FrameWithoutCheckpoint(first.controller);
    }
  }

  /** With offset and flag paired, a frame with a queued callback leaves no checkpoint behind. */
  lemma FrameClearsCheckpoint(c: Controller)
    requires CheckpointPaired(c.scroll)
    requires c.pending != []
    ensures RunFrame(c).controller.scroll.indexScrollY == None
    ensures !RunFrame(c).controller.scroll.shouldRestoreFromIndex
  {
    FrameScrollsAtMostOnce(c);
    var s := RunFrame(c).controller.scroll;
    if c.scroll.shouldRestoreFromIndex {
      assert s == c.scroll.(indexScrollY := None, shouldRestoreFromIndex := false) by {
        var first := RunPending(c);
        FrameWithoutCheckpoint(first.controller);
      }
    } else {
      FrameWithoutCheckpoint(c);
    }
  }

  // ---------------------------------------------------------------------------
  // Save/restore round trips
  // ---------------------------------------------------------------------------

  /**
   Opening and then closing the index returns `showIssue` to its value before
   opening, hides every view, clears the tag and empties the index save slot;
   the next frame then scrolls back to the offset captured when it opened.
   */
  lemma IndexRoundTrip(c: Controller, open: Env, close: Env)
    requires !c.nav.activeViews.index
    ensures ToggleIndex(ToggleIndex(c, open), close).nav.showIssue == c.nav.showIssue
    ensures ToggleIndex(ToggleIndex(c, open), close).nav.activeViews == AllClosed
    ensures ToggleIndex(ToggleIndex(c, open), close).nav.selectedTag == None
    ensures ToggleIndex(ToggleIndex(c, open), close).slots == c.slots.(prevShowIssue := None)
    ensures open.hasWindow && close.hasWindow ==>
      RunFrame(ToggleIndex(ToggleIndex(c, open), close)).effects == [ScrollTo(open.scrollY)]
  {
    var closed := ToggleIndex(ToggleIndex(c, open), close);
    if open.hasWindow && close.hasWindow {
      FrameScrollsAtMostOnce(closed);
    }
  }

  /**
   Toggling home on and then off returns `showIssue` to the value home saved:
   the current one, or the index's saved one when home replaced the index.
   */
  lemma HomeRoundTrip(c: Controller, e1: Env, e2: Env)
    requires !c.nav.activeViews.home
    ensures ShowHomeView(ShowHomeView(c, e1), e2).nav.showIssue ==
      (if c.nav.activeViews.index then c.slots.prevShowIssue.GetOr(c.nav.showIssue) else c.nav.showIssue)
    ensures ShowHomeView(ShowHomeView(c, e1), e2).nav.activeViews == AllClosed
    ensures ShowHomeView(ShowHomeView(c, e1), e2).slots.prevShowIssueForHome == None
  {
  }

  // ---------------------------------------------------------------------------
  // Scenarios
  // ---------------------------------------------------------------------------

  /** Home shown, issue panel closed; the index is opened and closed again. */
  lemma ScenarioIndexOverHome(issueText: string, showNav: bool, tag: Option<string>, scroll: ScrollState, env: Env)
    ensures var c := Controller(NavState(issueText, false, showNav, tag, ActiveViews(true, false, false)),
                                scroll, EmptySlots, []);
            var afterOpen := ToggleIndex(c, env);
            var closed := ToggleIndex(afterOpen, env);
            && !afterOpen.nav.showIssue
            && afterOpen.nav.activeViews == ActiveViews(false, false, true)
            && afterOpen.slots.prevShowIssue == Some(false)
            && closed.nav.activeViews == AllClosed
            && !closed.nav.showIssue
            && closed.nav.selectedTag == None
  {
  }

  /**
   The index is open over an open issue panel; switching to home shows home
   alone with the issue panel closed, and queues the index scroll restore.
   */
  lemma ScenarioHomeReplacesIndex(c: Controller, env: Env)
    requires c.nav.activeViews.index && !c.nav.activeViews.home
    requires c.slots.prevShowIssue == Some(true)
    ensures ShowHomeView(c, env).nav.activeViews == ActiveViews(true, false, false)
    ensures !ShowHomeView(c, env).nav.showIssue
    ensures ShowHomeView(c, env).slots == Slots(None, Some(true))
    ensures env.hasWindow ==> ShowHomeView(c, env).pending == c.pending + [RestoreFromIndex]
  {
  }

  /**
   A restore queued by closing the index still fires when the index was
   reopened before the frame: it scrolls to the new checkpoint and consumes
   it, so closing the index again does not scroll back.
   */
  lemma StaleRestoreConsumesReopenedCheckpoint(c: Controller, e1: Env, e2: Env, e3: Env)
    requires !c.nav.activeViews.index && c.pending == []
    requires e1.hasWindow && e2.hasWindow && e3.hasWindow
    ensures var reopened := ToggleIndex(ToggleIndex(ToggleIndex(c, e1), e2), e3);
            var f1 := RunFrame(reopened);
            var f2 := RunFrame(ToggleIndex(f1.controller, e1));
            && reopened.nav.activeViews.index
            && f1.effects == [ScrollTo(e3.scrollY)]
            && f2.effects == []
  {
    var reopened := ToggleIndex(ToggleIndex(ToggleIndex(c, e1), e2), e3);
    FrameScrollsAtMostOnce(reopened);
    var f1 := RunFrame(reopened);
    FrameWithoutCheckpoint(ToggleIndex(f1.controller, e1));
  }
}
