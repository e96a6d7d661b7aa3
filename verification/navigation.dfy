/**
 The view-navigation controller of `useNavigation`: a navigation record, a
 scroll record and the controller's two private save slots, transformed by
 pure transition functions.

 The host environment is explicit: `Env.hasWindow` stands for
 `typeof window !== 'undefined'` and `Env.scrollY` for `window.scrollY`.
 A `requestAnimationFrame` callback is appended to `pending`; `RunPending`
 later runs it and reports the `window.scrollTo` it performs as an `Effect`.
 */
module Navigation {
  import opened Common

  datatype View = Home | Issue | Index

  /** Which of the three view regions are rendered. */
  datatype ActiveViews = ActiveViews(home: bool, issue: bool, index: bool) {

    /** `activeViews[view]` */
    function Get(v: View): bool {
      match v
      case Home => home
      case Issue => issue
      case Index => index
    }

    /** `{ ...activeViews, [view]: b }` */
    function With(v: View, b: bool): (r: ActiveViews)
      ensures r.Get(v) == b
      ensures forall w :: w != v ==> r.Get(w) == Get(w)
    {
      match v
      case Home => this.(home := b)
      case Issue => this.(issue := b)
      case Index => this.(index := b)
    }
  }

  const AllClosed := ActiveViews(false, false, false)

  /** The navigation store's record, fully populated. */
  datatype NavState = NavState(
    issueText: string,
    showIssue: bool,
    showNav: bool,
    selectedTag: Option<string>,
    activeViews: ActiveViews)

  /** The scroll store's record; offsets are whole pixels. */
  datatype ScrollState = ScrollState(
    homeScrollY: Option<int>,
    shouldRestore: bool,
    indexScrollY: Option<int>,
    shouldRestoreFromIndex: bool)

  const InitialScroll := ScrollState(None, false, None, false)

  /** The controller's depth-1 save slots for `showIssue`. */
  datatype Slots = Slots(prevShowIssue: Option<bool>, prevShowIssueForHome: Option<bool>)

  const EmptySlots := Slots(None, None)

  /** What the controller can observe of the browser. */
  datatype Env = Env(hasWindow: bool, scrollY: int)

  /** A callback queued with `requestAnimationFrame`: the index scroll restore. */
  datatype Task = RestoreFromIndex

  /** An observable browser side effect: `window.scrollTo({ top, left: 0 })`. */
  datatype Effect = ScrollTo(top: int)

  datatype Controller = Controller(nav: NavState, scroll: ScrollState, slots: Slots, pending: seq<Task>)

  /** A controller state together with the effects that produced it. */
  datatype Frame = Frame(controller: Controller, effects: seq<Effect>)

  /** The navigation record is untouched except, possibly, for its view flags. */
  predicate SameExceptViews(a: NavState, b: NavState) {
    a.issueText == b.issueText && a.showIssue == b.showIssue && a.showNav == b.showNav
    && a.selectedTag == b.selectedTag
  }

  // ---------------------------------------------------------------------------
  // Transitions
  // ---------------------------------------------------------------------------

  /** Flips one view flag and nothing else. */
  function ToggleView(c: Controller, v: View): (r: Controller)
    ensures r.nav.activeViews.Get(v) == !c.nav.activeViews.Get(v)
    ensures forall w :: w != v ==> r.nav.activeViews.Get(w) == c.nav.activeViews.Get(w)
    ensures SameExceptViews(r.nav, c.nav)
    ensures r.scroll == c.scroll && r.slots == c.slots && r.pending == c.pending
  {
    var views := c.nav.activeViews;
    c.(nav := c.nav.(activeViews := views.With(v, !views.Get(v))))
  }

  /** Home and issue share one pane: showing either hides the other; home also hides the index. */
  function ShowView(c: Controller, v: View): (r: Controller)
    ensures v != Index ==> r.nav.activeViews.home != r.nav.activeViews.issue
    ensures v != Index ==> (r.nav.activeViews.home <==> v == Home)
    ensures v == Home ==> !r.nav.activeViews.index
    ensures v == Issue ==> r.nav.activeViews.index == c.nav.activeViews.index
    ensures v == Index ==> r.nav.activeViews == c.nav.activeViews.(index := true)
    ensures SameExceptViews(r.nav, c.nav)
    ensures r.scroll == c.scroll && r.slots == c.slots && r.pending == c.pending
  {
    var views := c.nav.activeViews;
    if v == Home || v == Issue then
      c.(nav := c.nav.(activeViews := ActiveViews(
        v == Home, v == Issue, if v == Home then false else views.index)))
    else
      c.(nav := c.nav.(activeViews := views.With(v, true)))
  }

  /**
   Toggles the home view. Closing returns `showIssue` to the value saved when
   home opened. Opening over the index first undoes the index (restores its
   saved `showIssue`, clears the tag, schedules the index scroll restore).
   It then hides the issue panel and saves the `showIssue` to return to.
   */
  function ShowHomeView(c: Controller, env: Env): (r: Controller)
    // closing home
    ensures c.nav.activeViews.home ==>
      && r.nav.activeViews == c.nav.activeViews.(home := false)
      && r.nav.showIssue == c.slots.prevShowIssueForHome.GetOr(c.nav.showIssue)
      && r.nav.selectedTag == c.nav.selectedTag
      && r.slots == c.slots.(prevShowIssueForHome := None)
      && r.pending == c.pending
    // opening home
    ensures !c.nav.activeViews.home ==>
      && r.nav.activeViews == ActiveViews(true, false, false)
      && !r.nav.showIssue
      && (c.nav.activeViews.index ==> r.nav.selectedTag == None)
      && (!c.nav.activeViews.index ==> r.nav.selectedTag == c.nav.selectedTag)
      && r.slots.prevShowIssueForHome == Some(
           if c.nav.activeViews.index then c.slots.prevShowIssue.GetOr(c.nav.showIssue)
           else c.nav.showIssue)
      && r.slots.prevShowIssue == (if c.nav.activeViews.index then None else c.slots.prevShowIssue)
      && r.pending == c.pending + (if c.nav.activeViews.index && env.hasWindow then [RestoreFromIndex] else [])
    ensures r.scroll == c.scroll
    ensures r.nav.issueText == c.nav.issueText && r.nav.showNav == c.nav.showNav
  {
    var nav, slots := c.nav, c.slots;
    if nav.activeViews.home then
      var restored := slots.prevShowIssueForHome.GetOr(nav.showIssue);
      c.(nav := nav.(showIssue := restored, activeViews := nav.activeViews.(home := false)),
         slots := slots.(prevShowIssueForHome := None))
    else
      var wasIndexActive := nav.activeViews.index;
      var restored := if wasIndexActive then slots.prevShowIssue.GetOr(nav.showIssue) else nav.showIssue;
      var prev := if wasIndexActive then None else slots.prevShowIssue;
      var pending := if wasIndexActive && env.hasWindow then c.pending + [RestoreFromIndex] else c.pending;
      Controller(
        nav.(showIssue := false,
             selectedTag := if wasIndexActive then None else nav.selectedTag,
             activeViews := nav.activeViews.(home := true, issue := false, index := false)),
        c.scroll,
        Slots(prev, Some(restored)),
        pending)
  }

  /** Shows the unfiltered issue list: no tag, home hidden, issue shown. */
  function ShowIssuesWithoutFilter(c: Controller): (r: Controller)
    ensures r.nav.selectedTag == None
    ensures r.nav.activeViews == ActiveViews(false, true, c.nav.activeViews.index)
    ensures r.nav.showIssue == c.nav.showIssue
    ensures r.nav.issueText == c.nav.issueText && r.nav.showNav == c.nav.showNav
    ensures r.scroll == c.scroll && r.slots == c.slots && r.pending == c.pending
  {
    c.(nav := c.nav.(selectedTag := None,
                     activeViews := c.nav.activeViews.(home := false, issue := true)))
  }

  /**
   Opens or closes the index overlay. Opening records the scroll offset as a
   pending checkpoint (when a window exists), saves `showIssue` and shows the
   index alone. Closing restores the saved `showIssue`, clears the tag, hides
   every view and schedules the checkpoint restore for the next frame.
   */
  function ToggleIndex(c: Controller, env: Env): (r: Controller)
    // opening
    ensures !c.nav.activeViews.index ==>
      && r.nav.activeViews == ActiveViews(false, false, true)
      && !r.nav.showIssue
      && r.nav.selectedTag == c.nav.selectedTag
      && r.slots == c.slots.(prevShowIssue := Some(c.nav.showIssue))
      && r.scroll == (if env.hasWindow
                      then c.scroll.(indexScrollY := Some(env.scrollY), shouldRestoreFromIndex := true)
                      else c.scroll)
      && r.pending == c.pending
    // closing
    ensures c.nav.activeViews.index ==>
      && r.nav.activeViews == AllClosed
      && r.nav.showIssue == c.slots.prevShowIssue.GetOr(c.nav.showIssue)
      && r.nav.selectedTag == None
      && r.slots == c.slots.(prevShowIssue := None)
      && r.scroll == c.scroll
      && r.pending == c.pending + (if env.hasWindow then [RestoreFromIndex] else [])
    ensures r.nav.issueText == c.nav.issueText && r.nav.showNav == c.nav.showNav
  {
    var nav := c.nav;
    if !nav.activeViews.index then
      var scroll := if env.hasWindow
        then c.scroll.(indexScrollY := Some(env.scrollY), shouldRestoreFromIndex := true)
        else c.scroll;
      Controller(
        nav.(showIssue := false, activeViews := ActiveViews(false, false, true)),
        scroll,
        c.slots.(prevShowIssue := Some(nav.showIssue)),
        c.pending)
    else
      var newShowIssue := c.slots.prevShowIssue.GetOr(nav.showIssue);
      var pending := if env.hasWindow then c.pending + [RestoreFromIndex] else c.pending;
      Controller(
        nav.(showIssue := newShowIssue, selectedTag := None, activeViews := AllClosed),
        c.scroll,
        c.slots.(prevShowIssue := None),
        pending)
  }

  /** Hides every view and returns `showIssue` to its index-entry save, without scrolling. */
  function CloseAllViews(c: Controller): (r: Controller)
    ensures r.nav.activeViews == AllClosed
    ensures r.nav.selectedTag == None
    ensures r.nav.showIssue == c.slots.prevShowIssue.GetOr(c.nav.showIssue)
    ensures r.slots == Slots(None, c.slots.prevShowIssueForHome)
    ensures r.nav.issueText == c.nav.issueText && r.nav.showNav == c.nav.showNav
    ensures r.scroll == c.scroll && r.pending == c.pending
  {
    Controller(
      c.nav.(showIssue := c.slots.prevShowIssue.GetOr(c.nav.showIssue),
             selectedTag := None,
             activeViews := AllClosed),
      c.scroll,
      c.slots.(prevShowIssue := None),
      c.pending)
  }

  /** `CloseAllViews`, then ask the home page to restore its own scroll memory. */
  function NavigateHome(c: Controller): (r: Controller)
    ensures r.nav == CloseAllViews(c).nav && r.slots == CloseAllViews(c).slots
    ensures r.scroll == c.scroll.(shouldRestore := true)
    ensures r.pending == c.pending
  {
    var closed := CloseAllViews(c);
    closed.(scroll := closed.scroll.(shouldRestore := true))
  }

  function SetSelectedTag(c: Controller, tag: string): (r: Controller)
    ensures r.nav.selectedTag == Some(tag)
    ensures r.nav == c.nav.(selectedTag := Some(tag))
    ensures r.scroll == c.scroll && r.slots == c.slots && r.pending == c.pending
  {
    c.(nav := c.nav.(selectedTag := Some(tag)))
  }

  function ClearSelectedTag(c: Controller): (r: Controller)
    ensures r.nav.selectedTag == None
    ensures r.nav == c.nav.(selectedTag := None)
    ensures r.scroll == c.scroll && r.slots == c.slots && r.pending == c.pending
  {
    c.(nav := c.nav.(selectedTag := None))
  }

  // ---------------------------------------------------------------------------
  // Deferred scroll restore
  // ---------------------------------------------------------------------------

  /** The result of the animation-frame callback on the scroll record. */
  datatype Restored = Restored(scroll: ScrollState, scrolledTo: Option<int>)

  /**
   The body of the queued callback: when a checkpoint is pending, scroll to it
   and consume it; otherwise leave the record alone.
   */
  function RestoreIndexScroll(s: ScrollState): (r: Restored)
    ensures s.shouldRestoreFromIndex && s.indexScrollY.Some? ==>
      r.scrolledTo == s.indexScrollY
      && r.scroll == s.(indexScrollY := None, shouldRestoreFromIndex := false)
    ensures !(s.shouldRestoreFromIndex && s.indexScrollY.Some?) ==> r == Restored(s, None)
    ensures !(r.scroll.shouldRestoreFromIndex && r.scroll.indexScrollY.Some?)
  {
    if s.shouldRestoreFromIndex && s.indexScrollY.Some? then
      Restored(s.(shouldRestoreFromIndex := false, indexScrollY := None), s.indexScrollY)
    else
      Restored(s, None)
  }

  /** Runs the oldest queued callback, if any. */
  function RunPending(c: Controller): (r: Frame)
    ensures c.pending == [] ==> r == Frame(c, [])
    ensures c.pending != [] ==> r.controller.pending == c.pending[1..]
    ensures c.pending != [] && c.scroll.shouldRestoreFromIndex && c.scroll.indexScrollY.Some? ==>
      r.effects == [ScrollTo(c.scroll.indexScrollY.value)]
      && r.controller.scroll == c.scroll.(indexScrollY := None, shouldRestoreFromIndex := false)
    ensures !(c.scroll.shouldRestoreFromIndex && c.scroll.indexScrollY.Some?) ==>
      r.effects == [] && r.controller.scroll == c.scroll
    ensures r.controller.nav == c.nav && r.controller.slots == c.slots
    ensures |r.effects| <= 1
  {
    if c.pending == [] then Frame(c, [])
    else
      match c.pending[0]
      case RestoreFromIndex =>
        var res := RestoreIndexScroll(c.scroll);
        Frame(c.(scroll := res.scroll, pending := c.pending[1..]),
              if res.scrolledTo.Some? then [ScrollTo(res.scrolledTo.value)] else [])
  }

  /** Runs every queued callback in order, as the next animation frame does. */
  function RunFrame(c: Controller): (r: Frame)
    ensures r.controller.pending == []
    ensures r.controller.nav == c.nav && r.controller.slots == c.slots
    decreases |c.pending|
  {
    if c.pending == [] then Frame(c, [])
    else
      var first := RunPending(c);
      var rest := RunFrame(first.controller);
      Frame(rest.controller, first.effects + rest.effects)
  }

  // ---------------------------------------------------------------------------
  // The controller's operation set, including the browser firing a frame callback
  // ---------------------------------------------------------------------------

  datatype Op =
    | ToggleViewOp(view: View)
    | ShowViewOp(view: View)
    | ShowHomeViewOp
    | ShowIssuesWithoutFilterOp
    | ToggleIndexOp
    | CloseAllViewsOp
    | NavigateHomeOp
    | SetSelectedTagOp(tag: string)
    | ClearSelectedTagOp
    | RunPendingOp

  /** One step of the controller under the given environment. */
  function Apply(c: Controller, op: Op, env: Env): (r: Frame)
    ensures !op.RunPendingOp? ==> r.effects == []
    ensures |r.effects| <= 1
  {
    match op
    case ToggleViewOp(v) => Frame(ToggleView(c, v), [])
    case ShowViewOp(v) => Frame(ShowView(c, v), [])
    case ShowHomeViewOp => Frame(ShowHomeView(c, env), [])
    case ShowIssuesWithoutFilterOp => Frame(ShowIssuesWithoutFilter(c), [])
    case ToggleIndexOp => Frame(ToggleIndex(c, env), [])
    case CloseAllViewsOp => Frame(CloseAllViews(c), [])
    case NavigateHomeOp => Frame(NavigateHome(c), [])
    case SetSelectedTagOp(tag) => Frame(SetSelectedTag(c, tag), [])
    case ClearSelectedTagOp => Frame(ClearSelectedTag(c), [])
    case RunPendingOp => RunPending(c)
  }
}
