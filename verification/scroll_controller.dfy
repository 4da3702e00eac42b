/**
 * The scroll-visibility controller of the site script (js/site.js:46-121) as
 * an immutable state record fed with discrete events.
 *
 * The page's navigation bars are collected once at start-up. Each bar keeps
 * the two "open" markers the page framework puts on its menu button and menu
 * panel, the "is-nav-open" flag the controller mirrors from them, and the
 * "is-scroll-hidden" flag the controller decides. The controller itself
 * remembers the offset of its previous evaluation (`lastY`), the debounce
 * flag (`ticking`), and how many evaluations are waiting for an animation
 * frame (`queued`), which is the browser's side of the debounce.
 */
module ScrollController {
  import opened ScrollRule

  datatype Option<T> = None | Some(value: T)

  /**
   * One navigation bar. A bar without a menu button or menu panel has the
   * corresponding marker false, as a missing element matches no selector.
   */
  datatype Bar = Bar(buttonOpen: bool, menuOpen: bool, navOpen: bool, scrollHidden: bool)

  datatype Controller = Controller(bars: seq<Bar>, lastY: nat, ticking: bool, queued: nat)

  /** The signals the controller reacts to. */
  datatype Event =
    | ScrollOrResize                          // a scroll or resize event on the window
    | Frame(offset: nat)                      // an animation frame; `offset` is the page offset read in it
    | Sync                                    // a class change on a button or panel, or the frame after a button click
    | Markers(i: nat, button: bool, menu: bool)  // the page framework sets bar i's two open markers

  /** A bar's menu counts as open when either its button or its panel carries the open marker. */
  predicate NavIsOpen(b: Bar) {
    b.buttonOpen || b.menuOpen
  }

  /** Mirrors the open markers of one bar into its "is-nav-open" flag. */
  function SyncBar(b: Bar): (b': Bar)
    ensures b'.navOpen == NavIsOpen(b)
    ensures b' == b.(navOpen := b'.navOpen)
  {
    b.(navOpen := NavIsOpen(b))
  }

  /** Mirrors the open markers into "is-nav-open" on every bar, one bar at a time. */
  function SyncAll(bars: seq<Bar>): (r: seq<Bar>)
    ensures |r| == |bars|
    ensures forall i :: 0 <= i < |bars| ==> r[i] == SyncBar(bars[i])
    decreases |bars|
  {
    if |bars| == 0 then [] else [SyncBar(bars[0])] + SyncAll(bars[1..])
  }

  /** Decides one bar's "scroll-hidden" flag; nothing else about the bar changes. */
  function HideBar(b: Bar, offset: nat, delta: int): (b': Bar)
    ensures b'.scrollHidden == NextHidden(NavIsOpen(b), offset, delta, b.scrollHidden)
    ensures b' == b.(scrollHidden := b'.scrollHidden)
  {
    b.(scrollHidden := NextHidden(NavIsOpen(b), offset, delta, b.scrollHidden))
  }

  /** Decides "scroll-hidden" on every bar, each from its own state only. */
  function HideAll(bars: seq<Bar>, offset: nat, delta: int): (r: seq<Bar>)
    ensures |r| == |bars|
    ensures forall i :: 0 <= i < |bars| ==> r[i] == HideBar(bars[i], offset, delta)
    decreases |bars|
  {
    if |bars| == 0 then [] else [HideBar(bars[0], offset, delta)] + HideAll(bars[1..], offset, delta)
  }

  /**
   * One evaluation: the open flags are synchronised first, then every bar's
   * hidden flag is decided from the change since `lastY`, and finally `lastY`
   * takes the current offset and the debounce flag is released, whatever
   * branch each bar took.
   */
  function Evaluate(c: Controller, offset: nat): (r: Controller)
    ensures |r.bars| == |c.bars|
    ensures r.lastY == offset && !r.ticking && r.queued == c.queued
    ensures forall i :: 0 <= i < |c.bars| ==>
      && r.bars[i].buttonOpen == c.bars[i].buttonOpen
      && r.bars[i].menuOpen == c.bars[i].menuOpen
      && r.bars[i].navOpen == NavIsOpen(c.bars[i])
    // open menus and the top of the page always show the bar
    ensures forall i :: 0 <= i < |c.bars| && NavIsOpen(c.bars[i]) ==> !r.bars[i].scrollHidden
    ensures offset <= HideAfter ==> forall i :: 0 <= i < |c.bars| ==> !r.bars[i].scrollHidden
    // each bar's flag follows the rule with the delta from the remembered offset
    ensures forall i :: 0 <= i < |c.bars| ==>
      r.bars[i].scrollHidden == NextHidden(NavIsOpen(c.bars[i]), offset, offset - c.lastY, c.bars[i].scrollHidden)
  {
    var delta := offset - c.lastY;
    Controller(HideAll(SyncAll(c.bars), offset, delta), offset, false, c.queued)
  }

  /** The scroll and resize listener: at most one evaluation is ever waiting for a frame. */
  function OnScroll(c: Controller): (r: Controller)
    // a signal never moves a bar or the remembered offset
    ensures r.bars == c.bars && r.lastY == c.lastY
    // afterwards the flag is up and no waiting evaluation is dropped ...
    ensures r.ticking && r.queued >= c.queued
    // ... and from a debounced state exactly one evaluation is then waiting
    ensures Debounced(c) ==> Debounced(r) && r.queued == 1
    // while one is already waiting, the signal is ignored
    ensures c.ticking ==> r == c
  {
    if c.ticking then c else c.(ticking := true, queued := c.queued + 1)
  }

  /** The controller's reaction to one event. */
  function Step(c: Controller, e: Event): (r: Controller)
    ensures |r.bars| == |c.bars|
    // only a frame that runs a waiting evaluation moves the hidden flags or the remembered offset
    ensures !(e.Frame? && c.queued > 0) ==>
      r.lastY == c.lastY && forall i :: 0 <= i < |c.bars| ==> r.bars[i].scrollHidden == c.bars[i].scrollHidden
  {
    match e
    case ScrollOrResize => OnScroll(c)
    case Frame(y) => if c.queued > 0 then Evaluate(c.(queued := c.queued - 1), y) else c
    case Sync => c.(bars := SyncAll(c.bars))
    case Markers(i, button, menu) =>
      if i < |c.bars| then c.(bars := c.bars[i := c.bars[i].(buttonOpen := button, menuOpen := menu)]) else c
  }

  /** The controller after a sequence of events, handled in order. */
  function Run(c: Controller, es: seq<Event>): (r: Controller)
    ensures |r.bars| == |c.bars|
    decreases |es|
  {
    if |es| == 0 then c else Run(Step(c, es[0]), es[1..])
  }

  /**
   * Start-up: with no bars on the page nothing is installed; otherwise the
   * remembered offset starts at the current one and a first evaluation runs
   * at once, outside any frame.
   */
  function Start(bars: seq<Bar>, offset: nat): (r: Option<Controller>)
    ensures r.None? <==> |bars| == 0
    ensures r.Some? ==> |r.value.bars| == |bars| && r.value.lastY == offset
    ensures r.Some? ==> !r.value.ticking && r.value.queued == 0
    // the first evaluation sees a zero delta, so it never hides a bar that was visible
    ensures r.Some? ==> forall i :: 0 <= i < |bars| && r.value.bars[i].scrollHidden ==> bars[i].scrollHidden
    ensures r.Some? ==> forall i :: 0 <= i < |bars| ==> r.value.bars[i].navOpen == NavIsOpen(bars[i])
  {
    if |bars| == 0 then None else Some(Evaluate(Controller(bars, offset, false, 0), offset))
  }

  /**
   * The debounce invariant: an evaluation is waiting for a frame exactly when
   * the flag is up, and then there is exactly one.
   */
  predicate Debounced(c: Controller) {
    c.queued == if c.ticking then 1 else 0
  }

  /** Every event keeps the debounce invariant. */
  lemma StepKeepsDebounced(c: Controller, e: Event)
    requires Debounced(c)
    ensures Debounced(Step(c, e))
  {
  }

  /** From start-up on, at most one evaluation is ever waiting, whatever happens. */
  lemma {:induction false} RunKeepsDebounced(c: Controller, es: seq<Event>)
    requires Debounced(c)
    ensures Debounced(Run(c, es))
    ensures Run(c, es).queued <= 1
    decreases |es|
  {
    if |es| > 0 {
      StepKeepsDebounced(c, es[0]);
      RunKeepsDebounced(Step(c, es[0]), es[1..]);
    }
  }

  /** A started controller satisfies the debounce invariant after any events. */
  lemma StartedIsDebounced(bars: seq<Bar>, offset: nat, es: seq<Event>)
    requires |bars| > 0
    ensures Start(bars, offset).Some? && Debounced(Run(Start(bars, offset).value, es))
  {
    RunKeepsDebounced(Start(bars, offset).value, es);
  }

  /**
   * An idle controller that sees any burst of scroll signals followed by one
   * frame performs exactly one evaluation at that frame's offset and is idle again.
   */
  lemma {:induction false} BurstThenFrame(c: Controller, n: nat, offset: nat)
    requires Debounced(c) && !c.ticking
    ensures Run(c, Burst(n + 1) + [Frame(offset)]) == Evaluate(c, offset)
  {
    BurstLeavesOneQueued(c, n);
    RunConcat(c, Burst(n + 1), [Frame(offset)]);
    var t := Run(c, Burst(n + 1));
    assert Run(t, [Frame(offset)]) == Run(Step(t, Frame(offset)), []);
  }

  /** `n` scroll or resize signals in a row. */
  function Burst(n: nat): (es: seq<Event>)
    ensures |es| == n && forall k :: 0 <= k < n ==> es[k] == ScrollOrResize
  {
    seq(n, _ => ScrollOrResize)
  }

  /** However many signals arrive, an idle controller ends up with the flag up and one evaluation waiting. */
  lemma {:induction false} BurstLeavesOneQueued(c: Controller, n: nat)
    requires Debounced(c) && !c.ticking
    ensures Run(c, Burst(n + 1)) == c.(ticking := true, queued := 1)
    decreases n
  {
    var t := c.(ticking := true, queued := 1);
    assert Burst(n + 1)[1..] == Burst(n);
    assert Run(c, Burst(n + 1)) == Run(t, Burst(n));
    BurstWhileTicking(t, n);
  }

  /** Signals that arrive while the flag is up change nothing. */
  lemma {:induction false} BurstWhileTicking(c: Controller, n: nat)
    requires c.ticking
    ensures Run(c, Burst(n)) == c
    decreases n
  {
    if n > 0 {
      assert Burst(n)[1..] == Burst(n - 1);
      BurstWhileTicking(c, n - 1);
    }
  }

  /** Running a concatenation of events runs the first part, then the second. */
  lemma {:induction false} RunConcat(c: Controller, es: seq<Event>, fs: seq<Event>)
    ensures Run(c, es + fs) == Run(Run(c, es), fs)
    decreases |es|
  {
    if |es| == 0 {
      assert es + fs == fs;
    } else {
      assert (es + fs)[1..] == es[1..] + fs;
      RunConcat(Step(c, es[0]), es[1..], fs);
    }
  }

  /** A second scroll signal before the frame adds nothing. */
  lemma OnScrollIdempotent(c: Controller)
    ensures OnScroll(OnScroll(c)) == OnScroll(c)
  {
  }

  /** Evaluating twice at the same offset leaves the state of the first evaluation. */
  lemma EvaluateIdempotent(c: Controller, offset: nat)
    ensures Evaluate(Evaluate(c, offset), offset) == Evaluate(c, offset)
  {
    var r := Evaluate(c, offset);
    var r2 := Evaluate(r, offset);
    forall i | 0 <= i < |c.bars|
      ensures r2.bars[i] == r.bars[i]
    {
      NextHiddenStable(NavIsOpen(c.bars[i]), offset, offset - c.lastY, c.bars[i].scrollHidden);
    }
  }

  /** Synchronising the open flags a second time changes nothing. */
  lemma SyncAllIdempotent(bars: seq<Bar>)
    ensures SyncAll(SyncAll(bars)) == SyncAll(bars)
  {
  }

  /**
   * Bars are independent: what an event does to bar `i` depends only on that
   * bar and on the controller's own fields, never on any other bar.
   */
  lemma StepBarIndependent(c1: Controller, c2: Controller, e: Event, i: nat)
    requires i < |c1.bars| && i < |c2.bars| && |c1.bars| == |c2.bars|
    requires c1.bars[i] == c2.bars[i]
    requires c1.lastY == c2.lastY && c1.ticking == c2.ticking && c1.queued == c2.queued
    ensures Step(c1, e).bars[i] == Step(c2, e).bars[i]
  {
  }

  /** The page framework changing one bar's markers leaves every other bar untouched. */
  lemma MarkersTouchOneBar(c: Controller, i: nat, button: bool, menu: bool, j: nat)
    requires j < |c.bars| && j != i
    ensures Step(c, Markers(i, button, menu)).bars[j] == c.bars[j]
  {
  }

  /** True when no event of `es` lets the page framework change bar `i`'s markers. */
  predicate LeavesMarkers(es: seq<Event>, i: nat) {
    forall k :: 0 <= k < |es| ==> !(es[k].Markers? && es[k].i == i)
  }

  /**
   * A bar whose menu is open and that is not hidden stays visible through any
   * sequence of scrolls, frames and synchronisations, at any offsets, as long
   * as its menu is not closed.
   */
  lemma {:induction false} OpenBarNeverHidden(c: Controller, es: seq<Event>, i: nat)
    requires i < |c.bars|
    requires NavIsOpen(c.bars[i]) && !c.bars[i].scrollHidden
    requires LeavesMarkers(es, i)
    ensures !Run(c, es).bars[i].scrollHidden
    decreases |es|
  {
    if |es| > 0 {
      var c' := Step(c, es[0]);
      assert NavIsOpen(c'.bars[i]) && !c'.bars[i].scrollHidden;
      assert LeavesMarkers(es[1..], i) by {
        forall k | 0 <= k < |es[1..]|
          ensures !(es[1..][k].Markers? && es[1..][k].i == i)
        {
          assert es[1..][k] == es[k + 1];
        }
      }
      OpenBarNeverHidden(c', es[1..], i);
    }
  }
}
