/**
 * The per-bar decision rule of the scroll-visibility controller
 * (js/site.js:52-53 and 75-86): from whether the bar's menu is open, the
 * current vertical offset, the offset's change since the last evaluation and
 * the bar's present state, decide whether the bar carries "scroll-hidden".
 */
module ScrollRule {

  /** Offsets at or above the top of the page up to this many pixels never hide a bar. */
  const HideAfter: int := 64

  /** Offset changes smaller than this many pixels, either way, are jitter and are ignored. */
  const MinDelta: int := 6

  function Abs(x: int): (a: nat)
    ensures a == x || a == -x
  {
    if x < 0 then -x else x
  }

  /**
   * The bar's next "scroll-hidden" flag. `offset` is the current vertical
   * offset, `delta` its change since the previous evaluation and `hidden` the
   * flag as it stands.
   */
  function NextHidden(open: bool, offset: nat, delta: int, hidden: bool): (h: bool)
    // an open menu always shows the bar, whatever the offset or delta
    ensures open ==> !h
    // near the top of the page the bar is always shown
    ensures offset <= HideAfter ==> !h
    // closed and past the threshold: jitter keeps, a long way down hides, a long way up shows
    ensures !open && offset > HideAfter && -MinDelta < delta < MinDelta ==> h == hidden
    ensures !open && offset > HideAfter && delta >= MinDelta ==> h
    ensures delta <= -MinDelta ==> !h
    // the flag ends up set exactly when the bar is closed, past the threshold, and
    // either moved down by at least the minimum or was hidden and did not move up by it
    ensures h <==> !open && offset > HideAfter && (delta >= MinDelta || (hidden && delta > -MinDelta))
  {
    if open || offset <= HideAfter then false
    else if Abs(delta) < MinDelta then hidden
    else delta > 0
  }

  /** Re-deciding at an unchanged offset never changes a decision. */
  lemma NextHiddenStable(open: bool, offset: nat, delta: int, hidden: bool)
    ensures NextHidden(open, offset, 0, NextHidden(open, offset, delta, hidden)) == NextHidden(open, offset, delta, hidden)
  {
  }

  /** A zero delta can clear the flag but never set it. */
  lemma ZeroDeltaNeverHides(open: bool, offset: nat, hidden: bool)
    ensures NextHidden(open, offset, 0, hidden) ==> hidden
  {
  }

  /**
   * Monotonicity in the delta: scrolling further down never makes a hidden bar
   * visible, and scrolling further up never hides a visible one.
   */
  lemma NextHiddenMonotone(open: bool, offset: nat, d1: int, d2: int, hidden: bool)
    requires d1 <= d2
    ensures NextHidden(open, offset, d1, hidden) ==> NextHidden(open, offset, d2, hidden)
  {
  }
}
