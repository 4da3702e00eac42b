/**
 * The form-result display machine of the site script (js/site.js:9-44).
 *
 * Every contact form that posts to the form service has, next to it, an
 * optional "done" panel and an optional "fail" panel. The script first hides
 * both panels, then, on each submission, reduces the network round trip to one
 * of three outcomes and moves three visibility flags accordingly. The DOM is
 * abstracted to those flags; a panel the page does not contain is `Missing`,
 * and every write to it is skipped, as the source's `if (done)` guards do.
 */
module FormDisplay {

  /** A status panel beside a form: absent from the page, or present and shown or hidden. */
  datatype Panel = Missing | Present(shown: bool)

  /** The visible state of one form and its two status panels. */
  datatype FormView = FormView(formShown: bool, done: Panel, fail: Panel)

  /** What the submission's network request came back with. */
  datatype Response =
    | Ok      // a response whose status is in the HTTP-ok range
    | NotOk   // a response with any other status
    | Thrown  // the request itself failed and raised an exception

  /** A panel is visible only when it exists and is shown. */
  predicate Shown(p: Panel) {
    p.Present? && p.shown
  }

  /** Two views have the same panels present (no panel is ever created or removed). */
  predicate SameSlots(f: FormView, g: FormView) {
    f.done.Present? == g.done.Present? && f.fail.Present? == g.fail.Present?
  }

  /** Writes a display value to a panel, doing nothing when the panel is missing. */
  function SetShown(p: Panel, v: bool): (q: Panel)
    ensures q.Present? == p.Present?
    ensures Shown(q) <==> p.Present? && v
  {
    if p.Present? then Present(v) else Missing
  }

  /** The clean default state set when the script starts: both panels hidden, the form untouched. */
  function Prepare(f: FormView): (g: FormView)
    ensures SameSlots(f, g)
    ensures g.formShown == f.formShown
    ensures !Shown(g.done) && !Shown(g.fail)
  {
    FormView(f.formShown, SetShown(f.done, false), SetShown(f.fail, false))
  }

  /** The submit handler's reaction to one response. */
  function Respond(f: FormView, r: Response): (g: FormView)
    ensures SameSlots(f, g)
    // success: the form disappears, "done" appears, "fail" is hidden
    ensures r == Ok ==> !g.formShown
    ensures r == Ok ==> (Shown(g.done) <==> f.done.Present?) && !Shown(g.fail)
    // failure of either kind: only the fail panel moves, and it becomes visible
    ensures r != Ok ==> g.formShown == f.formShown && g.done == f.done
    ensures r != Ok ==> (Shown(g.fail) <==> f.fail.Present?)
  {
    match r
    case Ok => FormView(false, SetShown(f.done, true), SetShown(f.fail, false))
    case NotOk => f.(fail := SetShown(f.fail, true))
    case Thrown => f.(fail := SetShown(f.fail, true))
  }

  /** The view after a sequence of submissions, answered in order. */
  function Run(f: FormView, rs: seq<Response>): FormView
    decreases |rs|
  {
    if |rs| == 0 then f else Run(Respond(f, rs[0]), rs[1..])
  }

  /** Answering the same outcome twice in a row looks the same as answering it once. */
  lemma RespondIdempotent(f: FormView, r: Response)
    ensures Respond(Respond(f, r), r) == Respond(f, r)
  {
  }

  /** A non-ok status and a thrown exception are handled identically. */
  lemma FailuresAgree(f: FormView)
    ensures Respond(f, NotOk) == Respond(f, Thrown)
  {
  }

  /** Running a concatenation of submissions runs the first part, then the second. */
  lemma {:induction false} RunAppend(f: FormView, rs: seq<Response>, ts: seq<Response>)
    ensures Run(f, rs + ts) == Run(Run(f, rs), ts)
    decreases |rs|
  {
    if |rs| == 0 {
      assert rs + ts == ts;
    } else {
      assert (rs + ts)[1..] == rs[1..] + ts;
      RunAppend(Respond(f, rs[0]), rs[1..], ts);
    }
  }

  /** No sequence of submissions adds or removes a panel. */
  lemma {:induction false} RunSameSlots(f: FormView, rs: seq<Response>)
    ensures SameSlots(f, Run(f, rs))
    decreases |rs|
  {
    if |rs| > 0 {
      RunSameSlots(Respond(f, rs[0]), rs[1..]);
    }
  }

  /** The form stays visible exactly as long as no submission has succeeded. */
  lemma {:induction false} FormShownUntilOk(f: FormView, rs: seq<Response>)
    ensures Run(f, rs).formShown <==> f.formShown && Ok !in rs
    decreases |rs|
  {
    if |rs| > 0 {
      FormShownUntilOk(Respond(f, rs[0]), rs[1..]);
      assert rs == [rs[0]] + rs[1..];
    }
  }

  /** The consistency every reachable view keeps: a visible "done" panel means the form is gone. */
  predicate Consistent(f: FormView) {
    Shown(f.done) ==> !f.formShown
  }

  /** Starting from the prepared state, the done panel and the form are never visible together. */
  lemma {:induction false} RunKeepsConsistent(f: FormView, rs: seq<Response>)
    requires Consistent(f)
    ensures Consistent(Run(f, rs))
    decreases |rs|
  {
    if |rs| > 0 {
      RunKeepsConsistent(Respond(f, rs[0]), rs[1..]);
    }
  }

  /**
   * After the prepared state and any submissions, "done" is visible exactly
   * when the page has that panel and some submission succeeded.
   */
  lemma {:induction false} DoneShownIffSomeOk(f: FormView, rs: seq<Response>)
    requires !Shown(f.done)
    ensures Shown(Run(f, rs).done) <==> f.done.Present? && Ok in rs
    decreases |rs|
  {
    if |rs| > 0 {
      var g := Respond(f, rs[0]);
      assert rs == [rs[0]] + rs[1..];
      if rs[0] == Ok && f.done.Present? {
        DoneStaysShown(g, rs[1..]);
      } else if rs[0] == Ok {
        RunSameSlots(g, rs[1..]);
      } else {
        DoneShownIffSomeOk(g, rs[1..]);
      }
    }
  }

  /** Once "done" is visible, no later response hides it. */
  lemma {:induction false} DoneStaysShown(f: FormView, rs: seq<Response>)
    requires Shown(f.done)
    ensures Shown(Run(f, rs).done)
    decreases |rs|
  {
    if |rs| > 0 {
      DoneStaysShown(Respond(f, rs[0]), rs[1..]);
    }
  }

  /**
   * After the prepared state and any submissions, "fail" is visible exactly
   * when the page has that panel and the latest response was not a success.
   */
  lemma {:induction false} FailShownIffLastFailed(f: FormView, rs: seq<Response>)
    requires !Shown(f.fail)
    ensures Shown(Run(f, rs).fail) <==> f.fail.Present? && |rs| > 0 && rs[|rs| - 1] != Ok
    decreases |rs|
  {
    if |rs| > 0 {
      FailFollowsLast(f, rs);
    }
  }

  /** With at least one response, the fail panel's visibility is decided by the last one alone. */
  lemma {:induction false} FailFollowsLast(f: FormView, rs: seq<Response>)
    requires |rs| > 0
    ensures Shown(Run(f, rs).fail) <==> f.fail.Present? && rs[|rs| - 1] != Ok
  {
    var init, last := rs[..|rs| - 1], rs[|rs| - 1];
    assert rs == init + [last];
    RunAppend(f, init, [last]);
    var g := Run(f, init);
    assert Run(g, [last]) == Run(Respond(g, last), []);
    RunSameSlots(f, init);
  }

  /** All the forms of a page, each with its own handler and panels. */
  type Page = seq<FormView>

  /** Prepares every form of the page independently. */
  function PreparePage(p: Page): (q: Page)
    ensures |q| == |p|
    ensures forall i :: 0 <= i < |p| ==> q[i] == Prepare(p[i])
    decreases |p|
  {
    if |p| == 0 then [] else [Prepare(p[0])] + PreparePage(p[1..])
  }

  /** Answers a submission of the form at index `i`; a page without that form is left as it is. */
  function SubmitAt(p: Page, i: nat, r: Response): (q: Page)
    ensures |q| == |p|
    ensures i < |p| ==> q[i] == Respond(p[i], r)
    ensures forall j :: 0 <= j < |p| && j != i ==> q[j] == p[j]
  {
    if i < |p| then p[i := Respond(p[i], r)] else p
  }

  /** A prepared page shows no status panel anywhere and keeps every form's visibility. */
  lemma PreparedPageIsClean(p: Page)
    ensures forall i :: 0 <= i < |p| ==>
      var g := PreparePage(p)[i]; !Shown(g.done) && !Shown(g.fail) && g.formShown == p[i].formShown
  {
  }
}
