# Site script: scroll-visibility controller and form-result panels

This project models the two state machines of the marketing site's browser
script `js/site.js` and proves their properties in Dafny.

- **Form-result display** (`form_display.dfy`, module `FormDisplay`). Every
  contact form that posts to the form service may have a "done" panel and a
  "fail" panel beside it. At start-up the script hides both panels. Each
  submission then ends in one of three ways: an ok response, a non-ok
  response, or a thrown exception. The outcome moves the three visibility
  flags. A panel the page lacks is `Missing`, and every write to it is
  skipped.
- **Scroll-visibility controller** (`scroll_rule.dfy`, module `ScrollRule`,
  and `scroll_controller.dfy`, module `ScrollController`). Each navigation
  bar has two flags: "is-nav-open", mirrored from the open markers on its
  menu button and menu panel, and "is-scroll-hidden", which the controller
  decides. The controller also remembers the offset of its last evaluation
  (`lastY`) and a debounce flag (`ticking`). It hides a closed bar that is
  past 64 pixels and was scrolled down by at least 6 pixels. It shows the bar
  again when the page is scrolled up by at least 6 pixels, when the page
  offset is at most 64, or when its menu is open. Smaller moves leave
  the bar as it is. Scroll and resize signals, animation frames, menu class
  changes and the framework's marker writes are explicit `Event`s fed to a
  pure `Step`. The number of evaluations waiting for a frame is the
  `queued` count, so the debounce can be stated as an invariant.

A failed submission does not touch the form, so a form that an earlier
success hid stays hidden (`FormDisplay.Respond`,
`FormDisplay.FormShownUntilOk`).

## Model

| member | source | states |
|---|---|---|
| FormDisplay.Prepare | js/site.js:14-19 | At start-up both status panels are hidden, when present, and the form's own visibility is left as it was |
| FormDisplay.PreparePage | js/site.js:13-19 | Every form on the page is prepared on its own, and the number of forms does not change |
| FormDisplay.PreparedPageIsClean | js/site.js:13-19 | After preparation, no form on the page shows a status panel, and every form keeps its visibility |
| FormDisplay.Respond | js/site.js:32-41 | An ok response hides the form, shows "done" if it exists and hides "fail". A non-ok response or an exception shows "fail" if it exists and leaves the form and "done" alone. No panel is ever created or removed |
| FormDisplay.FailuresAgree | js/site.js:36-41 | A non-ok status and a thrown exception have the same effect |
| FormDisplay.RespondIdempotent | js/site.js:32-41 | Handling the same outcome twice in a row gives the same view as handling it once |
| FormDisplay.SubmitAt | js/site.js:13-42 | A submission changes only its own form's view. Every other form on the page is unchanged |
| FormDisplay.RunSameSlots | js/site.js:14-41 | No sequence of responses adds or removes a panel |
| FormDisplay.FormShownUntilOk | js/site.js:32-41 | After any responses, the form is visible exactly when it was visible before and no response was ok |
| FormDisplay.RunKeepsConsistent | js/site.js:18-41 | Starting from any view in which a visible "done" means a hidden form, every sequence of responses keeps that true |
| FormDisplay.DoneStaysShown | js/site.js:32-41 | Once "done" is visible, no later response hides it |
| FormDisplay.DoneShownIffSomeOk | js/site.js:18-41 | Starting with "done" hidden, "done" is visible after any responses exactly when the panel exists and some response was ok |
| FormDisplay.FailFollowsLast | js/site.js:32-41 | After at least one response, "fail" is visible exactly when the panel exists and the last response was not ok |
| FormDisplay.FailShownIffLastFailed | js/site.js:18-41 | Starting with "fail" hidden, "fail" is visible exactly when the panel exists and there was a response and the last one was not ok |
| ScrollRule.NextHidden | js/site.js:52-86 | An open menu or an offset of at most 64 clears the flag. For a closed bar past 64, a delta of at least 6 sets it, a delta of at most -6 clears it, and a smaller delta keeps it. In closed form: the flag is set exactly when the bar is closed, past 64, and either moved down by at least 6 or was hidden and did not move up by 6 |
| ScrollRule.NextHiddenStable | js/site.js:75-86 | Deciding again at an unchanged offset (delta 0) keeps the previous decision |
| ScrollRule.ZeroDeltaNeverHides | js/site.js:80-86 | A zero delta can clear the flag but never sets it |
| ScrollRule.NextHiddenMonotone | js/site.js:80-86 | A larger downward delta never shows a bar that a smaller one hides |
| ScrollController.SyncAll | js/site.js:62-66 | Each bar's "is-nav-open" flag becomes its button-or-panel open marker. Each bar changes only that flag, based only on its own state |
| ScrollController.SyncAllIdempotent | js/site.js:62-66 | Synchronising the open flags twice gives the same result as doing it once |
| ScrollController.HideAll | js/site.js:74-87 | Each bar's hidden flag is decided by the rule from its own open state and previous flag. Nothing else about any bar changes |
| ScrollController.Evaluate | js/site.js:68-91 | After an evaluation, `lastY` equals the offset and `ticking` is false, whatever branch each bar took. Open markers are kept and "is-nav-open" mirrors them. A bar with an open menu is shown, and every bar is shown at an offset of at most 64. Each flag follows the rule with delta = offset - previous `lastY` |
| ScrollController.EvaluateIdempotent | js/site.js:68-91 | A second evaluation at the same offset changes nothing |
| ScrollController.OnScroll | js/site.js:93-97 | A scroll or resize signal never moves a bar or the remembered offset. Afterwards `ticking` is set and no waiting evaluation is dropped. From a debounced state exactly one evaluation is then waiting. While `ticking` is set the signal is ignored |
| ScrollController.OnScrollIdempotent | js/site.js:93-97 | A second signal before the frame adds nothing |
| ScrollController.Step | js/site.js:93-119 | No event removes or adds bars. Only a frame that runs a waiting evaluation changes a hidden flag or `lastY` |
| ScrollController.Start | js/site.js:47-120 | A page without bars installs nothing. Otherwise `lastY` starts at the current offset, and the first evaluation (delta 0) never hides a bar that was visible. The open flags are synchronised, and nothing is waiting for a frame |
| ScrollController.StepKeepsDebounced | js/site.js:89-97 | Every event keeps the debounce invariant: an evaluation is waiting exactly when `ticking` is set, and then there is exactly one |
| ScrollController.RunKeepsDebounced | js/site.js:89-97 | Through any sequence of events the invariant holds, so at most one evaluation is ever waiting |
| ScrollController.StartedIsDebounced | js/site.js:50-120 | A started controller satisfies the debounce invariant after any events |
| ScrollController.BurstWhileTicking | js/site.js:93-94 | Any number of scroll signals arriving while `ticking` is set change nothing |
| ScrollController.BurstLeavesOneQueued | js/site.js:93-97 | Starting idle, one or more signals leave `ticking` set with exactly one evaluation waiting |
| ScrollController.BurstThenFrame | js/site.js:68-97 | Starting idle, a burst of signals followed by one frame performs exactly one evaluation, at that frame's offset |
| ScrollController.StepBarIndependent | js/site.js:62-87 | What any event does to a bar depends only on that bar and the controller's own fields, never on another bar |
| ScrollController.MarkersTouchOneBar | js/site.js:55-66 | The framework changing one bar's open markers leaves every other bar unchanged |
| ScrollController.OpenBarNeverHidden | js/site.js:55-91 | A visible bar with an open menu stays visible through any scrolls, frames and synchronisations at any offsets, until the framework changes its markers |

## Left out

- Document readiness (js/site.js:1-7): both branches run the start-up code once. The model's start-up functions stand for that single run.
- DOM queries, class-list writes and inline display styles (js/site.js:10, 14-15, 47, 57-58, 64, 76, 83, 85, 102-103) are reduced to boolean fields. A control or panel the page lacks is a false marker or a `Missing` panel.
- The form's initial visibility is an input, because the script never sets it before the first response.
- `fetch`, `FormData`, the request method and headers (js/site.js:22-30) are network I/O. They are reduced to the three-valued `Response`.
- Event-listener registration, the click handler's deferred synchronisation and the two `MutationObserver`s (js/site.js:99-119) are timing. They are reduced to the discrete `Sync` event. The framework's own writes to the open markers become the `Markers` event.
- Animation-frame timing: a `Frame` event runs one waiting evaluation. The browser runs all waiting callbacks in a frame, but `RunKeepsDebounced` shows there is never more than one.
- Fractional `pageYOffset` values: offsets are non-negative integers.
- FormDisplay.SubmitAt: assumes every form has its own parent element and so its own panels. The script looks the panels up through the form's parent (js/site.js:14-15), so two forms under one parent share their panels. There, a response to one form also moves the other form's panels, which `SubmitAt` does not model.
- FormDisplay.PreparePage: makes the same own-panels assumption as `SubmitAt`. Hiding a shared panel twice leaves it hidden, so preparation itself is unaffected.
