# YouTube keyboard navigation, modelled in Dafny

`content.js` is a browser content script for keyboard navigation of
YouTube's video grid. It finds the video items on the page and keeps a
cursor into that list. The selected item gets a reversible green
highlight. The keys `d`/`a` move the cursor by one, `s`/`w` move it by
five, Enter opens the selected video and `r` goes to the home page. A
mutation observer and several timers re-run discovery as the page
changes.

This project models that behaviour:

- `Dom` is the page as the script reads it. Element handles are plain
  values, and the selector engine, the parent chain, attribute reads and
  the bounding-box read are oracles in one `Document` value. It also
  holds `Contains`, which is `String.prototype.includes`.
- `Locator` is one discovery pass of `initializeNavigation`. It covers
  the eight-selector fallback chain, the climb from an image to its
  nearest link-like ancestor, the `indexOf` dedup filter and the
  visibility filter. `Locate` is the pass as a function.
- `Presenter` is the highlight mark as a value (`Marks`) plus the class
  `Presentation`, the page's style store that the clearing loop and the
  marking step update in place.
- `Activation` is Enter's list of twelve click targets and the loop that
  tries them in order.
- `Navigation` holds the globals `currentIndex`, `thumbnails`,
  `isInitialized` and `lastUrl` as the class `Navigator`. It has one
  method per key transition, plus the keydown listener, the observer
  callback and the bodies of the timer callbacks.

The model follows the code in four places where a plain reading of the
script's intent says otherwise:

- Within three items of the end, `d` re-runs discovery. When the list
  did not grow, the cursor is clamped to the new list rather than moved
  forward. So with ten items and the cursor at 7, `d` leaves it at 7
  (`Navigation.Navigator.Advance`).
- When the re-discovery that `d` or `s` runs near the end of the list
  finds nothing, the cursor becomes -1 and the old highlight stays on
  the page even though its element is no longer in the list. Any other
  re-discovery that finds nothing (from the observer, a timer or the
  periodic check) leaves the cursor where it was, and also leaves the
  old highlight on the page.
- On a video page, `a` at index 0 and `w` landing on 0 clear the
  highlight and mark nothing, and the cursor ends at 0.
- After the cursor has become -1, a later discovery that finds items
  keeps it at -1, because the clamp is min(-1, length - 1). The script is
  ready again, nothing is marked and the old highlight stays. Enter does
  nothing until a moving key brings the cursor back into the list; `a`
  takes it from -1 to 0 (`Navigation.StrandedCursor`).

## Model

| member | source | states |
|---|---|---|
| Dom.ContainsIffOccurs | content.js:36 | `includes` holds exactly when the fragment occurs at some position of the string |
| Locator.NoLetterGNoImg | content.js:36 | a selector without the letter g cannot contain "img" |
| Locator.ImageSelectorsAreFiveAndSix | content.js:15-24 | of the eight selectors, exactly the two `img[...]` ones take the image branch of line 36 |
| Locator.NoLetterGOutsideImageSelectors | content.js:15-24 | the six selectors other than the two image ones contain no letter g |
| Locator.IndexOf | content.js:55 | `indexOf` gives -1 or a position of the list |
| Locator.IndexOfIsFirstPosition | content.js:55 | `indexOf` gives -1 exactly for an absent element, otherwise a position holding it with no earlier occurrence |
| Locator.KeepFirstFromMembers | content.js:55 | filtering from position i keeps exactly the elements whose first occurrence is at i or later |
| Locator.RankedCons | content.js:55 | putting an element whose first occurrence precedes those of a ranked list in front of it keeps the list ranked |
| Locator.KeepFirstFromAfter | content.js:55 | every survivor of the filter from position i first occurs at i or later |
| Locator.KeepFirstFromRankedStep | content.js:55 | keeping an element at its first occurrence, in front of the ranked survivors after it, keeps the ranking |
| Locator.KeepFirstFromRanked | content.js:55 | the filter's survivors appear in the order of their first occurrences |
| Locator.RankedHasNoDuplicates | content.js:55 | a list whose elements have strictly increasing first occurrences holds no element twice |
| Locator.DedupKeepsFirstOccurrences | content.js:55 | dedup keeps every element of its input, each once, in first-occurrence order |
| Locator.VisibleOnlyMembers | content.js:58-65 | the visibility filter keeps exactly the elements with positive width and height; a box read that raises drops only that element |
| Locator.VisibleOnlyKeepsRank | content.js:58-65 | a list ordered by first occurrence, as the dedup step hands it over, stays ordered by first occurrence after the visibility filter |
| Locator.ClimbFindsNearestLink | content.js:40-46 | the climb returns the nearest ancestor within its step budget that is an anchor or has an href; otherwise it finds none; it stops at a missing parent |
| Locator.AncestorShift | content.js:40-46 | the ancestor d + 1 levels above a node is the ancestor d levels above its parent |
| Locator.NoParentNoLink | content.js:40-46 | a node without a parent has no ancestor, so none that is link-like |
| Locator.ResolveContainer | content.js:38-48 | an image maps to its nearest link-like ancestor at most five levels up, or to itself when there is none within that bound |
| Locator.ResolveAll | content.js:38-48 | the image mapping keeps the length, and each position holds the container of the image at that position: its nearest link-like ancestor within five levels, else the image itself |
| Locator.PostProcess | content.js:33-65 | a selector's result holds exactly its visible candidates, each once, in first-occurrence order |
| Locator.Results | content.js:32-71 | there is one result per selector, in priority order; result k holds exactly the visible candidates of selector k, each once, in first-occurrence order |
| Locator.FirstNonEmptySpec | content.js:67-69 | taking the first non-empty result gives empty exactly when all are empty, and otherwise some result with only empty results before it |
| Locator.LocateIsFirstSuccess | content.js:29-71 | a pass yields the result of the first selector whose result is non-empty, with every earlier selector yielding nothing; results are never merged; empty exactly when every selector yields nothing |
| Locator.LocateYieldsDistinctVisibleItems | content.js:29-71 | every located item is visible and none occurs twice |
| Presenter.RestoreStep | content.js:93-97 | restoring the marked elements one at a time, in any order, builds up the full restore |
| Presenter.UnwoundRestoresMarked | content.js:93-97 | after clearing, nothing is marked; each formerly marked element shows its saved style (or the empty style) and has no saved style; other elements are untouched |
| Presenter.UnwoundIsClean | content.js:93-97 | clearing a state whose saved styles sit on marked elements leaves no saved style, and it never introduces an empty style entry |
| Presenter.UnwindAfterMark | content.js:93-118 | marking an element of a clean state and then clearing gives the clean state back |
| Presenter.HighlightedMarksExactlyTarget | content.js:89-126 | an out-of-range index changes nothing; otherwise exactly the target is marked, with its style after clearing saved and the highlight appended, and the others are restored |
| Presenter.RemarkAfterUnwind | content.js:93-118 | on a state with no marks, marking, clearing and marking the same element again gives the state the first marking gave |
| Presenter.HighlightIdempotent | content.js:89-126 | highlighting the same index twice is the same as highlighting it once |
| Presenter.UnwindUndoesHighlight | content.js:89-126 | the mark is reversible: clearing after a highlight gives what clearing alone gives |
| Presenter.HighlightOverrides | content.js:89-126 | a later highlight with a valid index erases every trace of an earlier one |
| Presenter.HighlightedWellFormed | content.js:89-126 | clearing and highlighting keep saved styles exactly on marked elements, with at most one element marked |
| Presenter.Presentation.ClearMarks | content.js:93-97 | the clearing loop leaves the store equal to the full restore of every marked element |
| Presenter.Presentation.Mark | content.js:103-118 | marking saves the current inline style, sets the mark and appends the highlight declarations |
| Activation.FirstActionIsFirstUsable | content.js:318-351 | no action is taken exactly when every target is null or raises; otherwise the action is that of the first target that is non-null and does not raise |
| Activation.EnterFailsOnlyIfItemFails | content.js:303-351 | with the item itself as the last of the twelve targets, Enter takes no action exactly when the item's attempt raises and each of the eleven lookups before it is null or raises; when all lookups are null, Enter acts on the item unless that raises |
| Activation.Activate | content.js:318-351 | the `clicked` loop takes the action of the first usable target: navigation when its href contains the watch marker, else `click()`, else a dispatched click |
| Navigation.Lower | content.js:139 | lower-casing keeps the key's length |
| Navigation.LowerMatchesAnyCase | content.js:139 | a key lower-cases to a lower-case word exactly when it has the word's length and each letter is the word's letter in either case |
| Navigation.LowerMatchesLetter | content.js:139 | a key lower-cases to a letter exactly when it is that letter in lower or upper case |
| Navigation.KeyDispatchIgnoresCase | content.js:139-353 | each of `d`, `a`, `s`, `w` and `r` is dispatched from both cases, `enter` from any mix of cases, and the browser's "Enter" lower-cases to "enter" |
| Navigation.WalkSelectors | content.js:29-71 | the selector loop with its early `break` yields exactly the pass `Locate` |
| Navigation.Navigator.constructor | content.js:5-7 | at load the cursor is 0, the list is empty and the script is not ready |
| Navigation.Navigator.Highlight | content.js:89-126 | `highlightThumbnail` updates the store to the highlight function's value and keeps at most one mark |
| Navigation.Navigator.Discover | content.js:10-86 | the list becomes the pass result; a non-empty result makes the script ready, clamps the cursor to min(previous, length - 1) and highlights the item at that index when the index is not -1; an empty one clears the ready flag and leaves the cursor and marks |
| Navigation.Navigator.Advance | content.js:140-158 | `d` moves forward by one away from the end; near the end it re-runs discovery and moves forward only if the list grew, else clamps (stalls when the length is unchanged); an empty re-discovery leaves the cursor at -1 |
| Navigation.Navigator.Retreat | content.js:160-218 | `a` moves back by one, stopping at 0, and from -1 the cursor goes to 0; at 0 on a video page it clears the highlight instead |
| Navigation.Navigator.JumpForward | content.js:220-233 | `s` sets the cursor to min(old + 5, length - 1), after re-running discovery when the jump lands near the end |
| Navigation.Navigator.JumpBack | content.js:235-295 | `w` sets the cursor to max(old - 5, 0); when that is 0 on a video page it clears the highlight instead |
| Navigation.Navigator.HandleKey | content.js:129-360 | an event when not ready sets the list to the pass result and is dropped if that is empty; for Enter, `r` and other keys, that discovery's full outcome (ready flag, clamped cursor, highlight) is the final state; once ready, `d`, `a`, `s` and `w` make exactly the transitions stated for `Advance`, `Retreat`, `JumpForward` and `JumpBack`, and the other keys leave the list, cursor and marks alone; moving keys prevent the default; Enter acts on the selected item only when the cursor is in range; `r` navigates home; other keys do nothing |
| Navigation.StrandedCursor | content.js:72-85 | after `d` near the end finds nothing, a later pass that finds items makes the script ready with the cursor still at -1, leaves the marks as they were before `d`, and a following Enter does nothing |
| Navigation.Navigator.UrlObserved | content.js:364-373 | a changed URL is remembered and marks the script not ready, keeping the list and cursor; an unchanged URL changes nothing |
| Navigation.Navigator.PeriodicCheck | content.js:402-406 | when the script is not ready or has no items, the state becomes the discovery outcome (list, ready flag, clamped cursor, highlight); otherwise nothing changes |
| Navigation.Navigator.RetryIfFew | content.js:380-390 | while fewer than ten items are known, the state becomes the discovery outcome (list, ready flag, clamped cursor, highlight); otherwise nothing changes |

## Left out

- Timers and scheduling are not modelled. The delays of 500 ms, 1 s, 3 s and 5 s, the 5 s interval, and the `DOMContentLoaded` wait are left out. Only the bodies of the callbacks are modelled: the unconditional ones at content.js:376-378 and 393-399 are `Discover`, and the conditional ones are `RetryIfFew` and `PeriodicCheck`.
- The observer's subscription to `document.body` and its 1 s delayed re-discovery are not modelled. The callback body is `UrlObserved`, and the delayed call is `Discover`.
- CSS selector matching is an oracle: `Document.query` returns each selector's matches in document order. Selector syntax, attribute substring matching and the lookups inside Enter are not interpreted.
- Geometry is reduced to a flag: a bounding box either has positive width and height, or the read raises. Floating-point sizes are not modelled.
- The highlight's CSS text is one fixed non-empty string. The browser's normalisation of `style.cssText` on read is not modelled, and an inline style is treated as the string that was written.
- `scrollIntoView`, `scrollTo`, `focus` and the search for the video player on `a`/`w` are not modelled. They move the view or the keyboard focus; neither changes the script's state.
- A navigation, a `click()` call and a dispatched `MouseEvent` are recorded as an `Action`; their effect on the page is not modelled.
- The unused query at content.js:12 is not modelled. Its result is never read.
- Navigation.Lower: lower-cases ASCII letters only, not the full Unicode `toLowerCase`.
- Activation.Activate: an exception is one flag per target (`activationFails`). Where in the attempt it is raised is not modelled, and neither is a side effect that happens before the exception.
- Navigation.Navigator.HandleKey: when an event finds the script not ready, for the four moving keys it states the list after the first discovery and the event's outcome, but not the final cursor and highlight. Those are the composition of `Discover` with the state change stated by `Advance`, `Retreat`, `JumpForward` or `JumpBack`, which it calls.
- Every read within one callback sees the same `Document`, so a page that changes during a pass is not modelled.
