# Scroll handlers of the portfolio site

`website/app.js` enhances a static portfolio page. On page load and on every
scroll event it runs two handlers over the page's elements:

- **`setActiveNav`** scans the elements of class `section` in document order.
  Each section whose `offsetTop - 150` is at most `window.scrollY` overwrites
  the local `current` with the section's `id`, so the last one wins; `current`
  starts as `''`. It then walks the elements of class `nav-link`: each one
  loses its `active` class and gets it back when `href.substring(1) === current`.
- **`scrollReveal`** walks the sections and adds `in-view` to each one whose
  viewport-relative top is below `0.8 * innerHeight`, removing it from all
  others.

The model takes the page as an explicit snapshot. `Page` holds the records.
A `Section` has its `id` attribute, its `offsetTop`, its bounding-rectangle
`top` and its `in-view` flag. A `NavLink` has its `href` attribute and its
`active` flag. An attribute is an `Option`, because `getAttribute` returns
`null` for a missing one. `NavHighlighter` and `RevealAnimator` model the two
handlers. Each is a method over arrays of these records, proved equal to a
recursive specification function, and lemmas state the handler's properties
about that function. `scrollY` is a `real` and `innerHeight` an `int`, as in the DOM.

Two edge cases of the code are modelled as written:

- A link without an `href` makes `getAttribute('href').substring(1)` throw a
  `TypeError`. That link has already lost `active`, and the links after it
  are left untouched. `SetActiveNav` returns `false` in that case.
- `substring(1)` of the empty string is `''`.

One might expect no link to be active when no section qualifies. In the
code, `current` is then `''`. So, when every link has an href, every link
whose `href` is `#` (or empty, or one character long) becomes active
(`HashLinkActiveWhenNoneQualifies`). "At most
one link is active" is guaranteed when every link has an href and the
links' fragments are pairwise distinct (`AtMostOneActive`).

## Model

| member | source | states |
|---|---|---|
| `NavHighlighter.LastQualifying` | website/app.js:24-31 | the chosen index is -1 or a section satisfying `Qualifies`, and no later section satisfies it |
| `NavHighlighter.Qualifies` | website/app.js:26-28 | a section qualifies exactly when its `offsetTop` is at most `scrollY + 150` |
| `NavHighlighter.ActiveId` | website/app.js:22-31 | the value of `current` after the scan: `''` when no section qualifies, otherwise the id of the qualifying section after which none qualifies |
| `NavHighlighter.ScanActiveId` | website/app.js:22-31 | the scan loop leaves `current` equal to the id of the last qualifying section, or `''` when none qualifies |
| `NavHighlighter.ActiveIdIsLastQualifying` | website/app.js:22-31 | a qualifying section after which nothing qualifies is the chosen one, and `current` is its id; a later qualifying section overrides every earlier one |
| `NavHighlighter.ActiveIdNoneQualifies` | website/app.js:22-31 | no section qualifies exactly when none is chosen, and then `current` is `''` |
| `NavHighlighter.LastQualifyingMonotone` | website/app.js:24-31 | a larger `scrollY` keeps every qualifying section qualifying and never moves the chosen index earlier |
| `NavHighlighter.QualifyingIsPrefix` | website/app.js:24-31 | with offsets in document order, the qualifying sections are exactly those up to the chosen one |
| `NavHighlighter.ThreeSectionsScenario` | website/app.js:19-31 | sections intro/work/contact at 0/1000/2000 scrolled to 900 give `current == "work"` |
| `NavHighlighter.Fragment` | website/app.js:35 | `substring(1)` drops exactly the first character and leaves the empty string empty |
| `NavHighlighter.Matches` | website/app.js:35 | the test `href.substring(1) === current`: a link without an href never matches; a non-empty href matches exactly when it is one character followed by `current`; the empty href matches exactly when `current` is `''` |
| `NavHighlighter.MarkLink` | website/app.js:34-36 | one iteration of the marking loop: the href is kept and `active` ends equal to `Matches`, whatever it was before |
| `NavHighlighter.MarkLinks` | website/app.js:33-38 | the whole marking `forEach`, including the stop at a link without an href: the number of links and every href are kept |
| `NavHighlighter.FirstMissingHref` | website/app.js:35 | the index where the marking loop throws: every earlier link has an href, the link there has none |
| `NavHighlighter.SetActiveNav` | website/app.js:19-39 | the links end as the marking of their prior state with the scanned `current`; it returns false exactly when some link has no href; only the links array is modified |
| `NavHighlighter.MarkLinksAt` | website/app.js:33-38 | hrefs are unchanged; up to and including the first link without an href, `active` is set exactly when the fragment equals `current`; later links keep their prior state |
| `NavHighlighter.ActiveExactlyWhenMatching` | website/app.js:33-38 | when every link has an href, a link is active exactly when `href.substring(1) == current`, whatever its prior state |
| `NavHighlighter.MarkLinksIgnoresPriorState` | website/app.js:33-38 | when every link has an href, two link lists with the same hrefs end in the same state, whatever their prior active flags |
| `NavHighlighter.MarkLinksIdempotent` | website/app.js:33-38 | marking twice with the same `current` equals marking once, also when the loop throws |
| `NavHighlighter.SetActiveNavIdempotent` | website/app.js:19-39 | running the whole handler twice on one snapshot leaves the links as running it once |
| `NavHighlighter.AtMostOneActive` | website/app.js:33-38 | when every link has an href and the fragments are pairwise distinct, at most one link is active afterwards |
| `NavHighlighter.HashLinkActiveWhenNoneQualifies` | website/app.js:22-38 | with nothing qualifying, and every link up to and including this one having an href, a link with href `#` becomes active and a link with a non-empty fragment does not |
| `RevealAnimator.TriggerBottom` | website/app.js:44 | the trigger line is four fifths of `innerHeight` |
| `RevealAnimator.Reveal` | website/app.js:47-53 | one iteration of the reveal loop: `in-view` ends set exactly when the top is below `TriggerBottom`, that is `0.8 * innerHeight`, and nothing else about the section changes |
| `RevealAnimator.RevealAll` | website/app.js:46-54 | the loop keeps the number of sections, and each section's outcome is `Reveal` of that section alone |
| `RevealAnimator.ScrollReveal` | website/app.js:42-55 | the sections array ends as `RevealAll` of its prior contents |
| `RevealAnimator.RevealAllCharacterised` | website/app.js:44-54 | a section is `in-view` afterwards exactly when its top is below `0.8 * innerHeight`; its id, offset and top are unchanged |
| `RevealAnimator.RevealAllIgnoresPriorState` | website/app.js:49-53 | the outcome does not depend on the prior `in-view` flags, so scrolling back up un-reveals |
| `RevealAnimator.RevealAllIdempotent` | website/app.js:46-54 | running the loop twice equals running it once |
| `RevealAnimator.RevealAllIsPointwise` | website/app.js:46-54 | replacing one section changes no other section's outcome |
| `RevealAnimator.RevealMonotone` | website/app.js:47-49 | a revealed section stays revealed when its top moves further up |
| `RevealAnimator.ScaledIntegerThreshold` | website/app.js:44-49 | for a section whose top is a whole number of pixels, `Reveal` sets `in-view` exactly when `5 * top < 4 * innerHeight` |

## Left out

- `loadVisitorCount` (website/app.js:4-16): a network request, JSON parsing, locale formatting of the number and console logging, all I/O and library behaviour.
- The event wiring (website/app.js:58-68): the `DOMContentLoaded` and `scroll` listeners. The consequences of a throw there are not modelled. On page load, `setActiveNav` (line 61) runs before `scrollReveal` (line 62) and before the scroll listener is installed (line 64). So if a nav-link has no href at load time, `scrollReveal` never runs and the scroll listener is never installed: neither handler runs on any later scroll. If the throw comes from a later scroll event instead, `scrollReveal` does not run for that event.
- DOM queries and layout reads (`querySelectorAll`, `offsetTop`, `getBoundingClientRect`, `window.scrollY`, `window.innerHeight`) are inputs: the arrays and the `scrollY` and `innerHeight` parameters.
- Floating-point arithmetic: `innerHeight * 0.8` and the section comparisons are computed exactly, with `real`. IEEE rounding is not modelled.
- `NavHighlighter.Fragment`: strings are sequences of Unicode characters, not UTF-16 code units. For an href whose first character lies outside the Basic Multilingual Plane, `substring(1)` would split a surrogate pair, and the model does not show that.
- Aliasing between the two element lists (one element that is both a section and a nav-link) is not modelled: sections and links are separate arrays.
