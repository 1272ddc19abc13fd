# Navigation and stat-counter logic of the GarrettFoundation site script

A Dafny model of the logic inside the event handlers of `script.js`, the
client-side script of a marketing website. The page's elements are replaced
by abstract state, and every browser event becomes an explicit call:

- **Menu** (`menu.dfy`): the mobile overlay's inline `display`
  (`flex`, `none` or unset) and the body's inline `overflow`. The three
  handlers are the toggle button, a click on a mobile link, and a document
  click whose target is given by two facts: inside the menu, inside the
  toggle button. Pure step functions specify the class `MobileMenu`. The
  lemmas cover the toggle round trip, idempotent closing, the
  outside-click condition, and the invariant that scrolling is locked
  exactly while the menu is shown.
- **Navbar** (`navbar.dfy`): the `ticking` flag that lets at most one
  `updateNavbar` wait for an animation frame, and the strict `> 50`
  threshold between the two backgrounds. The frame-callback queue is a
  counter. An animation frame is an event that carries the scroll offset
  it reads. The lemmas show that a burst of scrolls queues one frame and
  that each frame writes the background at most once.
- **Pages** (`pages.dfy`): `split('/')`, with its inverse `join`. The
  current page is the last piece, or `index.html` when that piece is
  empty, and it is proved equal to "the text after the last `/`". The
  homepage test gates the counters. The loop over the navigation links
  marks a link active exactly when its `href` equals the current page.
- **Stats** (`stats.dfy`): the digit and non-digit filters of a stat's
  text, `parseInt` of the digits (with NaN for an empty digit string),
  the decimal string form of the floored value, and the interval loop
  over exact reals that adds a fiftieth of the target per tick and clamps
  at the target. An intersecting observer entry runs the stat's counter
  and stops observing the stat.

The model follows the code as written:
- No element lookup is null-checked, so the model has no "missing element"
  no-op.
- The "suffix" is every non-digit character, including leading ones.
  `Stats.PrefixMovesToEnd` shows that any digit-free prefix ends up after
  the number, and `Stats.PrefixExample` that `$50` ends up displayed as `50$`.

Two consequences of the code are stated as lemmas and are not corrected.
- A path other than `/` that ends in `/` marks `index.html` as the current
  page but does not pass the homepage test
  (`Pages.DirectoryPathIsNotHomePage`); the root path `/` passes it
  (`Pages.RootIsHomePage`).
- A stat keeps its original text at the end of the animation exactly when
  the text is a canonical number followed by a digit-free suffix
  (`Stats.FinalTextRestoresNumberThenSuffix` and
  `Stats.FinalTextUnchangedOnlyForNumberThenSuffix`).

## Model

| member | source | states |
|---|---|---|
| `Menu.Toggled` | script.js:2-13 | the toggle inverts visibility: `flex` gives `none`/`auto`, and any other display, unset included, gives `flex`/`hidden`; the result is always consistent |
| `Menu.LinkClicked` | script.js:16-21 | a mobile-link click leaves the menu hidden with overflow `auto`, whatever the prior state |
| `Menu.DocumentClicked` | script.js:24-32 | a document click closes the menu when the target is inside neither the menu nor the button, leaves the state unchanged otherwise, and keeps a consistent state consistent |
| `Menu.InitialConsistent` | script.js:4 | the initial state (both inline values unset) counts as closed and is consistent |
| `Menu.ToggleTwiceRestores` | script.js:4-12 | two toggles from a `flex` or `none` state the handlers wrote restore that state |
| `Menu.ToggleTwiceFromClosed` | script.js:4-12 | two toggles from any closed state, unset included, end in the closed state |
| `Menu.LinkClickIdempotent` | script.js:17-20 | a second link click changes nothing |
| `Menu.OutsideClickIdempotent` | script.js:28-31 | a second outside click changes nothing: closing a closed menu is a no-op |
| `Menu.DocumentClickChangesIff` | script.js:28-31 | a document click changes the state if and only if the target is outside both regions and the menu is not already closed |
| `Menu.ApplyPreservesConsistent` | script.js:6-30 | each of the three handlers keeps `overflow` hidden exactly when `display` is `flex` |
| `Menu.RunPreservesConsistent` | script.js:2-32 | any sequence of handler events keeps a consistent state consistent |
| `Menu.RunFromReachable` | script.js:2-32 | from the initial state, any event sequence ends in the initial, opened or closed state, and so in a consistent one |
| `Menu.ClosedStaysClosedUnderClicks` | script.js:16-32 | once closed, link and document clicks keep the menu closed; only the toggle reopens it |
| `Menu.MobileMenu.constructor` | script.js:3-4 | the menu starts with both inline values unset, a consistent closed state |
| `Menu.MobileMenu.Toggle` | script.js:2-13 | the in-place update of the two style fields is `Toggled` of the old state |
| `Menu.MobileMenu.OnLinkClick` | script.js:17-20 | the in-place update is `LinkClicked` of the old state |
| `Menu.MobileMenu.OnDocumentClick` | script.js:24-32 | the in-place update is `DocumentClicked` of the old state |
| `Navbar.BackgroundFor` | script.js:53-57 | the background is the 0.95 one exactly when `scrollY > 50`, and the 0.85 one at 50 and below |
| `Navbar.Css` | script.js:54-56 | the elevated background is written as `rgba(255, 255, 255, 0.95)` and the other as `rgba(255, 255, 255, 0.85)` |
| `Navbar.Scrolled` | script.js:61-66 | a scroll leaves exactly one frame queued with `ticking` set; while a frame is pending it changes nothing |
| `Navbar.Framed` | script.js:51-59 | a frame clears `ticking`, empties the queue and writes the background for its scroll offset once if an update was pending; with nothing pending it changes nothing |
| `Navbar.Run` | script.js:49-66 | any event sequence keeps "queued is 1 exactly when ticking, else 0" |
| `Navbar.WritesBoundedByFrames` | script.js:49-66 | however many scrolls arrive, the background writes never exceed the number of frames |
| `Navbar.ScrollBurstQueuesOne` | script.js:61-66 | any non-empty burst of scrolls leaves exactly one frame queued and writes nothing |
| `Navbar.ScrollThenFrameReflectsOffset` | script.js:51-66 | after a scroll and then a frame, the background matches the frame's scroll offset |
| `Navbar.Throttle.constructor` | script.js:49 | the flag starts false, with no frame queued and the background unwritten |
| `Navbar.Throttle.OnScroll` | script.js:61-66 | the in-place update of the flag and queue is `Scrolled` of the old state |
| `Navbar.Throttle.RunFrame` | script.js:51-59 | the in-place update is `Framed` of the old state |
| `Pages.Split` | script.js:70 | `split` returns at least one piece, and no piece contains the separator |
| `Pages.JoinSplit` | script.js:70 | joining the pieces of a split gives back the string |
| `Pages.SplitJoin` | script.js:70 | splitting a join of separator-free pieces gives back the pieces |
| `Pages.AfterLastSlash` | script.js:70 | the reference segment has no `/`, is a suffix of the path, and is either the whole path or preceded by `/` |
| `Pages.LastSegment` | script.js:70 | `split('/').pop()` has no `/`, ends the path, follows a `/` unless it is the whole path, and is exactly the text after the last `/` |
| `Pages.CurrentPage` | script.js:70 | the current page is non-empty and has no `/`; it is the text after the last `/`, or `index.html` when that text is empty |
| `Pages.EndsWithIffLastSegmentEndsWith` | script.js:115 | for a suffix without `/`, the path ends with it exactly when its last segment does |
| `Pages.HomePageByCurrentPage` | script.js:115 | the homepage test holds if and only if the path is `/`, or its last segment is non-empty and ends with `index.html` |
| `Pages.IsHomePage` | script.js:115 | the path ends with `index.html` or equals `/` exactly when it is `/` or the text after its last `/` ends with `index.html` |
| `Pages.DirectoryPathIsNotHomePage` | script.js:70-115 | every path other than `/` that ends in `/`, such as `/about/`, marks `index.html` as current but is not a homepage |
| `Pages.RootIsHomePage` | script.js:70-115 | the root path `/` marks `index.html` as current and is a homepage |
| `Pages.AtMostOneActive` | script.js:73-78 | if the `href`s are distinct and marking followed the page, at most one link is active, and exactly one when some link's `href` is the page |
| `Pages.MarkActive` | script.js:73-78 | after the loop every link keeps its `href`, and a link is active exactly when its `href` equals the page, so other links lose `active` |
| `Pages.OnLoad` | script.js:69-79 | the links end up marked for `CurrentPage` of the path |
| `Stats.Digits` | script.js:89 | the digit part consists only of digits |
| `Stats.NonDigits` | script.js:90 | the suffix contains no digit |
| `Stats.DigitsPartition` | script.js:89-90 | the two filters' lengths add up to the text's length, and together they hold every character exactly once |
| `Stats.FiltersOfNumberThenSuffix` | script.js:89-90 | for digits followed by non-digits, the filters give back the two parts |
| `Stats.ParseDigits` | script.js:89 | `parseInt` of the digits is NaN exactly when there are none, and their decimal value otherwise |
| `Stats.NatToString` | script.js:101 | the displayed number is a non-empty digit string without a leading zero |
| `Stats.DecimalValueOfNatToString` | script.js:101 | reading back a displayed number gives the number |
| `Stats.NatToStringOfDecimalValue` | script.js:89 | writing out the value of a canonical digit string gives the string back |
| `Stats.ParseStat` | script.js:88-90 | the parse fails with NaN exactly when the text has no digit; otherwise the target is the digits' value and the suffix is the digit-free rest |
| `Stats.ParseNumberThenSuffix` | script.js:88-90 | a number's string form followed by a digit-free suffix parses to that number and that suffix |
| `Stats.ParseExample` | script.js:89-90 | `250+` gives target 250 and suffix `+` |
| `Stats.Increment` | script.js:93 | the increment is non-negative and fifty increments make the target |
| `Stats.Step` | script.js:96-100 | a tick stops exactly when the value plus one fiftieth of the target reaches the target, and then clamps to exactly the target; otherwise it adds one fiftieth; it never decreases the value and never passes the target |
| `Stats.Shown` | script.js:101 | a tick's text is the floored value followed by the suffix: it ends with the suffix, and with a digit-free suffix it parses back to the floored value and that suffix |
| `Stats.Animate` | script.js:92-102 | the loop stops only once the accumulated fiftieths reach the target; each tick but the last shows the floor of that many fiftieths, below the target; every displayed text is the floored value plus the suffix; the floored values never decrease and never exceed the target; the last text is the target followed by the suffix |
| `Stats.FinalText` | script.js:98-101 | the final text ends with the stat's suffix and parses back to the same target and suffix |
| `Stats.FinalTextRestoresNumberThenSuffix` | script.js:89-101 | a canonical number followed by a digit-free suffix, such as `250+`, ends displayed as exactly its original text |
| `Stats.FinalTextUnchangedOnlyForNumberThenSuffix` | script.js:89-101 | conversely, a text the animation leaves unchanged is a canonical number followed by a digit-free suffix |
| `Stats.FinalTextIdempotent` | script.js:85-104 | running the counter again on its final text ends at the same text |
| `Stats.PrefixMovesToEnd` | script.js:90-101 | any digit-free prefix before a canonical number ends up displayed after the number |
| `Stats.PrefixExample` | script.js:90-101 | `$50` ends displayed as `50$` |
| `Stats.StatObserver.constructor` | script.js:109 | every stat element starts out observed, with its text unchanged |
| `Stats.StatObserver.OnEntry` | script.js:85-105 | an intersecting entry runs its stat's counter to the final text and unobserves the stat, whether or not it was still observed; a non-intersecting entry changes nothing |
| `Stats.OnLoad` | script.js:113-118 | the counters are set up, with every stat observed, exactly when the path passes the homepage test |

## Left out

- Smooth anchor scrolling (script.js:35-46) is not modelled. It only calls the browser's `scrollIntoView` when the fragment's element exists.
- Element queries, listener registration, `classList` and `style` objects, and `contains` are not modelled. They are replaced by fields, arrays and the two "target is inside" booleans.
- Elements are assumed to be present, as the code assumes.
- CSS can set a `display` that is not inline. The toggle reads only the inline value, and the model does the same.
- `requestAnimationFrame`, `setInterval` and `IntersectionObserver` are explicit calls: a frame event, the tick loop of `Animate`, and an observer entry.
- `Stats.StatObserver.OnEntry` runs the interval to completion inside the call. Other events that would interleave with the 40 ms ticks are not modelled, and neither are the intermediate texts written to the element.
- A batch of observer entries (`entries.forEach`, script.js:85) is modelled as that many `OnEntry` calls in order. Two intersecting entries for one stat in the same batch start two intervals in the code; the model runs the counter twice in turn, and `Stats.FinalTextIdempotent` shows the final text is the same. The interleaved intermediate texts of two live intervals are not modelled.
- `Stats.Animate` works on exact reals, where its contract implies fifty ticks for a positive target (one for a target of 0), with tick k showing the floor of k fiftieths of the target. The code adds `target / 50` in floating point, so after fifty ticks the value can fall just short of the target. It then takes a fifty-first tick, and some ticks show a floor one lower (for `10`, tick 10 shows `1`). The model does not capture this floating-point behaviour.
- `Stats.StatObserver.OnEntry` requires a digit in the text of a stat it animates. For a text with no digit, `parseInt` gives NaN and the interval never stops, so that case is left out.
- `Stats.ParseDigits` does not model the precision lost above 2^53, because values are unbounded integers.
- `Stats.NatToString` does not model the exponent notation used from 10^21 upward, because values are unbounded integers.
- `Pages.Link` carries only the `href` and the `active` class. Other classes, and links without an `href`, are not modelled.
- `Navbar.Css` maps the two backgrounds to their CSS strings; no other colour is modelled.
