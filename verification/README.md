# School website interactivity: verified state-machine model

This project models the parts of the site's client-side script that behave
as small state machines, with the DOM reduced to flags and numbers:

- **Theme store** (`initThemeToggle`, js/main.js): the initial `data-theme`
  attribute from the saved `theme` entry, the system colour-scheme
  preference, or light; the toggle click that flips it and persists it.
- **Hero slider** (`initHeroSlider`, js/main.js): the setup guard, the
  initial index, dot construction, `goTo`, `next`, the dot click handler and
  the single repeating interval kept by `restart`.
- **Counter latch** (`initCounters`, js/main.js): the `data-done` attribute
  that lets the IntersectionObserver callback call `animate` at most once
  per counter.
- **Reveal on scroll** (`revealOnScroll`, js/scroll-effects.js): the
  monotone `visible` class update.

Browser services are inputs to pure functions: the saved storage value is an
`Option<string>`, `matchMedia` an `Option<bool>` (absent API is `None`),
interval handles are parameters, intersection entries and element geometry
are sequences handed to the transition functions.

The one-active-slide invariant a slideshow is expected to keep, "exactly one
active slide and dot", is only partly what the code does. Setup builds exactly one active dot, but it never
writes the slides' classes, so exactly one slide is active after setup only
when the served markup had exactly one (`Slider.SetupSlidesExactIff`). With
no active slide in the markup, no slide carries `active` until the first transition
(`Slider.SetupWithoutActiveSlide`). With at most one, the first transition
establishes the invariant and every later one keeps it
(`Slider.RunKeepsInvariant`). The model follows the code here.

Also where the code is more precise than a plain description: an empty saved
string counts as no saved value (JavaScript truthiness), and a saved value
other than "dark" gives the light theme while staying in storage.

## Model

| member | source | states |
|---|---|---|
| Theme.InitialName | js/main.js:32-34 | a truthy saved value is chosen as is; otherwise the choice is "dark" exactly when the system prefers dark, else "light" |
| Theme.Init | js/main.js:32-40 | the attribute is dark iff the saved value is "dark", or nothing truthy is saved and the system prefers dark; storage is not written at load |
| Theme.Toggle | js/main.js:44-53 | a click flips the attribute and stores the name of the new state |
| Theme.ToggleTwice | js/main.js:44-53 | two clicks restore the original attribute, with storage matching it |
| Theme.ClicksParity | js/main.js:42-54 | after n clicks the attribute is flipped iff n is odd, and after at least one click storage matches the attribute |
| Theme.ReloadAfterToggle | js/main.js:30-55 | the value a click stores makes the next load apply the same attribute, whatever the system preference |
| Theme.ReloadPersisted | js/main.js:30-55 | a state whose storage matches its attribute is reproduced exactly by a reload |
| Theme.NoSavedValue | js/main.js:32-40 | with no entry or an empty one, dark iff the system prefers dark; without the media-query API the theme is light |
| Theme.SavedNonDarkIsLight | js/main.js:34-40 | any non-empty saved value other than "dark" gives the light attribute and stays in storage |
| Slider.FirstActive | js/main.js:65 | findIndex: the first active index with none active before it, or -1 exactly when no slide is active |
| Slider.InitialIndex | js/main.js:65-66 | the starting index is in range; it is the first active slide if there is one, else 0 |
| Slider.BuildDots | js/main.js:68-80 | one dot per slide, and the set of active dots is exactly the current index |
| Slider.Restart | js/main.js:94-98 | the new handle is kept and scheduled; a truthy old handle is cleared; every other scheduled interval stays scheduled and no other is added |
| Slider.Setup | js/main.js:57-100 | the slider starts iff the slider element, at least 2 slides and the dots container exist; it then has one active dot at the initial index, the served slide flags, and one interval |
| Slider.GoTo | js/main.js:82-88 | current becomes idx; slide and dot idx are active; the old markers are cleared unless idx is the old index; every other flag and the timer are unchanged |
| Slider.Next | js/main.js:90-92 | the index advances by one and wraps to 0 after the last slide |
| Slider.Click | js/main.js:74-77 | a dot click moves to that dot's index and replaces the timer handle |
| Slider.GoToKeepsDotsExact | js/main.js:82-88 | goTo keeps exactly one active dot, the one at current |
| Slider.GoToMakesSlidesExact | js/main.js:82-88 | goTo leaves exactly one active slide whenever only the current slide could be active before |
| Slider.RestartKeepsSingleTimer | js/main.js:94-98 | with a positive fresh handle, restart keeps exactly one interval scheduled, the one held in timer |
| Slider.SetupSlidesExactIff | js/main.js:61-72 | exactly one active slide after setup iff the markup served exactly one |
| Slider.SetupWithoutActiveSlide | js/main.js:65-72 | with no active slide served, current is 0, no slide is active, and dot 0 is |
| Slider.SetupAtMostOne | js/main.js:65-72 | with at most one active slide served, no slide other than the current one is active after setup |
| Slider.Advance | js/main.js:90-92 | repeated firing keeps the slider well-formed and leaves the timer alone |
| Slider.AdvanceIndex | js/main.js:90-92 | after k firings the index is (current + k) mod N |
| Slider.AdvanceOneLap | js/main.js:90-92 | within one lap, k firings move the index k places, wrapping past the last slide at most once |
| Slider.FullCycleIndex | js/main.js:90-92 | N firings for N slides bring the index back to its start |
| Slider.AdvanceKeepsExact | js/main.js:82-92 | firing keeps exactly one active slide and dot |
| Slider.FullCycle | js/main.js:82-92 | N firings for N slides return the slider to the state it started from |
| Slider.Step | js/main.js:74-97 | a tick or dot click keeps the slider well-formed and its size |
| Slider.Run | js/main.js:74-100 | any sequence of ticks and clicks keeps the slider well-formed and its size |
| Slider.RunKeepsInvariant | js/main.js:74-100 | every run keeps one active dot at current and one scheduled interval; after at least one event, exactly one active slide if no stray slide was active at the start |
| Counters.Deliver | js/main.js:134-141 | processing a batch keeps one attribute per counter and animates only observed counters |
| Counters.DeliverLatch | js/main.js:136-139 | after a batch a counter is latched iff it was latched or an entry reported it intersecting; an unreported counter keeps its attribute |
| Counters.DeliverAnimatesOnce | js/main.js:136-140 | within a batch animate runs once on an unlatched counter reported intersecting, otherwise never |
| Counters.DeliverAll | js/main.js:134-144 | any number of batches keeps one attribute per counter |
| Counters.AnimateAtMostOnce | js/main.js:134-144 | over any number of batches animate runs at most once per counter (exactly once iff unlatched and ever reported intersecting), and the latch stays set |
| Reveal.RevealOnScroll | js/scroll-effects.js:1-10 | an element is visible afterwards iff it was before or its top is less than the viewport height minus 100 |
| Reveal.RevealGrows | js/scroll-effects.js:3-8 | the visible set grows by exactly the passing elements and never shrinks |
| Reveal.FailingUnchanged | js/scroll-effects.js:6-8 | an element that fails the threshold and was not visible stays not visible |
| Reveal.RevealIdempotent | js/scroll-effects.js:1-10 | with the same geometry, two calls give the result of one |
| Reveal.Scroll | js/scroll-effects.js:12-13 | repeated events keep one flag per element and never clear a flag; `Reveal.ScrollMonotone` states exactly which flags are set |
| Reveal.ScrollMonotone | js/scroll-effects.js:1-13 | after any events an element is visible iff it was at the start or passed the threshold in some event; the visible set only grows |

## Left out

- Preloader fade (js/main.js:1-9): a timer and style writes, no logic.
- Navbar `is-scrolled` class and scroll-progress width (js/main.js:11-25): floating-point CSS values. Its logic is left out with it: the `scrollY > 10` threshold for the navbar class, the `scrollTop` fallback from the document element to the body, and the `scrollHeight > 0` guard that makes the width 0 on a page that does not scroll.
- Counter interpolation and the reduced-motion branch (js/main.js:103-132): real-valued frame timing, `requestAnimationFrame` and text rendering. The `counters.length` early return is left out too. Only the latch is modelled, with `animate` recorded as a call.
- Interval timing (js/main.js:94-100): the 6000 ms period and when ticks arrive are not modelled. A tick is an event, and the timer is only the handle kept plus the set of scheduled intervals.
- Contact form, hamburger menu and in-page anchor scrolling (js/main.js:147-157, 166-184): single DOM side effects with nothing to prove.
- Multiple `[data-theme-toggle]` controls: every control runs the same handler, so the model has one toggle operation.
- Slider.RestartKeepsSingleTimer: assumes interval handles are positive, as the HTML standard guarantees for `setInterval`. With a handle of 0, `if (timer)` would not clear it, and `Restart` models that case as written.
- Theme.Toggle: assumes storage reads and writes never throw. In a browser that blocks or fills storage this does not hold. A `setItem` that throws (js/main.js:48, 51) comes after the attribute change (js/main.js:47, 50), so the attribute flips and storage keeps its old value. That breaks the "storage matches the attribute" clause of Theme.ClicksParity and Theme.ReloadAfterToggle. A `getItem` that throws (js/main.js:32) aborts the load handler (js/main.js:159-164), so slider, counter and contact-form setup never run.
