# Hero rotator, modelled in Dafny

A model of `js/hero-rotator.js`, the script behind a page's rotating hero image.
It builds the slide list from the hero element's attributes, creates one dot per
slide, shows one slide at a time, advances on a timer unless hover or focus has
paused it, and offers previous/next arrows and dot clicks that restart the timer.

The model has four modules:

- `Wrappers` (wrappers.dfy): `Option`.
- `Slides` (slides.dfy): resolving the slide list. There is a pure specification, `ResolveSlides`, and a method, `BuildImageList`, that builds the list with the source's `for`/`push` loop and is proved equal to it.
- `Carousel` (carousel.dfy): value-level specifications. These cover JavaScript's truncating `%`, the `(index + n) % n` normalisation, next/prev and repeated advancing, the rendered view (background string and one "active" flag per dot), and the pause events.
- `Rotator` (rotator.dfy): class `HeroRotator`. The closure variables `currentIndex`, `isPaused` and `timerId` are fields. So are the hero's background, the dots' flags (an `array<bool>` that `Render` rewrites in a loop) and the host's table of live intervals. Every listener and the interval callback is a method. `Init` stops without creating anything when the resolved list is empty.

Inputs that come from the browser are parameters:
- The result of `JSON.parse` on `data-slides` is `SlidesAttr`: `Missing`, `Malformed` or `Parsed(list)`.
- The result of `parseInt` on a non-empty `data-slide-count` is `ParsedCount`: `Num(n)` or `NotANumber`.
- The other attributes are `Option<string>`.
- `setInterval` ids come from a counter starting at 1, because browsers hand out positive ids, so `if (timerId)` is "some id is stored".

Two behaviours of the code that one might not expect:
- One might expect `goToSlide(i)` to land on `((i % n) + n) % n` for every integer `i`. The code computes `(i + n) % n` with JavaScript's truncating `%`. That value is out of range for `i < -n` (`Carousel.WrapIndexBelowRange`: `-n-1` gives `-1`).
- No caller passes such an index: they pass the current index plus or minus one, or a dot's index. So `GoToSlide` requires `index >= -n`. `Carousel.WrapIndexInRange` proves that in this range the code's value is the mathematical remainder.
- The slide count is read with `parseInt`, and the code accepts any result. Zero, a negative number or NaN gives no slides, and the component stays inert (`Slides.ResolveSlidesEmpty`).

## Model

| member | source | states |
|---|---|---|
| Slides.OrDefault | js/hero-rotator.js:25-27 | the JavaScript "or" default: the attribute when present and non-empty, otherwise the fallback; never empty when the fallback is not |
| Slides.PrefixOf | js/hero-rotator.js:25 | the slide prefix is the attribute or "hero", so never empty |
| Slides.ExtOf | js/hero-rotator.js:27 | the extension is the attribute or "avif", so never empty |
| Slides.CountOf | js/hero-rotator.js:26-29 | the loop bound: 1 when the attribute is absent or empty (`parseInt("1")`), the parsed integer otherwise, and NaN admits no slide number (`i <= NaN` is false) |
| Slides.ResolveSlides | js/hero-rotator.js:11-32 | the resolved list: a parsed non-empty list verbatim, otherwise the synthesised list of max(count, 0) names |
| Slides.BuildImageList | js/hero-rotator.js:11-32 | the list built by the parse-then-push loop is exactly `ResolveSlides` of the attributes |
| Slides.ResolveSlidesSpec | js/hero-rotator.js:13-32 | a parsed non-empty list is used verbatim; otherwise the list has max(count, 0) entries, entry k being `prefix + (k+1) + "." + ext` |
| Slides.ResolveSlidesEmpty | js/hero-rotator.js:24-34 | the list is empty (component inert) iff no non-empty list parsed and the count is not positive (0, negative or NaN) |
| Slides.DefaultSlides | js/hero-rotator.js:25-27 | with no attributes the defaults "hero", 1 and "avif" give exactly `["hero1.avif"]` |
| Slides.MalformedFallsBack | js/hero-rotator.js:15-31 | malformed `data-slides` with prefix "banner", count 2, ext "png" gives `["banner1.png", "banner2.png"]` |
| Slides.SynthesizedShape | js/hero-rotator.js:29-31 | the loop's list for 1..count has max(count, 0) entries and entry k names slide k+1 |
| Slides.DecimalString | js/hero-rotator.js:30 | `${i}` spells a number with digits only, at least one, and no leading zero unless the number is 0 |
| Slides.DecimalRoundTrip | js/hero-rotator.js:30 | reading the decimal spelling back gives the number |
| Slides.SlideNameInjective | js/hero-rotator.js:30 | different slide numbers give different names for the same prefix and extension |
| Slides.SynthesizedDistinct | js/hero-rotator.js:29-31 | the synthesised names are pairwise distinct |
| Carousel.JsRemainder | js/hero-rotator.js:64 | JavaScript `%`: magnitude below the divisor, sign of the dividend, and dividend = truncated quotient × divisor + remainder |
| Carousel.WrapIndex | js/hero-rotator.js:64 | `(index + n) % n` with JavaScript's `%`: strictly between -n and n, and non-negative whenever index >= -n |
| Carousel.NextIndex | js/hero-rotator.js:72 | the index nextSlide passes, `currentIndex + 1` normalised; in range for an in-range index |
| Carousel.PrevIndex | js/hero-rotator.js:76 | the index prevSlide passes, `currentIndex - 1` normalised; in range for an in-range index |
| Carousel.WrapIndexInRange | js/hero-rotator.js:63-64 | for index >= -n, `(index + n) % n` lies in [0, n) and equals the Euclidean `index mod n` |
| Carousel.WrapIndexBelowRange | js/hero-rotator.js:64 | below -n the normalisation leaves the range: index -n-1 gives -1 for n >= 2 |
| Carousel.NextIndexSpec | js/hero-rotator.js:71-73 | next from i is i+1, or 0 from the last slide |
| Carousel.PrevIndexSpec | js/hero-rotator.js:75-77 | prev from i is i-1, or the last slide from 0 |
| Carousel.PrevAfterNext | js/hero-rotator.js:71-77 | prev after next, and next after prev, restore the index |
| Carousel.AdvanceIsAddition | js/hero-rotator.js:71-73 | k consecutive next steps from i land on (i + k) mod n |
| Carousel.FullCycle | js/hero-rotator.js:71-73 | n consecutive next steps return to the starting slide |
| Carousel.BackgroundFor | js/hero-rotator.js:55 | the background value `url(<image>)`, from which the image reference can be read back unchanged |
| Carousel.ActiveFlags | js/hero-rotator.js:57-60 | one flag per dot, set exactly for the dot at the shown index |
| Carousel.CountActiveFlags | js/hero-rotator.js:57-60 | clearing every dot then marking dot k leaves one active dot if k is a dot, none otherwise |
| Carousel.ExactlyOneActive | js/hero-rotator.js:57-60 | for an index in range exactly one dot is active, the dot at that index |
| Carousel.PausesOn | js/hero-rotator.js:105-108 | the value each listener assigns to `isPaused`: true exactly for mouseenter and focusin |
| Carousel.LastEventWins | js/hero-rotator.js:105-108 | after any non-empty series of hover/focus events the pause flag is set by the last one |
| Rotator.HeroRotator.constructor | js/hero-rotator.js:36-50 | initial state: index 0, unpaused, one dot per slide, rendered, exactly one running timer |
| Rotator.HeroRotator.Render | js/hero-rotator.js:54-61 | background is `url(images[currentIndex])`, the dot flags are exactly "is the current index"; a second call changes nothing |
| Rotator.HeroRotator.StopTimer | js/hero-rotator.js:86-91 | from any state leaves no live interval and no timer id; index and pause flag untouched |
| Rotator.HeroRotator.StartTimer | js/hero-rotator.js:79-84 | from any state leaves exactly one live interval, a fresh one, stored in `timerId`; index and pause flag untouched |
| Rotator.HeroRotator.RestartTimer | js/hero-rotator.js:93-96 | same end state as StartTimer: exactly one fresh live interval |
| Rotator.HeroRotator.GoToSlide | js/hero-rotator.js:63-69 | index becomes `(index + n) % n` (in range, = index mod n), view re-rendered; a user action leaves exactly one fresh running timer, otherwise the timer state is unchanged |
| Rotator.HeroRotator.NextSlide | js/hero-rotator.js:71-73 | index becomes NextIndex of the old index; timer as in GoToSlide; the arrow listener is the user-action call (line 101) |
| Rotator.HeroRotator.PrevSlide | js/hero-rotator.js:75-77 | index becomes PrevIndex of the old index; timer as in GoToSlide; the arrow listener is the user-action call (line 102) |
| Rotator.HeroRotator.ClickDot | js/hero-rotator.js:41-46 | clicking dot i shows slide i, marks dot i and restarts the timer: exactly one running interval, a fresh one |
| Rotator.HeroRotator.Tick | js/hero-rotator.js:81-83 | while paused nothing changes; otherwise the index advances by one; the timer state is never changed |
| Rotator.HeroRotator.HandlePauseEvent | js/hero-rotator.js:105-108 | enter/focus-in set the pause flag, leave/focus-out clear it; nothing else changes |
| Rotator.Init | js/hero-rotator.js:11-34 | no component exactly when the resolved list is empty; otherwise a fresh, rendered component over that list at index 0, unpaused, with one running timer |

## Left out

- Looking up the hero, the dots container and the arrows, and the early return when the hero is missing (lines 1-7): browser plumbing. `Init` starts once the hero exists.
- A missing dots container (line 47): a host failure, not logic. The model always has one dot per slide.
- Spans already in the dots container: `dots` is every `span` in the container (line 50), so spans present in the markup before the script runs would shift which element `render` marks. The model assumes the container starts empty, so the dots are exactly the ones the script created (`dots.Length == |images|` in `StateValid`).
- `createElement`, `appendChild`, `classList` and `style` (lines 42-50, 55-59): only their results are modelled. These are the background string and one boolean per dot.
- Listener registration (lines 44, 101-108): each listener is a method call. The arrows' listeners are `NextSlide(true)` and `PrevSlide(true)`. A page without an arrow simply never makes that call.
- The 5000 ms period and real timing of `setInterval`/`clearInterval` (lines 81-88): the host's interval table is the `liveIntervals` field, and a firing is a `Tick(id)` call for a live interval.
- `JSON.parse`, `parseInt` and `console.error` (lines 17-19, 26): their results are inputs.
- A JSON value that is not an array of strings: a host failure mode.
- Rotator.HeroRotator.GoToSlide: requires `index >= -n`, which every caller meets. Below that the source would store a negative index, as `Carousel.WrapIndexBelowRange` shows.
- Slides.DecimalString: JavaScript writes numbers of 10^21 and above in exponent notation. The model always writes plain digits, because no slide count gets anywhere near that.
