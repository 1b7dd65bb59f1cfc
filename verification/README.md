# Storefront slideshow controller, modelled in Dafny

The storefront page rotates through a fixed catalog of product images. It
uses two overlapping `<img>` slots so that styling can crossfade between
them. `script.js` drives this with three module-level variables and two
callbacks:

- `currentIndex` is the logical position in the catalog.
- `activeImageIndex` says which slot is visible.
- `slideshowInterval` holds the handle of the rotation timer.
- A 4-second interval advances the position on every tick.
- A per-slot error handler schedules the same advance one second after an
  image fails to load.

The model turns these variables and the two slots into one immutable
`State` and turns every operation into a pure function:

- `wrappers.dfy`, module `Wrappers`: `Option`.
- `js_number.dfy`, module `JsNumber`: the JavaScript numbers the position
  takes, integers and `NaN`, and JavaScript's truncated `%` on them. It
  defines the operator, proves it unique, and relates it to Dafny's
  Euclidean `%`.
- `timers.dfy`, module `Timers`: the host's registry of live intervals,
  behind `setInterval` and `clearInterval`.
- `slideshow.dfy`, module `Slideshow`: the state, the deployed catalog,
  and `initSlideshow`, `showImage`, the tick/recovery advance,
  `startSlideshow` and `stopSlideshow`.
- `playback.dfy`, module `Playback`: the event loop. It delivers discrete
  events (tick, load error, recovery due, start, stop). It also holds the
  invariant every reachable playing state keeps, and lemmas about
  sequences of events.

Three consequences of the code's index fix-up and of its empty-catalog
branches:

- A negative multiple of the catalog length resolves to position 0, not to
  `n - 1`. JavaScript computes `-0` there, and `-0 < 0` is false.
- Any other negative index resolves to `n - 1`, not to its Euclidean
  residue.
- With an empty catalog only the first slot is touched. The second slot
  keeps whatever the page markup gave it. If the fallback image then fails
  to load, the recovery divides by the empty length: `currentIndex` becomes
  `NaN` and no slot changes.

## Model

| member | source | states |
|---|---|---|
| JsNumber.Rem | script.js:77 | JavaScript's `%`: the result is smaller than the divisor in magnitude, takes the dividend's sign, and completes the truncated division |
| JsNumber.RemIsUnique | script.js:77 | any decomposition with those properties has exactly `Rem`'s remainder, so `Rem` is the truncated remainder |
| JsNumber.RemVersusEuclidean | script.js:77 | JavaScript's `%` equals Dafny's for non-negative dividends and for multiples of `n`; for other negative dividends it is the Euclidean residue minus `n` |
| JsNumber.RemNum | script.js:105 | JavaScript's `x % n`: `NaN` exactly when `n` is 0 or `x` is `NaN`; otherwise the truncated remainder, smaller than `n` in magnitude |
| Slideshow.PageLoaded | script.js:26-33 | before initialisation the position and the active slot are 0, no handle is stored, no interval is live, and the slots hold the markup |
| Slideshow.NormalizeIndex | script.js:76-80 | the normalised position is in `[0, n)`; for `index >= 0` it is `index mod n`; for a negative multiple of `n` it is 0; for any other negative index it is `n - 1` |
| Slideshow.NegativeIndexVersusEuclidean | script.js:77-80 | for a negative index, the fix-up agrees with the Euclidean residue exactly when that residue is 0 or `n - 1` |
| Slideshow.NegativeThreeOfFive | script.js:77-80 | `-3` over five images: JavaScript's `%` gives -3, the controller picks 4, and the Euclidean residue would be 2 |
| Slideshow.ShowImage | script.js:72-96 | empty catalog: nothing changes. Otherwise: the position is in bounds (and is `index mod n` for `index >= 0`); the previously hidden slot gets entry `currentIndex` with label `currentIndex+1` and is active; the previously visible slot keeps its image and label but is inactive; the active-slot bit flips; exactly one slot is active whatever the flags were; timers are untouched |
| Slideshow.Advance | script.js:104-107 | over an empty catalog the position becomes `NaN` and nothing else changes. Otherwise a tick from position `i >= -1` moves to `(i+1) mod n`: the last position wraps to 0 and every other moves up by one; the newly visible slot shows that entry; the previously visible slot keeps its image but is hidden; exactly one slot is active; timers and pending recoveries are untouched |
| Slideshow.StartSlideshow | script.js:98-108 | the previously stored interval is cleared and a fresh one is registered and stored; all other live intervals stay live; if the handle accounted for every live interval, exactly one is live afterwards |
| Slideshow.StopSlideshow | script.js:110-116 | no handle is stored afterwards; the stored interval is no longer live; with no handle stored nothing changes; if the handle accounted for every live interval, none is live afterwards |
| Slideshow.Init | script.js:43-70 | empty catalog: slot 0 shows `img/shop-logo-1.JPG` labelled `CandyDollShop` and is active, and no timer is started. Otherwise: slot 0 shows entry `start` labelled `start+1` and is active; slot 1 is inactive with its image kept; position and active slot are 0; a fresh timer is running |
| Timers.SetInterval | script.js:104-107 | registers a new live interval whose positive id was not live before |
| Timers.ClearInterval | script.js:101 | the cleared id is no longer live; clearing an id that is not live changes nothing |
| Playback.Enabled | script.js:104-107 | which events the host can deliver: a tick only from a live interval, a recovery only once scheduled; start and stop calls and load errors at any time |
| Playback.Step | script.js:99-128 | every deliverable event keeps the playing invariant: position in bounds, exactly one slot visible and it is the one `activeImageIndex` names, the visible image is in the catalog, at most one live timer. A load error only schedules a recovery and changes nothing else. Over an empty catalog no event changes the slots, and a tick or recovery makes the position `NaN` |
| Playback.Run | script.js:99-128 | any sequence of deliverable events from a state satisfying the invariant ends in a state satisfying it; a numeric position stays numeric over a non-empty catalog |
| Playback.AtMostOneTimer | script.js:99-116 | under the invariant at most one interval is live, and it is the stored one |
| Playback.InitEstablishesInv | script.js:57-69 | initialisation over a non-empty catalog establishes the invariant with exactly one live timer |
| Playback.DeployedCatalogPlays | script.js:2-22 | the shipped catalog has 19 entries, so on a fresh page every start position leads to a playing slideshow |
| Playback.EmptyCatalogIsStatic | script.js:45-50 | with an empty catalog a fresh page starts no timer and shows the fallback; unless playback is started by hand no tick is ever delivered; no later event, recoveries included, changes what is shown |
| Playback.EmptyCatalogRunIsStatic | script.js:74 | over an empty catalog no deliverable event changes the slots; the position stays as it was until a tick or recovery runs, and is `NaN` from then on |
| Playback.FallbackFailureMakesNaN | script.js:119-126 | with an empty catalog, a load failure of the fallback followed by its recovery leaves the page as initialisation left it except that the position is `NaN` |
| Playback.TicksAdvance | script.js:104-107 | from any in-bounds position, `k` ticks of a live timer move position `i` to `(i+k) mod n` and flip the active slot `k` times; after at least one tick the visible slot shows the entry at the new position |
| Playback.ThreeTicksWrapAround | script.js:104-107 | with three entries, three ticks from position 0 visit 1, 2, 0 |
| Playback.FirstTickIgnoresStart | script.js:57-66 | whatever random entry initialisation showed, the first tick shows entry `1 mod n` in slot 1; with start 1 the same image is shown again |
| Playback.LoadErrorRecoveryIsAdvance | script.js:118-128 | a load failure on either slot, followed by its recovery coming due, has exactly the effect of one tick |
| Playback.LoadErrorAtTwoOfFour | script.js:123-126 | with four entries at position 2, a failure and its recovery make entry 3 visible |
| Playback.RecoveryRacesTick | script.js:123-126 | a tick between a failure and its recovery makes the position move on by two, because the recovery does not reset the timer |
| Playback.StartStopTimers | script.js:99-116 | starting twice leaves exactly one live timer; stopping after a start leaves none; stopping twice equals stopping once |
| Playback.StoppedStaysStopped | script.js:110-116 | once no timer is live and playback is not restarted, no tick is ever delivered; unless an earlier recovery comes due, the slots and the position stay unchanged |

## Left out

- `preloadImages` (script.js:36-41) creates off-screen `Image` objects and changes no state the controller reads.
- `Math.random` is not modelled. The random start position is the parameter `start` of `Init`, with `start < n`.
- Real time is not modelled. The 4000 ms period and the 1000 ms recovery delay become discrete `Tick` and `RetryDue` events that the host may deliver at any point.
- Playback.Enabled: a tick or recovery over a non-empty catalog needs a numeric position. A `NaN` position there would make `showImage` load `productImages[NaN]`, which is not modelled; no run reaches it, because `Run` keeps the position numeric and initialisation sets it to 0.
- JavaScript's `-0` is not modelled. It appears for negative multiples of `n` and is modelled as 0. It indexes the same catalog entry and renders the same label.
- `alt` strings are not built. A slot's label is `Product(k + 1)` for `Product ${k + 1}`, or a fixed text.
- Console logging, CSS crossfade styling and the `DOMContentLoaded` dispatch (script.js:131-135) are left out.
- Slideshow.Advance: gives the exact next position only from positions `>= -1`. Other positions only land in bounds. Every reachable position is in `[0, n)`. Over a non-empty catalog it also needs a numeric position, for the reason given for Playback.Enabled.
- The hover pause/resume handlers (script.js:137-140) are commented out in the source and are not modelled. `Start` and `Stop` events cover calls to those functions.
- `scripts/mercari_image_extractor.py` and `scripts/browser_extractor.js` are not part of this model. They are one-shot scraping tools built on network, DOM, clipboard and file I/O.
