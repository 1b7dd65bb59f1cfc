/**
 This module models the storefront slideshow controller: a fixed catalog of
 image paths shown one at a time through two overlapping display slots, so
 that the presentation layer can crossfade between them. The controller's
 module-level variables (`currentIndex`, `activeImageIndex`, the interval
 handle) and the two slots form one immutable `State`; every operation is a
 pure function from a state to the next one.
 */
module Slideshow {
  import opened Wrappers
  import opened JsNumber
  import Timers

  /** The catalog shipped with the storefront, in display order. */
  const ProductImages: seq<string> := [
    "img/products/caleb-chibi.avif",
    "img/products/caleb-colonel.avif",
    "img/products/caleb-x02.avif",
    "img/products/rafayel-chibi.png",
    "img/products/rafayel-clothes.avif",
    "img/products/rafayel-plushie.avif",
    "img/products/rafayel-siren-clothes.avif",
    "img/products/sylus-chibi.avif",
    "img/products/sylus-dragon.png",
    "img/products/sylus-ob11.avif",
    "img/products/sylus-plushie.png",
    "img/products/white-mephisto.avif",
    "img/products/xavier-chibi.avif",
    "img/products/xavier-clothes.avif",
    "img/products/xavier-dark-lumiere.avif",
    "img/products/xavier-wedding-suit.avif",
    "img/products/zayne-bandage.avif",
    "img/products/zayne-birthday.avif",
    "img/products/zayne-chibi.avif"
  ]

  /** The image and label shown when the catalog is empty. */
  const FallbackSrc: string := "img/shop-logo-1.JPG"
  const FallbackAlt: string := "CandyDollShop"

  /** Which of the two display slots: 0 is the first `<img>`, 1 the second. */
  type SlotIndex = i: int | 0 <= i < 2

  /** A slot's accessible label: `Product k` for catalog entry k-1, or a
      fixed text (the fallback's, or whatever the page markup carried). */
  datatype Label = Product(number: int) | Text(text: string)

  /** One display slot: its image source, its `alt` label and whether it carries
      the `active` class that makes it the visible one. */
  datatype Slot = Slot(src: string, alt: Label, active: bool)

  /** The two overlapping display slots. */
  datatype Display = Display(first: Slot, second: Slot) {

    function Get(i: SlotIndex): Slot
    {
      if i == 0 then first else second
    }

    /** Replaces one slot; the other is left as it was. */
    function Set(i: SlotIndex, slot: Slot): (d: Display)
      ensures d.Get(i) == slot
      ensures d.Get(1 - i) == Get(1 - i)
    {
      if i == 0 then this.(first := slot) else this.(second := slot)
    }
  }

  /** Exactly one of the two slots is marked visible. */
  predicate ExactlyOneActive(d: Display)
  {
    d.first.active != d.second.active
  }

  /** The controller's state.
      - `currentIndex`: the logical position in the catalog, a JavaScript
        number that becomes `NaN` once an empty catalog is advanced;
      - `activeImageIndex`: which slot is meant to be visible;
      - `display`: the two slots;
      - `interval`: the stored handle of the rotation timer, if any;
      - `host`: the host's registry of live intervals;
      - `pendingRetries`: load-failure recoveries scheduled but not yet run. */
  datatype State = State(
    currentIndex: Num,
    activeImageIndex: SlotIndex,
    display: Display,
    interval: Option<nat>,
    host: Timers.Host,
    pendingRetries: nat)

  /** The position names an entry of the catalog. */
  predicate InBounds(catalog: seq<string>, x: Num)
  {
    x.Int? && 0 <= x.value < |catalog|
  }

  /** The position is a number, as it always is over a non-empty catalog;
      only an empty catalog's length turns it into `NaN`. */
  predicate HasPosition(catalog: seq<string>, s: State)
  {
    |catalog| == 0 || s.currentIndex.Int?
  }

  /** The ids a stored handle refers to: none, or the one it holds. */
  function Handles(handle: Option<nat>): set<nat>
  {
    match handle
    case None => {}
    case Some(id) => {id}
  }

  /** The state of a freshly loaded page, before initialisation runs: the
      slots hold whatever the markup put in them. */
  function PageLoaded(markup: Display): (s: State)
    ensures s.currentIndex == Int(0) && s.activeImageIndex == 0
    ensures s.interval == None && s.host.Valid() && s.host.live == {}
    ensures s.pendingRetries == 0 && s.display == markup
  {
    State(Int(0), 0, markup, None, Timers.Fresh(), 0)
  }

  /** The position `showImage` moves to when asked for `index` in a catalog
      of `n` images: JavaScript's `index % n`, with any negative result
      replaced by the last position `n - 1`. */
  function NormalizeIndex(index: int, n: int): (i: int)
    requires n > 0
    ensures 0 <= i < n
    ensures index >= 0 ==> i == index % n
    ensures index < 0 && index % n == 0 ==> i == 0
    ensures index < 0 && index % n != 0 ==> i == n - 1
  {
    RemVersusEuclidean(index, n);
    var r := Rem(index, n);
    if r < 0 then n - 1 else r
  }

  /** `showImage` with a negative index lands on the Euclidean residue only
      when that residue is 0 or `n - 1`; every other negative index goes to
      `n - 1` instead. For example, `-3` over five images goes to 4, not 2. */
  lemma NegativeIndexVersusEuclidean(index: int, n: int)
    requires n > 0 && index < 0
    ensures NormalizeIndex(index, n) == index % n <==> (index % n == 0 || index % n == n - 1)
  {
  }

  /** The example above: JavaScript gives -3, the fix-up gives 4, and the
      Euclidean residue would have been 2. */
  lemma NegativeThreeOfFive()
    ensures NormalizeIndex(-3, 5) == 4
    ensures -3 % 5 == 2
    ensures Rem(-3, 5) == -3
  {
    RemVersusEuclidean(-3, 5);
  }

  /** `showImage(index)`: with an empty catalog nothing happens. Otherwise
      the position becomes the normalised index, the hidden slot is loaded
      with that catalog entry and made visible, the visible slot is hidden
      with its image and label left in place, and the two slots swap roles.
      Exactly one slot is visible afterwards whatever the flags were before. */
  function ShowImage(catalog: seq<string>, s: State, index: int): (r: State)
    ensures |catalog| == 0 ==> r == s
    ensures |catalog| > 0 ==> InBounds(catalog, r.currentIndex)
    ensures |catalog| > 0 && index >= 0 ==> r.currentIndex == Int(index % |catalog|)
    ensures |catalog| > 0 && index < 0 ==>
      r.currentIndex == Int(if index % |catalog| == 0 then 0 else |catalog| - 1)
    ensures |catalog| > 0 ==> r.activeImageIndex == 1 - s.activeImageIndex
    ensures |catalog| > 0 ==>
      r.display.Get(r.activeImageIndex)
        == Slot(catalog[r.currentIndex.value], Product(r.currentIndex.value + 1), true)
    ensures |catalog| > 0 ==>
      r.display.Get(s.activeImageIndex)
        == s.display.Get(s.activeImageIndex).(active := false)
    ensures |catalog| > 0 ==> ExactlyOneActive(r.display)
    ensures r.interval == s.interval && r.host == s.host
    ensures r.pendingRetries == s.pendingRetries
  {
    if |catalog| == 0 then s
    else
      var i := NormalizeIndex(index, |catalog|);
      var current := s.activeImageIndex;
      var next := 1 - current;
      var loaded := s.display.Set(next, Slot(catalog[i], Product(i + 1), true));
      var faded := loaded.Set(current, loaded.Get(current).(active := false));
      s.(currentIndex := Int(i), display := faded, activeImageIndex := next)
  }

  /** The body of the rotation timer's callback, and of the load-error
      recovery's delayed callback: `currentIndex := (currentIndex + 1) % n`
      in JavaScript arithmetic, then `showImage(currentIndex)`. From a
      position `i >= -1` it moves to `(i + 1) mod n`, wrapping from the last
      entry to the first, shows that entry and hides the entry shown before.
      Over an empty catalog the division makes the position `NaN` and
      `showImage` returns at once, so the slots are left alone. */
  function Advance(catalog: seq<string>, s: State): (r: State)
    requires HasPosition(catalog, s)
    ensures |catalog| == 0 ==> r == s.(currentIndex := NaN)
    ensures |catalog| > 0 ==> InBounds(catalog, r.currentIndex)
    ensures |catalog| > 0 && s.currentIndex.value >= -1 ==>
      r.currentIndex == Int((s.currentIndex.value + 1) % |catalog|)
    ensures |catalog| > 0 && s.currentIndex == Int(|catalog| - 1) ==> r.currentIndex == Int(0)
    ensures |catalog| > 0 && 0 <= s.currentIndex.value < |catalog| - 1 ==>
      r.currentIndex == Int(s.currentIndex.value + 1)
    ensures |catalog| > 0 ==> r.activeImageIndex == 1 - s.activeImageIndex
    ensures |catalog| > 0 ==>
      r.display.Get(r.activeImageIndex)
        == Slot(catalog[r.currentIndex.value], Product(r.currentIndex.value + 1), true)
    ensures |catalog| > 0 ==>
      r.display.Get(s.activeImageIndex)
        == s.display.Get(s.activeImageIndex).(active := false)
    ensures |catalog| > 0 ==> ExactlyOneActive(r.display)
    ensures r.interval == s.interval && r.host == s.host
    ensures r.pendingRetries == s.pendingRetries
  {
    var n := |catalog|;
    var next := RemNum(Incr(s.currentIndex), n);
    if n == 0 then s.(currentIndex := next)
    else
      SuccessorRem(s.currentIndex.value, n);
      ShowImage(catalog, s.(currentIndex := next), next.value)
  }

  /** `startSlideshow()`: clears the interval the stored handle refers to, if
      any, then registers a fresh one and stores its handle. Every interval
      live before, except the one cleared, stays live; so if the stored
      handle accounted for every live interval, exactly one is live after. */
  function StartSlideshow(s: State): (r: State)
    requires s.host.Valid()
    ensures r.interval.Some?
    ensures r.interval.value !in s.host.live
    ensures r.host.live == (s.host.live - Handles(s.interval)) + {r.interval.value}
    ensures r.host.Valid()
    ensures s.host.live <= Handles(s.interval) ==> r.host.live == Handles(r.interval)
    ensures r.currentIndex == s.currentIndex && r.activeImageIndex == s.activeImageIndex
    ensures r.display == s.display && r.pendingRetries == s.pendingRetries
  {
    var cleared :=
      if s.interval.Some? then Timers.ClearInterval(s.host, s.interval.value) else s.host;
    var (host, id) := Timers.SetInterval(cleared);
    s.(host := host, interval := Some(id))
  }

  /** `stopSlideshow()`: clears the interval the stored handle refers to and
      forgets the handle; with no handle stored it does nothing. */
  function StopSlideshow(s: State): (r: State)
    ensures r.interval.None?
    ensures r.host.live == s.host.live - Handles(s.interval)
    ensures s.host.Valid() ==> r.host.Valid()
    ensures s.interval.None? ==> r == s
    ensures s.host.live <= Handles(s.interval) ==> r.host.live == {}
    ensures r.currentIndex == s.currentIndex && r.activeImageIndex == s.activeImageIndex
    ensures r.display == s.display && r.pendingRetries == s.pendingRetries
  {
    if s.interval.Some? then
      s.(host := Timers.ClearInterval(s.host, s.interval.value), interval := None)
    else
      s
  }

  /** `initSlideshow()`, with the random start position passed in as `start`.
      An empty catalog puts the fallback image into the first slot, makes it
      visible and stops: no timer is started and nothing else changes.
      Otherwise the first slot shows catalog entry `start` and is visible,
      the second is hidden, the logical position is reset to 0 whatever
      `start` was, and the rotation timer is started. */
  function Init(catalog: seq<string>, s: State, start: nat): (r: State)
    requires |catalog| > 0 ==> start < |catalog|
    requires s.host.Valid()
    ensures |catalog| == 0 ==> r.display.Get(0) == Slot(FallbackSrc, Text(FallbackAlt), true)
    ensures |catalog| == 0 ==> r.display.Get(1) == s.display.Get(1)
    ensures |catalog| == 0 ==> r.interval == s.interval && r.host == s.host
    ensures |catalog| == 0 ==>
      r.currentIndex == s.currentIndex && r.activeImageIndex == s.activeImageIndex
    ensures |catalog| > 0 ==>
      r.display.Get(0) == Slot(catalog[start], Product(start + 1), true)
    ensures |catalog| > 0 ==> r.display.Get(1) == s.display.Get(1).(active := false)
    ensures |catalog| > 0 ==> r.currentIndex == Int(0) && r.activeImageIndex == 0
    ensures |catalog| > 0 ==> r.interval.Some? && r.interval.value !in s.host.live
    ensures |catalog| > 0 ==>
      r.host.live == (s.host.live - Handles(s.interval)) + Handles(r.interval)
    ensures r.host.Valid() && r.pendingRetries == s.pendingRetries
  {
    if |catalog| == 0 then
      s.(display := s.display.Set(0, Slot(FallbackSrc, Text(FallbackAlt), true)))
    else
      var shown := s.display.Set(0, Slot(catalog[start], Product(start + 1), true));
      var hidden := shown.Set(1, shown.Get(1).(active := false));
      StartSlideshow(s.(currentIndex := Int(0), activeImageIndex := 0, display := hidden))
  }
}
