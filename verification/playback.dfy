/**
 This module models the controller as the host's event loop drives it: one
 discrete event at a time, never two at once. Time is not modelled; a live
 interval may fire a tick, and a scheduled load-failure recovery may come
 due, whenever the host chooses. The invariant `Inv` holds of every state a
 non-empty catalog's slideshow reaches; over an empty catalog the slots never
 change. The lemmas below describe what sequences of ticks, failures and
 start/stop calls do.
 */
module Playback {
  import opened Wrappers
  import opened JsNumber
  import opened Slideshow

  /** What the host can deliver to the controller. */
  datatype Event =
    | Tick(timer: nat)           // a live interval fires
    | LoadError(slot: SlotIndex) // a slot reports that its image failed to load
    | RetryDue                   // a scheduled recovery's delay has elapsed
    | Start                      // `startSlideshow()` is called
    | Stop                       // `stopSlideshow()` is called

  /** Whether the host can deliver `e` in state `s`: only live intervals
      tick, and only scheduled recoveries come due. A tick or recovery needs a
      numeric position unless the catalog is empty; a `NaN` position over a
      non-empty catalog is never reached (see `Run`) and is not modelled. */
  predicate Enabled(catalog: seq<string>, s: State, e: Event)
  {
    match e
    case Tick(id) => id in s.host.live && HasPosition(catalog, s)
    case LoadError(_) => true
    case RetryDue => s.pendingRetries > 0 && HasPosition(catalog, s)
    case Start => s.host.Valid()
    case Stop => true
  }

  /** The state of a playing (or stopped) slideshow over a non-empty
      catalog: the position is in bounds, exactly one slot is visible and it
      is the slot `activeImageIndex` names, the visible slot shows a catalog
      image, and the stored handle accounts for every live interval, so at
      most one rotation timer runs. */
  predicate Inv(catalog: seq<string>, s: State)
  {
    && |catalog| > 0
    && InBounds(catalog, s.currentIndex)
    && ExactlyOneActive(s.display)
    && s.display.Get(s.activeImageIndex).active
    && s.display.Get(s.activeImageIndex).src in catalog
    && s.host.Valid()
    && s.host.live == Handles(s.interval)
  }

  /** The controller's reaction to one event. A tick runs the timer
      callback; a load failure schedules a recovery (whichever slot failed);
      a recovery coming due runs the same advance as a tick. Every event
      preserves `Inv` and keeps the position numeric over a non-empty
      catalog; over an empty one no event touches the slots, and a tick or
      recovery turns the position into `NaN`. */
  function Step(catalog: seq<string>, s: State, e: Event): (r: State)
    requires Enabled(catalog, s, e)
    ensures Inv(catalog, s) ==> Inv(catalog, r)
    ensures HasPosition(catalog, s) ==> HasPosition(catalog, r)
    ensures |catalog| == 0 ==> r.display == s.display
    ensures |catalog| == 0 && (e.Tick? || e.RetryDue?) ==> r.currentIndex == NaN
    ensures e.LoadError? ==> r == s.(pendingRetries := s.pendingRetries + 1)
    ensures e.RetryDue? ==> r.pendingRetries == s.pendingRetries - 1
    ensures e.LoadError? || e.Start? || e.Stop? ==>
      r.display == s.display && r.currentIndex == s.currentIndex
  {
    match e
    case Tick(_) => Advance(catalog, s)
    case LoadError(_) => s.(pendingRetries := s.pendingRetries + 1)
    case RetryDue => Advance(catalog, s.(pendingRetries := s.pendingRetries - 1))
    case Start => StartSlideshow(s)
    case Stop => StopSlideshow(s)
  }

  /** The state after delivering `events` in order, or `None` if one of
      them could not have been delivered at its point. */
  function Run(catalog: seq<string>, s: State, events: seq<Event>): (r: Option<State>)
    ensures Inv(catalog, s) && r.Some? ==> Inv(catalog, r.value)
    ensures HasPosition(catalog, s) && r.Some? ==> HasPosition(catalog, r.value)
    decreases |events|
  {
    if |events| == 0 then Some(s)
    else if !Enabled(catalog, s, events[0]) then None
    else Run(catalog, Step(catalog, s, events[0]), events[1..])
  }

  /** Delivering a non-empty sequence is delivering its first event, then
      the rest. */
  lemma RunStep(catalog: seq<string>, s: State, events: seq<Event>)
    requires |events| > 0 && Enabled(catalog, s, events[0])
    ensures Run(catalog, s, events) == Run(catalog, Step(catalog, s, events[0]), events[1..])
  {
  }

  /** `k` ticks of the interval `id`. */
  function Ticks(id: nat, k: nat): (t: seq<Event>)
    ensures |t| == k
    ensures forall i | 0 <= i < k :: t[i] == Tick(id)
  {
    seq(k, _ => Tick(id))
  }

  /** The invariant allows at most one live rotation timer. */
  lemma AtMostOneTimer(catalog: seq<string>, s: State)
    requires Inv(catalog, s)
    ensures |s.host.live| <= 1
    ensures s.interval.Some? ==> s.host.live == {s.interval.value}
    ensures s.interval.None? ==> s.host.live == {}
  {
  }

  /** Initialisation over a non-empty catalog, from any state whose stored
      handle accounts for every live interval, reaches a playing state with
      exactly one live timer. */
  lemma InitEstablishesInv(catalog: seq<string>, s: State, start: nat)
    requires 0 < |catalog| && start < |catalog|
    requires s.host.Valid() && s.host.live <= Handles(s.interval)
    ensures Inv(catalog, Init(catalog, s, start))
    ensures |Init(catalog, s, start).host.live| == 1
  {
    var r := Init(catalog, s, start);
    assert r.display.Get(r.activeImageIndex).src == catalog[start];
  }

  /** The deployed catalog is non-empty, so on a freshly loaded page any
      random start position leads to a playing slideshow. */
  lemma DeployedCatalogPlays(markup: Display, start: nat)
    requires start < |ProductImages|
    ensures |ProductImages| == 19
    ensures Inv(ProductImages, Init(ProductImages, PageLoaded(markup), start))
  {
    InitEstablishesInv(ProductImages, PageLoaded(markup), start);
  }

  /** Some event of `events` runs the advance: a tick or a recovery. */
  predicate Advances(events: seq<Event>)
  {
    exists i | 0 <= i < |events| :: events[i].Tick? || events[i].RetryDue?
  }

  /** An empty catalog leaves the fallback in place: a fresh page's
      initialisation shows the fallback and starts no timer, so without a
      call to `startSlideshow` no tick is ever delivered, and no event of any
      kind changes what is shown afterwards. */
  lemma EmptyCatalogIsStatic(markup: Display, start: nat, events: seq<Event>)
    requires Run([], Init([], PageLoaded(markup), start), events).Some?
    ensures Init([], PageLoaded(markup), start).host.live == {}
    ensures Init([], PageLoaded(markup), start).display.first
      == Slot(FallbackSrc, Text(FallbackAlt), true)
    ensures (forall i | 0 <= i < |events| :: !events[i].Start?) ==>
      forall i | 0 <= i < |events| :: !events[i].Tick?
    ensures Run([], Init([], PageLoaded(markup), start), events).value.display
      == Init([], PageLoaded(markup), start).display
  {
    var s := Init([], PageLoaded(markup), start);
    EmptyCatalogRunIsStatic(s, events);
    if forall i | 0 <= i < |events| :: !events[i].Start? {
      StoppedStaysStopped([], s, events);
    }
  }

  /** Over an empty catalog no event changes the slots. The position is
      untouched too until a tick or a recovery runs the advance, which turns
      it into `NaN` for good. */
  lemma {:induction false} EmptyCatalogRunIsStatic(s: State, events: seq<Event>)
    requires Run([], s, events).Some?
    ensures Run([], s, events).value.display == s.display
    ensures Run([], s, events).value.currentIndex
      == (if Advances(events) then NaN else s.currentIndex)
    decreases |events|
  {
    if |events| > 0 {
      var t := Step([], s, events[0]);
      EmptyCatalogRunIsStatic(t, events[1..]);
      assert Advances(events) <==> (events[0].Tick? || events[0].RetryDue? || Advances(events[1..])) by {
        if Advances(events[1..]) {
          var i :| 0 <= i < |events[1..]| && (events[1..][i].Tick? || events[1..][i].RetryDue?);
          assert events[i + 1] == events[1..][i];
        }
        if Advances(events) {
          var i :| 0 <= i < |events| && (events[i].Tick? || events[i].RetryDue?);
          if i > 0 {
            assert events[1..][i - 1] == events[i];
          }
        }
      }
    } else {
      assert !Advances(events);
    }
  }

  /** The fallback image failing to load: its recovery runs the advance,
      which divides by the empty catalog's length and leaves the position
      `NaN`, while `showImage` returns before touching the slots. */
  lemma FallbackFailureMakesNaN(markup: Display, start: nat, slot: SlotIndex)
    ensures Run([], Init([], PageLoaded(markup), start), [LoadError(slot), RetryDue])
      == Some(Init([], PageLoaded(markup), start).(currentIndex := NaN))
  {
    var s := Init([], PageLoaded(markup), start);
    RunPair([], s, LoadError(slot), RetryDue);
  }

  /** `k` ticks of the live rotation timer from position `i` land on
      position `(i + k) mod n`, and the visible slot alternates with each
      tick. After at least one tick the visible slot shows the catalog entry
      at the new position. */
  lemma TicksAdvance(catalog: seq<string>, s: State, id: nat, k: nat)
    requires InBounds(catalog, s.currentIndex) && id in s.host.live
    ensures Run(catalog, s, Ticks(id, k)).Some?
    ensures Run(catalog, s, Ticks(id, k)).value.currentIndex
      == Int((s.currentIndex.value + k) % |catalog|)
    ensures Run(catalog, s, Ticks(id, k)).value.activeImageIndex
      == (s.activeImageIndex + k) % 2
    ensures k > 0 ==>
      var t := Run(catalog, s, Ticks(id, k)).value;
      t.display.Get(t.activeImageIndex).src == catalog[t.currentIndex.value]
    ensures Run(catalog, s, Ticks(id, k)).value.host == s.host
  {
    TicksAreAdvances(catalog, s, id, k);
    AdvancedIndex(catalog, s, k);
    AdvancedSlot(catalog, s, k);
    if k > 0 {
      AdvancedShows(catalog, s, k);
    }
  }

  /** The state after `k` advances. */
  function Advanced(catalog: seq<string>, s: State, k: nat): (r: State)
    requires HasPosition(catalog, s)
    ensures HasPosition(catalog, r) && r.host == s.host
    decreases k
  {
    if k == 0 then s else Advanced(catalog, Advance(catalog, s), k - 1)
  }

  /** While its interval is live, `k` ticks are `k` advances. */
  lemma {:induction false} TicksAreAdvances(catalog: seq<string>, s: State, id: nat, k: nat)
    requires HasPosition(catalog, s) && id in s.host.live
    ensures Run(catalog, s, Ticks(id, k)) == Some(Advanced(catalog, s, k))
    decreases k
  {
    if k > 0 {
      FirstTick(catalog, s, id, k);
      TicksAreAdvances(catalog, Advance(catalog, s), id, k - 1);
    }
  }

  /** `k` advances from an in-bounds position `i` land on `(i + k) mod n`. */
  lemma {:induction false} AdvancedIndex(catalog: seq<string>, s: State, k: nat)
    requires InBounds(catalog, s.currentIndex)
    ensures Advanced(catalog, s, k).currentIndex == Int((s.currentIndex.value + k) % |catalog|)
    decreases k
  {
    if k == 0 {
      ModInRange(s.currentIndex.value, |catalog|);
    } else {
      var t := Advance(catalog, s);
      AdvancedIndex(catalog, t, k - 1);
      ShiftMod(s.currentIndex.value, t.currentIndex.value, k, |catalog|);
    }
  }

  /** `k` advances flip the visible slot `k` times. */
  lemma {:induction false} AdvancedSlot(catalog: seq<string>, s: State, k: nat)
    requires InBounds(catalog, s.currentIndex)
    ensures Advanced(catalog, s, k).activeImageIndex == (s.activeImageIndex + k) % 2
    decreases k
  {
    if k == 0 {
      ModInRange(s.activeImageIndex, 2);
    } else {
      var t := Advance(catalog, s);
      AdvancedSlot(catalog, t, k - 1);
      ShiftParity(s.activeImageIndex, t.activeImageIndex, k);
    }
  }

  /** After at least one advance the visible slot shows the entry at the
      position reached. */
  lemma {:induction false} AdvancedShows(catalog: seq<string>, s: State, k: nat)
    requires InBounds(catalog, s.currentIndex) && k > 0
    ensures var t := Advanced(catalog, s, k);
      InBounds(catalog, t.currentIndex)
      && t.display.Get(t.activeImageIndex).src == catalog[t.currentIndex.value]
    decreases k
  {
    var t := Advance(catalog, s);
    assert Advanced(catalog, s, k) == Advanced(catalog, t, k - 1);
    if k > 1 {
      AdvancedShows(catalog, t, k - 1);
    }
  }

  /** One step to `j == (i + 1) mod n` then `k - 1` more lands where `k`
      steps do, modulo `n`. */
  lemma ShiftMod(i: int, j: int, k: int, n: int)
    requires n > 0 && j == (i + 1) % n
    ensures (j + (k - 1)) % n == (i + k) % n
  {
    ModAddLeft(i + 1, k - 1, n);
    assert i + 1 + (k - 1) == i + k;
  }

  /** Flipping the slot bit to `b` then `k - 1` more flips is `k` flips. */
  lemma ShiftParity(a: SlotIndex, b: int, k: int)
    requires b == 1 - a
    ensures (b + (k - 1)) % 2 == (a + k) % 2
  {
    ModAddLeft(a + 1, k - 1, 2);
    assert (a + 1) % 2 == 1 - a;
    assert a + 1 + (k - 1) == a + k;
  }

  /** Delivering `k > 0` ticks is one advance followed by `k - 1` ticks. */
  lemma FirstTick(catalog: seq<string>, s: State, id: nat, k: nat)
    requires HasPosition(catalog, s) && id in s.host.live && k > 0
    ensures Run(catalog, s, Ticks(id, k)) == Run(catalog, Advance(catalog, s), Ticks(id, k - 1))
  {
    RunStep(catalog, s, Ticks(id, k));
    assert Ticks(id, k)[1..] == Ticks(id, k - 1);
  }

  /** With three catalog entries, three ticks from position 0 visit
      positions 1, 2 and 0, in that order. */
  lemma ThreeTicksWrapAround(catalog: seq<string>, s: State)
    requires |catalog| == 3 && Inv(catalog, s) && s.currentIndex == Int(0)
    ensures Advance(catalog, s).currentIndex == Int(1)
    ensures Advance(catalog, Advance(catalog, s)).currentIndex == Int(2)
    ensures Advance(catalog, Advance(catalog, Advance(catalog, s))).currentIndex == Int(0)
  {
  }

  /** The first tick after initialisation shows catalog entry 1 (entry 0 for
      a one-image catalog), whatever random entry `start` was shown first:
      the logical position was reset to 0. With `start == 1` the first tick
      therefore shows the same image again. */
  lemma FirstTickIgnoresStart(catalog: seq<string>, s: State, start: nat)
    requires 0 < |catalog| && start < |catalog|
    requires s.host.Valid() && s.host.live <= Handles(s.interval)
    ensures var t := Advance(catalog, Init(catalog, s, start));
      && t.currentIndex == Int(1 % |catalog|)
      && t.activeImageIndex == 1
      && t.display.Get(1).src == catalog[1 % |catalog|]
    ensures |catalog| > 1 && start == 1 ==>
      Advance(catalog, Init(catalog, s, start)).display.Get(1).src
        == Init(catalog, s, start).display.Get(0).src
  {
    var i := Init(catalog, s, start);
    assert i.currentIndex == Int(0);
    if |catalog| > 1 {
      ModInRange(1, |catalog|);
    } else {
      ModSelf(1);
    }
  }

  /** A load failure followed by its recovery coming due has exactly the
      effect of one timer tick, whichever slot failed. */
  lemma LoadErrorRecoveryIsAdvance(catalog: seq<string>, s: State, slot: SlotIndex)
    requires Inv(catalog, s)
    ensures Run(catalog, s, [LoadError(slot), RetryDue]) == Some(Advance(catalog, s))
  {
    var t := s.(pendingRetries := s.pendingRetries + 1);
    assert Step(catalog, t, RetryDue) == Advance(catalog, s) by {
      assert t.(pendingRetries := t.pendingRetries - 1) == s;
    }
    RunPair(catalog, s, LoadError(slot), RetryDue);
  }

  /** With four catalog entries at position 2, a load failure and its
      recovery make entry 3 the visible image. */
  lemma LoadErrorAtTwoOfFour(catalog: seq<string>, s: State, slot: SlotIndex)
    requires |catalog| == 4 && Inv(catalog, s) && s.currentIndex == Int(2)
    ensures var r := Run(catalog, s, [LoadError(slot), RetryDue]);
      && r.Some?
      && r.value.currentIndex == Int(3)
      && r.value.display.Get(r.value.activeImageIndex).src == catalog[3]
  {
    LoadErrorRecoveryIsAdvance(catalog, s, slot);
  }

  /** A recovery does not reset the rotation timer: if a tick lands between a
      load failure and its recovery, the position moves on by two. */
  lemma RecoveryRacesTick(catalog: seq<string>, s: State, slot: SlotIndex, id: nat)
    requires Inv(catalog, s) && id in s.host.live
    ensures var r := Run(catalog, s, [LoadError(slot), Tick(id), RetryDue]);
      r.Some? && r.value.currentIndex == Int((s.currentIndex.value + 2) % |catalog|)
  {
    var e := s.(pendingRetries := s.pendingRetries + 1);
    var u := Advance(catalog, Advance(catalog, e).(pendingRetries := s.pendingRetries));
    assert u.currentIndex == Int((s.currentIndex.value + 2) % |catalog|) by {
      AdvanceTwice(catalog, e, s.pendingRetries);
    }
    assert Run(catalog, s, [LoadError(slot), Tick(id), RetryDue]) == Some(u) by {
      RaceRun(catalog, s, slot, id);
    }
  }

  /** Two advances from an in-bounds position move it on by two. */
  lemma AdvanceTwice(catalog: seq<string>, s: State, pending: nat)
    requires |catalog| > 0 && InBounds(catalog, s.currentIndex)
    ensures Advance(catalog, Advance(catalog, s).(pendingRetries := pending)).currentIndex
      == Int((s.currentIndex.value + 2) % |catalog|)
  {
    ModAddLeft(s.currentIndex.value + 1, 1, |catalog|);
  }

  /** The run of a failure, a tick and the recovery: two advances. */
  lemma RaceRun(catalog: seq<string>, s: State, slot: SlotIndex, id: nat)
    requires InBounds(catalog, s.currentIndex) && id in s.host.live
    ensures var t := Advance(catalog, s.(pendingRetries := s.pendingRetries + 1));
      Run(catalog, s, [LoadError(slot), Tick(id), RetryDue])
        == Some(Advance(catalog, t.(pendingRetries := s.pendingRetries)))
  {
    var e := s.(pendingRetries := s.pendingRetries + 1);
    var t := Advance(catalog, e);
    assert Step(catalog, e, Tick(id)) == t;
    assert Step(catalog, t, RetryDue) == Advance(catalog, t.(pendingRetries := s.pendingRetries));
    RunStep(catalog, s, [LoadError(slot), Tick(id), RetryDue]);
    assert [LoadError(slot), Tick(id), RetryDue][1..] == [Tick(id), RetryDue];
    RunPair(catalog, e, Tick(id), RetryDue);
  }

  /** Delivering two events is stepping twice. */
  lemma RunPair(catalog: seq<string>, s: State, a: Event, b: Event)
    requires Enabled(catalog, s, a) && Enabled(catalog, Step(catalog, s, a), b)
    ensures Run(catalog, s, [a, b]) == Some(Step(catalog, Step(catalog, s, a), b))
  {
    RunStep(catalog, s, [a, b]);
    assert [a, b][1..] == [b];
    RunStep(catalog, Step(catalog, s, a), [b]);
    assert [b][1..] == [];
  }

  /** Starting playback again replaces the running timer rather than adding
      a second one; stopping leaves no timer and stopping twice is the same
      as stopping once. */
  lemma StartStopTimers(catalog: seq<string>, s: State)
    requires Inv(catalog, s)
    ensures |StartSlideshow(StartSlideshow(s)).host.live| == 1
    ensures StartSlideshow(StartSlideshow(s)).host.live
      == Handles(StartSlideshow(StartSlideshow(s)).interval)
    ensures StopSlideshow(StartSlideshow(s)).host.live == {}
    ensures StopSlideshow(StopSlideshow(s)) == StopSlideshow(s)
  {
    var t := StartSlideshow(s);
    assert t.host.live <= Handles(t.interval);
  }

  /** Once no timer is live, no tick is ever delivered until playback is
      started again; and unless a recovery scheduled earlier comes due, the
      slots and the position stay as they are. */
  lemma {:induction false} StoppedStaysStopped(catalog: seq<string>, s: State, events: seq<Event>)
    requires s.host.live == {}
    requires forall i | 0 <= i < |events| :: !events[i].Start?
    requires Run(catalog, s, events).Some?
    ensures forall i | 0 <= i < |events| :: !events[i].Tick?
    ensures Run(catalog, s, events).value.host.live == {}
    ensures (forall i | 0 <= i < |events| :: !events[i].RetryDue?) ==>
      && Run(catalog, s, events).value.display == s.display
      && Run(catalog, s, events).value.currentIndex == s.currentIndex
    decreases |events|
  {
    if |events| > 0 {
      var t := Step(catalog, s, events[0]);
      forall i | 0 <= i < |events| - 1
        ensures !events[1..][i].Start?
      {
        assert events[1..][i] == events[i + 1];
      }
      StoppedStaysStopped(catalog, t, events[1..]);
      forall i | 0 < i < |events|
        ensures !events[i].Tick?
      {
        assert events[i] == events[1..][i - 1];
      }
      if forall i | 0 <= i < |events| :: !events[i].RetryDue? {
        forall i | 0 <= i < |events| - 1
          ensures !events[1..][i].RetryDue?
        {
          assert events[1..][i] == events[i + 1];
        }
      }
    }
  }
}
