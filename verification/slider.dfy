/** The hero slider of js/main.js (`initHeroSlider` with its inner `goTo`,
    `next`, dot construction and `restart`).

    The DOM is abstracted to two equal-length sequences of "active" class
    flags, one for the `.slide` elements and one for the dot buttons, plus
    the index `current`.  Browser interval timers are abstracted to the
    handle the closure keeps in `timer` and the set of handles whose
    interval is still scheduled. */
module Slider {
  import opened Wrappers

  datatype Slider = Slider(
    current: nat,
    slides: seq<bool>,
    dots: seq<bool>,
    timer: Option<nat>,   // the `timer` variable: null, or an interval handle
    live: set<nat>        // handles of this slider's intervals still scheduled
  )

  /** Indices whose flag is set. */
  function ActiveSet(flags: seq<bool>): set<nat> {
    set i: nat | i < |flags| && flags[i]
  }

  /** What every reachable slider satisfies: at least two slides, one dot per
      slide, and `current` is a valid index. */
  predicate Shaped(s: Slider) {
    |s.slides| >= 2 && |s.dots| == |s.slides| && s.current < |s.slides|
  }

  /** Exactly one dot is active: the one at `current`. */
  predicate DotsExact(s: Slider) {
    |s.dots| == |s.slides| && s.current < |s.dots| &&
    forall j :: 0 <= j < |s.dots| ==> (s.dots[j] <==> j == s.current)
  }

  /** Exactly one slide is active: the one at `current`. */
  predicate SlidesExact(s: Slider) {
    s.current < |s.slides| &&
    forall j :: 0 <= j < |s.slides| ==> (s.slides[j] <==> j == s.current)
  }

  /** No slide other than the one at `current` is active. */
  predicate SlidesAtMostCurrent(s: Slider) {
    forall j :: 0 <= j < |s.slides| && s.slides[j] ==> j == s.current
  }

  /** One interval is scheduled, and it is the one `timer` holds.  Browsers
      return interval handles greater than zero, so `if (timer)` sees it. */
  predicate SingleTimer(s: Slider) {
    s.timer.Some? && s.timer.value > 0 && s.live == {s.timer.value}
  }

  /** `Array.prototype.findIndex` for the "active" class: the first active
      index, or -1 when there is none. */
  function FirstActive(flags: seq<bool>): (r: int)
    ensures -1 <= r < |flags|
    ensures r >= 0 ==> flags[r] && forall j :: 0 <= j < r ==> !flags[j]
    ensures r == -1 <==> forall j :: 0 <= j < |flags| ==> !flags[j]
  {
    if |flags| == 0 then -1
    else if flags[0] then 0
    else
      var k := FirstActive(flags[1..]);
      if k < 0 then -1 else k + 1
  }

  /** The starting index: the first slide already marked active in the
      markup, else 0. */
  function InitialIndex(markup: seq<bool>): (r: nat)
    requires |markup| > 0
    ensures r < |markup|
    ensures (exists j :: 0 <= j < |markup| && markup[j]) ==>
              markup[r] && forall j :: 0 <= j < r ==> !markup[j]
    ensures (forall j :: 0 <= j < |markup| ==> !markup[j]) ==> r == 0
  {
    var k := FirstActive(markup);
    if k < 0 then 0 else k
  }

  /** The dot buttons built at setup: one per slide, marked active exactly at
      `current`. */
  function BuildDots(n: nat, current: nat): (r: seq<bool>)
    ensures |r| == n
    ensures current < n ==> ActiveSet(r) == {current}
    ensures current >= n ==> ActiveSet(r) == {}
  {
    var r := seq(n, i => i == current);
    assert forall i: nat :: i in ActiveSet(r) <==> i < n && i == current;
    r
  }

  /** `restart`: clear the previous interval if `timer` is truthy, then
      schedule a new one, whose handle the host supplies as `h`. */
  function Restart(s: Slider, h: nat): (r: Slider)
    ensures r.timer == Some(h)
    ensures r.current == s.current && r.slides == s.slides && r.dots == s.dots
    ensures h in r.live
    ensures s.timer.Some? && s.timer.value > 0 ==> s.timer.value !in r.live || s.timer.value == h
    ensures r.live - {h} <= s.live
    ensures s.live - (if s.timer.Some? && s.timer.value != 0 then {s.timer.value} else {}) <= r.live
  {
    var kept := if s.timer.Some? && s.timer.value != 0 then s.live - {s.timer.value} else s.live;
    s.(timer := Some(h), live := kept + {h})
  }

  /** Setup.  `None` is the early return: no `.hero-slider`, at most one
      slide, or no `.slider-dots` container.  `markup` holds the "active"
      class of each slide as the page was served, `h` the handle of the
      interval `restart` schedules. */
  function Setup(sliderPresent: bool, markup: seq<bool>, dotsPresent: bool, h: nat): (r: Option<Slider>)
    ensures r.Some? <==> sliderPresent && |markup| >= 2 && dotsPresent
    ensures r.Some? ==> Shaped(r.value) && DotsExact(r.value)
    ensures r.Some? ==> r.value.slides == markup && r.value.current == InitialIndex(markup)
    ensures r.Some? && h > 0 ==> SingleTimer(r.value)
  {
    if !sliderPresent then None
    else if |markup| <= 1 || !dotsPresent then None
    else
      var current := InitialIndex(markup);
      var dots := BuildDots(|markup|, current);
      assert forall j :: 0 <= j < |dots| ==> (dots[j] <==> j in ActiveSet(dots));
      Some(Restart(Slider(current, markup, dots, None, {}), h))
  }

  /** `goTo(idx)`: clear the markers at the old index, then set them at
      `idx`. */
  function GoTo(s: Slider, idx: nat): (r: Slider)
    requires Shaped(s) && idx < |s.slides|
    ensures Shaped(r) && |r.slides| == |s.slides|
    ensures r.current == idx
    ensures r.slides[idx] && r.dots[idx]
    ensures s.current != idx ==> !r.slides[s.current] && !r.dots[s.current]
    ensures forall j :: 0 <= j < |s.slides| && j != idx && j != s.current ==>
              r.slides[j] == s.slides[j] && r.dots[j] == s.dots[j]
    ensures r.timer == s.timer && r.live == s.live
  {
    var slides := s.slides[s.current := false][idx := true];
    var dots := s.dots[s.current := false][idx := true];
    s.(current := idx, slides := slides, dots := dots)
  }

  /** `next`: the timer's step to the following slide, wrapping round. */
  function Next(s: Slider): (r: Slider)
    requires Shaped(s)
    ensures Shaped(r) && |r.slides| == |s.slides|
    ensures r.current == if s.current + 1 < |s.slides| then s.current + 1 else 0
    ensures r.timer == s.timer && r.live == s.live
  {
    GoTo(s, (s.current + 1) % |s.slides|)
  }

  /** The click handler of dot `idx`: jump to it and restart the interval. */
  function Click(s: Slider, idx: nat, h: nat): (r: Slider)
    requires Shaped(s) && idx < |s.slides|
    ensures Shaped(r) && r.current == idx && r.timer == Some(h)
  {
    Restart(GoTo(s, idx), h)
  }

  /** `goTo` keeps "exactly one active dot, at current". */
  lemma GoToKeepsDotsExact(s: Slider, idx: nat)
    requires Shaped(s) && idx < |s.slides| && DotsExact(s)
    ensures DotsExact(GoTo(s, idx))
  {
  }

  /** `goTo` leaves exactly one active slide whenever no slide but the
      current one was active before, and so keeps "exactly one". */
  lemma GoToMakesSlidesExact(s: Slider, idx: nat)
    requires Shaped(s) && idx < |s.slides| && SlidesAtMostCurrent(s)
    ensures SlidesExact(GoTo(s, idx))
  {
  }

  /** A single interval stays single across a restart with a fresh handle. */
  lemma RestartKeepsSingleTimer(s: Slider, h: nat)
    requires SingleTimer(s) && h > 0
    ensures SingleTimer(Restart(s, h))
  {
  }

  /** Exactly one active slide after setup holds exactly when the markup
      served exactly one active slide. */
  lemma SetupSlidesExactIff(markup: seq<bool>, h: nat)
    requires |markup| >= 2
    ensures SlidesExact(Setup(true, markup, true, h).value) <==> |ActiveSet(markup)| == 1
  {
    var s := Setup(true, markup, true, h).value;
    if |ActiveSet(markup)| == 1 {
      var k :| k in ActiveSet(markup);
      SingletonSet(ActiveSet(markup), k);
      var f := FirstActive(markup);
      assert f >= 0 && markup[f];
      assert f as nat in ActiveSet(markup);
      assert s.current == k;
      forall j | 0 <= j < |markup| ensures markup[j] <==> j == k {
        if markup[j] { assert j as nat in ActiveSet(markup); }
      }
    }
    if SlidesExact(s) {
      assert ActiveSet(markup) == {s.current} by {
        forall i: nat ensures i in ActiveSet(markup) <==> i == s.current {
          if i < |markup| { assert markup[i] <==> i == s.current; }
        }
      }
    }
  }

  /** A set of one element holds only that element. */
  lemma SingletonSet(a: set<nat>, k: nat)
    requires |a| == 1 && k in a
    ensures a == {k}
  {
    assert |a - {k}| == |a| - 1;
    assert a - {k} == {};
  }

  /** The gap in setup: when the markup has no active slide, `current` is 0
      but slide 0 is never marked, so no slide is active while dot 0 is. */
  lemma SetupWithoutActiveSlide(markup: seq<bool>, h: nat)
    requires |markup| >= 2 && ActiveSet(markup) == {}
    ensures Setup(true, markup, true, h).value.current == 0
    ensures ActiveSet(Setup(true, markup, true, h).value.slides) == {}
    ensures Setup(true, markup, true, h).value.dots[0]
  {
    assert forall j :: 0 <= j < |markup| ==> !markup[j] by {
      forall j | 0 <= j < |markup| ensures !markup[j] {
        assert j as nat !in ActiveSet(markup);
      }
    }
  }

  /** With at most one active slide in the markup, setup leaves no active
      slide other than the current one, so the first transition establishes
      "exactly one". */
  lemma SetupAtMostOne(markup: seq<bool>, h: nat)
    requires |markup| >= 2 && |ActiveSet(markup)| <= 1
    ensures SlidesAtMostCurrent(Setup(true, markup, true, h).value)
  {
    var s := Setup(true, markup, true, h).value;
    forall j | 0 <= j < |markup| && markup[j]
      ensures j == s.current
    {
      assert j as nat in ActiveSet(markup);
      SingletonSet(ActiveSet(markup), j);
      var k := FirstActive(markup);
      assert k >= 0 && markup[k];
      assert k as nat in ActiveSet(markup);
    }
  }

  /** `k` firings of the interval with no click in between. */
  function Advance(s: Slider, k: nat): (r: Slider)
    requires Shaped(s)
    ensures Shaped(r) && |r.slides| == |s.slides|
    ensures r.timer == s.timer && r.live == s.live
    decreases k
  {
    if k == 0 then s else Advance(Next(s), k - 1)
  }

  /** Adding the modulus does not change a remainder. */
  lemma ModAddModulus(x: nat, n: nat)
    requires n > 0
    ensures (x + n) % n == x % n
  {
    ModUnique(x + n, n, x / n + 1, x % n);
  }

  /** A remainder is determined by any quotient/remainder decomposition. */
  lemma ModUnique(a: int, n: int, q: int, r: int)
    requires n > 0 && 0 <= r < n && a == q * n + r
    ensures a % n == r
  {
    var q', r' := a / n, a % n;
    assert (q - q') * n == r' - r;
    if q > q' {
      assert (q - q') * n >= n by { ProductAtLeast(q - q', n); }
    } else if q < q' {
      assert (q' - q) * n >= n by { ProductAtLeast(q' - q, n); }
    }
  }

  lemma ProductAtLeast(d: int, n: int)
    requires d >= 1 && n > 0
    ensures d * n >= n
  {
  }

  /** After `k` firings the index has moved `k` places round the ring. */
  lemma {:induction false} AdvanceIndex(s: Slider, k: nat)
    requires Shaped(s)
    ensures Advance(s, k).current == (s.current + k) % |s.slides|
    decreases k
  {
    if k > 0 {
      var n := |s.slides|;
      AdvanceIndex(Next(s), k - 1);
      if s.current + 1 == n {
        ModAddModulus(k - 1, n);
      }
    }
  }

  /** Firing keeps "exactly one active dot" and "exactly one active slide". */
  lemma {:induction false} AdvanceKeepsExact(s: Slider, k: nat)
    requires Shaped(s) && DotsExact(s) && SlidesExact(s)
    ensures DotsExact(Advance(s, k)) && SlidesExact(Advance(s, k))
    decreases k
  {
    if k > 0 {
      GoToKeepsDotsExact(s, (s.current + 1) % |s.slides|);
      GoToMakesSlidesExact(s, (s.current + 1) % |s.slides|);
      AdvanceKeepsExact(Next(s), k - 1);
    }
  }

  /** N firings for N slides bring the slider back to the state it started
      from, once exactly one slide and one dot are active. */
  lemma FullCycle(s: Slider)
    requires Shaped(s) && DotsExact(s) && SlidesExact(s)
    ensures Advance(s, |s.slides|) == s
  {
    var r := Advance(s, |s.slides|);
    FullCycleIndex(s);
    AdvanceKeepsExact(s, |s.slides|);
    ExactDetermined(r, s);
  }

  /** Within one lap of the ring the index moves forward k places,
      wrapping past the last slide at most once. */
  lemma {:induction false} AdvanceOneLap(s: Slider, k: nat)
    requires Shaped(s) && k <= |s.slides|
    ensures Advance(s, k).current ==
      if s.current + k < |s.slides| then s.current + k else s.current + k - |s.slides|
    decreases k
  {
    if k > 0 {
      AdvanceOneLap(Next(s), k - 1);
    }
  }

  /** N firings for N slides bring the index back to where it started. */
  lemma FullCycleIndex(s: Slider)
    requires Shaped(s)
    ensures Advance(s, |s.slides|).current == s.current
  {
    AdvanceOneLap(s, |s.slides|);
  }

  /** Two sliders of the same size with exactly one active slide and dot at
      the same index carry the same flags. */
  lemma ExactDetermined(a: Slider, b: Slider)
    requires DotsExact(a) && SlidesExact(a) && DotsExact(b) && SlidesExact(b)
    requires |a.slides| == |b.slides| && a.current == b.current
    ensures a.slides == b.slides && a.dots == b.dots
  {
  }

  /** What happens to a running slider: the interval fires, or dot `idx` is
      clicked and the host hands out interval handle `handle`. */
  datatype Event = Tick | DotClick(idx: nat, handle: nat)

  /** An event the page can deliver to a slider of `n` slides: only
      existing dots can be clicked, and interval handles are positive. */
  predicate Acceptable(e: Event, n: nat) {
    e.DotClick? ==> e.idx < n && e.handle > 0
  }

  predicate Deliverable(events: seq<Event>, n: nat) {
    forall i :: 0 <= i < |events| ==> Acceptable(events[i], n)
  }

  /** Dropping the first event keeps the rest deliverable. */
  lemma DeliverableTail(events: seq<Event>, n: nat)
    requires |events| > 0 && Deliverable(events, n)
    ensures Deliverable(events[1..], n)
  {
    forall i | 0 <= i < |events[1..]| ensures Acceptable(events[1..][i], n) {
      assert events[1..][i] == events[i + 1];
    }
  }

  function Step(s: Slider, e: Event): (r: Slider)
    requires Shaped(s) && Acceptable(e, |s.slides|)
    ensures Shaped(r) && |r.slides| == |s.slides|
  {
    match e
    case Tick => Next(s)
    case DotClick(idx, h) => Click(s, idx, h)
  }

  function Run(s: Slider, events: seq<Event>): (r: Slider)
    requires Shaped(s) && Deliverable(events, |s.slides|)
    ensures Shaped(r) && |r.slides| == |s.slides|
    decreases |events|
  {
    if |events| == 0 then s
    else
      Run(Step(s, events[0]), events[1..])
  }

  /** The state every transition keeps. */
  predicate Invariant(s: Slider) {
    Shaped(s) && DotsExact(s) && SingleTimer(s)
  }

  /** Any run keeps one active dot at `current` and one scheduled interval;
      once an event has happened, exactly one slide is active too, provided
      no slide but the current one was active at the start. */
  lemma {:induction false} RunKeepsInvariant(s: Slider, events: seq<Event>)
    requires Invariant(s) && Deliverable(events, |s.slides|)
    ensures Invariant(Run(s, events))
    ensures SlidesAtMostCurrent(s) ==> SlidesAtMostCurrent(Run(s, events))
    ensures SlidesAtMostCurrent(s) && |events| > 0 ==> SlidesExact(Run(s, events))
    decreases |events|
  {
    if |events| > 0 {
      var e := events[0];
      var idx := if e.Tick? then (s.current + 1) % |s.slides| else e.idx;
      GoToKeepsDotsExact(s, idx);
      if SlidesAtMostCurrent(s) {
        GoToMakesSlidesExact(s, idx);
      }
      if e.DotClick? {
        RestartKeepsSingleTimer(GoTo(s, idx), e.handle);
      }
      var t := Step(s, e);
      DeliverableTail(events, |t.slides|);
      RunKeepsInvariant(t, events[1..]);
    }
  }
}
