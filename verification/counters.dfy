/** The `data-done` latch of js/main.js (`initCounters`): the
    IntersectionObserver callback that starts a counter's animation.

    Counters are numbered 0 .. n-1; `attrs[i]` is counter i's `data-done`
    attribute (`None` when absent).  The observer hands the callback batches
    of entries; the model returns the updated attributes and, in order, the
    counters `animate` was called on. */
module Counters {
  import opened Wrappers

  /** One IntersectionObserver entry: which observed counter, and whether
      it is intersecting. */
  datatype Entry = Entry(target: nat, isIntersecting: bool)

  /** The latch value. */
  const DoneMark := "1"

  predicate Done(attr: Option<string>) {
    attr == Some(DoneMark)
  }

  /** The observer only reports the counters it observes. */
  predicate Observed(entries: seq<Entry>, n: nat) {
    forall k :: 0 <= k < |entries| ==> entries[k].target < n
  }

  /** Some entry reports counter `i` intersecting. */
  predicate Hit(entries: seq<Entry>, i: nat) {
    exists k :: 0 <= k < |entries| && entries[k].target == i && entries[k].isIntersecting
  }

  /** The result of delivering entries: the new attributes and the counters
      animated, in call order. */
  datatype Outcome = Outcome(attrs: seq<Option<string>>, animated: seq<nat>)

  /** The callback, one entry at a time: skip entries that are not
      intersecting and counters already latched; otherwise latch and animate. */
  function Deliver(attrs: seq<Option<string>>, entries: seq<Entry>): (r: Outcome)
    requires Observed(entries, |attrs|)
    ensures |r.attrs| == |attrs|
    ensures forall k :: 0 <= k < |r.animated| ==> r.animated[k] < |attrs|
    decreases |entries|
  {
    if |entries| == 0 then Outcome(attrs, [])
    else
      var e := entries[0];
      ObservedTail(entries, |attrs|);
      if !e.isIntersecting || Done(attrs[e.target]) then Deliver(attrs, entries[1..])
      else
        var rest := Deliver(attrs[e.target := Some(DoneMark)], entries[1..]);
        Outcome(rest.attrs, [e.target] + rest.animated)
  }

  /** Dropping the first entry keeps every target observed. */
  lemma ObservedTail(entries: seq<Entry>, n: nat)
    requires |entries| > 0 && Observed(entries, n)
    ensures Observed(entries[1..], n)
  {
    forall k | 0 <= k < |entries[1..]| ensures entries[1..][k].target < n {
      assert entries[1..][k] == entries[k + 1];
    }
  }

  /** Hitting the tail of a sequence of entries is hitting the whole of it,
      unless the head already hit. */
  lemma HitCons(entries: seq<Entry>, i: nat)
    requires |entries| > 0
    ensures Hit(entries, i) <==>
      (entries[0].target == i && entries[0].isIntersecting) || Hit(entries[1..], i)
  {
  }

  /** After a delivery counter i is latched exactly when it was latched
      before or some entry reported it intersecting; an unreported counter
      keeps its attribute. */
  lemma {:induction false} DeliverLatch(attrs: seq<Option<string>>, entries: seq<Entry>, i: nat)
    requires Observed(entries, |attrs|) && i < |attrs|
    ensures Done(Deliver(attrs, entries).attrs[i]) <==> Done(attrs[i]) || Hit(entries, i)
    ensures !Hit(entries, i) ==> Deliver(attrs, entries).attrs[i] == attrs[i]
    decreases |entries|
  {
    if |entries| > 0 {
      var e := entries[0];
      ObservedTail(entries, |attrs|);
      HitCons(entries, i);
      if !e.isIntersecting || Done(attrs[e.target]) {
        DeliverLatch(attrs, entries[1..], i);
      } else {
        DeliverLatch(attrs[e.target := Some(DoneMark)], entries[1..], i);
      }
    }
  }

  /** `animate` runs on counter i once if it was not latched and some entry
      reported it intersecting, and otherwise never. */
  lemma {:induction false} DeliverAnimatesOnce(attrs: seq<Option<string>>, entries: seq<Entry>, i: nat)
    requires Observed(entries, |attrs|) && i < |attrs|
    ensures multiset(Deliver(attrs, entries).animated)[i] ==
      if !Done(attrs[i]) && Hit(entries, i) then 1 else 0
    decreases |entries|
  {
    if |entries| > 0 {
      var e := entries[0];
      ObservedTail(entries, |attrs|);
      HitCons(entries, i);
      if !e.isIntersecting || Done(attrs[e.target]) {
        DeliverAnimatesOnce(attrs, entries[1..], i);
      } else {
        var a' := attrs[e.target := Some(DoneMark)];
        DeliverAnimatesOnce(a', entries[1..], i);
        var rest := Deliver(a', entries[1..]);
        assert multiset([e.target] + rest.animated) == multiset{e.target} + multiset(rest.animated);
      }
    }
  }

  /** Every batch reports only observed counters. */
  predicate AllObserved(batches: seq<seq<Entry>>, n: nat) {
    forall b :: 0 <= b < |batches| ==> Observed(batches[b], n)
  }

  /** Dropping the first batch keeps the rest observed. */
  lemma AllObservedTail(batches: seq<seq<Entry>>, n: nat)
    requires |batches| > 0 && AllObserved(batches, n)
    ensures AllObserved(batches[1..], n)
  {
    forall b | 0 <= b < |batches[1..]| ensures Observed(batches[1..][b], n) {
      assert batches[1..][b] == batches[b + 1];
    }
  }

  /** Batches delivered one after another over the page's lifetime. */
  function DeliverAll(attrs: seq<Option<string>>, batches: seq<seq<Entry>>): (r: Outcome)
    requires AllObserved(batches, |attrs|)
    ensures |r.attrs| == |attrs|
    decreases |batches|
  {
    if |batches| == 0 then Outcome(attrs, [])
    else
      var first := Deliver(attrs, batches[0]);
      var rest := DeliverAll(first.attrs, batches[1..]);
      Outcome(rest.attrs, first.animated + rest.animated)
  }

  /** Some entry of some batch reports counter i intersecting. */
  predicate HitAny(batches: seq<seq<Entry>>, i: nat) {
    exists b :: 0 <= b < |batches| && Hit(batches[b], i)
  }

  /** However many batches arrive, `animate` runs at most once per counter
      (exactly once when it was unlatched and reported intersecting), and
      the latch, once set, stays set. */
  lemma {:induction false} AnimateAtMostOnce(attrs: seq<Option<string>>, batches: seq<seq<Entry>>, i: nat)
    requires AllObserved(batches, |attrs|)
    requires i < |attrs|
    ensures multiset(DeliverAll(attrs, batches).animated)[i] ==
      if !Done(attrs[i]) && HitAny(batches, i) then 1 else 0
    ensures Done(DeliverAll(attrs, batches).attrs[i]) <==> Done(attrs[i]) || HitAny(batches, i)
    decreases |batches|
  {
    if |batches| > 0 {
      var first := Deliver(attrs, batches[0]);
      DeliverLatch(attrs, batches[0], i);
      DeliverAnimatesOnce(attrs, batches[0], i);
      AllObservedTail(batches, |attrs|);
      AnimateAtMostOnce(first.attrs, batches[1..], i);
      var rest := DeliverAll(first.attrs, batches[1..]);
      assert multiset(first.animated + rest.animated) == multiset(first.animated) + multiset(rest.animated);
      assert HitAny(batches, i) <==> Hit(batches[0], i) || HitAny(batches[1..], i) by {
        if HitAny(batches, i) && !Hit(batches[0], i) {
          var b :| 0 <= b < |batches| && Hit(batches[b], i);
          assert batches[1..][b - 1] == batches[b];
        }
        if HitAny(batches[1..], i) {
          var b :| 0 <= b < |batches[1..]| && Hit(batches[1..][b], i);
          assert batches[b + 1] == batches[1..][b];
        }
      }
    }
  }
}
