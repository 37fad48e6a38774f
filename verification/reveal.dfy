/** `revealOnScroll` of js/scroll-effects.js.

    The `.animate-on-scroll` elements are numbered; `visible[i]` is whether
    element i carries the `visible` class.  Each call is given the geometry
    of the moment: `tops[i]`, the top of element i's bounding box (a
    fractional pixel value), and the viewport's `innerHeight`. */
module Reveal {

  /** How far above the bottom of the viewport an element's top must be. */
  const Margin := 100

  /** The threshold test of one element. */
  predicate Passes(top: real, windowHeight: int) {
    top < (windowHeight - Margin) as real
  }

  /** One call: each element that passes gains `visible`; nothing loses it. */
  function RevealOnScroll(visible: seq<bool>, tops: seq<real>, windowHeight: int): (r: seq<bool>)
    requires |tops| == |visible|
    ensures |r| == |visible|
    ensures forall i :: 0 <= i < |r| ==> (r[i] <==> visible[i] || Passes(tops[i], windowHeight))
    decreases |visible|
  {
    if |visible| == 0 then []
    else [visible[0] || Passes(tops[0], windowHeight)] + RevealOnScroll(visible[1..], tops[1..], windowHeight)
  }

  /** The visible class as a set of element numbers. */
  function VisibleSet(visible: seq<bool>): set<nat> {
    set i: nat | i < |visible| && visible[i]
  }

  /** The visible set only grows, by exactly the elements that pass. */
  lemma RevealGrows(visible: seq<bool>, tops: seq<real>, windowHeight: int)
    requires |tops| == |visible|
    ensures VisibleSet(visible) <= VisibleSet(RevealOnScroll(visible, tops, windowHeight))
    ensures VisibleSet(RevealOnScroll(visible, tops, windowHeight)) ==
      VisibleSet(visible) + (set i: nat | i < |tops| && Passes(tops[i], windowHeight))
  {
  }

  /** An element that fails the threshold and was not visible is untouched. */
  lemma FailingUnchanged(visible: seq<bool>, tops: seq<real>, windowHeight: int, i: nat)
    requires |tops| == |visible| && i < |visible|
    requires !visible[i] && !Passes(tops[i], windowHeight)
    ensures !RevealOnScroll(visible, tops, windowHeight)[i]
  {
  }

  /** Running the function twice with the same geometry is running it once. */
  lemma RevealIdempotent(visible: seq<bool>, tops: seq<real>, windowHeight: int)
    requires |tops| == |visible|
    ensures RevealOnScroll(RevealOnScroll(visible, tops, windowHeight), tops, windowHeight)
         == RevealOnScroll(visible, tops, windowHeight)
  {
  }

  /** The geometry seen by one scroll or load event. */
  datatype Frame = Frame(tops: seq<real>, windowHeight: int)

  predicate Fits(frames: seq<Frame>, n: nat) {
    forall k :: 0 <= k < |frames| ==> |frames[k].tops| == n
  }

  /** Dropping the first frame keeps the rest fitting. */
  lemma FitsTail(frames: seq<Frame>, n: nat)
    requires |frames| > 0 && Fits(frames, n)
    ensures Fits(frames[1..], n)
  {
    forall k | 0 <= k < |frames[1..]| ensures |frames[1..][k].tops| == n {
      assert frames[1..][k] == frames[k + 1];
    }
  }

  /** The listener run once per scroll or load event. */
  function Scroll(visible: seq<bool>, frames: seq<Frame>): (r: seq<bool>)
    requires Fits(frames, |visible|)
    ensures |r| == |visible|
    ensures forall i :: 0 <= i < |visible| && visible[i] ==> r[i]
    decreases |frames|
  {
    if |frames| == 0 then visible
    else
      FitsTail(frames, |visible|);
      Scroll(RevealOnScroll(visible, frames[0].tops, frames[0].windowHeight), frames[1..])
  }

  /** Element i passed the threshold in some frame. */
  predicate EverPassed(frames: seq<Frame>, i: nat) {
    exists k :: 0 <= k < |frames| && i < |frames[k].tops| &&
      Passes(frames[k].tops[i], frames[k].windowHeight)
  }

  /** After any sequence of events an element is visible exactly when it was
      visible at the start or passed the threshold in some frame; so the
      visible set never shrinks. */
  lemma {:induction false} ScrollMonotone(visible: seq<bool>, frames: seq<Frame>)
    requires Fits(frames, |visible|)
    ensures forall i :: 0 <= i < |visible| ==>
      (Scroll(visible, frames)[i] <==> visible[i] || EverPassed(frames, i))
    ensures VisibleSet(visible) <= VisibleSet(Scroll(visible, frames))
    decreases |frames|
  {
    if |frames| > 0 {
      var f := frames[0];
      var v := RevealOnScroll(visible, f.tops, f.windowHeight);
      FitsTail(frames, |visible|);
      ScrollMonotone(v, frames[1..]);
      forall i | 0 <= i < |visible|
        ensures EverPassed(frames, i) <==> Passes(f.tops[i], f.windowHeight) || EverPassed(frames[1..], i)
      {
        if EverPassed(frames, i) && !Passes(f.tops[i], f.windowHeight) {
          var k :| 0 <= k < |frames| && i < |frames[k].tops| && Passes(frames[k].tops[i], frames[k].windowHeight);
          assert frames[1..][k - 1] == frames[k];
        }
        if EverPassed(frames[1..], i) {
          var k :| 0 <= k < |frames[1..]| && i < |frames[1..][k].tops| &&
            Passes(frames[1..][k].tops[i], frames[1..][k].windowHeight);
          assert frames[k + 1] == frames[1..][k];
        }
      }
    }
  }
}
