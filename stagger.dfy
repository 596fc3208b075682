/**
 * The stagger of the current text splitter's reveal: when the element's
 * `data-ld-stagger` attribute is absent or zero, the observer callback picks
 * one from the number of letter spans, `1 / letters` clamped between a lower
 * and an upper bound, and keeps it for later callbacks. Numbers are modelled
 * as reals.
 */
module Stagger {

  const StaggerMax: real := 0.05
  const StaggerMin: real := 0.005

  /**
   * `Math.min(staggerMax, Math.max(staggerMin, 1 / letters.length))`. With no
   * letters `1 / 0` is positive infinity, so the upper bound is taken.
   * Fewer than 20 letters get the upper bound, more than 200 the lower one,
   * and in between every letter gets an equal share of one second.
   */
  function Clamp(letters: nat): (r: real)
    ensures StaggerMin <= r <= StaggerMax
    ensures letters < 20 ==> r == StaggerMax
    ensures letters > 200 ==> r == StaggerMin
    ensures 20 <= letters <= 200 ==> r * letters as real == 1.0
  {
    if letters == 0 then StaggerMax
    else
      var n := letters as real;
      var share := 1.0 / n;
      assert share * n == 1.0 && share > 0.0;
      assert n < 20.0 ==> share * 20.0 > 1.0;
      assert n > 200.0 ==> share * 200.0 < 1.0;
      var low := if StaggerMin < share then share else StaggerMin;
      if low < StaggerMax then low else StaggerMax
  }

  /** The element's stagger, updated by the observer callback. */
  class Reveal {
    var stagger: real

    /** `parseFloat(element.getAttribute('data-ld-stagger') || '0')`, already parsed. */
    constructor (attribute: real)
      ensures stagger == attribute
    {
      stagger := attribute;
    }

    /**
     * One observer entry for an element with `letters` letter spans: a zero
     * stagger is replaced by the clamped share, any other is kept, so the
     * first callback fixes it for good.
     */
    method OnEntry(letters: nat)
      modifies this
      ensures old(stagger) == 0.0 ==> stagger == Clamp(letters)
      ensures old(stagger) != 0.0 ==> stagger == old(stagger)
      ensures stagger != 0.0
    {
      if stagger == 0.0 {
        stagger := Clamp(letters);
      }
    }
  }
}
