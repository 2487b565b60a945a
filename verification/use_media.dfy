/**
 * The visibility rule of the `useMedia` hook (src/hooks/useMedia.native.ts): whether the
 * screen lies within a media query's bounds, and when a change event recomputes it.
 */
module UseMedia {
  import opened Wrappers
  import opened Styles
  import opened MediaQuery

  /** Screen dimensions; never negative. */
  datatype Screen = Screen(width: nat, height: nat)

  /** `a <= b` on bounds, with +Infinity above every integer. */
  predicate NumLe(a: Num, b: Num)
  {
    b.PosInfinity? || (a.Finite? && a.n <= b.n)
  }

  /** No present minimum exceeds its present maximum. */
  predicate IsValidMq(mq: ParsedMq)
  {
    && (mq.minWidth.Some? && mq.maxWidth.Some? ==> NumLe(mq.minWidth.value, mq.maxWidth.value))
    && (mq.minHeight.Some? && mq.maxHeight.Some? ==> NumLe(mq.minHeight.value, mq.maxHeight.value))
  }

  /** `x` respects a lower and an upper bound, either of which may be undefined. */
  predicate Within(x: int, lo: Option<Num>, hi: Option<Num>)
  {
    && (lo.None? || NumLe(lo.value, Finite(x)))
    && (hi.None? || NumLe(Finite(x), hi.value))
  }

  /**
   * Whether content guarded by a query is shown. `parsed` is None when the string is not a
   * media query at all; an invalid query and a screen outside any present bound hide it.
   */
  function ComputeIsVisible(parsed: Option<ParsedMq>, screen: Screen): (r: bool)
    ensures parsed.None? ==> !r
    ensures parsed.Some? && !IsValidMq(parsed.value) ==> !r
    ensures parsed.Some? && IsValidMq(parsed.value) ==>
      (r <==> Within(screen.width, parsed.value.minWidth, parsed.value.maxWidth)
              && Within(screen.height, parsed.value.minHeight, parsed.value.maxHeight))
  {
    if parsed.None? then false
    else
      var mq := parsed.value;
      if !IsValidMq(mq) then false
      else if mq.minWidth.Some? && BelowMin(screen.width, mq.minWidth.value) then false
      else if mq.maxWidth.Some? && AboveMax(screen.width, mq.maxWidth.value) then false
      else if mq.minHeight.Some? && BelowMin(screen.height, mq.minHeight.value) then false
      else if mq.maxHeight.Some? && AboveMax(screen.height, mq.maxHeight.value) then false
      else true
  }

  /** `x < min`; every integer is below +Infinity. */
  predicate BelowMin(x: int, min: Num)
  {
    min.PosInfinity? || x < min.n
  }

  /** `x > max`; no integer is above +Infinity. */
  predicate AboveMax(x: int, max: Num)
  {
    max.Finite? && x > max.n
  }

  /**
   * The visibility after a change event: recomputed when the changed dependencies include
   * the breakpoints, kept otherwise.
   */
  function VisibilityAfterChange(dependencies: seq<Dependency>, isVisible: bool, parsed: Option<ParsedMq>, screen: Screen): (r: bool)
    ensures Breakpoints !in dependencies ==> r == isVisible
    ensures Breakpoints in dependencies ==> r == ComputeIsVisible(parsed, screen)
  {
    if Breakpoints in dependencies then ComputeIsVisible(parsed, screen) else isVisible
  }

  /** Dropping a bound never hides content that was shown. */
  lemma DroppingBoundKeepsVisible(mq: ParsedMq, screen: Screen)
    requires ComputeIsVisible(Some(mq), screen)
    ensures ComputeIsVisible(Some(mq.(minWidth := None)), screen)
    ensures ComputeIsVisible(Some(mq.(maxWidth := None)), screen)
    ensures ComputeIsVisible(Some(mq.(minHeight := None)), screen)
    ensures ComputeIsVisible(Some(mq.(maxHeight := None)), screen)
  {
  }

  /**
   * A width-only query built by `mq.only.width` shows content exactly when its bounds are
   * ordered and the screen width lies between them, inclusive, whatever the height.
   */
  lemma OnlyWidthVisibility(wMin: MQArg, wMax: MQArg, breakpoints: map<string, int>, screen: Screen)
    ensures var lo, hi := MinBound(wMin, breakpoints), MaxBound(wMax, breakpoints);
      (ComputeIsVisible(DecodeMq(OnlyWidth(wMin, wMax, breakpoints)), screen)
       <==> NumLe(lo, hi) && NumLe(lo, Finite(screen.width)) && NumLe(Finite(screen.width), hi))
  {
    OnlyWidthRoundTrip(wMin, wMax, breakpoints);
  }

  /** With the default bounds, `mq.only.width()` shows content on every screen. */
  lemma DefaultWidthAlwaysVisible(breakpoints: map<string, int>, screen: Screen)
    ensures ComputeIsVisible(DecodeMq(OnlyWidth(Undefined, Undefined, breakpoints)), screen)
  {
    assert MinBound(Undefined, breakpoints) == Finite(0);
    assert MaxBound(Undefined, breakpoints) == PosInfinity;
    OnlyWidthVisibility(Undefined, Undefined, breakpoints, screen);
  }
}
