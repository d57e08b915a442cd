/** The smooth scroll that brings a section's command into view: scrollToSection decides
    whether to scroll and where to, stopScrollAnimation stops it, and animateOneFrame
    moves the terminal body SCROLL_SPEED pixels per animation frame. Geometry is in
    whole pixels. */
module Scroll {

  /** Pixels scrolled per animation frame. */
  const SCROLL_SPEED: int := 3

  /** The gap left between the top of the body and the command once scrolled. */
  const TOP_MARGIN: int := 10

  function Max(a: int, b: int): int
  {
    if a >= b then a else b
  }

  function Min(a: int, b: int): int
  {
    if a <= b then a else b
  }

  /** What scrollToSection finds: no section, a section without a `.command`, or the
      top of the section's command on the screen. */
  datatype SectionLookup = NoSection | NoCommand | CommandAt(commandTop: int)

  /** The command lies below the line two thirds of the way down the body. */
  predicate InLowerThird(commandTop: int, bodyTop: int, bodyHeight: int)
  {
    3 * (commandTop - bodyTop) > 2 * bodyHeight
  }

  /** The scroll position at which the command stands TOP_MARGIN pixels below the top
      of the body. */
  function TargetScroll(scrollTop: int, commandTop: int, bodyTop: int): (t: int)
    ensures commandTop - (t - scrollTop) == bodyTop + TOP_MARGIN
  {
    scrollTop + commandTop - bodyTop - TOP_MARGIN
  }

  /** The state the scroll animation works on: the shared `isScrolling` flag, whether an
      animation frame is requested and not cancelled, the body's `scrollTop`, and the
      running animation's target and previous position (-1 before its first frame). */
  datatype ScrollState = ScrollState(
    isScrolling: bool, frameRequested: bool, scrollTop: int, target: int, previous: int)

  /** One run of animateOneFrame, with `maxScroll` the body's scrollable height at that
      frame. It stops when stopped from outside, within one pixel of the target, or at
      the bottom; it stops when the position did not move since the last frame;
      otherwise it records the position, scrolls (the browser keeps `scrollTop` within
      `maxScroll`) and requests the next frame. */
  function FrameStep(s: ScrollState, maxScroll: int): (r: ScrollState)
    ensures r.target == s.target
    ensures r.frameRequested ==>
      r.isScrolling && r.previous == s.scrollTop && r.scrollTop == Min(s.scrollTop + SCROLL_SPEED, maxScroll)
    ensures !r.frameRequested ==> !r.isScrolling && r.scrollTop == s.scrollTop && r.previous == s.previous
    ensures r.frameRequested <==>
      s.isScrolling && s.target - s.scrollTop > 1 && s.scrollTop < maxScroll &&
      (s.previous != s.scrollTop || s.previous == -1)
  {
    var current := s.scrollTop;
    var remaining := s.target - current;
    if !s.isScrolling || remaining <= 1 || current >= maxScroll then
      s.(isScrolling := false, frameRequested := false)
    else if s.previous == current && s.previous != -1 then
      s.(isScrolling := false, frameRequested := false)
    else
      s.(previous := current, scrollTop := Min(current + SCROLL_SPEED, maxScroll), frameRequested := true)
  }

  /** What stays true of a running animation: the position only ever grew since the last
      frame. */
  predicate Moving(s: ScrollState)
  {
    s.previous == -1 || s.previous < s.scrollTop
  }

  /** Frames left, at most: the pending frame plus one per pixel still to go. */
  function Measure(s: ScrollState): nat
  {
    (if s.frameRequested then 1 else 0) + Max(0, s.target - s.scrollTop)
  }

  /** A frame either ends the animation or moves the position forward, by SCROLL_SPEED
      unless the bottom is nearer, never past one pixel beyond the target; either way
      fewer frames remain. The stall check never fires while the position grows. */
  lemma FrameProgress(s: ScrollState, maxScroll: int)
    requires s.frameRequested && Moving(s)
    ensures Measure(FrameStep(s, maxScroll)) < Measure(s)
    ensures Moving(FrameStep(s, maxScroll))
    ensures var r := FrameStep(s, maxScroll);
      r.frameRequested ==>
        (r.isScrolling && r.scrollTop == Min(s.scrollTop + SCROLL_SPEED, maxScroll) &&
         s.scrollTop < r.scrollTop <= s.target + 1)
    ensures var r := FrameStep(s, maxScroll);
      !r.frameRequested ==>
        (!r.isScrolling && r.scrollTop == s.scrollTop &&
         (!s.isScrolling || s.scrollTop >= s.target - 1 || s.scrollTop >= maxScroll))
  {
  }

  /** The animation driven to its end, with the same scrollable height at every frame. */
  function Settle(s: ScrollState, maxScroll: int): (r: ScrollState)
    requires Moving(s)
    ensures !r.frameRequested && Moving(r)
    decreases Measure(s)
  {
    if !s.frameRequested then s
    else
      FrameProgress(s, maxScroll);
      Settle(FrameStep(s, maxScroll), maxScroll)
  }

  /** The number of frames the animation runs. */
  function FrameCount(s: ScrollState, maxScroll: int): nat
    requires Moving(s)
    decreases Measure(s)
  {
    if !s.frameRequested then 0
    else
      FrameProgress(s, maxScroll);
      1 + FrameCount(FrameStep(s, maxScroll), maxScroll)
  }

  /** A started animation always ends: within one pixel of its target or at the bottom
      (unless it is stopped), never more than one pixel past the target. It runs one
      frame per SCROLL_SPEED pixels of distance (rounded) plus the frame that stops it,
      and so at most one frame per pixel of distance plus one. */
  lemma {:induction false} AnimationEnds(s: ScrollState, maxScroll: int)
    requires Moving(s) && s.frameRequested && s.isScrolling
    ensures var r := Settle(s, maxScroll);
      !r.isScrolling && r.target == s.target &&
      (r.scrollTop >= s.target - 1 || r.scrollTop >= maxScroll) &&
      r.scrollTop <= Max(s.scrollTop, s.target + 1) && s.scrollTop <= r.scrollTop
    ensures FrameCount(s, maxScroll) <= (Max(0, s.target - s.scrollTop) + 1) / SCROLL_SPEED + 1
    ensures FrameCount(s, maxScroll) <= Measure(s)
    decreases Measure(s)
  {
    FrameProgress(s, maxScroll);
    var s' := FrameStep(s, maxScroll);
    if s'.frameRequested {
      AnimationEnds(s', maxScroll);
      if s'.scrollTop == maxScroll {
        FrameProgress(s', maxScroll);
        assert FrameCount(s', maxScroll) == 1;
      }
    }
  }

  /** The scroll animation's variables and the terminal body's scroll position. */
  class ScrollController {
    var isScrolling: bool
    var frameRequested: bool
    var scrollTop: int
    var targetScroll: int
    var previousScrollTop: int

    function State(): ScrollState
      reads this
    {
      ScrollState(isScrolling, frameRequested, scrollTop, targetScroll, previousScrollTop)
    }

    constructor (initialScrollTop: int)
      ensures State() == ScrollState(false, false, initialScrollTop, 0, -1)
    {
      isScrolling := false;
      frameRequested := false;
      scrollTop := initialScrollTop;
      targetScroll := 0;
      previousScrollTop := -1;
    }

    /** stopScrollAnimation: clear the flag and cancel the pending frame. */
    method StopScrollAnimation()
      modifies this
      ensures State() == old(State()).(isScrolling := false, frameRequested := false)
    {
      isScrolling := false;
      if frameRequested {
        frameRequested := false;
      }
    }

    /** scrollToSection. Without a section nothing happens, not even a stop; otherwise
        the running animation stops, and a new one starts only for a command in the lower
        third of the body, aimed at TargetScroll. */
    method ScrollToSection(lookup: SectionLookup, bodyTop: int, bodyHeight: int)
      modifies this
      ensures lookup.NoSection? ==> State() == old(State())
      ensures !lookup.NoSection? ==> scrollTop == old(scrollTop)
      ensures isScrolling <==>
        (if lookup.NoSection? then old(isScrolling)
         else lookup.CommandAt? && InLowerThird(lookup.commandTop, bodyTop, bodyHeight))
      ensures frameRequested <==>
        (if lookup.NoSection? then old(frameRequested) else isScrolling)
      ensures !lookup.NoSection? && isScrolling ==>
        targetScroll == TargetScroll(scrollTop, lookup.commandTop, bodyTop) && previousScrollTop == -1
      ensures !lookup.NoSection? && !isScrolling ==>
        targetScroll == old(targetScroll) && previousScrollTop == old(previousScrollTop)
    {
      if lookup.NoSection? {
        return;
      }
      StopScrollAnimation();
      if lookup.NoCommand? {
        return;
      }
      var commandTop := lookup.commandTop;
      if InLowerThird(commandTop, bodyTop, bodyHeight) {
        targetScroll := TargetScroll(scrollTop, commandTop, bodyTop);
        previousScrollTop := -1;
        isScrolling := true;
        frameRequested := true;
      }
    }

    /** animateOneFrame, run by the browser for the requested frame; `maxScroll` is
        `scrollHeight - clientHeight` at that moment. */
    method AnimateOneFrame(maxScroll: int)
      requires frameRequested
      modifies this
      ensures State() == FrameStep(old(State()), maxScroll)
    {
      frameRequested := false;
      var currentScroll := scrollTop;
      var remainingDistance := targetScroll - currentScroll;
      if !isScrolling || remainingDistance <= 1 || currentScroll >= maxScroll {
        isScrolling := false;
        return;
      }
      if previousScrollTop == currentScroll && previousScrollTop != -1 {
        isScrolling := false;
        return;
      }
      previousScrollTop := currentScroll;
      scrollTop := Min(currentScroll + SCROLL_SPEED, maxScroll);
      frameRequested := true;
    }
  }
}
