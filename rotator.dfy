/**
  The hero carousel of js/hero-rotator.js as an object: the closure variables
  `currentIndex`, `isPaused` and `timerId` become fields, and so do the parts of
  the page the component writes (the hero's background and the dots' "active"
  class) and the host's interval table. Event listeners and interval callbacks
  become method calls.
 */
module Rotator {
  import opened Wrappers
  import opened Slides
  import opened Carousel

  class HeroRotator {
    /** The resolved slide list; fixed after initialisation. */
    const images: seq<string>
    /** One "active" flag per dot, created once, in slide order. */
    const dots: array<bool>

    var currentIndex: int
    var isPaused: bool
    /** The id returned by the running interval's `setInterval`, or null. */
    var timerId: Option<nat>

    /** The hero's `style.backgroundImage`. */
    var background: string

    /** Intervals this component has scheduled with the host and not cleared. */
    var liveIntervals: set<nat>
    /** The host's next interval id; browsers hand out positive ids. */
    var nextIntervalId: nat

    /** The interval table holds exactly the interval `timerId` names. */
    ghost predicate TimerConsistent()
      reads this
    {
      && nextIntervalId >= 1
      && liveIntervals == (if timerId.Some? then {timerId.value} else {})
      && (timerId.Some? ==> 1 <= timerId.value < nextIntervalId)
    }

    /** The state invariant: a non-empty list, one dot per slide, an index in
        range and a consistent timer. */
    ghost predicate StateValid()
      reads this
    {
      && |images| > 0
      && dots.Length == |images|
      && 0 <= currentIndex < |images|
      && TimerConsistent()
    }

    /** The page shows the current slide and only its dot is active. */
    ghost predicate Rendered()
      reads this, dots
      requires StateValid()
    {
      && background == BackgroundFor(images[currentIndex])
      && dots[..] == ActiveFlags(|images|, currentIndex)
    }

    ghost predicate Valid()
      reads this, dots
      ensures Valid() ==> |liveIntervals| <= 1
    {
      StateValid() && Rendered()
    }

    /** At most one timer runs, and `Running` means exactly one. */
    ghost predicate Running()
      reads this
    {
      timerId.Some? && |liveIntervals| == 1
    }

    /** Lines 36-50 and 111-112: index 0, unpaused, one dot per slide, then
        render and start the timer. */
    constructor (images: seq<string>)
      requires |images| > 0
      ensures Valid() && fresh(dots)
      ensures this.images == images
      ensures currentIndex == 0 && !isPaused && Running()
    {
      this.images := images;
      dots := new bool[|images|];
      currentIndex := 0;
      isPaused := false;
      timerId := None;
      background := "";
      liveIntervals := {};
      nextIntervalId := 1;
      new;
      Render();
      StartTimer();
    }

    /** Sets the background to the current slide, clears every dot, then marks
        the current one. Depends on the index alone, so a second call changes
        nothing. */
    method Render()
      requires StateValid()
      modifies this`background, dots
      ensures StateValid() && Rendered()
      ensures old(Rendered()) ==> background == old(background) && dots[..] == old(dots[..])
    {
      background := BackgroundFor(images[currentIndex]);
      var i := 0;
      while i < dots.Length
        invariant 0 <= i <= dots.Length
        invariant forall j :: 0 <= j < i ==> !dots[j]
        invariant background == BackgroundFor(images[currentIndex])
      {
        dots[i] := false;
        i := i + 1;
      }
      if currentIndex < dots.Length {
        dots[currentIndex] := true;
      }
      assert dots[..] == ActiveFlags(|images|, currentIndex);
    }

    /** Clears the running interval, if any; a no-op when already stopped. */
    method StopTimer()
      requires Valid()
      modifies this`timerId, this`liveIntervals
      ensures Valid()
      ensures timerId == None && liveIntervals == {}
    {
      if timerId.Some? {
        liveIntervals := liveIntervals - {timerId.value};
        timerId := None;
      }
    }

    /** Stops any running interval, then schedules a new one. */
    method StartTimer()
      requires Valid()
      modifies this`timerId, this`liveIntervals, this`nextIntervalId
      ensures Valid() && Running()
      ensures old(nextIntervalId) !in old(liveIntervals)
      ensures timerId == Some(old(nextIntervalId)) && liveIntervals == {old(nextIntervalId)}
    {
      StopTimer();
      var id := nextIntervalId;
      nextIntervalId := nextIntervalId + 1;
      liveIntervals := liveIntervals + {id};
      timerId := Some(id);
    }

    method RestartTimer()
      requires Valid()
      modifies this`timerId, this`liveIntervals, this`nextIntervalId
      ensures Valid() && Running()
      ensures old(nextIntervalId) !in old(liveIntervals)
      ensures timerId == Some(old(nextIntervalId)) && liveIntervals == {old(nextIntervalId)}
    {
      StopTimer();
      StartTimer();
    }

    /** Normalises the index with `(index + n) % n`, renders, and restarts the
        timer only for a user action. Callers pass the current index plus or
        minus one, or a dot's index, so `index >= -n` always holds. */
    method GoToSlide(index: int, userAction: bool)
      requires Valid() && index >= -|images|
      modifies this`currentIndex, this`background, dots
      modifies this`timerId, this`liveIntervals, this`nextIntervalId
      ensures Valid()
      ensures currentIndex == WrapIndex(index, |images|) == index % |images|
      ensures userAction ==> Running() && timerId == Some(old(nextIntervalId)) && old(nextIntervalId) !in old(liveIntervals)
      ensures !userAction ==> timerId == old(timerId) && liveIntervals == old(liveIntervals)
                              && nextIntervalId == old(nextIntervalId)
    {
      WrapIndexInRange(index, |images|);
      currentIndex := JsRemainder(index + |images|, |images|);
      Render();
      if userAction {
        RestartTimer();
      }
    }

    method NextSlide(userAction: bool)
      requires Valid()
      modifies this`currentIndex, this`background, dots
      modifies this`timerId, this`liveIntervals, this`nextIntervalId
      ensures Valid()
      ensures currentIndex == NextIndex(old(currentIndex), |images|)
      ensures userAction ==> Running() && timerId == Some(old(nextIntervalId)) && old(nextIntervalId) !in old(liveIntervals)
      ensures !userAction ==> timerId == old(timerId) && liveIntervals == old(liveIntervals)
                              && nextIntervalId == old(nextIntervalId)
    {
      GoToSlide(currentIndex + 1, userAction);
    }

    method PrevSlide(userAction: bool)
      requires Valid()
      modifies this`currentIndex, this`background, dots
      modifies this`timerId, this`liveIntervals, this`nextIntervalId
      ensures Valid()
      ensures currentIndex == PrevIndex(old(currentIndex), |images|)
      ensures userAction ==> Running() && timerId == Some(old(nextIntervalId)) && old(nextIntervalId) !in old(liveIntervals)
      ensures !userAction ==> timerId == old(timerId) && liveIntervals == old(liveIntervals)
                              && nextIntervalId == old(nextIntervalId)
    {
      GoToSlide(currentIndex - 1, userAction);
    }

    /** The click listener of dot `i` (lines 44-46): a user action. */
    method ClickDot(i: int)
      requires Valid() && 0 <= i < |images|
      modifies this`currentIndex, this`background, dots
      modifies this`timerId, this`liveIntervals, this`nextIntervalId
      ensures Valid() && Running()
      ensures currentIndex == i && dots[i]
      ensures timerId == Some(old(nextIntervalId)) && old(nextIntervalId) !in old(liveIntervals)
    {
      GoToSlide(i, true);
      ModUnique(i, |images|, 0, i);
      assert dots[..][i] == ActiveFlags(|images|, i)[i];
    }

    /** The callback of live interval `id`: advances one slide unless paused,
        as a non-user action, so the timer is left as it is. */
    method Tick(id: nat)
      requires Valid() && id in liveIntervals
      modifies this`currentIndex, this`background, dots
      modifies this`timerId, this`liveIntervals, this`nextIntervalId
      ensures Valid()
      ensures timerId == old(timerId) && liveIntervals == old(liveIntervals)
              && nextIntervalId == old(nextIntervalId)
      ensures old(isPaused) ==> currentIndex == old(currentIndex)
                                && background == old(background) && dots[..] == old(dots[..])
      ensures !old(isPaused) ==> currentIndex == NextIndex(old(currentIndex), |images|)
    {
      if !isPaused {
        NextSlide(false);
      }
    }

    /** The mouseenter, mouseleave, focusin and focusout listeners (lines
        105-108): each assigns the flag, so the last event wins. */
    method HandlePauseEvent(e: PauseEvent)
      requires Valid()
      modifies this`isPaused
      ensures Valid()
      ensures isPaused == PausesOn(e)
    {
      isPaused := e == MouseEnter || e == FocusIn;
    }
  }

  /** Initialisation after the hero is found (lines 11-50, 111-112): resolve the
      slide list and, when it is empty, stop there: no state, no dots, no timer. */
  method Init(attrs: HeroAttributes) returns (rotator: Option<HeroRotator>)
    ensures rotator.None? <==> ResolveSlides(attrs) == []
    ensures rotator.Some? ==>
              && fresh(rotator.value) && fresh(rotator.value.dots)
              && rotator.value.Valid()
              && rotator.value.images == ResolveSlides(attrs)
              && rotator.value.currentIndex == 0 && !rotator.value.isPaused
              && rotator.value.Running()
  {
    var images := BuildImageList(attrs);
    if |images| == 0 {
      return None;
    }
    var r := new HeroRotator(images);
    rotator := Some(r);
  }
}
