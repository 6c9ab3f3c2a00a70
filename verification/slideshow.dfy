/** The slideshow: a play/pause flag backed by an interval timer whose every
    tick steps to the next record. Time itself is not modelled: a tick is
    an event that occurs only while an interval is stored. */
module Slideshow {
  import opened Model
  import opened Navigation

  /** Starts the slideshow. Refused with fewer than two images; otherwise
      sets the flag and stores a freshly issued interval handle. Only ever
      reached from the play/pause toggle while paused. */
  function StartSlideshow(s: State): (r: State)
    requires Valid(s) && !s.isSlideshowPlaying
    ensures Valid(r)
    ensures |s.images| < 2 ==> r == s && !r.isSlideshowPlaying
    ensures |s.images| >= 2 ==>
      && r.isSlideshowPlaying
      && r.slideshowInterval == Some(s.nextHandle)
      && r.nextHandle == s.nextHandle + 1
    ensures r == s.(isSlideshowPlaying := r.isSlideshowPlaying,
                    slideshowInterval := r.slideshowInterval, nextHandle := r.nextHandle)
  {
    if |s.images| < 2 then s
    else
      s.(isSlideshowPlaying := true,
         slideshowInterval := Some(s.nextHandle),
         nextHandle := s.nextHandle + 1)
  }

  /** Stops the slideshow, whatever its state, and clears the stored
      interval so that no further tick occurs. */
  function StopSlideshow(s: State): (r: State)
    requires Valid(s)
    ensures Valid(r)
    ensures !r.isSlideshowPlaying && r.slideshowInterval == None
    ensures r == s.(isSlideshowPlaying := false, slideshowInterval := None)
  {
    var r := s.(isSlideshowPlaying := false);
    if r.slideshowInterval.Some? then r.(slideshowInterval := None) else r
  }

  /** The play/pause action: stops a running slideshow, starts a paused one. */
  function ToggleSlideshow(s: State): (r: State)
    requires Valid(s)
    ensures Valid(r)
    ensures |s.images| < 2 ==> r == s
    ensures |s.images| >= 2 ==> r.isSlideshowPlaying == !s.isSlideshowPlaying
    ensures r.images == s.images && r.currentIndex == s.currentIndex && r.shown == s.shown
    ensures r == s.(isSlideshowPlaying := r.isSlideshowPlaying,
                    slideshowInterval := r.slideshowInterval, nextHandle := r.nextHandle)
  {
    if s.isSlideshowPlaying then StopSlideshow(s) else StartSlideshow(s)
  }

  /** One firing of the slideshow interval: while playing it is exactly a
      step to the next record; with no interval stored nothing fires. */
  function SlideshowTick(s: State): (r: State)
    requires Valid(s)
    ensures Valid(r) && r.images == s.images
    ensures s.isSlideshowPlaying ==> r == NavigateToNext(s)
    ensures !s.isSlideshowPlaying ==> r == s
  {
    if s.slideshowInterval.Some? then NavigateToNext(s) else s
  }

  /** Pressing play/pause twice from paused returns to the same state, up to
      the handle counter having moved past the interval that was cleared. */
  lemma ToggleTwice(s: State)
    requires Valid(s) && !s.isSlideshowPlaying
    ensures |s.images| >= 2 ==> ToggleSlideshow(ToggleSlideshow(s)) == s.(nextHandle := s.nextHandle + 1)
    ensures |s.images| < 2 ==> ToggleSlideshow(ToggleSlideshow(s)) == s
  {
  }

  /** The state after `n` ticks. */
  function Ticks(s: State, n: nat): (r: State)
    requires Valid(s)
    ensures Valid(r)
    decreases n
  {
    if n == 0 then s else SlideshowTick(Ticks(s, n - 1))
  }

  /** A tick of a running slideshow steps forward and leaves it running. */
  lemma TickWhilePlaying(s: State)
    requires Valid(s) && s.isSlideshowPlaying
    ensures SlideshowTick(s) == NavigateToNext(s)
    ensures SlideshowTick(s).isSlideshowPlaying
  {
  }

  /** While playing, `n` ticks are `n` steps forward, and the slideshow is
      still playing afterwards. */
  lemma {:induction false} TicksAreNextSteps(s: State, n: nat)
    requires Valid(s) && s.isSlideshowPlaying
    ensures Ticks(s, n) == NextTimes(s, n)
    ensures Ticks(s, n).isSlideshowPlaying
    decreases n
  {
    if n > 0 {
      var m: nat := n - 1;
      TicksAreNextSteps(s, m);
      var p := Ticks(s, m);
      TickWhilePlaying(p);
      assert Ticks(s, n) == SlideshowTick(p);
      assert NextTimes(s, n) == NavigateToNext(NextTimes(s, m));
    }
  }

  /** A running slideshow shows, after `n` ticks, the record `n` places
      further on, wrapping around the list. */
  lemma SlideshowCycles(s: State, n: nat)
    requires Valid(s) && s.isSlideshowPlaying
    ensures Ticks(s, n).currentIndex == (s.currentIndex + n) % |s.images|
  {
    TicksAreNextSteps(s, n);
    NextTimesVisitsInOrder(s, n);
  }
}
