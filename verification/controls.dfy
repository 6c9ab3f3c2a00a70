/** Visibility of the chrome (thumbnail strip and navigation buttons):
    shown at once when the pointer enters, hidden by a deferred timer when
    it leaves. Only the most recently stored hide timer can be cancelled. */
module Controls {
  import opened Model

  /** Pointer enters: the chrome becomes visible and the stored hide timer,
      if any, is cleared. The stored handle itself is left in place. */
  function ShowControls(s: State): (r: State)
    requires Valid(s)
    ensures Valid(r)
    ensures r.controlsVisible
    ensures s.hoverTimeout.Some? ==> r.pendingHides == s.pendingHides - {s.hoverTimeout.value}
    ensures s.hoverTimeout.None? ==> r.pendingHides == s.pendingHides
    ensures r == s.(controlsVisible := true, pendingHides := r.pendingHides)
  {
    var cleared := if s.hoverTimeout.Some? then s.pendingHides - {s.hoverTimeout.value} else s.pendingHides;
    s.(pendingHides := cleared, controlsVisible := true)
  }

  /** Pointer leaves: a new hide timer is armed and its handle replaces the
      stored one; no earlier timer is cleared and visibility is unchanged
      until a timer fires. */
  function HideControls(s: State): (r: State)
    requires Valid(s)
    ensures Valid(r)
    ensures r.hoverTimeout == Some(s.nextHandle) && s.nextHandle !in s.pendingHides
    ensures r.pendingHides == s.pendingHides + {s.nextHandle}
    ensures r.controlsVisible == s.controlsVisible
    ensures r == s.(hoverTimeout := r.hoverTimeout, pendingHides := r.pendingHides, nextHandle := r.nextHandle)
  {
    s.(hoverTimeout := Some(s.nextHandle),
       pendingHides := s.pendingHides + {s.nextHandle},
       nextHandle := s.nextHandle + 1)
  }

  /** Hide timer `h` fires. A timer that was armed and not cleared hides the
      chrome; a cleared, fired or never-armed handle does nothing. */
  function FireHideTimer(s: State, h: Handle): (r: State)
    requires Valid(s)
    ensures Valid(r)
    ensures h in s.pendingHides ==> !r.controlsVisible && r.pendingHides == s.pendingHides - {h}
    ensures h !in s.pendingHides ==> r == s
    ensures r == s.(controlsVisible := r.controlsVisible, pendingHides := r.pendingHides)
  {
    if h in s.pendingHides then s.(controlsVisible := false, pendingHides := s.pendingHides - {h})
    else s
  }

  /** Leaving and re-entering before the timer fires keeps the chrome
      visible: the timer armed on leaving is the one re-entering clears. */
  lemma ReenterCancelsHide(s: State)
    requires Valid(s)
    ensures var h := s.nextHandle;
      var r := ShowControls(HideControls(s));
      h !in r.pendingHides && FireHideTimer(r, h) == r && r.controlsVisible
  {
  }

  /** Two leaves in a row arm two timers but store only the second handle,
      so re-entering clears only the second: the first still fires and
      hides the chrome although the pointer is back. */
  lemma EarlierHideSurvivesShow(s: State)
    requires Valid(s)
    ensures var first := s.nextHandle;
      var r := ShowControls(HideControls(HideControls(s)));
      r.controlsVisible && first in r.pendingHides && !FireHideTimer(r, first).controlsVisible
  {
  }
}
