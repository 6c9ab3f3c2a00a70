/** The single-finger swipe recogniser: a touch start arms it with the
    finger's horizontal position, a move more than 50 pixels away fires one
    navigation and disarms it, a touch end disarms it. */
module Swipe {
  import opened Model
  import opened Navigation

  const SwipeThreshold: nat := 50

  /** The recogniser reacts to moves only when a start position is stored
      and it is truthy: a touch that started at x = 0 is treated as not
      started at all. */
  predicate Armed(s: State) {
    s.touchStartX.Some? && s.touchStartX.value != 0
  }

  /** Whether a move to `x` fires a navigation. */
  predicate Fires(s: State, x: int) {
    Armed(s) && Abs(s.touchStartX.value - x) > SwipeThreshold
  }

  function HandleTouchStart(s: State, x: int): (r: State)
    requires Valid(s)
    ensures Valid(r)
    ensures r.touchStartX == Some(x)
    ensures r == s.(touchStartX := r.touchStartX)
  {
    s.(touchStartX := Some(x))
  }

  /** A move to `x`: a finger that travelled left (start minus `x` positive)
      steps forward, one that travelled right steps back, and either way
      the recogniser is disarmed. */
  function HandleTouchMove(s: State, x: int): (r: State)
    requires Valid(s)
    ensures Valid(r) && r.images == s.images
    ensures !Fires(s, x) ==> r == s
    ensures Fires(s, x) && s.touchStartX.value - x > 0 ==>
      r == NavigateToNext(s).(touchStartX := None)
    ensures Fires(s, x) && s.touchStartX.value - x < 0 ==>
      r == NavigateToPrevious(s).(touchStartX := None)
  {
    if s.touchStartX.None? || s.touchStartX.value == 0 then s
    else
      var diff := s.touchStartX.value - x;
      if Abs(diff) > SwipeThreshold then
        var moved := if diff > 0 then NavigateToNext(s) else NavigateToPrevious(s);
        moved.(touchStartX := None)
      else s
  }

  function HandleTouchEnd(s: State): (r: State)
    requires Valid(s)
    ensures Valid(r)
    ensures r.touchStartX.None?
    ensures r == s.(touchStartX := r.touchStartX)
  {
    s.(touchStartX := None)
  }

  /** With at least two images a move changes the displayed record exactly
      when it fires. */
  lemma MoveNavigatesIffFires(s: State, x: int)
    requires Valid(s) && |s.images| >= 2
    ensures HandleTouchMove(s, x).currentIndex != s.currentIndex <==> Fires(s, x)
  {
  }

  /** A touch that started at x = 0 never navigates, however far it moves. */
  lemma ZeroStartIsInert(s: State, x: int)
    requires Valid(s) && s.touchStartX == Some(0)
    ensures HandleTouchMove(s, x) == s
  {
  }

  /** The state after a run of moves within one touch. */
  function Moves(s: State, xs: seq<int>): (r: State)
    requires Valid(s)
    ensures Valid(r)
    decreases |xs|
  {
    if xs == [] then s else Moves(HandleTouchMove(s, xs[0]), xs[1..])
  }

  /** How many moves of such a run fire a navigation. */
  function FireCount(s: State, xs: seq<int>): nat
    requires Valid(s)
    decreases |xs|
  {
    if xs == [] then 0
    else (if Fires(s, xs[0]) then 1 else 0) + FireCount(HandleTouchMove(s, xs[0]), xs[1..])
  }

  /** A disarmed recogniser ignores every run of moves. */
  lemma {:induction false} DisarmedIgnoresMoves(s: State, xs: seq<int>)
    requires Valid(s) && !Armed(s)
    ensures Moves(s, xs) == s
    ensures FireCount(s, xs) == 0
    decreases |xs|
  {
    if xs != [] {
      assert HandleTouchMove(s, xs[0]) == s;
      DisarmedIgnoresMoves(s, xs[1..]);
    }
  }

  /** One touch yields at most one navigation, however far and however
      often the finger crosses the threshold before the next touch start. */
  lemma {:induction false} AtMostOneSwipe(s: State, xs: seq<int>)
    requires Valid(s)
    ensures FireCount(s, xs) <= 1
    decreases |xs|
  {
    if xs != [] {
      var t := HandleTouchMove(s, xs[0]);
      if Fires(s, xs[0]) {
        assert !Armed(t);
        DisarmedIgnoresMoves(t, xs[1..]);
      } else {
        assert t == s;
        AtMostOneSwipe(s, xs[1..]);
      }
    }
  }
}
