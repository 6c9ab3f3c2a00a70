/** The document-wide key handler: three keys mapped to the three semantic
    actions, all keys ignored while there is nothing to show. */
module Keyboard {
  import opened Model
  import opened Navigation
  import opened Slideshow

  const ArrowLeft: string := "ArrowLeft"
  const ArrowRight: string := "ArrowRight"
  const Space: string := " "

  function HandleKeyDown(s: State, key: string): (r: State)
    requires Valid(s)
    ensures Valid(r) && r.images == s.images
    ensures |s.images| == 0 ==> r == s
    ensures |s.images| > 0 && key == ArrowLeft ==> r == NavigateToPrevious(s)
    ensures |s.images| > 0 && key == ArrowRight ==> r == NavigateToNext(s)
    ensures |s.images| > 0 && key == Space ==> r == ToggleSlideshow(s)
    ensures key != ArrowLeft && key != ArrowRight && key != Space ==> r == s
  {
    if |s.images| == 0 then s
    else if key == ArrowLeft then NavigateToPrevious(s)
    else if key == ArrowRight then NavigateToNext(s)
    else if key == Space then ToggleSlideshow(s)
    else s
  }

  /** The arrow keys undo each other: left after right, and right after
      left, restore the state. */
  lemma ArrowKeysInverse(s: State)
    requires Valid(s)
    ensures HandleKeyDown(HandleKeyDown(s, ArrowRight), ArrowLeft) == s
    ensures HandleKeyDown(HandleKeyDown(s, ArrowLeft), ArrowRight) == s
  {
    PreviousUndoesNext(s);
    NextUndoesPrevious(s);
  }

  /** With a single image no key has any effect: the arrows wrap onto the
      same record and the slideshow refuses to start. */
  lemma SingleImageKeysInert(s: State, key: string)
    requires Valid(s) && |s.images| == 1
    ensures HandleKeyDown(s, key) == s
  {
  }
}
