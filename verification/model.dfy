/** The fields of the gallery application object, as one immutable record,
    and the invariant that every event handler preserves.

    Elements of the page (the main image, the thumbnail strip, the chrome)
    are represented only by the parts the handlers change: what the main
    image shows, one record per thumbnail with its `active` flag, and the
    `visible` flag of the chrome. */
module Model {

  datatype Option<T> = None | Some(value: T)

  /** A decoded image: the data URL its reader produced and the file name. */
  datatype Image = Image(src: string, name: string)

  /** One thumbnail element: its source, its alt text and whether it
      carries the `active` class. */
  datatype Thumb = Thumb(src: string, alt: string, active: bool)

  /** A dropped file as the handlers see it: its name and declared media
      type. Its bytes only matter through the data URL its reader yields. */
  datatype DroppedFile = DroppedFile(name: string, mimeType: string)

  /** Handles returned by `setTimeout` and `setInterval`: positive integers
      drawn from one counter, so a stored handle is always truthy. */
  type Handle = h: int | h >= 1 witness 1

  datatype State = State(
    images: seq<Image>,
    currentIndex: int,
    shown: Option<Image>,              // what the main image element displays
    thumbnails: seq<Thumb>,
    isSlideshowPlaying: bool,
    slideshowInterval: Option<Handle>,
    controlsVisible: bool,
    hoverTimeout: Option<Handle>,
    pendingHides: set<Handle>,         // hide timers armed, not fired, not cleared
    touchStartX: Option<int>,          // None stands for both undefined and null
    pendingReads: seq<DroppedFile>,    // readers started whose load has not come
    nextHandle: Handle)

  /** The state right after construction: nothing loaded, nothing shown,
      no timer armed, chrome hidden. */
  function Init(): State {
    State([], 0, None, [], false, None, false, None, {}, None, [], 1)
  }

  function Abs(x: int): nat {
    if x < 0 then -x else x
  }

  /** A thumbnail element depicts an image when it shows its source and
      carries its name as alt text. */
  predicate Depicts(t: Thumb, img: Image) {
    t.src == img.src && t.alt == img.name
  }

  /** `currentIndex` is 0 on an empty list and a valid position otherwise. */
  predicate IndexValid(s: State) {
    if |s.images| == 0 then s.currentIndex == 0
    else 0 <= s.currentIndex < |s.images|
  }

  /** One thumbnail per image, in the same order. */
  predicate StripMatches(s: State) {
    && |s.thumbnails| == |s.images|
    && forall i :: 0 <= i < |s.thumbnails| ==> Depicts(s.thumbnails[i], s.images[i])
  }

  /** The strip as it must look for a given list and current index: one
      thumbnail per image, in order, only the current one active. */
  function StripFor(images: seq<Image>, current: int): seq<Thumb>
  {
    seq(|images|, i requires 0 <= i < |images| => Thumb(images[i].src, images[i].name, i == current))
  }

  /** The expected strip has one thumbnail per image, each depicting its
      image, and only the one at `current` is active. */
  lemma StripForShape(images: seq<Image>, current: int)
    ensures |StripFor(images, current)| == |images|
    ensures forall i :: 0 <= i < |images| ==>
      Depicts(StripFor(images, current)[i], images[i]) && (StripFor(images, current)[i].active <==> i == current)
  {
  }

  /** A strip with the expected elements and active marks is the expected
      strip. */
  lemma StripForUnique(thumbs: seq<Thumb>, images: seq<Image>, current: int)
    requires |thumbs| == |images|
    requires forall i :: 0 <= i < |thumbs| ==> Depicts(thumbs[i], images[i]) && (thumbs[i].active <==> i == current)
    ensures thumbs == StripFor(images, current)
  {
    var r := StripFor(images, current);
    forall i | 0 <= i < |thumbs|
      ensures thumbs[i] == r[i]
    {
    }
  }

  /** The main image element shows the current record, or nothing when the
      list is empty. */
  predicate ShownIsCurrent(s: State)
    requires IndexValid(s)
  {
    if |s.images| == 0 then s.shown == None
    else s.shown == Some(s.images[s.currentIndex])
  }

  /** The slideshow flag and its interval handle agree, a slideshow only
      runs over at least two images, and every stored or pending handle was
      issued before `nextHandle`. */
  predicate TimersValid(s: State) {
    && (s.isSlideshowPlaying <==> s.slideshowInterval.Some?)
    && (s.isSlideshowPlaying ==> |s.images| >= 2)
    && (s.slideshowInterval.Some? ==> s.slideshowInterval.value < s.nextHandle)
    && (s.hoverTimeout.Some? ==> s.hoverTimeout.value < s.nextHandle)
    && (forall h :: h in s.pendingHides ==> h < s.nextHandle)
    && (s.slideshowInterval.Some? ==> s.slideshowInterval.value !in s.pendingHides)
  }

  /** Everything of the invariant that does not depend on which record was
      last displayed: what holds between changing `currentIndex` and the
      call that redisplays. */
  predicate Displayable(s: State) {
    IndexValid(s) && StripMatches(s) && TimersValid(s)
  }

  /** The invariant of every reachable state: the index is valid, the
      timers are consistent, and the strip and the main image show the
      list and its current record. */
  predicate Valid(s: State) {
    && IndexValid(s)
    && TimersValid(s)
    && s.thumbnails == StripFor(s.images, s.currentIndex)
    && ShownIsCurrent(s)
  }

  /** In a valid state the strip has one thumbnail per image, and exactly
      the thumbnail at `currentIndex` is marked active. */
  lemma ValidStrip(s: State)
    requires Valid(s)
    ensures StripMatches(s) && Displayable(s)
    ensures forall i :: 0 <= i < |s.thumbnails| ==> (s.thumbnails[i].active <==> i == s.currentIndex)
  {
  }

  lemma InitValid()
    ensures Valid(Init())
    ensures Init().images == [] && Init().shown == None && !Init().controlsVisible
  {
  }
}
