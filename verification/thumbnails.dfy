/** The thumbnail strip: rebuilding it from the image list and marking the
    thumbnail of the current record active. */
module Thumbnails {
  import opened Model

  /** The strip rebuilt from scratch, one fresh thumbnail per image in list
      order; a fresh thumbnail is not yet active. */
  function BuildStrip(images: seq<Image>): seq<Thumb>
  {
    seq(|images|, i requires 0 <= i < |images| => Thumb(images[i].src, images[i].name, false))
  }

  /** Marks the thumbnail at `current` active and every other one inactive. */
  function UpdateActiveThumbnail(thumbs: seq<Thumb>, current: int): seq<Thumb>
  {
    seq(|thumbs|, i requires 0 <= i < |thumbs| => thumbs[i].(active := i == current))
  }

  /** Re-marking a strip that depicts the list, one thumbnail per image,
      yields the expected strip for the new current index, whatever the
      marks were before. */
  lemma RemarkIsExpected(thumbs: seq<Thumb>, images: seq<Image>, current: int)
    requires |thumbs| == |images|
    requires forall i :: 0 <= i < |thumbs| ==> Depicts(thumbs[i], images[i])
    ensures UpdateActiveThumbnail(thumbs, current) == StripFor(images, current)
  {
    StripForUnique(UpdateActiveThumbnail(thumbs, current), images, current);
  }

  /** Rebuilding the strip and then marking the current record yields the
      expected strip. */
  lemma RebuildIsExpected(images: seq<Image>, current: int)
    ensures UpdateActiveThumbnail(BuildStrip(images), current) == StripFor(images, current)
  {
    RemarkIsExpected(BuildStrip(images), images, current);
  }

  /** Rebuilds the thumbnail strip from the image list and marks the
      current record's thumbnail active. */
  function UpdateGallery(s: State): (r: State)
    requires IndexValid(s) && TimersValid(s)
    ensures Displayable(r)
    ensures r.thumbnails == StripFor(s.images, s.currentIndex)
    ensures r == s.(thumbnails := r.thumbnails)
  {
    RebuildIsExpected(s.images, s.currentIndex);
    s.(thumbnails := UpdateActiveThumbnail(BuildStrip(s.images), s.currentIndex))
  }

  /** How many thumbnails of a strip carry the `active` class. */
  function CountActive(thumbs: seq<Thumb>): nat
    decreases |thumbs|
  {
    if thumbs == [] then 0
    else CountActive(thumbs[..|thumbs| - 1]) + (if thumbs[|thumbs| - 1].active then 1 else 0)
  }

  /** When a strip's active marks single out position `current`, the strip
      holds exactly one active thumbnail if `current` is a position of it
      and none otherwise. */
  lemma {:induction false} ActiveCount(thumbs: seq<Thumb>, current: int)
    requires forall i :: 0 <= i < |thumbs| ==> (thumbs[i].active <==> i == current)
    ensures CountActive(thumbs) == if 0 <= current < |thumbs| then 1 else 0
    decreases |thumbs|
  {
    if thumbs != [] {
      var init := thumbs[..|thumbs| - 1];
      assert forall i :: 0 <= i < |init| ==> init[i] == thumbs[i];
      ActiveCount(init, current);
    }
  }

  /** In every valid state with at least one image, exactly one thumbnail
      is active, and it is the one at `currentIndex`. */
  lemma OneActiveThumbnail(s: State)
    requires Valid(s)
    ensures CountActive(s.thumbnails) == if |s.images| == 0 then 0 else 1
    ensures |s.images| > 0 ==> s.thumbnails[s.currentIndex].active
  {
    ValidStrip(s);
    ActiveCount(s.thumbnails, s.currentIndex);
  }
}
