/** The gallery application as one event-driven state machine: every page
    event the handlers listen to, dispatched to its handler, and runs of
    events from the freshly constructed state. */
module Gallery {
  import opened Model
  import opened Navigation
  import opened Ingestion
  import opened Slideshow
  import opened Keyboard
  import opened Controls
  import opened Swipe

  /** The events the application reacts to. A reader completion names the
      pending reader by position; a hide-timer firing names its handle. */
  datatype Event =
    | Dropped(files: seq<DroppedFile>)
    | Loaded(reader: nat, dataUrl: string)
    | ThumbnailClicked(index: int)
    | PrevClicked
    | NextClicked
    | PlayPauseClicked
    | KeyPressed(key: string)
    | IntervalFired
    | MouseEntered
    | MouseLeft
    | HideTimerFired(handle: Handle)
    | TouchStarted(x: int)
    | TouchMoved(x: int)
    | TouchEnded

  /** A drop with no files does nothing; otherwise its files are processed. */
  function HandleDrop(s: State, files: seq<DroppedFile>): (r: State)
    requires Valid(s)
    ensures Valid(r)
    ensures r.pendingReads == s.pendingReads + ImageFiles(files)
    ensures r == s.(pendingReads := r.pendingReads)
  {
    if |files| > 0 then ProcessFiles(s, files) else s
  }

  /** One event. Every event keeps the invariant, and only the completion
      of a pending reader changes the image list, by appending its record. */
  function Step(s: State, e: Event): (r: State)
    requires Valid(s)
    ensures Valid(r)
    ensures !e.Loaded? ==> r.images == s.images
    ensures e.Loaded? && e.reader < |s.pendingReads| ==>
      r.images == s.images + [Image(e.dataUrl, s.pendingReads[e.reader].name)]
    ensures e.Loaded? && e.reader >= |s.pendingReads| ==> r == s
  {
    match e
    case Dropped(files) => HandleDrop(s, files)
    case Loaded(k, dataUrl) => ReaderLoad(s, k, dataUrl)
    case ThumbnailClicked(i) => NavigateToImage(s, i)
    case PrevClicked => NavigateToPrevious(s)
    case NextClicked => NavigateToNext(s)
    case PlayPauseClicked => ToggleSlideshow(s)
    case KeyPressed(key) => HandleKeyDown(s, key)
    case IntervalFired => SlideshowTick(s)
    case MouseEntered => ShowControls(s)
    case MouseLeft => HideControls(s)
    case HideTimerFired(h) => FireHideTimer(s, h)
    case TouchStarted(x) => HandleTouchStart(s, x)
    case TouchMoved(x) => HandleTouchMove(s, x)
    case TouchEnded => HandleTouchEnd(s)
  }

  /** A run of events. The invariant holds after every run, and the records
      present at its start are still there, in place. */
  function Run(s: State, events: seq<Event>): (r: State)
    requires Valid(s)
    ensures Valid(r)
    ensures s.images <= r.images
    decreases |events|
  {
    if events == [] then s else Run(Step(s, events[0]), events[1..])
  }

  /** Every state the application can reach from construction satisfies the
      invariant: in particular `currentIndex` is 0 on an empty list and a
      valid position otherwise, and the displayed image is the current one. */
  lemma ReachableStatesValid(events: seq<Event>)
    ensures Valid(Run(Init(), events))
  {
    InitValid();
  }

  /** No event sequence ever shrinks the image list: a run adds at most one
      record per event. */
  lemma {:induction false} RunGrowth(s: State, events: seq<Event>)
    requires Valid(s)
    ensures |Run(s, events).images| <= |s.images| + |events|
    decreases |events|
  {
    if events != [] {
      RunGrowth(Step(s, events[0]), events[1..]);
    }
  }
}
