# Gallery viewer, early image-only revision: a Dafny model

`app.js` defines one class, `GalleryApp`, which runs an in-browser image
viewer. The user drops files onto a surface. Every image file is decoded
into a data URL and appended to a list of records. The current record is
shown in a main image element, above a strip of thumbnails in which the
current one is marked active. The user moves between records in several
ways:

- by clicking a thumbnail or the previous/next buttons;
- with the arrow keys;
- with a horizontal swipe;
- with a slideshow that steps forward on every interval tick.

The thumbnail strip and the navigation buttons (the "chrome") appear when
the pointer enters the surface. They are hidden by a deferred timer when it
leaves.

This project models that class as an event-driven state machine over one
immutable record, `Model.State`. It holds:

- the fields of the object: `images`, `currentIndex`, `isSlideshowPlaying`,
  `slideshowInterval`, `hoverTimeout` and `touchStartX`;
- the parts of the page the handlers write to: what the main image element
  shows, one `Thumb` per thumbnail element with its `active` flag, and the
  chrome's `visible` flag;
- the timers and readers in flight: the set of hide timers armed and not
  yet fired or cleared, the list of started file readers whose load has not
  yet come, and the counter that issues timer handles.

Every handler is a pure function from a state, and the event's data, to the
next state. Each handler requires the invariant `Model.Valid` and
re-establishes it, and so does every event (`Gallery.Step`):

- `currentIndex` is 0 on an empty list and a position of the list otherwise;
- the slideshow flag agrees with the stored interval, and a slideshow only
  runs over at least two images;
- the strip is `Model.StripFor(images, currentIndex)`: one thumbnail per
  image, in order, with only the current one active;
- the main image shows `images[currentIndex]`, or nothing when the list is
  empty.

`Gallery.Step` dispatches every event the page delivers. `Gallery.Run`
folds a sequence of events. `Gallery.ReachableStatesValid` shows that the
invariant holds in every state reachable from construction.

The modules follow the class's structure:

- `Model`: the state and the invariant;
- `Thumbnails`: `updateGallery` and `updateActiveThumbnail`;
- `Navigation`: `showCurrentImage` and the three navigation methods;
- `Ingestion`: `processFiles` and a reader's `onload`;
- `Slideshow`;
- `Keyboard`;
- `Controls`: `showControls` and `hideControls`;
- `Swipe`: the three touch handlers;
- `Gallery`: event dispatch.

Behaviour of this revision that the model reproduces deliberately:

- Records are appended in the order their readers complete, not in the
  order the files were dropped. `Ingestion.CompletionOrderWins` exhibits
  two files appended in reverse. `Ingestion.DropOrderWhenCompletedInOrder`
  shows that drop order is kept only when the readers happen to complete
  in drop order. Nothing in this revision restores drop order.
- The swipe recogniser tests the stored start position for truthiness. A
  touch that starts at `clientX == 0` therefore never navigates
  (`Swipe.ZeroStartIsInert`).
- `hideControls` overwrites the stored timer handle without clearing the
  timer it replaces. `showControls` clears only the stored timer, so an
  earlier hide timer can still fire after the pointer has come back
  (`Controls.EarlierHideSurvivesShow`). Arming a hide timer never
  cancels a pending one.
- The slideshow is an interval timer, and every tick is exactly one step
  forward, with no check of what was displayed when the timer was armed.

Both operands of `%` in the navigation methods are non-negative in every
valid state. There, JavaScript's truncating remainder and Dafny's Euclidean
one agree, and the model uses the source's formulas unchanged.

## Model

| member | source | states |
|---|---|---|
| Model.InitValid | app.js:2-8 | The freshly constructed state satisfies the invariant: no records, nothing shown, chrome hidden. |
| Model.StripForShape | app.js:88-132 | The expected strip has one thumbnail per image, each carrying that image's source and name, and exactly the one at the current index is active. |
| Model.ValidStrip | app.js:124-131 | In every valid state the strip depicts the list one-to-one, and a thumbnail is active exactly when its position is `currentIndex`. |
| Thumbnails.RebuildIsExpected | app.js:88-111 | Rebuilding the strip from the list and then marking the current record yields exactly the expected strip for the list and index. |
| Thumbnails.RemarkIsExpected | app.js:124-132 | Re-marking any strip that depicts the list gives the expected strip for the new index, whatever the previous marks were. |
| Thumbnails.ActiveCount | app.js:124-132 | A strip whose marks single out `current` has exactly one active thumbnail when `current` is a position of it, and none otherwise. |
| Thumbnails.OneActiveThumbnail | app.js:124-132 | In every valid state with at least one image exactly one thumbnail is active, and it is the one at `currentIndex`; with no image none is. |
| Navigation.ShowCurrentImage | app.js:113-122 | On a non-empty list the main image shows `images[currentIndex]` and the strip marks that record, which restores the invariant. On an empty list nothing changes. Only the display changes. |
| Navigation.NavigateToImage | app.js:134-139 | An index inside the list becomes current and is shown. Any other index leaves the whole state unchanged. Nothing but the index and the display changes. |
| Navigation.NavigateToPrevious | app.js:141-146 | On a non-empty list the index moves back by one, and from the first record to the last. On an empty list it is a no-op. The invariant, so the index range, is kept. |
| Navigation.NavigateToNext | app.js:148-153 | On a non-empty list the index moves forward by one, and from the last record to the first. On an empty list it is a no-op. The invariant is kept. |
| Navigation.WrapBack | app.js:143 | The source's remainder `(i - 1 + n) % n` is `i - 1`, or `n - 1` when `i` is 0. |
| Navigation.WrapForward | app.js:150 | The source's remainder `(i + 1) % n` is `i + 1`, or 0 when `i` is `n - 1`. |
| Navigation.PreviousUndoesNext | app.js:141-153 | Previous after next restores the whole state, for every valid state, including the empty list and a single image. |
| Navigation.NextUndoesPrevious | app.js:141-153 | Next after previous restores the whole state. |
| Navigation.NavigateToCurrentIsIdentity | app.js:134-139 | Jumping to the record already current changes nothing. |
| Navigation.NextTimesVisitsInOrder | app.js:148-153 | `n` steps forward land on record `currentIndex + n` modulo the length of the list. |
| Ingestion.ImageTypeShape | app.js:65 | A file is read exactly when its type is `image/` followed by anything. |
| Ingestion.ImageFiles | app.js:64-65 | The files that get a reader are the image files of the drop, each as often as it occurs, and no other file. |
| Ingestion.ImageFilesAppend | app.js:64-65 | Filtering a concatenation is the concatenation of the filtered parts, so the kept files stay in drop order. |
| Ingestion.AllImagesKept | app.js:64-65 | A drop made only of image files starts a reader for every file, in drop order. |
| Ingestion.ProcessFiles | app.js:63-86 | A drop starts the readers of its image files after those already pending, and changes nothing else. |
| Ingestion.NonImagesIgnored | app.js:65 | A drop with no image file changes nothing at all. |
| Thumbnails.UpdateGallery | app.js:88-111 | After a rebuild the strip is the expected one for the list and index, and nothing else changes. |
| Ingestion.ReaderLoad | app.js:68-81 | A completing reader appends exactly one record, at the end. It leaves `currentIndex` and the earlier records unchanged and removes the reader from the pending ones. When the record is the first, it is shown at index 0. Otherwise the display is unchanged. A reader that is not pending changes nothing. |
| Ingestion.ReaderLoadConservesFiles | app.js:64-83 | No completion loses or invents a file: loaded names plus pending names form the same multiset before and after. |
| Ingestion.ReverseCompletion | app.js:68-81 | With two readers pending, completing the second first appends the two records in reverse order. |
| Ingestion.CompletionOrderWins | app.js:63-86 | Two image files dropped together whose readers complete in reverse order end up in reverse drop order. |
| Ingestion.InOrderCompletionKeepsOrder | app.js:63-86 | Readers completing oldest first append their records in the order the readers were started. |
| Ingestion.InOrderCompletionDisplay | app.js:77-80 | Such completions keep the current index, and on an empty gallery they display the first completed record. |
| Ingestion.DropOrderWhenCompletedInOrder | app.js:63-86 | A drop on a gallery with no pending reader, completed in drop order, appends one record per file in drop order and shows the first file on an empty gallery. |
| Slideshow.StartSlideshow | app.js:163-173 | With fewer than two images starting is refused and leaves the state unchanged. Otherwise the slideshow plays under a freshly issued interval handle. |
| Slideshow.StopSlideshow | app.js:175-184 | Stopping always yields not playing with no interval stored, and changes nothing else. |
| Slideshow.ToggleSlideshow | app.js:155-161 | With at least two images the play flag flips. With fewer, nothing changes. The records, index and display never change, nor does anything outside the slideshow fields and the handle counter. |
| Slideshow.SlideshowTick | app.js:170-172 | A tick while playing is exactly a step to the next record. With no interval stored nothing happens. |
| Slideshow.ToggleTwice | app.js:155-184 | Play then pause restores the state, up to the handle counter. |
| Slideshow.TickWhilePlaying | app.js:170-172 | A tick of a running slideshow steps forward and leaves it running. |
| Slideshow.TicksAreNextSteps | app.js:170-172 | `n` ticks of a running slideshow are `n` steps forward, and it keeps running. |
| Slideshow.SlideshowCycles | app.js:148-172 | After `n` ticks the current record is `currentIndex + n` modulo the length of the list. |
| Keyboard.HandleKeyDown | app.js:186-205 | With no images every key is a no-op. Otherwise ArrowLeft is previous, ArrowRight is next and Space is play/pause, and every other key changes nothing. |
| Keyboard.ArrowKeysInverse | app.js:190-198 | Left after right, and right after left, restore the state. |
| Keyboard.SingleImageKeysInert | app.js:188-202 | With exactly one image no key has any effect. |
| Controls.ShowControls | app.js:207-216 | The chrome becomes visible, and only the hide timer whose handle is stored is cleared. |
| Controls.HideControls | app.js:218-224 | A new hide timer is armed and its handle replaces the stored one. No earlier timer is cleared, and visibility is unchanged. |
| Controls.FireHideTimer | app.js:220-223 | A pending hide timer hides the chrome when it fires. A cleared or unknown handle does nothing. |
| Controls.ReenterCancelsHide | app.js:207-224 | Leaving then re-entering clears the timer just armed, so its firing leaves the chrome visible. |
| Controls.EarlierHideSurvivesShow | app.js:207-224 | After two leaves and one enter, the first hide timer is still pending, and its firing hides the chrome although the pointer is back. |
| Swipe.HandleTouchStart | app.js:227-229 | A touch start stores the finger's position, keeps the invariant and changes nothing else. |
| Swipe.HandleTouchMove | app.js:231-246 | A move navigates only when the recogniser is armed with a truthy start and the finger is more than 50 px away. A positive start-minus-position steps forward, and a negative one steps back. Firing disarms the recogniser. |
| Swipe.HandleTouchEnd | app.js:248-250 | A touch end disarms the recogniser, keeps the invariant and changes nothing else. |
| Swipe.MoveNavigatesIffFires | app.js:231-246 | With at least two images, a move changes the current record if and only if it fires. |
| Swipe.ZeroStartIsInert | app.js:232 | A touch that started at x = 0 never navigates. |
| Swipe.DisarmedIgnoresMoves | app.js:231-246 | A disarmed recogniser ignores every run of moves. |
| Swipe.AtMostOneSwipe | app.js:231-250 | One touch yields at most one navigation, however far the finger travels. |
| Gallery.HandleDrop | app.js:54-61 | A drop with no file changes nothing. Otherwise readers are started for its image files. |
| Gallery.Step | app.js:26-47 | Every event keeps the invariant. Only a reader completion changes the image list, by appending its record. |
| Gallery.Run | app.js:26-47 | Every run of events keeps the invariant, and the records present at its start stay in place as a prefix. |
| Gallery.ReachableStatesValid | app.js:2-13 | Every state reachable from construction satisfies the invariant. |
| Gallery.RunGrowth | app.js:26-47 | A run adds at most one record per event. |

## Left out

- The DOM is not modelled: element lookup, listener wiring, `preventDefault`, `stopPropagation` and the `DOMContentLoaded` bootstrap (app.js:15-52, app.js:254-256). Each listener appears only as the event it delivers in `Gallery.Event`.
- `FileReader` and data-URL decoding are not modelled. A data URL is an opaque string. A load completion is an event naming a pending reader, and the readers may complete in any order. The source installs no error handler, so a failed read never completes.
- Real time is not modelled: the 3000 ms interval and the 1000 ms hide delay. A tick and a hide-timer firing are events. A tick can only occur while an interval is stored.
- Button label text and CSS classes are not modelled beyond the `active` and `visible` flags. Neither are the main image's `display` style, the `dataset.index` attribute, or the chrome's two separate elements, which are always shown and hidden together.
- Timer handles are assumed never to be reused: the model draws the handles of `setTimeout` and `setInterval` from one counter that only grows (`Model.Handle`, `nextHandle`). Browsers only promise a handle that is not currently active, and the source never resets `hoverTimeout` after its timer fires. If a fired hide timer's handle were reused for a later slideshow interval, re-entering the surface would clear that interval, and the slideshow would stop advancing while `isSlideshowPlaying` stays true. `Model.TimersValid` and the frame of `Controls.ShowControls` rest on this assumption, and the model does not cover that case.
- Swipe.HandleTouchMove: `clientX` is modelled as an integer, while browsers deliver a floating-point number. Only the sign and the distance compared with 50 matter here.
- Slideshow.StartSlideshow: requires the slideshow to be paused. The source only calls it from the play/pause toggle in that case, and a second call while playing would leak an interval timer that is not modelled.
- The handlers require the state invariant. They are only ever applied to states reachable from construction, and `Gallery.ReachableStatesValid` shows that every such state satisfies it.
- Zoom and pan, pinch, video records and record removal do not exist in this revision and are not modelled.
