/** Turning dropped files into image records: the media-type filter that
    starts one reader per image file, and the completion of one reader,
    which appends its record to the list. */
module Ingestion {
  import opened Model
  import opened Thumbnails
  import opened Navigation

  predicate StartsWith(s: string, prefix: string) {
    |prefix| <= |s| && s[..|prefix|] == prefix
  }

  /** A file is read only when its declared type begins with `image/`. */
  predicate IsImageType(mimeType: string) {
    StartsWith(mimeType, "image/")
  }

  /** The prefix test accepts exactly the types of the form `image/...`. */
  lemma ImageTypeShape(mimeType: string)
    ensures IsImageType(mimeType) <==> exists rest :: mimeType == "image/" + rest
  {
    if IsImageType(mimeType) {
      var rest := mimeType[6..];
      assert mimeType == "image/" + rest;
    }
    if exists rest :: mimeType == "image/" + rest {
      var rest :| mimeType == "image/" + rest;
      assert mimeType[..6] == "image/";
    }
  }

  /** The files for which a reader is started, in the order they were
      dropped: every image file, as often as it occurs, and nothing else. */
  function ImageFiles(files: seq<DroppedFile>): (r: seq<DroppedFile>)
    ensures |r| <= |files|
    ensures forall f :: f in r ==> IsImageType(f.mimeType)
    ensures forall f :: multiset(r)[f] == if IsImageType(f.mimeType) then multiset(files)[f] else 0
    decreases |files|
  {
    if files == [] then []
    else
      var rest := ImageFiles(files[1..]);
      assert files == [files[0]] + files[1..];
      if IsImageType(files[0].mimeType) then [files[0]] + rest else rest
  }

  /** Filtering a concatenation filters each part and keeps them in
      order: the filter never reorders the files it keeps. */
  lemma {:induction false} ImageFilesAppend(a: seq<DroppedFile>, b: seq<DroppedFile>)
    ensures ImageFiles(a + b) == ImageFiles(a) + ImageFiles(b)
    decreases |a|
  {
    if a == [] {
      assert a + b == b;
    } else {
      assert (a + b)[0] == a[0];
      assert (a + b)[1..] == a[1..] + b;
      ImageFilesAppend(a[1..], b);
    }
  }

  /** A drop made only of image files starts a reader for every file, in
      drop order. */
  lemma {:induction false} AllImagesKept(files: seq<DroppedFile>)
    requires forall f :: f in files ==> IsImageType(f.mimeType)
    ensures ImageFiles(files) == files
    decreases |files|
  {
    if files != [] {
      assert forall f :: f in files[1..] ==> f in files;
      AllImagesKept(files[1..]);
      assert files == [files[0]] + files[1..];
    }
  }

  /** A drop: one reader is started for each image file, and nothing else
      changes until a reader completes. */
  function ProcessFiles(s: State, files: seq<DroppedFile>): (r: State)
    requires Valid(s)
    ensures Valid(r)
    ensures r == s.(pendingReads := r.pendingReads)
    ensures |s.pendingReads| <= |r.pendingReads|
    ensures r.pendingReads[..|s.pendingReads|] == s.pendingReads
    ensures r.pendingReads[|s.pendingReads|..] == ImageFiles(files)
  {
    s.(pendingReads := s.pendingReads + ImageFiles(files))
  }

  /** A drop of files none of which is an image changes nothing at all. */
  lemma NonImagesIgnored(s: State, files: seq<DroppedFile>)
    requires Valid(s)
    requires forall f :: f in files ==> !IsImageType(f.mimeType)
    ensures ProcessFiles(s, files) == s
  {
  }

  /** The pending reads without the one at position `k`. */
  function RemoveAt(xs: seq<DroppedFile>, k: nat): (r: seq<DroppedFile>)
    requires k < |xs|
    ensures |r| == |xs| - 1
    ensures multiset(r) + multiset{xs[k]} == multiset(xs)
  {
    assert xs == xs[..k] + [xs[k]] + xs[k + 1..];
    xs[..k] + xs[k + 1..]
  }

  /** The reader of pending file `k` completes with data URL `dataUrl`: its
      record is appended at the end of the list, the gallery is rebuilt,
      and the record is shown if it is the first one. Readers complete in
      any order, so records are appended in completion order, not in the
      order the files were dropped. A `k` naming no pending reader is an
      event that cannot occur and changes nothing. */
  function ReaderLoad(s: State, k: nat, dataUrl: string): (r: State)
    requires Valid(s)
    ensures Valid(r)
    ensures k >= |s.pendingReads| ==> r == s
    ensures k < |s.pendingReads| ==>
      && r.images == s.images + [Image(dataUrl, s.pendingReads[k].name)]
      && r.currentIndex == s.currentIndex
      && r.pendingReads == s.pendingReads[..k] + s.pendingReads[k + 1..]
      && (|s.images| == 0 ==> r.currentIndex == 0 && r.shown == Some(r.images[0]))
      && (|s.images| > 0 ==> r.shown == s.shown)
    ensures r == s.(images := r.images, pendingReads := r.pendingReads,
                    thumbnails := r.thumbnails, shown := r.shown)
  {
    if k < |s.pendingReads| then
      var file := s.pendingReads[k];
      var pushed := s.(images := s.images + [Image(dataUrl, file.name)],
                       pendingReads := RemoveAt(s.pendingReads, k));
      var updated := UpdateGallery(pushed);
      if |updated.images| == 1 then ShowCurrentImage(updated) else updated
    else s
  }

  /** The file names a sequence of records or pending files carries, in
      order. */
  function ImageNames(images: seq<Image>): seq<string>
    decreases |images|
  {
    if images == [] then [] else [images[0].name] + ImageNames(images[1..])
  }

  function FileNames(files: seq<DroppedFile>): seq<string>
    decreases |files|
  {
    if files == [] then [] else [files[0].name] + FileNames(files[1..])
  }

  lemma {:induction false} ImageNamesAppend(x: seq<Image>, y: seq<Image>)
    ensures ImageNames(x + y) == ImageNames(x) + ImageNames(y)
    decreases |x|
  {
    if x != [] {
      assert (x + y)[1..] == x[1..] + y;
      ImageNamesAppend(x[1..], y);
    } else {
      assert x + y == y;
    }
  }

  lemma {:induction false} FileNamesAppend(x: seq<DroppedFile>, y: seq<DroppedFile>)
    ensures FileNames(x + y) == FileNames(x) + FileNames(y)
    decreases |x|
  {
    if x != [] {
      assert (x + y)[1..] == x[1..] + y;
      FileNamesAppend(x[1..], y);
    } else {
      assert x + y == y;
    }
  }

  /** Appending a record adds its name to the names of the list. */
  lemma AppendAddsName(images: seq<Image>, img: Image)
    ensures multiset(ImageNames(images + [img])) == multiset(ImageNames(images)) + multiset{img.name}
  {
    ImageNamesAppend(images, [img]);
    assert [img][1..] == [];
  }

  /** Removing pending file `k` removes its name from the names pending. */
  lemma RemoveDropsName(p: seq<DroppedFile>, k: nat)
    requires k < |p|
    ensures multiset(FileNames(p)) == multiset(FileNames(p[..k] + p[k + 1..])) + multiset{p[k].name}
  {
    var before, after := p[..k], p[k + 1..];
    var tail := [p[k]] + after;
    assert p == before + tail;
    assert tail[1..] == after;
    FileNamesAppend(before, tail);
    FileNamesAppend(before, after);
    MultisetInsert(FileNames(before), FileNames(after), p[k].name);
  }

  /** Kept apart from its callers only to keep their proofs small. */
  lemma MultisetInsert(before: seq<string>, after: seq<string>, name: string)
    ensures multiset(before + ([name] + after)) == multiset(before + after) + multiset{name}
  {
  }

  /** Moving pending file `k` to the end of the record list keeps the
      multiset of names. */
  lemma MoveKeepsNames(images: seq<Image>, images': seq<Image>, p: seq<DroppedFile>, p': seq<DroppedFile>, k: nat)
    requires k < |p| && p' == p[..k] + p[k + 1..]
    requires |images'| == |images| + 1 && images'[..|images|] == images
    requires images'[|images|].name == p[k].name
    ensures multiset(ImageNames(images')) + multiset(FileNames(p'))
      == multiset(ImageNames(images)) + multiset(FileNames(p))
  {
    var last := images'[|images|];
    assert images' == images + [last];
    AppendAddsName(images, last);
    RemoveDropsName(p, k);
  }

  /** No reader completion loses or invents a file: the names of loaded
      records together with the names of pending files form the same
      multiset before and after. */
  lemma ReaderLoadConservesFiles(s: State, k: nat, dataUrl: string)
    requires Valid(s)
    ensures var r := ReaderLoad(s, k, dataUrl);
      multiset(ImageNames(r.images)) + multiset(FileNames(r.pendingReads))
      == multiset(ImageNames(s.images)) + multiset(FileNames(s.pendingReads))
  {
    if k < |s.pendingReads| {
      var r := ReaderLoad(s, k, dataUrl);
      MoveKeepsNames(s.images, r.images, s.pendingReads, r.pendingReads, k);
    }
  }

  /** With two readers pending, completing the second before the first
      appends their records in reverse order. */
  lemma ReverseCompletion(s: State, srcA: string, srcB: string)
    requires Valid(s) && |s.pendingReads| == 2
    ensures var a := s.pendingReads[0];
      var b := s.pendingReads[1];
      var r := ReaderLoad(ReaderLoad(s, 1, srcB), 0, srcA);
      r.images == s.images + [Image(srcB, b.name), Image(srcA, a.name)]
      && r.pendingReads == []
  {
    LoadNewest(s, srcB);
    LoadOldest(ReaderLoad(s, 1, srcB), srcA);
    AppendAssoc(s.images, [Image(srcB, s.pendingReads[1].name)], [Image(srcA, s.pendingReads[0].name)]);
  }

  /** Two image files dropped together whose readers complete in reverse
      order are appended in reverse drop order: this revision keeps
      completion order, not drop order. */
  lemma CompletionOrderWins(s: State, a: DroppedFile, b: DroppedFile, srcA: string, srcB: string)
    requires Valid(s) && s.pendingReads == []
    requires IsImageType(a.mimeType) && IsImageType(b.mimeType)
    ensures var s1 := ProcessFiles(s, [a, b]);
      var s3 := ReaderLoad(ReaderLoad(s1, 1, srcB), 0, srcA);
      s3.images == s.images + [Image(srcB, b.name), Image(srcA, a.name)]
      && s3.pendingReads == []
  {
    AllImagesKept([a, b]);
    ReverseCompletion(ProcessFiles(s, [a, b]), srcA, srcB);
  }

  /** The records that readers of `files` completing with `urls` yield,
      in the order of `files`. */
  function Records(files: seq<DroppedFile>, urls: seq<string>): (r: seq<Image>)
    requires |urls| <= |files|
    ensures |r| == |urls|
  {
    seq(|urls|, i requires 0 <= i < |urls| => Image(urls[i], files[i].name))
  }

  /** Kept apart from its callers only to keep their proofs small. */
  lemma AppendAssoc(a: seq<Image>, b: seq<Image>, c: seq<Image>)
    ensures (a + b) + c == a + (b + c)
  {
  }

  /** Completing the most recently started pending reader appends its
      record. */
  lemma LoadNewest(s: State, u: string)
    requires Valid(s) && |s.pendingReads| > 0
    ensures var k := |s.pendingReads| - 1;
      var r := ReaderLoad(s, k, u);
      && r.images == s.images + [Image(u, s.pendingReads[k].name)]
      && r.pendingReads == s.pendingReads[..k]
  {
  }

  /** Completing the oldest pending reader appends its record. */
  lemma LoadOldest(s: State, u: string)
    requires Valid(s) && |s.pendingReads| > 0
    ensures var r := ReaderLoad(s, 0, u);
      && r.images == s.images + [Image(u, s.pendingReads[0].name)]
      && r.pendingReads == s.pendingReads[1..]
      && r.currentIndex == s.currentIndex
      && (s.images != [] ==> r.shown == s.shown)
      && (s.images == [] ==> r.shown == Some(Image(u, s.pendingReads[0].name)))
  {
  }

  /** Appending the first record and then the records of the remaining
      files appends the records of all files. */
  lemma RecordsStep(pre: seq<Image>, files: seq<DroppedFile>, urls: seq<string>, mid: seq<Image>, fin: seq<Image>)
    requires 0 < |urls| <= |files|
    requires mid == pre + [Image(urls[0], files[0].name)]
    requires fin == mid + Records(files[1..], urls[1..])
    ensures fin == pre + Records(files, urls)
  {
    var rec := Image(urls[0], files[0].name);
    var rest := Records(files[1..], urls[1..]);
    assert Records(files, urls) == [rec] + rest;
    AppendAssoc(pre, [rec], rest);
  }

  /** Kept apart from its callers only to keep their proofs small. */
  lemma DropStep(files: seq<DroppedFile>, k: nat)
    requires 0 < k <= |files|
    ensures files[1..][k - 1..] == files[k..]
  {
  }

  /** The state after the oldest pending reader completes with each of
      `urls` in turn. */
  function LoadOldestFirst(s: State, urls: seq<string>): (r: State)
    requires Valid(s) && |urls| <= |s.pendingReads|
    ensures Valid(r)
    decreases |urls|
  {
    if urls == [] then s else LoadOldestFirst(ReaderLoad(s, 0, urls[0]), urls[1..])
  }

  /** When readers happen to complete in the order they were started, the
      records are appended in that order. */
  lemma {:induction false} InOrderCompletionKeepsOrder(s: State, urls: seq<string>)
    requires Valid(s) && |urls| <= |s.pendingReads|
    ensures var r := LoadOldestFirst(s, urls);
      && r.images == s.images + Records(s.pendingReads, urls)
      && r.pendingReads == s.pendingReads[|urls|..]
    decreases |urls|
  {
    if urls != [] {
      var t := ReaderLoad(s, 0, urls[0]);
      var rec := Image(urls[0], s.pendingReads[0].name);
      assert Valid(t) && t.images == s.images + [rec] && t.pendingReads == s.pendingReads[1..] by {
        LoadOldest(s, urls[0]);
      }
      InOrderCompletionKeepsOrder(t, urls[1..]);
      var r := LoadOldestFirst(t, urls[1..]);
      RecordsStep(s.images, s.pendingReads, urls, t.images, r.images);
      DropStep(s.pendingReads, |urls|);
    }
  }

  /** In-order completions leave the current index where it was, and on an
      empty gallery display the first completed record. */
  lemma {:induction false} InOrderCompletionDisplay(s: State, urls: seq<string>)
    requires Valid(s) && |urls| <= |s.pendingReads|
    ensures var r := LoadOldestFirst(s, urls);
      && r.currentIndex == s.currentIndex
      && (s.images == [] && urls != [] ==> r.shown == Some(Image(urls[0], s.pendingReads[0].name)))
      && (s.images != [] ==> r.shown == s.shown)
    decreases |urls|
  {
    if urls != [] {
      var t := ReaderLoad(s, 0, urls[0]);
      var rec := Image(urls[0], s.pendingReads[0].name);
      assert Valid(t) && t.images != [] && t.currentIndex == s.currentIndex
          && (s.images != [] ==> t.shown == s.shown)
          && (s.images == [] ==> t.shown == Some(rec)) by {
        LoadOldest(s, urls[0]);
      }
      InOrderCompletionDisplay(t, urls[1..]);
    }
  }

  /** Dropping image files on a gallery with no reader pending, then letting
      the readers complete in drop order, appends one record per file in
      drop order; on an empty gallery the first dropped file is displayed. */
  lemma DropOrderWhenCompletedInOrder(s: State, files: seq<DroppedFile>, urls: seq<string>)
    requires Valid(s) && s.pendingReads == []
    requires forall f :: f in files ==> IsImageType(f.mimeType)
    requires |urls| == |files|
    ensures var s1 := ProcessFiles(s, files);
      s1.pendingReads == files &&
      var r := LoadOldestFirst(s1, urls);
      && r.images == s.images + Records(files, urls)
      && r.pendingReads == []
      && (s.images == [] && files != [] ==> r.shown == Some(Image(urls[0], files[0].name)))
  {
    AllImagesKept(files);
    var s1 := ProcessFiles(s, files);
    assert s1.pendingReads == files;
    InOrderCompletionKeepsOrder(s1, urls);
    InOrderCompletionDisplay(s1, urls);
  }
}
