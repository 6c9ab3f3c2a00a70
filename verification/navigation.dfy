/** Displaying the current record and moving between records: a jump to a
    given position and wrap-around previous/next. */
module Navigation {
  import opened Model
  import opened Thumbnails

  /** Shows the record at `currentIndex` in the main image element and moves
      the active mark to its thumbnail; does nothing on an empty list. */
  function ShowCurrentImage(s: State): (r: State)
    requires Displayable(s)
    ensures |s.images| == 0 ==> r == s
    ensures |s.images| > 0 ==> Valid(r) && r.shown == Some(s.images[s.currentIndex])
    ensures r == s.(shown := r.shown, thumbnails := r.thumbnails)
  {
    if |s.images| > 0 then
      RemarkIsExpected(s.thumbnails, s.images, s.currentIndex);
      s.(shown := Some(s.images[s.currentIndex]),
         thumbnails := UpdateActiveThumbnail(s.thumbnails, s.currentIndex))
    else s
  }

  /** Jumps to record `index` when it is a position of the list; any other
      index leaves the whole state unchanged. */
  function NavigateToImage(s: State, index: int): (r: State)
    requires Valid(s)
    ensures Valid(r)
    ensures 0 <= index < |s.images| ==> r.currentIndex == index && r.shown == Some(s.images[index])
    ensures !(0 <= index < |s.images|) ==> r == s
    ensures r == s.(currentIndex := r.currentIndex, shown := r.shown, thumbnails := r.thumbnails)
  {
    if 0 <= index && index < |s.images| then
      ShowCurrentImage(s.(currentIndex := index))
    else s
  }

  /** Steps back one record, from the first to the last; no-op when the list
      is empty. */
  function NavigateToPrevious(s: State): (r: State)
    requires Valid(s)
    ensures Valid(r)
    ensures |s.images| == 0 ==> r == s
    ensures |s.images| > 0 ==>
      r.currentIndex == (if s.currentIndex == 0 then |s.images| - 1 else s.currentIndex - 1)
    ensures r == s.(currentIndex := r.currentIndex, shown := r.shown, thumbnails := r.thumbnails)
  {
    if |s.images| > 0 then
      // Both operands are non-negative here, so the source's truncating
      // remainder and Dafny's Euclidean one agree.
      var i := (s.currentIndex - 1 + |s.images|) % |s.images|;
      WrapBack(s.currentIndex, |s.images|);
      ShowCurrentImage(s.(currentIndex := i))
    else s
  }

  /** Steps forward one record, from the last to the first; no-op when the
      list is empty. */
  function NavigateToNext(s: State): (r: State)
    requires Valid(s)
    ensures Valid(r)
    ensures |s.images| == 0 ==> r == s
    ensures |s.images| > 0 ==>
      r.currentIndex == (if s.currentIndex == |s.images| - 1 then 0 else s.currentIndex + 1)
    ensures r == s.(currentIndex := r.currentIndex, shown := r.shown, thumbnails := r.thumbnails)
  {
    if |s.images| > 0 then
      var i := (s.currentIndex + 1) % |s.images|;
      WrapForward(s.currentIndex, |s.images|);
      ShowCurrentImage(s.(currentIndex := i))
    else s
  }

  /** Going forward and then back returns to the very same state, whatever
      the current record and list length. */
  lemma PreviousUndoesNext(s: State)
    requires Valid(s)
    ensures NavigateToPrevious(NavigateToNext(s)) == s
  {
    var t := NavigateToNext(s);
    var u := NavigateToPrevious(t);
    assert u.currentIndex == s.currentIndex;
  }

  /** Going back and then forward returns to the very same state. */
  lemma NextUndoesPrevious(s: State)
    requires Valid(s)
    ensures NavigateToNext(NavigateToPrevious(s)) == s
  {
    var t := NavigateToPrevious(s);
    var u := NavigateToNext(t);
    assert u.currentIndex == s.currentIndex;
  }

  /** Jumping to the record already displayed changes nothing (a click on
      the active thumbnail). */
  lemma NavigateToCurrentIsIdentity(s: State)
    requires Valid(s)
    ensures NavigateToImage(s, s.currentIndex) == s
  {
  }

  /** The state after `n` consecutive steps forward. */
  function NextTimes(s: State, n: nat): (r: State)
    requires Valid(s)
    ensures Valid(r) && r.images == s.images
    decreases n
  {
    if n == 0 then s else NavigateToNext(NextTimes(s, n - 1))
  }

  /** Kept apart from its callers only to keep their proofs small. */
  lemma MulAtLeast(d: int, k: int)
    requires d >= 1 && k > 0
    ensures d * k >= k
  {
  }

  /** The remainder is determined by any quotient/remainder decomposition. */
  lemma ModUnique(a: int, k: int, q: int, r: int)
    requires k > 0 && 0 <= r < k && a == q * k + r
    ensures a % k == r
  {
    var q0 := a / k;
    assert a == q0 * k + a % k;
    if q0 > q {
      MulAtLeast(q0 - q, k);
    } else if q0 < q {
      MulAtLeast(q - q0, k);
    }
  }

  /** One step back over `n` positions, written as the source's remainder. */
  lemma WrapBack(c: int, n: int)
    requires 0 <= c < n
    ensures (c - 1 + n) % n == if c == 0 then n - 1 else c - 1
  {
    if c == 0 {
      ModUnique(c - 1 + n, n, 0, n - 1);
    } else {
      ModUnique(c - 1 + n, n, 1, c - 1);
    }
  }

  /** One step forward over `n` positions, written as the source's remainder. */
  lemma WrapForward(c: int, n: int)
    requires 0 <= c < n
    ensures (c + 1) % n == if c == n - 1 then 0 else c + 1
  {
    if c == n - 1 {
      ModUnique(c + 1, n, 1, 0);
    } else {
      ModUnique(c + 1, n, 0, c + 1);
    }
  }

  /** The remainder of a successor: one more, or zero after `k - 1`. */
  lemma ModSuccessor(a: nat, b: nat, k: int)
    requires k > 0 && b == a + 1
    ensures b % k == if a % k == k - 1 then 0 else a % k + 1
  {
    var q := a / k;
    assert a == q * k + a % k;
    if a % k == k - 1 {
      assert (q + 1) * k == q * k + k;
      ModUnique(b, k, q + 1, 0);
    } else {
      ModUnique(b, k, q, a % k + 1);
    }
  }

  /** The index reached from `c` after `n` wrap-around steps over `k`. */
  function StepIndex(c: int, k: int, n: nat): int
    decreases n
  {
    if n == 0 then c
    else var p := StepIndex(c, k, n - 1); if p == k - 1 then 0 else p + 1
  }

  lemma {:induction false} StepIndexIsRemainder(c: nat, k: int, n: nat)
    requires c < k
    ensures StepIndex(c, k, n) == (c + n) % k
    decreases n
  {
    if n > 0 {
      StepIndexIsRemainder(c, k, n - 1);
      ModSuccessor(c + (n - 1), c + n, k);
    } else {
      ModUnique(c, k, 0, c);
    }
  }

  lemma {:induction false} NextTimesFollowsStepIndex(s: State, n: nat)
    requires Valid(s) && |s.images| > 0
    ensures NextTimes(s, n).currentIndex == StepIndex(s.currentIndex, |s.images|, n)
    decreases n
  {
    if n > 0 {
      var m: nat := n - 1;
      NextTimesFollowsStepIndex(s, m);
      var c := StepIndex(s.currentIndex, |s.images|, m);
      assert StepIndex(s.currentIndex, |s.images|, n) == if c == |s.images| - 1 then 0 else c + 1;
      assert NextTimes(s, n).currentIndex == NavigateToNext(NextTimes(s, m)).currentIndex;
    }
  }

  /** `n` steps forward land on record `(currentIndex + n) mod |images|`:
      repeated next visits the records in list order and wraps around. */
  lemma NextTimesVisitsInOrder(s: State, n: nat)
    requires Valid(s) && |s.images| > 0
    ensures NextTimes(s, n).currentIndex == (s.currentIndex + n) % |s.images|
  {
    NextTimesFollowsStepIndex(s, n);
    StepIndexIsRemainder(s.currentIndex, |s.images|, n);
  }
}
