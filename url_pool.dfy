/**
 * The crawl frontier (URLPool.java): a FIFO queue of pending work items,
 * the append-only list of processed items, the list of seen URLs and the
 * count of workers parked in `get`.  The monitor (`synchronized`, `wait`,
 * `notify`) is not modelled; each method is one atomic step.
 */
module Pool {
  import opened Options
  import opened UrlDepth

  /** The abstract value of a pool: its five fields. */
  datatype PoolState = PoolState(
    pending: seq<URLDepthPair>,
    processed: seq<URLDepthPair>,
    seen: seq<string>,
    waiting: int,
    maxDepth: int)

  /** The URLs of a list of items, in order. */
  function Urls(items: seq<URLDepthPair>): (us: seq<string>)
    ensures |us| == |items|
  {
    if items == [] then [] else Urls(items[..|items| - 1]) + [items[|items| - 1].url]
  }

  /** No URL occurs twice: each one differs from every URL before it (see NoDuplicatesAt). */
  predicate NoDuplicates(s: seq<string>)
  {
    s == [] || (s[|s| - 1] !in s[..|s| - 1] && NoDuplicates(s[..|s| - 1]))
  }

  lemma {:induction false} NoDuplicatesAt(s: seq<string>)
    ensures NoDuplicates(s) <==> forall i, j :: 0 <= i < j < |s| ==> s[i] != s[j]
  {
    if s != [] {
      var init := s[..|s| - 1];
      NoDuplicatesAt(init);
      assert forall i :: 0 <= i < |init| ==> init[i] == s[i];
      if NoDuplicates(s) {
        forall i, j | 0 <= i < j < |s| ensures s[i] != s[j] {
          if j == |s| - 1 {
            assert s[i] in init;
          }
        }
      }
      if forall i, j :: 0 <= i < j < |s| ==> s[i] != s[j] {
        forall i | 0 <= i < |init| ensures init[i] != s[|s| - 1] {
          assert s[i] != s[|s| - 1];
        }
      }
    }
  }

  /**
   * What every reachable pool satisfies: seen lists exactly the URLs of
   * processed (so no URL is processed twice), everything pending is below
   * the depth cutoff, and the parked count is not negative.
   */
  predicate Inv(s: PoolState)
  {
    && s.seen == Urls(s.processed)
    && NoDuplicates(s.seen)
    && (forall p :: p in s.pending ==> p.depth < s.maxDepth)
    && s.waiting >= 0
  }

  function Initial(maxDepth: int): PoolState
  {
    PoolState([], [], [], 0, maxDepth)
  }

  /** One call of put: wake a parked worker if any, then admit the item unless it is a duplicate. */
  function PutSpec(s: PoolState, item: URLDepthPair): (r: PoolState)
    ensures r.maxDepth == s.maxDepth
    ensures r.pending == s.pending || r.pending == s.pending + [item]
    ensures r.processed == s.processed || r.processed == s.processed + [item]
    ensures r.pending == s.pending || r.processed == s.processed
    ensures r.seen == s.seen <==> r.processed == s.processed
    ensures r.seen != s.seen ==> r.seen == s.seen + [item.url]
  {
    var waiting := if s.waiting != 0 then s.waiting - 1 else s.waiting;
    if item.url !in s.seen && item !in s.pending then
      if item.depth < s.maxDepth then s.(waiting := waiting, pending := s.pending + [item])
      else s.(waiting := waiting, processed := s.processed + [item], seen := s.seen + [item.url])
    else s.(waiting := waiting)
  }

  /** Successive puts of `items`, in order. */
  function PutAll(s: PoolState, items: seq<URLDepthPair>): PoolState
    decreases |items|
  {
    if items == [] then s else PutSpec(PutAll(s, items[..|items| - 1]), items[|items| - 1])
  }

  /** Index of the first pending item whose URL has not been seen. */
  function FirstUnseen(pending: seq<URLDepthPair>, seen: seq<string>): (r: Option<nat>)
    ensures r.Some? ==> r.value < |pending| && pending[r.value].url !in seen
  {
    if pending == [] then None
    else if pending[0].url !in seen then Some(0)
    else match FirstUnseen(pending[1..], seen)
      case None => None
      case Some(k) => Some(k + 1)
  }

  /** Every item ahead of the first unseen one, or every item when there is none, has a seen URL. */
  lemma {:induction false} FirstUnseenSkips(pending: seq<URLDepthPair>, seen: seq<string>)
    ensures FirstUnseen(pending, seen).Some? ==>
      forall j :: 0 <= j < FirstUnseen(pending, seen).value ==> pending[j].url in seen
    ensures FirstUnseen(pending, seen).None? ==> forall j :: 0 <= j < |pending| ==> pending[j].url in seen
  {
    if pending != [] && pending[0].url in seen {
      FirstUnseenSkips(pending[1..], seen);
      assert forall j :: 1 <= j < |pending| ==> pending[j] == pending[1..][j - 1];
    }
  }

  /** The first unseen index is the first index past a prefix of seen URLs whose own URL is unseen. */
  lemma FirstUnseenIs(pending: seq<URLDepthPair>, seen: seq<string>, k: nat)
    requires k <= |pending| && forall j :: 0 <= j < k ==> pending[j].url in seen
    ensures k < |pending| && pending[k].url !in seen ==> FirstUnseen(pending, seen) == Some(k)
    ensures k == |pending| ==> FirstUnseen(pending, seen).None?
  {
    var r := FirstUnseen(pending, seen);
    FirstUnseenSkips(pending, seen);
    if r.Some? && k < |pending| && pending[k].url !in seen {
      assert !(r.value < k) && !(r.value > k);
    }
  }

  /**
   * One call of get on a non-empty queue: pop items until one with an
   * unseen URL comes up, and record it as processed and seen.  If the queue
   * runs dry first, `pop` throws: the queue is left empty and nothing is
   * returned.
   */
  function GetSpec(s: PoolState): (r: (PoolState, Option<URLDepthPair>))
    requires |s.pending| > 0
    ensures r.0.waiting == s.waiting && r.0.maxDepth == s.maxDepth
    ensures |r.0.pending| < |s.pending| && r.0.pending == s.pending[|s.pending| - |r.0.pending|..]
    ensures r.1.Some? ==> r.1.value == s.pending[|s.pending| - |r.0.pending| - 1] && r.1.value.url !in s.seen
    ensures r.1.Some? ==> r.0.processed == s.processed + [r.1.value] && r.0.seen == s.seen + [r.1.value.url]
    ensures r.1.None? ==> r.0.pending == [] && r.0.processed == s.processed && r.0.seen == s.seen
  {
    match FirstUnseen(s.pending, s.seen)
    case None => (s.(pending := []), None)
    case Some(k) =>
      var item := s.pending[k];
      (s.(pending := s.pending[k + 1..], processed := s.processed + [item], seen := s.seen + [item.url]), Some(item))
  }

  /** One pass through get's wait loop: the caller parks on an empty queue. */
  function ParkSpec(s: PoolState): PoolState
  {
    s.(waiting := s.waiting + 1)
  }

  // ---------------------------------------------------------------- lemmas

  lemma InitialInv(maxDepth: int)
    ensures Inv(Initial(maxDepth))
    ensures Initial(maxDepth).maxDepth == maxDepth && Initial(maxDepth).waiting == 0
  {
  }

  lemma {:induction false} UrlsAppend(items: seq<URLDepthPair>, item: URLDepthPair)
    ensures Urls(items + [item]) == Urls(items) + [item.url]
  {
    assert (items + [item])[..|items|] == items;
  }

  /** put decrements the parked count by exactly one when it is positive, admitted or not. */
  lemma PutWaiting(s: PoolState, item: URLDepthPair)
    requires s.waiting >= 0
    ensures s.waiting > 0 ==> PutSpec(s, item).waiting == s.waiting - 1
    ensures s.waiting == 0 ==> PutSpec(s, item).waiting == 0
    ensures PutSpec(s, item).maxDepth == s.maxDepth
  {
  }

  /** A duplicate (URL seen, or the very same item pending) changes nothing but the parked count. */
  lemma PutDuplicate(s: PoolState, item: URLDepthPair)
    requires item.url in s.seen || item in s.pending
    ensures var t := PutSpec(s, item);
      t.pending == s.pending && t.processed == s.processed && t.seen == s.seen
  {
  }

  /** An admitted item below the cutoff joins the end of the queue and nothing else is touched. */
  lemma PutShallow(s: PoolState, item: URLDepthPair)
    requires item.url !in s.seen && item !in s.pending && item.depth < s.maxDepth
    ensures var t := PutSpec(s, item);
      t.pending == s.pending + [item] && t.processed == s.processed && t.seen == s.seen
  {
  }

  /** An admitted item at or beyond the cutoff goes straight to processed and seen; the queue is untouched. */
  lemma PutDeep(s: PoolState, item: URLDepthPair)
    requires item.url !in s.seen && item !in s.pending && item.depth >= s.maxDepth
    ensures var t := PutSpec(s, item);
      t.pending == s.pending && t.processed == s.processed + [item] && t.seen == s.seen + [item.url]
  {
  }

  /** put keeps the invariant, and processed only grows. */
  lemma PutPreservesInv(s: PoolState, item: URLDepthPair)
    requires Inv(s)
    ensures Inv(PutSpec(s, item))
    ensures PutSpec(s, item).processed[..|s.processed|] == s.processed
  {
    var t := PutSpec(s, item);
    if item.url !in s.seen && item !in s.pending {
      if item.depth < s.maxDepth {
        PutShallow(s, item);
        assert forall p :: p in t.pending ==> p in s.pending || p == item;
      } else {
        PutDeep(s, item);
        UrlsAppend(s.processed, item);
        assert t.seen[..|s.seen|] == s.seen;
        assert t.processed[..|s.processed|] == s.processed;
      }
    } else {
      PutDuplicate(s, item);
    }
  }

  /** Successive puts keep the invariant, and processed only grows. */
  lemma {:induction false} PutAllPreservesInv(s: PoolState, items: seq<URLDepthPair>)
    requires Inv(s)
    ensures Inv(PutAll(s, items))
    ensures PutAll(s, items).maxDepth == s.maxDepth
    ensures |s.processed| <= |PutAll(s, items).processed|
    ensures PutAll(s, items).processed[..|s.processed|] == s.processed
  {
    if items != [] {
      var before := PutAll(s, items[..|items| - 1]);
      PutAllPreservesInv(s, items[..|items| - 1]);
      PutPreservesInv(before, items[|items| - 1]);
      assert before.processed[..|s.processed|] == s.processed;
      var after := PutAll(s, items);
      assert after.processed[..|before.processed|] == before.processed;
      assert after.processed[..|s.processed|] == before.processed[..|before.processed|][..|s.processed|];
    }
  }

  /** One more put after a batch of puts. */
  lemma PutAllSnoc(s: PoolState, items: seq<URLDepthPair>, item: URLDepthPair)
    ensures PutAll(s, items + [item]) == PutSpec(PutAll(s, items), item)
  {
    assert (items + [item])[..|items|] == items;
  }

  /** What a list held before it was extended is still in it. */
  lemma InPrefix<T>(x: T, a: seq<T>, b: seq<T>)
    requires x in a && |a| <= |b| && b[..|a|] == a
    ensures x in b
  {
    var j :| 0 <= j < |a| && a[j] == x;
    assert b[j] == x;
  }

  /** One put records its item and only extends the queue and the seen list. */
  lemma PutRecords(s: PoolState, item: URLDepthPair)
    ensures var t := PutSpec(s, item); item.url in t.seen || item in t.pending
    ensures var t := PutSpec(s, item);
      |s.seen| <= |t.seen| && t.seen[..|s.seen|] == s.seen
      && |s.pending| <= |t.pending| && t.pending[..|s.pending|] == s.pending
  {
  }

  /** Successive puts only extend the queue and the seen list. */
  lemma {:induction false} PutAllGrows(s: PoolState, items: seq<URLDepthPair>)
    ensures var t := PutAll(s, items);
      |s.seen| <= |t.seen| && t.seen[..|s.seen|] == s.seen
      && |s.pending| <= |t.pending| && t.pending[..|s.pending|] == s.pending
  {
    if items != [] {
      var before := PutAll(s, items[..|items| - 1]);
      var t := PutAll(s, items);
      PutAllGrows(s, items[..|items| - 1]);
      PutRecords(before, items[|items| - 1]);
      assert t.seen[..|s.seen|] == before.seen[..|s.seen|];
      assert t.pending[..|s.pending|] == before.pending[..|s.pending|];
    }
  }

  /**
   * No offered item is lost: after a batch of puts, every item's URL has
   * been seen or the item itself waits in the queue.
   */
  lemma {:induction false} PutAllRecords(s: PoolState, items: seq<URLDepthPair>)
    ensures var t := PutAll(s, items);
      forall i :: 0 <= i < |items| ==> items[i].url in t.seen || items[i] in t.pending
  {
    if items != [] {
      var init := items[..|items| - 1];
      var before := PutAll(s, init);
      var t := PutAll(s, items);
      PutAllRecords(s, init);
      PutRecords(before, items[|items| - 1]);
      forall i | 0 <= i < |init|
        ensures items[i].url in t.seen || items[i] in t.pending
      {
        assert init[i] == items[i];
        if items[i].url in before.seen {
          InPrefix(items[i].url, before.seen, t.seen);
        } else {
          InPrefix(items[i], before.pending, t.pending);
        }
      }
    }
  }

  /**
   * get fails exactly when every pending URL has been seen; otherwise it
   * returns the first pending item with an unseen URL, whose URL was not
   * seen before, skips the items ahead of it and leaves the suffix after it.
   */
  lemma GetResult(s: PoolState)
    requires |s.pending| > 0
    ensures GetSpec(s).1.None? <==> forall p :: p in s.pending ==> p.url in s.seen
    ensures GetSpec(s).1.Some? ==>
      exists k :: 0 <= k < |s.pending|
        && GetSpec(s).1.value == s.pending[k]
        && s.pending[k].url !in s.seen
        && (forall j :: 0 <= j < k ==> s.pending[j].url in s.seen)
        && GetSpec(s).0.pending == s.pending[k + 1..]
    ensures GetSpec(s).1.Some? ==>
      var item := GetSpec(s).1.value;
      GetSpec(s).0.processed == s.processed + [item] && GetSpec(s).0.seen == s.seen + [item.url]
    ensures GetSpec(s).1.None? ==> GetSpec(s).0 == s.(pending := [])
    ensures GetSpec(s).0.waiting == s.waiting && GetSpec(s).0.maxDepth == s.maxDepth
  {
    FirstUnseenSkips(s.pending, s.seen);
    match FirstUnseen(s.pending, s.seen)
    case None =>
    case Some(k) =>
      assert s.pending[k] in s.pending;
  }

  /** get keeps the invariant, and processed only grows. */
  lemma GetPreservesInv(s: PoolState)
    requires Inv(s) && |s.pending| > 0
    ensures Inv(GetSpec(s).0)
    ensures GetSpec(s).0.processed[..|s.processed|] == s.processed
    ensures GetSpec(s).1.Some? ==> GetSpec(s).1.value.depth < s.maxDepth
  {
    match FirstUnseen(s.pending, s.seen)
    case None =>
    case Some(k) =>
      var item := s.pending[k];
      assert item in s.pending;
      UrlsAppend(s.processed, item);
      var t := GetSpec(s).0;
      assert forall p :: p in t.pending ==> p in s.pending;
      assert t.processed[..|s.processed|] == s.processed;
  }

  lemma ParkPreservesInv(s: PoolState)
    requires Inv(s)
    ensures Inv(ParkSpec(s)) && ParkSpec(s).waiting == s.waiting + 1
  {
  }

  // ---------------------------------------------------------------- the pool

  class URLPool {
    var pendingURLs: seq<URLDepthPair>
    var processedURLs: seq<URLDepthPair>
    var seenURLs: seq<string>
    var waitingThreads: int
    const maxDepth: int

    function State(): PoolState
      reads this
    {
      PoolState(pendingURLs, processedURLs, seenURLs, waitingThreads, maxDepth)
    }

    predicate Valid()
      reads this
    {
      Inv(State())
    }

    constructor (maxDepthPair: int)
      ensures Valid()
      ensures State() == Initial(maxDepthPair)
    {
      maxDepth := maxDepthPair;
      waitingThreads := 0;
      pendingURLs := [];
      processedURLs := [];
      seenURLs := [];
    }

    method GetWaitThreads() returns (n: int)
      ensures n == waitingThreads
    {
      n := waitingThreads;
    }

    method Size() returns (n: nat)
      ensures n == |pendingURLs|
    {
      n := |pendingURLs|;
    }

    method Put(depthPair: URLDepthPair)
      requires Valid()
      modifies this
      ensures Valid()
      ensures State() == PutSpec(old(State()), depthPair)
    {
      ghost var s0 := State();
      if waitingThreads != 0 {
        waitingThreads := waitingThreads - 1;
      }
      if depthPair.url !in seenURLs && depthPair !in pendingURLs {
        if depthPair.depth < maxDepth {
          pendingURLs := pendingURLs + [depthPair];
        } else {
          processedURLs := processedURLs + [depthPair];
          seenURLs := seenURLs + [depthPair.url];
        }
      }
      assert State() == PutSpec(s0, depthPair);
      PutPreservesInv(s0, depthPair);
    }

    /** The counter step of get's wait loop, taken while the queue is empty. */
    method Park()
      requires Valid() && |pendingURLs| == 0
      modifies this
      ensures Valid()
      ensures State() == ParkSpec(old(State()))
    {
      waitingThreads := waitingThreads + 1;
    }

    /** get once the queue is non-empty; `None` is the NoSuchElementException of a drained queue. */
    method Get() returns (myDepthPair: Option<URLDepthPair>)
      requires Valid() && |pendingURLs| > 0
      modifies this
      ensures Valid()
      ensures (State(), myDepthPair) == GetSpec(old(State()))
    {
      ghost var s0 := State();
      ghost var queue := pendingURLs;
      var item := pendingURLs[0];
      pendingURLs := pendingURLs[1..];
      ghost var k := 0;
      while item.url in seenURLs
        invariant 0 <= k < |queue| && item == queue[k] && pendingURLs == queue[k + 1..]
        invariant forall j :: 0 <= j < k ==> queue[j].url in s0.seen
        invariant State() == s0.(pending := pendingURLs)
        decreases |pendingURLs|
      {
        if |pendingURLs| == 0 {
          myDepthPair := None;
          assert (State(), myDepthPair) == GetSpec(s0) by {
            FirstUnseenIs(queue, s0.seen, k + 1);
          }
          GetPreservesInv(s0);
          return;
        }
        item := pendingURLs[0];
        pendingURLs := pendingURLs[1..];
        k := k + 1;
      }
      processedURLs := processedURLs + [item];
      seenURLs := seenURLs + [item.url];
      myDepthPair := Some(item);
      assert (State(), myDepthPair) == GetSpec(s0) by {
        FirstUnseenIs(queue, s0.seen, k);
      }
      GetPreservesInv(s0);
    }
  }
}
