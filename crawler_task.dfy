/**
 * One worker step (CrawlerTask.java): take an item from the pool, fetch
 * its page, and offer every link found back to the pool one level deeper.
 *
 * The fetch is a parameter: it gives the link list `getSites` returns for
 * an item, or `None` when `getSites` ends in an exception.  Two exceptions
 * end the step that way.  An IOException is caught and logged by run(); the
 * list stays null, and `linksList.size()` then throws a
 * NullPointerException.  A NullPointerException raised inside getSites
 * (`docPath.length()` on a malformed URL, `Thrown` in Crawler.Fetch) is not
 * caught and leaves run() at once.  Either way no link is put.
 */
module Task {
  import opened Options
  import opened UrlDepth
  import opened Pool

  class CrawlerTask {
    var depthPair: URLDepthPair?
    const pool: URLPool

    constructor (newPool: URLPool)
      ensures pool == newPool && depthPair == null
    {
      pool := newPool;
      depthPair := null;
    }

    /**
     * One pass of run()'s loop body: a new pair for the link, offered to
     * the pool.  `s1` and `offered` are the pool before the loop and the
     * pairs offered so far.
     */
    method Offer(newURL: string, depth: int, ghost s1: PoolState, ghost offered: seq<URLDepthPair>)
      returns (newDepthPair: URLDepthPair)
      requires Inv(s1) && pool.State() == PutAll(s1, offered)
      modifies pool
      ensures pool.State() == PutAll(s1, offered + [newDepthPair])
      ensures fresh(newDepthPair) && newDepthPair.url == newURL && newDepthPair.depth == depth
    {
      newDepthPair := new URLDepthPair(newURL, depth);
      assert pool.Valid() by {
        PutAllPreservesInv(s1, offered);
      }
      pool.Put(newDepthPair);
      PutAllSnoc(s1, offered, newDepthPair);
    }

    /**
     * run()'s for loop: one new pair per link, in list order, each put
     * into the pool in turn.
     */
    method OfferAll(links: seq<string>, depth: int) returns (created: seq<URLDepthPair>)
      requires pool.Valid()
      modifies pool
      ensures pool.Valid() && pool.State() == PutAll(old(pool.State()), created)
      ensures Urls(created) == links
      ensures forall i :: 0 <= i < |created| ==> created[i].depth == depth && fresh(created[i])
    {
      ghost var s1 := pool.State();
      created := [];
      var counter := 0;
      while counter < |links|
        invariant 0 <= counter <= |links| && |created| == counter
        invariant Urls(created) == links[..counter]
        invariant forall i :: 0 <= i < counter ==> created[i].depth == depth
        invariant forall i :: 0 <= i < counter ==> fresh(created[i])
        invariant pool.State() == PutAll(s1, created)
      {
        var newURL := links[counter];
        var newDepthPair := Offer(newURL, depth, s1, created);
        assert Urls(created + [newDepthPair]) == links[..counter + 1] by {
          UrlsAppend(created, newDepthPair);
          assert links[..counter + 1] == links[..counter] + [newURL];
        }
        created := created + [newDepthPair];
        counter := counter + 1;
      }
      assert links[..counter] == links;
      PutAllPreservesInv(s1, created);
    }

    /**
     * run(): one get, then one put per link at the taken depth plus one.
     * When get finds nothing to take (NoSuchElementException), or the
     * fetch ends in an exception (a caught IOException followed by
     * `linksList.size()` on null, or a NullPointerException escaping
     * getSites), the step ends there and nothing is offered to the pool.
     */
    method Run(fetch: URLDepthPair -> Option<seq<string>>) returns (created: seq<URLDepthPair>)
      requires pool.Valid() && |pool.pendingURLs| > 0
      modifies this, pool
      ensures pool.Valid()
      ensures var (afterGet, taken) := GetSpec(old(pool.State()));
        && depthPair == (if taken.Some? then taken.value else old(depthPair))
        && pool.State() == PutAll(afterGet, created)
        && (taken.None? || fetch(taken.value).None? ==> created == [])
        && (taken.Some? && fetch(taken.value).Some? ==>
              Urls(created) == fetch(taken.value).value
              && forall i :: 0 <= i < |created| ==>
                   created[i].depth == taken.value.depth + 1
                   && created[i].depth <= pool.maxDepth)
      ensures forall i :: 0 <= i < |created| ==> fresh(created[i])
    {
      ghost var s0 := pool.State();
      var taken := pool.Get();
      if taken.None? {
        return [];
      }
      depthPair := taken.value;
      var depth := depthPair.depth;
      assert depth < pool.maxDepth by {
        GetPreservesInv(s0);
      }
      var linksList := fetch(depthPair);
      if linksList.None? {
        return [];
      }
      created := OfferAll(linksList.value, depth + 1);
    }
  }
}
