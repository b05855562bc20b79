# Web-parser crawler core in Dafny

This project models the core of a small multi-threaded Java web crawler
that works breadth-first. The core has four classes:

- **URLDepthPair** is a work item: a URL and the depth at which it was found.
- **URLPool** is the crawl frontier. It holds a FIFO queue of pending items,
  the list of processed items, the list of URLs already seen and the number
  of workers parked in `get`.
- **Crawler.getSites** makes one HTTP/1.1 request over a raw socket. It reads
  the status line and pulls out the status class, the first digit of the
  last `(2|3|4)[0-9]{2}` match. On a 2xx it collects every quoted absolute
  link of the body. On a 3xx it follows the last `Location: ` header of the
  body, unless that header points back at the requested URL.
- **CrawlerTask.run** is one worker step. It takes an item from the pool,
  fetches its links, and offers each link back to the pool one level deeper.

The Dafny modules follow the same structure:

| file | module | models |
|---|---|---|
| `options.dfy` | `Options` | the `Option` type |
| `url_depth_pair.dfy` | `UrlDepth` | URLDepthPair: a class with `const` fields, its text rendering and its URL accessors |
| `url_pool.dfy` | `Pool` | URLPool: a class over `seq` fields; its abstract value `PoolState`; `PutSpec`/`GetSpec` and the lemmas about them |
| `matching.dfy` | `Matching` | `Matcher.find` over the three regular expressions of getSites |
| `crawler.dfy` | `Crawler` | getSites: the request, the status class, the link scan, the Location scan, the outcome |
| `crawler_task.dfy` | `Task` | CrawlerTask: the class and its `run` |

Some design choices:

- **Item identity.** URLDepthPair is a class because `URLPool.put` checks
  `pendingURLs.contains(depthPair)`. URLDepthPair does not override `equals`,
  so two items are equal only when they are the same object. The
  seen-URL check compares strings.
- **Pool methods.** Each URLPool method changes the fields of the object it
  is called on. Its postcondition ties the new `State()` to a pure function
  of the old one (`PutSpec`, `GetSpec`, `ParkSpec`). The invariant `Inv` is
  proved about those functions. It says:
  - the seen list is exactly the URLs of the processed items;
  - no URL is seen twice;
  - every queued item is shallower than `maxDepth`.
- **Regular expressions.** Each regular expression is a matcher
  `(line, start) -> end of the match`. Separate lemmas prove that each
  matcher accepts exactly the language of its pattern (`StatusAtIsRegex`,
  `LinkAtIsRegex`, `LocationAtIsRegex`). A loop of `find()` calls is modelled generically
  (`FirstMatch`, `Spans`, `Find`), and its properties are proved once for
  any matcher:
  - find returns the leftmost match;
  - no match is skipped;
  - matches do not overlap;
  - nothing matches after the last match.
- **The socket.** A `Connection` value stands for the socket. It is refused,
  gives output only, or gives a full response. A response is the lines that
  `readLine` delivers, then end of stream or an IOException. A redirect is
  one step: `Fetch` returns the item to fetch next instead of calling itself.

## Model

| member | source | states |
|---|---|---|
| UrlDepth.URLDepthPair.constructor | URLDepthPair.java:21-43 | the new item holds the given URL and depth; the fields are `const`, so what getURL and getDepth return never changes |
| UrlDepth.URLDepthPair.DocPath | URLDepthPair.java:60-73 | getDocPath gives null exactly when the URL is malformed, otherwise the URL's path |
| UrlDepth.URLDepthPair.WebHost | URLDepthPair.java:79-92 | getWebHost gives null exactly when the URL is malformed, otherwise the URL's host |
| UrlDepth.NatToDecimal | URLDepthPair.java:52 | Integer.toString of a non-negative value is a non-empty digit string without leading zeros |
| UrlDepth.IntToDecimalRoundTrip | URLDepthPair.java:52 | reading the decimal text of any int back gives that int |
| UrlDepth.FirstTab | URLDepthPair.java:53 | finds the first tab of a string, or reports that it has none |
| UrlDepth.URLDepthPair.ToString | URLDepthPair.java:49-54 | toString() reads back: splitting it at the first tab and reading the depth gives the item's depth and URL |
| UrlDepth.RenderingSplit | URLDepthPair.java:49-54 | the first tab of toString() separates the depth text from the URL |
| UrlDepth.RenderingRoundTrip | URLDepthPair.java:49-54 | toString() is injective: splitting at the first tab and reading the depth recovers depth and URL |
| Pool.NoDuplicatesAt | URLPool.java:79-80 | the recursive no-duplicates predicate holds exactly when all positions hold distinct URLs |
| Pool.InitialInv | URLPool.java:37-43 | a new pool is empty, has nobody parked, and satisfies the invariant |
| Pool.PutSpec | URLPool.java:67-93 | put keeps maxDepth and adds at most one entry: the item joins the end of the queue, or the end of the processed list with its URL at the end of the seen list, or nothing is added; the seen list grows exactly when the processed list does |
| Pool.PutWaiting | URLPool.java:73-77 | put decrements the parked count exactly when it is positive, whether or not the item is admitted |
| Pool.PutDuplicate | URLPool.java:79-80 | an item whose URL was seen, or which is itself queued, changes neither the lists nor the seen URLs |
| Pool.PutShallow | URLPool.java:82-85 | a new item shallower than maxDepth is appended to the queue and nothing else |
| Pool.PutDeep | URLPool.java:87-91 | a new item at or past maxDepth is recorded as processed and seen without being queued |
| Pool.PutPreservesInv | URLPool.java:67-93 | put keeps the pool invariant and only appends to the processed list |
| Pool.PutAllPreservesInv | URLPool.java:67-93 | any sequence of puts keeps the invariant and maxDepth, and only appends to the processed list |
| Pool.PutRecords | URLPool.java:79-91 | after put, the item's URL is seen or the item is queued; queue and seen list are only extended |
| Pool.PutAllGrows | URLPool.java:79-91 | a sequence of puts only extends the queue and the seen list |
| Pool.PutAllRecords | URLPool.java:79-91 | no offered item is lost: after any sequence of puts, each item's URL is seen or the item is queued |
| Pool.FirstUnseen | URLPool.java:122-127 | the index get stops at holds an unseen URL |
| Pool.FirstUnseenSkips | URLPool.java:124-127 | every item before that index, or every item when there is none, has a seen URL |
| Pool.FirstUnseenIs | URLPool.java:124-127 | a prefix of seen items followed by an unseen one fixes the index get stops at; an all-seen queue has none |
| Pool.GetSpec | URLPool.java:122-132 | get always takes at least one item off the queue and leaves a suffix of it. A returned item is the one just ahead of that suffix, its URL was unseen, and it is recorded as processed and seen. Without a result the queue is empty and the lists are unchanged. The parked count and maxDepth never change |
| Pool.GetResult | URLPool.java:122-132 | get fails exactly when every queued URL was seen; otherwise it returns the first item with an unseen URL, drops the items before it, keeps the rest of the queue, records the item as processed and seen, and changes neither the parked count nor maxDepth |
| Pool.GetPreservesInv | URLPool.java:122-132 | get keeps the invariant and only appends to the processed list, and the item it returns is shallower than maxDepth |
| Pool.ParkPreservesInv | URLPool.java:103-105 | parking keeps the invariant and raises the parked count by one |
| Pool.URLPool.constructor | URLPool.java:37-43 | the new pool's state is the initial state for the given maxDepth, and the invariant holds |
| Pool.URLPool.GetWaitThreads | URLPool.java:49-52 | returns the parked count |
| Pool.URLPool.Size | URLPool.java:58-61 | returns the queue length |
| Pool.URLPool.Put | URLPool.java:67-93 | the new state is `PutSpec` of the old one, and the invariant holds |
| Pool.URLPool.Park | URLPool.java:103-105 | on an empty queue, the new state is `ParkSpec` of the old one |
| Pool.URLPool.Get | URLPool.java:122-133 | the pop-and-skip loop ends in the state and result `GetSpec` gives, and the invariant holds |
| Matching.StatusAt | Crawler.java:271 | a match of `(2\|3\|4)[0-9]{2}` is three characters: a digit 2-4 then two digits |
| Matching.StatusAtIsRegex | Crawler.java:271 | the status matcher gives end `e` at `i` exactly when `line[i..e]` is a digit 2-4 followed by two digits |
| Matching.LinkAt | Crawler.java:321-346 | a link match spans at least its two quotes and ends within the line |
| Matching.LocationAt | Crawler.java:412-413 | a Location match is `Location: ` followed by at least one character, within the line |
| Matching.LinkTextIsPattern | Crawler.java:321-346 | the simplified link test accepts exactly the texts the link regex's structure (scheme class, host, dot, TLD, path) describes |
| Matching.LinkTextShape | Crawler.java:321-346 | a link text is at least 11 characters and contains no quote |
| Matching.LinkAtIsRegex | Crawler.java:321-346 | the link matcher gives end `e` at `i` exactly when `line[i..e]` is a greedy match of the link regex |
| Matching.LocationAtIsRegex | Crawler.java:412-413 | the Location matcher gives end `e` at `i` exactly when the line has `Location: ` at `i`, followed by a maximal non-empty run of non-whitespace ending at `e` |
| Matching.NextQuote | Crawler.java:344 | the closing-quote search stops at a quote character |
| Matching.NextQuoteIsFirst | Crawler.java:322-344 | that quote is the first one after the start |
| Matching.RunEnd | Crawler.java:413 | the end of a `[\S]+` run is followed by whitespace or by the end of the line |
| Matching.RunEndIsMaximal | Crawler.java:413 | no character inside the run is whitespace |
| Matching.FirstMatch | Crawler.java:277 | a match reported by find() lies at or after the search start and is a match of the pattern |
| Matching.FirstMatchIsLeftmost | Crawler.java:277 | no match starts before the reported one, and none exists when find() reports none |
| Matching.SpansAreMatches | Crawler.java:277 | every match of a find() loop is a match of the pattern |
| Matching.SpansComplete | Crawler.java:277 | a find() loop skips no match: every match start lies inside a reported match |
| Matching.SpansOrdered | Crawler.java:277 | the matches of a find() loop do not overlap and come in order |
| Matching.NoMatchAfterLast | Crawler.java:277 | nothing matches at or after the end of the last reported match |
| Matching.Find | Crawler.java:277 | one find() call returns the leftmost match from the search position |
| Crawler.RequestLines | Crawler.java:202-215 | the request is four lines: a GET line whose target is the document path, or `/` when the path is empty; the Host line; `Connection: close`; a blank line |
| Crawler.RequestLineTarget | Crawler.java:204-211 | a GET line reads back to the target it was written for |
| Crawler.CodeOf | Crawler.java:279-280 | the value read from a status match is 2, 3 or 4 |
| Crawler.StatusClass | Crawler.java:271-281 | the status class is 0, 2, 3 or 4 |
| Crawler.StatusClassZero | Crawler.java:240-281 | the status class stays 0 exactly when no status code occurs in the line |
| Crawler.StatusClassIsLast | Crawler.java:277-281 | a non-zero class is the first digit of the last status code the find() loop reports, and no other status code starts after it |
| Crawler.ServerCode | Crawler.java:271-281 | the find() loop on the status line computes the status class |
| Crawler.TextsOfAt | Crawler.java:355-356 | the k-th collected text is the interior of the k-th match |
| Crawler.LinkTextOfMatch | Crawler.java:321-356 | the text collected from a match is in the link regex's language, at least 11 characters and quote-free |
| Crawler.LinksInShape | Crawler.java:353-362 | the k-th link of a line is the interior of the k-th link match, a regex match, at least 11 characters and quote-free |
| Crawler.LinksOfLinesAppend | Crawler.java:291-363 | links are collected in line order: splitting the body concatenates the link lists |
| Crawler.LinksOfLinesShape | Crawler.java:291-363 | every link collected from a 2xx body is at least 11 characters and contains no quote |
| Crawler.ScanLinks | Crawler.java:353-362 | the per-line find() loop appends the line's links, in match order, to the list |
| Crawler.LocationTargetShape | Crawler.java:416-419 | a redirect target is a non-empty run of non-whitespace characters |
| Crawler.LineTarget | Crawler.java:412-419 | a line's Location target, when present, is non-empty and free of whitespace |
| Crawler.LastTargetIsLast | Crawler.java:384-421 | the last-target scan gives "" exactly when no line has a target, and otherwise the target of the last line that has one |
| Crawler.LastLocationIsLastTarget | Crawler.java:384-421 | the line-by-line overwrite of newURL equals the last-target scan |
| Crawler.LastLocationIsLast | Crawler.java:381-421 | newURL stays "" exactly when no body line has a Location header; otherwise it is the target of the last match on the last line that has one |
| Crawler.ScanLocation | Crawler.java:414-420 | the per-line find() loop leaves newURL at the line's last target, or unchanged when the line has none |
| Crawler.RedirectDecision | Crawler.java:423-443 | a Location equal to the requested URL ends the fetch with the empty list; any other is fetched next at the same depth |
| Crawler.Classify | Crawler.java:240-460 | once the request is written, the response never throws. It yields links exactly for status class 2, namely the links of the body. It redirects exactly for class 3 with a complete body whose last Location differs from the requested URL, to that Location at the same depth. Otherwise the result is the empty list |
| Crawler.Fetch | Crawler.java:125-461 | getSites throws exactly for a malformed URL on a connection that was not refused, and writes a request exactly when the connection was not refused and the URL parses; the request asks for the URL's path, or `/` when it is empty. An open connection ends as `Classify` says; any other ends with the empty list or the exception |
| Crawler.FetchOutcomes | Crawler.java:125-461 | getSites throws exactly for a malformed URL on a connection that was not refused. It writes a request exactly then. It returns links exactly for status class 2. It redirects exactly for class 3 with a complete body whose Location differs from the requested URL, at the same depth. Every other case returns the empty list |
| Crawler.ReadLinks | Crawler.java:291-370 | the 2xx reading loop returns the links of all body lines, in order |
| Crawler.ReadLocation | Crawler.java:384-421 | the 3xx reading loop returns the last Location target of the body, or fails on a read error |
| Crawler.GetSites | Crawler.java:125-461 | one call writes the request `Fetch` gives and ends in the outcome `Fetch` gives |
| Task.CrawlerTask.constructor | CrawlerTask.java:22-25 | the task holds the given pool and no item yet |
| Task.CrawlerTask.Offer | CrawlerTask.java:59-66 | one pass of the loop: a fresh item for the link at the given depth, put into the pool |
| Task.CrawlerTask.OfferAll | CrawlerTask.java:57-67 | the loop puts one fresh item per link, in list order, all at the given depth, and the pool ends in the state the puts give |
| Task.CrawlerTask.Run | CrawlerTask.java:31-68 | run does one get, then one put per fetched link at the taken depth plus one (never deeper than maxDepth). The pool ends in the state that get and then those puts give, and its invariant holds. When get or the fetch fails, nothing is put |

## Left out

- Threads and the monitor are not modelled. `synchronized`, `wait` and
  `notify` are left out; each pool method is one atomic step.
- Pool.URLPool.Get: the blocking wait loop of `get` is not modelled. Get
  requires a non-empty queue. `Park` models the parked-count step of that
  loop. The `InterruptedException` path, which returns null, is left out.
- Pool.URLPool.Get: when every queued URL has been seen, the Java `pop`
  throws `NoSuchElementException`. Get models this as `None` with the
  queue drained.
- Task.CrawlerTask.Run: `getSites` is a parameter `fetch` that maps an item
  to its link list, or to `None` when it ends in an exception. There are
  two such paths, and the model does not tell them apart. An IOException
  is caught and logged by run (CrawlerTask.java:51-55). `linksList` then
  stays null, and `linksList.size()` at CrawlerTask.java:57 throws a
  NullPointerException. A NullPointerException inside getSites is not
  caught and ends run directly. That exception comes from
  `docPath.length()` at Crawler.java:202 on a malformed URL, which is the
  `Thrown` outcome of `Crawler.Fetch`. On both paths nothing is put. Run
  does not connect the parameter to `Crawler.Fetch`, because the redirect
  recursion of getSites is not modelled (see the next line).
- Crawler.GetSites models a redirect as one step. `Fetch` returns the next
  item instead of calling getSites on it, so a chain of redirects, which
  may not end, is not followed.
- Sockets, the 3-second read timeout, `close()` and the logging to stdout
  and stderr are left out. A `Connection` value decides which early return
  happens. Output-stream failure and input-stream failure are both
  represented, since one happens before the request is written and one
  after.
- `java.net.URL` is not part of this model. Its parsing is the parameter
  `UrlParser`, and a `MalformedURLException` is `None`.
- `Crawler.main`, the command-line handling and the thread start-up are
  not part of this model.
- `depth + 1` in run and the parked counter are Java `int` values. The model
  uses unbounded integers, so 32-bit wrap-around is not modelled.
- Lines are sequences of characters. `readLine`'s line-terminator handling
  and the character decoding of the input stream are left out.
- Crawler.ReadLinks follows the code, not the comment above it, on a read
  error in a 2xx body. The comment at Crawler.java:304-306 says the empty
  list is returned. The `return URLs` at Crawler.java:307 actually returns
  the links gathered so far, and the model does the same.
