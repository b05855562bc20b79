/**
 * One call of Crawler.getSites: write the request, read the status line,
 * then either collect quoted links from a 2xx body or look for a
 * `Location: ` header in a 3xx body.
 *
 * The socket is replaced by a `Connection` value and the response by the
 * lines `BufferedReader.readLine` would deliver, followed by end of stream
 * or an IOException.  A redirect is one step: the call returns the next
 * item to fetch instead of fetching it.
 */
module Crawler {
  import opened Options
  import opened UrlDepth
  import opened Matching

  datatype StreamEnd = EndOfFile | ReadError

  /** The lines of a response, then what the next readLine meets. */
  datatype Response = Response(lines: seq<string>, end: StreamEnd)

  /** A readLine call: a line, `null` at end of stream, or an IOException. */
  datatype ReadResult = Line(text: string) | EndOfStream | IOError

  /**
   * What opening the socket gives: nothing (unknown host, connect or
   * timeout-setting or output-stream failure), an output stream only (the
   * input stream fails after the request is written), or a full exchange.
   */
  datatype Connection = Refused | OutputOnly | Open(response: Response)

  /**
   * The result of one fetch step.  `Empty` is every early return of the
   * empty list; `Thrown` is an exception escaping getSites.
   */
  datatype FetchOutcome =
    | Links(links: seq<string>)
    | Redirect(url: string, depth: int)
    | Empty
    | Thrown

  /** The `i`-th readLine call on a response. */
  function ReadLine(r: Response, i: nat): ReadResult
  {
    if i < |r.lines| then Line(r.lines[i])
    else if r.end == EndOfFile then EndOfStream
    else IOError
  }

  // ------------------------------------------------------------ the request

  /**
   * The lines written to the socket: a GET line for the path, or for `/`
   * when the path is empty, the Host line, `Connection: close` and the blank
   * line that ends the header.
   */
  function RequestLines(docPath: string, webHost: string): (r: seq<string>)
    ensures |r| == 4 && RequestTarget(r[0]) == Some(if docPath == "" then "/" else docPath)
    ensures r[1] == "Host: " + webHost && r[2] == "Connection: close" && r[3] == ""
  {
    if |docPath| == 0 then
      RequestLineTarget("/");
      assert "GET " + "/" + " HTTP/1.1" == "GET / HTTP/1.1";
      ["GET / HTTP/1.1", "Host: " + webHost, "Connection: close", ""]
    else
      RequestLineTarget(docPath);
      ["GET " + docPath + " HTTP/1.1", "Host: " + webHost, "Connection: close", ""]
  }

  /** The target of a request line `GET <target> HTTP/1.1`. */
  function RequestTarget(line: string): Option<string>
  {
    if |line| >= 13 && line[..4] == "GET " && line[|line| - 9..] == " HTTP/1.1"
    then Some(line[4..|line| - 9]) else None
  }

  /** A GET line reads back to the target it was written for. */
  lemma RequestLineTarget(target: string)
    requires target != ""
    ensures RequestTarget("GET " + target + " HTTP/1.1") == Some(target)
  {
    var line := "GET " + target + " HTTP/1.1";
    assert line[..4] == "GET ";
    assert line[|line| - 9..] == " HTTP/1.1";
    assert line[4..|line| - 9] == target;
  }

  // ------------------------------------------------------------ the status class

  /**
   * `Integer.valueOf(lineCode.substring(start, end - 2))` for a status match:
   * every match is three characters long, so this is its first digit.
   */
  function CodeOf(line: string, sp: Span): (c: int)
    requires IsMatch(StatusAt, line, sp)
    ensures 2 <= c <= 4
  {
    DigitValue(line[sp.start])
  }

  /** The class digit of the last match of `(2|3|4)[0-9]{2}` in the status line, or 0. */
  function StatusClass(line: string): (c: int)
    ensures c == 0 || c == 2 || c == 3 || c == 4
  {
    var sps := Spans(StatusAt, line, 0);
    if sps == [] then 0
    else
      SpansAreMatches(StatusAt, line, 0, |sps| - 1);
      CodeOf(line, sps[|sps| - 1])
  }

  /** The class is 0 exactly when no three-character status code occurs anywhere in the line. */
  lemma StatusClassZero(line: string)
    ensures StatusClass(line) == 0 <==> forall i :: 0 <= i < |line| ==> StatusAt(line, i).None?
  {
    var sps := Spans(StatusAt, line, 0);
    if sps != [] {
      SpansAreMatches(StatusAt, line, 0, 0);
    }
    if exists i :: 0 <= i < |line| && StatusAt(line, i).Some? {
      var i :| 0 <= i < |line| && StatusAt(line, i).Some?;
      SpansComplete(StatusAt, line, 0, i);
    }
  }

  /**
   * A non-zero class is the first digit of the last status code the find()
   * loop reports, after which no further status code starts.
   */
  lemma StatusClassIsLast(line: string)
    requires StatusClass(line) != 0
    ensures exists i :: (0 <= i < |line| && StatusAt(line, i).Some?
      && i == Spans(StatusAt, line, 0)[|Spans(StatusAt, line, 0)| - 1].start
      && DigitValue(line[i]) == StatusClass(line)
      && forall q :: i + 3 <= q < |line| ==> StatusAt(line, q).None?)
  {
    var sps := Spans(StatusAt, line, 0);
    var last := sps[|sps| - 1];
    NoMatchAfterLast(StatusAt, line, 0);
    SpansAreMatches(StatusAt, line, 0, |sps| - 1);
    forall q | last.start + 3 <= q < |line|
      ensures StatusAt(line, q).None?
    {
      assert !MatchesAt(StatusAt, line, q);
    }
  }



  /** The loop `while (matcherCode.find()) serverCode = ...` over the status line. */
  method ServerCode(lineCode: string) returns (serverCode: int)
    ensures serverCode == StatusClass(lineCode)
  {
    serverCode := 0;
    ghost var pos: nat := 0;
    ghost var done: seq<Span> := [];
    var m := Find(StatusAt, lineCode, 0);
    while m.Some?
      invariant pos <= |lineCode| && m == FirstMatch(StatusAt, lineCode, pos)
      invariant Spans(StatusAt, lineCode, 0) == done + Spans(StatusAt, lineCode, pos)
      invariant done != [] ==> IsMatch(StatusAt, lineCode, done[|done| - 1])
      invariant serverCode == if done == [] then 0 else CodeOf(lineCode, done[|done| - 1])
      decreases |lineCode| - pos
    {
      var sp := m.value;
      serverCode := DigitValue(lineCode[sp.start]);
      SpansStep(StatusAt, lineCode, pos, done, sp);
      done, pos := done + [sp], sp.end;
      m := Find(StatusAt, lineCode, sp.end);
    }
  }

  // ------------------------------------------------------------ links in a 2xx body

  /** The span covers at least its two quote characters and lies within the line. */
  predicate Quoted(line: string, sp: Span)
  {
    sp.start + 2 <= sp.end <= |line|
  }

  /** A link match with its opening and closing quote removed ("" for a span that is not one). */
  function LinkText(line: string, sp: Span): string
  {
    if Quoted(line, sp) then line[sp.start + 1..sp.end - 1] else ""
  }

  function TextsOf(line: string, sps: seq<Span>): (links: seq<string>)
    ensures |links| == |sps|
  {
    if sps == [] then [] else TextsOf(line, sps[..|sps| - 1]) + [LinkText(line, sps[|sps| - 1])]
  }

  /** The links one line contributes, in match order. */
  function LinksIn(line: string): seq<string>
  {
    TextsOf(line, Spans(LinkAt, line, 0))
  }

  /** The links of a body, line after line. */
  function LinksOfLines(lines: seq<string>): seq<string>
  {
    if lines == [] then [] else LinksOfLines(lines[..|lines| - 1]) + LinksIn(lines[|lines| - 1])
  }

  lemma TextsOfSnoc(line: string, sps: seq<Span>, sp: Span)
    ensures TextsOf(line, sps + [sp]) == TextsOf(line, sps) + [LinkText(line, sp)]
  {
    assert (sps + [sp])[..|sps|] == sps;
  }

  lemma {:induction false} TextsOfAt(line: string, sps: seq<Span>, k: nat)
    requires k < |sps|
    ensures TextsOf(line, sps)[k] == LinkText(line, sps[k])
  {
    if k < |sps| - 1 {
      TextsOfAt(line, sps[..|sps| - 1], k);
    }
  }

  /** The text of one link match is in the regex's language, at least 11 characters long and quote-free. */
  lemma LinkTextOfMatch(line: string, sp: Span)
    requires IsMatch(LinkAt, line, sp)
    ensures LinkRegexMatch(line, sp.start, sp.end)
    ensures |LinkText(line, sp)| >= 11 && '"' !in LinkText(line, sp)
  {
    LinkAtIsRegex(line, sp.start, sp.end);
    LinkTextShape(line[sp.start + 1..sp.end - 1]);
  }

  /**
   * The k-th link of a line is the interior of the k-th match of the link
   * regex; it is at least 11 characters long and holds no quote.
   */
  lemma LinksInShape(line: string, k: nat)
    requires k < |LinksIn(line)|
    ensures k < |Spans(LinkAt, line, 0)|
    ensures LinksIn(line)[k] == LinkText(line, Spans(LinkAt, line, 0)[k])
    ensures LinkRegexMatch(line, Spans(LinkAt, line, 0)[k].start, Spans(LinkAt, line, 0)[k].end)
    ensures |LinksIn(line)[k]| >= 11 && '"' !in LinksIn(line)[k]
  {
    var sps := Spans(LinkAt, line, 0);
    TextsOfAt(line, sps, k);
    SpansAreMatches(LinkAt, line, 0, k);
    LinkTextOfMatch(line, sps[k]);
  }

  /** One more body line: its links follow those found so far. */
  lemma LinksOfLinesSnoc(lines: seq<string>, line: string)
    ensures LinksOfLines(lines + [line]) == LinksOfLines(lines) + LinksIn(line)
  {
    assert (lines + [line])[..|lines|] == lines;
  }

  /** Links come back in line order: the links of a split body are those of its parts, concatenated. */
  lemma {:induction false} LinksOfLinesAppend(a: seq<string>, b: seq<string>)
    ensures LinksOfLines(a + b) == LinksOfLines(a) + LinksOfLines(b)
    decreases |b|
  {
    if b == [] {
      assert a + b == a;
    } else {
      var b' := b[..|b| - 1];
      assert (a + b)[..|a + b| - 1] == a + b';
      LinksOfLinesAppend(a, b');
      ConcatAssoc(LinksOfLines(a), LinksOfLines(b'), LinksIn(b[|b| - 1]));
    }
  }

  /** Every link of a body is at least 11 characters long and holds no quote. */
  lemma {:induction false} LinksOfLinesShape(lines: seq<string>, l: string)
    requires l in LinksOfLines(lines)
    ensures |l| >= 11 && '"' !in l
  {
    var init := lines[..|lines| - 1];
    if l in LinksOfLines(init) {
      LinksOfLinesShape(init, l);
    } else {
      var line := lines[|lines| - 1];
      var k :| 0 <= k < |LinksIn(line)| && LinksIn(line)[k] == l;
      LinksInShape(line, k);
    }
  }

  /** The loop `while (matcherURL.find()) URLs.add(...)` over one body line. */
  method ScanLinks(line: string, urls: seq<string>) returns (result: seq<string>)
    ensures result == urls + LinksIn(line)
  {
    result := urls;
    ghost var pos: nat := 0;
    ghost var done: seq<Span> := [];
    var m := Find(LinkAt, line, 0);
    while m.Some?
      invariant pos <= |line| && m == FirstMatch(LinkAt, line, pos)
      invariant Spans(LinkAt, line, 0) == done + Spans(LinkAt, line, pos)
      invariant result == urls + TextsOf(line, done)
      decreases |line| - pos
    {
      var sp := m.value;
      var newLink := line[sp.start + 1..sp.end - 1];
      SpansStep(LinkAt, line, pos, done, sp);
      assert result + [newLink] == urls + TextsOf(line, done + [sp]) by {
        assert newLink == LinkText(line, sp);
        TextsOfSnoc(line, done, sp);
        ConcatAssoc(urls, TextsOf(line, done), [newLink]);
      }
      result := result + [newLink];
      done, pos := done + [sp], sp.end;
      m := Find(LinkAt, line, sp.end);
    }
    assert done == Spans(LinkAt, line, 0);
  }

  // ------------------------------------------------------------ the Location header of a 3xx body

  /** The span covers at least the header name and lies within the line. */
  predicate Located(line: string, sp: Span)
  {
    sp.start + 10 <= sp.end <= |line|
  }

  /** The text after `Location: ` in a match. */
  function LocationTarget(line: string, sp: Span): string
    requires Located(line, sp)
  {
    line[sp.start + 10..sp.end]
  }

  /** A redirect target is a non-empty run of non-whitespace characters. */
  lemma LocationTargetShape(line: string, sp: Span)
    requires IsMatch(LocationAt, line, sp)
    ensures |LocationTarget(line, sp)| > 0
    ensures forall j :: 0 <= j < |LocationTarget(line, sp)| ==> !IsSpace(LocationTarget(line, sp)[j])
  {
    LocationAtIsRegex(line, sp.start, sp.end);
    var t := LocationTarget(line, sp);
    assert forall j :: 0 <= j < |t| ==> t[j] == line[sp.start + 10 + j];
  }

  /** The target of the last Location match on a line, if the line has one. */
  function LineTarget(line: string): (r: Option<string>)
    ensures r.Some? ==> |r.value| > 0 && forall j :: 0 <= j < |r.value| ==> !IsSpace(r.value[j])
  {
    var sps := Spans(LocationAt, line, 0);
    if sps == [] then None
    else
      SpansAreMatches(LocationAt, line, 0, |sps| - 1);
      LocationTargetShape(line, sps[|sps| - 1]);
      Some(LocationTarget(line, sps[|sps| - 1]))
  }

  /** newURL after scanning one line: the target of its last match, or unchanged. */
  function LocationIn(line: string, current: string): string
  {
    var sps := Spans(LocationAt, line, 0);
    if sps == [] then current
    else
      SpansAreMatches(LocationAt, line, 0, |sps| - 1);
      LocationTarget(line, sps[|sps| - 1])
  }

  /** newURL after scanning a whole body, starting from "". */
  function LastLocation(lines: seq<string>): string
  {
    if lines == [] then "" else LocationIn(lines[|lines| - 1], LastLocation(lines[..|lines| - 1]))
  }

  /** The value `target` gives for the last line for which it gives one, or "" when it gives none. */
  function LastTarget(lines: seq<string>, target: string -> Option<string>): string
  {
    if lines == [] then ""
    else match target(lines[|lines| - 1])
      case Some(t) => t
      case None => LastTarget(lines[..|lines| - 1], target)
  }

  lemma {:induction false} LastTargetIsLast(lines: seq<string>, target: string -> Option<string>)
    requires forall l :: target(l) != Some("")
    ensures LastTarget(lines, target) == "" <==> forall i :: 0 <= i < |lines| ==> target(lines[i]).None?
    ensures LastTarget(lines, target) != "" ==> exists i :: (0 <= i < |lines| && target(lines[i]).Some?
      && (forall j :: i < j < |lines| ==> target(lines[j]).None?)
      && LastTarget(lines, target) == target(lines[i]).value)
  {
    if lines != [] {
      var init := lines[..|lines| - 1];
      LastTargetIsLast(init, target);
      if target(lines[|lines| - 1]).None? {
        assert forall i :: 0 <= i < |init| ==> init[i] == lines[i];
        if LastTarget(init, target) != "" {
          var i :| 0 <= i < |init| && target(init[i]).Some?
            && (forall j :: i < j < |init| ==> target(init[j]).None?)
            && LastTarget(init, target) == target(init[i]).value;
          assert forall j :: i < j < |lines| ==> target(lines[j]).None?;
        }
      } else {
        assert target(lines[|lines| - 1]) != Some("");
      }
    }
  }

  lemma {:induction false} LastLocationIsLastTarget(lines: seq<string>)
    ensures LastLocation(lines) == LastTarget(lines, LineTarget)
  {
    if lines != [] {
      var line := lines[|lines| - 1];
      LastLocationIsLastTarget(lines[..|lines| - 1]);
      assert LocationIn(line, LastLocation(lines[..|lines| - 1])) ==
        if LineTarget(line).Some? then LineTarget(line).value else LastLocation(lines[..|lines| - 1]);
    }
  }

  /** One more body line: the target it carries, if any, replaces the one found so far. */
  lemma LastLocationSnoc(lines: seq<string>, line: string)
    ensures LastLocation(lines + [line]) == LocationIn(line, LastLocation(lines))
  {
    assert (lines + [line])[..|lines|] == lines;
  }

  /**
   * The target stays "" when no line has a Location header; otherwise it is
   * the target of the last match on the last line that has one.
   */
  lemma LastLocationIsLast(lines: seq<string>)
    ensures LastLocation(lines) == "" <==> forall i :: 0 <= i < |lines| ==> LineTarget(lines[i]).None?
    ensures LastLocation(lines) != "" ==> exists i :: (0 <= i < |lines| && LineTarget(lines[i]).Some?
      && (forall j :: i < j < |lines| ==> LineTarget(lines[j]).None?)
      && LastLocation(lines) == LineTarget(lines[i]).value)
  {
    LastLocationIsLastTarget(lines);
    LastTargetIsLast(lines, LineTarget);
  }

  /** The loop `while (matcherNewURL.find()) newURL = ...` over one body line. */
  method ScanLocation(tempLine: string, current: string) returns (newURL: string)
    ensures newURL == LocationIn(tempLine, current)
  {
    newURL := current;
    ghost var pos: nat := 0;
    ghost var done: seq<Span> := [];
    var m := Find(LocationAt, tempLine, 0);
    while m.Some?
      invariant pos <= |tempLine| && m == FirstMatch(LocationAt, tempLine, pos)
      invariant Spans(LocationAt, tempLine, 0) == done + Spans(LocationAt, tempLine, pos)
      invariant done != [] ==> Located(tempLine, done[|done| - 1])
      invariant newURL == if done == [] then current else LocationTarget(tempLine, done[|done| - 1])
      decreases |tempLine| - pos
    {
      var sp := m.value;
      newURL := tempLine[sp.start + 10..sp.end];
      SpansStep(LocationAt, tempLine, pos, done, sp);
      done, pos := done + [sp], sp.end;
      m := Find(LocationAt, tempLine, sp.end);
    }
    assert done == Spans(LocationAt, tempLine, 0);
  }

  // ------------------------------------------------------------ one fetch step

  /** A redirect back to the requested URL ends the fetch; any other target is fetched at the same depth. */
  function RedirectDecision(newURL: string, item: URLDepthPair): (r: FetchOutcome)
    ensures r.Empty? <==> newURL == item.url
    ensures !r.Empty? ==> r.Redirect? && r.url == newURL && r.depth == item.depth
  {
    if newURL == item.url then Empty else Redirect(newURL, item.depth)
  }

  /** What the response yields once the request is written. */
  function Classify(item: URLDepthPair, response: Response): (r: FetchOutcome)
    ensures !r.Thrown?
    ensures r.Links? <==> |response.lines| > 0 && StatusClass(response.lines[0]) == 2
    ensures r.Links? ==> r.links == LinksOfLines(response.lines[1..])
    ensures r.Redirect? <==>
      && |response.lines| > 0 && StatusClass(response.lines[0]) == 3
      && response.end == EndOfFile && LastLocation(response.lines[1..]) != item.url
    ensures r.Redirect? ==> r.url == LastLocation(response.lines[1..]) && r.depth == item.depth
  {
    if |response.lines| == 0 then Empty
    else
      var code := StatusClass(response.lines[0]);
      var body := response.lines[1..];
      if code == 2 then Links(LinksOfLines(body))
      else if code == 3 then
        if response.end == ReadError then Empty
        else
          assert response.end == EndOfFile;
          RedirectDecision(LastLocation(body), item)
      else Empty
  }

  /** The request written and the outcome of one call of getSites. */
  function Fetch(item: URLDepthPair, parse: UrlParser, conn: Connection): (r: (seq<string>, FetchOutcome))
    ensures r.1.Thrown? <==> !conn.Refused? && parse(item.url).None?
    ensures r.0 != [] <==> !conn.Refused? && parse(item.url).Some?
    ensures r.0 != [] ==> RequestTarget(r.0[0]) == Some(if parse(item.url).value.path == "" then "/" else parse(item.url).value.path)
    ensures conn.Open? && parse(item.url).Some? ==> r.1 == Classify(item, conn.response)
    ensures !(conn.Open? && parse(item.url).Some?) ==> r.1.Empty? || r.1.Thrown?
  {
    if conn.Refused? then ([], Empty)
    else match parse(item.url)
      case None => ([], Thrown)
      case Some(parts) =>
        var request := RequestLines(parts.path, parts.host);
        if conn.OutputOnly? then (request, Empty) else (request, Classify(item, conn.response))
  }

  /**
   * How the outcome depends on the response: links only for class 2, a
   * redirect only for class 3 with a Location different from the request
   * URL, at the same depth; an exception only for a malformed URL on an open
   * connection; the empty list in every other case.
   */
  lemma FetchOutcomes(item: URLDepthPair, parse: UrlParser, conn: Connection)
    ensures var (request, outcome) := Fetch(item, parse, conn);
      && (outcome.Thrown? <==> !conn.Refused? && parse(item.url).None?)
      && (request != [] <==> !conn.Refused? && parse(item.url).Some?)
      && (outcome.Links? <==>
            conn.Open? && parse(item.url).Some? && |conn.response.lines| > 0
            && StatusClass(conn.response.lines[0]) == 2)
      && (outcome.Links? ==> outcome.links == LinksOfLines(conn.response.lines[1..]))
      && (outcome.Redirect? <==>
            conn.Open? && parse(item.url).Some? && |conn.response.lines| > 0
            && StatusClass(conn.response.lines[0]) == 3 && conn.response.end == EndOfFile
            && LastLocation(conn.response.lines[1..]) != item.url)
      && (outcome.Redirect? ==>
            outcome.url == LastLocation(conn.response.lines[1..]) && outcome.depth == item.depth)
  {
  }

  /** Reading one more line extends the body read so far by that line. */
  lemma SliceSnoc(lines: seq<string>, i: nat)
    requires 1 <= i < |lines|
    ensures lines[1..i + 1] == lines[1..i] + [lines[i]]
  {
  }

  /** Once every line has been read, the body read so far is the whole body. */
  lemma SliceToEnd(lines: seq<string>, i: nat)
    requires 1 <= i == |lines|
    ensures lines[1..i] == lines[1..]
  {
  }

  /**
   * The 2xx reading loop: scan every body line for links.  A read error
   * returns the links gathered so far, as end of stream does.
   */
  method ReadLinks(response: Response) returns (urls: seq<string>)
    requires |response.lines| >= 1
    ensures urls == LinksOfLines(response.lines[1..])
  {
    urls := [];
    var i := 1;
    while true
      invariant 1 <= i <= |response.lines|
      invariant urls == LinksOfLines(response.lines[1..i])
      decreases |response.lines| - i
    {
      var line := ReadLine(response, i);
      if line.IOError? {
        break;
      }
      if line.EndOfStream? {
        break;
      }
      urls := ScanLinks(line.text, urls);
      assert urls == LinksOfLines(response.lines[1..i + 1]) by {
        SliceSnoc(response.lines, i);
        LinksOfLinesSnoc(response.lines[1..i], line.text);
      }
      i := i + 1;
    }
    SliceToEnd(response.lines, i);
  }

  /**
   * The 3xx reading loop: the last Location target of the body, or `None`
   * when a read error cuts the body short.
   */
  method ReadLocation(response: Response) returns (newURL: Option<string>)
    requires |response.lines| >= 1
    ensures newURL == if response.end == ReadError then None else Some(LastLocation(response.lines[1..]))
  {
    var target := "";
    var i := 1;
    while true
      invariant 1 <= i <= |response.lines|
      invariant target == LastLocation(response.lines[1..i])
      decreases |response.lines| - i
    {
      var tempLine := ReadLine(response, i);
      if tempLine.IOError? {
        return None;
      }
      if tempLine.EndOfStream? {
        break;
      }
      target := ScanLocation(tempLine.text, target);
      assert target == LastLocation(response.lines[1..i + 1]) by {
        SliceSnoc(response.lines, i);
        LastLocationSnoc(response.lines[1..i], tempLine.text);
      }
      i := i + 1;
    }
    SliceToEnd(response.lines, i);
    return Some(target);
  }

  /** getSites up to the point where it would call itself on a redirect target. */
  method GetSites(myDepthPair: URLDepthPair, parse: UrlParser, conn: Connection)
    returns (request: seq<string>, outcome: FetchOutcome)
    ensures (request, outcome) == Fetch(myDepthPair, parse, conn)
  {
    if conn.Refused? {
      return [], Empty;
    }
    var docPath := myDepthPair.DocPath(parse);
    var webHost := myDepthPair.WebHost(parse);
    if docPath.None? {
      // docPath.length() on null throws NullPointerException
      return [], Thrown;
    }
    request := RequestLines(docPath.value, webHost.value);
    if conn.OutputOnly? {
      return request, Empty;
    }
    var response := conn.response;
    var lineCode := ReadLine(response, 0);
    if !lineCode.Line? {
      // empty response, or IOException on the status line
      return request, Empty;
    }
    var serverCode := ServerCode(lineCode.text);
    if serverCode == 2 {
      var urls := ReadLinks(response);
      return request, Links(urls);
    }
    if serverCode == 3 {
      var newURL := ReadLocation(response);
      if newURL.None? {
        return request, Empty;
      }
      return request, RedirectDecision(newURL.value, myDepthPair);
    }
    return request, Empty;
  }
}
