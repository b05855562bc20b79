/**
 * The three fixed regular expressions of Crawler.getSites and the
 * `Matcher.find()` loop that scans a line with them: each call finds the
 * leftmost match starting at or after the end of the previous one.
 *
 * A compiled pattern is modelled as a `Matcher`: given a line and a start
 * position `i`, the end of the match that java.util.regex reports when its
 * search reaches `i` (greedy quantifiers), or `None` when no match starts
 * there.  `StatusAt`, `LinkAt` and `LocationAt` are the three patterns.
 */
module Matching {
  import opened Options
  import opened UrlDepth

  type Matcher = (string, nat) -> Option<nat>

  /** A match: the half-open range [start, end) of the line. */
  datatype Span = Span(start: nat, end: nat)

  // ------------------------------------------------------------ characters

  /** `\w`: an ASCII letter, digit or underscore. */
  predicate IsWordChar(c: char)
  {
    ('a' <= c <= 'z') || ('A' <= c <= 'Z') || IsDigit(c) || c == '_'
  }

  /** `\s`: space, tab, newline, vertical tab, form feed, carriage return. */
  predicate IsSpace(c: char)
  {
    c == ' ' || c == '\t' || c == '\n' || c == '\r' || c as int == 0x0B || c as int == 0x0C
  }

  /** The character classes of the link pattern. */
  datatype CharClass =
    | Scheme  // [https?://]: one of h t p s ? : /
    | Host    // [\w\.\-]
    | Letter  // [A-Za-z]
    | Path    // [\w\.-/]: word characters and the range '.' to '/'

  predicate InClass(cls: CharClass, c: char)
  {
    match cls
    case Scheme => c == 'h' || c == 't' || c == 'p' || c == 's' || c == '?' || c == ':' || c == '/'
    case Host => IsWordChar(c) || c == '.' || c == '-'
    case Letter => ('a' <= c <= 'z') || ('A' <= c <= 'Z')
    case Path => IsWordChar(c) || ('.' <= c <= '/')
  }

  /** Every character of `s` is in the class (one character at a time, see AllInAt). */
  predicate AllIn(s: string, cls: CharClass)
  {
    |s| == 0 || (InClass(cls, s[0]) && AllIn(s[1..], cls))
  }

  lemma {:induction false} AllInAt(s: string, cls: CharClass)
    ensures AllIn(s, cls) <==> forall i :: 0 <= i < |s| ==> InClass(cls, s[i])
    decreases |s|
  {
    if |s| > 0 {
      AllInAt(s[1..], cls);
      assert forall i :: 1 <= i < |s| ==> s[i] == s[1..][i - 1];
    }
  }

  // ------------------------------------------------------------ the link pattern

  /**
   * The interior of a link match (between the quotes), split as the regex
   * reads it: `k` scheme-class characters, an optional `www` of length `w`,
   * host characters up to the dot at `h`, `m` letters, then path characters.
   */
  ghost predicate LinkSplit(t: string, k: int, w: int, h: int, m: int)
  {
    && (k == 7 || k == 8) && (w == 0 || w == 3) && 2 <= m <= 6
    && k + w < h && h + 1 + m <= |t|
    && AllIn(t[..k], Scheme)
    && (w == 3 ==> t[k..k + 3] == "www")
    && AllIn(t[k + w..h], Host)
    && t[h] == '.'
    && AllIn(t[h + 1..h + 1 + m], Letter)
    && AllIn(t[h + 1 + m..], Path)
  }

  /** The language of the link regex between its two quote characters. */
  ghost predicate LinkPattern(t: string)
  {
    exists k, w, h, m :: LinkSplit(t, k, w, h, m)
  }

  /** `r` has host characters before a dot at `d`, two letters after it, then path characters. */
  predicate HostTldPathAt(r: string, d: int)
  {
    && 1 <= d <= |r| - 3
    && AllIn(r[..d], Host) && r[d] == '.'
    && InClass(Letter, r[d + 1]) && InClass(Letter, r[d + 2])
    && AllIn(r[d + 3..], Path)
  }

  /** Some dot at `d` or later splits `r` as HostTldPathAt describes. */
  predicate HostTldPathFrom(r: string, d: nat)
    decreases |r| - d
  {
    d + 3 <= |r| && (HostTldPathAt(r, d) || HostTldPathFrom(r, d + 1))
  }

  predicate HostTldPath(r: string)
  {
    HostTldPathFrom(r, 1)
  }

  lemma {:induction false} HostTldPathFromExists(r: string, d0: nat)
    ensures HostTldPathFrom(r, d0) <==> exists d :: d0 <= d && HostTldPathAt(r, d)
    decreases |r| - d0
  {
    if d0 + 3 <= |r| {
      HostTldPathFromExists(r, d0 + 1);
      if exists d :: d0 <= d && HostTldPathAt(r, d) {
        var d :| d0 <= d && HostTldPathAt(r, d);
        if d != d0 {
          assert d0 + 1 <= d;
        }
      }
    }
  }

  /** Decides LinkPattern (see LinkTextIsPattern). */
  predicate IsLinkText(t: string)
  {
    || (|t| >= 7 && AllIn(t[..7], Scheme) && HostTldPath(t[7..]))
    || (|t| >= 8 && AllIn(t[..8], Scheme) && HostTldPath(t[8..]))
  }

  lemma HostTldPathFromSplit(t: string, k: int, w: int, h: int, m: int)
    requires LinkSplit(t, k, w, h, m)
    ensures HostTldPath(t[k..])
  {
    var r := t[k..];
    var d := h - k;
    var host := r[..d];
    AllInAt(t[k + w..h], Host);
    AllInAt(t[h + 1..h + 1 + m], Letter);
    AllInAt(t[h + 1 + m..], Path);
    AllInAt(host, Host);
    assert AllIn(host, Host) by {
      forall i | 0 <= i < d ensures InClass(Host, host[i]) {
        if i < w {
          assert host[i] == t[k..k + 3][i];
        } else {
          assert host[i] == t[k + w..h][i - w];
        }
      }
    }
    var tld := t[h + 1..h + 1 + m];
    assert r[d + 1] == tld[0] && r[d + 2] == tld[1];
    var tail := r[d + 3..];
    AllInAt(tail, Path);
    assert AllIn(tail, Path) by {
      forall i | 0 <= i < |tail| ensures InClass(Path, tail[i]) {
        if i < m - 2 {
          assert tail[i] == tld[i + 2];
        } else {
          assert tail[i] == t[h + 1 + m..][i - m + 2];
        }
      }
    }
    assert HostTldPathAt(r, d);
    HostTldPathFromExists(r, 1);
  }

  lemma SplitFromHostTldPath(t: string, k: int)
    requires k == 7 || k == 8
    requires |t| >= k && AllIn(t[..k], Scheme) && HostTldPath(t[k..])
    ensures LinkPattern(t)
  {
    var r := t[k..];
    HostTldPathFromExists(r, 1);
    var d :| 1 <= d && HostTldPathAt(r, d);
    var h := k + d;
    assert t[k..h] == r[..d];
    var tld := t[h + 1..h + 3];
    assert tld[0] == r[d + 1] && tld[1] == r[d + 2];
    AllInAt(tld, Letter);
    assert t[h + 3..] == r[d + 3..];
    assert LinkSplit(t, k, 0, h, 2);
  }

  /** The decision procedure accepts exactly the language of the regex. */
  lemma LinkTextIsPattern(t: string)
    ensures IsLinkText(t) <==> LinkPattern(t)
  {
    if IsLinkText(t) {
      if |t| >= 7 && AllIn(t[..7], Scheme) && HostTldPath(t[7..]) {
        SplitFromHostTldPath(t, 7);
      } else {
        SplitFromHostTldPath(t, 8);
      }
    }
    if LinkPattern(t) {
      var k, w, h, m :| LinkSplit(t, k, w, h, m);
      HostTldPathFromSplit(t, k, w, h, m);
    }
  }


  /** A link text is at least 11 characters long and holds no quote character. */
  lemma LinkTextShape(t: string)
    requires IsLinkText(t)
    ensures |t| >= 11 && '"' !in t
  {
    var k := if |t| >= 7 && AllIn(t[..7], Scheme) && HostTldPath(t[7..]) then 7 else 8;
    var r := t[k..];
    HostTldPathFromExists(r, 1);
    var d :| 1 <= d && HostTldPathAt(r, d);
    AllInAt(t[..k], Scheme);
    AllInAt(r[..d], Host);
    AllInAt(r[d + 3..], Path);
    forall i | 0 <= i < |t|
      ensures t[i] != '"'
    {
      if i < k {
        assert t[i] == t[..k][i];
      } else if i < k + d {
        assert t[i] == r[..d][i - k];
      } else if k + d + 3 <= i {
        assert t[i] == r[d + 3..][i - k - d - 3];
      } else {
        assert t[i] == r[i - k];
      }
    }
  }

  // ------------------------------------------------------------ scanning helpers

  /** Index of the first quote character at or after `from` (see NextQuoteIsFirst). */
  function NextQuote(line: string, from: nat): (r: Option<nat>)
    requires from <= |line|
    ensures r.Some? ==> from <= r.value < |line| && line[r.value] == '"'
    decreases |line| - from
  {
    if from == |line| then None
    else if line[from] == '"' then Some(from)
    else NextQuote(line, from + 1)
  }

  /** NextQuote finds the first quote: none lies between `from` and it, or after `from` at all. */
  lemma {:induction false} NextQuoteIsFirst(line: string, from: nat)
    requires from <= |line|
    ensures var r := NextQuote(line, from);
      && (r.Some? ==> forall j :: from <= j < r.value ==> line[j] != '"')
      && (r.None? ==> forall j :: from <= j < |line| ==> line[j] != '"')
    decreases |line| - from
  {
    if from < |line| && line[from] != '"' {
      NextQuoteIsFirst(line, from + 1);
    }
  }

  /** The header name `Location: ` (ten characters, the last a space) starts at `i`. */
  predicate LocationNameAt(line: string, i: nat)
  {
    && i + 10 <= |line|
    && line[i] == 'L' && line[i + 1] == 'o' && line[i + 2] == 'c' && line[i + 3] == 'a'
    && line[i + 4] == 't' && line[i + 5] == 'i' && line[i + 6] == 'o' && line[i + 7] == 'n'
    && line[i + 8] == ':' && line[i + 9] == ' '
  }

  lemma LocationNameAtIsSlice(line: string, i: nat)
    ensures LocationNameAt(line, i) <==> i + 10 <= |line| && line[i..i + 10] == "Location: "
  {
    if i + 10 <= |line| && line[i..i + 10] == "Location: " {
      assert forall j :: 0 <= j < 10 ==> line[i + j] == "Location: "[j];
    }
  }

  /** End of the run of non-whitespace characters starting at `from` (see RunEndIsMaximal). */
  function RunEnd(line: string, from: nat): (r: nat)
    requires from <= |line|
    ensures from <= r <= |line|
    ensures r == |line| || IsSpace(line[r])
    decreases |line| - from
  {
    if from == |line| || IsSpace(line[from]) then from else RunEnd(line, from + 1)
  }

  /** The run RunEnd closes holds no whitespace, so it is the longest one. */
  lemma {:induction false} RunEndIsMaximal(line: string, from: nat)
    requires from <= |line|
    ensures forall j :: from <= j < RunEnd(line, from) ==> !IsSpace(line[j])
    decreases |line| - from
  {
    if from < |line| && !IsSpace(line[from]) {
      RunEndIsMaximal(line, from + 1);
    }
  }

  // ------------------------------------------------------------ the three patterns

  /** `(2|3|4)[0-9]{2}` at `i`: a class digit, then two digits. */
  function StatusAt(line: string, i: nat): (r: Option<nat>)
    ensures r.Some? ==> r.value == i + 3 <= |line|
    ensures r.Some? ==> '2' <= line[i] <= '4' && IsDigit(line[i + 1]) && IsDigit(line[i + 2])
  {
    if i + 3 <= |line| && '2' <= line[i] <= '4' && IsDigit(line[i + 1]) && IsDigit(line[i + 2])
    then Some(i + 3) else None
  }

  /**
   * `["][https?://]{7,8}([w]{3})?[\w\.\-]+\.[A-Za-z]{2,6}[\w\.-/]*["]` at `i`:
   * no class of the pattern admits a quote, so the only possible closing
   * quote is the next one, and the text between must be a link text.
   */
  function LinkAt(line: string, i: nat): (r: Option<nat>)
    ensures r.Some? ==> i + 2 <= r.value <= |line|
  {
    if i < |line| && line[i] == '"' then
      match NextQuote(line, i + 1)
      case None => None
      case Some(j) => if IsLinkText(line[i + 1..j]) then Some(j + 1) else None
    else None
  }

  /** `(Location: ){1}[\S]+` at `i`: the header name, then the greedy run of non-whitespace. */
  function LocationAt(line: string, i: nat): (r: Option<nat>)
    ensures r.Some? ==> i + 10 < r.value <= |line|
  {
    if i + 10 < |line| && LocationNameAt(line, i) && !IsSpace(line[i + 10])
    then Some(RunEnd(line, i + 10)) else None
  }

  /**
   * The link regex, read directly: an opening quote, an interior in its
   * language, a closing quote.
   */
  ghost predicate LinkRegexMatch(line: string, i: nat, e: nat)
  {
    i + 2 <= e <= |line| && line[i] == '"' && line[e - 1] == '"' && LinkPattern(line[i + 1..e - 1])
  }

  /** LinkAt reports a link match exactly where the regex has one, with its only possible end. */
  lemma LinkAtIsRegex(line: string, i: nat, e: nat)
    ensures LinkAt(line, i) == Some(e) <==> LinkRegexMatch(line, i, e)
  {
    if LinkAt(line, i) == Some(e) {
      LinkTextIsPattern(line[i + 1..e - 1]);
    }
    if LinkRegexMatch(line, i, e) {
      var t := line[i + 1..e - 1];
      LinkTextIsPattern(t);
      LinkTextShape(t);
      assert forall j :: i + 1 <= j < e - 1 ==> line[j] == t[j - i - 1];
      NextQuoteIsFirst(line, i + 1);
      assert NextQuote(line, i + 1) == Some(e - 1);
    }
  }

  /** StatusAt matches exactly a digit 2-4 followed by two digits. */
  lemma StatusAtIsRegex(line: string, i: nat, e: nat)
    ensures StatusAt(line, i) == Some(e) <==>
      && e == i + 3 <= |line| && '2' <= line[i] <= '4' && IsDigit(line[i + 1]) && IsDigit(line[i + 2])
  {
  }

  /** LocationAt matches the literal header name, then the longest run of non-whitespace. */
  lemma LocationAtIsRegex(line: string, i: nat, e: nat)
    ensures LocationAt(line, i) == Some(e) <==>
      && i + 10 < e <= |line| && line[i..i + 10] == "Location: "
      && (forall j :: i + 10 <= j < e ==> !IsSpace(line[j]))
      && (e == |line| || IsSpace(line[e]))
  {
    LocationNameAtIsSlice(line, i);
    if i + 10 < |line| {
      RunEndIsMaximal(line, i + 10);
    }
  }

  // ------------------------------------------------------------ Matcher.find

  /**
   * The matcher reports a match [start, end) that is non-empty and lies
   * within the line (every match of the three patterns is, by their
   * contracts; find() would reject any other).
   */
  predicate IsMatch(m: Matcher, line: string, sp: Span)
  {
    sp.start < sp.end <= |line| && m(line, sp.start) == Some(sp.end)
  }

  /** The match starting at `i`, if there is one. */
  predicate MatchesAt(m: Matcher, line: string, i: nat)
  {
    m(line, i).Some? && i < m(line, i).value <= |line|
  }

  /** What one call of find() returns when the search starts at `from`: the leftmost match. */
  function FirstMatch(m: Matcher, line: string, from: nat): (r: Option<Span>)
    requires from <= |line|
    ensures r.Some? ==> from <= r.value.start && IsMatch(m, line, r.value)
    decreases |line| - from
  {
    if from == |line| then None
    else if MatchesAt(m, line, from) then Some(Span(from, m(line, from).value))
    else FirstMatch(m, line, from + 1)
  }

  /** find() skips no match: none starts before the one it reports, and none at all when it reports none. */
  lemma {:induction false} FirstMatchIsLeftmost(m: Matcher, line: string, from: nat)
    requires from <= |line|
    ensures FirstMatch(m, line, from).Some? ==>
      forall q :: from <= q < FirstMatch(m, line, from).value.start ==> !MatchesAt(m, line, q)
    ensures FirstMatch(m, line, from).None? ==> forall q :: from <= q < |line| ==> !MatchesAt(m, line, q)
    decreases |line| - from
  {
    if from < |line| && !MatchesAt(m, line, from) {
      FirstMatchIsLeftmost(m, line, from + 1);
    }
  }

  /** The matches that successive find() calls report, from search position `from` on. */
  function Spans(m: Matcher, line: string, from: nat): (sps: seq<Span>)
    requires from <= |line|
    decreases |line| - from
  {
    match FirstMatch(m, line, from)
    case None => []
    case Some(sp) => [sp] + Spans(m, line, sp.end)
  }

  /** Each reported match is a match of the pattern, at or after the search start. */
  lemma {:induction false} SpansAreMatches(m: Matcher, line: string, from: nat, k: nat)
    requires from <= |line| && k < |Spans(m, line, from)|
    ensures from <= Spans(m, line, from)[k].start && IsMatch(m, line, Spans(m, line, from)[k])
    decreases |line| - from
  {
    var sp := FirstMatch(m, line, from).value;
    assert Spans(m, line, from) == [sp] + Spans(m, line, sp.end);
    if k > 0 {
      SpansAreMatches(m, line, sp.end, k - 1);
    }
  }

  /** Every match start at or after `from` lies inside a reported match: none is skipped. */
  lemma {:induction false} SpansComplete(m: Matcher, line: string, from: nat, q: nat)
    requires from <= |line|
    requires from <= q && MatchesAt(m, line, q)
    ensures exists k :: (0 <= k < |Spans(m, line, from)| &&
      Spans(m, line, from)[k].start <= q < Spans(m, line, from)[k].end)
    decreases |line| - from
  {
    FirstMatchIsLeftmost(m, line, from);
    var first := FirstMatch(m, line, from);
    assert first.Some?;
    var sp := first.value;
    var sps := Spans(m, line, from);
    assert sps == [sp] + Spans(m, line, sp.end);
    if q >= sp.end {
      var rest := Spans(m, line, sp.end);
      SpansComplete(m, line, sp.end, q);
      var k :| 0 <= k < |rest| && rest[k].start <= q < rest[k].end;
      assert sps[k + 1] == rest[k];
    } else {
      assert sps[0] == sp;
    }
  }

  /** Later matches of one scan start no earlier than the end of earlier ones: matches never overlap. */
  lemma {:induction false} SpansOrdered(m: Matcher, line: string, from: nat, j: nat, k: nat)
    requires from <= |line|
    requires j < k < |Spans(m, line, from)|
    ensures Spans(m, line, from)[j].end <= Spans(m, line, from)[k].start
    decreases |line| - from
  {
    var sps := Spans(m, line, from);
    var sp := FirstMatch(m, line, from).value;
    var rest := Spans(m, line, sp.end);
    assert sps == [sp] + rest;
    assert sps[k] == rest[k - 1];
    if j == 0 {
      SpansAreMatches(m, line, sp.end, k - 1);
    } else {
      SpansOrdered(m, line, sp.end, j - 1, k - 1);
      assert sps[j] == rest[j - 1];
    }
  }

  /** No match starts at or after the end of the last match a scan reports. */
  lemma {:induction false} NoMatchAfterLast(m: Matcher, line: string, from: nat)
    requires from <= |line| && Spans(m, line, from) != []
    ensures var sps := Spans(m, line, from);
      forall q :: sps[|sps| - 1].end <= q ==> !MatchesAt(m, line, q)
    decreases |line| - from
  {
    var sps := Spans(m, line, from);
    var sp := FirstMatch(m, line, from).value;
    var rest := Spans(m, line, sp.end);
    assert sps == [sp] + rest;
    if rest == [] {
      FirstMatchIsLeftmost(m, line, sp.end);
    } else {
      NoMatchAfterLast(m, line, sp.end);
      assert sps[|sps| - 1] == rest[|rest| - 1];
    }
  }

  lemma ConcatAssoc<T>(a: seq<T>, b: seq<T>, c: seq<T>)
    ensures a + (b + c) == (a + b) + c
  {
  }

  /**
   * The step of a find() loop: if the search from `pos` reports `sp`, the
   * matches from `pos` on are `sp` followed by the matches from its end.
   */
  lemma SpansStep(m: Matcher, line: string, pos: nat, done: seq<Span>, sp: Span)
    requires pos <= |line| && FirstMatch(m, line, pos) == Some(sp)
    requires Spans(m, line, 0) == done + Spans(m, line, pos)
    ensures sp.end <= |line|
    ensures Spans(m, line, 0) == (done + [sp]) + Spans(m, line, sp.end)
  {
    ConcatAssoc(done, [sp], Spans(m, line, sp.end));
  }

  /** One call of find(): scan start positions from `from` for the leftmost match. */
  method Find(m: Matcher, line: string, from: nat) returns (r: Option<Span>)
    requires from <= |line|
    ensures r == FirstMatch(m, line, from)
  {
    var i := from;
    while i < |line|
      invariant from <= i <= |line|
      invariant FirstMatch(m, line, i) == FirstMatch(m, line, from)
    {
      var e := m(line, i);
      if e.Some? && i < e.value <= |line| {
        return Some(Span(i, e.value));
      }
      i := i + 1;
    }
    return None;
  }
}
