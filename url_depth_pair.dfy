/**
 * A work item of the crawler: a URL together with the depth at which it
 * was discovered (URLDepthPair.java).  The Java class has two final fields
 * and no `equals`, so two items are the same item only when they are the
 * same object; it is modelled as a class whose fields are `const`.
 */
module UrlDepth {
  import opened Options

  /** The host and path that java.net.URL extracts from a well-formed URL. */
  datatype UrlParts = UrlParts(host: string, path: string)

  /**
   * java.net.URL is not part of this model: its parsing is a parameter.
   * `None` stands for a MalformedURLException.
   */
  type UrlParser = string -> Option<UrlParts>

  predicate IsDigit(c: char) { '0' <= c <= '9' }

  predicate AllDigits(s: string) { forall i :: 0 <= i < |s| ==> IsDigit(s[i]) }

  function DigitChar(d: nat): (c: char)
    requires d < 10
    ensures IsDigit(c)
  {
    "0123456789"[d]
  }

  function DigitValue(c: char): (d: nat)
    requires IsDigit(c)
    ensures d < 10
  {
    (c as int) - ('0' as int)
  }

  /** Decimal text of a natural number, most significant digit first, no leading zeros. */
  function NatToDecimal(n: nat): (s: string)
    ensures 1 <= |s| && AllDigits(s)
    ensures |s| > 1 ==> s[0] != '0'
  {
    if n < 10 then [DigitChar(n)] else NatToDecimal(n / 10) + [DigitChar(n % 10)]
  }

  /** Integer.toString: an optional minus sign, then the decimal digits. */
  function IntToDecimal(i: int): string
  {
    if i < 0 then "-" + NatToDecimal(-i) else NatToDecimal(i)
  }

  /** Reads a non-empty string of decimal digits. */
  function ParseNat(s: string): nat
    requires 1 <= |s| && AllDigits(s)
  {
    if |s| == 1 then DigitValue(s[0])
    else ParseNat(s[..|s| - 1]) * 10 + DigitValue(s[|s| - 1])
  }

  /** Reads an optional minus sign followed by decimal digits; anything else is rejected. */
  function ParseInt(s: string): (r: Option<int>)
    ensures r.Some? ==> |s| >= 1
  {
    if |s| >= 2 && s[0] == '-' && AllDigits(s[1..]) then Some(-(ParseNat(s[1..]) as int))
    else if |s| >= 1 && AllDigits(s) then Some(ParseNat(s))
    else None
  }

  lemma {:induction false} ParseNatRoundTrip(n: nat)
    ensures ParseNat(NatToDecimal(n)) == n
  {
    if n >= 10 {
      var s := NatToDecimal(n);
      assert s[..|s| - 1] == NatToDecimal(n / 10);
      ParseNatRoundTrip(n / 10);
    }
  }

  /** Integer.toString is undone by reading the text back. */
  lemma IntToDecimalRoundTrip(i: int)
    ensures ParseInt(IntToDecimal(i)) == Some(i)
  {
    var s := IntToDecimal(i);
    if i < 0 {
      assert s[1..] == NatToDecimal(-i);
      ParseNatRoundTrip(-i);
    } else {
      ParseNatRoundTrip(i);
    }
  }

  /** Index of the first tab character of `s`, if any. */
  function FirstTab(s: string): (r: Option<nat>)
    ensures r.Some? ==> r.value < |s| && s[r.value] == '\t' && '\t' !in s[..r.value]
    ensures r.None? ==> '\t' !in s
  {
    if |s| == 0 then None
    else if s[0] == '\t' then Some(0)
    else match FirstTab(s[1..])
      case None => None
      case Some(k) => assert s[..k + 1] == [s[0]] + s[1..][..k]; Some(k + 1)
  }

  /** Splits `depth<TAB>URL` at its first tab and reads the depth back. */
  function ParseRendering(s: string): Option<(int, string)>
  {
    match FirstTab(s)
    case None => None
    case Some(k) =>
      match ParseInt(s[..k])
      case None => None
      case Some(d) => Some((d, s[k + 1..]))
  }

  /**
   * A work item.  The fields are final in the source and read through
   * getURL and getDepth; here they are `const` fields, read directly.
   */
  class URLDepthPair {
    const url: string
    const depth: int

    constructor (url: string, depth: int)
      ensures this.url == url && this.depth == depth
    {
      this.url := url;
      this.depth := depth;
    }

    /** toString: the rendering, which reads back to the depth and the URL. */
    function ToString(): (s: string)
      ensures ParseRendering(s) == Some((depth, url))
    {
      RenderingRoundTrip(depth, url);
      Rendering(depth, url)
    }

    /** getDocPath: the path of the URL, or `None` when the URL is malformed. */
    function DocPath(parse: UrlParser): (r: Option<string>)
      ensures r.None? <==> parse(url).None?
      ensures r.Some? ==> r.value == parse(url).value.path
    {
      match parse(url)
      case None => None
      case Some(parts) => Some(parts.path)
    }

    /** getWebHost: the host of the URL, or `None` when the URL is malformed. */
    function WebHost(parse: UrlParser): (r: Option<string>)
      ensures r.None? <==> parse(url).None?
      ensures r.Some? ==> r.value == parse(url).value.host
    {
      match parse(url)
      case None => None
      case Some(parts) => Some(parts.host)
    }
  }

  /** `depth`, a tab, then the URL. */
  function Rendering(depth: int, url: string): string
  {
    IntToDecimal(depth) + "\t" + url
  }

  /** Decimal text never holds a tab, so the first tab of the rendering is the separator. */
  lemma {:induction false} RenderingSplit(depth: int, url: string)
    ensures FirstTab(Rendering(depth, url)) == Some(|IntToDecimal(depth)|)
    ensures Rendering(depth, url)[..|IntToDecimal(depth)|] == IntToDecimal(depth)
    ensures Rendering(depth, url)[|IntToDecimal(depth)| + 1..] == url
  {
    var d := IntToDecimal(depth);
    var s := Rendering(depth, url);
    assert forall i :: 0 <= i < |d| ==> d[i] != '\t' by {
      if depth < 0 {
        assert forall i :: 1 <= i < |d| ==> d[i] == NatToDecimal(-depth)[i - 1];
      }
    }
    assert s[..|d|] == d;
    assert s[|d|] == '\t';
    assert s[|d| + 1..] == url;
    assert forall i :: 0 <= i < |d| ==> s[i] != '\t' by {
      forall i | 0 <= i < |d| ensures s[i] != '\t' { assert s[i] == s[..|d|][i]; }
    }
    assert s[..|d| + 1][|d|] == '\t';
  }

  /** Reading the rendering back recovers the depth and the URL unchanged. */
  lemma RenderingRoundTrip(depth: int, url: string)
    ensures ParseRendering(Rendering(depth, url)) == Some((depth, url))
  {
    RenderingSplit(depth, url);
    IntToDecimalRoundTrip(depth);
  }
}
