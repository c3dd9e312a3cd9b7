// A parsed HTTP request (lab4 HttpParser/Request/ParsedHttpRequest.cs and
// RequestBody.cs) and Parser.ParseRawRequest.  Reading the request line
// (the RequestLine class) and building the Uri are passed in as functions.

module HttpRequest {
  import opened HttpText
  import opened HttpFields

  /** The three parts of the request line. */
  datatype RequestLine = RequestLine(httpMethod: string, url: string, httpVersion: string)

  // ---------------------------------------------------------------------
  // RequestBody
  // ---------------------------------------------------------------------

  /** SetBodyFromUrlGet: piece 1 of url.Split('?') when the URL holds a '?', else null. */
  function BodyFromUrlGet(url: string): (r: Option<string>)
    ensures r.None? <==> '?' !in url
    ensures r.Some? ==> '?' !in r.value
  {
    if '?' in url then
      SplitOnPieces(url, '?');
      Some(SplitOn(url, '?')[1])
    else None
  }

  /**
   * The GET body is the text after the first '?' of the URL, up to the next
   * '?' or the end; there is none without a '?'.
   */
  lemma BodyFromUrlGetQuery(url: string)
    ensures BodyFromUrlGet(url).None? <==> '?' !in url
    ensures '?' in url ==>
      var i := IndexOf(url, '?');
      var q := BodyFromUrlGet(url).value;
      '?' !in q && q <= url[i + 1..] && (i + 1 + |q| == |url| || url[i + 1 + |q|] == '?')
  {
    SplitOnPieces(url, '?');
    if '?' in url {
      var i := IndexOf(url, '?');
      var rest := url[i + 1..];
      assert SplitOn(url, '?') == [url[..i]] + SplitOn(rest, '?');
      SplitOnHead(rest, '?');
    }
  }

  /** A query without '?' after a path without '?' is read back. */
  lemma BodyFromUrlGetRoundTrip(path: string, query: string)
    requires '?' !in path && '?' !in query
    ensures BodyFromUrlGet(path + "?" + query) == Some(query)
  {
    var url := path + "?" + query;
    assert url == path + (['?'] + query);
    assert url[|path|] == '?';
    SplitOnFirst(path, '?', query);
    assert IndexOf(query, '?') == -1;
  }

  /**
   * SetBodyFromPost: the last line.  Its guard compares lines.Length with
   * -1, which never holds, so an empty array fails on the read of index -1.
   */
  function BodyFromPost(lines: seq<string>): (r: Result<Option<string>>)
    ensures r.Failure? <==> lines == []
    ensures r.Failure? ==> r.error == IndexOutOfRange
    ensures r.Success? ==> r.value == Some(lines[|lines| - 1])
  {
    if |lines| == 0 then Failure(IndexOutOfRange) else Success(Some(lines[|lines| - 1]))
  }

  /** The RequestBody constructor: GET reads the query, POST the last line, any other method leaves Body null. */
  function RequestBodyOf(rl: RequestLine, lines: seq<string>): (r: Result<Option<string>>)
    ensures r.Failure? ==> rl.httpMethod == "POST" && lines == [] && r.error == IndexOutOfRange
    ensures rl.httpMethod == "GET" ==> r.Success? && (r.value.None? <==> '?' !in rl.url)
    ensures rl.httpMethod != "GET" && rl.httpMethod != "POST" ==> r == Success(None)
  {
    if rl.httpMethod == "GET" then Success(BodyFromUrlGet(rl.url))
    else if rl.httpMethod == "POST" then BodyFromPost(lines)
    else Success(None)
  }

  /** On the lines SplitLines gives, the body never fails, and a POST body is the last line. */
  lemma RequestBodyOfSplitLines(rl: RequestLine, raw: string)
    ensures var lines := SplitLines(raw);
      RequestBodyOf(rl, lines).Success? &&
      (rl.httpMethod == "POST" ==> RequestBodyOf(rl, lines).value == Some(lines[|lines| - 1]))
  {
  }

  // ---------------------------------------------------------------------
  // ToString
  // ---------------------------------------------------------------------

  /** headersToIgnore: the two entries ParseRawRequest adds for the request line. */
  predicate Ignored(key: string)
  {
    key == "Method" || key == "HttpVersion"
  }

  /** The headers the ToString loop prints: the others, in dictionary order. */
  function Shown(fs: Fields): Fields
    decreases |fs|
  {
    if fs == [] then []
    else
      var f := fs[|fs| - 1];
      Shown(fs[..|fs| - 1]) + (if Ignored(f.key) then [] else [f])
  }

  /** Shown keeps exactly the headers that are not ignored... */
  lemma {:induction false} ShownFilters(fs: Fields)
    ensures forall f :: f in Shown(fs) <==> f in fs && !Ignored(f.key)
    decreases |fs|
  {
    if fs != [] {
      var init, last := fs[..|fs| - 1], fs[|fs| - 1];
      ShownFilters(init);
      assert fs == init + [last];
    }
  }

  /** ...and keeps their order: it filters each part of a list separately. */
  lemma {:induction false} ShownAppend(a: Fields, b: Fields)
    ensures Shown(a + b) == Shown(a) + Shown(b)
    decreases |b|
  {
    if b != [] {
      var init, last := b[..|b| - 1], b[|b| - 1];
      ShownAppend(a, init);
      assert (a + b)[..|a + b| - 1] == a + init;
      assert (a + b)[|a + b| - 1] == last;
      assert Shown(a + b) == Shown(a + init) + (if Ignored(last.key) then [] else [last]);
      assert Shown(b) == Shown(init) + (if Ignored(last.key) then [] else [last]);
    } else {
      assert a + b == a;
    }
  }

  /** StringBuilder.Append(null) appends nothing. */
  function BodyText(body: Option<string>): string
  {
    if body.Some? then body.value else ""
  }

  /**
   * ToString: "method url version" and a new line, every header but the two
   * ignored ones as "key: value" and a new line, and for POST a new line
   * and the body; all of it trimmed.  A missing Method or HttpVersion entry
   * is a KeyNotFoundException.
   */
  function RequestText(fs: Fields, url: string, body: Option<string>, nl: string): (r: Result<string>)
    ensures r.Failure? <==> Lookup(fs, "Method").None? || Lookup(fs, "HttpVersion").None?
    ensures Lookup(fs, "Method").None? ==> r == Failure(KeyNotFound("Method"))
    ensures r.Success? ==> Clean(r.value)
  {
    var httpMethod := Lookup(fs, "Method");
    var version := Lookup(fs, "HttpVersion");
    if httpMethod.None? then Failure(KeyNotFound("Method"))
    else if version.None? then Failure(KeyNotFound("HttpVersion"))
    else
      var head := httpMethod.value + " " + url + " " + version.value + nl;
      var tail := if httpMethod.value == "POST" then nl + BodyText(body) else "";
      Success(Trim(head + Terminated(HeaderLines(Shown(fs)), nl) + tail))
  }

  /** One more header prints its line unless it is ignored. */
  lemma PrintedSnoc(fs: Fields, i: nat, nl: string)
    requires i < |fs|
    ensures Terminated(HeaderLines(Shown(fs[..i + 1])), nl) ==
      Terminated(HeaderLines(Shown(fs[..i])), nl) + (if Ignored(fs[i].key) then "" else HeaderLine(fs[i]) + nl)
  {
    var prefix := fs[..i + 1];
    assert prefix[..|prefix| - 1] == fs[..i] && prefix[|prefix| - 1] == fs[i];
    assert Shown(prefix) == Shown(fs[..i]) + (if Ignored(fs[i].key) then [] else [fs[i]]);
    if Ignored(fs[i].key) {
      assert Shown(prefix) == Shown(fs[..i]);
    } else {
      HeaderLinesAppend(Shown(fs[..i]), fs[i]);
      TerminatedSnoc(HeaderLines(Shown(fs[..i])), HeaderLine(fs[i]), nl);
    }
  }

  /** The text starts with the request line when the method and version have no white space at their outer ends. */
  lemma RequestTextStartsWithRequestLine(fs: Fields, url: string, body: Option<string>, nl: string, m: string, v: string)
    requires Lookup(fs, "Method") == Some(m) && Lookup(fs, "HttpVersion") == Some(v)
    requires m != [] && !IsWhiteSpace(m[0]) && v != [] && !IsWhiteSpace(v[|v| - 1])
    ensures RequestText(fs, url, body, nl).Success?
    ensures var line := m + " " + url + " " + v;
      var t := RequestText(fs, url, body, nl).value;
      |line| <= |t| && t[..|line|] == line
  {
    var line := m + " " + url + " " + v;
    var tail := if m == "POST" then nl + BodyText(body) else "";
    var s := line + nl + Terminated(HeaderLines(Shown(fs)), nl) + tail;
    assert s[..|line|] == line;
    assert s[0] == m[0] && s[|line| - 1] == v[|v| - 1];
    TrimKeepsPrefix(s, |line|);
  }

  /** Only a POST prints its body. */
  lemma RequestTextIgnoresBodyUnlessPost(fs: Fields, url: string, b1: Option<string>, b2: Option<string>, nl: string)
    requires Lookup(fs, "Method") != Some("POST")
    ensures RequestText(fs, url, b1, nl) == RequestText(fs, url, b2, nl)
  {
  }

  // ---------------------------------------------------------------------
  // ParseRawRequest
  // ---------------------------------------------------------------------

  /** The headers ParseRawRequest keeps: the parsed ones, then Method and HttpVersion set from the request line. */
  function RequestHeaders(fs: Fields, rl: RequestLine): Fields
  {
    Put(Put(fs, "Method", rl.httpMethod), "HttpVersion", rl.httpVersion)
  }

  /**
   * The request line overrides any Method or HttpVersion header, every other
   * header is kept, and ToString then finds both entries it reads.
   */
  lemma RequestHeadersLookup(fs: Fields, rl: RequestLine, key: string)
    requires DistinctKeys(fs)
    ensures DistinctKeys(RequestHeaders(fs, rl))
    ensures Lookup(RequestHeaders(fs, rl), key) ==
      if key == "HttpVersion" then Some(rl.httpVersion)
      else if key == "Method" then Some(rl.httpMethod)
      else Lookup(fs, key)
  {
    var withMethod := Put(fs, "Method", rl.httpMethod);
    PutLookup(fs, "Method", rl.httpMethod, key);
    PutLookup(withMethod, "HttpVersion", rl.httpVersion, key);
  }

  /** So the ToString of a parsed request never fails. */
  lemma ParsedRequestPrints(fs: Fields, rl: RequestLine, url: string, body: Option<string>, nl: string)
    requires DistinctKeys(fs)
    ensures RequestText(RequestHeaders(fs, rl), url, body, nl).Success?
  {
    RequestHeadersLookup(fs, rl, "Method");
    RequestHeadersLookup(fs, rl, "HttpVersion");
  }

  /**
   * The first failure ParseRawRequest meets, in its order: the request
   * line, the headers, the body, the URI.
   */
  function RequestFailure(lines: seq<string>, requestLineOf: seq<string> -> Result<RequestLine>,
                          isUri: string -> bool): Option<ParseError>
  {
    match requestLineOf(lines)
    case Failure(e) => Some(e)
    case Success(rl) =>
      var headers := HeadersOf(lines);
      var body := RequestBodyOf(rl, lines);
      if headers.Failure? then Some(headers.error)
      else if body.Failure? then Some(body.error)
      else if !isUri(rl.url) then Some(UriFormat)
      else None
  }

  class ParsedHttpRequest {
    var url: string
    var headers: Fields
    var requestBody: Option<string>

    /** The object initializer of ParseRawRequest. */
    constructor Make(u: string, fs: Fields, body: Option<string>)
      ensures url == u && headers == fs && requestBody == body
    {
      url, headers, requestBody := u, fs, body;
    }

    /** The fields hold what ParseRawRequest reads from these lines with this request line. */
    predicate Parsed(lines: seq<string>, rl: RequestLine)
      reads this
    {
      url == rl.url &&
      HeadersOf(lines).Success? && headers == RequestHeaders(HeadersOf(lines).value, rl) &&
      RequestBodyOf(rl, lines) == Success(requestBody)
    }

    /** ToString, with Environment.NewLine passed in as nl. */
    method ToString(nl: string) returns (r: Result<string>)
      ensures r == RequestText(headers, url, requestBody, nl)
    {
      var httpMethod := Lookup(headers, "Method");
      if httpMethod.None? {
        return Failure(KeyNotFound("Method"));
      }
      var version := Lookup(headers, "HttpVersion");
      if version.None? {
        return Failure(KeyNotFound("HttpVersion"));
      }
      var head := httpMethod.value + " " + url + " " + version.value + nl;
      var printed := PrintHeaders(headers, nl);
      var sb := head + printed;
      if httpMethod.value == "POST" {
        sb := sb + nl;
        sb := sb + BodyText(requestBody);
        assert sb == head + printed + (nl + BodyText(requestBody));
      } else {
        assert sb == head + printed + "";
      }
      return Success(Trim(sb));
    }
  }

  /** The foreach of ToString: the line of every header that is not ignored. */
  method PrintHeaders(fs: Fields, nl: string) returns (s: string)
    ensures s == Terminated(HeaderLines(Shown(fs)), nl)
  {
    s := "";
    var i := 0;
    while i < |fs|
      invariant i <= |fs|
      invariant s == Terminated(HeaderLines(Shown(fs[..i])), nl)
    {
      PrintedSnoc(fs, i, nl);
      if !Ignored(fs[i].key) {
        s := s + (fs[i].key + ": " + fs[i].value + nl);
      }
      i := i + 1;
    }
    assert fs[..i] == fs;
  }

  /**
   * Parser.ParseRawRequest: split the raw text into lines, read the request
   * line and the headers, set Method and HttpVersion from the request line,
   * read the body, build the Uri.
   */
  method ParseRawRequest(raw: string, requestLineOf: seq<string> -> Result<RequestLine>, isUri: string -> bool)
    returns (r: Result<ParsedHttpRequest>)
    ensures r.Failure? <==> RequestFailure(SplitLines(raw), requestLineOf, isUri).Some?
    ensures r.Failure? ==> RequestFailure(SplitLines(raw), requestLineOf, isUri) == Some(r.error)
    ensures r.Success? ==>
      requestLineOf(SplitLines(raw)).Success? && fresh(r.value) &&
      r.value.Parsed(SplitLines(raw), requestLineOf(SplitLines(raw)).value)
  {
    var lines := SplitLines(raw);
    var requestLine := requestLineOf(lines);
    if requestLine.Failure? {
      return Failure(requestLine.error);
    }
    var rl := requestLine.value;
    var requestHeaders := HttpHeaders.New(lines);
    if requestHeaders.Failure? {
      return Failure(requestHeaders.error);
    }
    var h := requestHeaders.value;
    h.AddHeader("Method", rl.httpMethod);
    h.AddHeader("HttpVersion", rl.httpVersion);
    var body := RequestBodyOf(rl, lines);
    if body.Failure? {
      // SplitLines never gives an empty list, so the POST body read cannot fail.
      assert false;
    }
    if !isUri(rl.url) {
      return Failure(UriFormat);
    }
    var parsed := new ParsedHttpRequest.Make(rl.url, h.headers, body.value);
    return Success(parsed);
  }
}
