// A parsed HTTP response (lab4 HttpParser/Response/ParsedHttpResponse.cs)
// and Parser.ParseRawResponse: the status line, the header dictionary, the
// Content-Length read with int.Parse, the body after the blank line, and
// the text ToString prints back.

module HttpResponse {
  import opened HttpText
  import opened HttpFields
  import opened HttpStatus

  // ---------------------------------------------------------------------
  // int.Parse(string), NumberStyles.Integer, on a 32-bit int
  // ---------------------------------------------------------------------

  const MinInt32: int := -0x8000_0000
  const MaxInt32: int := 0x7FFF_FFFF

  predicate InInt32(n: int)
  {
    MinInt32 <= n <= MaxInt32
  }

  /** The white space NumberStyles.Integer allows around the number: U+0009..U+000D and the space. */
  predicate IsParseSpace(c: char)
  {
    c == ' ' || '\t' <= c <= '\r'
  }

  predicate AllDigits(s: string)
  {
    forall k :: 0 <= k < |s| ==> IsDigit(s[k])
  }

  /** The value of a run of decimal digits. */
  function DigitsValue(s: string): nat
    requires AllDigits(s)
    decreases |s|
  {
    if s == [] then 0 else DigitsValue(s[..|s| - 1]) * 10 + ((s[|s| - 1] as int) - ('0' as int))
  }

  /**
   * int.Parse: optional white space, an optional sign, one or more digits,
   * optional white space.  Anything else is a FormatException; a number
   * outside the 32-bit range is an OverflowException.
   */
  function ParseInt32(text: string): (r: Result<int>)
    ensures r.Success? ==> InInt32(r.value)
    ensures r.Failure? ==> r.error == NumberFormat || r.error == Overflow
  {
    var s := TrimEndBy(TrimStartBy(text, IsParseSpace), IsParseSpace);
    var signed := s != [] && (s[0] == '+' || s[0] == '-');
    var digits := if signed then s[1..] else s;
    if digits == [] || !AllDigits(digits) then Failure(NumberFormat)
    else
      var n: int := if signed && s[0] == '-' then -(DigitsValue(digits) as int) else DigitsValue(digits);
      if InInt32(n) then Success(n) else Failure(Overflow)
  }

  function DigitChar(d: nat): (c: char)
    requires d < 10
    ensures IsDigit(c) && (c as int) - ('0' as int) == d
  {
    (('0' as int) + d) as char
  }

  /** The decimal digits of n, most significant first. */
  function Digits(n: nat): (r: string)
    ensures r != [] && AllDigits(r)
    decreases n
  {
    if n < 10 then [DigitChar(n)] else Digits(n / 10) + [DigitChar(n % 10)]
  }

  /** n written in decimal, with a minus sign when it is negative. */
  function Decimal(n: int): string
  {
    if n < 0 then "-" + Digits(-n) else Digits(n)
  }

  /** Reading the digits of n gives n back. */
  lemma {:induction false} DigitsRoundTrip(n: nat)
    ensures DigitsValue(Digits(n)) == n
    decreases n
  {
    if n >= 10 {
      var front := Digits(n / 10);
      var s := front + [DigitChar(n % 10)];
      DigitsRoundTrip(n / 10);
      assert s[..|s| - 1] == front;
    }
  }

  /** int.Parse reads back any integer written in decimal, and overflows outside 32 bits. */
  lemma ParseDecimal(n: int)
    ensures ParseInt32(Decimal(n)) == if InInt32(n) then Success(n) else Failure(Overflow)
  {
    var s := Decimal(n);
    DecimalUntrimmed(n);
    assert TrimEndBy(TrimStartBy(s, IsParseSpace), IsParseSpace) == s;
    var magnitude := if n < 0 then -n else n;
    assert (if n < 0 then s[1..] else s) == Digits(magnitude);
    DigitsRoundTrip(magnitude);
  }

  /** A decimal starts with a sign or a digit and ends with a digit, so int.Parse trims nothing from it. */
  lemma DecimalUntrimmed(n: int)
    ensures TrimStartBy(Decimal(n), IsParseSpace) == Decimal(n)
    ensures TrimEndBy(Decimal(n), IsParseSpace) == Decimal(n)
  {
    var s := Decimal(n);
    var digits := Digits(if n < 0 then -n else n);
    assert s[0] == '-' || s[0] == digits[0];
    assert s[|s| - 1] == digits[|digits| - 1];
  }

  // ---------------------------------------------------------------------
  // The parts of a response
  // ---------------------------------------------------------------------

  /** ContentLength: 0 without a Content-Length header, else int.Parse of its value. */
  function ContentLengthOf(fs: Fields): (r: Result<int>)
    ensures Lookup(fs, "Content-Length").None? ==> r == Success(0)
    ensures r.Success? ==> InInt32(r.value)
    ensures r.Failure? ==> r.error == NumberFormat || r.error == Overflow
  {
    match Lookup(fs, "Content-Length")
    case None => Success(0)
    case Some(v) => ParseInt32(v)
  }

  /** A Content-Length header written in decimal is read back. */
  lemma ContentLengthRoundTrip(fs: Fields, n: int)
    requires DistinctKeys(fs) && Field("Content-Length", Decimal(n)) in fs
    ensures ContentLengthOf(fs) == if InInt32(n) then Success(n) else Failure(Overflow)
  {
    LookupIsMembership(fs, "Content-Length", Decimal(n));
    ParseDecimal(n);
  }

  /**
   * ResponseBody: each line from LastIndex + 2 on, followed by "\n".  With
   * a blank line that is every line after the first blank one; with none,
   * LastIndex is the number of lines and the body is empty.
   */
  function ResponseBodyOf(lines: seq<string>): (body: string)
    ensures body == [] || body[|body| - 1] == '\n'
    ensures DetectLastRowIndex(lines) + 2 >= |lines| ==> body == []
  {
    LinesBetween(lines, DetectLastRowIndex(lines) + 2, |lines|)
  }

  /** The lines from index `from` up to index `stop`, each followed by "\n"; nothing when from >= stop. */
  function LinesBetween(lines: seq<string>, from: nat, stop: nat): (r: string)
    requires stop <= |lines|
    ensures r == [] || r[|r| - 1] == '\n'
    ensures stop <= from ==> r == []
    decreases stop
  {
    if stop <= from then "" else LinesBetween(lines, from, stop - 1) + (lines[stop - 1] + "\n")
  }

  /** Those are the lines of the slice, each followed by "\n". */
  lemma {:induction false} LinesBetweenTerminated(lines: seq<string>, from: nat, stop: nat)
    requires from <= stop <= |lines|
    ensures LinesBetween(lines, from, stop) == Terminated(lines[from..stop], "\n")
    decreases stop
  {
    if from < stop {
      LinesBetweenTerminated(lines, from, stop - 1);
      TerminatedExtend(lines, from, stop - 1, "\n");
    }
  }

  /** The body holds the lines after the first blank line. */
  lemma ResponseBodyAfterBlank(lines: seq<string>, b: nat)
    requires b < |lines| && lines[b] == "" && "" !in lines[..b]
    ensures ResponseBodyOf(lines) == Terminated(lines[b + 1..], "\n")
  {
    assert lines[b] in lines;
    assert DetectLastRowIndex(lines) + 2 == b + 1;
    LinesBetweenTerminated(lines, b + 1, |lines|);
    assert lines[b + 1..|lines|] == lines[b + 1..];
  }

  /** No blank line, no body. */
  lemma ResponseBodyWithoutBlank(lines: seq<string>)
    requires "" !in lines
    ensures ResponseBodyOf(lines) == ""
  {
  }

  /**
   * The lines after the blank line come back from the body by splitting it
   * on "\n", once its final "\n" is dropped, when no line holds a line feed
   * (as no line SplitLines produces does).
   */
  lemma ResponseBodyRecoversLines(lines: seq<string>, b: nat)
    requires b + 1 < |lines| && lines[b] == "" && "" !in lines[..b]
    requires forall k :: 0 <= k < |lines| ==> '\n' !in lines[k]
    ensures var body := ResponseBodyOf(lines);
      body != [] && body[|body| - 1] == '\n' && SplitOn(body[..|body| - 1], '\n') == lines[b + 1..]
  {
    var after := lines[b + 1..];
    ResponseBodyAfterBlank(lines, b);
    TerminatedIsJoin(after, '\n');
    var joined := Join(after, '\n');
    assert ResponseBodyOf(lines) == joined + "\n";
    assert (joined + "\n")[..|joined|] == joined;
    forall k | 0 <= k < |after|
      ensures '\n' !in after[k]
    {
      assert after[k] == lines[b + 1 + k];
    }
    JoinSplitRoundTrip(after, '\n');
  }

  /**
   * The first failure the constructor meets, in its order: the status line,
   * then the headers, then int.Parse of the Content-Length.
   */
  function ResponseFailure(lines: seq<string>): (r: Option<ParseError>)
    ensures r.Some? ==> r.value in {IndexOutOfRange, StatusLineFormat, StatusCodeFormat, NumberFormat, Overflow}
    ensures (StatusLineOf(lines).Success? && HeadersOf(lines).Success? &&
             Lookup(HeadersOf(lines).value, "Content-Length").None?) ==> r.None?
  {
    var status := StatusLineOf(lines);
    var headers := HeadersOf(lines);
    if status.Failure? then Some(status.error)
    else if headers.Failure? then Some(headers.error)
    else match ContentLengthOf(headers.value)
      case Failure(e) => Some(e)
      case Success(_) => None
  }

  /** ResponseFailure step by step, in the order the constructor meets the steps. */
  lemma ResponseFailureSteps(lines: seq<string>)
    ensures StatusLineOf(lines).Failure? ==> ResponseFailure(lines) == Some(StatusLineOf(lines).error)
    ensures StatusLineOf(lines).Success? && HeadersOf(lines).Failure? ==>
      ResponseFailure(lines) == Some(HeadersOf(lines).error)
    ensures StatusLineOf(lines).Success? && HeadersOf(lines).Success? ==>
      ResponseFailure(lines) == match ContentLengthOf(HeadersOf(lines).value)
        case Failure(e) => Some(e)
        case Success(_) => None
  {
  }

  // ---------------------------------------------------------------------
  // ToString
  // ---------------------------------------------------------------------

  /**
   * ToString: every header as "key: value" and a new line, in the order
   * the dictionary holds them, then a new line, then the body; all of it
   * trimmed.
   */
  function ResponseText(fs: Fields, body: string, nl: string): (r: string)
    ensures Clean(r)
    ensures |r| <= |Terminated(HeaderLines(fs), nl)| + |nl| + |body|
  {
    Trim(Terminated(HeaderLines(fs), nl) + nl + body)
  }

  /** The text starts with the first header's name and its colon. */
  lemma ResponseTextStartsWithKey(fs: Fields, body: string, nl: string)
    requires fs != [] && fs[0].key != [] && !IsWhiteSpace(fs[0].key[0])
    ensures var key := fs[0].key;
      |key| + 1 <= |ResponseText(fs, body, nl)| && ResponseText(fs, body, nl)[..|key| + 1] == key + ":"
  {
    var key := fs[0].key;
    var s := Terminated(HeaderLines(fs), nl) + nl + body;
    HeaderBlockStartsWithKey(fs, body, nl);
    assert s[0] == key[0] && s[|key|] == ':' by {
      assert s[..|key| + 1][0] == s[0] && s[..|key| + 1][|key|] == s[|key|];
    }
    TrimKeepsPrefix(s, |key| + 1);
  }

  /** Before trimming, the text starts with the first header line. */
  lemma HeaderBlockStartsWithKey(fs: Fields, body: string, nl: string)
    requires fs != []
    ensures var s := Terminated(HeaderLines(fs), nl) + nl + body;
      |fs[0].key| + 1 <= |s| && s[..|fs[0].key| + 1] == fs[0].key + ":"
  {
    var key := fs[0].key;
    var lines := HeaderLines(fs);
    var first := HeaderLine(fs[0]);
    assert lines == [first] + lines[1..];
    TerminatedCons(first, lines[1..], nl);
    assert first[..|key| + 1] == key + ":";
    assert Terminated(lines, nl) + nl + body == first + (nl + Terminated(lines[1..], nl) + nl + body);
  }

  /** Without headers the text is the body, trimmed: the new line before it is white space. */
  lemma ResponseTextWithoutHeaders(body: string, nl: string)
    requires IsNewLine(nl)
    ensures ResponseText([], body, nl) == Trim(body)
  {
    assert Terminated(HeaderLines([]), nl) + nl + body == nl + body;
    TrimWhitePrefix(nl, body);
  }

  /** The "\n" that ends every body line does not reach the text after the last one. */
  lemma ResponseTextDropsLastLineFeed(fs: Fields, bodyLines: seq<string>, nl: string)
    requires bodyLines != []
    ensures ResponseText(fs, Terminated(bodyLines, "\n"), nl) == ResponseText(fs, Join(bodyLines, '\n'), nl)
  {
    var head := Terminated(HeaderLines(fs), nl) + nl;
    var joined := Join(bodyLines, '\n');
    TerminatedIsJoin(bodyLines, '\n');
    assert head + Terminated(bodyLines, "\n") == (head + joined) + "\n";
    TrimWhiteSuffix(head + joined, "\n");
  }

  // ---------------------------------------------------------------------
  // The class
  // ---------------------------------------------------------------------

  class ParsedHttpResponse {
    var statusLine: StatusLine
    var headers: Fields
    var contentLength: int
    var responseBody: string

    /** Sets the four properties the constructor computes. */
    constructor Make(line: StatusLine, fields: Fields, length: int, body: string)
      ensures statusLine == line && headers == fields && contentLength == length && responseBody == body
    {
      statusLine, headers, contentLength, responseBody := line, fields, length, body;
    }

    /**
     * new ParsedHttpResponse(lines): the status line, the headers, the
     * Content-Length and the body, in that order; the first exception
     * reaches the caller as a failure.
     */
    static method New(lines: seq<string>) returns (r: Result<ParsedHttpResponse>)
      ensures r.Failure? <==> ResponseFailure(lines).Some?
      ensures r.Failure? ==> ResponseFailure(lines) == Some(r.error)
      ensures r.Success? ==> fresh(r.value) && r.value.Parsed(lines)
    {
      ResponseFailureSteps(lines);
      var status := NewStatusLine(lines);
      if status.Failure? {
        return Failure(status.error);
      }
      var responseHeaders := HttpHeaders.New(lines);
      if responseHeaders.Failure? {
        return Failure(responseHeaders.error);
      }
      var fields, last := responseHeaders.value.headers, responseHeaders.value.lastIndex;
      var length := ReadContentLength(fields);
      if length.Failure? {
        return Failure(length.error);
      }
      var body := ReadBody(lines, last + 2);
      var p := new ParsedHttpResponse.Make(status.value, fields, length.value, body);
      return Success(p);
    }

    /** The fields hold the status line, the headers, the Content-Length and the body of these lines. */
    predicate Parsed(lines: seq<string>)
      reads this
    {
      StatusLineOf(lines) == Success(statusLine) &&
      HeadersOf(lines) == Success(headers) &&
      ContentLengthOf(headers) == Success(contentLength) &&
      responseBody == ResponseBodyOf(lines)
    }

    /**
     * ToString: the foreach that appends every header as "key: value" and
     * a new line, then a new line and the body; the whole text trimmed.
     */
    method ToString(nl: string) returns (text: string)
      ensures text == ResponseText(headers, responseBody, nl)
    {
      var sb := "";
      var i := 0;
      while i < |headers|
        invariant i <= |headers|
        invariant sb == Terminated(HeaderLines(headers[..i]), nl)
      {
        assert headers[..i + 1] == headers[..i] + [headers[i]];
        HeaderLinesAppend(headers[..i], headers[i]);
        TerminatedSnoc(HeaderLines(headers[..i]), HeaderLine(headers[i]), nl);
        sb := sb + (headers[i].key + ": " + headers[i].value + nl);
        i := i + 1;
      }
      assert headers[..i] == headers;
      sb := sb + nl;
      sb := sb + responseBody;
      text := Trim(sb);
    }

    /** ContentLength = 0, replaced by int.Parse of the Content-Length header when there is one. */
    static method ReadContentLength(fs: Fields) returns (r: Result<int>)
      ensures r == ContentLengthOf(fs)
    {
      r := Success(0);
      var declared := Lookup(fs, "Content-Length");
      if declared.Some? {
        r := ParseInt32(declared.value);
      }
    }

    /** The loop that appends every line from `from` on, each followed by "\n". */
    static method ReadBody(lines: seq<string>, from: nat) returns (body: string)
      ensures body == LinesBetween(lines, from, |lines|)
    {
      body := "";
      var i := from;
      while i < |lines|
        invariant (i <= |lines| && body == LinesBetween(lines, from, i)) || (i == from && body == "")
      {
        body := body + (lines[i] + "\n");
        i := i + 1;
      }
    }
  }

  /** Parser.ParseRawResponse: split the raw text into lines and build the response from them. */
  method ParseRawResponse(raw: string) returns (r: Result<ParsedHttpResponse>)
    ensures r.Failure? <==> ResponseFailure(SplitLines(raw)).Some?
    ensures r.Failure? ==> ResponseFailure(SplitLines(raw)) == Some(r.error)
    ensures r.Success? ==> fresh(r.value) && r.value.Parsed(SplitLines(raw))
  {
    var lines := SplitLines(raw);
    r := ParsedHttpResponse.New(lines);
  }
}
