// The status line of a parsed response (lab4 StatusLine): the first line
// split on single spaces, the version and status-code tokens, and the
// reason phrase built token by token.

module HttpStatus {
  import opened HttpText

  /**
   * StatusLine: its three properties are set once, by the constructor, so
   * the parsed status line is a value.
   */
  datatype StatusLine = StatusLine(httpVersion: string, statusCode: string, reasonPhrase: string)

  /** The regular-expression class \d, on ASCII digits. */
  predicate IsDigit(c: char)
  {
    '0' <= c <= '9'
  }

  /** The pattern [1-5]\d\d matches code at position i. */
  predicate StatusCodeAt(code: string, i: nat)
    requires i + 3 <= |code|
  {
    '1' <= code[i] <= '5' && IsDigit(code[i + 1]) && IsDigit(code[i + 2])
  }

  /**
   * Regex.IsMatch(code, "[1-5]\d\d"): the pattern is not anchored, so the
   * regular expression engine tries it at every position from the left.
   */
  function MatchesStatusCode(code: string): (b: bool)
    ensures b ==> |code| >= 3
    ensures |code| >= 3 && StatusCodeAt(code, 0) ==> b
    decreases |code|
  {
    if |code| < 3 then false else StatusCodeAt(code, 0) || MatchesStatusCode(code[1..])
  }

  /** The scan succeeds exactly when some position of code starts a digit 1-5 and two digits. */
  lemma {:induction false} MatchesStatusCodeIff(code: string)
    ensures MatchesStatusCode(code) <==> exists i :: 0 <= i && i + 3 <= |code| && StatusCodeAt(code, i)
    decreases |code|
  {
    if |code| >= 3 {
      MatchesStatusCodeIff(code[1..]);
      if StatusCodeAt(code, 0) {
        assert 0 + 3 <= |code| && StatusCodeAt(code, 0);
      } else if MatchesStatusCode(code[1..]) {
        var i :| 0 <= i && i + 3 <= |code[1..]| && StatusCodeAt(code[1..], i);
        assert StatusCodeAt(code, i + 1);
      } else {
        forall i | 0 < i && i + 3 <= |code|
          ensures !StatusCodeAt(code, i)
        {
          assert StatusCodeAt(code, i) == StatusCodeAt(code[1..], i - 1);
        }
      }
    }
  }

  /** Each token trimmed. */
  function TrimAll(tokens: seq<string>): (r: seq<string>)
    decreases |tokens|
    ensures |r| == |tokens|
  {
    if tokens == [] then [] else TrimAll(tokens[..|tokens| - 1]) + [Trim(tokens[|tokens| - 1])]
  }

  /**
   * ReasonPhrase after the loop has read the given tokens: each token
   * trimmed and followed by one space (the property starts out null, which
   * string concatenation treats as empty).
   */
  function Reason(tokens: seq<string>): string
  {
    Terminated(TrimAll(tokens), " ")
  }

  /**
   * The reason phrase is the trimmed tokens joined with single spaces, and
   * one more space: never empty once a token is read, and always ending in
   * a space.
   */
  lemma ReasonIsJoin(tokens: seq<string>)
    requires tokens != []
    ensures Reason(tokens) == Join(TrimAll(tokens), ' ') + " "
    ensures Reason(tokens) != [] && Reason(tokens)[|Reason(tokens)| - 1] == ' '
  {
    TerminatedIsJoin(TrimAll(tokens), ' ');
  }

  /**
   * SetStatusCode: the trimmed code, when it contains a status code; the
   * exception otherwise.
   */
  function StatusCodeOf(code: string): (r: Result<string>)
    ensures r.Success? ==> Clean(r.value) && MatchesStatusCode(r.value) && |r.value| <= |code|
    ensures r.Failure? ==> r.error == StatusCodeFormat
    ensures Clean(code) ==> (r.Success? <==> MatchesStatusCode(code))
  {
    var c := Trim(code);
    if MatchesStatusCode(c) then Success(c) else Failure(StatusCodeFormat)
  }

  /**
   * The status line of a response, or the exception its constructor raises:
   * lines[0] must exist, split on ' ' it needs at least three tokens
   * (ValidateRequestLine), and the second token must hold a status code
   * (SetStatusCode).  SetHttpVersion's own pattern test is overwritten by
   * the trimmed first token, so the version is never rejected.
   */
  function StatusLineOf(lines: seq<string>): (r: Result<StatusLine>)
    ensures lines == [] ==> r == Failure(IndexOutOfRange)
    ensures r.Failure? ==> r.error == IndexOutOfRange || r.error == StatusLineFormat || r.error == StatusCodeFormat
    ensures r.Success? ==> Clean(r.value.httpVersion) && Clean(r.value.statusCode) && MatchesStatusCode(r.value.statusCode)
  {
    if lines == [] then Failure(IndexOutOfRange)
    else
      var tokens := SplitOn(lines[0], ' ');
      if |tokens| < 3 then Failure(StatusLineFormat)
      else
        var code := StatusCodeOf(tokens[1]);
        if code.Failure? then Failure(code.error)
        else Success(StatusLine(Trim(tokens[0]), code.value, Reason(tokens[2..])))
  }

  /**
   * new StatusLine(lines): the constructor's steps in order, with the
   * reason phrase accumulated in its loop.
   */
  method NewStatusLine(lines: seq<string>) returns (r: Result<StatusLine>)
    ensures r == StatusLineOf(lines)
  {
    if |lines| == 0 {
      return Failure(IndexOutOfRange);
    }
    var firstLine := SplitOn(lines[0], ' ');
    if |firstLine| < 3 {
      return Failure(StatusLineFormat);
    }
    var httpVersion := Trim(firstLine[0]);
    var statusCode := SetStatusCode(firstLine[1]);
    if statusCode.Failure? {
      return Failure(statusCode.error);
    }
    var reasonPhrase := ReadReasonPhrase(firstLine[2..]);
    return Success(StatusLine(httpVersion, statusCode.value, reasonPhrase));
  }

  /** SetStatusCode, with its exception as a failure. */
  method SetStatusCode(code: string) returns (r: Result<string>)
    ensures r == StatusCodeOf(code)
  {
    var trimmed := Trim(code);
    if !MatchesStatusCode(trimmed) {
      return Failure(StatusCodeFormat);
    }
    return Success(trimmed);
  }

  /** The constructor's loop over the tokens after the status code. */
  method ReadReasonPhrase(tokens: seq<string>) returns (reasonPhrase: string)
    ensures reasonPhrase == Reason(tokens)
  {
    reasonPhrase := "";
    var i := 0;
    while i < |tokens|
      invariant i <= |tokens|
      invariant reasonPhrase == Reason(tokens[..i])
    {
      ReasonSnoc(tokens, i);
      reasonPhrase := reasonPhrase + (Trim(tokens[i]) + " ");
      i := i + 1;
    }
    assert tokens[..i] == tokens;
  }

  /** One more token adds that token, trimmed, and a space. */
  lemma ReasonSnoc(tokens: seq<string>, i: nat)
    requires i < |tokens|
    ensures Reason(tokens[..i + 1]) == Reason(tokens[..i]) + (Trim(tokens[i]) + " ")
  {
    var init := tokens[..i + 1];
    assert init[..i] == tokens[..i] && init[i] == tokens[i];
    assert TrimAll(init) == TrimAll(tokens[..i]) + [Trim(tokens[i])];
    TerminatedSnoc(TrimAll(tokens[..i]), Trim(tokens[i]), " ");
  }

  /**
   * The outcome in the order the constructor checks: no first line, fewer
   * than three tokens, a second token without a status code; otherwise the
   * trimmed version and code and a reason phrase ending in a space.
   */
  lemma StatusLineOutcome(lines: seq<string>)
    ensures StatusLineOf(lines) == Failure(IndexOutOfRange) <==> lines == []
    ensures StatusLineOf(lines) == Failure(StatusLineFormat) <==>
      lines != [] && |SplitOn(lines[0], ' ')| < 3
    ensures StatusLineOf(lines) == Failure(StatusCodeFormat) <==>
      lines != [] && |SplitOn(lines[0], ' ')| >= 3 &&
      !(exists i :: 0 <= i && i + 3 <= |Trim(SplitOn(lines[0], ' ')[1])| && StatusCodeAt(Trim(SplitOn(lines[0], ' ')[1]), i))
    ensures StatusLineOf(lines).Success? ==>
      var s := StatusLineOf(lines).value;
      ' ' !in s.httpVersion && ' ' !in s.statusCode &&
      s.reasonPhrase != [] && s.reasonPhrase[|s.reasonPhrase| - 1] == ' '
  {
    if lines != [] {
      var tokens := SplitOn(lines[0], ' ');
      SplitOnPieces(lines[0], ' ');
      if |tokens| >= 3 {
        MatchesStatusCodeIff(Trim(tokens[1]));
        ReasonIsJoin(tokens[2..]);
        TrimWithin(tokens[0], ' ');
        TrimWithin(tokens[1], ' ');
      }
    }
  }

  /** Trimming adds no character: one absent from s is absent from Trim(s). */
  lemma TrimWithin(s: string, c: char)
    requires c !in s
    ensures c !in Trim(s)
  {
    var t := TrimStartBy(s, IsWhiteSpace);
    assert forall k :: 0 <= k < |t| ==> t[k] == s[|s| - |t| + k];
    var r := TrimEndBy(t, IsWhiteSpace);
    assert forall k :: 0 <= k < |r| ==> r[k] == t[k];
  }

  /**
   * A status line written as version, space, status code, space and reason
   * phrase, with no white space around its words, gives those parts back;
   * the reason phrase gains the space the loop puts after every word.
   * Whether the line is accepted depends only on the code: the version may
   * be any word.
   */
  lemma StatusLineRoundTrip(version: string, code: string, phrase: string)
    requires ' ' !in version && ' ' !in code && Clean(version) && Clean(code)
    requires CleanWords(SplitOn(phrase, ' '))
    ensures MatchesStatusCode(code) ==>
      StatusLineOf([version + (" " + (code + (" " + phrase)))]) ==
      Success(StatusLine(version, code, phrase + " "))
    ensures !MatchesStatusCode(code) ==>
      StatusLineOf([version + (" " + (code + (" " + phrase)))]) == Failure(StatusCodeFormat)
  {
    var line := version + (" " + (code + (" " + phrase)));
    var tokens := SplitOn(line, ' ');
    assert |tokens| >= 3 && tokens[0] == version && tokens[1] == code && tokens[2..] == SplitOn(phrase, ' ') by {
      StatusLineTokens(version, code, phrase);
    }
    assert Reason(tokens[2..]) == phrase + " " by {
      ReasonOfCleanWords(phrase);
    }
    StatusLineOfParts([line], version, code, phrase + " ");
  }

  /** The status line of lines whose first line has the given version, code and reason phrase. */
  lemma StatusLineOfParts(lines: seq<string>, version: string, code: string, reason: string)
    requires lines != [] && Clean(version) && Clean(code)
    requires |SplitOn(lines[0], ' ')| >= 3
    requires SplitOn(lines[0], ' ')[0] == version && SplitOn(lines[0], ' ')[1] == code
    requires Reason(SplitOn(lines[0], ' ')[2..]) == reason
    ensures StatusLineOf(lines) ==
      if MatchesStatusCode(code) then Success(StatusLine(version, code, reason)) else Failure(StatusCodeFormat)
  {
    var tokens := SplitOn(lines[0], ' ');
    assert StatusCodeOf(code) == if MatchesStatusCode(code) then Success(code) else Failure(StatusCodeFormat) by {
      TrimClean(code);
    }
    assert Trim(version) == version by {
      TrimClean(version);
    }
  }

  /** The tokens of such a line are the version, the code and the words of the phrase. */
  lemma StatusLineTokens(version: string, code: string, phrase: string)
    requires ' ' !in version && ' ' !in code
    ensures SplitOn(version + (" " + (code + (" " + phrase))), ' ') == [version, code] + SplitOn(phrase, ' ')
  {
    var words := SplitOn(phrase, ' ');
    var tail := code + (" " + phrase);
    assert SplitOn(tail, ' ') == [code] + words by {
      assert " " + phrase == [' '] + phrase;
      SplitOnFirst(code, ' ', phrase);
    }
    assert SplitOn(version + (" " + tail), ' ') == [version] + SplitOn(tail, ' ') by {
      assert " " + tail == [' '] + tail;
      SplitOnFirst(version, ' ', tail);
    }
    ConsTwo(version, code, words);
  }

  lemma ConsTwo<T>(a: T, b: T, rest: seq<T>)
    ensures [a] + ([b] + rest) == [a, b] + rest
  {
    assert ([a] + ([b] + rest))[..2] == [a, b];
  }

  /** Words with no white space at either end. */
  predicate CleanWords(words: seq<string>)
  {
    forall k :: 0 <= k < |words| ==> Clean(words[k])
  }

  /** Trimming clean words changes none of them. */
  lemma {:induction false} TrimAllClean(words: seq<string>)
    requires CleanWords(words)
    ensures TrimAll(words) == words
    decreases |words|
  {
    if words != [] {
      var init, last := words[..|words| - 1], words[|words| - 1];
      CleanWordsInit(words);
      TrimAllClean(init);
      TrimClean(last);
      TrimAllSnoc(words, init, last);
    }
  }

  /** Trimming the last word adds nothing when trimming the others did not. */
  lemma TrimAllSnoc(words: seq<string>, init: seq<string>, last: string)
    requires words != [] && init == words[..|words| - 1] && last == words[|words| - 1]
    requires TrimAll(init) == init && Trim(last) == last
    ensures TrimAll(words) == words
  {
    assert TrimAll(words) == TrimAll(init) + [Trim(last)];
    assert init + [last] == words;
  }

  /** Clean words stay clean without their last word, which is clean too. */
  lemma CleanWordsInit(words: seq<string>)
    requires CleanWords(words) && words != []
    ensures CleanWords(words[..|words| - 1]) && Clean(words[|words| - 1])
  {
    var init := words[..|words| - 1];
    forall k | 0 <= k < |init|
      ensures Clean(init[k])
    {
      assert init[k] == words[k];
    }
  }

  /** Words with no white space around them make the phrase back, and one space after it. */
  lemma ReasonOfCleanWords(phrase: string)
    requires CleanWords(SplitOn(phrase, ' '))
    ensures Reason(SplitOn(phrase, ' ')) == phrase + " "
  {
    var words := SplitOn(phrase, ' ');
    TrimAllClean(words);
    ReasonIsJoin(words);
    SplitOnRoundTrip(phrase, ' ');
  }
}
