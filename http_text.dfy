// Text handling of the HTTP parser (lab4 HttpParser): .NET white space and
// Trim, IndexOf, String.Split on one character, and Parser.SplitLines.

module HttpText {

  datatype Option<T> = None | Some(value: T)

  /** Why a parse gives no result: the exception the parser logs and rethrows. */
  datatype ParseError =
    | StatusLineFormat          // HttpParserException raised by ValidateRequestLine
    | StatusCodeFormat          // HttpParserException raised by SetStatusCode
    | IndexOutOfRange           // an array read past its end
    | KeyNotFound(key: string)  // a dictionary read of a missing key
    | NumberFormat              // int.Parse of text that is not an integer
    | Overflow                  // int.Parse of an integer outside 32 bits
    | UriFormat                 // new Uri(url) of a text that is not an absolute URI

  datatype Result<T> = Success(value: T) | Failure(error: ParseError)

  /**
   * Char.IsWhiteSpace: U+0009..U+000D, the space, U+0085, and the Unicode
   * space, line and paragraph separators.
   */
  predicate IsWhiteSpace(c: char)
  {
    c == ' ' || '\t' <= c <= '\r' || c == '\U{85}' || c == '\U{A0}' || c == '\U{1680}' ||
    '\U{2000}' <= c <= '\U{200A}' || c == '\U{2028}' || c == '\U{2029}' || c == '\U{202F}' ||
    c == '\U{205F}' || c == '\U{3000}'
  }

  /** Environment.NewLine: "\r\n" on Windows, "\n" elsewhere. */
  predicate IsNewLine(nl: string)
  {
    nl == "\r\n" || nl == "\n"
  }

  /** The characters SplitLines strips from the end of the raw text. */
  predicate IsLineEnd(c: char)
  {
    c == '\r' || c == '\n'
  }

  /** String.TrimEnd(chars): the text before its trailing run of `drop` characters. */
  function TrimEndBy(s: string, drop: char -> bool): (r: string)
    ensures |r| <= |s| && r == s[..|r|]
    ensures r == [] || !drop(r[|r| - 1])
  {
    if s == [] || !drop(s[|s| - 1]) then s else TrimEndBy(s[..|s| - 1], drop)
  }

  /** TrimEnd removes `drop` characters only. */
  lemma {:induction false} TrimEndByDrops(s: string, drop: char -> bool)
    ensures forall k :: |TrimEndBy(s, drop)| <= k < |s| ==> drop(s[k])
    decreases |s|
  {
    if s != [] && drop(s[|s| - 1]) {
      var init := s[..|s| - 1];
      TrimEndByDrops(init, drop);
      assert forall k :: 0 <= k < |init| ==> init[k] == s[k];
    }
  }

  /** String.TrimStart(chars): the text after its leading run of `drop` characters. */
  function TrimStartBy(s: string, drop: char -> bool): (r: string)
    ensures |r| <= |s| && r == s[|s| - |r|..]
    ensures r == [] || !drop(r[0])
  {
    if s == [] || !drop(s[0]) then s else TrimStartBy(s[1..], drop)
  }

  /** TrimStart removes `drop` characters only. */
  lemma {:induction false} TrimStartByDrops(s: string, drop: char -> bool)
    ensures forall k :: 0 <= k < |s| - |TrimStartBy(s, drop)| ==> drop(s[k])
    decreases |s|
  {
    if s != [] && drop(s[0]) {
      var tail := s[1..];
      TrimStartByDrops(tail, drop);
      assert forall k :: 1 <= k < |s| ==> s[k] == tail[k - 1];
    }
  }

  /** Text with no white space at either end. */
  predicate Clean(s: string)
  {
    s == [] || (!IsWhiteSpace(s[0]) && !IsWhiteSpace(s[|s| - 1]))
  }

  /** String.Trim(): white space is removed at both ends, leaving clean text. */
  function Trim(s: string): (r: string)
    ensures |r| <= |s| && Clean(r)
  {
    var t := TrimStartBy(s, IsWhiteSpace);
    var r := TrimEndBy(t, IsWhiteSpace);
    assert r != [] ==> r[0] == t[0];
    r
  }

  /** Trim gives the empty text exactly for text that is all white space. */
  lemma TrimEmpty(s: string)
    ensures Trim(s) == [] <==> forall k :: 0 <= k < |s| ==> IsWhiteSpace(s[k])
  {
    var t := TrimStartBy(s, IsWhiteSpace);
    TrimStartByDrops(s, IsWhiteSpace);
    TrimEndByDrops(t, IsWhiteSpace);
    assert Trim(s) == TrimEndBy(t, IsWhiteSpace);
    if Trim(s) == [] {
      forall k | 0 <= k < |s|
        ensures IsWhiteSpace(s[k])
      {
        if k >= |s| - |t| {
          assert s[k] == t[k - (|s| - |t|)];
        }
      }
    } else {
      assert !IsWhiteSpace(t[0]) && t[0] == s[|s| - |t|];
    }
  }

  /** Trim changes no clean text: white space goes at the ends and nowhere else. */
  lemma TrimClean(s: string)
    requires Clean(s)
    ensures Trim(s) == s
  {
    assert TrimStartBy(s, IsWhiteSpace) == s;
  }

  /** Trim keeps a prefix of s that starts and ends with characters other than white space. */
  lemma TrimKeepsPrefix(s: string, n: nat)
    requires 1 <= n <= |s| && !IsWhiteSpace(s[0]) && !IsWhiteSpace(s[n - 1])
    ensures n <= |Trim(s)| && Trim(s)[..n] == s[..n]
  {
    assert TrimStartBy(s, IsWhiteSpace) == s;
    TrimEndByDrops(s, IsWhiteSpace);
  }

  /** Trim keeps a suffix of s that starts and ends with characters other than white space. */
  lemma TrimKeepsSuffix(s: string, n: nat)
    requires 1 <= n <= |s| && !IsWhiteSpace(s[|s| - n]) && !IsWhiteSpace(s[|s| - 1])
    ensures n <= |Trim(s)| && Trim(s)[|Trim(s)| - n..] == s[|s| - n..]
  {
    var t := TrimStartBy(s, IsWhiteSpace);
    TrimStartByDrops(s, IsWhiteSpace);
    assert |t| >= n;
    SuffixOfSuffix(s, t, n);
    assert TrimEndBy(t, IsWhiteSpace) == t;
    var r := Trim(s);
    assert r == t;
    assert r[|r| - n..] == t[|t| - n..];
  }

  /** TrimStart skips white space put in front of the text. */
  lemma {:induction false} TrimStartByPrefix(w: string, s: string, drop: char -> bool)
    requires forall k :: 0 <= k < |w| ==> drop(w[k])
    ensures TrimStartBy(w + s, drop) == TrimStartBy(s, drop)
    decreases |w|
  {
    if w != [] {
      assert (w + s)[0] == w[0] && (w + s)[1..] == w[1..] + s;
      TrimStartByPrefix(w[1..], s, drop);
    } else {
      assert w + s == s;
    }
  }

  /** TrimStart of text holding a character to keep leaves what follows the text untouched. */
  lemma {:induction false} TrimStartByKeepsTail(s: string, w: string, drop: char -> bool, i: nat)
    requires i < |s| && !drop(s[i])
    ensures TrimStartBy(s + w, drop) == TrimStartBy(s, drop) + w
    decreases |s|
  {
    if drop(s[0]) {
      assert (s + w)[0] == s[0] && (s + w)[1..] == s[1..] + w;
      TrimStartByKeepsTail(s[1..], w, drop, i - 1);
    }
  }

  /** TrimEnd skips white space put after the text. */
  lemma {:induction false} TrimEndBySuffix(s: string, w: string, drop: char -> bool)
    requires forall k :: 0 <= k < |w| ==> drop(w[k])
    ensures TrimEndBy(s + w, drop) == TrimEndBy(s, drop)
    decreases |w|
  {
    if w != [] {
      var init := w[..|w| - 1];
      assert (s + w)[|s + w| - 1] == w[|w| - 1] && (s + w)[..|s + w| - 1] == s + init;
      TrimEndBySuffix(s, init, drop);
    } else {
      assert s + w == s;
    }
  }

  /** White space put in front of the text does not change its trimmed form. */
  lemma TrimWhitePrefix(w: string, s: string)
    requires forall k :: 0 <= k < |w| ==> IsWhiteSpace(w[k])
    ensures Trim(w + s) == Trim(s)
  {
    TrimStartByPrefix(w, s, IsWhiteSpace);
  }

  /** White space put after the text does not change its trimmed form. */
  lemma TrimWhiteSuffix(s: string, w: string)
    requires forall k :: 0 <= k < |w| ==> IsWhiteSpace(w[k])
    ensures Trim(s + w) == Trim(s)
  {
    if exists i :: 0 <= i < |s| && !IsWhiteSpace(s[i]) {
      var i :| 0 <= i < |s| && !IsWhiteSpace(s[i]);
      TrimStartByKeepsTail(s, w, IsWhiteSpace, i);
      TrimEndBySuffix(TrimStartBy(s, IsWhiteSpace), w, IsWhiteSpace);
    } else {
      TrimEmpty(s);
      TrimEmpty(s + w);
      assert forall k :: 0 <= k < |s + w| ==> IsWhiteSpace((s + w)[k]) by {
        forall k | 0 <= k < |s + w|
          ensures IsWhiteSpace((s + w)[k])
        {
          if k < |s| {
            assert (s + w)[k] == s[k];
          } else {
            assert (s + w)[k] == w[k - |s|];
          }
        }
      }
    }
  }

  /** A suffix t of s ends like s, and its last n characters are those of s. */
  lemma SuffixOfSuffix(s: string, t: string, n: nat)
    requires 1 <= n <= |t| <= |s| && t == s[|s| - |t|..]
    ensures t[|t| - 1] == s[|s| - 1] && t[|t| - n..] == s[|s| - n..]
  {
    var m := |s| - |t|;
    assert t[|t| - 1] == s[m + (|t| - 1)];
  }

  /** Array.IndexOf / String.IndexOf: the first position of x, or -1. */
  function IndexOf<T(==)>(s: seq<T>, x: T): (r: int)
    ensures -1 <= r < |s|
    ensures r >= 0 ==> s[r] == x
    ensures forall j :: 0 <= j < (if r < 0 then |s| else r) ==> s[j] != x
  {
    if s == [] then -1
    else if s[0] == x then 0
    else
      var i := IndexOf(s[1..], x);
      if i == -1 then -1 else i + 1
  }

  /** The pieces separated by the separators, in order: the inverse of every split here. */
  function Interleave(pieces: seq<string>, seps: seq<string>): string
    requires |pieces| == |seps| + 1
    decreases |seps|
  {
    if seps == [] then pieces[0] else pieces[0] + (seps[0] + Interleave(pieces[1..], seps[1..]))
  }

  /** Concatenation regrouped (the solver does not find this step on its own cheaply). */
  lemma Regroup(a: string, b: string, c: string)
    ensures (a + b) + c == a + (b + c)
  {
    assert |(a + b) + c| == |a + (b + c)|;
  }

  /** Interleave with one more piece and separator in front. */
  lemma InterleaveCons(p: string, b: string, pieces: seq<string>, seps: seq<string>)
    requires |pieces| == |seps| + 1
    ensures Interleave([p] + pieces, [b] + seps) == p + (b + Interleave(pieces, seps))
  {
    assert ([p] + pieces)[1..] == pieces && ([b] + seps)[1..] == seps;
  }

  /** s cut at i and j and put back together. */
  lemma Reassemble(s: string, i: nat, j: nat)
    requires i <= j <= |s|
    ensures s[..i] + (s[i..j] + s[j..]) == s
  {
    assert s[i..j] + s[j..] == s[i..];
  }

  /** The first occurrence of x is at i when s[i] is x and no earlier element is. */
  lemma IndexOfAt<T>(s: seq<T>, x: T, i: nat)
    requires i < |s| && s[i] == x && x !in s[..i]
    ensures IndexOf(s, x) == i
  {
  }

  /**
   * String.Split(c): the text before the first c, then the split of the
   * text after it; with no c the text is the one piece.
   */
  function SplitOn(s: string, c: char): (r: seq<string>)
    ensures |r| >= 1
    decreases |s|
  {
    var i := IndexOf(s, c);
    if i < 0 then [s] else [s[..i]] + SplitOn(s[i + 1..], c)
  }

  /** Splitting text that starts with a piece free of c and then c gives that piece first. */
  lemma SplitOnFirst(a: string, c: char, b: string)
    requires c !in a
    ensures SplitOn(a + ([c] + b), c) == [a] + SplitOn(b, c)
  {
    var s := a + ([c] + b);
    assert s[..|a|] == a && s[|a| + 1..] == b;
    IndexOfAt(s, c, |a|);
  }

  /**
   * A StringBuilder that appends each piece followed by the terminator t, as
   * the loops that build a reason phrase, a response body or a header block
   * do.
   */
  function Terminated(pieces: seq<string>, t: string): string
    decreases |pieces|
  {
    if pieces == [] then "" else Terminated(pieces[..|pieces| - 1], t) + (pieces[|pieces| - 1] + t)
  }

  /** One more piece appends the piece and the terminator. */
  lemma TerminatedSnoc(pieces: seq<string>, p: string, t: string)
    ensures Terminated(pieces + [p], t) == Terminated(pieces, t) + (p + t)
  {
    assert (pieces + [p])[..|pieces|] == pieces;
  }

  /** The first piece and its terminator come first. */
  lemma {:induction false} TerminatedCons(p: string, pieces: seq<string>, t: string)
    ensures Terminated([p] + pieces, t) == (p + t) + Terminated(pieces, t)
    decreases |pieces|
  {
    if pieces == [] {
      assert [p] + pieces == [p] && [p][..0] == [];
    } else {
      var init := pieces[..|pieces| - 1];
      var last := pieces[|pieces| - 1];
      assert ([p] + pieces)[..|pieces|] == [p] + init;
      TerminatedCons(p, init, t);
      Regroup(p + t, Terminated(init, t), last + t);
    }
  }

  /**
   * With a one-character terminator the built text is the pieces joined
   * with that character, and the character once more at the end.
   */
  lemma {:induction false} TerminatedIsJoin(pieces: seq<string>, c: char)
    requires pieces != []
    ensures Terminated(pieces, [c]) == Join(pieces, c) + [c]
    decreases |pieces|
  {
    var init := pieces[..|pieces| - 1];
    var last := pieces[|pieces| - 1];
    if init == [] {
      assert pieces == [last];
      assert Terminated(pieces, [c]) == "" + (last + [c]);
    } else {
      TerminatedIsJoin(init, c);
      assert init + [last] == pieces;
      JoinSnoc(init, last, c);
      calc {
        Terminated(pieces, [c]);
        Terminated(init, [c]) + (last + [c]);
        (Join(init, c) + [c]) + (last + [c]);
        { Regroup(Join(init, c), [c], last + [c]); Regroup([c], last, [c]); }
        Join(init, c) + (([c] + last) + [c]);
        { Regroup(Join(init, c), [c] + last, [c]); }
        (Join(init, c) + ([c] + last)) + [c];
        Join(pieces, c) + [c];
      }
    }
  }

  /** The loop that appends xs[i] and t after having appended xs[from..i]. */
  lemma TerminatedExtend(xs: seq<string>, from: nat, i: nat, t: string)
    requires from <= i < |xs|
    ensures Terminated(xs[from..i + 1], t) == Terminated(xs[from..i], t) + (xs[i] + t)
  {
    var ps := xs[from..i + 1];
    assert ps[..|ps| - 1] == xs[from..i] && ps[|ps| - 1] == xs[i];
  }

  /** Splitting pieces joined on c gives the pieces back when none of them holds c. */
  lemma {:induction false} JoinSplitRoundTrip(pieces: seq<string>, c: char)
    requires |pieces| >= 1 && forall k :: 0 <= k < |pieces| ==> c !in pieces[k]
    ensures SplitOn(Join(pieces, c), c) == pieces
    decreases |pieces|
  {
    if |pieces| == 1 {
      assert IndexOf(pieces[0], c) == -1;
    } else {
      var rest := pieces[1..];
      JoinSplitRoundTrip(rest, c);
      SplitOnFirst(pieces[0], c, Join(rest, c));
      assert [pieces[0]] + rest == pieces;
    }
  }

  /** String.Join(c, pieces): the pieces with c between each two. */
  function Join(pieces: seq<string>, c: char): string
    requires |pieces| >= 1
    decreases |pieces|
  {
    if |pieces| == 1 then pieces[0] else pieces[0] + ([c] + Join(pieces[1..], c))
  }

  /** The first piece of a split is the text up to the first c, or all of it. */
  lemma SplitOnHead(s: string, c: char)
    ensures var p := SplitOn(s, c)[0];
      p <= s && c !in p && (|p| == |s| || s[|p|] == c)
  {
    var j := IndexOf(s, c);
    if j >= 0 {
      assert SplitOn(s, c)[0] == s[..j];
      assert c !in s[..j] by {
        forall k | 0 <= k < j
          ensures s[..j][k] != c
        {
          assert s[..j][k] == s[k];
        }
      }
    }
  }

  /** No piece holds c, and there is one piece exactly when c does not occur. */
  lemma {:induction false} SplitOnPieces(s: string, c: char)
    ensures forall k :: 0 <= k < |SplitOn(s, c)| ==> c !in SplitOn(s, c)[k]
    ensures |SplitOn(s, c)| == 1 <==> c !in s
    decreases |s|
  {
    var i := IndexOf(s, c);
    if i >= 0 {
      var rest := SplitOn(s[i + 1..], c);
      assert SplitOn(s, c) == [s[..i]] + rest;
      SplitOnPieces(s[i + 1..], c);
      assert c !in s[..i];
    }
  }

  /** Joining the pieces of a split on c with c gives the text again. */
  lemma {:induction false} SplitOnRoundTrip(s: string, c: char)
    ensures Join(SplitOn(s, c), c) == s
    decreases |s|
  {
    var i := IndexOf(s, c);
    if i >= 0 {
      var rest := SplitOn(s[i + 1..], c);
      assert SplitOn(s, c) == [s[..i]] + rest;
      SplitOnRoundTrip(s[i + 1..], c);
      RejoinAt(s, i, rest);
    }
  }

  /** One step of the round trip: the piece before position i, s[i], then the rest joined. */
  lemma RejoinAt(s: string, i: nat, rest: seq<string>)
    requires i < |s| && |rest| >= 1 && Join(rest, s[i]) == s[i + 1..]
    ensures Join([s[..i]] + rest, s[i]) == s
  {
    assert ([s[..i]] + rest)[1..] == rest;
    assert s[i..i + 1] == [s[i]];
    Reassemble(s, i, i + 1);
  }

  /** Joining one more piece at the end adds c and that piece at the end. */
  lemma {:induction false} JoinSnoc(pieces: seq<string>, p: string, c: char)
    requires |pieces| >= 1
    ensures Join(pieces + [p], c) == Join(pieces, c) + ([c] + p)
    decreases |pieces|
  {
    var q := pieces + [p];
    if |pieces| == 1 {
      assert q[1..] == [p];
    } else {
      assert q[1..] == pieces[1..] + [p];
      JoinSnoc(pieces[1..], p, c);
      calc {
        Join(q, c);
        pieces[0] + ([c] + Join(pieces[1..] + [p], c));
        pieces[0] + ([c] + (Join(pieces[1..], c) + ([c] + p)));
        { Regroup([c], Join(pieces[1..], c), [c] + p); }
        pieces[0] + (([c] + Join(pieces[1..], c)) + ([c] + p));
        { Regroup(pieces[0], [c] + Join(pieces[1..], c), [c] + p); }
        (pieces[0] + ([c] + Join(pieces[1..], c))) + ([c] + p);
      }
    }
  }

  // ---------------------------------------------------------------------------
  // Parser.SplitLines

  /** The separators SplitLines passes to String.Split: backslash-n as text, LF and CRLF. */
  predicate IsBreak(b: string)
  {
    b == "\\n" || b == "\n" || b == "\r\n"
  }

  /**
   * The separator that starts s, by length (0 for none).  String.Split tries
   * them in the order "\\n", "\n", "\r\n" at each position; their first
   * characters differ, so at most one matches.
   */
  function BreakLength(s: string): (n: nat)
    ensures n <= |s| && (n > 0 ==> IsBreak(s[..n]))
  {
    if |s| >= 2 && s[0] == '\\' && s[1] == 'n' then 2
    else if |s| >= 1 && s[0] == '\n' then 1
    else if |s| >= 2 && s[0] == '\r' && s[1] == '\n' then 2
    else 0
  }

  /** No separator starts at any of the first n positions of t. */
  predicate NoBreakBefore(t: string, n: nat)
    requires n <= |t|
  {
    forall j :: 0 <= j < n ==> BreakLength(t[j..]) == 0
  }

  /** The position of the first separator in s, or |s| when there is none. */
  function FirstBreak(s: string): (i: nat)
    ensures i <= |s|
    ensures i < |s| ==> BreakLength(s[i..]) > 0
    decreases |s|
  {
    if s == [] || BreakLength(s) > 0 then 0
    else
      var i := FirstBreak(s[1..]);
      assert s[i + 1..] == s[1..][i..];
      i + 1
  }

  /** No separator starts before the one FirstBreak finds. */
  lemma {:induction false} FirstBreakIsFirst(s: string)
    ensures NoBreakBefore(s, FirstBreak(s))
    decreases |s|
  {
    if s != [] && BreakLength(s) == 0 {
      FirstBreakIsFirst(s[1..]);
      forall j | 1 <= j < FirstBreak(s)
        ensures BreakLength(s[j..]) == 0
      {
        assert s[j..] == s[1..][j - 1..];
      }
    }
  }

  /** The pieces of a split and the separators met between them. */
  datatype Pieces = Pieces(lines: seq<string>, breaks: seq<string>)

  /**
   * String.Split(separators, StringSplitOptions.None): the text before the
   * first separator, then the split of the text after it.  Empty pieces are
   * kept, and there is one piece more than separators.
   */
  function SplitBreaks(s: string): (r: Pieces)
    ensures |r.lines| == |r.breaks| + 1
    decreases |s|
  {
    var i := FirstBreak(s);
    if i == |s| then Pieces([s], [])
    else
      var n := BreakLength(s[i..]);
      var rest := SplitBreaks(s[i + n..]);
      Pieces([s[..i]] + rest.lines, [s[i..i + n]] + rest.breaks)
  }

  /** Every separator the split records is one of the three. */
  lemma {:induction false} SplitBreaksSeparators(s: string)
    ensures forall k :: 0 <= k < |SplitBreaks(s).breaks| ==> IsBreak(SplitBreaks(s).breaks[k])
    decreases |s|
  {
    var i := FirstBreak(s);
    if i < |s| {
      var n := BreakLength(s[i..]);
      SplitBreaksSeparators(s[i + n..]);
      assert s[i..i + n] == s[i..][..n];
    }
  }

  /** SplitLines: TrimEnd('\r', '\n') and then the split on the three separators. */
  function SplitLines(raw: string): (lines: seq<string>)
    ensures |lines| >= 1
  {
    SplitBreaks(TrimEndBy(raw, IsLineEnd)).lines
  }

  /** Putting the separators back between the pieces gives the split text. */
  lemma {:induction false} SplitBreaksRoundTrip(s: string)
    ensures Interleave(SplitBreaks(s).lines, SplitBreaks(s).breaks) == s
    decreases |s|
  {
    var i := FirstBreak(s);
    if i < |s| {
      var n := BreakLength(s[i..]);
      var rest := SplitBreaks(s[i + n..]);
      assert SplitBreaks(s) == Pieces([s[..i]] + rest.lines, [s[i..i + n]] + rest.breaks);
      SplitBreaksRoundTrip(s[i + n..]);
      InterleaveCons(s[..i], s[i..i + n], rest.lines, rest.breaks);
      Reassemble(s, i, i + n);
    }
  }

  /** A separator inside a prefix of s is a separator of s at the same place. */
  lemma BreakInPrefix(s: string, t: string)
    requires |t| <= |s| && t == s[..|t|]
    ensures BreakLength(t) > 0 ==> BreakLength(s) > 0
  {
    if |t| >= 2 {
      assert t[0] == s[0] && t[1] == s[1];
    } else if |t| == 1 {
      assert t[0] == s[0];
    }
  }

  /** Piece k of a split followed by the separator after it, if any. */
  function Segment(r: Pieces, k: nat): string
    requires k < |r.lines|
  {
    r.lines[k] + (if k < |r.breaks| then r.breaks[k] else "")
  }

  /**
   * The split takes the earliest separator: no separator starts inside a
   * piece, even one that runs on into the separator after it.  So no piece
   * holds a line feed or the text backslash-n, and a piece followed by a
   * bare LF never ends with a carriage return.
   */
  lemma {:induction false} SplitBreaksEarliest(s: string)
    ensures forall k :: 0 <= k < |SplitBreaks(s).lines| ==>
      NoBreakBefore(Segment(SplitBreaks(s), k), |SplitBreaks(s).lines[k]|)
    decreases |s|
  {
    var r := SplitBreaks(s);
    FirstPieceEarliest(s);
    var i := FirstBreak(s);
    if i < |s| {
      var n := BreakLength(s[i..]);
      var rest := SplitBreaks(s[i + n..]);
      assert r.lines == [s[..i]] + rest.lines && r.breaks == [s[i..i + n]] + rest.breaks;
      SplitBreaksEarliest(s[i + n..]);
      forall k | 1 <= k < |r.lines|
        ensures NoBreakBefore(Segment(r, k), |r.lines[k]|)
      {
        SegmentShift(r, rest, k);
      }
    }
  }

  /** Segment k of a split is segment k - 1 of the split of the text after its first separator. */
  lemma SegmentShift(r: Pieces, rest: Pieces, k: nat)
    requires |rest.lines| == |rest.breaks| + 1 && 1 <= k < |r.lines| && |r.breaks| >= 1
    requires r.lines == r.lines[..1] + rest.lines && r.breaks == r.breaks[..1] + rest.breaks
    ensures r.lines[k] == rest.lines[k - 1] && Segment(r, k) == Segment(rest, k - 1)
  {
  }

  /** The first piece of a split, with its separator, holds no earlier separator. */
  lemma FirstPieceEarliest(s: string)
    ensures NoBreakBefore(Segment(SplitBreaks(s), 0), |SplitBreaks(s).lines[0]|)
  {
    var i := FirstBreak(s);
    FirstBreakIsFirst(s);
    var m := FirstSegmentEnd(s);
    FirstSegment(s, m, i);
  }

  /** The first piece of a split is the text before the first separator, and its segment ends after that separator. */
  lemma FirstSegmentEnd(s: string) returns (m: nat)
    ensures FirstBreak(s) <= m <= |s|
    ensures SplitBreaks(s).lines[0] == s[..FirstBreak(s)] && Segment(SplitBreaks(s), 0) == s[..m]
  {
    var i := FirstBreak(s);
    var r := SplitBreaks(s);
    if i == |s| {
      m := i;
      assert r.lines == [s] && r.breaks == [];
    } else {
      var n := BreakLength(s[i..]);
      m := i + n;
      assert r.lines[0] == s[..i] && r.breaks[0] == s[i..i + n];
      assert s[..i] + s[i..i + n] == s[..m];
    }
  }

  /** A prefix of s ending at or after the first separator has no separator before it. */
  lemma FirstSegment(s: string, m: nat, i: nat)
    requires i <= m <= |s| && NoBreakBefore(s, i)
    ensures NoBreakBefore(s[..m], i)
  {
    forall j | 0 <= j < i
      ensures BreakLength(s[..m][j..]) == 0
    {
      assert s[..m][j..] == s[j..][..m - j];
      BreakInPrefix(s[j..], s[..m][j..]);
    }
  }

  /** No line produced by SplitLines holds a line feed. */
  lemma SplitLinesHaveNoLineFeed(raw: string)
    ensures forall k :: 0 <= k < |SplitLines(raw)| ==> '\n' !in SplitLines(raw)[k]
  {
    var r := SplitBreaks(TrimEndBy(raw, IsLineEnd));
    SplitBreaksEarliest(TrimEndBy(raw, IsLineEnd));
    forall k | 0 <= k < |r.lines|
      ensures '\n' !in r.lines[k]
    {
      var text := Segment(r, k);
      assert NoBreakBefore(text, |r.lines[k]|);
      forall j | 0 <= j < |r.lines[k]|
        ensures r.lines[k][j] != '\n'
      {
        assert BreakLength(text[j..]) == 0;
        assert text[j..][0] == r.lines[k][j];
      }
    }
  }

  /**
   * A piece followed by a bare line feed never ends with a carriage return:
   * the carriage return and the line feed would have made the earlier
   * separator "\r\n".
   */
  lemma NoCarriageReturnBeforeLineFeed(s: string, k: nat)
    requires k < |SplitBreaks(s).breaks| && SplitBreaks(s).breaks[k] == "\n"
    ensures var line := SplitBreaks(s).lines[k]; line == [] || line[|line| - 1] != '\r'
  {
    var r := SplitBreaks(s);
    SplitBreaksEarliest(s);
    var line := r.lines[k];
    var text := Segment(r, k);
    assert NoBreakBefore(text, |line|);
    if line != [] {
      var j := |line| - 1;
      assert BreakLength(text[j..]) == 0;
      assert text[j..][0] == line[j] && text[j..][1] == '\n';
    }
  }
}
