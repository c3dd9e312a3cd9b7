// The header dictionary of the HTTP parser (lab4 HttpHeaders): one field
// line split at its first colon, the header rows before the blank line, and
// the dictionary updates the parser makes.

module HttpFields {
  import opened HttpText

  /** One header: its name and its value. */
  datatype Field = Field(key: string, value: string)

  /**
   * A Dictionary<string, string> as the parser uses it: the entries in the
   * order a foreach visits them (insertion order), at most one per key.
   */
  type Fields = seq<Field>

  predicate DistinctKeys(fs: Fields)
  {
    forall i, j :: 0 <= i < j < |fs| ==> fs[i].key != fs[j].key
  }

  function Keys(fs: Fields): (r: seq<string>)
    ensures |r| == |fs| && forall k :: 0 <= k < |fs| ==> r[k] == fs[k].key
  {
    if fs == [] then [] else [fs[0].key] + Keys(fs[1..])
  }

  /** Dictionary.TryGetValue: the value stored under key, if any. */
  function Lookup(fs: Fields, key: string): Option<string>
  {
    var i := IndexOf(Keys(fs), key);
    if i < 0 then None else Some(fs[i].value)
  }

  /**
   * The indexer assignment Headers[key] = value: an existing entry keeps its
   * place and takes the new value, a new key goes at the end.
   */
  function Put(fs: Fields, key: string, value: string): (r: Fields)
    ensures |r| == |fs| || r == fs + [Field(key, value)]
    ensures forall f :: f in r ==> f in fs || f == Field(key, value)
    ensures forall j :: 0 <= j < |fs| && fs[j].key != key ==> r[j] == fs[j]
  {
    var i := IndexOf(Keys(fs), key);
    if i < 0 then fs + [Field(key, value)] else fs[i := Field(key, value)]
  }

  /** Dictionary.Remove: the entry under key goes, the others keep their order. */
  function Without(fs: Fields, key: string): (r: Fields)
    ensures Lookup(fs, key).None? ==> r == fs
  {
    var i := IndexOf(Keys(fs), key);
    if i < 0 then fs else fs[..i] + fs[i + 1..]
  }

  /** With one entry per key, a lookup finds v exactly when the entry (key, v) is present. */
  lemma LookupIsMembership(fs: Fields, key: string, v: string)
    requires DistinctKeys(fs)
    ensures Lookup(fs, key) == Some(v) <==> Field(key, v) in fs
  {
    var i := IndexOf(Keys(fs), key);
    if Field(key, v) in fs {
      var j :| 0 <= j < |fs| && fs[j] == Field(key, v);
      assert Keys(fs)[j] == key;
      assert i == j;
    }
  }

  /** Put stores value under key, keeps every other entry, and keeps one entry per key. */
  lemma PutLookup(fs: Fields, key: string, value: string, other: string)
    requires DistinctKeys(fs)
    ensures DistinctKeys(Put(fs, key, value))
    ensures Lookup(Put(fs, key, value), other) == if other == key then Some(value) else Lookup(fs, other)
  {
    var r := Put(fs, key, value);
    PutDistinct(fs, key, value);
    if other == key {
      LookupIsMembership(r, other, value);
    } else if Lookup(fs, other).Some? {
      LookupIsMembership(r, other, Lookup(fs, other).value);
      LookupIsMembership(fs, other, Lookup(fs, other).value);
    } else if Lookup(r, other).Some? {
      LookupIsMembership(r, other, Lookup(r, other).value);
      LookupIsMembership(fs, other, Lookup(r, other).value);
    }
  }

  /** Put keeps one entry per key, and the entry (key, value) is present afterwards. */
  lemma PutDistinct(fs: Fields, key: string, value: string)
    requires DistinctKeys(fs)
    ensures DistinctKeys(Put(fs, key, value)) && Field(key, value) in Put(fs, key, value)
  {
    var r := Put(fs, key, value);
    var i := IndexOf(Keys(fs), key);
    if i < 0 {
      assert forall k :: 0 <= k < |fs| ==> fs[k].key != key by {
        forall k | 0 <= k < |fs|
          ensures fs[k].key != key
        {
          assert Keys(fs)[k] == fs[k].key;
        }
      }
      assert r[|fs|] == Field(key, value);
    } else {
      assert forall k :: 0 <= k < |fs| ==> r[k].key == fs[k].key;
      assert r[i] == Field(key, value);
    }
  }

  /** Without removes key only, and keeps one entry per key. */
  lemma WithoutLookup(fs: Fields, key: string, other: string)
    requires DistinctKeys(fs)
    ensures DistinctKeys(Without(fs, key))
    ensures Lookup(Without(fs, key), other) == if other == key then None else Lookup(fs, other)
  {
    var i := IndexOf(Keys(fs), key);
    if i >= 0 {
      var r := Without(fs, key);
      assert forall k :: 0 <= k < i ==> r[k] == fs[k];
      assert forall k :: i <= k < |r| ==> r[k] == fs[k + 1];
      assert DistinctKeys(r);
      match Lookup(r, other)
      case Some(v) =>
        LookupIsMembership(r, other, v);
        LookupIsMembership(fs, other, v);
      case None =>
        if other != key && Lookup(fs, other).Some? {
          var v := Lookup(fs, other).value;
          LookupIsMembership(fs, other, v);
          var j :| 0 <= j < |fs| && fs[j] == Field(other, v);
          assert j != i;
          assert Field(other, v) in r by {
            if j < i { assert r[j] == fs[j]; } else { assert r[j - 1] == fs[j]; }
          }
          LookupIsMembership(r, other, v);
        }
    }
  }

  // ---------------------------------------------------------------------------
  // HttpHeaders.GetHeader

  /**
   * GetHeader: the line split at its first colon (Split(':', 2)), both parts
   * trimmed.  A line without a colon has no second piece, and reading it
   * fails with an index out of range.
   */
  function GetHeader(line: string): (r: Result<Field>)
    ensures r.Failure? <==> ':' !in line
    ensures r.Failure? ==> r.error == IndexOutOfRange
    ensures r.Success? ==> Clean(r.value.key) && Clean(r.value.value)
  {
    var i := IndexOf(line, ':');
    if i < 0 then Failure(IndexOutOfRange) else Success(Field(Trim(line[..i]), Trim(line[i + 1..])))
  }

  /** A header line fails exactly when it has no colon, and then with an index out of range. */
  lemma GetHeaderFails(line: string)
    ensures GetHeader(line).Failure? <==> ':' !in line
    ensures GetHeader(line).Failure? ==> GetHeader(line).error == IndexOutOfRange
  {
    var i := IndexOf(line, ':');
    if i >= 0 {
      assert line[i] == ':';
    }
  }

  /**
   * The field line "key: value" gives back key and value, for a key without a
   * colon; the value may hold further colons.
   */
  lemma GetHeaderRoundTrip(key: string, value: string)
    requires ':' !in key && Clean(key) && Clean(value)
    ensures GetHeader(key + ": " + value) == Success(Field(key, value))
  {
    var line := key + ": " + value;
    var i := |key|;
    assert line[..i] == key && line[i] == ':' && line[i + 1..] == " " + value;
    IndexOfAt(line, ':', i);
    GetHeaderAt(line, i);
    TrimLeadingSpace(value);
    TrimClean(key);
  }

  /** A line whose first colon is at i splits there. */
  lemma GetHeaderAt(line: string, i: nat)
    requires IndexOf(line, ':') == i
    ensures GetHeader(line) == Success(Field(Trim(line[..i]), Trim(line[i + 1..])))
  {
  }

  /** Trimming a space put in front of clean text gives the text back. */
  lemma TrimLeadingSpace(value: string)
    requires Clean(value)
    ensures Trim(" " + value) == value
  {
    var t := " " + value;
    assert TrimStartBy(t, IsWhiteSpace) == value by {
      assert t[0] == ' ' && t[1..] == value;
      assert TrimStartBy(value, IsWhiteSpace) == value;
    }
    assert TrimEndBy(value, IsWhiteSpace) == value;
  }

  // ---------------------------------------------------------------------------
  // HttpHeaders.DetectLastRowIndex and InitializeHeaders

  /**
   * DetectLastRowIndex: the number of lines when none is blank, otherwise the
   * index just before the first blank line (-1 when the first line is blank).
   */
  function DetectLastRowIndex(lines: seq<string>): (r: int)
    ensures -1 <= r <= |lines|
    ensures r == |lines| <==> "" !in lines
    ensures "" in lines ==> r + 1 < |lines| && lines[r + 1] == "" && "" !in lines[..r + 1]
  {
    var blank := IndexOf(lines, "");
    if blank == -1 then |lines| else blank - 1
  }

  /** Every line read as a header line. */
  function ParsedRows(lines: seq<string>): (rows: seq<Result<Field>>)
    ensures |rows| == |lines|
  {
    if lines == [] then [] else [GetHeader(lines[0])] + ParsedRows(lines[1..])
  }

  /** Row k of the parsed rows is line k read as a header line. */
  lemma {:induction false} ParsedRowAt(lines: seq<string>, k: nat)
    requires k < |lines|
    ensures ParsedRows(lines)[k] == GetHeader(lines[k])
  {
    if k > 0 {
      ParsedRowAt(lines[1..], k - 1);
    }
  }

  /**
   * The headers InitializeHeaders has collected once the loop has read rows
   * 1 .. n - 1: the first failing row stops it, Cookie is skipped, and a
   * later key overwrites an earlier one.
   */
  function Collected(rows: seq<Result<Field>>, n: int): (r: Result<Fields>)
    requires n <= 1 || n <= |rows|
    ensures r.Success? ==> DistinctKeys(r.value) && forall f :: f in r.value ==> f.key != "Cookie"
    ensures r.Failure? ==> exists k :: 1 <= k < n && rows[k] == Failure(r.error)
    decreases n
  {
    if n <= 1 then Success([])
    else
      match Collected(rows, n - 1)
      case Failure(e) => Failure(e)
      case Success(fs) =>
        match rows[n - 1]
        case Failure(e) => Failure(e)
        case Success(f) =>
          if f.key == "Cookie" then Success(fs)
          else
            PutDistinct(fs, f.key, f.value);
            Success(Put(fs, f.key, f.value))
  }

  /** The headers of a message: the rows 1 .. LastIndex - 1. */
  function HeadersOf(lines: seq<string>): (r: Result<Fields>)
    ensures r.Success? ==> DistinctKeys(r.value) && forall f :: f in r.value ==> f.key != "Cookie"
    ensures r.Failure? ==> r.error == IndexOutOfRange
  {
    var rows := ParsedRows(lines);
    assert forall k :: 0 <= k < |lines| ==> rows[k] == GetHeader(lines[k]) by {
      forall k | 0 <= k < |lines| ensures rows[k] == GetHeader(lines[k]) {
        ParsedRowAt(lines, k);
      }
    }
    Collected(rows, DetectLastRowIndex(lines))
  }

  /** Collecting fails exactly when some row read fails, and with that row's error. */
  lemma {:induction false} CollectedFails(rows: seq<Result<Field>>, n: int)
    requires n <= 1 || n <= |rows|
    ensures Collected(rows, n).Failure? <==> exists k :: 1 <= k < n && rows[k].Failure?
    ensures Collected(rows, n).Failure? ==> exists k :: 1 <= k < n && rows[k] == Failure(Collected(rows, n).error)
    decreases n
  {
    if n > 1 {
      CollectedFails(rows, n - 1);
      if rows[n - 1].Failure? {
        assert 1 <= n - 1 < n && rows[n - 1].Failure?;
      }
    }
  }

  /**
   * The headers fail exactly when a header row has no colon, and then with
   * an index out of range.
   */
  lemma HeadersFail(lines: seq<string>)
    ensures HeadersOf(lines).Failure? <==> exists k :: 1 <= k < DetectLastRowIndex(lines) && ':' !in lines[k]
    ensures HeadersOf(lines).Failure? ==> HeadersOf(lines).error == IndexOutOfRange
  {
    var rows := ParsedRows(lines);
    var n := DetectLastRowIndex(lines);
    CollectedFails(rows, n);
    forall k | 1 <= k < n
      ensures rows[k].Failure? <==> ':' !in lines[k]
      ensures rows[k].Failure? ==> rows[k].error == IndexOutOfRange
    {
      ParsedRowAt(lines, k);
      GetHeaderFails(lines[k]);
    }
  }

  /** Once a row has failed, reading further rows keeps that failure. */
  lemma {:induction false} CollectedStaysFailed(rows: seq<Result<Field>>, i: int, n: int)
    requires 1 < i <= n <= |rows| && Collected(rows, i).Failure?
    ensures Collected(rows, n) == Collected(rows, i)
    decreases n
  {
    if n > i {
      CollectedStaysFailed(rows, i, n - 1);
      CollectedFailedStep(rows, n);
    }
  }

  /** A failure before row n - 1 is also the result after it. */
  lemma CollectedFailedStep(rows: seq<Result<Field>>, n: int)
    requires 1 < n <= |rows| && Collected(rows, n - 1).Failure?
    ensures Collected(rows, n) == Collected(rows, n - 1)
  {
  }

  /**
   * The value the last row read declares for key (the row that wins in the
   * dictionary), if any.
   */
  function LastDeclared(rows: seq<Result<Field>>, n: int, key: string): Option<string>
    requires n <= 1 || n <= |rows|
    decreases n
  {
    if n <= 1 then None
    else if rows[n - 1].Success? && rows[n - 1].value.key == key then Some(rows[n - 1].value.value)
    else LastDeclared(rows, n - 1, key)
  }

  /**
   * Collected headers have one entry per key and never a Cookie entry, and
   * every other key holds the value of the last row that declares it.
   */
  lemma {:induction false} CollectedLastWins(rows: seq<Result<Field>>, n: int, key: string)
    requires (n <= 1 || n <= |rows|) && Collected(rows, n).Success?
    ensures DistinctKeys(Collected(rows, n).value)
    ensures Lookup(Collected(rows, n).value, "Cookie") == None
    ensures key != "Cookie" ==> Lookup(Collected(rows, n).value, key) == LastDeclared(rows, n, key)
    decreases n
  {
    if n > 1 {
      var fs := Collected(rows, n - 1).value;
      CollectedLastWins(rows, n - 1, key);
      var f := rows[n - 1].value;
      if f.key != "Cookie" {
        PutLookup(fs, f.key, f.value, key);
        PutLookup(fs, f.key, f.value, "Cookie");
      }
    }
  }

  /** Collecting up to n reads no row at or after n. */
  lemma {:induction false} CollectedReadsPrefix(rows: seq<Result<Field>>, other: seq<Result<Field>>, n: nat)
    requires n <= |rows| && n <= |other| && rows[..n] == other[..n]
    ensures Collected(rows, n) == Collected(other, n)
    decreases n
  {
    if n > 1 {
      assert rows[..n - 1] == rows[..n][..n - 1];
      assert other[..n - 1] == other[..n][..n - 1];
      CollectedReadsPrefix(rows, other, n - 1);
      assert rows[n - 1] == rows[..n][n - 1];
      assert other[n - 1] == other[..n][n - 1];
    }
  }

  /**
   * The header row just before the blank line is never read: replacing it by
   * any other non-blank text leaves the headers as they were.
   */
  lemma LineBeforeBlankIgnored(lines: seq<string>, b: nat, text: string)
    requires 1 <= b < |lines| && lines[b] == "" && "" !in lines[..b] && text != ""
    ensures HeadersOf(lines[b - 1 := text]) == HeadersOf(lines)
  {
    var other := lines[b - 1 := text];
    assert other[..b] == lines[..b - 1] + [text];
    IndexOfAt(lines, "", b);
    IndexOfAt(other, "", b);
    var rows, otherRows := ParsedRows(lines), ParsedRows(other);
    forall k | 0 <= k < b - 1
      ensures rows[k] == otherRows[k]
    {
      ParsedRowAt(lines, k);
      ParsedRowAt(other, k);
    }
    assert rows[..b - 1] == otherRows[..b - 1];
    CollectedReadsPrefix(rows, otherRows, b - 1);
  }

  /** A response whose only header sits just before the blank line has no headers. */
  lemma OnlyHeaderDropped()
    ensures HeadersOf(["HTTP/1.1 200 OK", "Content-Length: 5", "", "hello"]) == Success([])
  {
    var lines := ["HTTP/1.1 200 OK", "Content-Length: 5", "", "hello"];
    assert lines[0] != "" && lines[1] != "" && lines[2] == "";
    assert IndexOf(lines, "") == 2;
  }

  /** A header as the ToString methods print it. */
  function HeaderLine(f: Field): string
  {
    f.key + ": " + f.value
  }

  function HeaderLines(fs: Fields): (r: seq<string>)
  {
    seq(|fs|, k requires 0 <= k < |fs| => HeaderLine(fs[k]))
  }

  /** One more header adds its line at the end. */
  lemma HeaderLinesAppend(fs: Fields, f: Field)
    ensures HeaderLines(fs + [f]) == HeaderLines(fs) + [HeaderLine(f)]
  {
    assert HeaderLines(fs + [f])[..|fs|] == HeaderLines(fs);
  }

  /** The Headers dictionary of a parsed message, with the row bound LastIndex. */
  class HttpHeaders {
    var headers: Fields
    var lastIndex: int

    predicate Valid()
      reads this
    {
      DistinctKeys(headers)
    }

    /** The object as allocated, before InitializeHeaders has run. */
    constructor Empty()
      ensures headers == [] && lastIndex == 0 && Valid()
    {
      headers := [];
      lastIndex := 0;
    }

    /**
     * new HttpHeaders(lines): the constructor runs InitializeHeaders, whose
     * exception reaches the caller as a failure.
     */
    static method New(lines: seq<string>) returns (r: Result<HttpHeaders>)
      ensures r.Failure? <==> HeadersOf(lines).Failure?
      ensures r.Failure? ==> r.error == HeadersOf(lines).error
      ensures r.Success? ==>
        fresh(r.value) && r.value.Valid() &&
        r.value.headers == HeadersOf(lines).value && r.value.lastIndex == DetectLastRowIndex(lines)
    {
      var h := new HttpHeaders.Empty();
      var err := h.InitializeHeaders(lines);
      if err.Some? {
        return Failure(err.value);
      }
      return Success(h);
    }

    /**
     * InitializeHeaders: fixes LastIndex and adds the rows 1 .. LastIndex - 1
     * one by one; the first row without a colon stops it with an error.
     */
    method InitializeHeaders(lines: seq<string>) returns (err: Option<ParseError>)
      modifies this
      ensures lastIndex == DetectLastRowIndex(lines)
      ensures err.None? <==> HeadersOf(lines).Success?
      ensures err.Some? ==> HeadersOf(lines) == Failure(err.value)
      ensures err.None? ==> headers == HeadersOf(lines).value && Valid()
    {
      headers := [];
      lastIndex := DetectLastRowIndex(lines);
      var i := 1;
      ghost var rows := ParsedRows(lines);
      while i < lastIndex
        invariant i == 1 || 1 < i <= lastIndex
        invariant lastIndex == DetectLastRowIndex(lines)
        invariant Collected(rows, i) == Success(headers)
        decreases lastIndex - i
      {
        var parsed := ReadRow(lines, i);
        if parsed.Failure? {
          CollectedStaysFailed(rows, i + 1, lastIndex);
          return Some(parsed.error);
        }
        var f := parsed.value;
        if f.key != "Cookie" {
          headers := Put(headers, f.key, f.value);
        }
        i := i + 1;
      }
      CollectedLastWins(rows, lastIndex, "");
      return None;
    }

    /** GetHeader(lines[i]), as the loop of InitializeHeaders reads it. */
    static method ReadRow(lines: seq<string>, i: nat) returns (parsed: Result<Field>)
      requires i < |lines|
      ensures parsed == ParsedRows(lines)[i]
    {
      parsed := GetHeader(lines[i]);
      ParsedRowAt(lines, i);
    }

    /** AddHeader: Headers[key] = value. */
    method AddHeader(key: string, value: string)
      requires Valid()
      modifies this
      ensures headers == Put(old(headers), key, value) && lastIndex == old(lastIndex)
      ensures Valid()
    {
      PutLookup(headers, key, value, key);
      headers := Put(headers, key, value);
    }

    /** RemoveHeader: the entry under key is removed when there is one. */
    method RemoveHeader(key: string)
      requires Valid()
      modifies this
      ensures headers == Without(old(headers), key) && lastIndex == old(lastIndex)
      ensures Valid()
    {
      WithoutLookup(headers, key, key);
      if Lookup(headers, key).Some? {
        headers := Without(headers, key);
      }
    }
  }
}
