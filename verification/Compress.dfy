/** Compression of responses (individual/lib/Compress.cpp, and lines 206-240 of individual/lib/HTTP.cpp).
    gzip itself is a parameter: any function on strings. */
module Compress {
  import opened Common
  import opened Numbers
  import opened Http
  import opened HttpScan
  import opened HttpMachine
  import opened HttpRoundTrip
  import opened HttpNormalForm

  const CONTENT_ENCODING: string := "Content-Encoding"
  const ACCEPT_ENCODING: string := "Accept-Encoding"
  const GZIP: string := "gzip"

  predicate Lists(hs: seq<Header>, key: string, directive: string) {
    match FirstValue(hs, key)
    case None => false
    case Some(v) => directive in Directives(v)
  }

  predicate IsCompressed(m: Message) { Lists(m.headers, CONTENT_ENCODING, GZIP) }

  predicate CompressionSupported(request: Message) { Lists(request.headers, ACCEPT_ENCODING, GZIP) }

  function WithGzip(h: Header): Header {
    if h.key == CONTENT_ENCODING then Header(h.key, h.value + ", gzip") else h
  }

  function EachWithGzip(hs: seq<Header>): seq<Header> {
    if hs == [] then [] else EachWithGzip(hs[..|hs| - 1]) + [WithGzip(hs[|hs| - 1])]
  }

  /** Every Content-Encoding gains gzip; without one a new header says so. */
  function Expanded(hs: seq<Header>): seq<Header> {
    EachWithGzip(hs) + if FirstValue(hs, CONTENT_ENCODING) == None then [Header(CONTENT_ENCODING, GZIP)] else []
  }

  function LengthHeader(data: string): Header { Header(CONTENT_LENGTH, ToString(|data|)) }

  function Compressed(gz: string -> string, m: Message): Message {
    if IsCompressed(m) then m
    else Message(m.line, Updated(Expanded(m.headers), LengthHeader(gz(m.data))), gz(m.data))
  }

  method ExpandContentEncoding(headers: seq<Header>) returns (ret: seq<Header>)
    ensures ret == Expanded(headers)
  {
    ret := [];
    var changed := false;
    for i := 0 to |headers|
      invariant ret == EachWithGzip(headers[..i])
      invariant changed <==> FirstValue(headers[..i], CONTENT_ENCODING).Some?
    {
      assert headers[..i + 1] == headers[..i] + [headers[i]];
      FirstValueAppend(headers[..i], headers[i], CONTENT_ENCODING);
      if headers[i].key == CONTENT_ENCODING {
        ret := ret + [Header(CONTENT_ENCODING, headers[i].value + ", gzip")];
        changed := true;
      } else {
        ret := ret + [headers[i]];
      }
    }
    assert headers[..|headers|] == headers;
    if !changed {
      ret := ret + [Header(CONTENT_ENCODING, GZIP)];
    }
  }

  /** THttpResponse. */
  class HttpResponse {
    var line: StartLine
    var headers: HttpHeaders
    var data: string

    ghost predicate Valid()
      reads this, headers
    {
      headers.Valid()
    }

    ghost function View(): Message
      reads this, headers
    {
      Message(line, headers.headers, data)
    }

    constructor (m: Message)
      ensures Valid() && View() == m && fresh(headers)
    {
      line := m.line;
      headers := new HttpHeaders(m.headers);
      data := m.data;
    }

    method UpdateContentLength()
      requires Valid()
      modifies headers
      ensures Valid() && View() == old(View()).(headers := Updated(old(headers.headers), LengthHeader(data)))
    {
      headers.Update(LengthHeader(data));
    }

    method ListsDirective(key: string, directive: string) returns (r: bool)
      requires Valid()
      ensures r == Lists(headers.headers, key, directive)
    {
      var mbHeader := headers.Find(key);
      if mbHeader == None {
        return false;
      }
      var directives := SplitValue(mbHeader.value.value);
      return directive in directives;
    }

    /** Compress(THttpResponse&) overwrites its argument. */
    method Compress(gz: string -> string)
      requires Valid()
      modifies this, headers
      ensures Valid() && View() == Compressed(gz, old(View()))
      ensures headers == old(headers) || fresh(headers)
    {
      hide Directives, Updated, Expanded;
      var already := ListsDirective(CONTENT_ENCODING, GZIP);
      if already {
        return;
      }
      var expanded := ExpandContentEncoding(headers.headers);
      headers := new HttpHeaders(expanded);
      data := gz(data);
      UpdateContentLength();
    }
  }

  // ----- what compression promises -----

  /** The first header of the key has a value of which the word is a maximal run. */
  ghost predicate FirstListed(hs: seq<Header>, key: string, w: string) {
    match FirstValue(hs, key)
    case None => false
    case Some(v) => HasRun(v, w)
  }

  lemma ListsIff(hs: seq<Header>, key: string, w: string)
    ensures Lists(hs, key, w) <==> FirstListed(hs, key, w)
  {
    match FirstValue(hs, key)
    case None =>
    case Some(v) => DirectivesAreRuns(v, w);
  }

  lemma {:induction false} EachAt(hs: seq<Header>, i: nat)
    requires i < |hs|
    ensures |EachWithGzip(hs)| == |hs|
    ensures EachWithGzip(hs)[i] ==
            if hs[i].key == "Content-Encoding" then Header("Content-Encoding", hs[i].value + ", gzip") else hs[i]
    decreases |hs|
  {
    if i < |hs| - 1 {
      EachAt(hs[..|hs| - 1], i);
    } else if |hs| > 1 {
      EachAt(hs[..|hs| - 1], 0);
    }
  }

  /** What compression does to a response that is not compressed: the line stays, the body is compressed,
      every header stays in its place but for Content-Encoding, which gains gzip, and Content-Length. */
  lemma CompressedIs(gz: string -> string, m: Message, i: nat)
    requires !FirstListed(m.headers, "Content-Encoding", "gzip") && i < |m.headers|
    ensures var c := Compressed(gz, m);
      && c.line == m.line && c.data == gz(m.data) && i < |c.headers|
      && c.headers[i] ==
           if m.headers[i].key == "Content-Encoding" then Header("Content-Encoding", m.headers[i].value + ", gzip")
           else if m.headers[i].key == "Content-Length" then Header("Content-Length", ToString(|gz(m.data)|))
           else m.headers[i]
  {
    hide Updated, ToString;
    ListsIff(m.headers, "Content-Encoding", "gzip");
    var expanded := Expanded(m.headers);
    EachAt(m.headers, i);
    assert i < |expanded| && expanded[i] == EachWithGzip(m.headers)[i];
    UpdatedLength(expanded, LengthHeader(gz(m.data)));
    UpdatedAt(expanded, LengthHeader(gz(m.data)), i);
  }

  /** New headers stand at the end: Content-Encoding and then Content-Length, each if there was none. */
  lemma CompressedAdds(gz: string -> string, m: Message)
    requires !FirstListed(m.headers, "Content-Encoding", "gzip")
    ensures var encoding := if Lacks(m.headers, "Content-Encoding") then [Header("Content-Encoding", "gzip")] else [];
      var length := if Lacks(m.headers, "Content-Length") then [Header("Content-Length", ToString(|gz(m.data)|))] else [];
      var hs := Compressed(gz, m).headers;
      |hs| >= |m.headers| && hs[|m.headers|..] == encoding + length
  {
    hide ToString;
    ListsIff(m.headers, "Content-Encoding", "gzip");
    NoValue(m.headers, "Content-Encoding");
    NoValue(m.headers, "Content-Length");
    EachFirstValue(m.headers, "Content-Length");
    ExpandedFirstValue(m.headers, "Content-Length");
    var n := |m.headers|;
    var h := LengthHeader(gz(m.data));
    var expanded := Expanded(m.headers);
    EachLength(m.headers);
    ReplacedLength(expanded, h);
    if Lacks(m.headers, "Content-Encoding") {
      ReplacedAt(expanded, h, n);
    }
  }

  lemma {:induction false} EachLength(hs: seq<Header>)
    ensures |EachWithGzip(hs)| == |hs|
    decreases |hs|
  {
    if hs != [] {
      EachLength(hs[..|hs| - 1]);
    }
  }

  lemma {:induction false} EachFirstValue(hs: seq<Header>, key: string)
    ensures FirstValue(EachWithGzip(hs), key) ==
            match FirstValue(hs, key)
            case None => None
            case Some(v) => Some(if key == CONTENT_ENCODING then v + ", gzip" else v)
    decreases |hs|
  {
    if hs != [] {
      var init, last := hs[..|hs| - 1], hs[|hs| - 1];
      assert hs == init + [last];
      EachFirstValue(init, key);
      FirstValueAppend(init, last, key);
      FirstValueAppend(EachWithGzip(init), WithGzip(last), key);
    }
  }

  lemma ExpandedFirstValue(hs: seq<Header>, key: string)
    ensures FirstValue(Expanded(hs), key) ==
            if key != CONTENT_ENCODING then FirstValue(hs, key)
            else Some(match FirstValue(hs, key) case None => GZIP case Some(v) => v + ", gzip")
  {
    EachFirstValue(hs, key);
    FirstValueAppend(EachWithGzip(hs), Header(CONTENT_ENCODING, GZIP), key);
    assert EachWithGzip(hs) + [] == EachWithGzip(hs);
  }

  /** Adding ", gzip" to a value adds exactly the directive gzip. */
  lemma GzipAppended(v: string)
    ensures Directives(v + ", gzip") == Directives(v) + [GZIP]
    ensures Directives(GZIP) == [GZIP]
  {
    assert v + ", gzip" == (v + [',']) + [' '] + GZIP;
    DirectivesJoin(v + [','], ' ', GZIP);
    assert v + [','] == v + [','] + "";
    DirectivesJoin(v, ',', "");
    DirectivesOfWord(GZIP);
    assert Directives(v) + [] == Directives(v);
  }

  lemma CompressedHeaders(gz: string -> string, m: Message)
    ensures IsCompressed(Compressed(gz, m))
    ensures !IsCompressed(m) ==> FirstValue(Compressed(gz, m).headers, CONTENT_LENGTH) == Some(ToString(|gz(m.data)|))
    ensures FirstValue(Compressed(gz, m).headers, TRANSFER_ENCODING) == FirstValue(m.headers, TRANSFER_ENCODING)
  {
    hide Directives, Updated, Expanded, ToString;
    if !IsCompressed(m) {
      var hs := Expanded(m.headers);
      var h := LengthHeader(gz(m.data));
      FirstValueUpdated(hs, h, CONTENT_ENCODING);
      FirstValueUpdated(hs, h, CONTENT_LENGTH);
      FirstValueUpdated(hs, h, TRANSFER_ENCODING);
      ExpandedFirstValue(m.headers, CONTENT_ENCODING);
      ExpandedFirstValue(m.headers, TRANSFER_ENCODING);
      var v := FirstValue(m.headers, CONTENT_ENCODING);
      GzipAppended(if v.Some? then v.value else "");
    }
  }

  /** Compressing twice is compressing once, whatever the compressor. */
  lemma CompressIdempotent(gz: string -> string, m: Message)
    ensures Compressed(gz, Compressed(gz, m)) == Compressed(gz, m)
  {
    hide Compressed, IsCompressed;
    CompressedHeaders(gz, m);
    AlreadyCompressed(gz, Compressed(gz, m));
  }

  lemma AlreadyCompressed(gz: string -> string, m: Message)
    requires IsCompressed(m)
    ensures Compressed(gz, m) == m
  {}

  lemma {:induction false} EachWellFormed(hs: seq<Header>)
    requires WellFormedHeaders(hs)
    ensures WellFormedHeaders(EachWithGzip(hs))
    decreases |hs|
  {
    hide WellFormedHeader;
    if hs != [] {
      EachWellFormed(hs[..|hs| - 1]);
      GzipWellFormed(hs[|hs| - 1]);
    }
  }

  lemma GzipWellFormed(h: Header)
    requires WellFormedHeader(h)
    ensures WellFormedHeader(WithGzip(h))
  {
    hide Free, WithGzip;
    if h.key == CONTENT_ENCODING {
      ValueWithGzip(h.value);
    }
    WithGzipIs(h);
  }

  lemma WithGzipIs(h: Header)
    ensures WithGzip(h) == if h.key == CONTENT_ENCODING then Header(h.key, h.value + ", gzip") else h
  {}

  lemma ValueWithGzip(v: string)
    requires Free(CRLF, v)
    ensures Free(CRLF, v + ", gzip")
  {
    forall i ensures !OccursAt(v + ", gzip", CRLF, i) {
      if OccursAt(v + ", gzip", CRLF, i) {
        OccursBefore(v, i);
      }
    }
  }

  lemma OccursBefore(v: string, i: int)
    requires OccursAt(v + ", gzip", CRLF, i)
    ensures OccursAt(v, CRLF, i)
  {
    var t := v + ", gzip";
    assert t[i + 0] == CRLF[0] && t[i + 1] == CRLF[1];
    assert forall j :: |v| <= j < |t| ==> t[j] == ", gzip"[j - |v|];
  }

  lemma NewHeaderWellFormed()
    ensures WellFormedHeader(Header(CONTENT_ENCODING, GZIP))
  {
    FreeWithout(": ", CONTENT_ENCODING);
    FreeWithout(CRLF, CONTENT_ENCODING);
    FreeWithout(CRLF, GZIP);
  }

  lemma ExpandedWellFormed(hs: seq<Header>)
    requires WellFormedHeaders(hs)
    ensures WellFormedHeaders(Expanded(hs))
  {
    hide WellFormedHeader;
    EachWellFormed(hs);
    NewHeaderWellFormed();
  }

  /** Compression keeps a response one that can be parsed back, and makes it one: the Content-Length
      is the size of the body, exactly when that is an int. */
  lemma CompressedWellFormedIff(gz: string -> string, m: Message)
    requires Headlike(RESPONSE, m)
    ensures Headlike(RESPONSE, Compressed(gz, m))
    ensures !IsCompressed(m) ==> (WellFormed(RESPONSE, Compressed(gz, m)) <==> |gz(m.data)| <= INT_MAX)
  {
    hide WellFormedHeaders, WellFormedHeader, WellFormedLine, Expanded, Updated, DataLength, ToString, IsCompressed, Directives, FirstValue;
    CompressedHeaders(gz, m);
    if !IsCompressed(m) {
      var h := LengthHeader(gz(m.data));
      ExpandedWellFormed(m.headers);
      LengthHeaderWellFormed(|gz(m.data)|);
      UpdatedWellFormed(Expanded(m.headers), h);
      LengthIsInt(Updated(Expanded(m.headers), h));
      if |gz(m.data)| <= INT_MAX {
        FromCharsToString(|gz(m.data)|);
        DataLengthUpdated(Expanded(m.headers), h, |gz(m.data)|);
      }
    }
  }
}
