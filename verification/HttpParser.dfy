/** The parser objects (individual/lib/HTTP.cpp, lines 317-662): each Consume updates the fields of
    the object and of the parsers it is made of, and does what the state machine says. */
module HttpParser {
  import opened Common
  import opened Numbers
  import opened Http
  import opened HttpScan
  import opened HttpMachine

  /** THttpRequestLineParser and THttpResponseStatusLineParser. */
  class LineParser {
    const first: UntilParser
    const second: UntilParser
    const third: UntilParser
    var field: LineField

    ghost predicate Separate() { first != second && first != third && second != third }

    ghost function Repr(): set<object> { {this, first, second, third} }

    ghost function View(): LineP
      reads Repr()
    {
      LineP(field, first.View(), second.View(), third.View())
    }

    constructor ()
      ensures Separate() && View() == LineStart() && fresh(Repr())
    {
      first := new UntilParser(" ");
      second := new UntilParser(" ");
      third := new UntilParser(CRLF);
      field := FIRST;
    }

    method Consume(c: char) returns (parsed: bool)
      requires Separate()
      modifies Repr()
      ensures LineStepped(View(), parsed) == LineStep(old(View()), c)
    {
      parsed := false;
      match field {
        case FIRST =>
          var done := first.Consume(c);
          if done {
            field := SECOND;
          }
        case SECOND =>
          var done := second.Consume(c);
          if done {
            field := THIRD;
          }
        case THIRD =>
          parsed := third.Consume(c);
      }
    }
  }

  /** THttpHeadersParser. */
  class HeadersParser {
    const line: UntilParser
    var parsed: seq<Header>

    ghost function Repr(): set<object> { {this, line} }

    ghost predicate Valid() { line.delimiter == CRLF }

    ghost function View(): HeadersP
      reads Repr()
    {
      HeadersP(line.View(), parsed)
    }

    constructor ()
      ensures Valid() && View() == HeadersStart() && fresh(Repr())
    {
      line := new UntilParser(CRLF);
      parsed := [];
    }

    method Consume(c: char) returns (done: bool)
      requires Valid()
      modifies Repr()
      ensures HeadersStepped(View(), done) == HeadersStep(old(View()), c)
    {
      var lineParsed := line.Consume(c);
      if lineParsed {
        if line.parsed == "" {
          return true;
        }
        var h := ReadHeader(line.parsed);
        parsed := parsed + [h];
        line.Reset();
      }
      return false;
    }
  }

  /** Whether a transfer encoding lists "chunked". */
  method CheckChunked(headers: HttpHeaders) returns (r: bool)
    requires headers.Valid()
    ensures r == IsChunked(headers.headers)
  {
    var mbHeader := headers.Find(TRANSFER_ENCODING);
    if mbHeader == None {
      return false;
    }
    var directives := SplitValue(mbHeader.value.value);
    return "chunked" in directives;
  }

  /** THttpRequestParser and THttpResponseParser. */
  class MessageParser {
    const kind: Kind
    const line: LineParser
    const headers: HeadersParser
    const data: NParser
    const chunkLength: UntilParser
    const chunk: NParser
    var state: State
    var chunked: bool
    var chunkedData: string

    ghost function Repr(): set<object> {
      {this, data, chunkLength, chunk} + line.Repr() + headers.Repr()
    }

    ghost predicate Valid() {
      && line.Separate() && headers.Valid() && chunkLength.delimiter == CRLF
      && data != chunk
      && (this as object) !in line.Repr() && (this as object) !in headers.Repr()
      && line.Repr() !! headers.Repr()
      && chunkLength !in line.Repr() && chunkLength !in headers.Repr()
    }

    ghost function View(): MessageP
      reads Repr()
    {
      MessageP(kind, false, state, line.View(), headers.View(), data.View(),
               chunked, chunkLength.View(), chunk.View(), chunkedData)
    }

    constructor (kind: Kind)
      ensures Valid() && View() == Start(kind, false) && fresh(Repr())
    {
      this.kind := kind;
      line := new LineParser();
      headers := new HeadersParser();
      data := new NParser();
      chunkLength := new UntilParser(CRLF);
      chunk := new NParser();
      state := LINE;
      chunked := false;
      chunkedData := "";
    }

    method Consume(c: char) returns (r: Result)
      requires Valid()
      modifies Repr()
      ensures Stepped(View(), r) == Step(old(View()), c)
    {
      hide UntilStep, CountedStep, LineStep, HeadersStep, AfterHeaders, AfterChunkLength;
      match state {
        case LINE =>
          var parsed := line.Consume(c);
          if parsed {
            state := HEADERS;
          }
          r := Await;
        case HEADERS =>
          var parsed := headers.Consume(c);
          r := Await;
          if parsed {
            r := StartBody();
          }
        case DATA =>
          var parsed := data.Consume(c);
          r := if parsed then Parsed else Await;
        case CHUNK_LENGTH =>
          var parsed := chunkLength.Consume(c);
          r := Await;
          if parsed {
            r := StartChunk();
          }
        case CHUNK_DATA =>
          var parsed := chunk.Consume(c);
          r := Await;
          if parsed {
            EndChunk();
          }
      }
    }

    /** The headers are complete: decide how the body ends. */
    method StartBody() returns (r: Result)
      requires Valid()
      modifies this, data
      ensures Stepped(View(), r) == AfterHeaders(old(View()))
    {
      var dataLength := ComputeDataLength(headers.parsed);
      var isChunked := false;
      if kind.RESPONSE? {
        var hs := new HttpHeaders(headers.parsed);
        isChunked := CheckChunked(hs);
      }
      if dataLength == 0 && !isChunked {
        return Parsed;
      }
      if !isChunked {
        state := DATA;
        var thrown := data.SetN(dataLength);
        return if thrown then Broken else Await;
      }
      state := CHUNK_LENGTH;
      chunked := true;
      return Await;
    }

    method StartChunk() returns (r: Result)
      requires Valid()
      modifies this, chunk, chunkLength
      ensures Stepped(View(), r) == AfterChunkLength(old(View()))
    {
      hide FromChars;
      var length := FromChars(chunkLength.parsed, 16);
      if length == None {
        return Broken;
      }
      if length.value == 0 {
        return Parsed;
      }
      if length.value + 2 > INT_MAX {
        return Broken;
      }
      state := CHUNK_DATA;
      var thrown := chunk.SetN(length.value + 2);
      chunkLength.Reset();
      return if thrown then Broken else Await;
    }

    method EndChunk()
      requires Valid()
      modifies this
      ensures View() == old(View()).(state := CHUNK_LENGTH, chunkedData := old(chunkedData) + chunk.parsed)
    {
      state := CHUNK_LENGTH;
      chunkedData := chunkedData + chunk.parsed;
    }

    method Result() returns (m: Message)
      requires Valid()
      ensures m == ParsedMessage(View())
    {
      var l := StartLine(line.first.parsed, line.second.parsed, line.third.parsed);
      if !chunked {
        return Message(l, headers.parsed, data.parsed);
      }
      var hs := new HttpHeaders(headers.parsed);
      hs.Update(Header(CONTENT_LENGTH, ToString(|chunkedData|)));
      hs.Remove(TRANSFER_ENCODING);
      return Message(l, hs.headers, chunkedData);
    }

    /** The loop of a read callback: consume the buffer until the parser stops awaiting. */
    method ConsumeBuffer(buffer: string) returns (status: Result, consumed: nat)
      requires Valid()
      modifies Repr()
      ensures consumed <= |buffer|
      ensures Fed(View(), status, buffer[consumed..]) == Feed(old(View()), buffer)
    {
      hide Step;
      status := Await;
      var i := 0;
      while i < |buffer| && status.Await?
        invariant i <= |buffer|
        invariant Feed(old(View()), buffer) ==
                  if status.Await? then Feed(View(), buffer[i..]) else Fed(View(), status, buffer[i..])
      {
        assert buffer[i..][1..] == buffer[i + 1..];
        status := Consume(buffer[i]);
        i := i + 1;
      }
      consumed := i;
    }
  }
}
