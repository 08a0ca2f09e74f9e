/** Parsing inverts serializing, and what the parsers accept is a normal form (sections 3 and 3.3 of
    RFC 7230). Each parser run is taken apart along the parsers it is made of. */
module HttpRoundTrip {
  import opened Http
  import opened HttpScan
  import opened HttpMachine

  // ----- start lines -----

  datatype LineFed = LineFed(l: LineP, done: bool, rest: string)

  function FeedLine(l: LineP, s: string): LineFed
    decreases |s|
  {
    if s == "" then LineFed(l, false, "")
    else
      var r := LineStep(l, s[0]);
      if r.done then LineFed(r.l, true, s[1..]) else FeedLine(r.l, s[1..])
  }

  lemma {:induction false} FirstField(l: LineP, s: string)
    requires l.field.FIRST?
    ensures FeedLine(l, s) ==
            var f := FeedUntil(l.first, s);
            if f.done then FeedLine(l.(first := f.u, field := SECOND), f.rest) else LineFed(l.(first := f.u), false, "")
    decreases |s|
  {
    hide UntilStep;
    if s != "" && !UntilStep(l.first, s[0]).done {
      FirstField(l.(first := UntilStep(l.first, s[0]).u), s[1..]);
    }
  }

  lemma {:induction false} SecondField(l: LineP, s: string)
    requires l.field.SECOND?
    ensures FeedLine(l, s) ==
            var f := FeedUntil(l.second, s);
            if f.done then FeedLine(l.(second := f.u, field := THIRD), f.rest) else LineFed(l.(second := f.u), false, "")
    decreases |s|
  {
    hide UntilStep;
    if s != "" && !UntilStep(l.second, s[0]).done {
      SecondField(l.(second := UntilStep(l.second, s[0]).u), s[1..]);
    }
  }

  lemma {:induction false} ThirdField(l: LineP, s: string)
    requires l.field.THIRD?
    ensures FeedLine(l, s) == var f := FeedUntil(l.third, s); LineFed(l.(third := f.u), f.done, f.rest)
    decreases |s|
  {
    hide UntilStep;
    if s != "" && !UntilStep(l.third, s[0]).done {
      ThirdField(l.(third := UntilStep(l.third, s[0]).u), s[1..]);
    }
  }

  ghost predicate WellFormedLine(x: StartLine) {
    Free(" ", x.first) && Free(" ", x.second) && Free(CRLF, x.third)
  }

  function ParsedLine(x: StartLine): LineP {
    LineP(THIRD, Until(" ", x.first), Until(" ", x.second), Until(CRLF, x.third))
  }

  lemma LineRoundTrip(x: StartLine, rest: string)
    requires WellFormedLine(x)
    ensures FeedLine(LineStart(), SerializeLine(x) + CRLF + rest) == LineFed(ParsedLine(x), true, rest)
  {
    hide FeedUntil, FeedLine, Free;
    var s3 := x.third + CRLF + rest;
    var s2 := x.second + " " + s3;
    var s1 := x.first + " " + s2;
    assert SerializeLine(x) + CRLF + rest == s1;
    assert "" + x.first == x.first && "" + x.second == x.second && "" + x.third == x.third;
    UntilFinds(" ", "", x.first, s2);
    UntilFinds(" ", "", x.second, s3);
    UntilFinds(CRLF, "", x.third, rest);
    var l := LineStart();
    FirstField(l, s1);
    SecondField(l.(first := Until(" ", x.first), field := SECOND), s2);
    ThirdField(l.(first := Until(" ", x.first), second := Until(" ", x.second), field := THIRD), s3);
  }

  lemma FreeOfEmpty(d: string)
    requires d != ""
    ensures Free(d, "")
  {
    forall i ensures !OccursAt("", d, i) {}
  }

  lemma LineOutput(s: string)
    ensures var f := FeedLine(LineStart(), s); f.done ==> WellFormedLine(LineOf(f.l))
  {
    hide FeedUntil, FeedLine, Free;
    var l := LineStart();
    FreeOfEmpty(" ");
    FreeOfEmpty(CRLF);
    FirstField(l, s);
    UntilFound(l.first, s);
    var f1 := FeedUntil(l.first, s);
    if f1.done {
      var l2 := l.(first := f1.u, field := SECOND);
      SecondField(l2, f1.rest);
      UntilFound(l2.second, f1.rest);
      var f2 := FeedUntil(l2.second, f1.rest);
      if f2.done {
        var l3 := l2.(second := f2.u, field := THIRD);
        ThirdField(l3, f2.rest);
        UntilFound(l3.third, f2.rest);
      }
    }
  }

  // ----- headers -----

  datatype HeadersFed = HeadersFed(h: HeadersP, done: bool, rest: string)

  function FeedHeaders(h: HeadersP, s: string): HeadersFed
    decreases |s|
  {
    if s == "" then HeadersFed(h, false, "")
    else
      var r := HeadersStep(h, s[0]);
      if r.done then HeadersFed(r.h, true, s[1..]) else FeedHeaders(r.h, s[1..])
  }

  /** A header block is a run of lines up to an empty one. */
  lemma {:induction false} OneLine(h: HeadersP, s: string)
    ensures FeedHeaders(h, s) ==
            var f := FeedUntil(h.line, s);
            if !f.done then HeadersFed(h.(line := f.u), false, "")
            else if f.u.parsed == "" then HeadersFed(h.(line := f.u), true, f.rest)
            else FeedHeaders(HeadersP(Until(CRLF, ""), h.parsed + [ParseHeader(f.u.parsed)]), f.rest)
    decreases |s|
  {
    hide UntilStep, ParseHeader;
    if s != "" && !UntilStep(h.line, s[0]).done {
      OneLine(h.(line := UntilStep(h.line, s[0]).u), s[1..]);
    }
  }

  ghost predicate WellFormedHeader(h: Header) {
    Free(": ", h.key) && Free(CRLF, h.key) && Free(CRLF, h.value)
  }

  ghost predicate WellFormedHeaders(hs: seq<Header>) {
    forall i :: 0 <= i < |hs| ==> WellFormedHeader(hs[i])
  }

  lemma HeaderLineFree(h: Header)
    requires Free(CRLF, h.key) && Free(CRLF, h.value)
    ensures Free(CRLF, SerializeHeader(h))
  {
    forall i ensures !OccursAt(SerializeHeader(h), CRLF, i) {
      if OccursAt(SerializeHeader(h), CRLF, i) {
        OccursInHeader(h, i);
      }
    }
  }

  lemma OccursInHeader(h: Header, i: int)
    requires OccursAt(SerializeHeader(h), CRLF, i)
    ensures OccursAt(h.key, CRLF, i) || OccursAt(h.value, CRLF, i - |h.key| - 2)
  {
    var t := SerializeHeader(h);
    assert t[i + 0] == CRLF[0] && t[i + 1] == CRLF[1];
  }

  lemma HeaderRoundTrip(h: Header)
    requires Free(": ", h.key)
    ensures ParseHeader(SerializeHeader(h)) == h
  {
    assert "" + h.key == h.key;
    UntilFinds(": ", "", h.key, h.value);
  }

  lemma HeaderOutput(line: string)
    requires Free(CRLF, line)
    ensures WellFormedHeader(ParseHeader(line))
  {
    hide FeedUntil, Free;
    FreeOfEmpty(": ");
    FreeOfEmpty(CRLF);
    UntilFound(Until(": ", ""), line);
    var f := FeedUntil(Until(": ", ""), line);
    assert "" + line == line;
    if f.done {
      assert f.u.parsed + (": " + f.rest) == line;
      assert (f.u.parsed + ": ") + f.rest == line;
      FreePrefix(CRLF, f.u.parsed, ": " + f.rest);
      FreeSuffix(CRLF, f.u.parsed + ": ", f.rest);
    }
  }

  lemma {:induction false} HeadersRoundTrip(acc: seq<Header>, hs: seq<Header>, rest: string)
    requires WellFormedHeaders(hs)
    ensures FeedHeaders(HeadersP(Until(CRLF, ""), acc), SerializeHeaders(hs) + CRLF + rest)
            == HeadersFed(HeadersP(Until(CRLF, ""), acc + hs), true, rest)
    decreases |hs|
  {
    hide FeedUntil, FeedHeaders, Free, ParseHeader;
    var h := HeadersP(Until(CRLF, ""), acc);
    OneLine(h, SerializeHeaders(hs) + CRLF + rest);
    if hs == [] {
      FreeOfEmpty(CRLF);
      assert SerializeHeaders(hs) + CRLF + rest == "" + CRLF + rest;
      assert "" + "" == "";
      UntilFinds(CRLF, "", "", rest);
      assert acc + [] == acc;
    } else {
      var line := SerializeHeader(hs[0]);
      var after := SerializeHeaders(hs[1..]) + CRLF + rest;
      assert WellFormedHeader(hs[0]);
      HeaderLineFree(hs[0]);
      HeaderRoundTrip(hs[0]);
      HeadersSplit(line, SerializeHeaders(hs[1..]), rest);
      assert "" + line == line;
      UntilFinds(CRLF, "", line, after);
      HeadersRoundTrip(acc + [hs[0]], hs[1..], rest);
      assert acc + [hs[0]] + hs[1..] == acc + hs;
    }
  }

  lemma HeadersSplit(line: string, more: string, rest: string)
    ensures (line + CRLF + more) + CRLF + rest == line + CRLF + (more + CRLF + rest)
  {}

  lemma {:induction false} HeadersOutput(acc: seq<Header>, s: string)
    requires WellFormedHeaders(acc)
    ensures var f := FeedHeaders(HeadersP(Until(CRLF, ""), acc), s); f.done ==> WellFormedHeaders(f.h.parsed)
    decreases |s|
  {
    hide FeedUntil, FeedHeaders, Free, ParseHeader, WellFormedHeader;
    var u := Until(CRLF, "");
    OneLine(HeadersP(u, acc), s);
    FreeOfEmpty(CRLF);
    UntilFound(u, s);
    var f := FeedUntil(u, s);
    if f.done && f.u.parsed != "" {
      HeaderOutput(f.u.parsed);
      assert "" + s == s;
      HeadersOutput(acc + [ParseHeader(f.u.parsed)], f.rest);
    }
  }

  /** What a message looks like: the separators of sections 3 and 3.2 of RFC 7230. */
  lemma MessageText(line: StartLine, hs: seq<Header>, key: string, value: string, data: string)
    ensures Serialize(Message(line, [], data)) ==
            line.first + " " + line.second + " " + line.third + "\r\n" + "\r\n" + data
    ensures SerializeHeaders([Header(key, value)] + hs) == key + ": " + value + "\r\n" + SerializeHeaders(hs)
  {
    var all := [Header(key, value)] + hs;
    assert all[0] == Header(key, value) && all[1..] == hs;
    assert SerializeHeaders([]) == "";
    var l := SerializeLine(line);
    assert l + CRLF + "" == l + CRLF;
  }

  // ----- whole messages -----

  lemma {:induction false} LinePhase(p: MessageP, s: string)
    requires p.state.LINE?
    ensures Feed(p, s) ==
            var f := FeedLine(p.line, s);
            if f.done then Feed(p.(line := f.l, state := HEADERS), f.rest) else Fed(p.(line := f.l), Await, "")
    decreases |s|
  {
    hide LineStep;
    if s != "" && !LineStep(p.line, s[0]).done {
      LinePhase(Step(p, s[0]).p, s[1..]);
    }
  }

  /** Where a parser goes on that has just taken a step. */
  function Continue(r: Stepped, s: string): Fed {
    if r.result.Await? then Feed(r.p, s) else Fed(r.p, r.result, s)
  }

  lemma {:induction false} HeadersPhase(p: MessageP, s: string)
    requires p.state.HEADERS?
    ensures Feed(p, s) ==
            var f := FeedHeaders(p.headers, s);
            if f.done then Continue(AfterHeaders(p.(headers := f.h)), f.rest) else Fed(p.(headers := f.h), Await, "")
    decreases |s|
  {
    hide HeadersStep, AfterHeaders;
    if s != "" && !HeadersStep(p.headers, s[0]).done {
      HeadersPhase(Step(p, s[0]).p, s[1..]);
    }
  }

  lemma {:induction false} DataPhase(p: MessageP, s: string)
    requires p.state.DATA?
    ensures Feed(p, s) ==
            var f := FeedCounted(p.data, s);
            Fed(p.(data := f.c), if f.done then Parsed else Await, f.rest)
    decreases |s|
  {
    hide CountedStep;
    if s != "" && !CountedStep(p.data, s[0]).done {
      DataPhase(Step(p, s[0]).p, s[1..]);
    }
  }

  /** The messages that survive: no field holds its delimiter, the last Content-Length is the size
      of the body, and a response does not claim to be chunked. */
  ghost predicate WellFormed(kind: Kind, m: Message) {
    && WellFormedLine(m.line) && WellFormedHeaders(m.headers)
    && DataLength(m.headers) == |m.data|
    && (kind.RESPONSE? ==> !IsChunked(m.headers))
  }

  /** The parser once line and headers have been read. */
  function Headed(kind: Kind, trim: bool, l: LineP, hs: seq<Header>): MessageP {
    Start(kind, trim).(state := HEADERS, line := l, headers := HeadersP(Until(CRLF, ""), hs))
  }

  lemma HeadRoundTrip(kind: Kind, trim: bool, x: StartLine, hs: seq<Header>, rest: string)
    requires WellFormedLine(x) && WellFormedHeaders(hs)
    ensures Feed(Start(kind, trim), SerializeLine(x) + CRLF + SerializeHeaders(hs) + CRLF + rest)
            == Continue(AfterHeaders(Headed(kind, trim, ParsedLine(x), hs)), rest)
  {
    hide FeedLine, FeedHeaders, AfterHeaders, Feed, WellFormedLine, WellFormedHeaders;
    var block := SerializeHeaders(hs) + CRLF + rest;
    var p := Start(kind, trim);
    assert SerializeLine(x) + CRLF + SerializeHeaders(hs) + CRLF + rest == SerializeLine(x) + CRLF + block;
    LinePhase(p, SerializeLine(x) + CRLF + block);
    LineRoundTrip(x, block);
    HeadersPhase(p.(line := ParsedLine(x), state := HEADERS), block);
    HeadersRoundTrip([], hs, rest);
    assert [] + hs == hs;
  }

  /** Parse inverts serialize: fed with the serialization, the parser awaits on every proper prefix,
      stops at the last byte, and hands out the same message. */
  lemma ParseSerialize(kind: Kind, trim: bool, m: Message)
    requires WellFormed(kind, m)
    ensures var f := Feed(Start(kind, trim), Serialize(m));
      f.result.Parsed? && f.rest == "" && ParsedMessage(f.p) == m
    ensures forall k :: 0 <= k < |Serialize(m)| ==> Feed(Start(kind, trim), Serialize(m)[..k]).result.Await?
  {
    hide Feed, WellFormedLine, WellFormedHeaders, FeedCounted;
    HeadRoundTrip(kind, trim, m.line, m.headers, m.data);
    var p := Headed(kind, trim, ParsedLine(m.line), m.headers);
    if m.data != "" {
      DataPhase(p.(state := DATA, data := Counted(|m.data|, "")), m.data);
      assert m.data + "" == m.data && "" + m.data == m.data;
      CountedTakes(Counted(|m.data|, ""), m.data, "");
    }
    forall k | 0 <= k < |Serialize(m)| ensures Feed(Start(kind, trim), Serialize(m)[..k]).result.Await? {
      AwaitsBefore(Start(kind, trim), Serialize(m), k);
    }
  }

  /** A line and a header block that have been accepted are well-formed. */
  lemma HeadOutput(kind: Kind, trim: bool, s: string)
    ensures var f := Feed(Start(kind, trim), s);
      f.result.Parsed? ==>
        exists l, hs, rest :: WellFormedLine(LineOf(l)) && WellFormedHeaders(hs) &&
          f == Continue(AfterHeaders(Headed(kind, trim, l, hs)), rest)
  {
    hide FeedLine, FeedHeaders, AfterHeaders, Feed, WellFormedLine, WellFormedHeaders;
    var p := Start(kind, trim);
    LinePhase(p, s);
    LineOutput(s);
    var f1 := FeedLine(LineStart(), s);
    if f1.done {
      var p2 := p.(line := f1.l, state := HEADERS);
      HeadersPhase(p2, f1.rest);
      NoHeadersYet();
      HeadersOutput([], f1.rest);
      HeadersLine([], f1.rest);
      var f2 := FeedHeaders(HeadersStart(), f1.rest);
      if f2.done {
        assert p2.(headers := f2.h) == Headed(kind, trim, f1.l, f2.h.parsed);
      }
    }
  }

  lemma NoHeadersYet()
    ensures WellFormedHeaders([])
  {}

  /** After the empty line that ends it, a header block's line parser is empty again. */
  lemma {:induction false} HeadersLine(acc: seq<Header>, s: string)
    ensures var f := FeedHeaders(HeadersP(Until(CRLF, ""), acc), s); f.done ==> f.h.line == Until(CRLF, "")
    decreases |s|
  {
    hide FeedUntil, FeedHeaders, Free, ParseHeader;
    var u := Until(CRLF, "");
    OneLine(HeadersP(u, acc), s);
    FreeOfEmpty(CRLF);
    UntilFound(u, s);
    var f := FeedUntil(u, s);
    if f.done && f.u.parsed != "" {
      HeadersLine(acc + [ParseHeader(f.u.parsed)], f.rest);
    }
  }
}
