/** Everything a parser accepts is well-formed, so serializing it and parsing again changes nothing. */
module HttpNormalForm {
  import opened Common
  import opened Numbers
  import opened Http
  import opened HttpScan
  import opened HttpMachine
  import opened HttpRoundTrip

  // ----- declared lengths -----

  lemma {:induction false} DataLengthReplaced(hs: seq<Header>, h: Header, n: int)
    requires h.key == CONTENT_LENGTH && FromChars(h.value, 10) == Some(n)
    ensures |Replaced(hs, h)| == |hs|
    ensures DataLength(Replaced(hs, h)) == if FirstValue(hs, CONTENT_LENGTH).Some? then n else 0
    decreases |hs|
  {
    if hs != [] {
      var init, last := hs[..|hs| - 1], hs[|hs| - 1];
      assert hs == init + [last];
      DataLengthReplaced(init, h, n);
      ReplacedSnoc(hs, h, |hs| - 1);
      assert hs[..|hs|] == hs;
      FirstValueAppend(init, last, CONTENT_LENGTH);
      var r := if last.key == h.key then h else last;
      DataLengthSnoc(Replaced(init, h), r);
    }
  }

  lemma DataLengthSnoc(hs: seq<Header>, h: Header)
    ensures DataLength(hs + [h]) ==
            if h.key == CONTENT_LENGTH then (match FromChars(h.value, 10) case Some(n) => n case None => 0)
            else DataLength(hs)
  {
    assert (hs + [h])[..|hs|] == hs;
  }

  lemma DataLengthUpdated(hs: seq<Header>, h: Header, n: int)
    requires h.key == CONTENT_LENGTH && FromChars(h.value, 10) == Some(n)
    ensures DataLength(Updated(hs, h)) == n
  {
    DataLengthReplaced(hs, h, n);
    DataLengthSnoc(hs, h);
  }

  lemma {:induction false} DataLengthRemoved(hs: seq<Header>, key: string)
    requires key != CONTENT_LENGTH
    ensures DataLength(Removed(hs, key)) == DataLength(hs)
    decreases |hs|
  {
    if hs != [] {
      var init, last := hs[..|hs| - 1], hs[|hs| - 1];
      assert hs == init + [last];
      DataLengthRemoved(init, key);
      RemovedSnoc(init, last, key);
      DataLengthSnoc(init, last);
      if last.key != key {
        DataLengthSnoc(Removed(init, key), last);
      } else {
        assert Removed(init, key) + [] == Removed(init, key);
      }
    }
  }

  // ----- well-formedness is kept -----

  lemma {:induction false} ReplacedFrom(hs: seq<Header>, h: Header)
    ensures forall x :: x in Replaced(hs, h) ==> x == h || x in hs
  {
    if hs != [] {
      ReplacedFrom(hs[1..], h);
    }
  }

  lemma {:induction false} RemovedFrom(hs: seq<Header>, key: string)
    ensures forall x :: x in Removed(hs, key) ==> x in hs
  {
    if hs != [] {
      RemovedFrom(hs[1..], key);
    }
  }

  lemma UpdatedWellFormed(hs: seq<Header>, h: Header)
    requires WellFormedHeaders(hs) && WellFormedHeader(h)
    ensures WellFormedHeaders(Updated(hs, h))
  {
    hide WellFormedHeader;
    ReplacedFrom(hs, h);
    forall i | 0 <= i < |Updated(hs, h)| ensures WellFormedHeader(Updated(hs, h)[i]) {
      assert Updated(hs, h)[i] == h || Updated(hs, h)[i] in hs;
    }
  }

  lemma RemovedWellFormed(hs: seq<Header>, key: string)
    requires WellFormedHeaders(hs)
    ensures WellFormedHeaders(Removed(hs, key))
  {
    hide WellFormedHeader;
    RemovedFrom(hs, key);
    forall i | 0 <= i < |Removed(hs, key)| ensures WellFormedHeader(Removed(hs, key)[i]) {
      assert Removed(hs, key)[i] in hs;
    }
  }

  lemma LengthHeaderWellFormed(n: nat)
    ensures WellFormedHeader(Header(CONTENT_LENGTH, ToString(n)))
  {
    ToStringStart(n);
    FreeWithout(CRLF, ToString(n));
    FreeWithout(CRLF, CONTENT_LENGTH);
    FreeWithout(": ", CONTENT_LENGTH);
  }

  /** The headers of a decoded chunked message declare its length, and no transfer encoding. */
  lemma RewrittenHeaders(hs: seq<Header>, n: nat)
    requires WellFormedHeaders(hs)
    ensures var out := Removed(Updated(hs, Header(CONTENT_LENGTH, ToString(n))), TRANSFER_ENCODING);
      && WellFormedHeaders(out) && !IsChunked(out)
      && (n <= INT_MAX ==> DataLength(out) == n)
  {
    hide WellFormedHeaders, WellFormedHeader, DataLength;
    var h := Header(CONTENT_LENGTH, ToString(n));
    LengthHeaderWellFormed(n);
    UpdatedWellFormed(hs, h);
    RemovedWellFormed(Updated(hs, h), TRANSFER_ENCODING);
    FirstValueRemoved(Updated(hs, h), TRANSFER_ENCODING, TRANSFER_ENCODING);
    if n <= INT_MAX {
      FromCharsToString(n);
      DataLengthUpdated(hs, h, n);
      DataLengthRemoved(Updated(hs, h), TRANSFER_ENCODING);
    }
  }

  // ----- the bodies -----

  /** Reading chunks touches neither the line nor the headers. */
  lemma {:induction false} ChunksKeepHead(p: MessageP, s: string)
    requires p.state.CHUNK_LENGTH? || p.state.CHUNK_DATA?
    ensures var q := Feed(p, s).p;
      q.kind == p.kind && q.line == p.line && q.headers == p.headers && q.chunked == p.chunked
    decreases |s|
  {
    hide UntilStep, CountedStep, FromChars;
    if s != "" {
      ChunksKeepHead(Step(p, s[0]).p, s[1..]);
    }
  }

  /** What the parser hands out, apart from the length of the body: nothing in it contradicts being
      serialized, whatever the size. */
  ghost predicate Headlike(kind: Kind, m: Message) {
    WellFormedLine(m.line) && WellFormedHeaders(m.headers) && (kind.RESPONSE? ==> !IsChunked(m.headers))
  }

  lemma {:induction false} LengthIsInt(hs: seq<Header>)
    ensures DataLength(hs) <= INT_MAX
    decreases |hs|
  {
    hide Value, DigitRun;
    if hs != [] {
      LengthIsInt(hs[..|hs| - 1]);
    }
  }

  lemma BodyOutput(kind: Kind, trim: bool, l: LineP, hs: seq<Header>, rest: string)
    requires WellFormedLine(LineOf(l)) && WellFormedHeaders(hs)
    ensures var f := Continue(AfterHeaders(Headed(kind, trim, l, hs)), rest);
      f.result.Parsed? ==>
        && Headlike(kind, ParsedMessage(f.p))
        && (|ParsedMessage(f.p).data| <= INT_MAX ==> WellFormed(kind, ParsedMessage(f.p)))
  {
    hide Feed, WellFormedLine, WellFormedHeaders, FeedCounted, IsChunked, DataLength;
    var p := Headed(kind, trim, l, hs);
    var f := Continue(AfterHeaders(p), rest);
    var n := DataLength(hs);
    if kind.RESPONSE? && IsChunked(hs) {
      ChunksKeepHead(p.(state := CHUNK_LENGTH, chunked := true), rest);
      RewrittenHeaders(hs, |f.p.chunkedData|);
    } else if n > 0 {
      DataPhase(p.(state := DATA, data := Counted(n, "")), rest);
      CountedTook(Counted(n, ""), rest);
    }
  }

  /** Every message handed out, chunked or not, is well-formed when its body is an int long. */
  lemma OutputIsWellFormed(kind: Kind, trim: bool, s: string)
    ensures var f := Feed(Start(kind, trim), s);
      f.result.Parsed? ==>
        && Headlike(kind, ParsedMessage(f.p))
        && (|ParsedMessage(f.p).data| <= INT_MAX ==> WellFormed(kind, ParsedMessage(f.p)))
  {
    hide Feed, AfterHeaders, WellFormedLine, WellFormedHeaders, WellFormed, ParsedMessage, Headlike;
    var f := Feed(Start(kind, trim), s);
    if f.result.Parsed? {
      HeadOutput(kind, trim, s);
      var l, hs, rest :| WellFormedLine(LineOf(l)) && WellFormedHeaders(hs) &&
        f == Continue(AfterHeaders(Headed(kind, trim, l, hs)), rest);
      BodyOutput(kind, trim, l, hs, rest);
    }
  }

  /** Fed with the serialization, the parser reproduces the message and consumes everything. */
  predicate RoundTrips(kind: Kind, trim: bool, m: Message) {
    var f := Feed(Start(kind, trim), Serialize(m));
    f.result.Parsed? && f.rest == "" && ParsedMessage(f.p) == m
  }

  /** A message whose head is read back has the declared length. */
  lemma LengthReadBack(kind: Kind, trim: bool, m: Message)
    requires Headlike(kind, m) && RoundTrips(kind, trim, m)
    ensures DataLength(m.headers) == |m.data|
  {
    hide Feed, WellFormedLine, WellFormedHeaders, FeedCounted, IsChunked, DataLength;
    HeadRoundTrip(kind, trim, m.line, m.headers, m.data);
    var n := DataLength(m.headers);
    if n > 0 {
      DataPhase(Headed(kind, trim, ParsedLine(m.line), m.headers).(state := DATA, data := Counted(n, "")), m.data);
      CountedTook(Counted(n, ""), m.data);
    }
  }

  /** The exact domain of the round trip. */
  lemma RoundTripIff(kind: Kind, trim: bool, m: Message)
    ensures RoundTrips(kind, trim, m) <==> WellFormed(kind, m)
  {
    if RoundTrips(kind, trim, m) {
      OutputIsWellFormed(kind, trim, Serialize(m));
      LengthReadBack(kind, trim, m);
    }
    if WellFormed(kind, m) {
      ParseSerialize(kind, trim, m);
    }
  }

  /** Parser output is a normal form: for every byte string that is accepted, serializing the parsed
      object and parsing again gives the same object and consumes everything, exactly when the body
      is at most an int long. */
  lemma NormalForm(kind: Kind, trim: bool, s: string)
    ensures var f := Feed(Start(kind, trim), s);
      f.result.Parsed? ==>
        (RoundTrips(kind, trim, ParsedMessage(f.p)) <==> |ParsedMessage(f.p).data| <= INT_MAX)
  {
    hide Feed, ParsedMessage, Serialize, RoundTrips, Headlike;
    var f := Feed(Start(kind, trim), s);
    if f.result.Parsed? {
      OutputIsWellFormed(kind, trim, s);
      RoundTripIff(kind, trim, ParsedMessage(f.p));
      LengthIsInt(ParsedMessage(f.p).headers);
    }
  }
}
