/** Chunked bodies (individual/lib/HTTP.cpp, lines 584-621; section 4.1 of RFC 7230). */
module HttpChunked {
  import opened Common
  import opened Numbers
  import opened Http
  import opened HttpScan
  import opened HttpMachine
  import opened HttpRoundTrip
  import HttpNormalForm

  /** A chunk with the line that announces its size: a hexadecimal number, then anything. */
  datatype Chunk = Chunk(sizeLine: string, data: string)

  ghost predicate ValidChunk(c: Chunk) {
    && Free(CRLF, c.sizeLine)
    && FromChars(c.sizeLine, 16) == Some(|c.data|)
    && 1 <= |c.data| <= INT_MAX - 2
  }

  ghost predicate ValidChunks(cs: seq<Chunk>) { forall i :: 0 <= i < |cs| ==> ValidChunk(cs[i]) }

  /** A line announcing the last chunk. */
  ghost predicate ZeroLine(z: string) { Free(CRLF, z) && FromChars(z, 16) == Some(0) }

  /** The usual way to write a chunk, and the last one. */
  lemma {:induction false} HexSizes(data: string)
    requires 1 <= |data| <= INT_MAX - 2
    ensures ValidChunk(Chunk(Hex(|data|), data))
    ensures ZeroLine("0")
  {
    FromCharsHex(|data|);
    FreeWithout(CRLF, Hex(|data|));
    FromCharsHex(0);
    assert Hex(0) == "0";
    FreeWithout(CRLF, "0");
  }

  function Encoded(cs: seq<Chunk>): string {
    if cs == [] then "" else cs[0].sizeLine + CRLF + cs[0].data + CRLF + Encoded(cs[1..])
  }

  /** The body that the chunks stand for. */
  function Plain(cs: seq<Chunk>): string {
    if cs == [] then "" else cs[0].data + Plain(cs[1..])
  }

  /** The body with every chunk still followed by its CRLF. */
  function WithCRLFs(cs: seq<Chunk>): string {
    if cs == [] then "" else cs[0].data + CRLF + WithCRLFs(cs[1..])
  }

  /** A parser that is about to read a chunk length. */
  predicate AtChunkLength(p: MessageP) {
    p.state.CHUNK_LENGTH? && p.chunkLength == Until(CRLF, "")
  }

  lemma {:induction false} LengthPhase(p: MessageP, s: string)
    requires p.state.CHUNK_LENGTH?
    ensures Feed(p, s) ==
            var f := FeedUntil(p.chunkLength, s);
            if f.done then Continue(AfterChunkLength(p.(chunkLength := f.u)), f.rest)
            else Fed(p.(chunkLength := f.u), Await, "")
    decreases |s|
  {
    hide UntilStep, AfterChunkLength;
    if s != "" && !UntilStep(p.chunkLength, s[0]).done {
      LengthPhase(Step(p, s[0]).p, s[1..]);
    }
  }

  lemma {:induction false} ChunkPhase(p: MessageP, s: string)
    requires p.state.CHUNK_DATA?
    ensures Feed(p, s) ==
            var f := FeedCounted(p.chunk, s);
            if f.done then
              Feed(p.(chunk := f.c, state := CHUNK_LENGTH,
                      chunkedData := p.chunkedData + ChunkText(p.trim, f.c.parsed)), f.rest)
            else Fed(p.(chunk := f.c), Await, "")
    decreases |s|
  {
    hide CountedStep, ChunkText;
    if s != "" && !CountedStep(p.chunk, s[0]).done {
      ChunkPhase(Step(p, s[0]).p, s[1..]);
    }
  }

  function AfterChunk(p: MessageP, c: Chunk): MessageP {
    p.(chunk := Counted(0, c.data + CRLF), chunkedData := p.chunkedData + if p.trim then c.data else c.data + CRLF)
  }

  lemma OneChunk(p: MessageP, c: Chunk, rest: string)
    requires AtChunkLength(p) && ValidChunk(c)
    ensures Feed(p, c.sizeLine + CRLF + c.data + CRLF + rest) == Feed(AfterChunk(p, c), rest)
  {
    hide Feed, FeedUntil, FeedCounted, FromChars;
    var text := c.data + CRLF;
    assert c.sizeLine + CRLF + c.data + CRLF + rest == c.sizeLine + CRLF + (text + rest);
    assert "" + c.sizeLine == c.sizeLine && "" + text == text;
    LengthPhase(p, c.sizeLine + CRLF + (text + rest));
    UntilFinds(CRLF, "", c.sizeLine, text + rest);
    var n := |c.data| + 2;
    var q := p.(state := CHUNK_DATA, chunk := Counted(n, ""));
    ChunkPhase(q, text + rest);
    CountedTakes(Counted(n, ""), text, rest);
    assert text[..|text| - 2] == c.data;
  }

  /** The last chunk ends the message at its own line: what follows it is not consumed. */
  lemma LastChunk(p: MessageP, z: string, rest: string)
    requires AtChunkLength(p) && ZeroLine(z)
    ensures Feed(p, z + CRLF + rest) == Fed(p.(chunkLength := Until(CRLF, z)), Parsed, rest)
  {
    hide Feed, FeedUntil, FromChars;
    assert "" + z == z;
    LengthPhase(p, z + CRLF + rest);
    UntilFinds(CRLF, "", z, rest);
  }

  /** Chunk sizes that are no sizes: an unreadable one, one that does not fit with the two bytes added,
      and one below -2 break the parser; -1 takes a single character, and with -2 no chunk ever ends. */
  lemma OtherSizes(p: MessageP, z: string, c: char, rest: string)
    requires AtChunkLength(p) && Free(CRLF, z)
    ensures match FromChars(z, 16)
      case None => Feed(p, z + CRLF + rest).result.Broken? && Feed(p, z + CRLF + rest).rest == rest
      case Some(n) =>
        && (n < -2 || n > INT_MAX - 2 ==> Feed(p, z + CRLF + rest).result.Broken? && Feed(p, z + CRLF + rest).rest == rest)
        && (n == -2 ==> Feed(p, z + CRLF + rest).result.Await?)
        && (n == -1 ==>
              Feed(p, z + CRLF + ([c] + rest)) ==
              Feed(p.(chunk := Counted(0, [c]), chunkedData := p.chunkedData + [c]), rest))
  {
    hide Feed, FeedUntil, FeedCounted, FromChars;
    assert "" + z == z;
    LengthPhase(p, z + CRLF + rest);
    UntilFinds(CRLF, "", z, rest);
    match FromChars(z, 16)
    case None =>
    case Some(n) =>
      if n == -2 {
        ChunkPhase(p.(state := CHUNK_DATA, chunk := Counted(0, "")), rest);
        NeverDone(Counted(0, ""), rest);
      } else if n == -1 {
        LengthPhase(p, z + CRLF + ([c] + rest));
        UntilFinds(CRLF, "", z, [c] + rest);
        ChunkPhase(p.(state := CHUNK_DATA, chunk := Counted(1, "")), [c] + rest);
        CountedTakes(Counted(1, ""), [c], rest);
        assert "" + [c] == [c];
      }
  }

  lemma {:induction false} NeverDone(k: Counted, s: string)
    requires k.n <= 0
    ensures !FeedCounted(k, s).done
    decreases |s|
  {
    if s != "" {
      NeverDone(CountedStep(k, s[0]).c, s[1..]);
    }
  }

  function Body(trim: bool, cs: seq<Chunk>): string { if trim then Plain(cs) else WithCRLFs(cs) }

  lemma {:induction false} AllChunks(p: MessageP, cs: seq<Chunk>, z: string, rest: string)
    requires AtChunkLength(p) && ValidChunks(cs) && ZeroLine(z)
    ensures var f := Feed(p, Encoded(cs) + (z + CRLF + rest));
      && f.result.Parsed? && f.rest == rest
      && f.p.chunkedData == p.chunkedData + Body(p.trim, cs)
    decreases |cs|
  {
    hide Feed, ValidChunk, ZeroLine;
    var tail := z + CRLF + rest;
    if cs == [] {
      LastChunk(p, z, rest);
      assert Encoded([]) + tail == tail;
      assert p.chunkedData + "" == p.chunkedData;
    } else {
      ChunksSplit(cs[0], Encoded(cs[1..]), tail);
      OneChunk(p, cs[0], Encoded(cs[1..]) + tail);
      var q := AfterChunk(p, cs[0]);
      AllChunks(q, cs[1..], z, rest);
      BodyStep(p.trim, p.chunkedData, cs);
    }
  }

  lemma ChunksSplit(c: Chunk, more: string, tail: string)
    ensures (c.sizeLine + CRLF + c.data + CRLF + more) + tail == c.sizeLine + CRLF + c.data + CRLF + (more + tail)
  {}

  lemma BodyStep(trim: bool, before: string, cs: seq<Chunk>)
    requires cs != []
    ensures before + (if trim then cs[0].data else cs[0].data + CRLF) + Body(trim, cs[1..]) == before + Body(trim, cs)
  {
    var head := if trim then cs[0].data else cs[0].data + CRLF;
    assert Body(trim, cs) == head + Body(trim, cs[1..]);
    assert before + head + Body(trim, cs[1..]) == before + (head + Body(trim, cs[1..]));
  }

  /** Chunk decoding is exact: a response with any list of non-empty chunks is taken up to the end of
      the line of its last chunk; as the code is written its body is every chunk followed by CRLF,
      and with the two bytes dropped it is the plain concatenation. */
  lemma ChunkedResponse(trim: bool, x: StartLine, hs: seq<Header>, v: string, cs: seq<Chunk>, z: string, rest: string)
    requires WellFormedLine(x) && WellFormedHeaders(hs)
    requires FirstValue(hs, "Transfer-Encoding") == Some(v) && HasRun(v, "chunked")
    requires ValidChunks(cs) && ZeroLine(z)
    ensures
      var f := Feed(Start(RESPONSE, trim),
                    SerializeLine(x) + CRLF + SerializeHeaders(hs) + CRLF + (Encoded(cs) + (z + CRLF + rest)));
      var body := Body(trim, cs);
      && f.result.Parsed? && f.rest == rest
      && ParsedMessage(f.p) ==
           Message(x, Removed(Updated(hs, Header(CONTENT_LENGTH, ToString(|body|))), TRANSFER_ENCODING), body)
  {
    hide Feed, WellFormedLine, WellFormedHeaders, IsChunked, HasRun, ValidChunks, ZeroLine, DataLength, Encoded;
    var stream := Encoded(cs) + (z + CRLF + rest);
    ChunkedIff(hs);
    HeadRoundTrip(RESPONSE, trim, x, hs, stream);
    var p := Headed(RESPONSE, trim, ParsedLine(x), hs).(state := CHUNK_LENGTH, chunked := true);
    AllChunks(p, cs, z, rest);
    HttpNormalForm.ChunksKeepHead(p, stream);
    assert "" + Body(trim, cs) == Body(trim, cs);
  }

  /** For every other Transfer-Encoding, or none, the body is as long as declared. */
  lemma PlainResponse(trim: bool, x: StartLine, hs: seq<Header>, data: string, rest: string)
    requires WellFormedLine(x) && WellFormedHeaders(hs) && DataLength(hs) == |data|
    requires match FirstValue(hs, "Transfer-Encoding") case None => true case Some(v) => !HasRun(v, "chunked")
    ensures
      var f := Feed(Start(RESPONSE, trim), SerializeLine(x) + CRLF + SerializeHeaders(hs) + CRLF + (data + rest));
      f.result.Parsed? && f.rest == rest && ParsedMessage(f.p) == Message(x, hs, data)
  {
    hide Feed, WellFormedLine, WellFormedHeaders, IsChunked, HasRun, DataLength;
    ChunkedIff(hs);
    ParseSerialize(RESPONSE, trim, Message(x, hs, data));
    var whole := Serialize(Message(x, hs, data));
    FeedInPieces(Start(RESPONSE, trim), whole, rest);
    assert whole + rest == SerializeLine(x) + CRLF + SerializeHeaders(hs) + CRLF + (data + rest);
    assert "" + rest == rest;
  }

  /** Removing two bytes after every chunk gives the intended body. */
  function DropCRLFs(body: string, cs: seq<Chunk>): string {
    if cs == [] || |body| < |cs[0].data| + 2 then body
    else body[..|cs[0].data|] + DropCRLFs(body[|cs[0].data| + 2..], cs[1..])
  }

  lemma {:induction false} WithoutCRLFs(cs: seq<Chunk>)
    ensures DropCRLFs(WithCRLFs(cs), cs) == Plain(cs)
    ensures |WithCRLFs(cs)| == |Plain(cs)| + 2 * |cs|
  {
    if cs != [] {
      WithoutCRLFs(cs[1..]);
      var body := WithCRLFs(cs);
      assert body[..|cs[0].data|] == cs[0].data;
      assert body[|cs[0].data| + 2..] == WithCRLFs(cs[1..]);
    }
  }

  /** As the code is written the decoded body is right exactly when it is empty. */
  lemma BodyRightIff(cs: seq<Chunk>)
    ensures Body(false, cs) == Plain(cs) <==> cs == []
  {
    WithoutCRLFs(cs);
  }
}
