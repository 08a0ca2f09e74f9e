/** What a sent packet becomes at the other end: its bytes, cut to the receive buffer, parsed
    (udp/lib/Transport.cpp, lines 166-211). A network that loses, duplicates and reorders delivers
    any packet ever sent, any number of times, at any moment. */
module TftpNetwork {
  import opened Common
  import opened Packets
  import opened TftpServer
  import NetAscii

  function Arrives(w: Wire, p: Packet): ParseResult {
    var bytes := ToBytes(w, p);
    ParsePacket(w, bytes[..Min(|bytes|, RECEIVE_BUFFER)])
  }

  /** The block numbers 0 to Limit(w) reach the other end unchanged. */
  function Limit(w: Wire): nat {
    match w
    case AsWritten => 15
    case MaskFixed => 127
    case Corrected => 65535
  }

  /** The first number past the limit is never read, whatever was sent. */
  lemma LimitIsSharp(w: Wire, id: U16)
    ensures id <= Limit(w) ==> OnWire(w, id) == id
    ensures OnWire(w, id) as int != Limit(w) + 1
    ensures id as int == Limit(w) + 1 ==> OnWire(w, id) == 0 || OnWire(w, id) > id
  {
    hide OnWire;
    match w
    case AsWritten =>
      OnWireAsWritten(id);
      NibblesBelow(id);
    case MaskFixed => OnWireMaskFixed(id);
    case Corrected => OnWireCorrected(id);
  }

  lemma NibblesBelow(v: U16)
    ensures v <= 15 ==> (v / 256 % 16) * 256 + v % 16 == v
    ensures (v / 256 % 16) * 256 + v % 16 != 16
    ensures v == 16 ==> (v / 256 % 16) * 256 + v % 16 == 0
  {
    var hi, lo := v / 256 % 16, v % 16;
    assert hi >= 1 ==> hi * 256 >= 256;
  }

  lemma DataArrives(w: Wire, id: U16, data: string)
    requires |data| <= BLOCK
    ensures Arrives(w, Data(id, data)) == Parsed(Data(OnWire(w, id), data))
  {
    var bytes := ToBytes(w, Data(id, data));
    assert |bytes| == 4 + |data|;
    assert bytes[..|bytes|] == bytes;
    DataOnWire(w, id, data);
  }

  /** The receive buffer is 520 bytes: of a longer block, only 516 bytes arrive. */
  lemma LongBlocksAreCut(w: Wire, id: U16, data: string)
    ensures Arrives(w, Data(id, data)) == Parsed(Data(OnWire(w, id), if |data| <= 516 then data else data[..516]))
  {
    var cut := if |data| <= 516 then data else data[..516];
    var bytes := ToBytes(w, Data(id, data));
    assert bytes[..Min(|bytes|, 520)] == ToBytes(w, Data(id, cut));
    DataOnWire(w, id, cut);
  }

  lemma AckArrives(w: Wire, id: U16)
    ensures Arrives(w, Ack(id)) == Parsed(Ack(OnWire(w, id)))
  {
    var bytes := ToBytes(w, Ack(id));
    assert |bytes| == 4;
    assert bytes[..|bytes|] == bytes;
    AckOnWire(w, id);
  }

  lemma {:induction false} EncodedLength(s: string)
    ensures |NetAscii.Encode(s)| <= 2 * |s|
  {
    if s != [] {
      EncodedLength(s[1..]);
    }
  }

  lemma ErrorArrives(w: Wire, code: U16)
    ensures var r := Arrives(w, MakeError(code, "")); r.Parsed? && r.packet.Error?
  {
    var p := MakeError(code, "");
    var bytes := ToBytes(w, p);
    EncodedLength(p.message);
    DefaultLength(code);
    assert |bytes| <= RECEIVE_BUFFER;
    assert bytes[..|bytes|] == bytes;
    ErrorOnWire(w, p);
  }

  lemma DefaultLength(code: U16)
    ensures |DefaultErrorMessage(code)| <= 40
  {}

  predicate RequestFits(w: Wire, p: Packet)
  {
    p.Request? && Clean(p.filename) && |ToBytes(w, p)| <= RECEIVE_BUFFER
  }

  lemma RequestArrives(w: Wire, p: Packet)
    requires RequestFits(w, p)
    ensures Arrives(w, p) == Parsed(p)
  {
    var bytes := ToBytes(w, p);
    assert bytes[..|bytes|] == bytes;
    RequestRoundTrip(w, p);
  }
}
