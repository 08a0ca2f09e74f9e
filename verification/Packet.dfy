/** The TFTP packet codec (udp/lib/Packet.cpp, udp/lib/Packet.h; section 5 of RFC 1350). */
module Packets {
  import NetAscii

  type U16 = x: int | 0 <= x < 65536

  datatype TransferMode = NETASCII | OCTET

  datatype RequestType = READ | WRITE

  /** One constructor per packet class; an error code is the underlying number of its enum. */
  datatype Packet =
    | Request(kind: RequestType, filename: string, mode: TransferMode)
    | Data(blockID: U16, data: string)
    | Ack(blockID: U16)
    | Error(code: U16, message: string)

  datatype ParseResult = Parsed(packet: Packet) | Malformed(code: U16, message: string)

  const UNDEFINED: U16 := 0
  const FILE_NOT_FOUND: U16 := 1
  const ILLEGAL_OPCODE: U16 := 4
  const UNKNOWN_TRANSFER_ID: U16 := 5

  const RECEIVE_BUFFER := 520

  /** How 16-bit numbers meet the wire. AsWritten is the code: AppendIntegral masks every byte
      with 0xf and ReadIntegral reads a signed char. MaskFixed repairs the mask to 0xff only;
      Corrected also reads the char as unsigned. */
  datatype Wire = AsWritten | MaskFixed | Corrected

  function MaskModulus(w: Wire): nat { if w.AsWritten? then 16 else 256 }

  predicate SignedRead(w: Wire) { !w.Corrected? }

  // ----- 16-bit numbers -----

  function Pow256(k: nat): nat { if k == 0 then 1 else 256 * Pow256(k - 1) }

  /** The bitwise or of two non-negative integers. */
  function BitOr(a: nat, b: nat): nat
    decreases a + b
  {
    if a == 0 && b == 0 then 0
    else 2 * BitOr(a / 2, b / 2) + (if a % 2 == 1 || b % 2 == 1 then 1 else 0)
  }

  function ByteChar(b: int): char
    requires 0 <= b < 256
  {
    b as char
  }

  function Bytes16(w: Wire, v: U16): string {
    [ByteChar(v / 256 % MaskModulus(w)), ByteChar(v % MaskModulus(w))]
  }

  /** The conversion of a char to uint16_t: sign-extending when char is signed. */
  function Widened(w: Wire, c: char): U16 {
    var b := c as int % 256;
    if SignedRead(w) && b >= 128 then 0xFF00 + b else b
  }

  /** Two bytes as one number; a sign-extended low byte floods the high one. */
  function Combined(w: Wire, hi: char, lo: char): U16 {
    var l := Widened(w, lo);
    if l < 256 then (hi as int % 256) * 256 + l else l
  }

  datatype IntResult = IntRead(value: U16, rest: string) | TooShort

  function ReadU16(w: Wire, s: string): IntResult {
    if |s| < 2 then TooShort else IntRead(Combined(w, s[0], s[1]), s[2..])
  }

  method AppendIntegral(w: Wire, to: string, value: U16) returns (r: string)
    ensures r == to + Bytes16(w, value)
  {
    r := to;
    for i := 0 to 2
      invariant r == to + Bytes16(w, value)[..i]
    {
      assert Pow256(1) == 256 && Pow256(0) == 1;
      var byte := value / Pow256(2 - i - 1) % MaskModulus(w);
      r := r + [ByteChar(byte)];
    }
  }

  /** What the loop of ReadIntegral holds after i bytes. */
  function Accumulated(w: Wire, packet: string, i: nat): U16
    requires i <= 2 && i <= |packet|
  {
    if i == 0 then 0
    else if i == 1 then (packet[0] as int % 256) * 256
    else Combined(w, packet[0], packet[1])
  }

  method ReadIntegral(w: Wire, packet: string) returns (r: IntResult)
    ensures r == ReadU16(w, packet)
  {
    var ret: U16 := 0;
    var view := packet;
    for i := 0 to 2
      invariant i <= |packet| && view == packet[i..]
      invariant ret == Accumulated(w, packet, i)
    {
      hide BitOr, Combined, Widened;
      if view == "" {
        return TooShort;
      }
      OrNextByte(w, packet, i);
      ret := BitOr(ret, Widened(w, view[0]) * Pow256(2 - i - 1) % 65536);
      view := view[1..];
    }
    r := IntRead(ret, view);
  }

  lemma OrNextByte(w: Wire, packet: string, i: nat)
    requires i < 2 && i < |packet|
    ensures BitOr(Accumulated(w, packet, i), Widened(w, packet[i]) * Pow256(2 - i - 1) % 65536)
            == Accumulated(w, packet, i + 1)
  {
    assert Pow256(1) == 256 && Pow256(0) == 1;
    if i == 0 {
      ShiftedHigh(w, packet[0]);
      OrZero((packet[0] as int % 256) * 256);
    } else {
      OrLowByte(w, packet[0] as int % 256, packet[1]);
    }
  }

  lemma OrLowByte(w: Wire, h: nat, c: char)
    requires h < 256
    ensures var l := Widened(w, c); l % 65536 == l && BitOr(h * 256, l) == if l < 256 then h * 256 + l else l
  {
    hide BitOr;
    OrHighByte(h, Widened(w, c));
  }

  lemma ShiftedHigh(w: Wire, c: char)
    ensures Widened(w, c) * 256 % 65536 == (c as int % 256) * 256
  {}

  lemma {:induction false} OrZero(b: nat)
    ensures BitOr(0, b) == b
  {
    if b != 0 {
      OrZero(b / 2);
    }
  }

  /** Or-ing numbers that agree on their k low bits being separable. */
  lemma {:induction false} OrShifted(k: nat, a: nat, b: nat, c: nat)
    requires c < Pow2(k)
    ensures BitOr(a * Pow2(k), b * Pow2(k) + c) == BitOr(a, b) * Pow2(k) + c
    decreases k
  {
    if k > 0 {
      var p := Pow2(k - 1);
      var x := a * Pow2(k);
      var y := b * Pow2(k) + c;
      DoubleProducts(a, b, p);
      assert x == 2 * (a * p) && y == 2 * (b * p) + c;
      assert x / 2 == a * p && x % 2 == 0;
      assert y / 2 == b * p + c / 2 && y % 2 == c % 2;
      OrShifted(k - 1, a, b, c / 2);
      DoubleProducts(BitOr(a, b), 0, p);
    }
  }

  lemma DoubleProducts(a: nat, b: nat, p: nat)
    ensures a * (2 * p) == 2 * (a * p)
    ensures b * (2 * p) == 2 * (b * p)
  {}

  function Pow2(k: nat): nat { if k == 0 then 1 else 2 * Pow2(k - 1) }

  lemma {:induction false} OrAllOnes(k: nat, a: nat)
    requires a < Pow2(k)
    ensures BitOr(a, Pow2(k) - 1) == Pow2(k) - 1
  {
    if k > 0 {
      assert (Pow2(k) - 1) / 2 == Pow2(k - 1) - 1;
      OrAllOnes(k - 1, a / 2);
    } else {
      assert a == 0;
    }
  }

  lemma EightBits()
    ensures Pow2(8) == 256
  {
    assert Pow2(4) == 16;
    assert Pow2(6) == 64;
  }

  /** The two kinds of value that the low byte widens to, beside a high byte. */
  lemma OrHighByte(h: nat, l: U16)
    requires h < 256
    ensures l < 256 ==> BitOr(h * 256, l) == h * 256 + l
    ensures l >= 0xFF00 ==> BitOr(h * 256, l) == l
  {
    hide BitOr, Pow2;
    EightBits();
    if l < 256 {
      OrShifted(8, h, 0, l);
      OrZeroRight(h);
    } else if l >= 0xFF00 {
      OrShifted(8, h, 255, l - 0xFF00);
      OrAllOnes(8, h);
    }
  }

  lemma {:induction false} OrZeroRight(a: nat)
    ensures BitOr(a, 0) == a
  {
    if a != 0 {
      OrZeroRight(a / 2);
    }
  }

  /** The number a receiver reads when v was sent. */
  function OnWire(w: Wire, v: U16): U16 {
    Combined(w, Bytes16(w, v)[0], Bytes16(w, v)[1])
  }

  lemma ReadBytes16(w: Wire, v: U16, rest: string)
    ensures ReadU16(w, Bytes16(w, v) + rest) == IntRead(OnWire(w, v), rest)
  {
    assert (Bytes16(w, v) + rest)[2..] == rest;
  }

  lemma OnWireAsWritten(v: U16)
    ensures OnWire(AsWritten, v) == (v / 256 % 16) * 256 + v % 16
    ensures OnWire(AsWritten, v) == v <==> v / 256 < 16 && v % 256 < 16
  {
    hide Widened, Combined;
    var hi, lo := v / 256, v % 256;
    TwoBytes(v);
    NibblesCombined(v / 256 % 16, v % 16);
    LowNibbles(hi, lo);
  }

  lemma TwoBytes(v: U16)
    ensures v == v / 256 * 256 + v % 256 && v % 256 % 16 == v % 16 && v / 256 < 256
  {}

  lemma NibblesCombined(hi: nat, lo: nat)
    requires hi < 16 && lo < 16
    ensures Combined(AsWritten, ByteChar(hi), ByteChar(lo)) == hi * 256 + lo
  {}

  lemma OnWireMaskFixed(v: U16)
    ensures OnWire(MaskFixed, v) == if v % 256 < 128 then v else 0xFF00 + v % 256
    ensures OnWire(MaskFixed, v) == v <==> v % 256 < 128 || v / 256 == 255
  {}

  lemma OnWireCorrected(v: U16)
    ensures OnWire(Corrected, v) == v
  {}

  /** Exactly which 16-bit numbers survive. */
  predicate NumberSurvives(w: Wire, v: U16) {
    match w
    case AsWritten => v / 256 < 16 && v % 256 < 16
    case MaskFixed => v % 256 < 128 || v / 256 == 255
    case Corrected => true
  }

  lemma OnWireExact(w: Wire, v: U16)
    ensures OnWire(w, v) == v <==> NumberSurvives(w, v)
  {
    hide OnWire;
    match w
    case AsWritten => OnWireAsWritten(v);
    case MaskFixed => OnWireMaskFixed(v);
    case Corrected => OnWireCorrected(v);
  }

  lemma LowNibbles(hi: nat, lo: nat)
    requires hi < 256 && lo < 256
    ensures (hi % 16) * 256 + lo % 16 == hi * 256 + lo <==> hi < 16 && lo < 16
  {}

  // ----- zero-terminated fields -----

  function FirstZero(s: string): (k: nat)
    ensures k <= |s|
    ensures k < |s| ==> s[k] == '\0'
    ensures forall i :: 0 <= i < k ==> s[i] != '\0'
  {
    if s == [] || s[0] == '\0' then 0 else 1 + FirstZero(s[1..])
  }

  datatype FieldResult = Field(value: string, rest: string)

  function UntilZero(s: string): FieldResult {
    var k := FirstZero(s);
    Field(s[..k], if k < |s| then s[k + 1..] else "")
  }

  method ReadUntilZero(packet: string) returns (r: FieldResult)
    ensures r == UntilZero(packet)
  {
    var pos := 0;
    while pos < |packet| && packet[pos] != '\0'
      invariant pos <= |packet| && forall i :: 0 <= i < pos ==> packet[i] != '\0'
    {
      pos := pos + 1;
    }
    FirstZeroUnique(packet, pos);
    r := Field(packet[..pos], if pos < |packet| then packet[pos + 1..] else "");
  }

  lemma FirstZeroUnique(s: string, k: nat)
    requires k <= |s| && (k < |s| ==> s[k] == '\0')
    requires forall i :: 0 <= i < k ==> s[i] != '\0'
    ensures FirstZero(s) == k
  {}

  lemma FieldThenRest(a: string, b: string)
    requires '\0' !in a
    ensures UntilZero(a + ['\0'] + b) == Field(a, b)
  {
    var s := a + ['\0'] + b;
    assert s[..|a|] == a && s[|a| + 1..] == b;
    FirstZeroUnique(s, |a|);
  }

  // ----- packets to bytes -----

  function RequestCode(t: RequestType): U16 { if t.READ? then 1 else 2 }

  function ModeName(m: TransferMode): string { if m.NETASCII? then "netascii" else "octet" }

  function DefaultErrorMessage(code: U16): string {
    if code == 1 then "File not found"
    else if code == 2 then "Access violation"
    else if code == 3 then "Disk full or allocation exceeded"
    else if code == 4 then "Illegal TFTP operation"
    else if code == 5 then "Unknown transfer ID"
    else if code == 6 then "File already exists"
    else ""
  }

  /** The constructor of TErrorPacket: an empty message is replaced by the default one. */
  function MakeError(code: U16, message: string): Packet {
    Error(code, if message == "" then DefaultErrorMessage(code) else message)
  }

  /** Packets that the constructors can build. */
  predicate Constructed(p: Packet) {
    p.Error? ==> p == MakeError(p.code, p.message)
  }

  function ToBytes(w: Wire, p: Packet): string {
    match p
    case Request(kind, filename, mode) =>
      Bytes16(w, RequestCode(kind)) + (NetAscii.Encode(filename) + ['\0'] + (ModeName(mode) + ['\0']))
    case Data(id, data) => Bytes16(w, 3) + (Bytes16(w, id) + data)
    case Ack(id) => Bytes16(w, 4) + (Bytes16(w, id) + "")
    case Error(code, message) => Bytes16(w, 5) + (Bytes16(w, code) + (NetAscii.Encode(message) + ['\0'] + ""))
  }

  method RequestToBytes(w: Wire, p: Packet) returns (ret: string)
    requires p.Request?
    ensures ret == ToBytes(w, p)
  {
    hide NetAscii.Encode, Bytes16;
    ret := AppendIntegral(w, "", RequestCode(p.kind));
    ghost var opcode := ret;
    var name := NetAscii.ToNetASCII(p.filename);
    ret := ret + name;
    ret := ret + ['\0'];
    ret := ret + ModeName(p.mode);
    ret := ret + ['\0'];
    assert ret == opcode + (name + ['\0'] + (ModeName(p.mode) + ['\0']));
  }

  method DataToBytes(w: Wire, p: Packet) returns (ret: string)
    requires p.Data?
    ensures ret == ToBytes(w, p)
  {
    ret := AppendIntegral(w, "", 3);
    ret := AppendIntegral(w, ret, p.blockID);
    ret := ret + p.data;
  }

  method AckToBytes(w: Wire, p: Packet) returns (ret: string)
    requires p.Ack?
    ensures ret == ToBytes(w, p)
  {
    ret := AppendIntegral(w, "", 4);
    ret := AppendIntegral(w, ret, p.blockID);
  }

  method ErrorToBytes(w: Wire, p: Packet) returns (ret: string)
    requires p.Error?
    ensures ret == ToBytes(w, p)
  {
    hide NetAscii.Encode, Bytes16;
    ret := AppendIntegral(w, "", 5);
    ghost var opcode := ret;
    ret := AppendIntegral(w, ret, p.code);
    var text := NetAscii.ToNetASCII(p.message);
    ret := ret + text;
    ret := ret + ['\0'];
    assert ret == opcode + (Bytes16(w, p.code) + (text + ['\0'] + ""));
  }

  // ----- bytes to packets -----

  function LowerChar(c: char): char {
    if 'A' <= c <= 'Z' then (c as int + 32) as char else c
  }

  function ToLower(s: string): string
  {
    seq(|s|, i requires 0 <= i < |s| => LowerChar(s[i]))
  }

  function ParseMode(s: string): (m: seq<TransferMode>)
    ensures |m| <= 1
  {
    if ToLower(s) == "netascii" then [NETASCII]
    else if ToLower(s) == "octet" then [OCTET]
    else []
  }

  function ParseRequest(kind: RequestType, body: string): ParseResult {
    var name := UntilZero(body);
    var mode := ParseMode(UntilZero(name.rest).value);
    if mode == [] then Malformed(UNDEFINED, "Illegal mode")
    else Parsed(Request(kind, NetAscii.Decode(name.value), mode[0]))
  }

  function ParsePacket(w: Wire, s: string): ParseResult {
    match ReadU16(w, s)
    case TooShort => Malformed(UNDEFINED, "Packet is too short")
    case IntRead(opcode, body) =>
      if opcode == 1 then ParseRequest(READ, body)
      else if opcode == 2 then ParseRequest(WRITE, body)
      else if opcode == 3 || opcode == 4 || opcode == 5 then ParseNumbered(w, opcode, body)
      else Malformed(ILLEGAL_OPCODE, "")
  }

  /** The packets whose body opens with a number. */
  function ParseNumbered(w: Wire, opcode: U16, body: string): ParseResult {
    match ReadU16(w, body)
    case TooShort => Malformed(UNDEFINED, "Packet is too short")
    case IntRead(n, rest) =>
      if opcode == 3 then Parsed(Data(n, rest))
      else if opcode == 4 then Parsed(Ack(n))
      else Parsed(MakeError(n, NetAscii.Decode(UntilZero(rest).value)))
  }

  method Parse(w: Wire, packet: string) returns (r: ParseResult)
    ensures r == ParsePacket(w, packet)
  {
    var opcode := ReadIntegral(w, packet);
    if opcode.TooShort? {
      return Malformed(UNDEFINED, "Packet is too short");
    }
    if opcode.value == 1 || opcode.value == 2 {
      // The request parser reads the opcode again from the start of the packet.
      var kind := ReadIntegral(w, packet);
      var name := ReadUntilZero(kind.rest);
      var modeStr := ReadUntilZero(name.rest);
      var mode := ParseMode(modeStr.value);
      if mode == [] {
        return Malformed(UNDEFINED, "Illegal mode");
      }
      var filename := NetAscii.FromNetASCII(name.value);
      return Parsed(Request(if kind.value == 1 then READ else WRITE, filename, mode[0]));
    }
    if opcode.value != 3 && opcode.value != 4 && opcode.value != 5 {
      return Malformed(ILLEGAL_OPCODE, "");
    }
    var number := ReadIntegral(w, opcode.rest);
    if number.TooShort? {
      return Malformed(UNDEFINED, "Packet is too short");
    }
    if opcode.value == 3 {
      return Parsed(Data(number.value, number.rest));
    }
    if opcode.value == 4 {
      return Parsed(Ack(number.value));
    }
    var text := ReadUntilZero(number.rest);
    var message := NetAscii.FromNetASCII(text.value);
    return Parsed(MakeError(number.value, message));
  }

  /** The name of a mode in any mixture of cases, and nothing else, is that mode. */
  predicate InEitherCase(s: string, lower: string, upper: string) {
    |s| == |lower| == |upper| && forall i :: 0 <= i < |s| ==> s[i] == lower[i] || s[i] == upper[i]
  }

  lemma ModesInEitherCase(s: string)
    ensures ParseMode(s) == [OCTET] <==> InEitherCase(s, "octet", "OCTET")
    ensures ParseMode(s) == [NETASCII] <==> InEitherCase(s, "netascii", "NETASCII")
  {
    LowerIs(s, "octet", "OCTET");
    LowerIs(s, "netascii", "NETASCII");
  }

  lemma LowerIs(s: string, lower: string, upper: string)
    requires |lower| == |upper|
    requires forall i :: 0 <= i < |lower| ==> 'a' <= lower[i] <= 'z' && upper[i] as int == lower[i] as int - 32
    ensures ToLower(s) == lower <==> InEitherCase(s, lower, upper)
  {
    if ToLower(s) == lower {
      forall i | 0 <= i < |s| ensures s[i] == lower[i] || s[i] == upper[i] {
        assert LowerChar(s[i]) == lower[i];
      }
    }
    if InEitherCase(s, lower, upper) {
      forall i | 0 <= i < |s| ensures LowerChar(s[i]) == lower[i] {}
    }
  }

  /** The formats of section 5 of RFC 1350: a two-byte opcode, then strings that end in NUL or a two-byte
      number with the high byte first. With the numbers repaired these are the bytes of every packet. */
  lemma Formats(p: Packet)
    ensures var bytes := ToBytes(Corrected, p);
      && |bytes| >= 2 && bytes[0] == '\0'
      && bytes[1] as int == (match p
           case Request(READ, _, _) => 1
           case Request(WRITE, _, _) => 2
           case Data(_, _) => 3
           case Ack(_) => 4
           case Error(_, _) => 5)
      && match p
         case Request(_, filename, mode) =>
           bytes[2..] == NetAscii.Encode(filename) + "\0" + (if mode.OCTET? then "octet\0" else "netascii\0")
         case Data(id, data) => |bytes| >= 4 && bytes[2] as int * 256 + bytes[3] as int == id && bytes[4..] == data
         case Ack(id) => |bytes| == 4 && bytes[2] as int * 256 + bytes[3] as int == id
         case Error(code, message) =>
           && |bytes| >= 4 && bytes[2] as int * 256 + bytes[3] as int == code
           && bytes[4..] == NetAscii.Encode(message) + "\0"
  {
    hide NetAscii.Encode, Bytes16;
    match p
    case Request(kind, _, mode) =>
      HighByteFirst(RequestCode(kind));
      assert "octet" + ['\0'] == "octet\0" && "netascii" + ['\0'] == "netascii\0";
    case Data(id, _) =>
      HighByteFirst(3);
      HighByteFirst(id);
    case Ack(id) =>
      HighByteFirst(4);
      HighByteFirst(id);
    case Error(code, _) =>
      HighByteFirst(5);
      HighByteFirst(code);
  }

  lemma HighByteFirst(v: U16)
    ensures |Bytes16(Corrected, v)| == 2
    ensures Bytes16(Corrected, v)[0] as int * 256 + Bytes16(Corrected, v)[1] as int == v
    ensures v < 256 ==> Bytes16(Corrected, v)[0] == '\0' && Bytes16(Corrected, v)[1] as int == v
  {}

  /** What cannot be parsed, and how that is reported: 0 is "not defined", 4 "illegal operation". */
  lemma WhenMalformed(w: Wire, s: string)
    ensures |s| < 2 ==> ParsePacket(w, s) == Malformed(0, "Packet is too short")
    ensures |s| >= 2 && !(1 <= Combined(w, s[0], s[1]) <= 5) ==> ParsePacket(w, s) == Malformed(4, "")
    ensures 2 <= |s| < 4 && 3 <= Combined(w, s[0], s[1]) <= 5 ==> ParsePacket(w, s) == Malformed(0, "Packet is too short")
    ensures |s| >= 4 && 3 <= Combined(w, s[0], s[1]) <= 5 ==> ParsePacket(w, s).Parsed?
    ensures |s| >= 2 && 1 <= Combined(w, s[0], s[1]) <= 2 ==>
      var mode := UntilZero(UntilZero(s[2..]).rest).value;
      if InEitherCase(mode, "octet", "OCTET") || InEitherCase(mode, "netascii", "NETASCII")
      then ParsePacket(w, s).Parsed? else ParsePacket(w, s) == Malformed(0, "Illegal mode")
  {
    hide Combined, UntilZero, InEitherCase, NetAscii.Decode, ToLower;
    if |s| >= 2 {
      ModesInEitherCase(UntilZero(UntilZero(s[2..]).rest).value);
    }
  }

  /** What a packet that can be parsed is read as; bytes beyond its last field are ignored. */
  lemma ParsedAs(w: Wire, s: string)
    requires ParsePacket(w, s).Parsed?
    ensures |s| >= 2
    ensures match ParsePacket(w, s).packet
      case Request(kind, filename, mode) =>
        var name := UntilZero(s[2..]);
        && Combined(w, s[0], s[1]) == (if kind.READ? then 1 else 2)
        && filename == NetAscii.Decode(name.value) && ParseMode(UntilZero(name.rest).value) == [mode]
      case Data(id, data) =>
        Combined(w, s[0], s[1]) == 3 && |s| >= 4 && id == Combined(w, s[2], s[3]) && data == s[4..]
      case Ack(id) => Combined(w, s[0], s[1]) == 4 && |s| >= 4 && id == Combined(w, s[2], s[3])
      case Error(code, message) =>
        && Combined(w, s[0], s[1]) == 5 && |s| >= 4 && code == Combined(w, s[2], s[3])
        && message == MakeError(code, NetAscii.Decode(UntilZero(s[4..]).value)).message
  {
    hide Combined, UntilZero, NetAscii.Decode, ToLower;
    if |s| >= 4 {
      assert s[2..][2..] == s[4..];
    }
  }

  /** A field ends at its NUL, or at the end of the packet. */
  lemma FieldEnds(s: string)
    ensures '\0' !in s ==> UntilZero(s) == Field(s, "")
  {
    if '\0' !in s {
      FirstZeroUnique(s, |s|);
      assert s[..|s|] == s;
    }
  }

  /** The messages of the appendix of RFC 1350, for errors that bring none of their own. */
  lemma ErrorTexts(code: U16, message: string)
    ensures message != "" ==> MakeError(code, message) == Error(code, message)
    ensures MakeError(code, "") == Error(code,
      if code == 1 then "File not found"
      else if code == 2 then "Access violation"
      else if code == 3 then "Disk full or allocation exceeded"
      else if code == 4 then "Illegal TFTP operation"
      else if code == 5 then "Unknown transfer ID"
      else if code == 6 then "File already exists"
      else "")
  {}

  // ----- round trips -----

  predicate Clean(s: string) { '\0' !in s && '\r' !in s }

  /** No NUL, and a CR only as the last character. */
  predicate MessageSurvives(m: string) {
    m == "" || (Clean(m[..|m| - 1]) && m[|m| - 1] != '\0')
  }

  /** Exactly the packets that a receiver reads back unchanged. */
  predicate Wireable(w: Wire, p: Packet) {
    match p
    case Request(_, filename, _) => Clean(filename)
    case Data(id, _) => OnWire(w, id) == id
    case Ack(id) => OnWire(w, id) == id
    case Error(code, message) => OnWire(w, code) == code && MessageSurvives(message)
  }

  lemma {:induction false} EncodeKeepsClean(s: string)
    requires Clean(s)
    ensures '\0' !in NetAscii.Encode(s)
  {
    if s != [] {
      EncodeKeepsClean(s[1..]);
    }
  }

  lemma {:induction false} FirstSpecial(s: string) returns (j: nat)
    requires !Clean(s)
    ensures j < |s| && Clean(s[..j]) && (s[j] == '\0' || s[j] == '\r')
  {
    if s[0] == '\0' || s[0] == '\r' {
      j := 0;
    } else {
      assert s == [s[0]] + s[1..];
      var k := FirstSpecial(s[1..]);
      j := k + 1;
      assert s[..j] == [s[0]] + s[1..][..k];
    }
  }

  /** A field that is not clean is cut at position j of the original: before a NUL, after a CR. */
  predicate CutAt(s: string, got: string, j: int) {
    && 0 <= j < |s|
    && (s[j] == '\0' || s[j] == '\r')
    && (s[j] == '\0' ==> got == s[..j])
    && (s[j] == '\r' ==> got == s[..j + 1])
    && Clean(s[..j])
  }

  function EncodedField(s: string, tail: string): string {
    NetAscii.Encode(s) + ['\0'] + tail
  }

  lemma CleanField(s: string, tail: string)
    requires Clean(s)
    ensures UntilZero(EncodedField(s, tail)) == Field(NetAscii.Encode(s), tail)
    ensures NetAscii.Decode(NetAscii.Encode(s)) == s
  {
    EncodeKeepsClean(s);
    FieldThenRest(NetAscii.Encode(s), tail);
    NetAscii.DecodeEncode(s);
  }

  /** What is left of an unclean field once it is encoded, terminated and cut at its first NUL. */
  lemma UncleanField(s: string, tail: string) returns (j: nat)
    requires !Clean(s)
    ensures CutAt(s, NetAscii.Decode(UntilZero(EncodedField(s, tail)).value), j)
    ensures s[j] == '\r' && j + 1 == |s| ==> UntilZero(EncodedField(s, tail)).rest == ['\0'] + tail
  {
    j := FirstSpecial(s);
    if s[j] == '\0' {
      CutBeforeNul(s, tail, j);
    } else {
      CutAfterCR(s, tail, j);
      if j + 1 == |s| {
        assert EncodedField(s[j + 1..], tail) == ['\0'] + tail;
      }
    }
  }

  lemma CutBeforeNul(s: string, tail: string, j: nat)
    requires j < |s| && s[j] == '\0' && Clean(s[..j])
    ensures NetAscii.Decode(UntilZero(EncodedField(s, tail)).value) == s[..j]
  {
    hide NetAscii.Encode, NetAscii.Decode, UntilZero;
    var e := NetAscii.Encode(s[..j]);
    EncodeAround(s, j, tail);
    EncodeKeepsClean(s[..j]);
    FieldThenRest(e, EncodedField(s[j + 1..], tail));
    NetAscii.DecodeEncode(s[..j]);
  }

  lemma CutAfterCR(s: string, tail: string, j: nat)
    requires j < |s| && s[j] == '\r' && Clean(s[..j])
    ensures NetAscii.Decode(UntilZero(EncodedField(s, tail)).value) == s[..j + 1]
    ensures UntilZero(EncodedField(s, tail)).rest == EncodedField(s[j + 1..], tail)
  {
    hide NetAscii.Encode, NetAscii.Decode, UntilZero;
    var e := NetAscii.Encode(s[..j]) + ['\r'];
    EncodeAround(s, j, tail);
    EncodeKeepsClean(s[..j]);
    FieldThenRest(e, EncodedField(s[j + 1..], tail));
    DecodeLastCR(s[..j]);
    assert s[..j + 1] == s[..j] + ['\r'];
  }

  /** A field around its first special character, regrouped at the NUL that cuts it. */
  lemma EncodeAround(s: string, j: nat, tail: string)
    requires j < |s| && (s[j] == '\0' || s[j] == '\r')
    ensures
      var e := NetAscii.Encode(s[..j]);
      var rest := EncodedField(s[j + 1..], tail);
      EncodedField(s, tail) == (if s[j] == '\0' then e else e + ['\r']) + ['\0'] + rest
  {
    hide NetAscii.Encode;
    var a, c, b := s[..j], s[j], s[j + 1..];
    assert s == a + [c] + b;
    NetAscii.EncodeConcat(a + [c], b);
    NetAscii.EncodeSnoc(a, c);
    if c == '\0' {
      RegroupNul(NetAscii.Encode(a), NetAscii.Encode(b), tail);
    } else {
      RegroupCR(NetAscii.Encode(a), NetAscii.Encode(b), tail);
    }
  }

  lemma RegroupNul(a: string, b: string, tail: string)
    ensures (a + ['\0'] + b) + ['\0'] + tail == a + ['\0'] + (b + ['\0'] + tail)
  {}

  lemma RegroupCR(a: string, b: string, tail: string)
    ensures (a + "\r\0" + b) + ['\0'] + tail == (a + ['\r']) + ['\0'] + (b + ['\0'] + tail)
  {}

  lemma DecodeLastCR(g: string)
    ensures NetAscii.Decode(NetAscii.Encode(g) + ['\r']) == g + ['\r']
  {
    NetAscii.DecodeConcat(NetAscii.Encode(g), ['\r']);
    NetAscii.DecodeEncode(g);
  }

  lemma ModeNamesParse(m: TransferMode)
    ensures ParseMode(ModeName(m)) == [m]
  {
    var n := ModeName(m);
    assert forall i :: 0 <= i < |n| ==> LowerChar(n[i]) == n[i];
    assert ToLower(n) == n;
  }

  lemma RequestOpcode(w: Wire, p: Packet, body: string)
    requires p.Request? && body == EncodedField(p.filename, ModeName(p.mode) + ['\0'])
    ensures ParsePacket(w, ToBytes(w, p)) == ParseRequest(p.kind, body)
  {
    hide OnWire, Bytes16, NetAscii.Encode, ParseRequest, ReadU16;
    var code := RequestCode(p.kind);
    ReadBytes16(w, code, body);
    SmallCodes(w, code);
    assert ToBytes(w, p) == Bytes16(w, code) + body;
  }

  lemma SmallCodes(w: Wire, code: U16)
    requires code < 16
    ensures OnWire(w, code) == code
  {
    OnWireExact(w, code);
  }

  lemma RequestRoundTrip(w: Wire, p: Packet)
    requires p.Request?
    ensures ParsePacket(w, ToBytes(w, p)) == Parsed(p) <==> Clean(p.filename)
  {
    hide ToLower, ParsePacket, ToBytes, NetAscii.Encode, UntilZero;
    var modeField := ModeName(p.mode) + ['\0'];
    var body := EncodedField(p.filename, modeField);
    RequestOpcode(w, p, body);
    if Clean(p.filename) {
      CleanField(p.filename, modeField);
      assert modeField == ModeName(p.mode) + ['\0'] + "";
      ModeNameIsClean(p.mode);
      FieldThenRest(ModeName(p.mode), "");
      ModeNamesParse(p.mode);
    } else {
      var j := UncleanField(p.filename, modeField);
      if p.filename[j] == '\r' && j + 1 == |p.filename| {
        assert ['\0'] + modeField == "" + ['\0'] + modeField;
        FieldThenRest("", modeField);
        EmptyModeIsIllegal();
      }
    }
  }

  lemma ModeNameIsClean(m: TransferMode)
    ensures '\0' !in ModeName(m)
  {}

  lemma EmptyModeIsIllegal()
    ensures ParseMode("") == []
  {
    assert |ToLower("")| == 0;
  }

  lemma ErrorRoundTrip(w: Wire, p: Packet)
    requires p.Error? && Constructed(p)
    ensures ParsePacket(w, ToBytes(w, p)) == Parsed(p) <==>
            OnWire(w, p.code) == p.code && MessageSurvives(p.message)
  {
    hide ParsePacket, ToBytes, UntilZero, NetAscii.Encode, NetAscii.Decode, OnWire;
    var m := p.message;
    var got := NetAscii.Decode(UntilZero(EncodedField(m, "")).value);
    ErrorOnWire(w, p);
    if Clean(m) {
      CleanField(m, "");
    } else {
      var j := UncleanField(m, "");
      CutSurvives(m, got, j);
      DefaultStart(OnWire(w, p.code));
    }
  }

  lemma ErrorOnWire(w: Wire, p: Packet)
    requires p.Error?
    ensures ParsePacket(w, ToBytes(w, p)) ==
            Parsed(MakeError(OnWire(w, p.code), NetAscii.Decode(UntilZero(EncodedField(p.message, "")).value)))
  {
    hide OnWire, Bytes16, NetAscii.Encode, NetAscii.Decode, ReadU16, UntilZero;
    var text := EncodedField(p.message, "");
    ReadBytes16(w, 5, Bytes16(w, p.code) + text);
    ReadBytes16(w, p.code, text);
    SmallCodes(w, 5);
  }

  lemma CutSurvives(m: string, got: string, j: int)
    requires CutAt(m, got, j)
    ensures got == m <==> MessageSurvives(m)
    ensures got == "" ==> m[0] == '\0' && !MessageSurvives(m)
  {
    if j < |m| - 1 {
      assert m[j] == m[..|m| - 1][j];
      assert |got| < |m|;
    } else {
      assert m[..|m| - 1] == m[..j];
    }
  }

  lemma DefaultStart(code: U16)
    ensures DefaultErrorMessage(code) == "" || DefaultErrorMessage(code)[0] != '\0'
  {}

  /** A packet is read back unchanged exactly when it is wireable. */
  lemma RoundTripIff(w: Wire, p: Packet)
    requires Constructed(p)
    ensures ParsePacket(w, ToBytes(w, p)) == Parsed(p) <==> Wireable(w, p)
  {
    match p
    case Request(_, _, _) => RequestRoundTrip(w, p);
    case Data(id, data) => DataOnWire(w, id, data);
    case Ack(id) => AckOnWire(w, id);
    case Error(_, _) => ErrorRoundTrip(w, p);
  }

  lemma DataOnWire(w: Wire, id: U16, data: string)
    ensures ParsePacket(w, ToBytes(w, Data(id, data))) == Parsed(Data(OnWire(w, id), data))
  {
    hide OnWire, Bytes16, ReadU16;
    ReadBytes16(w, 3, Bytes16(w, id) + data);
    ReadBytes16(w, id, data);
    SmallCodes(w, 3);
  }

  lemma AckOnWire(w: Wire, id: U16)
    ensures ParsePacket(w, ToBytes(w, Ack(id))) == Parsed(Ack(OnWire(w, id)))
  {
    hide OnWire, Bytes16, ReadU16;
    ReadBytes16(w, 4, Bytes16(w, id) + "");
    ReadBytes16(w, id, "");
    SmallCodes(w, 4);
  }
}
