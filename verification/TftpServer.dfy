/** The server side of a transfer (udp/lib/Server.cpp; sections 2, 4 and 6 of RFC 1350). */
module TftpServer {
  import opened Common
  import opened Packets
  import NetAscii

  const BLOCK := 512

  /** The server's files by name. */
  type Files = map<string, string>

  // ----- sending a file -----

  /** What a reading session sends from. An octet session reads the file itself and learns of its
      end from a short read; a netascii session encodes the file first and counts. */
  datatype Source = Source(mode: TransferMode, contents: string, cursor: nat, eof: bool)

  predicate ValidSource(s: Source) { s.cursor <= |s.contents| }

  predicate AtEof(s: Source) {
    match s.mode
    case OCTET => s.eof
    case NETASCII => s.cursor == |s.contents|
  }

  datatype BlockResult = BlockResult(source: Source, block: string)

  function NextBlock(s: Source): BlockResult
    requires ValidSource(s)
  {
    var end := Min(s.cursor + BLOCK, |s.contents|);
    BlockResult(s.(cursor := end, eof := s.eof || (s.mode.OCTET? && end - s.cursor < BLOCK)),
                s.contents[s.cursor..end])
  }

  datatype ReadSession = ReadSession(source: Source, blockID: U16)

  /** alive is the bool that Handle returns: false when the transmission is over. */
  datatype ReadReply = ReadReply(session: ReadSession, alive: bool, sent: Option<Packet>)

  function Payload(mode: TransferMode, file: string): string {
    if mode.OCTET? then file else NetAscii.Encode(file)
  }

  function FileOrEmpty(files: Files, name: string): string {
    if name in files then files[name] else ""
  }

  function OpenRead(mode: TransferMode, file: string): ReadSession {
    ReadSession(Source(mode, Payload(mode, file), 0, false), 0)
  }

  function ReadHandle(files: Files, s: ReadSession, p: Packet): (r: ReadReply)
    requires ValidSource(s.source)
    ensures ValidSource(r.session.source)
  {
    match p
    case Error(_, _) => ReadReply(s, false, None)
    case Data(_, _) => ReadReply(s, false, Some(MakeError(ILLEGAL_OPCODE, "")))
    case Request(_, filename, _) =>
      if filename !in files then ReadReply(s, false, Some(MakeError(FILE_NOT_FOUND, "")))
      else ReadAdvance(s, 0)
    case Ack(id) => ReadAdvance(s, id)
  }

  /** A packet acknowledging block id: anything but the last block sent is a duplicate. */
  function ReadAdvance(s: ReadSession, id: U16): (r: ReadReply)
    requires ValidSource(s.source)
    ensures ValidSource(r.session.source)
  {
    if s.blockID != id then ReadReply(s, true, None)
    else
      var next: U16 := (s.blockID + 1) % 65536;
      if AtEof(s.source) then ReadReply(s.(blockID := next), false, None)
      else
        var b := NextBlock(s.source);
        ReadReply(ReadSession(b.source, next), true, Some(Data(next, b.block)))
  }

  function ReadHandlePacket(files: Files, s: ReadSession, r: ParseResult): (reply: ReadReply)
    requires ValidSource(s.source)
    ensures ValidSource(reply.session.source)
  {
    match r
    case Malformed(_, message) => ReadReply(s, false, Some(MakeError(ILLEGAL_OPCODE, message)))
    case Parsed(p) => ReadHandle(files, s, p)
  }

  /** TReadingClientBase with its octet and netascii subclasses. */
  class ReadingClient {
    const mode: TransferMode
    const contents: string
    var cursor: nat
    var eof: bool
    var blockID: U16

    ghost predicate Valid()
      reads this
    {
      cursor <= |contents|
    }

    ghost function View(): ReadSession
      reads this
    {
      ReadSession(Source(mode, contents, cursor, eof), blockID)
    }

    constructor (mode: TransferMode, file: string)
      ensures Valid() && View() == OpenRead(mode, file)
    {
      this.mode := mode;
      if mode.OCTET? {
        this.contents := file;
      } else {
        var encoded := NetAscii.ToNetASCII(file);
        this.contents := encoded;
      }
      this.cursor := 0;
      this.eof := false;
      this.blockID := 0;
    }

    method Eof() returns (r: bool)
      ensures r == AtEof(View().source)
    {
      match mode
      case OCTET => r := eof;
      case NETASCII => r := cursor == |contents|;
    }

    method ReadBlock() returns (block: string)
      requires Valid()
      modifies this`cursor, this`eof
      ensures Valid() && BlockResult(View().source, block) == NextBlock(old(View()).source)
    {
      var end := Min(cursor + BLOCK, |contents|);
      block := contents[cursor..end];
      if mode.OCTET? && |block| < BLOCK {
        eof := true;
      }
      cursor := end;
    }

    method Handle(files: Files, packet: Packet) returns (alive: bool, sent: Option<Packet>)
      requires Valid()
      modifies this
      ensures Valid() && ReadReply(View(), alive, sent) == ReadHandle(files, old(View()), packet)
    {
      sent := None;
      var id: U16;
      match packet {
        case Error(_, _) =>
          return false, None;
        case Data(_, _) =>
          return false, Some(MakeError(ILLEGAL_OPCODE, ""));
        case Request(_, filename, _) =>
          id := 0;
          if filename !in files {
            return false, Some(MakeError(FILE_NOT_FOUND, ""));
          }
        case Ack(ackID) =>
          id := ackID;
      }
      if blockID != id {
        // Duplicate
        return true, None;
      }
      blockID := (blockID + 1) % 65536;
      var over := Eof();
      if over {
        return false, None;
      }
      var block := ReadBlock();
      return true, Some(Packet.Data(blockID, block));
    }

    /** IClient::HandlePacket: what cannot be parsed is answered with an error and ends the session. */
    method HandlePacket(files: Files, packet: ParseResult) returns (alive: bool, sent: Option<Packet>)
      requires Valid()
      modifies this
      ensures Valid() && ReadReply(View(), alive, sent) == ReadHandlePacket(files, old(View()), packet)
    {
      match packet
      case Malformed(_, message) =>
        return false, Some(MakeError(ILLEGAL_OPCODE, message));
      case Parsed(p) =>
        alive, sent := Handle(files, p);
    }
  }

  /** An error is taken without an answer, a packet of the wrong kind or one that cannot be parsed is
      answered with error 4; each ends the session. A request for a file that is not there is answered
      with error 1. */
  lemma ReadingEnds(files: Files, s: ReadSession, r: ParseResult)
    requires ValidSource(s.source)
    ensures var reply := ReadHandlePacket(files, s, r);
      match r
      case Malformed(_, message) => reply == ReadReply(s, false, Some(MakeError(4, message)))
      case Parsed(Error(_, _)) => reply == ReadReply(s, false, None)
      case Parsed(Data(_, _)) => reply == ReadReply(s, false, Some(MakeError(4, "")))
      case Parsed(Request(_, name, _)) => name !in files ==> reply == ReadReply(s, false, Some(MakeError(1, "")))
      case Parsed(Ack(id)) => id != s.blockID ==> reply == ReadReply(s, true, None)
  {
    hide ReadAdvance;
    if r.Parsed? && r.packet.Ack? && r.packet.blockID != s.blockID {
      IgnoresDuplicate(s, r.packet.blockID);
    }
  }

  lemma IgnoresDuplicate(s: ReadSession, id: U16)
    requires ValidSource(s.source) && id != s.blockID
    ensures ReadAdvance(s, id) == ReadReply(s, true, None)
  {}

  // ----- receiving a file -----

  datatype WriteSession = WriteSession(mode: TransferMode, received: string, blockID: U16)

  datatype WriteReply = WriteReply(session: WriteSession, alive: bool, sent: Option<Packet>)

  function OpenWrite(mode: TransferMode): WriteSession { WriteSession(mode, "", 0) }

  function WriteHandle(s: WriteSession, p: Packet): WriteReply {
    match p
    case Error(_, _) => WriteReply(s, false, None)
    case Ack(_) => WriteReply(s, false, Some(MakeError(ILLEGAL_OPCODE, "")))
    case Request(_, _, _) => WriteAdvance(s, 0, "")
    case Data(id, data) => WriteAdvance(s, id, data)
  }

  function WriteAdvance(s: WriteSession, id: U16, data: string): WriteReply {
    if s.blockID != id then WriteReply(s, true, None)
    else
      var next: U16 := (s.blockID + 1) % 65536;
      WriteReply(WriteSession(s.mode, s.received + data, next),
                 next == 1 || |data| == BLOCK,
                 Some(Ack(s.blockID)))
  }

  function WriteHandlePacket(s: WriteSession, r: ParseResult): WriteReply {
    match r
    case Malformed(_, message) => WriteReply(s, false, Some(MakeError(ILLEGAL_OPCODE, message)))
    case Parsed(p) => WriteHandle(s, p)
  }

  lemma WritingEnds(s: WriteSession, r: ParseResult)
    ensures var reply := WriteHandlePacket(s, r);
      match r
      case Malformed(_, message) => reply == WriteReply(s, false, Some(MakeError(4, message)))
      case Parsed(Error(_, _)) => reply == WriteReply(s, false, None)
      case Parsed(Ack(_)) => reply == WriteReply(s, false, Some(MakeError(4, "")))
      case Parsed(Data(id, _)) => id != s.blockID ==> reply == WriteReply(s, true, None)
      case Parsed(Request(_, _, _)) => s.blockID != 0 ==> reply == WriteReply(s, true, None)
  {
    hide DefaultErrorMessage;
  }

  /** The file on disk once the session object is gone: an octet session has written every block
      as it came, a netascii session decodes everything in its destructor. */
  function FileWritten(s: WriteSession): string {
    if s.mode.OCTET? then s.received else NetAscii.Decode(s.received)
  }

  /** TWritingClientBase with its octet and netascii subclasses. */
  class WritingClient {
    const mode: TransferMode
    var received: string
    var blockID: U16

    ghost function View(): WriteSession
      reads this
    {
      WriteSession(mode, received, blockID)
    }

    constructor (mode: TransferMode)
      ensures View() == OpenWrite(mode)
    {
      this.mode := mode;
      this.received := "";
      this.blockID := 0;
    }

    method Append(data: string)
      modifies this`received
      ensures received == old(received) + data
    {
      received := received + data;
    }

    method Handle(packet: Packet) returns (alive: bool, sent: Option<Packet>)
      modifies this
      ensures WriteReply(View(), alive, sent) == WriteHandle(old(View()), packet)
    {
      var id: U16, data := 0, "";
      match packet {
        case Error(_, _) =>
          return false, None;
        case Ack(_) =>
          return false, Some(MakeError(ILLEGAL_OPCODE, ""));
        case Request(_, _, _) =>
        case Data(dataID, block) =>
          id, data := dataID, block;
      }
      if blockID != id {
        // Duplicate
        return true, None;
      }
      Append(data);
      sent := Some(Packet.Ack(blockID));
      blockID := (blockID + 1) % 65536;
      alive := blockID == 1 || |data| == BLOCK;
    }

    /** IClient::HandlePacket. */
    method HandlePacket(packet: ParseResult) returns (alive: bool, sent: Option<Packet>)
      modifies this
      ensures WriteReply(View(), alive, sent) == WriteHandlePacket(old(View()), packet)
    {
      match packet
      case Malformed(_, message) =>
        return false, Some(MakeError(ILLEGAL_OPCODE, message));
      case Parsed(p) =>
        alive, sent := Handle(p);
    }

    method Finish() returns (file: string)
      ensures file == FileWritten(View())
    {
      if mode.OCTET? {
        file := received;
      } else {
        file := NetAscii.FromNetASCII(received);
      }
    }
  }
}
