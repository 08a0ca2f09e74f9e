# Verified models of three network programs

The repository holds three programs without shared code: a TFTP client and server (`udp/`), a caching
HTTP proxy (`individual/`) and a chat (`tcp/`). This project models the protocol and parser core of
each one in Dafny 4.11 and proves what it does. `dafny verify dfyconfig.toml` checks everything.

Objects that the programs update in place are classes with the same fields, loops are methods with
invariants, and each of these methods is tied by its `ensures` to a specification function; lemmas
about those functions state the properties below.

## TFTP

`Packets` and `NetAscii` are the codec, `TftpServer` and `TftpClient` the two ends, `TftpFraming` the
cutting of a file into blocks. `TftpNetwork`, `TftpDownload` and `TftpUpload` put the ends together
(`TftpDownloadProgress` and `TftpUploadProgress` are about how runs can go on): a run is any sequence of steps, in which every packet ever sent may arrive any number of times, in
any order or never, and either end may time out at any moment. Every packet crosses the network as
its bytes, cut to the 520-byte receive buffer and parsed again.

The parameter `Wire` says how a 16-bit number is written and read. `AsWritten` is the code, which
masks each byte with `0xf` and reads bytes as signed characters; `MaskFixed` repairs the mask only;
`Corrected` repairs both, and is what section 5 of RFC 1350 asks for. All results hold for all three:

- The block numbers 0 to `Limit` survive the wire: 15 as written, 127 with the mask repaired, 65535
  with both. A download completes in some run exactly when the file exists, its last block is short
  and it has at most `Limit` blocks; as written, an octet download therefore never completes from 7680
  bytes on. It never delivers wrong data: leaving the loop means the output is the file.
- A netascii download of a file whose encoding is a multiple of 512 characters long, including 0, has
  no short last block and never completes, against section 6 of RFC 1350.
- An upload is safe (once `Write` returns, the server's file is the input) exactly when the counters
  cannot wrap around: always as written, because it stalls, and up to 65535 blocks when the numbers
  are repaired. Beyond that two 16-bit counters and the exit `BlockID_ == 1 ||` lose or repeat data;
  `WrapAroundLosesData` gives the run for every such input.

- There is no deadlock: from every reachable state in which the client still waits, within the limit,
  some continuation completes the transfer exactly as long as the session is alive or has no block
  left to send or take; before a download has locked onto a session, exactly as long as there is such
  a session or a port that has had none. A port is taken to be bound once in a run.

## HTTP

`Http` has messages, the header list with its index, and directives. `HttpScan` has the delimiter
parser and the counted parser, `HttpMachine` the message parsers as state machines (`kind` tells
requests from responses), `HttpParser` the same parsers as objects. `HttpRoundTrip`, `HttpNormalForm`
and `HttpChunked` are about whole byte streams, `Compress`, `Database` and `Session` about what the
proxy does with the messages.

A third result, `Broken`, stands for what the code does not guard against: reserving a negative
size (an exception) and a chunk length that cannot be read or added to. The parameter `trim` is
false for the code as it is written, which leaves the CRLF after each chunk in the body, against
section 4.1 of RFC 7230; with true the two bytes are dropped, and the theorem gives the plain body.

## Chat

`ChatSocket` has sockets and the buffered wrapper, `ChatMessage` the message format, `ChatPoll` the index
loop over the poll list and `ChatServer` the server with its three parallel vectors. Every byte that a peer will ever send is the socket's
`incoming`; the socket hands it out in pieces of any size.

`ReadN` does not notice the end of the stream. `ReadNEndsIff` says exactly when its loop ends: if and
only if the bytes wanted will come, and then for every way the socket delivers them; otherwise no
sequence of reads ends it and it goes on for any number of turns. The method therefore returns
`ended`, false where the next turn would find the loop as it was. A peer that closes anywhere inside a
message, from its first byte on, leads to that loop (`ClosedInside`), and the server never comes back
(`ChatServer.ClosingPeer`). A second departure is what the code does not guard against, a length below
1 or a number that is not there: `Unguarded`.

The server's `Run` takes any number of rounds with any readiness, any new connections and any bytes on
them. The invariants hold over all runs, also in the state in which a server is stuck, of which
`stuckOn` names the client.

A client that leaves lets the last entry of the poll list take its slot, which the index loop has
passed; so a ready client can be passed over. `Pass` says exactly when, from what the clients are about
to say as the pass begins: entry j of the list is reached if and only if j plus the number of ready
clients before it that have closed is less than the length of the list, and no ready client before it
sends what the server does not come back from. The ready entries that are reached are handled, the
others are not. `OneIsPassedOver` is a run of `Pass`.

## Model

| member | source | states |
|---|---|---|
| NetAscii.ToNetASCII | udp/lib/Packet.cpp:10-23 | the loop computes the character-by-character encoding |
| NetAscii.FromNetASCII | udp/lib/Packet.cpp:25-42 | the index loop, which skips inside pairs and treats the last character apart, computes the decoding |
| NetAscii.EncodedAs | udp/lib/Packet.cpp:13-20 | anywhere in a text LF is sent as CR LF, CR as CR NUL, everything else as it is |
| NetAscii.DecodeEncode | udp/lib/Packet.cpp:10-42 | netascii is lossless for every text |
| NetAscii.EncodeDecodeIffCanonical | udp/lib/Packet.cpp:10-42 | decoding loses nothing exactly when every CR is followed by LF or NUL and every LF preceded by CR |
| NetAscii.EncodeIsCanonical | udp/lib/Packet.cpp:10-23 | the encoder produces only such texts |
| NetAscii.DecodeSplitIff | udp/lib/Packet.cpp:25-42 | decoding in two parts equals decoding the whole exactly when the cut does not fall inside a pair |
| Packets.AppendIntegral | udp/lib/Packet.cpp:46-53 | the shift-and-mask loop appends the two masked bytes |
| Packets.ReadIntegral | udp/lib/Packet.cpp:297-309 | the or-and-shift loop with sign extension reads the combined number, or reports a short packet |
| Packets.OnWireExact | udp/lib/Packet.cpp:46-53 | exactly which 16-bit numbers survive writing and reading, for each variant of the codec |
| Packets.OnWireAsWritten | udp/lib/Packet.cpp:46-53 | as written only the low four bits of each byte arrive |
| Packets.OnWireMaskFixed | udp/lib/Packet.cpp:297-309 | with the mask repaired a low byte from 128 on floods the high byte |
| Packets.OrHighByte | udp/lib/Packet.cpp:305 | the bitwise or of a high byte with a widened low byte |
| Packets.ReadUntilZero | udp/lib/Packet.cpp:311-316 | the field before the first NUL and what follows it; the whole rest when there is none |
| Packets.RequestToBytes | udp/lib/Packet.cpp:83-99 | appending step by step gives the wire image of a request |
| Packets.DataToBytes | udp/lib/Packet.cpp:123-137 | the same for a data packet |
| Packets.AckToBytes | udp/lib/Packet.cpp:155-166 | the same for an acknowledgement |
| Packets.ErrorToBytes | udp/lib/Packet.cpp:208-223 | the same for an error packet |
| Packets.Parse | udp/lib/Packet.cpp:328-389 | the parser with all its error cases computes the specification |
| Packets.Formats | udp/lib/Packet.cpp:83-223 | opcodes, big-endian numbers, NUL-terminated strings and mode names of every packet, with the numbers repaired |
| Packets.WhenMalformed | udp/lib/Packet.cpp:297-389 | exactly which bytes are no packet, and with which code and message that is reported |
| Packets.ParsedAs | udp/lib/Packet.cpp:328-389 | what every field of a parsed packet is in terms of the bytes; bytes after the last field are ignored |
| Packets.ModesInEitherCase | udp/lib/Packet.cpp:318-342 | a mode is recognised exactly when it is "octet" or "netascii" in any mixture of cases |
| Packets.ErrorTexts | udp/lib/Packet.cpp:178-206 | an error without a message of its own gets that of the appendix of RFC 1350 |
| Packets.RequestRoundTrip | udp/lib/Packet.cpp:328-349 | a request survives exactly when its file name has no NUL and no CR |
| Packets.ErrorRoundTrip | udp/lib/Packet.cpp:360-367 | an error survives exactly when its code does and its message has no NUL and a CR only at its end |
| Packets.RoundTripIff | udp/lib/Packet.cpp:371-389 | for every constructible packet, parsing its bytes gives it back exactly when it is wireable |
| TftpServer.ReadingClient.constructor | udp/lib/Server.cpp:142-148 | a reading session starts before its first block, over the file or its encoding |
| TftpServer.ReadingClient.Handle | udp/lib/Server.cpp:97-130 | one packet moves the session as the specification says, errors and duplicates included |
| TftpServer.ReadingClient.HandlePacket | udp/lib/Server.cpp:31-43 | what cannot be parsed is answered with an error and ends the session; the rest goes to Handle |
| TftpServer.ReadingEnds | udp/lib/Server.cpp:31-43 | what each packet but a matching acknowledgement does to a reading session: errors, packets of the wrong kind and unparsable ones end it, duplicates are ignored |
| TftpServer.ReadingClient.ReadBlock | udp/lib/Server.cpp:157-195 | the next block, the moved cursor and the end-of-file flag |
| TftpServer.WritingClient.Handle | udp/lib/Server.cpp:236-266 | one packet moves a writing session as the specification says, with the exit on block number 1 |
| TftpServer.WritingClient.HandlePacket | udp/lib/Server.cpp:31-43 | the same for a writing session |
| TftpServer.WritingEnds | udp/lib/Server.cpp:236-256 | the same for a writing session |
| TftpServer.WritingClient.Append | udp/lib/Server.cpp:288-317 | a block is added at the end of what has been received |
| TftpServer.WritingClient.Finish | udp/lib/Server.cpp:308-312 | the file that is left: octet blocks as they came, netascii decoded as a whole |
| TftpFraming.Framing | udp/lib/Server.cpp:153-195 | the blocks joined are the file, or its netascii encoding; all but the last have 512 characters, the last is shorter exactly for octet mode or a size that is no multiple of 512 |
| TftpClient.Read | udp/lib/Client.cpp:72-135 | the loop on any arrivals computes the client's state machine: port lock, block counter, output and all packets sent |
| TftpClient.ReadingStops | udp/lib/Client.cpp:96-126 | what ends a download early and what does not disturb it, with every answer |
| TftpClient.ReadCounterBound | udp/lib/Client.cpp:92-133 | whatever arrives, the unbounded counter stops at 65536, which no 16-bit number matches |
| TftpClient.AwaitFirstAck | udp/lib/Client.cpp:155-182 | the wait for the first acknowledgement fixes the transfer identifier or fails |
| TftpClient.AwaitAck | udp/lib/Client.cpp:200-225 | the inner loop waits through duplicates for the current number, or ends with the failure the specification gives |
| TftpClient.Write | udp/lib/Client.cpp:137-229 | both nested loops on any arrivals compute the writing client's state machine |
| TftpClient.WritingStops | udp/lib/Client.cpp:155-224 | what ends an upload early, a first acknowledgement other than 0 included, and what does not disturb it, with every answer |
| TftpNetwork.LimitIsSharp | udp/lib/Packet.cpp:46-53 | numbers up to the limit arrive unchanged, and nothing ever arrives as the first number past it |
| TftpNetwork.DataArrives | udp/lib/Transport.cpp:166-211 | a data packet fits the receive buffer and arrives with its data and the number that the wire leaves |
| TftpNetwork.LongBlocksAreCut | udp/lib/Transport.cpp:189-193 | of any block at most 516 bytes arrive |
| TftpDownload.InvHolds | udp/lib/Client.cpp:92-134 | the invariant of the two ends with unbounded block numbers, over every run and any number of sessions |
| TftpDownload.DownloadSafety | udp/lib/Client.cpp:92-134 | in every run the output is a whole-block prefix of the file, or of its encoding; leaving the loop means it is the file, or in netascii mode a canonical text that decodes to the file |
| TftpDownload.OneSessionServed | udp/lib/Client.cpp:104-112 | with duplicated requests, only the session the client is locked onto is ever acknowledged, and the others send one block |
| TftpDownload.NoAmplification | udp/lib/Server.cpp:114-129 | no session sends a block twice, and the client acknowledges each block it has written once |
| TftpDownload.InOrderCompletes | udp/lib/Server.cpp:97-130 | with in-order delivery both ends finish after exactly one exchange per block |
| TftpDownload.DownloadCompletesIff | udp/lib/Client.cpp:92-134 | exactly which downloads can complete at all |
| TftpDownload.OctetDownloadLimit | udp/lib/Packet.cpp:50 | the same in bytes for octet mode: fewer than 512 times the limit |
| TftpDownload.NetAsciiDownloadLimit | udp/lib/Server.cpp:186-195 | and for netascii mode: the encoded size is no multiple of 512 and at most 512 times the limit |
| TftpDownloadProgress.LockedCompletesIff | udp/lib/Client.cpp:94-134 | from every reachable state with the client locked and waiting, some continuation completes exactly when its session is alive or has sent all blocks |
| TftpDownloadProgress.UnlockedCompletesIff | udp/lib/Client.cpp:94-112 | before that, exactly when some port has had no session or has one that is alive or has sent all blocks |
| TftpUpload.InvHolds | udp/lib/Server.cpp:236-266 | without wrap-around the server expects the client's current block or the next one, over every run |
| TftpUpload.UploadSafety | udp/lib/Client.cpp:185-228 | without wrap-around the session has received a whole-block prefix of the input; once Write returns the file it leaves is the input, or in netascii mode what the input decodes to |
| TftpUpload.NetAsciiUpload | udp/lib/Server.cpp:308-317 | a netascii upload recovers the file wherever the blocks were cut |
| TftpUpload.InOrderRun | udp/lib/Client.cpp:185-228 | the state after k in-order exchanges, up to the limit |
| TftpUpload.WrapAroundLosesData | udp/lib/Server.cpp:253-265 | for every input of more than 65535 blocks a run in which Write returns and the server's file is not the input |
| TftpUpload.UploadSafeIff | udp/lib/Client.cpp:185-228 | the file left by a completed octet upload is the input in all runs exactly when the input is shorter than 65535 blocks of 512 bytes or the numbers are not repaired |
| TftpUpload.UploadCompletesIff | udp/lib/Client.cpp:185-228 | exactly which uploads can complete at all |
| TftpUploadProgress.CompletesIff | udp/lib/Client.cpp:187-228 | from every reachable state with the client waiting, within the limit, some continuation completes exactly when the session is not yet open, alive, or has taken all blocks |
| Numbers.FromCharsToString | individual/lib/HTTP.cpp:457-464 | printing and from_chars are inverse on every int |
| Numbers.FromCharsOutOfRange | individual/lib/HTTP.cpp:457-464 | a larger number is an error |
| Numbers.FromCharsIgnoresRest | individual/lib/HTTP.cpp:588-593 | what follows the digits does not matter |
| Numbers.HexDigitValues | individual/lib/HTTP.cpp:588-593 | the hexadecimal digits are those of either case and nothing else |
| Numbers.FromStreamToString | tcp/lib/Message.cpp:41-47 | printing and reading from a stream are inverse within the type's range |
| Numbers.FromStreamNearest | tcp/lib/Message.cpp:41-47 | a number beyond the range of the type is read as the nearest bound |
| Numbers.FromStreamForms | tcp/lib/Message.cpp:41-47 | leading blanks and a plus sign are skipped, text without digits reads as 0, an empty one as nothing |
| Http.HttpHeaders.constructor | individual/lib/HTTP.cpp:98-107 | the index starts with each key's first value |
| Http.HttpHeaders.Append | individual/lib/HTTP.cpp:121-127 | the header comes last and index and list still agree |
| Http.HttpHeaders.Update | individual/lib/HTTP.cpp:129-141 | every header of that key is replaced, or one is appended, and index and list still agree |
| Http.HttpHeaders.Remove | individual/lib/HTTP.cpp:143-155 | all headers of that key go, in the list and in the index |
| Http.HttpHeaders.Find | individual/lib/HTTP.cpp:157-165 | a look-up in the index is a search for the first header in the list |
| Http.IndexAgrees | individual/lib/HTTP.cpp:121-155 | after any operations the index kept on its own still holds each key's first value |
| Http.RemovedAt | individual/lib/HTTP.cpp:145-154 | removing a key takes out each of its headers, in place |
| Http.RemovedOthers | individual/lib/HTTP.cpp:145-154 | and nothing else |
| Http.UpdatedAt | individual/lib/HTTP.cpp:129-141 | updating a key changes each of its headers in place, or adds one at the end, and nothing else |
| Http.FirstValueIs | individual/lib/HTTP.cpp:98-107 | the value found for a key is that of its first header |
| Http.SplitValue | individual/lib/HTTP.cpp:77-92 | the index loop computes the maximal runs free of blanks and commas |
| Http.DirectivesAreRuns | individual/lib/HTTP.cpp:77-92 | a word is a directive exactly when it is a maximal run, by position, of characters other than blanks and commas |
| HttpScan.CheckEndsWith | individual/lib/HTTP.cpp:244-254 | the backward comparison decides whether the delimiter stands at the end |
| HttpScan.UntilParser.Consume | individual/lib/HTTP.cpp:262-269 | one character moves the delimiter parser as the specification says |
| HttpScan.UntilFinds | individual/lib/HTTP.cpp:256-282 | a delimiter that is not in the text is found exactly where it was put |
| HttpScan.UntilFound | individual/lib/HTTP.cpp:256-282 | conversely, what was cut off is the text before the first delimiter and does not contain it |
| HttpScan.NParser.Consume | individual/lib/HTTP.cpp:299-306 | one character moves the counted parser as the specification says |
| HttpScan.CountedTakes | individual/lib/HTTP.cpp:284-315 | exactly n characters are taken |
| HttpMachine.ReadHeader | individual/lib/HTTP.cpp:413-424 | a header line is split at its first ": "; without one the whole line is the key |
| HttpMachine.HeaderLine | individual/lib/HTTP.cpp:413-424 | what a line with, and one without, the separator is read as |
| HttpMachine.ComputeDataLength | individual/lib/HTTP.cpp:452-468 | the last Content-Length counts, and 0 when it is no int |
| HttpMachine.LastLengthCounts | individual/lib/HTTP.cpp:454-465 | the last Content-Length decides wherever it stands, and is 0 when it is no int |
| HttpMachine.ChunkedIff | individual/lib/HTTP.cpp:542-549 | a message is chunked exactly when the first Transfer-Encoding has the maximal run "chunked" |
| HttpMachine.FeedInPieces | individual/lib/Session.cpp:36-57 | it does not matter how the stream is cut into buffers |
| HttpParser.LineParser.Consume | individual/lib/HTTP.cpp:326-389 | the start-line parsers follow their state machine |
| HttpParser.HeadersParser.Consume | individual/lib/HTTP.cpp:432-441 | the header parser follows its state machine |
| HttpParser.MessageParser.Consume | individual/lib/HTTP.cpp:478-608 | the request and response parsers follow their state machine |
| HttpParser.MessageParser.StartBody | individual/lib/HTTP.cpp:566-579 | the headers decide how the body ends: empty, counted or chunked |
| HttpParser.MessageParser.StartChunk | individual/lib/HTTP.cpp:585-600 | a chunk length is read, ends the message when 0, and else starts a chunk of that length plus 2 |
| HttpParser.MessageParser.Result | individual/lib/HTTP.cpp:610-621 | the object handed out; a chunked one has its Content-Length rewritten and no Transfer-Encoding |
| HttpParser.MessageParser.ConsumeBuffer | individual/lib/Session.cpp:46-54 | the callback's loop feeds the buffer up to where the parser stops |
| HttpRoundTrip.ParseSerialize | individual/lib/HTTP.cpp:200-240 | parse inverts serialize: the parser awaits on every proper prefix, stops at the last byte and gives back the message |
| HttpRoundTrip.MessageText | individual/lib/HTTP.cpp:167-204 | the separators of a serialized message |
| HttpNormalForm.OutputIsWellFormed | individual/lib/HTTP.cpp:500-621 | what the parsers hand out, chunked or not, has no delimiter in a field and a right Content-Length |
| HttpNormalForm.NormalForm | individual/lib/HTTP.cpp:413-621 | for every accepted byte string the parsed object survives serializing and parsing, exactly when its body is at most an int long |
| HttpNormalForm.RoundTripIff | individual/lib/HTTP.cpp:200-621 | the exact domain of the round trip |
| HttpNormalForm.RewrittenHeaders | individual/lib/HTTP.cpp:616-619 | the rewritten headers of a chunked response declare the body's length and no transfer encoding |
| HttpChunked.ChunkedResponse | individual/lib/HTTP.cpp:566-605 | a response whose first Transfer-Encoding has the run "chunked", with any list of non-empty chunks, is read up to the end of its zero line, with the body that the code builds, and the plain one with the trimming repaired |
| HttpChunked.PlainResponse | individual/lib/HTTP.cpp:566-583 | for every other Transfer-Encoding, or none, the body is as long as declared |
| HttpChunked.OtherSizes | individual/lib/HTTP.cpp:587-605 | what unreadable, negative and too large chunk sizes do |
| HttpChunked.HexSizes | individual/lib/HTTP.cpp:587-593 | chunks whose size is written in hexadecimal are such chunks |
| HttpChunked.WithoutCRLFs | individual/lib/HTTP.cpp:604 | dropping two bytes after each chunk of the body as written gives the plain concatenation |
| HttpChunked.BodyRightIff | individual/lib/HTTP.cpp:598-604 | as written the body is right exactly when there are no chunks |
| Compress.ExpandContentEncoding | individual/lib/Compress.cpp:24-42 | every Content-Encoding gains gzip, or a new header says so |
| Compress.HttpResponse.UpdateContentLength | individual/lib/HTTP.cpp:232-234 | Content-Length becomes the size of the body and nothing else changes |
| Compress.HttpResponse.ListsDirective | individual/lib/Compress.cpp:13-22 | whether the first header of a key lists a directive, for compression asked for and done |
| Compress.HttpResponse.Compress | individual/lib/Compress.cpp:68-80 | the response is overwritten by its compressed form, for any compressor |
| Compress.GzipAppended | individual/lib/Compress.cpp:31 | adding ", gzip" to any value adds exactly that directive |
| Compress.CompressedHeaders | individual/lib/Compress.cpp:68-80 | the result lists gzip, declares its own length and keeps its transfer encoding |
| Compress.ListsIff | individual/lib/Compress.cpp:13-66 | compression is asked for, or done, exactly when the first header of the key has the run "gzip" |
| Compress.CompressedIs | individual/lib/Compress.cpp:68-80 | the line stays, the body is compressed, and each header stays in place but for Content-Encoding and Content-Length |
| Compress.CompressedAdds | individual/lib/Compress.cpp:38-40 | the headers that are added, if there were none |
| Compress.CompressIdempotent | individual/lib/Compress.cpp:68-80 | compressing twice is compressing once |
| Compress.CompressedWellFormedIff | individual/lib/Compress.cpp:68-80 | a compressed response can be parsed back exactly when its body is at most an int long |
| Database.ComputeCacheDuration | individual/lib/Database.cpp:43-62 | the loop with its early return computes the duration |
| Database.ForbiddenIsNeverCached | individual/lib/Database.cpp:53-55 | private or no-store anywhere among the directives means no caching |
| Database.LastMaxAgeCounts | individual/lib/Database.cpp:56-58 | where nothing forbids caching, the last max-age decides |
| Database.OthersAreIgnored | individual/lib/Database.cpp:54-59 | directives of no other kind leave the duration as it is |
| Database.MaxAgeAmongOthers | individual/lib/Database.cpp:54-59 | a max-age that no other follows decides, whatever other directives stand around it |
| Database.OnlyPositiveIsStored | individual/lib/Database.cpp:69 | without a positive duration nothing changes |
| Database.FreshForMaxAge | individual/lib/Database.cpp:20-77 | a response stored at t with max-age n is served until n seconds later and not beyond |
| Database.CacheRefinement | individual/lib/Database.cpp:13-26 | with a clock that does not run backwards the answer is the most recent storable response, exactly while it is fresh; lazy erasure cannot be observed |
| Database.ResponseDatabase.ServeCached | individual/lib/Database.cpp:13-26 | the same for the object, over everything it has been asked |
| Database.ResponseDatabase.CacheResponse | individual/lib/Database.cpp:66-83 | a response with a positive duration is stored or overwritten with its expiry |
| Session.ProxySession.WriteForeign | individual/lib/Session.cpp:100-121 | the request forwarded, and on a hit the bytes the fresh path would send for that response |
| Session.ProxySession.ReadForeign | individual/lib/Session.cpp:157-167 | the bytes sent, and the response stored before any compression |
| Session.CacheIsTransparent | individual/lib/Session.cpp:105-167 | with any origin that answers alike for the same second field of the request line, what any action sends after any others is what the fresh path sends |
| Session.RunSessions | individual/lib/Session.cpp:100-171 | session objects that share one database, in any interleaving, send exactly these bytes |
| Session.ForwardedParses | individual/lib/Session.cpp:101-104 | the origin parses the forwarded request as the client's, without Accept-Encoding |
| Session.ForwardedLacksOnly | individual/lib/Session.cpp:101-104 | only the Accept-Encoding headers are taken from a forwarded request |
| Session.GzipForThoseWhoAsk | individual/lib/Session.cpp:111-116 | exactly the clients whose first Accept-Encoding has the run "gzip" get a compressed response |
| Session.EndToEnd | individual/lib/Session.cpp:140-171 | from the bytes the proxy sends, the client parses what the proxy parsed, compressed if asked for, exactly when the body sent is at most an int long |
| ChatSocket.SocketWrapper.ReadBuf | tcp/lib/Socket.cpp:103-108 | the buffer is refilled from the stream, and is empty only at its end |
| ChatSocket.ReadNEndsIff | tcp/lib/Socket.cpp:55-63 | the loop ends exactly when the bytes wanted will come, and then for all reads; otherwise for none, and it goes on for any number of turns |
| ChatSocket.SocketWrapper.ReadN | tcp/lib/Socket.cpp:41-66 | the first n bytes of what remains, through any refills; for more than that the loop never ends; its turns are those of the theorem |
| ChatSocket.SocketWrapper.ReadUntil | tcp/lib/Socket.cpp:68-90 | the text up to the first delimiter, or everything at the end of the stream |
| ChatSocket.SocketWrapper.Write | tcp/lib/Socket.cpp:92-97 | all bytes are written, through any partial writes |
| ChatSocket.SocketWrapper.HasCachedInput | tcp/lib/Socket.cpp:99-101 | whether part of what remains is in the buffer |
| ChatSocket.SocketWrapper.Replay | tcp/lib/Socket.cpp:41-90 | any sequence of calls gives the results of the same calls on the plain stream, however it is delivered, up to the first call that never returns |
| ChatSocket.UntilConcat | tcp/lib/Socket.cpp:68-90 | a delimited text is read back, and what follows it remains |
| ChatMessage.Serialize | tcp/lib/Message.cpp:28-33 | the four writes append the wire image and nothing else |
| ChatMessage.ReadMessage | tcp/lib/Message.cpp:51-62 | for every stream the reader does what the parse of the stream says: a message, the end, never returning, or an unguarded error; it leaves the rest |
| ChatMessage.EndlessIff | tcp/lib/Message.cpp:56-59 | for a positive length the reader never returns exactly when the length exceeds what follows the stamp line |
| ChatMessage.ClosedInside | tcp/lib/Message.cpp:51-62 | a stream that closes anywhere inside a message keeps the reader for ever |
| ChatMessage.ClosedInsideStream | tcp/lib/Message.cpp:51-62 | the messages before that one are read all the same |
| ChatMessage.ClosedInsideText | tcp/lib/Socket.cpp:55-63 | one such stream, which closes inside the text |
| ChatMessage.MessageRoundTripIff | tcp/lib/Message.cpp:28-62 | a message survives exactly when its author has no newline and its length fits an int |
| ChatMessage.StreamRoundTripIff | tcp/lib/Message.cpp:28-62 | any list of messages survives the stream, which is consumed to the last byte, exactly when each of them does |
| ChatMessage.GotIsSendable | tcp/lib/Message.cpp:51-62 | whatever was read can be sent on |
| ChatMessage.OnServerRead | tcp/lib/Client.cpp:23-32 | the client's loop while input is buffered shows the next messages, and reports the end |
| ChatMessage.ShowConversation | tcp/apps/Client.cpp:80-90 | whatever happens to be buffered, exactly the messages of the stream are shown, up to what ends it |
| ChatServer.RemovalKeepsAligned | tcp/lib/Server.cpp:149-156 | swapping with the last entry and popping keeps the three vectors aligned and the accepting socket first |
| ChatServer.RemovalMembers | tcp/lib/Server.cpp:149-156 | exactly the one client goes |
| ChatPoll.ProgressServes | tcp/lib/Server.cpp:58-67 | one turn of the index loop, in which the list may grow, shrink or swap: the entries ahead are in their places, but for those that take the slots of clients that left |
| ChatPoll.ProgressDone | tcp/lib/Server.cpp:58-67 | where the loop stops: which entries have been looked at, and where the others are |
| ChatPoll.HandledAre | tcp/lib/Server.cpp:58-67 | exactly the ready descriptors among the entries looked at are handled, none twice |
| ChatPoll.SeenIsExact | tcp/lib/Server.cpp:58-67 | the closed form: exactly the ready entries reached, told from what the clients are about to say, are handled, and the server comes back exactly if none of them stops it |
| ChatServer.OneIsPassedOver | tcp/lib/Server.cpp:58-67 | a pass over two closed clients handles the first only |
| ChatServer.ChatServer.AcceptClient | tcp/lib/Server.cpp:113-140 | a new client is sent the whole log, and all invariants hold again |
| ChatServer.ChatServer.Broadcast | tcp/lib/Server.cpp:167-169 | every client is sent the message once |
| ChatServer.ChatServer.AcceptMessage | tcp/lib/Server.cpp:142-172 | for every stream: a message is stamped, broadcast and logged, a leaving client is removed, or the server does not come back; all invariants hold again |
| ChatServer.ChatServer.ClosingPeer | tcp/lib/Server.cpp:142-144 | a peer that connects and closes inside a message stops the server |
| ChatServer.ChatServer.Serve | tcp/lib/Server.cpp:59-66 | a ready client leaves exactly if its stream is closed next, keeps the server exactly if what comes is no message either, and otherwise says one; nothing is read from the entries ahead |
| ChatServer.ChatServer.Pass | tcp/lib/Server.cpp:58-67 | for one pass, from the state before it: a ready entry is handled exactly if it is reached, and the server comes back exactly if no client that is reached keeps it; none is handled twice, those passed over have taken the slots of clients that left, and messages and departures account for all that were handled |
| ChatServer.ChatServer.Run | tcp/lib/Server.cpp:36-69 | over any rounds and any input the invariants hold, also where the server does not come back, and the log only grows |
| ChatServer.ChatServer.ConnectedClientsAgree | tcp/lib/Server.cpp:137-171 | in every state each connected client decodes exactly the log |
| ChatServer.ChatServer.DepartedClientsAgree | tcp/lib/Server.cpp:146-159 | a departed client decodes a prefix of the log |
| ChatServer.ChatServer.LogIsFaithful | tcp/lib/Server.cpp:142-172 | the log holds what each client said in its order, without loss or repetition: all of it once the client has left or the server is stuck on it, which happens only on a stream that is cut short or malformed |

## Left out

- TftpDownload.DownloadSafety: for requests that reach the server as they were sent; `Packets.RequestRoundTrip` says exactly which file names do, and the server's port is not 0, which the client takes for "not locked yet".
- TftpDownloadProgress.LockedCompletesIff: a port is bound once in a run (`Open` does nothing on a port that has had a session). In the program the port of a dead session is free again, and the server, which picks ports at random, could open a session for a duplicated request on the very port the client is locked onto; old copies of the acknowledgements could then walk it forward. `UnlockedCompletesIff` and the other results about several sessions make the same assumption.
- TftpUpload.UploadSafety: for one session per upload; a duplicated write request opens a second stream on the same file, which depends on the file system.
- TftpServer.ReadingClient.Handle: the file named by a request exists exactly when it is in the map of files, and stays as it is; a directory or a file that cannot be opened is not modelled, nor are the log messages and the time stamp.
- TftpClient.Read: the datagrams that will arrive are a list, and the end of the list is the time-out.
- Packets.RequestToBytes: the visitor classes are a datatype with `match`; a character stands for its value modulo 256.
- ChatSocket.SocketWrapper.Write: a socket takes nothing only finitely often; errors of `read` and `write` are not modelled.
- ChatMessage.ReadMessage: what happens after an unguarded error is not modelled: an exception for a negative length, undefined behaviour for length 0 and for a number that is not there.
- ChatServer.ChatServer.Run: accepted descriptors differ from the open ones; nothing is said about liveness of a server that is not stuck, since it does not look at input that is already buffered.
- Database.ResponseDatabase.CacheResponse: requires a duration that can be read; a bare `max-age` makes the code throw or read an unset variable.
- HttpParser.MessageParser.Consume: the trimming parser is a variant of the state machine only, not an object; what a parser does after it has stopped is not modelled.
- HttpChunked.ChunkedResponse: a chunk's length plus 2 fits an int; trailers after the zero line are not consumed by the code and are the rest here.
- `operator[]` by key of the headers, which inserts into the index, has no callers.
- The two request and response parser classes share one model, told apart by `kind`; both start-line parsers share another.
- Sockets, `poll`, asynchronous callbacks, address resolution, choice of ports, `SplitURL`, logging, command lines, time zones and gzip itself, which is a parameter; so are the clock and what the origin answers.
- Exhausted memory and numbers of bytes beyond `size_t`; file sizes and the client's `size_t` counter are unbounded (`TftpClient.ReadCounterBound` says how far the counter gets).
- Building a message from a line of standard input in the chat client.
