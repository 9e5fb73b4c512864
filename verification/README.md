# Verified model of libfv

A Dafny model of libfv, a header-only C++20 network library, with proofs about its
hardest parts. `dafny verify dfyconfig.toml` checks the project.

- **Byte streams** (`ByteStream.dfy`). The buffered reads, the partial-write loop and the
  reconnect of a connection. The network is explicit data: the chunks successive reads will
  deliver and the sizes successive writes will take. Reads are specified on the whole
  stream, so their results cannot depend on how the bytes were split.
- **WebSocket** (`WsFrame.dfy`, `WsMessages.dfy`, `WsConn.dfy`, `WsTransfer.dfy`,
  `WsSenders.dfy`). The frame codec, the reassembly of frames into messages, the ping and pong
  handling, the end-to-end theorem over arbitrary partial writes, failing sends and read chunks,
  and the interleavings of several sends on one connection.
- **The WebSocket standard** (`Rfc6455.dfy`). The frame grammar of section 5.2 of RFC 6455 with
  a reader proved to accept exactly that grammar, the reassembly of section 5.4 with its round
  trip, and exactly where the program agrees with each.
- **HTTP client** (`Url.dfy`, `SessionPool.dfy`, `PoolRuns.dfy`, `PoolOverlap.dfy`,
  `HttpSession.dfy`). URL parsing and the pool key, the session pool, every interleaved run of
  requests over it, and the request with its one retry.
- **Text encoders** (`Base64.dfy`, `Percent.dfy`), each with a decoder that inverts it.
- **Synchronisation** (`AsyncSync.dfy`). The polling semaphore and mutex as interleaved steps
  of any number of tasks, reading the shared value and writing it back being two of them, and
  the timed acquire.
- **Server loop and context pool** (`HttpServer.dfy`, `IoCtxPool.dfy`).

`Bytes.dfy` holds bytes (eight-bit vectors), big-endian integers and 64-bit arithmetic;
`Wrappers.dfy` holds `Option` and `Result`.

## Where the code departs from what it is for

Each of these is modelled as the code has it and stated with its exact condition.

- An empty payload is sent as one byte, without a length byte, so no continuation makes it
  decode to itself; a payload's frame does exactly when the payload is not empty
  (`RoundTripExact`), and a list of messages reads back exactly when none has an empty payload
  (`MessagesReadBackExactly`). Two frames the program sends itself are of this kind: a peer that
  gets a close, after any messages and with nothing behind it, never sees it
  (`CloseAfterMessagesNeverArrives`), and the pong that answers a ping swallows the first bytes of
  the frame that follows it, five and as many more as that frame's opcode (`PongSwallowsNext`).
- Against section 5.2 of RFC 6455 the reader accepts reserved bits, undefined opcodes, lengths
  that are not in their shortest form, lengths of 2^63 and more, and reads a masked empty frame
  without its key; it agrees with the standard on exactly the other streams
  (`ReaderMeetsRfcExactly`). The writer agrees on exactly the payloads below 2^63 bytes that are
  neither empty nor 65535 bytes long (`WriterMeetsRfcExactly`), and those are the ones a strict
  peer reads back (`StrictPeerReadsExactly`).
- A message in several fragments, as section 5.4 of RFC 6455 defines them, never ends: it is
  joined to the next message, or lost if that is a ping or a pong. Each costs the receiver one
  message, and the program gets what was sent exactly when nothing was fragmented
  (`FragmentedMessageCostsOne`, `ReassemblyMeetsRfcExactly`, and on the bytes, under any keys but
  without masked empty frames, `ConversationMeetsRfcExactly`).
- A receive that failed at the end of the stream loses nothing of the message it was reading
  exactly when fewer than two bytes follow the last whole message or control message
  (`FailedReceiveKeepsGroupExactly`). In particular it loses whole fragments of an unfinished
  message, and inside a frame's payload it leaves the part that arrived to be taken for frames
  (`RetriedReceiveReadsPayload`).
- A send holds no lock between its partial writes. If no send begins while another is unfinished,
  the peer gets the frames in order (`SerialSendsAreReceived`). When one does begin, the peer still
  gets a prefix of the frames in order, however the writes of the two fall, exactly if all that the
  first has still to write and all of the new frame is one byte repeated
  (`OverlapHarmlessExactly`). A pong that a receive writes among the payload bytes of a message
  being sent changes the message exactly unless all that was unsent of it is the pong's byte
  (`PongInsideMessage`).
- A send that failed leaves the socket open, and the frame after one that failed inside its payload
  is taken for the rest of that payload (`FailedSendSwallowsNext`).
- Reading one character drops the rest of the buffer, and on a closed socket it makes up a zero
  byte; it is harmless exactly when the character was alone there (`TakeCharKeepsStream`).
- An expired session survives a cleaning exactly when a live one stands before it
  (`ExpiredSurvivesExactly`), and overlapping requests bring that about (`ExpiredSessionSurvives`).
- A pool sized automatically gets 2^32 - 1 contexts when the number of hardware threads is
  unknown (`AutoSizeExact`).
- Unlocking a mutex that is not locked raises; there, and only there, it differs from a
  semaphore's release (`MutexStepIsSemaphoreStepExactly`).
- The context pool's rotation continues through every wrap of its counter exactly when the
  pool's size divides 2^64 (`WrapIsSeamlessExactly`).

One reading of undefined behaviour: a line that is a bare LF makes `ReadLine` look at the
character before the start of a string. The model returns the empty line.

## Model

| member | source | states |
|---|---|---|
| ByteStream.TakeLineExact | include/fv/conn_impl.hpp:28-41 | a stream yields a given line exactly when it starts with the line and the bytes 13 and 10, or with the line and 10 when the line does not end in 13, and no byte of the line is 10 |
| ByteStream.BufferedLine | include/fv/conn_impl.hpp:31-39 | a line found in the buffer is the next line of the stream, whatever arrives later |
| ByteStream.TakeCharKeepsStream | include/fv/conn_impl.hpp:16-26 | reading a character loses no other byte of the stream and makes none up exactly when it was alone in the buffer, or in the chunk that refilled an empty one |
| ByteStream.PushDeliversPrefix | include/fv/conn_impl.hpp:108-118 | however writes split, the peer gets a prefix of the data, all of it exactly when the send succeeds |
| ByteStream.PushSucceedsExactly | include/fv/conn_impl.hpp:108-118 | a send succeeds exactly when enough bytes are taken before a write takes none or fails, and otherwise fails by the write that takes none, if there is one |
| ByteStream.PushUsesWrites | include/fv/conn_impl.hpp:108-118 | each piece is as long as its write allows, but for the last of a successful send, and exactly the writes of the pieces, and the one that took none, are used up |
| ByteStream.Conn.RecvImpl | include/fv/conn_impl.hpp:120-125 | one socket read delivers the next chunk of 1 to 1024 bytes, nothing on a closed socket, or fails when the peer has closed |
| ByteStream.Conn.ReadChar | include/fv/conn_impl.hpp:16-26 | the first buffered byte, or the first of the next chunk, with the whole buffer dropped; a zero byte on a closed socket with nothing buffered |
| ByteStream.Conn.AwaitLine | include/fv/conn_impl.hpp:30-35 | reads until a whole line is buffered and changes nothing about the stream |
| ByteStream.Conn.ReadLine | include/fv/conn_impl.hpp:28-41 | returns the next line of the whole stream and leaves exactly the rest; at the end of the stream it fails and loses nothing |
| ByteStream.Conn.ReadCount | include/fv/conn_impl.hpp:43-55 | returns the next bytes of the whole stream and leaves exactly the rest; at the end of the stream it fails and loses nothing |
| ByteStream.Conn.ReadSome | include/fv/conn_impl.hpp:64-74 | returns the buffer if it holds anything, else one socket read, which is empty on a closed socket, and leaves exactly the rest |
| ByteStream.Conn.Read | include/fv/conn_impl.hpp:28-62 | one request of a script returns a function of the stream alone |
| ByteStream.Conn.Run | include/fv/conn_impl.hpp:28-62 | any script of reads returns a function of the stream alone |
| ByteStream.SameStreamSameReads | include/fv/conn_impl.hpp:28-62 | two connections with the same bytes in different chunks answer any script of reads alike and keep the same rest |
| ByteStream.Conn.Send | include/fv/conn_impl.hpp:108-118 | hands over exactly the pieces the socket takes, and fails on a closed socket, a zero write or a socket error |
| ByteStream.Conn.Connect | include/fv/conn_impl.hpp:78-82 | records host and port and starts a socket with nothing buffered |
| ByteStream.Conn.Reconnect | include/fv/conn_impl.hpp:84-106 | empties the buffer and replaces the socket |
| Bytes.AccumulatedIsValue | include/fv/conn_impl.hpp:297-303 | eight length bytes accumulated in an int64_t and used as a size_t are the unsigned big-endian number, sign bit included |
| Bytes.ShiftedDigit | include/fv/conn_impl.hpp:352-354 | the eight bytes shifted out of the int64_t copy of a size are the digits of the size |
| WsFrame.MaskInvolution | include/fv/conn_impl.hpp:307-310 | byte i is combined with key byte i mod 4, and masking twice with the same key restores the data |
| WsFrame.WrittenBytes | include/fv/conn_impl.hpp:342-366 | every byte that a send of a non-empty payload writes: FIN and opcode, the mask bit of the role, the length in one, three or nine bytes, the key FA FB FC FD of a client, and the payload with byte i combined with byte i mod 4 of that key |
| WsFrame.ReadByte | include/fv/conn_impl.hpp:304-310 | byte i of a masked payload that is read is the byte on the wire combined with byte i mod 4 of the key on the wire, under any key and in any length form; unmasked it is the byte on the wire |
| WsFrame.ReadParts | include/fv/conn_impl.hpp:288-311 | FIN and opcode come from the first byte, and what follows a frame begins right after its header, key and payload |
| WsFrame.ReadLengthBytes | include/fv/conn_impl.hpp:291-303 | the payload read is as long as the second byte and the two or eight bytes after it say, the most significant first |
| WsFrame.ReadsWholeExactly | include/fv/conn_impl.hpp:288-306 | a frame whose first two bytes and extended length have arrived is read exactly when its key, if the mask bit is set, and all the bytes it announces are there |
| WsFrame.LeftUnread | include/fv/conn_impl.hpp:288-306 | what a frame read leaves when the stream ends: everything from the first part of the frame on that had not arrived whole |
| WsFrame.LengthRoundTrip | include/fv/conn_impl.hpp:345-355 | every positive length below 2^64 reads back from its length bytes, in all three forms, with the mask flag of the role |
| WsFrame.FrameRoundTrip | include/fv/conn_impl.hpp:287-366 | a non-empty frame of either role decodes to FIN, its opcode and its payload and leaves exactly what followed |
| WsFrame.RoundTripExact | include/fv/conn_impl.hpp:342-361 | a payload's frame decodes to itself before a continuation exactly when the payload is not empty, whatever the continuation is |
| WsFrame.FrameStable | include/fv/conn_impl.hpp:287-312 | a whole frame does not change when more bytes follow |
| WsFrame.TruncatedFrame | include/fv/conn_impl.hpp:287-312 | a frame cut short anywhere decodes to nothing |
| WsFrame.FailedReadKeepsStreamExactly | include/fv/conn_impl.hpp:287-312 | a frame read that fails at the end of the stream loses nothing exactly when fewer than two bytes had arrived |
| WsMessages.JoinFramesToFirstEnd | include/fv/conn_impl.hpp:313-318 | on any list of frames the first group ends at the first FIN frame that is not a continuation, joins all payloads up to it, and takes its opcode |
| WsMessages.JoinRefinesFrames | include/fv/conn_impl.hpp:313-318 | joining on bytes is joining on the list of frames in them |
| WsMessages.GroupIsFramesToFirstEnd | include/fv/conn_impl.hpp:313-318 | the group read from a stream is the frames of the stream up to the first end, and the frames after it remain |
| WsMessages.PongIsOneByte | include/fv/conn_impl.hpp:322-324 | the pong for a ping is one byte, written once or failing with the socket, and at once on a closed one |
| WsMessages.RecvRefinesGroups | include/fv/conn_impl.hpp:313-334 | for every stream and every behaviour of the socket's writes, receiving is a simple function of the list of groups |
| WsMessages.RecvByOpcode | include/fv/conn_impl.hpp:320-334 | the group at the front of a stream by its opcode: 1 and 2 are delivered, 8 ends the receive as a close, 10 is skipped, any other but 9 is unparsed, each with what is left unread |
| WsMessages.RecvOnPing | include/fv/conn_impl.hpp:322-324 | a ping, opcode 9, is answered with the one byte 8A and the receive goes on after it; if the pong does not go out it fails there, as the socket did |
| WsMessages.OnlyDataIsReceived | include/fv/conn_impl.hpp:320-334 | on every stream, what a receive delivers has opcode 1 or 2 |
| WsMessages.RecvSkipsControl | include/fv/conn_impl.hpp:320-334 | a receive writes exactly one pong for each ping before the first other message, skips pongs, and ends with that message: delivered if its opcode is 1 or 2, as a close if it is 8, and unparsed otherwise |
| WsMessages.CloseNeverArrives | include/fv/conn_impl.hpp:342-361 | a peer that receives the one byte of a close fails at the end of the stream with the byte unread, and never reports a close |
| WsMessages.PongSwallowsNext | include/fv/conn_impl.hpp:287-327 | after the one byte of a pong a receiver skips the first bytes of the next frame, five and as many more as its opcode, whether it is text, binary, a ping, a pong or a close, and goes on after them, or fails if there are too few |
| WsMessages.FailedReceiveKeepsGroupExactly | include/fv/conn_impl.hpp:286-334 | a receive that fails at the end of the stream keeps all that follows the last whole group exactly when that is fewer than two bytes |
| WsMessages.RetriedReceiveReadsPayload | include/fv/conn_impl.hpp:287-334 | when the stream ends inside a frame's payload, in any length form, masked or not, the receive fails and leaves exactly the part of the payload that arrived, where the next receive starts |
| WsMessages.RecvOnGroup | include/fv/conn_impl.hpp:313-331 | a whole text or binary message at the front of what is unread is delivered, and nothing else touched |
| Rfc6455.RfcReaderIsGrammar | include/fv/conn_impl.hpp:287-312 | the standard's reader the program is compared with returns a frame exactly when the stream starts with that frame in the grammar of section 5.2 of RFC 6455, under some key or none |
| Rfc6455.RfcRoundTrip | include/fv/conn_impl.hpp:287-366 | the standard's reader gives back every frame of the grammar, empty or not, masked or not, final or not, and exactly what followed |
| Rfc6455.ReaderMeetsRfcExactly | include/fv/conn_impl.hpp:288-306 | the program's reader agrees with the standard's on exactly the streams with no reserved bit, a defined opcode, a shortest-form extended length below 2^63 where it has arrived, and no masked empty frame at the front |
| Rfc6455.WriterMeetsRfcExactly | include/fv/conn_impl.hpp:342-361 | the writer agrees with section 5.2 of RFC 6455 on exactly the payloads below 2^63 bytes that are neither empty nor 65535 bytes long |
| Rfc6455.StrictPeerReadsExactly | include/fv/conn_impl.hpp:342-366 | a peer that enforces section 5.2 reads back what the program sends for exactly those payloads |
| Rfc6455.FragmentsFormGroupExactly | include/fv/conn_impl.hpp:315-318 | the fragments section 5.4 of RFC 6455 gives a message form a group exactly when there is one |
| Rfc6455.FragmentedMessageSwallowsNext | include/fv/conn_impl.hpp:315-318 | a message in several fragments is delivered joined to the front of the next one, under the next one's opcode |
| Rfc6455.FragmentsBeforeControlAreLost | include/fv/conn_impl.hpp:313-334 | a receive that meets a fragmented message with a ping or pong behind it goes on after that one; the message is never delivered |
| Rfc6455.RfcReassembles | include/fv/conn_impl.hpp:313-318 | reassembly by section 5.4 of RFC 6455, against which the program is compared, gives back every message whole, however fragmented and with control messages between the fragments |
| Rfc6455.GroupsAreFrameGroups | include/fv/conn_impl.hpp:313-318 | the groups of a stream are the groups of its frames |
| Rfc6455.FragmentedMessageCostsOne | include/fv/conn_impl.hpp:313-318 | every fragmented message costs the program's receiver exactly one message |
| Rfc6455.ReassemblyMeetsRfcExactly | include/fv/conn_impl.hpp:313-318 | the program reassembles as the standard does exactly the conversations in which no message is fragmented |
| Rfc6455.StandardFrameReadExactly | include/fv/conn_impl.hpp:287-312 | of the frames of the standard, the program reads back exactly those that are not both masked and empty |
| Rfc6455.StandardCloseIsSeen | include/fv/conn_impl.hpp:320-321 | the close frame of the standard, with any body and under any key or none, ends a receive as a close and is consumed, except that a masked one without a body leaves its key unread |
| Rfc6455.NormalCloseIsSeen | include/fv/conn_impl.hpp:320-321 | the bytes 88 02 03 E8 end a receive as a close, whatever follows |
| Rfc6455.StandardExamplesRead | include/fv/conn_impl.hpp:287-312 | the program reads the example frames of section 5.7 of RFC 6455 for "Hello", masked, unmasked and in two fragments |
| Rfc6455.ConversationMeetsRfcExactly | include/fv/conn_impl.hpp:287-318 | from the bytes of a conversation, each frame under its own key or none and none of them masked and empty, the program gets what was sent exactly when no message is fragmented |
| WsConn.WsConn.ReadPack | include/fv/conn_impl.hpp:287-312 | reads exactly the frame at the front of the stream; if the stream ends inside it, exactly its whole parts are consumed |
| WsConn.WsConn.ReadBody | include/fv/conn_impl.hpp:295-311 | reads the rest of a frame: its length, key and payload |
| WsConn.WsConn.ReadKeyed | include/fv/conn_impl.hpp:304-311 | reads the masking key, if any, and the payload, and unmasks it in place as the specification does whose bytes `WsFrame.ReadByte` states |
| WsConn.WsConn.ReadKey | include/fv/conn_impl.hpp:304-305 | reads the masking key exactly when the mask bit is set |
| WsConn.WsConn.ReadLength | include/fv/conn_impl.hpp:292-303 | reads the length bytes as the unsigned length they encode |
| WsConn.Accumulate | include/fv/conn_impl.hpp:297-303 | the int64_t sum of the extended length bytes is their value as a size_t |
| WsConn.WsConn.ReadGroup | include/fv/conn_impl.hpp:313-318 | reads exactly the group at the front of the stream |
| WsConn.WsConn.Recv | include/fv/conn_impl.hpp:286-334 | has exactly the specified outcome, leftover bytes, unused writes and written pieces, also when the stream ends; a group with opcode 8 at the front is a close, one with 1 or 2 is delivered, and any other but 9 and 10 drops the connection; delivers nothing but opcodes 1 and 2; terminates |
| WsConn.WsConn.Send | include/fv/conn_impl.hpp:336-373 | hands over exactly the encoded frame, whose bytes `WsFrame.WrittenBytes` states; without a connection it fails, except for a close, whose failures are ignored |
| WsConn.WsConn.Close | include/fv/conn.hpp:123 | sends one close byte if connected and drops the connection |
| WsConn.BuildLength | include/fv/conn_impl.hpp:346-355 | the length bytes, the long form shifted out of an int64_t, equal the specified ones |
| WsConn.BuildFrame | include/fv/conn_impl.hpp:342-366 | serialising and then masking in place gives the specified frame, whose bytes `WsFrame.WrittenBytes` states |
| WsConn.ApplyMask | include/fv/conn_impl.hpp:363-366 | combines each byte from the offset on with the key byte at its distance from the offset mod 4, and changes nothing before it |
| WsTransfer.MessageRoundTrip | include/fv/conn_impl.hpp:313-366 | one sent message is one whole group and leaves exactly what followed |
| WsTransfer.PrefixNeverCorrupts | include/fv/conn_impl.hpp:286-373 | from any prefix of the bytes sent, the receiver sees a prefix of the messages, never an altered one |
| WsTransfer.UniqueParse | include/fv/conn_impl.hpp:287-366 | the bytes of a list of messages determine the list, even across roles |
| WsTransfer.MessagesReadBackExactly | include/fv/conn_impl.hpp:286-373 | of all lists of text and binary messages below 2^64 bytes, exactly those without an empty payload read back as they were sent |
| WsTransfer.PrefixReceived | include/fv/conn_impl.hpp:286-373 | from any prefix of the bytes sent, successive receives return exactly the messages that arrived whole, in order, and then fail at the end of the stream |
| WsTransfer.CloseAfterMessagesNeverArrives | include/fv/conn_impl.hpp:286-373 | a close sent after any messages is never reported: the peer gets the messages, then the end of the stream, with the byte of the close unread |
| WsTransfer.SendAll | include/fv/conn_impl.hpp:336-373 | the peer gets a prefix of the encoded messages, all of them exactly when every send succeeds |
| WsTransfer.RecvAll | include/fv/conn_impl.hpp:286-334 | successive receives return exactly the messages, in order, and touch nothing after them |
| WsTransfer.ReceiveToEnd | include/fv/conn_impl.hpp:286-334 | successive receives up to the first without a message return exactly what the stream specifies |
| WsTransfer.EndToEnd | include/fv/conn_impl.hpp:286-373 | for any messages with non-empty payloads below 2^64 bytes, either role, any partial writes, any failing send and any chunks of 1 to 1024 bytes, the receiver gets exactly the messages that went out whole, in order, and then the end of the stream; if every send succeeds, that is all of them and nothing is left over |
| WsSenders.SerialSendsConcatenate | include/fv/conn_impl.hpp:108-118 | in every interleaving in which no send begins while another is unfinished, the peer has a prefix of the frames in the order in which they were begun, all of them exactly when every send has finished |
| WsSenders.SerialSendsAreReceived | include/fv/conn_impl.hpp:286-373 | then a receiver gets exactly the messages that went out whole, in that order, and all of them once every send has finished |
| WsSenders.OverlapHarmlessExactly | include/fv/conn_impl.hpp:108-118 | when a send begins while another is unfinished, the peer has a prefix of the frames in order after every sequence of writes of the two exactly if what is unsent of the first and the new frame are one byte repeated |
| WsSenders.WholeFrameBetweenExactly | include/fv/conn_impl.hpp:108-118 | the one schedule in which the new frame goes out whole and then the rest of the first leaves the frames in order exactly when the new frame commutes with that rest |
| WsSenders.ByteCommutesExactly | include/fv/conn_impl.hpp:340-345 | a one-byte frame, as a pong is, commutes with exactly the repetitions of its byte |
| WsSenders.PongCanComeBetween | include/fv/conn_impl.hpp:322-324 | there is a run in which a pong goes out after any number of bytes of a message's payload |
| WsSenders.PongInsideMessage | include/fv/conn_impl.hpp:286-373 | then the receiver is given a message with the pong's byte in it, which is the one sent exactly when all that was unsent of it is that byte, and goes on one byte early |
| WsSenders.FrameCanFollowFailedSend | include/fv/conn_impl.hpp:108-118 | there is a run in which a send fails after any number of payload bytes and another frame goes out after it |
| WsSenders.FailedSendSwallowsNext | include/fv/conn_impl.hpp:108-118 | then the peer takes what follows for the rest of the payload; the message comes out as it was meant exactly when that is the rest, and not at all if too little follows |
| Url.ParseUrl | include/fv/common_funcs.hpp:104-138 | cutting the string down in place gives the parts that `Url.PortOmitted`, `Url.PortGiven`, `Url.SchemaOmitted` and `Url.FragmentIgnored` state for every form of a URL, or the unknown-port failure |
| Url.ParseRest | include/fv/common_funcs.hpp:115-137 | cutting off the path and the port in place gives the specified parts; without a port, 80 for http and ws, 443 for https and wss, and a failure for any other schema |
| Url.PortOmitted | include/fv/common_funcs.hpp:107-135 | for every host and path, a URL without a port has port 80 if its schema is http or ws, 443 if it is https or wss, in any case of the letters, and is an error for any other schema; the schema comes out in lower case and a missing path as / |
| Url.PortGiven | include/fv/common_funcs.hpp:107-125 | for every schema, host and path, the host ends at the first colon and the port is what follows it up to the path |
| Url.SchemaOmitted | include/fv/common_funcs.hpp:107-112 | a URL without a schema separator parses as with http:// in front |
| Url.FragmentIgnored | include/fv/common_funcs.hpp:104-106 | a URL with a fragment parses as without it |
| Url.ParseIsCanonical | include/fv/common_funcs.hpp:104-138 | accepted parts are lower-case in the schema and free of the separators that delimit them |
| Url.NormalForm | include/fv/common_funcs.hpp:104-138 | the printed parts of any accepted string parse to the same parts |
| Url.ParseImage | include/fv/common_funcs.hpp:104-138 | exactly the canonical parts are the result of some parse |
| Url.FlagParses | include/fv/session.hpp:65-66 | a connection flag is itself a URL, with the same schema, host and port |
| Url.FlagIsFaithful | include/fv/session.hpp:65-66 | two parsed URLs share a connection flag exactly when schema, host and port agree |
| SessionPool.SessionPool.GetSession | include/fv/session.hpp:198-215 | takes the oldest session of the URL's bucket, or a new unconnected one, and changes no other bucket |
| SessionPool.SessionPool.FreeSession | include/fv/session.hpp:217-220 | appends the session to the bucket of its own flag |
| SessionPool.SessionPool.TimeClear | include/fv/session.hpp:222-232 | cleans every bucket, under the timeout set at the time, and drops no bucket |
| SessionPool.PruneIsLongestPrefix | include/fv/session.hpp:226-230 | a cleaning removes the longest expired prefix of a bucket and nothing else |
| SessionPool.PruneEmptiesExactly | include/fv/session.hpp:226-230 | a bucket empties exactly when everything in it has expired |
| SessionPool.ExpiredSurvivesExactly | include/fv/session.hpp:226-230 | an expired session survives exactly when one that has not expired stands before it |
| SessionPool.SortedPruneLeavesNoneExpired | include/fv/session.hpp:226-230 | in a bucket sorted by last use no expired session survives |
| PoolRuns.RunsAreExclusive | include/fv/session.hpp:198-271 | in every interleaved run no connection is both pooled and in use or held twice, and every pooled session is connected under its bucket's flag |
| PoolRuns.ConnectionLostExactly | include/fv/session.hpp:198-271 | in every run a connection is lost exactly by the failure of the request that holds it, or by a cleaning that finds it and all before it in its bucket idle for the timeout; every other step leaves it in a bucket or with a request |
| PoolRuns.ConnectsExactlyWhenBucketEmpty | include/fv/session.hpp:63-75 | in every run, whatever other requests and the cleaner do between taking a session and using it, a request opens one connection under its key exactly when its bucket was empty when it began, and otherwise uses the session it took |
| PoolRuns.SessionsWithinPeak | include/fv/session.hpp:198-271 | in every run the sessions on a key, pooled or in flight, never outnumber the peak of simultaneous requests on it |
| PoolRuns.InOrderRunsStaySorted | include/fv/session.hpp:217-232 | in runs whose requests finish in start order buckets stay sorted by last use and a cleaning under any timeout leaves no expired session |
| PoolOverlap.OverlapLeavesUnsorted | include/fv/session.hpp:63-64 | two overlapping requests on any URL, the later one finishing first, leave their bucket unsorted by last use |
| PoolOverlap.ExpiredSessionSurvives | include/fv/session.hpp:222-232 | after that run an expired session survives the cleaning, under every positive timeout |
| HttpSession.HttpSession.Attach | include/fv/session.hpp:67-75 | connects to the URL's host and port exactly when there is no connection under its flag |
| HttpSession.HttpSession.TrySend | include/fv/session.hpp:93-99 | on success the socket has received exactly the request on top of what it had |
| HttpSession.HttpSession.Exchange | include/fv/session.hpp:93-107 | one reconnect exactly when the first send fails, and then with an empty buffer; the response is read only from a socket that got the whole request once |
| HttpSession.HttpSession.DoMethod | include/fv/session.hpp:63-109 | the whole request: which connects and reconnects happen, when the response is read, and what its socket has then received; a session whose connection went where its flag says sends to the host and port of the URL, through a reconnect or without one |
| HttpSession.FlagLeadsHome | include/fv/session.hpp:65-75 | a connection goes where the flag of a URL says exactly when it goes to the host and port of the URL |
| HttpSession.FlagsLeadHome | include/fv/session.hpp:65-75 | every flag leads to one host and port, those of every URL that has it |
| HttpSession.UseTaken | include/fv/session.hpp:265-270 | gives a session back exactly when its response is acceptable and read, and then as the newest of its bucket with the time of its use |
| HttpSession.Get | include/fv/session.hpp:265-270 | takes a session, connects only if the bucket was empty, and gives the session back under the URL's flag exactly when the response is acceptable and is read, which it is exactly when the request has a serialised form that goes out whole on the pooled connection, or on a new one if the bucket was empty, or else on a reconnected one; keeps every pooled session settled under its flag on a usable connection to the URL's host and port |
| HttpSession.GetRepeatedly | include/fv/session.hpp:265-270 | says of each of several requests on one URL whether it was served; if all were, the first opened a connection exactly if the bucket was empty, and no other opened any; and all are if each would go out on a reconnect and the first can connect when it has to |
| Base64.Base64Encode | include/fv/common_funcs.hpp:68-100 | the accumulating loop computes the three-byte recursion |
| Base64.DecodesExactlyEncodings | include/fv/common_funcs.hpp:68-100 | a string decodes, by section 4 of RFC 4648 with zero pad bits, to some bytes exactly when it is their encoding |
| Base64.DecodeAfterEncode | include/fv/common_funcs.hpp:68-100 | decoding recovers every input |
| Base64.EncodeAfterDecode | include/fv/common_funcs.hpp:68-100 | encoding recovers every accepted string |
| Base64.EncodedShape | include/fv/common_funcs.hpp:88-98 | four characters per three bytes begun, with '=' exactly at the last places that the input's length asks for |
| Base64.EncodedNumber | include/fv/common_funcs.hpp:75-96 | each four characters of the encoding are in base 64, by Table 1 of RFC 4648, the number that the three bytes of their group make in base 256, with zero for what the last group lacks |
| Base64.EncodeConcat | include/fv/common_funcs.hpp:75-87 | encoding distributes over concatenation when the first part's length is a multiple of three |
| Base64.AlphabetAt | include/fv/common_funcs.hpp:69 | the alphabet is Table 1 of RFC 4648 |
| Percent.PercentEncode | include/fv/common_funcs.hpp:48-64 | the loop computes the byte-by-byte encoding |
| Percent.DecodesExactlyEncodings | include/fv/common_funcs.hpp:48-64 | a string decodes to some bytes exactly when it is their encoding, so the encoding is injective on all byte strings |
| Percent.ByteRoundTrip | include/fv/common_funcs.hpp:53-61 | every encoded byte is self-delimiting and decodes to itself |
| Percent.EncodedAlphabet | include/fv/common_funcs.hpp:53-61 | only unreserved characters, '+' and '%' appear, and every '%' is followed by two upper-case hexadecimal digits |
| Percent.EncodedOne | include/fv/common_funcs.hpp:51-61 | what each of the 256 bytes becomes: itself if it is a letter, a digit or one of - . _ ~, a plus for a space, and otherwise % and the two base-16 digits of its number |
| Percent.EncodeConcat | include/fv/common_funcs.hpp:48-64 | encoding distributes over concatenation |
| AsyncSync.SemaphoreConserves | include/fv/common.hpp:138-179 | in every interleaving of any number of tasks at most one is inside the inner lock, none sleeps owning it, the count a task has read is current until it writes it back, and the count is the initial one less acquires plus releases |
| AsyncSync.PermitsConserved | include/fv/common.hpp:138-179 | if only holders call release, count and held permits always add up to the initial count, although reading and writing the count are separate steps |
| AsyncSync.MutualExclusion | include/fv/common.hpp:138-179 | with one permit no two tasks hold it at once |
| AsyncSync.TaskIsDoneExactly | include/fv/common.hpp:138-179 | in every run a task is done exactly when it only tried, took a permit or gave one back, or checked a deadline that has passed; a waiting task that finds no permit goes to sleep, and asks for the same until it is done |
| AsyncSync.StoreEffect | include/fv/common.hpp:138-179 | in every run a store takes one permit for its task, gives one back in size_t arithmetic, or finds none and changes nothing; no other step changes the count or the holders |
| AsyncSync.NoTaskIsStuck | include/fv/common.hpp:148-174 | in every run each task can take its next step, or waits for the inner lock, and then the task inside can take its own |
| AsyncSync.OwnStepLeads | include/fv/common.hpp:148-174 | where that step leads: the deadline check, the inner lock, the read of the current count, and from a sleep the next poll |
| AsyncSync.MutexStepIsSemaphoreStepExactly | include/fv/common.hpp:59-115 | in every run a mutex step is a step of a one-permit semaphore exactly when it does not unlock an unlocked mutex |
| AsyncSync.StrayUnlockRaises | include/fv/common.hpp:110-115 | a stray unlock leaves the mutex unlocked and its holders as they were, and releases the inner lock |
| AsyncSync.MutexSimulatesSemaphore | include/fv/common.hpp:59-115 | a mutex run without stray unlocks is the run of a semaphore with one permit, or none if it started locked |
| AsyncSync.MutexExcludes | include/fv/common.hpp:59-115 | if only holders call unlock, no unlock is stray, no two tasks hold the mutex at once, and it is locked exactly while someone holds it |
| AsyncSync.AsyncSemaphore.TryAcquire | include/fv/common.hpp:138-146 | takes a permit exactly when there is one |
| AsyncSync.AsyncSemaphore.Release | include/fv/common.hpp:176-179 | adds a permit in size_t arithmetic |
| AsyncSync.PollsAreBounded | include/fv/common.hpp:161-174 | if every sleep advances the clock by a millisecond, there are at most the timeout's milliseconds, rounded up, of polls, and none for a timeout that is not positive |
| AsyncSync.AsyncSemaphore.AcquireFor | include/fv/common.hpp:161-174 | for any sleeps it takes a permit exactly when it says so, gives up with the count untouched and the clock at or past the deadline, and polls only before the deadline; the bound on the polls alone needs a clock that advances |
| AsyncSync.AsyncMutex.TryLock | include/fv/common.hpp:59-67 | succeeds exactly when the mutex was free and leaves it locked |
| AsyncSync.AsyncMutex.Unlock | include/fv/common.hpp:110-115 | fails exactly when the mutex was not locked and leaves it unlocked |
| HttpServer.ProcessRequests | include/fv/server.hpp:187-232 | the loop produces the specified log for every stream of requests and every behaviour of callbacks and sends; every request before the one it ended at was answered, and that one upgraded, raised or failed to send as the log says |
| HttpServer.ServeRequest | include/fv/server.hpp:190-230 | one turn of the loop, with its branches for interception, upgrade and failure |
| HttpServer.RunHandlers | include/fv/server.hpp:204-218 | the path's handler and then the fallback when no code came back |
| HttpServer.SendResponse | include/fv/server.hpp:221-230 | the after-filter, the serialiser and the send, in that order; it ends the loop exactly when one of the first two raises or the send fails |
| HttpServer.LoopEndsExactly | include/fv/server.hpp:187-232 | the loop ends at the first request that is not answered with a successful send: as an upgrade exactly if it reached the handlers and is upgraded, by an exception exactly if the before-filter raises, or it is to be answered and the after-filter or the serialiser raises, by a failed send exactly if it is answered and the send fails; and with the connection exactly if all are answered |
| HttpServer.LogEventsExactly | include/fv/server.hpp:190-230 | exactly which calls of handler, fallback and after-filter, with which code, and which sends are in the log, from the requests and the installed callbacks alone |
| HttpServer.LogInOrder | include/fv/server.hpp:190-230 | the log is in the order of the requests and, for each, of handler, fallback, after-filter and send, with nothing twice |
| HttpServer.LogIsDetermined | include/fv/server.hpp:187-232 | it is the only list of events with these two properties |
| HttpServer.FailedSendIsLast | include/fv/server.hpp:226-230 | a failed send is the last event of the log, the loop ended by it, and at its request |
| HttpServer.SentExactlyBeforeEnd | include/fv/server.hpp:195-230 | a successful send is in the log for exactly the requests before the one the loop ended at |
| HttpServer.OneResponsePerRequest | include/fv/server.hpp:187-232 | the sends attempted are for requests 0, 1, 2, ... in order, each once, up to the one the loop ended at, which has one exactly when a send failed |
| HttpServer.OneAfterPerResponse | include/fv/server.hpp:193-224 | the after-filter runs once for the same requests, in order, and not for an upgraded one |
| HttpServer.SendFollowsFilter | include/fv/server.hpp:193-230 | with an after-filter, every attempted send comes right after its own request's after-filter call |
| HttpServer.AfterNeverSeesNoCode | include/fv/server.hpp:211-224 | the after-filter never sees code -1 for a request that was not intercepted |
| HttpServer.FallbackRunsExactly | include/fv/server.hpp:205-218 | the fallback runs for exactly the requests that reached the handlers and got no code, upgraded ones included |
| IoCtxPool.IoCtxPool.constructor | include/fv/ioctx_pool.hpp:14-29 | builds as many contexts as were asked for, or as the size computation says if none were, at least one |
| IoCtxPool.IoCtxPool.GetContext | include/fv/ioctx_pool.hpp:54-56 | picks the context at the counter modulo the size and advances the 64-bit counter |
| IoCtxPool.IoCtxPool.GetContexts | include/fv/ioctx_pool.hpp:54-56 | successive calls make exactly the choices that the balance results are about |
| IoCtxPool.AutoSizeExact | include/fv/ioctx_pool.hpp:15-19 | an automatically sized pool stays within the hardware threads exactly when their number is known |
| IoCtxPool.PoolSizeExactly | include/fv/ioctx_pool.hpp:14-19 | a size that is given is the pool's size; without one it is one less than the hardware threads, 1 for one thread and 4294967295 when their number is unknown |
| IoCtxPool.PicksRotate | include/fv/ioctx_pool.hpp:54-56 | the choices are those of an unbounded counter in every window without a wrap, and in every window through any number of wraps if the size divides 2^64 |
| IoCtxPool.ExactCount | include/fv/ioctx_pool.hpp:54-56 | the exact number of times each context is chosen in such a window |
| IoCtxPool.Balanced | include/fv/ioctx_pool.hpp:54-56 | in such a window of k choices each of n contexts is chosen floor(k/n) or ceil(k/n) times |
| IoCtxPool.BalancedAcrossWrap | include/fv/ioctx_pool.hpp:54-56 | across one wrap of the counter two contexts differ by at most two |
| IoCtxPool.WrapIsSeamlessExactly | include/fv/ioctx_pool.hpp:54-56 | every choice of every window is the unbounded counter's exactly when the pool's size divides 2^64 |

## Left out

- ByteStream.Conn.ReadLine: a line that is a bare LF is given the meaning of an empty line; the
  program's read before the start of the string is undefined.
- On a closed socket the reads that loop (a line, a count, a script, a frame and its parts, a group
  and a receive) require that the buffer holds what they need, because the program's loops never
  end without it.
- WsConn.Send: the masking key is the program's constant, so nothing is said about its unpredictability.
- HttpSession.DoMethod: the request's serialised form is a parameter and the model stops where the response starts to be read; response parsing is not part of this model.
- HttpSession.Attach: TCP and TLS connections are one class; name resolution, TLS handshakes and the address text are not modelled.
- The mutex's timed lock: the same loop as the semaphore's timed acquire; it appears as steps of the interleaved runs only.
- WsSenders.PongInsideMessage: a pong among the bytes before the payload (length and key) is covered
  by OverlapHarmlessExactly only, which says what can go out and not what a receiver makes of it.
- WsSenders.FailedSendSwallowsNext: a send that fails before its payload is not followed to the
  receiver.
- Rfc6455.ReassemblyMeetsRfcExactly: is about the conversations section 5.4 allows; on other lists of
  frames, which a standard receiver fails, the two reassemblies are not compared.
- Rfc6455.ReaderMeetsRfcExactly: compares section 5.2 of RFC 6455; which side has to mask (section 5.1) and
  the size and fragmentation of control frames (section 5.5) are not compared.
- Blocking acquire and lock as methods: they need not terminate, so they appear as steps of the interleaved runs only.
- Exceptions carry messages in the program; the model keeps only which failure it was.
- Automatic websocket pings: the program starts the send without awaiting it, so it has no effect to state.
- Request and response headers, forms, cookies, gzip and chunked transfer.
- The TCP and TLS accept loops, the client registry and broadcast.
- Timers, cancel tokens, task spawning, option structs, the other request verbs, random strings.
- Non-ASCII behaviour of `tolower` and `isalnum`: the C locale is fixed.
