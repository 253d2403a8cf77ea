# RxSTOMP in Dafny

A model of the core of RxSTOMP, a small STOMP client for iOS written in Swift.
It covers three parts:

- **The frame** (`RxSTOMPFrame.swift`). This covers the command verbs, the header enum with its wire keys, the text form a frame is written in (`description`), and the parser that reads a frame back (`init(text:)`).
- **The framer** (`RxSTOMPParser.swift`). It takes the bytes that arrive in chunks, cuts them at NUL characters, strips leading line feeds from each piece and parses the rest. Its buffer (`readData`) is explicit state here.
- **The stream** (`RxSTOMPStream.swift`). This is the event logic of the connection:
  - `connect`, `auth`, `disconnect` and `sendFrame`;
  - the socket callbacks;
  - the check for system messages, where a CONNECTED frame emits `auth` and schedules heart-beat timers;
  - the heart-beat timer, whose interval comes from the first component of the `heart-beat` header.

How the pieces are represented:

- Strings are `seq<char>`.
- The Swift `Set<RxSTOMPHeader>` is a sequence of headers kept in insertion order. Swift leaves a set's iteration order unspecified and seeds it per process, so insertion order is one of the orders the program may show. Properties that do not depend on that order are stated on the set of (key, value) pairs (`PairSet`); the few that do are listed under Left out.
- The stream is a pure state machine: `Connection.Step` takes one event. Its state is what the stream has produced so far:
  - the state events it emitted and the frames it forwarded, in one log in the order they were emitted;
  - the socket actions it requested;
  - the timers it scheduled;
  - the framer's buffer.

Modules, one per file:

| file | module | what |
|---|---|---|
| wrappers.dfy | Wrappers | `Option` and `Result` |
| text.dfy | Text | `components(separatedBy:)`, `joined(separator:)`, and NUL removal on character sequences |
| commands.dfy | Commands, ResponseTypes | the command verbs, the one-letter response types, and the errors the failable initialisers throw |
| headers.dfy | Headers | the header cases, their wire keys, and the initialiser from a key and a value |
| frames.dfy | Frames | the frame, its text form, and the parser |
| frame_laws.dfy | FrameLaws | what the parser extracts from a text, and the serialise-then-parse round trip |
| framer.dfy | Framer | the framer as written, the framer that keeps an incomplete frame, and the laws relating them |
| header_equality.dfy | HeaderEquality | the header equality the source declares (by hash value), and where it differs from pair equality |
| heartbeat.dfy | Heartbeat | the numeral in the `heart-beat` header, and the timer interval derived from it |
| stream.dfy | Connection | the stream's events and the invariant every run keeps |

Where the code departs from STOMP 1.2, or does something easily misread, the model does what the code does:

- STOMP 1.2 splits a header line at its first colon. This code takes the key from the text before the first colon and the value from the text after the **last** colon.
- STOMP 1.2 keeps repeated header entries in order and lets the first one count. This code collects the headers into a **set**.
- STOMP 1.2 reads a heart-beat value of 0 as "no heart-beat". This code gives 0 no special meaning: it requests a timer with interval 0.
- STOMP 1.2 has the client send heart-beats at the larger of its own first value and the server's second value. This code takes the interval from the **first** component of the server's `heart-beat` header.
- The framer **clears** its buffer after any NUL, so what follows the last NUL is dropped, and the stream reads through this framer. This is the first row of Findings.

## Model

| member | source | states |
|---|---|---|
| Commands.CommandFromText | RxSTOMP/Core/RxSTOMPFrame.swift:31-36 | the lookup succeeds exactly when some command has the text as raw value; it returns that command, and otherwise fails with the undefined-command error |
| Commands.CommandFromRawValue | RxSTOMP/Core/RxSTOMPFrame.swift:17-36 | reading the raw value of any command gives back that command |
| Commands.RawValueInjective | RxSTOMP/Core/RxSTOMPFrame.swift:17-28 | no two commands share a raw value |
| Commands.RawValueShape | RxSTOMP/Core/RxSTOMPFrame.swift:17-28 | every raw value is non-empty and contains neither NUL nor a colon; only the heartbeat's contains a line feed |
| ResponseTypes.ResponseTypeFromCharacter | RxSTOMP/Core/RxSTOMPFrame.swift:197-211 | the lookup succeeds exactly for the five letters o, h, a, m and c; otherwise it fails with error code 1001 |
| ResponseTypes.ResponseTypeFromRawValue | RxSTOMP/Core/RxSTOMPFrame.swift:197-211 | reading the letter of any response type gives back that type |
| Headers.KindOf | RxSTOMP/Core/RxSTOMPFrame.swift:161-188 | the case chosen for a key has that key as its wire key |
| Headers.MakeHeader | RxSTOMP/Core/RxSTOMPFrame.swift:161-188 | a header built from a key and a value reads back that key and that value |
| Headers.MakeHeaderCases | RxSTOMP/Core/RxSTOMPFrame.swift:161-188 | only the eleven recognised keys get a dedicated case; only "message" builds a message header and only "destination" a destination header |
| Headers.MakeHeaderInjective | RxSTOMP/Core/RxSTOMPFrame.swift:161-188 | two built headers are equal exactly when their key and value are |
| Headers.KindHasKey | RxSTOMP/Core/RxSTOMPFrame.swift:60-97 | message and destination headers carry their keys, but a custom header keyed "message" is not a message header |
| Frames.FirstValueWhere | RxSTOMP/Core/RxSTOMPFrame.swift:232-246 | the result is "" when no header matches; otherwise it is the value of the first matching header |
| Frames.Frame.Message | RxSTOMP/Core/RxSTOMPFrame.swift:232-238 | `message` is the value of the first message header, or "" when there is none |
| Frames.Frame.Destination | RxSTOMP/Core/RxSTOMPFrame.swift:240-246 | `destination` is the value of the first destination header, or "" when there is none |
| Frames.PairSetMember | RxSTOMP/Core/RxSTOMPFrame.swift:252 | a pair is in the header set exactly when some header carries it |
| Frames.InsertLaws | RxSTOMP/Core/RxSTOMPFrame.swift:291 | inserting adds the header's pair to the set and keeps the headers distinct; it leaves the headers unchanged exactly when the pair is already present |
| Frames.HeaderLineParts | RxSTOMP/Core/RxSTOMPFrame.swift:286-290 | the key is the colon-free prefix before the first colon and the value the colon-free suffix after the last; a line without a colon is both |
| Frames.AppendBodyLaws | RxSTOMP/Core/RxSTOMPFrame.swift:277-281 | after a body line is added, the body never ends in NUL, and it differs from the plain concatenation only in NULs |
| Frames.FoldLaws | RxSTOMP/Core/RxSTOMPFrame.swift:275-294 | the loop keeps the headers distinct and adds no line feed to the body; once in the body it leaves the headers alone |
| Frames.Serialize | RxSTOMP/Core/RxSTOMPFrame.swift:218-230 | `description` writes the frame text and ends it with a NUL; what that text means is stated by FrameLaws.RoundTrip, which reads it back with Frames.Parse |
| Frames.Parse | RxSTOMP/Core/RxSTOMPFrame.swift:263-297 | the empty text fails with the empty-frame error; a lone line feed is the heartbeat; otherwise parsing succeeds exactly when the first line names a command, that command is never the heartbeat, and a failure is the undefined-command error, code 1002; the body is always present and free of line feeds, and the headers are distinct |
| FrameLaws.InsertAllLaws | RxSTOMP/Core/RxSTOMPFrame.swift:286-291 | inserting headers one by one adds exactly their pairs and keeps the headers distinct |
| FrameLaws.InsertAllFresh | RxSTOMP/Core/RxSTOMPFrame.swift:286-291 | distinct headers whose pairs are all new are appended unchanged, in insertion order |
| FrameLaws.ParseSections | RxSTOMP/Core/RxSTOMPFrame.swift:269-296 | a parsed frame holds one header pair per line before the first blank line. Its body is empty when there is no blank line. Otherwise the body is the concatenation of the lines after the blank line: unchanged when they hold no NUL, with every NUL removed when they end in NUL, and equal up to NULs in every case |
| FrameLaws.FoldHeaders | RxSTOMP/Core/RxSTOMPFrame.swift:283-292 | the loop's header set is the set of pairs of the lines before the first blank line |
| FrameLaws.FoldBody | RxSTOMP/Core/RxSTOMPFrame.swift:277-285 | the body the loop builds, case by case, as in ParseSections |
| FrameLaws.HeaderLineRoundTrip | RxSTOMP/Core/RxSTOMPFrame.swift:221 | a header line whose key and value contain no colon reads back as the same header |
| FrameLaws.ParseFrameText | RxSTOMP/Core/RxSTOMPFrame.swift:218-297 | parsing a frame's text, with or without its NUL, gives its command, its header lines inserted one by one in line order, and its body |
| FrameLaws.RoundTrip | RxSTOMP/Core/RxSTOMPFrame.swift:218-297 | parsing the written form (`Frames.Serialize`) of a frame with plain headers and a body free of line feeds and NULs gives back the command, the header set and the body (an absent body comes back empty); with distinct headers the header sequence comes back in the same insertion order |
| FrameLaws.AbsentBodyIsEmptyBody | RxSTOMP/Core/RxSTOMPFrame.swift:223-227 | a frame without a body and one with an empty body are written the same |
| Framer.SegmentFrameFiltered | RxSTOMP/Core/RxSTOMPParser.swift:29-36 | dropping leading empty lines and parsing, as the loop body does, gives the frame of the segment |
| Framer.SegmentFrameMeaning | RxSTOMP/Core/RxSTOMPParser.swift:29-40 | a segment yields at most one frame, exactly when its filtered text is non-empty and parses; that frame is the parse and never a heartbeat |
| Framer.SegmentFramesAppend | RxSTOMP/Core/RxSTOMPParser.swift:27-41 | the frames of two runs of segments are the frames of the first followed by those of the second |
| Framer.SegmentFramesLaws | RxSTOMP/Core/RxSTOMPParser.swift:27-41 | at most one frame per segment; every frame is the parse of some segment, and none is a heartbeat |
| Framer.FaultIsolation | RxSTOMP/Core/RxSTOMPParser.swift:28-40 | a segment that fails to parse is skipped, and the segments around it still yield their frames |
| Framer.Feed | RxSTOMP/Core/RxSTOMPParser.swift:18-45 | text without a NUL, unless it is a lone line feed, waits whole in the buffer and yields nothing; otherwise the buffer is cleared and the frames are those of every NUL-separated segment |
| Framer.FeedFrames | RxSTOMP/Core/RxSTOMPParser.swift:18-45 | once a NUL has arrived, or the text is a lone line feed, one call returns the frames of all segments of the buffer; before that it returns none; at most one frame per segment and never a heartbeat |
| Framer.FeedLoop | RxSTOMP/Core/RxSTOMPParser.swift:18-45 | the loop over the segments, as written, computes what `Feed` states |
| Framer.FeedDropsRemainder | RxSTOMP/Core/RxSTOMPParser.swift:43 | text after the last NUL is not kept |
| Framer.FeedRetainingLaws | RxSTOMP/Core/RxSTOMPParser.swift:17-22 | the retaining framer buffers exactly the text after the last NUL: a NUL-free suffix that is either the whole text or preceded by a NUL; a text without a NUL is buffered whole |
| Framer.FeedAgreement | RxSTOMP/Core/RxSTOMPParser.swift:18-45 | the framer as written and the retaining framer agree when the text ends in NUL, and when it holds no NUL and is not a lone line feed |
| Framer.FeedRetainingChunkIndependent | RxSTOMP/Core/RxSTOMPParser.swift:18-45 | feeding a text in two chunks to the retaining framer yields the same frames, in order, and the same buffer as feeding it at once |
| Framer.DeliveredMatchesSent | RxSTOMP/Core/RxSTOMPFrame.swift:218-297 | the frame the receiver gets has the sent command, the sent header set and the sent body |
| Framer.FeedStream | RxSTOMP/Core/RxSTOMPParser.swift:18-45 | both framers deliver a stream of complete frames in one call, frame for frame, and keep nothing |
| Framer.FeedRetainingAnyCut | RxSTOMP/Core/RxSTOMPParser.swift:18-45 | wherever a stream of frames is cut into two chunks, the retaining framer delivers every frame exactly once and keeps nothing |
| Framer.FeedLosesSplitFrame | RxSTOMP/Core/RxSTOMPParser.swift:24-43 | two SEND frames cut after "SE" of the second: the framer as written delivers one frame, while one call on the whole text, and the retaining framer on the two chunks, deliver both |
| HeaderEquality.PairEqualIsHashEqual | RxSTOMP/Core/RxSTOMPFrame.swift:156-158 | headers with the same key and value are equal under every string hash |
| HeaderEquality.AsWrittenDropsPresentPairs | RxSTOMP/Core/RxSTOMPFrame.swift:191-193 | inserting under the declared equality drops every header that pair insertion drops, and otherwise does the same |
| HeaderEquality.SwappedHeadersEqual | RxSTOMP/Core/RxSTOMPFrame.swift:156-158 | a header and the header with key and value swapped are equal under every string hash, although their pairs differ |
| HeaderEquality.EchoHeadersEqual | RxSTOMP/Core/RxSTOMPFrame.swift:156-158 | every header whose value repeats its key hashes to zero, so all such headers are equal |
| HeaderEquality.SwappedHeaderLost | RxSTOMP/Core/RxSTOMPFrame.swift:286-291 | the frame with headers "a:b" and "b:a" is sent with two headers; read back under the declared equality it has one, whatever the hash, and under pair equality it has two |
| HeaderEquality.SwappedFrameReadsBack | RxSTOMP/Core/RxSTOMPFrame.swift:263-297 | under pair equality, that frame reads back with both pairs |
| Heartbeat.ParseDecimal | RxSTOMP/Core/RxSTOMPStream.swift:132 | a number is read exactly from a non-empty run of digits |
| Heartbeat.DecimalRoundTrip | RxSTOMP/Core/RxSTOMPStream.swift:132 | reading the numeral of any natural number gives back that number |
| Heartbeat.DigitsRoundTrip | RxSTOMP/Core/RxSTOMPStream.swift:132 | writing the value of a digit run without a leading zero gives back the digit run |
| Heartbeat.HeartbeatPeriod | RxSTOMP/Core/RxSTOMPStream.swift:130-135 | there is a timer exactly when the text before the first comma is a numeral; its interval in seconds is 0.8 times that many milliseconds, and never negative |
| Heartbeat.PeriodUsesFirstComponent | RxSTOMP/Core/RxSTOMPStream.swift:131 | whatever follows the first comma does not change the interval |
| Heartbeat.PeriodOfNumeral | RxSTOMP/Core/RxSTOMPStream.swift:130-135 | the value "n" or "n,…" gives an interval of n·0.8/1000 seconds |
| Connection.ConnectFrame | RxSTOMP/Core/RxSTOMPStream.swift:85-89 | `auth` builds a CONNECT frame, written "STOMP", with seven headers and no body |
| Connection.ConnectFramePairs | RxSTOMP/Core/RxSTOMPStream.swift:87 | its headers carry host, accept-version, login, passcode, device_id, heart-beat and receipt under seven different keys |
| Connection.ConnectFrameHeaders | RxSTOMP/Core/RxSTOMPStream.swift:87 | the header set is exactly host=localhost, accept-version=1.2, the credentials, heart-beat=10000,10000 and the receipt, all distinct |
| Connection.ConnectFrameReadsBack | RxSTOMP/Core/RxSTOMPStream.swift:85-89 | with credentials free of colons and line feeds, the server reads the CONNECT frame back as STOMP with the same header set and an empty body |
| Connection.DisconnectFrameText | RxSTOMP/Core/RxSTOMPStream.swift:80 | `disconnect` writes a DISCONNECT frame with the single header receipt:foo |
| Connection.HeartbeatIsNotPingFrame | RxSTOMP/Core/RxSTOMPStream.swift:138 | a heart-beat tick writes one line feed, not the written form of the heartbeat frame |
| Connection.HeartbeatTimers | RxSTOMP/Core/RxSTOMPStream.swift:118-123 | at most one timer per header, and every new timer is live |
| Connection.HeartbeatTimersLaws | RxSTOMP/Core/RxSTOMPStream.swift:118-135 | there is no timer exactly when no header is keyed "heart-beat" with a value whose first component is a numeral; every timer runs with the period of such a header |
| Connection.HeartbeatTimerOfHeader | RxSTOMP/Core/RxSTOMPStream.swift:118-135 | a single header schedules one live timer with its period when it is such a header, and none otherwise |
| Connection.HeartbeatTimersAppend | RxSTOMP/Core/RxSTOMPStream.swift:118-123 | the headers are visited in order: the timers of a concatenation are those of its parts, in order |
| Connection.ValidateLaws | RxSTOMP/Core/RxSTOMPStream.swift:105-127 | `Connection.Validate` (`validate(frames:)`), which passes each frame to `Connection.SystemMessage` (`parseSystemMessages`) and then forwards it, forwards every frame unchanged and in order, emits `auth` immediately before each CONNECTED frame and no other state event, appends the heart-beat timers of the CONNECTED frames and cancels none, and leaves the buffer and the socket alone |
| Connection.EmittedLaws | RxSTOMP/Core/RxSTOMPStream.swift:105-112 | what a batch emits forwards the batch, holds one `auth` per CONNECTED frame and no other state event, each `auth` immediately before its CONNECTED frame |
| Connection.InvalidateHeld | RxSTOMP/Core/RxSTOMPStream.swift:170 | only the held timer, the last one scheduled, is invalidated; the others are unchanged |
| Connection.ConnectEvents | RxSTOMP/Core/RxSTOMPStream.swift:68-77 | `connect` emits `connecting`, then `disconnected` exactly when dialling throws, and nothing else; it dials localhost:7891 exactly when dialling does not throw; it forwards nothing |
| Connection.SocketEvents | RxSTOMP/Core/RxSTOMPStream.swift:149-171 | the socket's connect callback emits `connected` when the socket reports it is connected, and does nothing otherwise; its disconnect callback emits `disconnected` and invalidates only the held timer |
| Connection.ReadEvents | RxSTOMP/Core/RxSTOMPStream.swift:157-165 | a read hands buffer and chunk to the framer as written: without a NUL the text waits in the buffer and nothing is emitted; with one the buffer is emptied, every frame the framer yields is forwarded unchanged and in order, `auth` comes immediately before each CONNECTED frame and no other state event is emitted, their timers are scheduled, and nothing is written |
| Connection.SplitReadForwardsOne | RxSTOMP/Core/RxSTOMPStream.swift:157-159 | two SEND frames arriving in two reads cut after "SE" of the second: the stream forwards only the first |
| Connection.WriteEvents | RxSTOMP/Core/RxSTOMPStream.swift:79-103 | `auth`, `disconnect` and `sendFrame` write frames in their text form; `disconnect` writes DISCONNECT and then closes; none emits anything |
| Connection.TimerEvents | RxSTOMP/Core/RxSTOMPStream.swift:135-141 | a tick of a live timer writes one line feed; a tick of an invalidated or unknown timer does nothing |
| Connection.StepKeepsInvariant | RxSTOMP/Core/RxSTOMPStream.swift:68-171 | `Connection.Step`, the public calls and socket and timer callbacks as one transition per event, keeps four facts: one `auth` event per CONNECTED frame forwarded, every `auth` immediately before a forwarded CONNECTED frame and every forwarded CONNECTED frame immediately after an `auth`, no heartbeat frame forwarded, and every write either a frame text ending in NUL or the heart-beat line feed |
| Connection.RunKeepsInvariant | RxSTOMP/Core/RxSTOMPStream.swift:68-171 | every run of events keeps that invariant |
| Connection.AuthPerConnected | RxSTOMP/Core/RxSTOMPStream.swift:105-127 | after any run from a fresh stream, the `auth` events number exactly the CONNECTED frames forwarded, each comes immediately before its frame, and no heartbeat frame is forwarded |
| Connection.TimerOutlivesDisconnect | RxSTOMP/Core/RxSTOMPStream.swift:130-144 | after two CONNECTED frames with a heart-beat, a disconnect invalidates only the second timer; the first still ticks and writes a line feed |
| Text.JoinSplit | RxSTOMP/Core/RxSTOMPParser.swift:29-33 | joining the pieces of a split gives back the text |
| Text.SplitJoin | RxSTOMP/Core/RxSTOMPParser.swift:29-33 | splitting the join of pieces free of the separator gives back the pieces |
| Text.DropLeadingEmptyStrips | RxSTOMP/Core/RxSTOMPParser.swift:29-33 | dropping the leading empty lines and joining strips the leading line feeds |

## Left out

- Sockets, dispatch queues and the Rx subjects. A socket read is an event that carries its chunk. Dialling success is a parameter of the connect event. Writes, dials and closes are logged as actions. The state events and the forwarded frames are logged together, in the order the stream emits them, so that the log shows each `auth` coming before its CONNECTED frame.
- Read and write timeouts and tags, the byte counters, the `readData` requests after each read, and logging. None of them affects a frame or a state event.
- UTF-8 decoding. Text is a sequence of characters. A chunk that is not valid UTF-8 makes the Swift framer return nothing and keep its buffer; that path is not modelled.
- The device identifier and the receipt UUID of `auth` are parameters of the event.
- Timer scheduling on the main queue. A timer is scheduled at once, and its ticks are events that name the timer.
- Whether the DISCONNECT frame reaches the wire before the socket closes. That depends on the socket library, which is not part of this model.
- Heartbeat.ParseDecimal: models `Double(String)` on digit strings only. Signs, fractions, exponents, "inf" and "nan" are left out.
- Heartbeat.HeartbeatPeriod: computes in exact reals, not in binary floating point. A negative or non-numeric interval cannot arise from digit strings.
- Connection.ConnectFrame: its headers are built with pair equality. Under the source's hash equality, a login of "passcode" with a passcode of "login" would leave the Swift set with six headers.
- HeaderEquality.HashEqual: string hashes are an arbitrary function. Collisions beyond the ones XOR forces for every hash (swapped and key-equals-value headers) depend on the process seed and are not modelled.
- The rest of the model (Frames, Framer, Connection) compares headers by their (key, value) pair. This is the corrected equality of the second Findings row.
- Set iteration order is modelled as insertion order. The clauses below that speak of header order hold for that order only; the Swift set may iterate its headers in any order, and every `PairSet` clause holds whatever the order.
- FrameLaws.RoundTrip: its clause that distinct headers come back as the same sequence holds for insertion order; the header-set clause holds for every order.
- FrameLaws.InsertAllFresh: "appended in order" is insertion order, not the Swift set's iteration order.
- FrameLaws.ParseFrameText: the header sequence it gives is in line order, which the Swift set need not keep.
- Connection.WriteEvents: the CONNECT text that `auth` writes lists its header lines in insertion order; `description` lists them in the set's iteration order, so only the set of header lines is fixed by the code.
- Frames.Frame.Message: with several message headers, which value is returned depends on iteration order; the model returns the first inserted. The same holds for Frames.Frame.Destination.
- Connection.HeartbeatTimers: with several heart-beat headers in one CONNECTED frame, the timer held last, the one a disconnect invalidates, is the last in iteration order; the model uses insertion order.
- The example app and the configuration's queue, timeout and tag constants are not part of this model. Only the host and the port appear, in `Connection.NetworkHost` and `Connection.NetworkPort` (RxSTOMP/Core/RxSTOMPConfiguration.swift:13-14).

## Findings

| source | as written | input that shows it | evidently intended | confidence | as-written member | corrected member |
|---|---|---|---|---|---|---|
| RxSTOMP/Core/RxSTOMPParser.swift:24-43 | after any NUL the whole buffer is cleared, so a frame split across two reads loses its first part, and the rest is then parsed as a frame of its own | "SEND\n\n\0SE" then "ND\n\n\0": the first read delivers one SEND; the second sees "ND", which names no command, and delivers nothing | keep the text after the last NUL for the next read, so frames are delivered however the stream is cut | high, not executed | Framer.FeedLosesSplitFrame | Framer.FeedRetainingAnyCut |
| RxSTOMP/Core/RxSTOMPFrame.swift:156-158, 191-193 | headers are equal when the XOR of the key hash and the value hash is equal, so swapped headers, and any two headers whose value repeats their key, are equal for every hash | a frame with headers "a:b" and "b:a": the header set read back keeps one of them | headers equal exactly when key and value are | high, not executed | HeaderEquality.SwappedHeaderLost | HeaderEquality.SwappedFrameReadsBack |
