# CAN text relay: codec, cache and forwarder

This project models the part of the joystick-to-CAN relay that turns values into text and text into frames.
The relay has two programs:

- The **client** samples a joystick. When either reading changes, it builds two 8-byte CAN payloads and sends both as text messages of the form `<ID_HEX>#<DATA_HEX>`. Propulsion goes to id 0x4B3 first, then steering to id 0x4B7.
- The **server** decodes each received message with `std::stoul(…, 16)`. It keeps the latest steering frame and the latest propulsion frame in a two-slot cache. Every tick, a forwarder writes the present slots to a serial line as `<ID_HEX>#<DATA_HEX>\n`.

Modules:

- `Hex` (hex.dfy): hex digits and numerals. It covers what `std::hex << std::uppercase` prints, zero padding, and the value a numeral denotes.
- `CLib` (clib.dfy): `std::stoul(s, nullptr, 16)` for a 32-bit `unsigned long`, following ISO C `strtoul`:
  - leading white space is skipped, then an optional `+` or `-`;
  - a `0x`/`0X` prefix is skipped only when a hex digit follows it;
  - then comes the longest run of hex digits; anything after it is ignored;
  - no digit at all, or a value of 2^32 or more, is a failure (the `invalid_argument` and `out_of_range` exceptions);
  - a minus sign negates the value modulo 2^32.
- `Frames` (frames.dfy): `struct can_frame` as a value whose `data` holds exactly its dlc bytes. Also the `<id>#<bytes>` text shape both programs print, and the byte-printing loop they share.
- `Client` (client.dfy):
  - `createCANFrameString`;
  - the two payload layouts;
  - the edge-triggered send loop of `main`, over an abstract sample type with equality.
- `Server` (server.dfy):
  - `parseCANFrameString` as the function `Decode` and as the loop method `ParseCANFrame`;
  - the serial line of `sendFrameOverSerial`;
  - the cache globals as the class `FrameCache`: its `HandleMessage` method is the routing body of `handleRequest`, and its `Tick` method is one pass of `periodicSender`;
  - the read loop of one connection as `HandleConnection`, which stops at the first empty frame;
  - the same cache as pure state (`CacheState`, `Receive`, `ReceiveAll`, `ForwardLines`), which the lemmas are about.
- `Relay` (relay.dfy): the two programs together:
  - round trips between the client's encoder and the server's decoder;
  - the server decoding its own serial lines;
  - what the cache and the forwarder hold after the client's messages arrive.

Three behaviours of the code that a reader of the wire format might not expect:

- The id is not rejected on non-hex content. `stoul` reads the leading run of digits, so `"4B7zz#…"` decodes with id 0x4B7.
- Byte pairs are read by `stoul` as well, so lowercase digits are accepted. So are a leading space or sign (`"-1"` reads as 0xFF once cast to a byte) and a lone leading digit (`"0G"` reads as 0).
- The server's serial line does not pad the id, while the client pads it to three digits.

## Model

| member | source | states |
|---|---|---|
| Hex.ToHex | sdl2-dataServer/sdl2-dataServer.cpp:64 | `std::hex << std::uppercase << n` prints a non-empty numeral of uppercase digits that denotes n, with no leading zero unless it is "0"; it has at most 2 digits below 0x100 and at least 3 from 0x100 |
| Hex.PadZeroDigits | sdl2-dataClient/sdl2-dataClient.cpp:36 | `setw(3) << setfill('0')` pads a shorter numeral with leading zeros to exactly the width, keeps its value and digits, and never truncates a longer one |
| Hex.PadZero | sdl2-dataClient/sdl2-dataClient.cpp:36 | left padding with `0` to a width; PadZeroDigits states its length, digits and value |
| Hex.TwoDigitValue | sdl2-dataServer/sdl2-dataServer.cpp:87 | two hex digits denote d0*16 + d1, which is below 0x100 |
| CLib.SkipSpace | sdl2-dataServer/sdl2-dataServer.cpp:82 | the leading white space `strtoul` skips; SkipSpaceSuffix and SkipSpaceOf state what is skipped and what remains |
| CLib.HexRunLength | sdl2-dataServer/sdl2-dataServer.cpp:82 | the length of the leading digit run, at most the text's length; HexRunLengthAt states that it ends at the first non-digit |
| CLib.HexPrefix | sdl2-dataServer/sdl2-dataServer.cpp:82 | the value of the leading digit run; HexPrefixOfDigits and HexPrefixNone state when there is one and what it is |
| CLib.StripPrefix | sdl2-dataServer/sdl2-dataServer.cpp:82 | the `0x`/`0X` prefix is dropped only when a hex digit follows; ParseHexPrefix and ParseBarePrefix state both cases |
| CLib.ParseMagnitude | sdl2-dataServer/sdl2-dataServer.cpp:82 | the unsigned part of `strtoul` with the `out_of_range` check: any value it gives is below 2^32 |
| CLib.ParseSigned | sdl2-dataServer/sdl2-dataServer.cpp:82 | the optional sign: any value it gives is below 2^32; PlusSign and MinusSign state what each sign does |
| CLib.ParseUnsignedLong | sdl2-dataServer/sdl2-dataServer.cpp:82 | `std::stoul(s, nullptr, 16)` for a 32-bit `unsigned long`: any value it gives is below 2^32; the lemmas that follow state when it succeeds and with what |
| CLib.ParseAllDigits | sdl2-dataServer/sdl2-dataServer.cpp:82 | a string of hex digits reads as its value when that is below 2^32, and fails otherwise |
| CLib.ParseDigits | sdl2-dataServer/sdl2-dataServer.cpp:82 | digits followed by anything that does not continue them read as the digits' value, or fail when out of range; only after a lone `0` must the rest not start with `x`/`X` |
| CLib.ParseUnsigned | sdl2-dataServer/sdl2-dataServer.cpp:82 | text that starts with neither white space nor a sign is read as a magnitude |
| CLib.MagnitudeOfDigits | sdl2-dataServer/sdl2-dataServer.cpp:82 | the magnitude of a digit run followed by a non-digit is the run's value if it is below 2^32, unless a lone `0` is followed by `x`/`X` |
| CLib.ParseNeedsDigit | sdl2-dataServer/sdl2-dataServer.cpp:82 | a text with no hex digit at all, the empty text included, makes `stoul` fail |
| CLib.ParseNoLeadingDigit | sdl2-dataServer/sdl2-dataServer.cpp:82 | a text starting with neither white space, a sign nor a hex digit fails, whatever follows, as `"G4B7"` does |
| CLib.MagnitudeNeedsDigit | sdl2-dataServer/sdl2-dataServer.cpp:82 | a magnitude text with no hex digit fails |
| CLib.ParsePlainDigits | sdl2-dataServer/sdl2-dataServer.cpp:82 | `"4B7"` reads as 0x4B7 |
| CLib.ParseSpaceAndPlus | sdl2-dataServer/sdl2-dataServer.cpp:82 | leading white space and a `+` sign in front of a numeral do not change what is read |
| CLib.ParseNegated | sdl2-dataServer/sdl2-dataServer.cpp:82 | `-` in front of digits of value v reads as 0 for v = 0 and as 2^32 - v for 0 < v < 2^32; it fails when v is out of range |
| CLib.MinusSign | sdl2-dataServer/sdl2-dataServer.cpp:82 | a leading minus negates the magnitude modulo 2^32, and fails when the magnitude fails |
| CLib.ParseHexPrefix | sdl2-dataServer/sdl2-dataServer.cpp:82 | `0x` or `0X` followed by digits reads as those digits' value |
| CLib.ParseBarePrefix | sdl2-dataServer/sdl2-dataServer.cpp:82 | `0x` with no hex digit after it reads as 0 |
| CLib.ParseOutOfRange | sdl2-dataServer/sdl2-dataServer.cpp:82 | `"100000000"` (2^32) is out of range for a 32-bit `unsigned long` and fails |
| CLib.SkipSpaceSuffix | sdl2-dataServer/sdl2-dataServer.cpp:82 | what `strtoul` skips is a prefix of white space; what remains is a suffix that does not start with white space |
| CLib.SkipSpaceOf | sdl2-dataServer/sdl2-dataServer.cpp:82 | white space followed by a non-space text is skipped exactly |
| CLib.HexRunLengthAt | sdl2-dataServer/sdl2-dataServer.cpp:82 | the digit run ends exactly at the first non-digit |
| CLib.HexPrefixOfDigits | sdl2-dataServer/sdl2-dataServer.cpp:82 | the leading digit run of digits followed by a non-digit is those digits |
| CLib.HexPrefixNone | sdl2-dataServer/sdl2-dataServer.cpp:82 | there is no leading digit run exactly when the text is empty or starts with a non-digit |
| CLib.ValueOneZeros | sdl2-dataServer/sdl2-dataServer.cpp:82 | a one followed by k zero digits denotes 16^k, which places the `out_of_range` bound |
| Frames.ByteHex | sdl2-dataServer/sdl2-dataServer.cpp:66 | `setw(2) << setfill('0') << (int)b` prints exactly two uppercase digits denoting b |
| Frames.ByteHexDigits | sdl2-dataServer/sdl2-dataServer.cpp:66 | the two characters of a byte are its high nibble's digit followed by its low nibble's digit |
| Frames.HexBytes | sdl2-dataClient/sdl2-dataClient.cpp:37-39 | the printed bytes are exactly 2 uppercase digits per byte |
| Frames.HexBytesPairs | sdl2-dataClient/sdl2-dataClient.cpp:37-39 | pair i of the printed bytes denotes byte i |
| Frames.HexBytesAppend | sdl2-dataClient/sdl2-dataClient.cpp:37-39 | printing a concatenation prints the parts one after the other |
| Frames.HexBytesSnoc | sdl2-dataClient/sdl2-dataClient.cpp:37-39 | one more loop iteration appends that byte's two digits |
| Frames.AppendHexBytes | sdl2-dataServer/sdl2-dataServer.cpp:65-67 | the byte-printing loop of both programs leaves the prefix followed by the printed bytes |
| Frames.FrameTextShape | sdl2-dataClient/sdl2-dataClient.cpp:36-39 | in `<id>#<bytes>`, with an id of hex digits, the `#` stands right after the id and is the only one, and the printed bytes follow it |
| Frames.FrameTextFormat | sdl2-dataClient/sdl2-dataClient.cpp:36-39 | the same shape, with each payload pair read back as its byte |
| Frames.SeparatorShape | sdl2-dataClient/sdl2-dataClient.cpp:36 | a `#` between two digit strings is the only `#` and splits them back |
| Client.Encode | sdl2-dataClient/sdl2-dataClient.cpp:34-41 | `createCANFrameString` as a function; EncodeFormat states its layout and Relay.RoundTrip its inverse |
| Client.EncodeFormat | sdl2-dataClient/sdl2-dataClient.cpp:34-41 | the encoding is at least 3 uppercase digits denoting the id (with a leading zero only as padding), the only `#`, then exactly 2*dlc uppercase digits with pair i denoting byte i, and none when dlc is not positive |
| Client.EncodeHasSeparator | sdl2-dataClient/sdl2-dataClient.cpp:36 | every encoding contains `#`, so the client never sends an empty frame |
| Client.CreateCANFrameString | sdl2-dataClient/sdl2-dataClient.cpp:34-41 | the method that reads the caller's buffer in a loop produces exactly the specified encoding of its first dlc bytes |
| Client.PropulsionPayload | sdl2-dataClient/sdl2-dataClient.cpp:124-126 | the propulsion payload 0x01, the power byte, six zeros; PropulsionData fills a buffer with it and PropulsionMessageText gives its text |
| Client.SteeringPayload | sdl2-dataClient/sdl2-dataClient.cpp:130-131 | the steering payload, the steering byte and seven zeros; SteeringData fills a buffer with it and SteeringMessageText gives its text |
| Client.UpdateMessages | sdl2-dataClient/sdl2-dataClient.cpp:127-138 | the propulsion message, then the steering message; Relay.DeliverUpdate states what they leave in the cache |
| Client.PropulsionData | sdl2-dataClient/sdl2-dataClient.cpp:124-126 | a fresh 8-byte buffer holding 0x01, the power byte, then six zeros |
| Client.SteeringData | sdl2-dataClient/sdl2-dataClient.cpp:130-131 | a fresh 8-byte buffer holding the steering byte, then seven zeros |
| Client.PropulsionPayloadHex | sdl2-dataClient/sdl2-dataClient.cpp:124-126 | the propulsion payload prints as `01`, the power byte's digits, then twelve zeros |
| Client.SteeringPayloadHex | sdl2-dataClient/sdl2-dataClient.cpp:130-131 | the steering payload prints as the steering byte's digits, then fourteen zeros |
| Client.PropulsionMessageText | sdl2-dataClient/sdl2-dataClient.cpp:124-127 | the propulsion message is `4B3#01`, the power byte's two digits, then twelve zeros |
| Client.SteeringMessageText | sdl2-dataClient/sdl2-dataClient.cpp:130-132 | the steering message is `4B7#`, the steering byte's two digits, then fourteen zeros |
| Client.PropulsionExample | sdl2-dataClient/sdl2-dataClient.cpp:124-127 | power 0x32 gives `"4B3#0132000000000000"` |
| Client.SteeringExample | sdl2-dataClient/sdl2-dataClient.cpp:130-132 | steering byte 0xFF gives `"4B7#FF00000000000000"` |
| Client.ToHexPropulsionId | sdl2-dataClient/sdl2-dataClient.cpp:127 | id 0x4B3 prints as `4B3` |
| Client.ToHexSteeringId | sdl2-dataClient/sdl2-dataClient.cpp:132 | id 0x4B7 prints as `4B7` |
| Client.HexBytesNull | sdl2-dataClient/sdl2-dataClient.cpp:124 | k zero bytes print as 2k zeros |
| Client.Step | sdl2-dataClient/sdl2-dataClient.cpp:120-122 | a send is attempted exactly when the sample differs from the staged pair, and afterwards the staged pair is the sample |
| Client.Run | sdl2-dataClient/sdl2-dataClient.cpp:92-148 | after the loop the staged pair is the last sample, or the initial pair when there was none |
| Client.RunSendsPerChange | sdl2-dataClient/sdl2-dataClient.cpp:120-138 | exactly two messages are sent per sample that differs from its predecessor, and no others |
| Client.RunMessagesHaveSeparator | sdl2-dataClient/sdl2-dataClient.cpp:135-138 | every message the loop sends contains `#`, so none is empty |
| Client.UnchangedSendsNothing | sdl2-dataClient/sdl2-dataClient.cpp:120 | samples equal to the staged pair send nothing and leave the staged pair alone |
| Client.RunExtend | sdl2-dataClient/sdl2-dataClient.cpp:120-138 | one more sample adds one edge-trigger step: the propulsion and steering messages when it changed, nothing otherwise |
| Client.ControlLoop | sdl2-dataClient/sdl2-dataClient.cpp:92-148 | the polling loop, which builds the payload buffers and messages as the source does, leaves the staged pair and the sent messages that the run specifies |
| Server.FirstIndex | sdl2-dataServer/sdl2-dataServer.cpp:78 | `find('#')` is npos exactly when there is no `#`; otherwise it is the position of a `#` with none before it |
| Server.ParseByte | sdl2-dataServer/sdl2-dataServer.cpp:87 | `static_cast<uint8_t>(std::stoul(pair, nullptr, 16))`; PairParses states when it succeeds and ParseByteOfSmall and Relay.ParseBytePair what it gives |
| Server.LowByte | sdl2-dataServer/sdl2-dataServer.cpp:87 | the `uint8_t` cast; LowByteIsModulo states it keeps the value modulo 0x100 |
| Server.LowByteIsModulo | sdl2-dataServer/sdl2-dataServer.cpp:87 | the cast to `uint8_t` keeps the value modulo 0x100 |
| Server.ParseByteOfSmall | sdl2-dataServer/sdl2-dataServer.cpp:87 | a pair read as a value below 0x100 gives that byte |
| Server.ParseBytes | sdl2-dataServer/sdl2-dataServer.cpp:86-88 | a successful pair loop fills exactly n bytes |
| Server.ParseBytesMeaning | sdl2-dataServer/sdl2-dataServer.cpp:86-93 | the pair loop succeeds exactly when every pair parses, and then byte i is the value of pair i |
| Server.Decode | sdl2-dataServer/sdl2-dataServer.cpp:77-79 | a message without `#` is rejected; a decoded frame has at most 8 bytes |
| Server.DecodeParts | sdl2-dataServer/sdl2-dataServer.cpp:82-93 | a frame decoded from the two parts has at most 8 bytes |
| Server.ParseCANFrame | sdl2-dataServer/sdl2-dataServer.cpp:77-94 | the method form, which reads the pairs in a loop and stops at the first failure, returns exactly the decoded frame |
| Server.DecodeSplit | sdl2-dataServer/sdl2-dataServer.cpp:78-83 | the message is split at the first `#`: the id is what comes before it and the payload is what comes after |
| Server.DecodePartsMeaning | sdl2-dataServer/sdl2-dataServer.cpp:82-93 | decoding succeeds exactly when the id and all dlc = min(len/2, 8) pairs parse; then the id is what `stoul` read, the frame has dlc bytes, and byte i is pair i |
| Server.DecodeParsed | sdl2-dataServer/sdl2-dataServer.cpp:77-94 | an id and bytes that parse give exactly that frame |
| Server.FirstIndexAfter | sdl2-dataServer/sdl2-dataServer.cpp:78 | the first `#` after a `#`-free id is at the id's length |
| Server.DecodeOnlyPairsMatter | sdl2-dataServer/sdl2-dataServer.cpp:83-88 | payload text that leaves dlc unchanged can be appended without changing the outcome |
| Server.DecodeSameParts | sdl2-dataServer/sdl2-dataServer.cpp:82-88 | ids read alike and payloads with the same dlc and the same pairs decode alike |
| Server.DecodeDropsOddNibble | sdl2-dataServer/sdl2-dataServer.cpp:84 | a trailing odd nibble is dropped |
| Server.DecodeIgnoresBeyondEightBytes | sdl2-dataServer/sdl2-dataServer.cpp:84 | nothing after the 16th payload character is read |
| Server.DecodeEmptyId | sdl2-dataServer/sdl2-dataServer.cpp:82 | an empty id makes decoding fail |
| Server.DecodeExamples | sdl2-dataServer/sdl2-dataServer.cpp:79 | `"nohash"`, `""` and `"ping"` do not decode |
| Server.PairParses | sdl2-dataServer/sdl2-dataServer.cpp:87 | a byte pair parses exactly when it starts with a hex digit, or with white space or a sign followed by one |
| Server.DecodeBadPair | sdl2-dataServer/sdl2-dataServer.cpp:87-92 | a needed pair `stoul` cannot read, such as `GZ` or `G1`, makes the whole decode fail |
| Server.DecodeBadPairExample | sdl2-dataServer/sdl2-dataServer.cpp:87-92 | `"4B3#GZ"` does not decode |
| Server.DecodeIdNoLeadingDigit | sdl2-dataServer/sdl2-dataServer.cpp:82 | an id starting with neither white space, a sign nor a hex digit makes the decode fail |
| Server.DecodeIdTrailingJunk | sdl2-dataServer/sdl2-dataServer.cpp:82 | junk after the id's leading digits is ignored, as in `"4B7x#01"`, unless it turns a lone `0` into a `0x` prefix |
| Server.FormatSerialLine | sdl2-dataServer/sdl2-dataServer.cpp:62-68 | the method that builds the line with a loop produces exactly the specified serial line |
| Server.SerialLine | sdl2-dataServer/sdl2-dataServer.cpp:63-68 | the serial line as a function; SerialLineFormat states its layout and Relay.SerialLineDecodes its inverse |
| Server.SerialLineFormat | sdl2-dataServer/sdl2-dataServer.cpp:63-68 | the serial line is the id's shortest uppercase numeral, the only `#`, exactly 2*dlc uppercase digits with pair i denoting byte i, then a newline |
| Server.Route | sdl2-dataServer/sdl2-dataServer.cpp:131-139 | routing never clears a presence flag, and keeps each slot holding a valid frame of its own id |
| Server.Receive | sdl2-dataServer/sdl2-dataServer.cpp:126-139 | handling a message never clears a presence flag, and keeps the slot invariant |
| Server.KeepAliveFilterIsRedundant | sdl2-dataServer/sdl2-dataServer.cpp:127 | skipping `""` and `"ping"` gives the same state as routing whatever decodes |
| Server.ReceiveIgnores | sdl2-dataServer/sdl2-dataServer.cpp:127-140 | a message that is empty, `"ping"`, undecodable or for another id leaves the whole cache unchanged |
| Server.ReceiveReplacesSlot | sdl2-dataServer/sdl2-dataServer.cpp:132-139 | a 0x4B7 frame wholly replaces the steering slot and sets its flag, and a 0x4B3 frame does the same for propulsion; nothing else changes |
| Server.LatestWins | sdl2-dataServer/sdl2-dataServer.cpp:133-138 | of two successive frames for one slot, only the second remains |
| Server.PresenceNeverReverts | sdl2-dataServer/sdl2-dataServer.cpp:35-36 | over any sequence of messages no presence flag goes from true to false, and the slot invariant holds |
| Server.SteeringKept | sdl2-dataServer/sdl2-dataServer.cpp:132-135 | the steering slot and its flag stay unchanged until a steering frame arrives |
| Server.PropulsionKept | sdl2-dataServer/sdl2-dataServer.cpp:136-139 | the propulsion slot and its flag stay unchanged until a propulsion frame arrives |
| Server.ReceiveAll | sdl2-dataServer/sdl2-dataServer.cpp:122-141 | the read loop of one connection, ending at the first empty frame; PresenceNeverReverts, SteeringKept and PropulsionKept state what it keeps |
| Server.ReceiveAllTwo | sdl2-dataServer/sdl2-dataServer.cpp:122-141 | two frames are handled one after the other, unless the first is empty and ends the connection |
| Server.ReceiveAllAppend | sdl2-dataServer/sdl2-dataServer.cpp:122-141 | frames after a sequence are handled after it, unless the sequence held an empty frame, which ends the connection |
| Server.ForwardLines | sdl2-dataServer/sdl2-dataServer.cpp:101-107 | a tick emits exactly the present slots' serial lines, steering first, so 0, 1 or 2 lines |
| Server.FrameCache.constructor | sdl2-dataServer/sdl2-dataServer.cpp:33-36 | the cache starts with zeroed 8-byte frames for 0x4B7 and 0x4B3 and neither flag set |
| Server.FrameCache.HandleMessage | sdl2-dataServer/sdl2-dataServer.cpp:126-140 | the handler's new fields are exactly those of handling the message on the old state, and the slot invariant is kept |
| Server.FrameCache.HandleConnection | sdl2-dataServer/sdl2-dataServer.cpp:122-141 | the read loop leaves exactly the state of handling the frames in order up to the first empty one, and keeps the slot invariant |
| Server.FrameCache.Store | sdl2-dataServer/sdl2-dataServer.cpp:131-139 | storing a decoded frame updates exactly the slot of its id (if any) and keeps the invariant |
| Server.FrameCache.Tick | sdl2-dataServer/sdl2-dataServer.cpp:101-107 | the tick writes exactly the forwarded lines and does not change the cache |
| Relay.ParseBytePair | sdl2-dataServer/sdl2-dataServer.cpp:87 | two hex digits parse as the byte they denote |
| Relay.DecodeFrameText | sdl2-dataServer/sdl2-dataServer.cpp:77-94 | `<id>#<bytes>`, with at most one stray character after it (any number after 8 bytes), decodes to the id and the first min(n, 8) bytes |
| Relay.PayloadPairs | sdl2-dataServer/sdl2-dataServer.cpp:84-88 | the printed bytes plus such a tail give dlc = min(n, 8), and each of those pairs reads back as its byte |
| Relay.DecodeEncode | sdl2-dataServer/sdl2-dataServer.cpp:77-94 | decoding the client's encoding (sdl2-dataClient.cpp:34-41) of n bytes gives the id and the first min(n, 8) bytes |
| Relay.RoundTrip | sdl2-dataServer/sdl2-dataServer.cpp:77-94 | for at most 8 bytes, decoding the client's encoding gives exactly the encoded frame |
| Relay.RoundTripTruncates | sdl2-dataServer/sdl2-dataServer.cpp:84 | for more than 8 bytes, decoding gives the first 8 |
| Relay.SerialLineDecodes | sdl2-dataServer/sdl2-dataServer.cpp:63-68 | the server's own serial line decodes back to its frame, because the newline is a dropped odd nibble |
| Relay.SerialLineIsEncodingWithNewline | sdl2-dataServer/sdl2-dataServer.cpp:64 | for ids of 0x100 or more, the serial line is the client's encoding plus a newline |
| Relay.DecodeSteeringExample | sdl2-dataServer/sdl2-dataServer.cpp:77-94 | `"4B7#FF00000000000000"` decodes to id 0x4B7 with bytes FF,0,0,0,0,0,0,0 |
| Relay.DeliverUpdate | sdl2-dataServer/sdl2-dataServer.cpp:122-139 | whatever the cache held, one update's two messages leave exactly that update's frames in it, both flags set |
| Relay.ForwardAfterUpdate | sdl2-dataServer/sdl2-dataServer.cpp:101-107 | the next tick then writes the steering line and then the propulsion line, each the client's text plus a newline |
| Relay.CacheHoldsLatestSample | sdl2-dataServer/sdl2-dataServer.cpp:127-139 | once the client has sent anything, the cache holds the frames of the latest sample, whatever it held before |

## Left out

- Poco WebSocket and HTTP code is not modelled: `receiveFrame`/`sendFrame`, `connectWebSocket` with its retry loop, the acceptor and the request-handler factory. The received messages are a parameter of `Receive`, `ReceiveAll` and `HandleMessage`, and the sent messages are the result of `ControlLoop`.
- The `websocketPinger` thread, the reconnect race on the shared `WebSocket*`, the mutexes, the atomics and the detached forwarder thread are not modelled. The cache is single-threaded state, and each method body is one locked section.
- The Win32 serial port (`openSerialPort`, `WriteFile`) is not modelled. Only the produced line is kept.
- SDL initialisation, events and joystick polling are not modelled. The samples taken while a joystick is open are the parameter `samples` of `ControlLoop`.
- `mapRangeSteering`, `mapRangePower` and the `double`-to-`uint8_t` casts are floating point. They are the parameters `steeringByte` and `powerByte`. The `double` readings are an abstract type compared with `!=`, so NaN is not modelled.
- Sleeps and periods (40 ms, 100 ms, 2 s, 3 s) and `main`'s startup and shutdown are timing only.
- The uninitialised bytes `data[dlc..8)` of a parsed frame are never read, so a frame's `data` holds exactly dlc bytes.
- The 1024-byte receive buffer is not modelled. A message is a whole string.
- `stoul` follows ISO C `strtoul`. Locale-specific white space and hexadecimal prefixes are not modelled.
- CLib.ParseBarePrefix: follows ISO C, where `0x` not followed by a hex digit reads as the numeral 0. The Microsoft C runtime the server is built with consumes the `0x` before looking for a digit, so there `stoul` finds no number and throws. Under that runtime an id such as `"0x#…"` or a pair `"0x"` fails to decode, while the model reads 0.
- Server.Decode: a message stands for the bytes of the received frame, one char per byte, so every char is below 0x100. The source measures `data.length()` and `substr(i*2, 2)` in bytes. A multi-byte UTF-8 character therefore counts as several bytes there, and a char above 0xFF, which the model would count as one, never occurs.
- Whether `ws->sendFrame` succeeds is not modelled. The staged pair is updated before the send either way.
- Client.Run: its own ensures only states the final staged pair. The messages it produces are characterised by RunSendsPerChange, RunExtend and Relay.CacheHoldsLatestSample.
- Server.Decode: its own ensures only states the missing-`#` failure and the byte bound. The full meaning is in DecodeSplit and DecodePartsMeaning.
