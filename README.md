# xn_web_mqtt_manager — a verified model of its MQTT core

This project models, in Dafny, the three parts of the xn_web_mqtt_manager
repository that carry its MQTT behaviour:

- **`XnMqttClient`**: the server-side PHP client for MQTT 3.1.1
  (`xn_mqtt_server/lib/MqttClient.php`). It builds CONNECT, PUBLISH,
  SUBSCRIBE and DISCONNECT packets, frames and parses packets with the
  variable-length Remaining Length field, and runs the subscribe loop that
  hands each incoming PUBLISH to a callback.
- **The device WiFi command application**: `main/mqtt_app/wifi_config_app.c`.
  It routes messages on `<base>/wifi/<client_id>/<cmd>` to the handlers
  `set`, `get_status`, `get_saved` and `connect_saved`, and publishes its
  replies on `<uplink>/wifi/<client_id>/<sub>`.
- **The Web MQTT manager**: `components/iot_manager_mqtt/src/web_mqtt_manager.c`.
  This is the reconnect state machine (DISCONNECTED, CONNECTING, CONNECTED,
  READY, ERROR) above the MQTT module. It has an event handler, a periodic
  step with tick wrap-around, and initialisation.

The Dafny files:

- **`base.dfy`**: the shared `Option` type, bytes and C strings.
- **`mqtt_codec.dfy`**: the byte-level MQTT encodings as pure functions. Each
  encoding has a decoder and a round-trip lemma.
- **`mqtt_session.dfy`**: one function per client operation over an abstract
  connection `Conn`. A `Peer` stands for the TCP peer. It records:
  - whether something listens;
  - the bytes it will send;
  - how many bytes each `fwrite` call accepts;
  - what it received.

  The lemmas about connect, publish, subscribe and receive are stated on
  these functions.
- **`mqtt_client.dfy`**: the class `Client`, whose fields the methods update
  in place, as the PHP object does. Each method's contract ties the new state
  and the result to the session function. Its loops are:
  - `fwrite` until done;
  - reading Remaining Length byte by byte;
  - receiving until the deadline.
- **`wifi_config_app.dfy`**: the handlers.
  - `set` works in place on a `char[256]` array, with `strchr`, stripping
    and pointer bookkeeping. It is proved equal to a line-by-line parse
    function.
  - `get_saved` builds its JSON in a 512-byte array.
  - `connect_saved` searches the saved list with a loop.
  - Calls into ESP-IDF, the WiFi module and storage are returned as a list
    of `Effect`s.
- **`web_mqtt_manager.dfy`**: the manager.
  - It is a class over the static variables of the C file.
  - `TickType_t` is modelled as a 32-bit counter with explicit wrap-around.
  - Each method is specified by a function on the manager's snapshot.

Where the code and its surrounding documentation disagree, the model follows
the code:

- connect does not close the socket when the write of CONNECT fails;
- subscribeLoop throws without disconnecting when no SUBACK comes;
- readPacket returns a truncated packet when the stream ends inside a body,
  and stops reading Remaining Length after four bytes whatever the
  continuation bit says;
- the manager's step treats a zero error tick as zero elapsed ticks, not as
  "already due": with a positive interval it does not attempt at once
  (`ZeroTickAttemptsOnlyWithoutWait`);
- `connect_saved` does not clamp the count storage reports to 5.

C strings are modelled as Dafny `string`s in which one `char` stands for
one byte, so the buffer limits of 255, 127 and 31 characters are byte
limits as in the C code.

## Model

| member | source | states |
|---|---|---|
| Base.CText | main/mqtt_app/wifi_config_app.c:72-78 | the C string in a buffer is its longest NUL-free prefix, ending at the first NUL |
| MqttCodec.Weight | xn_mqtt_server/lib/MqttClient.php:230-240 | the place value of the k-th Remaining Length digit is positive (128^k) |
| MqttCodec.WeightTable | xn_mqtt_server/lib/MqttClient.php:230-240 | the multiplier takes the values 128, 16384, 2097152 and 268435456 |
| MqttCodec.RemainingLength | xn_mqtt_server/lib/MqttClient.php:191-203 | the encoding sets the continuation bit on every byte but the last |
| MqttCodec.EncodeLength | xn_mqtt_server/lib/MqttClient.php:191-203 | the do/while loop produces exactly the Remaining Length encoding of the length |
| MqttCodec.EncodeStep | xn_mqtt_server/lib/MqttClient.php:193-201 | one loop pass appends the next digit and leaves the rest of the encoding still owed |
| MqttCodec.RemainingLengthSize | xn_mqtt_server/lib/MqttClient.php:191-203 | lengths below 128, 16384, 2097152 and 268435456 take 1, 2, 3 and 4 bytes |
| MqttCodec.DecodeLengthAt | xn_mqtt_server/lib/MqttClient.php:230-240 | decoding ends within four bytes with a value below the next place; it fails exactly when the stream ends on continuation bytes before four |
| MqttCodec.LengthDigit | xn_mqtt_server/lib/MqttClient.php:230-240 | one read digit adds its 7 bits times the multiplier, and the loop continues exactly when the bit is set and fewer than four digits were read |
| MqttCodec.DecodeLength | xn_mqtt_server/lib/MqttClient.php:230-240 | a decoded length uses 1 to 4 bytes and is at most 268435455; failure exactly at a short stream of continuation bytes |
| MqttCodec.DecodeRemainingLengthAt | xn_mqtt_server/lib/MqttClient.php:191-203 | decoding the encoding of m from any place adds m times that place's weight |
| MqttCodec.DecodeContinue | xn_mqtt_server/lib/MqttClient.php:230-240 | a continuation digit adds its value and moves to the next place |
| MqttCodec.DecodeLast | xn_mqtt_server/lib/MqttClient.php:230-240 | a digit without the continuation bit ends the field |
| MqttCodec.DecodeRemainingLength | xn_mqtt_server/lib/MqttClient.php:191-203 | round trip: reading back the encoding of n, whatever follows, gives n and the encoding's size |
| MqttCodec.Be16Injective | xn_mqtt_server/lib/MqttClient.php:185-189 | two big-endian 16-bit pairs with the same value are the same bytes |
| MqttCodec.EncodeString | xn_mqtt_server/lib/MqttClient.php:185-189 | the string follows a 2-byte big-endian prefix holding its length modulo 65536 |
| MqttCodec.EncodeStringExamples | xn_mqtt_server/lib/MqttClient.php:185-189 | "" encodes as 00 00 and "ab" as 00 02 61 62 |
| MqttCodec.DecodeString | xn_mqtt_server/lib/MqttClient.php:265-270 | reading a prefixed string fails exactly when the bytes are fewer than the prefix announces |
| MqttCodec.DecodeStringSound | xn_mqtt_server/lib/MqttClient.php:265-270 | what is read back re-encodes to the input |
| MqttCodec.StringRoundTrip | xn_mqtt_server/lib/MqttClient.php:185-189 | a string shorter than 65536 bytes reads back exactly, leaving what follows |
| MqttCodec.LongStringWraps | xn_mqtt_server/lib/MqttClient.php:185-189 | a string of 65536 bytes or more does not survive: its length prefix wraps |
| MqttCodec.ParsePacket | xn_mqtt_server/lib/MqttClient.php:208-258 | a packet consumes a prefix of the stream; a failed read consumes the whole stream; type and flags are the two nibbles of the first byte |
| MqttCodec.FrameRoundTrip | xn_mqtt_server/lib/MqttClient.php:217-257 | a framed packet is read back with its type, flags and body, leaving what follows |
| MqttCodec.ShortBodyTruncated | xn_mqtt_server/lib/MqttClient.php:242-251 | when the stream ends inside a body, the packet is returned with the bytes that were there |
| MqttCodec.HandlePublish | xn_mqtt_server/lib/MqttClient.php:263-275 | a PUBLISH body is rejected exactly when it is shorter than 2 plus its topic length L; otherwise the topic is body[2..2+L] and the payload body[2+L..], and the two re-encode to the body |
| MqttCodec.HandlePublishExample | xn_mqtt_server/lib/MqttClient.php:263-275 | 00 01 'x' 'y' 'z' is topic "x" with payload "yz" |
| MqttCodec.ConnectFlags | xn_mqtt_server/lib/MqttClient.php:158-165 | clean session is always set; the username and password bits are set exactly when each is a non-empty string; will bits and bit 0 are clear |
| MqttCodec.KeepAliveBytes | xn_mqtt_server/lib/MqttClient.php:167 | keepalive is two big-endian bytes holding its value modulo 65536 |
| MqttCodec.ConnectLayout | xn_mqtt_server/lib/MqttClient.php:153-183 | CONNECT is 0x10, the remaining length, "MQTT" level 4, flags, keepalive and the payload |
| MqttCodec.ConnectExample | xn_mqtt_server/lib/MqttClient.php:158-167 | client "c" with no credentials and keepalive 60 has flags 0x02 and keepalive 00 3C |
| MqttCodec.DecodeFieldEncoded | xn_mqtt_server/lib/MqttClient.php:171-177 | an optional payload field is read back exactly when its flag says it is present |
| MqttCodec.ConnectPayloadRoundTrip | xn_mqtt_server/lib/MqttClient.php:171-177 | the payload reads back as client id, username and password as the flags announce them |
| MqttCodec.ConnectBodyRoundTrip | xn_mqtt_server/lib/MqttClient.php:153-183 | the variable header and payload read back to the flags, keepalive and fields |
| MqttCodec.ConnectRoundTrip | xn_mqtt_server/lib/MqttClient.php:153-183 | the whole CONNECT packet decodes back to what it was built from |
| MqttCodec.PublishExample | xn_mqtt_server/lib/MqttClient.php:87-99 | publishing "hi" on "a/b" without retain is 30 07 00 03 'a' '/' 'b' 'h' 'i' |
| MqttCodec.PublishRoundTrip | xn_mqtt_server/lib/MqttClient.php:87-99 | a PUBLISH packet parses back to type 3 with the retain flag, and its body gives back topic and payload |
| MqttCodec.SubscribeRoundTrip | xn_mqtt_server/lib/MqttClient.php:115-120 | SUBSCRIBE parses back to type 8 flags 2 with packet id 1, the filter and QoS 0 |
| MqttSession.WriteRun | xn_mqtt_server/lib/MqttClient.php:277-291 | the write loop succeeds exactly when all bytes were accepted, and makes at most one call per accepting fwrite |
| MqttSession.WriteRunStep | xn_mqtt_server/lib/MqttClient.php:282-289 | an fwrite of 0 bytes ends the loop in failure; otherwise the rest of the run is owed |
| MqttSession.WritePeerStep | xn_mqtt_server/lib/MqttClient.php:282-289 | each fwrite hands the peer the next min(accepted, remaining) bytes |
| MqttSession.WriteRunOneCall | xn_mqtt_server/lib/MqttClient.php:277-291 | a peer that takes everything at once needs one fwrite |
| MqttSession.WriteStep | xn_mqtt_server/lib/MqttClient.php:277-291 | write fails as not connected exactly without a socket, changing nothing; on success the peer has received the data; on failure a strict prefix of it |
| MqttSession.DisconnectStep | xn_mqtt_server/lib/MqttClient.php:140-149 | afterwards the socket is closed and the client disconnected; with a socket, the peer received a prefix of E0 00 |
| MqttSession.ConnAckVerdict | xn_mqtt_server/lib/MqttClient.php:66-79 | the reply is accepted exactly when it is CONNACK with at least 2 bytes and return code 0; else it is one of the three errors |
| MqttSession.ConnectAcceptsOnlyConnAckZero | xn_mqtt_server/lib/MqttClient.php:49-82 | connect succeeds exactly when the peer listens, takes the whole CONNECT and answers CONNACK 0; then it is connected and the peer holds CONNECT; any failure leaves it disconnected, with the socket open only after a write failure |
| MqttSession.ConnectWhenConnected | xn_mqtt_server/lib/MqttClient.php:51-53 | connect on a connected client changes nothing and succeeds |
| MqttSession.ConnAckRefusedExample | xn_mqtt_server/lib/MqttClient.php:75-79 | CONNACK with return code 2 fails as refused and closes the socket |
| MqttSession.PublishWritesPacket | xn_mqtt_server/lib/MqttClient.php:87-99 | publish succeeds exactly when the peer takes the whole packet, and then the peer holds header, length, topic and payload |
| MqttSession.PublishExampleOnWire | xn_mqtt_server/lib/MqttClient.php:87-99 | a concrete publish puts its exact bytes on the wire |
| MqttSession.ReceiveRunStep | xn_mqtt_server/lib/MqttClient.php:128-137 | one iteration of the receive loop delivers the packet read and continues |
| MqttSession.ReceiveRunOnce | xn_mqtt_server/lib/MqttClient.php:128-137 | the receive loop unfolds by one iteration |
| MqttSession.SubscribeSplit | xn_mqtt_server/lib/MqttClient.php:115-126 | a failed SUBSCRIBE write ends the call; otherwise SUBACK is awaited until start plus duration |
| MqttSession.SubscribeSendsRequest | xn_mqtt_server/lib/MqttClient.php:108-138 | after a full write the peer holds SUBSCRIBE; the call fails exactly when the next packet is not SUBACK, and then delivers nothing; it stays connected |
| MqttSession.SubscribeAfterWrite | xn_mqtt_server/lib/MqttClient.php:115-137 | the same, given the write of SUBSCRIBE and a receive loop that keeps the connection |
| MqttSession.ReceiveKeepsSent | xn_mqtt_server/lib/MqttClient.php:128-137 | receiving sends nothing and keeps the connected flag |
| MqttSession.ZeroDurationDeliversNothing | xn_mqtt_server/lib/MqttClient.php:128-137 | with duration 0 and a clock that does not go back, nothing is delivered |
| MqttSession.ReceiveIdle | xn_mqtt_server/lib/MqttClient.php:128-137 | with nothing to read, receiving changes nothing and delivers nothing |
| MqttSession.ReceiveDeliversPublications | xn_mqtt_server/lib/MqttClient.php:128-137 | before the deadline, every PUBLISH on the wire is delivered in order and other packets are skipped |
| MqttSession.ReadWire | xn_mqtt_server/lib/MqttClient.php:208-258 | reading a stream of framed packets returns the first and leaves the rest |
| MqttSession.ReceiveExample | xn_mqtt_server/lib/MqttClient.php:128-137 | a PUBLISH of "yz" on "x" arriving in time is delivered |
| MqttClient.Client.constructor | xn_mqtt_server/lib/MqttClient.php:23-37 | a new client keeps its options, with no socket and not connected |
| MqttClient.Client.Fread | xn_mqtt_server/lib/MqttClient.php:220 | fread returns up to max bytes from the front of what the peer sends |
| MqttClient.Client.Fwrite | xn_mqtt_server/lib/MqttClient.php:284 | fwrite hands the peer as many bytes as its next call accepts |
| MqttClient.Client.Write | xn_mqtt_server/lib/MqttClient.php:277-291 | the write loop has exactly the effect and outcome of WriteStep |
| MqttClient.Client.ReadPacket | xn_mqtt_server/lib/MqttClient.php:208-258 | reading a packet consumes and returns what ParsePacket reads from the peer |
| MqttClient.Client.ReadRemainingLength | xn_mqtt_server/lib/MqttClient.php:230-240 | the byte-by-byte loop yields DecodeLength of the stream and consumes the bytes it used |
| MqttClient.Client.ReadBody | xn_mqtt_server/lib/MqttClient.php:242-251 | the body loop returns up to length bytes, fewer only at end of stream |
| MqttClient.Client.Disconnect | xn_mqtt_server/lib/MqttClient.php:140-149 | the new state is DisconnectStep of the old |
| MqttClient.Client.Connect | xn_mqtt_server/lib/MqttClient.php:49-82 | the new state and outcome are ConnectStep of the old |
| MqttClient.Client.BuildConnectPacket | xn_mqtt_server/lib/MqttClient.php:153-183 | builds the CONNECT packet of the options |
| MqttClient.Client.Publish | xn_mqtt_server/lib/MqttClient.php:87-99 | the new state and outcome are PublishStep of the old |
| MqttClient.Client.SubscribeLoop | xn_mqtt_server/lib/MqttClient.php:108-138 | the new state, outcome and deliveries are SubscribeStep of the old |
| MqttClient.Client.Subscribe | xn_mqtt_server/lib/MqttClient.php:115-137 | on a connected client, the state, outcome and deliveries are SubscribeConnected |
| MqttClient.Client.FinishSubscribe | xn_mqtt_server/lib/MqttClient.php:123-137 | waiting for SUBACK and then receiving matches AwaitSubAck |
| MqttClient.Client.Deliver | xn_mqtt_server/lib/MqttClient.php:131-135 | a PUBLISH read in the loop is passed on as its message; other packets deliver nothing |
| MqttClient.Client.BuildSubscribePacket | xn_mqtt_server/lib/MqttClient.php:115-120 | builds the SUBSCRIBE packet of the filter |
| MqttClient.Client.Receive | xn_mqtt_server/lib/MqttClient.php:128-137 | the receive loop until the deadline matches ReceiveRun |
| MqttClient.ReadOneByte | xn_mqtt_server/lib/MqttClient.php:231-233 | a one-byte read at end of stream returns nothing; otherwise it returns the next digit and leaves the rest |
| WifiConfigApp.RouteExact | main/mqtt_app/wifi_config_app.c:317-377 | a command is dispatched exactly when base and id are non-empty, the prefix fits 128 bytes, and the topic is `<base>/wifi/<id>/<cmd>` in full |
| WifiConfigApp.RouteReaches | main/mqtt_app/wifi_config_app.c:331-374 | every well-formed command topic reaches its handler |
| WifiConfigApp.RouteOnlyExact | main/mqtt_app/wifi_config_app.c:331-374 | a topic that is routed has exactly that form |
| WifiConfigApp.OtherDeviceIgnored | main/mqtt_app/wifi_config_app.c:345-356 | a topic for a different client id is ignored |
| WifiConfigApp.PublishJson | main/mqtt_app/wifi_config_app.c:41-60 | a reply is published exactly when id, sub and JSON exist and the topic fits 128 bytes, on `<uplink>/wifi/<id>/<sub>` |
| WifiConfigApp.LineEnd | main/mqtt_app/wifi_config_app.c:85-88 | a line ends at the first newline after its start, or at the end of the text |
| WifiConfigApp.StripTrailing | main/mqtt_app/wifi_config_app.c:90-94 | stripping removes exactly the trailing '\r' and ' ' characters; a tab or any other character stays |
| WifiConfigApp.AfterKeyPrefix | main/mqtt_app/wifi_config_app.c:96-100 | a key matches exactly when the line starts with it, and the value is the rest of the line |
| WifiConfigApp.LaterLinesWin | main/mqtt_app/wifi_config_app.c:83-106 | a value set by a later line overrides an earlier one |
| WifiConfigApp.ApplyLineOr | main/mqtt_app/wifi_config_app.c:96-100 | a line overrides only the key it names |
| WifiConfigApp.LineEndDrop | main/mqtt_app/wifi_config_app.c:85-88 | line ends do not depend on text before the search start |
| WifiConfigApp.ParseLinesAt | main/mqtt_app/wifi_config_app.c:83-106 | the parse applies one line and continues after its newline, or stops at the end |
| WifiConfigApp.SecondBlockWins | main/mqtt_app/wifi_config_app.c:83-106 | for a payload of a first line and a rest, the rest's values win and the first line fills the gaps |
| WifiConfigApp.LineEndSkip | main/mqtt_app/wifi_config_app.c:85-88 | the newline search from any point inside a line finds the same end |
| WifiConfigApp.SetEffects | main/mqtt_app/wifi_config_app.c:66-121 | set connects at most once, only with a non-empty ssid, and passes no password when it is empty |
| WifiConfigApp.SetReadsAtMost255 | main/mqtt_app/wifi_config_app.c:72-78 | only the first 255 characters of the payload matter |
| WifiConfigApp.SetExampleLastSsidWins | main/mqtt_app/wifi_config_app.c:66-121 | "ssid=a\r\nssid=bc \npassword=\n" connects to "bc" without a password |
| WifiConfigApp.ExampleIsWholeText | main/mqtt_app/wifi_config_app.c:72-78 | that short payload is copied whole |
| WifiConfigApp.ParseExampleLastSsidWins | main/mqtt_app/wifi_config_app.c:83-106 | its lines yield ssid "bc" and an empty password |
| WifiConfigApp.ExampleFirstLine | main/mqtt_app/wifi_config_app.c:83-106 | its first line sets ssid "a" once "\r" is stripped |
| WifiConfigApp.ExampleSecondLine | main/mqtt_app/wifi_config_app.c:83-106 | its second line replaces ssid by "bc" once the space is stripped |
| WifiConfigApp.ExampleThirdLine | main/mqtt_app/wifi_config_app.c:83-106 | its third line sets an empty password and ends the text |
| WifiConfigApp.OneLine | main/mqtt_app/wifi_config_app.c:83-106 | a stripped line between i and its newline is applied and parsing continues after it |
| WifiConfigApp.SsidLine | main/mqtt_app/wifi_config_app.c:90-100 | "ssid=" then a value then one pad character sets that ssid |
| WifiConfigApp.EmptyPasswordLine | main/mqtt_app/wifi_config_app.c:96-100 | "password=" sets an empty password |
| WifiConfigApp.SetExamplePasswordAlone | main/mqtt_app/wifi_config_app.c:108-111 | a password without ssid connects nothing |
| WifiConfigApp.PasswordAloneText | main/mqtt_app/wifi_config_app.c:72-78 | that payload is copied whole |
| WifiConfigApp.ParseExamplePasswordAlone | main/mqtt_app/wifi_config_app.c:83-106 | it yields no ssid and password "x" |
| WifiConfigApp.PasswordLine | main/mqtt_app/wifi_config_app.c:96-100 | "password=x" sets password "x" |
| WifiConfigApp.CTextWhole | main/mqtt_app/wifi_config_app.c:72-78 | a string without NUL is its own C string |
| WifiConfigApp.PointsRead | main/mqtt_app/wifi_config_app.c:113-115 | a value pointer reads its value up to the NUL, and the first byte is NUL exactly for an empty value |
| WifiConfigApp.Strchr | main/mqtt_app/wifi_config_app.c:85-88 | the search returns the line's newline, or -1 on the last line |
| WifiConfigApp.Strlen | main/mqtt_app/wifi_config_app.c:90 | strlen counts up to the terminator |
| WifiConfigApp.StripLine | main/mqtt_app/wifi_config_app.c:90-94 | the in-place loop leaves exactly StripTrailing of the line, NUL-terminated, and touches nothing outside it |
| WifiConfigApp.StripStep | main/mqtt_app/wifi_config_app.c:91-93 | overwriting one trailing pad character with NUL keeps the stripped line the same |
| WifiConfigApp.HandleSet | main/mqtt_app/wifi_config_app.c:66-121 | the in-place handler makes exactly the calls of SetEffects |
| WifiConfigApp.LineParsed | main/mqtt_app/wifi_config_app.c:83-106 | after one line the values still owed by the rest of the text are unchanged |
| WifiConfigApp.SetLine | main/mqtt_app/wifi_config_app.c:84-105 | one pass of the loop applies its line, keeps the rest of the text intact and the pointers valid |
| WifiConfigApp.TakeValue | main/mqtt_app/wifi_config_app.c:96-100 | matching a key moves that pointer to the value, as ApplyLine does |
| WifiConfigApp.KeyTest | main/mqtt_app/wifi_config_app.c:96-100 | strncmp on the buffer matches exactly when the stripped line starts with the key |
| WifiConfigApp.TakeKey | main/mqtt_app/wifi_config_app.c:96-100 | the pointer after the key points at the value |
| WifiConfigApp.CopyPayload | main/mqtt_app/wifi_config_app.c:72-78 | the buffer holds at most 255 characters of the payload, NUL-terminated |
| WifiConfigApp.TerminateLine | main/mqtt_app/wifi_config_app.c:85-94 | the line is cut at its newline and stripped, and the rest of the text is untouched |
| WifiConfigApp.ConnectFor | main/mqtt_app/wifi_config_app.c:108-115 | connect exactly when the ssid is non-empty, with the password only when it is non-empty |
| WifiConfigApp.ConnectCall | main/mqtt_app/wifi_config_app.c:108-115 | the calls made from the buffer pointers are ConnectFor of their values |
| WifiConfigApp.RestKept | main/mqtt_app/wifi_config_app.c:85-94 | cutting a line keeps the text after its newline |
| WifiConfigApp.PointsTaken | main/mqtt_app/wifi_config_app.c:96-100 | after a key match the pointer holds the value AfterKey gives |
| WifiConfigApp.SetStep | main/mqtt_app/wifi_config_app.c:84-105 | a pass keeps the later text and the earlier pointers valid |
| WifiConfigApp.FirstSelectable | main/mqtt_app/wifi_config_app.c:282-293 | the search gives the first entry whose name matches, or -1 when none does |
| WifiConfigApp.FindSaved | main/mqtt_app/wifi_config_app.c:282-293 | the search loop returns that first match |
| WifiConfigApp.HandleConnectSaved | main/mqtt_app/wifi_config_app.c:244-311 | the handler makes exactly the calls of ConnectSavedEffects |
| WifiConfigApp.ConnectSavedPromotesFirstMatch | main/mqtt_app/wifi_config_app.c:282-310 | an entry is promoted exactly when it is the first match of the requested ssid; WiFi is disconnected exactly when a match exists and the promotion succeeds |
| WifiConfigApp.ConnectSavedKeepsNewline | main/mqtt_app/wifi_config_app.c:258-266 | the ssid runs to the end of the payload, trailing newline included |
| WifiConfigApp.ConnectSavedKeyFirst | main/mqtt_app/wifi_config_app.c:258-266 | the key must start the payload |
| WifiConfigApp.ConnectSavedReadsAtMost127 | main/mqtt_app/wifi_config_app.c:246-256 | only the first 127 characters of the payload matter |
| WifiConfigApp.LongSsidMatchesPrefix | main/mqtt_app/wifi_config_app.c:284-288 | a full 32-byte stored name matches any ssid starting with it |
| WifiConfigApp.EntryName | main/mqtt_app/wifi_config_app.c:217-219 | a stored name is cut to at most 31 characters |
| WifiConfigApp.Items | main/mqtt_app/wifi_config_app.c:216-231 | the item list has no NUL and at most 43 characters per entry |
| WifiConfigApp.JoinSnoc | main/mqtt_app/wifi_config_app.c:224-230 | adding a name appends a comma and its item |
| WifiConfigApp.ItemsAreJoinedNames | main/mqtt_app/wifi_config_app.c:216-231 | the list is the comma-joined items of the non-empty names, in order |
| WifiConfigApp.ItemsEmptyIff | main/mqtt_app/wifi_config_app.c:220-222 | the list is empty exactly when every name is empty |
| WifiConfigApp.SavedJson | main/mqtt_app/wifi_config_app.c:200-233 | the JSON always fits the 512-byte buffer |
| WifiConfigApp.SavedJsonEmpty | main/mqtt_app/wifi_config_app.c:200-205 | load failure, or only empty names, publishes `{"list":[]}` |
| WifiConfigApp.Append | main/mqtt_app/wifi_config_app.c:214 | snprintf appends the text and its terminator |
| WifiConfigApp.BuildSavedJson | main/mqtt_app/wifi_config_app.c:212-233 | the in-place build produces the list JSON of the entries |
| WifiConfigApp.AppendItem | main/mqtt_app/wifi_config_app.c:224-230 | one item is appended, after a comma when one was already written |
| WifiConfigApp.ItemsStep | main/mqtt_app/wifi_config_app.c:216-231 | one loop pass extends the list by the next entry's item, if its name is non-empty |
| WifiConfigApp.HandleGetSaved | main/mqtt_app/wifi_config_app.c:192-238 | the handler loads the list and publishes exactly the JSON GetSavedEffects gives |
| WifiConfigApp.OnMessage | main/mqtt_app/wifi_config_app.c:317-377 | returns ESP_OK whatever the message, and makes exactly the calls of the handler its topic routes to |
| WebMqttManager.Notified | components/iot_manager_mqtt/src/web_mqtt_manager.c:41-48 | the state becomes the new one, and the callback is called with it once when configured |
| WebMqttManager.Manager.constructor | components/iot_manager_mqtt/src/web_mqtt_manager.c:33-36 | the manager starts DISCONNECTED, with no task and no error tick |
| WebMqttManager.Manager.NotifyState | components/iot_manager_mqtt/src/web_mqtt_manager.c:41-48 | the new snapshot is Notified of the old |
| WebMqttManager.Manager.OnMqttEvent | components/iot_manager_mqtt/src/web_mqtt_manager.c:55-77 | the new snapshot is EventSpec of the old |
| WebMqttManager.Manager.Step | components/iot_manager_mqtt/src/web_mqtt_manager.c:84-119 | the new snapshot is StepSpec of the old |
| WebMqttManager.Manager.Init | components/iot_manager_mqtt/src/web_mqtt_manager.c:140-200 | the new snapshot and the result are InitSpec of the old |
| WebMqttManager.CountAppend | components/iot_manager_mqtt/src/web_mqtt_manager.c:45-47 | calls counted over a concatenation add up |
| WebMqttManager.NotifyCallsBackOnce | components/iot_manager_mqtt/src/web_mqtt_manager.c:41-48 | a notification calls the callback exactly once with the new state when configured, and not otherwise |
| WebMqttManager.EventTransitions | components/iot_manager_mqtt/src/web_mqtt_manager.c:55-77 | connected, disconnected and any other event give CONNECTED, DISCONNECTED and ERROR; the error tick is cleared on connect, else set to now; nothing is started |
| WebMqttManager.StepChangesIffDue | components/iot_manager_mqtt/src/web_mqtt_manager.c:84-119 | a step changes anything exactly when it is due; then it notifies CONNECTING, starts the module once and records the tick if none was |
| WebMqttManager.StepQuietWhenNotDown | components/iot_manager_mqtt/src/web_mqtt_manager.c:114-117 | in CONNECTING, CONNECTED and READY a step does nothing |
| WebMqttManager.NegativeIntervalNeverReconnects | components/iot_manager_mqtt/src/web_mqtt_manager.c:89-91 | a negative interval disables reconnection |
| WebMqttManager.ZeroTickAttemptsOnlyWithoutWait | components/iot_manager_mqtt/src/web_mqtt_manager.c:93-103 | without an error tick, a step is due exactly when no wait is needed |
| WebMqttManager.DeltaAcrossWrap | components/iot_manager_mqtt/src/web_mqtt_manager.c:96 | the unsigned tick difference is the true elapsed count across the 32-bit wrap |
| WebMqttManager.OneAttemptPerFailure | components/iot_manager_mqtt/src/web_mqtt_manager.c:103-110 | after an attempt, further steps start nothing until an event arrives |
| WebMqttManager.RetryAfterInterval | components/iot_manager_mqtt/src/web_mqtt_manager.c:64-110 | after a disconnect or error at tick t, a step is due exactly when the interval in ticks has elapsed since t, across wrap-around |
| WebMqttManager.CountAbsent | components/iot_manager_mqtt/src/web_mqtt_manager.c:170-197 | a call that does not occur counts zero |
| WebMqttManager.InitValidation | components/iot_manager_mqtt/src/web_mqtt_manager.c:143-173 | a missing or empty broker URI is rejected before any call; otherwise the module is initialised with the configured keepalive when positive; its failure is returned unchanged; init succeeds exactly when URI, module init and task creation succeed |
| WebMqttManager.InitSuccess | components/iot_manager_mqtt/src/web_mqtt_manager.c:175-199 | a successful init leaves the manager DISCONNECTED with no error tick and a task, and starts the module exactly once |
| WebMqttManager.InitCalls | components/iot_manager_mqtt/src/web_mqtt_manager.c:170-197 | a successful init makes its calls in order and ends with the one start |

## Left out

- The random client id of the constructor (`MqttClient.php:33`) is a
  parameter: `ConnectOptions.clientId`.
- `stream_set_timeout` and the read timeouts (`MqttClient.php:213-215`) are
  not modelled. A read at end of stream returns nothing, as a timed-out read
  does.
- The receive loop's clock, `time()` (`MqttClient.php:128-129`), in whole
  seconds, is a sequence of readings passed in as `clock`.
- `fsockopen` is a peer that listens or does not. DNS, TCP and the connect
  timeout are not modelled.
- Exceptions thrown by the message callback are not modelled. The callback is
  modelled by the list of delivered messages.
- MqttClient.Client.Fwrite: a failing `fwrite` (false) is modelled as 0 bytes
  written, which the loop handles the same way.
- `wifi_cfg_handle_get_status` (`wifi_config_app.c:127-186`) reads the
  esp_wifi and esp_netif state of the device. That state is not part of this
  model. Routing to it is modelled, as the `ReportStatus` effect.
- Allocation failure of `malloc` (`wifi_config_app.c:195-198`, `270-273`) is
  not modelled. The handlers assume the allocation succeeds.
- A negative `payload_len` is not modelled: payloads are strings, with their
  length implied.
- JSON escaping: none is done by the source, and none is added. Names are put
  between quotes as they are.
- `wifi_config_app_init` (`wifi_config_app.c:379-383`) only registers the
  handler. It is not modelled beyond `OnMessage` itself.
- The manager's FreeRTOS task loop and `step_interval_ms`
  (`web_mqtt_manager.c:124-138`) are not modelled. Each `Step` call is one
  iteration, at the tick `now` passed in.
- `xTaskGetTickCount` is a parameter. `pdMS_TO_TICKS` is computed as
  FreeRTOS does, in 32-bit `TickType_t` arithmetic: `ms * hz` wraps modulo
  2^32 before the division by 1000. The tick rate is a parameter.
- The defaults `WEB_MQTT_MANAGER_DEFAULT_CONFIG` and
  `MQTT_MODULE_DEFAULT_CONFIG` are parameters of `Init`. Their values are
  not part of this model.
- Logging (`ESP_LOG*`) is left out.
- WifiConfigApp.HandleConnectSaved: `configs` holds 5 entries (`wifi_config_app.c:269-270`), but
  the search at `wifi_config_app.c:283-293` runs to whatever count storage
  reports. A count above 5 reads past the allocation, which is undefined
  behaviour in C. The model instead searches every entry that `saved`
  holds, as if all were real saved networks.
- The manager's event handler and its step run in different tasks, with no
  lock around the shared statics (`web_mqtt_manager.c:33-36`, `86-110`).
  The model treats each call as atomic, so an event that lands between
  step's state test and its CONNECTING notification is not modelled.
  `OneAttemptPerFailure` relies on that atomicity.
