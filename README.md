# OBD reader: ELM327 session model

A Dafny model of the part of the Android OBD-II reader that talks to an
ELM327 adapter: `ObdViewModel` in
`app/src/main/java/com/example/obdreader/ObdViewModel.kt`. This covers the
following:

- connecting to the selected paired device and the ELM327 handshake;
- the framing of each command;
- one polling cycle of engine speed, vehicle speed, coolant temperature,
  battery voltage and stored trouble codes (mode 03);
- decoding the adapter's hex replies;
- disconnecting.

Modules:

- `Wrappers`: `Option` and `Result`. A failure carries the exception's
  message, which may be null.
- `Text`: Kotlin's `trim()` (JVM whitespace on both ends), `replace` of one
  character by nothing, and `contains`.
- `Hex`: two-character base-16 parsing (`toInt(16)` / `toIntOrNull(16)`),
  upper-case rendering as `%04X` prints it, and the reply cleaning that
  drops blanks and prompts.
- `PidDecoder`: `readPid`'s decoding of a trimmed reply. The three
  parameters are engine speed `(256A+B)/4`, vehicle speed `A`, and coolant
  temperature `A-40`. The payload bytes are read at the offsets the code
  uses: hex characters 6..8 and 8..10 of the cleaned reply. As a
  consequence, a standard four-byte reply `41 0C A B` reads as 0
  (`PidDecoder.StandardRpmReplyReadsZero`).
- `DtcDecoder`: `readDtcs`'s decoding of a trimmed reply.
  - A reply containing `NO DATA` or `43 00` has no codes.
  - Otherwise the first four hex characters are skipped. The rest is then
    read in groups of four.
  - The scan stops at a short tail, at a group that is not hex, or at
    `0000`.
  - Each code is `P`, `C`, `B` or `U`, chosen by the top two bits, followed
    by the low 14 bits in four upper-case hex digits.
  - `Scan` is the loop itself, proved against the recursive definition
    `Walk`.
- `Channel`: `sendCommand` and `initializeElm327`. The adapter is a script
  (`Link`): the replies it will give, one per command, and the log of
  lines written to it. Without both streams a command fails with "Not
  connected". Otherwise the command goes out with a carriage return and
  the next reply comes back trimmed. The handshake is `ATZ`, `ATE0`,
  `ATL0`, `ATH0`, `ATSP0`, stopping at the first exception.
- `Session`: the class `ObdViewModel` with the fields the source updates
  in place, and the pure functions its methods are specified by:
  - `ConnectAttempt` for the I/O part of `connect`;
  - `ReadCycle` for one `readData` cycle.

  The Bluetooth stack becomes parameters: whether the connect permission
  is granted, and how creating and connecting the RFCOMM socket went. A
  ghost `statusHistory` records every value `connectionStatus` takes, so
  the status sequences are stated:
  - a failed connection: "Connecting...", then "Connection failed", then
    "Disconnected";
  - a successful one: "Connecting...", then "Connected to <name>".

## Model

| member | source | states |
|---|---|---|
| Text.Trim | app/src/main/java/com/example/obdreader/ObdViewModel.kt:172 | the trimmed reply is never longer than the raw text; what it is, is stated by `TrimShape`, `TrimPadded` and `TrimIdempotent` |
| Text.TrimShape | app/src/main/java/com/example/obdreader/ObdViewModel.kt:172 | the trimmed reply is one contiguous slice of the raw text, with only whitespace cut from each end and no whitespace left at either end |
| Text.TrimPadded | app/src/main/java/com/example/obdreader/ObdViewModel.kt:172 | trimming text that has whitespace around a core with non-blank ends gives back exactly that core |
| Text.TrimIdempotent | app/src/main/java/com/example/obdreader/ObdViewModel.kt:172 | trimming a trimmed reply changes nothing |
| Text.Remove | app/src/main/java/com/example/obdreader/ObdViewModel.kt:216 | after `replace(c, "")` the character is gone, the text is no longer, and no new characters appear |
| Text.RemoveAppend | app/src/main/java/com/example/obdreader/ObdViewModel.kt:216 | removing a character from a concatenation removes it from each part |
| Text.Contains | app/src/main/java/com/example/obdreader/ObdViewModel.kt:258 | a marker is only found in text at least as long as the marker; `ContainsAt` and `ContainsSplit` give the two directions of what finding it means |
| Text.ContainsAt | app/src/main/java/com/example/obdreader/ObdViewModel.kt:258 | `contains` finds a marker wherever it is embedded |
| Text.ContainsSplit | app/src/main/java/com/example/obdreader/ObdViewModel.kt:258 | conversely, whenever `contains` finds a marker, the text is some prefix, the marker, and some suffix |
| Hex.ParseByte | app/src/main/java/com/example/obdreader/ObdViewModel.kt:268-269 | two characters parse as base 16 exactly when both are hex digits, and the value is below 256; `ParseByteRoundTrip` fixes the value |
| Hex.ParseByteRoundTrip | app/src/main/java/com/example/obdreader/ObdViewModel.kt:268-269 | a parsed pair of digits, written back as two upper-case hex digits, gives the input with its letters upper-cased, so the value is the digits' base-16 value in either case |
| Hex.Hex4 | app/src/main/java/com/example/obdreader/ObdViewModel.kt:281 | `%04X` of a 16-bit value is four upper-case hex digits that read back as that value |
| Hex.CleanHex | app/src/main/java/com/example/obdreader/ObdViewModel.kt:216 | the cleaned reply holds no blank and no `>` and is no longer than the reply |
| PidDecoder.ByteAt | app/src/main/java/com/example/obdreader/ObdViewModel.kt:221-228 | a two-character slice of the cleaned reply is a byte exactly when both characters are hex digits, and then it is below 256 |
| PidDecoder.Decode | app/src/main/java/com/example/obdreader/ObdViewModel.kt:218-237 | engine speed in [0, 16383], vehicle speed in [0, 255], coolant in [-40, 215]; 0 for an unknown PID, a cleaned reply shorter than 8 (10 for engine speed), a non-hex first payload byte, or, for engine speed, a non-hex second payload byte |
| PidDecoder.DecodeTotal | app/src/main/java/com/example/obdreader/ObdViewModel.kt:213-241 | decoding never fails and its value lies in [-40, 16383] |
| PidDecoder.DecodeByBytes | app/src/main/java/com/example/obdreader/ObdViewModel.kt:218-235 | on the cleaned reply itself: when the slices at offsets 6 and 8 parse (in either case, or joined across a removed blank), engine speed is (256A+B)/4 from ten characters on, and vehicle speed is A and coolant A-40 from eight characters on |
| PidDecoder.RpmFormula | app/src/main/java/com/example/obdreader/ObdViewModel.kt:219-225 | for a reply written with the payload bytes A and B as upper-case digit pairs after a header that cleans to six characters, with only blanks and prompts between them, engine speed is (256A+B)/4 whatever follows |
| PidDecoder.SingleByteFormula | app/src/main/java/com/example/obdreader/ObdViewModel.kt:226-235 | for a reply written with the payload byte A as an upper-case digit pair after a header that cleans to six characters, and anything after it, vehicle speed is A and coolant is A-40, negative exactly when A < 40 |
| PidDecoder.StandardRpmReplyReadsZero | app/src/main/java/com/example/obdreader/ObdViewModel.kt:216-224 | a four-byte reply `410C` A B is shorter than ten hex characters, so engine speed reads 0 |
| PidDecoder.PromptedRpmReplyReadsZero | app/src/main/java/com/example/obdreader/ObdViewModel.kt:216-224 | the usual reply `410C` A B followed by the adapter's `\r\r>` cleans to ten characters whose second payload byte is the two carriage returns, so engine speed reads 0 |
| DtcDecoder.Category | app/src/main/java/com/example/obdreader/ObdViewModel.kt:273-279 | the letter is one of `P`, `C`, `B`, `U`, and its position in that list is the first byte's top two bits |
| DtcDecoder.BitOperations | app/src/main/java/com/example/obdreader/ObdViewModel.kt:273-281 | `byte1 shr 6` and `((byte1 and 0x3F) shl 8) or byte2` equal the arithmetic quotient and code number the model uses |
| DtcDecoder.CodeNumber | app/src/main/java/com/example/obdreader/ObdViewModel.kt:281 | the code number of two bytes fits in 14 bits |
| DtcDecoder.Format | app/src/main/java/com/example/obdreader/ObdViewModel.kt:273-281 | every code is five characters: `P`/`C`/`B`/`U` picked by the top two bits of the first byte, then the 14-bit code number as four upper-case hex digits |
| DtcDecoder.FormatBytes | app/src/main/java/com/example/obdreader/ObdViewModel.kt:273-281 | a formatted code determines both bytes it came from (reading it back gives them) |
| DtcDecoder.FormatExample | app/src/main/java/com/example/obdreader/ObdViewModel.kt:273-281 | bytes 03 01 format as P0301 |
| DtcDecoder.GroupAt | app/src/main/java/com/example/obdreader/ObdViewModel.kt:268-269 | a four-character group gives two bytes below 256 when it parses; `GroupAtGroup` shows it gives back the bytes an encoded group was made of |
| DtcDecoder.Walk | app/src/main/java/com/example/obdreader/ObdViewModel.kt:266-285 | the scan yields only well-formed codes, at most one per four hex characters |
| DtcDecoder.Decode | app/src/main/java/com/example/obdreader/ObdViewModel.kt:255-287 | `NO DATA` or `43 00` anywhere gives no codes; every code is well-formed; there are at most (length of the cleaned reply - 4) / 4 codes |
| DtcDecoder.Parse | app/src/main/java/com/example/obdreader/ObdViewModel.kt:255-287 | the imperative decoder returns exactly `Decode` of the reply |
| DtcDecoder.Scan | app/src/main/java/com/example/obdreader/ObdViewModel.kt:266-285 | the loop from index 4 with its three `break`s returns exactly the walk of the cleaned reply after the header |
| DtcDecoder.WalkEncode | app/src/main/java/com/example/obdreader/ObdViewModel.kt:266-285 | scanning the hex groups of a list of non-zero byte pairs yields one code per pair, in order, and then goes on with what follows |
| DtcDecoder.SentinelEndsWalk | app/src/main/java/com/example/obdreader/ObdViewModel.kt:271 | a `0000` group ends the list, whatever comes after it |
| DtcDecoder.DecodeReply | app/src/main/java/com/example/obdreader/ObdViewModel.kt:258-285 | a reply without the markers, made of a 4-character header and encoded pairs, decodes to those pairs' codes |
| Channel.FrameAllLines | app/src/main/java/com/example/obdreader/ObdViewModel.kt:167 | each command goes on the wire with a carriage return appended, one line per command and in order |
| Channel.Exchange | app/src/main/java/com/example/obdreader/ObdViewModel.kt:163-175 | one exchange writes the framed command exactly when both streams are open, and nothing otherwise; it only succeeds with open streams and an answer waiting; `ExchangeFraming` states the full result |
| Channel.ExchangeFraming | app/src/main/java/com/example/obdreader/ObdViewModel.kt:163-175 | `sendCommand` without streams throws "Not connected" and writes nothing; with streams it writes the command plus CR, consumes one reply, returns it trimmed, and rethrows a failed read with its message |
| Channel.Run | app/src/main/java/com/example/obdreader/ObdViewModel.kt:157-160 | running a command list writes at most one line per command, and on success exactly one per command, which needs open streams unless the list is empty; `RunSucceeds` and `RunFails` characterise the outcome |
| Channel.RunSucceeds | app/src/main/java/com/example/obdreader/ObdViewModel.kt:157-160 | a command sequence on open streams completes exactly when every command is answered, having written all of them and used one reply each |
| Channel.RunFails | app/src/main/java/com/example/obdreader/ObdViewModel.kt:157-160 | a sequence whose command k meets a failed read ends with that read's exception, having written exactly the first k+1 commands |
| Channel.Handshake | app/src/main/java/com/example/obdreader/ObdViewModel.kt:154-161 | the handshake only succeeds on open streams; `HandshakeSucceeds` and `HandshakeNotConnected` state when it does and what it writes |
| Channel.FramedHandshake | app/src/main/java/com/example/obdreader/ObdViewModel.kt:155-158 | the handshake on the wire is `ATZ\r`, `ATE0\r`, `ATL0\r`, `ATH0\r`, `ATSP0\r` |
| Channel.HandshakeNotConnected | app/src/main/java/com/example/obdreader/ObdViewModel.kt:164-165 | with no streams the handshake fails at once with "Not connected" |
| Channel.HandshakeSucceeds | app/src/main/java/com/example/obdreader/ObdViewModel.kt:154-161 | the handshake succeeds exactly when the first five replies are answers, and then the five framed commands were written in order |
| Session.PidReading | app/src/main/java/com/example/obdreader/ObdViewModel.kt:213-241 | a failed exchange reads as 0, a successful one as the decode of its trimmed reply; the per-PID ranges hold either way |
| Session.VoltageReading | app/src/main/java/com/example/obdreader/ObdViewModel.kt:243-251 | a failed exchange reads as 0.0; otherwise the text handed to the number conversion is the reply with every `V` removed and then trimmed, so it holds no `V` and is already trimmed |
| Session.DtcReading | app/src/main/java/com/example/obdreader/ObdViewModel.kt:253-291 | a failed exchange reads as no codes, a successful one as the decode of its trimmed reply; every code is well-formed |
| Session.ReadLive | app/src/main/java/com/example/obdreader/ObdViewModel.kt:190-200 | the four live readings of a cycle, taken in order on one adapter script, are always in range |
| Session.ReadCycle | app/src/main/java/com/example/obdreader/ObdViewModel.kt:188-204 | a polling cycle always produces in-range live data and well-formed codes |
| Session.CycleWrites | app/src/main/java/com/example/obdreader/ObdViewModel.kt:190-203 | on open streams a cycle writes `010C`, `010D`, `0105`, `ATRV`, `03`, each with CR and in that order, and consumes up to five replies |
| Session.CycleNotConnected | app/src/main/java/com/example/obdreader/ObdViewModel.kt:190-203 | without streams a cycle yields the default readings and no codes and writes nothing |
| Session.CycleAnswered | app/src/main/java/com/example/obdreader/ObdViewModel.kt:190-203 | when all five commands are answered, each value is decoded from its own trimmed reply, and the rest of the script is left |
| Session.ConnectAttempt | app/src/main/java/com/example/obdreader/ObdViewModel.kt:107-125 | connecting only succeeds with permission and an opened socket, and a missing permission fails with "Bluetooth permission required"; `AttemptSucceeds` and `AttemptRefused` give the rest |
| Session.AttemptSucceeds | app/src/main/java/com/example/obdreader/ObdViewModel.kt:107-125 | connecting succeeds exactly when permission is granted, the socket opens and the five handshake commands are answered; it then wrote exactly the handshake |
| Session.AttemptRefused | app/src/main/java/com/example/obdreader/ObdViewModel.kt:108-118 | a missing permission throws "Bluetooth permission required", and a socket that cannot be created or connected throws its own exception, before anything is written |
| Session.ObdViewModel.constructor | app/src/main/java/com/example/obdreader/ObdViewModel.kt:41-68 | a new view model is disconnected, with default live data, no codes, no error and the scanned device selected |
| Session.ObdViewModel.SelectDevice | app/src/main/java/com/example/obdreader/ObdViewModel.kt:96-98 | the given device becomes the selected one |
| Session.ObdViewModel.SendCommand | app/src/main/java/com/example/obdreader/ObdViewModel.kt:163-175 | the method's response and new adapter state are those of one exchange on the current streams |
| Session.ObdViewModel.InitializeElm327 | app/src/main/java/com/example/obdreader/ObdViewModel.kt:154-161 | the loop over the five commands has the outcome and adapter state of the handshake |
| Session.ObdViewModel.ReadPid | app/src/main/java/com/example/obdreader/ObdViewModel.kt:213-241 | one exchange, read as a PID value, 0 on any exception |
| Session.ObdViewModel.ReadBatteryVoltage | app/src/main/java/com/example/obdreader/ObdViewModel.kt:243-251 | one `ATRV` exchange, read as a voltage, 0.0 on any exception |
| Session.ObdViewModel.ReadDtcs | app/src/main/java/com/example/obdreader/ObdViewModel.kt:253-291 | one `03` exchange, decoded by the imperative loop, no codes on any exception |
| Session.ObdViewModel.ReadLiveData | app/src/main/java/com/example/obdreader/ObdViewModel.kt:190-200 | the four reads of a cycle leave the live readings and the adapter state of `ReadLive` on the current streams |
| Session.ObdViewModel.Disconnect | app/src/main/java/com/example/obdreader/ObdViewModel.kt:138-152 | socket and both streams are dropped and the status is "Disconnected"; nothing else changes |
| Session.ObdViewModel.OpenAndInitialize | app/src/main/java/com/example/obdreader/ObdViewModel.kt:107-125 | the I/O part of connecting has the outcome of the connection attempt; the socket handle is replaced only once it was created, and the streams only once it connected |
| Session.ObdViewModel.Connected | app/src/main/java/com/example/obdreader/ObdViewModel.kt:127-128 | the status becomes "Connected to " followed by the device's name, it is recorded in the status history, and the error is cleared |
| Session.ObdViewModel.ConnectionFailed | app/src/main/java/com/example/obdreader/ObdViewModel.kt:130-134 | the status passes through "Connection failed" to "Disconnected", the exception's message becomes the error, and the socket and both streams are dropped |
| Session.ObdViewModel.Connect | app/src/main/java/com/example/obdreader/ObdViewModel.kt:100-136 | with no device nothing happens. Otherwise, on success the status is "Connected to <name>" (a null name shows as `null`), the error is cleared and the socket is connected; on failure the exception's message is the error and the session ends disconnected, the status having passed through "Connecting...", "Connection failed", "Disconnected"; readings are untouched and both halves of the session invariant (connection and readings) are kept |
| Session.ObdViewModel.ConnectTo | app/src/main/java/com/example/obdreader/ObdViewModel.kt:103-135 | the launched coroutine has the outcome and adapter state of the connection attempt; on success the socket is connected, the status names the device and the history gained "Connecting..." and that status; on failure the session is disconnected with the exception's message as error; either way the connection half of the invariant holds |
| Session.ObdViewModel.ReadData | app/src/main/java/com/example/obdreader/ObdViewModel.kt:177-211 | without a connected socket only the error "Not connected to OBD device" is set. Otherwise the error is cleared, live data and codes are those of one polling cycle, the reading flag is down at the end, the connection is untouched and both halves of the session invariant are kept; from a valid session the adapter has received the five framed cycle commands in order |

## Left out

- Scanning paired devices and the device-name filter (`scanPairedDevices`,
  with its own error messages) are not modelled. The constructor takes the
  device the scan selected.
- The Android permission check and the RFCOMM socket are parameters of
  `Connect`: a flag, and how creating and connecting the socket went. The
  service UUID, the socket's own streams and `close()` are not modelled;
  a `close()` that throws is ignored by the source, so it is left out.
- A reconnect overwrites the old socket handle without closing it. The
  model replaces the handle too and does not model the resource that
  leaks.
- The raw I/O is left out: the 1024-byte read buffer, a read returning -1,
  a reply split over several reads, a read that blocks, and UTF-8 decoding
  of the bytes. A reply is the text of one read. A script with no reply
  left stands for a read that throws with a null message.
- `Thread.sleep(100)` between handshake commands, coroutines, dispatchers,
  and the interleaving of `disconnect`'s launched coroutine with later
  calls are not modelled. The model runs every operation to completion, in
  order.
- Session.VoltageReading: the `toDoubleOrNull` conversion to a floating
  point voltage is not modelled. The result is the text handed to the
  conversion, or `Zero` for 0.0; text that is not a number would also
  read as 0.0.
- The `catch` in `readData` is not modelled. The three readers catch every
  exception themselves, so it is unreachable unless the coroutine is
  cancelled: a `CancellationException` thrown outside the readers' `try`
  blocks, for instance after `onCleared` (lines 328-331). Cancellation is
  not modelled.
- Failures of `write` and `flush` in `sendCommand` (lines 167-168) are not
  modelled: every write succeeds and is logged. A failed write could only
  be approximated by a `Broken` reply, with the frame already logged.
- Hex.ParseByte: `toInt(16)` / `toIntOrNull(16)` also accept a leading `+`
  or `-` and non-ASCII Unicode digits. The model accepts only the 22 ASCII
  hex digits.
- `saveToJson` (file output and JSON), the `ObdSession` record, `onCleared`
  (which only calls `disconnect`) and the UI files
  (`MainActivity.kt`, `ObdReaderScreen.kt`) are not part of this model.
