# micro:bit OID sensor page: protocol core

A web page talks over Bluetooth to a micro:bit that serves up to four OID
pucks. The page sees the device through two UART characteristics. This
project models the page's byte-level protocol logic in Dafny and proves
properties of it.

- **Notifications (TX, `readTx`).** Each notification is four five-byte
  slices, one per puck channel: four data bytes, then a status byte.
  - Bits 7-3 of the status byte describe the puck: on the sensor or not,
    the button gesture, and the charger state.
  - Bits 2-0 tag the report kind:
    - a product-id report (tag 3) or a checksum report (tag 2) updates that
      channel's latched values;
    - a status report (tag 1) is shown together with the latched values;
    - any other tag is a position report (angle and position code).
  - Every notification counts one up on a log counter.
- **Commands (RX, `writeCmd`).** A command is sixteen bytes: four slices of
  four bytes, one per channel.
  - The last byte of a slice carries the command code in its high nibble.
  - The first three bytes carry the command's arguments:
    - colour for an LED set (code 4);
    - sound index and volume for a sound set (code 5);
    - nothing for an information request (code 6) or any other code.
- **Text helpers:** `padHex`, `padDec`, `hexToRgb` and
  `hexStringToUint8Array`.

Modules:

- `JsRuntime` (js_runtime.dfy): the JavaScript built-ins the code relies
  on, stated for the inputs it gives them:
  - the `byte` type and the `Uint8Array`/`setUint8` byte conversion;
  - `Number.prototype.toString(radix)`;
  - ASCII `toUpperCase`;
  - `slice(-k)`;
  - `parseInt(text, 16)`, including white space, sign, `0x` prefix, the
    longest digit run, and NaN.
- `Arith` (arith.dfy) and `Bits` (bits.dfy):
  - division facts;
  - `&` and `|` on non-negative integers, with the meaning of every mask
    the code uses.
- `TextFormat` (text_format.dfy): `padHex` and `padDec`, proved to be
  fixed-width digit strings of the value.
- `HexCodec` (hex_codec.dfy): `hexToRgb` and `hexStringToUint8Array` as
  written, plus a corrected conversion with its inverse, a hexadecimal
  encoder.
- `PuckStatus` (puck_status.dfy): `decodePuckState`, the status byte's
  fields, and an encoder they round-trip with.
- `Notification` (notification.dfy):
  - the `Session` class, whose fields are the four channels' latches
    (`nspPID_IDn`, `nspCS_IDn`, `nspMaxIdx_IDn`) and `logCounter`;
  - `ReadTx`, a loop over the channels proved against the reference
    functions `FrameLatches` and `FrameViews`;
  - per-report rules, and slice encoders that each report reads back.
- `CommandFrame` (command_frame.dfy): `writeCmd`'s sixteen-byte buffer as an
  `array<byte>` filled slice by slice, proved equal to the reference
  `FrameBytes`, together with a decoder that reads the commands back.

Where the code differs from a natural reading of the page's documented
behaviour, the model follows the code:

- **Frame length.** `readTx` never checks the length of a notification.
  - It counts the notification first.
  - It then processes channels in order until a `getUint8` would read past
    the end. That read throws, and the remaining channels and the log line
    are abandoned.
  - Bytes past the twentieth are never read.

  `ReadTx` has no length precondition. It reproduces all of this through
  `ChannelCount`.
- **Invalid colour in `writeCmd`.** When an LED set channel's colour text is
  not a colour, `hexToRgb` returns null. Reading `.b` from it throws, and
  nothing is sent. `WriteCmd` models this as a `None` result, not as a
  precondition.
- **Latches across connections.** The latches are module globals that
  nothing clears. `connect` resets only `logCounter`. This is modelled by
  `Session.Reconnect`.

## Model

| member | source | states |
|---|---|---|
| JsRuntime.ToRadixString | web-bluetooth-oidSensor_P3.js:142 | `toString(radix)` of a non-negative integer: at least one digit; by `ToRadixStringValue`, radix digits that denote the integer, with no leading zero unless it is 0 |
| JsRuntime.ParseIntHex | web-bluetooth-oidSensor_P3.js:161 | `parseInt(text, 16)`: NaN (`None`) when no hexadecimal digit follows the optional blanks, sign and `0x`; by `ParseTwoHexDigits`, two hexadecimal digits parse to the number they spell; by `InvalidHexAccepted`, "zz" parses to NaN |
| JsRuntime.ToRadixStringValue | web-bluetooth-oidSensor_P3.js:142 | `toString(radix)` of a non-negative integer is a string of radix digits that denotes the integer, with no leading zero unless the integer is 0 |
| JsRuntime.ParseTwoHexDigits | web-bluetooth-oidSensor_P3.js:161 | `parseInt` of two hexadecimal digits (either case) is the number they spell, and storing it in a `Uint8Array` keeps that number |
| TextFormat.PadHex | web-bluetooth-oidSensor_P3.js:141-143 | `padHex(value)` is always two characters; by `PadHexDigits`, two upper-case hexadecimal digits spelling value mod 256 |
| TextFormat.PadDec | web-bluetooth-oidSensor_P3.js:148-150 | `padDec(value)` is always four characters; by `PadDecDigits`, four decimal digits spelling value mod 10000 |
| TextFormat.PadHexDigits | web-bluetooth-oidSensor_P3.js:141-143 | `padHex(v)` is exactly two upper-case hexadecimal digits, equal to the upper-cased two-digit rendering of v, and they denote v mod 256 |
| TextFormat.PadDecDigits | web-bluetooth-oidSensor_P3.js:148-150 | `padDec(v)` is exactly four decimal digits, the four-digit rendering of v, and they denote v mod 10000 |
| TextFormat.PaddedTail | web-bluetooth-oidSensor_P3.js:142 | the last `width` characters of `width` zeros followed by `toString(radix)` are the `width` least significant digits of the number |
| TextFormat.FixedDigitsValue | web-bluetooth-oidSensor_P3.js:141-150 | the fixed-width rendering denotes exactly the value modulo radix^width |
| HexCodec.PadHexOfByte | web-bluetooth-oidSensor_P3.js:141-143 | `padHex` of a byte is that byte's high and low hexadecimal digit, upper case |
| HexCodec.HexToRgb | web-bluetooth-oidSensor_P3.js:221-228 | a result is returned exactly when the text is six hexadecimal digits in either case with an optional leading '#' (null otherwise), and every component is in 0..255 |
| HexCodec.HexToRgbValue | web-bluetooth-oidSensor_P3.js:222-227 | the r, g, b components are the numbers spelled by the first, second and third digit pairs |
| HexCodec.ColorRoundTrip | web-bluetooth-oidSensor_P3.js:221-228 | every colour a picker reports as "#rrggbb" is read back as that colour |
| HexCodec.HexToRgbIgnoresCase | web-bluetooth-oidSensor_P3.js:222 | the match is case-insensitive: upper-casing the text does not change the result |
| HexCodec.HexStringToUint8Array | web-bluetooth-oidSensor_P3.js:155-168 | the code as written: throws exactly on an odd length; otherwise returns length/2 bytes, byte k being the `Uint8Array` store of `parseInt` of characters 2k and 2k+1 |
| HexCodec.PairByteAsWritten | web-bluetooth-oidSensor_P3.js:161-165 | the byte stored for pair k: `parseInt` of the two characters through the `Uint8Array` store, NaN as 0; by `PairByteAsWrittenOnHex` the byte the pair spells on hexadecimal text, by `InvalidHexAccepted` 0 for "zz" |
| HexCodec.PairByteAsWrittenOnHex | web-bluetooth-oidSensor_P3.js:160-166 | on text made only of hexadecimal digits, the byte stored for each pair is the byte that pair spells |
| HexCodec.InvalidHexAccepted | web-bluetooth-oidSensor_P3.js:161-165 | the NaN test never rejects: "zz" has even length and no hexadecimal digit, `parseInt("zz", 16)` is NaN, yet its pair is stored as 0 instead of throwing |
| HexCodec.HexStringToBytes | web-bluetooth-oidSensor_P3.js:155-168 | the corrected conversion: succeeds exactly on even-length all-hexadecimal text, and then returns the bytes the digit pairs spell |
| HexCodec.HexRoundTrip | web-bluetooth-oidSensor_P3.js:155-168 | the hexadecimal text of any byte sequence is even-length and all hexadecimal, and the conversion gives that sequence back |
| PuckStatus.DecodePuckState | web-bluetooth-oidSensor_P3.js:173-219 | the puck line is at least sixteen characters; by `DecodePuckStateMeaning`, "C:" with ON exactly when bit 7 is set, "B:" with the gesture of bits 6-5 and "NPM:" with the charger state of bits 4-3 |
| PuckStatus.ReportTag | web-bluetooth-oidSensor_P3.js:278 | `stateValue & 0x07` is the status byte modulo 8 |
| PuckStatus.EncodePuckState | web-bluetooth-oidSensor_P3.js:173-219 | the status byte built from a puck state and a tag carries that tag in its low three bits |
| PuckStatus.DecodePuckStateMeaning | web-bluetooth-oidSensor_P3.js:173-219 | the text is the wording of the byte's fields: "ON" exactly when bit 7 is set; PRESS/DOUBLE/LONG/NONE by bits 6-5 (`& 0x60`); CHARGING STOP/CHARGING/CHARGING ERROR!/NO USB by bits 4-3 (`& 0x18`) |
| PuckStatus.DecodeIgnoresTag | web-bluetooth-oidSensor_P3.js:176-217 | bytes that agree on bits 7-3 give the same text, whatever their report tag |
| PuckStatus.EncodeDecodedState | web-bluetooth-oidSensor_P3.js:173-219 | every byte is the encoding of the fields read from it and of its tag |
| PuckStatus.DecodeEncodedState | web-bluetooth-oidSensor_P3.js:173-219 | reading the fields of an encoded byte gives back the puck state |
| PuckStatus.PuckStateTextInjective | web-bluetooth-oidSensor_P3.js:173-219 | different puck states are worded differently, so the text determines the state |
| Notification.ChannelCount | web-bluetooth-oidSensor_P3.js:269-468 | the number of channels a notification gets through is at most 4; their slices lie within the value, and when fewer than 4, the next slice does not |
| Notification.Word | web-bluetooth-oidSensor_P3.js:290 | `(hi << 8) \| lo` of two bytes is hi*256+lo, below 65536 |
| Notification.AngleBits | web-bluetooth-oidSensor_P3.js:308 | `word & 0x01FF` is the word modulo 512 |
| Notification.LowBitSet | web-bluetooth-oidSensor_P3.js:295 | `b & 0x01` is truthy exactly when b is odd |
| Notification.Session.constructor | web-bluetooth-oidSensor_P3.js:232-245 | all four channels start with no product id, no checksum and max index 0; the counter starts at 0 |
| Notification.Session.Reconnect | web-bluetooth-oidSensor_P3.js:713 | a new connection resets the counter to 0 and keeps every latch |
| Notification.Session.ReadTx | web-bluetooth-oidSensor_P3.js:251-473 | the counter goes up by exactly one; each channel the notification gets through updates its latch by the latch rule, and the others are unchanged; the views are those channels' reports and puck lines, read with the latches as they stood before |
| Notification.Session.ReadChannel | web-bluetooth-oidSensor_P3.js:270-318 | one channel's block changes only that channel's latch, by the latch rule, leaves the counter alone, and yields the slice's report and puck line |
| Notification.DecodeSlice | web-bluetooth-oidSensor_P3.js:278-313 | the branch on `& 0x07` produces the next latch and the report the reference rules give for the slice |
| Notification.DecodeProductId | web-bluetooth-oidSensor_P3.js:279-285 | tag 3 branch: latches the product id the reference rule gives and reports it latched |
| Notification.DecodeChecksum | web-bluetooth-oidSensor_P3.js:286-291 | tag 2 branch: latches the checksum and max index the reference rule gives |
| Notification.DecodeStatus | web-bluetooth-oidSensor_P3.js:292-304 | tag 1 branch: the latch is unchanged and the report is the reference status report |
| Notification.DecodePosition | web-bluetooth-oidSensor_P3.js:306-313 | other tags: the latch is unchanged and the report is the reference position report |
| Notification.BuildProductId | web-bluetooth-oidSensor_P3.js:280-284 | the product id built with four `padHex` appends is the hexadecimal text of bytes 3, 2, 1, 0 |
| Notification.BuildChecksum | web-bluetooth-oidSensor_P3.js:287-289 | the checksum built with two `padHex` appends is the hexadecimal text of bytes 1, 0 |
| Notification.ProductIdText | web-bluetooth-oidSensor_P3.js:280-284 | the four `padHex` renderings in order are the hexadecimal text of bytes 3, 2, 1, 0 |
| Notification.ChecksumText | web-bluetooth-oidSensor_P3.js:287-289 | the two `padHex` renderings in order are the hexadecimal text of bytes 1, 0 |
| Notification.NextLatch | web-bluetooth-oidSensor_P3.js:278-291 | the latch after one slice; by `ProductIdRule`, `ChecksumRule` and `OtherReportsKeepLatch`: tag 3 latches the hexadecimal text of bytes 3, 2, 1, 0, tag 2 the text of bytes 1, 0 and the max index of bytes 3, 2, and any other tag changes nothing |
| Notification.SliceReport | web-bluetooth-oidSensor_P3.js:278-311 | the report a slice shows; by `StatusRule` and `PositionRule`: tag 1 gives the error bit, volume, battery and the status line quoting the latches, tags 0 and 4-7 the masked angle and position code, tags 2 and 3 no line |
| Notification.ProductIdRule | web-bluetooth-oidSensor_P3.js:279-285 | tag 3 latches an eight-digit hexadecimal id that decodes to bytes 3, 2, 1, 0; checksum and max index unchanged |
| Notification.ChecksumRule | web-bluetooth-oidSensor_P3.js:286-291 | tag 2 latches a four-digit hexadecimal checksum that decodes to bytes 1, 0, and a max index below 65536 with high byte = byte 3 and low byte = byte 2; product id unchanged |
| Notification.OtherReportsKeepLatch | web-bluetooth-oidSensor_P3.js:278-313 | the latch changes only for product-id and checksum reports |
| Notification.StatusRule | web-bluetooth-oidSensor_P3.js:292-304 | tag 1: "Error!" exactly when bit 0 of byte 3 is set; volume = byte 2; battery = word of bytes 1, 0; the line quotes the channel's current latches, with "undefined" for an unset one |
| Notification.PositionRule | web-bluetooth-oidSensor_P3.js:306-313 | other tags: the angle is bit 0 of byte 3 times 256 plus byte 2, never above 511; the position code is the word of bytes 1, 0, below 65536 |
| Notification.AngleNotClamped | web-bluetooth-oidSensor_P3.js:308 | the angle is not limited to 0..359: a slice with byte 3 = 0x01 and byte 2 = 0xFF reads as 511 |
| Notification.ProductIdSliceRead | web-bluetooth-oidSensor_P3.js:279-285 | a product-id slice for an id latches the hexadecimal text of that id |
| Notification.ChecksumSliceRead | web-bluetooth-oidSensor_P3.js:286-291 | a checksum slice latches its checksum's text and its max index |
| Notification.StatusSliceRead | web-bluetooth-oidSensor_P3.js:292-304 | a status slice is reported with its error flag, volume and battery reading, and leaves the latch unchanged |
| Notification.PositionSliceRead | web-bluetooth-oidSensor_P3.js:306-313 | a position slice for any angle below 512 and any position code is reported with exactly those values |
| Notification.PositionSliceOfReport | web-bluetooth-oidSensor_P3.js:306-313 | every position slice is the slice of its own report, up to the seven high bits of byte 3, which are ignored |
| Notification.PuckLine | web-bluetooth-oidSensor_P3.js:315-318 | each channel's puck line shows the state its status byte encodes |
| Notification.ExtraBytesIgnored | web-bluetooth-oidSensor_P3.js:269-468 | a notification longer than 20 bytes has the same effect as its first 20 bytes |
| Notification.ChannelLocality | web-bluetooth-oidSensor_P3.js:270-468 | a channel's new latch and view depend only on its own five bytes and its own latch |
| Notification.LatchesAfter | web-bluetooth-oidSensor_P3.js:234-245 | the latches are page globals that every notification updates and nothing clears: after a run of notifications they are each notification's latch rule applied in order |
| Notification.ProductIdPersists | web-bluetooth-oidSensor_P3.js:278-291 | a latched product id survives every later notification that does not carry a product-id report on the same channel (checksum, status and position reports, or one too short to reach the channel) |
| Notification.StatusQuotesLatchedId | web-bluetooth-oidSensor_P3.js:279-304 | a status report quotes the product id its channel latched from an earlier notification, however many notifications came in between, provided none of them reported another product id on that channel |
| CommandFrame.RequestedCommand | web-bluetooth-oidSensor_P3.js:512-537 | the `== 4`/`== 5`/`== 6` dispatch gives no command exactly for an LED set with a text that is not a colour; every command it gives fits its fields |
| CommandFrame.CommandBytes | web-bluetooth-oidSensor_P3.js:512-537 | every command fills exactly four bytes; by `LedSlice`, `SoundSlice` and `CodeSlice` they are the bytes each branch writes, and by `CommandRoundTrip` the command reads back from them |
| CommandFrame.CodeNibble | web-bluetooth-oidSensor_P3.js:517 | `(cmd << 4) & 0xF0` is the low nibble of cmd, moved to the high nibble |
| CommandFrame.ControlByte | web-bluetooth-oidSensor_P3.js:517 | the code nibble OR-ed with a low nibble is the byte 16*(cmd mod 16) + low |
| CommandFrame.PatternNibble | web-bluetooth-oidSensor_P3.js:517 | `pattern & 0x0F` is pattern mod 16 |
| CommandFrame.LowByte | web-bluetooth-oidSensor_P3.js:521 | `x & 0x00FF` is x mod 256 |
| CommandFrame.IndexBytes | web-bluetooth-oidSensor_P3.js:521-522 | `(index >> 0) & 0xFF` and `(index >> 8) & 0xFF` are the index's low byte and the next byte |
| CommandFrame.IndexWord | web-bluetooth-oidSensor_P3.js:521-522 | those two bytes are the low and high byte of the index modulo 65536 |
| CommandFrame.WriteCmd | web-bluetooth-oidSensor_P3.js:488-618 | nothing is sent exactly when some LED set channel has no valid colour; otherwise the sixteen bytes are the four commands' slices in channel order |
| CommandFrame.WriteSlice | web-bluetooth-oidSensor_P3.js:512-537 | one channel's block fails exactly where the colour lookup throws; otherwise its slice holds the channel's command bytes, the slices before it are unchanged and the bytes after it are still zero |
| CommandFrame.WriteLedSlice | web-bluetooth-oidSensor_P3.js:512-518 | LED set with a valid colour: the slice becomes the LED command's bytes (blue, green, red, code nibble with `pattern & 0x0F`, by `LedSlice`) and the bytes before it are unchanged |
| CommandFrame.WriteSoundSlice | web-bluetooth-oidSensor_P3.js:519-528 | sound set: the slice becomes the sound command's bytes (index low and high byte, volume modulo 256, code nibble with the loop bit, by `SoundSlice`) and the bytes before it are unchanged |
| CommandFrame.WriteCodeSlice | web-bluetooth-oidSensor_P3.js:529-537 | information request and other codes: only the last byte is written, so the slice becomes three zeros and the code nibble with a zero low nibble (by `CodeSlice`); the bytes before it are unchanged and those after it stay zero |
| CommandFrame.LedSlice | web-bluetooth-oidSensor_P3.js:512-518 | the LED command's bytes are blue, green, red and 0x40 + pattern mod 16 |
| CommandFrame.SoundSlice | web-bluetooth-oidSensor_P3.js:519-528 | the sound command's bytes are the index modulo 65536, low byte first, the volume modulo 256 and 0x50 plus the loop bit |
| CommandFrame.CodeSlice | web-bluetooth-oidSensor_P3.js:529-537 | every other selector gives three zero bytes and 16*(cmd mod 16) |
| CommandFrame.CommandRoundTrip | web-bluetooth-oidSensor_P3.js:512-618 | reading a slice back by the high nibble of its last byte recovers every command, except a bare code equal to 4, 5 or 6 |
| CommandFrame.SelectorAliasing | web-bluetooth-oidSensor_P3.js:512-537 | a selector such as 20, whose low nibble is 4, 5 or 6 but which is not 4, 5 or 6, takes the generic branch, yet reads back as an LED set, sound set or information request with zero arguments |
| CommandFrame.SelectorRoundTrip | web-bluetooth-oidSensor_P3.js:517 | for a selector from 0 to 15, the high nibble of the last byte is the selector, and the whole command reads back |
| CommandFrame.FrameSlice | web-bluetooth-oidSensor_P3.js:488-618 | bytes 4j..4j+3 of the frame are channel j's command bytes |
| CommandFrame.PrefixSlice | web-bluetooth-oidSensor_P3.js:512-618 | after the first n channel blocks, bytes 4j..4j+3 are channel j's bytes for every j < n: channel p1 writes offsets 0-3, p2 4-7, p3 8-11 and p4 12-15, each block in its own slice |

## Left out

- Web Bluetooth plumbing is not modelled: device request, GATT connection, characteristic lookup, `startNotifications` and the `writeValue` promise chain. It is asynchronous browser I/O. A notification is the byte sequence handed to `ReadTx`. The sent command is the array `WriteCmd` returns.
- DOM and logging are not modelled. Every `innerHTML` write is left out, and so are the `addEventListener` calls in `writeCmd` and the log helpers. The values `writeCmd` reads from page controls are the fields of `ChannelControls`.
- The battery voltage and its rounding (`battery * 4.2 / 1023`, `Math.ceil`) are floating point. The battery text line shown beside it is not modelled either.
- `microbitUuid.searchUuid` only looks up display names.
- The diagnostic dumps are display-only: `data_ID1..4`, the `rx_log` line and the `txDataRpt` line in `writeCmd`. `padDec`, which the `rx_log` line uses, is modelled on its own (`TextFormat.PadDecDigits`).
- The `TextDecoder` guard at the top of `readTx` is not modelled, because its condition is always false and the page always takes the other branch.
- `logCounter` is `undefined` (and the increment gives NaN) until the first connection completes. The model starts the counter at 0 in `Session.constructor`. It does not model a notification arriving before `connect` reaches the reset.
- `Session.ReadTx` returns views only for the channels it processed. It does not model that an abandoned channel's page elements keep their previous text.
- ChannelControls: control values are integers. Non-integer or non-numeric text in a control, which JavaScript would coerce through ToNumber and ToInt32, is not modelled.
- CommandFrame.RequestedCommand: `hexToRgb` is called three times per LED set slice. Being pure, it is modelled as one call.
- Strings are sequences of characters, one element per character. Text outside the Basic Multilingual Plane is not modelled: JavaScript counts such a character as two UTF-16 units in `length` and `substr`, so a board code typed with one would split differently in `hexStringToUint8Array`.

## Findings

| source | as written | input that shows it | evidently intended | confidence | as-written member | corrected member |
|---|---|---|---|---|---|---|
| web-bluetooth-oidSensor_P3.js:161-165 | `byteValue == NaN` is false for every number, so a pair that is not hexadecimal is stored (NaN becomes 0) instead of throwing | "zz" gives the single byte 0 | throw "Invalid hexString" for any non-hexadecimal pair | not executed | HexCodec.InvalidHexAccepted | HexCodec.HexStringToBytes |
