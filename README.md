# iDotMatrix web client: device protocol layer in Dafny

This project models the protocol layer of the web client that drives an
iDotMatrix pixel display (`web/src/protocol/` and `web/src/lib/color-utils.ts`).
It covers three parts:

- **Command codec.** Every single-packet command (power, brightness, flip,
  freeze, reset, clock, time, countdown, eco schedule, full-screen colour,
  effect, graffiti, scoreboard, DIY mode) is a function that returns the
  exact bytes. Byte stores into a `Uint8Array` and `& 0xff` are written out
  as reduction modulo 256. The buffer-filling code of `effect`,
  `graffitiPixels` and the text command stays imperative: arrays written
  in place, each method proved equal to a specification function.
  Lemmas then read the fields back off that function.
- **Chunker and checksum.** `splitBySize` is a loop proved equal to a
  recursive slicing function. That function has the properties
  `splitBySize` promises: the piece count, piece sizes, and joining back
  to the input. The image and GIF stream builders fill their headers in
  place. Both are proved equal to one shared `Stream` function, and a
  receiver that strips the headers gets the payload back. The CRC-32 is
  the IEEE 802.3 checksum over `bv32`, checked against its standard check
  value.
- **Transports.**
  - `WebBluetoothTransport` is a class whose fields are the ones the
    source assigns. What the browser answers is an input of each step,
    and the characteristic is a log of writes. `sendBytes` and
    `sendPackets` are proved to write exactly the fragments of their
    input, with the acknowledgement policy of the code.
  - `HttpTransport` is a class too. Each awaited `fetch` becomes a reply
    passed in, and the interval timer becomes numbered timers.
    `_startPolling` and `_stopPolling` keep at most one interval alive,
    and a run of poll replies fires the disconnect callback at most once.

`isConnected()` and `deviceName()` of both transports are the accessor
functions `IsConnected` and `DeviceName` of the two classes. What they
return after each operation follows from that operation's contract.

Where the code and the repository's design description differ, the model
follows the code:

- There is no reconnect handling, no `onReconnect`, and no "reconnecting"
  status field.
- `WebBluetoothTransport.sendBytes` acknowledges every fragment when
  `withResponse` is set, not only the last one. `sendPackets` acknowledges
  only the last fragment of each packet.
- A `connect()` that fails after `gatt.connect()` leaves the server, and
  any earlier characteristic, in place.
- The relay endpoints are the code's `/api/...` paths.
- `HttpTransport.disconnect()` with the server unreachable rejects after
  it has stopped polling. It leaves `_connected` and `_deviceName` as they
  were.

## Model

| member | source | states |
|---|---|---|
| Chunking.Int16LE | web/src/protocol/chunking.ts:4-9 | two bytes whose little-endian value is the argument modulo 2^16 |
| Chunking.Int32LE | web/src/protocol/chunking.ts:11-18 | four bytes whose little-endian value is the argument modulo 2^32 |
| Chunking.EncodersTruncate | web/src/protocol/chunking.ts:4-18 | only the argument modulo 2^16 (resp. 2^32) influences the encoding |
| Chunking.Int32LEExact | web/src/protocol/chunking.ts:11-18 | an unsigned 32-bit value is read back exactly from its encoding |
| Chunking.LittleEndianInjective | web/src/protocol/chunking.ts:4-18 | equal-length byte strings with the same little-endian value are equal, so a field is determined by its value |
| Chunking.ConcatBytes | web/src/protocol/chunking.ts:20-29 | the copying loop yields the inputs joined in order |
| Chunking.ChunksCount | web/src/protocol/chunking.ts:31-37 | splitting yields ceil(length / size) pieces |
| Chunking.ChunksSizes | web/src/protocol/chunking.ts:31-37 | every piece is non-empty and at most `size` long, and all but the last are exactly `size` long |
| Chunking.ChunksFlatten | web/src/protocol/chunking.ts:31-37 | joining the pieces gives back the input |
| Chunking.ChunksShape | web/src/protocol/chunking.ts:31-37 | all of the above, plus: no pieces exactly for empty input |
| Chunking.SplitBySize | web/src/protocol/chunking.ts:31-37 | the `slice` loop yields exactly the pieces of the slicing function |
| Chunking.SplitByMTU | web/src/protocol/chunking.ts:39-41 | MTU fragments are the pieces of size 509 |
| Chunking.StreamShape | web/src/protocol/chunking.ts:51-120 | for any header: one packet per 4096-byte slice, fragments within the MTU, and each packet joins to its header followed by its slice |
| Chunking.StreamRoundTrip | web/src/protocol/chunking.ts:51-120 | with fixed-size headers, stripping them and joining the slices gives back the payload |
| Chunking.FillImageHeader | web/src/protocol/chunking.ts:59-69 | the nine header assignments produce the length, command, continuation flag and total-length fields |
| Chunking.CreateImagePackets | web/src/protocol/chunking.ts:51-76 | the builder loop produces the image stream |
| Chunking.ImagePacketAt | web/src/protocol/chunking.ts:56-73 | packet i joins to the image header of slice i followed by that slice |
| Chunking.ImageHeaderFields | web/src/protocol/chunking.ts:58-71 | an image header plus slice carries its own length, command 0, the continuation flag, the total length, then the slice |
| Chunking.ImagePacketLayout | web/src/protocol/chunking.ts:51-76 | every packet's fields: its own length, flag 0 only on the first, the same total length in all, its slice after byte 9 |
| Chunking.ImageRoundTrip | web/src/protocol/chunking.ts:51-76 | the image payload is recovered from its packets |
| Chunking.FillGifHeader | web/src/protocol/chunking.ts:92-113 | the sixteen header assignments produce length, command 1, flag, total length, CRC, two zero bytes and the type byte |
| Chunking.CreateGifPackets | web/src/protocol/chunking.ts:82-120 | the builder loop produces the GIF stream, with the time signature unused |
| Chunking.GifPacketAt | web/src/protocol/chunking.ts:89-117 | packet i joins to the GIF header of slice i followed by that slice |
| Chunking.GifHeaderParts | web/src/protocol/chunking.ts:92-113 | the five fields of a GIF header at their offsets |
| Chunking.GifHeaderFields | web/src/protocol/chunking.ts:91-115 | a GIF header plus slice carries its own length, command 1, flag, total length, the CRC exactly, the type byte, then the slice |
| Chunking.GifPacketLayout | web/src/protocol/chunking.ts:82-120 | every packet carries the CRC-32 of the whole payload and the total length, and only length and flag vary |
| Chunking.GifRoundTrip | web/src/protocol/chunking.ts:82-120 | the GIF payload is recovered from its packets |
| Checksum.Crc32 | web/src/protocol/chunking.ts:43-45 | the checksum as an unsigned 32-bit number |
| Checksum.RegisterAppend | web/src/protocol/chunking.ts:43-45 | the CRC register may be fed a payload in two parts |
| Checksum.CheckValue | web/src/protocol/chunking.ts:43-45 | the CRC-32 of "123456789" is 0xCBF43926, the standard check value |
| CommonCommands.TurnOn | web/src/protocol/commands/common.ts:1-3 | a framed 5-byte command, opcode 7/1, state byte 1 |
| CommonCommands.TurnOff | web/src/protocol/commands/common.ts:5-7 | a framed 5-byte command, opcode 7/1, state byte 0 |
| CommonCommands.PowerCommandsDifferInStateOnly | web/src/protocol/commands/common.ts:1-7 | on and off agree except in the state byte |
| CommonCommands.SetBrightness | web/src/protocol/commands/common.ts:9-12 | the percentage is clamped to 5..100: kept inside, 5 below, 100 above |
| CommonCommands.SetFlip | web/src/protocol/commands/common.ts:14-16 | the last byte is 1 exactly when flipped |
| CommonCommands.FreezeScreen | web/src/protocol/commands/common.ts:18-20 | a framed 4-byte command, opcode 3/0 |
| CommonCommands.ResetDevice | web/src/protocol/commands/common.ts:22-24 | the freeze command with bit 7 of its last byte set |
| CommonCommands.JsRemainder | web/src/protocol/commands/common.ts:27 | JavaScript `%`: the remainder has the dividend's sign, lies strictly between -b and b, and differs from the dividend by a multiple of b |
| CommonCommands.IsoWeekday | web/src/protocol/commands/common.ts:30 | Sunday becomes 7, other days keep their number, and it is congruent to the JS day modulo 7 |
| CommonCommands.SetTime | web/src/protocol/commands/common.ts:26-35 | the year byte is the JavaScript remainder of the full year by 100 stored in a byte (plain year modulo 100 for years from 0 on), month 1..12, day, weekday 1..7, then hour, minute and second, in a framed 11-byte command |
| CommonCommands.WeekdayByteDistinguishesDays | web/src/protocol/commands/common.ts:30-34 | different weekdays give different weekday bytes |
| CommonCommands.SetTimeExample | web/src/protocol/commands/common.ts:26-35 | the bytes for Friday 15 March 2024, 14:30:05 |
| ClockCommand.ClockFlags | web/src/protocol/commands/clock.ts:9 | the style fills bits 0-5, hour24 is bit 6, showDate is bit 7 |
| ClockCommand.FlagBitsValue | web/src/protocol/commands/clock.ts:9 | the OR of the three disjoint fields equals their sum |
| ClockCommand.ShowClock | web/src/protocol/commands/clock.ts:3-11 | framed 8-byte command with the flags and the colour, white when omitted |
| CountdownCommand.Countdown | web/src/protocol/commands/countdown.ts:1-3 | framed 7-byte command with action, minutes and seconds each modulo 256 |
| CountdownCommand.CountdownWraps | web/src/protocol/commands/countdown.ts:1-3 | arguments equal modulo 256 give the same command (wrapped, never clamped) |
| EcoCommand.EcoMode | web/src/protocol/commands/eco.ts:1-18 | framed 10-byte command: enabled flag, then the schedule and brightness modulo 256 |
| EcoCommand.EcoModeReadBack | web/src/protocol/commands/eco.ts:9-17 | a schedule of byte values is read back unchanged |
| FullscreenColorCommand.FullscreenColor | web/src/protocol/commands/fullscreen-color.ts:3-5 | framed 7-byte command with the channels modulo 256 |
| FullscreenColorCommand.FullscreenColorInjective | web/src/protocol/commands/fullscreen-color.ts:3-5 | distinct byte colours give distinct commands |
| EffectCommand.ColorBytesAt | web/src/protocol/commands/effect.ts:26-30 | colour i occupies offsets 3i..3i+2 of the colour block |
| EffectCommand.PutHeader | web/src/protocol/commands/effect.ts:19-25 | the seven header stores write the effect header |
| EffectCommand.PutTriple | web/src/protocol/commands/effect.ts:27-29 | three stores append one truncated colour |
| EffectCommand.Effect | web/src/protocol/commands/effect.ts:3-32 | the filling loop produces header then colour triples |
| EffectCommand.EffectLayout | web/src/protocol/commands/effect.ts:17-31 | length 7 + 3n, first byte 6 + n (never the length), the style, 90, the count, and colour i at 7 + 3i |
| GraffitiCommand.PairBytesAt | web/src/protocol/commands/graffiti.ts:17-20 | pixel i occupies offsets 2i, 2i+1 of the pixel block |
| GraffitiCommand.PutPair | web/src/protocol/commands/graffiti.ts:18-19 | two stores append one truncated coordinate pair |
| GraffitiCommand.PutHeader | web/src/protocol/commands/graffiti.ts:9-16 | the eight header stores write size, mode bytes and colour |
| GraffitiCommand.GraffitiPixels | web/src/protocol/commands/graffiti.ts:5-22 | the filling loop produces the header then the first 255 pairs |
| GraffitiCommand.GraffitiLayout | web/src/protocol/commands/graffiti.ts:5-22 | framed, at most 518 bytes, modes 5/1/0, the colour, and exactly the first 255 pixels modulo 256 read back as pairs |
| ScoreboardCommand.ClampCount | web/src/protocol/commands/scoreboard.ts:2-3 | counts are clamped to 0..999: kept inside, 0 below, 999 above |
| ScoreboardCommand.CounterBytes | web/src/protocol/commands/scoreboard.ts:7-8 | a clamped counter's two bytes read back as the counter, high byte at most 3 |
| ScoreboardCommand.Scoreboard | web/src/protocol/commands/scoreboard.ts:1-10 | framed 8-byte command whose two little-endian counters are the clamped counts |
| ScoreboardCommand.ScoreboardReadBack | web/src/protocol/commands/scoreboard.ts:5-9 | counts in 0..999 reach the device unchanged |
| ImageCommands.EnableDIYMode | web/src/protocol/commands/image.ts:3-5 | framed 5-byte command, opcode 4/1, state 1 |
| ImageCommands.DisableDIYMode | web/src/protocol/commands/image.ts:7-9 | framed 5-byte command, opcode 4/1, state 0 |
| ImageCommands.DIYModeDiffersInStateOnly | web/src/protocol/commands/image.ts:3-9 | enable and disable differ only in the state byte |
| ImageCommands.ImagePackets | web/src/protocol/commands/image.ts:11-13 | the image stream: packet count, fragment bound, and the payload recovered |
| GifCommands.GifStreamShape | web/src/protocol/commands/gif.ts:3-5 | a GIF upload has one packet per 4096-byte slice, fragments within the MTU |
| GifCommands.GifStreamHeaders | web/src/protocol/commands/gif.ts:3-5 | every packet has command 1, type 12 and the CRC-32 of the whole GIF |
| GifCommands.GifPackets | web/src/protocol/commands/gif.ts:3-5 | the type-12 GIF stream with its shape, headers and the payload recovered |
| TextCommand.MaskIsShift | web/src/protocol/commands/text.ts:34 | the bit mask is `1 << n` |
| TextCommand.OrBit | web/src/protocol/commands/text.ts:34 | OR-ing in a bit sets that bit and leaves the others as they were |
| TextCommand.GlyphByteBit | web/src/protocol/commands/text.ts:29-37 | bit k of a partly filled glyph byte is set iff k is filled and its pixel is lit |
| TextCommand.GlyphBits | web/src/protocol/commands/text.ts:29-37 | the 64-byte bitmap is LSB-first: bit x%8 of byte 2y + x/8 is set iff pixel (x, y) is lit |
| TextCommand.SetPixel | web/src/protocol/commands/text.ts:33-35 | sets bit `bit` of byte k when the pixel is lit and leaves every other byte unchanged |
| TextCommand.PixelPlace | web/src/protocol/commands/text.ts:34 | the left half of a row is byte 2y, the right half byte 2y + 1 |
| TextCommand.RowStepLeft | web/src/protocol/commands/text.ts:30-35 | setting left-half pixel x extends byte 2y by one filled bit |
| TextCommand.RowStepRight | web/src/protocol/commands/text.ts:30-35 | setting right-half pixel 8 + b extends byte 2y + 1 by one filled bit |
| TextCommand.PlotPixel | web/src/protocol/commands/text.ts:30-36 | one inner-loop step takes the row from x to x + 1 filled pixels, other bytes untouched |
| TextCommand.RenderRow | web/src/protocol/commands/text.ts:30-36 | the inner loop fills both bytes of row y and nothing else |
| TextCommand.RenderCharToBitmap | web/src/protocol/commands/text.ts:11-40 | the double loop over a zeroed buffer yields the packed glyph |
| TextCommand.TextBitmaps | web/src/protocol/commands/text.ts:55-60 | 68 bytes per character |
| TextCommand.TextBitmapsAt | web/src/protocol/commands/text.ts:55-60 | character i is the separator then its glyph, at bytes 68i..68i+67 |
| TextCommand.TextHeader | web/src/protocol/commands/text.ts:79-91 | the header is 16 bytes |
| TextCommand.RenderText | web/src/protocol/commands/text.ts:55-60 | the first loop yields the separators and glyphs of all characters |
| TextCommand.AddHeader | web/src/protocol/commands/text.ts:79-93 | the header written byte by byte, then the packet |
| TextCommand.BuildTextCommand | web/src/protocol/commands/text.ts:45-94 | the whole builder yields header, metadata and glyphs |
| TextCommand.TextHeaderFields | web/src/protocol/commands/text.ts:79-93 | total length modulo 2^16, command 3, packet length, the CRC-32 of everything after the header, footer 0/0/12 |
| TextCommand.TextMetadataFields | web/src/protocol/commands/text.ts:62-75 | 14 bytes: the character count, the fixed bytes 0/1, then the modes, speed and colours modulo 256 |
| TextCommand.TextGlyphAt | web/src/protocol/commands/text.ts:54-93 | character i sits at bytes 30 + 68i to 97 + 68i of the command |
| TextCommand.TextPacketHeader | web/src/protocol/commands/text.ts:45-94 | the first 30 bytes of a command for k characters: lengths 30 + 68k and 14 + 68k, the CRC, the metadata |
| TextCommand.TextPacketGlyphs | web/src/protocol/commands/text.ts:45-94 | every character reaches the device as separator then glyph, in order |
| ColorUtils.HexValue | web/src/lib/color-utils.ts:6-8 | a hex digit's value is below 16 |
| ColorUtils.HexDigit | web/src/lib/color-utils.ts:13 | `toString(16)` prints a lowercase digit that reads back as its value |
| ColorUtils.RemoveFirst | web/src/lib/color-utils.ts:4 | `replace('#', '')` removes one character when there is a `#` and none otherwise |
| ColorUtils.RemoveFirstCuts | web/src/lib/color-utils.ts:4 | `replace('#', '')` cuts the string at its first `#` and keeps both sides in order |
| ColorUtils.RemoveFirstDropsFirst | web/src/lib/color-utils.ts:4 | the character removed is a `#` with no `#` before it, and the rest is kept in order around it |
| ColorUtils.Substring | web/src/lib/color-utils.ts:6-8 | `substring` clamps both ends to the length |
| ColorUtils.TrimStart | web/src/lib/color-utils.ts:6-8 | `parseInt` skips leading white space and only that |
| ColorUtils.TrimStartSkips | web/src/lib/color-utils.ts:6-8 | the skipped part is exactly the leading run of white space |
| ColorUtils.LeadingSpacesAreSpaces | web/src/lib/color-utils.ts:6-8 | every character of that leading run is white space |
| ColorUtils.TrimStartDropsSpaces | web/src/lib/color-utils.ts:6-8 | what `parseInt` skips is a prefix made of white space only, and the rest is kept as it is |
| ColorUtils.HexRun | web/src/lib/color-utils.ts:6-8 | `parseInt` reads the longest run of hex digits |
| ColorUtils.HexString | web/src/lib/color-utils.ts:13 | `toString(16)` is never empty |
| ColorUtils.PairValue | web/src/lib/color-utils.ts:6-8 | two hex digits read as a number below 256 |
| ColorUtils.HexDigitsValueBound | web/src/lib/color-utils.ts:6-8 | n hex digits are worth less than 16^n |
| ColorUtils.ParseIntHexRange | web/src/lib/color-utils.ts:6-8 | `parseInt(s, 16)` has magnitude below 16 to the power of the length of `s`, and the empty string gives NaN |
| ColorUtils.ParseIntHexSign | web/src/lib/color-utils.ts:6-8 | `parseInt(s, 16)` is negative only when `s` holds a minus sign |
| ColorUtils.HexToRgbRange | web/src/lib/color-utils.ts:3-10 | each channel of `hexToRgb` is NaN or strictly between -256 and 256; a string too short to reach a channel's characters leaves it NaN |
| ColorUtils.HexDigitsLength | web/src/lib/color-utils.ts:13 | `toString(16)` prints at least two digits from 16 on and at least three from 256 on |
| ColorUtils.ChannelHexShape | web/src/lib/color-utils.ts:13 | a padded channel has at least two characters, at least three above 255, and a leading minus sign when negative |
| ColorUtils.RgbToHexShape | web/src/lib/color-utils.ts:12-14 | `rgbToHex` starts with `#` and is at least 7 long; a channel above 255 makes it longer, and a negative red channel prints `-` right after `#` |
| ColorUtils.ChannelHexDigits | web/src/lib/color-utils.ts:13 | a channel in 0..255 prints as its high and low nibble digits |
| ColorUtils.DigitsValue | web/src/lib/color-utils.ts:6-13 | the printed digits of a channel read back as the channel |
| ColorUtils.RgbToHexDigits | web/src/lib/color-utils.ts:12-14 | `rgbToHex` is `#` followed by the nibble digits of the three channels |
| ColorUtils.ChannelFormat | web/src/lib/color-utils.ts:13 | a channel prints as two lowercase hex digits that read back as the channel |
| ColorUtils.RgbToHexFormat | web/src/lib/color-utils.ts:12-14 | `rgbToHex` of byte channels is a lowercase `#rrggbb` whose pairs read back as the channels |
| ColorUtils.ParsePair | web/src/lib/color-utils.ts:6-8 | `parseInt` of two hex digits is their value |
| ColorUtils.HashRemoved | web/src/lib/color-utils.ts:4 | removing `#` from `#rrggbb` gives `rrggbb`, and `rrggbb` is unchanged |
| ColorUtils.HexToRgbDigits | web/src/lib/color-utils.ts:3-10 | `hexToRgb` of six digits, with or without `#`, is the three pair values |
| ColorUtils.HexToRgbColor | web/src/lib/color-utils.ts:3-10 | `hexToRgb` of `#rrggbb` is the three pair values, each in 0..255 |
| ColorUtils.HexRoundTrip | web/src/lib/color-utils.ts:3-14 | `hexToRgb(rgbToHex(c)) == c` for byte channels |
| ColorUtils.PairPrint | web/src/lib/color-utils.ts:6-13 | two digits read as a channel print back lowercased |
| ColorUtils.PairsPrint | web/src/lib/color-utils.ts:12-14 | the channels read from `#rrggbb` print back as `#` and the lowercased digits |
| ColorUtils.ColorRoundTrip | web/src/lib/color-utils.ts:3-14 | `rgbToHex(hexToRgb(s))` is `s` lowercased for every `#rrggbb` |
| BluetoothTransport.ConnectStep | web/src/protocol/transport.ts:30-45 | succeeds iff a device is chosen and all GATT calls succeed; cancelling changes nothing; later fields stay as they were when an earlier call fails; the server/characteristic wiring is kept; a refused GATT connection still records the chosen device |
| BluetoothTransport.FragmentWrites | web/src/protocol/transport.ts:67-76 | one write per fragment |
| BluetoothTransport.PacketWrites | web/src/protocol/transport.ts:83-93 | the first j writes of one packet |
| BluetoothTransport.PacketAcks | web/src/protocol/transport.ts:83-93 | within a packet only the last fragment is acknowledged, and only with `withResponse` |
| BluetoothTransport.SendBytesWrites | web/src/protocol/transport.ts:63-77 | the writes join back to the data, each is 1..509 bytes, there are none for empty data, and all or none are acknowledged |
| BluetoothTransport.AllSameAcks | web/src/protocol/transport.ts:71-75 | writes of one kind are all or none acknowledged |
| BluetoothTransport.SendPacketsPayloads | web/src/protocol/transport.ts:79-95 | the writes carry all fragments of all packets, unchanged and in order |
| BluetoothTransport.SendPacketsAcks | web/src/protocol/transport.ts:79-95 | one acknowledged write per non-empty packet with `withResponse`, none otherwise |
| BluetoothTransport.WebBluetoothTransport.constructor | web/src/protocol/transport.ts:19-23 | no device, server, characteristic or callback |
| BluetoothTransport.WebBluetoothTransport.Connect | web/src/protocol/transport.ts:30-45 | the new state and outcome are those of the connect step, and the wiring invariant is kept |
| BluetoothTransport.WebBluetoothTransport.Scan | web/src/protocol/transport.ts:25-28 | scanning is connecting |
| BluetoothTransport.WebBluetoothTransport.Disconnect | web/src/protocol/transport.ts:47-53 | afterwards not connected, no server and no characteristic; the device is kept, its link dropped |
| BluetoothTransport.WebBluetoothTransport.LinkLost | web/src/protocol/transport.ts:36-40 | the disconnect handler forgets server and characteristic and fires the registered callback once |
| BluetoothTransport.WebBluetoothTransport.OnDisconnect | web/src/protocol/transport.ts:97-99 | the last registration wins and nothing else changes |
| BluetoothTransport.WebBluetoothTransport.SendBytes | web/src/protocol/transport.ts:63-77 | without a characteristic it rejects with nothing written; otherwise it writes the MTU fragments of the data, all of one kind |
| BluetoothTransport.WebBluetoothTransport.SendPackets | web/src/protocol/transport.ts:79-95 | without a characteristic it rejects with nothing written; otherwise it writes every fragment, acknowledging only packet ends |
| Http.LabelReadBack | web/src/protocol/http-transport.ts:45 | the device name is `IDM (<mac>)` with the MAC readable back, or `IDM (server)` |
| Http.LabelInjective | web/src/protocol/http-transport.ts:45 | different MAC addresses get different names |
| Http.ScanStep | web/src/protocol/http-transport.ts:19-26 | succeeds iff the reply is ok; keeps the first device only when the list is non-empty; "Scan failed" on a non-ok reply |
| Http.AddressForConnect | web/src/protocol/http-transport.ts:29-32 | a known address is used as is, otherwise a scan runs first |
| Http.FiresAtMostOnce | web/src/protocol/http-transport.ts:101-125 | a run of poll replies fires the callback at most once, never from disconnected, and exactly when a reply signals a lost link |
| Http.HttpTransport.constructor | web/src/protocol/http-transport.ts:11-17 | disconnected, no name, callback, timer or address |
| Http.HttpTransport.Scan | web/src/protocol/http-transport.ts:19-26 | the new address and outcome are those of the scan step; nothing else changes |
| Http.HttpTransport.Connect | web/src/protocol/http-transport.ts:28-47 | scans when needed; succeeds iff the scan and connect replies are ok; on success records the state and name and runs exactly one fresh poll timer; on failure none of these change |
| Http.HttpTransport.Disconnect | web/src/protocol/http-transport.ts:49-54 | polling stops first; the connection is forgotten unless the request rejects |
| Http.HttpTransport.SendBytes | web/src/protocol/http-transport.ts:64-77 | posts the data regardless of state; rejects with "Send failed: " and the body text on a non-ok reply |
| Http.HttpTransport.SendPackets | web/src/protocol/http-transport.ts:79-95 | posts all packets in one request; rejects with "Send packets failed: " and the body text on a non-ok reply |
| Http.HttpTransport.OnDisconnect | web/src/protocol/http-transport.ts:97-99 | the last registration wins and nothing else changes |
| Http.HttpTransport.StartPolling | web/src/protocol/http-transport.ts:101-125 | the old interval is cleared and exactly one new one runs |
| Http.HttpTransport.StopPolling | web/src/protocol/http-transport.ts:127-132 | no interval runs afterwards; without one nothing changes |
| Http.HttpTransport.PollTick | web/src/protocol/http-transport.ts:103-124 | a "not connected" status, an unparsable body or an unreachable server while connected clears the connection, fires the callback and stops polling; any other reply changes nothing |

## Left out

- Numbers that are not integers: `number` arguments are modelled as
  integers. Fractions, NaN and Infinity (which `& 0xff` and `Uint8Array`
  stores turn into 0 or truncate) are not covered.
- Canvas drawing: what `fillText` in a 20px monospace font puts on the
  16x32 canvas is a parameter (the red channel of each pixel). Only the
  thresholding and bit packing are modelled.
- The `crc-32` package is not part of this model. It is replaced by the
  IEEE 802.3 CRC-32 it implements, pinned by the standard check value.
- Characters outside the Basic Multilingual Plane: `for...of` iterates
  code points while `text.length` counts UTF-16 code units. The model
  treats every character as one unit of both.
- Base64 (`uint8ToBase64`, `btoa`) and the JSON request bodies: the
  request log records the raw bytes and fields sent.
- The browser and the network: `navigator.bluetooth`, `fetch`, `res.json()`,
  `res.text()` and `setInterval` are replaced by the answers they give,
  passed in as inputs. Replies are assumed to carry the fields the code
  reads. A failing `res.text()` is not modelled.
- Concurrency: each async operation runs to completion as one step. Poll
  ticks or events interleaved with an unfinished `connect()` or `send` are
  not modelled.
- Rejected BLE writes: `writeValueWithResponse` and
  `writeValueWithoutResponse` always succeed in the model. A rejection
  would end the loop early with the error.
- BluetoothTransport.WebBluetoothTransport.Disconnect: the
  `gattserverdisconnected` event that `gatt.disconnect()` raises in the
  browser is not part of the call. It is the separate step `LinkLost`,
  which the environment may take at any time.
- `ITransport`: the interface is a TypeScript type only. The two classes
  expose the same operations, and no common supertype is modelled.
- The `data` buffer allocated and never used in `effect`
  (web/src/protocol/commands/effect.ts:5-6) is not modelled.
- `IsConnected` and `DeviceName` of both transports are accessors without
  a contract of their own. Their values follow from the state each
  operation's contract fixes.
