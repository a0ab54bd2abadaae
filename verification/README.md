# Verified model of helionet

helionet carries IPv4 packets over a LoRa link: a TypeScript host frames, encrypts and segments
packets from a TUN device, a board with C++ firmware puts the segments on the air and prints what it
hears, and the host at the other end finds the frames in that byte stream again. This project models
the four byte-level cores of that system and proves what they promise, for all inputs and all runs:

- **The tunnel.** Layering, framing and segmentation on the way out; the resynchronising stream parser,
  the replay windows and the unwinding of the layers on the way in. `TunnelModel` holds the functions,
  `Ip2LoraTunnels` the object of the source proved to compute them. `TunnelWire` and `TunnelTurns` say byte for
  byte and case by case what they must be, without naming them. `StreamParser`, `TunnelReceive` and `TunnelSend`
  hold what follows, `TunnelLoss` and `TunnelRuns` what is lost and exactly when, turn
  by turn and over whole runs, and `TunnelExamples` concrete inputs on which it is.
- **The replay windows.** Two on the host and one in the firmware, all shown to be the same machine
  and to stand for the set of the numbers accepted so far (`ReplayBitmap`, `AeadCodec`, `UdpAuth`,
  `FirmwareUdp`), the datagram channel they protect (`UdpChannel`), and the commands it carries
  (`UdpCommands`).
- **The serial link.** The firmware's printer and the host's splitter (`FrameLogSplitters`), the host's
  framing and the firmware's command parser (`FirmwareParser`), configuration bodies (`ConfigBodies`),
  the lifting of replies out of the stream (`ReplyExtraction`, `Devices`) and the send queue (`TxLock`).
- **The checksum.** The bit loop against the polynomial remainder it stands for (`Crc16Xmodem`).

`EndToEnd.PacketsArrive` composes them: over an air link that delivers in order, tunnel B writes exactly
the packets tunnel A framed for it, unchanged and in order, whatever the boards print around the frames
and however the serial stream is chunked.

Objects whose methods update fields are classes here; every such method is proved to do what a function
of its old state says, and the lemmas are about those functions. Bytes are the numbers 0..255, and the
host's integers are unbounded with each mask, wrap and truncation written out.

## Where the code differs from what is said about it

- The comment on the AEAD window speaks of one window for each peer (`src/frame/AeadCodec.ts:85-91`).
  The window is looked up under the frame's destination, which is always the local address, so all senders
  share one. `TunnelLoss.SendersShareOneWindow` gives the exact condition under which the turn at the first byte of
  the next frame of any sender delivers it. Over a whole run, frames of any senders end to end are all delivered if
  each number differs from and is less than 64 behind all before it (`TunnelRuns.ManySendersDeliver`); on at most
  0x2000 bytes exactly those before the first stale number are (`TunnelRuns.ManySendersExactly`).
  `TunnelExamples.SendersClash` has two senders that silence each other.
- The comment on the nonce counter says that it can wrap safely (`src/frame/AeadCodec.ts:21-23`). The window does
  not follow: after the frame numbered 2^64 - 1 the window refuses the next 2^64 - 64
  (`TunnelLoss.WrapIsNotTolerated`). The UDP window refuses the 2^32 - 64 packets after number 2^32 - 1 of a session
  in the same way (`UdpChannel.WrapIsNotTolerated`).
- The comment on UDP sessions promises that captured traffic is of no use after a restart, and that a number
  is accepted at most once in a session (`src/frame/UdpAuth.ts:12-15`, `src/frame/UdpAuth.ts:82-87`).
  That holds for an uninterrupted run of one session: any change of session, also back to an old one, starts
  over. `UdpAuth.SessionChangeForgets` is the counterexample, `UdpAuth.SessionVerdictIsFreshness` the exact
  verdict.
- With ROHC on and AEAD off, the sender's checksum covers the ROHC form of a packet
  (`src/net/Ip2LoraTunnel.ts:208-213`) and the receiver's the packet itself (`src/net/Ip2LoraTunnel.ts:258`).
  The turn at a frame's first byte delivers it if and only if the two checksums are equal
  (`TunnelSend.OwnFrameTurn`, `EndToEnd.LonePacketTurn`), which is always so with ROHC off or AEAD on.
  `TunnelExamples.NoPacketSurvives` is a lawful ROHC with which they never are.
- The AEAD window moves before the tag is checked (`src/net/Ip2LoraTunnel.ts:291-301`), so a frame that does not
  authenticate burns its number. The turn at the first byte of a genuine frame that was fresh before then delivers it
  if and only if its number is another one and less than 64 behind (`TunnelLoss.BurntNumber`). The run takes that turn
  only behind the phantom frame described next: what starts before its end is not delivered whatever its number
  (`TunnelRuns.BadTagIsBarren`), and what starts right behind it is delivered under exactly that condition
  (`TunnelRuns.BurntNumberRun`). One such frame with a high number shuts out every genuine frame 64 or more behind it
  for good (`TunnelLoss.BadTagShutsOut`, `TunnelRuns.StaleIsNeverDelivered`, with concrete bytes in
  `TunnelExamples.BadFrameSilencesSender`). "At most once" holds for arbitrary bytes all the same.
- Resynchronising byte by byte is meant to find the next good frame. One byte into an AEAD frame it has refused,
  the receiver reads a phantom header of at least 0x2000 addressed to 0 and waits for that many bytes
  (`TunnelLoss.RefusalWaits`). It then skips them with every good frame among them (`TunnelLoss.RefusalSwallows`),
  unless its own address is 0: then it takes them for a frame of its own (`TunnelLoss.AddressZeroTurn`). A frame that
  arrives twice is enough (`TunnelLoss.DuplicateSwallows`, `TunnelRuns.DuplicateHidesNext`).
- An info query can lose its reply behind 4094 bytes of noise or more, not only behind more than 4096: a chunk
  may end inside the magic word. `ReplyExtraction.InfoIsConservedExactly` proves the bound of 4093 exact.
- The builder of WiFi credentials takes up to 255 bytes for each field, but the firmware's parser drops bodies
  above 259 bytes. `ConfigBodies.WifiReachesBoard` says which ones arrive: those whose fields total at most 254.
- Resynchronising is also hindered by zeros. Zeros in front of a frame cost nothing if its size is a multiple of 256
  (`TunnelTurns.ZerosBeforeFrame`); in front of any other frame the last zero is taken for the low byte of a size of at
  least 256, and the frame is not delivered (`TunnelTurns.ZeroThenFrame`).
- Configuration writes wait for the send queue but never join it (`src/device/HelionetDevice.ts:382-383`), so a
  send may start beside one (`TxLock.ConfigurationMayOverlap`). From any state with a configuration pending and a
  send waiting, both can come to be under way together if and only if the send was called after the configuration
  (`TxLock.OverlapExactly`); if every send is called while no configuration is pending, they never are
  (`TxLock.CarefulCallsNeverOverlap`).

## Model

| member | source | states |
|---|---|---|
| `Crc16Xmodem.Compute` | src/frame/Crc16Xmodem.ts:1-15 | the nested loops leave the checksum that the lemmas below characterise |
| `Crc16Xmodem.CrcIsRemainder` | src/frame/Crc16Xmodem.ts:1-15 | the checksum is a remainder of M(x)·x^16 by x^16+x^12+x^5+1 over GF(2) |
| `Crc16Xmodem.RemainderIsUnique` | src/frame/Crc16Xmodem.ts:1-15 | a polynomial has only one remainder of degree below 16, so the checksum is the remainder |
| `Crc16Xmodem.StepReduces` | src/frame/Crc16Xmodem.ts:5-12 | a turn of the inner loop, shift, conditional xor and mask, multiplies by x and reduces by the whole generator |
| `Crc16Xmodem.CrcIsLinear` | src/frame/Crc16Xmodem.ts:1-15 | on messages of equal length the checksum of the xor is the xor of the checksums |
| `Crc16Xmodem.BurstIsDetected` | src/frame/Crc16Xmodem.ts:1-15 | two messages of equal length that differ, and only within some 16 consecutive bits, have different checksums |
| `Crc16Xmodem.GeneratorTerms` | src/frame/Crc16Xmodem.ts:7 | the generator has exactly the terms x^16, x^12, x^5 and 1 |
| `Crc16Xmodem.CrcOfOne` | src/frame/Crc16Xmodem.ts:2 | the checksum starts at zero and takes the last bit of a message for x^16: that of 0, 1 is 0x1021 |
| `XorCiphers.XorCipher.Create` | src/frame/XorCipher.ts:4-10 | an object exactly for a non-empty key |
| `XorCiphers.XorCipher.Apply` | src/frame/XorCipher.ts:12-18 | the loop fills a fresh buffer with the data masked by the repeating key |
| `XorCiphers.MaskIsInvolution` | src/frame/XorCipher.ts:12-18 | applying the cipher twice under one key gives the data back |
| `XorCiphers.KeystreamIsRepeatedKey` | src/frame/XorCipher.ts:14-16 | what is added to any message is the key over and over, byte j of it at every position q·len + j |
| `Ip2LoraCodec.EncodeFrame` | src/frame/Ip2LoraCodec.ts:38-68 | both range errors, and otherwise the filled buffer is the frame the decoder is proved against |
| `Ip2LoraCodec.EncodeExactly` | src/frame/Ip2LoraCodec.ts:38-68 | the frame byte for byte: size low and high, address plus 128, 64 and 32 for the flags, payload, checksum low and high; both errors exactly |
| `Ip2LoraCodec.DecodeExactly` | src/frame/Ip2LoraCodec.ts:70-106 | the four outcomes in terms of the bytes; a frame is decoded iff it lies there byte for byte |
| `Ip2LoraCodec.UnusedBitIsIgnored` | src/frame/Ip2LoraCodec.ts:95-100 | bit 0x10 changes neither address nor flags |
| `Ip2LoraCodec.DecodeUndoesEncode` | src/frame/Ip2LoraCodec.ts:38-106 | whatever follows a frame, decoding gives back address, flags, payload and checksum and consumes exactly the frame |
| `Ip2LoraCodec.EncodeUndoesDecode` | src/frame/Ip2LoraCodec.ts:38-106 | re-encoding a decoded frame reproduces size, addr and flags and payload if and only if bit 0x10 is clear, and the whole frame if its checksum also holds |
| `Ip2LoraCodec.DecodeIsStable` | src/frame/Ip2LoraCodec.ts:70-106 | a decision on a prefix of the stream is the decision on the stream |
| `Ip2LoraCodec.UndecidedIsShort` | src/frame/Ip2LoraCodec.ts:70-83 | only inputs of at most 65538 bytes are left undecided |
| `Ip2LoraCodec.CorruptionIsRejected` | src/frame/Ip2LoraCodec.ts:108-113 | the checksum accepts the original and rejects every corruption of addr byte and payload within 16 consecutive bits |
| `Ip2LoraCodec.SegmentsPartitionFrame` | src/net/Ip2LoraTunnel.ts:215-220 | segments concatenate to the frame, have 1..max bytes, and only the last is shorter than max |
| `ReplayBitmap.CheckRefinesSet` | src/frame/AeadCodec.ts:98-118 | one check on a window that stands for a set: accepted iff fresh in the set, and the new window stands for the new set |
| `ReplayBitmap.TrackingIsFunctional` | src/frame/AeadCodec.ts:92-118 | a set determines its window, bit for bit |
| `ReplayBitmap.WindowRefinesSet` | src/frame/AeadCodec.ts:92-119 | after every run: bit i is set iff highest - i was accepted, the bitmap is below 2^64, and the next number is accepted iff it is new and less than 64 behind everything accepted |
| `ReplayBitmap.FreshExactly` | src/frame/AeadCodec.ts:98-118 | a number is fresh after a run iff it is none of the numbers presented, accepted or not, and less than 64 behind each of them |
| `ReplayBitmap.TolerantOrders` | src/frame/AeadCodec.ts:92-119 | a fresh window accepts all of an arrival order if and only if no number repeats and each is less than 64 behind every number before it |
| `AeadCodec.NonceCounter.Next` | src/frame/AeadCodec.ts:27-32 | the nonce of the old counter, and the counter moves on modulo 2^64 |
| `AeadCodec.ReplayWindow.Check` | src/frame/AeadCodec.ts:98-118 | the verdict is freshness among the numbers accepted so far, which then include the number; the fields follow the bitmap machine |
| `AeadCodec.NonceCarriesCounter` | src/frame/AeadCodec.ts:27-32 | the number the receiver's window reads off a nonce is the sender's counter |
| `AeadCodec.SeqExactly` | src/frame/AeadCodec.ts:99 | the number of any nonce is its last eight bytes, lowest first, whatever the first four are |
| `AeadCodec.NoncesIncrease` | src/frame/AeadCodec.ts:17-35 | before the wrap the k-th nonce reads as counter + k |
| `AeadCodec.NoncesAreDistinct` | src/frame/AeadCodec.ts:17-35 | two nonces of one counter are equal if and only if a multiple of 2^64 lies between them |
| `UdpAuth.WrapUdp` | src/frame/UdpAuth.ts:26-54 | both length errors; otherwise session, u32 number and payload lie where they should, and the last 16 bytes are the first 16 of the HMAC over everything in front of them |
| `UdpAuth.UnwrapExactly` | src/frame/UdpAuth.ts:64-80 | with a 32-byte key a datagram authenticates iff it has at least 24 bytes and the last 16 are the HMAC of all the others; its fields are read off where they lie |
| `UdpAuth.UnwrapUndoesWrap` | src/frame/UdpAuth.ts:36-80 | unwrapping gives back session, number and payload |
| `UdpAuth.WrapUndoesUnwrap` | src/frame/UdpAuth.ts:64-80 | every datagram that authenticates is the wrapping of what it unwraps to |
| `UdpAuth.Seq32ReplayWindow.Check` | src/frame/UdpAuth.ts:94-116 | verdict and new fields are those of the session window function |
| `UdpAuth.SessionChangeStartsOver` | src/frame/UdpAuth.ts:88-117 | after any packets the window is a fresh one that met only the numbers since the session last changed |
| `UdpAuth.SessionVerdictIsFreshness` | src/frame/UdpAuth.ts:94-116 | a packet is accepted iff its session is 4 bytes long and it is a new session or fresh since the last change |
| `UdpAuth.SessionChangeForgets` | src/frame/UdpAuth.ts:96-102 | a packet refused as a repeat is accepted again after one packet of another session |
| `FirmwareUdp.Bridge.UdpReplayAccept` | firmware/helionet/src/main.cpp:241-261 | verdict and new static state, with the native shift dropping what leaves 64 bits |
| `FirmwareUdp.Bridge.PumpBridge` | firmware/helionet/src/main.cpp:1006-1056 | short, bad tag, replay or the payload fed to the parser; only a genuine packet moves the window |
| `FirmwareUdp.PumpExactly` | firmware/helionet/src/main.cpp:1006-1056 | of the first 1500 bytes: too short below 24; a bad tag unless the last 16 are the HMAC of all the others; else the payload is fed iff the window takes session and number |
| `FirmwareUdp.Bridge.SendToHost` | firmware/helionet/src/main.cpp:264-299 | session and number, low bytes first, the data, and 16 bytes of the HMAC over all of these, under a u32 counter that wraps |
| `FirmwareUdp.MaskedShiftIsNativeShift` | firmware/helionet/src/main.cpp:251 | the host's masked bigint shift and the firmware's native shift give the same bitmap |
| `FirmwareUdp.SameVerdict` | firmware/helionet/src/main.cpp:241-261 | from equal states both windows give the same verdict and reach equal states |
| `FirmwareUdp.WindowsAgree` | firmware/helionet/src/main.cpp:241-261 | on every trace of sessions and numbers both windows agree, packet for packet and state for state |
| `UdpChannel.HandedUpExactly` | src/device/WiFiUdpDevice.ts:279-292 | for any number of packets and any schedule: an arrival hands up its payload byte for byte iff it is genuine and its number modulo 2^32 is new and less than 64 behind those of all genuine arrivals before it |
| `UdpChannel.ChannelSafetyAndTolerance` | src/device/WiFiUdpDevice.ts:223-292 | for every dropping, duplicating, reordering schedule and without a bound: each packet at most once and nothing but packets sent; below 2^32 packets exactly the first arrivals less than 64 behind what came before |
| `UdpChannel.WrapIsNotTolerated` | src/device/WiFiUdpDevice.ts:223-226 | once packet 2^32 - 1 of a session has arrived, none of the 2^32 - 64 packets after it is ever handed up |
| `UdpChannel.FirmwareFeedsWhatHostHandsUp` | firmware/helionet/src/main.cpp:1006-1056 | on every schedule of datagrams that fit its buffer the firmware feeds its parser what the host would hand up |
| `UdpCommands.BoardDispatchesTimelyCommands` | firmware/helionet/src/main.cpp:642-677 | with one framed command in each datagram, over any schedule the board dispatches exactly the commands of the timely first arrivals, in order of arrival, and its parser is idle after each |
| `Devices.WiFiUdpDevice.Create` | src/device/WiFiUdpDevice.ts:69-75 | a device exactly for a 32-byte key |
| `Devices.WiFiUdpDevice.SendUdp` | src/device/WiFiUdpDevice.ts:223-232 | the wire grows by the channel's next packet: datagram k carries number k modulo 2^32 and payload k, now and for all earlier ones |
| `Devices.WiFiUdpDevice.OnUdpMessage` | src/device/WiFiUdpDevice.ts:279-311 | window, mode, `data` events, resolved waiters and `error` events after a message are those of the message function: a datagram that does not authenticate and a replay are errors, an empty payload is nothing, the rest goes through reply extraction |
| `Devices.DeviceFollowsChannel` | src/device/WiFiUdpDevice.ts:279-311 | over any schedule the device extracts replies from the payloads handed up as from one stream; duplicates, junk and empty payloads change nothing |
| `Devices.UdpReplyIsLifted` | src/device/WiFiUdpDevice.ts:294-310 | a configuration begun anywhere in a session: over any schedule the data emitted from then on are the payloads handed up minus the first CONFIG_OK, in order, and one waiter is resolved |
| `Devices.UdpConfigWaits` | src/device/WiFiUdpDevice.ts:296-309 | until the reply is there nothing is emitted and every byte handed up is in the buffer |
| `Devices.ErrorsExactly` | src/device/WiFiUdpDevice.ts:279-293 | over any schedule the `error` events are, in order, one replay for each genuine packet that is no timely first and one for each other datagram, too short or with a bad tag |
| `DecimalText.DecimalRoundTrip` | firmware/helionet/src/main.cpp:690-691 | printing and parsing a number is the identity, and only zero prints with a leading zero |
| `DecimalText.DigitsExactly` | src/device/HelionetDevice.ts:84 | the digits of the pattern are 0 to 9 |
| `FrameLogSplitters.FrameLogSplitter.FeedChunk` | src/device/HelionetDevice.ts:67-104 | the loop over a chunk leaves the state and emits the events of the splitter function |
| `FrameLogSplitters.ChunkingDoesNotMatter` | src/device/HelionetDevice.ts:67-104 | from any state any split of a stream gives the same events and state |
| `FrameLogSplitters.MatchRxevIsPattern` | src/device/HelionetDevice.ts:84 | the match succeeds on exactly the lines of the pattern and yields the number its digits spell |
| `FrameLogSplitters.HashLine` | src/device/HelionetDevice.ts:79-100 | a `#` line is logged whole, and body mode follows exactly when the line announces 1..255 bytes |
| `FrameLogSplitters.AnnouncedExactly` | src/device/HelionetDevice.ts:85-90 | a line announces a frame iff it matches with a number from 1 to 255 |
| `FrameLogSplitters.SerialOut.EmitReceivedFrame` | firmware/helionet/src/main.cpp:679-700 | what is written for a reception: a bad-length line, or the announcement with the packet behind it iff the status is zero |
| `FrameLogSplitters.PrintedExactly` | firmware/helionet/src/main.cpp:679-700 | the printed line byte for byte: length, signed status, signal strength, then signal-to-noise ratio |
| `FrameLogSplitters.RxevLineAnnounces` | firmware/helionet/src/main.cpp:690-692 | the printed line matches, with the packet's length, exactly when the status is zero |
| `FrameLogSplitters.SplitterUndoesPrinter` | src/device/HelionetDevice.ts:67-104 | noise, log lines and receptions of any bytes come out as exactly their lines and frames in order, ending in scan |
| `FrameLogSplitters.SplitterUndoesPrinterInChunks` | src/device/HelionetDevice.ts:67-104 | the same under any chunking |
| `FirmwareParser.CommandParser.FeedParser` | firmware/helionet/src/main.cpp:642-677 | one byte: new state and dispatched command, the buffer write in bounds from any reachable state |
| `FirmwareParser.Wrap` | src/device/HelionetDevice.ts:329-334 | the allocated buffer is command, u16 LE length and body; none for a body above 65535 bytes, whose length cannot be written |
| `FirmwareParser.ParserUndoesFraming` | firmware/helionet/src/main.cpp:642-677 | the concatenated frames of commands that fit dispatch exactly that list and return to idle |
| `FirmwareParser.FramedExactly` | src/device/HelionetDevice.ts:329-334 | the host's frames byte for byte, with codes 1 to 4 |
| `FirmwareParser.NoiseIsIgnored` | firmware/helionet/src/main.cpp:644-650 | bytes other than 1 to 4 do nothing to an idle parser, whatever follows |
| `FirmwareParser.ParserFindsFrames` | firmware/helionet/src/main.cpp:642-677 | with such noise before, between and behind them, exactly the commands are dispatched, and the parser is idle |
| `FirmwareParser.HeaderExactly` | firmware/helionet/src/main.cpp:651-666 | what any three header bytes lead to: INFO, a body of 1 to 259 bytes, or idle |
| `FirmwareParser.BodyExactly` | firmware/helionet/src/main.cpp:667-675 | a body is dispatched under its command; one sent with INFO is read and dropped |
| `FirmwareParser.ParserStaysInBounds` | firmware/helionet/src/main.cpp:642-677 | for arbitrary bytes NEED_BODY has pHave < pLen ≤ 259, and only bodies of 1..259 bytes are dispatched |
| `FirmwareParser.RoundTripNeedsFit` | firmware/helionet/src/main.cpp:654-664 | a framed command dispatches exactly itself if and only if it is INFO or its body has 1..259 bytes |
| `FirmwareParser.SegmentsReachTheAir` | firmware/helionet/src/main.cpp:609-635 | radio frames of 1..255 bytes given to the host go on the air unchanged and in order |
| `FirmwareParser.FrameReachesTheAirExactly` | firmware/helionet/src/main.cpp:609-610 | a frame goes on the air, alone, if and only if it has 1..255 bytes |
| `FirmwareParser.TransmittedExactly` | firmware/helionet/src/main.cpp:609-635 | among any commands nothing but a SEND of 1 to 255 bytes goes on the air, and that as it is |
| `ConfigBodies.BuildWifiConfigBody` | src/device/HelionetDevice.ts:527-541 | no body for a field above 255 bytes, otherwise tag and three length-prefixed fields |
| `ConfigBodies.BuildHttpAuthBody` | src/device/HelionetDevice.ts:511-523 | no body unless both fields have 1..64 bytes, otherwise tag and two fields |
| `ConfigBodies.BuildUdpAuthKeyBody` | src/device/HelionetDevice.ts:500-508 | no body unless the key has 32 bytes, otherwise tag and key |
| `ConfigBodies.BuiltExactly` | src/device/HelionetDevice.ts:500-541 | the three bodies byte for byte, and when there is none |
| `ConfigBodies.HandleWifiConfig` | firmware/helionet/src/main.cpp:943-959 | the moving offset never reads past the body and finds what the field-by-field reading finds |
| `ConfigBodies.HandleHttpAuthConfig` | firmware/helionet/src/main.cpp:922-934 | the same for the two credentials |
| `ConfigBodies.HandleConfigBody` | firmware/helionet/src/main.cpp:551-607 | no credentials are installed over UDP, and whatever takes effect is answered |
| `ConfigBodies.SettingsExactly` | firmware/helionet/src/main.cpp:553-580 | on both channels "TC" and 18 bytes set exactly these for transmission, "RC" for reception, and "Tc" and 4 bytes retune to these, whatever follows; all are answered |
| `ConfigBodies.ShortSettingsAreIgnored` | firmware/helionet/src/main.cpp:553-577 | with fewer bytes they do nothing and are not answered |
| `ConfigBodies.CredentialsExactly` | firmware/helionet/src/main.cpp:582-604 | "WC", "HA" and "AK" are refused without answer over UDP, and over USB read as fields or a 32-byte key and answered even if they do not parse |
| `ConfigBodies.OtherTagsAreIgnored` | firmware/helionet/src/main.cpp:551-607 | any other body does nothing and is not answered |
| `ConfigBodies.WifiEffectIsThreeFields` | firmware/helionet/src/main.cpp:943-959 | three fields with anything behind them are installed as they are, an empty host as the default |
| `ConfigBodies.WifiInstallsOnlyFields` | firmware/helionet/src/main.cpp:943-959 | and nothing else is ever installed |
| `ConfigBodies.HttpEffectIsTwoFields` | firmware/helionet/src/main.cpp:922-934 | credentials are installed iff the body starts with them as two fields of 1..64 bytes |
| `ConfigBodies.WifiReachesBoard` | src/device/HelionetDevice.ts:525-541 | builder, framing, parser and handler together: dispatched as itself iff the fields total at most 254 bytes, and then installed and answered |
| `ConfigBodies.HttpReachesBoard` | src/device/HelionetDevice.ts:510-523 | every body the builder makes is installed as given and answered |
| `ConfigBodies.KeyReachesBoard` | firmware/helionet/src/main.cpp:904-919 | every key the builder takes is installed as given and answered |
| `ConfigBodies.SettingsReachBoard` | firmware/helionet/src/main.cpp:553-576 | the settings every tunnel start sends are framed, dispatched, set and answered |
| `ReplyExtraction.IndexOf` | src/device/HelionetDevice.ts:422 | the first occurrence at or after an offset, or none exists |
| `ReplyExtraction.ReplyWords` | src/device/HelionetDevice.ts:422-441 | the words looked for, byte for byte |
| `ReplyExtraction.ConfigReplyIsLifted` | src/device/HelionetDevice.ts:420-438 | under any chunking the stream minus its first CONFIG_OK is passed on in order, and one waiter is resolved |
| `ReplyExtraction.ConfigWaits` | src/device/HelionetDevice.ts:420-438 | without a CONFIG_OK nothing is passed on and nothing is lost |
| `ReplyExtraction.InfoReplyIsLifted` | src/device/HelionetDevice.ts:439-477 | with up to 4093 bytes of noise in front, under any chunking, the stream minus the reply is passed on in order and the reply is its text |
| `ReplyExtraction.FlushSplitsMagic` | src/device/HelionetDevice.ts:442-449 | behind more noise a chunk that ends inside the magic is flushed and the reply is missed |
| `ReplyExtraction.InfoIsConservedExactly` | src/device/HelionetDevice.ts:439-477 | every stream is conserved under every chunking if and only if the noise has at most 4093 bytes |
| `ReplyExtraction.QueryConserves` | src/device/HelionetDevice.ts:439-477 | over any chunks whatsoever: the query still waits, and everything is passed on or held back, or one reply from INFO to a newline has been cut out and its text returned |
| `ReplyExtraction.QueryStep` | src/device/HelionetDevice.ts:439-477 | the same for one chunk, and no more than 4096 bytes are held back without the magic |
| `Devices.HelionetDevice.OnSerialData` | src/device/HelionetDevice.ts:419-479 | mode, buffers, resolved waiters and splitter after a chunk are those of the extraction function, in all three modes |
| `Devices.SplitterSeesOneStream` | src/device/HelionetDevice.ts:419-479 | over a run in any mode the splitter's events are those of one pass over what is passed on |
| `Devices.ConfigDoesNotDisturb` | src/device/HelionetDevice.ts:419-438 | a configuration answered between printed items leaves exactly the events of the items, under any chunking |
| `Devices.InfoDoesNotDisturb` | src/device/HelionetDevice.ts:439-477 | an info query answered between printed items, the first ones of at most 4093 bytes, leaves exactly the events of the items and yields its text, under any chunking |
| `Devices.PacketIsTakenForReply` | src/device/HelionetDevice.ts:420-438 | a received packet that starts with CONFIG_OK is taken for the reply: the packet comes out without those nine bytes and with the real reply at its end |
| `Devices.LineIsTakenForInfo` | src/device/HelionetDevice.ts:439-477 | a log line that starts with INFO is taken for the reply: the query is answered with the rest of that line, and the real reply ends in a log line |
| `TxLock.InvariantHolds` | src/device/HelionetDevice.ts:320-327 | in every reachable state each send waits on the send before it, and sends start only after earlier ones have settled |
| `TxLock.SendsAreSerialised` | src/device/HelionetDevice.ts:281-327 | for every interleaving of calls, completions, failures and delays writes start in call order, none left out, no two at once |
| `TxLock.RejectionNeverBlocks` | src/device/HelionetDevice.ts:325 | whatever became of earlier writes, the first waiting send may start once none is running |
| `TxLock.ConfigurationMayOverlap` | src/device/HelionetDevice.ts:379-388 | a shortest example: a reachable state in which a send and a configuration write are both under way |
| `TxLock.StartedAfterSends` | src/device/HelionetDevice.ts:320-388 | in every reachable state whatever has started, send or configuration, finds all sends called before it settled |
| `TxLock.CarefulCallsNeverOverlap` | src/device/HelionetDevice.ts:320-388 | if every send is called while no configuration is pending, no reachable state has a send and a configuration under way together |
| `TxLock.SendsCanBeDrained` | src/device/HelionetDevice.ts:320-327 | from every reachable state the sends before any point can be brought to an end without touching anything else |
| `TxLock.OverlapExactly` | src/device/HelionetDevice.ts:320-388 | from every reachable state with a pending configuration and a waiting send, some continuation has both under way iff the send was called after the configuration |
| `Ip2LoraTunnels.Ip2LoraTunnel.Create` | src/net/Ip2LoraTunnel.ts:70-99 | an object iff the address is in 0..15, the cipher key not empty and the AEAD key 32 bytes long |
| `Ip2LoraTunnels.Ip2LoraTunnel.OnTunPacket` | src/net/Ip2LoraTunnel.ts:153-221 | outcome, segments sent and counter after a chunk are those of the layering function; the outcome tells the `drop`, the `warn` and the RangeError exit from a framed packet |
| `TunnelWire.PacketExactly` | src/net/Ip2LoraTunnel.ts:155-161 | the packet is the chunk, or the chunk without four bytes that are no IP version; its destination is byte 19 or 23 of the chunk modulo 16 |
| `TunnelWire.HeaderIsStripped` | src/net/Ip2LoraTunnel.ts:343-354 | any four bytes that do not look like IPv4 or IPv6 may stand in front of a packet without changing it or where it goes |
| `TunnelWire.OutgoingExactly` | src/net/Ip2LoraTunnel.ts:153-213 | every exit; and the frame byte for byte: that destination, the payload compressed iff shorter, then masked, then sealed under the counter's nonce with the addr and flags byte as associated data, flags to match, the checksum over that byte and the clear payload |
| `TunnelWire.NumbersAreSpent` | src/net/Ip2LoraTunnel.ts:191-200 | a number is spent on exactly the packets that reach the cipher, framed or not |
| `Ip2LoraTunnels.Ip2LoraTunnel.SendSegments` | src/net/Ip2LoraTunnel.ts:215-220 | the loop sends exactly the segments of the frame |
| `Ip2LoraTunnels.Ip2LoraTunnel.ReplayWindowFor` | src/net/Ip2LoraTunnel.ts:101-105 | the address's own window where there is one, with the map unchanged, and otherwise a new one that only that entry of the map gets |
| `Ip2LoraTunnels.Ip2LoraTunnel.RecoverClearPayload` | src/net/Ip2LoraTunnel.ts:271-323 | payload, drops and windows of the recovery function, the window moving before the tag is checked |
| `Ip2LoraTunnels.Ip2LoraTunnel.OnSerialBytes` | src/net/Ip2LoraTunnel.ts:223-269 | buffer, windows, drops and deliveries after a call are those of the receive loop of the model |
| `TunnelReceive.ChunkingDoesNotMatter` | src/net/Ip2LoraTunnel.ts:223-269 | from any state, any split of a stream gives the deliveries, drops, windows and leftover of one call |
| `TunnelReceive.TurnsProgress` | src/net/Ip2LoraTunnel.ts:231-267 | every turn that does not wait advances and never moves past the buffer |
| `TunnelReceive.LeftoverIsBounded` | src/net/Ip2LoraTunnel.ts:230-268 | whatever is received, at most 65538 bytes are left, the end of the stream, on which the loop cannot progress |
| `TunnelReceive.ReceptionIsSound` | src/net/Ip2LoraTunnel.ts:230-268 | on arbitrary bytes: deliveries come from disjoint increasing ranges, in each of which a frame for the local address lies byte for byte; what is delivered is what its layers leave when each comes off, in order; without AEAD the checksum is that of what is delivered |
| `TunnelReceive.RecoveryExactly` | src/net/Ip2LoraTunnel.ts:271-323 | recovery succeeds, with this payload, iff opening, unmasking, inflating and decompressing do in this order, and an AEAD number is fresh |
| `TunnelReceive.LayersMustSucceed` | src/net/Ip2LoraTunnel.ts:278-321 | on arbitrary bytes nothing is delivered out of a masked frame without a cipher key, a sealed one without an AEAD key, or one that does not inflate or decompress |
| `TunnelTurns.WaitsExactly` | src/net/Ip2LoraTunnel.ts:231-236 | a turn waits iff fewer than five bytes are there, or fewer than the size field asks for |
| `TunnelTurns.ZeroSizeTurn` | src/net/Ip2LoraTunnel.ts:233-239 | a size of zero costs one byte and nothing else |
| `TunnelTurns.StrangersTurn` | src/net/Ip2LoraTunnel.ts:241-245 | whatever frame lies there for another address is skipped whole and logged with that address |
| `TunnelTurns.AeadGates` | src/net/Ip2LoraTunnel.ts:278-295 | without a key, below 28 bytes, or with a stale number: one byte, the drop that says so, and the window only asked in the last case |
| `TunnelTurns.TagGate` | src/net/Ip2LoraTunnel.ts:296-301 | a fresh number with a tag that does not match: one byte, a mismatch, and the number spent |
| `TunnelTurns.SilentLosses` | src/net/Ip2LoraTunnel.ts:303-313 | no cipher key, or a payload that does not inflate: one byte and no event |
| `TunnelTurns.RohcLoss` | src/net/Ip2LoraTunnel.ts:314-321 | a failing decompression: one byte and a warning |
| `TunnelTurns.LastGate` | src/net/Ip2LoraTunnel.ts:256-266 | when all layers come off: delivered and skipped whole, unless without AEAD the checksum differs, then one byte and a mismatch |
| `TunnelTurns.ZerosAreSkipped` | src/net/Ip2LoraTunnel.ts:231-239 | any number of zeros in front of bytes that start with a zero: the run is the run from behind them, log and windows unchanged |
| `TunnelTurns.ZerosBeforeFrame` | src/net/Ip2LoraTunnel.ts:231-267 | any number of zeros in front of a good frame whose size is a multiple of 256: the run delivers it where it starts and goes on behind it |
| `TunnelTurns.ZeroThenFrame` | src/net/Ip2LoraTunnel.ts:231-267 | a good lone frame behind a zero is delivered iff its size is a multiple of 256, unless a phantom fits into it |
| `TunnelReceive.AeadAtMostOnce` | src/net/Ip2LoraTunnel.ts:271-302 | over a tunnel's life and for arbitrary bytes no two delivered AEAD frames carry the same number |
| `TunnelSend.FramedExactly` | src/net/Ip2LoraTunnel.ts:153-213 | a chunk is framed iff it holds an IPv4 packet ROHC takes and its masked payload, with nonce and tag, fits the size field |
| `TunnelSend.RecoverUndoesLayers` | src/net/Ip2LoraTunnel.ts:271-323 | recovery gives back the packet and adds exactly its number to the window |
| `TunnelSend.CrcSurvivesWithoutRohc` | src/net/Ip2LoraTunnel.ts:256-262 | with ROHC off or AEAD on the checksum condition always holds |
| `TunnelSend.OwnFrameTurn` | src/net/Ip2LoraTunnel.ts:230-268 | the turn at the first byte of a frame for the receiver delivers its packet whole iff the checksum survives ROHC, and else drops that one byte |
| `TunnelSend.OtherFrameTurn` | src/net/Ip2LoraTunnel.ts:241-245 | a frame for someone else is skipped whole and moves no window |
| `TunnelSend.StaleFrameTurn` | src/net/Ip2LoraTunnel.ts:291-295 | the turn at the first byte of a frame whose number is stale drops that byte as a replay, before the tag is looked at |
| `TunnelSend.GenuineFrameTurn` | src/net/Ip2LoraTunnel.ts:241-302 | a receiver in any state delivers an AEAD frame of any compatible sender, whole, iff its number is fresh, and adds it to the window; else it drops one byte as a replay |
| `TunnelSend.StreamIsDelivered` | src/net/Ip2LoraTunnel.ts:223-269 | on a stream of frames in step with its window, the receiver delivers exactly the packets for it, in order, and leaves nothing over |
| `TunnelLoss.SendersShareOneWindow` | src/net/Ip2LoraTunnel.ts:241-249 | after turns at the first bytes of frames of any number of senders, the turn at the first byte of the next one of any sender delivers it iff its number is none of theirs and less than 64 behind each |
| `TunnelLoss.NumbersAreKept` | src/net/Ip2LoraTunnel.ts:291-295 | whatever is received, a number once accepted stays accepted |
| `TunnelLoss.StaleForGood` | src/net/Ip2LoraTunnel.ts:291-295 | once a receiver has accepted a number, the turn at the first byte of any genuine frame 64 or more behind it refuses it, whatever has been received in between |
| `TunnelLoss.WrapIsNotTolerated` | src/frame/AeadCodec.ts:21-32 | the run delivers the frame numbered 2^64 - 1, and the turn at the first byte of a frame with one of the next 2^64 - 64 nonces refuses it, whatever comes in between |
| `TunnelLoss.BadTagTurn` | src/net/Ip2LoraTunnel.ts:291-301 | a frame with a fresh number that does not authenticate is dropped and its number burnt |
| `TunnelLoss.BurntNumber` | src/net/Ip2LoraTunnel.ts:291-301 | after the turn on such a frame, the turn at the first byte of a genuine frame that was fresh before delivers it iff its number is another one and less than 64 behind |
| `TunnelLoss.BadTagShutsOut` | src/net/Ip2LoraTunnel.ts:291-301 | after such a frame, and whatever else is received, the turn at the first byte of any genuine frame 64 or more behind its number refuses it |
| `TunnelLoss.PhantomTurn` | src/net/Ip2LoraTunnel.ts:230-245 | one byte into a frame the receiver reads a size from the high size byte and the addr and flags byte, waits for that many bytes, and skips them, unless the first payload byte holds its own address |
| `TunnelLoss.OwnPhantomTurn` | src/net/Ip2LoraTunnel.ts:230-268 | if the first payload byte does hold its own address, it waits for the same bytes and then takes the phantom for a frame of its own |
| `TunnelLoss.AddressZeroTurn` | src/net/Ip2LoraTunnel.ts:256-266 | a receiver with address 0 and no ROHC delivers a whole phantom as a packet iff its bytes pass the checksum, and else drops one byte |
| `TunnelLoss.RefusalWaits` | src/net/Ip2LoraTunnel.ts:230-268 | the run of a receiver of any address that refuses a frame ends one byte into it, as long as the phantom is not whole |
| `TunnelLoss.RefusalSwallows` | src/net/Ip2LoraTunnel.ts:230-268 | the run of a receiver with another address than 0 behind a refused AEAD frame: nothing until at least 8196 further bytes have come, and then it goes on behind them |
| `TunnelLoss.StaleFrameSwallows` | src/net/Ip2LoraTunnel.ts:292-295 | a genuine frame with a stale number is refused in that way |
| `TunnelLoss.BadTagFrameSwallows` | src/net/Ip2LoraTunnel.ts:296-301 | and so is a frame that does not authenticate |
| `TunnelLoss.BurntFrameSwallows` | src/net/Ip2LoraTunnel.ts:291-301 | and so is the genuine frame whose number such a frame has burnt |
| `TunnelLoss.DuplicateSwallows` | src/net/Ip2LoraTunnel.ts:230-268 | a frame that arrives twice delivers its packet once, and everything within more than 8 KB behind the second copy stays undelivered in the buffer |
| `TunnelRuns.RunFollows` | src/net/Ip2LoraTunnel.ts:230-268 | a run only adds to the log, and only events from positions at or behind where it started |
| `TunnelRuns.FirstTurnDecides` | src/net/Ip2LoraTunnel.ts:230-268 | a run delivers something at its first byte iff its first turn does |
| `TunnelRuns.InOrderExactly` | src/frame/AeadCodec.ts:98-118 | numbers are fresh one after the other iff each differs from and is less than 64 behind every number known and every one before it |
| `TunnelRuns.ManySendersDeliver` | src/net/Ip2LoraTunnel.ts:223-269 | from any state, for frames of any senders end to end and of any length: if their numbers are in order, the run delivers every packet in order and leaves nothing over |
| `TunnelRuns.StaleFrameStops` | src/net/Ip2LoraTunnel.ts:230-295 | the first frame with a stale number stops the run: the packets before it are delivered and nothing behind it, as long as its phantom is longer than what follows |
| `TunnelRuns.ManySendersExactly` | src/net/Ip2LoraTunnel.ts:230-295 | on at most 0x2000 bytes of frames of any senders the run delivers exactly those before the first stale number, so all of them iff the numbers are in order |
| `TunnelRuns.DuplicateHidesNext` | src/net/Ip2LoraTunnel.ts:230-295 | a frame, its copy and a frame of any sender: the run delivers only the first |
| `TunnelRuns.BadTagIsBarren` | src/net/Ip2LoraTunnel.ts:230-301 | behind a frame that does not authenticate the run delivers nothing while the phantom is not whole, and, unless its address is 0, never anything that starts before the end of the phantom |
| `TunnelRuns.BurntNumberRun` | src/net/Ip2LoraTunnel.ts:230-301 | the run delivers a genuine frame right behind the phantom, fresh before, iff its number is not the burnt one and less than 64 behind it |
| `TunnelRuns.StaleIsNeverDelivered` | src/net/Ip2LoraTunnel.ts:271-302 | once a number is accepted, no run on any bytes delivers an AEAD frame with that number or one 64 or more behind it |
| `TunnelExamples.NoPacketSurvives` | src/net/Ip2LoraTunnel.ts:208-213 | a lawful ROHC with which, without AEAD, no packet passes the checksum |
| `TunnelExamples.RohcWithoutAeadLosesPacket` | src/net/Ip2LoraTunnel.ts:256-262 | two nodes that agree on everything and a framed packet on whose frame the whole run delivers nothing |
| `TunnelExamples.SendersClash` | src/net/Ip2LoraTunnel.ts:241-249 | two senders with equal numbers: the packet of the second is refused |
| `TunnelExamples.BadFrameIsUnauthentic` | src/net/Ip2LoraTunnel.ts:296-301 | a frame numbered 2^64 - 1 that reaches the window of a fresh receiver and does not authenticate |
| `TunnelExamples.BadFrameSilencesSender` | src/net/Ip2LoraTunnel.ts:291-301 | after that frame every packet of a genuine sender numbered before the last 64 is refused, whatever else is received |
| `EndToEnd.SegmentsCarryStream` | src/net/Ip2LoraTunnel.ts:208-220 | the segments of a run concatenate to the frames of its packets and each has 1..max bytes |
| `EndToEnd.SerialCarriesPackets` | src/device/HelionetDevice.ts:67-104 | the host hands its tunnel exactly the packets the board received well, in order |
| `EndToEnd.LonePacketTurn` | src/net/Ip2LoraTunnel.ts:173-262 | the turn at the first byte of a lone packet delivers it, there and whole, iff its checksum survives ROHC |
| `EndToEnd.PacketsArrive` | src/net/Ip2LoraTunnel.ts:153-269 | from TUN to TUN: exactly the packets of the framed chunks whose destination byte, 19 or behind a header 23, names B, unchanged, in order, nothing left over |
| `EndToEnd.LonePacketArrivesExactly` | src/net/Ip2LoraTunnel.ts:173-268 | the whole run on a lone packet for a fresh B delivers something at the first byte of its frame iff its checksum survives ROHC; if so exactly the packet, with nothing left over; else the run goes on one byte further, and delivers nothing and keeps the rest unless a phantom frame fits into it |

## Left out

- TUN device, serial port, sockets, timers and NVS: what they deliver are parameters, what they are given is recorded.
- zlib, ROHC, ChaCha20-Poly1305 and HMAC-SHA256 are function values; assumed is only that each decoder inverts its encoder, the lengths RFC 8439 gives, and a 32-byte digest. ROHC is stateless here, which its contexts are not.
- Integrity against forgery: no assumption is made that a tag is hard to guess, so nothing is claimed about who made a datagram or frame; schedules of the UDP channel admit only datagrams that were sent or that fail authentication, in one session.
- The timeout and retry machine of configuration and info queries: a stale timer can reject a later attempt and a timeout discards buffered bytes. Replies are modelled as answered in time and not overlapped.
- A `CONFIG_OK` inside a radio payload is lifted like a reply; `Devices.ConfigDoesNotDisturb` therefore asks that the first one in the stream is the board's answer, and `Devices.PacketIsTakenForReply` shows what happens otherwise; the same goes for `INFO` in a log line (`Devices.LineIsTakenForInfo`).
- `JSON.parse` of the info text and the rejection when it fails: the reply is the text.
- Mode `closed`, opening and closing, keepalives and the reset of the splitter.
- The `tun-rx`, `serial-rx`, `wire-tx` and `wire-rx` events and errors of rejected sends; where `onTunPacket` emits `drop` or `warn` or throws, its method returns which.
- The address is given as a number, not parsed out of a network address in text; `maxLoraFrameSize` is positive, since the segmentation loop of the source never ends at 0.
- The tunnel always owns a nonce counter and a TUN device here; without an AEAD key the counter is never used.
- A packet too short to hold a destination is addressed to 0, as reading past the end gives in the source.
- Serial and UDP bytes mixed in one command parser, segments of several senders mixed on the air, and loss on the air: `EndToEnd.PacketsArrive` is for one sender over an in-order link, before its counter wraps.
- UDP datagrams above 1500 bytes, which the firmware cuts off: modelled in `PumpBridge`, outside the equivalence with the host.
- The mirror of datagrams to serial, the reply address, and the reset of UDP state when a key is installed.
- What the board does with the bytes of TC, RC and Tc bodies, RadioLib, display, LED, WebUI and WiFi connection; the transmit and receive status lines of the firmware are log lines like any other.
- The text `%.1f` prints for signal strength and noise is any text on one line.
- Airtime and random backoff: a write of the send queue may take any time.
- `Devices.HelionetDevice.Pass`: splitter events are appended to a record instead of calling listeners.
