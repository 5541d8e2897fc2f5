# Wi-Fi firmware uploader, modelled in Dafny

This project models the Wi-Fi upload path of a command-line tool that
flashes a compiled firmware image onto a microcontroller over UDP. It
covers the `WiFiUploader` class of `src/upload-wifi.mjs`, the argument
check of `handleWifiUpload`, and `parseArgs` of `src/common.mjs`.

The uploader talks to the device in two nested framings:

- **Outer frame.** `0x78 0xCD`, a big-endian 16-bit total length, a
  command pair, the payload, then `0xBE`. Every payload the uploader
  sends starts with the 24-bit pairing code.
- **Inner device command.** Either a 13-byte configuration frame
  (`0x56 0xAB cmd field[8] checksum 0xCF`) or a page frame carrying
  1024 bytes of the image.

A download runs through these steps:

1. Pair with the device.
2. Send six configuration commands, each re-sent every second until the
   device acknowledges it. They are the device-type query, the file name,
   a FAT-packed date, the page size, the page count and the start
   command.
3. Stream the pages. Each page waits for the device to echo its checksum.

Modules:

- `Bytes`: Node.js byte semantics. Buffer stores keep a value mod 256,
  `>>` works on ToInt32 of its operand, and a read past the end is
  `undefined`, which matches nothing. The module also holds the additive
  checksum and the 24-bit pairing-code prefix.
- `Transport`: the outer frame. It has the encoder (`BuildFrame` fills
  an array), the validity test and split of `parseUDPPacket`
  (`Decode`), and the hand-filled pairing packets.
- `DeviceCommands`: the inner frames, the FAT time and date packing,
  paging, the checksum loops and the page-buffer copy.
- `Protocol`: the uploader's fields as a `Session` value. Each handler
  is a function from the old session to the new one, and the lemmas state
  the protocol's properties about these functions.
- `Uploader`: the `WiFiUploader` class. Its fields are updated in place,
  and every method is proved to produce exactly the session that the
  matching `Protocol` function gives.
- `Args`: `parseArgs` as a loop, proved against a last-one-wins
  reference definition, plus the argument check.

Outside effects are modelled as follows:

- **Datagrams sent.** The socket is an append-only `sent` log of
  datagrams (destination address, port, bytes).
- **Resend timer.** The 1000 ms timer is a flag, `resendArmed`. It is
  cleared before it is re-armed, so at most one is pending.
- **Settle timer.** The 100 ms timer cannot be cancelled, so it is a
  count, `pendingSettles`.
- **Timers firing.** A timer going off is a method call.
- **File and clock.** The file's contents, its base name and the
  wall-clock time are parameters.

Behaviour of the code that the model keeps as written:

- **The step can pass the data step.** A device-type reply (cmd 3) or a
  status-1 reply arriving in step 6 moves the step to 7. From there
  `downloadStep_V1` sends nothing and arms no timer, so the upload stalls
  (`Protocol.StrayTypeReplyStalls`).
- **A checksum mismatch resends the page.** A page acknowledgement with
  the wrong checksum re-runs the data step (src/upload-wifi.mjs:222) with
  the page count unchanged, so page `pageCount` goes out again
  (`Protocol.PageAckCountsOnlyOnMatch`).
- **The start acknowledgement leaves the resend timer armed.** The status-3
  reply that moves step 5 to step 6 does not cancel the pending resend
  timer. If that timer fires before the settle timer, it runs the data
  step, which sends the first page.
- **Settle timers are never cancelled.** A settle timer that fires after
  the download completed runs step 0 again.
- **`downloadFinish` never outlives a handler.** It is set and cleared
  within one `downloadStep_V1` run, so between handlers it is always
  false (`Protocol.Inv`).
- **A wide pairing code never connects.** The code is compared with a
  24-bit value read from the reply, so a code outside 0 .. 2^24 - 1 never
  connects (`Protocol.WideCodeNeverConnects`).

## Model

| member | source | states |
|---|---|---|
| Bytes.ToByte | src/upload-wifi.mjs:118-120 | a value stored into a Buffer slot is kept mod 256; a value already in 0..255 is stored unchanged |
| Bytes.ToInt32 | src/upload-wifi.mjs:245-246 | the operand of `>>` is reduced to a signed 32-bit value congruent to it mod 2^32, unchanged for 0 .. 2^31 - 1 |
| Bytes.ReadBE24 | src/upload-wifi.mjs:87 | `(p[0] << 16) + (p[1] << 8) + p[2]` is a number exactly when three bytes are present, and then lies in 0 .. 2^24 - 1 |
| Bytes.CodePrefixRoundTrip | src/upload-wifi.mjs:244-247 | the three prefix bytes `send` writes for a 24-bit pairing code read back as that code |
| Bytes.PrefixOfReadBE24 | src/upload-wifi.mjs:157-158 | conversely, any three bytes that read as a code are exactly that code's prefix |
| Bytes.WideCodeNeverMatches | src/upload-wifi.mjs:86-95 | a pairing code outside 24 bits equals no received code |
| Transport.Frame | src/upload-wifi.mjs:228-240 | a frame is `|payload| + 7` bytes long and carries the payload verbatim at offset 6 |
| Transport.Decode | src/upload-wifi.mjs:74-81 | a datagram is accepted exactly when it has at least 7 bytes, the magic `0x78 0xCD`, a big-endian length equal to its own and the terminator `0xBE`; the accepted payload is 7 bytes shorter and the command pair is bytes 4-5 |
| Transport.PairingCodePacket | src/upload-wifi.mjs:110-121 | the pairing packet is 10 bytes, its length field says 10, its command pair is (204, 221) and the pairing code follows big-endian |
| Transport.ShakehandPacket | src/upload-wifi.mjs:129-148 | the handshake is 14 bytes, its length field says 14, its command pair is (170, 1), and the pairing code is followed by `192.168.<third octet>.1` |
| Transport.DecodeFrame | src/upload-wifi.mjs:74-81 | an encoded frame passes the validity test exactly when its length fits the 16-bit field, and then splits back into its command pair and payload |
| Transport.FrameOfDecoded | src/upload-wifi.mjs:74-81 | every accepted datagram is the frame of the command pair and payload it splits into |
| Transport.BuildFrame | src/upload-wifi.mjs:228-273 | the array filled by `buildDownloadPacket` and by `sendDataPacket` is the frame of its command pair and payload |
| Transport.PairingPacketsAreFrames | src/upload-wifi.mjs:110-154 | the hand-filled pairing and handshake packets are frames whose literal length bytes agree with their length, with the pairing code first in the payload |
| DeviceCommands.FixedFramesWellFormed | src/upload-wifi.mjs:361-467 | the literal checksums 2 and 4 of the device-type and start commands follow the device's additive checksum rule |
| DeviceCommands.IndexOf | src/upload-wifi.mjs:374-375 | the index found is an occurrence of the pattern with no earlier occurrence, and `None` means no occurrence at all |
| DeviceCommands.FileNameFrameWellFormed | src/upload-wifi.mjs:373-395 | the file-name frame is a 13-byte configuration frame with command 7, the name field at bytes 3-10 and `(7 + sum of the field) mod 256` as its checksum |
| DeviceCommands.NameFieldStripsBin | src/upload-wifi.mjs:374-379 | for a name `stem.bin...` whose stem has no dot, the field is the first eight bytes of the stem, space padded |
| DeviceCommands.BinStem | src/upload-wifi.mjs:374-379 | the stem is a prefix of the name with no `.bin` inside it, ending where the first `.bin` starts, or the whole name when there is none |
| DeviceCommands.NameField | src/upload-wifi.mjs:374-379 | the field is 8 bytes: the stem's first bytes, then spaces |
| DeviceCommands.FileNameFrame | src/upload-wifi.mjs:373-395 | the file-name frame is 13 bytes with command 7 and the name field at bytes 3-10 |
| DeviceCommands.BitOrDisjoint | src/upload-wifi.mjs:405-406 | or-ing a value below 2^k into a value shifted left by k adds the two, so the packed fields do not overlap |
| DeviceCommands.FatTimeUnpacks | src/upload-wifi.mjs:405 | `(hour << 11) or (minute << 5)` fits 16 bits and unpacks to the hour and minute with zero seconds |
| DeviceCommands.FatDateUnpacks | src/upload-wifi.mjs:406 | `((year - 1980) << 9) or (month << 5) or day` fits 16 bits and unpacks to the year, month and day |
| DeviceCommands.FatDateIsSum | src/upload-wifi.mjs:406 | the or-ed date fields equal `((year - 1980) * 16 + month) * 32 + day`, since the shifted fields never overlap |
| DeviceCommands.FileDateFrameFields | src/upload-wifi.mjs:397-419 | the date frame follows the checksum rule, and its little-endian time and date fields are the packed clock |
| DeviceCommands.FileDateFrame | src/upload-wifi.mjs:397-419 | the date frame is 13 bytes with command 8 and zeros at bytes 7-10 |
| DeviceCommands.PageSizeFrameWellFormed | src/upload-wifi.mjs:421-437 | the page-size frame follows the checksum rule with the size little-endian; 1024 goes out as `0x00 0x04` |
| DeviceCommands.PageSizeFrame | src/upload-wifi.mjs:421-437 | the page-size frame is 13 bytes with command 9 and the size little-endian (mod 65536) at bytes 3-4 |
| DeviceCommands.PageSumFrameWellFormed | src/upload-wifi.mjs:439-454 | the checksum `(sum + (sum >> 8) + 6) & 0xFF` equals `(6 + low + high) mod 256` for every count, so the frame follows the checksum rule |
| DeviceCommands.PageSumFrame | src/upload-wifi.mjs:439-454 | the page-count frame is 13 bytes with command 6 and the count little-endian (mod 65536) at bytes 3-4 |
| DeviceCommands.PageTotal | src/upload-wifi.mjs:296 | `ceil(length / 1024)` pages cover the image, and none of them is empty |
| DeviceCommands.Page | src/upload-wifi.mjs:474-484 | every page is 1024 bytes |
| DeviceCommands.PageAt | src/upload-wifi.mjs:474-484 | byte j of page i is image byte 1024 i + j, or zero past the end of the image |
| DeviceCommands.ImageByteInPage | src/upload-wifi.mjs:474-484 | every image byte travels in page k / 1024 at offset k mod 1024 |
| DeviceCommands.PageFrameWellFormed | src/upload-wifi.mjs:486-503 | the corrected page frame is 1030 bytes, carries the page verbatim at offset 4 and the index little-endian at bytes 2-3, and its checksum is the index bytes plus the page bytes mod 256 |
| DeviceCommands.PageFrame | src/upload-wifi.mjs:486-503 | the corrected page frame is 1030 bytes: magic, the index little-endian at bytes 2-3, the whole page at 4-1027 and `0xCF` last |
| DeviceCommands.PageFrameAsWritten | src/upload-wifi.mjs:491-503 | the page frame as the code fills it is 1029 bytes: magic, the index little-endian at bytes 2-3, the first 1023 page bytes at 4-1026, `(page sum + low + high) mod 256` at 1027 and `0xCF` at 1028 |
| DeviceCommands.AsWrittenFrameOverwritesLastPageByte | src/upload-wifi.mjs:496-503 | the frame as written loses the page's last byte to the checksum, on a concrete page |
| DeviceCommands.AddBytes | src/upload-wifi.mjs:381-384 | the checksum loop returns its start value plus the sum of the bytes |
| DeviceCommands.BuildPage | src/upload-wifi.mjs:474-484 | the zero-filled buffer with the image slice copied in is page i |
| DeviceCommands.BuildPageFrame | src/upload-wifi.mjs:491-503 | the filled frame buffer is the corrected 1030-byte page frame of the index and page (see "## Findings"), not the 1029-byte buffer of the code |
| Protocol.Initial | src/upload-wifi.mjs:15-31 | a new uploader is idle, not connected, has sent nothing, and keeps the invariant |
| Protocol.Connect | src/upload-wifi.mjs:33-51 | connecting keeps the invariant |
| Protocol.Send | src/upload-wifi.mjs:242-255 | `send` appends exactly one datagram, the pairing code and the data in a (0xEE, 0xFF) frame to the target, and changes nothing else |
| Protocol.SendDataPacket | src/upload-wifi.mjs:257-279 | `sendDataPacket` appends exactly one datagram to the target: `|data| + 10` bytes, command pair (0xAA, 0x03), and the pairing code then the data as payload; nothing else changes |
| Protocol.ConnectSendsPairingFrames | src/upload-wifi.mjs:34-154 | `connect` sends the pairing frame and the handshake to the target's device port, and each carries the pairing code as its first payload bytes |
| Protocol.SendFileData | src/upload-wifi.mjs:469-506 | past the last page, nothing is sent, `downloadFinish` is raised and `lastCheckSum` is kept; otherwise exactly the page's datagram is sent (carrying the corrected 1030-byte page frame of "## Findings"), `lastCheckSum` becomes the page's byte sum mod 256, and nothing else changes |
| Protocol.ConfigCommand | src/upload-wifi.mjs:309-329 | each of steps 0-5 sends a well-formed configuration frame, with commands 2, 7, 8, 9, 6 and 4 in that order |
| Protocol.StepAction | src/upload-wifi.mjs:314-331 | a step sends at most one datagram and changes nothing but the log, the last checksum and `downloadFinish`, which it raises exactly when all pages are sent in the data step |
| Protocol.DownloadStep | src/upload-wifi.mjs:309-348 | the resend timer is armed exactly when the step is below 6, the download completes exactly when all pages are sent, and the invariant holds |
| Protocol.DownloadComplete | src/upload-wifi.mjs:508-519 | completion cancels the resend timer, clears `isDownloading` and `downloadFinish`, resets the step to 0, sends nothing, and restores the invariant |
| Protocol.DownloadStepFrame | src/upload-wifi.mjs:309-348 | a step keeps the peer, the pairing code, the image, the page total and the page count, and appends exactly one datagram to the log unless it completes the download or the step is already past 6 |
| Protocol.ParseDownloadV1 | src/upload-wifi.mjs:177-226 | every device reply keeps the invariant |
| Protocol.StepInput | src/upload-wifi.mjs:186-222 | a reply that runs a step is never the step-5 start acknowledgement, keeps the invariant, and changes only the step and the page count, each by at most one |
| Protocol.ParseReply | src/upload-wifi.mjs:156-175 | every reply payload keeps the invariant |
| Protocol.ParseUdpPacket | src/upload-wifi.mjs:74-108 | every datagram keeps the invariant |
| Protocol.StartDownload | src/upload-wifi.mjs:281-307 | starting is refused unless connected and the file exists: "not connected" when not connected, whatever the file, and "file missing" when connected without the file; otherwise the invariant holds |
| Protocol.BeginDownload | src/upload-wifi.mjs:290-306 | the session a started download leaves behind keeps the invariant |
| Protocol.StartDownloadBegins | src/upload-wifi.mjs:291-306 | a started download sends the user-space command twice and the device-type query, resets step and page count, computes the page total, and arms the resend timer |
| Protocol.ResendTimerFires | src/upload-wifi.mjs:339-341 | a resend keeps the invariant |
| Protocol.ResendRepeatsCommand | src/upload-wifi.mjs:338-342 | a resend before the data step sends the current step's command again and leaves the step where it is |
| Protocol.SettleTimerFires | src/upload-wifi.mjs:207-210 | a settle timer firing keeps the invariant |
| Protocol.SettleStartsTransfer | src/upload-wifi.mjs:205-211 | the settle timer after the start acknowledgement sends page 0 and arms no resend timer |
| Protocol.Close | src/upload-wifi.mjs:521-528 | closing cancels the resend timer but not the pending settle timers, sends nothing and keeps the step and the invariant |
| Protocol.MalformedDatagramIgnored | src/upload-wifi.mjs:75-78 | a datagram that is too short, has the wrong magic, length or terminator changes nothing |
| Protocol.HandshakeBindsPeer | src/upload-wifi.mjs:86-95 | a handshake reply with the pairing code connects and binds the sender's address and port, changing nothing else |
| Protocol.HandshakeMismatchIgnored | src/upload-wifi.mjs:86-95 | a handshake reply with another code changes nothing |
| Protocol.WideCodeNeverConnects | src/upload-wifi.mjs:86-95 | an uploader whose pairing code does not fit 24 bits never connects |
| Protocol.ParseReplyKeepsPeer | src/upload-wifi.mjs:156-226 | device replies never change the connection or the peer |
| Protocol.RepliesIgnoredUnlessDownloading | src/upload-wifi.mjs:98-106 | while no download runs, a datagram can change only the peer binding |
| Protocol.ReplyNeedsPairingCode | src/upload-wifi.mjs:156-170 | a reply whose prefix is another code changes nothing |
| Protocol.DeviceReplyReachesStateMachine | src/upload-wifi.mjs:98-106 | during a download, a framed reply of either reply command with the pairing code reaches `parseDownload_V1` with the code stripped |
| Protocol.SendCarriesPairingCode | src/upload-wifi.mjs:228-255 | every command sent decodes at the device to the download command, with the pairing code in front of the data |
| Protocol.StepSendsConfigCommand | src/upload-wifi.mjs:314-341 | each step before the data step sends its own configuration command and arms the resend timer |
| Protocol.StepSendsPage | src/upload-wifi.mjs:331-347 | the data step sends the page at the acknowledged count, or completes the download once all pages are acknowledged |
| Protocol.AckAdvancesOneStep | src/upload-wifi.mjs:186-202 | below step 5, a cmd-3 reply or a status-1 reply advances the step by exactly one and sends the next step's command |
| Protocol.AckEntersDataStep | src/upload-wifi.mjs:186-202 | in step 5, a cmd-3 or status-1 reply enters the data step and sends page `pageCount` with no resend timer, or completes the download when every page is already acknowledged |
| Protocol.StartAckOnlyAtStep5 | src/upload-wifi.mjs:203-213 | a status-3 reply moves step 5 to the data step and schedules the settle timer without sending; in any other step it re-runs the current step |
| Protocol.PageAckCountsOnlyOnMatch | src/upload-wifi.mjs:214-222 | a page acknowledgement advances to the next page only when it echoes the last checksum; otherwise the same page is sent again, and the last page's acknowledgement completes the download |
| Protocol.PageCountOnlyOnMatchingAck | src/upload-wifi.mjs:214-219 | the page count changes only on a status-4 reply whose checksum byte equals the last page checksum |
| Protocol.NoSkipping | src/upload-wifi.mjs:177-226 | the acknowledged-page count grows by at most one per datagram |
| Protocol.StrayTypeReplyStalls | src/upload-wifi.mjs:186-190 | a type reply in the data step moves the step to 7, where nothing is sent and no timer is armed |
| Uploader.WiFiUploader.constructor | src/upload-wifi.mjs:15-31 | the fields start as the initial session |
| Uploader.WiFiUploader.SendPairingCodePacket | src/upload-wifi.mjs:110-128 | the filled 10-byte array is the pairing packet, sent to the given address |
| Uploader.WiFiUploader.SendEsp8266Shakehand | src/upload-wifi.mjs:130-154 | the filled 14-byte array is the handshake packet, sent to the given address |
| Uploader.WiFiUploader.Connect | src/upload-wifi.mjs:33-51 | the new state is `Protocol.Connect` of the old |
| Uploader.WiFiUploader.Send | src/upload-wifi.mjs:242-255 | the new state is `Protocol.Send` of the old |
| Uploader.WiFiUploader.SendDataPacket | src/upload-wifi.mjs:257-279 | the new state is `Protocol.SendDataPacket` of the old |
| Uploader.WiFiUploader.WiFiDownloadToUserSpace | src/upload-wifi.mjs:350-359 | sends the six-byte user-space command |
| Uploader.WiFiUploader.GetRcuType | src/upload-wifi.mjs:361-371 | sends the device-type query |
| Uploader.WiFiUploader.SetFileName | src/upload-wifi.mjs:373-395 | the frame built around the checksum loop is the file-name frame |
| Uploader.WiFiUploader.SetFileDate | src/upload-wifi.mjs:397-419 | sends the date frame of the current clock |
| Uploader.WiFiUploader.SetPageSize | src/upload-wifi.mjs:421-437 | sends the page-size frame |
| Uploader.WiFiUploader.SetPageSum | src/upload-wifi.mjs:439-454 | sends the page-count frame |
| Uploader.WiFiUploader.SetStartDownloadV1 | src/upload-wifi.mjs:456-467 | sends the start command |
| Uploader.WiFiUploader.SendFileDataV1 | src/upload-wifi.mjs:469-506 | the page copy, the checksum loop and the frame fill give `Protocol.SendFileData` of the old state, so the datagram carries the corrected 1030-byte page frame |
| Uploader.WiFiUploader.DownloadComplete | src/upload-wifi.mjs:508-519 | clears the resend timer and the download flags and resets the step |
| Uploader.WiFiUploader.DownloadStepV1 | src/upload-wifi.mjs:309-348 | the new state is `Protocol.DownloadStep` of the old, and the invariant holds |
| Uploader.WiFiUploader.StepAction | src/upload-wifi.mjs:314-331 | the new state is `Protocol.StepAction` of the old |
| Uploader.WiFiUploader.ParseDownloadV1 | src/upload-wifi.mjs:177-226 | the new state is `Protocol.ParseDownloadV1` of the old, and the invariant holds |
| Uploader.WiFiUploader.ParseReply | src/upload-wifi.mjs:156-175 | the new state is `Protocol.ParseReply` of the old, and the invariant holds |
| Uploader.WiFiUploader.ParseUdpPacket | src/upload-wifi.mjs:74-108 | the new state is `Protocol.ParseUdpPacket` of the old, and the invariant holds |
| Uploader.WiFiUploader.StartDownload | src/upload-wifi.mjs:281-307 | returns the error `Protocol.StartDownload` gives with the state untouched, or no error and its new session |
| Uploader.WiFiUploader.BeginDownload | src/upload-wifi.mjs:290-306 | the new state is `Protocol.BeginDownload` of the old, and the invariant holds |
| Uploader.WiFiUploader.ResetDownload | src/upload-wifi.mjs:290-296 | the image and its name are stored, the download is marked running and unfinished, step and page count are 0, the page total is `ceil(length / 1024)`, and nothing else changes |
| Uploader.WiFiUploader.ResendTimerFires | src/upload-wifi.mjs:338-342 | the new state is `Protocol.ResendTimerFires` of the old |
| Uploader.WiFiUploader.SettleTimerFires | src/upload-wifi.mjs:207-210 | the new state is `Protocol.SettleTimerFires` of the old |
| Uploader.WiFiUploader.Close | src/upload-wifi.mjs:521-528 | cancels the resend timer |
| Args.FirstIndex | src/common.mjs:5 | the index found holds the character, and no earlier index does; `None` means the character is absent |
| Args.UpTo | src/common.mjs:5 | the text before the first `=` is a prefix without `=` that ends at an `=` or at the end |
| Args.SplitSecond | src/common.mjs:4-14 | `split("=")[1]` is `undefined` exactly when there is no `=` |
| Args.SplitSecondOfKeyValue | src/common.mjs:4-14 | `key=value`, optionally followed by `=...`, splits back to `value` |
| Args.ParseArgs | src/common.mjs:1-18 | the loop's record is, field by field, the last matching argument's value and whether any argument starts with `--wifi` |
| Args.LastValueIsLastMatch | src/common.mjs:3-16 | the last argument with a prefix decides its field, overriding earlier ones, and one without `=` resets it to `undefined` |
| Args.LastValueNoMatch | src/common.mjs:2-17 | with no argument for a prefix, its field stays absent |
| Args.PrefixesDisjoint | src/common.mjs:4-15 | no argument starts with two of the four prefixes |
| Args.EachArgSetsOneKey | src/common.mjs:4-15 | an argument changes only the field its prefix names, and an argument with none of the prefixes changes nothing |
| Args.WifiFlagAnySuffix | src/common.mjs:7-8 | any argument beginning `--wifi` turns the upload on, whatever follows |
| Args.HandleWifiUpload | src/upload-wifi.mjs:6-10 | the arguments are accepted exactly when the upload flag is set and program, address and code are present and non-empty |
| Args.EmptyIpRejected | src/upload-wifi.mjs:7-8 | `--ip=` and `--ip` both leave the address missing |
| Args.FullCommandLineAccepted | src/common.mjs:1-18 | a complete command line parses to the values it spells out |

## Left out

- The UDP socket is left out: creating it, binding to port 36803, the send callbacks and the `error` event. Sends are appended to the `sent` log.
- Timers are left out as scheduling. The 5000 ms connect wait, the 1000 ms poll and the 300 s overall timeout of `connect` and `wifiUpload` are not modelled. The resend and settle timers are modelled as pending state and fire only when their method is called.
- `handleMessage` is left out. It only logs the datagram and catches exceptions around `parseUDPPacket`, which the model treats as total.
- Logging is left out, including the elapsed-time report that uses `startTime`.
- `fs.existsSync`, `fs.readFileSync` and `path.basename` are left out. The file's contents (or their absence) and its base name are parameters of `StartDownload`.
- `new Date()` is left out. The clock is a field set by the constructor and by `SetClock`. It is limited to the range the FAT fields hold (years 1980-2107), because a later year makes `writeUInt16LE` throw.
- `parseInt` of the pairing code is left out, including `NaN`. The code is an integer parameter of `Connect`.
- Splitting the target address to guess the local address is left out. Its third part is an integer parameter.
- Protocol.Connect: the connection promise is not modelled. Its contract states only that the invariant is kept; what it sends is stated by `Protocol.ConnectSendsPairingFrames`.
- DeviceCommands.BuildPageFrame, Protocol.SendFileData and Uploader.WiFiUploader.SendFileDataV1 send the corrected 1030-byte page frame (a 1040-byte datagram), not the 1029-byte frame of src/upload-wifi.mjs:496-503 (a 1039-byte datagram); every property of sent pages (`Protocol.StepSendsPage`, `Protocol.AckEntersDataStep`, `Protocol.PageAckCountsOnlyOnMatch`, `Protocol.SettleStartsTransfer`) is about the corrected frame. The frame as written is `DeviceCommands.PageFrameAsWritten`.
- DeviceCommands.Latin1: a character outside the Basic Multilingual Plane is one character in Dafny but two UTF-16 units in JavaScript. Names are taken to be BMP text.
- Other files are outside this model: `wifiUpload`'s polling loop, `src/upload.mjs`, `src/build.mjs`, `src/create.mjs`, `index.js`, `index.mjs`, `src/help.mjs` and `src/version.mjs`.

## Findings

| source | as written | input that shows it | evidently intended | confidence | as-written member | corrected member |
|---|---|---|---|---|---|---|
| src/upload-wifi.mjs:496-503 | `sendFileData_V1` allocates 1029 bytes. It copies the 1024-byte page to offsets 4-1027, then writes the checksum at 1027 (over the page's last byte) and `0xCF` at 1028 | page 1 of a 2048-byte image whose bytes are all zero except the last, which is 1: the device receives 2 (the checksum) where the page holds 1 | a 1030-byte frame with the checksum at 1028 and `0xCF` at 1029: `setPageSize(1024)` (:325) announces 1024-byte pages and `lastCheckSum` (:486-490) sums all 1024 page bytes, which a 1029-byte frame cannot deliver | medium, not executed | DeviceCommands.AsWrittenFrameOverwritesLastPageByte | DeviceCommands.PageFrameWellFormed |
