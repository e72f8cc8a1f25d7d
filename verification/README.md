# sh2-logger core, modelled in Dafny

This project models the host side of the sh2-logger tools, which talk to a
sensor hub over an FTDI USB-to-UART bridge:

- **The framed transport** (`hal/ftdi_hal.c` for Linux, `hal/ftdi_hal_Win.c` for
  Windows) covers several pieces:
  - RFC 1662-style byte stuffing: a 0x7E flag, a 0x7D escape, and XOR 0x20.
  - A receive state machine that reassembles frames.
  - The buffer-status notification (BSN) and buffer-status query (BSQ) flow
    control that gates every write.
- **The hcbin firmware container reader** (`HcBinFile.cpp`) checks the header
  words, then parses the `key: value` metadata lines. It reads the payload and
  checks the running CRC-32 against the stored trailer.
- **The BNO08x lockstep firmware update** (`BnoDfu.cpp`) sends packets that
  carry a CRC-16/CCITT-FALSE. Each packet is retried up to 5 times until the
  device acknowledges it with `'s'`.
- **The FSP200 report-driven firmware update** (`FspDfu.cpp`) is a table-driven
  state machine: Init, SettingMode, SendingData, WaitCompletion, Launching,
  Finished. Each write request carries up to sixteen 32-bit words.
- **The DSF log writer** (`DsfLogger.cpp`, `DsfLogger.h`) has three parts:
  - the sample-id extender, which widens the hub's 8-bit sequence numbers to
    64-bit ids;
  - the rule that a sensor's channel definition is written once, before
    anything else about that sensor;
  - the text of the FRS-record and reset-cause lines.
- **The sensor-name table and its lookup** live in `LoggerUtil.h`.

One Dafny module covers each component:

| module | file | what it holds |
|---|---|---|
| `Common` | `common.dfy` | bytes and widths, `Option`, the sh2 status codes |
| `Crc32` | `crc32.dfy` | the bitwise CRC-32 of the hcbin reader |
| `Rfc1662` | `rfc1662.dfy` | the encoder and the receive state machine, which the two HAL builds share |
| `FtdiHal` | `ftdi_hal.dfy` | the Linux open, close, read and write |
| `FtdiHalWin` | `ftdi_hal_win.dfy` | the Windows open, read and write, and how they differ from Linux |
| `HcBin` | `hcbin.dfy` | the hcbin reader and its accessors |
| `FirmwareImage` | `firmware.dfy` | the `Firmware` interface that both updaters consume |
| `Crc16` | `crc16.dfy` | the CRC-16 that `appendCrc` computes |
| `Chunking` | `chunking.dfy` | how an image is cut into packets |
| `BnoDfu` | `bno_dfu.dfy` | the lockstep updater |
| `FspDfu` | `fsp_dfu.dfy` | the report-driven updater |
| `SampleId` | `sample_id.dfy` | the sample-id extender |
| `SensorNames` | `sensor_names.dfy` | the sensor-name table and its lookup |
| `DsfLog` | `dsf_logger.dfy` | the DSF log writer |

The model has no I/O:

- **Clocks.** Every clock reading is a parameter: the `now` of a write, the
  reading attached to each received byte, and the readings in the update
  scripts.
- **Serial bytes.** The bytes the OS hands over are an input sequence.
- **Failures.** A write that fails is an index into the bytes being written.
- **Firmware updates.** A device's answers form a script. For the lockstep
  update, each attempt lists the return codes of the writes and reads it
  makes. For the report-driven update, each service call lists the reports
  it delivers.
- **Status codes.** These take the sh2 library's values: `SH2_OK` 0, `SH2_ERR` -1,
  `SH2_ERR_BAD_PARAM` -2, `SH2_ERR_IO` -4, `SH2_ERR_HUB` -5, `SH2_ERR_TIMEOUT`
  -6. `sh2_err.h` is not part of this model.

Where the design description of the system and the code disagree, the model
follows the code:

- **Windows write.** It does not consume the advertised capacity, and it
  sends a BSQ on every call that lacks room, with no 10 ms spacing
  (`FtdiHalWin.CapacityConsumedOnlyOnLinux`).
- **Windows open.** It marks the transport open before it talks to the
  device. A failed open therefore leaves it marked open, and every later open
  is refused until `close` is called (`FtdiHalWin.FailedOpenBlocksRetry`).
- **The metadata separator.** It is not exactly one space: the parser drops
  every byte after the colon up to the first space.
- **The sensor tables.** The sensor-name table in `LoggerUtil.h` has 44
  entries (ids 0x00 to 0x2B). The DSF table in `DsfLogger.cpp` has 47 entries
  (0x00 to 0x2E). Both are checked at compile time against the same
  `SH2_MAX_SENSOR_ID`. So the lookup takes the table's largest id as a
  parameter, and the DSF writer uses 0x2E.
- **The FSP200 update.** When the SHTP layer cannot be opened, the update
  returns without closing the firmware image (see Findings).
- **The hcbin open.** The image the FSP200 update reads is the reader as
  written (`FirmwareImage.FromHcBin`). A header whose payload offset lies
  inside it opens with success, and the update then rejects the image as a
  bad parameter (`FspDfu.AbandonedImageRejected`). The corrected open is
  `FirmwareImage.FromHcBinChecked` (see Findings).

## Model

| member | source | states |
|---|---|---|
| Common.LittleEndian16 | hal/ftdi_hal.c:450 | A BSN count is its low byte plus 256 times its high byte. |
| Common.Write32be | BnoDfu.cpp:117-123 | Four bytes, most significant first, that read back big-endian as the value. |
| Crc32.UpdateUndone | HcBinFile.cpp:343-352 | Folding a byte into the CRC-32 register can be undone: the reverse step gives the previous register back. |
| Crc32.UpdateInjectiveInRegister | HcBinFile.cpp:343-352 | Two different registers stay different after the same byte is folded in. |
| Crc32.UpdateInjectiveInByte | HcBinFile.cpp:343-352 | Two different bytes folded into the same register give different registers. |
| Crc32.FoldAppend | HcBinFile.cpp:343-352 | Running the register over two runs of bytes in turn is running it over their concatenation. |
| Crc32.CrcSuffixKeepsDifference | HcBinFile.cpp:343-352 | Two byte runs with different CRCs still differ after a common suffix. |
| Crc32.SingleByteErrorDetected | HcBinFile.cpp:146-153 | Two equal-length byte runs that differ in exactly one byte have different checksums, so the trailer check catches any single corrupted byte before the trailer. |
| Crc32.CheckValue | HcBinFile.cpp:343-352 | With the initial value 0xFFFFFFFF and the final complement, "123456789" checks to 0xCBF43926, the standard CRC-32 check value. |
| Rfc1662.EscapeLength | hal/ftdi_hal.c:493-507 | Escaping adds exactly one byte per flag or escape byte in the payload. |
| Rfc1662.EscapeHasNoFlag | hal/ftdi_hal.c:493-507 | An escaped payload contains no flag byte, so the only flags on the wire are the frame delimiters. |
| Rfc1662.FrameLength | hal/ftdi_hal.c:476-518 | An encoded frame is three bytes longer than its payload, plus one per byte that needs escaping. |
| Rfc1662.TxEncode | hal/ftdi_hal.c:476-518 | Encoding overflows exactly when the whole frame (flag, SHTP id, escaped payload, flag) is longer than the output buffer. Otherwise the output is that frame and its length. On overflow the length is left as it was. |
| Rfc1662.Reset | hal/ftdi_hal.c:182-186 | A reset leaves the decoder outside a frame with an empty, not-ready frame. The buffer contents and the start time are kept. |
| Rfc1662.Store | hal/ftdi_hal.c:215-223 | A payload byte is always counted. It is stored at the current length only while the buffer has room, so nothing is written past the buffer. |
| Rfc1662.Decode | hal/ftdi_hal.c:188-240 | Outside a frame, only a flag matters: it opens an empty frame and records the time. Inside a frame, a flag on an empty frame opens it again, and a flag on a non-empty frame closes it and marks it ready. A frame becomes ready only at a closing flag. Once the buffer is full, payload bytes are only counted. |
| Rfc1662.DecodeAllAppend | hal/ftdi_hal.c:441-471 | Decoding two runs of bytes is decoding the first, then the second from where the first left off. |
| Rfc1662.FrameIsWire | hal/ftdi_hal.c:476-518 | An encoded frame is the wire form of the SHTP protocol id followed by the payload. |
| Rfc1662.DecodeWire | hal/ftdi_hal.c:188-240 | From outside a frame, the wire form of any non-empty body ends with a ready frame of the body's length, stamped with the time of its opening flag. It holds the body whenever the body fits, and no frame is ready before the last byte. |
| Rfc1662.RoundTrip | hal/ftdi_hal.c:188-240 | Decoding an encoded frame gives back the SHTP id and the exact payload, including flag and escape bytes, whenever it fits in the buffer. |
| FtdiHal.Dispose | hal/ftdi_hal.c:447-466 | A ready frame that starts with the control id is a BSN, whose count is bytes 1 and 2, least significant first. Any other frame is delivered exactly when it fits both the HAL buffer and the caller's buffer, and is discarded otherwise. |
| FtdiHal.Read | hal/ftdi_hal.c:435-474 | A read returns 0 with nothing delivered when the input runs out, or the frame length, with the payload after the protocol id and the frame's start time. It never exceeds the caller's or the HAL's buffer and leaves the open flag and BSQ time alone. |
| FtdiHal.ReadQuiet | hal/ftdi_hal.c:441-471 | Bytes that complete no frame only advance the decoder, and reading resumes from there. |
| FtdiHal.ReadWire | hal/ftdi_hal.c:447-466 | A control frame updates the capacity to its little-endian count and reading goes on. An oversized data frame is dropped and reading goes on. A data frame that fits is delivered without its protocol id, and the read stops there. |
| FtdiHal.ReadDeliversFrame | hal/ftdi_hal.c:435-474 | A frame the encoder produced is delivered by the read as exactly its payload, stamped with its arrival time. |
| FtdiHal.PutBytes | hal/ftdi_hal.c:550-568 | The byte-at-a-time write puts every byte out, or stops at the first failing byte with the bytes before it sent. |
| FtdiHal.Write | hal/ftdi_hal.c:524-601 | An overflowing encoding is refused with a bad-parameter error before any I/O. With enough advertised room, the frame is sent, the advertisement and the query time are cleared, and the payload length is returned (or an I/O error with a prefix of the frame sent). Otherwise no payload byte goes out, and the write returns 0 (or an I/O error when the query itself fails). A BSQ goes out only if none was sent before or the last one is over 10 ms old (in 32-bit wrap-around time). |
| FtdiHal.WriteRoundTrip | hal/ftdi_hal.c:524-601 | The bytes of a successful write, fed to a receiver, decode to the SHTP id and the payload. |
| FtdiHal.WriteWithoutRoom | hal/ftdi_hal.c:572-598 | With no capacity advertised, a write reports nothing sent and the capacity stays zero. It records the query time only when it sends a BSQ, and it sends one only once the spacing has passed. |
| FtdiHal.NoCapacityNoData | hal/ftdi_hal.c:524-601 | Against a device that never sends a BSN, no write of any run reports data sent, and the capacity stays zero. The BSQs are spaced more than 10 ms apart, except after a query timed at clock reading 0, which the source reads as no query yet. The state remembers the last one's time. |
| FtdiHal.Open | hal/ftdi_hal.c:253-384 | Opening an open transport fails with `SH2_ERR` and changes nothing. Otherwise the decoder is reset and the capacity cleared. The transport ends open, with `SH2_OK`, exactly when the port could be configured, and the BSQ clock then starts at the time read after the reset sequence. |
| FtdiHal.Close | hal/ftdi_hal.c:386-406 | Closing marks the transport closed and keeps the decoder and capacity. |
| FtdiHalWin.ReadWin | hal/ftdi_hal_Win.c:279-342 | A read over the bytes the driver reported at entry returns 0 once all of them are consumed, or the frame length with the payload and start time, within both buffers. A failed byte read abandons the frame in progress. |
| FtdiHalWin.ReadWinAgrees | hal/ftdi_hal_Win.c:279-342 | When every byte read succeeds, the Windows read delivers exactly what the Linux read does. |
| FtdiHalWin.InterruptedFrameLost | hal/ftdi_hal_Win.c:335-338 | A read error in the middle of a frame throws the partial frame away. |
| FtdiHalWin.WriteWin | hal/ftdi_hal_Win.c:387-437 | The Windows write never changes the transport state. It sends the frame when the advertised room suffices and a BSQ on every other call. |
| FtdiHalWin.WriteWinAgrees | hal/ftdi_hal_Win.c:387-437 | Before any BSQ has been timed, the Windows and Linux writes return the same value and put the same bytes on the wire. |
| FtdiHalWin.CapacityConsumedOnlyOnLinux | hal/ftdi_hal_Win.c:401-419 | After one frame is sent on one advertisement, a second frame of the same size is held back on Linux but sent on Windows. |
| FtdiHalWin.OpenWin | hal/ftdi_hal_Win.c:176-260 | Once past the already-open check, the transport is marked open whatever happens. A missing device or a bad baud rate gives a bad-parameter error, and the other FTDI configuration failures give an I/O error. |
| FtdiHalWin.FailedOpenBlocksRetry | hal/ftdi_hal_Win.c:176-260 | After a failed open, every further open is refused until `close` is called, after which an open can succeed. |
| HcBin.Next | HcBinFile.cpp:324-337 | A byte is read exactly when the file has one at the position. The register then still holds the CRC of every byte before the new position. |
| HcBin.Read32be | HcBinFile.cpp:232-252 | `read32be` succeeds exactly when four bytes remain, and yields their big-endian value, below 2^32. Each byte is folded into the register. |
| HcBin.ReadPayload | HcBinFile.cpp:317-341 | `readPayload` succeeds exactly when `n` bytes remain, and yields exactly those bytes. |
| HcBin.SkipGap | HcBinFile.cpp:126-135 | The gap loop reaches the payload offset, folding every byte it skips into the register, or fails at end of file. |
| HcBin.Consume | HcBinFile.cpp:267-306 | The metadata parser only appends entries, one at a time and only when a terminator ends a value. It never lets a colon into a key or a terminator into a value. |
| HcBin.Parse | HcBinFile.cpp:262-312 | Parsing a run of bytes only extends the entries, by at most one per byte. |
| HcBin.ReadMetadata | HcBinFile.cpp:254-315 | `readMetadata` parses exactly the bytes from the cursor to the payload offset, each once, and fails only at end of file. |
| HcBin.PayloadLen | HcBinFile.cpp:138 | The payload length is the file size less the offset and the trailer, in 32-bit arithmetic. |
| HcBin.HeaderSpec | HcBinFile.cpp:88-112 | The header reads succeed exactly when the magic is 0x6572d028 and the version is 4. They yield the size and payload offset words, with the register tracking all 16 header bytes. |
| HcBin.LoadSpec | HcBinFile.cpp:51-175 | Reading a container succeeds exactly on a well-formed file: right magic and version, offset past the header, file long enough, trailer equal to the CRC-32 of everything before it. It then yields the parsed metadata and the payload bytes. The early exit is taken exactly when the offset lies inside the header. |
| HcBin.LoadedFits | HcBinFile.cpp:138 | A payload that loads is shorter than 2^32 bytes. |
| HcBin.Close | HcBinFile.cpp:177-192 | `close` releases the payload and entries, marks the object closed and returns 0. |
| HcBin.Open | HcBinFile.cpp:51-175 | `open` as written refuses an object that is already open, reports a missing file as a bad parameter, and reports success whenever the object ends open. A failed open leaves the object closed and empty. |
| HcBin.OpenChecked | HcBinFile.cpp:121-124 | With the early exits treated as a bad parameter, `open` reports success exactly when the object ends up open. |
| HcBin.OpenSpec | HcBinFile.cpp:51-175 | An open succeeds exactly on a well-formed container. The object then holds the metadata lines parsed in file order and the payload bytes. Both opens agree everywhere except the early exit. |
| HcBin.OpenReportsSuccessUnopened | HcBinFile.cpp:121-124 | A header whose payload offset is below 16 makes `open` as written return `SH2_OK` with the object closed. The checked open reports it as a bad parameter. |
| HcBin.OpenAbandoned | HcBinFile.cpp:121-124 | For any file whose header passes but whose payload offset lies inside the header, `open` as written returns success with a closed object, and the checked open returns a bad parameter. |
| HcBin.FirstMatch | HcBinFile.cpp:197-205 | A key is found exactly when some entry has it, and the answer is the value of the first such entry. |
| HcBin.GetMeta | HcBinFile.cpp:194-206 | `getMeta` answers nothing while closed, and the first entry with the key otherwise. |
| HcBin.GetAppLen | HcBinFile.cpp:208-212 | `getAppLen` is the payload length while open, and `SH2_ERR` read as an unsigned 32-bit value while closed. |
| HcBin.GetPacketLen | HcBinFile.cpp:214-219 | An hcbin file asks for no packet length (0) while open, and `getPacketLen` answers `SH2_ERR` as unsigned while closed. |
| HcBin.GetAppData | HcBinFile.cpp:221-230 | The corrected `getAppData` copies exactly bytes `offset` to `offset + len` when that range lies inside the payload of an open object. Otherwise it returns an error and copies nothing. |
| HcBin.GetAppDataAsWritten | HcBinFile.cpp:221-223 | Below the 32-bit wrap-around, `getAppData` as written is the corrected accessor. |
| HcBin.WrappedBoundReadsOutside | HcBinFile.cpp:223 | Offset 0xFFFFFFFF with length 2 wraps the bound to 1 and passes the check as written, reading outside the payload. The corrected accessor refuses it. |
| HcBin.SlicesJoin | HcBinFile.cpp:221-230 | Two adjacent reads give the same bytes as one read over both ranges. |
| HcBin.ParseLines | HcBinFile.cpp:254-315 | Metadata lines `key: value\n` parse back into their entries, in order, whenever keys have no colon and neither part has a terminator. |
| HcBin.ContainerRoundTrip | HcBinFile.cpp:51-175 | A container built from entries and a payload (header, lines, payload, complemented CRC-32) opens with `SH2_OK` and yields exactly those entries and that payload. |
| FirmwareImage.CStr | BnoDfu.cpp:195 | The string `strcmp` sees is the longest prefix without a NUL byte. |
| FirmwareImage.GetAppData | Firmware.h:40 | `getAppData` succeeds exactly when the range lies inside the image, and then yields those bytes. Otherwise it yields a bad-parameter error and nothing. |
| FirmwareImage.FromHcBinSpec | HcBinFile.cpp:51-175 | With `open` as written, an hcbin file opens when it is well formed, and also when its header passes but puts the payload offset below 16. In that second case the interface answers as a closed reader: no metadata, `SH2_ERR` as the length, no bytes. A well-formed file offers its whole payload as the application, asks for no packet length, and reads as the reader's own `getAppData`. |
| FirmwareImage.FromHcBinCheckedSpec | HcBinFile.cpp:121-124 | With the corrected `open`, an hcbin file opens exactly when it is well formed. Off the early exit the interface is the same as with `open` as written. |
| FspDfu.AbandonedImageRejected | FspDfu.cpp:108-120 | An hcbin image whose payload offset lies inside its header reports a successful open, so the session counts the image as opened and then rejects it as a bad parameter, because a closed reader has no FW-Format. |
| Crc16.BigEndian16 | BnoDfu.cpp:146-147 | The two CRC bytes appended to a packet are its high byte then its low byte. |
| Crc16.FoldAppend | BnoDfu.cpp:132-143 | Running the CRC-16 over two runs in turn is running it over their concatenation. |
| Crc16.Residue | BnoDfu.cpp:125-148 | Feeding a register's own two bytes, high first, leaves the register at zero. This is the receiver's check. |
| Crc16.CheckValue | BnoDfu.cpp:125-148 | With initial value 0xFFFF and polynomial 0x1021, "123456789" gives 0x29B1, the CRC-16/CCITT-FALSE check value. |
| Chunking.Chunks | BnoDfu.cpp:256-278 | The image is cut into non-empty pieces of at most the packet length, all full but the last, which concatenate back to the image. |
| Chunking.ChunkCount | BnoDfu.cpp:256-278 | There are ceiling(length / packet length) pieces. |
| Chunking.PiecesIsCeiling | BnoDfu.cpp:256-278 | The recursive piece count is the ceiling of the length over the packet length. |
| Chunking.PieceAt | BnoDfu.cpp:257-265 | Piece `i` is the bytes from the offset reached after `i` steps of `n` to the smaller of that offset plus `n` and the length. |
| Chunking.ChunkAt | BnoDfu.cpp:257-265 | Piece `i` is the bytes from `n * i` to the smaller of `n * i + n` and the length, and `n * i` lies inside the image. |
| BnoDfu.AppendCrc | BnoDfu.cpp:125-148 | `appendCrc` keeps the packet and appends its CRC-16, big-endian. |
| BnoDfu.AppendCrcChecks | BnoDfu.cpp:125-148 | Every packet with its CRC appended has CRC-16 zero, which is what the device checks. |
| BnoDfu.AppSizePacket | BnoDfu.cpp:150-156 | The size packet is six bytes: the application length, big-endian, then a CRC that checks. |
| BnoDfu.PktSizePacket | BnoDfu.cpp:158-164 | The packet-size packet is three bytes: the packet length, then a CRC that checks. |
| BnoDfu.DataPacket | BnoDfu.cpp:166-172 | A data packet is the data followed by a CRC that checks. |
| BnoDfu.Poll | BnoDfu.cpp:54-58 | The write (or read) loop calls until a non-zero return or until 100 ms have passed since the attempt started, in 32-bit time. It stops at the first non-zero return, and every call before it returned 0 inside the window. |
| BnoDfu.Settle | BnoDfu.cpp:59-63 | A loop that ends with 0 counts as a timeout. Any other status is kept. |
| BnoDfu.TrySpec | BnoDfu.cpp:49-97 | One attempt fails with the write's status if the write did not succeed, and with the read's status if the ack read did not succeed. If both succeed, it is OK exactly when the byte read is `'s'`, and a hub error otherwise. |
| BnoDfu.TryPromptAck | BnoDfu.cpp:49-97 | A write and an ack that both succeed at once make the attempt OK. |
| BnoDfu.TrySilent | BnoDfu.cpp:49-97 | A device that never answers makes the attempt time out. |
| BnoDfu.Retry | BnoDfu.cpp:48-104 | Attempts are made until one succeeds or five have failed. The result is the status of the last attempt, and after a failure all five attempts failed. |
| BnoDfu.DfuSend | BnoDfu.cpp:40-112 | `dfuSend` succeeds exactly when one of the first five attempts succeeds, and it stops at the first that does. Otherwise it makes five attempts and returns the last one's negative status. |
| BnoDfu.SilentSend | BnoDfu.cpp:40-112 | A send to a silent device times out. |
| BnoDfu.ImagePackets | BnoDfu.cpp:256-278 | The image packets are, in order, one data packet per piece of the image. |
| BnoDfu.ImagePacketsCarryImage | BnoDfu.cpp:256-278 | Stripping the CRCs off the image packets and joining them gives the image back. |
| BnoDfu.Validate | BnoDfu.cpp:193-227 | The image is accepted exactly when its format is `BNO_V1`, its part number is one of 1000-3608, 1000-3676, 1000-4148 and 1000-4563, and it holds at least 1024 bytes. Otherwise the result is a bad parameter. |
| BnoDfu.PacketLen | BnoDfu.cpp:229-233 | The packet length is always 1 to 64. A preference in range is kept, and no preference, or one from 65 to 255, gives 64. |
| BnoDfu.PacketLenTruncates | BnoDfu.cpp:230-233 | A preferred length of 0x101 becomes 1 in the 8-bit variable, not 64. |
| BnoDfu.SendImageSpec | BnoDfu.cpp:256-278 | The image loop sends a prefix of the image packets. It succeeds exactly when all of them are acknowledged, and then it has sent them all. |
| BnoDfu.SendImageNeedsImage | BnoDfu.cpp:264-268 | When the image holds fewer bytes than it announces, the loop fails. |
| BnoDfu.RunCleanup | BnoDfu.cpp:175-302 | `run` returns true exactly on `SH2_OK`. A failed firmware open returns at once. Every other path closes the firmware and the HAL, and waits for the flash writes only after success. |
| BnoDfu.RunRejects | BnoDfu.cpp:193-227 | An image that fails validation is rejected as a bad parameter with nothing sent and the HAL never opened, yet the HAL is closed. |
| BnoDfu.RunNeedsImage | BnoDfu.cpp:264-268 | An image shorter than its announced length never updates successfully. |
| BnoDfu.RunFollowsPlan | BnoDfu.cpp:235-278 | For a valid image, what is sent is a prefix of: size packet, packet-size packet, image packets. `run` succeeds exactly when the HAL opens and every one of them is acknowledged, and it has then sent them all. |
| BnoDfu.PlanLength | BnoDfu.cpp:244-278 | A complete update sends two announcements plus one packet per piece of the packet length in use (`Chunking.Pieces`, which `Chunking.PiecesIsCeiling` shows is the length over the packet length, rounded up). |
| BnoDfu.PlanAnnounces | BnoDfu.cpp:244-254 | The first packet announces the application length, big-endian. The second announces the packet length used. |
| BnoDfu.PlanCarriesImage | BnoDfu.cpp:256-278 | The data packets, stripped of their CRCs, carry exactly the application bytes. |
| BnoDfu.PlanChecks | BnoDfu.cpp:150-172 | Every packet of the update passes the device's CRC-16 check. |
| FspDfu.GetPutU32 | FspDfu.cpp:151-162 | `getU32` reads back, from any position, a word written there least significant byte first. |
| FspDfu.GetPutU16 | FspDfu.cpp:164-173 | `getU16` reads back, from any position, a half-word written there least significant byte first. |
| FspDfu.DecodeEncode | FspDfu.cpp:211-236 | The bytes of an operating-mode or write request decode back to the request. |
| FspDfu.InitState | FspDfu.cpp:92-98 | A fresh session has status OK, no firmware open, state Init, nothing sent and nothing ignored. |
| FspDfu.OpenFirmwareSpec | FspDfu.cpp:100-149 | Validation succeeds exactly for an image that opens with format `EFM32_V1`, part number 1000-4095 and a length of at least 1024 that is a multiple of 4. A missing object is a bad parameter, an open failure is `SH2_ERR`, and any other rejection is a bad parameter. The image counts as opened exactly when its open succeeded. |
| FspDfu.InvInit | FspDfu.cpp:92-149 | A session whose image opened and passed the checks starts in the invariant: state Init, status OK, nothing sent. |
| FspDfu.WriteWordsFit | FspDfu.cpp:224-227 | A write request carries the words that remain, at most 16. |
| FspDfu.RequestWrite | FspDfu.cpp:219-236 | `requestWrite` changes only the write length and what has been sent. |
| FspDfu.RequestWriteSends | FspDfu.cpp:219-236 | `requestWrite` sends one write request for the words at the current offset. |
| FspDfu.LaunchBootloaderBit | FspDfu.cpp:54 | The launch-bootloader flag, 0x00000002 of the little-endian status word, is bit 1 of report byte 4. |
| FspDfu.AppValidBit | FspDfu.cpp:57 | The app-valid flag, 0x00000010, is bit 4 of report byte 4. |
| FspDfu.ErrorBit | FspDfu.cpp:61 | The error flag, 0x40000000, is bit 6 of report byte 7. |
| FspDfu.NoErrorCode | FspDfu.cpp:303-304 | The error code is clear exactly when report bytes 8 to 11 are all zero. |
| FspDfu.InitStatusOutcome | FspDfu.cpp:190-209 | A status report with the launch-bootloader bit set requests upgrade mode and moves to SettingMode. Without it, the session ends with a hub error. |
| FspDfu.WriteAccepted | FspDfu.cpp:260-285 | An accepted write advances the offset. It waits for completion when the offset reaches the image's end, and otherwise sends the next write. |
| FspDfu.FinalStatusOutcome | FspDfu.cpp:297-317 | The final status launches the application exactly when the app-valid bit is set, the error bit is clear and the error code is 0. Any other status ends the session with a hub error. |
| FspDfu.Find | FspDfu.cpp:347-359 | `findTransition` answers the first table row matching the state and report id, or none when no row does. |
| FspDfu.TransitionTable | FspDfu.cpp:339-359 | Each state except Finished answers exactly one report id, with its handler. Every other pair has no transition. |
| FspDfu.IgnoredReport | FspDfu.cpp:362-378 | A report with no transition only increments the ignored counter (mod 2^32). The state and what was sent stay as they were. |
| FspDfu.InvWriteResponse | FspDfu.cpp:260-285 | An accepted write keeps the invariant: it either completes the image, with every write sent, or sends exactly the next write. |
| FspDfu.InvHandleReport | FspDfu.cpp:362-378 | Every report keeps the session invariant: what has been sent is, state by state, the expected prefix of the protocol, and the status is OK until Finished. |
| FspDfu.InvService | FspDfu.cpp:413-420 | Servicing any run of reports keeps the invariant. |
| FspDfu.InvLoop | FspDfu.cpp:415-422 | The service loop, whatever the clock and reports, keeps the invariant. |
| FspDfu.Writes | FspDfu.cpp:219-285 | A complete update sends one write request every 16 words, ceiling(words / 16) of them. |
| FspDfu.WritesCarryImage | FspDfu.cpp:219-236 | The write requests carry the image in 64-byte pieces, in order, and together exactly the application bytes. |
| FspDfu.SixteenWrites | FspDfu.cpp:219-285 | A 1024-byte image takes exactly 16 write requests of 16 words each. |
| FspDfu.WriteWordsTruncates | FspDfu.cpp:224-227 | The word count is kept in 16 bits: an image of 262208 bytes still asks for 16 words at offset 0, and one of 2^18 bytes asks for none. |
| FspDfu.Finish | FspDfu.cpp:424-438 | After the service loop, the SHTP layer and the firmware are closed. |
| FspDfu.RunAsWrittenLeaksImage | FspDfu.cpp:407-410 | As written, a valid image whose SHTP open fails returns false with the status still OK and the opened image never closed. |
| FspDfu.RunCleanup | FspDfu.cpp:390-439 | In the corrected `run`, the image is closed exactly when it was opened and SHTP is closed exactly when it was opened. The result is true exactly on `SH2_OK`. |
| FspDfu.RunRejects | FspDfu.cpp:399-404 | A missing, unopenable or invalid image fails with `SH2_ERR` (open failure) or a bad parameter, before SHTP is opened or anything is sent. |
| FspDfu.RunTimesOut | FspDfu.cpp:418-426 | A session that has not finished when the loop ends fails with a timeout. |
| FspDfu.RunFollowsProtocol | FspDfu.cpp:390-439 | A successful update had SHTP open, a valid image, and sent exactly the upgrade request, every write request in order, and the launch request. |
| SampleId.Extend | DsfLogger.h:38-45 | Extending marks the extender used and records the sequence number. The id returned is the one the extender then stands at. |
| SampleId.EmptyUntilExtended | DsfLogger.h:35-49 | A fresh extender is empty, and an extended one never is. |
| SampleId.ExtendKeepsSequence | DsfLogger.h:38-45 | The low eight bits of every extended id are the sequence number. |
| SampleId.FirstExtend | DsfLogger.h:35-45 | The first id of a fresh extender is its sequence number. |
| SampleId.ExtendOrder | DsfLogger.h:38-45 | The wrap count grows by one exactly when the sequence number went backwards. Ids never decrease, and they grow exactly when the sequence number changed. |
| SampleId.ExtendAllCounts | DsfLogger.h:38-45 | Each id of a run is the number of backward steps so far, times 256, plus the sequence number. |
| SampleId.ExtendAllSorted | DsfLogger.h:38-45 | From a fresh extender, the ids of a run are sorted. |
| SensorNames.TableSize | LoggerUtil.h:77-124 | The name table has one entry for each id from 0x00 to 0x2B. |
| SensorNames.FindSensorIdByName | LoggerUtil.h:174-183 | The lookup answers the first id whose name equals the one asked, or one past the largest id when none does. It agrees with the reference search. |
| SensorNames.FirstIndex | LoggerUtil.h:174-183 | The reference search: the first index at or after `from` holding the name, or the table length. |
| SensorNames.FirstIndexFinds | LoggerUtil.h:174-183 | The answer is a real id exactly when the name is in the table. |
| SensorNames.NamesRoundTrip | LoggerUtil.h:174-183 | Every id whose name does not occur earlier in the table is found by its own name. |
| SensorNames.ReservedIsZero | LoggerUtil.h:78-117 | The unused ids all read "Reserved", and the lookup resolves "Reserved" to id 0. |
| SensorNames.AccelerometerId | LoggerUtil.h:79 | "Accelerometer" resolves to id 0x01. |
| DsfLog.Init | DsfLogger.cpp:110-129 | `init` succeeds exactly when the file opens. It then records the frame, has written nothing, and has a slot for every id. |
| DsfLog.InitExtenders | DsfLogger.cpp:116-122 | `init` gives a fresh, empty extender exactly to the ids with a column list. |
| DsfLog.UnloggedIds | DsfLogger.cpp:47-96 | The ids without columns are exactly 0x00, 0x17, 0x1D and 0x24 to 0x27. |
| DsfLog.ChannelDefinitionShape | DsfLogger.cpp:619-640 | A channel definition starts with the column line and ends with the name line, all about its sensor. It has a coordinate-system line (NED exactly when the writer is NED) exactly when orientation is on and the sensor is not a raw accelerometer, gyroscope or magnetometer. |
| DsfLog.SensorValueGating | DsfLogger.cpp:237-246 | A sensor without an extender leaves the writer unchanged. Otherwise the writer appends a sample line whose sample id ends in the sequence number. That line is preceded by the channel definition exactly when the extender was still empty, and the extender is then used. |
| DsfLog.AsyncEventGating | DsfLogger.cpp:151-181 | A reset appends one reset line and changes no extender. Any other event, and a feature response for a sensor without an extender, change nothing. A feature response for a sensor with an extender ends in that sensor's period line, preceded by its channel definition exactly when the extender was still empty. The extender is then no longer empty, and no other extender changes. |
| DsfLog.InvFeatureResponse | DsfLogger.cpp:160-177 | A feature response keeps the writer's invariant: a period line comes only after its channel definition, and the definition is written at most once. |
| DsfLog.ResetCauses | DsfLogger.cpp:186-207 | Reset causes 1 to 5 have the five names, and every other cause has none. |
| DsfLog.ProductLinesCount | DsfLogger.cpp:186-215 | `logProductIds` writes as many lines as there are entries plus entries with a named cause, every one a reset-cause or a part-number line, so nothing about any sensor. |
| DsfLog.ProductLinesOrder | DsfLogger.cpp:186-215 | The part-number lines are exactly one per entry, in entry order, each carrying its entry's index, part number and four version fields. |
| DsfLog.ProductLinesAdjacent | DsfLogger.cpp:186-215 | An entry whose cause has a name has that name's reset-cause line directly before its part-number line. An entry without one has its part-number line first or right after another part-number line. Every reset-cause line is followed by a part-number line. |
| DsfLog.LogProductIds | DsfLogger.cpp:186-215 | Logging product ids leaves the extenders and the frame alone. |
| DsfLog.DigitRoundTrip | DsfLogger.cpp:224-225 | A hexadecimal digit reads back as its value and is never a comma. |
| DsfLog.HexListRoundTrip | DsfLogger.cpp:222-230 | The comma-separated hexadecimal bytes take three characters per byte but one, and read back as the bytes. |
| DsfLog.HexListAt | DsfLogger.cpp:222-230 | Byte `k` sits at characters `3k` and `3k+1`, followed by a comma unless it is the last. |
| DsfLog.WordBytesRoundTrip | DsfLogger.cpp:223-225 | The four bytes of a word, least significant first, give the word back. |
| DsfLog.FrsBytesRoundTrip | DsfLogger.cpp:222-230 | The bytes of an FRS record give its words back. |
| DsfLog.FrsTextRoundTrip | DsfLogger.cpp:220-232 | An FRS line is `!name="…"` and a newline. Its body has 12 characters per word but one, and reads back as the first `words` words of the buffer. |
| DsfLog.LogFrsRecord | DsfLogger.cpp:220-232 | Logging an FRS record leaves the extenders and the frame alone. |
| DsfLog.InvInit | DsfLogger.cpp:110-129 | A freshly initialised writer satisfies the invariant. |
| DsfLog.InvSensorValue | DsfLogger.cpp:237-246 | A sensor value keeps the invariant. |
| DsfLog.InvStep | DsfLogger.cpp:151-246 | Every event the application hands over keeps the invariant. |
| DsfLog.InvLog | DsfLogger.cpp:151-246 | Any run of events keeps the invariant. |
| DsfLog.DefinedOnceFirst | DsfLogger.cpp:164-168 | Whatever the events, each sensor's channel is defined at most once, and before every other line about it (its samples and periods included). A sensor without columns never appears in the log. |

## Left out

- **Serial-port configuration and reset sequencing** (termios settings, the
  RESET and BOOT lines, the delays in `ftdi_hal_open`/`ftdi_hal_close`) are not
  modelled; whether the port could be configured is a parameter of `FtdiHal.Open`.
- **The raw (non-framed) DFU HALs** (`bno_dfu_hal_Linux.c`, `bno_dfu_hal_Win.c`)
  are not part of this model. The lockstep updater sees them only through the
  return codes and clock readings in its attempt scripts.
- **`EAGAIN` retries** in the Linux byte-at-a-time write are not modelled:
  they only repeat the same byte. A write either succeeds or fails at a given
  index.
- `FtdiHalWin.WriteWin`: each byte write that reports success is taken to
  have written its byte. The source advances by the count `FT_Write` reports
  (`ftdi_hal_Win.c` lines 410 and 425), so a driver that kept reporting
  success with 0 bytes written would make the loop spin; that case is not
  represented.
- **The Windows latency-timer change** on the first received byte
  (`anyRx`, `FT_SetLatencyTimer`) is left out; it changes no state the model
  tracks.
- **The 10 ms wait after a successful lockstep update** is recorded as a flag
  (`settled`), not as clock readings.
- **The SHTP layer** (`shtp_open`, `shtp_listenChan`, `shtp_service`) is not
  part of this model. Each service call is a list of the control-channel
  reports it delivers, together with the clock reading after it.
- **`firmware-bno.h`** (the compiled-in BNO image) is not part of this model.
  The lockstep updater takes any `FirmwareImage.Firmware`.
- `HcBin.LoadSpec` and `HcBin.ReadMetadata` take `long` to be 64 bits, so the
  payload offset converts to `long` unchanged. With a 32-bit `long`, as in a
  Windows build, an offset of 2^31 or more becomes negative. `readMetadata`
  then reads nothing, and `pos > offset` takes the early exit at
  `HcBinFile.cpp` line 123, so `open` reports `SH2_OK` on a closed object.
  The model answers a bad parameter there, and the statement that the early
  exit is taken exactly for an offset below 16 holds only for a 64-bit `long`.
- `FirmwareImage.FromHcBinSpec` inherits that assumption: with a 32-bit
  `long`, an hcbin file whose header passes with an offset of 2^31 or more
  also reports a successful open on a closed reader.
- `FirmwareImage.FromHcBin`: on the path where `open` reports success on a
  closed reader, reads from the record answer as reads from an empty image:
  a bad parameter, or success for a zero-length read. A closed reader's
  `getAppData` returns `SH2_ERR` (`HcBinFile.cpp` line 222). Neither updater
  reads from such an image, because both reject it first.
- **`ftell` failure** and **allocation failure** in the hcbin reader are not
  modelled; neither is the EOF value folded into the register on the path
  that then fails.
- **The DSF writer's floating-point fields** are not modelled, nor its
  per-sensor value formatting (`DsfLogger.cpp` lines 248-609), nor `finish`,
  nor the POSIX time offset. Sample, period and reset lines record their
  integer fields only, and a message line is kept as its text. One
  consequence is not visible in the model: id 0x2E (WheelEncoder) has columns
  and an extender but no case in the formatting switch. Its sample record is
  only the header, which ends in a comma with no newline (`DsfLogger.cpp`
  line 682), so the next record continues the same text line. `DsfLog` lines
  are records, not text lines.
- **`FspDfu.Encode`**: the source always sends the whole 68-byte request
  structure, whose bytes after the written words are uninitialised. The model
  sends only the words written.
- **`FspDfu.WriteAt`**: the source ignores the status of `getAppData`. When the
  read fails, the request carries uninitialised bytes, which the model
  represents as no data.
- **`FspDfu` report fields** past the end of a short report are read as 0
  (`At`). The source reads past the payload there.
- `FspDfu.RunFollowsProtocol` is stated only for images under 256 KiB
  (`Fits`), because the word offset is 16 bits wide. `FspDfu.WriteWordsTruncates`
  shows what happens beyond that.
- `DsfLog.Step` and every `DsfLog` operation require sensor ids up to 0x2E.
  The source indexes its tables with the id unchecked, so a larger id is
  outside what it handles.
- `DsfLog.Init`: the `orientation` argument of `WriteChannelDefinition` is
  always true at the writer's call sites. The invariant lemmas use that value.
- `SampleId.ExtendOrder`, `SampleId.ExtendAllCounts` and `SampleId.ExtendAllSorted`
  are stated for fewer than 2^56 wraps. Beyond that, the 64-bit shift drops
  the top bits of the count, which `SampleId.Value` models but these lemmas
  do not describe.
- `SensorNames.FindSensorIdByName` requires the table to have `maxId + 1`
  entries, which the source enforces with a compile-time assertion.
- `Rfc1662.RoundTrip` and `FtdiHal.ReadDeliversFrame` require the frame to fit
  the receive buffer. A larger frame is dropped, as `FtdiHal.ReadWire` states.

## Findings

| source | as written | input that shows it | evidently intended | confidence | as-written member | corrected member |
|---|---|---|---|---|---|---|
| HcBinFile.cpp:121-124 | when the position after the metadata is past the payload offset, `open` jumps to cleanup with `status` still `SH2_OK` | a header with a payload offset below 16 (magic, size, version 4, offset 0); with a 32-bit `long`, also a payload offset of 2^31 or more | report the failure, e.g. as a bad parameter | high, not executed | HcBin.OpenReportsSuccessUnopened | HcBin.OpenChecked |
| HcBinFile.cpp:223 | the bound `offset + len` is computed in 32 bits and can wrap | offset 0xFFFFFFFF, len 2 on a one-byte payload: the bound wraps to 1 and the copy reads outside the payload | compare without wrap-around, e.g. `offset > appLen \|\| len > appLen - offset` | high, not executed | HcBin.WrappedBoundReadsOutside | HcBin.GetAppData |
| FspDfu.cpp:407-410 | when `shtp_open` fails, `run` returns false at once, skipping the `fin:` cleanup, so the opened firmware is never closed and the status stays `SH2_OK` | a valid image with an SHTP open that fails | set an error status and go to `fin` so the image is closed | high, not executed | FspDfu.RunAsWrittenLeaksImage | FspDfu.RunCleanup |
