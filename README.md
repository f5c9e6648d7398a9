# Secure firmware update: bundler, sender and bootloader acceptance

This project models the three cooperating parts of the Embedded-Bootloader firmware update pipeline and proves properties of them in Dafny.

- **The bundle builder** (`protect_firmware` in `tools/fw_protect.py`). It packs the metadata (version, firmware length and release-message length as little-endian 16-bit fields) and encrypts the firmware with AES-128-GCM. It then cuts the ciphertext into frames of at most 1024 bytes, each with an index/size/version header, a MAC of the header and a MAC of payload‖header. Last, it lays everything out back to back: metadata, metadata MAC, frames, firmware MAC, release message, message MAC, "big MAC", IV and tag. Module `Protect` states this as functions (`Pack3`, `Pages`, `Frames`, `Wire`, `Blob`, `Bundle`). The frame loop, which builds the frame bytes step by step, is the method `BuildFrames`, proved against `Wire(Frames(..))`.
- **The update sender** (`send_data` and `main` in `tools/fw_update.py`). It is a stop-and-wait transfer over a serial line:
  - a `'U'` handshake;
  - the metadata unit, one unit per frame (checking the frame index locally before each) and four trailer units;
  - each unit must be answered by one zero byte;
  - a two-byte zero terminator ends the transfer.

  Module `Update` models the port as a class `SerialPort` holding a write log and a queue of reply bytes. `Deliver` is `main`: a method with a loop over the frames, proved equal to the specification `Delivery`. `Delivery` is stated in two steps. `UnitPlan` says which units the blob is cut into. `Finish` says how far the replies let the transfer go.
- **The receiver's acceptance logic** (`load_firmware`, `sha_hmac`, `uart_read_variable`, `program_flash` and `load_initial_firmware` in `bootloader/src/bootloader.c`). Module `Bootloader` has a class `Device` whose fields are the state the C code touches:
  - the bytes still to arrive on UART1 and the bytes written back;
  - the flash;
  - the global arrays `data` and `fw_release_message`.

  Its methods follow the C code step by step, with loops and in-place array writes. Each is proved against a function of the incoming bytes (`Receive`, `FrameLoop`, `FrameStep`, …) that says how far the device gets, what it acknowledges and what it leaves in `data` and flash.

Module `Pipeline` connects the bundler to the sender. With all-zero replies, the units written for a blob built by `protect_firmware` from an ASCII message (from any message with the corrected bundler; see Findings) are exactly the blob, between the `'U'` and the terminator. Module `Acceptance` states what the bootloader guarantees:
- which frames and which metadata get through;
- that the stored version never goes back;
- where an accepted update lands in flash;
- that every store into `data` stays inside the buffer, for a non-empty firmware; for size 0 only under the reading `frame_number` = 0 (see Findings).

HMAC-SHA256 and AES-GCM are uninterpreted (module `Crypto`):
- a MAC is an arbitrary 32-byte function of key and message;
- GCM encryption is GCTR (NIST SP 800-38D, section 6.5), with a keystream byte that depends on key, IV and position, plus a tag function of key, IV and ciphertext (section 7.1).

Python's `str.encode()` is modelled as UTF-8 (RFC 3629, section 3), in module `Utf8`, for messages made of Unicode scalar values (see Left out for lone surrogates).

## Model

| member | source | states |
|---|---|---|
| Utf8.EncodeChar | tools/fw_protect.py:137 | a character encodes to one to four bytes; to exactly one byte iff its code is below 0x80, and that byte is the code |
| Utf8.EncodedLength | tools/fw_protect.py:137 | `message.encode()` is never shorter than the message, and is as long as it iff the message is ASCII |
| Utf8.EncodeAscii | tools/fw_protect.py:137 | an ASCII message encodes to its character codes, one byte each |
| Crypto.Gctr | tools/fw_protect.py:67 | GCTR output is as long as its input |
| Crypto.GcmEncrypt | tools/fw_protect.py:65-67 | the ciphertext is as long as the firmware |
| Crypto.XorCancel | bootloader/src/bootloader.c:231 | XOR with the same keystream byte twice gives the byte back |
| Crypto.GctrInverse | tools/fw_protect.py:67 | decrypting what `encrypt_and_digest` produced with the same key and IV gives the firmware back |
| Bytes.LeU16 | tools/fw_protect.py:106-110 | `struct.pack('<H', x)` is two bytes that read back little-endian as x |
| Bytes.LeU16Injective | tools/fw_protect.py:106 | two values with the same packed bytes are equal |
| Bytes.U16AtPrefix | tools/fw_update.py:89-91 | a field read from a prefix of the blob reads the same from the whole blob |
| Bytes.Take | tools/fw_update.py:62 | `data[:n]` is a prefix of `data` of length min(n, len(data)) |
| Bytes.Drop | tools/fw_update.py:74 | `data[n:]` has length len(data) − n, or 0 past the end |
| Bytes.CeilDiv | tools/fw_update.py:93 | the result is the least q with q·b ≥ a |
| Protect.Pack3 | tools/fw_protect.py:48 | the metadata is 6 bytes holding the three values as little-endian 16-bit fields at offsets 0, 2, 4 |
| Protect.Pack3Injective | tools/fw_protect.py:48 | equal metadata means equal version, length and message length |
| Protect.Pages | tools/fw_protect.py:98-104 | every page holds between 1 and 1024 bytes |
| Protect.PageCount | tools/fw_protect.py:98 | the loop yields ceil(L / 1024) pages for L bytes of ciphertext |
| Protect.PagesFlatten | tools/fw_protect.py:98-104 | the pages, concatenated in order, are the ciphertext |
| Protect.PageAt | tools/fw_protect.py:100-104 | page k is ciphertext bytes 1024·k up to min(1024·k + 1024, L) |
| Protect.PageSizes | tools/fw_protect.py:100-104 | every page but the last holds 1024 bytes; the last holds L − 1024·(N − 1) |
| Protect.Frames | tools/fw_protect.py:98-119 | one frame per page |
| Protect.FramesShape | tools/fw_protect.py:105-119 | frame k has index k, the bundle's version, the size of its payload, payload = its slice of the ciphertext; the header MAC covers index‖size‖version only and the payload MAC covers payload‖index‖size‖version |
| Protect.NoFirmwareNoFrames | tools/fw_protect.py:98 | empty firmware gives no frames |
| Protect.PayloadsConcat | tools/fw_protect.py:98-119 | the frame payloads in index order concatenate to the ciphertext |
| Protect.FrameLocality | tools/fw_protect.py:101-117 | frame k depends only on its own slice of the ciphertext |
| Protect.WireLength | tools/fw_protect.py:119 | each frame adds 70 + size bytes to `firmware_data` |
| Protect.WireStep | tools/fw_protect.py:112-119 | one loop turn appends header, header MAC, page and payload MAC |
| Protect.BuildFrames | tools/fw_protect.py:97-119 | the loop builds exactly the frames' bytes in index order |
| Protect.BlobLength | tools/fw_protect.py:165 | the blob is 38 + Σ(70 + size_k) + 32 + len(msg) + 32 + 32 + 32 bytes |
| Protect.BundleMetadata | tools/fw_protect.py:48 | packing fails iff the version or either length is outside 0..65535; otherwise the blob starts with version, firmware length and message length, little-endian |
| Protect.MessageFieldMatchesIffAscii | tools/fw_protect.py:137 | the message-length field (a character count) equals the number of message bytes shipped iff the message is ASCII |
| Protect.FixedAgreesOnAscii | tools/fw_protect.py:48 | the corrected bundler (byte count in the field) and the bundler as written agree on ASCII messages |
| Protect.ProtectFirmware | tools/fw_protect.py:46-165 | builds the blob `Bundle` specifies, or fails when the metadata cannot be packed |
| Update.SerialPort.constructor | tools/fw_update.py:82 | a fresh port has written nothing and holds the device's replies |
| Update.SerialPort.Write | tools/fw_update.py:62 | a write adds exactly one entry to the log |
| Update.SerialPort.Read | tools/fw_update.py:65 | a read takes one reply byte, or nothing once the replies are used up |
| Update.SendData | tools/fw_update.py:54-74 | writes `data[:length]`, reads one byte, and returns `data[length:]` iff that byte is 0x00; otherwise (or on an empty read) it fails with that response |
| Update.FrameUnits | tools/fw_update.py:104-114 | at most n − i frame units are cut, and exactly n − i when no local check fails |
| Update.FrameUnitsStep | tools/fw_update.py:106-112 | when the head frame's index is i, the next unit is 6 + size + 64 bytes, size read from the frame header |
| Update.Cut | tools/fw_update.py:121-131 | one unit per trailer length, never a local fault |
| Update.CutCovers | tools/fw_update.py:121-131 | the trailer units followed by what is left are the blob, and the rest shrinks by the sum of the lengths |
| Update.FrameUnitsCover | tools/fw_update.py:104-114 | the frame units followed by what is left are the blob |
| Update.PlanCovers | tools/fw_update.py:101-131 | all planned units followed by what is left are the blob |
| Update.RemainingCovers | tools/fw_update.py:104-131 | the same from any frame counter on |
| Update.RemainingStep | tools/fw_update.py:104-112 | one frame turn cuts a 6 + size + 64-byte unit and continues with counter i + 1 |
| Update.Handshake | tools/fw_update.py:96-98 | the handshake consumes at least one reply byte, or all of them and never completes |
| Update.FinishAllZero | tools/fw_update.py:101-131 | when every reply is 0x00, every pending unit is written and one reply is consumed per unit |
| Update.FinishFirstRefusal | tools/fw_update.py:65-72 | at the first non-zero (or missing) reply j, units 0..j are written, the transfer aborts with that reply, and nothing more is written |
| Update.FinishWritesPrefix | tools/fw_update.py:101-134 | the writes are always a prefix of the planned units, followed by the terminator only when the transfer completes; it completes only when no local check failed |
| Update.DeliveryWritesPlanPrefix | tools/fw_update.py:96-134 | the whole transfer writes `'U'`, then a prefix of the blob's units, then the terminator only on success |
| Update.SendUnit | tools/fw_update.py:101 | one `send_data` call advances the specified transfer by one unit |
| Update.AwaitSentinel | tools/fw_update.py:96-98 | writes `'U'` and consumes replies as the handshake specifies |
| Update.SendFrames | tools/fw_update.py:104-114 | the frame loop writes the frame units the plan lists, stopping at a refusal or at an index mismatch before writing that frame |
| Update.SendPiece | tools/fw_update.py:122 | one trailer `send_data` call advances the transfer by one unit |
| Update.SendTrailer | tools/fw_update.py:121-134 | writes the four trailer units and the terminator, or stops at the first refusal |
| Update.SendSeal | tools/fw_update.py:127-134 | writes the big MAC and the IV‖tag unit and then the terminator, or stops at a refusal |
| Update.Deliver | tools/fw_update.py:77-136 | `main` writes exactly what `Delivery` of the blob and the replies specifies, consumes the replies it specifies and ends with its outcome |
| Pipeline.FlattenFrameUnits | tools/fw_protect.py:119 | the frame units, concatenated, are `firmware_data` without the firmware MAC |
| Pipeline.FrameUnitsOfFrames | tools/fw_update.py:106-112 | each frame of the bundler is a unit whose header carries its index and its size |
| Pipeline.MismatchAtHead | tools/fw_update.py:111-114 | a frame whose index is not the loop counter stops the sender before it writes that frame |
| Pipeline.FrameUnitsThenEnd | tools/fw_update.py:104-114 | the sender cuts well-formed frames back into exactly the same units |
| Pipeline.FrameUnitsInOrder | tools/fw_update.py:104-114 | n frames numbered i.. are cut into those n units with no fault |
| Pipeline.FrameUnitsStopAt | tools/fw_update.py:106-114 | after the frames in order, a frame with the wrong index stops the cutting with an order error |
| Pipeline.FrameUnitsOfWire | tools/fw_update.py:104-114 | the bundler's frame bytes are cut into the bundler's frames |
| Pipeline.FramesInOrder | tools/fw_protect.py:106 | the bundler numbers frames 0, 1, 2 … and makes ceil(L / 1024) of them, as the sender's index check expects |
| Pipeline.TrailerSum | tools/fw_update.py:121-131 | the trailer units add up to message size + 128 bytes |
| Pipeline.CutFour | tools/fw_update.py:122-131 | four units cut from four adjacent pieces of a blob are those pieces |
| Pipeline.TrailerWhole | tools/fw_update.py:121-131 | the bundler's trailer is cut into firmware MAC, message‖MAC, big MAC and IV‖tag with nothing left over |
| Pipeline.TrailerShort | tools/fw_update.py:125 | when the size field undercounts the message, the part not sent is exactly the undercount |
| Pipeline.PlanOfHead | tools/fw_update.py:89-101 | the first unit is the 38-byte metadata unit, and firmware size and message size come from blob bytes 2..4 and 4..6 |
| Pipeline.RemainingAfterFrames | tools/fw_update.py:104-131 | after the frames the four trailer units follow |
| Pipeline.PlanOfParts | tools/fw_update.py:101-131 | a blob made of a head, frames in order and a trailer is cut into exactly those pieces |
| Pipeline.BlobHead | tools/fw_protect.py:48-52 | the bundle's head is 38 bytes carrying the firmware length and the message-size field |
| Pipeline.BlobIsParts | tools/fw_protect.py:165 | the blob is head, frame units and trailer, concatenated |
| Pipeline.BlobSplit | tools/fw_update.py:101-131 | the sender cuts a bundler blob into head, the bundler's frames and the trailer units |
| Pipeline.WholeBlobPlan | tools/fw_update.py:101-131 | a blob whose size field matches its message is cut into ceil(L/1024) + 5 units that concatenate to the blob, with nothing left over |
| Pipeline.AcceptedDelivery | tools/fw_update.py:96-98 | after a `'U'` reply the transfer runs the unit plan against the remaining replies |
| Pipeline.AllAcknowledged | tools/fw_update.py:101-134 | with one zero reply per unit, all units and the terminator are written |
| Pipeline.DeliveredAll | tools/fw_update.py:96-134 | with all-zero replies a blob without local faults is sent completely: `'U'`, every unit, the terminator |
| Pipeline.LineBytes | tools/fw_update.py:96-134 | what reaches the line is `'U'`, the units and `00 00` |
| Pipeline.WholeBlobDelivered | tools/fw_update.py:96-134 | with all-zero replies the bytes written for a bundler blob whose message-size field matches the message bytes shipped are exactly `'U'`, the blob and `00 00`, in ceil(L/1024) + 7 writes |
| Pipeline.ShortFieldPlan | tools/fw_update.py:125 | when the size field undercounts the message, the units concatenate to the blob minus its last (len(msg) − field) bytes |
| Pipeline.ResultDelivered | tools/fw_update.py:96-134 | a successful bundle whose field matches its message is delivered whole |
| Pipeline.ShortResultDelivered | tools/fw_update.py:125 | a successful bundle whose field undercounts its message is delivered without its last bytes |
| Pipeline.AsciiBundleDelivered | tools/fw_update.py:96-134 | for an ASCII message, everything `protect_firmware` produced is written to the line whole under all-zero replies |
| Pipeline.NonAsciiBundleTruncated | tools/fw_protect.py:48 | for a non-ASCII message, with every unit acknowledged, the sender reports success although the last (bytes − characters) bytes of the blob are never sent; a real device refuses the release-message MAC (Acceptance.UndercountedRelease) |
| Pipeline.FixedBundleDelivered | tools/fw_update.py:96-134 | with the corrected bundler every packable message's blob is written to the line whole under all-zero replies |
| Pipeline.DeliveredUntilFault | tools/fw_update.py:101-114 | a blob with a local fault is sent up to the fault and the transfer ends with that fault |
| Pipeline.OrderErrorPlan | tools/fw_update.py:106-114 | a misnumbered frame after k good ones ends the plan with an order error after the head and those k frames |
| Pipeline.OrderErrorBeforeFrame | tools/fw_update.py:106-114 | for such a blob the sender writes `'U'`, the head and the k good frames, and raises before writing the bad one |
| Bootloader.DecodeU16 | bootloader/src/bootloader.c:325 | `b0 \| b1 << 8` is b0 + 256·b1, the little-endian field |
| Bootloader.DecodeMetadata | bootloader/src/bootloader.c:325-329 | version, size and message size are the little-endian fields at offsets 0, 2, 4 |
| Bootloader.DecodeFrameHeader | bootloader/src/bootloader.c:366-370 | index, length and version are the little-endian fields at offsets 0, 2, 4 |
| Bootloader.LowHigh | bootloader/src/bootloader.c:128-133 | the low byte plus 256 times the high byte is the value mod 2^16 |
| Bootloader.EncodeMetadata | bootloader/src/bootloader.c:128-133 | the 6 initial metadata bytes decode to the three values mod 2^16, as `load_firmware` reads them |
| Bootloader.XorZero | bootloader/src/bootloader.c:268 | two bytes XOR to zero iff they are equal |
| Bootloader.CompareDigests | bootloader/src/bootloader.c:266-274 | the OR of the byte-wise XORs is zero iff all 32 bytes are equal |
| Bootloader.PageImage | bootloader/src/bootloader.c:518-548 | a programmed page holds the source bytes followed by 0xFF |
| Bootloader.ShiftStep | bootloader/src/bootloader.c:537 | shifting a byte into the top of the word moves the earlier bytes one lane down |
| Bootloader.ShiftFill | bootloader/src/bootloader.c:540 | shifting in 0xFF does the same with 0xFF |
| Bootloader.PackedWord | bootloader/src/bootloader.c:536-541 | after four shifts the word's little-endian bytes are the pushed bytes in order |
| Bootloader.PackTailWord | bootloader/src/bootloader.c:535-541 | the last word holds the r remaining bytes in byte positions 0..r−1 and 0xFF in the rest |
| Bootloader.PageAssembly | bootloader/src/bootloader.c:518-547 | erase, then the full words, then the packed last word, leave exactly the page image |
| Bootloader.VerifyMac | bootloader/src/bootloader.c:249-277 | the check passes iff the next 32 bytes on the line are the MAC of the data |
| Bootloader.FrameNumber | bootloader/src/bootloader.c:332 | the index of the last frame, ceil(size/1024) − 1, and below 30 for sizes within the cap |
| Bootloader.FrameStep | bootloader/src/bootloader.c:359-421 | an accepted frame carries the expected index, at most `frame_number`; the counter rises by one and the received count stays within size |
| Bootloader.FrameBody | bootloader/src/bootloader.c:366-388 | the same after the header's MAC; the header checks of lines 373-388 are `HeaderPasses` against `frame_number` |
| Bootloader.WrappedFrameNumber | bootloader/src/bootloader.c:332 | `frame_number` with the conversion taken modulo 2^16: below 2^16, equal to FrameNumber for every non-empty firmware, and 0xFFFF for size 0 |
| Bootloader.FramePayload | bootloader/src/bootloader.c:390-418 | the same for the payload step |
| Bootloader.FrameLoop | bootloader/src/bootloader.c:357-423 | the loop ends after frame `frame_number` with the received count within size, or halts having acknowledged at most `frame_number` frames |
| Bootloader.FrameLoopUnfold | bootloader/src/bootloader.c:420-422 | the loop stops after the frame whose index is `frame_number` and otherwise goes on |
| Bootloader.KeepVersion | bootloader/src/bootloader.c:486-490 | only the version bytes may be replaced by the stored ones |
| Bootloader.Trailer | bootloader/src/bootloader.c:425-466 | after the frames, acceptance needs received == size and gives four more acknowledgements |
| Bootloader.Released | bootloader/src/bootloader.c:437-466 | acceptance from the release message on gives three acknowledgements |
| Bootloader.Sealed | bootloader/src/bootloader.c:452-466 | acceptance from the bundle MAC on gives two acknowledgements |
| Bootloader.Decrypted | bootloader/src/bootloader.c:462-466 | on a valid tag the buffer's first `size` bytes become the decrypted firmware to install |
| Bootloader.AfterMetadata | bootloader/src/bootloader.c:356-466 | an accepted update holds the firmware, message and metadata of the announced sizes |
| Bootloader.AfterFrames | bootloader/src/bootloader.c:420-426 | after the frame loop the trailer follows, with one acknowledgement per frame |
| Bootloader.Receive | bootloader/src/bootloader.c:317-466 | an accepted update has metadata within the caps and holds firmware and message of the sizes it announced |
| Bootloader.ReceiveCases | bootloader/src/bootloader.c:318-322 | a short line blocks; otherwise the metadata MAC decides between halting and going on |
| Bootloader.Announced | bootloader/src/bootloader.c:324-354 | an update that gets past the metadata checks is within the size caps |
| Bootloader.FlashPages | bootloader/src/bootloader.c:469-484 | flashing page by page keeps the flash size |
| Bootloader.FlashPagesBelow | bootloader/src/bootloader.c:469-484 | flashing the firmware leaves the flash below its base unchanged |
| Bootloader.FlashPagesStep | bootloader/src/bootloader.c:471-482 | one turn flashes min(remaining, 1024) bytes and moves one page on |
| Bootloader.FlashPagesTurn | bootloader/src/bootloader.c:471-482 | the same from byte i of the firmware |
| Bootloader.InitialPages | bootloader/src/bootloader.c:139-143 | flashing the initial image keeps the flash size |
| Bootloader.InitialFlash | bootloader/src/bootloader.c:109-143 | the flash after loading the initial firmware keeps its size |
| Bootloader.WholePage | bootloader/src/bootloader.c:140-143 | page i starts on a page boundary; the pages below size/1024 are whole and the last one ends the image |
| Bootloader.InitialPagesTurn | bootloader/src/bootloader.c:140-141 | one turn of the initial loop flashes a whole page and moves one page on |
| Bootloader.Device.constructor | bootloader/src/bootloader.c:68-71 | the global buffers start zeroed |
| Bootloader.Device.FlashErase | bootloader/src/bootloader.c:519 | an erased page reads 0xFF |
| Bootloader.Device.FlashProgram | bootloader/src/bootloader.c:530 | programming writes whole words at a word-aligned address |
| Bootloader.Device.ProgramFlash | bootloader/src/bootloader.c:513-549 | the page ends up holding the source bytes followed by 0xFF; nothing else changes |
| Bootloader.Device.ReadByte | bootloader/src/bootloader.c:201 | takes the next byte off the line, or none when nothing arrives |
| Bootloader.Device.ReadVariable | bootloader/src/bootloader.c:197-208 | fills exactly the first min(length, 1024) bytes of the target from the line and leaves the rest of it alone |
| Bootloader.Device.WriteOk | bootloader/src/bootloader.c:354 | writes one OK byte |
| Bootloader.Device.SendErr | bootloader/src/bootloader.c:178-183 | writes one ERROR byte |
| Bootloader.Device.ShaHmac | bootloader/src/bootloader.c:249-277 | reads the 32-byte MAC and answers as `VerifyMac`, writing ERROR on a mismatch |
| Bootloader.Device.ReceivePayload | bootloader/src/bootloader.c:391-405 | stores the frame bytes at 1024·index, counting them, and halts as soon as the count passes `size` |
| Bootloader.Device.ReceiveFrame | bootloader/src/bootloader.c:358-421 | one turn of the frame loop does what `FrameStep` specifies to the line, the buffer and the answers |
| Bootloader.Device.CheckFrame | bootloader/src/bootloader.c:365-421 | the turn after the header's MAC, as `FrameBody` specifies |
| Bootloader.Device.AppendHeader | bootloader/src/bootloader.c:407-409 | the 6 header bytes land right after the payload |
| Bootloader.Device.StoreFrame | bootloader/src/bootloader.c:390-418 | the payload step as `FramePayload` specifies |
| Bootloader.Device.ReceiveFrames | bootloader/src/bootloader.c:357-423 | the frame loop does what `FrameLoop` specifies, with one OK per frame |
| Bootloader.Device.FrameTurn | bootloader/src/bootloader.c:358-422 | one turn, continuing `FrameLoop` from the next counter |
| Bootloader.Device.CheckFirmware | bootloader/src/bootloader.c:425-435 | halts with ERROR when received ≠ size, else checks the firmware MAC |
| Bootloader.Device.ReceiveRelease | bootloader/src/bootloader.c:437-444 | reads the release message into `fw_release_message` and checks its MAC |
| Bootloader.Device.CheckBundle | bootloader/src/bootloader.c:446-460 | checks the MAC over firmware‖metadata‖message, and then zeroes the bytes after the firmware |
| Bootloader.Device.AppendBytes | bootloader/src/bootloader.c:447-450 | copies the bytes into `data` at the given offset |
| Bootloader.Device.ZeroBytes | bootloader/src/bootloader.c:456-458 | zeroes the given range of `data` |
| Bootloader.Device.DecryptFirmware | bootloader/src/bootloader.c:462-466 | reads IV and tag, checks the tag, and decrypts the firmware in place |
| Bootloader.Device.DecryptInPlace | bootloader/src/bootloader.c:229-231 | the first `size` bytes of `data` become their GCTR decryption; the rest is unchanged |
| Bootloader.Device.FinishUpdate | bootloader/src/bootloader.c:425-466 | the steps after the frame loop answer as `Trailer` specifies |
| Bootloader.Device.CheckRelease | bootloader/src/bootloader.c:437-466 | the steps from the release message on answer as `Released` specifies |
| Bootloader.Device.CheckSeal | bootloader/src/bootloader.c:446-466 | the steps from the bundle MAC on answer as `Sealed` specifies |
| Bootloader.Device.DecryptUpdate | bootloader/src/bootloader.c:462-466 | the decryption answers as `Decrypted` specifies |
| Bootloader.Device.ReceiveUpdate | bootloader/src/bootloader.c:356-466 | everything after the metadata answers as `AfterMetadata` specifies |
| Bootloader.Device.FlashFirmware | bootloader/src/bootloader.c:468-484 | the decrypted firmware is flashed page by page from the firmware base |
| Bootloader.Device.FlashFirmwarePage | bootloader/src/bootloader.c:471-482 | one loop turn flashes the page at byte i and moves one page on |
| Bootloader.Device.InstallFirmware | bootloader/src/bootloader.c:468-502 | flashes the firmware, then the metadata (version bytes kept for a version-0 update), then the release message |
| Bootloader.Device.LoadFirmware | bootloader/src/bootloader.c:294-503 | `load_firmware` answers as `Receive` specifies; on a halt the flash is unchanged, on acceptance it holds the update |
| Bootloader.Device.AuthenticateMetadata | bootloader/src/bootloader.c:318-322 | the metadata MAC decides between halting and going on |
| Bootloader.Device.CheckMetadata | bootloader/src/bootloader.c:324-354 | decodes the metadata and refuses it (ERROR) exactly under the rollback and size rules, otherwise answers OK |
| Bootloader.Device.AcceptMetadata | bootloader/src/bootloader.c:324-502 | everything after the metadata MAC, as `Announced` specifies |
| Bootloader.Device.UpdateAndInstall | bootloader/src/bootloader.c:356-502 | reception after the metadata, then installation on acceptance |
| Bootloader.Device.LoadInitialFirmware | bootloader/src/bootloader.c:109-144 | on a blank metadata word, flashes the initial metadata, message and image; otherwise changes nothing |
| Bootloader.Device.FlashImage | bootloader/src/bootloader.c:139-143 | flashes the image page by page, the last page partial |
| Acceptance.FrameStepAccepts | bootloader/src/bootloader.c:359-418 | a frame is accepted iff its header MAC holds, index = counter ≤ `frame_number`, length ≤ 1024, version = the update's and ≠ 1, the count stays within size and the payload MAC holds; it is then stored at 1024·index with its header after it |
| Acceptance.UpdateAdmitted | bootloader/src/bootloader.c:320-354 | the metadata is acknowledged iff its MAC holds, the version is 0 or not below the stored one, size ≤ 0x7800 and message size ≤ 0x400 |
| Acceptance.AcceptedAcks | bootloader/src/bootloader.c:354-466 | an accepted update is acknowledged ceil(size/1024) + 5 times (one frame for an empty firmware) |
| Acceptance.FlashPagesHold | bootloader/src/bootloader.c:469-484 | after flashing, the flash from the firmware base holds the firmware |
| Acceptance.InstalledLayout | bootloader/src/bootloader.c:468-502 | after installation: flash below the release page unchanged, release page = message then 0xFF, metadata page = metadata then 0xFF, firmware at its base |
| Acceptance.NoRollback | bootloader/src/bootloader.c:334-342 | after an accepted update the stored version is the new one (or the old one for a version-0 update) and never lower than before |
| Acceptance.VersionKept | bootloader/src/bootloader.c:486-496 | the version written to flash is the new one, or the stored one for version 0 |
| Acceptance.AcceptedInstall | bootloader/src/bootloader.c:339-352 | an accepted update fits the buffers and passed the rollback check |
| Acceptance.InstalledVersion | bootloader/src/bootloader.c:492-496 | the stored version read back is the version in the flashed metadata |
| Acceptance.StoresInBounds | bootloader/src/bootloader.c:393 | every frame store (payload and header) and the metadata and message copies stay inside `DATA_SIZE`, for size > 0; for size 0 only under the reading `frame_number` = 0 |
| Acceptance.EmptyFirmwareHeaderOverflow | bootloader/src/bootloader.c:373-409 | with size 0, a zero-length frame header with index 32 and the update's version passes the header checks of lines 373-388 against the wrapped `frame_number` 0xFFFF (and fails them against 0); its header copy starts at 32768 and ends beyond `DATA_SIZE` |
| Acceptance.UndercountedRelease | bootloader/src/bootloader.c:438-442 | when the announced message size is shorter than the message shipped, the device checks the MAC of the first `field` bytes against 32 bytes that start with the rest of the message, and resets unless they match |
| Acceptance.InitialPagesBelow | bootloader/src/bootloader.c:139-143 | flashing the initial image leaves the flash below its base unchanged |
| Acceptance.InitialPagesHold | bootloader/src/bootloader.c:139-143 | after flashing, the flash from the base holds the image |
| Acceptance.InfoPages | bootloader/src/bootloader.c:134-137 | the metadata and message pages hold their contents, with nothing below them changed |
| Acceptance.BootPagesLayout | bootloader/src/bootloader.c:127-143 | metadata, message and image all end up where they belong |
| Acceptance.InitialFlashLayout | bootloader/src/bootloader.c:120-143 | the initial flash decodes to version 2, the image size mod 2^16 and message size 36, holds the 36-byte message and the image, and leaves lower flash unchanged |

## Left out

- UART hardware, interrupts, the debug output on UART2 (`print_bolt`, the text of `send_err`), `SysCtlReset` and `boot_firmware`'s jump are not modelled. The line is a byte sequence, the answers are a byte log, and a reset ends a reception with `Halt.Reset`.
- A blocking read with no byte ever arriving is a halt (`Halt.Blocked`). `check_read` never fires with `BLOCKING`, so its error path is absent. The `uart` argument of `uart_read_variable` is ignored: every read takes the single incoming line.
- The contents of `data` after a halt are not specified; the model only says the flash is unchanged.
- HMAC-SHA256, the AES block cipher and GHASH are uninterpreted; only the GCTR structure of GCM is modelled. PyCryptodome and BearSSL are not part of this model.
- `FlashErase` and `FlashProgram` never fail, and programming overwrites the bytes rather than AND-ing them into NOR flash. The error returns of `program_flash` in `load_firmware` are therefore never taken.
- `char` is treated as an unsigned byte.
- Bootloader.FrameNumber: the float `ceil` of line 332 is integer ceiling division. For size 0, line 332 converts the double −1.0 to `uint16_t`, which the C standard leaves undefined; the model uses 0 (see Findings for the 0xFFFF reading).
- Protect.ProtectFirmware: a message containing a lone surrogate, on which `encode()` raises, cannot be represented (Dafny's char excludes U+D800–U+DFFF). Python produces such messages from command-line bytes that are not valid UTF-8, and line 137 then raises UnicodeEncodeError after the metadata was packed and the firmware encrypted; `Bundle` has no outcome for it.
- Bootloader.Device.LoadInitialFirmware: requires that the image, plus one page, fits in flash above the firmware base. The linker symbols and their size are parameters. The comment at lines 111-117 speaks of an all-zero page; the model follows the code, which checks for 0xFFFFFFFF.
- File I/O, `time.sleep`, `tqdm`, the progress prints, `argparse` and `os.system` in the Python tools are not modelled; the firmware, keys, message and the random IV are parameters.
- Update.Handshake: the loop of lines 97-98 spins forever if `'U'` never arrives. The model ends it with `NoHandshake` once the finite reply queue is used up.
- The sender and the device are not composed into one run. For example, for empty firmware the sender sends no frame while `load_firmware` waits for frame 0; this is not covered by a lemma.
- Integer widths in the Python tools are unbounded as in Python; `struct.pack` overflow is the `PackOverflow` error.

## Findings

| source | as written | input that shows it | evidently intended | confidence | as-written member | corrected member |
|---|---|---|---|---|---|---|
| tools/fw_protect.py:48 | the metadata's message-size field is `len(message)`, a character count, while line 137 ships `message.encode()` | a release message "é" (1 character, 2 UTF-8 bytes): the sender's message unit is `field + 32` bytes, so the trailer units shift and, with every unit acknowledged, the sender reports success although the blob's last byte is never sent; a real device reads 1 message byte and takes 0xA9 plus 31 MAC bytes as its MAC, so it refuses the release-message MAC and resets | the field holds the number of encoded message bytes | not executed | Pipeline.NonAsciiBundleTruncated | Pipeline.FixedBundleDelivered |
| bootloader/src/bootloader.c:332 | for size 0, `frame_number = ceil((float) size / FLASH_PAGESIZE) - 1` converts −1.0 to `uint16_t`, which is undefined; a compiler converting through a signed integer gives 0xFFFF, so the check `index > frame_number` (line 373) never fires | size 0, then frames 0..31 of length 0 with valid MACs and frame 32 of length 0 with a valid header MAC: frame 32's header copy (lines 407-409) writes at 32768..32773, past `DATA_SIZE` = 31750, before the payload MAC check of line 412 | an empty firmware is rejected, or `frame_number` is 0 for it, so that every store stays inside `data` | not executed; depends on the compiler's conversion | Acceptance.EmptyFirmwareHeaderOverflow | Acceptance.StoresInBounds |
