# BLE auto-testing core in Dafny

This project models two parts of the BLE auto-testing tools and proves properties about them.

**The sniffer's host side** (`SnifferAPI/Packet.py`, `SnifferAPI/Types.py`) covers:
- SLIP framing of the serial link to the nRF Sniffer;
- the sniffer's transport header: length, protocol version, packet counter and message id;
- events carrying a Bluetooth LE packet: the flags byte, RSSI, event counter and timestamp;
- the link-layer packet inside an event: access address, coding indicator, PDU header, addresses and the advertised name;
- the on-air duration of a packet (`getPacketTime`);
- the downgrade of events to protocol version 2;
- the commands the host sends;
- the session state that a capture replay accumulates: connection detection, connection-timing and PHY-switch timers, and the T_IFS samples;
- the T_IFS verdict drawn from those samples.

**The HCI command helpers** (`BLE_hci.py`, `ble_hci_console.py`) are shared by the two command-line tools. They cover:
- number and address conversions: `tohex`, `parseBdAddr`, `parseAddr`, `parseBytes32`;
- the connection-statistics and end-test event parsers;
- the builders that turn command-line strings into HCI command packets, written as hex text.

Each builder returns the commands it would write and the exception that stops it, if any. The console tool's helpers are textually the same as `BLE_hci.py`'s. The one exception is its statistics parser, which returns `None` instead of raising; it has its own member.

Modules, one file each:
- `Types` (types.dfy): bytes, `Option`/`Result`, Python slicing, the protocol constants and their tables.
- `LittleEndian` (little_endian.dfy): `parseLittleEndian` and `toLittleEndian`, with their round trips.
- `Slip` (slip.dfy): the encoder and the decoder. The serial port is a stream of `Option<byte>`, where `None` is a read that timed out. The wall clock is a deadline counted in loop rounds.
- `BlePackets` (ble_packet.dfy): the `BlePacket` decoder.
- `Packets` (packet.dfy): the `Packet` class, whose constructor reads an event, and the `PacketReader` session class. The reader's state includes the module-level globals of `Packet.py` that the tracking updates.
- `Replay` (replay.dfy): one record of a capture-file replay, and the T_IFS verdict.
- `PyText` (py_text.dfy): Python's hex formatting and parsing, `split`/`join`, and fixed-size chunks.
- `Hci` (hci.dfy): the HCI helpers and command builders.

The imperative code is modelled as follows:
- The loops (`encodeToSLIP`, `decodeFromSLIP`, `parseLittleEndian`, `toLittleEndian`, `extractName`, `parseAddr`, the register dump) are methods with loop invariants. Each is proved equal to a specification function.
- The two classes whose fields the source updates in place are Dafny classes, with `modifies` clauses on their methods.

A packet list the events rewrite is a `seq<byte>` field. It is reassigned by the live-mode padding removal and by the downgrade to version 2. Where the code and its description disagree, the model follows the code; the SN/NESN bit order below is one such case. The two defects under "## Findings" are the exception: each is modelled as written beside a corrected definition, and the rest of the model uses the corrected one. "## Left out" names the members that inherit the correction.

## Model

| member | source | states |
|---|---|---|
| Types.EscapeCodesDistinct | SnifferAPI/Types.py:37-42 | Each SLIP escape code is its delimiter plus one. The six framing bytes are distinct, so no escape code is a delimiter. |
| Types.UartMessageIdsDistinct | SnifferAPI/Types.py:50-71 | The 22 UART message ids are pairwise distinct. All but GO_IDLE (0xFE) lie in 0x00..0x1F. |
| Types.UartNameTableKeys | SnifferAPI/Types.py:73-96 | The id-to-name table has exactly the 22 message ids as keys. |
| Types.UartNameTableMatchesConstants | SnifferAPI/Types.py:50-96 | The table names every id by the constant it is declared under. |
| Types.PduTypeNamesIndexed | SnifferAPI/Types.py:120-140 | The PDU type name list is indexed by the PDU type codes 0..8, each at its own name. |
| Types.PhyCodesFitFlagsField | SnifferAPI/Types.py:111-113 | The three PHY codes are distinct and fit the 3-bit PHY field of the flags byte. |
| Types.PacketCodesConsistent | SnifferAPI/Types.py:98-128 | Each advertising type equals the PDU type code of the same PDU (CONNECT_REQ is CONNECT_IND, 5). The coded-PHY indicators S8 = 0 and S2 = 1 are distinct and fit the 2-bit field. The three packet types are distinct. |
| Types.ProtocolVersionsOrdered | SnifferAPI/Types.py:44-46 | Versions 1 < 2 < 3. `Packets.ReadHeaderAccepts` shows 3 is the newest a header may carry. |
| LittleEndian.ParseLittleEndian | SnifferAPI/Packet.py:801-805 | The loop's sum of byte i shifted left by 8i is the little-endian value of the list. |
| LittleEndian.ToLittleEndian | SnifferAPI/Packet.py:807-811 | The loop fills `size` bytes, byte i being the value shifted right by 8i, modulo 256. |
| LittleEndian.LittleEndianBytesDigit | SnifferAPI/Packet.py:807-811 | Byte i of the encoding is (value / 256^i) % 256, for negative values too. |
| LittleEndian.LittleEndianRoundTrip | SnifferAPI/Packet.py:801-811 | Decoding an encoding gives the value modulo 256^size. |
| LittleEndian.LittleEndianNegative | SnifferAPI/Packet.py:807-811 | A negative value that fits is stored as its two's complement. |
| LittleEndian.LittleEndianBytesOfValue | SnifferAPI/Packet.py:801-811 | Re-encoding a list's value at the list's width gives the list back. |
| LittleEndian.LittleEndianValueAppend | SnifferAPI/Packet.py:801-805 | An appended byte adds its value times 256^n, n being the old length. |
| Slip.EscapeByte | SnifferAPI/Packet.py:139-150 | A payload byte becomes one or two wire bytes. |
| Slip.EncodeToSlip | SnifferAPI/Packet.py:136-152 | The buffer is START, each byte escaped in order, then END. |
| Slip.EscapedHasNoDelimiters | SnifferAPI/Packet.py:136-152 | An escaped payload has no START or END byte. Its length is between n and 2n. |
| Slip.FrameDelimitersOnlyAtEnds | SnifferAPI/Packet.py:136-152 | In a frame, START occurs only first and END only last. |
| Slip.GetSerialByte | SnifferAPI/Packet.py:190-194 | A successful read returns the stream's byte. A read that times out raises SnifferTimeout. |
| Slip.DecodeFromSlip | SnifferAPI/Packet.py:156-186 | The two loops compute `AwaitStart`: skip to START, then unescape up to END. The deadline raises UartPacketError and a timed-out read raises SnifferTimeout. |
| Slip.AwaitStartSkips | SnifferAPI/Packet.py:164-166 | Bytes other than START are skipped, one deadline round each. |
| Slip.ReadFrameEscaped | SnifferAPI/Packet.py:168-183 | An escaped payload is read back as the payload, one round per payload byte. |
| Slip.DecodeEncodedFrame | SnifferAPI/Packet.py:136-186 | Round trip: after any junk without START, decoding an encoded frame returns the payload and the position after END. |
| Slip.UnknownEscapeReadsAsEnd | SnifferAPI/Packet.py:172-181 | An unknown escape code is stored as an END byte, and reading continues. |
| Slip.TimeoutBeforeStart | SnifferAPI/Packet.py:164-166 | A read that times out before START raises SnifferTimeout. |
| Slip.DeadlineWhileAwaitingStart | SnifferAPI/Packet.py:161-185 | A deadline that runs out while junk is skipped raises UartPacketError. |
| Slip.DeadlineInsideFrame | SnifferAPI/Packet.py:168-185 | A deadline that runs out after START, with the payload read but not END, raises UartPacketError, whatever follows. |
| Slip.TruncatedFrameTimesOut | SnifferAPI/Packet.py:168-194 | A stream that ends inside a frame, with no overall deadline, raises SnifferTimeout. |
| BlePackets.DecodeAdvHeaderInverts | SnifferAPI/Packet.py:698-703 | The corrected advertising-header decoder recovers PDU type and TxAdd. It recovers RxAdd for types 1, 3, 5. |
| BlePackets.RxAddrTypeAsWrittenIsZero | SnifferAPI/Packet.py:702 | As written, `(b << 7) & 1` is 0 for every header byte. |
| BlePackets.RxAddrTypeCounterexample | SnifferAPI/Packet.py:698-703 | Header 0x81 (ADV_DIRECT_IND to a random address) decodes with RxAdd 0 as written and 1 when corrected. |
| BlePackets.DecodeConnHeaderFields | SnifferAPI/Packet.py:705-710 | The data header decoder recovers LLID and MD. The standard's NESN bit (bit 2) lands in `sn` and SN (bit 3) in `nesn`. |
| BlePackets.ExtractName | SnifferAPI/Packet.py:776-795 | The loop computes `NameOf`. For types 0, 2, 4, 6, 7 that is the quoted result of the AD-structure walk. Type 1 gives "[ADV_DIRECT_IND]" and any other type gives "". |
| BlePackets.ScanNameIsLastLocalName | SnifferAPI/Packet.py:779-790 | The walk yields the data of the last Shortened/Complete Local Name structure visited, or the start name if there is none. |
| BlePackets.LastLocalNameCons | SnifferAPI/Packet.py:785-789 | A name structure at the front is overridden by any later name. Other structures leave the name alone. |
| BlePackets.AdStructuresOfAdBytes | SnifferAPI/Packet.py:779-790 | Walking encoded AD structures that fill the list visits exactly those structures. |
| BlePackets.ParseBlePacket | SnifferAPI/Packet.py:630-681 | The running-offset parser computes `BlePacketOf`. Bytes missing from the header fail with IndexOutOfRange. `BlePacketOf` decodes the advertising header with the corrected RxAdd (bit 7). |
| BlePackets.LegacyAdvertisingPduLive | SnifferAPI/Packet.py:630-795 | For a live legacy advertising PDU on 1M: the advertiser address comes out in display order, tagged with TxAdd. The payload follows the length byte, and the name is the last local name, quoted. |
| BlePackets.DataPduFields | SnifferAPI/Packet.py:645-669 | A data PDU carries the data header, the length and the rest as payload. It has no advertising fields. |
| BlePackets.CodedPduSkipsCodingIndicator | SnifferAPI/Packet.py:690-696 | On the Coded PHY, the byte after the access address is the coding indicator masked to 2 bits. The header follows it. |
| BlePackets.OneAddressPdu | SnifferAPI/Packet.py:715-722 | Types 0, 2, 4, 6 carry one address, the advertiser's, tagged with TxAdd. The offset advances 6 bytes. A capture file keeps the address raw; live, it is reversed. |
| BlePackets.TwoAddressPdu | SnifferAPI/Packet.py:715-747 | Types 1, 3, 5 advance 12 bytes. Type 1 gives advertiser (TxAdd) then target (RxAdd). Types 3 and 5 give advertiser (RxAdd, the second field) and scanner or initiator (TxAdd, the first). Raw in a capture file, reversed live. |
| BlePackets.ExtendedPduAddresses | SnifferAPI/Packet.py:749-770 | Type 7 advances 1 + (length byte & 0x3F). Flag bit 0 gives the advertiser address and bit 1 the target, in that order. Both are reversed in either mode, and the target has no address type. |
| BlePackets.UnknownPduNoAddresses | SnifferAPI/Packet.py:713-774 | Types 8-15 yield no addresses and leave the offset. |
| BlePackets.CaptureFileNeedsAdvAddress | SnifferAPI/Packet.py:672-676 | In a capture file, an unknown type, or a type 7 whose flags announce no advertiser, cannot be read. |
| BlePackets.ShortPacketFails | SnifferAPI/Packet.py:686-699 | A list too short for the header and length fails with IndexOutOfRange. |
| Packets.ReadHeaderAccepts | SnifferAPI/Packet.py:379-398 | A list is accepted iff it reaches the id byte, its version is at most 3, and its length field plus 6 is its length. The accepted length then accounts for the list, and the counter is below 65536. |
| Packets.ReadHeaderBytes | SnifferAPI/Packet.py:383-398 | A header written for a payload of the declared length reads back as that header. |
| Packets.ReadFlags | SnifferAPI/Packet.py:604-613 | The PHY field read from the flags byte is below 8. |
| Packets.ReadFlagsInverts | SnifferAPI/Packet.py:604-613 | Reading the flags byte built from CRC, direction, encryption, MIC and PHY fields gives those fields back. |
| Packets.FlagsByteOfReadFlags | SnifferAPI/Packet.py:604-613 | Rebuilding a flags byte from what was read keeps its low 7 bits. |
| Packets.PacketTimeIsAirTime | SnifferAPI/Packet.py:211-228 | For a known PHY and coding indicator, `getPacketTime` equals the air time from the PHY's bit timing. |
| Packets.RemoveAt | SnifferAPI/Packet.py:479-483 | Removing the padding byte shortens the list by one. The bytes before the index stay, and those after it move down by one. |
| Packets.RewriteLengthFieldAsWritten | SnifferAPI/Packet.py:485-491 | Bytes from 2 on are kept. Versions 2-3 get the length little-endian in bytes 0-1. Every other version gets the length, unreduced, in byte 1 alone. |
| Packets.RewriteLengthField | SnifferAPI/Packet.py:485-491 | Bytes from 2 on are kept. Version 1 gets the length modulo 256 in byte 1. Every other version gets it little-endian in bytes 0-1, as the header reader reads it. |
| Packets.RewriteLengthFieldReadsBack | SnifferAPI/Packet.py:383-398 | After the corrected rewrite, the header reads back with the new length and everything else unchanged. |
| Packets.VersionZeroRewriteCounterexample | SnifferAPI/Packet.py:485-491 | On a version-0 event, the as-written rewrite leaves a list whose length field no longer matches its length. |
| Packets.ParserModeKeepsList | SnifferAPI/Packet.py:474-476 | Capture-file mode never changes the packet list or its length. |
| Packets.LiveModeRemovesPadding | SnifferAPI/Packet.py:476-491 | Live mode removes exactly the padding byte (index 22, or 23 on Coded) and decrements the length. The length field is written by the corrected rewrite, so the list reads back with the same header and the new length. |
| Packets.ParserModeKeepsRest | SnifferAPI/Packet.py:433-495 | The list is unchanged in capture-file mode and when the BLE header length is rejected. With the corrected version-0 rewrite, in both modes the resulting list reads back with the same header and the resulting length. |
| Packets.PacketTypeOf | SnifferAPI/Packet.py:498-506 | The type is always advertising or data. |
| Packets.TrackStepPreservesInvariant | SnifferAPI/Packet.py:515-581 | Tracking one packet preserves the timer invariants: a PHY request has a start time, a finished switch has time equal to end minus start, and a finished connection timing has a time. |
| Packets.ConnTimingMoves | SnifferAPI/Packet.py:516-536 | The connection timer moves one step at a time: INIT to REQ only with a connection detected; to DONE only on a data packet, recording its end-to-start time; DONE back to INIT only on a non-data packet in capture-file mode. |
| Packets.TifsAppendOnly | SnifferAPI/Packet.py:564-573 | The T_IFS list is unchanged or gains the packet's end-to-start time. It gains it only for a peripheral-to-central data packet, after an earlier BLE packet, in a detected connection. |
| Packets.LiveTrackingLeavesDetectionAlone | SnifferAPI/Packet.py:515-559 | Read live, tracking changes neither the connection flag nor the PHY-switch timer. |
| Packets.PhySwitchTimed | SnifferAPI/Packet.py:541-559 | An LL_PHY_REQ followed by a 2M packet ends the switch, with the capture-time difference as its time. |
| Packets.TrackAllKeepsSamples | SnifferAPI/Packet.py:564-573 | Over a replay the invariant holds and the T_IFS list extends the old one. Each new sample is the end-to-start time of a peripheral-to-central data packet of the replay. |
| Packets.CounterGapOnlyWhenSkipped | SnifferAPI/Packet.py:196-205 | Consecutive counters, including 65535 to 0, are no gap. After a non-zero counter, any other value is. |
| Packets.DowngradeHeader | SnifferAPI/Packet.py:232-236 | Byte 2 becomes version 2. An advertising event id (2) becomes a data event id and any other id stays. Every other byte stays. |
| Packets.WriteTimeDelta | SnifferAPI/Packet.py:249-253 | Only bytes 12-15 change. Those within the list become the matching bytes of the 4-byte little-endian delta, so a list that holds them all carries exactly those 4 bytes there. |
| Packets.DowngradeProperties | SnifferAPI/Packet.py:230-253 | The downgrade gives version 2 and id 6, with the delta modulo 2^32 in bytes 12-15 and every other byte unchanged. A valid version-3 list stays valid with the same counter and length. |
| Packets.EventOf | SnifferAPI/Packet.py:431-601 | The list a packet is built from keeps the header's version and id bytes and reaches the id byte. An event other than a BLE event keeps its list and is valid. |
| Packets.Packet.constructor | SnifferAPI/Packet.py:360-602 | A rejected header gives an invalid packet. Otherwise the fields come from the header and `ReadBleEvent`, and valid means the BLE header length was accepted. OK means a BLE event whose flags passed. A BLE packet is kept exactly when OK and `BlePacketOf` succeeds, and it is fed to the reader's tracking. `ReadBleEvent` uses the corrected version-0 rewrite, and `BlePacketOf` the corrected RxAdd. |
| Packets.PacketReader.constructor | SnifferAPI/Packet.py:101-118 | A new session: counter 0, no history, version 3, initial tracking. |
| Packets.PacketReader.TrackBlePacket | SnifferAPI/Packet.py:515-581 | The session's tracking becomes `TrackStep` of the old one. Nothing else changes. |
| Packets.PacketReader.DetectConnectionStep | SnifferAPI/Packet.py:515-522 | The tracking becomes `DetectConnection` of the old one. |
| Packets.PacketReader.ConnectionTimingStep | SnifferAPI/Packet.py:527-536 | The tracking becomes `CheckConnectionTiming` of the old one. |
| Packets.PacketReader.PhySwitchStep | SnifferAPI/Packet.py:541-559 | The tracking becomes `CheckPhySwitch` of the old one. |
| Packets.PacketReader.TifsStep | SnifferAPI/Packet.py:564-578 | The tracking becomes `CheckTifs` of the old one. |
| Packets.PacketReader.HandlePacketHistory | SnifferAPI/Packet.py:196-209 | Reports a gap iff `CounterGap` holds against the last packet. The packet becomes the last one, and the last timestamped one if it is a BLE event. |
| Packets.PacketReader.ConvertPacketListProtoVer2 | SnifferAPI/Packet.py:230-253 | The list becomes the downgraded header. For a data event, the timestamp is replaced by the end-to-start delta after the last timestamped packet. |
| Packets.PacketReader.Downgraded | SnifferAPI/Packet.py:230-253 | The downgraded list keeps its length and has version 2 and no advertising event id. A success is never `Unchanged`. An event other than a BLE event never faults and only gets its header rewritten. |
| Packets.PacketReader.HandlePacketCompatibility | SnifferAPI/Packet.py:256-258 | The list is downgraded exactly when the session supports version 2 and the packet is newer. The outcome is then that of `Downgraded`, a fault included. Otherwise the list is unchanged. |
| Packets.PacketReader.SetSupportedProtocolVersion | SnifferAPI/Packet.py:260-263 | Only the supported version changes. |
| Packets.PacketReader.GetPacket | SnifferAPI/Packet.py:265-279 | A decode failure is returned as the SLIP error, with the history unchanged. Otherwise the frame is consumed. A frame whose header is rejected gives an invalid packet holding the frame. Otherwise the packet's version, counter and id are the header's, it is valid iff `EventOf` accepts its BLE header, and its list is the live-mode list of `EventOf`. When the session supports version 2 and a valid packet is newer, the list is the one `Downgraded` gives in the state before the call, and a fault of `Downgraded`, and only that, is returned as the error before the packet is recorded. A recorded packet is the last received, and the last timestamped if it is a BLE event. An invalid packet leaves the history alone. |
| Packets.PacketReader.SendPacket | SnifferAPI/Packet.py:281-286 | Writes the SLIP frame of the version-1 command and increments the counter. |
| Packets.PacketReader.SendScan | SnifferAPI/Packet.py:288-291 | Sends REQ_SCAN_CONT with the three flags as bits 0-2. |
| Packets.PacketReader.SendFollow | SnifferAPI/Packet.py:293-297 | An empty address sends nothing. Otherwise sends REQ_FOLLOW with the address and the flags byte. |
| Packets.PacketReader.SendPingReq | SnifferAPI/Packet.py:299-300 | Sends PING_REQ with no payload. |
| Packets.PacketReader.SendKey | SnifferAPI/Packet.py:310-333 | Sends a key fitted to its size by `getBytes`. |
| Packets.PacketReader.SendTemporaryKey | SnifferAPI/Packet.py:310-313 | Sends SET_TEMPORARY_KEY with the key fitted to 16 bytes. |
| Packets.PacketReader.SendPrivateKey | SnifferAPI/Packet.py:315-318 | Sends SET_PRIVATE_KEY with the key fitted to 32 bytes. |
| Packets.PacketReader.SendLegacyLtk | SnifferAPI/Packet.py:320-323 | Sends SET_LEGACY_LONG_TERM_KEY with the key fitted to 16 bytes. |
| Packets.PacketReader.SendScLtk | SnifferAPI/Packet.py:325-328 | Sends SET_SC_LONG_TERM_KEY with the key fitted to 16 bytes. |
| Packets.PacketReader.SendIrk | SnifferAPI/Packet.py:330-333 | Sends SET_IDENTITY_RESOLVING_KEY with the key fitted to 16 bytes. |
| Packets.PacketReader.SendSwitchBaudRate | SnifferAPI/Packet.py:335-336 | Sends SWITCH_BAUD_RATE_REQ with the rate as 4 little-endian bytes. |
| Packets.PacketReader.SendHopSequence | SnifferAPI/Packet.py:341-346 | With only channels 37-39, sends the hop payload. Otherwise fails on the first offending channel, every channel before it being valid, and sends nothing. |
| Packets.PacketReader.SendVersionReq | SnifferAPI/Packet.py:349-350 | Sends REQ_VERSION with no payload. |
| Packets.PacketReader.SendTimestampReq | SnifferAPI/Packet.py:352-353 | Sends REQ_TIMESTAMP with no payload. |
| Packets.PacketReader.SendGoIdle | SnifferAPI/Packet.py:355-356 | Sends GO_IDLE with no payload. |
| Packets.PacketReader.ClearTifs | ble_test.py:314 | Empties the T_IFS samples and keeps the rest of the tracking. |
| Packets.CommandPacketListReadsBack | SnifferAPI/Packet.py:281-286 | A sent command decodes, through SLIP and the header reader, to version 1, the counter modulo 65536, the id and the payload. |
| Packets.ScanFlagsBits | SnifferAPI/Packet.py:288-289 | Bit k of the scan flags byte is the k-th flag. |
| Packets.GetBytes | SnifferAPI/Packet.py:302-308 | The result has exactly `size` bytes: zero-padded in front when the value is shorter, truncated otherwise. |
| Packets.HopSequencePayload | SnifferAPI/Packet.py:345 | The payload is the count, the channels in order, and padding with 37 up to three channels. |
| Replay.ReplayRecord | pcapng_file_parser.py:68-117 | The record's first byte is dropped and the rest parsed in capture-file mode. The reader's tracking takes one `TrackStep` on the packet's BLE packet when one is kept, and is unchanged otherwise. An invalid packet is skipped and leaves the history alone. A valid one is made compatible: when the session supports version 2 and the packet is newer, its list and any fault are those `Downgraded` gives in the state before the call (the replay's own reader never supports only version 2; see "## Left out"); otherwise the list is the record's. Then it is recorded, with its gap reported. |
| Replay.MaxOf | pcapng_file_parser.py:145 | The result is a member of the samples and at least every sample. |
| Replay.MinOf | pcapng_file_parser.py:146 | The result is a member of the samples and at most every sample. |
| Replay.VerdictPassesIffAllInWindow | pcapng_file_parser.py:144-157 | PASS iff there are samples and every one lies in 148..152. FAIL iff some sample lies outside. |
| PyText.FormatHex | BLE_hci.py:388-389 | `"%0.NX"` of a non-negative number is upper-case hex, at least N digits, reading back as the number. |
| PyText.FormatHexWidth | BLE_hci.py:388-389 | A number below 16^N is written in exactly N digits. |
| PyText.PyHex | BLE_hci.py:87 | `hex(v)` is "0x" and hex digits whose value is v. |
| PyText.ParseHexOfFormatted | BLE_hci.py:724 | `int(hex(v), 16)` and `int("%0.NX" % v, 16)` give v back. |
| PyText.UpperHexInjective | BLE_hci.py:388-389 | Two upper-case hex texts of equal length and equal value are equal. |
| PyText.SplitJoin | BLE_hci.py:96 | Splitting fields joined by a separator that none contains gives the fields back. |
| PyText.ConcatChunks | BLE_hci.py:121-122 | The chunks of a text concatenate back to it. |
| PyText.ChunksOfConcat | BLE_hci.py:819-820 | Chunking a concatenation of equal-size pieces gives the pieces. |
| PyText.ChunksOfEven | BLE_hci.py:121-122 | An even-length text has half as many two-character chunks, each of length 2. |
| PyText.ChunksAreHex | BLE_hci.py:819-820 | The chunks of a hex text are hex. |
| Hci.ToHex | BLE_hci.py:86-87 | `tohex` is "0x" and hex digits whose value is val modulo 2^nbits. |
| Hci.ToHexReadsBack | BLE_hci.py:86-87 | `int(tohex(v, n), 16)` is v mod 2^n. The two's complement reading gives v back when v fits in n signed bits. |
| Hci.PowerByte | BLE_hci.py:724 | The TX power is two hex digits that write the byte power % 256. |
| Hci.Hex16Lsb | BLE_hci.py:388-389 | Four upper-case hex digits writing the little-endian bytes of v modulo 65536. |
| Hci.FormatSigned | BLE_hci.py:807 | For a non-negative value this is `"%0.NX"`. |
| Hci.ParseBdAddr | BLE_hci.py:94-101 | With ':'-separated fields: "" unless there are six, else the fields joined in reverse order. |
| Hci.BdAddrOfFields | BLE_hci.py:94-101 | Six fields joined by ':' give the fields reversed. For two-digit hex fields that is 12 hex digits, least significant byte first. |
| Hci.ParseAddr | BLE_hci.py:108-130 | The loop computes `ParseAddrSpec`. It drops two characters, chunks by 2 and joins chunks numNibbles/2-1 down to 0. Fewer chunks than that raise IndexError. |
| Hci.ParseAddrInvolution | BLE_hci.py:108-130 | On numNibbles digits, applying `parseAddr` twice (with "0x" restored) gives the digits back. |
| Hci.ParseAddrLittleEndian | BLE_hci.py:108-130 | On a hex number of n bytes, `parseAddr` writes its n bytes least significant first. |
| Hci.ParseBytes32LittleEndian | BLE_hci.py:137-138 | `parseBytes32` of four two-digit hex bytes is their little-endian value. |
| Hci.WordValue | BLE_hci.py:301 | The four byte texts written in reverse read as the little-endian value of the bytes. |
| Hci.ConnStatsLittleEndian | BLE_hci.py:297-309 | With the 40 counter digits present, the five counters are the 32-bit little-endian words at digit offsets 14, 22, 30, 38, 46. |
| Hci.ConsoleConnStatsOf | ble_hci_console.py:329-359 | The console parser returns None exactly when BLE_hci.py's raises ValueError. Otherwise it returns the same counters. |
| Hci.ShortStatsEventFails | BLE_hci.py:297-309 | An event too short to reach the last counter raises ValueError, and the console parser returns None. |
| Hci.CounterValue | BLE_hci.py:301 | A counter inside the statistics digits is the little-endian value of its four bytes. |
| Hci.SwapBytes16 | BLE_hci.py:713 | The result is the two low bytes of the value, swapped, below 65536. |
| Hci.SwapBytes16Twice | BLE_hci.py:713 | Swapping twice gives back the value modulo 65536. |
| Hci.EndTestCount | BLE_hci.py:707-715 | Valid exactly when the event parses as hex. The count is then below 65536. |
| Hci.SetupWellFormed | BLE_hci.py:367-378 | Every setup command (event masks, optional statistics reset, default PHY) is a well-formed HCI command. |
| Hci.AdvRun | BLE_hci.py:363-420 | The interval must parse as hex, or ValueError is raised after setup. Otherwise, after setup come the advertising parameters of that interval and type (00 iff connect is "True"), then Advertising Enable. |
| Hci.AdvParamsFields | BLE_hci.py:384-399 | The parameters command is well formed, 19 bytes. It has the interval twice, low byte first, the type, and channel map 07. |
| Hci.AdvCommandsWellFormed | BLE_hci.py:363-420 | Every command advFunc sends is well formed. |
| Hci.InitRun | BLE_hci.py:479-531 | The interval and the timeout must both parse as hex, or ValueError is raised after setup. Otherwise LE Create Connection follows the setup. |
| Hci.ConnCommandFields | BLE_hci.py:510-513 | The connection command is well formed, 29 bytes, with the address, both intervals and the timeout at their places. |
| Hci.InitCommandsWellFormed | BLE_hci.py:479-531 | For an address of six two-digit hex fields, every command is well formed, and the address field is the fields reversed. |
| Hci.AddrCommandWellFormed | BLE_hci.py:352-357 | For six two-digit hex fields, the set-address command is well formed and carries the fields reversed. |
| Hci.SendAclCommand | BLE_hci.py:573-585 | Succeeds iff the length parses as decimal and the count is "0" or parses; otherwise ValueError. |
| Hci.SendAclFields | BLE_hci.py:573-585 | Count "0" gives the 2-byte command with the length. Otherwise the 5-byte one with handle 0, the length and the count modulo 256. Both are well formed. |
| Hci.PhyCommandFields | BLE_hci.py:602-617 | LE Set PHY is well formed, with handle 0, equal TX and RX PHYs. Argument "4" maps to coded S2, "3" to coded S8, "2" to 2M, anything else to 1M. |
| Hci.TxPowerRun | BLE_hci.py:721-735 | A power that is no number raises ValueError before sending. Otherwise the advertising power is sent, then the connection power when a non-empty handle parses. A bad handle raises ValueError after the first command. |
| Hci.PowerCommandsFields | BLE_hci.py:721-735 | Both power commands carry the power byte, and the connection one the handle low byte first. |
| Hci.TxPowerWellFormed | BLE_hci.py:721-735 | Every command txPowerFunc sends is well formed. |
| Hci.ChannelMask | BLE_hci.py:752-765 | The given mask parsed as hex; all 40 channels without arguments; channels 0-1 for "0"; channel 0 plus the named one. A negative channel or an unparsable argument gives ValueError. |
| Hci.ClearAdvChannels | BLE_hci.py:768 | Bits 37-39 become 0. All other bits are kept, including the two's complement bits above of a negative mask. |
| Hci.ClearAdvChannelsIdempotent | BLE_hci.py:768 | Clearing the advertising channels twice is clearing them once. |
| Hci.SetChMapCommand | BLE_hci.py:750-780 | A bad mask or channel, or a handle that is no decimal number, raises ValueError. |
| Hci.ChannelMapField | BLE_hci.py:771-773 | `parseAddr` of the formatted mask always succeeds. |
| Hci.SetChMapFields | BLE_hci.py:750-780 | For a 64-bit mask, the command is well formed, 14 bytes, with the handle low byte first. The channel map is the cleared mask's 8 bytes, least significant first. |
| Hci.ReadRegCommand | BLE_hci.py:793-813 | Rejected iff the address parses but the length lacks "0x". ValueError only when the length is no hex number. |
| Hci.ReadRegFields | BLE_hci.py:799-813 | For an 8-digit address and a length below 256: a well-formed 9-byte command, with the read length and the address as 4 bytes least significant first. |
| Hci.DumpIndexInvolution | BLE_hci.py:839 | The dump's byte order within each word is an involution. |
| Hci.RegisterDump | BLE_hci.py:816-851 | The loop computes `RegisterDumpSpec`. ValueError if the address is no hex number. IndexError if the event holds fewer than readLen bytes. Otherwise one cell per padded position, with the event byte in word-reversed order or padding beyond readLen. |
| Hci.DumpCoversEvent | BLE_hci.py:826-845 | If no step of the dump indexes past the event, the event holds at least readLen bytes. |
| Hci.WriteRegCommand | BLE_hci.py:857-906 | Rejected iff the value does not have 2, 4 or 8 digits after the prefix. Otherwise ValueError iff the address text is shorter than 6 characters. Never IndexError. |
| Hci.WriteRegFields | BLE_hci.py:857-906 | For an 8-digit address, the address bytes are `parseAddr`'s, the address's 4 bytes least significant first. |
| Hci.WriteRegPacket | BLE_hci.py:883-906 | The write command is well formed, with the write length, the address bytes and the data at their places. |

## Left out

- Serial I/O: the UART is a stream parameter, and HCI commands are returned, not written. The events an HCI tool receives (`send_command`, `wait_event`) are parameters.
- Wall-clock timeouts of `decodeFromSLIP`: `complete_timeout` is a number of loop rounds. The per-read `timeout` is the stream's `None`.
- Printing and logging everywhere. This includes the register dump's address labels and line breaks (the cells keep the printed bytes), the PER computation of `parseConnStatsEvt` (floating point), and the warnings of `parseAddr` and `writeRegFunc`, which do not stop them.
- Threads: `maintain` mode of advFunc/initFunc, `listenDiscon`, the UART worker. With `maintain` the final command is handed to a thread; the model always returns it as sent.
- The PHY-switch time is printed in milliseconds from float capture times; here the capture times are integers.
- Hci.AdvRun, Hci.InitRun: the listening after the commands is not modelled.
- CaptureFiles, the callbacks/notifications (`notify`), `switchBaudRate`, `doExit`, `setup`, `__repr__`.
- The fixed-string HCI commands with no logic (scan, data length, sink ACL, reset, listen, connStats, txTest, rxTest, disconnect, cmd) and the orchestration scripts that call the tools.
- Python `int()` accepts whitespace and `_` separators; the model's decimal and hex parsers accept only an optional sign, an optional "0x" (hex) and digits.
- Aliasing of the caller's list: the live-mode padding removal rewrites the list the Packet keeps, not a list the caller still holds.
- Python type accidents are not reproduced. In live mode a `list` is compared with the `bytes` ADV_ACCESS_ADDRESS, which can never be equal. In capture-file mode `bytes` receive `reverse()`. The capture time is numeric here; see the Replay.ReplayRecord line for the source's `None`.
- Hci.ParseBytes32: `parseBytes32` indexes its argument `bs[0]` to `bs[3]` and nothing in the repository calls it. The model takes a list of four byte texts. Passing a string, which Python would index one character at a time, is not modelled.
- BlePackets.ParseBlePacket, BlePackets.BlePacketOf, Packets.Packet.constructor, Packets.PacketReader.GetPacket, Replay.ReplayRecord: decode RxAdd from bit 7, the corrected half of the first finding. The source always decodes 0. For types 1, 3, 5 this changes the header's RxAdd field in both modes and, read live, the tag of the address RxAdd types. The last three inherit this through `BlePacketOf`. `DecodeAdvHeaderAsWritten` and `RxAddrTypeCounterexample` model the code as written.
- Packets.PacketReader.GetPacket, Packets.Packet.constructor, Packets.LiveModeRemovesPadding: a live version-0 event gets its length field from the corrected rewrite, the corrected half of the second finding. As written, the source writes byte 1 alone, and the list then fails its own length check. `RewriteLengthFieldAsWritten` and `VersionZeroRewriteCounterexample` model the code as written. GetPacket inherits this through the constructor.
- Replay.ReplayRecord: the version-2 branch is modelled as the live reader's downgrade. In the source a capture record is `bytes` (pcapng_file_parser.py:69), so the item assignment at SnifferAPI/Packet.py:232 would raise TypeError there. The file replay itself never reaches that branch: its reader keeps the default version 3 (pcapng_file_parser.py:37, SnifferAPI/Packet.py:118), for which the contract promises success and the record's own list.
- Replay.ReplayRecord: the capture time is a number. The only capture-file caller (pcapng_file_parser.py:70-71) never passes one, so the source's `packet_time_from_pcap` is always `None` there. At the PHY-switch DONE step the subtraction at SnifferAPI/Packet.py:557 then raises TypeError, which SnifferAPI/Packet.py:583 catches. That packet then loses its T_IFS sample (SnifferAPI/Packet.py:564-573) and its `last_ble_packet` update (SnifferAPI/Packet.py:580-581). The model records both, and gives the PHY-switch time the numeric difference.
- Packets.ParserModeKeepsRest: its read-back in live mode holds for the corrected rewrite only. For a live version-0 event the source gives a list that no longer reads back (second finding).
- Hci.ChannelMask: `1 | (1 << c)` is written arithmetically as 1 + 2^c (1 for c = 0), which agrees with Python for every c >= 0.
- Packets.Packet.constructor: requires a reader in capture-file mode. Without one, the source's tracking would raise AttributeError inside its guarded block. That path is not modelled.
- Packets.PacketReader.ConvertPacketListProtoVer2, Packets.PacketReader.HandlePacketCompatibility, Packets.PacketReader.Downgraded: require the list to reach the id byte, which every valid packet's list does; the source calls both only for valid packets.
- Packets.PacketReader.SendPacket: requires a payload under 256 bytes, so that the one-byte length field holds it; Python would write a larger length to the UART unchecked.
- Packets.PacketReader.SendFollow: requires fewer than 255 address bytes, for the same reason.
- Packets.PacketReader.SendKey: requires a key size under 256, for the same reason.
- Packets.PacketReader.SendHopSequence: requires fewer than 255 channels, for the same reason.
- Hci.SetChMapFields: states the command's layout only for masks in 0..2^64-1. For wider or negative masks, `"%0.16X"` writes more characters and the field takes the last 16 digits.

## Findings

| source | as written | input that shows it | evidently intended | confidence | as-written member | corrected member |
|---|---|---|---|---|---|---|
| SnifferAPI/Packet.py:702 | `rxAddrType = (b << 7) & 1`, which is always 0 | header byte 0x81 (ADV_DIRECT_IND, RxAdd = 1) reads RxAdd 0 | `(b >> 7) & 1`, bit 7 of the header | high, not executed | BlePackets.RxAddrTypeCounterexample | BlePackets.DecodeAdvHeaderInverts |
| SnifferAPI/Packet.py:485-491 | after the live padding removal, any version below 2 (so also 0) gets its length written to byte 1, although the header of every version but 1 is read little-endian from bytes 0-1 | the 23-byte version-0 data event of length 17 becomes 22 bytes whose bytes 0-1 read 17 + 256 * 16 | write byte 1 only for version 1, bytes 0-1 otherwise, as the header is read | medium, not executed | Packets.VersionZeroRewriteCounterexample | Packets.RewriteLengthFieldReadsBack |
