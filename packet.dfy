/**
 * Sniffer transport packets and the reader session that receives and sends
 * them.  A transport packet is a 6-byte header (payload length, protocol
 * version, packet counter, message id) followed by the payload; BLE events
 * carry a 10-byte BLE header (header length, flags, channel, RSSI, event
 * counter, timestamp) and then the link-layer packet.
 */
module Packets {
  import opened Types
  import opened LittleEndian
  import opened BlePackets
  import Slip

  // ---------------------------------------------------------------------
  // Layout of a transport packet
  // ---------------------------------------------------------------------

  const PAYLOAD_LEN_POS_V1: nat := 1
  const PAYLOAD_LEN_POS: nat := 0
  const PROTOVER_POS: nat := PAYLOAD_LEN_POS + 2
  const PACKETCOUNTER_POS: nat := PROTOVER_POS + 1
  const ID_POS: nat := PACKETCOUNTER_POS + 2
  const BLE_HEADER_LEN_POS: nat := ID_POS + 1
  const FLAGS_POS: nat := BLE_HEADER_LEN_POS + 1
  const CHANNEL_POS: nat := FLAGS_POS + 1
  const RSSI_POS: nat := CHANNEL_POS + 1
  const EVENTCOUNTER_POS: nat := RSSI_POS + 1
  const TIMESTAMP_POS: nat := EVENTCOUNTER_POS + 2
  const BLEPACKET_POS: nat := TIMESTAMP_POS + 4
  const PAYLOAD_POS: nat := BLE_HEADER_LEN_POS
  const HEADER_LENGTH: nat := 6
  const BLE_HEADER_LENGTH: nat := 10

  /** The advertising access address as it appears on the wire. */
  const ADV_ACCESS_ADDRESS: seq<byte> := [0xD6, 0xBE, 0x89, 0x8E]
  const VALID_ADV_CHANS: seq<int> := [37, 38, 39]
  const PACKET_COUNTER_CAP: nat := 65536

  /** Failures the reader's own computations can run into. */
  datatype Fault =
    | MissingAttribute  // a field the packet never got (its header was cut short)
    | ListIndexError    // a byte position beyond the end of the packet list
    | NoLastPacket      // a timing computation with no previous packet

  // ---------------------------------------------------------------------
  // Transport header
  // ---------------------------------------------------------------------

  datatype Header = Header(protover: byte, packetCounter: nat, id: byte, payloadLength: nat)

  datatype HeaderError = EmptyList | TooShort | UnsupportedVersion | LengthMismatch

  /** Is this message id a BLE event (advertising or data PDU)? */
  predicate IsBleEvent(id: byte)
  {
    id == EVENT_PACKET_ADV_PDU || id == EVENT_PACKET_DATA_PDU
  }

  /**
   * The payload length field: version 1 keeps it in byte 1, every other
   * version in bytes 0-1, little-endian.
   */
  function PayloadLengthField(list: seq<byte>): nat
    requires |list| > PROTOVER_POS
  {
    if list[PROTOVER_POS] == PROTOVER_V1 then list[PAYLOAD_LEN_POS_V1]
    else LittleEndianValue(list[PAYLOAD_LEN_POS .. PAYLOAD_LEN_POS + 2])
  }

  /**
   * The header of a packet list, or why the list is rejected: empty, too short
   * to hold the version or the id, a version above 3, or a length field that
   * does not account for the list's length.
   */
  function ReadHeader(list: seq<byte>): Result<Header, HeaderError>
  {
    if |list| == 0 then Failure(EmptyList)
    else if |list| <= PROTOVER_POS then Failure(TooShort)
    else if list[PROTOVER_POS] > PROTOVER_V3 then Failure(UnsupportedVersion)
    else if |list| <= ID_POS then Failure(TooShort)
    else if PayloadLengthField(list) + HEADER_LENGTH != |list| then Failure(LengthMismatch)
    else Success(Header(list[PROTOVER_POS], LittleEndianValue(list[PACKETCOUNTER_POS .. PACKETCOUNTER_POS + 2]),
                        list[ID_POS], PayloadLengthField(list)))
  }

  /** A header laid out in its version's format. */
  function HeaderBytes(protover: byte, payloadLength: nat, packetCounter: nat, id: byte): seq<byte>
  {
    var lengthBytes := if protover == PROTOVER_V1 then [HEADER_LENGTH, payloadLength % 256]
                       else LittleEndianBytes(payloadLength, 2);
    lengthBytes + [protover] + LittleEndianBytes(packetCounter, 2) + [id]
  }

  /**
   * A list is accepted exactly when its header fields fit: it holds the id,
   * its version is at most 3, and its length field plus 6 is its length.
   */
  lemma ReadHeaderAccepts(list: seq<byte>)
    ensures ReadHeader(list).Success? <==>
      |list| > ID_POS && list[PROTOVER_POS] <= PROTOVER_V3 && PayloadLengthField(list) + HEADER_LENGTH == |list|
    ensures ReadHeader(list).Success? ==>
      var h := ReadHeader(list).value;
      h.payloadLength + HEADER_LENGTH == |list| && h.packetCounter < PACKET_COUNTER_CAP
  {
  }

  /** A header written in its version's layout, before a payload of the stated length, reads back. */
  lemma {:induction false} ReadHeaderBytes(protover: byte, payloadLength: nat, packetCounter: nat, id: byte, payload: seq<byte>)
    requires protover <= PROTOVER_V3 && |payload| == payloadLength
    requires if protover == PROTOVER_V1 then payloadLength < 256 else payloadLength < 65536
    ensures ReadHeader(HeaderBytes(protover, payloadLength, packetCounter, id) + payload)
         == Success(Header(protover, packetCounter % PACKET_COUNTER_CAP, id, payloadLength))
  {
    var lengthBytes := if protover == PROTOVER_V1 then [HEADER_LENGTH, payloadLength % 256]
                       else LittleEndianBytes(payloadLength, 2);
    var counterBytes := LittleEndianBytes(packetCounter, 2);
    var list := lengthBytes + [protover] + counterBytes + [id] + payload;
    assert HeaderBytes(protover, payloadLength, packetCounter, id) + payload == list;
    assert list[PROTOVER_POS] == protover && list[ID_POS] == id;
    assert list[PACKETCOUNTER_POS .. PACKETCOUNTER_POS + 2] == counterBytes;
    assert Pow256(2) == PACKET_COUNTER_CAP;
    LittleEndianRoundTrip(packetCounter, 2);
    if protover == PROTOVER_V1 {
      assert list[PAYLOAD_LEN_POS_V1] == payloadLength;
    } else {
      assert list[PAYLOAD_LEN_POS .. PAYLOAD_LEN_POS + 2] == lengthBytes;
      LittleEndianRoundTrip(payloadLength, 2);
    }
    assert PayloadLengthField(list) == payloadLength;
    ReadHeaderOfFields(list);
  }

  /** A list whose fields fit reads as the header those fields hold. */
  lemma ReadHeaderOfFields(list: seq<byte>)
    requires |list| > ID_POS && list[PROTOVER_POS] <= PROTOVER_V3 && PayloadLengthField(list) + HEADER_LENGTH == |list|
    ensures ReadHeader(list) == Success(Header(list[PROTOVER_POS], LittleEndianValue(list[PACKETCOUNTER_POS .. PACKETCOUNTER_POS + 2]),
                                               list[ID_POS], PayloadLengthField(list)))
  {
  }

  // ---------------------------------------------------------------------
  // Flags byte of a BLE event
  // ---------------------------------------------------------------------

  datatype Flags = Flags(crcOK: bool, direction: bool, encrypted: bool, micOK: bool, phy: nat)

  /** CRC in bit 0, direction in bit 1, encryption in bit 2, MIC in bit 3, PHY in bits 4-6. */
  function ReadFlags(flags: byte): (f: Flags)
    ensures f.phy < 8
  {
    Flags(flags % 2 == 1, (flags / 2) % 2 == 1, (flags / 4) % 2 == 1, (flags / 8) % 2 == 1, (flags / 16) % 8)
  }

  function Bit(b: bool): nat
  {
    if b then 1 else 0
  }

  /** A flags byte built from its fields. */
  function FlagsByte(f: Flags): byte
    requires f.phy < 8
  {
    Bit(f.crcOK) + 2 * Bit(f.direction) + 4 * Bit(f.encrypted) + 8 * Bit(f.micOK) + 16 * f.phy
  }

  /** A packet is OK when its CRC passed and, if it was encrypted, its MIC passed too. */
  predicate PacketOk(f: Flags)
  {
    f.crcOK && (f.micOK || !f.encrypted)
  }

  /** Reading a built flags byte gives its fields back. */
  lemma ReadFlagsInverts(f: Flags)
    requires f.phy < 8
    ensures ReadFlags(FlagsByte(f)) == f
  {
    var c, d, e, m := Bit(f.crcOK), Bit(f.direction), Bit(f.encrypted), Bit(f.micOK);
    var b := FlagsByte(f);
    DivModUnique(b, 2, d + 2 * e + 4 * m + 8 * f.phy, c);
    DivModUnique(b, 4, e + 2 * m + 4 * f.phy, c + 2 * d);
    DivModUnique(b, 8, m + 2 * f.phy, c + 2 * d + 4 * e);
    DivModUnique(b, 16, f.phy, c + 2 * d + 4 * e + 8 * m);
    DivModUnique(d + 2 * e + 4 * m + 8 * f.phy, 2, e + 2 * m + 4 * f.phy, d);
    DivModUnique(e + 2 * m + 4 * f.phy, 2, m + 2 * f.phy, e);
    DivModUnique(m + 2 * f.phy, 2, f.phy, m);
  }

  /** Reading a flags byte keeps everything but bit 7. */
  lemma FlagsByteOfReadFlags(b: byte)
    ensures FlagsByte(ReadFlags(b)) == b % 128
  {
    DivModNested(b, 2, 2);
    DivModNested(b, 4, 2);
    DivModNested(b, 8, 2);
    DivModNested(b, 16, 8);
  }

  // ---------------------------------------------------------------------
  // On-air duration of a packet
  // ---------------------------------------------------------------------

  /**
   * The duration, in microseconds, of a packet the reader times: its length
   * is taken from `lastPayloadLength` (the previous packet's payload length)
   * minus the 10-byte BLE header; its PHY and, on the Coded PHY, its coding
   * indicator (byte 20 of `list`, compared unmasked) from the packet itself.
   * An unknown PHY or coding indicator gives 0.
   */
  function PacketTime(lastPayloadLength: int, phy: Option<nat>, list: seq<byte>): Result<int, Fault>
  {
    var bleLength := lastPayloadLength - BLE_HEADER_LENGTH;
    match phy
    case None => Failure(MissingAttribute)
    case Some(ph) =>
      if ph == PHY_1M then Success(8 * (1 + bleLength))
      else if ph == PHY_2M then Success(4 * (2 + bleLength))
      else if ph == PHY_CODED then
        if |list| <= BLEPACKET_POS + 4 then Failure(ListIndexError)
        else
          var ci := list[BLEPACKET_POS + 4];
          var fec2BlockLength := bleLength - 4 - 1;
          var fec1BlockMicroseconds := 80 + 256 + 16 + 24;
          if ci == PHY_CODED_CI_S8 then Success(fec1BlockMicroseconds + 64 * fec2BlockLength + 24)
          else if ci == PHY_CODED_CI_S2 then Success(fec1BlockMicroseconds + 16 * fec2BlockLength + 6)
          else Success(0)
      else Success(0)
  }

  /**
   * Air time from the PHYs' bit timing, for `octets` bytes from the access
   * address to the CRC (the coding indicator counted as one of them): the 1M
   * PHY sends 1 bit per microsecond after a 1-octet preamble, the 2M PHY 2
   * bits per microsecond after a 2-octet preamble; the Coded PHY sends an
   * 80 microsecond preamble, then the access address (32 bits), the coding
   * indicator (2 bits) and TERM1 (3 bits) at 8 microseconds per bit, then the
   * remaining octets and TERM2 (3 bits) at S microseconds per bit, S being 8
   * or 2 by the coding indicator.
   */
  function AirTime(phy: nat, ci: nat, octets: int): Option<int>
  {
    if phy == PHY_1M then Some((1 + octets) * 8)
    else if phy == PHY_2M then Some((2 + octets) * 8 / 2)
    else if phy == PHY_CODED && ci in {PHY_CODED_CI_S8, PHY_CODED_CI_S2} then
      var s := if ci == PHY_CODED_CI_S8 then 8 else 2;
      Some(80 + 32 * 8 + 2 * 8 + 3 * 8 + (octets - 5) * 8 * s + 3 * s)
    else None
  }

  /** The reader's durations agree with the PHYs' bit timing. */
  lemma PacketTimeIsAirTime(lastPayloadLength: int, phy: nat, list: seq<byte>)
    requires |list| > BLEPACKET_POS + 4
    requires AirTime(phy, list[BLEPACKET_POS + 4], lastPayloadLength - BLE_HEADER_LENGTH).Some?
    ensures PacketTime(lastPayloadLength, Some(phy), list)
         == Success(AirTime(phy, list[BLEPACKET_POS + 4], lastPayloadLength - BLE_HEADER_LENGTH).value)
  {
  }

  /** The duration keyed on the previous packet. */
  function PacketTimeAfter(lastReceived: Packet?, phy: Option<nat>, list: seq<byte>): Result<int, Fault>
  {
    if lastReceived == null then Failure(NoLastPacket) else PacketTime(lastReceived.payloadLength, phy, list)
  }

  // ---------------------------------------------------------------------
  // Reading a BLE event
  // ---------------------------------------------------------------------

  /** The index of the padding byte the sniffer hardware inserts after the link-layer header. */
  function PaddingPosition(phy: nat): nat
  {
    if phy == PHY_CODED then BLEPACKET_POS + 6 + 1 else BLEPACKET_POS + 6
  }

  function RemoveAt(list: seq<byte>, i: nat): (r: seq<byte>)
    requires i < |list|
    ensures |r| == |list| - 1
    ensures forall j :: 0 <= j < i ==> r[j] == list[j]
    ensures forall j :: i <= j < |r| ==> r[j] == list[j + 1]
  {
    list[..i] + list[i + 1..]
  }

  /**
   * The length field rewritten after the padding byte is removed, as the
   * packet code writes it: versions 2 and 3 little-endian in bytes 0-1,
   * every other version (1, and also 0) in byte 1 alone.
   */
  function RewriteLengthFieldAsWritten(list: seq<byte>, protover: byte, payloadLength: nat): (r: seq<int>)
    requires |list| > PAYLOAD_LEN_POS_V1
    ensures |r| == |list|
    ensures forall i :: PROTOVER_POS <= i < |list| ==> r[i] == list[i]
    ensures protover < PROTOVER_V2 ==> r[PAYLOAD_LEN_POS] == list[PAYLOAD_LEN_POS] && r[PAYLOAD_LEN_POS_V1] == payloadLength
    ensures protover >= PROTOVER_V2 ==> r[PAYLOAD_LEN_POS] + 256 * r[PAYLOAD_LEN_POS_V1] == payloadLength % 65536
  {
    if protover >= PROTOVER_V2 then
      var lengthBytes := LittleEndianBytes(payloadLength, 2);
      list[PAYLOAD_LEN_POS := lengthBytes[0]][PAYLOAD_LEN_POS + 1 := lengthBytes[1]]
    else
      var l: seq<int> := list;
      l[PAYLOAD_LEN_POS_V1 := payloadLength]
  }

  /** The length field rewritten in the layout it is read in (byte 1 for version 1 only). */
  function RewriteLengthField(list: seq<byte>, protover: byte, payloadLength: nat): (r: seq<byte>)
    requires |list| > PAYLOAD_LEN_POS_V1
    ensures |r| == |list|
    ensures forall i :: PROTOVER_POS <= i < |list| ==> r[i] == list[i]
    ensures protover == PROTOVER_V1 ==> r[PAYLOAD_LEN_POS] == list[PAYLOAD_LEN_POS] && r[PAYLOAD_LEN_POS_V1] == payloadLength % 256
    ensures protover != PROTOVER_V1 ==> LittleEndianValue(r[PAYLOAD_LEN_POS .. PAYLOAD_LEN_POS + 2]) == payloadLength % Pow256(2)
  {
    if protover == PROTOVER_V1 then list[PAYLOAD_LEN_POS_V1 := payloadLength % 256]
    else
      var lengthBytes := LittleEndianBytes(payloadLength, 2);
      list[PAYLOAD_LEN_POS := lengthBytes[0]][PAYLOAD_LEN_POS + 1 := lengthBytes[1]]
  }

  /** What reading the BLE header of an event produces, including how far it got. */
  datatype EventFields = EventFields(
    bleHeaderLength: Option<byte>,
    flags: Option<Flags>,
    channel: Option<byte>,
    rawRssi: Option<byte>,
    eventCounter: Option<nat>,
    timestamp: Option<nat>,
    endToStart: int,
    list: seq<byte>,
    payloadLength: nat,
    headerLengthOk: bool,  // false when the BLE header length byte is not 10
    malformed: bool)       // reading stopped at a missing byte or field

  /**
   * Reads the BLE header of an accepted advertising or data event.  In
   * capture-file mode with a reader, the end-to-start time is the timestamp
   * itself (file type 1) or the gap since the end of the previous event;
   * read live, the padding byte is removed and the length field rewritten.
   */
  function ReadBleEvent(list: seq<byte>, h: Header, isParser: bool, hasReader: bool, fileType: int,
                        lastTimestampPacket: Packet?, lastReceived: Packet?): EventFields
    requires ReadHeader(list) == Success(h)
  {
    var start := EventFields(None, None, None, None, None, None, 0, list, h.payloadLength, true, false);
    if |list| <= BLE_HEADER_LEN_POS then start.(malformed := true)
    else
      var e1 := start.(bleHeaderLength := Some(list[BLE_HEADER_LEN_POS]));
      if list[BLE_HEADER_LEN_POS] != BLE_HEADER_LENGTH then e1.(headerLengthOk := false)
      else if |list| <= FLAGS_POS then e1.(malformed := true)
      else
        var f := ReadFlags(list[FLAGS_POS]);
        var e2 := e1.(flags := Some(f));
        if |list| <= CHANNEL_POS then e2.(malformed := true)
        else
          var e3 := e2.(channel := Some(list[CHANNEL_POS]));
          if |list| <= RSSI_POS then e3.(malformed := true)
          else
            var timestamp := LittleEndianValue(Slice(list, TIMESTAMP_POS, TIMESTAMP_POS + 4));
            var e4 := e3.(rawRssi := Some(list[RSSI_POS]),
                          eventCounter := Some(LittleEndianValue(Slice(list, EVENTCOUNTER_POS, EVENTCOUNTER_POS + 2))),
                          timestamp := Some(timestamp));
            if isParser then
              if !hasReader then e4
              else if fileType == 1 then e4.(endToStart := timestamp)
              else if lastTimestampPacket == null then e4
              else if lastTimestampPacket.timestamp.None? then e4.(malformed := true)
              else
                match PacketTimeAfter(lastReceived, Some(f.phy), list)
                case Failure(_) => e4.(malformed := true)
                case Success(t) => e4.(endToStart := timestamp - lastTimestampPacket.timestamp.value - t)
            else
              var padAt := PaddingPosition(f.phy);
              if |list| <= padAt then e4.(malformed := true)
              else
                var newLength := h.payloadLength - 1;
                e4.(list := RewriteLengthField(RemoveAt(list, padAt), h.protover, newLength), payloadLength := newLength)
  }

  /** Capture-file mode never changes the packet list. */
  lemma ParserModeKeepsList(list: seq<byte>, h: Header, hasReader: bool, fileType: int, lastTs: Packet?, lastReceived: Packet?)
    requires ReadHeader(list) == Success(h)
    ensures var ev := ReadBleEvent(list, h, true, hasReader, fileType, lastTs, lastReceived);
      ev.list == list && ev.payloadLength == h.payloadLength
  {
  }

  /**
   * Read live, an event whose BLE header is complete loses exactly the
   * padding byte (index 22, or 23 on the Coded PHY) and one unit of payload
   * length, and the rewritten list still reads back with the same header
   * and the new length.
   */
  lemma LiveModeRemovesPadding(list: seq<byte>, h: Header, hasReader: bool, fileType: int, lastTs: Packet?, lastReceived: Packet?)
    requires ReadHeader(list) == Success(h)
    requires |list| > RSSI_POS && list[BLE_HEADER_LEN_POS] == BLE_HEADER_LENGTH
    requires |list| > PaddingPosition(ReadFlags(list[FLAGS_POS]).phy)
    ensures var ev := ReadBleEvent(list, h, false, hasReader, fileType, lastTs, lastReceived);
      var padAt := PaddingPosition(ReadFlags(list[FLAGS_POS]).phy);
      !ev.malformed && ev.payloadLength == h.payloadLength - 1 && |ev.list| == |list| - 1 &&
      ev.list[..padAt] == RewriteLengthField(list[..padAt], h.protover, h.payloadLength - 1) &&
      ev.list[padAt..] == list[padAt + 1..] &&
      ReadHeader(ev.list) == Success(h.(payloadLength := h.payloadLength - 1))
  {
    var ev := ReadBleEvent(list, h, false, hasReader, fileType, lastTs, lastReceived);
    var padAt := PaddingPosition(ReadFlags(list[FLAGS_POS]).phy);
    var newLength := h.payloadLength - 1;
    var popped := RemoveAt(list, padAt);
    assert popped[PACKETCOUNTER_POS .. PACKETCOUNTER_POS + 2] == list[PACKETCOUNTER_POS .. PACKETCOUNTER_POS + 2];
    assert ev.list == RewriteLengthField(popped, h.protover, newLength);
    RewriteLengthFieldReadsBack(popped, h, newLength);
  }

  /** Rewriting the length field in the list's own layout makes the header read back with the new length. */
  lemma RewriteLengthFieldReadsBack(list: seq<byte>, h: Header, newLength: nat)
    requires |list| > ID_POS && newLength + HEADER_LENGTH == |list|
    requires list[PROTOVER_POS] == h.protover <= PROTOVER_V3 && list[ID_POS] == h.id
    requires LittleEndianValue(list[PACKETCOUNTER_POS .. PACKETCOUNTER_POS + 2]) == h.packetCounter
    requires h.protover == PROTOVER_V1 ==> newLength < 256
    requires newLength < 65536
    ensures ReadHeader(RewriteLengthField(list, h.protover, newLength)) == Success(h.(payloadLength := newLength))
  {
    var r := RewriteLengthField(list, h.protover, newLength);
    assert r[PROTOVER_POS] == h.protover && r[ID_POS] == h.id;
    assert r[PACKETCOUNTER_POS .. PACKETCOUNTER_POS + 2] == list[PACKETCOUNTER_POS .. PACKETCOUNTER_POS + 2];
    assert PayloadLengthField(r) == newLength by {
      if h.protover != PROTOVER_V1 {
        LittleEndianRoundTrip(newLength, 2);
        assert Pow256(2) == 65536;
        assert r[PAYLOAD_LEN_POS .. PAYLOAD_LEN_POS + 2] == LittleEndianBytes(newLength, 2);
      }
    }
    ReadHeaderOfFields(r);
  }

  /**
   * As written, a live version-0 event of 23 bytes (length 17 in bytes 0-1)
   * gets its new length 16 in byte 1 while byte 0 still holds 17, so its
   * length field, read little-endian as version 0 is, no longer matches.
   */
  lemma VersionZeroRewriteCounterexample()
    ensures var list := [17, 0, 0, 0, 0, EVENT_PACKET_DATA_PDU, 10, 0x01] + seq(15, _ => 0);
      |list| == 23 && ReadHeader(list) == Success(Header(0, 0, EVENT_PACKET_DATA_PDU, 17)) &&
      var r := RewriteLengthFieldAsWritten(RemoveAt(list, PaddingPosition(ReadFlags(list[FLAGS_POS]).phy)), 0, 16);
      |r| == 22 && r[0] == 17 && r[1] == 16 && r[0] + 256 * r[1] + HEADER_LENGTH != |r|
  {
    var list: seq<byte> := [17, 0, 0, 0, 0, EVENT_PACKET_DATA_PDU, 10, 0x01] + seq(15, _ => 0);
    assert list[0..2] == [17, 0];
    assert list[3..5] == [0, 0];
    assert LittleEndianValue([17, 0]) == 17 + 256 * LittleEndianValue([0]);
    assert LittleEndianValue([0, 0]) == 0 + 256 * LittleEndianValue([0]);
  }

  // ---------------------------------------------------------------------
  // Classifying a BLE event
  // ---------------------------------------------------------------------

  /**
   * Version 3 tells advertising from data by the message id; older versions
   * by whether the access address is the advertising one.
   */
  function PacketTypeOf(protover: byte, id: byte, list: seq<byte>): (t: nat)
    ensures t == PACKET_TYPE_ADVERTISING || t == PACKET_TYPE_DATA
  {
    if protover >= PROTOVER_V3 then
      (if id == EVENT_PACKET_ADV_PDU then PACKET_TYPE_ADVERTISING else PACKET_TYPE_DATA)
    else if Slice(list, BLEPACKET_POS, BLEPACKET_POS + 4) == ADV_ACCESS_ADDRESS then PACKET_TYPE_ADVERTISING
    else PACKET_TYPE_DATA
  }

  // ---------------------------------------------------------------------
  // Session state machines
  // ---------------------------------------------------------------------

  datatype ConnTimingState = ConnTimingInit | ConnTimingReq | ConnTimingDone

  datatype PhySwitchState = PhySwitchInit | PhySwitchReq | PhySwitchUpdate | PhySwitchChanging | PhySwitchDone

  /** The part of the session the BLE packet tracking reads and writes. */
  datatype Tracking = Tracking(
    lastBlePacket: Option<BlePacket>,
    detectedConnection: bool,
    connTiming: ConnTimingState,
    connTimingTime: Option<int>,
    phySwitch: PhySwitchState,
    phySwitchStart: Option<int>,
    phySwitchEnd: Option<int>,
    phySwitchTime: Option<int>,
    allTifs: seq<int>)

  /** One decoded BLE packet as the tracking sees it. */
  datatype Observation = Observation(
    isParser: bool,
    packetType: nat,
    ble: BlePacket,
    phy: nat,
    direction: bool,
    endToStart: int,
    packetTimeFromPcap: int)

  const INITIAL_TRACKING: Tracking :=
    Tracking(None, false, ConnTimingInit, None, PhySwitchInit, None, None, None, [])

  /**
   * Capture-file mode: a CONNECT_IND after an earlier BLE packet marks a
   * connection; any other advertising packet clears it and re-arms a finished
   * connection timing.
   */
  function DetectConnection(s: Tracking, o: Observation): Tracking
  {
    if !o.isParser then s
    else if o.ble.AdvType() == Some(PDU_TYPE_CONNECT_IND) && s.lastBlePacket.Some? then s.(detectedConnection := true)
    else if o.packetType != PACKET_TYPE_DATA then
      s.(detectedConnection := false, connTiming := if s.connTiming == ConnTimingDone then ConnTimingInit else s.connTiming)
    else s
  }

  /** Connection timing: armed by a detected connection, finished by the next data packet. */
  function CheckConnectionTiming(s: Tracking, o: Observation): Tracking
  {
    if s.detectedConnection && s.connTiming == ConnTimingInit then s.(connTiming := ConnTimingReq)
    else if s.connTiming == ConnTimingReq && o.packetType == PACKET_TYPE_DATA then
      s.(connTiming := ConnTimingDone, connTimingTime := Some(o.endToStart))
    else s
  }

  /** An LL_PHY_REQ control PDU: LLID 3, six payload bytes, opcode 0x16. */
  predicate IsPhyRequest(o: Observation)
  {
    o.packetType == PACKET_TYPE_DATA && o.ble.Llid() == Some(3) && |o.ble.payload| == 6 && o.ble.payload[0] == 0x16
  }

  /**
   * Capture-file mode: an LL_PHY_REQ starts the PHY-switch timer; the next
   * packet on the 2M PHY stops it.  (A request state always has a start
   * time, see TrackingInvariant.)
   */
  function CheckPhySwitch(s: Tracking, o: Observation): Tracking
  {
    if !o.isParser then s
    else
      var s1 := if IsPhyRequest(o) then s.(phySwitch := PhySwitchReq, phySwitchStart := Some(o.packetTimeFromPcap)) else s;
      if s1.phySwitch == PhySwitchReq && o.phy == PHY_2M then
        match s1.phySwitchStart
        case Some(start) =>
          s1.(phySwitch := PhySwitchDone, phySwitchEnd := Some(o.packetTimeFromPcap),
              phySwitchTime := Some(o.packetTimeFromPcap - start))
        case None => s1
      else s1
  }

  /** Inter-frame spacing: a data packet from the peripheral in a detected connection adds a sample. */
  function CheckTifs(s: Tracking, o: Observation): Tracking
  {
    if s.lastBlePacket.Some? && o.packetType == PACKET_TYPE_DATA && s.detectedConnection && !o.direction then
      s.(allTifs := s.allTifs + [o.endToStart])
    else s
  }

  /** All tracking for one decoded BLE packet, which then becomes the last one. */
  function TrackStep(s: Tracking, o: Observation): Tracking
  {
    CheckTifs(CheckPhySwitch(CheckConnectionTiming(DetectConnection(s, o), o), o), o).(lastBlePacket := Some(o.ble))
  }

  /** Tracking over a sequence of decoded BLE packets. */
  function TrackAll(s: Tracking, obs: seq<Observation>): Tracking
    decreases |obs|
  {
    if obs == [] then s else TrackAll(TrackStep(s, obs[0]), obs[1..])
  }

  /**
   * A PHY-switch request always has its start time, a finished switch its
   * times with time = end - start, a finished connection timing its time, and
   * the unused UPDATE and CHANGING states are never entered.
   */
  ghost predicate TrackingInvariant(s: Tracking)
  {
    (s.phySwitch == PhySwitchReq ==> s.phySwitchStart.Some?) &&
    (s.phySwitch == PhySwitchDone ==>
       s.phySwitchStart.Some? && s.phySwitchEnd.Some? &&
       s.phySwitchTime == Some(s.phySwitchEnd.value - s.phySwitchStart.value)) &&
    (s.connTiming == ConnTimingDone ==> s.connTimingTime.Some?) &&
    s.phySwitch != PhySwitchUpdate && s.phySwitch != PhySwitchChanging
  }

  lemma TrackStepPreservesInvariant(s: Tracking, o: Observation)
    requires TrackingInvariant(s)
    ensures TrackingInvariant(TrackStep(s, o))
  {
    var s1 := DetectConnection(s, o);
    DetectionPreservesInvariant(s, o);
    var s2 := CheckConnectionTiming(s1, o);
    ConnTimingPreservesInvariant(s1, o);
    var s3 := CheckPhySwitch(s2, o);
    PhySwitchPreservesInvariant(s2, o);
    var s4 := CheckTifs(s3, o);
    assert TrackingInvariant(s4);
    assert TrackStep(s, o) == s4.(lastBlePacket := Some(o.ble));
  }

  lemma DetectionPreservesInvariant(s: Tracking, o: Observation)
    requires TrackingInvariant(s)
    ensures TrackingInvariant(DetectConnection(s, o))
  {
  }

  lemma ConnTimingPreservesInvariant(s: Tracking, o: Observation)
    requires TrackingInvariant(s)
    ensures TrackingInvariant(CheckConnectionTiming(s, o))
  {
  }

  lemma PhySwitchPreservesInvariant(s: Tracking, o: Observation)
    requires TrackingInvariant(s)
    ensures TrackingInvariant(CheckPhySwitch(s, o))
  {
  }

  /** The possible moves of the connection-timing state in one step. */
  predicate ConnTimingMove(a: ConnTimingState, b: ConnTimingState)
  {
    a == b ||
    (a == ConnTimingInit && b == ConnTimingReq) ||
    (a == ConnTimingReq && b == ConnTimingDone) ||
    (a == ConnTimingDone && b == ConnTimingInit)
  }

  /**
   * Connection timing moves INIT -> REQ -> DONE -> INIT one step at a time:
   * REQ is entered only with a connection detected, DONE only on a data
   * packet, recording that packet's end-to-start time, and DONE goes back to
   * INIT only on an advertising packet in capture-file mode.
   */
  lemma ConnTimingMoves(s: Tracking, o: Observation)
    ensures var t := TrackStep(s, o);
      ConnTimingMove(s.connTiming, t.connTiming) &&
      (s.connTiming == ConnTimingInit && t.connTiming == ConnTimingReq ==> t.detectedConnection) &&
      (s.connTiming != ConnTimingDone && t.connTiming == ConnTimingDone ==>
         o.packetType == PACKET_TYPE_DATA && t.connTimingTime == Some(o.endToStart)) &&
      (s.connTiming == ConnTimingDone && t.connTiming == ConnTimingInit ==>
         o.isParser && o.packetType != PACKET_TYPE_DATA)
  {
  }

  /**
   * The sample list only grows, by at most the packet's end-to-start time,
   * and only for a data packet from the peripheral in a detected connection
   * that follows an earlier BLE packet.
   */
  lemma TifsAppendOnly(s: Tracking, o: Observation)
    ensures var t := TrackStep(s, o);
      t.allTifs == s.allTifs ||
      (t.allTifs == s.allTifs + [o.endToStart] && o.packetType == PACKET_TYPE_DATA && !o.direction &&
       s.lastBlePacket.Some? && t.detectedConnection)
  {
  }

  /** Read live, no connection is detected and the PHY switch is not timed. */
  lemma LiveTrackingLeavesDetectionAlone(s: Tracking, o: Observation)
    requires !o.isParser
    ensures var t := TrackStep(s, o);
      t.detectedConnection == s.detectedConnection && t.phySwitch == s.phySwitch &&
      t.phySwitchStart == s.phySwitchStart && t.phySwitchEnd == s.phySwitchEnd && t.phySwitchTime == s.phySwitchTime
  {
  }

  /** A PHY switch times the gap between the LL_PHY_REQ and the next packet on the 2M PHY. */
  lemma PhySwitchTimed(s: Tracking, req: Observation, next: Observation)
    requires req.isParser && next.isParser && IsPhyRequest(req) && req.phy != PHY_2M
    requires next.phy == PHY_2M && !IsPhyRequest(next)
    ensures var t := TrackStep(TrackStep(s, req), next);
      t.phySwitch == PhySwitchDone && t.phySwitchTime == Some(next.packetTimeFromPcap - req.packetTimeFromPcap)
  {
  }

  /** Some data packet from the peripheral in `obs` had end-to-start time `x`. */
  ghost predicate SampledFrom(x: int, obs: seq<Observation>)
  {
    exists j :: 0 <= j < |obs| && obs[j].endToStart == x && obs[j].packetType == PACKET_TYPE_DATA && !obs[j].direction
  }

  /** Over any run the invariant holds and earlier samples are kept; every new sample came from a packet of the run. */
  lemma {:induction false} TrackAllKeepsSamples(s: Tracking, obs: seq<Observation>)
    requires TrackingInvariant(s)
    ensures var t := TrackAll(s, obs);
      TrackingInvariant(t) && s.allTifs <= t.allTifs &&
      forall k :: |s.allTifs| <= k < |t.allTifs| ==> SampledFrom(t.allTifs[k], obs)
    decreases |obs|
  {
    if obs != [] {
      var s1 := TrackStep(s, obs[0]);
      TrackStepPreservesInvariant(s, obs[0]);
      TifsAppendOnly(s, obs[0]);
      TrackAllKeepsSamples(s1, obs[1..]);
      var t := TrackAll(s1, obs[1..]);
      assert TrackAll(s, obs) == t;
      SamplesCombine(s.allTifs, s1.allTifs, t.allTifs, obs);
    }
  }

  /** The samples of one step followed by those of the rest of the run all come from the run. */
  lemma SamplesCombine(a: seq<int>, b: seq<int>, c: seq<int>, obs: seq<Observation>)
    requires |obs| > 0
    requires b == a || (b == a + [obs[0].endToStart] && obs[0].packetType == PACKET_TYPE_DATA && !obs[0].direction)
    requires b <= c && forall k :: |b| <= k < |c| ==> SampledFrom(c[k], obs[1..])
    ensures a <= c && forall k :: |a| <= k < |c| ==> SampledFrom(c[k], obs)
  {
    forall k | |a| <= k < |c|
      ensures SampledFrom(c[k], obs)
    {
      if k < |b| {
        assert c[k] == b[k] == obs[0].endToStart;
      } else {
        assert SampledFrom(c[k], obs[1..]);
        var j :| 0 <= j < |obs[1..]| && obs[1..][j].endToStart == c[k] &&
                 obs[1..][j].packetType == PACKET_TYPE_DATA && !obs[1..][j].direction;
        assert obs[j + 1] == obs[1..][j];
      }
    }
  }

  // ---------------------------------------------------------------------
  // Counter gaps
  // ---------------------------------------------------------------------

  /**
   * A gap is reported when the counter is not the previous one plus one
   * (modulo 65536), unless the previous counter was 0.
   */
  predicate CounterGap(previous: nat, next: nat)
  {
    next != (previous + 1) % PACKET_COUNTER_CAP && previous != 0
  }

  /** Consecutive counters, including the wrap from 65535 to 0, are never a gap; a skipped one is. */
  lemma CounterGapOnlyWhenSkipped(previous: nat, next: nat)
    requires previous < PACKET_COUNTER_CAP && next < PACKET_COUNTER_CAP
    ensures !CounterGap(previous, (previous + 1) % PACKET_COUNTER_CAP)
    ensures !CounterGap(PACKET_COUNTER_CAP - 1, 0)
    ensures previous != 0 ==> (CounterGap(previous, next) <==> next != (previous + 1) % PACKET_COUNTER_CAP)
  {
  }

  // ---------------------------------------------------------------------
  // Downgrade to protocol version 2
  // ---------------------------------------------------------------------

  /** Version byte set to 2; an advertising event id becomes the common data event id. */
  function DowngradeHeader(list: seq<byte>): (r: seq<byte>)
    requires |list| > ID_POS
    ensures |r| == |list|
    ensures r[PROTOVER_POS] == PROTOVER_V2 && r[ID_POS] != EVENT_PACKET_ADV_PDU
    ensures list[ID_POS] != EVENT_PACKET_ADV_PDU ==> r[ID_POS] == list[ID_POS]
    ensures forall i :: 0 <= i < |list| && i != PROTOVER_POS && i != ID_POS ==> r[i] == list[i]
  {
    var l := list[PROTOVER_POS := PROTOVER_V2];
    if l[ID_POS] == EVENT_PACKET_ADV_PDU then l[ID_POS := EVENT_PACKET_DATA_PDU] else l
  }

  /** The timestamp bytes 12-15 (those within the list) overwritten by a 32-bit little-endian delta. */
  function WriteTimeDelta(list: seq<byte>, delta: int): (r: seq<byte>)
    ensures |r| == |list|
    ensures forall i :: 0 <= i < |list| && !(TIMESTAMP_POS <= i < TIMESTAMP_POS + 4) ==> r[i] == list[i]
    ensures forall i :: TIMESTAMP_POS <= i < TIMESTAMP_POS + 4 && i < |list| ==>
      r[i] == LittleEndianBytes(delta, 4)[i - TIMESTAMP_POS]
    ensures |list| >= TIMESTAMP_POS + 4 ==> r[TIMESTAMP_POS .. TIMESTAMP_POS + 4] == LittleEndianBytes(delta, 4)
  {
    var d := LittleEndianBytes(delta, 4);
    var r := seq(|list|, i requires 0 <= i < |list| =>
      if TIMESTAMP_POS <= i < TIMESTAMP_POS + 4 then d[i - TIMESTAMP_POS] else list[i]);
    assert |list| >= TIMESTAMP_POS + 4 ==> r[TIMESTAMP_POS .. TIMESTAMP_POS + 4] == d by {
      if |list| >= TIMESTAMP_POS + 4 {
        assert forall k :: 0 <= k < 4 ==> r[TIMESTAMP_POS .. TIMESTAMP_POS + 4][k] == d[k];
      }
    }
    r
  }

  /** Once the field is written up to k, and k is 4 or the list ends there, the list is WriteTimeDelta's. */
  lemma TimeDeltaWritten(l: seq<byte>, cur: seq<byte>, delta: int, k: nat)
    requires |cur| == |l| && k <= 4 && (k == 4 || TIMESTAMP_POS + k >= |l|)
    requires forall i :: 0 <= i < |l| ==>
      cur[i] == (if TIMESTAMP_POS <= i < TIMESTAMP_POS + k then LittleEndianBytes(delta, 4)[i - TIMESTAMP_POS] else l[i])
    ensures cur == WriteTimeDelta(l, delta)
  {
    var w := WriteTimeDelta(l, delta);
    forall i | 0 <= i < |l|
      ensures cur[i] == w[i]
    {
    }
  }

  /**
   * The downgraded event list: version 2, id 6, the delta in the timestamp
   * field, modulo 2^32 (two's complement when negative), and every other
   * byte as it was; a valid version-3 list is then a valid version-2 list
   * with the same counter and length.
   */
  lemma DowngradeProperties(list: seq<byte>, delta: int)
    requires |list| >= TIMESTAMP_POS + 4 && list[ID_POS] in {EVENT_PACKET_ADV_PDU, EVENT_PACKET_DATA_PDU}
    ensures var r := WriteTimeDelta(DowngradeHeader(list), delta);
      |r| == |list| && r[PROTOVER_POS] == PROTOVER_V2 && r[ID_POS] == EVENT_PACKET_DATA_PDU &&
      LittleEndianValue(r[TIMESTAMP_POS .. TIMESTAMP_POS + 4]) == delta % Pow256(4) &&
      (forall i :: 0 <= i < |list| && i != PROTOVER_POS && i != ID_POS && !(TIMESTAMP_POS <= i < TIMESTAMP_POS + 4) ==>
         r[i] == list[i]) &&
      (ReadHeader(list).Success? && list[PROTOVER_POS] == PROTOVER_V3 ==>
         ReadHeader(r) == Success(ReadHeader(list).value.(protover := PROTOVER_V2, id := EVENT_PACKET_DATA_PDU)))
  {
    var r := WriteTimeDelta(DowngradeHeader(list), delta);
    assert r[TIMESTAMP_POS .. TIMESTAMP_POS + 4] == LittleEndianBytes(delta, 4);
    LittleEndianRoundTrip(delta, 4);
    assert r[PAYLOAD_LEN_POS .. PAYLOAD_LEN_POS + 2] == list[PAYLOAD_LEN_POS .. PAYLOAD_LEN_POS + 2];
    assert r[PACKETCOUNTER_POS .. PACKETCOUNTER_POS + 2] == list[PACKETCOUNTER_POS .. PACKETCOUNTER_POS + 2];
  }

  datatype Compatibility = Unchanged | HeaderDowngraded | TimestampDowngraded(delta: int)

  /** Why getPacket yields no packet: the serial read failed, or the downgrade of the packet faulted. */
  datatype ReceiveError = SerialFault(slip: Slip.SlipError) | CompatibilityFault(fault: Fault)

  /** A received firmware version: a revision number or a version string. */
  datatype FirmwareVersion = Revision(number: nat) | VersionString(text: string)

  // ---------------------------------------------------------------------
  // The transport packet
  // ---------------------------------------------------------------------

  /**
   * A received transport packet.  Everything read from the list is fixed at
   * construction; only the list itself is rewritten later, by the downgrade.
   */
  class Packet {
    const isParser: bool
    const valid: bool
    const ok: bool
    const protover: byte
    const packetCounter: nat
    const id: byte
    const payloadLength: nat
    const payload: seq<byte>
    const bleHeaderLength: Option<byte>
    const flags: Option<Flags>
    const channel: Option<byte>
    const rawRssi: Option<byte>
    const eventCounter: Option<nat>
    const timestamp: Option<nat>
    const endToStart: int
    const blePacket: Option<BlePacket>
    const version: Option<FirmwareVersion>
    const baudRate: Option<nat>
    var packetList: seq<byte>

    function Phy(): Option<nat>
    {
      if flags.Some? then Some(flags.value.phy) else None
    }

    function Direction(): bool
    {
      flags.Some? && flags.value.direction
    }

    /** The RSSI is reported as a magnitude; its value is the negation. */
    function Rssi(): Option<int>
    {
      if rawRssi.Some? then var magnitude: int := rawRssi.value; Some(-magnitude) else None
    }

    /**
     * Parses a packet list.  `isParser` selects capture-file mode, in which
     * the list is never changed and the reader's connection, PHY-switch and
     * inter-frame-spacing tracking is updated; read live the hardware's
     * padding byte is removed.  `packetTimeFromPcap` is the capture time the
     * PHY-switch timer uses.
     */
    constructor (packetList: seq<byte>, isParser: bool, reader: PacketReader?, fileType: int, packetTimeFromPcap: int)
      requires isParser ==> reader != null
      requires reader != null ==> reader.Valid()
      modifies reader
      ensures this.isParser == isParser
      ensures var h := ReadHeader(packetList);
        (h.Failure? ==> !valid && !ok && blePacket.None? && this.packetList == packetList) &&
        (h.Success? ==>
           protover == h.value.protover && packetCounter == h.value.packetCounter && id == h.value.id &&
           payload == packetList[PAYLOAD_POS..] &&
           var ev := EventOf(packetList, h.value, isParser, reader != null, fileType,
                             if reader != null then old(reader.lastReceivedTimestampPacket) else null,
                             if reader != null then old(reader.lastReceivedPacket) else null);
           valid == ev.headerLengthOk &&
           ok == (IsBleEvent(id) && !ev.malformed && ev.flags.Some? && PacketOk(ev.flags.value)) &&
           this.packetList == ev.list && payloadLength == ev.payloadLength &&
           bleHeaderLength == ev.bleHeaderLength && flags == ev.flags && channel == ev.channel &&
           rawRssi == ev.rawRssi && eventCounter == ev.eventCounter && endToStart == ev.endToStart &&
           (IsBleEvent(id) ==> timestamp == ev.timestamp))
      ensures valid ==> ReadHeader(this.packetList) == Success(Header(protover, packetCounter, id, payloadLength))
      ensures isParser ==> this.packetList == packetList
      ensures ok ==> valid && IsBleEvent(id) && flags.Some?
      ensures blePacket.Some? <==>
        ok && BlePacketOf(PacketTypeOf(protover, id, this.packetList), From(this.packetList, BLEPACKET_POS),
                          flags.value.phy, isParser).Success?
      ensures blePacket.Some? ==>
        blePacket.value == BlePacketOf(PacketTypeOf(protover, id, this.packetList), From(this.packetList, BLEPACKET_POS),
                                       flags.value.phy, isParser).value
      ensures reader != null ==>
        reader.Valid() &&
        reader.packetCounter == old(reader.packetCounter) &&
        reader.lastReceivedPacket == old(reader.lastReceivedPacket) &&
        reader.lastReceivedTimestampPacket == old(reader.lastReceivedTimestampPacket) &&
        reader.supportedProtocolVersion == old(reader.supportedProtocolVersion) &&
        reader.TrackingState() ==
          (if blePacket.Some? then
             TrackStep(old(reader.TrackingState()),
                       Observation(isParser, PacketTypeOf(protover, id, this.packetList), blePacket.value,
                                   flags.value.phy, flags.value.direction, endToStart, packetTimeFromPcap))
           else old(reader.TrackingState()))
    {
      this.isParser := isParser;
      var h := ReadHeader(packetList);
      var isValid := false;
      var isOk := false;
      var ver: byte := 0;
      var counter: nat := 0;
      var msgId: byte := 0;
      var list := packetList;
      var pl: nat := 0;
      var pay: seq<byte> := [];
      var ev := EventFields(None, None, None, None, None, None, 0, packetList, 0, true, false);
      var ts: Option<nat> := None;
      var fw: Option<FirmwareVersion> := None;
      var baud: Option<nat> := None;
      var ble: Option<BlePacket> := None;
      if h.Success? {
        ver, counter, msgId := h.value.protover, h.value.packetCounter, h.value.id;
        pay := Slice(packetList, PAYLOAD_POS, PAYLOAD_POS + h.value.payloadLength);
        assert pay == packetList[PAYLOAD_POS..];
        if IsBleEvent(msgId) {
          var lastTs := if reader != null then reader.lastReceivedTimestampPacket else null;
          var lastReceived := if reader != null then reader.lastReceivedPacket else null;
          ev := ReadBleEvent(packetList, h.value, isParser, reader != null, fileType, lastTs, lastReceived);
          ts := ev.timestamp;
          isOk := !ev.malformed && ev.flags.Some? && PacketOk(ev.flags.value);
          list := ev.list;
          ParserModeKeepsRest(packetList, h.value, isParser, reader != null, fileType, lastTs, lastReceived);
          if isOk {
            var f := ev.flags.value;
            var packetType := PacketTypeOf(ver, msgId, list);
            var parsed := ParseBlePacket(packetType, From(list, BLEPACKET_POS), f.phy, isParser);
            if parsed.Success? {
              ble := Some(parsed.value);
              if reader != null {
                reader.TrackBlePacket(Observation(isParser, packetType, parsed.value, f.phy, f.direction,
                                                  ev.endToStart, packetTimeFromPcap));
              }
            }
          }
        } else {
          ev := EventFields(None, None, None, None, None, None, 0, packetList, h.value.payloadLength, true, false);
          if msgId == PING_RESP {
            if ver < PROTOVER_V3 {
              fw := Some(Revision(LittleEndianValue(Slice(packetList, PAYLOAD_POS, PAYLOAD_POS + 2))));
            }
          } else if msgId == RESP_VERSION {
            fw := Some(VersionString(Chars(From(packetList, PAYLOAD_POS))));
          } else if msgId == RESP_TIMESTAMP {
            ts := Some(LittleEndianValue(Slice(packetList, PAYLOAD_POS, PAYLOAD_POS + 4)));
          } else if msgId == SWITCH_BAUD_RATE_RESP || msgId == SWITCH_BAUD_RATE_REQ {
            baud := Some(LittleEndianValue(Slice(packetList, PAYLOAD_POS, PAYLOAD_POS + 4)));
          }
        }
        isValid := ev.headerLengthOk;
        pl := ev.payloadLength;
      }
      valid := isValid;
      ok := isOk;
      protover := ver;
      this.packetCounter := counter;
      id := msgId;
      payloadLength := pl;
      payload := pay;
      bleHeaderLength := ev.bleHeaderLength;
      flags := ev.flags;
      channel := ev.channel;
      rawRssi := ev.rawRssi;
      eventCounter := ev.eventCounter;
      timestamp := ts;
      endToStart := ev.endToStart;
      blePacket := ble;
      version := fw;
      baudRate := baud;
      this.packetList := list;
    }
  }

  /**
   * Whatever mode, a read BLE event keeps a list that reads back with its
   * header and new length, and leaves the list alone when the BLE header is
   * rejected; in capture-file mode the list never changes.
   */
  lemma ParserModeKeepsRest(list: seq<byte>, h: Header, isParser: bool, hasReader: bool, fileType: int,
                            lastTs: Packet?, lastReceived: Packet?)
    requires ReadHeader(list) == Success(h)
    ensures var ev := ReadBleEvent(list, h, isParser, hasReader, fileType, lastTs, lastReceived);
      ReadHeader(ev.list) == Success(h.(payloadLength := ev.payloadLength)) &&
      (isParser ==> ev.list == list) &&
      (!ev.headerLengthOk ==> ev.flags.None? && ev.list == list) &&
      (ev.flags.None? ==> ev.list == list)
  {
    var ev := ReadBleEvent(list, h, isParser, hasReader, fileType, lastTs, lastReceived);
    if ev.list != list {
      LiveModeRemovesPadding(list, h, hasReader, fileType, lastTs, lastReceived);
    }
  }

  /**
   * The fields and list a packet is built from once its header is read: a
   * BLE event reads its BLE header, any other event keeps its list and
   * length.  The list keeps the header's version and id bytes.
   */
  function EventOf(list: seq<byte>, h: Header, isParser: bool, hasReader: bool, fileType: int,
                   lastTs: Packet?, lastReceived: Packet?): (ev: EventFields)
    requires ReadHeader(list) == Success(h)
    ensures |ev.list| > ID_POS && ev.list[PROTOVER_POS] == h.protover && ev.list[ID_POS] == h.id
    ensures !IsBleEvent(h.id) ==> ev.list == list && ev.headerLengthOk
  {
    ParserModeKeepsRest(list, h, isParser, hasReader, fileType, lastTs, lastReceived);
    ReadHeaderAccepts(list);
    ReadHeaderAccepts(ReadBleEvent(list, h, isParser, hasReader, fileType, lastTs, lastReceived).list);
    if IsBleEvent(h.id) then ReadBleEvent(list, h, isParser, hasReader, fileType, lastTs, lastReceived)
    else EventFields(None, None, None, None, None, None, 0, list, h.payloadLength, true, false)
  }

  // ---------------------------------------------------------------------
  // The reader session
  // ---------------------------------------------------------------------

  /**
   * A reader session: the outgoing packet counter, the packets last
   * received, the protocol version the consumer supports, and the tracking
   * of connections, PHY switches and inter-frame spacing samples.
   */
  class PacketReader {
    const isParser: bool
    var packetCounter: nat
    var lastReceivedPacket: Packet?
    var lastReceivedTimestampPacket: Packet?
    var supportedProtocolVersion: nat
    var lastBlePacket: Option<BlePacket>
    var detectedConnection: bool
    var connTimingState: ConnTimingState
    var connTimingTime: Option<int>
    var phySwitchState: PhySwitchState
    var phySwitchStart: Option<int>
    var phySwitchEnd: Option<int>
    var phySwitchTime: Option<int>
    var allTifs: seq<int>

    /** The tracking fields as one value. */
    function TrackingState(): Tracking
      reads this
    {
      Tracking(lastBlePacket, detectedConnection, connTimingState, connTimingTime,
               phySwitchState, phySwitchStart, phySwitchEnd, phySwitchTime, allTifs)
    }

    /** A timestamp packet is always also the last packet, or an earlier one; it is a BLE event. */
    ghost predicate Valid()
      reads this
    {
      (lastReceivedTimestampPacket != null ==>
         lastReceivedPacket != null && IsBleEvent(lastReceivedTimestampPacket.id)) &&
      TrackingInvariant(TrackingState())
    }

    constructor (pcapngParser: bool)
      ensures Valid()
      ensures isParser == pcapngParser && packetCounter == 0
      ensures lastReceivedPacket == null && lastReceivedTimestampPacket == null
      ensures supportedProtocolVersion == PROTOVER_V3 as nat
      ensures TrackingState() == INITIAL_TRACKING
    {
      isParser := pcapngParser;
      packetCounter := 0;
      lastReceivedPacket := null;
      lastReceivedTimestampPacket := null;
      supportedProtocolVersion := PROTOVER_V3 as nat;
      lastBlePacket := None;
      detectedConnection := false;
      connTimingState := ConnTimingInit;
      connTimingTime := None;
      phySwitchState := PhySwitchInit;
      phySwitchStart := None;
      phySwitchEnd := None;
      phySwitchTime := None;
      allTifs := [];
    }

    /** Applies the tracking for one decoded BLE packet. */
    method TrackBlePacket(o: Observation)
      requires Valid()
      modifies this
      ensures Valid()
      ensures TrackingState() == TrackStep(old(TrackingState()), o)
      ensures packetCounter == old(packetCounter) && supportedProtocolVersion == old(supportedProtocolVersion)
      ensures lastReceivedPacket == old(lastReceivedPacket)
      ensures lastReceivedTimestampPacket == old(lastReceivedTimestampPacket)
    {
      TrackStepPreservesInvariant(TrackingState(), o);
      DetectConnectionStep(o);
      ConnectionTimingStep(o);
      PhySwitchStep(o);
      TifsStep(o);
      lastBlePacket := Some(o.ble);
    }

    method DetectConnectionStep(o: Observation)
      modifies this
      ensures TrackingState() == DetectConnection(old(TrackingState()), o)
      ensures packetCounter == old(packetCounter) && supportedProtocolVersion == old(supportedProtocolVersion)
      ensures lastReceivedPacket == old(lastReceivedPacket)
      ensures lastReceivedTimestampPacket == old(lastReceivedTimestampPacket)
    {
      if o.isParser {
        if o.ble.AdvType() == Some(PDU_TYPE_CONNECT_IND) && lastBlePacket.Some? {
          detectedConnection := true;
        } else if o.packetType != PACKET_TYPE_DATA {
          detectedConnection := false;
          if connTimingState == ConnTimingDone {
            connTimingState := ConnTimingInit;
          }
        }
      }
    }

    method ConnectionTimingStep(o: Observation)
      modifies this
      ensures TrackingState() == CheckConnectionTiming(old(TrackingState()), o)
      ensures packetCounter == old(packetCounter) && supportedProtocolVersion == old(supportedProtocolVersion)
      ensures lastReceivedPacket == old(lastReceivedPacket)
      ensures lastReceivedTimestampPacket == old(lastReceivedTimestampPacket)
    {
      if detectedConnection && connTimingState == ConnTimingInit {
        connTimingState := ConnTimingReq;
      } else if connTimingState == ConnTimingReq && o.packetType == PACKET_TYPE_DATA {
        connTimingState := ConnTimingDone;
        connTimingTime := Some(o.endToStart);
      }
    }

    method PhySwitchStep(o: Observation)
      requires phySwitchState == PhySwitchReq ==> phySwitchStart.Some?
      modifies this
      ensures TrackingState() == CheckPhySwitch(old(TrackingState()), o)
      ensures packetCounter == old(packetCounter) && supportedProtocolVersion == old(supportedProtocolVersion)
      ensures lastReceivedPacket == old(lastReceivedPacket)
      ensures lastReceivedTimestampPacket == old(lastReceivedTimestampPacket)
    {
      if o.isParser {
        if IsPhyRequest(o) {
          phySwitchState := PhySwitchReq;
          phySwitchStart := Some(o.packetTimeFromPcap);
        }
        if phySwitchState == PhySwitchReq && o.phy == PHY_2M {
          phySwitchState := PhySwitchDone;
          phySwitchEnd := Some(o.packetTimeFromPcap);
          phySwitchTime := Some(o.packetTimeFromPcap - phySwitchStart.value);
        }
      }
    }

    method TifsStep(o: Observation)
      modifies this
      ensures TrackingState() == CheckTifs(old(TrackingState()), o)
      ensures packetCounter == old(packetCounter) && supportedProtocolVersion == old(supportedProtocolVersion)
      ensures lastReceivedPacket == old(lastReceivedPacket)
      ensures lastReceivedTimestampPacket == old(lastReceivedTimestampPacket)
    {
      if lastBlePacket.Some? && o.packetType == PACKET_TYPE_DATA && detectedConnection && !o.direction {
        allTifs := allTifs + [o.endToStart];
      }
    }

    /**
     * Records a received valid packet as the last one (and as the last
     * timestamp packet when it is a BLE event); reports whether its counter
     * shows a gap after the previous packet.
     */
    method HandlePacketHistory(packet: Packet) returns (gap: bool)
      requires Valid()
      modifies this
      ensures Valid()
      ensures gap <==> old(lastReceivedPacket) != null &&
                       CounterGap(old(lastReceivedPacket.packetCounter), packet.packetCounter)
      ensures lastReceivedPacket == packet
      ensures lastReceivedTimestampPacket ==
                (if IsBleEvent(packet.id) then packet else old(lastReceivedTimestampPacket))
      ensures TrackingState() == old(TrackingState())
      ensures packetCounter == old(packetCounter) && supportedProtocolVersion == old(supportedProtocolVersion)
    {
      gap := lastReceivedPacket != null &&
             packet.packetCounter != (lastReceivedPacket.packetCounter + 1) % PACKET_COUNTER_CAP &&
             lastReceivedPacket.packetCounter != 0;
      lastReceivedPacket := packet;
      if packet.id in [EVENT_PACKET_DATA_PDU, EVENT_PACKET_ADV_PDU] {
        lastReceivedTimestampPacket := packet;
      }
    }

    /** The duration of `packet`, with the length of the last received packet. */
    function GetPacketTime(packet: Packet): Result<int, Fault>
      reads this`lastReceivedPacket, packet
    {
      PacketTimeAfter(lastReceivedPacket, packet.Phy(), packet.packetList)
    }

    /**
     * The end-to-start delta the downgrade stores: 0 without a valid last
     * timestamp packet, otherwise this packet's timestamp minus the end of
     * that packet.
     */
    function TimeDelta(timestamp: Option<nat>): Result<int, Fault>
      reads this`lastReceivedPacket, this`lastReceivedTimestampPacket, lastReceivedTimestampPacket
    {
      var last := lastReceivedTimestampPacket;
      if last == null || !last.valid then Success(0)
      else if timestamp.None? || last.timestamp.None? then Failure(MissingAttribute)
      else
        match GetPacketTime(last)
        case Failure(e) => Failure(e)
        case Success(t) => Success(timestamp.value - (last.timestamp.value + t))
    }

    /**
     * What the downgrade to version 2 makes of a packet's list and timestamp
     * in this state: its outcome and the new list.  The list is the
     * downgraded header, and other events than BLE events never fault;
     * a data event also gets the end-to-start delta after the last
     * timestamped packet in its timestamp field, unless computing the delta
     * faults first.  A list too short for the field faults after the bytes
     * that fit are written.
     */
    function Downgraded(list: seq<byte>, timestamp: Option<nat>): (d: (Result<Compatibility, Fault>, seq<byte>))
      requires |list| > ID_POS
      reads this`lastReceivedPacket, this`lastReceivedTimestampPacket, lastReceivedTimestampPacket
      ensures |d.1| == |list| && d.1[PROTOVER_POS] == PROTOVER_V2 && d.1[ID_POS] != EVENT_PACKET_ADV_PDU
      ensures d.0.Success? ==> d.0.value != Unchanged
      ensures !IsBleEvent(list[ID_POS]) ==> d == (Success(HeaderDowngraded), DowngradeHeader(list))
    {
      var l := DowngradeHeader(list);
      if l[ID_POS] != EVENT_PACKET_DATA_PDU then (Success(HeaderDowngraded), l)
      else
        match TimeDelta(timestamp)
        case Failure(e) => (Failure(e), l)
        case Success(d) =>
          (if |l| >= TIMESTAMP_POS + 4 then Success(TimestampDowngraded(d)) else Failure(ListIndexError),
           WriteTimeDelta(l, d))
    }

    /**
     * Rewrites the packet list as protocol version 2: the version byte, the
     * advertising id mapped to the data id, and for data events the
     * timestamp field replaced by the end-to-start delta.  A fault leaves the
     * writes done before it in place.
     */
    method ConvertPacketListProtoVer2(packet: Packet) returns (r: Result<Compatibility, Fault>)
      requires |packet.packetList| > ID_POS
      modifies packet
      ensures |packet.packetList| == |old(packet.packetList)|
      ensures (r, packet.packetList) == old(Downgraded(packet.packetList, packet.timestamp))
    {
      ghost var td := TimeDelta(packet.timestamp);
      ghost var header := DowngradeHeader(packet.packetList);
      packet.packetList := packet.packetList[PROTOVER_POS := PROTOVER_V2];
      if packet.packetList[ID_POS] == EVENT_PACKET_ADV_PDU {
        packet.packetList := packet.packetList[ID_POS := EVENT_PACKET_DATA_PDU];
      }
      assert packet.packetList == header;
      if packet.packetList[ID_POS] != EVENT_PACKET_DATA_PDU {
        return Success(HeaderDowngraded);
      }
      var delta := 0;
      if lastReceivedTimestampPacket != null && lastReceivedTimestampPacket.valid {
        assert GetPacketTime(lastReceivedTimestampPacket) == old(GetPacketTime(lastReceivedTimestampPacket));
        if packet.timestamp.None? || lastReceivedTimestampPacket.timestamp.None? {
          return Failure(MissingAttribute);
        }
        var t := GetPacketTime(lastReceivedTimestampPacket);
        if t.Failure? {
          return Failure(t.error);
        }
        delta := packet.timestamp.value - (lastReceivedTimestampPacket.timestamp.value + t.value);
      }
      assert td == Success(delta);
      var timeDelta := ToLittleEndian(delta, 4);
      ghost var l := packet.packetList;
      for k := 0 to 4
        invariant |packet.packetList| == |l|
        invariant k > 0 ==> TIMESTAMP_POS + k <= |l|
        invariant forall i :: 0 <= i < |l| ==>
          packet.packetList[i] == (if TIMESTAMP_POS <= i < TIMESTAMP_POS + k then timeDelta[i - TIMESTAMP_POS] else l[i])
      {
        if TIMESTAMP_POS + k >= |packet.packetList| {
          TimeDeltaWritten(l, packet.packetList, delta, k);
          return Failure(ListIndexError);
        }
        packet.packetList := packet.packetList[TIMESTAMP_POS + k := timeDelta[k]];
      }
      TimeDeltaWritten(l, packet.packetList, delta, 4);
      return Success(TimestampDowngraded(delta));
    }

    /** Downgrades packets newer than version 2 when the consumer only supports version 2. */
    method HandlePacketCompatibility(packet: Packet) returns (r: Result<Compatibility, Fault>)
      requires |packet.packetList| > ID_POS
      modifies packet
      ensures |packet.packetList| == |old(packet.packetList)|
      ensures !(supportedProtocolVersion == PROTOVER_V2 as nat && old(packet.packetList[PROTOVER_POS]) > PROTOVER_V2) ==>
        r == Success(Unchanged) && packet.packetList == old(packet.packetList)
      ensures supportedProtocolVersion == PROTOVER_V2 as nat && old(packet.packetList[PROTOVER_POS]) > PROTOVER_V2 ==>
        (r, packet.packetList) == old(Downgraded(packet.packetList, packet.timestamp))
    {
      if supportedProtocolVersion == PROTOVER_V2 as nat && packet.packetList[PROTOVER_POS] > PROTOVER_V2 {
        r := ConvertPacketListProtoVer2(packet);
      } else {
        r := Success(Unchanged);
      }
    }

    method SetSupportedProtocolVersion(supported: nat)
      modifies this
      ensures supportedProtocolVersion == supported
      ensures packetCounter == old(packetCounter) && TrackingState() == old(TrackingState())
      ensures lastReceivedPacket == old(lastReceivedPacket)
      ensures lastReceivedTimestampPacket == old(lastReceivedTimestampPacket)
    {
      supportedProtocolVersion := supported;
    }

    /**
     * Receives one packet from the serial stream (no overall deadline): a
     * valid packet is downgraded if need be and recorded in the history.  A
     * fault of the downgrade escapes, as the exception does, before the
     * packet is recorded; the frame has been consumed all the same.
     */
    method GetPacket(src: Slip.SerialStream, start: nat) returns (r: Result<Packet, ReceiveError>, next: nat)
      requires Valid()
      modifies this
      ensures Valid()
      ensures TrackingState() == old(TrackingState()) && packetCounter == old(packetCounter)
      ensures supportedProtocolVersion == old(supportedProtocolVersion)
      ensures match Slip.AwaitStart(src, start, None)
        case Failure(e) =>
          r == Failure(SerialFault(e)) && next == start &&
          lastReceivedPacket == old(lastReceivedPacket) && lastReceivedTimestampPacket == old(lastReceivedTimestampPacket)
        case Success(d) =>
          next == d.next &&
          match ReadHeader(d.frame)
          case Failure(_) =>
            r.Success? && fresh(r.value) && !r.value.isParser && !r.value.valid && r.value.packetList == d.frame &&
            lastReceivedPacket == old(lastReceivedPacket) && lastReceivedTimestampPacket == old(lastReceivedTimestampPacket)
          case Success(h) =>
            var ev := EventOf(d.frame, h, false, false, 0, null, null);
            var downgrade := ev.headerLengthOk && supportedProtocolVersion == PROTOVER_V2 as nat && h.protover > PROTOVER_V2;
            var outcome := old(Downgraded(ev.list, ev.timestamp));
            (r.Failure? <==> downgrade && outcome.0.Failure?) &&
            (r.Failure? ==>
               r.error == CompatibilityFault(outcome.0.error) &&
               lastReceivedPacket == old(lastReceivedPacket) &&
               lastReceivedTimestampPacket == old(lastReceivedTimestampPacket)) &&
            (r.Success? ==>
               fresh(r.value) && !r.value.isParser &&
               r.value.protover == h.protover && r.value.packetCounter == h.packetCounter && r.value.id == h.id &&
               r.value.valid == ev.headerLengthOk &&
               r.value.packetList == (if downgrade then outcome.1 else ev.list) &&
               |r.value.packetList| > ID_POS &&
               (r.value.valid ==>
                  lastReceivedPacket == r.value &&
                  lastReceivedTimestampPacket == (if IsBleEvent(h.id) then r.value else old(lastReceivedTimestampPacket))) &&
               (!r.value.valid ==>
                  lastReceivedPacket == old(lastReceivedPacket) &&
                  lastReceivedTimestampPacket == old(lastReceivedTimestampPacket)))
    {
      var decoded := Slip.DecodeFromSlip(src, start, None);
      if decoded.Failure? {
        return Failure(SerialFault(decoded.error)), start;
      }
      ghost var h := ReadHeader(decoded.value.frame);
      ghost var ev := if h.Success? then EventOf(decoded.value.frame, h.value, false, false, 0, null, null)
                      else EventFields(None, None, None, None, None, None, 0, decoded.value.frame, 0, false, false);
      ghost var outcome := if h.Success? then Downgraded(ev.list, ev.timestamp) else (Success(Unchanged), []);
      var packet := new Packet(decoded.value.frame, false, null, 0, 0);
      if packet.valid {
        assert Downgraded(packet.packetList, packet.timestamp) == outcome;
        var compatibility := HandlePacketCompatibility(packet);
        if compatibility.Failure? {
          assert compatibility == outcome.0;
          return Failure(CompatibilityFault(compatibility.error)), decoded.value.next;
        }
        var _ := HandlePacketHistory(packet);
      }
      return Success(packet), decoded.value.next;
    }

    // -------------------------------------------------------------------
    // Sending
    // -------------------------------------------------------------------

    /**
     * Frames a command: a version-1 header with this session's counter, the
     * id and the payload, SLIP-encoded; the counter then advances.
     */
    method SendPacket(id: byte, payload: seq<byte>) returns (frame: seq<byte>)
      requires |payload| < 256
      modifies this
      ensures frame == Slip.SlipFrame(CommandPacketList(old(packetCounter), id, payload))
      ensures packetCounter == old(packetCounter) + 1
      ensures TrackingState() == old(TrackingState()) && supportedProtocolVersion == old(supportedProtocolVersion)
      ensures lastReceivedPacket == old(lastReceivedPacket)
      ensures lastReceivedTimestampPacket == old(lastReceivedTimestampPacket)
    {
      var counterBytes := ToLittleEndian(packetCounter, 2);
      var packetList := [HEADER_LENGTH as byte, |payload|, PROTOVER_V1] + counterBytes + [id] + payload;
      frame := Slip.EncodeToSlip(packetList);
      packetCounter := packetCounter + 1;
    }

    method SendScan(findScanRsp: bool, findAux: bool, scanCoded: bool) returns (frame: seq<byte>)
      modifies this
      ensures frame == Slip.SlipFrame(CommandPacketList(old(packetCounter), REQ_SCAN_CONT, [ScanFlags(findScanRsp, findAux, scanCoded)]))
      ensures packetCounter == old(packetCounter) + 1 && TrackingState() == old(TrackingState())
    {
      frame := SendPacket(REQ_SCAN_CONT, [ScanFlags(findScanRsp, findAux, scanCoded)]);
    }

    /** Follows a device: nothing is sent for an empty address. */
    method SendFollow(addr: seq<byte>, followOnlyAdvertisements: bool, followOnlyLegacy: bool, followCoded: bool)
      returns (frame: Option<seq<byte>>)
      requires |addr| < 255
      modifies this
      ensures addr == [] ==> frame == None && packetCounter == old(packetCounter)
      ensures addr != [] ==>
        frame == Some(Slip.SlipFrame(CommandPacketList(old(packetCounter), REQ_FOLLOW,
                                     addr + [ScanFlags(followOnlyAdvertisements, followOnlyLegacy, followCoded)]))) &&
        packetCounter == old(packetCounter) + 1
      ensures TrackingState() == old(TrackingState())
    {
      if addr != [] {
        var f := SendPacket(REQ_FOLLOW, addr + [ScanFlags(followOnlyAdvertisements, followOnlyLegacy, followCoded)]);
        frame := Some(f);
      } else {
        frame := None;
      }
    }

    method SendPingReq() returns (frame: seq<byte>)
      modifies this
      ensures frame == Slip.SlipFrame(CommandPacketList(old(packetCounter), PING_REQ, []))
      ensures packetCounter == old(packetCounter) + 1 && TrackingState() == old(TrackingState())
    {
      frame := SendPacket(PING_REQ, []);
    }

    /** Sends a key of the given size (16 or 32 bytes), padded or cut by GetBytes. */
    method SendKey(id: byte, key: seq<byte>, size: nat) returns (frame: seq<byte>)
      requires size < 256
      modifies this
      ensures frame == Slip.SlipFrame(CommandPacketList(old(packetCounter), id, GetBytes(key, size)))
      ensures packetCounter == old(packetCounter) + 1 && TrackingState() == old(TrackingState())
    {
      frame := SendPacket(id, GetBytes(key, size));
    }

    method SendTemporaryKey(tk: seq<byte>) returns (frame: seq<byte>)
      modifies this
      ensures frame == Slip.SlipFrame(CommandPacketList(old(packetCounter), SET_TEMPORARY_KEY, GetBytes(tk, 16)))
      ensures packetCounter == old(packetCounter) + 1 && TrackingState() == old(TrackingState())
    {
      frame := SendKey(SET_TEMPORARY_KEY, tk, 16);
    }

    method SendPrivateKey(pk: seq<byte>) returns (frame: seq<byte>)
      modifies this
      ensures frame == Slip.SlipFrame(CommandPacketList(old(packetCounter), SET_PRIVATE_KEY, GetBytes(pk, 32)))
      ensures packetCounter == old(packetCounter) + 1 && TrackingState() == old(TrackingState())
    {
      frame := SendKey(SET_PRIVATE_KEY, pk, 32);
    }

    method SendLegacyLtk(ltk: seq<byte>) returns (frame: seq<byte>)
      modifies this
      ensures frame == Slip.SlipFrame(CommandPacketList(old(packetCounter), SET_LEGACY_LONG_TERM_KEY, GetBytes(ltk, 16)))
      ensures packetCounter == old(packetCounter) + 1 && TrackingState() == old(TrackingState())
    {
      frame := SendKey(SET_LEGACY_LONG_TERM_KEY, ltk, 16);
    }

    method SendScLtk(ltk: seq<byte>) returns (frame: seq<byte>)
      modifies this
      ensures frame == Slip.SlipFrame(CommandPacketList(old(packetCounter), SET_SC_LONG_TERM_KEY, GetBytes(ltk, 16)))
      ensures packetCounter == old(packetCounter) + 1 && TrackingState() == old(TrackingState())
    {
      frame := SendKey(SET_SC_LONG_TERM_KEY, ltk, 16);
    }

    method SendIrk(irk: seq<byte>) returns (frame: seq<byte>)
      modifies this
      ensures frame == Slip.SlipFrame(CommandPacketList(old(packetCounter), SET_IDENTITY_RESOLVING_KEY, GetBytes(irk, 16)))
      ensures packetCounter == old(packetCounter) + 1 && TrackingState() == old(TrackingState())
    {
      frame := SendKey(SET_IDENTITY_RESOLVING_KEY, irk, 16);
    }

    method SendSwitchBaudRate(newBaudRate: int) returns (frame: seq<byte>)
      modifies this
      ensures frame == Slip.SlipFrame(CommandPacketList(old(packetCounter), SWITCH_BAUD_RATE_REQ, LittleEndianBytes(newBaudRate, 4)))
      ensures packetCounter == old(packetCounter) + 1 && TrackingState() == old(TrackingState())
    {
      var rate := ToLittleEndian(newBaudRate, 4);
      frame := SendPacket(SWITCH_BAUD_RATE_REQ, rate);
    }

    /**
     * Sets the advertising channel hop sequence: every channel must be 37, 38
     * or 39, and the first that is not is reported; the payload is the
     * count, the channels, and 37s up to three.
     */
    method SendHopSequence(hopSequence: seq<int>) returns (frame: Result<seq<byte>, int>)
      requires |hopSequence| < 255
      modifies this
      ensures (forall k :: 0 <= k < |hopSequence| ==> hopSequence[k] in VALID_ADV_CHANS) ==>
        frame == Success(Slip.SlipFrame(CommandPacketList(old(packetCounter), SET_ADV_CHANNEL_HOP_SEQ, HopSequencePayload(hopSequence)))) &&
        packetCounter == old(packetCounter) + 1
      ensures (exists k :: 0 <= k < |hopSequence| && hopSequence[k] !in VALID_ADV_CHANS) ==>
        frame.Failure? && packetCounter == old(packetCounter) &&
        exists k :: 0 <= k < |hopSequence| && hopSequence[k] == frame.error && frame.error !in VALID_ADV_CHANS &&
                    forall j :: 0 <= j < k ==> hopSequence[j] in VALID_ADV_CHANS
      ensures TrackingState() == old(TrackingState())
    {
      for k := 0 to |hopSequence|
        invariant forall j :: 0 <= j < k ==> hopSequence[j] in VALID_ADV_CHANS
      {
        if hopSequence[k] !in VALID_ADV_CHANS {
          return Failure(hopSequence[k]);
        }
      }
      var f := SendPacket(SET_ADV_CHANNEL_HOP_SEQ, HopSequencePayload(hopSequence));
      frame := Success(f);
    }

    method SendVersionReq() returns (frame: seq<byte>)
      modifies this
      ensures frame == Slip.SlipFrame(CommandPacketList(old(packetCounter), REQ_VERSION, []))
      ensures packetCounter == old(packetCounter) + 1 && TrackingState() == old(TrackingState())
    {
      frame := SendPacket(REQ_VERSION, []);
    }

    method SendTimestampReq() returns (frame: seq<byte>)
      modifies this
      ensures frame == Slip.SlipFrame(CommandPacketList(old(packetCounter), REQ_TIMESTAMP, []))
      ensures packetCounter == old(packetCounter) + 1 && TrackingState() == old(TrackingState())
    {
      frame := SendPacket(REQ_TIMESTAMP, []);
    }

    method SendGoIdle() returns (frame: seq<byte>)
      modifies this
      ensures frame == Slip.SlipFrame(CommandPacketList(old(packetCounter), GO_IDLE, []))
      ensures packetCounter == old(packetCounter) + 1 && TrackingState() == old(TrackingState())
    {
      frame := SendPacket(GO_IDLE, []);
    }

    /** Empties the inter-frame spacing samples between test runs. */
    method ClearTifs()
      requires Valid()
      modifies this
      ensures Valid() && TrackingState() == old(TrackingState()).(allTifs := [])
      ensures packetCounter == old(packetCounter)
      ensures lastReceivedPacket == old(lastReceivedPacket)
      ensures lastReceivedTimestampPacket == old(lastReceivedTimestampPacket)
    {
      allTifs := [];
    }
  }

  // ---------------------------------------------------------------------
  // Outgoing packets
  // ---------------------------------------------------------------------

  /** The unframed command: version-1 header with the counter modulo 65536, then the payload. */
  function CommandPacketList(counter: nat, id: byte, payload: seq<byte>): seq<byte>
    requires |payload| < 256
  {
    [HEADER_LENGTH as byte, |payload|, PROTOVER_V1] + LittleEndianBytes(counter, 2) + [id] + payload
  }

  /**
   * A sent command, once unframed, is a valid version-1 packet list with the
   * counter, id and payload it was sent with.
   */
  lemma CommandPacketListReadsBack(counter: nat, id: byte, payload: seq<byte>)
    requires |payload| < 256
    ensures Slip.AwaitStart(Slip.Delivered(Slip.SlipFrame(CommandPacketList(counter, id, payload))), 0, None)
         == Success(Slip.Decoded(CommandPacketList(counter, id, payload), |Slip.SlipFrame(CommandPacketList(counter, id, payload))|))
    ensures ReadHeader(CommandPacketList(counter, id, payload))
         == Success(Header(PROTOVER_V1, counter % PACKET_COUNTER_CAP, id, |payload|))
    ensures CommandPacketList(counter, id, payload)[PAYLOAD_POS..] == payload
  {
    var list := CommandPacketList(counter, id, payload);
    Slip.DecodeEncodedFrame([], list, [], None);
    assert [] + Slip.SlipFrame(list) + [] == Slip.SlipFrame(list);
    assert list == HeaderBytes(PROTOVER_V1, |payload|, counter, id) + payload;
    ReadHeaderBytes(PROTOVER_V1, |payload|, counter, id, payload);
  }

  /** Scan and follow flags: three booleans in bits 0, 1 and 2. */
  function ScanFlags(b0: bool, b1: bool, b2: bool): byte
  {
    Bit(b0) + 2 * Bit(b1) + 4 * Bit(b2)
  }

  /** Each flag can be read back from its bit. */
  lemma ScanFlagsBits(b0: bool, b1: bool, b2: bool)
    ensures var f := ScanFlags(b0, b1, b2);
      (f % 2 == 1 <==> b0) && ((f / 2) % 2 == 1 <==> b1) && ((f / 4) % 2 == 1 <==> b2) && f < 8
  {
  }

  /** A byte list of exactly `size` bytes: zero-padded in front when short, cut to its prefix when long. */
  function GetBytes(value: seq<byte>, size: nat): (r: seq<byte>)
    ensures |r| == size
    ensures |value| < size ==> r[size - |value|..] == value && forall k :: 0 <= k < size - |value| ==> r[k] == 0
    ensures |value| >= size ==> r == value[..size]
  {
    if |value| < size then seq(size - |value|, _ => 0) + value else value[..size]
  }

  /** The hop-sequence payload: count, channels, then 37 repeated to make three channels. */
  function HopSequencePayload(hopSequence: seq<int>): (r: seq<byte>)
    requires |hopSequence| < 255 && forall k :: 0 <= k < |hopSequence| ==> hopSequence[k] in VALID_ADV_CHANS
    ensures |r| == 1 + (if |hopSequence| < 3 then 3 else |hopSequence|)
    ensures |r| < 256 && r[0] == |hopSequence|
    ensures forall k :: 0 <= k < |hopSequence| ==> r[k + 1] == hopSequence[k]
    ensures forall k :: |hopSequence| < k < |r| ==> r[k] == 37
  {
    var channels := seq(|hopSequence|, k requires 0 <= k < |hopSequence| => var c: byte := hopSequence[k]; c);
    var fill := if |hopSequence| < 3 then seq(3 - |hopSequence|, _ => 37) else [];
    [|hopSequence|] + channels + fill
  }
}
