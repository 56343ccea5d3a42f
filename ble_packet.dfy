/**
 * The Bluetooth LE link-layer packet carried inside a sniffer event: access
 * address, optional coding indicator (Coded PHY), PDU header, length and
 * payload, and for advertising PDUs the addresses and the advertised name.
 */
module BlePackets {
  import opened Types
  import opened LittleEndian

  /**
   * A device address as the packet model keeps it.  In a capture file it stays
   * in wire order (Raw).  Read live it is put in display order (most
   * significant byte first) and followed by its address-type bit (Tagged); that
   * bit is absent for an extended advertisement's target address.
   */
  datatype Address = Raw(bytes: seq<byte>) | Tagged(display: seq<byte>, addrType: Option<nat>)

  /** The PDU header: an advertising header or a data-channel header. */
  datatype PduHeader =
    | AdvHeader(advType: nat, txAddrType: nat, rxAddrType: Option<nat>)
    | ConnHeader(llid: nat, sn: nat, nesn: nat, md: nat)

  /** What is extracted from an advertising PDU's payload. */
  datatype AdvFields = AdvFields(advAddress: Option<Address>, scanAddress: Option<Address>, name: string)

  datatype BlePacket = BlePacket(
    packetType: nat,
    accessAddress: seq<byte>,
    coded: bool,
    codingIndicator: Option<nat>,
    header: PduHeader,
    length: byte,
    payload: seq<byte>,
    adv: Option<AdvFields>)
  {
    /** The advertising PDU type, for advertising packets. */
    function AdvType(): Option<nat>
    {
      if header.AdvHeader? then Some(header.advType) else None
    }

    /** The data-channel LLID, for data packets. */
    function Llid(): Option<nat>
    {
      if header.ConnHeader? then Some(header.llid) else None
    }
  }

  datatype BleError =
    | IndexOutOfRange    // a header byte lies beyond the end of the packet
    | MissingAdvAddress  // capture-file mode: an advertising PDU without an advertiser address

  function ByteAt(list: seq<byte>, i: nat): (r: Result<byte, BleError>)
    ensures r.Success? <==> i < |list|
    ensures r.Success? ==> r.value == list[i]
  {
    if i < |list| then Success(list[i]) else Failure(IndexOutOfRange)
  }

  // ---------------------------------------------------------------------
  // Header bits
  // ---------------------------------------------------------------------

  /** RxAdd as the packet code computes it: the byte shifted LEFT by 7, masked with 1. */
  function RxAddrTypeAsWritten(b: byte): nat
  {
    (b * 128) % 2
  }

  /** RxAdd as the advertising header defines it: bit 7. */
  function RxAddrType(b: byte): nat
  {
    (b / 128) % 2
  }

  /** The advertising header as the packet code decodes it. */
  function DecodeAdvHeaderAsWritten(b: byte): PduHeader
  {
    var t := b % 16;
    AdvHeader(t, (b / 64) % 2, if t in {1, 3, 5} then Some(RxAddrTypeAsWritten(b)) else None)
  }

  /**
   * The advertising header: PDU type in bits 0-3, TxAdd in bit 6, and for
   * the PDU types that carry a target address (1, 3, 5) RxAdd in bit 7.
   */
  function DecodeAdvHeader(b: byte): PduHeader
  {
    var t := b % 16;
    AdvHeader(t, (b / 64) % 2, if t in {1, 3, 5} then Some(RxAddrType(b)) else None)
  }

  /**
   * The data-channel header as the packet code decodes it: LLID in bits 0-1,
   * then the fields it names sn, nesn and md in bits 2, 3 and 4.
   */
  function DecodeConnHeader(b: byte): PduHeader
  {
    ConnHeader(b % 4, (b / 4) % 2, (b / 8) % 2, (b / 16) % 2)
  }

  /** An advertising header byte built from its fields (bit 4 is reserved, bit 5 is ChSel). */
  function AdvHeaderByte(advType: nat, chSel: nat, txAdd: nat, rxAdd: nat): byte
    requires advType < 16 && chSel < 2 && txAdd < 2 && rxAdd < 2
  {
    advType + 32 * chSel + 64 * txAdd + 128 * rxAdd
  }

  /** A data-channel header byte built from its fields in the standard's order: LLID, NESN, SN, MD. */
  function DataHeaderByte(llid: nat, nesn: nat, sn: nat, md: nat): byte
    requires llid < 4 && nesn < 2 && sn < 2 && md < 2
  {
    llid + 4 * nesn + 8 * sn + 16 * md
  }

  /** The advertising header decoder recovers every field of a header byte. */
  lemma DecodeAdvHeaderInverts(advType: nat, chSel: nat, txAdd: nat, rxAdd: nat)
    requires advType < 16 && chSel < 2 && txAdd < 2 && rxAdd < 2
    ensures DecodeAdvHeader(AdvHeaderByte(advType, chSel, txAdd, rxAdd))
         == AdvHeader(advType, txAdd, if advType in {1, 3, 5} then Some(rxAdd) else None)
  {
    var b := AdvHeaderByte(advType, chSel, txAdd, rxAdd);
    DivModUnique(b, 16, 2 * chSel + 4 * txAdd + 8 * rxAdd, advType);
    DivModUnique(b, 64, txAdd + 2 * rxAdd, advType + 32 * chSel);
    DivModUnique(txAdd + 2 * rxAdd, 2, rxAdd, txAdd);
    DivModUnique(b, 128, rxAdd, advType + 32 * chSel + 64 * txAdd);
  }

  /** As written, RxAdd always reads as 0, for every header byte. */
  lemma RxAddrTypeAsWrittenIsZero(b: byte)
    ensures RxAddrTypeAsWritten(b) == 0
  {
  }

  /** A directed advertisement from a public to a random address (header 0x81) loses its RxAdd bit as written. */
  lemma RxAddrTypeCounterexample()
    ensures DecodeAdvHeaderAsWritten(0x81) == AdvHeader(1, 0, Some(0))
    ensures DecodeAdvHeader(0x81) == AdvHeader(1, 0, Some(1))
    ensures AdvHeaderByte(1, 0, 0, 1) == 0x81
  {
  }

  /**
   * The data-channel decoder recovers LLID and MD; the bit the standard calls
   * NESN lands in the field named sn, and SN in the field named nesn.
   */
  lemma DecodeConnHeaderFields(llid: nat, nesn: nat, sn: nat, md: nat)
    requires llid < 4 && nesn < 2 && sn < 2 && md < 2
    ensures DecodeConnHeader(DataHeaderByte(llid, nesn, sn, md)) == ConnHeader(llid, nesn, sn, md)
  {
    var b := DataHeaderByte(llid, nesn, sn, md);
    DivModUnique(b, 4, nesn + 2 * sn + 4 * md, llid);
    DivModUnique(nesn + 2 * sn + 4 * md, 2, sn + 2 * md, nesn);
    DivModUnique(b, 8, sn + 2 * md, llid + 4 * nesn);
    DivModUnique(sn + 2 * md, 2, md, sn);
    DivModUnique(b, 16, md, llid + 4 * nesn + 8 * sn);
  }

  // ---------------------------------------------------------------------
  // Addresses
  // ---------------------------------------------------------------------

  /** The six bytes at `offset` as the mode keeps them. */
  function AddressAt(list: seq<byte>, offset: nat, tag: Option<nat>, isParser: bool): Address
  {
    if isParser then Raw(Slice(list, offset, offset + 6))
    else Tagged(Reverse(Slice(list, offset, offset + 6)), tag)
  }

  /**
   * The advertiser and scanner/initiator/target addresses of an advertising
   * PDU whose payload starts at `offset`, and the offset just past them.
   */
  function ExtractAddresses(list: seq<byte>, offset: nat, h: PduHeader, isParser: bool)
    : Result<(Option<Address>, Option<Address>, nat), BleError>
    requires h.AdvHeader?
  {
    var t := h.advType;
    var tx := Some(h.txAddrType);
    var rx := h.rxAddrType;
    if t in {0, 2, 4, 6} then
      Success((Some(AddressAt(list, offset, tx, isParser)), None, offset + 6))
    else if t == 1 then
      Success((Some(AddressAt(list, offset, tx, isParser)), Some(AddressAt(list, offset + 6, rx, isParser)), offset + 12))
    else if t in {3, 5} then
      Success((Some(AddressAt(list, offset + 6, rx, isParser)), Some(AddressAt(list, offset, tx, isParser)), offset + 12))
    else if t == 7 then
      var lengthByte :- ByteAt(list, offset);
      var extHeaderLength := lengthByte % 64;
      var flags :- ByteAt(list, offset + 1);
      var hasAdvA := flags % 2 == 1;
      var hasTargetA := (flags / 2) % 2 == 1;
      var targetStart := if hasAdvA then offset + 8 else offset + 2;
      var advA := if hasAdvA then Some(Tagged(Reverse(Slice(list, offset + 2, offset + 8)), tx)) else None;
      var targetA := if hasTargetA then Some(Tagged(Reverse(Slice(list, targetStart, targetStart + 6)), rx)) else None;
      Success((advA, targetA, offset + 1 + extHeaderLength))
    else
      Success((None, None, offset))
  }

  /** An address as the mode keeps it: raw in a capture file, reversed and tagged live. */
  function Kept(wire: seq<byte>, tag: nat, isParser: bool): Address
  {
    if isParser then Raw(wire) else Tagged(Reverse(wire), Some(tag))
  }

  /** Legacy PDUs with one address (types 0, 2, 4, 6): the advertiser address, tagged with TxAdd, then the data. */
  lemma OneAddressPdu(prefix: seq<byte>, advA: seq<byte>, rest: seq<byte>, headerByte: byte, isParser: bool)
    requires |advA| == 6 && headerByte % 16 in {0, 2, 4, 6}
    ensures ExtractAddresses(prefix + advA + rest, |prefix|, DecodeAdvHeader(headerByte), isParser)
         == Success((Some(Kept(advA, (headerByte / 64) % 2, isParser)), None, (|prefix| + 6) as nat))
  {
    var list := prefix + advA + rest;
    assert Slice(list, |prefix|, |prefix| + 6) == advA;
  }

  /**
   * PDUs with two addresses advance 12 bytes.  ADV_DIRECT_IND (type 1) carries
   * the advertiser (TxAdd) then the target (RxAdd); SCAN_REQ and CONNECT_IND
   * (types 3, 5) carry the scanner or initiator (TxAdd) then the advertiser
   * (RxAdd).  The advertiser address is the first field of the result.
   */
  lemma TwoAddressPdu(prefix: seq<byte>, first: seq<byte>, second: seq<byte>, rest: seq<byte>,
                      headerByte: byte, isParser: bool)
    requires |first| == 6 && |second| == 6 && headerByte % 16 in {1, 3, 5}
    ensures var tx := Kept(first, (headerByte / 64) % 2, isParser);
      var rx := Kept(second, RxAddrType(headerByte), isParser);
      ExtractAddresses(prefix + first + second + rest, |prefix|, DecodeAdvHeader(headerByte), isParser)
      == Success(if headerByte % 16 == 1 then (Some(tx), Some(rx), |prefix| + 12)
                 else (Some(rx), Some(tx), |prefix| + 12))
  {
    var list := prefix + first + second + rest;
    assert Slice(list, |prefix|, |prefix| + 6) == first;
    assert Slice(list, |prefix| + 6, |prefix| + 12) == second;
  }

  /**
   * An extended advertisement (type 7): the payload starts with the extended
   * header length (low 6 bits) and flags.  Flag bit 0 announces the
   * advertiser address and bit 1 the target address, in that order after the
   * flags; both are reversed in either mode, and the target has no address
   * type.  The offset advances by 1 plus the extended header length.
   */
  lemma ExtendedPduAddresses(prefix: seq<byte>, lengthByte: byte, flags: byte, rest: seq<byte>,
                             headerByte: byte, isParser: bool)
    requires headerByte % 16 == 7 && |rest| >= 12
    ensures var hasAdvA := flags % 2 == 1;
      var targetAt := if hasAdvA then 6 else 0;
      ExtractAddresses(prefix + [lengthByte, flags] + rest, |prefix|, DecodeAdvHeader(headerByte), isParser)
      == Success((if hasAdvA then Some(Tagged(Reverse(rest[..6]), Some((headerByte / 64) % 2))) else None,
                  if (flags / 2) % 2 == 1 then Some(Tagged(Reverse(rest[targetAt .. targetAt + 6]), None)) else None,
                  (|prefix| + 1 + lengthByte % 64) as nat))
  {
    var list := prefix + [lengthByte, flags] + rest;
    var o := |prefix|;
    assert list[o] == lengthByte && list[o + 1] == flags;
    assert Slice(list, o + 2, o + 8) == rest[..6];
    assert Slice(list, o + 8, o + 14) == rest[6..12];
    assert Slice(list, o + 2, o + 8) == rest[0..6];
  }

  /** An unknown PDU type (8-15) has no addresses, and the offset stays. */
  lemma UnknownPduNoAddresses(list: seq<byte>, offset: nat, headerByte: byte, isParser: bool)
    requires headerByte % 16 >= 8
    ensures ExtractAddresses(list, offset, DecodeAdvHeader(headerByte), isParser) == Success((None, None, offset))
  {
  }

  // ---------------------------------------------------------------------
  // Advertised name
  // ---------------------------------------------------------------------

  /** Is `t` a Shortened or Complete Local Name AD type? */
  predicate IsNameType(t: byte)
  {
    t == 8 || t == 9
  }

  /**
   * The walk over AD structures from index i: each is a length byte L, a type
   * byte and L - 1 data bytes; the walk stops at the end, at a zero length or
   * at a structure that would run past the end.  A name structure replaces
   * the name found so far.
   */
  function ScanName(list: seq<byte>, i: nat, name: string): string
    decreases |list| - i
  {
    if i >= |list| then name
    else
      var length := list[i];
      if i + length + 1 > |list| || length == 0 then name
      else
        var name' := if IsNameType(list[i + 1]) then Chars(list[i + 2 .. i + length + 1]) else name;
        ScanName(list, i + length + 1, name')
  }

  /** The name field: quoted for the PDU types whose payload carries AD structures. */
  function NameOf(advType: nat, list: seq<byte>, offset: nat): string
  {
    if advType in {0, 2, 4, 6, 7} then "\"" + ScanName(list, offset, "") + "\""
    else if advType == 1 then "[ADV_DIRECT_IND]"
    else ""
  }

  /** Walks the AD structures with a cursor, keeping the last name seen. */
  method ExtractName(advType: nat, list: seq<byte>, offset: nat) returns (name: string)
    ensures name == NameOf(advType, list, offset)
  {
    name := "";
    if advType in {0, 2, 4, 6, 7} {
      var i := offset;
      while i < |list|
        invariant ScanName(list, i, name) == ScanName(list, offset, "")
        decreases |list| - i
      {
        var length := list[i];
        if i + length + 1 > |list| || length == 0 {
          break;
        }
        ScanNameStep(list, i, name);
        var t := list[i + 1];
        if t == 8 || t == 9 {
          var nameList := list[i + 2 .. i + length + 1];
          name := "";
          for j := 0 to |nameList|
            invariant name == Chars(nameList[..j])
          {
            CharsSnoc(nameList, j);
            name := name + [nameList[j] as char];
          }
          assert nameList[..|nameList|] == nameList;
        }
        i := i + length + 1;
      }
      name := "\"" + name + "\"";
    } else if advType == 1 {
      name := "[ADV_DIRECT_IND]";
    }
  }

  /** One structure of the walk: its name (when it is a name structure) replaces the one found so far. */
  lemma ScanNameStep(list: seq<byte>, i: nat, name: string)
    requires i < |list| && i + list[i] + 1 <= |list| && list[i] != 0
    ensures ScanName(list, i, name)
         == ScanName(list, i + list[i] + 1, if IsNameType(list[i + 1]) then Chars(list[i + 2 .. i + list[i] + 1]) else name)
  {
  }

  lemma CharsSnoc(bs: seq<byte>, j: nat)
    requires j < |bs|
    ensures Chars(bs[..j + 1]) == Chars(bs[..j]) + [bs[j] as char]
  {
    assert bs[..j + 1] == bs[..j] + [bs[j]];
  }

  /** An AD structure: its type byte and data. */
  datatype AdStructure = AdStructure(adType: byte, data: seq<byte>)

  /** The AD structures the walk visits, in order. */
  function AdStructuresFrom(list: seq<byte>, i: nat): seq<AdStructure>
    decreases |list| - i
  {
    if i >= |list| then []
    else
      var length := list[i];
      if i + length + 1 > |list| || length == 0 then []
      else [AdStructure(list[i + 1], list[i + 2 .. i + length + 1])] + AdStructuresFrom(list, i + length + 1)
  }

  /** The data of the last name structure in the list, or `none` if there is none. */
  function LastLocalName(ads: seq<AdStructure>, none: string): string
  {
    if ads == [] then none
    else if IsNameType(ads[|ads| - 1].adType) then Chars(ads[|ads| - 1].data)
    else LastLocalName(ads[..|ads| - 1], none)
  }

  /** Prepending a structure to the list is the same as starting from the name it yields. */
  lemma {:induction false} LastLocalNameCons(s: AdStructure, rest: seq<AdStructure>, none: string)
    ensures LastLocalName([s] + rest, none)
         == LastLocalName(rest, if IsNameType(s.adType) then Chars(s.data) else none)
    decreases |rest|
  {
    var all := [s] + rest;
    if rest != [] {
      assert all[|all| - 1] == rest[|rest| - 1];
      assert all[..|all| - 1] == [s] + rest[..|rest| - 1];
      LastLocalNameCons(s, rest[..|rest| - 1], none);
    } else {
      assert all[..|all| - 1] == [];
    }
  }

  /** The walk's name is the data of the LAST name structure, or the starting name when there is none. */
  lemma {:induction false} ScanNameIsLastLocalName(list: seq<byte>, i: nat, name: string)
    ensures ScanName(list, i, name) == LastLocalName(AdStructuresFrom(list, i), name)
    decreases |list| - i
  {
    if i < |list| {
      var length := list[i];
      if i + length + 1 <= |list| && length != 0 {
        var s := AdStructure(list[i + 1], list[i + 2 .. i + length + 1]);
        LastLocalNameCons(s, AdStructuresFrom(list, i + length + 1), name);
        ScanNameIsLastLocalName(list, i + length + 1, if IsNameType(list[i + 1]) then Chars(s.data) else name);
      }
    }
  }

  /** An AD structure fits its one-byte length field. */
  predicate Encodable(ads: seq<AdStructure>)
  {
    forall k :: 0 <= k < |ads| ==> |ads[k].data| < 255
  }

  /** AD structures laid out as length, type, data. */
  function AdBytes(ads: seq<AdStructure>): seq<byte>
    requires Encodable(ads)
  {
    if ads == [] then [] else [|ads[0].data| + 1, ads[0].adType] + ads[0].data + AdBytes(ads[1..])
  }

  /** Walking encoded AD structures that fill the list gives them back. */
  lemma {:induction false} AdStructuresOfAdBytes(list: seq<byte>, i: nat, ads: seq<AdStructure>)
    requires Encodable(ads) && i <= |list| && list[i..] == AdBytes(ads)
    ensures AdStructuresFrom(list, i) == ads
    decreases |ads|
  {
    if ads != [] {
      var d := ads[0].data;
      var rest := AdBytes(ads[1..]);
      var head: seq<byte> := [|d| + 1, ads[0].adType] + d;
      assert list[i..] == head + rest;
      assert Encodable(ads[1..]) by {
        assert forall k :: 0 <= k < |ads[1..]| ==> ads[1..][k] == ads[k + 1];
      }
      HeadFields(list, i, head, rest, ads[0].adType, d);
      AdStructureStep(list, i, ads[0].adType, d);
      AdStructuresOfAdBytes(list, i + |d| + 2, ads[1..]);
    } else {
      assert |list| == i;
    }
  }

  /** Reading one structure's fields off a list that starts with its encoding. */
  lemma HeadFields(list: seq<byte>, i: nat, head: seq<byte>, rest: seq<byte>, t: byte, d: seq<byte>)
    requires |d| < 255 && i <= |list| && head == [|d| + 1, t] + d && list[i..] == head + rest
    ensures i + |d| + 2 <= |list| && list[i] == |d| + 1 && list[i + 1] == t
    ensures list[i + 2 .. i + |d| + 2] == d && list[i + |d| + 2 ..] == rest
  {
    assert list[i..][0] == head[0] && list[i..][1] == head[1];
    assert list[i + 2 .. i + |d| + 2] == list[i..][2 .. |d| + 2];
    assert list[i + |d| + 2 ..] == list[i..][|head|..];
  }

  /** One step of the walk over a structure whose length byte is |d| + 1. */
  lemma AdStructureStep(list: seq<byte>, i: nat, t: byte, d: seq<byte>)
    requires |d| < 255 && i + |d| + 2 <= |list| && list[i] == |d| + 1 && list[i + 1] == t
    requires list[i + 2 .. i + |d| + 2] == d
    ensures AdStructuresFrom(list, i) == [AdStructure(t, d)] + AdStructuresFrom(list, i + |d| + 2)
  {
  }

  // ---------------------------------------------------------------------
  // The whole packet
  // ---------------------------------------------------------------------

  /**
   * The link-layer packet read from `list` (the bytes from the access address
   * on), the way the packet code reads it: access address, coding indicator
   * on the Coded PHY, header, length, payload, then for advertising PDUs the
   * addresses and the name.
   */
  function BlePacketOf(packetType: nat, list: seq<byte>, phy: nat, isParser: bool): Result<BlePacket, BleError>
  {
    var accessAddress := Slice(list, 0, 4);
    var coded := phy == PHY_CODED;
    var ciByte :- if coded then ByteAt(list, 4) else Success(0);
    var headerAt := if coded then 5 else 4;
    var headerByte :- ByteAt(list, headerAt);
    var header := if packetType == PACKET_TYPE_ADVERTISING then DecodeAdvHeader(headerByte) else DecodeConnHeader(headerByte);
    var length :- ByteAt(list, headerAt + 1);
    var payloadAt := headerAt + 2;
    var codingIndicator := if coded then Some(ciByte % 4) else None;
    var payload := From(list, payloadAt);
    if header.ConnHeader? then
      Success(BlePacket(packetType, accessAddress, coded, codingIndicator, header, length, payload, None))
    else
      var addresses :- ExtractAddresses(list, payloadAt, header, isParser);
      if isParser && addresses.0.None? then Failure(MissingAdvAddress)
      else
        var adv := AdvFields(addresses.0, addresses.1, NameOf(header.advType, list, addresses.2));
        Success(BlePacket(packetType, accessAddress, coded, codingIndicator, header, length, payload, Some(adv)))
  }

  /** Reads the packet with a running offset, as the packet code does. */
  method ParseBlePacket(packetType: nat, list: seq<byte>, phy: nat, isParser: bool)
    returns (r: Result<BlePacket, BleError>)
    ensures r == BlePacketOf(packetType, list, phy, isParser)
  {
    var offset := 0;
    var accessAddress := Slice(list, offset, offset + 4);
    offset := offset + 4;
    var coded := phy == PHY_CODED;
    var codingIndicator: Option<nat> := None;
    if coded {
      if offset >= |list| {
        return Failure(IndexOutOfRange);
      }
      codingIndicator := Some(list[offset] % 4);
      offset := offset + 1;
    }
    if offset >= |list| {
      return Failure(IndexOutOfRange);
    }
    var header := if packetType == PACKET_TYPE_ADVERTISING then DecodeAdvHeader(list[offset]) else DecodeConnHeader(list[offset]);
    offset := offset + 1;
    if offset >= |list| {
      return Failure(IndexOutOfRange);
    }
    var length := list[offset];
    offset := offset + 1;
    var payload := From(list, offset);
    if header.ConnHeader? {
      return Success(BlePacket(packetType, accessAddress, coded, codingIndicator, header, length, payload, None));
    }
    var addresses := ExtractAddresses(list, offset, header, isParser);
    if addresses.Failure? {
      return Failure(addresses.error);
    }
    var (advAddress, scanAddress, nameOffset) := addresses.value;
    if isParser && advAddress.None? {
      return Failure(MissingAdvAddress);
    }
    var name := ExtractName(header.advType, list, nameOffset);
    r := Success(BlePacket(packetType, accessAddress, coded, codingIndicator, header, length, payload,
                           Some(AdvFields(advAddress, scanAddress, name))));
  }

  // ---------------------------------------------------------------------
  // Whole-packet properties
  // ---------------------------------------------------------------------

  /**
   * A legacy advertising PDU (ADV_IND, ADV_NONCONN_IND, SCAN_RSP or
   * ADV_SCAN_IND) on the 1M PHY, read live: the advertiser address comes out
   * in display order with its TxAdd bit, the payload is everything after the
   * length byte, and the name is the last local-name AD structure, quoted.
   */
  lemma LegacyAdvertisingPduLive(aa: seq<byte>, headerByte: byte, length: byte, advA: seq<byte>, ads: seq<AdStructure>)
    requires |aa| == 4 && |advA| == 6 && Encodable(ads)
    requires headerByte % 16 in {0, 2, 4, 6}
    ensures var list := aa + [headerByte, length] + Reverse(advA) + AdBytes(ads);
      BlePacketOf(PACKET_TYPE_ADVERTISING, list, PHY_1M, false)
      == Success(BlePacket(PACKET_TYPE_ADVERTISING, aa, false, None, DecodeAdvHeader(headerByte), length,
                           Reverse(advA) + AdBytes(ads),
                           Some(AdvFields(Some(Tagged(advA, Some((headerByte / 64) % 2))), None,
                                          "\"" + LastLocalName(ads, "") + "\""))))
  {
    var list := aa + [headerByte, length] + Reverse(advA) + AdBytes(ads);
    assert Slice(list, 0, 4) == aa;
    assert From(list, 6) == Reverse(advA) + AdBytes(ads);
    assert Slice(list, 6, 12) == Reverse(advA);
    assert Reverse(Reverse(advA)) == advA by {
      ReverseReverse(advA);
    }
    assert list[12..] == AdBytes(ads);
    AdStructuresOfAdBytes(list, 12, ads);
    ScanNameIsLastLocalName(list, 12, "");
  }

  /**
   * A data PDU: the header is the data-channel header and the payload follows
   * the length byte; there are no advertising fields.
   */
  lemma DataPduFields(aa: seq<byte>, headerByte: byte, length: byte, payload: seq<byte>, isParser: bool)
    requires |aa| == 4
    ensures BlePacketOf(PACKET_TYPE_DATA, aa + [headerByte, length] + payload, PHY_1M, isParser)
         == Success(BlePacket(PACKET_TYPE_DATA, aa, false, None, DecodeConnHeader(headerByte), length, payload, None))
  {
    var list := aa + [headerByte, length] + payload;
    assert Slice(list, 0, 4) == aa;
    assert From(list, 6) == payload;
  }

  /** On the Coded PHY the byte after the access address is the coding indicator, masked to two bits. */
  lemma CodedPduSkipsCodingIndicator(aa: seq<byte>, ci: byte, headerByte: byte, length: byte, payload: seq<byte>, isParser: bool)
    requires |aa| == 4
    ensures BlePacketOf(PACKET_TYPE_DATA, aa + [ci, headerByte, length] + payload, PHY_CODED, isParser)
         == Success(BlePacket(PACKET_TYPE_DATA, aa, true, Some(ci % 4), DecodeConnHeader(headerByte), length, payload, None))
  {
    var list := aa + [ci, headerByte, length] + payload;
    assert Slice(list, 0, 4) == aa;
    assert From(list, 7) == payload;
  }

  /**
   * In capture-file mode an advertising PDU must yield an advertiser address:
   * an unknown PDU type, or an extended advertisement whose flags announce
   * none, cannot be read.
   */
  lemma CaptureFileNeedsAdvAddress(aa: seq<byte>, headerByte: byte, length: byte, rest: seq<byte>)
    requires |aa| == 4
    requires headerByte % 16 >= 8 || (headerByte % 16 == 7 && |rest| >= 14 && rest[1] % 2 == 0)
    ensures BlePacketOf(PACKET_TYPE_ADVERTISING, aa + [headerByte, length] + rest, PHY_1M, true)
         == Failure(MissingAdvAddress)
  {
    var prefix := aa + [headerByte, length];
    var list := prefix + rest;
    assert list[4] == headerByte && list[5] == length;
    if headerByte % 16 == 7 {
      assert rest == [rest[0], rest[1]] + rest[2..];
      ExtendedPduAddresses(prefix, rest[0], rest[1], rest[2..], headerByte, true);
    } else {
      UnknownPduNoAddresses(list, 6, headerByte, true);
    }
  }

  /** Too short to hold a header and a length byte: the packet cannot be read. */
  lemma ShortPacketFails(packetType: nat, list: seq<byte>, phy: nat, isParser: bool)
    requires |list| < (if phy == PHY_CODED then 7 else 6)
    ensures BlePacketOf(packetType, list, phy, isParser) == Failure(IndexOutOfRange)
  {
  }
}
