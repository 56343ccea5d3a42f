/**
 * Constants of the Nordic BLE sniffer protocol, and the small value types
 * shared by every other module: bytes, optional values and results.
 */
module Types {

  /** An octet as carried on the UART and in capture files. */
  type byte = b: int | 0 <= b < 256

  datatype Option<T> = None | Some(value: T)

  datatype Result<T, E> = Success(value: T) | Failure(error: E)
  {
    predicate IsFailure()
    {
      Failure?
    }

    function PropagateFailure<U>(): Result<U, E>
      requires Failure?
    {
      Failure(error)
    }

    function Extract(): T
      requires Success?
    {
      value
    }
  }

  // ---------------------------------------------------------------------
  // List helpers with the host language's slicing rules
  // ---------------------------------------------------------------------

  /** s[a:b] for non-negative bounds: both are clipped to the length, and an empty range gives []. */
  function Slice<T>(s: seq<T>, a: nat, b: nat): (r: seq<T>)
    ensures a <= b <= |s| ==> r == s[a..b]
    ensures b <= a || |s| <= a ==> r == []
  {
    var lo := if a < |s| then a else |s|;
    var hi := if b < |s| then b else |s|;
    if lo <= hi then s[lo..hi] else []
  }

  /** s[a:] for a non-negative a. */
  function From<T>(s: seq<T>, a: nat): (r: seq<T>)
    ensures a <= |s| ==> r == s[a..]
    ensures |s| <= a ==> r == []
  {
    if a <= |s| then s[a..] else []
  }

  function Reverse<T>(s: seq<T>): (r: seq<T>)
    ensures |r| == |s| && forall k :: 0 <= k < |s| ==> r[k] == s[|s| - 1 - k]
  {
    if s == [] then [] else Reverse(s[1..]) + [s[0]]
  }

  lemma ReverseReverse<T>(s: seq<T>)
    ensures Reverse(Reverse(s)) == s
  {
  }

  /** The characters whose code points are the given bytes. */
  function Chars(bs: seq<byte>): (r: string)
    ensures |r| == |bs| && forall k :: 0 <= k < |bs| ==> r[k] as int == bs[k]
  {
    seq(|bs|, k requires 0 <= k < |bs| => bs[k] as char)
  }

  // ---------------------------------------------------------------------
  // Framing bytes of the sniffer's SLIP-like link
  // ---------------------------------------------------------------------

  const SLIP_START: byte := 0xAB
  const SLIP_END: byte := 0xBC
  const SLIP_ESC: byte := 0xCD
  const SLIP_ESC_START: byte := SLIP_START + 1
  const SLIP_ESC_END: byte := SLIP_END + 1
  const SLIP_ESC_ESC: byte := SLIP_ESC + 1

  // ---------------------------------------------------------------------
  // Protocol versions
  // ---------------------------------------------------------------------

  const PROTOVER_V3: byte := 3
  const PROTOVER_V2: byte := 2
  const PROTOVER_V1: byte := 1

  // ---------------------------------------------------------------------
  // UART message identifiers
  // ---------------------------------------------------------------------

  const REQ_FOLLOW: byte := 0x00
  const EVENT_FOLLOW: byte := 0x01
  const EVENT_PACKET_ADV_PDU: byte := 0x02
  const EVENT_CONNECT: byte := 0x05
  const EVENT_PACKET_DATA_PDU: byte := 0x06
  const REQ_SCAN_CONT: byte := 0x07
  const EVENT_DISCONNECT: byte := 0x09
  const SET_TEMPORARY_KEY: byte := 0x0C
  const PING_REQ: byte := 0x0D
  const PING_RESP: byte := 0x0E
  const SWITCH_BAUD_RATE_REQ: byte := 0x13
  const SWITCH_BAUD_RATE_RESP: byte := 0x14
  const SET_ADV_CHANNEL_HOP_SEQ: byte := 0x17
  const SET_PRIVATE_KEY: byte := 0x18
  const SET_LEGACY_LONG_TERM_KEY: byte := 0x19
  const SET_SC_LONG_TERM_KEY: byte := 0x1A
  const REQ_VERSION: byte := 0x1B
  const RESP_VERSION: byte := 0x1C
  const REQ_TIMESTAMP: byte := 0x1D
  const RESP_TIMESTAMP: byte := 0x1E
  const SET_IDENTITY_RESOLVING_KEY: byte := 0x1F
  const GO_IDLE: byte := 0xFE

  /** Every message identifier paired with the name its constant is declared under. */
  const UART_MESSAGE_IDS: seq<(byte, string)> := [
    (REQ_FOLLOW, "REQ_FOLLOW"),
    (EVENT_FOLLOW, "EVENT_FOLLOW"),
    (EVENT_PACKET_ADV_PDU, "EVENT_PACKET_ADV_PDU"),
    (EVENT_CONNECT, "EVENT_CONNECT"),
    (EVENT_PACKET_DATA_PDU, "EVENT_PACKET_DATA_PDU"),
    (REQ_SCAN_CONT, "REQ_SCAN_CONT"),
    (EVENT_DISCONNECT, "EVENT_DISCONNECT"),
    (SET_TEMPORARY_KEY, "SET_TEMPORARY_KEY"),
    (PING_REQ, "PING_REQ"),
    (PING_RESP, "PING_RESP"),
    (SWITCH_BAUD_RATE_REQ, "SWITCH_BAUD_RATE_REQ"),
    (SWITCH_BAUD_RATE_RESP, "SWITCH_BAUD_RATE_RESP"),
    (SET_ADV_CHANNEL_HOP_SEQ, "SET_ADV_CHANNEL_HOP_SEQ"),
    (SET_PRIVATE_KEY, "SET_PRIVATE_KEY"),
    (SET_LEGACY_LONG_TERM_KEY, "SET_LEGACY_LONG_TERM_KEY"),
    (SET_SC_LONG_TERM_KEY, "SET_SC_LONG_TERM_KEY"),
    (REQ_VERSION, "REQ_VERSION"),
    (RESP_VERSION, "RESP_VERSION"),
    (REQ_TIMESTAMP, "REQ_TIMESTAMP"),
    (RESP_TIMESTAMP, "RESP_TIMESTAMP"),
    (SET_IDENTITY_RESOLVING_KEY, "SET_IDENTITY_RESOLVING_KEY"),
    (GO_IDLE, "GO_IDLE")
  ]

  /** The identifier-to-name table used for diagnostics. */
  const UART_PROTO_ID_STR: map<byte, string> := map[
    0x00 := "REQ_FOLLOW",
    0x01 := "EVENT_FOLLOW",
    0x02 := "EVENT_PACKET_ADV_PDU",
    0x05 := "EVENT_CONNECT",
    0x06 := "EVENT_PACKET_DATA_PDU",
    0x07 := "REQ_SCAN_CONT",
    0x09 := "EVENT_DISCONNECT",
    0x0C := "SET_TEMPORARY_KEY",
    0x0D := "PING_REQ",
    0x0E := "PING_RESP",
    0x13 := "SWITCH_BAUD_RATE_REQ",
    0x14 := "SWITCH_BAUD_RATE_RESP",
    0x17 := "SET_ADV_CHANNEL_HOP_SEQ",
    0x18 := "SET_PRIVATE_KEY",
    0x19 := "SET_LEGACY_LONG_TERM_KEY",
    0x1A := "SET_SC_LONG_TERM_KEY",
    0x1B := "REQ_VERSION",
    0x1C := "RESP_VERSION",
    0x1D := "REQ_TIMESTAMP",
    0x1E := "RESP_TIMESTAMP",
    0x1F := "SET_IDENTITY_RESOLVING_KEY",
    0xFE := "GO_IDLE"
  ]

  // ---------------------------------------------------------------------
  // Packet, advertising, PHY and PDU codes
  // ---------------------------------------------------------------------

  const PACKET_TYPE_UNKNOWN: nat := 0x00
  const PACKET_TYPE_ADVERTISING: nat := 0x01
  const PACKET_TYPE_DATA: nat := 0x02

  const ADV_TYPE_ADV_IND: nat := 0x0
  const ADV_TYPE_ADV_DIRECT_IND: nat := 0x1
  const ADV_TYPE_ADV_NONCONN_IND: nat := 0x2
  const ADV_TYPE_ADV_SCAN_IND: nat := 0x6
  const ADV_TYPE_SCAN_REQ: nat := 0x3
  const ADV_TYPE_SCAN_RSP: nat := 0x4
  const ADV_TYPE_CONNECT_REQ: nat := 0x5
  const ADV_TYPE_ADV_EXT_IND: nat := 0x7

  const PHY_1M: nat := 0
  const PHY_2M: nat := 1
  const PHY_CODED: nat := 2

  const PHY_CODED_CI_S8: nat := 0
  const PHY_CODED_CI_S2: nat := 1

  const PDU_TYPE_ADV_IND: nat := 0
  const PDU_TYPE_ADV_DIRECT_IND: nat := 1
  const PDU_TYPE_ADV_NONCONN_IND: nat := 2
  const PDU_TYPE_SCAN_REQ: nat := 3
  const PDU_TYPE_SCAN_RSP: nat := 4
  const PDU_TYPE_CONNECT_IND: nat := 5
  const PDU_TYPE_ADV_SCAN_IND: nat := 6
  const PDU_TYPE_ADV_EXT_IND: nat := 7
  const PDU_TYPE_AUX_CONNECT_RSP: nat := 8

  /** Display names of the PDU types, indexed by PDU type code. */
  const PDU_TYPES: seq<string> := [
    "ADV_IND", "ADV_DIRECT_IND", "ADV_NONCONN_IND", "SCAN_REQ", "SCAN_RSP",
    "CONNECT_IND", "ADV_SCAN_IND", "ADV_EXT_IND", "AUX_CONNECT_RSP"
  ]

  // ---------------------------------------------------------------------
  // Properties of the constant tables
  // ---------------------------------------------------------------------

  /** Each escape code is its delimiter plus one, and no escape code is itself a delimiter. */
  lemma EscapeCodesDistinct()
    ensures SLIP_ESC_START == SLIP_START + 1 && SLIP_ESC_END == SLIP_END + 1 && SLIP_ESC_ESC == SLIP_ESC + 1
    ensures SLIP_START !in {SLIP_ESC_START, SLIP_ESC_END, SLIP_ESC_ESC}
    ensures SLIP_END !in {SLIP_ESC_START, SLIP_ESC_END, SLIP_ESC_ESC}
    ensures SLIP_ESC !in {SLIP_ESC_START, SLIP_ESC_END, SLIP_ESC_ESC}
    ensures |{SLIP_START, SLIP_END, SLIP_ESC, SLIP_ESC_START, SLIP_ESC_END, SLIP_ESC_ESC}| == 6
  {
  }

  /** The 22 message identifiers are pairwise distinct; all but GO_IDLE lie in 0x00..0x1F. */
  lemma UartMessageIdsDistinct()
    ensures |UART_MESSAGE_IDS| == 22
    ensures forall i, j :: 0 <= i < j < |UART_MESSAGE_IDS| ==> UART_MESSAGE_IDS[i].0 != UART_MESSAGE_IDS[j].0
    ensures forall i :: 0 <= i < |UART_MESSAGE_IDS| ==>
              UART_MESSAGE_IDS[i].0 <= 0x1F || UART_MESSAGE_IDS[i].0 == GO_IDLE == 0xFE
  {
  }

  /** The name table has exactly the 22 identifiers as its keys. */
  lemma UartNameTableKeys()
    ensures UART_PROTO_ID_STR.Keys == {
              REQ_FOLLOW, EVENT_FOLLOW, EVENT_PACKET_ADV_PDU, EVENT_CONNECT, EVENT_PACKET_DATA_PDU,
              REQ_SCAN_CONT, EVENT_DISCONNECT, SET_TEMPORARY_KEY, PING_REQ, PING_RESP,
              SWITCH_BAUD_RATE_REQ, SWITCH_BAUD_RATE_RESP, SET_ADV_CHANNEL_HOP_SEQ, SET_PRIVATE_KEY,
              SET_LEGACY_LONG_TERM_KEY, SET_SC_LONG_TERM_KEY, REQ_VERSION, RESP_VERSION, REQ_TIMESTAMP,
              RESP_TIMESTAMP, SET_IDENTITY_RESOLVING_KEY, GO_IDLE}
  {
  }

  /** The name table names every identifier by the constant it is declared under. */
  lemma UartNameTableMatchesConstants()
    ensures forall i :: 0 <= i < |UART_MESSAGE_IDS| ==>
              UART_MESSAGE_IDS[i].0 in UART_PROTO_ID_STR && UART_PROTO_ID_STR[UART_MESSAGE_IDS[i].0] == UART_MESSAGE_IDS[i].1
  {
  }

  /** The PDU type name list is indexed by the PDU type codes 0..8. */
  lemma PduTypeNamesIndexed()
    ensures |PDU_TYPES| == PDU_TYPE_AUX_CONNECT_RSP + 1
    ensures PDU_TYPES[PDU_TYPE_ADV_IND] == "ADV_IND" && PDU_TYPES[PDU_TYPE_ADV_DIRECT_IND] == "ADV_DIRECT_IND"
    ensures PDU_TYPES[PDU_TYPE_ADV_NONCONN_IND] == "ADV_NONCONN_IND" && PDU_TYPES[PDU_TYPE_SCAN_REQ] == "SCAN_REQ"
    ensures PDU_TYPES[PDU_TYPE_SCAN_RSP] == "SCAN_RSP" && PDU_TYPES[PDU_TYPE_CONNECT_IND] == "CONNECT_IND"
    ensures PDU_TYPES[PDU_TYPE_ADV_SCAN_IND] == "ADV_SCAN_IND" && PDU_TYPES[PDU_TYPE_ADV_EXT_IND] == "ADV_EXT_IND"
    ensures PDU_TYPES[PDU_TYPE_AUX_CONNECT_RSP] == "AUX_CONNECT_RSP"
  {
  }

  /**
   * The advertising types are the PDU type codes under their older names;
   * the two coding indicators of the coded PHY are distinct and fit its
   * two-bit field; and the three packet types are distinct.
   */
  lemma PacketCodesConsistent()
    ensures ADV_TYPE_ADV_IND == PDU_TYPE_ADV_IND && ADV_TYPE_ADV_DIRECT_IND == PDU_TYPE_ADV_DIRECT_IND
    ensures ADV_TYPE_ADV_NONCONN_IND == PDU_TYPE_ADV_NONCONN_IND && ADV_TYPE_ADV_SCAN_IND == PDU_TYPE_ADV_SCAN_IND
    ensures ADV_TYPE_SCAN_REQ == PDU_TYPE_SCAN_REQ && ADV_TYPE_SCAN_RSP == PDU_TYPE_SCAN_RSP
    ensures ADV_TYPE_CONNECT_REQ == PDU_TYPE_CONNECT_IND == 5 && ADV_TYPE_ADV_EXT_IND == PDU_TYPE_ADV_EXT_IND
    ensures PHY_CODED_CI_S8 == 0 && PHY_CODED_CI_S2 == 1 && PHY_CODED_CI_S8 != PHY_CODED_CI_S2
    ensures PHY_CODED_CI_S8 < 4 && PHY_CODED_CI_S2 < 4
    ensures PACKET_TYPE_UNKNOWN != PACKET_TYPE_ADVERTISING && PACKET_TYPE_ADVERTISING != PACKET_TYPE_DATA
    ensures PACKET_TYPE_UNKNOWN != PACKET_TYPE_DATA
  {
  }

  /** The protocol versions are ordered, version 3 the newest. */
  lemma ProtocolVersionsOrdered()
    ensures PROTOVER_V1 < PROTOVER_V2 < PROTOVER_V3
  {
  }

  /** The PHY codes fit the three-bit PHY field of the flags byte. */
  lemma PhyCodesFitFlagsField()
    ensures PHY_1M < 8 && PHY_2M < 8 && PHY_CODED < 8
    ensures PHY_1M != PHY_2M && PHY_2M != PHY_CODED && PHY_1M != PHY_CODED
  {
  }
}
