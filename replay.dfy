/**
 * Replaying a capture file: each record's sniffer packet is parsed in
 * capture-file mode against one reader session, and at the end the
 * collected inter-frame spacing samples give the T_IFS verdict.
 */
module Replay {
  import opened Types
  import opened Packets

  /** What happened to one record. */
  datatype RecordOutcome = Skipped | Recorded(gap: bool)

  /**
   * One capture record: its first byte (the record's own header byte) is
   * dropped, the rest is parsed in capture-file mode; a valid packet is made
   * compatible and then recorded in the history, an invalid one skipped.  A
   * fault in the compatibility step ends the replay.
   */
  method ReplayRecord(reader: PacketReader, data: seq<byte>, fileType: int, packetTimeFromPcap: int)
    returns (packet: Packet, r: Result<RecordOutcome, Fault>)
    requires reader.Valid()
    modifies reader
    ensures reader.Valid() && fresh(packet)
    ensures packet.isParser
    ensures !packet.valid || reader.supportedProtocolVersion != PROTOVER_V2 as nat ==> packet.packetList == From(data, 1)
    ensures !packet.valid ==>
      r == Success(Skipped) && reader.lastReceivedPacket == old(reader.lastReceivedPacket) &&
      reader.lastReceivedTimestampPacket == old(reader.lastReceivedTimestampPacket)
    ensures r.Success? && packet.valid ==>
      reader.lastReceivedPacket == packet &&
      r.value == Recorded(old(reader.lastReceivedPacket) != null &&
                          CounterGap(old(reader.lastReceivedPacket.packetCounter), packet.packetCounter))
    ensures r.Failure? ==> packet.valid && reader.lastReceivedPacket == old(reader.lastReceivedPacket)
    ensures reader.packetCounter == old(reader.packetCounter)
    ensures reader.supportedProtocolVersion == PROTOVER_V3 as nat ==> r.Success?
    ensures reader.supportedProtocolVersion == old(reader.supportedProtocolVersion)
    ensures packet.blePacket.Some? ==> packet.ok && packet.flags.Some?
    ensures reader.TrackingState() ==
      (if packet.blePacket.Some? then
         TrackStep(old(reader.TrackingState()),
                   Observation(true, PacketTypeOf(packet.protover, packet.id, From(data, 1)), packet.blePacket.value,
                               packet.flags.value.phy, packet.flags.value.direction, packet.endToStart, packetTimeFromPcap))
       else old(reader.TrackingState()))
    ensures packet.valid ==> ReadHeader(From(data, 1)).Success? && |From(data, 1)| > ID_POS
    ensures var downgrade := packet.valid && reader.supportedProtocolVersion == PROTOVER_V2 as nat && packet.protover > PROTOVER_V2;
      var outcome :=
        if downgrade then
          var ev := EventOf(From(data, 1), ReadHeader(From(data, 1)).value, true, true, fileType,
                            old(reader.lastReceivedTimestampPacket), old(reader.lastReceivedPacket));
          old(reader.Downgraded(From(data, 1), ev.timestamp))
        else (Success(Unchanged), From(data, 1));
      packet.packetList == outcome.1 &&
      (r.Failure? <==> outcome.0.Failure?) &&
      (r.Failure? ==> r.error == outcome.0.error)
  {
    ghost var h := ReadHeader(From(data, 1));
    ghost var ev := if h.Success? then
                      EventOf(From(data, 1), h.value, true, true, fileType,
                              reader.lastReceivedTimestampPacket, reader.lastReceivedPacket)
                    else EventFields(None, None, None, None, None, None, 0, From(data, 1), 0, false, false);
    ghost var outcome := if h.Success? then reader.Downgraded(From(data, 1), ev.timestamp) else (Success(Unchanged), []);
    packet := new Packet(From(data, 1), true, reader, fileType, packetTimeFromPcap);
    if !packet.valid {
      return packet, Success(Skipped);
    }
    assert packet.packetList == From(data, 1);
    assert reader.Downgraded(packet.packetList, packet.timestamp) == outcome;
    var compatibility := reader.HandlePacketCompatibility(packet);
    if compatibility.Failure? {
      assert compatibility == outcome.0;
      return packet, Failure(compatibility.error);
    }
    var gap := reader.HandlePacketHistory(packet);
    r := Success(Recorded(gap));
  }

  // ---------------------------------------------------------------------
  // T_IFS verdict
  // ---------------------------------------------------------------------

  /** T_IFS is 150 microseconds; samples within 2 microseconds of it pass. */
  const TIFS_MIN: int := 148
  const TIFS_MAX: int := 152

  datatype TifsVerdict = NoTifs | TifsPass | TifsFail

  function MaxOf(s: seq<int>): (m: int)
    requires |s| > 0
    ensures m in s && forall k :: 0 <= k < |s| ==> s[k] <= m
  {
    if |s| == 1 then s[0]
    else
      var rest := MaxOf(s[1..]);
      if s[0] >= rest then s[0] else rest
  }

  function MinOf(s: seq<int>): (m: int)
    requires |s| > 0
    ensures m in s && forall k :: 0 <= k < |s| ==> m <= s[k]
  {
    if |s| == 1 then s[0]
    else
      var rest := MinOf(s[1..]);
      if s[0] <= rest then s[0] else rest
  }

  /** No samples; otherwise a pass when the largest is at most 152 and the smallest at least 148. */
  function Verdict(allTifs: seq<int>): TifsVerdict
  {
    if |allTifs| == 0 then NoTifs
    else if MaxOf(allTifs) <= TIFS_MAX && MinOf(allTifs) >= TIFS_MIN then TifsPass
    else TifsFail
  }

  /** The verdict passes exactly when there are samples and every one lies in [148, 152]. */
  lemma VerdictPassesIffAllInWindow(allTifs: seq<int>)
    ensures Verdict(allTifs) == TifsPass <==>
      |allTifs| > 0 && forall k :: 0 <= k < |allTifs| ==> TIFS_MIN <= allTifs[k] <= TIFS_MAX
    ensures Verdict(allTifs) == TifsFail <==>
      exists k :: 0 <= k < |allTifs| && (allTifs[k] < TIFS_MIN || allTifs[k] > TIFS_MAX)
  {
    if |allTifs| > 0 {
      var hi, lo := MaxOf(allTifs), MinOf(allTifs);
      var i :| 0 <= i < |allTifs| && allTifs[i] == hi;
      var j :| 0 <= j < |allTifs| && allTifs[j] == lo;
    }
  }
}
