/**
 * The sniffer's SLIP-like UART framing: a frame is START, the escaped
 * payload, END.  START, END and ESC inside the payload are sent as ESC
 * followed by the delimiter plus one.
 */
module Slip {
  import opened Types

  // ---------------------------------------------------------------------
  // Encoding
  // ---------------------------------------------------------------------

  /** What one payload byte becomes on the wire. */
  function EscapeByte(b: byte): (r: seq<byte>)
    ensures 1 <= |r| <= 2
  {
    if b == SLIP_START then [SLIP_ESC, SLIP_ESC_START]
    else if b == SLIP_END then [SLIP_ESC, SLIP_ESC_END]
    else if b == SLIP_ESC then [SLIP_ESC, SLIP_ESC_ESC]
    else [b]
  }

  /** The escaped form of a payload. */
  function Escaped(bs: seq<byte>): seq<byte>
  {
    if bs == [] then [] else EscapeByte(bs[0]) + Escaped(bs[1..])
  }

  /** A complete frame around a payload. */
  function SlipFrame(bs: seq<byte>): seq<byte>
  {
    [SLIP_START] + Escaped(bs) + [SLIP_END]
  }

  lemma {:induction false} EscapedAppend(bs: seq<byte>, b: byte)
    ensures Escaped(bs + [b]) == Escaped(bs) + EscapeByte(b)
  {
    if bs != [] {
      assert (bs + [b])[1..] == bs[1..] + [b];
      EscapedAppend(bs[1..], b);
    }
  }

  /** Builds the frame byte by byte, escaping delimiter bytes. */
  method EncodeToSlip(byteList: seq<byte>) returns (buffer: seq<byte>)
    ensures buffer == SlipFrame(byteList)
  {
    buffer := [SLIP_START];
    for i := 0 to |byteList|
      invariant buffer == [SLIP_START] + Escaped(byteList[..i])
    {
      var b := byteList[i];
      assert byteList[..i + 1] == byteList[..i] + [b];
      EscapedAppend(byteList[..i], b);
      ghost var before := buffer;
      assert before + EscapeByte(b) == [SLIP_START] + Escaped(byteList[..i + 1]);
      if b == SLIP_START {
        buffer := buffer + [SLIP_ESC, SLIP_ESC_START];
      } else if b == SLIP_END {
        buffer := buffer + [SLIP_ESC, SLIP_ESC_END];
      } else if b == SLIP_ESC {
        buffer := buffer + [SLIP_ESC, SLIP_ESC_ESC];
      } else {
        buffer := buffer + [b];
      }
      assert buffer == before + EscapeByte(b);
    }
    assert byteList[..|byteList|] == byteList;
    buffer := buffer + [SLIP_END];
  }

  /** The escaped payload never contains a START or an END byte. */
  lemma {:induction false} EscapedHasNoDelimiters(bs: seq<byte>)
    ensures SLIP_START !in Escaped(bs) && SLIP_END !in Escaped(bs)
    ensures |bs| <= |Escaped(bs)| <= 2 * |bs|
  {
    if bs != [] {
      EscapedHasNoDelimiters(bs[1..]);
    }
  }

  /** START occurs only first and END only last in a frame. */
  lemma FrameDelimitersOnlyAtEnds(bs: seq<byte>)
    ensures var f := SlipFrame(bs);
      f[0] == SLIP_START && f[|f| - 1] == SLIP_END &&
      (forall k :: 0 < k < |f| - 1 ==> f[k] != SLIP_START && f[k] != SLIP_END)
  {
    EscapedHasNoDelimiters(bs);
    var f := SlipFrame(bs);
    forall k | 0 < k < |f| - 1
      ensures f[k] != SLIP_START && f[k] != SLIP_END
    {
      assert f[k] == Escaped(bs)[k - 1];
    }
  }

  // ---------------------------------------------------------------------
  // Decoding
  // ---------------------------------------------------------------------

  /**
   * Successive results of the serial port's byte reads: None is a read that
   * timed out.  Reading past the end also times out.
   */
  type SerialStream = seq<Option<byte>>

  datatype SlipError =
    | SnifferTimeout   // a byte read timed out
    | UartPacketError  // the deadline passed before END arrived

  /** A decoded payload and the stream position just after its END byte. */
  datatype Decoded = Decoded(frame: seq<byte>, next: nat)

  /**
   * The overall deadline, counted in loop rounds: None is no deadline;
   * Some(n) lets n more rounds start.
   */
  type Deadline = Option<nat>

  predicate Expired(d: Deadline)
  {
    d == Some(0)
  }

  /** One round has started. */
  function Tick(d: Deadline): Deadline
  {
    if d.Some? && d.value > 0 then Some(d.value - 1) else d
  }

  /** The byte read at `pos`, or SnifferTimeout. */
  function GetSerialByte(src: SerialStream, pos: nat): (r: Result<byte, SlipError>)
    ensures r.Success? ==> pos < |src| && src[pos] == Some(r.value)
    ensures r.Failure? ==> r.error == SnifferTimeout
  {
    if pos < |src| && src[pos].Some? then Success(src[pos].value) else Failure(SnifferTimeout)
  }

  /** The byte an escape code stands for; an unknown code is read as END. */
  function Unescape(code: byte): byte
  {
    if code == SLIP_ESC_START then SLIP_START
    else if code == SLIP_ESC_END then SLIP_END
    else if code == SLIP_ESC_ESC then SLIP_ESC
    else SLIP_END
  }

  /** First phase: discard bytes until START. */
  function AwaitStart(src: SerialStream, pos: nat, d: Deadline): Result<Decoded, SlipError>
    decreases |src| - pos
  {
    if Expired(d) then Failure(UartPacketError)
    else match GetSerialByte(src, pos)
      case Failure(e) => Failure(e)
      case Success(b) =>
        if b == SLIP_START then ReadFrame(src, pos + 1, Tick(d), [])
        else AwaitStart(src, pos + 1, Tick(d))
  }

  /** Second phase: collect unescaped bytes until END. */
  function ReadFrame(src: SerialStream, pos: nat, d: Deadline, acc: seq<byte>): Result<Decoded, SlipError>
    decreases |src| - pos
  {
    if Expired(d) then Failure(UartPacketError)
    else match GetSerialByte(src, pos)
      case Failure(e) => Failure(e)
      case Success(b) =>
        if b == SLIP_END then Success(Decoded(acc, pos + 1))
        else if b == SLIP_ESC then
          match GetSerialByte(src, pos + 1)
            case Failure(e) => Failure(e)
            case Success(code) => ReadFrame(src, pos + 2, Tick(d), acc + [Unescape(code)])
        else ReadFrame(src, pos + 1, Tick(d), acc + [b])
  }

  /** Reads one frame from the stream starting at `start`. */
  method DecodeFromSlip(src: SerialStream, start: nat, completeTimeout: Deadline)
    returns (r: Result<Decoded, SlipError>)
    ensures r == AwaitStart(src, start, completeTimeout)
  {
    var dataBuffer: seq<byte> := [];
    var startOfPacket := false;
    var endOfPacket := false;
    var pos := start;
    var d := completeTimeout;
    while !startOfPacket && !Expired(d)
      invariant !startOfPacket ==> AwaitStart(src, start, completeTimeout) == AwaitStart(src, pos, d)
      invariant startOfPacket ==> AwaitStart(src, start, completeTimeout) == ReadFrame(src, pos, d, [])
      decreases |src| - pos, !startOfPacket
    {
      var res := GetSerialByte(src, pos);
      if res.Failure? {
        return Failure(res.error);
      }
      d := Tick(d);
      pos := pos + 1;
      startOfPacket := res.value == SLIP_START;
    }
    if !startOfPacket {
      return Failure(UartPacketError);
    }
    while !endOfPacket && !Expired(d)
      invariant !endOfPacket ==> AwaitStart(src, start, completeTimeout) == ReadFrame(src, pos, d, dataBuffer)
      invariant endOfPacket ==> AwaitStart(src, start, completeTimeout) == Success(Decoded(dataBuffer, pos))
      decreases |src| - pos, !endOfPacket
    {
      var serialByte := GetSerialByte(src, pos);
      if serialByte.Failure? {
        return Failure(serialByte.error);
      }
      if serialByte.value == SLIP_END {
        endOfPacket := true;
        pos := pos + 1;
      } else if serialByte.value == SLIP_ESC {
        var code := GetSerialByte(src, pos + 1);
        if code.Failure? {
          return Failure(code.error);
        }
        if code.value == SLIP_ESC_START {
          dataBuffer := dataBuffer + [SLIP_START];
        } else if code.value == SLIP_ESC_END {
          dataBuffer := dataBuffer + [SLIP_END];
        } else if code.value == SLIP_ESC_ESC {
          dataBuffer := dataBuffer + [SLIP_ESC];
        } else {
          dataBuffer := dataBuffer + [SLIP_END];
        }
        d := Tick(d);
        pos := pos + 2;
      } else {
        dataBuffer := dataBuffer + [serialByte.value];
        d := Tick(d);
        pos := pos + 1;
      }
    }
    if !endOfPacket {
      return Failure(UartPacketError);
    }
    return Success(Decoded(dataBuffer, pos));
  }

  // ---------------------------------------------------------------------
  // Decoding properties
  // ---------------------------------------------------------------------

  /** A stream whose reads all succeed, delivering `bs`. */
  function Delivered(bs: seq<byte>): (src: SerialStream)
    ensures |src| == |bs| && forall k :: 0 <= k < |bs| ==> src[k] == Some(bs[k])
  {
    seq(|bs|, k requires 0 <= k < |bs| => Some(bs[k]))
  }

  /** The stream delivers `bs` from position `pos` on. */
  ghost predicate DeliversAt(src: SerialStream, pos: nat, bs: seq<byte>)
  {
    pos + |bs| <= |src| && forall k :: 0 <= k < |bs| ==> src[pos + k] == Some(bs[k])
  }

  /** The deadline after n more rounds, when at least n are left. */
  function Spend(d: Deadline, n: nat): Deadline
    requires d.Some? ==> d.value >= n
  {
    if d.None? then None else Some(d.value - n)
  }

  /** Bytes other than START are skipped, one round each. */
  lemma {:induction false} AwaitStartSkips(src: SerialStream, pos: nat, d: Deadline, junk: seq<byte>)
    requires DeliversAt(src, pos, junk) && SLIP_START !in junk
    requires d.Some? ==> d.value >= |junk|
    ensures AwaitStart(src, pos, d) == AwaitStart(src, pos + |junk|, Spend(d, |junk|))
    decreases |junk|
  {
    if junk != [] {
      assert src[pos] == Some(junk[0]);
      assert DeliversAt(src, pos + 1, junk[1..]) by {
        forall k | 0 <= k < |junk[1..]|
          ensures src[pos + 1 + k] == Some(junk[1..][k])
        {
          assert src[pos + (k + 1)] == Some(junk[k + 1]);
        }
      }
      AwaitStartSkips(src, pos + 1, Tick(d), junk[1..]);
    }
  }

  /** An escaped payload is read back unescaped, one round per payload byte. */
  lemma {:induction false} ReadFrameEscaped(src: SerialStream, pos: nat, d: Deadline, acc: seq<byte>, bs: seq<byte>)
    requires DeliversAt(src, pos, Escaped(bs))
    requires d.Some? ==> d.value >= |bs|
    ensures ReadFrame(src, pos, d, acc) == ReadFrame(src, pos + |Escaped(bs)|, Spend(d, |bs|), acc + bs)
    decreases |bs|
  {
    if bs == [] {
      assert acc + bs == acc;
    } else {
      var b := bs[0];
      var e := EscapeByte(b);
      var rest := Escaped(bs[1..]);
      assert Escaped(bs) == e + rest;
      DeliversSplit(src, pos, e, rest);
      ReadEscapedByte(src, pos, d, acc, b);
      assert acc + [b] + bs[1..] == acc + bs;
      ReadFrameEscaped(src, pos + |e|, Tick(d), acc + [b], bs[1..]);
    }
  }

  /** Delivering a + b at pos is delivering a at pos and b right after it. */
  lemma DeliversSplit(src: SerialStream, pos: nat, a: seq<byte>, b: seq<byte>)
    requires DeliversAt(src, pos, a + b)
    ensures DeliversAt(src, pos, a) && DeliversAt(src, pos + |a|, b)
  {
    forall k | 0 <= k < |b|
      ensures src[pos + |a| + k] == Some(b[k])
    {
      assert src[pos + (|a| + k)] == Some((a + b)[|a| + k]);
    }
    forall k | 0 <= k < |a|
      ensures src[pos + k] == Some(a[k])
    {
      assert src[pos + k] == Some((a + b)[k]);
    }
  }

  /** One escaped payload byte is read back as that byte, in one round. */
  lemma ReadEscapedByte(src: SerialStream, pos: nat, d: Deadline, acc: seq<byte>, b: byte)
    requires DeliversAt(src, pos, EscapeByte(b)) && !Expired(d)
    ensures ReadFrame(src, pos, d, acc) == ReadFrame(src, pos + |EscapeByte(b)|, Tick(d), acc + [b])
  {
    var e := EscapeByte(b);
    assert src[pos] == Some(e[0]);
    if |e| == 2 {
      assert src[pos + 1] == Some(e[1]);
      assert Unescape(e[1]) == b;
    }
  }

  /**
   * Round trip: after any bytes that contain no START, a frame decodes to its
   * payload, whatever follows it, provided the deadline (if any) leaves one
   * round per skipped byte, one for START, one per payload byte and one for END.
   */
  lemma DecodeEncodedFrame(junk: seq<byte>, bs: seq<byte>, rest: seq<byte>, d: Deadline)
    requires SLIP_START !in junk
    requires d.Some? ==> d.value >= |junk| + |bs| + 2
    ensures AwaitStart(Delivered(junk + SlipFrame(bs) + rest), 0, d)
         == Success(Decoded(bs, |junk| + |SlipFrame(bs)|))
  {
    var all := junk + SlipFrame(bs) + rest;
    var src := Delivered(all);
    assert DeliversAt(src, 0, junk) by {
      forall k | 0 <= k < |junk| ensures src[k] == Some(junk[k]) {
        assert all[k] == junk[k];
      }
    }
    assert DeliversAt(src, |junk|, SlipFrame(bs)) by {
      forall k | 0 <= k < |SlipFrame(bs)| ensures src[|junk| + k] == Some(SlipFrame(bs)[k]) {
        assert all[|junk| + k] == SlipFrame(bs)[k];
      }
    }
    AwaitStartSkips(src, 0, d, junk);
    FrameAt(src, |junk|, Spend(d, |junk|), bs);
  }

  /** A frame delivered at `pos` decodes to its payload when the deadline leaves enough rounds. */
  lemma FrameAt(src: SerialStream, pos: nat, d: Deadline, bs: seq<byte>)
    requires DeliversAt(src, pos, SlipFrame(bs))
    requires d.Some? ==> d.value >= |bs| + 2
    ensures AwaitStart(src, pos, d) == Success(Decoded(bs, pos + |SlipFrame(bs)|))
  {
    var f := SlipFrame(bs);
    var e := Escaped(bs);
    assert src[pos] == Some(f[0]);
    StartRead(src, pos, d);
    assert DeliversAt(src, pos + 1, e) by {
      forall k | 0 <= k < |e| ensures src[pos + 1 + k] == Some(e[k]) {
        assert src[pos + (1 + k)] == Some(f[1 + k]);
      }
    }
    ReadFrameEscaped(src, pos + 1, Tick(d), [], bs);
    assert src[pos + 1 + |e|] == Some(f[1 + |e|]);
    assert [] + bs == bs;
    EndRead(src, pos + 1 + |e|, Spend(Tick(d), |bs|), bs);
  }

  lemma StartRead(src: SerialStream, pos: nat, d: Deadline)
    requires pos < |src| && src[pos] == Some(SLIP_START) && !Expired(d)
    ensures AwaitStart(src, pos, d) == ReadFrame(src, pos + 1, Tick(d), [])
  {
  }

  lemma EndRead(src: SerialStream, pos: nat, d: Deadline, acc: seq<byte>)
    requires pos < |src| && src[pos] == Some(SLIP_END) && !Expired(d)
    ensures ReadFrame(src, pos, d, acc) == Success(Decoded(acc, pos + 1))
  {
  }

  /** An escape code other than the three defined ones is read as END, and reading goes on. */
  lemma UnknownEscapeReadsAsEnd(src: SerialStream, pos: nat, d: Deadline, acc: seq<byte>, code: byte)
    requires pos + 1 < |src| && src[pos] == Some(SLIP_ESC) && src[pos + 1] == Some(code)
    requires code !in {SLIP_ESC_START, SLIP_ESC_END, SLIP_ESC_ESC}
    requires !Expired(d)
    ensures ReadFrame(src, pos, d, acc) == ReadFrame(src, pos + 2, Tick(d), acc + [SLIP_END])
  {
  }

  /** A read that times out before START arrives raises SnifferTimeout. */
  lemma TimeoutBeforeStart(junk: seq<byte>, rest: SerialStream, d: Deadline)
    requires SLIP_START !in junk
    requires d.Some? ==> d.value > |junk|
    ensures AwaitStart(Delivered(junk) + [None] + rest, 0, d) == Failure(SnifferTimeout)
  {
    var src := Delivered(junk) + [None] + rest;
    assert DeliversAt(src, 0, junk);
    AwaitStartSkips(src, 0, d, junk);
  }

  /** A deadline that runs out while junk is being skipped raises UartPacketError. */
  lemma DeadlineWhileAwaitingStart(junk: seq<byte>, rest: SerialStream, n: nat)
    requires SLIP_START !in junk && n <= |junk|
    ensures AwaitStart(Delivered(junk) + rest, 0, Some(n)) == Failure(UartPacketError)
  {
    var src := Delivered(junk) + rest;
    assert DeliversAt(src, 0, junk[..n]);
    assert SLIP_START !in junk[..n] by {
      forall k | 0 <= k < n ensures junk[..n][k] != SLIP_START {
        assert junk[..n][k] == junk[k];
      }
    }
    AwaitStartSkips(src, 0, Some(n), junk[..n]);
  }

  /**
   * A deadline that runs out after START, once the payload bytes are read but
   * before END is, raises UartPacketError, whatever the stream holds next.
   */
  lemma DeadlineInsideFrame(junk: seq<byte>, bs: seq<byte>, rest: SerialStream)
    requires SLIP_START !in junk
    ensures AwaitStart(Delivered(junk + [SLIP_START] + Escaped(bs)) + rest, 0, Some(|junk| + 1 + |bs|))
         == Failure(UartPacketError)
  {
    var src := Delivered(junk + [SLIP_START] + Escaped(bs)) + rest;
    var endAt := |junk| + 1 + |Escaped(bs)|;
    assert AwaitStart(src, 0, Some(|junk| + 1 + |bs|)) == AwaitStart(src, |junk|, Some(1 + |bs|)) by {
      FrameParts(junk, Escaped(bs), rest);
      AwaitStartSkips(src, 0, Some(|junk| + 1 + |bs|), junk);
    }
    assert AwaitStart(src, |junk|, Some(1 + |bs|)) == ReadFrame(src, |junk| + 1, Some(|bs|), []) by {
      FrameBodyParts(junk, Escaped(bs), rest);
      StartRead(src, |junk|, Some(1 + |bs|));
    }
    assert ReadFrame(src, |junk| + 1, Some(|bs|), []) == ReadFrame(src, endAt, Some(0), bs) by {
      FrameBodyParts(junk, Escaped(bs), rest);
      ReadFrameEscaped(src, |junk| + 1, Some(|bs|), [], bs);
      assert [] + bs == bs;
    }
    assert ReadFrame(src, endAt, Some(0), bs) == Failure(UartPacketError);
  }

  /** The junk part of a stream that delivers junk, START and an escaped payload, then anything. */
  lemma FrameParts(junk: seq<byte>, e: seq<byte>, rest: SerialStream)
    ensures DeliversAt(Delivered(junk + [SLIP_START] + e) + rest, 0, junk)
  {
    var all := junk + [SLIP_START] + e;
    var src := Delivered(all) + rest;
    assert DeliversAt(src, 0, all);
    DeliversSplit(src, 0, junk + [SLIP_START], e);
    DeliversSplit(src, 0, junk, [SLIP_START]);
  }

  /** The frame part of the same stream: START, then the escaped payload. */
  lemma FrameBodyParts(junk: seq<byte>, e: seq<byte>, rest: SerialStream)
    ensures var src := Delivered(junk + [SLIP_START] + e) + rest;
      |junk| < |src| && src[|junk|] == Some(SLIP_START) && DeliversAt(src, |junk| + 1, e)
  {
    var all := junk + [SLIP_START] + e;
    var src := Delivered(all) + rest;
    assert DeliversAt(src, 0, all);
    DeliversSplit(src, 0, junk + [SLIP_START], e);
    assert all[|junk|] == SLIP_START;
  }

  /** A stream that ends inside a frame, with no deadline, raises SnifferTimeout. */
  lemma TruncatedFrameTimesOut(junk: seq<byte>, bs: seq<byte>)
    requires SLIP_START !in junk
    ensures AwaitStart(Delivered(junk + [SLIP_START] + Escaped(bs)), 0, None) == Failure(SnifferTimeout)
  {
    var all := junk + [SLIP_START] + Escaped(bs);
    var src := Delivered(all);
    var e := Escaped(bs);
    assert DeliversAt(src, 0, junk) by {
      forall k | 0 <= k < |junk| ensures src[k] == Some(junk[k]) {
        assert all[k] == junk[k];
      }
    }
    AwaitStartSkips(src, 0, None, junk);
    assert all[|junk|] == SLIP_START;
    assert DeliversAt(src, |junk| + 1, e) by {
      forall k | 0 <= k < |e| ensures src[|junk| + 1 + k] == Some(e[k]) {
        assert all[|junk| + 1 + k] == e[k];
      }
    }
    ReadFrameEscaped(src, |junk| + 1, None, [], bs);
  }
}
