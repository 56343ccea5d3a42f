/**
 * The pure parts of the two HCI command-line tools, BLE_hci.py and
 * ble_hci_console.py, which carry the same helpers and the same command
 * builders.  Each builder turns its command-line arguments (strings) into
 * HCI command packets written as hex text: the UART packet indicator 0x01,
 * a two-byte opcode, a parameter length byte and the parameters (Bluetooth
 * Core Specification, Vol 4, Part A, section 2 and Vol 4, Part E,
 * section 5.4.1).  Writing to the serial port and waiting for events are
 * not modelled: a builder returns the commands it would write.
 */
module Hci {
  import opened Types
  import opened LittleEndian
  import opened PyText

  /** What a command function raises, or does instead of sending. */
  datatype HciError =
    | ValueError  // int() of text that is no number, range() with step 0, a negative shift count
    | IndexError  // a list index past the end
    | Rejected    // the function printed a complaint and returned without sending

  /** The commands a function wrote, in order, and the exception that ended it, if any. */
  datatype Run = Run(sent: seq<string>, raised: Option<HciError>)

  function Pow2(n: nat): (p: nat)
    ensures p > 0
  {
    if n == 0 then 1 else 2 * Pow2(n - 1)
  }

  // ---------------------------------------------------------------------
  // Hex bytes
  // ---------------------------------------------------------------------

  lemma HexSlice(s: string, a: nat, b: nat)
    requires IsHexString(s) && a <= b <= |s|
    ensures IsHexString(s[a..b])
  {
    assert forall k :: 0 <= k < b - a ==> s[a..b][k] == s[a + k];
  }

  lemma SliceOfSlice<T>(s: seq<T>, a: nat, b: nat, c: nat, d: nat)
    requires a <= b <= |s| && c <= d <= b - a
    ensures s[a..b][c..d] == s[a + c..a + d]
  {
    var t := s[a..b];
    forall k | 0 <= k < d - c
      ensures t[c..d][k] == s[a + c + k]
    {
      assert t[c..d][k] == t[c + k];
    }
  }

  lemma SubSlice(s: string, a: nat, b: nat, c: nat, d: nat)
    requires a <= c <= d <= b <= |s| && IsHexString(s[a..b])
    ensures IsHexString(s[c..d])
  {
    assert forall k :: 0 <= k < d - c ==> s[c..d][k] == s[a..b][c - a + k];
  }

  /** Concatenated hex texts are a hex text. */
  lemma {:induction false} ConcatHex(parts: seq<string>)
    requires forall k :: 0 <= k < |parts| ==> IsHexString(parts[k])
    ensures IsHexString(Concat(parts))
    decreases |parts|
  {
    if parts != [] {
      ConcatHex(parts[1..]);
      HexConcat(parts[0], Concat(parts[1..]));
    }
  }

  lemma HexConcat(a: string, b: string)
    requires IsHexString(a) && IsHexString(b)
    ensures IsHexString(a + b)
  {
    assert forall k :: 0 <= k < |a + b| ==> (a + b)[k] == if k < |a| then a[k] else b[k - |a|];
  }

  function ByteAt(s: string, k: nat): (b: byte)
    requires IsHexString(s) && 2 * k + 2 <= |s|
  {
    HexSlice(s, 2 * k, 2 * k + 2);
    assert Pow16(2) == 256;
    HexValue(s[2 * k..2 * k + 2])
  }

  /** The bytes an even-length hex string writes, two digits each, in text order. */
  function HexBytes(s: string): (r: seq<byte>)
    requires IsHexString(s) && |s| % 2 == 0
    ensures |r| == |s| / 2
    ensures forall k :: 0 <= k < |r| ==> r[k] == ByteAt(s, k)
  {
    seq(|s| / 2, k requires 0 <= k < |s| / 2 => ByteAt(s, k))
  }

  lemma HexBytesSnoc(front: string, last: string)
    requires IsHexString(front) && IsHexString(last) && |front| % 2 == 0 && |last| == 2
    ensures IsHexString(front + last)
    ensures HexBytes(front + last) == HexBytes(front) + [ByteAt(last, 0)]
  {
    HexConcat(front, last);
    var s := front + last;
    var bs := HexBytes(s);
    forall k | 0 <= k < |bs|
      ensures bs[k] == (HexBytes(front) + [ByteAt(last, 0)])[k]
    {
      if k < |bs| - 1 {
        assert s[2 * k..2 * k + 2] == front[2 * k..2 * k + 2];
      } else {
        assert s[2 * k..2 * k + 2] == last[0..2];
      }
    }
  }

  lemma ReverseSnoc<T>(s: seq<T>, x: T)
    ensures Reverse(s + [x]) == [x] + Reverse(s)
  {
    var r := Reverse(s + [x]);
    assert forall k :: 1 <= k < |r| ==> r[k] == Reverse(s)[k - 1];
  }

  /** Read as a number, the text is its bytes with the first one most significant. */
  lemma {:induction false} HexValueOfBytes(s: string)
    requires IsHexString(s) && |s| % 2 == 0
    ensures HexValue(s) == LittleEndianValue(Reverse(HexBytes(s)))
    decreases |s|
  {
    if |s| > 0 {
      var n := |s| - 2;
      var front, last := s[..n], s[n..];
      HexSlice(s, 0, n);
      HexSlice(s, n, |s|);
      assert front + last == s;
      var b := ByteAt(last, 0);
      var rest := Reverse(HexBytes(front));
      LastByteSplit(front, last);
      assert LittleEndianValue([b] + rest) == b + 256 * LittleEndianValue(rest) by {
        assert ([b] + rest)[1..] == rest;
      }
      HexValueOfBytes(front);
    }
  }

  /** Appending one two-digit byte text adds a low byte to the value and a first byte to the reversed bytes. */
  lemma LastByteSplit(front: string, last: string)
    requires IsHexString(front) && |front| % 2 == 0 && IsHexString(last) && |last| == 2
    ensures IsHexString(front + last)
    ensures HexValue(front + last) == HexValue(front) * 256 + ByteAt(last, 0)
    ensures Reverse(HexBytes(front + last)) == [ByteAt(last, 0)] + Reverse(HexBytes(front))
  {
    HexConcat(front, last);
    HexValueAppend(front, last);
    assert Pow16(2) == 256;
    assert last[0..2] == last;
    HexBytesSnoc(front, last);
    ReverseSnoc(HexBytes(front), ByteAt(last, 0));
  }

  /** A hex text of n bytes whose value fits writes the value's n bytes, most significant first. */
  lemma HexBytesOfValue(s: string)
    requires IsHexString(s) && |s| % 2 == 0
    ensures Reverse(HexBytes(s)) == LittleEndianBytes(HexValue(s), |s| / 2)
  {
    HexValueOfBytes(s);
    LittleEndianBytesOfValue(Reverse(HexBytes(s)));
  }

  /** "%0.2X" of a byte value: two digits that read back as the byte. */
  lemma FormatByte(v: nat)
    requires v < 256
    ensures |FormatHex(v, 2)| == 2 && HexBytes(FormatHex(v, 2)) == [v]
  {
    assert Pow16(2) == 256;
    FormatHexWidth(v, 2);
    assert FormatHex(v, 2)[0..2] == FormatHex(v, 2);
  }

  // ---------------------------------------------------------------------
  // tohex
  // ---------------------------------------------------------------------

  lemma ShiftByModulus(val: int, m: int)
    requires m > 0
    ensures (val + m) % m == val % m
  {
    var q := val / m;
    assert val + m == m * (q + 1) + val % m;
    DivModUnique(val + m, m, q + 1, val % m);
  }

  /** tohex(val, nbits): hex() of val modulo 2^nbits, which for a negative val is its two's complement. */
  function ToHex(val: int, nbits: nat): (s: string)
    ensures |s| >= 3 && s[..2] == "0x" && IsHexString(s[2..])
    ensures HexValue(s[2..]) == val % Pow2(nbits) < Pow2(nbits)
  {
    ShiftByModulus(val, Pow2(nbits));
    PyHex((val + Pow2(nbits)) % Pow2(nbits))
  }

  /** An nbits-bit pattern read as a two's complement number. */
  function Signed(u: int, nbits: nat): int
    requires nbits > 0
  {
    if u >= Pow2(nbits - 1) then u - Pow2(nbits) else u
  }

  /** int(tohex(val, nbits), 16) is val modulo 2^nbits, and reads back as val whenever val fits in nbits signed bits. */
  lemma ToHexReadsBack(val: int, nbits: nat)
    ensures ParseHexInt(ToHex(val, nbits)) == Some(val % Pow2(nbits))
    ensures nbits > 0 && 0 <= val + Pow2(nbits - 1) && val < Pow2(nbits - 1) ==> Signed(val % Pow2(nbits), nbits) == val
  {
    ParseHexOfFormatted((val + Pow2(nbits)) % Pow2(nbits), 0);
    if nbits > 0 && 0 <= val + Pow2(nbits - 1) && val < Pow2(nbits - 1) {
      if val >= 0 {
        DivModUnique(val, Pow2(nbits), 0, val);
      } else {
        DivModUnique(val, Pow2(nbits), -1, val + Pow2(nbits));
      }
    }
  }

  /** "%0.2X" % int(tohex(power, 8), 16): the TX power as one two's complement byte. */
  function PowerByte(power: int): (s: string)
    ensures |s| == 2 && IsUpperHexString(s) && HexBytes(s) == [power % 256]
  {
    var parsed := ParseHexInt(ToHex(power, 8));
    ToHexReadsBack(power, 8);
    assert Pow2(8) == 256;
    FormatByte(parsed.value);
    FormatHex(parsed.value, 2)
  }

  // ---------------------------------------------------------------------
  // 16-bit fields
  // ---------------------------------------------------------------------

  /** "%0.2X" % (v & 0xFF) + "%0.2X" % ((v & 0xFF00) >> 8); the masks act on two's complement, as Python's do. */
  function Hex16Lsb(v: int): (s: string)
    ensures |s| == 4 && IsHexString(s) && IsUpperHexString(s)
    ensures HexBytes(s) == LittleEndianBytes(v, 2)
    ensures LittleEndianValue(HexBytes(s)) == v % 65536
  {
    var lo, hi := v % 256, (v % 65536) / 256;
    LowBytes16(v);
    BytePairText(lo, hi);
    FormatHex(lo, 2) + FormatHex(hi, 2)
  }

  /** The two low bytes of v, as LittleEndianBytes takes them and as the masks do. */
  lemma LowBytes16(v: int)
    ensures 0 <= (v % 65536) / 256 < 256
    ensures LittleEndianBytes(v, 2) == [v % 256, (v % 65536) / 256]
    ensures LittleEndianValue(LittleEndianBytes(v, 2)) == v % 65536
  {
    DivModNested(v, 256, 256);
    DivModUnique(v % 65536, 256, (v / 256) % 256, v % 256);
    assert LittleEndianBytes(v, 2) == [v % 256] + LittleEndianBytes(v / 256, 1);
    LittleEndianRoundTrip(v, 2);
    assert Pow256(2) == 65536;
  }

  /** Two bytes written "%0.2X" each are four upper-case digits naming those bytes. */
  lemma BytePairText(lo: nat, hi: nat)
    requires lo < 256 && hi < 256
    ensures var s := FormatHex(lo, 2) + FormatHex(hi, 2);
      |s| == 4 && IsHexString(s) && IsUpperHexString(s) && HexBytes(s) == [lo, hi]
  {
    var a, b := FormatHex(lo, 2), FormatHex(hi, 2);
    FormatByte(lo);
    FormatByte(hi);
    PairBytes(a, b);
    UpperConcat(a, b);
  }

  lemma PairBytes(a: string, b: string)
    requires |a| == 2 && |b| == 2 && IsHexString(a) && IsHexString(b)
    ensures IsHexString(a + b) && HexBytes(a + b) == HexBytes(a) + HexBytes(b)
  {
    HexConcat(a, b);
    var s := a + b;
    assert s[0..2] == a && s[2..4] == b;
    assert a[0..2] == a && b[0..2] == b;
  }

  lemma UpperConcat(a: string, b: string)
    requires IsUpperHexString(a) && IsUpperHexString(b)
    ensures IsUpperHexString(a + b)
  {
    assert forall k :: 0 <= k < |a + b| ==> (a + b)[k] == if k < |a| then a[k] else b[k - |a|];
  }

  // ---------------------------------------------------------------------
  // Argument parsing
  // ---------------------------------------------------------------------

  /** int(s): decimal, ValueError when it is no number. */
  function IntOf(s: string): Result<int, HciError>
  {
    match ParseDecInt(s)
    case Some(v) => Success(v)
    case None => Failure(ValueError)
  }

  /** int(s, 16): hexadecimal, ValueError when it is no number. */
  function HexIntOf(s: string): Result<int, HciError>
  {
    match ParseHexInt(s)
    case Some(v) => Success(v)
    case None => Failure(ValueError)
  }

  /** "%0.<width>X" of any integer: a negative one is a minus sign before the digits of its magnitude. */
  function FormatSigned(v: int, width: nat): (s: string)
    ensures v >= 0 ==> s == FormatHex(v, width)
  {
    if v < 0 then "-" + FormatHex(-v, width) else FormatHex(v, width)
  }

  // ---------------------------------------------------------------------
  // Concatenation of parts
  // ---------------------------------------------------------------------

  lemma {:induction false} ConcatSnoc(parts: seq<string>, x: string)
    ensures Concat(parts + [x]) == Concat(parts) + x
    decreases |parts|
  {
    if parts != [] {
      assert (parts + [x])[1..] == parts[1..] + [x];
      ConcatSnoc(parts[1..], x);
    }
  }

  /** Part k of equal-size parts sits at offset size * k of their concatenation. */
  lemma {:induction false} ConcatPartAt(parts: seq<string>, size: nat, k: nat)
    requires k < |parts| && forall j :: 0 <= j < |parts| ==> |parts[j]| == size
    ensures size * k + size <= |Concat(parts)|
    ensures Concat(parts)[size * k..size * k + size] == parts[k]
    decreases k
  {
    ConcatLength(parts, size);
    if k > 0 {
      ConcatPartAt(parts[1..], size, k - 1);
      assert size * k == size + size * (k - 1);
    }
  }

  /** Chunk j of an even-length text is its characters 2j and 2j + 1. */
  lemma ChunkAt(s: string, j: nat)
    requires |s| % 2 == 0 && 2 * j + 2 <= |s|
    ensures j < |Chunks(s, 2)| && Chunks(s, 2)[j] == s[2 * j..2 * j + 2]
  {
    ChunksOfEven(s);
    ConcatChunks(s, 2);
    ConcatPartAt(Chunks(s, 2), 2, j);
  }

  lemma {:induction false} ChunksCover(s: string, size: nat)
    requires size > 0
    ensures |Chunks(s, size)| * size >= |s|
    decreases |s|
  {
    if |s| > size {
      ChunksCover(s[size..], size);
    }
  }

  // ---------------------------------------------------------------------
  // parseBdAddr
  // ---------------------------------------------------------------------

  /** parseBdAddr: the six ':'-separated fields, last first; "" unless there are exactly six. */
  function ParseBdAddr(addr: string): (r: string)
    ensures |Split(addr, ':')| != 6 ==> r == ""
    ensures |Split(addr, ':')| == 6 ==> r == Concat(Reverse(Split(addr, ':')))
  {
    var fields := Split(addr, ':');
    if |fields| != 6 then ""
    else
      ConcatReverseSix(fields);
      fields[5] + fields[4] + fields[3] + fields[2] + fields[1] + fields[0]
  }

  lemma ConcatSix(a: string, b: string, c: string, d: string, e: string, g: string)
    ensures Concat([a, b, c, d, e, g]) == a + b + c + d + e + g
  {
    assert Concat([g]) == g by { assert [g][1..] == []; }
    assert Concat([e, g]) == e + g by { assert [e, g][1..] == [g]; }
    assert Concat([d, e, g]) == d + (e + g) by { assert [d, e, g][1..] == [e, g]; }
    assert Concat([c, d, e, g]) == c + (d + (e + g)) by { assert [c, d, e, g][1..] == [d, e, g]; }
    assert Concat([b, c, d, e, g]) == b + (c + (d + (e + g))) by { assert [b, c, d, e, g][1..] == [c, d, e, g]; }
    assert [a, b, c, d, e, g][1..] == [b, c, d, e, g];
  }

  lemma ConcatOfSix(r: seq<string>)
    requires |r| == 6
    ensures Concat(r) == r[0] + r[1] + r[2] + r[3] + r[4] + r[5]
  {
    assert r == [r[0], r[1], r[2], r[3], r[4], r[5]];
    ConcatSix(r[0], r[1], r[2], r[3], r[4], r[5]);
  }

  lemma ConcatReverseSix(f: seq<string>)
    requires |f| == 6
    ensures Concat(Reverse(f)) == f[5] + f[4] + f[3] + f[2] + f[1] + f[0]
  {
    var r := Reverse(f);
    ConcatOfSix(r);
    assert r[0] == f[5] && r[1] == f[4] && r[2] == f[3] && r[3] == f[2] && r[4] == f[1] && r[5] == f[0];
  }

  /** An address written as six ':'-separated two-digit fields becomes those fields reversed: 12 digits, LSB first. */
  lemma BdAddrOfFields(fields: seq<string>)
    requires |fields| == 6 && forall k :: 0 <= k < 6 ==> ':' !in fields[k]
    ensures ParseBdAddr(Join(fields, ':')) == Concat(Reverse(fields))
    ensures (forall k :: 0 <= k < 6 ==> |fields[k]| == 2 && IsHexString(fields[k])) ==>
      var r := Concat(Reverse(fields));
      |r| == 12 && IsHexString(r) && Chunks(r, 2) == Reverse(fields)
  {
    SplitJoin(fields, ':');
    if forall k :: 0 <= k < 6 ==> |fields[k]| == 2 && IsHexString(fields[k]) {
      var rev := Reverse(fields);
      var r := Concat(rev);
      ConcatLength(rev, 2);
      ChunksOfConcat(rev, 2);
      forall k | 0 <= k < 12
        ensures IsHexDigit(r[k])
      {
        ConcatPartAt(rev, 2, k / 2);
        assert r[k] == rev[k / 2][k % 2];
      }
    }
  }

  // ---------------------------------------------------------------------
  // parseAddr
  // ---------------------------------------------------------------------

  /**
   * parseAddr(addr, numNibbles): drop the first two characters (a missing
   * "0x" only draws a warning), cut the rest into two-character chunks and
   * join the first numNibbles / 2 of them in reverse; IndexError when there
   * are fewer chunks than that.
   */
  function ParseAddrSpec(addr: string, numNibbles: nat): Result<string, HciError>
  {
    var chunks := Chunks(From(addr, 2), 2);
    var n := numNibbles / 2;
    if n > |chunks| then Failure(IndexError) else Success(Concat(Reverse(chunks[..n])))
  }

  method ParseAddr(addr: string, numNibbles: nat) returns (r: Result<string, HciError>)
    ensures r == ParseAddrSpec(addr, numNibbles)
  {
    var digits := From(addr, 2);
    var addrBytes := Chunks(digits, 2);
    var n := numNibbles / 2;
    var addrString := "";
    var i := n;
    while i > 0
      invariant 0 <= i <= n
      invariant i == n ==> addrString == ""
      invariant i < n ==> n <= |addrBytes| && addrString == Concat(Reverse(addrBytes[i..n]))
    {
      if i - 1 >= |addrBytes| {
        return Failure(IndexError);
      }
      var part := addrBytes[i - 1];
      ReversedPrefix(addrBytes, i, n);
      addrString := addrString + part;
      i := i - 1;
    }
    if n == 0 {
      assert Reverse(addrBytes[..n]) == [];
    } else {
      assert addrBytes[..n] == addrBytes[0..n];
    }
    r := Success(addrString);
  }

  /** Taking one more part from the front of xs[i..n] appends it to the reversed concatenation. */
  lemma ReversedPrefix(xs: seq<string>, i: nat, n: nat)
    requires 1 <= i <= n <= |xs|
    ensures Concat(Reverse(xs[i - 1..n])) == Concat(Reverse(xs[i..n])) + xs[i - 1]
  {
    var s := xs[i - 1..n];
    assert s[1..] == xs[i..n];
    assert Reverse(s) == Reverse(xs[i..n]) + [xs[i - 1]];
    ConcatSnoc(Reverse(xs[i..n]), xs[i - 1]);
  }

  /** On numNibbles digits, parseAddr applied twice (re-prefixing "0x") gives the digits back. */
  lemma ParseAddrInvolution(d: string, numNibbles: nat)
    requires |d| == numNibbles && numNibbles % 2 == 0
    ensures ParseAddrSpec("0x" + d, numNibbles).Success?
    ensures var e := ParseAddrSpec("0x" + d, numNibbles).value;
      |e| == |d| && ParseAddrSpec("0x" + e, numNibbles) == Success(d)
  {
    assert From("0x" + d, 2) == d;
    var parts := Chunks(d, 2);
    ChunksOfEven(d);
    var n := numNibbles / 2;
    assert parts[..n] == parts;
    var rev := Reverse(parts);
    var e := Concat(rev);
    ConcatLength(rev, 2);
    assert From("0x" + e, 2) == e;
    ChunksOfConcat(rev, 2);
    assert Chunks(e, 2)[..n] == rev;
    ReverseReverse(parts);
    ConcatChunks(d, 2);
  }

  /** Part k of two-character parts joined in reverse is part |parts| - 1 - k. */
  lemma ReversedPartAt(parts: seq<string>, k: nat)
    requires k < |parts| && forall j :: 0 <= j < |parts| ==> |parts[j]| == 2
    ensures 2 * k + 2 <= |Concat(Reverse(parts))|
    ensures Concat(Reverse(parts))[2 * k..2 * k + 2] == parts[|parts| - 1 - k]
  {
    var rev := Reverse(parts);
    assert forall j :: 0 <= j < |rev| ==> |rev[j]| == 2;
    ConcatPartAt(rev, 2, k);
  }

  /** Byte k of the reversed chunks is byte n - 1 - k of the digits. */
  lemma ReversedChunkAt(d: string, n: nat, k: nat)
    requires |d| == 2 * n && k < n
    ensures 2 * k + 2 <= |Concat(Reverse(Chunks(d, 2)))|
    ensures Concat(Reverse(Chunks(d, 2)))[2 * k..2 * k + 2] == d[2 * (n - 1 - k)..2 * (n - 1 - k) + 2]
  {
    var parts := Chunks(d, 2);
    var j := n - 1 - k;
    assert |d| / 2 == n;
    ChunksOfEven(d);
    assert |parts| == n;
    ReversedPartAt(parts, k);
    assert 2 * j + 2 <= |d|;
    ChunkAt(d, j);
    assert parts[|parts| - 1 - k] == parts[j];
  }

  /** Byte k of parseAddr's result is byte n - 1 - k of the digits. */
  lemma ReversedByteAt(d: string, n: nat, k: nat)
    requires IsHexString(d) && |d| == 2 * n && k < n
    requires IsHexString(Concat(Reverse(Chunks(d, 2)))) && |Concat(Reverse(Chunks(d, 2)))| == 2 * n
    ensures ByteAt(Concat(Reverse(Chunks(d, 2))), k) == ByteAt(d, n - 1 - k)
  {
    ReversedChunkAt(d, n, k);
  }

  /** parseAddr on "0x" and 2 * n digits is the digits' chunks joined in reverse. */
  lemma ParseAddrOfDigits(d: string, n: nat)
    requires |d| == 2 * n
    ensures ParseAddrSpec("0x" + d, 2 * n) == Success(Concat(Reverse(Chunks(d, 2))))
  {
    assert From("0x" + d, 2) == d;
    ChunksOfEven(d);
    assert Chunks(d, 2)[..n] == Chunks(d, 2);
  }

  /** A hex number's chunks joined in reverse are 2 * n hex digits: the number's n bytes, least significant first. */
  lemma ReversedDigitsLittleEndian(d: string, n: nat)
    requires IsHexString(d) && |d| == 2 * n
    ensures var e := Concat(Reverse(Chunks(d, 2)));
      |e| == 2 * n && IsHexString(e) && HexBytes(e) == LittleEndianBytes(HexValue(d), n)
  {
    ReversedChunksHex(d, n);
    ReversedChunkBytes(d, n);
    HexBytesOfValue(d);
  }

  /** The chunks joined in reverse are again 2 * n hex digits. */
  lemma ReversedChunksHex(d: string, n: nat)
    requires IsHexString(d) && |d| == 2 * n
    ensures var e := Concat(Reverse(Chunks(d, 2))); |e| == 2 * n && IsHexString(e)
  {
    var rev := Reverse(Chunks(d, 2));
    ChunksOfEven(d);
    assert forall j :: 0 <= j < |rev| ==> |rev[j]| == 2;
    ConcatLength(rev, 2);
    ChunksAreHex(d, 2);
    assert forall j :: 0 <= j < |rev| ==> IsHexString(rev[j]);
    ConcatHex(rev);
  }

  /** The bytes of the chunks joined in reverse are the digits' bytes in reverse. */
  lemma ReversedChunkBytes(d: string, n: nat)
    requires IsHexString(d) && |d| == 2 * n
    requires var e := Concat(Reverse(Chunks(d, 2))); |e| == 2 * n && IsHexString(e)
    ensures HexBytes(Concat(Reverse(Chunks(d, 2)))) == Reverse(HexBytes(d))
  {
    var eb, db := HexBytes(Concat(Reverse(Chunks(d, 2)))), Reverse(HexBytes(d));
    forall k | 0 <= k < n
      ensures eb[k] == db[k]
    {
      ReversedByteAt(d, n, k);
    }
  }

  /** On a hex number of n bytes, parseAddr gives the number's n bytes, least significant first. */
  lemma ParseAddrLittleEndian(d: string, n: nat)
    requires IsHexString(d) && |d| == 2 * n
    ensures ParseAddrSpec("0x" + d, 2 * n).Success?
    ensures var e := ParseAddrSpec("0x" + d, 2 * n).value;
      |e| == 2 * n && IsHexString(e) && HexBytes(e) == LittleEndianBytes(HexValue(d), n)
  {
    ParseAddrOfDigits(d, n);
    ReversedDigitsLittleEndian(d, n);
  }

  // ---------------------------------------------------------------------
  // parseBytes32 and the connection statistics
  // ---------------------------------------------------------------------

  /** Four byte texts, least significant first, written most significant first. */
  function Word(b0: string, b1: string, b2: string, b3: string): string
  {
    b3 + b2 + b1 + b0
  }

  /** parseBytes32: int(bs[3] + bs[2] + bs[1] + bs[0], 16). */
  function ParseBytes32(bs: seq<string>): Result<int, HciError>
  {
    if |bs| < 4 then Failure(IndexError) else HexIntOf(Word(bs[0], bs[1], bs[2], bs[3]))
  }

  /** Four two-digit byte texts read as a word give the little-endian value of the bytes in list order. */
  lemma WordValue(b0: string, b1: string, b2: string, b3: string)
    requires |b0| == 2 && |b1| == 2 && |b2| == 2 && |b3| == 2
    requires IsHexString(b0) && IsHexString(b1) && IsHexString(b2) && IsHexString(b3)
    ensures IsHexString(b0 + b1 + b2 + b3)
    ensures HexIntOf(Word(b0, b1, b2, b3)) == Success(LittleEndianValue(HexBytes(b0 + b1 + b2 + b3)))
  {
    var w := Word(b0, b1, b2, b3);
    var x := b0 + b1 + b2 + b3;
    FourBytes(b0, b1, b2, b3);
    FourBytes(b3, b2, b1, b0);
    HexValueOfBytes(w);
    assert Reverse(HexBytes(w)) == HexBytes(x);
    ParseHexOfDigits(w);
  }

  /** Four two-digit byte texts in a row are the text of those four bytes. */
  lemma FourBytes(b0: string, b1: string, b2: string, b3: string)
    requires |b0| == 2 && |b1| == 2 && |b2| == 2 && |b3| == 2
    requires IsHexString(b0) && IsHexString(b1) && IsHexString(b2) && IsHexString(b3)
    ensures var x := b0 + b1 + b2 + b3;
      |x| == 8 && IsHexString(x) && HexBytes(x) == [ByteAt(b0, 0), ByteAt(b1, 0), ByteAt(b2, 0), ByteAt(b3, 0)]
  {
    PairBytes(b0, b1);
    PairBytes(b2, b3);
    var l, h := b0 + b1, b2 + b3;
    HexConcat(l, h);
    var x := l + h;
    assert x == b0 + b1 + b2 + b3;
    assert x[0..2] == l[0..2] && x[2..4] == l[2..4] && x[4..6] == h[0..2] && x[6..8] == h[2..4];
    assert HexBytes(x)[0] == HexBytes(l)[0] && HexBytes(x)[1] == HexBytes(l)[1];
    assert HexBytes(x)[2] == HexBytes(h)[0] && HexBytes(x)[3] == HexBytes(h)[1];
  }

  /** parseBytes32 of four two-digit hex bytes is their little-endian value. */
  lemma ParseBytes32LittleEndian(bs: seq<string>)
    requires |bs| == 4 && forall k :: 0 <= k < 4 ==> |bs[k]| == 2 && IsHexString(bs[k])
    ensures IsHexString(Concat(bs)) && |Concat(bs)| == 8
    ensures ParseBytes32(bs) == Success(LittleEndianValue(HexBytes(Concat(bs))))
  {
    assert Concat(bs[3..]) == bs[3] by {
      assert bs[3..][1..] == [];
    }
    assert Concat(bs[2..]) == bs[2] + Concat(bs[3..]) by {
      assert bs[2..][1..] == bs[3..];
    }
    assert Concat(bs[1..]) == bs[1] + Concat(bs[2..]) by {
      assert bs[1..][1..] == bs[2..];
    }
    assert Concat(bs) == bs[0] + bs[1] + bs[2] + bs[3];
    WordValue(bs[0], bs[1], bs[2], bs[3]);
  }

  /** The counters of the connection statistics event, in event order. */
  datatype ConnStats = ConnStats(rxDataOk: int, rxDataCrc: int, rxDataTimeout: int, txData: int, errTrans: int)

  /** Offset, in hex digits, of the first counter in the event text. */
  const STATS_OFFSET: nat := 14

  /** The 32-bit counter whose eight digits start at offset i, low byte first. */
  function CounterAt(evt: string, i: nat): Result<int, HciError>
  {
    HexIntOf(Word(Slice(evt, i, i + 2), Slice(evt, i + 2, i + 4), Slice(evt, i + 4, i + 6), Slice(evt, i + 6, i + 8)))
  }

  /** parseConnStatsEvt of BLE_hci.py: five counters at offsets 14 + 8k; a ValueError escapes. */
  function ConnStatsOf(evt: string): Result<ConnStats, HciError>
  {
    var rxDataOk :- CounterAt(evt, STATS_OFFSET);
    var rxDataCrc :- CounterAt(evt, STATS_OFFSET + 8);
    var rxDataTimeout :- CounterAt(evt, STATS_OFFSET + 16);
    var txData :- CounterAt(evt, STATS_OFFSET + 24);
    var errTrans :- CounterAt(evt, STATS_OFFSET + 32);
    Success(ConnStats(rxDataOk, rxDataCrc, rxDataTimeout, txData, errTrans))
  }

  /** parseConnStatsEvt of ble_hci_console.py: the same counters, and None instead of the ValueError. */
  function ConsoleConnStatsOf(evt: string): (r: Option<ConnStats>)
    ensures r.None? <==> ConnStatsOf(evt).Failure?
    ensures r.Some? ==> r.value == ConnStatsOf(evt).value
  {
    match ConnStatsOf(evt)
    case Success(stats) => Some(stats)
    case Failure(_) => None
  }

  /** A counter whose eight digits are present and hex is the little-endian value of its four bytes. */
  lemma CounterLittleEndian(evt: string, i: nat)
    requires i + 8 <= |evt| && IsHexString(evt[i..i + 8])
    ensures CounterAt(evt, i) == Success(LittleEndianValue(HexBytes(evt[i..i + 8])))
  {
    var x := evt[i..i + 8];
    SliceOfSlice(evt, i, i + 8, 0, 2);
    SliceOfSlice(evt, i, i + 8, 2, 4);
    SliceOfSlice(evt, i, i + 8, 4, 6);
    SliceOfSlice(evt, i, i + 8, 6, 8);
    assert Slice(evt, i, i + 2) == x[0..2] && Slice(evt, i + 2, i + 4) == x[2..4];
    assert Slice(evt, i + 4, i + 6) == x[4..6] && Slice(evt, i + 6, i + 8) == x[6..8];
    WordOfDigits(x);
  }

  /** Eight hex digits read as a word of four bytes, least significant first. */
  lemma WordOfDigits(x: string)
    requires |x| == 8 && IsHexString(x)
    ensures HexIntOf(Word(x[0..2], x[2..4], x[4..6], x[6..8])) == Success(LittleEndianValue(HexBytes(x)))
  {
    HexSlice(x, 0, 2);
    HexSlice(x, 2, 4);
    HexSlice(x, 4, 6);
    HexSlice(x, 6, 8);
    WordValue(x[0..2], x[2..4], x[4..6], x[6..8]);
    SplitEight(x);
  }

  lemma SplitEight<T>(x: seq<T>)
    requires |x| == 8
    ensures x[0..2] + x[2..4] + x[4..6] + x[6..8] == x
  {
    assert x[0..2] + x[2..4] == x[0..4];
    assert x[4..6] + x[6..8] == x[4..8];
    assert x[0..4] + x[4..8] == x;
  }

  /** With the 40 counter digits present and hex, the five counters are the little-endian words at 14, 22, 30, 38, 46. */
  lemma ConnStatsLittleEndian(evt: string)
    requires |evt| >= STATS_OFFSET + 40 && IsHexString(evt[STATS_OFFSET..STATS_OFFSET + 40])
    ensures ConnStatsOf(evt).Success?
    ensures ConnStatsOf(evt).value == ConnStats(CounterValue(evt, 14), CounterValue(evt, 22),
      CounterValue(evt, 30), CounterValue(evt, 38), CounterValue(evt, 46))
    ensures ConsoleConnStatsOf(evt) == Some(ConnStatsOf(evt).value)
  {
    var v0 := CounterValue(evt, 14);
    var v1 := CounterValue(evt, 22);
    var v2 := CounterValue(evt, 30);
    var v3 := CounterValue(evt, 38);
    var v4 := CounterValue(evt, 46);
    assert ConnStatsOf(evt) == Success(ConnStats(v0, v1, v2, v3, v4));
  }

  /** The little-endian value of the counter at offset i, which lies inside the statistics digits. */
  function CounterValue(evt: string, i: nat): (v: nat)
    requires |evt| >= STATS_OFFSET + 40 && IsHexString(evt[STATS_OFFSET..STATS_OFFSET + 40])
    requires STATS_OFFSET <= i && i + 8 <= STATS_OFFSET + 40
    ensures IsHexString(evt[i..i + 8]) && v == LittleEndianValue(HexBytes(evt[i..i + 8]))
    ensures CounterAt(evt, i) == Success(v)
  {
    SubSlice(evt, STATS_OFFSET, STATS_OFFSET + 40, i, i + 8);
    CounterLittleEndian(evt, i);
    LittleEndianValue(HexBytes(evt[i..i + 8]))
  }

  /** An event too short to reach the last counter raises ValueError (None on the console). */
  lemma ShortStatsEventFails(evt: string)
    requires |evt| <= STATS_OFFSET + 32
    ensures ConnStatsOf(evt) == Failure(ValueError) && ConsoleConnStatsOf(evt) == None
  {
    var i := STATS_OFFSET + 32;
    assert Word(Slice(evt, i, i + 2), Slice(evt, i + 2, i + 4), Slice(evt, i + 4, i + 6), Slice(evt, i + 6, i + 8)) == "";
    assert SplitSign("") == (false, "");
  }

  // ---------------------------------------------------------------------
  // endTestFunc
  // ---------------------------------------------------------------------

  /** ((v & 0xFF00) >> 8) + ((v & 0xFF) << 8): the two low bytes of v, swapped. */
  function SwapBytes16(v: int): (r: int)
    ensures 0 <= r < 65536
    ensures LittleEndianBytes(r, 2) == Reverse(LittleEndianBytes(v, 2))
  {
    var lo, hi := v % 256, (v % 65536) / 256;
    DivModNested(v, 256, 256);
    DivModUnique(v % 65536, 256, (v / 256) % 256, v % 256);
    var r := hi + lo * 256;
    DivModUnique(r, 256, lo, hi);
    DivModUnique(lo, 256, 0, lo);
    r
  }

  /** Swapping twice restores the two low bytes. */
  lemma SwapBytes16Twice(v: int)
    ensures SwapBytes16(SwapBytes16(v)) == v % 65536
  {
    var r := SwapBytes16(v);
    LittleEndianRoundTrip(SwapBytes16(r), 2);
    LittleEndianRoundTrip(v, 2);
    ReverseReverse(LittleEndianBytes(v, 2));
    DivModUnique(SwapBytes16(r), 65536, 0, SwapBytes16(r));
  }

  /** endTestFunc's received-packet count: int(evt, 16), then its low 16 bits byte-swapped. */
  function EndTestCount(evt: string): (r: Result<int, HciError>)
    ensures r.Success? <==> ParseHexInt(evt).Some?
    ensures r.Success? ==> 0 <= r.value < 65536
  {
    var evtData :- HexIntOf(evt);
    Success(SwapBytes16(evtData))
  }

  // ---------------------------------------------------------------------
  // Command packets
  // ---------------------------------------------------------------------

  /**
   * An HCI command packet in hex behind the UART indicator 01: a two-byte
   * opcode, then the parameter length byte, then exactly that many bytes.
   */
  predicate WellFormedCommand(s: string)
  {
    |s| >= 8 && |s| % 2 == 0 && IsHexString(s) && s[..2] == "01" && ByteAt(s, 3) * 2 == |s| - 8
  }

  lemma CommandFrame(header: string, params: string)
    requires |header| == 8 && IsHexString(header) && header[..2] == "01"
    requires IsHexString(params) && ByteAt(header, 3) * 2 == |params|
    ensures WellFormedCommand(header + params)
  {
    HexConcat(header, params);
    var s := header + params;
    assert s[..2] == header[..2];
    assert s[6..8] == header[6..8];
  }

  /** The commands in a run, each well formed. */
  predicate AllWellFormed(cmds: seq<string>)
  {
    forall k :: 0 <= k < |cmds| ==> WellFormedCommand(cmds[k])
  }

  lemma AllWellFormedConcat(a: seq<string>, b: seq<string>)
    requires AllWellFormed(a) && AllWellFormed(b)
    ensures AllWellFormed(a + b)
  {
    forall k | 0 <= k < |a + b|
      ensures WellFormedCommand((a + b)[k])
    {
      if k < |a| {
        assert (a + b)[k] == a[k];
      } else {
        assert (a + b)[k] == b[k - |a|];
      }
    }
  }

  /** Every event enabled: the eight mask bytes 0xFF. */
  const ALL_EVENTS := "FFFFFFFFFFFFFFFF"
  const SET_EVENT_MASK := "01010C08" + ALL_EVENTS
  const SET_EVENT_MASK_PAGE_2 := "01630C08" + ALL_EVENTS
  const LE_SET_EVENT_MASK := "01012008" + ALL_EVENTS
  const RESET_CONN_STATS := "0102FF00"
  const SET_DEFAULT_PHY := "01312003" + "000707"
  /** The all-zero peer address the advertising parameters carry. */
  const PEER_ADDR := "000000000000"

  /** The commands advFunc and initFunc send first: event masks, an optional statistics reset, all PHYs allowed. */
  function SetupCommands(stats: bool): seq<string>
  {
    [SET_EVENT_MASK, SET_EVENT_MASK_PAGE_2, SET_EVENT_MASK, LE_SET_EVENT_MASK]
      + (if stats then [RESET_CONN_STATS] else [])
      + [SET_DEFAULT_PHY]
  }

  lemma AllEventsHex()
    ensures |ALL_EVENTS| == 16 && IsHexString(ALL_EVENTS)
  {
  }

  /** A command header for eight parameter bytes followed by the all-events mask is well formed. */
  lemma MaskCommand(header: string)
    requires |header| == 8 && IsHexString(header) && header[..2] == "01" && ByteAt(header, 3) == 8
    ensures WellFormedCommand(header + ALL_EVENTS)
  {
    AllEventsHex();
    CommandFrame(header, ALL_EVENTS);
  }

  lemma EventMaskWellFormed()
    ensures WellFormedCommand(SET_EVENT_MASK)
  {
    assert "01010C08"[6..8] == "08";
    MaskCommand("01010C08");
  }

  lemma EventMaskPage2WellFormed()
    ensures WellFormedCommand(SET_EVENT_MASK_PAGE_2)
  {
    assert "01630C08"[6..8] == "08";
    MaskCommand("01630C08");
  }

  lemma LeEventMaskWellFormed()
    ensures WellFormedCommand(LE_SET_EVENT_MASK)
  {
    assert "01012008"[6..8] == "08";
    MaskCommand("01012008");
  }

  lemma ResetAndPhyWellFormed()
    ensures WellFormedCommand(RESET_CONN_STATS) && WellFormedCommand(SET_DEFAULT_PHY)
  {
    assert "0102FF00"[6..8] == "00";
    CommandFrame("0102FF00", "");
    assert "0102FF00" + "" == RESET_CONN_STATS;
    assert "01312003"[6..8] == "03";
    CommandFrame("01312003", "000707");
  }

  lemma SetupWellFormed(stats: bool)
    ensures AllWellFormed(SetupCommands(stats))
  {
    EventMaskWellFormed();
    EventMaskPage2WellFormed();
    LeEventMaskWellFormed();
    ResetAndPhyWellFormed();
  }

  /** LE Set Advertising Parameters as advFunc writes it: the interval twice, the type, all three channels. */
  function AdvParamsCommand(interval: int, advType: string): string
  {
    var advInterval := Hex16Lsb(interval);
    "0106200F" + advInterval + advInterval + advType + "0000" + PEER_ADDR + "0700"
  }

  const ADV_ENABLE := "010A200101"

  /** advFunc up to the command that starts advertising; the listening that may follow is not modelled. */
  function AdvRun(stats: bool, connect: string, interval: string): (r: Run)
    ensures r.raised.None? <==> ParseHexInt(interval).Some?
    ensures r.raised.Some? ==> r == Run(SetupCommands(stats), Some(ValueError))
    ensures r.raised.None? ==>
      r.sent == SetupCommands(stats) + [AdvParamsCommand(ParseHexInt(interval).value, if connect == "True" then "00" else "03"), ADV_ENABLE]
  {
    var setup := SetupCommands(stats);
    var advType := if connect == "True" then "00" else "03";
    match HexIntOf(interval)
    case Failure(e) => Run(setup, Some(e))
    case Success(advIntervalInt) =>
      Run(setup + [AdvParamsCommand(advIntervalInt, advType), ADV_ENABLE], None)
  }

  /**
   * LE Set Advertising Parameters is well formed and carries the interval
   * twice (minimum and maximum), low byte first, then the advertising type,
   * and the channel map 07 (channels 37, 38 and 39).
   */
  lemma AdvParamsFrame(field: string, advType: string)
    requires |field| == 4 && IsHexString(field) && (advType == "00" || advType == "03")
    ensures var c := "0106200F" + field + field + advType + "0000" + PEER_ADDR + "0700";
      WellFormedCommand(c) && |c| == 38 && c[8..12] == field && c[12..16] == field &&
      c[16..18] == advType && c[34..36] == "07"
  {
    var tail := advType + "0000" + PEER_ADDR + "0700";
    HexConcat(field, field);
    assert IsHexString(tail);
    HexConcat(field + field, tail);
    assert "0106200F"[6..8] == "0F";
    CommandFrame("0106200F", field + field + tail);
    assert "0106200F" + field + field + advType + "0000" + PEER_ADDR + "0700" == "0106200F" + (field + field + tail);
  }

  /**
   * LE Set Advertising Parameters is well formed and carries the interval
   * twice (minimum and maximum), low byte first, then the advertising type,
   * and the channel map 07 (channels 37, 38 and 39).
   */
  lemma AdvParamsFields(interval: int, advType: string)
    requires advType == "00" || advType == "03"
    ensures var c := AdvParamsCommand(interval, advType);
      WellFormedCommand(c) && |c| == 38 && c[8..12] == Hex16Lsb(interval) && c[12..16] == Hex16Lsb(interval) &&
      c[16..18] == advType && c[34..36] == "07"
  {
    var field := Hex16Lsb(interval);
    AdvParamsFrame(field, advType);
  }

  lemma AdvEnableWellFormed()
    ensures WellFormedCommand(ADV_ENABLE)
  {
    assert "010A2001"[6..8] == "01";
    CommandFrame("010A2001", "01");
    assert "010A2001" + "01" == ADV_ENABLE;
  }

  /** Every command advFunc sends is well formed. */
  lemma AdvCommandsWellFormed(stats: bool, connect: string, interval: string)
    ensures AllWellFormed(AdvRun(stats, connect, interval).sent)
  {
    var r := AdvRun(stats, connect, interval);
    if r.raised.None? {
      var advType := if connect == "True" then "00" else "03";
      AdvTailWellFormed(ParseHexInt(interval).value, advType);
      RunAfterSetup(r, stats, [AdvParamsCommand(ParseHexInt(interval).value, advType), ADV_ENABLE]);
    } else {
      RunAfterSetup(r, stats, []);
    }
  }

  lemma AdvTailWellFormed(interval: int, advType: string)
    requires advType == "00" || advType == "03"
    ensures AllWellFormed([AdvParamsCommand(interval, advType), ADV_ENABLE])
  {
    AdvParamsFields(interval, advType);
    AdvEnableWellFormed();
  }

  /** LE Create Connection as initFunc writes it: public peer address, interval twice, timeout. */
  function ConnCommand(addrBytes: string, interval: int, timeout: int): string
  {
    var connInterval := Hex16Lsb(interval);
    var supTimeout := Hex16Lsb(timeout);
    "010D2019A000A00000" + "00" + addrBytes + "00" + connInterval + connInterval + "0000" + supTimeout + "0F100F10"
  }

  /** initFunc up to the LE Create Connection command; the listening that may follow is not modelled. */
  function InitRun(addr: string, stats: bool, interval: string, timeout: string): (r: Run)
    ensures r.raised.None? <==> ParseHexInt(interval).Some? && ParseHexInt(timeout).Some?
    ensures r.raised.Some? ==> r == Run(SetupCommands(stats), Some(ValueError))
    ensures r.raised.None? ==>
      r.sent == SetupCommands(stats) + [ConnCommand(ParseBdAddr(addr), ParseHexInt(interval).value, ParseHexInt(timeout).value)]
  {
    var addrBytes := ParseBdAddr(addr);
    var setup := SetupCommands(stats);
    match HexIntOf(interval)
    case Failure(e) => Run(setup, Some(e))
    case Success(connInterval) =>
      match HexIntOf(timeout)
      case Failure(e) => Run(setup, Some(e))
      case Success(supTimeout) =>
        Run(setup + [ConnCommand(addrBytes, connInterval, supTimeout)], None)
  }

  /**
   * LE Create Connection is well formed for a 12-digit address, and carries
   * the address, then the interval twice and the supervision timeout.
   */
  lemma ConnFrame(addrBytes: string, ci: string, st: string)
    requires |addrBytes| == 12 && IsHexString(addrBytes)
    requires |ci| == 4 && IsHexString(ci) && |st| == 4 && IsHexString(st)
    ensures var c := "010D2019A000A00000" + "00" + addrBytes + "00" + ci + ci + "0000" + st + "0F100F10";
      WellFormedCommand(c) && |c| == 58 && c[20..32] == addrBytes &&
      c[34..38] == ci && c[38..42] == ci && c[46..50] == st
  {
    var p1 := "010D2019A000A00000" + "00";
    assert IsHexString(p1) && p1[..2] == "01" && p1[6..8] == "19";
    assert IsHexString("00") && IsHexString("0000") && IsHexString("0F100F10");
    ConnLayout(p1, addrBytes, "00", ci, "0000", st, "0F100F10");
  }

  /** The field layout of LE Create Connection, for any header and any fields of the right widths. */
  lemma ConnLayout(p1: string, a: string, own: string, ci: string, lat: string, st: string, tail: string)
    requires |p1| == 20 && IsHexString(p1) && p1[..2] == "01" && HexValue(p1[6..8]) == 25
    requires |a| == 12 && IsHexString(a) && |own| == 2 && IsHexString(own) && |ci| == 4 && IsHexString(ci)
    requires |lat| == 4 && IsHexString(lat) && |st| == 4 && IsHexString(st) && |tail| == 8 && IsHexString(tail)
    ensures var c := p1 + a + own + ci + ci + lat + st + tail;
      WellFormedCommand(c) && |c| == 58 && c[20..32] == a && c[34..38] == ci && c[38..42] == ci && c[46..50] == st
  {
    HexConcat(p1, a);
    HexConcat(p1 + a, own);
    HexConcat(p1 + a + own, ci);
    HexConcat(p1 + a + own + ci, ci);
    HexConcat(p1 + a + own + ci + ci, lat);
    HexConcat(p1 + a + own + ci + ci + lat, st);
    HexConcat(p1 + a + own + ci + ci + lat + st, tail);
    var c := p1 + a + own + ci + ci + lat + st + tail;
    assert c[..2] == p1[..2];
    assert c[6..8] == p1[6..8];
    assert c[20..32] == a;
    assert c[34..38] == ci;
    assert c[38..42] == ci;
    assert c[46..50] == st;
  }

  /**
   * LE Create Connection is well formed for a 12-digit address, and carries
   * the address, then the interval twice and the supervision timeout.
   */
  lemma ConnCommandFields(addrBytes: string, interval: int, timeout: int)
    requires |addrBytes| == 12 && IsHexString(addrBytes)
    ensures var c := ConnCommand(addrBytes, interval, timeout);
      WellFormedCommand(c) && |c| == 58 && c[20..32] == addrBytes &&
      c[34..38] == Hex16Lsb(interval) && c[38..42] == Hex16Lsb(interval) && c[46..50] == Hex16Lsb(timeout)
  {
    var ci := Hex16Lsb(interval);
    var st := Hex16Lsb(timeout);
    ConnFrame(addrBytes, ci, st);
  }

  lemma ConnCommandWellFormed(addrBytes: string, interval: int, timeout: int)
    requires |addrBytes| == 12 && IsHexString(addrBytes)
    ensures WellFormedCommand(ConnCommand(addrBytes, interval, timeout))
  {
    ConnCommandFields(addrBytes, interval, timeout);
  }

  /**
   * With an address of six two-digit hex fields, every command initFunc
   * sends is well formed, and the peer address goes out LSB first.
   */
  lemma InitCommandsWellFormed(fields: seq<string>, stats: bool, interval: string, timeout: string)
    requires |fields| == 6 && forall k :: 0 <= k < 6 ==> |fields[k]| == 2 && IsHexString(fields[k])
    ensures AllWellFormed(InitRun(Join(fields, ':'), stats, interval, timeout).sent)
    ensures ParseBdAddr(Join(fields, ':')) == Concat(Reverse(fields))
  {
    NoColonInHexFields(fields);
    BdAddrOfFields(fields);
    InitRunWellFormed(Join(fields, ':'), stats, interval, timeout);
  }

  lemma InitRunWellFormed(addr: string, stats: bool, interval: string, timeout: string)
    requires |ParseBdAddr(addr)| == 12 && IsHexString(ParseBdAddr(addr))
    ensures AllWellFormed(InitRun(addr, stats, interval, timeout).sent)
  {
    var r := InitRun(addr, stats, interval, timeout);
    if r.raised.None? {
      var addrBytes := ParseBdAddr(addr);
      var c := ConnCommand(addrBytes, ParseHexInt(interval).value, ParseHexInt(timeout).value);
      ConnCommandWellFormed(addrBytes, ParseHexInt(interval).value, ParseHexInt(timeout).value);
      RunAfterSetup(r, stats, [c]);
    } else {
      RunAfterSetup(r, stats, []);
    }
  }

  /** A run that sent the setup commands and then, unless it raised, well-formed commands of its own. */
  lemma RunAfterSetup(r: Run, stats: bool, cmds: seq<string>)
    requires r.raised.None? ==> r.sent == SetupCommands(stats) + cmds
    requires r.raised.Some? ==> r.sent == SetupCommands(stats)
    requires AllWellFormed(cmds)
    ensures AllWellFormed(r.sent)
  {
    SetupWellFormed(stats);
    if r.raised.None? {
      AllWellFormedConcat(SetupCommands(stats), cmds);
    }
  }

  lemma NoColonInHexFields(fields: seq<string>)
    requires forall k :: 0 <= k < |fields| ==> IsHexString(fields[k])
    ensures forall k :: 0 <= k < |fields| ==> ':' !in fields[k]
  {
    forall k | 0 <= k < |fields|
      ensures ':' !in fields[k]
    {
      assert forall j :: 0 <= j < |fields[k]| ==> IsHexDigit(fields[k][j]);
    }
  }

  /** addrFunc: the vendor command that sets the public device address, LSB first. */
  function AddrCommand(addr: string): string
  {
    "01F0FF06" + ParseBdAddr(addr)
  }

  lemma AddrCommandWellFormed(fields: seq<string>)
    requires |fields| == 6 && forall k :: 0 <= k < 6 ==> |fields[k]| == 2 && IsHexString(fields[k])
    ensures WellFormedCommand(AddrCommand(Join(fields, ':')))
    ensures AddrCommand(Join(fields, ':'))[8..] == Concat(Reverse(fields))
  {
    NoColonInHexFields(fields);
    BdAddrOfFields(fields);
    assert "01F0FF06"[6..8] == "06";
    CommandFrame("01F0FF06", Concat(Reverse(fields)));
  }

  /** sendAclFunc: "0" packets sets the empty-packet length, any other count sends that many ACL packets. */
  function SendAclCommand(packetLen: string, numPackets: string): (r: Result<string, HciError>)
    ensures r.Success? <==> ParseDecInt(packetLen).Some? && (numPackets == "0" || ParseDecInt(numPackets).Some?)
    ensures r.Failure? ==> r.error == ValueError
  {
    var len :- IntOf(packetLen);
    var lenField := Hex16Lsb(len);
    if numPackets == "0" then
      Success("01E5FF02" + lenField)
    else
      var count :- IntOf(numPackets);
      Success("01E4FF05" + "0000" + lenField + FormatHex(count % 256, 2))
  }

  lemma EmptyAclFrame(lenField: string)
    requires |lenField| == 4 && IsHexString(lenField)
    ensures WellFormedCommand("01E5FF02" + lenField) && ("01E5FF02" + lenField)[8..] == lenField
  {
    assert "01E5FF02"[6..8] == "02";
    CommandFrame("01E5FF02", lenField);
  }

  lemma AclFrame(lenField: string, countField: string)
    requires |lenField| == 4 && IsHexString(lenField) && |countField| == 2 && IsHexString(countField)
    ensures var c := "01E4FF05" + "0000" + lenField + countField;
      WellFormedCommand(c) && c[8..12] == "0000" && c[12..16] == lenField && c[16..] == countField
  {
    HexConcat("0000", lenField);
    HexConcat("0000" + lenField, countField);
    assert "01E4FF05"[6..8] == "05";
    CommandFrame("01E4FF05", "0000" + lenField + countField);
    assert "01E4FF05" + "0000" + lenField + countField == "01E4FF05" + ("0000" + lenField + countField);
  }

  /**
   * Both ACL test commands are well formed and carry the packet length as a
   * little-endian 16-bit field; the packet count is its low byte.
   */
  lemma SendAclFields(packetLen: string, numPackets: string)
    requires SendAclCommand(packetLen, numPackets).Success?
    ensures var c := SendAclCommand(packetLen, numPackets).value;
      var lenField := Hex16Lsb(ParseDecInt(packetLen).value);
      WellFormedCommand(c) &&
      (numPackets == "0" ==> c[8..] == lenField) &&
      (numPackets != "0" ==>
        c[8..12] == "0000" && c[12..16] == lenField && c[16..] == FormatHex(ParseDecInt(numPackets).value % 256, 2))
  {
    var lenField := Hex16Lsb(ParseDecInt(packetLen).value);
    if numPackets == "0" {
      EmptyAclFrame(lenField);
    } else {
      var count := ParseDecInt(numPackets).value;
      FormatByte(count % 256);
      AclFrame(lenField, FormatHex(count % 256, 2));
    }
  }

  /** phyFunc: LE Set PHY for handle 0, the same PHY both ways; unknown selections fall back to 1M. */
  function PhyCommand(phy: string): string
  {
    var (code, options) :=
      if phy == "4" then ("04", "0100")
      else if phy == "3" then ("04", "0200")
      else if phy == "2" then ("02", "0000")
      else ("01", "0000");
    "01322007" + "0000" + "00" + code + code + options
  }

  /**
   * LE Set PHY is well formed and names connection handle 0 with no "no
   * preference" bits; TX and RX ask for the same PHY, and only Coded (04)
   * carries a coding preference: "4" prefers S2 (0001), "3" S8 (0002).
   */
  lemma PhyCommandFields(phy: string)
    ensures var c := PhyCommand(phy);
      WellFormedCommand(c) && |c| == 22 && c[8..12] == "0000" && c[12..14] == "00" && c[14..16] == c[16..18] &&
      c[14..16] == (if phy == "4" || phy == "3" then "04" else if phy == "2" then "02" else "01") &&
      c[18..22] == (if phy == "4" then "0100" else if phy == "3" then "0200" else "0000")
  {
    var code := if phy == "4" || phy == "3" then "04" else if phy == "2" then "02" else "01";
    var options := if phy == "4" then "0100" else if phy == "3" then "0200" else "0000";
    assert IsHexString(code) && IsHexString(options);
    assert PhyCommand(phy) == "01322007" + "0000" + "00" + code + code + options;
    PhyFrame(code, options);
  }

  lemma PhyFrame(code: string, options: string)
    requires |code| == 2 && IsHexString(code) && |options| == 4 && IsHexString(options)
    ensures var c := "01322007" + "0000" + "00" + code + code + options;
      WellFormedCommand(c) && |c| == 22 && c[8..12] == "0000" && c[12..14] == "00" &&
      c[14..16] == code && c[16..18] == code && c[18..22] == options
  {
    var params := "000000" + code + code + options;
    HexConcat("000000", code);
    HexConcat("000000" + code, code);
    HexConcat("000000" + code + code, options);
    assert "01322007"[6..8] == "07";
    CommandFrame("01322007", params);
    assert "01322007" + "0000" + "00" + code + code + options == "01322007" + params;
  }

  /** txPowerFunc: the advertising TX power, then, when a handle is given, the connection's TX power. */
  function TxPowerRun(power: string, handle: Option<string>): (r: Run)
    ensures ParseDecInt(power).None? ==> r == Run([], Some(ValueError))
    ensures ParseDecInt(power).Some? && (handle.None? || handle.value == "") ==>
      r == Run([AdvPowerCommand(ParseDecInt(power).value)], None)
    ensures ParseDecInt(power).Some? && handle.Some? && handle.value != "" && ParseDecInt(handle.value).None? ==>
      r == Run([AdvPowerCommand(ParseDecInt(power).value)], Some(ValueError))
    ensures ParseDecInt(power).Some? && handle.Some? && handle.value != "" && ParseDecInt(handle.value).Some? ==>
      r == Run([AdvPowerCommand(ParseDecInt(power).value), ConnPowerCommand(ParseDecInt(handle.value).value, ParseDecInt(power).value)], None)
  {
    match IntOf(power)
    case Failure(e) => Run([], Some(e))
    case Success(p) =>
      var advPower := AdvPowerCommand(p);
      if handle.None? || handle.value == "" then Run([advPower], None)
      else
        match IntOf(handle.value)
        case Failure(e) => Run([advPower], Some(e))
        case Success(h) => Run([advPower, ConnPowerCommand(h, p)], None)
  }

  function AdvPowerCommand(power: int): string
  {
    "01F5FF01" + PowerByte(power)
  }

  function ConnPowerCommand(handle: int, power: int): string
  {
    "01F6FF03" + Hex16Lsb(handle) + PowerByte(power)
  }

  lemma AdvPowerFrame(p: string)
    requires |p| == 2 && IsHexString(p)
    ensures var c := "01F5FF01" + p; WellFormedCommand(c) && c[8..] == p
  {
    assert "01F5FF01"[6..8] == "01";
    CommandFrame("01F5FF01", p);
  }

  lemma ConnPowerFrame(h: string, p: string)
    requires |h| == 4 && IsHexString(h) && |p| == 2 && IsHexString(p)
    ensures var c := "01F6FF03" + h + p; WellFormedCommand(c) && c[8..12] == h && c[12..] == p
  {
    HexConcat(h, p);
    assert "01F6FF03"[6..8] == "03";
    CommandFrame("01F6FF03", h + p);
    assert "01F6FF03" + h + p == "01F6FF03" + (h + p);
  }

  /** Both TX power commands are well formed and end with the power as a two's complement byte. */
  lemma PowerCommandsFields(handle: int, power: int)
    ensures var c := AdvPowerCommand(power); WellFormedCommand(c) && c[8..] == PowerByte(power)
    ensures var c := ConnPowerCommand(handle, power);
      WellFormedCommand(c) && c[8..12] == Hex16Lsb(handle) && c[12..] == PowerByte(power)
  {
    var p := PowerByte(power);
    var h := Hex16Lsb(handle);
    AdvPowerFrame(p);
    ConnPowerFrame(h, p);
  }

  /** Every command txPowerFunc sends is well formed. */
  lemma TxPowerWellFormed(power: string, handle: Option<string>)
    ensures AllWellFormed(TxPowerRun(power, handle).sent)
  {
    var r := TxPowerRun(power, handle);
    if ParseDecInt(power).Some? {
      var p := ParseDecInt(power).value;
      if handle.Some? && handle.value != "" && ParseDecInt(handle.value).Some? {
        PowerCommandsFields(ParseDecInt(handle.value).value, p);
        PairWellFormed(AdvPowerCommand(p), ConnPowerCommand(ParseDecInt(handle.value).value, p), r.sent);
      } else {
        PowerCommandsFields(0, p);
        SingleWellFormed(AdvPowerCommand(p), r.sent);
      }
    }
  }

  lemma SingleWellFormed(a: string, sent: seq<string>)
    requires WellFormedCommand(a) && sent == [a]
    ensures AllWellFormed(sent)
  {
  }

  lemma PairWellFormed(a: string, b: string, sent: seq<string>)
    requires WellFormedCommand(a) && WellFormedCommand(b) && sent == [a, b]
    ensures AllWellFormed(sent)
  {
  }

  // ---------------------------------------------------------------------
  // setChMapFunc
  // ---------------------------------------------------------------------

  /**
   * The mask setChMapFunc starts from: all 40 channels, channels 0 and 1 for
   * "0", channel 0 plus the given one otherwise, or the given hex mask.
   */
  function ChannelMask(mask: Option<string>, chan: Option<string>): (r: Result<int, HciError>)
    ensures mask.Some? ==> r == HexIntOf(mask.value)
    ensures mask.None? && chan.None? ==> r == Success(0xFF_FFFF_FFFF)
    ensures r.Failure? ==> r.error == ValueError
    ensures mask.None? && chan.Some? && chan.value != "0" ==>
      (r.Success? <==> ParseDecInt(chan.value).Some? && ParseDecInt(chan.value).value >= 0)
  {
    if mask.Some? then HexIntOf(mask.value)
    else if chan.None? then Success(0xFF_FFFF_FFFF)
    else if chan.value == "0" then Success(0x03)
    else
      var c :- IntOf(chan.value);
      // 1 | (1 << c); a negative shift count raises ValueError
      if c < 0 then Failure(ValueError) else Success(if c == 0 then 1 else 1 + Pow2(c))
  }

  /** chMask & ~0xE000000000: bits 37 to 39 (0x20_0000_0000 is bit 37) cleared, every other bit of the two's complement kept. */
  function ClearAdvChannels(m: int): (r: int)
    ensures r % 0x20_0000_0000 == m % 0x20_0000_0000
    ensures (r / 0x20_0000_0000) % 8 == 0
    ensures r / 0x100_0000_0000 == m / 0x100_0000_0000
  {
    var r := m - ((m / 0x20_0000_0000) % 8) * 0x20_0000_0000;
    ClearBits(m);
    r
  }

  lemma ClearBits(m: int)
    ensures var r := m - ((m / 0x20_0000_0000) % 8) * 0x20_0000_0000;
      r % 0x20_0000_0000 == m % 0x20_0000_0000 && (r / 0x20_0000_0000) % 8 == 0 && r / 0x100_0000_0000 == m / 0x100_0000_0000
  {
    var r := m - ((m / 0x20_0000_0000) % 8) * 0x20_0000_0000;
    var lo, hi := m % 0x20_0000_0000, m / 0x20_0000_0000;
    var b, q := hi % 8, hi / 8;
    assert m == 0x20_0000_0000 * hi + lo;
    assert hi == 8 * q + b;
    assert r == 0x20_0000_0000 * (8 * q) + lo;
    DivModUnique(r, 0x20_0000_0000, 8 * q, lo);
    DivModUnique(8 * q, 8, q, 0);
    assert r == 0x100_0000_0000 * q + lo;
    DivModUnique(r, 0x100_0000_0000, q, lo);
    assert m == 0x100_0000_0000 * q + (0x20_0000_0000 * b + lo);
    DivModUnique(m, 0x100_0000_0000, q, 0x20_0000_0000 * b + lo);
  }

  /** Clearing the bits twice changes nothing more. */
  lemma ClearAdvChannelsIdempotent(m: int)
    ensures ClearAdvChannels(ClearAdvChannels(m)) == ClearAdvChannels(m)
  {
    var r := ClearAdvChannels(m);
    assert (r / 0x20_0000_0000) % 8 == 0;
  }

  /** setChMapFunc: the vendor command with the handle and the 64-bit channel map, LSB first. */
  function SetChMapCommand(mask: Option<string>, chan: Option<string>, handle: string): (r: Result<string, HciError>)
    ensures ChannelMask(mask, chan).Failure? ==> r == Failure(ValueError)
    ensures ChannelMask(mask, chan).Success? && ParseDecInt(handle).None? ==> r == Failure(ValueError)
  {
    var chMask :- ChannelMask(mask, chan);
    var maskString := ChannelMapField(ClearAdvChannels(chMask));
    var h :- IntOf(handle);
    Success("01F8FF0A" + Hex16Lsb(h) + maskString)
  }

  /** parseAddr of "0x%0.16X" of the cleared mask: its first eight bytes, reversed. */
  function ChannelMapField(cleared: int): (r: string)
    ensures ParseAddrSpec("0x" + FormatSigned(cleared, 16), 16) == Success(r)
  {
    var text := FormatSigned(cleared, 16);
    FormatSignedLength(cleared, 16);
    assert From("0x" + text, 2) == text;
    ChunksCover(text, 2);
    ParseAddrSpec("0x" + text, 16).value
  }

  lemma FormatSignedLength(v: int, width: nat)
    ensures |FormatSigned(v, width)| >= width
  {
  }

  lemma ChMapFrame(h: string, e: string)
    requires |h| == 4 && IsHexString(h) && |e| == 16 && IsHexString(e)
    ensures var c := "01F8FF0A" + h + e; WellFormedCommand(c) && |c| == 28 && c[8..12] == h && c[12..] == e
  {
    HexConcat(h, e);
    assert "01F8FF0A"[6..8] == "0A";
    CommandFrame("01F8FF0A", h + e);
    assert "01F8FF0A" + h + e == "01F8FF0A" + (h + e);
  }

  /** A well-formed 14-byte command: the handle LSB first, then the eight bytes of the map, LSB first. */
  predicate ChMapLayout(c: string, h: int, cleared: int)
  {
    WellFormedCommand(c) && |c| == 28 && c[8..12] == Hex16Lsb(h) &&
    IsHexString(c[12..]) && HexBytes(c[12..]) == LittleEndianBytes(cleared, 8)
  }

  /**
   * For a mask of at most 64 bits and a numeric handle the command is well
   * formed: the handle LSB first, then the eight map bytes LSB first, with
   * the bits of channels 37 to 39 cleared.
   */
  lemma SetChMapFields(mask: Option<string>, chan: Option<string>, handle: string, m: int, h: int)
    requires ChannelMask(mask, chan) == Success(m) && 0 <= m < Pow256(8)
    requires ParseDecInt(handle) == Some(h)
    ensures SetChMapCommand(mask, chan, handle) == Success("01F8FF0A" + Hex16Lsb(h) + ChannelMapField(ClearAdvChannels(m)))
    ensures ChMapLayout("01F8FF0A" + Hex16Lsb(h) + ChannelMapField(ClearAdvChannels(m)), h, ClearAdvChannels(m))
  {
    ClearedIsSmall(m);
    ChMapCommandFields(h, ClearAdvChannels(m));
  }

  lemma ChMapCommandFields(h: int, cleared: nat)
    requires cleared < Pow16(16)
    ensures ChMapLayout("01F8FF0A" + Hex16Lsb(h) + ChannelMapField(cleared), h, cleared)
  {
    ChannelMapBytes(cleared);
    ChMapFrame(Hex16Lsb(h), ChannelMapField(cleared));
  }

  /** A cleared mask of at most 64 bits gives 16 hex digits: its eight bytes, LSB first. */
  lemma ChannelMapBytes(c: nat)
    requires c < Pow16(16)
    ensures var e := ChannelMapField(c);
      |e| == 16 && IsHexString(e) && HexBytes(e) == LittleEndianBytes(c, 8)
  {
    FormatHexWidth(c, 16);
    ParseAddrLittleEndian(FormatHex(c, 16), 8);
  }

  lemma ClearedIsSmall(m: int)
    requires 0 <= m < Pow256(8)
    ensures 0 <= ClearAdvChannels(m) < Pow16(16)
  {
    Pow16Twice(8);
    assert Pow256(8) == 0x1_0000_0000_0000_0000;
    assert Pow16(16) == 0x1_0000_0000_0000_0000;
  }

  // ---------------------------------------------------------------------
  // readRegFunc
  // ---------------------------------------------------------------------

  /** readRegFunc's command: the address LSB first behind the read length; a length not written 0x... is refused. */
  function ReadRegCommand(addr: string, length: string): (r: Result<string, HciError>)
    ensures r == Failure(Rejected) <==> ParseAddrSpec(addr, 8).Success? && Slice(length, 0, 2) != "0x"
    ensures r.Failure? && r.error == ValueError ==> ParseHexInt(From(length, 2)).None?
  {
    var addrBytes :- ParseAddrSpec(addr, 8);
    if Slice(length, 0, 2) != "0x" then Failure(Rejected)
    else
      var readLen :- HexIntOf(From(length, 2));
      Success("0101FF" + FormatHex(1 + 4, 2) + FormatSigned(readLen, 2) + addrBytes)
  }

  /** A well-formed 5-byte command: the read length, then the four address bytes, LSB first. */
  predicate ReadRegLayout(c: string, readLen: int, addr: int)
  {
    WellFormedCommand(c) && |c| == 18 && ByteAt(c, 4) == readLen &&
    IsHexString(c[10..]) && HexBytes(c[10..]) == LittleEndianBytes(addr, 4)
  }

  lemma ReadRegFrame(total: string, len: string, addrBytes: string, readLen: int, addr: int)
    requires |total| == 2 && IsHexString(total) && HexValue(total) == 5
    requires |len| == 2 && IsHexString(len) && HexBytes(len) == [readLen]
    requires |addrBytes| == 8 && IsHexString(addrBytes) && HexBytes(addrBytes) == LittleEndianBytes(addr, 4)
    ensures ReadRegLayout("0101FF" + total + len + addrBytes, readLen, addr)
  {
    var header := "0101FF" + total;
    HexConcat("0101FF", total);
    assert header[6..8] == total && header[..2] == "01";
    HexConcat(len, addrBytes);
    CommandFrame(header, len + addrBytes);
    var c := "0101FF" + total + len + addrBytes;
    assert c == header + (len + addrBytes);
    assert c[8..10] == len == len[0..2];
    assert ByteAt(len, 0) == readLen;
    assert c[10..] == addrBytes;
  }

  lemma ReadRegUnfold(addr: string, length: string, e: string, n: int)
    requires ParseAddrSpec(addr, 8) == Success(e)
    requires Slice(length, 0, 2) == "0x" && ParseHexInt(From(length, 2)) == Some(n) && n >= 0
    ensures ReadRegCommand(addr, length) == Success("0101FF" + FormatHex(1 + 4, 2) + FormatHex(n, 2) + e)
  {
  }

  /**
   * For an address of eight hex digits and a one-byte length, the read
   * command is well formed, names the length and carries the address LSB first.
   */
  lemma ReadRegFields(a: string, l: string)
    requires |a| == 8 && IsHexString(a)
    requires ParseHexInt(l).Some? && 0 <= ParseHexInt(l).value < 256
    ensures ReadRegCommand("0x" + a, "0x" + l).Success?
    ensures ReadRegLayout(ReadRegCommand("0x" + a, "0x" + l).value, ParseHexInt(l).value, HexValue(a))
  {
    ParseAddrLittleEndian(a, 4);
    var e := ParseAddrSpec("0x" + a, 8).value;
    assert Slice("0x" + l, 0, 2) == "0x";
    assert From("0x" + l, 2) == l;
    var n := ParseHexInt(l).value;
    FormatByte(5);
    FormatByte(n);
    ReadRegUnfold("0x" + a, "0x" + l, e, n);
    ReadRegFrame(FormatHex(1 + 4, 2), FormatHex(n, 2), e, n, HexValue(a));
  }

  /** The bytes of the read-register event after its 7-byte header. */
  function EventBytes(evt: string): (r: seq<string>)
    ensures forall k :: 0 <= k < |r| ==> 0 < |r[k]| <= 2
  {
    Chunks(From(evt, 14), 2)
  }

  /** readRegFunc pads the read length up to a whole number of 32-bit words. */
  function PaddedLength(readLen: int): (p: int)
    ensures p % 4 == 0 && readLen <= p < readLen + 4
  {
    if readLen % 4 != 0 then readLen + (4 - readLen % 4) else readLen
  }

  /** The byte printed at step i: each 32-bit word is printed from its last byte down to its first. */
  function DumpIndex(i: nat): (j: nat)
    ensures j / 4 == i / 4 && j % 4 == 3 - i % 4
  {
    var j := (i / 4) * 4 + (4 - i % 4) - 1;
    DivModUnique(j, 4, i / 4, 3 - i % 4);
    j
  }

  /** Printing order is its own inverse: the byte printed at step DumpIndex(i) is byte i. */
  lemma DumpIndexInvolution(i: nat)
    ensures DumpIndex(DumpIndex(i)) == i
  {
    var j := DumpIndex(i);
    var k := DumpIndex(j);
    assert k / 4 == i / 4 && k % 4 == i % 4;
    DivModUnique(i, 4, k / 4, k % 4);
  }

  /** What one step of the dump prints: padding past the read length, else the event byte. */
  function DumpCell(evtBytes: seq<string>, readLen: int, i: nat): string
    requires DumpIndex(i) >= readLen || DumpIndex(i) < |evtBytes|
  {
    if DumpIndex(i) >= readLen then "__" else evtBytes[DumpIndex(i)]
  }

  /** Number of dump steps: the padded length, none for a negative one. */
  function DumpSteps(readLen: int): nat
  {
    if PaddedLength(readLen) > 0 then PaddedLength(readLen) else 0
  }

  /**
   * The cells readRegFunc prints after the command: ValueError for an
   * address int() refuses, IndexError for an event shorter than the length.
   */
  function RegisterDumpSpec(addr: string, evtBytes: seq<string>, readLen: int): Result<seq<string>, HciError>
  {
    var startingAddr :- HexIntOf(addr);
    if readLen > |evtBytes| then Failure(IndexError)
    else Success(seq(DumpSteps(readLen), i requires 0 <= i < DumpSteps(readLen) => DumpCell(evtBytes, readLen, i)))
  }

  /** When no step reached outside the event, the event holds all the bytes that were read. */
  lemma DumpCoversEvent(evtBytes: seq<string>, readLen: int)
    requires forall j :: 0 <= j < DumpSteps(readLen) ==> DumpIndex(j) >= readLen || DumpIndex(j) < |evtBytes|
    ensures readLen <= |evtBytes|
  {
    if readLen > |evtBytes| {
      StepReachesByte(readLen, |evtBytes|);
    }
  }

  /** Every byte below the read length is printed at some step of the dump. */
  lemma StepReachesByte(readLen: int, m: nat)
    requires m < readLen
    ensures DumpIndex(m) < DumpSteps(readLen) && DumpIndex(DumpIndex(m)) == m
  {
    DumpIndexInvolution(m);
    var p := PaddedLength(readLen);
    DivModUnique(p, 4, p / 4, 0);
    assert m / 4 < p / 4;
  }

  /** The dump loop of readRegFunc, cell by cell. */
  method RegisterDump(addr: string, evtBytes: seq<string>, readLen: int) returns (r: Result<seq<string>, HciError>)
    ensures r == RegisterDumpSpec(addr, evtBytes, readLen)
  {
    if ParseHexInt(addr).None? {
      return Failure(ValueError);
    }
    var readLenPad := readLen;
    if readLen % 4 != 0 {
      readLenPad := readLenPad + (4 - readLen % 4);
    }
    assert readLenPad == PaddedLength(readLen);
    var cells: seq<string> := [];
    var i := 0;
    while i < readLenPad
      invariant 0 <= i <= DumpSteps(readLen) && |cells| == i
      invariant forall j :: 0 <= j < i ==> DumpIndex(j) >= readLen || DumpIndex(j) < |evtBytes|
      invariant forall j :: 0 <= j < i ==> cells[j] == DumpCell(evtBytes, readLen, j)
    {
      var lineAddr := (i / 4) * 4 + (4 - i % 4) - 1;
      assert lineAddr == DumpIndex(i);
      if lineAddr >= readLen {
        cells := cells + ["__"];
      } else if lineAddr < |evtBytes| {
        cells := cells + [evtBytes[lineAddr]];
      } else {
        return Failure(IndexError);
      }
      i := i + 1;
    }
    DumpCoversEvent(evtBytes, readLen);
    assert i == DumpSteps(readLen);
    assert cells == seq(DumpSteps(readLen), j requires 0 <= j < DumpSteps(readLen) => DumpCell(evtBytes, readLen, j));
    return Success(cells);
  }

  // ---------------------------------------------------------------------
  // writeRegFunc
  // ---------------------------------------------------------------------

  lemma FourChunks(a: string, size: nat)
    requires size > 0 && size == |a| / 4
    ensures |Chunks(a, size)| >= 4
  {
    ChunksCover(a, size);
  }

  /**
   * writeRegFunc's command: a value of 1, 2 or 4 bytes written as typed,
   * behind the address split into four parts and reversed.
   */
  function WriteRegCommand(addr: string, value: string): (r: Result<string, HciError>)
    ensures r == Failure(Rejected) <==> |From(value, 2)| != 2 && |From(value, 2)| != 4 && |From(value, 2)| != 8
    ensures r == Failure(ValueError) <==> (|From(value, 2)| == 2 || |From(value, 2)| == 4 || |From(value, 2)| == 8) && |addr| < 6
    ensures r.Failure? ==> r.error != IndexError
  {
    var data := From(value, 2);
    if |data| % 2 != 0 then Failure(Rejected)
    else
      var writeLen := |data| / 2;
      if writeLen != 4 && writeLen != 2 && writeLen != 1 then Failure(Rejected)
      else
        var a := From(addr, 2);
        var chunkSize := |a| / 4;
        // range() with a zero step raises ValueError
        if chunkSize == 0 then Failure(ValueError)
        else
          var addrBytes := Chunks(a, chunkSize);
          FourChunks(a, chunkSize);
          Success("0100FF" + FormatHex(writeLen + 5, 2) + FormatHex(writeLen, 2) +
            addrBytes[3] + addrBytes[2] + addrBytes[1] + addrBytes[0] + data)
  }

  lemma ConcatFour(a: string, b: string, c: string, d: string)
    ensures Concat([a, b, c, d]) == a + b + c + d
  {
    assert Concat([d]) == d by { assert [d][1..] == []; }
    assert Concat([c, d]) == c + d by { assert [c, d][1..] == [d]; }
    assert Concat([b, c, d]) == b + (c + d) by { assert [b, c, d][1..] == [c, d]; }
    assert Concat([a, b, c, d]) == a + (b + (c + d)) by { assert [a, b, c, d][1..] == [b, c, d]; }
  }

  lemma ConcatReverseFour(f: seq<string>)
    requires |f| == 4
    ensures Concat(Reverse(f)) == f[3] + f[2] + f[1] + f[0]
  {
    var r := Reverse(f);
    ConcatOfFour(r);
    assert r[0] == f[3] && r[1] == f[2] && r[2] == f[1] && r[3] == f[0];
  }

  lemma ConcatOfFour(r: seq<string>)
    requires |r| == 4
    ensures Concat(r) == r[0] + r[1] + r[2] + r[3]
  {
    assert r == [r[0], r[1], r[2], r[3]];
    ConcatFour(r[0], r[1], r[2], r[3]);
  }

  lemma WriteRegFrame(total: string, len: string, addrBytes: string, data: string)
    requires |total| == 2 && IsHexString(total) && |len| == 2 && IsHexString(len)
    requires HexValue(total) * 2 == 2 + |addrBytes| + |data|
    requires |addrBytes| == 8 && IsHexString(addrBytes) && IsHexString(data)
    ensures var c := "0100FF" + total + len + addrBytes + data;
      WellFormedCommand(c) && c[8..10] == len && c[10..18] == addrBytes && c[18..] == data
  {
    var op := "0100FF";
    assert IsHexString(op) && op[..2] == "01";
    WriteRegLayout(op, total, len, addrBytes, data);
  }

  /** The field layout of a register write, for any opcode text and any fields of the right widths. */
  lemma WriteRegLayout(op: string, total: string, len: string, addrBytes: string, data: string)
    requires |op| == 6 && IsHexString(op) && op[..2] == "01"
    requires |total| == 2 && IsHexString(total) && |len| == 2 && IsHexString(len)
    requires HexValue(total) * 2 == 2 + |addrBytes| + |data|
    requires |addrBytes| == 8 && IsHexString(addrBytes) && IsHexString(data)
    ensures var c := op + total + len + addrBytes + data;
      WellFormedCommand(c) && c[8..10] == len && c[10..18] == addrBytes && c[18..] == data
  {
    var header, body := op + total, len + addrBytes + data;
    HeaderOfOpcode(op, total);
    WriteRegBody(len, addrBytes, data);
    CommandFrame(header, body);
    var c := header + body;
    assert c[8..] == body;
    assert c[8..10] == body[0..2] && c[10..18] == body[2..10] && c[18..] == body[10..];
    assert op + total + len + addrBytes + data == c;
  }

  lemma HeaderOfOpcode(op: string, total: string)
    requires |op| == 6 && IsHexString(op) && op[..2] == "01" && |total| == 2 && IsHexString(total)
    ensures var h := op + total; |h| == 8 && IsHexString(h) && h[..2] == "01" && h[6..8] == total
  {
    HexConcat(op, total);
    var h := op + total;
    assert h[..2] == op[..2];
  }

  lemma WriteRegBody(len: string, addrBytes: string, data: string)
    requires |len| == 2 && IsHexString(len) && |addrBytes| == 8 && IsHexString(addrBytes) && IsHexString(data)
    ensures var b := len + addrBytes + data;
      IsHexString(b) && b[0..2] == len && b[2..10] == addrBytes && b[10..] == data
  {
    HexConcat(len, addrBytes);
    HexConcat(len + addrBytes, data);
  }

  /**
   * For an address of 0x and eight hex digits and a value of 1, 2 or 4
   * bytes, writeRegFunc sends the value's byte count, the address LSB first
   * (as parseAddr gives it), then the value as typed.
   */
  lemma WriteRegFields(a: string, v: string)
    requires |a| == 8 && IsHexString(a)
    requires IsHexString(v) && (|v| == 2 || |v| == 4 || |v| == 8)
    ensures ParseAddrSpec("0x" + a, 8) == Success(Concat(Reverse(Chunks(a, 2))))
    ensures WriteRegCommand("0x" + a, "0x" + v) ==
      Success("0100FF" + FormatHex(|v| / 2 + 5, 2) + FormatHex(|v| / 2, 2) + Concat(Reverse(Chunks(a, 2))) + v)
    ensures var e := Concat(Reverse(Chunks(a, 2)));
      |e| == 8 && IsHexString(e) && HexBytes(e) == LittleEndianBytes(HexValue(a), 4)
  {
    WriteRegUnfold(a, v);
    ParseAddrOfDigits(a, 4);
    ParseAddrLittleEndian(a, 4);
  }

  /** That write command is well formed and names the value's byte count. */
  lemma WriteRegPacket(w: nat, e: string, v: string)
    requires (w == 1 || w == 2 || w == 4) && |v| == 2 * w && IsHexString(v) && |e| == 8 && IsHexString(e)
    ensures var c := "0100FF" + FormatHex(w + 5, 2) + FormatHex(w, 2) + e + v;
      WellFormedCommand(c) && ByteAt(c, 4) == w && c[10..18] == e && c[18..] == v
  {
    FormatByte(w + 5);
    FormatByte(w);
    WriteRegFrame(FormatHex(w + 5, 2), FormatHex(w, 2), e, v);
    var c := "0100FF" + FormatHex(w + 5, 2) + FormatHex(w, 2) + e + v;
    assert c[8..10] == FormatHex(w, 2);
  }

  lemma WriteRegUnfold(a: string, v: string)
    requires |a| == 8 && (|v| == 2 || |v| == 4 || |v| == 8)
    ensures WriteRegCommand("0x" + a, "0x" + v) ==
      Success("0100FF" + FormatHex(|v| / 2 + 5, 2) + FormatHex(|v| / 2, 2) + Concat(Reverse(Chunks(a, 2))) + v)
  {
    assert From("0x" + v, 2) == v;
    assert From("0x" + a, 2) == a;
    WriteRegShape("0x" + a, "0x" + v);
    var c := Chunks(a, 2);
    ConcatReverseFour(c);
    RegroupFour("0100FF" + FormatHex(|v| / 2 + 5, 2) + FormatHex(|v| / 2, 2), c[3], c[2], c[1], c[0], v);
  }

  lemma RegroupFour(p: string, c3: string, c2: string, c1: string, c0: string, v: string)
    ensures p + c3 + c2 + c1 + c0 + v == p + (c3 + c2 + c1 + c0) + v
  {
  }

  /** writeRegFunc on eight address digits and a value of 1, 2 or 4 bytes builds its command. */
  lemma WriteRegShape(addr: string, value: string)
    requires |From(addr, 2)| == 8 && (|From(value, 2)| == 2 || |From(value, 2)| == 4 || |From(value, 2)| == 8)
    ensures |Chunks(From(addr, 2), 2)| == 4
    ensures var c, w := Chunks(From(addr, 2), 2), |From(value, 2)| / 2;
      WriteRegCommand(addr, value) ==
        Success("0100FF" + FormatHex(w + 5, 2) + FormatHex(w, 2) + c[3] + c[2] + c[1] + c[0] + From(value, 2))
  {
    var a := From(addr, 2);
    assert |a| / 4 == 2;
    ChunksOfEven(a);
  }
}
