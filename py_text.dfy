/**
 * The host language's text primitives that the HCI helpers are built from:
 * hexadecimal and decimal integer parsing, "%0.<n>X" and hex() formatting,
 * splitting on a separator and cutting into fixed-size chunks.
 */
module PyText {
  import opened Types
  import opened LittleEndian

  // ---------------------------------------------------------------------
  // Hexadecimal digits
  // ---------------------------------------------------------------------

  predicate IsHexDigit(c: char)
  {
    ('0' <= c <= '9') || ('a' <= c <= 'f') || ('A' <= c <= 'F')
  }

  predicate IsHexString(s: string)
  {
    forall k :: 0 <= k < |s| ==> IsHexDigit(s[k])
  }

  predicate IsUpperHexString(s: string)
  {
    forall k :: 0 <= k < |s| ==> ('0' <= s[k] <= '9') || ('A' <= s[k] <= 'F')
  }

  function DigitValue(c: char): (v: nat)
    requires IsHexDigit(c)
    ensures v < 16
  {
    if '0' <= c <= '9' then c as int - '0' as int
    else if 'a' <= c <= 'f' then c as int - 'a' as int + 10
    else c as int - 'A' as int + 10
  }

  /** The digit for v, upper or lower case. */
  function Digit(v: nat, upper: bool): (c: char)
    requires v < 16
    ensures IsHexDigit(c) && DigitValue(c) == v
    ensures upper ==> ('0' <= c <= '9') || ('A' <= c <= 'F')
  {
    if v < 10 then ('0' as int + v) as char
    else if upper then ('A' as int + v - 10) as char
    else ('a' as int + v - 10) as char
  }

  function Pow16(n: nat): (p: nat)
    ensures p > 0
  {
    if n == 0 then 1 else 16 * Pow16(n - 1)
  }

  /** The value of a string of hex digits, most significant first. */
  function HexValue(s: string): (v: nat)
    requires IsHexString(s)
    ensures v < Pow16(|s|)
    decreases |s|
  {
    if |s| == 0 then 0
    else
      var rest := HexValue(s[..|s| - 1]);
      assert rest <= Pow16(|s| - 1) - 1;
      rest * 16 + DigitValue(s[|s| - 1])
  }

  lemma HexValueSnoc(s: string, c: char)
    requires IsHexString(s) && IsHexDigit(c)
    ensures IsHexString(s + [c]) && HexValue(s + [c]) == HexValue(s) * 16 + DigitValue(c)
  {
    assert (s + [c])[..|s|] == s;
  }

  /** Digits appended after a hex string shift its value by their count. */
  lemma {:induction false} HexValueAppend(a: string, b: string)
    requires IsHexString(a) && IsHexString(b)
    ensures IsHexString(a + b) && HexValue(a + b) == HexValue(a) * Pow16(|b|) + HexValue(b)
    decreases |b|
  {
    if |b| == 0 {
      assert a + b == a;
    } else {
      var b' := b[..|b| - 1];
      var c := b[|b| - 1];
      assert b == b' + [c];
      assert IsHexString(a + b') by {
        assert forall k :: 0 <= k < |a + b'| ==> (a + b')[k] == (a + b)[k];
      }
      assert a + b == (a + b') + [c];
      HexValueAppend(a, b');
      var x, p, y, d := HexValue(a), Pow16(|b'|), HexValue(b'), DigitValue(c);
      assert HexValue(a + b) == HexValue(a + b') * 16 + d by {
        HexValueSnoc(a + b', c);
      }
      assert HexValue(b) == y * 16 + d by {
        HexValueSnoc(b', c);
      }
      assert Pow16(|b|) == p * 16;
      ShiftDigit(x, p, y, d);
    }
  }

  lemma ShiftDigit(x: int, p: int, y: int, d: int)
    ensures (x * p + y) * 16 + d == x * (p * 16) + (y * 16 + d)
  {
  }

  lemma {:induction false} ZerosHaveValueZero(n: nat)
    ensures IsHexString(seq(n, _ => '0')) && HexValue(seq(n, _ => '0')) == 0
  {
    if n > 0 {
      assert seq(n, _ => '0') == seq(n - 1, _ => '0') + ['0'];
      ZerosHaveValueZero(n - 1);
      HexValueSnoc(seq(n - 1, _ => '0'), '0');
    }
  }

  lemma {:induction false} Pow16Twice(n: nat)
    ensures Pow16(2 * n) == Pow256(n)
  {
    if n > 0 {
      Pow16Twice(n - 1);
      assert Pow16(2 * n) == 16 * 16 * Pow16(2 * (n - 1));
    }
  }

  // ---------------------------------------------------------------------
  // Formatting
  // ---------------------------------------------------------------------

  /** The fewest digits that write v ("0" for zero). */
  function Digits(v: nat, upper: bool): (s: string)
    ensures |s| >= 1 && IsHexString(s) && HexValue(s) == v
    ensures upper ==> IsUpperHexString(s)
    ensures |s| > 1 ==> v >= Pow16(|s| - 1)
    decreases v
  {
    if v < 16 then [Digit(v, upper)]
    else
      var d := Digits(v / 16, upper) + [Digit(v % 16, upper)];
      HexValueSnoc(Digits(v / 16, upper), Digit(v % 16, upper));
      d
  }

  /** "%0.<width>X" of a non-negative value: upper-case digits, zero-padded to at least `width`. */
  function FormatHex(v: nat, width: nat): (s: string)
    ensures IsHexString(s) && IsUpperHexString(s) && HexValue(s) == v && |s| >= width
  {
    var d := Digits(v, true);
    if |d| < width then PadZeros(d, width) else d
  }

  function PadZeros(d: string, width: nat): (s: string)
    requires IsHexString(d) && IsUpperHexString(d) && |d| < width
    ensures IsHexString(s) && IsUpperHexString(s) && HexValue(s) == HexValue(d) && |s| == width
  {
    ZerosHaveValueZero(width - |d|);
    HexValueAppend(seq(width - |d|, _ => '0'), d);
    seq(width - |d|, _ => '0') + d
  }

  /** A value below 16^width is written in exactly `width` digits. */
  lemma FormatHexWidth(v: nat, width: nat)
    requires 0 < width && v < Pow16(width)
    ensures |FormatHex(v, width)| == width
  {
    var d := Digits(v, true);
    if |d| > width {
      Pow16Monotone(width, |d| - 1);
    }
  }

  lemma {:induction false} Pow16Monotone(a: nat, b: nat)
    requires a <= b
    ensures Pow16(a) <= Pow16(b)
    decreases b
  {
    if a < b {
      Pow16Monotone(a, b - 1);
    }
  }

  /** hex() of a non-negative value: "0x" and lower-case digits. */
  function PyHex(v: nat): (s: string)
    ensures |s| >= 3 && s[..2] == "0x" && IsHexString(s[2..]) && HexValue(s[2..]) == v
  {
    "0x" + Digits(v, false)
  }

  // ---------------------------------------------------------------------
  // Parsing
  // ---------------------------------------------------------------------

  /** An optional leading sign: whether it is a minus, and the rest. */
  function SplitSign(s: string): (bool, string)
  {
    if |s| > 0 && (s[0] == '-' || s[0] == '+') then (s[0] == '-', s[1..]) else (false, s)
  }

  /** The digits after an optional "0x" or "0X" prefix. */
  function DropHexPrefix(s: string): string
  {
    if |s| >= 2 && s[0] == '0' && (s[1] == 'x' || s[1] == 'X') then s[2..] else s
  }

  /**
   * int(s, 16): an optional sign, an optional 0x prefix, then at least one
   * hex digit; None where the host language raises ValueError.
   */
  function ParseHexInt(s: string): (r: Option<int>)
    ensures r.Some? ==> IsHexString(DropHexPrefix(SplitSign(s).1)) && |DropHexPrefix(SplitSign(s).1)| > 0
  {
    var (negative, unsigned) := SplitSign(s);
    var digits := DropHexPrefix(unsigned);
    if |digits| > 0 && IsHexString(digits) then
      var value: int := HexValue(digits);
      Some(if negative then -value else value)
    else None
  }

  predicate IsDecDigit(c: char)
  {
    '0' <= c <= '9'
  }

  function DecDigitValue(c: char): (v: nat)
    requires IsDecDigit(c)
    ensures v < 10
  {
    c as int - '0' as int
  }

  function DecValue(s: string): (v: nat)
    requires forall k :: 0 <= k < |s| ==> IsDecDigit(s[k])
    decreases |s|
  {
    if |s| == 0 then 0 else DecValue(s[..|s| - 1]) * 10 + DecDigitValue(s[|s| - 1])
  }

  /** int(s): an optional sign and at least one decimal digit; None where ValueError is raised. */
  function ParseDecInt(s: string): Option<int>
  {
    var (negative, digits) := SplitSign(s);
    if |digits| > 0 && forall k :: 0 <= k < |digits| ==> IsDecDigit(digits[k]) then
      var value: int := DecValue(digits);
      Some(if negative then -value else value)
    else None
  }

  /** Both formatters read back through int(s, 16). */
  lemma ParseHexOfFormatted(v: nat, width: nat)
    ensures ParseHexInt(PyHex(v)) == Some(v)
    ensures width > 0 ==> ParseHexInt(FormatHex(v, width)) == Some(v)
  {
    var p := PyHex(v);
    assert p == "0x" + p[2..];
    ParseHexOfPrefixed(p[2..]);
    if width > 0 {
      ParseHexOfDigits(FormatHex(v, width));
    }
  }

  /** "0x" and at least one hex digit reads as the digits' value. */
  lemma ParseHexOfPrefixed(d: string)
    requires |d| > 0 && IsHexString(d)
    ensures ParseHexInt("0x" + d) == Some(HexValue(d))
  {
    var p := "0x" + d;
    assert SplitSign(p) == (false, p);
    assert DropHexPrefix(p) == d;
  }

  /** Hex digits alone carry no sign and no prefix (x is no digit), so they read as their value. */
  lemma ParseHexOfDigits(s: string)
    requires IsHexString(s) && |s| > 0
    ensures ParseHexInt(s) == Some(HexValue(s))
  {
    assert SplitSign(s) == (false, s);
    if |s| >= 2 && s[0] == '0' {
      assert IsHexDigit(s[1]);
    }
    assert DropHexPrefix(s) == s;
  }

  /** Upper-case hex strings of one length are equal when their values are. */
  lemma {:induction false} UpperHexInjective(s: string, t: string)
    requires IsHexString(s) && IsHexString(t) && IsUpperHexString(s) && IsUpperHexString(t)
    requires |s| == |t| && HexValue(s) == HexValue(t)
    ensures s == t
    decreases |s|
  {
    if |s| > 0 {
      var n := |s| - 1;
      HexValueLast(s);
      HexValueLast(t);
      LastDigitUnique(HexValue(s[..n]), DigitValue(s[n]), HexValue(t[..n]), DigitValue(t[n]));
      UpperHexPrefix(s, n);
      UpperHexPrefix(t, n);
      UpperHexInjective(s[..n], t[..n]);
      UpperDigitInjective(s[n], t[n]);
      assert s == s[..n] + [s[n]] && t == t[..n] + [t[n]];
    }
  }

  lemma HexValueLast(s: string)
    requires IsHexString(s) && |s| > 0
    ensures IsHexString(s[..|s| - 1])
    ensures HexValue(s) == HexValue(s[..|s| - 1]) * 16 + DigitValue(s[|s| - 1])
  {
  }

  lemma UpperHexPrefix(s: string, n: nat)
    requires IsHexString(s) && IsUpperHexString(s) && n <= |s|
    ensures IsHexString(s[..n]) && IsUpperHexString(s[..n])
  {
    assert forall k :: 0 <= k < n ==> s[..n][k] == s[k];
  }

  /** Equal values shifted by one digit have equal digits and equal higher parts. */
  lemma LastDigitUnique(a: int, x: int, b: int, y: int)
    requires a * 16 + x == b * 16 + y && 0 <= x < 16 && 0 <= y < 16
    ensures a == b && x == y
  {
    DivModUnique(a * 16 + x, 16, a, x);
    DivModUnique(b * 16 + y, 16, b, y);
  }

  lemma UpperDigitInjective(c: char, d: char)
    requires ('0' <= c <= '9') || ('A' <= c <= 'F')
    requires ('0' <= d <= '9') || ('A' <= d <= 'F')
    requires DigitValue(c) == DigitValue(d)
    ensures c == d
  {
  }

  // ---------------------------------------------------------------------
  // Splitting and chunking
  // ---------------------------------------------------------------------

  function Concat(parts: seq<string>): string
  {
    if parts == [] then "" else parts[0] + Concat(parts[1..])
  }

  function Join(parts: seq<string>, sep: char): string
    requires |parts| > 0
  {
    if |parts| == 1 then parts[0] else parts[0] + [sep] + Join(parts[1..], sep)
  }

  /** str.split(sep) for a one-character separator. */
  function Split(s: string, sep: char): (parts: seq<string>)
    ensures |parts| >= 1
    decreases |s|
  {
    if |s| == 0 then [""]
    else if s[0] == sep then [""] + Split(s[1..], sep)
    else
      var rest := Split(s[1..], sep);
      [[s[0]] + rest[0]] + rest[1..]
  }

  /** Splitting undoes joining parts that do not contain the separator. */
  lemma {:induction false} SplitJoin(parts: seq<string>, sep: char)
    requires |parts| > 0 && forall k :: 0 <= k < |parts| ==> sep !in parts[k]
    ensures Split(Join(parts, sep), sep) == parts
    decreases |parts|, |parts[0]|
  {
    if |parts[0]| == 0 {
      if |parts| > 1 {
        assert Join(parts, sep) == [sep] + Join(parts[1..], sep);
        assert Join(parts, sep)[1..] == Join(parts[1..], sep);
        SplitJoin(parts[1..], sep);
      } else {
        assert Join(parts, sep) == "";
      }
    } else {
      var c := parts[0][0];
      var shorter := [parts[0][1..]] + parts[1..];
      assert forall k :: 0 <= k < |shorter| ==> sep !in shorter[k] by {
        forall k | 0 <= k < |shorter| ensures sep !in shorter[k] {
          if k == 0 {
            assert forall x :: x in parts[0][1..] ==> x in parts[0];
          } else {
            assert shorter[k] == parts[k];
          }
        }
      }
      JoinCons(parts, sep);
      SplitJoin(shorter, sep);
      assert parts[0] == [c] + parts[0][1..];
      assert [[c] + shorter[0]] + shorter[1..] == parts;
    }
  }

  lemma JoinCons(parts: seq<string>, sep: char)
    requires |parts| > 0 && |parts[0]| > 0
    ensures Join(parts, sep) == [parts[0][0]] + Join([parts[0][1..]] + parts[1..], sep)
    ensures Join(parts, sep)[0] == parts[0][0]
    ensures Join(parts, sep)[1..] == Join([parts[0][1..]] + parts[1..], sep)
  {
    var shorter := [parts[0][1..]] + parts[1..];
    assert shorter[1..] == parts[1..];
    assert parts[0] == [parts[0][0]] + parts[0][1..];
  }

  /** [s[i:i+size] for i in range(0, len(s), size)]. */
  function Chunks(s: string, size: nat): (r: seq<string>)
    requires size > 0
    ensures forall k :: 0 <= k < |r| ==> 0 < |r[k]| <= size
    decreases |s|
  {
    if |s| == 0 then []
    else if |s| <= size then [s]
    else [s[..size]] + Chunks(s[size..], size)
  }

  lemma {:induction false} ConcatChunks(s: string, size: nat)
    requires size > 0
    ensures Concat(Chunks(s, size)) == s
    decreases |s|
  {
    if |s| > size {
      ConcatChunks(s[size..], size);
      assert s == s[..size] + s[size..];
    }
  }

  /** Cutting concatenated chunks of the chunk size gives them back. */
  lemma {:induction false} ChunksOfConcat(parts: seq<string>, size: nat)
    requires size > 0 && forall k :: 0 <= k < |parts| ==> |parts[k]| == size
    ensures Chunks(Concat(parts), size) == parts
    decreases |parts|
  {
    if parts != [] {
      ChunksOfConcat(parts[1..], size);
      ConcatLength(parts[1..], size);
      var c := Concat(parts);
      assert c == parts[0] + Concat(parts[1..]);
      if |parts| == 1 {
        assert c == parts[0];
      } else {
        assert |Concat(parts[1..])| > 0;
        assert c[..size] == parts[0];
        assert c[size..] == Concat(parts[1..]);
      }
    }
  }

  lemma {:induction false} ConcatLength(parts: seq<string>, size: nat)
    requires forall k :: 0 <= k < |parts| ==> |parts[k]| == size
    ensures |Concat(parts)| == size * |parts|
    decreases |parts|
  {
    if parts != [] {
      ConcatLength(parts[1..], size);
    }
  }

  /** An even-length string cuts into two-character chunks only. */
  lemma {:induction false} ChunksOfEven(s: string)
    requires |s| % 2 == 0
    ensures |Chunks(s, 2)| == |s| / 2
    ensures forall k :: 0 <= k < |Chunks(s, 2)| ==> |Chunks(s, 2)[k]| == 2
    decreases |s|
  {
    if |s| > 2 {
      ChunksOfEven(s[2..]);
    }
  }

  lemma {:induction false} ChunksAreHex(s: string, size: nat)
    requires size > 0 && IsHexString(s)
    ensures forall k :: 0 <= k < |Chunks(s, size)| ==> IsHexString(Chunks(s, size)[k])
    decreases |s|
  {
    if |s| > size {
      ChunksAreHex(s[size..], size);
    }
  }
}
