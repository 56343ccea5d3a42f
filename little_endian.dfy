/**
 * Little-endian integers in byte lists, as the sniffer protocol stores its
 * counters, lengths and timestamps.
 */
module LittleEndian {
  import opened Types

  /** 256 to the power n. */
  function Pow256(n: nat): (p: nat)
    ensures p > 0
  {
    if n == 0 then 1 else 256 * Pow256(n - 1)
  }

  /** The value of a little-endian byte list: byte i weighs 256^i. */
  function LittleEndianValue(s: seq<byte>): (v: nat)
    ensures v < Pow256(|s|)
  {
    if s == [] then 0 else s[0] + 256 * LittleEndianValue(s[1..])
  }

  /**
   * The `size` low-order bytes of `value`, least significant first.  For a
   * negative value this is its two's complement modulo 256^size, because the
   * division below rounds towards minus infinity for a positive divisor, as an
   * arithmetic right shift does.
   */
  function LittleEndianBytes(value: int, size: nat): (r: seq<byte>)
    ensures |r| == size
    decreases size
  {
    if size == 0 then [] else [value % 256] + LittleEndianBytes(value / 256, size - 1)
  }

  // ---------------------------------------------------------------------
  // Division facts
  // ---------------------------------------------------------------------

  lemma DivModUnique(v: int, d: int, q: int, r: int)
    requires d > 0 && v == d * q + r && 0 <= r < d
    ensures v / d == q && v % d == r
  {
    var q', r' := v / d, v % d;
    if q != q' {
      var k := q - q';
      assert d * q == d * q' + d * k;
      if k >= 1 {
        MulAtLeast(d, k);
      } else {
        MulAtLeast(d, -k);
      }
    }
  }

  lemma {:induction false} MulAtLeast(d: int, k: int)
    requires d > 0 && k >= 1
    ensures d * k >= d
    decreases k
  {
    if k > 1 {
      MulAtLeast(d, k - 1);
      assert d * k == d * (k - 1) + d;
    }
  }

  /** Dividing by b and then by c is dividing by b * c; likewise for the remainder. */
  lemma DivModNested(v: int, b: int, c: int)
    requires b > 0 && c > 0
    ensures (v / b) / c == v / (b * c)
    ensures v % (b * c) == v % b + b * ((v / b) % c)
  {
    var q1, r1 := v / b, v % b;
    var q2, r2 := q1 / c, q1 % c;
    var bc := b * c;
    MulSplit(b, c, q2, r2);
    MulBelow(b, c, r2);
    assert v == bc * q2 + (b * r2 + r1);
    DivModUnique(v, bc, q2, b * r2 + r1);
  }

  /** b * (c * q + r) == (b * c) * q + b * r. */
  lemma MulSplit(b: int, c: int, q: int, r: int)
    ensures b * (c * q + r) == (b * c) * q + b * r
  {
  }

  /** A digit below c, scaled by b, stays below b * c by at least b. */
  lemma MulBelow(b: int, c: int, r: int)
    requires b > 0 && 0 <= r < c
    ensures 0 <= b * r <= b * c - b
  {
    assert b * c - b == b * (c - 1);
  }

  // ---------------------------------------------------------------------
  // Properties
  // ---------------------------------------------------------------------

  /** Byte i of the encoding is the value shifted right by 8i bits, modulo 256. */
  lemma {:induction false} LittleEndianBytesDigit(value: int, size: nat, i: nat)
    requires i < size
    ensures LittleEndianBytes(value, size)[i] == (value / Pow256(i)) % 256
    decreases i
  {
    if i > 0 {
      LittleEndianBytesDigit(value / 256, size - 1, i - 1);
      DivModNested(value, 256, Pow256(i - 1));
    }
  }

  /** Decoding an encoding gives the value back modulo 256^size. */
  lemma {:induction false} LittleEndianRoundTrip(value: int, size: nat)
    ensures LittleEndianValue(LittleEndianBytes(value, size)) == value % Pow256(size)
    decreases size
  {
    if size > 0 {
      var r := LittleEndianBytes(value, size);
      assert r[1..] == LittleEndianBytes(value / 256, size - 1);
      LittleEndianRoundTrip(value / 256, size - 1);
      DivModNested(value, 256, Pow256(size - 1));
    }
  }

  /** A negative value is stored as its two's complement. */
  lemma LittleEndianNegative(value: int, size: nat)
    requires 0 <= value + Pow256(size) && value < 0
    ensures LittleEndianValue(LittleEndianBytes(value, size)) == value + Pow256(size)
  {
    LittleEndianRoundTrip(value, size);
    DivModUnique(value, Pow256(size), -1, value + Pow256(size));
  }

  /** Encoding the value of a byte list at its own width gives the list back. */
  lemma {:induction false} LittleEndianBytesOfValue(s: seq<byte>)
    ensures LittleEndianBytes(LittleEndianValue(s), |s|) == s
  {
    if s != [] {
      var v := LittleEndianValue(s);
      DivModUnique(v, 256, LittleEndianValue(s[1..]), s[0]);
      LittleEndianBytesOfValue(s[1..]);
    }
  }

  /** Appending a byte adds it at the next weight. */
  lemma {:induction false} LittleEndianValueAppend(s: seq<byte>, b: byte)
    ensures LittleEndianValue(s + [b]) == LittleEndianValue(s) + b * Pow256(|s|)
  {
    if s != [] {
      assert (s + [b])[1..] == s[1..] + [b];
      LittleEndianValueAppend(s[1..], b);
      assert 256 * (b * Pow256(|s| - 1)) == b * Pow256(|s|);
    }
  }

  // ---------------------------------------------------------------------
  // The byte-list helpers as the packet code runs them
  // ---------------------------------------------------------------------

  /** Sums byte i shifted left by 8i bits over the list. */
  method ParseLittleEndian(list: seq<byte>) returns (total: nat)
    ensures total == LittleEndianValue(list)
  {
    total := 0;
    for i := 0 to |list|
      invariant total == LittleEndianValue(list[..i])
    {
      assert list[..i + 1] == list[..i] + [list[i]];
      LittleEndianValueAppend(list[..i], list[i]);
      total := total + list[i] * Pow256(i);
    }
    assert list[..|list|] == list;
  }

  /** Fills a list of `size` bytes with the value shifted right by 8i bits, modulo 256. */
  method ToLittleEndian(value: int, size: nat) returns (list: seq<byte>)
    ensures list == LittleEndianBytes(value, size)
  {
    list := seq(size, _ => 0);
    for i := 0 to size
      invariant |list| == size
      invariant forall k :: 0 <= k < i ==> list[k] == LittleEndianBytes(value, size)[k]
    {
      LittleEndianBytesDigit(value, size, i);
      list := list[i := (value / Pow256(i)) % 256];
    }
  }
}
