/**
  Reference definitions of UTF-8 (RFC 3629; table 3-7 of section 3.9 of the Unicode Standard) and
  UTF-16 (RFC 2781), independent of the converters in libuzi/unicode.c.
 */
module Utf {

  predicate IsScalar(v: bv32) { v < 0xD800 || 0xDFFF < v <= 0x10FFFF }

  predicate IsHigh(u: bv16) { 0xD800 <= u <= 0xDBFF }

  predicate IsLow(u: bv16) { 0xDC00 <= u <= 0xDFFF }

  predicate IsTail(b: bv8) { 0x80 <= b <= 0xBF }

  /** UTF8-char of section 4 of RFC 3629. */
  predicate IsUtf8Char(s: seq<bv8>) {
    match |s|
    case 1 => s[0] <= 0x7F
    case 2 => 0xC2 <= s[0] <= 0xDF && IsTail(s[1])
    case 3 => WellFormed3(s[0], s[1]) && IsTail(s[2])
    case 4 => WellFormed4(s[0], s[1]) && IsTail(s[2]) && IsTail(s[3])
    case _ => false
  }

  predicate WellFormed3(b0: bv8, b1: bv8) {
    || (b0 == 0xE0 && 0xA0 <= b1 <= 0xBF)
    || (0xE1 <= b0 <= 0xEC && IsTail(b1))
    || (b0 == 0xED && 0x80 <= b1 <= 0x9F)
    || (0xEE <= b0 <= 0xEF && IsTail(b1))
  }

  predicate WellFormed4(b0: bv8, b1: bv8) {
    || (b0 == 0xF0 && 0x90 <= b1 <= 0xBF)
    || (0xF1 <= b0 <= 0xF3 && IsTail(b1))
    || (b0 == 0xF4 && 0x80 <= b1 <= 0x8F)
  }

  /** The character number in the x bits of section 3 of RFC 3629. */
  function Value1(a: bv8): bv32 { a as bv32 }
  function Value2(a: bv8, b: bv8): bv32 { ((a & 0x1F) as bv32 << 6) | (b & 0x3F) as bv32 }
  function Value3(a: bv8, b: bv8, c: bv8): bv32 {
    ((a & 0x0F) as bv32 << 12) | ((b & 0x3F) as bv32 << 6) | (c & 0x3F) as bv32
  }
  function Value4(a: bv8, b: bv8, c: bv8, d: bv8): bv32 {
    ((a & 0x07) as bv32 << 18) | ((b & 0x3F) as bv32 << 12) | ((c & 0x3F) as bv32 << 6) | (d & 0x3F) as bv32
  }

  function Utf8Value(s: seq<bv8>): bv32
    requires 1 <= |s| <= 4
  {
    match |s|
    case 1 => Value1(s[0])
    case 2 => Value2(s[0], s[1])
    case 3 => Value3(s[0], s[1], s[2])
    case _ => Value4(s[0], s[1], s[2], s[3])
  }

  function Tail(v: bv32): bv8 { 0x80 | (v & 0x3F) as bv8 }

  /** Encoding by the table of section 3 of RFC 3629: the fewest octets that hold the number. */
  function Utf8(v: bv32): seq<bv8>
    requires v < 0x110000
  {
    if v < 0x80 then [v as bv8]
    else if v < 0x800 then [0xC0 | (v >> 6) as bv8, Tail(v)]
    else if v < 0x10000 then [0xE0 | (v >> 12) as bv8, Tail(v >> 6), Tail(v)]
    else [0xF0 | (v >> 18) as bv8, Tail(v >> 12), Tail(v >> 6), Tail(v)]
  }

  function PairValue(high: bv16, low: bv16): bv32 {
    (((high & 0x3FF) as bv32 << 10) | (low & 0x3FF) as bv32) + 0x10000
  }

  /** Encoding by section 2.1 of RFC 2781. */
  function Utf16(v: bv32): seq<bv16>
    requires v < 0x110000
  {
    if v < 0x10000 then [v as bv16]
    else [0xD800 | ((v - 0x10000) >> 10) as bv16, 0xDC00 | ((v - 0x10000) & 0x3FF) as bv16]
  }

  lemma Sound2(v: bv32)
    requires 0x80 <= v < 0x800
    ensures 0xC2 <= 0xC0 | (v >> 6) as bv8 <= 0xDF && IsTail(Tail(v))
    ensures Value2(0xC0 | (v >> 6) as bv8, Tail(v)) == v
  {
  }

  lemma Sound3(v: bv32)
    requires 0x800 <= v < 0x10000 && IsScalar(v)
    ensures WellFormed3(0xE0 | (v >> 12) as bv8, Tail(v >> 6)) && IsTail(Tail(v))
    ensures Value3(0xE0 | (v >> 12) as bv8, Tail(v >> 6), Tail(v)) == v
  {
  }

  lemma Sound4(v: bv32)
    requires 0x10000 <= v < 0x110000
    ensures WellFormed4(0xF0 | (v >> 18) as bv8, Tail(v >> 12)) && IsTail(Tail(v >> 6)) && IsTail(Tail(v))
    ensures Value4(0xF0 | (v >> 18) as bv8, Tail(v >> 12), Tail(v >> 6), Tail(v)) == v
  {
  }

  lemma Unique2(a: bv8, b: bv8)
    requires 0xC2 <= a <= 0xDF && IsTail(b)
    ensures var v := Value2(a, b); 0x80 <= v < 0x800 && 0xC0 | (v >> 6) as bv8 == a && Tail(v) == b
  {
  }

  lemma Unique3(a: bv8, b: bv8, c: bv8)
    requires WellFormed3(a, b) && IsTail(c)
    ensures var v := Value3(a, b, c);
            0x800 <= v < 0x10000 && IsScalar(v) && 0xE0 | (v >> 12) as bv8 == a && Tail(v >> 6) == b && Tail(v) == c
  {
  }

  lemma Unique4(a: bv8, b: bv8, c: bv8, d: bv8)
    requires WellFormed4(a, b) && IsTail(c) && IsTail(d)
    ensures var v := Value4(a, b, c, d);
            && 0x10000 <= v < 0x110000
            && 0xF0 | (v >> 18) as bv8 == a && Tail(v >> 12) == b && Tail(v >> 6) == c && Tail(v) == d
  {
  }

  /** A scalar value's UTF-8 form is well formed and holds exactly that value. */
  lemma Utf8Sound(v: bv32)
    requires IsScalar(v)
    ensures IsUtf8Char(Utf8(v)) && Utf8Value(Utf8(v)) == v
  {
    if v < 0x80 {
    } else if v < 0x800 {
      Sound2(v);
    } else if v < 0x10000 {
      Sound3(v);
    } else {
      Sound4(v);
    }
  }

  lemma Unique1(a: bv8)
    requires a <= 0x7F
    ensures Value1(a) < 0x80 && Value1(a) as bv8 == a
  {
  }

  lemma Encode3(a: bv8, b: bv8, c: bv8)
    requires WellFormed3(a, b) && IsTail(c)
    ensures IsScalar(Value3(a, b, c)) && Utf8(Value3(a, b, c)) == [a, b, c]
  {
    Unique3(a, b, c);
  }

  lemma FourBytes(v: bv32)
    requires 0x10000 <= v < 0x110000
    ensures IsScalar(v) && Utf8(v) == [0xF0 | (v >> 18) as bv8, Tail(v >> 12), Tail(v >> 6), Tail(v)]
  {
  }

  lemma Encode4(a: bv8, b: bv8, c: bv8, d: bv8)
    requires WellFormed4(a, b) && IsTail(c) && IsTail(d)
    ensures IsScalar(Value4(a, b, c, d)) && Utf8(Value4(a, b, c, d)) == [a, b, c, d]
  {
    Unique4(a, b, c, d);
    FourBytes(Value4(a, b, c, d));
  }

  lemma Encode2(a: bv8, b: bv8)
    requires 0xC2 <= a <= 0xDF && IsTail(b)
    ensures IsScalar(Value2(a, b)) && Utf8(Value2(a, b)) == [a, b]
  {
    Unique2(a, b);
  }

  /** The shortest form is unique: a well-formed sequence is the encoding of its own scalar value. */
  lemma Utf8Unique(s: seq<bv8>)
    requires IsUtf8Char(s)
    ensures IsScalar(Utf8Value(s)) && Utf8(Utf8Value(s)) == s
  {
    match |s|
    case 1 => Unique1(s[0]);
    case 2 => Encode2(s[0], s[1]);
    case 3 => Encode3(s[0], s[1], s[2]);
    case _ => Encode4(s[0], s[1], s[2], s[3]);
  }

  lemma PairBits(high: bv16, low: bv16)
    requires IsHigh(high) && IsLow(low)
    ensures var v := PairValue(high, low);
            && 0x10000 <= v < 0x110000
            && 0xD800 | ((v - 0x10000) >> 10) as bv16 == high
            && 0xDC00 | ((v - 0x10000) & 0x3FF) as bv16 == low
  {
  }

  lemma TwoUnits(v: bv32)
    requires 0x10000 <= v < 0x110000
    ensures Utf16(v) == [0xD800 | ((v - 0x10000) >> 10) as bv16, 0xDC00 | ((v - 0x10000) & 0x3FF) as bv16]
  {
  }

  /** A surrogate pair is the encoding of the value it holds. */
  lemma Utf16Unique(high: bv16, low: bv16)
    requires IsHigh(high) && IsLow(low)
    ensures 0x10000 <= PairValue(high, low) < 0x110000
    ensures Utf16(PairValue(high, low)) == [high, low]
  {
    PairBits(high, low);
    TwoUnits(PairValue(high, low));
  }

  lemma PairSound(v: bv32)
    requires 0x10000 <= v < 0x110000
    ensures var high, low := 0xD800 | ((v - 0x10000) >> 10) as bv16, 0xDC00 | ((v - 0x10000) & 0x3FF) as bv16;
            IsHigh(high) && IsLow(low) && PairValue(high, low) == v
  {
  }

  /** A supplementary value's UTF-16 form is a surrogate pair that holds it. */
  lemma Utf16Sound(v: bv32)
    requires 0x10000 <= v < 0x110000
    ensures |Utf16(v)| == 2 && IsHigh(Utf16(v)[0]) && IsLow(Utf16(v)[1]) && PairValue(Utf16(v)[0], Utf16(v)[1]) == v
  {
    PairSound(v);
  }
}
