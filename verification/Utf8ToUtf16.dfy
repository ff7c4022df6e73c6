/** isLegalUTF8, ConvertUTF8toUTF16 and the decoding tables of libuzi/unicode.c. */
module Utf8ToUtf16 {
  import opened Transcode
  import opened Utf
  import opened Wrappers

  /** The table of trailing bytes, by first byte. */
  function TrailingBytes(b: bv8): nat {
    if b < 0xC0 then 0
    else if b < 0xE0 then 1
    else if b < 0xF0 then 2
    else if b < 0xF8 then 3
    else if b < 0xFC then 4
    else 5
  }

  /** Leads 0xED and 0xF4 have no lower bound on their second byte. */
  predicate LooseSecond(s: seq<bv8>) {
    match |s|
    case 3 => s[0] == 0xED && s[1] < 0x80 && IsTail(s[2])
    case 4 => s[0] == 0xF4 && s[1] < 0x80 && IsTail(s[2]) && IsTail(s[3])
    case _ => false
  }

  /** What isLegalUTF8 lets through at the length its first byte calls for. */
  predicate Accepted(s: seq<bv8>) { IsUtf8Char(s) || LooseSecond(s) }

  function OffsetsFromUTF8(extra: nat): bv32 {
    match extra
    case 0 => 0
    case 1 => 0x3080
    case 2 => 0xE2080
    case 3 => 0x3C82080
    case 4 => 0xFA082080
    case _ => 0x82082080
  }

  /** One case of the fall-through switch. */
  function Shifted(ch: bv32, b: bv8): bv32 { (ch + b as bv32) << 6 }

  /** The last case of the switch and the subtraction of the table's offset. */
  function LastByte(ch: bv32, b: bv8, extra: nat): bv32 { ch + b as bv32 - OffsetsFromUTF8(extra) }

  /** What the switch has in `ch` after taking in the first n bytes. */
  function Pending(s: seq<bv8>, n: nat): bv32
    requires n <= |s|
  {
    if n == 0 then 0 else Shifted(Pending(s, n - 1), s[n - 1])
  }

  /** The value the converter computes for a whole sequence. */
  function OffsetValue(s: seq<bv8>): bv32
    requires s != []
  {
    LastByte(Pending(s, |s| - 1), s[|s| - 1], |s| - 1)
  }

  /** The same by length. */
  function Offset2(a: bv8, b: bv8): bv32 { LastByte(Shifted(0, a), b, 1) }
  function Offset3(a: bv8, b: bv8, c: bv8): bv32 { LastByte(Shifted(Shifted(0, a), b), c, 2) }
  function Offset4(a: bv8, b: bv8, c: bv8, d: bv8): bv32 {
    LastByte(Shifted(Shifted(Shifted(0, a), b), c), d, 3)
  }

  lemma PendingUpTo3(s: seq<bv8>)
    ensures |s| >= 1 ==> Pending(s, 1) == Shifted(0, s[0])
    ensures |s| >= 2 ==> Pending(s, 2) == Shifted(Shifted(0, s[0]), s[1])
    ensures |s| >= 3 ==> Pending(s, 3) == Shifted(Shifted(Shifted(0, s[0]), s[1]), s[2])
  {
    assert Pending(s, 0) == 0;
    if |s| >= 1 { assert Pending(s, 1) == Shifted(Pending(s, 0), s[0]); }
    if |s| >= 2 { assert Pending(s, 2) == Shifted(Pending(s, 1), s[1]); }
    if |s| >= 3 { assert Pending(s, 3) == Shifted(Pending(s, 2), s[2]); }
  }

  lemma OneSwitch(s: seq<bv8>)
    requires |s| == 1
    ensures OffsetValue(s) == s[0] as bv32
  {
  }

  lemma TwoSwitch(s: seq<bv8>)
    requires |s| == 2
    ensures OffsetValue(s) == Offset2(s[0], s[1])
  {
    PendingUpTo3(s);
  }

  lemma ThreeSwitch(s: seq<bv8>)
    requires |s| == 3
    ensures OffsetValue(s) == Offset3(s[0], s[1], s[2])
  {
    PendingUpTo3(s);
  }

  lemma FourSwitch(s: seq<bv8>)
    requires |s| == 4
    ensures OffsetValue(s) == Offset4(s[0], s[1], s[2], s[3])
  {
    PendingUpTo3(s);
  }

  lemma Offset2IsValue(a: bv8, b: bv8)
    requires 0xC2 <= a <= 0xDF && IsTail(b)
    ensures Offset2(a, b) == Value2(a, b)
  {
  }

  lemma Offset3IsValue(a: bv8, b: bv8, c: bv8)
    requires WellFormed3(a, b) && IsTail(c)
    ensures Offset3(a, b, c) == Value3(a, b, c)
  {
  }

  lemma Offset4IsValue(a: bv8, b: bv8, c: bv8, d: bv8)
    requires WellFormed4(a, b) && IsTail(c) && IsTail(d)
    ensures Offset4(a, b, c, d) == Value4(a, b, c, d)
  {
  }

  lemma LooseRange3(b: bv8, c: bv8)
    requires b < 0x80 && IsTail(c)
    ensures 0xB000 <= Offset3(0xED, b, c) < 0xD000
  {
  }

  lemma LooseRange4(b: bv8, c: bv8, d: bv8)
    requires b < 0x80 && IsTail(c) && IsTail(d)
    ensures 0x80000 <= Offset4(0xF4, b, c, d) < 0x100000
  {
  }

  /** Subtracting the table's offset gives the standard character number. */
  lemma OffsetsAreStandard(s: seq<bv8>)
    requires IsUtf8Char(s)
    ensures OffsetValue(s) == Utf8Value(s)
  {
    match |s|
    case 1 => OneSwitch(s);
    case 2 => TwoSwitch(s); Offset2IsValue(s[0], s[1]);
    case 3 => ThreeSwitch(s); Offset3IsValue(s[0], s[1], s[2]);
    case _ => FourSwitch(s); Offset4IsValue(s[0], s[1], s[2], s[3]);
  }

  /** Whatever is accepted, loose second bytes included, decodes to a scalar value. */
  lemma AcceptedIsScalar(s: seq<bv8>)
    requires Accepted(s)
    ensures IsScalar(OffsetValue(s))
  {
    if IsUtf8Char(s) {
      OffsetsAreStandard(s);
      Utf8Unique(s);
    } else if |s| == 3 {
      ThreeSwitch(s);
      LooseRange3(s[1], s[2]);
    } else {
      FourSwitch(s);
      LooseRange4(s[1], s[2], s[3]);
    }
  }

  /** A well-formed sequence has the length its first byte calls for. */
  lemma LeadGivesLength(s: seq<bv8>)
    requires Accepted(s)
    ensures |s| == TrailingBytes(s[0]) + 1
  {
  }

  /** isLegalUTF8, called with the length its first byte calls for. */
  method IsLegalUTF8(src: seq<bv8>, source: nat, length: nat) returns (legal: bool)
    requires source < |src| && length == TrailingBytes(src[source]) + 1 && source + length <= |src|
    ensures legal <==> Accepted(src[source..source + length])
  {
    ghost var s := src[source..source + length];
    if length > 4 {
      return false;
    }
    var lead := src[source];
    assert lead == s[0];
    var srcptr := source + length;
    var a: bv8;
    if length >= 4 {
      srcptr := srcptr - 1;
      a := src[srcptr];
      assert a == s[3];
      if a < 0x80 || a > 0xBF { return false; }
    }
    if length >= 3 {
      srcptr := srcptr - 1;
      a := src[srcptr];
      assert a == s[2];
      if a < 0x80 || a > 0xBF { return false; }
    }
    if length >= 2 {
      srcptr := srcptr - 1;
      a := src[srcptr];
      assert a == s[1];
      if a > 0xBF { return false; }
      if lead == 0xE0 {
        if a < 0xA0 { return false; }
      } else if lead == 0xED {
        if a > 0x9F { return false; }
      } else if lead == 0xF0 {
        if a < 0x90 { return false; }
      } else if lead == 0xF4 {
        if a > 0x8F { return false; }
      } else {
        if a < 0x80 { return false; }
      }
    }
    if 0x80 <= lead < 0xC2 { return false; }
    if lead > 0xF4 { return false; }
    return true;
  }

  /** isLegalUTF8Sequence: the sequence at the start of a buffer. */
  method IsLegalUTF8Sequence(src: seq<bv8>) returns (legal: bool)
    requires src != []
    ensures legal <==> exists n | 1 <= n <= |src| :: Accepted(src[..n])
  {
    var length := TrailingBytes(src[0]) + 1;
    if length > |src| {
      legal := false;
    } else {
      legal := IsLegalUTF8(src, 0, length);
      assert src[0..length] == src[..length];
    }
    forall n | 1 <= n <= |src| && Accepted(src[..n]) ensures n == length {
      LeadGivesLength(src[..n]);
    }
  }

  /** The next code point: the table decides the length before anything else is looked at. */
  function Decode8(src: seq<bv8>): CodePoint {
    if src == [] then Cut
    else
      var extra := TrailingBytes(src[0]);
      if extra >= |src| then Cut
      else if !Accepted(src[..extra + 1]) then Bad
      else Char(extra, OffsetValue(src[..extra + 1]))
  }

  const REPLACEMENT: bv16 := 0xFFFD

  /** The units for a code point: none in strict mode, and the replacement character in lenient mode, for what is no scalar value. */
  function Units(v: bv32, strict: bool): Option<seq<bv16>> {
    if 0xD800 <= v <= 0xDFFF || v > 0x10FFFF then
      if strict then None else Some([REPLACEMENT])
    else Some(Utf16(v))
  }

  /** What the converter makes of the next code point, flag-dependent branches included. */
  function Chunk8(src: seq<bv8>, strict: bool): Chunk<bv16> {
    match Decode8(src)
    case Cut => Short
    case Bad => Illegal
    case Char(extra, v) =>
      var units := Units(v, strict);
      if units == None then Illegal else Piece(extra, units.value)
  }

  function Next(strict: bool): seq<bv8> -> Chunk<bv16> {
    (src: seq<bv8>) => Chunk8(src, strict)
  }

  lemma Decode8Scalar(src: seq<bv8>)
    ensures var c := Decode8(src); c.Char? ==> IsScalar(c.v)
  {
    if Decode8(src).Char? { AcceptedIsScalar(src[..TrailingBytes(src[0]) + 1]); }
  }

  lemma ChunkOfScalar(src: seq<bv8>, strict: bool)
    ensures var c := Decode8(src); c.Char? ==> IsScalar(c.v) && c.v < 0x110000 && Chunk8(src, strict) == Piece(c.extra, Utf16(c.v))
  {
    Decode8Scalar(src);
  }

  /** Neither flag-dependent branch is ever taken: the strict and the lenient conversion are the same. */
  lemma FlagIsIrrelevant(src: seq<bv8>, room: Option<int>)
    ensures Convert(Next(true), src, room) == Convert(Next(false), src, room)
  {
    forall s: seq<bv8> | s != [] ensures Next(true)(s) == Next(false)(s) {
      ChunkOfScalar(s, true);
      ChunkOfScalar(s, false);
    }
    SameChunksConvertAlike(Next(true), Next(false), src, room);
  }

  // ---- the loop body ----

  /** One case of the switch, on the n-th byte of the sequence `s` at `start`. */
  method TakeByte(src: seq<bv8>, source: nat, ch: bv32, ghost s: seq<bv8>, ghost n: nat) returns (ch': bv32, source': nat)
    requires source < |src| && n < |s| && s[n] == src[source] && ch == Pending(s, n)
    ensures source' == source + 1 && ch' == Pending(s, n + 1)
  {
    ch' := Shifted(ch, src[source]);
    source' := source + 1;
  }

  /** The last case, and the subtraction. */
  method TakeLast(src: seq<bv8>, source: nat, ch: bv32, extra: nat, ghost s: seq<bv8>) returns (ch': bv32, source': nat)
    requires source < |src| && |s| == extra + 1 && s[extra] == src[source] && ch == Pending(s, extra)
    ensures source' == source + 1 && ch' == OffsetValue(s)
  {
    ch' := LastByte(ch, src[source], extra);
    source' := source + 1;
  }

  /** The fall-through switch and the subtraction. isLegalUTF8 has refused five and six bytes before. */
  method ReadBytes(src: seq<bv8>, start: nat, extra: nat) returns (ch: bv32, source: nat)
    requires extra <= 5 && start + extra < |src|
    ensures source == start + extra + 1
    ensures ch == OffsetValue(src[start..source])
  {
    ghost var s := src[start..start + extra + 1];
    source, ch := start, 0;
    if extra >= 5 { ch, source := TakeByte(src, source, ch, s, source - start); }
    if extra >= 4 { ch, source := TakeByte(src, source, ch, s, source - start); }
    if extra >= 3 { ch, source := TakeByte(src, source, ch, s, source - start); }
    if extra >= 2 { ch, source := TakeByte(src, source, ch, s, source - start); }
    if extra >= 1 { ch, source := TakeByte(src, source, ch, s, source - start); }
    ch, source := TakeLast(src, source, ch, extra, s);
  }

  function Utf16Length(v: bv32): nat { if v < 0x10000 then 1 else 2 }

  lemma Utf16Forms(v: bv32)
    requires v < 0x110000
    ensures |Utf16(v)| == Utf16Length(v)
    ensures v < 0x10000 ==> Utf16(v) == [v as bv16]
  {
  }

  /** The shift, mask and additions make the surrogate pair of RFC 2781. */
  lemma PairUnits(v: bv32)
    requires 0x10000 <= v < 0x110000
    ensures ((v - 0x10000) >> 10) + 0xD800 <= 0xFFFF && ((v - 0x10000) & 0x3FF) + 0xDC00 <= 0xFFFF
    ensures (((v - 0x10000) >> 10) + 0xD800) as bv16 == 0xD800 | ((v - 0x10000) >> 10) as bv16
    ensures (((v - 0x10000) & 0x3FF) + 0xDC00) as bv16 == 0xDC00 | ((v - 0x10000) & 0x3FF) as bv16
  {
  }

  /** The two stores of a supplementary code point. */
  method StorePair(ch: bv32, dst: array<bv16>, start: nat)
    requires 0x10000 <= ch < 0x110000 && start + 2 <= dst.Length
    modifies dst
    ensures dst[..] == old(dst[..start]) + Utf16(ch) + old(dst[start + 2..])
  {
    PairUnits(ch);
    var high := (((ch - 0x10000) >> 10) + 0xD800) as bv16;
    var low := (((ch - 0x10000) & 0x3FF) + 0xDC00) as bv16;
    assert Utf16(ch) == [high, low];
    dst[start] := high;
    dst[start + 1] := low;
  }

  lemma UnitsOfScalar(v: bv32, strict: bool)
    requires IsScalar(v)
    ensures v < 0x110000 && Units(v, strict) == Some(Utf16(v))
  {
  }

  /**
    The tail of the loop: the units for `ch` are counted and, with a target, written before targetEnd
    or not at all. A full target is noticed before anything else.
   */
  method WriteCodePoint(ch: bv32, dst: array?<bv16>, start: nat, targetEnd: nat, strict: bool) returns (target: nat, result: Result)
    requires dst != null ==> start <= targetEnd <= dst.Length
    modifies if dst == null then {} else {dst}
    ensures dst != null && start >= targetEnd ==> result.TargetExhausted?
    ensures (dst == null || start < targetEnd) && Units(ch, strict).None? ==> result.SourceIllegal?
    ensures (dst == null || start < targetEnd) && Units(ch, strict).Some? ==>
              var units := Units(ch, strict).value;
              if dst == null || start + |units| <= targetEnd
              then
                && result.ConversionOk? && target == start + |units|
                && (dst != null ==> Written(old(dst[..]), dst[..], start, units))
              else result.TargetExhausted?
    ensures !result.ConversionOk? ==> target == start && (dst != null ==> dst[..] == old(dst[..]))
  {
    var computeLength := dst == null;
    target, result := start, ConversionOk;
    if target >= targetEnd && !computeLength {
      result := TargetExhausted;
      return;
    }
    if ch <= 0xFFFF {
      if 0xD800 <= ch <= 0xDFFF {
        if strict {
          result := SourceIllegal;
          return;
        } else {
          if !computeLength {
            dst[target] := REPLACEMENT;
          }
          target := target + 1;
        }
      } else {
        Utf16Forms(ch);
        if !computeLength {
          dst[target] := ch as bv16;
        }
        target := target + 1;
      }
    } else if ch > 0x10FFFF {
      if strict {
        result := SourceIllegal;
        return;
      } else {
        if !computeLength {
          dst[target] := REPLACEMENT;
        }
        target := target + 1;
      }
    } else {
      Utf16Forms(ch);
      if target + 1 >= targetEnd && !computeLength {
        result := TargetExhausted;
        return;
      }
      if !computeLength {
        StorePair(ch, dst, target);
      }
      target := target + 2;
    }
  }

  /** The head of the loop: one code point is read, or the source is left where it was. */
  method ReadCodePoint(src: seq<bv8>, start: nat, sourceEnd: nat) returns (ch: bv32, source: nat, result: Result)
    requires start < sourceEnd <= |src|
    ensures ReadsOne(Decode8(src[start..sourceEnd]), start, ch, source, result)
  {
    ghost var rest := src[start..sourceEnd];
    assert rest[0] == src[start];
    source, ch, result := start, 0, ConversionOk;
    var extraBytesToRead := TrailingBytes(src[start]);
    if source + extraBytesToRead >= sourceEnd {
      result := SourceExhausted;
      return;
    }
    var legal := IsLegalUTF8(src, source, extraBytesToRead + 1);
    assert rest[..extraBytesToRead + 1] == src[start..start + (extraBytesToRead + 1)];
    if !legal {
      result := SourceIllegal;
      return;
    }
    ch, source := ReadBytes(src, start, extraBytesToRead);
  }

  lemma ReadIsChunk(rest: seq<bv8>, strict: bool, start: int, ch: bv32, source: int)
    requires ReadsOne(Decode8(rest), start, ch, source, ConversionOk)
    ensures IsScalar(ch) && ch < 0x110000 && |Utf16(ch)| == Utf16Length(ch)
    ensures source > start && Next(strict)(rest) == Piece(source - start - 1, Utf16(ch))
  {
    ChunkOfScalar(rest, strict);
    Utf16Forms(ch);
  }

  lemma ReadStops(rest: seq<bv8>, strict: bool, start: int, ch: bv32, source: int, result: Result, room: Option<int>)
    requires rest != [] && ReadsOne(Decode8(rest), start, ch, source, result) && !result.ConversionOk?
    ensures source == start && Stops(Next(strict), rest, room, result)
  {
  }

  /** One pass through the loop body. On success `piece` is what the pass wrote, or counted. */
  method ConvertOne(src: seq<bv8>, start: nat, sourceEnd: nat, dst: array?<bv16>, from: nat, targetEnd: nat, strict: bool)
    returns (source: nat, target: nat, result: Result, ghost piece: seq<bv16>)
    requires start < sourceEnd <= |src|
    requires dst != null ==> from <= targetEnd <= dst.Length
    modifies if dst == null then {} else {dst}
    ensures result.ConversionOk? ==>
              && start < source <= sourceEnd && target == from + |piece|
              && Next(strict)(src[start..sourceEnd]) == Piece(source - start - 1, piece)
              && Fits(piece, Room(dst, from, targetEnd))
    ensures !result.ConversionOk? ==>
              && source == start && target == from && piece == []
              && Stops(Next(strict), src[start..sourceEnd], Room(dst, from, targetEnd), result)
    ensures dst != null ==> target <= targetEnd && Written(old(dst[..]), dst[..], from, piece)
  {
    ghost var rest := src[start..sourceEnd];
    var oldSource := start;
    var ch;
    target, piece := from, [];
    ch, source, result := ReadCodePoint(src, start, sourceEnd);
    if !result.ConversionOk? {
      ReadStops(rest, strict, start, ch, source, result, Room(dst, from, targetEnd));
      return;
    }
    ReadIsChunk(rest, strict, start, ch, source);
    UnitsOfScalar(ch, strict);
    piece := Utf16(ch);
    target, result := WriteCodePoint(ch, dst, target, targetEnd, strict);
    if !result.ConversionOk? {
      source, piece := oldSource, [];
    }
  }

  /** ConvertOne, with the marks kept of what has been read and written since the loop began. */
  method Pass(src: seq<bv8>, start: nat, sourceEnd: nat, dst: array?<bv16>, from: nat, targetEnd: nat, strict: bool,
              ghost before: seq<bv16>, ghost targetStart: nat, ghost out: seq<bv16>)
    returns (source: nat, target: nat, result: Result, ghost piece: seq<bv16>)
    requires start < sourceEnd <= |src| && from == targetStart + |out|
    requires dst != null ==> from <= targetEnd <= dst.Length && Written(before, dst[..], targetStart, out)
    modifies if dst == null then {} else {dst}
    ensures result.ConversionOk? ==>
              && start < source <= sourceEnd && target == from + |piece|
              && Next(strict)(src[start..sourceEnd]) == Piece(source - start - 1, piece)
              && Fits(piece, Room(dst, from, targetEnd))
    ensures !result.ConversionOk? ==>
              && source == start && target == from && piece == []
              && Stops(Next(strict), src[start..sourceEnd], Room(dst, from, targetEnd), result)
    ensures dst != null ==> target <= targetEnd && Written(before, dst[..], targetStart, out + piece)
  {
    source, target, result, piece := ConvertOne(src, start, sourceEnd, dst, from, targetEnd, strict);
    if dst != null {
      WrittenMore(before, old(dst[..]), targetStart, out, dst[..], piece);
    }
  }

  /**
    ConvertUTF8toUTF16: src[sourceStart..sourceEnd] goes to dst[targetStart..targetEnd], or is only
    counted when there is no dst. Returns where source and target were left.
   */
  method ConvertUTF8toUTF16(src: seq<bv8>, sourceStart: nat, sourceEnd: nat,
                            dst: array?<bv16>, targetStart: nat, targetEnd: nat, strict: bool)
    returns (source: nat, target: nat, result: Result)
    requires sourceStart <= sourceEnd <= |src|
    requires dst != null ==> targetStart <= targetEnd <= dst.Length
    modifies if dst == null then {} else {dst}
    ensures var r := Convert(Next(strict), src[sourceStart..sourceEnd], Room(dst, targetStart, targetEnd));
            && source == sourceStart + r.consumed && target == targetStart + |r.out| && result == r.result
            && (dst != null ==> target <= targetEnd && Written(old(dst[..]), dst[..], targetStart, r.out))
  {
    source, target, result := sourceStart, targetStart, ConversionOk;
    ghost var before := if dst == null then [] else dst[..];
    ghost var whole, room := src[sourceStart..sourceEnd], Room(dst, targetStart, targetEnd);
    ghost var mark := Mark(0, []);
    ghost var marks: seq<Mark<bv16>> := [mark];
    PathStarts(Next(strict), whole, room);
    if dst != null { WrittenNothing(before, targetStart); }
    while source < sourceEnd && result.ConversionOk?
      invariant source == sourceStart + mark.k <= sourceEnd && target == targetStart + |mark.out|
      invariant Path(Next(strict), whole, room, marks) && marks != [] && mark == marks[|marks| - 1]
      invariant !result.ConversionOk? ==> Stops(Next(strict), whole[mark.k..], Less(room, |mark.out|), result)
      invariant dst != null ==> target <= targetEnd && Written(before, dst[..], targetStart, mark.out)
      decreases sourceEnd - source, result.ConversionOk?
    {
      assert whole[mark.k..] == src[source..sourceEnd];
      ghost var piece;
      source, target, result, piece := Pass(src, source, sourceEnd, dst, target, targetEnd, strict, before, targetStart, mark.out);
      if result.ConversionOk? {
        marks := PathGrows(Next(strict), whole, room, marks, mark, source - sourceStart, piece);
        mark := Mark(source - sourceStart, mark.out + piece);
      } else {
        assert mark.out + piece == mark.out;
      }
    }
    if source == sourceEnd && result.ConversionOk? { AtEnd(Next(strict), Less(room, |mark.out|)); }
    PathEnds(Next(strict), whole, room, marks, result);
  }
}
