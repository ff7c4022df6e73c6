/** ConvertUTF16toUTF8 of libuzi/unicode.c. */
module Utf16ToUtf8 {
  import opened Transcode
  import opened Utf
  import opened Wrappers

  const REPLACEMENT_CHAR: bv32 := 0xFFFD

  /** The next code point; surrogates on their own pass only when lenient. */
  function Decode16(src: seq<bv16>, strict: bool): CodePoint {
    if src == [] then Cut
    else if IsHigh(src[0]) then
      if |src| == 1 then Cut
      else if IsLow(src[1]) then Char(1, PairValue(src[0], src[1]))
      else if strict then Bad
      else Char(0, src[0] as bv32)
    else if strict && IsLow(src[0]) then Bad
    else Char(0, src[0] as bv32)
  }

  lemma Decode16Range(src: seq<bv16>, strict: bool)
    ensures var c := Decode16(src, strict); c.Char? ==> c.v < 0x110000
  {
    if |src| > 1 && IsHigh(src[0]) && IsLow(src[1]) { PairArithmetic(src[0], src[1]); }
  }

  function Chunk16(src: seq<bv16>, strict: bool): Chunk<bv8> {
    match Decode16(src, strict)
    case Char(extra, v) => Decode16Range(src, strict); Piece(extra, Utf8(v))
    case Cut => Short
    case Bad => Illegal
  }

  function Next(strict: bool): seq<bv16> -> Chunk<bv8> {
    (src: seq<bv16>) => Chunk16(src, strict)
  }

  function FirstByteMark(bytes: nat): bv32 {
    match bytes
    case 2 => 0xC0
    case 3 => 0xE0
    case 4 => 0xF0
    case 5 => 0xF8
    case 6 => 0xFC
    case _ => 0
  }

  function Combined(ch: bv32, ch2: bv32): bv32 {
    ((ch - 0xD800) << 10) + (ch2 - 0xDC00) + 0x10000
  }

  lemma PairArithmetic(high: bv16, low: bv16)
    requires IsHigh(high) && IsLow(low)
    ensures Combined(high as bv32, low as bv32) == PairValue(high, low)
    ensures 0x10000 <= PairValue(high, low) < 0x110000
  {
  }

  lemma TailByte(c: bv32)
    ensures ((c | 0x80) & 0xBF) <= 0xFF && ((c | 0x80) & 0xBF) as bv8 == Tail(c)
  {
  }

  lemma FirstByte(v: bv32)
    ensures v < 0x80 ==> ((v | 0) & 0xFF) as bv8 == v as bv8
    ensures 0x80 <= v < 0x800 ==> (((v >> 6) | 0xC0) & 0xFF) as bv8 == 0xC0 | (v >> 6) as bv8
    ensures 0x800 <= v < 0x10000 ==> (((v >> 6 >> 6) | 0xE0) & 0xFF) as bv8 == 0xE0 | (v >> 12) as bv8
    ensures 0x10000 <= v < 0x110000 ==> (((v >> 6 >> 6 >> 6) | 0xF0) & 0xFF) as bv8 == 0xF0 | (v >> 18) as bv8
    ensures v >> 6 >> 6 == v >> 12
  {
  }

  function Utf8Length(v: bv32): nat
    requires v < 0x110000
  {
    if v < 0x80 then 1 else if v < 0x800 then 2 else if v < 0x10000 then 3 else 4
  }

  /** The value once k bytes have been split off. */
  function Shift(v: bv32, k: nat): bv32 {
    match k
    case 0 => v
    case 1 => v >> 6
    case 2 => v >> 6 >> 6
    case _ => v >> 6 >> 6 >> 6
  }

  lemma ShiftStep(v: bv32, k: nat)
    requires k < 3
    ensures Shift(v, k + 1) == Shift(v, k) >> 6
  {
    match k
    case 0 =>
    case 1 =>
    case _ =>
  }

  /** The last k bytes the switch writes for `v`. */
  function Tails(v: bv32, k: nat): (r: seq<bv8>)
    ensures |r| == k
  {
    if k == 0 then [] else [Tail(Shift(v, k - 1))] + Tails(v, k - 1)
  }

  function FirstOf(v: bv32, bytes: nat): bv8
    requires bytes > 0
  {
    ((Shift(v, bytes - 1) | FirstByteMark(bytes)) & 0xFF) as bv8
  }

  lemma Tails2(v: bv32)
    ensures Tails(v, 0) == [] && Tails(v, 1) == [Tail(v)] && Tails(v, 2) == [Tail(v >> 6), Tail(v)]
  {
  }

  lemma Tails3(v: bv32)
    ensures Tails(v, 3) == [Tail(v >> 6 >> 6), Tail(v >> 6), Tail(v)]
  {
    Tails2(v);
    assert Shift(v, 2) == v >> 6 >> 6;
    assert Tails(v, 3) == [Tail(v >> 6 >> 6)] + Tails(v, 2);
  }

  lemma ShortForms(v: bv32)
    requires v < 0x800
    ensures [FirstOf(v, Utf8Length(v))] + Tails(v, Utf8Length(v) - 1) == Utf8(v)
  {
    Tails2(v);
    FirstByte(v);
  }

  lemma ThreeForm(v: bv32)
    requires 0x800 <= v < 0x10000
    ensures [FirstOf(v, 3)] + Tails(v, 2) == Utf8(v)
  {
    Tails2(v);
    FirstByte(v);
  }

  lemma FourForm(v: bv32)
    requires 0x10000 <= v < 0x110000
    ensures [FirstOf(v, 4)] + Tails(v, 3) == Utf8(v)
  {
    Tails3(v);
    FirstByte(v);
  }

  /** The switch spells out the UTF-8 form. */
  lemma WrittenBytes(v: bv32)
    requires v < 0x110000
    ensures [FirstOf(v, Utf8Length(v))] + Tails(v, Utf8Length(v) - 1) == Utf8(v)
  {
    if v < 0x800 {
      ShortForms(v);
    } else if v < 0x10000 {
      ThreeForm(v);
    } else {
      FourForm(v);
    }
  }

  /** What the switch has written: `bytes` before `stop`, from `target` on; the rest is as it was in `d`. */
  ghost predicate Filled(now: seq<bv8>, d: seq<bv8>, target: int, bytes: seq<bv8>, stop: int) {
    0 <= target <= stop <= |d| && target + |bytes| == stop && now == d[..target] + bytes + d[stop..]
  }

  /** One case of the switch: a continuation byte goes before the k already written. */
  method WriteTail(dst: array<bv8>, end: nat, c: bv32, ghost d: seq<bv8>, ghost v: bv32, ghost k: nat, ghost stop: nat)
    returns (target: nat, ch: bv32)
    requires 0 < end && k < 3 && c == Shift(v, k)
    requires Filled(dst[..], d, end, Tails(v, k), stop)
    modifies dst
    ensures target == end - 1 && ch == Shift(v, k + 1)
    ensures Filled(dst[..], d, target, Tails(v, k + 1), stop)
  {
    TailByte(c);
    ShiftStep(v, k);
    target := end - 1;
    dst[target] := ((c | 0x80) & 0xBF) as bv8;
    ch := c >> 6;
  }

  /** The last case of the switch: the first byte, marked with the length. */
  method WriteFirst(dst: array<bv8>, end: nat, c: bv32, ghost d: seq<bv8>, ghost v: bv32, bytesToWrite: nat, ghost stop: nat)
    returns (target: nat)
    requires 0 < bytesToWrite && c == Shift(v, bytesToWrite - 1) && 0 < end
    requires Filled(dst[..], d, end, Tails(v, bytesToWrite - 1), stop)
    modifies dst
    ensures target == end - 1
    ensures Filled(dst[..], d, target, [FirstOf(v, bytesToWrite)] + Tails(v, bytesToWrite - 1), stop)
  {
    target := end - 1;
    dst[target] := ((c | FirstByteMark(bytesToWrite)) & 0xFF) as bv8;
  }

  /** The fall-through switch: the bytes of `v` written backwards from `end`. */
  method WriteBytes(dst: array<bv8>, end: nat, bytesToWrite: nat, v: bv32) returns (target: nat)
    requires v < 0x110000 && bytesToWrite == Utf8Length(v)
    requires bytesToWrite <= end <= dst.Length
    modifies dst
    ensures target == end - bytesToWrite
    ensures Filled(dst[..], old(dst[..]), target, Utf8(v), end)
  {
    target := end;
    var ch := v;
    ghost var d, k := dst[..], 0;
    if bytesToWrite >= 4 {
      target, ch := WriteTail(dst, target, ch, d, v, k, end);
      k := k + 1;
    }
    if bytesToWrite >= 3 {
      target, ch := WriteTail(dst, target, ch, d, v, k, end);
      k := k + 1;
    }
    if bytesToWrite >= 2 {
      target, ch := WriteTail(dst, target, ch, d, v, k, end);
      k := k + 1;
    }
    assert k == bytesToWrite - 1;
    target := WriteFirst(dst, target, ch, d, v, bytesToWrite, end);
    WrittenBytes(v);
  }

  /** The arithmetic on a surrogate pair. */
  method CombinePair(high: bv16, low: bv16) returns (ch: bv32)
    requires IsHigh(high) && IsLow(low)
    ensures ch == PairValue(high, low) && 0x10000 <= ch < 0x110000
  {
    ch := Combined(high as bv32, low as bv32);
    PairArithmetic(high, low);
  }

  /** A unit that is no surrogate, or any but a high one when lenient, is its own code point. */
  lemma ReadsSingle(rest: seq<bv16>, strict: bool, start: nat, unit: bv16)
    requires rest != [] && rest[0] == unit && !IsHigh(unit) && !(strict && IsLow(unit))
    ensures ReadsOne(Decode16(rest, strict), start, unit as bv32, start + 1, ConversionOk)
  {
  }

  /** After a high surrogate at `start`. */
  method ReadPair(src: seq<bv16>, start: nat, sourceEnd: nat, strict: bool)
    returns (ch: bv32, source: nat, result: Result)
    requires start < sourceEnd <= |src| && IsHigh(src[start])
    ensures ReadsOne(Decode16(src[start..sourceEnd], strict), start, ch, source, result)
  {
    source := start + 1;
    ch := src[start] as bv32;
    result := ConversionOk;
    assert src[start..sourceEnd][0] == src[start];
    if source < sourceEnd {
      assert src[start..sourceEnd][1] == src[source];
      if IsLow(src[source]) {
        ch := CombinePair(src[start], src[source]);
        source := source + 1;
      } else if strict {
        source := source - 1;
        result := SourceIllegal;
      }
    } else {
      source := source - 1;
      result := SourceExhausted;
    }
  }

  /** The head of the loop: one code point is read, or the source is left where it was. */
  method ReadCodePoint(src: seq<bv16>, start: nat, sourceEnd: nat, strict: bool)
    returns (ch: bv32, source: nat, result: Result)
    requires start < sourceEnd <= |src|
    ensures ReadsOne(Decode16(src[start..sourceEnd], strict), start, ch, source, result)
  {
    source := start;
    var unit := src[source];
    ch := unit as bv32;
    source := source + 1;
    result := ConversionOk;
    assert src[start..sourceEnd][0] == unit;
    if IsHigh(unit) {
      ch, source, result := ReadPair(src, start, sourceEnd, strict);
    } else if strict && IsLow(unit) {
      source := source - 1;
      result := SourceIllegal;
    } else {
      ReadsSingle(src[start..sourceEnd], strict, start, unit);
    }
  }

  /** What is written for a code point: past the range of Unicode, the replacement character. */
  function Capped(ch: bv32): (c: bv32)
    ensures c < 0x110000
  {
    if ch < 0x110000 then ch else REPLACEMENT_CHAR
  }

  /** How many bytes the result will require, and of which code point. */
  method BytesToWrite(codePoint: bv32) returns (bytesToWrite: nat, ch: bv32)
    ensures ch == Capped(codePoint) && bytesToWrite == Utf8Length(ch)
  {
    ch := codePoint;
    if ch < 0x80 {
      bytesToWrite := 1;
    } else if ch < 0x800 {
      bytesToWrite := 2;
    } else if ch < 0x10000 {
      bytesToWrite := 3;
    } else if ch < 0x110000 {
      bytesToWrite := 4;
    } else {
      bytesToWrite := 3;
      ch := REPLACEMENT_CHAR;
    }
  }

  /**
    The tail of the loop: the bytes of `codePoint` are counted and, with a target, written before
    targetEnd or not at all.
   */
  method WriteCodePoint(codePoint: bv32, dst: array?<bv8>, start: nat, targetEnd: nat) returns (target: nat, result: Result)
    requires dst != null ==> start <= targetEnd <= dst.Length
    modifies if dst == null then {} else {dst}
    ensures dst == null ==> result.ConversionOk? && target == start + Utf8Length(Capped(codePoint))
    ensures dst != null && start + Utf8Length(Capped(codePoint)) > targetEnd ==>
              result.TargetExhausted? && target == start && dst[..] == old(dst[..])
    ensures dst != null && start + Utf8Length(Capped(codePoint)) <= targetEnd ==>
              && result.ConversionOk? && target == start + Utf8Length(Capped(codePoint))
              && Written(old(dst[..]), dst[..], start, Utf8(Capped(codePoint)))
  {
    var computeLength := dst == null;
    target, result := start, ConversionOk;
    var bytesToWrite, ch := BytesToWrite(codePoint);
    target := target + bytesToWrite;
    if !computeLength && target > targetEnd {
      target := target - bytesToWrite;
      result := TargetExhausted;
      return;
    }
    if !computeLength {
      target := WriteBytes(dst, target, bytesToWrite, ch);
    } else {
      target := target - bytesToWrite;
    }
    target := target + bytesToWrite;
  }

  lemma Utf8LengthIs(v: bv32)
    requires v < 0x110000
    ensures |Utf8(v)| == Utf8Length(v)
  {
  }

  lemma ReadIsChunk(rest: seq<bv16>, strict: bool, start: int, ch: bv32, source: int)
    requires ReadsOne(Decode16(rest, strict), start, ch, source, ConversionOk)
    ensures ch < 0x110000 && |Utf8(ch)| == Utf8Length(ch)
    ensures source > start && Next(strict)(rest) == Piece(source - start - 1, Utf8(ch))
  {
    Decode16Range(rest, strict);
    Utf8LengthIs(ch);
  }

  lemma ReadStops(rest: seq<bv16>, strict: bool, start: int, ch: bv32, source: int, result: Result, room: Option<int>)
    requires rest != [] && ReadsOne(Decode16(rest, strict), start, ch, source, result) && !result.ConversionOk?
    ensures source == start && Stops(Next(strict), rest, room, result)
  {
  }

  /** One pass through the loop body. On success `piece` is what the pass wrote, or counted. */
  method ConvertOne(src: seq<bv16>, start: nat, sourceEnd: nat, dst: array?<bv8>, from: nat, targetEnd: nat, strict: bool)
    returns (source: nat, target: nat, result: Result, ghost piece: seq<bv8>)
    requires start < sourceEnd <= |src|
    requires dst != null ==> from <= targetEnd <= dst.Length
    modifies if dst == null then {} else {dst}
    ensures result.ConversionOk? ==>
              && start < source <= sourceEnd && target == from + |piece|
              && Next(strict)(src[start..sourceEnd]) == Piece(source - start - 1, piece)
              && Fits(piece, Room(dst, from, targetEnd))
    ensures !result.ConversionOk? ==>
              && source == start && target == from && piece == []
              && Stops(Next(strict), src[start..sourceEnd], Room(dst, from, targetEnd), result)
    ensures dst != null ==> target <= targetEnd && Written(old(dst[..]), dst[..], from, piece)
  {
    ghost var rest := src[start..sourceEnd];
    var oldSource := start;
    var ch;
    target, piece := from, [];
    ch, source, result := ReadCodePoint(src, start, sourceEnd, strict);
    if !result.ConversionOk? {
      ReadStops(rest, strict, start, ch, source, result, Room(dst, from, targetEnd));
      return;
    }
    ReadIsChunk(rest, strict, start, ch, source);
    piece := Utf8(ch);
    target, result := WriteCodePoint(ch, dst, target, targetEnd);
    if !result.ConversionOk? {
      source, piece := oldSource, [];
    }
  }

  /** ConvertOne, with the marks kept of what has been read and written since the loop began. */
  method Pass(src: seq<bv16>, start: nat, sourceEnd: nat, dst: array?<bv8>, from: nat, targetEnd: nat, strict: bool,
              ghost before: seq<bv8>, ghost targetStart: nat, ghost out: seq<bv8>)
    returns (source: nat, target: nat, result: Result, ghost piece: seq<bv8>)
    requires start < sourceEnd <= |src| && from == targetStart + |out|
    requires dst != null ==> from <= targetEnd <= dst.Length && Written(before, dst[..], targetStart, out)
    modifies if dst == null then {} else {dst}
    ensures result.ConversionOk? ==>
              && start < source <= sourceEnd && target == from + |piece|
              && Next(strict)(src[start..sourceEnd]) == Piece(source - start - 1, piece)
              && Fits(piece, Room(dst, from, targetEnd))
    ensures !result.ConversionOk? ==>
              && source == start && target == from && piece == []
              && Stops(Next(strict), src[start..sourceEnd], Room(dst, from, targetEnd), result)
    ensures dst != null ==> target <= targetEnd && Written(before, dst[..], targetStart, out + piece)
  {
    source, target, result, piece := ConvertOne(src, start, sourceEnd, dst, from, targetEnd, strict);
    if dst != null {
      WrittenMore(before, old(dst[..]), targetStart, out, dst[..], piece);
    }
  }

  /**
    ConvertUTF16toUTF8: src[sourceStart..sourceEnd] goes to dst[targetStart..targetEnd], or is only
    counted when there is no dst. Returns where source and target were left.
   */
  method ConvertUTF16toUTF8(src: seq<bv16>, sourceStart: nat, sourceEnd: nat,
                            dst: array?<bv8>, targetStart: nat, targetEnd: nat, strict: bool)
    returns (source: nat, target: nat, result: Result)
    requires sourceStart <= sourceEnd <= |src|
    requires dst != null ==> targetStart <= targetEnd <= dst.Length
    modifies if dst == null then {} else {dst}
    ensures var r := Convert(Next(strict), src[sourceStart..sourceEnd], Room(dst, targetStart, targetEnd));
            && source == sourceStart + r.consumed && target == targetStart + |r.out| && result == r.result
            && (dst != null ==> target <= targetEnd && Written(old(dst[..]), dst[..], targetStart, r.out))
  {
    source, target, result := sourceStart, targetStart, ConversionOk;
    ghost var before := if dst == null then [] else dst[..];
    ghost var whole, room := src[sourceStart..sourceEnd], Room(dst, targetStart, targetEnd);
    ghost var mark := Mark(0, []);
    ghost var marks: seq<Mark<bv8>> := [mark];
    PathStarts(Next(strict), whole, room);
    if dst != null { WrittenNothing(before, targetStart); }
    while source < sourceEnd && result.ConversionOk?
      invariant source == sourceStart + mark.k <= sourceEnd && target == targetStart + |mark.out|
      invariant Path(Next(strict), whole, room, marks) && marks != [] && mark == marks[|marks| - 1]
      invariant !result.ConversionOk? ==> Stops(Next(strict), whole[mark.k..], Less(room, |mark.out|), result)
      invariant dst != null ==> target <= targetEnd && Written(before, dst[..], targetStart, mark.out)
      decreases sourceEnd - source, result.ConversionOk?
    {
      assert whole[mark.k..] == src[source..sourceEnd];
      ghost var piece;
      source, target, result, piece := Pass(src, source, sourceEnd, dst, target, targetEnd, strict, before, targetStart, mark.out);
      if result.ConversionOk? {
        marks := PathGrows(Next(strict), whole, room, marks, mark, source - sourceStart, piece);
        mark := Mark(source - sourceStart, mark.out + piece);
      } else {
        assert mark.out + piece == mark.out;
      }
    }
    if source == sourceEnd && result.ConversionOk? { AtEnd(Next(strict), Less(room, |mark.out|)); }
    PathEnds(Next(strict), whole, room, marks, result);
  }
}
