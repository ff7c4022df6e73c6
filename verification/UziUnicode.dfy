/** The entry points of libuzi/unicode.c: UziUtf8toUtf16 and UziUtf16toUtf8. */
module UziUnicode {
  import opened Transcode
  import opened UnicodeRoundTrip
  import opened Utf
  import U16 = Utf16ToUtf8
  import U8 = Utf8ToUtf16
  import opened Wrappers

  /** How many units come before the first zero, as the C library's strlen counts them. */
  function Length<T(==)>(src: seq<T>, zero: T): (n: nat)
    requires zero in src
    ensures n < |src| && src[n] == zero && zero !in src[..n]
  {
    if src[0] == zero then 0 else 1 + Length(src[1..], zero)
  }

  /** uzi_wcslen. */
  method WcsLen(str: seq<bv16>) returns (p: nat)
    requires 0 in str
    ensures p == Length(str, 0)
  {
    p := 0;
    while str[p] != 0
      invariant p <= Length(str, 0)
      decreases |str| - p
    {
      p := p + 1;
    }
  }

  /** The part of the source to convert: what is counted, or, for -1, everything up to and with the first zero. */
  ghost function Source<T>(src: seq<T>, cchSrc: int, zero: T): seq<T>
    requires ValidSource(src, cchSrc, zero)
  {
    if cchSrc == -1 then src[..Length(src, zero) + 1] else src[..cchSrc]
  }

  ghost predicate ValidSource<T>(src: seq<T>, cchSrc: int, zero: T) {
    if cchSrc == -1 then zero in src else 0 <= cchSrc <= |src|
  }

  /** What a call must return: the length of the whole conversion, or 0 if it is not all there. */
  ghost predicate Answers<T>(length: nat, whole: Outcome<T>, cchDst: nat) {
    length == if whole.result.ConversionOk? && (cchDst == 0 || |whole.out| <= cchDst) then |whole.out| else 0
  }

  /** A caller gets `out`: its length, or 0 if a target is given that is too small for it, and its units in the target. */
  ghost predicate Delivered<T>(length: nat, out: seq<T>, cchDst: nat, target: seq<T>) {
    && length == (if cchDst == 0 || |out| <= cchDst then |out| else 0)
    && (|out| <= cchDst ==> out <= target)
  }

  lemma DeliveredWhen<T>(length: nat, whole: Outcome<T>, cchDst: nat, before: seq<T>, now: seq<T>)
    requires whole.result.ConversionOk? && Answers(length, whole, cchDst)
    requires 0 < cchDst && |whole.out| <= cchDst ==> cchDst <= |now| && Written(before, now, 0, whole.out)
    ensures Delivered(length, whole.out, cchDst, if cchDst > 0 && cchDst <= |now| then now[..cchDst] else [])
  {
  }

  lemma NoZeroUnit(v: bv32)
    requires v != 0 && v < 0x110000
    ensures 0 !in Utf16(v) && 0 !in Utf8(v)
  {
    if v < 0x10000 {
      ShortNotZero(v);
    } else {
      Utf16Sound(v);
      assert forall i | 0 <= i < |Utf16(v)| :: Utf16(v)[i] != 0;
    }
    forall i | 0 <= i < |Utf8(v)| ensures Utf8(v)[i] != 0 { NoZeroByte(v, i); }
  }

  lemma ShortNotZero(v: bv32)
    requires 0 < v < 0x10000
    ensures v as bv16 != 0
  {
  }

  lemma NoZeroByte(v: bv32, i: nat)
    requires v != 0 && v < 0x110000 && i < |Utf8(v)|
    ensures Utf8(v)[i] != 0
  {
  }

  lemma {:induction false} NoZeros(vs: seq<bv32>)
    requires IsText(vs) && 0 !in vs
    ensures 0 !in Text16(vs) && 0 !in Text8(vs)
  {
    if vs != [] {
      ScalarRange(vs[0]);
      assert vs[0] in vs;
      NoZeroUnit(vs[0]);
      NoZeros(vs[1..]);
    }
  }

  lemma LengthIs<T>(src: seq<T>, zero: T, text: seq<T>)
    requires zero !in text && text + [zero] <= src
    ensures zero in src && Length(src, zero) == |text|
  {
    assert (text + [zero])[|text|] == zero;
  }

  lemma ZeroConverts()
    ensures To8([0]) == Outcome(1, [0], ConversionOk) && To16([0]) == Outcome(1, [0], ConversionOk)
  {
    To8OfText([0]);
    To16OfText([0]);
    assert Text16([0]) == [0] && Text8([0]) == [0];
  }

  /** With -1 the terminator counts: a text and its zero become the text's other form and a zero. */
  lemma Terminated16(src: seq<bv16>, vs: seq<bv32>)
    requires IsText(vs) && 0 !in vs && Text16(vs) + [0] <= src
    ensures ValidSource(src, -1, 0) && To8(Source(src, -1, 0)) == Outcome(|Text16(vs)| + 1, Text8(vs) + [0], ConversionOk)
  {
    NoZeros(vs);
    LengthIs(src, 0, Text16(vs));
    assert Source(src, -1, 0) == Text16(vs) + [0];
    To8TextThen(vs, [0]);
    ZeroConverts();
  }

  lemma Terminated8(src: seq<bv8>, vs: seq<bv32>)
    requires IsText(vs) && 0 !in vs && Text8(vs) + [0] <= src
    ensures ValidSource(src, -1, 0) && To16(Source(src, -1, 0)) == Outcome(|Text8(vs)| + 1, Text16(vs) + [0], ConversionOk)
  {
    NoZeros(vs);
    LengthIs(src, 0, Text8(vs));
    assert Source(src, -1, 0) == Text8(vs) + [0];
    To16TextThen(vs, [0]);
    ZeroConverts();
  }

  /** UziUtf16toUtf8. */
  method UziUtf16toUtf8(src: seq<bv16>, cchSrc: int, dst: array?<bv8>, cchDst: nat) returns (length: nat)
    requires ValidSource(src, cchSrc, 0)
    requires cchDst > 0 ==> dst != null && cchDst <= dst.Length
    modifies if cchDst > 0 then {dst} else {}
    ensures var whole := Convert(U16.Next(true), Source(src, cchSrc, 0), None);
            && Answers(length, whole, cchDst)
            && (cchDst > 0 && whole.result.ConversionOk? && |whole.out| <= cchDst ==>
                  Written(old(dst[..]), dst[..], 0, whole.out))
    ensures cchDst > 0 ==> dst[cchDst..] == old(dst[cchDst..])
    ensures cchSrc == -1 ==> forall vs: seq<bv32> | IsText(vs) && 0 !in vs && Text16(vs) + [0] <= src ::
              Delivered(length, Text8(vs) + [0], cchDst, if cchDst > 0 then dst[..cchDst] else [])
    ensures cchSrc >= 0 ==> forall vs: seq<bv32> | IsText(vs) && Text16(vs) == src[..cchSrc] ::
              Delivered(length, Text8(vs), cchDst, if cchDst > 0 then dst[..cchDst] else [])
  {
    ghost var before := if cchDst > 0 then dst[..] else [];
    ghost var input := Source(src, cchSrc, 0);
    var count := cchSrc;
    if cchSrc == -1 {
      count := WcsLen(src);
      count := count + 1;
    }
    assert input == src[0..count];
    var srcBeg, dstBeg, result;
    if cchDst == 0 {
      srcBeg, dstBeg, result := U16.ConvertUTF16toUTF8(src, 0, count, null, 0, 0, true);
    } else {
      srcBeg, dstBeg, result := U16.ConvertUTF16toUTF8(src, 0, count, dst, 0, cchDst, true);
      RoomDecides(U16.Next(true), input, cchDst);
    }
    length := if result == ConversionOk then dstBeg else 0;
    ghost var now := if cchDst > 0 then dst[..] else [];
    if cchSrc == -1 {
      forall vs: seq<bv32> | IsText(vs) && 0 !in vs && Text16(vs) + [0] <= src
        ensures Delivered(length, Text8(vs) + [0], cchDst, if cchDst > 0 then dst[..cchDst] else [])
      {
        Terminated16(src, vs);
        DeliveredWhen(length, To8(input), cchDst, before, now);
      }
    } else {
      forall vs: seq<bv32> | IsText(vs) && Text16(vs) == src[..cchSrc]
        ensures Delivered(length, Text8(vs), cchDst, if cchDst > 0 then dst[..cchDst] else [])
      {
        To8OfText(vs);
        DeliveredWhen(length, To8(input), cchDst, before, now);
      }
    }
  }

  /** UziUtf8toUtf16. */
  method UziUtf8toUtf16(src: seq<bv8>, cchSrc: int, dst: array?<bv16>, cchDst: nat) returns (length: nat)
    requires ValidSource(src, cchSrc, 0)
    requires cchDst > 0 ==> dst != null && cchDst <= dst.Length
    modifies if cchDst > 0 then {dst} else {}
    ensures var whole := Convert(U8.Next(true), Source(src, cchSrc, 0), None);
            && Answers(length, whole, cchDst)
            && (cchDst > 0 && whole.result.ConversionOk? && |whole.out| <= cchDst ==>
                  Written(old(dst[..]), dst[..], 0, whole.out))
    ensures cchDst > 0 ==> dst[cchDst..] == old(dst[cchDst..])
    ensures cchSrc == -1 ==> forall vs: seq<bv32> | IsText(vs) && 0 !in vs && Text8(vs) + [0] <= src ::
              Delivered(length, Text16(vs) + [0], cchDst, if cchDst > 0 then dst[..cchDst] else [])
    ensures cchSrc >= 0 ==> forall vs: seq<bv32> | IsText(vs) && Text8(vs) == src[..cchSrc] ::
              Delivered(length, Text16(vs), cchDst, if cchDst > 0 then dst[..cchDst] else [])
  {
    ghost var before := if cchDst > 0 then dst[..] else [];
    ghost var input := Source(src, cchSrc, 0);
    var count := cchSrc;
    if cchSrc == -1 {
      count := Length(src, 0);
      count := count + 1;
    }
    assert input == src[0..count];
    var srcBeg, dstBeg, result;
    if cchDst == 0 {
      srcBeg, dstBeg, result := U8.ConvertUTF8toUTF16(src, 0, count, null, 0, 0, true);
    } else {
      srcBeg, dstBeg, result := U8.ConvertUTF8toUTF16(src, 0, count, dst, 0, cchDst, true);
      RoomDecides(U8.Next(true), input, cchDst);
    }
    length := if result == ConversionOk then dstBeg else 0;
    ghost var now := if cchDst > 0 then dst[..] else [];
    if cchSrc == -1 {
      forall vs: seq<bv32> | IsText(vs) && 0 !in vs && Text8(vs) + [0] <= src
        ensures Delivered(length, Text16(vs) + [0], cchDst, if cchDst > 0 then dst[..cchDst] else [])
      {
        Terminated8(src, vs);
        DeliveredWhen(length, To16(input), cchDst, before, now);
      }
    } else {
      forall vs: seq<bv32> | IsText(vs) && Text8(vs) == src[..cchSrc]
        ensures Delivered(length, Text16(vs), cchDst, if cchDst > 0 then dst[..cchDst] else [])
      {
        To16OfText(vs);
        DeliveredWhen(length, To16(input), cchDst, before, now);
      }
    }
  }
}
