/**
  How the converters of libuzi/unicode.c answer a source that is no well-formed string: where they stop, what
  they have written by then, and whether they call the source exhausted or illegal.
 */
module UnicodeErrors {
  import opened Transcode
  import opened UnicodeRoundTrip
  import opened Utf
  import U16 = Utf16ToUtf8
  import U8 = Utf8ToUtf16
  import opened Wrappers

  // ---- strict conversion to UTF-8 ----

  /** A high surrogate that ends the source. */
  predicate Cut16(tail: seq<bv16>) { |tail| == 1 && IsHigh(tail[0]) }

  /** An unpaired surrogate that does not: a low one, or a high one with no low one behind it. */
  predicate Bad16(tail: seq<bv16>) {
    tail != [] && (IsLow(tail[0]) || (IsHigh(tail[0]) && |tail| > 1 && !IsLow(tail[1])))
  }

  /** Conversion stops behind a well-formed text at the first surrogate out of place, and says which kind it is. */
  lemma StrictAnswers(vs: seq<bv32>, tail: seq<bv16>)
    requires IsText(vs)
    ensures tail == [] ==> To8(Text16(vs) + tail) == Outcome(|Text16(vs)|, Text8(vs), ConversionOk)
    ensures Cut16(tail) ==> To8(Text16(vs) + tail) == Outcome(|Text16(vs)|, Text8(vs), SourceExhausted)
    ensures Bad16(tail) ==> To8(Text16(vs) + tail) == Outcome(|Text16(vs)|, Text8(vs), SourceIllegal)
  {
    To8TextThen(vs, tail);
    if tail != [] { LowIsNotHigh(tail[0]); }
    assert Text8(vs) + [] == Text8(vs);
  }

  /** Every source is a text and what stands in the way of more. */
  lemma {:induction false} Split16(src: seq<bv16>) returns (vs: seq<bv32>, tail: seq<bv16>)
    ensures IsText(vs) && src == Text16(vs) + tail && (tail == [] || Cut16(tail) || Bad16(tail))
    decreases |src|
  {
    var c := U16.Decode16(src, true);
    if c.Char? {
      Decoded16(src);
      var rest;
      rest, tail := Split16(src[c.extra + 1..]);
      vs := [c.v] + rest;
      assert vs[1..] == rest;
      assert src == src[..c.extra + 1] + src[c.extra + 1..];
    } else {
      vs, tail := [], src;
    }
  }

  /** Exactly which sources are called exhausted and which illegal. */
  lemma StrictAnswersExactly(src: seq<bv16>)
    ensures To8(src).result.SourceExhausted? <==>
            exists vs: seq<bv32>, tail: seq<bv16> :: IsText(vs) && Cut16(tail) && src == Text16(vs) + tail
    ensures To8(src).result.SourceIllegal? <==>
            exists vs: seq<bv32>, tail: seq<bv16> :: IsText(vs) && Bad16(tail) && src == Text16(vs) + tail
  {
    var vs0, tail0 := Split16(src);
    StrictAnswers(vs0, tail0);
    forall vs: seq<bv32>, tail: seq<bv16> | IsText(vs) && (Cut16(tail) || Bad16(tail)) && src == Text16(vs) + tail
      ensures To8(src).result == if Cut16(tail) then SourceExhausted else SourceIllegal
    {
      StrictAnswers(vs, tail);
    }
  }

  // ---- lenient conversion to UTF-8 ----

  predicate HighPoint(v: bv32) { 0xD800 <= v <= 0xDBFF }

  predicate LowPoint(v: bv32) { 0xDC00 <= v <= 0xDFFF }

  /** The units of code point i do not pair up with the next one's. */
  predicate LooseAt(cs: seq<bv32>, i: nat)
    requires i < |cs|
  {
    cs[i] < 0x110000 && (HighPoint(cs[i]) && i + 1 < |cs| ==> !LowPoint(cs[i + 1]))
  }

  /** Code points in a row, surrogates too, but no high one right before a low one, where the two would be a pair. */
  ghost predicate IsLoose(cs: seq<bv32>) {
    forall i | 0 <= i < |cs| :: LooseAt(cs, i)
  }

  lemma LooseTail(cs: seq<bv32>)
    requires IsLoose(cs) && cs != []
    ensures cs[0] < 0x110000 && IsLoose(cs[1..])
  {
    assert LooseAt(cs, 0);
    forall i | 0 <= i < |cs[1..]| ensures LooseAt(cs[1..], i) {
      assert LooseAt(cs, i + 1);
    }
  }

  /** The UTF-16 form of such code points, each by RFC 2781 or, a surrogate, as its own unit. */
  ghost function Loose16(cs: seq<bv32>): seq<bv16>
    requires IsLoose(cs)
  {
    if cs == [] then [] else LooseTail(cs); Utf16(cs[0]) + Loose16(cs[1..])
  }

  /** Their bytes by the table of section 3 of RFC 3629. */
  ghost function Loose8(cs: seq<bv32>): seq<bv8>
    requires IsLoose(cs)
  {
    if cs == [] then [] else LooseTail(cs); Utf8(cs[0]) + Loose8(cs[1..])
  }

  predicate HighLast(cs: seq<bv32>) { cs != [] && HighPoint(cs[|cs| - 1]) }

  /** All but a high surrogate that comes last. */
  function Body(cs: seq<bv32>): seq<bv32> {
    if HighLast(cs) then cs[..|cs| - 1] else cs
  }

  lemma BodyIsLoose(cs: seq<bv32>)
    requires IsLoose(cs)
    ensures IsLoose(Body(cs))
  {
    forall i | 0 <= i < |Body(cs)| ensures LooseAt(Body(cs), i) {
      assert LooseAt(cs, i);
    }
  }

  lemma UnitOfPoint(v: bv32)
    requires v < 0x10000
    ensures (v as bv16) as bv32 == v && Utf16(v) == [v as bv16]
    ensures IsHigh(v as bv16) <==> HighPoint(v)
    ensures IsLow(v as bv16) <==> LowPoint(v)
  {
  }

  lemma AboveSurrogates(v: bv32)
    requires 0x10000 <= v
    ensures !LowPoint(v) && !HighPoint(v)
  {
  }

  lemma FirstUnit(v: bv32)
    requires v < 0x110000
    ensures Utf16(v) != [] && (IsLow(Utf16(v)[0]) <==> LowPoint(v))
  {
    if v < 0x10000 {
      UnitOfPoint(v);
    } else {
      Utf16Sound(v);
      LowIsNotHigh(Utf16(v)[0]);
      AboveSurrogates(v);
    }
  }

  lemma DecodesUnit(u: bv16, rest: seq<bv16>)
    requires IsHigh(u) ==> rest != [] && !IsLow(rest[0])
    ensures U16.Decode16([u] + rest, false) == Char(0, u as bv32)
  {
    if rest != [] { assert ([u] + rest)[1] == rest[0]; }
  }

  lemma DecodesPair(high: bv16, low: bv16, rest: seq<bv16>)
    requires IsHigh(high) && IsLow(low)
    ensures U16.Decode16([high, low] + rest, false) == Char(1, PairValue(high, low))
  {
  }

  lemma DecodesPoint(v: bv32, rest: seq<bv16>)
    requires v < 0x110000 && (HighPoint(v) ==> rest != [] && !IsLow(rest[0]))
    ensures U16.Decode16(Utf16(v) + rest, false) == Char(|Utf16(v)| - 1, v)
  {
    if v < 0x10000 {
      UnitOfPoint(v);
      DecodesUnit(v as bv16, rest);
    } else {
      Utf16Sound(v);
      DecodesPair(Utf16(v)[0], Utf16(v)[1], rest);
      assert Utf16(v) == [Utf16(v)[0], Utf16(v)[1]];
    }
  }

  ghost function LenientTo8(src: seq<bv16>): Outcome<bv8> { Convert(U16.Next(false), src, None) }

  lemma LenientStep(v: bv32, rest: seq<bv16>)
    requires v < 0x110000 && (HighPoint(v) ==> rest != [] && !IsLow(rest[0]))
    ensures LenientTo8(Utf16(v) + rest) == Prepend(|Utf16(v)|, Utf8(v), LenientTo8(rest))
  {
    var first := Utf16(v);
    FirstUnit(v);
    DecodesPoint(v, rest);
    assert (first + rest)[|first|..] == rest;
    Unfold(U16.Next(false), first + rest, None);
  }

  lemma LastHigh(v: bv32)
    requires HighPoint(v) && v < 0x110000
    ensures LenientTo8(Utf16(v)) == Outcome(0, [], SourceExhausted)
  {
    if v < 0x10000 { UnitOfPoint(v); } else { AboveSurrogates(v); }
  }

  lemma LooseParts(cs: seq<bv32>)
    requires IsLoose(cs) && cs != [] && (HighPoint(cs[0]) ==> |cs| > 1)
    ensures IsLoose(cs[1..]) && IsLoose(Body(cs[1..])) && IsLoose(Body(cs))
    ensures cs[0] < 0x110000
    ensures Loose16(Body(cs)) == Utf16(cs[0]) + Loose16(Body(cs[1..]))
    ensures Loose8(Body(cs)) == Utf8(cs[0]) + Loose8(Body(cs[1..]))
    ensures HighLast(cs) <==> HighLast(cs[1..])
  {
    LooseTail(cs);
    BodyIsLoose(cs);
    BodyIsLoose(cs[1..]);
    assert Body(cs)[1..] == Body(cs[1..]) && Body(cs)[0] == cs[0];
  }

  /**
    Lenient conversion spells out every code point, unpaired surrogates included, and stops only at a high
    surrogate that comes last.
   */
  lemma {:induction false} LenientSpellsOut(cs: seq<bv32>)
    requires IsLoose(cs)
    ensures IsLoose(Body(cs))
    ensures LenientTo8(Loose16(cs))
            == Outcome(|Loose16(Body(cs))|, Loose8(Body(cs)), if HighLast(cs) then SourceExhausted else ConversionOk)
  {
    if cs == [] {
    } else if HighPoint(cs[0]) && |cs| == 1 {
      LastHigh(cs[0]);
      assert Loose16(cs) == Utf16(cs[0]) + [] == Utf16(cs[0]);
    } else {
      LooseParts(cs);
      assert LooseAt(cs, 0);
      if HighPoint(cs[0]) {
        LooseTail(cs[1..]);
        FirstUnit(cs[1]);
      }
      LenientStep(cs[0], Loose16(cs[1..]));
      LenientSpellsOut(cs[1..]);
    }
  }

  lemma PairIsPoint(high: bv16, low: bv16)
    requires IsHigh(high) && IsLow(low)
    ensures var v := PairValue(high, low); v < 0x110000 && Utf16(v) == [high, low] && !HighPoint(v)
  {
    Utf16Unique(high, low);
    AboveSurrogates(PairValue(high, low));
  }

  lemma UnitIsPoint(u: bv16)
    ensures var v := u as bv32; v < 0x10000 && Utf16(v) == [u] && (IsHigh(u) <==> HighPoint(v))
  {
  }

  lemma LooseCons(v: bv32, cs: seq<bv32>)
    requires IsLoose(cs) && v < 0x110000 && (HighPoint(v) && cs != [] ==> !LowPoint(cs[0]))
    ensures IsLoose([v] + cs) && Loose16([v] + cs) == Utf16(v) + Loose16(cs)
  {
    var longer := [v] + cs;
    forall i | 0 <= i < |longer| ensures LooseAt(longer, i) {
      if i > 0 { assert LooseAt(cs, i - 1); }
    }
    assert longer[1..] == cs;
  }

  lemma PairInFront(high: bv16, low: bv16, cs: seq<bv32>) returns (longer: seq<bv32>)
    requires IsHigh(high) && IsLow(low) && IsLoose(cs)
    ensures IsLoose(longer) && Loose16(longer) == [high, low] + Loose16(cs)
    ensures HighLast(longer) <==> HighLast(cs)
  {
    PairIsPoint(high, low);
    LooseCons(PairValue(high, low), cs);
    longer := [PairValue(high, low)] + cs;
  }

  lemma UnitInFront(u: bv16, cs: seq<bv32>) returns (longer: seq<bv32>)
    requires IsLoose(cs) && (IsHigh(u) && cs != [] ==> Loose16(cs) != [] && !IsLow(Loose16(cs)[0]))
    ensures IsLoose(longer) && Loose16(longer) == [u] + Loose16(cs)
    ensures HighLast(longer) <==> if cs == [] then IsHigh(u) else HighLast(cs)
  {
    UnitIsPoint(u);
    if cs != [] {
      LooseTail(cs);
      FirstUnit(cs[0]);
    }
    LooseCons(u as bv32, cs);
    longer := [u as bv32] + cs;
  }

  /** Every source is the form of such code points. */
  lemma {:induction false} LooseOf(src: seq<bv16>) returns (cs: seq<bv32>)
    ensures IsLoose(cs) && Loose16(cs) == src
    ensures HighLast(cs) <==> src != [] && IsHigh(src[|src| - 1])
    decreases |src|
  {
    if src == [] {
      cs := [];
    } else if |src| > 1 && IsHigh(src[0]) && IsLow(src[1]) {
      var rest := LooseOf(src[2..]);
      cs := PairInFront(src[0], src[1], rest);
      assert src == [src[0], src[1]] + src[2..];
      LowIsNotHigh(src[1]);
    } else {
      var rest := LooseOf(src[1..]);
      cs := UnitInFront(src[0], rest);
      assert src == [src[0]] + src[1..];
    }
  }

  /** Lenient conversion never calls a source illegal, and exhausted exactly when it ends in a high surrogate. */
  lemma LenientAnswersExactly(src: seq<bv16>)
    ensures !LenientTo8(src).result.SourceIllegal?
    ensures LenientTo8(src).result.SourceExhausted? <==> src != [] && IsHigh(src[|src| - 1])
  {
    var cs := LooseOf(src);
    LenientSpellsOut(cs);
  }

  // ---- conversion to UTF-16 ----

  /**
    The length that the leading ones of a first byte announce, by section 2 of RFC 2279, which goes up to six;
    one for a continuation byte.
   */
  function Announced(b: bv8): nat {
    if b & 0xC0 != 0xC0 then 1
    else if b & 0xE0 == 0xC0 then 2
    else if b & 0xF0 == 0xE0 then 3
    else if b & 0xF8 == 0xF0 then 4
    else if b & 0xFC == 0xF8 then 5
    else 6
  }

  lemma TableAnnounces(b: bv8)
    ensures U8.TrailingBytes(b) + 1 == Announced(b)
  {
  }

  /** Fewer bytes than the first one announces, whatever they are. */
  predicate Cut8(tail: seq<bv8>) { tail != [] && |tail| < Announced(tail[0]) }

  /** As many bytes as announced, that are not accepted. */
  predicate Bad8(tail: seq<bv8>) {
    tail != [] && |tail| >= Announced(tail[0]) && !U8.Accepted(tail[..Announced(tail[0])])
  }

  ghost predicate AllAccepted(ss: seq<seq<bv8>>) { forall i | 0 <= i < |ss| :: U8.Accepted(ss[i]) }

  ghost function Joined(ss: seq<seq<bv8>>): seq<bv8> {
    if ss == [] then [] else ss[0] + Joined(ss[1..])
  }

  /** The text that accepted sequences stand for. */
  ghost function Values(ss: seq<seq<bv8>>): (vs: seq<bv32>)
    requires AllAccepted(ss)
    ensures IsText(vs)
  {
    if ss == [] then [] else
      U8.AcceptedIsScalar(ss[0]);
      [U8.OffsetValue(ss[0])] + Values(ss[1..])
  }

  lemma AcceptedStep(s: seq<bv8>, rest: seq<bv8>)
    requires U8.Accepted(s)
    ensures IsScalar(U8.OffsetValue(s)) && U8.OffsetValue(s) < 0x110000
    ensures To16(s + rest) == Prepend(|s|, Utf16(U8.OffsetValue(s)), To16(rest))
  {
    U8.LeadGivesLength(s);
    assert (s + rest)[0] == s[0] && (s + rest)[..|s|] == s && (s + rest)[|s|..] == rest;
    U8.ChunkOfScalar(s + rest, true);
    Unfold(U8.Next(true), s + rest, None);
  }

  lemma {:induction false} AcceptedThen(ss: seq<seq<bv8>>, tail: seq<bv8>)
    requires AllAccepted(ss)
    ensures To16(Joined(ss) + tail) == Prepend(|Joined(ss)|, Text16(Values(ss)), To16(tail))
  {
    if ss == [] {
      assert Joined(ss) + tail == tail && Text16(Values(ss)) + To16(tail).out == To16(tail).out;
    } else {
      var first, rest := ss[0], Joined(ss[1..]) + tail;
      assert Joined(ss) + tail == first + rest;
      AcceptedStep(first, rest);
      AcceptedThen(ss[1..], tail);
      var vs := Values(ss);
      assert vs[0] == U8.OffsetValue(first) && vs[1..] == Values(ss[1..]);
      PrependTwice(|first|, Utf16(vs[0]), Outcome(|Joined(ss[1..])|, Text16(vs[1..]), ConversionOk), To16(tail));
    }
  }

  lemma TailAnswers(tail: seq<bv8>)
    ensures tail == [] ==> To16(tail) == Outcome(0, [], ConversionOk)
    ensures Cut8(tail) ==> To16(tail) == Outcome(0, [], SourceExhausted)
    ensures Bad8(tail) ==> To16(tail) == Outcome(0, [], SourceIllegal)
  {
    if tail != [] { TableAnnounces(tail[0]); }
  }

  /** Conversion stops behind the accepted sequences; the announced length alone decides between exhausted and illegal. */
  lemma Answers8(ss: seq<seq<bv8>>, tail: seq<bv8>)
    requires AllAccepted(ss)
    ensures tail == [] ==> To16(Joined(ss) + tail) == Outcome(|Joined(ss)|, Text16(Values(ss)), ConversionOk)
    ensures Cut8(tail) ==> To16(Joined(ss) + tail) == Outcome(|Joined(ss)|, Text16(Values(ss)), SourceExhausted)
    ensures Bad8(tail) ==> To16(Joined(ss) + tail) == Outcome(|Joined(ss)|, Text16(Values(ss)), SourceIllegal)
  {
    AcceptedThen(ss, tail);
    TailAnswers(tail);
    assert Text16(Values(ss)) + [] == Text16(Values(ss));
  }

  lemma {:induction false} Split8(src: seq<bv8>) returns (ss: seq<seq<bv8>>, tail: seq<bv8>)
    ensures AllAccepted(ss) && src == Joined(ss) + tail && (tail == [] || Cut8(tail) || Bad8(tail))
    decreases |src|
  {
    if src == [] || Cut8(src) || Bad8(src) {
      ss, tail := [], src;
    } else {
      var n := Announced(src[0]);
      var rest;
      rest, tail := Split8(src[n..]);
      ss := [src[..n]] + rest;
      assert ss[1..] == rest;
      assert src == src[..n] + src[n..];
    }
  }

  /** Exactly which sources are called exhausted and which illegal. */
  lemma AnswersExactly8(src: seq<bv8>)
    ensures To16(src).result.SourceExhausted? <==>
            exists ss: seq<seq<bv8>>, tail: seq<bv8> :: AllAccepted(ss) && Cut8(tail) && src == Joined(ss) + tail
    ensures To16(src).result.SourceIllegal? <==>
            exists ss: seq<seq<bv8>>, tail: seq<bv8> :: AllAccepted(ss) && Bad8(tail) && src == Joined(ss) + tail
  {
    var ss0, tail0 := Split8(src);
    Answers8(ss0, tail0);
    forall ss: seq<seq<bv8>>, tail: seq<bv8> | AllAccepted(ss) && (Cut8(tail) || Bad8(tail)) && src == Joined(ss) + tail
      ensures To16(src).result == if Cut8(tail) then SourceExhausted else SourceIllegal
    {
      Answers8(ss, tail);
    }
  }

  /** A text cut off in the middle of a character: all whole characters are converted and the source is exhausted. */
  lemma CutTextIsExhausted(vs: seq<bv32>, v: bv32, n: nat)
    requires IsText(vs) && IsScalar(v) && v < 0x110000 && 0 < n < |Utf8(v)|
    ensures To16(Text8(vs) + Utf8(v)[..n]) == Outcome(|Text8(vs)|, Text16(vs), SourceExhausted)
  {
    var tail := Utf8(v)[..n];
    To16TextThen(vs, tail);
    Utf8Sound(v);
    U8.LeadGivesLength(Utf8(v));
    TableAnnounces(tail[0]);
    TailAnswers(tail);
    assert Text16(vs) + [] == Text16(vs);
  }
}
