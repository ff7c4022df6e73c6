/**
  What the two converters of libuzi/unicode.c do to whole strings: which strings strict conversion
  accepts, that conversion is encoding, and that converting there and back changes nothing.
 */
module UnicodeRoundTrip {
  import opened Transcode
  import opened Utf
  import U16 = Utf16ToUtf8
  import U8 = Utf8ToUtf16
  import opened Wrappers

  /** A text: Unicode scalar values in a row. */
  predicate IsText(vs: seq<bv32>) { forall i | 0 <= i < |vs| :: IsScalar(vs[i]) }

  lemma ScalarRange(v: bv32)
    requires IsScalar(v)
    ensures v < 0x110000
  {
  }

  /** The UTF-16 form of a text, by RFC 2781. */
  ghost function Text16(vs: seq<bv32>): seq<bv16>
    requires IsText(vs)
  {
    if vs == [] then [] else ScalarRange(vs[0]); Utf16(vs[0]) + Text16(vs[1..])
  }

  /** The UTF-8 form of a text, by RFC 3629. */
  ghost function Text8(vs: seq<bv32>): seq<bv8>
    requires IsText(vs)
  {
    if vs == [] then [] else ScalarRange(vs[0]); Utf8(vs[0]) + Text8(vs[1..])
  }

  /** UTF8-octets of section 4 of RFC 3629. */
  ghost predicate IsUtf8(s: seq<bv8>)
    decreases |s|
  {
    s == [] || exists n | 1 <= n <= |s| :: IsUtf8Char(s[..n]) && IsUtf8(s[n..])
  }

  /** Strict conversion to UTF-8, unlimited. */
  ghost function To8(src: seq<bv16>): Outcome<bv8> { Convert(U16.Next(true), src, None) }

  /** Conversion to UTF-16, unlimited; the flag does not matter (FlagIsIrrelevant). */
  ghost function To16(src: seq<bv8>): Outcome<bv16> { Convert(U8.Next(true), src, None) }

  lemma BmpUnit(v: bv32)
    requires IsScalar(v) && v < 0x10000
    ensures !IsHigh(v as bv16) && !IsLow(v as bv16) && (v as bv16) as bv32 == v
  {
  }

  lemma UnitIsScalar(u: bv16)
    requires !IsHigh(u) && !IsLow(u)
    ensures IsScalar(u as bv32) && u as bv32 < 0x110000 && Utf16(u as bv32) == [u]
  {
  }

  lemma Decodes16(v: bv32, rest: seq<bv16>)
    requires IsScalar(v) && v < 0x110000
    ensures U16.Decode16(Utf16(v) + rest, true) == Char(|Utf16(v)| - 1, v)
  {
    var s := Utf16(v) + rest;
    if v < 0x10000 {
      BmpUnit(v);
      assert s[0] == v as bv16;
    } else {
      Utf16Sound(v);
      assert s[0] == Utf16(v)[0] && s[1] == Utf16(v)[1];
    }
  }

  lemma Decodes8(v: bv32, rest: seq<bv8>)
    requires IsScalar(v) && v < 0x110000
    ensures U8.Decode8(Utf8(v) + rest) == Char(|Utf8(v)| - 1, v)
  {
    var s := Utf8(v) + rest;
    Utf8Sound(v);
    U8.LeadGivesLength(Utf8(v));
    U8.OffsetsAreStandard(Utf8(v));
    assert s[..|Utf8(v)|] == Utf8(v);
  }

  /** Strict conversion of a text's UTF-16 form is its UTF-8 form, whatever follows the text. */
  lemma {:induction false} To8TextThen(vs: seq<bv32>, tail: seq<bv16>)
    requires IsText(vs)
    ensures To8(Text16(vs) + tail) == Prepend(|Text16(vs)|, Text8(vs), To8(tail))
  {
    if vs == [] {
      assert Text16(vs) + tail == tail && Text8(vs) + To8(tail).out == To8(tail).out;
    } else {
      var first, rest := Utf16(vs[0]), Text16(vs[1..]) + tail;
      ScalarRange(vs[0]);
      Decodes16(vs[0], rest);
      To8TextThen(vs[1..], tail);
      assert Text16(vs) + tail == first + rest;
      assert (first + rest)[|first|..] == rest;
      Unfold(U16.Next(true), first + rest, None);
      PrependTwice(|first|, Utf8(vs[0]), Outcome(|Text16(vs[1..])|, Text8(vs[1..]), ConversionOk), To8(tail));
    }
  }

  lemma To8OfText(vs: seq<bv32>)
    requires IsText(vs)
    ensures To8(Text16(vs)) == Outcome(|Text16(vs)|, Text8(vs), ConversionOk)
  {
    To8TextThen(vs, []);
    assert Text16(vs) + [] == Text16(vs) && Text8(vs) + [] == Text8(vs);
  }

  /** Conversion of a text's UTF-8 form is its UTF-16 form, whatever follows the text. */
  lemma {:induction false} To16TextThen(vs: seq<bv32>, tail: seq<bv8>)
    requires IsText(vs)
    ensures To16(Text8(vs) + tail) == Prepend(|Text8(vs)|, Text16(vs), To16(tail))
  {
    if vs == [] {
      assert Text8(vs) + tail == tail && Text16(vs) + To16(tail).out == To16(tail).out;
    } else {
      var first, rest := Utf8(vs[0]), Text8(vs[1..]) + tail;
      ScalarRange(vs[0]);
      Decodes8(vs[0], rest);
      U8.ChunkOfScalar(first + rest, true);
      To16TextThen(vs[1..], tail);
      assert Text8(vs) + tail == first + rest;
      assert (first + rest)[|first|..] == rest;
      Unfold(U8.Next(true), first + rest, None);
      PrependTwice(|first|, Utf16(vs[0]), Outcome(|Text8(vs[1..])|, Text16(vs[1..]), ConversionOk), To16(tail));
    }
  }

  lemma To16OfText(vs: seq<bv32>)
    requires IsText(vs)
    ensures To16(Text8(vs)) == Outcome(|Text8(vs)|, Text16(vs), ConversionOk)
  {
    To16TextThen(vs, []);
    assert Text8(vs) + [] == Text8(vs) && Text16(vs) + [] == Text16(vs);
  }

  lemma FourByteScalar(v: bv32)
    requires 0x10000 <= v < 0x110000
    ensures IsScalar(v)
  {
  }

  /** What strict decoding reads is the encoding of what it returns. */
  lemma Decoded16(src: seq<bv16>)
    requires U16.Decode16(src, true).Char?
    ensures var c := U16.Decode16(src, true);
            IsScalar(c.v) && c.v < 0x110000 && c.extra < |src| && src[..c.extra + 1] == Utf16(c.v)
  {
    if IsHigh(src[0]) {
      Utf16Unique(src[0], src[1]);
      FourByteScalar(PairValue(src[0], src[1]));
      assert src[..2] == [src[0], src[1]];
    } else {
      UnitIsScalar(src[0]);
      assert src[..1] == [src[0]];
    }
  }

  /** Strict conversion accepts nothing but UTF-16 forms of texts. */
  lemma {:induction false} AcceptedIsText16(src: seq<bv16>) returns (vs: seq<bv32>)
    requires To8(src).result.ConversionOk?
    ensures IsText(vs) && src == Text16(vs)
    decreases |src|
  {
    if src == [] {
      vs := [];
    } else {
      Decoded16(src);
      var c := U16.Decode16(src, true);
      U16.Decode16Range(src, true);
      Unfold(U16.Next(true), src, None);
      var rest := AcceptedIsText16(src[c.extra + 1..]);
      vs := [c.v] + rest;
      assert vs[1..] == rest;
      assert src == src[..c.extra + 1] + src[c.extra + 1..];
    }
  }

  /** Strict conversion to UTF-8 accepts exactly the well-formed UTF-16 strings, and converts them to UTF-8. */
  lemma StrictAcceptsExactly(src: seq<bv16>)
    ensures To8(src).result.ConversionOk? <==> exists vs: seq<bv32> :: IsText(vs) && src == Text16(vs)
    ensures To8(src).result.ConversionOk? ==> IsUtf8(To8(src).out)
  {
    if To8(src).result.ConversionOk? {
      var vs := AcceptedIsText16(src);
      To8OfText(vs);
      Text8IsUtf8(vs);
    }
    forall vs: seq<bv32> | IsText(vs) && src == Text16(vs) ensures To8(src).result.ConversionOk? {
      To8OfText(vs);
    }
  }

  /** UTF-16 to UTF-8 and back gives the same units. */
  lemma RoundTrip16(src: seq<bv16>)
    requires To8(src).result.ConversionOk?
    ensures To16(To8(src).out) == Outcome(|To8(src).out|, src, ConversionOk)
  {
    var vs := AcceptedIsText16(src);
    To8OfText(vs);
    To16OfText(vs);
  }

  lemma {:induction false} Text8IsUtf8(vs: seq<bv32>)
    requires IsText(vs)
    ensures IsUtf8(Text8(vs))
  {
    if vs != [] {
      var first, rest := Utf8(vs[0]), Text8(vs[1..]);
      Utf8Sound(vs[0]);
      Text8IsUtf8(vs[1..]);
      assert (first + rest)[..|first|] == first && (first + rest)[|first|..] == rest;
    }
  }

  lemma OneMoreChar(s: seq<bv8>, n: nat, vs: seq<bv32>) returns (longer: seq<bv32>)
    requires n <= |s| && IsUtf8Char(s[..n])
    requires IsText(vs) && Text8(vs) == s[n..]
    ensures IsText(longer) && Text8(longer) == s
  {
    Utf8Unique(s[..n]);
    longer := [Utf8Value(s[..n])] + vs;
    assert longer[1..] == vs;
    assert s == s[..n] + s[n..];
  }

  /** Well-formed UTF-8 is the UTF-8 form of a text. */
  lemma {:induction false} Utf8IsText(s: seq<bv8>) returns (vs: seq<bv32>)
    requires IsUtf8(s)
    ensures IsText(vs) && s == Text8(vs)
    decreases |s|
  {
    if s == [] {
      vs := [];
    } else {
      var n :| 1 <= n <= |s| && IsUtf8Char(s[..n]) && IsUtf8(s[n..]);
      var rest := Utf8IsText(s[n..]);
      vs := OneMoreChar(s, n, rest);
    }
  }

  /** Whatever is converted to UTF-16, ill-formed bytes included, becomes the UTF-16 form of some text. */
  lemma {:induction false} To16IsText(src: seq<bv8>) returns (vs: seq<bv32>)
    requires To16(src).result.ConversionOk?
    ensures IsText(vs) && To16(src).out == Text16(vs)
    decreases |src|
  {
    if src == [] {
      vs := [];
    } else {
      var c := U8.Decode8(src);
      U8.ChunkOfScalar(src, true);
      Unfold(U8.Next(true), src, None);
      var rest := To16IsText(src[c.extra + 1..]);
      vs := [c.v] + rest;
      assert vs[1..] == rest;
    }
  }

  /** Well-formed UTF-8 converts to UTF-16 and back to the same bytes. */
  lemma RoundTrip8(src: seq<bv8>)
    requires IsUtf8(src)
    ensures To16(src).result.ConversionOk? && To16(src).consumed == |src|
    ensures To8(To16(src).out) == Outcome(|To16(src).out|, src, ConversionOk)
  {
    var vs := Utf8IsText(src);
    To16OfText(vs);
    To8OfText(vs);
  }

  /**
    isLegalUTF8 lets some ill-formed bytes through. They still become well-formed UTF-16, but among all
    accepted bytes exactly the well-formed ones come back unchanged.
   */
  lemma ReturnsUnchangedExactly(src: seq<bv8>)
    requires To16(src).result.ConversionOk?
    ensures To8(To16(src).out).result.ConversionOk?
    ensures To8(To16(src).out).out == src <==> IsUtf8(src)
  {
    var vs := To16IsText(src);
    To8OfText(vs);
    Text8IsUtf8(vs);
    if IsUtf8(src) { RoundTrip8(src); }
  }

  /** One such string: the bytes ED 00 80 are accepted, as U+B000, whose UTF-8 form is EB 80 80. */
  lemma IllFormedButAccepted()
    ensures var src := [0xED, 0x00, 0x80]; To16(src).result.ConversionOk? && !IsUtf8(src)
  {
    var src: seq<bv8> := [0xED, 0x00, 0x80];
    assert src[..3] == src && src[3..] == [];
    U8.ChunkOfScalar(src, true);
    Unfold(U8.Next(true), src, None);
    forall n | 1 <= n <= |src| ensures !IsUtf8Char(src[..n]) {
    }
  }

  lemma Pieces16(s: seq<bv16>, strict: bool)
    ensures var c := U16.Next(strict)(s); c.Piece? ==> |c.out| <= 3 * (c.extra + 1)
  {
    var c := U16.Decode16(s, strict);
    if c.Char? {
      U16.Decode16Range(s, strict);
      if c.extra == 0 { SingleIsShort(s[0]); }
    }
  }

  lemma SingleIsShort(u: bv16)
    ensures (u as bv32) < 0x10000
  {
  }

  lemma Pieces8(s: seq<bv8>, strict: bool)
    ensures var c := U8.Next(strict)(s); c.Piece? ==> |c.out| <= 1 * (c.extra + 1)
  {
    U8.ChunkOfScalar(s, strict);
    var c := U8.Decode8(s);
    if c.Char? && c.extra == 0 {
      var one := s[..1];
      U8.OneSwitch(one);
      ByteIsShort(s[0]);
    }
  }

  lemma ByteIsShort(b: bv8)
    ensures (b as bv32) < 0x10000
  {
  }

  /** At most three bytes are written for each unit read, and one unit for each byte read, in every mode. */
  lemma LengthBounds(src16: seq<bv16>, src8: seq<bv8>, strict: bool, room: Option<int>)
    ensures var r := Convert(U16.Next(strict), src16, room); |r.out| <= 3 * r.consumed
    ensures var r := Convert(U8.Next(strict), src8, room); |r.out| <= r.consumed
  {
    forall s: seq<bv16> | U16.Next(strict)(s).Piece? ensures |U16.Next(strict)(s).out| <= 3 * (U16.Next(strict)(s).extra + 1) {
      Pieces16(s, strict);
    }
    forall s: seq<bv8> | U8.Next(strict)(s).Piece? ensures |U8.Next(strict)(s).out| <= 1 * (U8.Next(strict)(s).extra + 1) {
      Pieces8(s, strict);
    }
    OutputBound(U16.Next(strict), src16, room, 3);
    OutputBound(U8.Next(strict), src8, room, 1);
  }

  lemma Local16(s: seq<bv16>, k: nat)
    requires k <= |s| && U16.Next(true)(s).Piece? && U16.Next(true)(s).extra < k
    ensures U16.Next(true)(s[..k]) == U16.Next(true)(s)
  {
    var c := U16.Decode16(s, true);
    assert s[..k][0] == s[0];
    if IsHigh(s[0]) { assert s[..k][1] == s[1]; }
  }

  lemma Local8(s: seq<bv8>, strict: bool, k: nat)
    requires k <= |s| && U8.Next(strict)(s).Piece? && U8.Next(strict)(s).extra < k
    ensures U8.Next(strict)(s[..k]) == U8.Next(strict)(s)
  {
    var c := U8.Decode8(s);
    assert s[..k][..c.extra + 1] == s[..c.extra + 1];
  }

  /** Wherever strict conversion to UTF-8 stops, the target holds exactly the conversion of what was read. */
  lemma StrictPrefixConverts(src: seq<bv16>, room: Option<int>)
    ensures ConvertsAlone(U16.Next(true), src, Convert(U16.Next(true), src, room))
  {
    forall s: seq<bv16>, k: nat | k <= |s| && U16.Next(true)(s).Piece? && U16.Next(true)(s).extra < k
      ensures U16.Next(true)(s[..k]) == U16.Next(true)(s)
    {
      Local16(s, k);
    }
    PrefixConverts(U16.Next(true), src, room);
  }

  /** The same for conversion to UTF-16, in both modes. */
  lemma PrefixConverts8(src: seq<bv8>, strict: bool, room: Option<int>)
    ensures ConvertsAlone(U8.Next(strict), src, Convert(U8.Next(strict), src, room))
  {
    forall s: seq<bv8>, k: nat | k <= |s| && U8.Next(strict)(s).Piece? && U8.Next(strict)(s).extra < k
      ensures U8.Next(strict)(s[..k]) == U8.Next(strict)(s)
    {
      Local8(s, strict, k);
    }
    PrefixConverts(U8.Next(strict), src, room);
  }

  /** Is the last unit read a high surrogate? */
  predicate EndsHigh(src: seq<bv16>, consumed: nat)
    requires consumed <= |src|
  {
    consumed > 0 && IsHigh(src[consumed - 1])
  }

  /** Reading leniently: a code point looks the same in a prefix that goes past it, or that ends with it in no high surrogate. */
  lemma LenientLocal(s: seq<bv16>, k: nat)
    requires s != [] && U16.Decode16(s, false).Char? && U16.Decode16(s, false).extra < k <= |s|
    ensures k > U16.Decode16(s, false).extra + 1 || !EndsHigh(s, k) ==> U16.Next(false)(s[..k]) == U16.Next(false)(s)
    ensures k == U16.Decode16(s, false).extra + 1 && EndsHigh(s, k) ==> U16.Next(false)(s[..k]) == Short
  {
    assert s[..k][0] == s[0];
    if k > 1 { assert s[..k][1] == s[1]; }
  }

  lemma LenientPastPiece(src: seq<bv16>, r: Outcome<bv8>)
    requires src != [] && U16.Next(false)(src).Piece? && U16.Next(false)(src).extra + 1 + r.consumed <= |src|
    requires var rest := src[U16.Next(false)(src).extra + 1..];
             && (ConvertsAlone(U16.Next(false), rest, r) <==> !EndsHigh(rest, r.consumed))
    ensures var extra := U16.Next(false)(src).extra;
            ConvertsAlone(U16.Next(false), src, Prepend(extra + 1, U16.Next(false)(src).out, r))
            <==> !EndsHigh(src, extra + 1 + r.consumed)
  {
    var extra := U16.Next(false)(src).extra;
    LenientLocal(src, extra + 1 + r.consumed);
    if r.consumed > 0 || !EndsHigh(src, extra + 1) {
      AlonePastPiece(U16.Next(false), src, r);
    }
  }

  /**
    Lenient conversion reads an unpaired high surrogate only when another unit follows it. So what was
    read converts on its own to what was written unless it ends in a high surrogate.
   */
  lemma {:induction false} LenientPrefixConvertsExactly(src: seq<bv16>, room: Option<int>)
    ensures var r := Convert(U16.Next(false), src, room);
            && r.consumed <= |src|
            && (ConvertsAlone(U16.Next(false), src, r) <==> !EndsHigh(src, r.consumed))
    decreases |src|
  {
    var next := U16.Next(false);
    ConvertBounds(next, src, room);
    if src != [] && next(src).Piece? && next(src).extra < |src| && Fits(next(src).out, room) {
      var rest, left := src[next(src).extra + 1..], Less(room, |next(src).out|);
      LenientPrefixConvertsExactly(rest, left);
      LenientPastPiece(src, Convert(next, rest, left));
    } else {
      assert src[..0] == [];
    }
  }

  /** Every high surrogate that another unit follows is followed by a low one. */
  ghost predicate Paired(src: seq<bv16>) {
    forall i | 0 <= i && i + 1 < |src| && IsHigh(src[i]) :: IsLow(src[i + 1])
  }

  lemma PairedDrop(src: seq<bv16>, n: nat)
    requires Paired(src) && n <= |src|
    ensures Paired(src[n..])
  {
    forall i | 0 <= i && i + 1 < |src[n..]| && IsHigh(src[n..][i]) ensures IsLow(src[n..][i + 1]) {
      assert src[n..][i] == src[n + i] && src[n..][i + 1] == src[n + i + 1];
    }
  }

  lemma LowIsNotHigh(u: bv16)
    ensures !(IsHigh(u) && IsLow(u))
  {
  }

  /** A piece of a paired source never ends with its high surrogate. */
  lemma PairedPiece(src: seq<bv16>)
    requires Paired(src) && U16.Decode16(src, false).Char?
    ensures var extra := U16.Decode16(src, false).extra; extra < |src| && !IsHigh(src[extra])
  {
    if IsHigh(src[0]) {
      assert IsLow(src[0 + 1]);
      LowIsNotHigh(src[1]);
    }
  }

  /** A paired source is never left right after a high surrogate. */
  lemma {:induction false} PairedNeverEndsHigh(src: seq<bv16>, room: Option<int>)
    requires Paired(src)
    ensures var r := Convert(U16.Next(false), src, room); r.consumed <= |src| && !EndsHigh(src, r.consumed)
    decreases |src|
  {
    var next := U16.Next(false);
    ConvertBounds(next, src, room);
    if src != [] && next(src).Piece? && next(src).extra < |src| && Fits(next(src).out, room) {
      var extra := next(src).extra;
      PairedPiece(src);
      PairedDrop(src, extra + 1);
      PairedNeverEndsHigh(src[extra + 1..], Less(room, |next(src).out|));
    }
  }

  /** With no room left nothing more is read. */
  lemma NoRoomNothingRead(src: seq<bv16>)
    ensures Convert(U16.Next(false), src, Some(0)).consumed == 0
  {
    var c := U16.Decode16(src, false);
    if c.Char? {
      U16.Decode16Range(src, false);
      U16.Utf8LengthIs(c.v);
    }
  }

  /** A lone high surrogate ends a piece, so some room stops the conversion right after it. */
  lemma {:induction false} StopAfter(src: seq<bv16>, i: nat) returns (room: nat)
    requires i + 1 < |src| && IsHigh(src[i]) && !IsLow(src[i + 1])
    ensures Convert(U16.Next(false), src, Some(room)).consumed == i + 1
    decreases |src|
  {
    var next := U16.Next(false);
    var c := U16.Decode16(src, false);
    U16.Decode16Range(src, false);
    LowIsNotHigh(src[i]);
    var out, rest := next(src).out, src[c.extra + 1..];
    if i == 0 {
      NoRoomNothingRead(rest);
      room := |out|;
    } else {
      assert c.extra < i;
      assert rest[i - c.extra - 1] == src[i] && rest[i - c.extra] == src[i + 1];
      var more := StopAfter(rest, i - c.extra - 1);
      room := |out| + more;
    }
    Unfold(next, src, Some(room));
  }

  /**
    Exactly for which sources lenient conversion keeps the promise whatever the room: those in which every
    high surrogate, unless it comes last, is followed by a low one.
   */
  lemma LenientPrefixConvertsForEveryRoom(src: seq<bv16>)
    ensures (forall room: Option<int> :: ConvertsAlone(U16.Next(false), src, Convert(U16.Next(false), src, room)))
            <==> Paired(src)
  {
    if Paired(src) {
      forall room: Option<int> ensures ConvertsAlone(U16.Next(false), src, Convert(U16.Next(false), src, room)) {
        PairedNeverEndsHigh(src, room);
        LenientPrefixConvertsExactly(src, room);
      }
    } else {
      var i :| 0 <= i && i + 1 < |src| && IsHigh(src[i]) && !IsLow(src[i + 1]);
      var room := StopAfter(src, i);
      LenientPrefixConvertsExactly(src, Some(room));
      assert !ConvertsAlone(U16.Next(false), src, Convert(U16.Next(false), src, Some(room)));
    }
  }

  /** One such string: D800 before a letter, stopped by a target of three bytes. */
  lemma LenientPrefixCanDiffer()
    ensures var src := [0xD800, 0x41];
            var r := Convert(U16.Next(false), src, Some(3));
            r.consumed == 1 && |r.out| == 3 && Convert(U16.Next(false), src[..1], None) == Outcome(0, [], SourceExhausted)
  {
    var src: seq<bv16> := [0xD800, 0x41];
    assert U16.Next(false)(src) == Piece(0, Utf8(0xD800));
    Unfold(U16.Next(false), src, Some(3));
    var rest := src[1..];
    assert rest == [0x41];
    assert U16.Next(false)(rest) == Piece(0, Utf8(0x41));
  }
}
