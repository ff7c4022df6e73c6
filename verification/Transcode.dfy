/**
  What both converters of libuzi/unicode.c share: they turn their source piece by piece, stop at the
  first piece that is malformed or does not fit the target, and can run without a target just to count.
 */
module Transcode {
  import opened Wrappers

  datatype Result = ConversionOk | SourceExhausted | TargetExhausted | SourceIllegal

  /** The next code point of a source: how many units follow its first and what it becomes, or why to stop. */
  datatype Chunk<T> = Piece(extra: nat, out: seq<T>) | Short | Illegal

  /** A code point and how many units follow its first, or why there is none. */
  datatype CodePoint = Char(extra: nat, v: bv32) | Cut | Bad

  datatype Outcome<T> = Outcome(consumed: nat, out: seq<T>, result: Result)

  predicate Fits<T>(out: seq<T>, room: Option<int>) { room.None? || |out| <= room.value }

  function Less(room: Option<int>, n: nat): Option<int> {
    if room.None? then None else Some(room.value - n)
  }

  function Prepend<T>(units: nat, out: seq<T>, rest: Outcome<T>): Outcome<T> {
    Outcome(units + rest.consumed, out + rest.out, rest.result)
  }

  /** Converting `src` into `room` units of target, or just counting when there is no room given. */
  ghost function Convert<S, T>(next: seq<S> -> Chunk<T>, src: seq<S>, room: Option<int>): Outcome<T>
    decreases |src|
  {
    if src == [] then Outcome(0, [], ConversionOk)
    else
      match next(src)
      case Short => Outcome(0, [], SourceExhausted)
      case Illegal => Outcome(0, [], SourceIllegal)
      case Piece(extra, out) =>
        if extra >= |src| then Outcome(0, [], SourceExhausted)
        else if !Fits(out, room) then Outcome(0, [], TargetExhausted)
        else Prepend(extra + 1, out, Convert(next, src[extra + 1..], Less(room, |out|)))
  }

  lemma PrependTwice<T>(units: nat, out: seq<T>, middle: Outcome<T>, last: Outcome<T>)
    ensures Prepend(units, out, Prepend(middle.consumed, middle.out, last))
            == Prepend(units + middle.consumed, out + middle.out, last)
  {
    assert out + (middle.out + last.out) == (out + middle.out) + last.out;
  }

  lemma Unfold<S, T>(next: seq<S> -> Chunk<T>, src: seq<S>, room: Option<int>)
    requires src != [] && next(src).Piece? && next(src).extra < |src| && Fits(next(src).out, room)
    ensures Convert(next, src, room)
            == Prepend(next(src).extra + 1, next(src).out, Convert(next, src[next(src).extra + 1..], Less(room, |next(src).out|)))
  {
  }

  lemma DropDrop<S>(src: seq<S>, m: nat, n: nat)
    requires m + n <= |src|
    ensures src[m..][n..] == src[m + n..]
  {
  }

  /** A converter loop that has read `k` units and written `out` is on its way to the outcome `goal`. */
  ghost predicate OnTheWay<S, T>(goal: Outcome<T>, next: seq<S> -> Chunk<T>, src: seq<S>, room: Option<int>, k: nat, out: seq<T>) {
    k <= |src| && goal == Prepend(k, out, Convert(next, src[k..], Less(room, |out|)))
  }

  lemma Start<S, T>(next: seq<S> -> Chunk<T>, src: seq<S>, room: Option<int>)
    ensures OnTheWay(Convert(next, src, room), next, src, room, 0, [])
  {
    assert src[0..] == src && Less(room, 0) == room;
    assert [] + Convert(next, src, room).out == Convert(next, src, room).out;
  }

  lemma ConvertStep<S, T>(next: seq<S> -> Chunk<T>, src: seq<S>, room: Option<int>, k: nat, out: seq<T>, k': nat, piece: seq<T>)
    requires k < k' <= |src| && next(src[k..]) == Piece(k' - k - 1, piece)
    requires Fits(piece, Less(room, |out|))
    ensures Convert(next, src[k..], Less(room, |out|))
            == Prepend(k' - k, piece, Convert(next, src[k'..], Less(room, |out + piece|)))
  {
    Unfold(next, src[k..], Less(room, |out|));
    DropDrop(src, k, k' - k);
    LessLess(room, |out|, |piece|);
  }

  /** One more piece read, up to `k'`, and written. */
  lemma Advance<S, T>(goal: Outcome<T>, next: seq<S> -> Chunk<T>, src: seq<S>, room: Option<int>, k: nat, out: seq<T>, k': nat, piece: seq<T>)
    requires OnTheWay(goal, next, src, room, k, out)
    requires k < k' <= |src| && next(src[k..]) == Piece(k' - k - 1, piece)
    requires Fits(piece, Less(room, |out|))
    ensures OnTheWay(goal, next, src, room, k', out + piece)
  {
    var last := Convert(next, src[k'..], Less(room, |out + piece|));
    ConvertStep(next, src, room, k, out, k', piece);
    PrependTwice(k, out, Outcome(k' - k, piece, ConversionOk), last);
  }

  lemma LessLess(room: Option<int>, m: nat, n: nat)
    ensures Less(Less(room, m), n) == Less(room, m + n)
  {
  }

  /** The loop stops where the conversion stops. */
  lemma Finish<S, T>(goal: Outcome<T>, next: seq<S> -> Chunk<T>, src: seq<S>, room: Option<int>, k: nat, out: seq<T>, result: Result)
    requires OnTheWay(goal, next, src, room, k, out)
    requires Convert(next, src[k..], Less(room, |out|)) == Outcome(0, [], result)
    ensures goal == Outcome(k, out, result)
  {
    assert out + [] == out;
  }

  /** What a read of one code point must deliver: the code point, or the reason and the source unmoved. */
  ghost predicate ReadsOne(next: CodePoint, start: int, ch: bv32, source: int, result: Result) {
    match next
    case Char(extra, v) => result.ConversionOk? && ch == v && source == start + extra + 1
    case Cut => result.SourceExhausted? && source == start
    case Bad => result.SourceIllegal? && source == start
  }

  /** The room before targetEnd, if there is a target. */
  function Room<T>(dst: array?<T>, start: int, targetEnd: int): Option<int> {
    if dst == null then None else Some(targetEnd - start)
  }

  /** Where a converter's loop has got to: `k` units read and `out` written. */
  datatype Mark<T> = Mark(k: nat, out: seq<T>)

  /** One pass through a converter's loop: one more piece read and written. */
  ghost predicate Moves<S, T>(next: seq<S> -> Chunk<T>, src: seq<S>, room: Option<int>, a: Mark<T>, b: Mark<T>) {
    && a.k < b.k <= |src| && |a.out| <= |b.out|
    && next(src[a.k..]) == Piece(b.k - a.k - 1, b.out[|a.out|..])
    && b.out[..|a.out|] == a.out
    && Fits(b.out[|a.out|..], Less(room, |a.out|))
  }

  /** Why a converter's loop ends at `rest`. */
  ghost predicate Stops<S, T>(next: seq<S> -> Chunk<T>, rest: seq<S>, room: Option<int>, result: Result) {
    if rest == [] then result.ConversionOk?
    else
      match next(rest)
      case Short => result.SourceExhausted?
      case Illegal => result.SourceIllegal?
      case Piece(extra, out) => extra < |rest| && !Fits(out, room) && result.TargetExhausted?
  }

  lemma AtEnd<S, T>(next: seq<S> -> Chunk<T>, room: Option<int>)
    ensures Stops(next, [], room, ConversionOk)
  {
  }

  /** Pass number i, from mark i-1 to mark i. */
  ghost predicate PassMoves<S, T>(next: seq<S> -> Chunk<T>, src: seq<S>, room: Option<int>, marks: seq<Mark<T>>, i: nat)
    requires 0 < i < |marks|
  {
    Moves(next, src, room, marks[i - 1], marks[i])
  }

  /** The passes of a converter's loop so far. */
  ghost predicate Path<S, T>(next: seq<S> -> Chunk<T>, src: seq<S>, room: Option<int>, marks: seq<Mark<T>>) {
    && marks != [] && marks[0] == Mark(0, [])
    && forall i | 0 < i < |marks| :: PassMoves(next, src, room, marks, i)
  }

  lemma PathStarts<S, T>(next: seq<S> -> Chunk<T>, src: seq<S>, room: Option<int>)
    ensures Path(next, src, room, [Mark(0, [])])
  {
  }

  /** A pass that reads up to `k` and writes `piece` takes a path one mark further. */
  lemma PathGrows<S, T>(next: seq<S> -> Chunk<T>, src: seq<S>, room: Option<int>, marks: seq<Mark<T>>, last: Mark<T>, k: nat, piece: seq<T>)
    returns (longer: seq<Mark<T>>)
    requires Path(next, src, room, marks) && last == marks[|marks| - 1]
    requires last.k < k <= |src|
    requires next(src[last.k..]) == Piece(k - last.k - 1, piece) && Fits(piece, Less(room, |last.out|))
    ensures Path(next, src, room, longer) && |longer| > 0 && longer[|longer| - 1] == Mark(k, last.out + piece)
  {
    longer := marks + [Mark(k, last.out + piece)];
    assert (last.out + piece)[|last.out|..] == piece;
    assert (last.out + piece)[..|last.out|] == last.out;
    forall i | 0 < i < |longer| ensures PassMoves(next, src, room, longer, i) {
      if i < |marks| {
        assert PassMoves(next, src, room, marks, i);
      }
    }
  }

  lemma {:induction false} PathIsOnTheWay<S, T>(next: seq<S> -> Chunk<T>, src: seq<S>, room: Option<int>, marks: seq<Mark<T>>, i: nat)
    requires Path(next, src, room, marks) && i < |marks|
    ensures OnTheWay(Convert(next, src, room), next, src, room, marks[i].k, marks[i].out)
  {
    if i == 0 {
      Start(next, src, room);
    } else {
      PathIsOnTheWay(next, src, room, marks, i - 1);
      var a, b := marks[i - 1], marks[i];
      assert PassMoves(next, src, room, marks, i);
      assert a.out + b.out[|a.out|..] == b.out;
      Advance(Convert(next, src, room), next, src, room, a.k, a.out, b.k, b.out[|a.out|..]);
    }
  }

  /** A loop that passes through `marks` and then stops has computed the conversion. */
  lemma PathEnds<S, T>(next: seq<S> -> Chunk<T>, src: seq<S>, room: Option<int>, marks: seq<Mark<T>>, result: Result)
    requires Path(next, src, room, marks)
    requires var last := marks[|marks| - 1];
             last.k <= |src| && Stops(next, src[last.k..], Less(room, |last.out|), result)
    ensures Convert(next, src, room) == Outcome(marks[|marks| - 1].k, marks[|marks| - 1].out, result)
  {
    var last := marks[|marks| - 1];
    PathIsOnTheWay(next, src, room, marks, |marks| - 1);
    Finish(Convert(next, src, room), next, src, room, last.k, last.out, result);
  }

  /** Success means everything was read; only a given room can be exhausted, and it is never overrun. */
  lemma {:induction false} ConvertBounds<S, T>(next: seq<S> -> Chunk<T>, src: seq<S>, room: Option<int>)
    ensures var r := Convert(next, src, room);
            && r.consumed <= |src|
            && (r.result.ConversionOk? ==> r.consumed == |src|)
            && (r.result.TargetExhausted? ==> room.Some?)
            && (room.Some? ==> |r.out| <= room.value || r.out == [])
    decreases |src|
  {
    if src != [] && next(src).Piece? && next(src).extra < |src| && Fits(next(src).out, room) {
      ConvertBounds(next, src[next(src).extra + 1..], Less(room, |next(src).out|));
    }
  }

  /** The room needed for what is already written and some more. */
  function Plus(written: nat, more: Option<int>): Option<int> {
    if more.None? then None else Some(written + more.value)
  }

  /** The induction step of ResumeConcatenates, past a first piece that fits. */
  lemma ResumePastPiece<S, T>(next: seq<S> -> Chunk<T>, src: seq<S>, room: Option<int>, r: Outcome<T>, last: Outcome<T>)
    requires src != [] && next(src).Piece? && next(src).extra < |src| && Fits(next(src).out, room)
    requires Convert(next, src[next(src).extra + 1..], Less(room, |next(src).out|)) == Prepend(r.consumed, r.out, last)
    ensures Convert(next, src, room) == Prepend(next(src).extra + 1 + r.consumed, next(src).out + r.out, last)
  {
    Unfold(next, src, room);
    PrependTwice(next(src).extra + 1, next(src).out, r, last);
  }

  /** Converting into the combined room is what was done so far, `r`, followed by the rest of the source. */
  ghost predicate Continues<S, T>(next: seq<S> -> Chunk<T>, src: seq<S>, more: Option<int>, r: Outcome<T>) {
    && r.consumed < |src|
    && Convert(next, src, Plus(|r.out|, more)) == Prepend(r.consumed, r.out, Convert(next, src[r.consumed..], more))
  }

  lemma ContinuesHere<S, T>(next: seq<S> -> Chunk<T>, src: seq<S>, more: Option<int>)
    requires src != []
    ensures Continues(next, src, more, Outcome(0, [], TargetExhausted))
  {
    assert src[0..] == src && Plus(0, more) == more;
    assert [] + Convert(next, src, more).out == Convert(next, src, more).out;
  }

  lemma ContinuesPastPiece<S, T>(next: seq<S> -> Chunk<T>, src: seq<S>, more: Option<int>, r: Outcome<T>)
    requires src != [] && next(src).Piece? && next(src).extra < |src|
    requires more.Some? ==> more.value >= 0
    requires Continues(next, src[next(src).extra + 1..], more, r)
    ensures Continues(next, src, more, Prepend(next(src).extra + 1, next(src).out, r))
  {
    var Piece(extra, out) := next(src);
    DropDrop(src, extra + 1, r.consumed);
    ResumePastPiece(next, src, Plus(|out| + |r.out|, more), r, Convert(next, src[extra + 1..][r.consumed..], more));
  }

  /**
    Stopping on a full target loses nothing: going on from where the source was left, into any further
    room, appends up to the conversion into the combined room.
   */
  lemma {:induction false} ResumeConcatenates<S, T>(next: seq<S> -> Chunk<T>, src: seq<S>, room: int, more: Option<int>)
    requires more.Some? ==> more.value >= 0
    requires Convert(next, src, Some(room)).result.TargetExhausted?
    ensures Continues(next, src, more, Convert(next, src, Some(room)))
    decreases |src|
  {
    var Piece(extra, out) := next(src);
    if Fits(out, Some(room)) {
      ResumeConcatenates(next, src[extra + 1..], room - |out|, more);
      ContinuesPastPiece(next, src, more, Convert(next, src[extra + 1..], Some(room - |out|)));
    } else {
      ContinuesHere(next, src, more);
    }
  }

  /** Resuming over a whole list of fresh buffers, until one of them is not filled up. */
  ghost function ConvertInParts<S, T>(next: seq<S> -> Chunk<T>, src: seq<S>, rooms: seq<nat>): Outcome<T>
    decreases |rooms|
  {
    if rooms == [] then Outcome(0, [], TargetExhausted)
    else
      var r := Convert(next, src, Some(rooms[0]));
      if !r.result.TargetExhausted? then r
      else
        ConvertBounds(next, src, Some(rooms[0]));
        Prepend(r.consumed, r.out, ConvertInParts(next, src[r.consumed..], rooms[1..]))
  }

  /** However the target is cut into buffers, the parts concatenate to the one-shot conversion. */
  lemma {:induction false} PartsAreOneShot<S, T>(next: seq<S> -> Chunk<T>, src: seq<S>, rooms: seq<nat>)
    requires !ConvertInParts(next, src, rooms).result.TargetExhausted?
    ensures ConvertInParts(next, src, rooms) == Convert(next, src, None)
    decreases |rooms|
  {
    var r := Convert(next, src, Some(rooms[0]));
    ConvertBounds(next, src, Some(rooms[0]));
    if r.result.TargetExhausted? {
      ResumeConcatenates(next, src, rooms[0], None);
      PartsAreOneShot(next, src[r.consumed..], rooms[1..]);
    } else {
      RoomDecides(next, src, rooms[0]);
    }
  }

  /** The counting pass knows the room needed: with that much the outcome is the same, with less the target is exhausted. */
  lemma {:induction false} RoomDecides<S, T>(next: seq<S> -> Chunk<T>, src: seq<S>, room: nat)
    ensures var whole := Convert(next, src, None);
            if |whole.out| <= room
            then Convert(next, src, Some(room)) == whole
            else Convert(next, src, Some(room)).result.TargetExhausted?
    decreases |src|
  {
    if src != [] && next(src).Piece? && next(src).extra < |src| {
      var Piece(extra, out) := next(src);
      if Fits(out, Some(room)) {
        RoomDecides(next, src[extra + 1..], room - |out|);
      }
    }
  }

  /** A piece looks the same when the source is cut off after it. */
  ghost predicate Local<S(!new), T>(next: seq<S> -> Chunk<T>) {
    forall s: seq<S>, k: nat | k <= |s| && next(s).Piece? && next(s).extra < k :: next(s[..k]) == next(s)
  }

  lemma TakeDrop<S>(src: seq<S>, m: nat, n: nat)
    requires m + n <= |src|
    ensures src[..m + n][m..] == src[m..][..n]
  {
  }

  /** What has been read of `src` converts on its own to what has been written. */
  ghost predicate ConvertsAlone<S, T>(next: seq<S> -> Chunk<T>, src: seq<S>, r: Outcome<T>) {
    r.consumed <= |src| && Convert(next, src[..r.consumed], None) == Outcome(r.consumed, r.out, ConversionOk)
  }

  /** Dropping a first piece changes nothing about that, if the piece looks the same in what has been read. */
  lemma AlonePastPiece<S(!new), T>(next: seq<S> -> Chunk<T>, src: seq<S>, r: Outcome<T>)
    requires src != [] && next(src).Piece? && next(src).extra + 1 + r.consumed <= |src|
    requires next(src[..next(src).extra + 1 + r.consumed]) == next(src)
    ensures ConvertsAlone(next, src, Prepend(next(src).extra + 1, next(src).out, r))
            <==> ConvertsAlone(next, src[next(src).extra + 1..], r)
  {
    var Piece(extra, out) := next(src);
    var prefix := src[..extra + 1 + r.consumed];
    TakeDrop(src, extra + 1, r.consumed);
    Unfold(next, prefix, None);
    AppendCancels(out, Convert(next, src[extra + 1..][..r.consumed], None).out, r.out);
  }

  lemma AppendCancels<T>(a: seq<T>, b: seq<T>, c: seq<T>)
    ensures a + b == a + c ==> b == c
  {
    assert b == (a + b)[|a|..] && c == (a + c)[|a|..];
  }

  /** Wherever a conversion stops, what it has written is the whole conversion of what it has read. */
  lemma {:induction false} PrefixConverts<S(!new), T>(next: seq<S> -> Chunk<T>, src: seq<S>, room: Option<int>)
    requires Local(next)
    ensures ConvertsAlone(next, src, Convert(next, src, room))
    decreases |src|
  {
    if src != [] && next(src).Piece? && next(src).extra < |src| && Fits(next(src).out, room) {
      var rest, left := src[next(src).extra + 1..], Less(room, |next(src).out|);
      PrefixConverts(next, rest, left);
      assert next(src[..next(src).extra + 1 + Convert(next, rest, left).consumed]) == next(src);
      AlonePastPiece(next, src, Convert(next, rest, left));
    } else {
      assert src[..0] == [];
    }
  }

  /** Converters that agree on every source convert alike. */
  lemma {:induction false} SameChunksConvertAlike<S(!new), T>(f: seq<S> -> Chunk<T>, g: seq<S> -> Chunk<T>, src: seq<S>, room: Option<int>)
    requires forall s: seq<S> | s != [] :: f(s) == g(s)
    ensures Convert(f, src, room) == Convert(g, src, room)
    decreases |src|
  {
    if src != [] && f(src).Piece? && f(src).extra < |src| && Fits(f(src).out, room) {
      SameChunksConvertAlike(f, g, src[f(src).extra + 1..], Less(room, |f(src).out|));
    }
  }

  /** No piece writes more than `c` units for every unit it reads. */
  ghost predicate AtMost<S(!new), T>(next: seq<S> -> Chunk<T>, c: nat) {
    forall s: seq<S> | next(s).Piece? :: |next(s).out| <= c * (next(s).extra + 1)
  }

  lemma Distribute(c: int, m: int, n: int)
    ensures c * (m + n) == c * m + c * n
  {
  }

  /** Then no conversion does, wherever it stops. */
  lemma {:induction false} OutputBound<S(!new), T>(next: seq<S> -> Chunk<T>, src: seq<S>, room: Option<int>, c: nat)
    requires AtMost(next, c)
    ensures |Convert(next, src, room).out| <= c * Convert(next, src, room).consumed
    decreases |src|
  {
    if src != [] && next(src).Piece? && next(src).extra < |src| && Fits(next(src).out, room) {
      var rest, left := src[next(src).extra + 1..], Less(room, |next(src).out|);
      OutputBound(next, rest, left, c);
      Unfold(next, src, room);
      Distribute(c, next(src).extra + 1, Convert(next, rest, left).consumed);
    }
  }

  /** A target that was `d` now holds `out` from `start` on and is otherwise unchanged. */
  ghost predicate Written<T>(d: seq<T>, now: seq<T>, start: nat, out: seq<T>) {
    start + |out| <= |d| && now == d[..start] + out + d[start + |out|..]
  }

  lemma WrittenNothing<T>(d: seq<T>, start: nat)
    requires start <= |d|
    ensures Written(d, d, start, [])
  {
  }

  /** Writing `piece` right after `out`. */
  lemma WrittenMore<T>(d: seq<T>, now: seq<T>, start: nat, out: seq<T>, after: seq<T>, piece: seq<T>)
    requires Written(d, now, start, out) && Written(now, after, start + |out|, piece)
    ensures Written(d, after, start, out + piece)
  {
    assert now[..start + |out|] == d[..start] + out;
    assert now[start + |out| + |piece|..] == d[start + |out| + |piece|..];
  }
}
