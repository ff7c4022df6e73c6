/**
  The aligned allocator of libuzi/alignment.c over a heap of bytes. Sizes and pointers have 64 bits; the
  hidden header in front of a block is 24 bytes: a signature, padding, the size and the raw block's address.
 */
module Alignment {
  import opened Bits
  import opened Wrappers

  const HEADER: nat := 24
  const WORD_BYTES: nat := 8
  const SIGNATURE: nat := 0x0BA0BAB
  const NULL: nat := 0

  /** One more than the largest size_t. */
  function Limit(): nat { Pow2(64) }

  /** The alignment used: at least that of a pointer. */
  function Effective(alignment: nat): nat { if alignment < WORD_BYTES then WORD_BYTES else alignment }

  /** The size of the raw block. */
  function RawSize(size: nat, alignment: nat): nat { size + Effective(alignment) + HEADER }

  /** An address with the bits of a - 1 masked off, in 64 bits. */
  function Masked(x: nat, a: nat): nat
    requires 0 < a <= Limit()
  {
    And(x, Limit() - 1 - (a - 1))
  }

  predicate IsMultiple(x: int, a: nat) { a != 0 && x % a == 0 }

  lemma MaskedIs(x: nat, a: nat)
    requires x < Limit() && 0 < a <= Limit()
    ensures Masked(x, a) == x - And(x, a - 1)
  {
    AndNot(x, a - 1, 64);
  }

  lemma MaskedIsMultiple(x: nat, k: nat)
    requires x < Limit() && Pow2(k) <= Limit()
    ensures IsMultiple(Masked(x, Pow2(k)), Pow2(k))
  {
    MaskedIs(x, Pow2(k));
    AndLowBits(x, k);
    RoundDown(x, Pow2(k));
  }

  /** The address computed from a raw block at `base`: rounded down by masking, less the offset. */
  function Place(base: nat, alignment: nat, offset: nat): int
    requires 0 < alignment <= Limit()
  {
    Masked(base + alignment + offset + HEADER, alignment) - offset
  }

  /** For every even alignment the header and the block behind it lie inside the raw block. */
  lemma BlockFits(base: nat, size: nat, alignment: nat, offset: nat)
    requires offset < size && base + RawSize(size, alignment) <= Limit()
    ensures var p := Place(base, Effective(alignment), offset);
            base < p - HEADER && p + size <= base + RawSize(size, alignment)
  {
    MaskedIs(base + Effective(alignment) + offset + HEADER, Effective(alignment));
  }

  /** For a power of two the pointer plus the offset is aligned. */
  lemma PlaceIsAligned(base: nat, alignment: nat, k: nat, offset: nat)
    requires alignment == Pow2(k) && base + alignment + offset + HEADER < Limit()
    ensures IsMultiple(Place(base, alignment, offset) + offset, alignment)
  {
    var x := base + alignment + offset + HEADER;
    MaskedIsMultiple(x, k);
    assert Place(base, alignment, offset) == Masked(x, alignment) - offset;
  }

  ghost predicate PowerOfTwo(a: nat) { exists k: nat :: a == Pow2(k) }

  /** A power of two, or anything smaller than a pointer, becomes a power of two. */
  lemma EffectiveIsPower(alignment: nat)
    requires PowerOfTwo(alignment) || alignment < WORD_BYTES
    ensures PowerOfTwo(Effective(alignment))
  {
    if alignment < WORD_BYTES {
      assert Pow2(3) == 8;
    }
  }

  /**
    Pointer plus offset is a multiple of the alignment asked for, if that is a power of two, and of 8, for such an
    alignment and for any below 8.
   */
  ghost predicate WellPlaced(memblock: nat, alignment: nat, offset: nat) {
    && (PowerOfTwo(alignment) ==> IsMultiple(memblock + offset, alignment) && IsMultiple(memblock + offset, 8))
    && (alignment < 8 ==> IsMultiple(memblock + offset, 8))
  }

  lemma PartDivides(x: nat, a: nat, m: nat)
    requires a > 0 && m > 0 && x % (a * m) == 0
    ensures x % a == 0
  {
    var q := x / (a * m);
    assert x == q * (a * m);
    assert q * (a * m) == (q * m) * a;
    RemainderIs(x, a, q * m, 0);
  }

  lemma {:induction false} PowersDivide(x: nat, j: nat, k: nat)
    requires j <= k && IsMultiple(x, Pow2(k))
    ensures IsMultiple(x, Pow2(j))
  {
    if j < k {
      assert Pow2(k) == Pow2(k - 1) * 2;
      PartDivides(x, Pow2(k - 1), 2);
      PowersDivide(x, j, k - 1);
    }
  }

  lemma {:induction false} PowersGrow(j: nat, k: nat)
    requires j <= k
    ensures Pow2(j) <= Pow2(k)
  {
    if j < k { PowersGrow(j, k - 1); }
  }

  lemma EffectiveIsEnough(memblock: nat, alignment: nat, offset: nat)
    requires PowerOfTwo(alignment) || alignment < WORD_BYTES ==> IsMultiple(memblock + offset, Effective(alignment))
    ensures WellPlaced(memblock, alignment, offset)
  {
    assert Pow2(3) == 8;
    if PowerOfTwo(alignment) {
      var k: nat :| alignment == Pow2(k);
      if k < 3 {
        PowersGrow(k, 2);
        assert Pow2(2) == 4;
        PowersDivide(memblock + offset, k, 3);
      } else {
        PowersGrow(3, k);
        PowersDivide(memblock + offset, 3, k);
      }
    }
  }

  /** Where a block in a raw block at `base` goes. */
  method Locate(base: nat, size: nat, alignment: nat, effective: nat, offset: nat) returns (memblock: nat)
    requires offset < size && base + RawSize(size, alignment) <= Limit() && effective == Effective(alignment)
    ensures memblock == Place(base, Effective(alignment), offset) && WellPlaced(memblock, alignment, offset)
    ensures base < memblock - HEADER && memblock + size <= base + RawSize(size, alignment)
  {
    BlockFits(base, size, alignment, offset);
    memblock := Place(base, effective, offset);
    if PowerOfTwo(alignment) || alignment < WORD_BYTES {
      EffectiveIsPower(alignment);
      ghost var k: nat :| Effective(alignment) == Pow2(k);
      PlaceIsAligned(base, Effective(alignment), k, offset);
    }
    EffectiveIsEnough(memblock, alignment, offset);
  }

  // ---- memory ----

  type Memory = int -> Byte

  function Load(mem: Memory, a: int, n: nat): (s: seq<Byte>)
    ensures |s| == n
  {
    seq(n, i => mem(a + i))
  }

  function Store(mem: Memory, a: int, s: seq<Byte>): Memory {
    x => if a <= x < a + |s| then s[x - a] else mem(x)
  }

  lemma LoadStored(mem: Memory, a: int, s: seq<Byte>)
    ensures Load(Store(mem, a, s), a, |s|) == s
  {
  }

  lemma LoadSame(mem: Memory, mem': Memory, a: int, n: nat)
    requires forall x | a <= x < a + n :: mem(x) == mem'(x)
    ensures Load(mem, a, n) == Load(mem', a, n)
  {
  }

  function SigOf(mem: Memory, p: nat): nat { Value(Load(mem, p - 24, 4)) }
  function SizeOf(mem: Memory, p: nat): nat { Value(Load(mem, p - 16, 8)) }
  function BaseOf(mem: Memory, p: nat): nat { Value(Load(mem, p - 8, 8)) }

  /** The header of a block, written field by field. */
  function WithHeader(mem: Memory, p: nat, size: nat, base: nat): Memory {
    var mem1 := Store(mem, p - 24, LittleEndian(SIGNATURE, 4));
    var mem2 := Store(mem1, p - 8, LittleEndian(base, 8));
    Store(mem2, p - 16, LittleEndian(size, 8))
  }

  lemma {:induction false} Pow256Is(n: nat)
    ensures Pow256(n) == Pow2(8 * n)
  {
    if n > 0 {
      Pow256Is(n - 1);
      var e := 8 * (n - 1);
      assert Pow2(e + 1) == 2 * Pow2(e) && Pow2(e + 2) == 4 * Pow2(e);
      assert Pow2(e + 3) == 8 * Pow2(e) && Pow2(e + 4) == 16 * Pow2(e);
      assert Pow2(e + 5) == 32 * Pow2(e) && Pow2(e + 6) == 64 * Pow2(e);
      assert Pow2(e + 7) == 128 * Pow2(e) && Pow2(e + 8) == 256 * Pow2(e);
    }
  }

  lemma FieldsFit()
    ensures SIGNATURE < Pow256(4) && Pow256(8) == Limit()
  {
    Pow256Is(8);
    assert Pow256(1) == 256 && Pow256(2) == 0x1_0000 && Pow256(3) == 0x100_0000;
  }

  /** A header reads back as written, and nothing but the header is touched. */
  lemma HeaderReadsBack(mem: Memory, p: nat, size: nat, base: nat)
    requires size < Limit() && base < Limit()
    ensures var now := WithHeader(mem, p, size, base);
            && SigOf(now, p) == SIGNATURE && SizeOf(now, p) == size && BaseOf(now, p) == base
            && forall x | x < p - HEADER || p <= x :: now(x) == mem(x)
  {
    FieldsFit();
    LittleEndianHolds(SIGNATURE, 4);
    LittleEndianHolds(size, 8);
    LittleEndianHolds(base, 8);
    var mem1 := Store(mem, p - 24, LittleEndian(SIGNATURE, 4));
    var mem2 := Store(mem1, p - 8, LittleEndian(base, 8));
    var now := WithHeader(mem, p, size, base);
    LoadStored(mem, p - 24, LittleEndian(SIGNATURE, 4));
    LoadStored(mem1, p - 8, LittleEndian(base, 8));
    LoadStored(mem2, p - 16, LittleEndian(size, 8));
    LoadSame(mem1, now, p - 24, 4);
    LoadSame(mem2, now, p - 8, 8);
  }

  // ---- raw blocks and the blocks handed out ----

  /** A block handed out: its size and the raw block it lies in. */
  datatype Alloc = Alloc(size: nat, base: nat)

  /** Two address ranges have nothing in common. */
  predicate Disjoint(a: int, m: int, b: int, n: int) { a + m <= b || b + n <= a }

  ghost predicate DisjointBlocks(blocks: map<nat, nat>) {
    && (forall a | a in blocks :: blocks[a] > 0)
    && forall a, b | a in blocks && b in blocks && a != b :: Disjoint(a, blocks[a], b, blocks[b])
  }

  /** A block handed out at p, with its header, lies inside its own raw block, and its header is intact. */
  ghost predicate Intact(blocks: map<nat, nat>, mem: Memory, p: nat, alloc: Alloc) {
    && alloc.base in blocks
    && alloc.base < p - HEADER && p + alloc.size <= alloc.base + blocks[alloc.base]
    && SigOf(mem, p) == SIGNATURE && SizeOf(mem, p) == alloc.size && BaseOf(mem, p) == alloc.base
  }

  ghost predicate Ok(blocks: map<nat, nat>, mem: Memory, live: map<nat, Alloc>) {
    && DisjointBlocks(blocks)
    && (forall p | p in live :: Intact(blocks, mem, p, live[p]))
    && (forall p, q | p in live && q in live && p != q :: live[p].base != live[q].base)
  }

  /** malloc's promise: a range that is in no block and in the address space, or nothing. */
  ghost predicate Honest(malloc: nat -> Option<nat>, blocks: map<nat, nat>) {
    forall n: nat | malloc(n).Some? ::
      && 0 < malloc(n).value && malloc(n).value + n <= Limit()
      && forall b | b in blocks :: Disjoint(malloc(n).value, n, b, blocks[b])
  }

  lemma HeaderSame(mem: Memory, mem': Memory, p: nat)
    requires forall x | p - HEADER <= x < p :: mem(x) == mem'(x)
    ensures SigOf(mem, p) == SigOf(mem', p) && SizeOf(mem, p) == SizeOf(mem', p) && BaseOf(mem, p) == BaseOf(mem', p)
  {
    LoadSame(mem, mem', p - 24, 4);
    LoadSame(mem, mem', p - 16, 8);
    LoadSame(mem, mem', p - 8, 8);
  }

  /** Handing out a block in a new raw block disturbs nothing. */
  lemma AllocKeeps(blocks: map<nat, nat>, mem: Memory, live: map<nat, Alloc>, base: nat, total: nat, p: nat, size: nat, mem': Memory)
    requires Ok(blocks, mem, live) && size > 0
    requires forall b | b in blocks :: Disjoint(base, total, b, blocks[b])
    requires base < p - HEADER && p + size <= base + total
    requires SigOf(mem', p) == SIGNATURE && SizeOf(mem', p) == size && BaseOf(mem', p) == base
    requires forall x | x < p - HEADER || p <= x :: mem'(x) == mem(x)
    ensures base !in blocks && p !in live
    ensures Ok(blocks[base := total], mem', live[p := Alloc(size, base)])
  {
    assert base in blocks ==> !Disjoint(base, total, base, blocks[base]);
    forall q | q in live ensures q != p && Intact(blocks[base := total], mem', q, live[q]) {
      assert Intact(blocks, mem, q, live[q]);
      assert Disjoint(base, total, live[q].base, blocks[live[q].base]);
      HeaderSame(mem, mem', q);
    }
  }

  /** So does freeing the raw block of a block handed out. */
  lemma FreeKeeps(blocks: map<nat, nat>, mem: Memory, live: map<nat, Alloc>, p: nat)
    requires Ok(blocks, mem, live) && p in live
    ensures Ok(blocks - {live[p].base}, mem, live - {p})
  {
    forall q | q in live - {p} ensures Intact(blocks - {live[p].base}, mem, q, (live - {p})[q]) {
      assert Intact(blocks, mem, q, live[q]);
    }
  }

  /** And so does writing inside a block handed out: no header and no other block is touched. */
  lemma WriteKeeps(blocks: map<nat, nat>, mem: Memory, live: map<nat, Alloc>, p: nat, mem': Memory)
    requires Ok(blocks, mem, live) && p in live
    requires forall x | x < p || p + live[p].size <= x :: mem'(x) == mem(x)
    ensures Ok(blocks, mem', live)
    ensures forall q | q in live && q != p :: Load(mem', q, live[q].size) == Load(mem, q, live[q].size)
  {
    assert Intact(blocks, mem, p, live[p]);
    forall q | q in live ensures Intact(blocks, mem', q, live[q]) {
      OtherBlock(blocks, mem, live, p, q);
      HeaderSame(mem, mem', q);
    }
    forall q | q in live && q != p ensures Load(mem', q, live[q].size) == Load(mem, q, live[q].size) {
      OtherBlock(blocks, mem, live, p, q);
      LoadSame(mem', mem, q, live[q].size);
    }
  }

  /** Headers lie outside all blocks handed out, and those outside each other. */
  lemma OtherBlock(blocks: map<nat, nat>, mem: Memory, live: map<nat, Alloc>, p: nat, q: nat)
    requires Ok(blocks, mem, live) && p in live && q in live
    ensures Disjoint(p, live[p].size, q - HEADER, HEADER)
    ensures q != p ==> Disjoint(p, live[p].size, q, live[q].size)
  {
    assert Intact(blocks, mem, p, live[p]) && Intact(blocks, mem, q, live[q]);
    if q != p { assert Disjoint(live[p].base, blocks[live[p].base], live[q].base, blocks[live[q].base]); }
  }

  /** What a call asks of malloc can be had, and does not wrap around. */
  predicate InRange(size: nat, alignment: nat) { RawSize(size, alignment) < Limit() }

  /** Is a request answered with a block at all? */
  predicate Granted(size: nat, alignment: nat, offset: nat, malloc: nat -> Option<nat>) {
    alignment % 2 == 0 && offset < size && malloc(RawSize(size, alignment)).Some?
  }

  /** The smaller of two sizes. */
  function Min(a: nat, b: nat): nat { if a < b then a else b }

  class Heap {
    var blocks: map<nat, nat>
    var mem: Memory
    /** What has been handed out and not freed. */
    ghost var live: map<nat, Alloc>

    ghost predicate Valid()
      reads this
    {
      Ok(blocks, mem, live)
    }

    /** The bytes of a block. */
    ghost function Contents(p: nat): seq<Byte>
      requires p in live
      reads this
    {
      Load(mem, p, live[p].size)
    }

    /** A pointer that a caller may pass: null, a block handed out, or anything without the signature in front. */
    ghost predicate Passable(memblock: nat)
      reads this
    {
      memblock != NULL && SigOf(mem, memblock) == SIGNATURE ==> memblock in live
    }

    /** The header of a block in a new raw block is written, and the block is handed out. */
    method HandOut(memblock: nat, size: nat, base: nat, total: nat)
      requires Valid() && 0 < size < Limit() && base < Limit()
      requires forall b | b in blocks :: Disjoint(base, total, b, blocks[b])
      requires base < memblock - HEADER && memblock + size <= base + total
      modifies this
      ensures Valid()
      ensures base !in old(blocks) && blocks == old(blocks)[base := total]
      ensures memblock !in old(live) && live == old(live)[memblock := Alloc(size, base)]
      ensures forall p | p in old(live) :: Contents(p) == old(Contents(p))
    {
      ghost var mem0 := mem;
      HeaderReadsBack(mem, memblock, size, base);
      mem := Store(mem, memblock - 24, LittleEndian(SIGNATURE, 4));
      mem := Store(mem, memblock - 8, LittleEndian(base, 8));
      mem := Store(mem, memblock - 16, LittleEndian(size, 8));
      AllocKeeps(blocks, mem0, live, base, total, memblock, size, mem);
      ContentsKept(blocks, mem0, live, base, total, memblock, mem);
      blocks := blocks[base := total];
      live := live[memblock := Alloc(size, base)];
    }

    /** _aligned_offset_malloc. */
    method AlignedOffsetMalloc(size: nat, alignment: nat, offset: nat, malloc: nat -> Option<nat>) returns (memblock: nat)
      requires Valid() && Honest(malloc, blocks) && InRange(size, alignment)
      modifies this
      ensures Valid()
      ensures memblock == 0 <==>
                alignment % 2 == 1 || offset >= size || malloc(size + (if alignment < 8 then 8 else alignment) + 24).None?
      ensures !Granted(size, alignment, offset, malloc) ==>
                memblock == NULL && blocks == old(blocks) && mem == old(mem) && live == old(live)
      ensures Granted(size, alignment, offset, malloc) ==>
                var base := malloc(RawSize(size, alignment)).value;
                && memblock == Place(base, Effective(alignment), offset) && memblock != NULL
                && WellPlaced(memblock, alignment, offset)
                && base !in old(blocks) && blocks == old(blocks)[base := RawSize(size, alignment)]
                && memblock !in old(live) && live == old(live)[memblock := Alloc(size, base)]
                && forall p | p in old(live) :: Contents(p) == old(Contents(p))
    {
      if alignment % 2 == 1 {
        return NULL;
      }
      if offset >= size {
        return NULL;
      }
      var effective := alignment;
      if effective < WORD_BYTES {
        effective := WORD_BYTES;
      }
      var total := size + effective + HEADER;
      var raw := malloc(total);
      if raw == None {
        return NULL;
      }
      var base := raw.value;
      memblock := Locate(base, size, alignment, effective, offset);
      HandOut(memblock, size, base, total);
    }

    /** _aligned_msize. */
    method AlignedMsize(memblock: nat) returns (size: nat)
      requires Valid() && Passable(memblock)
      ensures size == if memblock in live then live[memblock].size else 0
    {
      if memblock in live { assert Intact(blocks, mem, memblock, live[memblock]); }
      if memblock == NULL {
        return 0;
      }
      if SigOf(mem, memblock) != SIGNATURE {
        return 0;
      }
      size := SizeOf(mem, memblock);
    }

    /** _aligned_free: the raw block is freed at its true base. */
    method AlignedFree(memblock: nat)
      requires Valid() && Passable(memblock)
      modifies this`blocks, this`live
      ensures Valid()
      ensures memblock in old(live) ==> blocks == old(blocks) - {old(live)[memblock].base} && live == old(live) - {memblock}
      ensures memblock !in old(live) ==> blocks == old(blocks) && live == old(live)
    {
      if memblock in live { assert Intact(blocks, mem, memblock, live[memblock]); }
      if memblock == NULL {
        return;
      }
      if SigOf(mem, memblock) != SIGNATURE {
        return;
      }
      FreeKeeps(blocks, mem, live, memblock);
      blocks := blocks - {BaseOf(mem, memblock)};
      live := live - {memblock};
    }

    /** A caller's write into its own block, or CopyMemory's. */
    method Write(p: nat, s: seq<Byte>)
      requires Valid() && p in live && |s| <= live[p].size
      modifies this`mem
      ensures Valid() && Contents(p) == s + old(Contents(p))[|s|..]
      ensures forall q | q in live && q != p :: Contents(q) == old(Contents(q))
    {
      WriteKeeps(blocks, mem, live, p, Store(mem, p, s));
      mem := Store(mem, p, s);
    }

    /** CopyMemory from one block to another. */
    method Copy(to: nat, from: nat, n: nat)
      requires Valid() && to in live && from in live && to != from && n <= live[to].size && n <= live[from].size
      modifies this`mem
      ensures Valid() && Contents(to)[..n] == old(Contents(from))[..n]
      ensures forall q | q in live && q != to :: Contents(q) == old(Contents(q))
    {
      ghost var source := Contents(from)[..n];
      assert Load(mem, from, n) == source;
      Write(to, Load(mem, from, n));
      assert Contents(to)[..n] == source;
    }

    /** The end of _aligned_offset_realloc: the block's bytes are copied to the new one, and it is freed. */
    method Move(memblock: nat, newMemblock: nat)
      requires Valid() && memblock in live && newMemblock in live && memblock != newMemblock
      modifies this
      ensures Valid() && blocks == old(blocks) - {old(live)[memblock].base} && live == old(live) - {memblock}
      ensures var n := Min(live[newMemblock].size, old(live)[memblock].size);
              Contents(newMemblock)[..n] == old(Contents(memblock))[..n]
      ensures forall q | q in live && q != newMemblock :: Contents(q) == old(Contents(q))
    {
      assert Intact(blocks, mem, memblock, live[memblock]);
      assert Intact(blocks, mem, newMemblock, live[newMemblock]);
      var newSize, oldSize := SizeOf(mem, newMemblock), SizeOf(mem, memblock);
      var copySize := if newSize < oldSize then newSize else oldSize;
      Copy(newMemblock, memblock, copySize);
      HeaderStill(memblock);
      AlignedFree(memblock);
    }

    /** _aligned_offset_realloc of a block handed out, to a size other than 0. */
    method Reallocate(memblock: nat, size: nat, alignment: nat, offset: nat, malloc: nat -> Option<nat>) returns (newMemblock: nat)
      requires Valid() && Honest(malloc, blocks) && InRange(size, alignment) && memblock in live && size > 0
      modifies this
      ensures Valid()
      ensures !Granted(size, alignment, offset, malloc) ==>
                newMemblock == NULL && blocks == old(blocks) && live == old(live) && mem == old(mem)
      ensures Granted(size, alignment, offset, malloc) ==>
                var base := malloc(RawSize(size, alignment)).value;
                && newMemblock == Place(base, Effective(alignment), offset) && newMemblock !in old(live)
                && live == old(live)[newMemblock := Alloc(size, base)] - {memblock}
                && blocks == old(blocks)[base := RawSize(size, alignment)] - {old(live)[memblock].base}
                && newMemblock in live
                && var n := Min(size, old(live)[memblock].size);
                   Contents(newMemblock)[..n] == old(Contents(memblock))[..n]
      ensures forall p | p in old(live) && p in live :: Contents(p) == old(Contents(p))
    {
      newMemblock := AlignedOffsetMalloc(size, alignment, offset, malloc);
      if newMemblock == NULL {
        return NULL;
      }
      Move(memblock, newMemblock);
    }

    /**
      _aligned_offset_realloc. On success the first bytes, as many as both sizes have, are kept, and the
      allocation has one raw block, the new one; when no new block can be had everything is left alone.
     */
    method AlignedOffsetRealloc(memblock: nat, size: nat, alignment: nat, offset: nat, malloc: nat -> Option<nat>)
      returns (newMemblock: nat)
      requires Valid() && Honest(malloc, blocks) && InRange(size, alignment) && Passable(memblock)
      modifies this
      ensures Valid()
      ensures memblock in old(live) && size == 0 ==>
                newMemblock == NULL && blocks == old(blocks) - {old(live)[memblock].base} && live == old(live) - {memblock}
      ensures (memblock != NULL && memblock !in old(live)) || (size > 0 && !Granted(size, alignment, offset, malloc)) ==>
                newMemblock == NULL && blocks == old(blocks) && live == old(live) && mem == old(mem)
      ensures memblock == NULL && Granted(size, alignment, offset, malloc) ==>
                var base := malloc(RawSize(size, alignment)).value;
                && newMemblock == Place(base, Effective(alignment), offset) && newMemblock !in old(live)
                && live == old(live)[newMemblock := Alloc(size, base)]
                && blocks == old(blocks)[base := RawSize(size, alignment)]
      ensures memblock in old(live) && size > 0 && Granted(size, alignment, offset, malloc) ==>
                var base := malloc(RawSize(size, alignment)).value;
                && newMemblock == Place(base, Effective(alignment), offset) && newMemblock !in old(live)
                && live == old(live)[newMemblock := Alloc(size, base)] - {memblock}
                && blocks == old(blocks)[base := RawSize(size, alignment)] - {old(live)[memblock].base}
                && newMemblock in live
                && var n := Min(size, old(live)[memblock].size);
                   Contents(newMemblock)[..n] == old(Contents(memblock))[..n]
      ensures forall p | p in old(live) && p in live :: Contents(p) == old(Contents(p))
    {
      if memblock in live { HeaderStill(memblock); }
      if memblock == NULL {
        newMemblock := AlignedOffsetMalloc(size, alignment, offset, malloc);
        return;
      }
      if SigOf(mem, memblock) != SIGNATURE {
        return NULL;
      }
      if size == 0 {
        AlignedFree(memblock);
        return NULL;
      }
      newMemblock := Reallocate(memblock, size, alignment, offset, malloc);
    }

    /** A block handed out still has its signature. */
    lemma HeaderStill(memblock: nat)
      requires Valid() && memblock in live
      ensures SigOf(mem, memblock) == SIGNATURE && BaseOf(mem, memblock) == live[memblock].base && memblock != NULL
    {
      assert Intact(blocks, mem, memblock, live[memblock]);
    }
  }

  lemma ContentsKept(blocks: map<nat, nat>, mem: Memory, live: map<nat, Alloc>, base: nat, total: nat, p: nat, mem': Memory)
    requires Ok(blocks, mem, live)
    requires forall b | b in blocks :: Disjoint(base, total, b, blocks[b])
    requires base < p - HEADER && p <= base + total
    requires forall x | x < p - HEADER || p <= x :: mem'(x) == mem(x)
    ensures forall q | q in live :: Load(mem', q, live[q].size) == Load(mem, q, live[q].size)
  {
    forall q | q in live ensures Load(mem', q, live[q].size) == Load(mem, q, live[q].size) {
      assert Intact(blocks, mem, q, live[q]);
      assert Disjoint(base, total, live[q].base, blocks[live[q].base]);
      LoadSame(mem', mem, q, live[q].size);
    }
  }
}
