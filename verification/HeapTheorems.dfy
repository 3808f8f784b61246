/**
 What the heap invariant means: the allocator's own consistency checks, the tiling of the arena,
 and what a caller may rely on (uboot/common/dlmalloc.c).
 */
module HeapTheorems {
  import opened HeapLayout
  import opened HeapRings
  import opened HeapTiles
  import opened HeapModel
  import opened HeapMoves
  import opened HeapOps
  import opened HeapResize

  // ---- the routines do_check_... as predicates on memory -------------------------------------

  function SizeOf(m: Mem, p: int): int { Head(m, p) - Head(m, p) % 2 }

  predicate InUseBit(m: Mem, p: int) { PrevInUse(m, p + SizeOf(m, p)) }

  predicate CheckChunk(m: Mem, p: int, sbrkBase: int, sbrkedMem: int)
  {
    && Head(m, p) / 2 % 2 == 0 && p >= sbrkBase
    && if p != W(m, TOP) then p + SizeOf(m, p) <= W(m, TOP) else p + SizeOf(m, p) <= sbrkBase + sbrkedMem
  }

  predicate CheckFreeChunk(m: Mem, p: int, sbrkBase: int, sbrkedMem: int)
  {
    var sz := SizeOf(m, p);
    var next := p + sz;
    && CheckChunk(m, p, sbrkBase, sbrkedMem) && !InUseBit(m, p)
    && if sz >= MINSIZE then
         && sz % 8 == 0 && (p + 8) % 8 == 0 && W(m, next) == sz && PrevInUse(m, p)
         && (next == W(m, TOP) || InUseBit(m, next)) && Bk(m, Fd(m, p)) == p && Fd(m, Bk(m, p)) == p
       else sz == 4
  }

  predicate CheckInUseChunk(m: Mem, p: int, sbrkBase: int, sbrkedMem: int)
  {
    var next := p + ChunkSize(m, p);
    && CheckChunk(m, p, sbrkBase, sbrkedMem) && InUseBit(m, p)
    && (!PrevInUse(m, p) ==>
          p - W(m, p) + ChunkSize(m, p - W(m, p)) == p && CheckFreeChunk(m, p - W(m, p), sbrkBase, sbrkedMem))
    && if next == W(m, TOP) then PrevInUse(m, next) && ChunkSize(m, next) >= MINSIZE
       else InUseBit(m, next) || CheckFreeChunk(m, next, sbrkBase, sbrkedMem)
  }

  predicate CheckMallocedChunk(m: Mem, p: int, s: int, sbrkBase: int, sbrkedMem: int)
  {
    var sz := SizeOf(m, p);
    && CheckInUseChunk(m, p, sbrkBase, sbrkedMem)
    && sz >= MINSIZE && sz % 8 == 0 && 0 <= sz - s < MINSIZE && (p + 8) % 8 == 0 && PrevInUse(m, p)
  }

  lemma ChecksChunk(h: Heap, p: int)
    requires HeapOK(h) && p in h.chunks
    ensures CheckChunk(h.mem, p, h.base, h.brk - h.base) && SizeOf(h.mem, p) == h.chunks[p].size == ChunkSize(h.mem, p)
    ensures W(h.mem, TOP) == h.top && h.top in h.chunks
  {
    Open(h);
    ChunkFacts(h, p);
    ChunkSizeIs(h, p);
    SecondBit(h.chunks[p].size, TagBit(h.mem, p));
    if p != h.top { Disjoint(h.chunks, h.base, h.brk, h.top, p, h.top); }
  }

  lemma SecondBit(size: int, b: int)
    requires size % 8 == 0 && 0 <= b <= 1
    ensures (size + b) / 2 % 2 == 0 && size + b - (size + b) % 2 == size
  {
    var q := size / 8;
    assert size + b == 2 * (4 * q) + b;
    assert (size + b) / 2 == 2 * (2 * q);
  }

  lemma ChecksFreeChunk(h: Heap, p: int)
    requires HeapOK(h) && p in h.chunks && h.chunks[p].status.Free?
    ensures CheckFreeChunk(h.mem, p, h.base, h.brk - h.base)
  {
    ChecksChunk(h, p);
    ChunkFacts(h, p);
    var next := p + h.chunks[p].size;
    ChunkFacts(h, next);
    ChecksChunk(h, next);
    var k := BinFacts(h, p);
    var i := h.chunks[p].status.bin;
    BinWalk(h, i, k);
    BinWalk(h, i, k + 1);
    assert Node(BinAt(i), h.bins[i], k) == p;
  }

  lemma ChecksInUseChunk(h: Heap, p: int)
    requires HeapOK(h) && Live(h, p)
    ensures CheckInUseChunk(h.mem, p, h.base, h.brk - h.base)
  {
    ChecksChunk(h, p);
    ChunkFacts(h, p);
    var next := p + h.chunks[p].size;
    ChunkFacts(h, next);
    ChecksChunk(h, next);
    if !PrevInUse(h.mem, p) {
      PrevFacts(h, p);
      ChecksChunk(h, p - W(h.mem, p));
      ChecksFreeChunk(h, p - W(h.mem, p));
    }
    if h.chunks[next].status.Free? { ChecksFreeChunk(h, next); }
  }

  /** Every chunk passes the check for its kind. */
  lemma ChecksPass(h: Heap, p: int)
    requires HeapOK(h) && p in h.chunks
    ensures CheckChunk(h.mem, p, h.base, h.brk - h.base)
    ensures h.chunks[p].status.Free? ==> CheckFreeChunk(h.mem, p, h.base, h.brk - h.base)
    ensures h.chunks[p].status == InUse ==> CheckInUseChunk(h.mem, p, h.base, h.brk - h.base)
  {
    ChecksChunk(h, p);
    match h.chunks[p].status
    case Free(_) => ChecksFreeChunk(h, p);
    case InUse => ChecksInUseChunk(h, p);
    case Top =>
  }

  lemma ChecksMalloced(h: Heap, g: Heap, p: int, nb: int)
    requires HeapOK(g) && Allocated(h, g, p, nb)
    ensures CheckMallocedChunk(g.mem, p, nb, g.base, g.brk - g.base)
  {
    ChunkFacts(g, p);
    ChecksChunk(g, p);
    ChecksInUseChunk(g, p);
  }

  // ---- tiling ----------------------------------------------------------------------------------

  /** The chunks from p up to `top`, in the order of their addresses. */
  ghost function ChunksFrom(h: Heap, p: int): (l: seq<int>)
    requires HeapOK(h) && p in h.chunks
    decreases h.brk - p
  {
    ChunkFacts(h, p);
    if p == h.top then [p] else [p] + ChunksFrom(h, p + h.chunks[p].size)
  }

  ghost function Total(c: Chunks, l: seq<int>): int
  {
    if l == [] then 0 else (if l[0] in c then c[l[0]].size else 0) + Total(c, l[1..])
  }

  /** The sizes of all chunks add up to the memory obtained from `sbrk`. */
  lemma {:induction false} SizesSum(h: Heap, p: int)
    requires HeapOK(h) && p in h.chunks
    ensures Total(h.chunks, ChunksFrom(h, p)) == h.brk - p
    decreases h.brk - p
  {
    ChunkFacts(h, p);
    if p != h.top { SizesSum(h, p + h.chunks[p].size); }
  }

  /** The walk over the arena passes every chunk. */
  lemma {:induction false} WalkVisits(h: Heap, p: int, q: int)
    requires HeapOK(h) && p in h.chunks && q in h.chunks && p <= q
    ensures q in ChunksFrom(h, p)
    decreases h.brk - p
  {
    ChunkFacts(h, p);
    ChunkFacts(h, q);
    if p != q {
      Apartness(h, p, q);
      WalkVisits(h, p + h.chunks[p].size, q);
    }
  }

  lemma Apartness(h: Heap, p: int, q: int)
    requires HeapOK(h) && p in h.chunks && q in h.chunks && p != q
    ensures p + h.chunks[p].size <= q || q + h.chunks[q].size <= p
  {
    Open(h);
    Disjoint(h.chunks, h.base, h.brk, h.top, p, q);
  }

  ghost predicate Covers(h: Heap, p: int, a: int) { p in h.chunks && p <= a < p + h.chunks[p].size }

  lemma {:induction false} FindCover(h: Heap, p: int, a: int) returns (q: int)
    requires HeapOK(h) && p in h.chunks && p <= a < h.brk
    ensures Covers(h, q, a)
    decreases h.brk - p
  {
    ChunkFacts(h, p);
    if a < p + h.chunks[p].size {
      q := p;
    } else {
      q := FindCover(h, p + h.chunks[p].size, a);
    }
  }

  /** Every address of the arena lies in exactly one chunk. */
  lemma ArenaTiled(h: Heap, a: int)
    requires HeapOK(h)
    ensures h.base <= a < h.brk <==> exists p :: Covers(h, p, a)
    ensures forall p, q :: Covers(h, p, a) && Covers(h, q, a) ==> p == q
    ensures h.base in h.chunks && Total(h.chunks, ChunksFrom(h, h.base)) == h.brk - h.base
    ensures forall q :: q in h.chunks ==> q in ChunksFrom(h, h.base)
  {
    BaseChunk(h);
    if h.base <= a < h.brk { var q := FindCover(h, h.base, a); }
    if p :| Covers(h, p, a) { ChunkFacts(h, p); }
    forall p, q | Covers(h, p, a) && Covers(h, q, a) ensures p == q {
      if p != q { Apartness(h, p, q); }
    }
    SizesSum(h, h.base);
    forall q | q in h.chunks ensures q in ChunksFrom(h, h.base) {
      ChunkFacts(h, q);
      WalkVisits(h, h.base, q);
    }
  }

  lemma BaseChunk(h: Heap)
    requires HeapOK(h)
    ensures h.base in h.chunks && h.top in h.chunks
  {
    Open(h);
  }

  /** No two chunks that are out of use touch. */
  lemma NoFreeNeighbours(h: Heap, p: int)
    requires HeapOK(h) && p in h.chunks && h.chunks[p].status != InUse
    ensures p == h.top || Live(h, p + h.chunks[p].size)
    ensures PrevInUse(h.mem, p)
  {
    ChunkFacts(h, p);
  }

  /** When nothing is allocated, `top` is all there is. */
  lemma OnlyTopRemains(h: Heap)
    requires HeapOK(h) && forall p :: !Live(h, p)
    ensures h.top == h.base && h.chunks == map[h.base := Chunk(h.brk - h.base, Top)]
    ensures forall i :: 0 <= i < NAV ==> h.bins[i] == []
  {
    BaseChunk(h);
    ChunkFacts(h, h.base);
    NoFreeNeighbours(h, h.base);
    assert h.top == h.base;
    forall q | q in h.chunks ensures q == h.base {
      ChunkFacts(h, q);
      if q != h.base { Apartness(h, h.base, q); }
    }
    forall i | 0 <= i < NAV ensures h.bins[i] == [] {
      if |h.bins[i]| > 0 { BinHead(h, i); }
    }
  }

  lemma BinHead(h: Heap, i: int)
    requires HeapOK(h) && 0 <= i < NAV && |h.bins[i]| > 0
    ensures h.bins[i][0] in h.chunks && h.chunks[h.bins[i][0]].status == Free(i)
  {
    Open(h);
  }

  // ---- what a caller of malloc may rely on ------------------------------------------------------

  /** The bytes of the block at p that belong to its user. */
  ghost function Usable(h: Heap, p: int): int { if p in h.chunks then h.chunks[p].size - 4 else 0 }

  /** The user's bytes of different blocks do not overlap. */
  ghost predicate BlocksDisjoint(h: Heap, p: int, q: int)
  {
    p + 8 + Usable(h, p) <= q + 8 || q + 8 + Usable(h, q) <= p + 8
  }

  /** A new block is aligned, inside the arena and disjoint from every other block; it has room for the
      request exactly up to MAX_REQUEST; and no other block has moved or changed. */
  lemma MallocPromise(h: Heap, g: Heap, r: int, bytes: int)
    requires HeapOK(g) && 0 <= bytes < TWO31 && Allocated(h, g, r - 8, Request2Size(bytes))
    ensures r % 8 == 0 && g.base <= r - 8 && r + Usable(g, r - 8) <= g.brk - 12
    ensures Usable(g, r - 8) >= bytes <==> bytes <= MAX_REQUEST
    ensures forall q {:trigger Live(h, q)} ::
              Live(h, q) ==> q != r - 8 && Live(g, q) && KeptBlock(h, g, q) && BlocksDisjoint(g, r - 8, q)
  {
    ChunkFacts(g, r - 8);
    ChunkFacts(g, r - 8 + g.chunks[r - 8].size);
    Request2SizeFits(bytes);
    forall q | Live(h, q) ensures q != r - 8 && Live(g, q) && KeptBlock(h, g, q) && BlocksDisjoint(g, r - 8, q) {
      assert KeptBlock(h, g, q);
      Apartness(g, r - 8, q);
    }
  }

  /** Blocks in use never overlap. */
  lemma LiveDisjoint(h: Heap, p: int, q: int)
    requires HeapOK(h) && Live(h, p) && Live(h, q) && p != q
    ensures BlocksDisjoint(h, p, q)
  {
    Apartness(h, p, q);
  }

  // ---- where the arithmetic fails -----------------------------------------------------------------

  /** What realloc stores when it finds enough room in `top` (lines 2601-2604) */
  function IntoTop(m: Mem, p: int, nb: int, newsize: int): Mem
  {
    Store(Store(Store(m, TOP, p + nb), p + nb + 4, newsize - nb + 1), p + 4, Head(m, p) % 2 + nb)
  }

  /** A block that borders `top` is to grow to a size whose sum with MINSIZE reaches the sign bit: the test for
      room in `top` is passed, and what is stored then is no heap of this arena. */
  lemma TopTestBreaks(h: Heap, p: int, nb: int, g: Heap)
    requires HeapOK(h) && Live(h, p) && p + h.chunks[p].size == h.top && TWO31 - MINSIZE <= nb < TWO31
    ensures h.top in h.chunks && h.chunks[p].size < nb && h.chunks[p].size + h.chunks[h.top].size == h.brk - p >= 0 &&
            AtLeast(h.brk - p, nb + MINSIZE)
    ensures g.mem == IntoTop(h.mem, p, nb, h.brk - p) && g.base == h.base && g.limit == h.limit ==> !HeapOK(g)
  {
    Open(h);
    ChunkFacts(h, p);
    ChunkFacts(h, h.top);
    TopTestWraps(h.brk - p, nb);
    if HeapOK(g) {
      Open(g);
      ChunkFacts(g, g.top);
    }
  }

  /** malloc_trim is to give back so much that less than a minimal chunk is left of `top`: what it stores then is no
      heap of this arena, wherever the break is. */
  lemma TrimBreaks(h: Heap, extra: int, g: Heap)
    requires HeapOK(h) && 0 < extra < TWO31 && extra % 8 == 0 && extra + MINSIZE > h.brk - h.top
    ensures g.mem == Store(h.mem, h.top + 4, (h.brk - h.top - extra) % TWO32 + 1) && g.base == h.base &&
            g.limit == h.limit ==>
              !HeapOK(g)
  {
    Open(h);
    ChunkFacts(h, h.top);
    var size := h.brk - h.top - extra;
    if g.mem == Store(h.mem, h.top + 4, size % TWO32 + 1) && HeapOK(g) {
      Open(g);
      ChunkFacts(g, g.top);
      SumAligned(h.brk - h.top, extra);
      WrappedSize(size);
    }
  }

  lemma WrappedSize(size: int)
    requires -TWO31 < size < MINSIZE && size % 8 == 0
    ensures var s := size % TWO32; (s < MINSIZE || s > MAX_ARENA) && s % 8 == 0
  {
    if size >= 0 { assert size % TWO32 == size; } else { assert size % TWO32 == size + TWO32; }
  }

  /** The sums that do not fit belong to requests far larger than the chunk that is allocated for them. */
  lemma UnfitIsLarge(k: nat, nb: int)
    requires 4 <= k < 32 && MINSIZE <= nb <= 0x7FFF_FFF8 && nb % 8 == 0 && !AlignedRequestFits(Pow2(k), nb)
    ensures nb >= 2 * MINSIZE
  {
    PowGrows(4, k);
    Pow2Of31();
    if k < 31 {
      PowGrows(k, 30);
    }
  }

  /** Whenever the sum of memalign does not fit, the chunk that it obtains is smaller than the request. */
  lemma UnfitTooSmall(h: Heap, g: Heap, p: int, k: nat, nb: int)
    requires 4 <= k < 32 && MINSIZE <= nb <= 0x7FFF_FFF8 && nb % 8 == 0 && !AlignedRequestFits(Pow2(k), nb)
    requires Allocated(h, g, p, Request2Size(AlignedRequest(Pow2(k), nb)))
    ensures g.chunks[p].size < nb
  {
    PowGrows(4, k);
    PowGrows(k, 31);
    Pow2Of31();
    UnfitIsLarge(k, nb);
    AlignedRequestRoom(Pow2(k), nb);
  }

  // ---- a first heap ------------------------------------------------------------------------------

  /** The words of a heap with an empty `top` chunk: bins linked to themselves. */
  function InitialWord(start: int, size: int, a: int): int
  {
    if a == TOP then start
    else if AV + 16 <= a < AV_END then a - a % 8 - 8
    else if a == start + 4 then size + 1
    else 0
  }

  ghost predicate Initial(h: Heap)
  {
    && AV_END <= h.base && h.base % 8 == 0 && h.brk <= h.limit < TWO32 && h.brk - h.base < MAX_ARENA
    && MINSIZE <= h.brk - h.base && (h.brk - h.base) % 8 == 0 && Roomy(h.mem, h.limit)
    && (forall a {:trigger W(h.mem, a)} ::
          0 <= a < h.limit && a % 4 == 0 ==> W(h.mem, a) == InitialWord(h.base, h.brk - h.base, a))
    && h.top == h.base && h.chunks == map[h.base := Chunk(h.brk - h.base, Top)] && h.bins == seq(NAV, _ => [])
  }

  lemma InitialRings(h: Heap)
    requires Initial(h)
    ensures Linked(h.mem, h.bins)
  {
    forall i | 1 <= i < NAV ensures Ring(h.mem, BinAt(i), h.bins[i]) {
      InitialLinks(h, i);
      assert JoinedAt(h.mem, BinAt(i), [], 0);
    }
    LinkedIf(h.mem, h.bins);
  }

  lemma InitialLinks(h: Heap, i: int)
    requires Initial(h) && 1 <= i < NAV
    ensures Fd(h.mem, BinAt(i)) == BinAt(i) && Bk(h.mem, BinAt(i)) == BinAt(i) && h.bins[i] == []
  {
  }

  lemma InitialTiles(h: Heap)
    requires Initial(h)
    ensures Geometry(h.chunks, h.base, h.brk, h.top) && Filed(h.chunks, h.bins)
  {
  }

  lemma InitialTags(h: Heap)
    requires Initial(h)
    ensures Tagged(h.mem, h.chunks, h.top) && W(h.mem, TOP) == h.top && W(h.mem, BINBLOCKS) == 0
  {
    assert Head(h.mem, h.base) == h.brk - h.base + 1 by { WordAligned(h.base); }
    TagParity(h.brk - h.base, true);
  }

  lemma InitialOK(h: Heap)
    requires Initial(h)
    ensures HeapOK(h)
  {
    InitialRings(h);
    InitialTiles(h);
    InitialTags(h);
    assert Pow2(32) >= 1;
    Close(h);
  }
}
