/**
 Growing and shrinking blocks in place: the states realloc and memalign pass through.
 */
module HeapResize {
  import opened HeapLayout
  import opened HeapRings
  import opened HeapTiles
  import opened HeapModel
  import opened HeapMoves
  import opened HeapOps

  /** Memory m shows the heap g, except that the payload of block p may hold anything and that the
      size of p, and the use bit of p in its successor, are not written yet. */
  ghost predicate Pending(m: Mem, g: Heap, p: int)
  {
    && HeapOK(g) && Live(g, p) && Roomy(m, g.limit) && p + g.chunks[p].size in g.chunks
    && (forall a {:trigger W(m, a)} ::
          a != p + 4 && a != p + g.chunks[p].size + 4 && !(p + 8 <= a < p + g.chunks[p].size + 4) ==>
              W(m, a) == W(g.mem, a))
    && PrevInUse(m, p) == PrevInUse(g.mem, p)
    && Head(m, p + g.chunks[p].size) - Head(m, p + g.chunks[p].size) % 2 == g.chunks[p + g.chunks[p].size].size
  }

  /** The words of m below the limit hi of the payload of p are in n. */
  ghost predicate SamePayload(m: Mem, n: Mem, p: int, hi: int)
  {
    forall a {:trigger W(n, a)} :: p + 8 <= a < hi ==> W(n, a) == W(m, a)
  }

  /** Writing size and use bit of p completes a pending heap. */
  lemma CompleteBlock(m: Mem, g: Heap, p: int, n: Mem) returns (f: Heap)
    requires Pending(m, g, p) && Roomy(n, g.limit)
    requires var e := p + g.chunks[p].size;
      forall a {:trigger W(n, a)} ::
        W(n, a) == if a == p + 4 then g.chunks[p].size + TagBit(m, p) else if a == e + 4 then g.chunks[e].size + 1
            else W(m, a)
    ensures f == g.(mem := n) && HeapOK(f) && Kept(g, f, {p}) && SameLive(g, f)
    ensures SamePayload(m, n, p, p + g.chunks[p].size + 4)
  {
    var e := p + g.chunks[p].size;
    ChunkFacts(g, p);
    ChunkFacts(g, e);
    f := g.(mem := n);
    assert Scribbled(g, p, n) by {
      forall a ensures W(n, a) == W(g.mem, a) || Idle(g, p, a) { }
    }
    ScribbleOK(g, p, n);
    forall q ensures Live(f, q) <==> Live(g, q) { }
  }

  /** Cutting a pending block in two gives two blocks in use. */
  lemma CutBlock(m: Mem, g: Heap, p: int, nb: int, n: Mem) returns (f: Heap)
    requires Pending(m, g, p) && Roomy(n, g.limit) && CanSplit(g, p, nb)
    requires var e, r := p + g.chunks[p].size, p + nb;
      forall a {:trigger W(n, a)} :: W(n, a) == if a == p + 4 then nb + TagBit(m, p) else if a == r + 4 then e - r + 1
                                               else if a == e + 4 then g.chunks[e].size + 1 else W(m, a)
    ensures f == g.(mem := n, chunks := Cut(g.chunks, p, nb)) && HeapOK(f) && Kept(g, f, {p})
    ensures p + nb !in g.chunks && Live(f, p) && Live(f, p + nb) && SamePayload(m, n, p, p + nb + 4)
    ensures forall q {:trigger Live(f, q)} :: Live(f, q) <==> Live(g, q) || q == p + nb
  {
    var e, r := p + g.chunks[p].size, p + nb;
    ChunkFacts(g, p);
    ChunkFacts(g, e);
    var m1 := Store(Store(m, p + 4, g.chunks[p].size + TagBit(m, p)), e + 4, g.chunks[e].size + 1);
    var g1 := CompleteBlock(m, g, p, m1);
    CompleteTag(g, g1, p);
    var g2 := SplitStep(g1, p, nb);
    assert SameWords(g2.mem, n) by {
      forall a ensures W(n, a) == W(g2.mem, a) { }
    }
    SameWordsOK(g2, n);
    KeptTwice(g, g1, g2, {p}, {p});
    KeptWords(g, g2, n, {p} + {p});
    f := g2.(mem := n);
    forall q ensures Live(f, q) <==> Live(g, q) || q == r { }
  }

  lemma CompleteTag(g: Heap, g1: Heap, p: int)
    requires HeapOK(g1) && p in g1.chunks && p in g.chunks && Head(g1.mem, p) == g1.chunks[p].size + TagBit(g.mem, p)
    ensures PrevInUse(g1.mem, p) == PrevInUse(g.mem, p)
  {
    ChunkFacts(g1, p);
    TagParity(g1.chunks[p].size, PrevInUse(g.mem, p));
  }

  // ---- what realloc promises -------------------------------------------------------------------

  ghost predicate CopiedAt(m: Mem, n: Mem, src: int, dst: int, d: int) { W(n, dst + d) == W(m, src + d) }

  /** The words of the len bytes at src in m are at dst in n. */
  ghost predicate Copied(m: Mem, n: Mem, src: int, dst: int, len: int)
  {
    forall d {:trigger CopiedAt(m, n, src, dst, d)} :: 0 <= d < len && d % 4 == 0 ==> CopiedAt(m, n, src, dst, d)
  }

  ghost function Min(a: int, b: int): int { if a <= b then a else b }

  /** The block oldp of h is now the block newp of f, with room for nb bytes and less than MINSIZE more, and with the
      contents of the old block as far as both reach; no other block has changed. */
  ghost predicate Reallocated(h: Heap, f: Heap, oldp: int, newp: int, nb: int)
  {
    && Live(h, oldp) && Live(f, newp) && (newp != oldp ==> !Live(h, newp))
    && nb <= f.chunks[newp].size < nb + MINSIZE
    && Kept(h, f, {oldp})
    && (forall q {:trigger Live(f, q)} {:trigger Live(h, q)} :: Live(f, q) <==> (Live(h, q) && q != oldp) || q == newp)
    && Copied(h.mem, f.mem, oldp + 8, newp + 8, Min(h.chunks[oldp].size, nb) - 4)
  }

  /** From q on, what lies before e and the chunk at e have room for nb bytes, and for a remainder if e is `top`. */
  ghost predicate RoomFrom(h: Heap, q: int, e: int, nb: int)
  {
    e in h.chunks &&
    if e == h.top then h.brk - q >= nb + MINSIZE else h.chunks[e].status.Free? && e + h.chunks[e].size - q >= nb
  }

  /** The free chunk q lies before p, and together with it, or with what follows p too, there is room. */
  ghost predicate RoomBefore(h: Heap, p: int, q: int, nb: int)
    requires p in h.chunks
  {
    && q in h.chunks && h.chunks[q].status.Free? && q + h.chunks[q].size == p
    && var e := p + h.chunks[p].size; e - q >= nb || RoomFrom(h, q, e, nb)
  }

  /** The block p and its neighbours have room for nb bytes. */
  ghost predicate InPlace(h: Heap, p: int, nb: int)
  {
    p in h.chunks &&
    (h.chunks[p].size >= nb || RoomFrom(h, p, p + h.chunks[p].size, nb) || exists q :: RoomBefore(h, p, q, nb))
  }

  /** Where a block that is resized ends up: it stays if it has room there, with what follows it if need be; else it
      moves to the start of the free chunk before it if that gives room. */
  ghost predicate Settled(h: Heap, oldp: int, newp: int, nb: int)
  {
    oldp in h.chunks &&
    if h.chunks[oldp].size >= nb || RoomFrom(h, oldp, oldp + h.chunks[oldp].size, nb) then newp == oldp
    else forall q {:trigger RoomBefore(h, oldp, q, nb)} :: RoomBefore(h, oldp, q, nb) ==> newp == q
  }

  /** The chunk before p, if it is free, is the one that its footer leads to. */
  lemma OnlyBefore(h: Heap, p: int, q: int, nb: int)
    requires HeapOK(h) && p in h.chunks && RoomBefore(h, p, q, nb)
    ensures !PrevInUse(h.mem, p) && q == p - W(h.mem, p)
  {
    ChunkFacts(h, q);
  }

  /** The block p of g is cut down to nb bytes or less than MINSIZE more. */
  ghost predicate Trimmed(g: Heap, f: Heap, p: int, nb: int)
  {
    Live(f, p) && nb <= f.chunks[p].size < nb + MINSIZE && Kept(g, f, {p}) && SameLive(g, f)
  }

  lemma CutThenFreed(g: Heap, f: Heap, e: Heap, p: int, nb: int)
    requires Kept(g, f, {p}) && Live(f, p) && f.chunks[p].size == nb && nb > 0
    requires forall q {:trigger Live(f, q)} :: Live(f, q) <==> Live(g, q) || q == p + nb
    requires Freed(f, e, p + nb) && !Live(g, p + nb)
    ensures Trimmed(g, e, p, nb) && SamePayload(f.mem, e.mem, p, p + nb + 4)
  {
    KeptTwice(g, f, e, {p}, {p + nb});
    assert KeptBlock(f, e, p);
    forall q | Live(g, q) && q != p ensures KeptBlock(g, e, q) { assert q !in {p} + {p + nb}; }
    forall q ensures Live(e, q) <==> Live(g, q) { assert Live(e, q) <==> Live(f, q) && q != p + nb; }
  }

  /** From the pending heap g that stands for h, with the old contents in place, to the promise. */
  lemma ReallocatedBy(h: Heap, g: Heap, f: Heap, m: Mem, oldp: int, newp: int, nb: int)
    requires Live(h, oldp) && Kept(h, g, {oldp}) && Trimmed(g, f, newp, nb)
    requires newp != oldp ==> !Live(h, newp)
    requires forall q {:trigger Live(g, q)} {:trigger Live(h, q)} ::
               Live(g, q) <==> (Live(h, q) && q != oldp) || q == newp
    requires Copied(h.mem, m, oldp + 8, newp + 8, Min(h.chunks[oldp].size, nb) - 4)
    requires SamePayload(m, f.mem, newp, newp + nb + 4)
    ensures Reallocated(h, f, oldp, newp, nb)
  {
    KeptTwice(h, g, f, {oldp}, {newp});
    forall q | Live(h, q) && q != oldp ensures KeptBlock(h, f, q) { assert q !in {oldp} + {newp}; }
    forall q ensures Live(f, q) <==> (Live(h, q) && q != oldp) || q == newp { assert Live(f, q) <==> Live(g, q); }
    var len := Min(h.chunks[oldp].size, nb) - 4;
    forall d | 0 <= d < len && d % 4 == 0 ensures CopiedAt(h.mem, f.mem, oldp + 8, newp + 8, d) {
      assert CopiedAt(h.mem, m, oldp + 8, newp + 8, d);
      assert W(f.mem, newp + 8 + d) == W(m, newp + 8 + d);
    }
  }

  // ---- taking neighbours in, without writing heads ------------------------------------------------

  /** Block p of g stands for block p0 of h. */
  ghost predicate StandsFor(h: Heap, g: Heap, p0: int, p: int)
  {
    && Kept(h, g, {p0}) && SameArena(h, g) && g.top == h.top && Live(h, p0) && (p != p0 ==> !Live(h, p))
    && (forall q {:trigger Live(g, q)} {:trigger Live(h, q)} :: Live(g, q) <==> (Live(h, q) && q != p0) || q == p)
  }

  lemma PendingSelf(h: Heap, p: int)
    requires HeapOK(h) && Live(h, p)
    ensures Pending(h.mem, h, p) && StandsFor(h, h, p, p)
  {
    ChunkFacts(h, p);
    ChunkFacts(h, p + h.chunks[p].size);
    ChunkSizeIs(h, p + h.chunks[p].size);
    RoomyOf(h);
    forall q | Live(h, q) ensures KeptBlock(h, h, q) { }
  }

  /** The links of a binned chunk lie outside the payload of block q. */
  lemma OffPayload(h: Heap, x: int, k: nat, q: int, y: int)
    requires HeapOK(h) && InBin(h, x, k) && Live(h, q) && (y == Bk(h.mem, x) || y == Fd(h.mem, x))
    ensures y + 12 < q + 8 || q + h.chunks[q].size + 4 <= y + 8
  {
    NeighbourFacts(h, x, k, q);
    Open(h);
    LinksOffPayload(h.chunks, h.base, h.brk, h.top, q, y);
  }

  lemma PendingNext(h: Heap, p: int, n: int, k: nat, m: Mem) returns (g: Heap)
    requires HeapOK(h) && Live(h, p) && InBin(h, n, k) && p + h.chunks[p].size == n && Roomy(m, h.limit)
    requires forall a {:trigger W(m, a)} :: W(m, a) == W(Bypass(h.mem, Bk(h.mem, n), Fd(h.mem, n)), a)
    ensures Pending(m, g, p) && StandsFor(h, g, p, p)
    ensures g.chunks == (h.chunks - {n})[p := Chunk(h.chunks[p].size + h.chunks[n].size, InUse)] &&
            g.bins == Unfiled(h, n, k)
    ensures SamePayload(h.mem, m, p, p + h.chunks[p].size + 4)
  {
    ChunkFacts(h, p);
    ChunkFacts(h, n);
    var e := n + h.chunks[n].size;
    ChunkFacts(h, e);
    ChunkSizeIs(h, e);
    g := AbsorbNext(h, p, n, k);
    NeighbourFacts(h, n, k, p);
    NeighbourFacts(h, n, k, e);
    OffPayload(h, n, k, p, Bk(h.mem, n));
    OffPayload(h, n, k, p, Fd(h.mem, n));
    forall q ensures Live(g, q) <==> Live(h, q) { }
  }

  lemma PendingBack(g0: Heap, p: int, q: int, k: nat, m: Mem, n: Mem) returns (g: Heap)
    requires Pending(m, g0, p) && InBin(g0, q, k) && q + g0.chunks[q].size == p && Roomy(n, g0.limit)
    requires Bk(m, q) == Bk(g0.mem, q) && Fd(m, q) == Fd(g0.mem, q)
    requires forall a {:trigger W(n, a)} ::
               W(n, a) == (if a == Bk(m, q) + 8 then Fd(m, q) else if a == Fd(m, q) + 12 then Bk(m, q) else W(m, a))
    ensures Pending(n, g, q) && StandsFor(g0, g, p, q) && g.chunks[q].size == g0.chunks[q].size + g0.chunks[p].size
    ensures SamePayload(m, n, p, p + g0.chunks[p].size + 4)
    ensures Head(n, p + g0.chunks[p].size) == Head(m, p + g0.chunks[p].size)
  {
    var e := p + g0.chunks[p].size;
    ChunkFacts(g0, p);
    ChunkFacts(g0, q);
    ChunkFacts(g0, e);
    g := AbsorbPrev(g0, p, q, k);
    PendingBackLink(g0, q, k, p, e, Bk(g0.mem, q));
    PendingBackLink(g0, q, k, p, e, Fd(g0.mem, q));
    PendingBackWords(g0, g, p, q, e, m, n, Bk(m, q), Fd(m, q));
    forall x ensures Live(g, x) <==> (Live(g0, x) && x != p) || x == q { }
  }

  lemma PendingBackLink(g: Heap, q: int, k: nat, p: int, e: int, y: int)
    requires HeapOK(g) && InBin(g, q, k) && Live(g, p) && e in g.chunks && (y == Bk(g.mem, q) || y == Fd(g.mem, q))
    ensures y % 8 == 0 && e != y + 8 && q != y + 8 && (y + 12 < p + 8 || p + g.chunks[p].size + 4 <= y + 8)
  {
    NeighbourFacts(g, q, k, p);
    LinkAddresses(g, e, y);
    LinkAddresses(g, q, y);
    OffPayload(g, q, k, p, y);
  }

  lemma PendingBackWords(g0: Heap, g: Heap, p: int, q: int, e: int, m: Mem, n: Mem, b: int, f: int)
    requires Pending(m, g0, p) && HeapOK(g) && Live(g, q) && q in g0.chunks && e == p + g0.chunks[p].size &&
             Roomy(n, g.limit)
    requires g.chunks[q].size == e - q && e in g.chunks && g.chunks[e] == g0.chunks[e] && PrevInUse(g.mem, q)
    requires Head(g0.mem, q) == p - q + 1 && (p - q) % 8 == 0 && q % 8 == 0 && p % 8 == 0 && e % 8 == 0 &&
             p - q >= MINSIZE && e - p >= MINSIZE
    requires SameWords(Store(Bypass(g0.mem, b, f), q + 4, e - q + 1), g.mem)
    requires forall a {:trigger W(n, a)} :: W(n, a) == (if a == b + 8 then f else if a == f + 12 then b else W(m, a))
    requires b % 8 == 0 && e != b + 8 && q != b + 8 && (b + 12 < p + 8 || e + 4 <= b + 8)
    requires f % 8 == 0 && e != f + 8 && q != f + 8 && (f + 12 < p + 8 || e + 4 <= f + 8)
    ensures Pending(n, g, q) && SamePayload(m, n, p, e + 4) && Head(n, e) == Head(m, e)
  {
    forall a | a != q + 4 && a != e + 4 && !(q + 8 <= a < e + 4) ensures W(n, a) == W(g.mem, a) {
      assert W(m, a) == W(g0.mem, a);
    }
    assert Head(m, q) == Head(g0.mem, q);
    assert Head(n, q) == Head(m, q) && Head(n, e) == Head(m, e);
    TagParity(p - q, true);
  }

  lemma StandsForTwice(h: Heap, g: Heap, f: Heap, p0: int, p: int, q: int)
    requires StandsFor(h, g, p0, p) && StandsFor(g, f, p, q)
    ensures StandsFor(h, f, p0, q)
  {
    KeptTwice(h, g, f, {p0}, {p});
    forall x | Live(h, x) && x != p0 ensures KeptBlock(h, f, x) { assert x !in {p0} + {p}; }
    forall x ensures Live(f, x) <==> (Live(h, x) && x != p0) || x == q {
      assert Live(g, x) <==> (Live(h, x) && x != p0) || x == p;
    }
  }

  /** The boundary with `top` moves: the block keeps its contents. */
  lemma GrownIntoTop(h: Heap, f: Heap, p: int, nb: int)
    requires Live(h, p) && Kept(h, f, {p}) && SameLive(h, f) && p in f.chunks && f.chunks[p].size == nb &&
             h.chunks[p].size < nb
    requires SamePayload(h.mem, f.mem, p, p + h.chunks[p].size + 4)
    ensures Reallocated(h, f, p, p, nb)
  {
    assert Live(f, p);
    forall d | 0 <= d < h.chunks[p].size - 4 && d % 4 == 0 ensures CopiedAt(h.mem, f.mem, p + 8, p + 8, d) {
      assert W(f.mem, p + 8 + d) == W(h.mem, p + 8 + d);
    }
  }

  lemma SameIsCopied(m: Mem, n: Mem, p: int, len: int)
    requires SamePayload(m, n, p, p + 8 + len)
    ensures Copied(m, n, p + 8, p + 8, len)
  {
    forall d | 0 <= d < len && d % 4 == 0 ensures CopiedAt(m, n, p + 8, p + 8, d) {
      assert W(n, p + 8 + d) == W(m, p + 8 + d);
    }
  }

  /** Copying from memory m, which shows the old payload of h, copies that payload. */
  lemma CopiedFrom(h: Mem, m: Mem, n: Mem, p: int, q: int, len: int)
    requires SamePayload(h, m, p, p + 8 + len) && Copied(m, n, p + 8, q + 8, len)
    ensures Copied(h, n, p + 8, q + 8, len)
  {
    forall d | 0 <= d < len && d % 4 == 0 ensures CopiedAt(h, n, p + 8, q + 8, d) {
      assert CopiedAt(m, n, p + 8, q + 8, d) && W(m, p + 8 + d) == W(h, p + 8 + d);
    }
  }

  /** The block moved back into free space before it, up to `top`, keeps its contents there. */
  lemma MovedIntoTop(h: Heap, g: Heap, f: Heap, m: Mem, p: int, q: int, nb: int)
    requires StandsFor(h, g, p, q) && Kept(g, f, {q}) && SameLive(g, f) && q in f.chunks && f.chunks[q].size == nb &&
             h.chunks[p].size < nb
    requires Copied(h.mem, m, p + 8, q + 8, h.chunks[p].size - 4) && SamePayload(m, f.mem, q, q + nb + 4) && q != p
    ensures Reallocated(h, f, p, q, nb)
  {
    ReallocatedBy(h, g, f, m, p, q, nb);
  }

  /** The words after a pending block before `top` took nb bytes and gave the rest to `top`. */
  ghost function ShiftWord(m: Mem, p: int, nb: int, rest: int, a: int): int
  {
    if a == TOP then p + nb
    else if a == p + nb + 4 then rest + 1
    else if a == p + 4 then nb + TagBit(m, p)
    else W(m, a)
  }

  lemma ShiftPending(m: Mem, g: Heap, p: int, nb: int, n: Mem) returns (f: Heap)
    requires Pending(m, g, p) && p + g.chunks[p].size == g.top && Head(m, g.top) == g.chunks[g.top].size + 1
    requires nb % 8 == 0 && MINSIZE <= nb && p + nb + MINSIZE <= g.brk && Roomy(n, g.limit)
    requires forall a {:trigger W(n, a)} :: W(n, a) == ShiftWord(m, p, nb, g.brk - p - nb, a)
    ensures HeapOK(f) && Kept(g, f, {p}) && SameLive(g, f) && SameArena(g, f) && f.mem == n && f.top == p + nb
    ensures p in f.chunks && f.chunks[p].size == nb
  {
    var e := g.top;
    ChunkFacts(g, p);
    ChunkFacts(g, e);
    var m1 := Store(Store(m, p + 4, g.chunks[p].size + TagBit(m, p)), e + 4, g.chunks[e].size + 1);
    var g1 := CompleteBlock(m, g, p, m1);
    CompleteTag(g, g1, p);
    var g2 := ShiftTopStep(g1, p, nb);
    assert SameWords(g2.mem, n) by {
      forall a ensures W(n, a) == W(g2.mem, a) { }
    }
    SameWordsOK(g2, n);
    KeptTwice(g, g1, g2, {p}, {p});
    KeptWords(g, g2, n, {p} + {p});
    f := g2.(mem := n);
    forall q ensures Live(f, q) <==> Live(g, q) { assert Live(g2, q) <==> Live(g1, q); }
  }

  /** A new block, the old contents copied there, the old block freed. */
  lemma CopiedAway(h: Heap, h1: Heap, h2: Heap, f: Heap, oldp: int, newp: int, nb: int)
    requires Live(h, oldp) && Allocated(h, h1, newp, nb) && Kept(h1, h2, {newp}) && h2.chunks == h1.chunks &&
             Freed(h2, f, oldp)
    requires Copied(h1.mem, h2.mem, oldp + 8, newp + 8, h.chunks[oldp].size - 4) && h.chunks[oldp].size < nb
    ensures Reallocated(h, f, oldp, newp, nb)
  {
    assert oldp != newp;
    assert KeptBlock(h, h1, oldp);
    assert Live(h2, newp);
    assert KeptBlock(h2, f, newp);
    KeptTwice(h, h1, h2, {}, {newp});
    KeptTwice(h, h2, f, {} + {newp}, {oldp});
    forall q | Live(h, q) && q != oldp ensures KeptBlock(h, f, q) { assert q !in {} + {newp} + {oldp}; }
    forall q ensures Live(f, q) <==> (Live(h, q) && q != oldp) || q == newp { assert Live(h2, q) <==> Live(h1, q); }
    forall d | 0 <= d < h.chunks[oldp].size - 4 && d % 4 == 0 ensures CopiedAt(h.mem, f.mem, oldp + 8, newp + 8, d) {
      assert CopiedAt(h1.mem, h2.mem, oldp + 8, newp + 8, d);
      assert W(h1.mem, oldp + 8 + d) == W(h.mem, oldp + 8 + d);
      assert W(f.mem, newp + 8 + d) == W(h2.mem, newp + 8 + d);
    }
  }

  /** The new block turned out to follow the old one: together they are one pending block. */
  lemma PendingPair(h: Heap, h1: Heap, oldp: int, newp: int, nb: int) returns (g: Heap)
    requires HeapOK(h) && HeapOK(h1) && Live(h, oldp) && Allocated(h, h1, newp, nb) &&
             newp == oldp + h.chunks[oldp].size && SameLimits(h, h1)
    ensures Pending(h1.mem, g, oldp) && Kept(h, g, {oldp}) &&
            g.chunks[oldp].size == h.chunks[oldp].size + h1.chunks[newp].size
    ensures forall q {:trigger Live(g, q)} {:trigger Live(h, q)} :: Live(g, q) <==> Live(h, q)
    ensures SameArena(h1, g) && g.top == h1.top && SamePayload(h.mem, h1.mem, oldp, oldp + h.chunks[oldp].size + 4)
  {
    assert KeptBlock(h, h1, oldp);
    ChunkFacts(h1, oldp);
    ChunkFacts(h1, newp);
    var e := newp + h1.chunks[newp].size;
    ChunkFacts(h1, e);
    ChunkSizeIs(h1, e);
    RoomyOf(h1);
    g := JoinStep(h1, oldp);
    KeptTwice(h, h1, g, {}, {oldp, newp});
    forall q | Live(h, q) && q != oldp ensures KeptBlock(h, g, q) { assert q !in {} + {oldp, newp}; }
    forall q ensures Live(g, q) <==> Live(h, q) { }
  }

  ghost predicate SameLimits(h: Heap, g: Heap) { g.base == h.base && g.limit == h.limit }

  lemma PairReallocated(h: Heap, g: Heap, f: Heap, m: Mem, p: int, nb: int)
    requires Live(h, p) && Kept(h, g, {p}) && Trimmed(g, f, p, nb) && SameLive(h, g) && h.chunks[p].size <= nb
    requires SamePayload(h.mem, m, p, p + h.chunks[p].size + 4) && SamePayload(m, f.mem, p, p + nb + 4)
    ensures Reallocated(h, f, p, p, nb)
  {
    SameIsCopied(h.mem, m, p, h.chunks[p].size - 4);
    ReallocatedBy(h, g, f, m, p, p, nb);
  }

  // ---- memalign ------------------------------------------------------------------------------------

  /** A block of at least nb and less than nb + MINSIZE bytes at p is new; nothing else has changed. */
  ghost predicate Placed(h: Heap, f: Heap, p: int, nb: int)
  {
    && Live(f, p) && !Live(h, p) && nb <= f.chunks[p].size < nb + MINSIZE && Kept(h, f, {})
    && (forall q {:trigger Live(f, q)} {:trigger Live(h, q)} :: Live(f, q) <==> Live(h, q) || q == p)
  }

  /** Block p of g is new since h; nothing else has changed. */
  ghost predicate AddedBlock(h: Heap, g: Heap, p: int)
  {
    && Live(g, p) && !Live(h, p) && Kept(h, g, {})
    && (forall q {:trigger Live(g, q)} {:trigger Live(h, q)} :: Live(g, q) <==> Live(h, q) || q == p)
  }

  /** The front of the new block p was cut off and freed. */
  lemma LeaderFreed(h: Heap, g: Heap, f: Heap, e: Heap, p: int, lead: int)
    requires AddedBlock(h, g, p) && lead > 0 && p + lead !in g.chunks
    requires Kept(g, f, {p}) && Live(f, p + lead) && Freed(f, e, p)
    requires forall q {:trigger Live(f, q)} :: Live(f, q) <==> Live(g, q) || q == p + lead
    ensures AddedBlock(h, e, p + lead) && e.chunks[p + lead] == f.chunks[p + lead]
  {
    KeptTwice(h, g, f, {}, {p});
    KeptTwice(h, f, e, {} + {p}, {p});
    forall q | Live(h, q) ensures KeptBlock(h, e, q) { assert q !in {} + {p} + {p}; }
    assert KeptBlock(f, e, p + lead);
    assert Live(h, p + lead) ==> Live(g, p + lead);
    forall q ensures Live(e, q) <==> Live(h, q) || q == p + lead { assert Live(e, q) <==> Live(f, q) && q != p; }
  }

  lemma TailFreed(h: Heap, g: Heap, e: Heap, p: int, nb: int)
    requires AddedBlock(h, g, p) && Trimmed(g, e, p, nb) && e.chunks[p].size < nb + MINSIZE
    ensures Placed(h, e, p, nb)
  {
    KeptTwice(h, g, e, {}, {p});
    forall q | Live(h, q) ensures KeptBlock(h, e, q) { assert q !in {} + {p}; }
    forall q ensures Live(e, q) <==> Live(h, q) || q == p { assert Live(e, q) <==> Live(g, q); }
  }
}
