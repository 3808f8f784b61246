/**
 What malloc and free do to a heap, composed from the elementary changes of HeapMoves.
 */
module HeapOps {
  import opened HeapLayout
  import opened HeapRings
  import opened HeapTiles
  import opened HeapModel
  import opened HeapMoves

  /** A chunk of at least nb and less than nb + MINSIZE bytes went into use at p, at the front of
      available space; every other block is as before. */
  ghost predicate Allocated(h: Heap, h': Heap, p: int, nb: int)
  {
    && Live(h', p) && !Live(h, p)
    && nb <= h'.chunks[p].size < nb + MINSIZE && PrevInUse(h'.mem, p)
    && Kept(h, h', {})
    && (forall q {:trigger Live(h', q)} {:trigger Live(h, q)} :: Live(h', q) <==> Live(h, q) || q == p)
  }

  /** The block p went out of use; every other block is as before. */
  ghost predicate Freed(h: Heap, h': Heap, p: int)
  {
    && Kept(h, h', {p})
    && (forall q {:trigger Live(h', q)} {:trigger Live(h, q)} :: Live(h', q) <==> Live(h, q) && q != p)
  }

  /** The chunk before p if it is free, or else p */
  ghost function JoinStart(h: Heap, p: int): int { if PrevInUse(h.mem, p) then p else p - W(h.mem, p) }

  ghost predicate IsFree(h: Heap, p: int) { p in h.chunks && h.chunks[p].status.Free? }

  ghost predicate IsRemainder(h: Heap, p: int) { p in h.chunks && h.chunks[p].status == Free(1) }

  /** The block p and the free chunks around it are one free chunk now: the last remainder if one of them was, or else
      in the bin of its size. */
  ghost predicate Joined(h: Heap, h': Heap, p: int)
    requires p in h.chunks
  {
    var q, n := JoinStart(h, p), p + h.chunks[p].size;
    var end := if IsFree(h, n) then n + h.chunks[n].size else n;
    var remainder := (q != p && IsRemainder(h, q)) || IsRemainder(h, n);
    q in h'.chunks && h'.chunks[q] == Chunk(end - q, Free(if remainder then 1 else BinIndex(end - q)))
  }

  /** Same words in memory, same heap for every purpose. */
  ghost predicate SameWords(m: Mem, n: Mem) { forall a {:trigger W(n, a)} :: W(n, a) == W(m, a) }

  /** n is m with the value v stored at a. */
  ghost predicate Wrote(m: Mem, n: Mem, a: int, v: int)
  {
    && (forall b {:trigger W(n, b)} :: W(n, b) == if b == a then v else W(m, b))
    && (forall b {:trigger b in n} :: b in m ==> b in n)
  }

  lemma AllocatedWords(h: Heap, g: Heap, n: Mem, p: int, nb: int)
    requires HeapOK(g) && Allocated(h, g, p, nb) && SameWords(g.mem, n) && Roomy(n, g.limit)
    ensures HeapOK(g.(mem := n)) && Allocated(h, g.(mem := n), p, nb)
  {
    SameWordsOK(g, n);
    KeptWords(h, g, n, {});
    var g' := g.(mem := n);
    forall q ensures Live(g', q) <==> Live(h, q) || q == p { assert Live(g, q) <==> Live(g', q); }
  }

  lemma KeptWords(h: Heap, g: Heap, n: Mem, X: set<int>)
    requires Kept(h, g, X) && SameWords(g.mem, n)
    ensures Kept(h, g.(mem := n), X)
  {
    var g' := g.(mem := n);
    forall q | Live(h, q) && q !in X ensures KeptBlock(h, g', q) {
      assert KeptBlock(h, g, q);
      assert forall a {:trigger W(n, a)} :: W(n, a) == W(g.mem, a);
    }
    forall a ensures KeptOutside(h, g', a) { assert KeptOutside(h, g, a) && W(n, a) == W(g.mem, a); }
  }

  // ---- malloc ------------------------------------------------------------------------------

  lemma TakeWhole(h: Heap, x: int, k: nat, nb: int) returns (g: Heap)
    requires HeapOK(h) && InBin(h, x, k) && nb <= h.chunks[x].size < nb + MINSIZE
    ensures HeapOK(g) && Allocated(h, g, x, nb) && SameArena(h, g) && g.top == h.top
    ensures g.chunks == h.chunks[x := Chunk(h.chunks[x].size, InUse)]
    ensures g.bins == Unfiled(h, x, k)
    ensures g.mem == Store(Bypass(h.mem, Bk(h.mem, x), Fd(h.mem, x)), x + h.chunks[x].size + 4,
                Head(h.mem, x + h.chunks[x].size) + 1)
  {
    g := TakeStep(h, x, k);
    forall q ensures Live(g, q) <==> Live(h, q) || q == x { }
  }

  /** The words after a chunk at x, linked between b and f, gave up all but nb of its size bytes
      to a last remainder. */
  ghost function SplitWord(m: Mem, x: int, size: int, nb: int, b: int, f: int, a: int): int
  {
    var r, lr := x + nb, BinAt(1);
    if a == x + 4 then nb + 1
    else if a == r + 4 then size - nb + 1
    else if a == x + size then size - nb
    else if a == r + 8 || a == r + 12 then lr
    else if a == lr + 8 || a == lr + 12 then r
    else if a == b + 8 then f
    else if a == f + 12 then b
    else W(m, a)
  }

  ghost function BinOf(c: Chunks, x: int): int
  {
    if x in c && c[x].status.Free? then c[x].status.bin else 0
  }

  /** The bins without x. */
  ghost function Unfiled(h: Heap, x: int, k: nat): seq<seq<int>>
    requires InBin(h, x, k)
  {
    h.bins[h.chunks[x].status.bin := Without(h.bins[h.chunks[x].status.bin], k)]
  }

  ghost function SplitChunks(h: Heap, x: int, nb: int): Chunks
    requires x in h.chunks
  {
    h.chunks[x := Chunk(nb, InUse)][x + nb := Chunk(h.chunks[x].size - nb, Free(1))]
  }

  lemma SplitTaken(h: Heap, x: int, k: nat, nb: int) returns (g: Heap)
    requires HeapOK(h) && InBin(h, x, k) && nb % 8 == 0 && MINSIZE <= nb && nb + MINSIZE <= h.chunks[x].size
    requires h.bins[1] == [] || h.chunks[x].status.bin == 1
    ensures HeapOK(g) && Allocated(h, g, x, nb) && SameArena(h, g) && g.top == h.top
    ensures g.chunks == SplitChunks(h, x, nb) && g.bins == Unfiled(h, x, k)[1 := [x + nb]]
    ensures forall a {:trigger W(g.mem, a)} ::
              W(g.mem, a) == SplitWord(h.mem, x, h.chunks[x].size, nb, Bk(h.mem, x), Fd(h.mem, x), a)
  {
    TakeFacts(h, x, k);
    var h1, h2;
    h1, h2, g := SplitGiven(h, x, k, nb);
    SplitTakenWords(h.mem, h2, g.mem, x, nb, h.chunks[x].size, Bk(h.mem, x), Fd(h.mem, x));
    SplitTakenKept(h, h1, h2, g, x, nb);
  }

  lemma SplitGiven(h: Heap, x: int, k: nat, nb: int) returns (h1: Heap, h2: Heap, g: Heap)
    requires HeapOK(h) && InBin(h, x, k) && nb % 8 == 0 && MINSIZE <= nb && nb + MINSIZE <= h.chunks[x].size
    requires h.bins[1] == [] || h.chunks[x].status.bin == 1
    ensures HeapOK(g) && Kept(h, h1, {}) && Kept(h1, h2, {x}) && Kept(h2, g, {x + nb}) && SameArena(h, h1) &&
            SameArena(h1, h2) && SameArena(h2, g)
    ensures g.top == h.top && g.chunks == SplitChunks(h, x, nb) && g.bins == Unfiled(h, x, k)[1 := [x + nb]] &&
            x + nb !in h.chunks
    ensures x + nb in h2.chunks && h2.chunks[x + nb].size == h.chunks[x].size - nb &&
            g.mem == GiveMem(h2.mem, h2.chunks, [], x + nb, 1, 0)
    ensures PrevInUse(g.mem, x)
    ensures h2.mem == Store(Store(Store(Bypass(h.mem, Bk(h.mem, x), Fd(h.mem, x)), x + h.chunks[x].size + 4,
                Head(h.mem, x + h.chunks[x].size) + 1), x + 4, nb + 1), x + nb + 4, h.chunks[x].size - nb + 1)
  {
    h1, h2 := SplitInUse(h, x, k, nb);
    var r, size := x + nb, h.chunks[x].size - nb;
    assert h2.chunks[r] == Chunk(size, InUse) && r != x;
    g := GiveRemainder(h2, r);
    Overwritten(h.chunks[x := Chunk(nb, InUse)], r, Chunk(size, InUse), Chunk(size, Free(1)));
    assert Head(g.mem, x) == Head(h2.mem, x);
  }

  lemma Overwritten(c: Chunks, r: int, u: Chunk, v: Chunk)
    ensures c[r := u][r := v] == c[r := v]
  {
  }

  /** A block becomes the last remainder. */
  lemma GiveRemainder(h: Heap, r: int) returns (g: Heap)
    requires HeapOK(h) && Live(h, r) && PrevInUse(h.mem, r) && Live(h, r + h.chunks[r].size) && |h.bins| == NAV &&
             h.bins[1] == []
    ensures HeapOK(g) && Kept(h, g, {r}) && SameArena(h, g) && g.top == h.top
    ensures g.chunks == h.chunks[r := Chunk(h.chunks[r].size, Free(1))] && g.bins == h.bins[1 := [r]] &&
            g.mem == GiveMem(h.mem, h.chunks, [], r, 1, 0)
    ensures forall p {:trigger Head(g.mem, p)} ::
              p in h.chunks && p != r + h.chunks[r].size ==> Head(g.mem, p) == Head(h.mem, p)
  {
    g := GiveStep(h, r, 1, 0);
    assert With(h.bins[1], 0, r) == [r];
  }

  /** The chunk goes into use and is cut in two blocks. */
  lemma SplitInUse(h: Heap, x: int, k: nat, nb: int) returns (h1: Heap, h2: Heap)
    requires HeapOK(h) && InBin(h, x, k) && nb % 8 == 0 && MINSIZE <= nb && nb + MINSIZE <= h.chunks[x].size
    requires h.bins[1] == [] || h.chunks[x].status.bin == 1
    ensures HeapOK(h2) && Kept(h, h1, {}) && Kept(h1, h2, {x}) && SameArena(h, h1) && SameArena(h1, h2) &&
            h2.top == h.top
    ensures h2.chunks == h.chunks[x := Chunk(nb, InUse)][x + nb := Chunk(h.chunks[x].size - nb, InUse)] &&
            x + nb !in h.chunks
    ensures |h2.bins| == NAV && h2.bins == Unfiled(h, x, k) && h2.bins[1] == []
    ensures Live(h2, x + h.chunks[x].size) && PrevInUse(h2.mem, x + nb) && PrevInUse(h2.mem, x) && x in h2.chunks
    ensures h2.mem == Store(Store(Store(Bypass(h.mem, Bk(h.mem, x), Fd(h.mem, x)), x + h.chunks[x].size + 4,
                Head(h.mem, x + h.chunks[x].size) + 1), x + 4, nb + 1), x + nb + 4, h.chunks[x].size - nb + 1)
  {
    LastRemainderAlone(h);
    h1 := TakeStep(h, x, k);
    h2 := SplitStep(h1, x, nb);
  }

  lemma LastRemainderAlone(h: Heap)
    requires HeapOK(h)
    ensures |h.bins| == NAV && |h.bins[1]| <= 1
    ensures forall p {:trigger h.chunks[p]} ::
              p in h.chunks && h.chunks[p].status.Free? ==> 1 <= h.chunks[p].status.bin < NAV
  {
    Open(h);
    forall p | p in h.chunks && h.chunks[p].status.Free? ensures 1 <= h.chunks[p].status.bin < NAV {
      assert AtHome(h.chunks, h.bins, p);
    }
  }

  lemma SplitTakenWords(m: Mem, h2: Heap, n: Mem, x: int, nb: int, size: int, b: int, f: int)
    requires h2.mem == Store(Store(Store(Bypass(m, b, f), x + size + 4, Head(m, x + size) + 1), x + 4, nb + 1),
                 x + nb + 4, size - nb + 1)
    requires x + nb in h2.chunks && h2.chunks[x + nb].size == size - nb && nb >= MINSIZE && size - nb >= MINSIZE
    requires n == GiveMem(h2.mem, h2.chunks, [], x + nb, 1, 0)
    requires x >= AV_END && b != x + size - 4 && f != x + size - 8
    ensures forall a {:trigger W(n, a)} :: W(n, a) == SplitWord(m, x, size, nb, b, f, a)
  {
    var r, nx, lr := x + nb, x + size, BinAt(1);
    assert Next(h2.chunks, r) == nx && Node(lr, [], -1) == lr && Node(lr, [], 0) == lr;
    assert Head(h2.mem, nx) == Head(m, nx) + 1;
    forall a ensures W(n, a) == SplitWord(m, x, size, nb, b, f, a) {
      assert W(n, a) == if a == nx then size - nb else if a == nx + 4 then Head(m, nx)
                 else W(LinkBetween(h2.mem, r, lr, lr), a);
    }
  }

  lemma SplitTakenKept(h: Heap, h1: Heap, h2: Heap, g: Heap, x: int, nb: int)
    requires x in h.chunks && h.chunks[x].status.Free?
    requires Kept(h, h1, {}) && Kept(h1, h2, {x}) && Kept(h2, g, {x + nb}) && x + nb !in h.chunks && nb > 0
    requires SameArena(h, h1) && SameArena(h1, h2) && SameArena(h2, g)
    requires g.chunks == h.chunks[x := Chunk(nb, InUse)][x + nb := Chunk(h.chunks[x].size - nb, Free(1))]
    requires PrevInUse(g.mem, x)
    ensures Allocated(h, g, x, nb)
  {
    KeptTwice(h, h1, h2, {}, {x});
    KeptTwice(h, h2, g, {} + {x}, {x + nb});
    assert !Live(h, x) && !Live(h, x + nb);
    forall q | Live(h, q) ensures KeptBlock(h, g, q) { assert q !in {} + {x} + {x + nb}; }
    forall q ensures Live(g, q) <==> Live(h, q) || q == x { }
  }

  // ---- joining a block with free neighbours ----------------------------------------------------

  /** Block p and the free chunk q before it become one block at q. */
  lemma AbsorbPrev(h: Heap, p: int, q: int, k: nat) returns (g: Heap)
    requires HeapOK(h) && Live(h, p) && InBin(h, q, k) && q + h.chunks[q].size == p
    ensures HeapOK(g) && Kept(h, g, {p}) && SameArena(h, g) && g.top == h.top
    ensures g.chunks == (h.chunks - {p})[q := Chunk(h.chunks[q].size + h.chunks[p].size, InUse)]
    ensures g.bins == Unfiled(h, q, k) && PrevInUse(g.mem, q)
    ensures SameWords(Store(Bypass(h.mem, Bk(h.mem, q), Fd(h.mem, q)), q + 4, h.chunks[q].size + h.chunks[p].size + 1),
                g.mem)
  {
    ChunkFacts(h, p);
    var h1 := TakeStep(h, q, k);
    var h2 := JoinStep(h1, q);
    g := PokeStep(h2, q, p + 4, Head(h.mem, p));
    AbsorbKept(h, h1, h2, g, q, p);
  }

  lemma AbsorbKept(h: Heap, h1: Heap, h2: Heap, g: Heap, q: int, p: int)
    requires q in h.chunks && h.chunks[q].status.Free?
    requires Kept(h, h1, {}) && Kept(h1, h2, {q, p}) && Kept(h2, g, {q})
    requires SameArena(h, h1) && SameArena(h1, h2) && SameArena(h2, g)
    ensures Kept(h, g, {p})
  {
    KeptTwice(h, h1, h2, {}, {q, p});
    KeptTwice(h, h2, g, {} + {q, p}, {q});
    assert !Live(h, q);
    forall x | Live(h, x) && x != p ensures KeptBlock(h, g, x) { assert x !in {} + {q, p} + {q}; }
  }

  /** Block p and the free chunk n after it become one block at p. */
  lemma AbsorbNext(h: Heap, p: int, n: int, k: nat) returns (g: Heap)
    requires HeapOK(h) && Live(h, p) && InBin(h, n, k) && p + h.chunks[p].size == n
    ensures HeapOK(g) && Kept(h, g, {p}) && SameArena(h, g) && g.top == h.top
    ensures g.chunks == (h.chunks - {n})[p := Chunk(h.chunks[p].size + h.chunks[n].size, InUse)]
    ensures g.bins == Unfiled(h, n, k) && PrevInUse(g.mem, p) == PrevInUse(h.mem, p)
    ensures var e := n + h.chunks[n].size;
      SameWords(Store(Store(Bypass(h.mem, Bk(h.mem, n), Fd(h.mem, n)), e + 4, Head(h.mem, e) + 1),
                      p + 4, h.chunks[p].size + h.chunks[n].size + TagBit(h.mem, p)), g.mem)
  {
    ChunkFacts(h, p);
    var h1 := TakeStep(h, n, k);
    AbsorbNextHead(h, p, n, k);
    g := JoinStep(h1, p);
    KeptTwice(h, h1, g, {}, {p, n});
    assert !Live(h, n);
    forall x | Live(h, x) && x != p ensures KeptBlock(h, g, x) { assert x !in {} + {p, n}; }
  }

  /** Taking a chunk leaves the head of another chunk alone, save its successor. */
  lemma AbsorbNextHead(h: Heap, p: int, n: int, k: nat)
    requires HeapOK(h) && p in h.chunks && InBin(h, n, k) && p != n + h.chunks[n].size
    ensures var b, f := Bk(h.mem, n), Fd(h.mem, n);
      Head(Store(Bypass(h.mem, b, f), n + h.chunks[n].size + 4, Head(h.mem, n + h.chunks[n].size) + 1), p) ==
        Head(h.mem, p)
  {
    Open(h);
    LinkedBypass(h.mem, h.chunks, h.base, h.brk, h.top, h.bins, h.chunks[n].status.bin, k);
    TagOffLinks(h.chunks, h.base, h.brk, h.top, p, Bk(h.mem, n));
    TagOffLinks(h.chunks, h.base, h.brk, h.top, p, Fd(h.mem, n));
  }

  lemma SplitRoom(h: Heap, x: int, nb: int)
    requires HeapOK(h) && x in h.chunks && nb % 8 == 0 && MINSIZE <= nb && nb + MINSIZE <= h.chunks[x].size &&
             x != h.top
    ensures x + 4 in h.mem && x + nb + 4 in h.mem && x + nb + 8 in h.mem && x + nb + 12 in h.mem &&
            x + h.chunks[x].size in h.mem
    ensures BinAt(1) + 8 in h.mem && BinAt(1) + 12 in h.mem
  {
    ChunkFacts(h, x);
    RoomyOf(h);
    ChunkRoom(h, h.mem, x);
    ChunkRoom(h, h.mem, x + h.chunks[x].size);
    SumAligned(x, nb);
    RoomAt(h, h.mem, x + nb);
    assert BinAt(1) % 8 == 0;
    RoomAt(h, h.mem, BinAt(1));
  }

  // ---- frontlink ---------------------------------------------------------------------------------

  /** Memory m shows the bins of g: links, sizes of binned chunks and the block index. */
  ghost predicate ShowsBins(m: Mem, g: Heap)
  {
    && Roomy(m, g.limit) && W(m, BINBLOCKS) == W(g.mem, BINBLOCKS)
    && (forall y {:trigger LinkNode(g.chunks, y)} ::
          LinkNode(g.chunks, y) ==> Fd(m, y) == Fd(g.mem, y) && Bk(m, y) == Bk(g.mem, y))
    && (forall y {:trigger ChunkSize(m, y)} ::
          y in g.chunks && g.chunks[y].status.Free? ==> ChunkSize(m, y) == g.chunks[y].size)
  }

  /** The words after linking p into bin i between bck and fwd. */
  ghost function LinkWord(m: Mem, p: int, i: nat, bck: int, fwd: int, a: int): int
  {
    if a == p + 12 then bck
    else if a == p + 8 then fwd
    else if a == bck + 8 then p
    else if a == fwd + 12 then p
    else if a == BINBLOCKS then SetBit(W(m, BINBLOCKS), i / 4)
    else W(m, a)
  }

  /** In a bin of small chunks every position is as good as the first. */
  lemma SmallPlace(g: Heap, size: int)
    requires HeapOK(g) && MINSIZE <= size < 512 && size % 8 == 0
    ensures BinIndex(size) == size / 8 && 2 <= size / 8 < NAV && Place(g.chunks, g.bins, size, size / 8, 0)
  {
    var i := size / 8;
    BinIndexMonotone(size, size);
    forall j | 0 <= j < |g.bins[i]| && g.bins[i][j] in g.chunks ensures size >= g.chunks[g.bins[i][j]].size {
      BinSorted(g, i, j, j);
      var other := g.chunks[g.bins[i][j]].size;
      if size <= other { BinIndexMonotone(size, other); } else { BinIndexMonotone(other, size); }
    }
  }

  /** The search of `frontlink` stops at the right position of a bin. */
  lemma LargePlace(g: Heap, size: int, k: int)
    requires HeapOK(g) && MINSIZE <= size && 0 <= k <= |g.bins[BinIndex(size)]| && 2 <= BinIndex(size) < NAV
    requires forall j ::
               0 <= j < k ==> g.bins[BinIndex(size)][j] in g.chunks && size < g.chunks[g.bins[BinIndex(size)][j]].size
    requires k < |g.bins[BinIndex(size)]| ==>
               g.bins[BinIndex(size)][k] in g.chunks && size >= g.chunks[g.bins[BinIndex(size)][k]].size
    ensures Place(g.chunks, g.bins, size, BinIndex(size), k)
  {
    var l := g.bins[BinIndex(size)];
    forall j | k <= j < |l| && l[j] in g.chunks ensures size >= g.chunks[l[j]].size {
      BinSorted(g, BinIndex(size), k, j);
    }
  }

  /** n is the memory of g with the successor of x told that x is free. */
  ghost predicate Announces(n: Mem, g: Heap, x: int)
    requires x in g.chunks
  {
    var nx := x + g.chunks[x].size;
    forall a {:trigger W(n, a)} ::
      W(n, a) == if a == nx + 4 then Head(g.mem, nx) - 1 else if a == nx then g.chunks[x].size else W(g.mem, a)
  }

  lemma AnnouncedShowsBins(n: Mem, g: Heap, x: int)
    requires HeapOK(g) && x in g.chunks && Live(g, x + g.chunks[x].size) && Announces(n, g, x) && Roomy(n, g.limit)
    ensures ShowsBins(n, g)
  {
    var nx := x + g.chunks[x].size;
    ChunkFacts(g, nx);
    forall y | LinkNode(g.chunks, y) ensures Fd(n, y) == Fd(g.mem, y) && Bk(n, y) == Bk(g.mem, y) {
      Open(g);
      TagOffLinks(g.chunks, g.base, g.brk, g.top, nx, y);
    }
    forall y | y in g.chunks && g.chunks[y].status.Free? ensures ChunkSize(n, y) == g.chunks[y].size {
      ChunkFacts(g, y);
      ChunkSizeIs(g, y);
    }
  }

  /** Announcing a block as free and linking it files it. */
  lemma FrontlinkFiles(g: Heap, x: int, k: nat, m: Mem, n: Mem) returns (f: Heap)
    requires HeapOK(g) && x in g.chunks && 2 <= BinIndex(g.chunks[x].size) < NAV &&
             CanGive(g, x, BinIndex(g.chunks[x].size), k)
    requires Announces(m, g, x) && Roomy(n, g.limit)
    requires var i := BinIndex(g.chunks[x].size); var hd, l := BinAt(i), g.bins[i];
      forall b {:trigger W(n, b)} :: W(n, b) == LinkWord(m, x, i, Node(hd, l, k - 1), Node(hd, l, k), b)
    ensures var i := BinIndex(g.chunks[x].size);
      f == g.(mem := n, chunks := g.chunks[x := Chunk(g.chunks[x].size, Free(i))],
          bins := g.bins[i := With(g.bins[i], k, x)])
    ensures HeapOK(f) && Kept(g, f, {x})
  {
    var i, nx := BinIndex(g.chunks[x].size), x + g.chunks[x].size;
    var f1 := GiveStep(g, x, i, k);
    ChunkFacts(g, x);
    ChunkFacts(g, nx);
    BinWalk(g, i, k);
    FrontlinkWords(g, x, k, m, n, i, Node(BinAt(i), g.bins[i], k - 1), Node(BinAt(i), g.bins[i], k));
    SameWordsOK(f1, n);
    KeptWords(g, f1, n, {x});
    f := f1.(mem := n);
  }

  lemma FrontlinkWords(g: Heap, x: int, k: nat, m: Mem, n: Mem, i: nat, b: int, f: int)
    requires HeapOK(g) && x in g.chunks && x + g.chunks[x].size in g.chunks && 2 <= i < NAV && k <= |g.bins[i]|
    requires LinkNode(g.chunks, b) && LinkNode(g.chunks, f)
    requires b == Node(BinAt(i), g.bins[i], k - 1) && f == Node(BinAt(i), g.bins[i], k)
    requires Announces(m, g, x) && x != b && x != f
    requires forall a {:trigger W(n, a)} :: W(n, a) == LinkWord(m, x, i, b, f, a)
    ensures SameWords(GiveMem(g.mem, g.chunks, g.bins[i], x, i, k), n)
  {
    var nx := x + g.chunks[x].size;
    ChunkFacts(g, x);
    ChunkFacts(g, nx);
    LinkAddresses(g, nx, b);
    LinkAddresses(g, nx, f);
    GiveWords(g.mem, m, n, x, nx, g.chunks[x].size, i, b, f);
  }

  /** The stores of frontlink and the two before them, in the other order. */
  lemma GiveWords(m0: Mem, m: Mem, n: Mem, x: int, nx: int, size: int, i: nat, b: int, f: int)
    requires x >= AV_END && x % 8 == 0 && nx >= x + MINSIZE && nx != b + 8 && nx + 4 != f + 12 && b % 8 == 0 &&
             f % 8 == 0 && nx % 8 == 0 && x != b && x != f && b >= BinAt(1) && f >= BinAt(1)
    requires forall a {:trigger W(m, a)} ::
               W(m, a) == if a == nx + 4 then Head(m0, nx) - 1 else if a == nx then size else W(m0, a)
    requires forall a {:trigger W(n, a)} :: W(n, a) == LinkWord(m, x, i, b, f, a)
    requires 2 <= i
    ensures SameWords(Store(Store(LinkBetween(Mark(m0, i), x, b, f), nx + 4, Head(m0, nx) - 1), nx, size), n)
  {
  }

  lemma LinkAddresses(g: Heap, p: int, y: int)
    requires HeapOK(g) && p in g.chunks && LinkNode(g.chunks, y)
    ensures y % 8 == 0 && p != y + 8 && p + 4 != y + 12 && y >= BinAt(1)
  {
    Open(g);
    TagOffLinks(g.chunks, g.base, g.brk, g.top, p, y);
  }

  // ---- free ----------------------------------------------------------------------------------------

  /** Block p joins `top`, together with the free chunk before it if there is one. */
  lemma FreeIntoTop(h: Heap, p: int) returns (g: Heap)
    requires HeapOK(h) && Live(h, p) && p + h.chunks[p].size == h.top && PrevInUse(h.mem, p)
    ensures HeapOK(g) && Freed(h, g, p) && SameArena(h, g) && g.top == p && g.bins == h.bins
    ensures p in g.chunks && g.chunks[p] == Chunk(h.brk - p, Top)
    ensures g.mem == Store(Store(h.mem, p + 4, h.brk - p + 1), TOP, p)
  {
    ChunkFacts(h, p);
    ChunkFacts(h, h.top);
    g := JoinStep(h, p);
    assert h.chunks[p].size + h.chunks[h.top].size == h.brk - p;
    forall q | Live(h, q) && q != p ensures KeptBlock(h, g, q) { assert q !in {p, h.top}; }
    forall q ensures Live(g, q) <==> Live(h, q) && q != p { }
  }

  lemma FreeIntoTopBack(h: Heap, p: int, q: int, k: nat) returns (g: Heap)
    requires HeapOK(h) && Live(h, p) && p + h.chunks[p].size == h.top && InBin(h, q, k) && q + h.chunks[q].size == p
    ensures HeapOK(g) && Freed(h, g, p) && SameArena(h, g) && g.top == q && g.bins == Unfiled(h, q, k)
    ensures q in g.chunks && g.chunks[q] == Chunk(h.brk - q, Top)
    ensures SameWords(Store(Store(Bypass(h.mem, Bk(h.mem, q), Fd(h.mem, q)), q + 4, h.brk - q + 1), TOP, q), g.mem)
  {
    ChunkFacts(h, p);
    ChunkFacts(h, q);
    ChunkFacts(h, h.top);
    var g1 := AbsorbPrev(h, p, q, k);
    g := FreeIntoTop(g1, q);
    KeptTwice(h, g1, g, {p}, {q});
    assert !Live(h, q);
    forall x | Live(h, x) && x != p ensures KeptBlock(h, g, x) { assert x !in {p} + {q}; }
    forall x ensures Live(g, x) <==> Live(h, x) && x != p { assert Live(g, x) <==> Live(g1, x) && x != q; }
  }

  /** A word of memory while `free` joins chunks at lo: the heap g has the block lo detached, but
      its head is not written yet, the head of `next` holds nextsz, and a last remainder that lo
      takes part in stays linked. */
  ghost function HalfWord(g: Heap, lo: int, islr: bool, next: int, nextsz: int, a: int): int
  {
    var lr := BinAt(1);
    if islr && (a == lr + 8 || a == lr + 12) then lo
    else if islr && (a == lo + 8 || a == lo + 12) then lr
    else if a == next + 4 then nextsz
    else W(g.mem, a)
  }

  /** Memory m is half-way through freeing block lo. */
  ghost predicate HalfFreed(m: Mem, g: Heap, lo: int, islr: bool, next: int, nextsz: int)
  {
    && Roomy(m, g.limit)
    && forall a {:trigger W(m, a)} :: a != lo + 4 ==> W(m, a) == HalfWord(g, lo, islr, next, nextsz, a)
  }

  /** The block at p in g stands for the block p0 of h, grown by free neighbours. */
  ghost predicate Grown(h: Heap, g: Heap, p0: int, p: int, sz: int)
  {
    && HeapOK(g) && Kept(h, g, {p0}) && SameArena(h, g) && g.top == h.top
    && Live(g, p) && g.chunks[p].size == sz && PrevInUse(g.mem, p)
    && !(Live(h, p) && p != p0)
    && (forall q {:trigger Live(g, q)} {:trigger Live(h, q)} :: Live(g, q) <==> (Live(h, q) && q != p0) || q == p)
  }

  lemma GrownBack(h: Heap, p: int, q: int, k: nat) returns (g: Heap)
    requires HeapOK(h) && Live(h, p) && InBin(h, q, k) && q + h.chunks[q].size == p
    ensures Grown(h, g, p, q, h.chunks[q].size + h.chunks[p].size)
    ensures g.bins == Unfiled(h, q, k) &&
            (forall x {:trigger x in g.chunks} ::
               x in h.chunks && x != p && x != q ==> x in g.chunks && g.chunks[x] == h.chunks[x])
    ensures forall a {:trigger W(g.mem, a)} ::
              a != q + 4 ==> W(g.mem, a) == W(Bypass(h.mem, Bk(h.mem, q), Fd(h.mem, q)), a)
  {
    g := AbsorbPrev(h, p, q, k);
    forall x ensures Live(g, x) <==> (Live(h, x) && x != p) || x == q { }
  }

  lemma GrownNot(h: Heap, p: int)
    requires HeapOK(h) && Live(h, p) && PrevInUse(h.mem, p)
    ensures Grown(h, h, p, p, h.chunks[p].size)
  {
    forall q | Live(h, q) ensures KeptBlock(h, h, q) { }
  }

  lemma GrownOn(h: Heap, g: Heap, p0: int, p: int, n: int, k: nat) returns (f: Heap)
    requires Grown(h, g, p0, p, n - p) && InBin(g, n, k)
    ensures Grown(h, f, p0, p, n - p + g.chunks[n].size) && f.bins == Unfiled(g, n, k)
    ensures Live(f, n + g.chunks[n].size) && Head(f.mem, n + g.chunks[n].size) == Head(g.mem, n + g.chunks[n].size) + 1
    ensures forall a {:trigger W(f.mem, a)} :: a != p + 4 && a != n + g.chunks[n].size + 4 ==>
              W(f.mem, a) == W(Bypass(g.mem, Bk(g.mem, n), Fd(g.mem, n)), a)
  {
    ChunkFacts(g, n);
    ChunkFacts(g, p);
    var e := n + g.chunks[n].size;
    f := AbsorbNext(g, p, n, k);
    KeptTwice(h, g, f, {p0}, {p});
    forall q | Live(h, q) && q != p0 ensures KeptBlock(h, f, q) { assert q !in {p0} + {p}; }
    forall q ensures Live(f, q) <==> (Live(h, q) && q != p0) || q == p { assert Live(f, q) <==> Live(g, q); }
  }

  /** As GrownOn, with the stale head word at n set to v. */
  lemma GrownOver(h: Heap, g: Heap, p0: int, p: int, n: int, k: nat, v: int) returns (f: Heap)
    requires Grown(h, g, p0, p, n - p) && InBin(g, n, k)
    ensures Grown(h, f, p0, p, n - p + g.chunks[n].size) && f.bins == Unfiled(g, n, k)
    ensures Live(f, n + g.chunks[n].size) && f.chunks[n + g.chunks[n].size].size == Head(g.mem, n + g.chunks[n].size)
    ensures forall a {:trigger W(f.mem, a)} :: a != p + 4 && a != n + g.chunks[n].size + 4 ==>
              W(f.mem, a) == if a == n + 4 then v else W(Bypass(g.mem, Bk(g.mem, n), Fd(g.mem, n)), a)
  {
    var e := n + g.chunks[n].size;
    ChunkFacts(g, n);
    ChunkFacts(g, p);
    var f1 := GrownOn(h, g, p0, p, n, k);
    ChunkFacts(f1, e);
    ChunkFacts(f1, p);
    f := PokeStep(f1, p, n + 4, v);
    KeptTwice(h, f1, f, {p0}, {p});
    forall q | Live(h, q) && q != p0 ensures KeptBlock(h, f, q) { assert q !in {p0} + {p}; }
    forall q ensures Live(f, q) <==> (Live(h, q) && q != p0) || q == p { assert Live(f, q) <==> Live(f1, q); }
    GrownTag(f, p, f1);
  }

  lemma GrownTag(f: Heap, p: int, f1: Heap)
    requires HeapOK(f) && HeapOK(f1) && Live(f, p) && PrevInUse(f1.mem, p) && Head(f.mem, p) == Head(f1.mem, p)
    ensures PrevInUse(f.mem, p)
  {
  }

  /** The links of a binned chunk n lie apart from the words that `free` has in flux. */
  lemma BinnedApart(g: Heap, n: int, k: nat, p: int, e: int, y: int)
    requires HeapOK(g) && InBin(g, n, k) && g.chunks[n].status.bin != 1 && Live(g, p) && e in g.chunks && p != n
    requires y == Bk(g.mem, n) || y == Fd(g.mem, n)
    ensures y % 8 == 0 && y != BinAt(1) && y != p && e != y + 8 && n != y + 8 && p != y + 8
  {
    NeighbourFacts(g, n, k, p);
    LinkAddresses(g, e, y);
    LinkAddresses(g, n, y);
    LinkAddresses(g, p, y);
    NotRemainder(g, n, k, y);
    ChunkFacts(g, p);
  }

  /** Unlinking the binned chunk n after the block p leads from one half-way state to the next. */
  lemma JoinBinnedWords(m: Mem, n: Mem, g: Heap, f: Heap, p: int, islr: bool, next: int, e: int, bk: int, fd: int)
    requires HalfFreed(m, g, p, islr, next, e - next) && e - next >= MINSIZE && next - p >= MINSIZE
    requires next % 8 == 0 && e % 8 == 0 && p % 8 == 0 && p >= AV_END && next >= AV_END
    requires bk % 8 == 0 && bk != BinAt(1) && bk != p && e != bk + 8 && next != bk + 8
    requires fd % 8 == 0 && fd != BinAt(1) && fd != p && e != fd + 8 && next != fd + 8
    requires forall a {:trigger W(n, a)} ::
               W(n, a) == (if a == bk + 8 then fd else if a == fd + 12 then bk else W(m, a))
    requires forall a {:trigger W(f.mem, a)} :: a != p + 4 && a != e + 4 ==>
               W(f.mem, a) == if a == next + 4 then e - next else W(Bypass(g.mem, bk, fd), a)
    requires Head(g.mem, e) == SizeAt(f, e) && Roomy(n, f.limit)
    ensures HalfFreed(n, f, p, islr, e, SizeAt(f, e))
  {
    forall a | a != p + 4 ensures W(n, a) == HalfWord(f, p, islr, e, SizeAt(f, e), a) {
      JoinBinnedWord(W(m, a), W(n, a), g, f, p, islr, next, e, bk, fd, a);
    }
  }

  lemma JoinBinnedWord(w: int, v: int, g: Heap, f: Heap, p: int, islr: bool, next: int, e: int, bk: int, fd: int,
      a: int)
    requires w == HalfWord(g, p, islr, next, e - next, a) &&
             v == (if a == bk + 8 then fd else if a == fd + 12 then bk else w)
    requires e - next >= MINSIZE && next - p >= MINSIZE && next % 8 == 0 && e % 8 == 0 && p % 8 == 0 && p >= AV_END
    requires bk % 8 == 0 && bk != BinAt(1) && bk != p && e != bk + 8 && next != bk + 8
    requires fd % 8 == 0 && fd != BinAt(1) && fd != p && e != fd + 8 && next != fd + 8
    requires a != e + 4 ==> W(f.mem, a) == if a == next + 4 then e - next else W(Bypass(g.mem, bk, fd), a)
    requires Head(g.mem, e) == SizeAt(f, e)
    ensures v == HalfWord(f, p, islr, e, SizeAt(f, e), a)
  {
  }

  ghost function SizeAt(f: Heap, e: int): int { if e in f.chunks then f.chunks[e].size else 0 }

  lemma NotRemainder(g: Heap, n: int, k: nat, y: int)
    requires HeapOK(g) && InBin(g, n, k) && g.chunks[n].status.bin != 1 && (y == Bk(g.mem, n) || y == Fd(g.mem, n))
    ensures y != BinAt(1)
  {
    Open(g);
    var i := g.chunks[n].status.bin;
    LinkedAt(g.mem, g.bins, i);
    RingAt(g.mem, BinAt(i), g.bins[i], k);
    if k > 0 { assert g.bins[i][k - 1] in g.chunks; }
    if k < |g.bins[i]| - 1 { assert g.bins[i][k + 1] in g.chunks; }
  }

  lemma FreedBy(h: Heap, g: Heap, f: Heap, p0: int, p: int, sz: int)
    requires Grown(h, g, p0, p, sz) && Kept(g, f, {p}) && SameArena(g, f)
    requires p in f.chunks && f.chunks[p].status.Free? && f.chunks == g.chunks[p := f.chunks[p]]
    ensures Freed(h, f, p0)
  {
    KeptTwice(h, g, f, {p0}, {p});
    forall q | Live(h, q) && q != p0 ensures KeptBlock(h, f, q) { assert q !in {p0} + {p}; }
    forall q ensures Live(f, q) <==> Live(h, q) && q != p0 { assert Live(f, q) <==> Live(g, q) && q != p; }
  }

  /** The joined block becomes the last remainder. */
  lemma FileRemainder(g: Heap, p: int, n: Mem) returns (f: Heap)
    requires HeapOK(g) && Live(g, p) && PrevInUse(g.mem, p) && Live(g, p + g.chunks[p].size) && |g.bins| == NAV &&
             g.bins[1] == []
    requires Roomy(n, g.limit) && Head(n, p) == Head(g.mem, p) && W(n, p + g.chunks[p].size) == g.chunks[p].size
    requires var e := p + g.chunks[p].size;
             forall a {:trigger W(n, a)} :: a != p + 4 && a != e ==> W(n, a) == HalfWord(g, p, true, e, SizeAt(g, e), a)
    ensures f == g.(mem := n, chunks := g.chunks[p := Chunk(g.chunks[p].size, Free(1))], bins := g.bins[1 := [p]])
    ensures HeapOK(f) && Kept(g, f, {p})
  {
    var e := p + g.chunks[p].size;
    ChunkFacts(g, p);
    ChunkFacts(g, e);
    var f1 := GiveStep(g, p, 1, 0);
    assert With(g.bins[1], 0, p) == [p];
    FileRemainderWords(g, p, n, f1.mem);
    SameWordsOK(f1, n);
    KeptWords(g, f1, n, {p});
    f := f1.(mem := n);
  }

  lemma FileRemainderWords(g: Heap, p: int, n: Mem, m: Mem)
    requires p in g.chunks && g.chunks[p].size >= MINSIZE && p >= AV_END
    requires Head(n, p) == Head(g.mem, p) && W(n, p + g.chunks[p].size) == g.chunks[p].size
    requires SizeAt(g, p + g.chunks[p].size) == Head(g.mem, p + g.chunks[p].size) - 1
    requires var e := p + g.chunks[p].size;
             forall a {:trigger W(n, a)} :: a != p + 4 && a != e ==> W(n, a) == HalfWord(g, p, true, e, SizeAt(g, e), a)
    requires m == GiveMem(g.mem, g.chunks, [], p, 1, 0)
    ensures SameWords(m, n)
  {
    forall a ensures W(n, a) == W(m, a) { }
  }

  /** The links of the node y are not the tags of these chunks. */
  ghost predicate LinkOff(y: int, q: int, p0: int, next: int) {
    y % 8 == 0 && next != y + 8 && p0 != y + 8 && q != y + 8
  }

  lemma BackLink(h: Heap, q: int, k: nat, p0: int, next: int, y: int)
    requires HeapOK(h) && InBin(h, q, k) && Live(h, p0) && next in h.chunks && (y == Bk(h.mem, q) || y == Fd(h.mem, q))
    ensures LinkOff(y, q, p0, next)
  {
    NeighbourFacts(h, q, k, p0);
    LinkAddresses(h, next, y);
    LinkAddresses(h, p0, y);
    LinkAddresses(h, q, y);
  }

  /** What the steps of joining backward need to know about the links of the chunk before the block. */
  ghost predicate BackFacts(h: Heap, q: int, p0: int, next: int)
  {
    && q in h.chunks && h.chunks[q].status.Free? && p0 in h.chunks && q != p0 && p0 < next && q + 16 <= p0
    && q % 8 == 0 && p0 % 8 == 0 && next % 8 == 0 && q >= AV_END
    && LinkOff(Bk(h.mem, q), q, p0, next) && LinkOff(Fd(h.mem, q), q, p0, next)
    && (h.chunks[q].status.bin == 1 ==>
          Fd(h.mem, q) == BinAt(1) && Bk(h.mem, q) == BinAt(1) && Fd(h.mem, BinAt(1)) == q && Bk(h.mem, BinAt(1)) == q)
    && (h.chunks[q].status.bin != 1 ==> Fd(h.mem, q) != BinAt(1))
  }

  lemma BackLinks(h: Heap, q: int, k: nat, p0: int, next: int)
    requires HeapOK(h) && InBin(h, q, k) && Live(h, p0) && next in h.chunks && q + h.chunks[q].size == p0 && p0 < next
    ensures BackFacts(h, q, p0, next)
  {
    var k' := BinFacts(h, q);
    ChunkFacts(h, q);
    ChunkFacts(h, p0);
    ChunkFacts(h, next);
    BackLink(h, q, k, p0, next, Bk(h.mem, q));
    BackLink(h, q, k, p0, next, Fd(h.mem, q));
    if h.chunks[q].status.bin == 1 { BinWalk(h, 1, 0); BinWalk(h, 1, 1); }
  }

  lemma BackWords(m: Mem, n: Mem, h: Heap, g: Heap, q: int, p0: int, next: int)
    requires HalfFreed(m, h, p0, false, next, SizeAt(h, next)) && Head(m, p0) == Head(h.mem, p0) &&
             BackFacts(h, q, p0, next)
    requires forall a {:trigger W(g.mem, a)} ::
               a != q + 4 ==> W(g.mem, a) == W(Bypass(h.mem, Bk(h.mem, q), Fd(h.mem, q)), a)
    requires forall a {:trigger W(n, a)} :: W(n, a) == (
               if a == Bk(h.mem, q) + 8 then Fd(h.mem, q) else if a == Fd(h.mem, q) + 12 then Bk(h.mem, q) else W(m, a))
    requires Roomy(n, g.limit)
    ensures HalfFreed(n, g, q, false, next, SizeAt(h, next))
  {
    var b, f := Bk(h.mem, q), Fd(h.mem, q);
    assert next != b + 8 && next != f + 8;
    forall a | a != q + 4 ensures W(n, a) == HalfWord(g, q, false, next, SizeAt(h, next), a) {
      BackWord(W(m, a), W(n, a), W(h.mem, a), W(g.mem, a), h.mem, next, SizeAt(h, next), b, f, a);
    }
  }

  lemma BackWord(w: int, v: int, u: int, x: int, m: Mem, next: int, sz: int, b: int, f: int, a: int)
    requires b % 8 == 0 && f % 8 == 0 && next % 8 == 0 && next != b + 8 && next != f + 8
    requires u == W(m, a) && x == W(Bypass(m, b, f), a)
    requires w == (if a == next + 4 then sz else u)
    requires v == if a == b + 8 then f else if a == f + 12 then b else w
    ensures v == if a == next + 4 then sz else x
  {
  }

  lemma BackRemainderWords(m: Mem, h: Heap, g: Heap, q: int, p0: int, next: int)
    requires HalfFreed(m, h, p0, false, next, SizeAt(h, next)) && Head(m, p0) == Head(h.mem, p0) &&
             BackFacts(h, q, p0, next)
    requires h.chunks[q].status.bin == 1 && g.limit == h.limit
    requires forall a {:trigger W(g.mem, a)} ::
               a != q + 4 ==> W(g.mem, a) == W(Bypass(h.mem, Bk(h.mem, q), Fd(h.mem, q)), a)
    ensures HalfFreed(m, g, q, true, next, SizeAt(h, next))
  {
    var lr := BinAt(1);
    assert Bk(h.mem, q) == lr && Fd(h.mem, q) == lr && Fd(h.mem, lr) == q && Bk(h.mem, lr) == q;
    forall a | a != q + 4 ensures W(m, a) == HalfWord(g, q, true, next, SizeAt(h, next), a) {
      assert W(m, a) == if a == next + 4 then SizeAt(h, next) else W(h.mem, a);
      assert W(g.mem, a) == if a == lr + 8 || a == lr + 12 then lr else W(h.mem, a);
    }
  }
}
