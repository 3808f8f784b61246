/**
 The heap invariant of the allocator: tiling, boundary tags, bins and the block index
 (uboot/common/dlmalloc.c).
 */
module HeapModel {
  import opened HeapLayout
  import opened HeapRings
  import opened HeapTiles

  /** Memory together with the tiling and the bin lists it encodes. */
  datatype Heap = Heap(mem: Mem, base: int, brk: int, limit: int, top: int, chunks: Chunks, bins: seq<seq<int>>)

  ghost predicate Header(y: int) { exists i :: 1 <= i < NAV && y == BinAt(i) }

  ghost predicate Distinct(l: seq<int>) { forall j, k :: 0 <= j < k < |l| ==> l[j] != l[k] }

  ghost predicate Descending(c: Chunks, l: seq<int>)
  {
    forall j, k :: 0 <= j < k < |l| && l[j] in c && l[k] in c ==> c[l[j]].size >= c[l[k]].size
  }

  /** A free chunk is in the bin it names, which is the bin of its size unless it is the last remainder. */
  ghost predicate AtHome(c: Chunks, bins: seq<seq<int>>, p: int)
    requires p in c && c[p].status.Free?
  {
    var i := c[p].status.bin;
    1 <= i < |bins| && p in bins[i] && (i >= 2 ==> BinIndex(c[p].size) == i)
  }

  /** The bins hold exactly the free chunks, each once, largest first; bin 1 holds at most one. */
  ghost predicate Filed(c: Chunks, bins: seq<seq<int>>)
  {
    && |bins| == NAV && bins[0] == [] && |bins[1]| <= 1
    && (forall i, k {:trigger bins[i][k]} :: 0 <= i < NAV && 0 <= k < |bins[i]| ==>
          bins[i][k] in c && c[bins[i][k]].status == Free(i))
    && (forall p {:trigger AtHome(c, bins, p)} :: p in c && c[p].status.Free? ==> AtHome(c, bins, p))
    && (forall i {:trigger bins[i]} :: 0 <= i < NAV ==> Distinct(bins[i]))
    && (forall i {:trigger bins[i]} :: 2 <= i < NAV ==> Descending(c, bins[i]))
  }

  /** Each of the bins 1..n-1 is a ring. */
  ghost predicate Linked(m: Mem, bins: seq<seq<int>>, n: nat := NAV)
    requires n <= |bins|
  {
    n <= 1 || (Linked(m, bins, n - 1) && Ring(m, BinAt(n - 1), bins[n - 1]))
  }

  lemma {:induction false} LinkedAt(m: Mem, bins: seq<seq<int>>, i: nat, n: nat := NAV)
    requires n <= |bins| && Linked(m, bins, n) && 1 <= i < n
    ensures Ring(m, BinAt(i), bins[i])
  {
    if i < n - 1 { LinkedAt(m, bins, i, n - 1); }
  }

  lemma {:induction false} LinkedIf(m: Mem, bins: seq<seq<int>>, n: nat := NAV)
    requires n <= |bins|
    requires forall i {:trigger bins[i]} :: 1 <= i < n ==> Ring(m, BinAt(i), bins[i])
    ensures Linked(m, bins, n)
  {
    if n > 1 { LinkedIf(m, bins, n - 1); }
  }

  /** A block of four bins with a non-empty bin has its bit set in `binblocks`. */
  ghost predicate Marked(m: Mem, bins: seq<seq<int>>)
    requires |bins| == NAV
  {
    && 0 <= W(m, BINBLOCKS) < Pow2(32)
    && forall i {:trigger bins[i]} :: 2 <= i < NAV && bins[i] != [] ==> Bit(W(m, BINBLOCKS), i / 4)
  }

  const MAX_ARENA := 0x7FFF_F000

  /** The parts of the heap invariant. */
  ghost predicate Consistent(h: Heap)
  {
    && Roomy(h.mem, h.limit) && h.brk <= h.limit < TWO32 && h.brk - h.base < MAX_ARENA
    && Geometry(h.chunks, h.base, h.brk, h.top)
    && Tagged(h.mem, h.chunks, h.top)
    && Filed(h.chunks, h.bins)
    && Linked(h.mem, h.bins)
    && Marked(h.mem, h.bins)
    && W(h.mem, TOP) == h.top
  }

  /** The heap invariant, counting off the bins: below n they are rings, and the rest is consistent. */
  ghost predicate HeapOK(h: Heap, n: nat := NAV)
  {
    && |h.bins| == NAV && n <= NAV
    && if n == 0 then Consistent(h) else HeapOK(h, n - 1) && (n > 1 ==> Ring(h.mem, BinAt(n - 1), h.bins[n - 1]))
  }

  lemma {:induction false} Open(h: Heap, n: nat := NAV)
    requires HeapOK(h, n)
    ensures Consistent(h)
  {
    if n > 0 { Open(h, n - 1); }
  }

  lemma {:induction false} Close(h: Heap, n: nat := NAV)
    requires Consistent(h) && n <= NAV
    ensures HeapOK(h, n)
  {
    if n > 0 {
      Close(h, n - 1);
      if n > 1 { LinkedAt(h.mem, h.bins, n - 1); }
    }
  }

  // ---- which words an operation may touch ---------------------------------------------

  /** The block at q is still allocated, with the same size and the same contents. */
  ghost predicate KeptBlock(h: Heap, h': Heap, q: int)
    requires q in h.chunks
  {
    && q in h'.chunks && h'.chunks[q] == h.chunks[q]
    && forall a {:trigger W(h'.mem, a)} :: q + 8 <= a < q + h.chunks[q].size + 4 ==> W(h'.mem, a) == W(h.mem, a)
  }

  /** A word outside the bins and the memory set aside for the heap is not touched. */
  ghost predicate KeptOutside(h: Heap, h': Heap, a: int)
  {
    a < AV || AV_END <= a < h.base || h.limit <= a ==> W(h'.mem, a) == W(h.mem, a)
  }

  ghost predicate Live(h: Heap, q: int) { q in h.chunks && h.chunks[q].status == InUse }

  /** The same blocks are allocated. */
  ghost predicate SameLive(h: Heap, h': Heap)
  {
    forall q {:trigger Live(h', q)} {:trigger Live(h, q)} :: Live(h', q) <==> Live(h, q)
  }

  /** Every allocated block outside X is kept, and so is memory outside the heap and the bins. */
  ghost predicate Kept(h: Heap, h': Heap, X: set<int>)
  {
    && h'.base == h.base && h'.limit == h.limit
    && (forall q {:trigger KeptBlock(h, h', q)} :: Live(h, q) && q !in X ==> KeptBlock(h, h', q))
    && (forall a {:trigger KeptOutside(h, h', a)} :: KeptOutside(h, h', a))
  }

  lemma KeptTwice(h: Heap, h1: Heap, h2: Heap, X: set<int>, Y: set<int>)
    requires Kept(h, h1, X) && Kept(h1, h2, Y)
    ensures Kept(h, h2, X + Y)
  {
    forall q | Live(h, q) && q !in X + Y ensures KeptBlock(h, h2, q) {
      assert KeptBlock(h, h1, q);
      assert KeptBlock(h1, h2, q);
    }
    forall a ensures KeptOutside(h, h2, a) {
      assert KeptOutside(h, h1, a) && KeptOutside(h1, h2, a);
    }
  }

  // ---- separation facts -----------------------------------------------------------------

  ghost predicate LinkNode(c: Chunks, y: int) { (y in c && c[y].status.Free?) || Header(y) }

  /** Link words of list nodes are never boundary tags. */
  lemma TagOffLinks(c: Chunks, base: int, brk: int, top: int, p: int, y: int)
    requires Geometry(c, base, brk, top) && p in c && (y in c || Header(y))
    ensures p != y + 8 && p != y + 12 && p + 4 != y + 8 && p + 4 != y + 12
    ensures y % 8 == 0
  {
    if y in c && p != y { Disjoint(c, base, brk, top, p, y); }
  }

  /** A change confined to link words and to the tag of one chunk. */
  ghost predicate LinkWrite(m: Mem, n: Mem, x: int, b: int, f: int, nx: int)
  {
    forall z {:trigger W(n, z)} :: W(n, z) != W(m, z) ==>
      z in {x + 8, x + 12, b + 8, f + 12, nx, nx + 4}
  }

  lemma LinkWriteTags(m: Mem, n: Mem, c: Chunks, base: int, brk: int, top: int, x: int, b: int, f: int, nx: int)
    requires Geometry(c, base, brk, top) && x in c && nx in c && LinkNode(c, b) && LinkNode(c, f)
    requires LinkWrite(m, n, x, b, f, nx)
    ensures SameTags(m, n, c, nx)
  {
    forall p | p in c && p != nx ensures Head(n, p) == Head(m, p) && W(n, p) == W(m, p) {
      TagOffLinks(c, base, brk, top, p, x);
      TagOffLinks(c, base, brk, top, p, b);
      TagOffLinks(c, base, brk, top, p, f);
    }
  }

  lemma BinNodes(c: Chunks, base: int, brk: int, top: int, bins: seq<seq<int>>, i: int)
    requires Cells(c, base, brk, top) && Filed(c, bins) && 1 <= i < NAV
    ensures Nodes(BinAt(i), bins[i])
    ensures forall k {:trigger Node(BinAt(i), bins[i], k)} :: LinkNode(c, Node(BinAt(i), bins[i], k))
  {
    var h, l := BinAt(i), bins[i];
    forall k | 0 <= k < |l| ensures l[k] % 8 == 0 && l[k] != h && LinkNode(c, l[k]) {
      assert l[k] in c && c[l[k]].status == Free(i);
    }
    assert Distinct(l);
    assert Header(h);
  }

  /** Nodes of different bins are different. */
  lemma BinsApart(c: Chunks, base: int, brk: int, top: int, bins: seq<seq<int>>, i: int, j: int, k: int, l: int)
    requires Cells(c, base, brk, top) && Filed(c, bins) && 1 <= i < NAV && 1 <= j < NAV && i != j
    ensures Node(BinAt(i), bins[i], k) != Node(BinAt(j), bins[j], l)
  {
    if 0 <= k < |bins[i]| { assert bins[i][k] in c; }
    if 0 <= l < |bins[j]| { assert bins[j][l] in c; }
  }

  /** Words that are no link word of any node do not matter to the lists. */
  lemma LinkedFrame(m: Mem, n: Mem, c: Chunks, base: int, brk: int, top: int, bins: seq<seq<int>>)
    requires Cells(c, base, brk, top) && Filed(c, bins) && Linked(m, bins)
    requires forall y {:trigger LinkNode(c, y)} :: LinkNode(c, y) ==> Fd(n, y) == Fd(m, y) && Bk(n, y) == Bk(m, y)
    ensures Linked(n, bins)
  {
    forall i | 1 <= i < NAV ensures Ring(n, BinAt(i), bins[i]) {
      LinkedAt(m, bins, i);
      BinNodes(c, base, brk, top, bins, i);
      var h, l := BinAt(i), bins[i];
      assert LinkNode(c, Node(h, l, -1));
      forall k | 0 <= k < |l| ensures Fd(n, l[k]) == Fd(m, l[k]) && Bk(n, l[k]) == Bk(m, l[k]) {
        assert LinkNode(c, Node(h, l, k));
      }
      RingFrame(m, n, h, l);
    }
    LinkedIf(n, bins);
  }
}
