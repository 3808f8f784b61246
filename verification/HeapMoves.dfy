/**
 The elementary changes of a heap from which malloc, free, realloc and memalign are made,
 each with its stores to memory. Every one of them keeps the heap invariant.
 */
module HeapMoves {
  import opened HeapLayout
  import opened HeapRings
  import opened HeapTiles
  import opened HeapModel

  // ---- bins -----------------------------------------------------------------------------

  lemma FiledTakeMembers(c: Chunks, bins: seq<seq<int>>, x: int, i: int, k: nat)
    requires Filed(c, bins) && 1 <= i < NAV && k < |bins[i]| && bins[i][k] == x
    ensures var d, bins' := c[x := Chunk(c[x].size, InUse)], bins[i := Without(bins[i], k)];
      forall j, n {:trigger bins'[j][n]} :: 0 <= j < NAV && 0 <= n < |bins'[j]| ==>
          bins'[j][n] in d && d[bins'[j][n]].status == Free(j)
  {
    var d := c[x := Chunk(c[x].size, InUse)];
    var l, l' := bins[i], Without(bins[i], k);
    var bins' := bins[i := l'];
    assert Distinct(l);
    forall j, n | 0 <= j < NAV && 0 <= n < |bins'[j]| ensures bins'[j][n] in d && d[bins'[j][n]].status == Free(j) {
      if j == i {
        assert l'[n] == l[if n < k then n else n + 1];
      } else {
        assert bins[j][n] in c && c[bins[j][n]].status == Free(j);
      }
    }
  }

  lemma FiledTake(c: Chunks, bins: seq<seq<int>>, x: int, i: int, k: nat)
    requires Filed(c, bins) && 1 <= i < NAV && k < |bins[i]| && bins[i][k] == x
    ensures Filed(c[x := Chunk(c[x].size, InUse)], bins[i := Without(bins[i], k)])
  {
    var d := c[x := Chunk(c[x].size, InUse)];
    var l, l' := bins[i], Without(bins[i], k);
    var bins' := bins[i := l'];
    FiledTakeMembers(c, bins, x, i, k);
    forall p | p in d && d[p].status.Free? ensures AtHome(d, bins', p) { AtHomeTake(c, bins, x, i, k, p); }
    forall j | 2 <= j < NAV ensures Descending(d, bins'[j]) {
      assert Descending(c, bins[j]);
      if j == i { DescendingTake(c, d, l, k); }
    }
    forall j | 0 <= j < NAV ensures Distinct(bins'[j]) {
      assert Distinct(bins[j]);
      if j == i { DistinctTake(l, k); }
    }
  }

  lemma AtHomeTake(c: Chunks, bins: seq<seq<int>>, x: int, i: int, k: nat, p: int)
    requires Filed(c, bins) && 1 <= i < NAV && k < |bins[i]| && bins[i][k] == x && p in c && p != x && c[p].status.Free?
    ensures AtHome(c[x := Chunk(c[x].size, InUse)], bins[i := Without(bins[i], k)], p)
  {
    assert AtHome(c, bins, p);
    var l, l' := bins[i], Without(bins[i], k);
    if c[p].status.bin == i {
      var n :| 0 <= n < |l| && l[n] == p;
      assert l'[if n < k then n else n - 1] == p;
    }
  }

  lemma DistinctTake(l: seq<int>, k: nat)
    requires k < |l| && Distinct(l)
    ensures Distinct(Without(l, k))
  {
    var l' := Without(l, k);
    forall i, j | 0 <= i < j < |l'| ensures l'[i] != l'[j] {
      assert l'[i] == l[if i < k then i else i + 1] && l'[j] == l[if j < k then j else j + 1];
    }
  }

  lemma DescendingTake(c: Chunks, d: Chunks, l: seq<int>, k: nat)
    requires k < |l| && Descending(c, l) && forall p :: p in c ==> p in d && d[p].size == c[p].size
    requires forall p :: p in d ==> p in c
    ensures Descending(d, Without(l, k))
  {
    var l' := Without(l, k);
    forall i, j | 0 <= i < j < |l'| && l'[i] in d && l'[j] in d ensures d[l'[i]].size >= d[l'[j]].size {
      assert l'[i] == l[if i < k then i else i + 1] && l'[j] == l[if j < k then j else j + 1];
    }
  }

  ghost predicate Fits(c: Chunks, l: seq<int>, k: int, size: int)
  {
    && (forall j :: 0 <= j < k && j < |l| && l[j] in c ==> c[l[j]].size >= size)
    && (forall j :: k <= j < |l| && 0 <= j && l[j] in c ==> size >= c[l[j]].size)
  }

  /** Where a chunk of the given size may be filed. */
  ghost predicate Place(c: Chunks, bins: seq<seq<int>>, size: int, i: int, k: int)
  {
    && |bins| == NAV && 1 <= i < NAV && 0 <= k <= |bins[i]|
    && (i == 1 ==> bins[1] == [])
    && (i >= 2 ==> BinIndex(size) == i && Fits(c, bins[i], k, size))
  }

  lemma FiledGiveMembers(c: Chunks, bins: seq<seq<int>>, x: int, i: int, k: nat)
    requires Filed(c, bins) && x in c && c[x].status == InUse && Place(c, bins, c[x].size, i, k)
    ensures var bins' := bins[i := With(bins[i], k, x)];
      var d := c[x := Chunk(c[x].size, Free(i))];
      && (forall j, n {:trigger bins'[j][n]} ::
            0 <= j < NAV && 0 <= n < |bins'[j]| ==> bins'[j][n] in d && d[bins'[j][n]].status == Free(j))
      && (forall j {:trigger bins'[j]} :: 0 <= j < NAV ==> Distinct(bins'[j]))
  {
    var d := c[x := Chunk(c[x].size, Free(i))];
    var l, l' := bins[i], With(bins[i], k, x);
    var bins' := bins[i := l'];
    assert Distinct(l);
    assert forall j {:trigger l'[j]} ::
             0 <= j < |l'| ==> l'[j] == if j < k then l[j] else if j == k then x else l[j - 1];
    forall j, n | 0 <= j < NAV && 0 <= n < |bins'[j]| ensures bins'[j][n] in d && d[bins'[j][n]].status == Free(j) {
      if j == i {
        assert l'[n] == x || l'[n] == bins[i][if n < k then n else n - 1];
      } else {
        assert bins[j][n] in c && c[bins[j][n]].status == Free(j);
      }
    }
    forall j, n | 0 <= j < n < |l'| ensures l'[j] != l'[n] {
      if j < k { assert bins[i][j] in c; }
      if n > k { assert bins[i][n - 1] in c; }
    }
    assert forall j :: 0 <= j < NAV && j != i ==> bins'[j] == bins[j];
  }

  lemma FiledGive(c: Chunks, bins: seq<seq<int>>, x: int, i: int, k: nat)
    requires Filed(c, bins) && x in c && c[x].status == InUse && Place(c, bins, c[x].size, i, k)
    ensures Filed(c[x := Chunk(c[x].size, Free(i))], bins[i := With(bins[i], k, x)])
  {
    var d := c[x := Chunk(c[x].size, Free(i))];
    var l, l' := bins[i], With(bins[i], k, x);
    var bins' := bins[i := l'];
    FiledGiveMembers(c, bins, x, i, k);
    assert forall j {:trigger l'[j]} ::
             0 <= j < |l'| ==> l'[j] == if j < k then l[j] else if j == k then x else l[j - 1];
    assert l'[k] == x;
    forall p | p in d && d[p].status.Free? ensures AtHome(d, bins', p) {
      if p != x {
        assert AtHome(c, bins, p);
        if c[p].status.bin == i {
          var n :| 0 <= n < |l| && l[n] == p;
          assert l'[if n < k then n else n + 1] == p;
        }
      }
    }
    forall j | 2 <= j < NAV ensures Descending(d, bins'[j]) {
      assert Descending(c, bins[j]);
      if j == i { GiveDescending(c, l, k, x, i); }
    }
  }

  lemma GiveDescending(c: Chunks, l: seq<int>, k: nat, x: int, i: int)
    requires x in c && c[x].status == InUse && k <= |l| && Fits(c, l, k, c[x].size) && Descending(c, l) && x !in l
    requires forall n {:trigger l[n]} :: 0 <= n < |l| ==> l[n] in c
    ensures Descending(c[x := Chunk(c[x].size, Free(i))], With(l, k, x))
  {
    var l' := With(l, k, x);
    assert forall j {:trigger l'[j]} ::
             0 <= j < |l'| ==> l'[j] == if j < k then l[j] else if j == k then x else l[j - 1];
  }

  /** Bins only depend on the free chunks. */
  lemma FiledFrame(c: Chunks, d: Chunks, bins: seq<seq<int>>)
    requires Filed(c, bins)
    requires forall p {:trigger p in c} {:trigger p in d} :: p in c && c[p].status.Free? ==> p in d && d[p] == c[p]
    requires forall p {:trigger p in d} :: p in d && d[p].status.Free? ==> p in c && d[p] == c[p]
    ensures Filed(d, bins)
  {
    forall i, k | 0 <= i < NAV && 0 <= k < |bins[i]|
      ensures bins[i][k] in d && bins[i][k] in c && d[bins[i][k]] == c[bins[i][k]] && d[bins[i][k]].status == Free(i)
    {
      var p := bins[i][k];
      assert p in c && c[p].status == Free(i);
      assert c[p].status.Free?;
      assert p in d && d[p] == c[p];
    }
    forall p | p in d && d[p].status.Free? ensures AtHome(d, bins, p) {
      assert AtHome(c, bins, p);
    }
    forall i | 2 <= i < NAV ensures Descending(d, bins[i]) {
      assert Descending(c, bins[i]);
      forall j, k | 0 <= j < k < |bins[i]| && bins[i][j] in d && bins[i][k] in d
        ensures d[bins[i][j]].size >= d[bins[i][k]].size
      {
        assert bins[i][j] in c && bins[i][k] in c;
      }
    }
    forall i | 0 <= i < NAV ensures Distinct(bins[i]) { }
  }

  lemma LinkedBypass(m: Mem, c: Chunks, base: int, brk: int, top: int, bins: seq<seq<int>>, i: int, k: nat)
    requires Cells(c, base, brk, top) && Filed(c, bins) && Linked(m, bins) && 1 <= i < NAV && k < |bins[i]|
    ensures var x := bins[i][k]; Linked(Bypass(m, Bk(m, x), Fd(m, x)), bins[i := Without(bins[i], k)])
    ensures var x := bins[i][k]; LinkNode(c, Bk(m, x)) && LinkNode(c, Fd(m, x))
  {
    var hd, l := BinAt(i), bins[i];
    var x := l[k];
    LinkedAt(m, bins, i);
    RingAt(m, hd, l, k);
    BinNodes(c, base, brk, top, bins, i);
    RingUnlink(m, hd, l, k);
    assert Bk(m, x) == Node(hd, l, k - 1) && Fd(m, x) == Node(hd, l, k + 1);
    assert LinkNode(c, Node(hd, l, k - 1)) && LinkNode(c, Node(hd, l, k + 1));
    var n := Bypass(m, Bk(m, x), Fd(m, x));
    var bins' := bins[i := Without(l, k)];
    forall j | 1 <= j < NAV ensures Ring(n, BinAt(j), bins'[j]) {
      if j != i { OtherRing(m, n, c, base, brk, top, bins, i, j, k - 1, k + 1); }
    }
    LinkedIf(n, bins');
  }

  /** Rewriting the links of nodes of one bin leaves the ring of another bin alone. */
  lemma OtherRing(m: Mem, n: Mem, c: Chunks, base: int, brk: int, top: int, bins: seq<seq<int>>, i: int, j: int, a: int,
      b: int)
    requires Cells(c, base, brk, top) && Filed(c, bins) && Linked(m, bins) && 1 <= i < NAV && 1 <= j < NAV && i != j
    requires forall z {:trigger W(n, z)} :: W(n, z) != W(m, z) ==>
      z == Node(BinAt(i), bins[i], a) + 8 || z == Node(BinAt(i), bins[i], b) + 12
    ensures Ring(n, BinAt(j), bins[j])
  {
    var hd, l := BinAt(j), bins[j];
    BinNodes(c, base, brk, top, bins, i);
    BinNodes(c, base, brk, top, bins, j);
    var u, v := Node(BinAt(i), bins[i], a), Node(BinAt(i), bins[i], b);
    assert LinkNode(c, u) && LinkNode(c, v);
    forall k | -1 <= k < |l| ensures Fd(n, Node(hd, l, k)) == Fd(m, Node(hd, l, k)) &&
        Bk(n, Node(hd, l, k)) == Bk(m, Node(hd, l, k)) {
      BinsApart(c, base, brk, top, bins, i, j, a, k);
      BinsApart(c, base, brk, top, bins, i, j, b, k);
    }
    assert Node(hd, l, -1) == hd;
    forall k | 0 <= k < |l| ensures Fd(n, l[k]) == Fd(m, l[k]) && Bk(n, l[k]) == Bk(m, l[k]) {
      assert l[k] == Node(hd, l, k);
    }
    LinkedAt(m, bins, j);
    RingFrame(m, n, hd, l);
  }

  lemma LinkedLink(m: Mem, c: Chunks, base: int, brk: int, top: int, bins: seq<seq<int>>, x: int, i: int, k: nat)
    requires Cells(c, base, brk, top) && Filed(c, bins) && Linked(m, bins) && 1 <= i < NAV && k <= |bins[i]|
    requires x in c && !c[x].status.Free?
    ensures var hd := BinAt(i);
      Linked(LinkBetween(m, x, Node(hd, bins[i], k - 1), Node(hd, bins[i], k)), bins[i := With(bins[i], k, x)])
    ensures LinkNode(c, Node(BinAt(i), bins[i], k - 1)) && LinkNode(c, Node(BinAt(i), bins[i], k))
  {
    var hd, l := BinAt(i), bins[i];
    BinNodes(c, base, brk, top, bins, i);
    var u, v := Node(hd, l, k - 1), Node(hd, l, k);
    assert LinkNode(c, u) && LinkNode(c, v);
    assert x !in l;
    LinkedAt(m, bins, i);
    RingLink(m, hd, l, k, x);
    var m1 := Store(Store(m, x + 12, u), x + 8, v);
    var n := LinkBetween(m, x, u, v);
    LinkedFrame(m, m1, c, base, brk, top, bins) by {
      forall y | LinkNode(c, y) ensures Fd(m1, y) == Fd(m, y) && Bk(m1, y) == Bk(m, y) { }
    }
    var bins' := bins[i := With(l, k, x)];
    forall j | 1 <= j < NAV ensures Ring(n, BinAt(j), bins'[j]) {
      if j != i { OtherRing(m1, n, c, base, brk, top, bins, i, j, k - 1, k); }
    }
    LinkedIf(n, bins');
  }

  ghost predicate Geo(h: Heap) { Geometry(h.chunks, h.base, h.brk, h.top) && h.brk <= h.limit }

  // ---- frames of single stores -----------------------------------------------------------

  /** A store to a word of the tag of chunk p. */
  ghost predicate TagWord(p: int, a: int) { a == p || a == p + 4 }

  lemma LinkedTagStore(m: Mem, c: Chunks, base: int, brk: int, top: int, bins: seq<seq<int>>, p: int, a: int, v: int)
    requires Geometry(c, base, brk, top) && Filed(c, bins) && Linked(m, bins) && p in c && TagWord(p, a)
    ensures Linked(Store(m, a, v), bins)
  {
    var n := Store(m, a, v);
    forall y | LinkNode(c, y) ensures Fd(n, y) == Fd(m, y) && Bk(n, y) == Bk(m, y) {
      TagOffLinks(c, base, brk, top, p, y);
    }
    LinkedFrame(m, n, c, base, brk, top, bins);
  }

  lemma LinkedTagStores(m: Mem, c: Chunks, base: int, brk: int, top: int, bins: seq<seq<int>>, p: int, v: int, w: int)
    requires Geometry(c, base, brk, top) && Filed(c, bins) && Linked(m, bins) && p in c
    ensures Linked(Store(Store(m, p + 4, v), p, w), bins)
  {
    LinkedTagStore(m, c, base, brk, top, bins, p, p + 4, v);
    LinkedTagStore(Store(m, p + 4, v), c, base, brk, top, bins, p, p, w);
  }

  lemma MarkedFrame(m: Mem, n: Mem, bins: seq<seq<int>>, bins': seq<seq<int>>)
    requires |bins| == |bins'| == NAV && Marked(m, bins)
    requires W(n, BINBLOCKS) == W(m, BINBLOCKS)
    requires forall i {:trigger bins'[i]} :: 2 <= i < NAV && bins'[i] != [] ==> bins[i] != []
    ensures Marked(n, bins')
  {
  }

  /** Link words of list nodes, and tags, lie outside the payload of a chunk in use. */
  lemma LinksOffPayload(c: Chunks, base: int, brk: int, top: int, q: int, y: int)
    requires Geometry(c, base, brk, top) && q in c && c[q].status == InUse && LinkNode(c, y)
    ensures y + 12 < q + 8 || q + c[q].size + 4 <= y + 8
  {
    if y in c && c[y].status.Free? { Disjoint(c, base, brk, top, q, y); }
  }

  lemma HeadOffPayload(c: Chunks, base: int, brk: int, top: int, q: int, p: int)
    requires Geometry(c, base, brk, top) && q in c && p in c
    ensures p + 4 < q + 8 || q + c[q].size + 4 <= p + 4
    ensures p != q && q + c[q].size != p ==> p < q + 8 || q + c[q].size + 4 <= p
  {
    if p != q { Disjoint(c, base, brk, top, q, p); }
  }

  // ---- taking a chunk from its bin --------------------------------------------------------

  /** `unlink` followed by `set_inuse`. */
  ghost function Take(h: Heap, x: int, k: nat): Heap
    requires x in h.chunks && h.chunks[x].status.Free? && 0 <= h.chunks[x].status.bin < |h.bins|
    requires k < |h.bins[h.chunks[x].status.bin]|
  {
    var i, nx := h.chunks[x].status.bin, Next(h.chunks, x);
    h.(mem := Store(Bypass(h.mem, Bk(h.mem, x), Fd(h.mem, x)), nx + 4, Head(h.mem, nx) + 1),
       chunks := h.chunks[x := Chunk(h.chunks[x].size, InUse)],
       bins := h.bins[i := Without(h.bins[i], k)])
  }

  ghost predicate InBin(h: Heap, x: int, k: int)
  {
    && x in h.chunks && h.chunks[x].status.Free? && 1 <= h.chunks[x].status.bin < |h.bins|
    && 0 <= k < |h.bins[h.chunks[x].status.bin]| && h.bins[h.chunks[x].status.bin][k] == x
  }

  lemma TakeTagged(h: Heap, x: int, k: nat)
    requires Consistent(h) && InBin(h, x, k)
    ensures Tagged(Take(h, x, k).mem, Take(h, x, k).chunks, h.top)
    ensures Geometry(Take(h, x, k).chunks, h.base, h.brk, h.top)
  {
    var c, i, nx := h.chunks, h.chunks[x].status.bin, Next(h.chunks, x);
    var b, f := Bk(h.mem, x), Fd(h.mem, x);
    LinkedBypass(h.mem, c, h.base, h.brk, h.top, h.bins, i, k);
    AfterFree(h.mem, c, h.base, h.brk, h.top, x);
    var n := Take(h, x, k).mem;
    LinkWriteTags(h.mem, n, c, h.base, h.brk, h.top, x, b, f, nx);
    TakeTags(h.mem, n, c, h.base, h.brk, h.top, x) by {
      LinkWordsAddress(h, b);
      LinkWordsAddress(h, f);
      TagOffLinks(c, h.base, h.brk, h.top, nx, b);
      TagOffLinks(c, h.base, h.brk, h.top, nx, f);
    }
    TakeGeometry(c, h.base, h.brk, h.top, x, InUse);
  }

  lemma TakeKept(h: Heap, x: int, k: nat)
    requires Geo(h) && InBin(h, x, k) && Next(h.chunks, x) in h.chunks && W(h.mem, TOP) == h.top
    requires LinkNode(h.chunks, Bk(h.mem, x)) && LinkNode(h.chunks, Fd(h.mem, x))
    ensures Kept(h, Take(h, x, k), {})
    ensures W(Take(h, x, k).mem, TOP) == h.top
    ensures W(Take(h, x, k).mem, BINBLOCKS) == W(h.mem, BINBLOCKS)
  {
    var c, nx := h.chunks, Next(h.chunks, x);
    var b, f := Bk(h.mem, x), Fd(h.mem, x);
    LinkWordsAddress(h, b);
    LinkWordsAddress(h, f);
    var h' := Take(h, x, k);
    forall q | Live(h, q) ensures KeptBlock(h, h', q) {
      LinksOffPayload(c, h.base, h.brk, h.top, q, b);
      LinksOffPayload(c, h.base, h.brk, h.top, q, f);
      HeadOffPayload(c, h.base, h.brk, h.top, q, nx);
    }
  }

  /** Link words lie in the bin array past `top`, or inside the arena. */
  lemma LinkWordsAddress(h: Heap, y: int)
    requires Cells(h.chunks, h.base, h.brk, h.top) && LinkNode(h.chunks, y)
    ensures y % 8 == 0
    ensures TOP < y + 8 && (y + 12 < AV_END || (h.base + 8 <= y + 8 && y + 12 < h.brk))
  {
  }

  lemma TakeLinked(h: Heap, x: int, k: nat)
    requires Geo(h) && Filed(h.chunks, h.bins) && Linked(h.mem, h.bins) && InBin(h, x, k)
    requires Next(h.chunks, x) in h.chunks && Geo(Take(h, x, k))
    ensures Filed(Take(h, x, k).chunks, Take(h, x, k).bins) && Linked(Take(h, x, k).mem, Take(h, x, k).bins)
  {
    var c, i, nx := h.chunks, h.chunks[x].status.bin, Next(h.chunks, x);
    var h' := Take(h, x, k);
    FiledTake(c, h.bins, x, i, k);
    LinkedBypass(h.mem, c, h.base, h.brk, h.top, h.bins, i, k);
    LinkedTagStore(Bypass(h.mem, Bk(h.mem, x), Fd(h.mem, x)), h'.chunks, h.base, h.brk, h.top, h'.bins, nx, nx + 4,
        Head(h.mem, nx) + 1);
  }

  lemma TakeOK(h: Heap, x: int, k: nat)
    requires HeapOK(h) && InBin(h, x, k)
    ensures HeapOK(Take(h, x, k)) && Kept(h, Take(h, x, k), {})
  {
    Open(h);
    TakeTagged(h, x, k);
    AfterFree(h.mem, h.chunks, h.base, h.brk, h.top, x);
    LinkedBypass(h.mem, h.chunks, h.base, h.brk, h.top, h.bins, h.chunks[x].status.bin, k);
    TakeKept(h, x, k);
    TakeLinked(h, x, k);
    MarkedFrame(h.mem, Take(h, x, k).mem, h.bins, Take(h, x, k).bins);
    Close(Take(h, x, k));
  }

  // ---- filing a chunk in a bin ------------------------------------------------------------

  /** `mark_binblock` for a size bin. */
  ghost function Mark(m: Mem, i: int): Mem
  {
    if 2 <= i then Store(m, BINBLOCKS, SetBit(W(m, BINBLOCKS), i / 4)) else m
  }

  /** Clears the use bit, sets the footer and links the chunk at position k of bin i. */
  ghost function GiveMem(m: Mem, c: Chunks, l: seq<int>, x: int, i: int, k: nat): Mem
    requires x in c
  {
    var hd, nx := BinAt(i), Next(c, x);
    var m2 := LinkBetween(Mark(m, i), x, Node(hd, l, k - 1), Node(hd, l, k));
    Store(Store(m2, nx + 4, Head(m, nx) - 1), nx, c[x].size)
  }

  ghost function Give(h: Heap, x: int, i: int, k: nat): Heap
    requires x in h.chunks && 0 <= i < |h.bins| && k <= |h.bins[i]|
  {
    var l := h.bins[i];
    h.(mem := GiveMem(h.mem, h.chunks, l, x, i, k),
       chunks := h.chunks[x := Chunk(h.chunks[x].size, Free(i))],
       bins := h.bins[i := With(l, k, x)])
  }

  ghost predicate CanGive(h: Heap, x: int, i: int, k: int)
  {
    && Live(h, x) && PrevInUse(h.mem, x) && Live(h, Next(h.chunks, x))
    && Place(h.chunks, h.bins, h.chunks[x].size, i, k)
  }

  lemma LinkedCellStore(m: Mem, c: Chunks, base: int, brk: int, top: int, bins: seq<seq<int>>, a: int, v: int)
    requires Cells(c, base, brk, top) && Filed(c, bins) && Linked(m, bins) && (a == TOP || a == BINBLOCKS)
    ensures Linked(Store(m, a, v), bins)
  {
    LinkedFrame(m, Store(m, a, v), c, base, brk, top, bins);
  }

  /** The stores of `Give`, seen as one change of memory. */
  lemma GiveWrites(h: Heap, x: int, i: int, k: nat, b: int, f: int)
    requires x in h.chunks && 0 <= i < |h.bins| && k <= |h.bins[i]|
    requires b == Node(BinAt(i), h.bins[i], k - 1) && f == Node(BinAt(i), h.bins[i], k)
    ensures LinkWrite(Mark(h.mem, i), Give(h, x, i, k).mem, x, b, f, Next(h.chunks, x))
    ensures forall a {:trigger W(Mark(h.mem, i), a)} :: a != BINBLOCKS ==> W(Mark(h.mem, i), a) == W(h.mem, a)
  {
  }

  lemma GiveTagged(h: Heap, x: int, i: int, k: nat)
    requires Geo(h) && Tagged(h.mem, h.chunks, h.top) && Filed(h.chunks, h.bins) && CanGive(h, x, i, k)
    ensures Tagged(Give(h, x, i, k).mem, Give(h, x, i, k).chunks, h.top) && Geo(Give(h, x, i, k))
  {
    var c, nx := h.chunks, Next(h.chunks, x);
    var u, v := Node(BinAt(i), h.bins[i], k - 1), Node(BinAt(i), h.bins[i], k);
    BinNodes(c, h.base, h.brk, h.top, h.bins, i);
    assert LinkNode(c, u) && LinkNode(c, v);
    var m1, n := Mark(h.mem, i), Give(h, x, i, k).mem;
    GiveWrites(h, x, i, k, u, v);
    LinkWriteTags(m1, n, c, h.base, h.brk, h.top, x, u, v, nx);
    assert SameTags(h.mem, n, c, nx);
    GiveTags(h.mem, n, c, h.base, h.brk, h.top, x, i);
    TakeGeometry(c, h.base, h.brk, h.top, x, Free(i));
  }

  lemma LinkWriteKeeps(m: Mem, n: Mem, c: Chunks, base: int, brk: int, top: int, x: int, b: int, f: int, q: int)
    requires Geometry(c, base, brk, top) && x in c && Next(c, x) in c && LinkNode(c, b) && LinkNode(c, f)
    requires LinkWrite(m, n, x, b, f, Next(c, x))
    requires q in c && c[q].status == InUse && q != x
    ensures forall a {:trigger W(n, a)} :: q + 8 <= a < q + c[q].size + 4 ==> W(n, a) == W(m, a)
  {
    LinksOffPayload(c, base, brk, top, q, b);
    LinksOffPayload(c, base, brk, top, q, f);
    Disjoint(c, base, brk, top, q, x);
    HeadOffPayload(c, base, brk, top, q, Next(c, x));
  }

  lemma GiveKept(h: Heap, x: int, i: int, k: nat, b: int, f: int)
    requires Geo(h) && CanGive(h, x, i, k) && W(h.mem, TOP) == h.top
    requires b == Node(BinAt(i), h.bins[i], k - 1) && f == Node(BinAt(i), h.bins[i], k)
    requires LinkNode(h.chunks, b) && LinkNode(h.chunks, f)
    ensures Kept(h, Give(h, x, i, k), {x})
    ensures W(Give(h, x, i, k).mem, TOP) == h.top
    ensures W(Give(h, x, i, k).mem, BINBLOCKS) == W(Mark(h.mem, i), BINBLOCKS)
  {
    var c := h.chunks;
    LinkWordsAddress(h, b);
    LinkWordsAddress(h, f);
    GiveWrites(h, x, i, k, b, f);
    var m1, n := Mark(h.mem, i), Give(h, x, i, k).mem;
    forall q | Live(h, q) && q != x ensures KeptBlock(h, Give(h, x, i, k), q) {
      LinkWriteKeeps(m1, n, c, h.base, h.brk, h.top, x, b, f, q);
    }
  }

  lemma GiveLinked(m: Mem, c: Chunks, d: Chunks, base: int, brk: int, top: int, bins: seq<seq<int>>,
      bins': seq<seq<int>>, x: int, i: int, k: nat)
    requires Geometry(c, base, brk, top) && Filed(c, bins) && Linked(m, bins) && 1 <= i < NAV && k <= |bins[i]|
    requires x in c && c[x].status == InUse && bins' == bins[i := With(bins[i], k, x)]
    requires Geometry(d, base, brk, top) && Filed(d, bins') && Next(c, x) in d
    ensures Linked(GiveMem(m, c, bins[i], x, i, k), bins')
  {
    var m2 := LinkBetween(Mark(m, i), x, Node(BinAt(i), bins[i], k - 1), Node(BinAt(i), bins[i], k));
    assert Linked(m2, bins') by {
      LinkedCellStore(m, c, base, brk, top, bins, BINBLOCKS, SetBit(W(m, BINBLOCKS), i / 4));
      LinkedLink(Mark(m, i), c, base, brk, top, bins, x, i, k);
    }
    LinkedTagStores(m2, d, base, brk, top, bins', Next(c, x), Head(m, Next(c, x)) - 1, c[x].size);
  }

  lemma GiveMarked(m: Mem, n: Mem, bins: seq<seq<int>>, x: int, i: int, k: nat)
    requires |bins| == NAV && Marked(m, bins) && 1 <= i < NAV && k <= |bins[i]|
    requires W(n, BINBLOCKS) == W(Mark(m, i), BINBLOCKS)
    ensures Marked(n, bins[i := With(bins[i], k, x)])
  {
    if i >= 2 {
      var w := W(m, BINBLOCKS);
      SetBitIs(w, i / 4, 0);
      forall j | 2 <= j < NAV && (j == i || bins[j] != []) ensures Bit(SetBit(w, i / 4), j / 4) {
        SetBitIs(w, i / 4, j / 4);
      }
    }
  }

  lemma GiveLists(h: Heap, x: int, i: int, k: nat)
    requires Geo(h) && Filed(h.chunks, h.bins) && Linked(h.mem, h.bins) && CanGive(h, x, i, k)
    requires Geo(Give(h, x, i, k))
    ensures Filed(Give(h, x, i, k).chunks, Give(h, x, i, k).bins) && Linked(Give(h, x, i, k).mem, Give(h, x, i, k).bins)
  {
    var c := h.chunks;
    var d, bins' := c[x := Chunk(c[x].size, Free(i))], h.bins[i := With(h.bins[i], k, x)];
    FiledGive(c, h.bins, x, i, k);
    GiveLinked(h.mem, c, d, h.base, h.brk, h.top, h.bins, bins', x, i, k);
  }

  lemma GiveOK(h: Heap, x: int, i: int, k: nat)
    requires HeapOK(h) && CanGive(h, x, i, k)
    ensures HeapOK(Give(h, x, i, k)) && Kept(h, Give(h, x, i, k), {x})
  {
    Open(h);
    GiveTagged(h, x, i, k);
    BinNodes(h.chunks, h.base, h.brk, h.top, h.bins, i);
    GiveKept(h, x, i, k, Node(BinAt(i), h.bins[i], k - 1), Node(BinAt(i), h.bins[i], k));
    GiveLists(h, x, i, k);
    GiveMarked(h.mem, Give(h, x, i, k).mem, h.bins, x, i, k);
    Close(Give(h, x, i, k));
  }

  // ---- merging a chunk in use with a successor in use, or with top --------------------------

  ghost function TagBit(m: Mem, p: int): int { if PrevInUse(m, p) then 1 else 0 }

  ghost function Merge(h: Heap, p: int): Heap
    requires p in h.chunks && Next(h.chunks, p) in h.chunks
  {
    var q := Next(h.chunks, p);
    var m1 := Store(h.mem, p + 4, h.chunks[p].size + h.chunks[q].size + TagBit(h.mem, p));
    h.(mem := if q == h.top then Store(m1, TOP, p) else m1,
       top := if q == h.top then p else h.top,
       chunks := Merged(h.chunks, p))
  }

  ghost predicate CanMerge(h: Heap, p: int)
  {
    && Live(h, p) && Next(h.chunks, p) in h.chunks && !h.chunks[Next(h.chunks, p)].status.Free?
    && (Next(h.chunks, p) == h.top ==> PrevInUse(h.mem, p))
  }

  lemma MergeKept(h: Heap, p: int)
    requires Geo(h) && CanMerge(h, p)
    ensures Kept(h, Merge(h, p), {p, Next(h.chunks, p)})
    ensures SameTags(h.mem, Merge(h, p).mem, Merge(h, p).chunks, p)
    ensures W(Merge(h, p).mem, BINBLOCKS) == W(h.mem, BINBLOCKS) && W(Merge(h, p).mem, p) == W(h.mem, p)
  {
    var c := h.chunks;
    forall q | Live(h, q) && q != p && q != Next(c, p) ensures KeptBlock(h, Merge(h, p), q) {
      HeadOffPayload(c, h.base, h.brk, h.top, q, p);
    }
  }

  lemma MergeLinked(h: Heap, p: int)
    requires Filed(h.chunks, h.bins) && Linked(h.mem, h.bins) && CanMerge(h, p) && h.chunks[p].size > 0
    requires Geo(Merge(h, p))
    ensures Filed(Merge(h, p).chunks, h.bins) && Linked(Merge(h, p).mem, h.bins)
  {
    var c, q := h.chunks, Next(h.chunks, p);
    var h' := Merge(h, p);
    var v := c[p].size + c[q].size + TagBit(h.mem, p);
    FiledFrame(c, h'.chunks, h.bins);
    LinkedTagStore(h.mem, h'.chunks, h.base, h.brk, h'.top, h.bins, p, p + 4, v);
    LinkedCellStore(Store(h.mem, p + 4, v), h'.chunks, h.base, h.brk, h'.top, h.bins, TOP, p);
  }

  lemma MergeOK(h: Heap, p: int)
    requires HeapOK(h) && CanMerge(h, p)
    ensures HeapOK(Merge(h, p)) && Kept(h, Merge(h, p), {p, Next(h.chunks, p)})
  {
    Open(h);
    var c := h.chunks;
    assert p != h.top;
    MergeKept(h, p);
    MergeGeometry(c, h.base, h.brk, h.top, p);
    MergeTags(h.mem, Merge(h, p).mem, c, h.base, h.brk, h.top, p);
    MergeLinked(h, p);
    Close(Merge(h, p));
  }

  // ---- splitting a chunk in use, or top ------------------------------------------------------

  ghost function Split(h: Heap, p: int, nb: int): Heap
    requires p in h.chunks
  {
    var m1 := Store(Store(h.mem, p + 4, nb + TagBit(h.mem, p)), p + nb + 4, h.chunks[p].size - nb + 1);
    h.(mem := if p == h.top then Store(m1, TOP, p + nb) else m1,
       top := if p == h.top then p + nb else h.top,
       chunks := Cut(h.chunks, p, nb))
  }

  ghost predicate CanSplit(h: Heap, p: int, nb: int)
  {
    && p in h.chunks && !h.chunks[p].status.Free?
    && nb % 8 == 0 && MINSIZE <= nb && nb + MINSIZE <= h.chunks[p].size
  }

  lemma SplitKept(h: Heap, p: int, nb: int)
    requires Geo(h) && CanSplit(h, p, nb)
    ensures Kept(h, Split(h, p, nb), {p})
    ensures SameTags(h.mem, Split(h, p, nb).mem, h.chunks, p)
    ensures W(Split(h, p, nb).mem, BINBLOCKS) == W(h.mem, BINBLOCKS) && W(Split(h, p, nb).mem, p) == W(h.mem, p)
  {
    var c, n := h.chunks, Split(h, p, nb).mem;
    CutInside(c, h.base, h.brk, h.top, p, nb);
    forall q | Live(h, q) && q != p ensures KeptBlock(h, Split(h, p, nb), q) {
      Disjoint(c, h.base, h.brk, h.top, q, p);
    }
    forall q | q in c && q != p ensures Head(n, q) == Head(h.mem, q) && W(n, q) == W(h.mem, q) {
      Disjoint(c, h.base, h.brk, h.top, q, p);
    }
  }

  lemma SplitLinked(h: Heap, p: int, nb: int)
    requires Filed(h.chunks, h.bins) && Linked(h.mem, h.bins) && CanSplit(h, p, nb) && p + nb !in h.chunks
    requires Geo(Split(h, p, nb))
    ensures Filed(Split(h, p, nb).chunks, h.bins) && Linked(Split(h, p, nb).mem, h.bins)
  {
    var c := h.chunks;
    var h' := Split(h, p, nb);
    FiledFrame(c, h'.chunks, h.bins);
    var m1 := Store(h.mem, p + 4, nb + TagBit(h.mem, p));
    var m2 := Store(m1, p + nb + 4, c[p].size - nb + 1);
    assert Linked(m2, h.bins) by {
      LinkedTagStore(h.mem, h'.chunks, h.base, h.brk, h'.top, h.bins, p, p + 4, nb + TagBit(h.mem, p));
      LinkedTagStore(m1, h'.chunks, h.base, h.brk, h'.top, h.bins, p + nb, p + nb + 4, c[p].size - nb + 1);
    }
    LinkedCellStore(m2, h'.chunks, h.base, h.brk, h'.top, h.bins, TOP, p + nb);
  }

  lemma SplitOK(h: Heap, p: int, nb: int)
    requires HeapOK(h) && CanSplit(h, p, nb)
    ensures HeapOK(Split(h, p, nb)) && Kept(h, Split(h, p, nb), {p})
  {
    Open(h);
    var h' := Split(h, p, nb);
    CutGeometry(h.chunks, h.base, h.brk, h.top, p, nb);
    SplitKept(h, p, nb);
    assert Head(h'.mem, p) == nb + TagBit(h.mem, p) && Head(h'.mem, p + nb) == h.chunks[p].size - nb + 1;
    CutTags(h.mem, h'.mem, h.chunks, h.base, h.brk, h.top, p, nb);
    CutInside(h.chunks, h.base, h.brk, h.top, p, nb);
    SplitLinked(h, p, nb);
    Close(Split(h, p, nb));
  }

  // ---- writing to a payload -------------------------------------------------------------------

  /** The word at a carries no information of the allocator: payload of a chunk in use, or the
      inside of `top` or of a free chunk. */
  ghost predicate Idle(h: Heap, p: int, a: int)
  {
    && p in h.chunks
    && match h.chunks[p].status {
       case InUse => p + 8 <= a < p + h.chunks[p].size + 4
       case Free(_) => p + 16 <= a < p + h.chunks[p].size
       case Top => p + 8 <= a < p + h.chunks[p].size
     }
  }

  /** Memory n differs from that of h in idle words of chunk p only. */
  ghost predicate Scribbled(h: Heap, p: int, n: Mem)
  {
    p in h.chunks && forall a {:trigger W(n, a)} :: W(n, a) == W(h.mem, a) || Idle(h, p, a)
  }

  lemma ScribbleTags(h: Heap, p: int, n: Mem)
    requires Geo(h) && Scribbled(h, p, n)
    ensures forall q {:trigger q in h.chunks} :: q in h.chunks ==> Head(n, q) == Head(h.mem, q)
    ensures forall q {:trigger q in h.chunks} ::
              q in h.chunks && (q != Next(h.chunks, p) || h.chunks[p].status.Free?) ==> W(n, q) == W(h.mem, q)
  {
    forall q | q in h.chunks
      ensures Head(n, q) == Head(h.mem, q)
      ensures q != Next(h.chunks, p) || h.chunks[p].status.Free? ==> W(n, q) == W(h.mem, q)
    {
      if q != p { Disjoint(h.chunks, h.base, h.brk, h.top, p, q); }
    }
  }

  lemma ScribbleTagged(h: Heap, p: int, n: Mem)
    requires Geo(h) && Tagged(h.mem, h.chunks, h.top) && Scribbled(h, p, n)
    ensures Tagged(n, h.chunks, h.top)
  {
    var c := h.chunks;
    ScribbleTags(h, p, n);
    forall q | q in c && q != h.top ensures Announced(n, c, q) {
      assert Announced(h.mem, c, q) && Next(c, q) in c;
      if q != p { SuccessorsDiffer(c, h.base, h.brk, h.top, p, q); }
    }
    forall q | q in c && !PrevInUse(n, q) ensures FoundFrom(n, c, q) {
      assert p != h.top ==> Announced(h.mem, c, p);
      assert FoundFrom(h.mem, c, q);
      assert PrevOf(n, q) == PrevOf(h.mem, q);
    }
  }

  lemma ScribbleLinked(h: Heap, p: int, n: Mem)
    requires Geo(h) && Filed(h.chunks, h.bins) && Linked(h.mem, h.bins) && Scribbled(h, p, n)
    ensures Linked(n, h.bins)
    ensures W(n, TOP) == W(h.mem, TOP) && W(n, BINBLOCKS) == W(h.mem, BINBLOCKS)
  {
    var c := h.chunks;
    forall y | LinkNode(c, y) ensures Fd(n, y) == Fd(h.mem, y) && Bk(n, y) == Bk(h.mem, y) {
      if y in c && c[y].status.Free? && y != p { Disjoint(c, h.base, h.brk, h.top, p, y); }
    }
    LinkedFrame(h.mem, n, c, h.base, h.brk, h.top, h.bins);
  }

  lemma ScribbleKept(h: Heap, p: int, n: Mem)
    requires Geo(h) && Scribbled(h, p, n)
    ensures Kept(h, h.(mem := n), {p})
  {
    assert p != h.top ==> Next(h.chunks, p) in h.chunks;
    forall q | Live(h, q) && q != p ensures KeptBlock(h, h.(mem := n), q) {
      Disjoint(h.chunks, h.base, h.brk, h.top, p, q);
    }
  }

  /** Writing to a payload disturbs neither the heap nor other blocks. */
  lemma ScribbleOK(h: Heap, p: int, n: Mem)
    requires HeapOK(h) && Scribbled(h, p, n) && Roomy(n, h.limit)
    ensures HeapOK(h.(mem := n)) && Kept(h, h.(mem := n), {p})
  {
    Open(h);
    ScribbleTagged(h, p, n);
    ScribbleLinked(h, p, n);
    ScribbleKept(h, p, n);
    Close(h.(mem := n));
  }

  // ---- the top chunk and the break --------------------------------------------------------------

  ghost function ResizeTop(h: Heap, size: int): Heap
  {
    h.(mem := Store(h.mem, h.top + 4, size + 1), brk := h.top + size, chunks := h.chunks[h.top := Chunk(size, Top)])
  }

  lemma ResizeTopGeometry(c: Chunks, base: int, brk: int, top: int, size: int)
    requires Geometry(c, base, brk, top) && MINSIZE <= size && size % 8 == 0
    ensures Geometry(c[top := Chunk(size, Top)], base, top + size, top)
  {
    var d := c[top := Chunk(size, Top)];
    forall p | p in d ensures p != top ==> p + d[p].size <= top {
      if p != top { Disjoint(c, base, brk, top, p, top); }
    }
    forall p | p in d && p != top ensures Next(d, p) in d { assert Next(c, p) in c; }
    forall p, q | p in d && q in d && p < q ensures Apart(d, p, q) {
      assert Apart(c, p, q);
    }
  }

  lemma ResizeTopTags(m: Mem, c: Chunks, base: int, brk: int, top: int, size: int)
    requires Geometry(c, base, brk, top) && Tagged(m, c, top) && MINSIZE <= size && size % 8 == 0
    ensures Tagged(Store(m, top + 4, size + 1), c[top := Chunk(size, Top)], top)
  {
    var d, n := c[top := Chunk(size, Top)], Store(m, top + 4, size + 1);
    TagParity(size, true);
    assert PrevInUse(m, top) && PrevInUse(n, top);
    forall p | p in d && p != top ensures Announced(n, d, p) {
      assert Announced(m, c, p) && Next(d, p) == Next(c, p) && Next(c, p) in c;
    }
    forall p | p in d && !PrevInUse(n, p) ensures FoundFrom(n, d, p) {
      assert FoundFrom(m, c, p) && PrevOf(n, p) == PrevOf(m, p);
      assert Next(d, PrevOf(n, p)) == Next(c, PrevOf(n, p));
    }
  }

  lemma ResizeTopKept(h: Heap, size: int)
    requires Geo(h) && MINSIZE <= size
    ensures Kept(h, ResizeTop(h, size), {})
  {
    forall q | Live(h, q) ensures KeptBlock(h, ResizeTop(h, size), q) {
      HeadOffPayload(h.chunks, h.base, h.brk, h.top, q, h.top);
    }
  }

  lemma ResizeTopLists(h: Heap, size: int)
    requires Filed(h.chunks, h.bins) && Linked(h.mem, h.bins) && h.top in h.chunks && h.chunks[h.top].status == Top
    requires Geo(ResizeTop(h, size))
    ensures Filed(ResizeTop(h, size).chunks, h.bins) && Linked(ResizeTop(h, size).mem, h.bins)
  {
    var top, d := h.top, ResizeTop(h, size).chunks;
    FiledFrame(h.chunks, d, h.bins);
    LinkedTagStore(h.mem, d, h.base, top + size, top, h.bins, top, top + 4, size + 1);
  }

  lemma ResizeTopOK(h: Heap, size: int)
    requires HeapOK(h) && MINSIZE <= size && size % 8 == 0 && h.top + size <= h.limit &&
             h.top + size - h.base < MAX_ARENA
    ensures HeapOK(ResizeTop(h, size)) && Kept(h, ResizeTop(h, size), {})
  {
    Open(h);
    ResizeTopConsistent(h, size);
    Close(ResizeTop(h, size));
    ResizeTopKept(h, size);
  }

  lemma ResizeTopConsistent(h: Heap, size: int)
    requires Consistent(h) && MINSIZE <= size && size % 8 == 0 && h.top + size <= h.limit &&
             h.top + size - h.base < MAX_ARENA
    ensures Consistent(ResizeTop(h, size)) && |ResizeTop(h, size).bins| == NAV
  {
    ResizeTopGeometry(h.chunks, h.base, h.brk, h.top, size);
    ResizeTopTags(h.mem, h.chunks, h.base, h.brk, h.top, size);
    ResizeTopLists(h, size);
    ResizeTopMarked(h, size);
  }

  lemma ResizeTopMarked(h: Heap, size: int)
    requires |h.bins| == NAV && Marked(h.mem, h.bins) && Roomy(h.mem, h.limit) && W(h.mem, TOP) == h.top >= AV_END &&
             h.top in h.chunks
    ensures var g := ResizeTop(h, size); Marked(g.mem, g.bins) && Roomy(g.mem, g.limit) && W(g.mem, TOP) == g.top
  {
    RoomyStore(h.mem, h.top + 4, size + 1, h.limit);
    MarkedFrame(h.mem, ResizeTop(h, size).mem, h.bins, h.bins);
  }

  // ---- moving the boundary between a block and top -------------------------------------------------

  /** Block p takes nb bytes, and `top` begins right after it. */
  ghost function ShiftTop(h: Heap, p: int, nb: int): Heap
    requires p in h.chunks && Next(h.chunks, p) in h.chunks
  {
    h.(mem := Store(Store(Store(h.mem, p + 4, nb + TagBit(h.mem, p)), p + nb + 4, h.brk - p - nb + 1), TOP, p + nb),
       top := p + nb,
       chunks := Cut(Merged(h.chunks, p), p, nb))
  }

  ghost predicate CanShift(h: Heap, p: int, nb: int)
  {
    && Live(h, p) && Next(h.chunks, p) == h.top && h.top in h.chunks
    && nb % 8 == 0 && MINSIZE <= nb && p + nb + MINSIZE <= h.brk
  }

  lemma ShiftGeometry(h: Heap, p: int, nb: int)
    requires Geo(h) && CanShift(h, p, nb)
    ensures Geo(ShiftTop(h, p, nb)) && p + nb !in Merged(h.chunks, p)
    ensures Merged(h.chunks, p)[p] == Chunk(h.brk - p, Top)
  {
    MergeGeometry(h.chunks, h.base, h.brk, h.top, p);
    CutGeometry(Merged(h.chunks, p), h.base, h.brk, p, p, nb);
    CutInside(Merged(h.chunks, p), h.base, h.brk, p, p, nb);
  }

  lemma ShiftSameTags(h: Heap, p: int, nb: int)
    requires Geo(h) && CanShift(h, p, nb)
    ensures forall q {:trigger q in h.chunks} :: q in h.chunks && q != p && q != h.top ==>
              Head(ShiftTop(h, p, nb).mem, q) == Head(h.mem, q) && W(ShiftTop(h, p, nb).mem, q) == W(h.mem, q)
    ensures W(ShiftTop(h, p, nb).mem, p) == W(h.mem, p) && Head(ShiftTop(h, p, nb).mem, p) == nb + TagBit(h.mem, p)
    ensures Head(ShiftTop(h, p, nb).mem, p + nb) == h.brk - p - nb + 1
    ensures Kept(h, ShiftTop(h, p, nb), {p})
  {
    var n := ShiftTop(h, p, nb).mem;
    forall q | q in h.chunks && q != p && q != h.top ensures q + h.chunks[q].size <= p {
      Disjoint(h.chunks, h.base, h.brk, h.top, q, p);
      Disjoint(h.chunks, h.base, h.brk, h.top, q, h.top);
    }
    forall q | Live(h, q) && q != p ensures KeptBlock(h, ShiftTop(h, p, nb), q) { assert q != h.top; }
    forall a ensures KeptOutside(h, ShiftTop(h, p, nb), a) { }
  }

  /** How tags and tiling change when the boundary between p and top moves to p + nb. */
  ghost predicate ShiftStep(m: Mem, n: Mem, c: Chunks, d: Chunks, top: int, p: int, nb: int, rest: int)
  {
    var r := p + nb;
    && p in c && c[p].status == InUse && Next(c, p) == top && p != r
    && p in d && d[p] == Chunk(nb, InUse) && r in d && d[r] == Chunk(rest, Top)
    && (forall q {:trigger q in d} :: q in d && q != p && q != r ==> q in c && q != top && d[q] == c[q])
    && (forall q {:trigger q in c} :: q in c && q != p && q != top ==> q in d && q != r && d[q] == c[q])
    && (forall q {:trigger q in c} :: q in c && q != p && q != top ==> Head(n, q) == Head(m, q) && W(n, q) == W(m, q))
    && W(n, p) == W(m, p) && Head(n, p) == nb + TagBit(m, p) && Head(n, r) == rest + 1
    && nb % 8 == 0 && rest % 8 == 0
  }

  lemma ShiftHeads(m: Mem, n: Mem, c: Chunks, d: Chunks, top: int, p: int, nb: int, rest: int)
    requires Heads(m, c) && ShiftStep(m, n, c, d, top, p, nb, rest)
    ensures Heads(n, d) && PrevInUse(n, p) == PrevInUse(m, p) && PrevInUse(n, p + nb)
  {
    TagParity(nb, PrevInUse(m, p));
    TagParity(rest, true);
  }

  lemma ShiftForward(m: Mem, n: Mem, c: Chunks, d: Chunks, base: int, brk: int, top: int, p: int, nb: int, rest: int)
    requires Geometry(c, base, brk, top) && Forward(m, c, top) && ShiftStep(m, n, c, d, top, p, nb, rest)
    requires PrevInUse(n, p) == PrevInUse(m, p) && PrevInUse(n, p + nb)
    ensures Forward(n, d, p + nb)
  {
    forall q | q in d && q != p + nb ensures Announced(n, d, q) {
      if q != p {
        assert Announced(m, c, q) && Next(d, q) == Next(c, q) && Next(c, q) in c;
        SuccessorsDiffer(c, base, brk, top, q, p);
      }
    }
  }

  lemma ShiftBackward(m: Mem, n: Mem, c: Chunks, d: Chunks, top: int, p: int, nb: int, rest: int)
    requires Heads(m, c) && Backward(m, c) && ShiftStep(m, n, c, d, top, p, nb, rest) && top in c &&
             c[top].status == Top
    requires PrevInUse(n, p) == PrevInUse(m, p) && PrevInUse(n, p + nb)
    ensures Backward(n, d)
  {
    forall q | q in d && !PrevInUse(n, q) ensures FoundFrom(n, d, q) {
      assert FoundFrom(m, c, q) && PrevOf(n, q) == PrevOf(m, q);
      assert Next(d, PrevOf(n, q)) == Next(c, PrevOf(n, q));
    }
  }

  lemma ShiftLinked(h: Heap, p: int, nb: int)
    requires Filed(h.chunks, h.bins) && Linked(h.mem, h.bins) && CanShift(h, p, nb) && h.chunks[h.top].status == Top
    requires Geo(ShiftTop(h, p, nb)) && p + nb !in Merged(h.chunks, p) &&
             Merged(h.chunks, p)[p] == Chunk(h.brk - p, Top)
    ensures Filed(ShiftTop(h, p, nb).chunks, h.bins) && Linked(ShiftTop(h, p, nb).mem, h.bins)
  {
    var g := ShiftTop(h, p, nb);
    var v, w := nb + TagBit(h.mem, p), h.brk - p - nb + 1;
    FiledFrame(h.chunks, g.chunks, h.bins);
    LinkedTagStore(h.mem, g.chunks, h.base, h.brk, g.top, h.bins, p, p + 4, v);
    LinkedTagStore(Store(h.mem, p + 4, v), g.chunks, h.base, h.brk, g.top, h.bins, p + nb, p + nb + 4, w);
    LinkedCellStore(Store(Store(h.mem, p + 4, v), p + nb + 4, w), g.chunks, h.base, h.brk, g.top, h.bins, TOP, p + nb);
  }

  lemma ShiftIsStep(h: Heap, p: int, nb: int)
    requires Geo(h) && CanShift(h, p, nb) && p + nb !in Merged(h.chunks, p) &&
             Merged(h.chunks, p)[p] == Chunk(h.brk - p, Top)
    ensures var g := ShiftTop(h, p, nb); ShiftStep(h.mem, g.mem, h.chunks, g.chunks, h.top, p, nb, h.brk - p - nb)
  {
    ShiftSameTags(h, p, nb);
    ShiftChunks(h.chunks, h.top, p, nb, h.brk - p);
    assert Next(h.chunks, h.top) == h.brk && p % 8 == 0 && h.top % 8 == 0 && h.chunks[h.top].size % 8 == 0;
    SumAligned(h.top, h.chunks[h.top].size);
    SumAligned(h.brk, p);
    SumAligned(h.brk - p, nb);
  }

  lemma ShiftChunks(c: Chunks, top: int, p: int, nb: int, size: int)
    requires p in c && Next(c, p) == top && top in c && p != top && nb > 0 && p + nb !in Merged(c, p) &&
             Merged(c, p)[p] == Chunk(size, Top)
    ensures var d, r := Cut(Merged(c, p), p, nb), p + nb;
      && p in d && d[p] == Chunk(nb, InUse) && r in d && d[r] == Chunk(size - nb, Top)
      && (forall q {:trigger q in d} :: q in d && q != p && q != r ==> q in c && q != top && d[q] == c[q])
      && (forall q {:trigger q in c} :: q in c && q != p && q != top ==> q in d && q != r && d[q] == c[q])
  {
    var e, d, r := Merged(c, p), Cut(Merged(c, p), p, nb), p + nb;
    forall q | q in c && q != p && q != top ensures q in e && e[q] == c[q] { }
  }

  lemma ShiftTopTags(h: Heap, p: int, nb: int)
    requires Geo(h) && Tagged(h.mem, h.chunks, h.top) && CanShift(h, p, nb)
    ensures Geo(ShiftTop(h, p, nb)) && Tagged(ShiftTop(h, p, nb).mem, ShiftTop(h, p, nb).chunks, p + nb)
  {
    var g, rest := ShiftTop(h, p, nb), h.brk - p - nb;
    ShiftGeometry(h, p, nb);
    ShiftIsStep(h, p, nb);
    ShiftHeads(h.mem, g.mem, h.chunks, g.chunks, h.top, p, nb, rest);
    ShiftForward(h.mem, g.mem, h.chunks, g.chunks, h.base, h.brk, h.top, p, nb, rest);
    ShiftBackward(h.mem, g.mem, h.chunks, g.chunks, h.top, p, nb, rest);
  }

  lemma ShiftTopStep(h: Heap, p: int, nb: int) returns (g: Heap)
    requires HeapOK(h) && CanShift(h, p, nb)
    ensures HeapOK(g) && Kept(h, g, {p}) && SameArena(h, g) && g.top == p + nb && g.bins == h.bins
    ensures g.mem == Store(Store(Store(h.mem, p + 4, nb + TagBit(h.mem, p)), p + nb + 4, h.brk - p - nb + 1), TOP,
                p + nb)
    ensures g.chunks == Cut(Merged(h.chunks, p), p, nb)
    ensures SameLive(h, g) && g.chunks[p].size == nb
  {
    g := ShiftTop(h, p, nb);
    ShiftTopOK(h, p, nb);
    ShiftTopLive(h, p, nb);
  }

  lemma ShiftTopOK(h: Heap, p: int, nb: int)
    requires HeapOK(h) && CanShift(h, p, nb)
    ensures HeapOK(ShiftTop(h, p, nb)) && Kept(h, ShiftTop(h, p, nb), {p})
  {
    Open(h);
    ShiftConsistent(h, p, nb);
    Close(ShiftTop(h, p, nb));
    ShiftSameTags(h, p, nb);
  }

  lemma ShiftConsistent(h: Heap, p: int, nb: int)
    requires Consistent(h) && CanShift(h, p, nb)
    ensures Consistent(ShiftTop(h, p, nb)) && |ShiftTop(h, p, nb).bins| == NAV
  {
    ShiftTopTags(h, p, nb);
    ShiftGeometry(h, p, nb);
    ShiftLinked(h, p, nb);
    ShiftMarked(h, p, nb);
  }

  lemma ShiftMarked(h: Heap, p: int, nb: int)
    requires CanShift(h, p, nb) && |h.bins| == NAV && Marked(h.mem, h.bins) && Roomy(h.mem, h.limit) && AV_END <= p &&
             nb > 0
    ensures var g := ShiftTop(h, p, nb); Marked(g.mem, g.bins) && Roomy(g.mem, g.limit) && W(g.mem, TOP) == g.top
  {
    var m1 := Store(h.mem, p + 4, nb + TagBit(h.mem, p));
    var m2 := Store(m1, p + nb + 4, h.brk - p - nb + 1);
    RoomyStore(h.mem, p + 4, nb + TagBit(h.mem, p), h.limit);
    RoomyStore(m1, p + nb + 4, h.brk - p - nb + 1, h.limit);
    RoomyStore(m2, TOP, p + nb, h.limit);
    MarkedFrame(h.mem, ShiftTop(h, p, nb).mem, h.bins, h.bins);
  }

  lemma RoomyStore(m: Mem, a: int, v: int, limit: int)
    requires Roomy(m, limit)
    ensures Roomy(Store(m, a, v), limit)
  {
  }

  lemma ShiftTopLive(h: Heap, p: int, nb: int)
    requires HeapOK(h) && CanShift(h, p, nb)
    ensures SameLive(h, ShiftTop(h, p, nb)) && ShiftTop(h, p, nb).chunks[p].size == nb
  {
    Open(h);
    ShiftGeometry(h, p, nb);
    forall q ensures Live(ShiftTop(h, p, nb), q) <==> Live(h, q) { }
  }

  // ---- the block index -----------------------------------------------------------------------------

  ghost function ClearBlock(h: Heap, b: nat): Heap {
    h.(mem := Store(h.mem, BINBLOCKS, ClearBit(W(h.mem, BINBLOCKS), b)))
  }

  /** The bit of a block of four empty bins can be cleared. */
  lemma ClearBlockOK(h: Heap, b: nat)
    requires HeapOK(h) && b < 32
    requires forall i {:trigger h.bins[i]} :: 2 <= i < NAV && i / 4 == b ==> h.bins[i] == []
    ensures HeapOK(ClearBlock(h, b)) && Kept(h, ClearBlock(h, b), {})
  {
    Open(h);
    var h' := ClearBlock(h, b);
    var w := W(h.mem, BINBLOCKS);
    LinkedCellStore(h.mem, h.chunks, h.base, h.brk, h.top, h.bins, BINBLOCKS, ClearBit(w, b));
    SetBitIs(w, b, 0);
    forall i | 2 <= i < NAV && h.bins[i] != [] ensures Bit(ClearBit(w, b), i / 4) {
      SetBitIs(w, b, i / 4);
    }
    ClearBlockTagged(h, b);
    Close(ClearBlock(h, b));
  }

  lemma ClearBlockTagged(h: Heap, b: nat)
    requires Geo(h) && Tagged(h.mem, h.chunks, h.top)
    ensures Tagged(ClearBlock(h, b).mem, h.chunks, h.top) && Kept(h, ClearBlock(h, b), {})
  {
    SameTagsTagged(h.mem, ClearBlock(h, b).mem, h.chunks, h.base, h.brk, h.top);
  }

  lemma SameTagsTagged(m: Mem, n: Mem, c: Chunks, base: int, brk: int, top: int)
    requires Geometry(c, base, brk, top) && Tagged(m, c, top)
    requires forall p {:trigger p in c} :: p in c ==> Head(n, p) == Head(m, p) && W(n, p) == W(m, p)
    ensures Tagged(n, c, top)
  {
    forall p | p in c && p != top ensures Announced(n, c, p) {
      assert Announced(m, c, p) && Next(c, p) in c;
    }
    forall p | p in c && !PrevInUse(n, p) ensures FoundFrom(n, c, p) {
      assert FoundFrom(m, c, p) && PrevOf(n, p) == PrevOf(m, p);
    }
  }

  /** The invariant only depends on the words in memory. */
  lemma SameWordsOK(h: Heap, n: Mem)
    requires HeapOK(h) && Roomy(n, h.limit)
    requires forall a {:trigger W(n, a)} :: W(n, a) == W(h.mem, a)
    ensures HeapOK(h.(mem := n))
  {
    Open(h);
    SameTagsTagged(h.mem, n, h.chunks, h.base, h.brk, h.top);
    LinkedFrame(h.mem, n, h.chunks, h.base, h.brk, h.top, h.bins);
    Close(h.(mem := n));
  }

  // ---- the same changes as steps, known by their results only ----------------------------------------

  ghost predicate SameArena(h: Heap, g: Heap) { g.base == h.base && g.brk == h.brk && g.limit == h.limit }

  lemma TakeStep(h: Heap, x: int, k: nat) returns (g: Heap)
    requires HeapOK(h) && InBin(h, x, k)
    ensures HeapOK(g) && Kept(h, g, {}) && SameArena(h, g) && g.top == h.top && |g.bins| == NAV
    ensures g.chunks == h.chunks[x := Chunk(h.chunks[x].size, InUse)]
    ensures g.bins == h.bins[h.chunks[x].status.bin := Without(h.bins[h.chunks[x].status.bin], k)]
    ensures g.mem == Store(Bypass(h.mem, Bk(h.mem, x), Fd(h.mem, x)), x + h.chunks[x].size + 4,
                Head(h.mem, x + h.chunks[x].size) + 1)
    ensures Head(g.mem, x) == h.chunks[x].size + 1 && PrevInUse(g.mem, x) && x != h.top
    ensures Live(h, x + h.chunks[x].size) && h.chunks[x].size % 8 == 0 && h.chunks[x].size >= MINSIZE
    ensures AV_END <= x && x % 8 == 0 && Bk(h.mem, x) % 8 == 0 && Fd(h.mem, x) % 8 == 0
    ensures Bk(h.mem, x) + 8 != x + h.chunks[x].size && Fd(h.mem, x) + 8 != x + h.chunks[x].size
    ensures Bk(h.mem, x) + 8 != x && Fd(h.mem, x) + 8 != x
  {
    g := Take(h, x, k);
    TakeOK(h, x, k);
    TakeFacts(h, x, k);
  }

  lemma TakeFacts(h: Heap, x: int, k: nat)
    requires HeapOK(h) && InBin(h, x, k)
    ensures Head(Take(h, x, k).mem, x) == h.chunks[x].size + 1 && PrevInUse(Take(h, x, k).mem, x) && x != h.top
    ensures Live(h, Next(h.chunks, x)) && h.chunks[x].size % 8 == 0 && h.chunks[x].size >= MINSIZE
    ensures AV_END <= x && x % 8 == 0 && Bk(h.mem, x) % 8 == 0 && Fd(h.mem, x) % 8 == 0
    ensures Bk(h.mem, x) + 8 != x + h.chunks[x].size && Fd(h.mem, x) + 8 != x + h.chunks[x].size
    ensures Bk(h.mem, x) + 8 != x && Fd(h.mem, x) + 8 != x
  {
    Open(h);
    var c := h.chunks;
    LinkedBypass(h.mem, c, h.base, h.brk, h.top, h.bins, c[x].status.bin, k);
    AfterFree(h.mem, c, h.base, h.brk, h.top, x);
    TagOffLinks(c, h.base, h.brk, h.top, x, Bk(h.mem, x));
    TagOffLinks(c, h.base, h.brk, h.top, x, Fd(h.mem, x));
    TagOffLinks(c, h.base, h.brk, h.top, Next(c, x), Bk(h.mem, x));
    TagOffLinks(c, h.base, h.brk, h.top, Next(c, x), Fd(h.mem, x));
  }

  lemma SplitStep(h: Heap, p: int, nb: int) returns (g: Heap)
    requires HeapOK(h) && CanSplit(h, p, nb)
    ensures HeapOK(g) && Kept(h, g, {p}) && SameArena(h, g) && g.top == (if p == h.top then p + nb else h.top)
    ensures g.chunks == Cut(h.chunks, p, nb) && g.bins == h.bins && p + nb !in h.chunks
    ensures var m1 := Store(Store(h.mem, p + 4, nb + TagBit(h.mem, p)), p + nb + 4, h.chunks[p].size - nb + 1);
      g.mem == if p == h.top then Store(m1, TOP, p + nb) else m1
    ensures Head(g.mem, p + nb) == h.chunks[p].size - nb + 1 && PrevInUse(g.mem, p + nb)
    ensures PrevInUse(g.mem, p) == PrevInUse(h.mem, p)
  {
    g := Split(h, p, nb);
    SplitOK(h, p, nb);
    SplitFacts(h, p, nb);
  }

  lemma SplitFacts(h: Heap, p: int, nb: int)
    requires HeapOK(h) && CanSplit(h, p, nb)
    ensures p + nb !in h.chunks && PrevInUse(Split(h, p, nb).mem, p + nb)
    ensures Head(Split(h, p, nb).mem, p + nb) == h.chunks[p].size - nb + 1
    ensures PrevInUse(Split(h, p, nb).mem, p) == PrevInUse(h.mem, p)
  {
    Open(h);
    CutInside(h.chunks, h.base, h.brk, h.top, p, nb);
    SplitKept(h, p, nb);
    CutHeads(h.mem, Split(h, p, nb).mem, h.chunks, h.base, h.brk, h.top, p, nb);
  }

  lemma GiveStep(h: Heap, x: int, i: int, k: nat) returns (g: Heap)
    requires HeapOK(h) && CanGive(h, x, i, k)
    ensures HeapOK(g) && Kept(h, g, {x}) && SameArena(h, g) && g.top == h.top
    ensures g.chunks == h.chunks[x := Chunk(h.chunks[x].size, Free(i))] && g.bins == h.bins[i := With(h.bins[i], k, x)]
    ensures g.mem == GiveMem(h.mem, h.chunks, h.bins[i], x, i, k)
    ensures forall p {:trigger Head(g.mem, p)} ::
              p in h.chunks && p != x + h.chunks[x].size ==> Head(g.mem, p) == Head(h.mem, p)
  {
    g := Give(h, x, i, k);
    GiveOK(h, x, i, k);
    Open(h);
    GiveSameTags(h, x, i, k);
  }

  lemma GiveSameTags(h: Heap, x: int, i: int, k: nat)
    requires Geo(h) && Filed(h.chunks, h.bins) && CanGive(h, x, i, k)
    ensures SameTags(h.mem, Give(h, x, i, k).mem, h.chunks, Next(h.chunks, x))
  {
    var c, nx := h.chunks, Next(h.chunks, x);
    var u, v := Node(BinAt(i), h.bins[i], k - 1), Node(BinAt(i), h.bins[i], k);
    BinNodes(c, h.base, h.brk, h.top, h.bins, i);
    assert LinkNode(c, u) && LinkNode(c, v);
    GiveWrites(h, x, i, k, u, v);
    LinkWriteTags(Mark(h.mem, i), Give(h, x, i, k).mem, c, h.base, h.brk, h.top, x, u, v, nx);
  }

  lemma JoinStep(h: Heap, p: int) returns (g: Heap)
    requires HeapOK(h) && CanMerge(h, p)
    ensures HeapOK(g) && Kept(h, g, {p, p + h.chunks[p].size}) && SameArena(h, g)
    ensures g.top == (if p + h.chunks[p].size == h.top then p else h.top) && g.bins == h.bins
    ensures g.chunks == Merged(h.chunks, p) && p + h.chunks[p].size != p
    ensures var q := p + h.chunks[p].size;
      var m1 := Store(h.mem, p + 4, h.chunks[p].size + h.chunks[q].size + TagBit(h.mem, p));
      g.mem == if q == h.top then Store(m1, TOP, p) else m1
    ensures PrevInUse(g.mem, p) == PrevInUse(h.mem, p)
  {
    g := Merge(h, p);
    MergeOK(h, p);
    MergeFacts(h, p);
  }

  lemma MergeFacts(h: Heap, p: int)
    requires HeapOK(h) && CanMerge(h, p)
    ensures h.chunks[p].size > 0 && PrevInUse(Merge(h, p).mem, p) == PrevInUse(h.mem, p)
  {
    Open(h);
    var c, q := h.chunks, Next(h.chunks, p);
    assert c[p].size % 8 == 0 && c[q].size % 8 == 0;
    SumAligned(c[p].size, c[q].size);
    TagParity(c[p].size + c[q].size, PrevInUse(h.mem, p));
    assert Head(Merge(h, p).mem, p) == c[p].size + c[q].size + TagBit(h.mem, p);
  }

  lemma PokeStep(h: Heap, p: int, a: int, v: int) returns (g: Heap)
    requires HeapOK(h) && Idle(h, p, a)
    ensures HeapOK(g) && Kept(h, g, {p}) && SameArena(h, g) && g.top == h.top && g.chunks == h.chunks &&
            g.bins == h.bins
    ensures g.mem == Store(h.mem, a, v)
  {
    RoomyOf(h);
    ScribbleOK(h, p, Store(h.mem, a, v));
    g := h.(mem := Store(h.mem, a, v));
  }

  // ---- what the heap invariant says about neighbours ---------------------------------------------------

  lemma ChunkFacts(h: Heap, p: int)
    requires HeapOK(h) && p in h.chunks
    ensures AV_END <= h.base <= p && p % 8 == 0 && h.chunks[p].size % 8 == 0 && MINSIZE <= h.chunks[p].size
    ensures p + h.chunks[p].size <= h.brk <= h.limit < TWO32 && h.brk - h.base < MAX_ARENA
    ensures Head(h.mem, p) == h.chunks[p].size + TagBit(h.mem, p)
    ensures h.chunks[p].status == Top <==> p == h.top
    ensures p != h.top ==> p + h.chunks[p].size in h.chunks
    ensures p != h.top ==> (Live(h, p) <==> PrevInUse(h.mem, p + h.chunks[p].size))
    ensures p == h.top ==> p + h.chunks[p].size == h.brk
    ensures h.chunks[p].status != InUse ==> PrevInUse(h.mem, p)
    ensures h.chunks[p].status.Free? ==>
              Live(h, p + h.chunks[p].size) && W(h.mem, p + h.chunks[p].size) == h.chunks[p].size
  {
    Open(h);
    assert Next(h.chunks, p) == p + h.chunks[p].size;
    if p != h.top { assert Announced(h.mem, h.chunks, p); }
    if h.chunks[p].status.Free? { AfterFree(h.mem, h.chunks, h.base, h.brk, h.top, p); }
  }

  lemma PrevFacts(h: Heap, p: int)
    requires HeapOK(h) && p in h.chunks && !PrevInUse(h.mem, p)
    ensures var q := p - W(h.mem, p); q in h.chunks && h.chunks[q].status.Free? && h.chunks[q].size == W(h.mem, p)
  {
    Open(h);
    assert FoundFrom(h.mem, h.chunks, PrevOf(h.mem, p) + W(h.mem, p));
  }

  lemma BinFacts(h: Heap, x: int) returns (k: nat)
    requires HeapOK(h) && x in h.chunks && h.chunks[x].status.Free?
    ensures InBin(h, x, k) && 1 <= h.chunks[x].status.bin < NAV
    ensures h.chunks[x].status.bin == 1 ==> k == 0 && h.bins[1] == [x] && Fd(h.mem, x) == Bk(h.mem, x) == BinAt(1)
    ensures h.chunks[x].status.bin != 1 ==> Fd(h.mem, x) != BinAt(1)
    ensures h.chunks[x].status.bin != 1 ==> BinIndex(h.chunks[x].size) == h.chunks[x].status.bin
  {
    Open(h);
    var i := h.chunks[x].status.bin;
    assert AtHome(h.chunks, h.bins, x);
    k :| 0 <= k < |h.bins[i]| && h.bins[i][k] == x;
    LinkedAt(h.mem, h.bins, i);
    RingAt(h.mem, BinAt(i), h.bins[i], k);
    if i != 1 && k < |h.bins[i]| - 1 { assert h.bins[i][k + 1] in h.chunks; }
  }

  lemma RoomyOf(h: Heap)
    requires HeapOK(h)
    ensures Roomy(h.mem, h.limit)
  {
    Open(h);
  }

  /** The double words of a chunk's header and links exist. */
  lemma RoomAt(h: Heap, m: Mem, p: int)
    requires HeapOK(h) && Roomy(m, h.limit) && p % 8 == 0 &&
             (AV <= p <= AV_END - 16 || (h.base <= p && p + 16 <= h.brk))
    ensures p in m && p + 4 in m && p + 8 in m && p + 12 in m
  {
    Open(h);
    RoomIn(m, h.limit, p);
  }

  lemma RoomIn(m: Mem, limit: int, p: int)
    requires Roomy(m, limit) && 0 <= p && p + 16 <= limit && p % 8 == 0
    ensures p in m && p + 4 in m && p + 8 in m && p + 12 in m
  {
    WordAligned(p);
  }

  lemma ChunkRoom(h: Heap, m: Mem, p: int)
    requires HeapOK(h) && Roomy(m, h.limit) && p in h.chunks
    ensures p in m && p + 4 in m && p + 8 in m && p + 12 in m
  {
    ChunkFacts(h, p);
    RoomAt(h, m, p);
  }

  lemma NodeRoom(h: Heap, m: Mem, y: int)
    requires HeapOK(h) && Roomy(m, h.limit) && LinkNode(h.chunks, y)
    ensures y + 8 in m && y + 12 in m
  {
    if y in h.chunks { ChunkRoom(h, m, y); } else { RoomAt(h, m, y); }
  }

  lemma NodeAligned(h: Heap, y: int)
    requires HeapOK(h) && LinkNode(h.chunks, y)
    ensures y % 8 == 0
  {
    if y in h.chunks { ChunkFacts(h, y); }
  }

  /** The neighbours of a binned chunk in its ring; unlinking leaves the tags of chunks alone. */
  lemma NeighbourFacts(h: Heap, x: int, k: nat, p: int)
    requires HeapOK(h) && InBin(h, x, k) && p in h.chunks
    ensures LinkNode(h.chunks, Bk(h.mem, x)) && LinkNode(h.chunks, Fd(h.mem, x))
    ensures var n := Bypass(h.mem, Bk(h.mem, x), Fd(h.mem, x)); Head(n, p) == Head(h.mem, p) && W(n, p) == W(h.mem, p)
  {
    Open(h);
    LinkedBypass(h.mem, h.chunks, h.base, h.brk, h.top, h.bins, h.chunks[x].status.bin, k);
    TagOffLinks(h.chunks, h.base, h.brk, h.top, p, Bk(h.mem, x));
    TagOffLinks(h.chunks, h.base, h.brk, h.top, p, Fd(h.mem, x));
  }

  /** The words that taking chunk x stores to exist. */
  lemma TakeRoom(h: Heap, x: int, k: nat)
    requires HeapOK(h) && InBin(h, x, k)
    ensures Bk(h.mem, x) + 8 in h.mem && Fd(h.mem, x) + 12 in h.mem && x + h.chunks[x].size + 4 in h.mem
    ensures ChunkSize(h.mem, x) == h.chunks[x].size
    ensures var nx := x + h.chunks[x].size; var n := Bypass(h.mem, Bk(h.mem, x), Fd(h.mem, x));
      Head(n, nx) == Head(h.mem, nx) && Head(h.mem, nx) % 2 == 0
  {
    ChunkFacts(h, x);
    ChunkSizeIs(h, x);
    NeighbourFacts(h, x, k, x + h.chunks[x].size);
    RoomyOf(h);
    NodeRoom(h, h.mem, Bk(h.mem, x));
    NodeRoom(h, h.mem, Fd(h.mem, x));
    ChunkRoom(h, h.mem, x + h.chunks[x].size);
  }

  lemma ChunkSizeIs(h: Heap, p: int)
    requires HeapOK(h) && p in h.chunks
    ensures ChunkSize(h.mem, p) == h.chunks[p].size == Head(h.mem, p) - Head(h.mem, p) % 2
  {
    ChunkFacts(h, p);
  }

  /** Stepping through bin i: node k and its predecessor point at each other. */
  lemma BinWalk(h: Heap, i: int, k: int)
    requires HeapOK(h) && 1 <= i < NAV && 0 <= k <= |h.bins[i]|
    ensures var hd, l := BinAt(i), h.bins[i];
      && Fd(h.mem, Node(hd, l, k - 1)) == Node(hd, l, k) && Bk(h.mem, Node(hd, l, k)) == Node(hd, l, k - 1)
      && LinkNode(h.chunks, Node(hd, l, k)) && LinkNode(h.chunks, Node(hd, l, k - 1))
    ensures k < |h.bins[i]| ==>
              InBin(h, h.bins[i][k], k) && h.chunks[h.bins[i][k]].status == Free(i) && h.bins[i][k] != BinAt(i)
  {
    Open(h);
    LinkedAt(h.mem, h.bins, i);
    BinNodes(h.chunks, h.base, h.brk, h.top, h.bins, i);
    var hd, l := BinAt(i), h.bins[i];
    assert JoinedAt(h.mem, hd, l, k);
    assert LinkNode(h.chunks, Node(hd, l, k)) && LinkNode(h.chunks, Node(hd, l, k - 1));
    if k < |l| { assert h.bins[i][k] in h.chunks; }
  }

  lemma BinSorted(h: Heap, i: int, j: int, k: int)
    requires HeapOK(h) && 2 <= i < NAV && 0 <= j <= k < |h.bins[i]|
    ensures h.bins[i][j] in h.chunks && h.bins[i][k] in h.chunks
    ensures h.chunks[h.bins[i][j]].size >= h.chunks[h.bins[i][k]].size >= MINSIZE
    ensures BinIndex(h.chunks[h.bins[i][j]].size) == i && h.chunks[h.bins[i][j]].size % 8 == 0
    ensures BinIndex(h.chunks[h.bins[i][k]].size) == i && h.chunks[h.bins[i][k]].size % 8 == 0
  {
    Open(h);
    var l := h.bins[i];
    assert l[j] in h.chunks && l[k] in h.chunks;
    assert AtHome(h.chunks, h.bins, l[j]) && AtHome(h.chunks, h.bins, l[k]);
    assert Descending(h.chunks, l);
  }

  /** Marking the block of a bin that is not empty changes nothing. */
  lemma MarkedBin(h: Heap, i: nat)
    requires HeapOK(h) && 2 <= i < NAV && h.bins[i] != []
    ensures Bit(W(h.mem, BINBLOCKS), i / 4) && SetBit(W(h.mem, BINBLOCKS), i / 4) == W(h.mem, BINBLOCKS)
  {
    Open(h);
    SetBitAgain(W(h.mem, BINBLOCKS), i / 4);
  }

  lemma UnlinkRoom(h: Heap, m: Mem, x: int, k: nat)
    requires HeapOK(h) && InBin(h, x, k) && Roomy(m, h.limit)
    ensures Bk(h.mem, x) + 8 in m && Fd(h.mem, x) + 12 in m
  {
    NeighbourFacts(h, x, k, x);
    NodeRoom(h, m, Bk(h.mem, x));
    NodeRoom(h, m, Fd(h.mem, x));
  }
}
