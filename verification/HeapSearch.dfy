/**
 What the bin search of malloc has to find: the smallest chunk in a size bin that fits.
 */
module HeapSearch {
  import opened HeapLayout
  import opened HeapRings
  import opened HeapTiles
  import opened HeapModel
  import opened HeapMoves
  import opened HeapOps

  /** y sits in a size bin and has room for nb bytes. */
  ghost predicate Candidate(c: Chunks, y: int, nb: int)
  {
    y in c && BinOf(c, y) >= 2 && nb <= c[y].size
  }

  /** No chunk in a size bin is large enough. */
  ghost predicate NoFit(c: Chunks, nb: int)
  {
    forall y {:trigger Candidate(c, y, nb)} :: !Candidate(c, y, nb)
  }

  /** p is the smallest chunk in a size bin that is large enough. */
  ghost predicate Smallest(c: Chunks, p: int, nb: int)
  {
    && Candidate(c, p, nb)
    && forall y {:trigger Candidate(c, y, nb)} :: Candidate(c, y, nb) ==> c[p].size <= c[y].size
  }

  /** Everything that fits is in bin idx or above. */
  ghost predicate AllFrom(c: Chunks, nb: int, idx: int)
  {
    forall y {:trigger Candidate(c, y, nb)} :: Candidate(c, y, nb) ==> BinOf(c, y) >= idx
  }

  /** The largest chunk of each bin from idx on fits. */
  ghost predicate FullFrom(c: Chunks, bins: seq<seq<int>>, nb: int, idx: int)
    requires |bins| == NAV
  {
    forall j {:trigger bins[j]} :: 2 <= idx <= j < NAV && bins[j] != [] ==> Candidate(c, bins[j][0], nb)
  }

  /** The search may start at bin idx. */
  ghost predicate Ready(c: Chunks, bins: seq<seq<int>>, nb: int, idx: int)
  {
    && |bins| == NAV && 4 <= idx < NAV && AllFrom(c, nb, idx) && FullFrom(c, bins, nb, idx)
    && BinIndex(nb) <= idx && (idx == BinIndex(nb) ==> bins[idx] != [])
  }

  /** Taking the last fitting chunk of the first bin that holds one is best fit. */
  lemma LastFitIsSmallest(h: Heap, nb: int, i: int, k: nat)
    requires HeapOK(h) && 2 <= i < NAV && k < |h.bins[i]| && AllFrom(h.chunks, nb, i)
    requires h.bins[i][k] in h.chunks && nb <= h.chunks[h.bins[i][k]].size
    requires forall j :: k < j < |h.bins[i]| ==> h.bins[i][j] in h.chunks && h.chunks[h.bins[i][j]].size < nb
    ensures Smallest(h.chunks, h.bins[i][k], nb)
  {
    var p := h.bins[i][k];
    BinWalk(h, i, k);
    BinSorted(h, i, k, k);
    forall y | Candidate(h.chunks, y, nb) ensures h.chunks[p].size <= h.chunks[y].size {
      var j := BinFacts(h, y);
      if h.chunks[y].status.bin == i {
        assert j <= k;
        BinSorted(h, i, j, k);
      } else if h.chunks[y].size < h.chunks[p].size {
        ChunkFacts(h, y);
        BinIndexMonotone(h.chunks[y].size, h.chunks[p].size);
      }
    }
  }

  /** Chunks in a bin above that of nb are larger than nb. */
  lemma HigherBinsFit(h: Heap, nb: int, idx: int)
    requires HeapOK(h) && MINSIZE <= nb && BinIndex(nb) < idx
    ensures FullFrom(h.chunks, h.bins, nb, idx)
  {
    forall j | 2 <= idx <= j < NAV && h.bins[j] != [] ensures Candidate(h.chunks, h.bins[j][0], nb) {
      BinWalk(h, j, 0);
      BinSorted(h, j, 0, 0);
      var s := h.chunks[h.bins[j][0]].size;
      if s < nb { BinIndexMonotone(s, nb); }
    }
  }

  /** What fits is in the bin of nb or above. */
  lemma FitsFromOwnBin(h: Heap, nb: int)
    requires HeapOK(h) && MINSIZE <= nb
    ensures AllFrom(h.chunks, nb, BinIndex(nb))
  {
    forall y | Candidate(h.chunks, y, nb) ensures BinOf(h.chunks, y) >= BinIndex(nb) {
      var j := BinFacts(h, y);
      BinIndexMonotone(nb, h.chunks[y].size);
    }
  }

  /** A bin none of whose chunks fits can be skipped. */
  lemma SkipBin(h: Heap, nb: int, i: int)
    requires HeapOK(h) && 2 <= i < NAV && AllFrom(h.chunks, nb, i)
    requires forall j :: 0 <= j < |h.bins[i]| ==> h.bins[i][j] in h.chunks && h.chunks[h.bins[i][j]].size < nb
    ensures AllFrom(h.chunks, nb, i + 1)
  {
    forall y | Candidate(h.chunks, y, nb) ensures BinOf(h.chunks, y) >= i + 1 {
      var j := BinFacts(h, y);
    }
  }

  /** Nothing fits once all bins are skipped. */
  lemma SkippedAll(h: Heap, nb: int)
    requires HeapOK(h) && AllFrom(h.chunks, nb, NAV)
    ensures NoFit(h.chunks, nb)
  {
    forall y ensures !Candidate(h.chunks, y, nb) {
      if Candidate(h.chunks, y, nb) {
        var j := BinFacts(h, y);
        assert false;
      }
    }
  }

  // ---- the last remainder moves to its bin ----------------------------------------------------

  /** g is h after its last remainder x, too small for nb, was filed at position k of its bin. */
  ghost predicate Refiled(h: Heap, g: Heap, x: int, k: nat, nb: int)
  {
    && x in h.chunks && h.chunks[x].status == Free(1) && h.chunks[x].size < nb
    && |h.bins| == NAV && var i := BinIndex(h.chunks[x].size);
    && 2 <= i < NAV && k <= |h.bins[i]|
    && g.chunks == h.chunks[x := Chunk(h.chunks[x].size, Free(i))]
    && g.bins == h.bins[1 := []][i := With(h.bins[i], k, x)]
  }

  /** The same chunks fit before and after. */
  ghost predicate SameCandidates(h: Heap, g: Heap, nb: int)
  {
    forall y {:trigger Candidate(g.chunks, y, nb)} {:trigger Candidate(h.chunks, y, nb)} ::
      (Candidate(g.chunks, y, nb) <==> Candidate(h.chunks, y, nb)) &&
      (Candidate(h.chunks, y, nb) ==> g.chunks[y] == h.chunks[y])
  }

  lemma RefiledReady(h: Heap, g: Heap, x: int, k: nat, nb: int, idx: int)
    requires HeapOK(h) && HeapOK(g) && Refiled(h, g, x, k, nb) && Ready(h.chunks, h.bins, nb, idx) && MINSIZE <= nb
    ensures SameCandidates(h, g, nb) && Ready(g.chunks, g.bins, nb, idx)
  {
    forall y
      ensures (Candidate(g.chunks, y, nb) <==> Candidate(h.chunks, y, nb)) &&
              (Candidate(h.chunks, y, nb) ==> g.chunks[y] == h.chunks[y])
    {
    }
    forall y | Candidate(g.chunks, y, nb) ensures BinOf(g.chunks, y) >= idx { assert Candidate(h.chunks, y, nb); }
    var i := BinIndex(h.chunks[x].size);
    forall j | 2 <= idx <= j < NAV && g.bins[j] != [] ensures Candidate(g.chunks, g.bins[j][0], nb) {
      if j != i {
        assert g.bins[j] == h.bins[j];
        assert Candidate(h.chunks, h.bins[j][0], nb);
      } else {
        RefiledFront(h, g, x, k, nb, idx);
      }
    }
  }

  lemma RefiledFront(h: Heap, g: Heap, x: int, k: nat, nb: int, idx: int)
    requires HeapOK(h) && HeapOK(g) && Refiled(h, g, x, k, nb) && Ready(h.chunks, h.bins, nb, idx) &&
             idx <= BinIndex(h.chunks[x].size) && MINSIZE <= nb
    requires SameCandidates(h, g, nb)
    ensures var i := BinIndex(h.chunks[x].size); g.bins[i] != [] && Candidate(g.chunks, g.bins[i][0], nb)
  {
    var i := BinIndex(h.chunks[x].size);
    var l, l' := h.bins[i], g.bins[i];
    BinWalk(g, i, 0);
    ChunkFacts(h, x);
    BinIndexMonotone(h.chunks[x].size, nb);
    var y := l[0];
    assert Candidate(h.chunks, y, nb) && Candidate(g.chunks, y, nb);
    assert l'[if k == 0 then 1 else 0] == y;
    BinSorted(g, i, 0, if k == 0 then 1 else 0);
  }

  // ---- the block index -------------------------------------------------------------------------

  /** A bin whose block is not marked is empty. */
  lemma UnmarkedEmpty(h: Heap, i: nat)
    requires HeapOK(h) && 2 <= i < NAV && !Bit(W(h.mem, BINBLOCKS), i / 4)
    ensures h.bins[i] == []
  {
    Open(h);
  }

  lemma {:induction false} SkipEmpty(h: Heap, nb: int, i: int, end: int)
    requires HeapOK(h) && 2 <= i <= end <= NAV && AllFrom(h.chunks, nb, i)
    requires forall j :: i <= j < end ==> h.bins[j] == []
    ensures AllFrom(h.chunks, nb, end)
    decreases end - i
  {
    if i < end {
      SkipBin(h, nb, i);
      SkipEmpty(h, nb, i + 1, end);
    }
  }

  /** The rest of a block that is not marked can be skipped. */
  lemma SkipUnmarked(h: Heap, nb: int, idx: nat)
    requires HeapOK(h) && 2 <= idx < NAV && AllFrom(h.chunks, nb, idx) && !Bit(W(h.mem, BINBLOCKS), idx / 4)
    ensures AllFrom(h.chunks, nb, idx - idx % 4 + 4)
  {
    var end := idx - idx % 4 + 4;
    forall j | idx <= j < end ensures h.bins[j] == [] {
      assert j / 4 == idx / 4;
      UnmarkedEmpty(h, j);
    }
    SkipEmpty(h, nb, idx, end);
  }

  /** When no block from that of idx on is marked, nothing fits. */
  lemma NoneMarked(h: Heap, nb: int, idx: nat)
    requires HeapOK(h) && 2 <= idx <= NAV && AllFrom(h.chunks, nb, idx) && W(h.mem, BINBLOCKS) < Pow2(idx / 4)
    ensures NoFit(h.chunks, nb)
  {
    Open(h);
    var _ := PowerCompares(W(h.mem, BINBLOCKS), idx / 4);
    forall j | idx <= j < NAV ensures h.bins[j] == [] {
      UnmarkedEmpty(h, j);
    }
    SkipEmpty(h, nb, idx, NAV);
    SkippedAll(h, nb);
  }

  /** In the bin of a small nb, or the one after it, every chunk leaves less than MINSIZE bytes over. */
  lemma SmallSize(h: Heap, nb: int, i: int, k: nat)
    requires HeapOK(h) && nb % 8 == 0 && MINSIZE <= nb < 504 && nb / 8 <= i <= nb / 8 + 1 && k < |h.bins[i]|
    ensures h.bins[i][k] in h.chunks && nb <= h.chunks[h.bins[i][k]].size < nb + MINSIZE
  {
    BinSorted(h, i, k, k);
    var s := h.chunks[h.bins[i][k]].size;
    BinIndexMonotone(s, s);
  }

  /** Which chunk of h serves a request for nb bytes: the smallest fit of the size bins, a last
      remainder that is large enough, or `top` when nothing else fits. */
  ghost predicate WellChosen(h: Heap, p: int, nb: int)
  {
    && p in h.chunks
    && match h.chunks[p].status {
       case InUse => false
       case Free(i) => nb <= h.chunks[p].size && (i != 1 ==> Smallest(h.chunks, p, nb))
       case Top => NothingFree(h.chunks, nb)
     }
  }

  /** No free chunk but `top` is large enough. */
  ghost predicate NothingFree(c: Chunks, nb: int)
  {
    NoFit(c, nb) && forall q {:trigger BinOf(c, q)} :: BinOf(c, q) == 1 ==> c[q].size < nb
  }

  /** What `malloc_extend_top` asks of `sbrk`: whole pages for nb bytes and a minimal chunk. */
  function Pages(nb: int): int
  {
    var padded := nb + MINSIZE + (PAGESZ - 1);
    padded - padded % PAGESZ
  }

  /** The least number of whole pages that holds nb bytes and a minimal chunk. */
  lemma PagesLeast(nb: int, n: int)
    requires 0 <= nb
    ensures Pages(nb) % PAGESZ == 0 && Pages(nb) >= nb + MINSIZE
    ensures n % PAGESZ == 0 && n >= nb + MINSIZE ==> Pages(nb) <= n
  {
    var q, k := (nb + MINSIZE + (PAGESZ - 1)) / PAGESZ, n / PAGESZ;
    assert Pages(nb) == q * PAGESZ;
  }

  /** No free chunk is large enough, nor is `top`. */
  ghost predicate TopTooSmall(h: Heap, nb: int)
  {
    NothingFree(h.chunks, nb) && h.brk - h.top < nb + MINSIZE
  }

  /** No chunk of h can serve a request for nb bytes, and the arena cannot grow enough for it. */
  ghost predicate NoRoom(h: Heap, nb: int)
  {
    TopTooSmall(h, nb) && h.brk + Pages(nb) > h.limit
  }

  lemma FreeServes(h: Heap, p: int, nb: int)
    requires WellChosen(h, p, nb) && h.chunks[p].status.Free?
    ensures !NothingFree(h.chunks, nb)
  {
    assert BinOf(h.chunks, p) == 1 || Candidate(h.chunks, p, nb);
  }

  lemma SearchChosen(h: Heap, g: Heap, p: int, nb: int)
    requires SameCandidates(h, g, nb) && Smallest(g.chunks, p, nb)
    ensures WellChosen(h, p, nb)
  {
    assert Candidate(h.chunks, p, nb);
    forall y | Candidate(h.chunks, y, nb) ensures h.chunks[p].size <= h.chunks[y].size {
      assert Candidate(g.chunks, y, nb);
    }
  }

  lemma NothingChosen(h: Heap, g: Heap, nb: int)
    requires SameCandidates(h, g, nb) && NoFit(g.chunks, nb)
    requires forall q {:trigger BinOf(h.chunks, q)} :: BinOf(h.chunks, q) == 1 ==> h.chunks[q].size < nb
    ensures NothingFree(h.chunks, nb)
  {
    forall y ensures !Candidate(h.chunks, y, nb) { assert !Candidate(g.chunks, y, nb); }
  }
}
