/**
 The allocator itself (uboot/common/dlmalloc.c): its routines store to memory in the order of
 the original and are proved to keep the heap invariant.
 */
module AllocatorModel {
  import opened HeapLayout
  import opened HeapRings
  import opened HeapTiles
  import opened HeapModel
  import opened HeapMoves
  import opened HeapOps
  import opened HeapSearch
  import opened HeapResize
  import opened HeapTheorems

  /** The number of bytes `malloc_trim` releases, computed with unsigned wrap-around. */
  function TrimExtra(topSize: int, pad: int): int
  {
    var pages := (topSize - pad - MINSIZE + (PAGESZ - 1)) % TWO32 / PAGESZ;
    Signed((pages - 1) * PAGESZ % TWO32)
  }

  lemma PageAligned(pages: int)
    ensures pages * PAGESZ % PAGESZ == 0 && pages * PAGESZ % 8 == 0
  {
    assert pages * PAGESZ == 8 * (512 * pages);
  }

  lemma WrapUp(x: int)
    requires -TWO32 <= x < 0
    ensures x % TWO32 == x + TWO32
  {
  }

  lemma WrapNone(x: int)
    requires 0 <= x < TWO32
    ensures x % TWO32 == x
  {
  }

  /** The difference of the sizes does not come out positive although the padding is larger than `top`. */
  predicate TrimFits(topSize: int, pad: int) { pad <= topSize + TWO31 - 17 || pad > topSize + TWO32 - 4113 }

  /** It is a number of pages that leaves the padding and a minimal chunk, exactly if TrimFits holds; then it is the
      largest one, and nothing is given back only if `top` is no more than a page larger. */
  lemma TrimAmount(topSize: int, pad: int)
    requires MINSIZE <= topSize < MAX_ARENA && topSize % 8 == 0 && 0 <= pad < TWO32
    ensures -TWO31 <= TrimExtra(topSize, pad) < TWO31 && TrimExtra(topSize, pad) % 8 == 0
    ensures TrimFits(topSize, pad) <==>
              (TrimExtra(topSize, pad) >= PAGESZ ==> pad + MINSIZE <= topSize - TrimExtra(topSize, pad))
    ensures TrimFits(topSize, pad) && TrimExtra(topSize, pad) >= PAGESZ ==>
              topSize - TrimExtra(topSize, pad) <= pad + MINSIZE + PAGESZ
    ensures TrimFits(topSize, pad) ==> (TrimExtra(topSize, pad) >= PAGESZ <==> topSize > pad + MINSIZE + PAGESZ)
    ensures TrimExtra(topSize, pad) % PAGESZ == 0
  {
    var room := topSize - pad - MINSIZE + (PAGESZ - 1);
    if room >= 0 {
      WrapNone(room);
      TrimRoom(room, room / PAGESZ);
    } else {
      WrapUp(room);
      if room + TWO32 >= TWO31 + PAGESZ {
        TrimNone(room + TWO32, (room + TWO32) / PAGESZ);
      } else {
        TrimRoom(room + TWO32, (room + TWO32) / PAGESZ);
      }
    }
  }

  /** What is given back leaves a minimal chunk, or nothing is. Beyond that the heap is destroyed (TrimBreaks). */
  predicate TrimSound(topSize: int, pad: int)
  {
    TrimExtra(topSize, pad) < PAGESZ || TrimExtra(topSize, pad) + MINSIZE <= topSize
  }

  lemma FitsIsSound(topSize: int, pad: int)
    requires MINSIZE <= topSize < MAX_ARENA && topSize % 8 == 0 && 0 <= pad < TWO32 && TrimFits(topSize, pad)
    ensures TrimSound(topSize, pad)
  {
    TrimAmount(topSize, pad);
  }

  /** Of two paddings that are too large for a `top` of ten pages, the first one destroys the heap and the second one
      is merely not kept. */
  lemma TrimCases()
    ensures TrimExtra(40960, 40960 + TWO31) == TWO31 - PAGESZ && !TrimSound(40960, 40960 + TWO31)
    ensures TrimSound(40960, 40960 + TWO32 - 8209) && !TrimFits(40960, 40960 + TWO32 - 8209)
  {
    assert (40960 - (40960 + TWO31) - MINSIZE + (PAGESZ - 1)) % TWO32 == TWO31 + 4079;
    assert (40960 - (40960 + TWO32 - 8209) - MINSIZE + (PAGESZ - 1)) % TWO32 == 12288;
  }

  lemma TrimRoom(room: int, pages: int)
    requires 0 <= room < TWO31 + PAGESZ && pages == room / PAGESZ
    ensures Signed((pages - 1) * PAGESZ % TWO32) == (pages - 1) * PAGESZ && (pages - 1) * PAGESZ % 8 == 0
    ensures (pages - 1) * PAGESZ % PAGESZ == 0
    ensures room - PAGESZ < pages * PAGESZ <= room
  {
    PageAligned(pages - 1);
    if pages == 0 { WrapUp((pages - 1) * PAGESZ); } else { WrapNone((pages - 1) * PAGESZ); }
  }

  lemma TrimNone(room: int, pages: int)
    requires TWO31 + PAGESZ <= room < TWO32 && pages == room / PAGESZ
    ensures -TWO31 <= Signed((pages - 1) * PAGESZ % TWO32) < 0 && Signed((pages - 1) * PAGESZ % TWO32) % 8 == 0
    ensures Signed((pages - 1) * PAGESZ % TWO32) % PAGESZ == 0
  {
    PageAligned(pages - 1);
    WrapNone((pages - 1) * PAGESZ);
    assert Signed((pages - 1) * PAGESZ) == (pages - 1 - 0x10_0000) * PAGESZ;
    PageAligned(pages - 1 - 0x10_0000);
  }

  /** The request is refused, or the larger one that memalign makes of it cannot be served. */
  ghost predicate AlignedFails(h: Heap, alignment: int, bytes: int)
    requires 0 <= bytes < TWO32
  {
    var nb := Request2Size(bytes);
    var s := AlignedRequest(alignment, nb);
    bytes >= TWO31 || if alignment <= 8 then NoRoom(h, nb) else s >= TWO31 || NoRoom(h, Request2Size(s))
  }

  /** The chunk p of h is the one that malloc takes for the request of memalign. */
  ghost predicate ServedBy(h: Heap, p: int, alignment: int, bytes: int)
    requires 0 <= bytes < TWO32
  {
    var nb := Request2Size(bytes);
    if alignment <= 8 then WellChosen(h, p, nb)
    else
      0 <= AlignedRequest(alignment, nb) < TWO32 && WellChosen(h, p, Request2Size(AlignedRequest(alignment, nb)))
  }

  /** The block is at m if that is aligned, or else at the first multiple of the alignment that leaves room for a chunk
      before it. */
  ghost predicate AtSpot(m: int, alignment: int, r: int)
  {
    if alignment <= 8 || (alignment > 0 && DividedBy(m, alignment)) then r == m
    else m + MINSIZE <= r < m + MINSIZE + alignment
  }

  class Allocator {
    /** `mem_malloc_start` and `mem_malloc_end` */
    const memStart: int
    const memEnd: int
    /** `mem_malloc_brk` */
    var brk: int
    var sbrkedMem: int
    var mem: Mem

    // The tiling and the bin lists that memory encodes.
    ghost var top: int
    ghost var chunks: Chunks
    ghost var bins: seq<seq<int>>

    ghost function View(): Heap
      reads this
    {
      Heap(mem, memStart, brk, memEnd, top, chunks, bins)
    }

    ghost predicate Valid()
      reads this
    {
      HeapOK(View()) && Roomy(mem, memEnd) && sbrkedMem == brk - memStart && memEnd - memStart < MAX_ARENA
    }

    /** An arena from start up to end, whose first size bytes are `top`; the bins are empty. */
    constructor (start: int, size: int, end: int)
      requires AV_END <= start && start % 8 == 0 && MINSIZE <= size && size % 8 == 0 && start + size <= end < TWO32 &&
               end - start < MAX_ARENA
      ensures Valid() && memStart == start && memEnd == end && brk == start + size
      ensures forall p :: !Live(View(), p)
    {
      memStart, memEnd, brk, sbrkedMem := start, end, start + size, size;
      mem := map a | 0 <= a < end :: InitialWord(start, size, a);
      top, chunks, bins := start, map[start := Chunk(size, Top)], seq(NAV, _ => []);
      new;
      InitialOK(View());
    }

    /** One word is stored; the address must exist. */
    method Put(a: int, v: int)
      requires a in mem
      modifies this`mem
      ensures Wrote(old(mem), mem, a, v)
    {
      mem := Store(mem, a, v);
    }

    /** `unlink` */
    method Unlink(p: int)
      requires Bk(mem, p) + 8 in mem && Fd(mem, p) + 12 in mem
      modifies this`mem
      ensures forall b {:trigger W(mem, b)} :: W(mem, b) == (
                if b == Bk(old(mem), p) + 8 then Fd(old(mem), p)
                else if b == Fd(old(mem), p) + 12 then Bk(old(mem), p)
                else W(old(mem), b))
      ensures forall b {:trigger b in mem} :: b in old(mem) ==> b in mem
    {
      var bk, fd := Bk(mem, p), Fd(mem, p);
      Put(fd + 12, bk);
      Put(bk + 8, fd);
    }

    /** `link_last_remainder` */
    method LinkLastRemainder(p: int)
      requires BinAt(1) + 8 in mem && BinAt(1) + 12 in mem && p + 8 in mem && p + 12 in mem
      requires p >= AV_END
      modifies this`mem
      ensures forall b {:trigger W(mem, b)} :: W(mem, b) == (
                if b == BinAt(1) + 8 || b == BinAt(1) + 12 then p
                else if b == p + 8 || b == p + 12 then BinAt(1)
                else W(old(mem), b))
      ensures forall b {:trigger b in mem} :: b in old(mem) ==> b in mem
    {
      Put(BinAt(1) + 12, p);
      Put(BinAt(1) + 8, p);
      Put(p + 12, BinAt(1));
      Put(p + 8, BinAt(1));
    }

    /** Makes the chunk at p, of the given size, the last remainder: links, head and footer. */
    method CarveRemainder(p: int, size: int)
      requires p + 4 in mem && p + 8 in mem && p + 12 in mem && p + size in mem
      requires BinAt(1) + 8 in mem && BinAt(1) + 12 in mem && p >= AV_END && size >= MINSIZE
      modifies this`mem
      ensures forall b {:trigger W(mem, b)} :: W(mem, b) == (
                if b == p + 4 then size + 1
                else if b == p + size then size
                else if b == BinAt(1) + 8 || b == BinAt(1) + 12 then p
                else if b == p + 8 || b == p + 12 then BinAt(1)
                else W(old(mem), b))
      ensures forall b {:trigger b in mem} :: b in old(mem) ==> b in mem
    {
      LinkLastRemainder(p);
      Put(p + 4, size + 1);
      Put(p + size, size);
    }

    /** `set_inuse_bit_at_offset` for the chunk at q */
    method SetInUse(q: int)
      requires q + 4 in mem
      modifies this`mem
      ensures Wrote(old(mem), mem, q + 4, Head(old(mem), q) - Head(old(mem), q) % 2 + 1)
    {
      Put(q + 4, Head(mem, q) - Head(mem, q) % 2 + 1);
    }

    /** Memory holds the words of g, so this heap is as good as g. */
    lemma Settle(h: Heap, g: Heap, p: int, nb: int)
      requires HeapOK(g) && Allocated(h, g, p, nb) && SameWords(g.mem, mem) && Roomy(mem, memEnd)
      requires g == View().(mem := g.mem)
      ensures HeapOK(View()) && Allocated(h, View(), p, nb)
    {
      AllocatedWords(h, g, mem, p, nb);
      assert View() == g.(mem := mem);
    }

    /** The whole of a binned chunk goes into use (lines 2176-2180, 2204-2207, 2299-2302). */
    method UseWhole(victim: int, ghost k: nat, ghost nb: int)
      requires Valid() && InBin(View(), victim, k) && nb <= chunks[victim].size < nb + MINSIZE
      modifies this`mem, this`chunks, this`bins
      ensures Valid() && Allocated(old(View()), View(), victim, nb)
    {
      ghost var h := View();
      ghost var g := TakeWhole(h, victim, k, nb);
      TakeRoom(h, victim, k);
      var victimSize := ChunkSize(mem, victim);
      Unlink(victim);
      SetInUse(victim + victimSize);
      chunks, bins := g.chunks, g.bins;
      Settle(h, g, victim, nb);
    }

    /** Memory holds the words of a heap in which the front of x went into use. */
    lemma SettleSplit(h: Heap, x: int, k: nat, nb: int)
      requires HeapOK(h) && InBin(h, x, k) && nb % 8 == 0 && MINSIZE <= nb && nb + MINSIZE <= h.chunks[x].size
      requires h.bins[1] == [] || h.chunks[x].status.bin == 1
      requires forall a {:trigger W(mem, a)} ::
                 W(mem, a) == SplitWord(h.mem, x, h.chunks[x].size, nb, Bk(h.mem, x), Fd(h.mem, x), a)
      requires Roomy(mem, memEnd)
      requires View() == h.(mem := mem, chunks := SplitChunks(h, x, nb), bins := Unfiled(h, x, k)[1 := [x + nb]])
      ensures HeapOK(View()) && Allocated(h, View(), x, nb)
    {
      var g := SplitTaken(h, x, k, nb);
      Settle(h, g, x, nb);
    }

    /** The front of a binned chunk goes into use, the rest becomes the last remainder (lines 2285-2295). */
    method UseFront(victim: int, nb: int, ghost k: nat)
      requires Valid() && InBin(View(), victim, k) && chunks[victim].status.bin >= 2 && bins[1] == []
      requires nb % 8 == 0 && MINSIZE <= nb && nb + MINSIZE <= chunks[victim].size
      modifies this`mem, this`chunks, this`bins
      ensures Valid() && Allocated(old(View()), View(), victim, nb)
    {
      ghost var h := View();
      TakeRoom(h, victim, k);
      TakeFacts(h, victim, k);
      SplitRoom(h, victim, nb);
      ChunkSizeIs(h, victim);
      CutFront(victim, nb, ChunkSize(mem, victim));
      chunks, bins := SplitChunks(h, victim, nb), Unfiled(h, victim, k)[1 := [victim + nb]];
      SettleSplit(h, victim, k, nb);
    }

    /** The stores for taking the front of a binned chunk. */
    method CutFront(victim: int, nb: int, size: int)
      requires victim >= AV_END && nb >= MINSIZE && size >= nb + MINSIZE && victim % 8 == 0
      requires victim + 4 in mem && Bk(mem, victim) + 8 in mem && Fd(mem, victim) + 12 in mem
      requires victim + nb + 4 in mem && victim + nb + 8 in mem && victim + nb + 12 in mem && victim + size in mem &&
               BinAt(1) + 8 in mem && BinAt(1) + 12 in mem
      requires Bk(mem, victim) % 8 == 0 && Fd(mem, victim) % 8 == 0 && Bk(mem, victim) + 8 != victim &&
               Fd(mem, victim) + 8 != victim
      modifies this`mem
      ensures forall a {:trigger W(mem, a)} ::
                W(mem, a) == SplitWord(old(mem), victim, size, nb, Bk(old(mem), victim), Fd(old(mem), victim), a)
      ensures forall b {:trigger b in mem} :: b in old(mem) ==> b in mem
    {
      Put(victim + 4, nb + 1);
      Unlink(victim);
      CarveRemainder(victim + nb, size - nb);
    }

    /** The front of the last remainder goes into use (lines 2222-2231). */
    method UseFrontOfRemainder(victim: int, nb: int)
      requires Valid() && victim in chunks && chunks[victim].status == Status.Free(1)
      requires nb % 8 == 0 && MINSIZE <= nb && nb + MINSIZE <= chunks[victim].size
      modifies this`mem, this`chunks, this`bins
      ensures Valid() && Allocated(old(View()), View(), victim, nb)
    {
      ghost var h := View();
      ghost var k := BinFacts(h, victim);
      TakeFacts(h, victim, k);
      SplitRoom(h, victim, nb);
      ChunkSizeIs(h, victim);
      var remainderSize := ChunkSize(mem, victim) - nb;
      var remainder := victim + nb;
      Put(victim + 4, nb + 1);
      CarveRemainder(remainder, remainderSize);
      chunks, bins := SplitChunks(h, victim, nb), Unfiled(h, victim, k)[1 := [remainder]];
      SettleSplit(h, victim, k, nb);
    }

    /** The last four stores of `frontlink`. */
    method Join(p: int, bk: int, fd: int)
      requires p + 8 in mem && p + 12 in mem && bk + 8 in mem && fd + 12 in mem
      requires p % 8 == 0 && bk % 8 == 0 && fd % 8 == 0 && p != bk && p != fd
      modifies this`mem
      ensures forall b {:trigger W(mem, b)} :: W(mem, b) == (
                if b == p + 12 then bk
                else if b == p + 8 then fd
                else if b == bk + 8 then p
                else if b == fd + 12 then p
                else W(old(mem), b))
      ensures forall b {:trigger b in mem} :: b in old(mem) ==> b in mem
    {
      Put(p + 12, bk);
      Put(p + 8, fd);
      Put(bk + 8, p);
      Put(fd + 12, p);
    }

    /** The search of `frontlink` through a bin of large chunks, marking the block if the bin was empty. */
    method FindPlace(s: int, ghost g: Heap) returns (bk: int, fd: int, ghost k: nat)
      requires HeapOK(g) && ShowsBins(mem, g) && 512 <= s && 2 <= BinIndex(s) < NAV
      modifies this`mem
      ensures Place(g.chunks, g.bins, s, BinIndex(s), k)
      ensures bk == Node(BinAt(BinIndex(s)), g.bins[BinIndex(s)], k - 1) &&
              fd == Node(BinAt(BinIndex(s)), g.bins[BinIndex(s)], k)
      ensures forall b {:trigger W(mem, b)} ::
                W(mem, b) == if b == BINBLOCKS then SetBit(W(old(mem), BINBLOCKS), BinIndex(s) / 4) else W(old(mem), b)
      ensures forall b {:trigger b in mem} :: b in old(mem) ==> b in mem
    {
      var idx := BinIndex(s);
      ghost var l := g.bins[idx];
      BinWalk(g, idx, 0);
      bk := BinAt(idx);
      fd := Fd(mem, bk);
      k := 0;
      if fd == bk {
        RoomAt(g, mem, AV);
        Put(BINBLOCKS, SetBit(W(mem, BINBLOCKS), idx / 4));
        assert l == [];
      } else {
        MarkedBin(g, idx);
        while fd != bk && s < ChunkSize(mem, fd)
          invariant 0 <= k <= |l| && fd == Node(bk, l, k)
          invariant forall j :: 0 <= j < k ==> l[j] in g.chunks && s < g.chunks[l[j]].size
          invariant fd == bk <==> k == |l|
          invariant mem == old(mem)
          decreases |l| - k
        {
          BinWalk(g, idx, k);
          BinWalk(g, idx, k + 1);
          fd := Fd(mem, fd);
          k := k + 1;
          if k < |l| { BinWalk(g, idx, k); }
        }
        BinWalk(g, idx, k);
        bk := Bk(mem, fd);
      }
      LargePlace(g, s, k);
    }

    /** `frontlink`: files the chunk p of size s, in size order and ahead of others of its size. */
    method Frontlink(p: int, s: int, ghost g: Heap) returns (ghost k: nat)
      requires HeapOK(g) && Live(g, p) && g.chunks[p].size == s && ShowsBins(mem, g)
      modifies this`mem
      ensures Place(g.chunks, g.bins, s, BinIndex(s), k) && 2 <= BinIndex(s) < NAV
      ensures forall b {:trigger W(mem, b)} :: W(mem, b) ==
                LinkWord(old(mem), p, BinIndex(s), Node(BinAt(BinIndex(s)), g.bins[BinIndex(s)], k - 1),
                    Node(BinAt(BinIndex(s)), g.bins[BinIndex(s)], k), b)
      ensures forall b {:trigger b in mem} :: b in old(mem) ==> b in mem
    {
      ChunkFacts(g, p);
      BinIndexMonotone(s, s);
      var bk, fd;
      if s < 512 {
        var idx := s / 8;
        SmallPlace(g, s);
        RoomAt(g, mem, AV);
        Put(BINBLOCKS, SetBit(W(mem, BINBLOCKS), idx / 4));
        k := 0;
        bk := BinAt(idx);
        BinWalk(g, idx, 0);
        fd := Fd(mem, bk);
      } else {
        bk, fd, k := FindPlace(s, g);
      }
      BinWalk(g, BinIndex(s), k);
      NodeAligned(g, bk);
      NodeAligned(g, fd);
      ChunkRoom(g, mem, p);
      NodeRoom(g, mem, bk);
      NodeRoom(g, mem, fd);
      Join(p, bk, fd);
    }

    // ---- malloc ---------------------------------------------------------------------------------

    /** Walks bin i from its smallest chunk to the first one with room for nb bytes; the bin header
        stands for none (lines 2191-2209 and 2280-2305). */
    method FirstFit(i: int, nb: int) returns (victim: int, ghost k: int)
      requires Valid() && 2 <= i < NAV
      ensures -1 <= k < |bins[i]| && victim == Node(BinAt(i), bins[i], k) && (victim == BinAt(i) <==> k == -1)
      ensures k >= 0 ==>
                InBin(View(), victim, k) && chunks[victim].status == Status.Free(i) && nb <= chunks[victim].size
      ensures forall j :: k < j < |bins[i]| ==> bins[i][j] in chunks && chunks[bins[i][j]].size < nb
    {
      ghost var h := View();
      ghost var l := bins[i];
      k := |l| - 1;
      BinWalk(h, i, k + 1);
      if k >= 0 { BinWalk(h, i, k); }
      victim := Bk(mem, BinAt(i));
      while victim != BinAt(i)
        invariant -1 <= k < |l| && victim == Node(BinAt(i), l, k) && (victim == BinAt(i) <==> k == -1)
        invariant k >= 0 ==> InBin(h, victim, k) && chunks[victim].status == Status.Free(i)
        invariant forall j :: k < j < |l| ==> l[j] in chunks && chunks[l[j]].size < nb
        decreases k
      {
        ChunkSizeIs(h, victim);
        if ChunkSize(mem, victim) - nb >= 0 {
          return;
        }
        BinWalk(h, i, k);
        victim := Bk(mem, victim);
        k := k - 1;
        if k >= 0 { BinWalk(h, i, k); }
      }
    }

    /** `last(bin_at(i)) == bin_at(i)` exactly when the bin is empty. */
    lemma LastOf(i: int)
      requires Valid() && 1 <= i < NAV
      ensures Bk(mem, BinAt(i)) == BinAt(i) <==> bins[i] == []
      ensures Fd(mem, BinAt(i)) == BinAt(i) <==> bins[i] == []
      ensures bins[i] != [] ==>
                var k := |bins[i]| - 1;
                Bk(mem, BinAt(i)) == bins[i][k] && InBin(View(), bins[i][k], k) &&
                chunks[bins[i][k]].status == Status.Free(i)
    {
      BinWalk(View(), i, 0);
      BinWalk(View(), i, |bins[i]|);
      if bins[i] != [] { BinWalk(View(), i, |bins[i]| - 1); }
    }

    /** Looks for an exact fit (lines 2157-2213): for small requests in the two bins whose chunks
        leave no remainder, otherwise in the bin of the request. */
    method ExactFit(nb: int) returns (victim: int, idx: int)
      requires Valid() && nb % 8 == 0 && MINSIZE <= nb
      modifies this`mem, this`chunks, this`bins
      ensures Valid()
      ensures victim != 0 ==> Allocated(old(View()), View(), victim, nb) && Smallest(old(chunks), victim, nb)
      ensures victim == 0 ==> View() == old(View()) && Ready(chunks, bins, nb, idx)
    {
      BinIndexMonotone(nb, nb);
      FitsFromOwnBin(View(), nb);
      if nb < 504 {
        victim, idx := SmallFit(nb);
      } else {
        victim, idx := LargeFit(nb);
      }
    }

    method SmallFit(nb: int) returns (victim: int, idx: int)
      requires Valid() && nb % 8 == 0 && MINSIZE <= nb < 504 && AllFrom(chunks, nb, BinIndex(nb))
      modifies this`mem, this`chunks, this`bins
      ensures Valid()
      ensures victim != 0 ==> Allocated(old(View()), View(), victim, nb) && Smallest(old(chunks), victim, nb)
      ensures victim == 0 ==> View() == old(View()) && Ready(chunks, bins, nb, idx)
    {
      idx := nb / 8;
      LastOf(idx);
      LastOf(idx + 1);
      var q := BinAt(idx);
      victim := Bk(mem, q);
      if victim == q {
        SkipBin(View(), nb, idx);
        q := q + 8;
        victim := Bk(mem, q);
      }
      if victim != q {
        ghost var i := if bins[idx] != [] then idx else idx + 1;
        ghost var k := |bins[i]| - 1;
        SmallSize(View(), nb, i, k);
        LastFitIsSmallest(View(), nb, i, k);
        UseWhole(victim, k, nb);
        AllocatedPositive(victim);
        return;
      }
      SkipBin(View(), nb, idx + 1);
      idx := idx + 2;
      HigherBinsFit(View(), nb, idx);
      victim := 0;
    }

    /** Chunk addresses are not null. */
    lemma AllocatedPositive(p: int)
      requires Valid() && p in chunks
      ensures p > 0
    {
      ChunkFacts(View(), p);
    }

    method LargeFit(nb: int) returns (victim: int, idx: int)
      requires Valid() && nb % 8 == 0 && 504 <= nb && AllFrom(chunks, nb, BinIndex(nb))
      modifies this`mem, this`chunks, this`bins
      ensures Valid()
      ensures victim != 0 ==> Allocated(old(View()), View(), victim, nb) && Smallest(old(chunks), victim, nb)
      ensures victim == 0 ==> View() == old(View()) && Ready(chunks, bins, nb, idx)
    {
      idx := BinIndex(nb);
      BinIndexMonotone(504, nb);
      ghost var k;
      victim, k := FirstFit(idx, nb);
      if victim != BinAt(idx) {
        LastFitIsSmallest(View(), nb, idx, k);
        ChunkSizeIs(View(), victim);
        if ChunkSize(mem, victim) - nb >= MINSIZE {
          BinSorted(View(), idx, 0, k);
          BinWalk(View(), idx, 0);
          idx := idx - 1;
        } else {
          UseWhole(victim, k, nb);
          AllocatedPositive(victim);
          return;
        }
      } else {
        SkipBin(View(), nb, idx);
      }
      idx := idx + 1;
      HigherBinsFit(View(), nb, BinIndex(nb) + 1);
      victim := 0;
    }

    /** `clear_last_remainder` */
    method ClearRemainder()
      requires BinAt(1) + 8 in mem && BinAt(1) + 12 in mem
      modifies this`mem
      ensures forall b {:trigger W(mem, b)} ::
                W(mem, b) == if b == BinAt(1) + 8 || b == BinAt(1) + 12 then BinAt(1) else W(old(mem), b)
      ensures forall b {:trigger b in mem} :: b in old(mem) ==> b in mem
    {
      Put(BinAt(1) + 12, BinAt(1));
      Put(BinAt(1) + 8, BinAt(1));
    }

    /** The last remainder is used up (lines 2233-2240). */
    method UseWholeRemainder(victim: int, ghost nb: int)
      requires Valid() && victim in chunks && chunks[victim].status == Status.Free(1) &&
               nb <= chunks[victim].size < nb + MINSIZE
      modifies this`mem, this`chunks, this`bins
      ensures Valid() && Allocated(old(View()), View(), victim, nb)
    {
      ghost var h := View();
      ghost var k := BinFacts(h, victim);
      ghost var g := TakeWhole(h, victim, k, nb);
      TakeRoom(h, victim, k);
      RoomAt(h, mem, BinAt(1));
      var victimSize := ChunkSize(mem, victim);
      ClearRemainder();
      SetInUse(victim + victimSize);
      chunks, bins := g.chunks, g.bins;
      Settle(h, g, victim, nb);
    }

    /** The last remainder is too small and moves to its size bin (lines 2233 and 2244). */
    method RefileRemainder(victim: int, ghost nb: int) returns (ghost k: nat)
      requires Valid() && victim in chunks && chunks[victim].status == Status.Free(1) && chunks[victim].size < nb
      modifies this`mem, this`chunks, this`bins
      ensures Valid() && Refiled(old(View()), View(), victim, k, nb) && Kept(old(View()), View(), {}) && bins[1] == []
    {
      ghost var h := View();
      ghost var k0 := BinFacts(h, victim);
      ghost var g := TakeStep(h, victim, k0);
      assert Without([victim], 0) == [];
      ChunkFacts(h, victim);
      ChunkSizeIs(h, victim);
      RoomAt(h, mem, BinAt(1));
      var victimSize := ChunkSize(mem, victim);
      ClearRemainder();
      assert Announces(mem, g, victim);
      AnnouncedShowsBins(mem, g, victim);
      ghost var m := mem;
      k := Frontlink(victim, victimSize, g);
      ghost var f := FrontlinkFiles(g, victim, k, m, mem);
      chunks, bins := f.chunks, f.bins;
      assert View() == f;
      RefileDone(h, g, f, victim, k, k0, nb);
    }

    lemma RefileDone(h: Heap, g: Heap, f: Heap, x: int, k: nat, k0: nat, nb: int)
      requires HeapOK(h) && x in h.chunks && h.chunks[x].status == Status.Free(1) && h.chunks[x].size < nb &&
               |h.bins| == NAV && h.bins[1] == [x]
      requires g.chunks == h.chunks[x := Chunk(h.chunks[x].size, InUse)] && g.bins == h.bins[1 := []]
      requires var i := BinIndex(h.chunks[x].size);
        && 2 <= i < NAV && k <= |h.bins[i]|
        && f.chunks == g.chunks[x := Chunk(h.chunks[x].size, Status.Free(i))] &&
           f.bins == g.bins[i := With(g.bins[i], k, x)]
      requires Kept(h, g, {}) && Kept(g, f, {x})
      ensures Refiled(h, f, x, k, nb) && Kept(h, f, {}) && f.bins[1] == []
    {
      KeptTwice(h, g, f, {}, {x});
      RefileKept(h, f, x);
    }

    lemma RefileKept(h: Heap, f: Heap, x: int)
      requires Kept(h, f, {} + {x}) && !Live(h, x)
      ensures Kept(h, f, {})
    {
      forall q | Live(h, q) ensures KeptBlock(h, f, q) { assert q !in {} + {x}; }
    }

    /** Tries the last remainder (lines 2215-2245). A result of 0 means that it could not serve. */
    method TryLastRemainder(nb: int, ghost idx: int) returns (r: int)
      requires Valid() && nb % 8 == 0 && MINSIZE <= nb && Ready(chunks, bins, nb, idx)
      modifies this`mem, this`chunks, this`bins
      ensures Valid()
      ensures r != 0 ==>
                Allocated(old(View()), View(), r, nb) && old(BinOf(chunks, r)) == 1 &&
                old(r in chunks && nb <= chunks[r].size)
      ensures r == 0 ==> Kept(old(View()), View(), {}) && bins[1] == [] && Ready(chunks, bins, nb, idx)
      ensures r == 0 ==> SameCandidates(old(View()), View(), nb)
      ensures r == 0 ==> SameLive(old(View()), View())
      ensures r == 0 ==>
                forall q {:trigger old(BinOf(chunks, q))} :: old(BinOf(chunks, q)) == 1 ==> old(chunks[q].size) < nb
    {
      ghost var h := View();
      LastOf(1);
      LastRemainderAlone(h);
      BinWalk(h, 1, 0);
      var victim := Fd(mem, BinAt(1));
      if victim == BinAt(1) {
        r := 0;
        NoRemainder(h, nb);
        return;
      }
      ghost var k := BinFacts(h, victim);
      OnlyRemainder(h, victim);
      ChunkSizeIs(h, victim);
      ChunkFacts(h, victim);
      var remainderSize := ChunkSize(mem, victim) - nb;
      if remainderSize >= MINSIZE {
        UseFrontOfRemainder(victim, nb);
        return victim;
      }
      if remainderSize >= 0 {
        UseWholeRemainder(victim, nb);
        return victim;
      }
      ghost var k' := RefileRemainder(victim, nb);
      RefiledReady(h, View(), victim, k', nb, idx);
      r := 0;
    }

    lemma NoRemainder(h: Heap, nb: int)
      requires HeapOK(h) && h.bins[1] == []
      ensures forall q {:trigger BinOf(h.chunks, q)} :: BinOf(h.chunks, q) != 1
    {
      forall q ensures BinOf(h.chunks, q) != 1 {
        if BinOf(h.chunks, q) == 1 { var k := BinFacts(h, q); assert false; }
      }
    }

    lemma OnlyRemainder(h: Heap, x: int)
      requires HeapOK(h) && h.bins[1] == [x]
      ensures forall q {:trigger BinOf(h.chunks, q)} :: BinOf(h.chunks, q) == 1 ==> q == x
    {
      forall q | BinOf(h.chunks, q) == 1 ensures q == x {
        var k := BinFacts(h, q);
      }
    }

    /** Takes the chunk that the bin search found (lines 2285-2303). */
    method UseFound(victim: int, nb: int, ghost k: nat)
      requires Valid() && InBin(View(), victim, k) && chunks[victim].status.bin >= 2 && bins[1] == []
      requires nb % 8 == 0 && MINSIZE <= nb <= chunks[victim].size
      modifies this`mem, this`chunks, this`bins
      ensures Valid() && Allocated(old(View()), View(), victim, nb) && victim != 0
    {
      ChunkSizeIs(View(), victim);
      ChunkFacts(View(), victim);
      if ChunkSize(mem, victim) - nb >= MINSIZE {
        UseFront(victim, nb, k);
      } else {
        UseWhole(victim, k, nb);
      }
    }

    /** Scans the rest of the block of bin idx (lines 2275-2309): takes the best fit if there is one,
        otherwise all its bins from idx on are empty. */
    method ScanBlock(nb: int, start: int) returns (r: int, idx: int)
      requires Valid() && nb % 8 == 0 && MINSIZE <= nb && bins[1] == [] && 4 <= start < NAV
      requires AllFrom(chunks, nb, start) && FullFrom(chunks, bins, nb, start)
      modifies this`mem, this`chunks, this`bins
      ensures Valid()
      ensures r != 0 ==> Allocated(old(View()), View(), r, nb) && Smallest(old(chunks), r, nb)
      ensures r == 0 ==> View() == old(View()) && idx == start - start % 4 + 4 && AllFrom(chunks, nb, idx)
      ensures r == 0 ==> forall j {:trigger bins[j]} :: start <= j < idx ==> bins[j] == []
    {
      idx := start;
      ghost var h := View();
      while true
        invariant start <= idx < start - start % 4 + 4 && View() == h && Valid()
        invariant AllFrom(chunks, nb, idx)
        invariant forall j {:trigger bins[j]} :: start <= j < idx ==> bins[j] == []
        decreases NAV - idx
      {
        ghost var k;
        var victim;
        victim, k := FirstFit(idx, nb);
        if victim != BinAt(idx) {
          LastFitIsSmallest(View(), nb, idx, k);
          UseFound(victim, nb, k);
          return victim, idx;
        }
        assert bins[idx] == [];
        SkipBin(View(), nb, idx);
        idx := idx + 1;
        if idx % 4 == 0 { break; }
      }
      r := 0;
    }

    /** Clears the bit of a block whose bins are all empty, walking back over the bins before
        startidx (lines 2313-2322). The bit stays if one of them is not empty. */
    method ClearIfEmpty(start: int, ghost end: int)
      requires Valid() && 4 <= start < end <= NAV && end == start - start % 4 + 4
      requires forall j {:trigger bins[j]} :: start <= j < end ==> bins[j] == []
      modifies this`mem
      ensures Valid() && Kept(old(View()), View(), {})
    {
      var startidx := start;
      ghost var h := View();
      while true
        invariant 4 <= startidx <= start && startidx / 4 == start / 4 && View() == h && Valid()
        invariant forall j {:trigger bins[j]} :: startidx <= j < end ==> bins[j] == []
        decreases startidx
      {
        if startidx % 4 == 0 {
          RoomAt(View(), mem, AV);
          ClearBlockOK(View(), startidx / 4);
          Put(BINBLOCKS, ClearBit(W(mem, BINBLOCKS), startidx / 4));
          ghost var g := ClearBlock(h, startidx / 4);
          SameWordsOK(g, mem);
          KeptWords(h, g, mem, {});
          assert View() == g.(mem := mem);
          return;
        }
        startidx := startidx - 1;
        LastOf(startidx);
        if Fd(mem, BinAt(startidx)) != BinAt(startidx) {
          return;
        }
      }
    }

    /** Moves on to the next marked block (lines 2262-2266 and 2328-2332). */
    method NextMarked(nb: int, start: int) returns (idx: int)
      requires Valid() && 4 <= start < NAV && start % 4 == 0 && Pow2(start / 4) <= W(mem, BINBLOCKS)
      requires AllFrom(chunks, nb, start)
      ensures start <= idx < NAV && idx % 4 == 0 && AllFrom(chunks, nb, idx)
    {
      idx := start;
      ghost var marked: nat := FindMark(start / 4);
      while !Bit(W(mem, BINBLOCKS), idx / 4)
        invariant start <= idx && idx % 4 == 0 && idx / 4 <= marked && AllFrom(chunks, nb, idx)
        decreases marked - idx / 4
      {
        SkipUnmarked(View(), nb, idx);
        idx := idx + 4;
      }
    }

    lemma FindMark(b: nat) returns (marked: nat)
      requires Valid() && b < 32 && Pow2(b) <= W(mem, BINBLOCKS)
      ensures b <= marked < 32 && Bit(W(mem, BINBLOCKS), marked)
    {
      Open(View());
      marked := PowerCompares(W(mem, BINBLOCKS), b);
    }

    /** Searches the size bins for the best fit, guided by `binblocks` (lines 2247-2337). The block
        traverser is kept as a bit position. */
    method SearchBlocks(nb: int, start: int) returns (r: int)
      requires Valid() && nb % 8 == 0 && MINSIZE <= nb && bins[1] == [] && Ready(chunks, bins, nb, start)
      modifies this`mem, this`chunks, this`bins
      ensures Valid()
      ensures r != 0 ==> Allocated(old(View()), View(), r, nb) && Smallest(old(chunks), r, nb)
      ensures r == 0 ==>
                NoFit(chunks, nb) && chunks == old(chunks) && bins == old(bins) && Kept(old(View()), View(), {})
    {
      ghost var h := View();
      r := 0;
      var idx := FirstMarked(nb, start);
      if idx == NAV {
        return;
      }
      while true
        invariant Valid() && start <= idx < NAV && AllFrom(chunks, nb, idx)
        invariant chunks == h.chunks && bins == h.bins && Kept(h, View(), {})
        decreases NAV - idx
      {
        var startidx := idx;
        ghost var g := View();
        r, idx := ScanBlock(nb, idx);
        if r != 0 {
          AllocatedSince(h, g, View(), r, nb);
          return;
        }
        ClearIfEmpty(startidx, idx);
        KeptTwice(h, g, View(), {}, {});
        if idx / 4 < 32 && Pow2(idx / 4) <= W(mem, BINBLOCKS) {
          idx := NextMarked(nb, idx);
        } else {
          EndOfSearch(nb, idx);
          return;
        }
      }
    }

    lemma EndOfSearch(nb: int, idx: nat)
      requires Valid() && 4 <= idx <= NAV && AllFrom(chunks, nb, idx)
      requires idx / 4 >= 32 || Pow2(idx / 4) > W(mem, BINBLOCKS)
      ensures NoFit(chunks, nb)
    {
      BlocksBounded();
      NoneMarked(View(), nb, idx);
    }

    /** Gets to the first marked block (lines 2252-2267); NAV stands for none. */
    method FirstMarked(nb: int, start: int) returns (idx: int)
      requires Valid() && Ready(chunks, bins, nb, start)
      ensures start <= idx <= NAV && AllFrom(chunks, nb, idx)
      ensures idx == NAV ==> NoFit(chunks, nb)
    {
      idx := start;
      if Pow2(idx / 4) > W(mem, BINBLOCKS) {
        EndOfSearch(nb, idx);
        return NAV;
      }
      if !Bit(W(mem, BINBLOCKS), idx / 4) {
        SkipUnmarked(View(), nb, idx);
        PowerAbove(start / 4);
        idx := idx - idx % 4 + 4;
        idx := NextMarked(nb, idx);
      }
    }

    lemma BlocksBounded()
      requires Valid()
      ensures W(mem, BINBLOCKS) < Pow2(32)
    {
      Open(View());
    }

    /** A marked block lies beyond one that is not marked. */
    lemma PowerAbove(b: nat)
      requires Valid() && b < 32 && Pow2(b) <= W(mem, BINBLOCKS) && !Bit(W(mem, BINBLOCKS), b)
      ensures b + 1 < 32 && Pow2(b + 1) <= W(mem, BINBLOCKS)
    {
      var m := FindMark(b);
      BlocksBounded();
      if Pow2(b + 1) > W(mem, BINBLOCKS) {
        Open(View());
        var _ := PowerCompares(W(mem, BINBLOCKS), b + 1);
        assert false;
      }
    }

    lemma AllocatedSince(h: Heap, g: Heap, f: Heap, p: int, nb: int)
      requires Kept(h, g, {}) && Allocated(g, f, p, nb) && h.chunks == g.chunks
      ensures Allocated(h, f, p, nb)
    {
      KeptTwice(h, g, f, {}, {});
      forall q ensures Live(g, q) <==> Live(h, q) { }
    }

    // ---- the break --------------------------------------------------------------------------------

    /** `sbrk` (uboot/lib_mips/board.c:495-505), with 32-bit addresses; 0 is failure. */
    method Sbrk(increment: int) returns (r: int)
      requires 0 <= brk < TWO32 && -TWO31 <= increment < TWO31
      modifies this`brk
      ensures var target := (old(brk) + increment) % TWO32;
        if memStart <= target <= memEnd then brk == target && r == old(brk) else brk == old(brk) && r == 0
    {
      var target := (brk + increment) % TWO32;
      if target < memStart || target > memEnd {
        return 0;
      }
      r := brk;
      brk := target;
    }

    /** The request to `sbrk`, rounded to whole pages, is large enough; and when it succeeds the break
        has moved up by it, in spite of the 32-bit arithmetic. */
    lemma PagesSuffice(nb: int, size: int, target: int)
      requires memEnd - memStart < MAX_ARENA && 0 <= memStart <= brk <= memEnd < TWO32
      requires MINSIZE <= nb <= 0x7FFF_FFF8
      requires size == Pages(nb)
      ensures 0 <= size < TWO32 && nb + MINSIZE <= size && size % 8 == 0
      ensures target == (brk + Signed(size)) % TWO32 ==>
                (memStart <= target <= memEnd <==> brk + size <= memEnd) &&
                (brk + size <= memEnd ==> target == brk + size)
    {
      var padded := nb + MINSIZE + (PAGESZ - 1);
      PageAligned(padded / PAGESZ);
      assert size == padded / PAGESZ * PAGESZ;
      SbrkWraps(size, target);
    }

    lemma SbrkWraps(size: int, target: int)
      requires memEnd - memStart < MAX_ARENA && 0 <= memStart <= brk <= memEnd < TWO32 && 0 <= size <= TWO31 + PAGESZ
      ensures target == (brk + Signed(size)) % TWO32 ==>
                (memStart <= target <= memEnd <==> brk + size <= memEnd) &&
                (brk + size <= memEnd ==> target == brk + size)
    {
      if size < TWO31 {
        if brk + size < TWO32 {
          WrapNone(brk + size);
        } else {
          WrapNone(brk + size - TWO32);
          ModShift(brk + size - TWO32);
        }
      } else {
        if brk + size - TWO32 < 0 { WrapUp(brk + size - TWO32); } else { WrapNone(brk + size - TWO32); }
      }
    }

    lemma ModShift(x: int)
      ensures (x + TWO32) % TWO32 == x % TWO32
    {
    }

    /** `malloc_extend_top` without foreign callers of `sbrk` (lines 1970-2065). */
    method ExtendTop(nb: int)
      requires Valid() && MINSIZE <= nb <= 0x7FFF_FFF8
      modifies this`mem, this`chunks, this`brk, this`sbrkedMem
      ensures Valid() && Kept(old(View()), View(), {})
      ensures if old(brk) + Pages(nb) > memEnd then View() == old(View())
              else
                brk == old(brk) + Pages(nb) && chunks == old(chunks)[top := Chunk(brk - top, Top)] &&
                nb + MINSIZE <= brk - top
    {
      ghost var h := View();
      TopFacts();
      var oldTop := W(mem, TOP);
      var oldTopSize := ChunkSize(mem, oldTop);
      var oldEnd := oldTop + oldTopSize;
      var sbrkSize := nb + MINSIZE + (PAGESZ - 1);
      sbrkSize := sbrkSize - sbrkSize % PAGESZ;
      PagesSuffice(nb, sbrkSize, (brk + Signed(sbrkSize)) % TWO32);
      var r := Sbrk(Signed(sbrkSize));
      if r == -1 || r < oldEnd {
        return;
      }
      sbrkedMem := sbrkedMem + sbrkSize;
      SumAligned(sbrkSize, oldTopSize);
      SetTopSize(oldTop, sbrkSize + oldTopSize, h);
    }

    /** `set_head(top, size | PREV_INUSE)` after the break has moved. */
    method SetTopSize(t: int, size: int, ghost h: Heap)
      requires HeapOK(h) && h == View().(brk := h.brk) && Roomy(mem, memEnd) && t == top && top + size == brk <= memEnd
      requires MINSIZE <= size && size % 8 == 0 && memEnd - memStart < MAX_ARENA && sbrkedMem == brk - memStart &&
               t in chunks
      modifies this`mem, this`chunks
      ensures Valid() && Kept(h, View(), {}) && chunks == old(chunks)[top := Chunk(size, Top)]
    {
      ResizeTopOK(h, size);
      ChunkRoom(h, mem, t);
      Put(t + 4, size + 1);
      chunks := chunks[top := Chunk(size, Top)];
      ghost var g := ResizeTop(h, size);
      SameWordsOK(g, mem);
      KeptWords(h, g, mem, {});
      assert View() == g.(mem := mem);
    }

    lemma TopFacts()
      requires Valid()
      ensures W(mem, TOP) == top && top in chunks && ChunkSize(mem, top) == chunks[top].size &&
              top + chunks[top].size == brk
      ensures AV_END <= memStart <= top && brk <= memEnd < TWO32 && top % 8 == 0 && chunks[top].size % 8 == 0
      ensures MINSIZE <= chunks[top].size && chunks[top].status == Top && PrevInUse(mem, top)
    {
      Open(View());
      ChunkSizeIs(View(), top);
    }

    /** The top chunk serves the request, extended first if it must be (lines 2340-2364). */
    method UseTop(nb: int) returns (r: int)
      requires Valid() && MINSIZE <= nb <= 0x7FFF_FFF8 && nb % 8 == 0
      modifies this
      ensures Valid()
      ensures r != 0 ==> r == old(top) && Allocated(old(View()), View(), r, nb)
      ensures r == 0 ==> Kept(old(View()), View(), {}) && SameLive(old(View()), View())
      ensures r == 0 <==> old(brk) - old(top) < nb + MINSIZE && old(brk) + Pages(nb) > memEnd
      ensures brk == old(brk) + if r != 0 && old(brk) - old(top) < nb + MINSIZE then Pages(nb) else 0
    {
      ghost var h := View();
      TopFacts();
      if ChunkSize(mem, W(mem, TOP)) - nb < MINSIZE {
        ExtendTop(nb);
        TopFacts();
        if ChunkSize(mem, W(mem, TOP)) - nb < MINSIZE {
          return 0;
        }
      }
      ghost var g := View();
      r := W(mem, TOP);
      CarveTop(nb);
      TopServed(h, g, View(), nb);
    }

    lemma TopIsTop()
      requires Valid()
      ensures top in chunks && chunks[top].status == Top
    {
      TopFacts();
    }

    lemma TopServed(h: Heap, g: Heap, f: Heap, nb: int)
      requires Kept(h, g, {}) && Allocated(g, f, h.top, nb) && SameLive(h, g)
      ensures Allocated(h, f, h.top, nb)
    {
      KeptTwice(h, g, f, {}, {});
    }

    method CarveTop(nb: int)
      requires Valid() && nb % 8 == 0 && MINSIZE <= nb && top in chunks && nb + MINSIZE <= chunks[top].size
      modifies this`mem, this`chunks, this`top
      ensures Valid() && Allocated(old(View()), View(), old(top), nb)
    {
      ghost var h := View();
      TopFacts();
      ghost var g := CarvedTop(h, nb);
      var victim := W(mem, TOP);
      var remainderSize := ChunkSize(mem, victim) - nb;
      RoomAt(h, mem, victim);
      SumAligned(victim, nb);
      RoomAt(h, mem, victim + nb);
      RoomAt(h, mem, AV);
      Put(victim + 4, nb + 1);
      Put(TOP, victim + nb);
      Put(victim + nb + 4, remainderSize + 1);
      top, chunks := g.top, g.chunks;
      Settle(h, g, victim, nb);
    }

    lemma CarvedTop(h: Heap, nb: int) returns (g: Heap)
      requires HeapOK(h) && nb % 8 == 0 && MINSIZE <= nb && h.top in h.chunks && nb + MINSIZE <= h.chunks[h.top].size
      ensures HeapOK(g) && Allocated(h, g, h.top, nb) && g == h.(mem := g.mem, chunks := g.chunks, top := g.top)
      ensures g.mem == Store(Store(Store(h.mem, h.top + 4, nb + 1), h.top + nb + 4, h.chunks[h.top].size - nb + 1), TOP,
                  h.top + nb)
    {
      ChunkFacts(h, h.top);
      g := SplitStep(h, h.top, nb);
      forall q ensures Live(g, q) <==> Live(h, q) || q == h.top { }
      forall q | Live(h, q) ensures KeptBlock(h, g, q) { assert q !in {h.top}; }
    }

    lemma Aligned(p: int)
      requires Valid() && p in chunks
      ensures p > 0 && p % 8 == 0 && (p + 8) % 8 == 0
    {
      ChunkFacts(View(), p);
    }

    lemma AllocatedLater(h: Heap, g: Heap, f: Heap, p: int, nb: int)
      requires Kept(h, g, {}) && SameLive(h, g) && Allocated(g, f, p, nb)
      ensures Allocated(h, f, p, nb)
    {
      KeptTwice(h, g, f, {}, {});
    }

    /** Finds and takes the chunk for a padded request (lines 2157-2364). */
    method Serve(nb: int) returns (victim: int)
      requires Valid() && MINSIZE <= nb <= 0x7FFF_FFF8 && nb % 8 == 0
      modifies this
      ensures Valid()
      ensures victim != 0 ==> Allocated(old(View()), View(), victim, nb) && old(WellChosen(View(), victim, nb))
      ensures victim == 0 ==> Kept(old(View()), View(), {}) && SameLive(old(View()), View())
      ensures victim == 0 <==> NoRoom(old(View()), nb)
      ensures brk == old(brk) + if victim != 0 && TopTooSmall(old(View()), nb) then Pages(nb) else 0
    {
      ghost var h := View();
      TopIsTop();
      var idx;
      victim, idx := ExactFit(nb);
      if victim != 0 {
        FreeServes(h, victim, nb);
        return;
      }
      victim := TryLastRemainder(nb, idx);
      if victim != 0 {
        FreeServes(h, victim, nb);
        return;
      }
      ghost var h1 := View();
      victim := SearchBlocks(nb, idx);
      if victim != 0 {
        SearchChosen(h, h1, victim, nb);
        FreeServes(h, victim, nb);
        AllocatedLater(h, h1, View(), victim, nb);
        return;
      }
      ghost var h2 := View();
      NothingChosen(h, h1, nb);
      KeptTwice(h, h1, h2, {}, {});
      victim := UseTop(nb);
      if victim == 0 {
        KeptTwice(h, h2, View(), {} + {}, {});
      } else {
        AllocatedLater(h, h2, View(), victim, nb);
      }
    }

    /** Allocates a block for the given number of bytes; 0 is failure (lines 2133-2366). */
    method Malloc(bytes: int) returns (r: int)
      requires Valid() && 0 <= bytes < TWO32
      modifies this
      ensures Valid()
      ensures bytes >= TWO31 ==> View() == old(View())
      ensures r != 0 ==> Allocated(old(View()), View(), r - 8, Request2Size(bytes)) && r % 8 == 0
      ensures r != 0 ==> old(WellChosen(View(), r - 8, Request2Size(bytes)))
      ensures r == 0 ==> Kept(old(View()), View(), {}) && SameLive(old(View()), View())
      ensures r == 0 <==> bytes >= TWO31 || NoRoom(old(View()), Request2Size(bytes))
      ensures var nb := Request2Size(bytes);
        brk == old(brk) + if r != 0 && TopTooSmall(old(View()), nb) then Pages(nb) else 0
    {
      if bytes >= TWO31 {
        return 0;
      }
      Request2SizeFits(bytes);
      var victim := Serve(Request2Size(bytes));
      if victim == 0 {
        return 0;
      }
      Aligned(victim);
      r := victim + 8;
    }

    // ---- free ---------------------------------------------------------------------------------------

    lemma SettleFree(h: Heap, g: Heap, p: int)
      requires HeapOK(g) && Freed(h, g, p) && SameWords(g.mem, mem) && Roomy(mem, memEnd)
      requires g == View().(mem := g.mem)
      ensures HeapOK(View()) && Freed(h, View(), p)
    {
      SameWordsOK(g, mem);
      KeptWords(h, g, mem, {p});
      assert View() == g.(mem := mem);
      forall q ensures Live(View(), q) <==> Live(g, q) { }
    }

    /** The block borders `top`, which takes it in. */
    method TopTakes(p: int, sz: int)
      requires Valid() && Live(View(), p) && p + chunks[p].size == top && sz == brk - p && PrevInUse(mem, p)
      modifies this`mem, this`chunks, this`top
      ensures Valid() && Freed(old(View()), View(), p) && top == p
    {
      ghost var h := View();
      ChunkFacts(h, p);
      RoomAt(h, mem, AV);
      ghost var g := FreeIntoTop(h, p);
      ChunkRoom(h, mem, p);
      Put(p + 4, sz + 1);
      Put(TOP, p);
      top, chunks := g.top, g.chunks;
      SettleFree(h, g, p);
    }

    /** As TopTakes, with the free chunk p before the block p0. */
    method TopTakesBoth(p: int, sz: int, ghost p0: int, ghost k: nat)
      requires Valid() && Live(View(), p0) && p0 + chunks[p0].size == top && InBin(View(), p, k) &&
               p + chunks[p].size == p0 && sz == brk - p
      modifies this`mem, this`chunks, this`bins, this`top
      ensures Valid() && Freed(old(View()), View(), p0) && top == p
    {
      ghost var h := View();
      ghost var g := FreeIntoTopBack(h, p0, p, k);
      RoomAt(h, mem, AV);
      TakeRoom(h, p, k);
      ChunkRoom(h, mem, p);
      Unlink(p);
      Put(p + 4, sz + 1);
      Put(TOP, p);
      top, chunks, bins := g.top, g.chunks, g.bins;
      SettleFree(h, g, p0);
    }

    /** The block borders `top` and joins it (lines 2430-2443). */
    method FreeToTop(p0: int, hd: int, size: int) returns (p: int, sz: int)
      requires Valid() && Live(View(), p0) && hd == Head(mem, p0) && p0 + chunks[p0].size == top && size == brk - p0
      modifies this`mem, this`chunks, this`bins, this`top
      ensures Valid() && Freed(old(View()), View(), p0) && top == p && sz == brk - p
    {
      p, sz := p0, size;
      if hd % 2 == 0 {
        PrevFacts(View(), p0);
        var prevsz := W(mem, p);
        p := p - prevsz;
        sz := sz + prevsz;
        ghost var k := BinFacts(View(), p);
        TopTakesBoth(p, sz, p0, k);
      } else {
        TopTakes(p, sz);
      }
    }

    /** sbrk refuses to go below the start of the arena; malloc_trim compares its result with -1 and does not notice. */
    lemma TrimUnnoticed(extra: int)
      requires Valid() && 0 <= extra < TWO31
      ensures memStart <= (brk - extra) % TWO32 <= memEnd <==> memStart <= brk - extra
    {
      TopFacts();
      if brk - extra < 0 { WrapUp(brk - extra); } else { WrapNone(brk - extra); }
    }

    /** The release (lines 3001-3020) */
    method GiveBack(topSize: int, extra: int)
      requires Valid() && topSize == brk - top && 0 < extra < TWO31 && extra % 8 == 0 && extra + MINSIZE <= topSize
      modifies this`mem, this`chunks, this`brk, this`sbrkedMem
      ensures Valid() && Kept(old(View()), View(), {}) && SameLive(old(View()), View()) && brk == old(brk) - extra
    {
      ghost var h := View();
      TopFacts();
      SumAligned(topSize, extra);
      TrimUnnoticed(extra);
      WrapNone(brk - extra);
      var newBrk := Sbrk(-extra);
      sbrkedMem := sbrkedMem - extra;
      SetTopSize(W(mem, TOP), topSize - extra, h);
    }

    /** `malloc_trim`: gives whole pages at the end of `top` back (lines 2974-3027). */
    method Trim(pad: int) returns (released: bool)
      requires Valid() && 0 <= pad < TWO32 && TrimSound(brk - top, pad)
      modifies this`mem, this`chunks, this`brk, this`sbrkedMem
      ensures Valid() && Kept(old(View()), View(), {}) && SameLive(old(View()), View())
      ensures brk <= old(brk) && (released <==> brk < old(brk)) && (!released ==> View() == old(View()))
      ensures released ==> (brk - top >= pad + MINSIZE <==> TrimFits(old(brk - top), pad))
      ensures TrimFits(old(brk - top), pad) ==> (released <==> old(brk - top) > pad + MINSIZE + PAGESZ)
      ensures released && TrimFits(old(brk - top), pad) ==> brk - top <= pad + MINSIZE + PAGESZ
      ensures (old(brk) - brk) % PAGESZ == 0
    {
      TopFacts();
      var topSize := ChunkSize(mem, W(mem, TOP));
      var extra := TrimExtra(topSize, pad);
      TrimAmount(topSize, pad);
      if extra < PAGESZ {
        return false;
      }
      var currentBrk := Sbrk(0);
      if currentBrk != W(mem, TOP) + topSize {
        return false;
      }
      GiveBack(topSize, extra);
      released := true;
    }

    /** `free` consolidates backward (lines 2453-2463). */
    method JoinBackward(p0: int, hd: int, size: int, next: int, ghost h: Heap)
        returns (p: int, sz: int, islr: bool, ghost g: Heap)
      requires HeapOK(h) && Live(h, p0) && hd == Head(h.mem, p0) && size == h.chunks[p0].size && h.limit == memEnd
      requires next == p0 + size && next in h.chunks && next != h.top
      requires HalfFreed(mem, h, p0, false, next, h.chunks[next].size) && Head(mem, p0) == hd
      modifies this`mem
      ensures Grown(h, g, p0, p, sz) && p + sz == next && next in g.chunks && g.chunks[next] == h.chunks[next]
      ensures HalfFreed(mem, g, p, islr, next, h.chunks[next].size)
      ensures islr ==> g.bins[1] == []
      ensures p == if PrevInUse(h.mem, p0) then p0 else p0 - W(h.mem, p0)
      ensures islr <==> p != p0 && p in h.chunks && h.chunks[p].status == Status.Free(1)
    {
      p, sz, islr := p0, size, false;
      ChunkFacts(h, p0);
      ChunkFacts(h, next);
      if hd % 2 == 0 {
        PrevFacts(h, p0);
        var prevsz := W(mem, p);
        p := p - prevsz;
        sz := sz + prevsz;
        ChunkFacts(h, p);
        ghost var k := BinFacts(h, p);
        g := GrownBack(h, p0, p, k);
        BackLinks(h, p, k, p0, next);
        ghost var m := mem;
        if Fd(mem, p) == BinAt(1) {
          islr := true;
          BackRemainderWords(m, h, g, p, p0, next);
        } else {
          UnlinkRoom(h, mem, p, k);
          Unlink(p);
          BackWords(m, mem, h, g, p, p0, next);
        }
      } else {
        GrownNot(h, p0);
        g := h;
      }
    }

    /** `free` joins the free chunk after the block, taking it out of its bin. */
    method JoinBinned(p: int, next: int, islr: bool, ghost h: Heap, ghost g0: Heap, ghost p0: int, ghost k: nat)
        returns (ghost g: Heap)
      requires Grown(h, g0, p0, p, next - p) && InBin(g0, next, k) && g0.chunks[next].status.bin != 1 &&
               g0.limit == memEnd
      requires HalfFreed(mem, g0, p, islr, next, g0.chunks[next].size)
      modifies this`mem
      ensures var e := next + g0.chunks[next].size;
              Grown(h, g, p0, p, e - p) && Live(g, e) && HalfFreed(mem, g, p, islr, e, g.chunks[e].size)
      ensures g.bins[1] == g0.bins[1]
    {
      ghost var e := next + g0.chunks[next].size;
      ChunkFacts(g0, next);
      ChunkFacts(g0, e);
      ChunkFacts(g0, p);
      g := GrownOver(h, g0, p0, p, next, k, g0.chunks[next].size);
      BinnedApart(g0, next, k, p, e, Bk(g0.mem, next));
      BinnedApart(g0, next, k, p, e, Fd(g0.mem, next));
      UnlinkRoom(g0, mem, next, k);
      ghost var m := mem;
      Unlink(next);
      JoinBinnedWords(m, mem, g0, g, p, islr, next, e, Bk(g0.mem, next), Fd(g0.mem, next));
    }

    /** `free` joins the last remainder after the block, which becomes the last remainder. */
    method JoinRemainder(p: int, next: int, ghost h: Heap, ghost g0: Heap, ghost p0: int, ghost k: nat)
        returns (ghost g: Heap)
      requires Grown(h, g0, p0, p, next - p) && InBin(g0, next, k) && g0.chunks[next].status.bin == 1 &&
               g0.limit == memEnd
      requires HalfFreed(mem, g0, p, false, next, g0.chunks[next].size)
      modifies this`mem
      ensures var e := next + g0.chunks[next].size;
              Grown(h, g, p0, p, e - p) && Live(g, e) && HalfFreed(mem, g, p, true, e, g.chunks[e].size)
      ensures g.bins[1] == []
    {
      ghost var e := next + g0.chunks[next].size;
      ChunkFacts(g0, next);
      ChunkFacts(g0, e);
      ChunkFacts(g0, p);
      ghost var k' := BinFacts(g0, next);
      g := GrownOver(h, g0, p0, p, next, k, g0.chunks[next].size);
      ChunkRoom(g0, mem, p);
      RoomAt(g0, mem, BinAt(1));
      LinkLastRemainder(p);
    }

    /** `free` writes head and footer of the joined chunk and files it (lines 2479-2482). */
    method FinishFree(p: int, sz: int, islr: bool, ghost h: Heap, ghost g: Heap, ghost p0: int)
      requires Grown(h, g, p0, p, sz) && Live(g, p + sz) && HalfFreed(mem, g, p, islr, p + sz, g.chunks[p + sz].size)
      requires islr ==> g.bins[1] == []
      requires g.base == memStart && g.limit == memEnd && g.brk == brk && g.top == top &&
               memEnd - memStart < MAX_ARENA && sbrkedMem == brk - memStart
      modifies this`mem, this`chunks, this`bins
      ensures Valid() && Freed(h, View(), p0)
      ensures p in chunks && chunks[p] == Chunk(sz, Status.Free(if islr then 1 else BinIndex(sz)))
    {
      ChunkFacts(g, p);
      ChunkFacts(g, p + sz);
      ChunkRoom(g, mem, p);
      ChunkRoom(g, mem, p + sz);
      Put(p + 4, sz + 1);
      Put(p + sz, sz);
      ghost var f;
      if !islr {
        assert Announces(mem, g, p);
        AnnouncedShowsBins(mem, g, p);
        ghost var m := mem;
        ghost var k := Frontlink(p, sz, g);
        f := FrontlinkFiles(g, p, k, m, mem);
      } else {
        f := FileRemainder(g, p, mem);
      }
      chunks, bins := f.chunks, f.bins;
      FreedBy(h, g, f, p0, p, sz);
      assert View() == f;
    }

    /** The block does not border `top`; it is joined with its free neighbours and filed (lines 2449-2482). */
    method FreeToBin(p0: int, hd: int, size: int, next: int, nextsz: int)
      requires Valid() && Live(View(), p0) && hd == Head(mem, p0) && size == chunks[p0].size
      requires next == p0 + size && next in chunks && next != top && nextsz == chunks[next].size
      modifies this`mem, this`chunks, this`bins
      ensures Valid() && Freed(old(View()), View(), p0) && Joined(old(View()), View(), p0)
    {
      ghost var h := View();
      ChunkFacts(h, p0);
      ChunkFacts(h, next);
      ChunkRoom(h, mem, next);
      Put(next + 4, nextsz);
      ghost var g;
      var p, sz, islr;
      p, sz, islr, g := JoinBackward(p0, hd, size, next, h);
      ghost var back := islr;
      sz, islr, g := JoinForward(p, sz, islr, next, nextsz, h, g, p0);
      FinishFree(p, sz, islr, h, g, p0);
      JoinedBy(h, View(), p0, p, sz, back, islr);
    }

    lemma JoinedBy(h: Heap, f: Heap, p0: int, p: int, sz: int, back: bool, islr: bool)
      requires p0 in h.chunks && p == JoinStart(h, p0) && (back <==> p != p0 && IsRemainder(h, p))
      requires var n := p0 + h.chunks[p0].size;
        && p + sz == (if IsFree(h, n) then n + h.chunks[n].size else n) && (islr <==> back || IsRemainder(h, n))
      requires p in f.chunks && f.chunks[p] == Chunk(sz, Status.Free(if islr then 1 else BinIndex(sz)))
      ensures Joined(h, f, p0)
    {
    }

    /** `free` consolidates forward (lines 2465-2476). */
    method JoinForward(p: int, sz0: int, islr0: bool, next: int, nextsz: int, ghost h: Heap, ghost g0: Heap,
        ghost p0: int) returns (sz: int, islr: bool, ghost g: Heap)
      requires Grown(h, g0, p0, p, sz0) && p + sz0 == next && next in g0.chunks && next != g0.top
      requires nextsz == g0.chunks[next].size && HalfFreed(mem, g0, p, islr0, next, nextsz) && g0.limit == memEnd
      requires islr0 ==> g0.bins[1] == []
      modifies this`mem
      ensures Grown(h, g, p0, p, sz) && Live(g, p + sz) && HalfFreed(mem, g, p, islr, p + sz, g.chunks[p + sz].size)
      ensures islr ==> g.bins[1] == []
      ensures g.base == g0.base && g.limit == g0.limit && g.brk == g0.brk && g.top == g0.top
      ensures sz == sz0 + if IsFree(g0, next) then nextsz else 0
      ensures islr <==> islr0 || IsRemainder(g0, next)
    {
      sz, islr, g := sz0, islr0, g0;
      ChunkFacts(g, next);
      ChunkFacts(g, next + nextsz);
      ChunkFacts(g, p);
      if Head(mem, next + nextsz) % 2 == 0 {
        sz := sz + nextsz;
        ghost var k := BinFacts(g, next);
        if !islr && Fd(mem, next) == BinAt(1) {
          islr := true;
          g := JoinRemainder(p, next, h, g, p0, k);
        } else {
          g := JoinBinned(p, next, islr, h, g, p0, k);
        }
      }
    }

    /** The block joins `top`, which is trimmed if it becomes large (lines 2428-2447). */
    method FreeAtEnd(p0: int, hd: int, size: int)
      requires Valid() && Live(View(), p0) && hd == Head(mem, p0) && p0 + chunks[p0].size == top && size == brk - p0
      modifies this
      ensures Valid() && Freed(old(View()), View(), p0)
      ensures if old(brk) - top < 128 * 1024 then brk == old(brk)
              else MINSIZE <= brk - top <= MINSIZE + PAGESZ && (old(brk) - brk) % PAGESZ == 0
    {
      ghost var h := View();
      var p, sz := FreeToTop(p0, hd, size);
      if sz >= TRIM_THRESHOLD {
        ghost var g := View();
        TopFacts();
        FitsIsSound(brk - top, 0);
        var _ := Trim(0);
        FreedThenTrimmed(h, g, View(), p0);
      }
    }

    ghost predicate JoinsTop(p: int)
      reads this`chunks, this`top
    {
      p in chunks && p + chunks[p].size == top
    }

    /** `free` (lines 2394-2483): the block goes out of use and is joined with free space around it. If it borders `top`
        and `top` becomes 128 kB large, what is beyond a page is given back. */
    method Free(address: int)
      requires Valid() && (address != 0 ==> Live(View(), address - 8))
      modifies this
      ensures Valid()
      ensures address == 0 ==> View() == old(View())
      ensures address != 0 ==> Freed(old(View()), View(), address - 8)
      ensures address != 0 && !old(JoinsTop(address - 8)) ==>
                brk == old(brk) && top == old(top) && Joined(old(View()), View(), address - 8)
      ensures address != 0 && old(JoinsTop(address - 8)) ==>
                if old(brk) - top < 128 * 1024 then brk == old(brk)
                else MINSIZE <= brk - top <= MINSIZE + PAGESZ && (old(brk) - brk) % PAGESZ == 0
    {
      if address == 0 {
        return;
      }
      ghost var h := View();
      var p := address - 8;
      var hd := Head(mem, p);
      ChunkFacts(h, p);
      ChunkSizeIs(h, p);
      TopFacts();
      var sz := hd - hd % 2;
      var next := p + sz;
      ChunkFacts(h, next);
      ChunkSizeIs(h, next);
      var nextsz := ChunkSize(mem, next);
      if next == W(mem, TOP) {
        sz := sz + nextsz;
        FreeAtEnd(p, hd, sz);
        return;
      }
      FreeToBin(p, hd, sz, next, nextsz);
    }

    lemma FreedThenTrimmed(h: Heap, g: Heap, f: Heap, p: int)
      requires Freed(h, g, p) && Kept(g, f, {}) && SameLive(g, f)
      ensures Freed(h, f, p)
    {
      KeptTwice(h, g, f, {p}, {});
      assert {p} + {} == {p};
    }

    // ---- realloc --------------------------------------------------------------------------------------

    /** This allocator owns the arena of g. */
    ghost predicate Owns(g: Heap)
      reads this
    {
      && g.base == memStart && g.limit == memEnd && g.brk == brk && g.top == top
      && sbrkedMem == brk - memStart && memEnd - memStart < MAX_ARENA
    }

    /** `split`: gives extra room of the block back (lines 2701-2716). */
    method SplitOff(newp: int, newsize: int, nb: int, ghost g: Heap)
      requires Pending(mem, g, newp) && Owns(g) && g.chunks[newp].size == newsize && nb % 8 == 0 &&
               MINSIZE <= nb <= newsize
      modifies this
      ensures Valid() && Trimmed(g, View(), newp, nb) && SamePayload(old(mem), mem, newp, newp + nb + 4)
    {
      if newsize - nb >= MINSIZE {
        ghost var f := CutOff(newp, newsize, nb, g);
        ChunkFacts(f, newp + nb);
        Free(newp + nb + 8);
        CutThenFreed(g, f, View(), newp, nb);
      } else {
        ghost var m := mem;
        ChunkRoom(g, mem, newp);
        ChunkRoom(g, mem, newp + newsize);
        Put(newp + 4, Head(mem, newp) % 2 + newsize);
        SetInUse(newp + newsize);
        ghost var f := CompleteBlock(m, g, newp, mem);
        chunks, bins := f.chunks, f.bins;
        assert View() == f;
      }
    }

    /** The extra room becomes a block of its own, to be freed next. */
    method CutOff(newp: int, newsize: int, nb: int, ghost g: Heap) returns (ghost f: Heap)
      requires Pending(mem, g, newp) && Owns(g) && g.chunks[newp].size == newsize && nb % 8 == 0 && MINSIZE <= nb &&
               nb + MINSIZE <= newsize
      modifies this`mem, this`chunks, this`bins
      ensures Valid() && f == View() && Kept(g, f, {newp}) && Live(f, newp) && f.chunks[newp].size == nb
      ensures Live(f, newp + nb) && !Live(g, newp + nb) && SamePayload(old(mem), mem, newp, newp + nb + 4)
      ensures forall q {:trigger Live(f, q)} :: Live(f, q) <==> Live(g, q) || q == newp + nb
    {
      ghost var m := mem;
      ChunkFacts(g, newp);
      ChunkRoom(g, mem, newp);
      ChunkRoom(g, mem, newp + newsize);
      var remainder := newp + nb;
      var remainderSize := newsize - nb;
      SumAligned(newp, nb);
      RoomAt(g, mem, remainder);
      Put(newp + 4, Head(mem, newp) % 2 + nb);
      Put(remainder + 4, remainderSize + 1);
      SetInUse(remainder + remainderSize);
      f := CutBlock(m, g, newp, nb, mem);
      chunks, bins := f.chunks, f.bins;
      assert View() == f;
    }

    /** `MALLOC_COPY`: copies n bytes word by word, upwards. */
    method CopyWords(dst: int, src: int, n: int)
      requires dst % 4 == 0 && src % 4 == 0 && n % 4 == 0 && 0 <= n && (dst <= src || src + n <= dst)
      requires Roomy(mem, memEnd) && 0 <= dst && dst + n <= memEnd && 0 <= src && src + n <= memEnd
      modifies this`mem
      ensures Copied(old(mem), mem, src, dst, n) && Roomy(mem, memEnd)
      ensures forall a {:trigger W(mem, a)} :: a < dst || dst + n <= a ==> W(mem, a) == W(old(mem), a)
    {
      var i := 0;
      while i < n
        invariant 0 <= i <= n && i % 4 == 0 && Roomy(mem, memEnd)
        invariant Copied(old(mem), mem, src, dst, i)
        invariant forall a {:trigger W(mem, a)} :: a < dst || dst + i <= a ==> W(mem, a) == W(old(mem), a)
      {
        WordFits(i, n);
        CopyWord(dst, src, i, old(mem));
        i := i + 4;
      }
    }

    method CopyWord(dst: int, src: int, i: int, ghost m: Mem)
      requires dst % 4 == 0 && i % 4 == 0 && 0 <= i && 0 <= dst && dst + i + 4 <= memEnd &&
               (dst <= src || src + i + 4 <= dst)
      requires Roomy(mem, memEnd) && Copied(m, mem, src, dst, i) &&
               forall a {:trigger W(mem, a)} :: a < dst || dst + i <= a ==> W(mem, a) == W(m, a)
      modifies this`mem
      ensures Roomy(mem, memEnd) && Copied(m, mem, src, dst, i + 4) &&
              forall a {:trigger W(mem, a)} :: a < dst || dst + i + 4 <= a ==> W(mem, a) == W(m, a)
    {
      WordSum(dst, i);
      ghost var m1 := mem;
      assert W(mem, src + i) == W(m, src + i);
      Put(dst + i, W(mem, src + i));
      forall d | 0 <= d < i + 4 && d % 4 == 0 ensures CopiedAt(m, mem, src, dst, d) {
        if d < i { assert CopiedAt(m, m1, src, dst, d); } else { SameWord(i, d); }
      }
    }

    /** The block grows into `top` (lines 2602-2605). */
    method GrowIntoTop(oldp: int, oldsize: int, nextsize: int, nb: int)
      requires Valid() && Live(View(), oldp) && oldsize == chunks[oldp].size && oldp + oldsize == top &&
               nextsize == brk - top
      requires nb % 8 == 0 && MINSIZE <= oldsize < nb && nextsize + oldsize >= nb + MINSIZE
      modifies this`mem, this`chunks, this`top
      ensures Valid() && Reallocated(old(View()), View(), oldp, oldp, nb)
    {
      ghost var h := View();
      var newsize := oldsize + nextsize;
      TopFacts();
      ghost var g := ShiftTopStep(h, oldp, nb);
      ChunkFacts(h, oldp);
      ChunkRoom(h, mem, oldp);
      SumAligned(oldp, nb);
      RoomAt(h, mem, oldp + nb);
      RoomAt(h, mem, AV);
      Put(TOP, oldp + nb);
      Put(oldp + nb + 4, newsize - nb + 1);
      Put(oldp + 4, Head(mem, oldp) % 2 + nb);
      top, chunks := g.top, g.chunks;
      SettleResize(h, g, oldp);
      GrownIntoTop(h, View(), oldp, nb);
    }

    lemma SettleResize(h: Heap, g: Heap, p: int)
      requires HeapOK(g) && Kept(h, g, {p}) && SameLive(h, g) && SameWords(g.mem, mem) && Roomy(mem, memEnd)
      requires g == View().(mem := g.mem)
      ensures HeapOK(View()) && Kept(h, View(), {p}) && SameLive(h, View())
    {
      SameWordsOK(g, mem);
      KeptWords(h, g, mem, {p});
      assert View() == g.(mem := mem);
      forall q ensures Live(View(), q) <==> Live(h, q) { assert Live(g, q) <==> Live(h, q); }
    }

    /** The block takes in the free chunk after it (lines 2613-2615). */
    method TakeNext(oldp: int, next: int) returns (ghost g: Heap)
      requires Valid() && Live(View(), oldp) && next == oldp + chunks[oldp].size && next in chunks &&
               chunks[next].status.Free?
      modifies this`mem
      ensures Pending(mem, g, oldp) && StandsFor(old(View()), g, oldp, oldp) && Owns(g)
      ensures g.chunks[oldp].size == old(chunks[oldp].size + chunks[next].size)
      ensures forall q {:trigger q in g.chunks} :: q in chunks && q < oldp ==> q in g.chunks && g.chunks[q] == chunks[q]
      ensures SamePayload(old(mem), mem, oldp, oldp + chunks[oldp].size + 4)
    {
      ghost var h := View();
      ghost var k := BinFacts(h, next);
      ChunkFacts(h, oldp);
      UnlinkRoom(h, mem, next, k);
      Unlink(next);
      g := PendingNext(h, oldp, next, k, mem);
    }

    /** The block takes in the free chunk before it. */
    method TakePrev(oldp: int, prev: int, ghost h: Heap, ghost g0: Heap) returns (ghost g: Heap)
      requires StandsFor(h, g0, oldp, oldp) && Pending(mem, g0, oldp) && Owns(g0)
      requires prev in g0.chunks && g0.chunks[prev].status.Free? && prev + g0.chunks[prev].size == oldp
      modifies this`mem
      ensures Pending(mem, g, prev) && StandsFor(h, g, oldp, prev) && Owns(g) &&
              g.chunks[prev].size == oldp - prev + g0.chunks[oldp].size
      ensures SamePayload(old(mem), mem, oldp, oldp + g0.chunks[oldp].size + 4)
      ensures Head(mem, oldp + g0.chunks[oldp].size) == Head(old(mem), oldp + g0.chunks[oldp].size)
    {
      ghost var k := BinFacts(g0, prev);
      ChunkFacts(g0, prev);
      ChunkFacts(g0, oldp);
      ghost var m := mem;
      assert Bk(mem, prev) == Bk(g0.mem, prev) && Fd(mem, prev) == Fd(g0.mem, prev);
      UnlinkRoom(g0, mem, prev, k);
      Unlink(prev);
      g := PendingBack(g0, oldp, prev, k, m, mem);
      StandsForTwice(h, g0, g, oldp, oldp, prev);
    }

    /** The contents of the block at oldp move down to the block at newp that contains it. */
    method MoveDown(oldp: int, newp: int, oldsize: int, ghost h: Heap, ghost g: Heap)
      requires Pending(mem, g, newp) && Owns(g) && newp < oldp && oldp % 8 == 0 &&
               oldp + oldsize <= newp + g.chunks[newp].size
      requires SamePayload(h.mem, mem, oldp, oldp + oldsize + 4) && oldsize % 8 == 0 && MINSIZE <= oldsize
      modifies this`mem
      ensures Pending(mem, g, newp) && Copied(h.mem, mem, oldp + 8, newp + 8, oldsize - 4)
      ensures forall a {:trigger W(mem, a)} ::
                a < newp + 8 || newp + g.chunks[newp].size <= a ==> W(mem, a) == W(old(mem), a)
    {
      ChunkFacts(g, newp);
      ChunkFacts(g, newp + g.chunks[newp].size);
      ghost var n := mem;
      WordAligned(newp);
      WordAligned(oldp);
      WordAligned(oldsize);
      CopyWords(newp + 8, oldp + 8, oldsize - 4);
      CopiedFrom(h.mem, n, mem, oldp, newp, oldsize - 4);
    }

    /** The block moves back into the free chunk before it (lines 2640-2644, 2656-2660, 2668-2672). */
    method MoveBack(oldp: int, prev: int, oldsize: int, ghost h: Heap, ghost g0: Heap) returns (ghost g: Heap)
      requires StandsFor(h, g0, oldp, oldp) && Pending(mem, g0, oldp) && Owns(g0) &&
               oldsize == h.chunks[oldp].size <= g0.chunks[oldp].size
      requires prev in g0.chunks && g0.chunks[prev].status.Free? && prev + g0.chunks[prev].size == oldp
      requires SamePayload(h.mem, mem, oldp, oldp + oldsize + 4) && oldsize % 8 == 0 && MINSIZE <= oldsize
      modifies this`mem
      ensures Pending(mem, g, prev) && StandsFor(h, g, oldp, prev) && Owns(g) &&
              g.chunks[prev].size == oldp - prev + g0.chunks[oldp].size
      ensures Copied(h.mem, mem, oldp + 8, prev + 8, oldsize - 4) && prev % 8 == 0 && prev < oldp
      ensures Head(mem, oldp + g0.chunks[oldp].size) == Head(old(mem), oldp + g0.chunks[oldp].size)
    {
      ChunkFacts(g0, prev);
      ChunkFacts(g0, oldp);
      g := TakePrev(oldp, prev, h, g0);
      MoveDown(oldp, prev, oldsize, h, g);
    }

    /** The block moves back and takes part of `top` (lines 2638-2648). */
    method MoveBackIntoTop(oldp: int, prev: int, oldsize: int, newsize: int, nb: int)
      requires Valid() && Live(View(), oldp) && oldsize == chunks[oldp].size && oldp + oldsize == top
      requires prev in chunks && chunks[prev].status.Free? && prev + chunks[prev].size == oldp
      requires newsize == brk - prev && nb % 8 == 0 && oldsize < nb && newsize >= nb + MINSIZE
      modifies this`mem, this`chunks, this`top, this`bins
      ensures Valid() && Reallocated(old(View()), View(), oldp, prev, nb)
    {
      ghost var h := View();
      TopFacts();
      PendingSelf(h, oldp);
      ChunkFacts(h, oldp);
      ghost var g := MoveBack(oldp, prev, oldsize, h, h);
      CarveFromTop(prev, newsize, nb, h, g, oldp);
    }

    /** The pending block at newp keeps nb bytes, the rest joins `top` (lines 2645-2647). */
    method CarveFromTop(newp: int, newsize: int, nb: int, ghost h: Heap, ghost g: Heap, ghost oldp: int)
      requires Pending(mem, g, newp) && StandsFor(h, g, oldp, newp) && Owns(g) && newp != oldp
      requires newp + g.chunks[newp].size == top && newsize == brk - newp && Head(mem, top) == g.chunks[top].size + 1
      requires nb % 8 == 0 && MINSIZE <= h.chunks[oldp].size < nb && newsize >= nb + MINSIZE
      requires Copied(h.mem, mem, oldp + 8, newp + 8, h.chunks[oldp].size - 4)
      modifies this`mem, this`chunks, this`top, this`bins
      ensures Valid() && Reallocated(h, View(), oldp, newp, nb)
    {
      ghost var m := mem;
      ChunkFacts(g, newp);
      ChunkRoom(g, mem, newp);
      SumAligned(newp, nb);
      RoomAt(g, mem, newp + nb);
      RoomAt(g, mem, AV);
      Put(TOP, newp + nb);
      Put(newp + nb + 4, newsize - nb + 1);
      Put(newp + 4, Head(mem, newp) % 2 + nb);
      ghost var f := ShiftPending(m, g, newp, nb, mem);
      top, chunks, bins := f.top, f.chunks, f.bins;
      assert View() == f;
      MovedIntoTop(h, g, f, m, oldp, newp, nb);
    }

    /** The block cannot grow in place: allocate, copy and free, unless the new block happens to
        follow the old one (lines 2677-2697). */
    method GrowElsewhere(oldp: int, oldsize: int, bytes: int, nb: int) returns (newp: int)
      requires Valid() && Live(View(), oldp) && oldsize == chunks[oldp].size && 0 <= bytes < TWO31 &&
               nb == Request2Size(bytes) && oldsize < nb
      modifies this
      ensures Valid() && newp >= 0
      ensures newp == 0 ==> Kept(old(View()), View(), {}) && SameLive(old(View()), View())
      ensures newp != 0 ==> Reallocated(old(View()), View(), oldp, newp, nb) && newp % 8 == 0
      ensures newp == 0 <==> NoRoom(old(View()), nb)
    {
      ghost var h := View();
      ChunkFacts(h, oldp);
      var newmem := Malloc(bytes);
      if newmem == 0 {
        return 0;
      }
      ghost var h1 := View();
      newp := newmem - 8;
      assert KeptBlock(h, h1, oldp);
      ChunkFacts(h1, oldp);
      ChunkFacts(h1, newp);
      ChunkSizeIs(h1, oldp);
      ChunkSizeIs(h1, newp);
      Request2SizeFits(bytes);
      if newp == oldp + (Head(mem, oldp) - Head(mem, oldp) % 2) {
        var newsize := oldsize + ChunkSize(mem, newp);
        ghost var g := PendingPair(h, h1, oldp, newp, nb);
        newp := oldp;
        SplitOff(oldp, newsize, nb, g);
        PairReallocated(h, g, View(), h1.mem, oldp, nb);
      } else {
        CopyPayload(oldp, newp, oldsize, h1);
        ghost var h2 := View();
        Free(oldp + 8);
        CopiedAway(h, h1, h2, View(), oldp, newp, nb);
      }
    }

    /** Copies the payload of one block to another. */
    method CopyPayload(oldp: int, newp: int, oldsize: int, ghost h: Heap)
      requires Valid() && h == View() && Live(h, oldp) && Live(h, newp) && oldp != newp &&
               oldsize == chunks[oldp].size < chunks[newp].size
      modifies this`mem
      ensures Valid() && Kept(h, View(), {newp}) && Copied(h.mem, mem, oldp + 8, newp + 8, oldsize - 4)
    {
      ChunkFacts(h, oldp);
      ChunkFacts(h, newp);
      ChunkFacts(h, newp + chunks[newp].size);
      ChunkFacts(h, oldp + oldsize);
      Apartness(h, oldp, newp);
      WordAligned(newp);
      WordAligned(oldp);
      WordAligned(oldsize);
      CopyWords(newp + 8, oldp + 8, oldsize - 4);
      assert Scribbled(h, newp, mem) by {
        forall a ensures W(mem, a) == W(h.mem, a) || Idle(h, newp, a) { }
      }
      ScribbleOK(h, newp, mem);
      assert View() == h.(mem := mem);
    }

    /** Tries to extend the block forward (lines 2592-2622). A result of 0 means that there is not
        enough room; `next` is then the chunk after the block if it is free or `top`, else 0. */
    method GrowForward(oldp: int, oldsize: int, nb: int) returns (newp: int, next: int, nextsize: int)
      requires Valid() && Live(View(), oldp) && oldsize == chunks[oldp].size && nb % 8 == 0 && oldsize < nb < TWO31 &&
               TopTestRight(oldp, nb)
      modifies this
      ensures Valid()
      ensures newp == 0 ==>
                View() == old(View()) && (next != 0 ==> Extendable(oldp, next, nextsize)) &&
                (next == 0 ==> nextsize == 0)
      ensures newp == 0 && next == 0 ==> Live(View(), oldp + oldsize)
      ensures newp != 0 ==> Reallocated(old(View()), View(), oldp, newp, nb) && newp == oldp
      ensures newp == 0 <==> !RoomFrom(old(View()), oldp, oldp + oldsize, nb)
    {
      ghost var h := View();
      ChunkFacts(h, oldp);
      TopFacts();
      newp, next, nextsize := 0, oldp + oldsize, 0;
      ChunkFacts(h, next);
      ChunkSizeIs(h, next);
      if next == W(mem, TOP) {
        nextsize := ChunkSize(mem, next);
        TopTestWraps(nextsize + oldsize, nb);
        if AtLeast(nextsize + oldsize, nb + MINSIZE) {
          GrowIntoTop(oldp, oldsize, nextsize, nb);
          newp := oldp;
        }
      } else if !PrevInUse(mem, next + ChunkSize(mem, next)) {
        nextsize := ChunkSize(mem, next);
        AtLeastSmall(nextsize + oldsize, nb);
        if AtLeast(nextsize + oldsize, nb) {
          newp := GrowIntoNext(oldp, oldsize, next, nextsize, nb);
        }
      } else {
        next := 0;
      }
    }

    /** The test for room in `top`, if it comes to that, does not run into the sign bit (TopTestWraps). */
    ghost predicate TopTestRight(oldp: int, nb: int)
      reads this
    {
      oldp in chunks && oldp + chunks[oldp].size == top ==> nb + MINSIZE < TWO31
    }

    /** The chunk after the block is `top` or free. */
    ghost predicate Extendable(oldp: int, next: int, nextsize: int)
      reads this
    {
      && oldp in chunks && next == oldp + chunks[oldp].size && next in chunks && nextsize == chunks[next].size
      && (next == top || chunks[next].status.Free?)
    }

    /** The block grows, in place if it can (lines 2590-2697). */
    method Grow(oldp: int, oldsize: int, bytes: int, nb: int) returns (newp: int)
      requires Valid() && Live(View(), oldp) && oldsize == chunks[oldp].size && 0 <= bytes < TWO31 &&
               nb == Request2Size(bytes) && oldsize < nb
      requires TopTestRight(oldp, nb)
      modifies this
      ensures Valid() && newp >= 0
      ensures newp == 0 ==> Kept(old(View()), View(), {}) && SameLive(old(View()), View())
      ensures newp != 0 ==> Reallocated(old(View()), View(), oldp, newp, nb) && newp % 8 == 0
      ensures newp == 0 <==> !InPlace(old(View()), oldp, nb) && NoRoom(old(View()), nb)
      ensures Settled(old(View()), oldp, newp, nb)
    {
      ghost var h := View();
      Request2SizeFits(bytes);
      ChunkFacts(View(), oldp);
      var next, nextsize;
      newp, next, nextsize := GrowForward(oldp, oldsize, nb);
      if newp != 0 {
        return;
      }
      if !PrevInUse(mem, oldp) {
        newp := GrowBackward(oldp, oldsize, next, nextsize, nb);
        if newp != 0 {
          forall q | RoomBefore(h, oldp, q, nb) ensures newp == q { OnlyBefore(h, oldp, q, nb); }
          return;
        }
      } else {
        forall q ensures !RoomBefore(h, oldp, q, nb) { if RoomBefore(h, oldp, q, nb) { OnlyBefore(h, oldp, q, nb); } }
      }
      newp := GrowElsewhere(oldp, oldsize, bytes, nb);
    }

    /** The block takes in the free chunk after it and gives back what is too much. */
    method GrowIntoNext(oldp: int, oldsize: int, next: int, nextsize: int, nb: int) returns (newp: int)
      requires Valid() && Live(View(), oldp) && oldsize == chunks[oldp].size && next == oldp + oldsize &&
               next in chunks && chunks[next].status.Free?
      requires nextsize == chunks[next].size && nb % 8 == 0 && MINSIZE <= oldsize < nb <= oldsize + nextsize
      modifies this
      ensures Valid() && Reallocated(old(View()), View(), oldp, newp, nb) && newp == oldp
    {
      ghost var h := View();
      ghost var g := TakeNext(oldp, next);
      ghost var m := mem;
      SplitOff(oldp, oldsize + nextsize, nb, g);
      PairReallocated(h, g, View(), m, oldp, nb);
      newp := oldp;
    }

    /** Tries to shift the block back, alone or together with what follows it (lines 2626-2675).
        A result of 0 means that there is not enough room. */
    method GrowBackward(oldp: int, oldsize: int, next: int, nextsize: int, nb: int) returns (newp: int)
      requires Valid() && Live(View(), oldp) && oldsize == chunks[oldp].size && !PrevInUse(mem, oldp) && nb % 8 == 0 &&
               oldsize < nb < TWO31 && TopTestRight(oldp, nb)
      requires if next != 0 then Extendable(oldp, next, nextsize) else Live(View(), oldp + oldsize)
      modifies this
      ensures Valid() && newp >= 0
      ensures newp == 0 ==> View() == old(View())
      ensures newp != 0 ==> Reallocated(old(View()), View(), oldp, newp, nb) && newp % 8 == 0
      ensures newp == 0 <==> forall q :: !RoomBefore(old(View()), oldp, q, nb)
      ensures newp != 0 ==> newp == oldp - W(old(mem), oldp)
    {
      ghost var h := View();
      PrevFacts(h, oldp);
      ChunkFacts(h, oldp);
      var prev := oldp - W(mem, oldp);
      ChunkFacts(h, prev);
      ChunkSizeIs(h, prev);
      var prevsize := ChunkSize(mem, prev);
      ChunkFacts(h, oldp + oldsize);
      if next != 0 {
        newp := GrowBothWays(oldp, oldsize, prev, prevsize, next, nextsize, nb);
        if newp != 0 {
          assert RoomBefore(h, oldp, prev, nb);
          return;
        }
      }
      AtLeastSmall(prevsize + oldsize, nb);
      if AtLeast(prevsize + oldsize, nb) {
        assert RoomBefore(h, oldp, prev, nb);
        PendingSelf(h, oldp);
        MoveBackAndSplit(oldp, prev, oldsize, prevsize + oldsize, nb, h, h);
        return prev;
      }
      forall q ensures !RoomBefore(h, oldp, q, nb) { if RoomBefore(h, oldp, q, nb) { OnlyBefore(h, oldp, q, nb); } }
      newp := 0;
    }

    /** Backward and forward at once (lines 2633-2663). */
    method GrowBothWays(oldp: int, oldsize: int, prev: int, prevsize: int, next: int, nextsize: int, nb: int)
        returns (newp: int)
      requires Valid() && Live(View(), oldp) && oldsize == chunks[oldp].size && nb % 8 == 0 && oldsize < nb < TWO31 &&
               TopTestRight(oldp, nb)
      requires prev in chunks && chunks[prev].status.Free? && prevsize == chunks[prev].size && prev + prevsize == oldp
      requires Extendable(oldp, next, nextsize)
      modifies this
      ensures Valid() && newp >= 0
      ensures newp == 0 ==> View() == old(View())
      ensures newp != 0 ==> Reallocated(old(View()), View(), oldp, newp, nb) && newp % 8 == 0
      ensures newp == 0 <==> !RoomFrom(old(View()), prev, next, nb)
      ensures newp != 0 ==> newp == prev
    {
      ghost var h := View();
      ChunkFacts(h, oldp);
      ChunkFacts(h, prev);
      ChunkFacts(h, next);
      TopFacts();
      if next == W(mem, TOP) {
        TopTestWraps(nextsize + prevsize + oldsize, nb);
        if AtLeast(nextsize + prevsize + oldsize, nb + MINSIZE) {
          MoveBackIntoTop(oldp, prev, oldsize, nextsize + prevsize + oldsize, nb);
          return prev;
        }
      } else {
        AtLeastSmall(nextsize + prevsize + oldsize, nb);
        if AtLeast(nextsize + prevsize + oldsize, nb) {
          ghost var g0 := TakeNext(oldp, next);
          MoveBackAndSplit(oldp, prev, oldsize, nextsize + prevsize + oldsize, nb, h, g0);
          return prev;
        }
      }
      newp := 0;
    }

    /** Moves the block back and gives back what is too much. */
    method MoveBackAndSplit(oldp: int, prev: int, oldsize: int, newsize: int, nb: int, ghost h: Heap, ghost g0: Heap)
      requires HeapOK(h) && StandsFor(h, g0, oldp, oldp) && Pending(mem, g0, oldp) && Owns(g0) &&
               oldsize == h.chunks[oldp].size <= g0.chunks[oldp].size
      requires prev in g0.chunks && g0.chunks[prev].status.Free? && prev + g0.chunks[prev].size == oldp
      requires SamePayload(h.mem, mem, oldp, oldp + oldsize + 4) && newsize == oldp - prev + g0.chunks[oldp].size
      requires nb % 8 == 0 && oldsize < nb <= newsize
      modifies this
      ensures Valid() && Reallocated(h, View(), oldp, prev, nb)
    {
      ChunkFacts(h, oldp);
      ghost var g := MoveBack(oldp, prev, oldsize, h, g0);
      ghost var m := mem;
      SplitOff(prev, newsize, nb, g);
      ReallocatedBy(h, g, View(), m, oldp, prev, nb);
    }

    /** Resizes a block (lines 2526-2720). The contents survive as far as both sizes reach; when 0 is
        returned the old block is untouched. */
    method Realloc(oldmem: int, bytes: int) returns (r: int)
      requires Valid() && 0 <= bytes < TWO32 && (oldmem != 0 ==> Live(View(), oldmem - 8))
      requires oldmem == 0 || bytes >= TWO31 || TopTestRight(oldmem - 8, Request2Size(bytes))
      modifies this
      ensures Valid()
      ensures r == 0 ==> Kept(old(View()), View(), {}) && SameLive(old(View()), View())
      ensures r != 0 ==> r % 8 == 0 && bytes < TWO31
      ensures r != 0 && oldmem == 0 ==>
                Allocated(old(View()), View(), r - 8, Request2Size(bytes)) &&
                old(WellChosen(View(), r - 8, Request2Size(bytes)))
      ensures r != 0 && oldmem != 0 ==> Reallocated(old(View()), View(), oldmem - 8, r - 8, Request2Size(bytes))
      ensures r == 0 <==>
                bytes >= TWO31 ||
                (NoRoom(old(View()), Request2Size(bytes)) &&
                 !(oldmem != 0 && InPlace(old(View()), oldmem - 8, Request2Size(bytes))))
      ensures oldmem != 0 && bytes < TWO31 ==> Settled(old(View()), oldmem - 8, r - 8, Request2Size(bytes))
    {
      if bytes >= TWO31 {
        Unchanged();
        return 0;
      }
      if oldmem == 0 {
        r := Malloc(bytes);
        return;
      }
      var newp := Resize(oldmem - 8, bytes);
      r := if newp == 0 then 0 else newp + 8;
    }

    /** The block is resized (lines 2566-2718). */
    method Resize(oldp: int, bytes: int) returns (newp: int)
      requires Valid() && 0 <= bytes < TWO31 && Live(View(), oldp) && TopTestRight(oldp, Request2Size(bytes))
      modifies this
      ensures Valid() && newp >= 0
      ensures newp == 0 ==> Kept(old(View()), View(), {}) && SameLive(old(View()), View())
      ensures newp != 0 ==> Reallocated(old(View()), View(), oldp, newp, Request2Size(bytes)) && newp % 8 == 0
      ensures var nb := Request2Size(bytes);
        newp == 0 <==> !InPlace(old(View()), oldp, nb) && NoRoom(old(View()), nb)
      ensures Settled(old(View()), oldp, newp, Request2Size(bytes))
    {
      ChunkFacts(View(), oldp);
      ChunkSizeIs(View(), oldp);
      var oldsize := ChunkSize(mem, oldp);
      Request2SizeFits(bytes);
      var nb := Request2Size(bytes);
      if oldsize < nb {
        newp := Grow(oldp, oldsize, bytes, nb);
        return;
      }
      Shrink(oldp, oldsize, nb);
      newp := oldp;
    }

    /** The block is large enough already. */
    method Shrink(oldp: int, oldsize: int, nb: int)
      requires Valid() && Live(View(), oldp) && oldsize == chunks[oldp].size && nb % 8 == 0 && MINSIZE <= nb <= oldsize
      modifies this
      ensures Valid() && Reallocated(old(View()), View(), oldp, oldp, nb)
    {
      ghost var h := View();
      ChunkFacts(h, oldp);
      PendingSelf(h, oldp);
      SplitOff(oldp, oldsize, nb, h);
      Shrunk(h, View(), oldp, nb);
    }

    lemma Unchanged()
      requires Valid()
      ensures Kept(View(), View(), {}) && SameLive(View(), View())
    {
      forall q | Live(View(), q) ensures KeptBlock(View(), View(), q) { }
    }

    lemma Shrunk(h: Heap, f: Heap, p: int, nb: int)
      requires Live(h, p) && Trimmed(h, f, p, nb) && SamePayload(h.mem, f.mem, p, p + nb + 4) && nb <= h.chunks[p].size
      requires StandsFor(h, h, p, p)
      ensures Reallocated(h, f, p, p, nb)
    {
      SameIsCopied(h.mem, h.mem, p, nb - 4);
      ReallocatedBy(h, h, f, h.mem, p, p, nb);
    }

    // ---- memalign -----------------------------------------------------------------------------------

    /** Gives back the first leadsize bytes of the new block p (lines 2800-2819). */
    method FreeLeader(p: int, leadsize: int, ghost h: Heap) returns (newp: int)
      requires Valid() && AddedBlock(h, View(), p) && leadsize % 8 == 0 && MINSIZE <= leadsize &&
               leadsize + MINSIZE <= chunks[p].size
      modifies this
      ensures Valid() && newp == p + leadsize && AddedBlock(h, View(), newp) &&
              chunks[newp].size == old(chunks)[p].size - leadsize
    {
      ghost var g := View();
      ChunkFacts(g, p);
      ChunkSizeIs(g, p);
      ChunkRoom(g, mem, p);
      ghost var e := p + chunks[p].size;
      ChunkRoom(g, mem, e);
      ChunkFacts(g, e);
      newp := p + leadsize;
      SumAligned(p, leadsize);
      RoomAt(g, mem, newp);
      PendingSelf(g, p);
      var newsize := ChunkSize(mem, p) - leadsize;
      Put(newp + 4, newsize + 1);
      SetInUse(newp + newsize);
      Put(p + 4, Head(mem, p) % 2 + leadsize);
      ghost var f := CutBlock(g.mem, g, p, leadsize, mem);
      chunks, bins := f.chunks, f.bins;
      assert View() == f;
      Free(p + 8);
      LeaderFreed(h, g, f, View(), p, leadsize);
    }

    /** Gives back what the new block p has beyond nb bytes (lines 2824-2834). */
    method FreeTail(p: int, nb: int, ghost h: Heap)
      requires Valid() && AddedBlock(h, View(), p) && nb % 8 == 0 && MINSIZE <= nb <= chunks[p].size
      modifies this
      ensures Valid() && Placed(h, View(), p, nb)
    {
      ghost var g := View();
      ChunkFacts(g, p);
      ChunkSizeIs(g, p);
      var remainderSize := ChunkSize(mem, p) - nb;
      if remainderSize >= MINSIZE {
        ghost var f := CutTail(p, nb, remainderSize);
        ChunkFacts(f, p + nb);
        Free(p + nb + 8);
        CutThenFreed(g, f, View(), p, nb);
        assert KeptBlock(f, View(), p);
      } else {
        Unchanged();
      }
      TailFreed(h, g, View(), p, nb);
    }

    method CutTail(p: int, nb: int, remainderSize: int) returns (ghost f: Heap)
      requires Valid() && Live(View(), p) && nb % 8 == 0 && MINSIZE <= nb &&
               remainderSize == chunks[p].size - nb >= MINSIZE
      modifies this`mem, this`chunks, this`bins
      ensures Valid() && f == View() && Kept(old(View()), f, {p}) && Live(f, p) && f.chunks[p].size == nb
      ensures Live(f, p + nb) && !old(Live(View(), p + nb))
      ensures forall q {:trigger Live(f, q)} :: Live(f, q) <==> old(Live(View(), q)) || q == p + nb
    {
      ghost var g := View();
      ChunkFacts(g, p);
      ChunkFacts(g, p + chunks[p].size);
      ChunkRoom(g, mem, p);
      SumAligned(p, nb);
      RoomAt(g, mem, p + nb);
      PendingSelf(g, p);
      Put(p + nb + 4, remainderSize + 1);
      Put(p + 4, Head(mem, p) % 2 + nb);
      f := CutBlock(g.mem, g, p, nb, mem);
      chunks, bins := f.chunks, f.bins;
      assert View() == f;
    }

    /** Allocates a block at a multiple of a power of two (lines 2745-2839). */
    method Memalign(alignment: int, bytes: int, ghost k: nat) returns (r: int)
      requires Valid() && 0 <= bytes < TWO32 && k < 32 && alignment == Pow2(k)
      requires alignment <= 8 || bytes >= TWO31 || AlignedRequestFits(alignment, Request2Size(bytes))
      modifies this
      ensures Valid()
      ensures r == 0 ==> Kept(old(View()), View(), {}) && SameLive(old(View()), View())
      ensures r != 0 ==>
                Placed(old(View()), View(), r - 8, Request2Size(bytes)) && DividedBy(r, alignment) && r % 8 == 0 &&
                bytes < TWO31
      ensures r == 0 <==> AlignedFails(old(View()), alignment, bytes)
      ensures r != 0 ==> exists p :: ServedBy(old(View()), p, alignment, bytes) && AtSpot(p + 8, alignment, r)
    {
      ghost var h := View();
      if bytes >= TWO31 {
        Unchanged();
        return 0;
      }
      SmallPowers(k);
      if alignment <= 8 {
        r := Malloc(bytes);
        if r != 0 {
          SmallDivides(r, alignment);
          assert ServedBy(h, r - 8, alignment, bytes) && AtSpot(r - 8 + 8, alignment, r);
        }
        return;
      }
      Request2SizeFits(bytes);
      var nb := Request2Size(bytes);
      AlignedRequestRoom(alignment, nb);
      var m := Malloc(AlignedRequest(alignment, nb));
      if m == 0 {
        return 0;
      }
      AddedBy(h, View(), m - 8, Request2Size(AlignedRequest(alignment, nb)));
      assert ServedBy(h, m - 8, alignment, bytes);
      r := AlignInside(m, alignment, nb, k, h);
      assert AtSpot(m - 8 + 8, alignment, r);
    }

    lemma AddedBy(h: Heap, g: Heap, p: int, nb: int)
      requires Allocated(h, g, p, nb)
      ensures AddedBlock(h, g, p)
    {
    }

    /** Finds an aligned spot inside the new block and frees what lies around it (lines 2777-2837). */
    method AlignInside(m: int, alignment: int, nb: int, ghost k: nat, ghost h: Heap) returns (r: int)
      requires Valid() && AddedBlock(h, View(), m - 8) && 4 <= k < 32 && alignment == Pow2(k)
      requires nb % 8 == 0 && MINSIZE <= nb && nb + alignment + MINSIZE <= chunks[m - 8].size
      modifies this
      ensures Valid() && r > 0 && Placed(h, View(), r - 8, nb) && DividedBy(r, alignment) && r % 8 == 0
      ensures AtSpot(m, alignment, r)
    {
      SmallPowers(k);
      var p := m - 8;
      if !DividedBy(m, alignment) {
        p := SkipLead(m, alignment, nb, k, h);
      }
      r := CutBehind(p, nb, h);
    }

    method SkipLead(m: int, alignment: int, nb: int, ghost k: nat, ghost h: Heap) returns (p: int)
      requires Valid() && AddedBlock(h, View(), m - 8) && 4 <= k < 32 && alignment == Pow2(k) &&
               !DividedBy(m, alignment)
      requires MINSIZE <= nb && nb + alignment + MINSIZE <= chunks[m - 8].size
      modifies this
      ensures Valid() && AddedBlock(h, View(), p) && DividedBy(p + 8, alignment) && nb <= chunks[p].size
      ensures m + MINSIZE <= p + 8 < m + MINSIZE + alignment
    {
      LeadFits(m, alignment, nb);
      var leadsize := LeadSize(m, alignment, k);
      p := FreeLeader(m - 8, leadsize, h);
      assert p + 8 == m + leadsize;
    }

    lemma LeadFits(m: int, alignment: int, nb: int)
      requires Valid() && m - 8 in chunks && MINSIZE <= nb && nb + alignment + MINSIZE <= chunks[m - 8].size
      ensures 0 <= m && m % 8 == 0 && m + alignment <= TWO32
    {
      ChunkFacts(View(), m - 8);
      SumAligned(m - 8, 8);
    }

    method CutBehind(p: int, nb: int, ghost h: Heap) returns (r: int)
      requires Valid() && AddedBlock(h, View(), p) && nb % 8 == 0 && MINSIZE <= nb <= chunks[p].size
      modifies this
      ensures Valid() && r == p + 8 > 0 && Placed(h, View(), p, nb) && r % 8 == 0
    {
      FreeTail(p, nb, h);
      ChunkFacts(View(), p);
      r := p + 8;
      SumAligned(p, 8);
    }

    /** `x & -alignment` (lines 2797-2798) */
    method MaskDown(x: int, alignment: int, ghost k: nat) returns (r: int)
      requires 0 <= x < TWO32 && k <= 32 && alignment == Pow2(k)
      ensures r == RoundDown(x, alignment)
    {
      Pow2Of32();
      MaskRounds(x, k, 32);
      r := And(x, TWO32 - alignment);
    }

    /** How much to skip so that an aligned block leaves room for a chunk before it (lines 2797-2801). */
    method LeadSize(m: int, alignment: int, ghost k: nat) returns (leadsize: int)
      requires 3 <= k < 32 && alignment == Pow2(k) && m % 8 == 0 && !DividedBy(m, alignment) && 0 <= m &&
               m + alignment <= TWO32
      ensures MINSIZE <= leadsize < MINSIZE + alignment && DividedBy(m + leadsize, alignment) && leadsize % 8 == 0
    {
      RoundedUp(m, alignment);
      var masked := MaskDown(m + alignment - 1, alignment, k);
      var p, spot := m - 8, masked - 8;
      AlignedSpot(m, k, alignment, spot + 8);
      if spot - p < MINSIZE {
        spot := spot + alignment;
      }
      leadsize := spot - p;
    }

    lemma SmallPowers(k: nat)
      requires k < 32
      ensures k <= 3 ==> Pow2(k) in {1, 2, 4, 8}
      ensures k > 3 ==> 16 <= Pow2(k) <= TWO31
    {
      if k > 3 {
        PowGrows(4, k);
        PowGrows(k, 31);
        Pow2Of31();
      }
    }
  }
}
