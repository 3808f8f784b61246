/**
 Chunks tile the arena, and the boundary tags in memory describe the tiling
 (uboot/common/dlmalloc.c, "Physical chunk operations" and the do_check_* routines).
 */
module HeapTiles {
  import opened HeapLayout

  /** A free chunk knows its bin: 1 is `last_remainder`, 2..127 are the size bins. */
  datatype Status = InUse | Free(bin: int) | Top
  datatype Chunk = Chunk(size: int, status: Status)
  type Chunks = map<int, Chunk>

  ghost function Next(c: Chunks, p: int): int { if p in c then p + c[p].size else p }

  ghost function PrevOf(m: Mem, p: int): int { p - W(m, p) }

  ghost predicate Apart(c: Chunks, p: int, q: int) { Next(c, p) <= q }

  /** Chunks are aligned and at least MINSIZE long; the last one is `top`. */
  ghost predicate Cells(c: Chunks, base: int, brk: int, top: int)
  {
    && AV_END <= base && base in c && top in c && Next(c, top) == brk
    && (forall p {:trigger p in c} {:trigger c[p]} :: p in c ==>
          && base <= p && p % 8 == 0
          && MINSIZE <= c[p].size && c[p].size % 8 == 0 && p + c[p].size <= brk
          && (c[p].status == Top <==> p == top))
  }

  ghost predicate Chain(c: Chunks, top: int)
  {
    forall p {:trigger Next(c, p)} :: p in c && p != top ==> Next(c, p) in c
  }

  ghost predicate Spread(c: Chunks)
  {
    forall p, q {:trigger Apart(c, p, q)} :: p in c && q in c && p < q ==> Apart(c, p, q)
  }

  /** Chunks follow one another without gap or overlap from the base of the arena up to `top`. */
  ghost predicate Geometry(c: Chunks, base: int, brk: int, top: int)
  {
    Cells(c, base, brk, top) && Chain(c, top) && Spread(c)
  }

  ghost predicate Heads(m: Mem, c: Chunks)
  {
    forall p {:trigger p in c} {:trigger c[p]} :: p in c ==>
      && Head(m, p) == c[p].size + (if PrevInUse(m, p) then 1 else 0)
      && (c[p].status != InUse ==> PrevInUse(m, p))
  }

  /** The successor of p says whether p is in use, and carries the footer of a free p. */
  ghost predicate Announced(m: Mem, c: Chunks, p: int)
    requires p in c
  {
    && (c[p].status == InUse <==> PrevInUse(m, Next(c, p)))
    && (c[p].status.Free? ==> W(m, Next(c, p)) == c[p].size)
  }

  ghost predicate Forward(m: Mem, c: Chunks, top: int)
  {
    forall p {:trigger Next(c, p)} :: p in c && p != top ==> Announced(m, c, p)
  }

  ghost predicate FoundFrom(m: Mem, c: Chunks, p: int)
  {
    PrevOf(m, p) in c && c[PrevOf(m, p)].status.Free? && Next(c, PrevOf(m, p)) == p
  }

  ghost predicate Backward(m: Mem, c: Chunks)
  {
    forall p {:trigger PrevOf(m, p)} :: p in c && !PrevInUse(m, p) ==> FoundFrom(m, c, p)
  }

  /** Size words, PREV_INUSE bits and footers agree with the tiling, and no free chunk
      borders another free chunk or `top`. */
  ghost predicate Tagged(m: Mem, c: Chunks, top: int)
  {
    Heads(m, c) && Forward(m, c, top) && Backward(m, c)
  }

  /** Two different chunks do not overlap. */
  lemma Disjoint(c: Chunks, base: int, brk: int, top: int, p: int, q: int)
    requires Geometry(c, base, brk, top) && p in c && q in c && p != q
    ensures p + c[p].size <= q || q + c[q].size <= p
  {
    if p < q { assert Apart(c, p, q); } else { assert Apart(c, q, p); }
  }

  /** The boundary tags of the chunks in c, apart from the words at `except`, are the same. */
  ghost predicate SameTags(m: Mem, n: Mem, c: Chunks, except: int)
  {
    forall p {:trigger p in c} :: p in c && p != except ==> Head(n, p) == Head(m, p) && W(n, p) == W(m, p)
  }

  // ---- taking a free chunk ------------------------------------------------------------

  lemma TakeGeometry(c: Chunks, base: int, brk: int, top: int, x: int, s: Status)
    requires Geometry(c, base, brk, top) && x in c && x != top && s != Top
    ensures Geometry(c[x := Chunk(c[x].size, s)], base, brk, top)
  {
    var d := c[x := Chunk(c[x].size, s)];
    assert forall p :: Next(d, p) == Next(c, p);
    forall p, q | p in d && q in d && p < q ensures Apart(d, p, q) {
      assert Apart(c, p, q);
    }
  }

  /** A free chunk other than `top` is followed by a chunk in use. */
  lemma AfterFree(m: Mem, c: Chunks, base: int, brk: int, top: int, x: int)
    requires Geometry(c, base, brk, top) && Tagged(m, c, top) && x in c && c[x].status.Free?
    ensures x != top && Next(c, x) in c && c[Next(c, x)].status == InUse
    ensures Head(m, Next(c, x)) == c[Next(c, x)].size && W(m, Next(c, x)) == c[x].size
  {
    var nx := Next(c, x);
    assert c[x].status != Top;
    assert nx in c && !PrevInUse(m, nx);
  }

  lemma TakeTags(m: Mem, n: Mem, c: Chunks, base: int, brk: int, top: int, x: int)
    requires Geometry(c, base, brk, top) && Tagged(m, c, top) && x in c && c[x].status.Free?
    requires SameTags(m, n, c, Next(c, x))
    requires Head(n, Next(c, x)) == Head(m, Next(c, x)) + 1
    ensures Tagged(n, c[x := Chunk(c[x].size, InUse)], top)
  {
    AfterFree(m, c, base, brk, top, x);
    var nx := Next(c, x);
    var d := c[x := Chunk(c[x].size, InUse)];
    TagParity(c[nx].size, true);
    TagParity(c[nx].size, false);
    forall p | p in d ensures Next(d, p) == Next(c, p) { }
    forall p | p in d && p != top ensures Announced(n, d, p) {
      if p != x { SuccessorsDiffer(c, base, brk, top, p, x); }
      assert Announced(m, c, p) && Next(c, p) in c;
    }
    forall p | p in d && !PrevInUse(n, p) ensures FoundFrom(n, d, p) {
      assert PrevOf(n, p) == PrevOf(m, p);
    }
  }

  lemma SuccessorsDiffer(c: Chunks, base: int, brk: int, top: int, p: int, x: int)
    requires Geometry(c, base, brk, top) && p in c && x in c && p != x
    ensures Next(c, p) != Next(c, x)
  {
    Disjoint(c, base, brk, top, p, x);
  }

  // ---- giving a chunk back ------------------------------------------------------------

  lemma GiveTags(m: Mem, n: Mem, c: Chunks, base: int, brk: int, top: int, x: int, i: int)
    requires Geometry(c, base, brk, top) && Tagged(m, c, top) && x in c && c[x].status == InUse
    requires PrevInUse(m, x) && Next(c, x) in c && c[Next(c, x)].status == InUse
    requires SameTags(m, n, c, Next(c, x))
    requires Head(n, Next(c, x)) == Head(m, Next(c, x)) - 1 && W(n, Next(c, x)) == c[x].size
    ensures Tagged(n, c[x := Chunk(c[x].size, Free(i))], top)
  {
    var nx := Next(c, x);
    var d := c[x := Chunk(c[x].size, Free(i))];
    forall p | p in d ensures Next(d, p) == Next(c, p) { }
    forall p | p in d && p != top ensures Announced(n, d, p) {
      if p != x { SuccessorsDiffer(c, base, brk, top, p, x); }
      assert Announced(m, c, p) && Next(c, p) in c;
    }
    forall p | p in d && !PrevInUse(n, p) ensures FoundFrom(n, d, p) {
      if p != nx { assert PrevOf(n, p) == PrevOf(m, p); }
    }
  }

  // ---- merging a chunk in use with its successor ---------------------------------------

  ghost function Merged(c: Chunks, p: int): Chunks
    requires p in c && Next(c, p) in c
  {
    (c - {Next(c, p)})[p := Chunk(c[p].size + c[Next(c, p)].size, c[Next(c, p)].status)]
  }

  lemma MergeChain(c: Chunks, base: int, brk: int, top: int, p: int)
    requires Geometry(c, base, brk, top) && p in c && p != top
    ensures Chain(Merged(c, p), if Next(c, p) == top then p else top)
  {
    var q := Next(c, p);
    var d := Merged(c, p);
    forall x | x in d && x != (if q == top then p else top) ensures Next(d, x) in d {
      if x == p {
        assert Next(d, p) == Next(c, q);
      } else {
        assert Next(d, x) == Next(c, x);
        SuccessorsDiffer(c, base, brk, top, x, p);
      }
    }
  }

  lemma MergeSpread(c: Chunks, base: int, brk: int, top: int, p: int)
    requires Geometry(c, base, brk, top) && p in c && p != top
    ensures Spread(Merged(c, p))
  {
    var q := Next(c, p);
    var d := Merged(c, p);
    assert Next(d, p) == Next(c, q);
    forall x, y | x in d && y in d && x < y ensures Apart(d, x, y) {
      assert Apart(c, x, y);
      if x == p { Disjoint(c, base, brk, top, q, y); }
    }
  }

  lemma MergeGeometry(c: Chunks, base: int, brk: int, top: int, p: int)
    requires Geometry(c, base, brk, top) && p in c && p != top
    ensures Geometry(Merged(c, p), base, brk, if Next(c, p) == top then p else top)
  {
    MergeChain(c, base, brk, top, p);
    MergeSpread(c, base, brk, top, p);
    assert Next(c, p) in c && Next(c, p) != base;
    assert Next(Merged(c, p), p) == Next(c, Next(c, p));
    MergeCells(c, base, brk, top, p);
  }

  lemma MergeCells(c: Chunks, base: int, brk: int, top: int, p: int)
    requires Cells(c, base, brk, top) && p in c && p != top && Next(c, p) in c && Next(c, p) != base
    ensures Cells(Merged(c, p), base, brk, if Next(c, p) == top then p else top)
  {
    var q := Next(c, p);
    SumAligned(c[p].size, c[q].size);
    assert Next(Merged(c, p), p) == Next(c, q);
  }

  ghost predicate MergeStep(m: Mem, n: Mem, c: Chunks, top: int, p: int)
  {
    && p in c && c[p].status == InUse
    && Next(c, p) in c && !c[Next(c, p)].status.Free? && c[p].size > 0
    && (c[Next(c, p)].status == Top ==> PrevInUse(m, p))
    && SameTags(m, n, Merged(c, p), p) && W(n, p) == W(m, p)
    && Head(n, p) == c[p].size + c[Next(c, p)].size + (if PrevInUse(m, p) then 1 else 0)
  }

  lemma MergeHeads(m: Mem, n: Mem, c: Chunks, base: int, brk: int, top: int, p: int)
    requires Cells(c, base, brk, top) && Heads(m, c) && MergeStep(m, n, c, top, p)
    ensures Heads(n, Merged(c, p))
    ensures forall x {:trigger x in Merged(c, p)} ::
              x in Merged(c, p) ==> PrevInUse(n, x) == PrevInUse(m, x) && W(n, x) == W(m, x)
  {
    var a, b := c[p].size, c[Next(c, p)].size;
    assert a % 8 == 0 && b % 8 == 0;
    SumAligned(a, b);
    TagParity(a + b, PrevInUse(m, p));
  }

  lemma MergeTags(m: Mem, n: Mem, c: Chunks, base: int, brk: int, top: int, p: int)
    requires Geometry(c, base, brk, top) && Tagged(m, c, top) && MergeStep(m, n, c, top, p)
    ensures Tagged(n, Merged(c, p), if Next(c, p) == top then p else top)
  {
    var q := Next(c, p);
    var d := Merged(c, p);
    var top' := if q == top then p else top;
    MergeHeads(m, n, c, base, brk, top, p);
    MergeChain(c, base, brk, top, p);
    assert Next(d, p) == Next(c, q);
    forall x | x in d && x != top' ensures Announced(n, d, x) {
      assert Next(d, x) in d;
      if x == p { assert Announced(m, c, q); } else { assert Next(d, x) == Next(c, x) && Announced(m, c, x); }
    }
    forall x | x in d && !PrevInUse(n, x) ensures FoundFrom(n, d, x) {
      MergeFound(m, n, c, p, x);
    }
  }

  lemma MergeFound(m: Mem, n: Mem, c: Chunks, p: int, x: int)
    requires Backward(m, c) && p in c && Next(c, p) in c && c[p].size > 0
    requires x in c && W(n, x) == W(m, x) && !PrevInUse(m, x)
    requires !c[p].status.Free? && !c[Next(c, p)].status.Free?
    ensures FoundFrom(n, Merged(c, p), x)
  {
    assert PrevOf(n, x) == PrevOf(m, x);
    assert FoundFrom(m, c, x);
    assert Next(Merged(c, p), PrevOf(m, x)) == Next(c, PrevOf(m, x));
  }

  // ---- splitting a chunk in use, or top ------------------------------------------------

  ghost function Cut(c: Chunks, p: int, nb: int): Chunks
    requires p in c
  {
    c[p := Chunk(nb, InUse)][p + nb := Chunk(c[p].size - nb, c[p].status)]
  }

  lemma CutInside(c: Chunks, base: int, brk: int, top: int, p: int, nb: int)
    requires Geometry(c, base, brk, top) && p in c && 0 < nb < c[p].size
    ensures p + nb !in c
  {
    if p + nb in c { Disjoint(c, base, brk, top, p, p + nb); }
  }

  lemma CutSpread(c: Chunks, base: int, brk: int, top: int, p: int, nb: int)
    requires Geometry(c, base, brk, top) && p in c && 0 < nb < c[p].size
    ensures Spread(Cut(c, p, nb))
  {
    var r := p + nb;
    var d := Cut(c, p, nb);
    CutInside(c, base, brk, top, p, nb);
    assert Next(d, r) == Next(c, p);
    forall x, y | x in d && y in d && x < y ensures Apart(d, x, y) {
      if x == r {
        Disjoint(c, base, brk, top, p, y);
      } else if y == r {
        if x != p { Disjoint(c, base, brk, top, x, p); }
      } else {
        assert Apart(c, x, y);
      }
    }
  }

  lemma CutGeometry(c: Chunks, base: int, brk: int, top: int, p: int, nb: int)
    requires Geometry(c, base, brk, top) && p in c
    requires nb % 8 == 0 && MINSIZE <= nb && nb + MINSIZE <= c[p].size
    ensures Geometry(Cut(c, p, nb), base, brk, if p == top then p + nb else top)
  {
    var r := p + nb;
    var d := Cut(c, p, nb);
    CutInside(c, base, brk, top, p, nb);
    CutSpread(c, base, brk, top, p, nb);
    assert Next(d, r) == Next(c, p);
    forall x | x in d && x != (if p == top then r else top) ensures Next(d, x) in d {
      if x != p && x != r { assert Next(d, x) == Next(c, x); }
    }
    SumAligned(p, nb);
    SumAligned(c[p].size, nb);
  }

  ghost predicate CutStep(m: Mem, n: Mem, c: Chunks, p: int, nb: int)
  {
    && p in c && !c[p].status.Free?
    && nb % 8 == 0 && MINSIZE <= nb && nb + MINSIZE <= c[p].size
    && SameTags(m, n, c, p) && W(n, p) == W(m, p)
    && Head(n, p) == nb + (if PrevInUse(m, p) then 1 else 0)
    && Head(n, p + nb) == c[p].size - nb + 1
  }

  lemma CutHeads(m: Mem, n: Mem, c: Chunks, base: int, brk: int, top: int, p: int, nb: int)
    requires Cells(c, base, brk, top) && Heads(m, c) && CutStep(m, n, c, p, nb) && p + nb !in c
    ensures Heads(n, Cut(c, p, nb))
    ensures forall x {:trigger x in c} :: x in c ==> PrevInUse(n, x) == PrevInUse(m, x) && W(n, x) == W(m, x)
    ensures PrevInUse(n, p + nb)
  {
    assert c[p].size % 8 == 0;
    SumAligned(c[p].size, nb);
    TagParity(c[p].size - nb, true);
    TagParity(nb, PrevInUse(m, p));
  }

  lemma CutTags(m: Mem, n: Mem, c: Chunks, base: int, brk: int, top: int, p: int, nb: int)
    requires Geometry(c, base, brk, top) && Tagged(m, c, top) && CutStep(m, n, c, p, nb)
    ensures Tagged(n, Cut(c, p, nb), if p == top then p + nb else top)
  {
    var r := p + nb;
    var d := Cut(c, p, nb);
    CutInside(c, base, brk, top, p, nb);
    CutHeads(m, n, c, base, brk, top, p, nb);
    assert Next(d, r) == Next(c, p);
    forall x | x in d && x != (if p == top then r else top) ensures Announced(n, d, x) {
      if x == r { assert Announced(m, c, p); } else if x != p { assert Next(d, x) == Next(c, x) && Announced(m, c, x); }
    }
    forall x | x in d && !PrevInUse(n, x) ensures FoundFrom(n, d, x) {
      CutFound(m, n, c, p, nb, x);
    }
  }

  lemma CutFound(m: Mem, n: Mem, c: Chunks, p: int, nb: int, x: int)
    requires Backward(m, c) && p in c && p + nb !in c && !c[p].status.Free?
    requires x in c && W(n, x) == W(m, x) && !PrevInUse(m, x)
    ensures FoundFrom(n, Cut(c, p, nb), x)
  {
    assert PrevOf(n, x) == PrevOf(m, x);
    assert FoundFrom(m, c, x);
    assert Next(Cut(c, p, nb), PrevOf(m, x)) == Next(c, PrevOf(m, x));
  }
}
