/**
 A program that uses the allocator sees independent blocks of memory that keep their contents,
 over every run of malloc, free, realloc, memalign and stores into its blocks.
 */
module HeapClient {
  import opened HeapLayout
  import opened HeapTiles
  import opened HeapModel
  import opened HeapMoves
  import opened HeapOps
  import opened HeapSearch
  import opened HeapResize
  import opened HeapTheorems
  import opened AllocatorModel

  /** What the program does next. Blocks are named by the slot that their address was put into. */
  datatype Op =
    | Allocate(bytes: int)
    | AllocateAligned(power: nat, bytes: int)
    | Release(slot: nat)
    | Resize(slot: nat, bytes: int)
    | Write(slot: nat, index: nat, value: int)

  /** The words of each block; an empty slot has none. */
  type Contents = seq<seq<int>>

  /** The heap, the address of each slot's block, and the words of the blocks */
  datatype World = World(heap: Heap, blocks: seq<int>, contents: Contents)

  /** Sizes are 32-bit words. */
  predicate Typed(op: Op)
  {
    match op
    case Allocate(bytes) => 0 <= bytes < TWO32
    case AllocateAligned(k, bytes) => k < 32 && 0 <= bytes < TWO32
    case Resize(_, bytes) => 0 <= bytes < TWO32
    case _ => true
  }

  /** The arithmetic of realloc and memalign is right: a sum does not run into the sign bit for a block that
      borders `top`, and the sum of memalign fits (TopTestBreaks and UnfitTooSmall say what happens otherwise). */
  ghost predicate Safe(op: Op, w: World)
    requires Typed(op)
  {
    match op
    case AllocateAligned(k, bytes) => Pow2(k) <= 8 || bytes >= TWO31 || AlignedRequestFits(Pow2(k), Request2Size(bytes))
    case Resize(i, bytes) =>
      i < |w.blocks| && w.blocks[i] != 0 && BordersTop(w.heap, w.blocks[i] - 8) ==>
        bytes >= TWO31 || Request2Size(bytes) + MINSIZE < TWO31
    case _ => true
  }

  ghost predicate BordersTop(h: Heap, p: int) { p in h.chunks && p + h.chunks[p].size == h.top }

  predicate RoomFor(c: seq<int>, bytes: int) { bytes <= MAX_REQUEST ==> 4 * |c| >= bytes }

  /** d has room for the bytes and begins like c, as far as both reach. */
  predicate Resized(c: seq<int>, d: seq<int>, bytes: int)
    requires 0 <= bytes < TWO32
  {
    RoomFor(d, bytes) &&
    forall j {:trigger d[j]} {:trigger c[j]} ::
      0 <= j < |c| && 4 * j < Request2Size(bytes) - 4 ==> j < |d| && d[j] == c[j]
  }

  /** A slot is added, and it stays empty exactly if the request fails. */
  ghost predicate NewBlock(s: Contents, t: Contents, bytes: int, fails: bool)
  {
    |t| == |s| + 1 && t[..|s|] == s && (t[|s|] == [] <==> fails) && (!fails ==> RoomFor(t[|s|], bytes))
  }

  /** The size is refused, or neither the block and its neighbours nor any other chunk has room. */
  ghost predicate ResizeFails(w: World, i: nat, bytes: int)
    requires i < |w.blocks| && 0 <= bytes < TWO32
  {
    bytes >= TWO31 ||
    (NoRoom(w.heap, Request2Size(bytes)) &&
     !(w.blocks[i] != 0 && InPlace(w.heap, w.blocks[i] - 8, Request2Size(bytes))))
  }

  /** What an operation does to a store of independent blocks: only the named slot changes, and a request fails
      exactly if the heap has no room for it. */
  ghost predicate OpStep(op: Op, w: World, u: World)
    requires Typed(op)
  {
    var s, t := w.contents, u.contents;
    |s| == |w.blocks| &&
    match op
    case Allocate(bytes) => NewBlock(s, t, bytes, bytes >= TWO31 || NoRoom(w.heap, Request2Size(bytes)))
    case AllocateAligned(k, bytes) => NewBlock(s, t, bytes, AlignedFails(w.heap, Pow2(k), bytes))
    case Release(i) => t == if i < |s| then s[i := []] else s
    case Resize(i, bytes) =>
      if i >= |s| || ResizeFails(w, i, bytes) then t == s
      else |t| == |s| && t == s[i := t[i]] && t[i] != [] && Resized(s[i], t[i], bytes)
    case Write(i, j, v) => t == if i < |s| && j < |s[i]| then s[i := s[i][j := v]] else s
  }

  // ---- the store that a heap and the addresses of its blocks stand for -----------------------------

  ghost predicate WordShown(v: Heap, r: int, c: seq<int>, j: int)
    requires 0 <= j < |c|
  {
    W(v.mem, r + 4 * j) == c[j]
  }

  ghost predicate Shows(v: Heap, r: int, c: seq<int>)
  {
    && Live(v, r - 8) && 4 * |c| == v.chunks[r - 8].size - 4
    && forall j {:trigger WordShown(v, r, c, j)} {:trigger c[j]} :: 0 <= j < |c| ==> WordShown(v, r, c, j)
  }

  ghost predicate SlotShown(v: Heap, blocks: seq<int>, s: Contents, i: int)
    requires 0 <= i < |blocks| == |s|
  {
    if blocks[i] == 0 then s[i] == [] else Shows(v, blocks[i], s[i])
  }

  /** Each slot shows its block, no two slots share one, and every block in use has its slot. */
  ghost predicate Tracks(v: Heap, blocks: seq<int>, s: Contents)
  {
    && |blocks| == |s|
    && (forall i {:trigger SlotShown(v, blocks, s, i)} :: 0 <= i < |blocks| ==> SlotShown(v, blocks, s, i))
    && (forall i, k :: 0 <= i < k < |blocks| && blocks[i] != 0 ==> blocks[i] != blocks[k])
    && (forall p {:trigger Live(v, p)} :: Live(v, p) ==> p + 8 in blocks)
  }

  ghost function Words(m: Mem, r: int, n: nat): (c: seq<int>)
    ensures |c| == n && forall j :: 0 <= j < n ==> c[j] == W(m, r + 4 * j)
  {
    seq(n, j requires 0 <= j < n => W(m, r + 4 * j))
  }

  lemma WordCount(size: int) returns (n: nat)
    requires size % 8 == 0 && size >= MINSIZE
    ensures 4 * n == size - 4
  {
    n := 2 * (size / 8) - 1;
  }

  lemma ShowsWords(v: Heap, r: int) returns (c: seq<int>)
    requires HeapOK(v) && Live(v, r - 8)
    ensures c == Words(v.mem, r, |c|) && Shows(v, r, c)
  {
    ChunkFacts(v, r - 8);
    var n := WordCount(v.chunks[r - 8].size);
    c := Words(v.mem, r, n);
    forall j | 0 <= j < |c| ensures WordShown(v, r, c, j) { }
  }

  lemma ShowsKept(h: Heap, g: Heap, r: int, c: seq<int>)
    requires Shows(h, r, c) && KeptBlock(h, g, r - 8)
    ensures Shows(g, r, c)
  {
    forall j | 0 <= j < |c| ensures WordShown(g, r, c, j) {
      assert WordShown(h, r, c, j);
      assert W(g.mem, r + 4 * j) == W(h.mem, r + 4 * j);
    }
  }

  lemma SlotKept(h: Heap, g: Heap, blocks: seq<int>, s: Contents, i: int, X: set<int>)
    requires Tracks(h, blocks, s) && Kept(h, g, X) && 0 <= i < |blocks| && blocks[i] - 8 !in X
    ensures SlotShown(g, blocks, s, i)
  {
    assert SlotShown(h, blocks, s, i);
    if blocks[i] != 0 {
      assert KeptBlock(h, g, blocks[i] - 8);
      ShowsKept(h, g, blocks[i], s[i]);
    }
  }

  lemma AfterNothing(h: Heap, g: Heap, blocks: seq<int>, s: Contents)
    requires Tracks(h, blocks, s) && Kept(h, g, {}) && SameLive(h, g)
    ensures Tracks(g, blocks, s)
  {
    forall i | 0 <= i < |blocks| ensures SlotShown(g, blocks, s, i) { SlotKept(h, g, blocks, s, i, {}); }
    forall p | Live(g, p) ensures p + 8 in blocks { assert Live(h, p); }
  }

  lemma AfterEmpty(h: Heap, blocks: seq<int>, s: Contents)
    requires Tracks(h, blocks, s)
    ensures Tracks(h, blocks + [0], s + [[]])
  {
    var b, t := blocks + [0], s + [[]];
    forall i | 0 <= i < |b| ensures SlotShown(h, b, t, i) {
      if i < |blocks| { assert SlotShown(h, blocks, s, i); }
    }
    forall p | Live(h, p) ensures p + 8 in b { assert p + 8 in blocks; }
  }

  lemma AfterAllocate(h: Heap, g: Heap, blocks: seq<int>, s: Contents, r: int, c: seq<int>)
    requires HeapOK(g) && Tracks(h, blocks, s) && AddedBlock(h, g, r - 8) && Shows(g, r, c)
    ensures Tracks(g, blocks + [r], s + [c])
  {
    var b, t := blocks + [r], s + [c];
    ChunkFacts(g, r - 8);
    forall i | 0 <= i < |b| ensures SlotShown(g, b, t, i) {
      if i < |blocks| { SlotKept(h, g, blocks, s, i, {}); }
    }
    forall i | 0 <= i < |blocks| && blocks[i] != 0 ensures blocks[i] != r { assert SlotShown(h, blocks, s, i); }
    forall p | Live(g, p) ensures p + 8 in b { assert b[|blocks|] == r && (Live(h, p) || p == r - 8); }
  }

  lemma AfterRelease(h: Heap, g: Heap, blocks: seq<int>, s: Contents, i: nat)
    requires Tracks(h, blocks, s) && i < |blocks| && blocks[i] != 0 && Freed(h, g, blocks[i] - 8)
    ensures Tracks(g, blocks[i := 0], s[i := []])
  {
    var b, t := blocks[i := 0], s[i := []];
    forall k | 0 <= k < |b| ensures SlotShown(g, b, t, k) {
      if k != i { SlotKept(h, g, blocks, s, k, {blocks[i] - 8}); }
    }
    forall p | Live(g, p) ensures p + 8 in b {
      assert Live(h, p);
      var k :| 0 <= k < |blocks| && blocks[k] == p + 8;
      assert b[k] == p + 8;
    }
  }

  lemma AfterResize(h: Heap, g: Heap, blocks: seq<int>, s: Contents, i: nat, r: int, nb: int, c: seq<int>)
    requires HeapOK(g) && Tracks(h, blocks, s) && i < |blocks| && blocks[i] != 0 &&
             Reallocated(h, g, blocks[i] - 8, r - 8, nb) && Shows(g, r, c)
    ensures Tracks(g, blocks[i := r], s[i := c])
  {
    var b, t := blocks[i := r], s[i := c];
    ChunkFacts(g, r - 8);
    forall k | 0 <= k < |b| ensures SlotShown(g, b, t, k) {
      if k != i { SlotKept(h, g, blocks, s, k, {blocks[i] - 8}); }
    }
    forall k | 0 <= k < |blocks| && k != i && blocks[k] != 0 ensures blocks[k] != r {
      assert SlotShown(h, blocks, s, k);
    }
    forall p | Live(g, p) ensures p + 8 in b {
      if p == r - 8 {
        assert b[i] == p + 8;
      } else {
        assert Live(h, p);
        var k :| 0 <= k < |blocks| && blocks[k] == p + 8;
        assert b[k] == p + 8;
      }
    }
  }

  lemma ResizedContents(h: Heap, g: Heap, r0: int, r: int, bytes: int, c: seq<int>, d: seq<int>)
    requires HeapOK(h) && 0 <= bytes < TWO31 && Reallocated(h, g, r0 - 8, r - 8, Request2Size(bytes)) &&
             Shows(h, r0, c) && Shows(g, r, d)
    ensures Resized(c, d, bytes) && d != []
  {
    var nb := Request2Size(bytes);
    Request2SizeFits(bytes);
    forall j | 0 <= j < |c| && 4 * j < nb - 4 ensures j < |d| && d[j] == c[j] {
      assert CopiedAt(h.mem, g.mem, r0, r, 4 * j);
      assert WordShown(h, r0, c, j) && WordShown(g, r, d, j);
    }
  }

  lemma NewContents(g: Heap, r: int, bytes: int, c: seq<int>)
    requires 0 <= bytes < TWO31 && Shows(g, r, c) && Request2Size(bytes) <= g.chunks[r - 8].size
    ensures RoomFor(c, bytes) && Resized([], c, bytes) && c != []
  {
    Request2SizeFits(bytes);
  }

  class Client {
    const heap: Allocator
    /** Address of each slot's block, 0 when the slot is empty. */
    var blocks: seq<int>
    /** The store as the program understands it. */
    ghost var contents: Contents

    ghost predicate Valid()
      reads this, heap
    {
      heap.Valid() && Tracks(heap.View(), blocks, contents)
    }

    ghost function Now(): World
      reads this, heap
    {
      World(heap.View(), blocks, contents)
    }

    /** A program starts with no blocks. */
    constructor (start: int, size: int, end: int)
      requires AV_END <= start && start % 8 == 0 && MINSIZE <= size && size % 8 == 0 && start + size <= end < TWO32 &&
               end - start < MAX_ARENA
      ensures Valid() && fresh(heap) && contents == []
    {
      heap := new Allocator(start, size, end);
      blocks, contents := [], [];
    }

    method Keep(r: int, bytes: int, ghost h: Heap)
      requires heap.Valid() && Tracks(h, blocks, contents) && 0 <= bytes < TWO31
      requires AddedBlock(h, heap.View(), r - 8) && Request2Size(bytes) <= heap.chunks[r - 8].size
      modifies this
      ensures Valid() && |contents| == |old(contents)| + 1 && contents[..|old(contents)|] == old(contents)
      ensures contents[|old(contents)|] != [] && RoomFor(contents[|old(contents)|], bytes)
    {
      ghost var c := ShowsWords(heap.View(), r);
      AfterAllocate(h, heap.View(), blocks, contents, r, c);
      NewContents(heap.View(), r, bytes, c);
      blocks, contents := blocks + [r], contents + [c];
    }

    method Empty(ghost h: Heap)
      requires heap.Valid() && Tracks(h, blocks, contents) && Kept(h, heap.View(), {}) && SameLive(h, heap.View())
      modifies this
      ensures Valid() && contents == old(contents) + [[]]
    {
      AfterNothing(h, heap.View(), blocks, contents);
      AfterEmpty(heap.View(), blocks, contents);
      blocks, contents := blocks + [0], contents + [[]];
    }

    method DoAllocate(bytes: int)
      requires Valid() && Typed(Allocate(bytes))
      modifies this, heap
      ensures Valid() && OpStep(Allocate(bytes), old(Now()), Now())
    {
      ghost var h := heap.View();
      var r := heap.Malloc(bytes);
      if r == 0 {
        Empty(h);
      } else {
        Keep(r, bytes, h);
      }
    }

    method DoAllocateAligned(k: nat, bytes: int)
      requires Valid() && Typed(AllocateAligned(k, bytes)) && Safe(AllocateAligned(k, bytes), Now())
      modifies this, heap
      ensures Valid() && OpStep(AllocateAligned(k, bytes), old(Now()), Now())
    {
      ghost var h := heap.View();
      var r := heap.Memalign(Pow2(k), bytes, k);
      if r == 0 {
        Empty(h);
      } else {
        Keep(r, bytes, h);
      }
    }

    method DoRelease(i: nat)
      requires Valid()
      modifies this, heap
      ensures Valid() && OpStep(Release(i), old(Now()), Now())
    {
      if i < |blocks| {
        ghost var h := heap.View();
        assert SlotShown(h, blocks, contents, i);
        heap.Free(blocks[i]);
        if blocks[i] != 0 {
          AfterRelease(h, heap.View(), blocks, contents, i);
          blocks, contents := blocks[i := 0], contents[i := []];
        } else {
          assert contents[i := []] == contents;
        }
      }
    }

    method DoResize(i: nat, bytes: int)
      requires Valid() && Typed(Resize(i, bytes)) && Safe(Resize(i, bytes), Now())
      modifies this, heap
      ensures Valid() && OpStep(Resize(i, bytes), old(Now()), Now())
    {
      if i >= |blocks| {
        return;
      }
      ghost var h, s := heap.View(), contents;
      assert SlotShown(h, blocks, contents, i);
      var r := heap.Realloc(blocks[i], bytes);
      ghost var g := heap.View();
      if r == 0 {
        AfterNothing(h, g, blocks, contents);
      } else {
        ghost var c := ShowsWords(g, r);
        if blocks[i] == 0 {
          AfterFill(h, g, blocks, contents, i, r, c);
          NewContents(g, r, bytes, c);
        } else {
          AfterResize(h, g, blocks, contents, i, r, Request2Size(bytes), c);
          ResizedContents(h, g, blocks[i], r, bytes, contents[i], c);
        }
        blocks, contents := blocks[i := r], contents[i := c];
      }
    }

    lemma AfterFill(h: Heap, g: Heap, b: seq<int>, s: Contents, i: nat, r: int, c: seq<int>)
      requires HeapOK(g) && Tracks(h, b, s) && i < |b| && b[i] == 0 && AddedBlock(h, g, r - 8) && Shows(g, r, c)
      ensures Tracks(g, b[i := r], s[i := c])
    {
      var b', t := b[i := r], s[i := c];
      AfterAllocate(h, g, b, s, r, c);
      forall k | 0 <= k < |b| ensures SlotShown(g, b', t, k) {
        assert SlotShown(g, b + [r], s + [c], k);
        assert SlotShown(g, b + [r], s + [c], |b|);
      }
      forall k | 0 <= k < |b| && b[k] != 0 ensures b[k] != r { assert (b + [r])[k] != (b + [r])[|b|]; }
      assert r != 0 by { ChunkFacts(g, r - 8); }
      forall p | Live(g, p) ensures p + 8 in b' {
        var k :| 0 <= k < |b| + 1 && (b + [r])[k] == p + 8;
        ChunkFacts(g, p);
        assert if k < |b| then b'[k] == p + 8 else b'[i] == p + 8;
      }
    }

    method DoWrite(i: nat, j: nat, v: int)
      requires Valid()
      modifies this, heap
      ensures Valid() && OpStep(Write(i, j, v), old(Now()), Now())
    {
      if i >= |blocks| {
        return;
      }
      assert SlotShown(heap.View(), blocks, contents, i);
      if blocks[i] != 0 {
        ChunkSizeIs(heap.View(), blocks[i] - 8);
        if 4 * j < ChunkSize(heap.mem, blocks[i] - 8) - 4 {
          StoreWord(i, j, v);
        }
      }
    }

    /** The program stores a word into one of its blocks. */
    method StoreWord(i: nat, j: nat, v: int)
      requires Valid() && i < |blocks| && blocks[i] != 0 && j < |contents[i]|
      modifies this, heap
      ensures Valid() && contents == old(contents)[i := old(contents)[i][j := v]]
    {
      ghost var h := heap.View();
      assert SlotShown(h, blocks, contents, i);
      ChunkFacts(h, blocks[i] - 8);
      ghost var g := PokeStep(h, blocks[i] - 8, blocks[i] + 4 * j, v);
      heap.mem := Store(heap.mem, blocks[i] + 4 * j, v);
      assert heap.View() == g;
      AfterWrite(h, g, blocks, contents, i, j, v);
      contents := contents[i := contents[i][j := v]];
    }

    /** One operation of the program. */
    method Step(op: Op)
      requires Valid() && Typed(op) && Safe(op, Now())
      modifies this, heap
      ensures Valid() && OpStep(op, old(Now()), Now())
    {
      match op
      case Allocate(bytes) => DoAllocate(bytes);
      case AllocateAligned(k, bytes) => DoAllocateAligned(k, bytes);
      case Release(i) => DoRelease(i);
      case Resize(i, bytes) => DoResize(i, bytes);
      case Write(i, j, v) => DoWrite(i, j, v);
    }

    /** Whether the arithmetic of the next operation is right can be seen in memory. */
    method IsSafe(op: Op) returns (ok: bool)
      requires Valid() && Typed(op)
      ensures ok <==> Safe(op, Now())
    {
      ok := true;
      match op
      case AllocateAligned(k, bytes) =>
        ok := Pow2(k) <= 8 || bytes >= TWO31 || AlignedRequestFits(Pow2(k), Request2Size(bytes));
      case Resize(i, bytes) =>
        if i < |blocks| && blocks[i] != 0 {
          assert SlotShown(heap.View(), blocks, contents, i);
          ChunkSizeIs(heap.View(), blocks[i] - 8);
          heap.TopFacts();
          ok := blocks[i] - 8 + ChunkSize(heap.mem, blocks[i] - 8) != W(heap.mem, TOP) || bytes >= TWO31 ||
              Request2Size(bytes) + MINSIZE < TWO31;
        }
      case _ =>
    }

    /** A whole run, up to an operation whose arithmetic goes wrong: the blocks always hold what a store of
        independent blocks would hold, and a request fails only when there is no room. */
    method Run(ops: seq<Op>) returns (n: nat, ghost trace: seq<World>)
      requires Valid() && forall op :: op in ops ==> Typed(op)
      modifies this, heap
      ensures Valid() && n <= |ops| && Traced(ops[..n], trace) && trace[0] == old(Now()) && trace[n] == Now()
      ensures n < |ops| ==> !Safe(ops[n], Now())
    {
      n, trace := 0, [Now()];
      while n < |ops|
        invariant Valid() && n <= |ops| && |trace| == n + 1 && trace[0] == old(Now()) && trace[n] == Now()
        invariant forall k :: 0 <= k < n ==> OpStep(ops[k], trace[k], trace[k + 1])
      {
        var ok := IsSafe(ops[n]);
        if !ok {
          break;
        }
        Step(ops[n]);
        n, trace := n + 1, trace + [Now()];
      }
    }

    /** Reads a word of a block. */
    method Read(i: nat, j: nat) returns (v: int)
      requires Valid() && i < |contents| && j < |contents[i]|
      ensures v == contents[i][j]
    {
      assert SlotShown(heap.View(), blocks, contents, i);
      v := W(heap.mem, blocks[i] + 4 * j);
      assert WordShown(heap.View(), blocks[i], contents[i], j);
    }

    /** Once every slot is empty, the arena is one `top` chunk again. */
    lemma AllReleased()
      requires Valid() && forall i :: 0 <= i < |blocks| ==> blocks[i] == 0
      ensures heap.top == heap.memStart && heap.chunks == map[heap.memStart := Chunk(heap.brk - heap.memStart, Top)]
    {
      forall p ensures !Live(heap.View(), p) {
        if Live(heap.View(), p) { ChunkFacts(heap.View(), p); }
      }
      OnlyTopRemains(heap.View());
    }
  }

  /** Every step of the run is one a store of independent blocks takes. */
  ghost predicate Traced(ops: seq<Op>, trace: seq<World>)
    requires forall op :: op in ops ==> Typed(op)
  {
    |trace| == |ops| + 1 && forall k :: 0 <= k < |ops| ==> OpStep(ops[k], trace[k], trace[k + 1])
  }

  lemma AfterWrite(h: Heap, g: Heap, b: seq<int>, s: Contents, i: nat, j: nat, v: int)
    requires Tracks(h, b, s) && i < |b| && b[i] != 0 && j < |s[i]| && Kept(h, g, {b[i] - 8}) &&
             g == h.(mem := Store(h.mem, b[i] + 4 * j, v))
    ensures Tracks(g, b, s[i := s[i][j := v]])
  {
    var t := s[i := s[i][j := v]];
    forall k | 0 <= k < |b| ensures SlotShown(g, b, t, k) {
      if k != i {
        SlotKept(h, g, b, s, k, {b[i] - 8});
      } else {
        assert SlotShown(h, b, s, i);
        forall n | 0 <= n < |t[i]| ensures WordShown(g, b[i], t[i], n) { assert WordShown(h, b[i], s[i], n); }
      }
    }
    forall p | Live(g, p) ensures p + 8 in b { assert Live(h, p); }
  }

  /** A slot that no operation of a run names keeps its contents to the end. */
  lemma {:induction false} UnnamedKept(ops: seq<Op>, trace: seq<World>, i: nat, n: nat)
    requires (forall op :: op in ops ==> Typed(op)) && Traced(ops, trace) && i < |trace[0].contents| && n <= |ops|
    requires forall k :: 0 <= k < n ==> !Names(ops[k], i)
    ensures i < |trace[n].contents| && trace[n].contents[i] == trace[0].contents[i]
  {
    if n > 0 {
      UnnamedKept(ops, trace, i, n - 1);
      var s, t := trace[n - 1].contents, trace[n].contents;
      assert OpStep(ops[n - 1], trace[n - 1], trace[n]);
      assert t == s || i < |s| <= |t|;
      if |t| == |s| + 1 { assert t[..|s|][i] == t[i]; }
    }
  }

  predicate Names(op: Op, i: nat)
  {
    match op
    case Release(k) => k == i
    case Resize(k, _) => k == i
    case Write(k, _, _) => k == i
    case _ => false
  }
}
