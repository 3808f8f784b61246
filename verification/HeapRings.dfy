/**
 Bin lists: circular doubly linked lists threaded through memory, with the bin header as
 the node where the circle closes (uboot/common/dlmalloc.c, "Linking chunks in bin lists").
 */
module HeapRings {
  import opened HeapLayout

  /** The k-th node of the ring; the header stands before the first and after the last chunk. */
  function Node(h: int, l: seq<int>, k: int): int { if 0 <= k < |l| then l[k] else h }

  /** Node k and the node before it point at each other. */
  predicate JoinedAt(m: Mem, h: int, l: seq<int>, k: int)
  {
    && Fd(m, Node(h, l, k - 1)) == Node(h, l, k)
    && Bk(m, Node(h, l, k)) == Node(h, l, k - 1)
  }

  ghost predicate Ring(m: Mem, h: int, l: seq<int>)
  {
    forall k {:trigger JoinedAt(m, h, l, k)} :: 0 <= k <= |l| ==> JoinedAt(m, h, l, k)
  }

  /** Nodes sit on double-word boundaries, so link words of different nodes never share an address. */
  ghost predicate Nodes(h: int, l: seq<int>)
  {
    && h % 8 == 0 && h !in l
    && (forall k {:trigger l[k]} :: 0 <= k < |l| ==> l[k] % 8 == 0)
    && (forall j, k :: 0 <= j < k < |l| ==> l[j] != l[k])
  }

  function Without(l: seq<int>, k: nat): seq<int>
    requires k < |l|
  {
    l[..k] + l[k + 1..]
  }

  function With(l: seq<int>, k: nat, p: int): seq<int>
    requires k <= |l|
  {
    l[..k] + [p] + l[k..]
  }

  /** The two stores of `unlink`. */
  function Bypass(m: Mem, bck: int, fwd: int): Mem
  {
    Store(Store(m, fwd + 12, bck), bck + 8, fwd)
  }

  /** The four stores of `frontlink`: p goes between bck and fwd. */
  function LinkBetween(m: Mem, p: int, bck: int, fwd: int): Mem
  {
    Store(Store(Store(Store(m, p + 12, bck), p + 8, fwd), bck + 8, p), fwd + 12, p)
  }

  lemma RingAt(m: Mem, h: int, l: seq<int>, k: nat)
    requires Ring(m, h, l) && k < |l|
    ensures Bk(m, l[k]) == if k == 0 then h else l[k - 1]
    ensures Fd(m, l[k]) == if k == |l| - 1 then h else l[k + 1]
  {
    assert JoinedAt(m, h, l, k);
    assert JoinedAt(m, h, l, k + 1);
  }

  lemma RingFrame(m: Mem, n: Mem, h: int, l: seq<int>)
    requires Ring(m, h, l)
    requires Fd(n, h) == Fd(m, h) && Bk(n, h) == Bk(m, h)
    requires forall k {:trigger l[k]} :: 0 <= k < |l| ==> Fd(n, l[k]) == Fd(m, l[k]) && Bk(n, l[k]) == Bk(m, l[k])
    ensures Ring(n, h, l)
  {
    forall k | 0 <= k <= |l| ensures JoinedAt(n, h, l, k) {
      assert JoinedAt(m, h, l, k);
    }
  }

  lemma NodesApart(h: int, l: seq<int>, i: int, j: int)
    requires Nodes(h, l) && -1 <= i < j <= |l|
    ensures Node(h, l, i) == Node(h, l, j) ==> i == -1 && j == |l|
    ensures Node(h, l, i) % 8 == 0 && Node(h, l, j) % 8 == 0
  {
  }

  lemma WithoutNodes(h: int, l: seq<int>, k: nat, i: int)
    requires k < |l|
    ensures -1 <= i < |l| ==> Node(h, Without(l, k), i) == Node(h, l, if i < k then i else i + 1)
  {
  }

  lemma WithNodes(h: int, l: seq<int>, k: nat, p: int, i: int)
    requires k <= |l|
    ensures -1 <= i <= |l| + 1 ==>
              Node(h, With(l, k, p), i) == if i < k then Node(h, l, i) else if i == k then p else Node(h, l, i - 1)
  {
  }

  /** A join that touches neither rewritten link word survives. */
  lemma JoinKept(m: Mem, n: Mem, h: int, l: seq<int>, i: int, a: int, b: int)
    requires JoinedAt(m, h, l, i)
    requires a == Node(h, l, i - 1) && b == Node(h, l, i)
    requires Fd(n, a) == Fd(m, a) && Bk(n, b) == Bk(m, b)
    ensures Fd(n, a) == b && Bk(n, b) == a
  {
  }

  lemma UnlinkJoins(m: Mem, h: int, l: seq<int>, k: nat, i: int)
    requires Ring(m, h, l) && Nodes(h, l) && k < |l| && 0 <= i < |l|
    ensures JoinedAt(Bypass(m, Node(h, l, k - 1), Node(h, l, k + 1)), h, Without(l, k), i)
  {
    var bck, fwd := Node(h, l, k - 1), Node(h, l, k + 1);
    var n := Bypass(m, bck, fwd);
    WithoutNodes(h, l, k, i - 1);
    WithoutNodes(h, l, k, i);
    if i != k {
      var i' := if i < k then i else i + 1;
      assert JoinedAt(m, h, l, i');
      if i < k { NodesApart(h, l, i' - 1, k - 1); NodesApart(h, l, i', k + 1); }
      else { NodesApart(h, l, k - 1, i' - 1); NodesApart(h, l, k + 1, i'); }
      JoinKept(m, n, h, l, i', Node(h, l, i' - 1), Node(h, l, i'));
    }
  }

  lemma RingUnlink(m: Mem, h: int, l: seq<int>, k: nat)
    requires Ring(m, h, l) && Nodes(h, l) && k < |l|
    ensures Ring(Bypass(m, Bk(m, l[k]), Fd(m, l[k])), h, Without(l, k))
    ensures Nodes(h, Without(l, k))
  {
    RingAt(m, h, l, k);
    var n := Bypass(m, Bk(m, l[k]), Fd(m, l[k]));
    forall i | 0 <= i <= |l| - 1 ensures JoinedAt(n, h, Without(l, k), i) {
      UnlinkJoins(m, h, l, k, i);
    }
  }

  lemma LinkJoins(m: Mem, h: int, l: seq<int>, k: nat, p: int, i: int)
    requires Ring(m, h, l) && Nodes(h, l) && k <= |l| && 0 <= i <= |l| + 1
    requires p % 8 == 0 && p != h && p !in l
    ensures JoinedAt(LinkBetween(m, p, Node(h, l, k - 1), Node(h, l, k)), h, With(l, k, p), i)
  {
    var bck, fwd := Node(h, l, k - 1), Node(h, l, k);
    var n := LinkBetween(m, p, bck, fwd);
    WithNodes(h, l, k, p, i - 1);
    WithNodes(h, l, k, p, i);
    if i < k || i > k + 1 {
      var i' := if i < k then i else i - 1;
      assert JoinedAt(m, h, l, i');
      if i < k { NodesApart(h, l, i' - 1, k - 1); NodesApart(h, l, i', k); }
      else { NodesApart(h, l, k - 1, i' - 1); NodesApart(h, l, k, i'); }
      JoinKept(m, n, h, l, i', Node(h, l, i' - 1), Node(h, l, i'));
    } else {
      NodesApart(h, l, k - 1, k);
    }
  }

  lemma RingLink(m: Mem, h: int, l: seq<int>, k: nat, p: int)
    requires Ring(m, h, l) && Nodes(h, l) && k <= |l|
    requires p % 8 == 0 && p != h && p !in l
    ensures Ring(LinkBetween(m, p, Node(h, l, k - 1), Node(h, l, k)), h, With(l, k, p))
    ensures Nodes(h, With(l, k, p))
  {
    var n := LinkBetween(m, p, Node(h, l, k - 1), Node(h, l, k));
    forall i | 0 <= i <= |l| + 1 ensures JoinedAt(n, h, With(l, k, p), i) {
      LinkJoins(m, h, l, k, p, i);
    }
  }
}
