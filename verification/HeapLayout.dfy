/**
 Word memory, chunk geometry and the size arithmetic of the allocator
 (uboot/common/dlmalloc.c). SIZE_SZ is 4, MINSIZE is 16, `unsigned long` is 32 bits wide.
 */
module HeapLayout {

  /** Word-addressed memory: the keys are the byte addresses, divisible by 4, of the words. */
  type Mem = map<int, int>

  const TWO31 := 0x8000_0000
  const TWO32 := 0x1_0000_0000
  const MINSIZE := 16
  const PAGESZ := 4096
  const TRIM_THRESHOLD := 131072
  const NAV := 128

  /** The largest request whose padded size does not run into the sign bit. */
  const MAX_REQUEST := 0x7FFF_FFF4

  /** Address of `av_[0]`; the array holds 2 * NAV + 2 words. */
  const AV := 8
  const AV_END := AV + 4 * (2 * NAV + 2)

  /** `binblocks` is the size field of bin 0, `top` its forward link. */
  const BINBLOCKS := AV + 4
  const TOP := AV + 8

  function W(m: Mem, a: int): int { if a in m then m[a] else 0 }

  function Store(m: Mem, a: int, v: int): (r: Mem)
    ensures forall b {:trigger W(r, b)} :: W(r, b) == if b == a then v else W(m, b)
  {
    m[a := v]
  }

  // Fields of the chunk at p.
  function Head(m: Mem, p: int): int { W(m, p + 4) }
  function Fd(m: Mem, p: int): int { W(m, p + 8) }
  function Bk(m: Mem, p: int): int { W(m, p + 12) }
  predicate PrevInUse(m: Mem, p: int) { Head(m, p) % 2 == 1 }
  function ChunkSize(m: Mem, p: int): int { Head(m, p) - Head(m, p) % 4 }

  function BinAt(i: int): int { AV + 8 * i }

  /** Every word below the limit can be accessed. */
  ghost predicate Roomy(m: Mem, limit: int)
  {
    forall a {:trigger a in m} :: 0 <= a < limit && a % 4 == 0 ==> a in m
  }

  // ---- request2size ------------------------------------------------------------------

  /** Two's-complement reading of a 32-bit word: the cast to `long`. */
  function Signed(w: int): int
    requires 0 <= w < TWO32
  {
    if w < TWO31 then w else w - TWO32
  }

  /** Pads a request to a chunk size, with the 32-bit wrap and the signed comparison of the macro. */
  function Request2Size(req: int): int
    requires 0 <= req < TWO32
  {
    var padded := (req + 11) % TWO32;
    if Signed(padded) < MINSIZE + 7 then MINSIZE else padded - padded % 8
  }

  /** The padded size is a legal chunk size, and has room for the request exactly up to
      MAX_REQUEST: beyond it the signed comparison turns the request into a minimal chunk. */
  lemma Request2SizeFits(req: int)
    requires 0 <= req < TWO31
    ensures MINSIZE <= Request2Size(req) <= 0x7FFF_FFF8 && Request2Size(req) % 8 == 0
    ensures Request2Size(req) - 4 >= req <==> req <= MAX_REQUEST
    ensures req <= MAX_REQUEST ==> Request2Size(req) < req + 4 + MINSIZE
    ensures req > MAX_REQUEST ==> Request2Size(req) == MINSIZE
  {
  }

  /** No smaller multiple of 8 from MINSIZE on has room for the request. */
  lemma Request2SizeLeast(req: int, s: int)
    requires 0 <= req <= MAX_REQUEST && MINSIZE <= s && s % 8 == 0 && req <= s - 4
    ensures Request2Size(req) <= s
  {
    var k := s / 8;
    assert s == 8 * k;
  }

  /** A request of 0x7FFFFFF5 bytes is served by a chunk with 12 usable bytes. */
  lemma Request2SizeWraps()
    ensures Request2Size(0x7FFF_FFF5) - 4 == 12
  {
  }

  lemma SumAligned(a: int, b: int)
    requires a % 8 == 0 && b % 8 == 0
    ensures (a + b) % 8 == 0 && (a - b) % 8 == 0
  {
    var q, r := a / 8, b / 8;
    assert a + b == 8 * (q + r) && a - b == 8 * (q - r);
  }

  lemma WordAligned(x: int)
    requires x % 8 == 0
    ensures x % 4 == 0 && (x + 4) % 4 == 0 && (x + 8) % 4 == 0 && (x + 12) % 4 == 0 && (x - 4) % 4 == 0
  {
    var q := 2 * (x / 8);
    assert x == 4 * q && x + 4 == 4 * (q + 1) && x + 8 == 4 * (q + 2) && x + 12 == 4 * (q + 3) && x - 4 == 4 * (q - 1);
  }

  lemma WordSum(a: int, b: int)
    requires a % 4 == 0 && b % 4 == 0
    ensures (a + b) % 4 == 0
  {
    var q, r := a / 4, b / 4;
    assert a + b == 4 * (q + r);
  }

  lemma WordFits(i: int, n: int)
    requires i % 4 == 0 && n % 4 == 0 && i < n
    ensures i + 4 <= n && (i + 4) % 4 == 0
  {
    var q, r := i / 4, n / 4;
    assert i == 4 * q && n == 4 * r && i + 4 == 4 * (q + 1);
  }

  lemma SameWord(i: int, d: int)
    requires i % 4 == 0 && d % 4 == 0 && i <= d < i + 4
    ensures d == i
  {
    var q, r := i / 4, d / 4;
    assert i == 4 * q && d == 4 * r;
  }

  lemma TagParity(n: int, b: bool)
    requires n % 8 == 0
    ensures (n + (if b then 1 else 0)) % 2 == 1 <==> b
  {
    Even(n, 4 * (n / 8));
  }

  lemma Even(n: int, q: int)
    requires n == 2 * q
    ensures n % 2 == 0 && (n + 1) % 2 == 1
  {
  }

  /** `(long)x >= (long)y` on 32-bit words. */
  predicate AtLeast(x: int, y: int)
    requires 0 <= x && 0 <= y
  {
    Signed(x % TWO32) >= Signed(y % TWO32)
  }

  lemma AtLeastSmall(x: int, y: int)
    requires 0 <= x < TWO31 && 0 <= y < TWO31
    ensures AtLeast(x, y) <==> x >= y
  {
  }

  /** The test with which realloc asks whether `top` has room for nb bytes and a remainder is right
      exactly when adding MINSIZE does not run into the sign bit; beyond that it is always passed. */
  lemma TopTestWraps(room: int, nb: int)
    requires 0 <= room < TWO31 && 0 <= nb < TWO31
    ensures nb + MINSIZE < TWO31 ==> (AtLeast(room, nb + MINSIZE) <==> room >= nb + MINSIZE)
    ensures nb + MINSIZE >= TWO31 ==> AtLeast(room, nb + MINSIZE) && room < nb + MINSIZE
  {
  }

  // ---- bin_index ---------------------------------------------------------------------

  function BinIndex(sz: int): int
  {
    if sz / 512 == 0 then sz / 8
    else if sz / 512 <= 4 then 56 + sz / 64
    else if sz / 512 <= 20 then 91 + sz / 512
    else if sz / 512 <= 84 then 110 + sz / 4096
    else if sz / 512 <= 340 then 119 + sz / 32768
    else if sz / 512 <= 1364 then 124 + sz / 262144
    else 126
  }

  /** Larger chunks never go to a lower bin; chunk sizes stay within bins 2..126;
      below 512 bytes a bin holds one size only. */
  lemma BinIndexMonotone(a: int, b: int)
    requires MINSIZE <= a <= b
    ensures 2 <= BinIndex(a) <= BinIndex(b) <= 126
    ensures a % 8 == 0 && b % 8 == 0 && BinIndex(a) == BinIndex(b) && BinIndex(a) < 64 ==> a == b
    ensures a < 512 <==> BinIndex(a) < 64
  {
  }

  /** How far apart the sizes of one bin are at most. */
  function BinWidth(i: int): int {
    if i < 64 then 8
    else if i < 96 then 64
    else if i < 112 then 512
    else if i < 120 then 4096
    else if i < 124 then 32768
    else 262144
  }

  /** Where the bins of each width begin, the last one at half a megabyte; the sizes of any other bin are closer
      together than its width. */
  lemma BinIsNarrow(a: int, b: int)
    requires MINSIZE <= a <= b
    ensures BinIndex(a) >= 64 <==> a >= 512
    ensures BinIndex(a) >= 96 <==> a >= 2560
    ensures BinIndex(a) >= 112 <==> a >= 10752
    ensures BinIndex(a) >= 120 <==> a >= 40960
    ensures BinIndex(a) >= 124 <==> a >= 163840
    ensures BinIndex(a) >= 126 <==> a >= 0x8_0000
    ensures BinIndex(a) == BinIndex(b) < 126 ==> b - a < BinWidth(BinIndex(a))
  {
    BinIndexMonotone(a, b);
  }

  // ---- the binblocks bit vector ------------------------------------------------------

  function Pow2(k: nat): (r: int)
    ensures r >= 1
  {
    if k == 0 then 1 else 2 * Pow2(k - 1)
  }

  predicate Bit(w: int, k: nat)
    decreases k
  {
    if k == 0 then w % 2 == 1 else Bit(w / 2, k - 1)
  }

  /** `w | (1 << k)` */
  function SetBit(w: int, k: nat): int
    decreases k
  {
    if k == 0 then w - w % 2 + 1 else 2 * SetBit(w / 2, k - 1) + w % 2
  }

  /** `w & ~(1 << k)` */
  function ClearBit(w: int, k: nat): int
    decreases k
  {
    if k == 0 then w - w % 2 else 2 * ClearBit(w / 2, k - 1) + w % 2
  }

  lemma {:induction false} SetBitIs(w: int, k: nat, j: nat)
    requires 0 <= w < Pow2(32) && k < 32
    ensures Bit(SetBit(w, k), j) <==> j == k || Bit(w, j)
    ensures Bit(ClearBit(w, k), j) <==> j != k && Bit(w, j)
    ensures 0 <= SetBit(w, k) < Pow2(32) && 0 <= ClearBit(w, k) < Pow2(32)
  {
    SetBitIsUpTo(w, k, j, 32);
  }

  lemma {:induction false} SetBitAgain(w: int, k: nat)
    requires Bit(w, k)
    ensures SetBit(w, k) == w
    decreases k
  {
    if k > 0 { SetBitAgain(w / 2, k - 1); }
  }

  lemma {:induction false} SetBitIsUpTo(w: int, k: nat, j: nat, n: nat)
    requires 0 <= w < Pow2(n) && k < n
    ensures Bit(SetBit(w, k), j) <==> j == k || Bit(w, j)
    ensures Bit(ClearBit(w, k), j) <==> j != k && Bit(w, j)
    ensures 0 <= SetBit(w, k) < Pow2(n) && 0 <= ClearBit(w, k) < Pow2(n)
    decreases k
  {
    if k == 0 {
      if j > 0 {
        assert SetBit(w, 0) / 2 == w / 2 && ClearBit(w, 0) / 2 == w / 2;
      }
    } else {
      var s, c := SetBit(w / 2, k - 1), ClearBit(w / 2, k - 1);
      SetBitIsUpTo(w / 2, k - 1, if j == 0 then 0 else j - 1, n - 1);
      assert SetBit(w, k) / 2 == s && SetBit(w, k) % 2 == w % 2;
      assert ClearBit(w, k) / 2 == c && ClearBit(w, k) % 2 == w % 2;
    }
  }

  /** The comparison `(1 << k) <= w` asks whether a bit at or above position k is set. */
  lemma {:induction false} PowerCompares(w: int, k: nat) returns (j: nat)
    requires 0 <= w < Pow2(32) && k <= 32
    ensures Pow2(k) <= w ==> k <= j < 32 && Bit(w, j)
    ensures Pow2(k) > w ==> forall i: nat :: k <= i ==> !Bit(w, i)
  {
    if Pow2(k) <= w {
      j := TopBit(w, k, 32);
    } else {
      j := 0;
      forall i: nat | k <= i ensures !Bit(w, i) {
        NoBit(w, k, i);
      }
    }
  }

  lemma {:induction false} TopBit(w: int, k: nat, n: nat) returns (j: nat)
    requires Pow2(k) <= w < Pow2(n)
    ensures k <= j < n && Bit(w, j)
    decreases n
  {
    if k == 0 {
      if w % 2 == 1 {
        j := 0;
      } else {
        var i := TopBit(w / 2, 0, n - 1);
        j := i + 1;
      }
    } else {
      var i := TopBit(w / 2, k - 1, n - 1);
      j := i + 1;
    }
  }

  lemma {:induction false} NoBit(w: int, k: nat, i: nat)
    requires 0 <= w < Pow2(k) && k <= i
    ensures !Bit(w, i)
    decreases i
  {
    if i == 0 {
      assert w == 0;
    } else if k == 0 {
      NoBit(w / 2, 0, i - 1);
    } else {
      NoBit(w / 2, k - 1, i - 1);
    }
  }

  // ---- alignment -----------------------------------------------------------------------

  /** `x & y` */
  function And(x: nat, y: nat): nat
    decreases x
  {
    if x == 0 then 0 else 2 * And(x / 2, y / 2) + (if x % 2 == 1 && y % 2 == 1 then 1 else 0)
  }

  lemma {:induction false} HalfMod(x: int, p: int)
    requires 0 <= x && p > 0
    ensures x % (2 * p) == 2 * (x / 2 % p) + x % 2
  {
    var q, r := x / 2 / p, x / 2 % p;
    assert x / 2 == p * q + r;
    assert x == (2 * p) * q + (2 * r + x % 2);
    ModUnique(x, 2 * p, q, 2 * r + x % 2);
  }

  lemma MulAtLeast(d: int, t: int)
    requires d > 0 && t >= 1
    ensures d * t >= d
  {
  }

  lemma Distribute(d: int, a: int, b: int)
    ensures d * (a - b) == d * a - d * b
  {
  }

  lemma Euclid(x: int, d: int)
    requires d > 0
    ensures x == d * (x / d) + x % d && 0 <= x % d < d
  {
  }

  lemma ModUnique(x: int, d: int, q: int, r: int)
    requires d > 0 && x == d * q + r && 0 <= r < d
    ensures x % d == r && x / d == q
  {
    var q', r' := x / d, x % d;
    Euclid(x, d);
    Distribute(d, q, q');
    Distribute(d, q', q);
    if q > q' { MulAtLeast(d, q - q'); }
    if q < q' { MulAtLeast(d, q' - q); }
  }

  lemma MaskEven(x: nat, h: nat, p: int)
    requires p > 0 && And(x / 2, h) == RoundDown(x / 2, p)
    ensures And(x, 2 * h) == RoundDown(x, 2 * p)
  {
    HalfMod(x, p);
    assert 2 * h / 2 == h && 2 * h % 2 == 0;
  }

  lemma MaskOdd(x: nat, h: nat)
    requires And(x / 2, h) == x / 2
    ensures And(x, 2 * h + 1) == x
  {
    assert (2 * h + 1) / 2 == h && (2 * h + 1) % 2 == 1;
  }

  lemma HalfBelow(x: int, p: int)
    requires 0 <= x < 2 * p
    ensures 0 <= x / 2 < p
  {
  }

  lemma {:induction false} MaskAll(x: nat, n: nat)
    requires x < Pow2(n)
    ensures And(x, Pow2(n) - 1) == x
    decreases n
  {
    if n > 0 {
      var p := Pow2(n - 1);
      assert Pow2(n) == 2 * p;
      HalfBelow(x, p);
      MaskAll(x / 2, n - 1);
      MaskOdd(x, p - 1);
      assert 2 * (p - 1) + 1 == 2 * p - 1;
    }
  }

  /** Masking with a negated power of two rounds down to a multiple of it. */
  lemma {:induction false} MaskRounds(x: nat, k: nat, n: nat)
    requires x < Pow2(n) && k <= n
    ensures Pow2(k) <= Pow2(n) && And(x, Pow2(n) - Pow2(k)) == RoundDown(x, Pow2(k))
    decreases n
  {
    if k == 0 {
      MaskAll(x, n);
    } else {
      var p, q := Pow2(n - 1), Pow2(k - 1);
      assert Pow2(n) == 2 * p && Pow2(k) == 2 * q;
      HalfBelow(x, p);
      MaskRounds(x / 2, k - 1, n - 1);
      MaskEven(x, p - q, q);
      assert 2 * (p - q) == 2 * p - 2 * q;
    }
  }

  /** The multiple of d at or below x; by MaskRounds, `x & -d` for a power of two d. */
  function RoundDown(x: int, d: int): int
    requires d > 0
  {
    x - x % d
  }

  predicate DividedBy(x: int, d: int)
    requires d > 0
  {
    x % d == 0
  }

  lemma Multiple(x: int, d: int, q: int)
    requires d in {1, 2, 4} && x == d * q
    ensures x % d == 0
  {
  }

  lemma SmallDivides(x: int, d: int)
    requires x % 8 == 0 && d in {1, 2, 4, 8}
    ensures DividedBy(x, d)
  {
    var q := x / 8;
    if d == 1 {
      Multiple(x, 1, x);
    } else if d == 2 {
      Multiple(x, 2, 4 * q);
    } else if d == 4 {
      Multiple(x, 4, 2 * q);
    }
  }

  lemma RoundedUp(m: int, d: int)
    requires d > 0 && !DividedBy(m, d)
    ensures var s := RoundDown(m + d - 1, d); m < s < m + d && DividedBy(s, d) && DividedBy(s + d, d)
  {
    var x := m + d - 1;
    var s := x - x % d;
    Euclid(x, d);
    ModUnique(s, d, x / d, 0);
    Distribute(d, x / d, -1);
    ModUnique(s + d, d, x / d + 1, 0);
  }

  lemma {:induction false} DividedBy8(k: nat, x: int)
    requires k >= 3 && DividedBy(x, Pow2(k))
    ensures x % 8 == 0
  {
    var d, j := Pow2(k), Pow2(k - 3);
    assert Pow2(k - 2) == 2 * j && Pow2(k - 1) == 4 * j;
    assert d == 8 * j;
    var q := x / d;
    Euclid(x, d);
    assert x == 8 * (j * q) by { assert (8 * j) * q == 8 * (j * q); }
  }

  lemma AlignedSpot(m: int, k: nat, d: int, s: int)
    requires k >= 3 && d == Pow2(k) && m % 8 == 0 && m < s < m + d && DividedBy(s, d) && DividedBy(s + d, d)
    ensures m + 8 <= s && (s - m) % 8 == 0 && (s + d - m) % 8 == 0
  {
    DividedBy8(k, s);
    DividedBy8(k, s + d);
    SumAligned(s, m);
    SumAligned(s + d, m);
  }

  lemma Pow2Of31()
    ensures Pow2(31) == TWO31
  {
    assert Pow2(8) == 256;
    assert Pow2(16) == 65536;
    assert Pow2(24) == 0x100_0000;
  }

  lemma {:induction false} PowGrows(k: nat, n: nat)
    requires k <= n
    ensures Pow2(k) <= Pow2(n)
  {
    if k < n { PowGrows(k, n - 1); }
  }

  lemma Pow2Of32()
    ensures Pow2(32) == TWO32
  {
    assert Pow2(8) == 256;
    assert Pow2(16) == 65536;
    assert Pow2(24) == 0x100_0000;
  }

  /** The request that memalign passes on, with the wrap-around of its sum. */
  function AlignedRequest(alignment: int, nb: int): int { (nb + alignment + MINSIZE) % TWO32 }

  /** The sum neither wraps nor reaches the requests that are padded wrongly. */
  predicate AlignedRequestFits(alignment: int, nb: int)
  {
    nb + alignment + MINSIZE < TWO32 && !(MAX_REQUEST < nb + alignment + MINSIZE < TWO31)
  }

  /** The padded request is refused or has room for the block at any offset exactly when the sum fits;
      otherwise a minimal chunk is allocated for it. */
  lemma AlignedRequestRoom(alignment: int, nb: int)
    requires MINSIZE <= alignment <= TWO31 && MINSIZE <= nb <= 0x7FFF_FFF8
    ensures var s := AlignedRequest(alignment, nb);
      && 0 <= s < TWO32
      && (AlignedRequestFits(alignment, nb) <==> s >= TWO31 || Request2Size(s) - 4 >= nb + alignment + MINSIZE)
      && (!AlignedRequestFits(alignment, nb) ==> Request2Size(s) == MINSIZE)
  {
  }
}
