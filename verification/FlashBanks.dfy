/**
 NOR flash in banks of sectors (uboot/common/flash.c and uboot/common/cmd_flash.c): protecting
 sectors, writing, and choosing the sectors of an address range.
 */
module FlashBanks {

  const TWO32 := 0x1_0000_0000

  const ERR_OK := 0
  const ERR_PROTECTED := 4
  const ERR_INVAL := 8

  /** The start addresses of the sectors, the size of the bank, and whether the flash was identified. */
  datatype Bank = Bank(start: seq<int>, size: int, known: bool)

  predicate WellFormed(b: Bank)
  {
    && 0 < |b.start| && 0 <= b.start[0] && b.size < TWO32 && b.start[0] + b.size <= TWO32
    && b.start[|b.start| - 1] < b.start[0] + b.size
    && forall i, j :: 0 <= i < j < |b.start| ==> b.start[i] < b.start[j]
  }

  /** The last address of sector i. */
  function SectorEnd(b: Bank, i: nat): int
    requires i < |b.start|
  {
    if i == |b.start| - 1 then b.start[0] + b.size - 1 else b.start[i + 1] - 1
  }

  function BankEnd(b: Bank): int
    requires |b.start| > 0
  {
    b.start[0] + b.size - 1
  }

  lemma SectorsApart(b: Bank, i: nat, j: nat)
    requires WellFormed(b) && i < j < |b.start|
    ensures b.start[i] <= SectorEnd(b, i) < b.start[j] <= SectorEnd(b, j) <= BankEnd(b)
  {
    if i + 1 < j { assert b.start[i + 1] < b.start[j]; }
    if j + 1 < |b.start| { assert b.start[j] < b.start[j + 1]; }
  }

  lemma SectorIn(b: Bank, i: nat)
    requires WellFormed(b) && i < |b.start|
    ensures b.start[0] <= b.start[i] <= SectorEnd(b, i) <= BankEnd(b)
  {
    if i > 0 { SectorsApart(b, 0, i); }
    if i + 1 < |b.start| { SectorsApart(b, i, i + 1); }
  }

  /** Banks follow one another without gaps. */
  predicate Contiguous(banks: seq<Bank>)
  {
    && (forall k :: 0 <= k < |banks| ==> WellFormed(banks[k]) && banks[k].known)
    && forall k {:trigger BankEnd(banks[k])} :: 0 <= k < |banks| - 1 ==> BankEnd(banks[k]) + 1 == banks[k + 1].start[0]
  }

  /** The first n banks follow one another without gaps. */
  predicate Tidy(banks: seq<Bank>, n: nat)
    requires n <= |banks|
  {
    n == 0 || (
      && Tidy(banks, n - 1) && WellFormed(banks[n - 1]) && banks[n - 1].known
      && (n > 1 ==> |banks[n - 2].start| > 0 && BankEnd(banks[n - 2]) + 1 == banks[n - 1].start[0]))
  }

  lemma {:induction false} TidyIs(banks: seq<Bank>, n: nat)
    requires n <= |banks| && Tidy(banks, n)
    ensures Contiguous(banks[..n])
  {
    if n > 0 {
      TidyIs(banks, n - 1);
      var s, t := banks[..n], banks[..n - 1];
      forall k | 0 <= k < n ensures WellFormed(s[k]) && s[k].known { if k < n - 1 { assert s[k] == t[k]; } }
      forall k | 0 <= k < n - 1 ensures BankEnd(s[k]) + 1 == s[k + 1].start[0] {
        if k < n - 2 { assert s[k] == t[k] && s[k + 1] == t[k + 1]; }
      }
    }
  }

  lemma {:induction false} ContiguousIsTidy(banks: seq<Bank>, n: nat)
    requires n <= |banks| && Contiguous(banks)
    ensures Tidy(banks, n)
  {
    if n > 0 {
      ContiguousIsTidy(banks, n - 1);
      if n > 1 { assert BankEnd(banks[n - 2]) + 1 == banks[n - 2 + 1].start[0]; }
    }
  }

  // ---- choosing the sectors of a range -------------------------------------------------------------------

  /** The sector of the bank that begins at an address, or ends at it; -1 if there is none. */
  function BeginsAt(b: Bank, a: int, n: nat): (r: int)
    requires n <= |b.start|
    ensures -1 <= r < n && (r >= 0 ==> b.start[r] == a) && (r == -1 ==> forall i :: 0 <= i < n ==> b.start[i] != a)
  {
    if n == 0 then -1 else if b.start[n - 1] == a then n - 1 else BeginsAt(b, a, n - 1)
  }

  function EndsAt(b: Bank, a: int, n: nat): (r: int)
    requires n <= |b.start|
    ensures -1 <= r < n && (r >= 0 ==> SectorEnd(b, r) == a) &&
            (r == -1 ==> forall i :: 0 <= i < n ==> SectorEnd(b, i) != a)
  {
    if n == 0 then -1 else if SectorEnd(b, n - 1) == a then n - 1 else EndsAt(b, a, n - 1)
  }

  /** What is chosen in one bank: first and last sector (-1 for none), and where the range goes on. */
  datatype Pick = Pick(first: int, last: int, error: bool, next: int)

  function PickIn(b: Bank, lo: int, hi: int): Pick
    requires WellFormed(b)
  {
    var f := if lo <= hi then BeginsAt(b, lo, |b.start|) else -1;
    var e := if lo <= hi then EndsAt(b, hi, |b.start|) else -1;
    if f >= 0 then
      var l := if e < 0 && hi > BankEnd(b) then |b.start| - 1 else e;
      if l < f then Pick(f, l, true, lo) else Pick(f, l, false, (SectorEnd(b, l) + 1) % TWO32)
    else Pick(-1, e, (lo >= b.start[0] && lo < BankEnd(b)) || e >= 0, lo)
  }

  /** The choices bank by bank, until the range is used up or something is wrong. */
  function PickFrom(banks: seq<Bank>, lo: int, hi: int): (r: seq<Pick>)
    requires forall k :: 0 <= k < |banks| ==> WellFormed(banks[k])
    ensures |r| <= |banks|
  {
    if banks == [] || lo > hi then []
    else if !banks[0].known then [Pick(-1, -1, false, lo)] + PickFrom(banks[1..], lo, hi)
    else
      var p := PickIn(banks[0], lo, hi);
      if p.error then [p] else [p] + PickFrom(banks[1..], p.next, hi)
  }

  predicate Succeeds(ps: seq<Pick>) { forall k :: 0 <= k < |ps| ==> !ps[k].error }

  function Count(ps: seq<Pick>): int
  {
    if ps == [] then 0
    else (if ps[0].first >= 0 && !ps[0].error then ps[0].last - ps[0].first + 1 else 0) + Count(ps[1..])
  }

  /** The address is in a sector that was chosen in this bank. */
  predicate Chosen(b: Bank, p: Pick, a: int)
  {
    0 <= p.first <= p.last < |b.start| && b.start[p.first] <= a <= SectorEnd(b, p.last)
  }

  predicate ChosenIn(banks: seq<Bank>, ps: seq<Pick>, a: int)
  {
    exists k :: 0 <= k < |ps| && k < |banks| && Chosen(banks[k], ps[k], a)
  }

  lemma PickFacts(b: Bank, lo: int, hi: int)
    requires WellFormed(b) && 0 <= lo <= hi < TWO32
    ensures var p := PickIn(b, lo, hi);
      !p.error ==>
        && (p.first >= 0 ==>
              p.first <= p.last < |b.start| && b.start[p.first] == lo && SectorEnd(b, p.last) <= hi &&
              p.next == (SectorEnd(b, p.last) + 1) % TWO32)
        && (p.first >= 0 && BankEnd(b) < hi ==> p.last == |b.start| - 1)
        && (p.first >= 0 && BankEnd(b) >= hi ==> SectorEnd(b, p.last) == hi)
        && (p.first < 0 ==> p.first == p.last == -1 && p.next == lo && !(b.start[0] <= lo < BankEnd(b)))
  {
    var e := EndsAt(b, hi, |b.start|);
    if e >= 0 { SectorIn(b, e); }
  }

  lemma ChosenCons(banks: seq<Bank>, p: Pick, ps: seq<Pick>, a: int)
    requires banks != []
    ensures ChosenIn(banks, [p] + ps, a) <==> Chosen(banks[0], p, a) || ChosenIn(banks[1..], ps, a)
  {
    var qs := [p] + ps;
    if k :| 0 <= k < |qs| && k < |banks| && Chosen(banks[k], qs[k], a) {
      if k > 0 { assert Chosen(banks[1..][k - 1], ps[k - 1], a); }
    }
    if Chosen(banks[0], p, a) { assert Chosen(banks[0], qs[0], a); }
    if k :| 0 <= k < |ps| && k < |banks[1..]| && Chosen(banks[1..][k], ps[k], a) {
      assert Chosen(banks[k + 1], qs[k + 1], a);
    }
  }

  function PickFirst(banks: seq<Bank>, lo: int, hi: int): Pick
    requires banks != [] && WellFormed(banks[0])
  {
    if banks[0].known then PickIn(banks[0], lo, hi) else Pick(-1, -1, false, lo)
  }

  lemma PickCons(banks: seq<Bank>, lo: int, hi: int)
    requires (forall k :: 0 <= k < |banks| ==> WellFormed(banks[k])) && banks != [] && lo <= hi &&
             Succeeds(PickFrom(banks, lo, hi))
    ensures var p := PickFirst(banks, lo, hi); var ps := PickFrom(banks[1..], p.next, hi);
      PickFrom(banks, lo, hi) == [p] + ps && !p.error && Succeeds(ps)
  {
    var p := PickFirst(banks, lo, hi);
    assert PickFrom(banks, lo, hi)[0] == p;
    SucceedsRest(p, PickFrom(banks[1..], p.next, hi));
  }

  /** A sector chosen in a bank is in the range, and the range goes on behind it. */
  lemma PickInside(b: Bank, lo: int, hi: int, a: int)
    requires WellFormed(b) && 0 <= lo <= hi < TWO32 - 1 && !PickIn(b, lo, hi).error
    ensures Chosen(b, PickIn(b, lo, hi), a) ==> lo <= a <= hi
    ensures lo <= PickIn(b, lo, hi).next
  {
    PickFacts(b, lo, hi);
    var p := PickIn(b, lo, hi);
    if p.first >= 0 { NextAfter(b, p.first, p.last); }
  }

  /** No sector outside the range is chosen, unless the range goes on at address 0 after the end of the
      address space. */
  lemma {:induction false} NeverOutside(banks: seq<Bank>, lo: int, hi: int, a: int)
    requires (forall k :: 0 <= k < |banks| ==> WellFormed(banks[k])) && 0 <= lo && hi < TWO32 - 1
    requires Succeeds(PickFrom(banks, lo, hi)) && ChosenIn(banks, PickFrom(banks, lo, hi), a)
    ensures lo <= a <= hi
    decreases |banks|
  {
    PickCons(banks, lo, hi);
    var p := PickFirst(banks, lo, hi);
    ChosenCons(banks, p, PickFrom(banks[1..], p.next, hi), a);
    if banks[0].known { PickInside(banks[0], lo, hi, a); }
    if !Chosen(banks[0], p, a) { NeverOutside(banks[1..], p.next, hi, a); }
  }

  lemma NextAfter(b: Bank, f: nat, l: nat)
    requires WellFormed(b) && f <= l < |b.start|
    ensures b.start[f] <= SectorEnd(b, l)
  {
    SectorIn(b, f);
    if f < l { SectorsApart(b, f, l); }
  }

  /** A known bank begins at address 0. */
  predicate ZeroBank(banks: seq<Bank>)
  {
    banks != [] && ((banks[0].known && |banks[0].start| > 0 && banks[0].start[0] == 0) || ZeroBank(banks[1..]))
  }

  /** Bank after bank is chosen from lo on until one reaches the end of the address space, and a later one begins
      at 0. */
  predicate Wraps(banks: seq<Bank>, lo: int)
  {
    banks != [] &&
    var b, rest := banks[0], banks[1..];
    if Starts(b, lo) && BankEnd(b) == TWO32 - 1 then ZeroBank(rest) else Wraps(rest, NextLow(b, lo))
  }

  /** A range up to the last address takes the rest of a bank in which it begins. */
  lemma PickToEnd(b: Bank, lo: int)
    requires WellFormed(b) && 0 <= lo < TWO32 && !PickIn(b, lo, TWO32 - 1).error
    ensures var p := PickIn(b, lo, TWO32 - 1); var f := BeginsAt(b, lo, |b.start|);
      if f >= 0 then
        0 <= p.first == f <= p.last == |b.start| - 1 && b.start[f] == lo && p.next == (BankEnd(b) + 1) % TWO32
      else p.first == -1 && p.next == lo
  {
    PickFacts(b, lo, TWO32 - 1);
    var p := PickIn(b, lo, TWO32 - 1);
    if p.first >= 0 && BankEnd(b) >= TWO32 - 1 {
      SectorIn(b, p.last);
      if p.last < |b.start| - 1 { SectorsApart(b, p.last, |b.start| - 1); }
    }
  }

  lemma {:induction false} AfterWrap(banks: seq<Bank>, a: int)
    requires (forall k :: 0 <= k < |banks| ==> WellFormed(banks[k])) && Succeeds(PickFrom(banks, 0, TWO32 - 1))
    ensures if ZeroBank(banks) then ChosenIn(banks, PickFrom(banks, 0, TWO32 - 1), 0)
            else !ChosenIn(banks, PickFrom(banks, 0, TWO32 - 1), a)
    decreases |banks|
  {
    if banks != [] {
      PickCons(banks, 0, TWO32 - 1);
      var b, p := banks[0], PickFirst(banks, 0, TWO32 - 1);
      var ps := PickFrom(banks[1..], p.next, TWO32 - 1);
      ChosenCons(banks, p, ps, 0);
      ChosenCons(banks, p, ps, a);
      if b.known { PickToEnd(b, 0); }
      if b.known && b.start[0] == 0 {
        BeginsFirst(b, |b.start|);
        SectorIn(b, p.last);
      } else {
        AfterWrap(banks[1..], a);
      }
    }
  }

  predicate Starts(b: Bank, lo: int) { b.known && BeginsAt(b, lo, |b.start|) >= 0 }

  /** Where a range up to the last address goes on behind a bank */
  function NextLow(b: Bank, lo: int): int
  {
    if !Starts(b, lo) then lo else if BankEnd(b) == TWO32 - 1 then 0 else BankEnd(b) + 1
  }

  lemma EndFacts(b: Bank, lo: int, a: int)
    requires WellFormed(b) && b.known && 0 <= lo < TWO32 && !PickIn(b, lo, TWO32 - 1).error
    ensures var p := PickIn(b, lo, TWO32 - 1);
            p.next == NextLow(b, lo) && (Chosen(b, p, a) <==> Starts(b, lo) && lo <= a <= BankEnd(b))
    ensures Starts(b, lo) ==> lo <= BankEnd(b) < TWO32
  {
    PickToEnd(b, lo);
    var f := BeginsAt(b, lo, |b.start|);
    if f >= 0 { SectorIn(b, f); }
  }

  lemma EndStep(banks: seq<Bank>, lo: int, a: int)
    requires (forall k :: 0 <= k < |banks| ==> WellFormed(banks[k])) && banks != [] && 0 <= lo < TWO32 &&
             Succeeds(PickFrom(banks, lo, TWO32 - 1))
    ensures var rest, next := banks[1..], NextLow(banks[0], lo);
      && Succeeds(PickFrom(rest, next, TWO32 - 1))
      && (ChosenIn(banks, PickFrom(banks, lo, TWO32 - 1), a) <==>
            (Starts(banks[0], lo) && lo <= a <= BankEnd(banks[0])) ||
                ChosenIn(rest, PickFrom(rest, next, TWO32 - 1), a))
      && (Starts(banks[0], lo) ==> lo <= BankEnd(banks[0]) < TWO32)
  {
    PickCons(banks, lo, TWO32 - 1);
    if banks[0].known { EndFacts(banks[0], lo, a); }
    var p := PickFirst(banks, lo, TWO32 - 1);
    ChosenCons(banks, p, PickFrom(banks[1..], p.next, TWO32 - 1), a);
  }

  lemma {:induction false} WrapHits(banks: seq<Bank>, lo: int)
    requires (forall k :: 0 <= k < |banks| ==> WellFormed(banks[k])) && 0 < lo < TWO32 &&
             Succeeds(PickFrom(banks, lo, TWO32 - 1)) && Wraps(banks, lo)
    ensures ChosenIn(banks, PickFrom(banks, lo, TWO32 - 1), 0)
    decreases |banks|
  {
    EndStep(banks, lo, 0);
    var b, rest, next := banks[0], banks[1..], NextLow(banks[0], lo);
    if next == 0 { AfterWrap(rest, 0); } else { WrapHits(rest, next); }
  }

  lemma {:induction false} OnlyWrapHits(banks: seq<Bank>, lo: int, a: int)
    requires (forall k :: 0 <= k < |banks| ==> WellFormed(banks[k])) && 0 < lo < TWO32 &&
             Succeeds(PickFrom(banks, lo, TWO32 - 1))
    requires ChosenIn(banks, PickFrom(banks, lo, TWO32 - 1), a) && !Wraps(banks, lo)
    ensures lo <= a < TWO32
    decreases |banks|
  {
    EndStep(banks, lo, a);
    var b, rest, next := banks[0], banks[1..], NextLow(banks[0], lo);
    if ChosenIn(rest, PickFrom(rest, next, TWO32 - 1), a) {
      if next == 0 { AfterWrap(rest, a); } else { OnlyWrapHits(rest, next, a); }
    }
  }

  /** Something outside the range is chosen. */
  ghost predicate PicksOutside(banks: seq<Bank>, lo: int, hi: int)
    requires forall k :: 0 <= k < |banks| ==> WellFormed(banks[k])
  {
    exists a :: ChosenIn(banks, PickFrom(banks, lo, hi), a) && !(lo <= a <= hi)
  }

  /** Exactly when a sector outside the range is chosen without an error being reported */
  lemma OutsideExactly(banks: seq<Bank>, lo: int, hi: int)
    requires (forall k :: 0 <= k < |banks| ==> WellFormed(banks[k])) && 0 <= lo <= hi < TWO32 &&
             Succeeds(PickFrom(banks, lo, hi))
    ensures PicksOutside(banks, lo, hi) <==> 0 < lo && hi == TWO32 - 1 && Wraps(banks, lo)
  {
    if a :| ChosenIn(banks, PickFrom(banks, lo, hi), a) && !(lo <= a <= hi) {
      if hi < TWO32 - 1 {
        NeverOutside(banks, lo, hi, a);
      } else if lo == 0 {
        ChosenBounded(banks, PickFrom(banks, lo, hi), a);
      } else if !Wraps(banks, lo) {
        OnlyWrapHits(banks, lo, a);
      }
    }
    if 0 < lo && hi == TWO32 - 1 && Wraps(banks, lo) {
      WrapHits(banks, lo);
      assert ChosenIn(banks, PickFrom(banks, lo, hi), 0) && !(lo <= 0 <= hi);
    }
  }

  lemma ChosenBounded(banks: seq<Bank>, ps: seq<Pick>, a: int)
    requires (forall k :: 0 <= k < |banks| ==> WellFormed(banks[k])) && ChosenIn(banks, ps, a)
    ensures 0 <= a < TWO32
  {
    var k :| 0 <= k < |ps| && k < |banks| && Chosen(banks[k], ps[k], a);
    SectorIn(banks[k], ps[k].first);
    SectorIn(banks[k], ps[k].last);
  }

  /** With a bank at the end of the address space and another one at 0, all of the other one is chosen too. */
  lemma WrapsToZero(top: Bank, zero: Bank)
    requires WellFormed(top) && WellFormed(zero) && top.known && zero.known
    requires BankEnd(top) == TWO32 - 1 && zero.start[0] == 0 && BankEnd(zero) < top.start[0]
    ensures var ps := PickFrom([top, zero], top.start[0], TWO32 - 1);
      Succeeds(ps) && |ps| == 2 && ps[1] == Pick(0, |zero.start| - 1, false, BankEnd(zero) + 1)
  {
    var banks, hi := [top, zero], TWO32 - 1;
    var n := |top.start|;
    assert SectorEnd(top, n - 1) == hi;
    BeginsFirst(top, n);
    EndsLast(top, n);
    BeginsFirst(zero, |zero.start|);
    forall i | 0 <= i < |zero.start| ensures SectorEnd(zero, i) != hi { SectorIn(zero, i); }
    assert EndsAt(zero, hi, |zero.start|) == -1;
    assert banks[1..] == [zero] && [zero][1..] == [];
  }

  lemma {:induction false} BeginsFirst(b: Bank, n: nat)
    requires WellFormed(b) && 0 < n <= |b.start|
    ensures BeginsAt(b, b.start[0], n) == 0
  {
    if n > 1 {
      assert b.start[0] < b.start[n - 1];
      BeginsFirst(b, n - 1);
    }
  }

  lemma EndsLast(b: Bank, n: nat)
    requires WellFormed(b) && n == |b.start|
    ensures EndsAt(b, BankEnd(b), n) == n - 1
  {
  }

  /** Inside the flash. */
  predicate InFlash(banks: seq<Bank>, a: int)
  {
    exists k :: 0 <= k < |banks| && WellFormed(banks[k]) && banks[k].start[0] <= a <= BankEnd(banks[k])
  }

  /** In contiguous banks, for a range that begins at the start of the first bank and ends inside flash,
      the chosen sectors are exactly those of the range. */
  lemma {:induction false} TilesOn(banks: seq<Bank>, lo: int, hi: int, a: int)
    requires Contiguous(banks) && banks != [] && lo == banks[0].start[0] && lo <= hi && InFlash(banks, hi)
    requires Succeeds(PickFrom(banks, lo, hi))
    ensures ChosenIn(banks, PickFrom(banks, lo, hi), a) <==> lo <= a <= hi
    decreases |banks|
  {
    BeginsFirst(banks[0], |banks[0].start|);
    TilesFrom(banks, lo, hi, a);
  }

  /** The same for a range that begins at a sector of the first bank. */
  lemma {:induction false} TilesFrom(banks: seq<Bank>, lo: int, hi: int, a: int)
    requires Contiguous(banks) && banks != [] && 0 <= lo <= hi && InFlash(banks, hi) &&
             Succeeds(PickFrom(banks, lo, hi))
    requires PickFirst(banks, lo, hi).first >= 0
    ensures ChosenIn(banks, PickFrom(banks, lo, hi), a) <==> lo <= a <= hi
    decreases |banks|, 0
  {
    var b, rest := banks[0], banks[1..];
    var p := PickFirst(banks, lo, hi);
    InFlashBound(banks, hi);
    PickCons(banks, lo, hi);
    FirstCovers(b, lo, hi, a);
    ChosenCons(banks, p, PickFrom(rest, p.next, hi), a);
    if hi <= BankEnd(b) {
      if rest != [] { assert rest[0] == banks[0 + 1]; }
      LastBank(rest, p.next, hi, a, b);
    } else {
      InFlashRest(banks, hi);
      TilesOn(rest, p.next, hi, a);
    }
  }

  /** The first bank that is chosen from covers the range up to its own end. */
  lemma FirstCovers(b: Bank, lo: int, hi: int, a: int)
    requires WellFormed(b) && 0 <= lo <= hi < TWO32 && !PickIn(b, lo, hi).error && PickIn(b, lo, hi).first >= 0
    ensures Chosen(b, PickIn(b, lo, hi), a) <==> lo <= a <= hi && a <= BankEnd(b)
    ensures PickIn(b, lo, hi).next == if hi <= BankEnd(b) then (hi + 1) % TWO32 else BankEnd(b) + 1
  {
    PickFacts(b, lo, hi);
    SectorIn(b, PickIn(b, lo, hi).last);
  }

  /** Banks above the start of the range choose nothing. */
  lemma {:induction false} NothingAbove(banks: seq<Bank>, lo: int, hi: int)
    requires 0 <= lo && hi < TWO32 && forall k :: 0 <= k < |banks| ==> WellFormed(banks[k]) && lo < banks[k].start[0]
    requires Succeeds(PickFrom(banks, lo, hi))
    ensures Count(PickFrom(banks, lo, hi)) == 0
    decreases |banks|
  {
    if banks != [] && lo <= hi {
      PickCons(banks, lo, hi);
      PickFacts(banks[0], lo, hi);
      var p := PickFirst(banks, lo, hi);
      NothingAbove(banks[1..], lo, hi);
      CountCons(p, PickFrom(banks[1..], lo, hi));
    }
  }

  lemma PickRest(banks: seq<Bank>, b: nat, lo: int, hi: int)
    requires (forall k :: 0 <= k < |banks| ==> WellFormed(banks[k])) && b < |banks| && lo <= hi
    ensures var p := PickFirst(banks[b..], lo, hi);
      PickFrom(banks[b..], lo, hi) == [p] + (if p.error then [] else PickFrom(banks[b + 1..], p.next, hi))
  {
    assert banks[b..][0] == banks[b] && banks[b..][1..] == banks[b + 1..];
  }

  lemma PickAppend(ps: seq<Pick>, p: Pick, rest: seq<Pick>)
    ensures ps + ([p] + rest) == ps + [p] + rest && ps + ([p] + []) == ps + [p]
    ensures Count(ps + [p]) == Count(ps) + if p.first >= 0 && !p.error then p.last - p.first + 1 else 0
  {
    CountConcat(ps, [p]);
    CountCons(p, []);
    assert [p] + [] == [p];
  }

  lemma CountCons(p: Pick, ps: seq<Pick>)
    ensures Count([p] + ps) == (if p.first >= 0 && !p.error then p.last - p.first + 1 else 0) + Count(ps)
  {
    assert ([p] + ps)[1..] == ps;
  }

  lemma {:induction false} BanksAscend(banks: seq<Bank>, k: nat)
    requires Contiguous(banks) && 0 < k < |banks|
    ensures BankEnd(banks[0]) < banks[k].start[0]
  {
    if k > 1 {
      BanksAscend(banks, k - 1);
      SectorIn(banks[k - 1], 0);
    }
    assert BankEnd(banks[k - 1]) + 1 == banks[k - 1 + 1].start[0];
  }

  /** In contiguous banks, for any range that ends inside flash: if there is no error and something is
      chosen, the chosen sectors are exactly the range. */
  lemma {:induction false} RangeTiled(banks: seq<Bank>, lo: int, hi: int, a: int)
    requires Contiguous(banks) && 0 <= lo && InFlash(banks, hi)
    requires Succeeds(PickFrom(banks, lo, hi)) && Count(PickFrom(banks, lo, hi)) > 0
    ensures ChosenIn(banks, PickFrom(banks, lo, hi), a) <==> lo <= a <= hi
    decreases |banks|
  {
    InFlashBound(banks, hi);
    PickCons(banks, lo, hi);
    var b, p := banks[0], PickFirst(banks, lo, hi);
    PickFacts(b, lo, hi);
    if p.first >= 0 {
      TilesFrom(banks, lo, hi, a);
    } else {
      var ps := PickFrom(banks[1..], lo, hi);
      CountCons(p, ps);
      ChosenCons(banks, p, ps, a);
      if lo <= BankEnd(b) {
        forall k | 0 <= k < |banks[1..]| ensures lo < banks[1..][k].start[0] { BanksAscend(banks, k + 1); }
        NothingAbove(banks[1..], lo, hi);
      } else {
        InFlashRest(banks, hi);
        RangeTiled(banks[1..], lo, hi, a);
      }
    }
  }

  lemma SucceedsRest(p: Pick, ps: seq<Pick>)
    requires Succeeds([p] + ps)
    ensures Succeeds(ps) && !p.error
  {
    assert ([p] + ps)[0] == p;
    forall k | 0 <= k < |ps| ensures !ps[k].error { assert ([p] + ps)[k + 1] == ps[k]; }
  }

  lemma InFlashBound(banks: seq<Bank>, hi: int)
    requires Contiguous(banks) && InFlash(banks, hi)
    ensures 0 <= hi < TWO32
  {
  }

  lemma ContiguousRest(banks: seq<Bank>)
    requires Contiguous(banks) && banks != []
    ensures Contiguous(banks[1..]) && (|banks| > 1 ==> banks[1].start[0] == BankEnd(banks[0]) + 1)
  {
    var rest := banks[1..];
    forall j | 0 <= j < |rest| - 1 ensures BankEnd(rest[j]) + 1 == rest[j + 1].start[0] {
      assert rest[j] == banks[j + 1] && rest[j + 1] == banks[j + 1 + 1];
    }
    if |banks| > 1 { assert BankEnd(banks[0]) + 1 == banks[0 + 1].start[0]; }
  }

  lemma InFlashRest(banks: seq<Bank>, hi: int)
    requires Contiguous(banks) && banks != [] && InFlash(banks, hi) && hi > BankEnd(banks[0])
    ensures banks[1..] != [] && InFlash(banks[1..], hi) && Contiguous(banks[1..]) &&
            hi >= banks[1].start[0] == BankEnd(banks[0]) + 1
  {
    var k :| 0 <= k < |banks| && WellFormed(banks[k]) && banks[k].start[0] <= hi <= BankEnd(banks[k]);
    assert k > 0 && banks[1..][k - 1] == banks[k];
    ContiguousRest(banks);
  }

  /** Once the end of the range is reached, later banks add nothing. */
  lemma LastBank(rest: seq<Bank>, next: int, hi: int, a: int, b: Bank)
    requires (forall k :: 0 <= k < |rest| ==> WellFormed(rest[k])) && 0 <= hi < TWO32 && WellFormed(b) &&
             hi <= BankEnd(b)
    requires next == (hi + 1) % TWO32 && (rest != [] ==> WellFormed(rest[0]) && rest[0].start[0] == BankEnd(b) + 1)
    ensures !ChosenIn(rest, PickFrom(rest, next, hi), a)
  {
    if rest != [] { assert hi + 1 < TWO32; }
  }

  lemma {:induction false} CountConcat(a: seq<Pick>, b: seq<Pick>)
    ensures Count(a + b) == Count(a) + Count(b)
  {
    if a == [] {
      assert a + b == b;
    } else {
      assert (a + b)[1..] == a[1..] + b;
      CountConcat(a[1..], b);
    }
  }

  // Which ranges are accepted

  predicate BeginsIn(b: Bank, a: int) { exists i :: 0 <= i < |b.start| && b.start[i] == a }

  predicate EndsIn(b: Bank, a: int) { exists i: nat :: i < |b.start| && SectorEnd(b, i) == a }

  /** Some sector begins at an address. */
  predicate Begins(banks: seq<Bank>, a: int) { banks != [] && (BeginsIn(banks[0], a) || Begins(banks[1..], a)) }

  /** Some sector ends at an address. */
  predicate Ends(banks: seq<Bank>, a: int) { banks != [] && (EndsIn(banks[0], a) || Ends(banks[1..], a)) }

  lemma {:induction false} BoundariesAre(banks: seq<Bank>, a: int)
    ensures Begins(banks, a) <==> exists k :: 0 <= k < |banks| && BeginsIn(banks[k], a)
    ensures Ends(banks, a) <==> exists k :: 0 <= k < |banks| && EndsIn(banks[k], a)
  {
    if banks != [] {
      var rest := banks[1..];
      BoundariesAre(rest, a);
      forall k | 0 <= k < |rest| ensures rest[k] == banks[k + 1] { }
      if k :| 0 <= k < |banks| && BeginsIn(banks[k], a) { assert k > 0 ==> BeginsIn(rest[k - 1], a); }
      if k :| 0 <= k < |banks| && EndsIn(banks[k], a) { assert k > 0 ==> EndsIn(rest[k - 1], a); }
    }
  }

  /** An address behind the last bank */
  predicate Beyond(banks: seq<Bank>, a: int)
  {
    banks != [] && |banks[|banks| - 1].start| > 0 && a > BankEnd(banks[|banks| - 1])
  }

  /** The range begins with a sector, and it ends with one or behind all banks. */
  predicate Matches(banks: seq<Bank>, lo: int, hi: int)
  {
    lo <= hi && Begins(banks, lo) && (Ends(banks, hi) || Beyond(banks, hi))
  }

  /** Nothing is wrong and something is chosen. */
  predicate Fine(ps: seq<Pick>) { Succeeds(ps) && Count(ps) > 0 }

  /** In contiguous banks a range is accepted exactly if it begins and ends at sector boundaries. */
  lemma {:induction false} FineExactly(banks: seq<Bank>, lo: int, hi: int)
    requires Contiguous(banks) && 0 <= lo && hi < TWO32
    ensures Fine(PickFrom(banks, lo, hi)) <==> Matches(banks, lo, hi)
    decreases |banks|
  {
    if banks != [] && lo <= hi {
      ContiguousRest(banks);
      BeginsIs(banks[0], lo);
      if BeginsIn(banks[0], lo) {
        FineHere(banks, lo, hi);
      } else {
        FineLater(banks, lo, hi);
      }
    }
  }

  lemma BeginsIs(b: Bank, a: int)
    ensures BeginsIn(b, a) <==> BeginsAt(b, a, |b.start|) >= 0
    ensures EndsIn(b, a) <==> EndsAt(b, a, |b.start|) >= 0
  {
  }

  lemma AboveAll(b: Bank, a: int)
    requires WellFormed(b) && a < b.start[0]
    ensures !BeginsIn(b, a) && !EndsIn(b, a)
  {
    forall i: nat | i < |b.start| ensures b.start[i] > a && SectorEnd(b, i) > a { SectorIn(b, i); }
  }

  lemma {:induction false} BehindFirst(banks: seq<Bank>, a: int)
    requires Contiguous(banks) && banks != [] && a <= BankEnd(banks[0])
    ensures !Begins(banks[1..], a) && !Ends(banks[1..], a) && !Beyond(banks, a)
    decreases |banks|
  {
    var rest := banks[1..];
    if rest != [] {
      ContiguousRest(banks);
      SectorIn(rest[0], 0);
      AboveAll(rest[0], a);
      BehindFirst(rest, a);
    }
  }

  predicate Ordered(ps: seq<Pick>)
  {
    ps == [] || ((ps[0].first < 0 || ps[0].first <= ps[0].last) && Ordered(ps[1..]))
  }

  lemma {:induction false} CountBounds(ps: seq<Pick>)
    requires Succeeds(ps) && Ordered(ps)
    ensures Count(ps) >= 0 && (ps != [] && ps[0].first >= 0 ==> Count(ps) > 0)
  {
    if ps != [] {
      assert ps == [ps[0]] + ps[1..];
      SucceedsRest(ps[0], ps[1..]);
      CountBounds(ps[1..]);
    }
  }

  lemma {:induction false} PicksOrdered(banks: seq<Bank>, lo: int, hi: int)
    requires (forall k :: 0 <= k < |banks| ==> WellFormed(banks[k])) && 0 <= lo && hi < TWO32
    requires Succeeds(PickFrom(banks, lo, hi))
    ensures Ordered(PickFrom(banks, lo, hi))
    decreases |banks|
  {
    if banks != [] && lo <= hi {
      PickCons(banks, lo, hi);
      PickFacts(banks[0], lo, hi);
      var p := PickFirst(banks, lo, hi);
      PicksOrdered(banks[1..], p.next, hi);
      var ps := PickFrom(banks[1..], p.next, hi);
      assert ([p] + ps)[1..] == ps;
    }
  }

  lemma FineCons(banks: seq<Bank>, lo: int, hi: int)
    requires (forall k :: 0 <= k < |banks| ==> WellFormed(banks[k])) && banks != [] && 0 <= lo <= hi < TWO32
    ensures var p := PickFirst(banks, lo, hi); var ps := PickFrom(banks[1..], p.next, hi);
      Fine(PickFrom(banks, lo, hi)) <==> !p.error && Succeeds(ps) && (p.first >= 0 || Fine(ps))
  {
    var p := PickFirst(banks, lo, hi);
    var ps := PickFrom(banks[1..], p.next, hi);
    PickFacts(banks[0], lo, hi);
    if !p.error && Succeeds(ps) {
      CountCons(p, ps);
      PicksOrdered(banks[1..], p.next, hi);
      CountBounds(ps);
      assert PickFrom(banks, lo, hi) == [p] + ps;
    } else if Succeeds(PickFrom(banks, lo, hi)) {
      PickCons(banks, lo, hi);
    }
  }

  /** The range begins in the first bank. */
  lemma {:induction false} FineHere(banks: seq<Bank>, lo: int, hi: int)
    requires Contiguous(banks) && banks != [] && 0 <= lo <= hi < TWO32 && BeginsIn(banks[0], lo)
    ensures Fine(PickFrom(banks, lo, hi)) <==> Ends(banks, hi) || Beyond(banks, hi)
    decreases |banks|, 0
  {
    var b, rest := banks[0], banks[1..];
    FineCons(banks, lo, hi);
    if hi <= BankEnd(b) {
      BehindFirst(banks, hi);
      PickHere(b, lo, hi);
      NothingBehind(banks, hi);
    } else {
      PickAll(b, lo, hi);
      if rest != [] {
        ContiguousRest(banks);
        assert rest[0].start[0] == BankEnd(b) + 1;
        FineHere(rest, BankEnd(b) + 1, hi);
        FineFirst(rest, BankEnd(b) + 1, hi);
      }
    }
  }

  /** A range that ends in the bank in which it begins. */
  lemma PickHere(b: Bank, lo: int, hi: int)
    requires WellFormed(b) && 0 <= lo <= hi <= BankEnd(b) && BeginsIn(b, lo)
    ensures var p := PickIn(b, lo, hi);
            p.first >= 0 && (p.error <==> !EndsIn(b, hi)) && (!p.error ==> p.next == (hi + 1) % TWO32)
  {
    BeginsIs(b, lo);
    BeginsIs(b, hi);
    var f, e := BeginsAt(b, lo, |b.start|), EndsAt(b, hi, |b.start|);
    if 0 <= e < f { SectorsApart(b, e, f); }
  }

  /** A range that begins inside a bank but not with a sector is wrong, unless it begins at the last address of the
      bank: that is not noticed, and nothing is chosen there. */
  lemma PickNone(b: Bank, lo: int, hi: int)
    requires WellFormed(b) && b.start[0] <= lo <= BankEnd(b) < hi < TWO32 && !BeginsIn(b, lo)
    ensures var p := PickIn(b, lo, hi); p.first == -1 && p.next == lo && (p.error <==> lo < BankEnd(b))
  {
    BeginsIs(b, lo);
    BeginsIs(b, hi);
    forall i: nat | i < |b.start| ensures SectorEnd(b, i) < hi { SectorIn(b, i); }
  }

  /** A range that goes on behind the bank in which it begins. */
  lemma PickAll(b: Bank, lo: int, hi: int)
    requires WellFormed(b) && 0 <= lo && BankEnd(b) < hi < TWO32 && BeginsIn(b, lo)
    ensures var p := PickIn(b, lo, hi); p.first >= 0 && !p.error && p.next == BankEnd(b) + 1
    ensures !EndsIn(b, hi)
  {
    BeginsIs(b, lo);
    BeginsIs(b, hi);
    forall i: nat | i < |b.start| ensures SectorEnd(b, i) < hi { SectorIn(b, i); }
  }

  lemma NothingBehind(banks: seq<Bank>, hi: int)
    requires Contiguous(banks) && banks != [] && 0 <= hi <= BankEnd(banks[0])
    ensures PickFrom(banks[1..], (hi + 1) % TWO32, hi) == []
  {
    if banks[1..] != [] {
      ContiguousRest(banks);
      SectorIn(banks[1], 0);
      assert hi + 1 < TWO32;
    }
  }

  lemma FineFirst(banks: seq<Bank>, lo: int, hi: int)
    requires Contiguous(banks) && banks != [] && 0 <= lo <= hi < TWO32 && banks[0].start[0] == lo
    ensures Succeeds(PickFrom(banks, lo, hi)) ==> Fine(PickFrom(banks, lo, hi))
  {
    if Succeeds(PickFrom(banks, lo, hi)) {
      PickCons(banks, lo, hi);
      FineCons(banks, lo, hi);
      BeginsFirst(banks[0], |banks[0].start|);
    }
  }

  /** The range does not begin in the first bank. */
  lemma {:induction false} FineLater(banks: seq<Bank>, lo: int, hi: int)
    requires Contiguous(banks) && banks != [] && 0 <= lo <= hi < TWO32 && !BeginsIn(banks[0], lo)
    requires Contiguous(banks[1..])
    ensures Fine(PickFrom(banks, lo, hi)) <==> Matches(banks, lo, hi)
    decreases |banks|, 0
  {
    var b, rest := banks[0], banks[1..];
    FineCons(banks, lo, hi);
    BeginsIs(b, lo);
    BeginsIs(b, hi);
    FineExactly(rest, lo, hi);
    if lo <= BankEnd(b) {
      BehindFirst(banks, lo);
    } else {
      forall i: nat | i < |b.start| ensures SectorEnd(b, i) < lo { SectorIn(b, i); }
      assert !EndsIn(b, hi) && PickFirst(banks, lo, hi) == Pick(-1, -1, false, lo);
      if rest != [] { assert rest[|rest| - 1] == banks[|banks| - 1]; }
      assert rest != [] ==> (Beyond(banks, hi) <==> Beyond(rest, hi));
      assert Begins(banks, lo) <==> Begins(rest, lo);
    }
  }

  lemma FineIs(banks: seq<Bank>, lo: int, hi: int)
    requires (forall k :: 0 <= k < |banks| ==> WellFormed(banks[k])) && 0 <= lo && hi < TWO32
    ensures var ps := PickFrom(banks, lo, hi); Succeeds(ps) && Count(ps) != 0 <==> Fine(ps)
    ensures Contiguous(banks) ==> (Fine(PickFrom(banks, lo, hi)) <==> Matches(banks, lo, hi))
  {
    var ps := PickFrom(banks, lo, hi);
    if Succeeds(ps) {
      PicksOrdered(banks, lo, hi);
      CountBounds(ps);
    }
    if Contiguous(banks) { FineExactly(banks, lo, hi); }
  }

  /** The banks whose flash was identified */
  function Known(banks: seq<Bank>): seq<Bank>
  {
    if banks == [] then [] else (if banks[0].known then [banks[0]] else []) + Known(banks[1..])
  }

  /** The other banks make no difference. */
  lemma {:induction false} UnknownSkipped(banks: seq<Bank>, lo: int, hi: int)
    requires (forall k :: 0 <= k < |banks| ==> WellFormed(banks[k])) && 0 <= lo && hi < TWO32
    ensures forall k :: 0 <= k < |Known(banks)| ==> WellFormed(Known(banks)[k])
    ensures Succeeds(PickFrom(banks, lo, hi)) <==> Succeeds(PickFrom(Known(banks), lo, hi))
    ensures Fine(PickFrom(banks, lo, hi)) <==> Fine(PickFrom(Known(banks), lo, hi))
    decreases |banks|
  {
    if banks != [] {
      var p, known := PickFirst(banks, lo, hi), Known(banks);
      PickNext(banks, lo, hi);
      UnknownSkipped(banks[1..], if lo <= hi then p.next else lo, hi);
      if banks[0].known {
        assert known[1..] == Known(banks[1..]);
        if lo <= hi {
          FineCons(known, lo, hi);
          SucceedsCons(known, lo, hi);
        }
      } else {
        assert known == Known(banks[1..]);
      }
      if lo <= hi {
        FineCons(banks, lo, hi);
        SucceedsCons(banks, lo, hi);
      }
    }
  }

  lemma PickNext(banks: seq<Bank>, lo: int, hi: int)
    requires banks != [] && WellFormed(banks[0]) && 0 <= lo && hi < TWO32
    ensures PickFirst(banks, lo, hi).next >= 0
  {
  }

  lemma SucceedsCons(banks: seq<Bank>, lo: int, hi: int)
    requires (forall k :: 0 <= k < |banks| ==> WellFormed(banks[k])) && banks != [] && lo <= hi
    ensures var p := PickFirst(banks, lo, hi);
      Succeeds(PickFrom(banks, lo, hi)) <==> !p.error && Succeeds(PickFrom(banks[1..], p.next, hi))
  {
    var p := PickFirst(banks, lo, hi);
    if Succeeds(PickFrom(banks, lo, hi)) { PickCons(banks, lo, hi); }
  }

  /** A sector of bank k was chosen. */
  predicate IsChosen(ps: seq<Pick>, k: nat, i: nat)
  {
    k < |ps| && 0 <= ps[k].first <= i <= ps[k].last
  }

  /** In contiguous banks, the sectors chosen without an error are those inside the range. */
  lemma SectorsTiled(banks: seq<Bank>, lo: int, hi: int, k: nat, i: nat)
    requires Contiguous(banks) && 0 <= lo && InFlash(banks, hi) && Fine(PickFrom(banks, lo, hi))
    requires k < |banks| && i < |banks[k].start|
    ensures IsChosen(PickFrom(banks, lo, hi), k, i) <==> lo <= banks[k].start[i] && SectorEnd(banks[k], i) <= hi
  {
    var ps, a, z := PickFrom(banks, lo, hi), banks[k].start[i], SectorEnd(banks[k], i);
    RangeTiled(banks, lo, hi, a);
    RangeTiled(banks, lo, hi, z);
    SectorIn(banks[k], i);
    if IsChosen(ps, k, i) {
      PickBounds(banks, lo, hi, k);
      NextAfter(banks[k], i, ps[k].last);
      NextAfter(banks[k], ps[k].first, i);
      EndsOrdered(banks[k], i, ps[k].last);
      StartsOrdered(banks[k], ps[k].first, i);
      assert Chosen(banks[k], ps[k], a) && Chosen(banks[k], ps[k], z);
    }
    if lo <= a && z <= hi {
      var j :| 0 <= j < |ps| && j < |banks| && Chosen(banks[j], ps[j], a);
      SameBank(banks, j, k, a, ps[j].first, ps[j].last);
      Between(banks[k], ps[k].first, ps[k].last, i);
    }
  }

  lemma AllTiled(banks: seq<Bank>, lo: int, hi: int)
    requires Contiguous(banks) && 0 <= lo && InFlash(banks, hi) && Fine(PickFrom(banks, lo, hi))
    ensures forall k: nat, i: nat {:trigger IsChosen(PickFrom(banks, lo, hi), k, i)} ::
              k < |banks| && i < |banks[k].start| ==>
                (IsChosen(PickFrom(banks, lo, hi), k, i) <==>
                 lo <= banks[k].start[i] && SectorEnd(banks[k], i) <= hi)
  {
    forall k: nat, i: nat | k < |banks| && i < |banks[k].start|
      ensures IsChosen(PickFrom(banks, lo, hi), k, i) <==> lo <= banks[k].start[i] && SectorEnd(banks[k], i) <= hi
    {
      SectorsTiled(banks, lo, hi, k, i);
    }
  }

  lemma Between(b: Bank, first: nat, last: nat, i: nat)
    requires WellFormed(b) && first < |b.start| && last < |b.start| && i < |b.start|
    requires b.start[first] <= b.start[i] <= SectorEnd(b, last)
    ensures first <= i <= last
  {
    if i < first { SectorsApart(b, i, first); }
    if last < i { SectorsApart(b, last, i); }
  }

  lemma StartsOrdered(b: Bank, i: nat, j: nat)
    requires WellFormed(b) && i <= j < |b.start|
    ensures b.start[i] <= b.start[j]
  {
  }

  lemma EndsOrdered(b: Bank, i: nat, j: nat)
    requires WellFormed(b) && i <= j < |b.start|
    ensures SectorEnd(b, i) <= SectorEnd(b, j)
  {
    if i < j { SectorsApart(b, i, j); }
  }

  /** An address between two sectors of a bank and in another bank: they are the same bank. */
  lemma SameBank(banks: seq<Bank>, j: nat, k: nat, a: int, first: nat, last: nat)
    requires Contiguous(banks) && j < |banks| && k < |banks| && banks[k].start[0] <= a <= BankEnd(banks[k])
    requires first < |banks[j].start| && last < |banks[j].start|
    requires banks[j].start[first] <= a <= SectorEnd(banks[j], last)
    ensures j == k
  {
    SectorIn(banks[j], first);
    SectorIn(banks[j], last);
    if j < k { BankOrder(banks, j, k); }
    if k < j { BankOrder(banks, k, j); }
  }

  /** The sectors that are chosen exist. */
  lemma {:induction false} PickBounds(banks: seq<Bank>, lo: int, hi: int, k: nat)
    requires (forall j :: 0 <= j < |banks| ==> WellFormed(banks[j])) && k < |PickFrom(banks, lo, hi)|
    ensures PickFrom(banks, lo, hi)[k].last < |banks[k].start|
    decreases |banks|
  {
    if k > 0 {
      var p := PickFirst(banks, lo, hi);
      PickBounds(banks[1..], p.next, hi, k - 1);
    }
  }

  lemma ChosenSnoc(banks: seq<Bank>, ps: seq<Pick>, k: nat, a: int)
    requires k < |ps| <= |banks|
    ensures ChosenIn(banks, ps[..k + 1], a) <==> ChosenIn(banks, ps[..k], a) || Chosen(banks[k], ps[k], a)
  {
    var q, r := ps[..k], ps[..k + 1];
    if j :| 0 <= j < |r| && j < |banks| && Chosen(banks[j], r[j], a) { if j < k { assert q[j] == r[j]; } }
    if j :| 0 <= j < |q| && j < |banks| && Chosen(banks[j], q[j], a) { assert r[j] == q[j]; }
    if Chosen(banks[k], ps[k], a) { assert r[k] == ps[k]; }
  }

  /** The byte at an address; flash that was never written reads as erased. */
  function At(m: map<int, int>, a: int): int { if a in m then m[a] else 0xFF }

  function Put(m: map<int, int>, a: int, v: int): (r: map<int, int>)
    ensures forall x {:trigger At(r, x)} :: At(r, x) == if x == a then v else At(m, x)
  {
    m[a := v]
  }

  /** The bytes s were written at an address, and nothing else. */
  ghost predicate Wrote(m: map<int, int>, m': map<int, int>, addr: int, s: seq<int>)
  {
    forall a {:trigger At(m', a)} :: At(m', a) == if addr <= a < addr + |s| then s[a - addr] else At(m, a)
  }

  lemma WroteMore(m: map<int, int>, m1: map<int, int>, m2: map<int, int>, addr: int, s: seq<int>, i: nat, j: nat)
    requires i <= j <= |s| && Wrote(m, m1, addr, s[..i]) && Wrote(m1, m2, addr + i, s[i..j])
    ensures Wrote(m, m2, addr, s[..j])
  {
    forall a ensures At(m2, a) == if addr <= a < addr + j then s[..j][a - addr] else At(m, a) {
      assert At(m1, a) == if addr <= a < addr + i then s[..i][a - addr] else At(m, a);
    }
  }

  /** The bytes from lo to hi are the same. */
  predicate SameBytes(m: map<int, int>, m': map<int, int>, lo: int, hi: int)
  {
    forall a {:trigger At(m', a)} :: lo <= a <= hi ==> At(m', a) == At(m, a)
  }

  // ---- writing -------------------------------------------------------------------------------------------

  /** Sector i has an address in common with the range. */
  predicate Overlaps(b: Bank, i: nat, addr: int, end: int)
    requires i < |b.start|
  {
    b.start[i] <= end && addr <= SectorEnd(b, i)
  }

  /** The test of flash_write, where the end of the bank may wrap to 0. */
  predicate Touched(b: Bank, i: nat, addr: int, end: int)
    requires i < |b.start|
  {
    end >= b.start[i] && addr < if i == |b.start| - 1 then (b.start[0] + b.size) % TWO32 else b.start[i + 1]
  }

  /** It is right exactly when the sector does not end at the end of the address space. */
  lemma TouchedIs(b: Bank, i: nat, addr: int, end: int)
    requires WellFormed(b) && i < |b.start| && 0 <= addr
    ensures SectorEnd(b, i) < TWO32 - 1 ==> (Touched(b, i, addr, end) <==> Overlaps(b, i, addr, end))
    ensures SectorEnd(b, i) == TWO32 - 1 ==> !Touched(b, i, addr, end)
  {
    SectorIn(b, i);
    if i + 1 < |b.start| { SectorsApart(b, i, i + 1); }
  }

  predicate InBank(b: Bank, a: int)
    requires WellFormed(b)
  {
    b.start[0] <= a <= BankEnd(b)
  }

  lemma {:induction false} BankOrder(banks: seq<Bank>, j: nat, k: nat)
    requires Contiguous(banks) && j < k < |banks|
    ensures BankEnd(banks[j]) < banks[k].start[0] && banks[j].start[0] < banks[k].start[0]
    decreases k
  {
    SectorIn(banks[j], 0);
    assert BankEnd(banks[k - 1]) + 1 == banks[k - 1 + 1].start[0];
    if j < k - 1 {
      BankOrder(banks, j, k - 1);
      SectorIn(banks[k - 1], 0);
    }
  }

  datatype Op = Write(src: seq<int>, addr: int) | Protect(set_: bool, from: int, to: int, bank: nat)

  class Flash {
    const banks: seq<Bank>
    /** `protect` of every sector of every bank */
    var protect: seq<seq<bool>>
    var mem: map<int, int>
    /** Result of the n-th call of `write_buff` or `flash_erase`, and what a failing call leaves behind. */
    const result: nat -> int
    const junk: (nat, int) -> int
    var calls: nat

    /** No call of `write_buff` or `flash_erase` from now on fails. */
    ghost predicate Works()
      reads this`calls
    {
      forall n: nat {:trigger result(n)} :: n >= calls ==> result(n) == 0
    }

    ghost predicate Valid()
      reads this`protect
    {
      && (forall k :: 0 <= k < |banks| ==> WellFormed(banks[k])) && |protect| == |banks|
      && forall k {:trigger protect[k]} :: 0 <= k < |banks| ==> |protect[k]| == |banks[k].start|
    }

    constructor (banks: seq<Bank>, mem: map<int, int>, result: nat -> int, junk: (nat, int) -> int)
      requires forall k :: 0 <= k < |banks| ==> WellFormed(banks[k])
      ensures Valid() && this.banks == banks && this.mem == mem && this.result == result && calls == 0
    {
      this.banks, this.mem, this.result, this.junk, calls := banks, mem, result, junk, 0;
      protect := seq(|banks|, k requires 0 <= k < |banks| => seq(|banks[k].start|, _ => false));
    }

    // ---- cmd_flash.c ----

    /** The sectors of a bank at which the range begins and ends (lines 130-146) */
    method ScanBank(b: Bank, lo: int, hi: int) returns (f: int, l: int)
      requires WellFormed(b) && lo <= hi
      ensures f == BeginsAt(b, lo, |b.start|) && l == EndsAt(b, hi, |b.start|)
    {
      f, l := -1, -1;
      for i := 0 to |b.start|
        invariant f == BeginsAt(b, lo, i) && l == EndsAt(b, hi, i)
      {
        SectorIn(b, i);
        var end := if i == |b.start| - 1 then BankEnd(b) else b.start[i + 1] - 1;
        if lo > end {
          continue;
        }
        if hi < b.start[i] {
          continue;
        }
        if lo == b.start[i] {
          f := i;
        }
        if hi == end {
          l := i;
        }
      }
    }

    /** What flash_fill_sect_ranges does with one bank (lines 126-178) */
    method FillBank(b: Bank, lo: int, hi: int) returns (p: Pick)
      requires WellFormed(b) && lo <= hi
      ensures p == PickIn(b, lo, hi)
    {
      var f, l := ScanBank(b, lo, hi);
      if f >= 0 {
        if l < 0 {
          if hi > BankEnd(b) {
            l := |b.start| - 1;
          } else {
            return Pick(f, l, true, lo);
          }
        }
        if l < f {
          return Pick(f, l, true, lo);
        }
        p := Pick(f, l, false, (if l == |b.start| - 1 then BankEnd(b) + 1 else b.start[l + 1]) % TWO32);
      } else if lo >= b.start[0] && lo < BankEnd(b) {
        p := Pick(-1, l, true, lo);
      } else if l >= 0 {
        p := Pick(-1, l, true, lo);
      } else {
        p := Pick(-1, -1, false, lo);
      }
    }

    /** `flash_fill_sect_ranges` (lines 99-182) */
    method FillSectRanges(lo0: int, hi: int) returns (ps: seq<Pick>, rcode: int, count: int)
      requires Valid()
      ensures ps == PickFrom(banks, lo0, hi) && rcode == (if Succeeds(ps) then 0 else 1) && count == Count(ps)
      ensures Contiguous(banks) && 0 <= lo0 && hi < TWO32 ==> (rcode == 0 && count != 0 <==> Matches(banks, lo0, hi))
    {
      if 0 <= lo0 && hi < TWO32 { FineIs(banks, lo0, hi); }
      var lo, b := lo0, 0;
      ps, rcode, count := [], 0, 0;
      assert banks[0..] == banks;
      while b < |banks| && lo <= hi
        invariant 0 <= b <= |banks| && Succeeds(ps) && count == Count(ps)
        invariant PickFrom(banks, lo0, hi) == ps + PickFrom(banks[b..], lo, hi)
        decreases |banks| - b
      {
        PickRest(banks, b, lo, hi);
        var p := Pick(-1, -1, false, lo);
        if banks[b].known {
          p := FillBank(banks[b], lo, hi);
        }
        PickAppend(ps, p, PickFrom(banks[b + 1..], p.next, hi));
        assert !p.error ==> PickFrom(banks, lo0, hi) == ps + [p] + PickFrom(banks[b + 1..], p.next, hi);
        ps := ps + [p];
        if p.error {
          assert ps[|ps| - 1] == p;
          return ps, 1, count;
        }
        if p.first >= 0 {
          count := count + p.last - p.first + 1;
        }
        lo := p.next;
        b := b + 1;
      }
    }

    /** Sets or clears the protection of some sectors of a bank (lines 520-528). */
    method SetProtect(k: nat, first: nat, last: nat, p: bool)
      requires Valid() && k < |banks| && first <= last < |banks[k].start|
      modifies this`protect
      ensures Valid() && forall j :: 0 <= j < |banks| && j != k ==> protect[j] == old(protect)[j]
      ensures forall i {:trigger protect[k][i]} ::
                0 <= i < |banks[k].start| ==> protect[k][i] == if first <= i <= last then p else old(protect)[k][i]
    {
      for i := first to last + 1
        invariant Valid() && forall j :: 0 <= j < |banks| && j != k ==> protect[j] == old(protect)[j]
        invariant forall j {:trigger protect[k][j]} ::
                    0 <= j < |banks[k].start| ==> protect[k][j] == if first <= j < i then p else old(protect)[k][j]
      {
        protect := protect[k := protect[k][i := p]];
      }
    }

    /** The loop of flash_sect_protect over the banks (lines 508-530) */
    method ProtectPicks(picks: seq<Pick>, p: bool, lo: int, hi: int)
      requires Valid() && picks == PickFrom(banks, lo, hi)
      modifies this`protect
      ensures Valid() && forall k: nat, i: nat :: k < |banks| && i < |banks[k].start| ==>
                protect[k][i] == if banks[k].known && IsChosen(picks, k, i) then p else old(protect)[k][i]
    {
      for k := 0 to |picks|
        invariant Valid()
        invariant forall j: nat, i: nat :: j < |banks| && i < |banks[j].start| ==>
                    protect[j][i] == if j < k && banks[j].known && IsChosen(picks, j, i) then p else old(protect)[j][i]
      {
        PickBounds(banks, lo, hi, k);
        if banks[k].known && picks[k].first >= 0 && picks[k].first <= picks[k].last {
          SetProtect(k, picks[k].first, picks[k].last, p);
        }
      }
    }

    /** `flash_sect_protect` (lines 494-541): sets or clears exactly the sectors of the range. */
    method FlashSectProtect(p: bool, lo: int, hi: int) returns (rcode: int, ghost ps: seq<Pick>)
      requires Valid() && 0 <= lo && hi < TWO32
      modifies this`protect
      ensures Valid() && ps == PickFrom(banks, lo, hi) && rcode == (if Succeeds(ps) && Count(ps) != 0 then 0 else 1)
      ensures forall k: nat, i: nat :: k < |banks| && i < |banks[k].start| ==>
                protect[k][i] == if rcode == 0 && banks[k].known && IsChosen(ps, k, i) then p else old(protect)[k][i]
      ensures Contiguous(banks) ==> (rcode == 0 <==> Matches(banks, lo, hi))
      ensures Contiguous(banks) && InFlash(banks, hi) && rcode == 0 ==>
                forall k: nat, i: nat :: k < |banks| && i < |banks[k].start| ==>
                  protect[k][i] ==
                    if lo <= banks[k].start[i] && SectorEnd(banks[k], i) <= hi then p else old(protect)[k][i]
    {
      var picks, rc, planned := FillSectRanges(lo, hi);
      ps := picks;
      if planned == 0 || rc != 0 {
        return 1, picks;
      }
      ProtectPicks(picks, p, lo, hi);
      rcode := 0;
      if Contiguous(banks) && InFlash(banks, hi) {
        FineIs(banks, lo, hi);
        AllTiled(banks, lo, hi);
      }
    }

    /** What was chosen so far is erased, all else is as in m. */
    ghost predicate ErasedIn(m: map<int, int>, banks: seq<Bank>, ps: seq<Pick>)
      reads this`mem
    {
      forall a {:trigger At(mem, a)} :: At(mem, a) == if ChosenIn(banks, ps, a) then 0xFF else At(m, a)
    }

    lemma ChosenPrefix(banks: seq<Bank>, ps: seq<Pick>, k: nat)
      requires k <= |ps|
      ensures forall a :: ChosenIn(banks, ps[..k], a) ==> ChosenIn(banks, ps, a)
    {
      forall a | ChosenIn(banks, ps[..k], a) ensures ChosenIn(banks, ps, a) {
        var j :| 0 <= j < |ps[..k]| && j < |banks| && Chosen(banks[j], ps[..k][j], a);
        assert Chosen(banks[j], ps[j], a);
      }
    }

    /** The contract of `flash_erase`: erases the bytes of the sectors, or fails with a code and may have changed
        them; all others are as before. */
    method FlashErase(k: nat, first: nat, last: nat) returns (rc: int)
      requires Valid() && k < |banks| && first <= last < |banks[k].start|
      modifies this`mem, this`calls
      ensures calls == old(calls) + 1 && rc == result(old(calls))
      ensures forall a :: !(banks[k].start[first] <= a <= SectorEnd(banks[k], last)) ==> At(mem, a) == At(old(mem), a)
      ensures rc == 0 ==> forall a :: banks[k].start[first] <= a <= SectorEnd(banks[k], last) ==> At(mem, a) == 0xFF
    {
      rc := result(calls);
      var n, lo, hi := calls, banks[k].start[first], SectorEnd(banks[k], last);
      calls := calls + 1;
      if rc == 0 {
        mem := map a | a in mem && !(lo <= a <= hi) :: mem[a];
      } else {
        mem := mem + map a | lo <= a <= hi :: junk(n, a);
      }
    }

    /** `flash_sect_erase` (lines 315-350): erases exactly what is chosen, up to the first failure. */
    method FlashSectErase(lo: int, hi: int) returns (rcode: int, ghost ps: seq<Pick>)
      requires Valid() && 0 <= lo && hi < TWO32
      modifies this`mem, this`calls
      ensures ps == PickFrom(banks, lo, hi)
      ensures !(Succeeds(ps) && Count(ps) != 0) ==> rcode == 1 && mem == old(mem)
      ensures Succeeds(ps) && Count(ps) != 0 && old(Works()) ==> rcode == 0
      ensures forall a :: !ChosenIn(banks, ps, a) ==> At(mem, a) == At(old(mem), a)
      ensures rcode == 0 ==> forall a :: ChosenIn(banks, ps, a) ==> At(mem, a) == 0xFF
      ensures Contiguous(banks) && old(Works()) ==> (rcode == 0 <==> Matches(banks, lo, hi))
      ensures Contiguous(banks) && !Matches(banks, lo, hi) ==> rcode == 1 && mem == old(mem)
      ensures Contiguous(banks) && InFlash(banks, hi) && rcode == 0 ==>
                forall a :: At(mem, a) == if lo <= a <= hi then 0xFF else At(old(mem), a)
    {
      var picks, rc, planned := FillSectRanges(lo, hi);
      ps := picks;
      if planned == 0 || rc != 0 {
        return 1, picks;
      }
      rcode := 0;
      for k := 0 to |picks|
        invariant calls >= old(calls) && rcode == 0
        invariant ErasedIn(old(mem), banks, ps[..k])
      {
        PickBounds(banks, lo, hi, k);
        ghost var m := mem;
        if 0 <= picks[k].first <= picks[k].last {
          rcode := FlashErase(k, picks[k].first, picks[k].last);
        }
        forall a | !ChosenIn(banks, ps[..k + 1], a) ensures At(mem, a) == At(old(mem), a) {
          ChosenSnoc(banks, ps, k, a);
        }
        if rcode != 0 {
          ChosenPrefix(banks, ps, k + 1);
          return;
        }
        forall a | ChosenIn(banks, ps[..k + 1], a) ensures At(mem, a) == 0xFF {
          ChosenSnoc(banks, ps, k, a);
          assert At(m, a) == 0xFF || !ChosenIn(banks, ps[..k], a);
        }
      }
      assert ps[..|picks|] == ps;
      if Contiguous(banks) && InFlash(banks, hi) {
        FineIs(banks, lo, hi);
        forall a ensures ChosenIn(banks, ps, a) <==> lo <= a <= hi { RangeTiled(banks, lo, hi, a); }
      }
    }

    // ---- flash.c ----

    /** `flash_protect` (lines 48-100): sets or clears every sector that the range touches. */
    method FlashProtect(set_: bool, from: int, to: int, k: nat)
      requires Valid() && k < |banks|
      modifies this`protect
      ensures Valid() && forall j :: 0 <= j < |banks| && j != k ==> protect[j] == old(protect)[j]
      ensures forall i {:trigger protect[k][i]} :: 0 <= i < |banks[k].start| ==>
                protect[k][i] ==
                  if banks[k].known && from <= to && Overlaps(banks[k], i, from, to) then set_ else old(protect)[k][i]
    {
      var b := banks[k];
      if to < from {
        return;
      }
      if !b.known || to < b.start[0] || from > BankEnd(b) {
        OutOfBank(b, from, to);
        return;
      }
      for i := 0 to |b.start|
        invariant Valid() && forall j :: 0 <= j < |banks| && j != k ==> protect[j] == old(protect)[j]
        invariant forall j {:trigger protect[k][j]} ::
                    0 <= j < |b.start| ==>
                      protect[k][j] == if j < i && Overlaps(b, j, from, to) then set_ else old(protect)[k][j]
      {
        var end := if i == |b.start| - 1 then BankEnd(b) else b.start[i + 1] - 1;
        if from <= end && to >= b.start[i] {
          protect := protect[k := protect[k][i := set_]];
        }
      }
    }

    lemma OutOfBank(b: Bank, from: int, to: int)
      requires WellFormed(b)
      ensures to < b.start[0] || from > BankEnd(b) ==> forall i :: 0 <= i < |b.start| ==> !Overlaps(b, i, from, to)
    {
      forall i | 0 <= i < |b.start| ensures b.start[0] <= b.start[i] && SectorEnd(b, i) <= BankEnd(b) {
        SectorIn(b, i);
      }
    }

    /** Bank k has the address; -1: none that is known has it. */
    ghost predicate Found(k: int, a: int)
      requires Valid()
      reads this`protect
    {
      if k >= 0 then k < |banks| && banks[k].known && InBank(banks[k], a)
      else k == -1 && forall j :: 0 <= j < |banks| ==> !(banks[j].known && InBank(banks[j], a))
    }

    /** `addr2info` (lines 105-127): the first bank with the address, -1 if there is none */
    method Addr2Info(a: int) returns (k: int)
      requires Valid()
      ensures -1 <= k < |banks| && Found(k, a)
      ensures forall j :: 0 <= j < k ==> !(banks[j].known && InBank(banks[j], a))
    {
      for i := 0 to |banks|
        invariant forall j :: 0 <= j < i ==> !(banks[j].known && InBank(banks[j], a))
      {
        if banks[i].known && a >= banks[i].start[0] && a <= BankEnd(banks[i]) {
          return i;
        }
      }
      return -1;
    }

    ghost predicate SectorBlocks(k: nat, i: nat, addr: int, end: int)
      reads this`protect
    {
      k < |banks| && i < |banks[k].start| && k < |protect| && i < |protect[k]| && protect[k][i] &&
      Touched(banks[k], i, addr, end)
    }

    ghost predicate HitBetween(first: nat, last: nat, addr: int, end: int)
      reads this`protect
    {
      exists k: nat, i: nat :: first <= k <= last && SectorBlocks(k, i, addr, end)
    }

    /** Is a protected sector hit in one of the banks? (lines 164-175) */
    method HitsProtected(first: nat, last: nat, addr: int, end: int) returns (r: bool)
      requires Valid() && last < |banks|
      ensures r <==> HitBetween(first, last, addr, end)
    {
      var k := first;
      while k <= last
        invariant first <= k && forall j: nat, i: nat :: first <= j < k && j <= last ==> !SectorBlocks(j, i, addr, end)
      {
        for i := 0 to |banks[k].start|
          invariant forall j: nat :: j < i ==> !SectorBlocks(k, j, addr, end)
        {
          if Touched(banks[k], i, addr, end) && protect[k][i] {
            assert SectorBlocks(k, i, addr, end);
            return true;
          }
        }
        k := k + 1;
      }
      return false;
    }

    /** The contract of `write_buff`: writes the bytes, or fails with a code and may have changed them. */
    method WriteBuff(src: seq<int>, addr: int) returns (rc: int)
      modifies this`mem, this`calls
      ensures forall a {:trigger At(mem, a)} :: !(addr <= a < addr + |src|) ==> At(mem, a) == At(old(mem), a)
      ensures rc == 0 ==> Wrote(old(mem), mem, addr, src)
      ensures calls == old(calls) + 1 && rc == result(old(calls))
    {
      rc := result(calls);
      var n := calls;
      calls := calls + 1;
      for i := 0 to |src|
        invariant calls == n + 1 && forall a :: !(addr <= a < addr + i) ==> At(mem, a) == At(old(mem), a)
        invariant rc == 0 ==> forall a :: addr <= a < addr + i ==> At(mem, a) == src[a - addr]
      {
        mem := Put(mem, addr + i, if rc == 0 then src[i] else junk(n, addr + i));
      }
    }

    /** Banks without gaps; a range that does not wrap. */
    ghost predicate Plain(addr: int, cnt: int)
    {
      Tidy(banks, |banks|) && 0 <= addr && 0 < cnt && addr + cnt <= TWO32
    }

    lemma PlainIs(addr: int, cnt: int)
      ensures Plain(addr, cnt) <==> Contiguous(banks) && 0 <= addr && 0 < cnt && addr + cnt <= TWO32
    {
      assert banks[..|banks|] == banks;
      if Tidy(banks, |banks|) { TidyIs(banks, |banks|); }
      if Contiguous(banks) { ContiguousIsTidy(banks, |banks|); }
    }

    /** The rest of a range that ends in bank `last`, still to be written from cur on, goes on in bank info. */
    ghost predicate GoesOn(info: nat, last: nat, cur: int, left: nat, addr: int)
      requires Valid()
      reads this`protect
    {
      && last < |banks| && addr <= cur && Plain(addr, cur - addr + left) && InBank(banks[last], cur + left - 1)
      && (left > 0 ==> info <= last && InBank(banks[info], cur))
    }

    /** How much of the rest goes to a bank (lines 181-185) */
    method PartLength(info: nat, cur: int, left: nat, ghost last: nat, ghost addr: int) returns (len: nat)
      requires Valid() && info <= last < |banks| && left > 0
      ensures len <= left &&
              (GoesOn(info, last, cur, left, addr) ==> GoesOn(info + 1, last, cur + len, left - len, addr))
    {
      len := (banks[info].start[0] + banks[info].size - cur) % TWO32;
      if GoesOn(info, last, cur, left, addr) { StepBank(info, last, addr, cur - addr + left, cur); }
      if len > left {
        len := left;
      }
    }

    /** Writes what belongs to one bank (lines 181-189). */
    method WritePart(info: nat, ghost last: nat, src: seq<int>, addr: int, done: nat, ghost m: map<int, int>)
        returns (rc: int, len: nat)
      requires Valid() && info <= last < |banks| && done < |src| && Wrote(m, mem, addr, src[..done])
      modifies this`mem, this`calls
      ensures done + len <= |src| &&
              forall a {:trigger At(mem, a)} :: !(addr <= a < addr + |src|) ==> At(mem, a) == At(m, a)
      ensures rc == 0 ==> Wrote(m, mem, addr, src[..done + len])
      ensures calls == old(calls) + 1 && rc == result(old(calls))
      ensures GoesOn(info, last, addr + done, |src| - done, addr) ==>
                GoesOn(info + 1, last, addr + done + len, |src| - done - len, addr)
    {
      len := PartLength(info, addr + done, |src| - done, last, addr);
      ghost var m1 := mem;
      rc := WriteBuff(src[done..done + len], addr + done);
      if rc == 0 { WroteMore(m, m1, mem, addr, src, done, done + len); }
    }

    /** "finally write data to flash" (lines 177-193) */
    method WriteOut(first: nat, last: nat, src: seq<int>, addr: int) returns (rc: int)
      requires Valid() && first < |banks| && last < |banks|
      modifies this`mem, this`calls
      ensures forall a {:trigger At(mem, a)} :: !(addr <= a < addr + |src|) ==> At(mem, a) == At(old(mem), a)
      ensures rc == 0 && first <= last && GoesOn(first, last, addr, |src|, addr) ==> Wrote(old(mem), mem, addr, src)
      ensures old(Works()) ==> rc == ERR_OK
      ensures last < first ==> rc == ERR_OK && mem == old(mem)
    {
      var info, done := first, 0;
      rc := ERR_OK;
      while info <= last && done < |src|
        invariant first <= info && calls >= old(calls) && (last < first ==> mem == old(mem))
        invariant 0 <= done <= |src| && Wrote(old(mem), mem, addr, src[..done])
        invariant GoesOn(first, last, addr, |src|, addr) ==> GoesOn(info, last, addr + done, |src| - done, addr)
        decreases last + 1 - info
      {
        var len;
        rc, len := WritePart(info, last, src, addr, done, old(mem));
        if rc != 0 {
          return;
        }
        done, info := done + len, info + 1;
      }
      rc := ERR_OK;
      assert done == |src| ==> src[..done] == src;
    }

    lemma RestOfBank(b: Bank, cur: int)
      requires WellFormed(b) && InBank(b, cur)
      ensures (b.start[0] + b.size - cur) % TWO32 == BankEnd(b) + 1 - cur > 0
    {
      assert 0 < b.start[0] + b.size - cur < TWO32;
    }

    lemma NextBank(info: nat, last: nat, addr: int, cnt: int)
      requires Valid() && info < last < |banks| && Plain(addr, cnt) && InBank(banks[last], addr + cnt - 1)
      ensures BankEnd(banks[info]) + 1 < addr + cnt && InBank(banks[info + 1], BankEnd(banks[info]) + 1)
    {
      PlainIs(addr, cnt);
      BankOrder(banks, info, last);
      SectorIn(banks[info + 1], 0);
      assert BankEnd(banks[info]) + 1 == banks[info + 1].start[0];
    }

    lemma StepBank(info: nat, last: nat, addr: int, cnt: int, cur: int)
      requires Valid() && info <= last < |banks| && Plain(addr, cnt) && addr <= cur < addr + cnt &&
               InBank(banks[info], cur) && InBank(banks[last], addr + cnt - 1)
      ensures (banks[info].start[0] + banks[info].size - cur) % TWO32 == BankEnd(banks[info]) + 1 - cur > 0
      ensures info == last ==> addr + cnt <= BankEnd(banks[info]) + 1
      ensures info < last ==> BankEnd(banks[info]) + 1 < addr + cnt && InBank(banks[info + 1], BankEnd(banks[info]) + 1)
    {
      RestOfBank(banks[info], cur);
      if info < last { NextBank(info, last, addr, cnt); }
    }

    /** A protected sector that does not end at the last address has an address in common with the range. */
    ghost predicate Blocked(addr: int, end: int)
      reads this`protect
    {
      exists k: nat, i: nat :: Hit(k, i, addr, end)
    }

    ghost predicate Hit(k: nat, i: nat, addr: int, end: int)
      reads this`protect
    {
      k < |banks| && i < |banks[k].start| && k < |protect| && i < |protect[k]| && protect[k][i]
      && Overlaps(banks[k], i, addr, end) && SectorEnd(banks[k], i) < TWO32 - 1
    }

    lemma HitIs(k: nat, i: nat, addr: int, cnt: int)
      requires Valid() && Plain(addr, cnt)
      ensures Hit(k, i, addr, addr + cnt - 1) <==> SectorBlocks(k, i, addr, addr + cnt - 1)
    {
      PlainIs(addr, cnt);
      if k < |banks| && i < |banks[k].start| {
        SectorIn(banks[k], i);
        TouchedIs(banks[k], i, addr, addr + cnt - 1);
      }
    }

    lemma HitInside(k: nat, i: nat, first: nat, last: nat, addr: int, cnt: int)
      requires Valid() && Plain(addr, cnt) && first < |banks| && last < |banks| && InBank(banks[first], addr) &&
               InBank(banks[last], addr + cnt - 1)
      requires Hit(k, i, addr, addr + cnt - 1)
      ensures first <= k <= last
    {
      PlainIs(addr, cnt);
      SectorIn(banks[k], i);
      if k < first { BankOrder(banks, k, first); }
      if last < k { BankOrder(banks, last, k); }
    }

    /** In plain banks, the test of the banks from the first to the last finds every protected sector. */
    lemma BlockedIs(first: nat, last: nat, addr: int, cnt: int)
      requires Valid() && Plain(addr, cnt) && first < |banks| && last < |banks| && InBank(banks[first], addr) &&
               InBank(banks[last], addr + cnt - 1)
      ensures Blocked(addr, addr + cnt - 1) <==> HitBetween(first, last, addr, addr + cnt - 1)
    {
      var end := addr + cnt - 1;
      if Blocked(addr, end) {
        var k: nat, i: nat :| Hit(k, i, addr, end);
        HitIs(k, i, addr, cnt);
        HitInside(k, i, first, last, addr, cnt);
      }
      if HitBetween(first, last, addr, end) {
        var k: nat, i: nat :| first <= k <= last && SectorBlocks(k, i, addr, end);
        HitIs(k, i, addr, cnt);
      }
    }

    lemma FoundIs(k: int, a: int)
      requires Valid() && Tidy(banks, |banks|) && Found(k, a)
      ensures k >= 0 <==> InFlash(banks, a)
    {
      TidyIs(banks, |banks|);
      assert banks[..|banks|] == banks;
    }

    lemma EndsIn(first: int, last: int, addr: int, cnt: int, end: int)
      requires Valid() && Plain(addr, cnt) && end == (addr + cnt - 1) % TWO32 && Found(first, addr) && Found(last, end)
      ensures end == addr + cnt - 1 && (first >= 0 <==> InFlash(banks, addr)) && (last >= 0 <==> InFlash(banks, end))
    {
      NoWrap(addr, cnt);
      FoundIs(first, addr);
      FoundIs(last, end);
    }

    lemma NoWrap(addr: int, cnt: int)
      requires 0 <= addr && 0 < cnt && addr + cnt <= TWO32
      ensures (addr + cnt - 1) % TWO32 == addr + cnt - 1
    {
    }

    /** The last address of the range, and the banks of its ends (lines 148-150) */
    method FindEnds(addr: int, cnt: nat) returns (end: int, first: int, last: int)
      requires Valid() && cnt > 0
      ensures -1 <= first < |banks| && -1 <= last < |banks|
      ensures Plain(addr, cnt) ==> end == addr + cnt - 1
      ensures Plain(addr, cnt) ==> if first >= 0 then InBank(banks[first], addr) else !InFlash(banks, addr)
      ensures Plain(addr, cnt) ==> if last >= 0 then InBank(banks[last], end) else !InFlash(banks, end)
      ensures Plain(addr, cnt) && first >= 0 && last >= 0 ==> Reachable(addr, cnt)
      ensures Wrapping(addr, cnt) ==> 0 <= last < first
    {
      end := (addr + cnt - 1) % TWO32;
      first := Addr2Info(addr);
      last := Addr2Info(end);
      if Plain(addr, cnt) { EndsIn(first, last, addr, cnt, end); }
      if Wrapping(addr, cnt) { WrapsAround(first, last, addr, cnt); }
    }

    /** A plain range both of whose ends are in flash. */
    ghost predicate Reachable(addr: int, cnt: int)
    {
      Plain(addr, cnt) && InFlash(banks, addr) && InFlash(banks, addr + cnt - 1)
    }

    /** The tests of flash_write before it writes anything (lines 149-175) */
    method CheckWrite(addr: int, cnt: nat) returns (rc: int, first: int, last: int)
      requires Valid() && cnt > 0
      ensures rc == ERR_OK || rc == ERR_INVAL || rc == ERR_PROTECTED
      ensures rc == ERR_OK ==> 0 <= first < |banks| && 0 <= last < |banks|
      ensures Plain(addr, cnt) ==> (rc == ERR_INVAL <==> !Reachable(addr, cnt))
      ensures Reachable(addr, cnt) ==> (rc == ERR_PROTECTED <==> Blocked(addr, addr + cnt - 1))
      ensures Plain(addr, cnt) && rc == ERR_OK ==> InBank(banks[first], addr) && InBank(banks[last], addr + cnt - 1)
      ensures Wrapping(addr, cnt) ==> rc == ERR_OK && last < first
    {
      var end;
      end, first, last := FindEnds(addr, cnt);
      if first < 0 || last < 0 {
        return ERR_INVAL, first, last;
      }
      var hit := HitsProtected(first, last, addr, end);
      if Plain(addr, cnt) { BlockedIs(first, last, addr, cnt); }
      rc := if hit then ERR_PROTECTED else ERR_OK;
    }

    /** A range that goes on at address 0 and ends in an earlier bank. */
    ghost predicate Wrapping(addr: int, cnt: int)
      requires Valid()
      reads this`protect
    {
      && Tidy(banks, |banks|) && 0 <= addr < TWO32 < addr + cnt && cnt <= TWO32
      && exists j, k :: EndsEarlier(j, k, addr, cnt)
    }

    ghost predicate EndsEarlier(j: int, k: int, addr: int, cnt: int)
      requires Valid()
      reads this`protect
    {
      0 <= j < k < |banks| && InBank(banks[j], addr + cnt - 1 - TWO32) && InBank(banks[k], addr)
    }

    lemma WrapsAround(first: int, last: int, addr: int, cnt: int)
      requires Valid() && Wrapping(addr, cnt) && Found(first, addr) && Found(last, (addr + cnt - 1) % TWO32)
      ensures 0 <= last < first
    {
      var end := addr + cnt - 1 - TWO32;
      WrapOnce(addr + cnt - 1);
      var j, k :| EndsEarlier(j, k, addr, cnt);
      FoundAt(first, k, addr);
      FoundAt(last, j, end);
    }

    lemma WrapOnce(x: int)
      requires TWO32 <= x < 2 * TWO32
      ensures x % TWO32 == x - TWO32
    {
    }

    lemma FoundAt(f: int, k: nat, a: int)
      requires Valid() && Tidy(banks, |banks|) && k < |banks| && InBank(banks[k], a) && Found(f, a)
      ensures f == k
    {
      TidyIs(banks, |banks|);
      assert banks[..|banks|] == banks;
      if f >= 0 { OneBank(f, k, a); }
    }

    /** An address is in one bank only. */
    lemma OneBank(j: nat, k: nat, a: int)
      requires Contiguous(banks) && j < |banks| && k < |banks| && InBank(banks[j], a) && InBank(banks[k], a)
      ensures j == k
    {
      if j < k { BankOrder(banks, j, k); }
      if k < j { BankOrder(banks, k, j); }
    }

    lemma InOrder(first: nat, last: nat, addr: int, cnt: int)
      requires Valid() && Plain(addr, cnt) && first < |banks| && last < |banks| && InBank(banks[first], addr) &&
               InBank(banks[last], addr + cnt - 1)
      ensures first <= last
    {
      PlainIs(addr, cnt);
      if last < first { BankOrder(banks, last, first); }
    }

    /** `flash_write` (lines 142-195): all or nothing as far as bounds and protection go, but for a sector that ends
        at the last address; a range that wraps to an earlier bank is not written at all, and no error reported. */
    method FlashWrite(src: seq<int>, addr: int) returns (rc: int)
      requires Valid()
      modifies this`mem, this`calls
      ensures |src| == 0 ==> rc == ERR_OK && mem == old(mem)
      ensures forall a {:trigger At(mem, a)} :: !(addr <= a < addr + |src|) ==> At(mem, a) == At(old(mem), a)
      ensures Plain(addr, |src|) && !Reachable(addr, |src|) ==> rc == ERR_INVAL && mem == old(mem)
      ensures Reachable(addr, |src|) && Blocked(addr, addr + |src| - 1) ==> rc == ERR_PROTECTED && mem == old(mem)
      ensures Reachable(addr, |src|) && !Blocked(addr, addr + |src| - 1) && old(Works()) ==> rc == ERR_OK
      ensures Plain(addr, |src|) && rc == ERR_OK ==>
                && !Blocked(addr, addr + |src| - 1)
                && forall a {:trigger At(mem, a)} :: addr <= a < addr + |src| ==> At(mem, a) == src[a - addr]
      ensures Wrapping(addr, |src|) ==> rc == ERR_OK && mem == old(mem)
    {
      if |src| == 0 {
        return ERR_OK;
      }
      var first, last;
      rc, first, last := CheckWrite(addr, |src|);
      if rc == ERR_OK {
        if Plain(addr, |src|) { InOrder(first, last, addr, |src|); }
        rc := WriteOut(first, last, src, addr);
      }
    }

    /** A protected sector that ends at the last address is written all the same, in any contiguous banks. */
    method WritesProtected(k: nat, i: nat, a: int, v: int) returns (rc: int)
      requires Valid() && Works() && Contiguous(banks) && k < |banks| && i < |banks[k].start| && protect[k][i]
      requires banks[k].start[i] <= a <= SectorEnd(banks[k], i) == TWO32 - 1
      modifies this`mem, this`calls
      ensures rc == ERR_OK && At(mem, a) == v
    {
      PlainIs(a, 1);
      SectorIn(banks[k], i);
      assert InFlash(banks, a);
      forall j: nat, n: nat ensures !Hit(j, n, a, a) { if Hit(j, n, a, a) { LastSectorOnly(k, i, j, n, a); } }
      rc := FlashWrite([v], a);
      assert At(mem, a) == [v][a - a];
    }

    /** Nothing else has an address in common with that sector. */
    lemma LastSectorOnly(k: nat, i: nat, j: nat, n: nat, a: int)
      requires Valid() && Contiguous(banks) && k < |banks| && i < |banks[k].start| &&
               banks[k].start[i] <= a <= SectorEnd(banks[k], i)
      requires Hit(j, n, a, a)
      ensures SectorEnd(banks[k], i) < TWO32 - 1
    {
      SectorIn(banks[k], i);
      SectorIn(banks[j], n);
      OneBank(j, k, a);
      if n < i { SectorsApart(banks[k], n, i); }
      if i < n { SectorsApart(banks[k], i, n); }
    }

    /** An operation of a run leaves sector i of bank k protected. */
    ghost predicate Leaves(op: Op, k: nat, i: nat)
      requires k < |banks| && i < |banks[k].start|
    {
      match op
      case Write(src, addr) => src == [] || Plain(addr, |src|)
      case Protect(set_, from, to, b) => set_ || b != k || !Overlaps(banks[k], i, from, to)
    }

    method WriteAround(src: seq<int>, addr: int, ghost k: nat, ghost i: nat)
      requires Valid() && k < |banks| && i < |banks[k].start| && protect[k][i] && (src == [] || Plain(addr, |src|))
      requires SectorEnd(banks[k], i) < TWO32 - 1
      modifies this`mem, this`calls
      ensures SameBytes(old(mem), mem, banks[k].start[i], SectorEnd(banks[k], i))
    {
      var rc := FlashWrite(src, addr);
      if Overlaps(banks[k], i, addr, addr + |src| - 1) {
        assert Hit(k, i, addr, addr + |src| - 1);
        assert mem == old(mem);
      } else {
        forall a | banks[k].start[i] <= a <= SectorEnd(banks[k], i) ensures At(mem, a) == At(old(mem), a) { }
      }
    }

    /** Over any run of writes and protection changes, a sector that is protected and never cleared keeps
        every byte, unless it ends at the last address (WritesProtected). */
    method Run(ops: seq<Op>, ghost k: nat, ghost i: nat)
      requires Valid() && k < |banks| && i < |banks[k].start| && protect[k][i] && SectorEnd(banks[k], i) < TWO32 - 1
      requires forall n :: 0 <= n < |ops| ==> Leaves(ops[n], k, i) && (ops[n].Protect? ==> ops[n].bank < |banks|)
      modifies this
      ensures Valid() && protect[k][i] && SameBytes(old(mem), mem, banks[k].start[i], SectorEnd(banks[k], i))
    {
      for n := 0 to |ops|
        invariant Valid() && protect[k][i] && SameBytes(old(mem), mem, banks[k].start[i], SectorEnd(banks[k], i))
      {
        assert Leaves(ops[n], k, i);
        match ops[n] {
          case Write(src, addr) => WriteAround(src, addr, k, i);
          case Protect(set_, from, to, b) => FlashProtect(set_, from, to, b);
        }
      }
    }
  }

  /** One bank of one sector up to the last address: it is protected, and then written. */
  method ProtectedIsWritten(v: int) returns (f: Flash, rc: int)
    ensures f.banks == [Bank([0xFFF0_0000], 0x10_0000, true)] && f.protect == [[true]]
    ensures rc == ERR_OK && At(f.mem, 0xFFF0_0000) == v
  {
    var bank := Bank([0xFFF0_0000], 0x10_0000, true);
    f := new Flash([bank], map[], n => 0, (n, a) => 0);
    f.FlashProtect(true, 0xFFF0_0000, 0xFFFF_FFFF, 0);
    assert Overlaps(bank, 0, 0xFFF0_0000, 0xFFFF_FFFF) && f.protect[0][0];
    assert f.protect[0] == [true];
    rc := f.WritesProtected(0, 0, 0xFFF0_0000, v);
  }
}
