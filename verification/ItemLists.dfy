/**
 Lists of items (uboot/common/lists.c): finding, removing in place, and removing duplicates.
 */
module ItemLists {

  // The positions of include/lists.h (lines 4-5)
  const LIST_START := -1
  const LIST_END := 0

  /** Do two items compare as equal? */
  type Equal<!T> = (T, T) -> bool

  // ---- what is left of a list without duplicates ------------------------------------------------------------

  function Others<T>(eq: Equal<T>, x: T, s: seq<T>): (r: seq<T>)
    ensures |r| <= |s|
  {
    if s == [] then [] else if eq(x, s[0]) then Others(eq, x, s[1..]) else [s[0]] + Others(eq, x, s[1..])
  }

  function Firsts<T>(eq: Equal<T>, s: seq<T>): seq<T>
    decreases |s|
  {
    if s == [] then [] else [s[0]] + Firsts(eq, Others(eq, s[0], s[1..]))
  }

  /** Item i is the first of its kind. */
  predicate IsFirst<T>(eq: Equal<T>, s: seq<T>, i: nat)
    requires i < |s|
  {
    forall j :: 0 <= j < i ==> !eq(s[j], s[i])
  }

  /** The items of s up to n that are the first of their kind, in their order. */
  ghost function KeepFirsts<T>(eq: Equal<T>, s: seq<T>, n: nat): seq<T>
    requires n <= |s|
  {
    if n == 0 then [] else KeepFirsts(eq, s, n - 1) + (if IsFirst(eq, s, n - 1) then [s[n - 1]] else [])
  }

  ghost predicate Equivalence<T(!new)>(eq: Equal<T>)
  {
    && (forall x :: eq(x, x)) && (forall x, y :: eq(x, y) ==> eq(y, x))
    && forall x, y, z {:trigger eq(x, y), eq(y, z)} :: eq(x, y) && eq(y, z) ==> eq(x, z)
  }

  lemma {:induction false} OthersConcat<T>(eq: Equal<T>, x: T, a: seq<T>, b: seq<T>)
    ensures Others(eq, x, a + b) == Others(eq, x, a) + Others(eq, x, b)
  {
    if a == [] {
      assert a + b == b;
    } else {
      assert (a + b)[1..] == a[1..] + b;
      OthersConcat(eq, x, a[1..], b);
    }
  }

  lemma {:induction false} OthersNone<T>(eq: Equal<T>, x: T, s: seq<T>)
    requires forall i :: 0 <= i < |s| ==> !eq(x, s[i])
    ensures Others(eq, x, s) == s
  {
    if s != [] { OthersNone(eq, x, s[1..]); }
  }

  /** No item of s is equal to y. */
  predicate Fresh<T>(eq: Equal<T>, s: seq<T>, y: T) { s == [] || (!eq(s[0], y) && Fresh(eq, s[1..], y)) }

  lemma {:induction false} FreshIs<T>(eq: Equal<T>, s: seq<T>, y: T)
    ensures Fresh(eq, s, y) <==> forall j :: 0 <= j < |s| ==> !eq(s[j], y)
  {
    if s != [] {
      FreshIs(eq, s[1..], y);
      if Fresh(eq, s[1..], y) {
        forall j | 0 < j < |s| ensures !eq(s[j], y) { assert s[j] == s[1..][j - 1]; }
      } else {
        var j :| 0 <= j < |s[1..]| && eq(s[1..][j], y);
        assert s[j + 1] == s[1..][j];
      }
    }
  }

  /** Leaving out the items equal to x does not matter for an item that is not. */
  lemma {:induction false} OthersKind<T(!new)>(eq: Equal<T>, x: T, t: seq<T>, y: T)
    requires Equivalence(eq) && !eq(x, y)
    ensures Fresh(eq, Others(eq, x, t), y) <==> Fresh(eq, t, y)
  {
    if t != [] {
      OthersKind(eq, x, t[1..], y);
      if !eq(x, t[0]) { assert Others(eq, x, t)[1..] == Others(eq, x, t[1..]); }
    }
  }

  /** One more item at the end is kept exactly if nothing before it is equal. */
  lemma {:induction false} FirstsMore<T(!new)>(eq: Equal<T>, s: seq<T>, y: T)
    requires Equivalence(eq)
    ensures Firsts(eq, s + [y]) == Firsts(eq, s) + (if Fresh(eq, s, y) then [y] else [])
    decreases |s|
  {
    if s == [] {
      assert s + [y] == [y];
    } else {
      var x, t := s[0], s[1..];
      assert (s + [y])[1..] == t + [y];
      OthersConcat(eq, x, t, [y]);
      var o := Others(eq, x, t);
      if eq(x, y) {
        assert Others(eq, x, [y]) == [] && o + [] == o;
      } else {
        assert Others(eq, x, [y]) == [y];
        FirstsMore(eq, o, y);
        OthersKind(eq, x, t, y);
      }
    }
  }

  /** What is left is the first item of each kind, in the original order. */
  lemma {:induction false} FirstsAreFirst<T(!new)>(eq: Equal<T>, s: seq<T>, n: nat)
    requires Equivalence(eq) && n <= |s|
    ensures Firsts(eq, s[..n]) == KeepFirsts(eq, s, n)
  {
    if n > 0 {
      FirstsAreFirst(eq, s, n - 1);
      assert s[..n] == s[..n - 1] + [s[n - 1]];
      FirstsMore(eq, s[..n - 1], s[n - 1]);
      FreshIs(eq, s[..n - 1], s[n - 1]);
    }
  }

  // ---- the code --------------------------------------------------------------------------------------------------

  /** The items of s with n of them moved down. */
  ghost function Slid<T>(s: seq<T>, to: nat, from: nat, n: nat): seq<T>
    requires to <= from && from + n <= |s|
  {
    s[..to] + s[from..from + n] + s[to + n..]
  }

  lemma SlidMore<T>(s: seq<T>, to: nat, from: nat, n: nat)
    requires to <= from && from + n < |s|
    ensures |Slid(s, to, from, n)| == |s| && Slid(s, to, from, n)[from + n] == s[from + n]
    ensures Slid(s, to, from, n + 1) == Slid(s, to, from, n)[to + n := s[from + n]]
  {
  }

  class List<T(!new)> {
    /** The room for items, and how much of it is used */
    const items: array<T>
    var numItems: nat
    const equal: Equal<T>

    ghost predicate Valid()
      reads this
    {
      numItems <= items.Length
    }

    ghost function Contents(): seq<T>
      requires Valid()
      reads this, items
    {
      items[..numItems]
    }

    constructor (s: seq<T>, room: nat, filler: T, equal: Equal<T>)
      ensures Valid() && fresh(items) && items.Length == |s| + room && Contents() == s && this.equal == equal
    {
      items := new T[|s| + room](i requires 0 <= i => if i < |s| then s[i] else filler);
      numItems := |s|;
      this.equal := equal;
    }

    /** What a position means: items are counted from 1, -1 is the first one and 0 the last one. */
    function Position(position: int): int
      reads this`numItems
    {
      if position == LIST_START then 1 else if position == LIST_END then numItems else position
    }

    /** `ListFindItem` (lines 645-671): the first equal item from a position on, 0 if there is none */
    method FindItem(x: T, start: int) returns (r: nat)
      requires Valid() && start >= -1
      ensures r > 0 ==> r <= numItems && equal(x, items[r - 1])
      ensures r > 0 ==> if start == 0 then r == numItems else start <= r
      ensures start == 0 && r == 0 && numItems > 0 ==> !equal(x, items[numItems - 1])
      ensures start != 0 ==>
                forall i: nat :: start - 1 <= i < numItems && (r == 0 || i < r - 1) ==> !equal(x, items[i])
    {
      if numItems == 0 {
        return 0;
      }
      var first := Position(start);
      var index := first;
      while index <= numItems
        invariant 1 <= first <= index && forall i :: first - 1 <= i < index - 1 && i < numItems ==> !equal(x, items[i])
      {
        if equal(x, items[index - 1]) {
          return index;
        }
        index := index + 1;
      }
      return 0;
    }

    /** `memmove` of n items from position `from` down to position `to`, both counted from 0 */
    method MoveDown(to: nat, from: nat, n: nat)
      requires to <= from && from + n <= items.Length
      modifies items
      ensures items[..] == Slid(old(items[..]), to, from, n)
    {
      ghost var s := items[..];
      assert Slid(s, to, from, 0) == s;
      for k := 0 to n
        invariant items[..] == Slid(s, to, from, k)
      {
        SlidMore(s, to, from, k);
        ghost var t := items[..];
        items[to + k] := items[from + k];
        assert items[..] == t[to + k := t[from + k]];
      }
    }

    static lemma GapClosed(s: seq<T>, t: seq<T>, k: nat, count: nat, n: nat)
      requires k + count <= n <= |s| && t == Slid(s, k, k + count, n - k - count)
      ensures t[..n - count] == s[..n][..k] + s[..n][k + count..]
    {
      assert s[..n][..k] == s[..k] && s[..n][k + count..] == s[k + count..n];
    }

    /** Taking `count` items of s from a position on: -1 is the first item, 0 the last one, the others count from 1. */
    static ghost predicate Takes(s: seq<T>, position: int, count: nat, removed: seq<T>, rest: seq<T>)
    {
      && (position == -1 ==> count <= |s| && removed == s[..count] && rest == s[count..])
      && (position == 0 ==> count <= 1 <= |s| && removed == s[|s| - 1..][..count] && rest == s[..|s| - count])
      && (position > 0 ==>
            && position - 1 + count <= |s| && removed == s[position - 1..position - 1 + count]
            && rest == s[..position - 1] + s[position - 1 + count..])
    }

    static lemma CutOut(s: seq<T>, position: int, k: nat, count: nat, removed: seq<T>, rest: seq<T>)
      requires -1 <= position && k + count <= |s| && removed == s[k..k + count] && rest == s[..k] + s[k + count..]
      requires k == if position == -1 then 0 else if position == 0 then |s| - 1 else position - 1
      ensures Takes(s, position, count, removed, rest)
    {
    }

    /** `ListRemoveItems` (lines 479-506): the items behind those removed close the gap. */
    method RemoveItems(position: int, count: nat) returns (removed: seq<T>)
      requires Valid() && -1 <= position && (position == 0 ==> numItems > 0)
      requires Position(position) - 1 + count <= numItems
      modifies this`numItems, items
      ensures Valid() && numItems == old(numItems) - count
      ensures Takes(old(Contents()), position, count, removed, Contents())
    {
      ghost var c := Contents();
      var first := Position(position);
      removed := items[first - 1..first - 1 + count];
      assert removed == c[first - 1..first - 1 + count];
      CloseGap(first, count);
      CutOut(c, position, first - 1, count, removed, Contents());
    }

    /** "move part of list down to cover hole left by removed item" (lines 493-505) */
    method CloseGap(first: nat, count: nat)
      requires Valid() && 1 <= first && first - 1 + count <= numItems
      modifies this`numItems, items
      ensures Valid() && numItems == old(numItems) - count
      ensures Contents() == old(Contents())[..first - 1] + old(Contents())[first - 1 + count..]
    {
      ghost var s, k, n := items[..], first - 1, numItems;
      assert s[..n] == Contents();
      var after := first + count;
      var numToMove := numItems - (after - 1);
      if numToMove > 0 {
        MoveDown(first - 1, after - 1, numToMove);
      } else {
        assert s == Slid(s, k, k + count, 0);
      }
      GapClosed(s, items[..], k, count, n);
      numItems := numItems - count;
    }

    method RemoveItem(position: int)
      requires Valid() && -1 <= position <= numItems && numItems > 0
      modifies this`numItems, items
      ensures Valid() && numItems == old(numItems) - 1
      ensures position == -1 ==> Contents() == old(Contents())[1..]
      ensures position == 0 ==> Contents() == old(Contents())[..old(numItems) - 1]
      ensures position > 0 ==> Contents() == old(Contents())[..position - 1] + old(Contents())[position..]
    {
      var removed := RemoveItems(position, 1);
    }

    /** Removes the items behind `index` that equal the one there (lines 621-636). */
    method RemoveEqual(index: nat)
      requires Valid() && 1 <= index <= numItems
      modifies this`numItems, items
      ensures Valid() && index <= numItems <= old(numItems) && Contents()[..index] == old(Contents())[..index]
      ensures Contents()[index..] == Others(equal, old(Contents())[index - 1], old(Contents())[index..])
    {
      var n, start := numItems, index + 1;
      ghost var all := Contents();
      while start <= n
        invariant Valid() && n == numItems && index + 1 <= start && Thinned(all, Contents(), index, start - 1)
        decreases n
      {
        var dup := RemoveNext(index, start, all);
        if dup > 0 {
          n := n - 1;
          start := dup;
        } else {
          break;
        }
      }
      ThinnedOut(all, Contents(), index);
    }

    /** Finds the next equal item and removes it (lines 624-630). */
    method RemoveNext(index: nat, start: nat, ghost all: seq<T>) returns (dup: nat)
      requires Valid() && 1 <= index < start <= numItems && Thinned(all, Contents(), index, start - 1)
      modifies this`numItems, items
      ensures Valid() && (dup == 0 ==> numItems == old(numItems) && Thinned(all, Contents(), index, numItems))
      ensures dup > 0 ==> start <= dup && numItems == old(numItems) - 1 && Thinned(all, Contents(), index, dup - 1)
    {
      ghost var s := Contents();
      assert items[index - 1] == s[index - 1];
      dup := FindItem(items[index - 1], start);
      if dup > 0 {
        RemoveItem(dup);
        ThinnedMore(all, s, Contents(), index, start - 1, dup - 1);
      } else {
        ThinnedOn(all, s, index, start - 1, numItems);
      }
    }

    /** Some equals of item `index` have been left out of s, and none is left before position k. */
    ghost predicate Thinned(s: seq<T>, t: seq<T>, index: nat, k: nat)
    {
      if k > index then Thinned(s, t, index, k - 1) && 1 <= index && k <= |t| && !equal(t[index - 1], t[k - 1])
      else
        1 <= index == k <= |t| <= |s| && t[..index] == s[..index] &&
        Others(equal, s[index - 1], t[index..]) == Others(equal, s[index - 1], s[index..])
    }

    lemma {:induction false} ThinnedIs(s: seq<T>, t: seq<T>, index: nat, k: nat)
      requires index <= k
      ensures Thinned(s, t, index, k) <==>
                Thinned(s, t, index, index) && k <= |t| && forall i :: index <= i < k ==> !equal(t[index - 1], t[i])
    {
      if k > index { ThinnedIs(s, t, index, k - 1); }
    }

    lemma ThinnedOn(all: seq<T>, s: seq<T>, index: nat, k: nat, n: nat)
      requires 1 <= index <= k <= n <= |s| && Thinned(all, s, index, k) &&
               forall i :: k <= i < n ==> !equal(s[index - 1], s[i])
      ensures Thinned(all, s, index, n)
    {
      ThinnedIs(all, s, index, k);
      ThinnedIs(all, s, index, n);
    }

    lemma ThinnedMore(all: seq<T>, s: seq<T>, t: seq<T>, index: nat, k: nat, dup: nat)
      requires 1 <= index <= k <= dup < |s| && Thinned(all, s, index, k) && t == s[..dup] + s[dup + 1..]
      requires equal(s[index - 1], s[dup]) && forall i :: k <= i < dup ==> !equal(s[index - 1], s[i])
      ensures Thinned(all, t, index, dup)
    {
      ThinnedOn(all, s, index, k, dup);
      ThinnedIs(all, s, index, dup);
      ThinnedIs(all, t, index, dup);
      assert t[..index] == s[..index] && s[..index][index - 1] == all[..index][index - 1];
      SkipOne(s, index, dup, all[index - 1]);
    }

    lemma ThinnedOut(all: seq<T>, s: seq<T>, index: nat)
      requires 1 <= index <= |s| && Thinned(all, s, index, |s|)
      ensures |s| <= |all| && s[..index] == all[..index] && s[index..] == Others(equal, all[index - 1], all[index..])
    {
      ThinnedIs(all, s, index, |s|);
      var x, t := all[index - 1], s[index..];
      assert s[..index][index - 1] == all[..index][index - 1];
      forall i | 0 <= i < |t| ensures !equal(x, t[i]) { assert t[i] == s[index + i]; }
      OthersNone(equal, x, t);
    }

    lemma SkipOne(s: seq<T>, index: nat, k: nat, x: T)
      requires index <= k < |s| && equal(x, s[k])
      ensures Others(equal, x, (s[..k] + s[k + 1..])[index..]) == Others(equal, x, s[index..])
    {
      var a, b := s[index..k], s[k + 1..];
      assert (s[..k] + s[k + 1..])[index..] == a + b;
      assert s[index..] == a + ([s[k]] + b);
      OthersConcat(equal, x, a, b);
      OthersConcat(equal, x, a, [s[k]] + b);
      OthersConcat(equal, x, [s[k]], b);
      assert Others(equal, x, [s[k]]) == [];
    }

    /** `ListRemoveDuplicates` (lines 615-638) */
    method RemoveDuplicates()
      requires Valid()
      modifies this`numItems, items
      ensures Valid() && Contents() == Firsts(equal, old(Contents()))
      ensures Equivalence(equal) ==> Contents() == KeepFirsts(equal, old(Contents()), old(numItems))
    {
      ghost var all := Contents();
      FirstsOf(all);
      var index := 1;
      while index < numItems
        invariant Valid() && 1 <= index && (numItems == 0 || index - 1 <= numItems) && Leads(all, Contents(), index)
        decreases numItems - index
      {
        ghost var s := Contents();
        RemoveEqual(index);
        FirstsStep(s, Contents(), index);
        index := index + 1;
      }
      LastFirsts(all, Contents(), index);
    }

    /** The firsts of all are the items of s before `index` and the firsts of the others. */
    ghost predicate Leads(all: seq<T>, s: seq<T>, index: nat)
    {
      if s == [] then all == []
      else 1 <= index <= |s| + 1 && Firsts(equal, all) == s[..index - 1] + Firsts(equal, s[index - 1..])
    }

    lemma FirstsOf(all: seq<T>)
      ensures Leads(all, all, 1)
      ensures Equivalence(equal) ==> Firsts(equal, all) == KeepFirsts(equal, all, |all|)
    {
      assert all[0..] == all[..|all|] == all;
      if Equivalence(equal) { FirstsAreFirst(equal, all, |all|); }
    }

    lemma FirstsStep(s: seq<T>, t: seq<T>, index: nat)
      requires 1 <= index <= |t| <= |s| && t[..index] == s[..index] &&
               t[index..] == Others(equal, s[index - 1], s[index..])
      ensures s[..index - 1] + Firsts(equal, s[index - 1..]) == t[..index] + Firsts(equal, t[index..])
    {
      var u := s[index - 1..];
      assert u[0] == s[index - 1] && u[1..] == s[index..];
      assert t[..index] == s[..index - 1] + [s[index - 1]];
    }

    lemma LastFirsts(all: seq<T>, s: seq<T>, index: nat)
      requires Leads(all, s, index) && |s| <= index
      ensures s == Firsts(equal, all)
    {
      if s != [] {
        var u := s[index - 1..];
        assert s == s[..index - 1] + u;
        if |u| == 1 { assert u[1..] == [] && Others(equal, u[0], []) == [] && Firsts(equal, u) == [u[0]] == u; }
      }
    }
  }
}
