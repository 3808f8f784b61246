/**
 DOS partition tables (uboot/disk/part_dos.c): the walker that prints partitions and the one that looks
 a partition up by number, both following the chain of extended tables.
 */
module DosPartitions {

  datatype Option<T> = None | Some(value: T)

  datatype Entry = Entry(boot: int, typ: int, start: int, size: int)

  /** The four entries of a table, whether the sector has the signature 55 AA, and whether it is a FAT boot
      record (with its number of sectors reserved and of FATs). */
  datatype Table = Table(magic: bool, fat: bool, reserved: int, fats: int, entries: seq<Entry>)

  /** What can be read from a sector. */
  type Disk = int -> Option<Table>

  datatype Listed = Listed(num: int, start: int, size: int, extended: bool)

  datatype Info = Info(start: int, size: int) | NotFound

  predicate IsExtended(typ: int) { typ == 0x5 || typ == 0xF || typ == 0x85 }

  /** Whether an entry uses up a number: all do in the first table, data partitions do in the others. */
  predicate Numbered(e: Entry, ext: int) { ext == 0 || (e.typ != 0 && !IsExtended(e.typ)) }

  predicate Shown(e: Entry, ext: int) { e.typ != 0 && (ext == 0 || !IsExtended(e.typ)) }

  function NumberAfter(es: seq<Entry>, ext: int, num: int): (n: int)
    ensures n >= num
  {
    if es == [] then num else NumberAfter(es[1..], ext, if Numbered(es[0], ext) then num + 1 else num)
  }

  /** The lines of one table. */
  function ListTable(es: seq<Entry>, ext: int, num: int): seq<Listed>
  {
    if es == [] then []
    else
      var rest := ListTable(es[1..], ext, if Numbered(es[0], ext) then num + 1 else num);
      if Shown(es[0], ext) then [Listed(num, ext + es[0].start, es[0].size, IsExtended(es[0].typ))] + rest else rest
  }

  /** The sector of the table that an entry points to, and the base for the entries in it. */
  function Next(e: Entry, rel: int): int { e.start + rel }
  function NextBase(e: Entry, ext: int, rel: int): int { if ext == 0 then Next(e, rel) else rel }

  predicate Usable(disk: Disk, ext: int) { disk(ext).Some? && disk(ext).value.magic }

  /** Following the extended entries of a list of entries, or of a table, ends within d tables. */
  ghost predicate FiniteAll(disk: Disk, es: seq<Entry>, ext: int, rel: int, d: nat)
    decreases d, 0
  {
    forall i {:trigger es[i]} :: 0 <= i < |es| && IsExtended(es[i].typ) ==>
        d > 0 && Finite(disk, Next(es[i], rel), NextBase(es[i], ext, rel), d - 1)
  }

  ghost predicate Finite(disk: Disk, ext: int, rel: int, d: nat)
    decreases d, 1
  {
    Usable(disk, ext) && !disk(ext).value.fat ==> FiniteAll(disk, disk(ext).value.entries, ext, rel, d)
  }

  /** What the printer lists from a table on; lba is the size of the disk. */
  ghost function Listing(disk: Disk, lba: int, ext: int, rel: int, num: int, d: nat): seq<Listed>
    requires Finite(disk, ext, rel, d)
    decreases d, 1, 0
  {
    if !Usable(disk, ext) then []
    else if disk(ext).value.fat then [Listed(1, 0, lba, false)]
    else
      var es := disk(ext).value.entries;
      ListTable(es, ext, num) + ListNext(disk, lba, es, 0, ext, rel, NumberAfter(es, ext, num), d)
  }

  /** The same for the tables that the entries from the i-th on point to. */
  ghost function ListNext(disk: Disk, lba: int, es: seq<Entry>, i: nat, ext: int, rel: int, num: int,
      d: nat): seq<Listed>
    requires i <= |es| && FiniteAll(disk, es, ext, rel, d)
    decreases d, 0, |es| - i
  {
    if i == |es| then []
    else
      (if IsExtended(es[i].typ) then Listing(disk, lba, Next(es[i], rel), NextBase(es[i], ext, rel), num, d - 1)
       else [])
      + ListNext(disk, lba, es, i + 1, ext, rel, num, d)
  }

  /** The partition of a table with a number. */
  function FindInTable(es: seq<Entry>, ext: int, num: int, which: int): Info
  {
    if es == [] then NotFound
    else if es[0].typ != 0 && num == which && !IsExtended(es[0].typ) then Info(ext + es[0].start, es[0].size)
    else FindInTable(es[1..], ext, if Numbered(es[0], ext) then num + 1 else num, which)
  }

  function FirstExtended(es: seq<Entry>): (k: nat)
    ensures k <= |es| && (k < |es| ==> IsExtended(es[k].typ)) && forall i :: 0 <= i < k ==> !IsExtended(es[i].typ)
  {
    if es == [] || IsExtended(es[0].typ) then 0 else 1 + FirstExtended(es[1..])
  }

  predicate BootFlag(t: Table) { t.entries != [] && (t.entries[0].boot == 0x80 || t.entries[0].boot == 0) }

  /** What the lookup returns; it follows the first extended entry of a table only. */
  ghost function Lookup(disk: Disk, ext: int, rel: int, num: int, which: int, d: nat): Info
    requires FiniteFirst(disk, ext, rel, d)
    decreases d
  {
    if !Usable(disk, ext) then NotFound
    else
      var t := disk(ext).value;
      if !BootFlag(t) then (if ext == 0 && t.reserved != 0 && t.fats != 0 then Info(0, 0) else NotFound)
      else if FindInTable(t.entries, ext, num, which) != NotFound then FindInTable(t.entries, ext, num, which)
      else
        var k := FirstExtended(t.entries);
        if k == |t.entries| then NotFound
        else
          Lookup(disk, Next(t.entries[k], rel), NextBase(t.entries[k], ext, rel), NumberAfter(t.entries, ext, num),
              which, d - 1)
  }

  ghost predicate FiniteFirst(disk: Disk, ext: int, rel: int, d: nat)
    decreases d
  {
    Usable(disk, ext) && BootFlag(disk(ext).value) ==>
      var es := disk(ext).value.entries;
      var k := FirstExtended(es);
      k < |es| ==> d > 0 && FiniteFirst(disk, Next(es[k], rel), NextBase(es[k], ext, rel), d - 1)
  }

  // ---- both walkers agree ------------------------------------------------------------------------------------

  predicate OneExtended(es: seq<Entry>) {
    forall i, j :: 0 <= i < j < |es| ==> !(IsExtended(es[i].typ) && IsExtended(es[j].typ))
  }

  /** Every table on the way is a partition table with at most one extended entry. */
  ghost predicate Regular(disk: Disk, ext: int, rel: int, d: nat)
    decreases d
  {
    Usable(disk, ext) ==>
      var t := disk(ext).value;
      && !t.fat && BootFlag(t) && OneExtended(t.entries)
      && var k := FirstExtended(t.entries);
      k < |t.entries| ==> d > 0 && Regular(disk, Next(t.entries[k], rel), NextBase(t.entries[k], ext, rel), d - 1)
  }

  lemma {:induction false} RegularFinite(disk: Disk, ext: int, rel: int, d: nat)
    requires Regular(disk, ext, rel, d)
    ensures FiniteFirst(disk, ext, rel, d) && Finite(disk, ext, rel, d)
    decreases d
  {
    if Usable(disk, ext) {
      var es := disk(ext).value.entries;
      var k := FirstExtended(es);
      if k < |es| { RegularFinite(disk, Next(es[k], rel), NextBase(es[k], ext, rel), d - 1); }
      forall i | 0 <= i < |es| && IsExtended(es[i].typ)
          ensures d > 0 && Finite(disk, Next(es[i], rel), NextBase(es[i], ext, rel), d - 1) {
        assert i == k;
      }
    }
  }

  /** In a table, a number is found exactly if it is listed as a data partition. */
  lemma {:induction false} TableAgrees(es: seq<Entry>, ext: int, num: int, which: int, start: int, size: int)
    ensures FindInTable(es, ext, num, which) == Info(start, size) <==>
              Listed(which, start, size, false) in ListTable(es, ext, num)
    ensures forall l :: l in ListTable(es, ext, num) ==> num <= l.num < NumberAfter(es, ext, num)
  {
    if es != [] {
      TableAgrees(es[1..], ext, if Numbered(es[0], ext) then num + 1 else num, which, start, size);
    }
  }

  /** The chain below a table with one extended entry is the chain of that entry. */
  lemma {:induction false} NextIsOne(disk: Disk, lba: int, es: seq<Entry>, i: nat, ext: int, rel: int, num: int, d: nat)
    requires FiniteAll(disk, es, ext, rel, d) && OneExtended(es) && i <= FirstExtended(es)
    ensures var k := FirstExtended(es);
      ListNext(disk, lba, es, i, ext, rel, num, d) ==
        if k == |es| then [] else Listing(disk, lba, Next(es[k], rel), NextBase(es[k], ext, rel), num, d - 1)
    decreases |es| - i
  {
    var k := FirstExtended(es);
    if i < k {
      NextIsOne(disk, lba, es, i + 1, ext, rel, num, d);
    } else if k < |es| {
      NoneExtended(disk, lba, es, k + 1, ext, rel, num, d);
    }
  }

  lemma {:induction false} NoneExtended(disk: Disk, lba: int, es: seq<Entry>, i: nat, ext: int, rel: int, num: int,
      d: nat)
    requires FiniteAll(disk, es, ext, rel, d) && i <= |es| && forall j :: i <= j < |es| ==> !IsExtended(es[j].typ)
    ensures ListNext(disk, lba, es, i, ext, rel, num, d) == []
    decreases |es| - i
  {
    if i < |es| { NoneExtended(disk, lba, es, i + 1, ext, rel, num, d); }
  }

  lemma {:induction false} FoundNumber(es: seq<Entry>, ext: int, num: int, which: int)
    requires FindInTable(es, ext, num, which) != NotFound
    ensures num <= which < NumberAfter(es, ext, num)
  {
    if !(es[0].typ != 0 && num == which && !IsExtended(es[0].typ)) {
      FoundNumber(es[1..], ext, if Numbered(es[0], ext) then num + 1 else num, which);
    }
  }

  /** Looking up a number gives a start and a size exactly when the printer lists a data partition of that
      number with them; and numbers only grow along the chain. */
  lemma {:induction false} WalkersAgree(disk: Disk, lba: int, ext: int, rel: int, num: int, which: int, start: int,
      size: int, d: nat)
    requires Regular(disk, ext, rel, d) && FiniteFirst(disk, ext, rel, d) && Finite(disk, ext, rel, d)
    ensures Lookup(disk, ext, rel, num, which, d) == Info(start, size) <==>
              Listed(which, start, size, false) in Listing(disk, lba, ext, rel, num, d)
    ensures forall l :: l in Listing(disk, lba, ext, rel, num, d) ==> num <= l.num
    decreases d
  {
    if Usable(disk, ext) {
      var es := disk(ext).value.entries;
      var k, n := FirstExtended(es), NumberAfter(es, ext, num);
      TableAgrees(es, ext, num, which, start, size);
      NextIsOne(disk, lba, es, 0, ext, rel, n, d);
      if FindInTable(es, ext, num, which) != NotFound { FoundNumber(es, ext, num, which); }
      if k < |es| {
        RegularFinite(disk, Next(es[k], rel), NextBase(es[k], ext, rel), d - 1);
        WalkersAgree(disk, lba, Next(es[k], rel), NextBase(es[k], ext, rel), n, which, start, size, d - 1);
      }
    }
  }

  /** No two partitions are listed with the same number. */
  lemma {:induction false} NumbersDiffer(disk: Disk, lba: int, ext: int, rel: int, num: int, d: nat)
    requires Regular(disk, ext, rel, d) && Finite(disk, ext, rel, d)
    ensures var ls := Listing(disk, lba, ext, rel, num, d); forall i, j :: 0 <= i < j < |ls| ==> ls[i].num < ls[j].num
    decreases d
  {
    if Usable(disk, ext) {
      var es := disk(ext).value.entries;
      var k, n := FirstExtended(es), NumberAfter(es, ext, num);
      TableAscends(es, ext, num);
      TableAgrees(es, ext, num, 0, 0, 0);
      NextIsOne(disk, lba, es, 0, ext, rel, n, d);
      if k < |es| {
        RegularFinite(disk, Next(es[k], rel), NextBase(es[k], ext, rel), d - 1);
        NumbersDiffer(disk, lba, Next(es[k], rel), NextBase(es[k], ext, rel), n, d - 1);
        WalkersAgree(disk, lba, Next(es[k], rel), NextBase(es[k], ext, rel), n, 0, 0, 0, d - 1);
      }
      Ascending(ListTable(es, ext, num), ListNext(disk, lba, es, 0, ext, rel, n, d), n);
    }
  }

  lemma Ascending(a: seq<Listed>, b: seq<Listed>, n: int)
    requires (forall i, j :: 0 <= i < j < |a| ==> a[i].num < a[j].num) &&
             (forall i, j :: 0 <= i < j < |b| ==> b[i].num < b[j].num)
    requires (forall l :: l in a ==> l.num < n) && forall l :: l in b ==> n <= l.num
    ensures forall i, j :: 0 <= i < j < |a + b| ==> (a + b)[i].num < (a + b)[j].num
  {
    forall i, j | 0 <= i < j < |a + b| ensures (a + b)[i].num < (a + b)[j].num {
      if i < |a| <= j { assert a[i] in a && b[j - |a|] in b; }
    }
  }

  lemma {:induction false} TableAscends(es: seq<Entry>, ext: int, num: int)
    ensures var ls := ListTable(es, ext, num); forall i, j :: 0 <= i < j < |ls| ==> ls[i].num < ls[j].num
  {
    if es != [] {
      var n := if Numbered(es[0], ext) then num + 1 else num;
      TableAscends(es[1..], ext, n);
      TableAgrees(es[1..], ext, n, 0, 0, 0);
      var ls, rest := ListTable(es, ext, num), ListTable(es[1..], ext, n);
      if Shown(es[0], ext) {
        forall j | 0 < j < |ls| ensures ls[0].num < ls[j].num { assert rest[j - 1] in rest; }
      }
    }
  }

  // ---- what both walkers find ---------------------------------------------------------------------------------

  /** A logical partition: the sector of the table that describes it, its first sector on the disk and its size. */
  datatype Logical = Logical(table: int, start: int, size: int)

  predicate IsLink(e: Entry) { e.typ in {0x5, 0xF, 0x85} }
  predicate IsData(e: Entry) { e.typ != 0 && e.typ !in {0x5, 0xF, 0x85} }

  /** A partition table of four entries in a sector */
  predicate HasTable(disk: Disk, at: int, es: seq<Entry>)
  {
    && disk(at).Some? && disk(at).value.magic && !disk(at).value.fat && disk(at).value.entries == es
    && |es| == 4 && es[0].boot in {0, 0x80}
  }

  /** The chain of tables behind an extended partition at `base`: each has a partition, relative to the table, and a
      link to the next table, relative to `base`. */
  ghost predicate Chain(disk: Disk, base: int, ls: seq<Logical>)
  {
    ls != [] && ls[0].table != 0 &&
    exists es: seq<Entry> ::
      && HasTable(disk, ls[0].table, es) && es[2].typ == es[3].typ == 0
      && IsData(es[0]) && ls[0].table + es[0].start == ls[0].start && es[0].size == ls[0].size
      && if |ls| == 1 then es[1].typ == 0
         else IsLink(es[1]) && base + es[1].start == ls[1].table && Chain(disk, base, ls[1..])
  }

  /** A disk with four entries in its first table, one of which may be extended, and logical partitions in that */
  ghost predicate Layout(disk: Disk, es: seq<Entry>, ls: seq<Logical>)
  {
    && HasTable(disk, 0, es) && OneExtended(es)
    && if ls == [] then forall i :: 0 <= i < 4 ==> !IsLink(es[i])
       else Chain(disk, ls[0].table, ls) && exists i :: 0 <= i < 4 && IsLink(es[i]) && es[i].start == ls[0].table
  }

  /** In the first table entry i has number i, counted from 1, whether it is used or not. */
  lemma {:induction false} FirstTable(es: seq<Entry>, num: int, which: int)
    ensures NumberAfter(es, 0, num) == num + |es|
    ensures FindInTable(es, 0, num, which) ==
              if num <= which < num + |es| && IsData(es[which - num])
              then Info(es[which - num].start, es[which - num].size) else NotFound
  {
    if es != [] { FirstTable(es[1..], num + 1, which); }
  }

  /** A table of the chain has one number. */
  lemma ChainTable(es: seq<Entry>, ext: int, num: int, which: int)
    requires |es| == 4 && ext != 0 && IsData(es[0]) && !IsData(es[1]) && es[2].typ == es[3].typ == 0
    ensures NumberAfter(es, ext, num) == num + 1
    ensures FindInTable(es, ext, num, which) == if which == num then Info(ext + es[0].start, es[0].size) else NotFound
    ensures ListTable(es, ext, num) == [Listed(num, ext + es[0].start, es[0].size, false)]
    ensures FirstExtended(es) == if IsLink(es[1]) then 1 else 4
  {
    NoData(es[1..], ext, num, which);
    NoData(es[1..], ext, num + 1, which);
    assert FirstExtended(es) < 4 ==> IsExtended(es[FirstExtended(es)].typ);
  }

  lemma {:induction false} NoData(es: seq<Entry>, ext: int, num: int, which: int)
    requires ext != 0 && forall i :: 0 <= i < |es| ==> !IsData(es[i])
    ensures NumberAfter(es, ext, num) == num && FindInTable(es, ext, num, which) == NotFound
    ensures ListTable(es, ext, num) == []
  {
    if es != [] { NoData(es[1..], ext, num, which); }
  }

  /** The numbers of a chain, from num on, are those of its partitions. */
  lemma {:induction false} ChainFound(disk: Disk, base: int, ls: seq<Logical>, num: int, which: int, d: nat)
    requires Chain(disk, base, ls) && FiniteFirst(disk, ls[0].table, base, d)
    ensures Lookup(disk, ls[0].table, base, num, which, d) ==
              if num <= which < num + |ls| then Info(ls[which - num].start, ls[which - num].size) else NotFound
    decreases |ls|
  {
    var es := disk(ls[0].table).value.entries;
    ChainTable(es, ls[0].table, num, which);
    if |ls| > 1 { ChainFound(disk, base, ls[1..], num + 1, which, d - 1); }
  }

  /** A chain is listed partition by partition. */
  lemma {:induction false} ChainListed(disk: Disk, lba: int, base: int, ls: seq<Logical>, num: int, d: nat)
    requires Chain(disk, base, ls) && Finite(disk, ls[0].table, base, d)
    ensures Listing(disk, lba, ls[0].table, base, num, d) == Numbers(ls, num)
    decreases |ls|
  {
    var es := disk(ls[0].table).value.entries;
    ChainTable(es, ls[0].table, num, num);
    ListingOne(disk, lba, es, ls[0].table, base, num, d);
    NumberedFrom(ls, num);
    if |ls| > 1 { ChainListed(disk, lba, base, ls[1..], num + 1, d - 1); }
  }

  lemma ListingOne(disk: Disk, lba: int, es: seq<Entry>, ext: int, rel: int, num: int, d: nat)
    requires Finite(disk, ext, rel, d) && HasTable(disk, ext, es) && OneExtended(es)
    ensures FiniteAll(disk, es, ext, rel, d)
    ensures var k, n := FirstExtended(es), NumberAfter(es, ext, num);
      Listing(disk, lba, ext, rel, num, d) == ListTable(es, ext, num) +
        if k == 4 then [] else Listing(disk, lba, Next(es[k], rel), NextBase(es[k], ext, rel), n, d - 1)
  {
    NextIsOne(disk, lba, es, 0, ext, rel, NumberAfter(es, ext, num), d);
  }

  function Numbers(ls: seq<Logical>, num: int): seq<Listed>
  {
    seq(|ls|, i requires 0 <= i < |ls| => Listed(num + i, ls[i].start, ls[i].size, false))
  }

  lemma NumberedFrom(ls: seq<Logical>, num: int)
    requires ls != []
    ensures Numbers(ls, num) == [Listed(num, ls[0].start, ls[0].size, false)] + Numbers(ls[1..], num + 1)
  {
  }

  lemma {:induction false} ChainRegular(disk: Disk, base: int, ls: seq<Logical>)
    requires Chain(disk, base, ls)
    ensures Regular(disk, ls[0].table, base, |ls| - 1)
    decreases |ls|
  {
    var es := disk(ls[0].table).value.entries;
    ChainTable(es, ls[0].table, 0, 0);
    if |ls| > 1 { ChainRegular(disk, base, ls[1..]); }
  }

  /** A disk of this layout has a finite chain, on which both walkers agree. */
  lemma LayoutRegular(disk: Disk, es: seq<Entry>, ls: seq<Logical>)
    requires Layout(disk, es, ls)
    ensures Regular(disk, 0, 0, |ls|)
  {
    if ls != [] { ChainRegular(disk, ls[0].table, ls); }
  }

  /** On such a disk the numbers 1 to 4 are the entries of the first table, and the logical partitions are numbered
      from 5 on; a number finds its partition, and every other one nothing. */
  lemma PartitionFound(disk: Disk, es: seq<Entry>, ls: seq<Logical>, which: int, d: nat)
    requires Layout(disk, es, ls) && FiniteFirst(disk, 0, 0, d)
    ensures Lookup(disk, 0, 0, 1, which, d) ==
              if 1 <= which <= 4 && IsData(es[which - 1]) then Info(es[which - 1].start, es[which - 1].size)
              else if 5 <= which < 5 + |ls| then Info(ls[which - 5].start, ls[which - 5].size)
              else NotFound
  {
    FirstTable(es, 1, which);
    if ls != [] {
      var k := FirstExtended(es);
      assert k < 4 && es[k].start == ls[0].table;
      if FindInTable(es, 0, 1, which) == NotFound { ChainFound(disk, ls[0].table, ls, 5, which, d - 1); }
    }
  }

  /** A disk whose first sector is no partition table: the lookup takes a FAT boot record for one partition that
      begins with the disk, whatever the number, and the printer takes it for one as large as the disk. */
  lemma NoTable(disk: Disk, lba: int, t: Table, which: int, d: nat)
    requires disk(0) == Some(t) && t.magic && t.fat && t.entries != [] && t.entries[0].boot !in {0, 0x80}
    ensures FiniteFirst(disk, 0, 0, d) && Finite(disk, 0, 0, d)
    ensures Lookup(disk, 0, 0, 1, which, d) == if t.reserved == 0 || t.fats == 0 then NotFound else Info(0, 0)
    ensures Listing(disk, lba, 0, 0, 1, d) == [Listed(1, 0, lba, false)]
  {
  }

  // ---- the code ---------------------------------------------------------------------------------------------------

  /** `print_partition_extended` (lines 106-165), as the list of what it prints */
  method PrintExtended(disk: Disk, lba: int, ext: int, rel: int, num0: int, ghost d: nat) returns (out: seq<Listed>)
    requires Finite(disk, ext, rel, d)
    ensures out == Listing(disk, lba, ext, rel, num0, d)
    decreases d
  {
    out := [];
    if disk(ext).None? || !disk(ext).value.magic {
      return;
    }
    if disk(ext).value.fat {
      return [Listed(1, 0, lba, false)];
    }
    var es := disk(ext).value.entries;
    var num;
    out, num := PrintTable(es, ext, num0);
    var next := PrintNext(disk, lba, es, ext, rel, num, d);
    out := out + next;
  }

  /** The lines of one table and the number after them (lines 132-149) */
  method PrintTable(es: seq<Entry>, ext: int, num0: int) returns (out: seq<Listed>, num: int)
    ensures out == ListTable(es, ext, num0) && num == NumberAfter(es, ext, num0)
  {
    out, num := [], num0;
    assert es[0..] == es;
    for i := 0 to |es|
      invariant ListTable(es, ext, num0) == out + ListTable(es[i..], ext, num) &&
                NumberAfter(es, ext, num0) == NumberAfter(es[i..], ext, num)
    {
      TableStep(es, i, ext, num);
      Regroup(
        out,
        if Shown(es[i], ext) then [Listed(num, ext + es[i].start, es[i].size, IsExtended(es[i].typ))] else [],
        ListTable(es[i + 1..], ext, if Numbered(es[i], ext) then num + 1 else num));
      if es[i].typ != 0 && (ext == 0 || !IsExtended(es[i].typ)) {
        out := out + [Listed(num, ext + es[i].start, es[i].size, IsExtended(es[i].typ))];
      }
      if ext == 0 || (es[i].typ != 0 && !IsExtended(es[i].typ)) {
        num := num + 1;
      }
    }
  }

  lemma TableStep(es: seq<Entry>, i: nat, ext: int, num: int)
    requires i < |es|
    ensures var n := if Numbered(es[i], ext) then num + 1 else num;
      && NumberAfter(es[i..], ext, num) == NumberAfter(es[i + 1..], ext, n)
      && ListTable(es[i..], ext, num) ==
           (if Shown(es[i], ext) then [Listed(num, ext + es[i].start, es[i].size, IsExtended(es[i].typ))] else [])
           + ListTable(es[i + 1..], ext, n)
  {
    assert es[i..][0] == es[i] && es[i..][1..] == es[i + 1..];
  }

  lemma Regroup(a: seq<Listed>, b: seq<Listed>, c: seq<Listed>)
    ensures a + (b + c) == a + b + c
  {
  }

  /** "Follows the extended partitions" (lines 151-162) */
  method PrintNext(disk: Disk, lba: int, es: seq<Entry>, ext: int, rel: int, num: int, ghost d: nat)
      returns (out: seq<Listed>)
    requires FiniteAll(disk, es, ext, rel, d)
    ensures out == ListNext(disk, lba, es, 0, ext, rel, num, d)
    decreases d, 0
  {
    out := [];
    for i := 0 to |es|
      invariant ListNext(disk, lba, es, 0, ext, rel, num, d) == out + ListNext(disk, lba, es, i, ext, rel, num, d)
    {
      if IsExtended(es[i].typ) {
        var start := es[i].start + rel;
        var more := PrintExtended(disk, lba, start, if ext == 0 then start else rel, num, d - 1);
        Regroup(out, more, ListNext(disk, lba, es, i + 1, ext, rel, num, d));
        out := out + more;
      }
    }
  }

  /** `get_partition_info_extended` (lines 170-263) */
  method GetPartitionInfo(disk: Disk, ext: int, rel: int, num0: int, which: int, ghost d: nat) returns (r: Info)
    requires FiniteFirst(disk, ext, rel, d)
    ensures r == Lookup(disk, ext, rel, num0, which, d)
    decreases d
  {
    if disk(ext).None? || !disk(ext).value.magic {
      return NotFound;
    }
    var t := disk(ext).value;
    var es, num := t.entries, num0;
    if es == [] || (es[0].boot != 0x80 && es[0].boot != 0) {
      return if ext == 0 && t.reserved != 0 && t.fats != 0 then Info(0, 0) else NotFound;
    }
    r, num := FindHere(es, ext, num0, which);
    if r != NotFound {
      return;
    }
    assert es[0..] == es;
    for i := 0 to |es|
      invariant FirstExtended(es) == i + FirstExtended(es[i..])
    {
      assert es[i..][0] == es[i] && es[i..][1..] == es[i + 1..];
      if IsExtended(es[i].typ) {
        var start := es[i].start + rel;
        r := GetPartitionInfo(disk, start, if ext == 0 then start else rel, num, which, d - 1);
        return;
      }
    }
    return NotFound;
  }

  /** The search of one table, and the number after it (lines 210-247) */
  method FindHere(es: seq<Entry>, ext: int, num0: int, which: int) returns (r: Info, num: int)
    ensures r == FindInTable(es, ext, num0, which) && (r == NotFound ==> num == NumberAfter(es, ext, num0))
  {
    num := num0;
    assert es[0..] == es;
    for i := 0 to |es|
      invariant FindInTable(es, ext, num0, which) == FindInTable(es[i..], ext, num, which) &&
                NumberAfter(es, ext, num0) == NumberAfter(es[i..], ext, num)
    {
      assert es[i..][0] == es[i] && es[i..][1..] == es[i + 1..];
      if es[i].typ != 0 && num == which && !IsExtended(es[i].typ) {
        return Info(ext + es[i].start, es[i].size), num;
      }
      if ext == 0 || (es[i].typ != 0 && !IsExtended(es[i].typ)) {
        num := num + 1;
      }
    }
    r := NotFound;
  }
}
