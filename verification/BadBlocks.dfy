/**
 The bad block mapping table of the NAND driver (uboot/drivers/MT7620_bmt.c): blocks that fail are
 replaced by blocks of a pool at the end of the device.
 */
module BadBlocks {

  const MAX_BMT_SIZE := 0x80
  const BMT_VERSION := 1
  /** No bad-block index, no error-correction code: what erased spare bytes say. */
  const NONE := 0xFFFF
  const NOECC := 0xFFFFFF

  /** What a page says: nothing, some user's data, or the mapping table. */
  datatype Dat = Erased | User(value: int) | Image(phys: Phys)

  /** A page: its data, the bad-block index and the error-correction code in its spare area. */
  datatype Page = Page(dat: Dat, index: int, ecc: int)

  const BLANK := Page(Erased, NONE, NOECC)

  /** `is_page_used` */
  predicate Used(p: Page) { p.index != NONE || p.ecc != NOECC }

  /** A page is used exactly if its spare area is not blank. */
  lemma UsedIs(p: Page)
    ensures Used(p) <==> p.(dat := Erased) != BLANK
  {
  }

  datatype Entry = Entry(bad: int, mapped: int)

  type Block = seq<Page>

  predicate NoImage(b: Block) { |b| > 0 && !b[0].dat.Image? }

  predicate Blank(b: Block) { forall p :: 0 <= p < |b| ==> b[p] == BLANK }

  // ---- how many good blocks are left -------------------------------------------------------------------

  function Good(bad: seq<bool>): (n: nat)
  {
    if bad == [] then 0 else (if bad[0] then 0 else 1) + Good(bad[1..])
  }

  lemma {:induction false} GoodDrops(a: seq<bool>, b: seq<bool>)
    requires |a| == |b| && forall i :: 0 <= i < |a| && a[i] ==> b[i]
    ensures Good(b) <= Good(a) && (Good(b) == Good(a) ==> a == b)
  {
    if a != [] {
      GoodDrops(a[1..], b[1..]);
      assert a == [a[0]] + a[1..] && b == [b[0]] + b[1..];
    }
  }

  /** Marking a good block leaves fewer good blocks. */
  lemma MarkDrops(a: seq<bool>, b: seq<bool>, i: nat)
    requires |a| == |b| && (forall j :: 0 <= j < |a| && a[j] ==> b[j]) && i < |a| && !a[i] && b[i]
    ensures Good(b) < Good(a)
  {
    GoodDrops(a, b);
  }

  // ---- the table -------------------------------------------------------------------------------------------

  /** The first `count` entries map different system blocks to different pool blocks. */
  ghost predicate Mapping(t: seq<Entry>, count: nat, system: nat, total: nat)
  {
    && count <= |t|
    && (forall i {:trigger t[i]} :: 0 <= i < count ==> 0 <= t[i].bad < system <= t[i].mapped < total)
    && (forall i, j {:trigger t[i], t[j]} :: 0 <= i < j < count ==> t[i].bad != t[j].bad && t[i].mapped != t[j].mapped)
  }

  predicate Mapped(t: seq<Entry>, count: nat, b: int)
    requires count <= |t|
  {
    exists i :: 0 <= i < count && t[i].mapped == b
  }

  /** Where a block really is. */
  function Physical(t: seq<Entry>, count: nat, index: int): int
    requires count <= |t|
  {
    if count == 0 then index
    else if t[count - 1].bad == index then t[count - 1].mapped
    else Physical(t, count - 1, index)
  }

  lemma {:induction false} PhysicalIs(t: seq<Entry>, count: nat, index: int, i: nat)
    requires count <= |t| && i < count && t[i].bad == index &&
             forall j :: 0 <= j < count && j != i ==> t[j].bad != index
    ensures Physical(t, count, index) == t[i].mapped
  {
    if i < count - 1 { PhysicalIs(t, count - 1, index, i); }
  }

  lemma {:induction false} PhysicalOther(t: seq<Entry>, count: nat, index: int)
    requires count <= |t| && forall j :: 0 <= j < count ==> t[j].bad != index
    ensures Physical(t, count, index) == index
  {
    if count > 0 { PhysicalOther(t, count - 1, index); }
  }

  /** Either a block has an entry, or it is where it says. */
  lemma {:induction false} PhysicalCases(t: seq<Entry>, count: nat, index: int) returns (i: int)
    requires count <= |t|
    ensures -1 <= i < count
    ensures i == -1 ==> Physical(t, count, index) == index && forall j :: 0 <= j < count ==> t[j].bad != index
    ensures i >= 0 ==> t[i].bad == index && Physical(t, count, index) == t[i].mapped
  {
    if count == 0 {
      i := -1;
    } else if t[count - 1].bad == index {
      i := count - 1;
    } else {
      i := PhysicalCases(t, count - 1, index);
    }
  }

  /** Different system blocks are in different places. */
  lemma PhysicalInjective(t: seq<Entry>, count: nat, system: nat, total: nat, a: int, b: int)
    requires Mapping(t, count, system, total) && system <= total && 0 <= a < system && 0 <= b < system && a != b
    ensures Physical(t, count, a) != Physical(t, count, b)
    ensures 0 <= Physical(t, count, a) < total
    ensures Mapped(t, count, Physical(t, count, a)) || Physical(t, count, a) == a
  {
    var i := PhysicalCases(t, count, a);
    var j := PhysicalCases(t, count, b);
    if i >= 0 && j >= 0 { assert i != j; }
  }

  /** Different pool blocks in the table are no more than the pool has. */
  lemma {:induction false} Pigeonhole(s: seq<int>, lo: int, hi: int)
    requires lo <= hi && (forall i :: 0 <= i < |s| ==> lo <= s[i] < hi) &&
             forall i, j :: 0 <= i < j < |s| ==> s[i] != s[j]
    ensures |s| <= hi - lo
    decreases hi - lo
  {
    if s != [] {
      assert lo <= s[0] < hi;
      if hi - 1 in s {
        var k :| 0 <= k < |s| && s[k] == hi - 1;
        var r := s[..k] + s[k + 1..];
        forall i | 0 <= i < |r| ensures lo <= r[i] < hi - 1 { assert r[i] == s[if i < k then i else i + 1]; }
        forall i, j | 0 <= i < j < |r| ensures r[i] != r[j] {
          assert r[i] == s[if i < k then i else i + 1] && r[j] == s[if j < k then j else j + 1];
        }
        Pigeonhole(r, lo, hi - 1);
      } else {
        forall i | 0 <= i < |s| ensures lo <= s[i] < hi - 1 { assert s[i] in s; }
        Pigeonhole(s, lo, hi - 1);
      }
    }
  }

  /** A free pool block means that the table is not full. */
  lemma RoomLeft(t: seq<Entry>, count: nat, system: nat, total: nat, b: int)
    requires Mapping(t, count, system, total) && system <= b < total && !Mapped(t, count, b)
    ensures count < total - system
  {
    var s := seq(count, i requires 0 <= i < count => t[i].mapped) + [b];
    Pigeonhole(s, system, total);
  }

  // ---- the copy of the table in flash ----------------------------------------------------------------------

  /** phys_bmt_struct, without the fields that are not used */
  datatype Phys = Phys(signature: string, version: int, count: int, checksum: int, table: seq<Entry>)

  function EntryBytes(e: Entry): seq<int> { [e.bad % 256, e.bad / 256, e.mapped % 256, e.mapped / 256] }

  function TableBytes(t: seq<Entry>): seq<int>
  {
    if t == [] then [] else EntryBytes(t[0]) + TableBytes(t[1..])
  }

  function Sum(s: seq<int>): int { if s == [] then 0 else s[0] + Sum(s[1..]) }

  /** `cal_bmt_checksum` */
  function Checksum(version: int, count: int, bytes: seq<int>): int { (version + count + Sum(bytes)) % 256 }

  /** `fill_nand_bmt_buffer` */
  function Fill(t: seq<Entry>, count: nat, n: nat): Phys
    requires n <= |t|
  {
    var table := t[..n] + seq(if n < MAX_BMT_SIZE then MAX_BMT_SIZE - n else 0, _ => Entry(NONE, NONE));
    Phys("BMT", BMT_VERSION, count, Checksum(BMT_VERSION, count, TableBytes(table[..n])), table)
  }

  /** `valid_bmt_data` */
  predicate ValidData(p: Phys, n: nat, system: nat, total: nat)
  {
    && n <= |p.table| && 0 <= p.count <= |p.table|
    && p.checksum == Checksum(p.version, p.count, TableBytes(p.table[..n]))
    && forall i :: 0 <= i < p.count ==> p.table[i].bad < total && system <= p.table[i].mapped < total
  }

  /** What `load_bmt_data` takes over from a valid copy. */
  function Reload(p: Phys, t: seq<Entry>): (r: seq<Entry>)
    requires 0 <= p.count <= |p.table| && p.count <= |t|
  {
    p.table[..p.count] + t[p.count..]
  }

  /** An entry is two little-endian words of 16 bits. */
  lemma EntryBytesAre(e: Entry)
    requires 0 <= e.bad < 0x1_0000 && 0 <= e.mapped < 0x1_0000
    ensures var b := EntryBytes(e);
      && |b| == 4 && (forall i :: 0 <= i < 4 ==> 0 <= b[i] < 256)
      && e.bad == b[0] + 256 * b[1] && e.mapped == b[2] + 256 * b[3]
  {
  }

  /** The checksum is a byte, and adding up to it is what version, count and entries do. */
  lemma ChecksumIs(version: int, count: int, bytes: seq<int>)
    ensures 0 <= Checksum(version, count, bytes) < 256
    ensures (version + count + Sum(bytes) - Checksum(version, count, bytes)) % 256 == 0
  {
    var x := version + count + Sum(bytes);
    assert x - x % 256 == 256 * (x / 256);
  }

  /** The table in flash: as many entries as the pool has blocks, and 0xFF in the rest of it. */
  lemma FillIs(t: seq<Entry>, count: nat, n: nat, i: nat)
    requires n <= |t| && n <= i < 0x80
    ensures var p := Fill(t, count, n);
      && |p.table| == 0x80 && p.table[..n] == t[..n] && p.table[i] == Entry(0xFFFF, 0xFFFF)
      && p.signature == "BMT" && p.version == 1 && p.count == count
  {
  }

  /** A table that was written passes the check and is read back as the same mapping. */
  lemma FillReloads(t: seq<Entry>, count: nat, n: nat, system: nat, total: nat, old_: seq<Entry>, index: int)
    requires Mapping(t, count, system, total) && system <= total && count <= n <= MAX_BMT_SIZE && n <= |t| &&
             count <= |old_|
    ensures var p := Fill(t, count, n);
      && p.signature == "BMT" && ValidData(p, n, system, total) && p.count == count
      && Reload(p, old_)[..count] == t[..count]
      && Physical(Reload(p, old_), count, index) == Physical(t, count, index)
  {
    var p := Fill(t, count, n);
    assert p.table[..n] == t[..n];
    var r := Reload(p, old_);
    forall i | 0 <= i < count ensures p.table[i] == t[i] == r[i] { assert p.table[i] == t[..n][i]; }
    SamePhysical(r, t, count, index);
  }

  lemma FilledIs(t: seq<Entry>, count: nat, n: nat, system: nat, total: nat)
    requires Mapping(t, count, system, total) && count <= n <= |t|
    ensures var p := Fill(t, count, n);
            p.count == count <= |p.table| && (forall i :: 0 <= i < count ==> p.table[i] == t[i]) &&
            Mapping(p.table, count, system, total)
  {
    var p := Fill(t, count, n);
    assert p.table[..n] == t[..n];
    forall i | 0 <= i < count ensures p.table[i] == t[i] { assert p.table[i] == t[..n][i]; }
  }

  lemma {:induction false} SamePhysical(r: seq<Entry>, t: seq<Entry>, count: nat, index: int)
    requires count <= |r| && count <= |t| && forall i :: 0 <= i < count ==> r[i] == t[i]
    ensures Physical(r, count, index) == Physical(t, count, index)
  {
    if count > 0 { SamePhysical(r, t, count - 1, index); }
  }

  lemma {:induction false} SumUpdate(s: seq<int>, i: nat, v: int)
    requires i < |s|
    ensures Sum(s[i := v]) == Sum(s) - s[i] + v
  {
    if i == 0 {
      assert s[0 := v][1..] == s[1..];
    } else {
      assert s[i := v][1..] == s[1..][i - 1 := v];
      SumUpdate(s[1..], i - 1, v);
    }
  }

  /** Damage to a single byte of the table is always noticed. */
  lemma OneByteNoticed(version: int, count: int, bytes: seq<int>, i: nat, v: int)
    requires i < |bytes| && 0 <= bytes[i] < 256 && 0 <= v < 256 && v != bytes[i]
    ensures Checksum(version, count, bytes[i := v]) != Checksum(version, count, bytes)
  {
    SumUpdate(bytes, i, v);
    ModDiffers(version + count + Sum(bytes), v - bytes[i]);
  }

  lemma ModDiffers(x: int, d: int)
    requires -256 < d < 256 && d != 0
    ensures (x + d) % 256 != x % 256
  {
  }

  // What a valid table is

  /** A table in flash as bytes: signature, version, count, checksum and the entries that are used. */
  function PhysBytes(p: Phys, n: nat): seq<int>
    requires n <= |p.table|
  {
    seq(|p.signature|, i requires 0 <= i < |p.signature| => p.signature[i] as int)
    + [p.version, p.count, p.checksum] + TableBytes(p.table[..n])
  }

  /** The copy p is what was written as q, with another value in one byte. */
  ghost predicate OneByteOff(p: Phys, q: Phys, n: nat)
    requires n <= |p.table| && n <= |q.table|
  {
    && |p.signature| == |q.signature|
    && exists k, v :: ByteChanged(PhysBytes(p, n), PhysBytes(q, n), k, v)
  }

  ghost predicate ByteChanged(a: seq<int>, b: seq<int>, k: int, v: int)
  {
    0 <= k < |b| && 0 <= b[k] < 256 && 0 <= v < 256 && v != b[k] && a == b[k := v]
  }

  /** The signature is right, and so is what the original checks of the rest. */
  predicate Accepted(p: Phys, n: nat, system: nat, total: nat)
  {
    p.signature == "BMT" && ValidData(p, n, system, total)
  }

  /** A copy of a table with one wrong byte, be it in the header or in an entry, is not accepted. */
  lemma DamageRefused(p: Phys, t: seq<Entry>, count: nat, n: nat, system: nat, total: nat)
    requires n <= |t| && n <= |p.table| && OneByteOff(p, Fill(t, count, n), n)
    ensures !Accepted(p, n, system, total)
  {
    var q := Fill(t, count, n);
    var k, v :| ByteChanged(PhysBytes(p, n), PhysBytes(q, n), k, v);
    HeadBytes(p, n);
    HeadBytes(q, n);
    var a, b := PhysBytes(p, n), PhysBytes(q, n);
    if k < 3 {
      assert a[k] == p.signature[k] as int && b[k] == q.signature[k] as int;
    } else if k < 6 {
      assert p.version + p.count + p.checksum == q.version + q.count + q.checksum - b[k] + v;
      assert TableBytes(p.table[..n]) == a[6..] == b[6..] == TableBytes(q.table[..n]);
      ModDiffers(q.version + q.count + Sum(TableBytes(q.table[..n])), v - b[k]);
    } else {
      assert a[6..] == b[6..][k - 6 := v];
      OneByteNoticed(q.version, q.count, b[6..], k - 6, v);
    }
  }

  lemma HeadBytes(p: Phys, n: nat)
    requires n <= |p.table| && |p.signature| == 3
    ensures var a := PhysBytes(p, n);
      && |a| >= 6 && a[3] == p.version && a[4] == p.count && a[5] == p.checksum && a[6..] == TableBytes(p.table[..n])
      && forall k :: 0 <= k < 3 ==> a[k] == p.signature[k] as int
  {
  }

  /** A valid table leaves a block where it is or sends it to the pool, and it names blocks of the device only. */
  lemma {:induction false} ValidPlaces(p: Phys, c: nat, n: nat, system: nat, total: nat, k: int)
    requires ValidData(p, n, system, total) && c <= p.count
    ensures Physical(p.table, c, k) != k ==> k < total && system <= Physical(p.table, c, k) < total
  {
    if c > 0 { ValidPlaces(p, c - 1, n, system, total, k); }
  }

  /** Blocks that hold data: those of the system and the mapped ones of the pool. */
  ghost predicate HoldsData(t: seq<Entry>, count: nat, system: nat, b: int)
    requires count <= |t|
  {
    b < system || Mapped(t, count, b)
  }

  ghost predicate SparedIn(t: seq<Entry>, count: nat, system: nat, n0: seq<Block>, b0: seq<bool>, n1: seq<Block>,
      b1: seq<bool>)
    requires count <= |t|
  {
    && |n0| == |b0| == |n1| == |b1|
    && (forall b {:trigger n1[b]} {:trigger b1[b]} ::
          0 <= b < |n1| && HoldsData(t, count, system, b) ==> n1[b] == n0[b] && b1[b] == b0[b])
    && (forall b {:trigger b1[b]} {:trigger b0[b]} :: 0 <= b < |n1| && b0[b] ==> b1[b])
  }

  lemma SparedTwice(t: seq<Entry>, count: nat, system: nat, n0: seq<Block>, b0: seq<bool>, n1: seq<Block>,
      b1: seq<bool>, n2: seq<Block>, b2: seq<bool>)
    requires count <= |t| && SparedIn(t, count, system, n0, b0, n1, b1) && SparedIn(t, count, system, n1, b1, n2, b2)
    ensures SparedIn(t, count, system, n0, b0, n2, b2)
  {
    forall b | 0 <= b < |n2| && HoldsData(t, count, system, b) ensures n2[b] == n0[b] && b2[b] == b0[b] {
      assert n1[b] == n0[b] && b1[b] == b0[b];
    }
    forall b | 0 <= b < |n2| && b0[b] ensures b2[b] { assert b1[b]; }
  }

  /** Only block l is found elsewhere now, at m. */
  ghost predicate Remapped(t: seq<Entry>, count: nat, t': seq<Entry>, count': nat, l: int, m: int)
    requires count <= |t| && count' <= |t'|
  {
    forall k {:trigger Physical(t', count', k)} ::
      Physical(t', count', k) == if k == l then m else Physical(t, count, k)
  }

  lemma AddEntry(t: seq<Entry>, count: nat, system: nat, total: nat, e: Entry)
    requires Mapping(t, count, system, total) && count < |t| && 0 <= e.bad < system <= e.mapped < total
    requires (forall i :: 0 <= i < count ==> t[i].bad != e.bad) && !Mapped(t, count, e.mapped)
    ensures var t' := t[count := e];
      && Mapping(t', count + 1, system, total) && Remapped(t, count, t', count + 1, e.bad, e.mapped)
      && forall b {:trigger Mapped(t', count + 1, b)} ::
           Mapped(t', count + 1, b) <==> Mapped(t, count, b) || b == e.mapped
  {
    var t' := t[count := e];
    forall k ensures Physical(t', count + 1, k) == if k == e.bad then e.mapped else Physical(t, count, k) {
      SamePhysical(t', t, count, k);
    }
    forall b ensures Mapped(t', count + 1, b) <==> Mapped(t, count, b) || b == e.mapped {
      if Mapped(t, count, b) {
        var i :| 0 <= i < count && t[i].mapped == b;
        assert t'[i].mapped == b;
      }
      if b == e.mapped { assert t'[count].mapped == b; }
    }
  }

  lemma ReplaceEntry(t: seq<Entry>, count: nat, system: nat, total: nat, i: nat, m: int)
    requires Mapping(t, count, system, total) && i < count && system <= m < total && !Mapped(t, count, m)
    ensures var t' := t[i := Entry(t[i].bad, m)];
      && Mapping(t', count, system, total) && Remapped(t, count, t', count, t[i].bad, m)
      && forall b {:trigger Mapped(t', count, b)} ::
           Mapped(t', count, b) <==> (Mapped(t, count, b) && b != t[i].mapped) || b == m
  {
    var t' := t[i := Entry(t[i].bad, m)];
    forall j | 0 <= j < count ensures t[j].mapped != m { }
    forall k ensures Physical(t', count, k) == if k == t[i].bad then m else Physical(t, count, k) {
      ReplacedPhysical(t, count, i, m, k);
    }
    forall b ensures Mapped(t', count, b) <==> (Mapped(t, count, b) && b != t[i].mapped) || b == m {
      if Mapped(t, count, b) && b != t[i].mapped {
        var j :| 0 <= j < count && t[j].mapped == b;
        assert t'[j].mapped == b;
      }
      if b == m { assert t'[i].mapped == b; }
      if Mapped(t', count, b) && b != m {
        var j :| 0 <= j < count && t'[j].mapped == b;
        assert t[j].mapped == b && j != i;
      }
    }
  }

  lemma {:induction false} ReplacedPhysical(t: seq<Entry>, count: nat, i: nat, m: int, k: int)
    requires i < count <= |t| && forall j :: 0 <= j < count && j != i ==> t[j].bad != t[i].bad
    ensures Physical(t[i := Entry(t[i].bad, m)], count, k) == if k == t[i].bad then m else Physical(t, count, k)
  {
    var t' := t[i := Entry(t[i].bad, m)];
    if i == count - 1 {
      SamePhysical(t', t, count - 1, k);
      if k == t[i].bad { }
    } else {
      ReplacedPhysical(t, count - 1, i, m, k);
    }
  }

  /** How many of the first k pool blocks are good and not mapped */
  function Loose(bad: seq<bool>, t: seq<Entry>, count: nat, system: nat, k: nat): nat
    requires count <= |t| && system + k <= |bad|
  {
    if k == 0 then 0
    else Loose(bad, t, count, system, k - 1) + if bad[system + k - 1] || Mapped(t, count, system + k - 1) then 0 else 1
  }

  lemma {:induction false} LooseMore(bad: seq<bool>, t: seq<Entry>, count: nat, system: nat, i: nat, k: nat)
    requires count <= |t| && i < k && system + k <= |bad|
    ensures Loose(bad, t, count, system, i + 1) <= Loose(bad, t, count, system, k)
  {
    if i + 1 < k { LooseMore(bad, t, count, system, i, k - 1); }
  }

  /** A block of the system fails; on a failing write the data is given. */
  datatype Event = Event(l: nat, page: nat, writeFail: bool, dat: Dat)

  /** What happens to a device: a block fails, or it starts anew. */
  datatype Step = Fails(e: Event) | Starts

  // ---- the code -----------------------------------------------------------------------------------------------

  class Table {
    const system: nat
    const pool: nat
    const pages: nat

    /** The device. Whether its n-th operation fails if that is on block b, what a failing operation leaves in
        a page, and the error-correction code of data are arbitrary. */
    const fails: (nat, int) -> bool
    const junk: nat -> Page
    const ecc: Dat -> int
    var ops: nat
    var nand: seq<Block>
    var bad: seq<bool>

    var table: seq<Entry>
    var count: nat
    var bmtIndex: nat
    var poolErased: bool

    function Total(): nat { system + pool }

    ghost predicate Shape()
      reads this`nand, this`bad, this`table
    {
      && 0 < system && 0 < pages && 0 < pool < MAX_BMT_SIZE == |table| && |nand| == |bad| == Total()
      && forall b {:trigger nand[b]} :: 0 <= b < Total() ==> |nand[b]| == pages
    }

    ghost predicate IsMapped(b: int)
      reads this`table, this`count
    {
      count <= |table| && Mapped(table, count, b)
    }

    /** The table is a mapping into the pool, and the unused entries name no pool block. */
    ghost predicate TableOK()
      reads this`table, this`count
    {
      && count <= pool <= |table| && Mapping(table, count, system, Total())
      && forall i {:trigger table[i]} :: count <= i < |table| ==> table[i].mapped < system
    }

    ghost predicate MappedGood()
      reads this`bad, this`table, this`count
    {
      |bad| == Total() &&
      forall b {:trigger bad[b]} {:trigger IsMapped(b)} :: 0 <= b < Total() && IsMapped(b) ==> !bad[b]
    }

    /** The pool blocks above b are bad or mapped. */
    ghost predicate Topmost(b: int)
      reads this`bad, this`table, this`count
    {
      |bad| == Total() && forall c {:trigger bad[c]} :: system <= c < Total() && b < c ==> bad[c] || IsMapped(c)
    }

    /** The table is one, mapped blocks are good, and the table's own block is an unmapped pool block; it is the
        first one only if no other can be taken. */
    ghost predicate Valid()
      reads this`nand, this`bad, this`table, this`count, this`bmtIndex
    {
      && Shape() && TableOK() && MappedGood()
      && (bmtIndex != 0 ==> system <= bmtIndex < Total() && !IsMapped(bmtIndex))
      && (bmtIndex == system ==> Topmost(system))
    }

    ghost predicate Holds(b: int)
      reads this`table, this`count
    {
      0 <= b < Total() && count <= |table| && HoldsData(table, count, system, b)
    }

    /** Blocks with data are as they were in n0, and no block that was bad in b0 has become good. */
    ghost predicate Spared(n0: seq<Block>, b0: seq<bool>)
      reads this`nand, this`bad, this`table, this`count
    {
      count <= |table| && SparedIn(table, count, system, n0, b0, nand, bad)
    }

    /** A pool block that can be taken. */
    ghost predicate Available(b: int)
      reads this`bad, this`table, this`count, this`bmtIndex
    {
      system <= b < Total() && |bad| == Total() && !bad[b] && !IsMapped(b) && b != bmtIndex
    }

    /** Blocks that can be taken, but for one, are erased. */
    ghost predicate PoolBlank(except: int)
      reads this`nand, this`bad, this`table, this`count, this`bmtIndex
    {
      |nand| == Total() && forall b {:trigger Available(b)} :: Available(b) && b != except ==> Blank(nand[b])
    }

    /** Blocks that can be taken are erased, or will be. */
    ghost predicate Ready()
      reads this`nand, this`bad, this`table, this`count, this`bmtIndex, this`poolErased
    {
      poolErased ==> PoolBlank(-1)
    }

    ghost predicate First(a: int)
      reads this`bad, this`table, this`count, this`bmtIndex
    {
      Available(a) && forall b :: Available(b) ==> a <= b
    }

    // ---- what the device will do ----

    /** From operation o on, nothing fails on block b. */
    ghost predicate Healthy(b: int, o: nat)
    {
      forall n: nat {:trigger fails(n, b)} :: n >= o ==> !fails(n, b)
    }

    /** From operation o to operation o', everything fails on block b. */
    ghost predicate Sick(b: int, o: nat, o': nat)
    {
      forall n: nat {:trigger fails(n, b)} :: o <= n < o' ==> fails(n, b)
    }

    /** From operation o on, everything fails on block b. */
    ghost predicate Doomed(b: int, o: nat)
    {
      forall n: nat {:trigger fails(n, b)} :: n >= o ==> fails(n, b)
    }

    /** From operation o with the flags b0 to operation o' with the flags b1: nothing healthy was marked bad. */
    ghost predicate FairIn(b0: seq<bool>, o: nat, b1: seq<bool>, o': nat)
    {
      o <= o' && |b0| == |b1| && forall b {:trigger b1[b]} :: 0 <= b < |b1| && Healthy(b, o) ==> b1[b] == b0[b]
    }

    lemma FairTwice(b0: seq<bool>, o0: nat, b1: seq<bool>, o1: nat, b2: seq<bool>, o2: nat)
      requires FairIn(b0, o0, b1, o1) && FairIn(b1, o1, b2, o2)
      ensures FairIn(b0, o0, b2, o2)
    {
      forall b | 0 <= b < |b2| && Healthy(b, o0) ensures b2[b] == b0[b] { assert Healthy(b, o1) && b1[b] == b0[b]; }
    }

    ghost predicate Fair(b0: seq<bool>, o: nat)
      reads this`bad, this`ops
    {
      FairIn(b0, o, bad, ops)
    }

    constructor (system: nat, pool: nat, pages: nat, fails: (nat, int) -> bool, junk: nat -> Page, ecc: Dat -> int,
        nand: seq<Block>, bad: seq<bool>)
      requires 0 < system && 0 < pages && 0 < pool < MAX_BMT_SIZE && |nand| == |bad| == system + pool
      requires forall b :: 0 <= b < |nand| ==> |nand[b]| == pages
      ensures Valid() && Ready() && this.nand == nand && this.bad == bad && count == 0 && bmtIndex == 0 &&
              !poolErased && ops == 0
      ensures this.system == system && this.pool == pool && this.pages == pages && this.fails == fails
    {
      this.system, this.pool, this.pages, this.fails, this.junk, this.ecc, this.nand, this.bad := system, pool, pages,
          fails, junk, ecc, nand, bad;
      ops, table, count, bmtIndex, poolErased := 0, seq(MAX_BMT_SIZE, _ => Entry(0, 0)), 0, 0, false;
    }

    /** The same state on a device that has behaved the same so far and goes on as given. */
    constructor Future(t: Table, future: (nat, int) -> bool)
      ensures system == t.system && pool == t.pool && pages == t.pages && junk == t.junk && ecc == t.ecc
      ensures ops == t.ops && nand == t.nand && bad == t.bad && table == t.table && count == t.count &&
              bmtIndex == t.bmtIndex && poolErased == t.poolErased
      ensures forall n: nat, b: int {:trigger fails(n, b)} ::
                fails(n, b) == if n < t.ops then t.fails(n, b) else future(n, b)
    {
      system, pool, pages, junk, ecc := t.system, t.pool, t.pages, t.junk, t.ecc;
      ops, nand, bad, table, count, bmtIndex, poolErased := t.ops, t.nand, t.bad, t.table, t.count, t.bmtIndex,
          t.poolErased;
      var o, past := t.ops, t.fails;
      fails := (n: nat, b: int) => if n < o then past(n, b) else future(n, b);
    }

    /** The states are the same. */
    twostate predicate Copies(new d: Table)
      reads d
    {
      && d.system == system && d.pool == pool && d.pages == pages && d.junk == junk && d.ecc == ecc && d.ops == old(ops)
      && d.nand == old(nand) && d.bad == old(bad) && d.table == old(table) && d.count == old(count) &&
         d.bmtIndex == old(bmtIndex) && d.poolErased == old(poolErased)
    }

    // ---- the device ----

    method EraseBlock(b: nat) returns (ok: bool)
      requires Shape() && b < Total()
      modifies this`ops, this`nand
      ensures Shape() && forall c :: 0 <= c < Total() && c != b ==> nand[c] == old(nand)[c]
      ensures ops == old(ops) + 1 && ok == !fails(old(ops), b) && (ok ==> Blank(nand[b]))
    {
      ok := !fails(ops, b);
      var j := junk(ops);
      ops := ops + 1;
      nand := nand[b := seq(pages, _ => if ok then BLANK else j)];
    }

    /** A page must be erased before it is written. */
    method WritePage(b: nat, p: nat, dat: Dat, index: int) returns (ok: bool)
      requires Shape() && b < Total() && p < pages
      modifies this`ops, this`nand
      ensures Shape() && forall c :: 0 <= c < Total() && c != b ==> nand[c] == old(nand)[c]
      ensures forall q :: 0 <= q < pages && q != p ==> nand[b][q] == old(nand)[b][q]
      ensures ops == old(ops) + 1 && ok == !fails(old(ops), b)
      ensures ok && old(nand)[b][p] == BLANK ==> nand[b][p] == Page(dat, index, ecc(dat))
    {
      ok := !fails(ops, b);
      var v := if ok && nand[b][p] == BLANK then Page(dat, index, ecc(dat)) else junk(ops);
      ops := ops + 1;
      nand := nand[b := nand[b][p := v]];
    }

    method MarkBad(b: nat)
      requires Shape() && b < Total()
      modifies this`bad
      ensures Shape() && bad == old(bad)[b := true]
      ensures old(Valid()) && !IsMapped(b) ==> Valid()
    {
      bad := bad[b := true];
      if old(Valid()) && !IsMapped(b) {
        assert forall c {:trigger bad[c]} :: 0 <= c < Total() && IsMapped(c) ==> !old(bad)[c];
      }
    }

    // ---- the driver ----

    /** `is_block_mapped` (lines 326-335) */
    method IsBlockMapped(index: int) returns (r: int)
      requires count <= |table|
      ensures -1 <= r < count && (r >= 0 <==> IsMapped(index)) && (r >= 0 ==> table[r].mapped == index)
    {
      for i := 0 to count
        invariant forall j :: 0 <= j < i ==> table[j].mapped != index
      {
        if index == table[i].mapped {
          return i;
        }
      }
      return -1;
    }

    /** `get_mapping_block_index` (lines 975-995) */
    method GetMapping(index: int) returns (r: int)
      requires Valid()
      ensures r == Physical(table, count, index)
    {
      if index > system {
        PhysicalOther(table, count, index);
        return index;
      }
      for i := 0 to count
        invariant forall j :: 0 <= j < i ==> table[j].bad != index
      {
        if table[i].bad == index {
          PhysicalIs(table, count, index, i);
          return table[i].mapped;
        }
      }
      PhysicalOther(table, count, index);
      return index;
    }

    /** Erases a block of the pool unless it is bad or mapped (lines 487-508). */
    method EraseUnmapped(b: nat)
      requires Valid() && system <= b < Total()
      modifies this`ops, this`nand, this`bad
      ensures Valid() && Spared(old(nand), old(bad)) && (!bad[b] && !IsMapped(b) ==> Blank(nand[b]))
      ensures forall c :: 0 <= c < Total() && c != b ==> nand[c] == old(nand)[c] && bad[c] == old(bad)[c]
      ensures if old(bad)[b] || IsMapped(b) then ops == old(ops) && bad[b] == old(bad)[b]
              else ops == old(ops) + 1 && bad[b] == fails(old(ops), b)
    {
      if bad[b] {
        return;
      }
      var m := IsBlockMapped(b);
      if m >= 0 {
        return;
      }
      var ok := EraseBlock(b);
      if !ok {
        MarkBad(b);
      }
    }

    /** How many operations the next search spends on erasing the pool */
    function Erasures(): nat
      reads this`bad, this`table, this`count, this`bmtIndex, this`poolErased
    {
      if poolErased || bmtIndex == system || |bad| != Total() || count > |table| then 0
      else Loose(bad, table, count, system, pool)
    }

    /** A pool block that the next search marks bad: it fails to be erased. */
    ghost predicate Dies(b: int)
      reads this`bad, this`table, this`count, this`bmtIndex, this`poolErased, this`ops
    {
      !poolErased && bmtIndex != system && system <= b < Total() && !IsMapped(b) && Sick(b, ops, ops + Erasures())
    }

    ghost predicate PoolErasedUpTo(k: int)
      reads this`nand, this`bad, this`table, this`count
    {
      |nand| == |bad| == Total() &&
      forall b {:trigger nand[b]} :: system <= b < k && b < Total() && !bad[b] && !IsMapped(b) ==> Blank(nand[b])
    }

    /** The first i blocks of the pool have been erased since operation o0, when the flags were b0. */
    ghost predicate Erasing(i: nat, b0: seq<bool>, o0: nat)
      reads this`nand, this`bad, this`table, this`count, this`ops
    {
      && i <= pool && |b0| == Total() && TableOK() && PoolErasedUpTo(system + i) &&
         ops == o0 + Loose(b0, table, count, system, i)
      && (forall b {:trigger bad[b]} :: system + i <= b < Total() ==> bad[b] == b0[b])
      && (forall b {:trigger bad[b]} ::
            system <= b < system + i && !IsMapped(b) && Sick(b, o0, o0 + Loose(b0, table, count, system, pool)) ==>
              bad[b])
    }

    method EraseNext(i: nat, ghost b0: seq<bool>, ghost o0: nat)
      requires Valid() && i < pool && Erasing(i, b0, o0)
      modifies this`ops, this`nand, this`bad
      ensures Valid() && Spared(old(nand), old(bad)) && Fair(old(bad), old(ops)) && Erasing(i + 1, b0, o0)
    {
      LooseMore(b0, table, count, system, i, pool);
      EraseUnmapped(system + i);
    }

    method EraseOneMore(i: nat, ghost n0: seq<Block>, ghost b0: seq<bool>, ghost o0: nat)
      requires Valid() && i < pool && Erasing(i, b0, o0) && Spared(n0, b0) && Fair(b0, o0)
      modifies this`ops, this`nand, this`bad
      ensures Valid() && Erasing(i + 1, b0, o0) && Spared(n0, b0) && Fair(b0, o0)
    {
      EraseNext(i, b0, o0);
      SparedTwice(table, count, system, n0, b0, old(nand), old(bad), nand, bad);
      FairTwice(b0, o0, old(bad), old(ops), bad, ops);
    }

    /** Erases the unmapped blocks of the pool (lines 475-512), the block of the table among them. */
    method ErasePool()
      requires Valid() && !poolErased
      modifies this`ops, this`nand, this`bad, this`poolErased
      ensures Valid() && Spared(old(nand), old(bad)) && poolErased && Fair(old(bad), old(ops))
      ensures if bmtIndex == system then nand == old(nand) && bad == old(bad) else PoolErasedUpTo(Total())
      ensures ops == old(ops) + old(Erasures()) && forall b :: old(Dies(b)) ==> bad[b]
    {
      var block := system;
      for i := 0 to pool
        invariant Valid() && Spared(old(nand), old(bad)) && !poolErased && Fair(old(bad), old(ops))
        invariant if bmtIndex == system then ops == old(ops) && nand == old(nand) && bad == old(bad)
                  else Erasing(i, old(bad), old(ops))
      {
        if block == bmtIndex {
          continue;
        }
        EraseOneMore(i, old(nand), old(bad), old(ops));
      }
      poolErased := true;
    }

    /** The search of `find_available_block` (lines 514-549) */
    method Search(startFromEnd: bool) returns (r: nat)
      requires Valid()
      ensures r != 0 ==> Available(r) && forall b :: Available(b) ==> if startFromEnd then b <= r else r <= b
      ensures r == 0 ==> forall b :: !Available(b)
    {
      var block, direction := system, 1;
      if startFromEnd {
        block, direction := Total() - 1, -1;
      }
      for i := 0 to pool
        invariant block == if startFromEnd then Total() - 1 - i else system + i
        invariant forall b {:trigger Available(b)} ::
                    (if startFromEnd then block < b < Total() else system <= b < block) ==> !Available(b)
      {
        if block != bmtIndex && !bad[block] {
          var m := IsBlockMapped(block);
          if m < 0 {
            return block;
          }
        }
        block := block + direction;
      }
      return 0;
    }

    /** `find_available_block` (lines 467-550): 0 exactly when no block can be taken */
    method FindAvailableBlock(startFromEnd: bool) returns (r: nat)
      requires Valid()
      modifies this`ops, this`nand, this`bad, this`poolErased
      ensures Valid() && Spared(old(nand), old(bad)) && poolErased && (old(Ready()) ==> PoolBlank(-1))
      ensures r != 0 ==> Available(r) && forall b :: Available(b) ==> if startFromEnd then b <= r else r <= b
      ensures r == 0 ==> forall b :: !Available(b)
      ensures old(poolErased) || bmtIndex == system ==> nand == old(nand) && bad == old(bad)
      ensures !old(poolErased) && bmtIndex != system ==> PoolErasedUpTo(Total())
      ensures Fair(old(bad), old(ops)) && ops == old(ops) + old(Erasures()) && forall b :: old(Dies(b)) ==> bad[b]
      ensures !startFromEnd ==> forall a :: old(Available(a)) && Healthy(a, old(ops)) ==> 0 < r <= a
    {
      if !poolErased {
        ErasePool();
      }
      r := Search(startFromEnd);
      forall a | !startFromEnd && old(Available(a)) && Healthy(a, old(ops)) ensures 0 < r <= a { assert Available(a); }
    }

    /** The page that a replacement of errorBlock has instead of src. */
    ghost function Moved(src: Page, errorBlock: int): Page
    {
      if Used(src) then Page(src.dat, if errorBlock < system then errorBlock else src.index, ecc(src.dat)) else BLANK
    }

    /** Block dst holds the new data at the page that failed, and a copy of every other used page of src. */
    ghost predicate Migrated(src: Block, dst: Block, errorBlock: int, errorPage: int, dat: Dat)
    {
      && |src| == |dst| == pages
      && forall q {:trigger dst[q]} :: 0 <= q < pages ==>
           dst[q] ==
             if q == errorPage then Page(dat, if errorBlock < system then errorBlock else NONE, ecc(dat))
             else Moved(src[q], errorBlock)
    }

    /** What a migrated block holds: the new data, and all data of the other pages that have a spare area in use; the
        other pages are blank. Pages of a block of the system name it, those of a pool block what they named. */
    lemma MigratedHolds(src: Block, dst: Block, errorBlock: int, errorPage: int, dat: Dat, q: nat)
      requires Migrated(src, dst, errorBlock, errorPage, dat) && q < pages
      ensures q == errorPage ==> dst[q].dat == dat && (errorBlock < system ==> dst[q].index == errorBlock)
      ensures q != errorPage && (src[q].index != 0xFFFF || src[q].ecc != 0xFF_FFFF) ==>
                dst[q].dat == src[q].dat && dst[q].index == if errorBlock < system then errorBlock else src[q].index
      ensures q != errorPage && src[q].index == 0xFFFF && src[q].ecc == 0xFF_FFFF ==>
                dst[q] == Page(Erased, 0xFFFF, 0xFF_FFFF)
    {
    }

    /** Writes the failing page to block `to` and copies the others; a block that fails is marked bad
        (lines 584-629). */
    method CopyPages(errorBlock: nat, errorPage: nat, dat: Dat, to: nat) returns (ok: bool)
      requires Valid() && Available(to) && Holds(errorBlock) && errorPage < pages
      modifies this`ops, this`nand, this`bad
      ensures Valid() && Spared(old(nand), old(bad)) && bad == (if ok then old(bad) else old(bad)[to := true])
      ensures forall c :: 0 <= c < Total() && c != to ==> nand[c] == old(nand)[c]
      ensures ok && Blank(old(nand)[to]) ==> Migrated(nand[errorBlock], nand[to], errorBlock, errorPage, dat)
      ensures ops >= old(ops) && (!ok ==> !Healthy(to, old(ops)))
    {
      ok := WritePage(to, errorPage, dat, if errorBlock < system then errorBlock else NONE);
      if ok {
        ok := CopyRest(errorBlock, errorPage, to);
      }
      if !ok {
        MarkBad(to);
      }
    }

    ghost predicate Progress(src: Block, dst: Block, was: Block, errorBlock: int, errorPage: int, page: int)
    {
      && |src| == |dst| == |was| == pages
      && forall q {:trigger dst[q]} ::
           0 <= q < pages ==> dst[q] == if q == errorPage || q >= page then was[q] else Moved(src[q], errorBlock)
    }

    /** All pages but the failing one (lines 607-629) */
    method CopyRest(errorBlock: nat, errorPage: nat, to: nat) returns (ok: bool)
      requires Valid() && Available(to) && Holds(errorBlock) && errorPage < pages
      modifies this`ops, this`nand
      ensures Valid() && forall c :: 0 <= c < Total() && c != to ==> nand[c] == old(nand)[c]
      ensures ok && (forall q :: 0 <= q < pages && q != errorPage ==> old(nand)[to][q] == BLANK) ==>
                Progress(nand[errorBlock], nand[to], old(nand)[to], errorBlock, errorPage, pages)
      ensures ops >= old(ops) && (!ok ==> !Healthy(to, old(ops)))
    {
      ghost var clean := forall q :: 0 <= q < pages && q != errorPage ==> nand[to][q] == BLANK;
      for page := 0 to pages
        invariant Valid() && forall c :: 0 <= c < Total() && c != to ==> nand[c] == old(nand)[c]
        invariant clean ==> Progress(nand[errorBlock], nand[to], old(nand)[to], errorBlock, errorPage, page)
        invariant ops >= old(ops)
      {
        if page != errorPage {
          ok := CopyPage(errorBlock, to, page);
          if !ok {
            return;
          }
        }
      }
      ok := true;
    }

    /** Copies a page if it is used (lines 609-628). */
    method CopyPage(errorBlock: nat, to: nat, page: nat) returns (ok: bool)
      requires Valid() && Available(to) && Holds(errorBlock) && page < pages
      modifies this`ops, this`nand
      ensures Valid() && forall c :: 0 <= c < Total() && c != to ==> nand[c] == old(nand)[c]
      ensures forall q :: 0 <= q < pages && q != page ==> nand[to][q] == old(nand)[to][q]
      ensures ok && old(nand)[to][page] == BLANK ==> nand[to][page] == Moved(old(nand)[errorBlock][page], errorBlock)
      ensures ops >= old(ops) && (!ok ==> !Healthy(to, old(ops)))
    {
      var src := nand[errorBlock][page];
      ok := true;
      if Used(src) {
        ok := WritePage(to, page, src.dat, if errorBlock < system then errorBlock else src.index);
      }
    }

    /** What the search for a replacement does to the flags: nothing healthy is marked, and the block of the table
        is not unless the pool was to be erased. */
    ghost predicate Sought(b0: seq<bool>, o: nat, erased: bool, erasures: nat)
      reads this`bad, this`ops, this`bmtIndex
    {
      && Fair(b0, o) && |bad| == Total() && ops >= o + erasures
      && ((erased || bmtIndex == system) && 0 < bmtIndex < Total() ==> bad[bmtIndex] == b0[bmtIndex])
    }

    /** One attempt to find a block and migrate to it (lines 576-629). */
    method Attempt(errorBlock: nat, errorPage: nat, dat: Dat) returns (to: nat, ok: bool)
      requires Valid() && Holds(errorBlock) && errorPage < pages
      modifies this`ops, this`nand, this`bad, this`poolErased
      ensures Valid() && Spared(old(nand), old(bad)) && poolErased
      ensures to == 0 ==> forall b :: !Available(b)
      ensures to != 0 ==> to < Total() && !old(bad)[to] && if ok then Available(to) else bad[to]
      ensures old(Ready()) ==> PoolBlank(to)
      ensures old(Ready()) && to != 0 && ok ==> Migrated(nand[errorBlock], nand[to], errorBlock, errorPage, dat)
      ensures Sought(old(bad), old(ops), old(poolErased), old(Erasures())) && forall b :: old(Dies(b)) ==> bad[b]
      ensures forall a :: old(Available(a)) && Healthy(a, old(ops)) ==> 0 < to <= a && (to == a ==> ok)
    {
      ok := true;
      to := FindAvailableBlock(false);
      if to == 0 {
        return;
      }
      ghost var n1, b1, o1 := nand, bad, ops;
      label Found:
      ok := CopyPages(errorBlock, errorPage, dat, to);
      SparedTwice(table, count, system, old(nand), old(bad), n1, b1, nand, bad);
      FairTwice(old(bad), old(ops), b1, o1, bad, ops);
      if old(Ready()) {
        forall b | Available(b) && b != to ensures Blank(nand[b]) { assert old@Found(Available(b)); }
      }
    }

    /** `migrate_from_bad` (lines 566-634); it ends because every retry has one good block less. */
    method MigrateFromBad(errorBlock: nat, errorPage: nat, dat: Dat) returns (to: nat)
      requires Valid() && Holds(errorBlock) && errorPage < pages
      modifies this`ops, this`nand, this`bad, this`poolErased
      ensures Valid() && Spared(old(nand), old(bad)) && poolErased
      ensures to != 0 ==> Available(to)
      ensures to == 0 ==> forall b :: !Available(b)
      ensures old(Ready()) ==> PoolBlank(to)
      ensures old(Ready()) && to != 0 ==> Migrated(nand[errorBlock], nand[to], errorBlock, errorPage, dat)
      ensures Sought(old(bad), old(ops), old(poolErased), old(Erasures())) && forall b :: old(Dies(b)) ==> bad[b]
      ensures forall a :: old(Available(a)) && Healthy(a, old(ops)) ==> 0 < to <= a
      decreases Good(bad)
    {
      var ok;
      to, ok := Attempt(errorBlock, errorPage, dat);
      if to == 0 || ok {
        return;
      }
      MarkDrops(old(bad), bad, to);
      ghost var n1, b1, o1 := nand, bad, ops;
      forall a | old(Available(a)) && Healthy(a, old(ops)) ensures Available(a) && Healthy(a, ops) { }
      to := MigrateFromBad(errorBlock, errorPage, dat);
      SparedTwice(table, count, system, old(nand), old(bad), n1, b1, nand, bad);
      FairTwice(old(bad), old(ops), b1, o1, bad, ops);
    }

    /** Writes the image to the table's block; a block that fails is marked bad and given up (lines 655-676). */
    method WriteThere(image: Dat, needErase: bool) returns (ok: bool)
      requires Valid() && bmtIndex != 0
      modifies this`ops, this`nand, this`bad, this`bmtIndex
      ensures Valid() && Spared(old(nand), old(bad)) && bad[old(bmtIndex)] == (!ok || old(bad)[old(bmtIndex)])
      ensures forall c :: 0 <= c < Total() && c != old(bmtIndex) ==> nand[c] == old(nand)[c] && bad[c] == old(bad)[c]
      ensures bmtIndex == if ok then old(bmtIndex) else 0
      ensures ok && (needErase || Blank(old(nand)[bmtIndex])) ==> nand[bmtIndex][0] == Page(image, NONE, ecc(image))
      ensures ops >= old(ops) && (ok ==> !Doomed(old(bmtIndex), old(ops))) &&
              (!ok ==> !Healthy(old(bmtIndex), old(ops)))
    {
      ok := true;
      if needErase {
        ok := EraseBlock(bmtIndex);
      }
      if ok {
        ok := WritePage(bmtIndex, 0, image, NONE);
      }
      if !ok {
        MarkBad(bmtIndex);
        bmtIndex := 0;
      }
    }

    /** The image is in the table's block. */
    ghost predicate Recorded(image: Dat)
      reads this`nand, this`bmtIndex
    {
      bmtIndex != 0 && bmtIndex < |nand| && |nand[bmtIndex]| > 0 && nand[bmtIndex][0] == Page(image, NONE, ecc(image))
    }

    /** Chooses a block for the table unless it has one, which must be erased first (lines 641-651). */
    method ChooseBlock() returns (needErase: bool)
      requires Valid() && poolErased
      modifies this`ops, this`nand, this`bad, this`bmtIndex, this`poolErased
      ensures Valid() && poolErased && nand == old(nand) && bad == old(bad) && ops == old(ops) &&
              needErase == (old(bmtIndex) != 0)
      ensures needErase ==> bmtIndex == old(bmtIndex)
      ensures !needErase ==>
                if bmtIndex == 0 then forall b :: !Available(b) && !old(Available(b))
                else (var t := bmtIndex; old(Available(t))) && Topmost(bmtIndex)
    {
      needErase := bmtIndex != 0;
      if !needErase {
        var r := FindAvailableBlock(true);
        forall c | r != 0 && system <= c < Total() && r < c ensures bad[c] || IsMapped(c) { assert !Available(c); }
        forall b | r == 0 ensures !old(Available(b)) { assert !Available(b); }
        bmtIndex := r;
      }
    }

    /** The table is where it was at ix, with the flags b0, or that block is given up and the table is in the last
        pool block that can be taken. */
    ghost predicate Placed(ix: nat, b0: seq<bool>)
      reads this`bad, this`table, this`count, this`bmtIndex
    {
      && 0 < bmtIndex < Total() && |bad| == Total() && ix < Total()
      && if bmtIndex == ix then bad == b0 else !bad[bmtIndex] && (ix != 0 ==> bad[ix]) && Topmost(bmtIndex)
    }

    /** The table can be written to block w and to no other. */
    ghost predicate Forced(w: int)
      reads this`bad, this`table, this`count, this`bmtIndex, this`ops
    {
      && Available(w) && Healthy(w, ops) && (bmtIndex != 0 ==> Doomed(bmtIndex, ops))
      && forall b {:trigger Available(b)} :: Available(b) && b > w ==> Doomed(b, ops)
    }

    /** One attempt to find a block for the table and to write it (lines 641-676). */
    method AttemptWrite(image: Dat, ghost except: int) returns (found: bool, ok: bool)
      requires Valid() && poolErased
      modifies this`ops, this`nand, this`bad, this`bmtIndex, this`poolErased
      ensures Valid() && Spared(old(nand), old(bad)) && poolErased && Fair(old(bad), old(ops))
      ensures !found ==> !ok && bmtIndex == 0 == old(bmtIndex) && forall b :: !Available(b)
      ensures found && ok ==> Placed(old(bmtIndex), old(bad))
      ensures found && !ok ==>
                bmtIndex == 0 && (if old(bmtIndex) == 0 then Good(bad) < Good(old(bad)) else bad[old(bmtIndex)])
      ensures old(PoolBlank(except)) ==> PoolBlank(except) && (found && ok && bmtIndex != except ==> Recorded(image))
      ensures old(bmtIndex) != 0 && Healthy(old(bmtIndex), old(ops)) ==> found && ok && bmtIndex == old(bmtIndex)
      ensures forall w :: old(Forced(w)) ==> found && if ok then bmtIndex == w else Forced(w)
    {
      var needErase := ChooseBlock();
      if bmtIndex == 0 {
        return false, false;
      }
      ghost var b := bmtIndex;
      found := true;
      ok := WriteThere(image, needErase);
      if !ok && !needErase {
        MarkDrops(old(bad), bad, b);
      }
      if old(PoolBlank(except)) {
        assert !needErase && b != except ==> Blank(old(nand)[b]);
        forall c | Available(c) && c != except ensures Blank(nand[c]) { assert old(Available(c)); }
      }
      forall w | old(Forced(w)) ensures if ok then b == w else Forced(w) {
        forall c | !ok && Available(c) && c > w ensures Doomed(c, ops) { assert old(Available(c)); }
      }
    }

    /** `write_bmt_to_flash` (lines 636-680); it ends because every retry has one good block less. */
    method WriteBmtToFlash(image: Dat, ghost except: int) returns (ok: bool)
      requires Valid() && poolErased
      modifies this`ops, this`nand, this`bad, this`bmtIndex, this`poolErased
      ensures Valid() && Spared(old(nand), old(bad)) && poolErased && Fair(old(bad), old(ops))
      ensures if ok then Placed(old(bmtIndex), old(bad)) else bmtIndex == 0 && forall b :: !Available(b)
      ensures old(PoolBlank(except)) ==> PoolBlank(except) && (ok && bmtIndex != except ==> Recorded(image))
      ensures old(bmtIndex) != 0 && Healthy(old(bmtIndex), old(ops)) ==> ok && bmtIndex == old(bmtIndex)
      ensures forall w :: old(Forced(w)) ==> ok && bmtIndex == w
      decreases Good(bad), if bmtIndex == 0 then 0 else 1
    {
      var found;
      found, ok := AttemptWrite(image, except);
      if !found || ok {
        return;
      }
      GoodDrops(old(bad), bad);
      ghost var n1, b1, o1 := nand, bad, ops;
      ok := WriteBmtToFlash(image, except);
      SparedTwice(table, count, system, old(nand), old(bad), n1, b1, nand, bad);
      FairTwice(old(bad), old(ops), b1, o1, bad, ops);
    }

    /** The block may fail: a system block that is still in its place, or a pool block that is mapped. */
    ghost predicate InService(block: int)
      reads this`table, this`count
    {
      count <= |table| && 0 <= block < Total() &&
      if block < system then forall i :: 0 <= i < count ==> table[i].bad != block else IsMapped(block)
    }

    /** The update of the table (lines 929-950) */
    method Remap(block: nat, m: nat) returns (ghost l: nat)
      requires Valid() && Available(m) && InService(block)
      modifies this`table, this`count
      ensures Valid() && l < system && Physical(old(table), old(count), l) == block
      ensures Remapped(old(table), old(count), table, count, l, m)
      ensures forall b :: IsMapped(b) <==> (old(IsMapped(b)) && b != block) || b == m
    {
      RoomLeft(table, count, system, Total(), m);
      if block >= system {
        var i := 0;
        while i < pool && table[i].mapped != block
          invariant 0 <= i <= pool && forall j :: 0 <= j < i ==> table[j].mapped != block
        {
          i := i + 1;
        }
        l := RemapEntry(block, m, i);
      } else {
        AddEntry(table, count, system, Total(), Entry(block, m));
        PhysicalOther(table, count, block);
        l := block;
        table := table[count := Entry(block, m)];
        count := count + 1;
      }
    }

    method RemapEntry(block: nat, m: nat, i: nat) returns (ghost l: nat)
      requires Valid() && Available(m) && system <= block && i < count && table[i].mapped == block
      modifies this`table
      ensures Valid() && l < system && Physical(old(table), count, l) == block
      ensures Remapped(old(table), count, table, count, l, m)
      ensures forall b :: IsMapped(b) <==> (old(IsMapped(b)) && b != block) || b == m
    {
      ReplaceEntry(table, count, system, Total(), i, m);
      PhysicalIs(table, count, table[i].bad, i);
      l := table[i].bad;
      table := table[i := Entry(table[i].bad, m)];
    }

    /** If m replaces the block, the table can be written to that block only. */
    ghost predicate Cornered(block: int, m: int)
      reads this`bad, this`table, this`count, this`bmtIndex, this`ops
    {
      && system <= block && Healthy(block, ops) && (bmtIndex != 0 ==> Doomed(bmtIndex, ops))
      && forall b {:trigger Available(b)} :: Available(b) && b > block && b != m ==> Doomed(b, ops)
    }

    /** The table has no block, or it has a good one that will not fail to be erased with the pool. */
    ghost predicate TableSafe()
      reads this`bad, this`bmtIndex, this`poolErased, this`ops
    {
      bmtIndex == 0 ||
      (bmtIndex < |bad| && !bad[bmtIndex] && (poolErased || bmtIndex == system || Healthy(bmtIndex, ops)))
    }

    /** No block with data looks like a table. */
    ghost predicate NoImages()
      reads this`nand, this`table, this`count
    {
      |nand| == Total() && forall b {:trigger nand[b]} :: 0 <= b < Total() && Holds(b) ==> NoImage(nand[b])
    }

    lemma CleanReplacement(src: Block, dst: Block, block: int, page: int, writeFail: bool, dat: Dat)
      requires |src| == |dst| == pages && NoImage(src) && !dat.Image?
      requires if writeFail then Migrated(src, dst, block, page, dat) else Blank(dst)
      ensures NoImage(dst)
    {
    }

    /** A replacement for the block, with its contents if a write failed (lines 911-927). */
    method Fetch(block: nat, page: nat, writeFail: bool, dat: Dat) returns (m: nat)
      requires Valid() && Holds(block) && page < pages
      modifies this`ops, this`nand, this`bad, this`poolErased
      ensures Valid() && Spared(old(nand), old(bad)) && poolErased
      ensures if m == 0 then forall b :: !Available(b) else Available(m) && old(Available(m))
      ensures old(Ready()) ==> PoolBlank(m)
      ensures old(Ready()) && m != 0 ==>
                if writeFail then Migrated(old(nand)[block], nand[m], block, page, dat) else Blank(nand[m])
      ensures FairIn(old(bad), old(ops), bad, ops) && ops >= old(ops) + old(Erasures()) &&
              forall b :: old(Dies(b)) ==> bad[b]
      ensures forall a :: old(Available(a)) && Healthy(a, old(ops)) ==> 0 < m <= a
      ensures old(TableSafe()) && bmtIndex != 0 ==> !bad[bmtIndex]
    {
      if writeFail {
        m := MigrateFromBad(block, page, dat);
      } else {
        m := FindAvailableBlock(false);
      }
    }

    /** The same, with what follows for the table and for the contents. */
    method Obtain(block: nat, page: nat, writeFail: bool, dat: Dat) returns (m: nat)
      requires Valid() && Holds(block) && page < pages
      modifies this`ops, this`nand, this`bad, this`poolErased
      ensures Valid() && Spared(old(nand), old(bad)) && poolErased
      ensures if m == 0 then forall b :: !Available(b) else Available(m) && old(Available(m))
      ensures old(Ready()) ==> PoolBlank(m)
      ensures old(Ready()) && m != 0 ==>
                if writeFail then Migrated(old(nand)[block], nand[m], block, page, dat) else Blank(nand[m])
      ensures FairIn(old(bad), old(ops), bad, ops) && ops >= old(ops) + old(Erasures()) &&
              forall b :: old(Dies(b)) ==> bad[b]
      ensures forall a :: old(Available(a)) && Healthy(a, old(ops)) ==> 0 < m <= a
      ensures old(TableSafe()) && bmtIndex != 0 ==> !bad[bmtIndex]
      ensures old(Cornered(block, m)) ==> Cornered(block, m)
      ensures old(Ready() && NoImages()) && !dat.Image? ==> NoImages() && (m != 0 ==> NoImage(nand[m]))
    {
      m := Fetch(block, page, writeFail, dat);
      if old(Cornered(block, m)) {
        forall b | Available(b) && b > block && b != m ensures Doomed(b, ops) { assert old(Available(b)); }
      }
      if old(Ready() && NoImages()) && !dat.Image? && m != 0 {
        CleanReplacement(old(nand)[block], nand[m], block, page, writeFail, dat);
      }
    }

    /** The table was at ix, with the flags b0; now it is recorded and the block marked bad. */
    ghost predicate Settled(ix: nat, b0: seq<bool>, block: nat)
      reads this`bad, this`table, this`count, this`bmtIndex
    {
      && 0 < bmtIndex < Total() && |bad| == |b0| == Total() && block < Total() && ix < Total() && bad[block]
      && if bmtIndex == ix then bad[ix] == b0[ix]
         else (bad[bmtIndex] <==> bmtIndex == block) && (ix != 0 ==> bad[ix]) && Topmost(bmtIndex)
    }

    /** Records the table and marks the block bad (lines 952-957). */
    method Record(block: nat) returns (ok: bool)
      requires Valid() && poolErased && block < Total() && !IsMapped(block) && (bmtIndex != 0 ==> bmtIndex != block)
      modifies this`ops, this`nand, this`bad, this`bmtIndex, this`poolErased
      ensures Valid() && poolErased && (old(PoolBlank(block)) ==> PoolBlank(-1)) &&
              (!ok ==> bmtIndex == 0 && forall b :: !Available(b))
      ensures forall b :: 0 <= b < Total() && Holds(b) ==> nand[b] == old(nand)[b]
      ensures ok ==> Settled(old(bmtIndex), old(bad), block)
      ensures old(PoolBlank(block)) && ok && bmtIndex != block ==> Recorded(Image(Fill(table, count, pool)))
      ensures |bad| == |old(bad)| && FairIn(old(bad)[block := bad[block]], old(ops), bad, ops) &&
              forall b :: 0 <= b < Total() && old(bad)[b] ==> bad[b]
      ensures old(bmtIndex) != 0 && Healthy(old(bmtIndex), old(ops)) ==> ok && bmtIndex == old(bmtIndex)
      ensures forall w :: old(Forced(w)) ==> ok && bmtIndex == w
    {
      ok := WriteBmtToFlash(Image(Fill(table, count, pool)), block);
      if !ok {
        return;
      }
      Retire(block);
    }

    /** Marks a block bad that is not mapped any more (line 957). */
    method Retire(block: nat)
      requires Valid() && block < Total() && !IsMapped(block)
      modifies this`bad
      ensures Valid() && bad == old(bad)[block := true] && forall b :: Available(b) ==> old(Available(b)) && b != block
      ensures forall b :: old(Topmost(b)) ==> Topmost(b)
    {
      MarkBad(block);
    }

    /** Enters the replacement into the table and records it (lines 929-957). */
    method Switch(block: nat, m: nat) returns (ok: bool, ghost l: nat)
      requires Valid() && InService(block) && Available(m) && poolErased
      modifies this`ops, this`nand, this`bad, this`poolErased, this`table, this`count, this`bmtIndex
      ensures Valid() && poolErased && (old(PoolBlank(m)) ==> PoolBlank(-1)) && (!ok ==> forall b :: !Available(b))
      ensures l < system && Physical(old(table), old(count), l) == block &&
              Remapped(old(table), old(count), table, count, l, m)
      ensures forall b :: IsMapped(b) <==> (old(IsMapped(b)) && b != block) || b == m
      ensures forall b :: 0 <= b < Total() && Holds(b) ==> nand[b] == old(nand)[b] && (b == m || old(Holds(b)))
      ensures ok ==> Settled(old(bmtIndex), old(bad), block)
      ensures ok && old(PoolBlank(m)) && bmtIndex != block ==> Recorded(Image(Fill(table, count, pool)))
      ensures |bad| == |old(bad)| && FairIn(old(bad)[block := bad[block]], old(ops), bad, ops) &&
              forall b :: 0 <= b < Total() && old(bad)[b] ==> bad[b]
      ensures old(bmtIndex) != 0 && Healthy(old(bmtIndex), old(ops)) ==> ok && bmtIndex == old(bmtIndex)
      ensures old(Cornered(block, m)) ==> ok && bmtIndex == block
      ensures old(NoImages() && NoImage(nand[m])) ==> NoImages()
    {
      l := Remap(block, m);
      assert IsMapped(m);
      if old(PoolBlank(m)) {
        forall b | Available(b) && b != block ensures Blank(nand[b]) { assert old(Available(b)); }
      }
      if old(Cornered(block, m)) {
        forall b | Available(b) && b > block ensures Doomed(b, ops) { assert old(Available(b)); }
        assert Forced(block);
      }
      forall b | Holds(b) ensures b == m || old(Holds(b)) { assert b < system || IsMapped(b); }
      ok := Record(block);
    }

    /** The steps of `update_bmt` (lines 911-959). Block m replaces the block that fails, for the system block l. */
    method Replace(block: nat, page: nat, writeFail: bool, dat: Dat) returns (ok: bool, ghost l: nat, ghost m: nat)
      requires Valid() && InService(block) && page < pages
      modifies this`ops, this`nand, this`bad, this`poolErased, this`table, this`count, this`bmtIndex
      ensures Valid() && poolErased && (old(Ready()) ==> PoolBlank(-1)) && (!ok ==> forall b :: !Available(b))
      // the table
      ensures if m == 0 then !ok && table == old(table) && count == old(count) && bmtIndex == old(bmtIndex)
              else
                old(Available(m)) && l < system && Physical(old(table), old(count), l) == block &&
                Remapped(old(table), old(count), table, count, l, m)
      ensures m != 0 ==> forall b :: IsMapped(b) <==> (old(IsMapped(b)) && b != block) || b == m
      ensures forall a :: old(Available(a)) && Healthy(a, old(ops)) ==> 0 < m <= a
      // the contents
      ensures forall b :: 0 <= b < Total() && Holds(b) && (b != m || m == 0) ==> nand[b] == old(nand)[b]
      ensures m != 0 && old(Ready()) ==>
                if writeFail then Migrated(old(nand)[block], nand[m], block, page, dat) else Blank(nand[m])
      ensures old(Ready() && NoImages()) && !dat.Image? ==> NoImages()
      // the table in flash
      ensures ok && old(Ready()) && bmtIndex != block ==> Recorded(Image(Fill(table, count, pool)))
      ensures ok ==>
                0 < bmtIndex < Total() && bad[block] &&
                (bmtIndex != old(bmtIndex) ==> (bad[bmtIndex] <==> bmtIndex == block) && Topmost(bmtIndex))
      ensures ok && old(TableSafe()) ==> (bad[bmtIndex] <==> bmtIndex == block)
      ensures m != 0 && old(bmtIndex) != 0 && Healthy(old(bmtIndex), old(ops) + old(Erasures())) ==>
                ok && bmtIndex == old(bmtIndex)
      ensures m != 0 && old(Cornered(block, m)) ==> ok && bmtIndex == block
      // the flags
      ensures |bad| == |old(bad)| && FairIn(old(bad)[block := bad[block]], old(ops), bad, ops)
      ensures forall b :: 0 <= b < Total() && (old(bad)[b] || old(Dies(b))) ==> bad[b]
    {
      l := 0;
      m := 0;
      ok := false;
      var r := Obtain(block, page, writeFail, dat);
      if r == 0 {
        return;
      }
      m := r;
      ghost var n1, b1, o1 := nand, bad, ops;
      ok, l := Switch(block, r);
      FairSwitch(old(bad), old(ops), b1, o1, bad, ops, block);
      forall b | 0 <= b < Total() && Holds(b) && b != m ensures nand[b] == old(nand)[b] {
        assert n1[b] == old(nand)[b];
      }
    }

    lemma FairSwitch(b0: seq<bool>, o0: nat, b1: seq<bool>, o1: nat, b2: seq<bool>, o2: nat, block: nat)
      requires FairIn(b0, o0, b1, o1) && block < |b1| == |b2| && FairIn(b1[block := b2[block]], o1, b2, o2)
      ensures FairIn(b0[block := b2[block]], o0, b2, o2)
    {
      forall b | 0 <= b < |b2| && Healthy(b, o0) ensures b2[b] == b0[block := b2[block]][b] {
        assert Healthy(b, o1) && (b != block ==> b1[b] == b0[b]);
      }
    }

    // ---- whether the table survives an update ----

    /** A start can find the table's block: it is good. */
    ghost predicate TableGood()
      reads this`bad, this`bmtIndex
    {
      0 < bmtIndex < |bad| && !bad[bmtIndex]
    }

    ghost predicate Calm()
      reads this`ops
    {
      forall b {:trigger Healthy(b, ops)} :: Healthy(b, ops)
    }

    /** Two healthy blocks can be taken, the second of them above the failing block. */
    ghost predicate Spare(block: int, v: int, w: int)
      reads this`bad, this`table, this`count, this`bmtIndex, this`ops
    {
      v < w && block < w && Available(v) && Available(w) && Healthy(v, ops) && Healthy(w, ops)
    }

    /** A block of the system fails, or the table stays where it is, or there is another place for it above the
        failing block. */
    ghost predicate Kept(block: int)
      reads this`bad, this`table, this`count, this`bmtIndex, this`ops
    {
      block < system || (bmtIndex != 0 && Healthy(bmtIndex, ops)) || exists v, w :: Spare(block, v, w)
    }

    /** What can be seen before the call: no update is possible, or a block of the system fails while the table
        has no block yet or a good one in a pool that is erased. */
    ghost predicate Sure(block: int)
      reads this`bad, this`table, this`count, this`bmtIndex, this`poolErased
    {
      (forall b :: !Available(b)) ||
      (block < system && (bmtIndex == 0 || (poolErased && bmtIndex < |bad| && !bad[bmtIndex])))
    }

    /** Block a will replace the failing block, and the table will end in a bad block: the failing one, or its own
        one that is bad or could not be erased with the pool. */
    ghost predicate LosesWith(block: int, a: int)
      reads this`bad, this`table, this`count, this`bmtIndex, this`poolErased, this`ops
    {
      && First(a) && Healthy(a, ops)
      && (Cornered(block, a)
          || (0 < bmtIndex < |bad| && Healthy(bmtIndex, ops + Erasures()) && (bad[bmtIndex] || Dies(bmtIndex))))
    }

    ghost predicate Loses(block: int)
      reads this`bad, this`table, this`count, this`bmtIndex, this`poolErased, this`ops
    {
      exists a :: LosesWith(block, a)
    }

    /** `update_bmt` (lines 900-960). Block m replaces the block that fails, for the system block l. Sure keeps the
        table on every device. When the table is safe to begin with (TableSafe), Kept keeps it, and as long as the
        device does not fail the table survives exactly if Kept holds. */
    method UpdateBmt(block: nat, page: nat, writeFail: bool, dat: Dat) returns (ok: bool, ghost l: nat, ghost m: nat)
      requires Valid() && InService(block) && page < pages
      modifies this`ops, this`nand, this`bad, this`poolErased, this`table, this`count, this`bmtIndex
      ensures Valid() && poolErased && (old(Ready()) ==> PoolBlank(-1)) && (!ok ==> forall b :: !Available(b))
      // the table
      ensures if m == 0 then !ok && table == old(table) && count == old(count) && bmtIndex == old(bmtIndex)
              else
                old(Available(m)) && l < system && Physical(old(table), old(count), l) == block &&
                Remapped(old(table), old(count), table, count, l, m)
      ensures m != 0 ==> forall b :: IsMapped(b) <==> (old(IsMapped(b)) && b != block) || b == m
      ensures forall a :: old(Available(a)) && Healthy(a, old(ops)) ==> 0 < m <= a
      // the contents
      ensures forall b :: 0 <= b < Total() && Holds(b) && (b != m || m == 0) ==> nand[b] == old(nand)[b]
      ensures m != 0 && old(Ready()) ==>
                if writeFail then Migrated(old(nand)[block], nand[m], block, page, dat) else Blank(nand[m])
      ensures old(Ready() && NoImages()) && !dat.Image? ==> NoImages()
      // the table in flash
      ensures ok && old(Ready()) && TableGood() ==> Recorded(Image(Fill(table, count, pool)))
      ensures ok ==> 0 < bmtIndex < Total() && bad[block]
      ensures ok && old(TableSafe() && Kept(block)) ==> TableGood()
      ensures ok && old(Calm() && TableSafe()) ==> (TableGood() <==> old(Kept(block)))
      ensures ok && old(Sure(block)) ==> TableGood()
      ensures old(Loses(block)) ==> ok && !TableGood()
      ensures ok && old(TableSafe()) && !TableGood() ==> bmtIndex == block
      // the flags
      ensures |bad| == |old(bad)| && FairIn(old(bad)[block := bad[block]], old(ops), bad, ops)
      ensures forall b :: 0 <= b < Total() && (old(bad)[b] || old(Dies(b))) ==> bad[b]
    {
      ok, l, m := Replace(block, page, writeFail, dat);
      if ok && bmtIndex == block {
        forall w | old(Available(w)) && block < w && Healthy(w, old(ops)) ensures w == m {
          assert bad[w] == old(bad)[w];
        }
        forall v, w ensures !old(Spare(block, v, w)) { }
      }
      if ok && old(Calm() && TableSafe()) {
        assert old(Healthy(bmtIndex, ops)) && old(Healthy(block, ops)) && old(Healthy(m, ops));
        if b :| old(Available(b)) && b > block && b != m {
          assert old(Healthy(b, ops)) && old(Spare(block, m, b));
        }
        assert old(Kept(block)) || old(Cornered(block, m));
      }
      if old(Loses(block)) {
        ghost var a :| old(LosesWith(block, a));
        assert m == a;
      }
    }

    /** Without Sure some device that has behaved the same so far loses the table. */
    method Unlucky(block: nat) returns (d: Table)
      requires Valid() && InService(block) && !Sure(block)
      ensures fresh(d) && Copies(d) && d.Valid() && d.InService(block) && d.Loses(block)
      ensures (Ready() ==> d.Ready()) && (NoImages() ==> d.NoImages())
    {
      ghost var some :| Available(some);
      var a := Search(false);
      assert First(a) by { assert Available(some); }
      if block >= system {
        d := new Table.Future(this, (n, b) => b != a && b != block);
      } else {
        var t, o := bmtIndex, ops + Erasures();
        d := new Table.Future(this, (n, b) => b == t && n < o);
        assert d.Erasures() == Erasures();
      }
      forall b ensures d.Available(b) == Available(b) && d.Holds(b) == Holds(b) { }
      assert d.LosesWith(block, a);
    }

    // ---- what the layers above see ----

    ghost function Place(l: nat): (b: int)
      reads this`nand, this`bad, this`table, this`count, this`bmtIndex
      requires Valid() && l < system
      ensures 0 <= b < Total() && Holds(b) && InService(b)
    {
      PlaceFacts(l);
      Physical(table, count, l)
    }

    lemma PlaceFacts(l: nat)
      requires Valid() && l < system
      ensures var b := Physical(table, count, l); 0 <= b < Total() && Holds(b) && InService(b)
    {
      var i := PhysicalCases(table, count, l);
    }

    /** Two blocks of the system are never in the same place. */
    lemma PlacesDiffer(a: nat, b: nat)
      requires Valid() && a < system && b < system && a != b
      ensures Place(a) != Place(b)
    {
      PhysicalInjective(table, count, system, Total(), a, b);
    }

    /** An operation on block e.l of the system fails: afterwards that block is where it was with its old
        contents, or elsewhere, with its old contents and the new page if a write failed and erased if an erasure
        did; all others are untouched. */
    method BlockFails(e: Event, was: nat) returns (ok: bool, ghost now: int)
      requires Valid() && e.l < system && e.page < pages && was == Place(e.l)
      modifies this`ops, this`nand, this`bad, this`poolErased, this`table, this`count, this`bmtIndex
      ensures Valid() && poolErased && (old(Ready()) ==> PoolBlank(-1)) && now == Place(e.l)
      ensures forall k: nat ::
                k < system && k != e.l ==> Place(k) == old(Place(k)) && nand[Place(k)] == old(nand[Place(k)])
      ensures if ok then now != was && bad[was] && bmtIndex != 0 else forall b :: !Available(b)
      ensures now == was ==> nand[now] == old(nand)[was]
      ensures now != was && old(Ready()) ==>
                if e.writeFail then Migrated(old(nand)[was], nand[now], was, e.page, e.dat) else Blank(nand[now])
      ensures old(Ready() && NoImages()) && !e.dat.Image? ==> NoImages()
      ensures ok && old(Ready()) && TableGood() ==> Recorded(Image(Fill(table, count, pool)))
      ensures ok && old(TableSafe() && Kept(was)) ==> TableGood()
      ensures ok && old(Calm() && TableSafe()) ==> (TableGood() <==> old(Kept(was)))
      ensures ok && old(Sure(was)) ==> TableGood()
      ensures old(Loses(was)) ==> ok && !TableGood()
    {
      ghost var l, m;
      ok, l, m := UpdateBmt(was, e.page, e.writeFail, e.dat);
      now := Place(e.l);
      if m != 0 {
        if l != e.l { PhysicalInjective(old(table), old(count), system, Total(), l, e.l); }
        forall k: nat | k < system && k != e.l ensures Place(k) == old(Place(k)) &&
            nand[Place(k)] == old(nand[Place(k)]) {
          PlacesDiffer(k, e.l);
        }
      }
    }

    // ---- the next start ----

    /** A good block whose first page holds a valid table */
    ghost predicate Offers(b: int)
      reads this`nand, this`bad
    {
      && system <= b < Total() && |nand| == |bad| == Total() && !bad[b] && |nand[b]| > 0
      && var d := nand[b][0].dat; d.Image? && Accepted(d.phys, pool, system, Total())
    }

    /** A table with one wrong byte is passed over. */
    lemma DamagedIsSkipped(b: nat, t: seq<Entry>, c: nat)
      requires Shape() && b < Total() && nand[b][0].dat.Image? && pool <= |t|
      requires var p := nand[b][0].dat.phys; pool <= |p.table| && OneByteOff(p, Fill(t, c, pool), pool)
      ensures !Offers(b)
    {
      DamageRefused(nand[b][0].dat.phys, t, c, pool, system, Total());
    }

    /** The last block with a table */
    ghost predicate Last(f: int)
      reads this`nand, this`bad
    {
      Offers(f) && forall b :: f < b ==> !Offers(b)
    }

    /** The search of `load_bmt_data` (lines 398-458), from the end of the pool: 0 if no block has a table */
    method FindTable() returns (r: nat)
      requires Shape()
      ensures if r == 0 then forall b :: !Offers(b) else Last(r)
    {
      var b := Total() - 1;
      while b >= system
        invariant system - 1 <= b < Total() && forall c :: b < c ==> !Offers(c)
      {
        if !bad[b] {
          var d := nand[b][0].dat;
          if d.Image? && d.phys.signature == "BMT" {
            if ValidData(d.phys, pool, system, Total()) {
              return b;
            }
          }
        }
        b := b - 1;
      }
      return 0;
    }

    /** Marks the replaced blocks bad, should that have been missed (lines 443-450). */
    method MarkReplaced()
      requires Shape() && Mapping(table, count, system, Total())
      modifies this`bad
      ensures Shape() && |bad| == |old(bad)|
      ensures forall b :: 0 <= b < Total() ==> (bad[b] <==> old(bad)[b] || Physical(table, count, b) != b)
    {
      for i := 0 to count
        invariant Shape() && forall b :: 0 <= b < Total() ==> (bad[b] <==> old(bad)[b] || Physical(table, i, b) != b)
      {
        if !bad[table[i].bad] {
          MarkBad(table[i].bad);
        }
      }
    }

    /** The entries of a table in flash; those in memory were cleared before (lines 842 and 436-439). */
    method TakeOver(p: Phys)
      requires |table| == MAX_BMT_SIZE > pool && 0 < system && 0 <= p.count <= |p.table| && p.count <= pool &&
               Mapping(p.table, p.count, system, Total())
      modifies this`table, this`count
      ensures |table| == MAX_BMT_SIZE && count == p.count && TableOK() &&
              forall i :: 0 <= i < count ==> table[i] == p.table[i]
    {
      table := seq(MAX_BMT_SIZE, _ => Entry(0, 0));
      count := p.count;
      table := Reload(p, table);
    }

    /** Takes over a table in flash that was filled from t (lines 436-450). */
    method Adopt(p: Phys, ghost t: seq<Entry>, ghost c: nat)
      requires Shape() && c <= pool && |t| == MAX_BMT_SIZE && Mapping(t, c, system, Total()) && p == Fill(t, c, pool) &&
               p.count <= |p.table|
      modifies this`table, this`count, this`bad
      ensures Shape() && count == c && TableOK() && |bad| == |old(bad)|
      ensures forall b :: system <= b < Total() ==> bad[b] == old(bad)[b]
      ensures forall b :: 0 <= b < system ==> (bad[b] <==> old(bad)[b] || Physical(table, c, b) != b)
      ensures forall i :: 0 <= i < c ==> table[i] == t[i]
    {
      FilledIs(t, c, pool, system, Total());
      TakeOver(p);
      MarkReplaced();
      forall b | system <= b < Total() ensures Physical(table, c, b) == b { PhysicalOther(table, c, b); }
    }

    /** The table in memory is the one that the next start will find. */
    ghost predicate Findable()
      reads this`nand, this`bad, this`table, this`count, this`bmtIndex
    {
      pool <= |table| && Recorded(Image(Fill(table, count, pool))) && TableGood() &&
      forall b :: bmtIndex < b ==> !Offers(b)
    }

    lemma FoundIsOffered()
      requires Valid() && Findable()
      ensures Offers(bmtIndex)
    {
      FillReloads(table, count, pool, system, Total(), table, 0);
    }

    /** A recorded table in a good block is found, if no other block looks like one. */
    lemma RecordedIsFound()
      requires Valid() && Recorded(Image(Fill(table, count, pool))) && TableGood() && PoolBlank(-1) && NoImages()
      ensures Findable()
    {
      forall b | bmtIndex < b ensures !Offers(b) { assert Offers(b) ==> Holds(b) || Available(b); }
    }

    /** A table in a bad block is not found; nor is one that was erased with the pool. */
    lemma BadIsLost()
      requires Valid() && NoImages() && ((PoolBlank(-1) && !TableGood()) || PoolErasedUpTo(Total()))
      ensures forall b :: !Offers(b)
    {
      forall b ensures !Offers(b) { assert Offers(b) ==> Holds(b) || b == bmtIndex || Available(b); }
    }

    lemma SamePlaces(t: seq<Entry>, c: nat, l: nat)
      requires Valid() && c == count <= |t| && (forall i :: 0 <= i < c ==> table[i] == t[i]) && l < system
      ensures Place(l) == Physical(t, c, l)
    {
      SamePhysical(table, t, c, l);
    }

    lemma SameMapped(t: seq<Entry>, c: nat, b: int)
      requires c == count <= |t| && c <= |table| && forall i :: 0 <= i < c ==> table[i] == t[i]
      ensures IsMapped(b) <==> Mapped(t, c, b)
    {
      if Mapped(t, c, b) {
        var i :| 0 <= i < c && t[i].mapped == b;
        assert table[i].mapped == b;
      }
    }

    /** The search finds the table. */
    method Locate() returns (r: nat)
      requires Valid() && Findable()
      ensures r == bmtIndex
    {
      r := FindTable();
      FoundIsOffered();
    }

    /** A table that can be found is found, and every block is where it was (lines 786-884). */
    method Restart() returns (r: nat)
      requires Valid() && Findable()
      modifies this
      ensures Valid() && r == bmtIndex == old(bmtIndex) && nand == old(nand) && !poolErased && count == old(count)
      ensures forall l: nat :: l < system ==> Place(l) == old(Place(l))
      ensures forall b :: IsMapped(b) <==> old(IsMapped(b))
      ensures forall b :: system <= b < Total() ==> bad[b] == old(bad)[b]
      ensures forall l: nat :: l < system ==> (bad[l] <==> old(bad)[l] || Place(l) != l)
    {
      ghost var t, c := table, count;
      r := Locate();
      Adopt(nand[r][0].dat.phys, t, c);
      poolErased, bmtIndex := false, r;
      forall b ensures IsMapped(b) <==> Mapped(t, c, b) { SameMapped(t, c, b); }
      forall b | 0 <= b < Total() && IsMapped(b) ensures !bad[b] { assert old(IsMapped(b)); }
      assert Valid();
      forall l: nat | l < system ensures Place(l) == Physical(t, c, l) { SamePlaces(t, c, l); }
    }

    /** A block fails and the device starts anew: if the table survives the failure, every block is found where it
        is, the failing one at its replacement. */
    method FailsThenStarts(e: Event, was: nat) returns (ok: bool, ghost now: int)
      requires Valid() && Ready() && NoImages() && e.l < system && was == Place(e.l) && e.page < pages && !e.dat.Image?
      requires TableSafe() && Kept(was)
      modifies this
      ensures Valid() && (ok ==> now == Place(e.l) != was)
      ensures ok ==>
                forall k: nat ::
                  k < system && k != e.l ==> Place(k) == old(Place(k)) && nand[Place(k)] == old(nand[Place(k)])
      ensures ok ==> if e.writeFail then Migrated(old(nand)[was], nand[now], was, e.page, e.dat) else Blank(nand[now])
    {
      ok, now := BlockFails(e, was);
      if ok {
        RecordedIsFound();
        label Updated:
        var r := Restart();
        assert forall k: nat :: k < system ==> Place(k) == old@Updated(Place(k));
      }
    }

    /** On a device that loses the table the update reports success, and the next start finds no table. */
    method Forgets(e: Event, was: nat) returns (ok: bool, r: nat)
      requires Valid() && Ready() && NoImages() && e.l < system && was == Place(e.l) && e.page < pages && !e.dat.Image?
      requires Loses(was)
      modifies this
      ensures Valid() && ok && bad[was] && bmtIndex != 0 && !TableGood() && (old(TableSafe()) ==> bmtIndex == was)
      ensures forall b :: 0 <= b < Total() && old(bad)[b] ==> bad[b]
      ensures r == 0 && forall b :: !Offers(b)
    {
      ghost var l, m;
      ok, l, m := UpdateBmt(was, e.page, e.writeFail, e.dat);
      BadIsLost();
      r := FindTable();
    }

    // ---- whole lives ----

    ghost predicate Named(steps: seq<Step>, k: nat)
    {
      exists i :: 0 <= i < |steps| && steps[i].Fails? && steps[i].e.l == k
    }

    /** Whether the next start will find the table that is in memory */
    method WillBeFound() returns (ok: bool)
      requires Valid()
      ensures ok <==> Findable()
    {
      if bmtIndex == 0 {
        return false;
      }
      var image := Image(Fill(table, count, pool));
      var r := FindTable();
      FillReloads(table, count, pool, system, Total(), table, 0);
      ok := r == bmtIndex && nand[bmtIndex][0] == Page(image, NONE, ecc(image));
      if Findable() { FoundIsOffered(); }
    }

    /** A failure, or a start unless it would not find the table */
    method Take(step: Step) returns (ok: bool)
      requires Valid() && (step.Fails? ==> step.e.l < system && step.e.page < pages)
      modifies this
      ensures Valid() && (!ok ==> step.Starts? && !Findable())
      ensures forall k: nat ::
                k < system && (step.Starts? || step.e.l != k) ==>
                  Place(k) == old(Place(k)) && nand[Place(k)] == old(nand[Place(k)])
    {
      ok := true;
      if step.Fails? {
        PlaceFacts(step.e.l);
        var block := GetMapping(step.e.l);
        ghost var now;
        var b;
        b, now := BlockFails(step.e, block);
      } else {
        ok := WillBeFound();
        if ok {
          var r := Restart();
        }
      }
    }

    /** Any run of failures and starts, up to a start that does not find the table: the table stays a one-to-one
        mapping, and a block that is not named keeps its place and contents. */
    method Run(steps: seq<Step>) returns (n: nat)
      requires Valid() &&
               forall i :: 0 <= i < |steps| && steps[i].Fails? ==> steps[i].e.l < system && steps[i].e.page < pages
      modifies this
      ensures Valid() && n <= |steps| && (n < |steps| ==> steps[n].Starts? && !Findable())
      ensures forall a: nat, b: nat :: a < b < system ==> Place(a) != Place(b)
      ensures forall k: nat ::
                k < system && !Named(steps, k) ==> Place(k) == old(Place(k)) && nand[Place(k)] == old(nand[Place(k)])
    {
      n := 0;
      var ok := true;
      while n < |steps|
        invariant n <= |steps| && Valid()
        invariant forall k: nat {:trigger Place(k)} ::
                    k < system && !Named(steps, k) ==>
                      Place(k) == old(Place(k)) && nand[Place(k)] == old(nand[Place(k)])
      {
        ok := Take(steps[n]);
        if !ok {
          break;
        }
        n := n + 1;
      }
      forall a: nat, b: nat | a < b < system ensures Place(a) != Place(b) { PlacesDiffer(a, b); }
    }
  }

  /** A new device of one block with one page, and three blocks to replace it: the block fails and is replaced. */
  method FirstFailure(dat: Dat) returns (t: Table, ok: bool)
    requires !dat.Image?
    ensures fresh(t) && t.Valid() && t.Ready() && t.NoImages() && t.system == 1 && t.pool == 3 && t.pages == 1
    ensures ok && t.bad[0] && t.Place(0) == 1 && t.TableGood() && t.poolErased && !t.Sure(1)
  {
    t := new Table(1, 3, 1, (n, b) => false, n => BLANK, dat => 0, seq(4, _ => [BLANK]), seq(4, _ => false));
    assert t.NoImages() && t.TableSafe() && forall b :: 1 <= b < 4 ==> t.Available(b) && t.Healthy(b, t.ops);
    label New:
    ghost var l, m;
    ok, l, m := t.UpdateBmt(0, 0, true, dat);
    assert old@New(t.Available(1)) && m == 1;
    assert t.bad[2] == t.bad[3] == false;
    assert t.Available(2) || t.Available(3);
    t.PlaceFacts(0);
  }

  /** After that the replacement fails on some device. Both updates report success, and the table is in the second
      failing block, where the next start does not find it. */
  method LostAfterTwoFailures(dat: Dat) returns (d: Table, first: bool, second: bool, r: nat)
    requires !dat.Image?
    ensures fresh(d) && d.Valid() && d.system == 1 && d.pool == 3 && d.pages == 1
    ensures first && second && d.bad[0] && d.bad[1] && d.bmtIndex == 1
    ensures r == 0 && forall b :: !d.Offers(b)
  {
    var t;
    t, first := FirstFailure(dat);
    t.PlaceFacts(0);
    d := t.Unlucky(1);
    assert d.bad[0] && d.Place(0) == 1;
    second, r := d.Forgets(Event(0, 0, true, dat), 1);
  }
}
