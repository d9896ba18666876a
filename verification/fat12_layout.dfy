/** Where a FAT12 image keeps its table copies, directory entries and clusters (fs/fat12.c:33-103), and what
    the bytes there stand for. */
module Fat12Layout {
  import opened Basics
  import opened Fat12Names
  import opened Fat12Volume

  /** The values that fat12_init takes from the boot sector, in bytes, sectors and clusters. */
  datatype Geometry = Geometry(bytesPerSec: nat, secsPerClus: nat, copies: nat, entries: nat, fatSectors: nat,
                               fat: nat, root: nat, data: nat, clusters: nat)
  {
    function FatBytes(): nat { fatSectors * bytesPerSec }
    function ClusterBytes(): nat { secsPerClus * bytesPerSec }
  }

  const ENTRY_BYTES: nat := 32

  /** Byte x of table copy i. */
  function CopyAt(g: Geometry, i: nat, x: nat): nat { g.fat + i * g.FatBytes() + x }
  function DirAt(g: Geometry, k: nat): nat { g.root + ENTRY_BYTES * k }
  /** cluster_to_offset. */
  function ClusterAt(g: Geometry, c: nat): nat {
    if c < 2 then g.data else g.data + (c - 2) * g.ClusterBytes()
  }

  /** The image is large enough for its own layout, and small enough for a FAT12 table. */
  ghost predicate FitsImage(g: Geometry, size: nat) {
    0 < g.fat && 0 < g.copies && 0 < g.ClusterBytes() && g.clusters < 4085 &&
    g.root == CopyAt(g, g.copies, 0) && DirAt(g, g.entries) <= g.data &&
      ClusterAt(g, g.clusters + 2) <= size < 0x8000_0000 &&
    LinkAt(g.clusters + 1) + 1 < g.FatBytes()
  }

  /** Where in a copy the link of cluster c begins. */
  function LinkAt(c: nat): nat { c * 3 / 2 }

  lemma {:induction false} Multiples(i: nat, j: nat, f: nat)
    requires i < j
    ensures 0 <= i * f && i * f + f <= j * f
    decreases j
  {
    if i + 1 < j {
      Multiples(i, j - 1, f);
      assert j * f == (j - 1) * f + f;
    } else {
      assert j * f == i * f + f;
    }
  }

  lemma CopiesApart(g: Geometry, i: nat, x: nat, j: nat, y: nat)
    requires x < g.FatBytes() && y < g.FatBytes()
    ensures CopyAt(g, i, x) == CopyAt(g, j, y) ==> i == j && x == y
  {
    if i < j {
      Multiples(i, j, g.FatBytes());
    } else if j < i {
      Multiples(j, i, g.FatBytes());
    }
  }

  lemma CopyInside(g: Geometry, size: nat, i: nat, x: nat)
    requires FitsImage(g, size) && i < g.copies && x < g.FatBytes()
    ensures g.fat <= CopyAt(g, i, x) < g.root <= size
  {
    Multiples(i, g.copies, g.FatBytes());
    Multiples(g.clusters, g.clusters + 1, g.ClusterBytes());
  }

  lemma ClusterInside(g: Geometry, size: nat, c: nat)
    requires FitsImage(g, size) && 2 <= c < g.clusters + 2
    ensures g.data <= ClusterAt(g, c) && ClusterAt(g, c) + g.ClusterBytes() <= size
  {
    Multiples(c - 2, g.clusters, g.ClusterBytes());
  }

  lemma ClustersApart(g: Geometry, c: nat, d: nat)
    requires 2 <= c < d
    ensures ClusterAt(g, c) + g.ClusterBytes() <= ClusterAt(g, d)
  {
    Multiples(c - 2, d - 2, g.ClusterBytes());
  }

  lemma DirInside(g: Geometry, size: nat, k: nat)
    requires FitsImage(g, size) && k < g.entries
    ensures g.root <= DirAt(g, k) && DirAt(g, k) + ENTRY_BYTES <= g.data <= size && 0 < DirAt(g, k)
    ensures g.fat < g.root
  {
    Multiples(g.clusters, g.clusters + 1, g.ClusterBytes());
    CopyInside(g, size, 0, 0);
  }

  // ---- packed links ----

  /** The 12-bit link in two neighbouring bytes: the low 12 bits for an even cluster, the high ones for an odd. */
  function LinkOf(lo: nat, hi: nat, c: nat): nat {
    if c % 2 == 1 then (lo + 256 * hi) / 16 else (lo + 256 * hi) % 4096
  }

  /** Three bytes of the table are two links of twelve bits, the even cluster's the lower one; the pair of clusters
      c and c + 1 begins at byte 3 c / 2. */
  lemma TwoLinks(b0: nat, b1: nat, b2: nat, c: nat)
    requires b0 < 256 && b1 < 256 && b2 < 256 && c % 2 == 0
    ensures LinkOf(b0, b1, c) + 0x1000 * LinkOf(b1, b2, c + 1) == b0 + 0x100 * b1 + 0x1_0000 * b2
    ensures LinkOf(b0, b1, c) < 0x1000 && LinkOf(b1, b2, c + 1) < 0x1000
    ensures 2 * LinkAt(c) == 3 * c && LinkAt(c + 1) == LinkAt(c) + 1
  {
    LinkParts(b0, b1);
    LinkParts(b1, b2);
    assert b1 == b1 % 16 + 16 * (b1 / 16);
    PairAt(c);
    hide LinkAt;
  }

  lemma PairAt(c: nat)
    requires c % 2 == 0
    ensures 2 * LinkAt(c) == 3 * c && LinkAt(c + 1) == LinkAt(c) + 1
  {
    var k := c / 2;
    assert c == 2 * k;
    assert c * 3 == 2 * (3 * k) && (c + 1) * 3 == 2 * (3 * k + 1) + 1;
    Halves(3 * k);
    Halves(3 * k + 1);
  }

  lemma Halves(x: nat)
    ensures 2 * x / 2 == x && (2 * x + 1) / 2 == x
  {}

  /** What byte x of a table copy becomes when the link of cluster c is set to v. */
  function SetByte(was: nat, x: nat, c: nat, v: nat): (b: nat)
    requires was < 256 && v < 0x1000
    ensures b < 256
  {
    if x == LinkAt(c) then
      if c % 2 == 1 then was % 16 + v % 16 * 16 else v % 256
    else if x == LinkAt(c) + 1 then
      if c % 2 == 1 then v / 16 else was / 16 * 16 + v / 256
    else was
  }

  lemma LinkParts(lo: nat, hi: nat)
    requires lo < 256 && hi < 256
    ensures (lo + 256 * hi) / 16 == lo / 16 + 16 * hi && (lo + 256 * hi) % 4096 == lo + 256 * (hi % 16)
  {}

  /** Setting the link of c gives it the value and leaves every other link alone, also where they share a byte. */
  lemma SetLink(lo: nat, hi: nat, c: nat, v: nat, e: nat)
    requires lo < 256 && hi < 256 && v < 0x1000
    ensures LinkOf(SetByte(lo, LinkAt(e), c, v), SetByte(hi, LinkAt(e) + 1, c, v), e) == if e == c then v
      else LinkOf(lo, hi, e)
  {
    var p, q := LinkAt(c), LinkAt(e);
    LinkParts(lo, hi);
    LinkParts(SetByte(lo, q, c, v), SetByte(hi, q + 1, c, v));
    assert p == 3 * (c / 2) + c % 2 && q == 3 * (e / 2) + e % 2;
    hide LinkAt;
    if e == c {
      SetOwn(lo, hi, c, v);
    } else if c % 2 == 0 {
      assert q != p && q + 1 != p && (q == p + 1 ==> e % 2 == 1);
      SetEven(lo, hi, v);
    } else {
      assert q != p && q != p + 1 && (q + 1 == p ==> e % 2 == 0);
      SetOdd(lo, hi, v);
    }
  }

  lemma SetOwn(lo: nat, hi: nat, c: nat, v: nat)
    requires lo < 256 && hi < 256 && v < 0x1000
    ensures LinkOf(SetByte(lo, LinkAt(c), c, v), SetByte(hi, LinkAt(c) + 1, c, v), c) == v
  {
    SetEven(lo, hi, v);
    SetOdd(lo, hi, v);
    LinkParts(SetByte(lo, LinkAt(c), c, v), SetByte(hi, LinkAt(c) + 1, c, v));
  }

  lemma SetEven(lo: nat, hi: nat, v: nat)
    requires lo < 256 && hi < 256 && v < 0x1000
    ensures (lo / 16 * 16 + v / 256) / 16 == lo / 16 && v % 256 + 256 * ((hi / 16 * 16 + v / 256) % 16) == v
  {}

  lemma SetOdd(lo: nat, hi: nat, v: nat)
    requires lo < 256 && hi < 256 && v < 0x1000
    ensures (hi % 16 + v % 16 * 16) % 16 == hi % 16 && (lo % 16 + v % 16 * 16) / 16 + 16 * (v / 16) == v
  {}

  // ---- the marks of the format ----

  /** The last cluster of a chain is marked by 0xFF8 to 0xFFF. */
  lemma EndMarks(table: seq<nat>, c: nat)
    requires 2 <= c < |table|
    ensures Link(table, [c], 0) <==> 0xFF8 <= table[c] <= 0xFFF
  {}

  /** Entries that are not in use: never used from a zero on, and deleted ones from 0xE5; labels and parts of long names
      have bit 3 of the attributes, directories bit 4. */
  lemma EntryMarks(e: Dirent)
    requires |e.name| == 11
    ensures Vacant(e) <==> e.name[0] == 0 || e.name[0] == 0xE5
    ensures Live(e) <==> e.name[0] != 0 && e.name[0] != 0xE5 && (e.attr as int / 8) % 2 == 0
    ensures Directory(e.attr) <==> (e.attr as int / 16) % 2 == 1
  {}

  /** A fresh entry has the archive bit, and zeros where the driver has nothing to say. */
  lemma FreshEntry(raw: seq<Byte>)
    ensures NewEntry(raw) == Dirent(raw, 32, [0, 0, 0, 0, 0, 0, 0, 0, 0, 0, 0, 0, 0, 0], 0, 0)
  {}

  // ---- the image as a volume ----

  function LinkIn(d: seq<Byte>, g: Geometry, c: nat): nat
    requires CopyAt(g, 0, LinkAt(c) + 1) < |d|
  {
    LinkOf(d[CopyAt(g, 0, LinkAt(c))], d[CopyAt(g, 0, LinkAt(c) + 1)], c)
  }

  function Nat(b: Byte): nat { b }

  function Word16(d: seq<Byte>, at: nat): nat
    requires at + 2 <= |d|
  {
    Nat(d[at]) + 256 * Nat(d[at + 1])
  }

  function Word32(d: seq<Byte>, at: nat): nat
    requires at + 4 <= |d|
  {
    Nat(d[at]) + 256 * Nat(d[at + 1]) + 0x1_0000 * Nat(d[at + 2]) + 0x100_0000 * Nat(d[at + 3])
  }

  function DirentAt(d: seq<Byte>, at: nat): Dirent
    requires at + ENTRY_BYTES <= |d|
  {
    Dirent(d[at..at + 11], d[at + 11], d[at + 12..at + 26], Word16(d, at + 26), Word32(d, at + 28))
  }

  lemma LinkInside(g: Geometry, size: nat, c: nat)
    requires FitsImage(g, size) && c < g.clusters + 2
    ensures LinkAt(c) + 1 < g.FatBytes() && CopyAt(g, 0, LinkAt(c)) + 1 == CopyAt(g, 0, LinkAt(c) + 1) < g.root <= size
  {
    CopyInside(g, size, 0, LinkAt(c) + 1);
  }

  ghost function TableOf(g: Geometry, d: seq<Byte>): (t: seq<nat>)
    requires FitsImage(g, |d|)
    ensures |t| == g.clusters + 2
  {
    seq(g.clusters + 2, c requires 0 <= c < g.clusters + 2 => LinkInside(g, |d|, c); LinkIn(d, g, c))
  }

  ghost function DirOf(g: Geometry, d: seq<Byte>): (dir: seq<Dirent>)
    requires FitsImage(g, |d|)
    ensures |dir| == g.entries
  {
    seq(g.entries, k requires 0 <= k < g.entries => DirInside(g, |d|, k); DirentAt(d, DirAt(g, k)))
  }

  ghost function DataOf(g: Geometry, d: seq<Byte>): (data: seq<seq<Byte>>)
    requires FitsImage(g, |d|)
    ensures |data| == g.clusters + 2
  {
    seq(g.clusters + 2, c requires 0 <= c < g.clusters + 2 =>
      if c < 2 then [] else ClusterInside(g, |d|, c); d[ClusterAt(g, c)..ClusterAt(g, c) + g.ClusterBytes()])
  }

  ghost function View(g: Geometry, d: seq<Byte>): Vol
    requires FitsImage(g, |d|)
  {
    Vol(TableOf(g, d), DirOf(g, d), DataOf(g, d))
  }

  /** All copies of the table hold the same bytes. */
  ghost predicate Mirrored(g: Geometry, d: seq<Byte>) {
    forall i: nat, x: nat {:trigger CopyAt(g, i, x)} | i < g.copies && x < g.FatBytes() ::
      CopyAt(g, i, x) < |d| && CopyAt(g, 0, x) < |d| && d[CopyAt(g, i, x)] == d[CopyAt(g, 0, x)]
  }

  // ---- what a write to each area changes ----

  /** The copies before n have the link of c set to v. */
  ghost predicate LinksSet(g: Geometry, d: seq<Byte>, d': seq<Byte>, c: nat, v: nat, n: nat)
    requires v < 0x1000
  {
    |d'| == |d| &&
    (forall p {:trigger d'[p]} | 0 <= p < |d| && !(g.fat <= p < g.root) :: d'[p] == d[p]) &&
    forall i: nat, x: nat {:trigger CopyAt(g, i, x)} | i < g.copies && x < g.FatBytes() && CopyAt(g, i, x) < |d| ::
      d'[CopyAt(g, i, x)] == if i < n then SetByte(d[CopyAt(g, i, x)], x, c, v) else d[CopyAt(g, i, x)]
  }

  lemma LinkWritten(g: Geometry, d: seq<Byte>, d': seq<Byte>, c: nat, v: nat)
    requires FitsImage(g, |d|) && Mirrored(g, d) && 2 <= c < g.clusters + 2 && v < 0x1000 &&
      LinksSet(g, d, d', c, v, g.copies)
    ensures Mirrored(g, d') && View(g, d') == Vol(View(g, d).table[c := v], View(g, d).dir, View(g, d).data)
  {
    AreasInOrder(g, |d|);
    MirrorsWritten(g, d, d', c, v);
    TableWritten(g, d, d', c, v);
    DirStays(g, d, d');
    DataStays(g, d, d');
  }

  lemma MirrorsWritten(g: Geometry, d: seq<Byte>, d': seq<Byte>, c: nat, v: nat)
    requires FitsImage(g, |d|) && Mirrored(g, d) && v < 0x1000 && LinksSet(g, d, d', c, v, g.copies)
    ensures Mirrored(g, d')
  {
    forall i: nat, x: nat | i < g.copies && x < g.FatBytes()
      ensures CopyAt(g, i, x) < |d'| && CopyAt(g, 0, x) < |d'| && d'[CopyAt(g, i, x)] == d'[CopyAt(g, 0, x)]
    {
      CopyInside(g, |d|, i, x);
      CopyInside(g, |d|, 0, x);
    }
  }

  lemma TableWritten(g: Geometry, d: seq<Byte>, d': seq<Byte>, c: nat, v: nat)
    requires FitsImage(g, |d|) && c < g.clusters + 2 && v < 0x1000 && LinksSet(g, d, d', c, v, g.copies)
    ensures TableOf(g, d') == TableOf(g, d)[c := v]
  {
    forall e: nat | e < g.clusters + 2 ensures TableOf(g, d')[e] == TableOf(g, d)[c := v][e] {
      LinkInside(g, |d|, e);
      SetLink(d[CopyAt(g, 0, LinkAt(e))], d[CopyAt(g, 0, LinkAt(e) + 1)], c, v, e);
    }
  }

  lemma DirStays(g: Geometry, d: seq<Byte>, d': seq<Byte>)
    requires FitsImage(g, |d|) && |d'| == |d| && forall p {:trigger d'[p]} | g.root <= p < g.data :: d'[p] == d[p]
    ensures g.data <= |d| && DirOf(g, d') == DirOf(g, d)
  {
    forall k: nat | k < g.entries ensures DirOf(g, d')[k] == DirOf(g, d)[k] {
      DirInside(g, |d|, k);
      assert d'[DirAt(g, k)..DirAt(g, k) + 11] == d[DirAt(g, k)..DirAt(g, k) + 11];
      assert d'[DirAt(g, k) + 12..DirAt(g, k) + 26] == d[DirAt(g, k) + 12..DirAt(g, k) + 26];
    }
    Multiples(g.clusters, g.clusters + 1, g.ClusterBytes());
  }

  lemma DataStays(g: Geometry, d: seq<Byte>, d': seq<Byte>)
    requires FitsImage(g, |d|) && |d'| == |d| && forall p {:trigger d'[p]} | g.data <= p < |d| :: d'[p] == d[p]
    ensures DataOf(g, d') == DataOf(g, d)
  {
    forall c: nat | c < g.clusters + 2 ensures DataOf(g, d')[c] == DataOf(g, d)[c] {
      if c >= 2 {
        ClusterInside(g, |d|, c);
        var a, b := ClusterAt(g, c), ClusterAt(g, c) + g.ClusterBytes();
        assert d'[a..b] == d[a..b];
      }
    }
  }

  lemma TableStays(g: Geometry, d: seq<Byte>, d': seq<Byte>)
    requires FitsImage(g, |d|) && |d'| == |d| && Mirrored(g, d) &&
      forall p {:trigger d'[p]} | g.fat <= p < g.root :: p < |d| && d'[p] == d[p]
    ensures TableOf(g, d') == TableOf(g, d) && Mirrored(g, d')
  {
    forall i: nat, x: nat | i < g.copies && x < g.FatBytes()
      ensures CopyAt(g, i, x) < |d'| && CopyAt(g, 0, x) < |d'| && d'[CopyAt(g, i, x)] == d'[CopyAt(g, 0, x)] {
      CopyInside(g, |d|, i, x);
      CopyInside(g, |d|, 0, x);
    }
    forall c: nat | c < g.clusters + 2 ensures TableOf(g, d')[c] == TableOf(g, d)[c] {
      LinkInside(g, |d|, c);
    }
  }

  lemma DirentWritten(g: Geometry, d: seq<Byte>, d': seq<Byte>, k: nat)
    requires FitsImage(g, |d|) && Mirrored(g, d) && k < g.entries && |d'| == |d|
    requires forall p {:trigger d'[p]} | 0 <= p < |d| && !(DirAt(g, k) <= p < DirAt(g, k) + ENTRY_BYTES) ::
      d'[p] == d[p]
    ensures DirAt(g, k) + ENTRY_BYTES <= |d'| && Mirrored(g, d')
    ensures View(g, d') == View(g, d).(dir := View(g, d).dir[k := DirentAt(d', DirAt(g, k))])
  {
    DirInside(g, |d|, k);
    TableStays(g, d, d');
    DataStays(g, d, d');
    forall l: nat | l < g.entries && l != k ensures DirOf(g, d')[l] == DirOf(g, d)[l] {
      DirInside(g, |d|, l);
      var at := DirAt(g, l);
      assert at + ENTRY_BYTES <= DirAt(g, k) || DirAt(g, k) + ENTRY_BYTES <= at;
      assert d'[at..at + 11] == d[at..at + 11];
      assert d'[at + 12..at + 26] == d[at + 12..at + 26];
    }
    assert DirOf(g, d') == DirOf(g, d)[k := DirentAt(d', DirAt(g, k))];
  }

  lemma OtherCluster(g: Geometry, d: seq<Byte>, d': seq<Byte>, c: nat, e: nat)
    requires FitsImage(g, |d|) && 2 <= c < g.clusters + 2 && |d'| == |d| && e < g.clusters + 2 && e != c
    requires forall p {:trigger d'[p]} | 0 <= p < |d| &&
      !(ClusterAt(g, c) <= p < ClusterAt(g, c) + g.ClusterBytes()) :: d'[p] == d[p]
    ensures DataOf(g, d')[e] == DataOf(g, d)[e]
  {
    if e >= 2 {
      ClusterInside(g, |d|, e);
      ClustersApart(g, if e < c then e else c, if e < c then c else e);
      var a, b := ClusterAt(g, e), ClusterAt(g, e) + g.ClusterBytes();
      assert d'[a..b] == d[a..b];
    }
  }

  lemma ClusterWritten(g: Geometry, d: seq<Byte>, d': seq<Byte>, c: nat)
    requires FitsImage(g, |d|) && Mirrored(g, d) && 2 <= c < g.clusters + 2 && |d'| == |d|
    requires forall p {:trigger d'[p]} | 0 <= p < |d| &&
      !(ClusterAt(g, c) <= p < ClusterAt(g, c) + g.ClusterBytes()) :: d'[p] == d[p]
    ensures ClusterAt(g, c) + g.ClusterBytes() <= |d'| && Mirrored(g, d')
    ensures View(g, d') ==
      View(g, d).(data := View(g, d).data[c := d'[ClusterAt(g, c)..ClusterAt(g, c) + g.ClusterBytes()]])
  {
    ClusterInside(g, |d|, c);
    AreasInOrder(g, |d|);
    TableStays(g, d, d');
    DirStays(g, d, d');
    forall e: nat | e < g.clusters + 2 && e != c ensures DataOf(g, d')[e] == DataOf(g, d)[e] {
      OtherCluster(g, d, d', c, e);
    }
    assert DataOf(g, d') == DataOf(g, d)[c := d'[ClusterAt(g, c)..ClusterAt(g, c) + g.ClusterBytes()]];
  }

  lemma AreasInOrder(g: Geometry, size: nat)
    requires FitsImage(g, size)
    ensures g.fat < g.root <= g.data <= size
  {
    CopyInside(g, size, 0, 0);
    Multiples(g.clusters, g.clusters + 1, g.ClusterBytes());
  }

  // ---- the boot sector ----

  const WRAP: nat := 0x1_0000_0000

  /** A boot sector the driver takes: signed, and with sectors and clusters of some size. */
  predicate Bootable(d: seq<Byte>) {
    |d| >= 512 && d[510] == 0x55 && d[511] == 0xAA && Word16(d, 11) != 0 && d[13] != 0
  }

  function TotalSectors(d: seq<Byte>): nat
    requires |d| >= 512
  {
    if Word16(d, 19) == 0 then Word16(d, 32) else Word16(d, 19)
  }

  function RootSectors(d: seq<Byte>): nat
    requires Bootable(d)
  {
    (Word16(d, 17) * 32 + Word16(d, 11) - 1) / Word16(d, 11)
  }

  /** The layout in sectors, before 32-bit arithmetic: where the data area begins. */
  function DataSector(d: seq<Byte>): nat
    requires Bootable(d)
  {
    Word16(d, 14) + d[16] * Word16(d, 22) + RootSectors(d)
  }

  /** What fat12_init computes, in 32-bit unsigned arithmetic. */
  function GeometryOf(d: seq<Byte>): Geometry
    requires Bootable(d)
  {
    var bps, spc := Word16(d, 11), d[13];
    var fat := Word16(d, 14) * bps % WRAP;
    var root := (fat + d[16] * Word16(d, 22) * bps) % WRAP;
    var data := (root + RootSectors(d) * bps) % WRAP;
    Geometry(bps, spc, d[16], Word16(d, 17), Word16(d, 22), fat, root, data,
      (TotalSectors(d) - data / bps) % WRAP / spc)
  }

  /** A boot sector that describes a FAT12 volume no larger than its image gives a layout that fits. */
  lemma BootSectorFits(d: seq<Byte>)
    requires Bootable(d) && Word16(d, 14) > 0 && d[16] > 0 && |d| < 0x8000_0000
    requires DataSector(d) <= TotalSectors(d) && TotalSectors(d) * Word16(d, 11) <= |d|
    requires (TotalSectors(d) - DataSector(d)) / d[13] < 4085
    requires LinkAt((TotalSectors(d) - DataSector(d)) / d[13] + 1) + 1 < Word16(d, 22) * Word16(d, 11)
    ensures FitsImage(GeometryOf(d), |d|)
    ensures GeometryOf(d).data == DataSector(d) * Word16(d, 11) &&
      GeometryOf(d).clusters == (TotalSectors(d) - DataSector(d)) / d[13]
  {
    var bps, spc := Word16(d, 11), Nat(d[13]);
    var fats, root, total := Nat(d[16]) * Word16(d, 22), RootSectors(d), TotalSectors(d);
    var ds := Word16(d, 14) + fats + root;
    Unwrapped(d);
    RoundsUp(Word16(d, 17) * 32, bps);
    LayoutFits(GeometryOf(d), Word16(d, 14), root, total, |d|);
  }

  /** With the image below 2^31 bytes no 32-bit product wraps around. */
  lemma Unwrapped(d: seq<Byte>)
    requires Bootable(d) && |d| < 0x8000_0000 && DataSector(d) <= TotalSectors(d) &&
      TotalSectors(d) * Word16(d, 11) <= |d|
    ensures
      var g, bps := GeometryOf(d), Word16(d, 11);
      g.fat == Word16(d, 14) * bps && g.root == g.fat + d[16] * Word16(d, 22) * bps && g.data == DataSector(d) * bps &&
      g.clusters == (TotalSectors(d) - DataSector(d)) / d[13]
  {
    var bps := Word16(d, 11);
    NotNegative(Nat(d[16]), Word16(d, 22));
    var reserved, fats, root := Word16(d, 14), Nat(d[16]) * Word16(d, 22), RootSectors(d);
    Sectors(reserved, fats, root, bps);
    Scaled(DataSector(d), TotalSectors(d), bps);
    Exactly(DataSector(d), bps);
    NotNegative(reserved, bps);
    NotNegative(fats, bps);
    NotNegative(root, bps);
    assert TotalSectors(d) < WRAP;
    hide RootSectors, Word16, TotalSectors, Bootable;
    Small(reserved * bps);
    Small(reserved * bps + fats * bps);
    Small(DataSector(d) * bps);
    Small(TotalSectors(d) - DataSector(d));
  }

  lemma Small(a: nat)
    requires a < WRAP
    ensures a % WRAP == a
  {}

  lemma NotNegative(a: nat, b: nat)
    ensures 0 <= a * b
  {}

  lemma LayoutFits(g: Geometry, reserved: nat, rootSectors: nat, total: nat, size: nat)
    requires g.bytesPerSec > 0 && g.secsPerClus > 0 && reserved > 0 && g.copies > 0 && size < 0x8000_0000
    requires g.fat == reserved * g.bytesPerSec && g.root == g.fat + g.copies * g.fatSectors * g.bytesPerSec
    requires
      var ds := reserved + g.copies * g.fatSectors + rootSectors;
      ds <= total && g.data == ds * g.bytesPerSec && g.clusters == (total - ds) / g.secsPerClus
    requires total * g.bytesPerSec <= size && g.entries * 32 <= rootSectors * g.bytesPerSec
    requires g.clusters < 4085 && LinkAt(g.clusters + 1) + 1 < g.FatBytes()
    ensures FitsImage(g, size)
  {
    var bps, fats := g.bytesPerSec, g.copies * g.fatSectors;
    var ds := reserved + fats + rootSectors;
    Sectors(reserved, fats, rootSectors, bps);
    Reorder(g.copies, g.fatSectors, bps);
    Reorder(g.clusters, g.secsPerClus, bps);
    Whole(total - ds, g.secsPerClus);
    Scaled(g.clusters * g.secsPerClus, total - ds, bps);
    Spread(ds, total, bps);
    Scaled(1, reserved, bps);
    Scaled(1, g.secsPerClus, bps);
  }

  lemma Sectors(a: nat, b: nat, c: nat, bps: nat)
    ensures (a + b + c) * bps == a * bps + b * bps + c * bps
  {}

  lemma Spread(a: nat, b: nat, bps: nat)
    requires a <= b
    ensures (b - a) * bps == b * bps - a * bps
  {}

  lemma Scaled(a: nat, b: nat, bps: nat)
    requires a <= b
    ensures a * bps <= b * bps
  {
    Spread(a, b, bps);
  }

  lemma RoundsUp(a: nat, bps: nat)
    requires bps > 0
    ensures a <= (a + bps - 1) / bps * bps
  {
    Whole(a + bps - 1, bps);
  }

  lemma Exactly(a: nat, bps: nat)
    requires bps > 0
    ensures a * bps / bps == a
  {
    NotNegative(a, bps);
    var q := a * bps / bps;
    Whole(a * bps, bps);
    if q < a {
      Multiples(q, a, bps);
    } else if a < q {
      Multiples(a, q, bps);
    }
  }

  lemma Whole(a: nat, n: nat)
    requires n > 0
    ensures a / n * n <= a < a / n * n + n
  {}

  lemma Reorder(a: nat, b: nat, c: nat)
    ensures a * b * c == a * (b * c)
  {}
}
