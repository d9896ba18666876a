/** The FAT12 driver (fs/fat12.c) on the bytes of its disk image. */
module Fat12 {
  import opened Basics
  import opened Fat12Names
  import opened Fat12Volume
  import opened Fat12Layout
  import opened Fat12Leaks
  import opened Options

  const SLASH: Byte := 0x2F

  /** The name in a path: what is left without leading slashes. */
  function NameIn(path: seq<Byte>): seq<Byte> {
    if path != [] && path[0] == SLASH then NameIn(path[1..]) else path
  }

  lemma {:induction false} NameInString(path: seq<Byte>)
    requires IsString(path)
    ensures IsString(NameIn(path))
  {
    if path != [] && path[0] == SLASH {
      NameInString(path[1..]);
    }
  }

  /** A path is any number of slashes before a name. */
  predicate Names(path: seq<Byte>, name: seq<Byte>) {
    |name| <= |path| && path[|path| - |name|..] == name && (name != [] ==> name[0] != 0x2F) &&
    forall i | 0 <= i < |path| - |name| :: path[i] == 0x2F
  }

  lemma {:induction false} SlashesDropped(path: seq<Byte>, name: seq<Byte>)
    requires Names(path, name)
    ensures NameIn(path) == name
    decreases path
  {
    if path != [] && path[0] == SLASH {
      assert |name| < |path| by {
        assert path[0..] == path;
      }
      assert path[1..][|path[1..]| - |name|..] == name;
      SlashesDropped(path[1..], name);
    } else {
      assert path != [] ==> path[0] != 0x2F;
      assert |name| == |path|;
      assert path[0..] == path;
    }
  }

  lemma AllSlashesDropped(path: seq<Byte>)
    ensures forall name: seq<Byte> | Names(path, name) :: name == NameIn(path)
  {
    forall name: seq<Byte> | Names(path, name) ensures name == NameIn(path) {
      SlashesDropped(path, name);
    }
  }

  /** One more copy of the table has the link set. */
  lemma LinkStep(g: Geometry, d0: seq<Byte>, d: seq<Byte>, d': seq<Byte>, c: nat, v: nat, n: nat)
    requires FitsImage(g, |d0|) && c < g.clusters + 2 && v < 0x1000 && n < g.copies && LinksSet(g, d0, d, c, v, n)
    requires LinkAt(c) + 1 < g.FatBytes() && CopyAt(g, n, LinkAt(c) + 1) < |d|
    requires
      var p, q := CopyAt(g, n, LinkAt(c)), CopyAt(g, n, LinkAt(c) + 1);
      d' == d[p := SetByte(d[p], LinkAt(c), c, v)][q := SetByte(d[q], LinkAt(c) + 1, c, v)]
    ensures LinksSet(g, d0, d', c, v, n + 1)
  {
    var p, q := CopyAt(g, n, LinkAt(c)), CopyAt(g, n, LinkAt(c) + 1);
    CopyInside(g, |d0|, n, LinkAt(c));
    CopyInside(g, |d0|, n, LinkAt(c) + 1);
    forall i: nat, x: nat | i < g.copies && x < g.FatBytes() && CopyAt(g, i, x) < |d0|
      ensures d'[CopyAt(g, i, x)] == if i < n + 1 then SetByte(d0[CopyAt(g, i, x)], x, c, v) else d0[CopyAt(g, i, x)]
    {
      CopiesApart(g, i, x, n, LinkAt(c));
      CopiesApart(g, i, x, n, LinkAt(c) + 1);
    }
  }

  /** What a read leaves in the buffer, and returns: as much as fits, or -1. */
  ghost predicate ReadInto(found: Option<seq<Byte>>, max: nat, was: seq<Byte>, now: seq<Byte>, n: int) {
    if found.None? then n == -1 && now == was
    else n == Min(max, |found.value|) && n <= |was| && now == found.value[..n] + was[n..]
  }

  lemma NothingRead(max: nat, was: seq<Byte>)
    ensures ReadInto(None, max, was, was, -1)
  {}

  lemma AllRead(all: seq<Byte>, size: nat, max: nat, was: seq<Byte>, now: seq<Byte>, n: nat)
    requires size <= |all| && n == (if max < size then max else size) && n <= |was| && now == all[..n] + was[n..]
    ensures ReadInto(Some(all[..size]), max, was, now, n)
  {
    assert all[..size][..n] == all[..n];
  }

  /** The copying loop of a read after i clusters and n bytes. */
  ghost predicate ReadSoFar(data: seq<seq<Byte>>, chain: seq<nat>, i: nat, n: nat, max: nat, was: seq<Byte>,
      now: seq<Byte>) {
    var all := Joined(data, chain);
    i <= |chain| && n == Min(max, |Joined(data, chain[..i])|) && n <= |all| && n <= |was| && now == all[..n] + was[n..]
  }

  lemma ReadStarts(v: Vol, cb: nat, chains: seq<seq<nat>>, first: nat, chain: seq<nat>, max: nat, was: seq<Byte>)
    requires Sound(v, cb, chains) && Chain(v.table, first, chain)
    ensures ReadSoFar(v.data, chain, 0, 0, max, was, was) && |v.table| < CHAIN_END && ChainAt(v.table, first, chain, 0)
  {
    assert chain[..0] == [];
  }

  lemma ReadStep(v: Vol, chain: seq<nat>, i: nat, n: nat, count: nat, max: nat, was: seq<Byte>, now: seq<Byte>)
    requires ReadSoFar(v.data, chain, i, n, max, was, now) && n < max <= |was| && i < |chain| && chain[i] < |v.data|
    requires count == if n + |v.data[chain[i]]| > max then max - n else |v.data[chain[i]]|
    ensures count <= |v.data[chain[i]]| && n + count <= |now|
    ensures ReadSoFar(v.data, chain, i + 1, n + count, max, was,
      now[..n] + v.data[chain[i]][..count] + now[n + count..])
  {
    Reached(v, chain, i);
    var all, piece := Joined(v.data, chain), v.data[chain[i]];
    var upTo, next := Joined(v.data, chain[..i]), Joined(v.data, chain[..i + 1]);
    assert all[..n + count] == next[..n + count] == all[..n] + piece[..count];
    assert now[n + count..] == was[n + count..];
  }

  lemma ReadSoFarIs(data: seq<seq<Byte>>, chain: seq<nat>, i: nat, n: nat, max: nat, was: seq<Byte>, now: seq<Byte>)
    requires ReadSoFar(data, chain, i, n, max, was, now)
    ensures n <= |Joined(data, chain)| && n <= |was| && now == Joined(data, chain)[..n] + was[n..]
  {}

  /** The buffer has the first max bytes of a chain. */
  ghost predicate ChainRead(data: seq<seq<Byte>>, chain: seq<nat>, max: nat, was: seq<Byte>, now: seq<Byte>) {
    max <= |Joined(data, chain)| && max <= |was| && now == Joined(data, chain)[..max] + was[max..]
  }

  lemma ChainReadIs(data: seq<seq<Byte>>, chain: seq<nat>, max: nat, was: seq<Byte>, now: seq<Byte>)
    requires max <= |Joined(data, chain)| && max <= |was|
    ensures ChainRead(data, chain, max, was, now) <==> now == Joined(data, chain)[..max] + was[max..]
  {}

  lemma ReadDone(v: Vol, chain: seq<nat>, first: nat, clus: nat, i: nat, n: nat, max: nat, was: seq<Byte>,
      now: seq<Byte>)
    requires ReadSoFar(v.data, chain, i, n, max, was, now) && Chain(v.table, first, chain) &&
      ChainAt(v.table, clus, chain, i)
    requires |v.table| < CHAIN_END && !(2 <= clus < CHAIN_END && n < max) && max <= |Joined(v.data, chain)|
    ensures n == max
  {
    if !(2 <= clus < CHAIN_END) {
      ChainStops(v.table, first, clus, chain, i);
      assert chain[..i] == chain;
    }
  }

  lemma ClearStarts(table: seq<nat>, first: nat, chain: seq<nat>)
    requires Chain(table, first, chain)
    ensures Cleared(table, chain[..0]) == table && ChainAt(table, first, chain, 0)
  {}

  lemma SoundBounds(v: Vol, cb: nat, chains: seq<seq<nat>>)
    requires Sound(v, cb, chains)
    ensures |v.table| < 0xFF8 && cb > 0
  {}

  lemma SoundDir(v: Vol, cb: nat, chains: seq<seq<nat>>)
    requires Sound(v, cb, chains)
    ensures |chains| == |v.dir|
  {}

  lemma BuiltSoFar(v1: Vol, v: Vol, cb: nat, first: nat, chain: seq<nat>, written: seq<Byte>, whole: bool)
    requires Building(v1, v, cb, first, chain, written, whole)
    ensures |v.table| == |v1.table| && |FreeClusters(v.table)| + |chain| == |FreeClusters(v1.table)|
    ensures forall i | 0 <= i < |chain| :: InTable(v.table, chain[i])
  {}

  lemma TakenCluster(table: seq<nat>, chain: seq<nat>, c: nat)
    requires InTable(table, c) && |table| < 0xFF8 && forall i | 0 <= i < |chain| :: InTable(table, chain[i])
    ensures 2 <= c < 0x1000 && InTable(Linked(table, chain, c), c)
    ensures chain == [] ==> Linked(table, chain, c) == table[c := 0xFFF]
    ensures chain != [] ==>
      var last := chain[|chain| - 1];
      last != 0 && InTable(table, last) && InTable(table[c := 0xFFF], last) &&
        Linked(table, chain, c) == table[c := 0xFFF][last := c]
  {}

  lemma NeededStep(len: nat, cb: nat)
    requires len > 0 && cb > 0
    ensures Needed(len, cb) == 1 + Needed(len - if len < cb then len else cb, cb)
  {}

  lemma FreeNow(v0: Vol, chains0: seq<seq<nat>>, v1: Vol, chains1: seq<seq<nat>>, cb: nat, raw: seq<Byte>, k: nat)
    requires Emptied(v0, chains0, v1, chains1, cb, raw, k)
    ensures k < |chains0| && |FreeClusters(v1.table)| == Available(v0, chains0, raw, k)
  {}

  lemma FinishedIs(v2: Vol, k: nat, first: nat, size: nat)
    requires k < |v2.dir|
    ensures Finished(v2, k, first, size) == v2.(dir := v2.dir[k := Refilled(v2.dir[k], first, size)])
  {}

  lemma NeededNone(cb: nat)
    ensures Needed(0, cb) == 0
  {}

  /** The image with the bytes of a fresh entry at off. */
  function NewEntryIn(d: seq<Byte>, off: nat, raw: seq<Byte>): seq<Byte>
    requires off + ENTRY_BYTES <= |d|
  {
    d[..off] + raw + [ARCHIVE] + seq(ENTRY_BYTES - 12, _ => 0) + d[off + ENTRY_BYTES..]
  }

  lemma NewEntryBytes(d: seq<Byte>, off: nat, raw: seq<Byte>)
    requires off + ENTRY_BYTES <= |d| && |raw| == 11 && d[off..off + 11] == raw && d[off + 11] == ARCHIVE
    requires forall p | off + 12 <= p < off + ENTRY_BYTES :: d[p] == 0
    ensures DirentAt(d, off) == NewEntry(raw)
  {
    assert d[off + 12..off + 26] == seq(14, _ => 0);
  }

  lemma WholeQuotient(x: nat, y: nat)
    requires y > 0
    ensures 0 <= x / y
  {}

  // ---- a fresh volume ----

  /** What formatting leaves: equal copies of the table, and a directory without a single entry. */
  ghost predicate Formatted(g: Geometry, d: seq<Byte>) {
    FitsImage(g, |d|) && Mirrored(g, d) && forall p {:trigger d[p]} | g.root <= p < g.data && p < |d| :: d[p] == 0
  }

  ghost function NoChains(n: nat): seq<seq<nat>> { seq(n, _ => []) }

  /** A formatted image is a sound volume on which no entry owns a cluster. */
  lemma FormattedIsSound(g: Geometry, d: seq<Byte>)
    requires Formatted(g, d)
    ensures Sound(View(g, d), g.ClusterBytes(), NoChains(g.entries))
  {
    var v := View(g, d);
    forall k: nat | k < g.entries ensures First(v.dir[k]) == 0 && |v.dir[k].name| == 11 {
      DirInside(g, |d|, k);
      assert v.dir[k].name[0] == d[DirAt(g, k)];
    }
    forall c: nat | 2 <= c < g.clusters + 2 ensures |v.data[c]| == g.ClusterBytes() {
      ClusterInside(g, |d|, c);
    }
    forall k: nat | k < g.entries ensures Owns(v, g.ClusterBytes(), NoChains(g.entries), k) && EndsAt(v.dir, k) {}
  }

  class Volume {
    const disk: array<Byte>
    const g: Geometry
    /** The clusters that each directory entry owns. */
    ghost var chains: seq<seq<nat>>

    ghost predicate Mounted()
      reads disk
    {
      FitsImage(g, disk.Length) && Mirrored(g, disk[..])
    }

    ghost function V(): (v: Vol)
      requires Mounted()
      reads disk
      ensures |v.table| == |v.data| == g.clusters + 2 && |v.dir| == g.entries
    {
      View(g, disk[..])
    }

    ghost predicate Valid()
      reads this, disk
    {
      Mounted() && Sound(V(), g.ClusterBytes(), chains)
    }

    constructor (disk: array<Byte>, g: Geometry)
      ensures this.disk == disk && this.g == g && chains == NoChains(g.entries)
      ensures Formatted(g, disk[..]) ==> Valid()
    {
      this.disk, this.g, chains := disk, g, NoChains(g.entries);
      new;
      if Formatted(g, disk[..]) {
        FormattedIsSound(g, disk[..]);
      }
    }

    /** fat12_init: takes its layout from the boot sector, or refuses the image. */
    static method Mount(disk: array<Byte>) returns (v: Volume?)
      ensures v == null <==> !Bootable(disk[..])
      ensures v != null ==>
        fresh(v) && v.disk == disk && v.g == GeometryOf(disk[..]) && v.chains == NoChains(v.g.entries)
      ensures v != null && Formatted(v.g, disk[..]) ==> v.Valid()
    {
      if disk.Length < 512 || disk[510] != 0x55 || disk[511] != 0xAA {
        return null;
      }
      if Nat(disk[11]) + 256 * Nat(disk[12]) == 0 || disk[13] == 0 {
        return null;
      }
      var g := ReadLayout(disk);
      hide *;
      v := new Volume(disk, g);
    }

    /** The layout that the fields of the boot sector give, in 32-bit arithmetic. */
    static method ReadLayout(disk: array<Byte>) returns (g: Geometry)
      requires Bootable(disk[..])
      ensures g == GeometryOf(disk[..])
    {
      var bps, spc := Nat(disk[11]) + 256 * Nat(disk[12]), Nat(disk[13]);
      var reserved, copies := Nat(disk[14]) + 256 * Nat(disk[15]), Nat(disk[16]);
      var entries, fatSectors := Nat(disk[17]) + 256 * Nat(disk[18]), Nat(disk[22]) + 256 * Nat(disk[23]);
      var fat := reserved * bps % WRAP;
      var root := (fat + copies * fatSectors * bps) % WRAP;
      var rootSectors := (entries * 32 + bps - 1) / bps;
      var data := (root + rootSectors * bps) % WRAP;
      var total := Nat(disk[19]) + 256 * Nat(disk[20]);
      if total == 0 {
        total := Nat(disk[32]) + 256 * Nat(disk[33]);
      }
      var sectors: nat := (total - data / bps) % WRAP;
      WholeQuotient(sectors, spc);
      var clusters := sectors / spc;
      g := Geometry(bps, spc, copies, entries, fatSectors, fat, root, data, clusters);
    }

    lemma Parts()
      requires Valid()
      ensures Mounted() && Sound(V(), g.ClusterBytes(), chains)
    {}

    /** fat12_get_next_cluster. */
    method NextCluster(c: nat) returns (next: nat)
      requires Mounted()
      ensures InTable(V().table, c) ==> next == V().table[c]
    {
      if c < 2 {
        return 0xFFF;
      }
      var at := g.fat + c * 3 / 2;
      if at + 1 >= disk.Length {
        if c < g.clusters + 2 {
          LinkInside(g, disk.Length, c);
        }
        return 0xFFF;
      }
      var val := Nat(disk[at]) + 256 * Nat(disk[at + 1]);
      if c % 2 == 1 {
        next := val / 16;
      } else {
        next := val % 0x1000;
      }
      if c < g.clusters + 2 {
        LinkInside(g, disk.Length, c);
      }
    }

    /** fat12_set_cluster: in every copy of the table. */
    method SetCluster(c: nat, v: nat)
      requires Mounted() && InTable(V().table, c) && v < 0x1000
      modifies disk
      ensures Mounted() && V() == old(V()).(table := old(V()).table[c := v])
    {
      ghost var d0 := disk[..];
      LinkInside(g, |d0|, c);
      hide View, Mirrored, LinksSet;
      for i := 0 to g.copies
        invariant |d0| == disk.Length && LinksSet(g, d0, disk[..], c, v, i)
      {
        SetInCopy(d0, c, v, i);
      }
      LinkWritten(g, d0, disk[..], c, v);
    }

    method SetInCopy(ghost d0: seq<Byte>, c: nat, v: nat, i: nat)
      requires |d0| == disk.Length && FitsImage(g, |d0|) && 2 <= c < g.clusters + 2 && v < 0x1000 && i < g.copies
      requires LinksSet(g, d0, disk[..], c, v, i)
      modifies disk
      ensures LinksSet(g, d0, disk[..], c, v, i + 1)
    {
      ghost var d := disk[..];
      LinkInside(g, |d0|, c);
      CopyInside(g, |d0|, i, LinkAt(c));
      CopyInside(g, |d0|, i, LinkAt(c) + 1);
      LinkStep(g, d0, d, d[CopyAt(g, i, LinkAt(c)) := SetByte(d[CopyAt(g, i, LinkAt(c))], LinkAt(c), c, v)]
                          [CopyAt(g, i, LinkAt(c) + 1) := SetByte(d[CopyAt(g, i, LinkAt(c) + 1)], LinkAt(c) + 1, c,
                            v)], c, v, i);
      var at := g.fat + i * g.FatBytes() + c * 3 / 2;
      if at + 1 < disk.Length {
        var b0, b1 := Nat(disk[at]), Nat(disk[at + 1]);
        if c % 2 == 1 {
          disk[at] := b0 % 16 + v % 16 * 16;
          disk[at + 1] := v / 16;
        } else {
          disk[at] := v % 256;
          disk[at + 1] := b1 / 16 * 16 + v / 256;
        }
      }
    }

    /** fat12_alloc_cluster: takes the lowest free cluster, 0 when there is none. */
    method AllocCluster() returns (c: nat)
      requires Mounted()
      modifies disk
      ensures Mounted()
      ensures c == 0 <==> FreeClusters(old(V()).table) == {}
      ensures c == 0 ==> V() == old(V())
      ensures c != 0 ==>
        InTable(old(V()).table, c) && old(V()).table[c] == 0 && V() == old(V()).(table := old(V()).table[c := 0xFFF])
      ensures forall e | e in FreeClusters(old(V()).table) :: c <= e
    {
      c := 2;
      hide View, Mounted;
      while c < g.clusters + 2
        invariant Mounted() && c >= 2 && disk[..] == old(disk[..]) && V() == old(V())
        invariant forall e | e in FreeClusters(V().table) :: c <= e
      {
        var next := NextCluster(c);
        if next == 0 {
          assert c in FreeClusters(V().table);
          SetCluster(c, 0xFFF);
          return c;
        }
        c := c + 1;
      }
      return 0;
    }

    // ---- the root directory ----

    /** find_dirent: the offset of the first entry of that name, 0 when there is none. */
    method FindDirent(name: seq<Byte>) returns (off: nat, ghost k: nat)
      requires Valid() && IsString(name)
      ensures off == 0 <==> forall l: nat :: !Match(V().dir, Fat83(name), l)
      ensures off != 0 ==> FirstMatch(V().dir, Fat83(name), k) && off == DirAt(g, k)
    {
      ghost var dir, raw := V().dir, Fat83(name);
      hide Valid, Mounted, V, View, FitsImage, Mirrored, Sound, Live, Fat83, VolumeId;
      off, k := g.root, 0;
      var end := g.root + g.entries * ENTRY_BYTES;
      while off < end && off + ENTRY_BYTES <= disk.Length
        invariant k <= g.entries && off == DirAt(g, k)
        invariant forall l: nat | l < k :: !Match(dir, raw, l)
      {
        EntryBytes(k);
        var f := disk[off];
        if f == 0 {
          NoneFromEnd(k, raw);
          return 0, k;
        }
        LiveEntry(dir[k]);
        if f != DELETED && !VolumeId(disk[off + 11]) && disk[off + 11] != 0x0F {
          var same := Matches(disk, off, name);
          if same {
            assert V().dir == dir && Match(dir, raw, k);
            return off, k;
          }
        }
        off := off + ENTRY_BYTES;
        k := k + 1;
      }
      if k < g.entries {
        EntryBytes(k);
      }
      return 0, k;
    }

    lemma NoneFromEnd(k: nat, raw: seq<Byte>)
      requires Valid() && k < g.entries && First(V().dir[k]) == 0
      ensures forall l: nat | k <= l :: !Match(V().dir, raw, l)
    {
      assert EndsAt(V().dir, k);
    }

    /** The test of find_dirent: the attribute value of long names also has the volume bit. */
    lemma LiveEntry(e: Dirent)
      ensures Live(e) <==> First(e) != 0 && First(e) != DELETED && !VolumeId(e.attr) && e.attr != 0x0F
    {}

    /** The bytes of entry k. */
    lemma EntryBytes(k: nat)
      requires Mounted() && k < g.entries
      ensures 0 < g.root <= DirAt(g, k) && DirAt(g, k) + ENTRY_BYTES <= disk.Length &&
        V().dir[k] == DirentAt(disk[..], DirAt(g, k))
      ensures V().dir[k].name == disk[DirAt(g, k)..DirAt(g, k) + 11] && First(V().dir[k]) == disk[DirAt(g, k)]
      ensures V().dir[k].attr == disk[DirAt(g, k) + 11]
    {
      DirInside(g, disk.Length, k);
    }

    /** The search for an unused slot in fat12_write_file. */
    method FindSlot() returns (off: nat, ghost k: nat)
      requires Valid()
      ensures off == 0 <==> forall l: nat :: !FreeSlot(V().dir, l)
      ensures off != 0 ==> FreeSlot(V().dir, k) && off == DirAt(g, k)
    {
      ghost var dir := V().dir;
      off, k := g.root, 0;
      var end := g.root + g.entries * ENTRY_BYTES;
      while off < end && off + ENTRY_BYTES <= disk.Length
        invariant k <= g.entries && off == DirAt(g, k)
        invariant forall l: nat {:trigger dir[l]} | l < k :: !Vacant(dir[l])
      {
        EntryBytes(k);
        var f := disk[off];
        if f == 0 || f == DELETED {
          assert FreeSlot(dir, k);
          return off, k;
        }
        off := off + ENTRY_BYTES;
        k := k + 1;
      }
      if k < g.entries {
        DirInside(g, disk.Length, k);
      }
      return 0, k;
    }

    /** The initialisation of a new entry. */
    method InitEntry(off: nat, ghost k: nat, name: seq<Byte>)
      requires Mounted() && k < g.entries && off == DirAt(g, k) && IsString(name)
      modifies disk
      ensures Mounted() && V() == old(V()).(dir := old(V()).dir[k := NewEntry(Fat83(name))])
    {
      EntryBytes(k);
      ghost var d := disk[..];
      hide *;
      WriteEntry(off, name);
      InitWritten(d, disk[..], k, Fat83(name));
    }

    lemma InitWritten(d: seq<Byte>, d': seq<Byte>, k: nat, raw: seq<Byte>)
      requires FitsImage(g, |d|) && Mirrored(g, d) && k < g.entries && DirAt(g, k) + ENTRY_BYTES <= |d| && |raw| == 11
      requires d' == NewEntryIn(d, DirAt(g, k), raw)
      ensures Mirrored(g, d') && View(g, d') == View(g, d).(dir := View(g, d).dir[k := NewEntry(raw)])
    {
      DirentWritten(g, d, d', k);
      NewEntryBytes(d', DirAt(g, k), raw);
    }

    method WriteEntry(off: nat, name: seq<Byte>)
      requires off + ENTRY_BYTES <= disk.Length && IsString(name)
      modifies disk
      ensures disk[..] == NewEntryIn(old(disk[..]), off, Fat83(name))
    {
      hide Fat83;
      ZeroEntry(off);
      StrToFat83(name, disk, off);
      disk[off + 11] := ARCHIVE;
    }

    method ZeroEntry(off: nat)
      requires off + ENTRY_BYTES <= disk.Length
      modifies disk
      ensures disk[..] == old(disk[..off]) + seq(ENTRY_BYTES, _ => 0) + old(disk[off + ENTRY_BYTES..])
    {
      ghost var d := disk[..];
      for i := 0 to ENTRY_BYTES
        invariant forall p | 0 <= p < |d| :: disk[p] == if off <= p < off + i then 0 else d[p]
      {
        disk[off + i] := 0;
      }
    }

    /** w16le and w32le on the first cluster and the size of an entry. */
    method SetExtent(off: nat, ghost k: nat, cluster: nat, size: nat)
      requires Mounted() && k < g.entries && off == DirAt(g, k) && cluster < 0x1_0000 && size < 0x1_0000_0000
      modifies disk
      ensures Mounted() && V() == old(V()).(dir := old(V()).dir[k := Refilled(old(V()).dir[k], cluster, size)])
    {
      EntryBytes(k);
      hide View, FitsImage, Mirrored, DirentAt, Refilled, DirAt;
      ghost var d := disk[..];
      PutExtent(off, cluster, size);
      DirentWritten(g, d, disk[..], k);
      ExtentBytes(d, disk[..], off, cluster, size);
    }

    method PutExtent(off: nat, cluster: nat, size: nat)
      requires off + ENTRY_BYTES <= disk.Length && cluster < 0x1_0000 && size < 0x1_0000_0000
      modifies disk
      ensures forall p | 0 <= p < disk.Length && !(off + 26 <= p < off + 32) :: disk[p] == old(disk[p])
      ensures Word16(disk[..], off + 26) == cluster && Word32(disk[..], off + 28) == size
    {
      disk[off + 26] := cluster % 256;
      disk[off + 27] := cluster / 256;
      disk[off + 28] := size % 256;
      disk[off + 29] := size / 0x100 % 256;
      disk[off + 30] := size / 0x1_0000 % 256;
      disk[off + 31] := size / 0x100_0000;
      FourBytes(size);
    }

    lemma ExtentBytes(d: seq<Byte>, d': seq<Byte>, off: nat, cluster: nat, size: nat)
      requires |d'| == |d| && off + ENTRY_BYTES <= |d|
      requires forall p | 0 <= p < |d| && !(off + 26 <= p < off + 32) :: d'[p] == d[p]
      requires Word16(d', off + 26) == cluster && Word32(d', off + 28) == size
      ensures DirentAt(d', off) == Refilled(DirentAt(d, off), cluster, size)
    {
      assert d'[off..off + 11] == d[off..off + 11];
      assert d'[off + 12..off + 26] == d[off + 12..off + 26];
    }

    lemma FourBytes(v: nat)
      requires v < 0x1_0000_0000
      ensures v % 256 + 256 * (v / 0x100 % 256) + 0x1_0000 * (v / 0x1_0000 % 256) + 0x100_0000 * (v / 0x100_0000) == v
    {}

    // ---- reading ----

    /** What the file at path holds; None for no such file. */
    ghost function Stored(path: seq<Byte>): Option<seq<Byte>>
      requires Valid()
      reads this, disk
    {
      if NameIn(path) == [] then None else Contents(V(), chains, Fat83(NameIn(path)))
    }

    /** fat12_read_file, for a buffer of at least max bytes: how much was read, -1 for no such file. */
    method ReadFile(path: seq<Byte>, buf: array<Byte>, max: nat) returns (n: int)
      requires Valid() && IsString(path) && max <= buf.Length && buf != disk
      modifies buf
      ensures ReadInto(old(Stored(path)), max, old(buf[..]), buf[..], n)
      ensures Valid() && |chains| == |V().dir|
      ensures forall name: seq<Byte> | Names(path, name) && name != [] ::
        ReadInto(Contents(V(), chains, Fat83(name)), max, old(buf[..]), buf[..], n)
    {
      hide *;
      Parts();
      SoundDir(V(), g.ClusterBytes(), chains);
      AllSlashesDropped(path);
      var name := PathToName(path);
      StoredAt(path);
      if name == [] {
        NothingRead(max, buf[..]);
        return -1;
      }
      NameInString(path);
      var off; ghost var k;
      off, k := FindDirent(name);
      if off == 0 {
        NotThere(Fat83(name));
        NothingRead(max, buf[..]);
        return -1;
      }
      IsThere(Fat83(name), k);
      if Directory(disk[off + 11]) {
        NothingRead(max, buf[..]);
        return -1;
      }
      var size := ReadWord32(off + 28);
      var clus := ReadWord16(off + 26);
      n := ReadChain(V(), clus, chains[k], buf, if max < size then max else size);
      ChainReadIs(V().data, chains[k], if max < size then max else size, old(buf[..]), buf[..]);
      AllRead(Joined(V().data, chains[k]), size, max, old(buf[..]), buf[..], n);
    }

    lemma StoredAt(path: seq<Byte>)
      requires Valid()
      ensures Stored(path) == if NameIn(path) == [] then None else Contents(V(), chains, Fat83(NameIn(path)))
    {}

    lemma NotThere(raw: seq<Byte>)
      requires Valid() && forall l: nat :: !Match(V().dir, raw, l)
      ensures Contents(V(), chains, raw).None?
    {
      LookupNone(V().dir, raw);
    }

    /** What the entry of a name says about its contents. */
    lemma IsThere(raw: seq<Byte>, k: nat)
      requires Valid() && FirstMatch(V().dir, raw, k)
      ensures k < g.entries && |chains| == g.entries && DirAt(g, k) + 32 <= disk.Length && Mounted()
      ensures Directory(disk[DirAt(g, k) + 11]) ==> Contents(V(), chains, raw).None?
      ensures !Directory(disk[DirAt(g, k) + 11]) ==>
        var size := Word32(disk[..], DirAt(g, k) + 28);
        Chain(V().table, Word16(disk[..], DirAt(g, k) + 26), chains[k]) && size <= |Joined(V().data, chains[k])| &&
        Contents(V(), chains, raw) == Some(Joined(V().data, chains[k])[..size])
    {
      EntryBytes(k);
      LookupIs(V().dir, raw, k);
      assert Owns(V(), g.ClusterBytes(), chains, k);
    }

    method PathToName(path: seq<Byte>) returns (name: seq<Byte>)
      ensures name == NameIn(path)
    {
      name := path;
      while name != [] && name[0] == SLASH
        invariant NameIn(name) == NameIn(path)
      {
        name := name[1..];
      }
    }

    method ReadWord16(at: nat) returns (w: nat)
      requires at + 2 <= disk.Length
      ensures w == Word16(disk[..], at)
    {
      w := Nat(disk[at]) + 256 * Nat(disk[at + 1]);
    }

    method ReadWord32(at: nat) returns (w: nat)
      requires at + 4 <= disk.Length
      ensures w == Word32(disk[..], at)
    {
      w := Nat(disk[at]) + 256 * Nat(disk[at + 1]) + 0x1_0000 * Nat(disk[at + 2]) + 0x100_0000 * Nat(disk[at + 3]);
    }

    /** The copying loop of fat12_read_file. */
    method ReadChain(ghost v: Vol, first: nat, ghost chain: seq<nat>, buf: array<Byte>, max: nat) returns (n: nat)
      requires Valid() && v == V() && Chain(v.table, first, chain) && max <= buf.Length && buf != disk
      requires max <= |Joined(v.data, chain)|
      modifies buf
      ensures n == max && ChainRead(v.data, chain, max, old(buf[..]), buf[..])
    {
      hide *;
      Parts();
      ghost var was := buf[..];
      var clus: nat := first;
      n := 0;
      ghost var i := 0;
      ReadStarts(v, g.ClusterBytes(), chains, first, chain, max, was);
      while 2 <= clus < CHAIN_END && n < max
        invariant i <= |chain| && n <= max && ChainAt(v.table, clus, chain, i) &&
          ReadSoFar(v.data, chain, i, n, max, was, buf[..])
        decreases |chain| - i
      {
        ChainGoesOn(v.table, first, clus, chain, i);
        ClusterOf(clus);
        var from := g.data + (clus - 2) * g.ClusterBytes();
        var count := g.ClusterBytes();
        if n + count > max {
          count := max - n;
        }
        var room := disk.Length - from;
        if count > room {
          count := room;
        }
        ClusterPart(clus, count);
        ReadStep(v, chain, i, n, count, max, was, buf[..]);
        CopyOut(from, count, buf, n);
        n := n + count;
        clus := NextCluster(clus);
        i := i + 1;
      }
      ReadDone(v, chain, first, clus, i, n, max, was, buf[..]);
      ReadSoFarIs(v.data, chain, i, n, max, was, buf[..]);
      ChainReadIs(v.data, chain, max, was, buf[..]);
    }

    lemma ClusterOf(c: nat)
      requires Mounted() && InTable(V().table, c)
      ensures ClusterAt(g, c) + g.ClusterBytes() <= disk.Length
      ensures V().data[c] == disk[ClusterAt(g, c)..ClusterAt(g, c) + g.ClusterBytes()]
      ensures 2 <= c && ClusterAt(g, c) == g.data + (c - 2) * g.ClusterBytes()
      ensures g.root <= g.data <= ClusterAt(g, c)
    {
      ClusterInside(g, disk.Length, c);
      AreasInOrder(g, disk.Length);
    }

    lemma ClusterPart(c: nat, count: nat)
      requires Mounted() && InTable(V().table, c) && count <= g.ClusterBytes()
      ensures
        var from := g.data + (c - 2) * g.ClusterBytes();
        from + count <= disk.Length && count <= |V().data[c]| && disk[from..from + count] == V().data[c][..count]
    {
      ClusterOf(c);
    }

    method CopyOut(from: nat, count: nat, buf: array<Byte>, to: nat)
      requires from + count <= disk.Length && to + count <= buf.Length && buf != disk
      modifies buf
      ensures buf[..] == old(buf[..to]) + disk[from..from + count] + old(buf[to + count..])
    {
      ghost var was := buf[..];
      for i := 0 to count
        invariant buf[..] == was[..to] + disk[from..from + i] + was[to + i..]
      {
        buf[to + i] := disk[from + i];
      }
    }

    // ---- writing ----

    /** The entry to write to: the one of that name, or a fresh one in the first unused slot. */
    method Place(name: seq<Byte>) returns (off: nat, ghost k: nat)
      requires Valid() && IsString(name) && name != []
      modifies disk
      ensures Valid()
      ensures off == 0 <==> forall t: nat :: !Target(old(V().dir), Fat83(name), t)
      ensures off == 0 ==> V() == old(V())
      ensures off != 0 ==>
        Target(old(V().dir), Fat83(name), k) && off == DirAt(g, k) && k < g.entries &&
        V() == old(V()).(dir := WithTarget(old(V().dir), Fat83(name), k)) &&
        Chain(V().table, V().dir[k].cluster, chains[k]) && (!Match(old(V().dir), Fat83(name), k) ==> chains[k] == [])
    {
      hide *;
      off, k := FindDirent(name);
      if off != 0 {
        OldTarget(Fat83(name), k);
        return;
      }
      off, k := FindSlot();
      if off == 0 {
        NoTarget(Fat83(name));
        assert V() == old(V());
      } else {
        NewTarget(name, k);
        InitEntry(off, k, name);
        Whole();
        assert Target(old(V().dir), Fat83(name), k);
      }
    }

    lemma OldTarget(raw: seq<Byte>, k: nat)
      requires Valid() && FirstMatch(V().dir, raw, k)
      ensures Mounted() && k < |V().dir| == |chains| && Target(V().dir, raw, k) && Match(V().dir, raw, k)
      ensures V() == V().(dir := WithTarget(V().dir, raw, k)) && Chain(V().table, V().dir[k].cluster, chains[k])
    {
      assert Owns(V(), g.ClusterBytes(), chains, k);
    }

    lemma NoTarget(raw: seq<Byte>)
      requires Valid() && (forall l: nat :: !Match(V().dir, raw, l)) && (forall l: nat :: !FreeSlot(V().dir, l))
      ensures Mounted() && forall t: nat :: !Target(V().dir, raw, t)
    {}

    lemma NewTarget(name: seq<Byte>, k: nat)
      requires Valid() && IsString(name) && name != [] &&
        (forall l: nat :: !Match(V().dir, Fat83(name), l)) && FreeSlot(V().dir, k)
      ensures Mounted() && k < g.entries == |V().dir| == |chains| && Target(V().dir, Fat83(name), k) && chains[k] == []
      ensures
        var raw := Fat83(name);
        var v' := V().(dir := V().dir[k := NewEntry(raw)]);
        WithTarget(V().dir, raw, k) == v'.dir && Sound(v', g.ClusterBytes(), chains) &&
        Chain(v'.table, v'.dir[k].cluster, chains[k]) && !Match(V().dir, raw, k)
    {
      FirstByte(name);
      NewEntryKeepsSound(V(), g.ClusterBytes(), chains, Fat83(name), k);
    }

    lemma Whole()
      requires Mounted() && Sound(V(), g.ClusterBytes(), chains)
      ensures Valid()
    {}

    /** Frees the clusters of entry k and empties it. */
    method ClearEntry(off: nat, ghost k: nat)
      requires Valid() && k < g.entries && off == DirAt(g, k) && Chain(V().table, V().dir[k].cluster, chains[k])
      modifies disk, `chains
      ensures Valid() && chains == old(chains)[k := []]
      ensures V() == Vol(Cleared(old(V().table), old(chains[k])), old(V().dir)[k := Refilled(old(V().dir[k]), 0, 0)],
        old(V().data))
    {
      ghost var v, chain := V(), chains[k];
      ClearKeepsSound(v, g.ClusterBytes(), chains, k);
      EntryBytes(k);
      hide Mounted, View, V, Chain, Sound, Cleared;
      var clus := ReadWord16(off + 26);
      FreeChain(clus, chain);
      SetExtent(off, k, 0, 0);
      chains := chains[k := []];
    }

    /** The loop of fat12_write_file that frees the old chain. */
    method FreeChain(first: nat, ghost chain: seq<nat>)
      requires Mounted() && Chain(V().table, first, chain)
      modifies disk
      ensures Mounted() && V() == old(V()).(table := Cleared(old(V().table), chain))
    {
      ghost var v := V();
      ghost var i := 0;
      var clus: nat := first;
      ClearStarts(v.table, first, chain);
      assert |v.table| < CHAIN_END;
      hide Mounted, View, V, Chain, Cleared;
      while 2 <= clus < CHAIN_END
        invariant Mounted() && i <= |chain| && ChainAt(v.table, clus, chain, i)
        invariant V() == v.(table := Cleared(v.table, chain[..i]))
        decreases |chain| - i
      {
        ChainGoesOn(v.table, first, clus, chain, i);
        ClearStep(v.table, first, chain, i);
        var next := NextCluster(clus);
        SetCluster(clus, 0);
        clus := next;
        i := i + 1;
      }
      ChainStops(v.table, first, clus, chain, i);
      assert chain[..i] == chain;
    }

    /** The loop of fat12_write_file that copies into cluster c. */
    method CopyIn(c: nat, data: seq<Byte>, from: nat, count: nat)
      requires Mounted() && InTable(V().table, c) && from + count <= |data| && count <= g.ClusterBytes()
      modifies disk
      ensures Mounted() && |old(V().data[c])| == g.ClusterBytes()
      ensures V() == old(V()).(data := old(V().data)[c := data[from..from + count] + old(V().data[c])[count..]])
    {
      ghost var d := disk[..];
      ClusterOf(c);
      hide View, FitsImage, Mirrored, ClusterAt, DataOf;
      CopyBytes(ClusterAt(g, c), data, from, count);
      CopiedIn(d, disk[..], c, data[from..from + count]);
    }

    lemma CopiedIn(d: seq<Byte>, d': seq<Byte>, c: nat, piece: seq<Byte>)
      requires FitsImage(g, |d|) && Mirrored(g, d) && 2 <= c < g.clusters + 2 && |piece| <= g.ClusterBytes()
      requires ClusterAt(g, c) + g.ClusterBytes() <= |d|
      requires d' == d[..ClusterAt(g, c)] + piece + d[ClusterAt(g, c) + |piece|..]
      ensures Mirrored(g, d') && |View(g, d).data[c]| == g.ClusterBytes()
      ensures View(g, d') == View(g, d).(data := View(g, d).data[c := piece + View(g, d).data[c][|piece|..]])
    {
      var at := ClusterAt(g, c);
      ClusterWritten(g, d, d', c);
      assert d'[at..at + g.ClusterBytes()] == piece + d[at..at + g.ClusterBytes()][|piece|..];
    }

    method CopyBytes(at: nat, data: seq<Byte>, from: nat, count: nat)
      requires at + count <= disk.Length && from + count <= |data|
      modifies disk
      ensures disk[..] == old(disk[..at]) + data[from..from + count] + old(disk[at + count..])
    {
      ghost var d := disk[..];
      var i := 0;
      while i < count && at + i < disk.Length
        invariant i <= count && disk[..] == d[..at] + data[from..from + i] + d[at + i..]
      {
        disk[at + i] := data[from + i];
        i := i + 1;
      }
    }

    /** The loop of fat12_write_file that allocates clusters and fills them. */
    method Fill(data: seq<Byte>)
        returns (ok: bool, first: nat, ghost chain: seq<nat>, ghost written: seq<Byte>, ghost whole: bool)
      requires Valid()
      modifies disk
      ensures Mounted() && Building(old(V()), V(), g.ClusterBytes(), first, chain, written, whole)
      ensures ok <==> Needed(|data|, g.ClusterBytes()) <= |FreeClusters(old(V().table))|
      ensures ok ==> written == data
      ensures |chain| == if ok then Needed(|data|, g.ClusterBytes()) else |FreeClusters(old(V().table))|
    {
      hide *;
      Parts();
      ghost var v1, cb := V(), g.ClusterBytes();
      BuildStart(v1, cb, chains);
      SoundBounds(v1, cb, chains);
      first, chain, written, whole := 0, [], [], true;
      var prev, done: nat := 0, 0;
      while done < |data|
        invariant Mounted() && |V().table| == |v1.table| && done <= |data| && written == data[..done] &&
          (done < |data| ==> whole)
        invariant Building(v1, V(), cb, first, chain, written, whole) &&
          prev == (if chain == [] then 0 else chain[|chain| - 1])
        invariant Needed(|data| - done, cb) + |chain| == Needed(|data|, cb)
      {
        ghost var v := V();
        BuiltSoFar(v1, v, cb, first, chain, written, whole);
        NeededStep(|data| - done, cb);
        var c := AllocCluster();
        if c == 0 {
          return false, first, chain, written, whole;
        }
        var count := if |data| - done < g.ClusterBytes() then |data| - done else g.ClusterBytes();
        BuildStep(v1, v, cb, first, chain, written, c, data[done..done + count]);
        TakenCluster(v.table, chain, c);
        if prev != 0 {
          SetCluster(prev, c);
        } else {
          first := c;
        }
        prev := c;
        CopyIn(c, data, done, count);
        chain, written, whole := chain + [c], written + data[done..done + count], count == g.ClusterBytes();
        done := done + count;
      }
      BuiltSoFar(v1, V(), cb, first, chain, written, whole);
      NeededNone(cb);
      return true, first, chain, written, whole;
    }

    /** fat12_write_file. Where there is an entry to be had, it succeeds exactly with enough clusters, and changes that
        file only. The clusters it leaks are counted: all it took when they do not suffice, and all it took when the
        name marks its entry as deleted. So none is leaked exactly when it succeeds and the name is not such a one or
        there is nothing to write, or when it fails without any cluster to take. */
    method WriteFile(path: seq<Byte>, data: seq<Byte>) returns (ok: bool, ghost k: nat)
      requires Valid() && IsString(path)
      modifies disk, `chains
      ensures Valid()
      ensures NameIn(path) == [] || (forall t: nat :: !Target(old(V().dir), Fat83(NameIn(path)), t)) ==>
        !ok && V() == old(V()) && chains == old(chains)
      ensures NameIn(path) != [] && (exists t: nat :: Target(old(V().dir), Fat83(NameIn(path)), t)) ==>
        var raw := Fat83(NameIn(path));
        Target(old(V().dir), raw, k) &&
        (ok <==> Needed(|data|, g.ClusterBytes()) <= Available(old(V()), old(chains), raw, k)) &&
        WroteOnly(old(V()), old(chains), V(), chains, raw, k, if ok then data else []) &&
        Loses(old(Leaked(V(), chains)), Leaked(V(), chains),
          Lost(ok, raw, Needed(|data|, g.ClusterBytes()), Available(old(V()), old(chains), raw, k))) &&
        (Leaked(V(), chains) == old(Leaked(V(), chains)) <==>
         (ok && (raw[0] != DELETED || data == [])) || (!ok && Available(old(V()), old(chains), raw, k) == 0))
      ensures forall name: seq<Byte> | Names(path, name) && name != [] ::
        Written(old(V()), old(chains), V(), chains, g.ClusterBytes(), Fat83(name), k, data, ok)
    {
      hide *;
      AllSlashesDropped(path);
      Parts();
      SoundDir(V(), g.ClusterBytes(), chains);
      WrittenIs(V(), chains, g.ClusterBytes(), Fat83(NameIn(path)), data);
      var name := PathToName(path);
      if name == [] {
        return false, 0;
      }
      NameInString(path);
      Parts();
      ghost var v0, chains0, raw := V(), chains, Fat83(name);
      FirstByte(name);
      var off;
      off, k := Place(name);
      if off == 0 {
        return false, 0;
      }
      Parts();
      ghost var v := V();
      ClearEntry(off, k);
      Parts();
      ghost var v1, chains1 := V(), chains;
      EmptiedBy(v0, v, v1, chains0, chains1, g.ClusterBytes(), raw, k);
      WroteNothing(v0, chains0, v1, chains1, g.ClusterBytes(), raw, k);
      FreeNow(v0, chains0, v1, chains1, g.ClusterBytes(), raw, k);
      ClearLeaksNone(v0, v1, chains0, k);
      SoundBounds(v1, g.ClusterBytes(), chains1);
      ghost var need, available := Needed(|data|, g.ClusterBytes()), Available(v0, chains0, raw, k);
      if data == [] {
        NeededNone(g.ClusterBytes());
        NothingTaken(Leaked(v0, chains0), raw, available);
        LosesNoneExactly(Leaked(v0, chains0), Leaked(V(), chains), true, raw, 0, g.ClusterBytes(), available);
        return true, k;
      }
      var first; ghost var chain, written, whole;
      ok, first, chain, written, whole := Fill(data);
      ghost var v2 := V();
      WroteData(v0, chains0, v1, chains1, v2, g.ClusterBytes(), raw, k, first, chain, written, whole, ok);
      WriteLeaks(v0, chains0, v1, chains1, v2, g.ClusterBytes(), raw, k, first, chain, written, whole, ok, need);
      if ok {
        SizeFits(v1, v2, first, chain, written, whole);
        SetExtent(off, k, first, |data|);
        FinishedIs(v2, k, first, |data|);
        chains := if Live(v1.dir[k]) then chains[k := chain] else chains;
      }
      LosesNoneExactly(Leaked(v0, chains0), Leaked(V(), chains), ok, raw, |data|, g.ClusterBytes(), available);
      Whole();
    }

    lemma SizeFits(v1: Vol, v: Vol, first: nat, chain: seq<nat>, written: seq<Byte>, whole: bool)
      requires Mounted() && V() == v && Building(v1, v, g.ClusterBytes(), first, chain, written, whole)
      ensures |written| < 0x1_0000_0000 && (written != [] ==> first < 0x1_0000)
    {
      BuiltSize(v1, v, g.ClusterBytes(), first, chain, written, whole);
      assert |v1.table| - 2 == g.clusters;
    }

    /** Reading a path right after a successful write to it gives back the bytes written, in full, exactly when the
        name does not begin with the deleted mark and no directory of that name was there. */
    method WriteThenRead(path: seq<Byte>, data: seq<Byte>, buf: array<Byte>) returns (ok: bool, n: int)
      requires Valid() && IsString(path) && |data| <= buf.Length && buf != disk
      modifies disk, buf, `chains
      ensures Valid()
      ensures ok ==> NameIn(path) != []
      ensures ok ==>
        (n == |data| && buf[..|data|] == data <==>
         NameIn(path)[0] != DELETED && !InDirectory(old(V().dir), Fat83(NameIn(path))))
    {
      hide *;
      Parts();
      ghost var v := V();
      ghost var k;
      ok, k := WriteFile(path, data);
      if ok {
        ghost var was := buf[..];
        StoredAt(path);
        Parts();
        n := ReadFile(path, buf, |data|);
        Parts();
        NameFirst(path);
        ReadBack(v, old(chains), V(), chains, Fat83(NameIn(path)), k, data, was, buf[..], n);
      } else {
        n := -1;
      }
    }
  }

  // ---- a run that leaks ----

  /** A boot sector, one sector of links, one of directory entries and two clusters, all else zero. */
  ghost predicate SmallImage(d: seq<Byte>) {
    |d| == 2560 && Bootable(d) && GeometryOf(d) == SMALL && forall p {:trigger d[p]} | 512 <= p < |d| :: d[p] == 0
  }

  const SMALL: Geometry := Geometry(512, 1, 1, 16, 1, 512, 1024, 1536, 2)

  /** A name of one byte, 0xE5. */
  const LOST_NAME: seq<Byte> := [0xE5]

  method MakeSmall() returns (disk: array<Byte>)
    ensures fresh(disk) && SmallImage(disk[..])
  {
    disk := new Byte[2560](_ => 0);
    disk[12], disk[13], disk[14], disk[16], disk[17], disk[19], disk[22] := 2, 1, 1, 1, 16, 5, 1;
    disk[510], disk[511] := 0x55, 0xAA;
    hide SmallImage, GeometryOf;
    SmallGeometry(disk[..]);
  }

  lemma SmallGeometry(d: seq<Byte>)
    requires |d| == 2560 && d[11] == 0 && d[12] == 2 && d[13] == 1 && d[14] == 1 && d[15] == 0 && d[16] == 1
    requires d[17] == 16 && d[18] == 0 && d[19] == 5 && d[20] == 0 && d[22] == 1 && d[23] == 0
    requires d[510] == 0x55 && d[511] == 0xAA && forall p | 512 <= p < |d| :: d[p] == 0
    ensures SmallImage(d)
  {
    SmallSector(d);
    hide GeometryOf, Bootable;
  }

  lemma SmallSector(d: seq<Byte>)
    requires |d| == 2560 && d[11] == 0 && d[12] == 2 && d[13] == 1 && d[14] == 1 && d[15] == 0 && d[16] == 1
    requires d[17] == 16 && d[18] == 0 && d[19] == 5 && d[20] == 0 && d[22] == 1 && d[23] == 0
    requires d[510] == 0x55 && d[511] == 0xAA
    ensures Bootable(d) && GeometryOf(d) == SMALL
  {
    hide DirentAt, View, Mirrored;
    assert Word16(d, 11) == 512 && Word16(d, 14) == 1 && Word16(d, 17) == 16 && Word16(d, 19) == 5 &&
      Word16(d, 22) == 1;
    assert RootSectors(d) == 1 && TotalSectors(d) == 5;
  }

  lemma SmallIsFormatted(d: seq<Byte>)
    requires SmallImage(d)
    ensures Formatted(SMALL, d)
  {}

  /** No entry is found or has a cluster, the first slot is vacant, and n clusters are leaked. */
  ghost predicate LeakedSoFar(v: Vol, chains: seq<seq<nat>>, n: nat) {
    Sound(v, 512, chains) && |v.table| == 4 && |v.dir| == 16 && Vacant(v.dir[0]) &&
    (forall k {:trigger v.dir[k]} | 0 <= k < |v.dir| :: !Live(v.dir[k])) &&
    (forall k: nat {:trigger chains[k]} | k < |chains| :: chains[k] == []) && |Leaked(v, chains)| == n
  }

  lemma NoneLeaked(d: seq<Byte>)
    requires SmallImage(d)
    ensures FitsImage(SMALL, |d|) && LeakedSoFar(View(SMALL, d), NoChains(16), 0)
  {
    SmallIsFormatted(d);
    FormattedIsSound(SMALL, d);
    var v := View(SMALL, d);
    forall c: nat | 2 <= c < 4 ensures v.table[c] == 0 {
      LinkInside(SMALL, |d|, c);
    }
    forall k: nat | k < 16 ensures First(v.dir[k]) == 0 {
      DirInside(SMALL, |d|, k);
      assert v.dir[k].name[0] == d[DirAt(SMALL, k)];
    }
    assert Leaked(v, NoChains(16)) == {};
  }

  lemma LostName()
    ensures IsString(LOST_NAME) && NameIn(LOST_NAME) == LOST_NAME && LOST_NAME != []
    ensures |Fat83(LOST_NAME)| == 11 && Fat83(LOST_NAME)[0] == DELETED
  {
    FirstByte(LOST_NAME);
  }

  lemma NeedsOne()
    ensures SMALL.ClusterBytes() == 512 && Needed(|[0 as Byte]|, 512) == 1
  {}

  lemma SmallMounts(d: seq<Byte>)
    requires SmallImage(d)
    ensures Bootable(d) && GeometryOf(d) == SMALL && Formatted(SMALL, d)
  {
    SmallIsFormatted(d);
  }

  lemma LeakRoom(v: Vol, chains: seq<seq<nat>>, n: nat)
    requires LeakedSoFar(v, chains, n)
    ensures n <= 2 && |chains| == |v.dir| == 16 && |FreeClusters(v.table)| == 2 - n
  {
    Accounted(v, 512, chains);
    assert Held(v, chains) == {};
  }

  lemma LeakTarget(v: Vol, chains: seq<seq<nat>>, n: nat, raw: seq<Byte>)
    requires LeakedSoFar(v, chains, n)
    ensures n <= 2 && |chains| == 16 && Available(v, chains, raw, 0) == 2 - n
    ensures Target(v.dir, raw, 0) && forall t: nat | Target(v.dir, raw, t) :: t == 0
  {
    LeakRoom(v, chains, n);
    assert forall k: nat :: !Match(v.dir, raw, k);
    assert FreeSlot(v.dir, 0);
    hide Sound, Leaked, FreeClusters, Chain;
  }

  lemma LeakStep(v: Vol, chains: seq<seq<nat>>, v': Vol, chains': seq<seq<nat>>, n: nat, ok: bool, raw: seq<Byte>,
      stored: seq<Byte>)
    requires LeakedSoFar(v, chains, n) && n <= 2 && |raw| == 11 && raw[0] == DELETED && (ok <==> n < 2)
    requires WroteOnly(v, chains, v', chains', raw, 0, stored) && Sound(v', 512, chains')
    requires Loses(Leaked(v, chains), Leaked(v', chains'), Lost(ok, raw, 1, 2 - n))
    ensures LeakedSoFar(v', chains', if ok then n + 1 else n)
  {
    assert v'.dir[0].name == raw;
    assert Owns(v', 512, chains', 0);
    hide Sound, Leaked, Contents, FileBytes;
  }

  /** One byte written under that name. */
  method LeakOnce(v: Volume, ghost n: nat) returns (ok: bool)
    requires v.Valid() && v.g == SMALL && LeakedSoFar(v.V(), v.chains, n)
    modifies v.disk, v`chains
    ensures v.Valid() && n <= 2 && (ok <==> n < 2) && LeakedSoFar(v.V(), v.chains, if ok then n + 1 else n)
  {
    hide *;
    v.Parts();
    ghost var vol, chains, raw := v.V(), v.chains, Fat83(LOST_NAME);
    LostName();
    LeakTarget(vol, chains, n, raw);
    ghost var k;
    ok, k := v.WriteFile(LOST_NAME, [0]);
    v.Parts();
    NeedsOne();
    LeakStep(vol, chains, v.V(), v.chains, n, ok, raw, if ok then [0] else []);
  }

  lemma NeedsThree()
    ensures SMALL.ClusterBytes() == 512 && Needed(1025, 512) == 3
  {}

  lemma BothLost(v: Vol, chains: seq<seq<nat>>, v': Vol, chains': seq<seq<nat>>, raw: seq<Byte>)
    requires LeakedSoFar(v, chains, 0) && |raw| == 11
    requires Loses(Leaked(v, chains), Leaked(v', chains'), Lost(false, raw, 3, 2))
    ensures |Leaked(v', chains')| == 2
  {}

  /** The fresh volume. */
  method Fresh() returns (v: Volume)
    ensures fresh(v) && fresh(v.disk) && v.Valid() && v.g == SMALL && LeakedSoFar(v.V(), v.chains, 0)
  {
    hide *;
    var disk := MakeSmall();
    SmallMounts(disk[..]);
    var mounted := Volume.Mount(disk);
    v := mounted;
    NoneLeaked(disk[..]);
    ViewIs(v);
  }

  /** Three writes of one byte to that name: the first two succeed and leak a cluster each, and then there is none
      left, though no name is found. */
  method LeakRun() returns (v: Volume, first: bool, second: bool, third: bool)
    ensures first && second && !third
    ensures v.Valid() && |v.chains| == |v.V().dir|
    ensures FreeClusters(v.V().table) == {} && |Leaked(v.V(), v.chains)| == 2
    ensures forall raw: seq<Byte> :: Contents(v.V(), v.chains, raw) == None
  {
    hide *;
    v := Fresh();
    first := LeakOnce(v, 0);
    second := LeakOnce(v, 1);
    third := LeakOnce(v, 2);
    AllLeaked(v);
  }

  /** A write of three clusters to any name on that volume of two: it fails, and both are leaked. */
  method FullRun(name: seq<Byte>) returns (v: Volume, ok: bool)
    requires IsString(name) && NameIn(name) != []
    ensures !ok && v.Valid() && |Leaked(v.V(), v.chains)| == 2
  {
    hide *;
    v := Fresh();
    v.Parts();
    ghost var vol, chains, raw := v.V(), v.chains, Fat83(NameIn(name));
    LeakTarget(vol, chains, 0, raw);
    NeedsThree();
    ghost var k;
    ok, k := v.WriteFile(name, seq(1025, _ => 0));
    v.Parts();
    BothLost(vol, chains, v.V(), v.chains, raw);
  }

  lemma ViewIs(v: Volume)
    requires v.Valid()
    ensures FitsImage(v.g, v.disk.Length) && v.V() == View(v.g, v.disk[..]) && SMALL.entries == 16
  {}

  lemma AllLeaked(v: Volume)
    requires v.Valid() && LeakedSoFar(v.V(), v.chains, 2)
    ensures |v.chains| == |v.V().dir| && FreeClusters(v.V().table) == {} && |Leaked(v.V(), v.chains)| == 2
    ensures forall raw: seq<Byte> :: Contents(v.V(), v.chains, raw) == None
  {
    LeakRoom(v.V(), v.chains, 2);
    forall raw: seq<Byte> ensures Contents(v.V(), v.chains, raw) == None {
      LookupNone(v.V().dir, raw);
    }
  }

  // ---- a run that reads ----

  /** The small image with a file in its first entry: A.TXT of 600 bytes, its first 512 in cluster 3, the rest in 2. */
  ghost predicate KnownImage(d: seq<Byte>) {
    |d| == 2560 && Bootable(d) && GeometryOf(d) == SMALL &&
    d[512] == 0 && d[513] == 0 && d[514] == 0 && d[515] == 0xFF && d[516] == 0x2F && d[517] == 0 &&
    KnownEntry(d[1024..1056]) && forall p {:trigger d[p]} | 1056 <= p < 1536 :: d[p] == 0
  }

  predicate KnownEntry(e: seq<Byte>) {
    |e| == 32 && e[0] == 0x41 && (forall i | 1 <= i < 8 :: e[i] == 0x20) && e[8] == 0x54 && e[9] == 0x58 &&
    e[10] == 0x54 && e[11] == 0x20 && e[26] == 3 && e[27] == 0 && e[28] == 0x58 && e[29] == 2 && e[30] == 0 &&
    e[31] == 0
  }

  /** "/a.txt" */
  const KNOWN_PATH: seq<Byte> := [0x2F, 0x61, 0x2E, 0x74, 0x78, 0x74]

  const KNOWN_NAME: seq<Byte> := [0x61, 0x2E, 0x74, 0x78, 0x74]

  function KnownChains(): seq<seq<nat>> { seq(16, k => if k == 0 then [3, 2] else []) }

  lemma KnownName()
    ensures Names(KNOWN_PATH, KNOWN_NAME) && KNOWN_NAME != [] && IsString(KNOWN_PATH)
    ensures Fat83(KNOWN_NAME) == [0x41, 0x20, 0x20, 0x20, 0x20, 0x20, 0x20, 0x20, 0x54, 0x58, 0x54]
  {
    DottedName([0x61], [0x74, 0x78, 0x74]);
    assert [0x61] + [0x2E] + [0x74, 0x78, 0x74] == KNOWN_NAME;
    assert KNOWN_PATH[1..] == KNOWN_NAME;
    hide Fat83;
    var raw := Fat83(KNOWN_NAME);
    var ext: seq<Byte> := [0x74, 0x78, 0x74];
    assert ext[0] == 0x74 && ext[1] == 0x78 && ext[2] == 0x74;
    assert raw == [0x41, 0x20, 0x20, 0x20, 0x20, 0x20, 0x20, 0x20, 0x54, 0x58, 0x54];
  }

  lemma KnownView(d: seq<Byte>)
    requires KnownImage(d)
    ensures FitsImage(SMALL, |d|) && Mirrored(SMALL, d)
    ensures
      var v := View(SMALL, d);
      |v.table| == |v.data| == 4 && |v.dir| == 16 && v.table[3] == 2 && v.table[2] == 0xFFF &&
      v.data[3] == d[2048..2560] && v.data[2] == d[1536..2048] &&
      v.dir[0].name == d[1024..1035] && v.dir[0].attr == 0x20 && v.dir[0].cluster == 3 && v.dir[0].size == 600 &&
      forall k | 1 <= k < 16 :: First(v.dir[k]) == 0 && |v.dir[k].name| == 11
  {
    var v := View(SMALL, d);
    forall c: nat | 2 <= c < 4 ensures v.table[c] == if c == 2 then 0xFFF else 2 {
      LinkInside(SMALL, |d|, c);
    }
    forall k: nat | 1 <= k < 16 ensures First(v.dir[k]) == 0 && |v.dir[k].name| == 11 {
      DirInside(SMALL, |d|, k);
      assert v.dir[k].name[0] == d[DirAt(SMALL, k)];
    }
    DirInside(SMALL, |d|, 0);
    var e := d[1024..1056];
    assert forall i | 0 <= i < 32 :: e[i] == d[1024 + i];
    assert v.dir[0] == DirentAt(d, 1024);
    ClusterInside(SMALL, |d|, 2);
    ClusterInside(SMALL, |d|, 3);
  }

  lemma JoinedTwo(data: seq<seq<Byte>>, c: nat, d: nat)
    requires c < |data| && d < |data|
    ensures Joined(data, [c, d]) == data[c] + data[d]
  {
    JoinedMore(data, [c], d);
    JoinedMore(data, [], c);
    assert [] + [c] == [c] && [c] + [d] == [c, d];
  }

  /** The volume that the known image stands for. */
  ghost predicate KnownVol(v: Vol, raw: seq<Byte>) {
    |v.table| == |v.data| == 4 && |v.dir| == 16 && v.table[3] == 2 && v.table[2] == 0xFFF && |v.data[2]| == 512 &&
    |v.data[3]| == 512 && |raw| == 11 && raw[0] == 0x41 && v.dir[0].name == raw && v.dir[0].attr == 0x20 &&
    v.dir[0].cluster == 3 && v.dir[0].size == 600 &&
    forall k {:trigger v.dir[k]} | 1 <= k < 16 :: First(v.dir[k]) == 0 && |v.dir[k].name| == 11
  }

  lemma KnownVolSound(v: Vol, raw: seq<Byte>)
    requires KnownVol(v, raw)
    ensures Sound(v, 512, KnownChains())
  {
    JoinedTwo(v.data, 3, 2);
    assert Link(v.table, [3, 2], 0) && Link(v.table, [3, 2], 1);
    assert Chain(v.table, 3, [3, 2]);
    hide Joined, Chain;
    assert Live(v.dir[0]) && Owns(v, 512, KnownChains(), 0);
    assert forall k: nat | 1 <= k < 16 :: Owns(v, 512, KnownChains(), k);
  }

  lemma KnownVolReads(v: Vol, raw: seq<Byte>)
    requires KnownVol(v, raw)
    ensures Contents(v, KnownChains(), raw) == Some(v.data[3] + v.data[2][..88])
  {
    JoinedTwo(v.data, 3, 2);
    assert FirstMatch(v.dir, raw, 0);
    LookupIs(v.dir, raw, 0);
    hide Joined;
    assert (v.data[3] + v.data[2])[..600] == v.data[3] + v.data[2][..88];
  }

  lemma KnownSound(d: seq<Byte>)
    requires KnownImage(d)
    ensures FitsImage(SMALL, |d|) && Mirrored(SMALL, d) && Sound(View(SMALL, d), 512, KnownChains())
    ensures SMALL.ClusterBytes() == 512
    ensures Contents(View(SMALL, d), KnownChains(), Fat83(KNOWN_NAME)) == Some(d[2048..2560] + d[1536..1624])
  {
    KnownView(d);
    KnownName();
    var v, raw := View(SMALL, d), Fat83(KNOWN_NAME);
    var e := d[1024..1056];
    assert forall i | 0 <= i < 11 :: v.dir[0].name[i] == d[1024 + i] == e[i];
    assert v.dir[0].name == raw;
    hide View, Fat83, GeometryOf, Bootable, FitsImage, Mirrored, Sound, Contents, KnownImage;
    KnownVolSound(v, raw);
    KnownVolReads(v, raw);
    assert d[1536..2048][..88] == d[1536..1624];
  }

  lemma KnownValid(v: Volume)
    requires KnownImage(v.disk[..]) && v.g == SMALL && v.chains == KnownChains()
    ensures v.Valid() && |v.chains| == |v.V().dir|
    ensures Contents(v.V(), v.chains, Fat83(KNOWN_NAME)) == Some(v.disk[..][2048..2560] + v.disk[..][1536..1624])
  {
    KnownSound(v.disk[..]);
    hide KnownImage, View, Sound, Fat83;
  }

  lemma KnownMounts(d: seq<Byte>)
    requires KnownImage(d)
    ensures |d| == 2560 && Bootable(d) && GeometryOf(d) == SMALL
  {}

  lemma AllOfIt(a: seq<Byte>, b: seq<Byte>, was: seq<Byte>, now: seq<Byte>, n: int)
    requires |a| == 512 && |b| == 88 && |was| == 1024 && ReadInto(Some(a + b), 1024, was, now, n)
    ensures n == 600 && |now| == 1024 && now[..600] == a + b
  {}

  /** The bytes of the known image. */
  function KnownByte(a: seq<Byte>, b: seq<Byte>, i: nat): Byte
    requires |a| == 512 && |b| == 88
  {
    if i < 512 then SectorByte(i)
    else if i < 1024 then if i == 515 then 0xFF else if i == 516 then 0x2F else 0
    else if i < 1056 then EntryByte(i - 1024)
    else if i < 1536 then 0
    else if i < 1624 then b[i - 1536]
    else if 2048 <= i < 2560 then a[i - 2048]
    else 0
  }

  function SectorByte(i: nat): Byte {
    match i
    case 12 => 2
    case 13 => 1
    case 14 => 1
    case 16 => 1
    case 17 => 16
    case 19 => 5
    case 22 => 1
    case 510 => 0x55
    case 511 => 0xAA
    case _ => 0
  }

  function EntryByte(i: nat): Byte {
    match i
    case 0 => 0x41
    case 8 => 0x54
    case 9 => 0x58
    case 10 => 0x54
    case 26 => 3
    case 28 => 0x58
    case 29 => 2
    case _ => if i < 12 then 0x20 else 0
  }

  lemma KnownBytes(a: seq<Byte>, b: seq<Byte>, d: seq<Byte>)
    requires |a| == 512 && |b| == 88 && |d| == 2560
    requires forall i: nat {:trigger d[i]} | i < 2560 :: d[i] == KnownByte(a, b, i)
    ensures KnownImage(d) && d[2048..2560] == a && d[1536..1624] == b
  {
    assert forall i | 0 <= i < 32 :: d[1024..1056][i] == d[1024 + i];
    SmallSector(d);
    hide GeometryOf, Bootable;
  }

  /** A volume whose bytes are all known, read by a path with a slash and in lower case. */
  method ReadKnown(a: seq<Byte>, b: seq<Byte>) returns (n: int, got: seq<Byte>)
    requires |a| == 512 && |b| == 88
    ensures n == 600 && got == a + b
  {
    hide *;
    var disk := new Byte[2560](i => KnownByte(a, b, i));
    KnownBytes(a, b, disk[..]);
    KnownMounts(disk[..]);
    var mounted := Volume.Mount(disk);
    var v: Volume := mounted;
    v.chains := KnownChains();
    KnownValid(v);
    var buf := new Byte[1024];
    ghost var was := buf[..];
    KnownName();
    n := v.ReadFile(KNOWN_PATH, buf, 1024);
    AllOfIt(a, b, was, buf[..], n);
    got := buf[..600];
  }

  /** What a write of data under a name comes to. */
  ghost predicate Written(v: Vol, chains: seq<seq<nat>>, v': Vol, chains': seq<seq<nat>>, cb: nat, raw: seq<Byte>,
      k: nat, data: seq<Byte>, ok: bool) {
    if exists t: nat :: Target(v.dir, raw, t)
    then Target(v.dir, raw, k) && k < |chains| && (ok <==> Needed(|data|, cb) <= Available(v, chains, raw, k)) &&
         WroteOnly(v, chains, v', chains', raw, k, if ok then data else [])
    else !ok && v' == v && chains' == chains
  }

  lemma WrittenIs(v: Vol, chains: seq<seq<nat>>, cb: nat, raw: seq<Byte>, data: seq<Byte>)
    requires |chains| == |v.dir|
    ensures (forall t: nat :: !Target(v.dir, raw, t)) ==>
      Written(v, chains, v, chains, cb, raw, 0, data, false)
    ensures forall v': Vol, chains': seq<seq<nat>>, k: nat, ok: bool
      {:trigger Written(v, chains, v', chains', cb, raw, k, data, ok)} |
      Target(v.dir, raw, k) && k < |chains| && (ok <==> Needed(|data|, cb) <= Available(v, chains, raw, k)) &&
      WroteOnly(v, chains, v', chains', raw, k, if ok then data else []) ::
      Written(v, chains, v', chains', cb, raw, k, data, ok)
  {}

  /** The entry a name leads to is a directory. */
  ghost predicate InDirectory(dir: seq<Dirent>, raw: seq<Byte>) {
    exists k: nat :: FirstMatch(dir, raw, k) && Directory(dir[k].attr)
  }

  lemma NameFirst(path: seq<Byte>)
    requires IsString(path) && NameIn(path) != []
    ensures Fat83(NameIn(path))[0] == 0xE5 <==> NameIn(path)[0] == 0xE5
    ensures NameIn(path)[0] != DELETED <==> NameIn(path)[0] != 0xE5
  {
    NameInString(path);
    FirstByte(NameIn(path));
  }

  lemma ReadBack(v: Vol, chains: seq<seq<nat>>, v': Vol, chains': seq<seq<nat>>, raw: seq<Byte>, k: nat,
      data: seq<Byte>,
                 was: seq<Byte>, now: seq<Byte>, n: int)
    requires Target(v.dir, raw, k) && WroteOnly(v, chains, v', chains', raw, k, data) && |data| <= |was|
    requires |chains'| == |v'.dir| && ReadInto(Contents(v', chains', raw), |data|, was, now, n)
    ensures n == |data| && |data| <= |now| && now[..|data|] == data <==> raw[0] != 0xE5 && !InDirectory(v.dir, raw)
  {
    if l: nat :| FirstMatch(v.dir, raw, l) {
      LookupIs(v.dir, raw, l);
      assert Match(v.dir, raw, l);
      if FirstMatch(v.dir, raw, k) {
        LookupIs(v.dir, raw, k);
      }
    }
  }
}
