/** A FAT12 volume as values (fs/fat12.c): the table of cluster links, the root directory, and what each
    cluster holds; and the chains of clusters that directory entries own. */
module Fat12Volume {
  import opened Basics
  import opened Fat12Names
  import opened Options

  /** A directory entry: its 11 name bytes, attributes, the bytes the driver never looks at, first
      cluster and size. */
  datatype Dirent = Dirent(name: seq<Byte>, attr: Byte, rest: seq<Byte>, cluster: nat, size: nat)

  datatype Vol = Vol(table: seq<nat>, dir: seq<Dirent>, data: seq<seq<Byte>>)

  const ARCHIVE: Byte := 0x20
  const DELETED: Byte := 0xE5
  /** Links from here up end a chain. */
  const CHAIN_END: nat := 0xFF8

  function First(e: Dirent): Byte {
    if e.name == [] then 0 else e.name[0]
  }

  predicate VolumeId(attr: Byte) { attr / 8 % 2 == 1 }
  predicate Directory(attr: Byte) { attr / 16 % 2 == 1 }

  /** An entry the driver can find: in use, and neither a volume label nor part of a long name. */
  predicate Live(e: Dirent) {
    First(e) != 0 && First(e) != DELETED && !VolumeId(e.attr)
  }

  // ---- chains ----

  predicate InTable(table: seq<nat>, c: nat) {
    2 <= c < |table|
  }

  /** The clusters from first on, each linked to the next, the last one ended; nothing at all when first is
      no cluster. No cluster comes twice. */
  ghost predicate Chain(table: seq<nat>, first: nat, chain: seq<nat>) {
    (forall i {:trigger chain[i]} | 0 <= i < |chain| :: InTable(table, chain[i])) &&
    (forall i {:trigger Link(table, chain, i)} | 0 <= i < |chain| :: Link(table, chain, i)) &&
    (forall i, j {:trigger chain[i], chain[j]} | 0 <= i < j < |chain| :: chain[i] != chain[j]) &&
    (if chain == [] then first < 2 || first >= CHAIN_END else first == chain[0])
  }

  ghost predicate Link(table: seq<nat>, chain: seq<nat>, i: nat)
    requires i < |chain|
  {
    InTable(table, chain[i]) &&
    if i + 1 < |chain| then table[chain[i]] == chain[i + 1] else CHAIN_END <= table[chain[i]] < 0x1000
  }

  /** A walk along the chain that has come to clus after i steps. */
  predicate ChainAt(table: seq<nat>, clus: nat, chain: seq<nat>, i: nat) {
    if i < |chain| then clus == chain[i] else clus < 2 || clus >= CHAIN_END
  }

  lemma ChainGoesOn(table: seq<nat>, first: nat, clus: nat, chain: seq<nat>, i: nat)
    requires Chain(table, first, chain) && ChainAt(table, clus, chain, i) && 2 <= clus < CHAIN_END
    ensures i < |chain| && clus == chain[i] && InTable(table, clus) && ChainAt(table, table[clus], chain, i + 1)
  {
    assert Link(table, chain, i);
  }

  lemma ChainStops(table: seq<nat>, first: nat, clus: nat, chain: seq<nat>, i: nat)
    requires Chain(table, first, chain) && ChainAt(table, clus, chain, i) && (clus < 2 || clus >= CHAIN_END) &&
      |table| < CHAIN_END
    ensures i >= |chain|
  {
    assert i < |chain| ==> InTable(table, chain[i]);
  }

  predicate Apart(a: seq<nat>, b: seq<nat>) {
    forall c {:trigger c in a} | c in a :: c !in b
  }

  /** What the chain of entry k must be. */
  ghost predicate Owns(v: Vol, clusterBytes: nat, chains: seq<seq<nat>>, k: nat)
    requires k < |v.dir| == |chains|
  {
    if Live(v.dir[k])
    then Chain(v.table, v.dir[k].cluster, chains[k]) &&
         (!Directory(v.dir[k].attr) ==> v.dir[k].size <= |Joined(v.data, chains[k])|)
    else chains[k] == []
  }

  ghost predicate EndsAt(dir: seq<Dirent>, k: nat)
    requires k < |dir|
  {
    First(dir[k]) == 0 ==> forall l {:trigger dir[l]} | k <= l < |dir| :: First(dir[l]) == 0
  }

  /** A sound volume: chains are acyclic and pairwise disjoint and long enough for their files. Clusters
      may be marked in use without belonging to any entry. */
  ghost predicate Sound(v: Vol, clusterBytes: nat, chains: seq<seq<nat>>) {
    |v.data| == |v.table| < CHAIN_END && |chains| == |v.dir| && clusterBytes > 0 &&
    (forall c {:trigger v.data[c]} | 2 <= c < |v.data| :: |v.data[c]| == clusterBytes) &&
    (forall k {:trigger v.dir[k]} | 0 <= k < |v.dir| :: |v.dir[k].name| == 11) &&
    (forall k: nat {:trigger Owns(v, clusterBytes, chains, k)} | k < |v.dir| :: Owns(v, clusterBytes, chains, k)) &&
    (forall k, l {:trigger chains[k], chains[l]} | 0 <= k < l < |chains| :: Apart(chains[k], chains[l])) &&
    (forall k: nat {:trigger EndsAt(v.dir, k)} | k < |v.dir| :: EndsAt(v.dir, k))
  }

  // ---- contents ----

  /** What the clusters of a chain hold, one after the other. */
  function Joined(data: seq<seq<Byte>>, chain: seq<nat>): seq<Byte> {
    if chain == [] then [] else (if chain[0] < |data| then data[chain[0]] else []) + Joined(data, chain[1..])
  }

  lemma {:induction false} JoinedMore(data: seq<seq<Byte>>, chain: seq<nat>, c: nat)
    ensures Joined(data, chain + [c]) == Joined(data, chain) + if c < |data| then data[c] else []
  {
    if chain == [] {
      assert chain + [c] == [c] && [c][1..] == [];
    } else {
      assert (chain + [c])[0] == chain[0] && (chain + [c])[1..] == chain[1..] + [c];
      JoinedMore(data, chain[1..], c);
    }
  }

  lemma {:induction false} JoinedSplit(data: seq<seq<Byte>>, chain: seq<nat>, i: nat)
    requires i <= |chain|
    ensures Joined(data, chain) == Joined(data, chain[..i]) + Joined(data, chain[i..])
    decreases i
  {
    if i == 0 {
      assert chain[0..] == chain;
    } else {
      JoinedSplit(data, chain, i - 1);
      assert chain[..i] == chain[..i - 1] + [chain[i - 1]];
      JoinedMore(data, chain[..i - 1], chain[i - 1]);
      assert chain[i - 1..][0] == chain[i - 1] && chain[i - 1..][1..] == chain[i..];
    }
  }

  lemma Snoc(s: seq<nat>, i: nat)
    requires i < |s|
    ensures s[..i + 1] == s[..i] + [s[i]]
  {}

  /** Where the i-th cluster of a chain stands in its contents. */
  lemma Reached(v: Vol, chain: seq<nat>, i: nat)
    requires i < |chain| && chain[i] < |v.data|
    ensures Joined(v.data, chain[..i + 1]) == Joined(v.data, chain[..i]) + v.data[chain[i]]
    ensures Joined(v.data, chain[..i + 1]) <= Joined(v.data, chain)
  {
    hide Joined;
    Snoc(chain, i);
    JoinedMore(v.data, chain[..i], chain[i]);
    JoinedSplit(v.data, chain, i + 1);
  }

  lemma {:induction false} JoinedSame(data: seq<seq<Byte>>, data': seq<seq<Byte>>, chain: seq<nat>)
    requires |data'| == |data| && forall c {:trigger c in chain} | c in chain && c < |data| :: data'[c] == data[c]
    ensures Joined(data', chain) == Joined(data, chain)
  {
    if chain != [] {
      assert chain[0] in chain && forall c | c in chain[1..] :: c in chain;
      JoinedSame(data, data', chain[1..]);
    }
  }

  /** How many clusters hold len bytes. */
  function Needed(len: nat, clusterBytes: nat): nat {
    if len == 0 || clusterBytes == 0 then 0 else if len <= clusterBytes then 1
      else 1 + Needed(len - clusterBytes, clusterBytes)
  }

  function FreeClusters(table: seq<nat>): set<nat> {
    set c: nat | 2 <= c < |table| && table[c] == 0
  }

  // ---- looking a name up ----

  predicate Match(dir: seq<Dirent>, raw: seq<Byte>, k: nat) {
    k < |dir| && Live(dir[k]) && dir[k].name == raw
  }

  predicate FirstMatch(dir: seq<Dirent>, raw: seq<Byte>, k: nat) {
    Match(dir, raw, k) && forall l {:trigger dir[l]} | 0 <= l < k :: !Match(dir, raw, l)
  }

  /** The entry of that name, if the directory has one. */
  ghost function Lookup(dir: seq<Dirent>, raw: seq<Byte>): Option<nat> {
    if exists k: nat :: FirstMatch(dir, raw, k) then
      var k: nat :| FirstMatch(dir, raw, k);
      Some(k)
    else None
  }

  lemma LookupIs(dir: seq<Dirent>, raw: seq<Byte>, k: nat)
    requires FirstMatch(dir, raw, k)
    ensures Lookup(dir, raw) == Some(k)
  {
    var l := Lookup(dir, raw).value;
    assert FirstMatch(dir, raw, l);
    assert Match(dir, raw, k) && Match(dir, raw, l);
    assert l >= k && k >= l;
  }

  lemma {:induction false} LookupNone(dir: seq<Dirent>, raw: seq<Byte>)
    ensures Lookup(dir, raw).None? <==> forall k: nat :: !Match(dir, raw, k)
  {
    if k: nat :| Match(dir, raw, k) {
      LeastMatch(dir, raw, k);
    }
  }

  lemma {:induction false} LeastMatch(dir: seq<Dirent>, raw: seq<Byte>, k: nat)
    requires Match(dir, raw, k)
    ensures exists l: nat :: FirstMatch(dir, raw, l)
    decreases k
  {
    if l: nat :| l < k && Match(dir, raw, l) {
      LeastMatch(dir, raw, l);
    } else {
      assert FirstMatch(dir, raw, k);
    }
  }

  /** What a file of that name holds; None for no such file and for a directory. */
  ghost function Contents(v: Vol, chains: seq<seq<nat>>, raw: seq<Byte>): Option<seq<Byte>>
    requires |chains| == |v.dir|
  {
    match Lookup(v.dir, raw)
    case None => None
    case Some(k) => if Directory(v.dir[k].attr) then None else Some(FileBytes(v, chains, k))
  }

  ghost function FileBytes(v: Vol, chains: seq<seq<nat>>, k: nat): seq<Byte>
    requires k < |v.dir| == |chains|
  {
    var all := Joined(v.data, chains[k]);
    if v.dir[k].size <= |all| then all[..v.dir[k].size] else all
  }

  // ---- the steps of a write ----

  /** Entry k once the write is done, or has only cleared the old contents. */
  function Refilled(e: Dirent, cluster: nat, size: nat): Dirent {
    e.(cluster := cluster, size := size)
  }

  /** A fresh entry for the name. */
  function NewEntry(raw: seq<Byte>): Dirent {
    Dirent(raw, ARCHIVE, seq(14, _ => 0), 0, 0)
  }

  /** A slot the driver would take for a new entry: the first that is unused. */
  ghost predicate FreeSlot(dir: seq<Dirent>, k: nat) {
    k < |dir| && Vacant(dir[k]) && forall l {:trigger dir[l]} | 0 <= l < k :: !Vacant(dir[l])
  }

  predicate Vacant(e: Dirent) {
    First(e) == 0 || First(e) == DELETED
  }

  lemma NewEntryKeepsSound(v: Vol, cb: nat, chains: seq<seq<nat>>, raw: seq<Byte>, k: nat)
    requires Sound(v, cb, chains) && FreeSlot(v.dir, k) && |raw| == 11 && raw[0] != 0
    ensures Sound(v.(dir := v.dir[k := NewEntry(raw)]), cb, chains) && chains[k] == []
  {
    var v' := v.(dir := v.dir[k := NewEntry(raw)]);
    assert Owns(v, cb, chains, k);
    forall l: nat | l < |v'.dir| ensures Owns(v', cb, chains, l) {
      assert Owns(v, cb, chains, l);
    }
    forall l: nat | l < |v'.dir| ensures EndsAt(v'.dir, l) {
      assert EndsAt(v.dir, l);
      if First(v'.dir[l]) == 0 && l <= k {
        assert v.dir[l] == v'.dir[l] && Vacant(v.dir[l]);
      }
      forall m | l <= m < |v'.dir| && First(v'.dir[l]) == 0 ensures First(v'.dir[m]) == 0 {
        assert v'.dir[m] == v.dir[m];
      }
    }
    assert forall m | 0 <= m < |v.dir| :: v'.dir[m].name == if m == k then raw else v.dir[m].name;
  }

  /** The table with the links of a chain cleared. */
  function Cleared(table: seq<nat>, chain: seq<nat>): (table': seq<nat>)
    ensures |table'| == |table|
  {
    seq(|table|, c requires 0 <= c < |table| => if c in chain then 0 else table[c])
  }

  lemma ChainElsewhere(table: seq<nat>, table': seq<nat>, first: nat, chain: seq<nat>)
    requires Chain(table, first, chain) && |table'| == |table| &&
      forall c {:trigger c in chain} | c in chain && c < |table| :: table'[c] == table[c]
    ensures Chain(table', first, chain)
  {
    forall i: nat | i < |chain| ensures Link(table', chain, i) {
      assert Link(table, chain, i) && chain[i] in chain;
    }
  }

  /** Every cluster of a chain has a non-zero link. */
  lemma ChainInUse(table: seq<nat>, first: nat, chain: seq<nat>)
    requires Chain(table, first, chain)
    ensures forall c | c in chain :: InTable(table, c) && table[c] != 0
  {
    forall c | c in chain ensures InTable(table, c) && table[c] != 0 {
      var i :| 0 <= i < |chain| && chain[i] == c;
      assert Link(table, chain, i);
      if i + 1 < |chain| {
        assert InTable(table, chain[i + 1]);
      }
    }
  }

  lemma OwnedApart(chains: seq<seq<nat>>, k: nat, l: nat, c: nat)
    requires forall i, j {:trigger chains[i], chains[j]} | 0 <= i < j < |chains| :: Apart(chains[i], chains[j])
    requires k < |chains| && l < |chains| && k != l && c in chains[k]
    ensures c !in chains[l]
  {
    assert if k < l then Apart(chains[k], chains[l]) else Apart(chains[l], chains[k]);
  }

  /** The general step: entry k gets a new chain and only that chain, the old one and unowned clusters change. */
  lemma ChangeKeepsSound(v: Vol, v': Vol, cb: nat, chains: seq<seq<nat>>, k: nat, cluster: nat, size: nat,
      chain: seq<nat>)
    requires Sound(v, cb, chains) && k < |v.dir| && v'.dir == v.dir[k := Refilled(v.dir[k], cluster, size)]
    requires |v'.table| == |v.table| && |v'.data| == |v.data|
    requires forall c {:trigger v'.data[c]} | 2 <= c < |v'.data| :: |v'.data[c]| == cb
    requires forall l: nat, c {:trigger c in chains[l]} | l < |chains| && l != k && c in chains[l] &&
      InTable(v.table, c) ::
      v'.table[c] == v.table[c] && v'.data[c] == v.data[c] && c !in chain
    requires if Live(v.dir[k])
             then Chain(v'.table, cluster, chain) && size <= |Joined(v'.data, chain)|
             else chain == []
    ensures Sound(v', cb, chains[k := chain])
    ensures forall l: nat | l < |v.dir| && l != k :: FileBytes(v', chains[k := chain], l) == FileBytes(v, chains, l)
  {
    var chains' := chains[k := chain];
    forall l: nat | l < |v'.dir| ensures Owns(v', cb, chains', l)
      ensures l != k ==> FileBytes(v', chains', l) == FileBytes(v, chains, l)
    {
      assert Owns(v, cb, chains, l);
      if l != k {
        OtherFileStays(v, v', cb, chains, l);
      }
    }
    forall i, j | 0 <= i < j < |chains'| ensures Apart(chains'[i], chains'[j]) {
      assert Apart(chains[i], chains[j]);
      var other := if i == k then j else i;
      if i == k || j == k {
        assert Owns(v, cb, chains, other);
        if Live(v.dir[other]) {
          ChainInUse(v.table, v.dir[other].cluster, chains[other]);
        }
      }
    }
    forall l: nat | l < |v'.dir| ensures EndsAt(v'.dir, l) {
      assert EndsAt(v.dir, l);
      forall m | l <= m < |v'.dir| ensures First(v'.dir[m]) == First(v.dir[m]) {}
    }
    assert forall m | 0 <= m < |v.dir| :: v'.dir[m].name == v.dir[m].name;
  }

  lemma OtherFileStays(v: Vol, v': Vol, cb: nat, chains: seq<seq<nat>>, l: nat)
    requires l < |v.dir| == |chains| && Owns(v, cb, chains, l) && |v'.dir| == |v.dir| && v'.dir[l] == v.dir[l]
    requires |v'.table| == |v.table| == |v.data| == |v'.data|
    requires forall c {:trigger c in chains[l]} | c in chains[l] && InTable(v.table, c) ::
      v'.table[c] == v.table[c] && v'.data[c] == v.data[c]
    ensures Owns(v', cb, chains, l) && Joined(v'.data, chains[l]) == Joined(v.data, chains[l])
  {
    if Live(v.dir[l]) {
      ChainInUse(v.table, v.dir[l].cluster, chains[l]);
      JoinedSame(v.data, v'.data, chains[l]);
      ChainElsewhere(v.table, v'.table, v.dir[l].cluster, chains[l]);
    }
  }

  // ---- clearing the old chain ----

  lemma ClearStep(table: seq<nat>, first: nat, chain: seq<nat>, i: nat)
    requires Chain(table, first, chain) && i < |chain|
    ensures
      var t, c := Cleared(table, chain[..i]), chain[i];
      InTable(table, c) && t[c] == table[c] && t[c := 0] == Cleared(table, chain[..i + 1]) &&
      if i + 1 < |chain| then table[c] == chain[i + 1] else CHAIN_END <= table[c]
  {
    assert Link(table, chain, i);
    forall c ensures c in chain[..i + 1] <==> c in chain[..i] || c == chain[i] {
      assert chain[..i + 1] == chain[..i] + [chain[i]];
    }
    assert chain[i] !in chain[..i] by {
      forall j | 0 <= j < i ensures chain[..i][j] != chain[i] {}
    }
  }

  lemma ClearKeepsSound(v: Vol, cb: nat, chains: seq<seq<nat>>, k: nat)
    requires Sound(v, cb, chains) && k < |v.dir| && Chain(v.table, v.dir[k].cluster, chains[k])
    ensures
      var v' := Vol(Cleared(v.table, chains[k]), v.dir[k := Refilled(v.dir[k], 0, 0)], v.data);
      Sound(v', cb, chains[k := []]) && forall l: nat | l < |v.dir| && l != k ::
        FileBytes(v', chains[k := []], l) == FileBytes(v, chains, l)
    ensures |FreeClusters(Cleared(v.table, chains[k]))| == |FreeClusters(v.table)| + |chains[k]|
  {
    var v' := Vol(Cleared(v.table, chains[k]), v.dir[k := Refilled(v.dir[k], 0, 0)], v.data);
    forall l: nat, c {:trigger c in chains[l]} | l < |chains| && l != k && c in chains[l] && InTable(v.table, c)
      ensures c !in chains[k] {
      OwnedApart(chains, l, k, c);
    }
    ChangeKeepsSound(v, v', cb, chains, k, 0, 0, []);
    FreeAfterClear(v.table, v.dir[k].cluster, chains[k]);
  }

  lemma FreeAfterClear(table: seq<nat>, first: nat, chain: seq<nat>)
    requires Chain(table, first, chain)
    ensures |FreeClusters(Cleared(table, chain))| == |FreeClusters(table)| + |chain|
  {
    ChainInUse(table, first, chain);
    DistinctSize(chain);
    var were, now := FreeClusters(table), FreeClusters(Cleared(table, chain));
    assert now == were + Members(chain) by {
      forall c: nat ensures c in now <==> c in were || c in chain {}
    }
    assert were * Members(chain) == {};
  }

  function Members(s: seq<nat>): set<nat> {
    set c | c in s
  }

  lemma {:induction false} DistinctSize(s: seq<nat>)
    requires Distinct(s)
    ensures |Members(s)| == |s|
  {
    if s != [] {
      var rest := s[1..];
      assert s == [s[0]] + rest;
      assert Distinct(rest) && s[0] !in rest by {
        assert forall i | 0 <= i < |rest| :: rest[i] == s[i + 1] && rest[i] != s[0];
      }
      DistinctSize(rest);
      assert Members(s) == Members(rest) + {s[0]};
      assert s[0] !in Members(rest);
    }
  }

  // ---- filling the new chain ----

  /** From v1 the clusters of chain, all free there, have been linked, and hold the bytes written; unless
      the last one is only partly used, they hold nothing else. */
  ghost predicate Building(v1: Vol, v: Vol, cb: nat, first: nat, chain: seq<nat>, written: seq<Byte>, whole: bool) {
    |v.table| == |v1.table| == |v.data| == |v1.data| && v.dir == v1.dir &&
    (forall c {:trigger v.data[c]} | 2 <= c < |v.data| :: |v.data[c]| == cb) &&
    Chain(v.table, first, chain) &&
    (forall c {:trigger c in chain} | c in chain :: c in FreeClusters(v1.table)) &&
    (forall c {:trigger v.table[c]} {:trigger v.data[c]} | 0 <= c < |v.table| && c !in chain ::
      v.table[c] == v1.table[c] && v.data[c] == v1.data[c]) &&
    written <= Joined(v.data, chain) && (whole ==> written == Joined(v.data, chain)) &&
    |FreeClusters(v.table)| + |chain| == |FreeClusters(v1.table)|
  }

  /** The table after cluster c has been taken and linked behind the chain. */
  function Linked(table: seq<nat>, chain: seq<nat>, c: nat): seq<nat>
    requires InTable(table, c)
  {
    var t := table[c := 0xFFF];
    if chain != [] && InTable(table, chain[|chain| - 1]) then t[chain[|chain| - 1] := c] else t
  }

  lemma BuildLinks(table: seq<nat>, first: nat, chain: seq<nat>, c: nat)
    requires Chain(table, first, chain) && InTable(table, c) && table[c] == 0
    ensures Chain(Linked(table, chain, c), if chain == [] then c else first, chain + [c]) && c !in chain
    ensures FreeClusters(Linked(table, chain, c)) == FreeClusters(table) - {c} && c in FreeClusters(table)
    ensures forall d | 0 <= d < |table| && d !in chain + [c] :: Linked(table, chain, c)[d] == table[d]
  {
    var t, longer := Linked(table, chain, c), chain + [c];
    ChainInUse(table, first, chain);
    assert forall i | 0 <= i < |chain| :: longer[i] == chain[i] && chain[i] in chain;
    forall i: nat | i < |longer| ensures Link(t, longer, i) {
      if i < |chain| {
        assert Link(table, chain, i);
      }
    }
  }

  lemma BuildStep(v1: Vol, v: Vol, cb: nat, first: nat, chain: seq<nat>, written: seq<Byte>, c: nat, piece: seq<Byte>)
    requires Building(v1, v, cb, first, chain, written, true) && InTable(v.table, c) && v.table[c] == 0 && |piece| <= cb
    ensures
      var v' := Vol(Linked(v.table, chain, c), v.dir, v.data[c := piece + v.data[c][|piece|..]]);
      Building(v1, v', cb, if chain == [] then c else first, chain + [c], written + piece, |piece| == cb)
  {
    var v' := Vol(Linked(v.table, chain, c), v.dir, v.data[c := piece + v.data[c][|piece|..]]);
    BuildLinks(v.table, first, chain, c);
    JoinedMore(v'.data, chain, c);
    JoinedSame(v.data, v'.data, chain);
    assert v'.data[c] == piece + v.data[c][|piece|..];
    assert c in FreeClusters(v1.table);
    forall d | 0 <= d < |v'.table| && d !in chain + [c] ensures v'.table[d] == v1.table[d] && v'.data[d] == v1.data[d] {
      assert d !in chain && d != c;
    }
  }

  lemma BuildStart(v1: Vol, cb: nat, chains: seq<seq<nat>>)
    requires Sound(v1, cb, chains)
    ensures Building(v1, v1, cb, 0, [], [], true)
  {}

  /** A chain under construction, wherever it stops, leaves the volume sound and every file as it was. */
  lemma BuildingKeepsSound(v1: Vol, v: Vol, cb: nat, chains: seq<seq<nat>>, first: nat, chain: seq<nat>,
      written: seq<Byte>, whole: bool,
                           k: nat, filed: bool, size: nat)
    requires Sound(v1, cb, chains) && Building(v1, v, cb, first, chain, written, whole) && k < |v1.dir| &&
      chains[k] == []
    requires if filed then size == |written| else size == 0
    requires v1.dir[k].cluster == 0
    ensures
      var v' := v.(dir := v.dir[k := Refilled(v.dir[k], if filed then first else 0, size)]);
      var chain' := if filed && Live(v1.dir[k]) then chain else [];
      Sound(v', cb, chains[k := chain']) &&
      (forall l: nat | l < |v1.dir| && l != k :: FileBytes(v', chains[k := chain'], l) == FileBytes(v1, chains, l)) &&
      (filed && Live(v1.dir[k]) ==> FileBytes(v', chains[k := chain'], k) == written)
  {
    var v' := v.(dir := v.dir[k := Refilled(v.dir[k], if filed then first else 0, size)]);
    var chain' := if filed && Live(v1.dir[k]) then chain else [];
    forall l: nat, c {:trigger c in chains[l]} | l < |chains| && l != k && c in chains[l] && InTable(v1.table, c)
      ensures v'.table[c] == v1.table[c] && v'.data[c] == v1.data[c] && c !in chain
    {
      assert Owns(v1, cb, chains, l);
      ChainInUse(v1.table, v1.dir[l].cluster, chains[l]);
      assert c !in FreeClusters(v1.table);
    }
    ChangeKeepsSound(v1, v', cb, chains, k, if filed then first else 0, size, chain');
  }

  // ---- what a write comes to ----

  /** Entry k is where a file of that name is written: its own entry, or else the first unused slot. */
  ghost predicate Target(dir: seq<Dirent>, raw: seq<Byte>, k: nat) {
    FirstMatch(dir, raw, k) || ((forall l: nat :: !Match(dir, raw, l)) && FreeSlot(dir, k))
  }

  /** The directory with the target entry in place. */
  function WithTarget(dir: seq<Dirent>, raw: seq<Byte>, k: nat): seq<Dirent>
    requires k < |dir|
  {
    if Match(dir, raw, k) then dir else dir[k := NewEntry(raw)]
  }

  lemma OtherNames(v: Vol, v': Vol, chains: seq<seq<nat>>, chains': seq<seq<nat>>, raw: seq<Byte>, k: nat,
      cluster: nat, size: nat, other: seq<Byte>)
    requires Target(v.dir, raw, k) &&
      v'.dir == WithTarget(v.dir, raw, k)[k := Refilled(WithTarget(v.dir, raw, k)[k], cluster, size)]
    requires |chains| == |v.dir| == |chains'| && other != raw
    requires forall l: nat | l < |v.dir| && l != k :: FileBytes(v', chains', l) == FileBytes(v, chains, l)
    ensures Contents(v', chains', other) == Contents(v, chains, other)
  {
    forall l: nat ensures Match(v'.dir, other, l) <==> Match(v.dir, other, l) {}
    LookupNone(v.dir, other);
    LookupNone(v'.dir, other);
    if l: nat :| Match(v.dir, other, l) {
      var m := Lookup(v.dir, other).value;
      assert FirstMatch(v.dir, other, m);
      assert forall l {:trigger v'.dir[l]} | 0 <= l < m :: !Match(v.dir, other, l) by {
        assert forall l | 0 <= l < m :: v.dir[l] == v.dir[l];
      }
      assert FirstMatch(v'.dir, other, m);
      LookupIs(v'.dir, other, m);
      LookupIs(v.dir, other, m);
    }
  }

  /** Reading the name back gives what was written exactly when the name does not begin with the byte that
      marks a deleted entry and no directory of that name was there. */
  lemma SameName(v: Vol, v': Vol, chains': seq<seq<nat>>, raw: seq<Byte>, k: nat, cluster: nat, size: nat,
      written: seq<Byte>)
    requires Target(v.dir, raw, k) &&
      v'.dir == WithTarget(v.dir, raw, k)[k := Refilled(WithTarget(v.dir, raw, k)[k], cluster, size)]
    requires |v.dir| == |chains'| && |raw| == 11 && raw[0] != 0
    requires Live(v'.dir[k]) ==> FileBytes(v', chains', k) == written
    ensures Contents(v', chains', raw) == Some(written) <==>
      raw[0] != DELETED && !(Match(v.dir, raw, k) && Directory(v.dir[k].attr))
    ensures Contents(v', chains', raw).Some? ==> Contents(v', chains', raw) == Some(written)
  {
    LookupNone(v'.dir, raw);
    forall l: nat | l != k ensures Match(v'.dir, raw, l) <==> Match(v.dir, raw, l) {}
    if raw[0] == DELETED {
      forall l: nat ensures !Match(v'.dir, raw, l) {}
    } else {
      assert Match(v'.dir, raw, k);
      assert forall l {:trigger v'.dir[l]} | 0 <= l < k :: !Match(v'.dir, raw, l) by {
        assert forall l | 0 <= l < k :: v.dir[l] == v'.dir[l];
      }
      LookupIs(v'.dir, raw, k);
    }
  }

  /** A write of stored to the target entry k: that entry changes in first cluster and size only, once it is in place;
      every other entry, its chain and its bytes, and what any other name reads as, stays; the name itself then reads
      as stored exactly under the condition of SameName. */
  ghost predicate WroteOnly(v: Vol, chains: seq<seq<nat>>, v': Vol, chains': seq<seq<nat>>, raw: seq<Byte>, k: nat,
      stored: seq<Byte>) {
    |chains'| == |chains| == |v'.dir| == |v.dir| && k < |v.dir| && |raw| == 11 &&
    v'.dir[k] == Refilled(WithTarget(v.dir, raw, k)[k], v'.dir[k].cluster, |stored|) && |v'.table| == |v.table| &&
    (forall l: nat | l < |v.dir| && l != k ::
       v'.dir[l] == v.dir[l] && chains'[l] == chains[l] && FileBytes(v', chains', l) == FileBytes(v, chains, l)) &&
    (forall other {:trigger Contents(v', chains', other)} | other != raw ::
      Contents(v', chains', other) == Contents(v, chains, other)) &&
    (Contents(v', chains', raw) == Some(stored) <==>
      raw[0] != DELETED && !(Match(v.dir, raw, k) && Directory(v.dir[k].attr))) &&
    (Contents(v', chains', raw).Some? ==> Contents(v', chains', raw) == Some(stored))
  }

  lemma Wrote(v: Vol, chains: seq<seq<nat>>, v': Vol, chains': seq<seq<nat>>, raw: seq<Byte>, k: nat, cluster: nat,
      size: nat, stored: seq<Byte>)
    requires Target(v.dir, raw, k) &&
      v'.dir == WithTarget(v.dir, raw, k)[k := Refilled(WithTarget(v.dir, raw, k)[k], cluster, size)]
    requires |chains| == |v.dir| == |chains'| && |raw| == 11 && raw[0] != 0 && size == |stored| &&
      |v'.table| == |v.table|
    requires forall l: nat | l < |v.dir| && l != k ::
      chains'[l] == chains[l] && FileBytes(v', chains', l) == FileBytes(v, chains, l)
    requires Live(v'.dir[k]) ==> FileBytes(v', chains', k) == stored
    ensures WroteOnly(v, chains, v', chains', raw, k, stored)
  {
    forall other | other != raw ensures Contents(v', chains', other) == Contents(v, chains, other) {
      OtherNames(v, v', chains, chains', raw, k, cluster, size, other);
    }
    SameName(v, v', chains', raw, k, cluster, size, stored);
    hide Target, FileBytes, Contents, Match, NewEntry;
  }

  /** The clusters a write to the target can use: the free ones and those of the file it replaces. */
  ghost function Available(v: Vol, chains: seq<seq<nat>>, raw: seq<Byte>, k: nat): nat
    requires k < |chains|
  {
    |FreeClusters(v.table)| + if Match(v.dir, raw, k) then |chains[k]| else 0
  }

  lemma Plus(n: nat, cb: nat)
    ensures (n + 1) * cb == n * cb + cb
  {}

  lemma Times(m: nat, n: nat, cb: nat)
    requires m <= n
    ensures m * cb <= n * cb
  {
    assert (n - m) * cb >= 0;
    assert n * cb == m * cb + (n - m) * cb;
  }

  lemma {:induction false} JoinedSize(data: seq<seq<Byte>>, chain: seq<nat>, cb: nat)
    requires forall c {:trigger c in chain} | c in chain :: c < |data| && |data[c]| == cb
    ensures |Joined(data, chain)| == |chain| * cb
  {
    if chain != [] {
      assert chain[0] in chain && forall c | c in chain[1..] :: c in chain;
      JoinedSize(data, chain[1..], cb);
      Plus(|chain| - 1, cb);
    }
  }

  lemma {:induction false} FreeBound(table: seq<nat>, n: nat)
    requires 2 <= n <= |table|
    ensures |set c | c in FreeClusters(table) && c < n| <= n - 2
    decreases n
  {
    var now := set c | c in FreeClusters(table) && c < n;
    if n == 2 {
      assert now == {};
    } else {
      FreeBound(table, n - 1);
      var before := set c | c in FreeClusters(table) && c < n - 1;
      assert now <= before + {n - 1};
      Subset(now, before + {n - 1});
    }
  }

  lemma {:induction false} Subset(a: set<nat>, b: set<nat>)
    requires a <= b
    ensures |a| <= |b|
  {
    assert b == a + (b - a) && a !! (b - a);
  }

  /** What a chain under construction holds fits on the volume. */
  lemma BuiltSize(v1: Vol, v: Vol, cb: nat, first: nat, chain: seq<nat>, written: seq<Byte>, whole: bool)
    requires Building(v1, v, cb, first, chain, written, whole) && 2 <= |v1.table|
    ensures |written| <= (|v1.table| - 2) * cb
    ensures chain != [] ==> InTable(v.table, first)
  {
    forall c | c in chain ensures c < |v.data| && |v.data[c]| == cb {
      assert c in FreeClusters(v1.table);
    }
    JoinedSize(v.data, chain, cb);
    FreeBound(v1.table, |v1.table|);
    assert FreeClusters(v1.table) == set c | c in FreeClusters(v1.table) && c < |v1.table|;
    Times(|chain|, |v1.table| - 2, cb);
  }

  /** The target entry is in place and empty, and the clusters it had are free. */
  ghost predicate Emptied(v0: Vol, chains0: seq<seq<nat>>, v1: Vol, chains1: seq<seq<nat>>, cb: nat, raw: seq<Byte>,
      k: nat) {
    Target(v0.dir, raw, k) && |chains0| == |v0.dir| && |raw| == 11 && raw[0] != 0 &&
    v1.dir == WithTarget(v0.dir, raw, k)[k := Refilled(WithTarget(v0.dir, raw, k)[k], 0, 0)] &&
    chains1 == chains0[k := []] && Sound(v1, cb, chains1) &&
    (forall l: nat | l < |v0.dir| && l != k :: FileBytes(v1, chains1, l) == FileBytes(v0, chains0, l)) &&
    |FreeClusters(v1.table)| == Available(v0, chains0, raw, k) && |v1.table| == |v0.table|
  }

  lemma EmptiedBy(v0: Vol, v: Vol, v1: Vol, chains0: seq<seq<nat>>, chains1: seq<seq<nat>>, cb: nat, raw: seq<Byte>,
      k: nat)
    requires Target(v0.dir, raw, k) && |raw| == 11 && raw[0] != 0
    requires v == v0.(dir := WithTarget(v0.dir, raw, k)) && Sound(v, cb, chains0) &&
      Chain(v.table, v.dir[k].cluster, chains0[k])
    requires !Match(v0.dir, raw, k) ==> chains0[k] == []
    requires v1 == Vol(Cleared(v.table, chains0[k]), v.dir[k := Refilled(v.dir[k], 0, 0)], v.data) &&
      chains1 == chains0[k := []]
    ensures Emptied(v0, chains0, v1, chains1, cb, raw, k)
  {
    ClearKeepsSound(v, cb, chains0, k);
    hide Sound, Chain;
    forall l: nat | l < |v0.dir| && l != k ensures FileBytes(v1, chains1, l) == FileBytes(v0, chains0, l) {
      assert v.dir[l] == v0.dir[l];
    }
  }

  lemma WroteNothing(v0: Vol, chains0: seq<seq<nat>>, v1: Vol, chains1: seq<seq<nat>>, cb: nat, raw: seq<Byte>, k: nat)
    requires Emptied(v0, chains0, v1, chains1, cb, raw, k)
    ensures |chains1| == |v1.dir| && WroteOnly(v0, chains0, v1, chains1, raw, k, [])
  {
    Wrote(v0, chains0, v1, chains1, raw, k, 0, 0, []);
  }

  /** Where the writing of the data comes to. */
  function Finished(v2: Vol, k: nat, first: nat, size: nat): Vol
    requires k < |v2.dir|
  {
    v2.(dir := v2.dir[k := Refilled(v2.dir[k], first, size)])
  }

  lemma WroteData(v0: Vol, chains0: seq<seq<nat>>, v1: Vol, chains1: seq<seq<nat>>, v2: Vol, cb: nat, raw: seq<Byte>,
      k: nat,
                  first: nat, chain: seq<nat>, written: seq<Byte>, whole: bool, ok: bool)
    requires Emptied(v0, chains0, v1, chains1, cb, raw, k) && Building(v1, v2, cb, first, chain, written, whole)
    ensures k < |v2.dir| == |chains1| == |v1.dir|
    ensures
      var v3 := if ok then Finished(v2, k, first, |written|) else v2;
      var chains3 := if ok && Live(v1.dir[k]) then chains1[k := chain] else chains1;
      Sound(v3, cb, chains3) && WroteOnly(v0, chains0, v3, chains3, raw, k, if ok then written else [])
  {
    var v3 := if ok then Finished(v2, k, first, |written|) else v2;
    var chains3 := if ok && Live(v1.dir[k]) then chains1[k := chain] else chains1;
    var size := if ok then |written| else 0;
    BuildingKeepsSound(v1, v2, cb, chains1, first, chain, written, whole, k, ok, size);
    assert v2.dir == v1.dir;
    assert v3.dir == v2.dir[k := Refilled(v2.dir[k], if ok then first else 0, size)];
    assert chains3 == chains1[k := if ok && Live(v1.dir[k]) then chain else []];
    hide Sound, Building, Contents, FileBytes, Live, Target;
    Wrote(v0, chains0, v3, chains3, raw, k, if ok then first else 0, size, if ok then written else []);
  }
}
