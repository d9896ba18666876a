/** The clusters that a write leaves marked in use though no chain has them (fs/fat12.c:310-382). */
module Fat12Leaks {
  import opened Basics
  import opened Fat12Names
  import opened Fat12Volume

  /** Some entry's chain has the cluster. */
  ghost predicate Owned(chains: seq<seq<nat>>, c: nat) {
    exists k: nat :: k < |chains| && c in chains[k]
  }

  /** The clusters in use that no chain has: nothing the driver does gives them back. */
  ghost function Leaked(v: Vol, chains: seq<seq<nat>>): set<nat> {
    set c: nat | 2 <= c < |v.table| && v.table[c] != 0 && !Owned(chains, c)
  }

  ghost function Held(v: Vol, chains: seq<seq<nat>>): set<nat> {
    set c: nat | 2 <= c < |v.table| && Owned(chains, c)
  }

  /** The clusters of a table of n links. */
  function Clusters(n: nat): (all: set<nat>)
    requires n >= 2
    ensures |all| == n - 2 && forall c: nat :: c in all <==> 2 <= c < n
  {
    if n == 2 then {} else Clusters(n - 1) + {n - 1}
  }

  /** Every cluster is free, held by a chain or leaked, and only one of these. */
  lemma Accounted(v: Vol, cb: nat, chains: seq<seq<nat>>)
    requires Sound(v, cb, chains) && |v.table| >= 2
    ensures FreeClusters(v.table) !! Held(v, chains) !! Leaked(v, chains)
    ensures FreeClusters(v.table) + Held(v, chains) + Leaked(v, chains) == Clusters(|v.table|)
    ensures |FreeClusters(v.table)| + |Held(v, chains)| + |Leaked(v, chains)| == |v.table| - 2
  {
    forall c: nat | c in Held(v, chains) ensures v.table[c] != 0 {
      var k: nat :| k < |chains| && c in chains[k];
      assert Owns(v, cb, chains, k);
      ChainInUse(v.table, v.dir[k].cluster, chains[k]);
    }
    hide Sound, Owned;
    assert FreeClusters(v.table) + Held(v, chains) + Leaked(v, chains) == Clusters(|v.table|);
  }

  /** Clearing the chain of an entry leaks none of its clusters. */
  lemma ClearLeaksNone(v: Vol, v': Vol, chains: seq<seq<nat>>, k: nat)
    requires k < |chains| && v'.table == Cleared(v.table, chains[k])
    ensures Leaked(v', chains[k := []]) == Leaked(v, chains)
  {
    var chains' := chains[k := []];
    forall c: nat | 2 <= c < |v.table| && v'.table[c] != 0 ensures Owned(chains', c) <==> Owned(chains, c) {
      if l: nat :| l < |chains| && c in chains[l] {
        assert c in chains'[l];
      }
      if l: nat :| l < |chains'| && c in chains'[l] {
        assert c in chains[l];
      }
    }
    forall c: nat | 2 <= c < |v.table| && c in chains[k] ensures Owned(chains, c) {}
    hide Owned;
  }

  /** A chain under construction is lost exactly until an entry has it. */
  lemma BuildLeaks(v1: Vol, v: Vol, cb: nat, chains: seq<seq<nat>>, first: nat, chain: seq<nat>, written: seq<Byte>,
      whole: bool, k: nat)
    requires Sound(v1, cb, chains) && Building(v1, v, cb, first, chain, written, whole)
    requires k < |chains| && chains[k] == []
    ensures Leaked(v1, chains) !! Members(chain) && |Members(chain)| == |chain|
    ensures Leaked(v, chains) == Leaked(v1, chains) + Members(chain)
    ensures Leaked(v, chains[k := chain]) == Leaked(v1, chains)
  {
    ChainInUse(v.table, first, chain);
    DistinctSize(chain);
    assert forall c | c in chain :: c in FreeClusters(v1.table) && InTable(v.table, c);
    forall c | c in chain ensures !Owned(chains, c) && Owned(chains[k := chain], c) {
      assert c in chains[k := chain][k];
      if l: nat :| l < |chains| && c in chains[l] {
        assert Owns(v1, cb, chains, l);
        ChainInUse(v1.table, v1.dir[l].cluster, chains[l]);
      }
    }
    forall c: nat | c !in chain ensures Owned(chains[k := chain], c) <==> Owned(chains, c) {
      OwnedElsewhere(chains, k, chain, c);
    }
    hide Sound, Owned, Chain;
  }

  lemma OwnedElsewhere(chains: seq<seq<nat>>, k: nat, chain: seq<nat>, c: nat)
    requires k < |chains| && chains[k] == [] && c !in chain
    ensures Owned(chains[k := chain], c) <==> Owned(chains, c)
  {
    var chains' := chains[k := chain];
    if l: nat :| l < |chains| && c in chains[l] {
      assert c in chains'[l];
    }
    if l: nat :| l < |chains'| && c in chains'[l] {
      assert c in chains[l];
    }
  }

  /** How many clusters a write leaks: all it could use when they do not suffice, and all it used when the entry it
      files them in reads as deleted. */
  function Lost(ok: bool, raw: seq<Byte>, need: nat, available: nat): nat
    requires |raw| == 11
  {
    if !ok then available else if raw[0] == DELETED then need else 0
  }

  /** Nothing that was lost comes back, and n clusters are lost as well. */
  ghost predicate Loses(before: set<nat>, after: set<nat>, n: nat) {
    before <= after && |after| == |before| + n
  }

  lemma LosesNone(before: set<nat>, after: set<nat>, n: nat)
    requires Loses(before, after, n)
    ensures after == before <==> n == 0
  {
    assert after == before + (after - before) && before !! (after - before);
  }

  lemma WriteLeaks(v0: Vol, chains0: seq<seq<nat>>, v1: Vol, chains1: seq<seq<nat>>, v2: Vol, cb: nat, raw: seq<Byte>,
      k: nat, first: nat, chain: seq<nat>, written: seq<Byte>, whole: bool, ok: bool, need: nat)
    requires Emptied(v0, chains0, v1, chains1, cb, raw, k) && Building(v1, v2, cb, first, chain, written, whole)
    requires Leaked(v1, chains1) == Leaked(v0, chains0)
    requires |chain| == if ok then need else |FreeClusters(v1.table)|
    ensures k < |v2.dir| == |v1.dir| == |chains1| == |chains0|
    ensures
      var v3 := if ok then Finished(v2, k, first, |written|) else v2;
      var chains3 := if ok && Live(v1.dir[k]) then chains1[k := chain] else chains1;
      Loses(Leaked(v0, chains0), Leaked(v3, chains3), Lost(ok, raw, need, Available(v0, chains0, raw, k)))
  {
    BuildLeaks(v1, v2, cb, chains1, first, chain, written, whole, k);
    assert Live(v1.dir[k]) <==> raw[0] != DELETED;
    var v3 := Finished(v2, k, first, |written|);
    assert v3.table == v2.table;
    hide Sound, Building, Chain, Target, Owned;
    assert Leaked(v3, chains1) == Leaked(v2, chains1) &&
      Leaked(v3, chains1[k := chain]) == Leaked(v2, chains1[k := chain]);
  }

  lemma NothingTaken(leaked: set<nat>, raw: seq<Byte>, available: nat)
    requires |raw| == 11
    ensures Loses(leaked, leaked, Lost(true, raw, 0, available))
  {}

  /** No cluster is lost by a write exactly when it succeeds and does not file data in an entry that reads as
      deleted, or fails on a volume with nothing to take. */
  lemma LosesNoneExactly(before: set<nat>, after: set<nat>, ok: bool, raw: seq<Byte>, len: nat, cb: nat, available: nat)
    requires |raw| == 11 && cb > 0 && Loses(before, after, Lost(ok, raw, Needed(len, cb), available))
    ensures after == before <==> (ok && (raw[0] != DELETED || len == 0)) || (!ok && available == 0)
  {
    LosesNone(before, after, Lost(ok, raw, Needed(len, cb), available));
  }
}
