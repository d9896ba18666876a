/** The linked run queues of proc/process.c: 256 intrusive FIFO lists over the process slots. */
module RunQueue {
  import opened Basics
  import opened Options
  import opened SchedModel
  import opened SchedInvariant

  const NIL: int := -1

  /** The slot before, and the slot after, position i of a queue. */
  function Before(q: seq<nat>, i: nat): int
    requires i < |q|
  {
    if i > 0 then q[i - 1] else NIL
  }

  function After(q: seq<nat>, i: nat): int
    requires i < |q|
  {
    if i + 1 < |q| then q[i + 1] else NIL
  }

  predicate LinkedAt(next: seq<int>, next2: seq<int>, prev: seq<int>, q: seq<nat>, i: nat)
    requires |next| == |next2| == |prev| == MAX_PROCS && i < |q|
  {
    q[i] < MAX_PROCS && next[q[i]] == After(q, i) && next2[q[i]] == After(q, i) && prev[q[i]] == Before(q, i)
  }

  /** The queue q as head, tail, forward links (kept twice) and back links spell it. */
  ghost predicate Spells(next: seq<int>, next2: seq<int>, prev: seq<int>, head: int, tail: int, q: seq<nat>)
    requires |next| == |next2| == |prev| == MAX_PROCS
  {
    head == (if q == [] then NIL else q[0]) &&
    tail == (if q == [] then NIL else q[|q| - 1]) &&
    forall i: nat {:trigger LinkedAt(next, next2, prev, q, i)} | i < |q| :: LinkedAt(next, next2, prev, q, i)
  }

  /** No slot is twice on the queues. */
  ghost predicate Apart(queues: seq<seq<nat>>) {
    (forall lv {:trigger Distinct(queues[lv])} | 0 <= lv < |queues| :: Distinct(queues[lv])) &&
    (forall lv, lv', p {:trigger p in queues[lv], p in queues[lv']} | 0 <= lv < |queues| && 0 <= lv' < |queues| &&
       p in queues[lv] && p in queues[lv'] :: lv == lv')
  }

  /** Queue lv ends with p, wherever it was empty or not. */
  lemma SpellsPush(next: seq<int>, next2: seq<int>, prev: seq<int>, head: int, tail: int, q: seq<nat>, p: nat)
    requires |next| == |next2| == |prev| == MAX_PROCS && p < MAX_PROCS && p !in q && Distinct(q)
    requires Spells(next, next2, prev, head, tail, q)
    ensures tail == NIL <==> q == []
    ensures tail != NIL ==> 0 <= tail < MAX_PROCS && tail != p
    ensures
      var next' := next[p := NIL];
      var next2' := next2[p := NIL];
      Spells(if tail == NIL then next' else next'[tail := p], if tail == NIL then next2' else next2'[tail := p],
             prev[p := tail], if head == NIL then p else head, p, q + [p])
  {
    assert q != [] ==> LinkedAt(next, next2, prev, q, |q| - 1);
    var next' := if tail == NIL then next[p := NIL] else next[p := NIL][tail := p];
    var next2' := if tail == NIL then next2[p := NIL] else next2[p := NIL][tail := p];
    var prev', r := prev[p := tail], q + [p];
    forall i: nat | i < |q| ensures LinkedAt(next', next2', prev', r, i) {
      assert LinkedAt(next, next2, prev, q, i);
    }
  }

  /** A queue that a change of links does not touch. */
  lemma SpellsElsewhere(next: seq<int>, next2: seq<int>, prev: seq<int>,
                        next': seq<int>, next2': seq<int>, prev': seq<int>, head: int, tail: int, q: seq<nat>)
    requires |next| == |next2| == |prev| == |next'| == |next2'| == |prev'| == MAX_PROCS
    requires Spells(next, next2, prev, head, tail, q)
    requires forall p | p in q && p < MAX_PROCS :: next'[p] == next[p] && next2'[p] == next2[p] && prev'[p] == prev[p]
    ensures Spells(next', next2', prev', head, tail, q)
  {
    forall i: nat | i < |q| ensures LinkedAt(next', next2', prev', q, i) {
      assert LinkedAt(next, next2, prev, q, i) && q[i] in q;
    }
  }

  /** Queue lv without its head. */
  lemma SpellsPop(next: seq<int>, next2: seq<int>, prev: seq<int>, head: int, tail: int, q: seq<nat>)
    requires |next| == |next2| == |prev| == MAX_PROCS && q != [] && Distinct(q)
    requires Spells(next, next2, prev, head, tail, q)
    ensures 0 <= head < MAX_PROCS && head == q[0] &&
      (next[head] != NIL ==> 0 <= next[head] < MAX_PROCS && next[head] != head)
    ensures
      var head' := next[head];
      Spells(next[head := NIL], next2[head := NIL], (if head' == NIL then prev else prev[head' := NIL])[head := NIL],
             head', if head' == NIL then NIL else tail, q[1..])
  {
    assert LinkedAt(next, next2, prev, q, 0);
    assert |q| > 1 ==> LinkedAt(next, next2, prev, q, 1);
    var head' := next[head];
    var prev' := (if head' == NIL then prev else prev[head' := NIL])[head := NIL];
    var next', next2', r := next[head := NIL], next2[head := NIL], q[1..];
    forall i: nat | i < |r| ensures LinkedAt(next', next2', prev', r, i) {
      assert LinkedAt(next, next2, prev, q, i + 1);
    }
  }

  lemma RemoveFromAt(q: seq<nat>, i: nat)
    requires i < |q| && Distinct(q)
    ensures RemoveFrom(q, q[i]) == q[..i] + q[i + 1..]
  {
    if i > 0 {
      DistinctTail(q);
      assert q[1..][i - 1] == q[i];
      RemoveFromAt(q[1..], i - 1);
      assert q[..i] + q[i + 1..] == [q[0]] + (q[1..][..i - 1] + q[1..][i..]);
    }
  }

  lemma NeighboursAfterRemoval(q: seq<nat>, i: nat, k: nat)
    requires i < |q| && k < |q| - 1 && Distinct(q)
    ensures
      var r: seq<nat> := q[..i] + q[i + 1..];
      var k' := if k < i then k else k + 1;
      r[k] == q[k'] && q[k'] != q[i] && (q[k'] == Before(q, i) <==> k + 1 == i) && (q[k'] == After(q, i) <==> k == i) &&
      After(r, k) == (if k + 1 == i then After(q, i) else After(q, k')) &&
      Before(r, k) == (if k == i then Before(q, i) else Before(q, k'))
  {}

  /** Queue lv without its i-th process. */
  lemma SpellsRemove(next: seq<int>, next2: seq<int>, prev: seq<int>, head: int, tail: int, q: seq<nat>, i: nat)
    requires |next| == |next2| == |prev| == MAX_PROCS && i < |q| && Distinct(q)
    requires Spells(next, next2, prev, head, tail, q)
    ensures q[i] < MAX_PROCS && next[q[i]] == After(q, i)
    ensures
      var cur, before, after := q[i], Before(q, i), After(q, i);
      (before != NIL ==> 0 <= before < MAX_PROCS && before != cur) &&
        (after != NIL ==> 0 <= after < MAX_PROCS && after != cur) &&
      Spells(LinkPast(next, before, after, cur), LinkPast(next2, before, after, cur),
        LinkPast(prev, after, before, cur),
             if before != NIL then head else after, if tail == cur then before else tail, q[..i] + q[i + 1..])
  {
    var r: seq<nat> := q[..i] + q[i + 1..];
    var cur, before, after := q[i], Before(q, i), After(q, i);
    assert LinkedAt(next, next2, prev, q, i);
    assert i > 0 ==> LinkedAt(next, next2, prev, q, i - 1);
    assert i + 1 < |q| ==> LinkedAt(next, next2, prev, q, i + 1);
    assert tail == cur <==> i + 1 == |q|;
    var next', next2' := LinkPast(next, before, after, cur), LinkPast(next2, before, after, cur);
    var prev' := LinkPast(prev, after, before, cur);
    forall k: nat | k < |r| ensures LinkedAt(next', next2', prev', r, k) {
      NeighboursAfterRemoval(q, i, k);
      assert LinkedAt(next, next2, prev, q, if k < i then k else k + 1);
    }
  }

  class RunQueues {
    const next: array<int>
    const next2: array<int>
    const prev: array<int>
    const head: array<int>
    const tail: array<int>
    ghost var queues: seq<seq<nat>>

    ghost predicate Arrays() {
      next.Length == next2.Length == prev.Length == MAX_PROCS && head.Length == tail.Length == LEVELS &&
      next != next2 && next != prev && next != head && next != tail && next2 != prev && next2 != head &&
        next2 != tail &&
      prev != head && prev != tail && head != tail
    }

    ghost predicate Valid()
      reads `queues, next, next2, prev, head, tail
    {
      Arrays() && AllSpelled(next[..], next2[..], prev[..], head[..], tail[..], queues)
    }

    lemma SpelledAt(lv: nat)
      requires Valid() && lv < LEVELS
      ensures Spells(next[..], next2[..], prev[..], head[lv], tail[lv], queues[lv]) && Distinct(queues[lv])
    {
      assert Spells(next[..], next2[..], prev[..], head[..][lv], tail[..][lv], queues[lv]);
    }

    constructor ()
      ensures Valid() && queues == seq(LEVELS, _ => [])
      ensures fresh(next) && fresh(next2) && fresh(prev) && fresh(head) && fresh(tail)
    {
      next, next2, prev := new int[MAX_PROCS](_ => NIL), new int[MAX_PROCS](_ => NIL), new int[MAX_PROCS](_ => NIL);
      head, tail := new int[LEVELS](_ => NIL), new int[LEVELS](_ => NIL);
      queues := seq(LEVELS, _ => []);
    }

    /** runq_push_locked: p joins the tail of its level. */
    method Push(p: nat, priority: nat)
      requires Valid() && p < MAX_PROCS && forall lv: nat | lv < LEVELS :: p !in queues[lv]
      modifies `queues, next, next2, prev, head, tail
      ensures Valid() && queues == old(queues)[Level(priority) := old(queues)[Level(priority)] + [p]]
    {
      var pri := if priority >= LEVELS then LEVELS - 1 else priority;
      SpelledAt(pri);
      AllSpelledPush(next[..], next2[..], prev[..], head[..], tail[..], queues, pri, p);
      ghost var t := tail[pri];
      hide AllSpelled, Spells;
      next[p] := NIL;
      next2[p] := NIL;
      prev[p] := tail[pri];
      if head[pri] == NIL {
        head[pri] := p;
        tail[pri] := p;
      } else {
        next[tail[pri]] := p;
        next2[tail[pri]] := p;
        tail[pri] := p;
      }
      queues := queues[pri := queues[pri] + [p]];
      assert next[..] == (if t == NIL then old(next[..])[p := NIL] else old(next[..])[p := NIL][t := p]);
      assert next2[..] == (if t == NIL then old(next2[..])[p := NIL] else old(next2[..])[p := NIL][t := p]);
      assert prev[..] == old(prev[..])[p := t];
      assert head[..] == (if t == NIL then old(head[..])[pri := p] else old(head[..]));
      assert tail[..] == old(tail[..])[pri := p];
    }

    /** runq_best_priority_locked, with LEVELS for none. */
    method BestPriority() returns (best: nat)
      requires Valid()
      ensures best == BestFrom(queues, 0)
    {
      for pri := 0 to LEVELS
        invariant BestFrom(queues, 0) == BestFrom(queues, pri)
      {
        SpelledAt(pri);
        if head[pri] != NIL {
          return pri;
        }
      }
      return LEVELS;
    }

    /** runq_pop_locked: the head of the best queue, if there is one, leaves it. */
    method Pop() returns (p: int)
      requires Valid()
      modifies `queues, next, next2, prev, head, tail
      ensures Valid()
      ensures p == NIL <==> BestFrom(old(queues), 0) == LEVELS
      ensures p == NIL ==> queues == old(queues)
      ensures p != NIL ==>
        var best := BestFrom(old(queues), 0);
        p == old(queues)[best][0] && queues == old(queues)[best := Rest(old(queues)[best])]
    {
      for pri := 0 to LEVELS
        invariant Valid() && queues == old(queues)
        invariant BestFrom(queues, 0) == BestFrom(queues, pri)
      {
        SpelledAt(pri);
        p := head[pri];
        if p != NIL {
          PopHead(pri);
          return;
        }
      }
      return NIL;
    }

    /** The links of a head that leaves its queue. */
    method PopHead(pri: nat)
      requires Valid() && pri < LEVELS && queues[pri] != []
      modifies `queues, next, next2, prev, head, tail
      ensures Valid() && queues == old(queues)[pri := Rest(old(queues)[pri])]
    {
      SpelledAt(pri);
      AllSpelledPop(next[..], next2[..], prev[..], head[..], tail[..], queues, pri);
      hide AllSpelled, Spells;
      var p := head[pri];
      ghost var after := next[p];
      head[pri] := next[p];
      if head[pri] == NIL {
        tail[pri] := NIL;
      } else {
        prev[head[pri]] := NIL;
      }
      next[p] := NIL;
      next2[p] := NIL;
      prev[p] := NIL;
      queues := queues[pri := Rest(queues[pri])];
      assert next[..] == old(next[..])[p := NIL] && next2[..] == old(next2[..])[p := NIL];
      assert prev[..] == (if after == NIL then old(prev[..]) else old(prev[..])[after := NIL])[p := NIL];
      assert head[..] == old(head[..])[pri := after];
      assert tail[..] == if after == NIL then old(tail[..])[pri := NIL] else old(tail[..]);
    }

    /** runq_remove_locked: walks the level's list to the process and unlinks it, if it is there. */
    method Remove(p: nat, priority: nat)
      requires Valid() && p < MAX_PROCS
      modifies `queues, next, next2, prev, head, tail
      ensures Valid()
      ensures queues == old(queues)[Level(priority) := RemoveFrom(old(queues)[Level(priority)], p)]
    {
      var pri := if priority >= LEVELS then LEVELS - 1 else priority;
      ghost var q := queues[pri];
      SpelledAt(pri);
      var cur, before := head[pri], NIL;
      ghost var i := 0;
      while cur != NIL
        invariant i <= |q|
        invariant cur == if i < |q| then q[i] else NIL
        invariant before == if i > 0 then q[i - 1] else NIL
        invariant p !in q[..i]
        decreases |q| - i
      {
        assert LinkedAt(next[..], next2[..], prev[..], q, i);
        if cur == p {
          Unlink(pri, i, before, p);
          return;
        }
        before := cur;
        cur := next[cur];
        i := i + 1;
      }
      assert q[..i] == q;
      RemoveAbsent(q, p);
    }

    /** The pointer writes that unlink cur, whose predecessor is before. */
    method Relink(pri: nat, before: int, cur: nat)
      requires Arrays() && pri < LEVELS && cur < MAX_PROCS && before != cur
      requires before == NIL || 0 <= before < MAX_PROCS
      requires next[cur] == NIL || (0 <= next[cur] < MAX_PROCS && next[cur] != cur)
      modifies next, next2, prev, head, tail
      ensures
        var after := old(next[cur]);
        next[..] == LinkPast(old(next[..]), before, after, cur) &&
        next2[..] == LinkPast(old(next2[..]), before, after, cur) &&
        prev[..] == LinkPast(old(prev[..]), after, before, cur) &&
        head[..] == (if before != NIL then old(head[..]) else old(head[..])[pri := after]) &&
        tail[..] == (if old(tail[pri]) == cur then old(tail[..])[pri := before] else old(tail[..]))
    {
      if before != NIL {
        next[before] := next[cur];
      } else {
        head[pri] := next[cur];
      }
      if tail[pri] == cur {
        tail[pri] := before;
      }
      if next[cur] != NIL {
        prev[next[cur]] := before;
      }
      if before != NIL {
        next2[before] := next[cur];
      }
      next[cur] := NIL;
      next2[cur] := NIL;
      prev[cur] := NIL;
    }

    /** Takes the process at position i of its queue off it. */
    method Unlink(pri: nat, ghost i: nat, before: int, cur: nat)
      requires Valid() && pri < LEVELS && i < |queues[pri]| && before == Before(queues[pri], i) && cur == queues[pri][i]
      modifies `queues, next, next2, prev, head, tail
      ensures Valid() && queues == old(queues)[pri := RemoveFrom(old(queues)[pri], cur)]
    {
      AllSpelledUnlink(next[..], next2[..], prev[..], head[..], tail[..], queues, pri, i);
      hide AllSpelled;
      Relink(pri, before, cur);
      queues := queues[pri := RemoveFrom(queues[pri], cur)];
    }
  }

  /** links with from pointed past cur, which itself points nowhere. */
  function LinkPast(links: seq<int>, from: int, to: int, cur: nat): (r: seq<int>)
    requires cur < |links| && (from == NIL || 0 <= from < |links|)
    ensures |r| == |links|
  {
    (if from != NIL then links[from := to] else links)[cur := NIL]
  }

  lemma SpellsPast(next: seq<int>, next2: seq<int>, prev: seq<int>, head: int, tail: int, q: seq<nat>,
                   before: int, after: int, cur: nat)
    requires |next| == |next2| == |prev| == MAX_PROCS && Spells(next, next2, prev, head, tail, q)
    requires cur < MAX_PROCS && cur !in q && (before == NIL || 0 <= before < MAX_PROCS) &&
      (after == NIL || 0 <= after < MAX_PROCS)
    requires (before != NIL ==> before !in q) && (after != NIL ==> after !in q)
    ensures Spells(LinkPast(next, before, after, cur), LinkPast(next2, before, after, cur),
      LinkPast(prev, after, before, cur),
                   head, tail, q)
  {
    SpellsElsewhere(next, next2, prev, LinkPast(next, before, after, cur), LinkPast(next2, before, after, cur),
                    LinkPast(prev, after, before, cur), head, tail, q);
  }

  lemma RemoveAbsent(q: seq<nat>, p: nat)
    requires p !in q
    ensures RemoveFrom(q, p) == q
  {}

  /** Taking processes off one queue keeps the queues apart. */
  lemma ShrinkKeepsApart(queues: seq<seq<nat>>, pri: nat, q: seq<nat>)
    requires |queues| == LEVELS && pri < LEVELS && Apart(queues)
    requires Distinct(q) && forall p | p in q :: p in queues[pri]
    ensures Apart(queues[pri := q])
    ensures forall lv: nat, p: nat | lv < LEVELS && lv != pri && p in queues[pri] :: p !in queues[lv]
  {
    var after := queues[pri := q];
    forall lv: nat | lv < LEVELS ensures Distinct(after[lv]) {
      assert Distinct(queues[lv]);
    }
  }

  lemma PushElsewhere(queues: seq<seq<nat>>, pri: nat, p: nat, t: int)
    requires |queues| == LEVELS && pri < LEVELS && Apart(queues)
    requires forall lv: nat | lv < LEVELS :: p !in queues[lv]
    requires t != NIL ==> t >= 0 && t in queues[pri]
    ensures Apart(queues[pri := queues[pri] + [p]])
    ensures forall lv: nat | lv < LEVELS && lv != pri :: p !in queues[lv] && (t != NIL ==> t !in queues[lv])
  {
    PushDistinct(queues[pri], p);
  }

  /** All queues at once: what the arrays spell, with no process on two of them. */
  ghost predicate AllSpelled(next: seq<int>, next2: seq<int>, prev: seq<int>, head: seq<int>, tail: seq<int>,
      queues: seq<seq<nat>>) {
    |next| == |next2| == |prev| == MAX_PROCS && |head| == |tail| == |queues| == LEVELS && Apart(queues) &&
    forall lv: nat {:trigger queues[lv]} | lv < LEVELS :: Spells(next, next2, prev, head[lv], tail[lv], queues[lv])
  }

  lemma AllSpelledPush(next: seq<int>, next2: seq<int>, prev: seq<int>, head: seq<int>, tail: seq<int>,
      queues: seq<seq<nat>>,
                       pri: nat, p: nat)
    requires AllSpelled(next, next2, prev, head, tail, queues) && pri < LEVELS && p < MAX_PROCS
    requires forall lv: nat | lv < LEVELS :: p !in queues[lv]
    ensures
      var t := tail[pri];
      (t == NIL <==> head[pri] == NIL) && (t != NIL ==> 0 <= t < MAX_PROCS && t != p) &&
      AllSpelled(if t == NIL then next[p := NIL] else next[p := NIL][t := p],
                 if t == NIL then next2[p := NIL] else next2[p := NIL][t := p],
                 prev[p := t], if t == NIL then head[pri := p] else head, tail[pri := p],
                 queues[pri := queues[pri] + [p]])
  {
    var t := tail[pri];
    assert Distinct(queues[pri]);
    SpellsPush(next, next2, prev, head[pri], t, queues[pri], p);
    PushElsewhere(queues, pri, p, t);
    var next' := if t == NIL then next[p := NIL] else next[p := NIL][t := p];
    var next2' := if t == NIL then next2[p := NIL] else next2[p := NIL][t := p];
    hide Spells, Apart;
    forall lv: nat | lv < LEVELS && lv != pri
      ensures Spells(next', next2', prev[p := t], head[lv], tail[lv], queues[lv])
    {
      SpellsElsewhere(next, next2, prev, next', next2', prev[p := t], head[lv], tail[lv], queues[lv]);
    }
  }

  lemma AllSpelledPop(next: seq<int>, next2: seq<int>, prev: seq<int>, head: seq<int>, tail: seq<int>,
      queues: seq<seq<nat>>, pri: nat)
    requires AllSpelled(next, next2, prev, head, tail, queues) && pri < LEVELS && queues[pri] != []
    ensures
      var p := head[pri];
      0 <= p < MAX_PROCS && p == queues[pri][0] &&
      var after := next[p];
      (after != NIL ==> 0 <= after < MAX_PROCS && after != p) &&
      AllSpelled(next[p := NIL], next2[p := NIL], (if after == NIL then prev else prev[after := NIL])[p := NIL],
                 head[pri := after], if after == NIL then tail[pri := NIL] else tail, queues[pri := Rest(queues[pri])])
  {
    var q, p := queues[pri], head[pri];
    assert Distinct(q);
    SpellsPop(next, next2, prev, p, tail[pri], q);
    DistinctTail(q);
    ShrinkKeepsApart(queues, pri, Rest(q));
    assert LinkedAt(next, next2, prev, q, 0);
    var after := next[p];
    var prev' := (if after == NIL then prev else prev[after := NIL])[p := NIL];
    hide Spells, Apart;
    forall lv: nat | lv < LEVELS && lv != pri
      ensures Spells(next[p := NIL], next2[p := NIL], prev', head[lv], tail[lv], queues[lv])
    {
      assert p in q && (after != NIL ==> after in q);
      SpellsElsewhere(next, next2, prev, next[p := NIL], next2[p := NIL], prev', head[lv], tail[lv], queues[lv]);
    }
  }

  lemma AllSpelledUnlink(next: seq<int>, next2: seq<int>, prev: seq<int>, head: seq<int>, tail: seq<int>,
      queues: seq<seq<nat>>,
                         pri: nat, i: nat)
    requires AllSpelled(next, next2, prev, head, tail, queues) && pri < LEVELS && i < |queues[pri]|
    ensures
      var q := queues[pri];
      var cur, before, after := q[i], Before(q, i), After(q, i);
      cur < MAX_PROCS && next[cur] == after &&
      (before != NIL ==> 0 <= before < MAX_PROCS && before != cur) &&
        (after != NIL ==> 0 <= after < MAX_PROCS && after != cur) &&
      AllSpelled(LinkPast(next, before, after, cur), LinkPast(next2, before, after, cur),
        LinkPast(prev, after, before, cur),
                 if before != NIL then head else head[pri := after],
                 if tail[pri] == cur then tail[pri := before] else tail, queues[pri := RemoveFrom(q, cur)])
  {
    var q := queues[pri];
    var cur, before, after := q[i], Before(q, i), After(q, i);
    assert Distinct(q);
    RemoveKeepsApart(queues, pri, i);
    hide Apart, RemoveFrom, LinkPast;
    SpellsRemove(next, next2, prev, head[pri], tail[pri], q, i);
    hide Spells;
    UnlinkElsewhere(next, next2, prev, head, tail, queues, pri, before, after, cur);
  }

  lemma RemoveKeepsApart(queues: seq<seq<nat>>, pri: nat, i: nat)
    requires |queues| == LEVELS && pri < LEVELS && Apart(queues) && i < |queues[pri]|
    ensures
      var q := queues[pri];
      Apart(queues[pri := RemoveFrom(q, q[i])]) && RemoveFrom(q, q[i]) == q[..i] + q[i + 1..] &&
      q[i] in q && (Before(q, i) != NIL ==> Before(q, i) in q) && (After(q, i) != NIL ==> After(q, i) in q)
  {
    var q := queues[pri];
    assert Distinct(q);
    RemoveFromAt(q, i);
    RemoveFromExact(q, q[i]);
    hide RemoveFrom;
    ShrinkKeepsApart(queues, pri, RemoveFrom(q, q[i]));
  }

  lemma UnlinkElsewhere(next: seq<int>, next2: seq<int>, prev: seq<int>, head: seq<int>, tail: seq<int>,
      queues: seq<seq<nat>>,
                        pri: nat, before: int, after: int, cur: nat)
    requires AllSpelled(next, next2, prev, head, tail, queues) && pri < LEVELS
    requires cur < MAX_PROCS && (before == NIL || 0 <= before < MAX_PROCS) && (after == NIL || 0 <= after < MAX_PROCS)
    requires cur in queues[pri] && (before != NIL ==> before in queues[pri]) && (after != NIL ==> after in queues[pri])
    ensures forall lv: nat | lv < LEVELS && lv != pri ::
      Spells(LinkPast(next, before, after, cur), LinkPast(next2, before, after, cur),
             LinkPast(prev, after, before, cur), head[lv], tail[lv], queues[lv])
  {
    hide Spells, LinkPast;
    forall lv: nat | lv < LEVELS && lv != pri
      ensures Spells(LinkPast(next, before, after, cur), LinkPast(next2, before, after, cur),
                     LinkPast(prev, after, before, cur), head[lv], tail[lv], queues[lv])
    {
      SpellsPast(next, next2, prev, head[lv], tail[lv], queues[lv], before, after, cur);
    }
  }
}
