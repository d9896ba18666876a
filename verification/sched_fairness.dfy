/** Bounded waiting: round robin inside a priority level, whatever else happens in the system. */
module SchedFairness {
  import opened Basics
  import opened Options
  import opened SchedModel
  import opened SchedInvariant

  /** Where p stands on a queue. */
  function Pos(q: seq<nat>, p: nat): (i: nat)
    requires p in q
    ensures i < |q| && q[i] == p
  {
    if q[0] == p then 0 else 1 + Pos(q[1..], p)
  }

  lemma {:induction false} PosOfPrefix(q: seq<nat>, r: seq<nat>, p: nat)
    requires p in q && q <= r
    ensures p in r && Pos(r, p) == Pos(q, p)
  {
    assert r[0] == q[0];
    if q[0] != p {
      assert q[1..] <= r[1..];
      PosOfPrefix(q[1..], r[1..], p);
    }
  }

  lemma {:induction false} PosAfterRemoval(q: seq<nat>, p: nat, x: nat)
    requires p in q && x != p
    ensures p in RemoveFrom(q, x) && Pos(RemoveFrom(q, x), p) <= Pos(q, p)
  {
    if q[0] == p {
      assert RemoveFrom(q, x)[0] == p;
    } else if q[0] == x {
      assert p in q[1..];
    } else {
      assert p in q[1..];
      PosAfterRemoval(q[1..], p, x);
      assert RemoveFrom(q, x)[1..] == RemoveFrom(q[1..], x);
    }
  }

  lemma PosAt(q: seq<nat>, i: nat)
    requires Distinct(q) && i < |q|
    ensures Pos(q, q[i]) == i
  {}

  /** Ticks the running process may still keep the processor for, counting the coming one. */
  function Left(s: Sys): (n: nat)
    requires Sized(s)
    ensures n >= 1
  {
    var r := s.procs[s.current];
    if r.state == Running && !r.isIdle && r.timeSlice > 1 then r.timeSlice else 1
  }

  /** Ticks within which p, queued at level lv, runs. */
  function Rank(s: Sys, p: nat, lv: nat): nat
    requires Sized(s) && lv < LEVELS && p in s.queues[lv]
  {
    TIMESLICE * Pos(s.queues[lv], p) + Left(s)
  }

  /** No process that could run has a better priority than lv. */
  ghost predicate NoneBetter(s: Sys, lv: nat)
    requires Sized(s)
  {
    forall q: nat {:trigger s.procs[q]} | q < MAX_PROCS && s.procs[q].used && !s.procs[q].isIdle &&
        (s.procs[q].state == Ready || s.procs[q].state == Running) ::
      s.procs[q].priority >= lv
  }

  predicate Chosen(s: Sys, p: nat)
    requires Sized(s)
  {
    s.current == p && s.procs[s.current].state == Running
  }

  /** t only appends to the queues of s and gives the current process no more time. */
  ghost predicate Gentle(s: Sys, t: Sys)
    requires Sized(s) && Sized(t)
  {
    t.current == s.current &&
    (forall lv: nat {:trigger t.queues[lv]} | lv < LEVELS :: s.queues[lv] <= t.queues[lv]) &&
    Left(t) <= Left(s)
  }

  lemma GentleTwice(s: Sys, t: Sys, u: Sys)
    requires Sized(s) && Sized(t) && Sized(u) && Gentle(s, t) && Gentle(t, u)
    ensures Gentle(s, u)
  {
    forall lv: nat | lv < LEVELS ensures s.queues[lv] <= u.queues[lv] {
      assert s.queues[lv] <= t.queues[lv];
    }
  }

  lemma WakeIsGentle(s: Sys, p: nat)
    requires Sized(s) && p < MAX_PROCS
    ensures Gentle(s, Wake(s, p))
  {}

  lemma MarkZombieIsGentle(s: Sys, p: nat, status: nat)
    requires Sized(s) && p < MAX_PROCS
    ensures Gentle(s, MarkZombie(s, p, status))
  {
    if s.procs[p].state != Zombie && s.procs[p].state != Dead {
      var s1 := Update(s, p, s.procs[p].(state := Zombie, waitStatus := status));
      assert Gentle(s, s1);
      var parent := Find(s1, s1.procs[p].ppid);
      if s1.procs[p].ppid != 0 && parent.Some? {
        WakeIsGentle(s1, parent.value);
        GentleTwice(s, s1, Wake(s1, parent.value));
      }
    }
  }

  lemma DeliverIsGentle(s: Sys, p: nat)
    requires Sized(s) && p < MAX_PROCS
    ensures Gentle(s, Deliver(s, p))
  {
    var r := s.procs[p];
    var sig := LowestFrom(r.pending - r.mask, 1);
    if r.state != Zombie && r.state != Dead && sig.Some? {
      var s1 := Update(s, p, r.(pending := r.pending - {sig.value}));
      assert Gentle(s, s1);
      MarkZombieIsGentle(s1, p, SignalStatus(sig.value));
      GentleTwice(s, s1, MarkZombie(s1, p, SignalStatus(sig.value)));
    }
  }

  lemma SpawnIsGentle(s: Sys)
    requires Inv(s)
    ensures Gentle(s, Spawn(s))
  {
    var slot := FreeSlotFrom(s.procs, 0);
    if slot.Some? {
      SpawnShape(s, slot.value);
      hide Spawn, Inv;
    }
  }

  lemma KillIsGentle(s: Sys, pid: int, sig: int)
    requires Sized(s)
    ensures Gentle(s, Kill(s, pid, sig))
  {
    if KillOk(s, pid, sig) {
      var p := Find(s, pid).value;
      if sig == SIGKILL {
        MarkZombieIsGentle(s, p, SignalStatus(sig));
      } else {
        var s1 := Update(s, p, s.procs[p].(pending := s.procs[p].pending + {sig}));
        assert Gentle(s, s1);
        WakeIsGentle(s1, p);
        GentleTwice(s, s1, Wake(s1, p));
      }
    }
  }

  lemma WaitIsGentle(s: Sys, callerPid: int, target: int, noHang: bool)
    requires Sized(s)
    ensures Gentle(s, Wait(s, callerPid, target, noHang))
  {}

  lemma CallIsGentle(s: Sys, op: Op)
    requires Inv(s) && !op.OpTick? && !op.OpSetPriority?
    ensures Gentle(s, Apply(s, op))
  {
    match op
    case OpSpawn => SpawnIsGentle(s);
    case OpExit(code) => MarkZombieIsGentle(s, s.current, ExitStatus(code));
    case OpWait(caller, target, noHang) => WaitIsGentle(s, caller, target, noHang);
    case OpKill(pid, sig) => KillIsGentle(s, pid, sig);
    case _ =>
  }

  /** Moving another process to another level does not push p back. */
  lemma SetPriorityRank(s: Sys, pid: int, priority: nat, p: nat, lv: nat)
    requires Inv(s) && lv < LEVELS && p in s.queues[lv] && Find(s, pid) != Some(p)
    ensures p in SetPriority(s, pid, priority).queues[lv]
    ensures Rank(SetPriority(s, pid, priority), p, lv) <= Rank(s, p, lv)
  {
    var found, t := Find(s, pid), SetPriority(s, pid, priority);
    if pid > 0 && priority < LEVELS && found.Some? && s.procs[found.value].state == Ready {
      var x := found.value;
      var s1 := Unqueue(s, x);
      PosAfterRemoval(s.queues[lv], p, x);
      assert p in s1.queues[lv] && Pos(s1.queues[lv], p) <= Pos(s.queues[lv], p);
      assert s1.queues[lv] <= t.queues[lv];
      PosOfPrefix(s1.queues[lv], t.queues[lv], p);
    }
  }

  /** A tick brings p one tick closer to the processor, or gives it to p. */
  lemma TickRank(s: Sys, p: nat, lv: nat)
    requires Inv(s) && lv < LEVELS && p in s.queues[lv] && NoneBetter(Tick(s), lv)
    ensures Chosen(Tick(s), p) || (p in Tick(s).queues[lv] && Rank(Tick(s), p, lv) < Rank(s, p, lv))
  {
    ChargeKeeps(s);
    ChargeRank(s, p, lv);
    var s1 := Charge(s);
    if s1.procs[s1.current].state != Running {
      DispatchKeeps(s1);
      DispatchRank(s1, p, lv);
    }
  }

  lemma ChargeRank(s: Sys, p: nat, lv: nat)
    requires Inv(s) && Inv(Charge(s)) && lv < LEVELS && p in s.queues[lv]
    ensures p in Charge(s).queues[lv] && Pos(Charge(s).queues[lv], p) == Pos(s.queues[lv], p)
    ensures Charge(s).procs[Charge(s).current].state == Running ==> Left(Charge(s)) < Left(s)
  {
    var s1 := s;
    if s.procs[s.current].state == Running {
      DeliverIsGentle(s, s.current);
      s1 := Deliver(s, s.current);
    }
    assert s.queues[lv] <= s1.queues[lv];
    assert s1.queues[lv] <= Charge(s).queues[lv];
    PosOfPrefix(s.queues[lv], Charge(s).queues[lv], p);
    hide Inv, Deliver, Sized;
  }

  lemma DispatchRank(s: Sys, p: nat, lv: nat)
    requires Inv(s) && s.procs[s.current].state != Running
    requires Inv(Dispatch(s)) && lv < LEVELS && p in s.queues[lv] && NoneBetter(Dispatch(s), lv)
    ensures var t := Dispatch(s);
      Chosen(t, p) || (p in t.queues[lv] && Rank(t, p, lv) <= TIMESLICE * Pos(s.queues[lv], p))
  {
    var best, t := BestFrom(s.queues, 0), Dispatch(s);
    assert s.queues[best][0] in s.queues[best];
    var next := s.queues[best][0];
    assert SlotOk(t, next) && Runnable(s, next);
    assert t.procs[next].priority == best;
    assert best == lv;
    if next != p {
      assert t.queues[lv] == s.queues[lv][1..] && p in s.queues[lv][1..];
    }
  }

  function Ticks(ops: seq<Op>): nat {
    if ops == [] then 0 else (if ops[0].OpTick? then 1 else 0) + Ticks(ops[1..])
  }

  /** The whole run gives p no better rival and does not move p to another level. */
  ghost predicate Undisturbed(s: Sys, ops: seq<Op>, p: nat, lv: nat)
    requires Sized(s)
    decreases |ops|
  {
    ops == [] ||
    (Allowed(s, ops[0]) && NoneBetter(Apply(s, ops[0]), lv) &&
     (ops[0].OpSetPriority? ==> Find(s, ops[0].pid) != Some(p)) &&
     Undisturbed(Apply(s, ops[0]), ops[1..], p, lv))
  }

  predicate RunsWithin(s: Sys, ops: seq<Op>, p: nat)
    requires Sized(s)
    decreases |ops|
  {
    Chosen(s, p) || (ops != [] && RunsWithin(Apply(s, ops[0]), ops[1..], p))
  }

  lemma StepRank(s: Sys, op: Op, p: nat, lv: nat)
    requires Inv(s) && Allowed(s, op) && lv < LEVELS && p in s.queues[lv]
    requires NoneBetter(Apply(s, op), lv) && (op.OpSetPriority? ==> Find(s, op.pid) != Some(p))
    ensures Inv(Apply(s, op))
    ensures Chosen(Apply(s, op), p) ||
      (p in Apply(s, op).queues[lv] &&
       Rank(Apply(s, op), p, lv) + (if op.OpTick? then 1 else 0) <= Rank(s, p, lv))
  {
    AllowedKeeps(s, op);
    if op.OpTick? {
      TickRank(s, p, lv);
    } else if op.OpSetPriority? {
      SetPriorityRank(s, op.pid, op.priority, p, lv);
    } else {
      CallIsGentle(s, op);
      assert s.queues[lv] <= Apply(s, op).queues[lv];
      PosOfPrefix(s.queues[lv], Apply(s, op).queues[lv], p);
    }
  }

  lemma {:induction false} RankBoundsWait(s: Sys, ops: seq<Op>, p: nat, lv: nat)
    requires Inv(s) && lv < LEVELS && p in s.queues[lv] && Undisturbed(s, ops, p, lv)
    requires Ticks(ops) >= Rank(s, p, lv)
    ensures RunsWithin(s, ops, p)
    decreases |ops|
  {
    if ops != [] {
      StepRank(s, ops[0], p, lv);
      if !Chosen(Apply(s, ops[0]), p) {
        RankBoundsWait(Apply(s, ops[0]), ops[1..], p, lv);
      }
    }
  }

  /** A process at position i of its queue runs within 4 * (i + 1) ticks, whatever happens meanwhile,
      as long as nobody better turns up and it is not itself moved to another level. */
  lemma BoundedWaiting(s: Sys, ops: seq<Op>, lv: nat, i: nat)
    requires Inv(s) && lv < LEVELS && i < |s.queues[lv]|
    requires Undisturbed(s, ops, s.queues[lv][i], lv)
    requires Ticks(ops) >= TIMESLICE * (i + 1)
    ensures RunsWithin(s, ops, s.queues[lv][i])
  {
    assert SlotOk(s, s.current);
    assert Distinct(s.queues[lv]);
    PosAt(s.queues[lv], i);
    RankBoundsWait(s, ops, s.queues[lv][i], lv);
  }
}
