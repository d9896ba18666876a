/** What every scheduler step keeps: the queues hold exactly the ready processes, and no process
    sleeps in waitpid past a child it could reap. */
module SchedInvariant {
  import opened Basics
  import opened Options
  import opened SchedModel

  predicate Runnable(s: Sys, p: nat)
    requires Sized(s)
  {
    p < MAX_PROCS && s.procs[p].used && s.procs[p].state == Ready && !s.procs[p].isIdle
  }

  /** Whoever is on a queue belongs there; each once; nobody who belongs is missing. */
  ghost predicate QueuesOk(s: Sys)
    requires Sized(s)
  {
    (forall lv: nat, p: nat {:trigger p in s.queues[lv]} | lv < LEVELS && p in s.queues[lv] ::
       Runnable(s, p) && s.procs[p].priority == lv) &&
    (forall lv: nat {:trigger Distinct(s.queues[lv])} | lv < LEVELS :: Distinct(s.queues[lv])) &&
    (forall p: nat {:trigger Runnable(s, p)} | Runnable(s, p) ::
       s.procs[p].priority < LEVELS && p in s.queues[s.procs[p].priority])
  }

  ghost predicate SlotOk(s: Sys, p: nat)
    requires Sized(s) && p < MAX_PROCS
  {
    var r := s.procs[p];
    r.priority < LEVELS && r.timeSlice <= TIMESLICE && r.pid < s.nextPid &&
    (r.used <==> r.state != Created && r.state != Dead) && (r.used ==> r.pid > 0) &&
    (r.state == Running ==> p == s.current) &&
    (r.isIdle <==> p == s.idle)
  }

  ghost predicate TableOk(s: Sys)
    requires Sized(s)
  {
    (forall p: nat {:trigger SlotOk(s, p)} | p < MAX_PROCS :: SlotOk(s, p)) &&
    s.procs[s.idle].used && s.procs[s.idle].state != Blocked && s.procs[s.current].state != Created
  }

  /** Process ids are unique, those of freed slots included. */
  ghost predicate PidsOk(s: Sys)
    requires Sized(s)
  {
    forall p: nat, q: nat {:trigger s.procs[p].pid, s.procs[q].pid} | p < MAX_PROCS && q < MAX_PROCS && p != q ::
      s.procs[p].pid > 0 ==> s.procs[p].pid != s.procs[q].pid
  }

  /** The children a live process lists are live, list it as their parent, and are listed once. */
  ghost predicate FamilyOk(s: Sys)
    requires Sized(s)
  {
    s.procs[s.idle].ppid == 0 &&
    (forall p: nat, c: nat {:trigger c in s.procs[p].children} |
      p < MAX_PROCS && s.procs[p].used && c in s.procs[p].children ::
       s.procs[c].used && s.procs[c].ppid == s.procs[p].pid) &&
    (forall p: nat {:trigger Distinct(s.procs[p].children)} | p < MAX_PROCS && s.procs[p].used ::
      Distinct(s.procs[p].children))
  }

  /** p sleeps inside waitpid although its child c is a zombie that the call is waiting for. */
  predicate Overslept(s: Sys, p: nat, c: nat)
    requires Sized(s) && p < MAX_PROCS && c < MAX_PROCS
  {
    s.procs[p].used && s.procs[p].state == Blocked && s.procs[p].waiting.Some? && c in s.procs[p].children &&
    s.procs[c].state == Zombie && Matches(s.procs[p], s.procs[c], s.procs[p].waiting.value)
  }

  ghost predicate NobodyOverslept(s: Sys)
    requires Sized(s)
  {
    forall p: nat, c: nat {:trigger Overslept(s, p, c)} | p < MAX_PROCS && c < MAX_PROCS :: !Overslept(s, p, c)
  }

  ghost predicate Inv(s: Sys) {
    Sized(s) && QueuesOk(s) && TableOk(s) && PidsOk(s) && FamilyOk(s) && NobodyOverslept(s)
  }

  // ---- queues as sequences ----

  lemma {:induction false} RemoveFromExact(q: seq<nat>, p: nat)
    requires Distinct(q)
    ensures Distinct(RemoveFrom(q, p))
    ensures forall x {:trigger x in RemoveFrom(q, p)} :: x in RemoveFrom(q, p) <==> x in q && x != p
    ensures p in q ==> |RemoveFrom(q, p)| == |q| - 1
  {
    if q != [] {
      DistinctTail(q);
      RemoveFromExact(q[1..], p);
      if q[0] != p {
        DistinctCons(q[0], RemoveFrom(q[1..], p));
      }
    }
  }

  lemma DistinctTail(q: seq<nat>)
    requires Distinct(q) && q != []
    ensures Distinct(q[1..]) && q[0] !in q[1..] && forall x :: x in q <==> x == q[0] || x in q[1..]
  {
    assert q == [q[0]] + q[1..];
    assert forall j | 0 < j < |q| :: q[j] == q[1..][j - 1];
  }

  lemma DistinctCons(x: nat, q: seq<nat>)
    requires Distinct(q) && x !in q
    ensures Distinct([x] + q) && forall y :: y in [x] + q <==> y == x || y in q
  {}

  lemma PushDistinct(q: seq<nat>, p: nat)
    requires Distinct(q) && p !in q
    ensures Distinct(q + [p]) && forall x :: x in q + [p] <==> x in q || x == p
  {}

  // ---- the building blocks ----

  /** A table update that leaves alone everything the queues depend on. */
  lemma QuietUpdate(s: Sys, p: nat, r: Proc)
    requires Sized(s) && p < MAX_PROCS && forall c | c in r.children :: c < MAX_PROCS
    requires QueuesOk(s)
    requires Runnable(s, p) <==> r.used && r.state == Ready && !r.isIdle
    requires r.priority == s.procs[p].priority || !Runnable(s, p)
    ensures QueuesOk(Update(s, p, r))
  {
    var t := Update(s, p, r);
    forall q: nat | q < MAX_PROCS ensures Runnable(t, q) <==> Runnable(s, q) {}
  }

  /** A process that is not on a queue becomes ready and joins the tail of its queue. */
  lemma ReadyAndPush(s: Sys, p: nat, r: Proc)
    requires Sized(s) && p < MAX_PROCS && forall c | c in r.children :: c < MAX_PROCS
    requires QueuesOk(s) && !Runnable(s, p)
    requires r.used && r.state == Ready && !r.isIdle && r.priority < LEVELS
    ensures QueuesOk(Push(Update(s, p, r), p))
  {
    var t := Push(Update(s, p, r), p);
    assert forall lv: nat | lv < LEVELS :: p !in s.queues[lv];
    PushDistinct(s.queues[r.priority], p);
    forall q: nat | q < MAX_PROCS && q != p ensures Runnable(t, q) <==> Runnable(s, q) {}
    forall lv: nat | lv < LEVELS ensures Distinct(t.queues[lv]) {
      assert Distinct(s.queues[lv]);
    }
  }

  predicate SameKin(r: Proc, r': Proc) {
    r'.used == r.used && r'.pid == r.pid && r'.ppid == r.ppid && r'.pgid == r.pgid && r'.isIdle == r.isIdle &&
    r'.children == r.children
  }

  /** t differs from s in slot p at most, and there not in who the process is and who its kin are. */
  ghost predicate OneChanged(s: Sys, t: Sys, p: nat)
    requires Sized(s) && Sized(t)
  {
    t.idle == s.idle && t.nextPid == s.nextPid &&
    (forall q: nat {:trigger t.procs[q]} | q < MAX_PROCS :: if q == p then SameKin(s.procs[q], t.procs[q])
      else t.procs[q] == s.procs[q])
  }

  lemma KinCarry(s: Sys, t: Sys, p: nat)
    requires Sized(s) && Sized(t) && OneChanged(s, t, p) && PidsOk(s) && FamilyOk(s)
    ensures PidsOk(t) && FamilyOk(t)
  {
    forall q: nat | q < MAX_PROCS ensures SameKin(s.procs[q], t.procs[q]) {
      assert t.procs[q] == t.procs[q];
    }
    forall q: nat | q < MAX_PROCS && t.procs[q].used ensures Distinct(t.procs[q].children) {
      assert Distinct(s.procs[q].children);
    }
  }

  lemma SlotsCarry(s: Sys, t: Sys, p: nat)
    requires Sized(s) && Sized(t) && OneChanged(s, t, p) && TableOk(s) && t.current == s.current
    requires p < MAX_PROCS ==> SlotOk(t, p) && (p == s.idle ==> t.procs[p].state != Blocked)
    requires p < MAX_PROCS && t.procs[p].state == Created ==> s.procs[p].state == Created
    ensures TableOk(t)
  {
    forall q: nat | q < MAX_PROCS ensures SlotOk(t, q) {
      assert SlotOk(s, q);
      assert q == p || t.procs[q] == s.procs[q];
    }
    assert SlotOk(t, s.idle) && SlotOk(s, s.idle);
  }

  /** Sleepers are not disturbed by a change to p that leaves it neither asleep nor newly dead. */
  lemma SleepersCarry(s: Sys, t: Sys, p: nat)
    requires Sized(s) && Sized(t) && OneChanged(s, t, p) && NobodyOverslept(s) && p < MAX_PROCS
    requires t.procs[p].state != Blocked ||
      (t.procs[p].state == s.procs[p].state && t.procs[p].waiting == s.procs[p].waiting)
    requires t.procs[p].state != Zombie || s.procs[p].state == Zombie
    ensures NobodyOverslept(t)
  {
    forall q: nat, c: nat | q < MAX_PROCS && c < MAX_PROCS ensures !Overslept(t, q, c) {
      assert !Overslept(s, q, c);
      assert SameKin(s.procs[q], t.procs[q]) && SameKin(s.procs[c], t.procs[c]) by {
        assert t.procs[q] == t.procs[q] && t.procs[c] == t.procs[c];
      }
    }
  }

  /** A wakeup keeps the tables right and leaves the woken process with nothing to oversleep. */
  lemma WakeKeeps(s: Sys, p: nat)
    requires Sized(s) && QueuesOk(s) && TableOk(s) && PidsOk(s) && FamilyOk(s) && p < MAX_PROCS
    ensures var t := Wake(s, p);
      QueuesOk(t) && TableOk(t) && PidsOk(t) && FamilyOk(t) && t.current == s.current &&
      forall q: nat, c: nat | q < MAX_PROCS && c < MAX_PROCS && Overslept(t, q, c) :: q != p && Overslept(s, q, c)
  {
    if s.procs[p].state == Blocked {
      var t := Wake(s, p);
      assert SlotOk(s, p) && SlotOk(s, s.idle);
      ReadyAndPush(s, p, s.procs[p].(state := Ready));
      assert OneChanged(s, t, p);
      hide QueuesOk, TableOk, PidsOk, FamilyOk;
      KinCarry(s, t, p);
      SlotsCarry(s, t, p);
    }
  }

  lemma QuietKeeps(s: Sys, p: nat, r: Proc)
    requires Inv(s) && p < MAX_PROCS && SameKin(s.procs[p], r) && r.priority == s.procs[p].priority
    requires r.timeSlice <= TIMESLICE && r.state == s.procs[p].state && r.waiting == s.procs[p].waiting
    ensures forall c | c in r.children :: c < MAX_PROCS
    ensures Inv(Update(s, p, r))
  {
    var t := Update(s, p, r);
    assert SlotOk(s, p) && SlotOk(s, s.idle);
    assert SlotOk(t, p);
    assert OneChanged(s, t, p);
    QuietUpdate(s, p, r);
    hide QueuesOk, TableOk, PidsOk, FamilyOk, NobodyOverslept;
    KinCarry(s, t, p);
    SlotsCarry(s, t, p);
    SleepersCarry(s, t, p);
  }

  /** The parent that a child's ppid leads to is the process that lists the child. */
  lemma ParentFound(s: Sys, parent: nat, child: nat)
    requires Sized(s) && TableOk(s) && PidsOk(s) && FamilyOk(s)
    requires parent < MAX_PROCS && s.procs[parent].used && child in s.procs[parent].children
    ensures child < MAX_PROCS && s.procs[child].ppid != 0 && Find(s, s.procs[child].ppid) == Some(parent)
  {
    assert SlotOk(s, parent);
    assert s.procs[child].ppid == s.procs[parent].pid;
    var found := Find(s, s.procs[child].ppid);
    assert found.Some?;
    assert s.procs[found.value].pid == s.procs[parent].pid;
  }

  /** A process that is on no queue can die: its parent, if asleep, is woken. */
  lemma MarkZombieKeeps(s: Sys, p: nat, status: nat)
    requires Inv(s) && p < MAX_PROCS && s.procs[p].used && !Runnable(s, p)
    ensures Inv(MarkZombie(s, p, status)) && MarkZombie(s, p, status).current == s.current
  {
    if s.procs[p].state != Zombie && s.procs[p].state != Dead {
      var r := s.procs[p].(state := Zombie, waitStatus := status);
      var s1 := Update(s, p, r);
      assert SlotOk(s, p) && SlotOk(s, s.idle) && SlotOk(s1, p);
      assert OneChanged(s, s1, p);
      QuietUpdate(s, p, r);
      KinCarry(s, s1, p);
      SlotsCarry(s, s1, p);
      forall q: nat, c: nat | q < MAX_PROCS && c < MAX_PROCS && Overslept(s1, q, c)
        ensures c == p && s1.procs[p].ppid != 0 && Find(s1, s1.procs[p].ppid) == Some(q)
      {
        assert !Overslept(s, q, c);
        ParentFound(s1, q, c);
      }
      var parent := Find(s1, s1.procs[p].ppid);
      if s1.procs[p].ppid != 0 && parent.Some? {
        WakeKeeps(s1, parent.value);
      }
    }
  }

  lemma DeliverKeeps(s: Sys, p: nat)
    requires Inv(s) && p < MAX_PROCS && s.procs[p].state == Running
    ensures Inv(Deliver(s, p)) && Deliver(s, p).current == s.current
  {
    var r := s.procs[p];
    var sig := LowestFrom(r.pending - r.mask, 1);
    if sig.Some? {
      assert SlotOk(s, p);
      var s1 := Update(s, p, r.(pending := r.pending - {sig.value}));
      QuietKeeps(s, p, r.(pending := r.pending - {sig.value}));
      hide Inv;
      MarkZombieKeeps(s1, p, SignalStatus(sig.value));
    }
  }

  lemma AccountKeeps(s: Sys)
    requires Inv(s) && s.procs[s.current].state == Running
    ensures Inv(Account(s)) && Account(s).current == s.current
  {
    var cur, t := s.current, Account(s);
    assert SlotOk(s, cur) && SlotOk(s, s.idle);
    assert SlotOk(t, cur);
    assert OneChanged(s, t, cur);
    if t.procs[cur].state == Ready && !t.procs[cur].isIdle {
      ReadyAndPush(s, cur, t.procs[cur]);
    } else {
      QuietUpdate(s, cur, t.procs[cur]);
    }
    hide QueuesOk, TableOk, PidsOk, FamilyOk, NobodyOverslept;
    KinCarry(s, t, cur);
    SlotsCarry(s, t, cur);
    SleepersCarry(s, t, cur);
  }

  lemma ChargeKeeps(s: Sys)
    requires Inv(s)
    ensures Inv(Charge(s)) && Charge(s).current == s.current
  {
    var s1 := s;
    if s.procs[s.current].state == Running {
      DeliverKeeps(s, s.current);
      s1 := Deliver(s, s.current);
    }
    hide QueuesOk, TableOk, PidsOk, FamilyOk, NobodyOverslept, Account, Deliver;
    if s1.procs[s1.current].state == Running {
      AccountKeeps(s1);
    }
  }

  lemma DispatchQueues(s: Sys)
    requires Inv(s)
    ensures QueuesOk(Dispatch(s))
  {
    var best, t := BestFrom(s.queues, 0), Dispatch(s);
    var next := t.current;
    assert SlotOk(s, s.idle);
    if best < LEVELS {
      DistinctTail(s.queues[best]);
      assert next in s.queues[best];
    }
    forall lv: nat | lv < LEVELS ensures Distinct(t.queues[lv]) {
      assert Distinct(s.queues[lv]);
    }
    forall q: nat | q < MAX_PROCS ensures Runnable(t, q) <==> Runnable(s, q) && q != next {}
    hide TableOk, PidsOk, FamilyOk, NobodyOverslept;
    forall lv: nat, q: nat | lv < LEVELS && q in t.queues[lv] ensures q in s.queues[lv] && q != next {}
  }

  /** Once nobody runs, the head of the best queue, or the idle process, does. */
  lemma DispatchKeeps(s: Sys)
    requires Inv(s) && s.procs[s.current].state != Running
    ensures Inv(Dispatch(s))
  {
    var t := Dispatch(s);
    DispatchQueues(s);
    assert SlotOk(s, s.idle) && SlotOk(s, t.current) && SlotOk(s, s.current);
    assert Runnable(s, t.current) || t.current == s.idle by {
      var best := BestFrom(s.queues, 0);
      if best < LEVELS {
        assert s.queues[best][0] in s.queues[best];
      }
    }
    assert OneChanged(s, t, t.current);
    hide QueuesOk, Distinct;
    KinCarry(s, t, t.current);
    SleepersCarry(s, t, t.current);
    forall q: nat | q < MAX_PROCS ensures SlotOk(t, q) {
      assert SlotOk(s, q);
    }
  }

  /** A tick keeps everything, and afterwards the current process runs, is on no queue, and nobody
      on a queue has a better priority. */
  lemma TickKeeps(s: Sys)
    requires Inv(s)
    ensures Inv(Tick(s))
    ensures var t := Tick(s);
      t.procs[t.current].state == Running && !Runnable(t, t.current) &&
      (forall lv: nat | lv < LEVELS :: t.current !in t.queues[lv]) &&
      (forall lv: nat, p: nat | lv < LEVELS && p in t.queues[lv] && !t.procs[t.current].isIdle ::
         t.procs[t.current].priority <= t.procs[p].priority) &&
      (t.procs[t.current].isIdle ==> forall lv: nat | lv < LEVELS :: t.queues[lv] == [])
  {
    ChargeKeeps(s);
    var s1 := Charge(s);
    if s1.procs[s1.current].state == Running {
      RunsOnIfBest(s);
    } else {
      DispatchKeeps(s1);
      DispatchesBest(s1);
    }
  }

  /** Whoever keeps the processor is not idle and has no better process waiting. */
  lemma RunsOnIfBest(s: Sys)
    requires Inv(s) && Inv(Charge(s)) && Charge(s).procs[Charge(s).current].state == Running
    ensures var t := Charge(s);
      !t.procs[t.current].isIdle &&
      forall lv: nat | lv < LEVELS && t.queues[lv] != [] :: t.procs[t.current].priority <= lv
  {
    hide Deliver, Inv, QueuesOk, TableOk, PidsOk, FamilyOk, NobodyOverslept;
  }

  lemma DispatchesBest(s: Sys)
    requires Inv(s) && Inv(Dispatch(s)) && s.procs[s.current].state != Running
    ensures var t := Dispatch(s);
      if t.procs[t.current].isIdle then forall lv: nat | lv < LEVELS :: t.queues[lv] == []
      else forall lv: nat | lv < LEVELS && t.queues[lv] != [] :: t.procs[t.current].priority <= lv
  {
    var best := BestFrom(s.queues, 0);
    assert SlotOk(s, s.idle);
    if best < LEVELS {
      assert s.queues[best][0] in s.queues[best];
    }
    hide TableOk, PidsOk, FamilyOk, NobodyOverslept;
  }

  // ---- the other calls ----

  lemma ChildListed(s: Sys, p: nat, c: nat)
    requires Inv(s) && p < MAX_PROCS && s.procs[p].used && c in s.procs[p].children
    ensures c < MAX_PROCS && s.procs[c].used && s.procs[c].ppid == s.procs[p].pid > 0 && c != s.idle
  {
    assert SlotOk(s, p);
  }

  /** A freed child leaves its parent's list and nobody else's, for it was on no other. */
  lemma ReapKeeps(s: Sys, caller: nat, child: nat)
    requires Inv(s) && caller < MAX_PROCS && s.procs[caller].used && child in s.procs[caller].children
    requires s.procs[child].state == Zombie
    ensures Inv(Reap(s, caller, child))
  {
    ChildListed(s, caller, child);
    var t := Reap(s, caller, child);
    RemoveFromExact(s.procs[caller].children, child);
    assert SlotOk(s, caller) && SlotOk(s, child) && SlotOk(s, s.idle);
    ReapTables(s, caller, child);
    ReapFamily(s, caller, child);
    forall q: nat | q < MAX_PROCS ensures Runnable(t, q) <==> Runnable(s, q) {}
    assert QueuesOk(t);
    forall q: nat, c: nat | q < MAX_PROCS && c < MAX_PROCS ensures !Overslept(t, q, c) {
      assert !Overslept(s, q, c);
    }
  }

  lemma ReapTables(s: Sys, caller: nat, child: nat)
    requires Inv(s) && caller < MAX_PROCS && s.procs[caller].used && child in s.procs[caller].children
    requires s.procs[child].state == Zombie
    ensures TableOk(Reap(s, caller, child)) && PidsOk(Reap(s, caller, child))
  {
    ChildListed(s, caller, child);
    var t := Reap(s, caller, child);
    assert SlotOk(s, s.idle);
    forall q: nat | q < MAX_PROCS ensures SlotOk(t, q) {
      assert SlotOk(s, q);
    }
    forall q: nat | q < MAX_PROCS ensures t.procs[q].pid == s.procs[q].pid {}
  }

  lemma OnlyParent(s: Sys, p: nat, q: nat, child: nat)
    requires Inv(s) && p < MAX_PROCS && q < MAX_PROCS && s.procs[p].used && s.procs[q].used
    requires child in s.procs[p].children && child in s.procs[q].children
    ensures p == q
  {
    assert SlotOk(s, p) && s.procs[child].ppid == s.procs[p].pid && s.procs[child].ppid == s.procs[q].pid;
  }

  lemma ReapFamily(s: Sys, caller: nat, child: nat)
    requires Inv(s) && caller < MAX_PROCS && s.procs[caller].used && child in s.procs[caller].children
    requires s.procs[child].state == Zombie
    ensures FamilyOk(Reap(s, caller, child))
  {
    ChildListed(s, caller, child);
    var t := Reap(s, caller, child);
    RemoveFromExact(s.procs[caller].children, child);
    assert t.procs[s.idle].ppid == 0;
    forall q: nat, c: nat | q < MAX_PROCS && t.procs[q].used && c in t.procs[q].children
      ensures t.procs[c].used && t.procs[c].ppid == t.procs[q].pid
    {
      if child in s.procs[q].children {
        OnlyParent(s, q, caller, child);
      }
    }
    forall q: nat | q < MAX_PROCS && t.procs[q].used ensures Distinct(t.procs[q].children) {
      assert Distinct(s.procs[q].children);
    }
  }

  /** Whose pid the caller's is. */
  lemma CurrentIsCaller(s: Sys, caller: nat)
    requires Inv(s) && caller < MAX_PROCS && s.procs[caller].used && s.procs[s.current].pid == s.procs[caller].pid
    ensures s.current == caller
  {
    assert SlotOk(s, caller);
  }

  /** A running (or otherwise unqueued) process that finds no zombie child may go to sleep. */
  lemma BlockKeeps(s: Sys, target: int)
    requires Inv(s) && s.procs[s.current].used && !Runnable(s, s.current) && !s.procs[s.current].isIdle
    requires FirstZombie(s, s.current, target, s.procs[s.current].children).None?
    ensures Inv(Update(s, s.current, s.procs[s.current].(state := Blocked, waiting := Some(target))))
  {
    var r := s.procs[s.current].(state := Blocked, waiting := Some(target));
    var t := Update(s, s.current, r);
    assert SlotOk(s, s.current) && SlotOk(s, s.idle) && SlotOk(t, s.current);
    assert OneChanged(s, t, s.current);
    QuietUpdate(s, s.current, r);
    KinCarry(s, t, s.current);
    SlotsCarry(s, t, s.current);
    hide QueuesOk, TableOk, PidsOk, FamilyOk;
    forall q: nat, c: nat | q < MAX_PROCS && c < MAX_PROCS ensures !Overslept(t, q, c) {
      assert !Overslept(s, q, c);
    }
  }

  /** Leaving waitpid: the call's target is forgotten. */
  lemma StopWaiting(s: Sys, p: nat)
    requires Inv(s) && p < MAX_PROCS
    ensures Inv(Update(s, p, Returned(s, p)))
  {
    var r := Returned(s, p);
    var t := Update(s, p, r);
    assert SlotOk(s, p) && SlotOk(s, s.idle) && SlotOk(t, p);
    assert OneChanged(s, t, p);
    QuietUpdate(s, p, r);
    KinCarry(s, t, p);
    SlotsCarry(s, t, p);
    hide QueuesOk, TableOk, PidsOk, FamilyOk;
    forall q: nat, c: nat | q < MAX_PROCS && c < MAX_PROCS ensures !Overslept(t, q, c) {
      assert !Overslept(s, q, c);
    }
  }

  /** Sending a signal that is not SIGKILL wakes a sleeper; it never queues anyone twice. */
  lemma SignalKeeps(s: Sys, p: nat, sig: nat)
    requires Inv(s) && p < MAX_PROCS
    ensures Inv(Wake(Update(s, p, s.procs[p].(pending := s.procs[p].pending + {sig})), p))
  {
    var r := s.procs[p].(pending := s.procs[p].pending + {sig});
    assert SlotOk(s, p);
    QuietKeeps(s, p, r);
    var s1 := Update(s, p, r);
    WakeKeeps(s1, p);
    var t := Wake(s1, p);
    hide QueuesOk, TableOk, PidsOk, FamilyOk;
    forall q: nat, c: nat | q < MAX_PROCS && c < MAX_PROCS ensures !Overslept(t, q, c) {
      assert !Overslept(s1, q, c);
    }
  }

  lemma UnqueueExact(s: Sys, p: nat)
    requires Inv(s) && Runnable(s, p)
    ensures Unqueue(s, p).procs == s.procs
    ensures forall lv: nat, q: nat | lv < LEVELS :: q in Unqueue(s, p).queues[lv] <==> q in s.queues[lv] && q != p
    ensures forall lv: nat | lv < LEVELS :: Distinct(Unqueue(s, p).queues[lv])
  {
    var lv0 := s.procs[p].priority;
    assert SlotOk(s, p) && Distinct(s.queues[lv0]);
    RemoveFromExact(s.queues[lv0], p);
    forall lv: nat | lv < LEVELS ensures Distinct(Unqueue(s, p).queues[lv]) {
      assert Distinct(s.queues[lv]);
    }
  }

  lemma RequeueQueues(s: Sys, p: nat, priority: nat)
    requires Inv(s) && Runnable(s, p) && priority < LEVELS
    ensures QueuesOk(Push(Update(Unqueue(s, p), p, s.procs[p].(priority := priority)), p))
  {
    UnqueueExact(s, p);
    var s1 := Unqueue(s, p);
    var t := Push(Update(s1, p, s.procs[p].(priority := priority)), p);
    assert Distinct(s1.queues[priority]);
    PushDistinct(s1.queues[priority], p);
    hide TableOk, PidsOk, FamilyOk, NobodyOverslept, RemoveFrom, Unqueue;
    forall q: nat | q < MAX_PROCS ensures Runnable(t, q) <==> Runnable(s, q) {}
    forall lv: nat | lv < LEVELS ensures Distinct(t.queues[lv]) {}
  }

  predicate CanReprioritize(r: Proc) {
    r.isIdle ==> r.state != Ready
  }

  lemma SetPriorityKeeps(s: Sys, pid: int, priority: nat)
    requires Inv(s)
    requires pid > 0 && priority < LEVELS && Find(s, pid).Some? ==> CanReprioritize(s.procs[Find(s, pid).value])
    ensures Inv(SetPriority(s, pid, priority))
  {
    var found, t := Find(s, pid), SetPriority(s, pid, priority);
    if pid > 0 && priority < LEVELS && found.Some? && s.procs[found.value].state != Dead {
      var p := found.value;
      assert SlotOk(s, p) && SlotOk(s, s.idle) && SlotOk(t, p);
      assert OneChanged(s, t, p);
      if s.procs[p].state == Ready {
        RequeueQueues(s, p, priority);
      } else {
        QuietUpdate(s, p, s.procs[p].(priority := priority));
      }
      hide QueuesOk, TableOk, PidsOk, FamilyOk, NobodyOverslept, Push, Unqueue;
      KinCarry(s, t, p);
      SlotsCarry(s, t, p);
      SleepersCarry(s, t, p);
    }
  }

  // ---- spawning ----

  /** What a spawn into slot p leaves in the tables. */
  lemma SpawnShape(s: Sys, p: nat)
    requires Sized(s) && FreeSlotFrom(s.procs, 0) == Some(p)
    ensures Spawn(s).current == s.current && Spawn(s).idle == s.idle && Spawn(s).nextPid == s.nextPid + 1
    ensures forall q: nat {:trigger Spawn(s).procs[q]} | q < MAX_PROCS && q != p ::
      Spawn(s).procs[q] ==
        if q == s.current then s.procs[q].(children := [p] + s.procs[q].children) else s.procs[q]
    ensures Spawn(s).procs[p] ==
      CLEARED.(used := true, pid := s.nextPid, pgid := s.nextPid, state := Ready, timeSlice := TIMESLICE,
               priority := if p == s.current then 0 else s.procs[s.current].priority,
               ppid := if p == s.current then s.nextPid else s.procs[s.current].pid,
               children := if p == s.current then [p] else [])
    ensures
      var lv := Level(Spawn(s).procs[p].priority);
      Spawn(s).queues == s.queues[lv := s.queues[lv] + [p]]
  {}

  lemma SpawnQueues(s: Sys)
    requires Inv(s)
    ensures QueuesOk(Spawn(s))
  {
    var slot := FreeSlotFrom(s.procs, 0);
    if slot.Some? {
      var p, t := slot.value, Spawn(s);
      assert SlotOk(s, p) && SlotOk(s, s.current);
      assert forall lv: nat | lv < LEVELS :: p !in s.queues[lv];
      SpawnShape(s, p);
      PushDistinct(s.queues[t.procs[p].priority], p);
      hide TableOk, PidsOk, FamilyOk, NobodyOverslept, Spawn;
      forall q: nat | q < MAX_PROCS && q != p ensures Runnable(t, q) <==> Runnable(s, q) {}
      forall lv: nat | lv < LEVELS ensures Distinct(t.queues[lv]) {
        assert Distinct(s.queues[lv]);
      }
    }
  }

  lemma SpawnTables(s: Sys)
    requires Inv(s)
    ensures TableOk(Spawn(s)) && PidsOk(Spawn(s))
  {
    var slot := FreeSlotFrom(s.procs, 0);
    if slot.Some? {
      var p, t := slot.value, Spawn(s);
      assert SlotOk(s, s.idle) && SlotOk(s, s.current) && SlotOk(s, p);
      SpawnShape(s, p);
      hide QueuesOk, FamilyOk, NobodyOverslept, Spawn;
      forall q: nat | q < MAX_PROCS ensures SlotOk(t, q) && (q != p ==> t.procs[q].pid == s.procs[q].pid < s.nextPid) {
        assert SlotOk(s, q);
      }
    }
  }

  lemma SpawnFamily(s: Sys)
    requires Inv(s)
    ensures FamilyOk(Spawn(s))
  {
    var slot := FreeSlotFrom(s.procs, 0);
    if slot.Some? {
      var p, t := slot.value, Spawn(s);
      assert SlotOk(s, s.idle) && SlotOk(s, p);
      SpawnShape(s, p);
      hide QueuesOk, PidsOk, Spawn;
      forall q: nat | q < MAX_PROCS && t.procs[q].used
        ensures Distinct(t.procs[q].children)
        ensures forall c | c in t.procs[q].children :: t.procs[c].used && t.procs[c].ppid == t.procs[q].pid
      {
        if q != p {
          assert Distinct(s.procs[q].children) && p !in s.procs[q].children;
          DistinctCons(p, s.procs[q].children);
        }
      }
    }
  }

  lemma SpawnSleepers(s: Sys)
    requires Inv(s)
    ensures NobodyOverslept(Spawn(s))
  {
    var slot := FreeSlotFrom(s.procs, 0);
    if slot.Some? {
      var p, t := slot.value, Spawn(s);
      SpawnShape(s, p);
      hide QueuesOk, PidsOk, FamilyOk, TableOk, Spawn;
      forall q: nat, c: nat | q < MAX_PROCS && c < MAX_PROCS ensures !Overslept(t, q, c) {
        assert !Overslept(s, q, c);
      }
    }
  }

  // ---- every step of every run ----

  /** Whether a call leaves the run queues right: a process on a queue may not be killed outright, may
      not exit and may not block, and the idle process may neither block nor be queued. */
  predicate Allowed(s: Sys, op: Op)
    requires Sized(s)
  {
    match op
    case OpExit(_) => !Runnable(s, s.current)
    case OpWait(caller, target, noHang) =>
      WaitAnswer(s, caller, target, noHang).Blocks? ==> !Runnable(s, s.current) && !s.procs[s.current].isIdle
    case OpKill(pid, sig) => KillOk(s, pid, sig) && sig == SIGKILL ==> !Runnable(s, Find(s, pid).value)
    case OpSetPriority(pid, priority) =>
      pid > 0 && priority < LEVELS && Find(s, pid).Some? ==> CanReprioritize(s.procs[Find(s, pid).value])
    case _ => true
  }

  lemma WaitKeeps(s: Sys, callerPid: int, target: int, noHang: bool)
    requires Inv(s) && Allowed(s, OpWait(callerPid, target, noHang))
    ensures Inv(Wait(s, callerPid, target, noHang))
  {
    var caller := Find(s, callerPid);
    if caller.Some? {
      var child := FirstZombie(s, caller.value, target, s.procs[caller.value].children);
      hide QueuesOk, TableOk, PidsOk, FamilyOk, NobodyOverslept;
      if child.Some? {
        ReapKeeps(s, caller.value, child.value);
      } else if WaitAnswer(s, callerPid, target, noHang).Blocks? {
        CurrentIsCaller(s, caller.value);
        BlockKeeps(s, target);
      } else {
        StopWaiting(s, caller.value);
      }
    }
  }

  lemma ExitKeeps(s: Sys, code: int)
    requires Inv(s) && !Runnable(s, s.current)
    ensures Inv(Exit(s, code))
  {
    assert SlotOk(s, s.current);
    if s.procs[s.current].used {
      MarkZombieKeeps(s, s.current, ExitStatus(code));
    }
  }

  lemma KillKeeps(s: Sys, pid: int, sig: int)
    requires Inv(s) && Allowed(s, OpKill(pid, sig))
    ensures Inv(Kill(s, pid, sig))
  {
    if KillOk(s, pid, sig) {
      var p := Find(s, pid).value;
      hide QueuesOk, TableOk, PidsOk, FamilyOk, NobodyOverslept;
      if sig == SIGKILL {
        MarkZombieKeeps(s, p, SignalStatus(sig));
      } else {
        SignalKeeps(s, p, sig);
      }
    }
  }

  lemma YieldKeeps(s: Sys)
    requires Inv(s)
    ensures Inv(Yield(s))
  {
    assert SlotOk(s, s.current);
    QuietKeeps(s, s.current, s.procs[s.current].(timeSlice := 0));
  }

  lemma SpawnKeeps(s: Sys)
    requires Inv(s)
    ensures Inv(Spawn(s))
  {
    SpawnQueues(s);
    SpawnTables(s);
    SpawnFamily(s);
    SpawnSleepers(s);
  }

  lemma SetMaskKeeps(s: Sys, pid: int, how: int, signals: set<nat>)
    requires Inv(s)
    ensures Inv(SetMask(s, pid, how, signals))
  {
    var found := Find(s, pid);
    if found.Some? {
      assert SlotOk(s, found.value);
      QuietKeeps(s, found.value, s.procs[found.value].(mask := NewMask(s.procs[found.value].mask, how, signals)));
    }
  }

  lemma RegisterKeeps(s: Sys, pid: int, sig: nat, handler: nat)
    requires Inv(s)
    ensures Inv(Register(s, pid, sig, handler))
  {
    var found := Find(s, pid);
    if found.Some? {
      assert SlotOk(s, found.value);
      QuietKeeps(s, found.value, s.procs[found.value].(handlers := s.procs[found.value].handlers[sig := handler]));
    }
  }

  lemma AllowedKeeps(s: Sys, op: Op)
    requires Inv(s) && Allowed(s, op)
    ensures Inv(Apply(s, op))
  {
    match op
    case OpTick => TickKeeps(s);
    case OpYield => YieldKeeps(s);
    case OpSpawn => SpawnKeeps(s);
    case OpExit(code) => ExitKeeps(s, code);
    case OpWait(caller, target, noHang) => WaitKeeps(s, caller, target, noHang);
    case OpKill(pid, sig) => KillKeeps(s, pid, sig);
    case OpSetPriority(pid, priority) => SetPriorityKeeps(s, pid, priority);
    case OpSetMask(pid, how, signals) => SetMaskKeeps(s, pid, how, signals);
    case OpRegister(pid, sig, handler) => RegisterKeeps(s, pid, sig, handler);
  }

  /** A dead process left on a queue breaks the queues. */
  lemma QueuedZombieBreaks(s: Sys, p: nat, status: nat)
    requires Inv(s) && Runnable(s, p)
    ensures !Inv(MarkZombie(s, p, status))
  {
    var s1 := Update(s, p, s.procs[p].(state := Zombie, waitStatus := status));
    var t := MarkZombie(s, p, status);
    var lv := s.procs[p].priority;
    assert p in s1.queues[lv] && t == WakeParent(s1, p);
    assert p in t.queues[lv] && t.procs[p].state == Zombie;
    assert !Runnable(t, p);
  }

  lemma QueuedSleeperBreaks(s: Sys, target: int)
    requires Inv(s) && (Runnable(s, s.current) || s.procs[s.current].isIdle)
    ensures !Inv(Update(s, s.current, s.procs[s.current].(state := Blocked, waiting := Some(target))))
  {
    var t := Update(s, s.current, s.procs[s.current].(state := Blocked, waiting := Some(target)));
    assert SlotOk(s, s.current);
    if Runnable(s, s.current) {
      assert s.current in t.queues[s.procs[s.current].priority];
      assert !Runnable(t, s.current);
    }
  }

  lemma QueuedIdleBreaks(s: Sys, pid: int, priority: nat)
    requires Inv(s) && pid > 0 && priority < LEVELS && Find(s, pid).Some?
    requires s.procs[Find(s, pid).value].isIdle && s.procs[Find(s, pid).value].state == Ready
    ensures !Inv(SetPriority(s, pid, priority))
  {
    var p, t := Find(s, pid).value, SetPriority(s, pid, priority);
    assert t.queues[priority][|t.queues[priority]| - 1] == p;
    assert p in t.queues[priority] && !Runnable(t, p);
  }

  /** The invariant survives a step exactly when the step is an allowed one. */
  lemma StepKeepsExactlyIfAllowed(s: Sys, op: Op)
    requires Inv(s)
    ensures Inv(Apply(s, op)) <==> Allowed(s, op)
  {
    if Allowed(s, op) {
      AllowedKeeps(s, op);
    } else {
      match op
      case OpExit(code) => QueuedZombieBreaks(s, s.current, ExitStatus(code));
      case OpWait(caller, target, noHang) => QueuedSleeperBreaks(s, target);
      case OpKill(pid, sig) => QueuedZombieBreaks(s, Find(s, pid).value, SignalStatus(sig));
      case OpSetPriority(pid, priority) => QueuedIdleBreaks(s, pid, priority);
    }
  }

  // ---- runs ----

  /** Nobody enters or leaves waitpid. */
  ghost predicate SameTargets(s: Sys, t: Sys)
    requires Sized(s) && Sized(t)
  {
    forall p: nat {:trigger t.procs[p]} | p < MAX_PROCS :: t.procs[p].waiting == s.procs[p].waiting
  }

  lemma MarkZombieTargets(s: Sys, p: nat, status: nat)
    requires Sized(s) && p < MAX_PROCS
    ensures SameTargets(s, MarkZombie(s, p, status))
  {
    hide Find;
  }

  lemma DeliverTargets(s: Sys, p: nat)
    requires Sized(s) && p < MAX_PROCS
    ensures SameTargets(s, Deliver(s, p))
  {
    var sig := LowestFrom(s.procs[p].pending - s.procs[p].mask, 1);
    if sig.Some? {
      MarkZombieTargets(Update(s, p, s.procs[p].(pending := s.procs[p].pending - {sig.value})), p,
        SignalStatus(sig.value));
    }
    hide MarkZombie, LowestFrom;
  }

  lemma SameTwice(s: Sys, t: Sys, u: Sys)
    requires Sized(s) && Sized(t) && Sized(u) && (SameTargets(s, t) || t == s) && (SameTargets(t, u) || u == t)
    ensures SameTargets(s, u)
  {
    assert forall p: nat | p < MAX_PROCS :: u.procs[p].waiting == t.procs[p].waiting;
  }

  lemma AccountTargets(s: Sys)
    requires Sized(s)
    ensures SameTargets(s, Account(s))
  {
    hide BestFrom;
  }

  lemma DispatchTargets(s: Sys)
    requires Sized(s)
    ensures SameTargets(s, Dispatch(s))
  {
    var best := BestFrom(s.queues, 0);
    assert best < LEVELS ==> s.queues[best][0] in s.queues[best];
    hide BestFrom, Rest;
  }

  lemma TickTargets(s: Sys)
    requires Sized(s)
    ensures SameTargets(s, Tick(s))
  {
    hide Deliver, Account, Dispatch, SameTargets;
    var s1 := if s.procs[s.current].state == Running then Deliver(s, s.current) else s;
    var s2 := Charge(s);
    DeliverTargets(s, s.current);
    AccountTargets(s1);
    DispatchTargets(s2);
    SameTwice(s, s1, s2);
    SameTwice(s, s2, Dispatch(s2));
  }

  lemma KillTargets(s: Sys, pid: int, sig: int)
    requires Sized(s)
    ensures SameTargets(s, Kill(s, pid, sig))
  {
    if KillOk(s, pid, sig) {
      MarkZombieTargets(s, Find(s, pid).value, SignalStatus(sig));
    }
    hide MarkZombie, Find;
  }

  /** Whoever is inside waitpid stays there with the target of its call: no step but one of its own takes
      the target away. */
  lemma OthersKeepTargets(s: Sys, op: Op, p: nat)
    requires Sized(s) && p < MAX_PROCS && s.procs[p].used && p != s.current
    ensures Apply(s, op).procs[p].waiting == s.procs[p].waiting
  {
    match op
    case OpTick => TickTargets(s);
    case OpExit(code) => MarkZombieTargets(s, s.current, ExitStatus(code));
    case OpKill(pid, sig) => KillTargets(s, pid, sig);
    case _ => hide Find, FirstZombie, FreeSlotFrom, RemoveFrom;
  }

  function Run(s: Sys, ops: seq<Op>): (t: Sys)
    requires Sized(s)
    ensures Sized(t)
    decreases |ops|
  {
    if ops == [] then s else Run(Apply(s, ops[0]), ops[1..])
  }

  predicate RunAllowed(s: Sys, ops: seq<Op>)
    requires Sized(s)
    decreases |ops|
  {
    ops == [] || (Allowed(s, ops[0]) && RunAllowed(Apply(s, ops[0]), ops[1..]))
  }

  lemma {:induction false} RunKeeps(s: Sys, ops: seq<Op>)
    requires Inv(s) && RunAllowed(s, ops)
    ensures Inv(Run(s, ops))
    decreases |ops|
  {
    if ops != [] {
      AllowedKeeps(s, ops[0]);
      RunKeeps(Apply(s, ops[0]), ops[1..]);
    }
  }

  lemma InitialShape()
    ensures var s := Initial();
      Sized(s) && s.current == 0 && s.idle == 1 && s.nextPid == 3 &&
      s.procs[0].used && s.procs[0].pid == 1 && s.procs[0].state == Blocked && s.procs[0].waiting.None? &&
      s.procs[1].used && s.procs[1].pid == 2 && s.procs[1].state == Ready && s.procs[1].isIdle &&
        s.procs[1].ppid == 0 &&
      (forall p: nat {:trigger s.procs[p]} | p < MAX_PROCS :: SlotOk(s, p) && s.procs[p].children == []) &&
      (forall p: nat {:trigger s.procs[p]} | 2 <= p < MAX_PROCS :: s.procs[p] == CLEARED) &&
      (forall lv: nat {:trigger s.queues[lv]} | lv < LEVELS :: s.queues[lv] == [])
  {
    var s := Initial();
    assert forall p: nat {:trigger s.procs[p]} | 2 <= p < MAX_PROCS :: s.procs[p] == CLEARED;
    forall p: nat | p < MAX_PROCS ensures SlotOk(s, p) && s.procs[p].children == [] {
      assert p == 0 || p == 1 || s.procs[p] == CLEARED;
    }
  }

  lemma InitialInv()
    ensures Inv(Initial())
  {
    InitialShape();
    hide Initial, SlotOk;
    var s := Initial();
    forall p: nat | p < MAX_PROCS ensures SlotOk(s, p) && !Runnable(s, p) {
      assert s.procs[p] == s.procs[p];
    }
  }

  /** In every reachable state the queues hold exactly the ready processes, each once, and nobody
      sleeps in waitpid past a zombie child that matches the call, whatever its target form. */
  lemma ReachableStates(ops: seq<Op>)
    requires RunAllowed(Initial(), ops)
    ensures
      var s := Run(Initial(), ops);
      (forall lv: nat, p: nat | lv < LEVELS ::
         p in s.queues[lv] <==> Runnable(s, p) && s.procs[p].priority == lv) &&
      (forall p: nat | Runnable(s, p) :: s.procs[p].priority < LEVELS) &&
      (forall lv: nat | lv < LEVELS :: Distinct(s.queues[lv])) &&
      (forall p: nat, c: nat | p < MAX_PROCS && c < MAX_PROCS :: !Overslept(s, p, c))
  {
    InitialInv();
    RunKeeps(Initial(), ops);
  }

  // ---- the breaking steps are within reach ----

  /** After its first spawn the bootstrap process has one ready child, in slot 2 and with pid 3. */
  lemma FirstSpawn()
    ensures
      Sized(Initial()) && var s := Apply(Initial(), OpSpawn);
      Sized(s) && !s.procs[0].isIdle && s.current == 0 &&
      Runnable(s, 2) && Find(s, 3) == Some(2) && Find(s, 1) == Some(0) && s.procs[2].pid == 3 &&
      s.procs[0].used && s.procs[0].pid == 1 && s.procs[0].children == [2] && s.procs[0].state == Blocked
  {
    InitialShape();
    var s0 := Initial();
    var free := FreeSlotFrom(s0.procs, 0);
    assert !s0.procs[2].used;
    assert free == Some(2);
    hide FreeSlotFrom, Initial;
  }

  lemma OneStep(s: Sys, op: Op)
    requires Sized(s) && Allowed(s, op)
    ensures RunAllowed(s, [op]) && Run(s, [op]) == Apply(s, op)
  {
    assert [op][1..] == [];
  }

  /** SIGKILL for the first process spawned, while it waits on its queue, breaks the queues. */
  lemma KillReachesBreak()
    ensures RunAllowed(Initial(), [OpSpawn])
    ensures
      var s := Run(Initial(), [OpSpawn]);
      !Allowed(s, OpKill(3, SIGKILL)) && Inv(s) && !Inv(Apply(s, OpKill(3, SIGKILL)))
  {
    FirstSpawn();
    hide Inv, Initial, Spawn;
    OneStep(Initial(), OpSpawn);
    InitialInv();
    RunKeeps(Initial(), [OpSpawn]);
    var s := Run(Initial(), [OpSpawn]);
    StepKeepsExactlyIfAllowed(s, OpKill(3, SIGKILL));
  }

  /** A process that sends itself a signal while it is blocked is queued, and waitpid then puts it to sleep there. */
  lemma WaitReachesBreak()
    ensures RunAllowed(Initial(), [OpSpawn, OpKill(1, 10)])
    ensures
      var s := Run(Initial(), [OpSpawn, OpKill(1, 10)]);
      !Allowed(s, OpWait(1, -1, false)) && Inv(s) && !Inv(Apply(s, OpWait(1, -1, false)))
  {
    FirstSpawn();
    hide Inv, Spawn;
    var s1 := Apply(Initial(), OpSpawn);
    var s := Apply(s1, OpKill(1, 10));
    OneStep(s1, OpKill(1, 10));
    assert [OpSpawn, OpKill(1, 10)][1..] == [OpKill(1, 10)];
    InitialInv();
    RunKeeps(Initial(), [OpSpawn, OpKill(1, 10)]);
    QueuedCaller(s1);
    StepKeepsExactlyIfAllowed(s, OpWait(1, -1, false));
  }

  lemma QueuedCaller(s1: Sys)
    requires Sized(s1) && s1.current == 0 && Find(s1, 1) == Some(0) && s1.procs[0].used && s1.procs[0].pid == 1
    requires s1.procs[0].children == [2] && s1.procs[0].state == Blocked && s1.procs[2].state == Ready
    requires !s1.procs[0].isIdle
    ensures !Allowed(Apply(s1, OpKill(1, 10)), OpWait(1, -1, false))
  {}

  /** Setting the priority of the idle process right after boot queues it. */
  lemma PriorityReachesBreak()
    ensures !Allowed(Initial(), OpSetPriority(2, 0)) && Inv(Initial()) && !Inv(Apply(Initial(), OpSetPriority(2, 0)))
  {
    InitialShape();
    InitialInv();
    var found := Find(Initial(), 2);
    assert Initial().procs[1].used && found == Some(1);
    StepKeepsExactlyIfAllowed(Initial(), OpSetPriority(2, 0));
    hide Inv, Initial, Apply;
  }
}
