/** The scheduler of proc/process.c over its real tables: the process array and the linked run queues.
    Every call is proved to do what the state machine does. */
module Process {
  import opened Basics
  import opened Options
  import opened SchedModel
  import opened SchedInvariant
  import opened RunQueue

  ghost predicate NotQueued(s: Sys, p: nat)
    requires Sized(s)
  {
    forall lv: nat {:trigger s.queues[lv]} | lv < LEVELS :: p !in s.queues[lv]
  }

  lemma UnrunnableNotQueued(s: Sys, p: nat)
    requires Sized(s) && QueuesOk(s) && !Runnable(s, p)
    ensures NotQueued(s, p)
  {}

  lemma PushableAt(s: Sys, p: nat)
    requires Sized(s) && NotQueued(s, p)
    ensures forall lv: nat | lv < LEVELS :: p !in s.queues[lv]
  {}

  lemma RunningUnqueued(s: Sys)
    requires Inv(s) && s.current < MAX_PROCS && s.current < |s.procs| && s.procs[s.current].state == Running
    ensures Sized(s) && NotQueued(s, s.current)
  {
    assert SlotOk(s, s.current);
    UnrunnableNotQueued(s, s.current);
  }

  /** The processes that may be dispatched are in the table. */
  lemma BestHead(s: Sys)
    requires Sized(s)
    ensures s.idle < MAX_PROCS
    ensures var best := BestFrom(s.queues, 0); best < LEVELS ==>
      s.queues[best] != [] && s.queues[best][0] < MAX_PROCS &&
        Sized(s.(queues := s.queues[best := Rest(s.queues[best])]))
  {
    var best := BestFrom(s.queues, 0);
    assert best < LEVELS ==> s.queues[best][0] in s.queues[best];
  }

  /** Whoever sleeps is on no queue. */
  ghost predicate SleepersUnqueued(s: Sys)
    requires Sized(s)
  {
    forall p: nat {:trigger s.procs[p]} | p < MAX_PROCS && s.procs[p].state == Blocked :: NotQueued(s, p)
  }

  /** That stays so when a process dies, also one that is on a queue. */
  lemma SleepersStayUnqueued(s: Sys, p: nat, r: Proc)
    requires Sized(s) && QueuesOk(s) && p < MAX_PROCS && r.state == Zombie && r.children == s.procs[p].children
    ensures SleepersUnqueued(Update(s, p, r))
  {
    forall q: nat | q < MAX_PROCS && q != p && s.procs[q].state == Blocked ensures NotQueued(s, q) {
      UnrunnableNotQueued(s, q);
    }
  }

  class Scheduler {
    const procs: array<Proc>
    const rq: RunQueues
    var current: nat
    var idle: nat
    var nextPid: nat

    ghost const Repr: set<object>

    ghost function View(): Sys
      reads this, procs, rq`queues
    {
      Sys(procs[..], rq.queues, current, idle, nextPid)
    }

    ghost predicate Wired()
      reads this, procs, rq, rq.next, rq.next2, rq.prev, rq.head, rq.tail
    {
      Repr == {this, procs, rq, rq.next, rq.next2, rq.prev, rq.head, rq.tail} &&
      procs as object !in {rq.next, rq.next2, rq.prev, rq.head, rq.tail} &&
      procs.Length == MAX_PROCS && rq.Valid() && Sized(View())
    }

    ghost predicate Valid()
      reads this, procs, rq, rq.next, rq.next2, rq.prev, rq.head, rq.tail
    {
      Wired() && Inv(View())
    }

    /** process_init. */
    constructor ()
      ensures Valid() && View() == Initial() && fresh(Repr)
    {
      var table := new Proc[MAX_PROCS](_ => CLEARED);
      table[0] := CLEARED.(used := true, pid := 1, pgid := 1, state := Blocked,
                           priority := DEFAULT_PRIORITY, timeSlice := TIMESLICE);
      table[1] := CLEARED.(used := true, pid := 2, pgid := 2, state := Ready, isIdle := true,
                           priority := DEFAULT_PRIORITY, timeSlice := TIMESLICE);
      var queues := new RunQueues();
      procs, rq, current, idle, nextPid := table, queues, 0, 1, 3;
      Repr := {this, table, queues, queues.next, queues.next2, queues.prev, queues.head, queues.tail};
      new;
      assert procs[..] == Initial().procs;
      assert rq.queues == Initial().queues;
      InitialInv();
      hide QueuesOk, TableOk, PidsOk, FamilyOk, NobodyOverslept, RunQueues.Valid, Initial;
      assert View() == Initial() && Wired();
    }

    method FindByPid(pid: int) returns (r: Option<nat>)
      requires Wired()
      ensures r == Find(View(), pid)
    {
      for i := 0 to MAX_PROCS
        invariant FindFrom(procs[..], pid, 0) == FindFrom(procs[..], pid, i)
      {
        if procs[i].used && procs[i].pid == pid {
          return Some(i);
        }
      }
      return None;
    }

    method SetProc(p: nat, r: Proc)
      requires Wired() && p < MAX_PROCS && r.children == procs[p].children
      modifies procs
      ensures Wired() && View() == Update(old(View()), p, r)
    {
      procs[p] := r;
    }

    method SetFamily(p: nat, r: Proc)
      requires Wired() && p < MAX_PROCS && forall c | c in r.children :: c < MAX_PROCS
      modifies procs
      ensures Wired() && View() == Update(old(View()), p, r)
    {
      procs[p] := r;
    }

    method Wake(p: nat)
      requires Wired() && p < MAX_PROCS && (procs[p].state == Blocked ==> NotQueued(View(), p))
      modifies Repr
      ensures Wired() && View() == SchedModel.Wake(old(View()), p)
    {
      if procs[p].state == Blocked {
        SetProc(p, procs[p].(state := Ready));
        rq.Push(p, procs[p].priority);
      }
    }

    method WakeParent(child: nat)
      requires Wired() && child < MAX_PROCS && SleepersUnqueued(View())
      modifies Repr
      ensures Wired() && View() == SchedModel.WakeParent(old(View()), child)
    {
      if procs[child].ppid == 0 {
        return;
      }
      var parent := FindByPid(procs[child].ppid);
      if parent.None? {
        return;
      }
      Wake(parent.value);
    }

    method MarkZombie(p: nat, status: nat)
      requires Wired() && QueuesOk(View()) && p < MAX_PROCS
      modifies Repr
      ensures Wired() && View() == SchedModel.MarkZombie(old(View()), p, status)
    {
      if procs[p].state == Zombie || procs[p].state == Dead {
        return;
      }
      SleepersStayUnqueued(View(), p, procs[p].(state := Zombie, waitStatus := status));
      SetProc(p, procs[p].(state := Zombie, waitStatus := status));
      WakeParent(p);
    }

    method PickLowest(signals: set<nat>) returns (r: Option<nat>)
      ensures r == LowestFrom(signals, 1)
    {
      for sig := 1 to MAX_SIGNALS
        invariant LowestFrom(signals, 1) == LowestFrom(signals, sig)
      {
        if sig in signals {
          return Some(sig);
        }
      }
      return None;
    }

    /** prepare_signal_action_locked, on the process that runs. */
    method PrepareSignal(p: nat)
      requires Valid() && p < MAX_PROCS && procs[p].state == Running
      modifies Repr
      ensures Valid() && View() == Deliver(old(View()), p)
    {
      DeliverKeeps(View(), p);
      var sig := PickLowest(procs[p].pending - procs[p].mask);
      if sig.None? {
        return;
      }
      ghost var r := procs[p].(pending := procs[p].pending - {sig.value});
      assert SlotOk(View(), p);
      QuietUpdate(View(), p, r);
      var handler := HandlerOf(procs[p], sig.value);
      SetProc(p, procs[p].(pending := procs[p].pending - {sig.value}));
      if handler == SIG_IGN {
        return;
      }
      if handler == SIG_DFL || sig.value == SIGKILL || sig.value == SIGINT {
        MarkZombie(p, SignalStatus(sig.value));
      }
    }

    /** process_schedule_tick. */
    method ScheduleTick()
      requires Valid()
      modifies Repr
      ensures Valid() && View() == Tick(old(View()))
    {
      TickKeeps(View());
      ghost var s := View();
      if procs[current].state == Running {
        PrepareSignal(current);
        DeliverKeeps(s, s.current);
      }
      ghost var s1 := View();
      if procs[current].state == Running {
        var stays := AccountCurrent();
        if stays {
          return;
        }
      }
      ChargeKeeps(s);
      assert View() == Charge(s);
      RunNext();
    }

    lemma CurrentInTable()
      requires Wired()
      ensures Sized(View()) && current < MAX_PROCS && View().procs[View().current] == procs[current]
    {}

    /** The accounting for a running process; answers whether it keeps the processor. */
    method AccountCurrent() returns (stays: bool)
      requires Valid() && procs[current].state == Running
      modifies Repr
      ensures Valid() && View() == Account(old(View()))
      ensures stays <==> procs[current].state == Running
      ensures !stays ==> procs[current].state == Ready
    {
      hide Inv, Sized, RunQueues.Valid, BestFrom, NotQueued;
      CurrentInTable();
      AccountKeeps(View());
      RunningUnqueued(View());
      PushableAt(View(), current);
      var cur := procs[current];
      var best := rq.BestPriority();
      var slice := if cur.timeSlice > 0 then cur.timeSlice - 1 else 0;
      if cur.isIdle {
        SetProc(current, cur.(state := Ready));
        return false;
      }
      if slice > 0 && (best == LEVELS || cur.priority <= best) {
        SetProc(current, cur.(timeSlice := slice));
        return true;
      }
      SetProc(current, cur.(state := Ready, timeSlice := TIMESLICE));
      rq.Push(current, cur.priority);
      return false;
    }

    /** Hands the processor to the head of the best queue, or to the idle process. */
    method RunNext()
      requires Valid() && procs[current].state != Running
      modifies Repr
      ensures Valid() && View() == Dispatch(old(View()))
    {
      hide Inv, Sized, RunQueues.Valid, BestFrom;
      CurrentInTable();
      DispatchKeeps(View());
      BestHead(View());
      ghost var s := View();
      var popped := rq.Pop();
      assert View() == if popped == NIL then s else s.(queues := rq.queues);
      var next := if popped == NIL then idle else popped;
      SetProc(next, procs[next].(state := Running));
      current := next;
    }

    /** process_yield, up to the tick it raises. */
    method YieldSlice()
      requires Valid()
      modifies Repr
      ensures Valid() && View() == Yield(old(View()))
    {
      YieldKeeps(View());
      hide Inv;
      SetProc(current, procs[current].(timeSlice := 0));
    }

    method FreeSlot() returns (r: Option<nat>)
      requires Wired()
      ensures r == FreeSlotFrom(procs[..], 0)
    {
      for i := 0 to MAX_PROCS
        invariant FreeSlotFrom(procs[..], 0) == FreeSlotFrom(procs[..], i)
      {
        if !procs[i].used {
          return Some(i);
        }
      }
      return None;
    }

    /** process_spawn_kernel, with memory for the new process at hand. */
    method SpawnKernel() returns (slot: Option<nat>)
      requires Valid()
      modifies Repr
      ensures Valid() && View() == Spawn(old(View()))
      ensures slot.Some? <==> exists p :: 0 <= p < MAX_PROCS && !old(procs[..])[p].used
    {
      SpawnKeeps(View());
      slot := FreeSlot();
      FreeSlotComplete(procs[..], 0);
      if slot.None? {
        return;
      }
      var p := slot.value;
      assert SlotOk(View(), p);
      UnrunnableNotQueued(View(), p);
      hide Inv;
      FillSlot(p);
    }

    /** create_kernel_process_locked, in the slot chosen. */
    method FillSlot(p: nat)
      requires Wired() && FreeSlotFrom(procs[..], 0) == Some(p) && NotQueued(View(), p)
      modifies Repr
      ensures Wired() && View() == Spawn(old(View()))
    {
      assert current < MAX_PROCS;
      hide RunQueues.Valid, FreeSlotFrom, Sized;
      SetFamily(p, CLEARED.(used := true, pid := nextPid));
      var pid := nextPid;
      nextPid := nextPid + 1;
      var parent := procs[current];
      SetFamily(p, CLEARED.(used := true, pid := pid, ppid := parent.pid, pgid := pid, state := Ready,
                            priority := parent.priority, timeSlice := TIMESLICE));
      KidsInTable(View(), current);
      SetFamily(current, procs[current].(children := [p] + procs[current].children));
      rq.Push(p, procs[p].priority);
    }

    /** process_exit_current. The state stays valid exactly when the process is on no queue. */
    method ExitCurrent(code: int)
      requires Valid()
      modifies Repr
      ensures Wired() && View() == Exit(old(View()), code)
      ensures Valid() <==> Allowed(old(View()), OpExit(code))
    {
      StepKeepsExactlyIfAllowed(View(), OpExit(code));
      MarkZombie(current, ExitStatus(code));
    }

    /** process_kill. The state stays valid exactly unless SIGKILL hits a process that is on a queue. */
    method KillPid(pid: int, sig: int) returns (rc: int)
      requires Valid()
      modifies Repr
      ensures Wired() && View() == Kill(old(View()), pid, sig)
      ensures Valid() <==> Allowed(old(View()), OpKill(pid, sig))
      ensures rc == if KillOk(old(View()), pid, sig) || (sig == 0 && KillOk(old(View()), pid, 1)) then 0 else -1
    {
      StepKeepsExactlyIfAllowed(View(), OpKill(pid, sig));
      if pid <= 0 {
        return -1;
      }
      var found := FindByPid(pid);
      if found.None? || procs[found.value].state == Dead {
        return -1;
      }
      if sig == 0 {
        return 0;
      }
      if sig <= 0 || sig >= MAX_SIGNALS {
        return -1;
      }
      var p := found.value;
      if sig == SIGKILL {
        MarkZombie(p, SignalStatus(sig));
      } else {
        UnrunnableIfBlocked(View(), p);
        SetProc(p, procs[p].(pending := procs[p].pending + {sig}));
        Wake(p);
      }
      return 0;
    }

    /** process_set_priority. The state stays valid exactly unless this puts the idle process on a queue. */
    method SetPriorityOf(pid: int, priority: nat) returns (rc: int)
      requires Valid()
      modifies Repr
      ensures Wired() && View() == SetPriority(old(View()), pid, priority)
      ensures Valid() <==> Allowed(old(View()), OpSetPriority(pid, priority))
      ensures rc == if PriorityOk(old(View()), pid, priority) then 0 else -1
    {
      StepKeepsExactlyIfAllowed(View(), OpSetPriority(pid, priority));
      if pid <= 0 || priority >= LEVELS {
        return -1;
      }
      var found := FindByPid(pid);
      if found.None? || procs[found.value].state == Dead {
        return -1;
      }
      var p := found.value;
      if procs[p].state == Ready {
        OffItsQueue(View(), p);
        hide Inv, RunQueues.Valid, Sized, RemoveFrom;
        rq.Remove(p, procs[p].priority);
        SetProc(p, procs[p].(priority := priority));
        rq.Push(p, priority);
      } else {
        SetProc(p, procs[p].(priority := priority));
      }
      return 0;
    }

    /** process_signal_mask. */
    method SetSignalMask(pid: int, how: int, signals: set<nat>) returns (rc: int)
      requires Valid()
      modifies Repr
      ensures Valid() && View() == SetMask(old(View()), pid, how, signals)
      ensures rc == if Find(old(View()), pid).Some? && how in {SIG_BLOCK, SIG_UNBLOCK, SIG_SETMASK} then 0 else -1
    {
      SetMaskKeeps(View(), pid, how, signals);
      hide Inv;
      var found := FindByPid(pid);
      if found.None? {
        return -1;
      }
      var mask := procs[found.value].mask;
      if how == SIG_BLOCK {
        mask := mask + signals;
      } else if how == SIG_UNBLOCK {
        mask := mask - signals;
      } else if how == SIG_SETMASK {
        mask := signals;
      } else {
        return -1;
      }
      SetProc(found.value, procs[found.value].(mask := mask - {SIGKILL}));
      return 0;
    }

    /** process_signal_register. */
    method RegisterHandler(pid: int, sig: nat, handler: nat) returns (rc: int)
      requires Valid()
      modifies Repr
      ensures Valid() && View() == Register(old(View()), pid, sig, handler)
      ensures rc == 0 <==>
        0 < sig < MAX_SIGNALS && (sig == SIGKILL ==> handler == SIG_DFL) && Find(old(View()), pid).Some?
    {
      RegisterKeeps(View(), pid, sig, handler);
      hide Inv;
      if sig == 0 || sig >= MAX_SIGNALS {
        return -1;
      }
      if sig == SIGKILL && handler != SIG_DFL {
        return -1;
      }
      var found := FindByPid(pid);
      if found.None? {
        return -1;
      }
      SetProc(found.value, procs[found.value].(handlers := procs[found.value].handlers[sig := handler]));
      return 0;
    }

    /** The caller's record once its call is over. */
    function Over(caller: nat): Proc
      requires caller < procs.Length
      reads `current, procs
    {
      if caller == current then procs[caller].(waiting := None) else procs[caller]
    }

    /** parent_unlink_child_locked, then reset_process_slot_locked. */
    method ReapChild(caller: nat, child: nat)
      requires Wired() && caller < MAX_PROCS && child < MAX_PROCS
      modifies Repr
      ensures Wired() && View() == Reap(old(View()), caller, child)
    {
      KidsInTable(View(), caller);
      hide RunQueues.Valid, Sized;
      SetFamily(caller, Over(caller).(children := RemoveFrom(procs[caller].children, child)));
      SetFamily(child, procs[child].(used := false, state := Dead, children := []));
    }

    /** One pass of the loop in process_waitpid, under one hold of the lock. The state stays valid
        exactly unless this puts the idle process, or one that is on a queue, to sleep. */
    method WaitPass(callerPid: int, target: int, noHang: bool) returns (r: WaitResult)
      requires Valid()
      modifies Repr
      ensures Wired() && View() == Wait(old(View()), callerPid, target, noHang)
      ensures Valid() <==> Allowed(old(View()), OpWait(callerPid, target, noHang))
      ensures r == WaitAnswer(old(View()), callerPid, target, noHang)
    {
      StepKeepsExactlyIfAllowed(View(), OpWait(callerPid, target, noHang));
      hide Inv, RunQueues.Valid, Sized, Matches, FirstZombie, Reap;
      var found := FindByPid(callerPid);
      if found.None? {
        return NoChild;
      }
      var caller := found.value;
      var child, matched := ScanChildren(caller, target);
      if child.Some? {
        KidsInTable(View(), caller);
        r := Reaped(procs[child.value].pid, procs[child.value].waitStatus);
        ReapChild(caller, child.value);
        return;
      }
      if matched && !noHang && procs[current].pid == procs[caller].pid {
        SetProc(current, procs[current].(state := Blocked, waiting := Some(target)));
        return Blocks;
      }
      r := if !matched then NoChild else if noHang then NotYet else NotCurrent;
      SetProc(caller, Over(caller));
    }

    /** The walk along the child list: the first matching zombie, and whether any child matches. */
    method ScanChildren(caller: nat, target: int) returns (child: Option<nat>, matched: bool)
      requires Wired() && caller < MAX_PROCS
      ensures child == FirstZombie(View(), caller, target, procs[caller].children)
      ensures child.None? ==>
        (matched <==> exists c :: c in procs[caller].children && Matches(procs[caller], procs[c], target))
    {
      var kids := procs[caller].children;
      var rest := kids;
      matched := false;
      while rest != []
        invariant forall c | c in rest :: c in kids
        invariant FirstZombie(View(), caller, target, kids) == FirstZombie(View(), caller, target, rest)
        invariant matched ==> exists c :: c in kids && Matches(procs[caller], procs[c], target)
        invariant forall c | c in kids && Matches(procs[caller], procs[c], target) :: matched || c in rest
        decreases |rest|
      {
        var c := rest[0];
        assert c in rest && c in kids;
        if Matches(procs[caller], procs[c], target) {
          matched := true;
          if procs[c].state == Zombie {
            return Some(c), true;
          }
        }
        assert rest == [c] + Rest(rest);
        rest := Rest(rest);
      }
      return None, matched;
    }
  }

  /** A ready process is on no queue once it has been taken off its own; the idle process was on none. */
  lemma OffItsQueue(s: Sys, p: nat)
    requires Inv(s) && p < MAX_PROCS && s.procs[p].used && s.procs[p].state == Ready
    ensures Unqueue(s, p).procs == s.procs && NotQueued(Unqueue(s, p), p)
  {
    if Runnable(s, p) {
      UnqueueExact(s, p);
    } else {
      UnrunnableNotQueued(s, p);
      RemoveAbsent(s.queues[Level(s.procs[p].priority)], p);
    }
  }

  lemma KidsInTable(s: Sys, p: nat)
    requires Sized(s) && p < MAX_PROCS
    ensures forall c | c in s.procs[p].children :: c < MAX_PROCS
  {}

  lemma FreeSlotComplete(procs: seq<Proc>, i: nat)
    requires i <= |procs|
    ensures FreeSlotFrom(procs, i).Some? <==> exists p :: i <= p < |procs| && !procs[p].used
    decreases |procs| - i
  {
    if i < |procs| {
      FreeSlotComplete(procs, i + 1);
    }
  }

  lemma UnrunnableIfBlocked(s: Sys, p: nat)
    requires Sized(s) && QueuesOk(s) && p < MAX_PROCS
    ensures s.procs[p].state == Blocked ==> NotQueued(s, p)
  {
    if s.procs[p].state == Blocked {
      UnrunnableNotQueued(s, p);
    }
  }
}
