/** What the calls of the scheduler mean to the processes that make them, over whole runs (proc/process.c): the
    status a parent gets, what signals and masks do, who keeps the processor and for how long. The numbers that the
    interface fixes are written out. */
module SchedLaws {
  import opened Options
  import opened SchedModel
  import opened SchedInvariant

  // ---- the status of a child ----

  /** Whoever in the table has that pid is a dead process with that status. */
  ghost predicate Ended(s: Sys, pid: nat, status: nat) {
    Sized(s) && 0 < pid < s.nextPid &&
    forall p: nat {:trigger s.procs[p]} | p < MAX_PROCS && s.procs[p].used && s.procs[p].pid == pid ::
      s.procs[p].state == Zombie && !s.procs[p].isIdle && s.procs[p].waitStatus == status
  }

  /** Nobody joins or leaves the table, and the dead stay as they are, but for the idle process. */
  ghost predicate DeadStay(s: Sys, t: Sys) {
    Sized(s) && Sized(t) && t.nextPid == s.nextPid &&
    forall p: nat {:trigger t.procs[p]} | p < MAX_PROCS ::
      t.procs[p].used == s.procs[p].used && t.procs[p].pid == s.procs[p].pid &&
      t.procs[p].isIdle == s.procs[p].isIdle &&
      (s.procs[p].state == Zombie && !s.procs[p].isIdle ==>
       t.procs[p].state == Zombie && t.procs[p].waitStatus == s.procs[p].waitStatus)
  }

  lemma DeadStayTwice(s: Sys, t: Sys, u: Sys)
    requires DeadStay(s, t) && DeadStay(t, u)
    ensures DeadStay(s, u)
  {
    assert forall p: nat | p < MAX_PROCS :: u.procs[p].pid == t.procs[p].pid == s.procs[p].pid;
  }

  lemma DeadStayEnded(s: Sys, t: Sys, pid: nat, status: nat)
    requires DeadStay(s, t) && Ended(s, pid, status)
    ensures Ended(t, pid, status)
  {
    assert forall p: nat | p < MAX_PROCS :: t.procs[p].pid == s.procs[p].pid;
  }

  lemma MarkZombieStay(s: Sys, p: nat, status: nat)
    requires Sized(s) && p < MAX_PROCS
    ensures DeadStay(s, MarkZombie(s, p, status))
  {
    hide Find;
  }

  lemma DeliverStay(s: Sys, p: nat)
    requires Sized(s) && p < MAX_PROCS
    ensures DeadStay(s, Deliver(s, p))
  {
    var sig := LowestFrom(s.procs[p].pending - s.procs[p].mask, 1);
    if sig.Some? {
      var s1 := Update(s, p, s.procs[p].(pending := s.procs[p].pending - {sig.value}));
      assert DeadStay(s, s1);
      MarkZombieStay(s1, p, SignalStatus(sig.value));
      DeadStayTwice(s, s1, MarkZombie(s1, p, SignalStatus(sig.value)));
    }
    hide MarkZombie, LowestFrom;
  }

  lemma AccountStay(s: Sys)
    requires Sized(s) && s.procs[s.current].state == Running
    ensures DeadStay(s, Account(s))
  {
    hide BestFrom;
  }

  lemma DispatchStay(s: Sys)
    requires Inv(s)
    ensures DeadStay(s, Dispatch(s))
  {
    var best := BestFrom(s.queues, 0);
    assert best < LEVELS ==> s.queues[best][0] in s.queues[best];
    assert SlotOk(s, s.idle);
    hide BestFrom, Rest, TableOk, PidsOk, FamilyOk, NobodyOverslept;
  }

  lemma TickStay(s: Sys)
    requires Inv(s)
    ensures DeadStay(s, Tick(s))
  {
    ChargeKeeps(s);
    var s1 := if s.procs[s.current].state == Running then Deliver(s, s.current) else s;
    var s2 := Charge(s);
    assert DeadStay(s, s);
    DeliverStay(s, s.current);
    if s1.procs[s1.current].state == Running {
      AccountStay(s1);
      DeadStayTwice(s, s1, s2);
    }
    DispatchStay(s2);
    hide Inv, Deliver, Account, Dispatch, DeadStay;
    DeadStayTwice(s, s2, Dispatch(s2));
  }

  lemma KillStay(s: Sys, pid: int, sig: int)
    requires Sized(s)
    ensures DeadStay(s, Kill(s, pid, sig))
  {
    if KillOk(s, pid, sig) {
      MarkZombieStay(s, Find(s, pid).value, SignalStatus(sig));
    }
    hide MarkZombie, Find;
  }

  /** A process that has ended makes no waitpid call of its own. */
  predicate Silent(s: Sys, op: Op, pid: nat)
    requires Sized(s)
  {
    op.OpWait? ==> s.procs[s.current].pid != pid
  }

  /** Only a parent's waitpid takes a dead process away, and a new process never gets its number. */
  lemma StepKeepsEnded(s: Sys, op: Op, pid: nat, status: nat)
    requires Inv(s) && Ended(s, pid, status) && Silent(s, op, pid)
    ensures Ended(Apply(s, op), pid, status)
  {
    match op
    case OpWait(caller, target, noHang) => WaitKeepsEnded(s, caller, target, noHang, pid, status);
    case OpSpawn => SpawnKeepsEnded(s, pid, status);
    case _ =>
      OthersStay(s, op);
      DeadStayEnded(s, Apply(s, op), pid, status);
  }

  lemma OthersStay(s: Sys, op: Op)
    requires Inv(s) && !op.OpWait? && !op.OpSpawn?
    ensures DeadStay(s, Apply(s, op))
  {
    match op
    case OpTick => TickStay(s);
    case OpExit(code) => MarkZombieStay(s, s.current, ExitStatus(code));
    case OpKill(q, sig) => KillStay(s, q, sig);
    case OpSetPriority(q, priority) => PriorityStay(s, q, priority);
    case _ => hide Inv, Find;
  }

  lemma PriorityStay(s: Sys, pid: int, priority: nat)
    requires Sized(s)
    ensures DeadStay(s, SetPriority(s, pid, priority))
  {
    hide Find, RemoveFrom;
  }

  lemma SpawnKeepsEnded(s: Sys, pid: nat, status: nat)
    requires Inv(s) && Ended(s, pid, status)
    ensures Ended(Spawn(s), pid, status)
  {
    hide Inv, FreeSlotFrom;
  }

  lemma WaitKeepsEnded(s: Sys, callerPid: int, target: int, noHang: bool, pid: nat, status: nat)
    requires Inv(s) && Ended(s, pid, status) && s.procs[s.current].pid != pid
    ensures Ended(Wait(s, callerPid, target, noHang), pid, status)
  {
    assert SlotOk(s, s.current);
    hide QueuesOk, PidsOk, FamilyOk, NobodyOverslept, Find, FirstZombie, RemoveFrom, Matches;
  }

  predicate SilentRun(s: Sys, ops: seq<Op>, pid: nat)
    requires Sized(s)
    decreases |ops|
  {
    ops == [] || (Silent(s, ops[0], pid) && SilentRun(Apply(s, ops[0]), ops[1..], pid))
  }

  lemma {:induction false} RunKeepsEnded(s: Sys, ops: seq<Op>, pid: nat, status: nat)
    requires Inv(s) && RunAllowed(s, ops) && SilentRun(s, ops, pid) && Ended(s, pid, status)
    ensures Ended(Run(s, ops), pid, status)
    decreases |ops|
  {
    if ops != [] {
      AllowedKeeps(s, ops[0]);
      StepKeepsEnded(s, ops[0], pid, status);
      RunKeepsEnded(Apply(s, ops[0]), ops[1..], pid, status);
    }
  }

  /** A waitpid that answers with that number answers with that status. */
  lemma AnswersStatus(s: Sys, pid: nat, status: nat, callerPid: int, target: int, noHang: bool)
    requires Inv(s) && Ended(s, pid, status)
    ensures
      var r := WaitAnswer(s, callerPid, target, noHang);
      r.Reaped? && r.pid == pid ==> r.status == status
  {
    assert FamilyOk(s);
    hide QueuesOk, TableOk, PidsOk, NobodyOverslept, Find, FirstZombie, Matches;
  }

  lemma LaterAnswers(s: Sys, ops: seq<Op>, pid: nat, status: nat, callerPid: int, target: int, noHang: bool)
    requires Inv(s) && RunAllowed(s, ops) && SilentRun(s, ops, pid) && Ended(s, pid, status)
    ensures
      var r := WaitAnswer(Run(s, ops), callerPid, target, noHang);
      r.Reaped? && r.pid == pid ==> r.status == status
  {
    RunKeepsEnded(s, ops, pid, status);
    RunKeeps(s, ops);
    AnswersStatus(Run(s, ops), pid, status, callerPid, target, noHang);
  }

  /** A process that exits with a code: whatever is called afterwards, a waitpid that answers with its number answers
      with the low eight bits of the code, times 256. */
  lemma ExitStatusArrives(s: Sys, code: int, ops: seq<Op>, callerPid: int, target: int, noHang: bool)
    requires Inv(s) && Allowed(s, OpExit(code)) && s.procs[s.current].state == Running && !s.procs[s.current].isIdle
    requires RunAllowed(Apply(s, OpExit(code)), ops)
    requires SilentRun(Apply(s, OpExit(code)), ops, s.procs[s.current].pid)
    ensures
      var r := WaitAnswer(Run(Apply(s, OpExit(code)), ops), callerPid, target, noHang);
      r.Reaped? && r.pid == s.procs[s.current].pid ==> r.status == code % 256 * 256
  {
    var t := Apply(s, OpExit(code));
    assert SlotOk(s, s.current);
    AllowedKeeps(s, OpExit(code));
    EndsWith(s, s.current, ExitStatus(code));
    LaterAnswers(t, ops, s.procs[s.current].pid, code % 256 * 256, callerPid, target, noHang);
    hide Inv, Ended, WaitAnswer;
  }

  lemma EndsWith(s: Sys, p: nat, status: nat)
    requires Inv(s) && p < MAX_PROCS && s.procs[p].used && !s.procs[p].isIdle
    requires s.procs[p].state != Zombie && s.procs[p].state != Dead
    ensures Ended(MarkZombie(s, p, status), s.procs[p].pid, status)
  {
    assert SlotOk(s, p);
    hide QueuesOk, FamilyOk, NobodyOverslept, Find;
  }

  /** A process that is killed: 9. */
  lemma KillStatusArrives(s: Sys, victim: int, ops: seq<Op>, callerPid: int, target: int, noHang: bool)
    requires Inv(s) && Allowed(s, OpKill(victim, 9)) && KillOk(s, victim, 9)
    requires var p := Find(s, victim).value; s.procs[p].state != Zombie && !s.procs[p].isIdle
    requires RunAllowed(Apply(s, OpKill(victim, 9)), ops) && SilentRun(Apply(s, OpKill(victim, 9)), ops, victim)
    ensures
      var r := WaitAnswer(Run(Apply(s, OpKill(victim, 9)), ops), callerPid, target, noHang);
      r.Reaped? && r.pid == victim ==> r.status == 9
  {
    var t := Apply(s, OpKill(victim, 9));
    AllowedKeeps(s, OpKill(victim, 9));
    EndsWith(s, Find(s, victim).value, SignalStatus(9));
    LaterAnswers(t, ops, victim, 9, callerPid, target, noHang);
    hide Inv, Ended, WaitAnswer;
  }

  /** The lowest signal that is pending and not masked. */
  predicate Due(r: Proc, sig: nat) {
    1 <= sig < 64 && sig in r.pending && sig !in r.mask &&
    forall x: nat {:trigger x in r.pending} | 1 <= x < sig :: !(x in r.pending && x !in r.mask)
  }

  predicate NoneDue(r: Proc) {
    forall x: nat {:trigger x in r.pending} | 1 <= x < 64 :: !(x in r.pending && x !in r.mask)
  }

  lemma {:induction false} LowestIsDue(signals: set<nat>, from: nat, sig: nat)
    requires from <= sig < MAX_SIGNALS && sig in signals && forall x: nat | from <= x < sig :: x !in signals
    ensures LowestFrom(signals, from) == Some(sig)
    decreases sig - from
  {
    if from < sig {
      LowestIsDue(signals, from + 1, sig);
    }
  }

  lemma {:induction false} LowestIsNone(signals: set<nat>, from: nat)
    requires from <= MAX_SIGNALS && forall x: nat | from <= x < MAX_SIGNALS :: x !in signals
    ensures LowestFrom(signals, from) == None
    decreases MAX_SIGNALS - from
  {
    if from < MAX_SIGNALS {
      LowestIsNone(signals, from + 1);
    }
  }

  /** What a signal comes to that has no handler of its own, and SIGINT and SIGKILL, unless they are ignored. */
  predicate Deadly(r: Proc, sig: nat) {
    var h := if sig in r.handlers then r.handlers[sig] else 0;
    h == 0 || (h != 1 && (sig == 2 || sig == 9))
  }

  lemma DeliverIs(s: Sys, sig: nat)
    requires Sized(s) && s.procs[s.current].state == Running && Due(s.procs[s.current], sig)
    ensures
      var r, t := s.procs[s.current], Deliver(s, s.current);
      if Deadly(r, sig)
      then t == MarkZombie(Update(s, s.current, r.(pending := r.pending - {sig})), s.current, SignalStatus(sig))
      else t == Update(s, s.current, r.(pending := r.pending - {sig}))
  {
    var r := s.procs[s.current];
    assert forall x: nat | 1 <= x < sig :: x !in r.pending - r.mask;
    LowestIsDue(r.pending - r.mask, 1, sig);
    hide MarkZombie, LowestFrom;
  }

  lemma DeliverNone(s: Sys)
    requires Sized(s) && NoneDue(s.procs[s.current])
    ensures Deliver(s, s.current) == s
  {
    var r := s.procs[s.current];
    assert forall x: nat | 1 <= x < MAX_SIGNALS :: x !in r.pending - r.mask;
    LowestIsNone(r.pending - r.mask, 1);
    hide MarkZombie, LowestFrom;
  }

  /** A deadly signal ends the running process at the next tick; whatever is called afterwards, a waitpid that answers
      with its number answers with the signal. */
  lemma SignalStatusArrives(s: Sys, sig: nat, pid: nat, t: Sys, ops: seq<Op>, callerPid: int, target: int,
      noHang: bool)
    requires Ending(s, sig, pid) && Sized(t) && t == Tick(s) && RunAllowed(t, ops) && SilentRun(t, ops, pid)
    ensures
      var r := WaitAnswer(Run(t, ops), callerPid, target, noHang);
      r.Reaped? && r.pid == pid ==> r.status == sig
  {
    hide *;
    EndingTicks(s, sig, pid);
    LaterAnswers(t, ops, pid, sig, callerPid, target, noHang);
  }

  /** The running process has that number, and its lowest due signal is a deadly one. */
  ghost predicate Ending(s: Sys, sig: nat, pid: nat) {
    Inv(s) && var r := s.procs[s.current];
    r.state == Running && !r.isIdle && r.pid == pid && Due(r, sig) && Deadly(r, sig)
  }

  lemma EndingTicks(s: Sys, sig: nat, pid: nat)
    requires Ending(s, sig, pid)
    ensures Sized(s) && Inv(Tick(s)) && Ended(Tick(s), pid, sig)
  {
    SignalEnds(s, sig);
    TickKeeps(s);
    hide Inv, Ended, Tick, Due, Deadly;
  }

  lemma SignalEnds(s: Sys, sig: nat)
    requires Inv(s) && s.procs[s.current].state == Running && !s.procs[s.current].isIdle
    requires Due(s.procs[s.current], sig) && Deadly(s.procs[s.current], sig)
    ensures Ended(Tick(s), s.procs[s.current].pid, sig)
  {
    assert Sized(s);
    hide Inv, Ended, Deliver, Dispatch, Due, Deadly, Account, MarkZombie;
    DeliveryEnds(s, sig);
    ChargeKeeps(s);
    var s1 := Deliver(s, s.current);
    DispatchStay(s1);
    DeadStayEnded(s1, Dispatch(s1), s.procs[s.current].pid, sig);
  }

  lemma DeliveryEnds(s: Sys, sig: nat)
    requires Inv(s) && s.procs[s.current].state == Running && !s.procs[s.current].isIdle
    requires Due(s.procs[s.current], sig) && Deadly(s.procs[s.current], sig)
    ensures
      var t := Deliver(s, s.current);
      Ended(t, s.procs[s.current].pid, sig) && t.current == s.current && t.procs[s.current].state == Zombie
  {
    var p, r := s.current, s.procs[s.current];
    assert SlotOk(s, p);
    hide Inv, Ended, Deliver, Deadly, Find;
    var s0 := Update(s, p, r.(pending := r.pending - {sig}));
    DeliverIs(s, sig);
    QuietKeeps(s, p, r.(pending := r.pending - {sig}));
    EndsWith(s0, p, SignalStatus(sig));
    assert sig < 64;
  }

  /** A signal that is handled or ignored is taken and leaves the process alive. */
  lemma SignalSpares(s: Sys, sig: nat)
    requires Inv(s) && s.procs[s.current].state == Running && Due(s.procs[s.current], sig)
    requires !Deadly(s.procs[s.current], sig)
    ensures
      var r, t := s.procs[s.current], Tick(s).procs[s.current];
      t.pending == r.pending - {sig} && (t.state == Running || t.state == Ready) && t.pid == r.pid
  {
    DeliverIs(s, sig);
    var s1, s2 := Deliver(s, s.current), Charge(s);
    hide Inv, Deliver, Account, Dispatch, Due, Deadly;
    AccountSpares(s1);
    DispatchSpares(s2, s.current);
  }

  lemma AccountSpares(s: Sys)
    requires Sized(s) && s.procs[s.current].state == Running
    ensures
      var r, t := s.procs[s.current], Account(s);
      t.current == s.current && t.procs[s.current].pending == r.pending && t.procs[s.current].pid == r.pid &&
      (t.procs[s.current].state == Running || t.procs[s.current].state == Ready)
  {
    hide BestFrom;
  }

  lemma DispatchSpares(s: Sys, p: nat)
    requires Sized(s) && p < MAX_PROCS
    ensures
      var r, t := s.procs[p], Dispatch(s).procs[p];
      t.pending == r.pending && t.pid == r.pid && (t.state == r.state || t.state == Running)
  {
    var best := BestFrom(s.queues, 0);
    assert best < LEVELS ==> s.queues[best][0] in s.queues[best];
    hide BestFrom, Rest;
  }

  /** process_kill: the signal is pending, for that process and no other, and a sleeper is woken. */
  lemma SignalPends(s: Sys, pid: int, sig: int)
    requires Sized(s) && KillOk(s, pid, sig) && sig != 9
    ensures
      var p, t := Find(s, pid).value, Kill(s, pid, sig);
      t.procs[p].pid == pid && t.procs[p].pending == s.procs[p].pending + {sig} &&
      t.procs[p].state == (if s.procs[p].state == Blocked then Ready else s.procs[p].state) &&
      forall q: nat {:trigger t.procs[q]} | q < MAX_PROCS && q != p :: t.procs[q] == s.procs[q]
  {
    hide Find;
  }

  /** process_signal_mask, signal by signal; how is 0 to block, 1 to unblock and 2 to set. */
  lemma MaskBlocks(s: Sys, pid: int, how: int, signals: set<nat>, p: nat, sig: nat)
    requires Sized(s) && Find(s, pid) == Some(p) && 0 <= how <= 2
    ensures
      var was, now := s.procs[p].mask, SetMask(s, pid, how, signals).procs[p].mask;
      var asked := if how == 0 then sig in was || sig in signals else if how == 1 then sig in was && sig !in signals
                   else sig in signals;
      sig in now <==> sig != 9 && asked
  {
    hide Find;
  }

  /** process_register_handler: the handler asked for, for that signal and process; SIGKILL takes only the default. */
  lemma HandlerTaken(s: Sys, pid: int, sig: nat, handler: nat, p: nat)
    requires Sized(s) && Find(s, pid) == Some(p)
    ensures
      var t := Register(s, pid, sig, handler);
      if 1 <= sig < 64 && (sig != 9 || handler == 0)
      then t == s.(procs := s.procs[p := s.procs[p].(handlers := s.procs[p].handlers[sig := handler])])
      else t == s
  {
    hide Find;
  }

  /** process_set_priority: the priority asked for, and the queue of that level. */
  lemma PriorityTaken(s: Sys, pid: int, priority: nat)
    requires Inv(s) && PriorityOk(s, pid, priority) && Allowed(s, OpSetPriority(pid, priority))
    ensures
      var p, t := Find(s, pid).value, SetPriority(s, pid, priority);
      t.procs[p] == s.procs[p].(priority := priority) && s.procs[p].pid == pid &&
      (s.procs[p].state == Ready ==> p in t.queues[priority]) &&
      forall q: nat {:trigger t.procs[q]} | q < MAX_PROCS && q != p :: t.procs[q] == s.procs[q]
  {
    hide Inv, Find, RemoveFrom;
  }

  // ---- the processor ----

  /** Nobody who could be preferred to the running process is queued. */
  predicate NoneBetter(s: Sys)
    requires Sized(s)
  {
    forall lv: nat {:trigger s.queues[lv]} | lv < LEVELS && lv < s.procs[s.current].priority :: s.queues[lv] == []
  }

  /** A running process without signals to take keeps the processor, one tick shorter, as long as it has two ticks
      left and nobody better is queued. */
  lemma KeepsProcessor(s: Sys)
    requires Inv(s) && s.procs[s.current].state == Running && !s.procs[s.current].isIdle
    requires NoneDue(s.procs[s.current]) && s.procs[s.current].timeSlice >= 2 && NoneBetter(s)
    ensures
      Tick(s) == s.(procs := s.procs[s.current :=
        s.procs[s.current].(timeSlice := s.procs[s.current].timeSlice - 1)])
  {
    DeliverNone(s);
    var best := BestFrom(s.queues, 0);
    hide Inv, Deliver, BestFrom;
  }

  /** Otherwise it joins the tail of its queue with four new ticks, and if it is not the one to run next it waits
      there. */
  lemma LosesProcessor(s: Sys, t: Sys)
    requires Inv(s) && s.procs[s.current].state == Running && !s.procs[s.current].isIdle
    requires NoneDue(s.procs[s.current]) && (s.procs[s.current].timeSlice <= 1 || !NoneBetter(s))
    requires s.procs[s.current].priority < |s.queues|
    requires
      var p, r := s.current, s.procs[s.current];
      t == s.(procs := s.procs[p := r.(state := Ready, timeSlice := 4)],
              queues := s.queues[r.priority := s.queues[r.priority] + [p]])
    ensures Sized(t) && Tick(s) == Dispatch(t)
  {
    DeliverNone(s);
    assert Sized(t);
    var best := BestFrom(s.queues, 0);
    hide Inv, Deliver, BestFrom, Dispatch;
  }

  /** A process that yields gives way: the tick that follows puts it at the tail of its queue. */
  lemma YieldGivesWay(s: Sys, t: Sys)
    requires Inv(s) && s.procs[s.current].state == Running && !s.procs[s.current].isIdle
    requires NoneDue(s.procs[s.current]) && s.procs[s.current].priority < |s.queues|
    requires
      var p, r := s.current, s.procs[s.current];
      t == s.(procs := s.procs[p := r.(state := Ready, timeSlice := 4)],
              queues := s.queues[r.priority := s.queues[r.priority] + [p]])
    ensures Sized(t) && Tick(Yield(s)) == Dispatch(t)
  {
    var y, p := Yield(s), s.current;
    YieldKeeps(s);
    assert y.procs[p := y.procs[p].(state := Ready, timeSlice := 4)] == t.procs;
    hide Inv, Tick, Dispatch;
    LosesProcessor(y, t);
  }

  /** The first of the best queue runs next. */
  lemma FirstOfBestRuns(s: Sys, lv: nat)
    requires Sized(s) && lv < LEVELS && s.queues[lv] != [] && forall k: nat | k < lv :: s.queues[k] == []
    ensures
      var p := s.queues[lv][0];
      p in s.queues[lv] &&
      Dispatch(s) == s.(procs := s.procs[p := s.procs[p].(state := Running)], current := p,
                        queues := s.queues[lv := s.queues[lv][1..]])
  {
    assert BestFrom(s.queues, 0) == lv;
  }

  // ---- families ----

  /** A new process: the next number, in a group of its own, the priority of its parent, four ticks, ready; and its
      parent lists it first. */
  lemma SpawnedChild(s: Sys, p: nat)
    requires Sized(s) && FreeSlotFrom(s.procs, 0) == Some(p) && p != s.current
    ensures
      var t, r := Spawn(s), Spawn(s).procs[p];
      var parent := s.procs[s.current];
      r.used && r.pid == s.nextPid && t.nextPid == s.nextPid + 1 && r.pgid == r.pid && r.ppid == parent.pid &&
      r.priority == parent.priority && r.timeSlice == 4 && r.state == Ready && r.pending == {} && r.mask == {} &&
      r.handlers == map[] && r.children == [] && t.procs[s.current].children == [p] + parent.children
  {}

  /** The four forms of a waitpid target. */
  predicate Wanted(caller: Proc, child: Proc, target: int) {
    target == -1 || (target > 0 && child.pid == target) || (target == 0 && child.pgid == caller.pgid) ||
    (target < -1 && child.pgid == -target)
  }

  /** The first dead child in the list that the call asks for is the one it answers with; without one it answers that
      there is no such child exactly when none is listed. */
  lemma FirstInList(s: Sys, callerPid: int, p: nat, target: int, noHang: bool, i: nat)
    requires Sized(s) && Find(s, callerPid) == Some(p) && i <= |s.procs[p].children|
    requires forall j: nat {:trigger s.procs[p].children[j]} | j < i ::
      var c := s.procs[p].children[j];
      c in s.procs[p].children && !(s.procs[c].state == Zombie && Wanted(s.procs[p], s.procs[c], target))
    ensures
      var kids, r := s.procs[p].children, WaitAnswer(s, callerPid, target, noHang);
      if i < |kids| then
        kids[i] in kids &&
        (s.procs[kids[i]].state == Zombie && Wanted(s.procs[p], s.procs[kids[i]], target) ==>
         r == Reaped(s.procs[kids[i]].pid, s.procs[kids[i]].waitStatus))
      else
        !r.Reaped? && (r == NoChild <==> forall c | c in kids :: !Wanted(s.procs[p], s.procs[c], target))
  {
    var kids := s.procs[p].children;
    assert forall c | c in kids :: Matches(s.procs[p], s.procs[c], target) <==> Wanted(s.procs[p], s.procs[c], target);
    FirstHitAt(s, p, target, kids, i);
    hide Find, FirstZombie, Matches;
  }

  /** A dead process that the call asks for. */
  predicate Hit(s: Sys, p: nat, target: int, c: nat)
    requires Sized(s) && p < MAX_PROCS && c < MAX_PROCS
  {
    s.procs[c].state == Zombie && Matches(s.procs[p], s.procs[c], target)
  }

  lemma FirstZombieStep(s: Sys, p: nat, target: int, kids: seq<nat>)
    requires Sized(s) && p < MAX_PROCS && forall c | c in kids :: c < MAX_PROCS
    ensures kids == [] ==> FirstZombie(s, p, target, kids) == None
    ensures kids != [] ==>
      var rest := Rest(kids);
      kids[0] in kids && (forall c | c in rest :: c < MAX_PROCS) && |rest| == |kids| - 1 &&
      FirstZombie(s, p, target, kids) ==
      if Hit(s, p, target, kids[0]) then Some(kids[0]) else FirstZombie(s, p, target, rest)
  {
    hide Matches;
  }

  lemma {:induction false} FirstHitAt(s: Sys, p: nat, target: int, kids: seq<nat>, i: nat)
    requires Sized(s) && p < MAX_PROCS && (forall c | c in kids :: c < MAX_PROCS) && i <= |kids|
    requires forall j: nat {:trigger kids[j]} | j < i :: kids[j] in kids && !Hit(s, p, target, kids[j])
    ensures i == |kids| ==> FirstZombie(s, p, target, kids).None?
    ensures i < |kids| ==>
      kids[i] in kids && (Hit(s, p, target, kids[i]) ==> FirstZombie(s, p, target, kids) == Some(kids[i]))
    decreases |kids|
  {
    hide *;
    FirstZombieStep(s, p, target, kids);
    if kids != [] && i > 0 {
      var rest := Rest(kids);
      assert forall j: nat | j < |rest| :: rest[j] == kids[j + 1];
      assert kids[0] in kids && !Hit(s, p, target, kids[0]);
      FirstHitAt(s, p, target, rest, i - 1);
    }
  }

  /** The parent learns: once a child that it lists has exited, its waitpid for that child answers with number and
      code. */
  lemma ParentLearns(s: Sys, code: int, parentPid: int, p: nat, noHang: bool)
    requires Inv(s) && s.procs[s.current].state == Running && !s.procs[s.current].isIdle
    requires Find(s, parentPid) == Some(p) && s.current in s.procs[p].children && Allowed(s, OpExit(code))
    ensures
      var pid := s.procs[s.current].pid;
      WaitAnswer(Apply(s, OpExit(code)), parentPid, pid, noHang) == Reaped(pid, code % 256 * 256)
  {
    var c, t := s.current, Apply(s, OpExit(code));
    assert SlotOk(s, c) && SlotOk(s, p);
    AllowedKeeps(s, OpExit(code));
    EndsWith(s, c, ExitStatus(code));
    MarkZombieStay(s, c, ExitStatus(code));
    SameFind(s, t, parentPid);
    assert t.procs[p].children == s.procs[p].children && t.procs[c].state == Zombie;
    AnswersStatus(t, s.procs[c].pid, ExitStatus(code), parentPid, s.procs[c].pid, noHang);
    AnswersTarget(t, parentPid, p, c, noHang);
    hide Inv, Ended, WaitAnswer, MarkZombie;
  }

  lemma SameFind(s: Sys, t: Sys, pid: int)
    requires Inv(s) && Inv(t) && DeadStay(s, t) && pid > 0
    ensures Find(t, pid) == Find(s, pid)
  {
    assert forall p: nat | p < MAX_PROCS :: t.procs[p].pid == s.procs[p].pid && t.procs[p].used == s.procs[p].used;
    assert PidsOk(s) && PidsOk(t);
    var a, b := Find(s, pid), Find(t, pid);
    hide QueuesOk, TableOk, FamilyOk, NobodyOverslept, Find;
  }

  lemma AnswersTarget(s: Sys, callerPid: int, p: nat, c: nat, noHang: bool)
    requires Inv(s) && Find(s, callerPid) == Some(p) && c in s.procs[p].children && s.procs[c].state == Zombie
    requires s.procs[c].pid > 0
    ensures
      var r := WaitAnswer(s, callerPid, s.procs[c].pid, noHang);
      r.Reaped? && r.pid == s.procs[c].pid
  {
    hide Inv, Find, FirstZombie;
  }
}
