/** The scheduler of proc/process.c as a state machine: one step per call made under g_sched_lock.
    Processes are named by their slot in g_processes; each run queue is the sequence of slots on it. */
module SchedModel {
  import opened Options

  const MAX_PROCS: nat := 256
  const LEVELS: nat := 256
  const DEFAULT_PRIORITY: nat := 128
  const TIMESLICE: nat := 4
  const MAX_SIGNALS: nat := 64
  const SIGINT: nat := 2
  const SIGKILL: nat := 9
  const SIG_DFL: nat := 0
  const SIG_IGN: nat := 1
  const SIG_BLOCK: int := 0
  const SIG_UNBLOCK: int := 1
  const SIG_SETMASK: int := 2

  datatype State = Created | Ready | Running | Blocked | Zombie | Dead

  /** One slot. The intrusive child list is the sequence of its members, newest first; waiting is
      the target of the waitpid call the process is inside, which the source keeps on its stack. */
  datatype Proc = Proc(
    used: bool, pid: nat, ppid: nat, pgid: nat, state: State, isIdle: bool,
    priority: nat, timeSlice: nat, waitStatus: nat,
    pending: set<nat>, mask: set<nat>, handlers: map<nat, nat>,
    children: seq<nat>, waiting: Option<int>)

  const CLEARED := Proc(false, 0, 0, 0, Created, false, 0, 0, 0, {}, {}, map[], [], None)

  datatype Sys = Sys(procs: seq<Proc>, queues: seq<seq<nat>>, current: nat, idle: nat, nextPid: nat)

  /** Everything is indexed inside the tables. */
  predicate Sized(s: Sys) {
    |s.procs| == MAX_PROCS && |s.queues| == LEVELS && s.current < MAX_PROCS && s.idle < MAX_PROCS &&
    (forall p {:trigger s.procs[p]} | 0 <= p < MAX_PROCS :: forall c | c in s.procs[p].children :: c < MAX_PROCS) &&
    (forall lv {:trigger s.queues[lv]} | 0 <= lv < LEVELS :: forall c | c in s.queues[lv] :: c < MAX_PROCS)
  }

  function Level(priority: nat): nat {
    if priority >= LEVELS then LEVELS - 1 else priority
  }

  // ---- run queues ----

  function Rest(q: seq<nat>): (r: seq<nat>)
    requires q != []
    ensures q == [q[0]] + r && forall x | x in r :: x in q
  {
    q[1..]
  }

  function RemoveFrom(q: seq<nat>, p: nat): (r: seq<nat>)
    ensures forall x | x in r :: x in q
  {
    if q == [] then [] else if q[0] == p then q[1..] else [q[0]] + RemoveFrom(q[1..], p)
  }

  /** The best level with anyone on it; LEVELS when all queues are empty. */
  function BestFrom(queues: seq<seq<nat>>, lv: nat): (best: nat)
    requires |queues| == LEVELS && lv <= LEVELS
    ensures lv <= best <= LEVELS && (best < LEVELS ==> queues[best] != [])
    ensures forall k | lv <= k < best :: queues[k] == []
    decreases LEVELS - lv
  {
    if lv == LEVELS then LEVELS else if queues[lv] != [] then lv else BestFrom(queues, lv + 1)
  }

  function Push(s: Sys, p: nat): (t: Sys)
    requires Sized(s) && p < MAX_PROCS
    ensures Sized(t)
  {
    var lv := Level(s.procs[p].priority);
    s.(queues := s.queues[lv := s.queues[lv] + [p]])
  }

  function Unqueue(s: Sys, p: nat): (t: Sys)
    requires Sized(s) && p < MAX_PROCS
    ensures Sized(t)
  {
    var lv := Level(s.procs[p].priority);
    s.(queues := s.queues[lv := RemoveFrom(s.queues[lv], p)])
  }

  // ---- process table ----

  function Update(s: Sys, p: nat, r: Proc): (t: Sys)
    requires Sized(s) && p < MAX_PROCS && forall c | c in r.children :: c < MAX_PROCS
    ensures Sized(t)
  {
    s.(procs := s.procs[p := r])
  }

  function FindFrom(procs: seq<Proc>, pid: int, i: nat): (r: Option<nat>)
    requires i <= |procs|
    ensures r.Some? ==> i <= r.value < |procs| && procs[r.value].used && procs[r.value].pid == pid
    ensures r.None? ==> forall k | i <= k < |procs| :: !(procs[k].used && procs[k].pid == pid)
    decreases |procs| - i
  {
    if i == |procs| then None
    else if procs[i].used && procs[i].pid == pid then Some(i)
    else FindFrom(procs, pid, i + 1)
  }

  function Find(s: Sys, pid: int): (r: Option<nat>)
    ensures r.Some? ==> r.value < |s.procs| && s.procs[r.value].used && s.procs[r.value].pid == pid
    ensures r.None? ==> forall k | 0 <= k < |s.procs| :: !(s.procs[k].used && s.procs[k].pid == pid)
  {
    FindFrom(s.procs, pid, 0)
  }

  function FreeSlotFrom(procs: seq<Proc>, i: nat): (r: Option<nat>)
    requires i <= |procs|
    ensures r.Some? ==> i <= r.value < |procs| && !procs[r.value].used
    decreases |procs| - i
  {
    if i == |procs| then None else if !procs[i].used then Some(i) else FreeSlotFrom(procs, i + 1)
  }

  // ---- wakeups and signals ----

  /** What a wakeup does to a blocked process; anyone else is left alone. */
  function Wake(s: Sys, p: nat): (t: Sys)
    requires Sized(s) && p < MAX_PROCS
    ensures Sized(t)
  {
    if s.procs[p].state == Blocked then Push(Update(s, p, s.procs[p].(state := Ready)), p) else s
  }

  function WakeParent(s: Sys, child: nat): (t: Sys)
    requires Sized(s) && child < MAX_PROCS
    ensures Sized(t)
  {
    if s.procs[child].ppid == 0 then s
    else match Find(s, s.procs[child].ppid)
      case None => s
      case Some(parent) => Wake(s, parent)
  }

  function MarkZombie(s: Sys, p: nat, status: nat): (t: Sys)
    requires Sized(s) && p < MAX_PROCS
    ensures Sized(t)
  {
    if s.procs[p].state == Zombie || s.procs[p].state == Dead then s
    else WakeParent(Update(s, p, s.procs[p].(state := Zombie, waitStatus := status)), p)
  }

  function ExitStatus(code: int): nat { code % 256 * 256 }
  function SignalStatus(sig: nat): nat { sig % 128 }

  function LowestFrom(signals: set<nat>, sig: nat): (r: Option<nat>)
    requires sig <= MAX_SIGNALS
    ensures r.Some? ==> r.value in signals
    decreases MAX_SIGNALS - sig
  {
    if sig == MAX_SIGNALS then None else if sig in signals then Some(sig) else LowestFrom(signals, sig + 1)
  }

  function HandlerOf(p: Proc, sig: nat): nat {
    if sig in p.handlers then p.handlers[sig] else SIG_DFL
  }

  /** prepare_signal_action_locked: takes the lowest deliverable signal and applies its default
      action, if that is what it asks for. */
  function Deliver(s: Sys, p: nat): (t: Sys)
    requires Sized(s) && p < MAX_PROCS
    ensures Sized(t)
  {
    var r := s.procs[p];
    if r.state == Zombie || r.state == Dead then s
    else match LowestFrom(r.pending - r.mask, 1)
      case None => s
      case Some(sig) =>
        var s1 := Update(s, p, r.(pending := r.pending - {sig}));
        var h := HandlerOf(r, sig);
        if h != SIG_IGN && (h == SIG_DFL || sig == SIGKILL || sig == SIGINT) then MarkZombie(s1, p, SignalStatus(sig))
        else s1
  }

  // ---- the calls ----

  /** Charges the running process one tick; it stays, or goes back on its queue with a new slice. */
  function Account(s: Sys): (t: Sys)
    requires Sized(s)
    ensures Sized(t)
  {
    var cur, r := s.current, s.procs[s.current];
    var slice := if r.timeSlice > 0 then r.timeSlice - 1 else 0;
    var best := BestFrom(s.queues, 0);
    if r.isIdle then Update(s, cur, r.(state := Ready))
    else if slice > 0 && (best == LEVELS || r.priority <= best) then Update(s, cur, r.(timeSlice := slice))
    else Push(Update(s, cur, r.(state := Ready, timeSlice := TIMESLICE)), cur)
  }

  /** The first half of a tick: signals for the running process, then its accounting. */
  function Charge(s: Sys): (t: Sys)
    requires Sized(s)
    ensures Sized(t)
  {
    var s1 := if s.procs[s.current].state == Running then Deliver(s, s.current) else s;
    if s1.procs[s1.current].state == Running then Account(s1) else s1
  }

  /** The second half: the head of the best queue runs, or else the idle process. */
  function Dispatch(s: Sys): (t: Sys)
    requires Sized(s)
    ensures Sized(t)
  {
    var best := BestFrom(s.queues, 0);
    assert best < LEVELS ==> s.queues[best][0] in s.queues[best];
    var next := if best == LEVELS then s.idle else s.queues[best][0];
    var s1 := if best == LEVELS then s else s.(queues := s.queues[best := Rest(s.queues[best])]);
    Update(s1, next, s1.procs[next].(state := Running)).(current := next)
  }

  function Tick(s: Sys): (t: Sys)
    requires Sized(s)
    ensures Sized(t)
  {
    var s1 := Charge(s);
    if s1.procs[s1.current].state == Running then s1 else Dispatch(s1)
  }

  function Yield(s: Sys): (t: Sys)
    requires Sized(s)
    ensures Sized(t)
  {
    Update(s, s.current, s.procs[s.current].(timeSlice := 0))
  }

  /** The new process belongs to the process that runs now; if that one's own freed slot is the one
      taken, it is its own parent, and the fields it inherits have just been cleared. */
  function Spawn(s: Sys): (t: Sys)
    requires Sized(s)
    ensures Sized(t)
  {
    match FreeSlotFrom(s.procs, 0)
    case None => s
    case Some(p) =>
      var s1 := Update(s, p, CLEARED.(used := true, pid := s.nextPid)).(nextPid := s.nextPid + 1);
      var parent := s1.procs[s.current];
      var child := CLEARED.(used := true, pid := s.nextPid, ppid := parent.pid, pgid := s.nextPid, state := Ready,
                            priority := parent.priority, timeSlice := TIMESLICE);
      var s2 := Update(s1, p, child);
      var s3 := Update(s2, s.current, s2.procs[s.current].(children := [p] + s2.procs[s.current].children));
      Push(s3, p)
  }

  function Exit(s: Sys, code: int): (t: Sys)
    requires Sized(s)
    ensures Sized(t)
  {
    MarkZombie(s, s.current, ExitStatus(code))
  }

  predicate Matches(caller: Proc, child: Proc, target: int) {
    if target == -1 then true
    else if target > 0 then child.pid == target
    else if target == 0 then child.pgid == caller.pgid
    else child.pgid == -target
  }

  function FirstZombie(s: Sys, caller: nat, target: int, kids: seq<nat>): (r: Option<nat>)
    requires Sized(s) && caller < MAX_PROCS && forall c | c in kids :: c < MAX_PROCS
    ensures r.Some? ==>
      r.value in kids && Matches(s.procs[caller], s.procs[r.value], target) && s.procs[r.value].state == Zombie
    ensures r.None? ==> forall c | c in kids ::
      !(Matches(s.procs[caller], s.procs[c], target) && s.procs[c].state == Zombie)
  {
    if kids == [] then None
    else
      assert kids[0] in kids;
      if Matches(s.procs[caller], s.procs[kids[0]], target) && s.procs[kids[0]].state == Zombie then Some(kids[0])
      else FirstZombie(s, caller, target, Rest(kids))
  }

  /** The caller once the call is over: only a process that makes the call itself is inside it. */
  function Returned(s: Sys, caller: nat): Proc
    requires Sized(s) && caller < MAX_PROCS
  {
    if caller == s.current then s.procs[caller].(waiting := None) else s.procs[caller]
  }

  /** Unlinks a dead child from its parent and gives its slot back. */
  function Reap(s: Sys, caller: nat, child: nat): (t: Sys)
    requires Sized(s) && caller < MAX_PROCS && child < MAX_PROCS
    ensures Sized(t)
  {
    var r := Returned(s, caller).(children := RemoveFrom(s.procs[caller].children, child));
    var s1 := Update(s, caller, r);
    Update(s1, child, s1.procs[child].(used := false, state := Dead, children := []))
  }

  datatype WaitResult = NoChild | Reaped(pid: nat, status: nat) | NotYet | Blocks | NotCurrent

  /** What one pass through the loop of process_waitpid answers. */
  function WaitAnswer(s: Sys, callerPid: int, target: int, noHang: bool): WaitResult
    requires Sized(s)
  {
    match Find(s, callerPid)
    case None => NoChild
    case Some(caller) =>
      var kids := s.procs[caller].children;
      match FirstZombie(s, caller, target, kids)
      case Some(child) => Reaped(s.procs[child].pid, s.procs[child].waitStatus)
      case None =>
        if !exists c | c in kids :: Matches(s.procs[caller], s.procs[c], target) then NoChild
        else if noHang then NotYet
        else if s.procs[s.current].pid == s.procs[caller].pid then Blocks
        else NotCurrent
  }

  function Wait(s: Sys, callerPid: int, target: int, noHang: bool): (t: Sys)
    requires Sized(s)
    ensures Sized(t)
  {
    match Find(s, callerPid)
    case None => s
    case Some(caller) =>
      match FirstZombie(s, caller, target, s.procs[caller].children)
      case Some(child) => Reap(s, caller, child)
      case None =>
        if WaitAnswer(s, callerPid, target, noHang).Blocks?
        then Update(s, s.current, s.procs[s.current].(state := Blocked, waiting := Some(target)))
        else Update(s, caller, Returned(s, caller))
  }

  predicate KillOk(s: Sys, pid: int, sig: int)
    requires Sized(s)
  {
    pid > 0 && Find(s, pid).Some? && s.procs[Find(s, pid).value].state != Dead && 0 < sig < MAX_SIGNALS
  }

  function Kill(s: Sys, pid: int, sig: int): (t: Sys)
    requires Sized(s)
    ensures Sized(t)
  {
    if !KillOk(s, pid, sig) then s
    else
      var p := Find(s, pid).value;
      if sig == SIGKILL then MarkZombie(s, p, SignalStatus(sig))
      else Wake(Update(s, p, s.procs[p].(pending := s.procs[p].pending + {sig})), p)
  }

  predicate PriorityOk(s: Sys, pid: int, priority: nat)
    requires Sized(s)
  {
    pid > 0 && priority < LEVELS && Find(s, pid).Some? && s.procs[Find(s, pid).value].state != Dead
  }

  function SetPriority(s: Sys, pid: int, priority: nat): (t: Sys)
    requires Sized(s)
    ensures Sized(t)
  {
    if !PriorityOk(s, pid, priority) then s
    else
      var p := Find(s, pid).value;
      var s1 := if s.procs[p].state == Ready then Unqueue(s, p) else s;
      var s2 := Update(s1, p, s1.procs[p].(priority := priority));
      if s2.procs[p].state == Ready then Push(s2, p) else s2
  }

  /** A signal mask changed the way how says; SIGKILL is never masked. */
  function NewMask(mask: set<nat>, how: int, signals: set<nat>): set<nat> {
    (if how == SIG_BLOCK then mask + signals else if how == SIG_UNBLOCK then mask - signals else signals) - {SIGKILL}
  }

  function SetMask(s: Sys, pid: int, how: int, signals: set<nat>): (t: Sys)
    requires Sized(s)
    ensures Sized(t)
  {
    match Find(s, pid)
    case None => s
    case Some(p) =>
      if how !in {SIG_BLOCK, SIG_UNBLOCK, SIG_SETMASK} then s
      else Update(s, p, s.procs[p].(mask := NewMask(s.procs[p].mask, how, signals)))
  }

  function Register(s: Sys, pid: int, sig: nat, handler: nat): (t: Sys)
    requires Sized(s)
    ensures Sized(t)
  {
    if sig == 0 || sig >= MAX_SIGNALS || (sig == SIGKILL && handler != SIG_DFL) then s
    else match Find(s, pid)
      case None => s
      case Some(p) => Update(s, p, s.procs[p].(handlers := s.procs[p].handlers[sig := handler]))
  }

  // ---- steps and runs ----

  datatype Op =
    | OpTick
    | OpYield
    | OpSpawn
    | OpExit(code: int)
    | OpWait(caller: int, target: int, noHang: bool)
    | OpKill(pid: int, sig: int)
    | OpSetPriority(pid: int, priority: nat)
    | OpSetMask(pid: int, how: int, signals: set<nat>)
    | OpRegister(pid: int, signal: nat, handler: nat)

  function Apply(s: Sys, op: Op): (t: Sys)
    requires Sized(s)
    ensures Sized(t)
  {
    match op
    case OpTick => Tick(s)
    case OpYield => Yield(s)
    case OpSpawn => Spawn(s)
    case OpExit(code) => Exit(s, code)
    case OpWait(caller, target, noHang) => Wait(s, caller, target, noHang)
    case OpKill(pid, sig) => Kill(s, pid, sig)
    case OpSetPriority(pid, priority) => SetPriority(s, pid, priority)
    case OpSetMask(pid, how, signals) => SetMask(s, pid, how, signals)
    case OpRegister(pid, sig, handler) => Register(s, pid, sig, handler)
  }

  /** After process_init: the bootstrap process is current and blocked, the idle process is ready and
      on no queue. */
  function Initial(): Sys {
    var bootstrap := CLEARED.(used := true, pid := 1, pgid := 1, state := Blocked,
                              priority := DEFAULT_PRIORITY, timeSlice := TIMESLICE);
    var idle := CLEARED.(used := true, pid := 2, pgid := 2, state := Ready, isIdle := true,
                         priority := DEFAULT_PRIORITY, timeSlice := TIMESLICE);
    Sys([bootstrap, idle] + seq(MAX_PROCS - 2, _ => CLEARED), seq(LEVELS, _ => []), 0, 1, 3)
  }
}
