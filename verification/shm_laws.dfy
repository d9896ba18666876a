/** What the shared-memory calls mean in numbers, told from the tables before and after them (ipc/shm.c:163-366,
    mm/vm_space.c:104-160). */
module ShmLaws {
  import opened Pmm
  import opened ShmModel
  import opened Shm

  /** The first address of a process's window that is handed out when nothing of it is in use. */
  lemma FirstCursorIs(pid: nat)
    ensures FirstCursor(pid) == 0x4000_0000 + pid % 64 * 0x100_0000
    ensures 0x4000_0000 <= FirstCursor(pid) < 0x8000_0000
  {}

  lemma FramesAre(r: Region, f: nat)
    requires r.inUse
    ensures f in Frames(r) <==> r.phys / 4096 <= f < r.phys / 4096 + r.pages
  {}

  /** A size takes as many pages as hold it, and none when the sum in 64 bits wraps around. */
  lemma PagesTaken(size: nat, n: nat)
    requires size < 0x1_0000_0000_0000_0000
    ensures size + 4095 < 0x1_0000_0000_0000_0000 ==>
      (PagesFor(size) == n <==> size <= n * 4096 < size + 4096)
    ensures size + 4095 >= 0x1_0000_0000_0000_0000 ==> PagesFor(size) == 0
  {
    if size + 4095 < 0x1_0000_0000_0000_0000 {
      PagesForIsEnough(size);
      hide PagesFor;
    }
  }

  /** A region can be attached: it exists, its pages fit before the end of the window from the first page boundary at
      or behind the process's cursor, and a slot is left. */
  lemma CanAttachExactly(s: State, pid: nat, id: int, r: nat, at: nat)
    requires pid in s.spaces && id > 0 && Is(s.regions, r, id) && (forall t: nat | Is(s.regions, t, id) :: t == r)
    requires at % 4096 == 0 && s.spaces[pid].cursor <= at < s.spaces[pid].cursor + 4096 && at >= 0x4000_0000
    ensures
      CanAttach(s, pid, id) <==>
      at + 4096 * s.regions[r].pages <= 0x8000_0000 && exists a: nat :: a < |s.atts| && !s.atts[a].inUse
  {
    AlignedUp(s.spaces[pid].cursor);
    assert AlignUp(s.spaces[pid].cursor) == at;
    hide AlignUp;
  }

  /** After a detach: the process has one attachment and its pages less, and starts over in its window with the last
      one. The region is gone, its frames free, exactly when it waited for that and this was its last attachment;
      otherwise it counts one less. */
  lemma DetachMeans(s: State, s': State, free: set<nat>, free': set<nat>, a: nat, r: nat)
    requires Sound(s.regions, s.atts, s.spaces, s.nextId, free) && Detached(s, s', free, free', a, r)
    requires s.atts[a].inUse
    ensures
      var x, reg := s.atts[a], s.regions[r];
      var was, now := s.spaces[x.pid], s'.spaces[x.pid];
      now.attached == was.attached - 1 && now.pages == was.pages - x.pages &&
      now.cursor == (if was.attached == 1 then 0x4000_0000 + x.pid % 64 * 0x100_0000 else was.cursor) &&
      if reg.pending && reg.refs == 1
      then
        !s'.regions[r].inUse &&
        forall f: nat :: f in free' <==> f in free || reg.phys / 4096 <= f < reg.phys / 4096 + reg.pages
      else s'.regions[r] == reg.(refs := reg.refs - 1) && free' == free
  {
    var x := s.atts[a];
    assert Tallied(s.atts, s.spaces, x.pid);
    assert a in Of(s.atts, x.pid);
    PagesUpdate(s.atts, a, x.(inUse := false), x.pid);
    hide Core, Of, PagesOf, Waiting;
  }

  /** After the end of a process: a region that it owned, or that waited to be destroyed, is gone exactly when nobody
      else is attached to it; all others keep number and pages and count who is attached. */
  lemma CleanupMeans(r: Region, atts: seq<Attachment>, pid: nat)
    requires r.inUse
    ensures
      var now, n := Cleaned(r, atts, pid), |Holders(atts, r.id)|;
      if n == 0 && (r.pending || r.owner == pid) then !now.inUse
      else
        now == Region(true, r.id, if r.owner == pid then 0 else r.owner, r.phys, r.pages, n,
                      r.pending || r.owner == pid)
  {}
}
