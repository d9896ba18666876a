/** Shared memory calls (ipc/shm.c:37-366) over the region and attachment tables, the address-space cursors
    (mm/vm_space.c:104-127) and the physical page allocator. Each call is one step. */
module Shm {
  import opened Pmm
  import opened ShmModel

  const WRAP64: nat := 0x1_0000_0000_0000_0000
  /** The number of pages whose size in bytes wraps around to nothing. */
  const WRAP_PAGES: nat := 0x10_0000_0000_0000

  /** The pages a size takes: (size + 4095) / 4096 in 64-bit arithmetic. */
  function PagesFor(size: nat): nat {
    (size + 4095) % WRAP64 / PAGE_SIZE
  }

  lemma PagesForIsEnough(size: nat)
    requires size + 4095 < WRAP64
    ensures size <= PAGE_SIZE * PagesFor(size) < size + PAGE_SIZE
  {
    assert (size + 4095) % WRAP64 == size + 4095;
  }

  lemma AllTracked(start: nat, count: nat)
    requires start + count <= FRAME_COUNT
    ensures Tracked(Run(start, count)) == Run(start, count)
  {}

  lemma Unknown(s: State, free: set<nat>, pid: nat, id: int)
    requires Sound(s.regions, s.atts, s.spaces, s.nextId, free) && pid in s.spaces &&
      (id <= 0 || forall r: nat :: !Is(s.regions, r, id))
    ensures !CanAttach(s, pid, id) && Refused(s, s, pid) && !exists a: nat :: id > 0 && Attached(s.atts, pid, id, a)
  {
    if a: nat :| id > 0 && Attached(s.atts, pid, id, a) {
      var r := RegionOfAttachment(s.regions, s.atts, s.spaces, s.nextId, free, a);
    }
    assert s.spaces == s.spaces[pid := s.spaces[pid].(cursor := s.spaces[pid].cursor)];
  }

  lemma Found(s: State, free: set<nat>, pid: nat, id: int, a: nat)
    requires Sound(s.regions, s.atts, s.spaces, s.nextId, free) && id > 0 && Attached(s.atts, pid, id, a)
    ensures AttachedAgain(s, s, pid, id, s.atts[a].base) && s.atts[a].base != 0
  {
    assert AttachmentOk(s.regions, s.atts, s.spaces, a);
  }

  /** What is known of a region about to be attached. */
  lemma Ready(s: State, free: set<nat>, pid: nat, id: int, r: nat)
    requires Sound(s.regions, s.atts, s.spaces, s.nextId, free) && pid in s.spaces && id > 0 && Is(s.regions, r, id)
    ensures r < REGIONS && s.regions[r].pages > 0 && SHM_BASE <= s.spaces[pid].cursor <= SHM_LIMIT &&
      s.spaces[pid].cursor <= AlignUp(s.spaces[pid].cursor)
    ensures CanAttach(s, pid, id) <==>
      FitsWindow(AlignUp(s.spaces[pid].cursor), s.regions[r].pages) &&
        exists a: nat {:trigger s.atts[a]} :: a < |s.atts| && !s.atts[a].inUse
    ensures forall t: nat | Is(s.regions, t, id) :: t == r
    ensures AlignUp(s.spaces[pid].cursor) != 0 && s.regions[r].pages % WRAP_PAGES == s.regions[r].pages
  {
    assert RegionOk(s.regions, s.atts, s.nextId, free, r);
    AlignedUp(s.spaces[pid].cursor);
    forall t: nat | Is(s.regions, t, id) ensures t == r {
      assert RegionsApart(s.regions, r, t);
    }
  }

  lemma NotNow(s: State, s': State, free: set<nat>, pid: nat, cursor: nat)
    requires Sound(s.regions, s.atts, s.spaces, s.nextId, free) && pid in s.spaces &&
      s.spaces[pid].cursor <= cursor <= SHM_LIMIT
    requires s'.regions == s.regions && s'.nextId == s.nextId && SameAttachments(s.atts, s'.atts)
    requires s'.atts == s.atts || exists a: nat, x: Attachment {:trigger s.atts[a := x]} ::
      a < |s.atts| && !s.atts[a].inUse && !x.inUse && s'.atts == s.atts[a := x]
    requires s'.spaces == s.spaces[pid := s.spaces[pid].(cursor := cursor)]
    ensures Sound(s'.regions, s'.atts, s'.spaces, s'.nextId, free) && Refused(s, s', pid)
  {
    ReserveKeepsSound(s.regions, s.atts, s.spaces, s.nextId, free, pid, cursor);
    if s'.atts != s.atts {
      var a: nat, x: Attachment :| a < |s.atts| && !s.atts[a].inUse && !x.inUse && s'.atts == s.atts[a := x];
      UnusedKeepsSound(s.regions, s.atts, s'.spaces, s.nextId, free, a, x);
    }
  }

  /** The state with a new attachment before its process is charged for it. */
  lemma Uncharged(s: State, free: set<nat>, a: nat, r: nat, x: Attachment)
    requires Sound(s.regions, s.atts, s.spaces, s.nextId, free) && a < |s.atts| && !s.atts[a].inUse && x.inUse &&
      x.pid in s.spaces
    requires Is(s.regions, r, x.id) && s.regions[r].pages == x.pages &&
      forall b: nat :: !Attached(s.atts, x.pid, x.id, b)
    requires x.base == AlignUp(s.spaces[x.pid].cursor) && FitsWindow(x.base, x.pages)
    ensures
      var was := s.spaces[x.pid];
      var regions' := s.regions[r := s.regions[r].(refs := s.regions[r].refs + 1)];
      Core(regions', s.atts[a := x], s.spaces[x.pid := was.(cursor := End(x))], s.nextId, free) &&
      Sound(regions', s.atts[a := x], s.spaces[x.pid := Space(End(x), was.attached + 1, was.pages + x.pages)],
        s.nextId, free) &&
      AttachedAt(s.atts[a := x], x.pid, x.base, a) && Is(regions', r, x.id) && was.cursor <= End(x) <= SHM_LIMIT
  {
    var was := s.spaces[x.pid];
    AlignedUp(was.cursor);
    forall b: nat | b < ATTACHMENTS && s.atts[b].inUse && s.atts[b].pid == x.pid ensures s.atts[b].id != x.id {
      assert !Attached(s.atts, x.pid, x.id, b);
    }
    AttachKeepsCore(s.regions, s.atts, s.spaces, s.nextId, free, a, r, x, was.(cursor := End(x)));
    AttachKeepsSound(s.regions, s.atts, s.spaces, s.nextId, free, a, r, x);
  }

  lemma EndIs(x: Attachment)
    ensures End(x) == x.base + PAGE_SIZE * x.pages
  {}

  lemma NowAttached(s: State, s': State, r: nat, a: nat, x: Attachment)
    requires x.inUse && x.id > 0 && Is(s.regions, r, x.id) && a < |s.atts| && !s.atts[a].inUse && x.pid in s.spaces
    requires x.pages == s.regions[r].pages && x.base == AlignUp(s.spaces[x.pid].cursor) &&
      FitsWindow(x.base, x.pages) && s'.nextId == s.nextId
    requires s'.atts == s.atts[a := x] && s'.regions == s.regions[r := s.regions[r].(refs := s.regions[r].refs + 1)]
    requires s'.spaces ==
      s.spaces[x.pid := Space(End(x), s.spaces[x.pid].attached + 1, s.spaces[x.pid].pages + x.pages)]
    ensures AttachedNew(s, s', x.pid, x.id, x.base)
  {}

  lemma SlotReused(atts: seq<Attachment>, a: nat, x: Attachment)
    requires a < |atts| && !atts[a].inUse && !x.inUse
    ensures SameAttachments(atts, atts[a := x])
  {}

  lemma OneRegion(regions: seq<Region>, atts: seq<Attachment>, spaces: map<nat, Space>, nextId: nat, free: set<nat>,
      r: nat, t: nat, id: nat)
    requires Core(regions, atts, spaces, nextId, free) && Is(regions, r, id) && Is(regions, t, id)
    ensures r == t
  {
    assert RegionsApart(regions, r, t);
  }

  lemma NoSlot(s: State, pid: nat, id: int)
    requires pid in s.spaces && forall a: nat {:trigger s.atts[a]} | a < |s.atts| :: s.atts[a].inUse
    ensures !CanAttach(s, pid, id)
  {}

  lemma Bounds2(s: State, free: set<nat>)
    requires Sound(s.regions, s.atts, s.spaces, s.nextId, free)
    ensures |s.regions| == REGIONS && |s.atts| == ATTACHMENTS
  {}

  lemma EndingStarts(regions: seq<Region>, atts: seq<Attachment>, pid: nat)
    ensures Ending(regions, atts, regions, atts, pid, 0) && Total([]) == PagesOf(atts[..0], pid)
  {}

  lemma OrphanStarts(regions: seq<Region>, pid: nat)
    ensures Orphaned(regions, regions, pid, 0)
  {}

  lemma ReapingStarts(regions: seq<Region>)
    ensures Reaping(regions, regions, 0)
  {}

  lemma GoesInUse(r: Region)
    ensures Goes(r) ==> r.inUse
  {}

  lemma ShareOf(a: Attachment, pid: nat)
    ensures Share(a, pid) == if a.inUse && a.pid == pid then a.pages else 0
  {}

  lemma SoundCore(s: State, free: set<nat>)
    requires Sound(s.regions, s.atts, s.spaces, s.nextId, free)
    ensures Core(s.regions, s.atts, s.spaces, s.nextId, free) && |s.atts| == ATTACHMENTS && |s.regions| == REGIONS
    ensures forall pid | pid in s.spaces :: s.spaces[pid].pages == PagesOf(s.atts, pid)
  {
    forall pid | pid in s.spaces ensures s.spaces[pid].pages == PagesOf(s.atts, pid) {
      assert Tallied(s.atts, s.spaces, pid);
    }
  }

  lemma EndedAre(regions0: seq<Region>, atts0: seq<Attachment>, regions: seq<Region>, atts: seq<Attachment>, pid: nat)
    requires Ending(regions0, atts0, regions, atts, pid, ATTACHMENTS) && |atts| == ATTACHMENTS
    ensures |atts0| == |atts|
    ensures forall a {:trigger atts[a]} | 0 <= a < ATTACHMENTS :: atts[a] == if atts0[a].pid == pid
      then atts0[a].(inUse := false) else atts0[a]
  {}

  lemma SoundAgain(regions: seq<Region>, atts: seq<Attachment>, spaces: map<nat, Space>, nextId: nat, free: set<nat>)
    requires Core(regions, atts, spaces, nextId, free) && Tally(atts, spaces) && Waiting(regions)
    ensures Sound(regions, atts, spaces, nextId, free)
  {}

  lemma IsAttachedAt(atts: seq<Attachment>, pid: nat, base: nat, a: nat)
    requires AttachedAt(atts, pid, base, a)
    ensures a < |atts| && atts[a].inUse && atts[a].pid == pid && atts[a].base == base
  {}

  lemma SettledIs(regions: seq<Region>, r: nat)
    requires r < |regions|
    ensures (if Goes(regions[r]) then regions[r := NO_REGION] else regions) == regions[r := Settled(regions[r])]
  {}

  lemma OnlyOne(s: State, free: set<nat>, id: nat, r: nat)
    requires Sound(s.regions, s.atts, s.spaces, s.nextId, free) && Is(s.regions, r, id)
    ensures r < REGIONS && r < |s.regions| && s.regions[r].inUse && forall t: nat | Is(s.regions, t, id) :: t == r
  {
    forall t: nat | Is(s.regions, t, id) ensures t == r {
      OneRegion(s.regions, s.atts, s.spaces, s.nextId, free, r, t, id);
    }
  }

  lemma MarkedToGo(s: State, free: set<nat>, r: nat)
    requires Sound(s.regions, s.atts, s.spaces, s.nextId, free) && r < REGIONS && r < |s.regions| &&
      s.regions[r].inUse && s.regions[r].refs == 0
    ensures
      var x := s.regions[r].(pending := true);
      Core(s.regions[r := x], s.atts, s.spaces, s.nextId, free) && Goes(x) && Frames(x) == Frames(s.regions[r]) &&
      Owned(s.regions[r := x]) == Owned(s.regions)
  {
    MarkKeepsCore(s.regions, s.atts, s.spaces, s.nextId, free, r, s.regions[r].owner, true);
    OwnedSame(s.regions, s.regions[r := s.regions[r].(pending := true)]);
  }

  lemma DestroyedSound(s: State, free: set<nat>, free': set<nat>, r: nat)
    requires Sound(s.regions, s.atts, s.spaces, s.nextId, free) && r < |s.regions|
    requires Core(s.regions[r := NO_REGION], s.atts, s.spaces, s.nextId, free')
    ensures Sound(s.regions[r := NO_REGION], s.atts, s.spaces, s.nextId, free')
  {}

  lemma SpanIs(pages: nat)
    ensures pages * PAGE_SIZE % WRAP64 == PAGE_SIZE * (pages % WRAP_PAGES)
  {
    assert pages == pages / WRAP_PAGES * WRAP_PAGES + pages % WRAP_PAGES;
    assert pages * PAGE_SIZE == pages / WRAP_PAGES * WRAP64 + PAGE_SIZE * (pages % WRAP_PAGES);
  }

  class SharedMemory {
    const pmm: Allocator
    const regions: array<Region>
    const attachments: array<Attachment>
    var nextId: nat
    var spaces: map<nat, Space>

    ghost predicate Base()
      reads this, pmm, pmm.bitmap, regions, attachments
    {
      pmm.Valid() && Separate() && Core(regions[..], attachments[..], spaces, nextId, pmm.free)
    }

    /** The tables are not the allocator's bitmap. */
    ghost predicate Separate() {
      var bitmap: object := pmm.bitmap;
      bitmap != regions && bitmap != attachments
    }

    ghost predicate Valid()
      reads this, pmm, pmm.bitmap, regions, attachments
    {
      pmm.Valid() && Separate() && Sound(regions[..], attachments[..], spaces, nextId, pmm.free)
    }

    /** Free frames and frames of regions together: what no call may change. */
    ghost function AllFrames(): set<nat>
      reads pmm`free, regions
    {
      pmm.free + Owned(regions[..])
    }

    lemma Lengths()
      requires Base()
      ensures regions.Length == REGIONS && attachments.Length == ATTACHMENTS && nextId > 0
    {}

    constructor (pmm: Allocator)
      requires pmm.Valid()
      ensures Valid() && this.pmm == pmm && fresh(regions) && fresh(attachments) && spaces == map[]
    {
      this.pmm := pmm;
      regions := new Region[REGIONS](_ => NO_REGION);
      attachments := new Attachment[ATTACHMENTS](_ => Attachment.Attachment(false, 0, 0, 0, 0));
      nextId, spaces := 1, map[];
    }

    /** A new process's space: vm_space_create and proc/process.c:546-562. */
    method AddProcess(pid: nat)
      requires Valid() && pid !in spaces
      modifies `spaces
      ensures Valid() && spaces == old(spaces)[pid := Space(FirstCursor(pid), 0, 0)]
    {
      NobodyAttached(pid);
      SpaceKeepsCore(regions[..], attachments[..], spaces, nextId, pmm.free, pid, Space(FirstCursor(pid), 0, 0));
      TallyOfEmptied(attachments[..], attachments[..], spaces, pid);
      spaces := spaces[pid := Space(FirstCursor(pid), 0, 0)];
    }

    lemma NobodyAttached(pid: nat)
      requires Valid() && pid !in spaces
      ensures Of(attachments[..], pid) == {}
      ensures forall a {:trigger attachments[..][a]} | 0 <= a < attachments.Length && attachments[..][a].pid == pid ::
        !attachments[..][a].inUse
    {
      forall a: nat | a < attachments.Length && attachments[..][a].pid == pid ensures !attachments[..][a].inUse {
        assert AttachmentOk(regions[..], attachments[..], spaces, a);
      }
    }

    /** shm_find_region_locked. */
    method FindRegion(id: int) returns (r: int)
      ensures -1 <= r < regions.Length
      ensures r >= 0 ==> id >= 0 && Is(regions[..], r, id)
      ensures r == -1 && id >= 0 ==> forall s: nat :: !Is(regions[..], s, id)
    {
      for i := 0 to regions.Length
        invariant forall s: nat | s < i :: !(regions[s].inUse && regions[s].id == id)
      {
        if regions[i].inUse && regions[i].id == id {
          return i;
        }
      }
      return -1;
    }

    /** shm_alloc_region_locked. */
    method FreeRegion() returns (r: int)
      ensures -1 <= r < regions.Length && (r >= 0 ==> !regions[r].inUse)
      ensures forall s: nat | s < (if r >= 0 then r else regions.Length) :: regions[s].inUse
    {
      for i := 0 to regions.Length
        invariant forall s: nat | s < i :: regions[s].inUse
      {
        if !regions[i].inUse {
          return i;
        }
      }
      return -1;
    }

    /** shm_find_attachment_locked. */
    method FindAttachment(pid: nat, id: int) returns (a: int)
      ensures -1 <= a < attachments.Length
      ensures a >= 0 ==> attachments[a].inUse && attachments[a].pid == pid && attachments[a].id == id
      ensures a >= 0 ==> Attached(attachments[..], pid, id, a)
      ensures a == -1 ==> forall b: nat :: !Attached(attachments[..], pid, id, b)
    {
      for i := 0 to attachments.Length
        invariant forall b: nat | b < i ::
          !(attachments[b].inUse && attachments[b].pid == pid && attachments[b].id == id)
      {
        if attachments[i].inUse && attachments[i].pid == pid && attachments[i].id == id {
          return i;
        }
      }
      return -1;
    }

    /** shm_find_attachment_by_addr_locked. */
    method FindByAddress(pid: nat, addr: nat) returns (a: int)
      ensures -1 <= a < attachments.Length
      ensures a >= 0 ==> attachments[a].inUse && attachments[a].pid == pid && attachments[a].base == addr
      ensures a >= 0 ==> AttachedAt(attachments[..], pid, addr, a)
      ensures a == -1 ==> forall b: nat :: !AttachedAt(attachments[..], pid, addr, b)
    {
      for i := 0 to attachments.Length
        invariant forall b: nat | b < i ::
          !(attachments[b].inUse && attachments[b].pid == pid && attachments[b].base == addr)
      {
        if attachments[i].inUse && attachments[i].pid == pid && attachments[i].base == addr {
          return i;
        }
      }
      return -1;
    }

    /** shm_alloc_attachment_locked. */
    method FreeAttachment() returns (a: int)
      ensures -1 <= a < attachments.Length && (a >= 0 ==> !attachments[a].inUse && !attachments[..][a].inUse)
      ensures a < 0 ==> forall b: nat {:trigger attachments[..][b]} | b < |attachments[..]| :: attachments[..][b].inUse
      ensures forall b: nat | b < (if a >= 0 then a else attachments.Length) :: attachments[b].inUse
    {
      for i := 0 to attachments.Length
        invariant forall b: nat | b < i :: attachments[b].inUse
      {
        if !attachments[i].inUse {
          return i;
        }
      }
      return -1;
    }

    /** shm_reap_region_locked. */
    method Reap(r: nat)
      requires Base() && r < REGIONS
      modifies regions, pmm, pmm.bitmap
      ensures Base() && AllFrames() == old(AllFrames()) && |old(regions[..])| == REGIONS
      ensures
        var was := old(regions[..])[r];
        regions[..] == (if Goes(was) then old(regions[..])[r := NO_REGION] else old(regions[..])) &&
        pmm.free == old(pmm.free) + if Goes(was) then Frames(was) else {}
    {
      Lengths();
      if !regions[r].inUse || !regions[r].pending || regions[r].refs != 0 {
        return;
      }
      ghost var regions0, free0 := regions[..], pmm.free;
      ReapKeeps(regions0, attachments[..], spaces, nextId, free0, r);
      hide Core, Owned;
      var phys, pages := regions[r].phys, regions[r].pages;
      regions[r] := NO_REGION;
      AllTracked(phys / PAGE_SIZE, pages);
      pmm.FreePages(phys, pages);
    }

    /** shm_create: the number of a new region of at least size bytes, -1 when there are no pages or no slot. */
    method Create(pid: nat, size: nat) returns (id: int, ghost r: nat)
      requires Valid() && size < WRAP64
      modifies `nextId, regions, pmm, pmm.bitmap
      ensures Valid() && AllFrames() == old(AllFrames())
      ensures id == -1 <==>
        PagesFor(size) == 0 || NoRun(old(pmm.free), PagesFor(size)) ||
          forall s: nat | s < REGIONS <= |old(regions[..])| :: old(regions[..])[s].inUse
      ensures id == -1 ==> regions[..] == old(regions[..]) && pmm.free == old(pmm.free)
      ensures id != -1 ==>
        id == old(nextId) && r < REGIONS == |old(regions[..])| && !old(regions[..])[r].inUse &&
        regions[..] == old(regions[..])[r := regions[..][r]] &&
        regions[..][r] == Region(true, id, pid, regions[..][r].phys, PagesFor(size), 0, false) &&
        Frames(regions[..][r]) <= old(pmm.free) && pmm.free == old(pmm.free) - Frames(regions[..][r])
    {
      hide *;
      Opens();
      PagesAre(size);
      r := 0;
      if size == 0 {
        return -1, r;
      }
      var pages := (size + 4095) % WRAP64 / PAGE_SIZE;
      ghost var free0 := pmm.free;
      FramesAre();
      var phys := pmm.AllocPages(pages);
      assert regions[..] == old(regions[..]) && attachments[..] == old(attachments[..]);
      if phys == 0 {
        Closes();
        FramesAre();
        return -1, r;
      }
      TakenRun(free0, phys, pages);
      var slot := FreeRegion();
      if slot < 0 {
        pmm.FreePages(phys, pages);
        assert regions[..] == old(regions[..]) && attachments[..] == old(attachments[..]);
        Closes();
        FramesAre();
        return -1, r;
      }
      r := slot;
      Install(slot, pid, phys, pages, free0);
      FramesOfRun(regions[..][r]);
      return nextId - 1, r;
    }

    lemma Opens()
      requires Valid()
      ensures pmm.Valid() && Separate() && Sound(regions[..], attachments[..], spaces, nextId, pmm.free) && nextId > 0
      ensures var bitmap: object := pmm.bitmap; bitmap != regions && bitmap != attachments
      ensures regions.Length == 64 && attachments.Length == 256 && REGIONS == 64 && ATTACHMENTS == 256
    {}

    lemma Closes()
      requires pmm.Valid() && Separate() && Sound(regions[..], attachments[..], spaces, nextId, pmm.free)
      ensures Valid()
    {}

    lemma FramesAre()
      ensures AllFrames() == pmm.free + Owned(regions[..])
    {}

    lemma PagesAre(size: nat)
      requires size < WRAP64
      ensures WRAP64 > 0 && PAGE_SIZE > 0 && PagesFor(size) == (size + 4095) % WRAP64 / PAGE_SIZE &&
        (size == 0 ==> PagesFor(size) == 0)
      ensures PagesFor(size) + FRAME_COUNT < 0x1_0000_0000_0000_0000
    {}

    method Install(r: nat, pid: nat, phys: nat, pages: nat, ghost free: set<nat>)
      requires pmm.Valid() && Separate() && Sound(regions[..], attachments[..], spaces, nextId, free) &&
        r < regions.Length && !regions[r].inUse
      requires pages > 0 && phys > 0 && phys % PAGE_SIZE == 0 && phys / PAGE_SIZE + pages <= FRAME_COUNT
      requires Run(phys / PAGE_SIZE, pages) <= free && pmm.free == free - Run(phys / PAGE_SIZE, pages)
      modifies `nextId, regions
      ensures Valid() && AllFrames() == free + Owned(old(regions[..])) && nextId == old(nextId) + 1
      ensures regions[..] == old(regions[..])[r := Region(true, old(nextId), pid, phys, pages, 0, false)]
    {
      hide *;
      ghost var x, regions0 := Region(true, nextId, pid, phys, pages, 0, false), regions[..];
      Bounds(free);
      Apart();
      FramesOfRun(x);
      CreateKeepsSound(regions0, attachments[..], spaces, nextId, free, r, x);
      regions[r] := Region(true, nextId, pid, phys, pages, 0, false);
      nextId := nextId + 1;
      assert regions[..] == regions0[r := x] && pmm.free == free - Frames(x);
      Closes();
      FramesAre();
    }

    lemma Apart()
      requires Separate()
      ensures var bitmap: object := pmm.bitmap; bitmap != regions && bitmap != attachments
    {}

    lemma Bounds(free: set<nat>)
      requires Sound(regions[..], attachments[..], spaces, nextId, free)
      ensures nextId > 0 && regions.Length == REGIONS && attachments.Length == ATTACHMENTS
    {}

    lemma FramesOfRun(x: Region)
      requires x.inUse
      ensures PAGE_SIZE > 0 && Frames(x) == Run(x.phys / PAGE_SIZE, x.pages)
    {}

    lemma TakenRun(free: set<nat>, phys: nat, count: nat)
      requires phys != 0 && phys % PAGE_SIZE == 0 && phys / PAGE_SIZE + count <= FRAME_COUNT &&
        LowestRun(free, phys / PAGE_SIZE, count)
      ensures PAGE_SIZE > 0 && Run(phys / PAGE_SIZE, count) <= free
      ensures (free - Run(phys / PAGE_SIZE, count)) + Tracked(Run(phys / PAGE_SIZE, count)) == free
    {
      AllTracked(phys / PAGE_SIZE, count);
    }

    /** vm_space_reserve_shm_range: the next free address of the process's window, 0 when the range does not fit. The
        size of the range is computed in 64 bits: only below 2^52 pages is it the size of all of them. */
    method Reserve(pid: nat, pages: nat) returns (base: nat)
      requires pid in spaces && SHM_BASE <= spaces[pid].cursor <= SHM_LIMIT
      modifies `spaces
      ensures base == 0 <==>
        pages % WRAP_PAGES == 0 || !FitsWindow(AlignUp(old(spaces[pid].cursor)), pages % WRAP_PAGES)
      ensures base == 0 ==> spaces == old(spaces)
      ensures base != 0 ==>
        base == AlignUp(old(spaces[pid].cursor)) && old(spaces[pid].cursor) <= base &&
        spaces == old(spaces)[pid := old(spaces[pid]).(cursor := base + PAGE_SIZE * (pages % WRAP_PAGES))] &&
        base + PAGE_SIZE * (pages % WRAP_PAGES) <= SHM_LIMIT &&
        (base + PAGE_SIZE * pages <= SHM_LIMIT <==> pages < WRAP_PAGES)
    {
      if pages == 0 {
        return 0;
      }
      SpanIs(pages);
      var span := pages * PAGE_SIZE % WRAP64;
      if span == 0 {
        return 0;
      }
      base := (spaces[pid].cursor + 4095) / PAGE_SIZE * PAGE_SIZE;
      var next := (base + span) % WRAP64;
      if next < base {
        return 0;
      }
      if base < SHM_BASE || next > SHM_LIMIT {
        return 0;
      }
      spaces := spaces[pid := spaces[pid].(cursor := next)];
    }

    ghost function S(): (s: State)
      reads this, regions, attachments
      ensures s == State(regions[..], attachments[..], spaces, nextId)
    {
      State(regions[..], attachments[..], spaces, nextId)
    }

    /** shm_attach; mapOk says whether the pages could be mapped. The address of the region, which stays the same
        when it is attached already; 0 on failure, which at most uses up addresses. */
    method Attach(pid: nat, id: int, mapOk: bool) returns (addr: nat)
      requires Valid() && pid in spaces
      modifies `spaces, regions, attachments
      ensures Valid()
      ensures addr == 0 <==>
        !(exists a: nat :: id > 0 && Attached(old(attachments[..]), pid, id, a)) &&
          !(mapOk && CanAttach(old(S()), pid, id))
      ensures addr == 0 ==> Refused(old(S()), S(), pid)
      ensures addr != 0 ==> AttachedAgain(old(S()), S(), pid, id, addr) || AttachedNew(old(S()), S(), pid, id, addr)
    {
      hide *;
      Opens();
      ghost var s := S();
      if id <= 0 {
        Unknown(s, pmm.free, pid, id);
        return 0;
      }
      var r := FindRegion(id);
      assert regions[..] == s.regions;
      if r < 0 {
        Unknown(s, pmm.free, pid, id);
        return 0;
      }
      var found := FindAttachment(pid, id);
      if found >= 0 {
        Found(s, pmm.free, pid, id, found);
        return attachments[found].base;
      }
      Ready(s, pmm.free, pid, id, r);
      var pages := regions[r].pages;
      addr := Reserve(pid, pages);
      if addr == 0 {
        NotNow(s, S(), pmm.free, pid, s.spaces[pid].cursor);
        return 0;
      }
      var a := FreeAttachment();
      assert attachments[..] == s.atts && regions[..] == s.regions;
      if a < 0 {
        NoSlot(s, pid, id);
        NotNow(s, S(), pmm.free, pid, spaces[pid].cursor);
        Closes();
        return 0;
      }
      Enter(s, pid, id, addr, a, r, mapOk);
      if !mapOk {
        return 0;
      }
    }

    /** The bookkeeping of shm_attach around the mapping of the pages, which is undone when they cannot be mapped. */
    method Enter(ghost s: State, pid: nat, id: nat, addr: nat, a: nat, r: nat, mapOk: bool)
      requires pmm.Valid() && Separate() && Sound(s.regions, s.atts, s.spaces, s.nextId, pmm.free) &&
        pid in s.spaces && r < REGIONS && a < ATTACHMENTS
      requires regions[..] == s.regions && attachments[..] == s.atts && nextId == s.nextId && id > 0
      requires Is(s.regions, r, id) &&
        (forall t: nat | Is(s.regions, t, id) :: t == r) && (forall b: nat :: !Attached(s.atts, pid, id, b))
      requires a < |s.atts| && !s.atts[a].inUse && addr == AlignUp(s.spaces[pid].cursor) &&
        FitsWindow(addr, s.regions[r].pages)
      requires spaces == s.spaces[pid := s.spaces[pid].(cursor := addr + PAGE_SIZE * s.regions[r].pages)]
      modifies `spaces, regions, attachments
      ensures Valid()
      ensures mapOk ==> AttachedNew(s, S(), pid, id, addr)
      ensures !mapOk ==> Refused(s, S(), pid)
    {
      hide *;
      Apart();
      Bounds2(s, pmm.free);
      ghost var x := Attachment(true, id, pid, addr, regions[r].pages);
      EndIs(x);
      Uncharged(s, pmm.free, a, r, x);
      attachments[a] := Attachment(true, id, pid, addr, regions[r].pages);
      regions[r] := regions[r].(refs := regions[r].refs + 1);
      ghost var s1 := S();
      assert s1.atts == s.atts[a := x] && s1.regions == s.regions[r := s.regions[r].(refs := s.regions[r].refs + 1)];
      if !mapOk {
        Undo(s, s1, pid, id, addr, a, r, End(x));
        return;
      }
      spaces := spaces[pid := spaces[pid].(attached := spaces[pid].attached + 1,
        pages := spaces[pid].pages + regions[r].pages)];
      assert S().atts == s1.atts && S().regions == s1.regions;
      NowAttached(s, S(), r, a, x);
      Closes();
    }

    method Undo(ghost s: State, ghost s1: State, pid: nat, id: nat, addr: nat, ghost a: nat, ghost r: nat,
        ghost cursor: nat)
      requires pmm.Valid() && Separate() && Sound(s.regions, s.atts, s.spaces, s.nextId, pmm.free) &&
        pid in s.spaces && r < REGIONS && a < ATTACHMENTS
      requires s1 == S() && Core(s1.regions, s1.atts, s1.spaces, s1.nextId, pmm.free) && a < |s.atts| &&
        !s.atts[a].inUse && r < |s.regions|
      requires s1.atts == s.atts[a := s1.atts[a]] && AttachedAt(s1.atts, pid, addr, a) && s1.nextId == s.nextId
      requires s1.regions == s.regions[r := s.regions[r].(refs := s.regions[r].refs + 1)] && Is(s1.regions, r, id)
      requires s1.spaces == s.spaces[pid := s.spaces[pid].(cursor := cursor)] &&
        s.spaces[pid].cursor <= cursor <= SHM_LIMIT
      modifies regions, attachments
      ensures Valid() && Refused(s, S(), pid)
    {
      hide *;
      Apart();
      var b := FindByAddress(pid, addr);
      if b >= 0 {
        OneAtAddress(s1.regions, s1.atts, s1.spaces, s1.nextId, pmm.free, pid, addr, a, b);
        SlotReused(s.atts, a, attachments[b].(inUse := false));
        attachments[b] := attachments[b].(inUse := false);
      }
      assert attachments[..] == s.atts[a := s1.atts[a].(inUse := false)];
      var t := FindRegion(id);
      assert regions[..] == s1.regions;
      assert t >= 0;
      OneRegion(s1.regions, s1.atts, s1.spaces, s1.nextId, pmm.free, r, t, id);
      assert regions[..][r] == regions[r];
      if t >= 0 && regions[t].refs > 0 {
        regions[t] := regions[t].(refs := regions[t].refs - 1);
      }
      assert regions[..] == s.regions;
      assert S().atts == s.atts[a := s1.atts[a].(inUse := false)];
      NotNow(s, S(), pmm.free, pid, cursor);
      Closes();
    }

    /** shm_detach; unmapOk says whether the pages could be unmapped, which only shows in the result. */
    method Detach(pid: nat, addr: nat, unmapOk: bool) returns (rc: int)
      requires Valid() && pid in spaces
      modifies `spaces, regions, attachments, pmm, pmm.bitmap
      ensures Valid() && AllFrames() == old(AllFrames())
      ensures (forall a: nat :: !AttachedAt(old(attachments[..]), pid, addr, a)) ==>
        rc == -1 && S() == old(S()) && pmm.free == old(pmm.free)
      ensures (exists a: nat :: AttachedAt(old(attachments[..]), pid, addr, a)) ==>
        rc == (if unmapOk then 0 else -1) &&
        exists a: nat, r: nat {:trigger Detached(old(S()), S(), old(pmm.free), pmm.free, a, r)} ::
          AttachedAt(old(attachments[..]), pid, addr, a) && Detached(old(S()), S(), old(pmm.free), pmm.free, a, r)
    {
      hide *;
      Opens();
      FramesAre();
      ghost var s, free := S(), pmm.free;
      if addr == 0 {
        NoAttachmentAtZero(s, free, pid);
        return -1;
      }
      var a := FindByAddress(pid, addr);
      assert attachments[..] == s.atts && regions[..] == s.regions;
      if a < 0 {
        return -1;
      }
      IsAttachedAt(s.atts, pid, addr, a);
      Bounds2(s, free);
      ghost var r0 := RegionOfAttachment(s.regions, s.atts, s.spaces, s.nextId, free, a);
      var id := Leave(s, free, pid, a, r0);
      ghost var s1 := S();
      LeavingKeeps(s, s1, free, a, r0);
      FramesAre();
      var r := FindRegion(id);
      assert regions[..] == s1.regions;
      assert r >= 0;
      OneRegion(s1.regions, s1.atts, s1.spaces, s1.nextId, free, r0, r, id);
      Whole();
      Reap(r);
      SettledIs(s1.regions, r);
      Parts();
      assert attachments[..] == s1.atts;
      DetachDone(s, s1, S(), free, pmm.free, a, r0);
      Closes();
      return if unmapOk then 0 else -1;
    }

    /** The part of shm_detach that ends the attachment and settles the process's account. */
    method Leave(ghost s: State, ghost free: set<nat>, pid: nat, a: nat, ghost r0: nat) returns (id: nat)
      requires s == S() && pmm.Valid() && Separate() && Sound(s.regions, s.atts, s.spaces, s.nextId, free) &&
        a < attachments.Length
      requires attachments[a].inUse && attachments[a].pid == pid && pid in spaces &&
        Is(s.regions, r0, attachments[a].id) && s.regions[r0].refs > 0
      requires forall t: nat | Is(s.regions, t, attachments[a].id) :: t == r0
      modifies `spaces, regions, attachments
      ensures Leaving(s, S(), a, r0) && id == s.atts[a].id
    {
      id := attachments[a].id;
      var pages := attachments[a].pages;
      assert attachments[..][a] == attachments[a] && regions[..][r0] == regions[r0];
      hide Sound;
      attachments[a] := attachments[a].(inUse := false);
      var r := FindRegion(id);
      assert regions[..] == s.regions;
      assert r >= 0 && r == r0;
      if r >= 0 && regions[r].refs > 0 {
        regions[r] := regions[r].(refs := regions[r].refs - 1);
      }
      var space := spaces[pid];
      space := space.(pages := if space.pages > pages then space.pages - pages else 0);
      if space.attached > 0 {
        space := space.(attached := space.attached - 1);
      }
      if space.attached == 0 {
        space := space.(cursor := FirstCursor(pid));
      }
      spaces := spaces[pid := space];
      assert S().regions == s.regions[r0 := s.regions[r0].(refs := s.regions[r0].refs - 1)];
      assert S().atts == s.atts[a := s.atts[a].(inUse := false)];
    }

    lemma Whole()
      requires pmm.Valid() && Separate() && Core(regions[..], attachments[..], spaces, nextId, pmm.free)
      ensures Base()
    {}

    lemma Parts()
      requires Base()
      ensures pmm.Valid() && Separate() && Core(regions[..], attachments[..], spaces, nextId, pmm.free)
    {}

    /** shm_destroy: only a region that nobody is attached to. */
    method Destroy(id: int) returns (rc: int)
      requires Valid()
      modifies regions, pmm, pmm.bitmap
      ensures Valid() && AllFrames() == old(AllFrames()) && (rc == 0 || rc == -1)
      ensures rc == 0 <==> exists r: nat :: id > 0 && Is(old(regions[..]), r, id) && old(regions[..])[r].refs == 0
      ensures rc == -1 ==> regions[..] == old(regions[..]) && pmm.free == old(pmm.free)
      ensures rc == 0 ==> exists r: nat ::
        (Is(old(regions[..]), r, id) && regions[..] == old(regions[..])[r := NO_REGION] &&
                                            pmm.free == old(pmm.free) + Frames(old(regions[..])[r]))
    {
      hide *;
      Opens();
      FramesAre();
      ghost var s, free := S(), pmm.free;
      if id <= 0 {
        return -1;
      }
      var r := FindRegion(id);
      assert regions[..] == s.regions;
      if r < 0 {
        return -1;
      }
      OnlyOne(s, free, id, r);
      assert regions[..][r] == regions[r];
      if regions[r].refs > 0 {
        return -1;
      }
      MarkedToGo(s, free, r);
      regions[r] := regions[r].(pending := true);
      assert regions[..] == s.regions[r := s.regions[r].(pending := true)];
      assert attachments[..] == s.atts;
      Whole();
      FramesAre();
      Reap(r);
      Parts();
      assert regions[..] == s.regions[r := NO_REGION] && attachments[..] == s.atts;
      DestroyedSound(s, free, pmm.free, r);
      Closes();
      return 0;
    }

    /** shm_process_cleanup: every attachment of the process ends, and the regions it owned or was
        the last to hold go. */
    method Cleanup(pid: nat)
      requires Valid() && pid in spaces
      modifies `spaces, regions, attachments, pmm, pmm.bitmap
      ensures Valid() && AllFrames() == old(AllFrames())
      ensures spaces == old(spaces)[pid := Space(FirstCursor(pid), 0, 0)]
      ensures |old(attachments[..])| == |attachments[..]| == ATTACHMENTS
      ensures forall a {:trigger attachments[..][a]} | 0 <= a < ATTACHMENTS ::
        attachments[..][a] == if old(attachments[..])[a].pid == pid then old(attachments[..])[a].(inUse := false)
          else old(attachments[..])[a]
      ensures |old(regions[..])| == |regions[..]| == REGIONS
      ensures forall r {:trigger regions[..][r]} | 0 <= r < REGIONS ::
        regions[..][r] == Cleaned(old(regions[..])[r], attachments[..], pid)
    {
      hide *;
      Opens();
      FramesAre();
      ghost var s, free := S(), pmm.free;
      SoundCore(s, free);
      var pages, ids := EndAll(s, pid);
      ghost var regions1, atts := regions[..], attachments[..];
      FramesAre();
      Parts();
      SettledAccount(s, atts, regions1, free, pid);
      OrphanAll(pid);
      ghost var regions2 := regions[..];
      Parts();
      SettleAccount(pid, pages);
      assert attachments[..] == atts && regions[..] == regions2;
      SpaceKeepsCore(regions2, atts, s.spaces, nextId, free, pid, Space(FirstCursor(pid), 0, 0));
      Whole();
      FramesAre();
      ReapAll(ids);
      assert attachments[..] == atts;
      CleanedUp(s.regions, s.atts, regions1, atts, regions2, regions[..], s.spaces, nextId, free, pid);
      EndedAre(s.regions, s.atts, regions1, atts, pid);
      Parts();
      SoundAgain(regions[..], atts, spaces, nextId, pmm.free);
      Closes();
    }

    /** The first loop of shm_process_cleanup: ends the attachments, and lists their pages and regions. */
    method EndAll(ghost s: State, pid: nat) returns (pages: seq<nat>, ids: seq<nat>)
      requires Valid() && s == S()
      modifies regions, attachments
      ensures Base() && Ending(s.regions, s.atts, regions[..], attachments[..], pid, ATTACHMENTS) &&
        Total(pages) == PagesOf(s.atts, pid)
      ensures Owned(regions[..]) == Owned(s.regions)
    {
      hide *;
      Opens();
      pages, ids := [], [];
      EndingStarts(s.regions, s.atts, pid);
      SoundCore(s, pmm.free);
      Whole();
      for i := 0 to attachments.Length
        invariant Base() && |pages| <= i && Ending(s.regions, s.atts, regions[..], attachments[..], pid, i)
        invariant Total(pages) == PagesOf(s.atts[..i], pid) && Owned(regions[..]) == Owned(s.regions)
      {
        var att := attachments[i];
        TotalOfPages(s.atts, pid, i);
        EndingStep(s.regions, s.atts, regions[..], attachments[..], pid, i, 0, 0);
        ShareOf(s.atts[i], pid);
        assert attachments[..][i] == attachments[i];
        if att.inUse && att.pid == pid {
          if |pages| < 256 {
            TotalMore(pages, att.pages);
            pages, ids := pages + [att.pages], ids + [att.id];
          }
          ghost var regions0, atts0 := regions[..], attachments[..];
          ghost var r := EndOne(i);
          EndingStep(s.regions, s.atts, regions0, atts0, pid, i, r, regions[..][r].refs);
        }
      }
      assert s.atts[..attachments.Length] == s.atts;
    }

    method EndOne(i: nat) returns (ghost r: nat)
      requires Base() && i < attachments.Length && attachments[i].inUse
      modifies regions, attachments
      ensures Base() && Owned(regions[..]) == old(Owned(regions[..]))
      ensures r < |old(regions[..])| && old(regions[..])[r].inUse &&
        regions[..] == old(regions[..])[r := old(regions[..])[r].(refs := regions[..][r].refs)]
      ensures attachments[..] == old(attachments[..])[i := old(attachments[..])[i].(inUse := false)]
    {
      hide *;
      Parts();
      Apart();
      Sizes();
      var id := attachments[i].id;
      ghost var regions0, atts0 := regions[..], attachments[..];
      assert atts0[i] == attachments[i];
      r := RegionOfAttachment(regions0, atts0, spaces, nextId, pmm.free, i);
      DropKeeps(regions0, atts0, spaces, nextId, pmm.free, i, r);
      var region := FindRegion(id);
      assert regions[..] == regions0;
      assert region >= 0 && region == r && regions0[r] == regions[r];
      if region >= 0 && regions[region].refs > 0 {
        regions[region] := regions[region].(refs := regions[region].refs - 1);
      }
      attachments[i] := attachments[i].(inUse := false);
      assert regions[..] == regions0[r := regions0[r].(refs := regions0[r].refs - 1)];
      assert attachments[..] == atts0[i := atts0[i].(inUse := false)];
      Whole();
    }

    lemma Sizes()
      requires Base()
      ensures regions.Length == 64 == REGIONS && attachments.Length == 256 == ATTACHMENTS
    {}

    /** The second loop: the process's regions lose their owner and are to be destroyed. */
    method OrphanAll(pid: nat)
      requires Base()
      modifies regions
      ensures Base() && Orphaned(old(regions[..]), regions[..], pid, REGIONS) &&
        Owned(regions[..]) == old(Owned(regions[..]))
    {
      hide *;
      Sizes();
      Parts();
      Apart();
      ghost var regions0 := regions[..];
      OrphanStarts(regions0, pid);
      for r := 0 to regions.Length
        invariant Base() && Orphaned(regions0, regions[..], pid, r) && Owned(regions[..]) == Owned(regions0)
      {
        Parts();
        OrphanStep(regions0, regions[..], pid, r);
        assert regions[..][r] == regions[r];
        if regions[r].inUse && regions[r].owner == pid {
          ghost var before := regions[..];
          OrphanedKeepsCore(before, attachments[..], spaces, nextId, pmm.free, r);
          regions[r] := regions[r].(owner := 0, pending := true);
          assert regions[..] == before[r := before[r].(owner := 0, pending := true)];
          Whole();
        }
      }
    }

    /** The account of the process: vm_space_note_shm_detach for each attachment, then the counter and the cursor. */
    method SettleAccount(pid: nat, pages: seq<nat>)
      requires pid in spaces && spaces[pid].pages == Total(pages)
      modifies `spaces
      ensures spaces == old(spaces)[pid := Space(FirstCursor(pid), 0, 0)]
    {
      var left := spaces[pid].pages;
      for j := 0 to |pages|
        invariant left == Total(pages) - Total(pages[..j]) && spaces == old(spaces)
      {
        TotalStep(pages, j);
        TotalPrefix(pages, j + 1);
        left := if left > pages[j] then left - pages[j] else 0;
      }
      assert pages[..|pages|] == pages;
      spaces := spaces[pid := spaces[pid].(pages := left)];
      spaces := spaces[pid := spaces[pid].(attached := 0, cursor := FirstCursor(pid))];
    }

    /** The last two loops: the regions of the ended attachments, and then all others that are to go. */
    method ReapAll(ids: seq<nat>)
      requires Base()
      modifies regions, pmm, pmm.bitmap
      ensures Base() && AllFrames() == old(AllFrames()) && Reaping(old(regions[..]), regions[..], REGIONS)
    {
      hide *;
      Sizes();
      ghost var regions0 := regions[..];
      ReapingStarts(regions0);
      for j := 0 to |ids|
        invariant Base() && AllFrames() == old(AllFrames()) && Reaping(regions0, regions[..], 0)
      {
        var r := FindRegion(ids[j]);
        if r >= 0 {
          Sizes();
          ReapingStep(regions0, regions[..], 0, r);
          Reap(r);
        }
      }
      for r := 0 to regions.Length
        invariant Base() && AllFrames() == old(AllFrames()) && Reaping(regions0, regions[..], r)
      {
        ReapingStep(regions0, regions[..], r, r);
        GoesInUse(regions[..][r]);
        assert regions[..][r] == regions[r];
        if regions[r].inUse {
          Reap(r);
        }
      }
    }

    /** What every caller can rely on between calls. */
    lemma Guarantees(r: nat, a: nat, b: nat)
      requires Valid() && r < regions.Length && a < attachments.Length && b < attachments.Length
      ensures regions[r].inUse ==>
        regions[r].refs == |Holders(attachments[..], regions[r].id)| && Frames(regions[r]) !! pmm.free
      ensures attachments[a].inUse ==>
        (exists t: nat :: Is(regions[..], t, attachments[a].id) && regions[..][t].pages == attachments[a].pages) &&
        SHM_BASE <= attachments[a].base < End(attachments[a]) <= SHM_LIMIT
      ensures attachments[a].inUse && attachments[b].inUse && attachments[a].pid == attachments[b].pid && a != b ==>
        attachments[a].id != attachments[b].id &&
        (End(attachments[a]) <= attachments[b].base || End(attachments[b]) <= attachments[a].base)
    {
      assert RegionOk(regions[..], attachments[..], nextId, pmm.free, r);
      assert AttachmentOk(regions[..], attachments[..], spaces, a);
      assert AttachmentsApart(attachments[..], a, b);
    }
  }
}
