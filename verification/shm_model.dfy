/** Shared memory regions and attachments (ipc/shm.c, mm/vm_space.c) as values, and what every call keeps. */
module ShmModel {
  import opened Pmm

  const REGIONS: nat := 64
  const ATTACHMENTS: nat := 256
  /** The window of the address space that regions are attached in. */
  const SHM_BASE: nat := 0x4000_0000
  const SHM_LIMIT: nat := 0x8000_0000

  datatype Region = Region(inUse: bool, id: nat, owner: nat, phys: nat, pages: nat, refs: nat, pending: bool)
  datatype Attachment = Attachment(inUse: bool, id: nat, pid: nat, base: nat, pages: nat)
  /** A process's next address in the window, and its counts of attachments and attached pages. */
  datatype Space = Space(cursor: nat, attached: nat, pages: nat)

  const NO_REGION: Region := Region(false, 0, 0, 0, 0, 0, false)

  function FirstCursor(pid: nat): nat {
    SHM_BASE + pid % 64 * 0x100_0000
  }

  function Holders(atts: seq<Attachment>, id: nat): set<nat> {
    set a: nat | a < |atts| && atts[a].inUse && atts[a].id == id
  }

  function Of(atts: seq<Attachment>, pid: nat): set<nat> {
    set a: nat | a < |atts| && atts[a].inUse && atts[a].pid == pid
  }

  function PagesOf(atts: seq<Attachment>, pid: nat): nat {
    if atts == [] then 0
    else PagesOf(atts[..|atts| - 1], pid) + Share(atts[|atts| - 1], pid)
  }

  function Share(a: Attachment, pid: nat): nat {
    if a.inUse && a.pid == pid then a.pages else 0
  }

  function Frames(r: Region): set<nat> {
    if r.inUse then Run(r.phys / PAGE_SIZE, r.pages) else {}
  }

  /** All frames of regions in use. */
  function Owned(regions: seq<Region>): set<nat> {
    if regions == [] then {} else Owned(regions[..|regions| - 1]) + Frames(regions[|regions| - 1])
  }

  // ---- the invariant ----

  ghost predicate RegionOk(regions: seq<Region>, atts: seq<Attachment>, nextId: nat, free: set<nat>, r: nat)
    requires r < |regions|
  {
    regions[r].inUse ==>
      0 < regions[r].id < nextId && regions[r].pages > 0 && regions[r].phys > 0 && regions[r].phys % PAGE_SIZE == 0 &&
      regions[r].phys / PAGE_SIZE + regions[r].pages <= FRAME_COUNT && Frames(regions[r]) !! free &&
      regions[r].refs == |Holders(atts, regions[r].id)|
  }

  ghost predicate RegionsApart(regions: seq<Region>, r: nat, s: nat)
    requires r < |regions| && s < |regions|
  {
    regions[r].inUse && regions[s].inUse && r != s ==>
      regions[r].id != regions[s].id && Frames(regions[r]) !! Frames(regions[s])
  }

  predicate Is(regions: seq<Region>, r: nat, id: nat) {
    r < |regions| && regions[r].inUse && regions[r].id == id
  }

  function End(a: Attachment): nat {
    a.base + PAGE_SIZE * a.pages
  }

  /** An attachment is to a live region, by a known process, inside the window and below its cursor. */
  ghost predicate AttachmentOk(regions: seq<Region>, atts: seq<Attachment>, spaces: map<nat, Space>, a: nat)
    requires a < |atts|
  {
    atts[a].inUse ==>
      (exists r: nat :: Is(regions, r, atts[a].id) && regions[r].pages == atts[a].pages) &&
      atts[a].pid in spaces && atts[a].pages > 0 && atts[a].base % PAGE_SIZE == 0 &&
      SHM_BASE <= atts[a].base && End(atts[a]) <= spaces[atts[a].pid].cursor
  }

  /** One process attaches a region once, and its attachments do not overlap. */
  predicate AttachmentsApart(atts: seq<Attachment>, a: nat, b: nat)
    requires a < |atts| && b < |atts|
  {
    atts[a].inUse && atts[b].inUse && a != b && atts[a].pid == atts[b].pid ==>
      atts[a].id != atts[b].id && (End(atts[a]) <= atts[b].base || End(atts[b]) <= atts[a].base)
  }

  /** Everything but the counts per process and what waits to be destroyed. */
  ghost predicate Core(regions: seq<Region>, atts: seq<Attachment>, spaces: map<nat, Space>, nextId: nat,
      free: set<nat>) {
    |regions| == REGIONS && |atts| == ATTACHMENTS && nextId > 0 &&
    (forall r: nat {:trigger RegionOk(regions, atts, nextId, free, r)} | r < REGIONS ::
      RegionOk(regions, atts, nextId, free, r)) &&
    (forall r: nat, s: nat {:trigger RegionsApart(regions, r, s)} | r < REGIONS && s < REGIONS ::
      RegionsApart(regions, r, s)) &&
    (forall a: nat {:trigger AttachmentOk(regions, atts, spaces, a)} | a < ATTACHMENTS ::
      AttachmentOk(regions, atts, spaces, a)) &&
    (forall a: nat, b: nat {:trigger AttachmentsApart(atts, a, b)} | a < ATTACHMENTS && b < ATTACHMENTS ::
      AttachmentsApart(atts, a, b)) &&
    (forall pid {:trigger spaces[pid]} | pid in spaces :: SHM_BASE <= spaces[pid].cursor <= SHM_LIMIT)
  }

  ghost predicate Tallied(atts: seq<Attachment>, spaces: map<nat, Space>, pid: nat)
    requires pid in spaces
  {
    spaces[pid].attached == |Of(atts, pid)| && spaces[pid].pages == PagesOf(atts, pid) &&
    PAGE_SIZE * spaces[pid].pages <= spaces[pid].cursor - SHM_BASE
  }

  ghost predicate Tally(atts: seq<Attachment>, spaces: map<nat, Space>) {
    forall pid {:trigger Tallied(atts, spaces, pid)} | pid in spaces :: Tallied(atts, spaces, pid)
  }

  /** A region waits for its destruction only while someone is attached. */
  predicate Waiting(regions: seq<Region>) {
    forall r {:trigger regions[r]} | 0 <= r < |regions| && regions[r].inUse && regions[r].pending :: regions[r].refs > 0
  }

  ghost predicate Sound(regions: seq<Region>, atts: seq<Attachment>, spaces: map<nat, Space>, nextId: nat,
      free: set<nat>) {
    Core(regions, atts, spaces, nextId, free) && Tally(atts, spaces) && Waiting(regions)
  }

  // ---- frames ----

  lemma {:induction false} OwnedUpdate(regions: seq<Region>, r: nat, x: Region)
    requires r < |regions|
    ensures Owned(regions[r := x]) + Frames(regions[r]) == Owned(regions) + Frames(x) +
      (Owned(regions[r := x]) * Frames(regions[r]))
    ensures forall f | f in Owned(regions[r := x]) :: f in Frames(x) || f in Owned(regions)
    ensures forall f | f in Owned(regions) :: f in Frames(regions[r]) || f in Owned(regions[r := x])
    ensures Frames(x) <= Owned(regions[r := x]) && Frames(regions[r]) <= Owned(regions)
  {
    var n := |regions| - 1;
    if r < n {
      OwnedUpdate(regions[..n], r, x);
      assert regions[r := x][..n] == regions[..n][r := x];
    } else {
      assert regions[r := x][..n] == regions[..n];
    }
  }

  lemma {:induction false} OwnedApart(regions: seq<Region>, free: set<nat>)
    requires forall r {:trigger regions[r]} | 0 <= r < |regions| :: Frames(regions[r]) !! free
    ensures Owned(regions) !! free
  {
    if regions != [] {
      OwnedApart(regions[..|regions| - 1], free);
    }
  }

  lemma {:induction false} OwnedSame(regions: seq<Region>, regions': seq<Region>)
    requires |regions'| == |regions| && forall r {:trigger regions[r]} {:trigger regions'[r]} | 0 <= r < |regions| ::
      Frames(regions'[r]) == Frames(regions[r])
    ensures Owned(regions') == Owned(regions)
  {
    if regions != [] {
      OwnedSame(regions[..|regions| - 1], regions'[..|regions| - 1]);
    }
  }

  // ---- counting ----

  lemma {:induction false} PagesUpdate(atts: seq<Attachment>, a: nat, x: Attachment, pid: nat)
    requires a < |atts|
    ensures PagesOf(atts[a := x], pid) == PagesOf(atts, pid) - Share(atts[a], pid) + Share(x, pid)
  {
    var n := |atts| - 1;
    if a < n {
      PagesUpdate(atts[..n], a, x, pid);
      assert atts[a := x][..n] == atts[..n][a := x];
    } else {
      assert atts[a := x][..n] == atts[..n];
    }
  }

  lemma {:induction false} NoPages(atts: seq<Attachment>, pid: nat)
    requires Of(atts, pid) == {}
    ensures PagesOf(atts, pid) == 0
  {
    if atts != [] {
      var n := |atts| - 1;
      assert !(atts[n].inUse && atts[n].pid == pid) by {
        assert n !in Of(atts, pid);
      }
      assert forall a | a in Of(atts[..n], pid) :: a in Of(atts, pid);
      NoPages(atts[..n], pid);
    }
  }

  lemma CountsUpdate(atts: seq<Attachment>, a: nat, x: Attachment, id: nat, pid: nat)
    requires a < |atts|
    ensures |Holders(atts[a := x], id)| ==
      |Holders(atts, id)| - (if atts[a].inUse && atts[a].id == id then 1 else 0) +
        (if x.inUse && x.id == id then 1 else 0)
    ensures |Of(atts[a := x], pid)| ==
      |Of(atts, pid)| - (if atts[a].inUse && atts[a].pid == pid then 1 else 0) +
        (if x.inUse && x.pid == pid then 1 else 0)
  {
    assert Holders(atts[a := x], id) - {a} == Holders(atts, id) - {a};
    assert Of(atts[a := x], pid) - {a} == Of(atts, pid) - {a};
    Without(Holders(atts[a := x], id), a);
    Without(Holders(atts, id), a);
    Without(Of(atts[a := x], pid), a);
    Without(Of(atts, pid), a);
  }

  lemma Without(s: set<nat>, a: nat)
    ensures |s - {a}| == |s| - if a in s then 1 else 0
  {
    if a in s {
      assert s == (s - {a}) + {a};
    } else {
      assert s - {a} == s;
    }
  }

  // ---- steps ----

  lemma HoldersOther(atts: seq<Attachment>, a: nat, x: Attachment, id: nat)
    requires a < |atts| && !(atts[a].inUse && atts[a].id == id) && !(x.inUse && x.id == id)
    ensures Holders(atts[a := x], id) == Holders(atts, id)
  {}

  /** An attachment goes, and the region counts one less. */
  lemma DropKeepsCore(regions: seq<Region>, atts: seq<Attachment>, spaces: map<nat, Space>, nextId: nat,
      free: set<nat>, a: nat, r: nat)
    requires Core(regions, atts, spaces, nextId, free) && a < ATTACHMENTS && atts[a].inUse && Is(regions, r, atts[a].id)
    ensures regions[r].refs > 0
    ensures Core(regions[r := regions[r].(refs := regions[r].refs - 1)], atts[a := atts[a].(inUse := false)], spaces,
      nextId, free)
  {
    var x := atts[a].(inUse := false);
    assert RegionOk(regions, atts, nextId, free, r) && a in Holders(atts, atts[a].id);
    var regions', atts' := regions[r := regions[r].(refs := regions[r].refs - 1)], atts[a := x];
    CountsUpdate(atts, a, x, atts[a].id, 0);
    forall s: nat | s < REGIONS ensures RegionOk(regions', atts', nextId, free, s) {
      assert RegionOk(regions, atts, nextId, free, s) && RegionsApart(regions, r, s);
      if s != r && regions[s].inUse {
        HoldersOther(atts, a, x, regions[s].id);
      }
    }
    forall s: nat, t: nat | s < REGIONS && t < REGIONS ensures RegionsApart(regions', s, t) {
      assert RegionsApart(regions, s, t);
    }
    forall b: nat | b < ATTACHMENTS ensures AttachmentOk(regions', atts', spaces, b) {
      assert AttachmentOk(regions, atts, spaces, b);
      StillThere(regions, regions', atts[b].id, atts[b].pages);
    }
    forall b: nat, c: nat | b < ATTACHMENTS && c < ATTACHMENTS ensures AttachmentsApart(atts', b, c) {
      assert AttachmentsApart(atts, b, c);
    }
  }

  /** Regions keep their attachments when they keep their number and size. */
  lemma StillThere(regions: seq<Region>, regions': seq<Region>, id: nat, pages: nat)
    requires |regions'| == |regions|
    requires forall r {:trigger regions'[r]} | 0 <= r < |regions| && regions[r].inUse && regions[r].id == id ::
      regions'[r].inUse && regions'[r].id == id && regions'[r].pages == regions[r].pages
    ensures (exists r: nat :: Is(regions, r, id) && regions[r].pages == pages) ==> exists r: nat ::
      Is(regions', r, id) && regions'[r].pages == pages
  {
    if r: nat :| Is(regions, r, id) && regions[r].pages == pages {
      assert regions'[r].inUse;
      assert Is(regions', r, id);
    }
  }

  /** A process attaches a region at its cursor. */
  lemma AttachKeepsCore(regions: seq<Region>, atts: seq<Attachment>, spaces: map<nat, Space>, nextId: nat,
      free: set<nat>, a: nat, r: nat,
                        x: Attachment, space: Space)
    requires Core(regions, atts, spaces, nextId, free) && a < ATTACHMENTS && !atts[a].inUse && x.inUse &&
      x.pid in spaces
    requires Is(regions, r, x.id) && regions[r].pages == x.pages
    requires forall b {:trigger atts[b]} | 0 <= b < ATTACHMENTS && atts[b].inUse && atts[b].pid == x.pid ::
      atts[b].id != x.id
    requires x.base % PAGE_SIZE == 0 && spaces[x.pid].cursor <= x.base && End(x) <= space.cursor <= SHM_LIMIT
    ensures Core(regions[r := regions[r].(refs := regions[r].refs + 1)], atts[a := x], spaces[x.pid := space], nextId,
      free)
  {
    var regions', atts', spaces' := regions[r := regions[r].(refs := regions[r].refs + 1)], atts[a := x],
      spaces[x.pid := space];
    assert RegionOk(regions, atts, nextId, free, r);
    CountsUpdate(atts, a, x, x.id, 0);
    forall s: nat | s < REGIONS ensures RegionOk(regions', atts', nextId, free, s) {
      assert RegionOk(regions, atts, nextId, free, s) && RegionsApart(regions, r, s);
      if s != r && regions[s].inUse {
        HoldersOther(atts, a, x, regions[s].id);
      }
    }
    forall s: nat, t: nat | s < REGIONS && t < REGIONS ensures RegionsApart(regions', s, t) {
      assert RegionsApart(regions, s, t);
    }
    forall b: nat | b < ATTACHMENTS ensures AttachmentOk(regions', atts', spaces', b) {
      assert AttachmentOk(regions, atts, spaces, b);
      StillThere(regions, regions', atts'[b].id, atts'[b].pages);
    }
    forall b: nat, c: nat | b < ATTACHMENTS && c < ATTACHMENTS ensures AttachmentsApart(atts', b, c) {
      assert AttachmentsApart(atts, b, c) && AttachmentOk(regions, atts, spaces, b) &&
        AttachmentOk(regions, atts, spaces, c);
    }
  }

  /** A region nobody is attached to goes, and its frames are free. */
  lemma ReapKeepsCore(regions: seq<Region>, atts: seq<Attachment>, spaces: map<nat, Space>, nextId: nat,
      free: set<nat>, r: nat)
    requires Core(regions, atts, spaces, nextId, free) && r < REGIONS && regions[r].inUse && regions[r].refs == 0
    ensures Core(regions[r := NO_REGION], atts, spaces, nextId, free + Frames(regions[r]))
  {
    var regions', free' := regions[r := NO_REGION], free + Frames(regions[r]);
    assert RegionOk(regions, atts, nextId, free, r) && Holders(atts, regions[r].id) == {};
    forall s: nat | s < REGIONS ensures RegionOk(regions', atts, nextId, free', s) {
      assert RegionOk(regions, atts, nextId, free, s) && RegionsApart(regions, r, s);
    }
    forall s: nat, t: nat | s < REGIONS && t < REGIONS ensures RegionsApart(regions', s, t) {
      assert RegionsApart(regions, s, t);
    }
    forall b: nat | b < ATTACHMENTS ensures AttachmentOk(regions', atts, spaces, b) {
      assert AttachmentOk(regions, atts, spaces, b);
      if atts[b].inUse {
        assert b !in Holders(atts, regions[r].id);
        StillThere(regions, regions', atts[b].id, atts[b].pages);
      }
    }
  }

  /** A new region takes frames that were free. */
  lemma CreateKeepsCore(regions: seq<Region>, atts: seq<Attachment>, spaces: map<nat, Space>, nextId: nat,
      free: set<nat>, r: nat, x: Region)
    requires Core(regions, atts, spaces, nextId, free) && r < REGIONS && !regions[r].inUse && x.inUse &&
      x.id == nextId && x.refs == 0
    requires x.pages > 0 && x.phys > 0 && x.phys % PAGE_SIZE == 0 && x.phys / PAGE_SIZE + x.pages <= FRAME_COUNT &&
      Frames(x) <= free
    ensures Core(regions[r := x], atts, spaces, nextId + 1, free - Frames(x))
  {
    var regions', free' := regions[r := x], free - Frames(x);
    forall b: nat | b < ATTACHMENTS && atts[b].inUse ensures atts[b].id < nextId {
      assert AttachmentOk(regions, atts, spaces, b);
      var s: nat :| Is(regions, s, atts[b].id) && regions[s].pages == atts[b].pages;
      assert RegionOk(regions, atts, nextId, free, s);
    }
    assert Holders(atts, nextId) == {};
    forall s: nat | s < REGIONS
      ensures RegionOk(regions', atts, nextId + 1, free', s) && (s != r ==> Frames(regions[s]) !! Frames(x)) {
      assert RegionOk(regions, atts, nextId, free, s);
    }
    forall s: nat, t: nat | s < REGIONS && t < REGIONS ensures RegionsApart(regions', s, t) {
      assert RegionsApart(regions, s, t) && RegionOk(regions, atts, nextId, free, s) &&
        RegionOk(regions, atts, nextId, free, t);
    }
    forall b: nat | b < ATTACHMENTS ensures AttachmentOk(regions', atts, spaces, b) {
      assert AttachmentOk(regions, atts, spaces, b);
      StillThere(regions, regions', atts[b].id, atts[b].pages);
    }
  }

  /** Owner and destruction mark are nobody else's business. */
  lemma MarkKeepsCore(regions: seq<Region>, atts: seq<Attachment>, spaces: map<nat, Space>, nextId: nat,
      free: set<nat>, r: nat, owner: nat, pending: bool)
    requires Core(regions, atts, spaces, nextId, free) && r < REGIONS
    ensures Core(regions[r := regions[r].(owner := owner, pending := pending)], atts, spaces, nextId, free)
  {
    var regions' := regions[r := regions[r].(owner := owner, pending := pending)];
    forall s: nat | s < REGIONS ensures RegionOk(regions', atts, nextId, free, s) {
      assert RegionOk(regions, atts, nextId, free, s);
    }
    forall s: nat, t: nat | s < REGIONS && t < REGIONS ensures RegionsApart(regions', s, t) {
      assert RegionsApart(regions, s, t);
    }
    forall b: nat | b < ATTACHMENTS ensures AttachmentOk(regions', atts, spaces, b) {
      assert AttachmentOk(regions, atts, spaces, b);
      StillThere(regions, regions', atts[b].id, atts[b].pages);
    }
  }

  /** A cursor may always move up, and anywhere once nothing is attached. */
  lemma SpaceKeepsCore(regions: seq<Region>, atts: seq<Attachment>, spaces: map<nat, Space>, nextId: nat,
      free: set<nat>, pid: nat, space: Space)
    requires Core(regions, atts, spaces, nextId, free) && SHM_BASE <= space.cursor <= SHM_LIMIT
    requires Of(atts, pid) == {} || (pid in spaces && spaces[pid].cursor <= space.cursor)
    ensures Core(regions, atts, spaces[pid := space], nextId, free)
  {
    var spaces' := spaces[pid := space];
    forall b: nat | b < ATTACHMENTS ensures AttachmentOk(regions, atts, spaces', b) {
      assert AttachmentOk(regions, atts, spaces, b);
      assert b in Of(atts, pid) || !(atts[b].inUse && atts[b].pid == pid);
    }
  }

  lemma RegionOfAttachment(regions: seq<Region>, atts: seq<Attachment>, spaces: map<nat, Space>, nextId: nat,
      free: set<nat>, a: nat) returns (r: nat)
    requires Core(regions, atts, spaces, nextId, free) && a < ATTACHMENTS && atts[a].inUse
    ensures Is(regions, r, atts[a].id) && regions[r].pages == atts[a].pages && regions[r].refs > 0 &&
      atts[a].pid in spaces
    ensures forall s: nat | Is(regions, s, atts[a].id) :: s == r
  {
    assert AttachmentOk(regions, atts, spaces, a);
    r :| Is(regions, r, atts[a].id) && regions[r].pages == atts[a].pages;
    assert RegionOk(regions, atts, nextId, free, r) && a in Holders(atts, atts[a].id);
    forall s: nat | Is(regions, s, atts[a].id) ensures s == r {
      assert RegionsApart(regions, r, s);
    }
  }

  lemma TallyAfterAttach(atts: seq<Attachment>, spaces: map<nat, Space>, a: nat, x: Attachment, space: Space)
    requires Tally(atts, spaces) && a < |atts| && !atts[a].inUse && x.inUse && x.pid in spaces
    requires space.attached == spaces[x.pid].attached + 1 && space.pages == spaces[x.pid].pages + x.pages
    requires spaces[x.pid].cursor + PAGE_SIZE * x.pages <= space.cursor
    ensures Tally(atts[a := x], spaces[x.pid := space])
  {
    var atts', spaces' := atts[a := x], spaces[x.pid := space];
    forall q | q in spaces' ensures Tallied(atts', spaces', q) {
      assert q in spaces && Tallied(atts, spaces, q);
      CountsUpdate(atts, a, x, 0, q);
      PagesUpdate(atts, a, x, q);
    }
  }

  lemma TallyAfterDetach(atts: seq<Attachment>, spaces: map<nat, Space>, a: nat, space: Space)
    requires Tally(atts, spaces) && a < |atts| && atts[a].inUse && atts[a].pid in spaces
    ensures
      var x := atts[a];
      spaces[x.pid].attached > 0 && spaces[x.pid].pages >= x.pages &&
      (space.attached == spaces[x.pid].attached - 1 && space.pages == spaces[x.pid].pages - x.pages &&
       (if space.attached == 0 then space.cursor == FirstCursor(x.pid) else space.cursor == spaces[x.pid].cursor) ==>
         Tally(atts[a := x.(inUse := false)], spaces[x.pid := space]))
    ensures spaces[atts[a].pid].attached == 1 ==> Of(atts[a := atts[a].(inUse := false)], atts[a].pid) == {}
  {
    var x := atts[a];
    var gone := x.(inUse := false);
    assert Tallied(atts, spaces, x.pid) && a in Of(atts, x.pid);
    CountsUpdate(atts, a, gone, 0, x.pid);
    PagesUpdate(atts, a, gone, x.pid);
    if Of(atts[a := gone], x.pid) == {} {
      NoPages(atts[a := gone], x.pid);
    }
    forall q | q in spaces && q != x.pid
      ensures |Of(atts[a := gone], q)| == |Of(atts, q)| && PagesOf(atts[a := gone], q) == PagesOf(atts, q) {
      CountsUpdate(atts, a, gone, 0, q);
      PagesUpdate(atts, a, gone, q);
    }
    forall q | q in spaces ensures Tallied(atts, spaces, q) {}
  }

  lemma TallyOfEmptied(atts: seq<Attachment>, atts': seq<Attachment>, spaces: map<nat, Space>, pid: nat)
    requires Tally(atts, spaces) && |atts'| == |atts|
    requires forall a {:trigger atts'[a]} | 0 <= a < |atts| :: atts'[a] == if atts[a].pid == pid
      then atts[a].(inUse := false) else atts[a]
    ensures Of(atts', pid) == {} && Tally(atts', spaces[pid := Space(FirstCursor(pid), 0, 0)])
  {
    NoPages(atts', pid);
    var spaces' := spaces[pid := Space(FirstCursor(pid), 0, 0)];
    forall q | q in spaces' ensures Tallied(atts', spaces', q) {
      if q != pid {
        assert Tallied(atts, spaces, q) && Of(atts', q) == Of(atts, q);
        SamePages(atts, atts', q);
      }
    }
  }

  lemma {:induction false} SamePages(atts: seq<Attachment>, atts': seq<Attachment>, pid: nat)
    requires |atts'| == |atts|
    requires forall a {:trigger atts'[a]} | 0 <= a < |atts| :: Share(atts'[a], pid) == Share(atts[a], pid)
    ensures PagesOf(atts', pid) == PagesOf(atts, pid)
  {
    if atts != [] {
      var n := |atts| - 1;
      assert Share(atts'[n], pid) == Share(atts[n], pid);
      SamePages(atts[..n], atts'[..n], pid);
    }
  }

  // ---- whole calls ----

  lemma CreateKeepsSound(regions: seq<Region>, atts: seq<Attachment>, spaces: map<nat, Space>, nextId: nat,
      free: set<nat>, r: nat, x: Region)
    requires Sound(regions, atts, spaces, nextId, free) && r < REGIONS && r < |regions| && !regions[r].inUse &&
      x.inUse && x.id == nextId && x.refs == 0
    requires !x.pending && x.pages > 0 && x.phys > 0 && x.phys % PAGE_SIZE == 0 &&
      x.phys / PAGE_SIZE + x.pages <= FRAME_COUNT && Frames(x) <= free
    ensures Sound(regions[r := x], atts, spaces, nextId + 1, free - Frames(x))
    ensures free - Frames(x) + Owned(regions[r := x]) == free + Owned(regions)
  {
    CreateKeepsCore(regions, atts, spaces, nextId, free, r, x);
    OwnedUpdate(regions, r, x);
  }

  /** The effects of a successful attachment. */
  lemma AttachKeepsSound(regions: seq<Region>, atts: seq<Attachment>, spaces: map<nat, Space>, nextId: nat,
      free: set<nat>, a: nat, r: nat, x: Attachment)
    requires Sound(regions, atts, spaces, nextId, free) && a < ATTACHMENTS && a < |atts| && !atts[a].inUse &&
      x.inUse && x.pid in spaces
    requires Is(regions, r, x.id) && regions[r].pages == x.pages
    requires forall b {:trigger atts[b]} | 0 <= b < ATTACHMENTS && atts[b].inUse && atts[b].pid == x.pid ::
      atts[b].id != x.id
    requires x.base % PAGE_SIZE == 0 && spaces[x.pid].cursor <= x.base && End(x) <= SHM_LIMIT
    ensures
      var was := spaces[x.pid];
      var regions' := regions[r := regions[r].(refs := regions[r].refs + 1)];
      Sound(regions', atts[a := x], spaces[x.pid := Space(End(x), was.attached + 1, was.pages + x.pages)], nextId,
        free) &&
      Owned(regions') == Owned(regions)
  {
    var was := spaces[x.pid];
    var space := Space(End(x), was.attached + 1, was.pages + x.pages);
    AttachKeepsCore(regions, atts, spaces, nextId, free, a, r, x, space);
    TallyAfterAttach(atts, spaces, a, x, space);
    OwnedSame(regions, regions[r := regions[r].(refs := regions[r].refs + 1)]);
  }

  /** The cursor of a process may move up on its own: what a failed attachment leaves. */
  lemma ReserveKeepsSound(regions: seq<Region>, atts: seq<Attachment>, spaces: map<nat, Space>, nextId: nat,
      free: set<nat>, pid: nat, cursor: nat)
    requires Sound(regions, atts, spaces, nextId, free) && pid in spaces && spaces[pid].cursor <= cursor <= SHM_LIMIT
    ensures Sound(regions, atts, spaces[pid := spaces[pid].(cursor := cursor)], nextId, free)
  {
    var spaces' := spaces[pid := spaces[pid].(cursor := cursor)];
    SpaceKeepsCore(regions, atts, spaces, nextId, free, pid, spaces'[pid]);
    forall q | q in spaces' ensures Tallied(atts, spaces', q) {
      assert Tallied(atts, spaces, q);
    }
  }

  /** A process's account once one of its attachments has gone. */
  function AfterDetach(space: Space, pid: nat, pages: nat): Space {
    var left := if space.attached > 0 then space.attached - 1 else 0;
    Space(if left == 0 then FirstCursor(pid) else space.cursor, left, if space.pages > pages then space.pages - pages
      else 0)
  }

  /** A detached region may have to go: all but that is sound. */
  lemma DetachKeeps(regions: seq<Region>, atts: seq<Attachment>, spaces: map<nat, Space>, nextId: nat, free: set<nat>,
      a: nat, r: nat)
    requires Sound(regions, atts, spaces, nextId, free) && a < ATTACHMENTS && a < |atts| && atts[a].inUse &&
      Is(regions, r, atts[a].id) && atts[a].pid in spaces
    ensures regions[r].refs > 0
    ensures
      var x := atts[a];
      var regions', atts' := regions[r := regions[r].(refs := regions[r].refs - 1)], atts[a := x.(inUse := false)];
      var spaces' := spaces[x.pid := AfterDetach(spaces[x.pid], x.pid, x.pages)];
      Core(regions', atts', spaces', nextId, free) && Tally(atts', spaces') && Owned(regions') == Owned(regions) &&
      forall s {:trigger regions'[s]} | 0 <= s < |regions'| && s != r && regions'[s].inUse && regions'[s].pending ::
        regions'[s].refs > 0
  {
    DropKeepsCore(regions, atts, spaces, nextId, free, a, r);
    var x := atts[a];
    var regions', atts' := regions[r := regions[r].(refs := regions[r].refs - 1)], atts[a := x.(inUse := false)];
    var space := AfterDetach(spaces[x.pid], x.pid, x.pages);
    TallyAfterDetach(atts, spaces, a, space);
    SpaceKeepsCore(regions', atts', spaces, nextId, free, x.pid, space);
    OwnedSame(regions, regions');
  }

  lemma ReapKeeps(regions: seq<Region>, atts: seq<Attachment>, spaces: map<nat, Space>, nextId: nat, free: set<nat>,
      r: nat)
    requires Core(regions, atts, spaces, nextId, free) && r < REGIONS && r < |regions| && regions[r].inUse &&
      regions[r].refs == 0
    ensures Core(regions[r := NO_REGION], atts, spaces, nextId, free + Frames(regions[r]))
    ensures free + Frames(regions[r]) + Owned(regions[r := NO_REGION]) == free + Owned(regions)
    ensures regions[r].phys > 0 && regions[r].phys % PAGE_SIZE == 0 && regions[r].pages > 0 &&
      regions[r].phys / PAGE_SIZE + regions[r].pages <= FRAME_COUNT
  {
    ReapKeepsCore(regions, atts, spaces, nextId, free, r);
    OwnedUpdate(regions, r, NO_REGION);
    assert RegionOk(regions, atts, nextId, free, r);
  }

  /** What an unused slot still holds does not matter. */
  lemma UnusedKeepsSound(regions: seq<Region>, atts: seq<Attachment>, spaces: map<nat, Space>, nextId: nat,
      free: set<nat>, a: nat, x: Attachment)
    requires Sound(regions, atts, spaces, nextId, free) && a < |atts| && !atts[a].inUse && !x.inUse
    ensures Sound(regions, atts[a := x], spaces, nextId, free)
  {
    var atts' := atts[a := x];
    forall r: nat | r < REGIONS ensures RegionOk(regions, atts', nextId, free, r) {
      assert RegionOk(regions, atts, nextId, free, r) && Holders(atts', regions[r].id) == Holders(atts, regions[r].id);
    }
    forall b: nat | b < ATTACHMENTS ensures AttachmentOk(regions, atts', spaces, b) {
      assert AttachmentOk(regions, atts, spaces, b);
    }
    forall b: nat, c: nat | b < ATTACHMENTS && c < ATTACHMENTS ensures AttachmentsApart(atts', b, c) {
      assert AttachmentsApart(atts, b, c);
    }
    forall q | q in spaces ensures Tallied(atts', spaces, q) {
      assert Tallied(atts, spaces, q) && Of(atts', q) == Of(atts, q);
      PagesUpdate(atts, a, x, q);
    }
  }

  /** The same attachments are in use. */
  predicate SameAttachments(atts: seq<Attachment>, atts': seq<Attachment>) {
    |atts'| == |atts| && forall a {:trigger atts[a]} {:trigger atts'[a]} | 0 <= a < |atts| ::
      atts'[a] == atts[a] || (!atts[a].inUse && !atts'[a].inUse)
  }

  predicate Attached(atts: seq<Attachment>, pid: nat, id: int, a: nat) {
    a < |atts| && atts[a].inUse && atts[a].pid == pid && atts[a].id == id
  }

  predicate AttachedAt(atts: seq<Attachment>, pid: nat, base: nat, a: nat) {
    a < |atts| && atts[a].inUse && atts[a].pid == pid && atts[a].base == base
  }

  /** An address belongs to one attachment of a process only. */
  lemma OneAtAddress(regions: seq<Region>, atts: seq<Attachment>, spaces: map<nat, Space>, nextId: nat, free: set<nat>,
      pid: nat, base: nat, a: nat, b: nat)
    requires Core(regions, atts, spaces, nextId, free) && AttachedAt(atts, pid, base, a) &&
      AttachedAt(atts, pid, base, b)
    ensures a == b && base > 0
  {
    assert AttachmentsApart(atts, a, b) && AttachmentOk(regions, atts, spaces, a) &&
      AttachmentOk(regions, atts, spaces, b);
  }

  // ---- attaching ----

  datatype State = State(regions: seq<Region>, atts: seq<Attachment>, spaces: map<nat, Space>, nextId: nat)

  function AlignUp(v: nat): nat {
    (v + 4095) / PAGE_SIZE * PAGE_SIZE
  }

  predicate FitsWindow(base: nat, pages: nat) {
    SHM_BASE <= base && base + PAGE_SIZE * pages <= SHM_LIMIT
  }

  lemma AlignedUp(v: nat)
    ensures AlignUp(v) % PAGE_SIZE == 0 && v <= AlignUp(v) < v + PAGE_SIZE
  {}

  /** The region is known, its pages fit behind the process's cursor, and there is a slot for another attachment. */
  ghost predicate CanAttach(s: State, pid: nat, id: int)
    requires pid in s.spaces
  {
    (exists r: nat :: id > 0 && Is(s.regions, r, id) &&
      FitsWindow(AlignUp(s.spaces[pid].cursor), s.regions[r].pages)) &&
    exists a: nat {:trigger s.atts[a]} :: a < |s.atts| && !s.atts[a].inUse
  }

  ghost predicate AttachedAgain(s: State, s': State, pid: nat, id: int, addr: nat) {
    s' == s && exists a: nat :: Attached(s.atts, pid, id, a) && addr == s.atts[a].base
  }

  /** One new attachment, at the next page of the process's window, and one more reference to its region. */
  ghost predicate AttachedNew(s: State, s': State, pid: nat, id: int, addr: nat) {
    pid in s.spaces && s'.nextId == s.nextId &&
    exists r: nat, a: nat {:trigger Is(s.regions, r, id), s.atts[a]} ::
      id > 0 && Is(s.regions, r, id) && a < |s.atts| && !s.atts[a].inUse &&
      var x := Attachment(true, id, pid, addr, s.regions[r].pages);
      var was := s.spaces[pid];
      addr == AlignUp(was.cursor) && End(x) <= SHM_LIMIT && s'.atts == s.atts[a := x] &&
      s'.regions == s.regions[r := s.regions[r].(refs := s.regions[r].refs + 1)] &&
      s'.spaces == s.spaces[pid := Space(End(x), was.attached + 1, was.pages + x.pages)]
  }

  /** Nothing is attached; at most the process's cursor has moved on. */
  ghost predicate Refused(s: State, s': State, pid: nat) {
    s'.regions == s.regions && SameAttachments(s.atts, s'.atts) && s'.nextId == s.nextId && pid in s.spaces &&
      pid in s'.spaces &&
    s.spaces[pid].cursor <= s'.spaces[pid].cursor && s'.spaces ==
      s.spaces[pid := s.spaces[pid].(cursor := s'.spaces[pid].cursor)]
  }

  // ---- detaching ----

  /** A region that nobody is attached to any more and that was to be destroyed. */
  predicate Goes(r: Region) {
    r.inUse && r.pending && r.refs == 0
  }

  function Settled(r: Region): Region {
    if Goes(r) then NO_REGION else r
  }

  /** Attachment a ends; its region counts one reference less and goes if it was waiting for that. */
  ghost predicate Detached(s: State, s': State, free: set<nat>, free': set<nat>, a: nat, r: nat) {
    a < |s.atts| && Is(s.regions, r, s.atts[a].id) && s.regions[r].refs > 0 && s.atts[a].pid in s.spaces &&
      s'.nextId == s.nextId &&
    var left := s.regions[r].(refs := s.regions[r].refs - 1);
    s'.atts == s.atts[a := s.atts[a].(inUse := false)] && s'.regions == s.regions[r := Settled(left)] &&
    s'.spaces == s.spaces[s.atts[a].pid := AfterDetach(s.spaces[s.atts[a].pid], s.atts[a].pid, s.atts[a].pages)] &&
    free' == free + if Goes(left) then Frames(left) else {}
  }

  /** The state after the tables and the process's account have been updated, and before the region is
      looked at again. */
  ghost predicate Leaving(s: State, s1: State, a: nat, r: nat) {
    a < |s.atts| && Is(s.regions, r, s.atts[a].id) && s.regions[r].refs > 0 && s.atts[a].pid in s.spaces &&
      s1.nextId == s.nextId &&
    s1.regions == s.regions[r := s.regions[r].(refs := s.regions[r].refs - 1)] &&
      s1.atts == s.atts[a := s.atts[a].(inUse := false)] &&
    s1.spaces == s.spaces[s.atts[a].pid := AfterDetach(s.spaces[s.atts[a].pid], s.atts[a].pid, s.atts[a].pages)]
  }

  lemma LeavingKeeps(s: State, s1: State, free: set<nat>, a: nat, r: nat)
    requires Sound(s.regions, s.atts, s.spaces, s.nextId, free) && Leaving(s, s1, a, r) && s.atts[a].inUse
    ensures Core(s1.regions, s1.atts, s1.spaces, s1.nextId, free) && Owned(s1.regions) == Owned(s.regions)
    ensures Is(s1.regions, r, s.atts[a].id) && |s.regions| == REGIONS && |s.atts| == ATTACHMENTS
  {
    DetachKeeps(s.regions, s.atts, s.spaces, s.nextId, free, a, r);
  }

  lemma DetachDone(s: State, s1: State, s': State, free: set<nat>, free': set<nat>, a: nat, r: nat)
    requires Sound(s.regions, s.atts, s.spaces, s.nextId, free) && Leaving(s, s1, a, r) && s.atts[a].inUse
    requires Core(s'.regions, s'.atts, s'.spaces, s'.nextId, free') && s'.atts == s1.atts && s'.spaces == s1.spaces &&
      s'.nextId == s1.nextId
    requires s'.regions == s1.regions[r := Settled(s1.regions[r])] && free' == free + if Goes(s1.regions[r])
      then Frames(s1.regions[r]) else {}
    ensures Sound(s'.regions, s'.atts, s'.spaces, s'.nextId, free') && Detached(s, s', free, free', a, r)
  {
    DetachKeeps(s.regions, s.atts, s.spaces, s.nextId, free, a, r);
    assert forall t | 0 <= t < |s'.regions| && t != r :: s'.regions[t] == s1.regions[t];
  }

  lemma NoAttachmentAtZero(s: State, free: set<nat>, pid: nat)
    requires Sound(s.regions, s.atts, s.spaces, s.nextId, free)
    ensures forall a: nat :: !AttachedAt(s.atts, pid, 0, a)
  {
    forall a: nat ensures !AttachedAt(s.atts, pid, 0, a) {
      if a < |s.atts| {
        assert AttachmentOk(s.regions, s.atts, s.spaces, a);
      }
    }
  }

  // ---- cleaning up after a process ----

  function Total(s: seq<nat>): nat {
    if s == [] then 0 else Total(s[..|s| - 1]) + s[|s| - 1]
  }

  lemma TotalMore(s: seq<nat>, x: nat)
    ensures Total(s + [x]) == Total(s) + x
  {
    assert (s + [x])[..|s|] == s;
  }

  lemma TotalStep(s: seq<nat>, i: nat)
    requires i < |s|
    ensures Total(s[..i + 1]) == Total(s[..i]) + s[i]
  {
    assert s[..i + 1][..i] == s[..i];
  }

  lemma {:induction false} TotalPrefix(s: seq<nat>, i: nat)
    requires i <= |s|
    ensures Total(s[..i]) <= Total(s)
    decreases |s| - i
  {
    if i < |s| {
      TotalStep(s, i);
      TotalPrefix(s, i + 1);
    } else {
      assert s[..i] == s;
    }
  }

  lemma {:induction false} TotalOfPages(atts: seq<Attachment>, pid: nat, n: nat)
    requires n < |atts|
    ensures PagesOf(atts[..n + 1], pid) == PagesOf(atts[..n], pid) + Share(atts[n], pid)
  {
    assert atts[..n + 1][..n] == atts[..n];
  }

  /** The attachments of a process among the first n have ended, and the regions count their references again. */
  ghost predicate Ending(regions0: seq<Region>, atts0: seq<Attachment>, regions: seq<Region>, atts: seq<Attachment>,
      pid: nat, n: nat) {
    |regions| == |regions0| && |atts| == |atts0| &&
    (forall r {:trigger regions[r]} | 0 <= r < |regions| ::
      regions[r] == regions0[r].(refs := regions[r].refs) && (!regions[r].inUse ==> regions[r] == regions0[r])) &&
    (forall a {:trigger atts[a]} | 0 <= a < |atts| :: atts[a] == if a < n && atts0[a].pid == pid
      then atts0[a].(inUse := false) else atts0[a])
  }

  lemma EndingStep(regions0: seq<Region>, atts0: seq<Attachment>, regions: seq<Region>, atts: seq<Attachment>,
      pid: nat, n: nat, r: nat, refs: nat)
    requires Ending(regions0, atts0, regions, atts, pid, n) && n < |atts|
    ensures atts[n] == atts0[n]
    ensures !(atts[n].inUse && atts[n].pid == pid) ==> Ending(regions0, atts0, regions, atts, pid, n + 1)
    ensures atts[n].pid == pid && r < |regions| && regions[r].inUse ==>
      Ending(regions0, atts0, regions[r := regions[r].(refs := refs)], atts[n := atts[n].(inUse := false)], pid, n + 1)
  {}

  /** The regions of a process among the first n are to be destroyed and have no owner. */
  ghost predicate Orphaned(regions0: seq<Region>, regions: seq<Region>, pid: nat, n: nat) {
    |regions| == |regions0| &&
    forall r {:trigger regions[r]} | 0 <= r < |regions| ::
      regions[r] == if r < n && regions0[r].inUse && regions0[r].owner == pid
        then regions0[r].(owner := 0, pending := true) else regions0[r]
  }

  lemma OrphanStep(regions0: seq<Region>, regions: seq<Region>, pid: nat, n: nat)
    requires Orphaned(regions0, regions, pid, n) && n < |regions|
    ensures regions[n] == regions0[n]
    ensures !(regions[n].inUse && regions[n].owner == pid) ==> Orphaned(regions0, regions, pid, n + 1)
    ensures regions[n].inUse && regions[n].owner == pid ==>
      Orphaned(regions0, regions[n := regions[n].(owner := 0, pending := true)], pid, n + 1)
  {}

  /** Some of the regions that were to go have gone, and all among the first n. */
  ghost predicate Reaping(regions0: seq<Region>, regions: seq<Region>, n: nat) {
    |regions| == |regions0| &&
    (forall r {:trigger regions[r]} | 0 <= r < |regions| ::
      regions[r] == regions0[r] || regions[r] == Settled(regions0[r])) &&
    (forall r {:trigger regions[r]} | 0 <= r < n && r < |regions| :: !Goes(regions[r]))
  }

  lemma ReapingStep(regions0: seq<Region>, regions: seq<Region>, n: nat, r: nat)
    requires Reaping(regions0, regions, n) && r < |regions|
    ensures Reaping(regions0, if Goes(regions[r]) then regions[r := NO_REGION] else regions, n)
    ensures r == n ==> Reaping(regions0, if Goes(regions[r]) then regions[r := NO_REGION] else regions, n + 1)
  {}

  /** What cleanup makes of a region: its references from the process are gone; if the process owned it, or it waited
      for its destruction, it goes as soon as nobody is attached. */
  ghost function Cleaned(r: Region, atts: seq<Attachment>, pid: nat): Region {
    if !r.inUse then r
    else
      var left := r.(refs := |Holders(atts, r.id)|);
      Settled(if r.owner == pid then left.(owner := 0, pending := true) else left)
  }

  lemma CleanedUp(regions0: seq<Region>, atts0: seq<Attachment>, regions1: seq<Region>, atts: seq<Attachment>,
      regions2: seq<Region>,
                  regions3: seq<Region>, spaces: map<nat, Space>, nextId: nat, free: set<nat>, pid: nat)
    requires Core(regions1, atts, spaces, nextId, free) && Ending(regions0, atts0, regions1, atts, pid, ATTACHMENTS)
    requires Orphaned(regions1, regions2, pid, REGIONS) && Reaping(regions2, regions3, REGIONS)
    ensures |regions3| == |regions0| == REGIONS && Waiting(regions3)
    ensures forall r {:trigger regions3[r]} | 0 <= r < REGIONS :: regions3[r] == Cleaned(regions0[r], atts, pid)
  {
    forall r: nat | r < REGIONS ensures regions3[r] == Cleaned(regions0[r], atts, pid) {
      assert RegionOk(regions1, atts, nextId, free, r);
      assert regions1[r] == regions0[r].(refs := regions1[r].refs);
      assert regions2[r] == if regions1[r].inUse && regions1[r].owner == pid
        then regions1[r].(owner := 0, pending := true) else regions1[r];
    }
  }

  lemma OrphanedKeepsCore(regions: seq<Region>, atts: seq<Attachment>, spaces: map<nat, Space>, nextId: nat,
      free: set<nat>, r: nat)
    requires Core(regions, atts, spaces, nextId, free) && r < REGIONS && r < |regions|
    ensures Core(regions[r := regions[r].(owner := 0, pending := true)], atts, spaces, nextId, free)
    ensures Owned(regions[r := regions[r].(owner := 0, pending := true)]) == Owned(regions)
  {
    MarkKeepsCore(regions, atts, spaces, nextId, free, r, 0, true);
    OwnedSame(regions, regions[r := regions[r].(owner := 0, pending := true)]);
  }

  lemma DropKeeps(regions: seq<Region>, atts: seq<Attachment>, spaces: map<nat, Space>, nextId: nat, free: set<nat>,
      a: nat, r: nat)
    requires Core(regions, atts, spaces, nextId, free) && a < ATTACHMENTS && a < |atts| && atts[a].inUse &&
      Is(regions, r, atts[a].id)
    ensures r < |regions| && regions[r].inUse && regions[r].refs > 0
    ensures
      var regions' := regions[r := regions[r].(refs := regions[r].refs - 1)];
      Core(regions', atts[a := atts[a].(inUse := false)], spaces, nextId, free) && Owned(regions') == Owned(regions)
  {
    DropKeepsCore(regions, atts, spaces, nextId, free, a, r);
    OwnedSame(regions, regions[r := regions[r].(refs := regions[r].refs - 1)]);
  }

  /** The account of a process whose attachments have all ended. */
  lemma SettledAccount(s: State, atts: seq<Attachment>, regions: seq<Region>, free: set<nat>, pid: nat)
    requires Sound(s.regions, s.atts, s.spaces, s.nextId, free) &&
      Ending(s.regions, s.atts, regions, atts, pid, ATTACHMENTS)
    requires Core(regions, atts, s.spaces, s.nextId, free) && pid in s.spaces
    ensures
      var spaces' := s.spaces[pid := Space(FirstCursor(pid), 0, 0)];
      Tally(atts, spaces') && Core(regions, atts, spaces', s.nextId, free) && Of(atts, pid) == {} &&
      SHM_BASE <= FirstCursor(pid) <= SHM_LIMIT
  {
    TallyOfEmptied(s.atts, atts, s.spaces, pid);
    SpaceKeepsCore(regions, atts, s.spaces, s.nextId, free, pid, Space(FirstCursor(pid), 0, 0));
  }
}
