/** Mapping, unmapping, protecting and destroying user address spaces (mm/vmm_x64.c), proved
    against the flat map of PageTables. Tables are named by frame number. */
module VmmX64 {
  import opened Options
  import opened Pmm
  import opened PageTables

  const U64: nat := 0x1_0000_0000_0000_0000
  const USER_VA_MIN: nat := 0x10_0000
  const USER_VA_MAX: nat := 0x7FFF_FFFF_F000
  const KERNEL_VA_MIN: nat := 0xFFFF_8000_0000_0000
  const KERNEL_VA_MAX: nat := 0xFFFF_FFFF_FFFF_F000

  const MAP_READ: bv64 := 1
  const MAP_WRITE: bv64 := 2
  const MAP_EXEC: bv64 := 4
  const MAP_USER: bv64 := 8
  const MAP_GLOBAL: bv64 := 16
  const MAP_DEVICE: bv64 := 32

  // ---- request validation, with the 64-bit wrap-around of the source ----

  predicate RangeWithin(addr: nat, size: nat, low: nat, high: nat) {
    var end := (addr + size + U64 - 1) % U64;
    size != 0 && end >= addr && addr >= low && end <= high
  }

  predicate RangeIsUser(addr: nat, size: nat) {
    RangeWithin(addr, size, USER_VA_MIN, USER_VA_MAX)
  }

  predicate RangeIsKernel(addr: nat, size: nat) {
    RangeWithin(addr, size, KERNEL_VA_MIN, KERNEL_VA_MAX)
  }

  function Span(pages: nat): nat {
    pages * PAGE_SIZE % U64
  }

  predicate SpanOk(virt: nat, pages: nat) {
    pages != 0 && virt % PAGE_SIZE == 0 && Span(pages) != 0 &&
    (RangeIsUser(virt, Span(pages)) || RangeIsKernel(virt, Span(pages)))
  }

  predicate MapRequestOk(virt: nat, phys: nat, pages: nat, flags: bv64) {
    flags & MAP_READ != 0 && phys % PAGE_SIZE == 0 && SpanOk(virt, pages) &&
    (RangeIsUser(virt, Span(pages)) <==> flags & MAP_USER != 0)
  }

  /** What the user branch of the check is meant to say: all pages lie in the user range. */
  predicate UserPagesFit(virt: nat, pages: nat) {
    pages > 0 && virt % PAGE_SIZE == 0 && USER_VA_MIN <= virt && virt + pages * PAGE_SIZE - 1 <= USER_VA_MAX
  }

  /** The check says what it means exactly when the page count times the page size does not wrap
      into a range that would be accepted; below 2^52 pages it never does. */
  lemma SpanCheckExact(virt: nat, pages: nat)
    requires virt < U64 && pages < U64 && virt % PAGE_SIZE == 0
    ensures (RangeIsUser(virt, Span(pages)) <==> UserPagesFit(virt, pages)) <==>
      pages < 0x10_0000_0000_0000 || !UserPagesFit(virt, pages % 0x10_0000_0000_0000)
  {
    assert Span(pages) == pages % 0x10_0000_0000_0000 * PAGE_SIZE;
  }

  /** A page count of 2^52 + 1 passes for a single page. */
  lemma SpanCheckWraps()
    ensures SpanOk(0x10_0000, 0x10_0000_0000_0001) && !UserPagesFit(0x10_0000, 0x10_0000_0000_0001)
  {}

  /** The bytes from virt on lie between two addresses, as far as the last of them. */
  predicate Between(virt: nat, bytes: nat, low: nat, high: nat) {
    low <= virt && virt + bytes - 1 <= high
  }

  /** What is asked for and refused, in numbers: pages from a page boundary, readable, and either all in the user range
      and for users, or all in the kernel range and not. */
  lemma RequestExactly(virt: nat, phys: nat, pages: nat, flags: bv64)
    requires virt < U64 && pages < 0x10_0000_0000_0000
    ensures
      var user := Between(virt, pages * 4096, 0x10_0000, 0x7FFF_FFFF_F000);
      var kernel := Between(virt, pages * 4096, 0xFFFF_8000_0000_0000, 0xFFFF_FFFF_FFFF_F000);
      (SpanOk(virt, pages) <==> pages > 0 && virt % 4096 == 0 && (user || kernel)) &&
      (MapRequestOk(virt, phys, pages, flags) <==>
       flags & 1 != 0 && phys % 4096 == 0 && pages > 0 && virt % 4096 == 0 &&
       if flags & 8 != 0 then user else kernel)
  {
    assert Span(pages) == pages * 4096;
  }

  predicate PageInUserRange(virt: nat, i: nat) {
    var va := virt + i * PAGE_SIZE;
    va < U64 && RangeIsUser(va, PAGE_SIZE) && !RangeIsKernel(va, PAGE_SIZE) &&
    va % PAGE_SIZE == 0 && va / PAGE_SIZE == virt / PAGE_SIZE + i && virt / PAGE_SIZE + i < USER_PAGES
  }

  /** Every page of an accepted user request is a user page of its own. */
  lemma UserRequest(virt: nat, pages: nat)
    requires pages < 0x10_0000_0000_0000 && SpanOk(virt, pages) && RangeIsUser(virt, Span(pages))
    ensures virt / PAGE_SIZE + pages <= USER_PAGES
    ensures forall i: nat | i < pages :: PageInUserRange(virt, i)
  {
    assert Span(pages) == pages * PAGE_SIZE;
  }

  lemma SubRequest(virt: nat, pages: nat, i: nat)
    requires pages < 0x10_0000_0000_0000 && SpanOk(virt, pages) && RangeIsUser(virt, Span(pages)) && 0 < i <= pages
    ensures SpanOk(virt, i) && RangeIsUser(virt, Span(i)) && !RangeIsKernel(virt, Span(i))
  {
    assert Span(pages) == pages * PAGE_SIZE && Span(i) == i * PAGE_SIZE;
  }

  function PteFlags(flags: bv64): bv64 {
    (if flags & MAP_WRITE != 0 then WRITABLE else 0) |
    (if flags & MAP_USER != 0 then USER else 0) |
    (if flags & MAP_GLOBAL != 0 then 0x100 else 0) |
    (if flags & MAP_DEVICE != 0 then 0x18 else 0) |
    (if flags & MAP_EXEC == 0 then 0x8000_0000_0000_0000 else 0)
  }

  /** The flags written into an entry never touch its address bits. */
  lemma PteFlagsOutsideMask(flags: bv64)
    ensures (PteFlags(flags) | PRESENT) & ADDR_MASK == 0
    ensures (PteFlags(flags) | PRESENT) & PRESENT != 0
  {
    assert PteFlags(flags) & !(0x8000_0000_0000_011E as bv64) == 0;
  }

  /** What the bits of an entry grant is what the bits of the request ask for: present; writable; for users; global;
      past both caches; not executable (Intel SDM Vol. 3A, section 4.5, and include/paging.h:20-25). */
  predicate Grants(entry: bv64, request: bv64) {
    entry & 1 != 0 && (entry & 2 != 0 <==> request & 2 != 0) && (entry & 4 != 0 <==> request & 8 != 0) &&
    (entry & 0x100 != 0 <==> request & 16 != 0) && (entry & 8 != 0 <==> request & 32 != 0) &&
    (entry & 16 != 0 <==> request & 32 != 0) && (entry & 0x8000_0000_0000_0000 != 0 <==> request & 4 == 0)
  }

  lemma EntryGrants(flags: bv64)
    ensures Grants(PteFlags(flags) | PRESENT, flags)
  {}

  // ---- edits of the flat map ----

  /** What a call asks for at every page of its range. */
  datatype Edit =
    | MapTo(phys: nat, flags: bv64)
    | Clear
    | Reflag(flags: bv64)

  /** The entry for the i-th page of the range, given what the page translated to before. */
  function Wanted(edit: Edit, i: nat, was: Option<Pte>): Pte {
    match edit
    case MapTo(phys, flags) => Pte((phys / PAGE_SIZE + i) % 0x100_0000_0000, PteFlags(flags) | PRESENT)
    case Clear => EMPTY
    case Reflag(flags) => if was.Some? then Pte(was.value.frame, PteFlags(flags) | PRESENT) else EMPTY
  }

  predicate InRange(v: nat, v0: nat, n: nat) {
    v0 <= v < v0 + n
  }

  function Edited(mem: Memory, root0: nat, v0: nat, n: nat, edit: Edit, root: nat, v: nat): Option<Pte> {
    if root == root0 && InRange(v, v0, n) then AsLeaf(Wanted(edit, v - v0, Translate(mem, root, v)))
    else Translate(mem, root, v)
  }

  /** mem' translates as mem does, except that the n pages from v0 of root0 are edited. */
  ghost predicate Applied(mem: Memory, mem': Memory, tree: Tree, root0: nat, v0: nat, n: nat, edit: Edit) {
    forall root: nat, v: nat {:trigger Translate(mem', root, v)} | IsRoot(tree, root) && v < USER_PAGES ::
      Translate(mem', root, v) == Edited(mem, root0, v0, n, edit, root, v)
  }

  ghost predicate SameTranslations(mem: Memory, mem': Memory, tree: Tree) {
    forall root: nat, v: nat {:trigger Translate(mem', root, v)} | IsRoot(tree, root) && v < USER_PAGES ::
      Translate(mem', root, v) == Translate(mem, root, v)
  }

  /** The i-th page from v0 leads the processor to frame f0 + i, with the rights asked for; beyond the 40 bits of a
      frame number it cannot. */
  ghost predicate RunsFrom(mem: Memory, root: nat, v0: nat, n: nat, f0: nat, flags: bv64) {
    forall v: nat {:trigger Translate(mem, root, v)} | v0 <= v < v0 + n ::
      RunsTo(mem, root, v, v0, f0, flags)
  }

  predicate RunsTo(mem: Memory, root: nat, v: nat, v0: nat, f0: nat, flags: bv64) {
    Translate(mem, root, v).Some? &&
    var e := Translate(mem, root, v).value;
    Leads(mem, root, v, e) && Grants(e.flags, flags) &&
    (e.frame == f0 + (v - v0) <==> f0 + (v - v0) < 0x100_0000_0000)
  }

  /** No page of the range translates. */
  ghost predicate Gone(mem: Memory, root: nat, v0: nat, n: nat) {
    forall v: nat {:trigger Translate(mem, root, v)} | v0 <= v < v0 + n :: Translate(mem, root, v).None?
  }

  /** Each page of the range leads to the frame it led to before, with the rights asked for. */
  ghost predicate Regranted(mem: Memory, mem': Memory, root: nat, v0: nat, n: nat, flags: bv64) {
    forall v: nat {:trigger Translate(mem', root, v)} | v0 <= v < v0 + n ::
      Translate(mem, root, v).Some? && Translate(mem', root, v).Some? &&
      var was, e := Translate(mem, root, v).value, Translate(mem', root, v).value;
      e.frame == was.frame && Leads(mem', root, v, e) && Grants(e.flags, flags)
  }

  /** All pages outside the range, and all pages of other address spaces, translate as before. */
  ghost predicate Elsewhere(mem: Memory, mem': Memory, tree: Tree, root0: nat, v0: nat, n: nat) {
    forall root: nat, v: nat {:trigger Translate(mem', root, v)} |
      IsRoot(tree, root) && v < USER_PAGES && !(root == root0 && v0 <= v < v0 + n) ::
      Translate(mem', root, v) == Translate(mem, root, v)
  }

  lemma AppliedElsewhere(mem: Memory, mem': Memory, tree: Tree, root: nat, v0: nat, n: nat, edit: Edit)
    requires Applied(mem, mem', tree, root, v0, n, edit)
    ensures Elsewhere(mem, mem', tree, root, v0, n)
  {
    hide Translate, IsRoot;
  }

  lemma MappedRuns(mem: Memory, mem': Memory, tree: Tree, tree': Tree, root: nat, v0: nat, n: nat, phys: nat,
      flags: bv64)
    requires Shaped(mem', tree') && Grown(tree, tree') && IsRoot(tree, root) && v0 + n <= USER_PAGES
    requires Applied(mem, mem', tree, root, v0, n, MapTo(phys, flags))
    ensures RunsFrom(mem', root, v0, n, phys / PAGE_SIZE, flags)
  {
    GrownRoots(tree, tree', root);
    EntryGrants(flags);
    PteFlagsOutsideMask(flags);
    forall v: nat | v0 <= v < v0 + n
      ensures RunsTo(mem', root, v, v0, phys / PAGE_SIZE, flags)
    {
      OneRuns(mem, mem', tree, tree', root, v0, n, phys, flags, v);
    }
  }

  lemma OneRuns(mem: Memory, mem': Memory, tree: Tree, tree': Tree, root: nat, v0: nat, n: nat, phys: nat, flags: bv64,
      v: nat)
    requires Shaped(mem', tree') && IsRoot(tree', root) && IsRoot(tree, root) && v0 + n <= USER_PAGES
    requires Applied(mem, mem', tree, root, v0, n, MapTo(phys, flags)) && v0 <= v < v0 + n
    requires (PteFlags(flags) | PRESENT) & PRESENT != 0
    ensures
      var e := Pte((phys / PAGE_SIZE + (v - v0)) % 0x100_0000_0000, PteFlags(flags) | PRESENT);
      Translate(mem', root, v) == Some(e) && Leads(mem', root, v, e)
  {
    hide Shaped, Grown, IsRoot, PteFlags, Translate, Leads;
    TranslateLeads(mem', tree', root, v);
  }

  lemma ClearedGone(mem: Memory, mem': Memory, tree: Tree, root: nat, v0: nat, n: nat)
    requires IsRoot(tree, root) && v0 + n <= USER_PAGES && Applied(mem, mem', tree, root, v0, n, Clear)
    ensures Gone(mem', root, v0, n)
  {
    hide Translate, IsRoot;
    assert AsLeaf(EMPTY).None?;
  }

  lemma ReflaggedGrants(mem: Memory, mem': Memory, tree: Tree, root: nat, v0: nat, n: nat, flags: bv64)
    requires Shaped(mem', tree) && IsRoot(tree, root) && v0 + n <= USER_PAGES && AllMapped(mem, root, v0, n)
    requires Applied(mem, mem', tree, root, v0, n, Reflag(flags))
    ensures Regranted(mem, mem', root, v0, n, flags)
  {
    EntryGrants(flags);
    PteFlagsOutsideMask(flags);
    hide Shaped, IsRoot, PteFlags, Translate, Leads, Grants;
    forall v: nat | v0 <= v < v0 + n
      ensures Translate(mem, root, v).Some? && Translate(mem', root, v).Some?
      ensures
        var was, e := Translate(mem, root, v).value, Translate(mem', root, v).value;
        e.frame == was.frame && Leads(mem', root, v, e) && Grants(e.flags, flags)
    {
      assert InRange(v, v0, n);
      TranslateLeads(mem', tree, root, v);
    }
  }

  /** Whether every page of the range is mapped. */
  ghost predicate AllMapped(mem: Memory, root: nat, v0: nat, n: nat) {
    forall v: nat {:trigger Translate(mem, root, v)} | InRange(v, v0, n) :: Translate(mem, root, v).Some?
  }

  ghost predicate NoneMapped(mem: Memory, root: nat, v0: nat, n: nat) {
    forall v: nat {:trigger Translate(mem, root, v)} | InRange(v, v0, n) :: Translate(mem, root, v).None?
  }

  /** Tables only come to be; no table moves and no address space appears. */
  ghost predicate Grown(tree: Tree, tree': Tree) {
    (forall f {:trigger tree'[f]} {:trigger f in tree'} | f in tree :: f in tree' && tree'[f] == tree[f]) &&
    (forall f {:trigger tree'[f]} | f in tree' && f !in tree :: tree'[f].path != [])
  }

  lemma GrownRoots(tree: Tree, tree': Tree, root: nat)
    requires Grown(tree, tree')
    ensures IsRoot(tree', root) <==> IsRoot(tree, root)
  {
    if root in tree {
      assert tree'[root] == tree[root];
    } else if root in tree' {
      assert tree'[root].path != [];
    }
  }

  lemma EditOneMoreAt(mem: Memory, mem1: Memory, tree: Tree, tree1: Tree, root0: nat, v0: nat, n: nat, edit: Edit,
                      root: nat, v: nat)
    requires Shaped(mem1, tree1) && Grown(tree, tree1) && IsRoot(tree, root0) && v0 + n < USER_PAGES
    requires Applied(mem, mem1, tree, root0, v0, n, edit)
    requires Walk(mem1, root0, v0 + n).Some? && IsRoot(tree, root) && v < USER_PAGES
    ensures var t := Walk(mem1, root0, v0 + n).value;
      t in mem1 && |mem1[t]| == 512 && t in tree1 && |tree1[t].path| == 3 && Index1(v0 + n) < 512 &&
      var e := Wanted(edit, n, Translate(mem1, root0, v0 + n));
      Translate(SetEntry(mem1, t, Index1(v0 + n), e), root, v) == Edited(mem, root0, v0, n + 1, edit, root, v)
  {
    GrownRoots(tree, tree1, root0);
    GrownRoots(tree, tree1, root);
    hide Translate, Walk, Shaped, SetEntry, Index1, IsRoot, Wanted, Grown;
    var e := Wanted(edit, n, Translate(mem1, root0, v0 + n));
    SetLeafChangesOnePage(mem1, tree1, root0, v0 + n, e, root, v);
    assert Translate(mem1, root, v) == Edited(mem, root0, v0, n, edit, root, v);
    assert Translate(mem1, root0, v0 + n) == Edited(mem, root0, v0, n, edit, root0, v0 + n);
  }

  /** Editing one more page of the range. */
  lemma EditOneMore(mem: Memory, mem1: Memory, tree: Tree, tree1: Tree, root0: nat, v0: nat, n: nat, edit: Edit)
    requires Shaped(mem1, tree1) && Grown(tree, tree1) && IsRoot(tree, root0) && v0 + n < USER_PAGES
    requires Applied(mem, mem1, tree, root0, v0, n, edit)
    requires Walk(mem1, root0, v0 + n).Some?
    ensures var t := Walk(mem1, root0, v0 + n).value;
      t in mem1 && |mem1[t]| == 512 && t in tree1 && |tree1[t].path| == 3 && Index1(v0 + n) < 512 &&
      var e := Wanted(edit, n, Translate(mem1, root0, v0 + n));
      Shaped(SetEntry(mem1, t, Index1(v0 + n), e), tree1) &&
      Applied(mem, SetEntry(mem1, t, Index1(v0 + n), e), tree, root0, v0, n + 1, edit)
  {
    hide Translate, Walk, Shaped, SetEntry, Index1, IsRoot, Wanted, Grown, Edited;
    var e := Wanted(edit, n, Translate(mem1, root0, v0 + n));
    EditOneMoreAt(mem, mem1, tree, tree1, root0, v0, n, edit, root0, v0 + n);
    SetLeafKeepsShape(mem1, tree1, Walk(mem1, root0, v0 + n).value, Index1(v0 + n), e);
    var mem2 := SetEntry(mem1, Walk(mem1, root0, v0 + n).value, Index1(v0 + n), e);
    forall root: nat, v: nat | IsRoot(tree, root) && v < USER_PAGES
      ensures Translate(mem2, root, v) == Edited(mem, root0, v0, n + 1, edit, root, v)
    {
      EditOneMoreAt(mem, mem1, tree, tree1, root0, v0, n, edit, root, v);
    }
  }

  /** Clearing what a partial map wrote over unmapped pages gives the old map back. */
  lemma RollbackRestores(mem: Memory, mem1: Memory, mem2: Memory, tree: Tree, tree1: Tree,
                         root0: nat, v0: nat, n: nat, edit: Edit)
    requires Grown(tree, tree1) && NoneMapped(mem, root0, v0, n)
    requires Applied(mem, mem1, tree, root0, v0, n, edit) && Applied(mem1, mem2, tree1, root0, v0, n, Clear)
    ensures SameTranslations(mem, mem2, tree)
  {
    hide Translate;
    assert AsLeaf(EMPTY).None?;
    forall root: nat, v: nat | IsRoot(tree, root) && v < USER_PAGES
      ensures Translate(mem2, root, v) == Translate(mem, root, v)
    {
      GrownRoots(tree, tree1, root);
      assert Translate(mem2, root, v) == Edited(mem1, root0, v0, n, Clear, root, v);
      assert Translate(mem1, root, v) == Edited(mem, root0, v0, n, edit, root, v);
      assert InRange(v, v0, n) && root == root0 ==> Translate(mem, root, v).None?;
    }
  }

  lemma GrownTwice(tree: Tree, tree1: Tree, tree2: Tree)
    requires Grown(tree, tree1) && Grown(tree1, tree2)
    ensures Grown(tree, tree2)
  {
    forall f | f in tree ensures f in tree2 && tree2[f] == tree[f] {
      assert tree1[f] == tree[f];
    }
    forall f | f in tree2 && f !in tree ensures tree2[f].path != [] {
      if f in tree1 {
        assert tree1[f].path != [] && tree2[f] == tree1[f];
      }
    }
  }

  lemma SameTwice(mem: Memory, mem1: Memory, mem2: Memory, tree: Tree, tree1: Tree)
    requires Grown(tree, tree1) && SameTranslations(mem, mem1, tree) && SameTranslations(mem1, mem2, tree1)
    ensures SameTranslations(mem, mem2, tree)
  {
    hide Translate;
    forall root: nat, v: nat | IsRoot(tree, root) && v < USER_PAGES
      ensures Translate(mem2, root, v) == Translate(mem, root, v)
    {
      GrownRoots(tree, tree1, root);
      assert Translate(mem1, root, v) == Translate(mem, root, v);
    }
  }

  lemma AppliedThenSame(mem: Memory, mem1: Memory, mem2: Memory, tree: Tree, tree1: Tree,
                        root0: nat, v0: nat, n: nat, edit: Edit)
    requires Grown(tree, tree1) && Applied(mem, mem1, tree, root0, v0, n, edit) && SameTranslations(mem1, mem2, tree1)
    ensures Applied(mem, mem2, tree, root0, v0, n, edit)
  {
    hide Translate, Edited;
    forall root: nat, v: nat | IsRoot(tree, root) && v < USER_PAGES
      ensures Translate(mem2, root, v) == Edited(mem, root0, v0, n, edit, root, v)
    {
      GrownRoots(tree, tree1, root);
      assert Translate(mem1, root, v) == Edited(mem, root0, v0, n, edit, root, v);
    }
  }

  lemma HookKeepsMap(mem: Memory, tree: Tree, t: nat, i: nat, f: nat)
    requires CanHook(mem, tree, t, i, f)
    ensures SameTranslations(mem, Hook(mem, t, i, f), tree) && Grown(tree, HookTree(tree, t, i, f))
  {
    hide Translate, Hook, Shaped;
    forall root: nat, v: nat | IsRoot(tree, root) && v < USER_PAGES
      ensures Translate(Hook(mem, t, i, f), root, v) == Translate(mem, root, v)
    {
      HookKeepsTranslations(mem, tree, t, i, f, root, v);
    }
  }

  lemma SetEntryIs(mem: Memory, t: nat, i: nat, e: Pte)
    requires t in mem && i < |mem[t]|
    ensures SetEntry(mem, t, i, e) == mem[t := mem[t][i := e]]
  {}

  lemma GrownReflexive(tree: Tree)
    ensures Grown(tree, tree)
  {}

  lemma NothingApplied(mem: Memory, tree: Tree, root: nat, v0: nat, edit: Edit)
    ensures Applied(mem, mem, tree, root, v0, 0, edit)
  {
    hide Translate;
  }

  /** Pages past the edited part of a range translate as they did, so their walks succeed. */
  lemma StillMapped(mem: Memory, mem1: Memory, tree: Tree, root: nat, v0: nat, i: nat, n: nat, edit: Edit)
    requires Applied(mem, mem1, tree, root, v0, i, edit) && IsRoot(tree, root)
    requires AllMapped(mem, root, v0, n) && i < n && v0 + n <= USER_PAGES
    ensures Translate(mem1, root, v0 + i) == Translate(mem, root, v0 + i)
    ensures Walk(mem1, root, v0 + i).Some?
  {
    assert InRange(v0 + i, v0, n) && Translate(mem, root, v0 + i).Some?;
    assert Translate(mem1, root, v0 + i) == Edited(mem, root, v0, i, edit, root, v0 + i);
  }

  lemma LeafInTree(mem: Memory, tree: Tree, root: nat, v: nat)
    requires Shaped(mem, tree) && IsRoot(tree, root) && v < USER_PAGES && Walk(mem, root, v).Some?
    ensures var t := Walk(mem, root, v).value;
      t in mem && |mem[t]| == 512 && Index1(v) < 512 && Translate(mem, root, v) == AsLeaf(mem[t][Index1(v)])
  {
    WalkInTree(mem, tree, root, v);
    assert NodeOk(mem, tree, Walk(mem, root, v).value);
  }

  lemma MappedByEdit(mem: Memory, mem1: Memory, tree: Tree, root: nat, v0: nat, n: nat, phys: nat, flags: bv64)
    requires IsRoot(tree, root) && v0 + n <= USER_PAGES
    requires Applied(mem, mem1, tree, root, v0, n, MapTo(phys, flags))
    ensures AllMapped(mem1, root, v0, n)
  {
    PteFlagsOutsideMask(flags);
    hide Translate;
    forall v: nat | InRange(v, v0, n) ensures Translate(mem1, root, v).Some? {
      assert Translate(mem1, root, v) == Edited(mem, root, v0, n, MapTo(phys, flags), root, v);
    }
  }

  lemma UntouchedPage(mem: Memory, mem1: Memory, mem2: Memory, tree: Tree, tree1: Tree, root: nat, v0: nat, i: nat,
      edit: Edit)
    requires Applied(mem, mem1, tree, root, v0, i, edit) && SameTranslations(mem1, mem2, tree1) && Grown(tree, tree1)
    requires IsRoot(tree, root) && v0 + i < USER_PAGES
    ensures Translate(mem2, root, v0 + i) == Translate(mem, root, v0 + i)
  {
    GrownRoots(tree, tree1, root);
    hide Translate;
    assert Translate(mem1, root, v0 + i) == Edited(mem, root, v0, i, edit, root, v0 + i);
  }

  lemma NoneMappedMore(mem: Memory, root: nat, v0: nat, i: nat)
    requires NoneMapped(mem, root, v0, i)
    ensures NoneMapped(mem, root, v0, i + 1) <==> Translate(mem, root, v0 + i).None?
  {
    hide Translate;
    assert InRange(v0 + i, v0, i + 1);
    forall v: nat | InRange(v, v0, i + 1) && v != v0 + i ensures Translate(mem, root, v).None? {
      assert InRange(v, v0, i);
    }
  }

  lemma NoneMappedPrefix(mem: Memory, root: nat, v0: nat, i: nat, n: nat)
    requires NoneMapped(mem, root, v0, n) && i <= n
    ensures NoneMapped(mem, root, v0, i)
  {
    hide Translate;
    assert forall v | InRange(v, v0, i) :: InRange(v, v0, n);
  }

  lemma NoneToMap(mem: Memory, root: nat, v0: nat)
    ensures AllMapped(mem, root, v0, 0)
  {
    hide Translate;
  }

  lemma AllMappedMore(mem: Memory, root: nat, v0: nat, i: nat)
    requires AllMapped(mem, root, v0, i) && Translate(mem, root, v0 + i).Some?
    ensures AllMapped(mem, root, v0, i + 1)
  {
    hide Translate;
    forall v: nat | InRange(v, v0, i + 1) && v != v0 + i ensures Translate(mem, root, v).Some? {
      assert InRange(v, v0, i);
    }
  }

  lemma AsBefore(mem: Memory, mem1: Memory, tree: Tree, root: nat, v0: nat, i: nat, edit: Edit)
    requires Applied(mem, mem1, tree, root, v0, i, edit) && IsRoot(tree, root) && v0 + i < USER_PAGES
    ensures Translate(mem1, root, v0 + i) == Translate(mem, root, v0 + i)
  {
    hide Translate;
    assert Translate(mem1, root, v0 + i) == Edited(mem, root, v0, i, edit, root, v0 + i);
  }

  lemma UnwalkedIsUnmapped(mem: Memory, root: nat, v: nat)
    requires Walk(mem, root, v).None?
    ensures Translate(mem, root, v).None?
  {}

  lemma SplitTable(low: seq<Pte>, high: seq<Pte>)
    requires |low| == 512 && |high| == 512
    ensures |low[..256] + high[256..]| == 512 && (low[..256] + high[256..])[256..] == high[256..]
    ensures forall i | 0 <= i < 256 :: (low[..256] + high[256..])[i] == low[i]
  {}

  lemma TableFrame(mem: Memory, tree: Tree, f: nat)
    requires Shaped(mem, tree) && f in tree
    ensures 0 < f < FRAME_COUNT && f in mem && |mem[f]| == 512
    ensures tree[f].path == [] ==> tree[f].root == f
    ensures f * PAGE_SIZE % PAGE_SIZE == 0 && f * PAGE_SIZE / PAGE_SIZE == f
  {
    assert NodeOk(mem, tree, f);
  }

  /** A root with an empty user half joins the forest without touching it. */
  lemma NewRoot(mem: Memory, tree: Tree, root: nat, table: seq<Pte>)
    requires Shaped(mem, tree) && root !in tree && 0 < root < FRAME_COUNT
    requires |table| == 512 && forall i | 0 <= i < 256 :: table[i] == EMPTY
    ensures var mem', tree' := mem[root := table], tree[root := Node(root, [], root)];
      Shaped(mem', tree') && SameTranslations(mem, mem', tree) &&
      (forall v: nat {:trigger Translate(mem', root, v)} | v < USER_PAGES :: Translate(mem', root, v).None?)
  {
    var mem', tree' := mem[root := table], tree[root := Node(root, [], root)];
    assert !Present(EMPTY);
    forall f | f in tree' ensures NodeOk(mem', tree', f) {
      if f != root {
        assert NodeOk(mem, tree, f);
      }
    }
    forall f, j: nat | f in tree' && |tree'[f].path| < 3 && j < Slots(tree'[f]) ensures SlotOk(mem', tree', f, j) {
      if f != root {
        assert SlotOk(mem, tree, f, j);
      }
    }
    forall v: nat | v < USER_PAGES ensures Translate(mem', root, v).None? {
      IndicesBounded(v);
    }
    forall r: nat, v: nat | IsRoot(tree, r) && v < USER_PAGES
      ensures Translate(mem', r, v) == Translate(mem, r, v)
    {
      OtherTablesOnly(mem, mem', tree, r, v);
    }
  }

  /** A table that can be the root of an address space with nothing in its user half. */
  ghost predicate BootRoot(mem: Memory, root: nat) {
    0 < root < FRAME_COUNT && root in mem && |mem[root]| == 512 && forall i | 0 <= i < 256 :: mem[root][i] == EMPTY
  }

  lemma SameTablesSameSteps(mem: Memory, mem': Memory, tree: Tree)
    requires forall f: nat {:trigger mem'[f]} {:trigger f in mem'} | f in tree && f in mem ::
      f in mem' && mem'[f] == mem[f]
    ensures forall f: nat, j: nat {:trigger Step(mem', f, j)} | f in tree && f in mem ::
      Step(mem', f, j) == Step(mem, f, j)
    ensures forall f: nat, j: nat {:trigger Leaf(mem', f, j)} | f in tree && f in mem ::
      Leaf(mem', f, j) == Leaf(mem, f, j)
  {}

  /** A walk only reads tables of the tree. */
  lemma OtherTablesOnly(mem: Memory, mem': Memory, tree: Tree, root: nat, v: nat)
    requires Shaped(mem, tree) && IsRoot(tree, root) && v < USER_PAGES
    requires forall f: nat {:trigger mem'[f]} {:trigger f in mem'} | f in tree && f in mem ::
      f in mem' && mem'[f] == mem[f]
    ensures Translate(mem', root, v) == Translate(mem, root, v)
  {
    IndicesBounded(v);
    WalkInTree(mem, tree, root, v);
    SameTablesSameSteps(mem, mem', tree);
    assert NodeOk(mem, tree, root);
    hide Shaped, Step, Leaf, Index4, Index3, Index2, Index1;
    StepInTree(mem, tree, root, Index4(v));
    var pdpt := Step(mem, root, Index4(v));
    if pdpt.Some? {
      StepInTree(mem, tree, pdpt.value, Index3(v));
      var pd := Step(mem, pdpt.value, Index3(v));
      if pd.Some? {
        StepInTree(mem, tree, pd.value, Index2(v));
        if Step(mem, pd.value, Index2(v)).Some? {
          assert NodeOk(mem, tree, Step(mem, pd.value, Index2(v)).value);
        }
      }
    }
  }

  // ---- changing flags ----

  /** How many pages at the start of the range are mapped. */
  ghost function Leading(mem: Memory, root: nat, v0: nat, n: nat): (d: nat)
    ensures d <= n && AllMapped(mem, root, v0, d) && (d < n ==> Translate(mem, root, v0 + d).None?)
    decreases n
  {
    if n == 0 || Translate(mem, root, v0).None? then 0
    else
      var d := Leading(mem, root, v0 + 1, n - 1);
      AllMappedAfter(mem, root, v0, d);
      d + 1
  }

  lemma AllMappedAfter(mem: Memory, root: nat, v0: nat, d: nat)
    requires Translate(mem, root, v0).Some? && AllMapped(mem, root, v0 + 1, d)
    ensures AllMapped(mem, root, v0, d + 1)
  {
    forall v: nat | InRange(v, v0, d + 1) ensures Translate(mem, root, v).Some? {
      assert v == v0 || InRange(v, v0 + 1, d);
    }
  }

  lemma AllMappedRest(mem: Memory, root: nat, v0: nat, d: nat)
    requires d > 0 && AllMapped(mem, root, v0, d)
    ensures Translate(mem, root, v0).Some? && AllMapped(mem, root, v0 + 1, d - 1)
  {
    assert InRange(v0, v0, d);
    forall v: nat | InRange(v, v0 + 1, d - 1) ensures Translate(mem, root, v).Some? {
      assert InRange(v, v0, d);
    }
  }

  lemma {:induction false} LeadingIs(mem: Memory, root: nat, v0: nat, n: nat, d: nat)
    requires d <= n && AllMapped(mem, root, v0, d) && (d < n ==> Translate(mem, root, v0 + d).None?)
    ensures Leading(mem, root, v0, n) == d
    decreases n
  {
    hide Translate, AllMapped;
    if d > 0 {
      AllMappedRest(mem, root, v0, d);
      LeadingIs(mem, root, v0 + 1, n - 1, d - 1);
    }
  }

  /** Every page of the range is mapped with just these flags. */
  ghost predicate Carries(mem: Memory, root: nat, v0: nat, n: nat, flags: bv64) {
    forall v: nat {:trigger Translate(mem, root, v)} | InRange(v, v0, n) ::
      Translate(mem, root, v).Some? && Translate(mem, root, v).value.flags == PteFlags(flags) | PRESENT
  }

  /** Giving flags to mapped pages changes no translation exactly when they have those flags already. */
  lemma ReflagLeaves(mem: Memory, mem': Memory, tree: Tree, root: nat, v0: nat, n: nat, flags: bv64)
    requires IsRoot(tree, root) && v0 + n <= USER_PAGES && AllMapped(mem, root, v0, n)
    requires Applied(mem, mem', tree, root, v0, n, Reflag(flags))
    ensures SameTranslations(mem, mem', tree) <==> Carries(mem, root, v0, n, flags)
  {
    PteFlagsOutsideMask(flags);
    hide Translate, PteFlags;
    forall v: nat | InRange(v, v0, n)
      ensures Translate(mem, root, v).Some?
      ensures Translate(mem', root, v) == Some(Pte(Translate(mem, root, v).value.frame, PteFlags(flags) | PRESENT))
    {
      assert Translate(mem', root, v) == Edited(mem, root, v0, n, Reflag(flags), root, v);
    }
    forall r: nat, v: nat | IsRoot(tree, r) && v < USER_PAGES && !(r == root && InRange(v, v0, n))
      ensures Translate(mem', r, v) == Translate(mem, r, v)
    {
      assert Translate(mem', r, v) == Edited(mem, root, v0, n, Reflag(flags), r, v);
    }
  }

  // ---- frames ----

  /** At most n frames have left the free ones, each of them for a table. */
  ghost predicate Took(free: set<nat>, tree: Tree, free': set<nat>, tree': Tree, n: nat) {
    free' + tree'.Keys == free + tree.Keys && |free'| + n >= |free|
  }

  lemma TookNone(free: set<nat>, tree: Tree, n: nat)
    ensures Took(free, tree, free, tree, n)
  {}

  lemma TookFewer(free: set<nat>, tree: Tree, free': set<nat>, tree': Tree, m: nat, n: nat)
    requires Took(free, tree, free', tree', m) && m <= n
    ensures Took(free, tree, free', tree', n)
  {}

  lemma TookOne(free: set<nat>, tree: Tree, tree': Tree, f: nat)
    requires f in free && tree'.Keys == tree.Keys + {f}
    ensures Took(free, tree, free - {f}, tree', 1)
  {
    assert free == (free - {f}) + {f};
    assert (free - {f}) + tree'.Keys == free + tree.Keys;
  }

  lemma TookTwice(free: set<nat>, tree: Tree, free1: set<nat>, tree1: Tree, free2: set<nat>, tree2: Tree, m: nat,
      n: nat, all: nat)
    requires Took(free, tree, free1, tree1, m) && Took(free1, tree1, free2, tree2, n) && m + n <= all
    ensures Took(free, tree, free2, tree2, all)
  {}

  /** What a fresh table hooked into an absent entry changes. */
  lemma Hooked(mem: Memory, tree: Tree, free: set<nat>, t: nat, i: nat, f: nat)
    requires CanHook(mem, tree, t, i, f) && f in free
    ensures
      var mem', tree' := Hook(mem, t, i, f), HookTree(tree, t, i, f);
      mem' == mem[f := ZeroTable()][t := mem[t][i := Pte(f, TABLE_FLAGS)]] && Shaped(mem', tree') &&
      SameTranslations(mem, mem', tree) && Grown(tree, tree') && Took(free, tree, free - {f}, tree', 1) &&
      Step(mem', t, i) == Some(f) && tree' == tree[f := Node(tree[t].root, tree[t].path + [i], t)] &&
      forall g, j | g != f && (g != t || j != i) :: Step(mem', g, j) == Step(mem, g, j)
  {
    HookSteps(mem, tree, t, i, f);
    HookKeepsShape(mem, tree, t, i, f);
    HookKeepsMap(mem, tree, t, i, f);
    TookOne(free, tree, HookTree(tree, t, i, f), f);
    hide Shaped, Step, SameTranslations, Grown, Took;
  }

  lemma Unhooked(mem: Memory, tree: Tree, free: set<nat>, t: nat, i: nat)
    requires t in mem && i < |mem[t]| && !Present(mem[t][i])
    ensures SameTranslations(mem, mem, tree) && Grown(tree, tree) && Took(free, tree, free, tree, 1)
    ensures Step(mem, t, i) == None
  {}

  class Vmm {
    const pmm: Allocator
    var mem: Memory
    /** The root that CR3 points at. */
    var current: nat
    ghost var tree: Tree

    /** The tables form trees, and every table frame is marked allocated. */
    ghost predicate Valid()
      reads this, pmm, pmm.bitmap
    {
      pmm.Valid() && Shaped(mem, tree) && (forall f {:trigger f in tree} | f in tree :: f !in pmm.free)
    }

    lemma ShapeIs()
      requires Valid()
      ensures Shaped(mem, tree)
    {}

    /** What still holds while an address space is being taken apart. */
    ghost predicate Valid0()
      reads `mem, `tree, pmm, pmm.bitmap
    {
      pmm.Valid() && Shaped(mem, tree)
    }

    /** Boot: the root that the loader left is an address space of its own if its user half is empty. */
    constructor (pmm: Allocator, mem: Memory, current: nat)
      requires pmm.Valid()
      ensures Valid() && this.pmm == pmm && this.mem == mem && this.current == current
      ensures tree == if BootRoot(mem, current) && current !in pmm.free then map[current := Node(current, [], current)]
        else map[]
    {
      this.pmm, this.mem, this.current := pmm, mem, current;
      ghost var admitted := BootRoot(mem, current) && current !in pmm.free;
      tree := if admitted then map[current := Node(current, [], current)] else map[];
      new;
      if admitted {
        NewRoot(mem, map[], current, mem[current]);
        assert mem[current := mem[current]] == mem;
      }
    }

    /** One level of walk_to_pt: follow entry i of t, or make the table it lacks. */
    method NextTable(t: nat, i: nat, create: bool) returns (r: Option<nat>)
      requires Valid() && t in tree && |tree[t].path| < 3 && i < Slots(tree[t])
      modifies `mem, `tree, pmm, pmm.bitmap
      ensures Valid() && Grown(old(tree), tree) && SameTranslations(old(mem), mem, old(tree))
      ensures r == Step(mem, t, i)
      ensures r.Some? ==> r.value in tree && tree[r.value] == Node(old(tree)[t].root, old(tree)[t].path + [i], t)
      ensures r.None? ==> mem == old(mem) && tree == old(tree) && (!create || pmm.free == {})
      ensures forall g, j | (g != t || j != i) && g in old(tree) :: Step(mem, g, j) == Step(old(mem), g, j)
      ensures Took(old(pmm.free), old(tree), pmm.free, tree, 1)
      ensures !create ==> mem == old(mem) && tree == old(tree) && pmm.free == old(pmm.free)
    {
      StepInTree(mem, tree, t, i);
      TookNone(pmm.free, tree, 1);
      if !Present(mem[t][i]) {
        if !create {
          return None;
        }
        r := MakeTable(t, i);
        return;
      } else if mem[t][i].flags & USER == 0 {
        return None;
      }
      return Some(mem[t][i].frame);
    }

    /** Hooks a zeroed table into an absent entry, if a frame is free. */
    method MakeTable(t: nat, i: nat) returns (r: Option<nat>)
      requires Valid() && t in tree && |tree[t].path| < 3 && i < Slots(tree[t])
      requires t in mem && i < |mem[t]| && !Present(mem[t][i])
      modifies `mem, `tree, pmm, pmm.bitmap
      ensures Valid() && Grown(old(tree), tree) && SameTranslations(old(mem), mem, old(tree))
      ensures r == Step(mem, t, i)
      ensures r.Some? ==> r.value in tree && tree[r.value] == Node(old(tree)[t].root, old(tree)[t].path + [i], t)
      ensures r.None? ==> mem == old(mem) && tree == old(tree) && pmm.free == {}
      ensures forall g, j | (g != t || j != i) && g in old(tree) :: Step(mem, g, j) == Step(old(mem), g, j)
      ensures Took(old(pmm.free), old(tree), pmm.free, tree, 1)
    {
      StepInTree(mem, tree, t, i);
      Unhooked(mem, tree, pmm.free, t, i);
      hide Step, Translate, Present, Grown, SameTranslations, Took, Allocator.Valid, Shaped, NodeOk, SlotOk;
      var phys := pmm.Alloc();
      if phys == 0 {
        return None;
      }
      var f := phys / PAGE_SIZE;
      Hooked(mem, tree, old(pmm.free), t, i, f);
      HookIn(t, i, f);
      return Some(f);
    }

    /** Zeroes the table and writes the entry that leads to it. */
    method HookIn(t: nat, i: nat, f: nat)
      requires Valid() && CanHook(mem, tree, t, i, f) && f !in pmm.free
      modifies `mem, `tree
      ensures Valid() && mem == Hook(old(mem), t, i, f) && tree == HookTree(old(tree), t, i, f)
    {
      HookKeepsShape(mem, tree, t, i, f);
      hide Shaped, Present, Allocator.Valid;
      mem := mem[f := ZeroTable()];
      mem := mem[t := mem[t][i := Pte(f, TABLE_FLAGS)]];
      tree := HookTree(tree, t, i, f);
    }

    /** Finds the leaf table of page v; with create, makes the tables that are missing. */
    method WalkToPt(root: nat, v: nat, create: bool) returns (r: Option<nat>)
      requires Valid() && IsRoot(tree, root) && v < USER_PAGES
      modifies `mem, `tree, pmm, pmm.bitmap
      ensures Valid() && Grown(old(tree), tree) && SameTranslations(old(mem), mem, old(tree))
      ensures r == Walk(mem, root, v)
      ensures r.None? && create ==> pmm.free == {}
      ensures Took(old(pmm.free), old(tree), pmm.free, tree, 3)
      ensures !create ==> mem == old(mem) && tree == old(tree) && pmm.free == old(pmm.free)
    {
      IndicesBounded(v);
      hide Index4, Index3, Index2, Shaped, Step, Translate, Took, SameTranslations;
      ghost var pdpt;
      r, pdpt := WalkToPd(root, v, create);
      ghost var mem1, tree1, free1 := mem, tree, pmm.free;
      if r.None? {
        TookFewer(old(pmm.free), old(tree), free1, tree, 2, 3);
        return;
      }
      r := NextTable(r.value, Index2(v), create);
      TookTwice(old(pmm.free), old(tree), free1, tree1, pmm.free, tree, 2, 1, 3);
      GrownTwice(old(tree), tree1, tree);
      SameTwice(old(mem), mem1, mem, old(tree), tree1);
    }

    /** The first two levels of the walk. */
    method WalkToPd(root: nat, v: nat, create: bool) returns (r: Option<nat>, ghost pdpt: nat)
      requires Valid() && IsRoot(tree, root) && v < USER_PAGES
      modifies `mem, `tree, pmm, pmm.bitmap
      ensures Valid() && Grown(old(tree), tree) && SameTranslations(old(mem), mem, old(tree))
      ensures r.None? ==> Walk(mem, root, v) == None && (create ==> pmm.free == {})
      ensures r.Some? ==>
        pdpt in tree && r.value in tree && root in tree && tree[root].path == [] && tree[pdpt].path == [Index4(v)] &&
        tree[r.value].path == [Index4(v), Index3(v)] &&
        Step(mem, root, Index4(v)) == Some(pdpt) && Step(mem, pdpt, Index3(v)) == r
      ensures Took(old(pmm.free), old(tree), pmm.free, tree, 2)
      ensures !create ==> mem == old(mem) && tree == old(tree) && pmm.free == old(pmm.free)
    {
      IndicesBounded(v);
      hide Index4, Index3, Index2, Shaped, Step, Translate, Took, SameTranslations;
      r := NextTable(root, Index4(v), create);
      ghost var mem1, tree1, free1 := mem, tree, pmm.free;
      pdpt := 0;
      if r.None? {
        TookFewer(old(pmm.free), old(tree), free1, tree, 1, 2);
        return;
      }
      pdpt := r.value;
      GrownRoots(old(tree), tree1, root);
      assert tree1[pdpt].path == [Index4(v)] && tree1[root].path == [];
      r := NextTable(r.value, Index3(v), create);
      TookTwice(old(pmm.free), old(tree), free1, tree1, pmm.free, tree, 1, 1, 2);
      GrownTwice(old(tree), tree1, tree);
      SameTwice(old(mem), mem1, mem, old(tree), tree1);
      assert tree[pdpt] == tree1[pdpt] && tree[root] == tree1[root];
    }

    /** The translation of one page. */
    method QueryPage(root: nat, virt: nat) returns (r: Option<Pte>)
      requires Valid() && (root == 0 || IsRoot(tree, root))
      requires virt < U64 && !RangeIsKernel(virt, PAGE_SIZE)
      modifies `mem, `tree, pmm, pmm.bitmap
      ensures Valid() && mem == old(mem) && tree == old(tree) && pmm.free == old(pmm.free)
      ensures r == if root != 0 && virt % PAGE_SIZE == 0 && RangeIsUser(virt, PAGE_SIZE)
                   then Translate(mem, root, virt / PAGE_SIZE) else None
      ensures r.Some? ==> Leads(mem, root, virt / PAGE_SIZE, r.value) && r.value.flags & 1 != 0
    {
      if root == 0 || virt % PAGE_SIZE != 0 || !RangeIsUser(virt, PAGE_SIZE) {
        return None;
      }
      var v := virt / PAGE_SIZE;
      var pt := WalkToPt(root, v, false);
      if pt.None? {
        return None;
      }
      WalkInTree(mem, tree, root, v);
      assert NodeOk(mem, tree, pt.value);
      var entry := mem[pt.value][Index1(v)];
      if !Present(entry) {
        return None;
      }
      TranslateLeads(mem, tree, root, v);
      hide Shaped, NodeOk, Walk, Step, Leads, Open, RangeIsUser, RangeIsKernel, Allocator.Valid;
      return Some(entry);
    }

    /** Stores the edited entry of page v0 + n, which the walk has found in table t. */
    method WriteLeaf(t: nat, ghost mem0: Memory, ghost tree0: Tree, root: nat, v0: nat, n: nat, ghost edit: Edit,
        e: Pte)
      requires Valid() && Grown(tree0, tree) && IsRoot(tree0, root) && v0 + n < USER_PAGES
      requires Walk(mem, root, v0 + n) == Some(t)
      requires Applied(mem0, mem, tree0, root, v0, n, edit) && e == Wanted(edit, n, Translate(mem, root, v0 + n))
      modifies `mem
      ensures Valid() && Applied(mem0, mem, tree0, root, v0, n + 1, edit)
    {
      hide Shaped, Grown, IsRoot, Walk, Translate, Applied, SetEntry, Wanted, Index1, Allocator.Valid;
      EditOneMore(mem0, mem, tree0, tree, root, v0, n, edit);
      assert mem[t := mem[t][Index1(v0 + n) := e]] == SetEntry(mem, t, Index1(v0 + n), e) by {
        SetEntryIs(mem, t, Index1(v0 + n), e);
      }
      mem := mem[t := mem[t][Index1(v0 + n) := e]];
    }

    /** The first pass of vmm_unmap_pages: is every page of the range mapped? */
    method QueryRange(root: nat, virt: nat, pages: nat) returns (mapped: bool)
      requires Valid() && root != 0 && IsRoot(tree, root)
      requires virt < U64 && forall i: nat | i < pages :: PageInUserRange(virt, i)
      modifies `mem, `tree, pmm, pmm.bitmap
      ensures Valid() && mem == old(mem) && tree == old(tree) && pmm.free == old(pmm.free)
      ensures mapped <==> AllMapped(mem, root, virt / PAGE_SIZE, pages)
    {
      hide RangeIsUser, RangeIsKernel, Translate, Shaped, IsRoot;
      var v0 := virt / PAGE_SIZE;
      for i := 0 to pages
        invariant Valid() && mem == old(mem) && tree == old(tree) && pmm.free == old(pmm.free)
        invariant AllMapped(mem, root, v0, i)
      {
        assert PageInUserRange(virt, i);
        var r := QueryPage(root, virt + i * PAGE_SIZE);
        if r.None? {
          assert InRange(v0 + i, v0, pages) && Translate(mem, root, v0 + i).None?;
          return false;
        }
      }
      return true;
    }

    /** All or nothing: succeeds exactly when every page of the range is mapped, and then removes
        exactly those translations. */
    method UnmapPages(root: nat, virt: nat, pages: nat) returns (ok: bool)
      requires Valid() && (root == 0 || IsRoot(tree, root))
      requires virt < U64 && pages < 0x10_0000_0000_0000 && !RangeIsKernel(virt, Span(pages))
      modifies `mem, `tree, pmm, pmm.bitmap
      ensures Valid() && tree == old(tree) && pmm.free == old(pmm.free)
      ensures ok <==> root != 0 && SpanOk(virt, pages) && AllMapped(old(mem), root, virt / PAGE_SIZE, pages)
      ensures ok ==>
        Applied(old(mem), mem, tree, root, virt / PAGE_SIZE, pages, Clear) &&
        Gone(mem, root, virt / PAGE_SIZE, pages) && Elsewhere(old(mem), mem, tree, root, virt / PAGE_SIZE, pages)
      ensures !ok ==> mem == old(mem)
    {
      if root == 0 || !SpanOk(virt, pages) {
        return false;
      }
      UserRequest(virt, pages);
      var v0 := virt / PAGE_SIZE;
      var mapped := QueryRange(root, virt, pages);
      if !mapped {
        return false;
      }
      hide *;
      ClearPages(root, v0, pages);
      ClearedGone(old(mem), mem, tree, root, v0, pages);
      AppliedElsewhere(old(mem), mem, tree, root, v0, pages, Clear);
      return true;
    }

    /** The second loop of unmap. */
    method ClearPages(root: nat, v0: nat, pages: nat)
      requires Valid() && IsRoot(tree, root) && v0 + pages <= USER_PAGES && AllMapped(mem, root, v0, pages)
      modifies `mem, `tree, pmm, pmm.bitmap
      ensures Valid() && tree == old(tree) && pmm.free == old(pmm.free)
      ensures Applied(old(mem), mem, tree, root, v0, pages, Clear)
    {
      GrownReflexive(tree);
      hide Translate, Shaped, Walk, Grown, IsRoot, Applied, AllMapped, Took, SameTranslations, Allocator.Valid;
      NothingApplied(mem, tree, root, v0, Clear);
      for i := 0 to pages
        invariant Valid() && tree == old(tree) && pmm.free == old(pmm.free)
        invariant Applied(old(mem), mem, tree, root, v0, i, Clear)
      {
        var pt := WalkToPt(root, v0 + i, false);
        StillMapped(old(mem), mem, tree, root, v0, i, pages, Clear);
        WriteLeaf(pt.value, old(mem), tree, root, v0, i, Clear, EMPTY);
      }
    }

    /** Takes the first i pages of a failed map call out again. */
    method Rollback(ghost mem0: Memory, ghost tree0: Tree, root: nat, virt: nat, ghost phys: nat, i: nat,
        ghost flags: bv64)
      requires Valid() && Grown(tree0, tree) && IsRoot(tree0, root) && root != 0 && virt < U64
      requires i > 0 ==>
          i < 0x10_0000_0000_0000 && SpanOk(virt, i) &&
          RangeIsUser(virt, Span(i)) && !RangeIsKernel(virt, Span(i))
      requires NoneMapped(mem0, root, virt / PAGE_SIZE, i)
      requires Applied(mem0, mem, tree0, root, virt / PAGE_SIZE, i, MapTo(phys, flags))
      modifies `mem, `tree, pmm, pmm.bitmap
      ensures Valid() && tree == old(tree) && pmm.free == old(pmm.free)
      ensures SameTranslations(mem0, mem, tree0)
    {
      GrownRoots(tree0, tree, root);
      var v0 := virt / PAGE_SIZE;
      if i > 0 {
        UserRequest(virt, i);
        MappedByEdit(mem0, mem, tree0, root, v0, i, phys, flags);
        hide SpanOk, RangeIsUser, RangeIsKernel, Span, Translate, Shaped, Grown, IsRoot, Applied, AllMapped, NoneMapped;
        var ok := UnmapPages(root, virt, i);
        RollbackRestores(mem0, old(mem), mem, tree0, tree, root, v0, i, MapTo(phys, flags));
      }
    }

    /** A successful call adds exactly the requested translations, over pages that had none; a failed
        one leaves every translation of every address space as it was. It fails only for a bad
        request, a page of the range that was mapped, or lack of frames for tables; either way a frame that left the
        free ones is a table, at most three for each page. */
    method MapPages(root: nat, virt: nat, phys: nat, pages: nat, flags: bv64) returns (ok: bool)
      requires Valid() && (root == 0 || IsRoot(tree, root))
      requires virt < U64 && pages < 0x10_0000_0000_0000 && !RangeIsKernel(virt, Span(pages))
      modifies `mem, `tree, pmm, pmm.bitmap
      ensures Valid() && Grown(old(tree), tree)
      ensures ok ==>
        root != 0 && MapRequestOk(virt, phys, pages, flags) &&
        NoneMapped(old(mem), root, virt / PAGE_SIZE, pages) &&
        Applied(old(mem), mem, old(tree), root, virt / PAGE_SIZE, pages, MapTo(phys, flags))
      ensures ok ==>
        RunsFrom(mem, root, virt / PAGE_SIZE, pages, phys / PAGE_SIZE, flags) &&
        Elsewhere(old(mem), mem, old(tree), root, virt / PAGE_SIZE, pages)
      ensures !ok ==> SameTranslations(old(mem), mem, old(tree))
      ensures !ok ==>
        root == 0 || !MapRequestOk(virt, phys, pages, flags) ||
        !NoneMapped(old(mem), root, virt / PAGE_SIZE, pages) || pmm.free == {}
      ensures Took(old(pmm.free), old(tree), pmm.free, tree, 3 * pages)
    {
      GrownReflexive(tree);
      TookNone(pmm.free, tree, 0);
      TookNone(pmm.free, tree, 3 * pages);
      if root == 0 || !MapRequestOk(virt, phys, pages, flags) {
        return false;
      }
      UserRequest(virt, pages);
      var v0 := virt / PAGE_SIZE;
      ghost var edit := MapTo(phys, flags);
      NothingApplied(mem, tree, root, v0, edit);
      for i := 0 to pages
        invariant Valid() && Grown(old(tree), tree)
        invariant NoneMapped(old(mem), root, v0, i)
        invariant Applied(old(mem), mem, old(tree), root, v0, i, edit)
        invariant Took(old(pmm.free), old(tree), pmm.free, tree, 3 * i)
      {
        ghost var free1, tree1 := pmm.free, tree;
        assert PageInUserRange(virt, i);
        if i > 0 {
          SubRequest(virt, pages, i);
        }
        ok := MapOnePage(old(mem), old(tree), root, virt, phys, i, flags);
        TookTwice(old(pmm.free), old(tree), free1, tree1, pmm.free, tree, 3 * i, 3, 3 * i + 3);
        if !ok {
          if NoneMapped(old(mem), root, v0, pages) {
            NoneMappedPrefix(old(mem), root, v0, i + 1, pages);
          }
          TookFewer(old(pmm.free), old(tree), pmm.free, tree, 3 * i + 3, 3 * pages);
          return;
        }
      }
      MappedRuns(old(mem), mem, old(tree), tree, root, v0, pages, phys, flags);
      AppliedElsewhere(old(mem), mem, old(tree), root, v0, pages, edit);
      return true;
    }

    /** The body of the mapping loop. */
    method MapOnePage(ghost mem0: Memory, ghost tree0: Tree, root: nat, virt: nat, phys: nat, i: nat, flags: bv64)
        returns (ok: bool)
      requires Valid() && Grown(tree0, tree) && IsRoot(tree0, root) && root != 0 && virt < U64
      requires virt / PAGE_SIZE + i < USER_PAGES
      requires i > 0 ==>
          i < 0x10_0000_0000_0000 && SpanOk(virt, i) &&
          RangeIsUser(virt, Span(i)) && !RangeIsKernel(virt, Span(i))
      requires NoneMapped(mem0, root, virt / PAGE_SIZE, i)
      requires Applied(mem0, mem, tree0, root, virt / PAGE_SIZE, i, MapTo(phys, flags))
      modifies `mem, `tree, pmm, pmm.bitmap
      ensures Valid() && Grown(tree0, tree)
      ensures ok ==> NoneMapped(mem0, root, virt / PAGE_SIZE, i + 1) &&
                     Applied(mem0, mem, tree0, root, virt / PAGE_SIZE, i + 1, MapTo(phys, flags))
      ensures !ok ==> SameTranslations(mem0, mem, tree0)
      ensures !ok ==> !NoneMapped(mem0, root, virt / PAGE_SIZE, i + 1) || pmm.free == {}
      ensures Took(old(pmm.free), old(tree), pmm.free, tree, 3)
    {
      hide SpanOk, RangeIsUser, RangeIsKernel, Span, Shaped, Grown, IsRoot, Applied, AllMapped, NoneMapped,
        SameTranslations, Walk, PteFlags, Index1, Took;
      var v0 := virt / PAGE_SIZE;
      ghost var edit := MapTo(phys, flags);
      GrownRoots(tree0, tree, root);
      ghost var mem1, tree1 := mem, tree;
      var pt := WalkToPt(root, v0 + i, true);
      GrownTwice(tree0, tree1, tree);
      AppliedThenSame(mem0, mem1, mem, tree0, tree1, root, v0, i, edit);
      if pt.None? {
        Rollback(mem0, tree0, root, virt, phys, i, flags);
        return false;
      }
      GrownRoots(tree0, tree, root);
      UntouchedPage(mem0, mem1, mem, tree0, tree1, root, v0, i, edit);
      NoneMappedMore(mem0, root, v0, i);
      LeafInTree(mem, tree, root, v0 + i);
      if Present(mem[pt.value][Index1(v0 + i)]) {
        Rollback(mem0, tree0, root, virt, phys, i, flags);
        return false;
      }
      WriteLeaf(pt.value, mem0, tree0, root, v0, i, edit,
                Pte((phys / PAGE_SIZE + i) % 0x100_0000_0000, PteFlags(flags) | PRESENT));
      return true;
    }

    /** Not all or nothing: the flags of the leading run of mapped pages change, frames stay, and the
        call fails at the first unmapped page with the pages before it already changed. A failed call has left
        everything as it was exactly when it refused the request or the leading run had those flags already. */
    method ProtectPages(root: nat, virt: nat, pages: nat, flags: bv64) returns (ok: bool)
      requires Valid() && (root == 0 || IsRoot(tree, root))
      requires virt < U64 && pages < 0x10_0000_0000_0000 && !RangeIsKernel(virt, Span(pages))
      modifies `mem, `tree, pmm, pmm.bitmap
      ensures Valid() && tree == old(tree) && pmm.free == old(pmm.free)
      ensures root == 0 || !MapRequestOk(virt, 0, pages, flags) ==> !ok && mem == old(mem)
      ensures root != 0 && MapRequestOk(virt, 0, pages, flags) ==>
        var d := Leading(old(mem), root, virt / PAGE_SIZE, pages);
        (ok <==> d == pages) && Applied(old(mem), mem, tree, root, virt / PAGE_SIZE, d, Reflag(flags)) &&
        Regranted(old(mem), mem, root, virt / PAGE_SIZE, d, flags) &&
        Elsewhere(old(mem), mem, tree, root, virt / PAGE_SIZE, d) &&
        (SameTranslations(old(mem), mem, tree) <==> Carries(old(mem), root, virt / PAGE_SIZE, d, flags))
    {
      var v0 := virt / PAGE_SIZE;
      NothingApplied(mem, tree, root, v0, Reflag(flags));
      if root == 0 || flags & MAP_READ == 0 || !SpanOk(virt, pages) {
        return false;
      }
      if flags & MAP_USER == 0 || !RangeIsUser(virt, Span(pages)) {
        return false;
      }
      UserRequest(virt, pages);
      GrownReflexive(tree);
      hide SpanOk, RangeIsUser, RangeIsKernel, Span, Shaped, Grown, IsRoot, Applied, Walk, Translate, PteFlags, Index1,
        SameTranslations, AllMapped, Allocator.Valid, Present, Leading, Carries;
      NoneToMap(mem, root, v0);
      for i := 0 to pages
        invariant Valid() && tree == old(tree) && pmm.free == old(pmm.free)
        invariant AllMapped(old(mem), root, v0, i)
        invariant Applied(old(mem), mem, tree, root, v0, i, Reflag(flags))
      {
        assert PageInUserRange(virt, i);
        var found := ProtectOnePage(old(mem), root, v0, i, flags);
        if !found {
          LeadingIs(old(mem), root, v0, pages, i);
          AppliedElsewhere(old(mem), mem, tree, root, v0, i, Reflag(flags));
          ShapeIs();
          ReflaggedGrants(old(mem), mem, tree, root, v0, i, flags);
          ReflagLeaves(old(mem), mem, tree, root, v0, i, flags);
          return false;
        }
      }
      LeadingIs(old(mem), root, v0, pages, pages);
      AppliedElsewhere(old(mem), mem, tree, root, v0, pages, Reflag(flags));
      ShapeIs();
      ReflaggedGrants(old(mem), mem, tree, root, v0, pages, flags);
      ReflagLeaves(old(mem), mem, tree, root, v0, pages, flags);
      return true;
    }

    /** The body of the protecting loop. */
    method ProtectOnePage(ghost mem0: Memory, root: nat, v0: nat, i: nat, flags: bv64) returns (found: bool)
      requires Valid() && IsRoot(tree, root) && v0 + i < USER_PAGES && AllMapped(mem0, root, v0, i)
      requires Applied(mem0, mem, tree, root, v0, i, Reflag(flags))
      modifies `mem, `tree, pmm, pmm.bitmap
      ensures Valid() && tree == old(tree) && pmm.free == old(pmm.free)
      ensures found <==> Translate(mem0, root, v0 + i).Some?
      ensures found ==> AllMapped(mem0, root, v0, i + 1) && Applied(mem0, mem, tree, root, v0, i + 1, Reflag(flags))
      ensures !found ==> mem == old(mem)
    {
      GrownReflexive(tree);
      hide Shaped, Grown, IsRoot, Applied, Walk, Translate, PteFlags, Index1, SameTranslations, AllMapped,
        Allocator.Valid, Present, Took;
      AsBefore(mem0, mem, tree, root, v0, i, Reflag(flags));
      var pt := WalkToPt(root, v0 + i, false);
      if pt.None? {
        UnwalkedIsUnmapped(mem, root, v0 + i);
        return false;
      }
      LeafInTree(mem, tree, root, v0 + i);
      var entry := mem[pt.value][Index1(v0 + i)];
      if !Present(entry) {
        return false;
      }
      AllMappedMore(mem0, root, v0, i);
      WriteLeaf(pt.value, mem0, tree, root, v0, i, Reflag(flags), Pte(entry.frame, PteFlags(flags) | PRESENT));
      return true;
    }

    /** Fills a fresh PML4: an empty user half and the kernel half of the current address space. */
    method InstallRoot(root: nat)
      requires Valid() && root !in tree && 0 < root < FRAME_COUNT && root !in pmm.free
      requires current in mem && |mem[current]| == 512
      modifies `mem, `tree
      ensures Valid() && SameTranslations(old(mem), mem, old(tree))
      ensures tree == old(tree)[root := Node(root, [], root)]
      ensures forall v: nat {:trigger Translate(mem, root, v)} | v < USER_PAGES :: Translate(mem, root, v).None?
      ensures root in mem && |mem[root]| == 512 && mem[root][256..] == old(mem)[current][256..]
    {
      hide Shaped, Translate, Allocator.Valid;
      var table := ZeroTable()[..256] + mem[current][256..];
      SplitTable(ZeroTable(), mem[current]);
      NewRoot(mem, tree, root, table);
      mem := mem[root := table];
      tree := tree[root := Node(root, [], root)];
    }

    /** A new address space translates no user page, shares the kernel half of the current one, and
        leaves every other address space alone. */
    method CreateAddressSpace() returns (r: Option<nat>)
      requires Valid() && (current != 0 ==> current in mem && |mem[current]| == 512 && current !in pmm.free)
      modifies `mem, `tree, pmm, pmm.bitmap
      ensures Valid() && SameTranslations(old(mem), mem, old(tree))
      ensures r.None? <==> current == 0 || old(pmm.free) == {}
      ensures r.None? ==> tree == old(tree) && mem == old(mem) && pmm.free == old(pmm.free)
      ensures r.Some? ==>
        var root := r.value;
        root in old(pmm.free) && pmm.free == old(pmm.free) - {root} &&
        tree == old(tree)[root := Node(root, [], root)] &&
        (forall v: nat {:trigger Translate(mem, root, v)} | v < USER_PAGES :: Translate(mem, root, v).None?) &&
        root in mem && |mem[root]| == 512 && mem[root][256..] == old(mem)[current][256..]
    {
      var phys := pmm.Alloc();
      if phys == 0 {
        return None;
      }
      var root := phys / PAGE_SIZE;
      if current == 0 {
        pmm.FreeFrame(phys);
        return None;
      }
      InstallRoot(root);
      return Some(root);
    }

    method FreeTable(f: nat)
      requires Valid0() && f in tree && f !in pmm.free
      modifies pmm, pmm.bitmap
      ensures Valid0() && pmm.free == old(pmm.free) + {f}
    {
      TableFrame(mem, tree, f);
      pmm.FreeFrame(f * PAGE_SIZE);
    }

    /** The innermost loop: the page tables under one page directory, then the directory. */
    method FreeDirectory(pd: nat, a: nat, b: nat, ghost before: set<nat>)
      requires Valid0() && pd in tree && tree[pd].path == [a, b]
      requires Freed(pmm.free, before, tree, tree[pd].root, a, b, 0)
      modifies pmm, pmm.bitmap
      ensures Valid0() && Freed(pmm.free, before, tree, tree[pd].root, a, b + 1, 0)
    {
      TableFrame(mem, tree, pd);
      hide Shaped, Freed, Present, Allocator.Valid;
      for c := 0 to 512
        invariant Valid0() && Freed(pmm.free, before, tree, tree[pd].root, a, b, c)
      {
        FreedPt(mem, tree, pd, a, b, c, pmm.free, before);
        var entry := mem[pd][c];
        if Present(entry) && entry.flags & HUGE == 0 && entry.frame != 0 {
          FreeTable(entry.frame);
        }
      }
      FreedPd(mem, tree, pd, a, b, pmm.free, before);
      FreeTable(pd);
    }

    /** The middle loop: the page directories under one PDPT, then the PDPT. */
    method FreeSubtree(pdpt: nat, a: nat, ghost before: set<nat>)
      requires Valid0() && pdpt in tree && tree[pdpt].path == [a]
      requires Freed(pmm.free, before, tree, tree[pdpt].root, a, 0, 0)
      modifies pmm, pmm.bitmap
      ensures Valid0() && Freed(pmm.free, before, tree, tree[pdpt].root, a + 1, 0, 0)
    {
      TableFrame(mem, tree, pdpt);
      hide Shaped, Freed, Present, Allocator.Valid;
      for b := 0 to 512
        invariant Valid0() && Freed(pmm.free, before, tree, tree[pdpt].root, a, b, 0)
      {
        FreedSkipPd(mem, tree, pdpt, a, b, pmm.free, before);
        var entry := mem[pdpt][b];
        if Present(entry) {
          FreeDirectory(entry.frame, a, b, before);
        }
      }
      FreedPdpt(mem, tree, pdpt, a, pmm.free, before);
      FreeTable(pdpt);
    }

    /** The outer loop: the PDPTs of the user half, then the PML4. */
    method FreeTables(root: nat)
      requires Valid() && IsRoot(tree, root)
      modifies pmm, pmm.bitmap
      ensures pmm.Valid() && pmm.free == old(pmm.free) + Tables(tree, root) && Tables(tree, root) !! old(pmm.free)
    {
      TableFrame(mem, tree, root);
      ghost var before := pmm.free;
      FreedAtStart(before, tree, root);
      hide Shaped, Freed, Present, Allocator.Valid, Tables;
      for a := 0 to 256
        invariant Valid0() && Freed(pmm.free, before, tree, root, a, 0, 0)
      {
        FreedSkipPdpt(mem, tree, root, a, pmm.free, before);
        var entry := mem[root][a];
        if Present(entry) {
          FreeSubtree(entry.frame, a, before);
        }
      }
      FreedAll(mem, tree, root, pmm.free, before);
      FreeTable(root);
    }

    /** Frees the tables of one address space and nothing else: no leaf frame, no kernel-half table,
        no table of another address space; each once, for none was free before. */
    method DestroyAddressSpace(root: nat) returns (ok: bool)
      requires Valid() && (root == 0 || IsRoot(tree, root))
      modifies `tree, pmm, pmm.bitmap
      ensures Valid()
      ensures ok <==> root != 0 && root != current
      ensures ok ==> pmm.free == old(pmm.free) + Tables(old(tree), root) && Tables(old(tree), root) !! old(pmm.free)
      ensures ok ==> tree == old(tree) - Tables(old(tree), root)
      ensures !ok ==> tree == old(tree) && pmm.free == old(pmm.free)
    {
      if root == 0 || root == current {
        return false;
      }
      ForestWithout(mem, tree, root);
      RemainingAllocated(tree, root, pmm.free);
      FreeTables(root);
      tree := tree - Tables(tree, root);
      return true;
    }
  }

  // ---- a run of vmm_protect_pages that fails half-way ----

  const WRITABLE_USER: bv64 := MAP_READ | MAP_WRITE | MAP_USER
  const READONLY_USER: bv64 := MAP_READ | MAP_USER

  lemma RoomForTables(free: set<nat>)
    requires forall f | 256 <= f < 261 :: f in free
    ensures |free| >= 5
  {
    var some := {256, 257, 258, 259, 260};
    assert free == some + (free - some) && some !! (free - some);
  }

  /** The machine with memory from 1 MiB to 32 MiB, an empty boot table in frame 1, and one new address space. */
  method Boot() returns (vmm: Vmm, root: nat)
    ensures fresh(vmm) && fresh(vmm.pmm) && fresh(vmm.pmm.bitmap)
    ensures vmm.Valid() && root != 0 && IsRoot(vmm.tree, root) && |vmm.pmm.free| >= 4
    ensures forall v: nat | v < USER_PAGES :: Translate(vmm.mem, root, v).None?
  {
    var pmm := new Allocator([MemoryRegion(0x10_0000, 0x200_0000)], []);
    forall f | 256 <= f < 261 ensures f in pmm.free {
      assert Touches([MemoryRegion(0x10_0000, 0x200_0000)][0], f);
    }
    RoomForTables(pmm.free);
    vmm := new Vmm(pmm, map[1 := ZeroTable()], 1);
    ghost var free := pmm.free;
    hide Translate, Shaped, Allocator.Valid;
    var r := vmm.CreateAddressSpace();
    root := r.value;
    assert free == (free - {root}) + {root};
  }

  lemma RunRequests()
    ensures MapRequestOk(0x10_0000, 0x20_0000, 1, WRITABLE_USER) && MapRequestOk(0x10_0000, 0, 2, READONLY_USER)
    ensures !RangeIsKernel(0x10_0000, Span(1)) && !RangeIsKernel(0x10_0000, Span(2))
    ensures 0x10_0000 < U64 && 0x10_0000 / PAGE_SIZE == 256
  {}

  lemma FlagsDiffer()
    ensures PteFlags(WRITABLE_USER) | PRESENT != PteFlags(READONLY_USER) | PRESENT
  {}

  lemma SomeLeft(free: set<nat>, tree: Tree, free': set<nat>, tree': Tree)
    requires |free| >= 4 && Took(free, tree, free', tree', 3 * 1)
    ensures free' != {}
  {}

  lemma OneMapped(mem: Memory, mem': Memory, tree: Tree, root: nat)
    requires IsRoot(tree, root) && (forall v: nat | v < USER_PAGES :: Translate(mem, root, v).None?)
    requires Applied(mem, mem', tree, root, 256, 1, MapTo(0x20_0000, WRITABLE_USER))
    ensures Translate(mem', root, 256) == Some(Pte(512, PteFlags(WRITABLE_USER) | PRESENT))
    ensures Leading(mem', root, 256, 2) == 1
  {
    PteFlagsOutsideMask(WRITABLE_USER);
    assert InRange(256, 256, 1) && !InRange(257, 256, 1);
    hide Translate, PteFlags;
    LeadingIs(mem', root, 256, 2, 1);
  }

  lemma OneReflagged(mem: Memory, mem': Memory, tree: Tree, root: nat)
    requires IsRoot(tree, root) && Translate(mem, root, 256) == Some(Pte(512, PteFlags(WRITABLE_USER) | PRESENT))
    requires Applied(mem, mem', tree, root, 256, 1, Reflag(READONLY_USER))
    ensures Translate(mem', root, 256) == Some(Pte(512, PteFlags(READONLY_USER) | PRESENT))
  {
    PteFlagsOutsideMask(READONLY_USER);
    assert InRange(256, 256, 1);
    hide Translate, PteFlags;
  }

  /** One page mapped writable. */
  method MapWritable(vmm: Vmm, root: nat) returns (ok: bool)
    requires vmm.Valid() && root != 0 && IsRoot(vmm.tree, root) && |vmm.pmm.free| >= 4
    requires forall v: nat | v < USER_PAGES :: Translate(vmm.mem, root, v).None?
    modifies vmm`mem, vmm`tree, vmm.pmm, vmm.pmm.bitmap
    ensures ok && vmm.Valid() && IsRoot(vmm.tree, root) && Leading(vmm.mem, root, 256, 2) == 1
    ensures Translate(vmm.mem, root, 256) == Some(Pte(512, PteFlags(WRITABLE_USER) | PRESENT))
  {
    hide *;
    RunRequests();
    NothingMapped(vmm.mem, root);
    ok := vmm.MapPages(root, 0x10_0000, 0x20_0000, 1, WRITABLE_USER);
    SomeLeft(old(vmm.pmm.free), old(vmm.tree), vmm.pmm.free, vmm.tree);
    OneMapped(old(vmm.mem), vmm.mem, old(vmm.tree), root);
    GrownRoots(old(vmm.tree), vmm.tree, root);
  }

  /** Two pages protected read-only, of which only the first is mapped. */
  method ProtectTwo(vmm: Vmm, root: nat) returns (ok: bool)
    requires vmm.Valid() && root != 0 && IsRoot(vmm.tree, root) && Leading(vmm.mem, root, 256, 2) == 1
    requires Translate(vmm.mem, root, 256) == Some(Pte(512, PteFlags(WRITABLE_USER) | PRESENT))
    modifies vmm`mem, vmm`tree, vmm.pmm, vmm.pmm.bitmap
    ensures !ok && vmm.Valid()
    ensures Translate(vmm.mem, root, 256) == Some(Pte(512, PteFlags(READONLY_USER) | PRESENT))
  {
    hide *;
    RunRequests();
    ok := vmm.ProtectPages(root, 0x10_0000, 2, READONLY_USER);
    OneReflagged(old(vmm.mem), vmm.mem, vmm.tree, root);
  }

  /** One page mapped writable, then two protected read-only, of which it is the first: the call fails, and the page
      has become read-only. */
  method ProtectRun() returns (vmm: Vmm, root: nat, mapped: bool, ghost was: Option<Pte>, ok: bool)
    ensures mapped && was == Some(Pte(512, PteFlags(WRITABLE_USER) | PRESENT))
    ensures !ok && vmm.Valid() && Translate(vmm.mem, root, 256) == Some(Pte(512, PteFlags(READONLY_USER) | PRESENT))
    ensures was != Translate(vmm.mem, root, 256)
  {
    hide *;
    FlagsDiffer();
    vmm, root := Boot();
    mapped := MapWritable(vmm, root);
    was := Translate(vmm.mem, root, 256);
    ok := ProtectTwo(vmm, root);
  }

  lemma NothingMapped(mem: Memory, root: nat)
    requires forall v: nat | v < USER_PAGES :: Translate(mem, root, v).None?
    ensures NoneMapped(mem, root, 256, 1)
  {
    hide Translate;
  }
}
