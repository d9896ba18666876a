/** The shape of the 4-level page tables of mm/vmm_x64.c, on values: physical memory as a map from
    table frames to their 512 entries, the tree the user half of every address space must form,
    and the flat partial map that the tree stands for. */
module PageTables {
  import opened Options
  import opened Pmm

  // ---- entries ----

  /** An entry, split at the address mask: the frame number (bits 12 to 51) and all other bits. */
  datatype Pte = Pte(frame: nat, flags: bv64)

  const PRESENT: bv64 := 1
  const WRITABLE: bv64 := 2
  const USER: bv64 := 4
  const HUGE: bv64 := 0x80
  const ADDR_MASK: bv64 := 0x000FFFFFFFFFF000
  /** Present, writable, user: what walk_to_pt writes above the leaves. */
  const TABLE_FLAGS: bv64 := 7
  const EMPTY := Pte(0, 0)

  predicate Present(e: Pte) {
    e.flags & PRESENT != 0
  }

  /** The machine word of an entry splits back into the address and the flags it was built from,
      so keeping the two apart loses nothing (Intel SDM Vol. 3A, section 4.5). */
  lemma WordSplits(addr: bv64, flags: bv64)
    requires flags & ADDR_MASK == 0
    ensures ((addr & ADDR_MASK) | flags | PRESENT) & ADDR_MASK == addr & ADDR_MASK
    ensures ((addr & ADDR_MASK) | flags | PRESENT) & !ADDR_MASK == flags | PRESENT
  {
    assert !ADDR_MASK & ADDR_MASK == 0;
  }

  type Memory = map<nat, seq<Pte>>

  // ---- virtual pages ----

  /** Pages of the lower canonical half. */
  const USER_PAGES: nat := 0x8_0000_0000

  function Index4(v: nat): nat { v / 0x800_0000 }
  function Index3(v: nat): nat { v / 0x4_0000 % 512 }
  function Index2(v: nat): nat { v / 512 % 512 }
  function Index1(v: nat): nat { v % 512 }

  lemma IndicesDetermine(v: nat, w: nat)
    requires Index4(v) == Index4(w) && Index3(v) == Index3(w) && Index2(v) == Index2(w) && Index1(v) == Index1(w)
    ensures v == w
  {
    assert v / 512 / 512 == v / 0x4_0000 && w / 512 / 512 == w / 0x4_0000;
    assert v / 0x4_0000 / 512 == v / 0x800_0000 && w / 0x4_0000 / 512 == w / 0x800_0000;
  }

  lemma IndicesBounded(v: nat)
    requires v < USER_PAGES
    ensures Index4(v) < 256 && Index3(v) < 512 && Index2(v) < 512 && Index1(v) < 512
  {}

  // ---- the walk and the flat map ----

  /** One level of a user walk: entry i of table t, when it is present and user-accessible. */
  function Step(mem: Memory, t: nat, i: nat): Option<nat> {
    if t in mem && i < |mem[t]| && Present(mem[t][i]) && mem[t][i].flags & USER != 0
    then Some(mem[t][i].frame) else None
  }

  function Walk(mem: Memory, root: nat, v: nat): Option<nat> {
    match Step(mem, root, Index4(v))
    case None => None
    case Some(pdpt) =>
      match Step(mem, pdpt, Index3(v))
      case None => None
      case Some(pd) => Step(mem, pd, Index2(v))
  }

  function Leaf(mem: Memory, t: nat, i: nat): Option<Pte> {
    if t in mem && i < |mem[t]| && Present(mem[t][i]) then Some(mem[t][i]) else None
  }

  /** The flat map: what page v of the address space root translates to. */
  function Translate(mem: Memory, root: nat, v: nat): Option<Pte> {
    match Walk(mem, root, v)
    case None => None
    case Some(pt) => Leaf(mem, pt, Index1(v))
  }

  // ---- the tree ----

  /** Where a table sits: its address space, the entry indices that lead to it, and the table
      that holds its one parent entry (itself for a root). */
  datatype Node = Node(root: nat, path: seq<nat>, parent: nat)

  type Tree = map<nat, Node>

  /** How many entries of a table belong to the user half. */
  function Slots(n: Node): nat {
    if n.path == [] then 256 else 512
  }

  ghost predicate NodeOk(mem: Memory, tree: Tree, f: nat)
    requires f in tree
  {
    var n := tree[f];
    f in mem && |mem[f]| == 512 && 0 < f < FRAME_COUNT && |n.path| <= 3 &&
    (if n.path == [] then n.root == f && n.parent == f
     else
       n.parent in tree && n.parent in mem && |mem[n.parent]| == 512 &&
       tree[n.parent].root == n.root &&
       tree[n.parent].path == n.path[..|n.path| - 1] &&
       n.path[|n.path| - 1] < Slots(tree[n.parent]) &&
       mem[n.parent][n.path[|n.path| - 1]] == Pte(f, TABLE_FLAGS))
  }

  ghost predicate SlotOk(mem: Memory, tree: Tree, f: nat, i: nat)
    requires f in tree
  {
    f in mem && i < |mem[f]| &&
    (Present(mem[f][i]) ==>
       var e := mem[f][i];
       e.flags == TABLE_FLAGS && e.frame in tree &&
       tree[e.frame] == Node(tree[f].root, tree[f].path + [i], f))
  }

  /** Every table has exactly one parent entry, and every present user-half entry above the
      leaves is the parent entry of a table. */
  ghost predicate Shaped(mem: Memory, tree: Tree) {
    (forall f {:trigger NodeOk(mem, tree, f)} | f in tree :: NodeOk(mem, tree, f)) &&
    (forall f, i: nat {:trigger SlotOk(mem, tree, f, i)} | f in tree && |tree[f].path| < 3 && i < Slots(tree[f]) ::
      SlotOk(mem, tree, f, i))
  }

  ghost predicate IsRoot(tree: Tree, root: nat) {
    root in tree && tree[root].path == []
  }

  /** A table is reached by one path of one address space only. */
  lemma TablesUnshared(mem: Memory, tree: Tree, f: nat, g: nat)
    requires Shaped(mem, tree) && f in tree && g in tree
    requires tree[f].root == tree[g].root && tree[f].path == tree[g].path
    ensures f == g
    decreases |tree[f].path|
  {
    assert NodeOk(mem, tree, f) && NodeOk(mem, tree, g);
    if tree[f].path != [] {
      TablesUnshared(mem, tree, tree[f].parent, tree[g].parent);
    }
  }

  lemma StepInTree(mem: Memory, tree: Tree, t: nat, i: nat)
    requires Shaped(mem, tree) && t in tree && |tree[t].path| < 3 && i < Slots(tree[t])
    ensures t in mem && |mem[t]| == 512
    ensures Step(mem, t, i).None? <==> !Present(mem[t][i])
    ensures Step(mem, t, i).Some? ==>
      Step(mem, t, i).value in tree &&
      tree[Step(mem, t, i).value] == Node(tree[t].root, tree[t].path + [i], t)
  {
    assert NodeOk(mem, tree, t) && SlotOk(mem, tree, t, i);
    assert TABLE_FLAGS & USER != 0;
  }

  function PathOf(v: nat): seq<nat> {
    [Index4(v), Index3(v), Index2(v)]
  }

  /** A successful walk ends at the leaf table whose path is the page's upper three indices. */
  lemma WalkInTree(mem: Memory, tree: Tree, root: nat, v: nat)
    requires Shaped(mem, tree) && IsRoot(tree, root) && v < USER_PAGES
    ensures Walk(mem, root, v).Some? ==>
      Walk(mem, root, v).value in tree &&
      tree[Walk(mem, root, v).value].root == root && tree[Walk(mem, root, v).value].path == PathOf(v)
  {
    IndicesBounded(v);
    assert NodeOk(mem, tree, root);
    hide Shaped, Step, Index4, Index3, Index2;
    StepInTree(mem, tree, root, Index4(v));
    var pdpt := Step(mem, root, Index4(v));
    if pdpt.Some? {
      StepInTree(mem, tree, pdpt.value, Index3(v));
      var pd := Step(mem, pdpt.value, Index3(v));
      if pd.Some? {
        StepInTree(mem, tree, pd.value, Index2(v));
      }
    }
  }

  /** An entry through which the processor goes on to the next table for any access of a user: present, writable,
      for users, and no huge page (Intel SDM Vol. 3A, section 4.5). */
  predicate Open(mem: Memory, t: nat, i: nat) {
    t in mem && i < |mem[t]| && mem[t][i].flags & 7 == 7 && mem[t][i].flags & 0x80 == 0
  }

  /** The processor's own walk for page v, nine bits of the address for each level, ends at entry e. */
  predicate Leads(mem: Memory, root: nat, v: nat, e: Pte) {
    Open(mem, root, v / 0x800_0000) &&
    var pdpt := mem[root][v / 0x800_0000].frame;
    Open(mem, pdpt, v / 0x4_0000 % 512) &&
    var pd := mem[pdpt][v / 0x4_0000 % 512].frame;
    Open(mem, pd, v / 0x200 % 512) &&
    var pt := mem[pd][v / 0x200 % 512].frame;
    pt in mem && v % 512 < |mem[pt]| && mem[pt][v % 512] == e
  }

  lemma OpenStep(mem: Memory, tree: Tree, t: nat, i: nat)
    requires Shaped(mem, tree) && t in tree && |tree[t].path| < 3 && i < Slots(tree[t]) && Step(mem, t, i).Some?
    ensures Open(mem, t, i) && mem[t][i].frame == Step(mem, t, i).value
  {
    assert NodeOk(mem, tree, t) && SlotOk(mem, tree, t, i);
    assert TABLE_FLAGS & 7 == 7 && TABLE_FLAGS & 0x80 == 0;
  }

  /** A page translates as the processor walks. */
  lemma TranslateLeads(mem: Memory, tree: Tree, root: nat, v: nat)
    requires Shaped(mem, tree) && IsRoot(tree, root) && v < USER_PAGES && Translate(mem, root, v).Some?
    ensures Leads(mem, root, v, Translate(mem, root, v).value)
  {
    IndicesBounded(v);
    WalkInTree(mem, tree, root, v);
    StepInTree(mem, tree, root, Index4(v));
    OpenStep(mem, tree, root, Index4(v));
    var pdpt := Step(mem, root, Index4(v)).value;
    StepInTree(mem, tree, pdpt, Index3(v));
    OpenStep(mem, tree, pdpt, Index3(v));
    var pd := Step(mem, pdpt, Index3(v)).value;
    OpenStep(mem, tree, pd, Index2(v));
    hide Shaped, Open, Step;
  }

  // ---- what one write does to the flat map ----

  function SetEntry(mem: Memory, t: nat, i: nat, e: Pte): Memory
    requires t in mem && i < |mem[t]|
  {
    mem[t := mem[t][i := e]]
  }

  /** The translation that an entry in a leaf table gives. */
  function AsLeaf(e: Pte): Option<Pte> {
    if Present(e) then Some(e) else None
  }

  lemma SetLeafKeepsShape(mem: Memory, tree: Tree, t: nat, i: nat, e: Pte)
    requires Shaped(mem, tree) && t in tree && t in mem && |mem[t]| == 512 && |tree[t].path| == 3 && i < 512
    ensures Shaped(SetEntry(mem, t, i, e), tree)
  {
    var mem' := SetEntry(mem, t, i, e);
    forall f | f in tree ensures NodeOk(mem', tree, f) {
      assert NodeOk(mem, tree, f);
    }
    forall f, j: nat | f in tree && |tree[f].path| < 3 && j < Slots(tree[f]) ensures SlotOk(mem', tree, f, j) {
      assert NodeOk(mem, tree, f) && SlotOk(mem, tree, f, j);
    }
  }

  lemma SetLeafKeepsWalk(mem: Memory, tree: Tree, t: nat, i: nat, e: Pte, root: nat, v: nat)
    requires Shaped(mem, tree) && t in tree && t in mem && |mem[t]| == 512 && |tree[t].path| == 3 && i < 512
    requires IsRoot(tree, root) && v < USER_PAGES
    ensures Walk(SetEntry(mem, t, i, e), root, v) == Walk(mem, root, v)
  {
    var mem' := SetEntry(mem, t, i, e);
    IndicesBounded(v);
    assert forall f, j | f != t :: Step(mem', f, j) == Step(mem, f, j);
    hide Shaped, Step, Index4, Index3, Index2;
    StepInTree(mem, tree, root, Index4(v));
    var pdpt := Step(mem, root, Index4(v));
    if pdpt.Some? {
      StepInTree(mem, tree, pdpt.value, Index3(v));
    }
  }

  /** Writing the leaf entry that page v0 of address space root0 walks to changes the translation
      of that page and of no other page of any address space. */
  lemma SetLeafChangesOnePage(mem: Memory, tree: Tree, root0: nat, v0: nat, e: Pte, root: nat, v: nat)
    requires Shaped(mem, tree) && IsRoot(tree, root0) && v0 < USER_PAGES && IsRoot(tree, root) && v < USER_PAGES
    requires Walk(mem, root0, v0).Some?
    ensures var t := Walk(mem, root0, v0).value;
      t in tree && |tree[t].path| == 3 && t in mem && |mem[t]| == 512 && Index1(v0) < 512 &&
      Translate(SetEntry(mem, t, Index1(v0), e), root, v) ==
        if root == root0 && v == v0 then AsLeaf(e) else Translate(mem, root, v)
  {
    WalkInTree(mem, tree, root0, v0);
    WalkInTree(mem, tree, root, v);
    var t := Walk(mem, root0, v0).value;
    assert NodeOk(mem, tree, t);
    SetLeafKeepsWalk(mem, tree, t, Index1(v0), e, root, v);
    if Walk(mem, root, v) == Some(t) && Index1(v) == Index1(v0) {
      assert PathOf(v) == PathOf(v0);
      assert PathOf(v)[0] == Index4(v) && PathOf(v)[1] == Index3(v) && PathOf(v)[2] == Index2(v);
      IndicesDetermine(v, v0);
    }
  }

  function ZeroTable(): (t: seq<Pte>)
    ensures |t| == 512 && forall i | 0 <= i < 512 :: t[i] == EMPTY
  {
    seq(512, _ => EMPTY)
  }

  /** A zeroed table f hooked into entry i of table t. */
  function Hook(mem: Memory, t: nat, i: nat, f: nat): Memory
    requires t in mem && i < |mem[t]| && f != t
  {
    SetEntry(mem[f := ZeroTable()], t, i, Pte(f, TABLE_FLAGS))
  }

  function HookTree(tree: Tree, t: nat, i: nat, f: nat): Tree
    requires t in tree
  {
    tree[f := Node(tree[t].root, tree[t].path + [i], t)]
  }

  ghost predicate CanHook(mem: Memory, tree: Tree, t: nat, i: nat, f: nat) {
    Shaped(mem, tree) && t in tree && t in mem && |mem[t]| == 512 && |tree[t].path| < 3 &&
    i < Slots(tree[t]) && !Present(mem[t][i]) && 0 < f < FRAME_COUNT && f !in tree
  }

  lemma HookKeepsNode(mem: Memory, tree: Tree, t: nat, i: nat, f: nat, g: nat)
    requires CanHook(mem, tree, t, i, f) && (g in tree || g == f)
    ensures NodeOk(Hook(mem, t, i, f), HookTree(tree, t, i, f), g)
  {
    assert NodeOk(mem, tree, t);
    if g == f {
      assert (tree[t].path + [i])[..|tree[t].path|] == tree[t].path;
    } else {
      assert NodeOk(mem, tree, g);
      assert Present(Pte(g, TABLE_FLAGS));
      hide Present, IsRoot, Shaped;
    }
  }

  lemma HookKeepsSlot(mem: Memory, tree: Tree, t: nat, i: nat, f: nat, g: nat, j: nat)
    requires CanHook(mem, tree, t, i, f) && (g in tree || g == f)
    requires |HookTree(tree, t, i, f)[g].path| < 3 && j < Slots(HookTree(tree, t, i, f)[g])
    ensures SlotOk(Hook(mem, t, i, f), HookTree(tree, t, i, f), g, j)
  {
    assert NodeOk(mem, tree, t);
    if g in tree {
      assert NodeOk(mem, tree, g) && SlotOk(mem, tree, g, j);
    } else {
      assert !Present(EMPTY);
    }
  }

  lemma HookKeepsShape(mem: Memory, tree: Tree, t: nat, i: nat, f: nat)
    requires CanHook(mem, tree, t, i, f)
    ensures Shaped(Hook(mem, t, i, f), HookTree(tree, t, i, f))
  {
    var mem', tree' := Hook(mem, t, i, f), HookTree(tree, t, i, f);
    forall g | g in tree' ensures NodeOk(mem', tree', g) {
      HookKeepsNode(mem, tree, t, i, f, g);
    }
    forall g, j: nat | g in tree' && |tree'[g].path| < 3 && j < Slots(tree'[g]) ensures SlotOk(mem', tree', g, j) {
      HookKeepsSlot(mem, tree, t, i, f, g, j);
    }
  }

  lemma HookSteps(mem: Memory, tree: Tree, t: nat, i: nat, f: nat)
    requires CanHook(mem, tree, t, i, f)
    ensures var mem' := Hook(mem, t, i, f);
      (forall j :: Step(mem', f, j).None? && Leaf(mem', f, j).None?) &&
      Step(mem, t, i).None? && Step(mem', t, i) == Some(f) &&
      (forall g, j | g != f && (g != t || j != i) :: Step(mem', g, j) == Step(mem, g, j)) &&
      (forall g, j | g != f && g != t :: Leaf(mem', g, j) == Leaf(mem, g, j))
  {
    assert !Present(EMPTY) && TABLE_FLAGS & PRESENT != 0 && TABLE_FLAGS & USER != 0;
  }

  /** Hooking in a zeroed table translates nothing new and nothing differently. */
  lemma HookKeepsTranslations(mem: Memory, tree: Tree, t: nat, i: nat, f: nat, root: nat, v: nat)
    requires CanHook(mem, tree, t, i, f) && IsRoot(tree, root) && v < USER_PAGES
    ensures Translate(Hook(mem, t, i, f), root, v) == Translate(mem, root, v)
  {
    var mem' := Hook(mem, t, i, f);
    IndicesBounded(v);
    WalkInTree(mem, tree, root, v);
    HookSteps(mem, tree, t, i, f);
    assert NodeOk(mem, tree, root);
    hide Shaped, Step, Leaf, Index4, Index3, Index2, Index1, Hook, SetEntry, NodeOk, SlotOk, Present;
    StepInTree(mem, tree, root, Index4(v));
    var pdpt := Step(mem, root, Index4(v));
    if pdpt.Some? {
      StepInTree(mem, tree, pdpt.value, Index3(v));
      var pd := Step(mem, pdpt.value, Index3(v));
      if pd.Some? {
        StepInTree(mem, tree, pd.value, Index2(v));
      }
    }
  }

  // ---- taking an address space apart ----

  /** The tables of one address space. */
  ghost function Tables(tree: Tree, root: nat): set<nat> {
    set f | f in tree && tree[f].root == root
  }

  /** Whether the teardown has passed a table when its three loops stand at entries a, b and c. */
  predicate Passed(path: seq<nat>, a: nat, b: nat, c: nat) {
    match |path|
    case 1 => path[0] < a
    case 2 => path[0] < a || (path[0] == a && path[1] < b)
    case 3 => path[0] < a || (path[0] == a && (path[1] < b || (path[1] == b && path[2] < c)))
    case _ => false
  }

  ghost function PassedTables(tree: Tree, root: nat, a: nat, b: nat, c: nat): set<nat> {
    set f | f in tree && tree[f].root == root && Passed(tree[f].path, a, b, c)
  }

  /** Below entry i of table t there is exactly the table the entry points at, if any. */
  lemma ChildOfSlot(mem: Memory, tree: Tree, t: nat, i: nat, g: nat)
    requires Shaped(mem, tree) && t in tree && |tree[t].path| < 3 && i < Slots(tree[t])
    requires g in tree && tree[g].root == tree[t].root && tree[g].path == tree[t].path + [i]
    ensures t in mem && |mem[t]| == 512 && Present(mem[t][i]) && g == mem[t][i].frame
  {
    assert NodeOk(mem, tree, g) && NodeOk(mem, tree, t);
    assert (tree[t].path + [i])[..|tree[t].path|] == tree[t].path;
    TablesUnshared(mem, tree, t, tree[g].parent);
    assert Present(Pte(g, TABLE_FLAGS));
  }

  lemma PathBounds(mem: Memory, tree: Tree, g: nat, k: nat)
    requires Shaped(mem, tree) && g in tree && k < |tree[g].path|
    ensures tree[g].path[k] < if k == 0 then 256 else 512
    decreases |tree[g].path|
  {
    assert NodeOk(mem, tree, g);
    if k < |tree[g].path| - 1 {
      PathBounds(mem, tree, tree[g].parent, k);
    }
  }

  /** The innermost loop: one more entry of the page directory pd. */
  lemma PassPt(mem: Memory, tree: Tree, pd: nat, a: nat, b: nat, c: nat)
    requires Shaped(mem, tree) && pd in tree && tree[pd].path == [a, b] && c < 512
    ensures pd in mem && |mem[pd]| == 512
    ensures PassedTables(tree, tree[pd].root, a, b, c + 1) ==
      PassedTables(tree, tree[pd].root, a, b, c) + if Present(mem[pd][c]) then {mem[pd][c].frame} else {}
    ensures Present(mem[pd][c]) ==>
      mem[pd][c].frame in tree && mem[pd][c].frame !in PassedTables(tree, tree[pd].root, a, b, c) &&
      mem[pd][c].flags & HUGE == 0
  {
    assert NodeOk(mem, tree, pd) && SlotOk(mem, tree, pd, c);
    assert TABLE_FLAGS & HUGE == 0;
    forall g | g in tree && tree[g].root == tree[pd].root && Passed(tree[g].path, a, b, c + 1) &&
      !Passed(tree[g].path, a, b, c)
      ensures Present(mem[pd][c]) && g == mem[pd][c].frame
    {
      assert tree[g].path == tree[pd].path + [c];
      ChildOfSlot(mem, tree, pd, c, g);
    }
  }

  /** The page directory itself, after its entries. */
  lemma PassPd(mem: Memory, tree: Tree, pd: nat, a: nat, b: nat)
    requires Shaped(mem, tree) && pd in tree && tree[pd].path == [a, b]
    ensures PassedTables(tree, tree[pd].root, a, b + 1, 0) == PassedTables(tree, tree[pd].root, a, b, 512) + {pd}
    ensures pd !in PassedTables(tree, tree[pd].root, a, b, 512)
  {
    forall g | g in tree && tree[g].root == tree[pd].root && Passed(tree[g].path, a, b + 1, 0) &&
      !Passed(tree[g].path, a, b, 512)
      ensures g == pd
    {
      if |tree[g].path| == 3 {
        PathBounds(mem, tree, g, 2);
      }
      assert tree[g].path == [a, b];
      TablesUnshared(mem, tree, g, pd);
    }
    forall g | g in tree && tree[g].root == tree[pd].root && Passed(tree[g].path, a, b, 512)
      ensures Passed(tree[g].path, a, b + 1, 0)
    {}
  }

  /** An absent page directory leaves nothing behind. */
  lemma SkipPd(mem: Memory, tree: Tree, pdpt: nat, a: nat, b: nat)
    requires Shaped(mem, tree) && pdpt in tree && tree[pdpt].path == [a] && b < 512
    ensures pdpt in mem && |mem[pdpt]| == 512
    ensures !Present(mem[pdpt][b]) ==>
      PassedTables(tree, tree[pdpt].root, a, b + 1, 0) == PassedTables(tree, tree[pdpt].root, a, b, 0)
  {
    assert NodeOk(mem, tree, pdpt);
    forall g | g in tree && tree[g].root == tree[pdpt].root && Passed(tree[g].path, a, b + 1, 0) &&
      !Passed(tree[g].path, a, b, 0)
      ensures Present(mem[pdpt][b])
    {
      var n := tree[g];
      if |n.path| == 3 {
        assert NodeOk(mem, tree, g);
        assert tree[n.parent].path == tree[pdpt].path + [b];
        ChildOfSlot(mem, tree, pdpt, b, n.parent);
      } else {
        assert n.path == tree[pdpt].path + [b];
        ChildOfSlot(mem, tree, pdpt, b, g);
      }
    }
  }

  lemma PassPdpt(mem: Memory, tree: Tree, pdpt: nat, a: nat)
    requires Shaped(mem, tree) && pdpt in tree && tree[pdpt].path == [a]
    ensures PassedTables(tree, tree[pdpt].root, a + 1, 0, 0) == PassedTables(tree, tree[pdpt].root, a, 512, 0) + {pdpt}
    ensures pdpt !in PassedTables(tree, tree[pdpt].root, a, 512, 0)
  {
    forall g | g in tree && tree[g].root == tree[pdpt].root && Passed(tree[g].path, a + 1, 0, 0) &&
      !Passed(tree[g].path, a, 512, 0)
      ensures g == pdpt
    {
      if |tree[g].path| > 1 {
        PathBounds(mem, tree, g, 1);
      }
      assert tree[g].path == [a];
      TablesUnshared(mem, tree, g, pdpt);
    }
  }

  lemma SkipPdpt(mem: Memory, tree: Tree, root: nat, a: nat)
    requires Shaped(mem, tree) && IsRoot(tree, root) && a < 256
    ensures root in mem && |mem[root]| == 512
    ensures !Present(mem[root][a]) ==> PassedTables(tree, root, a + 1, 0, 0) == PassedTables(tree, root, a, 0, 0)
  {
    assert NodeOk(mem, tree, root);
    forall g | g in tree && tree[g].root == root && Passed(tree[g].path, a + 1, 0, 0) && !Passed(tree[g].path, a, 0, 0)
      ensures Present(mem[root][a])
    {
      TopTable(mem, tree, root, a, g);
    }
  }

  /** Whatever table has a path through entry a of the root, that entry is present. */
  lemma TopTable(mem: Memory, tree: Tree, root: nat, a: nat, g: nat)
    requires Shaped(mem, tree) && IsRoot(tree, root) && a < 256
    requires g in tree && tree[g].root == root && tree[g].path != [] && tree[g].path[0] == a
    ensures root in mem && |mem[root]| == 512 && Present(mem[root][a])
    decreases |tree[g].path|
  {
    assert NodeOk(mem, tree, g) && NodeOk(mem, tree, root);
    if |tree[g].path| == 1 {
      assert tree[g].path == tree[root].path + [a];
      ChildOfSlot(mem, tree, root, a, g);
    } else {
      TopTable(mem, tree, root, a, tree[g].parent);
    }
  }

  lemma NothingPassed(tree: Tree, root: nat)
    ensures PassedTables(tree, root, 0, 0, 0) == {}
  {}

  lemma AllPassed(mem: Memory, tree: Tree, root: nat)
    requires Shaped(mem, tree) && IsRoot(tree, root)
    ensures Tables(tree, root) == PassedTables(tree, root, 256, 0, 0) + {root}
    ensures root !in PassedTables(tree, root, 256, 0, 0)
  {
    assert NodeOk(mem, tree, root);
    forall g | g in Tables(tree, root) && g != root ensures g in PassedTables(tree, root, 256, 0, 0) {
      assert NodeOk(mem, tree, g);
      PathBounds(mem, tree, g, 0);
    }
  }

  /** The free set once the teardown of root stands at entries a, b and c. */
  ghost predicate Freed(free: set<nat>, before: set<nat>, tree: Tree, root: nat, a: nat, b: nat, c: nat) {
    tree.Keys !! before && free == before + PassedTables(tree, root, a, b, c)
  }

  lemma FreedAtStart(before: set<nat>, tree: Tree, root: nat)
    requires tree.Keys !! before
    ensures Freed(before, before, tree, root, 0, 0, 0)
  {
    NothingPassed(tree, root);
  }

  lemma FreedPt(mem: Memory, tree: Tree, pd: nat, a: nat, b: nat, c: nat, free: set<nat>, before: set<nat>)
    requires Shaped(mem, tree) && pd in tree && tree[pd].path == [a, b] && c < 512
    requires Freed(free, before, tree, tree[pd].root, a, b, c)
    ensures pd in mem && |mem[pd]| == 512
    ensures !Present(mem[pd][c]) ==> Freed(free, before, tree, tree[pd].root, a, b, c + 1)
    ensures Present(mem[pd][c]) ==>
      var f := mem[pd][c].frame;
      f in tree && f != 0 && mem[pd][c].flags & HUGE == 0 && f !in free &&
      Freed(free + {f}, before, tree, tree[pd].root, a, b, c + 1)
  {
    PassPt(mem, tree, pd, a, b, c);
    if Present(mem[pd][c]) {
      assert NodeOk(mem, tree, mem[pd][c].frame);
    }
  }

  lemma FreedPd(mem: Memory, tree: Tree, pd: nat, a: nat, b: nat, free: set<nat>, before: set<nat>)
    requires Shaped(mem, tree) && pd in tree && tree[pd].path == [a, b]
    requires Freed(free, before, tree, tree[pd].root, a, b, 512)
    ensures pd !in free && Freed(free + {pd}, before, tree, tree[pd].root, a, b + 1, 0)
  {
    PassPd(mem, tree, pd, a, b);
  }

  lemma FreedSkipPd(mem: Memory, tree: Tree, pdpt: nat, a: nat, b: nat, free: set<nat>, before: set<nat>)
    requires Shaped(mem, tree) && pdpt in tree && tree[pdpt].path == [a] && b < 512
    requires Freed(free, before, tree, tree[pdpt].root, a, b, 0)
    ensures pdpt in mem && |mem[pdpt]| == 512
    ensures !Present(mem[pdpt][b]) ==> Freed(free, before, tree, tree[pdpt].root, a, b + 1, 0)
    ensures Present(mem[pdpt][b]) ==>
      var f := mem[pdpt][b].frame;
      f in tree && tree[f].root == tree[pdpt].root && tree[f].path == [a, b]
  {
    SkipPd(mem, tree, pdpt, a, b);
    assert SlotOk(mem, tree, pdpt, b);
  }

  lemma FreedPdpt(mem: Memory, tree: Tree, pdpt: nat, a: nat, free: set<nat>, before: set<nat>)
    requires Shaped(mem, tree) && pdpt in tree && tree[pdpt].path == [a]
    requires Freed(free, before, tree, tree[pdpt].root, a, 512, 0)
    ensures pdpt !in free && Freed(free + {pdpt}, before, tree, tree[pdpt].root, a + 1, 0, 0)
  {
    PassPdpt(mem, tree, pdpt, a);
  }

  lemma FreedSkipPdpt(mem: Memory, tree: Tree, root: nat, a: nat, free: set<nat>, before: set<nat>)
    requires Shaped(mem, tree) && IsRoot(tree, root) && a < 256
    requires Freed(free, before, tree, root, a, 0, 0)
    ensures root in mem && |mem[root]| == 512
    ensures !Present(mem[root][a]) ==> Freed(free, before, tree, root, a + 1, 0, 0)
    ensures Present(mem[root][a]) ==>
      var f := mem[root][a].frame;
      f in tree && tree[f].root == root && tree[f].path == [a]
  {
    SkipPdpt(mem, tree, root, a);
    assert SlotOk(mem, tree, root, a) && NodeOk(mem, tree, root);
  }

  lemma FreedAll(mem: Memory, tree: Tree, root: nat, free: set<nat>, before: set<nat>)
    requires Shaped(mem, tree) && IsRoot(tree, root)
    requires Freed(free, before, tree, root, 256, 0, 0)
    ensures root !in free && free + {root} == before + Tables(tree, root) && Tables(tree, root) !! before
  {
    AllPassed(mem, tree, root);
  }

  /** What is left marked allocated is still every table that remains. */
  lemma RemainingAllocated(tree: Tree, root: nat, before: set<nat>)
    requires tree.Keys !! before
    ensures (tree - Tables(tree, root)).Keys !! before + Tables(tree, root)
  {}

  /** The forest without one address space is still a forest. */
  lemma ForestWithout(mem: Memory, tree: Tree, root: nat)
    requires Shaped(mem, tree)
    ensures Shaped(mem, tree - Tables(tree, root))
  {
    var tree' := tree - Tables(tree, root);
    forall f | f in tree' ensures NodeOk(mem, tree', f) {
      assert NodeOk(mem, tree, f);
    }
    forall f, i: nat | f in tree' && |tree'[f].path| < 3 && i < Slots(tree'[f]) ensures SlotOk(mem, tree', f, i) {
      assert SlotOk(mem, tree, f, i);
    }
  }
}
