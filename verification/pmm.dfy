/** The physical page allocator (mm/pmm.c): a bitmap with one bit per 4 KiB frame, set when
    the frame is free, a hint below which nothing is free, and a running free count. */
module Pmm {

  const PAGE_SIZE: nat := 4096
  /** 64 GiB of trackable memory (mm/pmm.h). */
  const FRAME_COUNT: nat := 16777216
  /** Frames below 1 MiB, never handed out. */
  const LOW_FRAMES: nat := 256

  /** The frames of a run of count frames from start. */
  function Run(start: nat, count: nat): (run: set<nat>)
    ensures forall f: nat :: f in run <==> start <= f < start + count
  {
    set f: nat {:trigger Frame(f)} | start <= f < start + count && Frame(f)
  }

  /** Always true; it only gives quantifiers over frames a trigger. */
  predicate Frame(f: nat) {
    true
  }

  /** The frames the bitmap has a bit for. */
  function Tracked(frames: set<nat>): set<nat> {
    set f | f in frames && f < FRAME_COUNT
  }

  /** What the freeing loop covers when it stops: the tracked part of the run. */
  lemma TrackedRun(start: nat, done: nat, count: nat)
    requires done <= count && (done > 0 ==> start + done <= FRAME_COUNT)
    requires done == count || start + done >= FRAME_COUNT
    ensures Run(start, done) == Tracked(Run(start, count))
  {}

  /** start begins the lowest run of count frames that lies inside free. */
  predicate LowestRun(free: set<nat>, start: nat, count: nat) {
    Run(start, count) <= free && NoRunBelow(free, start, count)
  }

  ghost predicate NoRun(free: set<nat>, count: nat) {
    forall t: nat :: !(Run(t, count) <= free)
  }

  predicate NoRunBelow(free: set<nat>, start: nat, count: nat) {
    forall t: nat | t < start :: !(Run(t, count) <= free)
  }

  lemma RunEmpty(start: nat)
    ensures Run(start, 0) == {}
  {}

  lemma RunStep(start: nat, count: nat)
    ensures Run(start, count + 1) == Run(start, count) + {start + count}
  {}

  lemma RunOfOne(f: nat)
    ensures Run(f, 1) == {f}
  {}

  lemma OneFrame(free: set<nat>)
    ensures NoRun(free, 1) <==> free == {}
  {
    forall f: nat | f in free ensures !NoRun(free, 1) {
      assert Run(f, 1) <= free;
    }
    forall f: nat ensures Run(f, 1) != {} {
      assert f in Run(f, 1);
    }
  }

  lemma {:induction false} RunSize(start: nat, count: nat)
    ensures |Run(start, count)| == count
  {
    if count == 0 {
      RunEmpty(start);
    } else {
      RunSize(start, count - 1);
      RunStep(start, count - 1);
    }
  }

  /** Taking a run out of a set that contains it and putting it back changes nothing. */
  lemma TakeAndReturn(free: set<nat>, start: nat, count: nat)
    requires Run(start, count) <= free
    ensures (free - Run(start, count)) + Run(start, count) == free
    ensures |free - Run(start, count)| == |free| - count
  {
    RunSize(start, count);
  }

  /** A frame that is not free blocks every run it lies in: the step of the skip-ahead loop. */
  lemma SkipAhead(free: set<nat>, start: nat, i: nat, count: nat)
    requires i < count && start + i !in free && NoRunBelow(free, start, count)
    ensures NoRunBelow(free, start + i + 1, count)
  {
    forall t: nat | t < start + i + 1 ensures !(Run(t, count) <= free) {
      if t >= start {
        assert start + i in Run(t, count);
      }
    }
  }

  lemma NothingBelowHint(free: set<nat>, hint: nat, count: nat)
    requires count > 0 && forall f: nat | f < hint :: f !in free
    ensures NoRunBelow(free, hint, count)
  {
    forall t: nat | t < hint ensures !(Run(t, count) <= free) {
      assert t in Run(t, count);
    }
  }

  lemma SearchExhausted(free: set<nat>, start: nat, count: nat)
    requires count > 0 && start + count > FRAME_COUNT && NoRunBelow(free, start, count)
    requires forall f | f in free :: f < FRAME_COUNT
    ensures NoRun(free, count)
  {
    forall t: nat ensures !(Run(t, count) <= free) {
      if t >= start {
        assert t + count - 1 in Run(t, count);
      }
    }
  }

  // ---- bits of one bitmap byte ----

  function Mask(k: nat): bv8
    requires k < 8
  {
    if k == 0 then 1 else if k == 1 then 2 else if k == 2 then 4 else if k == 3 then 8
    else if k == 4 then 16 else if k == 5 then 32 else if k == 6 then 64 else 128
  }

  predicate BitOf(b: bv8, k: nat)
    requires k < 8
  {
    b & Mask(k) != 0
  }

  function PutBit(b: bv8, k: nat, v: bool): bv8
    requires k < 8
  {
    if v then b | Mask(k) else b & !Mask(k)
  }

  lemma MaskSame(b: bv8, m: bv8)
    requires m != 0
    ensures (b | m) & m != 0 && (b & !m) & m == 0
  {}

  lemma MaskOther(b: bv8, m: bv8, n: bv8)
    requires m & n == 0
    ensures (b | m) & n == b & n && (b & !m) & n == b & n
  {}

  lemma MasksDisjoint(k: nat, j: nat)
    requires k < 8 && j < 8 && k != j
    ensures Mask(k) & Mask(j) == 0
  {}

  /** Writing one bit of a byte sets that bit and leaves the other seven alone. */
  lemma PutBitFrame(b: bv8, k: nat, j: nat, v: bool)
    requires k < 8 && j < 8
    ensures BitOf(PutBit(b, k, v), j) == if j == k then v else BitOf(b, j)
  {
    MaskSame(b, Mask(k));
    if j != k {
      MasksDisjoint(k, j);
      MaskOther(b, Mask(k), Mask(j));
    }
  }

  // ---- boot memory map ----

  /** A half-open byte range [start, end). */
  datatype MemoryRegion = MemoryRegion(start: nat, end: nat)

  /** mark_region touches every frame that the byte range meets. */
  predicate Touches(r: MemoryRegion, f: nat) {
    r.start < r.end && r.start / PAGE_SIZE <= f <= (r.end - 1) / PAGE_SIZE
  }

  /** The frame that a byte lies in. */
  function FrameOf(x: nat): nat { x / 4096 }

  /** A frame is touched exactly when one of its bytes lies in the range. */
  lemma TouchesBytes(r: MemoryRegion, f: nat)
    ensures Touches(r, f) <==> exists x: nat :: r.start <= x < r.end && FrameOf(x) == f
  {
    if Touches(r, f) {
      var x := if r.start / 4096 == f then r.start else f * 4096;
      assert r.start <= x < r.end && FrameOf(x) == f;
    }
  }

  predicate AnyTouches(rs: seq<MemoryRegion>, f: nat) {
    exists i :: 0 <= i < |rs| && Touches(rs[i], f)
  }

  class Allocator {
    const bitmap: array<bv8>
    var firstUsable: nat
    var freeFrames: int
    /** The free frames: what the bitmap says. */
    ghost var free: set<nat>

    predicate Bit(f: nat)
      requires bitmap.Length == FRAME_COUNT / 8
      requires f < FRAME_COUNT
      reads bitmap
    {
      BitOf(bitmap[f / 8], f % 8)
    }

    ghost predicate Reflects()
      reads `free, bitmap
    {
      bitmap.Length == FRAME_COUNT / 8 &&
      (forall f | f in free :: f < FRAME_COUNT) &&
      (forall f: nat | f < FRAME_COUNT :: Bit(f) <==> f in free)
    }

    /** The counter is the number of set bits, nothing is free below the hint, and frame 0,
        whose address doubles as the failure value, is never free. */
    ghost predicate Valid()
      reads this, bitmap
    {
      Reflects() &&
      firstUsable <= FRAME_COUNT &&
      (forall f: nat | f < firstUsable :: f !in free) &&
      0 !in free &&
      freeFrames == |free|
    }

    /** bitmap_get. */
    method GetBit(f: nat) returns (v: bool)
      requires Reflects() && f < FRAME_COUNT
      ensures v <==> f in free
    {
      v := Bit(f);
    }

    method SetBit(f: nat, v: bool)
      requires Reflects() && f < FRAME_COUNT
      modifies bitmap, this`free
      ensures Reflects()
      ensures free == if v then old(free) + {f} else old(free) - {f}
    {
      bitmap[f / 8] := PutBit(bitmap[f / 8], f % 8, v);
      free := if v then free + {f} else free - {f};
      forall g: nat | g < FRAME_COUNT
        ensures Bit(g) == if g == f then v else old(Bit(g))
      {
        if g / 8 == f / 8 {
          PutBitFrame(old(bitmap[f / 8]), f % 8, g % 8, v);
        }
      }
    }

    method MarkRegion(r: MemoryRegion, v: bool)
      requires Reflects()
      modifies bitmap, this`free
      ensures Reflects()
      ensures forall g: nat | g < FRAME_COUNT ::
        g in free <==> if Touches(r, g) then v else g in old(free)
    {
      if r.end <= r.start {
        return;
      }
      var first, last := r.start / PAGE_SIZE, (r.end - 1) / PAGE_SIZE;
      if first >= FRAME_COUNT {
        return;
      }
      if last >= FRAME_COUNT {
        last := FRAME_COUNT - 1;
      }
      for i := first to last + 1
        invariant Reflects()
        invariant forall g: nat | g < FRAME_COUNT ::
          g in free <==> if first <= g < i then v else g in old(free)
      {
        SetBit(i, v);
      }
    }

    /** Boot: nothing free, then the usable regions, then low memory and the reserved ranges
        (kernel image, modules) taken out again, then the hint and the counter. */
    constructor (usable: seq<MemoryRegion>, reserved: seq<MemoryRegion>)
      ensures Valid() && fresh(bitmap)
      ensures forall f: nat :: f in free <==>
        LOW_FRAMES <= f < FRAME_COUNT && AnyTouches(usable, f) && !AnyTouches(reserved, f)
    {
      bitmap := new bv8[FRAME_COUNT / 8](_ => 0);
      firstUsable, freeFrames, free := FRAME_COUNT, 0, {};
      new;
      for i := 0 to |usable|
        invariant Reflects()
        invariant forall g: nat | g < FRAME_COUNT :: g in free <==> AnyTouches(usable[..i], g)
      {
        MarkRegion(usable[i], true);
        forall g: nat ensures AnyTouches(usable[..i + 1], g) <==> AnyTouches(usable[..i], g) || Touches(usable[i], g) {
          ExtendTouches(usable, i, g);
        }
      }
      assert usable[..|usable|] == usable;
      MarkRegion(MemoryRegion(0, 0x100000), false);
      ghost var open := free;
      for i := 0 to |reserved|
        invariant Reflects()
        invariant forall g: nat | g < FRAME_COUNT :: g in free <==> g in open && !AnyTouches(reserved[..i], g)
      {
        MarkRegion(reserved[i], false);
        forall g: nat
          ensures AnyTouches(reserved[..i + 1], g) <==> AnyTouches(reserved[..i], g) || Touches(reserved[i], g) {
          ExtendTouches(reserved, i, g);
        }
      }
      assert reserved[..|reserved|] == reserved;
      RefreshFirstUsable();
      RecomputeFreeFrames();
    }

    method RefreshFirstUsable()
      requires Reflects()
      requires forall f: nat | f < LOW_FRAMES :: f !in free
      modifies this`firstUsable
      ensures firstUsable <= FRAME_COUNT
      ensures forall f: nat | f < firstUsable :: f !in free
      ensures firstUsable < FRAME_COUNT ==> firstUsable in free
    {
      firstUsable := FRAME_COUNT;
      for i := LOW_FRAMES to FRAME_COUNT
        invariant firstUsable == FRAME_COUNT
        invariant forall f: nat | f < i :: f !in free
      {
        var bit := GetBit(i);
        if bit {
          firstUsable := i;
          return;
        }
      }
    }

    method RecomputeFreeFrames()
      requires Reflects()
      modifies this`freeFrames
      ensures freeFrames == |free|
    {
      var n := 0;
      ghost var seen: set<nat> := {};
      for i := 0 to FRAME_COUNT
        invariant seen == (set f: nat | f < i && f in free)
        invariant n == |seen|
      {
        var bit := GetBit(i);
        if bit {
          n := n + 1;
          seen := seen + {i};
        }
      }
      assert seen == free;
      freeFrames := n;
    }

    /** The inner loop of the search: stops at the first frame of the run that is not free. */
    method ScanRun(start: nat, count: nat) returns (found: bool, i: nat)
      requires Reflects()
      requires start + count <= FRAME_COUNT
      ensures found ==> i == count && Run(start, count) <= free
      ensures !found ==> i < count && start + i !in free
    {
      hide Run, Reflects, Bit;
      for k := 0 to count
        invariant Run(start, k) <= free
      {
        var bit := GetBit(start + k);
        if !bit {
          return false, k;
        }
      }
      return true, count;
    }

    /** The inner loop that clears the bits of the run found. */
    method TakeRun(start: nat, count: nat)
      requires Reflects()
      requires start + count <= FRAME_COUNT
      requires Run(start, count) <= free && freeFrames == |free|
      modifies bitmap, this`free, this`freeFrames
      ensures Reflects()
      ensures free == old(free) - Run(start, count)
      ensures freeFrames == |free|
    {
      hide Run, Reflects, Bit;
      ghost var was := free;
      TakeAndReturn(was, start, count);
      for j := 0 to count
        invariant Reflects() && free == was - Run(start, j)
        invariant freeFrames == old(freeFrames)
      {
        SetBit(start + j, false);
        RunStep(start, j);
        assert was - (Run(start, j) + {start + j}) == was - Run(start, j) - {start + j};
      }
      freeFrames := if freeFrames >= count then freeFrames - count else 0;
    }

    /** Returns the address of the lowest free run of count frames and takes exactly that run,
        or returns 0 exactly when no such run exists anywhere (or nothing was asked for). */
    method AllocPages(count: nat) returns (phys: nat)
      requires Valid() && count + FRAME_COUNT < 0x1_0000_0000_0000_0000
      modifies this, bitmap
      ensures Valid()
      ensures phys == 0 <==> count == 0 || NoRun(old(free), count)
      ensures phys == 0 ==> free == old(free)
      ensures phys != 0 ==>
        phys % PAGE_SIZE == 0 && phys / PAGE_SIZE + count <= FRAME_COUNT &&
        LowestRun(old(free), phys / PAGE_SIZE, count) &&
        free == old(free) - Run(phys / PAGE_SIZE, count)
    {
      if count == 0 {
        return 0;
      }
      hide Run, Reflects, Bit, LowestRun, NoRunBelow, NoRun;
      ghost var was := free;
      NothingBelowHint(was, firstUsable, count);
      var start := firstUsable;
      while start + count <= FRAME_COUNT
        invariant free == was && Valid() && unchanged(this)
        invariant NoRunBelow(was, start, count)
        decreases FRAME_COUNT - start
      {
        var found, i := ScanRun(start, count);
        if found {
          TakeRun(start, count);
          assert start in Run(start, count);
          return start * PAGE_SIZE;
        }
        SkipAhead(was, start, i, count);
        start := start + i + 1;
      }
      SearchExhausted(was, start, count);
      return 0;
    }

    /** The loop of pmm_free_pages. */
    method PutRun(start: nat, count: nat)
      requires Reflects() && freeFrames == |free|
      modifies bitmap, this`free, this`freeFrames
      ensures Reflects() && freeFrames == |free|
      ensures free == old(free) + Tracked(Run(start, count))
    {
      hide *;
      var i := 0;
      assert Run(start, 0) == {} by { RunEmpty(start); }
      while i < count && start + i < FRAME_COUNT
        invariant 0 <= i <= count
        invariant i > 0 ==> start + i <= FRAME_COUNT
        invariant Reflects() && freeFrames == |free|
        invariant free == old(free) + Run(start, i)
      {
        var bit := GetBit(start + i);
        if !bit {
          SetBit(start + i, true);
          freeFrames := freeFrames + 1;
        }
        RunStep(start, i);
        i := i + 1;
      }
      TrackedRun(start, i, count);
    }

    /** Frees every tracked frame of the run that is not free yet; address 0, unaligned addresses
        and empty runs are ignored. */
    method FreePages(phys: nat, count: nat)
      requires Valid()
      modifies this, bitmap
      ensures Valid()
      ensures free ==
        if phys == 0 || count == 0 || phys % PAGE_SIZE != 0 then old(free)
        else old(free) + Tracked(Run(phys / PAGE_SIZE, count))
    {
      if phys == 0 || count == 0 || phys % PAGE_SIZE != 0 {
        return;
      }
      var start := phys / PAGE_SIZE;
      PutRun(start, count);
      if start < firstUsable {
        firstUsable := start;
      }
    }

    /** pmm_alloc: one frame, as long as there is one. */
    method Alloc() returns (phys: nat)
      requires Valid()
      modifies this, bitmap
      ensures Valid()
      ensures phys == 0 <==> old(free) == {}
      ensures phys == 0 ==> free == {}
      ensures phys != 0 ==>
        phys % PAGE_SIZE == 0 && 0 < phys / PAGE_SIZE < FRAME_COUNT &&
        phys / PAGE_SIZE in old(free) && free == old(free) - {phys / PAGE_SIZE}
    {
      phys := AllocPages(1);
      OneFrame(old(free));
      RunOfOne(phys / PAGE_SIZE);
    }

    /** pmm_free. */
    method FreeFrame(phys: nat)
      requires Valid()
      modifies this, bitmap
      ensures Valid()
      ensures free ==
        if phys % PAGE_SIZE == 0 && 0 < phys / PAGE_SIZE < FRAME_COUNT then old(free) + {phys / PAGE_SIZE}
          else old(free)
    {
      FreePages(phys, 1);
      RunOfOne(phys / PAGE_SIZE);
    }

    /** An allocation that is freed again restores the free set and the counter. */
    method AllocThenFree(count: nat)
      requires Valid() && count + FRAME_COUNT < 0x1_0000_0000_0000_0000
      modifies this, bitmap
      ensures Valid() && free == old(free) && freeFrames == old(freeFrames)
    {
      var phys := AllocPages(count);
      FreePages(phys, count);
      if phys != 0 {
        TakeAndReturn(old(free), phys / PAGE_SIZE, count);
      }
    }
  }

  lemma ExtendTouches(rs: seq<MemoryRegion>, i: nat, g: nat)
    requires i < |rs|
    ensures AnyTouches(rs[..i + 1], g) <==> AnyTouches(rs[..i], g) || Touches(rs[i], g)
  {
    if j :| 0 <= j < i && Touches(rs[..i][j], g) {
      assert Touches(rs[..i + 1][j], g);
    }
    if Touches(rs[i], g) {
      assert Touches(rs[..i + 1][i], g);
    }
    assert rs[..i + 1] == rs[..i] + [rs[i]];
  }
}
