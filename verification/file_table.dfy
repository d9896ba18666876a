/** The open-file table of the VFS (fs/vfs.c:408-572, 1118-1125, 1312-1401, 1711-1774): open files counted by
    the descriptor slots that point at them, and pipes kept by the open files at their ends. */
module FileTable {
  /** The kernel's own table and one for each process. */
  const TABLES: nat := 257
  const SLOTS: nat := 32
  const FILES: nat := 128
  const PIPES: nat := 16

  /** An empty slot, and a slot that vfs_pipe has set aside. */
  const NONE: int := -1
  const RESERVED: int := -2

  datatype File = File(used: bool, refs: nat, pipe: int, canRead: bool, canWrite: bool)
  datatype Pipe = Pipe(used: bool, readers: nat, writers: nat)

  function At(table: nat, fd: nat): nat {
    SLOTS * table + fd
  }

  predicate ValidFd(fd: int) {
    0 <= fd < SLOTS
  }

  /** Descriptors are the numbers 0 to 31, and each of each table has a slot of its own. */
  lemma OwnSlots(t: nat, fd: nat, u: nat, e: nat)
    requires t < 257 && u < 257 && fd < 32 && e < 32
    ensures ValidFd(fd) && !ValidFd(-1) && !ValidFd(fd + 32)
    ensures At(t, fd) < 257 * 32 && (At(t, fd) == At(u, e) <==> t == u && fd == e)
  {}

  /** The open files at the reading (or the writing) end of a pipe. */
  function Ends(files: seq<File>, p: int, reading: bool): set<nat> {
    set f: nat | f < |files| && files[f].used && files[f].pipe == p && if reading then files[f].canRead
      else files[f].canWrite
  }

  /** References are descriptor slots and those that an operation under way holds. */
  ghost predicate FileOk(slots: seq<int>, held: multiset<int>, files: seq<File>, f: nat)
    requires f < |files|
  {
    files[f].refs == multiset(slots)[f] + held[f] && (files[f].used <==> files[f].refs > 0) &&
    (files[f].used && files[f].pipe != NONE ==> 0 <= files[f].pipe < PIPES)
  }

  ghost predicate PipeOk(files: seq<File>, pipes: seq<Pipe>, p: nat)
    requires p < |pipes|
  {
    pipes[p].readers == |Ends(files, p, true)| && pipes[p].writers == |Ends(files, p, false)| &&
    (pipes[p].used <==> pipes[p].readers > 0 || pipes[p].writers > 0)
  }

  predicate SlotOk(v: int) {
    v == NONE || v == RESERVED || 0 <= v < FILES
  }

  ghost predicate Counted(slots: seq<int>, held: multiset<int>, files: seq<File>, pipes: seq<Pipe>) {
    |slots| == TABLES * SLOTS && |files| == FILES && |pipes| == PIPES &&
    (forall i {:trigger slots[i]} | 0 <= i < |slots| :: SlotOk(slots[i])) &&
    (forall f: nat {:trigger FileOk(slots, held, files, f)} | f < FILES :: FileOk(slots, held, files, f)) &&
    (forall p: nat {:trigger PipeOk(files, pipes, p)} | p < PIPES :: PipeOk(files, pipes, p))
  }

  // ---- single steps ----

  /** A reference held moves into a slot. */
  lemma StoreKeeps(slots: seq<int>, held: multiset<int>, files: seq<File>, pipes: seq<Pipe>, i: nat, f: int)
    requires Counted(slots, held, files, pipes) && i < |slots| && slots[i] < 0 && 0 <= f < FILES && held[f] > 0
    ensures Counted(slots[i := f], held - multiset{f}, files, pipes)
  {
    var now := slots[i := f];
    forall e: nat | e < FILES ensures FileOk(now, held - multiset{f}, files, e) {
      assert FileOk(slots, held, files, e);
    }
  }

  /** A slot gives up its reference, which the operation then holds. */
  lemma TakeKeeps(slots: seq<int>, held: multiset<int>, files: seq<File>, pipes: seq<Pipe>, i: nat)
    requires Counted(slots, held, files, pipes) && i < |slots| && slots[i] >= 0
    ensures Counted(slots[i := NONE], held + multiset{slots[i]}, files, pipes)
  {
    var now := slots[i := NONE];
    forall e: nat | e < FILES ensures FileOk(now, held + multiset{slots[i]}, files, e) {
      assert FileOk(slots, held, files, e);
    }
  }

  lemma MarkKeeps(slots: seq<int>, held: multiset<int>, files: seq<File>, pipes: seq<Pipe>, i: nat, v: int)
    requires Counted(slots, held, files, pipes) && i < |slots| && slots[i] < 0 && (v == NONE || v == RESERVED)
    ensures Counted(slots[i := v], held, files, pipes)
  {
    var now := slots[i := v];
    forall e: nat | e < FILES ensures FileOk(now, held, files, e) {
      assert FileOk(slots, held, files, e);
    }
  }

  lemma SharedKeeps(slots: seq<int>, held: multiset<int>, files: seq<File>, pipes: seq<Pipe>, f: nat, files': seq<File>)
    requires Counted(slots, held, files, pipes) && f < FILES && files[f].used
    requires files' == files[f := files[f].(refs := files[f].refs + 1)]
    ensures Counted(slots, held + multiset{f}, files', pipes)
  {
    forall e: nat | e < FILES ensures FileOk(slots, held + multiset{f}, files', e) {
      assert FileOk(slots, held, files, e);
    }
    forall p: nat | p < PIPES ensures PipeOk(files', pipes, p) {
      assert PipeOk(files, pipes, p);
      assert Ends(files', p, true) == Ends(files, p, true) && Ends(files', p, false) == Ends(files, p, false);
    }
  }

  lemma AllocKeeps(slots: seq<int>, held: multiset<int>, files: seq<File>, pipes: seq<Pipe>, f: nat, files': seq<File>)
    requires Counted(slots, held, files, pipes) && f < FILES && !files[f].used
    requires files' == files[f := File(true, 1, NONE, false, false)]
    ensures Counted(slots, held + multiset{f}, files', pipes) && held[f] == 0 && multiset(slots)[f] == 0
  {
    forall e: nat | e < FILES ensures FileOk(slots, held + multiset{f}, files', e) {
      assert FileOk(slots, held, files, e);
    }
    forall p: nat | p < PIPES ensures PipeOk(files', pipes, p) {
      assert PipeOk(files, pipes, p);
      assert Ends(files', p, true) == Ends(files, p, true) && Ends(files', p, false) == Ends(files, p, false);
    }
    assert FileOk(slots, held, files, f);
  }

  /** One reference less, but not the last. */
  lemma DropKeeps(slots: seq<int>, held: multiset<int>, files: seq<File>, pipes: seq<Pipe>, f: nat, files': seq<File>)
    requires Counted(slots, held, files, pipes) && f < FILES && held[f] > 0 && files[f].refs > 1
    requires files' == files[f := files[f].(refs := files[f].refs - 1)]
    ensures Counted(slots, held - multiset{f}, files', pipes)
  {
    forall e: nat | e < FILES ensures FileOk(slots, held - multiset{f}, files', e) {
      assert FileOk(slots, held, files, e);
    }
    forall p: nat | p < PIPES ensures PipeOk(files', pipes, p) {
      assert PipeOk(files, pipes, p);
      assert Ends(files', p, true) == Ends(files, p, true) && Ends(files', p, false) == Ends(files, p, false);
    }
  }

  /** A pipe after an end with these abilities has gone. */
  function WithoutEnd(pipe: Pipe, canRead: bool, canWrite: bool): Pipe {
    var readers := if canRead && pipe.readers > 0 then pipe.readers - 1 else pipe.readers;
    var writers := if canWrite && pipe.writers > 0 then pipe.writers - 1 else pipe.writers;
    Pipe(pipe.used && !(readers == 0 && writers == 0), readers, writers)
  }

  /** The last reference goes, and the pipe end with it. */
  lemma LastDropKeeps(slots: seq<int>, held: multiset<int>, files: seq<File>, pipes: seq<Pipe>, f: nat,
      files': seq<File>, pipes': seq<Pipe>)
    requires Counted(slots, held, files, pipes) && f < FILES && held[f] > 0 && files[f].refs <= 1
    requires files' == files[f := files[f].(used := false, refs := 0)]
    requires
      var p := files[f].pipe;
      if 0 <= p < PIPES then pipes' == pipes[p := WithoutEnd(pipes[p], files[f].canRead, files[f].canWrite)]
        else pipes' == pipes
    ensures Counted(slots, held - multiset{f}, files', pipes')
  {
    assert FileOk(slots, held, files, f);
    forall e: nat | e < FILES ensures FileOk(slots, held - multiset{f}, files', e) {
      assert FileOk(slots, held, files, e);
    }
    forall p: nat | p < PIPES ensures PipeOk(files', pipes', p) {
      assert PipeOk(files, pipes, p);
      EndGone(files, files', f, p, true);
      EndGone(files, files', f, p, false);
    }
  }

  lemma EndGone(files: seq<File>, files': seq<File>, f: nat, p: int, reading: bool)
    requires f < |files| && files[f].used && files' == files[f := files[f].(used := false, refs := 0)]
    ensures
      var was := files[f].pipe == p && if reading then files[f].canRead else files[f].canWrite;
      |Ends(files', p, reading)| == |Ends(files, p, reading)| - (if was then 1 else 0)
  {
    var was := files[f].pipe == p && if reading then files[f].canRead else files[f].canWrite;
    if was {
      assert Ends(files, p, reading) == Ends(files', p, reading) + {f};
    } else {
      assert Ends(files, p, reading) == Ends(files', p, reading);
    }
  }

  /** Two fresh files become the ends of a fresh pipe. */
  lemma PipeKeeps(slots: seq<int>, held: multiset<int>, files: seq<File>, pipes: seq<Pipe>, r: nat, w: nat, p: nat,
      files': seq<File>, pipes': seq<Pipe>)
    requires Counted(slots, held, files, pipes) && r < FILES && w < FILES && r != w && p < PIPES && !pipes[p].used
    requires files[r] == File(true, 1, NONE, false, false) == files[w]
    requires files' == files[r := File(true, 1, p, true, false)][w := File(true, 1, p, false, true)] &&
      pipes' == pipes[p := Pipe(true, 1, 1)]
    ensures Counted(slots, held, files', pipes')
  {
    forall e: nat | e < FILES ensures FileOk(slots, held, files', e) {
      assert FileOk(slots, held, files, e);
    }
    forall q: nat | q < PIPES ensures PipeOk(files', pipes', q) {
      assert PipeOk(files, pipes, q);
      if q == p {
        assert Ends(files, p, true) == {} && Ends(files, p, false) == {};
        assert Ends(files', p, true) == {r} && Ends(files', p, false) == {w};
      } else {
        assert Ends(files', q, true) == Ends(files, q, true) && Ends(files', q, false) == Ends(files, q, false);
      }
    }
  }

  lemma NoEndsOfNone(files: seq<File>, pipes: seq<Pipe>, p: nat)
    requires p < |pipes| && PipeOk(files, pipes, p)
    ensures !pipes[p].used <==> forall f: nat | f < |files| && files[f].used && files[f].pipe == p ::
      !files[f].canRead && !files[f].canWrite
  {
    forall f: nat | f < |files| && files[f].used && files[f].pipe == p
      ensures files[f].canRead ==> f in Ends(files, p, true) {}
    if pipes[p].used {
      var end :| end in (if pipes[p].readers > 0 then Ends(files, p, true) else Ends(files, p, false));
    } else {
      forall f: nat | f < |files| && files[f].used && files[f].pipe == p
        ensures !files[f].canRead && !files[f].canWrite {
        assert f !in Ends(files, p, true) && f !in Ends(files, p, false);
      }
    }
  }

  /** Every open file but those just opened was open before, at the same end of the same pipe. */
  ghost predicate SameEnds(files: seq<File>, files': seq<File>, added: set<int>) {
    |files'| == |files| &&
    forall f: nat {:trigger files'[f]} | f < |files| && files'[f].used && f !in added ::
      files[f].used && files'[f].pipe == files[f].pipe && files'[f].canRead == files[f].canRead &&
        files'[f].canWrite == files[f].canWrite
  }

  /** The descriptor tables with descriptors 0 to n - 1 of one table closed. */
  function Closed(slots: seq<int>, table: nat, n: nat): (r: seq<int>)
    ensures |r| == |slots|
    ensures forall i | 0 <= i < |r| :: r[i] == if At(table, 0) <= i < At(table, n) then NONE else slots[i]
  {
    seq(|slots|, i requires 0 <= i < |slots| => if At(table, 0) <= i < At(table, n) then NONE else slots[i])
  }

  /** The descriptor tables with descriptors 0 to n - 1 of table dst set to those of table src. */
  function Copied(slots: seq<int>, dst: nat, src: nat, n: nat): (r: seq<int>)
    requires src < TABLES && |slots| == TABLES * SLOTS && n <= SLOTS
    ensures |r| == |slots|
    ensures forall i | 0 <= i < |r| :: r[i] == if At(dst, 0) <= i < At(dst, n) then slots[At(src, i - At(dst, 0))]
      else slots[i]
  {
    seq(|slots|, i requires 0 <= i < |slots| => if At(dst, 0) <= i < At(dst, n) then slots[At(src, i - At(dst, 0))]
      else slots[i])
  }

  /** fd is the lowest free descriptor of the table; -1 stands for none. */
  ghost predicate LowestFree(slots: seq<int>, table: nat, fd: int)
    requires table < TABLES && |slots| == TABLES * SLOTS
  {
    -1 <= fd < SLOTS && (fd >= 0 ==> slots[At(table, fd)] == NONE) &&
    forall d: nat {:trigger At(table, d)} | d < (if fd >= 0 then fd else SLOTS) :: slots[At(table, d)] != NONE
  }

  /** The pipes without the one being built. */
  function Settled(pipes: seq<Pipe>, building: int): (r: seq<Pipe>)
    ensures |r| == |pipes|
  {
    if 0 <= building < |pipes| then pipes[building := Pipe(false, 0, 0)] else pipes
  }

  /** A reference to a file that is not open cannot be counted. */
  lemma NotCounted(slots: seq<int>, files: seq<File>, pipes: seq<Pipe>, f: nat)
    requires f < FILES && f < |files| && !files[f].used && files[f].refs > 0
    ensures !Counted(slots, multiset{}, files, pipes)
  {
    assert !FileOk(slots, multiset{}, files, f);
  }

  lemma ClosedStep(slots: seq<int>, table: nat, n: nat)
    requires |slots| == TABLES * SLOTS && table < TABLES && n < SLOTS
    ensures Closed(slots, table, n + 1) == Closed(slots, table, n)[At(table, n) := NONE]
    ensures Closed(slots, table, 0) == slots
  {
    assert Closed(slots, table, n + 1) == Closed(slots, table, n)[At(table, n) := NONE];
    assert Closed(slots, table, 0) == slots;
  }

  /** Copying table src into the emptied table dst, one descriptor further. */
  lemma CopyStep(slots: seq<int>, dst: nat, src: nat, n: nat)
    requires |slots| == TABLES * SLOTS && dst < TABLES && src < TABLES && n < SLOTS
    ensures
      var empty := Closed(slots, dst, SLOTS);
      var now := Copied(empty, dst, src, n);
      now[At(dst, n)] == NONE && Copied(empty, dst, src, 0) == empty &&
      Copied(empty, dst, src, n + 1) == now[At(dst, n) := if src == dst then NONE else now[At(src, n)]]
  {
    var empty := Closed(slots, dst, SLOTS);
    var now := Copied(empty, dst, src, n);
    assert Copied(empty, dst, src, 0) == empty;
    assert Copied(empty, dst, src, n + 1) == now[At(dst, n) := if src == dst then NONE else now[At(src, n)]];
  }

  lemma CopyDone(slots: seq<int>, dst: nat, src: nat)
    requires |slots| == TABLES * SLOTS && dst < TABLES && src < TABLES
    ensures
      Copied(Closed(slots, dst, SLOTS), dst, src, SLOTS) == if src == dst then Closed(slots, dst, SLOTS)
        else Copied(slots, dst, src, SLOTS)
  {
    var copy := Copied(Closed(slots, dst, SLOTS), dst, src, SLOTS);
    var empty := Closed(slots, dst, SLOTS);
    if src == dst {
      forall i | 0 <= i < |slots| ensures copy[i] == empty[i] {
        assert At(dst, 0) <= i < At(dst, SLOTS) ==> At(src, i - At(dst, 0)) == i;
      }
    } else {
      forall i | 0 <= i < |slots| ensures copy[i] == Copied(slots, dst, src, SLOTS)[i] {
        assert At(dst, 0) <= i < At(dst, SLOTS) ==> empty[At(src, i - At(dst, 0))] == slots[At(src, i - At(dst, 0))];
      }
    }
  }

  ghost predicate TwoFreeSlots(slots: seq<int>, table: nat)
    requires table < TABLES && |slots| == TABLES * SLOTS
  {
    exists c: nat, d: nat {:trigger At(table, c), At(table, d)} ::
      c < d < SLOTS && slots[At(table, c)] == NONE && slots[At(table, d)] == NONE
  }

  ghost predicate TwoUnused(files: seq<File>) {
    exists a: nat, b: nat {:trigger files[a], files[b]} :: a < b < |files| && !files[a].used && !files[b].used
  }

  ghost predicate IdleExists(pipes: seq<Pipe>) {
    exists p: nat {:trigger pipes[p]} :: p < |pipes| && !pipes[p].used
  }

  /** Taking the lowest unused file and then the lowest one left finds two exactly if there are two. */
  lemma TwoFound(files0: seq<File>, files1: seq<File>, a: int, b: int)
    requires |files0| == |files1| == FILES && -1 <= a < FILES && -1 <= b < FILES
    requires if a >= 0 then !files0[a].used && files1 == files0[a := files1[a]] && files1[a].used else files1 == files0
    requires a == -1 ==> forall e: nat | e < FILES :: files0[e].used
    requires if b >= 0 then !files1[b].used else forall e: nat | e < FILES :: files1[e].used
    ensures a >= 0 && b >= 0 <==> TwoUnused(files0)
  {
    if a >= 0 && b >= 0 {
      var x, y := if a < b then a else b, if a < b then b else a;
      assert !files0[x].used && !files0[y].used;
    } else if x: nat, y: nat :| x < y < FILES && !files0[x].used && !files0[y].used {
      assert files1[x].used && files1[y].used;
    }
  }

  lemma IdlePipe(slots: seq<int>, held: multiset<int>, files: seq<File>, pipes: seq<Pipe>, p: nat)
    requires Counted(slots, held, files, pipes) && p < PIPES && !pipes[p].used
    ensures pipes[p] == Pipe(false, 0, 0)
  {
    assert PipeOk(files, pipes, p);
  }

  /** Files fr and fw are the reading and the writing end of a pipe that was not in use. */
  ghost predicate Joined(files: seq<File>, pipes: seq<Pipe>, pipes': seq<Pipe>, fr: int, fw: int) {
    exists p: nat :: p < |pipes| && !pipes[p].used && pipes' == pipes[p := Pipe(true, 1, 1)] &&
      0 <= fr < |files| && 0 <= fw < |files| && files[fr] == File(true, 1, p, true, false) &&
        files[fw] == File(true, 1, p, false, true)
  }

  /** A count raised and a slot set for it fit together exactly when the file is still open. */
  lemma CountsAgain(slots: seq<int>, files: seq<File>, pipes: seq<Pipe>, i: nat, f: nat, slots': seq<int>,
      files': seq<File>)
    requires Counted(slots, multiset{}, files, pipes) && RESERVED !in slots && i < |slots| && slots[i] == NONE &&
      f < FILES
    requires slots' == slots[i := f] && files' == files[f := files[f].(refs := files[f].refs + 1)]
    ensures Counted(slots', multiset{}, files', pipes) && RESERVED !in slots' <==> multiset(slots)[f] > 0
    ensures multiset(slots)[f] > 0 ==> SameEnds(files, files', {})
  {
    assert FileOk(slots, multiset{}, files, f);
    hide Counted;
    if files[f].used {
      SharedKeeps(slots, multiset{}, files, pipes, f, files');
      assert multiset{} + multiset{f} == multiset{f} && multiset{f} - multiset{f} == multiset{};
      StoreKeeps(slots, multiset{f}, files', pipes, i, f);
    } else {
      NotCounted(slots', files', pipes, f);
    }
  }

  /** Whether emptying slot a drops the last reference to what slot b points at. */
  lemma LastOne(slots: seq<int>, a: nat, b: nat)
    requires a < |slots| && b < |slots| && slots[b] >= 0
    ensures
      var f := slots[b];
      multiset(slots[a := NONE])[f] == multiset(slots)[f] - (if slots[a] == f then 1 else 0) &&
      (multiset(slots[a := NONE])[f] == 0 <==> a == b && multiset(slots)[f] == 1)
  {
    var f := slots[b];
    if a != b {
      assert slots[a := NONE][b] == f && f in slots[a := NONE];
    }
  }

  class Vfs {
    const slots: array<int>
    const files: array<File>
    const pipes: array<Pipe>

    /** building names a pipe that vfs_pipe has taken and not connected yet. */
    ghost predicate Ok(held: multiset<int>, building: int := NONE)
      reads slots, files, pipes
    {
      Counted(slots[..], held, files[..], Settled(pipes[..], building))
    }

    /** Between operations. */
    ghost predicate Valid()
      reads slots, files, pipes
    {
      Ok(multiset{}) && RESERVED !in slots[..]
    }

    lemma Lengths(held: multiset<int>, building: int := NONE)
      requires Ok(held, building)
      ensures slots.Length == TABLES * SLOTS && files.Length == FILES && pipes.Length == PIPES
      ensures forall i | 0 <= i < slots.Length :: SlotOk(slots[i])
    {
      assert forall i | 0 <= i < slots.Length :: slots[..][i] == slots[i];
    }

    lemma RefsOf(held: multiset<int>, f: nat, building: int := NONE)
      requires Ok(held, building) && f < FILES
      ensures f < files.Length && FileOk(slots[..], held, files[..], f)
    {}

    constructor ()
      ensures Valid() && fresh(slots) && fresh(files) && fresh(pipes)
      ensures forall i | 0 <= i < slots.Length :: slots[i] == NONE
    {
      slots := new int[TABLES * SLOTS](_ => NONE);
      files := new File[FILES](_ => File(false, 0, NONE, false, false));
      pipes := new Pipe[PIPES](_ => Pipe(false, 0, 0));
      new;
      forall f: nat | f < FILES ensures FileOk(slots[..], multiset{}, files[..], f) {
        assert f !in slots[..];
      }
      forall p: nat | p < PIPES ensures PipeOk(files[..], pipes[..], p) {
        assert Ends(files[..], p, true) == {} == Ends(files[..], p, false);
      }
    }

    /** process_fd_alloc. */
    method FdAlloc(table: nat) returns (fd: int)
      requires table < TABLES && slots.Length == TABLES * SLOTS
      ensures LowestFree(slots[..], table, fd)
    {
      fd := 0;
      while fd < SLOTS
        invariant 0 <= fd <= SLOTS && forall d: nat {:trigger At(table, d)} | d < fd :: slots[..][At(table, d)] != NONE
      {
        if slots[At(table, fd)] == NONE {
          return;
        }
        fd := fd + 1;
      }
      return -1;
    }

    /** fd_lookup: the file behind a descriptor, NONE if there is none. */
    method FdLookup(table: nat, fd: int) returns (f: int)
      requires table < TABLES && slots.Length == TABLES * SLOTS
      ensures f == if ValidFd(fd) then slots[..][At(table, fd)] else NONE
    {
      if !ValidFd(fd) {
        return NONE;
      }
      return slots[At(table, fd)];
    }

    /** file_alloc: the lowest unused file, with one reference that the caller holds. */
    method FileAlloc(ghost held: multiset<int>, ghost building: int := NONE) returns (f: int)
      requires Ok(held, building)
      modifies files
      ensures -1 <= f < FILES
      ensures f == -1 ==> Ok(held, building) && files[..] == old(files[..]) && forall e: nat | e < files.Length ::
        files[e].used
      ensures f >= 0 ==>
        Ok(held + multiset{f}, building) && f < |old(files[..])| && !old(files[f]).used && held[f] == 0 &&
        files[..] == old(files[..])[f := File(true, 1, NONE, false, false)]
      ensures f >= 0 ==> forall e: nat | e < f < files.Length :: files[e].used
    {
      Lengths(held, building);
      f := 0;
      while f < FILES
        invariant 0 <= f <= FILES && files[..] == old(files[..]) && forall e: nat | e < f :: files[e].used
      {
        if !files[f].used {
          files[f] := File(true, 1, NONE, false, false);
          AllocKeeps(slots[..], held, old(files[..]), Settled(pipes[..], building), f, files[..]);
          return;
        }
        f := f + 1;
      }
      return -1;
    }

    /** file_release: gives up a reference that the caller holds. */
    method FileRelease(f: nat, ghost held: multiset<int>, ghost building: int := NONE)
      requires Ok(held, building) && f < FILES && held[f] > 0
      requires building != NONE ==> f < files.Length && files[f].pipe == NONE
      modifies files, pipes
      ensures Ok(held - multiset{f}, building) && SameEnds(old(files[..]), files[..], {})
      ensures building != NONE ==> pipes[..] == old(pipes[..])
      ensures |old(files[..])| == FILES
      ensures
        var was := old(files[..])[f];
        files[..] == old(files[..])[f := if was.refs > 1 then was.(refs := was.refs - 1)
          else was.(used := false, refs := 0)]
    {
      Lengths(held, building);
      RefsOf(held, f, building);
      ghost var files0, pipes0 := files[..], pipes[..];
      hide Counted;
      if !files[f].used {
        return;
      }
      if files[f].refs > 1 {
        files[f] := files[f].(refs := files[f].refs - 1);
        DropKeeps(slots[..], held, files0, Settled(pipes[..], building), f, files[..]);
        return;
      }
      var p := files[f].pipe;
      if p != NONE {
        pipes[p] := WithoutEnd(pipes[p], files[f].canRead, files[f].canWrite);
      }
      files[f] := files[f].(used := false, refs := 0);
      LastDropKeeps(slots[..], held, files0, Settled(pipes0, building), f, files[..], Settled(pipes[..], building));
    }

    /** fd_close_on_table. */
    method FdClose(table: nat, fd: int, ghost held: multiset<int>)
      requires Ok(held) && RESERVED !in slots[..] && table < TABLES
      modifies slots, files, pipes
      ensures Ok(held) && SameEnds(old(files[..]), files[..], {})
      ensures |old(slots[..])| == TABLES * SLOTS
      ensures slots[..] == if ValidFd(fd) then old(slots[..])[At(table, fd) := NONE] else old(slots[..])
    {
      Lengths(held);
      if !ValidFd(fd) {
        return;
      }
      var i := At(table, fd);
      var f := slots[i];
      assert f in slots[..];
      if f == NONE {
        assert slots[..] == slots[..][i := NONE];
        return;
      }
      hide Counted;
      TakeKeeps(slots[..], held, files[..], pipes[..], i);
      slots[i] := NONE;
      FileRelease(f, held + multiset{f});
      assert held + multiset{f} - multiset{f} == held;
    }

    /** What a descriptor leads to in a valid state is an open file. */
    lemma LeadsToOpen(table: nat, fd: int)
      requires Valid() && table < TABLES && ValidFd(fd)
      ensures slots.Length == TABLES * SLOTS && files.Length == FILES && slots[At(table, fd)] >= NONE
      ensures
        var f := slots[At(table, fd)];
        f >= 0 ==> f < FILES && files[f].used && files[f].refs == multiset(slots[..])[f] >= 1
    {
      Lengths(multiset{});
      var f := slots[At(table, fd)];
      assert slots[..][At(table, fd)] == f && f in slots[..];
      if f >= 0 {
        RefsOf(multiset{}, f);
      }
    }

    /** One more reference to an open file, stored in an empty slot. */
    method Share(table: nat, fd: nat, f: nat)
      requires Valid() && table < TABLES && fd < SLOTS && f < FILES == files.Length && files[f].used
      requires slots.Length == TABLES * SLOTS && slots[At(table, fd)] == NONE
      modifies slots, files
      ensures Valid() && SameEnds(old(files[..]), files[..], {}) && slots[..] == old(slots[..])[At(table, fd) := f]
    {
      ghost var slots0, files0 := slots[..], files[..];
      hide Counted;
      files[f] := files[f].(refs := files[f].refs + 1);
      SharedKeeps(slots0, multiset{}, files0, pipes[..], f, files[..]);
      assert multiset{} + multiset{f} == multiset{f} && multiset{f} - multiset{f} == multiset{};
      Store(table, fd, f, multiset{f});
    }

    method Store(table: nat, fd: nat, f: nat, ghost held: multiset<int>)
      requires Ok(held) && table < TABLES && fd < SLOTS && f < FILES && held[f] > 0 && slots.Length == TABLES * SLOTS
      requires slots[At(table, fd)] < 0
      modifies slots
      ensures Ok(held - multiset{f}) && slots[..] == old(slots[..])[At(table, fd) := f]
    {
      StoreKeeps(slots[..], held, files[..], pipes[..], At(table, fd), f);
      slots[At(table, fd)] := f;
    }

    /** vfs_open_flags once the path has led to a mount; backendOk says whether the file system opened it. */
    method Open(table: nat, backendOk: bool) returns (fd: int, ghost f: int)
      requires Valid() && table < TABLES
      modifies slots, files, pipes
      ensures Valid() && SameEnds(old(files[..]), files[..], if fd >= 0 then {f} else {})
      ensures |old(slots[..])| == TABLES * SLOTS && -1 <= fd < SLOTS
      ensures fd == -1 ==> slots[..] == old(slots[..])
      ensures fd >= 0 ==>
        LowestFree(old(slots[..]), table, fd) && backendOk && 0 <= f < files.Length && !old(files[f].used) &&
        files[f].pipe == NONE && slots[..] == old(slots[..])[At(table, fd) := f]
      ensures fd == -1 <==>
        !backendOk || (forall e: nat | e < files.Length :: old(files[e].used)) ||
        (forall d: nat {:trigger At(table, d)} | d < SLOTS :: old(slots[..])[At(table, d)] != NONE)
    {
      Lengths(multiset{});
      hide Ok, Counted;
      var file := FileAlloc(multiset{});
      f := file;
      assert multiset{} + multiset{f} == multiset{f} && multiset{f} - multiset{f} == multiset{};
      if file == -1 {
        return -1, f;
      }
      if !backendOk {
        FileRelease(file, multiset{f});
        return -1, f;
      }
      fd := FdAlloc(table);
      if fd < 0 {
        FileRelease(file, multiset{f});
        return -1, f;
      }
      Store(table, fd, file, multiset{f});
    }

    /** vfs_close. */
    method Close(table: nat, fd: int)
      requires Valid() && table < TABLES
      modifies slots, files, pipes
      ensures Valid() && SameEnds(old(files[..]), files[..], {}) && |old(slots[..])| == TABLES * SLOTS
      ensures slots[..] == if ValidFd(fd) then old(slots[..])[At(table, fd) := NONE] else old(slots[..])
    {
      FdClose(table, fd, multiset{});
    }

    /** vfs_dup. */
    method Dup(table: nat, oldFd: int) returns (fd: int)
      requires Valid() && table < TABLES
      modifies slots, files
      ensures Valid() && SameEnds(old(files[..]), files[..], {})
      ensures |old(slots[..])| == TABLES * SLOTS && -1 <= fd < SLOTS
      ensures fd == -1 <==>
        !ValidFd(oldFd) || old(slots[..])[At(table, oldFd)] == NONE ||
        (forall d: nat {:trigger At(table, d)} | d < SLOTS :: old(slots[..])[At(table, d)] != NONE)
      ensures fd == -1 ==> slots[..] == old(slots[..])
      ensures fd >= 0 ==>
        LowestFree(old(slots[..]), table, fd) && slots[..] ==
          old(slots[..])[At(table, fd) := old(slots[..])[At(table, oldFd)]]
    {
      Lengths(multiset{});
      var f := FdLookup(table, oldFd);
      fd := FdAlloc(table);
      if f == NONE || fd < 0 {
        return -1;
      }
      LeadsToOpen(table, oldFd);
      Share(table, fd, f);
    }

    /** vfs_dup2. */
    method Dup2(table: nat, oldFd: int, newFd: int) returns (fd: int)
      requires Valid() && table < TABLES
      modifies slots, files, pipes
      ensures Valid() && SameEnds(old(files[..]), files[..], {}) && |old(slots[..])| == TABLES * SLOTS
      ensures fd == if ValidFd(oldFd) && ValidFd(newFd) && old(slots[..])[At(table, oldFd)] != NONE then newFd else -1
      ensures fd == -1 ==> slots[..] == old(slots[..])
      ensures fd >= 0 ==> slots[..] == old(slots[..])[At(table, newFd) := old(slots[..])[At(table, oldFd)]]
    {
      Lengths(multiset{});
      var f := FdLookup(table, oldFd);
      if f == NONE || !ValidFd(newFd) {
        return -1;
      }
      if oldFd == newFd {
        return newFd;
      }
      FdClose(table, newFd, multiset{});
      LeadsToOpen(table, oldFd);
      Share(table, newFd, f);
      return newFd;
    }

    /** vfs_process_dup2. Copying a descriptor onto itself closes the file first: if that was its last reference
        the slot ends up pointing at a file that is no longer open, and exactly then the state is left invalid. */
    method ProcessDup2(dst: nat, dstFd: int, src: nat, srcFd: int) returns (r: int)
      requires Valid() && dst < TABLES && src < TABLES
      modifies slots, files, pipes
      ensures |old(slots[..])| == TABLES * SLOTS
      ensures r == if ValidFd(dstFd) && ValidFd(srcFd) && old(slots[..])[At(src, srcFd)] != NONE then 0 else -1
      ensures r == -1 ==> Valid() && slots[..] == old(slots[..])
      ensures r == 0 ==>
        slots[..] == old(slots[..])[At(dst, dstFd) := old(slots[..])[At(src, srcFd)]] &&
        (Valid() <==> !(dst == src && dstFd == srcFd && multiset(old(slots[..]))[old(slots[..])[At(src, srcFd)]] == 1))
      ensures Valid() ==> SameEnds(old(files[..]), files[..], {})
    {
      Lengths(multiset{});
      if !ValidFd(dstFd) || !ValidFd(srcFd) {
        return -1;
      }
      var f := FdLookup(src, srcFd);
      if f == NONE {
        return -1;
      }
      LeadsToOpen(src, srcFd);
      ghost var slots0 := slots[..];
      LastOne(slots0, At(dst, dstFd), At(src, srcFd));
      hide Counted, LowestFree;
      FdClose(dst, dstFd, multiset{});
      ghost var slots1, files1 := slots[..], files[..];
      files[f] := files[f].(refs := files[f].refs + 1);
      slots[At(dst, dstFd)] := f;
      CountsAgain(slots1, files1, pipes[..], At(dst, dstFd), f, slots[..], files[..]);
      return 0;
    }

    /** vfs_process_inherit; a negative src stands for no source process. */
    method Inherit(dst: nat, src: int)
      requires Valid() && dst < TABLES && src < TABLES
      modifies slots, files, pipes
      ensures Valid() && SameEnds(old(files[..]), files[..], {}) && |old(slots[..])| == TABLES * SLOTS
      ensures slots[..] == if src < 0 || src == dst then Closed(old(slots[..]), dst, SLOTS)
        else Copied(old(slots[..]), dst, src, SLOTS)
      ensures |slots[..]| == TABLES * SLOTS && forall t: nat, d: nat {:trigger At(t, d)} | t < TABLES && d < 32 ::
        slots[..][At(t, d)] ==
        if t != dst then old(slots[..])[At(t, d)]
        else if src < 0 || src == dst then NONE else old(slots[..])[At(src, d)]
    {
      ghost var slots0, files0 := slots[..], files[..];
      CloseAll(dst);
      if src < 0 {
        return;
      }
      ghost var slots1 := slots[..];
      CopyStep(slots0, dst, src, 0);
      hide Counted, Copied, Closed;
      for i := 0 to SLOTS
        invariant Valid() && |slots0| == TABLES * SLOTS && SameEnds(files0, files[..], {})
        invariant slots[..] == Copied(slots1, dst, src, i)
      {
        LeadsToOpen(src, i);
        LeadsToOpen(dst, i);
        var f := FdLookup(src, i);
        CopyStep(slots0, dst, src, i);
        if f != NONE {
          Share(dst, i, f);
        }
      }
      CopyDone(slots0, dst, src);
    }

    /** The loop of vfs_process_cleanup. */
    method CloseAll(table: nat)
      requires Valid() && table < TABLES
      modifies slots, files, pipes
      ensures Valid() && SameEnds(old(files[..]), files[..], {}) && |old(slots[..])| == TABLES * SLOTS
      ensures slots[..] == Closed(old(slots[..]), table, SLOTS)
    {
      ghost var slots0, files0 := slots[..], files[..];
      Lengths(multiset{});
      ClosedStep(slots0, table, 0);
      hide Counted, Closed;
      for i := 0 to SLOTS
        invariant Valid() && SameEnds(files0, files[..], {}) && slots[..] == Closed(slots0, table, i)
      {
        ClosedStep(slots0, table, i);
        FdClose(table, i, multiset{});
      }
    }

    /** pipe_alloc: the lowest unused pipe, which is then being built. */
    method PipeAlloc() returns (p: int)
      requires Ok(multiset{})
      modifies pipes
      ensures -1 <= p < PIPES && pipes.Length == PIPES
      ensures p == -1 ==> pipes[..] == old(pipes[..]) && forall q: nat | q < PIPES :: pipes[q].used
      ensures Ok(multiset{}, p)
      ensures p >= 0 ==> !old(pipes[p]).used && pipes[..] == old(pipes[..])[p := Pipe(true, 0, 0)]
    {
      Lengths(multiset{});
      p := 0;
      while p < PIPES
        invariant 0 <= p <= PIPES && pipes[..] == old(pipes[..]) && forall q: nat | q < p :: pipes[q].used
      {
        if !pipes[p].used {
          IdlePipe(slots[..], multiset{}, files[..], pipes[..], p);
          pipes[p] := Pipe(true, 0, 0);
          assert Settled(pipes[..], p) == old(pipes[..]);
          return;
        }
        p := p + 1;
      }
      return -1;
    }

    /** Sets a slot aside, or gives it back. */
    method Mark(i: nat, v: int, ghost held: multiset<int>, ghost building: int)
      requires Ok(held, building) && i < slots.Length && slots[i] < 0 && (v == NONE || v == RESERVED)
      modifies slots
      ensures Ok(held, building) && slots[..] == old(slots[..])[i := v]
    {
      MarkKeeps(slots[..], held, files[..], Settled(pipes[..], building), i, v);
      slots[i] := v;
    }

    lemma AllIdle()
      requires Ok(multiset{})
      ensures pipes.Length == PIPES && forall p: nat | p < PIPES && !pipes[..][p].used ::
        pipes[..][p] == Pipe(false, 0, 0)
    {
      forall p: nat | p < PIPES && !pipes[..][p].used ensures pipes[..][p] == Pipe(false, 0, 0) {
        IdlePipe(slots[..], multiset{}, files[..], pipes[..], p);
      }
    }

    /** The pipe and its two files in vfs_pipe, whose references the caller then holds. */
    method Connect() returns (done: bool, fr: int, fw: int)
      requires Ok(multiset{})
      modifies files, pipes
      ensures !done ==> Ok(multiset{}) && SameEnds(old(files[..]), files[..], {})
      ensures done ==>
        Ok(multiset{fr, fw}) && 0 <= fr < FILES && 0 <= fw < FILES && fr != fw && files.Length == FILES &&
        !old(files[fr]).used && !old(files[fw]).used && SameEnds(old(files[..]), files[..], {fr, fw}) &&
        Joined(files[..], old(pipes[..]), pipes[..], fr, fw)
      ensures done <==> IdleExists(old(pipes[..])) && TwoUnused(old(files[..]))
    {
      Lengths(multiset{});
      ghost var files0, pipes0 := files[..], pipes[..];
      AllIdle();
      hide Ok, Counted, Settled;
      var p := PipeAlloc();
      fr := FileAlloc(multiset{}, p);
      ghost var held := if fr >= 0 then multiset{fr} else multiset{};
      assert multiset{} + multiset{fr} == multiset{fr};
      ghost var files2 := files[..];
      fw := FileAlloc(held, p);
      TwoFound(files0, files2, fr, fw);
      assert p >= 0 <==> IdleExists(pipes0);
      assert multiset{fr} + multiset{fw} == multiset{fr, fw} && multiset{} + multiset{fw} == multiset{fw};
      if p < 0 || fr < 0 || fw < 0 {
        assert (if fw >= 0 then held + multiset{fw} else held) ==
          (if fr >= 0 then multiset{fr} else multiset{}) + (if fw >= 0 then multiset{fw} else multiset{});
        GiveUp(p, fr, fw, pipes0);
        return false, fr, fw;
      }
      ghost var files1 := files[..];
      BuiltPipe(p, pipes0);
      files[fr] := File(true, 1, p, true, false);
      files[fw] := File(true, 1, p, false, true);
      pipes[p] := Pipe(true, 1, 1);
      PipeKeeps(slots[..], multiset{fr, fw}, files1, pipes0, fr, fw, p, files[..], pipes[..]);
      WholeOk(multiset{fr, fw});
      assert Joined(files[..], pipes0, pipes[..], fr, fw);
      return true, fr, fw;
    }

    lemma BuiltPipe(p: nat, pipes0: seq<Pipe>)
      requires p < |pipes0| && !pipes0[p].used && pipes0[p] == Pipe(false, 0, 0) &&
        pipes[..] == pipes0[p := Pipe(true, 0, 0)]
      ensures Settled(pipes[..], p) == pipes0
      ensures forall held | Ok(held, p) :: Counted(slots[..], held, files[..], pipes0)
    {}

    lemma WholeOk(held: multiset<int>)
      requires Counted(slots[..], held, files[..], pipes[..])
      ensures Ok(held)
    {}

    /** The way out of vfs_pipe when a file or the pipe is missing. */
    method GiveUp(p: int, fr: int, fw: int, ghost pipes0: seq<Pipe>)
      requires -1 <= p < PIPES && -1 <= fr < FILES && -1 <= fw < FILES && (p < 0 || fr < 0 || fw < 0)
      requires Ok((if fr >= 0 then multiset{fr} else multiset{}) + (if fw >= 0 then multiset{fw} else multiset{}), p)
      requires files.Length == FILES && (fr >= 0 ==> files[fr].pipe == NONE) && (fw >= 0 ==> files[fw].pipe == NONE)
      requires fr >= 0 ==> files[fr].refs == 1
      requires fw >= 0 ==> files[fw].refs == 1
      requires fr >= 0 && fw >= 0 ==> fr != fw
      requires p >= 0 ==> p < |pipes0| && pipes0[p] == Pipe(false, 0, 0) && pipes[..] == pipes0[p := Pipe(true, 0, 0)]
      modifies files, pipes
      ensures Ok(multiset{}) && files.Length == FILES
      ensures forall f: nat | f < FILES :: files[f] == if f == fr || f == fw
        then old(files[f]).(used := false, refs := 0) else old(files[f])
    {
      hide Ok, Counted;
      if fr >= 0 {
        ghost var rest := if fw >= 0 then multiset{fw} else multiset{};
        assert multiset{fr} + rest - multiset{fr} == rest;
        FileRelease(fr, multiset{fr} + rest, p);
      } else {
        assert multiset{} + (if fw >= 0 then multiset{fw} else multiset{}) == if fw >= 0 then multiset{fw}
          else multiset{};
      }
      if fw >= 0 {
        assert multiset{fw} - multiset{fw} == multiset{};
        FileRelease(fw, multiset{fw}, p);
      }
      if p >= 0 {
        Unbuild(p, pipes0);
      }
    }

    method Unbuild(p: nat, ghost pipes0: seq<Pipe>)
      requires p < PIPES && Ok(multiset{}, p) && p < |pipes0| && pipes0[p] == Pipe(false, 0, 0) &&
        pipes[..] == pipes0[p := Pipe(true, 0, 0)]
      modifies pipes
      ensures Ok(multiset{})
    {
      BuiltPipe(p, pipes0);
      pipes[p] := pipes[p].(used := false);
      assert pipes[..] == pipes0;
    }

    /** vfs_pipe: the two descriptors, or -1 and nothing changed when a descriptor, a file or a pipe is missing. */
    method MakePipe(table: nat) returns (r: int, fdR: int, fdW: int, ghost fr: int, ghost fw: int)
      requires Valid() && table < TABLES
      modifies slots, files, pipes
      ensures Valid() && (r == 0 || r == -1) && |old(slots[..])| == TABLES * SLOTS
      ensures r == -1 ==> slots[..] == old(slots[..]) && SameEnds(old(files[..]), files[..], {})
      ensures r == 0 ==>
        LowestFree(old(slots[..]), table, fdR) && fdR >= 0 && fr >= 0 &&
          LowestFree(old(slots[..])[At(table, fdR) := RESERVED], table, fdW) && fdW >= 0 &&
        slots[..] == old(slots[..])[At(table, fdR) := fr][At(table, fdW) := fw] &&
          SameEnds(old(files[..]), files[..], {fr, fw})
      ensures r == 0 ==>
        0 <= fr < files.Length && 0 <= fw < files.Length && fr != fw && !old(files[fr]).used && !old(files[fw]).used &&
        Joined(files[..], old(pipes[..]), pipes[..], fr, fw)
      ensures r == 0 <==> TwoFreeSlots(old(slots[..]), table) && IdleExists(old(pipes[..])) && TwoUnused(old(files[..]))
    {
      Lengths(multiset{});
      hide Ok, Counted, Joined, IdleExists, TwoUnused, TwoFreeSlots, LowestFree;
      ghost var slots0 := slots[..];
      fr, fw := -1, -1;
      fdR, fdW := ReservePair(table);
      if fdW < 0 {
        return -1, fdR, fdW, fr, fw;
      }
      var done, reader, writer := Connect();
      fr, fw := reader, writer;
      if !done {
        Mark(At(table, fdR), NONE, multiset{}, NONE);
        Mark(At(table, fdW), NONE, multiset{}, NONE);
        assert slots[..] == slots0;
        return -1, fdR, fdW, fr, fw;
      }
      assert multiset{reader, writer} - multiset{reader} == multiset{writer} &&
        multiset{writer} - multiset{writer} == multiset{};
      Store(table, fdR, reader, multiset{reader, writer});
      Store(table, fdW, writer, multiset{writer});
      return 0, fdR, fdW, fr, fw;
    }

    /** The two descriptors that vfs_pipe sets aside; a negative fdW when there are no two. */
    method ReservePair(table: nat) returns (fdR: int, fdW: int)
      requires Valid() && table < TABLES
      modifies slots
      ensures Ok(multiset{}) && slots.Length == TABLES * SLOTS == |old(slots[..])|
      ensures fdW < 0 ==> slots[..] == old(slots[..])
      ensures fdW >= 0 ==>
        LowestFree(old(slots[..]), table, fdR) && fdR >= 0 &&
          LowestFree(old(slots[..])[At(table, fdR) := RESERVED], table, fdW) &&
        fdR != fdW && slots[..] == old(slots[..])[At(table, fdR) := RESERVED][At(table, fdW) := RESERVED]
      ensures fdW >= 0 <==> TwoFreeSlots(old(slots[..]), table)
    {
      Lengths(multiset{});
      hide Ok, Counted;
      ghost var slots0 := slots[..];
      fdW := -1;
      fdR := FdAlloc(table);
      if fdR < 0 {
        return;
      }
      Mark(At(table, fdR), RESERVED, multiset{}, NONE);
      fdW := FdAlloc(table);
      if fdW < 0 {
        Mark(At(table, fdR), NONE, multiset{}, NONE);
        assert slots[..] == slots0;
        return;
      }
      Mark(At(table, fdW), RESERVED, multiset{}, NONE);
    }

    /** In every valid state a file is open exactly when some descriptor of some table leads to it, counted once for
        each; and a pipe is in use exactly when one of its ends is open. */
    lemma OpenExactly(f: nat, p: nat)
      requires Valid() && f < FILES && p < PIPES
      ensures files.Length == FILES && pipes.Length == PIPES
      ensures files[f].refs == multiset(slots[..])[f] && (files[f].used <==> f in slots[..])
      ensures pipes[p].used <==>
        exists e: nat :: e < FILES && files[e].used && files[e].pipe == p && (files[e].canRead || files[e].canWrite)
    {
      Lengths(multiset{});
      RefsOf(multiset{}, f);
      assert PipeOk(files[..], pipes[..], p);
      NoEndsOfNone(files[..], pipes[..], p);
    }
  }

  lemma NoneOpen(vfs: Vfs, table: nat)
    requires vfs.Valid() && table < TABLES && forall i | 0 <= i < vfs.slots.Length :: vfs.slots[i] == NONE
    ensures vfs.files.Length == FILES && !vfs.files[0].used && 0 < FILES
    ensures |vfs.slots[..]| == TABLES * SLOTS && 0 < SLOTS && vfs.slots[..][At(table, 0)] == NONE
    ensures forall x | x in vfs.slots[..] :: x < 0
  {
    vfs.Lengths(multiset{});
    vfs.RefsOf(multiset{}, 0);
  }

  /** A file whose number is in one slot only. */
  lemma OnlyOnce(slots: seq<int>, slots': seq<int>, table: nat, fd: int, f: nat)
    requires |slots| == TABLES * SLOTS && table < TABLES && 0 <= fd < SLOTS && forall x | x in slots :: x < 0
    requires slots' == slots[At(table, fd) := f]
    ensures multiset(slots')[f] == 1 && slots'[At(table, fd)] == f && f != NONE && ValidFd(fd) && |slots'| == |slots|
    ensures slots'[At(table, fd) := f] == slots'
  {
    assert f !in slots;
    assert multiset(slots)[f] == 0;
  }

  /** A file opened right after boot, and its descriptor copied onto itself: the call succeeds, and the counts do not
      fit any more. */
  method DanglingRun(table: nat) returns (vfs: Vfs, fd: int, r: int)
    requires table < TABLES
    ensures fd >= 0 && r == 0 && !vfs.Valid()
  {
    vfs := new Vfs();
    NoneOpen(vfs, table);
    hide *;
    ghost var slots0 := vfs.slots[..];
    ghost var f;
    fd, f := vfs.Open(table, true);
    OnlyOnce(slots0, vfs.slots[..], table, fd, f);
    r := vfs.ProcessDup2(table, fd, table, fd);
  }
}
