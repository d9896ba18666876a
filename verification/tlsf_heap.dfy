/** The invariants of the TLSF heap (mm/tlsf.c), on values. Memory is a sequence of 8-byte words and a
    pointer is a word index, 0 for NULL; a block is named by the index of its header. */
module TlsfHeap {
  import opened TlsfMapping

  /** A block's payload size in words, and whether it is free. */
  datatype Block = Block(words: nat, free: bool)

  type Blocks = map<nat, Block>

  const MIN_WORDS: nat := 3
  /** The memory managed stays below 2^25 bytes, so that every size has a class. */
  const MAX_WORDS: nat := 0x40_0000

  function Next(bs: Blocks, b: nat): nat
    requires b in bs
  {
    b + 1 + bs[b].words
  }

  function Bytes(bs: Blocks, b: nat): nat
    requires b in bs
  {
    8 * bs[b].words
  }

  // ---- blocks tile the pools ----

  ghost predicate Fits(bs: Blocks, ends: set<nat>, n: nat, b: nat)
    requires b in bs
  {
    0 < b && b !in ends && bs[b].words >= MIN_WORDS && Next(bs, b) < n && (Next(bs, b) in bs || Next(bs, b) in ends)
  }

  predicate Apart(bs: Blocks, b: nat, c: nat)
    requires b in bs
  {
    c <= b || Next(bs, b) <= c
  }

  /** Each block ends where another block or a sentinel begins, and nothing begins inside a block. */
  ghost predicate Tiled(bs: Blocks, ends: set<nat>, n: nat) {
    n <= MAX_WORDS &&
    (forall b {:trigger Fits(bs, ends, n, b)} | b in bs :: Fits(bs, ends, n, b)) &&
    (forall b, c {:trigger Apart(bs, b, c)} | b in bs && (c in bs || c in ends) :: Apart(bs, b, c)) &&
    (forall e {:trigger e in ends} | e in ends :: e < n)
  }

  ghost predicate NoFreeNeighbours(bs: Blocks) {
    forall b {:trigger Next(bs, b)} | b in bs && bs[b].free && Next(bs, b) in bs :: !bs[Next(bs, b)].free
  }

  // ---- headers and footers ----

  function SizeOf(header: nat): nat { header / 4 * 4 }
  predicate FreeBit(header: nat) { header % 4 == 1 || header % 4 == 3 }
  predicate PrevBit(header: nat) { header % 4 >= 2 }

  function Header(size: nat, f: bool, prev: bool): nat {
    SizeOf(size) + (if f then 1 else 0) + if prev then 2 else 0
  }

  /** block_set_size, block_set_free and block_set_prev_free on a header word. */
  function WithSize(header: nat, size: nat): nat { Header(size, FreeBit(header), PrevBit(header)) }
  function WithFree(header: nat, f: bool): nat { Header(header, f, PrevBit(header)) }
  function WithPrev(header: nat, f: bool): nat { Header(header, FreeBit(header), f) }

  lemma HeaderFields(size: nat, f: bool, prev: bool)
    ensures SizeOf(Header(size, f, prev)) == SizeOf(size)
    ensures FreeBit(Header(size, f, prev)) == f && PrevBit(Header(size, f, prev)) == prev
  {
    var low := (if f then 1 else 0) + if prev then 2 else 0;
    assert Header(size, f, prev) == 4 * (size / 4) + low;
  }

  /** A header is the size with the two lowest bits for free and previous-free. */
  lemma HeaderWord(size: nat, f: bool, prev: bool)
    requires size % 8 == 0
    ensures Header(size, f, prev) == size + (if f then 1 else 0) + (if prev then 2 else 0)
  {}

  lemma SizeOfWords(words: nat)
    ensures SizeOf(8 * words) == 8 * words && !FreeBit(8 * words) && !PrevBit(8 * words)
  {
    var q := 2 * words;
    assert 8 * words == 4 * q && 4 * q / 4 == q && 4 * q % 4 == 0;
  }

  predicate HeaderOk(mem: seq<nat>, bs: Blocks, b: nat)
    requires b in bs
  {
    b < |mem| && SizeOf(mem[b]) == Bytes(bs, b) && FreeBit(mem[b]) == bs[b].free
  }

  /** What follows a block says whether it is free, and then its last word points back at it. */
  predicate TailOk(mem: seq<nat>, bs: Blocks, b: nat)
    requires b in bs
  {
    Next(bs, b) < |mem| && PrevBit(mem[Next(bs, b)]) == bs[b].free && (bs[b].free ==> mem[Next(bs, b) - 1] == b)
  }

  predicate EndOk(mem: seq<nat>, e: nat) {
    e < |mem| && SizeOf(mem[e]) == 0 && !FreeBit(mem[e])
  }

  /** A set previous-free bit is backed by a footer that leads to a free block ending here. */
  predicate BackOk(mem: seq<nat>, bs: Blocks, c: nat) {
    0 < c < |mem| &&
    (PrevBit(mem[c]) ==>
       mem[c - 1] in bs && bs[mem[c - 1]].free && Next(bs, mem[c - 1]) == c)
  }

  ghost predicate Encoded(mem: seq<nat>, bs: Blocks, ends: set<nat>) {
    (forall b {:trigger HeaderOk(mem, bs, b)} | b in bs :: HeaderOk(mem, bs, b)) &&
    (forall b {:trigger TailOk(mem, bs, b)} | b in bs :: TailOk(mem, bs, b)) &&
    (forall e {:trigger EndOk(mem, e)} | e in ends :: EndOk(mem, e)) &&
    (forall c {:trigger BackOk(mem, bs, c)} | c in bs || c in ends :: BackOk(mem, bs, c))
  }

  // ---- free lists ----

  function Bucket(c: Class): nat { c.fl * SL_COUNT + c.sl }

  function BucketOf(bs: Blocks, b: nat): nat
    requires b in bs
  {
    Bucket(MapInsert(Bytes(bs, b)))
  }

  /** The words that hold a listed block's links. */
  predicate IsLink(listed: set<nat>, w: nat) {
    (w >= 1 && w - 1 in listed) || (w >= 2 && w - 2 in listed)
  }

  /** The block before b on its list links forward to it; the first one is the head. */
  predicate PrevOk(mem: seq<nat>, heads: seq<nat>, bs: Blocks, listed: set<nat>, rank: map<nat, int>, b: nat)
    requires |heads| == BUCKETS && b in bs && b in rank && b + 2 < |mem| && BucketOf(bs, b) < BUCKETS
  {
    var k, p := BucketOf(bs, b), mem[b + 1];
    if p == 0 then heads[k] == b
    else
      p in listed && p in bs && p in rank && p + 2 < |mem| &&
      BucketOf(bs, p) == k && mem[p + 2] == b && rank[p] < rank[b]
  }

  predicate NextOk(mem: seq<nat>, bs: Blocks, listed: set<nat>, b: nat)
    requires b in bs && b + 2 < |mem|
  {
    var n := mem[b + 2];
    n != 0 ==> n in listed && n in bs && n + 2 < |mem| && BucketOf(bs, n) == BucketOf(bs, b) && mem[n + 1] == b
  }

  ghost predicate LinksOk(mem: seq<nat>, heads: seq<nat>, bs: Blocks, listed: set<nat>, rank: map<nat, int>, b: nat)
    requires |heads| == BUCKETS
  {
    b in bs && b in rank && b + 2 < |mem| && BucketOf(bs, b) < BUCKETS &&
    PrevOk(mem, heads, bs, listed, rank, b) && NextOk(mem, bs, listed, b)
  }

  ghost predicate HeadOk(mem: seq<nat>, heads: seq<nat>, bs: Blocks, listed: set<nat>, k: nat)
    requires |heads| == BUCKETS && k < BUCKETS
  {
    var h := heads[k];
    h != 0 ==> h in listed && h in bs && h + 2 < |mem| && BucketOf(bs, h) == k && mem[h + 1] == 0
  }

  /** Doubly linked lists, one a class, over exactly the listed blocks; ranks grow along each list. */
  ghost predicate Lists(mem: seq<nat>, heads: seq<nat>, bs: Blocks, listed: set<nat>, rank: map<nat, int>) {
    |heads| == BUCKETS &&
    (forall b {:trigger LinksOk(mem, heads, bs, listed, rank, b)} | b in listed ::
      LinksOk(mem, heads, bs, listed, rank, b)) &&
    (forall k: nat {:trigger HeadOk(mem, heads, bs, listed, k)} | k < BUCKETS :: HeadOk(mem, heads, bs, listed, k))
  }

  /** The bitmaps say which lists have a head. */
  ghost predicate BitsOk(heads: seq<nat>, rows: set<nat>, columns: seq<set<nat>>) {
    |heads| == BUCKETS && |columns| == FL_COUNT &&
    (forall fl: nat, sl: nat {:trigger sl in columns[fl]} | fl < FL_COUNT ::
       sl in columns[fl] <==> sl < SL_COUNT && heads[Bucket(Class(fl, sl))] != 0) &&
    (forall fl: nat {:trigger fl in rows} :: fl in rows <==> fl < FL_COUNT && columns[fl] != {})
  }

  // ---- list surgery ----

  lemma Spacing(bs: Blocks, ends: set<nat>, n: nat, b: nat, c: nat)
    requires Tiled(bs, ends, n) && b in bs && c in bs
    ensures 0 < b && b + 4 < n && (b == c || b + 4 <= c || c + 4 <= b)
  {
    assert Fits(bs, ends, n, b) && Fits(bs, ends, n, c) && Apart(bs, b, c) && Apart(bs, c, b);
  }

  lemma InBucket(bs: Blocks, ends: set<nat>, n: nat, b: nat)
    requires Tiled(bs, ends, n) && b in bs
    ensures BucketOf(bs, b) < BUCKETS && b + 4 < n
  {
    assert Fits(bs, ends, n, b);
    ClassInTable(Bytes(bs, b));
  }

  /** insert_block: at the head of its list. */
  ghost predicate Inserted(mem: seq<nat>, mem': seq<nat>, head: nat, b: nat) {
    |mem'| == |mem| &&
    forall w: nat {:trigger mem'[w]} | w < |mem| ::
      mem'[w] == if head != 0 && w == head + 1 then b else if w == b + 1 then 0 else if w == b + 2 then head else mem[w]
  }

  function RankAtHead(rank: map<nat, int>, head: nat): int {
    if head != 0 && head in rank then rank[head] - 1 else 0
  }

  lemma InsertKeepsLists(mem: seq<nat>, mem': seq<nat>, heads: seq<nat>, bs: Blocks, ends: set<nat>, listed: set<nat>,
                         rank: map<nat, int>, b: nat)
    requires Tiled(bs, ends, |mem|) && Lists(mem, heads, bs, listed, rank) && b in bs && b !in listed
    requires BucketOf(bs, b) < BUCKETS && Inserted(mem, mem', heads[BucketOf(bs, b)], b)
    ensures
      var k := BucketOf(bs, b);
      Lists(mem', heads[k := b], bs, listed + {b}, rank[b := RankAtHead(rank, heads[k])])
  {
    var k := BucketOf(bs, b);
    var h := heads[k];
    var heads', listed', rank' := heads[k := b], listed + {b}, rank[b := RankAtHead(rank, h)];
    assert HeadOk(mem, heads, bs, listed, k);
    Spacing(bs, ends, |mem|, b, b);
    if h != 0 {
      assert LinksOk(mem, heads, bs, listed, rank, h);
      Spacing(bs, ends, |mem|, b, h);
    }
    assert LinksOk(mem', heads', bs, listed', rank', b);
    forall x | x in listed ensures LinksOk(mem', heads', bs, listed', rank', x) {
      InsertKeepsLink(mem, mem', heads, bs, ends, listed, rank, b, x);
    }
    forall j: nat | j < BUCKETS ensures HeadOk(mem', heads', bs, listed', j) {
      InsertKeepsHead(mem, mem', heads, bs, ends, listed, rank, b, j);
    }
    hide BucketOf, LinksOk, HeadOk;
  }

  lemma InsertKeepsHead(mem: seq<nat>, mem': seq<nat>, heads: seq<nat>, bs: Blocks, ends: set<nat>, listed: set<nat>,
                        rank: map<nat, int>, b: nat, j: nat)
    requires Tiled(bs, ends, |mem|) && Lists(mem, heads, bs, listed, rank) && b in bs && b !in listed && j < BUCKETS
    requires BucketOf(bs, b) < BUCKETS && Inserted(mem, mem', heads[BucketOf(bs, b)], b)
    ensures HeadOk(mem', heads[BucketOf(bs, b) := b], bs, listed + {b}, j)
  {
    var h := heads[BucketOf(bs, b)];
    assert HeadOk(mem, heads, bs, listed, j) && HeadOk(mem, heads, bs, listed, BucketOf(bs, b));
    Spacing(bs, ends, |mem|, b, b);
    hide BucketOf, LinksOk;
    if j != BucketOf(bs, b) && heads[j] != 0 {
      Spacing(bs, ends, |mem|, b, heads[j]);
      if h != 0 {
        Spacing(bs, ends, |mem|, h, heads[j]);
      }
    }
  }

  lemma InsertKeepsLink(mem: seq<nat>, mem': seq<nat>, heads: seq<nat>, bs: Blocks, ends: set<nat>, listed: set<nat>,
                        rank: map<nat, int>, b: nat, x: nat)
    requires Tiled(bs, ends, |mem|) && Lists(mem, heads, bs, listed, rank) && b in bs && b !in listed && x in listed
    requires BucketOf(bs, b) < BUCKETS && Inserted(mem, mem', heads[BucketOf(bs, b)], b)
    ensures
      var k := BucketOf(bs, b);
      LinksOk(mem', heads[k := b], bs, listed + {b}, rank[b := RankAtHead(rank, heads[k])], x)
  {
    var k := BucketOf(bs, b);
    var h := heads[k];
    assert LinksOk(mem, heads, bs, listed, rank, x) && HeadOk(mem, heads, bs, listed, k);
    Spacing(bs, ends, |mem|, b, b);
    hide BucketOf;
    var p, n := mem[x + 1], mem[x + 2];
    LinkSpacing(bs, ends, |mem|, b, x, p, n);
    if h != 0 {
      LinkSpacing(bs, ends, |mem|, h, x, p, n);
    }
  }

  /** remove_block: wherever it is on its list. */
  ghost predicate Removed(mem: seq<nat>, mem': seq<nat>, b: nat) {
    |mem'| == |mem| && b + 2 < |mem| &&
    var p, n := mem[b + 1], mem[b + 2];
    forall w: nat {:trigger mem'[w]} | w < |mem| ::
      mem'[w] == if n != 0 && w == n + 1 then p else if p != 0 && w == p + 2 then n else mem[w]
  }

  function RemovedHeads(mem: seq<nat>, heads: seq<nat>, b: nat, k: nat): (heads': seq<nat>)
    requires b + 2 < |mem| && k < |heads|
    ensures |heads'| == |heads|
  {
    if mem[b + 1] != 0 then heads else heads[k := mem[b + 2]]
  }

  lemma RemoveKeepsLists(mem: seq<nat>, mem': seq<nat>, heads: seq<nat>, bs: Blocks, ends: set<nat>, listed: set<nat>,
                         rank: map<nat, int>, b: nat)
    requires Tiled(bs, ends, |mem|) && Lists(mem, heads, bs, listed, rank) && b in listed && b in bs
    requires BucketOf(bs, b) < BUCKETS && Removed(mem, mem', b)
    ensures Lists(mem', RemovedHeads(mem, heads, b, BucketOf(bs, b)), bs, listed - {b}, rank)
  {
    var k := BucketOf(bs, b);
    var heads', listed' := RemovedHeads(mem, heads, b, k), listed - {b};
    forall x | x in listed' ensures LinksOk(mem', heads', bs, listed', rank, x) {
      RemoveKeepsLink(mem, mem', heads, bs, ends, listed, rank, b, x);
    }
    forall j: nat | j < BUCKETS ensures HeadOk(mem', heads', bs, listed', j) {
      RemoveKeepsHead(mem, mem', heads, bs, ends, listed, rank, b, j);
    }
  }

  lemma RemoveKeepsHead(mem: seq<nat>, mem': seq<nat>, heads: seq<nat>, bs: Blocks, ends: set<nat>, listed: set<nat>,
                        rank: map<nat, int>, b: nat, j: nat)
    requires Tiled(bs, ends, |mem|) && Lists(mem, heads, bs, listed, rank) && b in listed && b in bs && j < BUCKETS
    requires BucketOf(bs, b) < BUCKETS && Removed(mem, mem', b)
    ensures HeadOk(mem', RemovedHeads(mem, heads, b, BucketOf(bs, b)), bs, listed - {b}, j)
  {
    assert LinksOk(mem, heads, bs, listed, rank, b) && HeadOk(mem, heads, bs, listed, j);
    var h := RemovedHeads(mem, heads, b, BucketOf(bs, b))[j];
    var p, n := mem[b + 1], mem[b + 2];
    hide BucketOf;
    if h != 0 {
      LinkSpacing(bs, ends, |mem|, h, b, p, n);
    }
  }

  lemma RemoveKeepsLink(mem: seq<nat>, mem': seq<nat>, heads: seq<nat>, bs: Blocks, ends: set<nat>, listed: set<nat>,
                        rank: map<nat, int>, b: nat, x: nat)
    requires Tiled(bs, ends, |mem|) && Lists(mem, heads, bs, listed, rank) && b in listed && b in bs && x in listed &&
      x != b
    requires BucketOf(bs, b) < BUCKETS && Removed(mem, mem', b)
    ensures LinksOk(mem', RemovedHeads(mem, heads, b, BucketOf(bs, b)), bs, listed - {b}, rank, x)
  {
    LinksAt(mem, heads, bs, listed, rank, b);
    LinksAt(mem, heads, bs, listed, rank, x);
    RemoveKeepsNext(mem, mem', heads, bs, ends, listed, rank, b, x);
    RemoveKeepsPrev(mem, mem', heads, bs, ends, listed, rank, b, x);
  }

  lemma RemoveKeepsNext(mem: seq<nat>, mem': seq<nat>, heads: seq<nat>, bs: Blocks, ends: set<nat>, listed: set<nat>,
                        rank: map<nat, int>, b: nat, x: nat)
    requires Tiled(bs, ends, |mem|) && Lists(mem, heads, bs, listed, rank) && b in listed && b in bs && x in listed &&
      x != b
    requires LinksOk(mem, heads, bs, listed, rank, b) && LinksOk(mem, heads, bs, listed, rank, x) &&
      Removed(mem, mem', b)
    ensures NextOk(mem', bs, listed - {b}, x)
  {
    var p, n := mem[b + 1], mem[b + 2];
    var px, nx := mem[x + 1], mem[x + 2];
    hide BucketOf, Lists, Tiled;
    LinkSpacing(bs, ends, |mem|, b, x, px, nx);
    if p != 0 {
      LinkSpacing(bs, ends, |mem|, p, x, px, nx);
    }
    if n != 0 {
      LinkSpacing(bs, ends, |mem|, n, x, px, nx);
    }
  }

  lemma RemoveKeepsPrev(mem: seq<nat>, mem': seq<nat>, heads: seq<nat>, bs: Blocks, ends: set<nat>, listed: set<nat>,
                        rank: map<nat, int>, b: nat, x: nat)
    requires Tiled(bs, ends, |mem|) && Lists(mem, heads, bs, listed, rank) && b in listed && b in bs && x in listed &&
      x != b
    requires LinksOk(mem, heads, bs, listed, rank, b) && LinksOk(mem, heads, bs, listed, rank, x) &&
      Removed(mem, mem', b)
    ensures PrevOk(mem', RemovedHeads(mem, heads, b, BucketOf(bs, b)), bs, listed - {b}, rank, x)
  {
    var p, n := mem[b + 1], mem[b + 2];
    var px, nx := mem[x + 1], mem[x + 2];
    if n != 0 {
      LinksAt(mem, heads, bs, listed, rank, n);
    }
    hide BucketOf, Lists, Tiled;
    LinkSpacing(bs, ends, |mem|, b, x, px, nx);
    if p != 0 {
      LinkSpacing(bs, ends, |mem|, p, x, px, nx);
    }
    if n != 0 {
      LinkSpacing(bs, ends, |mem|, n, x, px, nx);
    }
  }

  lemma LinksAt(mem: seq<nat>, heads: seq<nat>, bs: Blocks, listed: set<nat>, rank: map<nat, int>, b: nat)
    requires Lists(mem, heads, bs, listed, rank) && b in listed
    ensures LinksOk(mem, heads, bs, listed, rank, b)
  {}

  /** Different blocks keep their link words apart. */
  lemma LinkSpacing(bs: Blocks, ends: set<nat>, n: nat, y: nat, x: nat, px: nat, nx: nat)
    requires Tiled(bs, ends, n) && y in bs && x in bs && (px != 0 ==> px in bs) && (nx != 0 ==> nx in bs)
    ensures y > 0 && x > 0 && (x == y || x + 4 <= y || y + 4 <= x)
    ensures px == 0 || px == y || px + 4 <= y || y + 4 <= px
    ensures nx == 0 || nx == y || nx + 4 <= y || y + 4 <= nx
  {
    Spacing(bs, ends, n, x, y);
    Spacing(bs, ends, n, y, x);
    if px != 0 {
      Spacing(bs, ends, n, px, y);
    }
    if nx != 0 {
      Spacing(bs, ends, n, nx, y);
    }
  }

  // ---- what a list walk meets ----

  /** The i-th block after b along the forward links; 0 past the end. */
  function Hop(mem: seq<nat>, b: nat, i: nat): nat
    decreases i
  {
    if i == 0 then b else if b != 0 && b + 2 < |mem| then Hop(mem, mem[b + 2], i - 1) else 0
  }

  lemma {:induction false} HopOnce(mem: seq<nat>, b: nat, i: nat)
    ensures Hop(mem, b, i + 1) ==
      if Hop(mem, b, i) != 0 && Hop(mem, b, i) + 2 < |mem| then mem[Hop(mem, b, i) + 2] else 0
    decreases i
  {
    if i > 0 && b != 0 && b + 2 < |mem| {
      HopOnce(mem, mem[b + 2], i - 1);
    }
  }

  /** Whatever a walk down list k meets is a listed block of class k. */
  lemma {:induction false} WalkStaysInClass(mem: seq<nat>, heads: seq<nat>, bs: Blocks, listed: set<nat>,
      rank: map<nat, int>, k: nat, i: nat)
    requires Lists(mem, heads, bs, listed, rank) && k < BUCKETS
    ensures var x := Hop(mem, heads[k], i); x != 0 ==> x in listed && x in bs && BucketOf(bs, x) == k
    decreases i
  {
    if i == 0 {
      assert HeadOk(mem, heads, bs, listed, k);
    } else {
      WalkStaysInClass(mem, heads, bs, listed, rank, k, i - 1);
      HopOnce(mem, heads[k], i - 1);
      var x := Hop(mem, heads[k], i - 1);
      if x != 0 {
        LinksAt(mem, heads, bs, listed, rank, x);
      }
    }
  }

  ghost function Lower(listed: set<nat>, rank: map<nat, int>, b: nat): set<nat>
    requires b in rank
  {
    set x | x in listed && x in rank && rank[x] < rank[b]
  }

  /** Every listed block is met on the walk down the list of its class. */
  lemma {:induction false} WalkMeets(mem: seq<nat>, heads: seq<nat>, bs: Blocks, listed: set<nat>, rank: map<nat, int>,
      b: nat) returns (i: nat)
    requires Lists(mem, heads, bs, listed, rank) && b in listed
    ensures b in bs && b in rank && BucketOf(bs, b) < BUCKETS && Hop(mem, heads[BucketOf(bs, b)], i) == b
    decreases if b in rank then |Lower(listed, rank, b)| else 0
  {
    LinksAt(mem, heads, bs, listed, rank, b);
    var p := mem[b + 1];
    if p == 0 {
      return 0;
    }
    assert Lower(listed, rank, p) < Lower(listed, rank, b) by {
      assert p in Lower(listed, rank, b) && p !in Lower(listed, rank, p);
    }
    SmallerSet(Lower(listed, rank, p), Lower(listed, rank, b));
    var j := WalkMeets(mem, heads, bs, listed, rank, p);
    LinksAt(mem, heads, bs, listed, rank, p);
    HopOnce(mem, heads[BucketOf(bs, b)], j);
    return j + 1;
  }

  /** Ranks rise along a walk, so that it never meets a block twice. */
  lemma {:induction false} WalkRises(mem: seq<nat>, heads: seq<nat>, bs: Blocks, listed: set<nat>, rank: map<nat, int>,
      k: nat, i: nat, j: nat)
    requires Lists(mem, heads, bs, listed, rank) && k < BUCKETS && i < j && Hop(mem, heads[k], j) != 0
    ensures
      var x, y := Hop(mem, heads[k], i), Hop(mem, heads[k], j);
      x != 0 && x in rank && y in rank && rank[x] < rank[y]
    decreases j
  {
    HopOnce(mem, heads[k], j - 1);
    var x, y := Hop(mem, heads[k], j - 1), Hop(mem, heads[k], j);
    WalkStaysInClass(mem, heads, bs, listed, rank, k, j - 1);
    LinksAt(mem, heads, bs, listed, rank, x);
    LinksAt(mem, heads, bs, listed, rank, y);
    if i < j - 1 {
      WalkRises(mem, heads, bs, listed, rank, k, i, j - 1);
    }
  }

  lemma SmallerSet(s: set<nat>, t: set<nat>)
    requires s < t
    ensures |s| < |t|
  {
    assert |t - s| == |t| - |s|;
    assert t - s != {};
  }

  // ---- replacing a stretch of blocks ----

  function Replace(bs: Blocks, lo: nat, hi: nat, news: Blocks): Blocks {
    (map c | c in bs && !(lo <= c < hi) :: bs[c]) + news
  }

  /** news tiles the stretch from lo to hi. */
  ghost predicate Fills(news: Blocks, lo: nat, hi: nat) {
    lo < hi && lo in news &&
    (forall b {:trigger Next(news, b)} | b in news ::
       lo <= b && news[b].words >= MIN_WORDS && Next(news, b) <= hi &&
         (Next(news, b) == hi || Next(news, b) in news)) &&
    (forall b, c {:trigger Apart(news, b, c)} | b in news && c in news :: Apart(news, b, c))
  }

  /** lo and hi are block boundaries with no sentinel between them. */
  ghost predicate Stretch(bs: Blocks, ends: set<nat>, lo: nat, hi: nat) {
    lo in bs && lo < hi && (hi in bs || hi in ends) && forall e | e in ends :: e < lo || hi <= e
  }

  lemma OutsideOf(bs: Blocks, ends: set<nat>, n: nat, lo: nat, hi: nat, b: nat)
    requires Tiled(bs, ends, n) && Stretch(bs, ends, lo, hi) && b in bs
    ensures b < lo ==> Next(bs, b) <= lo
    ensures b < hi ==> Next(bs, b) <= hi
  {
    assert Apart(bs, b, lo) && Apart(bs, b, hi);
  }

  lemma ReplacedFits(bs: Blocks, ends: set<nat>, n: nat, lo: nat, hi: nat, news: Blocks, b: nat)
    requires Tiled(bs, ends, n) && Stretch(bs, ends, lo, hi) && Fills(news, lo, hi) && b in Replace(bs, lo, hi, news)
    ensures Fits(Replace(bs, lo, hi, news), ends, n, b)
  {
    var bs' := Replace(bs, lo, hi, news);
    assert Fits(bs, ends, n, lo);
    assert hi < n by {
      if hi in bs {
        assert Fits(bs, ends, n, hi);
      }
    }
    if b in news {
      assert Next(bs', b) == Next(news, b);
    } else {
      assert Fits(bs, ends, n, b);
      OutsideOf(bs, ends, n, lo, hi, b);
    }
  }

  lemma ReplacedApart(bs: Blocks, ends: set<nat>, n: nat, lo: nat, hi: nat, news: Blocks, b: nat, c: nat)
    requires Tiled(bs, ends, n) && Stretch(bs, ends, lo, hi) && Fills(news, lo, hi) && b in Replace(bs, lo, hi, news)
    requires c in Replace(bs, lo, hi, news) || c in ends
    ensures Apart(Replace(bs, lo, hi, news), b, c)
  {
    var bs' := Replace(bs, lo, hi, news);
    if b in news {
      assert Next(bs', b) == Next(news, b);
      if c in news {
        assert Apart(news, b, c);
      }
    } else {
      OutsideOf(bs, ends, n, lo, hi, b);
      if c in news {
        assert Next(news, c) <= hi;
      } else {
        assert Apart(bs, b, c);
      }
    }
  }

  lemma ReplaceKeepsTiled(bs: Blocks, ends: set<nat>, n: nat, lo: nat, hi: nat, news: Blocks)
    requires Tiled(bs, ends, n) && Stretch(bs, ends, lo, hi) && Fills(news, lo, hi)
    ensures Tiled(Replace(bs, lo, hi, news), ends, n)
  {
    var bs' := Replace(bs, lo, hi, news);
    hide Stretch, Fills, Fits, Apart, Replace;
    forall b | b in bs' ensures Fits(bs', ends, n, b) {
      ReplacedFits(bs, ends, n, lo, hi, news, b);
    }
    forall b, c | b in bs' && (c in bs' || c in ends) ensures Apart(bs', b, c) {
      ReplacedApart(bs, ends, n, lo, hi, news, b, c);
    }
  }

  /** Outside the stretch, and but for the header at its end, only links of other blocks change. */
  ghost predicate ChangedOnly(mem: seq<nat>, mem': seq<nat>, links: set<nat>, lo: nat, hi: nat) {
    |mem'| == |mem| &&
    forall w: nat {:trigger mem'[w]} | w < |mem| && !(lo <= w <= hi) :: mem'[w] == mem[w] || IsLink(links, w)
  }

  /** Header and last word of a block are never link words. */
  lemma TagsAreNotLinks(bs: Blocks, ends: set<nat>, n: nat, links: set<nat>, b: nat)
    requires Tiled(bs, ends, n) && (forall x | x in links :: x in bs) && (b in bs || b in ends)
    ensures !IsLink(links, b)
    ensures b in bs ==> Next(bs, b) >= 1 && !IsLink(links, Next(bs, b) - 1)
  {
    forall x | x in links
      ensures x + 1 != b && x + 2 != b && (b in bs ==> x + 1 != Next(bs, b) - 1 && x + 2 != Next(bs, b) - 1) {
      assert Fits(bs, ends, n, x) && Apart(bs, x, b);
      if b in bs {
        assert Fits(bs, ends, n, b) && Apart(bs, b, x);
      }
    }
  }

  /** A new block's header, what follows it, and its previous-free bit unless it starts the stretch. */
  ghost predicate NewOk(mem: seq<nat>, news: Blocks, lo: nat, b: nat)
    requires b in news
  {
    HeaderOk(mem, news, b) && TailOk(mem, news, b) && (b == lo || BackOk(mem, news, b))
  }

  /** The words that a replacement may have changed, and how they must read. */
  ghost predicate Rewritten(mem: seq<nat>, mem': seq<nat>, links: set<nat>, lo: nat, hi: nat, news: Blocks) {
    ChangedOnly(mem, mem', links, lo, hi) && lo < hi < |mem| &&
    SizeOf(mem'[hi]) == SizeOf(mem[hi]) && FreeBit(mem'[hi]) == FreeBit(mem[hi]) &&
    PrevBit(mem'[lo]) == PrevBit(mem[lo]) &&
    (forall b {:trigger NewOk(mem', news, lo, b)} | b in news :: NewOk(mem', news, lo, b)) &&
    BackOk(mem', news, hi)
  }

  lemma ReplaceKeepsEncoded(mem: seq<nat>, mem': seq<nat>, bs: Blocks, ends: set<nat>, links: set<nat>, lo: nat,
      hi: nat, news: Blocks)
    requires Tiled(bs, ends, |mem|) && Stretch(bs, ends, lo, hi) && Fills(news, lo, hi) && Encoded(mem, bs, ends)
    requires (forall x | x in links :: x in bs) && Rewritten(mem, mem', links, lo, hi, news)
    ensures Encoded(mem', Replace(bs, lo, hi, news), ends)
  {
    var bs' := Replace(bs, lo, hi, news);
    hide Tiled, Encoded, Stretch, Rewritten;
    forall b | b in bs' ensures HeaderOk(mem', bs', b) && TailOk(mem', bs', b) {
      ReplacedTags(mem, mem', bs, ends, links, lo, hi, news, b);
    }
    forall e | e in ends ensures EndOk(mem', e) {
      EndStays(mem, mem', bs, ends, links, lo, hi, news, e);
    }
    forall c | c in bs' || c in ends ensures BackOk(mem', bs', c) {
      ReplacedBack(mem, mem', bs, ends, links, lo, hi, news, c);
    }
    EncodedIntro(mem', bs', ends);
  }

  lemma EncodedIntro(mem: seq<nat>, bs: Blocks, ends: set<nat>)
    requires forall b {:trigger HeaderOk(mem, bs, b)} | b in bs :: HeaderOk(mem, bs, b)
    requires forall b {:trigger TailOk(mem, bs, b)} | b in bs :: TailOk(mem, bs, b)
    requires forall e {:trigger EndOk(mem, e)} | e in ends :: EndOk(mem, e)
    requires forall c {:trigger BackOk(mem, bs, c)} | c in bs || c in ends :: BackOk(mem, bs, c)
    ensures Encoded(mem, bs, ends)
  {}

  lemma ReplacedTags(mem: seq<nat>, mem': seq<nat>, bs: Blocks, ends: set<nat>, links: set<nat>, lo: nat, hi: nat,
      news: Blocks, b: nat)
    requires Tiled(bs, ends, |mem|) && Stretch(bs, ends, lo, hi) && Fills(news, lo, hi) && Encoded(mem, bs, ends)
    requires (forall x | x in links :: x in bs) && Rewritten(mem, mem', links, lo, hi, news)
    requires b in Replace(bs, lo, hi, news)
    ensures HeaderOk(mem', Replace(bs, lo, hi, news), b) && TailOk(mem', Replace(bs, lo, hi, news), b)
  {
    if b in news {
      assert NewOk(mem', news, lo, b);
    } else {
      BlockOutside(mem, mem', bs, ends, links, lo, hi, b);
    }
  }

  lemma EndStays(mem: seq<nat>, mem': seq<nat>, bs: Blocks, ends: set<nat>, links: set<nat>, lo: nat, hi: nat,
      news: Blocks, e: nat)
    requires Tiled(bs, ends, |mem|) && Stretch(bs, ends, lo, hi) && Encoded(mem, bs, ends)
    requires (forall x | x in links :: x in bs) && Rewritten(mem, mem', links, lo, hi, news) && e in ends
    ensures EndOk(mem', e)
  {
    assert EndOk(mem, e);
    TagsAreNotLinks(bs, ends, |mem|, links, e);
  }

  lemma ReplacedBack(mem: seq<nat>, mem': seq<nat>, bs: Blocks, ends: set<nat>, links: set<nat>, lo: nat, hi: nat,
      news: Blocks, c: nat)
    requires Tiled(bs, ends, |mem|) && Stretch(bs, ends, lo, hi) && Fills(news, lo, hi) && Encoded(mem, bs, ends)
    requires (forall x | x in links :: x in bs) && Rewritten(mem, mem', links, lo, hi, news)
    requires c in Replace(bs, lo, hi, news) || c in ends
    ensures BackOk(mem', Replace(bs, lo, hi, news), c)
  {
    if c == hi {
      assert BackOk(mem', news, hi);
    } else if c in news && c != lo {
      assert NewOk(mem', news, lo, c);
    } else {
      BackOutside(mem, mem', bs, ends, links, lo, hi, c);
      NewsInside(news, lo, hi);
    }
  }

  lemma NewsInside(news: Blocks, lo: nat, hi: nat)
    requires Fills(news, lo, hi)
    ensures forall b | b in news :: lo <= b < hi
  {
    forall b | b in news ensures lo <= b < hi {
      assert Next(news, b) <= hi && lo <= b;
    }
  }

  lemma BlockOutside(mem: seq<nat>, mem': seq<nat>, bs: Blocks, ends: set<nat>, links: set<nat>, lo: nat, hi: nat,
      b: nat)
    requires Tiled(bs, ends, |mem|) && Stretch(bs, ends, lo, hi) && Encoded(mem, bs, ends)
    requires (forall x | x in links :: x in bs) && ChangedOnly(mem, mem', links, lo, hi) && hi < |mem|
    requires SizeOf(mem'[hi]) == SizeOf(mem[hi]) && FreeBit(mem'[hi]) == FreeBit(mem[hi])
    requires PrevBit(mem'[lo]) == PrevBit(mem[lo])
    requires b in bs && !(lo <= b < hi)
    ensures HeaderOk(mem', bs, b) && TailOk(mem', bs, b)
  {
    assert HeaderOk(mem, bs, b) && TailOk(mem, bs, b) && Fits(bs, ends, |mem|, b);
    TagsAreNotLinks(bs, ends, |mem|, links, b);
    TagsAreNotLinks(bs, ends, |mem|, links, Next(bs, b));
    OutsideOf(bs, ends, |mem|, lo, hi, b);
  }

  lemma BackOutside(mem: seq<nat>, mem': seq<nat>, bs: Blocks, ends: set<nat>, links: set<nat>, lo: nat, hi: nat,
      c: nat)
    requires Tiled(bs, ends, |mem|) && Stretch(bs, ends, lo, hi) && Encoded(mem, bs, ends)
    requires (forall x | x in links :: x in bs) && ChangedOnly(mem, mem', links, lo, hi) && hi < |mem|
    requires PrevBit(mem'[lo]) == PrevBit(mem[lo])
    requires (c in bs || c in ends) && (c == lo || !(lo <= c <= hi))
    ensures BackOk(mem', bs, c)
    ensures PrevBit(mem'[c]) ==> !(lo <= mem'[c - 1] < hi)
  {
    assert BackOk(mem, bs, c);
    TagsAreNotLinks(bs, ends, |mem|, links, c);
    if PrevBit(mem[c]) {
      var p := mem[c - 1];
      TagsAreNotLinks(bs, ends, |mem|, links, p);
      OutsideOf(bs, ends, |mem|, lo, hi, p);
      assert Fits(bs, ends, |mem|, p);
    }
  }

  /** The lists live on when only unlisted blocks are replaced. */
  lemma ReplaceKeepsLists(mem: seq<nat>, mem': seq<nat>, heads: seq<nat>, bs: Blocks, bs': Blocks, listed: set<nat>,
      rank: map<nat, int>)
    requires Lists(mem, heads, bs, listed, rank) && |mem'| == |mem|
    requires forall b | b in listed :: b in bs' && b in bs && bs'[b].words == bs[b].words
    requires forall b: nat | b in listed && b + 2 < |mem| :: mem'[b + 1] == mem[b + 1] && mem'[b + 2] == mem[b + 2]
    ensures Lists(mem', heads, bs', listed, rank)
  {
    forall b | b in listed ensures LinksOk(mem', heads, bs', listed, rank, b) {
      LinksAt(mem, heads, bs, listed, rank, b);
    }
    forall k: nat | k < BUCKETS ensures HeadOk(mem', heads, bs', listed, k) {
      assert HeadOk(mem, heads, bs, listed, k);
    }
  }

  /** No word from the header of an unlisted block to the header after it is a link word. */
  lemma InsideIsNotLink(bs: Blocks, ends: set<nat>, n: nat, links: set<nat>, b: nat, w: nat)
    requires Tiled(bs, ends, n) && (forall x | x in links :: x in bs) && b in bs && b !in links && b <= w <= Next(bs, b)
    ensures !IsLink(links, w)
  {
    forall x | x in links ensures x + 1 != w && x + 2 != w {
      assert Fits(bs, ends, n, x) && Fits(bs, ends, n, b) && Apart(bs, x, b) && Apart(bs, b, x);
    }
  }

  /** Which free blocks may stand next to the new ones. */
  ghost predicate Quiet(bs: Blocks, lo: nat, hi: nat, news: Blocks) {
    (forall c {:trigger Next(news, c)} | c in news && news[c].free ::
       (Next(news, c) in news ==> !news[Next(news, c)].free) && (Next(news, c) == hi && hi in bs ==> !bs[hi].free)) &&
    (lo in news && news[lo].free ==> forall p {:trigger Next(bs, p)} | p in bs && Next(bs, p) == lo :: !bs[p].free)
  }

  lemma ReplaceKeepsNoFreeNeighbours(bs: Blocks, ends: set<nat>, n: nat, lo: nat, hi: nat, news: Blocks)
    requires Tiled(bs, ends, n) && Stretch(bs, ends, lo, hi) && Fills(news, lo, hi)
    requires NoFreeNeighbours(bs) && Quiet(bs, lo, hi, news)
    ensures NoFreeNeighbours(Replace(bs, lo, hi, news))
  {
    var bs' := Replace(bs, lo, hi, news);
    NewsInside(news, lo, hi);
    forall b | b in bs' && bs'[b].free && Next(bs', b) in bs' ensures !bs'[Next(bs', b)].free {
      if b in news {
        assert Next(bs', b) == Next(news, b);
      } else {
        OutsideOf(bs, ends, n, lo, hi, b);
        assert Next(bs', b) == Next(bs, b);
      }
    }
  }

  /** Everything that a finished replacement of blocks lo..hi by news leaves right. */
  lemma Carved(mem: seq<nat>, mem': seq<nat>, heads: seq<nat>, bs: Blocks, ends: set<nat>, was: set<nat>,
      listed: set<nat>,
               rank: map<nat, int>, lo: nat, hi: nat, news: Blocks)
    requires Tiled(bs, ends, |mem|) && Encoded(mem, bs, ends) && NoFreeNeighbours(bs) &&
      (forall x | x in was :: x in bs)
    requires Stretch(bs, ends, lo, hi) && Fills(news, lo, hi) && Quiet(bs, lo, hi, news)
    requires Rewritten(mem, mem', was, lo, hi, news) && Lists(mem', heads, bs, listed, rank)
    requires forall x | x in listed :: x in bs && !(lo <= x < hi)
    ensures
      var bs' := Replace(bs, lo, hi, news);
      Tiled(bs', ends, |mem|) && Encoded(mem', bs', ends) && NoFreeNeighbours(bs') &&
        Lists(mem', heads, bs', listed, rank) &&
      (forall x | x in listed :: x in bs')
  {
    ReplaceKeepsTiled(bs, ends, |mem|, lo, hi, news);
    ReplaceKeepsEncoded(mem, mem', bs, ends, was, lo, hi, news);
    ReplaceKeepsNoFreeNeighbours(bs, ends, |mem|, lo, hi, news);
    NewsInside(news, lo, hi);
    hide Tiled, Encoded, NoFreeNeighbours, Fills, Stretch, Lists, Rewritten, Quiet;
    assert |mem'| == |mem| by { RewrittenLength(mem, mem', was, lo, hi, news); }
    ReplaceKeepsLists(mem', mem', heads, bs, Replace(bs, lo, hi, news), listed, rank);
  }

  lemma RewrittenLength(mem: seq<nat>, mem': seq<nat>, links: set<nat>, lo: nat, hi: nat, news: Blocks)
    requires Rewritten(mem, mem', links, lo, hi, news)
    ensures |mem'| == |mem|
  {}

  // ---- a new pool ----

  /** Words lo to hi lie between the pools. */
  ghost predicate Unused(bs: Blocks, ends: set<nat>, lo: nat, hi: nat) {
    (forall b {:trigger Next(bs, b)} | b in bs :: Next(bs, b) < lo || hi <= b) &&
      (forall e {:trigger e in ends} | e in ends :: e < lo || hi <= e)
  }

  /** A region read as one free block and the sentinel after it. */
  ghost predicate PoolTags(mem: seq<nat>, mem': seq<nat>, lo: nat, s: nat) {
    lo < s < |mem| && |mem'| == |mem| &&
      (forall w: nat {:trigger mem'[w]} | w < |mem| && !(lo <= w <= s) :: mem'[w] == mem[w]) &&
    SizeOf(mem'[lo]) == 8 * (s - lo - 1) && FreeBit(mem'[lo]) && !PrevBit(mem'[lo]) &&
    mem'[s - 1] == lo && EndOk(mem', s) && PrevBit(mem'[s])
  }

  lemma PoolAdded(mem: seq<nat>, mem': seq<nat>, bs: Blocks, ends: set<nat>, lo: nat, s: nat)
    requires Tiled(bs, ends, |mem|) && Encoded(mem, bs, ends) && NoFreeNeighbours(bs)
    requires 0 < lo && lo + MIN_WORDS < s && Unused(bs, ends, lo, s + 2) && PoolTags(mem, mem', lo, s)
    ensures
      var bs', ends' := bs[lo := Block(s - lo - 1, true)], ends + {s};
      lo !in bs && s !in ends && Tiled(bs', ends', |mem|) && Encoded(mem', bs', ends') && NoFreeNeighbours(bs')
  {
    var bs', ends' := bs[lo := Block(s - lo - 1, true)], ends + {s};
    assert lo in bs ==> Next(bs, lo) > lo;
    PoolTiled(bs, ends, |mem|, lo, s);
    forall b | b in bs' ensures HeaderOk(mem', bs', b) && TailOk(mem', bs', b) {
      if b != lo {
        PoolKeepsBlock(mem, mem', bs, ends, lo, s, b);
      }
    }
    forall c | c in bs' || c in ends' ensures BackOk(mem', bs', c) {
      if c != lo && c != s {
        PoolKeepsBack(mem, mem', bs, ends, lo, s, c);
      }
    }
    forall e | e in ends' ensures EndOk(mem', e) {
      assert e in ends ==> EndOk(mem, e);
    }
    hide Tiled, HeaderOk, TailOk, BackOk, EndOk, PoolTags;
    EncodedIntro(mem', bs', ends');
    forall b | b in bs' && bs'[b].free && Next(bs', b) in bs' ensures !bs'[Next(bs', b)].free {
      assert b != lo ==> Next(bs, b) == Next(bs', b);
      assert s in bs ==> Next(bs, s) > s;
    }
  }

  lemma PoolTiled(bs: Blocks, ends: set<nat>, n: nat, lo: nat, s: nat)
    requires Tiled(bs, ends, n) && 0 < lo && lo + MIN_WORDS < s < n && Unused(bs, ends, lo, s + 2)
    ensures Tiled(bs[lo := Block(s - lo - 1, true)], ends + {s}, n)
  {
    var bs', ends' := bs[lo := Block(s - lo - 1, true)], ends + {s};
    forall b | b in bs' ensures Fits(bs', ends', n, b) {
      if b in bs {
        assert Fits(bs, ends, n, b) && Next(bs, b) != lo;
      }
    }
    forall b, c | b in bs' && (c in bs' || c in ends') ensures Apart(bs', b, c) {
      if b in bs && (c in bs || c in ends) {
        assert Apart(bs, b, c) && Next(bs, b) != lo;
      } else if c in bs {
        assert Next(bs, c) > c;
      } else if b in bs {
        assert Next(bs, b) > b;
      }
    }
  }

  lemma PoolKeepsBlock(mem: seq<nat>, mem': seq<nat>, bs: Blocks, ends: set<nat>, lo: nat, s: nat, b: nat)
    requires Tiled(bs, ends, |mem|) && Encoded(mem, bs, ends) && b in bs && b != lo
    requires Unused(bs, ends, lo, s + 2) && PoolTags(mem, mem', lo, s)
    ensures var bs' := bs[lo := Block(s - lo - 1, true)]; HeaderOk(mem', bs', b) && TailOk(mem', bs', b)
  {
    assert Fits(bs, ends, |mem|, b) && HeaderOk(mem, bs, b) && TailOk(mem, bs, b);
  }

  lemma PoolKeepsBack(mem: seq<nat>, mem': seq<nat>, bs: Blocks, ends: set<nat>, lo: nat, s: nat, c: nat)
    requires Tiled(bs, ends, |mem|) && Encoded(mem, bs, ends) && (c in bs || c in ends) && lo !in bs
    requires Unused(bs, ends, lo, s + 2) && PoolTags(mem, mem', lo, s)
    ensures BackOk(mem', bs[lo := Block(s - lo - 1, true)], c)
  {
    assert BackOk(mem, bs, c);
    assert c in bs ==> Next(bs, c) > c;
  }

  /** A whole stretch as one block. */
  lemma FillsOne(lo: nat, hi: nat, f: bool)
    requires hi >= lo + 1 + MIN_WORDS
    ensures Fills(map[lo := Block(hi - lo - 1, f)], lo, hi)
  {}

  /** A stretch cut in two at m. */
  lemma FillsTwo(lo: nat, m: nat, hi: nat, f: bool, g: bool)
    requires m >= lo + 1 + MIN_WORDS && hi >= m + 1 + MIN_WORDS
    ensures Fills(map[lo := Block(m - lo - 1, f), m := Block(hi - m - 1, g)], lo, hi)
  {}
}
