/** The TLSF allocator of mm/tlsf.c over its memory, free-list heads and bitmaps. */
module Tlsf {
  import opened TlsfMapping
  import opened TlsfHeap

  predicate IsLowest(bits: set<nat>, low: nat) {
    low in bits && forall x | x in bits :: low <= x
  }

  /** bsf: the lowest set bit of a non-empty bitmap. */
  function Ffs(bits: set<nat>): (low: nat)
    requires bits != {}
    ensures IsLowest(bits, low)
  {
    LowestExists(bits);
    var low :| IsLowest(bits, low);
    low
  }

  lemma {:induction false} LowestExists(bits: set<nat>)
    requires bits != {}
    ensures exists low :: IsLowest(bits, low)
    decreases |bits|
  {
    var a :| a in bits;
    var rest := bits - {a};
    if rest == {} {
      assert bits == rest + {a};
      assert IsLowest(bits, a);
    } else {
      LowestExists(rest);
      var low :| IsLowest(rest, low);
      var m := if a < low then a else low;
      forall x | x in bits ensures m <= x {
        assert x == a || x in rest;
      }
      assert IsLowest(bits, m);
    }
  }

  /** The bits of a map from position k up: the mask of the source's shifted ones. */
  function BitsFrom(bits: set<nat>, k: nat): set<nat> {
    set x | x in bits && x >= k
  }

  lemma NoBitsFrom(bits: set<nat>, k: nat)
    requires BitsFrom(bits, k) == {}
    ensures forall x | x in bits :: x < k
  {
    forall x | x in bits ensures x < k {
      assert x >= k ==> x in BitsFrom(bits, k);
    }
  }

  ghost function FreeBlocks(bs: Blocks): set<nat> {
    set b | b in bs && bs[b].free
  }

  /** Only link words of the given blocks differ. */
  ghost predicate OnlyLinks(mem: seq<nat>, mem': seq<nat>, links: set<nat>) {
    |mem'| == |mem| && forall w: nat {:trigger mem'[w]} | w < |mem| :: mem'[w] == mem[w] || IsLink(links, w)
  }

  lemma LinksKeepEncoded(mem: seq<nat>, mem': seq<nat>, bs: Blocks, ends: set<nat>, links: set<nat>)
    requires Tiled(bs, ends, |mem|) && Encoded(mem, bs, ends) && OnlyLinks(mem, mem', links) &&
      forall x | x in links :: x in bs
    ensures Encoded(mem', bs, ends)
  {
    forall b | b in bs ensures HeaderOk(mem', bs, b) && TailOk(mem', bs, b) {
      assert HeaderOk(mem, bs, b) && TailOk(mem, bs, b) && Fits(bs, ends, |mem|, b);
      TagsAreNotLinks(bs, ends, |mem|, links, b);
      TagsAreNotLinks(bs, ends, |mem|, links, Next(bs, b));
    }
    forall e | e in ends ensures EndOk(mem', e) {
      assert EndOk(mem, e);
      TagsAreNotLinks(bs, ends, |mem|, links, e);
    }
    forall c | c in bs || c in ends ensures BackOk(mem', bs, c) {
      assert BackOk(mem, bs, c);
      TagsAreNotLinks(bs, ends, |mem|, links, c);
      if PrevBit(mem[c]) {
        TagsAreNotLinks(bs, ends, |mem|, links, mem[c - 1]);
      }
    }
  }

  // ---- bitmaps ----

  lemma BucketSplits(c: Class, d: Class)
    requires c.sl < SL_COUNT && d.sl < SL_COUNT
    ensures Bucket(c) == Bucket(d) <==> c == d
  {}

  lemma BitSetWhereHead(heads: seq<nat>, rows: set<nat>, columns: seq<set<nat>>, c: Class, b: nat)
    requires BitsOk(heads, rows, columns) && c.fl < FL_COUNT && c.sl < SL_COUNT && b != 0
    ensures Bucket(c) < BUCKETS
    ensures BitsOk(heads[Bucket(c) := b], rows + {c.fl}, columns[c.fl := columns[c.fl] + {c.sl}])
  {
    forall fl: nat, sl: nat | fl < FL_COUNT && sl < SL_COUNT
      ensures Bucket(Class(fl, sl)) == Bucket(c) <==> Class(fl, sl) == c {
      BucketSplits(Class(fl, sl), c);
    }
  }

  lemma BitClearedWhereNone(heads: seq<nat>, rows: set<nat>, columns: seq<set<nat>>, c: Class)
    requires BitsOk(heads, rows, columns) && c.fl < FL_COUNT && c.sl < SL_COUNT
    ensures Bucket(c) < BUCKETS
    ensures
      var column := columns[c.fl] - {c.sl};
      BitsOk(heads[Bucket(c) := 0], if column == {} then rows - {c.fl} else rows, columns[c.fl := column])
  {
    forall fl: nat, sl: nat | fl < FL_COUNT && sl < SL_COUNT
      ensures Bucket(Class(fl, sl)) == Bucket(c) <==> Class(fl, sl) == c {
      BucketSplits(Class(fl, sl), c);
    }
  }

  /** The block at the head of the first list with one, from list k on; 0 when there is none. */
  function FirstHead(heads: seq<nat>, k: nat): (b: nat)
    ensures b == 0 <==> forall j: nat {:trigger heads[j]} | k <= j < |heads| :: heads[j] == 0
    decreases |heads| - k
  {
    if k >= |heads| then 0 else if heads[k] != 0 then heads[k] else FirstHead(heads, k + 1)
  }

  lemma {:induction false} FirstHeadAt(heads: seq<nat>, k: nat, j: nat)
    requires k <= j < |heads| && heads[j] != 0 && forall i: nat {:trigger heads[i]} | k <= i < j :: heads[i] == 0
    ensures FirstHead(heads, k) == heads[j]
    decreases j - k
  {
    if k < j {
      FirstHeadAt(heads, k + 1, j);
    }
  }

  lemma BitOfHead(heads: seq<nat>, rows: set<nat>, columns: seq<set<nat>>, i: nat)
    requires BitsOk(heads, rows, columns) && i < BUCKETS
    ensures i / 16 < FL_COUNT && i % 16 < 16 && (heads[i] != 0 <==> i % 16 in columns[i / 16])
    ensures heads[i] != 0 ==> i / 16 in rows
  {
    assert Bucket(Class(i / 16, i % 16)) == i;
  }

  /** The lowest column of the search's row, or else the lowest one of the next row that has any, is the first list
      with a head at or above the class where the search starts. */
  lemma LowestBitIsFirst(heads: seq<nat>, rows: set<nat>, columns: seq<set<nat>>, c: Class, d: Class)
    requires BitsOk(heads, rows, columns) && c.fl <= d.fl < FL_COUNT && c.sl < SL_COUNT && d.sl in columns[d.fl]
    requires if c.fl == d.fl then IsLowest(BitsFrom(columns[c.fl], c.sl), d.sl)
             else
               BitsFrom(columns[c.fl], c.sl) == {} && IsLowest(BitsFrom(rows, c.fl + 1), d.fl) &&
               IsLowest(columns[d.fl], d.sl)
    ensures Bucket(d) < BUCKETS && FirstHead(heads, Bucket(c)) == heads[Bucket(d)] && AtLeast(d, c)
  {
    assert d.sl < SL_COUNT && heads[Bucket(d)] != 0;
    var here, above := BitsFrom(columns[c.fl], c.sl), BitsFrom(rows, c.fl + 1);
    forall i: nat | Bucket(c) <= i < Bucket(d) ensures heads[i] == 0 {
      BitOfHead(heads, rows, columns, i);
      var fl, sl := i / 16, i % 16;
      var column := columns[fl];
      assert c.fl <= fl <= d.fl && (fl == c.fl ==> sl >= c.sl) && (fl == d.fl ==> sl < d.sl);
      assert fl == c.fl && sl in column ==> sl in here;
      assert fl > c.fl && fl in rows ==> fl in above;
    }
    FirstHeadAt(heads, Bucket(c), Bucket(d));
  }

  lemma NoBitNoHead(heads: seq<nat>, rows: set<nat>, columns: seq<set<nat>>, c: Class)
    requires BitsOk(heads, rows, columns) && c.fl < FL_COUNT && c.sl < SL_COUNT
    requires BitsFrom(columns[c.fl], c.sl) == {} && BitsFrom(rows, c.fl + 1) == {}
    ensures FirstHead(heads, Bucket(c)) == 0
  {
    forall i: nat | Bucket(c) <= i < BUCKETS ensures heads[i] == 0 {
      BitOfHead(heads, rows, columns, i);
      NoBitsFrom(columns[c.fl], c.sl);
      NoBitsFrom(rows, c.fl + 1);
    }
  }

  // ---- what an allocation comes to ----

  /** What tlsf_malloc comes to. In the last three cases the source leaves the heap behind: it reads a bitmap and a
      list beyond the table; or it splits a block no larger than what it splits off, where the 32-bit remainder wraps
      around and the rest is written beyond the block; or it splits off less than the smallest payload. */
  datatype AllocResult = Null | Ptr(p: nat) | OutOfTable | WildSplit | Undersized

  /** What the split of block b at need bytes comes to. */
  function OutcomeAt(bs: Blocks, b: nat, need: nat): AllocResult
    requires b in bs
  {
    if Bytes(bs, b) <= need then WildSplit
    else if need < 24 && Bytes(bs, b) >= need + 32 then Undersized
    else Ptr(b + 1)
  }

  /** The remainder that split_block computes, in 32-bit unsigned arithmetic. */
  function Remain(blockBytes: nat, size: nat): nat {
    (blockBytes - size - 8) % WORD
  }

  /** The remainder is what is left after the header exactly when the block is larger than the size split off;
      otherwise it wraps around and is always large enough for a split. */
  lemma RemainExact(blockBytes: nat, size: nat)
    requires 24 <= blockBytes < 0x200_0000 && blockBytes % 8 == 0 && size % 8 == 0 && size <= LAST_WRAPPED_INSIDE
    ensures Remain(blockBytes, size) == blockBytes - size - 8 <==> blockBytes > size
    ensures blockBytes <= size ==> Remain(blockBytes, size) == WORD + blockBytes - size - 8 >= 24
  {}

  /** The word where the split writes the footer of the rest. */
  function FooterOfRest(bs: Blocks, b: nat, need: nat): nat
    requires b in bs
  {
    b + 1 + need / 8 + Remain(Bytes(bs, b), need) / 8
  }

  /** In the wild split the rest begins at or behind the end of the block, and its footer lies outside the memory; in
      every other split both lie inside the block. */
  lemma WildSplitLeaves(bs: Blocks, ends: set<nat>, n: nat, b: nat, need: nat)
    requires Tiled(bs, ends, n) && b in bs && need % 8 == 0 && need <= LAST_WRAPPED_INSIDE
    ensures OutcomeAt(bs, b, need) == WildSplit ==>
      Remain(Bytes(bs, b), need) >= 24 && b + 1 + need / 8 >= Next(bs, b) && FooterOfRest(bs, b, need) >= n
    ensures OutcomeAt(bs, b, need) != WildSplit && Remain(Bytes(bs, b), need) >= 24 ==>
      b + 1 + need / 8 < FooterOfRest(bs, b, need) == Next(bs, b) - 1 < n
  {
    assert Fits(bs, ends, n, b);
    RemainExact(Bytes(bs, b), need);
    hide Tiled, Remain;
  }

  /** The blocks that an allocation of size bytes makes of block b. */
  function Carve(bs: Blocks, b: nat, size: nat): Blocks
    requires b in bs && size <= Bytes(bs, b)
  {
    var w := size / 8;
    var m := b + 1 + w;
    if bs[b].words >= w + 1 + MIN_WORDS
    then map[b := Block(w, false), m := Block(bs[b].words - w - 1, true)]
    else map[b := Block(bs[b].words, false)]
  }

  /** What an allocation makes of a block: one in use, as large as asked for and less than 32 bytes larger, and behind
      it, if there is room for a header and 24 bytes, a free one of all the rest. */
  lemma CarveMeans(bs: Blocks, b: nat, need: nat)
    requires b in bs && need % 8 == 0 && need <= Bytes(bs, b)
    ensures
      var news := Carve(bs, b, need);
      var rest := Next(news, b);
      b in news && !news[b].free && need <= Bytes(news, b) < need + 32 &&
      if Bytes(bs, b) >= need + 32
      then Bytes(news, b) == need && rest in news && news[rest].free && news.Keys == {b, rest} &&
           Next(news, rest) == Next(bs, b)
      else news.Keys == {b} && rest == Next(bs, b)
  {}

  class Heap {
    const mem: array<nat>
    const heads: array<nat>
    const columns: array<set<nat>>
    var rows: set<nat>

    ghost var blocks: Blocks
    ghost var ends: set<nat>
    ghost var listed: set<nat>
    ghost var rank: map<nat, int>

    /** Blocks tile the pools, and the lists and bitmaps agree on the listed ones. */
    ghost predicate Filed()
      reads this, mem, heads, columns
    {
      mem != heads && heads.Length == BUCKETS && columns.Length == FL_COUNT &&
      Tiled(blocks, ends, mem.Length) && Lists(mem[..], heads[..], blocks, listed, rank) &&
        BitsOk(heads[..], rows, columns[..]) &&
      listed <= blocks.Keys
    }

    ghost predicate Valid()
      reads this, mem, heads, columns
    {
      Filed() && Encoded(mem[..], blocks, ends) && NoFreeNeighbours(blocks) && listed == FreeBlocks(blocks)
    }

    /** fl_sl_set. */
    method MarkClass(c: Class)
      requires columns.Length == FL_COUNT && c.fl < FL_COUNT
      modifies columns, `rows
      ensures rows == old(rows) + {c.fl}
      ensures columns[..] == old(columns[..])[c.fl := old(columns[..])[c.fl] + {c.sl}]
    {
      columns[c.fl] := columns[c.fl] + {c.sl};
      rows := rows + {c.fl};
    }

    /** fl_sl_clear. */
    method ClearClass(c: Class)
      requires columns.Length == FL_COUNT && c.fl < FL_COUNT
      modifies columns, `rows
      ensures columns[..] == old(columns[..])[c.fl := old(columns[..])[c.fl] - {c.sl}]
      ensures rows == if columns[..][c.fl] == {} then old(rows) - {c.fl} else old(rows)
    {
      columns[c.fl] := columns[c.fl] - {c.sl};
      if columns[c.fl] == {} {
        rows := rows - {c.fl};
      }
    }

    /** The pointer writes of insert_block. */
    method LinkAtHead(b: nat, k: nat)
      requires mem != heads && heads.Length == BUCKETS && k < BUCKETS && b + 2 < mem.Length
      requires heads[k] == 0 || heads[k] + 1 < mem.Length
      modifies mem, heads
      ensures Inserted(old(mem[..]), mem[..], old(heads[..])[k], b) && heads[..] == old(heads[..])[k := b]
    {
      mem[b + 2] := heads[k];
      mem[b + 1] := 0;
      if heads[k] != 0 {
        mem[heads[k] + 1] := b;
      }
      heads[k] := b;
    }

    /** The pointer writes of remove_block. */
    method Unlink(b: nat, k: nat)
      requires mem != heads && heads.Length == BUCKETS && k < BUCKETS && b + 2 < mem.Length
      requires (mem[b + 1] == 0 || mem[b + 1] + 2 < mem.Length) && (mem[b + 2] == 0 || mem[b + 2] + 1 < mem.Length)
      requires mem[b + 1] + 2 != b + 2
      modifies mem, heads
      ensures Removed(old(mem[..]), mem[..], b) && heads[..] == RemovedHeads(old(mem[..]), old(heads[..]), b, k)
    {
      var p, n := mem[b + 1], mem[b + 2];
      if p != 0 {
        mem[p + 2] := n;
      } else {
        heads[k] := n;
      }
      if n != 0 {
        mem[n + 1] := p;
      }
    }

    /** Files a block at the head of the list of its class. */
    method InsertBlock(b: nat)
      requires Filed() && b in blocks && b !in listed && b < mem.Length && SizeOf(mem[b]) == Bytes(blocks, b)
      modifies mem, heads, columns, `rows, `listed, `rank
      ensures Filed() && listed == old(listed) + {b}
      ensures OnlyLinks(old(mem[..]), mem[..], listed)
    {
      var c := MapInsert(SizeOf(mem[b]));
      var k := Bucket(c);
      InBucket(blocks, ends, mem.Length, b);
      ClassInTable(SizeOf(mem[b]));
      Spacing(blocks, ends, mem.Length, b, b);
      assert HeadOk(mem[..], heads[..], blocks, listed, k);
      BitSetWhereHead(heads[..], rows, columns[..], c, b);
      hide Tiled, Lists, BitsOk, MapInsert;
      ghost var mem0, heads0 := mem[..], heads[..];
      LinkAtHead(b, k);
      MarkClass(c);
      InsertKeepsLists(mem0, mem[..], heads0, blocks, ends, listed, rank, b);
      listed, rank := listed + {b}, rank[b := RankAtHead(rank, heads0[k])];
      InsertedIsLinks(mem0, mem[..], heads0[k], b, listed);
    }

    /** Takes a block out of the list it is on. */
    method RemoveBlock(b: nat)
      requires Filed() && b in listed && b < mem.Length && SizeOf(mem[b]) == Bytes(blocks, b)
      modifies mem, heads, columns, `rows, `listed
      ensures Filed() && listed == old(listed) - {b}
      ensures OnlyLinks(old(mem[..]), mem[..], old(listed))
    {
      var c := MapInsert(SizeOf(mem[b]));
      var k := Bucket(c);
      InBucket(blocks, ends, mem.Length, b);
      ClassInTable(SizeOf(mem[b]));
      LinksAt(mem[..], heads[..], blocks, listed, rank, b);
      ListedHasHead(mem[..], heads[..], blocks, ends, listed, rank, b);
      BitsAfterRemoval(mem[..], heads[..], rows, columns[..], c, b);
      PrevIsOther(mem[..], heads[..], blocks, listed, rank, b);
      hide Tiled, Lists, BitsOk, MapInsert;
      ghost var mem0, heads0 := mem[..], heads[..];
      Unlink(b, k);
      if heads[k] == 0 {
        ClearClass(c);
      }
      assert heads[..][k] == heads[k];
      RemoveKeepsLists(mem0, mem[..], heads0, blocks, ends, listed, rank, b);
      RemovedIsLinks(mem0, mem[..], heads0, blocks, listed, rank, b);
      listed := listed - {b};
    }

    /** find_suitable, for a 32-bit size: the two bitmap levels lead to the first list with a head at or above the
        class of the rounded size. The block is large enough exactly when the size is at most 2^25 - 2^20. */
    method FindSuitable(size: nat) returns (b: nat)
      requires Filed() && size < WORD && SearchStays(size)
      ensures b == FirstHead(heads[..], Bucket(MapSearch(size)))
      ensures b == 0 ==> forall x | x in listed :: Bytes(blocks, x) < RoundUp(size)
      ensures b != 0 ==> b in listed && (Bytes(blocks, b) >= size <==> size <= MAX_REQUEST)
    {
      var c := MapSearch(size);
      SearchInTable(size);
      ClassInTable(RoundUp(size));
      hide Tiled, Lists, MapInsert, RoundUp, Bytes;
      var fl := c.fl;
      var column := BitsFrom(columns[fl], c.sl);
      if column == {} {
        var higher := BitsFrom(rows, fl + 1);
        if higher == {} {
          NoBitsFrom(columns[..][fl], c.sl);
          NoBitsFrom(rows, fl + 1);
          NoBitNoHead(heads[..], rows, columns[..], c);
          forall x | x in listed ensures Bytes(blocks, x) < RoundUp(size) {
            NotSearched(mem[..], heads[..], rows, columns[..], blocks, ends, listed, rank, size, x);
          }
          return 0;
        }
        fl := Ffs(higher);
        column := columns[fl];
      }
      assert columns[..][fl] == columns[fl];
      var sl := Ffs(column);
      LowestBitIsFirst(heads[..], rows, columns[..], c, Class(fl, sl));
      b := heads[Bucket(Class(fl, sl))];
      HeadIsEnough(mem[..], heads[..], rows, columns[..], blocks, ends, listed, rank, size, Class(fl, sl));
    }

    /** Writes a word that is nobody's link. */
    method WriteTag(w: nat, v: nat)
      requires Filed() && w < mem.Length && !IsLink(listed, w)
      modifies mem
      ensures Filed() && mem[..] == old(mem[..])[w := v]
    {
      hide Tiled, BitsOk;
      mem[w] := v;
      KeepLists(old(mem[..]), mem[..], heads[..], blocks, listed, rank, w);
    }

    /** The block that a request comes to: the head of the first list with one at or above the class where the search
        starts; 0 when there is none, or nothing to search. */
    ghost function Choice(size: nat): nat
      reads heads
    {
      if size == 0 || !SearchStays(Searched(size)) then 0 else FirstHead(heads[..], Bucket(MapSearch(Searched(size))))
    }

    /** What a request comes to, told from the block it comes to. */
    ghost function Outcome(size: nat): (r: AllocResult)
      reads heads, `blocks
    {
      var b := Choice(size);
      if size > 0 && !SearchStays(Searched(size)) then OutOfTable
      else if b == 0 || b !in blocks then Null
      else OutcomeAt(blocks, b, Searched(size))
    }

    /** What is known once the search has come to a block. */
    lemma ChoiceFits(size: nat)
      requires Valid() && size < SIZE && Choice(size) != 0
      ensures
        var b := Choice(size);
        b in blocks && blocks[b].free && b in listed && (Bytes(blocks, b) >= size <==> size <= MAX_REQUEST) &&
        AtLeast(MapInsert(Bytes(blocks, b)), MapSearch(Searched(size))) &&
        Outcome(size) == OutcomeAt(blocks, b, Searched(size))
    {
      var c := MapSearch(Searched(size));
      FirstHeadListed(mem[..], heads[..], blocks, listed, rank, Bucket(c));
      var b := Choice(size);
      assert Fits(blocks, ends, mem.Length, b);
      ClassInTable(Bytes(blocks, b));
      ClassInTable(RoundUp(Searched(size)));
      GoodFitForRequests(size, Bytes(blocks, b));
      hide Searched, MapInsert, SearchStays, FirstHead, OutcomeAt;
    }

    /** What is known when the search begins. */
    lemma SearchBegins(size: nat)
      requires Valid() && 0 < size < SIZE
      ensures
        var need := Searched(size);
        Filed() && need < WORD && need % 8 == 0 && (SearchStays(need) ==> need <= LAST_WRAPPED_INSIDE) &&
        (if SearchStays(need) then Choice(size) == FirstHead(heads[..], Bucket(MapSearch(need)))
         else Outcome(size) == OutOfTable) &&
        (SearchStays(need) && Choice(size) == 0 ==> Outcome(size) == Null)
    {
      SearchedFor(size);
      SearchInTable(Searched(size));
      hide Searched, MapInsert, FirstHead, OutcomeAt, Tiled, Lists, BitsOk;
    }

    /** tlsf_malloc, for every size_t request. The outcome is told from the state before the call. A block that is
        handed out was free, is as large as the request exactly when that is at most 2^25 - 2^20, and has been
        carved; the rest of the heap stays as it was, and no live payload changes. */
    method Malloc(size: nat) returns (r: AllocResult)
      requires Valid() && size < SIZE
      modifies this, mem, heads, columns
      ensures r == old(Outcome(size))
      ensures r.Null? ==> Valid() && blocks == old(blocks) && ends == old(ends) && mem[..] == old(mem[..])
      ensures r.WildSplit? ==> FooterOfRest(old(blocks), old(Choice(size)), Searched(size)) >= mem.Length
      ensures r.Null? && size > 0 ==> forall x | x in old(listed) :: Bytes(old(blocks), x) < RoundUp(Searched(size))
      ensures r.Ptr? ==>
        var b := old(Choice(size));
        b in old(listed) && b in old(blocks) && r.p == b + 1 &&
          (Bytes(old(blocks), b) >= size <==> size <= MAX_REQUEST) &&
        Valid() && ends == old(ends) && Searched(size) <= Bytes(old(blocks), b) &&
        blocks == Replace(old(blocks), b, Next(old(blocks), b), Carve(old(blocks), b, Searched(size))) &&
        LiveKept(old(mem[..]), mem[..], old(blocks), {})
    {
      if size == 0 {
        return Null;
      }
      hide *;
      var need := Searched(size);
      SearchBegins(size);
      if !SearchStays(need) {
        return OutOfTable;
      }
      if Choice(size) != 0 {
        ChoiceFits(size);
      }
      var b := FindSuitable(need);
      if b == 0 {
        return Null;
      }
      r := HandOut(b, need);
    }

    /** Requests below 256 bytes go wild exactly when a free block is just as large as they are, once they are whole
        words: the search starts in the class of that size, which holds no other. */
    lemma ExactFitGoesWild(size: nat)
      requires Valid() && 0 < size < SIZE && Aligned(size) < 256
      ensures Outcome(size) == WildSplit <==> exists b: nat :: IsFree(b, Aligned(size))
    {
      hide *;
      SmallRequest(size);
      SearchBegins(size);
      if Choice(size) != 0 {
        ChoiceFits(size);
        SmallOutcome(size);
      }
      forall b: nat | IsFree(b, Aligned(size)) ensures IsFree(Choice(size), Aligned(size)) && Choice(size) != 0 {
        OwnClassHead(b, Aligned(size));
      }
    }

    /** A free block of that size. */
    ghost predicate IsFree(b: nat, bytes: nat)
      reads `blocks
    {
      b in blocks && blocks[b].free && Bytes(blocks, b) == bytes
    }

    lemma SmallOutcome(size: nat)
      requires Valid() && 0 < size < SIZE && Aligned(size) < 256 && Choice(size) != 0 && Choice(size) in blocks
      requires AtLeast(MapInsert(Bytes(blocks, Choice(size))), MapSearch(Searched(size)))
      requires blocks[Choice(size)].free
      ensures OutcomeAt(blocks, Choice(size), Searched(size)) == WildSplit <==> IsFree(Choice(size), Aligned(size))
    {
      SmallRequest(size);
      SearchedIsEnough(Bytes(blocks, Choice(size)), Aligned(size));
      hide Aligned, MapInsert, MapSearch, Tiled, Lists, BitsOk, Choice;
    }

    /** A list with a block of a small size has such a block at its head. */
    lemma OwnClassHead(b: nat, need: nat)
      requires Valid() && IsFree(b, need) && 24 <= need < 256 && need % 8 == 0
      ensures
        var h := FirstHead(heads[..], Bucket(MapInsert(need)));
        h != 0 && IsFree(h, need)
    {
      ListedHasHead(mem[..], heads[..], blocks, ends, listed, rank, b);
      HeadOfSize(mem[..], heads[..], blocks, ends, listed, rank, need);
      hide MapInsert, Tiled, Lists, BitsOk, Encoded, NoFreeNeighbours;
    }

    /** With one free block, larger than 24 bytes, a request for 24 gets it. */
    lemma OnlyFreeBlock(b: nat)
      requires Valid() && b in blocks && blocks[b].free && Bytes(blocks, b) > 24
      requires forall x | x in blocks && blocks[x].free :: x == b
      ensures Choice(24) == b && Outcome(24) == Ptr(b + 1) && Searched(24) == 24
    {
      assert b in listed;
      RoundsTo24();
      hide Heap.Valid, Aligned, Searched, Choice, Outcome, MapInsert, MapSearch, RoundUp, SearchStays, FirstHead;
      SmallRequest(24);
      SearchBegins(24);
      FoundIfListed(24, b);
      ChoiceFits(24);
    }

    lemma FoundIfListed(need: nat, b: nat)
      requires Valid() && b in listed && b in blocks && Bytes(blocks, b) >= RoundUp(need) && SearchStays(need)
      ensures FirstHead(heads[..], Bucket(MapSearch(need))) != 0
    {
      ListedHasHead(mem[..], heads[..], blocks, ends, listed, rank, b);
      EnoughIsSearched(Bytes(blocks, b), need);
      ClassInTable(RoundUp(need));
      ClassInTable(Bytes(blocks, b));
      hide MapInsert, Tiled, Lists, BitsOk, Encoded, NoFreeNeighbours, SearchStays, FirstHead, RoundUp;
      assert heads[..][BucketOf(blocks, b)] != 0 && BucketOf(blocks, b) >= Bucket(MapSearch(need));
    }

    /** tlsf_malloc from the block found on. */
    method HandOut(b: nat, need: nat) returns (r: AllocResult)
      requires Valid() && b in listed && b in blocks && need % 8 == 0 && need <= LAST_WRAPPED_INSIDE
      modifies this, mem, heads, columns
      ensures r == OutcomeAt(old(blocks), b, need)
      ensures r.WildSplit? ==> FooterOfRest(old(blocks), b, need) >= mem.Length
      ensures r.Ptr? ==>
        r.p == b + 1 && need <= Bytes(old(blocks), b) && Valid() && ends == old(ends) &&
        blocks == Replace(old(blocks), b, Next(old(blocks), b), Carve(old(blocks), b, need)) &&
        LiveKept(old(mem[..]), mem[..], old(blocks), {})
    {
      ghost var mem0 := mem[..];
      ChosenBlock(mem0, blocks, ends, listed, b);
      var bytes := SizeOf(mem[b]);
      RemainExact(bytes, need);
      WildSplitLeaves(blocks, ends, mem.Length, b, need);
      var remain := Remain(bytes, need);
      hide FooterOfRest, Tiled, Lists, BitsOk, Encoded, NoFreeNeighbours, Remain, LiveKept, Carve, Replace;
      RemoveBlock(b);
      TagsAfterRemoval(mem0, mem[..], blocks, ends, old(listed), listed, b, WithFree(mem0[b], false));
      WriteTag(b, WithFree(mem[b], false));
      if remain < 24 {
        TakeWhole(mem0, b, need);
      } else if bytes <= need {
        return WildSplit;
      } else if need < 24 {
        return Undersized;
      } else {
        SplitOff(mem0, b, need, remain);
      }
      return Ptr(b + 1);
    }

    /** Between the removal of a block from its list and the bookkeeping of its new state. */
    ghost predicate Taken(mem0: seq<nat>, b: nat, need: nat)
      reads this, mem, heads, columns
    {
      Filed() && |mem0| == mem.Length && Encoded(mem0, blocks, ends) && NoFreeNeighbours(blocks) &&
      b in blocks && blocks[b].free && b !in listed && listed + {b} == FreeBlocks(blocks) &&
      need % 8 == 0 && need + 8 <= Bytes(blocks, b) &&
      b < mem.Length && OnlyLinks(mem0[b := WithFree(mem0[b], false)], mem[..], listed + {b})
    }

    /** No room for another block: the whole block is handed out. */
    method TakeWhole(ghost mem0: seq<nat>, b: nat, ghost need: nat)
      requires Taken(mem0, b, need) && Bytes(blocks, b) < need + 8 + 8 * MIN_WORDS
      modifies mem, `blocks
      ensures Valid() && blocks == Replace(old(blocks), b, Next(old(blocks), b), Carve(old(blocks), b, need))
      ensures LiveKept(mem0, mem[..], old(blocks), {})
    {
      ghost var bs, hi, news := blocks, Next(blocks, b), Carve(blocks, b, need);
      hide Tiled, Encoded, Lists, BitsOk, NoFreeNeighbours, Stretch, Fills, Quiet, Rewritten, LiveKept, Replace, Carve,
        WithFree, WithPrev;
      TakenTags(mem0, mem[..], bs, ends, listed, b);
      var next := b + 1 + SizeOf(mem[b]) / 8;
      assert next == hi;
      ghost var mem1 := mem[..];
      WriteTag(next, WithPrev(mem[next], false));
      WholeRewritten(mem0, mem1, mem[..], bs, ends, listed, b, need);
      BlockCarved(mem0, mem[..], heads[..], bs, ends, listed, rank, b, need);
      blocks := Replace(bs, b, hi, news);
    }

    /** Room for another block: the rest becomes a free block of its own. */
    method SplitOff(ghost mem0: seq<nat>, b: nat, need: nat, remain: nat)
      requires Taken(mem0, b, need) && need >= 8 * MIN_WORDS
      requires Bytes(blocks, b) >= need + 8 + 8 * MIN_WORDS && remain == Bytes(blocks, b) - need - 8
      modifies this, mem, heads, columns
      ensures Valid() && blocks == Replace(old(blocks), b, Next(old(blocks), b), Carve(old(blocks), b, need)) &&
        ends == old(ends)
      ensures LiveKept(mem0, mem[..], old(blocks), {})
    {
      ghost var bs, hi, news := blocks, Next(blocks, b), Carve(blocks, b, need);
      var rest := b + 1 + need / 8;
      TakenTags(mem0, mem[..], bs, ends, listed, b);
      hide Tiled, Encoded, Lists, BitsOk, NoFreeNeighbours, Stretch, Fills, Quiet, Rewritten, LiveKept, Replace, Carve,
        FreeBlocks;
      WriteSplitTags(mem0, b, need, remain);
      BlockCarved(mem0, mem[..], heads[..], bs, ends, listed, rank, b, need);
      CarvedParts(bs, b, need, remain);
      blocks := Replace(bs, b, hi, news);
      ghost var mem2 := mem[..];
      InsertBlock(rest);
      LinksKeepEncoded(mem2, mem[..], blocks, ends, listed);
      LiveThroughLinks(mem0, mem2, mem[..], bs, blocks, ends, listed, {});
    }

    /** The header, footer and previous-free bit that a split writes. */
    method WriteSplitTags(ghost mem0: seq<nat>, b: nat, need: nat, remain: nat)
      requires Taken(mem0, b, need) && need >= 8 * MIN_WORDS
      requires Bytes(blocks, b) >= need + 8 + 8 * MIN_WORDS && remain == Bytes(blocks, b) - need - 8
      modifies mem
      ensures Filed()
      ensures
        var hi, news := Next(blocks, b), Carve(blocks, b, need);
        Stretch(blocks, ends, b, hi) && Fills(news, b, hi) && Quiet(blocks, b, hi, news) &&
        Rewritten(mem0, mem[..], listed + {b}, b, hi, news) &&
        b + 1 + need / 8 < mem.Length && SizeOf(mem[b + 1 + need / 8]) == remain
    {
      ghost var bs := blocks;
      TakenTags(mem0, mem[..], bs, ends, listed, b);
      ghost var mem1 := mem[..];
      hide Encoded, Tiled, Lists, BitsOk, NoFreeNeighbours, Stretch, Fills, Quiet, Rewritten, Carve, IsLink;
      SplitHeaders(b, need, remain);
      SplitRewritten(mem0, mem1, mem[..], bs, ends, listed, b, need, remain);
      RestTags(remain);
    }

    method SplitHeaders(b: nat, need: nat, remain: nat)
      requires Filed() && need % 8 == 0 && remain % 8 == 0 && remain >= 8 && b + 2 + need / 8 + remain / 8 < mem.Length
      requires forall w: nat | b <= w <= b + 2 + need / 8 + remain / 8 :: !IsLink(listed, w)
      modifies mem
      ensures Filed()
      ensures
        var rest, hi := b + 1 + need / 8, b + 2 + need / 8 + remain / 8;
        mem[..] == old(mem[..])[rest := Header(remain, true, false)][b := WithSize(old(mem[b]),
          need)][hi - 1 := rest][hi := WithPrev(old(mem[hi]), true)]
    {
      RestTags(remain);
      hide Filed, IsLink, WithFree, WithPrev, WithSize, Header, SizeOf;
      var rest := b + 1 + need / 8;
      var last := rest + remain / 8;
      WriteTag(rest, WithPrev(WithFree(remain, false), false));
      WriteTag(b, WithSize(mem[b], need));
      WriteTag(rest, WithFree(mem[rest], true));
      WriteTag(last, rest);
      WriteTag(last + 1, WithPrev(mem[last + 1], true));
    }

    /** tlsf_free: the block becomes free, together with a free block before it and a free block after it,
        and is filed. No live payload changes but the freed one. */
    method Free(ptr: nat) returns (ghost lo: nat, ghost hi: nat)
      requires Valid() && (ptr == 0 || (ptr - 1 in blocks && !blocks[ptr - 1].free))
      modifies this, mem, heads, columns
      ensures Valid() && ends == old(ends)
      ensures ptr == 0 ==> blocks == old(blocks) && mem[..] == old(mem[..])
      ensures ptr != 0 ==>
        var b := ptr - 1;
        (lo == b || (lo in old(blocks) && old(blocks)[lo].free && Next(old(blocks), lo) == b)) &&
        (hi == Next(old(blocks), b) ||
         (Next(old(blocks), b) in old(blocks) && old(blocks)[Next(old(blocks), b)].free &&
          hi == Next(old(blocks), Next(old(blocks), b)))) &&
        lo < hi && blocks == Replace(old(blocks), lo, hi, map[lo := Block(hi - lo - 1, true)]) &&
        LiveKept(old(mem[..]), mem[..], old(blocks), {b})
    {
      if ptr == 0 {
        return 0, 0;
      }
      var b := ptr - 1;
      ghost var mem0, bs := mem[..], blocks;
      hide Tiled, Encoded, Lists, BitsOk, NoFreeNeighbours, Stretch, Replace, LiveKept, Freeing, FreeBlocks;
      MarkFree(b);
      var low := CoalescePrev(mem0, b, Next(bs, b));
      var high := CoalesceNext(mem0, low, Next(bs, b));
      OnlyFreedWithin(bs, ends, mem.Length, b, low, high);
      FileFreed(mem0, b, low, high);
      return low, high;
    }

    /** The header and footer writes at the start of tlsf_free. */
    method MarkFree(b: nat)
      requires Valid() && b in blocks && !blocks[b].free
      modifies mem
      ensures Filed() && NoFreeNeighbours(blocks) && Tiled(blocks, ends, mem.Length)
      ensures Freeing(old(mem[..]), mem[..], blocks, ends, listed, b, Next(blocks, b))
    {
      ghost var mem0 := mem[..];
      UsedTags(mem0, blocks, ends, b);
      hide Tiled, Encoded, Lists, BitsOk, NoFreeNeighbours, Stretch, Replace, LiveKept, WithFree;
      WriteTag(b, WithFree(mem[b], true));
      WriteTag(b + SizeOf(mem[b]) / 8, b);
      FreeingStarts(mem0, mem[..], blocks, ends, listed, b);
    }

    /** coalesce_prev. */
    method CoalescePrev(ghost mem0: seq<nat>, b: nat, ghost hi: nat) returns (lo: nat)
      requires Filed() && Freeing(mem0, mem[..], blocks, ends, listed, b, hi) && NoFreeNeighbours(blocks) && b in blocks
      modifies mem, heads, columns, `rows, `listed
      ensures Filed() && Freeing(mem0, mem[..], blocks, ends, listed, lo, hi) && NoFreeBefore(blocks, lo)
      ensures lo == b || (lo in blocks && blocks[lo].free && Next(blocks, lo) == b)
    {
      PrevOfFreeing(mem0, mem[..], blocks, ends, listed, b, hi);
      hide Tiled, Encoded, Lists, BitsOk, NoFreeNeighbours, Freeing, NoFreeBefore;
      lo := b;
      if PrevBit(mem[b]) {
        lo := mem[b - 1];
        ghost var mem1 := mem[..];
        RemoveBlock(lo);
        MergeDown(mem0, mem1, mem[..], blocks, ends, listed, lo, b, hi);
        WriteTag(lo, WithSize(mem[lo], SizeOf(mem[lo]) + 8 + SizeOf(mem[b])));
      }
    }

    /** coalesce_next. */
    method CoalesceNext(ghost mem0: seq<nat>, lo: nat, ghost mid: nat) returns (hi: nat)
      requires Filed() && Freeing(mem0, mem[..], blocks, ends, listed, lo, mid) && NoFreeNeighbours(blocks)
      modifies mem, heads, columns, `rows, `listed
      ensures Filed() && Freeing(mem0, mem[..], blocks, ends, listed, lo, hi) && (hi in blocks ==> !blocks[hi].free)
      ensures hi == mid || (mid in blocks && blocks[mid].free && hi == Next(blocks, mid))
    {
      NextOfFreeing(mem0, mem[..], blocks, ends, listed, lo, mid);
      hide Tiled, Encoded, Lists, BitsOk, NoFreeNeighbours, Freeing;
      hi := lo + 1 + SizeOf(mem[lo]) / 8;
      if FreeBit(mem[hi]) {
        ghost var mem1 := mem[..];
        RemoveBlock(hi);
        MergeUp(mem0, mem1, mem[..], blocks, ends, listed, lo, hi);
        WriteTag(lo, WithSize(mem[lo], SizeOf(mem[lo]) + 8 + SizeOf(mem[hi])));
        hi := lo + 1 + SizeOf(mem[lo]) / 8;
      }
    }

    /** The end of tlsf_free: what follows the merged block learns of it, and the block is filed. */
    method FileFreed(ghost mem0: seq<nat>, ghost b: nat, lo: nat, hi: nat)
      requires Filed() && Freeing(mem0, mem[..], blocks, ends, listed, lo, hi) && NoFreeNeighbours(blocks)
      requires NoFreeBefore(blocks, lo) && (hi in blocks ==> !blocks[hi].free)
      requires forall x | x in blocks && lo <= x < hi :: x == b || blocks[x].free
      modifies this, mem, heads, columns
      ensures Valid() && ends == old(ends)
      ensures lo < hi && blocks == Replace(old(blocks), lo, hi, map[lo := Block(hi - lo - 1, true)])
      ensures LiveKept(mem0, mem[..], old(blocks), {b})
    {
      ghost var bs, mem1 := blocks, mem[..];
      ghost var news := map[lo := Block(hi - lo - 1, true)];
      FreeingEnds(mem0, mem1, bs, ends, listed, lo, hi);
      hide Tiled, Encoded, Lists, BitsOk, NoFreeNeighbours, Stretch, Fills, Quiet, Rewritten, LiveKept, Replace,
        Freeing, NoFreeBefore;
      WriteTag(hi, WithPrev(mem[hi], true));
      WriteTag(hi - 1, lo);
      FreedRewritten(mem0, mem1, mem[..], bs, ends, listed, lo, hi);
      RewrittenIsChanged(mem0, mem[..], FreeBlocks(bs), lo, hi, news);
      Carved(mem0, mem[..], heads[..], bs, ends, FreeBlocks(bs), listed, rank, lo, hi, news);
      FreeAfterMerge(bs, listed, lo, hi);
      LiveWhenCarved(mem0, mem[..], bs, ends, FreeBlocks(bs), lo, hi, {b});
      blocks := Replace(bs, lo, hi, news);
      ghost var mem2 := mem[..];
      InsertBlock(lo);
      LinksKeepEncoded(mem2, mem[..], blocks, ends, listed);
      LiveThroughLinks(mem0, mem2, mem[..], bs, blocks, ends, listed, {b});
    }

    method WritePoolTags(base: nat, bytes: nat)
      requires Filed() && bytes % 8 == 0 && bytes >= 24 && base + bytes / 8 + 1 < mem.Length
      requires forall w: nat | base <= w < base + bytes / 8 + 3 :: !IsLink(listed, w)
      modifies mem
      ensures Filed() && PoolTags(old(mem[..]), mem[..], base, base + bytes / 8 + 1) && SizeOf(mem[base]) == bytes
    {
      ghost var mem0 := mem[..];
      var last := base + bytes / 8;
      PoolHeader(bytes);
      hide Filed, Tiled, Encoded, Lists, BitsOk, NoFreeNeighbours, IsLink, WithFree, WithPrev, WithSize, Header;
      WriteTag(base, WithPrev(WithFree(WithSize(0, bytes), true), false));
      WriteTag(last, base);
      WriteTag(last + 1, WithPrev(0, true));
      PoolWritten(mem0, mem[..], base, bytes);
    }

    /** pool_add: a region that is large enough becomes one free block and a sentinel. */
    method AddPool(base: nat, size: nat)
      requires Valid() && size % 8 == 0 && 0 < base && base + size / 8 <= mem.Length
      requires Unused(blocks, ends, base, base + size / 8)
      modifies this, mem, heads, columns
      ensures Valid()
      ensures size < 52 ==> blocks == old(blocks) && ends == old(ends) && mem[..] == old(mem[..])
      ensures size >= 52 ==>
        blocks == old(blocks)[base := Block(size / 8 - 3, true)] && ends == old(ends) + {base + size / 8 - 2} &&
        LiveKept(old(mem[..]), mem[..], old(blocks), {})
    {
      if size < 52 {
        return;
      }
      ghost var mem0, bs, ends0 := mem[..], blocks, ends;
      var bytes := size - 24;
      var last := base + bytes / 8;
      UnusedIsNotLink(bs, ends, mem.Length, listed, base, base + size / 8);
      hide Tiled, Encoded, Lists, BitsOk, NoFreeNeighbours, LiveKept, Unused, IsLink, PoolTags, FreeBlocks, OnlyLinks;
      WritePoolTags(base, bytes);
      PoolAdded(mem0, mem[..], bs, ends, base, last + 1);
      ReplaceKeepsLists(mem[..], mem[..], heads[..], bs, bs[base := Block(bytes / 8, true)], listed, rank);
      FreeAfterPool(bs, base, bytes / 8);
      blocks, ends := bs[base := Block(bytes / 8, true)], ends + {last + 1};
      LiveWhenPooled(mem0, mem[..], bs, ends0, base, last + 1);
      ghost var mem2 := mem[..];
      InsertBlock(base);
      LinksKeepEncoded(mem2, mem[..], blocks, ends, listed);
      LiveThroughLinks(mem0, mem2, mem[..], bs, blocks, ends, listed, {});
    }

    constructor (words: nat)
      requires words <= MAX_WORDS
      ensures Valid() && blocks == map[] && ends == {} && mem.Length == words && fresh(mem) && fresh(heads) &&
        fresh(columns)
    {
      mem, heads, columns := new nat[words](_ => 0), new nat[BUCKETS](_ => 0), new set<nat>[FL_COUNT](_ => {});
      rows, blocks, ends, listed, rank := {}, map[], {}, {}, map[];
      new;
      assert FreeBlocks(blocks) == {};
    }

    /** tlsf_create on size bytes at base: the control structure comes first, the rest is the first pool. */
    static method Create(words: nat, base: nat, size: nat) returns (h: Heap?)
      requires words <= MAX_WORDS && size % 8 == 0 && base + size / 8 <= words
      ensures h == null <==> base == 0 || size < CONTROL_BYTES + 64
      ensures h != null ==> fresh(h) && fresh(h.mem) && fresh(h.heads) && fresh(h.columns)
      ensures h != null ==>
        h.Valid() && h.mem.Length == words &&
        h.blocks == map[base + CONTROL_BYTES / 8 := Block((size - CONTROL_BYTES) / 8 - 3, true)] &&
          h.ends == {base + size / 8 - 2}
    {
      if base == 0 || size < CONTROL_BYTES + 64 {
        return null;
      }
      h := new Heap(words);
      hide Heap.Valid;
      h.AddPool(base + CONTROL_BYTES / 8, size - CONTROL_BYTES);
    }

    /** The lists hold exactly the free blocks, each of them once and in the list of its size class. */
    lemma FreeListsExact(b: nat)
      requires Valid()
      ensures b in blocks && blocks[b].free <==> b != 0 && exists k: nat, i: nat ::
        k < BUCKETS && Hop(mem[..], heads[..][k], i) == b
      ensures forall k: nat, i: nat | k < BUCKETS && b != 0 && Hop(mem[..], heads[..][k], i) == b ::
        b in blocks && BucketOf(blocks, b) == k
      ensures forall k: nat, i: nat, j: nat | k < BUCKETS && b != 0 && Hop(mem[..], heads[..][k], i) == b &&
        Hop(mem[..], heads[..][k], j) == b :: i == j
    {
      if b in listed {
        var i := WalkMeets(mem[..], heads[..], blocks, listed, rank, b);
        LinksAt(mem[..], heads[..], blocks, listed, rank, b);
        assert Fits(blocks, ends, mem.Length, b);
      }
      forall k: nat, i: nat | k < BUCKETS && b != 0 && Hop(mem[..], heads[..][k], i) == b
        ensures b in listed && b in blocks && BucketOf(blocks, b) == k
      {
        WalkStaysInClass(mem[..], heads[..], blocks, listed, rank, k, i);
      }
      forall k: nat, i: nat, j: nat | k < BUCKETS && b != 0 && Hop(mem[..], heads[..][k], i) == b &&
        Hop(mem[..], heads[..][k], j) == b
        ensures i == j
      {
        if i != j {
          WalkRises(mem[..], heads[..], blocks, listed, rank, k, if i < j then i else j, if i < j then j else i);
        }
      }
    }

    /** Payloads of different blocks are disjoint, inside the memory and no smaller than the minimum. */
    lemma PayloadsDisjoint(b: nat, c: nat)
      requires Valid() && b in blocks && c in blocks
      ensures Next(blocks, b) < mem.Length && Bytes(blocks, b) >= 24
      ensures b != c ==> forall w: nat | Inside(blocks, b, w) :: !Inside(blocks, c, w) && w != c
    {
      assert Fits(blocks, ends, mem.Length, b);
      assert Apart(blocks, b, c) && Apart(blocks, c, b);
    }
  }

  /** A run that ends in the wild split: two blocks of 24 bytes are allocated, the first is freed, and 24 bytes are
      asked for again. */
  method WildRun() returns (r: AllocResult)
    ensures r == WildSplit
  {
    hide Heap.Valid, Heap.Outcome, Heap.Choice, Replace, Carve, LiveKept, Searched, MapInsert, RoundUp;
    var h := Heap.Create(1024, 8, 8000);
    FirstCarved();
    SecondCarved();
    FirstFreed();
    assert h.blocks == map[424 := Block(581, true)];
    h.OnlyFreeBlock(424);
    var first := h.Malloc(24);
    assert h.blocks == map[424 := Block(3, false), 428 := Block(577, true)];
    h.OnlyFreeBlock(428);
    var second := h.Malloc(24);
    assert h.blocks == map[424 := Block(3, false), 428 := Block(3, false), 432 := Block(573, true)];
    ghost var lo, hi := h.Free(425);
    assert lo == 424 && hi == 428;
    assert h.IsFree(424, 24);
    h.ExactFitGoesWild(24);
    r := h.Malloc(24);
  }

  lemma FirstCarved()
    ensures
      var bs := map[424 := Block(581, true)];
      Replace(bs, 424, Next(bs, 424), Carve(bs, 424, 24)) == map[424 := Block(3, false), 428 := Block(577, true)]
  {}

  lemma SecondCarved()
    ensures
      var bs := map[424 := Block(3, false), 428 := Block(577, true)];
      Replace(bs, 428, Next(bs, 428), Carve(bs, 428, 24)) == map[424 := Block(3, false), 428 := Block(3, false),
        432 := Block(573, true)]
  {}

  lemma FirstFreed()
    ensures
      var bs := map[424 := Block(3, false), 428 := Block(3, false), 432 := Block(573, true)];
      Replace(bs, 424, 428, map[424 := Block(3, true)]) == map[424 := Block(3, true), 428 := Block(3, false),
        432 := Block(573, true)]
  {}

  // ---- a new pool ----

  /** sizeof(control_t): 25 rows of 16 list heads, 26 bitmap words, and the embedded sentinel. */
  const CONTROL_BYTES: nat := 25 * 16 * 8 + 26 * 4 + 24

  lemma UnusedIsNotLink(bs: Blocks, ends: set<nat>, n: nat, listed: set<nat>, lo: nat, hi: nat)
    requires Tiled(bs, ends, n) && Unused(bs, ends, lo, hi) && forall x | x in listed :: x in bs
    ensures forall w: nat | lo <= w < hi :: !IsLink(listed, w)
    ensures lo < hi ==> lo !in bs
  {
    forall w: nat | lo <= w < hi ensures !IsLink(listed, w) {
      forall x | x in listed ensures x + 1 != w && x + 2 != w {
        assert Fits(bs, ends, n, x);
      }
    }
    assert lo in bs ==> Next(bs, lo) > lo;
  }

  lemma PoolHeader(bytes: nat)
    requires bytes % 8 == 0
    ensures WithPrev(WithFree(WithSize(0, bytes), true), false) == Header(bytes, true, false)
    ensures WithPrev(0, true) == Header(0, false, true)
    ensures SizeOf(Header(bytes, true, false)) == bytes
  {
    SizeOfWords(bytes / 8);
    HeaderFields(bytes, false, false);
    HeaderFields(SizeOf(bytes), true, false);
  }

  lemma PoolWritten(mem0: seq<nat>, mem: seq<nat>, lo: nat, bytes: nat)
    requires bytes % 8 == 0 && bytes >= 24 && lo + bytes / 8 + 1 < |mem0|
    requires mem == mem0[lo := Header(bytes, true, false)][lo + bytes / 8 := lo][lo + bytes / 8 + 1 := Header(0, false,
      true)]
    ensures PoolTags(mem0, mem, lo, lo + bytes / 8 + 1)
  {
    SizeOfWords(bytes / 8);
    HeaderFields(bytes, true, false);
    HeaderFields(0, false, true);
    hide Header, SizeOf, FreeBit, PrevBit;
  }

  lemma FreeAfterPool(bs: Blocks, lo: nat, words: nat)
    requires lo !in bs
    ensures FreeBlocks(bs[lo := Block(words, true)]) == FreeBlocks(bs) + {lo}
  {}

  lemma LiveWhenPooled(mem: seq<nat>, mem': seq<nat>, bs: Blocks, ends: set<nat>, lo: nat, s: nat)
    requires Unused(bs, ends, lo, s + 2) && PoolTags(mem, mem', lo, s)
    ensures LiveKept(mem, mem', bs, {})
  {}

  // ---- a block on its way to being free ----

  ghost predicate NoFreeBefore(bs: Blocks, lo: nat) {
    forall p {:trigger Next(bs, p)} | p in bs && Next(bs, p) == lo :: !bs[p].free
  }

  /** The stretch lo..hi reads as one free block, though the tables still have the blocks it came from;
      the free blocks among those are off the lists. */
  ghost predicate Freeing(mem0: seq<nat>, mem: seq<nat>, bs: Blocks, ends: set<nat>, listed: set<nat>, lo: nat,
      hi: nat) {
    Tiled(bs, ends, |mem0|) && Encoded(mem0, bs, ends) && Stretch(bs, ends, lo, hi) && |mem| == |mem0| && hi < |mem| &&
    (forall w: nat {:trigger mem[w]} | w < |mem| && !(lo <= w < hi) ::
      mem[w] == mem0[w] || IsLink(FreeBlocks(bs), w)) &&
    hi >= lo + 1 + MIN_WORDS && SizeOf(mem[lo]) == 8 * (hi - lo - 1) && FreeBit(mem[lo]) &&
      PrevBit(mem[lo]) == PrevBit(mem0[lo]) &&
    listed == (set x | x in FreeBlocks(bs) && !(lo <= x < hi))
  }

  lemma UsedTags(mem: seq<nat>, bs: Blocks, ends: set<nat>, b: nat)
    requires Tiled(bs, ends, |mem|) && Encoded(mem, bs, ends) && b in bs && !bs[b].free
    ensures b < |mem| && SizeOf(mem[b]) == Bytes(bs, b) && bs[b].words >= MIN_WORDS && Next(bs, b) < |mem|
    ensures SizeOf(WithFree(mem[b], true)) / 8 == bs[b].words
    ensures forall w: nat | b <= w <= Next(bs, b) :: !IsLink(FreeBlocks(bs), w)
  {
    assert Fits(bs, ends, |mem|, b) && HeaderOk(mem, bs, b);
    HeaderFields(mem[b], true, PrevBit(mem[b]));
    forall w: nat | b <= w <= Next(bs, b) ensures !IsLink(FreeBlocks(bs), w) {
      InsideIsNotLink(bs, ends, |mem|, FreeBlocks(bs), b, w);
    }
  }

  lemma FreeingStarts(mem0: seq<nat>, mem: seq<nat>, bs: Blocks, ends: set<nat>, listed: set<nat>, b: nat)
    requires Tiled(bs, ends, |mem0|) && Encoded(mem0, bs, ends) && b in bs && !bs[b].free && listed == FreeBlocks(bs)
    requires Next(bs, b) < |mem0| && b < |mem0| && mem == mem0[b := WithFree(mem0[b], true)][Next(bs, b) - 1 := b]
    ensures Freeing(mem0, mem, bs, ends, listed, b, Next(bs, b))
  {
    UsedTags(mem0, bs, ends, b);
    HeaderFields(mem0[b], true, PrevBit(mem0[b]));
    BlockIsStretch(bs, ends, |mem0|, b);
    OnlyBlockThere(bs, ends, |mem0|, b);
  }

  /** What the previous-free bit of a stretch being freed leads to. */
  lemma PrevOfFreeing(mem0: seq<nat>, mem: seq<nat>, bs: Blocks, ends: set<nat>, listed: set<nat>, b: nat, hi: nat)
    requires Freeing(mem0, mem, bs, ends, listed, b, hi) && b in bs
    ensures !PrevBit(mem[b]) ==> NoFreeBefore(bs, b)
    ensures PrevBit(mem[b]) ==>
      b >= 1 && var p := mem[b - 1];
      p in listed && p in bs && bs[p].free && Next(bs, p) == b && SizeOf(mem[p]) == Bytes(bs, p) && p < |mem|
  {
    assert BackOk(mem0, bs, b);
    if PrevBit(mem[b]) {
      var p := mem0[b - 1];
      assert HeaderOk(mem0, bs, p) && Fits(bs, ends, |mem0|, p);
      TagsAreNotLinks(bs, ends, |mem0|, FreeBlocks(bs), p);
    } else {
      forall p | p in bs && Next(bs, p) == b ensures !bs[p].free {
        assert TailOk(mem0, bs, p);
      }
    }
  }

  lemma NextOfFreeing(mem0: seq<nat>, mem: seq<nat>, bs: Blocks, ends: set<nat>, listed: set<nat>, lo: nat, hi: nat)
    requires Freeing(mem0, mem, bs, ends, listed, lo, hi)
    ensures lo < |mem| && lo + 1 + SizeOf(mem[lo]) / 8 == hi < |mem|
    ensures !FreeBit(mem[hi]) ==> hi in bs ==> !bs[hi].free
    ensures FreeBit(mem[hi]) ==> hi in bs && bs[hi].free && hi in listed && SizeOf(mem[hi]) == Bytes(bs, hi)
  {
    TagsAreNotLinks(bs, ends, |mem0|, FreeBlocks(bs), hi);
    if hi in bs {
      assert HeaderOk(mem0, bs, hi);
    } else {
      assert EndOk(mem0, hi);
    }
  }

  /** The two blocks of a split. */
  lemma CarvedParts(bs: Blocks, b: nat, need: nat, remain: nat)
    requires b in bs && need % 8 == 0 && Bytes(bs, b) == need + 8 + remain && remain >= 8 * MIN_WORDS
    ensures
      var bs' := Replace(bs, b, Next(bs, b), Carve(bs, b, need));
      var rest := b + 1 + need / 8;
      rest in bs' && Bytes(bs', rest) == remain && bs[b].words >= need / 8 + 1 + MIN_WORDS && rest != b &&
      (rest in bs ==> b <= rest < Next(bs, b)) && b <= rest < Next(bs, b) &&
      (forall x | x in bs && !(b <= x < Next(bs, b)) :: x in bs' && bs'[x] == bs[x])
  {}

  lemma OthersStay(bs: Blocks, lo: nat, hi: nat, news: Blocks)
    requires forall x | x in news :: lo <= x < hi
    ensures forall x | x in bs && !(lo <= x < hi) ::
      x in Replace(bs, lo, hi, news) && Replace(bs, lo, hi, news)[x] == bs[x]
  {}

  /** What a finished carving of a free block leaves. */
  lemma BlockCarved(mem0: seq<nat>, mem: seq<nat>, heads: seq<nat>, bs: Blocks, ends: set<nat>, listed: set<nat>,
      rank: map<nat, int>,
                    b: nat, need: nat)
    requires Tiled(bs, ends, |mem0|) && Encoded(mem0, bs, ends) && NoFreeNeighbours(bs) &&
      Lists(mem, heads, bs, listed, rank)
    requires b in bs && bs[b].free && b !in listed && listed + {b} == FreeBlocks(bs) && need <= Bytes(bs, b)
    requires
      var hi, news := Next(bs, b), Carve(bs, b, need);
      Stretch(bs, ends, b, hi) && Fills(news, b, hi) && Quiet(bs, b, hi, news) &&
        Rewritten(mem0, mem, listed + {b}, b, hi, news)
    ensures
      var bs' := Replace(bs, b, Next(bs, b), Carve(bs, b, need));
      |mem| == |mem0| && Tiled(bs', ends, |mem|) && Encoded(mem, bs', ends) && NoFreeNeighbours(bs') &&
      Lists(mem, heads, bs', listed, rank) && (forall x | x in listed :: x in bs') && LiveKept(mem0, mem, bs, {}) &&
      FreeBlocks(bs') == FreeBlocks(bs) - {b} + (if bs[b].words >= need / 8 + 1 + MIN_WORDS then {b + 1 + need / 8}
        else {}) &&
      (bs[b].words >= need / 8 + 1 + MIN_WORDS ==> b + 1 + need / 8 !in listed) &&
      (forall x | x in bs && !bs[x].free :: x in bs' && bs'[x] == bs[x])
  {
    var hi, news := Next(bs, b), Carve(bs, b, need);
    NewsInside(news, b, hi);
    OthersStay(bs, b, hi, news);
    assert forall x | x in listed :: x in FreeBlocks(bs);
    OnlyBlockThere(bs, ends, |mem0|, b);
    hide Tiled, Encoded, Lists, NoFreeNeighbours, Stretch, Fills, Quiet, Rewritten, LiveKept, Replace, Carve;
    RewrittenIsChanged(mem0, mem, listed + {b}, b, hi, news);
    RewrittenLength(mem0, mem, listed + {b}, b, hi, news);
    Carved(mem0, mem, heads, bs, ends, listed + {b}, listed, rank, b, hi, news);
    FreeAfterCarve(bs, ends, |mem0|, b, need);
    LiveWhenCarved(mem0, mem, bs, ends, listed + {b}, b, hi, {});
  }

  /** Filing a new free block writes no live payload either. */
  lemma LiveThroughLinks(mem0: seq<nat>, mem2: seq<nat>, mem3: seq<nat>, bs: Blocks, bs': Blocks, ends: set<nat>,
      links: set<nat>,
                         except: set<nat>)
    requires Tiled(bs', ends, |mem2|) && LiveKept(mem0, mem2, bs, except) && OnlyLinks(mem2, mem3, links)
    requires links == FreeBlocks(bs') && forall x | x in bs && !bs[x].free && x !in except ::
      x in bs' && bs'[x] == bs[x]
    ensures LiveKept(mem0, mem3, bs, except)
  {
    forall x, w: nat | x in bs && !bs[x].free && x !in except && Inside(bs, x, w) && w < |mem0|
      ensures mem3[w] == mem0[w] {
      InsideIsNotLink(bs', ends, |mem2|, links, x, w);
    }
  }

  lemma RestTags(remain: nat)
    requires remain % 8 == 0
    ensures WithFree(WithPrev(WithFree(remain, false), false), true) == Header(remain, true, false)
    ensures SizeOf(Header(remain, true, false)) == remain
  {
    SizeOfWords(remain / 8);
    HeaderFields(remain, false, PrevBit(remain));
    HeaderFields(SizeOf(remain), false, false);
  }

  /** What the tags of a block just taken say: its header reads as used, the header after it is intact. */
  lemma TakenTags(mem0: seq<nat>, mem1: seq<nat>, bs: Blocks, ends: set<nat>, listed: set<nat>, b: nat)
    requires Tiled(bs, ends, |mem0|) && Encoded(mem0, bs, ends) && b in bs && bs[b].free && b < |mem0|
    requires OnlyLinks(mem0[b := WithFree(mem0[b], false)], mem1, listed + {b}) &&
      (forall x | x in listed :: x in bs) && b !in listed
    ensures |mem1| == |mem0| && Next(bs, b) < |mem0|
    ensures SizeOf(mem1[b]) == Bytes(bs, b) && !FreeBit(mem1[b]) && PrevBit(mem1[b]) == PrevBit(mem0[b])
    ensures mem1[Next(bs, b)] == mem0[Next(bs, b)] && PrevBit(mem0[Next(bs, b)])
    ensures SizeOf(mem1[b]) / 8 == bs[b].words
    ensures forall w: nat | b <= w <= Next(bs, b) :: !IsLink(listed, w)
  {
    assert HeaderOk(mem0, bs, b) && TailOk(mem0, bs, b) && Fits(bs, ends, |mem0|, b);
    HeaderFields(mem0[b], false, PrevBit(mem0[b]));
    TagsAreNotLinks(bs, ends, |mem0|, listed + {b}, b);
    TagsAreNotLinks(bs, ends, |mem0|, listed + {b}, Next(bs, b));
    forall w: nat | b <= w <= Next(bs, b) ensures !IsLink(listed, w) {
      InsideIsNotLink(bs, ends, |mem0|, listed, b, w);
    }
  }

  lemma WholeRewritten(mem0: seq<nat>, mem1: seq<nat>, mem2: seq<nat>, bs: Blocks, ends: set<nat>, listed: set<nat>,
      b: nat, need: nat)
    requires Tiled(bs, ends, |mem0|) && Encoded(mem0, bs, ends) && NoFreeNeighbours(bs) && b in bs && bs[b].free &&
      b < |mem0|
    requires OnlyLinks(mem0[b := WithFree(mem0[b], false)], mem1, listed + {b}) &&
      (forall x | x in listed :: x in bs) && b !in listed
    requires need % 8 == 0 && need + 8 <= Bytes(bs, b) < need + 8 + 8 * MIN_WORDS
    requires Next(bs, b) < |mem1| && mem2 == mem1[Next(bs, b) := WithPrev(mem1[Next(bs, b)], false)]
    ensures
      var hi, news := Next(bs, b), Carve(bs, b, need);
      Stretch(bs, ends, b, hi) && Fills(news, b, hi) && Quiet(bs, b, hi, news) &&
        Rewritten(mem0, mem2, listed + {b}, b, hi, news)
  {
    var hi, news := Next(bs, b), Carve(bs, b, need);
    TakenTags(mem0, mem1, bs, ends, listed, b);
    HeaderFields(mem1[hi], FreeBit(mem1[hi]), false);
    BlockIsStretch(bs, ends, |mem0|, b);
    FillsOne(b, hi, false);
    assert Next(news, b) == hi;
    assert NewOk(mem2, news, b, b);
  }

  lemma SplitRewritten(mem0: seq<nat>, mem1: seq<nat>, mem2: seq<nat>, bs: Blocks, ends: set<nat>, listed: set<nat>,
      b: nat, need: nat,
                       remain: nat)
    requires Tiled(bs, ends, |mem0|) && Encoded(mem0, bs, ends) && NoFreeNeighbours(bs) && b in bs && bs[b].free &&
      b < |mem0|
    requires OnlyLinks(mem0[b := WithFree(mem0[b], false)], mem1, listed + {b}) &&
      (forall x | x in listed :: x in bs) && b !in listed
    requires need % 8 == 0 && need >= 8 * MIN_WORDS && remain >= 8 * MIN_WORDS && Bytes(bs, b) == need + 8 + remain
    requires
      var rest, hi := b + 1 + need / 8, Next(bs, b);
      hi < |mem1| && b < |mem1| &&
      mem2 == mem1[rest := Header(remain, true, false)][b := WithSize(mem1[b],
        need)][hi - 1 := rest][hi := WithPrev(mem1[hi], true)]
    ensures
      var hi, news := Next(bs, b), Carve(bs, b, need);
      Stretch(bs, ends, b, hi) && Fills(news, b, hi) && Quiet(bs, b, hi, news) &&
        Rewritten(mem0, mem2, listed + {b}, b, hi, news)
  {
    var rest, hi, news := b + 1 + need / 8, Next(bs, b), Carve(bs, b, need);
    TakenTags(mem0, mem1, bs, ends, listed, b);
    HeaderFields(mem1[hi], FreeBit(mem1[hi]), true);
    HeaderFields(need, FreeBit(mem1[b]), PrevBit(mem1[b]));
    HeaderFields(remain, true, false);
    SizeOfWords(need / 8);
    SizeOfWords(remain / 8);
    BlockIsStretch(bs, ends, |mem0|, b);
    FillsTwo(b, rest, hi, false, true);
    assert news == map[b := Block(rest - b - 1, false), rest := Block(hi - rest - 1, true)];
    assert Quiet(bs, b, hi, news);
    hide Tiled, Encoded, NoFreeNeighbours, Carve, WithSize, WithPrev, Header, SizeOf, FreeBit, PrevBit, Stretch, Fills,
      Quiet;
    assert ChangedOnly(mem0, mem2, listed + {b}, b, hi);
    SplitNewOk(mem2, b, rest, hi);
  }

  /** Both halves of a split read right. */
  lemma SplitNewOk(mem: seq<nat>, b: nat, rest: nat, hi: nat)
    requires b + MIN_WORDS < rest && rest + MIN_WORDS < hi < |mem|
    requires SizeOf(mem[b]) == 8 * (rest - b - 1) && !FreeBit(mem[b])
    requires SizeOf(mem[rest]) == 8 * (hi - rest - 1) && FreeBit(mem[rest]) && !PrevBit(mem[rest])
    requires mem[hi - 1] == rest && PrevBit(mem[hi])
    ensures
      var news := map[b := Block(rest - b - 1, false), rest := Block(hi - rest - 1, true)];
      NewOk(mem, news, b, b) && NewOk(mem, news, b, rest) && BackOk(mem, news, hi)
  {
    hide SizeOf, FreeBit, PrevBit;
    var news := map[b := Block(rest - b - 1, false), rest := Block(hi - rest - 1, true)];
    assert Next(news, b) == rest && Next(news, rest) == hi;
  }

  lemma OnlyBlockThere(bs: Blocks, ends: set<nat>, n: nat, b: nat)
    requires Tiled(bs, ends, n) && b in bs
    ensures forall x | x in bs && b <= x < Next(bs, b) :: x == b
  {
    forall x | x in bs && b <= x < Next(bs, b) ensures x == b {
      assert Apart(bs, b, x);
    }
  }

  lemma RewrittenIsChanged(mem: seq<nat>, mem': seq<nat>, links: set<nat>, lo: nat, hi: nat, news: Blocks)
    requires Rewritten(mem, mem', links, lo, hi, news)
    ensures ChangedOnly(mem, mem', links, lo, hi)
  {}

  /** The free blocks once block b has been carved. */
  lemma FreeAfterCarve(bs: Blocks, ends: set<nat>, n: nat, b: nat, size: nat)
    requires Tiled(bs, ends, n) && b in bs && bs[b].free && size <= Bytes(bs, b)
    ensures FreeBlocks(Replace(bs, b, Next(bs, b), Carve(bs, b, size))) ==
      FreeBlocks(bs) - {b} + if bs[b].words >= size / 8 + 1 + MIN_WORDS then {b + 1 + size / 8} else {}
  {
    OnlyBlockThere(bs, ends, n, b);
    var bs' := Replace(bs, b, Next(bs, b), Carve(bs, b, size));
    forall x ensures x in FreeBlocks(bs') <==>
      (x in FreeBlocks(bs) && x != b) || (bs[b].words >= size / 8 + 1 + MIN_WORDS && x == b + 1 + size / 8) {}
  }

  lemma BlockIsStretch(bs: Blocks, ends: set<nat>, n: nat, b: nat)
    requires Tiled(bs, ends, n) && b in bs
    ensures Stretch(bs, ends, b, Next(bs, b)) && bs[b].words >= MIN_WORDS
  {
    assert Fits(bs, ends, n, b);
    forall e | e in ends ensures e < b || Next(bs, b) <= e {
      assert Apart(bs, b, e);
    }
  }

  /** A finished replacement leaves the payloads of the blocks in use alone. */
  lemma LiveWhenCarved(mem: seq<nat>, mem': seq<nat>, bs: Blocks, ends: set<nat>, links: set<nat>, lo: nat, hi: nat,
      except: set<nat>)
    requires Tiled(bs, ends, |mem|) && Stretch(bs, ends, lo, hi) && ChangedOnly(mem, mem', links, lo, hi)
    requires forall x | x in links :: x in bs && bs[x].free
    ensures (forall x | x in bs && lo <= x < hi :: bs[x].free || x in except) ==> LiveKept(mem, mem', bs, except)
  {
    forall x, w: nat | x in bs && !bs[x].free && !(lo <= x < hi) && Inside(bs, x, w) && w < |mem|
      ensures mem'[w] == mem[w] {
      OutsideOf(bs, ends, |mem|, lo, hi, x);
      InsideIsNotLink(bs, ends, |mem|, links, x, w);
    }
  }

  /** The block that the search chose, as its header describes it. */
  lemma ChosenBlock(mem: seq<nat>, bs: Blocks, ends: set<nat>, listed: set<nat>, b: nat)
    requires Tiled(bs, ends, |mem|) && Encoded(mem, bs, ends) && b in listed && listed == FreeBlocks(bs)
    ensures b in bs && bs[b].free && b < |mem| && 24 <= SizeOf(mem[b]) == Bytes(bs, b) < 0x200_0000 &&
      Bytes(bs, b) % 8 == 0
    ensures SizeOf(mem[b]) / 8 == bs[b].words
  {
    assert Fits(bs, ends, |mem|, b) && HeaderOk(mem, bs, b);
  }

  lemma TagsAfterRemoval(mem0: seq<nat>, mem1: seq<nat>, bs: Blocks, ends: set<nat>, was: set<nat>, listed: set<nat>,
      b: nat, v: nat)
    requires Tiled(bs, ends, |mem0|) && Encoded(mem0, bs, ends) && b in bs && was == FreeBlocks(bs) && b in was &&
      listed == was - {b}
    requires OnlyLinks(mem0, mem1, was)
    ensures b < |mem0| && mem1[b] == mem0[b] && !IsLink(listed, b) && listed + {b} == was
    ensures OnlyLinks(mem0[b := v], mem1[b := v], was)
  {
    assert HeaderOk(mem0, bs, b);
    TagsAreNotLinks(bs, ends, |mem0|, was, b);
    TagsAreNotLinks(bs, ends, |mem0|, listed, b);
  }

  /** The payloads of the blocks in use, but for those excepted, read as before. */
  ghost predicate LiveKept(mem: seq<nat>, mem': seq<nat>, bs: Blocks, except: set<nat>) {
    |mem'| == |mem| &&
    forall x, w: nat {:trigger Inside(bs, x, w)} | x in bs && !bs[x].free && x !in except && Inside(bs, x, w) &&
      w < |mem| :: mem'[w] == mem[w]
  }

  predicate Inside(bs: Blocks, x: nat, w: nat)
    requires x in bs
  {
    x < w < Next(bs, x)
  }

  lemma KeepLists(mem: seq<nat>, mem': seq<nat>, heads: seq<nat>, bs: Blocks, listed: set<nat>, rank: map<nat, int>,
      w: nat)
    requires Lists(mem, heads, bs, listed, rank) && w < |mem| && !IsLink(listed, w) && |mem'| == |mem|
    requires forall v: nat | v < |mem| && v != w :: mem'[v] == mem[v]
    ensures Lists(mem', heads, bs, listed, rank)
  {
    forall b | b in listed ensures b in bs {
      LinksAt(mem, heads, bs, listed, rank, b);
    }
    ReplaceKeepsLists(mem, mem', heads, bs, bs, listed, rank);
  }

  /** With no bit at or above the class of the search, no listed block reaches the rounded request. */
  lemma NotSearched(mem: seq<nat>, heads: seq<nat>, rows: set<nat>, columns: seq<set<nat>>, bs: Blocks, ends: set<nat>,
                    listed: set<nat>, rank: map<nat, int>, size: nat, x: nat)
    requires Tiled(bs, ends, |mem|) && Lists(mem, heads, bs, listed, rank) && BitsOk(heads, rows, columns) &&
      x in listed
    requires MapSearch(size).fl < FL_COUNT && forall sl | sl in columns[MapSearch(size).fl] :: sl < MapSearch(size).sl
    requires forall r | r in rows :: r < MapSearch(size).fl + 1
    ensures x in bs && Bytes(bs, x) < RoundUp(size)
  {
    ListedHasHead(mem, heads, bs, ends, listed, rank, x);
    var c := MapInsert(Bytes(bs, x));
    InBucket(bs, ends, |mem|, x);
    assert Fits(bs, ends, |mem|, x);
    ClassInTable(Bytes(bs, x));
    assert c.sl in columns[c.fl] && c.fl in rows;
    if Bytes(bs, x) >= RoundUp(size) {
      EnoughIsSearched(Bytes(bs, x), size);
    }
  }

  /** The head of a list whose bit the search settles on is a block large enough. */
  lemma HeadIsEnough(mem: seq<nat>, heads: seq<nat>, rows: set<nat>, columns: seq<set<nat>>, bs: Blocks, ends: set<nat>,
                     listed: set<nat>, rank: map<nat, int>, size: nat, c: Class)
    requires Tiled(bs, ends, |mem|) && Lists(mem, heads, bs, listed, rank) && BitsOk(heads, rows, columns)
    requires c.fl < FL_COUNT && c.sl in columns[c.fl] && AtLeast(c, MapSearch(size)) && size < WORD && SearchStays(size)
    ensures Bucket(c) < BUCKETS && heads[Bucket(c)] != 0 && heads[Bucket(c)] in listed && heads[Bucket(c)] in bs
    ensures Bytes(bs, heads[Bucket(c)]) >= size <==> size <= MAX_REQUEST
  {
    var b := heads[Bucket(c)];
    assert HeadOk(mem, heads, bs, listed, Bucket(c));
    assert Fits(bs, ends, |mem|, b);
    ClassInTable(Bytes(bs, b));
    BucketSplits(MapInsert(Bytes(bs, b)), c);
    SearchInTable(size);
    if size <= MAX_REQUEST {
      SearchedIsEnough(Bytes(bs, b), size);
    }
  }

  lemma HeadOfSize(mem: seq<nat>, heads: seq<nat>, bs: Blocks, ends: set<nat>, listed: set<nat>, rank: map<nat, int>,
      need: nat)
    requires Tiled(bs, ends, |mem|) && Lists(mem, heads, bs, listed, rank) && 24 <= need < 256 && need % 8 == 0
    requires var k := Bucket(MapInsert(need)); k < BUCKETS && heads[k] != 0
    ensures
      var k := Bucket(MapInsert(need));
      FirstHead(heads, k) == heads[k] && heads[k] in listed && heads[k] in bs && Bytes(bs, heads[k]) == need
  {
    var k := Bucket(MapInsert(need));
    FirstHeadAt(heads, k, k);
    assert HeadOk(mem, heads, bs, listed, k);
    hide *;
    SameBucketSameSize(bs, heads[k], need);
  }

  lemma SameBucketSameSize(bs: Blocks, h: nat, need: nat)
    requires h in bs && BucketOf(bs, h) == Bucket(MapInsert(need)) && 24 <= need < 256 && need % 8 == 0
    ensures Bytes(bs, h) == need
  {
    assert BucketOf(bs, h) == Bucket(MapInsert(Bytes(bs, h)));
    assert Bytes(bs, h) % 8 == 0;
    hide *;
    SameClass(Bytes(bs, h), need);
    OneSize(need, Bytes(bs, h));
  }

  lemma SameClass(a: nat, b: nat)
    requires Bucket(MapInsert(a)) == Bucket(MapInsert(b))
    ensures MapInsert(a) == MapInsert(b)
  {
    ClassInTable(a);
    ClassInTable(b);
    hide MapInsert;
    BucketSplits(MapInsert(a), MapInsert(b));
  }

  lemma FirstHeadListed(mem: seq<nat>, heads: seq<nat>, bs: Blocks, listed: set<nat>, rank: map<nat, int>, k: nat)
    requires Lists(mem, heads, bs, listed, rank) && FirstHead(heads, k) != 0
    ensures FirstHead(heads, k) in listed && FirstHead(heads, k) in bs && BucketOf(bs, FirstHead(heads, k)) >= k
    decreases |heads| - k
  {
    assert k < BUCKETS ==> HeadOk(mem, heads, bs, listed, k);
    if k < BUCKETS && heads[k] == 0 {
      FirstHeadListed(mem, heads, bs, listed, rank, k + 1);
    }
  }

  lemma InsertedIsLinks(mem: seq<nat>, mem': seq<nat>, head: nat, b: nat, links: set<nat>)
    requires Inserted(mem, mem', head, b) && b in links && (head != 0 ==> head in links)
    ensures OnlyLinks(mem, mem', links)
  {}

  lemma RemovedIsLinks(mem: seq<nat>, mem': seq<nat>, heads: seq<nat>, bs: Blocks, listed: set<nat>, rank: map<nat,
      int>, b: nat)
    requires Removed(mem, mem', b) && |heads| == BUCKETS && LinksOk(mem, heads, bs, listed, rank, b)
    ensures OnlyLinks(mem, mem', listed)
  {}

  lemma PrevIsOther(mem: seq<nat>, heads: seq<nat>, bs: Blocks, listed: set<nat>, rank: map<nat, int>, b: nat)
    requires |heads| == BUCKETS && LinksOk(mem, heads, bs, listed, rank, b)
    ensures b + 2 < |mem| && (mem[b + 1] == b ==> b == 0)
  {}

  /** Clearing the class when its list has become empty, and only then, keeps the bitmaps right. */
  lemma BitsAfterRemoval(mem: seq<nat>, heads: seq<nat>, rows: set<nat>, columns: seq<set<nat>>, c: Class, b: nat)
    requires BitsOk(heads, rows, columns) && c.fl < FL_COUNT && c.sl < SL_COUNT && b + 2 < |mem|
    requires heads[Bucket(c)] != 0 && (mem[b + 1] == 0 ==> heads[Bucket(c)] == b)
    ensures Bucket(c) < BUCKETS
    ensures
      var heads' := RemovedHeads(mem, heads, b, Bucket(c));
      var column := columns[c.fl] - {c.sl};
      if heads'[Bucket(c)] == 0
      then BitsOk(heads', if column == {} then rows - {c.fl} else rows, columns[c.fl := column])
      else BitsOk(heads', rows, columns)
  {
    assert Bucket(c) < BUCKETS;
    var h := RemovedHeads(mem, heads, b, Bucket(c));
    if h[Bucket(c)] == 0 {
      BitClearedWhereNone(heads, rows, columns, c);
    } else {
      BitStays(heads, rows, columns, c, h[Bucket(c)]);
    }
    hide BitsOk;
    assert h == heads[Bucket(c) := h[Bucket(c)]];
  }

  lemma BitStays(heads: seq<nat>, rows: set<nat>, columns: seq<set<nat>>, c: Class, b: nat)
    requires BitsOk(heads, rows, columns) && c.fl < FL_COUNT && c.sl < SL_COUNT && Bucket(c) < BUCKETS
    requires heads[Bucket(c)] != 0 && b != 0
    ensures BitsOk(heads[Bucket(c) := b], rows, columns)
  {
    forall fl: nat, sl: nat | fl < FL_COUNT && sl < SL_COUNT
      ensures Bucket(Class(fl, sl)) == Bucket(c) <==> Class(fl, sl) == c {
      BucketSplits(Class(fl, sl), c);
    }
  }

  lemma ListedHasHead(mem: seq<nat>, heads: seq<nat>, bs: Blocks, ends: set<nat>, listed: set<nat>, rank: map<nat,
      int>, b: nat)
    requires Tiled(bs, ends, |mem|) && Lists(mem, heads, bs, listed, rank) && b in listed
    ensures b in bs && BucketOf(bs, b) < BUCKETS && heads[BucketOf(bs, b)] != 0
  {
    LinksAt(mem, heads, bs, listed, rank, b);
    assert Fits(bs, ends, |mem|, b);
    var i := WalkMeets(mem, heads, bs, listed, rank, b);
  }

  lemma MergeDown(mem0: seq<nat>, mem1: seq<nat>, mem2: seq<nat>, bs: Blocks, ends: set<nat>, listed: set<nat>, p: nat,
      b: nat, hi: nat)
    requires Freeing(mem0, mem1, bs, ends, listed + {p}, b, hi) && p !in listed && OnlyLinks(mem1, mem2, listed + {p})
    requires p in bs && bs[p].free && Next(bs, p) == b && NoFreeNeighbours(bs) && b in bs
    ensures p < |mem2| && b < |mem2| && SizeOf(mem2[p]) == Bytes(bs, p) && SizeOf(mem2[b]) == 8 * (hi - b - 1)
    ensures !IsLink(listed, p)
    ensures
      var v := WithSize(mem2[p], SizeOf(mem2[p]) + 8 + SizeOf(mem2[b]));
      Freeing(mem0, mem2[p := v], bs, ends, listed, p, hi)
    ensures NoFreeBefore(bs, p)
  {
    var v := WithSize(mem2[p], SizeOf(mem2[p]) + 8 + SizeOf(mem2[b]));
    assert HeaderOk(mem0, bs, p) && Fits(bs, ends, |mem0|, p);
    TagsAreNotLinks(bs, ends, |mem0|, FreeBlocks(bs), p);
    TagsAreNotLinks(bs, ends, |mem0|, listed + {p}, p);
    TagsAreNotLinks(bs, ends, |mem0|, listed + {p}, b);
    TagsAreNotLinks(bs, ends, |mem0|, listed, p);
    HeaderFields(SizeOf(mem2[p]) + 8 + SizeOf(mem2[b]), FreeBit(mem2[p]), PrevBit(mem2[p]));
    SizeOfWords(hi - p - 1);
    OnlyBlockThere(bs, ends, |mem0|, p);
    BlockIsStretch(bs, ends, |mem0|, p);
    assert mem1[p] == mem0[p] && mem2[p] == mem1[p] && mem2[b] == mem1[b];
    SubsetLinks(listed + {p}, FreeBlocks(bs));
  }

  lemma MergeUp(mem0: seq<nat>, mem1: seq<nat>, mem2: seq<nat>, bs: Blocks, ends: set<nat>, listed: set<nat>, lo: nat,
      n: nat)
    requires Freeing(mem0, mem1, bs, ends, listed + {n}, lo, n) && n !in listed && OnlyLinks(mem1, mem2, listed + {n})
    requires n in bs && bs[n].free && NoFreeNeighbours(bs)
    ensures lo < |mem2| && n < |mem2| && SizeOf(mem2[n]) == Bytes(bs, n) && SizeOf(mem2[lo]) == 8 * (n - lo - 1)
    ensures !IsLink(listed, lo)
    ensures
      var v := WithSize(mem2[lo], SizeOf(mem2[lo]) + 8 + SizeOf(mem2[n]));
      Freeing(mem0, mem2[lo := v], bs, ends, listed, lo, Next(bs, n)) && SizeOf(v) / 8 == Next(bs, n) - lo - 1
    ensures Next(bs, n) in bs ==> !bs[Next(bs, n)].free
  {
    var hi := Next(bs, n);
    assert HeaderOk(mem0, bs, n) && Fits(bs, ends, |mem0|, n);
    TagsAreNotLinks(bs, ends, |mem0|, FreeBlocks(bs), n);
    TagsAreNotLinks(bs, ends, |mem0|, listed + {n}, n);
    TagsAreNotLinks(bs, ends, |mem0|, listed + {n}, lo);
    TagsAreNotLinks(bs, ends, |mem0|, listed, lo);
    HeaderFields(SizeOf(mem2[lo]) + 8 + SizeOf(mem2[n]), FreeBit(mem2[lo]), PrevBit(mem2[lo]));
    SizeOfWords(hi - lo - 1);
    OnlyBlockThere(bs, ends, |mem0|, n);
    BlockIsStretch(bs, ends, |mem0|, n);
    assert mem2[lo] == mem1[lo] && mem2[n] == mem1[n] == mem0[n];
    SubsetLinks(listed + {n}, FreeBlocks(bs));
  }

  lemma SubsetLinks(links: set<nat>, more: set<nat>)
    requires links <= more
    ensures forall w | IsLink(links, w) :: IsLink(more, w)
  {}

  lemma FreeingEnds(mem0: seq<nat>, mem: seq<nat>, bs: Blocks, ends: set<nat>, listed: set<nat>, lo: nat, hi: nat)
    requires Freeing(mem0, mem, bs, ends, listed, lo, hi)
    ensures lo < hi < |mem| && hi >= 1 && !IsLink(listed, hi) && !IsLink(listed, hi - 1)
    ensures Encoded(mem0, bs, ends) && listed == (set x | x in FreeBlocks(bs) && !(lo <= x < hi)) && |mem| == |mem0|
    ensures forall x | x in listed :: x in bs && !(lo <= x < hi)
  {
    TagsAreNotLinks(bs, ends, |mem0|, listed, hi);
    forall x | x in listed ensures x + 1 != hi - 1 && x + 2 != hi - 1 {
      assert Fits(bs, ends, |mem0|, x);
      OutsideOf(bs, ends, |mem0|, lo, hi, x);
    }
  }

  /** What is merged with a block is free. */
  lemma OnlyFreedWithin(bs: Blocks, ends: set<nat>, n: nat, b: nat, lo: nat, hi: nat)
    requires Tiled(bs, ends, n) && b in bs
    requires lo == b || (lo in bs && bs[lo].free && Next(bs, lo) == b)
    requires hi == Next(bs, b) || (Next(bs, b) in bs && bs[Next(bs, b)].free && hi == Next(bs, Next(bs, b)))
    ensures forall x | x in bs && lo <= x < hi :: x == b || bs[x].free
  {
    OnlyBlockThere(bs, ends, n, b);
    OnlyBlockThere(bs, ends, n, lo);
    if hi != Next(bs, b) {
      OnlyBlockThere(bs, ends, n, Next(bs, b));
    }
  }

  lemma FreedRewritten(mem0: seq<nat>, mem1: seq<nat>, mem2: seq<nat>, bs: Blocks, ends: set<nat>, listed: set<nat>,
      lo: nat, hi: nat)
    requires Freeing(mem0, mem1, bs, ends, listed, lo, hi) && NoFreeBefore(bs, lo) && (hi in bs ==> !bs[hi].free)
    requires mem2 == mem1[hi := WithPrev(mem1[hi], true)][hi - 1 := lo]
    ensures
      var news := map[lo := Block(hi - lo - 1, true)];
      Stretch(bs, ends, lo, hi) && Fills(news, lo, hi) && Quiet(bs, lo, hi, news) &&
      Rewritten(mem0, mem2, FreeBlocks(bs), lo, hi, news)
    ensures SizeOf(mem2[lo]) == 8 * (hi - lo - 1)
  {
    var news := map[lo := Block(hi - lo - 1, true)];
    FillsOne(lo, hi, true);
    TagsAreNotLinks(bs, ends, |mem0|, FreeBlocks(bs), hi);
    HeaderFields(mem1[hi], FreeBit(mem1[hi]), true);
    assert Next(news, lo) == hi;
    assert mem1[hi] == mem0[hi];
    assert NewOk(mem2, news, lo, lo);
  }

  /** The free blocks once the stretch is one free block. */
  lemma FreeAfterMerge(bs: Blocks, listed: set<nat>, lo: nat, hi: nat)
    requires listed == (set x | x in FreeBlocks(bs) && !(lo <= x < hi)) && lo < hi
    ensures
      var bs' := Replace(bs, lo, hi, map[lo := Block(hi - lo - 1, true)]);
      FreeBlocks(bs') == listed + {lo} && lo in bs' && Bytes(bs', lo) == 8 * (hi - lo - 1) && lo !in listed &&
      (forall x | x in bs && !(lo <= x < hi) :: x in bs' && bs'[x] == bs[x])
  {
    var bs' := Replace(bs, lo, hi, map[lo := Block(hi - lo - 1, true)]);
    forall x ensures x in FreeBlocks(bs') <==> x in listed || x == lo {}
  }
}
