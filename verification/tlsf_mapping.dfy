/** The two-level size classes of mm/tlsf.c: where a block is filed, where a search starts, and why
    whatever the search meets is large enough. */
module TlsfMapping {
  import opened Basics

  const SL_BITS: nat := 4
  const SL_COUNT: nat := 16
  const FL_COUNT: nat := 25
  const BUCKETS: nat := 400
  /** uint32_t, and size_t. */
  const WORD: nat := 0x1_0000_0000
  const SIZE: nat := 0x1_0000_0000_0000_0000

  /** bsr: the index of the highest set bit. */
  function Fls(v: nat): (n: nat)
    requires v > 0
    ensures Pow2(n) <= v < Pow2(n + 1)
  {
    if v == 1 then 0 else 1 + Fls(v / 2)
  }

  /** A number between two neighbouring powers of two has just the lower one's index. */
  lemma FlsUnique(v: nat, n: nat)
    requires v > 0 && Pow2(n) <= v < Pow2(n + 1)
    ensures Fls(v) == n
  {
    if Fls(v) < n {
      Pow2Monotone(Fls(v) + 1, n);
    } else if n < Fls(v) {
      Pow2Monotone(n + 1, Fls(v));
    }
  }

  lemma FlsMonotone(v: nat, w: nat)
    requires 0 < v <= w
    ensures Fls(v) <= Fls(w)
  {
    if Fls(w) < Fls(v) {
      Pow2Monotone(Fls(w) + 1, Fls(v));
    }
  }

  /** The shift that drops the low bits of a size, and the size with those bits cleared. */
  function Quot(x: nat, g: nat): nat
    requires g >= 1
  {
    x / g
  }

  function FloorTo(x: nat, g: nat): int
    requires g >= 1
  {
    Quot(x, g) * g
  }

  /** Row and column of a size class. */
  datatype Class = Class(fl: nat, sl: nat)

  /** The width of the classes that hold sizes like this one. */
  function Grain(size: nat): (g: nat)
    requires size >= SL_COUNT
    ensures g >= 1
  {
    FlsMonotone(16, size);
    Pow2(Fls(size) - SL_BITS)
  }

  function MapInsert(size: nat): Class {
    if size < SL_COUNT then Class(0, size) else Class(Fls(size), Quot(size, Grain(size)) % SL_COUNT)
  }

  /** The size with the rounding added, and what is left of it in 32 bits. */
  function Raised(size: nat): nat {
    if size < SL_COUNT then size else size + Grain(size) - 1
  }

  function RoundUp(size: nat): nat {
    Raised(size) % WORD
  }

  function MapSearch(size: nat): Class {
    MapInsert(RoundUp(size))
  }

  predicate AtLeast(c: Class, d: Class) {
    c.fl > d.fl || (c.fl == d.fl && c.sl >= d.sl)
  }

  /** The smallest size filed in the same class. */
  function Floor(size: nat): int {
    if size < SL_COUNT then size else FloorTo(size, Grain(size))
  }

  lemma RowWidth(size: nat)
    requires size >= SL_COUNT
    ensures Fls(size) >= SL_BITS && Pow2(Fls(size)) == SL_COUNT * Grain(size)
  {
    var fl := Fls(size);
    FlsMonotone(16, size);
    assert Fls(16) == 4;
    assert Pow2(fl) == 2 * Pow2(fl - 1) == 4 * Pow2(fl - 2) == 8 * Pow2(fl - 3) == 16 * Pow2(fl - 4);
  }

  lemma GrainBounds(size: nat)
    requires size >= SL_COUNT
    ensures 16 * Grain(size) <= size < 32 * Grain(size)
  {
    RowWidth(size);
    hide Grain;
  }

  lemma MulMonotone(x: nat, y: nat, g: nat)
    requires x <= y
    ensures x * g <= y * g
  {}

  lemma QuotAtLeast(x: nat, g: nat, n: nat)
    requires g >= 1
    ensures Quot(x, g) >= n <==> x >= n * g
  {
    var q := Quot(x, g);
    assert q * g <= x < q * g + g;
    if q >= n {
      MulMonotone(n, q, g);
    } else {
      MulMonotone(q + 1, n, g);
    }
  }

  lemma FloorBounds(x: nat, g: nat)
    requires g >= 1
    ensures FloorTo(x, g) <= x < FloorTo(x, g) + g
  {}

  /** The second-level index is the quotient without its leading 1. */
  lemma ColumnOf(size: nat)
    requires size >= SL_COUNT
    ensures MapInsert(size).sl == Quot(size, Grain(size)) - SL_COUNT
    ensures SL_COUNT <= Quot(size, Grain(size)) < 2 * SL_COUNT
    ensures Floor(size) <= size < Floor(size) + Grain(size)
  {
    GrainBounds(size);
    QuotAtLeast(size, Grain(size), 16);
    QuotAtLeast(size, Grain(size), 32);
    FloorBounds(size, Grain(size));
    hide Grain, Quot, FloorTo, Fls;
  }

  /** Row fl holds the sizes from 2^fl on, and each of its sixteen columns a sixteenth of them; sizes below 16 have a
      class each. */
  lemma ClassSpans(size: nat)
    ensures
      var c := MapInsert(size);
      if size < 16 then c == Class(0, size)
      else
        Pow2(c.fl) <= size < 2 * Pow2(c.fl) && c.sl < 16 &&
        Pow2(c.fl) * (16 + c.sl) <= 16 * size < Pow2(c.fl) * (17 + c.sl)
  {
    if size >= 16 {
      RowWidth(size);
      ColumnOf(size);
      var g, q := Grain(size), Quot(size, Grain(size));
      hide Grain, Quot, Fls;
      SixteenTimes(size, g, q);
    }
  }

  lemma SixteenTimes(size: nat, g: nat, q: nat)
    requires g * q <= size < g * q + g
    ensures 16 * g * q <= 16 * size < 16 * g * (q + 1)
  {
    assert 16 * g * q == 16 * (g * q) && 16 * g * (q + 1) == 16 * (g * q) + 16 * g;
  }

  /** Filing is monotone: a class at least as high holds sizes at least as high as its floor. */
  lemma HigherClassIsLarger(b: nat, r: nat)
    requires AtLeast(MapInsert(b), MapInsert(r))
    ensures b >= Floor(r)
  {
    if r >= SL_COUNT {
      RowWidth(r);
      assert MapInsert(r).fl == Fls(r) > 0;
      if b >= SL_COUNT {
        assert MapInsert(b).fl == Fls(b);
        if Fls(b) == Fls(r) {
          HigherColumn(b, r);
        } else {
          HigherRow(b, r);
        }
      }
    }
    hide Quot, Fls, Grain, FloorTo;
  }

  lemma HigherRow(b: nat, r: nat)
    requires b >= SL_COUNT && r >= SL_COUNT && Fls(b) > Fls(r)
    ensures b >= Floor(r)
  {
    Pow2Monotone(Fls(r) + 1, Fls(b));
    ColumnOf(r);
    hide Grain, FloorTo;
  }

  lemma HigherColumn(b: nat, r: nat)
    requires b >= SL_COUNT && r >= SL_COUNT && Fls(b) == Fls(r) && MapInsert(b).sl >= MapInsert(r).sl
    ensures b >= Floor(r)
  {
    assert Grain(b) == Grain(r) && Floor(r) == FloorTo(r, Grain(r));
    hide *;
    assert SL_COUNT == 16;
    ColumnOf(b);
    ColumnOf(r);
    QuotientOrder(b, r, Grain(r));
  }

  lemma QuotientOrder(b: nat, r: nat, g: nat)
    requires g >= 1 && Quot(b, g) >= Quot(r, g)
    ensures b >= FloorTo(r, g)
  {
    MulMonotone(Quot(r, g), Quot(b, g), g);
    FloorBounds(b, g);
    hide Quot;
  }

  lemma LargerIsHigherClass(b: nat, r: nat)
    requires b >= r
    ensures AtLeast(MapInsert(b), MapInsert(r))
  {
    if r >= SL_COUNT {
      ColumnOf(r);
      ColumnOf(b);
      FlsMonotone(r, b);
      if Fls(b) == Fls(r) {
        FloorBounds(r, Grain(r));
        QuotAtLeast(b, Grain(r), Quot(r, Grain(r)));
      }
    } else if b >= SL_COUNT {
      FlsMonotone(16, b);
      assert Fls(16) == 4;
    }
    hide Quot, Fls, Grain;
  }

  /** Rounding a size up by all but one of a class width, then down to the class, reaches the size. */
  lemma RoundingReaches(r: nat, g: nat)
    requires g >= 1
    ensures FloorTo(r + g - 1, g) >= r
  {
    FloorBounds(r + g - 1, g);
    hide FloorTo;
  }

  lemma CarryReaches(x: nat, g: nat)
    requires g >= 1 && 32 * g <= x
    ensures FloorTo(x, 2 * g) >= 32 * g
  {
    QuotAtLeast(x, 2 * g, 16);
    MulMonotone(16, Quot(x, 2 * g), 2 * g);
  }

  /** Rounding up either stays in its row or carries into the first class of the next one. */
  lemma RaisedRow(r: nat)
    requires r >= SL_COUNT
    ensures 16 * Grain(r) <= r < 32 * Grain(r)
    ensures Raised(r) < 32 * Grain(r) ==> Fls(Raised(r)) == Fls(r) && Grain(Raised(r)) == Grain(r)
    ensures Raised(r) >= 32 * Grain(r) ==> Fls(Raised(r)) == Fls(r) + 1 && Grain(Raised(r)) == 2 * Grain(r)
  {
    RowWidth(r);
    GrainBounds(r);
    if Raised(r) < 32 * Grain(r) {
      FlsUnique(Raised(r), Fls(r));
    } else {
      assert Pow2(Fls(r) + 2) == 2 * Pow2(Fls(r) + 1) == 4 * Pow2(Fls(r));
      FlsUnique(Raised(r), Fls(r) + 1);
      assert Pow2(Fls(r) - 3) == 2 * Pow2(Fls(r) - 4);
    }
    hide Fls;
  }

  /** Rounding up reaches the class boundary at or above the request, also when it carries into the
      next row. */
  lemma RaisedReaches(r: nat)
    ensures Floor(Raised(r)) >= r
  {
    if r >= SL_COUNT {
      RaisedRow(r);
      RoundingReaches(r, Grain(r));
      if Raised(r) >= 32 * Grain(r) {
        CarryReaches(Raised(r), Grain(r));
      }
    }
    hide Grain, FloorTo, Quot, Fls;
  }

  /** Good fit: every block filed at or above the class where the search starts is large enough. */
  lemma SearchedIsEnough(b: nat, r: nat)
    requires r <= LAST_UNWRAPPED && AtLeast(MapInsert(b), MapSearch(r))
    ensures b >= r
  {
    RoundUpExact(r);
    HigherClassIsLarger(b, RoundUp(r));
    RaisedReaches(r);
  }

  /** Nothing large is missed: a block that reaches the rounded request is filed where the search looks. */
  lemma EnoughIsSearched(b: nat, r: nat)
    requires b >= RoundUp(r)
    ensures AtLeast(MapInsert(b), MapSearch(r))
  {
    LargerIsHigherClass(b, RoundUp(r));
  }

  lemma TableLimits()
    ensures Pow2(20) == 0x10_0000 && Pow2(24) == 0x100_0000 && Pow2(25) == 0x200_0000
    ensures Pow2(27) == 0x800_0000 && Pow2(31) == 0x8000_0000 && Pow2(32) == WORD
  {
    assert Pow2(5) == 32;
    Pow2Add(5, 5);
    Pow2Add(10, 10);
    assert Pow2(4) == 16;
    Pow2Add(20, 4);
    Pow2Add(20, 5);
    assert Pow2(27) == 2 * Pow2(26) == 4 * Pow2(25);
    Pow2Add(27, 4);
    Pow2Add(27, 5);
  }

  /** Classes of sizes below 2^25 stay inside the table. */
  lemma ClassInTable(size: nat)
    ensures MapInsert(size).fl < FL_COUNT <==> size < 0x200_0000
    ensures MapInsert(size).sl < SL_COUNT
  {
    TableLimits();
    if size >= SL_COUNT {
      ColumnOf(size);
      if Fls(size) >= 25 {
        Pow2Monotone(25, Fls(size));
      } else {
        Pow2Monotone(Fls(size) + 1, 25);
      }
    }
  }

  // ---- 32-bit arithmetic ----

  /** The largest size whose rounding fits 32 bits, and the sizes from which and up to which the wrapped
      sum names a class inside the table. */
  const LAST_UNWRAPPED: nat := 0xF800_0000
  const LAST_WRAPPED_INSIDE: nat := 0xFA00_0000
  /** The largest size before those whose search starts inside the table. */
  const MAX_REQUEST: nat := 0x1F0_0000

  /** The rounding is lost to the 32-bit sum exactly above 2^32 - 2^27. */
  lemma RoundUpExact(r: nat)
    requires r < WORD
    ensures RoundUp(r) == Raised(r) <==> r <= LAST_UNWRAPPED
    ensures r > LAST_UNWRAPPED ==> RoundUp(r) == r - LAST_UNWRAPPED - 1
  {
    TableLimits();
    if r >= 0x8000_0000 {
      FlsUnique(r, 31);
      assert Raised(r) == r + 0x800_0000 - 1;
    } else if r >= SL_COUNT {
      GrainBounds(r);
    }
    hide Fls, Pow2, Grain;
    assert Raised(r) < 2 * WORD;
  }

  predicate SearchStays(r: nat) {
    MapSearch(r).fl < FL_COUNT
  }

  /** Where the search for a 32-bit size starts inside the table: up to 2^25 - 2^20, and then again where the sum
      has wrapped around to less than 2^25. */
  lemma SearchInTable(r: nat)
    requires r < WORD
    ensures SearchStays(r) <==> r <= MAX_REQUEST || LAST_UNWRAPPED < r <= LAST_WRAPPED_INSIDE
  {
    ClassInTable(RoundUp(r));
    RoundUpExact(r);
    TableLimits();
    if 0x100_0000 <= r < 0x200_0000 {
      FlsUnique(r, 24);
      assert Raised(r) == r + 0x10_0000 - 1;
    } else if SL_COUNT <= r < 0x100_0000 {
      GrainBounds(r);
    }
    hide Fls, Pow2, MapInsert, Grain, RoundUp;
  }

  /** Good fit holds of a 32-bit size exactly when its rounding does not wrap around. */
  lemma GoodFitExactly(r: nat)
    requires r < WORD
    ensures (forall b: nat {:trigger MapInsert(b)} ::
      AtLeast(MapInsert(b), MapSearch(r)) ==> b >= r) <==> r <= LAST_UNWRAPPED
  {
    if r <= LAST_UNWRAPPED {
      forall b: nat | AtLeast(MapInsert(b), MapSearch(r)) ensures b >= r {
        SearchedIsEnough(b, r);
      }
    } else {
      RoundUpExact(r);
      assert AtLeast(MapInsert(RoundUp(r)), MapSearch(r));
    }
  }

  /** A size whose search starts at the class of 7 bytes, where any block will do. */
  lemma WrappedSearch()
    ensures RoundUp(0xF800_0008) == 7 && MapSearch(0xF800_0008) == Class(0, 7)
    ensures AtLeast(MapInsert(24), MapSearch(0xF800_0008))
  {
    RoundUpExact(0xF800_0008);
    LargerIsHigherClass(24, 7);
  }

  // ---- requests ----

  /** What tlsf_malloc asks for: whole words, at least the smallest payload, in size_t arithmetic. */
  function Aligned(size: nat): nat {
    var a := (size + 7) % SIZE / 8 * 8;
    if a < 24 then 24 else a
  }

  /** What it searches for, cast to 32 bits. */
  function Searched(size: nat): nat {
    Aligned(size) % WORD
  }

  lemma AlignedUp(size: nat)
    requires size < SIZE
    ensures Aligned(size) >= 24 && Aligned(size) % 8 == 0 && Aligned(size) < SIZE
    ensures size + 7 < SIZE ==> size <= Aligned(size) && (size > 24 ==> Aligned(size) <= size + 7)
    ensures size <= 24 ==> Aligned(size) == 24
  {
    var a := (size + 7) % SIZE;
    assert a / 8 * 8 <= a < a / 8 * 8 + 8 && a / 8 * 8 % 8 == 0;
    assert a < SIZE && (size + 7 < SIZE ==> a == size + 7);
  }

  lemma CastDown(a: nat)
    requires a % 8 == 0
    ensures a % WORD < WORD && a % WORD % 8 == 0 && (a < WORD ==> a % WORD == a)
  {}

  lemma SearchedFor(size: nat)
    requires size < SIZE
    ensures Searched(size) < WORD && Searched(size) % 8 == 0
    ensures size <= MAX_REQUEST ==> 24 <= Searched(size) == Aligned(size) <= MAX_REQUEST && Aligned(size) >= size
    ensures MAX_REQUEST < size < WORD - 7 ==> MAX_REQUEST < Searched(size) <= size + 7
  {
    AlignedUp(size);
    CastDown(Aligned(size));
    hide Aligned;
    if size <= MAX_REQUEST {
      assert Aligned(size) <= MAX_REQUEST + 7 && Aligned(size) % 8 == 0 && MAX_REQUEST % 8 == 0;
    }
  }

  /** For every size_t request whose search stays in the table, any block that the search can come to, of those the
      table is for, is as large as the request exactly when the request is at most 2^25 - 2^20. */
  lemma GoodFitForRequests(size: nat, b: nat)
    requires size < SIZE && SearchStays(Searched(size)) && b < 0x200_0000
    requires AtLeast(MapInsert(b), MapSearch(Searched(size)))
    ensures b >= size <==> size <= MAX_REQUEST
  {
    SearchedFor(size);
    SearchInTable(Searched(size));
    hide Searched, Aligned, SearchStays, MapSearch, MapInsert;
    if size <= MAX_REQUEST {
      SearchedIsEnough(b, Searched(size));
    }
  }

  lemma SmallGrain(s: nat)
    requires 16 <= s < 256
    ensures Fls(s) == if s < 32 then 4 else if s < 64 then 5 else if s < 128 then 6 else 7
    ensures Grain(s) == if s < 32 then 1 else if s < 64 then 2 else if s < 128 then 4 else 8
  {
    assert Pow2(4) == 16 && Pow2(3) == 8 && Pow2(2) == 4 && Pow2(1) == 2 && Pow2(0) == 1;
    assert Pow2(5) == 2 * Pow2(4) && Pow2(6) == 2 * Pow2(5) && Pow2(7) == 2 * Pow2(6) && Pow2(8) == 2 * Pow2(7);
    FlsUnique(s, if s < 32 then 4 else if s < 64 then 5 else if s < 128 then 6 else 7);
    hide Fls;
  }

  lemma Undivided(b: nat, need: nat, g: nat)
    requires g == 1 || g == 2 || g == 4 || g == 8
    requires need % 8 == 0
    ensures Quot(need + g - 1, g) == Quot(need, g)
    ensures b % 8 == 0 && Quot(b, g) == Quot(need, g) ==> b == need
  {}

  /** Below 256 bytes a class holds one size of whole words only, and the search for that size starts there. */
  lemma SearchesOwnClass(need: nat)
    requires 24 <= need < 256 && need % 8 == 0
    ensures MapSearch(need) == MapInsert(need)
  {
    hide Quot, Fls, Grain;
    assert need <= 248;
    SmallGrain(need);
    var g := Grain(need);
    var up := need + g - 1;
    assert up < 256 && Raised(need) == up;
    SmallGrain(up);
    Undivided(need, need, g);
    assert RoundUp(need) == up;
  }

  lemma OneSize(need: nat, b: nat)
    requires 24 <= need < 256 && need % 8 == 0
    ensures b % 8 == 0 && MapInsert(b) == MapInsert(need) ==> b == need
  {
    if b >= SL_COUNT && Fls(b) == Fls(need) {
      SmallGrain(need);
      assert Grain(b) == Grain(need);
      ColumnOf(need);
      ColumnOf(b);
      Undivided(b, need, Grain(need));
    } else {
      assert MapInsert(need).fl == Fls(need);
      SmallGrain(need);
    }
    hide Quot, Fls, Grain;
  }

  lemma RoundsTo24()
    ensures RoundUp(24) == 24 && Aligned(24) == 24
  {
    SmallGrain(24);
  }

  lemma SmallRequest(size: nat)
    requires 0 < size < SIZE && Aligned(size) < 256
    ensures
      var need := Aligned(size);
      24 <= need && need % 8 == 0 && Searched(size) == need && SearchStays(need) &&
        MapSearch(need) == MapInsert(need) &&
      need <= LAST_UNWRAPPED
  {
    var need := Aligned(size);
    AlignedUp(size);
    CastDown(need);
    hide Aligned, SearchStays, MapSearch, MapInsert;
    SearchesOwnClass(need);
    SearchInTable(need);
  }

  /** 2^32 + 24 bytes are searched for as 24, and a block of 24 is found. */
  lemma TruncatedRequest()
    ensures Searched(0x1_0000_0018) == 24 && AtLeast(MapInsert(24), MapSearch(Searched(0x1_0000_0018)))
  {
    RoundUpExact(24);
    RaisedRow(24);
    assert Fls(24) == 4 && Grain(24) == 1;
  }
}
