/** The 64-bit division routines of lib/compiler_rt.c: shift and subtract on unsigned words, and the signed
    wrappers around it. Words are integers and the wrap-around of their operations is written out. */
module Divider {
  import opened Basics

  const W64: nat := 0x1_0000_0000_0000_0000
  const S64_MIN: int := -0x8000_0000_0000_0000

  predicate IsU64(x: int) {
    0 <= x < W64
  }

  predicate IsS64(x: int) {
    S64_MIN <= x < 0x8000_0000_0000_0000
  }

  function ToS64(x: int): (s: int)
    ensures IsS64(s)
  {
    var u := x % W64;
    if u < 0x8000_0000_0000_0000 then u else u - W64
  }

  lemma Residue(x: int, k: int, r: nat)
    requires x == k * W64 + r && r < W64
    ensures x % W64 == r
  {}

  /** The signed reading of a word and of its negation. */
  lemma Wrapped(u: int)
    requires 0 <= u <= 0x8000_0000_0000_0000
    ensures ToS64(u) == if u < 0x8000_0000_0000_0000 then u else S64_MIN
    ensures ToS64(-ToS64(u)) == if u < 0x8000_0000_0000_0000 then -u else S64_MIN
  {
    Residue(u, 0, u);
    var s := ToS64(u);
    if 0 < u < 0x8000_0000_0000_0000 {
      Residue(-s, -1, W64 - u);
    } else {
      Residue(-s, 0, -s);
    }
  }

  /** The divisor shifted n times. */
  function Shifted(den: nat, n: nat): nat {
    den * Pow2(n)
  }

  lemma Doubled(den: nat, n: nat)
    ensures Shifted(den, n + 1) == 2 * Shifted(den, n) && Shifted(den, 0) == den
  {
    assert den * (2 * Pow2(n)) == 2 * (den * Pow2(n));
  }

  /** q counts how often unit goes into num, and n is what is left. */
  predicate Counted(num: nat, q: nat, unit: nat, n: nat) {
    num == q * unit + n && n < unit
  }

  lemma CountNone(num: nat, unit: nat)
    requires num < unit
    ensures Counted(num, 0, unit, num)
  {}

  /** One quotient bit: counting in halves of the unit. */
  lemma NextBit(num: nat, q: nat, d: nat, n: nat)
    requires Counted(num, q, 2 * d, n) && d > 0 && num < W64
    ensures 2 * q % W64 == 2 * q && (n >= d ==> (n - d) % W64 == n - d)
    ensures n >= d ==> Counted(num, 2 * q + 1, d, n - d) && 2 * q + 1 <= num
    ensures n < d ==> Counted(num, 2 * q, d, n)
    ensures 2 * q <= num && n <= num
  {
    assert q * (2 * d) == 2 * q * d && (2 * q + 1) * d == 2 * q * d + d;
    AtLeast(2 * q, d);
    AtLeast(2 * q + 1, d);
    Residue(2 * q, 0, 2 * q);
    if n >= d {
      Residue(n - d, 0, n - d);
    }
  }

  lemma AtLeast(a: nat, d: nat)
    requires d > 0
    ensures a * d >= a
  {
    assert a * d == a + a * (d - 1);
    assert a * (d - 1) >= 0;
  }

  /** udivmod64; dividing by zero gives zero and zero. */
  method UDivMod(num: nat, den: nat) returns (q: nat, r: nat)
    requires IsU64(num) && IsU64(den)
    ensures IsU64(q) && IsU64(r)
    ensures den == 0 ==> q == 0 && r == 0
    ensures den != 0 ==> num == q * den + r && r < den
  {
    q := 0;
    if den == 0 {
      return 0, 0;
    }
    if num < den {
      return 0, num;
    }
    hide Shifted, Counted, Pow2;
    var d: nat, n: nat, shift: int := den, num, 0;
    Doubled(den, 0);
    while d <= n / 2
      invariant shift >= 0 && d == Shifted(den, shift) && den <= d <= n == num
      decreases n - d
    {
      Doubled(den, shift);
      d := d * 2 % W64;
      shift := shift + 1;
    }
    Doubled(den, shift);
    CountNone(num, 2 * d);
    while shift >= 0
      invariant shift >= -1 && q <= num && Counted(num, q, Shifted(den, shift + 1), n)
      invariant shift >= 0 ==> d == Shifted(den, shift) && 0 < d < W64
      decreases shift
    {
      Doubled(den, shift);
      NextBit(num, q, d, n);
      q := 2 * q % W64;
      if n >= d {
        n := (n - d) % W64;
        q := q + 1;
      }
      assert Counted(num, q, Shifted(den, shift), n);
      if shift > 0 {
        Doubled(den, shift - 1);
        ShiftedPositive(den, shift - 1);
      }
      d := d / 2;
      shift := shift - 1;
    }
    Doubled(den, 0);
    CountedIs(num, q, den, n);
    return q, n;
  }

  lemma ShiftedPositive(den: nat, n: nat)
    requires den > 0
    ensures Shifted(den, n) > 0
  {
    AtLeast(Pow2(n), den);
  }

  lemma CountedIs(num: nat, q: nat, unit: nat, n: nat)
    requires Counted(num, q, unit, n)
    ensures num == q * unit + n && n < unit
  {}

  // ---- signed division ----

  /** q and r are the quotient and remainder of division towards zero (C11, section 6.5.5): the remainder is smaller
      than the divisor and has the sign of the dividend. */
  predicate Divides(num: int, den: int, q: int, r: int) {
    den != 0 && num == q * den + r && Abs(r) < Abs(den) && (num >= 0 ==> r >= 0) && (num <= 0 ==> r <= 0)
  }

  function Signed(neg: bool, u: int): int {
    if neg then -u else u
  }

  function Abs(x: int): nat {
    if x < 0 then -x else x
  }

  lemma DividesOnce(num: int, den: int, q: int, r: int, q2: int, r2: int)
    requires Divides(num, den, q, r) && Divides(num, den, q2, r2)
    ensures q == q2 && r == r2
  {
    assert (q - q2) * den == r2 - r && (q2 - q) * den == r - r2;
    if q > q2 {
      Multiple(q - q2, den);
    }
    if q2 > q {
      Multiple(q2 - q, den);
    }
  }

  lemma Multiple(k: int, den: int)
    requires k >= 1
    ensures Abs(k * den) >= Abs(den)
  {
    if den >= 0 {
      assert k * den == den + (k - 1) * den;
    } else {
      assert k * den == den + (k - 1) * den;
    }
  }

  /** abs_s64_to_u64: also right for the smallest value. */
  method AbsU64(v: int) returns (u: nat)
    requires IsS64(v)
    ensures u == Abs(v) && IsU64(u)
  {
    u := v % W64;
    if v >= 0 {
      return;
    }
    u := (W64 - 1 - u + 1) % W64;
  }

  /** The magnitudes and signs of the two results. */
  lemma Signs(num: int, den: int, q: nat, r: nat)
    requires den != 0 && Abs(num) == q * Abs(den) + r && r < Abs(den)
    ensures Divides(num, den, Signed((num < 0) != (den < 0), q), Signed(num < 0, r))
  {
    Flip(q, den);
  }

  lemma Flip(q: int, den: int)
    ensures (-q) * den == -(q * den) && q * (-den) == -(q * den)
  {
  }

  lemma QuotientBound(num: nat, den: nat, q: nat, r: nat)
    requires num == q * den + r && den > 0
    ensures q <= num && (den >= 2 ==> 2 * q <= num) && (den == 1 && r < den ==> q == num)
  {
    AtLeast(q, den);
    if den >= 2 {
      assert q * den == 2 * q + q * (den - 2);
      assert q * (den - 2) >= 0;
    }
  }

  lemma OnlyExact(num: int, den: int, q: int, exact: int, r: int)
    requires Divides(num, den, exact, r)
    ensures (exists r2: int :: Divides(num, den, q, r2)) <==> q == exact
  {
    if r2: int :| Divides(num, den, q, r2) {
      DividesOnce(num, den, q, r2, exact, r);
    }
  }

  /** The quotient of the magnitudes, with its sign, is a 64-bit number but for the one case. */
  lemma InRange(num: int, den: int, uq: nat)
    requires IsS64(num) && IsS64(den) && den != 0 && uq <= Abs(num) && (Abs(den) >= 2 ==> 2 * uq <= Abs(num)) &&
      (Abs(den) == 1 ==> uq == Abs(num))
    ensures
      var neg := (num < 0) != (den < 0);
      (if neg then ToS64(-ToS64(uq)) else ToS64(uq)) == Signed(neg, uq) <==> !(num == S64_MIN && den == -1)
  {
    Wrapped(uq);
  }

  /** __divdi3: the quotient for every dividend and divisor but the smallest number divided by -1, whose quotient is
      no 64-bit number. */
  method DivS64(num: int, den: int) returns (q: int)
    requires IsS64(num) && IsS64(den)
    ensures IsS64(q) && (den == 0 ==> q == 0)
    ensures den != 0 ==> ((exists r: int :: Divides(num, den, q, r)) <==> !(num == S64_MIN && den == -1))
  {
    var neg := (num < 0) != (den < 0);
    var a := AbsU64(num);
    var b := AbsU64(den);
    var uq, ur := UDivMod(a, b);
    q := ToS64(uq);
    if neg {
      q := ToS64(-q);
    }
    if den != 0 {
      Signs(num, den, uq, ur);
      QuotientBound(a, b, uq, ur);
      ghost var exact := Signed(neg, uq);
      InRange(num, den, uq);
      hide Divides, Abs, ToS64;
      OnlyExact(num, den, q, exact, Signed(num < 0, ur));
    }
  }

  lemma SmallRemainder(ur: int)
    requires 0 <= ur < 0x8000_0000_0000_0000
    ensures ToS64(ur) == ur && ToS64(-ToS64(ur)) == -ur
  {
    Wrapped(ur);
  }

  /** __moddi3: the remainder, for every dividend and divisor. */
  method ModS64(num: int, den: int) returns (r: int)
    requires IsS64(num) && IsS64(den)
    ensures IsS64(r) && (den == 0 ==> r == 0)
    ensures den != 0 ==> exists q: int :: Divides(num, den, q, r)
  {
    var a := AbsU64(num);
    var b := AbsU64(den);
    var uq, ur := UDivMod(a, b);
    if num < 0 {
      r := ToS64(-ToS64(ur));
    } else {
      r := ToS64(ur);
    }
    if den != 0 {
      Signs(num, den, uq, ur);
      SmallRemainder(ur);
    }
  }
}
