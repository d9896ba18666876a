/** The desktop theme's configuration text (syscall/syscall.c:58-302, 320-435): how it is written and read. */
module ThemeConfig {
  import opened Options
  import opened Basics
  import F = KernelFormat

  /** flags is not part of the text. */
  datatype Theme = Theme(accent: nat, mode: nat, solid: nat, style: nat, flags: nat, path: string)

  const GRADIENT: nat := 0
  const SOLID: nat := 1
  const WALLPAPER: nat := 2
  const SCALE_FILL: nat := 0
  const CENTER: nat := 1
  const PATH_CAP: nat := 128
  const TEXT_CAP: nat := 512
  const TEXT_MAX: nat := 1024
  const WORD: nat := 0x1_0000_0000

  const DEFAULTS: Theme := Theme(0xFF4FC3F7, GRADIENT, 0xFF1B2838, SCALE_FILL, 0, "")

  // ---- numbers ----

  function HexDigit(c: char): Option<nat> {
    if '0' <= c <= '9' then Some((c as int) - ('0' as int))
    else if 'a' <= c <= 'f' then Some(10 + (c as int) - ('a' as int))
    else if 'A' <= c <= 'F' then Some(10 + (c as int) - ('A' as int))
    else None
  }

  predicate AllHex(s: string) {
    forall i | 0 <= i < |s| :: HexDigit(s[i]).Some?
  }

  function HexValue(s: string): nat {
    if s == "" then 0 else HexValue(s[..|s| - 1]) * 16 + match HexDigit(s[|s| - 1]) case Some(d) => d case None => 0
  }

  function AfterPrefix(s: string): string {
    if |s| >= 2 && s[0] == '0' && (s[1] == 'x' || s[1] == 'X') then s[2..] else s
  }

  /** One to eight hexadecimal digits, after an optional 0x. */
  function ParsedHex(s: string): Option<nat> {
    var t := AfterPrefix(s);
    if 1 <= |t| <= 8 && AllHex(t) then Some(HexValue(t)) else None
  }

  predicate AllDecimal(s: string) {
    forall i | 0 <= i < |s| :: '0' <= s[i] <= '9'
  }

  function DecimalValue(s: string): nat {
    if s == "" then 0
    else DecimalValue(s[..|s| - 1]) * 10 + if '0' <= s[|s| - 1] <= '9' then (s[|s| - 1] as int) - ('0' as int) else 0
  }

  /** Decimal digits whose value is a 32-bit word. */
  function ParsedDecimal(s: string): Option<nat> {
    if s != "" && AllDecimal(s) && DecimalValue(s) < WORD then Some(DecimalValue(s)) else None
  }

  lemma {:induction false} DecimalGrows(s: string, i: nat)
    requires i <= |s|
    ensures DecimalValue(s[..i]) <= DecimalValue(s)
    decreases |s| - i
  {
    if i < |s| {
      assert s[..i + 1][..i] == s[..i];
      DecimalGrows(s, i + 1);
    } else {
      assert s[..i] == s;
    }
  }

  lemma {:induction false} HexBound(s: string)
    requires |s| <= 8
    ensures HexValue(s) < Pow2(4 * |s|) <= WORD
  {
    Sixteen(|s|);
    if s != "" {
      HexBound(s[..|s| - 1]);
      Sixteen(|s| - 1);
    }
  }

  lemma Sixteen(n: nat)
    requires n <= 8
    ensures Pow2(4 * n) <= WORD && (n > 0 ==> Pow2(4 * n) == 16 * Pow2(4 * (n - 1)))
  {
    if n > 0 {
      assert Pow2(4 * n) == 2 * Pow2(4 * n - 1) == 4 * Pow2(4 * n - 2) == 8 * Pow2(4 * n - 3) == 16 * Pow2(4 * n - 4);
    }
    PowBelow(4 * n);
  }

  lemma PowBelow(n: nat)
    requires n <= 32
    ensures Pow2(n) <= WORD
  {
    Pow2Add(n, 32 - n);
    Pow2Of32();
    assert Pow2(n) * Pow2(32 - n) >= Pow2(n) by {
      Product(Pow2(n), Pow2(32 - n));
    }
  }

  lemma Product(a: nat, b: nat)
    requires b >= 1
    ensures a * b >= a
  {
    assert a * b == a + a * (b - 1);
    assert a * (b - 1) >= 0;
  }

  lemma HexStep(t: string, p: nat)
    requires p < |t| && p < 8 && AllHex(t[..p]) && HexDigit(t[p]).Some?
    ensures AllHex(t[..p + 1]) && HexValue(t[..p + 1]) == HexValue(t[..p]) * 16 + HexDigit(t[p]).value < WORD
  {
    assert t[..p + 1][..p] == t[..p];
    HexBound(t[..p + 1]);
    hide HexDigit;
  }

  /** parse_hex_u32. */
  method ParseHex(s: string) returns (r: Option<nat>)
    ensures r == ParsedHex(s)
  {
    var t := s;
    if |s| >= 2 && s[0] == '0' && (s[1] == 'x' || s[1] == 'X') {
      t := s[2..];
    }
    assert t == AfterPrefix(s);
    var v, p := 0, 0;
    assert t[..0] == "" && AllHex(t[..0]) && HexValue(t[..0]) == 0;
    hide HexDigit, HexValue, AfterPrefix;
    while p < |t|
      invariant p <= |t| && p <= 8 && AllHex(t[..p]) && v == HexValue(t[..p]) && v < WORD
    {
      var d := HexDigit(t[p]);
      if d.None? {
        return None;
      }
      if p + 1 > 8 {
        return None;
      }
      HexStep(t, p);
      v := v * 16 + d.value;
      p := p + 1;
    }
    assert t[..p] == t;
    if p <= 0 {
      return None;
    }
    return Some(v);
  }

  /** parse_dec_u32. */
  method ParseDecimal(s: string) returns (r: Option<nat>)
    ensures r == ParsedDecimal(s)
  {
    var v, p := 0, 0;
    while p < |s|
      invariant p <= |s| && AllDecimal(s[..p]) && v == DecimalValue(s[..p]) && v < WORD
    {
      if s[p] < '0' || s[p] > '9' {
        return None;
      }
      var d: nat := (s[p] as int) - ('0' as int);
      assert s[..p + 1][..p] == s[..p];
      DecimalGrows(s, p + 1);
      if v > 429496729 || (v == 429496729 && d > 5) {
        return None;
      }
      v := v * 10 + d;
      p := p + 1;
    }
    assert s[..p] == s;
    if p <= 0 {
      return None;
    }
    return Some(v);
  }

  /** What the formatter prints with %08X, the parser reads back: for every word. */
  lemma HexRoundTrip(v: nat)
    requires v < WORD
    ensures
      var t := F.Padded(F.Digits(v, 16, F.UPPER), '0', 8);
      |t| == 8 && ParsedHex("0x" + t) == Some(v)
  {
    PaddedHex(v);
    PrefixedHex(F.Padded(F.Digits(v, 16, F.UPPER), '0', 8));
  }

  lemma PaddedHex(v: nat)
    requires v < WORD
    ensures var t := F.Padded(F.Digits(v, 16, F.UPPER), '0', 8); |t| == 8 && AllHex(t) && HexValue(t) == v
  {
    hide F.Digits, HexValue, AllHex, Pow2;
    HexDigitsOf(v);
    Pow2Of32();
    HexLength(v, 8);
    ZeroPadded(F.Digits(v, 16, F.UPPER), 8 - |F.Digits(v, 16, F.UPPER)|);
  }

  lemma PrefixedHex(t: string)
    requires |t| == 8 && AllHex(t)
    ensures ParsedHex("0x" + t) == Some(HexValue(t))
  {
    hide HexValue, AllHex;
    var s := "0x" + t;
    assert s[2..] == t && s[0] == '0' && s[1] == 'x';
  }

  lemma {:induction false} HexDigitsOf(v: nat)
    ensures var s := F.Digits(v, 16, F.UPPER); AllHex(s) && HexValue(s) == v
  {
    UpperDigit(v % 16);
    if v < 16 {
      assert [F.UPPER[v]][..0] == "";
    } else {
      F.Smaller(v, 16);
      HexDigitsOf(v / 16);
      var s := F.Digits(v, 16, F.UPPER);
      assert s[..|s| - 1] == F.Digits(v / 16, 16, F.UPPER);
    }
  }

  lemma UpperDigit(k: nat)
    requires k < 16
    ensures HexDigit(F.UPPER[k]) == Some(k)
  {
    assert F.UPPER[0] == '0' && F.UPPER[1] == '1' && F.UPPER[2] == '2' && F.UPPER[3] == '3';
    assert F.UPPER[4] == '4' && F.UPPER[5] == '5' && F.UPPER[6] == '6' && F.UPPER[7] == '7';
    assert F.UPPER[8] == '8' && F.UPPER[9] == '9' && F.UPPER[10] == 'A' && F.UPPER[11] == 'B';
    assert F.UPPER[12] == 'C' && F.UPPER[13] == 'D' && F.UPPER[14] == 'E' && F.UPPER[15] == 'F';
  }

  lemma {:induction false} HexLength(v: nat, n: nat)
    requires 0 < n <= 8 && v < Pow2(4 * n)
    ensures |F.Digits(v, 16, F.UPPER)| <= n
  {
    Sixteen(n);
    if n == 1 {
      assert Pow2(0) == 1;
    } else if v >= 16 {
      F.Smaller(v, 16);
      HexLength(v / 16, n - 1);
    }
  }

  lemma {:induction false} ZeroPadded(s: string, n: nat)
    requires AllHex(s)
    ensures AllHex(F.Pad('0', n) + s) && HexValue(F.Pad('0', n) + s) == HexValue(s)
    decreases |s| + n
  {
    var t := F.Pad('0', n) + s;
    if s == "" {
      Zeros(n);
      assert t == F.Pad('0', n);
    } else {
      var init := s[..|s| - 1];
      ZeroPadded(init, n);
      assert t[..|t| - 1] == F.Pad('0', n) + init;
    }
  }

  lemma {:induction false} Zeros(n: nat)
    ensures HexValue(F.Pad('0', n)) == 0 && AllHex(F.Pad('0', n))
  {
    if n > 0 {
      Zeros(n - 1);
      assert F.Pad('0', n)[..n - 1] == F.Pad('0', n - 1);
    }
  }
}
