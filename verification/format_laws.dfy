/** What the directives of the kernel's formatter mean (lib/kprintf.c:35-154): the digits printed evaluate back to the
    argument, as a reader of numerals would evaluate them. */
module FormatLaws {
  import opened Basics
  import opened KernelFormat

  /** What a character is worth as a digit; too much for any base when it is none. */
  function DigitValue(c: char): nat {
    if '0' <= c <= '9' then (c as nat) - 48
    else if 'a' <= c <= 'z' then (c as nat) - 87
    else if 'A' <= c <= 'Z' then (c as nat) - 55
    else 99
  }

  /** The value of a numeral, its most significant digit first. */
  function Value(s: string, base: nat): nat {
    if s == "" then 0 else Value(s[..|s| - 1], base) * base + DigitValue(s[|s| - 1])
  }

  /** Digits of the base only, at least one of them, and no zero in front of others. */
  predicate Numeral(s: string, base: nat) {
    s != "" && (forall i | 0 <= i < |s| :: DigitValue(s[i]) < base) && (|s| > 1 ==> s[0] != '0')
  }

  /** s behind so many pads that it is at least width long. */
  predicate PaddedTo(t: string, s: string, pad: char, width: nat) {
    |t| == (if |s| < width then width else |s|) && t[|t| - |s|..] == s && forall i | 0 <= i < |t| - |s| :: t[i] == pad
  }

  lemma TheDigits(k: nat)
    requires k < 16
    ensures |LOWER| == |UPPER| == 16 && DigitValue(LOWER[k]) == k && DigitValue(UPPER[k]) == k
    ensures (LOWER[k] == '0' <==> k == 0) && (UPPER[k] == '0' <==> k == 0)
    ensures !('A' <= LOWER[k] <= 'Z') && !('a' <= UPPER[k] <= 'z')
  {}

  /** A numeral of that value, its letters all small or all capital. */
  ghost predicate Means(s: string, v: nat, base: nat, small: bool) {
    Numeral(s, base) && Value(s, base) == v && (s[0] == '0' <==> v == 0) &&
    forall i | 0 <= i < |s| :: if small then !('A' <= s[i] <= 'Z') else !('a' <= s[i] <= 'z')
  }

  lemma OneMeans(c: char, v: nat, base: nat, small: bool)
    requires v < base && DigitValue(c) == v && (c == '0' <==> v == 0)
    requires if small then !('A' <= c <= 'Z') else !('a' <= c <= 'z')
    ensures Means([c], v, base, small)
  {
    assert [c][..0] == "" && Value("", base) == 0;
    hide DigitValue;
  }

  lemma MoreMeans(init: string, q: nat, c: char, r: nat, v: nat, base: nat, small: bool)
    requires Means(init, q, base, small) && q > 0 && r < base && DigitValue(c) == r && v == q * base + r && v > 0
    requires if small then !('A' <= c <= 'Z') else !('a' <= c <= 'z')
    ensures Means(init + [c], v, base, small)
  {
    var s := init + [c];
    assert s[..|s| - 1] == init && s[0] == init[0];
    hide DigitValue;
  }

  lemma {:induction false} DigitsMean(v: nat, base: nat, digits: string)
    requires 2 <= base <= 16 && (digits == LOWER || digits == UPPER) && |digits| == 16
    ensures Means(Digits(v, base, digits), v, base, digits == LOWER)
  {
    if v < base {
      TheDigits(v);
      hide DigitValue, Means;
      OneMeans(digits[v], v, base, digits == LOWER);
    } else {
      Smaller(v, base);
      TheDigits(v % base);
      DigitsMean(v / base, base, digits);
      AtLeastOne(v, base);
      QuotientBack(v, base);
      hide DigitValue, Means;
      MoreMeans(Digits(v / base, base, digits), v / base, digits[v % base], v % base, v, base, digits == LOWER);
    }
  }

  lemma QuotientBack(v: nat, base: nat)
    requires base >= 2
    ensures v == v / base * base + v % base
  {}

  lemma PaddedIs(s: string, pad: char, width: nat)
    ensures PaddedTo(Padded(s, pad, width), s, pad, width)
  {}

  /** %u, %x and %X print the argument as a numeral of base ten or sixteen, with small letters or capitals. */
  lemma PrintsWord(d: Directive, w: nat, args: seq<Arg>) returns (s: string)
    requires w < 0x1_0000_0000 && d.spec in {'u', 'x', 'X'}
    ensures
      Means(s, w, if d.spec == 'u' then 10 else 16, d.spec != 'X') &&
      PaddedTo(Printed(d, [Word(w)] + args), s, d.pad, d.width)
  {
    TheDigits(0);
    assert WordArg([Word(w)] + args) == w && LOWER != UPPER;
    hide Digits, Means, Padded, PaddedTo, DigitValue, WordArg;
    var base, digits := if d.spec == 'u' then 10 else 16, if d.spec == 'X' then UPPER else LOWER;
    s := Digits(w, base, digits);
    DigitsMean(w, base, digits);
    PaddedIs(s, d.pad, d.width);
  }

  /** %d and %i print a number of 32 bits in two's complement: a minus sign when it is negative, and its magnitude. */
  lemma PrintsInt(d: Directive, v: int, w: nat, args: seq<Arg>) returns (s: string)
    requires -0x8000_0000 <= v < 0x8000_0000 && w == (if v < 0 then 0x1_0000_0000 + v else v) && d.spec in {'d', 'i'}
    ensures Means(s, if v < 0 then -v else v, 10, true)
    ensures
      var t := Printed(d, [Word(w)] + args);
      if v < 0 then t != "" && t[0] == '-' && PaddedTo(t[1..], s, d.pad, d.width) else PaddedTo(t, s, d.pad, d.width)
  {
    hide *;
    TheDigits(0);
    var m: nat := if v < 0 then -v else v;
    s := Digits(m, 10, LOWER);
    DigitsMean(m, 10, LOWER);
    PaddedIs(s, d.pad, d.width);
    WordArgIs(w, args);
    PrintedInt(d, w, [Word(w)] + args);
    var t := Padded(s, d.pad, d.width);
    assert ("-" + t)[1..] == t;
  }

  lemma WordArgIs(w: nat, args: seq<Arg>)
    requires w < 0x1_0000_0000
    ensures WordArg([Word(w)] + args) == w
  {
    assert ([Word(w)] + args)[0] == Word(w);
  }

  lemma PrintedInt(d: Directive, w: nat, args: seq<Arg>)
    requires d.spec in {'d', 'i'} && WordArg(args) == w < 0x1_0000_0000 && |LOWER| == 16
    ensures
      Printed(d, args) ==
      if w < 0x8000_0000 then Padded(Digits(w, 10, LOWER), d.pad, d.width)
      else "-" + Padded(Digits(0x1_0000_0000 - w, 10, LOWER), d.pad, d.width)
  {
    hide Digits, Padded, WordArg;
  }

  /** %s prints the text, %c the character, %% a percent sign, and any other letter itself behind one. */
  lemma PrintsText(d: Directive, x: string, c: nat, args: seq<Arg>)
    requires c < 256
    ensures d.spec == 's' ==> PaddedTo(Printed(d, [Text(x)] + args), x, d.pad, d.width)
    ensures d.spec == 'c' ==> Printed(d, [Word(c)] + args) == [c as char]
    ensures d.spec == '%' ==> Printed(d, args) == "%"
    ensures d.spec !in {'d', 'i', 'u', 'x', 'X', 's', 'c', '%'} ==> Printed(d, args) == ['%', d.spec]
  {
    PaddedIs(x, d.pad, d.width);
    assert ([Text(x)] + args)[0] == Text(x) && ([Word(c)] + args)[0] == Word(c);
    hide Padded, PaddedTo, Digits;
  }

  /** A directive as it is written: a zero or none, a width without zeros, and a letter; it takes one argument, but for
      the percent sign and letters that mean nothing. */
  lemma OneDirective(zero: bool, width: string, spec: char, rest: string, a: Arg, args: seq<Arg>)
    requires (forall i | 0 <= i < |width| :: '1' <= width[i] <= '9') && !('0' <= spec <= '9')
    ensures
      var d := Directive(if zero then '0' else ' ', Value(width, 10), spec, |width| + if zero then 2 else 1, false);
      Formatted("%" + (if zero then "0" else "") + width + [spec] + rest, [a] + args) ==
      Printed(d, [a] + args) + Formatted(rest, if spec in {'d', 'i', 'u', 'x', 'X', 's', 'c'} then args else [a] + args)
  {
    var u := (if zero then "0" else "") + (width + ([spec] + rest));
    var fmt := "%" + (if zero then "0" else "") + width + [spec] + rest;
    assert fmt == ['%'] + u;
    ParsesDirective(zero, width, spec, rest);
    hide *;
    FormattedIs(fmt, [a] + args);
    AfterDirective(zero, width, spec, rest);
    RestIs([a] + args, spec);
    TakesAll(spec);
    assert ([a] + args)[1..] == args;
    assert fmt[1..] == u;
  }

  lemma TakesAll(spec: char)
    ensures TakesArg(spec) <==> spec in {'d', 'i', 'u', 'x', 'X', 's', 'c'}
  {}

  lemma AfterDirective(zero: bool, width: string, spec: char, rest: string)
    ensures
      var fmt := "%" + (if zero then "0" else "") + width + [spec] + rest;
      fmt[1 + |width| + (if zero then 2 else 1)..] == rest && fmt != "" && fmt[0] == '%'
  {}

  lemma ParsesDirective(zero: bool, width: string, spec: char, rest: string)
    requires (forall i | 0 <= i < |width| :: '1' <= width[i] <= '9') && !('0' <= spec <= '9')
    ensures
      DirectiveAt((if zero then "0" else "") + (width + ([spec] + rest))) ==
      Directive(if zero then '0' else ' ', Value(width, 10), spec, |width| + if zero then 2 else 1, false)
  {
    var t := width + ([spec] + rest);
    var u := (if zero then "0" else "") + t;
    assert zero ==> u[1..] == t;
    assert !zero ==> u == t && u[0] == if width == "" then spec else width[0];
    WidthLenIs(t, |width|);
    assert t[..|width|] == width && t[|width|] == spec;
    WidthMeans(width);
    hide WidthLen, WidthOf, Value;
  }

  lemma {:induction false} WidthMeans(width: string)
    requires forall i | 0 <= i < |width| :: '1' <= width[i] <= '9'
    ensures WidthOf(width) == Value(width, 10)
  {
    if width != "" {
      var init := width[..|width| - 1];
      assert forall i | 0 <= i < |init| :: init[i] == width[i];
      WidthMeans(init);
    }
  }

  /** What a buffer of cap characters shows: all of a text that is shorter, or its first cap - 1 characters. */
  lemma BufferHolds(s: string, cap: nat)
    requires cap > 0
    ensures
      var t := Fitting(s, cap);
      |t| == (if |s| < cap - 1 then |s| else cap - 1) && t == s[..|t|]
  {}

  /** Numerals of the same value are the same, so that the digits are pinned; 4096 reads as it is written here. */
  lemma Spelled()
    ensures Value("4096", 10) == 4096 && Value("beef", 16) == Value("BEEF", 16) == 0xBEEF
  {
    assert "4096"[..3] == "409" && "409"[..2] == "40" && "40"[..1] == "4" && "4"[..0] == "";
    assert "beef"[..3] == "bee" && "bee"[..2] == "be" && "be"[..1] == "b" && "b"[..0] == "";
    assert "BEEF"[..3] == "BEE" && "BEE"[..2] == "BE" && "BE"[..1] == "B" && "B"[..0] == "";
  }
}
