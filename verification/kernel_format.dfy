/** The kernel's formatter (lib/kprintf.c:35-154) for the directives %u %x %X %d %i %s %c %%, with zero or space
    padding to a width. */
module KernelFormat {
  import opened Basics

  /** A variadic argument. */
  datatype Arg = Word(w: nat) | Text(s: string)

  const LOWER: string := "0123456789abcdef"
  const UPPER: string := "0123456789ABCDEF"

  /** A number in a base, most significant digit first. */
  function Digits(v: nat, base: nat, digits: string): (s: string)
    requires 2 <= base <= |digits|
    ensures |s| > 0
  {
    if v < base then [digits[v]]
    else
      Smaller(v, base);
      Digits(v / base, base, digits) + [digits[v % base]]
  }

  lemma Smaller(v: nat, base: nat)
    requires 2 <= base <= v
    ensures v / base < v && v % base < base
  {
    var q := v / base;
    assert v == q * base + v % base;
    assert q * base >= q * 2 by {
      assert q * base == q * 2 + q * (base - 2);
      assert q * (base - 2) >= 0;
    }
    assert q > 0;
  }

  /** The text that digits written least significant first stand for. */
  function MostFirst(done: string): (text: string)
    ensures |text| == |done|
  {
    seq(|done|, k requires 0 <= k < |done| => done[|done| - 1 - k])
  }

  lemma OneMoreDigit(done: string, c: char)
    ensures MostFirst(done + [c]) == [c] + MostFirst(done)
  {}

  /** uint_to_buf: the digits come out last first and are then turned round in place. */
  method UintToBuf(buf: array<char>, v: nat, base: nat, digits: string) returns (len: nat)
    requires 2 <= base <= |digits| && |Digits(v, base, digits)| <= buf.Length
    modifies buf
    ensures len <= buf.Length && buf[..len] == Digits(v, base, digits)
  {
    if v == 0 {
      buf[0] := digits[0];
      assert buf[..1] == [digits[0]];
      return 1;
    }
    len := WriteDigits(buf, v, base, digits);
    Reverse(buf, len);
  }

  /** The division loop of uint_to_buf. */
  method WriteDigits(buf: array<char>, v: nat, base: nat, digits: string) returns (len: nat)
    requires 2 <= base <= |digits| && v != 0 && |Digits(v, base, digits)| <= buf.Length
    modifies buf
    ensures len <= buf.Length && MostFirst(buf[..len]) == Digits(v, base, digits)
  {
    hide *;
    ghost var all := Digits(v, base, digits);
    len := 0;
    var val: nat := v;
    assert Left(v, base, digits) + MostFirst(buf[..0]) == all by {
      LeftIs(v, base, digits);
      NoDigits(buf[..0]);
    }
    LeftNone(base, digits);
    while val != 0
      invariant len <= |all| && all == Left(val, base, digits) + MostFirst(buf[..len])
      decreases val
    {
      OneDigit(val, base, digits, buf[..len]);
      ghost var before := buf[..len];
      buf[len] := digits[val % base];
      assert buf[..len] == before && buf[..][..len] == buf[..len] && buf[..][..len + 1] == buf[..len + 1];
      Grown(buf[..], before, len);
      len := len + 1;
      val := val / base;
    }
    LeftNone(base, digits);
    assert "" + MostFirst(buf[..len]) == MostFirst(buf[..len]);
  }

  lemma Grown(all: string, before: string, len: nat)
    requires len < |all| && all[..len] == before
    ensures all[..len + 1] == before + [all[len]]
  {}

  /** The digits of what is left of a number. */
  function Left(v: nat, base: nat, digits: string): string
    requires 2 <= base <= |digits|
  {
    if v == 0 then "" else Digits(v, base, digits)
  }

  lemma LeftIs(v: nat, base: nat, digits: string)
    requires 2 <= base <= |digits| && v != 0
    ensures Left(v, base, digits) == Digits(v, base, digits)
  {}

  lemma LeftNone(base: nat, digits: string)
    requires 2 <= base <= |digits|
    ensures Left(0, base, digits) == ""
  {}

  lemma NoDigits(s: string)
    requires s == ""
    ensures MostFirst(s) == ""
  {}

  /** The last digit of what is left joins those already written. */
  lemma OneDigit(v: nat, base: nat, digits: string, done: string)
    requires 2 <= base <= |digits| && v != 0
    ensures v / base < v && v % base < base
    ensures Left(v, base, digits) + MostFirst(done) == Left(v / base, base, digits) +
      MostFirst(done + [digits[v % base]])
    ensures |Left(v, base, digits)| > 0 && |MostFirst(done)| == |done|
  {
    OneMoreDigit(done, digits[v % base]);
    if v < base {
      assert v / base == 0 && v % base == v by {
        SmallQuotient(v, base);
      }
    } else {
      Smaller(v, base);
      AtLeastOne(v, base);
    }
  }

  lemma SmallQuotient(v: nat, base: nat)
    requires v < base
    ensures v / base == 0 && v % base == v
  {}

  lemma AtLeastOne(v: nat, base: nat)
    requires 2 <= base <= v
    ensures v / base > 0
  {
    var q := v / base;
    assert v == q * base + v % base;
    assert q != 0;
  }

  /** The swapping loop of uint_to_buf. */
  method Reverse(buf: array<char>, len: nat)
    requires len <= buf.Length
    modifies buf
    ensures buf[..len] == MostFirst(old(buf[..len]))
  {
    ghost var was := buf[..len];
    var i, j: int := 0, len - 1;
    while i < j
      invariant 0 <= i && j == len - 1 - i && i <= j + 2
      invariant forall k | 0 <= k < i :: buf[k] == was[len - 1 - k] && buf[len - 1 - k] == was[k]
      invariant forall k | i <= k <= j :: buf[k] == was[k]
    {
      var tmp := buf[i];
      buf[i] := buf[j];
      buf[j] := tmp;
      i := i + 1;
      j := j - 1;
    }
    forall k: nat | k < len ensures buf[k] == MostFirst(was)[k] {
      assert k >= i ==> len - 1 - k < i || k == j;
    }
  }

  function Pad(c: char, n: int): string {
    if n <= 0 then "" else seq(n, _ => c)
  }

  function Padded(s: string, c: char, width: nat): string {
    Pad(c, width - |s|) + s
  }

  /** A directive: padding, width, the letter, its length, and whether the format ends before the letter. */
  datatype Directive = Directive(pad: char, width: nat, spec: char, len: nat, cutOff: bool)

  /** How many characters from 1 to 9 a string begins with: a zero ends the width. */
  function WidthLen(s: string): (n: nat)
    ensures n <= |s|
  {
    if s != "" && '1' <= s[0] <= '9' then 1 + WidthLen(s[1..]) else 0
  }

  function WidthOf(s: string): nat {
    if s == "" then 0 else WidthOf(s[..|s| - 1]) * 10 + if '0' <= s[|s| - 1] <= '9'
      then (s[|s| - 1] as int) - ('0' as int) else 0
  }

  /** What follows a percent sign. */
  function DirectiveAt(s: string): (d: Directive)
    ensures d.len <= |s|
  {
    var zero := s != "" && s[0] == '0';
    var t := if zero then s[1..] else s;
    var n := WidthLen(t);
    Directive(if zero then '0' else ' ', WidthOf(t[..n]), if n < |t| then t[n] else '\0',
              (if zero then 1 else 0) + n + (if n < |t| then 1 else 0), n == |t|)
  }

  function WordArg(args: seq<Arg>): nat {
    if args != [] && args[0].Word? then args[0].w % 0x1_0000_0000 else 0
  }

  function TextArg(args: seq<Arg>): string {
    if args != [] && args[0].Text? then args[0].s else "(null)"
  }

  predicate TakesArg(spec: char) {
    spec in {'d', 'i', 'u', 'x', 'X', 's', 'c'}
  }

  /** What one directive prints, letter by letter; what whole formats come to is Literal here and WrittenIsLines for
      the theme file. */
  function Printed(d: Directive, args: seq<Arg>): string {
    if d.spec == 'u' then Padded(Digits(WordArg(args), 10, LOWER), d.pad, d.width)
    else if d.spec == 'x' then Padded(Digits(WordArg(args), 16, LOWER), d.pad, d.width)
    else if d.spec == 'X' then Padded(Digits(WordArg(args), 16, UPPER), d.pad, d.width)
    else if d.spec == 'd' || d.spec == 'i' then
      var w := WordArg(args);
      if w < 0x8000_0000 then Padded(Digits(w, 10, LOWER), d.pad, d.width)
      else "-" + Padded(Digits(0x1_0000_0000 - w, 10, LOWER), d.pad, d.width)
    else if d.spec == 's' then Padded(TextArg(args), d.pad, d.width)
    else if d.spec == 'c' then [(WordArg(args) % 256) as char]
    else if d.spec == '%' then "%"
    else ['%', d.spec]
  }

  function Rest(args: seq<Arg>, spec: char): seq<Arg> {
    if TakesArg(spec) && args != [] then args[1..] else args
  }

  /** do_fmt, as what it prints. A directive cut off by the end of the format prints nothing here. */
  function Formatted(fmt: string, args: seq<Arg>): string {
    if fmt == "" then ""
    else if fmt[0] != '%' then [fmt[0]] + Formatted(fmt[1..], args)
    else
      var d := DirectiveAt(fmt[1..]);
      if d.cutOff then "" else Printed(d, args) + Formatted(fmt[1 + d.len..], Rest(args, d.spec))
  }

  lemma {:induction false} Literal(text: string, fmt: string, args: seq<Arg>)
    requires '%' !in text
    ensures Formatted(text + fmt, args) == text + Formatted(fmt, args)
  {
    hide Printed, DirectiveAt, Rest;
    if text == "" {
      assert text + fmt == fmt;
    } else {
      assert (text + fmt)[0] == text[0] && (text + fmt)[1..] == text[1..] + fmt;
      assert text[0] in text && forall c | c in text[1..] :: c in text;
      Literal(text[1..], fmt, args);
      assert text == [text[0]] + text[1..];
    }
  }

  lemma {:induction false} DigitsShort(v: nat, base: nat, digits: string, n: nat)
    requires 2 <= base <= |digits| && v < Pow2(n) && n > 0
    ensures |Digits(v, base, digits)| <= n
  {
    if n == 1 {
      assert Pow2(1) == 2 * Pow2(0);
    } else if v >= base {
      Smaller(v, base);
      Halved(v, base);
      AtLeastOne(v, base);
      DigitsShort(v / base, base, digits, n - 1);
    }
  }

  lemma Halved(v: nat, base: nat)
    requires 2 <= base
    ensures 2 * (v / base) <= v
  {
    var q := v / base;
    assert v == q * base + v % base;
    assert q * base == q * 2 + q * (base - 2);
    assert q * (base - 2) >= 0;
  }

  /** A 32-bit word never takes more than the 32 characters of the scratch buffer. */
  lemma WordFits(v: nat, base: nat, digits: string)
    requires 2 <= base <= |digits| && v < 0x1_0000_0000
    ensures |Digits(v, base, digits)| <= 32
  {
    Pow2Of32();
    DigitsShort(v, base, digits, 32);
  }

  // ---- printing into a buffer ----

  /** What fits a buffer of cap characters with its terminating zero. */
  function Fitting(s: string, cap: nat): string {
    if |s| < cap then s else if cap == 0 then "" else s[..cap - 1]
  }

  /** The sink of ksprintf: what fits of the text so far, and how long it all is. */
  datatype Sink = Sink(text: string, cap: nat, count: nat)

  predicate Holds(k: Sink, s: string) {
    k.text == Fitting(s, k.cap) && k.count == |s|
  }

  /** sbuf_put and fmt_putc. */
  method PutChar(k: Sink, c: char, ghost done: string) returns (k': Sink)
    requires Holds(k, done)
    ensures Holds(k', done + [c]) && k'.cap == k.cap
  {
    k' := if |k.text| + 1 < k.cap then k.(text := k.text + [c], count := k.count + 1) else k.(count := k.count + 1);
  }

  method PutText(k: Sink, s: string, ghost done: string) returns (k': Sink)
    requires Holds(k, done)
    ensures Holds(k', done + s) && k'.cap == k.cap
  {
    k' := k;
    assert done + s[..0] == done;
    for i := 0 to |s|
      invariant Holds(k', done + s[..i]) && k'.cap == k.cap
    {
      assert (done + s[..i]) + [s[i]] == done + s[..i + 1];
      k' := PutChar(k', s[i], done + s[..i]);
    }
    assert s[..|s|] == s;
  }

  /** fmt_pad. */
  method PutPad(k: Sink, c: char, n: int, ghost done: string) returns (k': Sink)
    requires Holds(k, done)
    ensures Holds(k', done + Pad(c, n)) && k'.cap == k.cap
  {
    k' := k;
    var left := n;
    assert done + Pad(c, 0) == done;
    while left > 0
      invariant left <= n && (n >= 0 ==> left >= 0) && (n < 0 ==> left == n)
      invariant Holds(k', done + Pad(c, n - left)) && k'.cap == k.cap
    {
      assert (done + Pad(c, n - left)) + [c] == done + Pad(c, n - left + 1);
      k' := PutChar(k', c, done + Pad(c, n - left));
      left := left - 1;
    }
    assert Pad(c, n - left) == Pad(c, n);
  }

  /** fmt_str, and the printing of a number once its digits are known. */
  method PutPadded(k: Sink, s: string, pad: char, width: nat, ghost done: string) returns (k': Sink)
    requires Holds(k, done)
    ensures Holds(k', done + Padded(s, pad, width)) && k'.cap == k.cap
  {
    k' := PutPad(k, pad, width - |s|, done);
    k' := PutText(k', s, done + Pad(pad, width - |s|));
    assert (done + Pad(pad, width - |s|)) + s == done + Padded(s, pad, width);
  }

  method PutWord(k: Sink, v: nat, base: nat, digits: string, pad: char, width: nat, ghost done: string)
      returns (k': Sink)
    requires Holds(k, done) && 2 <= base <= |digits| && v < 0x1_0000_0000
    ensures Holds(k', done + Padded(Digits(v, base, digits), pad, width)) && k'.cap == k.cap
  {
    var tmp := new char[32];
    WordFits(v, base, digits);
    var len := UintToBuf(tmp, v, base, digits);
    k' := PutPadded(k, tmp[..len], pad, width, done);
  }

  /** The flags and the width of do_fmt. */
  method ParseDirective(fmt: string, from: nat) returns (pad: char, width: nat, next: nat)
    requires from <= |fmt|
    ensures from <= next <= |fmt|
    ensures
      var d := DirectiveAt(fmt[from..]);
      pad == d.pad && width == d.width && d.cutOff == (next == |fmt|) &&
        d.len == next - from + (if next < |fmt| then 1 else 0) &&
      (next < |fmt| ==> d.spec == fmt[next])
  {
    pad, width, next := ' ', 0, from;
    if next < |fmt| && fmt[next] == '0' {
      pad := '0';
      next := next + 1;
    }
    ghost var start := next;
    ghost var t := fmt[start..];
    assert fmt[from..][next - from..] == t;
    assert t[..0] == "";
    while next < |fmt| && '1' <= fmt[next] <= '9'
      invariant start <= next <= |fmt| && width == WidthOf(t[..next - start])
      invariant forall i | 0 <= i < next - start :: '1' <= t[i] <= '9'
    {
      assert t[..next - start + 1][..next - start] == t[..next - start];
      width := width * 10 + ((fmt[next] as int) - ('0' as int));
      next := next + 1;
    }
    WidthLenIs(t, next - start);
  }

  lemma {:induction false} WidthLenIs(t: string, n: nat)
    requires n <= |t| && (forall i | 0 <= i < n :: '1' <= t[i] <= '9') && (n < |t| ==> !('1' <= t[n] <= '9'))
    ensures WidthLen(t) == n
  {
    if n > 0 {
      WidthLenIs(t[1..], n - 1);
    }
  }

  /** One directive of do_fmt. */
  method PutDirective(k: Sink, d: Directive, args: seq<Arg>, ghost done: string) returns (k': Sink)
    requires Holds(k, done)
    ensures Holds(k', done + Printed(d, args)) && k'.cap == k.cap
  {
    hide Digits, Padded, Holds, Pad;
    if d.spec == 'u' {
      k' := PutWord(k, WordArg(args), 10, LOWER, d.pad, d.width, done);
    } else if d.spec == 'x' {
      k' := PutWord(k, WordArg(args), 16, LOWER, d.pad, d.width, done);
    } else if d.spec == 'X' {
      k' := PutWord(k, WordArg(args), 16, UPPER, d.pad, d.width, done);
    } else if d.spec == 'd' || d.spec == 'i' {
      var w := WordArg(args);
      if w < 0x8000_0000 {
        k' := PutWord(k, w, 10, LOWER, d.pad, d.width, done);
      } else {
        k' := PutChar(k, '-', done);
        k' := PutWord(k', 0x1_0000_0000 - w, 10, LOWER, d.pad, d.width, done + "-");
        assert (done + "-") + Padded(Digits(0x1_0000_0000 - w, 10, LOWER), d.pad, d.width) == done + Printed(d, args);
      }
    } else if d.spec == 's' {
      k' := PutPadded(k, TextArg(args), d.pad, d.width, done);
    } else if d.spec == 'c' {
      k' := PutChar(k, (WordArg(args) % 256) as char, done);
    } else if d.spec == '%' {
      k' := PutChar(k, '%', done);
    } else {
      k' := PutChar(k, '%', done);
      k' := PutChar(k', d.spec, done + "%");
      assert (done + "%") + [d.spec] == done + Printed(d, args);
    }
  }

  /** ksprintf over do_fmt: the text, cut to the buffer, and the length it would have had. */
  method Ksprintf(cap: nat, fmt: string, args: seq<Arg>) returns (text: string, count: nat)
    ensures cap == 0 ==> text == "" && count == 0
    ensures cap > 0 ==> text == Fitting(Formatted(fmt, args), cap) && count == |Formatted(fmt, args)|
  {
    if cap == 0 {
      return "", 0;
    }
    text, count := DoFmt(cap, fmt, args);
  }

  /** do_fmt into a buffer of cap characters. */
  method DoFmt(cap: nat, fmt: string, args: seq<Arg>) returns (text: string, count: nat)
    ensures text == Fitting(Formatted(fmt, args), cap) && count == |Formatted(fmt, args)|
  {
    hide *;
    var k := Sink("", cap, 0);
    var i, rest := 0, args;
    ghost var done := "";
    ghost var all := Formatted(fmt, args);
    NothingYet(cap);
    assert fmt[0..] == fmt;
    while i < |fmt|
      invariant i <= |fmt| && Holds(k, done) && k.cap == cap && all == done + Formatted(fmt[i..], rest)
    {
      FormatStep(fmt, i, rest);
      if fmt[i] != '%' {
        k := PutChar(k, fmt[i], done);
        Associative(done, [fmt[i]], Formatted(fmt[i + 1..], rest));
        done := done + [fmt[i]];
        i := i + 1;
        continue;
      }
      var pad, width, next := ParseDirective(fmt, i + 1);
      if next == |fmt| {
        assert done + "" == done;
        i := next;
        FormattedNone(fmt[i..], rest);
        break;
      }
      ghost var d := DirectiveAt(fmt[i + 1..]);
      k := PutDirective(k, Directive(pad, width, fmt[next], next - i, false), rest, done);
      Associative(done, Printed(d, rest), Formatted(fmt[i + 1 + d.len..], Rest(rest, d.spec)));
      done := done + Printed(d, rest);
      RestIs(rest, fmt[next]);
      rest := if TakesArg(fmt[next]) && rest != [] then rest[1..] else rest;
      i := next + 1;
    }
    FormattedNone(fmt[i..], rest);
    assert done + "" == done;
    HeldAll(k, done);
    return k.text, k.count;
  }

  lemma Associative(a: string, b: string, c: string)
    ensures (a + b) + c == a + (b + c)
  {}

  lemma NothingYet(cap: nat)
    ensures Holds(Sink("", cap, 0), "")
  {}

  lemma FormattedNone(fmt: string, args: seq<Arg>)
    requires fmt == ""
    ensures Formatted(fmt, args) == ""
  {}

  lemma RestIs(args: seq<Arg>, spec: char)
    ensures Rest(args, spec) == if TakesArg(spec) && args != [] then args[1..] else args
  {}

  lemma HeldAll(k: Sink, s: string)
    requires Holds(k, s)
    ensures k.text == Fitting(s, k.cap) && k.count == |s|
  {}

  lemma FormatStep(fmt: string, i: nat, args: seq<Arg>)
    requires i < |fmt|
    ensures fmt[i] != '%' ==> Formatted(fmt[i..], args) == [fmt[i]] + Formatted(fmt[i + 1..], args)
    ensures fmt[i] == '%' ==>
      var d := DirectiveAt(fmt[i + 1..]);
      if d.cutOff then Formatted(fmt[i..], args) == ""
      else
        i + 1 + d.len <= |fmt| &&
        Formatted(fmt[i..], args) == Printed(d, args) + Formatted(fmt[i + 1 + d.len..], Rest(args, d.spec))
  {
    hide *;
    SliceTwice(fmt, i, 1);
    FormattedIs(fmt[i..], args);
    if fmt[i] == '%' {
      SliceTwice(fmt, i, 1 + DirectiveAt(fmt[i + 1..]).len);
    }
  }

  lemma SliceTwice(s: string, i: nat, k: nat)
    requires i + k <= |s|
    ensures s[i..][k..] == s[i + k..]
  {}

  lemma FormattedIs(fmt: string, args: seq<Arg>)
    requires fmt != ""
    ensures fmt[0] != '%' ==> Formatted(fmt, args) == [fmt[0]] + Formatted(fmt[1..], args)
    ensures fmt[0] == '%' ==>
      var d := DirectiveAt(fmt[1..]);
      Formatted(fmt, args) ==
        if d.cutOff then "" else Printed(d, args) + Formatted(fmt[1 + d.len..], Rest(args, d.spec))
  {}
}
