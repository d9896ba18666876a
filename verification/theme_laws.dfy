/** What the theme file's numbers, paths and lines mean, told apart from the functions that read and write them
    (syscall/syscall.c:58-302, 320-435). */
module ThemeLaws {
  import opened Options
  import opened Basics
  import opened FormatLaws
  import opened ThemeConfig
  import opened ThemeText
  import opened ThemeReader
  import F = KernelFormat
  import P = Paths

  // ---- numbers ----

  lemma HexDigitIs(c: char)
    ensures HexDigit(c).Some? <==> DigitValue(c) < 16
    ensures HexDigit(c).Some? ==> HexDigit(c).value == DigitValue(c)
  {}

  lemma {:induction false} HexValueIs(s: string)
    requires forall i | 0 <= i < |s| :: DigitValue(s[i]) < 16
    ensures AllHex(s) && HexValue(s) == Value(s, 16)
  {
    forall i | 0 <= i < |s| ensures HexDigit(s[i]).Some? {
      HexDigitIs(s[i]);
    }
    if s != "" {
      HexDigitIs(s[|s| - 1]);
      hide HexDigit, DigitValue;
      HexValueIs(s[..|s| - 1]);
    }
  }

  /** A colour: one to eight hexadecimal digits, small or capital, after 0x, 0X or nothing; its value as a numeral. */
  lemma HexExactly(s: string)
    ensures
      var t := if |s| >= 2 && s[0] == '0' && s[1] in {'x', 'X'} then s[2..] else s;
      ParsedHex(s) == if 1 <= |t| <= 8 && forall i | 0 <= i < |t| :: DigitValue(t[i]) < 16 then Some(Value(t, 16))
                      else None
  {
    var t := if |s| >= 2 && s[0] == '0' && s[1] in {'x', 'X'} then s[2..] else s;
    assert t == AfterPrefix(s);
    forall i | 0 <= i < |t| ensures HexDigit(t[i]).Some? <==> DigitValue(t[i]) < 16 {
      HexDigitIs(t[i]);
    }
    if forall i | 0 <= i < |t| :: DigitValue(t[i]) < 16 {
      HexValueIs(t);
    }
    hide HexDigit, DigitValue, HexValue, Value;
  }

  lemma {:induction false} DecimalValueIs(s: string)
    requires AllDecimal(s)
    ensures DecimalValue(s) == Value(s, 10)
  {
    if s != "" {
      var init := s[..|s| - 1];
      assert AllDecimal(init) by {
        assert forall i | 0 <= i < |init| :: init[i] == s[i];
      }
      DecimalValueIs(init);
    }
  }

  /** A version: decimal digits whose value is a 32-bit number. */
  lemma DecimalExactly(s: string)
    ensures
      ParsedDecimal(s) ==
      if s != "" && (forall i | 0 <= i < |s| :: DigitValue(s[i]) < 10) && Value(s, 10) < 0x1_0000_0000
      then Some(Value(s, 10)) else None
  {
    assert AllDecimal(s) <==> forall i | 0 <= i < |s| :: DigitValue(s[i]) < 10;
    if AllDecimal(s) {
      DecimalValueIs(s);
    }
    hide DigitValue, DecimalValue, Value;
  }

  // ---- lines ----

  predicate Blank(s: string) {
    forall i | 0 <= i < |s| :: s[i] in {' ', '\t', '\n', '\r'}
  }

  lemma TrimBlank(a: string, s: string, b: string)
    requires Blank(a) && Blank(b) && Trimmed(s)
    ensures Trim(a + s + b) == s
  {
    var t := a + s + b;
    assert forall i | 0 <= i < |t| :: t[i] == if i < |a| then a[i] else if i < |a| + |s| then s[i - |a|]
      else b[i - |a| - |s|];
    if s == "" {
      TrimIs(t, |t|, |t|);
    } else {
      TrimIs(t, |a|, |a| + |s|);
      assert t[|a|..|a| + |s|] == s;
    }
    hide Trim;
  }

  /** A setting, with any white space before it, behind it and around its equals sign. */
  lemma SpacedSetting(a: string, key: string, b: string, c: string, val: string, d: string, r: Reading)
    requires Blank(a) && Blank(b) && Blank(c) && Blank(d) && Trimmed(key) && Trimmed(val)
    requires key != "" && key[0] != '#' && '=' !in key
    ensures ParsedLine(r, a + ((key + b) + ("=" + (c + val))) + d) == Assign(r, key, val)
  {
    NoEquals(key, b);
    TrimBlank("", key, b);
    assert "" + key + b == key + b;
    var u := (key + b) + ("=" + (c + val));
    assert u[0] == key[0];
    hide Trim, IndexOf, Assign, Blank;
    if val == "" {
      var v := (key + b) + ("=" + "");
      BlankJoin(c, d);
      assert a + u + d == a + v + (c + d);
      assert v[0] == key[0] && v[|v| - 1] == '=';
      TrimBlank(a, v, c + d);
      TrimBlank("", "", "");
      SettingAt(a + u + d, key + b, "", key, val, r);
    } else {
      assert u[|u| - 1] == val[|val| - 1];
      TrimBlank(a, u, d);
      TrimBlank(c, val, "");
      assert c + val + "" == c + val;
      BlankJoin("", "");
      SettingAt(a + u + d, key + b, c + val, key, val, r);
    }
  }

  lemma BlankJoin(c: string, d: string)
    ensures Blank(c) && Blank(d) ==> Blank(c + d)
    ensures Blank("")
  {}

  lemma NoEquals(key: string, b: string)
    requires '=' !in key && Blank(b)
    ensures forall j | 0 <= j < |key + b| :: (key + b)[j] != '='
    ensures Blank("")
  {
    forall j | 0 <= j < |key + b| ensures (key + b)[j] != '=' {
      assert j < |key| ==> (key + b)[j] == key[j] && key[j] in key;
    }
  }

  lemma AtEquals(bare: string, after: string)
    requires forall j | 0 <= j < |bare| :: bare[j] != '='
    ensures
      var u := bare + ("=" + after);
      IndexOf(u, '=') == |bare| < |u| && (bare != "" ==> u[0] == bare[0]) && u[..|bare|] == bare &&
      u[|bare| + 1..] == after
  {
    var u := bare + ("=" + after);
    assert forall j | 0 <= j < |bare| :: u[j] == bare[j];
    IndexIs(u, '=', |bare|);
    hide IndexOf;
  }

  lemma LineIsAssign(line: string, t: string, key: string, val: string, r: Reading)
    requires Trim(line) == t && t != "" && t[0] != '#' && IndexOf(t, '=') < |t|
    requires Trim(t[..IndexOf(t, '=')]) == key && Trim(t[IndexOf(t, '=') + 1..]) == val
    ensures ParsedLine(r, line) == Assign(r, key, val)
  {
    hide Trim, IndexOf, Assign;
  }

  lemma SettingAt(line: string, bare: string, after: string, key: string, val: string, r: Reading)
    requires Trim(line) == bare + ("=" + after) && Trim(bare) == key && Trim(after) == val
    requires bare != "" && bare[0] != '#' && forall j | 0 <= j < |bare| :: bare[j] != '='
    ensures ParsedLine(r, line) == Assign(r, key, val)
  {
    hide *;
    AtEquals(bare, after);
    LineIsAssign(line, bare + ("=" + after), key, val, r);
  }

  /** A comment, or a line without an equals sign, changes nothing. */
  lemma SilentLine(a: string, text: string, b: string, r: Reading)
    requires Blank(a) && Blank(b) && Trimmed(text) && (text == "" || text[0] == '#' || '=' !in text)
    ensures ParsedLine(r, a + text + b) == Some(r)
  {
    TrimBlank(a, text, b);
    if '=' !in text {
      assert forall j | 0 <= j < |text| :: text[j] in text;
      IndexIs(text, '=', |text|);
    }
    hide Trim, IndexOf, Assign;
  }

  /** A line ends at a line feed, a carriage return, or any two of these. */
  lemma LineEnds(line: string, end: string, rest: string, r: Reading)
    requires forall i | 0 <= i < |line| :: line[i] != '\n' && line[i] != '\r'
    requires end in {"\n", "\r", "\n\n", "\r\r", "\r\n", "\n\r"}
    requires |end| == 1 && rest != "" ==> rest[0] != '\n' && rest[0] != '\r'
    ensures ParsedLines(line + end + rest, r) == Then(ParsedLine(r, line), rest)
  {
    var s := line + end + rest;
    assert forall i | 0 <= i < |line| :: s[i] == line[i];
    assert s[|line|] == end[0];
    LineIs(s, |line|);
    assert |line| + 1 < |s| ==> s[|line| + 1] == if |end| == 2 then end[1] else rest[0];
    NextIs(s, |line|);
    assert s[|line| + |end|..] == rest && s[..|line|] == line;
    OneLine(s, r);
    hide ParsedLines, ParsedLine, LineLen, NextLine, Then;
  }

  // ---- what a file must hold ----

  /** The line is a setting of that key to that value. */
  predicate Sets(line: string, key: string, val: string) {
    var t := Trim(line);
    t != "" && t[0] != '#' && var e := IndexOf(t, '=');
    e < |t| && Trim(t[..e]) == key && Trim(t[e + 1..]) == val
  }

  /** One of the lines is. */
  predicate SomeLineSets(s: string, key: string, val: string)
    decreases |s|
  {
    s != "" && (Sets(s[..LineLen(s)], key, val) || SomeLineSets(s[NextLine(s, LineLen(s))..], key, val))
  }

  ghost predicate Mentions(s: string, key: string) {
    exists val: string :: SomeLineSets(s, key, val)
  }

  lemma MentionsStep(s: string, key: string)
    requires s != ""
    ensures Mentions(s, key) <==>
      (exists val: string :: Sets(s[..LineLen(s)], key, val)) || Mentions(s[NextLine(s, LineLen(s))..], key)
  {
    hide Sets, LineLen, NextLine;
    var rest := s[NextLine(s, LineLen(s))..];
    if val: string :| SomeLineSets(s, key, val) {
      assert Sets(s[..LineLen(s)], key, val) || SomeLineSets(rest, key, val);
    }
    if val: string :| Sets(s[..LineLen(s)], key, val) {
      assert SomeLineSets(s, key, val);
    }
    if val: string :| SomeLineSets(rest, key, val) {
      assert SomeLineSets(s, key, val);
    }
  }

  lemma LineSees(r: Reading, line: string)
    ensures
      var r' := ParsedLine(r, line);
      r'.Some? ==> forall key {:trigger key in r'.value.seen} | key in r'.value.seen ::
        key in r.seen || exists val: string :: Sets(line, key, val)
    ensures
      var r' := ParsedLine(r, line);
      r'.Some? && r'.value.version != r.version ==>
        exists val: string :: Sets(line, "version", val) && ParsedDecimal(val) == Some(r'.value.version)
  {
    var t := Trim(line);
    if t != "" && t[0] != '#' && IndexOf(t, '=') < |t| {
      var key, val := Trim(t[..IndexOf(t, '=')]), Trim(t[IndexOf(t, '=') + 1..]);
      assert Sets(line, key, val) && ParsedLine(r, line) == Assign(r, key, val);
      AssignSees(r, key, val);
      hide Trim, IndexOf, Sets, Assign, ParsedDecimal, ParsedLine;
    }
  }

  lemma AssignSees(r: Reading, key: string, val: string)
    ensures
      var r' := Assign(r, key, val);
      r'.Some? ==>
        r'.value.seen <= r.seen + {key} &&
        (r'.value.version != r.version ==> key == "version" && ParsedDecimal(val) == Some(r'.value.version))
  {
    hide ParsedHex, ParsedDecimal, PathOk, ModeOf, StyleOf, Opaque;
  }

  lemma {:induction false} LinesSee(s: string, r: Reading)
    ensures
      var r' := ParsedLines(s, r);
      r'.Some? ==>
        forall key {:trigger key in r'.value.seen} | key in r'.value.seen :: key in r.seen || Mentions(s, key)
    ensures
      var r' := ParsedLines(s, r);
      r'.Some? && r'.value.version != r.version ==>
        exists val: string :: SomeLineSets(s, "version", val) && ParsedDecimal(val) == Some(r'.value.version)
    decreases |s|
  {
    if s != "" {
      var line, rest := s[..LineLen(s)], s[NextLine(s, LineLen(s))..];
      OneLine(s, r);
      LineSees(r, line);
      var r1 := ParsedLine(r, line);
      if r1.Some? {
        hide ParsedLine, Sets, LineLen, NextLine, Mentions, ParsedDecimal;
        LinesSee(rest, r1.value);
        var r2 := ParsedLines(rest, r1.value);
        assert ParsedLines(s, r) == r2;
        if r2.Some? {
          forall key | key in r2.value.seen ensures key in r.seen || Mentions(s, key) {
            MentionsStep(s, key);
          }
        }
      }
    }
  }

  /** What is read has a version, which is 1, both colours, a mode and a path; and a wallpaper has a path that is not
      empty. */
  lemma NeedsAll(text: string)
    requires Read(text).Some?
    ensures
      var s := CString(text);
      Mentions(s, "version") && Mentions(s, "accent_color") && Mentions(s, "background_mode") &&
      Mentions(s, "solid_color") && Mentions(s, "wallpaper_path") &&
      (exists val: string :: SomeLineSets(s, "version", val) && ParsedDecimal(val) == Some(1)) &&
      !(Read(text).value.mode == 2 && Read(text).value.path == "")
  {
    LinesSee(CString(text), START);
    hide ParsedLines, CString, ParsedDecimal, Mentions, SomeLineSets;
    var r := ParsedLines(CString(text), START).value;
    assert "version" in r.seen && "accent_color" in r.seen && "background_mode" in r.seen && "solid_color" in r.seen &&
      "wallpaper_path" in r.seen;
  }

  // ---- paths ----

  ghost predicate HasDots(s: string) {
    exists i :: DotsAt(s, i)
  }

  lemma {:induction false} DotsAreNames(s: string)
    ensures ".." in P.Segments(s) <==> HasDots(s)
    decreases |s|
  {
    hide *;
    P.SegmentsAre(s);
    var k := P.Slashes(s);
    var t := s[k..];
    if t == "" {
      NoDots(s);
    } else {
      FirstOf(s, k, t);
      var n := P.NameLen(t);
      DotsAreNames(t[n..]);
      CutDots(t[..n]);
      DotsSplit(s, k, n, t[n..]);
    }
  }

  lemma FirstOf(s: string, k: nat, t: string)
    requires k == P.Slashes(s) && t == s[k..] && t != ""
    ensures
      var n := P.NameLen(t);
      0 < n && k + n <= |s| && t[n..] == s[k + n..] && t[..n] == s[k..k + n] && (t[n..] != "" ==> t[n..][0] == '/') &&
      (forall j | 0 <= j < k :: s[j] == '/') && (forall j | k <= j < k + n :: s[j] != '/') && |t[n..]| < |s|
  {
    hide *;
    P.NameLenSome(t, s);
    var n := P.NameLen(t);
    P.Slices(s, k, k + n);
    assert forall j | k <= j < k + n :: s[j] == t[j - k];
    assert n < |t| ==> t[n..][0] == t[n];
  }

  lemma NoDots(s: string)
    requires P.Slashes(s) == |s|
    ensures !HasDots(s)
  {}

  /** Two dots of a path are its first name, or dots of what follows that name. */
  lemma DotsSplit(s: string, k: nat, n: nat, u: string)
    requires 0 < n && k + n <= |s| && u == s[k + n..] && (u != "" ==> u[0] == '/')
    requires (forall j | 0 <= j < k :: s[j] == '/') && forall j | k <= j < k + n :: s[j] != '/'
    ensures HasDots(s) <==> s[k..k + n] == ".." || HasDots(u)
  {
    if s[k..k + n] == ".." {
      assert s[k..k + n][0] == s[k] && s[k..k + n][1] == s[k + 1];
      assert DotsAt(s, k);
    }
    if i :| DotsAt(u, i) {
      assert u[i] == '.' && i > 0;
      assert u[i] == s[k + n + i] && u[i + 1] == s[k + n + i + 1] && u[i - 1] == s[k + n + i - 1];
      assert DotsAt(s, k + n + i);
    }
    if i :| DotsAt(s, i) {
      SameDots(s, k, n, u, i);
    }
  }

  lemma CutDots(name: string)
    ensures P.Cut(name) == ".." <==> name == ".."
  {}

  lemma SameDots(s: string, k: nat, n: nat, u: string, i: int)
    requires DotsAt(s, i) && 0 < n && k + n <= |s| && u == s[k + n..] && (u != "" ==> u[0] == '/')
    requires (forall j | 0 <= j < k :: s[j] == '/') && forall j | k <= j < k + n :: s[j] != '/'
    ensures s[k..k + n] == ".." || DotsAt(u, i - k - n)
  {
    assert i >= k;
    if i < k + n {
      assert i == k;
      assert s[i + 1] == '.' && s[k + n - 1] != '/';
    } else {
      assert forall j | 0 <= j < |u| :: u[j] == s[k + n + j];
    }
  }

  /** A wallpaper path: none, or an absolute one below 128 characters, printable, without backslashes, none of whose
      names is "..". */
  lemma PathExactly(path: string)
    ensures
      PathOk(path) <==>
      path == "" ||
      (|path| < 128 && path[0] == '/' && (forall c | c in path :: 32 <= c as int <= 126 && c != '\\') &&
       ".." !in P.Segments(path))
  {
    DotsAreNames(path);
    assert HasDots(path) <==> exists i: int :: DotsAt(path, i);
    assert forall i | 0 <= i < |path| :: path[i] in path;
    hide P.Segments, DotsAt, HasDots;
  }

  /** A theme that can be read back: both colours opaque, a mode from 0 to 2, a style of 0 or 1, a path as above and
      without white space at its ends, and one for a wallpaper. */
  lemma ValidExactly(st: Theme)
    requires st.accent < 0x1_0000_0000 && st.solid < 0x1_0000_0000
    ensures
      Valid(st) <==>
      st.accent >= 0xFF00_0000 && st.solid >= 0xFF00_0000 && st.mode <= 2 && st.style <= 1 && PathOk(st.path) &&
      Trimmed(st.path) && (st.mode == 2 ==> st.path != "")
  {
    OpaqueIs(st.accent);
    OpaqueIs(st.solid);
    hide Opaque, PathOk, Trimmed;
  }

  lemma OpaqueIs(color: nat)
    requires color < 0x1_0000_0000
    ensures Opaque(color) <==> color >= 0xFF00_0000
  {}

  // ---- a file in full ----

  lemma Hex8Is(v: nat, digits: string)
    requires v < 0x1_0000_0000 && |digits| == 8 && Value(digits, 16) == v
    requires forall i | 0 <= i < 8 :: DigitValue(digits[i]) < 16 && !('a' <= digits[i] <= 'z')
    ensures Hex8(v) == digits
  {
    Hex8Means(v);
    hide Hex8, DigitValue, Value;
    SameValue(Hex8(v), digits);
  }

  lemma Hex8Means(v: nat)
    requires v < 0x1_0000_0000
    ensures |Hex8(v)| == 8 && Value(Hex8(v), 16) == v && Capitals(Hex8(v))
  {
    assert v % WORD == v;
    HexRoundTrip(v);
    TheDigits(0);
    DigitsMean(v, 16, F.UPPER);
    hide F.Digits, Value, DigitValue, ParsedHex, F.Padded, F.UPPER, F.LOWER;
    var d, s := F.Digits(v, 16, F.UPPER), Hex8(v);
    PaddedIs(d, '0', 8);
    PaddedValue(s, d);
    PaddedCapitals(s, d);
  }

  lemma PaddedCapitals(t: string, s: string)
    requires |s| <= |t| && t[|t| - |s|..] == s && (forall i | 0 <= i < |t| - |s| :: t[i] == '0')
    requires Numeral(s, 16) && forall i | 0 <= i < |s| :: !('a' <= s[i] <= 'z')
    ensures Capitals(t)
  {
    forall i | 0 <= i < |t| ensures DigitValue(t[i]) < 16 && !('a' <= t[i] <= 'z') {
      assert i >= |t| - |s| ==> t[i] == s[i - (|t| - |s|)];
    }
  }

  lemma {:induction false} PaddedValue(t: string, s: string)
    requires |s| <= |t| && t[|t| - |s|..] == s && forall i | 0 <= i < |t| - |s| :: t[i] == '0'
    ensures Value(t, 16) == Value(s, 16)
    decreases |t|
  {
    if s != "" {
      assert t[..|t| - 1][|t| - |s|..] == s[..|s| - 1] && t[|t| - 1] == s[|s| - 1];
      PaddedValue(t[..|t| - 1], s[..|s| - 1]);
    } else if t != "" {
      assert t[..|t| - 1][|t| - 1..] == "";
      PaddedValue(t[..|t| - 1], "");
      assert t[|t| - 1] == '0';
    }
  }

  /** Hexadecimal digits without small letters. */
  predicate Capitals(s: string) {
    forall i | 0 <= i < |s| :: DigitValue(s[i]) < 16 && !('a' <= s[i] <= 'z')
  }

  lemma {:induction false} SameValue(a: string, b: string)
    requires |a| == |b| && Value(a, 16) == Value(b, 16) && Capitals(a) && Capitals(b)
    ensures a == b
  {
    if a != "" {
      var x, y, c, d := a[..|a| - 1], b[..|b| - 1], a[|a| - 1], b[|b| - 1];
      assert Capitals(x) && Capitals(y);
      SameDigit(Value(x, 16), DigitValue(c), Value(y, 16), DigitValue(d));
      SameChar(c, d);
      hide DigitValue, Capitals;
      SameValue(x, y);
      assert a == x + [c] && b == y + [d];
    }
  }

  lemma SameChar(c: char, d: char)
    requires DigitValue(c) == DigitValue(d) < 16 && !('a' <= c <= 'z') && !('a' <= d <= 'z')
    ensures c == d
  {}

  lemma SameDigit(x: nat, d: nat, y: nat, e: nat)
    requires x * 16 + d == y * 16 + e && d < 16 && e < 16
    ensures x == y && d == e
  {}

  /** The text of a theme, letter by letter, but for its names and its path. */
  lemma WholeText(mode: nat, style: nat, path: string)
    ensures
      Written(Theme(0xFF4F_C3F7, mode, 0xFF1B_2838, style, 0, path)) ==
      "version=1" + ("\n" + ("accent_color=0xFF4FC3F7" + ("\n" + ("background_mode=" + ModeName(mode) + ("\n" +
      ("solid_color=0xFF1B2838" + ("\n" + ("wallpaper_path=" + path + ("\n" +
      ("wallpaper_style=" + StyleName(style) + ("\n" + "")))))))))))
  {
    var st := Theme(0xFF4F_C3F7, mode, 0xFF1B_2838, style, 0, path);
    hide *;
    SampleLines(mode, style, path);
    WrittenIsLines(st);
    LinesEnd(st);
  }

  lemma SampleLines(mode: nat, style: nat, path: string)
    ensures
      Lines(Theme(0xFF4F_C3F7, mode, 0xFF1B_2838, style, 0, path)) ==
      ["version=1", "accent_color=0xFF4FC3F7", "background_mode=" + ModeName(mode), "solid_color=0xFF1B2838",
       "wallpaper_path=" + path, "wallpaper_style=" + StyleName(style)]
  {
    SampleColours();
    assert "0x" + "FF4FC3F7" == "0xFF4FC3F7" && "0x" + "FF1B2838" == "0xFF1B2838";
    hide Hex8, ModeName, StyleName;
    SampleLine("version", "1", "version=1");
    SampleLine("accent_color", "0xFF4FC3F7", "accent_color=0xFF4FC3F7");
    SampleLine("solid_color", "0xFF1B2838", "solid_color=0xFF1B2838");
    SampleLine("background_mode", ModeName(mode), "background_mode=" + ModeName(mode));
    SampleLine("wallpaper_path", path, "wallpaper_path=" + path);
    SampleLine("wallpaper_style", StyleName(style), "wallpaper_style=" + StyleName(style));
  }

  lemma SampleLine(key: string, val: string, line: string)
    requires line == key + "=" + val
    ensures Line(key, val) == line
  {}

  /** The names in the text. */
  lemma Names()
    ensures ModeName(0) == "gradient" && ModeName(1) == "solid" && ModeName(2) == "wallpaper"
    ensures StyleName(0) == "scale-fill" && StyleName(1) == "center"
  {}

  lemma SampleColours()
    ensures Hex8(0xFF4F_C3F7) == "FF4FC3F7" && Hex8(0xFF1B_2838) == "FF1B2838"
  {
    EightDigits("FF4FC3F7");
    EightDigits("FF1B2838");
    hide Hex8;
    Hex8Is(0xFF4F_C3F7, "FF4FC3F7");
    Hex8Is(0xFF1B_2838, "FF1B2838");
  }

  lemma EightDigits(s: string)
    requires |s| == 8
    ensures
      Value(s, 16) ==
      0x1000_0000 * DigitValue(s[0]) + 0x100_0000 * DigitValue(s[1]) + 0x10_0000 * DigitValue(s[2]) +
      0x1_0000 * DigitValue(s[3]) + 0x1000 * DigitValue(s[4]) + 0x100 * DigitValue(s[5]) + 0x10 * DigitValue(s[6]) +
      DigitValue(s[7])
  {
    hide DigitValue;
    assert s[..8] == s && s[..0] == "";
    forall i | 0 <= i < 8 ensures s[..i + 1][..i] == s[..i] && s[..i + 1][i] == s[i] {}
    assert Value(s[..1], 16) == DigitValue(s[0]);
    assert Value(s[..2], 16) == Value(s[..1], 16) * 16 + DigitValue(s[1]);
    assert Value(s[..3], 16) == Value(s[..2], 16) * 16 + DigitValue(s[2]);
    assert Value(s[..4], 16) == Value(s[..3], 16) * 16 + DigitValue(s[3]);
    assert Value(s[..5], 16) == Value(s[..4], 16) * 16 + DigitValue(s[4]);
    assert Value(s[..6], 16) == Value(s[..5], 16) * 16 + DigitValue(s[5]);
    assert Value(s[..7], 16) == Value(s[..6], 16) * 16 + DigitValue(s[6]);
    assert Value(s[..8], 16) == Value(s[..7], 16) * 16 + DigitValue(s[7]);
  }
}
