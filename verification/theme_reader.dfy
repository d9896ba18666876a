/** Reading a theme configuration (syscall/syscall.c:349-435), and the round trip through the text. */
module ThemeReader {
  import opened Options
  import opened ThemeConfig
  import opened ThemeText
  import F = KernelFormat

  predicate Eol(c: char) {
    c == '\n' || c == '\r'
  }

  /** How many characters come before the end of the line. */
  function LineLen(s: string): (n: nat)
    ensures n <= |s| && (n < |s| ==> Eol(s[n])) && forall i | 0 <= i < n :: !Eol(s[i])
  {
    if s != "" && !Eol(s[0]) then 1 + LineLen(s[1..]) else 0
  }

  /** Where the next line begins: after one or two end-of-line characters. */
  function NextLine(s: string, n: nat): (m: nat)
    requires n <= |s|
    ensures n <= m <= |s| && (n < |s| ==> n < m)
  {
    if n == |s| then n else if n + 1 < |s| && Eol(s[n + 1]) then n + 2 else n + 1
  }

  function IndexOf(s: string, c: char): (i: nat)
    ensures i <= |s| && (i < |s| ==> s[i] == c) && forall j | 0 <= j < i :: s[j] != c
  {
    if s != "" && s[0] != c then 1 + IndexOf(s[1..], c) else 0
  }

  /** What has been read so far: the theme, the version, and which settings were there. */
  datatype Reading = Reading(st: Theme, version: nat, seen: set<string>)

  const START: Reading := Reading(DEFAULTS, 0, {})

  /** One setting, key by key as the reader takes it; what the settings of a file come to as a whole is RoundTrip and
      ReadIsValid. */
  ghost function Assign(r: Reading, key: string, val: string): Option<Reading> {
    if key == "version" then
      match ParsedDecimal(val) case None => None case Some(v) => Some(r.(version := v, seen := r.seen + {key}))
    else if key == "accent_color" then
      match ParsedHex(val) case None => None case Some(v) =>
        if Opaque(v) then Some(r.(st := r.st.(accent := v), seen := r.seen + {key})) else None
    else if key == "background_mode" then
      match ModeOf(val) case None => None case Some(m) => Some(r.(st := r.st.(mode := m), seen := r.seen + {key}))
    else if key == "solid_color" then
      match ParsedHex(val) case None => None case Some(v) =>
        if Opaque(v) then Some(r.(st := r.st.(solid := v), seen := r.seen + {key})) else None
    else if key == "wallpaper_path" then
      if PathOk(val) then Some(r.(st := r.st.(path := val), seen := r.seen + {key})) else None
    else if key == "wallpaper_style" then
      match StyleOf(val) case None => None case Some(m) => Some(r.(st := r.st.(style := m)))
    else Some(r)
  }

  /** One line: empty lines, comments and lines without an equals sign say nothing. */
  ghost function ParsedLine(r: Reading, line: string): Option<Reading> {
    var t := Trim(line);
    if t == "" || t[0] == '#' then Some(r)
    else
      var e := IndexOf(t, '=');
      if e == |t| then Some(r) else Assign(r, Trim(t[..e]), Trim(t[e + 1..]))
  }

  ghost function ParsedLines(s: string, r: Reading): Option<Reading>
    decreases |s|
  {
    if s == "" then Some(r)
    else
      match ParsedLine(r, s[..LineLen(s)])
      case None => None
      case Some(r') => ParsedLines(s[NextLine(s, LineLen(s))..], r')
  }

  /** Reading on after a line, unless it was refused. */
  ghost function Then(r: Option<Reading>, rest: string): Option<Reading> {
    match r case None => None case Some(r') => ParsedLines(rest, r')
  }

  function Complete(r: Reading): Option<Theme> {
    if {"version", "accent_color", "background_mode", "solid_color", "wallpaper_path"} <= r.seen && r.version == 1 &&
       !(r.st.mode == WALLPAPER && r.st.path == "")
    then Some(r.st) else None
  }

  /** What a C string shows of a buffer: all that comes before its first zero. */
  function CString(buf: string): string {
    buf[..IndexOf(buf, '\0')]
  }

  /** theme_read_cfg_from, for the text of the file. */
  ghost function Read(text: string): Option<Theme> {
    if text == "" || |text| > TEXT_MAX then None
    else match ParsedLines(CString(text), START) case None => None case Some(r) => Complete(r)
  }

  // ---- the code ----

  method AssignOne(r: Reading, key: string, val: string) returns (r': Option<Reading>)
    ensures r' == Assign(r, key, val)
  {
    if key == "version" {
      var v := ParseDecimal(val);
      if v.None? {
        return None;
      }
      return Some(r.(version := v.value, seen := r.seen + {key}));
    } else if key == "accent_color" {
      var v := ParseHex(val);
      if v.None? || !Opaque(v.value) {
        return None;
      }
      return Some(r.(st := r.st.(accent := v.value), seen := r.seen + {key}));
    } else if key == "background_mode" {
      var m := ModeOf(val);
      if m.None? {
        return None;
      }
      return Some(r.(st := r.st.(mode := m.value), seen := r.seen + {key}));
    } else if key == "solid_color" {
      var v := ParseHex(val);
      if v.None? || !Opaque(v.value) {
        return None;
      }
      return Some(r.(st := r.st.(solid := v.value), seen := r.seen + {key}));
    } else if key == "wallpaper_path" {
      var ok := ValidatePath(val);
      if !ok {
        return None;
      }
      return Some(r.(st := r.st.(path := val), seen := r.seen + {key}));
    } else if key == "wallpaper_style" {
      var m := StyleOf(val);
      if m.None? {
        return None;
      }
      return Some(r.(st := r.st.(style := m.value)));
    }
    return Some(r);
  }

  method ParseLine(r: Reading, line: string) returns (r': Option<Reading>)
    ensures r' == ParsedLine(r, line)
  {
    var t := TrimWs(line);
    if t == "" || t[0] == '#' {
      return Some(r);
    }
    var eq := 0;
    while eq < |t| && t[eq] != '='
      invariant eq <= |t| && forall j | 0 <= j < eq :: t[j] != '='
    {
      eq := eq + 1;
    }
    IndexIs(t, '=', eq);
    if eq == |t| {
      return Some(r);
    }
    var key := TrimWs(t[..eq]);
    var val := TrimWs(t[eq + 1..]);
    hide Assign;
    r' := AssignOne(r, key, val);
  }

  lemma IndexIs(s: string, c: char, i: nat)
    requires i <= |s| && (i < |s| ==> s[i] == c) && forall j | 0 <= j < i :: s[j] != c
    ensures IndexOf(s, c) == i
  {
    var k := IndexOf(s, c);
    assert k >= i && i >= k;
  }

  lemma LineIs(s: string, n: nat)
    requires n <= |s| && (n < |s| ==> Eol(s[n])) && forall i | 0 <= i < n :: !Eol(s[i])
    ensures LineLen(s) == n
  {
    var k := LineLen(s);
    assert k >= n && n >= k;
  }

  /** The loops of theme_read_cfg_from over the text of the file. */
  method ReadConfig(text: string) returns (out: Option<Theme>)
    ensures out == Read(text)
  {
    if text == "" || |text| > TEXT_MAX {
      return None;
    }
    var r := START;
    var buf := CString(text);
    var scan := 0;
    hide ParsedLine, Eol;
    assert buf[0..] == buf;
    while scan < |buf|
      invariant scan <= |buf| && ParsedLines(buf[scan..], r) == ParsedLines(buf, START)
    {
      var line, next := TakeLine(buf, scan);
      var r' := ParseLine(r, line);
      if r'.None? {
        return None;
      }
      r := r'.value;
      scan := next;
    }
    return Complete(r);
  }

  /** The inner loops that cut off a line. */
  method TakeLine(text: string, from: nat) returns (line: string, next: nat)
    requires from < |text|
    ensures from < next <= |text|
    ensures forall r :: ParsedLines(text[from..], r) == Then(ParsedLine(r, line), text[next..])
  {
    var scan := from;
    while scan < |text| && text[scan] != '\n' && text[scan] != '\r'
      invariant from <= scan <= |text| && forall i | from <= i < scan :: !Eol(text[i])
    {
      scan := scan + 1;
    }
    line := text[from..scan];
    next := scan;
    if next < |text| {
      next := next + 1;
      if next < |text| && (text[next] == '\n' || text[next] == '\r') {
        next := next + 1;
      }
    }
    TookLine(text, from, scan, next);
  }

  lemma TookLine(text: string, from: nat, scan: nat, next: nat)
    requires from < |text| && from <= scan <= |text| &&
      (forall i | from <= i < scan :: !Eol(text[i])) && (scan < |text| ==> Eol(text[scan]))
    requires next == if scan == |text| then scan else if scan + 1 < |text| && Eol(text[scan + 1]) then scan + 2
      else scan + 1
    ensures forall r :: ParsedLines(text[from..], r) == Then(ParsedLine(r, text[from..scan]), text[next..])
  {
    hide *;
    var s := text[from..];
    Sliced(text, from, scan, next);
    LineIs(s, scan - from);
    NextIs(s, scan - from);
    forall r ensures ParsedLines(s, r) == Then(ParsedLine(r, text[from..scan]), text[next..]) {
      OneLine(s, r);
    }
  }

  lemma Sliced(text: string, from: nat, scan: nat, next: nat)
    requires from <= scan <= next <= |text|
    ensures
      var s := text[from..];
      s[..scan - from] == text[from..scan] && s[next - from..] == text[next..] &&
        forall i | 0 <= i < |s| :: s[i] == text[from + i]
  {}

  lemma NextIs(s: string, n: nat)
    requires n <= |s|
    ensures NextLine(s, n) == if n == |s| then n else if n + 1 < |s| && Eol(s[n + 1]) then n + 2 else n + 1
  {}

  lemma OneLine(s: string, r: Reading)
    requires s != ""
    ensures ParsedLines(s, r) == Then(ParsedLine(r, s[..LineLen(s)]), s[NextLine(s, LineLen(s))..])
  {}

  /** theme_write_cfg_to, up to the file it is written to. */
  method WriteConfig(st: Theme) returns (text: Option<string>)
    ensures text == if 0 < |Written(st)| < TEXT_CAP then Some(Written(st)) else None
  {
    var cfg, len := F.Ksprintf(TEXT_CAP, FORMAT, Arguments(st));
    if len <= 0 || len >= TEXT_CAP {
      return None;
    }
    return Some(cfg);
  }

  // ---- what reading gives ----

  /** What every theme that was read is like. */
  ghost predicate Proper(st: Theme) {
    Opaque(st.accent) && Opaque(st.solid) && st.mode <= WALLPAPER && st.style <= CENTER && PathOk(st.path) &&
      Trimmed(st.path)
  }

  ghost predicate Valid(st: Theme) {
    Proper(st) && !(st.mode == WALLPAPER && st.path == "")
  }

  lemma LineKeepsProper(r: Reading, line: string)
    requires Proper(r.st) && r.st.flags == 0
    ensures var r' := ParsedLine(r, line); r'.Some? ==> Proper(r'.value.st) && r'.value.st.flags == 0
  {
    var t := Trim(line);
    if t != "" && t[0] != '#' && IndexOf(t, '=') < |t| {
      var key, val := Trim(t[..IndexOf(t, '=')]), Trim(t[IndexOf(t, '=') + 1..]);
      TrimIsTrimmed(t[IndexOf(t, '=') + 1..]);
      AssignKeepsProper(r, key, val);
      hide Assign, Trim, Proper, IndexOf;
    }
  }

  lemma AssignKeepsProper(r: Reading, key: string, val: string)
    requires Proper(r.st) && r.st.flags == 0 && Trimmed(val)
    ensures var r' := Assign(r, key, val); r'.Some? ==> Proper(r'.value.st) && r'.value.st.flags == 0
  {
    hide PathOk, Opaque, Trimmed, ParsedHex, ParsedDecimal;
  }

  lemma {:induction false} LinesKeepProper(s: string, r: Reading)
    requires Proper(r.st) && r.st.flags == 0
    ensures var r' := ParsedLines(s, r); r'.Some? ==> Proper(r'.value.st) && r'.value.st.flags == 0
    decreases |s|
  {
    if s != "" {
      LineKeepsProper(r, s[..LineLen(s)]);
      var next := ParsedLine(r, s[..LineLen(s)]);
      if next.Some? {
        LinesKeepProper(s[NextLine(s, LineLen(s))..], next.value);
      }
    }
  }

  /** Whatever the text, a theme that is read from it is valid. */
  lemma ReadIsValid(text: string)
    ensures Read(text).Some? ==> Valid(Read(text).value) && Read(text).value.flags == 0
  {
    assert Proper(DEFAULTS);
    LinesKeepProper(CString(text), START);
    hide Proper, CString, ParsedLines;
  }

  // ---- the round trip ----

  /** Nothing in s ends the line or the text. */
  predicate InLine(s: string) {
    '\n' !in s && '\r' !in s && '\0' !in s
  }

  predicate NiceLine(line: string) {
    line != "" && InLine(line)
  }

  lemma {:induction false} NoZeros(lines: seq<string>)
    requires forall i | 0 <= i < |lines| :: NiceLine(lines[i])
    ensures '\0' !in Ended(lines)
  {
    if lines != [] {
      NoZeros(lines[1..]);
      assert NiceLine(lines[0]);
      assert forall c | c in lines[0] + ("\n" + Ended(lines[1..])) ::
        c in lines[0] || c == '\n' || c in Ended(lines[1..]);
    }
  }

  ghost function Folded(lines: seq<string>, r: Reading): Option<Reading> {
    if lines == [] then Some(r)
    else match ParsedLine(r, lines[0]) case None => None case Some(r') => Folded(lines[1..], r')
  }

  lemma {:induction false} EndedIsFolded(lines: seq<string>, r: Reading)
    requires forall i | 0 <= i < |lines| :: NiceLine(lines[i])
    ensures ParsedLines(Ended(lines), r) == Folded(lines, r)
  {
    if lines != [] {
      var line, rest := lines[0], Ended(lines[1..]);
      var s := line + ("\n" + rest);
      assert NiceLine(line);
      assert rest != "" ==> NiceLine(lines[1]) && rest[0] == lines[1][0] && rest[0] in lines[1];
      FirstLine(line, rest, r);
      var next := ParsedLine(r, line);
      if next.Some? {
        EndedIsFolded(lines[1..], next.value);
      }
    }
  }

  lemma FirstLine(line: string, rest: string, r: Reading)
    requires NiceLine(line) && (rest != "" ==> !Eol(rest[0]))
    ensures ParsedLines(line + ("\n" + rest), r) ==
      match ParsedLine(r, line) case None => None case Some(r') => ParsedLines(rest, r')
  {
    var s := line + ("\n" + rest);
    forall i | 0 <= i < |line| ensures !Eol(s[i]) {
      assert s[i] == line[i] && line[i] in line;
    }
    assert s[|line|] == '\n';
    LineIs(s, |line|);
    assert |line| + 1 < |s| ==> s[|line| + 1] == rest[0];
    assert s[..|line|] == line && s[|line| + 1..] == rest;
  }

  /** A setting written as a line is read as that setting. */
  lemma SettingLine(key: string, val: string, r: Reading)
    requires key != "" && key[0] != '#' && '=' !in key && Trimmed(key) && Trimmed(val)
    ensures ParsedLine(r, Line(key, val)) == Assign(r, key, val)
  {
    var t := Line(key, val);
    assert t[0] == key[0] && t[|t| - 1] == if val == "" then '=' else val[|val| - 1];
    TrimmedStays(t);
    forall j | 0 <= j < |key| ensures t[j] != '=' {
      assert t[j] == key[j] && key[j] in key;
    }
    assert t[|key|] == '=';
    IndexIs(t, '=', |key|);
    assert t[..|key|] == key && t[|key| + 1..] == val;
    TrimmedStays(key);
    TrimmedStays(val);
  }

  /** The keys as they are written. */
  predicate IsKey(key: string) {
    key != "" && key[0] != '#' && '=' !in key && InLine(key) && Trimmed(key)
  }

  lemma VersionKey()
    ensures IsKey("version")
  {}

  lemma AccentKey()
    ensures IsKey("accent_color")
  {}

  lemma ModeKey()
    ensures IsKey("background_mode")
  {}

  lemma SolidKey()
    ensures IsKey("solid_color")
  {}

  lemma PathKey()
    ensures IsKey("wallpaper_path")
  {}

  lemma StyleKey()
    ensures IsKey("wallpaper_style")
  {}

  /** A value that a line can carry. */
  predicate IsValue(val: string) {
    InLine(val) && Trimmed(val)
  }

  lemma SettingLineIs(key: string, val: string, r: Reading)
    requires IsKey(key) && IsValue(val)
    ensures ParsedLine(r, Line(key, val)) == Assign(r, key, val) && NiceLine(Line(key, val))
  {
    SettingLine(key, val, r);
    hide ParsedLine, Assign;
    var t := Line(key, val);
    assert forall c | c in t :: c in key || c == '=' || c in val;
  }

  lemma HexValueIs(v: nat)
    requires v < WORD
    ensures IsValue("0x" + Hex8(v)) && ParsedHex("0x" + Hex8(v)) == Some(v) && |Hex8(v)| == 8
  {
    HexRoundTrip(v);
    PaddedHex(v);
    assert v % WORD == v;
    HexIsValue(Hex8(v));
  }

  lemma HexIsValue(t: string)
    requires |t| == 8 && AllHex(t)
    ensures IsValue("0x" + t)
  {
    var s := "0x" + t;
    assert s[|s| - 1] == t[7] && HexDigit(t[7]).Some?;
    forall c | c in t ensures c != '\n' && c != '\r' && c != '\0' {
      var i :| 0 <= i < 8 && t[i] == c;
      assert HexDigit(t[i]).Some?;
    }
    assert forall c | c in s :: c == '0' || c == 'x' || c in t;
  }

  lemma PathIsValue(path: string)
    requires PathOk(path) && Trimmed(path)
    ensures IsValue(path) && |path| < PATH_CAP
  {
    forall c | c in path ensures c != '\n' && c != '\r' && c != '\0' {
      var i :| 0 <= i < |path| && path[i] == c;
    }
  }

  lemma NamesAreValues(mode: nat, style: nat)
    ensures IsValue(ModeName(mode)) && IsValue(StyleName(style)) && |ModeName(mode)| <= 10 && |StyleName(style)| <= 10
    ensures mode <= WALLPAPER ==> ModeOf(ModeName(mode)) == Some(mode)
    ensures style <= CENTER ==> StyleOf(StyleName(style)) == Some(style)
  {}

  lemma VersionIsValue()
    ensures IsValue("1") && ParsedDecimal("1") == Some(1)
  {
    assert "1"[..0] == "";
  }

  lemma ReadVersion(r: Reading)
    ensures NiceLine(Line("version", "1"))
    ensures ParsedLine(r, Line("version", "1")) == Some(r.(version := 1, seen := r.seen + {"version"}))
  {
    VersionKey();
    VersionIsValue();
    hide ParsedLine, ParsedDecimal, IsKey, IsValue;
    SettingLineIs("version", "1", r);
  }

  lemma ReadAccent(r: Reading, v: nat)
    requires v < WORD && Opaque(v)
    ensures NiceLine(Line("accent_color", "0x" + Hex8(v)))
    ensures ParsedLine(r, Line("accent_color", "0x" + Hex8(v))) ==
      Some(r.(st := r.st.(accent := v), seen := r.seen + {"accent_color"}))
  {
    AccentKey();
    HexValueIs(v);
    hide ParsedLine, ParsedHex, IsKey, IsValue, Hex8, Opaque;
    SettingLineIs("accent_color", "0x" + Hex8(v), r);
  }

  lemma ReadMode(r: Reading, mode: nat)
    requires mode <= WALLPAPER
    ensures NiceLine(Line("background_mode", ModeName(mode)))
    ensures ParsedLine(r, Line("background_mode", ModeName(mode))) ==
      Some(r.(st := r.st.(mode := mode), seen := r.seen + {"background_mode"}))
  {
    ModeKey();
    NamesAreValues(mode, 0);
    hide ParsedLine, ModeOf, ModeName, IsKey, IsValue;
    SettingLineIs("background_mode", ModeName(mode), r);
  }

  lemma ReadSolid(r: Reading, v: nat)
    requires v < WORD && Opaque(v)
    ensures NiceLine(Line("solid_color", "0x" + Hex8(v)))
    ensures ParsedLine(r, Line("solid_color", "0x" + Hex8(v))) ==
      Some(r.(st := r.st.(solid := v), seen := r.seen + {"solid_color"}))
  {
    SolidKey();
    HexValueIs(v);
    hide ParsedLine, ParsedHex, IsKey, IsValue, Hex8, Opaque;
    SettingLineIs("solid_color", "0x" + Hex8(v), r);
  }

  lemma ReadPath(r: Reading, path: string)
    requires PathOk(path) && Trimmed(path)
    ensures NiceLine(Line("wallpaper_path", path))
    ensures ParsedLine(r, Line("wallpaper_path", path)) ==
      Some(r.(st := r.st.(path := path), seen := r.seen + {"wallpaper_path"}))
  {
    PathKey();
    PathIsValue(path);
    hide ParsedLine, PathOk, IsKey, IsValue;
    SettingLineIs("wallpaper_path", path, r);
  }

  lemma ReadStyle(r: Reading, style: nat)
    requires style <= CENTER
    ensures NiceLine(Line("wallpaper_style", StyleName(style)))
    ensures ParsedLine(r, Line("wallpaper_style", StyleName(style))) == Some(r.(st := r.st.(style := style)))
  {
    StyleKey();
    NamesAreValues(0, style);
    hide ParsedLine, StyleOf, StyleName, IsKey, IsValue;
    SettingLineIs("wallpaper_style", StyleName(style), r);
  }

  /** What the six lines of a valid theme are read as. */
  lemma LinesAreRead(st: Theme)
    requires Valid(st) && st.accent < WORD && st.solid < WORD
    ensures forall i | 0 <= i < 6 :: NiceLine(Lines(st)[i])
    ensures
      var r := Folded(Lines(st), START);
      r.Some? && r.value.st == st.(flags := 0) && r.value.version == 1 &&
      {"version", "accent_color", "background_mode", "solid_color", "wallpaper_path"} <= r.value.seen
  {
    hide ParsedLine, Hex8, ModeName, StyleName, PathOk, Opaque, Trimmed, NiceLine, Line, Folded;
    var r0 := START;
    ReadVersion(r0);
    var r1 := r0.(version := 1, seen := r0.seen + {"version"});
    ReadAccent(r1, st.accent);
    var r2 := r1.(st := r1.st.(accent := st.accent), seen := r1.seen + {"accent_color"});
    ReadMode(r2, st.mode);
    var r3 := r2.(st := r2.st.(mode := st.mode), seen := r2.seen + {"background_mode"});
    ReadSolid(r3, st.solid);
    var r4 := r3.(st := r3.st.(solid := st.solid), seen := r3.seen + {"solid_color"});
    ReadPath(r4, st.path);
    var r5 := r4.(st := r4.st.(path := st.path), seen := r4.seen + {"wallpaper_path"});
    ReadStyle(r5, st.style);
    var r6 := r5.(st := r5.st.(style := st.style));
    FoldSix(Lines(st), r0, r1, r2, r3, r4, r5, r6);
    assert r6.st == st.(flags := 0);
  }

  lemma FoldSix(lines: seq<string>, r0: Reading, r1: Reading, r2: Reading, r3: Reading, r4: Reading, r5: Reading,
      r6: Reading)
    requires |lines| == 6 && ParsedLine(r0, lines[0]) == Some(r1) && ParsedLine(r1, lines[1]) == Some(r2) &&
      ParsedLine(r2, lines[2]) == Some(r3)
    requires ParsedLine(r3, lines[3]) == Some(r4) && ParsedLine(r4, lines[4]) == Some(r5) &&
      ParsedLine(r5, lines[5]) == Some(r6)
    ensures Folded(lines, r0) == Some(r6)
  {
    hide ParsedLine;
    assert Folded(lines[1..][1..][1..][1..][1..][1..], r6) == Some(r6);
    assert Folded(lines[1..][1..][1..][1..][1..], r5) == Some(r6);
    assert Folded(lines[1..][1..][1..][1..], r4) == Some(r6);
    assert Folded(lines[1..][1..][1..], r3) == Some(r6);
    assert Folded(lines[1..][1..], r2) == Some(r6);
    assert Folded(lines[1..], r1) == Some(r6);
  }

  lemma WrittenFits(st: Theme)
    requires |st.path| < PATH_CAP && st.accent < WORD && st.solid < WORD
    ensures 0 < |Written(st)| < TEXT_CAP
  {
    WrittenIsLines(st);
    LinesEnd(st);
    HexValueIs(st.accent);
    HexValueIs(st.solid);
    NamesAreValues(st.mode, st.style);
    hide Hex8, ModeName, StyleName, Ended, Written;
  }

  lemma NothingCutOff(s: string)
    requires '\0' !in s
    ensures CString(s) == s
  {
    IndexIs(s, '\0', |s|);
  }

  /** Reading the text of a theme gives the theme back, but for its flags, exactly when its colours are opaque, its
      modes known, its path valid without white space at its end, and not empty where it is needed. */
  lemma RoundTrip(st: Theme)
    requires st.accent < WORD && st.solid < WORD && |st.path| < PATH_CAP
    ensures Read(Written(st)) == Some(st.(flags := 0)) <==> Valid(st)
  {
    if Valid(st) {
      WrittenIsLines(st);
      WrittenFits(st);
      LinesAreRead(st);
      EndedIsFolded(Lines(st), START);
      NoZeros(Lines(st));
      NothingCutOff(Written(st));
    }
    ReadIsValid(Written(st));
    hide Read, Written, PathOk, Opaque, Trimmed;
  }
}
