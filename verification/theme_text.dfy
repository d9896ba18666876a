/** The theme configuration file as a whole: the writer, the reader, and what reading back what was written gives. */
module ThemeText {
  import opened Options
  import opened ThemeConfig
  import F = KernelFormat

  // ---- white space ----

  predicate Space(c: char) {
    c == ' ' || c == '\t' || c == '\n' || c == '\r'
  }

  function Lead(s: string): (n: nat)
    ensures n <= |s| && (n < |s| ==> !Space(s[n])) && forall i | 0 <= i < n :: Space(s[i])
  {
    if s != "" && Space(s[0]) then 1 + Lead(s[1..]) else 0
  }

  function Kept(s: string): (n: nat)
    ensures n <= |s| && (n > 0 ==> !Space(s[n - 1])) && forall i | n <= i < |s| :: Space(s[i])
  {
    if s != "" && Space(s[|s| - 1]) then Kept(s[..|s| - 1]) else |s|
  }

  /** Without white space at either end. */
  function Trim(s: string): string {
    var t := s[Lead(s)..];
    t[..Kept(t)]
  }

  predicate Trimmed(s: string) {
    s != "" ==> !Space(s[0]) && !Space(s[|s| - 1])
  }

  lemma TrimmedStays(s: string)
    requires Trimmed(s)
    ensures Trim(s) == s
  {
    assert Lead(s) == 0 && s[0..] == s && Kept(s) == |s| && s[..|s|] == s;
  }

  lemma TrimIsTrimmed(s: string)
    ensures Trimmed(Trim(s)) && |Trim(s)| <= |s|
  {
    var t := s[Lead(s)..];
    var k := Kept(t);
    assert k > 0 ==> t[..k][0] == t[0] && t[..k][k - 1] == t[k - 1];
  }

  /** trim_ws. */
  method TrimWs(s: string) returns (r: string)
    ensures r == Trim(s)
  {
    var start := 0;
    while start < |s| && Space(s[start])
      invariant start <= |s| && forall i | 0 <= i < start :: Space(s[i])
    {
      start := start + 1;
    }
    var end := |s|;
    while end > start && Space(s[end - 1])
      invariant start <= end <= |s| && forall i | end <= i < |s| :: Space(s[i])
    {
      end := end - 1;
    }
    TrimIs(s, start, end);
    return s[start..end];
  }

  lemma TrimIs(s: string, start: nat, end: nat)
    requires start <= end <= |s| && (start < |s| ==> !Space(s[start])) && (forall i | 0 <= i < start :: Space(s[i]))
    requires (end > start ==> !Space(s[end - 1])) && forall i | end <= i < |s| :: Space(s[i])
    ensures Trim(s) == s[start..end]
  {
    var n := Lead(s);
    assert n >= start && start >= n;
    var t := s[start..];
    assert forall i | 0 <= i < |t| :: t[i] == s[start + i];
    var k := Kept(t);
    assert k >= end - start && end - start >= k;
    assert t[..end - start] == s[start..end];
  }

  // ---- names and paths ----

  function ModeName(mode: nat): string {
    if mode == SOLID then "solid" else if mode == WALLPAPER then "wallpaper" else "gradient"
  }

  function ModeOf(s: string): Option<nat> {
    if s == "gradient" then Some(GRADIENT) else if s == "solid" then Some(SOLID) else if s == "wallpaper"
      then Some(WALLPAPER) else None
  }

  function StyleName(style: nat): string {
    if style == CENTER then "center" else "scale-fill"
  }

  function StyleOf(s: string): Option<nat> {
    if s == "scale-fill" then Some(SCALE_FILL) else if s == "center" then Some(CENTER) else None
  }

  predicate Opaque(color: nat) {
    color / 0x100_0000 % 0x100 == 0xFF
  }

  /** Two dots between slashes, or at an end of the path. */
  predicate DotsAt(path: string, i: int) {
    0 <= i && i + 1 < |path| && path[i] == '.' && path[i + 1] == '.' &&
    (i == 0 || path[i - 1] == '/') && (i + 2 >= |path| || path[i + 2] == '/')
  }

  /** An absolute path of printable characters without backslashes and without ".." as a name; or no path. */
  ghost predicate PathOk(path: string) {
    path != "" ==>
      |path| < PATH_CAP && path[0] == '/' && (forall i | 0 <= i < |path| :: ' ' <= path[i] <= '~' && path[i] != '\\') &&
      forall i: int :: !DotsAt(path, i)
  }

  /** validate_wallpaper_path, with the empty path allowed. */
  method ValidatePath(path: string) returns (ok: bool)
    ensures ok == PathOk(path)
  {
    if path == "" {
      return true;
    }
    if |path| >= PATH_CAP || path[0] != '/' {
      return false;
    }
    for i := 0 to |path|
      invariant forall j | 0 <= j < i :: ' ' <= path[j] <= '~' && path[j] != '\\'
    {
      if path[i] < ' ' || path[i] > '~' || path[i] == '\\' {
        return false;
      }
    }
    var i := 0;
    while i + 1 < |path|
      invariant i <= |path| && forall j: int | j < i :: !DotsAt(path, j)
    {
      if path[i] == '.' && path[i + 1] == '.' {
        var prev := if i > 0 then path[i - 1] else '/';
        var next := if i + 2 < |path| then path[i + 2] else '/';
        if prev == '/' && next == '/' {
          assert DotsAt(path, i);
          return false;
        }
      }
      i := i + 1;
    }
    return true;
  }

  // ---- writing ----

  const FORMAT: string := "version=" + ("%u" + ("\n" + FORMAT_ACCENT))
  const FORMAT_ACCENT: string := "accent_color=0x" + ("%08X" + ("\n" + FORMAT_MODE))
  const FORMAT_MODE: string := "background_mode=" + ("%s" + ("\n" + FORMAT_SOLID))
  const FORMAT_SOLID: string := "solid_color=0x" + ("%08X" + ("\n" + FORMAT_PATH))
  const FORMAT_PATH: string := "wallpaper_path=" + ("%s" + ("\n" + FORMAT_STYLE))
  const FORMAT_STYLE: string := "wallpaper_style=" + ("%s" + ("\n" + ""))

  function Arguments(st: Theme): seq<F.Arg> {
    [F.Word(1), F.Word(st.accent), F.Text(ModeName(st.mode)), F.Word(st.solid), F.Text(st.path),
      F.Text(StyleName(st.style))]
  }

  function Hex8(v: nat): string {
    F.Padded(F.Digits(v % WORD, 16, F.UPPER), '0', 8)
  }

  /** The text of a theme. */
  function Written(st: Theme): string {
    F.Formatted(FORMAT, Arguments(st))
  }

  lemma PlainDirective(c: char, rest: string)
    requires !('0' <= c <= '9')
    ensures F.DirectiveAt([c] + rest) == F.Directive(' ', 0, c, 1, false)
  {
    var t := [c] + rest;
    assert t[0] == c && F.WidthLen(t) == 0 && t[..0] == "";
  }

  lemma TextDirective(s: string, rest: string, args: seq<F.Arg>)
    ensures F.Formatted("%s" + rest, [F.Text(s)] + args) == s + F.Formatted(rest, args)
  {
    var fmt, all := "%s" + rest, [F.Text(s)] + args;
    PlainDirective('s', rest);
    assert fmt[1..] == ['s'] + rest && fmt[0] == '%' && fmt[2..] == rest && all[1..] == args;
    hide F.DirectiveAt, F.WidthLen, F.WidthOf;
    F.FormattedIs(fmt, all);
    assert F.Printed(F.Directive(' ', 0, 's', 1, false), all) == s;
  }

  lemma WordDirective(v: nat, rest: string, args: seq<F.Arg>)
    requires v < 10
    ensures F.Formatted("%u" + rest, [F.Word(v)] + args) == [F.LOWER[v]] + F.Formatted(rest, args)
  {
    var fmt, all := "%u" + rest, [F.Word(v)] + args;
    PlainDirective('u', rest);
    OneDigitWord(v);
    assert fmt[1..] == ['u'] + rest && fmt[0] == '%' && fmt[2..] == rest && all[1..] == args;
    hide F.DirectiveAt, F.WidthLen, F.WidthOf, F.Digits, F.Padded;
    F.FormattedIs(fmt, all);
  }

  lemma OneDigitWord(v: nat)
    requires v < 10
    ensures v % WORD == v && F.Padded(F.Digits(v, 10, F.LOWER), ' ', 0) == [F.LOWER[v]]
  {
    assert F.Digits(v, 10, F.LOWER) == [F.LOWER[v]];
  }

  lemma HexDirective(v: nat, rest: string, args: seq<F.Arg>)
    ensures F.Formatted("%08X" + rest, [F.Word(v)] + args) == Hex8(v) + F.Formatted(rest, args)
  {
    var fmt := "%08X" + rest;
    assert fmt[0] == '%' && fmt[4..] == rest;
    var t := fmt[1..];
    assert t[0] == '0' && t[1..] == "8X" + rest;
    WidthEight(rest);
    assert F.DirectiveAt(t) == F.Directive('0', 8, 'X', 3, false);
    assert ([F.Word(v)] + args)[1..] == args;
  }

  lemma WidthEight(rest: string)
    ensures var t := "8X" + rest; F.WidthLen(t) == 1 && t[1] == 'X' && F.WidthOf(t[..1]) == 8
  {
    var t := "8X" + rest;
    assert t[0] == '8' && t[1..][0] == 'X';
    assert t[..1] == "8" && t[..1][..0] == "";
    assert F.WidthLen(t[1..]) == 0;
  }

  function Line(key: string, value: string): string {
    key + "=" + value
  }

  /** The lines of a theme's text. */
  function Lines(st: Theme): seq<string> {
    [Line("version", "1"), Line("accent_color", "0x" + Hex8(st.accent)), Line("background_mode", ModeName(st.mode)),
     Line("solid_color", "0x" + Hex8(st.solid)), Line("wallpaper_path", st.path),
       Line("wallpaper_style", StyleName(st.style))]
  }

  function Ended(lines: seq<string>): string {
    if lines == [] then "" else lines[0] + ("\n" + Ended(lines[1..]))
  }

  lemma Regrouped(a: string, b: string, c: string)
    ensures a + (b + c) == (a + b) + c
  {}

  lemma NewlinePrints(rest: string, args: seq<F.Arg>)
    ensures F.Formatted("\n" + rest, args) == "\n" + F.Formatted(rest, args)
  {
    F.Literal("\n", rest, args);
  }

  /** A line of the format with a text in it. */
  lemma TextLine(head: string, s: string, rest: string, args: seq<F.Arg>)
    requires '%' !in head
    ensures F.Formatted(head + ("%s" + ("\n" + rest)), [F.Text(s)] + args) ==
      (head + s) + ("\n" + F.Formatted(rest, args))
  {
    hide *;
    F.Literal(head, "%s" + ("\n" + rest), [F.Text(s)] + args);
    TextDirective(s, "\n" + rest, args);
    NewlinePrints(rest, args);
    Regrouped(head, s, "\n" + F.Formatted(rest, args));
  }

  lemma HexLine(head: string, v: nat, rest: string, args: seq<F.Arg>)
    requires '%' !in head
    ensures F.Formatted(head + ("%08X" + ("\n" + rest)), [F.Word(v)] + args) ==
      (head + Hex8(v)) + ("\n" + F.Formatted(rest, args))
  {
    hide *;
    F.Literal(head, "%08X" + ("\n" + rest), [F.Word(v)] + args);
    HexDirective(v, "\n" + rest, args);
    NewlinePrints(rest, args);
    Regrouped(head, Hex8(v), "\n" + F.Formatted(rest, args));
  }

  lemma VersionLine(rest: string, args: seq<F.Arg>)
    ensures F.Formatted("version=" + ("%u" + ("\n" + rest)), [F.Word(1)] + args) ==
      Line("version", "1") + ("\n" + F.Formatted(rest, args))
  {
    F.Literal("version=", "%u" + ("\n" + rest), [F.Word(1)] + args);
    hide F.Formatted, F.Digits;
    WordDirective(1, "\n" + rest, args);
    NewlinePrints(rest, args);
    assert [F.LOWER[1]] == "1";
    Regrouped("version=", "1", "\n" + F.Formatted(rest, args));
    assert "version=" == "version" + "=";
  }

  lemma Heads()
    ensures '%' !in "accent_color=0x" && '%' !in "background_mode=" && '%' !in "solid_color=0x"
    ensures '%' !in "wallpaper_path=" && '%' !in "wallpaper_style="
  {}

  lemma LineHeads(v: nat, s: string)
    ensures "accent_color=0x" + Hex8(v) == Line("accent_color", "0x" + Hex8(v))
    ensures "solid_color=0x" + Hex8(v) == Line("solid_color", "0x" + Hex8(v))
    ensures "background_mode=" + s == Line("background_mode", s)
    ensures "wallpaper_path=" + s == Line("wallpaper_path", s) && "wallpaper_style=" + s == Line("wallpaper_style", s)
  {
    hide Hex8;
    Regrouped("accent_color=", "0x", Hex8(v));
    Regrouped("solid_color=", "0x", Hex8(v));
    assert "accent_color=" + "0x" == "accent_color=0x" && "solid_color=" + "0x" == "solid_color=0x";
    assert "accent_color" + "=" == "accent_color=" && "solid_color" + "=" == "solid_color=";
    assert "background_mode" + "=" == "background_mode=" && "wallpaper_path" + "=" == "wallpaper_path=";
    assert "wallpaper_style" + "=" == "wallpaper_style=";
  }

  lemma FormatsAre()
    ensures FORMAT == "version=" + ("%u" + ("\n" + FORMAT_ACCENT)) &&
      FORMAT_ACCENT == "accent_color=0x" + ("%08X" + ("\n" + FORMAT_MODE))
    ensures FORMAT_MODE == "background_mode=" + ("%s" + ("\n" + FORMAT_SOLID)) &&
      FORMAT_SOLID == "solid_color=0x" + ("%08X" + ("\n" + FORMAT_PATH))
    ensures FORMAT_PATH == "wallpaper_path=" + ("%s" + ("\n" + FORMAT_STYLE)) &&
      FORMAT_STYLE == "wallpaper_style=" + ("%s" + ("\n" + ""))
  {}

  lemma EndedStep(line: string, rest: seq<string>)
    ensures Ended([line] + rest) == line + ("\n" + Ended(rest)) && Ended([]) == ""
  {
    assert ([line] + rest)[1..] == rest;
  }

  /** The written text is the six lines of the theme. */
  lemma WrittenIsLines(st: Theme)
    ensures Written(st) == Ended(Lines(st))
  {
    hide FORMAT, FORMAT_ACCENT, FORMAT_MODE, FORMAT_SOLID, FORMAT_PATH, FORMAT_STYLE, F.Formatted, Ended, Hex8, Line,
      ModeName, StyleName;
    FormatsAre();
    Heads();
    var a0: seq<F.Arg> := [];
    var a1 := [F.Text(StyleName(st.style))] + a0;
    var a2 := [F.Text(st.path)] + a1;
    var a3 := [F.Word(st.solid)] + a2;
    var a4 := [F.Text(ModeName(st.mode))] + a3;
    var a5 := [F.Word(st.accent)] + a4;
    assert Arguments(st) == [F.Word(1)] + a5;
    VersionLine(FORMAT_ACCENT, a5);
    HexLine("accent_color=0x", st.accent, FORMAT_MODE, a4);
    TextLine("background_mode=", ModeName(st.mode), FORMAT_SOLID, a3);
    HexLine("solid_color=0x", st.solid, FORMAT_PATH, a2);
    TextLine("wallpaper_path=", st.path, FORMAT_STYLE, a1);
    TextLine("wallpaper_style=", StyleName(st.style), "", a0);
    NothingPrints(a0);
    LineHeads(st.accent, ModeName(st.mode));
    LineHeads(st.solid, st.path);
    LineHeads(0, StyleName(st.style));
    LinesEnd(st);
  }

  lemma NothingPrints(args: seq<F.Arg>)
    ensures F.Formatted("", args) == ""
  {}

  lemma LinesEnd(st: Theme)
    ensures
      var l := Lines(st);
      |l| == 6 && Ended(l) ==
        l[0] + ("\n" + (l[1] + ("\n" + (l[2] + ("\n" + (l[3] + ("\n" + (l[4] + ("\n" + (l[5] + ("\n" + "")))))))))))
  {
    hide Hex8, Line, ModeName, StyleName, Ended;
    var l := Lines(st);
    assert l == [l[0]] + ([l[1]] + ([l[2]] + ([l[3]] + ([l[4]] + ([l[5]] + [])))));
    EndedStep(l[5], []);
    EndedStep(l[4], [l[5]] + []);
    EndedStep(l[3], [l[4]] + ([l[5]] + []));
    EndedStep(l[2], [l[3]] + ([l[4]] + ([l[5]] + [])));
    EndedStep(l[1], [l[2]] + ([l[3]] + ([l[4]] + ([l[5]] + []))));
    EndedStep(l[0], [l[1]] + ([l[2]] + ([l[3]] + ([l[4]] + ([l[5]] + [])))));
  }
}
