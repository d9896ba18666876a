/** Paths and mounts of the VFS (fs/vfs.c:135-274, 340-387). */
module Paths {
  import opened Options

  const PATH_MAX: nat := 256
  const NAME_MAX: nat := 64
  const MAX_SEGMENTS: nat := 32

  // ---- segments of a path ----

  /** How many slashes a path begins with. */
  function Slashes(s: string): (n: nat)
    ensures n <= |s| && (n < |s| ==> s[n] != '/') && forall i | 0 <= i < n :: s[i] == '/'
  {
    if s != "" && s[0] == '/' then 1 + Slashes(s[1..]) else 0
  }

  /** How many characters come before the first slash. */
  function NameLen(s: string): (n: nat)
    ensures n <= |s| && (n < |s| ==> s[n] == '/') && forall i | 0 <= i < n :: s[i] != '/'
  {
    if s != "" && s[0] != '/' then 1 + NameLen(s[1..]) else 0
  }

  /** A name is cut after 63 characters. */
  function Cut(name: string): string {
    if |name| < NAME_MAX then name else name[..NAME_MAX - 1]
  }

  /** The names between slashes. */
  function Segments(s: string): seq<string>
    decreases |s|
  {
    var t := s[Slashes(s)..];
    if t == "" then [] else [Cut(t[..NameLen(t)])] + Segments(t[NameLen(t)..])
  }

  /** A name that stands for itself. */
  predicate Plain(name: string) {
    name != "" && name != "." && name != ".." && |name| < NAME_MAX && '/' !in name
  }

  /** The names a path leads through: "." stays, ".." goes back unless it is at the root already, and more than
      32 names are too many. */
  function Resolve(names: seq<string>, stack: seq<string>): Option<seq<string>> {
    if names == [] then Some(stack)
    else if names[0] == "" || names[0] == "." then Resolve(names[1..], stack)
    else if names[0] == ".." then Resolve(names[1..], if stack == [] then [] else stack[..|stack| - 1])
    else if |stack| >= MAX_SEGMENTS then None
    else Resolve(names[1..], stack + [names[0]])
  }

  /** The names, each after a slash. */
  function Spelled(stack: seq<string>): string {
    if stack == [] then "" else Spelled(stack[..|stack| - 1]) + "/" + stack[|stack| - 1]
  }

  function Render(stack: seq<string>): string {
    if stack == [] then "/" else Spelled(stack)
  }

  ghost predicate Good(stack: seq<string>) {
    |stack| <= MAX_SEGMENTS && forall i {:trigger stack[i]} | 0 <= i < |stack| :: Plain(stack[i])
  }

  /** path_copy_join on a buffer of PATH_MAX bytes: base, a slash unless it ends in one, and extra. */
  function Join(base: string, extra: string): Option<string> {
    var b := if |base| < PATH_MAX then base else base[..PATH_MAX - 1];
    var head := if b == "" || b[|b| - 1] != '/' then b + "/" else b;
    if |head| > PATH_MAX - 1 || |head| + |extra| > PATH_MAX - 1 then None else Some(head + extra)
  }

  /** The path before it is normalized. */
  function Raw(cwd: string, path: string): Option<string> {
    if path != "" && path[0] == '/' then if |path| < PATH_MAX then Some(path) else None
    else Join(if cwd == "" then "/" else cwd, path)
  }

  /** The absolute path that cwd and path lead to, if it fits a buffer of cap bytes. */
  function Normalized(cwd: string, path: string, cap: nat): Option<string> {
    match Raw(cwd, path)
    case None => None
    case Some(raw) =>
      match Resolve(Segments(raw), [])
      case None => None
      case Some(stack) => if |Render(stack)| <= cap - 1 then Some(Render(stack)) else None
  }

  // ---- what normalization gives ----

  lemma {:induction false} SegmentsWellFormed(s: string)
    ensures forall i | 0 <= i < |Segments(s)| ::
      Segments(s)[i] != "" && |Segments(s)[i]| < NAME_MAX && '/' !in Segments(s)[i]
    decreases |s|
  {
    hide *;
    SegmentsAre(s);
    var t := s[Slashes(s)..];
    if t != "" {
      NameAfterSlashes(s);
      SegmentsWellFormed(t[NameLen(t)..]);
      CutWellFormed(t[..NameLen(t)]);
    }
  }

  lemma NameAfterSlashes(s: string)
    requires Slashes(s) < |s|
    ensures
      var t := s[Slashes(s)..];
      t[..NameLen(t)] != "" && '/' !in t[..NameLen(t)] && |t[NameLen(t)..]| < |s| && NAME_MAX == 64
  {
    var t := s[Slashes(s)..];
    assert t[0] != '/';
    NameLenSome(t, s);
    assert forall i | 0 <= i < NameLen(t) :: t[i] != '/';
  }

  lemma CutWellFormed(name: string)
    requires name != "" && '/' !in name
    ensures Cut(name) != "" && |Cut(name)| < NAME_MAX && '/' !in Cut(name)
  {
    assert forall i | 0 <= i < |Cut(name)| :: Cut(name)[i] == name[i] && name[i] in name;
  }

  lemma {:induction false} ResolveKeepsGood(names: seq<string>, stack: seq<string>)
    requires Good(stack) && forall i {:trigger names[i]} | 0 <= i < |names| :: |names[i]| < NAME_MAX && '/' !in names[i]
    ensures Resolve(names, stack).Some? ==> Good(Resolve(names, stack).value)
  {
    if names != [] {
      if names[0] == "" || names[0] == "." {
        ResolveKeepsGood(names[1..], stack);
      } else if names[0] == ".." {
        ResolveKeepsGood(names[1..], if stack == [] then [] else stack[..|stack| - 1]);
      } else if |stack| < MAX_SEGMENTS {
        ResolveKeepsGood(names[1..], stack + [names[0]]);
      }
    }
  }

  lemma SlashesJoin(a: string, b: string)
    ensures Slashes(a + b) == if Slashes(a) < |a| then Slashes(a) else |a| + Slashes(b)
  {
    var n := if Slashes(a) < |a| then Slashes(a) else |a| + Slashes(b);
    assert forall i | 0 <= i < n :: (a + b)[i] == if i < |a| then a[i] else b[i - |a|];
    assert n < |a + b| ==> (a + b)[n] != '/';
    var m := Slashes(a + b);
    assert m >= n && n >= m;
  }

  lemma NameLenJoin(a: string, b: string)
    requires b == "" || b[0] == '/'
    ensures NameLen(a + b) == NameLen(a)
  {
    var n := NameLen(a);
    assert forall i | 0 <= i < n :: (a + b)[i] == a[i];
    assert n < |a + b| ==> (a + b)[n] == if n < |a| then a[n] else b[0];
    var m := NameLen(a + b);
    assert m >= n && n >= m;
  }

  /** Paths put together at a slash have the names of both. */
  lemma {:induction false} SegmentsJoin(a: string, b: string)
    requires b == "" || b[0] == '/'
    ensures Segments(a + b) == Segments(a) + Segments(b)
    decreases |a|
  {
    SegmentsAre(a);
    SegmentsAre(a + b);
    SegmentsAre(b);
    SlashesJoin(a, b);
    hide Segments, Slashes, NameLen;
    var t := a[Slashes(a)..];
    if t == "" {
      assert (a + b)[Slashes(a + b)..] == b[Slashes(b)..];
    } else {
      NameLenJoin(t, b);
      var n := NameLen(t);
      JoinSlices(a, b, Slashes(a));
      JoinSlices(t, b, n);
      NameLenSome(t, a);
      SegmentsJoin(t[n..], b);
      Regroup([Cut(t[..n])], Segments(t[n..]), Segments(b));
    }
  }

  lemma JoinSlices(a: string, b: string, k: nat)
    requires k <= |a|
    ensures (a + b)[k..] == a[k..] + b && (a + b)[..k] == a[..k]
  {}

  lemma SegmentsAre(s: string)
    ensures
      var t := s[Slashes(s)..];
      Segments(s) == if t == "" then [] else [Cut(t[..NameLen(t)])] + Segments(t[NameLen(t)..])
  {}

  lemma NameLenSome(t: string, a: string)
    requires t != "" && t[0] != '/' && |t| <= |a|
    ensures 0 < NameLen(t) && |t[NameLen(t)..]| < |a|
  {}

  lemma SegmentsOfOne(name: string)
    requires Plain(name)
    ensures Segments("/" + name) == [name]
  {
    var s := "/" + name;
    assert s[0] == '/' && s[1..] == name && name[0] != '/';
    assert Slashes(s) == 1 && s[Slashes(s)..] == name;
    assert NameLen(name) == |name| by {
      assert forall i | 0 <= i < |name| :: name[i] != '/';
    }
    assert name[..|name|] == name && name[|name|..] == "";
    assert Segments("") == [];
  }

  lemma {:induction false} SegmentsOfSpelled(stack: seq<string>)
    requires Good(stack)
    ensures Segments(Spelled(stack)) == stack
  {
    hide Segments, Slashes, NameLen, Plain;
    if stack == [] {
      NoSegments("");
    } else {
      var init, last := stack[..|stack| - 1], stack[|stack| - 1];
      SegmentsOfSpelled(init);
      var tail := "/" + last;
      SegmentsJoin(Spelled(init), tail);
      SegmentsOfOne(last);
      assert Spelled(stack) == Spelled(init) + tail;
      assert init + [last] == stack;
    }
  }

  /** A rendered path spells its own names. */
  lemma SegmentsOfRender(stack: seq<string>)
    requires Good(stack)
    ensures Segments(Render(stack)) == stack && Render(stack) != "" && Render(stack)[0] == '/'
  {
    SegmentsOfSpelled(stack);
    StartsWithSlash(stack);
    if stack == [] {
      assert Slashes("/") == 1;
    }
  }

  lemma {:induction false} StartsWithSlash(stack: seq<string>)
    ensures stack != [] ==> Spelled(stack) != "" && Spelled(stack)[0] == '/'
  {
    if |stack| > 1 {
      StartsWithSlash(stack[..|stack| - 1]);
    }
  }

  lemma {:induction false} ResolvePlain(names: seq<string>, stack: seq<string>)
    requires Good(stack + names)
    ensures Resolve(names, stack) == Some(stack + names)
  {
    if names == [] {
      assert stack + names == stack;
    } else {
      assert (stack + names)[|stack|] == names[0];
      assert stack + names == (stack + [names[0]]) + names[1..];
      ResolvePlain(names[1..], stack + [names[0]]);
    }
  }

  /** A normalized path is absolute, has only plain names, and fits the buffer. */
  lemma NormalizedIsPlain(cwd: string, path: string, cap: nat)
    ensures var r := Normalized(cwd, path, cap);
      r.Some? ==>
        |r.value| < cap && r.value[..1] == "/" && Good(Segments(r.value)) && r.value == Render(Segments(r.value))
  {
    var r := Normalized(cwd, path, cap);
    if r.Some? {
      var raw := Raw(cwd, path).value;
      SegmentsWellFormed(raw);
      ResolveKeepsGood(Segments(raw), []);
      SegmentsOfRender(Resolve(Segments(raw), []).value);
    }
  }

  /** Normalizing twice is normalizing once, whatever the directory. */
  lemma NormalizedTwice(cwd: string, path: string, cap: nat, cwd2: string)
    requires cap <= PATH_MAX
    ensures var r := Normalized(cwd, path, cap); r.Some? ==> Normalized(cwd2, r.value, cap) == r
  {
    var r := Normalized(cwd, path, cap);
    if r.Some? {
      var raw := Raw(cwd, path).value;
      var stack := Resolve(Segments(raw), []).value;
      SegmentsWellFormed(raw);
      ResolveKeepsGood(Segments(raw), []);
      SegmentsOfRender(stack);
      assert [] + stack == stack;
      ResolvePlain(stack, []);
      assert Raw(cwd2, r.value) == Some(r.value);
    }
  }

  // ---- where a path starts, and where each name leads ----

  /** The path that a stack of names is written as, if there are at most 32 of them and it fits. */
  function Written(stack: Option<seq<string>>, cap: nat): Option<string> {
    if stack.Some? && |Render(stack.value)| <= cap - 1 then Some(Render(stack.value)) else None
  }

  /** A relative path leads through the names of the working directory and then through its own. */
  lemma FromDirectory(cwd: string, path: string, cap: nat)
    requires (path == "" || path[0] != '/') && |cwd| + 1 + |path| <= 255
    ensures Normalized(cwd, path, cap) == Written(Resolve(Segments(cwd) + Segments(path), []), cap)
  {
    RawJoins(cwd, path);
    RawSegments(cwd, path);
    hide Segments, Resolve, Render, Raw;
  }

  lemma RawJoins(cwd: string, path: string)
    requires (path == "" || path[0] != '/') && |cwd| + 1 + |path| <= 255
    ensures Raw(cwd, path) == Some(if cwd != "" && cwd[|cwd| - 1] == '/' then cwd + path else cwd + "/" + path)
  {
    assert cwd == "" ==> cwd + "/" + path == "/" + path;
  }

  lemma RawSegments(cwd: string, path: string)
    ensures Segments(if cwd != "" && cwd[|cwd| - 1] == '/' then cwd + path else cwd + "/" + path) ==
            Segments(cwd) + Segments(path)
  {
    hide Segments;
    SlashBefore(path);
    if cwd != "" && cwd[|cwd| - 1] == '/' {
      var c := cwd[..|cwd| - 1];
      assert cwd == c + "/" && cwd + path == c + ("/" + path);
      SegmentsJoin(c, "/" + path);
      SegmentsJoin(c, "/");
      SlashBefore("");
      NoSegments("");
      assert "/" + "" == "/" && Segments(c) + [] == Segments(c);
    } else {
      assert cwd + "/" + path == cwd + ("/" + path);
      SegmentsJoin(cwd, "/" + path);
    }
  }

  lemma SlashBefore(path: string)
    ensures Segments("/" + path) == Segments(path)
  {
    SlashFirst("/" + path);
    assert ("/" + path)[1..] == path;
  }

  /** An absolute path leads through its own names only, wherever the process is. */
  lemma FromRoot(cwd: string, path: string, cap: nat)
    requires path != "" && path[0] == '/' && |path| <= 255
    ensures Normalized(cwd, path, cap) == Written(Resolve(Segments(path), []), cap)
    ensures Normalized(cwd, path, cap) == Normalized("/", path, cap)
  {}

  /** What does not fit 255 characters before it is normalized is refused. */
  lemma TooLong(cwd: string, path: string, cap: nat)
    requires |cwd| <= 255
    requires
      if path != "" && path[0] == '/' then |path| > 255
      else |cwd| + (if cwd != "" && cwd[|cwd| - 1] == '/' then 0 else 1) + |path| > 255
    ensures Normalized(cwd, path, cap) == None
  {}

  /** A path without slashes is one name, of which the first 63 characters count. */
  lemma OneSegment(name: string)
    requires name != "" && '/' !in name
    ensures Segments(name) == [if |name| < 64 then name else name[..63]]
  {
    assert Slashes(name) == 0 && name[0..] == name;
    assert NameLen(name) == |name| by {
      assert forall i | 0 <= i < |name| :: name[i] != '/';
    }
    assert name[..|name|] == name && name[|name|..] == "";
    assert Segments("") == [];
  }

  /** From a directory: a plain name goes down by it, unless that makes 33 names; "." stays; ".." goes up, and stays at
      the root. */
  lemma OneStep(stack: seq<string>, name: string, cap: nat)
    requires Good(stack) && name != "" && '/' !in name && |name| < 64 && |Render(stack)| + 1 + |name| <= 255
    ensures
      Normalized(Render(stack), name, cap) ==
      if name == "." then Written(Some(stack), cap)
      else if name == ".." then Written(Some(if stack == [] then [] else stack[..|stack| - 1]), cap)
      else if |stack| == 32 then None
      else Written(Some(stack + [name]), cap)
  {
    FromStack(stack, name, cap);
    OneSegment(name);
    ResolveStep([name], stack);
    ResolveStep([], if name == "." then stack else if name == ".." then if stack == [] then [] else stack[..|stack| - 1]
                    else stack + [name]);
    hide Segments, Normalized, Resolve, Render;
    assert [name][1..] == [];
  }

  /** Names after names are resolved from where the first ones lead. */
  lemma {:induction false} ResolveJoin(names: seq<string>, more: seq<string>, stack: seq<string>)
    ensures
      Resolve(names + more, stack) ==
      match Resolve(names, stack) case None => None case Some(s) => Resolve(more, s)
    decreases |names|
  {
    if names == [] {
      assert names + more == more;
    } else {
      assert (names + more)[0] == names[0] && (names + more)[1..] == names[1..] + more;
      ResolveJoin(names[1..], more, stack);
      ResolveJoin(names[1..], more, if stack == [] then [] else stack[..|stack| - 1]);
      ResolveJoin(names[1..], more, stack + [names[0]]);
    }
  }

  /** Going to a relative path and from there to another is going to the two at once. */
  lemma TwoPaths(cwd: string, first: string, second: string, cap: nat)
    requires first != "" && first[0] != '/' && (second == "" || second[0] != '/')
    requires |cwd| + 1 + |first| + 1 + |second| <= 255 && Normalized(cwd, first, cap).Some?
    requires |Normalized(cwd, first, cap).value| + 1 + |second| <= 255
    ensures Normalized(Normalized(cwd, first, cap).value, second, cap) == Normalized(cwd, first + "/" + second, cap)
  {
    FromDirectory(cwd, first, cap);
    ResolveKeepsGoodFrom(cwd, first);
    var stack := Resolve(Segments(cwd) + Segments(first), []).value;
    FromStack(stack, second, cap);
    BothAtOnce(cwd, first, second, cap);
    hide Segments, Normalized, Resolve, Render, Good;
  }

  lemma FromStack(stack: seq<string>, path: string, cap: nat)
    requires Good(stack) && (path == "" || path[0] != '/') && |Render(stack)| + 1 + |path| <= 255
    ensures Normalized(Render(stack), path, cap) == Written(Resolve(Segments(path), stack), cap)
  {
    FromDirectory(Render(stack), path, cap);
    SegmentsOfRender(stack);
    assert [] + stack == stack;
    ResolvePlain(stack, []);
    ResolveJoin(stack, Segments(path), []);
    hide Segments, Normalized, Resolve, Render, Good;
  }

  lemma BothAtOnce(cwd: string, first: string, second: string, cap: nat)
    requires first != "" && first[0] != '/' && |cwd| + 1 + |first| + 1 + |second| <= 255
    ensures
      Normalized(cwd, first + "/" + second, cap) ==
      match Resolve(Segments(cwd) + Segments(first), [])
      case None => None
      case Some(stack) => Written(Resolve(Segments(second), stack), cap)
  {
    hide *;
    var whole := first + "/" + second;
    assert whole[0] == first[0];
    FromDirectory(cwd, whole, cap);
    WrittenNone(cap);
    Regroup(first, "/", second);
    SegmentsJoin(first, "/" + second);
    SlashBefore(second);
    Regroup(Segments(cwd), Segments(first), Segments(second));
    ResolveJoin(Segments(cwd) + Segments(first), Segments(second), []);
  }

  lemma WrittenNone(cap: nat)
    ensures Written(None, cap) == None
  {}

  lemma Regroup<T>(a: seq<T>, b: seq<T>, c: seq<T>)
    ensures (a + b) + c == a + (b + c)
  {}

  lemma ResolveKeepsGoodFrom(cwd: string, path: string)
    ensures
      var stack := Resolve(Segments(cwd) + Segments(path), []);
      stack.Some? ==> Good(stack.value)
  {
    SegmentsWellFormed(cwd);
    SegmentsWellFormed(path);
    ResolveKeepsGood(Segments(cwd) + Segments(path), []);
  }

  // ---- the code ----

  method CopyJoin(base: string, extra: string) returns (r: Option<string>)
    ensures r == Join(base, extra)
  {
    var out := "";
    var i := 0;
    while i < |base| && |out| < PATH_MAX - 1
      invariant i == |out| <= |base| && i <= PATH_MAX - 1 && out == base[..i]
    {
      out := out + [base[i]];
      i := i + 1;
    }
    assert out == if |base| < PATH_MAX then base else base[..PATH_MAX - 1];
    if out == "" || out[|out| - 1] != '/' {
      if |out| >= PATH_MAX - 1 {
        return None;
      }
      out := out + "/";
    }
    ghost var head := out;
    i := 0;
    while i < |extra| && |out| < PATH_MAX - 1
      invariant i <= |extra| && out == head + extra[..i] && |out| <= PATH_MAX - 1
    {
      assert extra[..i + 1] == extra[..i] + [extra[i]];
      out := out + [extra[i]];
      i := i + 1;
    }
    if i < |extra| {
      return None;
    }
    assert extra[..i] == extra;
    return Some(out);
  }

  /** The inner loops over one name and the slashes after it. */
  method NextName(raw: string, from: nat) returns (name: string, next: nat)
    requires from < |raw| && raw[from] != '/'
    ensures from < next <= |raw| && (next < |raw| ==> raw[next] != '/')
    ensures Segments(raw[from..]) == [name] + Segments(raw[next..])
  {
    hide *;
    var scan := from;
    name := "";
    CutIs(raw[from..from]);
    assert raw[from..from] == "";
    while scan < |raw| && raw[scan] != '/'
      invariant from <= scan <= |raw| && (forall i | from <= i < scan :: raw[i] != '/') && name == Cut(raw[from..scan])
    {
      CutMore(raw, from, scan);
      if |name| < 63 {
        name := name + [raw[scan]];
      }
      scan := scan + 1;
    }
    FirstName(raw, from, scan);
    next := SkipSlashes(raw, scan);
  }

  lemma CutIs(name: string)
    ensures Cut(name) == if |name| < 64 then name else name[..63]
  {}

  lemma CutMore(raw: string, from: nat, scan: nat)
    requires from <= scan < |raw|
    ensures
      var name := Cut(raw[from..scan]);
      Cut(raw[from..scan + 1]) == if |name| < 63 then name + [raw[scan]] else name
  {
    assert raw[from..scan + 1] == raw[from..scan] + [raw[scan]];
  }

  lemma FirstName(raw: string, from: nat, scan: nat)
    requires from < scan <= |raw| &&
      (forall i | from <= i < scan :: raw[i] != '/') && (scan < |raw| ==> raw[scan] == '/')
    ensures Segments(raw[from..]) == [Cut(raw[from..scan])] + Segments(raw[scan..])
  {
    hide *;
    var t, k := raw[from..], scan - from;
    Slices(raw, from, scan);
    NameLenIs(t, k);
    SegmentsAre(t);
  }

  lemma Slices(s: string, from: nat, to: nat)
    requires from <= to <= |s|
    ensures
      var t := s[from..];
      t[0..] == t && t[..to - from] == s[from..to] && t[to - from..] == s[to..] &&
        forall i | 0 <= i < |t| :: t[i] == s[from + i]
  {}

  lemma NameLenIs(t: string, k: nat)
    requires 0 < k <= |t| && (forall i | 0 <= i < k :: t[i] != '/') && (k < |t| ==> t[k] == '/')
    ensures NameLen(t) == k && Slashes(t) == 0
  {
    var n := NameLen(t);
    assert n >= k && k >= n;
  }

  /** The loops that skip slashes. */
  method SkipSlashes(raw: string, from: nat) returns (next: nat)
    requires from <= |raw|
    ensures from <= next <= |raw| && (next < |raw| ==> raw[next] != '/')
    ensures Segments(raw[from..]) == Segments(raw[next..])
  {
    hide *;
    next := from;
    while next < |raw| && raw[next] == '/'
      invariant from <= next <= |raw| && Segments(raw[next..]) == Segments(raw[from..])
    {
      SlashFirst(raw[next..]);
      assert raw[next..][1..] == raw[next + 1..];
      next := next + 1;
    }
  }

  lemma SlashFirst(s: string)
    requires s != "" && s[0] == '/'
    ensures Segments(s) == Segments(s[1..])
  {
    assert s[Slashes(s)..] == s[1..][Slashes(s[1..])..];
  }

  /** normalize_path_for_process. */
  method NormalizePath(cwd: string, path: string, cap: nat) returns (r: Option<string>)
    requires cap > 1
    ensures r == Normalized(cwd, path, cap)
  {
    var raw := RawPath(cwd, path);
    if raw.None? {
      return None;
    }
    var stack := ResolvePath(raw.value);
    if stack.None? {
      return None;
    }
    r := RenderPath(stack.value, cap);
  }

  method RawPath(cwd: string, path: string) returns (raw: Option<string>)
    ensures raw == Raw(cwd, path)
  {
    if path != "" && path[0] == '/' {
      if |path| >= PATH_MAX {
        return None;
      }
      return Some(path);
    }
    raw := CopyJoin(if cwd == "" then "/" else cwd, path);
  }

  lemma ResolveStep(names: seq<string>, stack: seq<string>)
    ensures names == [] ==> Resolve(names, stack) == Some(stack)
    ensures names != [] ==>
      var name, rest := names[0], names[1..];
      Resolve(names, stack) ==
      if name == "" || name == "." then Resolve(rest, stack)
      else if name == ".." then Resolve(rest, if stack == [] then [] else stack[..|stack| - 1])
      else if |stack| >= 32 then None
      else Resolve(rest, stack + [name])
  {}

  /** The outer loop of normalize_path_for_process. */
  method ResolvePath(raw: string) returns (r: Option<seq<string>>)
    ensures r == Resolve(Segments(raw), [])
  {
    hide *;
    assert raw[0..] == raw;
    var scan := SkipSlashes(raw, 0);
    var stack: seq<string> := [];
    while scan < |raw|
      invariant scan <= |raw| && (scan < |raw| ==> raw[scan] != '/')
      invariant Resolve(Segments(raw[scan..]), stack) == Resolve(Segments(raw), [])
    {
      var name, next := NextName(raw, scan);
      ResolveStep(Segments(raw[scan..]), stack);
      assert Segments(raw[scan..])[1..] == Segments(raw[next..]);
      scan := next;
      if name == "" || name == "." {
        continue;
      }
      if name == ".." {
        if stack != [] {
          stack := stack[..|stack| - 1];
        }
        continue;
      }
      if |stack| >= 32 {
        return None;
      }
      stack := stack + [name];
    }
    NoSegments(raw[scan..]);
    ResolveStep([], stack);
    return Some(stack);
  }

  lemma NoSegments(s: string)
    requires s == ""
    ensures Segments(s) == []
  {}

  /** The loops of normalize_path_for_process that write the result. */
  method RenderPath(stack: seq<string>, cap: nat) returns (r: Option<string>)
    requires cap > 1
    ensures r == if |Render(stack)| <= cap - 1 then Some(Render(stack)) else None
  {
    var out := "/";
    if stack == [] {
      return Some(out);
    }
    hide *;
    SpelledStep(stack, 0);
    for i := 0 to |stack|
      invariant |out| <= cap - 1 && out == if i == 0 then "/" else Spelled(stack[..i])
    {
      SpelledStep(stack, i);
      SpelledGrows(stack, i + 1);
      RenderIs(stack);
      if i > 0 {
        if |out| >= cap - 1 {
          return None;
        }
        out := out + "/";
      }
      var longer := AppendName(out, stack[i], cap);
      if longer.None? {
        return None;
      }
      assert longer.value == Spelled(stack[..i + 1]);
      out := longer.value;
    }
    assert stack[..|stack|] == stack;
    RenderIs(stack);
    return Some(out);
  }

  lemma RenderIs(stack: seq<string>)
    requires stack != []
    ensures Render(stack) == Spelled(stack)
  {}

  method AppendName(out: string, name: string, cap: nat) returns (r: Option<string>)
    requires |out| <= cap - 1
    ensures r == if |out| + |name| <= cap - 1 then Some(out + name) else None
  {
    var longer := out;
    for j := 0 to |name|
      invariant |longer| <= cap - 1 && longer == out + name[..j]
    {
      if |longer| >= cap - 1 {
        return None;
      }
      assert name[..j + 1] == name[..j] + [name[j]];
      longer := longer + [name[j]];
    }
    assert name[..|name|] == name;
    return Some(longer);
  }

  lemma SpelledStep(stack: seq<string>, i: nat)
    requires i < |stack|
    ensures Spelled(stack[..i + 1]) == Spelled(stack[..i]) + "/" + stack[i]
    ensures i == 0 ==> Spelled(stack[..i]) == ""
  {
    assert stack[..i + 1][..i] == stack[..i];
  }

  lemma {:induction false} SpelledGrows(stack: seq<string>, i: nat)
    requires i <= |stack|
    ensures |Spelled(stack[..i])| <= |Spelled(stack)|
    decreases |stack| - i
  {
    if i < |stack| {
      SpelledStep(stack, i);
      SpelledGrows(stack, i + 1);
    } else {
      assert stack[..i] == stack;
    }
  }
}
