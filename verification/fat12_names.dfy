/** Short file names (fs/fat12.c:105-150): the 11 padded upper-case bytes of a directory entry and the
    dotted string that stands for them. */
module Fat12Names {
  import opened Basics

  const SPACE: Byte := 0x20
  const DOT: Byte := 0x2E

  /** The characters of a C string, without the terminating zero. */
  predicate IsString(s: seq<Byte>) {
    0 !in s
  }

  function Upper(c: Byte): Byte {
    if 0x61 <= c <= 0x7A then c - 32 else c
  }

  function UpperAll(s: seq<Byte>): (r: seq<Byte>)
    ensures |r| == |s|
  {
    seq(|s|, i requires 0 <= i < |s| => Upper(s[i]))
  }

  /** How much of s, at most n, comes before the first stop byte. */
  function UpTo(s: seq<Byte>, stop: Byte, n: nat): (k: nat)
    ensures k <= n && k <= |s| && stop !in s[..k]
    ensures k == n || k == |s| || s[k] == stop
  {
    if n == 0 || s == [] || s[0] == stop then 0 else 1 + UpTo(s[1..], stop, n - 1)
  }

  function Padded(s: seq<Byte>, n: nat): (r: seq<Byte>)
    requires |s| <= n
    ensures |r| == n
  {
    s + seq(n - |s|, _ => SPACE)
  }

  function BaseLen(name: seq<Byte>): nat { UpTo(name, DOT, 8) }

  /** What follows the dot, if the base ends at one. */
  function Extension(name: seq<Byte>): seq<Byte> {
    var i := BaseLen(name);
    if i < |name| && name[i] == DOT then name[i + 1..i + 1 + Min(3, |name| - i - 1)] else []
  }

  /** The 11 bytes for a name: over-long parts are cut, and a base of more than eight characters loses
      the extension as well. */
  function Fat83(name: seq<Byte>): (raw: seq<Byte>)
    ensures |raw| == 11
  {
    Padded(UpperAll(name[..BaseLen(name)]), 8) + Padded(UpperAll(Extension(name)), 3)
  }

  /** The string for 11 raw bytes. */
  function ToString(raw: seq<Byte>): seq<Byte>
    requires |raw| == 11
  {
    raw[..UpTo(raw, SPACE, 8)] + if raw[8] == SPACE then [] else [DOT] + raw[8..8 + UpTo(raw[8..], SPACE, 3)]
  }

  /** Spaces only as padding, nothing in lower case, no dot in the base. */
  predicate Proper(raw: seq<Byte>)
    requires |raw| == 11
  {
    raw == UpperAll(raw) && DOT !in raw[..8] &&
    raw[..8] == Padded(raw[..UpTo(raw, SPACE, 8)], 8) &&
    raw[8..] == Padded(raw[8..8 + UpTo(raw[8..], SPACE, 3)], 3)
  }

  lemma UpToIs(s: seq<Byte>, stop: Byte, n: nat, k: nat)
    requires k <= n && k <= |s| && (forall p | 0 <= p < k :: s[p] != stop) && (k == n || k == |s| || s[k] == stop)
    ensures UpTo(s, stop, n) == k
  {
    var j := UpTo(s, stop, n);
    assert j >= k && k >= j;
  }

  /** Reading raw bytes as a string and encoding that string again gives the same bytes exactly for
      the proper ones. */
  lemma RawRoundTrip(raw: seq<Byte>)
    requires |raw| == 11
    ensures Fat83(ToString(raw)) == raw <==> Proper(raw)
  {
    var b, x := UpTo(raw, SPACE, 8), UpTo(raw[8..], SPACE, 3);
    var base, ext := raw[..b], raw[8..8 + x];
    var name := ToString(raw);
    if DOT !in base {
      assert name[..b] == base;
      UpToIs(name, DOT, 8, b);
      assert Extension(name) == ext;
      assert Fat83(name) == Padded(UpperAll(base), 8) + Padded(UpperAll(ext), 3);
      SameParts(raw, base, ext);
    } else {
      var d :| 0 <= d < b && base[d] == DOT;
      var k := BaseLen(name);
      assert name[d] == DOT;
      assert k <= d;
      assert Fat83(name)[..8] == Padded(UpperAll(name[..k]), 8);
      forall i | 0 <= i < 8 ensures Fat83(name)[i] != DOT {
        assert i < k ==> name[..k][i] == name[i] && name[i] != DOT;
      }
      assert raw[..8][d] == DOT && Fat83(name)[d] != DOT;
    }
  }

  lemma SameParts(raw: seq<Byte>, base: seq<Byte>, ext: seq<Byte>)
    requires |raw| == 11 && |base| <= 8 && |ext| <= 3 && raw[..|base|] == base && raw[8..8 + |ext|] == ext
    requires |base| == UpTo(raw, SPACE, 8) && |ext| == UpTo(raw[8..], SPACE, 3) && DOT !in base
    ensures Padded(UpperAll(base), 8) + Padded(UpperAll(ext), 3) == raw <==> Proper(raw)
  {
    var r := Padded(UpperAll(base), 8) + Padded(UpperAll(ext), 3);
    if r == raw {
      PartsProper(raw, base, ext);
    }
    if Proper(raw) {
      UpperPart(raw, base, 0);
      UpperPart(raw, ext, 8);
      assert raw == raw[..8] + raw[8..];
    }
  }

  lemma UpperPart(raw: seq<Byte>, part: seq<Byte>, at: nat)
    requires raw == UpperAll(raw) && at + |part| <= |raw| && raw[at..at + |part|] == part
    ensures UpperAll(part) == part
  {
    forall i | 0 <= i < |part| ensures UpperAll(part)[i] == part[i] {
      assert raw[at + i] == raw[at..at + |part|][i] && UpperAll(raw)[at + i] == raw[at + i];
    }
  }

  lemma PartsProper(raw: seq<Byte>, base: seq<Byte>, ext: seq<Byte>)
    requires |raw| == 11 && |base| <= 8 && |ext| <= 3 && raw[..|base|] == base && raw[8..8 + |ext|] == ext
    requires |base| == UpTo(raw, SPACE, 8) && |ext| == UpTo(raw[8..], SPACE, 3) && DOT !in base
    requires Padded(UpperAll(base), 8) + Padded(UpperAll(ext), 3) == raw
    ensures Proper(raw)
  {
    var r := Padded(UpperAll(base), 8) + Padded(UpperAll(ext), 3);
    assert raw[..8] == Padded(UpperAll(base), 8) && raw[8..] == Padded(UpperAll(ext), 3);
    assert UpperAll(base) == base by {
      assert forall i | 0 <= i < |base| :: raw[..8][i] == UpperAll(base)[i] && raw[..|base|][i] == raw[i];
    }
    assert UpperAll(ext) == ext by {
      assert forall i | 0 <= i < |ext| :: raw[8..][i] == UpperAll(ext)[i] && raw[8..8 + |ext|][i] == raw[8 + i];
    }
    assert DOT !in raw[..8] by {
      assert forall i | 0 <= i < 8 :: raw[..8][i] == if i < |base| then base[i] else SPACE;
    }
    assert forall i | 0 <= i < 11 :: raw[i] == Upper(raw[i]) by {
      assert forall i | 0 <= i < 8 :: raw[i] == raw[..8][i] == if i < |base| then Upper(base[i]) else SPACE;
      assert forall i | 0 <= i < 3 :: raw[8 + i] == raw[8..][i] == if i < |ext| then Upper(ext[i]) else SPACE;
    }
  }

  /** b is c, or its capital. */
  predicate IsCapital(b: Byte, c: Byte) {
    if 0x61 <= c <= 0x7A then b + 0x20 == c else b == c
  }

  /** Eight bytes for a base and three for an extension, cut or padded with spaces. */
  predicate Encodes(raw: seq<Byte>, base: seq<Byte>, ext: seq<Byte>) {
    |raw| == 11 && (forall i | 0 <= i < 8 :: if i < |base| then IsCapital(raw[i], base[i]) else raw[i] == 0x20) &&
    forall i {:trigger ext[i]} | 0 <= i < 3 :: if i < |ext| then IsCapital(raw[8 + i], ext[i]) else raw[8 + i] == 0x20
  }

  /** A dotted name, byte by byte. */
  lemma DottedName(base: seq<Byte>, ext: seq<Byte>)
    requires |base| <= 8 && 0x2E !in base
    ensures Encodes(Fat83(base + [0x2E] + ext), base, ext)
  {
    var name := base + [0x2E] + ext;
    UpToIs(name, DOT, 8, |base|);
    assert name[..|base|] == base;
    var e := Extension(name);
    assert e == ext[..Min(3, |ext|)];
    EncodesParts(Fat83(name), base, e);
  }

  /** A name without a dot where the base may end: its first eight bytes. */
  lemma BareName(name: seq<Byte>)
    requires forall i | 0 <= i < |name| && i <= 8 :: name[i] != 0x2E
    ensures Encodes(Fat83(name), name, [])
  {
    UpToIs(name, DOT, 8, Min(8, |name|));
    assert Extension(name) == [];
    EncodesParts(Fat83(name), name[..Min(8, |name|)], []);
  }

  lemma EncodesParts(raw: seq<Byte>, base: seq<Byte>, ext: seq<Byte>)
    requires |base| <= 8 && |ext| <= 3 && raw == Padded(UpperAll(base), 8) + Padded(UpperAll(ext), 3)
    ensures Encodes(raw, base, ext)
  {
    forall i | 0 <= i < 3 ensures raw[8 + i] == Padded(UpperAll(ext), 3)[i] {}
  }

  /** The first byte of an encoded name is zero for no string: a name never looks like the end mark. */
  lemma FirstByte(name: seq<Byte>)
    requires IsString(name) && name != []
    ensures Fat83(name)[0] != 0
    ensures Fat83(name)[0] == 0xE5 <==> name[0] == 0xE5
  {}

  /** str_to_fat83, into 11 bytes of out. */
  method StrToFat83(name: seq<Byte>, out: array<Byte>, at: nat)
    requires IsString(name) && at + 11 <= out.Length
    modifies out
    ensures out[..] == old(out[..at]) + Fat83(name) + old(out[at + 11..])
  {
    ghost var was := out[..];
    for i := 0 to 11
      invariant Blanked(was, out[..], at, i)
    {
      out[at + i] := SPACE;
    }
    BlankIsNamed(was, out[..], at, name);
    hide *;
    var i, j := 0, 0;
    while i < |name| && name[i] != DOT && j < 8
      invariant i == j <= 8 && i <= |name| && (forall p | 0 <= p < i :: name[p] != DOT)
      invariant Named(was, out[..], at, name, i, 0, 0)
    {
      var c := name[i];
      NamedBase(was, out[..], at, name, i);
      i := i + 1;
      out[at + j] := if 0x61 <= c <= 0x7A then c - 32 else c;
      j := j + 1;
    }
    BaseIs(name, i);
    ghost var base := i;
    if i < |name| && name[i] == DOT {
      i := i + 1;
      j := 8;
      NamedBare(was, out[..], at, name, base, i);
      while i < |name| && j < 11
        invariant base + 1 <= i <= |name| && 8 <= j <= 11 && i - (base + 1) == j - 8
        invariant Named(was, out[..], at, name, base, base + 1, i)
      {
        var c := name[i];
        NamedExt(was, out[..], at, name, base, base + 1, i);
        i := i + 1;
        out[at + j] := if 0x61 <= c <= 0x7A then c - 32 else c;
        j := j + 1;
      }
      ExtensionIs(name, base, i);
      NamedIsFat83(was, out[..], at, name, base, base + 1, i);
    } else {
      ExtensionIs(name, base, 0);
      NamedIsFat83(was, out[..], at, name, base, 0, 0);
    }
  }

  lemma BaseIs(name: seq<Byte>, k: nat)
    requires k <= 8 && k <= |name| &&
      (forall p | 0 <= p < k :: name[p] != DOT) && (k == 8 || k == |name| || name[k] == DOT)
    ensures BaseLen(name) == k && DOT == 0x2E
  {
    UpToIs(name, DOT, 8, k);
  }

  lemma BlankIsNamed(was: seq<Byte>, now: seq<Byte>, at: nat, name: seq<Byte>)
    requires Blanked(was, now, at, 11)
    ensures Named(was, now, at, name, 0, 0, 0)
  {}

  lemma NamedBase(was: seq<Byte>, now: seq<Byte>, at: nat, name: seq<Byte>, i: nat)
    requires Named(was, now, at, name, i, 0, 0) && i < |name| && i < 8
    ensures at + i < |now| && Upper(name[i]) == if 0x61 <= name[i] <= 0x7A then name[i] - 32 else name[i]
    ensures Named(was, now[at + i := Upper(name[i])], at, name, i + 1, 0, 0)
  {}

  lemma NamedBare(was: seq<Byte>, now: seq<Byte>, at: nat, name: seq<Byte>, b: nat, x: nat)
    requires Named(was, now, at, name, b, 0, 0) && x <= |name|
    ensures Named(was, now, at, name, b, x, x)
  {}

  lemma NamedExt(was: seq<Byte>, now: seq<Byte>, at: nat, name: seq<Byte>, b: nat, x: nat, y: nat)
    requires Named(was, now, at, name, b, x, y) && y < |name| && y - x < 3
    ensures at + 8 + y - x < |now| && Upper(name[y]) == if 0x61 <= name[y] <= 0x7A then name[y] - 32 else name[y]
    ensures Named(was, now[at + 8 + y - x := Upper(name[y])], at, name, b, x, y + 1)
  {}

  /** Where the loops of str_to_fat83 stop is where the extension is. */
  lemma ExtensionIs(name: seq<Byte>, base: nat, y: nat)
    requires base == BaseLen(name) && y <= |name|
    ensures base < |name| && name[base] == 0x2E &&
            base + 1 <= y && (y == |name| || y - base - 1 == 3) && y - base - 1 <= 3 ==>
      name[base + 1..y] == Extension(name)
    ensures !(base < |name| && name[base] == 0x2E) ==> name[0..0] == Extension(name)
  {}

  /** The first n bytes at at are spaces, and nothing else changed. */
  ghost predicate Blanked(was: seq<Byte>, now: seq<Byte>, at: nat, n: nat) {
    |now| == |was| && at + n <= |was| &&
    forall p | 0 <= p < |was| :: now[p] == if at <= p < at + n then SPACE else was[p]
  }

  /** The base name[..b] and the extension name[x..y] stand in their places. */
  ghost predicate Named(was: seq<Byte>, now: seq<Byte>, at: nat, name: seq<Byte>, b: nat, x: nat, y: nat) {
    |now| == |was| && at + 11 <= |was| && b <= |name| && b <= 8 && x <= y <= |name| && y - x <= 3 &&
    forall p | 0 <= p < |was| ::
      now[p] ==
      if at <= p < at + b then Upper(name[p - at])
      else if at + 8 <= p < at + 8 + y - x then Upper(name[x + p - at - 8])
      else if at <= p < at + 11 then SPACE else was[p]
  }

  lemma NamedIsFat83(was: seq<Byte>, now: seq<Byte>, at: nat, name: seq<Byte>, b: nat, x: nat, y: nat)
    requires Named(was, now, at, name, b, x, y) && b == BaseLen(name) && name[x..y] == Extension(name)
    ensures now == was[..at] + Fat83(name) + was[at + 11..]
  {}

  /** fat83_match. */
  method Matches(raw: array<Byte>, at: nat, name: seq<Byte>) returns (same: bool)
    requires IsString(name) && at + 11 <= raw.Length
    ensures same <==> raw[at..at + 11] == Fat83(name)
  {
    var ref := new Byte[11];
    StrToFat83(name, ref, 0);
    assert ref[..] == Fat83(name);
    for i := 0 to 11
      invariant raw[at..at + i] == Fat83(name)[..i]
    {
      if raw[at + i] != ref[i] {
        assert raw[at..at + 11][i] != Fat83(name)[i];
        return false;
      }
    }
    return true;
  }
}
