/** The mount table of the VFS (fs/vfs.c:299-387): which mount a path lies in, and where in it. */
module Mounts {
  import opened Options
  import opened Paths

  datatype Mount = Mount(used: bool, path: string)

  /** The mount's path is the whole path or ends at one of its slashes. */
  predicate Covers(mount: string, path: string) {
    mount == "/" ||
    (|mount| <= |path| && path[..|mount|] == mount && (|mount| == |path| || path[|mount|] == '/'))
  }

  predicate Candidate(mounts: seq<Mount>, i: nat, path: string) {
    i < |mounts| && mounts[i].used && Covers(mounts[i].path, path)
  }

  /** How many characters two strings share from the start. */
  method CommonLength(path: string, mount: string) returns (j: nat)
    ensures j <= |mount| && j <= |path| && path[..j] == mount[..j]
    ensures j < |mount| && j < |path| ==> path[j] != mount[j]
  {
    j := 0;
    while j < |mount| && j < |path| && path[j] == mount[j]
      invariant j <= |mount| && j <= |path| && path[..j] == mount[..j]
    {
      assert path[..j + 1] == path[..j] + [path[j]] && mount[..j + 1] == mount[..j] + [mount[j]];
      j := j + 1;
    }
  }

  lemma NotCovered(mount: string, path: string, j: nat)
    requires mount != "/" && j < |mount| && j <= |path| && (j < |path| ==> path[j] != mount[j])
    ensures !Covers(mount, path)
  {
    if |mount| <= |path| {
      assert path[..|mount|][j] == path[j];
    }
  }

  /** mount_lookup: the longest mount that covers the path, the first of them if there are several. */
  method Lookup(mounts: seq<Mount>, path: string) returns (best: int)
    ensures -1 <= best < |mounts|
    ensures best == -1 <==> forall i: nat :: !Candidate(mounts, i, path)
    ensures best >= 0 ==> Candidate(mounts, best, path)
    ensures forall i: nat | Candidate(mounts, i, path) ::
      |mounts[i].path| <= |mounts[best].path| && (i < best ==> |mounts[i].path| < |mounts[best].path|)
  {
    best := -1;
    var bestLen := -1;
    for i := 0 to |mounts|
      invariant -1 <= best < i && bestLen == if best >= 0 then |mounts[best].path| else -1
      invariant best >= 0 ==> Candidate(mounts, best, path)
      invariant forall k: nat | k < i && Candidate(mounts, k, path) ::
        |mounts[k].path| <= bestLen && (k < best ==> |mounts[k].path| < bestLen)
    {
      var m := mounts[i];
      if !m.used {
        continue;
      }
      if m.path == "/" {
        if bestLen < 1 {
          best, bestLen := i, 1;
        }
        continue;
      }
      var j := CommonLength(path, m.path);
      if j != |m.path| {
        NotCovered(m.path, path, j);
        continue;
      }
      if j < |path| && path[j] != '/' {
        continue;
      }
      if |m.path| > bestLen {
        best, bestLen := i, |m.path|;
      }
    }
  }

  /** Where in its mount a covered path lies. */
  function Subpath(mount: string, path: string): string
    requires Covers(mount, path)
  {
    if mount == "/" then path else if |mount| == |path| then "/" else path[|mount|..]
  }

  /** mount_subpath, into a buffer of cap bytes. */
  method SubpathInto(mount: string, path: string, cap: nat) returns (r: Option<string>)
    requires Covers(mount, path)
    ensures r == if cap > 1 && |Subpath(mount, path)| < cap then Some(Subpath(mount, path)) else None
  {
    if cap <= 1 {
      return None;
    }
    var sub := path;
    if mount != "/" {
      sub := path[|mount|..];
      if sub == "" {
        sub := "/";
      }
    }
    return if |sub| < cap then Some(sub) else None;
  }

  /** The mount's path followed by the path inside it gives the path back: exactly, when something follows the mount;
      and its names always. */
  lemma SubpathRebuilds(mount: string, path: string)
    requires Covers(mount, path) && (path == "" || path[0] == '/')
    ensures Segments(mount) + Segments(Subpath(mount, path)) == Segments(path)
    ensures mount != "/" && |path| > |mount| ==> mount + Subpath(mount, path) == path
    ensures mount == "/" ==> Subpath(mount, path) == path
    ensures |path| == |mount| ==> Subpath(mount, path) == "/" || path == ""
  {
    assert Segments("/") == [] by {
      assert Slashes("/") == 1;
    }
    if mount != "/" {
      assert path == mount + path[|mount|..];
      SegmentsJoin(mount, path[|mount|..]);
      if |mount| == |path| {
        assert Segments("") == [];
      }
    } else if |path| == 1 {
      assert path == "/";
    }
  }

  /** For normalized paths, a mount covers exactly the paths whose names begin with the mount's names: a name is never
      matched in part. */
  lemma CoversByNames(mount: seq<string>, names: seq<string>)
    requires Good(mount) && Good(names)
    ensures Covers(Render(mount), Render(names)) <==> mount <= names
  {
    SegmentsOfRender(mount);
    SegmentsOfRender(names);
    if Covers(Render(mount), Render(names)) {
      SubpathRebuilds(Render(mount), Render(names));
      assert mount <= mount + Segments(Subpath(Render(mount), Render(names)));
    }
    if mount <= names && mount != [] {
      var rest := names[|mount|..];
      assert names == mount + rest;
      SpelledJoin(mount, rest);
      StartsWithSlash(rest);
      StartsWithSlash(mount);
    } else if mount == [] {
      assert Render(mount) == "/";
    }
  }

  lemma {:induction false} SpelledJoin(a: seq<string>, b: seq<string>)
    ensures Spelled(a + b) == Spelled(a) + Spelled(b)
    decreases |b|
  {
    if b == [] {
      assert a + b == a;
    } else {
      var init := b[..|b| - 1];
      assert (a + b)[..|a + b| - 1] == a + init;
      SpelledJoin(a, init);
    }
  }
}
