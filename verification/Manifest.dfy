/** The sender's files: the directory tree, relative paths, and the manifest made from a scan. */
module Manifest {
  import opened BitStrings
  import opened Wire
  import opened Paths
  import opened Transfers

  /** An unchanging tree without symbolic links. locked files exist but cannot be opened. */
  datatype Tree = Tree(files: map<Loc, seq<byte>>, dirs: set<Loc>, locked: set<Loc>, cwd: Loc)

  predicate WellFormed(t: Tree) {
    t.files.Keys !! t.dirs &&
    (forall f :: f in t.files ==> |t.files[f]| < 0x8000_0000_0000_0000) &&
    (forall f, k :: f in t.files && 0 <= k < |f| ==> f[..k] in t.dirs) &&
    (forall f :: f in t.files ==> Plain(f))
  }

  function At(t: Tree, p: Text): Loc {
    Locate(t.cwd, p)
  }

  predicate IsRegular(t: Tree, p: Text) {
    NamesFile(p) && At(t, p) in t.files
  }

  predicate IsDirectory(t: Tree, p: Text) {
    p != [] && At(t, p) in t.dirs
  }

  predicate Exists(t: Tree, p: Text) {
    IsRegular(t, p) || IsDirectory(t, p)
  }

  // ---- relative paths ----

  function CommonPrefix(a: Loc, b: Loc): (n: nat)
    ensures n <= |a| && n <= |b| && a[..n] == b[..n]
  {
    if a == [] || b == [] || a[0] != b[0] then 0
    else
      var n := CommonPrefix(a[1..], b[1..]);
      assert a[..n + 1] == [a[0]] + a[1..][..n] && b[..n + 1] == [b[0]] + b[1..][..n];
      n + 1
  }

  function Ups(n: nat): seq<Text> {
    seq(n, i => DOTDOT)
  }

  /** relative(): from base up to the common ancestor and down to path. */
  function Relative(path: Loc, base: Loc): Text {
    var n := CommonPrefix(path, base);
    if path == base then DOT else PathOf(Ups(|base| - n) + path[n..])
  }

  function FileName(p: Text): Text {
    Split(p)[|Split(p)| - 1]
  }

  /** parent_path(): everything before the last run of slashes; the root is its own parent. */
  function ParentText(p: Text): Text {
    if SLASH !in p then [] else TrimSlashes(BeforeLastSlash(p))
  }

  function BeforeLastSlash(p: Text): Text
    requires SLASH in p
    decreases |p|
  {
    if p[|p| - 1] == SLASH then p[..|p| - 1] else BeforeLastSlash(p[..|p| - 1])
  }

  function TrimSlashes(p: Text): Text
    decreases |p|
  {
    if p == [] then [SLASH]
    else if p[|p| - 1] == SLASH then TrimSlashes(p[..|p| - 1])
    else p
  }

  function DropDotSlash(s: Text): (r: Text)
    ensures |r| < 2 || r[0] != 0x2E || r[1] != 0x2F
    decreases |s|
  {
    if |s| >= 2 && s[0] == DOT[0] && s[1] == SLASH then DropDotSlash(s[2..]) else s
  }

  /** The path sent for a file: relative to the prefix if that exists, else the bare name. */
  function RelPath(t: Tree, path: Text, prefix: Text): Text {
    var rel := if prefix != [] && Exists(t, prefix) then Relative(At(t, path), At(t, prefix)) else [];
    DropDotSlash(if rel == [] then FileName(path) else rel)
  }

  method MakeRelPath(t: Tree, path: Text, prefix: Text) returns (s: Text)
    ensures s == RelPath(t, path, prefix)
    ensures |s| < 2 || s[0] != 0x2E || s[1] != 0x2F
  {
    var rel: Text := [];
    if prefix != [] && Exists(t, prefix) {
      rel := Relative(At(t, path), At(t, prefix));
    }
    if rel == [] {
      rel := FileName(path);
    }
    s := rel;
    while |s| >= 2 && s[0] == DOT[0] && s[1] == SLASH
      invariant DropDotSlash(s) == DropDotSlash(rel)
      decreases |s|
    {
      s := s[2..];
    }
  }

  // ---- finding a manifest entry on disk ----

  function FirstCandidate(t: Tree, paths: seq<Text>, e: FileEntry): Option<Text>
    decreases |paths|
  {
    if paths == [] then None
    else
      var candidate := Join(ParentText(paths[0]), e.relPath);
      if IsRegular(t, candidate) && |t.files[At(t, candidate)]| == e.size then Some(candidate)
      else FirstCandidate(t, paths[1..], e)
  }

  function Resolve(t: Tree, paths: seq<Text>, e: FileEntry): Option<Text> {
    if |paths| == 1 && IsDirectory(t, paths[0]) then Some(Join(paths[0], e.relPath))
    else if |paths| == 1 && IsRegular(t, paths[0]) then Some(paths[0])
    else FirstCandidate(t, paths, e)
  }

  method ResolveOnDisk(t: Tree, paths: seq<Text>, e: FileEntry, ec0: Errc) returns (found: Option<Text>, ec: Errc)
    ensures found == Resolve(t, paths, e)
    ensures ec == if found.None? then NoSuchFile else ec0
  {
    ec := ec0;
    if |paths| == 1 {
      var base := paths[0];
      if IsDirectory(t, base) {
        return Some(Join(base, e.relPath)), ec;
      }
      if IsRegular(t, base) {
        return Some(base), ec;
      }
    }
    for i := 0 to |paths|
      invariant FirstCandidate(t, paths[i..], e) == FirstCandidate(t, paths, e)
    {
      var candidate := Join(ParentText(paths[i]), e.relPath);
      if IsRegular(t, candidate) && |t.files[At(t, candidate)]| == e.size {
        return Some(candidate), ec;
      }
      assert paths[i..][1..] == paths[i + 1..];
    }
    return None, NoSuchFile;
  }

  /** With several sources, a path is returned only for a regular file of the declared size. */
  lemma {:induction false} CandidateHasSize(t: Tree, paths: seq<Text>, e: FileEntry)
    requires FirstCandidate(t, paths, e).Some?
    ensures var p := FirstCandidate(t, paths, e).value; IsRegular(t, p) && |t.files[At(t, p)]| == e.size
    decreases |paths|
  {
    var candidate := Join(ParentText(paths[0]), e.relPath);
    if !(IsRegular(t, candidate) && |t.files[At(t, candidate)]| == e.size) {
      CandidateHasSize(t, paths[1..], e);
    }
  }

  // ---- round trip of a walked file ----

  lemma {:induction false} CommonPrefixOfExtension(base: Loc, names: Loc)
    ensures CommonPrefix(base + names, base) == |base|
    decreases |base|
  {
    if base == [] {
    } else {
      assert (base + names)[1..] == base[1..] + names;
      CommonPrefixOfExtension(base[1..], names);
    }
  }

  lemma PathStarts(names: Loc)
    requires names != [] && names[0] != [] && names[0] != DOT && SLASH !in names[0]
    ensures DropDotSlash(PathOf(names)) == PathOf(names)
  {
    var first := names[0];
    var p := PathOf(names);
    assert first <= p;
    if |first| == 1 {
      assert first[0] == DOT[0] ==> first == DOT;
    } else {
      assert p[1] == first[1] && first[1] in first;
    }
  }

  lemma RelativeOfExtension(base: Loc, names: Loc)
    requires names != []
    ensures Relative(base + names, base) == PathOf(names)
  {
    hide PathOf;
    CommonPrefixOfExtension(base, names);
    assert (base + names)[|base|..] == names && Ups(0) + names == names;
  }

  /** For a file below a single source directory, the manifest path lists its names, and resolving that path
      finds the file again. */
  lemma WalkedFileRoundTrip(t: Tree, dir: Text, names: Loc, e: FileEntry)
    requires IsDirectory(t, dir) && Plain(names) && names != []
    ensures RelPath(t, Join(dir, PathOf(names)), dir) == PathOf(names)
    ensures At(t, Join(dir, PathOf(names))) == At(t, dir) + names
    ensures e.relPath == PathOf(names) ==> Resolve(t, [dir], e) == Some(Join(dir, PathOf(names)))
  {
    hide Join, PathOf, Locate, Walk, Relative, DropDotSlash;
    PathOfNames(names);
    JoinedPlace(t.cwd, dir, names);
    RelativeOfExtension(At(t, dir), names);
    PathStarts(names);
  }
}
