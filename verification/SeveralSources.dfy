/** Sending several sources: which file on disk is found for a manifest entry. */
module SeveralSources {
  import opened BitStrings
  import opened Wire
  import opened Paths
  import opened Manifest
  import opened Collect
  import opened Sending

  // ---- a path is its parent joined with its name ----

  lemma {:induction false} LastSlash(p: Text) returns (q: Text, f: Text)
    requires SLASH in p
    ensures p == q + [SLASH] + f && SLASH !in f && BeforeLastSlash(p) == q
    decreases |p|
  {
    var last := |p| - 1;
    if p[last] == SLASH {
      q, f := p[..last], [];
    } else {
      var q0, f0 := LastSlash(p[..last]);
      q, f := q0, f0 + [p[last]];
      assert p == p[..last] + [p[last]];
    }
  }

  lemma {:induction false} Trimmed(q: Text)
    ensures var r := TrimSlashes(q);
            r != [] && Names(r) == Names(q) && (Absolute(r) <==> q == [] || Absolute(q))
    decreases |q|
  {
    NamesOfName([]);
    if q == [] {
      NamesAtSlash([], []);
      assert [] + [SLASH] + [] == [SLASH];
    } else if q[|q| - 1] == SLASH {
      hide Names;
      var q' := q[..|q| - 1];
      Trimmed(q');
      NamesAtSlash(q', []);
      assert q == q' + [SLASH] + [];
    }
  }

  /** p splits into the path of a directory and a name. */
  predicate Splits(p: Text, q: Text, f: Text) {
    p == q + [SLASH] + f && SLASH !in f && f != [] && FileName(p) == f &&
    ParentText(p) != [] && Names(ParentText(p)) == Names(q) && (Absolute(ParentText(p)) <==> Absolute(p)) &&
    Names(p) == Names(q) + [f]
  }

  lemma ParentAndName(p: Text) returns (q: Text, f: Text)
    requires SLASH in p && p[|p| - 1] != SLASH
    ensures Splits(p, q, f)
  {
    q, f := LastSlash(p);
    assert p[|p| - 1] == if f == [] then SLASH else f[|f| - 1];
    Trimmed(q);
    SplitAtSlash(q, f);
    NamesOfName(f);
    NamesAtSlash(q, f);
    hide Names, TrimSlashes, BeforeLastSlash;
  }

  lemma SingleName(p: Text)
    requires SLASH !in p && p != []
    ensures FileName(p) == p && ParentText(p) == [] && Names(p) == [p] && !Absolute(p)
  {
    NamesOfName(p);
  }

  lemma NameIsRelative(f: Text)
    requires SLASH !in f
    ensures !Absolute(f)
  {
  }

  /** The candidate that ResolveOnDisk builds from a source file's own path is that file. */
  lemma OwnCandidate(t: Tree, p: Text)
    requires p != [] && p[|p| - 1] != SLASH
    ensures Join(ParentText(p), FileName(p)) != [] && At(t, Join(ParentText(p), FileName(p))) == At(t, p)
    ensures IsRegular(t, Join(ParentText(p), FileName(p))) <==> IsRegular(t, p)
  {
    hide Names, Components, Walk, ParentText, FileName;
    if SLASH in p {
      var q, f := ParentAndName(p);
      var r := ParentText(p);
      NamesOfName(f);
      NameIsRelative(f);
      JoinNames(r, f);
      WalkNames(t.cwd, Join(r, f));
      WalkNames(t.cwd, p);
      assert Join(r, f)[|Join(r, f)| - 1] == f[|f| - 1];
    } else {
      SingleName(p);
      assert [] + p == p;
    }
  }

  /** Without a strip prefix, the manifest path of a regular-file source is its name. */
  lemma FileSourceName(t: Tree, p: Text)
    requires WellFormed(t) && IsRegular(t, p) && FileName(p) != DOT && FileName(p) != DOTDOT
    ensures RelPath(t, p, ParentText(p)) == FileName(p)
  {
    hide Names, Components, Walk, ParentText, FileName, PathOf, Relative, DropDotSlash;
    var f := FileName(p);
    if SLASH in p {
      var q, g := ParentAndName(p);
      var r := ParentText(p);
      WalkNames(t.cwd, r);
      WalkNames(t.cwd, p);
      var start := if Absolute(p) then [] else t.cwd;
      WalkConcat(start, Names(q), [f]);
      assert Plain([f]);
      WalkPlain(Walk(start, Names(q)), [f]);
      ParentExists(t, p, f);
      assert PathOf([f]) == f by { OneName(f); }
      RelativeOfExtension(At(t, r), [f]);
      PathStarts([f]);
    } else {
      SingleName(p);
      OneName(p);
      PathStarts([p]);
    }
  }

  lemma OneName(f: Text)
    ensures PathOf([f]) == f
  {
  }

  lemma ParentExists(t: Tree, p: Text, f: Text)
    requires WellFormed(t) && IsRegular(t, p) && ParentText(p) != [] && At(t, p) == At(t, ParentText(p)) + [f]
    ensures Exists(t, ParentText(p))
  {
    hide At, ParentText;
    var d := At(t, ParentText(p));
    assert At(t, p)[..|d|] == d;
  }

  // ---- which file is found ----

  function Candidate(paths: seq<Text>, j: nat, e: FileEntry): Text
    requires j < |paths|
  {
    Join(ParentText(paths[j]), e.relPath)
  }

  /** Beside source j there is a regular file with the entry's path and size. */
  predicate Matches(t: Tree, paths: seq<Text>, j: nat, e: FileEntry)
    requires j < |paths|
  {
    IsRegular(t, Candidate(paths, j, e)) && |t.files[At(t, Candidate(paths, j, e))]| == e.size
  }

  predicate FirstMatch(t: Tree, paths: seq<Text>, j: nat, e: FileEntry)
    requires j < |paths|
  {
    Matches(t, paths, j, e) && forall k :: 0 <= k < j ==> !Matches(t, paths, k, e)
  }

  lemma {:induction false} FirstMatchFound(t: Tree, paths: seq<Text>, j: nat, e: FileEntry)
    requires j < |paths| && FirstMatch(t, paths, j, e)
    ensures FirstCandidate(t, paths, e) == Some(Candidate(paths, j, e))
    decreases |paths|
  {
    hide Join, ParentText, IsRegular;
    if j == 0 {
    } else {
      assert !Matches(t, paths, 0, e);
      assert forall k :: 0 <= k < |paths| - 1 ==> Matches(t, paths[1..], k, e) == Matches(t, paths, k + 1, e);
      FirstMatchFound(t, paths[1..], j - 1, e);
    }
  }

  /** Beside the first source that has such a file at all, it is another file than source i. */
  predicate Shadowed(t: Tree, paths: seq<Text>, i: nat, e: FileEntry)
    requires i < |paths|
  {
    exists j :: 0 <= j < i && FirstMatch(t, paths, j, e) && At(t, Candidate(paths, j, e)) != At(t, paths[i])
  }

  lemma {:induction false} SomeFirst(t: Tree, paths: seq<Text>, i: nat, e: FileEntry) returns (j: nat)
    requires i < |paths| && Matches(t, paths, i, e)
    ensures j <= i && FirstMatch(t, paths, j, e)
    decreases i
  {
    hide Matches;
    if k: nat :| k < i && Matches(t, paths, k, e) {
      j := SomeFirst(t, paths, k, e);
    } else {
      j := i;
    }
  }

  lemma FirstIsOne(t: Tree, paths: seq<Text>, j: nat, k: nat, e: FileEntry)
    requires j < |paths| && k < |paths| && FirstMatch(t, paths, j, e) && FirstMatch(t, paths, k, e)
    ensures j == k
  {
    hide Matches;
  }

  /** With several sources, the entry of regular-file source i always resolves to a file of the right size,
      and to the right file exactly when it is not shadowed. */
  lemma ResolvesOwnFile(t: Tree, paths: seq<Text>, i: nat, e: FileEntry)
    requires |paths| > 1 && i < |paths| && IsRegular(t, paths[i])
    requires e.relPath == FileName(paths[i]) && e.size == |t.files[At(t, paths[i])]|
    ensures var found := Resolve(t, paths, e);
            found.Some? && IsRegular(t, found.value) && |t.files[At(t, found.value)]| == e.size &&
            (At(t, found.value) == At(t, paths[i]) <==> !Shadowed(t, paths, i, e))
  {
    hide Join, ParentText, FileName, At, FirstCandidate, FirstMatch;
    OwnCandidate(t, paths[i]);
    assert Matches(t, paths, i, e);
    var j := SomeFirst(t, paths, i, e);
    FirstMatchFound(t, paths, j, e);
    assert Matches(t, paths, j, e) by { FirstMatches(t, paths, j, e); }
    if k: nat :| k < i && FirstMatch(t, paths, k, e) && At(t, Candidate(paths, k, e)) != At(t, paths[i]) {
      FirstIsOne(t, paths, j, k, e);
    }
  }

  lemma FirstMatches(t: Tree, paths: seq<Text>, j: nat, e: FileEntry)
    requires j < |paths| && FirstMatch(t, paths, j, e)
    ensures Matches(t, paths, j, e)
  {
  }

  /** What is found has a first source that offers it. */
  lemma {:induction false} FoundHasFirst(t: Tree, paths: seq<Text>, e: FileEntry) returns (j: nat)
    requires FirstCandidate(t, paths, e).Some?
    ensures j < |paths| && FirstMatch(t, paths, j, e)
    decreases |paths|
  {
    hide Join, ParentText, IsRegular, At;
    if Matches(t, paths, 0, e) {
      j := 0;
    } else {
      var k := FoundHasFirst(t, paths[1..], e);
      j := k + 1;
      MatchesLater(t, paths, e);
      hide Matches;
      assert Matches(t, paths, j, e);
      forall i | 0 <= i < j ensures !Matches(t, paths, i, e) {
        assert i == 0 || Matches(t, paths[1..], i - 1, e) == Matches(t, paths, i - 1 + 1, e);
      }
    }
  }

  lemma MatchesLater(t: Tree, paths: seq<Text>, e: FileEntry)
    requires paths != []
    ensures forall i :: 0 <= i < |paths| - 1 ==> Matches(t, paths[1..], i, e) == Matches(t, paths, i + 1, e)
  {
    hide Join, ParentText, IsRegular, At;
  }

  predicate FoundAt(t: Tree, paths: seq<Text>, e: FileEntry, f: Loc) {
    Resolve(t, paths, e).Some? && At(t, Resolve(t, paths, e).value) == f
  }

  /** With several sources and any entry, the file at f is found exactly when it lies beside the first source that
      has such a file at all. */
  lemma FoundExactlyWhen(t: Tree, paths: seq<Text>, e: FileEntry, f: Loc)
    requires |paths| > 1
    ensures FoundAt(t, paths, e, f) <==>
            exists j :: 0 <= j < |paths| && FirstMatch(t, paths, j, e) && At(t, Candidate(paths, j, e)) == f
  {
    hide At, FirstMatch, FirstCandidate, Candidate, IsDirectory, IsRegular, Join;
    if FoundAt(t, paths, e, f) {
      var j := FoundHasFirst(t, paths, e);
      FirstMatchFound(t, paths, j, e);
      assert At(t, Candidate(paths, j, e)) == f;
    }
    forall j | 0 <= j < |paths| && FirstMatch(t, paths, j, e) && At(t, Candidate(paths, j, e)) == f
      ensures FoundAt(t, paths, e, f)
    {
      FirstMatchFound(t, paths, j, e);
    }
  }

  /** The directory a source lies in. */
  function Beside(t: Tree, p: Text): Loc {
    if ParentText(p) == [] then t.cwd else At(t, ParentText(p))
  }

  lemma BesidePlace(t: Tree, p: Text, names: Loc)
    requires Plain(names) && names != []
    ensures At(t, Join(ParentText(p), PathOf(names))) == Beside(t, p) + names
  {
    hide Join, PathOf, ParentText, Walk, Names, Components;
    var r := PathOf(names);
    PathOfNames(names);
    if ParentText(p) == [] {
      JoinNothing(r);
      WalkNames(t.cwd, r);
      WalkPlain(t.cwd, names);
    } else {
      JoinedPlace(t.cwd, ParentText(p), names);
    }
  }

  lemma JoinNothing(rel: Text)
    requires !Absolute(rel)
    ensures Join([], rel) == rel
  {
    assert [] + rel == rel;
  }

  /** A file walked in a directory that is one of several sources is found again exactly when the first source
      that offers such a file lies directly in that directory: the directory itself is not searched. */
  lemma WalkedAmongSeveral(t: Tree, paths: seq<Text>, i: nat, names: Loc, e: FileEntry)
    requires |paths| > 1 && i < |paths| && Plain(names) && names != [] && e.relPath == PathOf(names)
    ensures FoundAt(t, paths, e, At(t, paths[i]) + names) <==>
            exists j :: 0 <= j < |paths| && FirstMatch(t, paths, j, e) && Beside(t, paths[j]) == At(t, paths[i])
  {
    hide At, FirstMatch, Beside, Plain, PathOf, FoundAt, Join, ParentText;
    var f := At(t, paths[i]) + names;
    FoundExactlyWhen(t, paths, e, f);
    forall j | 0 <= j < |paths|
      ensures At(t, Candidate(paths, j, e)) == f <==> Beside(t, paths[j]) == At(t, paths[i])
    {
      BesidePlace(t, paths[j], names);
      SameSuffix(Beside(t, paths[j]), At(t, paths[i]), names);
    }
  }

  lemma SameSuffix(a: Loc, b: Loc, names: Loc)
    ensures a + names == b + names <==> a == b
  {
    if a + names == b + names {
      assert a == (a + names)[..|a|] && b == (b + names)[..|b|];
    }
  }

  // ---- one directory and a prefix to strip ----

  function Climbed(at: Loc, ups: nat): Loc {
    if ups <= |at| then at[..|at| - ups] else []
  }

  lemma {:induction false} WalkUps(at: Loc, ups: nat, rest: Loc)
    ensures Walk(at, Ups(ups) + rest) == Walk(Climbed(at, ups), rest)
    decreases ups
  {
    if ups == 0 {
      assert Ups(0) + rest == rest && at[..|at|] == at;
    } else {
      var c := Ups(ups) + rest;
      assert c[0] == DOTDOT && c[1..] == Ups(ups - 1) + rest;
      assert DOTDOT != ROOT by { assert |ROOT| == 1; }
      WalkUps(Step(at, DOTDOT), ups - 1, rest);
      assert Climbed(Step(at, DOTDOT), ups - 1) == Climbed(at, ups);
    }
  }

  /** Names that a path can list, '..' among them. */
  predicate Steppable(names: Loc) {
    forall i :: 0 <= i < |names| ==> names[i] != [] && names[i] != DOT && SLASH !in names[i]
  }

  lemma UpsSteppable(u: nat, rest: Loc)
    requires Plain(rest)
    ensures Steppable(Ups(u) + rest)
  {
    var names := Ups(u) + rest;
    assert SLASH !in DOTDOT;
    assert forall i :: 0 <= i < |names| ==> names[i] == if i < u then DOTDOT else rest[i - u];
  }

  /** The names of the relative path. */
  lemma RelativeNames(f: Loc, base: Loc)
    requires Plain(f) && f != base
    ensures var n := CommonPrefix(f, base); var names := Ups(|base| - n) + f[n..];
            names != [] && Steppable(names) && Plain(f[n..]) && Relative(f, base) == PathOf(names)
  {
    hide CommonPrefix, PathOf, Steppable;
    assert f[..|f|] == f && base[..|base|] == base;
    UpsSteppable(|base| - CommonPrefix(f, base), f[CommonPrefix(f, base)..]);
  }

  lemma NamesLead(cwd: Loc, dir: Text, names: Loc)
    requires dir != [] && Steppable(names) && names != []
    ensures Locate(cwd, Join(dir, PathOf(names))) == Walk(Locate(cwd, dir), names)
    ensures PathOf(names) != [] && DropDotSlash(PathOf(names)) == PathOf(names)
  {
    hide Join, PathOf, Walk, Components, Names, DropDotSlash;
    PathOfNames(names);
    PathStarts(names);
    JoinResolves(cwd, dir, PathOf(names));
    WalkNames(Locate(cwd, dir), PathOf(names));
  }

  /** Where the path of f relative to base leads from dir. */
  lemma RelativeLeads(cwd: Loc, dir: Text, f: Loc, base: Loc)
    requires dir != [] && Plain(f) && f != base
    ensures var n, rel := CommonPrefix(f, base), Relative(f, base);
            Locate(cwd, Join(dir, rel)) == Climbed(Locate(cwd, dir), |base| - n) + f[n..] &&
            rel != [] && DropDotSlash(rel) == rel
  {
    hide Join, PathOf, Walk, Locate, CommonPrefix, DropDotSlash, Steppable, Plain, Climbed, Ups, Relative;
    var n := CommonPrefix(f, base);
    var u := |base| - n;
    RelativeNames(f, base);
    NamesLead(cwd, dir, Ups(u) + f[n..]);
    WalkUps(Locate(cwd, dir), u, f[n..]);
    WalkPlain(Climbed(Locate(cwd, dir), u), f[n..]);
  }

  /** The prefix is as deep as the directory, or deeper and unrelated to the file. */
  predicate PrefixFits(f: Loc, dir: Loc, base: Loc) {
    f != base && (|base| == |dir| || (|base| > |dir| && CommonPrefix(f, base) == 0))
  }

  lemma LeadsBack(f: Loc, dir: Loc, base: Loc)
    requires dir <= f && dir != f && f != base
    ensures var n := CommonPrefix(f, base);
            Climbed(dir, |base| - n) + f[n..] == f <==> PrefixFits(f, dir, base)
  {
    hide CommonPrefix;
    var n := CommonPrefix(f, base);
    var there := Climbed(dir, |base| - n) + f[n..];
    if |base| == |dir| {
      assert dir[..n] == f[..n];
      assert there == f[..n] + f[n..] == f;
    } else if |base| > |dir| && n == 0 {
      assert there == [] + f == f;
    } else {
      assert |there| != |f|;
    }
  }

  /** With a prefix that exists, a walked file is found again exactly when the prefix fits. In particular it is not
      when the prefix is a directory above the source directory. */
  lemma StrippedFileFoundExactlyWhen(t: Tree, dir: Text, prefix: Text, names: Loc, e: FileEntry)
    requires IsDirectory(t, dir) && prefix != [] && Exists(t, prefix) && Plain(At(t, dir) + names) && names != []
    requires e.relPath == RelPath(t, Join(dir, PathOf(names)), prefix)
    ensures FoundAt(t, [dir], e, At(t, dir) + names) <==> PrefixFits(At(t, dir) + names, At(t, dir), At(t, prefix))
  {
    hide Join, PathOf, DropDotSlash, Relative, Locate, Exists;
    var f, base := At(t, dir) + names, At(t, prefix);
    assert Plain(names) by { PlainSuffix(At(t, dir), names); }
    JoinedPlace(t.cwd, dir, names);
    if f == base {
      SelfRelative(f);
      DotLeadsNowhere(t, dir);
      assert names != [];
      assert |At(t, dir)| < |f|;
    } else {
      RelativeLeads(t.cwd, dir, f, base);
      LeadsBack(f, At(t, dir), base);
    }
  }

  lemma PlainSuffix(a: Loc, b: Loc)
    requires Plain(a + b)
    ensures Plain(b)
  {
    assert forall i :: 0 <= i < |b| ==> b[i] == (a + b)[|a| + i];
  }

  lemma SelfRelative(f: Loc)
    ensures Relative(f, f) == DOT && DropDotSlash(DOT) == DOT
  {
  }

  lemma DotLeadsNowhere(t: Tree, dir: Text)
    requires dir != []
    ensures At(t, Join(dir, DOT)) == At(t, dir)
  {
    hide Join, Names, Components;
    NamesOfName(DOT);
    JoinResolves(t.cwd, dir, DOT);
    WalkNames(At(t, dir), DOT);
    assert [DOT][1..] == [];
  }

  /** With a prefix that does not exist, the manifest has the bare name, and the file is found again exactly when
      it lies directly in the directory. */
  lemma UnprefixedFileFoundExactlyWhen(t: Tree, dir: Text, prefix: Text, names: Loc, e: FileEntry)
    requires IsDirectory(t, dir) && !Exists(t, prefix) && Plain(names) && names != []
    requires e.relPath == RelPath(t, Join(dir, PathOf(names)), prefix)
    ensures FoundAt(t, [dir], e, At(t, dir) + names) <==> |names| == 1
  {
    hide Join, PathOf, At, Exists, RelPath;
    var last := names[|names| - 1];
    BareName(t, dir, prefix, names);
    OneName(last);
    JoinedPlace(t.cwd, dir, [last]);
    AtIs(t, Join(dir, last));
    AtIs(t, dir);
    SameNames(At(t, dir), [last], names);
  }

  lemma AtIs(t: Tree, p: Text)
    ensures At(t, p) == Locate(t.cwd, p)
  {
  }

  lemma SameNames(a: Loc, b: Loc, c: Loc)
    ensures a + b == a + c <==> b == c
  {
    if a + b == a + c {
      assert b == (a + b)[|a|..] && c == (a + c)[|a|..];
    }
  }

  lemma LastOfJoined(dir: Text, names: Loc)
    requires dir != [] && Plain(names) && names != []
    ensures FileName(Join(dir, PathOf(names))) == names[|names| - 1]
  {
    hide Join, PathOf, FileName, Names, Absolute;
    PathOfNames(names);
    JoinNames(dir, PathOf(names));
    JoinEnds(dir, PathOf(names));
    FileNameIsLast(Join(dir, PathOf(names)));
  }

  lemma BareName(t: Tree, dir: Text, prefix: Text, names: Loc)
    requires dir != [] && !Exists(t, prefix) && Plain(names) && names != []
    ensures RelPath(t, Join(dir, PathOf(names)), prefix) == names[|names| - 1]
  {
    hide Join, PathOf, At, Exists, FileName, Relative, DropDotSlash;
    LastOfJoined(dir, names);
    OneName(names[|names| - 1]);
    PathStarts([names[|names| - 1]]);
  }

  lemma FileNameIsLast(p: Text)
    requires p != [] && p[|p| - 1] != SLASH
    ensures Names(p) != [] && FileName(p) == Names(p)[|Names(p)| - 1]
  {
    hide Names, FileName, ParentText;
    if SLASH in p {
      var q, f := ParentAndName(p);
    } else {
      SingleName(p);
    }
  }

  // ---- the wrong file, concretely ----

  const A: Text := [0x61]
  const B: Text := [0x62]
  const X: Text := [0x78]
  const Y: Text := [0x79]

  /** The files a/x, a/y and b/y, one byte each. */
  const THREE: Tree :=
    Tree(map[[A, X] := [1], [A, Y] := [2], [B, Y] := [3]], {[], [A], [B]}, {}, [])

  const A_X: Text := [0x61, 0x2F, 0x78]
  const A_Y: Text := [0x61, 0x2F, 0x79]
  const B_Y: Text := [0x62, 0x2F, 0x79]

  lemma PlacedAt(p: Text, dir: Text, name: Text)
    requires p == dir + [SLASH] + name && |dir| == 1 && |name| == 1
    requires dir[0] != 0x2E && dir[0] != SLASH && name[0] != 0x2E && name[0] != SLASH
    ensures At(THREE, p) == [dir, name] && NamesFile(p)
  {
    var names := [dir, name];
    assert names[1..] == [name];
    assert PathOf(names) == p;
    PathOfNames(names);
    hide PathOf, Names, Walk, Components;
    WalkNames([], p);
    WalkPlain([], names);
    assert [] + names == names;
  }

  lemma Places()
    ensures At(THREE, A_X) == [A, X] && At(THREE, A_Y) == [A, Y] && At(THREE, B_Y) == [B, Y]
    ensures NamesFile(A_X) && NamesFile(A_Y) && NamesFile(B_Y)
  {
    hide At, NamesFile;
    PlacedAt(A_X, A, X);
    PlacedAt(A_Y, A, Y);
    PlacedAt(B_Y, B, Y);
  }

  lemma ParentOfFirst()
    ensures ParentText(A_X) == A
  {
    assert A_X[..2] == [0x61, 0x2F] && A_X[..2][..1] == A;
    assert BeforeLastSlash(A_X) == BeforeLastSlash(A_X[..2]) == A;
  }

  lemma NameOfSecond()
    ensures FileName(B_Y) == Y
  {
    hide Names;
    NamesOfName(B);
    NamesOfName(Y);
    SplitAtSlash(B, Y);
    assert B_Y == B + [SLASH] + Y;
  }

  lemma BesideFirst()
    ensures ParentText(A_X) == A && Join(A, Y) == A_Y && FileName(B_Y) == Y
  {
    hide ParentText, FileName;
    ParentOfFirst();
    NameOfSecond();
    assert A + [SLASH] + Y == A_Y;
  }

  lemma ThreeIsWellFormed()
    ensures WellFormed(THREE)
  {
    forall f, k | f in THREE.files && 0 <= k < |f| ensures f[..k] in THREE.dirs {
      assert k == 0 ==> f[..k] == [];
      assert k == 1 ==> f[..k] == [f[0]];
    }
  }

  /** Sending a/x and b/y while a/y has the size of b/y: the scan lists b/y, but what is sent for it is the
      content of a/y. */
  lemma WrongFileSent()
    ensures WellFormed(THREE) && IsRegular(THREE, A_X) && IsRegular(THREE, B_Y)
    ensures var e := FileEntry(Y, 1, 0);
            Scanned(THREE, SenderOptions(false, true, []), B_Y) == {e} && Shadowed(THREE, [A_X, B_Y], 1, e) &&
            SourceOf(THREE, [A_X, B_Y], e).content == [2] && THREE.files[At(THREE, B_Y)] == [3]
  {
    ThreeIsWellFormed();
    Places();
    BesideFirst();
    hide At, ParentText, FileName, Join, RelPath, NamesFile;
    FileSourceName(THREE, B_Y);
    var e, paths := FileEntry(Y, 1, 0), [A_X, B_Y];
    assert IsRegular(THREE, A_Y) && Matches(THREE, paths, 0, e);
    assert FirstMatch(THREE, paths, 0, e);
    FirstMatchFound(THREE, paths, 0, e);
  }
}
