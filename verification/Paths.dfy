/** POSIX paths as byte strings: splitting, joining and lexical resolution. */
module Paths {
  import opened BitStrings

  /** A resolved place: the names from the root down. */
  type Loc = seq<Text>

  const SLASH: byte := 0x2F
  const DOT: Text := [0x2E]
  const DOTDOT: Text := [0x2E, 0x2E]
  const BACKSLASH: Text := [0x5C]
  const ROOT: Text := [SLASH]

  predicate Absolute(p: Text) {
    |p| > 0 && p[0] == SLASH
  }

  /** The pieces between slashes, empty ones included. */
  function Split(p: Text): (pieces: seq<Text>)
    ensures |pieces| > 0
    ensures forall i :: 0 <= i < |pieces| ==> SLASH !in pieces[i]
  {
    if p == [] then [[]]
    else
      var rest := Split(p[1..]);
      if p[0] == SLASH then [[]] + rest else [[p[0]] + rest[0]] + rest[1..]
  }

  function NonEmpty(pieces: seq<Text>): (names: seq<Text>)
    ensures forall i :: 0 <= i < |names| ==> names[i] in pieces && names[i] != []
    ensures forall piece :: piece in pieces && piece != [] ==> piece in names
  {
    if pieces == [] then []
    else (if pieces[0] == [] then [] else [pieces[0]]) + NonEmpty(pieces[1..])
  }

  /** The non-empty names of a path. */
  function Names(p: Text): (names: seq<Text>)
    ensures forall i :: 0 <= i < |names| ==> names[i] != [] && SLASH !in names[i]
  {
    NonEmpty(Split(p))
  }

  /** What iterating over a path yields: the root directory, the names, and an empty last
      component when the path ends in a separator. */
  function Components(p: Text): seq<Text> {
    (if Absolute(p) then [ROOT] else []) + Names(p) +
    (if Names(p) != [] && p[|p| - 1] == SLASH then [[]] else [])
  }

  /** Follow one component from a place; '..' pops. */
  function Step(at: Loc, c: Text): Loc {
    if c == ROOT then []
    else if c == [] || c == DOT then at
    else if c == DOTDOT then (if at == [] then [] else at[..|at| - 1])
    else at + [c]
  }

  function Walk(at: Loc, components: seq<Text>): Loc
    decreases |components|
  {
    if components == [] then at else Walk(Step(at, components[0]), components[1..])
  }

  function Locate(cwd: Loc, p: Text): Loc {
    Walk(cwd, Components(p))
  }

  /** The place a path's parent_path() denotes. */
  function ParentOf(cwd: Loc, p: Text): Loc {
    var c := Components(p);
    if c == [] then cwd else Walk(cwd, c[..|c| - 1])
  }

  predicate HasParentPath(p: Text) {
    Absolute(p) || |Components(p)| > 1
  }

  /** operator/ on paths. */
  function Join(dir: Text, rel: Text): Text {
    if Absolute(rel) then rel
    else if dir == [] || dir[|dir| - 1] == SLASH then dir + rel
    else dir + [SLASH] + rel
  }

  /** What the receiver accepts: relative, and no component '..' or '\'. */
  predicate Safe(rel: Text) {
    !Absolute(rel) && DOTDOT !in Names(rel) && BACKSLASH !in Names(rel)
  }

  /** The path ends in a name that can be a file. */
  predicate NamesFile(p: Text) {
    p != [] && p[|p| - 1] != SLASH && Names(p) != [] && Names(p)[|Names(p)| - 1] != DOT
  }

  // ---- walking ----

  lemma {:induction false} WalkConcat(at: Loc, a: seq<Text>, b: seq<Text>)
    ensures Walk(at, a + b) == Walk(Walk(at, a), b)
    decreases |a|
  {
    if a == [] {
      assert a + b == b;
    } else {
      assert (a + b)[1..] == a[1..] + b;
      WalkConcat(Step(at, a[0]), a[1..], b);
    }
  }

  /** Names other than '.' and '..' are pushed one after the other. */
  predicate Plain(names: seq<Text>) {
    forall i :: 0 <= i < |names| ==> names[i] != [] && names[i] != DOT && names[i] != DOTDOT && SLASH !in names[i]
  }

  lemma {:induction false} WalkPlain(at: Loc, names: seq<Text>)
    requires Plain(names)
    ensures Walk(at, names) == at + names
    decreases |names|
  {
    if names == [] {
    } else {
      assert ROOT[0] == SLASH;
      WalkPlain(at + [names[0]], names[1..]);
      assert at + names == at + [names[0]] + names[1..];
    }
  }

  lemma {:induction false} WalkDescends(at: Loc, components: seq<Text>)
    requires ROOT !in components && DOTDOT !in components
    ensures at <= Walk(at, components)
    decreases |components|
  {
    if components == [] {
    } else {
      WalkDescends(Step(at, components[0]), components[1..]);
    }
  }

  lemma ComponentsOf(p: Text)
    ensures ROOT in Components(p) <==> Absolute(p)
    ensures forall c :: c != ROOT && c != [] ==> (c in Components(p) <==> c in Names(p))
  {
    assert ROOT[0] == SLASH;
  }

  /** The path guard confines every step: each component of an accepted path leads to a place at or
      below the output directory. */
  lemma GuardConfines(dir: Loc, rel: Text, k: nat)
    requires Safe(rel) && k <= |Components(rel)|
    ensures dir <= Walk(dir, Components(rel)[..k])
  {
    ComponentsOf(rel);
    WalkDescends(dir, Components(rel)[..k]);
  }

  /** A backslash inside a name is not rejected; only a name that consists of it is. */
  lemma BackslashAccepted()
    ensures var rel: Text := [0x61, 0x5C, 0x62]; BACKSLASH[0] in rel && Safe(rel) && Names(rel) == [rel]
  {
    NamesOfName([0x61, 0x5C, 0x62]);
  }

  // ---- joining ----

  lemma {:induction false} NonEmptyConcat(a: seq<Text>, b: seq<Text>)
    ensures NonEmpty(a + b) == NonEmpty(a) + NonEmpty(b)
    decreases |a|
  {
    if a == [] {
      assert a + b == b;
    } else {
      assert (a + b)[1..] == a[1..] + b;
      NonEmptyConcat(a[1..], b);
    }
  }

  lemma {:induction false} SplitAtSlash(a: Text, b: Text)
    ensures Split(a + [SLASH] + b) == Split(a) + Split(b)
    decreases |a|
  {
    if a == [] {
      assert a + [SLASH] + b == [SLASH] + b;
    } else {
      assert (a + [SLASH] + b)[1..] == a[1..] + [SLASH] + b;
      SplitAtSlash(a[1..], b);
    }
  }

  lemma NamesAtSlash(a: Text, b: Text)
    ensures Names(a + [SLASH] + b) == Names(a) + Names(b)
  {
    SplitAtSlash(a, b);
    NonEmptyConcat(Split(a), Split(b));
  }

  lemma {:induction false} SplitOfName(name: Text)
    requires SLASH !in name
    ensures Split(name) == [name]
    decreases |name|
  {
    if name == [] {
    } else {
      SplitOfName(name[1..]);
      assert [name[0]] + name[1..] == name;
      assert Split(name) == [name] + [name[1..]][1..];
    }
  }

  lemma NamesOfName(name: Text)
    requires SLASH !in name
    ensures Split(name) == [name]
    ensures Names(name) == if name == [] then [] else [name]
  {
    hide Split;
    SplitOfName(name);
    assert [name][1..] == [] && NonEmpty([]) == [];
  }

  lemma JoinNames(dir: Text, rel: Text)
    requires !Absolute(rel)
    ensures Names(Join(dir, rel)) == Names(dir) + Names(rel)
    ensures dir != [] ==> (Absolute(Join(dir, rel)) <==> Absolute(dir))
  {
    hide Names;
    if dir == [] {
      assert dir + rel == rel;
      NamesOfName([]);
    } else if dir[|dir| - 1] == SLASH {
      var d := dir[..|dir| - 1];
      assert dir == d + [SLASH] + [] && dir + rel == d + [SLASH] + rel;
      NamesAtSlash(d, []);
      NamesAtSlash(d, rel);
      NamesOfName([]);
    } else {
      NamesAtSlash(dir, rel);
    }
  }

  lemma {:induction false} FirstName(p: Text)
    requires p != [] && !Absolute(p)
    ensures Names(p) != []
  {
    assert Split(p)[0] != [] && Split(p)[0] in Split(p);
  }

  lemma JoinEnds(dir: Text, rel: Text)
    requires rel != [] && !Absolute(rel)
    ensures var t := Join(dir, rel); t != [] && t[|t| - 1] == rel[|rel| - 1]
  {
  }

  /** The target of a received file always has a parent path. */
  lemma JoinHasParent(dir: Text, rel: Text)
    requires dir != [] && rel != [] && !Absolute(rel)
    ensures HasParentPath(Join(dir, rel))
  {
    hide Names, Join;
    JoinNames(dir, rel);
    FirstName(rel);
    if !Absolute(dir) {
      FirstName(dir);
    }
  }

  lemma WalkNames(at: Loc, p: Text)
    ensures Walk(at, Components(p)) == Walk(if Absolute(p) then [] else at, Names(p))
  {
    var head := if Absolute(p) then [ROOT] else [];
    var tail := if Names(p) != [] && p[|p| - 1] == SLASH then [[]] else [];
    assert Components(p) == head + (Names(p) + tail);
    WalkConcat(at, head, Names(p) + tail);
    WalkConcat(Walk(at, head), Names(p), tail);
    assert forall x: Text :: [x][1..] == [];
  }

  /** Resolving dir / rel is resolving rel from the place of dir. */
  lemma JoinResolves(cwd: Loc, dir: Text, rel: Text)
    requires dir != [] && !Absolute(rel)
    ensures Locate(cwd, Join(dir, rel)) == Walk(Locate(cwd, dir), Components(rel))
  {
    JoinNames(dir, rel);
    WalkNames(cwd, Join(dir, rel));
    WalkNames(cwd, dir);
    WalkNames(Locate(cwd, dir), rel);
    WalkConcat(if Absolute(dir) then [] else cwd, Names(dir), Names(rel));
  }

  /** The path that lists the given names, separated by single slashes. */
  function PathOf(names: seq<Text>): Text {
    if names == [] then []
    else if |names| == 1 then names[0]
    else names[0] + [SLASH] + PathOf(names[1..])
  }

  lemma {:induction false} PathOfNames(names: seq<Text>)
    requires forall i :: 0 <= i < |names| ==> names[i] != [] && SLASH !in names[i]
    ensures Names(PathOf(names)) == names
    ensures !Absolute(PathOf(names)) && (names != [] ==> PathOf(names) != [])
    ensures names != [] ==> PathOf(names)[|PathOf(names)| - 1] != SLASH
    decreases |names|
  {
    hide Names;
    if names == [] {
      NamesOfName([]);
    } else {
      NamesOfName(names[0]);
      if |names| > 1 {
        PathOfNames(names[1..]);
        NamesAtSlash(names[0], PathOf(names[1..]));
      }
      assert names == [names[0]] + names[1..];
    }
  }

  /** A path of plain names, taken from a directory, leads down by these names. */
  lemma JoinedPlace(cwd: Loc, dir: Text, names: Loc)
    requires dir != [] && Plain(names) && names != []
    ensures Locate(cwd, Join(dir, PathOf(names))) == Locate(cwd, dir) + names
  {
    hide Join, PathOf, Walk, Components;
    PathOfNames(names);
    var p := PathOf(names);
    JoinResolves(cwd, dir, p);
    WalkNames(Locate(cwd, dir), p);
    WalkPlain(Locate(cwd, dir), names);
  }

  // ---- paths in plain bytes ----

  /** p[i..j] is one of the pieces between the bytes 2F of p. */
  predicate PieceAt(p: Text, i: nat, j: nat) {
    i <= j <= |p| && (i == 0 || p[i - 1] == 0x2F) && (j == |p| || p[j] == 0x2F) && 0x2F !in p[i..j]
  }

  ghost predicate HasPiece(p: Text, piece: Text) {
    exists i: nat, j: nat :: PieceAt(p, i, j) && p[i..j] == piece
  }

  lemma {:induction false} FirstPiece(p: Text) returns (a: Text, b: Text)
    requires SLASH in p
    ensures p == a + [SLASH] + b && SLASH !in a
    decreases |p|
  {
    if p[0] == SLASH {
      a, b := [], p[1..];
    } else {
      var a', b' := FirstPiece(p[1..]);
      a, b := [p[0]] + a', b';
      assert p == [p[0]] + p[1..];
    }
  }

  lemma PieceOfName(a: Text, piece: Text)
    requires SLASH !in a
    ensures HasPiece(a, piece) <==> piece == a
  {
    assert PieceAt(a, 0, |a|) && a[0..|a|] == a;
    assert forall k :: 0 <= k < |a| ==> a[k] in a;
    assert forall i: nat, j: nat :: PieceAt(a, i, j) ==> i == 0 && j == |a|;
  }

  lemma PieceShifts(a: Text, b: Text, i: nat, j: nat)
    ensures PieceAt(b, i, j) <==> PieceAt(a + [SLASH] + b, |a| + 1 + i, |a| + 1 + j)
    ensures j <= |b| && i <= j ==> (a + [SLASH] + b)[|a| + 1 + i..|a| + 1 + j] == b[i..j]
  {
    var p := a + [SLASH] + b;
    assert p[|a|] == SLASH && forall k :: 0 <= k < |b| ==> p[|a| + 1 + k] == b[k];
    assert i <= j <= |b| ==> p[|a| + 1 + i..|a| + 1 + j] == b[i..j];
  }

  /** A piece that starts in front of the first slash is what stands in front of it. */
  lemma PieceInFront(a: Text, b: Text, i: nat, j: nat)
    requires SLASH !in a && PieceAt(a + [SLASH] + b, i, j) && i <= |a|
    ensures i == 0 && j == |a|
  {
    var p := a + [SLASH] + b;
    assert forall k :: 0 <= k < |a| ==> p[k] == a[k] && a[k] in a;
    assert p[|a|] == SLASH;
    forall k | i <= k < j ensures p[k] != SLASH {
      assert p[i..j][k - i] == p[k];
    }
  }

  lemma PiecesAtSlash(a: Text, b: Text, piece: Text)
    requires SLASH !in a
    ensures HasPiece(a + [SLASH] + b, piece) <==> piece == a || HasPiece(b, piece)
  {
    var p := a + [SLASH] + b;
    assert PieceAt(p, 0, |a|) && p[0..|a|] == a;
    if i: nat, j: nat :| PieceAt(p, i, j) && p[i..j] == piece {
      if i <= |a| {
        PieceInFront(a, b, i, j);
      } else {
        PieceShifts(a, b, i - |a| - 1, j - |a| - 1);
      }
    }
    if i: nat, j: nat :| PieceAt(b, i, j) && b[i..j] == piece {
      PieceShifts(a, b, i, j);
    }
  }

  /** Split yields exactly the pieces. */
  lemma {:induction false} SplitPieces(p: Text, piece: Text)
    ensures piece in Split(p) <==> HasPiece(p, piece)
    decreases |p|
  {
    hide Split, HasPiece;
    if SLASH !in p {
      SplitOfName(p);
      PieceOfName(p, piece);
    } else {
      var a, b := FirstPiece(p);
      SplitAtSlash(a, b);
      SplitOfName(a);
      SplitPieces(b, piece);
      PiecesAtSlash(a, b, piece);
    }
  }

  /** The path guard in plain bytes: no leading 2F, and no piece 2E 2E or 5C. */
  lemma SafeInBytes(rel: Text)
    ensures Safe(rel) <==>
            (rel == [] || rel[0] != 0x2F) && !HasPiece(rel, [0x2E, 0x2E]) && !HasPiece(rel, [0x5C])
  {
    hide HasPiece, Split;
    SplitPieces(rel, [0x2E, 0x2E]);
    SplitPieces(rel, [0x5C]);
  }

  /** Following one component, in plain bytes. */
  lemma StepInBytes(at: Loc, parent: Loc, name: Text)
    ensures Step(at, [0x2F]) == [] && Step(at, [0x2E]) == at && Step(at, []) == at
    ensures Step(parent + [name], [0x2E, 0x2E]) == parent && Step([], [0x2E, 0x2E]) == []
    ensures name != [] && 0x2F !in name && name != [0x2E] && name != [0x2E, 0x2E] ==> Step(at, name) == at + [name]
  {
    assert (parent + [name])[..|parent|] == parent;
  }

  /** Resolution of a whole path, in plain bytes: from the root if it starts with 2F, then by its non-empty pieces. */
  lemma LocateInBytes(cwd: Loc, a: Text, b: Text)
    requires 0x2F !in b && b != []
    ensures Locate(cwd, a + [0x2F] + b) == Step(if a == [] then [] else Locate(cwd, a), b)
    ensures Locate(cwd, b) == Step(cwd, b)
    ensures Locate(cwd, a + [0x2F]) == if a == [] then [] else Locate(cwd, a)
  {
    hide Names, Components, Step;
    NamesOfName(b);
    NamesOfName([]);
    NamesAtSlash(a, b);
    NamesAtSlash(a, []);
    assert a + [0x2F] + [] == a + [0x2F];
    WalkNames(cwd, a + [0x2F] + b);
    WalkNames(cwd, a + [0x2F]);
    WalkNames(cwd, a);
    WalkNames(cwd, b);
    var start := if Absolute(a + [0x2F]) then [] else cwd;
    WalkConcat(start, Names(a), [b]);
    assert forall x: Text :: [x][1..] == [];
    assert Names(a) + [] == Names(a);
    assert a != [] ==> (Absolute(a) <==> Absolute(a + [0x2F]));
  }

  /** "../x" leads to a sibling. */
  lemma UpAndDown(parent: Loc, name: Text)
    ensures Locate(parent + [name], [0x2E, 0x2E, 0x2F, 0x78]) == parent + [[0x78]]
  {
    hide Locate, Step;
    var at, up: Text, x: Text := parent + [name], [0x2E, 0x2E], [0x78];
    assert up + [0x2F] + x == [0x2E, 0x2E, 0x2F, 0x78];
    assert x[0] == 0x78 && x != [0x2E] && x != up && 0x2F !in x && up != [];
    LocateInBytes(at, up, x);
    LocateInBytes(at, [], up);
    StepInBytes(at, parent, name);
    StepInBytes(parent, parent, x);
  }

  /** Joining, in plain bytes. */
  lemma JoinInBytes(dir: Text, rel: Text)
    ensures rel != [] && rel[0] == 0x2F ==> Join(dir, rel) == rel
    ensures rel == [] || rel[0] != 0x2F ==>
              Join(dir, rel) == dir + (if dir == [] || dir[|dir| - 1] == 0x2F then [] else [0x2F]) + rel
  {
    assert dir + [] + rel == dir + rel;
  }
}
