/** Scanning paths into a manifest: sorted by path, one entry for each path. */
module Collect {
  import opened BitStrings
  import opened Wire
  import opened Paths
  import opened Transfers
  import opened Manifest

  datatype SenderOptions = SenderOptions(recursive: bool, zeroCopy: bool, stripPrefix: Text)

  // ---- byte order of paths ----

  predicate Less(a: Text, b: Text)
    decreases |a|
  {
    b != [] && (a == [] || a[0] < b[0] || (a[0] == b[0] && Less(a[1..], b[1..])))
  }

  lemma {:induction false} LessTransitive(a: Text, b: Text, c: Text)
    requires Less(a, b) && Less(b, c)
    ensures Less(a, c)
    decreases |a|
  {
    if a != [] && a[0] == b[0] && b[0] == c[0] {
      LessTransitive(a[1..], b[1..], c[1..]);
    }
  }

  lemma {:induction false} LessTotal(a: Text, b: Text)
    ensures Less(a, b) || a == b || Less(b, a)
    decreases |a|
  {
    if a != [] && b != [] && a[0] == b[0] {
      LessTotal(a[1..], b[1..]);
      assert a == [a[0]] + a[1..] && b == [b[0]] + b[1..];
    }
  }

  lemma {:induction false} LessIrreflexive(a: Text)
    ensures !Less(a, a)
    decreases |a|
  {
    if a == [] {
    } else {
      LessIrreflexive(a[1..]);
    }
  }

  /** The texts differ at k for the first time, and there a is smaller. */
  predicate DiffersAt(a: Text, b: Text, k: nat) {
    k < |a| && k < |b| && a[..k] == b[..k] && a[k] < b[k]
  }

  /** Byte order: a is a proper prefix of b, or smaller at the first byte in which they differ. */
  ghost predicate ByteLess(a: Text, b: Text) {
    a < b || exists k: nat :: DiffersAt(a, b, k)
  }

  lemma {:induction false} LessIsByteLess(a: Text, b: Text)
    ensures Less(a, b) <==> ByteLess(a, b)
    decreases |a|
  {
    if a == [] || b == [] || a[0] != b[0] {
      FirstBytesDiffer(a, b);
    } else {
      hide ByteLess;
      LessIsByteLess(a[1..], b[1..]);
      SameFirstByte(a, b);
    }
  }

  lemma FirstBytesDiffer(a: Text, b: Text)
    requires a == [] || b == [] || a[0] != b[0]
    ensures ByteLess(a, b) <==> b != [] && (a == [] || a[0] < b[0])
  {
    if a != [] && b != [] && a[0] < b[0] {
      assert DiffersAt(a, b, 0);
    }
    if k: nat :| DiffersAt(a, b, k) {
      assert k == 0 || a[..k][0] == b[..k][0];
    }
  }

  lemma DiffersLater(x: byte, a: Text, b: Text, k: nat)
    ensures DiffersAt([x] + a, [x] + b, k + 1) <==> DiffersAt(a, b, k)
    ensures !DiffersAt([x] + a, [x] + b, 0)
  {
    var p, q := [x] + a, [x] + b;
    if k < |a| && k < |b| {
      assert p[..k + 1] == [x] + a[..k] && q[..k + 1] == [x] + b[..k];
      assert p[..k + 1][1..] == a[..k] && q[..k + 1][1..] == b[..k];
    }
  }

  lemma SameFirstByte(a: Text, b: Text)
    requires a != [] && b != [] && a[0] == b[0]
    ensures ByteLess(a, b) <==> ByteLess(a[1..], b[1..])
  {
    var x, a', b' := a[0], a[1..], b[1..];
    assert a == [x] + a' && b == [x] + b';
    assert a < b <==> a' < b' by {
      assert a' < b' ==> b[..|a|] == [x] + b'[..|a'|];
    }
    if k: nat :| DiffersAt(a', b', k) {
      DiffersLater(x, a', b', k);
      assert DiffersAt(a, b, k + 1);
    }
    if k: nat :| DiffersAt(a, b, k) {
      DiffersLater(x, a', b', if k > 0 then k - 1 else 0);
    }
  }

  predicate Sorted(es: seq<FileEntry>) {
    forall i, j :: 0 <= i < j < |es| ==> !Less(es[j].relPath, es[i].relPath)
  }

  predicate Increasing(es: seq<FileEntry>) {
    forall i, j :: 0 <= i < j < |es| ==> Less(es[i].relPath, es[j].relPath)
  }

  /** The paths of a manifest, in its order. */
  function PathList(es: seq<FileEntry>): (paths: seq<Text>)
    ensures |paths| == |es| && forall i :: 0 <= i < |es| ==> paths[i] == es[i].relPath
  {
    seq(|es|, i requires 0 <= i < |es| => es[i].relPath)
  }

  function PathSet(es: set<FileEntry>): set<Text> {
    set e | e in es :: e.relPath
  }

  function Elements(es: seq<FileEntry>): set<FileEntry> {
    set i | 0 <= i < |es| :: es[i]
  }

  // ---- what a scan finds ----

  function PrefixOf(t: Tree, opts: SenderOptions, p: Text): Text {
    if opts.stripPrefix != [] then opts.stripPrefix
    else if IsRegular(t, p) then ParentText(p)
    else p
  }

  /** The path by which a directory walk reports a file below the directory. */
  function WalkedPath(t: Tree, dir: Text, f: Loc): Text
    requires At(t, dir) <= f
  {
    Join(dir, PathOf(f[|At(t, dir)|..]))
  }

  function WalkedEntry(t: Tree, dir: Text, f: Loc, prefix: Text): FileEntry
    requires WellFormed(t) && f in t.files && At(t, dir) <= f
  {
    FileEntry(RelPath(t, WalkedPath(t, dir, f), prefix), |t.files[f]|, 0)
  }

  function Below(t: Tree, dir: Text): set<Loc> {
    set f | f in t.files && At(t, dir) < f
  }

  function WalkedEntries(t: Tree, dir: Text, prefix: Text, fs: set<Loc>): set<FileEntry>
    requires WellFormed(t) && fs <= Below(t, dir)
  {
    set f | f in fs && WalkedEntry(t, dir, f, prefix).relPath != [] :: WalkedEntry(t, dir, f, prefix)
  }

  function FileAt(t: Tree, p: Text, prefix: Text): FileEntry
    requires WellFormed(t) && IsRegular(t, p)
  {
    FileEntry(RelPath(t, p, prefix), |t.files[At(t, p)]|, 0)
  }

  /** The entries one source path gives rise to, before sorting and dropping duplicates. */
  function Scanned(t: Tree, opts: SenderOptions, p: Text): set<FileEntry>
    requires WellFormed(t)
  {
    var prefix := PrefixOf(t, opts, p);
    if IsRegular(t, p) then
      var e := FileAt(t, p, prefix);
      if e.relPath == [] then {} else {e}
    else if IsDirectory(t, p) && opts.recursive then WalkedEntries(t, p, prefix, Below(t, p))
    else {}
  }

  function ScannedAll(t: Tree, opts: SenderOptions, paths: seq<Text>): set<FileEntry>
    requires WellFormed(t)
  {
    if paths == [] then {} else ScannedAll(t, opts, paths[..|paths| - 1]) + Scanned(t, opts, paths[|paths| - 1])
  }

  lemma {:induction false} ScannedAllIff(t: Tree, opts: SenderOptions, paths: seq<Text>, e: FileEntry)
    requires WellFormed(t)
    ensures e in ScannedAll(t, opts, paths) <==> exists i :: 0 <= i < |paths| && e in Scanned(t, opts, paths[i])
    decreases |paths|
  {
    hide Scanned;
    if paths == [] {
    } else {
      var init := paths[..|paths| - 1];
      ScannedAllIff(t, opts, init, e);
      assert forall i :: 0 <= i < |init| ==> init[i] == paths[i];
    }
  }

  /** No scanned entry carries a checksum, and none has an empty path. */
  lemma {:induction false} ScannedFresh(t: Tree, opts: SenderOptions, paths: seq<Text>, e: FileEntry)
    requires WellFormed(t) && e in ScannedAll(t, opts, paths)
    ensures e.crc32 == 0 && e.relPath != []
    decreases |paths|
  {
    hide RelPath, WalkedPath;
    if e !in Scanned(t, opts, paths[|paths| - 1]) {
      ScannedFresh(t, opts, paths[..|paths| - 1], e);
    }
  }

  // ---- the scan ----

  function Pushed(es: seq<FileEntry>, e: FileEntry): (r: seq<FileEntry>)
    ensures Elements(r) == Elements(es) + {e}
  {
    assert forall i :: 0 <= i < |es| ==> (es + [e])[i] == es[i];
    assert (es + [e])[|es|] == e;
    es + [e]
  }

  lemma OneMoreWalked(t: Tree, dir: Text, prefix: Text, fs: set<Loc>, f: Loc)
    requires WellFormed(t) && fs <= Below(t, dir) && f in Below(t, dir)
    ensures var e := WalkedEntry(t, dir, f, prefix);
            WalkedEntries(t, dir, prefix, fs + {f}) ==
            WalkedEntries(t, dir, prefix, fs) + (if e.relPath == [] then {} else {e})
  {
    hide WalkedEntry, WellFormed;
  }

  lemma NoneWalked(t: Tree, dir: Text, prefix: Text)
    requires WellFormed(t)
    ensures WalkedEntries(t, dir, prefix, {}) == {}
  {
  }

  /** One directory, in whatever order the system lists it. */
  method WalkDirectory(t: Tree, dir: Text, prefix: Text) returns (found: seq<FileEntry>)
    requires WellFormed(t)
    ensures Elements(found) == WalkedEntries(t, dir, prefix, Below(t, dir))
  {
    hide RelPath, WalkedEntries, WellFormed, WalkedPath, Elements;
    found := [];
    NoneWalked(t, dir, prefix);
    NoElements();
    var pending := Below(t, dir);
    ghost var listed: set<Loc> := {};
    while pending != {}
      invariant pending + listed == Below(t, dir)
      invariant Elements(found) == WalkedEntries(t, dir, prefix, listed)
      decreases |pending|
    {
      var f :| f in pending;
      OneMoreWalked(t, dir, prefix, listed, f);
      pending, listed := pending - {f}, listed + {f};
      var relPath := MakeRelPath(t, WalkedPath(t, dir, f), prefix);
      if relPath != [] {
        found := Pushed(found, FileEntry(relPath, |t.files[f]|, 0));
      }
    }
    assert listed == Below(t, dir);
  }

  lemma NoElements()
    ensures Elements([]) == {}
  {
  }

  lemma ElementsConcat(a: seq<FileEntry>, b: seq<FileEntry>)
    ensures Elements(a + b) == Elements(a) + Elements(b)
  {
    forall e ensures e in Elements(a + b) <==> e in Elements(a) || e in Elements(b) {
      assert e in Elements(a + b) <==> e in a + b;
      assert e in Elements(a) <==> e in a;
      assert e in Elements(b) <==> e in b;
    }
  }

  // ---- sorting and dropping duplicates ----

  /** std::sort: an ordered rearrangement. */
  method Sort(es: seq<FileEntry>) returns (r: seq<FileEntry>)
    ensures Sorted(r) && multiset(r) == multiset(es)
    ensures forall i, j :: 0 <= i < j < |r| ==> !ByteLess(r[j].relPath, r[i].relPath)
  {
    r := [];
    for i := 0 to |es|
      invariant Sorted(r) && multiset(r) == multiset(es[..i])
    {
      assert es[..i + 1] == es[..i] + [es[i]];
      r := Insert(r, es[i]);
    }
    assert es[..|es|] == es;
    SortedInBytes(r);
  }

  lemma SortedInBytes(es: seq<FileEntry>)
    requires Sorted(es)
    ensures forall i, j :: 0 <= i < j < |es| ==> !ByteLess(es[j].relPath, es[i].relPath)
  {
    hide Less, ByteLess;
    forall i, j | 0 <= i < j < |es| ensures !ByteLess(es[j].relPath, es[i].relPath) {
      LessIsByteLess(es[j].relPath, es[i].relPath);
    }
  }

  method Insert(es: seq<FileEntry>, e: FileEntry) returns (r: seq<FileEntry>)
    requires Sorted(es)
    ensures Sorted(r) && multiset(r) == multiset(es) + multiset{e}
  {
    hide Less, Sorted;
    var k: nat := |es|;
    while k > 0 && Less(e.relPath, es[k - 1].relPath)
      invariant k <= |es|
      invariant forall j :: k <= j < |es| ==> Less(e.relPath, es[j].relPath)
    {
      AllAbove(es, k - 1, e);
      k := k - 1;
    }
    AllBelow(es, k, e);
    InsertSorted(es, k, e);
    assert es == es[..k] + es[k..];
    r := es[..k] + [e] + es[k..];
  }

  lemma AllAbove(es: seq<FileEntry>, k: nat, e: FileEntry)
    requires Sorted(es) && k < |es| && Less(e.relPath, es[k].relPath)
    ensures forall j :: k <= j < |es| ==> Less(e.relPath, es[j].relPath)
  {
    hide Less;
    forall j | k <= j < |es| ensures Less(e.relPath, es[j].relPath) {
      LessThenNotAbove(e.relPath, es[k].relPath, es[j].relPath);
    }
  }

  lemma AllBelow(es: seq<FileEntry>, k: nat, e: FileEntry)
    requires Sorted(es) && k <= |es| && (k > 0 ==> !Less(e.relPath, es[k - 1].relPath))
    ensures forall j :: 0 <= j < k ==> !Less(e.relPath, es[j].relPath)
  {
    hide Less;
    forall j | 0 <= j < k ensures !Less(e.relPath, es[j].relPath) {
      NotBelowBoth(e.relPath, es[j].relPath, es[k - 1].relPath);
    }
  }

  lemma LessAsymmetric(a: Text, b: Text)
    ensures Less(a, b) ==> !Less(b, a)
  {
    hide Less;
    if Less(a, b) && Less(b, a) {
      LessTransitive(a, b, a);
      LessIrreflexive(a);
    }
  }

  lemma LessThenNotAbove(a: Text, b: Text, c: Text)
    requires Less(a, b) && (b == c || !Less(c, b))
    ensures Less(a, c)
  {
    hide Less;
    LessTotal(b, c);
    if Less(b, c) {
      LessTransitive(a, b, c);
    }
  }

  lemma NotBelowBoth(a: Text, b: Text, c: Text)
    requires !Less(a, c) && (b == c || !Less(c, b))
    ensures !Less(a, b)
  {
    hide Less;
    if Less(a, b) {
      LessThenNotAbove(a, b, c);
    }
  }

  lemma InsertSorted(es: seq<FileEntry>, k: nat, e: FileEntry)
    requires k <= |es| && Sorted(es)
    requires forall j :: 0 <= j < k ==> !Less(e.relPath, es[j].relPath)
    requires forall j :: k <= j < |es| ==> Less(e.relPath, es[j].relPath)
    ensures Sorted(es[..k] + [e] + es[k..])
  {
    hide Less;
    forall j | k <= j < |es| ensures !Less(es[j].relPath, e.relPath) {
      LessAsymmetric(e.relPath, es[j].relPath);
    }
    var r := es[..k] + [e] + es[k..];
    assert forall i :: 0 <= i < |r| ==> r[i] == if i < k then es[i] else if i == k then e else es[i - 1];
  }

  /** std::unique on a sorted list: the first of each run of equal paths stays. */
  method Unique(es: seq<FileEntry>) returns (kept: seq<FileEntry>)
    requires Sorted(es)
    ensures Increasing(kept) && Elements(kept) <= Elements(es)
    ensures PathSet(Elements(kept)) == PathSet(Elements(es))
  {
    hide Less, Elements, PathSet;
    kept := [];
    assert es[..0] == [];
    for i := 0 to |es|
      invariant Increasing(kept) && Elements(kept) <= Elements(es[..i])
      invariant PathSet(Elements(kept)) == PathSet(Elements(es[..i]))
      invariant i == 0 <==> kept == []
      invariant i > 0 ==> kept[|kept| - 1].relPath == es[i - 1].relPath
    {
      assert es[..i + 1] == Pushed(es[..i], es[i]);
      PathSetAdds(Elements(es[..i]), es[i]);
      if kept == [] || kept[|kept| - 1].relPath != es[i].relPath {
        if kept != [] {
          LessTotal(kept[|kept| - 1].relPath, es[i].relPath);
          NextIncreases(kept, es[i]);
        }
        PathSetAdds(Elements(kept), es[i]);
        kept := Pushed(kept, es[i]);
      } else {
        PathSetHas(kept, |kept| - 1);
      }
    }
    assert es[..|es|] == es;
  }

  lemma PathSetAdds(es: set<FileEntry>, e: FileEntry)
    ensures PathSet(es + {e}) == PathSet(es) + {e.relPath}
  {
  }

  lemma PathSetHas(es: seq<FileEntry>, i: nat)
    requires i < |es|
    ensures es[i].relPath in PathSet(Elements(es))
  {
    assert es[i] in Elements(es);
  }

  lemma NextIncreases(es: seq<FileEntry>, e: FileEntry)
    requires Increasing(es) && es != [] && Less(es[|es| - 1].relPath, e.relPath)
    ensures Increasing(es + [e])
  {
    hide Less;
    forall i | 0 <= i < |es| ensures Less(es[i].relPath, e.relPath) {
      if i < |es| - 1 {
        LessTransitive(es[i].relPath, es[|es| - 1].relPath, e.relPath);
      }
    }
  }

  lemma SameElements(a: seq<FileEntry>, b: seq<FileEntry>)
    requires multiset(a) == multiset(b)
    ensures Elements(a) == Elements(b)
  {
    forall e ensures e in Elements(a) <==> e in Elements(b) {
      assert e in Elements(a) <==> e in multiset(a);
      assert e in Elements(b) <==> e in multiset(b);
    }
  }

  // ---- the manifest ----

  /** Strictly increasing paths, the scanned path set, and only scanned entries. */
  predicate IsManifest(t: Tree, opts: SenderOptions, paths: seq<Text>, es: seq<FileEntry>)
    requires WellFormed(t)
  {
    Increasing(es) && Elements(es) <= ScannedAll(t, opts, paths) &&
    PathSet(Elements(es)) == PathSet(ScannedAll(t, opts, paths))
  }

  /** Every entry comes from one of the sources, and every path that any source gives rise to is listed. */
  ghost predicate Lists(t: Tree, opts: SenderOptions, paths: seq<Text>, es: seq<FileEntry>)
    requires WellFormed(t)
  {
    (forall e :: e in es ==> exists i :: 0 <= i < |paths| && e in Scanned(t, opts, paths[i])) &&
    (forall i, e :: 0 <= i < |paths| && e in Scanned(t, opts, paths[i]) ==> Listed(es, e.relPath))
  }

  ghost predicate Listed(es: seq<FileEntry>, p: Text) {
    exists k :: 0 <= k < |es| && es[k].relPath == p
  }

  /** A manifest is what lists the sources, source by source, in strictly increasing order. */
  lemma ManifestLists(t: Tree, opts: SenderOptions, paths: seq<Text>, es: seq<FileEntry>)
    requires WellFormed(t)
    ensures IsManifest(t, opts, paths, es) <==> Increasing(es) && Lists(t, opts, paths, es)
  {
    hide Scanned, ScannedAll, Increasing, WellFormed, Elements, PathSet;
    var all := ScannedAll(t, opts, paths);
    forall e ensures e in all <==> exists i :: 0 <= i < |paths| && e in Scanned(t, opts, paths[i]) {
      ScannedAllIff(t, opts, paths, e);
    }
    ElementsOf(es);
    PathSetOf(es, all);
  }

  lemma ElementsOf(es: seq<FileEntry>)
    ensures forall e :: e in Elements(es) <==> e in es
  {
  }

  /** Listed entries that are all scanned have the scanned paths exactly when every scanned path is listed. */
  lemma PathSetOf(es: seq<FileEntry>, all: set<FileEntry>)
    ensures Elements(es) <= all ==>
              (PathSet(Elements(es)) == PathSet(all) <==> forall e :: e in all ==> Listed(es, e.relPath))
  {
    forall p ensures p in PathSet(Elements(es)) <==> Listed(es, p) {
      if p in PathSet(Elements(es)) {
        var i := PathFound(es, p);
      }
      if i :| 0 <= i < |es| && es[i].relPath == p {
        PathSetHas(es, i);
      }
    }
    hide Elements, Listed;
    assert Elements(es) <= all ==> PathSet(Elements(es)) <= PathSet(all);
  }

  predicate AllExist(t: Tree, paths: seq<Text>) {
    forall i :: 0 <= i < |paths| ==> Exists(t, paths[i])
  }

  method ScanPath(t: Tree, p: Text, opts: SenderOptions) returns (found: seq<FileEntry>)
    requires WellFormed(t) && Exists(t, p)
    ensures Elements(found) == Scanned(t, opts, p)
  {
    hide RelPath, ParentText, Elements, WalkedEntries, Below;
    found := [];
    NoElements();
    if IsRegular(t, p) {
      var prefix := if opts.stripPrefix == [] then ParentText(p) else opts.stripPrefix;
      var relPath := MakeRelPath(t, p, prefix);
      if relPath != [] {
        found := Pushed([], FileEntry(relPath, |t.files[At(t, p)]|, 0));
      }
    } else if IsDirectory(t, p) {
      if opts.recursive {
        found := WalkDirectory(t, p, if opts.stripPrefix == [] then p else opts.stripPrefix);
      }
    }
  }

  lemma IncreasingInBytes(es: seq<FileEntry>)
    ensures Increasing(es) <==> forall i, j :: 0 <= i < j < |es| ==> ByteLess(es[i].relPath, es[j].relPath)
  {
    hide Less, ByteLess;
    forall i, j | 0 <= i < j < |es|
      ensures Less(es[i].relPath, es[j].relPath) <==> ByteLess(es[i].relPath, es[j].relPath)
    {
      LessIsByteLess(es[i].relPath, es[j].relPath);
    }
  }

  /** The order is decided: lists of increasing paths with the same path set have the same paths. */
  lemma {:induction false} IncreasingDetermined(a: seq<FileEntry>, b: seq<FileEntry>)
    requires Increasing(a) && Increasing(b) && PathSet(Elements(a)) == PathSet(Elements(b))
    ensures PathList(a) == PathList(b)
    decreases |a|
  {
    hide Less, Elements, PathSet;
    if a == [] || b == [] {
      NeitherEmpty(a, b);
    } else {
      FirstDetermined(a, b);
      TailPaths(a);
      TailPaths(b);
      IncreasingDetermined(a[1..], b[1..]);
      assert PathList(a) == [a[0].relPath] + PathList(a[1..]);
      assert PathList(b) == [b[0].relPath] + PathList(b[1..]);
    }
  }

  lemma NeitherEmpty(a: seq<FileEntry>, b: seq<FileEntry>)
    requires (a == [] || b == []) && PathSet(Elements(a)) == PathSet(Elements(b))
    ensures a == b
  {
    if a != [] {
      PathSetHas(a, 0);
    }
    if b != [] {
      PathSetHas(b, 0);
    }
  }

  lemma PathFound(es: seq<FileEntry>, p: Text) returns (i: nat)
    requires p in PathSet(Elements(es))
    ensures i < |es| && es[i].relPath == p
  {
    var e :| e in Elements(es) && e.relPath == p;
    i :| 0 <= i < |es| && es[i] == e;
  }

  lemma FirstDetermined(a: seq<FileEntry>, b: seq<FileEntry>)
    requires a != [] && b != [] && Increasing(a) && Increasing(b) && PathSet(Elements(a)) == PathSet(Elements(b))
    ensures a[0].relPath == b[0].relPath
  {
    hide Less, Elements, PathSet;
    PathSetHas(a, 0);
    PathSetHas(b, 0);
    var j := PathFound(b, a[0].relPath);
    var i := PathFound(a, b[0].relPath);
    LessAsymmetric(a[0].relPath, b[0].relPath);
  }

  lemma TailPaths(es: seq<FileEntry>)
    requires es != [] && Increasing(es)
    ensures Increasing(es[1..]) && PathSet(Elements(es[1..])) == PathSet(Elements(es)) - {es[0].relPath}
  {
    hide Less;
    var first := es[0].relPath;
    LessIrreflexive(first);
    forall p ensures p in PathSet(Elements(es[1..])) <==> p in PathSet(Elements(es)) && p != first {
      if p in PathSet(Elements(es)) && p != first {
        var i := PathFound(es, p);
        PathSetHas(es[1..], i - 1);
      }
      if p in PathSet(Elements(es[1..])) {
        var i := PathFound(es[1..], p);
        PathSetHas(es, i + 1);
      }
    }
  }

  predicate Distinct(es: set<FileEntry>) {
    forall e, f :: e in es && f in es && e.relPath == f.relPath ==> e == f
  }

  /** When no two scanned entries share a path, the manifest is a function of the tree. */
  lemma ManifestDetermined(t: Tree, opts: SenderOptions, paths: seq<Text>, a: seq<FileEntry>, b: seq<FileEntry>)
    requires WellFormed(t) && IsManifest(t, opts, paths, a) && IsManifest(t, opts, paths, b)
    requires Distinct(ScannedAll(t, opts, paths))
    ensures a == b
  {
    hide Less, ScannedAll, PathSet, WellFormed;
    IncreasingDetermined(a, b);
    forall i | 0 <= i < |a| ensures a[i] == b[i] {
      assert PathList(a)[i] == PathList(b)[i];
      assert a[i] in Elements(a) && b[i] in Elements(b);
    }
    assert |PathList(a)| == |PathList(b)|;
  }

  lemma Subset(a: set<FileEntry>, b: set<FileEntry>)
    requires a <= b
    ensures |a| <= |b|
  {
    assert b == a + (b - a);
  }

  lemma {:induction false} IncreasingIsDistinct(es: seq<FileEntry>)
    requires Increasing(es)
    ensures |Elements(es)| == |es|
    decreases |es|
  {
    hide Less;
    NoElements();
    if es == [] {
    } else {
      var init, last := es[..|es| - 1], es[|es| - 1];
      IncreasingIsDistinct(init);
      LessIrreflexive(last.relPath);
      assert Pushed(init, last) == es;
    }
  }

  /** A manifest has no more entries than the scan found, none with a checksum or an empty path. */
  lemma ManifestFresh(t: Tree, opts: SenderOptions, paths: seq<Text>, es: seq<FileEntry>)
    requires WellFormed(t) && IsManifest(t, opts, paths, es)
    ensures |es| <= |ScannedAll(t, opts, paths)|
    ensures forall e :: e in es ==> e.crc32 == 0 && e.relPath != []
  {
    hide Increasing, ScannedAll, WellFormed, Less, PathSet;
    IncreasingIsDistinct(es);
    Subset(Elements(es), ScannedAll(t, opts, paths));
    forall e | e in es ensures e.crc32 == 0 && e.relPath != [] {
      assert e in Elements(es);
      ScannedFresh(t, opts, paths, e);
    }
  }
}
