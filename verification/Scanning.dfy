/** What a scan lists, in terms of the tree and the options alone; and one regular file as the only source. */
module Scanning {
  import opened BitStrings
  import opened Wire
  import opened Crc32c
  import opened Paths
  import opened Transfers
  import opened Session
  import opened Manifest
  import opened Collect
  import opened Sending
  import opened SeveralSources

  /** The source p gives rise to the file at f: itself, or a file below it if directories are descended into. */
  predicate Yields(t: Tree, opts: SenderOptions, p: Text, f: Loc) {
    f in t.files && ((IsRegular(t, p) && f == At(t, p)) || (opts.recursive && IsDirectory(t, p) && At(t, p) < f))
  }

  /** What rel says of the file at f: with a prefix that exists, how to get from there to the file; without a prefix,
      for a file below a directory, the names from there on; and else its bare name. */
  predicate PathFits(t: Tree, opts: SenderOptions, p: Text, f: Loc, rel: Text)
    requires f != []
  {
    rel != [] &&
    if opts.stripPrefix != [] && Exists(t, opts.stripPrefix) then
      !Absolute(rel) && Walk(At(t, opts.stripPrefix), Names(rel)) == f
    else if opts.stripPrefix == [] && At(t, p) < f then
      rel == PathOf(f[|At(t, p)|..])
    else
      rel == f[|f| - 1]
  }

  /** The entry of the file at f. */
  predicate Describes(t: Tree, opts: SenderOptions, p: Text, f: Loc, e: FileEntry) {
    Yields(t, opts, p, f) && f != [] && PathFits(t, opts, p, f, e.relPath) && e.size == |t.files[f]| && e.crc32 == 0
  }

  /** A source that is a file does not end in '..'. */
  predicate Ordinary(t: Tree, p: Text) {
    IsRegular(t, p) ==> FileName(p) != [0x2E, 0x2E]
  }

  // ---- paths ----

  lemma RelativeWalksBack(f: Loc, base: Loc)
    requires Plain(f) && f != base
    ensures var rel := Relative(f, base);
            rel != [] && !Absolute(rel) && DropDotSlash(rel) == rel && Walk(base, Names(rel)) == f
  {
    hide PathOf, Walk, Names, CommonPrefix, DropDotSlash, Relative, Plain, Ups;
    var n := CommonPrefix(f, base);
    var names := Ups(|base| - n) + f[n..];
    RelativeNames(f, base);
    PathOfNames(names);
    PathStarts(names);
    WalkUps(base, |base| - n, f[n..]);
    WalkPlain(Climbed(base, |base| - n), f[n..]);
    assert base[..n] + f[n..] == f;
  }

  /** With a prefix that exists, the manifest path leads from the prefix to the file. */
  lemma RelPathLeads(t: Tree, path: Text, prefix: Text)
    requires prefix != [] && Exists(t, prefix) && Plain(At(t, path))
    ensures var rel := RelPath(t, path, prefix);
            rel != [] && !Absolute(rel) && Walk(At(t, prefix), Names(rel)) == At(t, path)
  {
    hide At, Exists, Relative, DropDotSlash, Walk, Names, FileName, Plain;
    if At(t, path) == At(t, prefix) {
      SelfRelative(At(t, path));
      DotStays(At(t, path));
    } else {
      RelativeWalksBack(At(t, path), At(t, prefix));
    }
  }

  lemma DotStays(at: Loc)
    ensures Walk(at, Names(DOT)) == at && !Absolute(DOT)
  {
    NamesOfName(DOT);
    assert [DOT][1..] == [];
  }

  lemma FileNameIsNamed(t: Tree, p: Text)
    requires WellFormed(t) && IsRegular(t, p) && FileName(p) != DOTDOT
    ensures At(t, p) != [] && At(t, p)[|At(t, p)| - 1] == FileName(p)
    ensures FileName(p) != [] && FileName(p) != DOT && SLASH !in FileName(p) && Plain(At(t, p))
  {
    hide Names, FileName, Walk, Components, ParentText;
    FileNameIsLast(p);
    var names, last := Names(p), FileName(p);
    var start := if Absolute(p) then [] else t.cwd;
    WalkNames(t.cwd, p);
    assert names == names[..|names| - 1] + [last];
    WalkConcat(start, names[..|names| - 1], [last]);
    StepInBytes(Walk(start, names[..|names| - 1]), [], last);
    WalkOne(Walk(start, names[..|names| - 1]), last);
  }

  lemma WalkOne(at: Loc, name: Text)
    ensures Walk(at, [name]) == Step(at, name)
  {
    assert [name][1..] == [];
  }

  // ---- entries ----

  /** A regular-file source is listed once, as described. */
  lemma FileDescribed(t: Tree, opts: SenderOptions, p: Text)
    requires WellFormed(t) && IsRegular(t, p) && FileName(p) != DOTDOT
    ensures var e := FileAt(t, p, PrefixOf(t, opts, p)); Describes(t, opts, p, At(t, p), e)
    ensures opts.stripPrefix == [] ==> FileAt(t, p, PrefixOf(t, opts, p)).relPath == FileName(p)
  {
    hide At, Exists, FileName, ParentText, Walk, Names, Plain;
    FileNameIsNamed(t, p);
    FileSourceName(t, p);
    if opts.stripPrefix != [] {
      if Exists(t, opts.stripPrefix) {
        RelPathLeads(t, p, opts.stripPrefix);
      } else {
        OneName(FileName(p));
        PathStarts([FileName(p)]);
      }
    }
  }

  lemma WalkedDescribed(t: Tree, opts: SenderOptions, dir: Text, f: Loc)
    requires WellFormed(t) && IsDirectory(t, dir) && opts.recursive && f in Below(t, dir)
    ensures Describes(t, opts, dir, f, WalkedEntry(t, dir, f, PrefixOf(t, opts, dir)))
  {
    hide At, Exists, FileName, ParentText, Walk, Names, PathOf, Join, RelPath, IsRegular;
    var names := f[|At(t, dir)|..];
    assert At(t, dir) + names == f;
    PlainSuffix(At(t, dir), names);
    AtIs(t, dir);
    AtIs(t, WalkedPath(t, dir, f));
    JoinedPlace(t.cwd, dir, names);
    NotBoth(t, dir);
    if opts.stripPrefix == [] {
      WalkedFileRoundTrip(t, dir, names, FileEntry([], 0, 0));
      PathOfNames(names);
    } else if Exists(t, opts.stripPrefix) {
      RelPathLeads(t, WalkedPath(t, dir, f), opts.stripPrefix);
    } else {
      BareName(t, dir, opts.stripPrefix, names);
    }
  }

  lemma NotBoth(t: Tree, p: Text)
    requires WellFormed(t) && IsDirectory(t, p)
    ensures !IsRegular(t, p)
  {
  }

  /** Every entry of a source describes a file of that source. */
  lemma EntryDescribes(t: Tree, opts: SenderOptions, p: Text, e: FileEntry) returns (f: Loc)
    requires WellFormed(t) && Ordinary(t, p) && e in Scanned(t, opts, p)
    ensures Describes(t, opts, p, f, e)
  {
    hide At, RelPath, Describes, WalkedEntry;
    if IsRegular(t, p) {
      FileDescribed(t, opts, p);
      f := At(t, p);
    } else {
      f :| f in Below(t, p) && e == WalkedEntry(t, p, f, PrefixOf(t, opts, p));
      WalkedDescribed(t, opts, p, f);
    }
  }

  /** And every file of a source has an entry. */
  lemma FileHasEntry(t: Tree, opts: SenderOptions, p: Text, f: Loc) returns (e: FileEntry)
    requires WellFormed(t) && Ordinary(t, p) && Yields(t, opts, p, f)
    ensures e in Scanned(t, opts, p) && Describes(t, opts, p, f, e)
  {
    hide At, RelPath, WalkedEntry, Exists;
    if IsRegular(t, p) && f == At(t, p) {
      FileDescribed(t, opts, p);
      e := FileAt(t, p, PrefixOf(t, opts, p));
    } else {
      NotBoth(t, p);
      WalkedDescribed(t, opts, p, f);
      e := WalkedEntry(t, p, f, PrefixOf(t, opts, p));
    }
  }

  // ---- the manifest ----

  ghost predicate EntryAccounted(t: Tree, opts: SenderOptions, paths: seq<Text>, e: FileEntry) {
    exists i, f :: 0 <= i < |paths| && Describes(t, opts, paths[i], f, e)
  }

  ghost predicate FileAccounted(t: Tree, opts: SenderOptions, p: Text, f: Loc, es: seq<FileEntry>)
    requires f != []
  {
    exists k :: 0 <= k < |es| && PathFits(t, opts, p, f, es[k].relPath)
  }

  /** What CollectFiles lists, whatever the options: only entries that describe a file of some source, and for every
      file of every source a path that fits it. Without recursion no directory contributes. */
  ghost predicate Accounts(t: Tree, opts: SenderOptions, paths: seq<Text>, es: seq<FileEntry>) {
    (forall k :: 0 <= k < |es| ==> EntryAccounted(t, opts, paths, es[k])) &&
    (forall i, f :: 0 <= i < |paths| && Yields(t, opts, paths[i], f) && f != [] ==>
       FileAccounted(t, opts, paths[i], f, es))
  }

  lemma ManifestAccounts(t: Tree, opts: SenderOptions, paths: seq<Text>, es: seq<FileEntry>)
    requires WellFormed(t) && IsManifest(t, opts, paths, es)
    requires forall i :: 0 <= i < |paths| ==> Ordinary(t, paths[i])
    ensures Accounts(t, opts, paths, es)
  {
    hide IsManifest, Scanned, Describes, Yields, PathFits, WellFormed, Ordinary, Increasing, FileAccounted;
    ManifestLists(t, opts, paths, es);
    forall k | 0 <= k < |es| ensures EntryAccounted(t, opts, paths, es[k]) {
      assert es[k] in es;
      var i :| 0 <= i < |paths| && es[k] in Scanned(t, opts, paths[i]);
      var f := EntryDescribes(t, opts, paths[i], es[k]);
    }
    forall i, f | 0 <= i < |paths| && Yields(t, opts, paths[i], f) && f != []
      ensures FileAccounted(t, opts, paths[i], f, es)
    {
      var e := FileHasEntry(t, opts, paths[i], f);
      DescribedIsAccounted(t, opts, paths[i], f, e, es);
    }
  }

  lemma DescribedIsAccounted(t: Tree, opts: SenderOptions, p: Text, f: Loc, e: FileEntry, es: seq<FileEntry>)
    requires Describes(t, opts, p, f, e) && Listed(es, e.relPath)
    ensures f != [] && FileAccounted(t, opts, p, f, es)
  {
    hide PathFits, Yields;
    var k :| 0 <= k < |es| && es[k].relPath == e.relPath;
    assert PathFits(t, opts, p, f, es[k].relPath);
  }

  method CollectFiles(t: Tree, paths: seq<Text>, opts: SenderOptions, ec0: Errc) returns (es: seq<FileEntry>, ec: Errc)
    requires WellFormed(t)
    ensures !AllExist(t, paths) ==> es == [] && ec == NoSuchFile
    ensures AllExist(t, paths) ==> IsManifest(t, opts, paths, es) && Lists(t, opts, paths, es) && ec == ec0
    // in byte order, and in terms of the files of the tree
    ensures forall i, j :: 0 <= i < j < |es| ==> ByteLess(es[i].relPath, es[j].relPath)
    ensures AllExist(t, paths) && (forall i :: 0 <= i < |paths| ==> Ordinary(t, paths[i])) ==>
              Accounts(t, opts, paths, es)
  {
    hide WellFormed, Exists, Scanned, Elements, PathSet, Sorted, Increasing, Lists, Accounts, Ordinary;
    es, ec := [], ec0;
    NoElements();
    for i := 0 to |paths|
      invariant forall j :: 0 <= j < i ==> Exists(t, paths[j])
      invariant Elements(es) == ScannedAll(t, opts, paths[..i])
    {
      if !Exists(t, paths[i]) {
        return [], NoSuchFile;
      }
      var found := ScanPath(t, paths[i], opts);
      ElementsConcat(es, found);
      assert paths[..i + 1][..i] == paths[..i];
      es := es + found;
    }
    assert paths[..|paths|] == paths;
    ghost var scanned := es;
    es := Sort(es);
    SameElements(es, scanned);
    es := Unique(es);
    ManifestLists(t, opts, paths, es);
    IncreasingInBytes(es);
    if forall i :: 0 <= i < |paths| ==> Ordinary(t, paths[i]) {
      ManifestAccounts(t, opts, paths, es);
    }
  }

  // ---- one regular file ----

  lemma OneFileFound(t: Tree, p: Text, e: FileEntry)
    requires WellFormed(t) && IsRegular(t, p)
    ensures Resolve(t, [p], e) == Some(p) && FoundAt(t, [p], e, At(t, p))
  {
    hide At;
  }

  /** The manifest of one regular file without a prefix. */
  lemma OneFileListed(t: Tree, opts: SenderOptions, p: Text, es: seq<FileEntry>)
    requires WellFormed(t) && IsRegular(t, p) && FileName(p) != DOTDOT && opts.stripPrefix == []
    requires IsManifest(t, opts, [p], es)
    ensures es == [FileEntry(FileName(p), |t.files[At(t, p)]|, 0)]
  {
    hide At, FileName, RelPath, ParentText, PathFits, Less;
    FileDescribed(t, opts, p);
    FileNameIsNamed(t, p);
    var e := FileEntry(FileName(p), |t.files[At(t, p)]|, 0);
    assert [p][..0] == [];
    assert ScannedAll(t, opts, [p]) == ScannedAll(t, opts, []) + Scanned(t, opts, p) == {e};
    OnlyOne(es, e);
  }

  lemma OnlyOne(es: seq<FileEntry>, e: FileEntry)
    requires Increasing(es) && Elements(es) <= {e} && PathSet(Elements(es)) == PathSet({e})
    ensures es == [e]
  {
    hide Less;
    assert e.relPath in PathSet({e});
    var i := PathFound(es, e.relPath);
    assert es[i] in Elements(es);
    IncreasingIsDistinct(es);
    Subset(Elements(es), {e});
  }

  /** It is sent under its name, with its content. */
  lemma OneFileSent(t: Tree, opts: SenderOptions, p: Text, es: seq<FileEntry>)
    requires WellFormed(t) && IsRegular(t, p) && FileName(p) != DOTDOT && opts.stripPrefix == []
    requires IsManifest(t, opts, [p], es) && At(t, p) !in t.locked && |FileName(p)| <= 0xFFFF
    ensures var c := t.files[At(t, p)];
            Outgoing(t, [p], es) == [Source(FileEntry(FileName(p), |c|, Checksum(c)), c)] &&
            AllServable(t, [p], es) && AllSendable(Outgoing(t, [p], es))
  {
    hide At, FileName, Resolve, IsManifest, Checksum;
    OneFileListed(t, opts, p, es);
    var c, e := t.files[At(t, p)], es[0];
    var filled := e.(crc32 := Checksum(c));
    OneFileFound(t, p, e);
    OneFileFound(t, p, filled);
    assert c[..|c|] == c;
    assert FilledAll(t, [p], es) == [filled];
    assert Outgoing(t, [p], es) == [Source(filled, c)];
  }
}
