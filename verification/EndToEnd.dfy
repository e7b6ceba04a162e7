/** From a directory tree on the sender's side to the same tree on the receiver's side. */
module EndToEnd {
  import opened BitStrings
  import opened Crc32c
  import opened Wire
  import opened Paths
  import opened Disk
  import opened Transfers
  import opened Session
  import opened SessionTheory
  import opened Delivery
  import opened Manifest
  import opened Collect
  import opened Sending
  import opened Outbound
  import opened Duplex

  /** One directory is sent recursively, with paths relative to it; all its files can be opened, and their
      paths can be encoded and are acceptable to a receiver. */
  predicate SourceDirectory(t: Tree, opts: SenderOptions, dir: Text) {
    WellFormed(t) && IsDirectory(t, dir) && opts.recursive && opts.stripPrefix == [] &&
    forall f :: f in Below(t, dir) ==> f !in t.locked && Transferable(f[|At(t, dir)|..])
  }

  predicate Transferable(names: Loc) {
    |PathOf(names)| <= 0xFFFF && BACKSLASH !in names
  }

  /** The file below dir by these names. */
  predicate Has(t: Tree, dir: Text, names: Loc) {
    names != [] && At(t, dir) + names in t.files
  }

  function ContentOf(t: Tree, dir: Text, names: Loc): (c: seq<byte>)
    requires WellFormed(t) && Has(t, dir, names)
    ensures |c| < 0x8000_0000_0000_0000
  {
    t.files[At(t, dir) + names]
  }

  /** What is sent for it. */
  function SourceAt(t: Tree, dir: Text, names: Loc): Source
    requires WellFormed(t) && Has(t, dir, names)
  {
    var c := ContentOf(t, dir, names);
    Source(FileEntry(PathOf(names), |c|, Checksum(c)), c)
  }

  lemma HasPlainNames(t: Tree, opts: SenderOptions, dir: Text, names: Loc)
    requires SourceDirectory(t, opts, dir) && Has(t, dir, names)
    ensures Plain(names) && Transferable(names) && At(t, dir) + names !in t.locked
  {
    hide Transferable;
    var f := At(t, dir) + names;
    assert f in Below(t, dir) && f[|At(t, dir)|..] == names;
    assert Plain(f);
    assert forall i :: 0 <= i < |names| ==> names[i] == f[|At(t, dir)| + i];
  }

  // ---- the manifest of a directory ----

  lemma WalkedEntryIs(t: Tree, opts: SenderOptions, dir: Text, names: Loc)
    requires SourceDirectory(t, opts, dir) && Has(t, dir, names)
    ensures At(t, dir) + names in Below(t, dir)
    ensures WalkedEntry(t, dir, At(t, dir) + names, dir) == SourceAt(t, dir, names).entry.(crc32 := 0)
    ensures PathOf(names) != []
  {
    hide RelPath, Join, Transferable, Checksum, PathOf;
    HasPlainNames(t, opts, dir, names);
    PathOfNames(names);
    WalkedFileRoundTrip(t, dir, names, FileEntry(PathOf(names), 0, 0));
    var f := At(t, dir) + names;
    assert f[|At(t, dir)|..] == names;
  }

  lemma ScanIsWalk(t: Tree, opts: SenderOptions, dir: Text)
    requires SourceDirectory(t, opts, dir)
    ensures ScannedAll(t, opts, [dir]) == WalkedEntries(t, dir, dir, Below(t, dir))
  {
    hide WalkedEntries, Below;
    assert [dir][..0] == [];
    assert ScannedAll(t, opts, [dir]) == ScannedAll(t, opts, []) + Scanned(t, opts, dir);
  }

  lemma WalkedHas(t: Tree, opts: SenderOptions, dir: Text, e: FileEntry) returns (names: Loc)
    requires SourceDirectory(t, opts, dir) && e in WalkedEntries(t, dir, dir, Below(t, dir))
    ensures Has(t, dir, names) && e == SourceAt(t, dir, names).entry.(crc32 := 0)
  {
    hide WalkedEntry, SourceAt;
    var f :| f in Below(t, dir) && e == WalkedEntry(t, dir, f, dir);
    names := f[|At(t, dir)|..];
    assert At(t, dir) + names == f;
    WalkedEntryIs(t, opts, dir, names);
  }

  lemma HasWalked(t: Tree, opts: SenderOptions, dir: Text, names: Loc)
    requires SourceDirectory(t, opts, dir) && Has(t, dir, names)
    ensures SourceAt(t, dir, names).entry.(crc32 := 0) in WalkedEntries(t, dir, dir, Below(t, dir))
  {
    hide WalkedEntry, WellFormed, ContentOf;
    WalkedEntryIs(t, opts, dir, names);
  }

  /** The scan finds exactly the files below the directory. */
  lemma DirectoryScan(t: Tree, opts: SenderOptions, dir: Text, e: FileEntry)
    requires SourceDirectory(t, opts, dir)
    ensures e in ScannedAll(t, opts, [dir]) <==>
            exists names :: Has(t, dir, names) && e == SourceAt(t, dir, names).entry.(crc32 := 0)
  {
    hide WalkedEntries, SourceAt, ScannedAll, WellFormed, Has;
    ScanIsWalk(t, opts, dir);
    if e in WalkedEntries(t, dir, dir, Below(t, dir)) {
      var names := WalkedHas(t, opts, dir, e);
    }
    if names :| Has(t, dir, names) && e == SourceAt(t, dir, names).entry.(crc32 := 0) {
      HasWalked(t, opts, dir, names);
    }
  }

  lemma PathNamesFile(names: Loc)
    requires Plain(names) && names != []
    ensures NamesFile(PathOf(names))
  {
    hide Names, PathOf;
    PathOfNames(names);
  }

  /** A manifest entry is found again on disk, with its content, and can be opened. */
  lemma EntryResolves(t: Tree, opts: SenderOptions, dir: Text, names: Loc, e: FileEntry)
    requires SourceDirectory(t, opts, dir) && Has(t, dir, names) && e.relPath == PathOf(names)
    ensures Backing(t, [dir], e) == ContentOf(t, dir, names) && Servable(t, [dir], e)
  {
    hide RelPath, Join, Transferable, PathOf, Locate, FirstCandidate, NamesFile;
    HasPlainNames(t, opts, dir, names);
    PathOfNames(names);
    WalkedFileRoundTrip(t, dir, names, e);
    PathNamesFile(names);
    JoinNamesFile(dir, PathOf(names));
    assert IsRegular(t, Join(dir, PathOf(names)));
  }

  lemma EntryFilled(t: Tree, opts: SenderOptions, dir: Text, names: Loc)
    requires SourceDirectory(t, opts, dir) && Has(t, dir, names)
    ensures var e := SourceAt(t, dir, names).entry.(crc32 := 0);
            SourceOf(t, [dir], Filled(t, [dir], e)) == SourceAt(t, dir, names) &&
            Servable(t, [dir], e)
  {
    hide Backing, Servable, Checksum, PathOf, WellFormed, Has;
    var x := SourceAt(t, dir, names);
    EntryResolves(t, opts, dir, names, x.entry.(crc32 := 0));
    EntryResolves(t, opts, dir, names, Filled(t, [dir], x.entry.(crc32 := 0)));
    assert UpTo(x.content, x.entry.size) == x.content;
  }

  /** The manifest of a directory, as it is sent: record i is the file with names NamesAt(i). */
  function NamesAt(es: seq<FileEntry>, i: nat): Loc
    requires i < |es|
  {
    Names(es[i].relPath)
  }

  lemma RecordIs(t: Tree, opts: SenderOptions, dir: Text, es: seq<FileEntry>, i: nat)
    requires SourceDirectory(t, opts, dir) && IsManifest(t, opts, [dir], es) && i < |es|
    ensures Has(t, dir, NamesAt(es, i)) && Outgoing(t, [dir], es)[i] == SourceAt(t, dir, NamesAt(es, i))
    ensures Servable(t, [dir], es[i]) && es[i].relPath == PathOf(NamesAt(es, i))
  {
    hide ScannedAll, Names, Increasing, PathSet, PathOf, Servable, SourceAt, Filled, SourceOf, WellFormed;
    assert es[i] in Elements(es);
    DirectoryScan(t, opts, dir, es[i]);
    var names :| Has(t, dir, names) && es[i] == SourceAt(t, dir, names).entry.(crc32 := 0);
    EntryFilled(t, opts, dir, names);
    EntryNames(t, opts, dir, names);
  }

  lemma EntryNames(t: Tree, opts: SenderOptions, dir: Text, names: Loc)
    requires SourceDirectory(t, opts, dir) && Has(t, dir, names)
    ensures var e := SourceAt(t, dir, names).entry; Names(e.relPath) == names && e.relPath == PathOf(names)
  {
    hide Names, PathOf, Checksum, Transferable;
    HasPlainNames(t, opts, dir, names);
    PathOfNames(names);
  }

  /** No file is missing from it. */
  lemma EveryFileListed(t: Tree, opts: SenderOptions, dir: Text, es: seq<FileEntry>, names: Loc) returns (i: nat)
    requires SourceDirectory(t, opts, dir) && IsManifest(t, opts, [dir], es) && Has(t, dir, names)
    ensures i < |es| && NamesAt(es, i) == names
  {
    hide ScannedAll, Names, Increasing, PathSet, PathOf, SourceAt, WellFormed, Elements, Has;
    var e := SourceAt(t, dir, names).entry.(crc32 := 0);
    DirectoryScan(t, opts, dir, e);
    EntryNames(t, opts, dir, names);
    InPathSet(ScannedAll(t, opts, [dir]), e);
    i := PathFound(es, e.relPath);
  }

  lemma InPathSet(es: set<FileEntry>, e: FileEntry)
    requires e in es
    ensures e.relPath in PathSet(es)
  {
  }

  // ---- the receiving side ----

  /** The output directory exists or will be made, nothing lies below it, and the file system grants everything. */
  predicate Vacant(env: Env, createDir: bool, store: Store) {
    var s := Prepared(env, createDir, store);
    env.outDir != [] && s.answers == [] && TreeLike(s) && Base(env) in s.dirs &&
    (forall l :: l in s.files ==> !(Base(env) < l)) && (forall l :: l in s.dirs ==> !(Base(env) < l))
  }

  lemma FilePath(names: Loc)
    requires Plain(names) && names != [] && BACKSLASH !in names
    ensures Safe(PathOf(names)) && NamesFile(PathOf(names)) && PathOf(names) != []
  {
    hide Names, PathOf;
    PathOfNames(names);
    PathNamesFile(names);
    assert DOTDOT !in names by {
      forall i | 0 <= i < |names| ensures names[i] != DOTDOT {
      }
    }
  }

  lemma PlaceAt(env: Env, names: Loc, e: FileEntry)
    requires env.outDir != [] && Plain(names) && names != [] && e.relPath == PathOf(names)
    ensures Place(env, e) == Base(env) + names
  {
    hide Join, PathOf, Locate;
    JoinedPlace(env.cwd, env.outDir, names);
  }

  lemma VacantIsFree(env: Env, createDir: bool, store: Store, names: Loc, e: FileEntry)
    requires Vacant(env, createDir, store) && Plain(names) && names != [] && e.relPath == PathOf(names)
    ensures Free(env, Prepared(env, createDir, store), e)
  {
    hide PathOf, MakeDirs, Locate, Place, Base, Prepared;
    PlaceAt(env, names, e);
    var s, base, p := Prepared(env, createDir, store), Base(env), Place(env, e);
    assert base < p;
    forall k | 0 <= k < |p| ensures p[..k] !in s.files {
      if k <= |base| {
        assert p[..k] == base[..k];
      } else {
        assert base < p[..k];
      }
    }
  }

  lemma SourceIsWelcome(t: Tree, opts: SenderOptions, dir: Text, names: Loc, env: Env)
    requires SourceDirectory(t, opts, dir) && Has(t, dir, names)
    ensures Welcome(env, SourceAt(t, dir, names)) && Sendable(SourceAt(t, dir, names))
    ensures NamesFile(SourceAt(t, dir, names).entry.relPath) && Plain(names)
  {
    hide PathOf, Checksum, Safe, NamesFile, Has;
    HasPlainNames(t, opts, dir, names);
    NotEmpty(t, dir, names);
    FilePath(names);
  }

  lemma NotEmpty(t: Tree, dir: Text, names: Loc)
    requires Has(t, dir, names)
    ensures names != []
  {
  }

  /** No file is below another, and no two records are the same file. */
  lemma RecordsApart(t: Tree, opts: SenderOptions, dir: Text, es: seq<FileEntry>, i: nat, j: nat)
    requires SourceDirectory(t, opts, dir) && IsManifest(t, opts, [dir], es) && i < |es| && j < |es| && i != j
    ensures !(NamesAt(es, i) <= NamesAt(es, j))
  {
    hide SourceAt, Outgoing, PathOf, Servable, WellFormed, NamesAt, Has, Below, IsManifest;
    RecordIs(t, opts, dir, es, i);
    RecordIs(t, opts, dir, es, j);
    PathsDiffer(t, opts, dir, es, i, j);
    if NamesAt(es, i) <= NamesAt(es, j) {
      NoFileBelowFile(t, dir, NamesAt(es, i), NamesAt(es, j));
    }
  }

  lemma PathsDiffer(t: Tree, opts: SenderOptions, dir: Text, es: seq<FileEntry>, i: nat, j: nat)
    requires WellFormed(t) && IsManifest(t, opts, [dir], es) && i < |es| && j < |es| && i != j
    ensures es[i].relPath != es[j].relPath
  {
    hide ScannedAll, PathSet, Elements, Less, WellFormed;
    LessIrreflexive(es[i].relPath);
  }

  lemma NoFileBelowFile(t: Tree, dir: Text, a: Loc, b: Loc)
    requires WellFormed(t) && Has(t, dir, a) && Has(t, dir, b) && a <= b
    ensures a == b
  {
    hide At;
    var f := At(t, dir) + b;
    assert f[..|At(t, dir)| + |a|] == At(t, dir) + a;
  }

  /** Whatever the manifest of a directory is, the receiver is ready for it. */
  lemma DirectoryReady(t: Tree, opts: SenderOptions, dir: Text, es: seq<FileEntry>, env: Env, createDir: bool,
                       store: Store)
    requires SourceDirectory(t, opts, dir) && IsManifest(t, opts, [dir], es) && |es| < 0x1_0000_0000_0000_0000
    requires Vacant(env, createDir, store)
    ensures var xs := Outgoing(t, [dir], es); Ready(env, createDir, store, xs) && AllSendable(xs)
    ensures AllServable(t, [dir], es)
  {
    hide SourceDirectory, IsManifest, SourceAt, Names, Place, Base, Prepared, Free, Safe, NamesFile, Welcome, TreeLike,
      Servable, Sendable, Outgoing, PathOf, WellFormed, NamesAt;
    var xs := Outgoing(t, [dir], es);
    forall i | 0 <= i < |es|
      ensures Welcome(env, xs[i]) && Sendable(xs[i]) && Servable(t, [dir], es[i])
      ensures Safe(xs[i].entry.relPath) && NamesFile(xs[i].entry.relPath)
      ensures Free(env, Prepared(env, createDir, store), xs[i].entry)
    {
      RecordReady(t, opts, dir, es, i, env, createDir, store);
    }
    forall i, j | 0 <= i < |es| && 0 <= j < |es| && i != j
      ensures !(Place(env, xs[i].entry) <= Place(env, xs[j].entry))
    {
      PlacesApart(t, opts, dir, es, i, j, env);
    }
    assert Unrelated(env, xs);
  }

  lemma RecordReady(t: Tree, opts: SenderOptions, dir: Text, es: seq<FileEntry>, i: nat, env: Env, createDir: bool,
                    store: Store)
    requires SourceDirectory(t, opts, dir) && IsManifest(t, opts, [dir], es) && i < |es| &&
             Vacant(env, createDir, store)
    ensures var x := Outgoing(t, [dir], es)[i];
            Welcome(env, x) && Sendable(x) && Servable(t, [dir], es[i]) && Safe(x.entry.relPath) &&
            NamesFile(x.entry.relPath) && Free(env, Prepared(env, createDir, store), x.entry)
  {
    hide IsManifest, Names, Place, Base, Prepared, Free, Safe, NamesFile, TreeLike, Servable, Sendable, Outgoing,
      PathOf, Checksum, Vacant;
    RecordIs(t, opts, dir, es, i);
    var names := NamesAt(es, i);
    SourceIsWelcome(t, opts, dir, names, env);
    NotEmpty(t, dir, names);
    VacantIsFree(env, createDir, store, names, Outgoing(t, [dir], es)[i].entry);
  }

  lemma PlaceOfRecord(t: Tree, opts: SenderOptions, dir: Text, es: seq<FileEntry>, i: nat, env: Env)
    requires SourceDirectory(t, opts, dir) && IsManifest(t, opts, [dir], es) && i < |es| && env.outDir != []
    ensures Place(env, Outgoing(t, [dir], es)[i].entry) == Base(env) + NamesAt(es, i)
  {
    hide IsManifest, Names, Place, Base, Servable, Outgoing, PathOf, Checksum, Welcome, Sendable, NamesFile;
    RecordIs(t, opts, dir, es, i);
    var names := NamesAt(es, i);
    SourceIsWelcome(t, opts, dir, names, env);
    NotEmpty(t, dir, names);
    PlaceAt(env, names, Outgoing(t, [dir], es)[i].entry);
  }

  lemma PlacesApart(t: Tree, opts: SenderOptions, dir: Text, es: seq<FileEntry>, i: nat, j: nat, env: Env)
    requires SourceDirectory(t, opts, dir) && IsManifest(t, opts, [dir], es) && i < |es| && j < |es| && i != j
    requires env.outDir != []
    ensures var xs := Outgoing(t, [dir], es); !(Place(env, xs[i].entry) <= Place(env, xs[j].entry))
  {
    hide IsManifest, Names, Place, Base, Outgoing, SourceDirectory, NamesAt;
    PlaceOfRecord(t, opts, dir, es, i, env);
    PlaceOfRecord(t, opts, dir, es, j, env);
    RecordsApart(t, opts, dir, es, i, j);
    UnderSameBase(Base(env), NamesAt(es, i), NamesAt(es, j));
  }

  lemma UnderSameBase(base: Loc, a: Loc, b: Loc)
    ensures base + a <= base + b ==> a <= b
  {
    if base + a <= base + b {
      assert a == (base + a)[|base|..] && b[..|a|] == (base + b)[|base|..|base + a|];
    }
  }

  // ---- the copy ----

  /** m has exactly the files below dir, moved to base. */
  predicate Mirrors(t: Tree, dir: Text, base: Loc, m: map<Loc, seq<byte>>)
    requires WellFormed(t)
  {
    (forall l :: l in m ==> base <= l && Has(t, dir, l[|base|..]) && m[l] == ContentOf(t, dir, l[|base|..])) &&
    (forall f :: f in Below(t, dir) ==> base + f[|At(t, dir)|..] in m)
  }

  lemma RecordContent(t: Tree, opts: SenderOptions, dir: Text, es: seq<FileEntry>, i: nat)
    requires SourceDirectory(t, opts, dir) && IsManifest(t, opts, [dir], es) && i < |es|
    ensures Has(t, dir, NamesAt(es, i)) && Outgoing(t, [dir], es)[i].content == ContentOf(t, dir, NamesAt(es, i))
  {
    hide IsManifest, Names, Outgoing, Has, NamesAt;
    RecordIs(t, opts, dir, es, i);
  }

  lemma FilesMirror(t: Tree, opts: SenderOptions, dir: Text, es: seq<FileEntry>, env: Env)
    requires SourceDirectory(t, opts, dir) && IsManifest(t, opts, [dir], es) && env.outDir != []
    requires Unrelated(env, Outgoing(t, [dir], es))
    ensures Mirrors(t, dir, Base(env), FilesOf(env, Outgoing(t, [dir], es)))
  {
    hide IsManifest, Names, Place, Base, Outgoing, Has, NamesAt, FilesOf, ContentOf, Unrelated;
    var xs, base := Outgoing(t, [dir], es), Base(env);
    var m := FilesOf(env, xs);
    forall l | l in m
      ensures base <= l && Has(t, dir, l[|base|..]) && m[l] == ContentOf(t, dir, l[|base|..])
    {
      FilesOfOnly(env, xs, l);
      var i :| 0 <= i < |xs| && l == Place(env, xs[i].entry);
      FilesOfEach(env, xs, i);
      PlaceOfRecord(t, opts, dir, es, i, env);
      RecordContent(t, opts, dir, es, i);
      assert l[|base|..] == NamesAt(es, i);
    }
    forall f | f in Below(t, dir) ensures base + f[|At(t, dir)|..] in m {
      BelowHas(t, dir, f);
      var i := EveryFileListed(t, opts, dir, es, f[|At(t, dir)|..]);
      PlaceOfRecord(t, opts, dir, es, i, env);
      FilesOfOnly(env, xs, Place(env, xs[i].entry));
    }
  }

  lemma BelowHas(t: Tree, dir: Text, f: Loc)
    requires f in Below(t, dir)
    ensures Has(t, dir, f[|At(t, dir)|..])
  {
    hide At;
    assert At(t, dir) + f[|At(t, dir)|..] == f;
  }

  /** The manifest is empty exactly when the directory has no file below it. */
  lemma ManifestEmpty(t: Tree, opts: SenderOptions, dir: Text, es: seq<FileEntry>)
    requires SourceDirectory(t, opts, dir) && IsManifest(t, opts, [dir], es)
    ensures es == [] <==> Below(t, dir) == {}
  {
    hide IsManifest, Names, NamesAt, Has, SourceAt, Servable, Outgoing, WellFormed, Transferable;
    if es != [] {
      RecordIs(t, opts, dir, es, 0);
      HasIsBelow(t, dir, NamesAt(es, 0));
    }
    if f :| f in Below(t, dir) {
      BelowHas(t, dir, f);
      var i := EveryFileListed(t, opts, dir, es, f[|At(t, dir)|..]);
    }
  }

  lemma HasIsBelow(t: Tree, dir: Text, names: Loc)
    requires Has(t, dir, names)
    ensures At(t, dir) + names in Below(t, dir)
  {
  }

  /** A directory without files: the sender succeeds with the wire unchanged and nothing read, and a receiver waits
      for a header until the stream ends, and fails with that. */
  lemma EmptyDirectory(t: Tree, opts: SenderOptions, dir: Text, es: seq<FileEntry>, io: Io, s: Setting,
                       scripts: seq<seq<Answer>>, incoming: seq<byte>, ec: Errc, env: Env, createDir: bool,
                         store: Store,
                       summary: Summary)
    requires SourceDirectory(t, opts, dir) && IsManifest(t, opts, [dir], es) && Below(t, dir) == {}
    ensures es == [] && FilesRun(io, s, es, scripts, incoming, ec) == (Done(true, ec, io), incoming)
    ensures var r := Receiving(env, createDir, [], store, summary, ec);
            !r.ok && r.ec == env.eof && r.need == 32 && r.store == store && r.summary == summary
  {
    hide SourceDirectory, IsManifest, FillRun, SessionRun;
    ManifestEmpty(t, opts, dir, es);
  }

  /** Sending a directory that has a file, with any capacities and any interleaving: every run that cannot go on has
      left, below the output directory, exactly the files below the source directory and the directories above them, and
      everything else as it was. */
  lemma DirectoryCopied(t: Tree, opts: SenderOptions, dir: Text, es: seq<FileEntry>, c: Config, run: seq<State>)
    requires SourceDirectory(t, opts, dir) && IsManifest(t, opts, [dir], es) && c.xs == Outgoing(t, [dir], es)
    requires |es| < 0x1_0000_0000_0000_0000 && Below(t, dir) != {}
    requires Vacant(c.env, c.createDir, c.store) && c.downCap >= 1 && c.upCap >= 1
    ensures Writable(c) && Legal(c)
    ensures IsRun(c, run) && Quiet(c, run[|run| - 1]) ==>
              var r := After(c, run[|run| - 1].got); var m := FilesOf(c.env, c.xs);
              r.ok && r.store.files == c.store.files + m && Mirrors(t, dir, Base(c.env), m) && DirsMade(c, r.store) &&
              Summarises(c.env, c.summary, c.xs, r.summary)
  {
    hide IsManifest, AllSendable, AllServable, Delivery.Prepared, Base, AllWelcome, Outgoing, After, Quiet, Steps,
      FilesOf, Summarises, Mirrors, TreeLike, SourceDirectory, DirsMade;
    ManifestEmpty(t, opts, dir, es);
    DirectoryProvided(t, opts, dir, es, c);
    if IsRun(c, run) && Quiet(c, run[|run| - 1]) {
      CompleteRunDelivers(c, run);
    }
  }

  lemma DirectoryProvided(t: Tree, opts: SenderOptions, dir: Text, es: seq<FileEntry>, c: Config)
    requires SourceDirectory(t, opts, dir) && IsManifest(t, opts, [dir], es) && c.xs == Outgoing(t, [dir], es)
    requires |es| < 0x1_0000_0000_0000_0000
    requires Vacant(c.env, c.createDir, c.store) && c.downCap >= 1 && c.upCap >= 1
    ensures Provided(c) && Mirrors(t, dir, Base(c.env), FilesOf(c.env, c.xs))
  {
    hide IsManifest, AllSendable, AllServable, Delivery.Prepared, Base, AllWelcome, Outgoing, FilesOf, Mirrors,
      TreeLike, SourceDirectory;
    DirectoryReady(t, opts, dir, es, c.env, c.createDir, c.store);
    SendableFits(c.xs);
    FilesMirror(t, opts, dir, es, c.env);
  }

  /** So a run over a directory that cannot go on has been received exactly when the directory has a file. */
  lemma DirectoryReceivedExactlyWhen(t: Tree, opts: SenderOptions, dir: Text, es: seq<FileEntry>, c: Config,
                                     run: seq<State>)
    requires SourceDirectory(t, opts, dir) && IsManifest(t, opts, [dir], es) && c.xs == Outgoing(t, [dir], es)
    requires |es| < 0x1_0000_0000_0000_0000
    requires Vacant(c.env, c.createDir, c.store) && c.downCap >= 1 && c.upCap >= 1
    requires Writable(c) && IsRun(c, run) && Quiet(c, run[|run| - 1])
    ensures After(c, run[|run| - 1].got).ok <==> Below(t, dir) != {}
  {
    hide IsManifest, Base, Outgoing, After, Quiet, Steps, FilesOf, Mirrors, SourceDirectory, Provided, Vacant;
    ManifestEmpty(t, opts, dir, es);
    DirectoryProvided(t, opts, dir, es, c);
    DeliversExactlyWhen(c, run);
  }

  lemma SendableFits(xs: seq<Source>)
    requires AllSendable(xs)
    ensures Encodable(xs)
  {
  }

  // ---- an instance ----

  const A: Text := [0x61]
  const B: Text := [0x62]
  const X: Text := [0x78]

  /** The directory a with the one-byte file x, to be received into the empty directory b. */
  const HERE: Tree := Tree(map[[A, X] := [1]], {[], [A]}, {}, [])
  const RECURSIVE: SenderOptions := SenderOptions(true, true, [])
  const THERE: Store := Store(map[], {[], [B]}, [])
  const INTO_B: Env := Env([], B, true, ConnectionReset)
  const ENTRY: FileEntry := FileEntry(X, 1, 0)

  lemma SinglePlace(cwd: Loc, p: Text)
    requires |p| == 1 && p[0] != 0x2E && p[0] != SLASH
    ensures Locate(cwd, p) == cwd + [p] && PathOf([p]) == p && Plain([p])
  {
    NamesOfName(p);
    WalkNames(cwd, p);
    WalkPlain(cwd, [p]);
  }

  lemma HereHasX(names: Loc)
    requires At(HERE, A) == [A]
    ensures Has(HERE, A, names) <==> names == [X]
  {
    hide At;
    if Has(HERE, A, names) {
      assert [A] + names == [A, X];
      assert names == ([A] + names)[1..];
    }
    assert [A] + [X] == [A, X];
  }

  lemma HereIsSource()
    requires At(HERE, A) == [A] && PathOf([X]) == X
    ensures SourceDirectory(HERE, RECURSIVE, A)
  {
    hide At, PathOf;
    forall f, k | f in HERE.files && 0 <= k < |f| ensures f[..k] in HERE.dirs {
      assert k == 0 ==> f[..k] == [];
      assert k == 1 ==> f[..k] == [f[0]];
    }
    assert [A, X][1..] == [X];
  }

  lemma HereScan(e: FileEntry)
    requires At(HERE, A) == [A] && PathOf([X]) == X && SourceDirectory(HERE, RECURSIVE, A)
    ensures e in ScannedAll(HERE, RECURSIVE, [A]) <==> e == ENTRY
  {
    hide At, PathOf, ScannedAll, Checksum;
    DirectoryScan(HERE, RECURSIVE, A, e);
    HereHasX([X]);
    assert [A] + [X] == [A, X];
    if names :| Has(HERE, A, names) && e == SourceAt(HERE, A, names).entry.(crc32 := 0) {
      HereHasX(names);
    }
    assert SourceAt(HERE, A, [X]).entry.(crc32 := 0) == ENTRY;
  }

  lemma ThereIsVacant()
    requires Locate([], B) == [] + [B]
    ensures Vacant(INTO_B, false, THERE)
  {
    hide Locate;
    assert [] + [B] == [B];
    forall d, k | d in THERE.dirs && 0 <= k <= |d| ensures d[..k] in THERE.dirs {
      assert k == 0 ==> d[..k] == [];
      assert k == |d| ==> d[..k] == d;
    }
  }

  /** What DirectoryCopied asks for can be had. */
  lemma DirectoryExample()
    ensures SourceDirectory(HERE, RECURSIVE, A) && IsManifest(HERE, RECURSIVE, [A], [ENTRY]) &&
            Vacant(INTO_B, false, THERE)
  {
    SinglePlace([], A);
    SinglePlace([], B);
    SinglePlace([], X);
    HereIsSource();
    hide At, PathOf, ScannedAll, SourceDirectory, Less, Locate, Vacant;
    forall e ensures e in ScannedAll(HERE, RECURSIVE, [A]) <==> e == ENTRY {
      HereScan(e);
    }
    assert Elements([ENTRY]) == {ENTRY} == ScannedAll(HERE, RECURSIVE, [A]) by {
      assert [ENTRY][0] == ENTRY;
    }
    ThereIsVacant();
  }
}
