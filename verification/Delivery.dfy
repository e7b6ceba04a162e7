/** Whole sessions: delivery, truncation, damage, and unique readability. */
module Delivery {
  import opened BitStrings
  import opened LittleEndian
  import opened Crc32c
  import opened ChecksumTheory
  import opened Wire
  import opened Paths
  import opened Disk
  import opened Transfers
  import opened Session
  import opened SessionTheory

  // ---- when nothing stands in the way of a manifest ----

  /** Files are not directories, and every ancestor of a directory is one. */
  predicate TreeLike(s: Store) {
    s.files.Keys !! s.dirs && forall d, k | d in s.dirs && 0 <= k <= |d| :: d[..k] in s.dirs
  }

  /** No directory is in the place of e, and no file is above it. */
  predicate Free(env: Env, store: Store, e: FileEntry) {
    Place(env, e) !in store.dirs && forall k :: 0 <= k < |Place(env, e)| ==> Place(env, e)[..k] !in store.files
  }

  /** No file of the manifest is in the place of another or above it. */
  predicate Unrelated(env: Env, xs: seq<Source>) {
    forall i, j :: 0 <= i < |xs| && 0 <= j < |xs| && i != j ==> !(Place(env, xs[i].entry) <= Place(env, xs[j].entry))
  }

  predicate Room(env: Env, store: Store, xs: seq<Source>) {
    && env.outDir != [] && store.answers == [] && TreeLike(store) && Base(env) in store.dirs
    && Unrelated(env, xs)
    && forall i :: 0 <= i < |xs| ==>
         Safe(xs[i].entry.relPath) && NamesFile(xs[i].entry.relPath) && Free(env, store, xs[i].entry)
  }

  lemma LastComponent(p: Text)
    requires Names(p) != [] && p[|p| - 1] != SLASH
    ensures Components(p) == (if Absolute(p) then [ROOT] else []) + Names(p)
  {
  }

  lemma WalkFromHead(cwd: Loc, absolute: bool, names: seq<Text>)
    ensures Walk(cwd, (if absolute then [ROOT] else []) + names) == Walk(if absolute then [] else cwd, names)
  {
    if absolute {
      assert ([ROOT] + names)[1..] == names;
    } else {
      assert [] + names == names;
    }
  }

  lemma WalkLast(at: Loc, name: Text)
    requires name != [] && name != DOT && name != DOTDOT && SLASH !in name
    ensures Walk(at, [name]) == at + [name]
  {
    assert ROOT[0] == SLASH;
    assert [name][1..] == [];
  }

  lemma ParentSplits(cwd: Loc, t: Text, front: seq<Text>, last: Text)
    requires Names(t) == front + [last] && t[|t| - 1] != SLASH && last != DOT && last != DOTDOT
    ensures ParentOf(cwd, t) == Walk(if Absolute(t) then [] else cwd, front)
    ensures Locate(cwd, t) == ParentOf(cwd, t) + [last]
  {
    LastComponent(t);
    var head := if Absolute(t) then [ROOT] else [];
    var c := Components(t);
    assert c == (head + front) + [last] && c[..|c| - 1] == head + front;
    assert last in Names(t);
    hide Walk, Names, Components;
    WalkFromHead(cwd, Absolute(t), front);
    WalkConcat(cwd, head + front, [last]);
    WalkLast(ParentOf(cwd, t), last);
  }

  lemma FrontDescends(at: Loc, dirNames: seq<Text>, front: seq<Text>)
    requires DOTDOT !in front && ROOT !in front
    ensures Walk(at, dirNames) <= Walk(at, dirNames + front)
  {
    WalkConcat(at, dirNames, front);
    WalkDescends(Walk(at, dirNames), front);
  }

  lemma FileNames(rel: Text) returns (front: seq<Text>, last: Text)
    requires Safe(rel) && NamesFile(rel)
    ensures Names(rel) == front + [last] && last != DOT && last != DOTDOT && DOTDOT !in front && ROOT !in front
    ensures rel != [] && rel[|rel| - 1] != SLASH && !Absolute(rel)
  {
    var names := Names(rel);
    front, last := names[..|names| - 1], names[|names| - 1];
    hide Names;
    assert ROOT[0] == SLASH;
    assert last in names && forall n :: n in front ==> n in names;
  }

  /** A file's place is its parent directory, which lies under the output directory, plus one name. */
  lemma PlaceSplits(env: Env, e: FileEntry)
    requires env.outDir != [] && Safe(e.relPath) && NamesFile(e.relPath)
    ensures var p, parent := Place(env, e), ParentOf(env.cwd, Target(env, e));
            Base(env) <= parent && p != [] && parent == p[..|p| - 1]
  {
    hide Walk, Names, Components, Join, Safe, NamesFile, ParentOf, Absolute;
    var rel, t := e.relPath, Target(env, e);
    var front, last := FileNames(rel);
    JoinNames(env.outDir, rel);
    JoinEnds(env.outDir, rel);
    WalkNames(env.cwd, env.outDir);
    assert Names(t) == (Names(env.outDir) + front) + [last];
    ParentSplits(env.cwd, t, Names(env.outDir) + front, last);
    FrontDescends(if Absolute(t) then [] else env.cwd, Names(env.outDir), front);
  }

  lemma SafeIsRelative(rel: Text)
    requires Safe(rel) && NamesFile(rel)
    ensures rel != [] && !Absolute(rel)
  {
  }

  /** Making an ancestor chain free of files keeps the tree a tree and reaches its end. */
  lemma ChainMade(s: Store, at: Loc)
    requires TreeLike(s) && forall j :: 0 <= j <= |at| ==> at[..j] !in s.files
    ensures TreeLike(MakeDirs(s, at)) && at in MakeDirs(s, at).dirs
  {
    var s' := MakeDirs(s, at);
    assert at[..|at|] == at;
    forall d, k | d in s'.dirs && 0 <= k <= |d| ensures d[..k] in s'.dirs && d[..k] !in s.files {
      if d !in s.dirs {
        var i :| 0 <= i <= |at| && d == at[..i];
        assert d[..k] == at[..k];
      }
    }
    assert forall d :: d in s'.dirs ==> d[..|d|] == d;
  }

  /** The target of a file, and the directory it needs. */
  lemma TargetFacts(env: Env, e: FileEntry)
    requires env.outDir != [] && Safe(e.relPath) && NamesFile(e.relPath)
    ensures HasParentPath(Target(env, e)) && NamesFile(Target(env, e))
    ensures var p, parent := Place(env, e), ParentOf(env.cwd, Target(env, e));
            Base(env) <= parent && p != [] && parent == p[..|p| - 1]
  {
    hide Place, ParentOf, HasParentPath, Safe, NamesFile, Base, Join, Absolute;
    PlaceSplits(env, e);
    SafeIsRelative(e.relPath);
    JoinHasParent(env.outDir, e.relPath);
    JoinNamesFile(env.outDir, e.relPath);
  }

  /** No file is in the way of the directory. */
  lemma FreeAbove(env: Env, store: Store, e: FileEntry)
    requires env.outDir != [] && Safe(e.relPath) && NamesFile(e.relPath) && Free(env, store, e)
    ensures var parent := ParentOf(env.cwd, Target(env, e));
            MakeParent(store, env.cwd, Target(env, e)) == MakeDirs(store, parent) &&
            forall j :: 0 <= j <= |parent| ==> parent[..j] !in store.files
  {
    hide Place, ParentOf, Target, MakeDirs, MakeParent, HasParentPath, Safe, NamesFile, Base;
    TargetFacts(env, e);
    ParentMade(store, env.cwd, Target(env, e));
    var p, parent := Place(env, e), ParentOf(env.cwd, Target(env, e));
    forall j | 0 <= j <= |parent| ensures parent[..j] !in store.files {
      assert parent[..j] == p[..j];
    }
  }

  lemma FreeOpens(env: Env, store: Store, e: FileEntry)
    requires env.outDir != [] && TreeLike(store)
    requires Safe(e.relPath) && NamesFile(e.relPath) && Free(env, store, e)
    ensures Openable(env, store, e)
    ensures forall content :: TreeLike(Arrive(env, store, e, content))
  {
    hide Place, ParentOf, Target, MakeDirs, MakeParent, HasParentPath, Safe, NamesFile, Base;
    var p, parent := Place(env, e), ParentOf(env.cwd, Target(env, e));
    TargetFacts(env, e);
    FreeAbove(env, store, e);
    ChainMade(store, parent);
    MadeDirs(store, parent, p);
  }

  lemma JoinNamesFile(dir: Text, rel: Text)
    requires !Absolute(rel) && NamesFile(rel)
    ensures NamesFile(Join(dir, rel))
  {
    hide Names, Join;
    JoinNames(dir, rel);
    JoinEnds(dir, rel);
  }

  lemma StillFree(env: Env, store: Store, e: FileEntry, content: seq<byte>, f: FileEntry)
    requires env.outDir != [] && Safe(e.relPath) && NamesFile(e.relPath) && Free(env, store, f)
    requires !(Place(env, e) <= Place(env, f)) && !(Place(env, f) <= Place(env, e))
    ensures Free(env, Arrive(env, store, e, content), f)
  {
    PlaceSplits(env, e);
    var p, parent, q := Place(env, e), ParentOf(env.cwd, Target(env, e)), Place(env, f);
    hide Place, ParentOf, Target, Safe, NamesFile, MakeParent;
    MadeParents(store, env.cwd, Target(env, e), q);
    assert q <= parent ==> q <= p;
    forall k | 0 <= k < |q| ensures q[..k] != p {
      assert q[..k] <= q;
    }
  }

  /** With room for the whole manifest, the first file can be opened and room for the others is left. */
  lemma RoomStep(env: Env, store: Store, xs: seq<Source>)
    requires xs != [] && Room(env, store, xs)
    ensures Openable(env, store, xs[0].entry)
    ensures Room(env, Arrive(env, store, xs[0].entry, xs[0].content), xs[1..])
  {
    hide Place, ParentOf, Target, Safe, NamesFile, Free, Base, TreeLike, Openable;
    var e, c, rest := xs[0].entry, xs[0].content, xs[1..];
    FreeOpens(env, store, e);
    forall i | 0 <= i < |rest| ensures Free(env, Arrive(env, store, e, c), rest[i].entry) {
      assert rest[i] == xs[i + 1];
      StillFree(env, store, e, c, rest[i].entry);
    }
    forall i, j | 0 <= i < |rest| && 0 <= j < |rest| && i != j
      ensures !(Place(env, rest[i].entry) <= Place(env, rest[j].entry))
    {
      assert rest[i] == xs[i + 1] && rest[j] == xs[j + 1];
    }
  }

  lemma {:induction false} RoomOpens(env: Env, store: Store, xs: seq<Source>)
    requires Room(env, store, xs)
    ensures AllOpenable(env, store, xs)
    decreases |xs|
  {
    hide Openable, Arrive, Room;
    if xs == [] {
    } else {
      RoomStep(env, store, xs);
      RoomOpens(env, Arrive(env, store, xs[0].entry, xs[0].content), xs[1..]);
    }
  }

  // ---- the directories ----

  /** The directories above the files of a manifest. */
  ghost predicate AbovePlace(env: Env, xs: seq<Source>, d: Loc) {
    exists i :: 0 <= i < |xs| && d < Place(env, xs[i].entry)
  }

  lemma ChainDirs(s: Store, at: Loc, d: Loc)
    requires forall j :: 0 <= j <= |at| ==> at[..j] !in s.files
    ensures d in MakeDirs(s, at).dirs <==> d in s.dirs || d <= at
  {
    if d <= at {
      assert d == at[..|d|];
    }
  }

  /** Receiving a file makes exactly the directories above it. */
  lemma ArriveDirs(env: Env, store: Store, e: FileEntry, content: seq<byte>, d: Loc)
    requires env.outDir != [] && Safe(e.relPath) && NamesFile(e.relPath) && Free(env, store, e)
    ensures d in Arrive(env, store, e, content).dirs <==> d in store.dirs || d < Place(env, e)
  {
    hide Place, ParentOf, Target, MakeDirs, MakeParent, HasParentPath, Safe, NamesFile, Base;
    var p, parent := Place(env, e), ParentOf(env.cwd, Target(env, e));
    TargetFacts(env, e);
    FreeAbove(env, store, e);
    ChainDirs(store, parent, d);
    assert d < p <==> d <= parent;
  }

  lemma {:induction false} DirsArrive(env: Env, store: Store, xs: seq<Source>, d: Loc)
    requires Room(env, store, xs)
    ensures d in ArriveAll(env, store, xs).dirs <==> d in store.dirs || AbovePlace(env, xs, d)
    decreases |xs|
  {
    hide Place, Safe, NamesFile, Free, Arrive, Openable, Base, TreeLike, Unrelated;
    if xs == [] {
      assert ArriveAll(env, store, xs) == store;
    } else {
      var e, store', rest := xs[0].entry, Arrive(env, store, xs[0].entry, xs[0].content), xs[1..];
      RoomStep(env, store, xs);
      ArriveDirs(env, store, e, xs[0].content, d);
      DirsArrive(env, store', rest, d);
      AboveFirst(env, xs, d);
    }
  }

  lemma AboveFirst(env: Env, xs: seq<Source>, d: Loc)
    requires xs != []
    ensures AbovePlace(env, xs, d) <==> d < Place(env, xs[0].entry) || AbovePlace(env, xs[1..], d)
  {
    hide Place;
    if AbovePlace(env, xs[1..], d) {
      var i :| 0 <= i < |xs[1..]| && d < Place(env, xs[1..][i].entry);
      assert xs[1..][i] == xs[i + 1];
    }
    if i :| 0 < i < |xs| && d < Place(env, xs[i].entry) {
      assert xs[1..][i - 1] == xs[i];
    }
  }

  // ---- what delivery means ----

  /** The files a manifest describes, at their places. */
  function FilesOf(env: Env, xs: seq<Source>): map<Loc, seq<byte>>
    decreases |xs|
  {
    if xs == [] then map[]
    else FilesOf(env, xs[..|xs| - 1])[Place(env, xs[|xs| - 1].entry) := xs[|xs| - 1].content]
  }

  lemma {:induction false} ArriveAllSnoc(env: Env, store: Store, xs: seq<Source>)
    requires xs != []
    ensures var x := xs[|xs| - 1];
            ArriveAll(env, store, xs) == Arrive(env, ArriveAll(env, store, xs[..|xs| - 1]), x.entry, x.content)
    decreases |xs|
  {
    hide Arrive;
    var init := xs[..|xs| - 1];
    if |xs| > 1 {
      assert xs[1..][..|xs| - 2] == init[1..];
      ArriveAllSnoc(env, Arrive(env, store, xs[0].entry, xs[0].content), xs[1..]);
    }
  }

  lemma {:induction false} FilesArrive(env: Env, store: Store, xs: seq<Source>)
    ensures ArriveAll(env, store, xs).files == store.files + FilesOf(env, xs)
    decreases |xs|
  {
    if xs == [] {
      NoFiles(env, store);
    } else {
      hide Place, ArriveAll, Arrive;
      var init, x := xs[..|xs| - 1], xs[|xs| - 1];
      ArriveAllSnoc(env, store, xs);
      FilesArrive(env, store, init);
      ArriveFiles(env, ArriveAll(env, store, init), x);
      MergeThenPut(store.files, FilesOf(env, init), Place(env, x.entry), x.content);
    }
  }

  lemma ArriveFiles(env: Env, store: Store, x: Source)
    ensures Arrive(env, store, x.entry, x.content).files == store.files[Place(env, x.entry) := x.content]
  {
    hide Place, Target, MakeParent;
  }

  lemma MergeThenPut(a: map<Loc, seq<byte>>, b: map<Loc, seq<byte>>, at: Loc, content: seq<byte>)
    ensures (a + b)[at := content] == a + b[at := content]
  {
  }

  lemma NoFiles(env: Env, store: Store)
    ensures ArriveAll(env, store, []).files == store.files + FilesOf(env, [])
  {
    assert store.files + map[] == store.files;
  }

  /** With unrelated places, every file of the manifest is there with its own content. */
  lemma {:induction false} FilesOfEach(env: Env, xs: seq<Source>, i: nat)
    requires Unrelated(env, xs) && i < |xs|
    ensures Place(env, xs[i].entry) in FilesOf(env, xs) && FilesOf(env, xs)[Place(env, xs[i].entry)] == xs[i].content
    decreases |xs|
  {
    hide Place;
    var last := |xs| - 1;
    if i < last {
      assert !(Place(env, xs[i].entry) <= Place(env, xs[last].entry));
      assert forall a :: 0 <= a < last ==> xs[..last][a] == xs[a];
      FilesOfEach(env, xs[..last], i);
    }
  }

  lemma {:induction false} FilesOfOnly(env: Env, xs: seq<Source>, at: Loc)
    ensures at in FilesOf(env, xs) <==> exists i :: 0 <= i < |xs| && at == Place(env, xs[i].entry)
    decreases |xs|
  {
    hide Place;
    if xs == [] {
    } else {
      var last := |xs| - 1;
      FilesOfOnly(env, xs[..last], at);
      assert forall a :: 0 <= a < last ==> xs[..last][a] == xs[a];
    }
  }

  function TargetsOf(env: Env, xs: seq<Source>): (targets: seq<Text>)
    ensures |targets| == |xs|
    ensures forall i :: 0 <= i < |xs| ==> targets[i] == Target(env, xs[i].entry)
  {
    seq(|xs|, i requires 0 <= i < |xs| => Target(env, xs[i].entry))
  }

  lemma {:induction false} CountAllSnoc(env: Env, summary: Summary, xs: seq<Source>)
    requires xs != []
    ensures var x := xs[|xs| - 1];
            CountAll(env, summary, xs) ==
            Count(CountAll(env, summary, xs[..|xs| - 1]), x.entry.size, Target(env, x.entry))
    decreases |xs|
  {
    hide Count, Target;
    var init := xs[..|xs| - 1];
    if |xs| > 1 {
      assert xs[1..][..|xs| - 2] == init[1..];
      CountAllSnoc(env, Count(summary, xs[0].entry.size, Target(env, xs[0].entry)), xs[1..]);
    }
  }

  /** What a summary has become after xs: counted are the files and the sum of their sizes, modulo 2^64, and the
      targets in order. */
  predicate Summarises(env: Env, summary: Summary, xs: seq<Source>, s: Summary) {
    s.totalFiles == (summary.totalFiles + |xs|) % 0x1_0000_0000_0000_0000 &&
    s.totalBytes == (summary.totalBytes + SizeSum(EntriesOf(xs))) % 0x1_0000_0000_0000_0000 &&
    s.writtenPaths == summary.writtenPaths + TargetsOf(env, xs)
  }

  lemma SummaryStep(env: Env, summary: Summary, xs: seq<Source>, s: Summary)
    requires xs != [] && Summarises(env, summary, xs[..|xs| - 1], s)
    ensures var e := xs[|xs| - 1].entry; Summarises(env, summary, xs, Count(s, e.size, Target(env, e)))
  {
    hide Target, Sum64;
    var init, e := xs[..|xs| - 1], xs[|xs| - 1].entry;
    assert EntriesOf(xs)[..|xs| - 1] == EntriesOf(init);
    CarriesOn(summary.totalFiles, |init|, s.totalFiles, 1);
    CarriesOn(summary.totalBytes, SizeSum(EntriesOf(init)), s.totalBytes, e.size);
    assert TargetsOf(env, xs) == TargetsOf(env, init) + [Target(env, e)];
  }

  /** The summary has the manifest's file count, byte total and path order. */
  lemma {:induction false} SummaryMeaning(env: Env, summary: Summary, xs: seq<Source>)
    ensures Summarises(env, summary, xs, CountAll(env, summary, xs))
    decreases |xs|
  {
    if xs == [] {
      assert summary.writtenPaths + TargetsOf(env, xs) == summary.writtenPaths;
    } else {
      hide Target, Count, CountAll, Summarises;
      SummaryMeaning(env, summary, xs[..|xs| - 1]);
      CountAllSnoc(env, summary, xs);
      SummaryStep(env, summary, xs, CountAll(env, summary, xs[..|xs| - 1]));
    }
  }

  // ---- whole sessions ----

  /** The store once the output directory has been made, if asked for. */
  function Prepared(env: Env, createDir: bool, store: Store): Store {
    if createDir then MakeDirs(store, Base(env)) else store
  }

  predicate Ready(env: Env, createDir: bool, store: Store, xs: seq<Source>) {
    |xs| < 0x1_0000_0000_0000_0000 && AllWelcome(env, xs) && Room(env, Prepared(env, createDir, store), xs)
  }

  lemma SessionCutInHeader(env: Env, createDir: bool, h: SessionHeader, k: nat, store: Store, summary: Summary,
                           ec: Errc)
    requires k < 32
    ensures Receiving(env, createDir, EncodeHeader(h)[..k], store, summary, ec) ==
            Run(false, env.eof, [], 32 - k, store, summary, [])
  {
  }

  lemma SessionAfterHeader(env: Env, createDir: bool, h: SessionHeader, tail: seq<byte>, store: Store, summary: Summary,
                           ec: Errc)
    ensures Receiving(env, createDir, EncodeHeader(h) + tail, store, summary, ec) ==
            var store' := Prepared(env, createDir, store);
            if Base(env) !in store'.dirs then Run(false, NotADirectory, tail, 0, store', summary, [])
            else Records(env, h.totalFiles, tail, store', summary, ec)
  {
    HeaderRoundTrip(h);
    var input := EncodeHeader(h) + tail;
    assert input[..32] == EncodeHeader(h) && input[32..] == tail;
    hide EncodeHeader, DecodeHeader, Records, Base, MakeDirs;
  }

  /** Version, flags and byte total are covered by the header's checksum but decide nothing: sessions that differ
      only in them are received alike. */
  lemma HeaderFieldsIgnored(env: Env, createDir: bool, g: SessionHeader, h: SessionHeader, tail: seq<byte>,
                            store: Store, summary: Summary, ec: Errc)
    requires g.totalFiles == h.totalFiles
    ensures Receiving(env, createDir, EncodeHeader(g) + tail, store, summary, ec) ==
            Receiving(env, createDir, EncodeHeader(h) + tail, store, summary, ec)
  {
    hide EncodeHeader, Receiving, Records, MakeDirs, Base;
    SessionAfterHeader(env, createDir, g, tail, store, summary, ec);
    SessionAfterHeader(env, createDir, h, tail, store, summary, ec);
  }

  /** The outcome of an honest session cut after k bytes: it succeeds exactly when at most the trailer is
      missing; summary, log and files hold exactly the records wholly contained in the k bytes, apart from
      the one file that was being written; and no read waits for a byte the session does not have. */
  ghost predicate TruncationOutcome(env: Env, createDir: bool, xs: seq<Source>, k: nat, store: Store, summary: Summary,
                                    ec: Errc, r: Run)
    requires Encodable(xs) && |xs| < 0x1_0000_0000_0000_0000
  {
    var size := |EncodeSession(xs)|;
    var m := if k < 32 then 0 else Whole(xs, k - 32);
    && (r.ok <==> k + 4 >= size)
    && r.log == Items(xs[..m]) && r.summary == CountAll(env, summary, xs[..m]) && r.rest == []
    && (r.need == 0 <==> k == size) && r.need <= size - k
    && r.ec == (if k == size then ec else env.eof)
    && (k >= 32 && m == |xs| ==> r.store == ArriveAll(env, Prepared(env, createDir, store), xs) &&
                                 r.store.files == store.files + FilesOf(env, xs))
    && (m < |xs| ==> var p := Place(env, xs[m].entry);
                     r.store.files - {p} == (store.files + FilesOf(env, xs[..m])) - {p})
  }

  lemma TruncatedInHeader(env: Env, createDir: bool, xs: seq<Source>, k: nat, store: Store, summary: Summary, ec: Errc)
    requires Encodable(xs) && |xs| < 0x1_0000_0000_0000_0000 && k < 32
    ensures TruncationOutcome(env, createDir, xs, k, store, summary, ec,
                              Receiving(env, createDir, EncodeSession(xs)[..k], store, summary, ec))
  {
    hide EncodeHeader, EncodeRecords, EncodeDone, Place, Receiving, CountAll, FilesOf, Items;
    assert EncodeSession(xs)[..k] == EncodeHeader(HeaderFor(xs))[..k];
    SessionCutInHeader(env, createDir, HeaderFor(xs), k, store, summary, ec);
    NothingYet(env, summary);
    assert xs[..0] == [] && store.files + map[] == store.files;
  }

  lemma TruncatedAfterHeader(env: Env, createDir: bool, xs: seq<Source>, k: nat, store: Store, summary: Summary,
                             ec: Errc, r: Run)
    requires AllWelcome(env, xs) && Encodable(xs) && |xs| < 0x1_0000_0000_0000_0000
    requires 32 <= k <= |EncodeSession(xs)|
    requires CutOutcome(env, xs, k - 32, Prepared(env, createDir, store), summary, ec, r)
    ensures TruncationOutcome(env, createDir, xs, k, store, summary, ec, r)
  {
    hide EncodeHeader, EncodeRecords, EncodeDone, Place, CountAll, FilesOf, Items, ArriveAll, Whole, AllWelcome,
      MakeDirs;
    var store' := Prepared(env, createDir, store);
    var m := Whole(xs, k - 32);
    FilesArrive(env, store', xs[..m]);
    FilesArrive(env, store', xs);
  }

  lemma Truncation(env: Env, createDir: bool, xs: seq<Source>, k: nat, store: Store, summary: Summary, ec: Errc)
    requires Ready(env, createDir, store, xs) && Encodable(xs) && k <= |EncodeSession(xs)|
    ensures TruncationOutcome(env, createDir, xs, k, store, summary, ec,
                              Receiving(env, createDir, EncodeSession(xs)[..k], store, summary, ec))
  {
    hide AllWelcome, Room, EncodeHeader, EncodeRecords, EncodeDone, Records, Receiving, MakeDirs, CutOutcome,
      TruncationOutcome, AllOpenable;
    if k < 32 {
      TruncatedInHeader(env, createDir, xs, k, store, summary, ec);
    } else {
      var store' := Prepared(env, createDir, store);
      var tail := (EncodeRecords(xs) + EncodeDone())[..k - 32];
      assert EncodeSession(xs)[..k] == EncodeHeader(HeaderFor(xs)) + tail;
      SessionAfterHeader(env, createDir, HeaderFor(xs), tail, store, summary, ec);
      RoomParts(env, store', xs);
      RoomOpens(env, store', xs);
      CutRecords(env, xs, k - 32, store', summary, ec);
      TruncatedAfterHeader(env, createDir, xs, k, store, summary, ec, Records(env, |xs|, tail, store', summary, ec));
    }
  }

  lemma RoomParts(env: Env, store: Store, xs: seq<Source>)
    requires Room(env, store, xs)
    ensures store.answers == [] && Base(env) in store.dirs
  {
  }

  lemma NothingYet(env: Env, summary: Summary)
    ensures Items([]) == [] && CountAll(env, summary, []) == summary && FilesOf(env, []) == map[]
  {
  }

  lemma {:induction false} WholeAtEnd(xs: seq<Source>, k: nat)
    requires Encodable(xs) && k >= |EncodeRecords(xs)|
    ensures Whole(xs, k) == |xs|
  {
    WholeIsMaximal(xs, k, |xs|);
    assert xs[..|xs|] == xs;
  }

  /** An honest session into a place with room for it: success, exactly the manifest's files with their contents and
      the directories above them, nothing else changed, and the right summary. */
  lemma Delivered(env: Env, createDir: bool, xs: seq<Source>, store: Store, summary: Summary, ec: Errc)
    requires Ready(env, createDir, store, xs) && Encodable(xs)
    ensures var r := Receiving(env, createDir, EncodeSession(xs), store, summary, ec);
            r.ok && r.ec == ec && r.rest == [] && r.need == 0 && r.store.files == store.files + FilesOf(env, xs) &&
            (forall d :: d in r.store.dirs <==> d in Prepared(env, createDir, store).dirs || AbovePlace(env, xs, d)) &&
            Summarises(env, summary, xs, r.summary)
  {
    hide AllWelcome, Room, Receiving, FilesOf, Encodable, EncodeHeader, EncodeDone, CountAll, Summarises, MakeDirs,
      ArriveAll, AbovePlace;
    forall d
      ensures d in ArriveAll(env, Prepared(env, createDir, store), xs).dirs <==>
              d in Prepared(env, createDir, store).dirs || AbovePlace(env, xs, d)
    {
      DirsArrive(env, Prepared(env, createDir, store), xs, d);
    }
    var size := |EncodeSession(xs)|;
    assert EncodeSession(xs)[..size] == EncodeSession(xs);
    Truncation(env, createDir, xs, size, store, summary, ec);
    WholeAtEnd(xs, size - 32);
    assert xs[..|xs|] == xs;
    SummaryMeaning(env, summary, xs);
  }

  // ---- damage ----

  function LoggedAll(items: seq<Item>, r: Run): Run {
    r.(log := items + r.log)
  }

  /** Honest records are stored one by one, whatever follows them. */
  lemma {:induction false} RunThrough(env: Env, n: nat, xs: seq<Source>, tail: seq<byte>, store: Store,
                                      summary: Summary, ec: Errc)
    requires AllWelcome(env, xs) && store.answers == [] && AllOpenable(env, store, xs) && Encodable(xs)
    ensures Records(env, |xs| + n, EncodeRecords(xs) + tail, store, summary, ec) ==
            LoggedAll(Items(xs), Records(env, n, tail, ArriveAll(env, store, xs), CountAll(env, summary, xs), ec))
    decreases |xs|
  {
    hide EncodeRecord, Welcome, Records, Arrive, Openable, Count, Place, Target;
    if xs == [] {
      assert [] + tail == tail;
    } else {
      var x, rest := xs[0], xs[1..];
      assert EncodeRecords(xs) + tail == EncodeRecord(x) + (EncodeRecords(rest) + tail);
      ArriveGrants(env, store, x);
      RecordStored(env, |xs| + n, x, EncodeRecords(rest) + tail, store, summary, ec);
      RunThrough(env, n, rest, tail, Arrive(env, store, x.entry, x.content),
                 Count(summary, x.entry.size, Target(env, x.entry)), ec);
      assert Items(xs) == [Stored(x.entry, x.content)] + Items(rest);
    }
  }

  lemma {:induction false} OpenableInTurn(env: Env, store: Store, xs: seq<Source>, j: nat)
    requires AllOpenable(env, store, xs) && j < |xs| && store.answers == []
    ensures AllOpenable(env, store, xs[..j])
    ensures var s := ArriveAll(env, store, xs[..j]); s.answers == [] && Openable(env, s, xs[j].entry)
    decreases |xs|
  {
    hide Openable, Arrive;
    if j == 0 {
    } else {
      ArriveGrants(env, store, xs[0]);
      assert xs[..j][1..] == xs[1..][..j - 1];
      OpenableInTurn(env, Arrive(env, store, xs[0].entry, xs[0].content), xs[1..], j - 1);
    }
  }

  lemma {:induction false} SplitRecords(xs: seq<Source>, n: nat)
    requires Encodable(xs) && n <= |xs|
    ensures EncodeRecords(xs) == EncodeRecords(xs[..n]) + EncodeRecords(xs[n..])
    decreases |xs|
  {
    hide EncodeRecord;
    if n > 0 {
      assert xs[..n][1..] == xs[1..][..n - 1] && xs[1..][n - 1..] == xs[n..];
      SplitRecords(xs[1..], n - 1);
      var a, b, c := EncodeRecord(xs[0]), EncodeRecords(xs[1..][..n - 1]), EncodeRecords(xs[n..]);
      assert EncodeRecords(xs) == a + (b + c) == a + b + c;
    } else {
      assert xs[n..] == xs && [] + EncodeRecords(xs) == EncodeRecords(xs);
    }
  }

  lemma OpenableFirst(env: Env, store: Store, xs: seq<Source>, n: nat)
    requires AllOpenable(env, store, xs) && n <= |xs| && store.answers == []
    ensures AllOpenable(env, store, xs[..n])
  {
    hide AllOpenable, Openable, ArriveAll;
    if n == |xs| {
      assert xs[..n] == xs;
    } else {
      OpenableInTurn(env, store, xs, n);
    }
  }

  /** The bytes of a session whose header announces n files, whatever its records are. */
  function Announcing(n: u64, xs: seq<Source>): seq<byte>
    requires Encodable(xs)
  {
    EncodeHeader(SessionHeader(PROTO_VERSION, FLAG_CRC32, n, TotalBytes(xs))) + (EncodeRecords(xs) + EncodeDone())
  }

  lemma AnnouncedRecords(env: Env, n: nat, xs: seq<Source>, store: Store, summary: Summary, ec: Errc)
    requires AllWelcome(env, xs) && Encodable(xs) && store.answers == [] && AllOpenable(env, store, xs)
    ensures var r := Records(env, n, EncodeRecords(xs) + EncodeDone(), store, summary, ec);
            (r.ok <==> n <= |xs|) &&
            (r.ok ==> r.summary == CountAll(env, summary, xs[..n]) &&
                      r.store.files == store.files + FilesOf(env, xs[..n]) &&
                      r.rest == (EncodeRecords(xs[n..]) + EncodeDone())[4..])
  {
    hide EncodeRecords, EncodeDone, Records, AllOpenable, Welcome, FilesOf, CountAll, Items, ArriveAll;
    if n <= |xs| {
      var tail := EncodeRecords(xs[n..]) + EncodeDone();
      SplitRecords(xs, n);
      assert EncodeRecords(xs) + EncodeDone() == EncodeRecords(xs[..n]) + tail;
      OpenableFirst(env, store, xs, n);
      RunThrough(env, 0, xs[..n], tail, store, summary, ec);
      NoneLeft(env, tail, ArriveAll(env, store, xs[..n]), CountAll(env, summary, xs[..n]), ec);
      FilesArrive(env, store, xs[..n]);
    } else {
      RunThrough(env, n - |xs|, xs, EncodeDone(), store, summary, ec);
      RecordExpected(env, n - |xs|, ArriveAll(env, store, xs), CountAll(env, summary, xs), ec);
    }
  }

  lemma NoneLeft(env: Env, tail: seq<byte>, store: Store, summary: Summary, ec: Errc)
    requires |tail| >= 4
    ensures var r := Records(env, 0, tail, store, summary, ec);
            r.ok && r.summary == summary && r.store == store && r.rest == tail[4..]
  {
  }

  lemma RecordExpected(env: Env, n: nat, store: Store, summary: Summary, ec: Errc)
    requires n > 0
    ensures !Records(env, n, EncodeDone(), store, summary, ec).ok
  {
    hide EncodeDone;
  }

  /** Announcing another number of files than are sent goes wrong only one way: announcing too many fails, announcing
      fewer succeeds with that many files, takes four bytes of the next record for the trailer and leaves the others
      unread. */
  lemma AnnouncedCount(env: Env, createDir: bool, n: u64, xs: seq<Source>, store: Store, summary: Summary, ec: Errc)
    requires Ready(env, createDir, store, xs) && Encodable(xs)
    ensures var r := Receiving(env, createDir, Announcing(n, xs), store, summary, ec);
            (r.ok <==> n <= |xs|) &&
            (r.ok ==> r.store.files == store.files + FilesOf(env, xs[..n]) &&
                      r.summary == CountAll(env, summary, xs[..n]) &&
                      r.rest == (EncodeRecords(xs[n..]) + EncodeDone())[4..])
  {
    hide AllWelcome, Room, EncodeHeader, EncodeRecords, EncodeDone, Records, Receiving, MakeDirs, AllOpenable, FilesOf,
      CountAll;
    var store' := Prepared(env, createDir, store);
    SessionAfterHeader(env, createDir, SessionHeader(PROTO_VERSION, FLAG_CRC32, n, TotalBytes(xs)),
                       EncodeRecords(xs) + EncodeDone(), store, summary, ec);
    RoomParts(env, store', xs);
    RoomOpens(env, store', xs);
    AnnouncedRecords(env, n, xs, store', summary, ec);
  }

  /** A session whose record j carries another payload of the same length. */
  function DamagedSession(xs: seq<Source>, j: nat, payload: seq<byte>, tail: seq<byte>): seq<byte>
    requires Encodable(xs) && |xs| < 0x1_0000_0000_0000_0000 && j < |xs|
  {
    EncodeHeader(HeaderFor(xs)) + (EncodeRecords(xs[..j]) + (EncodeFileHeader(xs[j].entry) + (payload + tail)))
  }

  /** The undamaged session has this form. */
  lemma {:induction false} SessionAround(xs: seq<Source>, j: nat)
    requires Encodable(xs) && |xs| < 0x1_0000_0000_0000_0000 && j < |xs|
    ensures EncodeSession(xs) == DamagedSession(xs, j, xs[j].content, EncodeRecords(xs[j + 1..]) + EncodeDone())
  {
    hide EncodeHeader, EncodeFileHeader, EncodeDone, EncodeRecords;
    RecordsAround(xs, j);
    var rest := EncodeRecords(xs[j + 1..]) + EncodeDone();
    assert EncodeRecords(xs) + EncodeDone() ==
           EncodeRecords(xs[..j]) + (EncodeFileHeader(xs[j].entry) + (xs[j].content + rest));
  }

  lemma {:induction false} RecordsAround(xs: seq<Source>, j: nat)
    requires Encodable(xs) && j < |xs|
    ensures EncodeRecords(xs) == EncodeRecords(xs[..j]) + (EncodeRecord(xs[j]) + EncodeRecords(xs[j + 1..]))
    decreases |xs|
  {
    hide EncodeRecord;
    if j == 0 {
    } else {
      assert xs[..j][1..] == xs[1..][..j - 1] && xs[1..][j..] == xs[j + 1..];
      RecordsAround(xs[1..], j - 1);
    }
  }

  /** What a session leaves that fails with bad_message at record j. */
  ghost predicate FailedAt(env: Env, xs: seq<Source>, j: nat, payload: seq<byte>, tail: seq<byte>, store: Store,
                           summary: Summary, r: Run)
    requires j < |xs|
  {
    !r.ok && r.ec == BadMessage && r.rest == tail && r.need == 0 && r.log == Items(xs[..j]) &&
    r.summary == CountAll(env, summary, xs[..j]) &&
    r.store.files == (store.files + FilesOf(env, xs[..j]))[Place(env, xs[j].entry) := payload]
  }

  lemma DamageInRecords(env: Env, xs: seq<Source>, j: nat, payload: seq<byte>, tail: seq<byte>, store: Store,
                        summary: Summary, ec: Errc)
    requires AllWelcome(env, xs) && Encodable(xs) && j < |xs| && store.answers == [] && AllOpenable(env, store, xs)
    requires |payload| == xs[j].entry.size && !Matches(Expected(env, xs[j].entry), payload)
    ensures FailedAt(env, xs, j, payload, tail, store, summary,
              Records(env, |xs|, EncodeRecords(xs[..j]) + (EncodeFileHeader(xs[j].entry) + (payload + tail)), store,
                      summary, ec))
  {
    hide EncodeFileHeader, EncodeRecords, Records, Openable, AllOpenable, AllWelcome, Items, CountAll, FilesOf, Place,
      Arrive, ArriveAll, Matches, Expected, Safe;
    WelcomeParts(env, xs, j);
    var e := xs[j].entry;
    var before, next := ArriveAll(env, store, xs[..j]), EncodeFileHeader(e) + (payload + tail);
    OpenableInTurn(env, store, xs, j);
    RunThrough(env, |xs| - j, xs[..j], next, store, summary, ec);
    RecordDamaged(env, |xs| - j, e, payload, tail, before, CountAll(env, summary, xs[..j]), ec);
    FilesArrive(env, store, xs[..j]);
    ArriveFiles(env, before, Source(e, payload));
    assert Items(xs[..j]) + [] == Items(xs[..j]);
  }

  lemma WelcomeParts(env: Env, xs: seq<Source>, j: nat)
    requires AllWelcome(env, xs) && j < |xs|
    ensures AllWelcome(env, xs[..j]) && Encodable(xs[..j])
    ensures 0 < |xs[j].entry.relPath| <= 0xFFFF && Safe(xs[j].entry.relPath)
  {
    assert Welcome(env, xs[j]);
  }

  /** Damage to the payload of record j within 32 consecutive bits, at any file size: the session fails
      with bad_message at that record, whatever follows, and the summary has exactly the first j records. */
  lemma PayloadBurstRejected(env: Env, createDir: bool, xs: seq<Source>, j: nat, payload: seq<byte>, at: nat,
                             tail: seq<byte>, store: Store, summary: Summary, ec: Errc)
    requires Ready(env, createDir, store, xs) && Encodable(xs) && j < |xs|
    requires env.verify && xs[j].entry.crc32 != 0
    requires payload != xs[j].content && WithinBurst(xs[j].content, payload, at)
    ensures FailedAt(env, xs, j, payload, tail, store, summary,
              Receiving(env, createDir, DamagedSession(xs, j, payload, tail), store, summary, ec))
  {
    assert Welcome(env, xs[j]) && |payload| == xs[j].entry.size;
    assert !Matches(Expected(env, xs[j].entry), payload) by {
      hide Checksum, Room;
      BurstChangesChecksum(xs[j].content, payload, at);
    }
    hide AllWelcome, Room, EncodeHeader, EncodeFileHeader, EncodeRecords, Records, MakeDirs, AllOpenable, Welcome,
      Matches, Expected, Receiving, WithinBurst, FailedAt;
    var store' := Prepared(env, createDir, store);
    RoomParts(env, store', xs);
    RoomOpens(env, store', xs);
    var body := EncodeRecords(xs[..j]) + (EncodeFileHeader(xs[j].entry) + (payload + tail));
    SessionAfterHeader(env, createDir, HeaderFor(xs), body, store, summary, ec);
    DamageInRecords(env, xs, j, payload, tail, store', summary, ec);
    SameFiles(env, xs, j, payload, tail, store, store', summary, Records(env, |xs|, body, store', summary, ec));
  }

  lemma SameFiles(env: Env, xs: seq<Source>, j: nat, payload: seq<byte>, tail: seq<byte>, store: Store, store': Store,
                  summary: Summary, r: Run)
    requires j < |xs| && store.files == store'.files && FailedAt(env, xs, j, payload, tail, store', summary, r)
    ensures FailedAt(env, xs, j, payload, tail, store, summary, r)
  {
  }

  /** The other half: where no checksum is asked for (verification off, or the field 0), damage of the same
      length goes unnoticed and is delivered. */
  lemma UncheckedDamageDelivered(env: Env, createDir: bool, xs: seq<Source>, j: nat, payload: seq<byte>,
                                 store: Store, summary: Summary, ec: Errc)
    requires Ready(env, createDir, store, xs) && Encodable(xs) && j < |xs| && |payload| == xs[j].entry.size
    requires !env.verify || xs[j].entry.crc32 == 0
    ensures var ys := xs[j := Source(xs[j].entry, payload)];
            var s := DamagedSession(xs, j, payload, EncodeRecords(xs[j + 1..]) + EncodeDone());
            var r := Receiving(env, createDir, s, store, summary, ec);
            r.ok && r.store.files == store.files + FilesOf(env, ys) && Summarises(env, summary, ys, r.summary)
  {
    var ys := xs[j := Source(xs[j].entry, payload)];
    SameTotals(xs, ys);
    SessionAround(ys, j);
    assert ys[..j] == xs[..j] && ys[j + 1..] == xs[j + 1..];
    StillReady(env, createDir, xs, j, payload, store);
    hide Ready, EncodeHeader, EncodeFileHeader, EncodeRecords, EncodeDone, Receiving, FilesOf, Summarises;
    Delivered(env, createDir, ys, store, summary, ec);
  }

  lemma StillReady(env: Env, createDir: bool, xs: seq<Source>, j: nat, payload: seq<byte>, store: Store)
    requires Ready(env, createDir, store, xs) && j < |xs| && |payload| == xs[j].entry.size
    requires !env.verify || xs[j].entry.crc32 == 0
    ensures Ready(env, createDir, store, xs[j := Source(xs[j].entry, payload)])
  {
    hide Safe, NamesFile, Free, Place, Base, TreeLike, MakeDirs;
    assert Welcome(env, xs[j]);
  }

  lemma {:induction false} SameTotals(xs: seq<Source>, ys: seq<Source>)
    requires |xs| == |ys| && forall i :: 0 <= i < |xs| ==> xs[i].entry == ys[i].entry
    ensures TotalBytes(xs) == TotalBytes(ys)
    decreases |xs|
  {
    if xs == [] {
    } else {
      SameTotals(xs[..|xs| - 1], ys[..|ys| - 1]);
    }
  }

  // ---- unique readability ----

  lemma FirstReadable(x: Source, y: Source, u: seq<byte>, v: seq<byte>)
    requires |x.entry.relPath| <= 0xFFFF && |y.entry.relPath| <= 0xFFFF
    requires x.entry.size == |x.content| && y.entry.size == |y.content|
    requires EncodeRecord(x) + u == EncodeRecord(y) + v
    ensures x == y && u == v
  {
    hide EncodeFileHeader, ReadFileHeader;
    var input := EncodeRecord(x) + u;
    assert input == EncodeFileHeader(x.entry) + (x.content + u) && input == EncodeFileHeader(y.entry) + (y.content + v);
    FileHeaderIff(input, x.entry, x.content + u);
    FileHeaderIff(input, y.entry, y.content + v);
    assert x.content == (x.content + u)[..|x.content|] && y.content == (y.content + v)[..|y.content|];
    assert u == (x.content + u)[|x.content|..] && v == (y.content + v)[|y.content|..];
  }

  lemma {:induction false} RecordsReadable(xs: seq<Source>, ys: seq<Source>, s: seq<byte>, t: seq<byte>)
    requires |xs| == |ys| && Encodable(xs) && Encodable(ys)
    requires forall i :: 0 <= i < |xs| ==> xs[i].entry.size == |xs[i].content|
    requires forall i :: 0 <= i < |ys| ==> ys[i].entry.size == |ys[i].content|
    requires EncodeRecords(xs) + s == EncodeRecords(ys) + t
    ensures xs == ys && s == t
    decreases |xs|
  {
    hide EncodeRecord;
    if xs == [] {
      assert EncodeRecords(xs) + s == s && EncodeRecords(ys) + t == t;
    } else {
      var u, v := EncodeRecords(xs[1..]) + s, EncodeRecords(ys[1..]) + t;
      assert EncodeRecord(xs[0]) + u == EncodeRecords(xs) + s && EncodeRecord(ys[0]) + v == EncodeRecords(ys) + t;
      FirstReadable(xs[0], ys[0], u, v);
      RecordsReadable(xs[1..], ys[1..], s, t);
      assert xs == [xs[0]] + xs[1..] && ys == [ys[0]] + ys[1..];
    }
  }

  /** No two manifests share a byte stream, not even as prefixes of longer streams. */
  lemma SessionReadable(xs: seq<Source>, ys: seq<Source>, s: seq<byte>, t: seq<byte>)
    requires Encodable(xs) && Encodable(ys) && |xs| < 0x1_0000_0000_0000_0000 && |ys| < 0x1_0000_0000_0000_0000
    requires forall i :: 0 <= i < |xs| ==> xs[i].entry.size == |xs[i].content|
    requires forall i :: 0 <= i < |ys| ==> ys[i].entry.size == |ys[i].content|
    requires EncodeSession(xs) + s == EncodeSession(ys) + t
    ensures xs == ys && s == t
  {
    hide EncodeHeader, EncodeRecords, EncodeDone, DecodeHeader, TotalBytes;
    var h, g := HeaderFor(xs), HeaderFor(ys);
    var u, v := EncodeDone() + s, EncodeDone() + t;
    var input := EncodeSession(xs) + s;
    assert input == EncodeHeader(h) + (EncodeRecords(xs) + u) && input == EncodeHeader(g) + (EncodeRecords(ys) + v);
    assert EncodeHeader(h) == input[..32] == EncodeHeader(g);
    HeaderRoundTrip(h);
    HeaderRoundTrip(g);
    assert EncodeRecords(xs) + u == input[32..] == EncodeRecords(ys) + v;
    RecordsReadable(xs, ys, u, v);
    assert s == u[4..] && t == v[4..];
  }
}
