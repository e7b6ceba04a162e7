/** Any byte stream at all: what the receiver guarantees about files, summary and consumption; and
    what a repeated session leaves. */
module Safety {
  import opened BitStrings
  import opened Crc32c
  import opened Wire
  import opened Paths
  import opened Disk
  import opened Transfers
  import opened Session
  import opened SessionTheory
  import opened Delivery

  /** A completed iteration respects its record: size, checksum, path. */
  predicate Kept(env: Env, item: Item) {
    |item.entry.relPath| <= 0xFFFF &&
    match item
    case Skipped(e) => e.relPath == []
    case Stored(e, content) =>
      e.relPath != [] && Safe(e.relPath) && |content| == e.size && Matches(Expected(env, e), content)
  }

  /** The bytes an iteration consumed: an empty-path record is skipped without its payload. */
  function EncodeItem(item: Item): seq<byte>
    requires |item.entry.relPath| <= 0xFFFF
  {
    EncodeFileHeader(item.entry) + (if item.Stored? then item.content else [])
  }

  predicate AllKept(env: Env, log: seq<Item>) {
    forall i :: 0 <= i < |log| ==> Kept(env, log[i])
  }

  function EncodeLog(env: Env, log: seq<Item>): seq<byte>
    requires AllKept(env, log)
    decreases |log|
  {
    if log == [] then [] else EncodeItem(log[0]) + EncodeLog(env, log[1..])
  }

  /** The summary as a tally of the log: one file, its size and its path per stored record. */
  function Tally(env: Env, summary: Summary, log: seq<Item>): Summary
    decreases |log|
  {
    if log == [] then summary
    else Tally(env, if log[0].Stored? then Count(summary, log[0].entry.size, Target(env, log[0].entry)) else summary,
               log[1..])
  }

  /** The files of the log, later records overriding earlier ones. */
  function LogFiles(env: Env, log: seq<Item>): map<Loc, seq<byte>>
    decreases |log|
  {
    if log == [] then map[]
    else (if log[0].Stored? then map[Place(env, log[0].entry) := log[0].content] else map[]) + LogFiles(env, log[1..])
  }

  /** Nothing outside the directory is created, changed or removed. */
  ghost predicate OnlyUnder(dir: Loc, a: map<Loc, seq<byte>>, b: map<Loc, seq<byte>>) {
    forall at :: !(dir <= at) ==> (at in a <==> at in b) && (at in a ==> a[at] == b[at])
  }

  /** Files change only under the output directory; directories are only added, at or below it or above it. */
  ghost predicate Confined(env: Env, a: Store, b: Store) {
    OnlyUnder(Base(env), a.files, b.files) && a.dirs <= b.dirs &&
    forall d :: d in b.dirs && d !in a.dirs ==> d <= Base(env) || Base(env) <= d
  }

  /** The files are as expected, except that a run that fails inside a record may have left anything in the place of
      that record; left is the stream from there on. */
  predicate Settled(env: Env, ok: bool, left: seq<byte>, expected: map<Loc, seq<byte>>, files: map<Loc, seq<byte>>) {
    if !ok && ReadFileHeader(left).Accepted? && Safe(ReadFileHeader(left).value.relPath) then
      var p := Place(env, ReadFileHeader(left).value);
      files - {p} == expected - {p}
    else
      files == expected
  }

  /** Everything the receiver guarantees about n records of an arbitrary stream. */
  ghost predicate Guaranteed(env: Env, n: nat, input: seq<byte>, store: Store, summary: Summary, r: Run) {
    && |r.log| <= n && (r.ok ==> |r.log| == n)
    && AllKept(env, r.log)
    && r.summary == Tally(env, summary, r.log)
    && EncodeLog(env, r.log) <= input
    && (var left := input[|EncodeLog(env, r.log)|..];
        (r.ok ==> r.rest == if |left| < 4 then [] else left[4..]) &&
        Settled(env, r.ok, left, store.files + LogFiles(env, r.log), r.store.files))
    && Confined(env, store, r.store)
  }

  /** The place of an accepted path is under the output directory. */
  lemma PlaceUnder(env: Env, e: FileEntry)
    requires env.outDir != [] && Safe(e.relPath)
    ensures Base(env) <= Place(env, e)
  {
    hide Join, Walk, Components, Names;
    JoinResolves(env.cwd, env.outDir, e.relPath);
    GuardConfines(Base(env), e.relPath, |Components(e.relPath)|);
    assert Components(e.relPath)[..|Components(e.relPath)|] == Components(e.relPath);
  }

  function Front(t: Text, names: seq<Text>): seq<Text>
    requires t != [] && names != []
  {
    if t[|t| - 1] == SLASH then names else names[..|names| - 1]
  }

  lemma ParentComponents(cwd: Loc, t: Text, a: seq<Text>, b: seq<Text>)
    requires t != [] && b != [] && Names(t) == a + b
    ensures ParentOf(cwd, t) == Walk(if Absolute(t) then [] else cwd, a + Front(t, b))
  {
    hide Walk, Names;
    var head := if Absolute(t) then [ROOT] else [];
    var c := Components(t);
    assert c[..|c| - 1] == head + (a + Front(t, b));
    WalkFromHead(cwd, Absolute(t), a + Front(t, b));
  }

  /** And so is the directory it goes into. */
  lemma ParentUnder(env: Env, e: FileEntry)
    requires env.outDir != [] && e.relPath != [] && Safe(e.relPath)
    ensures Base(env) <= ParentOf(env.cwd, Target(env, e))
  {
    hide Walk, Names, Join, Safe, Components, ParentOf, Front;
    var t, names := Target(env, e), Names(e.relPath);
    SafeIsNotAbsolute(e.relPath);
    FirstName(e.relPath);
    JoinNames(env.outDir, e.relPath);
    JoinEnds(env.outDir, e.relPath);
    WalkNames(env.cwd, env.outDir);
    ParentComponents(env.cwd, t, Names(env.outDir), names);
    FrontIsTame(e.relPath, t);
    FrontDescends(if Absolute(t) then [] else env.cwd, Names(env.outDir), Front(t, names));
  }

  lemma SafeIsNotAbsolute(rel: Text)
    requires Safe(rel)
    ensures !Absolute(rel)
  {
  }

  lemma FrontIsTame(rel: Text, t: Text)
    requires Safe(rel) && t != [] && Names(rel) != []
    ensures DOTDOT !in Front(t, Names(rel)) && ROOT !in Front(t, Names(rel))
  {
    hide Names;
    assert ROOT[0] == SLASH;
    assert forall name :: name in Front(t, Names(rel)) ==> name in Names(rel);
  }

  /** Whatever happens to a file, no other file is touched, and only its directory is made. */
  lemma FileFrame(env: Env, e: FileEntry, expected: u32, input: seq<byte>, store: Store, ec: Errc)
    ensures var s := Receive(env, e, expected, input, store, ec).store;
            s.files - {Place(env, e)} == store.files - {Place(env, e)} &&
            s.dirs == MakeParent(store, env.cwd, Target(env, e)).dirs
  {
    hide Payload, MakeParent, Place, Receive, Xor32, CanOpen;
    var (ok, store') := Truncated(env, store, e);
    assert store'.files - {Place(env, e)} == store.files - {Place(env, e)};
    if ok {
      ReceiveUnfolds(env, e, expected, input, store, ec);
      PayloadFrame(env, Place(env, e), e.size, input, store', ONES, ec);
    } else {
      ReceiveRefused(env, e, expected, input, store, ec);
    }
  }

  /** Receiving a file, successfully or not, stays within the output directory. */
  lemma FileConfined(env: Env, e: FileEntry, expected: u32, input: seq<byte>, store: Store, ec: Errc)
    requires env.outDir != [] && e.relPath != [] && Safe(e.relPath)
    ensures Confined(env, store, Receive(env, e, expected, input, store, ec).store)
  {
    hide Receive, Place, Base, MakeParent, ParentOf, Safe, OnlyUnder;
    var s := Receive(env, e, expected, input, store, ec).store;
    var parent := ParentOf(env.cwd, Target(env, e));
    FileFrame(env, e, expected, input, store, ec);
    PlaceUnder(env, e);
    ParentUnder(env, e);
    ElsewhereUnchanged(Base(env), store.files, s.files, Place(env, e));
    forall d | d in s.dirs && d !in store.dirs ensures d <= Base(env) || Base(env) <= d {
      MadeParents(store, env.cwd, Target(env, e), d);
      PrefixesCompare(d, Base(env), parent);
    }
  }

  lemma PrefixesCompare(a: Loc, b: Loc, c: Loc)
    requires a <= c && b <= c
    ensures a <= b || b <= a
  {
    assert |a| <= |b| ==> a == b[..|a|];
    assert |b| <= |a| ==> b == a[..|b|];
  }

  lemma ElsewhereUnchanged(dir: Loc, a: map<Loc, seq<byte>>, b: map<Loc, seq<byte>>, at: Loc)
    requires dir <= at && a - {at} == b - {at}
    ensures OnlyUnder(dir, a, b)
  {
    forall k | !(dir <= k)
      ensures (k in a <==> k in b) && (k in a ==> a[k] == b[k])
    {
      assert k in a - {at} <==> k in b - {at};
    }
  }

  lemma ConfinedInTurn(env: Env, a: Store, b: Store, c: Store)
    requires Confined(env, a, b) && Confined(env, b, c)
    ensures Confined(env, a, c)
  {
    hide Base;
  }

  lemma GuaranteeStop(env: Env, n: nat, input: seq<byte>, store: Store, summary: Summary, r: Run)
    requires !r.ok && r.log == [] && r.summary == summary && Confined(env, store, r.store)
    requires Settled(env, false, input, store.files, r.store.files)
    ensures Guaranteed(env, n, input, store, summary, r)
  {
    hide Confined, Settled;
    assert input[0..] == input && store.files + map[] == store.files;
  }

  /** The bytes of one item in front of a tail that is already accounted for. */
  lemma ItemInFront(env: Env, item: Item, log: seq<Item>, input: seq<byte>, rest: seq<byte>)
    requires Kept(env, item) && AllKept(env, log) && input == EncodeItem(item) + rest && EncodeLog(env, log) <= rest
    ensures AllKept(env, [item] + log) && EncodeLog(env, [item] + log) <= input
    ensures input[|EncodeLog(env, [item] + log)|..] == rest[|EncodeLog(env, log)|..]
  {
    hide Kept, EncodeItem;
    assert ([item] + log)[1..] == log;
  }

  lemma GuaranteeSkipped(env: Env, n: nat, e: FileEntry, input: seq<byte>, rest: seq<byte>, store: Store,
                         summary: Summary, r: Run)
    requires n > 0 && e.relPath == [] && input == EncodeFileHeader(e) + rest
    requires Guaranteed(env, n - 1, rest, store, summary, r)
    ensures Guaranteed(env, n, input, store, summary, Logged(Skipped(e), r))
  {
    hide EncodeFileHeader, Place, Target, Count, Confined, Settled;
    assert EncodeItem(Skipped(e)) == EncodeFileHeader(e);
    ItemInFront(env, Skipped(e), r.log, input, rest);
    assert ([Skipped(e)] + r.log)[1..] == r.log;
    assert map[] + LogFiles(env, r.log) == LogFiles(env, r.log);
  }

  lemma GuaranteeStored(env: Env, n: nat, e: FileEntry, content: seq<byte>, input: seq<byte>, rest: seq<byte>,
                        store: Store, store': Store, summary: Summary, r: Run)
    requires n > 0 && env.outDir != [] && |e.relPath| <= 0xFFFF && input == EncodeFileHeader(e) + (content + rest)
    requires Kept(env, Stored(e, content)) && store'.files == store.files[Place(env, e) := content]
    requires Confined(env, store, store')
    requires Guaranteed(env, n - 1, rest, store', Count(summary, e.size, Target(env, e)), r)
    ensures Guaranteed(env, n, input, store, summary, Logged(Stored(e, content), r))
  {
    hide EncodeFileHeader, Place, Target, Count, Kept, Confined, Settled, EncodeLog;
    var item, p := Stored(e, content), Place(env, e);
    assert input == EncodeItem(item) + rest;
    ItemInFront(env, item, r.log, input, rest);
    assert ([item] + r.log)[1..] == r.log;
    PutThenMerge(store.files, p, content, LogFiles(env, r.log));
    ConfinedInTurn(env, store, store', r.store);
  }

  lemma PutThenMerge(a: map<Loc, seq<byte>>, at: Loc, content: seq<byte>, b: map<Loc, seq<byte>>)
    ensures a[at := content] + b == a + (map[at := content] + b)
  {
  }

  /** The guarantee holds for every stream, every file system behaviour and every number of records. */
  lemma {:induction false} RecordsGuaranteed(env: Env, n: nat, input: seq<byte>, store: Store, summary: Summary,
                                             ec: Errc)
    requires env.outDir != []
    ensures Guaranteed(env, n, input, store, summary, Records(env, n, input, store, summary, ec))
    decreases n
  {
    hide Safe, ReceiveFile, Guaranteed, EncodeFileHeader, Kept, Place, Target, Count, Confined, Expected,
      ReadFileHeader;
    var r := Records(env, n, input, store, summary, ec);
    if n == 0 {
      GuaranteeNone(env, input, store, summary, ec);
    } else {
      match ReadFileHeader(input)
      case Starved(_) => Untouched(env, store); GuaranteeStop(env, n, input, store, summary, r);
      case Refused(_) => Untouched(env, store); GuaranteeStop(env, n, input, store, summary, r);
      case Accepted(e, rest) =>
        FileHeaderIff(input, e, rest);
        if e.relPath == [] {
          RecordsGuaranteed(env, n - 1, rest, store, summary, ec);
          GuaranteeSkipped(env, n, e, input, rest, store, summary, Records(env, n - 1, rest, store, summary, ec));
        } else if !Safe(e.relPath) {
          Untouched(env, store);
          GuaranteeStop(env, n, input, store, summary, r);
        } else {
          var l := Receive(env, e, Expected(env, e), rest, store, ec);
          if !l.ok {
            GuaranteeFailed(env, n, e, input, rest, store, summary, ec);
          } else {
            FileArrives(env, e, Expected(env, e), rest, store, ec);
            var summary' := Count(summary, e.size, Target(env, e));
            RecordsGuaranteed(env, n - 1, l.rest, l.store, summary', l.ec);
            GuaranteeReceived(env, n, e, input, rest, store, summary, ec,
                              Records(env, n - 1, l.rest, l.store, summary', l.ec));
          }
        }
    }
  }

  /** A record that fails leaves nothing but its own place and directory changed. */
  lemma GuaranteeFailed(env: Env, n: nat, e: FileEntry, input: seq<byte>, rest: seq<byte>, store: Store,
                        summary: Summary, ec: Errc)
    requires env.outDir != [] && ReadFileHeader(input) == Accepted(e, rest) && e.relPath != [] && Safe(e.relPath)
    requires !Receive(env, e, Expected(env, e), rest, store, ec).ok
    ensures var l := Receive(env, e, Expected(env, e), rest, store, ec);
            Guaranteed(env, n, input, store, summary, Run(false, l.ec, l.rest, l.need, l.store, summary, []))
  {
    hide Safe, Receive, Guaranteed, Place, Target, Confined, Expected, ReadFileHeader;
    var l := Receive(env, e, Expected(env, e), rest, store, ec);
    FileConfined(env, e, Expected(env, e), rest, store, ec);
    FileFrame(env, e, Expected(env, e), rest, store, ec);
    GuaranteeStop(env, n, input, store, summary, Run(false, l.ec, l.rest, l.need, l.store, summary, []));
  }

  /** A record that is received goes in front of what is guaranteed for the others. */
  lemma GuaranteeReceived(env: Env, n: nat, e: FileEntry, input: seq<byte>, rest: seq<byte>, store: Store,
                          summary: Summary, ec: Errc, r: Run)
    requires n > 0 && env.outDir != [] && 0 < |e.relPath| <= 0xFFFF && Safe(e.relPath)
    requires input == EncodeFileHeader(e) + rest && Receive(env, e, Expected(env, e), rest, store, ec).ok
    requires var l := Receive(env, e, Expected(env, e), rest, store, ec);
             Guaranteed(env, n - 1, l.rest, l.store, Count(summary, e.size, Target(env, e)), r)
    ensures var l := Receive(env, e, Expected(env, e), rest, store, ec);
            Guaranteed(env, n, input, store, summary, Logged(Stored(e, OnDisk(l.store, Place(env, e))), r))
  {
    hide Safe, Receive, Guaranteed, EncodeFileHeader, Kept, Place, Target, Count, Confined, Expected, Matches, Arrive,
      Openable;
    FileConfined(env, e, Expected(env, e), rest, store, ec);
    FileArrives(env, e, Expected(env, e), rest, store, ec);
    var l, content := Receive(env, e, Expected(env, e), rest, store, ec), rest[..e.size];
    ArriveFiles(env, store, Source(e, content));
    KeptFile(env, e, content);
    assert rest == content + l.rest;
    GuaranteeStored(env, n, e, content, input, l.rest, store, l.store, summary, r);
  }

  lemma KeptFile(env: Env, e: FileEntry, content: seq<byte>)
    requires 0 < |e.relPath| <= 0xFFFF && Safe(e.relPath) && |content| == e.size && Matches(Expected(env, e), content)
    ensures Kept(env, Stored(e, content))
  {
  }

  lemma Untouched(env: Env, store: Store)
    ensures Confined(env, store, store)
  {
  }

  lemma GuaranteeNone(env: Env, input: seq<byte>, store: Store, summary: Summary, ec: Errc)
    ensures Guaranteed(env, 0, input, store, summary, Records(env, 0, input, store, summary, ec))
  {
    assert store.files + map[] == store.files;
    assert input[0..] == input;
  }

  // ---- the summary ----

  function StoredIn(log: seq<Item>): seq<Source>
    decreases |log|
  {
    if log == [] then []
    else (if log[0].Stored? then [Source(log[0].entry, log[0].content)] else []) + StoredIn(log[1..])
  }

  function SkippedIn(log: seq<Item>): nat
    decreases |log|
  {
    if log == [] then 0 else (if log[0].Skipped? then 1 else 0) + SkippedIn(log[1..])
  }

  /** Files stored plus records skipped is the number of iterations, and the summary counts exactly the
      files stored, their sizes (mod 2^64) and their paths in order. */
  lemma {:induction false} TallyMeaning(env: Env, summary: Summary, log: seq<Item>)
    ensures |StoredIn(log)| + SkippedIn(log) == |log|
    ensures Tally(env, summary, log) == CountAll(env, summary, StoredIn(log))
    decreases |log|
  {
    hide Count, Target;
    if log == [] {
    } else {
      if log[0].Stored? {
        TallyMeaning(env, Count(summary, log[0].entry.size, Target(env, log[0].entry)), log[1..]);
        assert StoredIn(log)[1..] == StoredIn(log[1..]);
      } else {
        TallyMeaning(env, summary, log[1..]);
        assert StoredIn(log) == StoredIn(log[1..]);
      }
    }
  }

  // ---- repeating a session ----

  predicate Disjoint(s: Store) {
    s.files.Keys !! s.dirs
  }

  predicate Grows(a: Store, b: Store) {
    a.files.Keys <= b.files.Keys && a.dirs <= b.dirs
  }

  /** The file is there, in a directory that is there. */
  predicate Exists(env: Env, s: Store, e: FileEntry) {
    var p := Place(env, e);
    p in s.files && p != [] && p[..|p| - 1] in s.dirs && NamesFile(Target(env, e))
  }

  predicate AllExist(env: Env, s: Store, log: seq<Item>) {
    forall i :: 0 <= i < |log| && log[i].Stored? ==> Exists(env, s, log[i].entry)
  }

  lemma ArrivalGrows(env: Env, s: Store, e: FileEntry, content: seq<byte>)
    requires Disjoint(s) && Openable(env, s, e)
    ensures var s' := Arrive(env, s, e, content); Disjoint(s') && Grows(s, s') && Exists(env, s', e)
  {
    hide Place, Target, MakeParent;
    forall d | d in MakeParent(s, env.cwd, Target(env, e)).dirs ensures d !in s.files {
      MadeParents(s, env.cwd, Target(env, e), d);
    }
  }

  lemma ExistingOpens(env: Env, s: Store, e: FileEntry)
    requires Disjoint(s) && Exists(env, s, e)
    ensures Openable(env, s, e)
  {
    hide Place, Target, MakeParent;
    MadeParents(s, env.cwd, Target(env, e), Place(env, e));
  }

  /** The next record of a run that succeeds, and where the run goes on. */
  lemma SuccessGoesOn(env: Env, n: nat, input: seq<byte>, store: Store, summary: Summary, ec: Errc)
    requires n > 0 && Records(env, n, input, store, summary, ec).ok
    ensures ReadFileHeader(input).Accepted?
    ensures var e, rest := ReadFileHeader(input).value, ReadFileHeader(input).rest;
            if e.relPath == [] then
              Records(env, n, input, store, summary, ec) ==
              Logged(Skipped(e), Records(env, n - 1, rest, store, summary, ec))
            else Safe(e.relPath) && Receive(env, e, Expected(env, e), rest, store, ec).ok
  {
    hide Safe, ReceiveFile, Place, Target, Count, Expected, ReadFileHeader;
  }

  /** A record that is received goes into the log with its content, and the run goes on behind it. */
  lemma ReceivedGoesOn(env: Env, n: nat, input: seq<byte>, e: FileEntry, rest: seq<byte>, store: Store,
                       summary: Summary, ec: Errc)
    requires n > 0 && ReadFileHeader(input) == Accepted(e, rest) && e.relPath != [] && Safe(e.relPath)
    requires Receive(env, e, Expected(env, e), rest, store, ec).ok
    ensures e.size <= |rest|
    ensures Records(env, n, input, store, summary, ec) ==
            Logged(Stored(e, rest[..e.size]),
              Records(env, n - 1, rest[e.size..], Receive(env, e, Expected(env, e), rest, store, ec).store,
                      Count(summary, e.size, Target(env, e)), ec))
  {
    hide Safe, ReceiveFile, Arrive, Openable, Place, Target, Count, Expected, ReadFileHeader, Matches, OnDisk;
    FileArrives(env, e, Expected(env, e), rest, store, ec);
    OnDiskAfter(env, store, e, rest[..e.size], Receive(env, e, Expected(env, e), rest, store, ec).store);
  }

  lemma TrailerOnly(env: Env, input: seq<byte>, store: Store, summary: Summary, ec: Errc)
    ensures Records(env, 0, input, store, summary, ec) == Trailer(env, input, store, summary, ec)
  {
  }

  /** A run that succeeds only adds places, and its files are all there at the end. */
  lemma {:induction false} RunGrows(env: Env, n: nat, input: seq<byte>, store: Store, summary: Summary, ec: Errc)
    requires Disjoint(store) && Records(env, n, input, store, summary, ec).ok
    ensures var r := Records(env, n, input, store, summary, ec);
            Disjoint(r.store) && Grows(store, r.store) && AllExist(env, r.store, r.log)
    decreases n
  {
    hide Records, Safe, Receive, Arrive, Openable, Place, Target, Count, Expected, ReadFileHeader, Disjoint, Matches,
      Exists;
    if n == 0 {
      TrailerOnly(env, input, store, summary, ec);
    } else {
      SuccessGoesOn(env, n, input, store, summary, ec);
      var e, rest := ReadFileHeader(input).value, ReadFileHeader(input).rest;
      if e.relPath == [] {
        RunGrows(env, n - 1, rest, store, summary, ec);
      } else {
        var l := Receive(env, e, Expected(env, e), rest, store, ec);
        ReceivedGoesOn(env, n, input, e, rest, store, summary, ec);
        FileArrives(env, e, Expected(env, e), rest, store, ec);
        ArrivalGrows(env, store, e, rest[..e.size]);
        SameShape(Arrive(env, store, e, rest[..e.size]), l.store);
        RunGrows(env, n - 1, rest[e.size..], l.store, Count(summary, e.size, Target(env, e)), ec);
        var r' := Records(env, n - 1, rest[e.size..], l.store, Count(summary, e.size, Target(env, e)), ec);
        StillThere(env, l.store, r'.store, e);
        SameShapeExists(env, Arrive(env, store, e, rest[..e.size]), l.store, e);
      }
    }
  }

  lemma StillThere(env: Env, s: Store, s': Store, e: FileEntry)
    requires Grows(s, s')
    ensures Exists(env, s, e) ==> Exists(env, s', e)
  {
    hide Place;
  }

  lemma SameShapeExists(env: Env, a: Store, b: Store, e: FileEntry)
    requires a.files == b.files && a.dirs == b.dirs
    ensures Exists(env, a, e) <==> Exists(env, b, e)
  {
    hide Place;
  }

  lemma SameShape(a: Store, b: Store)
    requires a.files == b.files && a.dirs == b.dirs
    ensures Disjoint(a) <==> Disjoint(b)
  {
  }

  /** Over a store that already has its files, a successful run succeeds again with the same log. */
  lemma {:induction false} RunRepeats(env: Env, n: nat, input: seq<byte>, store: Store, summary: Summary, ec: Errc,
                                      t: Store, summary': Summary)
    requires Records(env, n, input, store, summary, ec).ok
    requires Disjoint(t) && t.answers == [] && AllExist(env, t, Records(env, n, input, store, summary, ec).log)
    ensures var r, r' := Records(env, n, input, store, summary, ec), Records(env, n, input, t, summary', ec);
            r'.ok && r'.log == r.log && r'.rest == r.rest
    decreases n
  {
    hide Records, Safe, Receive, Arrive, Openable, Exists, Place, Target, Count, Expected, ReadFileHeader, Disjoint,
      Matches, AllExist;
    if n == 0 {
      TrailerOnly(env, input, store, summary, ec);
      TrailerOnly(env, input, t, summary', ec);
    } else {
      SuccessGoesOn(env, n, input, store, summary, ec);
      var e, rest := ReadFileHeader(input).value, ReadFileHeader(input).rest;
      var r := Records(env, n, input, store, summary, ec);
      if e.relPath == [] {
        var tail := Records(env, n - 1, rest, store, summary, ec).log;
        StillExist(env, t, t, Skipped(e), tail);
        RunRepeats(env, n - 1, rest, store, summary, ec, t, summary');
        SkippedGoesOn(env, n, input, e, rest, t, summary', ec);
      } else {
        var x := Expected(env, e);
        var l, l' := Receive(env, e, x, rest, store, ec), Receive(env, e, x, rest, t, ec);
        FileArrives(env, e, x, rest, store, ec);
        ReceivedGoesOn(env, n, input, e, rest, store, summary, ec);
        var content, s' := rest[..e.size], Count(summary, e.size, Target(env, e));
        var tail := Records(env, n - 1, rest[e.size..], l.store, s', ec).log;
        FirstExists(env, t, Stored(e, content), tail);
        ExistingOpens(env, t, e);
        FileComplete(env, e, x, rest, t, ec);
        ArrivalGrows(env, t, e, content);
        ArriveGrants(env, t, Source(e, content));
        ReceivedGoesOn(env, n, input, e, rest, t, summary', ec);
        StillExist(env, t, l'.store, Stored(e, content), tail);
        RunRepeats(env, n - 1, rest[e.size..], l.store, s', ec, l'.store, Count(summary', e.size, Target(env, e)));
      }
    }
  }

  lemma SkippedGoesOn(env: Env, n: nat, input: seq<byte>, e: FileEntry, rest: seq<byte>, store: Store,
                      summary: Summary, ec: Errc)
    requires n > 0 && ReadFileHeader(input) == Accepted(e, rest) && e.relPath == []
    ensures Records(env, n, input, store, summary, ec) ==
            Logged(Skipped(e), Records(env, n - 1, rest, store, summary, ec))
  {
  }

  lemma FirstExists(env: Env, s: Store, item: Item, tail: seq<Item>)
    requires AllExist(env, s, [item] + tail) && item.Stored?
    ensures Exists(env, s, item.entry)
  {
    hide Place;
    assert ([item] + tail)[0] == item;
  }

  lemma OnDiskAfter(env: Env, s: Store, e: FileEntry, content: seq<byte>, s': Store)
    requires s'.files == Arrive(env, s, e, content).files
    ensures OnDisk(s', Place(env, e)) == content
  {
    hide Place, Target, MakeParent;
  }

  lemma StillExist(env: Env, s: Store, s': Store, item: Item, tail: seq<Item>)
    requires AllExist(env, s, [item] + tail) && Grows(s, s')
    ensures AllExist(env, s', tail)
  {
    hide Place;
    assert forall i :: 0 <= i < |tail| ==> tail[i] == ([item] + tail)[i + 1];
  }

  /** A store that has the same files and at least the same directories, and grants everything. */
  predicate Later(s: Store, t: Store) {
    t.files == s.files && s.dirs <= t.dirs && t.answers == [] && Disjoint(t)
  }

  /** Replaying records that were received succeeds again and leaves the file map unchanged. */
  lemma Replay(env: Env, n: nat, input: seq<byte>, store: Store, summary: Summary, ec: Errc, t: Store,
               summary': Summary)
    requires env.outDir != [] && Disjoint(store) && Records(env, n, input, store, summary, ec).ok
    requires Later(Records(env, n, input, store, summary, ec).store, t)
    ensures var r := Records(env, n, input, store, summary, ec);
            var r' := Records(env, n, input, t, summary', ec);
            r'.ok && r'.log == r.log && r'.rest == r.rest && r'.store.files == r.store.files
  {
    hide Records, Exists, AllKept, EncodeLog, OnlyUnder, LogFiles;
    var r := Records(env, n, input, store, summary, ec);
    RunGrows(env, n, input, store, summary, ec);
    LaterExisting(env, r.store, t, r.log);
    RunRepeats(env, n, input, store, summary, ec, t, summary');
    RecordsGuaranteed(env, n, input, store, summary, ec);
    RecordsGuaranteed(env, n, input, t, summary', ec);
    MergeTwice(store.files, LogFiles(env, r.log));
  }

  lemma LaterExisting(env: Env, a: Store, b: Store, log: seq<Item>)
    requires a.files == b.files && a.dirs <= b.dirs && AllExist(env, a, log)
    ensures AllExist(env, b, log)
  {
    hide Place;
  }

  lemma MergeTwice(a: map<Loc, seq<byte>>, b: map<Loc, seq<byte>>)
    ensures (a + b) + b == a + b
  {
  }

  // ---- whole sessions over any stream ----

  /** A session that does not read a valid header, or finds no directory, leaves every file alone;
      otherwise the guarantee holds for as many records as the header announces. */
  lemma SessionGuaranteed(env: Env, createDir: bool, input: seq<byte>, store: Store, summary: Summary, ec: Errc)
    requires env.outDir != []
    ensures var r := Receiving(env, createDir, input, store, summary, ec);
            match ReadHeader(input)
            case Accepted(h, rest) => Guaranteed(env, h.totalFiles, rest, store, summary, r)
            case _ => !r.ok && r.log == [] && r.summary == summary && r.store == store
  {
    hide Guaranteed, Base, MakeDirs, Records, Confined, Settled;
    match ReadHeader(input)
    case Accepted(h, rest) =>
      var store' := Prepared(env, createDir, store);
      PreparedConfined(env, createDir, store);
      if Base(env) in store'.dirs {
        var r := Records(env, h.totalFiles, rest, store', summary, ec);
        RecordsGuaranteed(env, h.totalFiles, rest, store', summary, ec);
        SameGuarantee(env, h.totalFiles, rest, store, store', summary, r);
      } else {
        SettledUntouched(env, rest, store.files);
        GuaranteeStop(env, h.totalFiles, rest, store, summary, Receiving(env, createDir, input, store, summary, ec));
      }
    case _ =>
  }

  lemma SettledUntouched(env: Env, left: seq<byte>, files: map<Loc, seq<byte>>)
    ensures Settled(env, false, left, files, files)
  {
  }

  lemma PreparedConfined(env: Env, createDir: bool, store: Store)
    ensures Confined(env, store, Prepared(env, createDir, store))
  {
    hide Base, MakeDirs;
    var s := Prepared(env, createDir, store);
    forall d | d in s.dirs && d !in store.dirs ensures d <= Base(env) {
      MadeDirs(store, Base(env), d);
    }
  }

  lemma SameGuarantee(env: Env, n: nat, input: seq<byte>, store: Store, store': Store, summary: Summary, r: Run)
    requires store.files == store'.files && Confined(env, store, store') &&
             Guaranteed(env, n, input, store', summary, r)
    ensures Guaranteed(env, n, input, store, summary, r)
  {
    hide AllKept, Tally, EncodeLog, LogFiles, Confined, Settled;
    ConfinedInTurn(env, store, store', r.store);
  }

  /** Idempotence: a session that succeeded succeeds again over its own result, and changes no file. */
  lemma SessionReplay(env: Env, createDir: bool, input: seq<byte>, store: Store, summary: Summary, ec: Errc,
                      summary': Summary)
    requires env.outDir != [] && Disjoint(store) && Receiving(env, createDir, input, store, summary, ec).ok
    ensures var r := Receiving(env, createDir, input, store, summary, ec);
            var r' := Receiving(env, createDir, input, r.store.(answers := []), summary', ec);
            r'.ok && r'.log == r.log && r'.rest == r.rest && r'.store.files == r.store.files
  {
    hide Base, MakeDirs, Records, DecodeHeader, Disjoint;
    var h, rest := ReadHeader(input).value, ReadHeader(input).rest;
    var store' := Prepared(env, createDir, store);
    var r := Records(env, h.totalFiles, rest, store', summary, ec);
    PreparedDisjoint(env, createDir, store);
    RunGrows(env, h.totalFiles, rest, store', summary, ec);
    var t := Prepared(env, createDir, r.store.(answers := []));
    SameShape(r.store, r.store.(answers := []));
    PreparedDisjoint(env, createDir, r.store.(answers := []));
    Replay(env, h.totalFiles, rest, store', summary, ec, t, summary');
  }

  lemma PreparedDisjoint(env: Env, createDir: bool, s: Store)
    requires Disjoint(s)
    ensures Disjoint(Prepared(env, createDir, s))
  {
    hide Base;
    forall d | d in MakeDirs(s, Base(env)).dirs ensures d !in s.files {
      MadeDirs(s, Base(env), d);
    }
  }
}
