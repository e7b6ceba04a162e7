/** The receiver as it runs, against the pure session. */
module Receiver {
  import opened BitStrings
  import opened LittleEndian
  import opened Crc32c
  import opened Wire
  import opened Paths
  import opened Disk
  import opened Transfers
  import opened Net
  import opened WireIo
  import opened Session
  import opened SessionTheory
  import opened Delivery
  import opened Safety
  import opened Failures

  datatype Options = Options(outputDir: Text, createDir: bool, verifyCrc: bool)

  predicate Forbidden(part: Text) {
    part == DOTDOT || part == ROOT || part == BACKSLASH
  }

  lemma SafeByComponents(rel: Text)
    ensures Safe(rel) <==> forall i :: 0 <= i < |Components(rel)| ==> !Forbidden(Components(rel)[i])
  {
    ComponentsOf(rel);
    assert ROOT[0] == SLASH;
    hide Names, Components;
    if Safe(rel) {
      forall i | 0 <= i < |Components(rel)| ensures !Forbidden(Components(rel)[i]) {
        assert Components(rel)[i] in Components(rel);
      }
    } else {
      assert DOTDOT in Components(rel) || ROOT in Components(rel) || BACKSLASH in Components(rel);
    }
  }

  /** Reject '..', '\' and absolute paths; otherwise join with the output directory. */
  method ValidateAndJoin(outDir: Text, rel: Text, ec0: Errc) returns (ok: bool, safe: Text, ec: Errc)
    ensures ok <==> Safe(rel)
    ensures ok ==> safe == Join(outDir, rel) && ec == ec0
    ensures !ok ==> ec == InvalidArgument
    // in plain bytes: no leading 2F, no piece 2E 2E or 5C between the bytes 2F
    ensures ok <==> (rel == [] || rel[0] != 0x2F) && !HasPiece(rel, [0x2E, 0x2E]) && !HasPiece(rel, [0x5C])
    ensures ok ==> safe == outDir + (if outDir == [] || outDir[|outDir| - 1] == 0x2F then [] else [0x2F]) + rel
  {
    hide Names, Components, Join, Safe, Forbidden, HasPiece;
    SafeInBytes(rel);
    JoinInBytes(outDir, rel);
    ok, safe, ec := true, [], ec0;
    var parts := Components(rel);
    for i := 0 to |parts|
      invariant forall k :: 0 <= k < i ==> !Forbidden(parts[k])
    {
      if Forbidden(parts[i]) {
        SafeByComponents(rel);
        return false, safe, InvalidArgument;
      }
    }
    if Absolute(rel) {
      AbsoluteIsUnsafe(rel);
      return false, safe, InvalidArgument;
    }
    SafeByComponents(rel);
    safe := Join(outDir, rel);
  }

  lemma AbsoluteIsUnsafe(rel: Text)
    ensures Absolute(rel) ==> !Safe(rel)
  {
  }

  /** The result is that of the pure payload loop; missing is what an unfinished read still waits for. */
  predicate Lands(ok: bool, ec: Errc, incoming: seq<byte>, missing: nat, store: Store, l: Landing) {
    ok == l.ok && ec == l.ec && incoming == l.rest && missing == l.need && store == l.store
  }

  /** The next chunk: read it in full and add it to the checksum. */
  method TakeChunk(sock: Socket, buf: array<byte>, crc: Crc32, want: nat, ec0: Errc)
    returns (ok: bool, ec: Errc, ghost missing: nat)
    requires crc.table.Valid() && want <= buf.Length && want <= CHUNK
    modifies sock`incoming, sock`recvCounts, sock`marks, buf, crc
    ensures ok <==> want <= |old(sock.incoming)|
    ensures ok ==> buf[..want] == old(sock.incoming)[..want] && sock.incoming == old(sock.incoming)[want..]
    ensures ok ==> crc.state == Register(old(crc.state), old(sock.incoming)[..want]) && ec == ec0 && missing == 0
    ensures !ok ==> sock.incoming == [] && ec == sock.EndError() && missing == want - |old(sock.incoming)|
    ensures old(sock.marks) <= sock.marks
  {
    hide Register, Repeat;
    ok, ec, missing := sock.RecvAll(buf, want, ec0);
    if ok {
      crc.Update(buf, want);
    }
  }

  /** The chunk loop of one payload; added is what the progress display was told. */
  method StreamPayload(sock: Socket, disk: FileSystem, table: Table, env: Env, at: Loc, size: u64, ec0: Errc)
    returns (ok: bool, crc: Crc32, ec: Errc, added: nat, ghost missing: nat)
    requires table.Valid() && env.eof == sock.EndError() && at in disk.store.files
    modifies sock`incoming, sock`recvCounts, sock`marks, disk`store
    ensures var l := Payload(env, at, size, old(sock.incoming), old(disk.store), ONES, ec0);
            Lands(ok, ec, sock.incoming, missing, disk.store, l) && (ok ==> crc.state == l.crc)
    ensures ok ==> added == size && ec == ec0
    ensures old(sock.marks) <= sock.marks
  {
    hide Register, Payload, AppendFile, Lands, Repeat, Table.Valid;
    ec, added, missing := ec0, 0, 0;
    var buf := new byte[CHUNK];
    crc := new Crc32(table);
    var remaining: nat := size;
    ghost var whole := Payload(env, at, size, sock.incoming, disk.store, ONES, ec0);
    while remaining > 0
      invariant at in disk.store.files && remaining <= size && added == size - remaining && ec == ec0
      invariant old(sock.marks) <= sock.marks && missing == 0
      invariant crc.table == table && table.Valid() && env.eof == sock.EndError()
      invariant whole == Payload(env, at, remaining, sock.incoming, disk.store, crc.state, ec0)
    {
      ghost var input, store, s := sock.incoming, disk.store, crc.state;
      var want := Min(remaining, CHUNK);
      ok, ec, missing := TakeChunk(sock, buf, crc, want, ec);
      if !ok {
        PayloadShort(env, at, remaining, input, store, s, ec0);
        return;
      }
      ok := disk.Write(at, buf[..want]);
      PayloadGoesOn(env, at, remaining, input, store, s, ec0, ok, disk.store);
      if !ok {
        ec := IoError;
        return;
      }
      remaining := remaining - want;
      added := added + want;
    }
    ok := true;
    PayloadDone(env, at, sock.incoming, disk.store, crc.state, ec0);
  }

  /** Make the parent directory and open the target for writing, truncated. */
  method OpenTarget(disk: FileSystem, target: Text) returns (ok: bool)
    modifies disk`store
    ensures (ok, disk.store) == Open(MakeParent(old(disk.store), disk.cwd, target), Locate(disk.cwd, target),
                                     NamesFile(target))
  {
    hide MakeParent, Open, HasParentPath, ParentOf, Locate, MakeDirs;
    ParentMade(disk.store, disk.cwd, target);
    if HasParentPath(target) {
      disk.CreateDirectories(ParentOf(disk.cwd, target));
    }
    ok := disk.OpenTruncated(target);
  }

  /** Stream size bytes into target and compare the checksum. */
  method ReceivePayloadToFile(sock: Socket, disk: FileSystem, table: Table, env: Env, target: Text, size: u64,
                              expected: u32, ec0: Errc)
    returns (ok: bool, actualCrc: u32, ec: Errc, added: nat, ghost missing: nat)
    requires table.Valid() && env.cwd == disk.cwd && env.eof == sock.EndError()
    modifies sock`incoming, sock`recvCounts, sock`marks, disk`store
    ensures var l := ReceiveFile(env, target, size, expected, old(sock.incoming), old(disk.store), ec0);
            Lands(ok, ec, sock.incoming, missing, disk.store, l) && (ok ==> actualCrc == l.crc)
    ensures ok ==> added == size
    ensures old(sock.marks) <= sock.marks
  {
    hide Xor32, MakeParent, Payload, Open, ReceiveFile, Locate, Lands, Judged;
    actualCrc, ec, added, missing := 0, ec0, 0, 0;
    ghost var input, store := sock.incoming, disk.store;
    ok := OpenTarget(disk, target);
    if !ok {
      NotEntered(env, target, size, expected, input, store, ec0);
      ec := PermissionDenied;
      return;
    }
    Entered(env, target, size, expected, input, store, ec0);
    var at := Locate(disk.cwd, target);
    ghost var whole := Payload(env, at, size, input, disk.store, ONES, ec0);
    var crc;
    ok, crc, ec, added, missing := StreamPayload(sock, disk, table, env, at, size, ec);
    if !ok {
      NotConcluded(ec, sock.incoming, missing, disk.store, whole, expected);
      return;
    }
    actualCrc := crc.Final();
    if expected != 0 && actualCrc != expected {
      ok, ec := false, BadMessage;
    }
    Concluded(ok, ec, ec0, sock.incoming, missing, disk.store, actualCrc, whole, expected);
  }

  /** From the payload loop to the whole file: the checksum comparison. */
  function Judged(p: Landing, expected: u32): Landing {
    var crc := Xor32(p.crc, ONES);
    if p.ok && expected != 0 && crc != expected then p.(ok := false, ec := BadMessage, crc := crc) else p.(crc := crc)
  }

  lemma NotConcluded(ec: Errc, incoming: seq<byte>, missing: nat, store: Store, p: Landing, expected: u32)
    requires Lands(false, ec, incoming, missing, store, p)
    ensures Lands(false, ec, incoming, missing, store, Judged(p, expected))
  {
    hide Xor32;
  }

  lemma Concluded(ok: bool, ec: Errc, ec0: Errc, incoming: seq<byte>, missing: nat, store: Store, crc: u32,
                  p: Landing, expected: u32)
    requires Lands(true, ec0, incoming, missing, store, p) && crc == Xor32(p.crc, ONES)
    requires ok == !(expected != 0 && crc != expected) && ec == (if ok then ec0 else BadMessage)
    ensures Lands(ok, ec, incoming, missing, store, Judged(p, expected)) && crc == Judged(p, expected).crc
  {
    hide Xor32;
  }

  lemma NotEntered(env: Env, target: Text, size: u64, expected: u32, input: seq<byte>, store: Store, ec: Errc)
    requires !Open(MakeParent(store, env.cwd, target), Locate(env.cwd, target), NamesFile(target)).0
    ensures var store' := Open(MakeParent(store, env.cwd, target), Locate(env.cwd, target), NamesFile(target)).1;
            Lands(false, PermissionDenied, input, 0, store', ReceiveFile(env, target, size, expected, input, store, ec))
  {
    hide Payload, MakeParent, Xor32, Locate;
  }

  lemma Entered(env: Env, target: Text, size: u64, expected: u32, input: seq<byte>, store: Store, ec: Errc)
    requires Open(MakeParent(store, env.cwd, target), Locate(env.cwd, target), NamesFile(target)).0
    ensures var at := Locate(env.cwd, target);
            var store' := Open(MakeParent(store, env.cwd, target), at, NamesFile(target)).1;
            at in store'.files &&
            ReceiveFile(env, target, size, expected, input, store, ec) ==
            Judged(Payload(env, at, size, input, store', ONES, ec), expected)
  {
    hide Payload, MakeParent, Xor32, Locate;
  }

  lemma PayloadDone(env: Env, at: Loc, input: seq<byte>, store: Store, s: u32, ec: Errc)
    requires at in store.files
    ensures Payload(env, at, 0, input, store, s, ec) == Landing(true, ec, input, 0, store, s)
    ensures Lands(true, ec, input, 0, store, Payload(env, at, 0, input, store, s, ec))
  {
  }

  lemma PayloadShort(env: Env, at: Loc, remaining: nat, input: seq<byte>, store: Store, s: u32, ec: Errc)
    requires at in store.files && remaining > 0 && |input| < Min(remaining, CHUNK)
    ensures Lands(false, env.eof, [], Min(remaining, CHUNK) - |input|, store,
                  Payload(env, at, remaining, input, store, s, ec))
  {
    hide Register;
  }

  lemma PayloadGoesOn(env: Env, at: Loc, remaining: nat, input: seq<byte>, store: Store, s: u32, ec: Errc,
                      ok: bool, store': Store)
    requires at in store.files && remaining > 0 && |input| >= Min(remaining, CHUNK)
    requires (ok, store') == AppendFile(store, at, input[..Min(remaining, CHUNK)])
    ensures var want := Min(remaining, CHUNK);
            var l := Payload(env, at, remaining, input, store, s, ec);
            if !ok then Lands(false, IoError, input[want..], 0, store', l)
            else at in store'.files &&
                 l == Payload(env, at, remaining - want, input[want..], store', Register(s, input[..want]), ec)
  {
    hide Register;
  }

  function EnvOf(disk: FileSystem, sock: Socket, options: Options): Env
    reads disk, sock
  {
    Env(disk.cwd, if options.outputDir == [] then disk.cwdText else options.outputDir, options.verifyCrc,
        sock.EndError())
  }

  lemma LoggedNone(r: Run)
    ensures LoggedAll([], r) == r
  {
    assert [] + r.log == r.log;
  }

  lemma LoggedMore(log: seq<Item>, item: Item, r: Run)
    ensures LoggedAll(log, Logged(item, r)) == LoggedAll(log + [item], r)
  {
    assert log + ([item] + r.log) == (log + [item]) + r.log;
  }

  /** The result is that of the pure run; missing is what an unfinished read still waits for. */
  predicate Agrees(ok: bool, summary: Summary, ec: Errc, incoming: seq<byte>, missing: nat, store: Store, r: Run) {
    ok == r.ok && summary == r.summary && ec == r.ec && incoming == r.rest && missing == r.need && store == r.store
  }

  lemma RecordsEnd(env: Env, input: seq<byte>, store: Store, summary: Summary, ec: Errc)
    ensures var r := Records(env, 0, input, store, summary, ec);
            r.log == [] &&
            if |input| < 4 then Agrees(true, summary, env.eof, [], 4 - |input|, store, r)
            else Agrees(true, summary, ec, input[4..], 0, store, r)
  {
  }

  lemma RecordsStop(env: Env, n: nat, input: seq<byte>, store: Store, summary: Summary, ec: Errc)
    requires n > 0 && !ReadFileHeader(input).Accepted?
    ensures var r := Records(env, n, input, store, summary, ec); var h := ReadFileHeader(input);
            r.log == [] &&
            if h.Starved? then Agrees(false, summary, env.eof, [], h.missing, store, r)
            else Agrees(false, summary, InvalidArgument, h.rest, 0, store, r)
  {
    hide ReadFileHeader;
  }

  lemma RecordsUnsafe(env: Env, n: nat, input: seq<byte>, store: Store, summary: Summary, ec: Errc)
    requires n > 0 && ReadFileHeader(input).Accepted?
    requires ReadFileHeader(input).value.relPath != [] && !Safe(ReadFileHeader(input).value.relPath)
    ensures var r := Records(env, n, input, store, summary, ec);
            r.log == [] && Agrees(false, summary, InvalidArgument, ReadFileHeader(input).rest, 0, store, r)
  {
    hide ReadFileHeader, Safe, ReceiveFile, Place, Target, Expected;
  }

  lemma RecordsFile(env: Env, n: nat, input: seq<byte>, store: Store, summary: Summary, ec: Errc)
    requires n > 0 && ReadFileHeader(input).Accepted?
    requires ReadFileHeader(input).value.relPath != [] && Safe(ReadFileHeader(input).value.relPath)
    ensures var e, rest := ReadFileHeader(input).value, ReadFileHeader(input).rest;
            var t := Join(env.outDir, e.relPath);
            var l := ReceiveFile(env, t, e.size, if env.verify then e.crc32 else 0, rest, store, ec);
            var r := Records(env, n, input, store, summary, ec);
            if !l.ok then r.log == [] && Agrees(false, summary, l.ec, l.rest, l.need, l.store, r)
            else l.ec == ec && r == Logged(Stored(e, OnDisk(l.store, Place(env, e))),
                                           Records(env, n - 1, l.rest, l.store, Count(summary, e.size, t), ec))
  {
    hide ReadFileHeader, ReceiveFile, Safe, Join, Place, OnDisk;
    var e, rest := ReadFileHeader(input).value, ReadFileHeader(input).rest;
    if Receive(env, e, Expected(env, e), rest, store, ec).ok {
      FileArrives(env, e, Expected(env, e), rest, store, ec);
    }
  }

  /** What one turn of the record loop makes of the pure run. */
  ghost predicate Turned(ok: bool, item: Item, r: Run, next: Run, summary: Summary, ec: Errc, incoming: seq<byte>,
                         missing: nat, store: Store) {
    if ok then r == Logged(item, next) else r.log == [] && Agrees(false, summary, ec, incoming, missing, store, r)
  }

  /** One record: read its header, check its path, receive its payload. */
  method ReceiveRecord(sock: Socket, disk: FileSystem, table: Table, env: Env, ghost n: nat, summary0: Summary,
                       ec0: Errc)
    returns (ok: bool, summary: Summary, ec: Errc, ghost item: Item, ghost missing: nat)
    requires table.Valid() && env.cwd == disk.cwd && env.eof == sock.EndError() && n > 0
    modifies sock`incoming, sock`recvCounts, sock`marks, disk`store
    ensures Turned(ok, item, Records(env, n, old(sock.incoming), old(disk.store), summary0, ec0),
                   Records(env, n - 1, sock.incoming, disk.store, summary, ec0), summary, ec, sock.incoming, missing,
                   disk.store)
    ensures ok ==> ec == ec0
    ensures old(sock.marks) <= sock.marks
  {
    hide Records, ReadFileHeader, ReceiveFile, Safe, Join, Place, OnDisk, Count, Agrees, Logged, Repeat, Table.Valid;
    summary := summary0;
    ghost var input, store := sock.incoming, disk.store;
    var entry;
    ok, entry, ec, missing := ReadFileHeaderFrom(sock, ec0);
    item := Skipped(entry);
    if !ok {
      RecordsStop(env, n, input, store, summary, ec0);
      return;
    }
    if entry.relPath == [] {
      RecordsSkip(env, n, input, store, summary, ec0);
      return;
    }
    var safe;
    ok, safe, ec := ValidateAndJoin(env.outDir, entry.relPath, ec);
    if !ok {
      RecordsUnsafe(env, n, input, store, summary, ec0);
      return;
    }
    RecordsFile(env, n, input, store, summary, ec0);
    var crc, added;
    ok, crc, ec, added, missing := ReceivePayloadToFile(sock, disk, table, env, safe, entry.size,
                                                        if env.verify then entry.crc32 else 0, ec);
    if !ok {
      return;
    }
    item := Stored(entry, OnDisk(disk.store, Place(env, entry)));
    summary := Count(summary, entry.size, safe);
  }

  lemma RecordsSkip(env: Env, n: nat, input: seq<byte>, store: Store, summary: Summary, ec: Errc)
    requires n > 0 && ReadFileHeader(input).Accepted? && ReadFileHeader(input).value.relPath == []
    ensures var h := ReadFileHeader(input);
            Records(env, n, input, store, summary, ec) ==
            Logged(Skipped(h.value), Records(env, n - 1, h.rest, store, summary, ec))
  {
    hide ReadFileHeader;
  }

  /** The record loop: it refines Records, whatever the segmentation of the stream. */
  method ReceiveRecords(sock: Socket, disk: FileSystem, table: Table, env: Env, total: u64, summary0: Summary,
                        ec0: Errc)
    returns (ok: bool, summary: Summary, ec: Errc, ghost log: seq<Item>, ghost missing: nat)
    requires table.Valid() && env.cwd == disk.cwd && env.eof == sock.EndError()
    modifies sock`incoming, sock`recvCounts, sock`marks, disk`store
    ensures var r := Records(env, total, old(sock.incoming), old(disk.store), summary0, ec0);
            Agrees(ok, summary, ec, sock.incoming, missing, disk.store, r) && log == r.log
    ensures old(sock.marks) <= sock.marks
  {
    hide Records, Agrees, LoggedAll, Logged, DecodeDone, Repeat, Table.Valid;
    summary, ec, log, missing := summary0, ec0, [], 0;
    ghost var whole := Records(env, total, sock.incoming, disk.store, summary0, ec0);
    LoggedNone(whole);
    for i := 0 to total
      invariant ec == ec0 && table.Valid() && env.eof == sock.EndError() && old(sock.marks) <= sock.marks
      invariant whole == LoggedAll(log, Records(env, total - i, sock.incoming, disk.store, summary, ec0))
    {
      ghost var now := Records(env, total - i, sock.incoming, disk.store, summary, ec0);
      ghost var item;
      ok, summary, ec, item, missing := ReceiveRecord(sock, disk, table, env, total - i, summary, ec);
      if !ok {
        StopLogged(ok, summary, ec, sock.incoming, missing, disk.store, log, now);
        return;
      }
      LoggedMore(log, item, Records(env, total - i - 1, sock.incoming, disk.store, summary, ec0));
      log := log + [item];
    }
    ghost var now := Records(env, 0, sock.incoming, disk.store, summary, ec0);
    RecordsEnd(env, sock.incoming, disk.store, summary, ec0);
    var done;
    done, ec, missing := ReadDone(sock, ec);
    ok := true;
    StopLogged(ok, summary, ec, sock.incoming, missing, disk.store, log, now);
  }

  lemma StopLogged(ok: bool, summary: Summary, ec: Errc, incoming: seq<byte>, missing: nat, store: Store,
                   log: seq<Item>, r: Run)
    requires Agrees(ok, summary, ec, incoming, missing, store, r) && r.log == []
    ensures Agrees(ok, summary, ec, incoming, missing, store, LoggedAll(log, r)) && LoggedAll(log, r).log == log
  {
    assert log + [] == log;
  }

  /** What the receiver did, in terms of the pure session: the same result, error, files, summary and
      consumption. The counts by which the stream arrives do not appear. */
  ghost predicate Did(sock: Socket, disk: FileSystem, ok: bool, summary: Summary, ec: Errc, missing: nat, r: Run)
    reads sock, disk
  {
    Agrees(ok, summary, ec, sock.incoming, missing, disk.store, r)
  }

  /** The session once the acknowledgement is out. */
  function AfterAck(env: Env, createDir: bool, total: u64, input: seq<byte>, store: Store, summary: Summary,
                    ec: Errc): Run {
    var store' := Prepared(env, createDir, store);
    if Base(env) !in store'.dirs then Run(false, NotADirectory, input, 0, store', summary, [])
    else Records(env, total, input, store', summary, ec)
  }

  lemma ReceivingUnfolds(env: Env, createDir: bool, input: seq<byte>, store: Store, summary: Summary, ec: Errc)
    ensures match ReadHeader(input)
            case Starved(m) =>
              Agrees(false, summary, env.eof, [], m, store, Receiving(env, createDir, input, store, summary, ec))
            case Refused(rest) =>
              Agrees(false, summary, InvalidArgument, rest, 0, store,
                     Receiving(env, createDir, input, store, summary, ec))
            case Accepted(h, rest) =>
              Receiving(env, createDir, input, store, summary, ec) ==
              AfterAck(env, createDir, h.totalFiles, rest, store, summary, ec)
  {
    hide ReadHeader, Records, MakeDirs;
  }

  // ---- what the options promise ----

  /** A stored item has its declared size and, if asked for, its declared checksum. */
  predicate Lawful(options: Options, item: Item) {
    item.Stored? ==>
      |item.content| == item.entry.size &&
      (options.verifyCrc && item.entry.crc32 != 0 ==> Checksum(item.content) == item.entry.crc32)
  }

  /** The stored items are counted, their sizes summed modulo 2^64, and their paths under dir listed in order. */
  predicate Summed(dir: Text, before: Summary, xs: seq<Source>, after: Summary) {
    after.totalFiles == (before.totalFiles + |xs|) % 0x1_0000_0000_0000_0000 &&
    after.totalBytes == (before.totalBytes + SizeSum(EntriesOf(xs))) % 0x1_0000_0000_0000_0000 &&
    after.writtenPaths ==
    before.writtenPaths + seq(|xs|, i requires 0 <= i < |xs| => Join(dir, xs[i].entry.relPath))
  }

  /** Item k is the last one stored in its place. */
  predicate LastInPlace(cwd: Loc, dir: Text, log: seq<Item>, k: nat)
    requires k < |log|
  {
    log[k].Stored? &&
    forall j :: k < j < |log| && log[j].Stored? ==>
      Locate(cwd, Join(dir, log[j].entry.relPath)) != Locate(cwd, Join(dir, log[k].entry.relPath))
  }

  /** The file is where dir and its path lead, with the content that was received last. */
  predicate InPlace(cwd: Loc, dir: Text, log: seq<Item>, files: map<Loc, seq<byte>>) {
    forall k :: 0 <= k < |log| && LastInPlace(cwd, dir, log, k) ==>
      var at := Locate(cwd, Join(dir, log[k].entry.relPath)); at in files && files[at] == log[k].content
  }

  /** The output directory is there, or is made. */
  predicate HasBase(options: Options, base: Loc, store: Store) {
    base in store.dirs || (options.createDir && forall k :: 0 <= k <= |base| ==> base[..k] !in store.files)
  }

  /** What a receiver does with the stream behind the header, in terms of its options: without its output directory it
      fails at once, and without create_dir makes none; otherwise it keeps what is guaranteed for this directory and
      this setting of verify_crc, every failure has its reason, and on success every file is in its place. */
  ghost predicate Honoured(options: Options, cwd: Loc, cwdText: Text, eof: Errc, total: nat, input: seq<byte>,
                           store: Store, summary: Summary, r: Run) {
    var dir := if options.outputDir == [] then cwdText else options.outputDir;
    var env := Env(cwd, dir, options.verifyCrc, eof);
    if !HasBase(options, Locate(cwd, dir), store) then
      !r.ok && r.ec == NotADirectory && r.rest == input && r.need == 0 && r.log == [] && r.summary == summary &&
      r.store.files == store.files && (!options.createDir ==> r.store == store)
    else
      && Guaranteed(env, total, input, store, summary, r) && Explained(env, input, r)
      && (forall k :: 0 <= k < |r.log| ==> Lawful(options, r.log[k]))
      && Summed(dir, summary, StoredIn(r.log), r.summary)
      && (r.ok ==> InPlace(cwd, dir, r.log, r.store.files))
  }

  lemma HasBaseIff(options: Options, base: Loc, store: Store)
    ensures HasBase(options, base, store) <==>
            base in (if options.createDir then MakeDirs(store, base) else store).dirs
  {
    assert base[..|base|] == base;
    if options.createDir && base in MakeDirs(store, base).dirs && base !in store.dirs {
      var k :| 0 <= k <= |base| && (forall j | 0 <= j <= k :: base[..j] !in store.files) && base == base[..k];
      assert k == |base|;
    }
  }

  lemma KeptIsLawful(options: Options, env: Env, log: seq<Item>)
    requires AllKept(env, log) && env.verify == options.verifyCrc
    ensures forall k :: 0 <= k < |log| ==> Lawful(options, log[k])
  {
    hide Safe, Checksum;
    forall k | 0 <= k < |log| ensures Lawful(options, log[k]) {
      assert Kept(env, log[k]);
    }
  }

  lemma TalliesAreSums(env: Env, summary: Summary, log: seq<Item>)
    ensures Summed(env.outDir, summary, StoredIn(log), Tally(env, summary, log))
  {
    hide Tally, CountAll, StoredIn, Join;
    var xs := StoredIn(log);
    TallyMeaning(env, summary, log);
    SummaryMeaning(env, summary, xs);
    assert TargetsOf(env, xs) == seq(|xs|, i requires 0 <= i < |xs| => Join(env.outDir, xs[i].entry.relPath));
  }

  lemma {:induction false} LastWins(env: Env, log: seq<Item>, k: nat)
    requires k < |log| && LastInPlace(env.cwd, env.outDir, log, k)
    ensures var at := Place(env, log[k].entry); at in LogFiles(env, log) && LogFiles(env, log)[at] == log[k].content
    decreases |log|
  {
    hide Join, Locate;
    if k == 0 {
      NotInLater(env, log[1..], Place(env, log[0].entry));
    } else {
      assert forall j :: 0 <= j < |log| - 1 ==> log[1..][j] == log[j + 1];
      LastWins(env, log[1..], k - 1);
    }
  }

  lemma {:induction false} NotInLater(env: Env, log: seq<Item>, at: Loc)
    requires forall j :: 0 <= j < |log| && log[j].Stored? ==> Place(env, log[j].entry) != at
    ensures at !in LogFiles(env, log)
    decreases |log|
  {
    hide Place;
    if log == [] {
    } else {
      NotInLater(env, log[1..], at);
    }
  }

  lemma LogInPlace(env: Env, log: seq<Item>, files: map<Loc, seq<byte>>)
    ensures InPlace(env.cwd, env.outDir, log, files + LogFiles(env, log))
  {
    hide Join, Locate, LogFiles;
    forall k | 0 <= k < |log| && LastInPlace(env.cwd, env.outDir, log, k)
      ensures var at := Locate(env.cwd, Join(env.outDir, log[k].entry.relPath));
              at in LogFiles(env, log) && LogFiles(env, log)[at] == log[k].content
    {
      LastWins(env, log, k);
    }
  }

  /** The pure session honours the options. */
  lemma Honours(options: Options, cwd: Loc, cwdText: Text, eof: Errc, total: u64, input: seq<byte>, store: Store,
                summary: Summary, ec: Errc)
    requires options.outputDir != [] || cwdText != []
    ensures var dir := if options.outputDir == [] then cwdText else options.outputDir;
            var env := Env(cwd, dir, options.verifyCrc, eof);
            Honoured(options, cwd, cwdText, eof, total, input, store, summary,
                     AfterAck(env, options.createDir, total, input, store, summary, ec))
  {
    hide Guaranteed, Explained, Lawful, Summed, InPlace, HasBase, Records, MakeDirs, Locate;
    var dir := if options.outputDir == [] then cwdText else options.outputDir;
    var env := Env(cwd, dir, options.verifyCrc, eof);
    var store' := Prepared(env, options.createDir, store);
    HasBaseIff(options, Locate(cwd, dir), store);
    if Base(env) in store'.dirs {
      var r := Records(env, total, input, store', summary, ec);
      PreparedConfined(env, options.createDir, store);
      RecordsGuaranteed(env, total, input, store', summary, ec);
      SameGuarantee(env, total, input, store, store', summary, r);
      RecordsExplained(env, total, input, store', summary, ec);
      GuaranteedParts(env, total, input, store, summary, r);
      KeptIsLawful(options, env, r.log);
      TalliesAreSums(env, summary, r.log);
      LogInPlace(env, r.log, store.files);
    }
  }

  lemma GuaranteedParts(env: Env, n: nat, input: seq<byte>, store: Store, summary: Summary, r: Run)
    requires Guaranteed(env, n, input, store, summary, r)
    ensures AllKept(env, r.log) && r.summary == Tally(env, summary, r.log)
    ensures r.ok ==> r.store.files == store.files + LogFiles(env, r.log)
  {
    hide AllKept, Tally, LogFiles, EncodeLog, Confined;
  }

  /** The output directory, then the records. */
  method ReceiveFiles(sock: Socket, disk: FileSystem, table: Table, options: Options, total: u64, summary0: Summary,
                      ec0: Errc)
    returns (ok: bool, summary: Summary, ec: Errc, ghost missing: nat, ghost log: seq<Item>)
    requires table.Valid() && disk.cwdText != []
    modifies sock`incoming, sock`recvCounts, sock`marks, disk`store
    ensures Did(sock, disk, ok, summary, ec, missing,
                AfterAck(old(EnvOf(disk, sock, options)), options.createDir, total, old(sock.incoming), old(disk.store),
                         summary0, ec0))
    ensures Honoured(options, disk.cwd, disk.cwdText, if sock.ending == Clear then ConnectionReset else sock.ending,
                     total,
                     old(sock.incoming), old(disk.store), summary0,
                     Run(ok, ec, sock.incoming, missing, disk.store, summary, log))
    ensures old(sock.marks) <= sock.marks
  {
    hide Records, MakeDirs, Locate, Honoured, Agrees, AfterAck;
    ghost var input, store := sock.incoming, disk.store;
    ghost var r := AfterAck(EnvOf(disk, sock, options), options.createDir, total, input, store, summary0, ec0);
    Honours(options, disk.cwd, disk.cwdText, sock.EndError(), total, input, store, summary0, ec0);
    AfterAckUnfolds(EnvOf(disk, sock, options), options.createDir, total, input, store, summary0, ec0);
    var outDir := if options.outputDir == [] then disk.cwdText else options.outputDir;
    var base := Locate(disk.cwd, outDir);
    if options.createDir {
      disk.CreateDirectories(base);
    }
    if base !in disk.store.dirs {
      AgreedRun(false, summary0, NotADirectory, input, 0, disk.store, [], r);
      return false, summary0, NotADirectory, 0, [];
    }
    var env := Env(disk.cwd, outDir, options.verifyCrc, sock.EndError());
    ok, summary, ec, log, missing := ReceiveRecords(sock, disk, table, env, total, summary0, ec0);
    AgreedRun(ok, summary, ec, sock.incoming, missing, disk.store, log, r);
  }

  lemma AfterAckUnfolds(env: Env, createDir: bool, total: u64, input: seq<byte>, store: Store, summary: Summary,
                        ec: Errc)
    ensures var store' := if createDir then MakeDirs(store, Locate(env.cwd, env.outDir)) else store;
            var r := AfterAck(env, createDir, total, input, store, summary, ec);
            if Locate(env.cwd, env.outDir) !in store'.dirs then
              Agrees(false, summary, NotADirectory, input, 0, store', r) && r.log == []
            else r == Records(env, total, input, store', summary, ec)
  {
    hide Records, MakeDirs, Locate;
  }

  lemma AgreedRun(ok: bool, summary: Summary, ec: Errc, incoming: seq<byte>, missing: nat, store: Store, log: seq<Item>,
                  r: Run)
    requires Agrees(ok, summary, ec, incoming, missing, store, r) && log == r.log
    ensures r == Run(ok, ec, incoming, missing, store, summary, log)
  {
  }

  /** Receive one session. summary accumulates onto what the caller passes in. */
  method ReceiveStream(sock: Socket, disk: FileSystem, table: Table, options: Options, summary0: Summary, ec0: Errc)
    returns (ok: bool, summary: Summary, ec: Errc, ghost missing: nat, ghost log: seq<Item>)
    requires table.Valid() && disk.cwdText != []
    modifies sock`incoming, sock`recvCounts, sock`marks, sock`sent, sock`sendScript, disk`store
    // no ack byte before a valid header, and nothing but the ack is ever sent
    ensures old(sock.sent) <= sock.sent <= old(sock.sent) + EncodeAck(0)
    ensures !ReadHeader(old(sock.incoming)).Accepted? ==> sock.sent == old(sock.sent)
    ensures Steady(old(sock.sendScript)) && ReadHeader(old(sock.incoming)).Accepted? ==>
              sock.sent == old(sock.sent) + EncodeAck(0)
    // when the header had been read, nothing had been sent
    ensures ReadHeader(old(sock.incoming)).Accepted? ==>
              old(sock.marks) + Repeat(|old(sock.sent)|, 32) <= sock.marks
    // once the ack is out (or the header is refused) the outcome is that of the pure session
    ensures ReadHeader(old(sock.incoming)).Accepted? && sock.sent != old(sock.sent) + EncodeAck(0) ==>
              !ok && disk.store == old(disk.store) && summary == summary0 && (ec == ec0 || ec.SystemError?) &&
              sock.incoming == ReadHeader(old(sock.incoming)).rest
    ensures !ReadHeader(old(sock.incoming)).Accepted? || sock.sent == old(sock.sent) + EncodeAck(0) ==>
              Did(sock, disk, ok, summary, ec, missing,
                  Receiving(old(EnvOf(disk, sock, options)), options.createDir, old(sock.incoming), old(disk.store),
                            summary0, ec0))
    // a stream that ends within the header, and a header that is not accepted
    ensures !ReadHeader(old(sock.incoming)).Accepted? ==>
              !ok && log == [] && summary == summary0 && disk.store == old(disk.store)
    ensures ReadHeader(old(sock.incoming)).Refused? ==>
              ec == InvalidArgument && sock.incoming == old(sock.incoming)[32..] && missing == 0
    ensures ReadHeader(old(sock.incoming)).Starved? ==>
              ec == (if sock.ending == Clear then ConnectionReset else sock.ending) && sock.incoming == [] &&
              missing == 32 - |old(sock.incoming)|
    ensures ReadHeader(old(sock.incoming)).Accepted? && sock.sent == old(sock.sent) + EncodeAck(0) ==>
              var h := ReadHeader(old(sock.incoming));
              Honoured(options, disk.cwd, disk.cwdText, if sock.ending == Clear then ConnectionReset else sock.ending,
                       h.value.totalFiles, h.rest, old(disk.store), summary0,
                       Run(ok, ec, sock.incoming, missing, disk.store, summary, log))
  {
    hide ReadHeader, Honoured, AfterAck, EncodeAck, Locate, Steady, PushAll, Receiving, Agrees, Repeat;
    ghost var env := EnvOf(disk, sock, options);
    ReceivingUnfolds(env, options.createDir, sock.incoming, disk.store, summary0, ec0);
    summary, log := summary0, [];
    var header;
    HeaderTakes32(sock.incoming);
    ok, header, ec, missing := ReadSessionHeader(sock, table, ec0);
    if !ok {
      return;
    }
    ok, ec := WriteAck(sock, 0, ec);
    if !ok {
      return;
    }
    ok, summary, ec, missing, log := ReceiveFiles(sock, disk, table, options, header.totalFiles, summary0, ec);
  }
}
