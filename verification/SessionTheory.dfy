/** What a session delivers: honest, cut short, damaged, arbitrary, and repeated. */
module SessionTheory {
  import opened BitStrings
  import opened Crc32c
  import opened ChecksumTheory
  import opened Wire
  import opened Paths
  import opened Disk
  import opened Transfers
  import opened Session

  // ---- one payload ----

  /** Two stores that differ at most in the content of one file. */
  predicate SameBut(a: Store, b: Store, at: Loc) {
    a.dirs == b.dirs && a.files - {at} == b.files - {at}
  }

  lemma {:induction false} PayloadFrame(env: Env, at: Loc, remaining: nat, input: seq<byte>, store: Store,
                                        s: u32, ec: Errc)
    requires at in store.files
    ensures var l := Payload(env, at, remaining, input, store, s, ec);
            SameBut(store, l.store, at) && at in l.store.files
    decreases remaining
  {
    hide Register;
    var want := Min(remaining, CHUNK);
    if 0 < want <= |input| && AppendFile(store, at, input[..want]).0 {
      var store' := AppendFile(store, at, input[..want]).1;
      assert SameBut(store, store', at);
      PayloadFrame(env, at, remaining - want, input[want..], store', Register(s, input[..want]), ec);
    }
  }

  /** One chunk: the loop goes on exactly when the bytes are there and the write is granted. */
  lemma PayloadStep(env: Env, at: Loc, remaining: nat, input: seq<byte>, store: Store, s: u32, ec: Errc)
    requires at in store.files && remaining > 0 && Payload(env, at, remaining, input, store, s, ec).ok
    ensures var want := Min(remaining, CHUNK); want <= |input|
    ensures var want := Min(remaining, CHUNK); var chunk := input[..want];
            var store' := AppendFile(store, at, chunk).1;
            at in store'.files && store'.files[at] == store.files[at] + chunk &&
            Payload(env, at, remaining, input, store, s, ec) ==
            Payload(env, at, remaining - want, input[want..], store', Register(s, chunk), ec)
  {
    hide Register;
  }

  /** A payload that succeeds has arrived whole, whatever the chunks. */
  lemma {:induction false} PayloadOutcome(env: Env, at: Loc, remaining: nat, input: seq<byte>, store: Store,
                                          s: u32, ec: Errc)
    requires at in store.files
    requires Payload(env, at, remaining, input, store, s, ec).ok
    ensures var l := Payload(env, at, remaining, input, store, s, ec);
            remaining <= |input| && l.rest == input[remaining..] && l.ec == ec && l.need == 0 &&
            at in l.store.files && l.store.files[at] == store.files[at] + input[..remaining] &&
            l.crc == Register(s, input[..remaining])
    decreases remaining
  {
    if remaining == 0 {
      hide Register;
      EmptyRegister(s);
    } else {
      hide Register, Payload, AppendFile;
      PayloadStep(env, at, remaining, input, store, s, ec);
      var want := Min(remaining, CHUNK);
      var chunk, next := input[..want], input[want..];
      PayloadOutcome(env, at, remaining - want, next, AppendFile(store, at, chunk).1, Register(s, chunk), ec);
      ChunkJoins(s, input, want, remaining);
      assert store.files[at] + chunk + next[..remaining - want] == store.files[at] + input[..remaining];
    }
  }

  predicate Suffix(a: seq<byte>, b: seq<byte>) {
    |a| <= |b| && a == b[|b| - |a|..]
  }

  /** A payload stops because the stream has ended, or because a write was refused. */
  predicate PayloadStopped(env: Env, remaining: nat, input: seq<byte>, l: Landing) {
    (l.ec == env.eof && l.rest == [] && |input| < remaining && 0 < l.need <= remaining - |input|) ||
    (l.ec == IoError && l.need == 0 && Suffix(l.rest, input))
  }

  lemma {:induction false} PayloadStops(env: Env, at: Loc, remaining: nat, input: seq<byte>, store: Store, s: u32,
                                        ec: Errc)
    requires at in store.files && !Payload(env, at, remaining, input, store, s, ec).ok
    ensures PayloadStopped(env, remaining, input, Payload(env, at, remaining, input, store, s, ec))
    decreases remaining
  {
    hide Register, Payload, PayloadStopped, AppendFile;
    var want := Min(remaining, CHUNK);
    if remaining == 0 {
      PayloadOfNothing(env, at, input, store, s, ec);
    } else {
      PayloadTurn(env, at, remaining, input, store, s, ec);
      if |input| < want {
        ShortStops(env, remaining, input, Payload(env, at, remaining, input, store, s, ec));
      } else {
        var (ok, store') := AppendFile(store, at, input[..want]);
        if ok {
          PayloadStops(env, at, remaining - want, input[want..], store', Register(s, input[..want]), ec);
        }
        LaterStops(env, remaining, want, input, Payload(env, at, remaining, input, store, s, ec));
      }
    }
  }

  lemma PayloadOfNothing(env: Env, at: Loc, input: seq<byte>, store: Store, s: u32, ec: Errc)
    requires at in store.files
    ensures Payload(env, at, 0, input, store, s, ec).ok
  {
  }

  lemma PayloadTurn(env: Env, at: Loc, remaining: nat, input: seq<byte>, store: Store, s: u32, ec: Errc)
    requires at in store.files && remaining > 0
    ensures var l := Payload(env, at, remaining, input, store, s, ec);
            var want := Min(remaining, CHUNK);
            if |input| < want then l == Landing(false, env.eof, [], want - |input|, store, s)
            else
              var (ok, store') := AppendFile(store, at, input[..want]);
              var s' := Register(s, input[..want]);
              if !ok then l == Landing(false, IoError, input[want..], 0, store', s')
              else at in store'.files && l == Payload(env, at, remaining - want, input[want..], store', s', ec)
  {
    hide Register;
  }

  lemma ShortStops(env: Env, remaining: nat, input: seq<byte>, l: Landing)
    requires |input| < Min(remaining, CHUNK) && l.ec == env.eof && l.rest == []
    requires l.need == Min(remaining, CHUNK) - |input|
    ensures PayloadStopped(env, remaining, input, l)
  {
  }

  lemma LaterStops(env: Env, remaining: nat, want: nat, input: seq<byte>, l: Landing)
    requires want <= remaining && want <= |input|
    requires (l.ec == IoError && l.rest == input[want..] && l.need == 0) ||
             PayloadStopped(env, remaining - want, input[want..], l)
    ensures PayloadStopped(env, remaining, input, l)
  {
  }

  lemma ChunkJoins(s: u32, input: seq<byte>, want: nat, remaining: nat)
    requires want <= remaining <= |input|
    ensures var next := input[want..];
            input[..remaining] == input[..want] + next[..remaining - want] &&
            next[remaining - want..] == input[remaining..] &&
            Register(Register(s, input[..want]), next[..remaining - want]) == Register(s, input[..remaining])
  {
    hide Register;
    RegisterConcat(s, input[..want], input[want..][..remaining - want]);
    assert input[..remaining] == input[..want] + input[want..][..remaining - want];
  }

  /** With a file system that grants everything, only a short stream can stop a payload, and it then
      waits for no more than what is missing. */
  lemma {:induction false} PayloadWaits(env: Env, at: Loc, remaining: nat, input: seq<byte>, store: Store,
                                        s: u32, ec: Errc)
    requires at in store.files && store.answers == []
    ensures var l := Payload(env, at, remaining, input, store, s, ec);
      && l.store.answers == [] && (l.ok <==> remaining <= |input|)
      && (!l.ok ==> l.ec == env.eof && l.rest == [] && 0 < l.need <= remaining - |input|)
    decreases remaining
  {
    hide Register;
    var want := Min(remaining, CHUNK);
    if 0 < want <= |input| {
      var store' := AppendFile(store, at, input[..want]).1;
      PayloadWaits(env, at, remaining - want, input[want..], store', Register(s, input[..want]), ec);
    }
  }

  /** What a payload cut short has left in the file: its whole chunks of 1 MiB. */
  lemma {:induction false} PayloadKeepsChunks(env: Env, at: Loc, remaining: nat, input: seq<byte>, store: Store,
                                              s: u32, ec: Errc)
    requires at in store.files && store.answers == [] && |input| < remaining
    ensures var l := Payload(env, at, remaining, input, store, s, ec);
            at in l.store.files && l.store.files[at] == store.files[at] + input[..|input| - |input| % 0x10_0000]
    decreases remaining
  {
    hide Register, Payload;
    var want := Min(remaining, CHUNK);
    PayloadTurn(env, at, remaining, input, store, s, ec);
    if want <= |input| {
      var store' := AppendFile(store, at, input[..want]).1;
      PayloadKeepsChunks(env, at, remaining - want, input[want..], store', Register(s, input[..want]), ec);
      ChunksJoin(store.files[at], input);
    } else {
      assert store.files[at] + input[..0] == store.files[at];
    }
  }

  lemma ChunksJoin(content: seq<byte>, input: seq<byte>)
    requires |input| >= 0x10_0000
    ensures var k, rest := |input| - |input| % 0x10_0000, input[0x10_0000..];
            k >= 0x10_0000 && |rest| % 0x10_0000 == |input| % 0x10_0000 &&
            content + input[..0x10_0000] + rest[..|rest| - |rest| % 0x10_0000] == content + input[..k]
  {
  }

  lemma EmptyRegister(s: u32)
    ensures Register(s, []) == s
  {
  }

  // ---- one file ----

  /** The store once the file of e holds content. */
  function Arrive(env: Env, store: Store, e: FileEntry, content: seq<byte>): Store {
    var s := MakeParent(store, env.cwd, Target(env, e));
    s.(files := s.files[Place(env, e) := content])
  }

  predicate Openable(env: Env, store: Store, e: FileEntry) {
    NamesFile(Target(env, e)) && CanOpen(MakeParent(store, env.cwd, Target(env, e)), Place(env, e))
  }

  predicate Matches(expected: u32, content: seq<byte>) {
    expected == 0 || Checksum(content) == expected
  }

  function Receive(env: Env, e: FileEntry, expected: u32, input: seq<byte>, store: Store, ec: Errc): Landing {
    ReceiveFile(env, Target(env, e), e.size, expected, input, store, ec)
  }

  /** The file system once the target has been made and truncated. */
  function Truncated(env: Env, store: Store, e: FileEntry): (bool, Store) {
    Open(MakeParent(store, env.cwd, Target(env, e)), Place(env, e), NamesFile(Target(env, e)))
  }

  /** What ReceiveFile adds to the payload loop. */
  predicate Concludes(l: Landing, p: Landing, expected: u32) {
    l.store == p.store && l.rest == p.rest && l.need == p.need &&
    (l.ok <==> p.ok && (expected == 0 || Xor32(p.crc, ONES) == expected)) &&
    l.ec == (if p.ok && !l.ok then BadMessage else p.ec)
  }

  lemma ReceiveUnfolds(env: Env, e: FileEntry, expected: u32, input: seq<byte>, store: Store, ec: Errc)
    requires Truncated(env, store, e).0
    ensures var store' := Truncated(env, store, e).1; var at := Place(env, e);
            at in store'.files &&
            Concludes(Receive(env, e, expected, input, store, ec), Payload(env, at, e.size, input, store', ONES, ec),
                      expected)
  {
    hide Payload, MakeParent, Xor32;
  }

  lemma ReceiveRefused(env: Env, e: FileEntry, expected: u32, input: seq<byte>, store: Store, ec: Errc)
    requires !Truncated(env, store, e).0
    ensures Receive(env, e, expected, input, store, ec) ==
            Landing(false, PermissionDenied, input, 0, Truncated(env, store, e).1, ONES)
  {
  }

  /** Truncation, when it succeeds, leaves the store ready for the payload. */
  lemma TruncatedStore(env: Env, store: Store, e: FileEntry)
    ensures var (ok, store') := Truncated(env, store, e);
            (ok ==> Openable(env, store, e) && store'.files == Arrive(env, store, e, []).files &&
                    store'.dirs == Arrive(env, store, e, []).dirs) &&
            (store.answers == [] ==> store'.answers == [] && (ok <==> Openable(env, store, e)))
  {
    hide MakeParent;
  }

  lemma ArriveAfter(env: Env, store: Store, e: FileEntry, start: Store, end: Store, content: seq<byte>)
    requires start.files == Arrive(env, store, e, []).files && start.dirs == Arrive(env, store, e, []).dirs
    requires SameBut(start, end, Place(env, e)) && Place(env, e) in end.files
    requires end.files[Place(env, e)] == content
    ensures end.files == Arrive(env, store, e, content).files && end.dirs == Arrive(env, store, e, content).dirs
  {
    hide MakeParent, Place;
    var at, a, b := Place(env, e), start.files, end.files;
    forall k | k != at
      ensures (k in a <==> k in b) && (k in a ==> a[k] == b[k])
    {
      assert k in a - {at} <==> k in b - {at};
    }
  }

  /** A received file has exactly its declared size and, if asked for, its declared checksum. */
  lemma FileArrives(env: Env, e: FileEntry, expected: u32, input: seq<byte>, store: Store, ec: Errc)
    requires Receive(env, e, expected, input, store, ec).ok
    ensures var l := Receive(env, e, expected, input, store, ec);
            Openable(env, store, e) && e.size <= |input| && l.rest == input[e.size..] && l.ec == ec && l.need == 0 &&
            l.store.files == Arrive(env, store, e, input[..e.size]).files &&
            l.store.dirs == Arrive(env, store, e, input[..e.size]).dirs && Matches(expected, input[..e.size])
  {
    var (ok, store') := Truncated(env, store, e);
    var at := Place(env, e);
    if !ok {
      ReceiveRefused(env, e, expected, input, store, ec);
    }
    ReceiveUnfolds(env, e, expected, input, store, ec);
    TruncatedStore(env, store, e);
    assert store'.files[at] == [];
    var l := Receive(env, e, expected, input, store, ec);
    hide Register, Payload, Place, Arrive, SameBut, Openable, Receive, Truncated, Xor32;
    PayloadFrame(env, at, e.size, input, store', ONES, ec);
    PayloadOutcome(env, at, e.size, input, store', ONES, ec);
    ArriveAfter(env, store, e, store', l.store, input[..e.size]);
  }

  /** With a file system that grants everything, a payload of full length is stored, and it fails
      exactly on a checksum mismatch. */
  lemma FileComplete(env: Env, e: FileEntry, expected: u32, input: seq<byte>, store: Store, ec: Errc)
    requires store.answers == [] && Openable(env, store, e) && e.size <= |input|
    ensures var l := Receive(env, e, expected, input, store, ec);
            l.store == Arrive(env, store, e, input[..e.size]) && l.rest == input[e.size..] && l.need == 0 &&
            (l.ok <==> Matches(expected, input[..e.size])) && l.ec == (if l.ok then ec else BadMessage)
  {
    var store', at := Truncated(env, store, e).1, Place(env, e);
    TruncatedStore(env, store, e);
    ReceiveUnfolds(env, e, expected, input, store, ec);
    assert store'.files[at] == [];
    var l := Receive(env, e, expected, input, store, ec);
    hide Register, Payload, Place, Arrive, SameBut, Openable, Receive, Truncated, Xor32;
    PayloadWaits(env, at, e.size, input, store', ONES, ec);
    PayloadFrame(env, at, e.size, input, store', ONES, ec);
    PayloadOutcome(env, at, e.size, input, store', ONES, ec);
    ArriveAfter(env, store, e, store', l.store, input[..e.size]);
  }

  /** With such a file system, a payload cut short leaves its reader waiting for what is missing. */
  lemma FileCut(env: Env, e: FileEntry, expected: u32, input: seq<byte>, store: Store, ec: Errc)
    requires store.answers == [] && Openable(env, store, e) && |input| < e.size
    ensures var l := Receive(env, e, expected, input, store, ec);
            !l.ok && l.ec == env.eof && l.rest == [] && 0 < l.need <= e.size - |input| &&
            SameBut(Arrive(env, store, e, []), l.store, Place(env, e)) &&
            Place(env, e) in l.store.files &&
            l.store.files[Place(env, e)] == input[..|input| - |input| % 0x10_0000]
  {
    assert forall a: Store, b: Store, c: Store, at ::
        a.dirs == b.dirs && a.files == b.files && SameBut(b, c, at) ==> SameBut(a, c, at);
    var store', at := Truncated(env, store, e).1, Place(env, e);
    TruncatedStore(env, store, e);
    ReceiveUnfolds(env, e, expected, input, store, ec);
    assert store'.files[at] == [];
    hide Register, Payload, Place, Arrive, SameBut, Openable, Receive, Truncated, Xor32;
    PayloadWaits(env, at, e.size, input, store', ONES, ec);
    PayloadFrame(env, at, e.size, input, store', ONES, ec);
    PayloadKeepsChunks(env, at, e.size, input, store', ONES, ec);
  }

  // ---- one record ----

  /** A record as a sender makes it: a usable path and a payload of the declared size. */
  predicate Sound(x: Source) {
    0 < |x.entry.relPath| <= 0xFFFF && x.entry.size == |x.content|
  }

  /** A record this receiver takes: a safe path, and no checksum that contradicts the payload. */
  predicate Welcome(env: Env, x: Source) {
    Sound(x) && Safe(x.entry.relPath) && Matches(Expected(env, x.entry), x.content)
  }

  lemma RecordAccepted(env: Env, n: nat, e: FileEntry, rest: seq<byte>, store: Store, summary: Summary, ec: Errc)
    requires n > 0 && 0 < |e.relPath| <= 0xFFFF && Safe(e.relPath)
    ensures var r := Records(env, n, EncodeFileHeader(e) + rest, store, summary, ec);
            var l := Receive(env, e, Expected(env, e), rest, store, ec);
            r == if !l.ok then Run(false, l.ec, l.rest, l.need, l.store, summary, [])
                 else Logged(Stored(e, OnDisk(l.store, Place(env, e))),
                        Records(env, n - 1, l.rest, l.store, Count(summary, e.size, Target(env, e)), l.ec))
  {
    FileHeaderIff(EncodeFileHeader(e) + rest, e, rest);
    hide EncodeFileHeader, ReadFileHeader, ReceiveFile, Safe, Place, Expected, Count, Target;
  }

  /** A welcome record is stored and the loop goes on with what follows it. */
  lemma RecordStored(env: Env, n: nat, x: Source, tail: seq<byte>, store: Store, summary: Summary, ec: Errc)
    requires n > 0 && Welcome(env, x) && store.answers == [] && Openable(env, store, x.entry)
    ensures Records(env, n, EncodeRecord(x) + tail, store, summary, ec) ==
            Logged(Stored(x.entry, x.content),
              Records(env, n - 1, tail, Arrive(env, store, x.entry, x.content),
                      Count(summary, x.entry.size, Target(env, x.entry)), ec))
  {
    var e, rest := x.entry, x.content + tail;
    assert rest[..e.size] == x.content && rest[e.size..] == tail;
    assert EncodeRecord(x) + tail == EncodeFileHeader(e) + rest;
    assert OnDisk(Arrive(env, store, e, x.content), Place(env, e)) == x.content by {
      hide MakeParent, Place;
    }
    hide EncodeFileHeader, Receive, Records, Safe, Place, Expected, Count, Target, Arrive, Openable, OnDisk, Matches;
    RecordAccepted(env, n, e, rest, store, summary, ec);
    FileComplete(env, e, Expected(env, e), rest, store, ec);
  }

  /** A payload that contradicts its checksum stops the session right there, with every earlier file
      in the summary and this one not. */
  lemma RecordDamaged(env: Env, n: nat, e: FileEntry, payload: seq<byte>, tail: seq<byte>, store: Store,
                      summary: Summary, ec: Errc)
    requires n > 0 && 0 < |e.relPath| <= 0xFFFF && Safe(e.relPath) && e.size == |payload|
    requires store.answers == [] && Openable(env, store, e) && !Matches(Expected(env, e), payload)
    ensures Records(env, n, EncodeFileHeader(e) + (payload + tail), store, summary, ec) ==
            Run(false, BadMessage, tail, 0, Arrive(env, store, e, payload), summary, [])
  {
    var rest := payload + tail;
    assert rest[..e.size] == payload && rest[e.size..] == tail;
    hide EncodeFileHeader, Receive, Records, Safe, Place, Expected, Count, Target, Arrive, Openable, OnDisk, Matches;
    RecordAccepted(env, n, e, rest, store, summary, ec);
    FileComplete(env, e, Expected(env, e), rest, store, ec);
  }

  /** The run stops inside a record, waiting for at most the given number of bytes. */
  predicate Stopped(env: Env, e: FileEntry, missing: nat, store: Store, summary: Summary, r: Run) {
    !r.ok && r.ec == env.eof && r.rest == [] && 0 < r.need <= missing && r.log == [] && r.summary == summary &&
    r.store.files - {Place(env, e)} == store.files - {Place(env, e)}
  }

  lemma CutInHeader(env: Env, n: nat, e: FileEntry, k: nat, store: Store, summary: Summary, ec: Errc)
    requires n > 0 && |e.relPath| <= 0xFFFF && k < |EncodeFileHeader(e)|
    ensures Stopped(env, e, |EncodeFileHeader(e)| - k, store, summary,
                    Records(env, n, EncodeFileHeader(e)[..k], store, summary, ec))
  {
    FileHeaderCut(e, k);
    hide EncodeFileHeader, ReadFileHeader, Place;
  }

  lemma CutInPayload(env: Env, n: nat, e: FileEntry, part: seq<byte>, store: Store, summary: Summary, ec: Errc)
    requires n > 0 && 0 < |e.relPath| <= 0xFFFF && Safe(e.relPath) && |part| < e.size
    requires store.answers == [] && Openable(env, store, e)
    ensures Stopped(env, e, e.size - |part|, store, summary,
                    Records(env, n, EncodeFileHeader(e) + part, store, summary, ec))
  {
    assert Arrive(env, store, e, []).files - {Place(env, e)} == store.files - {Place(env, e)} by {
      hide MakeParent, Place;
    }
    hide EncodeFileHeader, Receive, Records, Safe, Place, Expected, Count, Target, Arrive, Openable, OnDisk;
    RecordAccepted(env, n, e, part, store, summary, ec);
    FileCut(env, e, Expected(env, e), part, store, ec);
  }

  /** A record cut short stops the session, waiting for no more than what is missing. */
  lemma RecordCut(env: Env, n: nat, x: Source, k: nat, store: Store, summary: Summary, ec: Errc)
    requires n > 0 && Welcome(env, x) && store.answers == [] && Openable(env, store, x.entry)
    requires k < |EncodeRecord(x)|
    ensures Stopped(env, x.entry, |EncodeRecord(x)| - k, store, summary,
                    Records(env, n, EncodeRecord(x)[..k], store, summary, ec))
  {
    hide EncodeFileHeader, Records, Safe, Place, Openable, Matches;
    var e := x.entry;
    var h := EncodeFileHeader(e);
    if k < |h| {
      assert EncodeRecord(x)[..k] == h[..k];
      CutInHeader(env, n, e, k, store, summary, ec);
    } else {
      assert EncodeRecord(x)[..k] == h + x.content[..k - |h|];
      CutInPayload(env, n, e, x.content[..k - |h|], store, summary, ec);
    }
  }

  // ---- a run of records ----

  predicate AllWelcome(env: Env, xs: seq<Source>) {
    forall i :: 0 <= i < |xs| ==> Welcome(env, xs[i])
  }

  /** The store after all of xs have arrived in order. */
  function ArriveAll(env: Env, store: Store, xs: seq<Source>): Store
    decreases |xs|
  {
    if xs == [] then store else ArriveAll(env, Arrive(env, store, xs[0].entry, xs[0].content), xs[1..])
  }

  /** Every file of xs can be opened when its turn comes. */
  predicate AllOpenable(env: Env, store: Store, xs: seq<Source>)
    decreases |xs|
  {
    xs == [] || (Openable(env, store, xs[0].entry) &&
                 AllOpenable(env, Arrive(env, store, xs[0].entry, xs[0].content), xs[1..]))
  }

  function CountAll(env: Env, summary: Summary, xs: seq<Source>): Summary
    decreases |xs|
  {
    if xs == [] then summary
    else CountAll(env, Count(summary, xs[0].entry.size, Target(env, xs[0].entry)), xs[1..])
  }

  function Items(xs: seq<Source>): (items: seq<Item>)
    ensures |items| == |xs|
  {
    seq(|xs|, i requires 0 <= i < |xs| => Stored(xs[i].entry, xs[i].content))
  }

  /** The number of records wholly contained in the first k bytes. */
  function Whole(xs: seq<Source>, k: nat): (m: nat)
    requires Encodable(xs)
    ensures m <= |xs|
    decreases |xs|
  {
    if xs == [] || k < |EncodeRecord(xs[0])| then 0 else 1 + Whole(xs[1..], k - |EncodeRecord(xs[0])|)
  }

  /** Whole is the largest number of records that fit. */
  lemma {:induction false} WholeIsMaximal(xs: seq<Source>, k: nat, m: nat)
    requires Encodable(xs) && m <= |xs|
    ensures m <= Whole(xs, k) <==> |EncodeRecords(xs[..m])| <= k
    decreases |xs|
  {
    hide EncodeRecord;
    if xs != [] && m > 0 {
      assert xs[..m][1..] == xs[1..][..m - 1] && xs[..m][0] == xs[0];
      if k >= |EncodeRecord(xs[0])| {
        WholeIsMaximal(xs[1..], k - |EncodeRecord(xs[0])|, m - 1);
      }
    }
  }

  /** The outcome of an honest record area and its trailer, cut after k bytes. */
  predicate CutOutcome(env: Env, xs: seq<Source>, k: nat, store: Store, summary: Summary, ec: Errc, r: Run)
    requires AllWelcome(env, xs)
  {
    var size, m := |EncodeRecords(xs)|, Whole(xs, k);
    && (r.ok <==> k >= size)
    && r.log == Items(xs[..m]) && r.summary == CountAll(env, summary, xs[..m])
    && r.rest == [] && (r.need == 0 <==> k == size + 4) && r.need <= size + 4 - k
    && r.ec == (if k == size + 4 then ec else env.eof)
    && (m == |xs| ==> r.store == ArriveAll(env, store, xs))
    && (m < |xs| ==> var p := Place(env, xs[m].entry);
                     r.store.files - {p} == ArriveAll(env, store, xs[..m]).files - {p})
  }

  /** From the records after the first to all of them. */
  lemma CutStep(env: Env, xs: seq<Source>, k: nat, store: Store, summary: Summary, ec: Errc, r: Run)
    requires xs != [] && AllWelcome(env, xs) && |EncodeRecord(xs[0])| <= k
    requires var e := xs[0].entry;
             CutOutcome(env, xs[1..], k - |EncodeRecord(xs[0])|, Arrive(env, store, e, xs[0].content),
                        Count(summary, e.size, Target(env, e)), ec, r)
    ensures CutOutcome(env, xs, k, store, summary, ec, Logged(Stored(xs[0].entry, xs[0].content), r))
  {
    hide EncodeRecord, Arrive, Count, Target, Place, Welcome;
    WelcomeEncodable(env, xs);
    WelcomeEncodable(env, xs[1..]);
    var m := Whole(xs, k);
    assert xs[..m][1..] == xs[1..][..m - 1] && xs[..m][0] == xs[0];
    assert Items(xs[..m]) == [Stored(xs[0].entry, xs[0].content)] + Items(xs[1..][..m - 1]);
  }

  lemma CutInFirst(env: Env, xs: seq<Source>, k: nat, store: Store, summary: Summary, ec: Errc)
    requires xs != [] && AllWelcome(env, xs) && store.answers == [] && AllOpenable(env, store, xs)
    requires k < |EncodeRecord(xs[0])|
    ensures CutOutcome(env, xs, k, store, summary, ec, Records(env, |xs|, EncodeRecord(xs[0])[..k], store, summary, ec))
  {
    hide EncodeRecord, Welcome, Records, Arrive, Openable, Count, Place, Target;
    RecordCut(env, |xs|, xs[0], k, store, summary, ec);
    assert xs[..0] == [];
  }

  lemma WelcomeEncodable(env: Env, xs: seq<Source>)
    requires AllWelcome(env, xs)
    ensures Encodable(xs)
  {
  }

  lemma CutTrailer(env: Env, xs: seq<Source>, input: seq<byte>, store: Store, summary: Summary, ec: Errc)
    requires xs == [] && |input| <= 4
    ensures CutOutcome(env, xs, |input|, store, summary, ec, Records(env, 0, input, store, summary, ec))
  {
    assert xs[..0] == [];
  }

  lemma {:induction false} CutRecords(env: Env, xs: seq<Source>, k: nat, store: Store, summary: Summary, ec: Errc)
    requires AllWelcome(env, xs) && store.answers == [] && AllOpenable(env, store, xs)
    requires k <= |EncodeRecords(xs)| + 4
    ensures CutOutcome(env, xs, k, store, summary, ec,
                       Records(env, |xs|, (EncodeRecords(xs) + EncodeDone())[..k], store, summary, ec))
    decreases |xs|
  {
    hide EncodeRecord, EncodeDone, Welcome, Records, Arrive, Openable, Count, Place, Target, CutOutcome;
    WelcomeEncodable(env, xs);
    var input := (EncodeRecords(xs) + EncodeDone())[..k];
    if xs == [] {
      CutTrailer(env, xs, input, store, summary, ec);
    } else {
      var x, rest := xs[0], xs[1..];
      var b := EncodeRecord(x);
      WelcomeEncodable(env, rest);
      if k < |b| {
        assert input == b[..k];
        CutInFirst(env, xs, k, store, summary, ec);
      } else {
        var tail := (EncodeRecords(rest) + EncodeDone())[..k - |b|];
        assert input == b + tail;
        ArriveGrants(env, store, x);
        RecordStored(env, |xs|, x, tail, store, summary, ec);
        var store', summary' := Arrive(env, store, x.entry, x.content),
            Count(summary, x.entry.size, Target(env, x.entry));
        CutRecords(env, rest, k - |b|, store', summary', ec);
        CutStep(env, xs, k, store, summary, ec, Records(env, |rest|, tail, store', summary', ec));
      }
    }
  }

  lemma ArriveGrants(env: Env, store: Store, x: Source)
    ensures Arrive(env, store, x.entry, x.content).answers == store.answers
  {
  }
}
