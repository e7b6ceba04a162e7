/** A whole session as pure functions: what an honest sender emits, and what the receiver does with
    any byte stream. */
module Session {
  import opened BitStrings
  import opened LittleEndian
  import opened Crc32c
  import opened Wire
  import opened Paths
  import opened Disk
  import opened Transfers

  // ---- the sender's byte stream ----

  /** A manifest entry with the bytes sent as its payload. */
  datatype Source = Source(entry: FileEntry, content: seq<byte>)

  /** Addition of 64-bit counters, which wraps around. */
  function Sum64(a: u64, b: u64): u64 {
    if a + b < 0x1_0000_0000_0000_0000 then a + b else a + b - 0x1_0000_0000_0000_0000
  }

  function TotalBytes(xs: seq<Source>): u64 {
    if xs == [] then 0 else Sum64(TotalBytes(xs[..|xs| - 1]), xs[|xs| - 1].entry.size)
  }

  /** The sum of the sizes of a manifest, as a natural number. */
  function SizeSum(es: seq<FileEntry>): nat {
    if es == [] then 0 else SizeSum(es[..|es| - 1]) + es[|es| - 1].size
  }

  function EntriesOf(xs: seq<Source>): (es: seq<FileEntry>)
    ensures |es| == |xs| && forall i :: 0 <= i < |xs| ==> es[i] == xs[i].entry
  {
    seq(|xs|, i requires 0 <= i < |xs| => xs[i].entry)
  }

  lemma Sum64IsModular(a: u64, b: u64)
    ensures Sum64(a, b) == (a + b) % 0x1_0000_0000_0000_0000
  {
  }

  lemma CarriesOn(start: nat, sum: nat, now: u64, n: u64)
    requires now == (start + sum) % 0x1_0000_0000_0000_0000
    ensures Sum64(now, n) == (start + (sum + n)) % 0x1_0000_0000_0000_0000
  {
    Sum64IsModular(now, n);
  }

  /** The byte total is the sum of the sizes modulo 2^64. */
  lemma {:induction false} TotalIsSum(xs: seq<Source>)
    ensures TotalBytes(xs) == SizeSum(EntriesOf(xs)) % 0x1_0000_0000_0000_0000
    decreases |xs|
  {
    hide Sum64;
    if xs == [] {
    } else {
      var init := xs[..|xs| - 1];
      TotalIsSum(init);
      assert EntriesOf(xs)[..|xs| - 1] == EntriesOf(init);
      CarriesOn(0, SizeSum(EntriesOf(init)), TotalBytes(init), xs[|xs| - 1].entry.size);
    }
  }

  predicate Encodable(xs: seq<Source>) {
    forall i :: 0 <= i < |xs| ==> |xs[i].entry.relPath| <= 0xFFFF
  }

  function HeaderFor(xs: seq<Source>): SessionHeader
    requires |xs| < 0x1_0000_0000_0000_0000
  {
    SessionHeader(PROTO_VERSION, FLAG_CRC32, |xs|, TotalBytes(xs))
  }

  function EncodeRecord(x: Source): seq<byte>
    requires |x.entry.relPath| <= 0xFFFF
  {
    EncodeFileHeader(x.entry) + x.content
  }

  function EncodeRecords(xs: seq<Source>): seq<byte>
    requires Encodable(xs)
  {
    if xs == [] then [] else EncodeRecord(xs[0]) + EncodeRecords(xs[1..])
  }

  function EncodeSession(xs: seq<Source>): seq<byte>
    requires Encodable(xs) && |xs| < 0x1_0000_0000_0000_0000
  {
    EncodeHeader(HeaderFor(xs)) + (EncodeRecords(xs) + EncodeDone())
  }

  // ---- the receiver ----

  datatype Summary = Summary(totalFiles: u64, totalBytes: u64, writtenPaths: seq<Text>)

  function Count(s: Summary, size: u64, target: Text): Summary {
    Summary(Sum64(s.totalFiles, 1), Sum64(s.totalBytes, size), s.writtenPaths + [target])
  }

  /** What stays fixed during a session; eof is the error of a read that the stream cannot satisfy. */
  datatype Env = Env(cwd: Loc, outDir: Text, verify: bool, eof: Errc)

  function Base(env: Env): Loc {
    Locate(env.cwd, env.outDir)
  }

  function Target(env: Env, e: FileEntry): Text {
    Join(env.outDir, e.relPath)
  }

  function Place(env: Env, e: FileEntry): Loc {
    Locate(env.cwd, Target(env, e))
  }

  /** The checksum to compare with; 0 means none. */
  function Expected(env: Env, e: FileEntry): u32 {
    if env.verify then e.crc32 else 0
  }

  /** The outcome of one payload: need counts the bytes an unfinished read still waits for. */
  datatype Landing = Landing(ok: bool, ec: Errc, rest: seq<byte>, need: nat, store: Store, crc: u32)

  /** Receive the remaining bytes chunk by chunk: read, checksum, append. */
  function Payload(env: Env, at: Loc, remaining: nat, input: seq<byte>, store: Store, s: u32, ec: Errc): Landing
    requires at in store.files
    decreases remaining
  {
    if remaining == 0 then Landing(true, ec, input, 0, store, s)
    else
      var want := Min(remaining, CHUNK);
      if |input| < want then Landing(false, env.eof, [], want - |input|, store, s)
      else
        var (ok, store') := AppendFile(store, at, input[..want]);
        var s' := Register(s, input[..want]);
        if !ok then Landing(false, IoError, input[want..], 0, store', s')
        else Payload(env, at, remaining - want, input[want..], store', s', ec)
  }

  /** Receive one file: make its directory, truncate it, stream the payload, compare the checksum. */
  function ReceiveFile(env: Env, target: Text, size: u64, expected: u32, input: seq<byte>, store: Store, ec: Errc)
    : Landing
  {
    var at := Locate(env.cwd, target);
    var (ok, store') := Open(MakeParent(store, env.cwd, target), at, NamesFile(target));
    if !ok then Landing(false, PermissionDenied, input, 0, store', ONES)
    else
      var l := Payload(env, at, size, input, store', ONES, ec);
      var crc := Xor32(l.crc, ONES);
      if l.ok && expected != 0 && crc != expected then l.(ok := false, ec := BadMessage, crc := crc)
      else l.(crc := crc)
  }

  /** One completed iteration: a record with an empty path, or a stored file with its content on disk. */
  datatype Item = Skipped(entry: FileEntry) | Stored(entry: FileEntry, content: seq<byte>)

  /** The outcome of a session; log lists the completed iterations. */
  datatype Run = Run(ok: bool, ec: Errc, rest: seq<byte>, need: nat, store: Store, summary: Summary, log: seq<Item>)

  function Logged(item: Item, r: Run): Run {
    r.(log := [item] + r.log)
  }

  /** The optional trailer: whatever it is, the session has succeeded. */
  function Trailer(env: Env, input: seq<byte>, store: Store, summary: Summary, ec: Errc): Run {
    if |input| < 4 then Run(true, env.eof, [], 4 - |input|, store, summary, [])
    else Run(true, ec, input[4..], 0, store, summary, [])
  }

  /** The record loop with n records to go. */
  function Records(env: Env, n: nat, input: seq<byte>, store: Store, summary: Summary, ec: Errc): Run {
    if n == 0 then Trailer(env, input, store, summary, ec)
    else match ReadFileHeader(input)
      case Starved(missing) => Run(false, env.eof, [], missing, store, summary, [])
      case Refused(rest) => Run(false, InvalidArgument, rest, 0, store, summary, [])
      case Accepted(e, rest) =>
        if e.relPath == [] then Logged(Skipped(e), Records(env, n - 1, rest, store, summary, ec))
        else if !Safe(e.relPath) then Run(false, InvalidArgument, rest, 0, store, summary, [])
        else
          var l := ReceiveFile(env, Target(env, e), e.size, Expected(env, e), rest, store, ec);
          if !l.ok then Run(false, l.ec, l.rest, l.need, l.store, summary, [])
          else
            Logged(Stored(e, OnDisk(l.store, Place(env, e))),
                   Records(env, n - 1, l.rest, l.store, Count(summary, e.size, Target(env, e)), l.ec))
  }

  function OnDisk(store: Store, at: Loc): seq<byte> {
    if at in store.files then store.files[at] else []
  }

  /** The session after the acknowledgement has been written. */
  function Receiving(env: Env, createDir: bool, input: seq<byte>, store: Store, summary: Summary, ec: Errc): Run {
    match ReadHeader(input)
    case Starved(missing) => Run(false, env.eof, [], missing, store, summary, [])
    case Refused(rest) => Run(false, InvalidArgument, rest, 0, store, summary, [])
    case Accepted(h, rest) =>
      var store' := if createDir then MakeDirs(store, Base(env)) else store;
      if Base(env) !in store'.dirs then Run(false, NotADirectory, rest, 0, store', summary, [])
      else Records(env, h.totalFiles, rest, store', summary, ec)
  }
}
