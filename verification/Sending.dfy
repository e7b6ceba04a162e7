/** What a sender puts on the wire, as a function of the tree, the sources and the manifest. */
module Sending {
  import opened BitStrings
  import opened Crc32c
  import opened Wire
  import opened Paths
  import opened Transfers
  import opened Session
  import opened Manifest

  /** The content behind a path; a directory has none. */
  function ContentAt(t: Tree, path: Text): seq<byte> {
    if IsRegular(t, path) then t.files[At(t, path)] else []
  }

  /** open() succeeds. */
  predicate Opens(t: Tree, path: Text) {
    Exists(t, path) && At(t, path) !in t.locked
  }

  function Backing(t: Tree, paths: seq<Text>, e: FileEntry): seq<byte> {
    var found := Resolve(t, paths, e);
    if found.Some? then ContentAt(t, found.value) else []
  }

  /** The first size bytes, or all of a shorter file. */
  function UpTo(content: seq<byte>, size: nat): (r: seq<byte>)
    ensures r <= content && |r| == Min(size, |content|)
  {
    content[..Min(size, |content|)]
  }

  /** A manifest entry ready for the wire: a checksum of 0 is replaced by that of the content. */
  function Filled(t: Tree, paths: seq<Text>, e: FileEntry): FileEntry {
    if e.crc32 != 0 then e else e.(crc32 := Checksum(UpTo(Backing(t, paths, e), e.size)))
  }

  /** An entry as it stands, with the bytes that are sent for it. */
  function SourceOf(t: Tree, paths: seq<Text>, e: FileEntry): Source {
    Source(e, UpTo(Backing(t, paths, e), e.size))
  }

  function SourcesOf(t: Tree, paths: seq<Text>, es: seq<FileEntry>): (xs: seq<Source>)
    ensures |xs| == |es| && forall i :: 0 <= i < |es| ==> xs[i] == SourceOf(t, paths, es[i])
  {
    seq(|es|, i requires 0 <= i < |es| => SourceOf(t, paths, es[i]))
  }

  function FilledAll(t: Tree, paths: seq<Text>, es: seq<FileEntry>): (r: seq<FileEntry>)
    ensures |r| == |es| && forall i :: 0 <= i < |es| ==> r[i] == Filled(t, paths, es[i])
  {
    seq(|es|, i requires 0 <= i < |es| => Filled(t, paths, es[i]))
  }

  predicate Servable(t: Tree, paths: seq<Text>, e: FileEntry) {
    Resolve(t, paths, e).Some? && Opens(t, Resolve(t, paths, e).value)
  }

  predicate AllServable(t: Tree, paths: seq<Text>, es: seq<FileEntry>) {
    forall i :: 0 <= i < |es| ==> Servable(t, paths, es[i])
  }

  /** The record can be sent whole: its path has an encoding and its file is long enough. */
  predicate Sendable(x: Source) {
    |x.entry.relPath| <= 0xFFFF && x.entry.size == |x.content|
  }

  predicate AllSendable(xs: seq<Source>) {
    forall i :: 0 <= i < |xs| ==> Sendable(xs[i])
  }

  /** What follows the acknowledgement; it ends early at the first record that cannot be sent whole. */
  function Body(xs: seq<Source>): seq<byte> {
    if xs == [] then EncodeDone()
    else if |xs[0].entry.relPath| > 0xFFFF then []
    else EncodeRecord(xs[0]) + (if Sendable(xs[0]) then Body(xs[1..]) else [])
  }

  lemma {:induction false} BodyOfSendable(xs: seq<Source>)
    requires AllSendable(xs)
    ensures Body(xs) == EncodeRecords(xs) + EncodeDone()
    decreases |xs|
  {
    hide EncodeRecord, EncodeDone;
    if xs == [] {
    } else {
      BodyOfSendable(xs[1..]);
    }
  }

  lemma BodyStarts(xs: seq<Source>)
    requires xs != [] && |xs[0].entry.relPath| <= 0xFFFF
    ensures EncodeRecord(xs[0]) <= Body(xs)
    ensures Sendable(xs[0]) ==> Body(xs) == EncodeRecord(xs[0]) + Body(xs[1..])
  {
    hide EncodeRecord;
  }

  lemma {:induction false} FirstCandidateIgnoresCrc(t: Tree, paths: seq<Text>, e: FileEntry, crc: u32)
    ensures FirstCandidate(t, paths, e.(crc32 := crc)) == FirstCandidate(t, paths, e)
    decreases |paths|
  {
    hide Join, ParentText, IsRegular;
    if paths == [] {
    } else {
      FirstCandidateIgnoresCrc(t, paths[1..], e, crc);
    }
  }

  lemma FilledResolves(t: Tree, paths: seq<Text>, e: FileEntry)
    ensures Resolve(t, paths, Filled(t, paths, e)) == Resolve(t, paths, e)
    ensures Servable(t, paths, Filled(t, paths, e)) == Servable(t, paths, e)
    ensures Backing(t, paths, Filled(t, paths, e)) == Backing(t, paths, e)
    ensures Filled(t, paths, e).size == e.size && Filled(t, paths, e).relPath == e.relPath
  {
    hide FirstCandidate, Join, IsRegular, IsDirectory, Checksum, Exists, Backing;
    FirstCandidateIgnoresCrc(t, paths, e, Filled(t, paths, e).crc32);
    SameBacking(t, paths, e, Filled(t, paths, e));
  }

  lemma SameBacking(t: Tree, paths: seq<Text>, e: FileEntry, f: FileEntry)
    requires Resolve(t, paths, e) == Resolve(t, paths, f)
    ensures Backing(t, paths, e) == Backing(t, paths, f)
  {
  }

  /** The checksum of an entry can be computed: its file opens, and it can be read if anything is to be read. */
  predicate Fillable(t: Tree, paths: seq<Text>, e: FileEntry) {
    Servable(t, paths, e) && (e.size == 0 || IsRegular(t, Resolve(t, paths, e).value))
  }

  predicate AllFillable(t: Tree, paths: seq<Text>, es: seq<FileEntry>) {
    forall i :: 0 <= i < |es| && es[i].crc32 == 0 ==> Fillable(t, paths, es[i])
  }

  /** What is sent for a manifest. */
  function Outgoing(t: Tree, paths: seq<Text>, es: seq<FileEntry>): (xs: seq<Source>)
    ensures |xs| == |es|
  {
    SourcesOf(t, paths, FilledAll(t, paths, es))
  }

  lemma OutgoingIs(t: Tree, paths: seq<Text>, es: seq<FileEntry>)
    ensures Outgoing(t, paths, es) == SourcesOf(t, paths, FilledAll(t, paths, es))
  {
  }

  /** Filling in checksums changes neither what is found on disk nor what can be sent. */
  lemma FilledServable(t: Tree, paths: seq<Text>, es: seq<FileEntry>)
    ensures AllServable(t, paths, FilledAll(t, paths, es)) == AllServable(t, paths, es)
    ensures AllSendable(Outgoing(t, paths, es)) == AllSendable(SourcesOf(t, paths, es))
  {
    hide Servable, Backing, UpTo, Filled;
    forall i | 0 <= i < |es|
      ensures Servable(t, paths, FilledAll(t, paths, es)[i]) == Servable(t, paths, es[i])
      ensures Sendable(Outgoing(t, paths, es)[i]) == Sendable(SourcesOf(t, paths, es)[i])
    {
      FilledResolves(t, paths, es[i]);
    }
  }

  /** An entry that can be sent whole has a checksum that can be computed. */
  lemma SendableIsFillable(t: Tree, paths: seq<Text>, e: FileEntry)
    requires Servable(t, paths, e) && Sendable(SourceOf(t, paths, e))
    ensures Fillable(t, paths, e)
  {
    hide Resolve, Opens, IsRegular;
  }

  lemma SendableAreFillable(t: Tree, paths: seq<Text>, es: seq<FileEntry>)
    requires AllServable(t, paths, es) && AllSendable(SourcesOf(t, paths, es))
    ensures AllFillable(t, paths, es)
  {
    hide Servable, Fillable, Sendable, SourceOf;
    forall i | 0 <= i < |es| ensures Fillable(t, paths, es[i]) {
      assert Sendable(SourcesOf(t, paths, es)[i]);
      SendableIsFillable(t, paths, es[i]);
    }
  }

  lemma SessionBytes(xs: seq<Source>)
    requires AllSendable(xs) && |xs| < 0x1_0000_0000_0000_0000
    ensures Encodable(xs) && EncodeHeader(HeaderFor(xs)) + Body(xs) == EncodeSession(xs)
  {
    hide EncodeHeader, EncodeDone, Body;
    BodyOfSendable(xs);
  }

  // ---- a session in plain bytes ----

  /** One record with its payload: the declared size, the preset checksum or that of the payload, and the first
      bytes of the file found on disk. */
  predicate RecordInBytes(t: Tree, paths: seq<Text>, e: FileEntry, b: seq<byte>) {
    var n := 18 + |e.relPath|;
    var found := Resolve(t, paths, e);
    |b| == n + e.size &&
    RecordLayout(b[..n], e.relPath, e.size, if e.crc32 != 0 then e.crc32 else Checksum(b[n..])) &&
    found.Some? &&
    if IsRegular(t, found.value) then b[n..] <= t.files[At(t, found.value)] else e.size == 0
  }

  predicate RecordsInBytes(t: Tree, paths: seq<Text>, es: seq<FileEntry>, b: seq<byte>)
    decreases |es|
  {
    if es == [] then b == [0x45, 0x4E, 0x4F, 0x44]
    else
      var n := 18 + |es[0].relPath| + es[0].size;
      |b| >= n && RecordInBytes(t, paths, es[0], b[..n]) && RecordsInBytes(t, paths, es[1..], b[n..])
  }

  /** Header (version 1, flag 1, the number of files and the sum of their sizes modulo 2^64), records in order,
      trailer. */
  predicate SessionInBytes(t: Tree, paths: seq<Text>, es: seq<FileEntry>, b: seq<byte>) {
    |b| >= 32 && HeaderInBytes(es, b[..32]) && RecordsInBytes(t, paths, es, b[32..])
  }

  predicate HeaderInBytes(es: seq<FileEntry>, b: seq<byte>) {
    HeaderLayout(b, 1, |es|, SizeSum(es) % 0x1_0000_0000_0000_0000, 1)
  }

  lemma RecordTold(t: Tree, paths: seq<Text>, e: FileEntry)
    requires Servable(t, paths, e) && Sendable(SourceOf(t, paths, Filled(t, paths, e)))
    ensures RecordInBytes(t, paths, e, EncodeRecord(SourceOf(t, paths, Filled(t, paths, e))))
  {
    hide EncodeFileHeader, RecordLayout, Resolve, Checksum, IsRegular, At, Opens;
    var f := Filled(t, paths, e);
    FilledResolves(t, paths, e);
    RecordIsLaidOut(f);
    var x, b := SourceOf(t, paths, f), EncodeRecord(SourceOf(t, paths, f));
    assert b[..18 + |e.relPath|] == EncodeFileHeader(f) && b[18 + |e.relPath|..] == x.content;
  }

  lemma {:induction false} RecordsTold(t: Tree, paths: seq<Text>, es: seq<FileEntry>)
    requires AllServable(t, paths, es) && AllSendable(Outgoing(t, paths, es))
    ensures RecordsInBytes(t, paths, es, Body(Outgoing(t, paths, es)))
    decreases |es|
  {
    hide Servable, Sendable, SourceOf, Filled, EncodeRecord, RecordInBytes, EncodeDone;
    var xs := Outgoing(t, paths, es);
    if es == [] {
      DoneIsLaidOut();
    } else {
      assert xs[0] == SourceOf(t, paths, Filled(t, paths, es[0])) && Sendable(xs[0]) && Servable(t, paths, es[0]);
      assert Outgoing(t, paths, es[1..]) == xs[1..];
      RecordTold(t, paths, es[0]);
      RecordSize(t, paths, es[0]);
      BodyFirst(xs);
      RecordsTold(t, paths, es[1..]);
    }
  }

  lemma RecordSize(t: Tree, paths: seq<Text>, e: FileEntry)
    requires Sendable(SourceOf(t, paths, Filled(t, paths, e)))
    ensures |EncodeRecord(SourceOf(t, paths, Filled(t, paths, e)))| == 18 + |e.relPath| + e.size
  {
    hide Backing, UpTo, Checksum;
  }

  lemma BodyFirst(xs: seq<Source>)
    requires xs != [] && Sendable(xs[0])
    ensures var r := EncodeRecord(xs[0]);
            r <= Body(xs) && Body(xs)[..|r|] == r && Body(xs)[|r|..] == Body(xs[1..])
  {
    hide EncodeRecord;
    BodyStarts(xs);
  }

  lemma {:induction false} SameSizes(es: seq<FileEntry>, fs: seq<FileEntry>)
    requires |es| == |fs| && forall i :: 0 <= i < |es| ==> es[i].size == fs[i].size
    ensures SizeSum(es) == SizeSum(fs)
    decreases |es|
  {
    if es == [] {
    } else {
      SameSizes(es[..|es| - 1], fs[..|fs| - 1]);
    }
  }

  lemma HeaderTold(es: seq<FileEntry>, xs: seq<Source>)
    requires |es| == |xs| < 0x1_0000_0000_0000_0000 && forall i :: 0 <= i < |es| ==> xs[i].entry.size == es[i].size
    ensures HeaderInBytes(es, EncodeHeader(HeaderFor(xs)))
  {
    hide EncodeHeader, HeaderLayout;
    HeaderIsLaidOut(HeaderFor(xs));
    TotalIsSum(xs);
    SameSizes(es, EntriesOf(xs));
  }

  lemma OutgoingSizes(t: Tree, paths: seq<Text>, es: seq<FileEntry>)
    ensures forall i :: 0 <= i < |es| ==> Outgoing(t, paths, es)[i].entry.size == es[i].size
    ensures forall i :: 0 <= i < |es| ==> SourcesOf(t, paths, es)[i].entry.size == es[i].size
  {
    hide Backing, UpTo, Checksum;
  }

  /** What leaves for a manifest that can be sent whole. */
  lemma SessionTold(t: Tree, paths: seq<Text>, es: seq<FileEntry>)
    requires |es| < 0x1_0000_0000_0000_0000
    requires AllServable(t, paths, es) && AllSendable(Outgoing(t, paths, es))
    ensures SessionInBytes(t, paths, es, EncodeHeader(HeaderFor(Outgoing(t, paths, es))) + Body(Outgoing(t, paths, es)))
  {
    hide AllServable, AllSendable, Outgoing, HeaderInBytes, RecordsInBytes, Body, EncodeHeader;
    var head, body := EncodeHeader(HeaderFor(Outgoing(t, paths, es))), Body(Outgoing(t, paths, es));
    OutgoingSizes(t, paths, es);
    HeaderTold(es, Outgoing(t, paths, es));
    RecordsTold(t, paths, es);
    assert (head + body)[..32] == head && (head + body)[32..] == body;
  }
}
