/** The sender's runs, failures included, as functions of what the system will answer. */
module Outbound {
  import opened BitStrings
  import opened Wire
  import opened WireIo
  import opened Transfers
  import opened Session
  import opened Manifest
  import opened Sending

  /** What does not change during a call: whether the socket is open and the kernel can copy files to it, and
      the sources, the tree, and the error of a stream that ends too early. */
  datatype Port = Port(valid: bool, linux: bool)

  datatype Setting = Setting(port: Port, tree: Tree, paths: seq<Text>, zeroCopy: bool, eof: Errc)

  /** The answers of the next file to be opened, and those of the later ones. */
  function Next(scripts: seq<seq<Answer>>): seq<Answer> {
    if scripts == [] then [] else scripts[0]
  }

  function Later(scripts: seq<seq<Answer>>): seq<seq<Answer>> {
    if scripts == [] then [] else scripts[1..]
  }

  function FdRun(io: Io, s: Port, content: seq<byte>, readable: bool, answers: seq<Answer>, off: nat, length: nat,
                 ec: Errc)
    : (Done, nat)
  {
    if !s.valid then (Done(false, BadDescriptor, io), off)
    else if s.linux then KernelRun(io, content, readable, off, length, ec)
    else CopyRun(io, content, readable, answers, off, length, ec)
  }

  /** Nothing is in store that the copy loop of the platform does not retry. */
  predicate Retried(s: Port, script: seq<Answer>, answers: seq<Answer>) {
    if s.linux then Live(script) else Steady(script) && Live(answers)
  }

  function PayloadRun(io: Io, s: Port, zeroCopy: bool, content: seq<byte>, readable: bool, answers: seq<Answer>,
                      size: nat, ec: Errc): Done {
    if size == 0 then Done(true, ec, io)
    else if zeroCopy then FdRun(io, s, content, readable, answers, 0, size, ec).0
    else UserRun(io, content, readable, answers, 0, size, ec).0
  }

  function FileRun(io: Io, s: Setting, e: FileEntry, scripts: seq<seq<Answer>>, ec: Errc): (Done, seq<seq<Answer>>) {
    var found := Resolve(s.tree, s.paths, e);
    if found.None? || !Opens(s.tree, found.value) then (Done(false, NoSuchFile, io), scripts)
    else
      var content, readable := ContentAt(s.tree, found.value), IsRegular(s.tree, found.value);
      (PayloadRun(io, s.port, s.zeroCopy, content, readable, Next(scripts), e.size, ec), Later(scripts))
  }

  function EntryRun(io: Io, s: Setting, e: FileEntry, scripts: seq<seq<Answer>>, ec: Errc): (Done, seq<seq<Answer>>) {
    var d := PushFileHeader(io, e, ec);
    if !d.ok then (d, scripts) else FileRun(d.io, s, e, scripts, d.ec)
  }

  function BodyRun(io: Io, s: Setting, es: seq<FileEntry>, scripts: seq<seq<Answer>>, ec: Errc): Done
    decreases |es|
  {
    if es == [] then PushAll(io, EncodeDone(), ec)
    else
      var (d, later) := EntryRun(io, s, es[0], scripts, ec);
      if !d.ok then d else BodyRun(d.io, s, es[1..], later, d.ec)
  }

  lemma BodyRunStep(io: Io, s: Setting, es: seq<FileEntry>, i: nat, scripts: seq<seq<Answer>>, ec: Errc)
    requires i < |es|
    ensures var (d, later) := EntryRun(io, s, es[i], scripts, ec);
            BodyRun(io, s, es[i..], scripts, ec) == if !d.ok then d else BodyRun(d.io, s, es[i + 1..], later, d.ec)
  {
    hide EntryRun;
    assert es[i..][1..] == es[i + 1..];
  }

  lemma BodyRunEnd(io: Io, s: Setting, es: seq<FileEntry>, scripts: seq<seq<Answer>>, ec: Errc)
    requires es == []
    ensures BodyRun(io, s, es, scripts, ec) == PushAll(io, EncodeDone(), ec)
  {
    hide PushAll;
  }

  /** A whole session; besides what has left, the bytes of the peer that have not been read. */
  function SessionRun(io: Io, s: Setting, es: seq<FileEntry>, scripts: seq<seq<Answer>>, incoming: seq<byte>, ec: Errc)
    : (Done, seq<byte>)
    requires |es| < 0x1_0000_0000_0000_0000
  {
    var d := PushAll(io, EncodeHeader(HeaderFor(SourcesOf(s.tree, s.paths, es))), ec);
    if !d.ok then (d, incoming)
    else match ReadAck(incoming)
      case Starved(_) => (Done(false, s.eof, d.io), [])
      case Refused(rest) => (Done(false, InvalidArgument, d.io), rest)
      case Accepted(_, rest) => (BodyRun(d.io, s, es, scripts, d.ec), rest)
  }

  datatype Filling = Filling(ok: bool, ec: Errc, scripts: seq<seq<Answer>>)

  /** Computing one checksum. It also fails on an error that was there before. */
  function FillOne(t: Tree, paths: seq<Text>, e: FileEntry, scripts: seq<seq<Answer>>, ec: Errc): Filling {
    var found := Resolve(t, paths, e);
    if found.None? || !Opens(t, found.value) then Filling(false, NoSuchFile, scripts)
    else
      var content, readable := ContentAt(t, found.value), IsRegular(t, found.value);
      if !ReadsThrough(content, readable, Next(scripts), 0, e.size) then Filling(false, IoError, Later(scripts))
      else Filling(ec == Clear, ec, Later(scripts))
  }

  function FillRun(t: Tree, paths: seq<Text>, es: seq<FileEntry>, scripts: seq<seq<Answer>>, ec: Errc): Filling
    decreases |es|
  {
    if es == [] then Filling(true, ec, scripts)
    else if es[0].crc32 != 0 then FillRun(t, paths, es[1..], scripts, ec)
    else
      var f := FillOne(t, paths, es[0], scripts, ec);
      if !f.ok then f else FillRun(t, paths, es[1..], f.scripts, f.ec)
  }

  lemma FillRunStep(t: Tree, paths: seq<Text>, es: seq<FileEntry>, i: nat, scripts: seq<seq<Answer>>, ec: Errc)
    requires i < |es|
    ensures var f := FillOne(t, paths, es[i], scripts, ec);
            FillRun(t, paths, es[i..], scripts, ec) ==
            if es[i].crc32 != 0 then FillRun(t, paths, es[i + 1..], scripts, ec)
            else if !f.ok then f
            else FillRun(t, paths, es[i + 1..], f.scripts, f.ec)
  {
    hide FillOne;
    assert es[i..][1..] == es[i + 1..];
  }

  lemma FillRunEnd(t: Tree, paths: seq<Text>, es: seq<FileEntry>, scripts: seq<seq<Answer>>, ec: Errc)
    requires es == []
    ensures FillRun(t, paths, es, scripts, ec) == Filling(true, ec, scripts)
  {
  }

  /** Sending a manifest. */
  function FilesRun(io: Io, s: Setting, es: seq<FileEntry>, scripts: seq<seq<Answer>>, incoming: seq<byte>, ec: Errc)
    : (Done, seq<byte>)
    requires |es| < 0x1_0000_0000_0000_0000
  {
    if es == [] then (Done(true, ec, io), incoming)
    else
      var f := FillRun(s.tree, s.paths, es, scripts, ec);
      if !f.ok then (Done(false, f.ec, io), incoming)
      else SessionRun(io, s, FilledAll(s.tree, s.paths, es), f.scripts, incoming, f.ec)
  }

  lemma NothingToSend(io: Io, s: Setting, scripts: seq<seq<Answer>>, incoming: seq<byte>, ec: Errc)
    ensures FilesRun(io, s, [], scripts, incoming, ec) == (Done(true, ec, io), incoming)
  {
  }

  lemma FilesRunUnfolds(io: Io, s: Setting, es: seq<FileEntry>, scripts: seq<seq<Answer>>, incoming: seq<byte>,
                        ec: Errc)
    requires 0 < |es| < 0x1_0000_0000_0000_0000
    ensures var f := FillRun(s.tree, s.paths, es, scripts, ec);
            FilesRun(io, s, es, scripts, incoming, ec) ==
            if !f.ok then (Done(false, f.ec, io), incoming)
            else SessionRun(io, s, FilledAll(s.tree, s.paths, es), f.scripts, incoming, f.ec)
  {
    hide FillRun, SessionRun, FilledAll;
  }

  // ---- the kernel path and the userspace path ----

  /** Zero copy refines the userspace loop: for any file and any declared size, without I/O errors, both send the
      same bytes, namely all there are, and both succeed exactly when the file is long enough, the kernel path also
      when it is interrupted. For a file that is too short they differ only in the error: the kernel path reports
      io_error, the userspace path none. */
  lemma ZeroCopyRefinesUserspace(sent: seq<byte>, port: Port, content: seq<byte>, ks: seq<Answer>, us: seq<Answer>,
                                 a: seq<Answer>, b: seq<Answer>, size: nat, ec: Errc)
    requires port.valid && Retried(port, ks, a) && Steady(us) && Steady(b)
    ensures var kernel := PayloadRun(Io(sent, ks), port, true, content, true, a, size, ec);
            var user := PayloadRun(Io(sent, us), port, false, content, true, b, size, ec);
            kernel.io.sent == user.io.sent == sent + UpTo(content, size) &&
            (kernel.ok <==> size <= |content|) && (user.ok <==> size <= |content|) &&
            user.ec == ec && kernel.ec == if kernel.ok then ec else IoError
  {
    hide KernelRun, CopyRun, UserRun, Steady, Live;
    if port.linux {
      KernelLive(Io(sent, ks), content, 0, size, ec);
    } else {
      CopyLive(Io(sent, ks), content, a, 0, size, ec);
    }
    UserSteady(Io(sent, us), content, b, 0, size, ec);
  }

  // ---- how failures are reported ----

  /** After a header that has left: an answer that is no acknowledgement is invalid, and a stream that ends within it
      reports its end; then nothing more leaves. */
  lemma AckFailureReported(io: Io, s: Setting, es: seq<FileEntry>, scripts: seq<seq<Answer>>, incoming: seq<byte>,
                           ec: Errc)
    requires |es| < 0x1_0000_0000_0000_0000
    ensures var d := PushAll(io, EncodeHeader(HeaderFor(SourcesOf(s.tree, s.paths, es))), ec);
            var r := SessionRun(io, s, es, scripts, incoming, ec);
            (!d.ok ==> r == (d, incoming)) &&
            (d.ok && |incoming| < 8 ==> r == (Done(false, s.eof, d.io), [])) &&
            (d.ok && |incoming| >= 8 && incoming[..4] != [0x59, 0x41, 0x4B, 0x4F] ==>
               r == (Done(false, InvalidArgument, d.io), incoming[8..]))
  {
    hide PushAll, EncodeHeader, BodyRun, SourcesOf;
    if |incoming| >= 8 {
      AckMagicFirst(incoming);
    }
  }

  /** A path that is too long is refused before anything leaves; a file that is not found or does not open is reported
      as missing. */
  lemma EntryFailureReported(io: Io, s: Setting, e: FileEntry, scripts: seq<seq<Answer>>, ec: Errc)
    ensures var (d, later) := EntryRun(io, s, e, scripts, ec);
            (|e.relPath| > 0xFFFF ==> !d.ok && d.ec == FilenameTooLong && d.io == io) &&
            (d.ok ==> Resolve(s.tree, s.paths, e).Some? && Opens(s.tree, Resolve(s.tree, s.paths, e).value)) &&
            (PushFileHeader(io, e, ec).ok &&
             (Resolve(s.tree, s.paths, e).None? || !Opens(s.tree, Resolve(s.tree, s.paths, e).value)) ==>
               !d.ok && d.ec == NoSuchFile && d.io == PushFileHeader(io, e, ec).io)
  {
    hide PushAll, EncodeHead, Resolve, Opens, PayloadRun, ContentAt;
  }

  /** A checksum fails on a missing file, on a failing read, and on an error that was there before. */
  lemma ChecksumFailureReported(t: Tree, paths: seq<Text>, e: FileEntry, scripts: seq<seq<Answer>>, ec: Errc)
    ensures var f := FillOne(t, paths, e, scripts, ec);
            var found := Resolve(t, paths, e);
            if found.None? || !Opens(t, found.value) then !f.ok && f.ec == NoSuchFile
            else if !ReadsThrough(ContentAt(t, found.value), IsRegular(t, found.value), Next(scripts), 0, e.size) then
              !f.ok && f.ec == IoError
            else f.ec == ec && (f.ok <==> ec == Clear)
  {
    hide Resolve, Opens, ContentAt, IsRegular, ReadsThrough;
  }

  /** The kernel path refuses a socket that is not open. */
  lemma ClosedSocketReported(io: Io, port: Port, content: seq<byte>, readable: bool, answers: seq<Answer>, size: nat,
                             ec: Errc)
    requires !port.valid && size > 0
    ensures PayloadRun(io, port, true, content, readable, answers, size, ec) == Done(false, BadDescriptor, io)
  {
  }
}
