/** The sender as it runs. */
module Sender {
  import opened BitStrings
  import opened LittleEndian
  import opened Crc32c
  import opened ChecksumTheory
  import opened Wire
  import opened WireIo
  import opened Transfers
  import opened Net
  import opened Session
  import opened Manifest
  import opened Collect
  import opened Sending
  import opened Outbound
  import opened Scanning

  /** The machine the sender runs on: an unchanging tree, and what the coming opened files will answer. */
  class Host {
    const tree: Tree
    const linux: bool
    const table: Table
    var scripts: seq<seq<Answer>>

    constructor (tree: Tree, linux: bool, table: Table, scripts: seq<seq<Answer>>)
      ensures this.tree == tree && this.linux == linux && this.table == table && this.scripts == scripts
    {
      this.tree := tree;
      this.linux := linux;
      this.table := table;
      this.scripts := scripts;
    }

    method OpenForRead(path: Text, ec0: Errc) returns (file: SourceFile?, ec: Errc)
      modifies this
      ensures file != null <==> Opens(tree, path)
      ensures file != null <==> (IsRegular(tree, path) || IsDirectory(tree, path)) && At(tree, path) !in tree.locked
      ensures file != null && IsRegular(tree, path) ==> file.content == tree.files[At(tree, path)]
      ensures ec == if file != null then ec0 else NoSuchFile
      ensures file != null ==> fresh(file) && file.content == ContentAt(tree, path)
      ensures file != null ==> file.readable == IsRegular(tree, path)
      ensures if file != null then file.answers == Next(old(scripts)) && scripts == Later(old(scripts))
              else scripts == old(scripts)
      ensures Calm(old(scripts)) ==> Calm(scripts) && (file != null ==> Steady(file.answers))
    {
      file, ec := null, ec0;
      if !Opens(tree, path) {
        return null, NoSuchFile;
      }
      var answers := Next(scripts);
      scripts := Later(scripts);
      file := new SourceFile(ContentAt(tree, path), IsRegular(tree, path), answers);
    }
  }

  /** Reads make progress and do not fail. */
  predicate Calm(scripts: seq<seq<Answer>>) {
    forall i :: 0 <= i < |scripts| ==> Steady(scripts[i])
  }

  lemma ReadOn(content: seq<byte>, offset: nat, n: nat)
    requires offset + n <= |content|
    ensures Register(Register(ONES, content[..offset]), content[offset..offset + n]) ==
            Register(ONES, content[..offset + n])
  {
    hide Register;
    RegisterConcat(ONES, content[..offset], content[offset..offset + n]);
    assert content[..offset] + content[offset..offset + n] == content[..offset + n];
  }

  lemma ReadNothing(content: seq<byte>)
    ensures Register(ONES, content[..0]) == ONES
  {
  }

  /** The checksum of the first size bytes, or of a shorter file, whatever the short reads. */
  method CrcOfFd(file: SourceFile, table: Table, size: u64, ec0: Errc) returns (crc: u32, ec: Errc, ghost ok: bool)
    requires table.Valid()
    modifies file
    ensures ok ==> crc == Checksum(UpTo(file.content, size)) && ec == ec0
    ensures !ok ==> crc == 0 && ec == IoError
    ensures ok <==> ReadsThrough(file.content, file.readable, old(file.answers), 0, size)
    ensures Steady(old(file.answers)) ==> (ok <==> file.readable || size == 0)
  {
    hide Register, Xor32, Steady, ReadsThrough, ReadOnce;
    ec := ec0;
    var buf := new byte[CHUNK];
    var c := new Crc32(table);
    var remaining: nat := size;
    var offset: nat := 0;
    ReadNothing(file.content);
    while remaining > 0
      invariant offset + remaining == size && offset <= |file.content|
      invariant offset > 0 ==> file.readable
      invariant c.table == table && table.Valid() && fresh(c) && fresh(buf)
      invariant ReadsThrough(file.content, file.readable, file.answers, offset, remaining) ==
                ReadsThrough(file.content, file.readable, old(file.answers), 0, size)
      invariant c.state == Register(ONES, file.content[..offset])
      invariant Steady(old(file.answers)) ==> Steady(file.answers)
    {
      var want := Min(remaining, CHUNK);
      ghost var answers := file.answers;
      var n, errno := file.Pread(buf, want, offset);
      ReadsStep(file.content, file.readable, answers, offset, remaining, ReadCall(n, errno, file.answers));
      if n < 0 {
        return 0, IoError, false;
      }
      if n == 0 {
        break;
      }
      c.Update(buf, n);
      ReadOn(file.content, offset, n);
      offset := offset + n;
      remaining := remaining - n;
    }
    NothingToRead(Io([], []), file.content, file.readable, file.answers, offset, ec);
    crc := c.Final();
    ok := true;
  }

  function PortOf(sock: Socket, host: Host): Port
    reads sock
  {
    Port(sock.fd >= 0, host.linux)
  }

  function SettingOf(sock: Socket, host: Host, paths: seq<Text>, zeroCopy: bool): Setting
    reads sock
  {
    Setting(PortOf(sock, host), host.tree, paths, zeroCopy, sock.EndError())
  }

  /** Either platform branch. What has left is a part of the range, at most 4 MiB beyond the offset reported. */
  method SendFromFd(sock: Socket, host: Host, file: SourceFile, offset0: nat, length: nat, ec0: Errc)
    returns (ok: bool, offset: nat, ec: Errc)
    modifies sock`sent, sock`sendScript, file
    ensures sock.fd >= 0 || length > 0 ==>
              Transferred(Done(ok, ec, sock.Out()), old(sock.Out()), file.content, offset0, length, offset,
                          0x40_0000, ec0)
    ensures (Done(ok, ec, sock.Out()), offset) ==
            FdRun(old(sock.Out()), PortOf(sock, host), file.content, file.readable, old(file.answers), offset0, length,
                  ec0)
    ensures sock.fd >= 0 && Retried(PortOf(sock, host), old(sock.sendScript), old(file.answers)) && file.readable &&
            length > 0 ==>
              (ok <==> offset0 + length <= |file.content|)
    ensures Steady(old(sock.sendScript)) ==> Steady(sock.sendScript)
  {
    hide Transferred, Steady, Live, KernelRun, CopyRun;
    if host.linux {
      ghost var io := sock.Out();
      ok, offset, ec := sock.SendFromFdLinux(file, offset0, length, ec0);
      if sock.fd >= 0 || length > 0 {
        SlackGrows(Done(ok, ec, sock.Out()), io, file.content, offset0, length, offset, 1, PORTABLE_CHUNK, ec0);
      }
    } else {
      ok, offset, ec := sock.SendFromFdPortable(file, offset0, length, ec0);
    }
  }

  /** A file's payload, by either path. On success exactly its first size bytes have left and the progress
      display was told of size bytes; on failure a shorter prefix has left. */
  method SendFileBytes(sock: Socket, host: Host, file: SourceFile, size: u64, zeroCopy: bool, ec0: Errc)
    returns (ok: bool, ec: Errc, added: nat)
    modifies sock`sent, sock`sendScript, file
    ensures Transferred(Done(ok, ec, sock.Out()), old(sock.Out()), file.content, 0, size, added, size + 1, ec0)
    ensures Done(ok, ec, sock.Out()) ==
            PayloadRun(old(sock.Out()), PortOf(sock, host), zeroCopy, file.content, file.readable, old(file.answers),
                       size, ec0)
    ensures sock.fd >= 0 && Steady(old(sock.sendScript)) && Steady(old(file.answers)) && file.readable ==>
              (ok <==> size <= |file.content|)
    ensures Steady(old(sock.sendScript)) ==> Steady(sock.sendScript)
  {
    hide Transferred, Steady, FdRun, UserRun;
    if size == 0 {
      TransferredNone(Done(true, ec0, sock.Out()), sock.Out(), file.content, 0, 0, 1, ec0);
      return true, ec0, 0;
    }
    if zeroCopy {
      ok, ec, added := SendZeroCopy(sock, host, file, size, ec0);
    } else {
      ok, ec, added := SendUserspace(sock, file, size, ec0);
    }
  }

  lemma SteadyIsRetried(s: Port, script: seq<Answer>, answers: seq<Answer>)
    ensures Steady(script) && Steady(answers) ==> Retried(s, script, answers)
  {
  }

  method SendZeroCopy(sock: Socket, host: Host, file: SourceFile, size: u64, ec0: Errc)
    returns (ok: bool, ec: Errc, added: nat)
    requires size > 0
    modifies sock`sent, sock`sendScript, file
    ensures Transferred(Done(ok, ec, sock.Out()), old(sock.Out()), file.content, 0, size, added, size + 1, ec0)
    ensures Done(ok, ec, sock.Out()) ==
            FdRun(old(sock.Out()), PortOf(sock, host), file.content, file.readable, old(file.answers), 0, size, ec0).0
    ensures sock.fd >= 0 && Retried(PortOf(sock, host), old(sock.sendScript), old(file.answers)) && file.readable ==>
              (ok <==> size <= |file.content|)
    ensures sock.fd >= 0 && Steady(old(sock.sendScript)) && Steady(old(file.answers)) && file.readable ==>
              (ok <==> size <= |file.content|)
    ensures Steady(old(sock.sendScript)) ==> Steady(sock.sendScript)
  {
    hide Transferred, Steady, Retried, FdRun;
    ec, added := ec0, 0;
    SteadyIsRetried(PortOf(sock, host), sock.sendScript, file.answers);
    ghost var io := sock.Out();
    var offset: nat := 0;
    var remaining: nat := size;
    while remaining > 0
      invariant remaining > 0 ==>
                  remaining == size && offset == added == 0 && ec == ec0 && sock.Out() == io &&
                  file.answers == old(file.answers)
      invariant remaining == 0 ==>
                  Transferred(Done(true, ec, sock.Out()), io, file.content, 0, size, added, size + 1, ec0) &&
                  Done(true, ec, sock.Out()) ==
                  FdRun(io, PortOf(sock, host), file.content, file.readable, old(file.answers), 0, size, ec0).0
      invariant remaining == 0 ==>
                  sock.fd < 0 || !Retried(PortOf(sock, host), old(sock.sendScript), old(file.answers)) ||
                  !file.readable || size <= |file.content|
      invariant Steady(old(sock.sendScript)) ==> Steady(sock.sendScript)
    {
      var before := offset;
      ok, offset, ec := SendFromFd(sock, host, file, offset, remaining, ec);
      TransferEnds(Done(ok, ec, sock.Out()), io, file.content, size, offset, PORTABLE_CHUNK, ec0);
      if !ok {
        return false, ec, added;
      }
      var transmitted := offset - before;
      if transmitted == 0 {
        return false, IoError, added;
      }
      remaining := remaining - transmitted;
      added := added + transmitted;
    }
    ok := true;
  }

  /** The whole range was transferred, and told so; or it was not, and nothing was told. */
  lemma TransferEnds(d: Done, io: Io, content: seq<byte>, size: nat, offset: nat, slack: nat, ec: Errc)
    requires Transferred(d, io, content, 0, size, offset, slack, ec)
    ensures d.ok ==> offset == size && d.ec == ec
    ensures offset <= size
    ensures Transferred(d, io, content, 0, size, if d.ok then size else 0, size + 1, ec)
  {
  }

  method SendUserspace(sock: Socket, file: SourceFile, size: u64, ec0: Errc)
    returns (ok: bool, ec: Errc, added: nat)
    requires size > 0
    modifies sock`sent, sock`sendScript, file
    ensures Transferred(Done(ok, ec, sock.Out()), old(sock.Out()), file.content, 0, size, added, size + 1, ec0)
    ensures (Done(ok, ec, sock.Out()), added) ==
            UserRun(old(sock.Out()), file.content, file.readable, old(file.answers), 0, size, ec0)
    ensures Steady(old(sock.sendScript)) && Steady(old(file.answers)) && file.readable ==>
              (ok <==> size <= |file.content|)
    ensures Steady(old(sock.sendScript)) ==> Steady(sock.sendScript)
  {
    hide Slice, Steady, UserRun, ReadOnce, PushAll, Transferred, CopiedRange;
    UserOutcome(sock.Out(), file.content, file.readable, file.answers, size, ec0);
    ec, added := ec0, 0;
    var buffer := new byte[CHUNK];
    var offset: nat := 0;
    var remaining: nat := size;
    while remaining > 0
      invariant offset == added && ec == ec0 && fresh(buffer)
      invariant UserRun(sock.Out(), file.content, file.readable, file.answers, offset, remaining, ec) ==
                UserRun(old(sock.Out()), file.content, file.readable, old(file.answers), 0, size, ec0)
    {
      var want := Min(remaining, CHUNK);
      ghost var io, answers := sock.Out(), file.answers;
      var n, errno := file.Pread(buffer, want, offset);
      ghost var d := PushAll(io, if n > 0 then Slice(file.content, offset, offset + n) else [], ec);
      UserStep(io, file.content, file.readable, answers, offset, remaining, ec, ReadCall(n, errno, file.answers), d);
      if n < 0 {
        return false, IoError, added;
      }
      if n == 0 {
        break;
      }
      var pushed;
      SliceIs(file.content, offset, offset + n);
      pushed, ec := sock.SendAll(buffer[..n], ec);
      if !pushed {
        return false, ec, added;
      }
      offset := offset + n;
      remaining := remaining - n;
      added := added + n;
    }
    ok := remaining == 0;
    NothingToRead(sock.Out(), file.content, file.readable, file.answers, offset, ec);
  }

  /** What the userspace loop comes to. */
  lemma UserOutcome(io: Io, content: seq<byte>, readable: bool, answers: seq<Answer>, size: nat, ec: Errc)
    requires size > 0
    ensures var (d, end) := UserRun(io, content, readable, answers, 0, size, ec);
            Transferred(d, io, content, 0, size, end, size + 1, ec) && (Steady(io.script) ==> Steady(d.io.script)) &&
            (Steady(io.script) && Steady(answers) && readable ==> (d.ok <==> size <= |content|))
  {
    hide UserRun, Steady;
    UserRunMeaning(io, content, readable, answers, 0, size, ec);
    if Steady(io.script) && Steady(answers) && readable {
      UserSteady(io, content, answers, 0, size, ec);
    }
  }

  // ---- records ----

  /** No interruption and no failure is in store for the sender. */
  predicate Smooth(sock: Socket, host: Host)
    reads sock, host
  {
    sock.fd >= 0 && Steady(sock.sendScript) && Calm(host.scripts)
  }

  /** The payload of one entry: find it, open it, send it. */
  method SendPayload(sock: Socket, host: Host, paths: seq<Text>, e: FileEntry, zeroCopy: bool, ec0: Errc)
    returns (ok: bool, ec: Errc)
    modifies sock`sent, sock`sendScript, host
    ensures var x := SourceOf(host.tree, paths, e);
            old(sock.sent) <= sock.sent <= old(sock.sent) + x.content &&
            (ok ==> sock.sent == old(sock.sent) + x.content && e.size == |x.content| && ec == ec0)
    ensures ok ==> Servable(host.tree, paths, e)
    ensures (Done(ok, ec, sock.Out()), host.scripts) ==
            FileRun(old(sock.Out()), SettingOf(sock, host, paths, zeroCopy), e, old(host.scripts), ec0)
    ensures old(Smooth(sock, host)) ==>
              Smooth(sock, host) &&
              (ok <==> Servable(host.tree, paths, e) && e.size == |SourceOf(host.tree, paths, e).content|)
  {
    hide Slice, Steady, Resolve, Opens, ContentAt, IsRegular, PayloadRun, Next, Later, Transferred;
    var path;
    path, ec := ResolveOnDisk(host.tree, paths, e, ec0);
    if path.None? {
      return false, ec;
    }
    var file;
    file, ec := host.OpenForRead(path.value, ec);
    if file == null {
      return false, ec;
    }
    ghost var io := sock.Out();
    var added;
    ok, ec, added := SendFileBytes(sock, host, file, e.size, zeroCopy, ec);
    PrefixSent(Done(ok, ec, sock.Out()), io, file.content, e.size, added, ec0);
    DirectoryIsEmpty(host.tree, path.value);
  }

  lemma DirectoryIsEmpty(t: Tree, path: Text)
    ensures !IsRegular(t, path) ==> ContentAt(t, path) == []
  {
  }

  lemma PrefixSent(d: Done, io: Io, content: seq<byte>, size: nat, added: nat, ec: Errc)
    requires Transferred(d, io, content, 0, size, added, size + 1, ec)
    ensures io.sent <= d.io.sent <= io.sent + UpTo(content, size)
    ensures d.ok ==> d.io.sent == io.sent + UpTo(content, size) && size == |UpTo(content, size)| && d.ec == ec
    ensures !d.ok ==> size > 0
  {
    var left := |d.io.sent| - |io.sent|;
    assert Slice(content, 0, left) == content[..left] <= UpTo(content, size);
    if d.ok {
      assert content[..left] == UpTo(content, size);
    }
  }

  method SendEntry(sock: Socket, host: Host, paths: seq<Text>, e: FileEntry, zeroCopy: bool, ec0: Errc)
    returns (ok: bool, ec: Errc)
    modifies sock`sent, sock`sendScript, host
    ensures var x := SourceOf(host.tree, paths, e);
            if |e.relPath| > 0xFFFF then !ok && sock.sent == old(sock.sent)
            else old(sock.sent) <= sock.sent <= old(sock.sent) + EncodeRecord(x) &&
                 (ok ==> sock.sent == old(sock.sent) + EncodeRecord(x) && Sendable(x) && ec == ec0)
    ensures ok ==> Servable(host.tree, paths, e)
    ensures (Done(ok, ec, sock.Out()), host.scripts) ==
            EntryRun(old(sock.Out()), SettingOf(sock, host, paths, zeroCopy), e, old(host.scripts), ec0)
    ensures old(Smooth(sock, host)) ==>
              Smooth(sock, host) && (ok <==> Servable(host.tree, paths, e) && Sendable(SourceOf(host.tree, paths, e)))
  {
    hide Steady, Servable, EncodeFileHeader, Backing, FileRun, PushFileHeader;
    ok, ec := WriteFileHeader(sock, e, ec0);
    if !ok {
      return;
    }
    ok, ec := SendPayload(sock, host, paths, e, zeroCopy, ec);
  }

  lemma BodyStep(base: seq<byte>, xs: seq<Source>, sent: seq<byte>, ok: bool)
    requires xs != []
    requires if |xs[0].entry.relPath| > 0xFFFF then !ok && sent == base
             else base <= sent <= base + EncodeRecord(xs[0]) &&
                  (ok ==> sent == base + EncodeRecord(xs[0]) && Sendable(xs[0]))
    ensures base <= sent <= base + Body(xs)
    ensures ok ==> sent + Body(xs[1..]) == base + Body(xs)
  {
    hide EncodeRecord, Sendable, Body;
    if |xs[0].entry.relPath| <= 0xFFFF {
      BodyStarts(xs);
    }
  }

  lemma BodyEnd()
    ensures Body([]) == EncodeDone()
  {
  }

  /** Everything after the acknowledgement. */
  method SendBody(sock: Socket, host: Host, paths: seq<Text>, es: seq<FileEntry>, zeroCopy: bool, ec0: Errc)
    returns (ok: bool, ec: Errc)
    modifies sock`sent, sock`sendScript, host
    ensures var xs := SourcesOf(host.tree, paths, es);
            old(sock.sent) <= sock.sent <= old(sock.sent) + Body(xs) &&
            (ok ==> sock.sent == old(sock.sent) + Body(xs) && AllSendable(xs) && ec == ec0)
    ensures ok ==> AllServable(host.tree, paths, es)
    ensures Done(ok, ec, sock.Out()) ==
            BodyRun(old(sock.Out()), SettingOf(sock, host, paths, zeroCopy), es, old(host.scripts), ec0)
    ensures old(Smooth(sock, host)) ==>
              Smooth(sock, host) &&
              (ok <==> AllServable(host.tree, paths, es) && AllSendable(SourcesOf(host.tree, paths, es)))
  {
    hide Servable, Sendable, EncodeRecord, EncodeDone, Body, Backing, UpTo, Steady, Calm, EntryRun, BodyRun, PushAll;
    ec := ec0;
    ghost var s := SettingOf(sock, host, paths, zeroCopy);
    ghost var xs := SourcesOf(host.tree, paths, es);
    ghost var whole := sock.sent + Body(xs);
    assert es[0..] == es;
    for i := 0 to |es|
      invariant old(sock.sent) <= sock.sent && ec == ec0
      invariant sock.sent + Body(xs[i..]) == whole
      invariant BodyRun(sock.Out(), s, es[i..], host.scripts, ec) ==
                BodyRun(old(sock.Out()), s, es, old(host.scripts), ec0)
      invariant forall j :: 0 <= j < i ==> Sendable(xs[j]) && Servable(host.tree, paths, es[j])
      invariant old(Smooth(sock, host)) ==> Smooth(sock, host)
    {
      ghost var base := sock.sent;
      BodyRunStep(sock.Out(), s, es, i, host.scripts, ec);
      assert xs[i..][0] == xs[i] == SourceOf(host.tree, paths, es[i]) && xs[i..][1..] == xs[i + 1..];
      ok, ec := SendEntry(sock, host, paths, es[i], zeroCopy, ec);
      BodyStep(base, xs[i..], sock.sent, ok);
      if !ok {
        return;
      }
    }
    assert xs[|es|..] == [];
    BodyEnd();
    BodyRunEnd(sock.Out(), s, es[|es|..], host.scripts, ec);
    ok, ec := WriteDone(sock, ec);
  }

  // ---- sessions ----

  method FillChecksum(host: Host, paths: seq<Text>, e: FileEntry, ec0: Errc)
    returns (ok: bool, filled: FileEntry, ec: Errc)
    requires host.table.Valid()
    modifies host
    ensures ok ==> filled == e.(crc32 := Checksum(UpTo(Backing(host.tree, paths, e), e.size)))
    ensures ok ==> ec0 == ec == Clear && Servable(host.tree, paths, e)
    ensures Filling(ok, ec, host.scripts) == FillOne(host.tree, paths, e, old(host.scripts), ec0)
    ensures Calm(old(host.scripts)) ==> Calm(host.scripts) && (ok <==> ec0 == Clear && Fillable(host.tree, paths, e))
  {
    hide Checksum, Steady, Resolve, Opens, ContentAt, IsRegular, Calm, UpTo, ReadsThrough, Next, Later;
    ok, filled := false, e;
    var path;
    path, ec := ResolveOnDisk(host.tree, paths, e, ec0);
    if path.None? {
      return;
    }
    var file;
    file, ec := host.OpenForRead(path.value, ec);
    if file == null {
      return;
    }
    var crc;
    ghost var read;
    crc, ec, read := CrcOfFd(file, host.table, e.size, ec);
    if ec != Clear {
      return;
    }
    ok, filled := true, e.(crc32 := crc);
  }

  /** SendFiles computes the checksums that are missing. */
  method FillMissing(host: Host, paths: seq<Text>, es: seq<FileEntry>, ec0: Errc)
    returns (ok: bool, filled: seq<FileEntry>, ec: Errc)
    requires host.table.Valid()
    modifies host
    ensures ok ==> filled == FilledAll(host.tree, paths, es) && ec == ec0
    ensures Filling(ok, ec, host.scripts) == FillRun(host.tree, paths, es, old(host.scripts), ec0)
    ensures Calm(old(host.scripts)) ==>
              Calm(host.scripts) &&
              (ok <==> AllFillable(host.tree, paths, es) && (ec0 == Clear || forall e :: e in es ==> e.crc32 != 0))
  {
    hide Checksum, Calm, UpTo, Backing, Fillable, Servable, FillOne, FillRun;
    filled, ec := [], ec0;
    assert es[0..] == es;
    for i := 0 to |es|
      invariant ec == ec0 && |filled| == i
      invariant FillRun(host.tree, paths, es[i..], host.scripts, ec) ==
                FillRun(host.tree, paths, es, old(host.scripts), ec0)
      invariant forall j :: 0 <= j < i ==> filled[j] == Filled(host.tree, paths, es[j])
      invariant Calm(old(host.scripts)) ==> Calm(host.scripts)
      invariant Calm(old(host.scripts)) ==>
                  forall j :: 0 <= j < i && es[j].crc32 == 0 ==> ec0 == Clear && Fillable(host.tree, paths, es[j])
    {
      FillRunStep(host.tree, paths, es, i, host.scripts, ec);
      var e := es[i];
      if e.crc32 == 0 {
        ok, e, ec := FillChecksum(host, paths, e, ec);
        if !ok {
          return;
        }
      }
      filled := filled + [e];
    }
    ok := true;
    FillRunEnd(host.tree, paths, es[|es|..], host.scripts, ec);
    assert filled == FilledAll(host.tree, paths, es);
  }

  /** SendPaths computes every checksum. */
  method FillEvery(host: Host, paths: seq<Text>, es: seq<FileEntry>, ec0: Errc)
    returns (ok: bool, filled: seq<FileEntry>, ec: Errc)
    requires host.table.Valid() && forall e :: e in es ==> e.crc32 == 0
    modifies host
    ensures ok ==> filled == FilledAll(host.tree, paths, es) && ec == ec0
    ensures Filling(ok, ec, host.scripts) == FillRun(host.tree, paths, es, old(host.scripts), ec0)
    ensures Calm(old(host.scripts)) ==>
              Calm(host.scripts) && (ok <==> AllFillable(host.tree, paths, es) && (ec0 == Clear || es == []))
  {
    hide Checksum, Calm, UpTo, Backing, Fillable, Servable, FillOne, FillRun;
    filled, ec := [], ec0;
    assert es[0..] == es;
    for i := 0 to |es|
      invariant ec == ec0 && |filled| == i
      invariant FillRun(host.tree, paths, es[i..], host.scripts, ec) ==
                FillRun(host.tree, paths, es, old(host.scripts), ec0)
      invariant forall j :: 0 <= j < i ==> filled[j] == Filled(host.tree, paths, es[j])
      invariant Calm(old(host.scripts)) ==> Calm(host.scripts)
      invariant Calm(old(host.scripts)) ==>
                  (i > 0 ==> ec0 == Clear) && forall j :: 0 <= j < i ==> Fillable(host.tree, paths, es[j])
    {
      FillRunStep(host.tree, paths, es, i, host.scripts, ec);
      var e;
      ok, e, ec := FillChecksum(host, paths, es[i], ec);
      if !ok {
        return;
      }
      filled := filled + [e];
    }
    ok := true;
    FillRunEnd(host.tree, paths, es[|es|..], host.scripts, ec);
    assert filled == FilledAll(host.tree, paths, es);
  }

  method TotalSize(es: seq<FileEntry>, ghost xs: seq<Source>) returns (total: u64)
    requires |xs| == |es| && forall i :: 0 <= i < |es| ==> xs[i].entry == es[i]
    ensures total == TotalBytes(xs)
  {
    hide Sum64;
    total := 0;
    for i := 0 to |es|
      invariant total == TotalBytes(xs[..i])
    {
      assert xs[..i + 1][..i] == xs[..i];
      total := Sum64(total, es[i].size);
    }
    assert xs[..|es|] == xs;
  }

  /** What passes between the parties, as the sender sees it: the bytes sent, the bytes of the peer not read yet, and
      for each byte that was read how many had been sent by then. */
  datatype Talk = Talk(sent: seq<byte>, incoming: seq<byte>, marks: seq<nat>)

  ghost function TalkOf(sock: Socket): Talk
    reads sock
  {
    Talk(sock.sent, sock.incoming, sock.marks)
  }

  /** What has happened when a session ends: all has left exactly on success, else a prefix; nothing after the
      header without a valid acknowledgement, and nothing before it has been read to its end. */
  ghost predicate Spoke(ok: bool, xs: seq<Source>, before: Talk, after: Talk)
    requires |xs| < 0x1_0000_0000_0000_0000
  {
    var head := EncodeHeader(HeaderFor(xs));
    before.sent <= after.sent <= before.sent + (head + Body(xs)) &&
    (!ReadAck(before.incoming).Accepted? ==> !ok && after.sent <= before.sent + head) &&
    (|after.sent| > |before.sent + head| ==> after.marks == before.marks + Repeat(|before.sent + head|, 8)) &&
    (ok ==> after.sent == before.sent + (head + Body(xs)) && AllSendable(xs) &&
            after.incoming == ReadAck(before.incoming).rest)
  }

  /** As soon as 32 bytes have left, they are the header for es. */
  predicate Headed(before: seq<byte>, after: seq<byte>, es: seq<FileEntry>) {
    before <= after && (|after| >= |before| + 32 ==> HeaderInBytes(es, after[|before|..|before| + 32]))
  }

  lemma HeadedBy(before: seq<byte>, after: seq<byte>, head: seq<byte>, rest: seq<byte>, es: seq<FileEntry>)
    requires before <= after <= before + (head + rest) && |head| == 32 && HeaderInBytes(es, head)
    ensures Headed(before, after, es)
  {
    hide HeaderInBytes;
    if |after| >= |before| + 32 {
      assert after[|before|..|before| + 32] == (before + (head + rest))[|before|..|before| + 32] == head;
    }
  }

  lemma SpokeHeaded(ok: bool, xs: seq<Source>, before: Talk, after: Talk, es: seq<FileEntry>)
    requires |es| == |xs| < 0x1_0000_0000_0000_0000 && forall i :: 0 <= i < |es| ==> xs[i].entry.size == es[i].size
    requires Spoke(ok, xs, before, after)
    ensures Headed(before.sent, after.sent, es)
  {
    hide EncodeHeader, Body, HeaderInBytes, AllSendable, ReadAck, Headed;
    HeaderTold(es, xs);
    HeadedBy(before.sent, after.sent, EncodeHeader(HeaderFor(xs)), Body(xs), es);
  }

  /** All that has left is the session for es, byte for byte. */
  predicate Tells(t: Tree, paths: seq<Text>, es: seq<FileEntry>, before: seq<byte>, after: seq<byte>) {
    before <= after && SessionInBytes(t, paths, es, after[|before|..])
  }

  lemma SpokeTells(t: Tree, paths: seq<Text>, es: seq<FileEntry>, before: Talk, after: Talk)
    requires |es| < 0x1_0000_0000_0000_0000 && AllServable(t, paths, es)
    requires Spoke(true, Outgoing(t, paths, es), before, after)
    ensures Tells(t, paths, es, before.sent, after.sent)
  {
    hide EncodeHeader, Body, SessionInBytes, AllServable, AllSendable, Outgoing, ReadAck;
    SessionTold(t, paths, es);
    var b := EncodeHeader(HeaderFor(Outgoing(t, paths, es))) + Body(Outgoing(t, paths, es));
    assert (before.sent + b)[|before.sent|..] == b;
  }

  /** Header, acknowledgement, records, trailer. */
  method SendSession(sock: Socket, host: Host, paths: seq<Text>, es: seq<FileEntry>, zeroCopy: bool, ec0: Errc)
    returns (ok: bool, ec: Errc)
    requires host.table.Valid() && |es| < 0x1_0000_0000_0000_0000
    modifies sock`sent, sock`sendScript, sock`incoming, sock`recvCounts, sock`marks, host
    ensures Spoke(ok, SourcesOf(host.tree, paths, es), old(TalkOf(sock)), TalkOf(sock))
    ensures Headed(old(sock.sent), sock.sent, es)
    ensures ok ==> AllServable(host.tree, paths, es) && ec == ec0
    ensures (Done(ok, ec, sock.Out()), sock.incoming) ==
            SessionRun(old(sock.Out()), SettingOf(sock, host, paths, zeroCopy), es, old(host.scripts),
                       old(sock.incoming), ec0)
    ensures old(Smooth(sock, host)) ==>
              (ok <==> ReadAck(old(sock.incoming)).Accepted? && AllServable(host.tree, paths, es) &&
                       AllSendable(SourcesOf(host.tree, paths, es)))
  {
    hide Steady, EncodeHeader, Body, AllSendable, AllServable, SourceOf, ReadAck, TotalBytes, Calm, PushAll, BodyRun,
      Repeat, Headed, HeaderInBytes;
    ghost var xs := SourcesOf(host.tree, paths, es);
    EntriesKept(host.tree, paths, es);
    var totalBytes := TotalSize(es, xs);
    var header := SessionHeader(PROTO_VERSION, FLAG_CRC32, |es|, totalBytes);
    assert header == HeaderFor(xs);
    ghost var before := sock.sent;
    OutgoingSizes(host.tree, paths, es);
    HeaderTold(es, xs);
    ok, ec := WriteSessionHeader(sock, host.table, header, ec0);
    if !ok {
      assert sock.sent <= before + (EncodeHeader(header) + Body(xs));
      HeadedBy(before, sock.sent, EncodeHeader(header), Body(xs), es);
      return;
    }
    assert before + EncodeHeader(header) <= before + (EncodeHeader(header) + Body(xs));
    var flags;
    ghost var missing;
    AckTakesEight(sock.incoming);
    ok, flags, ec, missing := ReadAckFrom(sock, ec);
    if !ok {
      HeadedBy(before, sock.sent, EncodeHeader(header), Body(xs), es);
      return;
    }
    ok, ec := SendBody(sock, host, paths, es, zeroCopy, ec);
    assert before + EncodeHeader(header) + Body(xs) == before + (EncodeHeader(header) + Body(xs));
    HeadedBy(before, sock.sent, EncodeHeader(header), Body(xs), es);
  }

  lemma EntriesKept(t: Tree, paths: seq<Text>, es: seq<FileEntry>)
    ensures var xs := SourcesOf(t, paths, es); forall i :: 0 <= i < |es| ==> xs[i].entry == es[i]
  {
    hide Backing, UpTo;
  }

  /** The bytes of a finished session. */
  ghost predicate Delivers(xs: seq<Source>, before: seq<byte>, after: seq<byte>)
    requires |xs| < 0x1_0000_0000_0000_0000
  {
    Encodable(xs) && after == before + EncodeSession(xs)
  }

  lemma SpokeWhole(xs: seq<Source>, before: Talk, after: Talk)
    requires |xs| < 0x1_0000_0000_0000_0000 && Spoke(true, xs, before, after)
    ensures Delivers(xs, before.sent, after.sent)
  {
    SessionBytes(xs);
  }

  /** What a caller is told about sending a manifest: what has left, the session exactly on success, and nothing of it
      unless every file was found and every record could be sent whole. */
  ghost predicate Sent(t: Tree, paths: seq<Text>, manifest: seq<FileEntry>, ok: bool, before: Talk, after: Talk)
    requires |manifest| < 0x1_0000_0000_0000_0000
  {
    var xs := Outgoing(t, paths, manifest);
    Spoke(ok, xs, before, after) && Headed(before.sent, after.sent, manifest) &&
    (ok ==> Delivers(xs, before.sent, after.sent) && Tells(t, paths, manifest, before.sent, after.sent) &&
            AllServable(t, paths, manifest))
  }

  lemma SilentSent(t: Tree, paths: seq<Text>, manifest: seq<FileEntry>, talk: Talk)
    requires |manifest| < 0x1_0000_0000_0000_0000
    ensures Sent(t, paths, manifest, false, talk, talk)
  {
    hide Spoke, Headed, Outgoing;
    var xs := Outgoing(t, paths, manifest);
    SilentSpoke(xs, talk);
    OutgoingSizes(t, paths, manifest);
    SpokeHeaded(false, xs, talk, talk, manifest);
  }

  lemma SpokeSent(t: Tree, paths: seq<Text>, manifest: seq<FileEntry>, ok: bool, before: Talk, after: Talk)
    requires |manifest| < 0x1_0000_0000_0000_0000 && Spoke(ok, Outgoing(t, paths, manifest), before, after)
    requires ok ==> AllServable(t, paths, manifest)
    ensures Sent(t, paths, manifest, ok, before, after)
  {
    hide Spoke, Headed, Outgoing, Delivers, Tells, AllServable;
    var xs := Outgoing(t, paths, manifest);
    OutgoingSizes(t, paths, manifest);
    SpokeHeaded(ok, xs, before, after, manifest);
    if ok {
      SpokeWhole(xs, before, after);
      SpokeTells(t, paths, manifest, before, after);
    }
  }

  /** The session of a manifest whose checksums have been filled in. */
  method SendFilled(sock: Socket, host: Host, paths: seq<Text>, ghost manifest: seq<FileEntry>,
                    entries: seq<FileEntry>, zeroCopy: bool, ec0: Errc) returns (ok: bool, ec: Errc)
    requires host.table.Valid() && |manifest| < 0x1_0000_0000_0000_0000
    requires entries == FilledAll(host.tree, paths, manifest)
    modifies sock`sent, sock`sendScript, sock`incoming, sock`recvCounts, sock`marks, host
    ensures Sent(host.tree, paths, manifest, ok, old(TalkOf(sock)), TalkOf(sock))
    ensures ok ==> ec == ec0
    ensures (Done(ok, ec, sock.Out()), sock.incoming) ==
            SessionRun(old(sock.Out()), SettingOf(sock, host, paths, zeroCopy), entries, old(host.scripts),
                       old(sock.incoming), ec0)
    ensures old(Smooth(sock, host)) ==>
              (ok <==> ReadAck(old(sock.incoming)).Accepted? && AllServable(host.tree, paths, manifest) &&
                       AllSendable(Outgoing(host.tree, paths, manifest)))
  {
    hide Steady, Calm, Spoke, Headed, AllServable, AllSendable, FilledAll, SourcesOf, Outgoing, ReadAck, SessionRun,
      Sent;
    ghost var before := TalkOf(sock);
    OutgoingIs(host.tree, paths, manifest);
    FilledServable(host.tree, paths, manifest);
    ok, ec := SendSession(sock, host, paths, entries, zeroCopy, ec0);
    SpokeSent(host.tree, paths, manifest, ok, before, TalkOf(sock));
  }

  method SendFiles(sock: Socket, host: Host, paths: seq<Text>, manifest: seq<FileEntry>, opts: SenderOptions, ec0: Errc)
    returns (ok: bool, ec: Errc)
    requires host.table.Valid() && |manifest| < 0x1_0000_0000_0000_0000
    modifies sock`sent, sock`sendScript, sock`incoming, sock`recvCounts, sock`marks, host
    ensures manifest == [] ==> ok && ec == ec0 && sock.sent == old(sock.sent) && sock.incoming == old(sock.incoming)
    ensures manifest != [] ==>
              Sent(host.tree, paths, manifest, ok, old(TalkOf(sock)), TalkOf(sock)) && (ok ==> ec == ec0)
    ensures (Done(ok, ec, sock.Out()), sock.incoming) ==
            FilesRun(old(sock.Out()), SettingOf(sock, host, paths, opts.zeroCopy), manifest, old(host.scripts),
                     old(sock.incoming), ec0)
    ensures manifest != [] && old(Smooth(sock, host)) ==>
              (ok <==> ReadAck(old(sock.incoming)).Accepted? && AllServable(host.tree, paths, manifest) &&
                       AllSendable(Outgoing(host.tree, paths, manifest)) &&
                       (ec0 == Clear || forall e :: e in manifest ==> e.crc32 != 0))
  {
    hide Steady, Calm, Sent, AllServable, AllSendable, AllFillable, FilledAll, ReadAck, FillRun, SessionRun, FilesRun,
      Outgoing;
    ghost var io, s, scripts := sock.Out(), SettingOf(sock, host, paths, opts.zeroCopy), host.scripts;
    if manifest == [] {
      NothingToSend(io, s, scripts, sock.incoming, ec0);
      return true, ec0;
    }
    FilesRunUnfolds(io, s, manifest, scripts, sock.incoming, ec0);
    SendableFills(host.tree, paths, manifest);
    SilentSent(host.tree, paths, manifest, TalkOf(sock));
    var entries;
    ok, entries, ec := FillMissing(host, paths, manifest, ec0);
    if !ok {
      return;
    }
    ok, ec := SendFilled(sock, host, paths, manifest, entries, opts.zeroCopy, ec);
  }

  lemma SendableFills(t: Tree, paths: seq<Text>, es: seq<FileEntry>)
    ensures AllServable(t, paths, es) && AllSendable(Outgoing(t, paths, es)) ==> AllFillable(t, paths, es)
  {
    hide AllServable, AllSendable, AllFillable, Outgoing;
    FilledServable(t, paths, es);
    if AllServable(t, paths, es) && AllSendable(Outgoing(t, paths, es)) {
      SendableAreFillable(t, paths, es);
    }
  }

  lemma SilentSpoke(xs: seq<Source>, t: Talk)
    requires |xs| < 0x1_0000_0000_0000_0000
    ensures Spoke(false, xs, t, t)
  {
  }

  // ---- paths ----

  /** p is a regular file with an ordinary name that can be opened, to be sent without a prefix. */
  predicate SendsOne(t: Tree, opts: SenderOptions, p: Text) {
    WellFormed(t) && IsRegular(t, p) && At(t, p) !in t.locked && opts.stripPrefix == [] &&
    FileName(p) != [0x2E, 0x2E] && |FileName(p)| <= 0xFFFF
  }

  function OneSource(t: Tree, p: Text): Source
    requires WellFormed(t) && IsRegular(t, p)
  {
    var c := t.files[At(t, p)];
    Source(FileEntry(FileName(p), |c|, Checksum(c)), c)
  }

  /** What sending one regular file comes to, acknowledged and without I/O errors. */
  ghost predicate OneSent(t: Tree, opts: SenderOptions, paths: seq<Text>, ok: bool, before: Talk, after: Talk) {
    |paths| == 1 && SendsOne(t, opts, paths[0]) ==> ok && Delivers([OneSource(t, paths[0])], before.sent, after.sent)
  }

  lemma OneIsSent(t: Tree, opts: SenderOptions, paths: seq<Text>, es: seq<FileEntry>, ok: bool, before: Talk,
                  after: Talk)
    requires |es| < 0x1_0000_0000_0000_0000 && WellFormed(t)
    requires if AllExist(t, paths) then IsManifest(t, opts, paths, es) else es == []
    requires es != [] ==> Sent(t, paths, es, ok, before, after)
    requires es != [] ==> (ok <==> AllServable(t, paths, es) && AllSendable(Outgoing(t, paths, es)))
    ensures OneSent(t, opts, paths, ok, before, after)
  {
    hide IsManifest, AllServable, AllSendable, Outgoing, At, FileName, Delivers, Spoke, Tells, Headed, IsRegular,
      IsDirectory;
    if |paths| == 1 && SendsOne(t, opts, paths[0]) {
      assert paths == [paths[0]];
      OneFileSent(t, opts, paths[0], es);
    }
  }

  /** Compute the checksums of a collected manifest, and send it. */
  method SendCollected(sock: Socket, host: Host, paths: seq<Text>, es: seq<FileEntry>, opts: SenderOptions, ec0: Errc)
    returns (ok: bool, ec: Errc)
    requires host.table.Valid() && 0 < |es| < 0x1_0000_0000_0000_0000 && forall e :: e in es ==> e.crc32 == 0
    modifies sock`sent, sock`sendScript, sock`incoming, sock`recvCounts, sock`marks, host
    ensures Sent(host.tree, paths, es, ok, old(TalkOf(sock)), TalkOf(sock)) && (ok ==> ec == ec0)
    ensures (Done(ok, ec, sock.Out()), sock.incoming) ==
            FilesRun(old(sock.Out()), SettingOf(sock, host, paths, opts.zeroCopy), es, old(host.scripts),
                     old(sock.incoming), ec0)
    ensures old(Smooth(sock, host)) ==>
              (ok <==> ReadAck(old(sock.incoming)).Accepted? && AllServable(host.tree, paths, es) &&
                       AllSendable(Outgoing(host.tree, paths, es)) && ec0 == Clear)
  {
    hide Steady, Calm, Sent, AllServable, AllSendable, AllFillable, FilledAll, ReadAck, FillRun, SessionRun, FilesRun,
      Outgoing;
    ghost var io, s, scripts := sock.Out(), SettingOf(sock, host, paths, opts.zeroCopy), host.scripts;
    FilesRunUnfolds(io, s, es, scripts, sock.incoming, ec0);
    SendableFills(host.tree, paths, es);
    SilentSent(host.tree, paths, es, TalkOf(sock));
    var entries;
    ok, entries, ec := FillEvery(host, paths, es, ec0);
    if !ok {
      return;
    }
    ok, ec := SendFilled(sock, host, paths, es, entries, opts.zeroCopy, ec);
  }

  /** Collect, compute the checksums, send. A source that does not exist leaves the manifest empty, so that the
      call reports success with the error set. */
  method SendPaths(sock: Socket, host: Host, paths: seq<Text>, opts: SenderOptions, ec0: Errc)
    returns (ok: bool, ec: Errc, ghost manifest: seq<FileEntry>)
    requires host.table.Valid() && WellFormed(host.tree)
    requires |ScannedAll(host.tree, opts, paths)| < 0x1_0000_0000_0000_0000
    modifies sock`sent, sock`sendScript, sock`incoming, sock`recvCounts, sock`marks, host
    ensures AllExist(host.tree, paths) ==> IsManifest(host.tree, opts, paths, manifest)
    ensures !AllExist(host.tree, paths) ==> manifest == [] && ec == NoSuchFile
    ensures manifest == [] ==> ok && sock.sent == old(sock.sent) && sock.incoming == old(sock.incoming)
    ensures |manifest| < 0x1_0000_0000_0000_0000
    ensures manifest != [] ==>
              Sent(host.tree, paths, manifest, ok, old(TalkOf(sock)), TalkOf(sock)) && (ok ==> ec == ec0)
    ensures (Done(ok, ec, sock.Out()), sock.incoming) ==
            FilesRun(old(sock.Out()), SettingOf(sock, host, paths, opts.zeroCopy), manifest, old(host.scripts),
                     old(sock.incoming), if AllExist(host.tree, paths) then ec0 else NoSuchFile)
    ensures manifest != [] && old(Smooth(sock, host)) ==>
              (ok <==> ReadAck(old(sock.incoming)).Accepted? && AllServable(host.tree, paths, manifest) &&
                       AllSendable(Outgoing(host.tree, paths, manifest)) && ec0 == Clear)
    ensures old(Smooth(sock, host)) && ReadAck(old(sock.incoming)).Accepted? && ec0 == Clear ==>
              OneSent(host.tree, opts, paths, ok, old(TalkOf(sock)), TalkOf(sock))
  {
    hide Steady, Calm, Sent, OneSent, AllServable, AllSendable, ReadAck, WellFormed, IsManifest, ScannedAll, AllExist,
      FilesRun, Outgoing, Accounts, Ordinary, ByteLess;
    ghost var before := TalkOf(sock);
    var es;
    es, ec := CollectFiles(host.tree, paths, opts, ec0);
    manifest := es;
    if es == [] {
      NothingToSend(sock.Out(), SettingOf(sock, host, paths, opts.zeroCopy), host.scripts, sock.incoming, ec);
      OneIsSent(host.tree, opts, paths, es, true, before, before);
      return true, ec, manifest;
    }
    ManifestFresh(host.tree, opts, paths, es);
    ok, ec := SendCollected(sock, host, paths, es, opts, ec);
    if ok <==> AllServable(host.tree, paths, es) && AllSendable(Outgoing(host.tree, paths, es)) {
      OneIsSent(host.tree, opts, paths, es, ok, before, TalkOf(sock));
    }
  }
}
